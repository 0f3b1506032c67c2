/** mdb_ovpage_free: give the pages of an overflow run back. */
module OverflowFree {
  import opened Midl
  import opened PageRuns
  import D = DirtyList
  type Id2 = D.Id2
  import N = NestedCommit

  const MDB_CORRUPTED := -30796

  // ---- the dirty list ----

  /** The dirty list while it is searched from the end for mp: ix has been lifted out, and
      everything behind it moved down one slot. */
  ghost predicate Lifting(now: seq<Id2>, s: seq<Id2>, x: int, ix: Id2, mp: int) {
    && |s| < |now| && 1 <= x <= |s| && ix == s[x - 1]
    && (forall k :: 1 <= k < x ==> now[k] == s[k - 1])
    && (forall k :: x <= k < |s| ==> now[k] == s[k])
    && (forall k :: x <= k < |s| ==> s[k].mptr != mp)
  }

  lemma LiftingDown(now: seq<Id2>, s: seq<Id2>, x: int, ix: Id2, mp: int)
    requires Lifting(now, s, x, ix, mp) && ix.mptr != mp && 1 < x
    ensures Lifting(now[x - 1 := ix], s, x - 1, now[x - 1], mp)
  {
  }

  /** t is s without its y-th entry, the last one for page copy mp. */
  ghost predicate Removes(s: seq<Id2>, t: seq<Id2>, y: int, mp: int) {
    && 0 <= y < |s| && s[y].mptr == mp && t == s[..y] + s[y + 1..]
    && forall k :: y < k < |s| ==> s[k].mptr != mp
  }

  predicate Holds(s: seq<Id2>, mp: int) {
    exists k :: 0 <= k < |s| && s[k].mptr == mp
  }

  lemma LiftingDone(now: seq<Id2>, s: seq<Id2>, x: int, ix: Id2, mp: int)
    requires Lifting(now, s, x, ix, mp)
    ensures ix.mptr == mp ==> Removes(s, now[1..|s|], x - 1, mp) && Holds(s, mp)
    ensures ix.mptr != mp && x == 1 ==> !Holds(s, mp) && now[1..|s|] + [ix] == s[1..] + s[..1]
  {
  }

  lemma RemovedValid(s: seq<Id2>, t: seq<Id2>, y: int, mp: int)
    requires Removes(s, t, y, mp) && D.Asc(s) && D.Positive(s)
    ensures D.Asc(t) && D.Positive(t)
  {
    N.AscRemove(s, y);
  }

  /** Search from the end, moving entries down over the gap, until mp or the first entry. */
  method LiftOut(dl: array<Id2>, mp: int, x0: int, ghost s: seq<Id2>) returns (x: int, ix: Id2)
    requires x0 == |s| && 0 < x0 < dl.Length && dl[1..x0 + 1] == s
    modifies dl
    ensures Lifting(dl[..], s, x, ix, mp) && dl[0] == old(dl[0])
    ensures ix.mptr == mp || x == 1
  {
    x := x0;
    ix := dl[x];
    assert forall k :: 1 <= k <= |s| ==> dl[k] == dl[1..x0 + 1][k - 1];
    assert Lifting(dl[..], s, x, ix, mp);
    hide Lifting;
    while ix.mptr != mp && 1 < x
      invariant 1 <= x <= |s| < dl.Length && dl[0] == old(dl[0])
      invariant Lifting(dl[..], s, x, ix, mp)
      decreases x
    {
      LiftingDown(dl[..], s, x, ix, mp);
      x := x - 1;
      ghost var now := dl[..];
      var iy := dl[x];
      dl[x] := ix;
      assert dl[..] == now[x := ix];
      ix := iy;
    }
  }

  /** The list is as before, but its first entry is now the last. */
  ghost predicate Rotated(was: seq<Id2>, now: seq<Id2>) {
    && |was| == |now| && was != [] && now[0] == was[0] && 0 < was[0].mid < |was|
    && now[1..was[0].mid + 1] == was[2..was[0].mid + 1] + was[1..2]
  }

  lemma RotatedIs(was: seq<Id2>, now: seq<Id2>)
    requires |was| == |now| && was != [] && now[0] == was[0] && 0 < was[0].mid < |was|
    requires var s := was[1..was[0].mid + 1]; now[1..was[0].mid + 1] == s[1..] + s[..1]
    ensures Rotated(was, now)
  {
    var s := was[1..was[0].mid + 1];
    assert s[1..] == was[2..was[0].mid + 1] && s[..1] == was[1..2];
  }

  /** Remove the entry of page mp. Without one the list ends up rotated, and the error is
      reported. */
  method RemoveDirty(dl: array<Id2>, mp: int) returns (rc: int, ghost y: int)
    requires D.Valid(dl) && 0 < dl[0].mid
    modifies dl
    ensures rc == if Holds(old(D.Elems(dl)), mp) then SUCCESS else MDB_CORRUPTED
    ensures rc == SUCCESS ==> D.Valid(dl) && Removes(old(D.Elems(dl)), D.Elems(dl), y, mp)
    ensures rc != SUCCESS ==> Rotated(old(dl[..]), dl[..])
  {
    ghost var s, was := D.Elems(dl), dl[..];
    var x := dl[0].mid;
    dl[0] := dl[0].(mid := x - 1);
    var ix;
    x, ix := LiftOut(dl, mp, x, s);
    LiftingDone(dl[..], s, x, ix, mp);
    assert dl[..][1..|s|] == dl[1..|s|];
    if ix.mptr == mp { RemovedValid(s, dl[1..|s|], x - 1, mp); }
    hide Lifting, Holds, Removes, D.Asc, D.Positive;
    if ix.mptr != mp {
      ghost var now := dl[..];
      var j := dl[0].mid + 1;
      dl[0] := dl[0].(mid := j);
      dl[j] := ix;
      assert dl[1..j + 1] == now[1..|s|] + [ix];
      RotatedIs(was, dl[..]);
      return MDB_CORRUPTED, 0;
    }
    return SUCCESS, x - 1;
  }

  // ---- the spill list ----

  /** A spill list names no page twice: deleted entries are purged before pages are added. */
  ghost predicate SpillList(s: seq<int>) {
    N.Spill(s) && forall i, j :: 0 <= i < j < |s| ==> s[i] / 2 > s[j] / 2
  }

  /** Striking the entry at slot x takes page s[x - 1] / 2 off the spill list. */
  lemma Struck(s: seq<int>, x: int, t: seq<int>)
    requires SpillList(s) && 1 <= x <= |s| && s[x - 1] % 2 == 0 && s[x - 1] + 1 < ID_MAX
    requires t == if x == |s| then s[..|s| - 1] else s[x - 1 := s[x - 1] + 1]
    ensures SpillList(t) && N.SpillPages(t) == N.SpillPages(s) - {s[x - 1] / 2}
  {
    StruckPages(s, x, t);
  }

  lemma StruckPages(s: seq<int>, x: int, t: seq<int>)
    requires SpillList(s) && 1 <= x <= |s| && s[x - 1] % 2 == 0
    requires t == if x == |s| then s[..|s| - 1] else s[x - 1 := s[x - 1] + 1]
    ensures N.SpillPages(t) == N.SpillPages(s) - {s[x - 1] / 2}
  {
    var pn := s[x - 1];
    forall p | p in N.SpillPages(t) ensures p in N.SpillPages(s) && p != pn / 2 {
      var i :| 0 <= i < |t| && t[i] % 2 == 0 && t[i] / 2 == p;
      assert i != x - 1 && t[i] == s[i];
    }
    forall p | p in N.SpillPages(s) && p != pn / 2 ensures p in N.SpillPages(t) {
      var i :| 0 <= i < |s| && s[i] % 2 == 0 && s[i] / 2 == p;
      assert i != x - 1 && t[i] == s[i];
    }
  }

  /** Take a page off the spill list: truncate the list, or mark the entry deleted. */
  method Strike(sl: array<Id>, x: int)
    requires ValidIdl(sl) && SpillList(Elems(sl)) && 1 <= x <= sl[0] && sl[x] % 2 == 0 && sl[x] + 1 < ID_MAX
    modifies sl
    ensures ValidIdl(sl) && SpillList(Elems(sl))
    ensures N.SpillPages(Elems(sl)) == N.SpillPages(old(Elems(sl))) - {old(sl[x]) / 2}
  {
    ghost var s := Elems(sl);
    assert sl[x] == s[x - 1];
    if x == sl[0] {
      sl[0] := sl[0] - 1;
    } else {
      sl[x] := sl[x] + 1;                        // |= 1
    }
    assert sl[1..sl[0] + 1] == if x == |s| then s[..|s| - 1] else s[x - 1 := s[x - 1] + 1];
    Struck(s, x, Elems(sl));
  }

  /** Is page pg on the spill list? */
  method FindSpilled(sl: array<Id>, pg: Id) returns (x: nat, found: bool)
    requires ValidIdl(sl) && SpillList(Elems(sl)) && 0 <= 2 * pg <= ID_MAX
    ensures found <==> pg in N.SpillPages(Elems(sl))
    ensures found ==> 1 <= x <= sl[0] && sl[x] == 2 * pg
  {
    x := Search(sl, 2 * pg);
    ghost var s := Elems(sl);
    assert forall k :: 1 <= k <= |s| ==> sl[k] == s[k - 1];
    found := x <= sl[0] && sl[x] == 2 * pg;
    if pg in N.SpillPages(s) {
      var i :| 0 <= i < |s| && s[i] % 2 == 0 && s[i] / 2 == pg;
      assert s[i] in s;
    }
  }

  // ---- mdb_ovpage_free ----

  /** Hand a run back: off the dirty or spill list, into the free-page list. */
  method GiveBack(head: array<Id>, spill: array<Id>, dirty: array<Id2>, pg: Id, n: int, mp: int, isDirty: bool,
      x: nat, canGrow: bool)
    returns (rc: int, out: array<Id>, ghost y: int)
    requires ValidIdl(head) && StrictDesc(Elems(head)) && head != spill && 1 <= n && 0 <= pg && 2 * (pg + n) <= ID_MAX
    requires ValidIdl(spill) && SpillList(Elems(spill)) && D.Valid(dirty) && Absent(Elems(head), pg, n)
    requires if isDirty then 0 < dirty[0].mid else 1 <= x <= spill[0] && spill[x] == 2 * pg
    modifies head, spill, dirty
    ensures out == head || fresh(out)
    ensures rc == SUCCESS ==> ValidIdl(out) && StrictDesc(Elems(out)) && Elems(out) == WithRun(old(Elems(head)), pg, n)
    ensures rc == SUCCESS ==> ValidIdl(spill) && SpillList(Elems(spill)) && D.Valid(dirty)
    ensures rc == SUCCESS ==>
              if isDirty then
                Elems(spill) == old(Elems(spill)) && Removes(old(D.Elems(dirty)), D.Elems(dirty), y, mp)
              else
                && D.Elems(dirty) == old(D.Elems(dirty))
                && N.SpillPages(Elems(spill)) == N.SpillPages(old(Elems(spill))) - {pg}
    ensures rc == ENOMEM <==> !canGrow && old(head[0]) + n >= head.Length
    ensures rc == MDB_CORRUPTED <==>
            (canGrow || old(head[0]) + n < head.Length) && isDirty && !Holds(old(D.Elems(dirty)), mp)
    ensures rc in {SUCCESS, ENOMEM, MDB_CORRUPTED}
    ensures rc != SUCCESS ==> ValidIdl(out) && Elems(out) == old(Elems(head)) && spill[..] == old(spill[..])
    ensures rc == MDB_CORRUPTED ==> Rotated(old(dirty[..]), dirty[..])
    ensures rc == ENOMEM ==>
              && out == head && ValidIdl(spill) && Elems(spill) == old(Elems(spill))
              && D.Valid(dirty) && D.Elems(dirty) == old(D.Elems(dirty))
  {
    hide StrictDesc, Ids, SpillList, N.SpillPages, Removes, Holds, ValidIdl, Elems, D.Valid, D.Elems, Absent, WithRun;
    RunBack(Elems(head), pg, n);
    y := 0;
    rc, out := Need(head, n, canGrow);
    if rc != SUCCESS { return; }
    if isDirty {
      rc, y := RemoveDirty(dirty, mp);
      if rc != SUCCESS { return; }
    } else {
      Strike(spill, x);
    }
    InsertRun(out, pg, n);
  }

  lemma RunBack(s: seq<Id>, pg: Id, n: nat)
    requires StrictDesc(s) && Absent(s, pg, n)
    ensures StrictDesc(WithRun(s, pg, n))
  {
    RunAdded(s, pg, n);
  }

  class Txn {
    var head: array?<Id>          // me_pghead
    var freePgs: array<Id>        // mt_free_pgs
    var spill: array<Id>          // mt_spill_pgs, empty when there is none
    var dirty: array<Id2>         // dirty_list
    var nested: bool              // mt_parent
    var dirtyRoom: int
    var failed: bool              // MDB_TXN_ERROR
    var overflowPages: int        // md_overflow_pages

    constructor (freePgs: array<Id>, spill: array<Id>, dirty: array<Id2>)
      ensures this.freePgs == freePgs && this.spill == spill && this.dirty == dirty && head == null
    {
      this.freePgs, this.spill, this.dirty := freePgs, spill, dirty;
      head, nested, failed, dirtyRoom, overflowPages := null, false, false, 0, 0;
    }

    ghost predicate Valid()
      reads this, head, freePgs, spill, dirty
    {
      && (head != null ==> ValidIdl(head) && StrictDesc(Elems(head)) && head != freePgs && head != spill)
      && ValidIdl(freePgs) && D.Valid(dirty) && spill != freePgs
      && ValidIdl(spill) && SpillList(Elems(spill))
    }

    ghost function Lists(): View
      requires Valid()
      reads this, head, freePgs, spill, dirty
    {
      View(head != null, if head == null then [] else Elems(head), Elems(freePgs),
           N.SpillPages(Elems(spill)), D.Elems(dirty), dirtyRoom, overflowPages, nested, failed)
    }

    /** The list that the run goes to need not grow. */
    ghost predicate HasRoom(pg: Id, n: int, isDirty: bool)
      requires Valid()
      reads this, head, freePgs, spill, dirty
    {
      if Own(Lists(), pg, isDirty) then head[0] + n < head.Length else freePgs[0] + n < freePgs.Length
    }

    /** The transaction's own run goes to its free-page list. */
    method ReturnRun(pg: Id, n: int, mp: int, isDirty: bool, x: nat, canGrow: bool) returns (rc: int)
      requires Valid() && 1 <= n && 0 <= pg && 2 * (pg + n) <= ID_MAX && head != null
      requires if isDirty then 0 < dirty[0].mid else 1 <= x <= spill[0] && spill[x] == 2 * pg
      requires Absent(Lists().list, pg, n)
      modifies this`head, this`dirtyRoom, this`failed, head, spill, dirty
      ensures rc == SUCCESS ==> Valid() && Returned(old(Lists()), Lists(), pg, n, mp, isDirty)
      ensures rc == ENOMEM <==> !canGrow && old(head[0]) + n >= old(head).Length
      ensures rc == MDB_CORRUPTED <==>
              (canGrow || old(head[0]) + n < old(head).Length) && isDirty && !Holds(old(D.Elems(dirty)), mp)
      ensures rc in {SUCCESS, ENOMEM, MDB_CORRUPTED}
      ensures rc == ENOMEM ==> Valid() && Lists() == old(Lists())
      ensures rc == MDB_CORRUPTED ==>
                && failed && head != null && ValidIdl(head) && Elems(head) == old(Elems(head))
                && spill[..] == old(spill[..]) && Rotated(old(dirty[..]), dirty[..]) && dirtyRoom == old(dirtyRoom)
    {
      hide StrictDesc, Ids, SpillList, N.SpillPages, Removes, Holds, D.Asc, D.Positive, ValidIdl, Elems, D.Valid,
        D.Elems, Absent, Rotated;
      var out;
      ghost var y;
      rc, out, y := GiveBack(head, spill, dirty, pg, n, mp, isDirty, x, canGrow);
      head := out;
      if rc != SUCCESS {
        failed := failed || rc == MDB_CORRUPTED;
        return;
      }
      dirtyRoom := dirtyRoom + if isDirty then 1 else 0;
    }

    /** A run of an earlier transaction is noted as freed. */
    method NoteRun(pg: Id, n: int, canGrow: bool) returns (rc: int)
      requires Valid() && 1 <= n && 0 <= pg && 2 * (pg + n) <= ID_MAX
      modifies this`freePgs, freePgs
      ensures Valid() && (rc == SUCCESS <==> canGrow || old(freePgs[0]) + n < old(freePgs).Length)
      ensures rc == SUCCESS ==> Lists() == old(Lists()).(freed := old(Lists()).freed + RunDown(pg, n))
      ensures rc != SUCCESS ==> rc == ENOMEM && Lists() == old(Lists())
    {
      hide StrictDesc, Ids, SpillList, N.SpillPages, ValidIdl, Elems, D.Valid, D.Elems;
      var out;
      rc, out := AppendRange(freePgs, pg, n, canGrow);
      freePgs := out;
    }

    /** Free an overflow run; mp is the page in memory. */
    method Free(pg: Id, n: int, mp: int, isDirty: bool, canGrow: bool) returns (rc: int)
      requires Valid() && 1 <= n && 0 <= pg && 2 * (pg + n) <= ID_MAX
      requires isDirty ==> 0 < dirty[0].mid
      requires Absent(Lists().list, pg, n)
      modifies this, head, freePgs, spill, dirty
      ensures rc == SUCCESS ==> Valid() && overflowPages == old(overflowPages) - n
      ensures rc == SUCCESS ==>
                if Own(old(Lists()), pg, isDirty) then Returned(old(Lists()), Lists(), pg, n, mp, isDirty)
                else Noted(old(Lists()), Lists(), pg, n)
      ensures rc == ENOMEM <==> !canGrow && !old(HasRoom(pg, n, isDirty))
      ensures rc == MDB_CORRUPTED <==>
              && (canGrow || old(HasRoom(pg, n, isDirty))) && Own(old(Lists()), pg, isDirty)
              && isDirty && !Holds(old(D.Elems(dirty)), mp)
      ensures rc in {SUCCESS, ENOMEM, MDB_CORRUPTED}
      ensures rc == ENOMEM ==> Valid() && Lists() == old(Lists())
      ensures rc == MDB_CORRUPTED ==>
                && failed && head != null && ValidIdl(head) && Elems(head) == old(Lists()).list
                && freePgs == old(freePgs) && freePgs[..] == old(freePgs[..])
                && spill == old(spill) && spill[..] == old(spill[..])
                && dirty == old(dirty) && Rotated(old(dirty[..]), dirty[..])
                && dirtyRoom == old(dirtyRoom) && overflowPages == old(overflowPages) && nested == old(nested)
    {
      hide StrictDesc, Ids, SpillList, N.SpillPages, Removes, Holds, D.Asc, D.Positive, ValidIdl, Elems, D.Valid,
        D.Elems, Absent, Rotated;
      var x, spilled := 0, false;
      if head != null && !nested && !isDirty {
        x, spilled := FindSpilled(spill, pg);
      }
      if head != null && !nested && (isDirty || spilled) {
        rc := ReturnRun(pg, n, mp, isDirty, x, canGrow);
      } else {
        rc := NoteRun(pg, n, canGrow);
      }
      if rc == SUCCESS { overflowPages := overflowPages - n; }
    }
  }

  /** What the page lists of a transaction say. */
  datatype View = View(hasHead: bool, list: seq<Id>, freed: seq<Id>, spilled: set<int>, dirty: seq<Id2>,
                       room: int, overflow: int, nested: bool, failed: bool)

  ghost predicate Absent(s: seq<Id>, pg: Id, n: nat) {
    forall p :: p in s ==> !(pg <= p < pg + n)
  }

  /** The run at pg was obtained by this transaction, and may be handed out again. */
  ghost predicate Own(v: View, pg: Id, isDirty: bool) {
    v.hasHead && !v.nested && (isDirty || pg in v.spilled)
  }

  /** The run joined the free-page list, and left the dirty list or the spill list. */
  ghost predicate Returned(v: View, v': View, pg: Id, n: nat, mp: int, isDirty: bool) {
    && v'.hasHead && v'.list == WithRun(v.list, pg, n) && v'.freed == v.freed
    && v'.failed == v.failed && v'.nested == v.nested
    && (if isDirty then v'.spilled == v.spilled && v'.room == v.room + 1 &&
      exists y :: Removes(v.dirty, v'.dirty, y, mp)
        else v'.spilled == v.spilled - {pg} && v'.room == v.room && v'.dirty == v.dirty)
  }

  /** The run is noted as freed by this transaction, and nothing else changed. */
  ghost predicate Noted(v: View, v': View, pg: Id, n: nat) {
    v' == v.(freed := v.freed + RunDown(pg, n), overflow := v.overflow - n)
  }
}
