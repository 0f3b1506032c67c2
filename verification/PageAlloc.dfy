/** mdb_page_alloc: pages for the writer, from its loose pages, the free-page list, freeDB
    records no reader can still need, or the end of the file. */
module PageAlloc {
  import opened Midl
  import opened PageRuns

  /** One freeDB record: the pages freed by transaction `key`. */
  datatype Rec = Rec(key: int, ids: seq<Id>)

  const MDB_SUCCESS := 0
  const MDB_MAP_FULL := -30792
  const MDB_TXN_FULL := -30788

  /** Records come in key order; no page is listed twice. */
  ghost predicate ValidRecs(recs: seq<Rec>, held: seq<Id>, pglast: int) {
    && (forall c :: 0 <= c < |recs| ==> 1 <= recs[c].key && StrictDesc(recs[c].ids) && Ids(recs[c].ids))
    && KeysAsc(recs)
    && (forall c, d :: 0 <= c < d < |recs| ==> Disjoint(recs[c].ids, recs[d].ids))
    && (forall c :: 0 <= c < |recs| && pglast < recs[c].key ==> Disjoint(held, recs[c].ids))
  }

  ghost predicate KeysAsc(recs: seq<Rec>) {
    forall c, d :: 0 <= c < d < |recs| ==> recs[c].key < recs[d].key
  }

  ghost predicate Disjoint(s: seq<Id>, t: seq<Id>) {
    forall p :: p in s ==> p !in t
  }

  /** Page p is listed in one of the records with keys above lo and up to hi. */
  ghost predicate InRecs(recs: seq<Rec>, lo: int, hi: int, p: Id) {
    exists c :: 0 <= c < |recs| && lo < recs[c].key <= hi && p in recs[c].ids
  }

  /** Where a freeDB cursor stands after MDB_FIRST (lo = 0) or MDB_SET_RANGE to lo + 1. */
  function Seek(recs: seq<Rec>, lo: int): (c: nat)
    ensures c <= |recs| && (c < |recs| ==> lo < recs[c].key)
    ensures forall d :: 0 <= d < c ==> recs[d].key <= lo
  {
    if recs == [] then 0
    else if lo < recs[0].key then 0
    else
      assert forall d :: 1 <= d < |recs| ==> recs[d] == recs[1..][d - 1];
      1 + Seek(recs[1..], lo)
  }

  /** Merge one record into the free-page list. */
  method MergeRecord(mop: array<Id>, ids: seq<Id>)
    requires ValidIdl(mop) && Ids(ids) && StrictDesc(Elems(mop)) && StrictDesc(ids) && Disjoint(Elems(mop), ids)
    requires mop[0] + |ids| < mop.Length
    modifies mop
    ensures ValidIdl(mop) && StrictDesc(Elems(mop))
    ensures forall p :: p in Elems(mop) <==> p in old(Elems(mop)) || p in ids
  {
    var i := |ids|;
    var idl := new Id[i + 1](k => if 1 <= k <= i then ids[k - 1] else i);
    assert idl[1..i + 1] == ids;
    MergeStrict(Elems(mop), ids);
    hide StrictDesc, Merge, Ids;
    XMerge(mop, idl, 0);
  }

  lemma {:induction false} SeekIs(recs: seq<Rec>, lo: int, c: nat)
    requires c <= |recs| && (forall d :: 0 <= d < c ==> recs[d].key <= lo) && (c < |recs| ==> lo < recs[c].key)
    ensures Seek(recs, lo) == c
  {
    if recs == [] {
    } else if c > 0 {
      SeekIs(recs[1..], lo, c - 1);
    }
  }

  /** The list `now` holds what `before` held and the records above lo, up to hi. */
  ghost predicate Gained(now: seq<Id>, before: seq<Id>, recs: seq<Rec>, lo: int, hi: int) {
    forall p :: p in now <==> p in before || InRecs(recs, lo, hi, p)
  }

  /** Those records are older than one of two bounds. */
  ghost predicate AllBelow(recs: seq<Rec>, lo: int, hi: int, x: int, y: int) {
    forall c :: 0 <= c < |recs| && lo < recs[c].key <= hi ==> recs[c].key < x || recs[c].key < y
  }

  /** No record above lo is older than `oldest`. */
  ghost predicate NoneLeft(recs: seq<Rec>, lo: int, oldest: int) {
    forall c :: 0 <= c < |recs| && lo < recs[c].key ==> oldest <= recs[c].key
  }

  /** The records consumed once the next one, c, is read too. */
  lemma ReadNext(recs: seq<Rec>, before: seq<Id>, held: seq<Id>, now: seq<Id>, lo: int, cur: int, x: int, y: int)
    requires ValidRecs(recs, held, cur) && Seek(recs, cur) < |recs| && lo <= cur
    requires Gained(held, before, recs, lo, cur) && AllBelow(recs, lo, cur, x, y)
    requires recs[Seek(recs, cur)].key < x || recs[Seek(recs, cur)].key < y
    requires forall p :: p in now <==> p in held || p in recs[Seek(recs, cur)].ids
    ensures var c := Seek(recs, cur);
            && Seek(recs, recs[c].key) == c + 1 && ValidRecs(recs, now, recs[c].key)
            && Gained(now, before, recs, lo, recs[c].key) && AllBelow(recs, lo, recs[c].key, x, y)
            && NextOne(recs, cur, recs[c].key)
  {
    var c := Seek(recs, cur);
    SeekIs(recs, recs[c].key, c + 1);
    GainedNext(recs, before, held, now, lo, cur);
    StillValid(recs, held, now, cur);
    hide Disjoint, InRecs, Gained;
    forall d | 0 <= d < |recs| && lo < recs[d].key <= recs[c].key ensures recs[d].key < x || recs[d].key < y {
      if d < c { assert recs[d].key <= cur; }
    }
  }

  lemma GainedNext(recs: seq<Rec>, before: seq<Id>, held: seq<Id>, now: seq<Id>, lo: int, cur: int)
    requires ValidRecs(recs, held, cur) && Seek(recs, cur) < |recs| && lo <= cur
    requires Gained(held, before, recs, lo, cur)
    requires forall p :: p in now <==> p in held || p in recs[Seek(recs, cur)].ids
    ensures Gained(now, before, recs, lo, recs[Seek(recs, cur)].key)
  {
    var c := Seek(recs, cur);
    forall p ensures p in now <==> p in before || InRecs(recs, lo, recs[c].key, p) {
      InRecsNext(recs, lo, cur, p);
    }
  }

  lemma StillValid(recs: seq<Rec>, held: seq<Id>, now: seq<Id>, cur: int)
    requires ValidRecs(recs, held, cur) && Seek(recs, cur) < |recs|
    requires forall p :: p in now <==> p in held || p in recs[Seek(recs, cur)].ids
    ensures ValidRecs(recs, now, recs[Seek(recs, cur)].key)
  {
    var c := Seek(recs, cur);
    forall d | 0 <= d < |recs| && recs[c].key < recs[d].key ensures Disjoint(now, recs[d].ids) {
      assert c < d;
      assert Disjoint(held, recs[d].ids) && Disjoint(recs[c].ids, recs[d].ids);
    }
  }

  lemma InRecsNext(recs: seq<Rec>, lo: int, cur: int, p: Id)
    requires KeysAsc(recs)
    requires Seek(recs, cur) < |recs| && lo <= cur
    ensures var c := Seek(recs, cur);
            InRecs(recs, lo, recs[c].key, p) <==> InRecs(recs, lo, cur, p) || p in recs[c].ids
  {
    var c := Seek(recs, cur);
    if InRecs(recs, lo, recs[c].key, p) {
      var d :| 0 <= d < |recs| && lo < recs[d].key <= recs[c].key && p in recs[d].ids;
      if d < c { assert recs[d].key <= cur; }
    }
    if d :| 0 <= d < |recs| && lo < recs[d].key <= cur && p in recs[d].ids {
      assert lo < recs[d].key <= recs[c].key;
    }
  }

  ghost predicate NoRun(s: seq<Id>, num: nat) {
    forall p :: p in s ==> !HasRun(s, p, num)
  }

  lemma ShortNoRun(s: seq<Id>, num: nat)
    requires StrictDesc(s) && |s| < num
    ensures NoRun(s, num)
  {
    forall p | p in s ensures !HasRun(s, p, num) {
      var i :| 0 <= i < |s| && s[i] == p;
      if HasRun(s, p, num) { RunPlaces(s, i, num - 1); }
    }
  }

  lemma NothingRead(held: seq<Id>, recs: seq<Rec>, lo: int, x: int, num: nat)
    ensures Gained(held, held, recs, lo, lo) && AllBelow(recs, lo, lo, x, x)
    ensures Needed(held, recs, lo, lo, num) && AtRecord(recs, lo, lo)
  {
  }

  lemma NothingFound(now: seq<Id>, num: nat, recs: seq<Rec>, lo: int, hi: int, findOldest: int)
    requires NoRun(now, num) && (NoneLeft(recs, hi, findOldest) || Seek(recs, hi) - Seek(recs, lo) >= 60 * num)
    ensures FromEnd(now, num, recs, lo, hi, findOldest)
  {
  }

  /** Record hi is the one after lo. */
  ghost predicate NextOne(recs: seq<Rec>, lo: int, hi: int) {
    && Seek(recs, hi) == Seek(recs, lo) + 1 <= |recs| && recs[Seek(recs, lo)].key == hi
    && forall c :: 0 <= c < |recs| && lo < recs[c].key ==> hi <= recs[c].key
  }

  /** Nothing was read, or hi is the last record read. */
  ghost predicate AtRecord(recs: seq<Rec>, lo: int, hi: int) {
    hi == lo || exists c :: 0 <= c < |recs| && recs[c].key == hi
  }

  /** Each record was read because the list, as the records before it had made it, held no run. */
  ghost predicate Needed(before: seq<Id>, recs: seq<Rec>, lo: int, hi: int, num: nat) {
    forall c :: 0 <= c < |recs| && lo < recs[c].key <= hi ==> NoRunAt(before, recs, lo, recs[c].key - 1, num)
  }

  ghost predicate NoRunAt(before: seq<Id>, recs: seq<Rec>, lo: int, hi: int, num: nat) {
    forall s :: Gained(s, before, recs, lo, hi) ==> NoRun(s, num)
  }

  lemma StillNeeded(recs: seq<Rec>, before: seq<Id>, held: seq<Id>, lo: int, cur: int, hi: int, num: nat)
    requires Needed(before, recs, lo, cur, num) && NoRun(held, num) && Gained(held, before, recs, lo, cur) && lo <= cur
    requires NextOne(recs, cur, hi) && 1 <= num
    ensures Needed(before, recs, lo, hi, num) && AtRecord(recs, lo, hi)
  {
    forall c | 0 <= c < |recs| && lo < recs[c].key <= hi ensures NoRunAt(before, recs, lo, recs[c].key - 1, num) {
      if cur < recs[c].key {
        forall s | Gained(s, before, recs, lo, hi - 1) ensures NoRun(s, num) {
          SameGained(recs, before, held, s, lo, cur, hi);
          SameRuns(held, s, num);
        }
      }
    }
  }

  lemma SameGained(recs: seq<Rec>, before: seq<Id>, held: seq<Id>, s: seq<Id>, lo: int, cur: int, hi: int)
    requires Gained(held, before, recs, lo, cur) && Gained(s, before, recs, lo, hi - 1) && NextOne(recs, cur, hi)
    ensures forall p :: p in s <==> p in held
  {
    forall p ensures InRecs(recs, lo, hi - 1, p) <==> InRecs(recs, lo, cur, p) {
      assert cur < hi;
    }
  }

  lemma SameRuns(s: seq<Id>, t: seq<Id>, num: nat)
    requires NoRun(s, num) && (forall p :: p in t <==> p in s)
    ensures NoRun(t, num)
  {
    forall p | p in t ensures !HasRun(t, p, num) {
      if HasRun(t, p, num) { assert HasRun(s, p, num); }
    }
  }

  class Txn {
    var head: array?<Id>       // me_pghead
    var pglast: int            // me_pglast: newest record read into head
    var pgoldest: int          // me_pgoldest
    var next: int              // mt_next_pgno
    var loose: seq<int>        // mt_loose_pgs
    var dirtyRoom: int         // mt_dirty_room
    var failed: bool           // MDB_TXN_ERROR

    ghost predicate Valid()
      reads this, head
    {
      (head != null ==> ValidIdl(head) && StrictDesc(Elems(head))) && 0 <= pglast
    }

    /** The free pages at hand. */
    ghost function Free(): seq<Id>
      requires Valid()
      reads this, head
    {
      if head == null then [] else Elems(head)
    }

    /** Read one record into the free-page list. */
    method Fetch(rec: Rec, canGrow: bool) returns (rc: int)
      requires Valid() && 0 <= rec.key && StrictDesc(rec.ids) && Ids(rec.ids) && Disjoint(Free(), rec.ids)
      modifies this`head, this`pglast, head
      ensures head == old(head) || fresh(head)
      ensures rc == MDB_SUCCESS ==> Valid() && pglast == rec.key
      ensures rc == MDB_SUCCESS ==> forall p :: p in Free() <==> p in old(Free()) || p in rec.ids
      ensures rc != MDB_SUCCESS ==>
                rc == ENOMEM && !canGrow && Valid() && pglast == old(pglast) && Free() == old(Free())
    {
      var i := |rec.ids|;
      ghost var s := Free();
      if head == null {
        if !canGrow { return ENOMEM; }
        head := new Id[i + 1](_ => 0);
      } else {
        var need, out := Need(head, i, canGrow);
        head := out;
        if need != MDB_SUCCESS { return need; }
      }
      assert Elems(head) == s;
      hide StrictDesc, Ids;
      MergeRecord(head, rec.ids);
      pglast := rec.key;
      return MDB_SUCCESS;
    }

    /** May the next record be read? The cached oldest reader is looked up again, once, when
        it stands in the way. */
    method MayRead(recs: seq<Rec>, findOldest: int, found: bool) returns (may: bool, foundOld: bool)
      requires KeysAsc(recs) && (found ==> pgoldest == findOldest)
      modifies this`pgoldest
      ensures pgoldest == if foundOld then findOldest else old(pgoldest)
      ensures found ==> foundOld
      ensures may ==> Seek(recs, pglast) < |recs| && recs[Seek(recs, pglast)].key < pgoldest
      ensures !may ==> NoneLeft(recs, pglast, findOldest)
    {
      foundOld := found;
      var last := pglast + 1;
      if pgoldest <= last {
        foundOld := true;
        pgoldest := findOldest;
        if pgoldest <= last { return false, foundOld; }
      }
      var c := Seek(recs, pglast);
      if c == |recs| { return false, foundOld; }
      last := recs[c].key;
      if pgoldest <= last {
        foundOld := true;
        pgoldest := findOldest;
        if pgoldest <= last { return false, foundOld; }
      }
      return true, foundOld;
    }

    /** What the search loop keeps: `before`, lo and o1 are the list, me_pglast and me_pgoldest at
        its start. */
    ghost predicate Reading(recs: seq<Rec>, before: seq<Id>, lo: int, o1: int, o2: int, found: bool, num: nat)
      requires Valid()
      reads this, head
    {
      && lo <= pglast && ValidRecs(recs, Free(), pglast)
      && Gained(Free(), before, recs, lo, pglast) && AllBelow(recs, lo, pglast, o1, pgoldest)
      && pgoldest == (if found then o2 else o1)
      && Needed(before, recs, lo, pglast, num) && AtRecord(recs, lo, pglast)
    }

    /** One round of reading: take in the next record, if it may be read. */
    method ReadMore(recs: seq<Rec>, findOldest: int, found: bool, canGrow: bool, ghost before: seq<Id>, ghost lo: int,
        ghost o1: int, ghost num: nat)
      returns (rc: int, may: bool, foundOld: bool)
      requires Valid() && Reading(recs, before, lo, o1, findOldest, found, num) && NoRun(Free(), num) && 1 <= num
      modifies this`head, this`pglast, this`pgoldest, head
      ensures (head == old(head) || fresh(head)) && Valid()
      ensures Reading(recs, before, lo, o1, findOldest, foundOld, num)
      ensures rc != MDB_SUCCESS ==> rc == ENOMEM && !canGrow
      ensures !may ==> rc == MDB_SUCCESS && pglast == old(pglast) && Free() == old(Free())
      ensures !may ==> NoneLeft(recs, pglast, findOldest)
      ensures rc == MDB_SUCCESS && may ==> Seek(recs, pglast) == Seek(recs, old(pglast)) + 1 <= |recs|
    {
      hide Gained, InRecs, NoneLeft, StrictDesc, Ids, Needed, AtRecord, NoRun;
      rc := MDB_SUCCESS;
      may, foundOld := MayRead(recs, findOldest, found);
      assert AllBelow(recs, lo, pglast, o1, pgoldest);
      hide AllBelow;
      if may {
        ghost var held, cur := Free(), pglast;
        rc := Fetch(recs[Seek(recs, pglast)], canGrow);
        if rc == MDB_SUCCESS {
          ReadNext(recs, before, held, Free(), lo, cur, o1, pgoldest);
          StillNeeded(recs, before, held, lo, cur, pglast, num);
          hide ValidRecs;
          assert Seek(recs, pglast) == Seek(recs, cur) + 1;
        }
      }
    }

    lemma ReadingDone(recs: seq<Rec>, v: View, findOldest: int, found: bool, num: nat)
      requires Valid() && Reading(recs, v.free, v.pglast, v.pgoldest, findOldest, found, num)
      requires next == v.next && loose == v.loose && dirtyRoom == v.room && failed == v.failed
      ensures Gathered(v, Lists(), num, recs, findOldest) && ValidRecs(recs, Free(), pglast)
    {
      hide Gained, AllBelow, ValidRecs, Needed, AtRecord;
    }

    /** The lowest run of num pages ends at slot i. */
    ghost predicate LowestRun(i: int, num: nat)
      requires Valid()
      reads this, head
    {
      && head != null && num <= i <= head[0] && 0 < i && RunAt(Free(), i, num, head[i])
      && forall p :: p in Free() && p < head[i] ==> !HasRun(Free(), p, num)
    }

    /** Look for a run in the list. */
    method LookFor(num: int) returns (i: int)
      requires Valid() && 1 <= num
      ensures if i == 0 then NoRun(Free(), num) else LowestRun(i, num)
      ensures i == 0 <==> NoRun(Free(), num)
    {
      var n2 := num - 1;
      i := 0;
      hide HasRun, StrictDesc, Ids;
      if head != null && n2 < head[0] {
        i := FindRun(head, num);
      } else {
        ShortNoRun(Free(), num);
      }
    }

    /** The search loop: read records until the list holds a run, or none that may be read
        is left, or the patience for a run is used up. Returns the slot of the run, or 0. */
    method Gather(num: int, recs: seq<Rec>, findOldest: int, canGrow: bool) returns (rc: int, i: int)
      requires Valid() && 1 <= num && ValidRecs(recs, Free(), pglast)
      modifies this`head, this`pglast, this`pgoldest, head
      ensures Valid() && (head == old(head) || fresh(head)) && ValidRecs(recs, Free(), pglast)
      ensures Gathered(old(Lists()), Lists(), num, recs, findOldest)
      ensures rc == MDB_SUCCESS || (rc == ENOMEM && !canGrow)
      ensures rc == MDB_SUCCESS ==>
                if i == 0 then FromEnd(Free(), num, recs, old(pglast), pglast, findOldest) else LowestRun(i, num)
    {
      var retry, foundOld := num * 60, false;
      ghost var v := Lists();
      NothingRead(Free(), recs, pglast, pgoldest, num);
      assert Reading(recs, v.free, v.pglast, v.pgoldest, findOldest, false, num);
      hide Reading, LowestRun, Gathered, NoRun, StrictDesc, ValidRecs, NoneLeft, FromEnd;
      while true
        invariant Valid() && (head == old(head) || fresh(head))
        invariant Reading(recs, v.free, v.pglast, v.pgoldest, findOldest, foundOld, num)
        invariant 60 * num - retry <= Seek(recs, pglast) - Seek(recs, v.pglast)
        decreases |recs| - Seek(recs, pglast)
      {
        ReadingDone(recs, v, findOldest, foundOld, num);
        i := LookFor(num);
        if i != 0 { return MDB_SUCCESS, i; }
        if head != null && num - 1 < head[0] {
          retry := retry - 1;
          if retry < 0 {
            NothingFound(Free(), num, recs, v.pglast, pglast, findOldest);
            return MDB_SUCCESS, 0;
          }
        }
        var may;
        ghost var held, cur := Free(), pglast;
        rc, may, foundOld := ReadMore(recs, findOldest, foundOld, canGrow, v.free, v.pglast, v.pgoldest, num);
        if rc != MDB_SUCCESS || !may {
          ReadingDone(recs, v, findOldest, foundOld, num);
          if !may { NothingFound(Free(), num, recs, v.pglast, pglast, findOldest); }
          return rc, 0;
        }
      }
    }

    /** What the allocator goes by. */
    ghost function Lists(): View
      requires Valid()
      reads this, head
    {
      View(Free(), pglast, pgoldest, next, loose, dirtyRoom, failed)
    }

    /** Allocate num consecutive pages when no loose page will do. */
    method AllocRun(num: int, recs: seq<Rec>, findOldest: int, maxpg: int, canGrow: bool, canAlloc: bool)
      returns (rc: int, pgno: int)
      requires Valid() && 1 <= num && ValidRecs(recs, Free(), pglast)
      modifies this, head
      ensures Valid() && (head == old(head) || fresh(head)) && ValidRecs(recs, Free(), pglast)
      ensures RunAllocated(old(Lists()), Lists(), Call(num, findOldest, maxpg, canGrow, canAlloc, rc, pgno), recs)
    {
      hide Gained, AllBelow, NoneLeft, Ids, ValidRecs, FromList, InRecs, Needed, AtRecord, FromEnd,
        RunAllocated, Gathered, StrictDesc, LowestRun;
      pgno := 0;
      ghost var v := Lists();
      if dirtyRoom == 0 {
        failed := true;
        RefusedFull(v, Lists(), Call(num, findOldest, maxpg, canGrow, canAlloc, MDB_TXN_FULL, 0), recs);
        return MDB_TXN_FULL, 0;
      }
      var i;
      rc, i := Gather(num, recs, findOldest, canGrow);
      ghost var g := Lists();
      if rc != MDB_SUCCESS || (i == 0 && next + num >= maxpg) || !canAlloc {
        failed := true;
        rc := if rc != MDB_SUCCESS then rc else if i == 0 && next + num >= maxpg then MDB_MAP_FULL else ENOMEM;
        RefusedRun(v, g, Lists(), Call(num, findOldest, maxpg, canGrow, canAlloc, rc, pgno), recs);
        return;
      }
      pgno := UseRun(i, recs, v, g, Call(num, findOldest, maxpg, canGrow, canAlloc, MDB_SUCCESS, 0));
    }

    /** Take the run that ends at slot i out of the list, or, if i is 0, new pages. */
    method UseRun(i: int, ghost recs: seq<Rec>, ghost v: View, ghost g: View, c: Call) returns (pgno: int)
      requires Valid() && g == Lists() && ValidRecs(recs, Free(), pglast)
      requires 1 <= c.num && c.rc == MDB_SUCCESS && c.canAlloc
      requires Gathered(v, g, c.num, recs, c.findOldest) && v.room != 0
      requires i == 0 ==> next + c.num < c.maxpg && FromEnd(Free(), c.num, recs, v.pglast, pglast, c.findOldest)
      requires i != 0 ==> LowestRun(i, c.num)
      modifies this`dirtyRoom, this`next, head
      ensures Valid() && ValidRecs(recs, Free(), pglast) && RunAllocated(v, Lists(), c.(pgno := pgno), recs)
    {
      hide Gained, AllBelow, ValidRecs, FromList, Needed, FromEnd, RunAllocated, Gathered, StrictDesc;
      pgno := if i == 0 then next else head[i];
      dirtyRoom := dirtyRoom - 1;
      FromGathered(v, g, c.num, recs, c.findOldest);
      if i != 0 {
        Taken(Free(), i, c.num, pgno, v.free, recs, v.pglast, pglast);
        hide HasRun, RunAt;
        RemoveRun(head, i, c.num);
        ListRun(v, g, Lists(), c.(pgno := pgno), recs);
      } else {
        next := pgno + c.num;
        EndRun(v, g, Lists(), c.(pgno := pgno), recs);
      }
    }

    /** Allocate num consecutive pages. */
    method Alloc(num: int, recs: seq<Rec>, findOldest: int, maxpg: int, canGrow: bool, canAlloc: bool)
      returns (rc: int, pgno: int)
      requires Valid() && 1 <= num && ValidRecs(recs, Free(), pglast)
      modifies this, head
      ensures Valid() && (head == old(head) || fresh(head)) && ValidRecs(recs, Free(), pglast)
      ensures Allocated(old(Lists()), Lists(), Call(num, findOldest, maxpg, canGrow, canAlloc, rc, pgno), recs)
    {
      if num == 1 && loose != [] {
        pgno := loose[0];
        loose := loose[1..];
        return MDB_SUCCESS, pgno;
      }
      hide RunAllocated, ValidRecs, StrictDesc;
      rc, pgno := AllocRun(num, recs, findOldest, maxpg, canGrow, canAlloc);
    }
  }

  /** The free-page list, me_pglast, me_pgoldest, mt_next_pgno, the loose pages, mt_dirty_room and
      MDB_TXN_ERROR. */
  datatype View = View(free: seq<Id>, pglast: int, pgoldest: int, next: int, loose: seq<int>, room: int, failed: bool)

  /** One call, and what it returned. */
  datatype Call = Call(num: nat, findOldest: int, maxpg: int, canGrow: bool, canAlloc: bool, rc: int, pgno: int)

  /** A loose page, or a run. */
  ghost predicate Allocated(v: View, v': View, c: Call, recs: seq<Rec>) {
    if c.num == 1 && v.loose != [] then
      c.rc == MDB_SUCCESS && [c.pgno] + v'.loose == v.loose && v' == v.(loose := v'.loose)
    else RunAllocated(v, v', c, recs)
  }

  /** Whatever the outcome, records are read only as needed, and only those older than the oldest
      reader as cached, or as found when it was looked up again. */
  ghost predicate RunAllocated(v: View, v': View, c: Call, recs: seq<Rec>) {
    && v'.loose == v.loose && v.pglast <= v'.pglast && 1 <= c.num
    && (v'.pgoldest == v.pgoldest || v'.pgoldest == c.findOldest)
    && AllBelow(recs, v.pglast, v'.pglast, v.pgoldest, v'.pgoldest)
    && Needed(v.free, recs, v.pglast, v'.pglast, c.num) && AtRecord(recs, v.pglast, v'.pglast)
    && if c.rc == MDB_SUCCESS then GotRun(v, v', c, recs) else NoPages(v, v', c, recs)
  }

  /** After the search: g is v with further records read. */
  ghost predicate Gathered(v: View, g: View, num: nat, recs: seq<Rec>, findOldest: int) {
    && g == v.(free := g.free, pglast := g.pglast, pgoldest := g.pgoldest) && v.pglast <= g.pglast
    && (g.pgoldest == v.pgoldest || g.pgoldest == findOldest)
    && Gained(g.free, v.free, recs, v.pglast, g.pglast) && AllBelow(recs, v.pglast, g.pglast, v.pgoldest, g.pgoldest)
    && Needed(v.free, recs, v.pglast, g.pglast, num) && AtRecord(recs, v.pglast, g.pglast)
  }

  lemma FromGathered(v: View, g: View, num: nat, recs: seq<Rec>, findOldest: int)
    requires Gathered(v, g, num, recs, findOldest)
    ensures g == v.(free := g.free, pglast := g.pglast, pgoldest := g.pgoldest)
    ensures Gained(g.free, v.free, recs, v.pglast, g.pglast)
  {
  }

  lemma RefusedFull(v: View, v': View, c: Call, recs: seq<Rec>)
    requires v' == v.(failed := true) && c.rc == MDB_TXN_FULL && v.room == 0 && 1 <= c.num
    ensures RunAllocated(v, v', c, recs)
  {
    NothingRead(v.free, recs, v.pglast, v.pgoldest, c.num);
    hide Gained, AllBelow, Needed;
  }

  lemma RefusedRun(v: View, g: View, v': View, c: Call, recs: seq<Rec>)
    requires Gathered(v, g, c.num, recs, c.findOldest) && 1 <= c.num
    requires v' == g.(failed := true) && v.room != 0 && (c.rc == MDB_MAP_FULL || c.rc == ENOMEM)
    requires c.rc == ENOMEM ==> !c.canGrow || !c.canAlloc
    requires c.rc == MDB_MAP_FULL ==>
               v.next + c.num >= c.maxpg && FromEnd(g.free, c.num, recs, v.pglast, g.pglast, c.findOldest)
    ensures RunAllocated(v, v', c, recs)
  {
    hide Gained, AllBelow, Needed, AtRecord, FromEnd;
  }

  lemma ListRun(v: View, g: View, v': View, c: Call, recs: seq<Rec>)
    requires Gathered(v, g, c.num, recs, c.findOldest) && 1 <= c.num && c.rc == MDB_SUCCESS
    requires v' == g.(free := v'.free, room := g.room - 1) && v.room != 0 && c.canAlloc
    requires FromList(v'.free, c.pgno, c.num, v.free, recs, v.pglast, g.pglast)
    ensures RunAllocated(v, v', c, recs)
  {
    hide Gained, AllBelow, Needed, AtRecord, FromList;
  }

  lemma EndRun(v: View, g: View, v': View, c: Call, recs: seq<Rec>)
    requires Gathered(v, g, c.num, recs, c.findOldest) && 1 <= c.num && c.rc == MDB_SUCCESS
    requires v' == g.(next := g.next + c.num, room := g.room - 1) && v.room != 0 && c.canAlloc
    requires c.pgno == v.next && v'.next < c.maxpg
    requires FromEnd(g.free, c.num, recs, v.pglast, g.pglast, c.findOldest)
    ensures RunAllocated(v, v', c, recs)
  {
    hide Gained, AllBelow, Needed, AtRecord, FromEnd;
  }

  /** The run is from the list, or the file grew. */
  ghost predicate GotRun(v: View, v': View, c: Call, recs: seq<Rec>)
    requires 1 <= c.num
  {
    && v.room != 0 && v'.room == v.room - 1 && v'.failed == v.failed && c.canAlloc
    && if v'.next == v.next then FromList(v'.free, c.pgno, c.num, v.free, recs, v.pglast, v'.pglast)
       else
         && c.pgno == v.next && v'.next == v.next + c.num < c.maxpg
         && Gained(v'.free, v.free, recs, v.pglast, v'.pglast)
         && FromEnd(v'.free, c.num, recs, v.pglast, v'.pglast, c.findOldest)
  }

  /** Why there are none: the dirty list is full, or the map, or memory could not be had. */
  ghost predicate NoPages(v: View, v': View, c: Call, recs: seq<Rec>)
    requires 1 <= c.num
  {
    && v'.failed && v'.next == v.next && v'.room == v.room && Gained(v'.free, v.free, recs, v.pglast, v'.pglast)
    && (c.rc == MDB_TXN_FULL || c.rc == MDB_MAP_FULL || c.rc == ENOMEM)
    && (c.rc == MDB_TXN_FULL <==> v.room == 0)
    && (c.rc == MDB_TXN_FULL ==> v'.pglast == v.pglast && v'.free == v.free)
    && (c.rc == MDB_MAP_FULL ==>
          v.next + c.num >= c.maxpg && FromEnd(v'.free, c.num, recs, v.pglast, v'.pglast, c.findOldest))
    && (c.rc == ENOMEM ==> !c.canGrow || !c.canAlloc)
  }

  /** The run came from the list and the records read: it is the lowest one there was, and
      the list and the run together are the old list and those records. */
  ghost predicate FromList(now: seq<Id>, pgno: int, num: nat, before: seq<Id>, recs: seq<Rec>, lo: int, hi: int) {
    && (forall p :: pgno <= p < pgno + num ==> p !in now)
    && Gained(now + RunDown(pgno, num), before, recs, lo, hi)
    && forall p :: p < pgno ==> !HasRun(now + RunDown(pgno, num), p, num)
  }

  /** The file grows only when the list holds no run and no readable record is left, or
      enough records were read for this run. */
  ghost predicate FromEnd(now: seq<Id>, num: nat, recs: seq<Rec>, lo: int, hi: int, findOldest: int) {
    NoRun(now, num) && (NoneLeft(recs, hi, findOldest) || Seek(recs, hi) - Seek(recs, lo) >= 60 * num)
  }

  /** What is left after a run was taken out of the gathered list. */
  lemma Taken(s: seq<Id>, i: int, num: int, pgno: int, before: seq<Id>, recs: seq<Rec>, lo: int, hi: int)
    requires StrictDesc(s) && RunAt(s, i, num, pgno) && Gained(s, before, recs, lo, hi) && ValidRecs(recs, s, hi)
    requires forall p :: p in s && p < pgno ==> !HasRun(s, p, num)
    ensures StrictDesc(Without(s, i, num)) && ValidRecs(recs, Without(s, i, num), hi)
    ensures FromList(Without(s, i, num), pgno, num, before, recs, lo, hi)
  {
    var r, all := Without(s, i, num), Without(s, i, num) + RunDown(pgno, num);
    RunTaken(s, i, num, pgno);
    RunDownMembers(pgno, num);
    forall p | pgno <= p < pgno + num ensures p in s { assert s[i - 1 - (p - pgno)] == p; }
    assert forall p :: p in all <==> p in s;
    forall p | p < pgno && HasRun(all, p, num) ensures false {
      assert p in all && HasRun(s, p, num);
    }
  }

  // ---- over many calls ----

  /** vs are the lists before and after each of the calls, on the records recs. */
  ghost predicate Allocs(vs: seq<View>, calls: seq<Call>, recs: seq<Rec>) {
    |vs| == |calls| + 1 && forall i :: 0 <= i < |calls| ==> Allocated(vs[i], vs[i + 1], calls[i], recs)
  }

  /** x is what the oldest reader was at the start, or was found to be in one of the first n calls. */
  ghost predicate WasOldest(vs: seq<View>, calls: seq<Call>, n: int, x: int)
    requires vs != []
  {
    x == vs[0].pgoldest || exists m :: 0 <= m < n && m < |calls| && calls[m].findOldest == x
  }

  lemma {:induction false} CachedOldest(vs: seq<View>, calls: seq<Call>, recs: seq<Rec>, i: nat)
    requires Allocs(vs, calls, recs) && i <= |calls|
    ensures WasOldest(vs, calls, i, vs[i].pgoldest)
  {
    hide RunAllocated;
    if 0 < i {
      CachedOldest(vs, calls, recs, i - 1);
      assert Allocated(vs[i - 1], vs[i - 1 + 1], calls[i - 1], recs);
      OldestKept(vs[i - 1], vs[i], calls[i - 1], recs);
      if vs[i].pgoldest != vs[i - 1].pgoldest {
        var m := i - 1;
        assert calls[m].findOldest == vs[i].pgoldest;
      }
    }
  }

  lemma OldestKept(v: View, v': View, c: Call, recs: seq<Rec>)
    requires Allocated(v, v', c, recs)
    ensures v'.pgoldest == v.pgoldest || v'.pgoldest == c.findOldest
  {
  }

  /** However often pages are allocated: a record is read only if it is older than the oldest reader
      as it was at the start, or as it was found in a call so far. */
  lemma ReadsAreOld(vs: seq<View>, calls: seq<Call>, recs: seq<Rec>, i: nat, c: int)
    requires Allocs(vs, calls, recs) && i < |calls| && 0 <= c < |recs| && vs[i].pglast < recs[c].key <= vs[i + 1].pglast
    ensures OlderThan(recs[c].key, vs, calls, i + 1)
  {
    CachedOldest(vs, calls, recs, i);
    CachedOldest(vs, calls, recs, i + 1);
    assert Allocated(vs[i], vs[i + 1], calls[i], recs);
    ReadBelow(vs[i], vs[i + 1], calls[i], recs, c);
    var x := if recs[c].key < vs[i].pgoldest then vs[i].pgoldest else vs[i + 1].pgoldest;
    if recs[c].key < vs[i].pgoldest { OldestLater(vs, calls, i, x); }
    assert WasOldest(vs, calls, i + 1, x);
  }

  lemma ReadBelow(v: View, v': View, call: Call, recs: seq<Rec>, c: int)
    requires Allocated(v, v', call, recs) && 0 <= c < |recs| && v.pglast < recs[c].key <= v'.pglast
    ensures recs[c].key < v.pgoldest || recs[c].key < v'.pgoldest
  {
  }

  /** key is below the oldest reader as it was at the start, or found in one of the first n calls. */
  ghost predicate OlderThan(key: int, vs: seq<View>, calls: seq<Call>, n: int)
    requires vs != []
  {
    key < vs[0].pgoldest || exists m :: 0 <= m < n && m < |calls| && key < calls[m].findOldest
  }

  lemma OldestLater(vs: seq<View>, calls: seq<Call>, n: int, x: int)
    requires vs != [] && WasOldest(vs, calls, n, x)
    ensures WasOldest(vs, calls, n + 1, x)
  {
  }
}
