/** Runs of consecutive free pages: finding one in the free-page list, taking it out, and
    putting it back. */
module PageRuns {
  import opened Midl
  import DirtyList
  import NestedCommit

  /** The pages pg .. pg + n - 1. */
  ghost predicate HasRun(s: seq<Id>, pg: Id, n: nat) {
    forall p :: pg <= p < pg + n ==> p in s
  }

  /** They stand at the places i - n .. i - 1 of s. */
  ghost predicate RunAt(s: seq<Id>, i: int, n: int, pg: Id) {
    0 < n <= i <= |s| && forall k :: i - n <= k < i ==> s[k] == pg + (i - 1 - k)
  }

  /** The same pages as a descending list. */
  function RunDown(pg: Id, n: nat): (r: seq<Id>)
    ensures |r| == n && forall k :: 0 <= k < n ==> r[k] == pg + (n - 1 - k)
  {
    seq(n, k requires 0 <= k < n => pg + (n - 1 - k))
  }

  lemma RunDownMembers(pg: Id, n: nat)
    ensures forall p :: p in RunDown(pg, n) <==> pg <= p < pg + n
  {
    forall p | pg <= p < pg + n ensures p in RunDown(pg, n) {
      assert RunDown(pg, n)[n - 1 - (p - pg)] == p;
    }
  }

  // ---- when a strictly descending list holds a run ----

  /** A list loses at least one per place. */
  lemma {:induction false} Drops(s: seq<Id>, i: nat, j: nat)
    requires StrictDesc(s) && i <= j < |s|
    ensures s[i] >= s[j] + (j - i)
    decreases j
  {
    if i < j { Drops(s, i, j - 1); }
  }

  /** n places apart and n apart in value: everything between is there, in order. */
  lemma RunBetween(s: seq<Id>, i: nat, n: nat)
    requires StrictDesc(s) && n <= i < |s| && s[i - n] == s[i] + n
    ensures forall k :: i - n <= k <= i ==> s[k] == s[i] + (i - k)
    ensures HasRun(s, s[i], n + 1) && RunAt(s, i + 1, n + 1, s[i])
  {
    forall k | i - n <= k <= i ensures s[k] == s[i] + (i - k) {
      Drops(s, k, i);
      Drops(s, i - n, k);
    }
    forall p | s[i] <= p < s[i] + n + 1 ensures p in s {
      assert s[i - (p - s[i])] == p;
    }
  }

  /** The other direction: the members of a run stand next to each other. */
  lemma {:induction false} RunPlaces(s: seq<Id>, i: nat, n: nat)
    requires StrictDesc(s) && i < |s| && HasRun(s, s[i], n + 1)
    ensures n <= i && s[i - n] == s[i] + n
    decreases n
  {
    if 0 < n {
      RunPlaces(s, i, n - 1);
      assert s[i] + n in s;
      var j :| 0 <= j < |s| && s[j] == s[i] + n;
    }
  }

  // ---- search (the inner loop of mdb_page_alloc) ----

  /** The slot of the lowest run of num pages, or 0 when there is none. */
  method FindRun(mop: array<Id>, num: int) returns (i: int)
    requires ValidIdl(mop) && StrictDesc(Elems(mop)) && 1 <= num
    ensures 0 <= i <= mop[0]
    ensures i == 0 <==> forall p :: p in Elems(mop) ==> !HasRun(Elems(mop), p, num)
    ensures 0 < i ==> HasRun(Elems(mop), mop[i], num) && RunAt(Elems(mop), i, num, mop[i])
    ensures 0 < i ==> forall p :: p in Elems(mop) && p < mop[i] ==> !HasRun(Elems(mop), p, num)
  {
    ghost var s := Elems(mop);
    assert forall k :: 1 <= k <= |s| ==> mop[k] == s[k - 1];
    var n2 := num - 1;
    i := mop[0];
    while n2 < i
      invariant 0 <= i <= mop[0]
      invariant forall k :: i <= k < |s| ==> !HasRun(s, s[k], num)
    {
      var pgno := mop[i];
      assert pgno == s[i - 1];
      if mop[i - n2] == pgno + n2 {
        assert mop[i - n2] == s[i - 1 - n2];
        RunBetween(s, i - 1, n2);
        return;
      }
      if HasRun(s, s[i - 1], num) { RunPlaces(s, i - 1, n2); }
      i := i - 1;
    }
    forall k | 0 <= k < |s| ensures !HasRun(s, s[k], num) {
      if k < i && HasRun(s, s[k], num) { RunPlaces(s, k, n2); }
    }
    i := 0;
  }

  // ---- removal ----

  /** Close the gap left by slots i - num + 1 .. i. */
  method RemoveRun(mop: array<Id>, i0: int, num: int)
    requires ValidIdl(mop) && 1 <= num <= i0 <= mop[0]
    modifies mop
    ensures ValidIdl(mop)
    ensures Elems(mop) == Without(old(Elems(mop)), i0, num)
  {
    ghost var s := Elems(mop);
    assert forall k :: 1 <= k <= |s| ==> mop[k] == s[k - 1];
    var mopLen := mop[0] - num;
    mop[0] := mopLen;
    var i, j := i0, i0 - num;
    while j < mopLen
      invariant i0 - num <= j <= mopLen && i == j + num && mop[0] == mopLen == |s| - num
      invariant forall k :: 1 <= k <= i0 - num ==> mop[k] == s[k - 1]
      invariant forall k :: i0 - num < k <= j ==> mop[k] == s[k + num - 1]
      invariant forall k :: i < k <= |s| ==> mop[k] == s[k - 1]
    {
      j := j + 1;
      i := i + 1;
      mop[j] := mop[i];
    }
    assert mop[1..mopLen + 1] == s[..i0 - num] + s[i0..];
  }

  function Without(s: seq<Id>, i: nat, n: nat): seq<Id>
    requires n <= i <= |s|
  {
    s[..i - n] + s[i..]
  }

  /** Taking a run out removes exactly its pages. */
  lemma RunTaken(s: seq<Id>, i: nat, n: nat, pg: Id)
    requires StrictDesc(s) && RunAt(s, i, n, pg)
    ensures StrictDesc(Without(s, i, n))
    ensures forall p :: p in Without(s, i, n) <==> p in s && !(pg <= p < pg + n)
  {
    var r := Without(s, i, n);
    assert s[i - 1] == pg && s[i - n] == pg + n - 1;
    forall p | p in r ensures p in s && !(pg <= p < pg + n) {
      var k :| 0 <= k < |r| && r[k] == p;
      assert s[if k < i - n then k else k + n] == p;
    }
    forall p | p in s && !(pg <= p < pg + n) ensures p in r {
      var k :| 0 <= k < |s| && s[k] == p;
      assert r[if k < i - n then k else k - n] == p;
    }
  }

  // ---- putting a run back (mdb_ovpage_free) ----

  /** How many ids of s stand before a run at pg. */
  function Above(s: seq<Id>, pg: Id): (n: nat)
    ensures n <= |s| && (0 < n ==> s[n - 1] >= pg) && forall k :: n <= k < |s| ==> s[k] < pg
  {
    if s == [] then 0 else if s[|s| - 1] < pg then Above(s[..|s| - 1], pg) else |s|
  }

  /** Move the ids below pg up by n slots. */
  method MakeRoom(mop: array<Id>, pg: Id, n: int, ghost s: seq<Id>) returns (i: int)
    requires 0 <= n && |s| + n < mop.Length && mop[0] == |s|
    requires forall k :: 1 <= k <= |s| ==> mop[k] == s[k - 1]
    modifies mop
    ensures i == Above(s, pg) && mop[0] == |s|
    ensures forall k :: 1 <= k <= i ==> mop[k] == s[k - 1]
    ensures forall k :: i + n < k <= |s| + n ==> mop[k] == s[k - n - 1]
  {
    var j := mop[0] + n;
    i := mop[0];
    assert s[..i] == s;
    while 0 < i && mop[i] < pg
      invariant 0 <= i <= |s| && j == i + n && mop[0] == |s| && Above(s, pg) == Above(s[..i], pg)
      invariant forall k :: 1 <= k <= i ==> mop[k] == s[k - 1]
      invariant forall k :: j < k <= |s| + n ==> mop[k] == s[k - n - 1]
    {
      assert s[..i][..i - 1] == s[..i - 1];
      mop[j] := mop[i];
      j := j - 1;
      i := i - 1;
    }
    assert 0 < i ==> s[..i][i - 1] == s[i - 1];
  }

  /** Insert the pages pg .. pg + n - 1 into the free-page list. */
  method InsertRun(mop: array<Id>, pg0: Id, n: int)
    requires ValidIdl(mop) && 0 <= n && mop[0] + n < mop.Length && 0 <= pg0 && pg0 + n - 1 <= ID_MAX
    modifies mop
    ensures ValidIdl(mop)
    ensures Elems(mop) == WithRun(old(Elems(mop)), pg0, n)
  {
    ghost var s := Elems(mop);
    assert forall k :: 1 <= k <= |s| ==> mop[k] == s[k - 1];
    var i := MakeRoom(mop, pg0, n, s);
    FillRun(mop, pg0, i, n, s);
    mop[0] := mop[0] + n;
    WithRunIs(mop[..], s, pg0, n);
  }

  /** Fill the slots i + 1 .. i + n. */
  method FillRun(mop: array<Id>, pg0: Id, i: int, n: int, ghost s: seq<Id>)
    requires 0 <= n && |s| + n < mop.Length && 0 <= i <= |s| == mop[0]
    requires forall k :: 1 <= k <= i ==> mop[k] == s[k - 1]
    requires forall k :: i + n < k <= |s| + n ==> mop[k] == s[k - n - 1]
    modifies mop
    ensures mop[0] == |s|
    ensures forall k :: 1 <= k <= i ==> mop[k] == s[k - 1]
    ensures forall k :: i < k <= i + n ==> mop[k] == pg0 + (i + n - k)
    ensures forall k :: i + n < k <= |s| + n ==> mop[k] == s[k - n - 1]
  {
    var pg, j := pg0, i + n;
    while i < j
      invariant i <= j <= i + n && mop[0] == |s| && pg == pg0 + (i + n - j)
      invariant forall k :: 1 <= k <= i ==> mop[k] == s[k - 1]
      invariant forall k :: j < k <= i + n ==> mop[k] == pg0 + (i + n - k)
      invariant forall k :: i + n < k <= |s| + n ==> mop[k] == s[k - n - 1]
    {
      mop[j] := pg;
      j := j - 1;
      pg := pg + 1;
    }
  }

  function WithRun(s: seq<Id>, pg: Id, n: nat): seq<Id> {
    s[..Above(s, pg)] + RunDown(pg, n) + s[Above(s, pg)..]
  }

  lemma WithRunIs(now: seq<Id>, s: seq<Id>, pg: Id, n: nat)
    requires |s| + n < |now| && Ids(s) && 0 <= pg && pg + n - 1 <= ID_MAX
    requires var i := Above(s, pg);
             && (forall k :: 1 <= k <= i ==> now[k] == s[k - 1])
             && (forall k :: i < k <= i + n ==> now[k] == pg + (i + n - k))
             && (forall k :: i + n < k <= |s| + n ==> now[k] == s[k - n - 1])
    ensures now[1..|s| + n + 1] == WithRun(s, pg, n) && Ids(now[1..|s| + n + 1])
  {
    var i, r := Above(s, pg), WithRun(s, pg, n);
    forall k | 1 <= k < |s| + n + 1 ensures now[k] == r[k - 1] && 0 <= now[k] <= ID_MAX {
    }
  }

  /** Putting back a run that is not in the list adds exactly its pages. */
  lemma RunAdded(s: seq<Id>, pg: Id, n: nat)
    requires StrictDesc(s) && forall p :: p in s ==> !(pg <= p < pg + n)
    ensures StrictDesc(WithRun(s, pg, n))
    ensures forall p :: p in WithRun(s, pg, n) <==> p in s || pg <= p < pg + n
  {
    var x, r := Above(s, pg), WithRun(s, pg, n);
    forall i | 0 <= i < x ensures s[i] >= pg + n { assert s[i] in s; }
    WithRunOrder(s, x, pg, n);
    RunDownMembers(pg, n);
    assert s == s[..x] + s[x..];
  }

  lemma WithRunOrder(s: seq<Id>, x: nat, pg: Id, n: nat)
    requires StrictDesc(s) && x <= |s| && (forall i :: 0 <= i < x ==> s[i] >= pg + n) && forall i :: x <= i < |s| ==>
            s[i] < pg
    ensures StrictDesc(s[..x] + RunDown(pg, n) + s[x..])
  {
    var r := s[..x] + RunDown(pg, n) + s[x..];
    forall i, j | 0 <= i < j < |r| ensures r[i] > r[j] {
      assert r[i] == if i < x then s[i] else if i < x + n then pg + (n - 1 - (i - x)) else s[i - n];
      assert r[j] == if j < x then s[j] else if j < x + n then pg + (n - 1 - (j - x)) else s[j - n];
    }
  }

  /** Strictly descending lists with the same members are equal. */
  lemma {:induction false} StrictUnique(s: seq<Id>, t: seq<Id>)
    requires StrictDesc(s) && StrictDesc(t) && forall p :: p in s <==> p in t
    ensures s == t
  {
    forall x ensures multiset(s)[x] == multiset(t)[x] {
      StrictOnce(s, x);
      StrictOnce(t, x);
    }
    assert |multiset(s)| == |multiset(t)| by { assert multiset(s) == multiset(t); }
    if s != [] {
      assert s[0] in t && t[0] in s;
      var s', t' := s[1..], t[1..];
      assert s == [s[0]] + s' && t == [t[0]] + t';
      forall p ensures p in s' <==> p in t' {
        assert p in s' <==> p in s && p != s[0];
        assert p in t' <==> p in t && p != t[0];
      }
      StrictUnique(s', t');
    }
  }

  /** Allocating a run and giving it back restores the identical list. */
  lemma TakeAndReturn(s: seq<Id>, i: nat, n: nat, pg: Id)
    requires StrictDesc(s) && RunAt(s, i, n, pg)
    ensures WithRun(Without(s, i, n), pg, n) == s
  {
    var r := Without(s, i, n);
    RunTaken(s, i, n, pg);
    RunAdded(r, pg, n);
    forall p | pg <= p < pg + n ensures p in s {
      assert s[i - 1 - (p - pg)] == p;
    }
    StrictUnique(WithRun(r, pg, n), s);
  }

  /** mdb_midl_append_range: append the run at the end of a list, growing it when full. */
  method AppendRange(ids: array<Id>, id0: Id, n0: int, canGrow: bool) returns (rc: int, out: array<Id>)
    requires ValidIdl(ids) && 0 <= n0 && 0 <= id0 && id0 + n0 - 1 <= ID_MAX
    modifies ids
    ensures ValidIdl(out) && (out == ids || fresh(out))
    ensures rc == SUCCESS <==> canGrow || old(ids[0]) + n0 < ids.Length
    ensures Elems(out) == if rc == SUCCESS then old(Elems(ids)) + RunDown(id0, n0) else old(Elems(ids))
    ensures rc != SUCCESS ==> rc == ENOMEM && out == ids
  {
    ghost var s := Elems(ids);
    var len := ids[0];
    out := ids;
    if len + n0 > ids.Length - 1 {
      if !canGrow { return ENOMEM, ids; }
      out := Grown(ids, n0);
    }
    out[0] := len + n0;
    assert forall k :: 1 <= k <= len ==> out[k] == s[k - 1];
    var id, n := id0, n0;
    while n != 0
      invariant 0 <= n <= n0 && id == id0 + (n0 - n) && out[0] == len + n0
      invariant forall k :: 1 <= k <= len ==> out[k] == s[k - 1]
      invariant forall k :: len + n < k <= len + n0 ==> out[k] == id0 + (len + n0 - k)
    {
      out[len + n] := id;
      n := n - 1;
      id := id + 1;
    }
    assert out[1..out[0] + 1] == s + RunDown(id0, n0);
    assert forall k :: 0 <= k < n0 ==> 0 <= RunDown(id0, n0)[k] <= ID_MAX;
    rc := SUCCESS;
  }

  /** mdb_midl_grow: room for n | MDB_IDL_UM_MAX more ids. */
  method Grown(ids: array<Id>, n: nat) returns (out: array<Id>)
    requires ValidIdl(ids)
    ensures fresh(out) && ids[0] + n < out.Length && out[..ids[0] + 1] == ids[..ids[0] + 1]
  {
    var more := n - n % (UM_MAX + 1) + UM_MAX;      // n | UM_MAX
    out := new Id[ids.Length + more](k requires 0 <= k reads ids => if k < ids.Length then ids[k] else 0);
  }

  const UM_MAX := 0x1_FFFF
}
