/** The allocator and the freeing of overflow pages, done on lists, take only the steps that the
    page protocol allows the writer: what holds of its runs holds of them. */
module WriterRefines {
  import opened Midl
  import opened PageRuns
  import opened PageAlloc
  import opened MvccState
  import OverflowFree

  /** The freeDB records the writer started from. */
  ghost predicate SameRecs(recs: seq<Rec>, m: map<int, set<int>>) {
    && (forall k :: k in m ==> HasRec(recs, k))
    && (forall c :: 0 <= c < |recs| ==> recs[c].key in m && forall p :: p in m[recs[c].key] <==> p in recs[c].ids)
  }

  ghost predicate HasRec(recs: seq<Rec>, k: int) { exists c :: 0 <= c < |recs| && recs[c].key == k }

  ghost predicate SamePages(s: seq<Id>, ps: set<int>) { forall p :: p in s <==> p in ps }

  /** w becomes w' by reading n records, each older than `oldest` and next in line. */
  ghost predicate Fetched(w: Writer, w': Writer, n: nat, oldest: int)
    decreases n
  {
    if n == 0 then w == w'
    else exists k :: CanWork(w, Fetch(k), oldest) && Fetched(Work(w, Fetch(k)), w', n - 1, oldest)
  }

  /** w' is w with the records up to hi on its free-page list. */
  ghost predicate Read(w: Writer, w': Writer, recs: seq<Rec>, hi: int) {
    && w' == w.(hasHead := w'.hasHead, head := w'.head, pglast := w'.pglast)
    && w.pglast <= w'.pglast && (w'.pglast <= hi || w'.pglast == w.pglast)
    && (forall c :: 0 <= c < |recs| && w'.pglast < recs[c].key ==> hi < recs[c].key)
    && (forall p :: p in w'.head <==> p in w.head || InRecs(recs, w.pglast, hi, p))
  }

  /** The records up to hi, all older than `oldest`, can be read one by one. */
  lemma {:induction false} FetchAll(w: Writer, recs: seq<Rec>, hi: int, oldest: int) returns (w': Writer, n: nat)
    requires SameRecs(recs, w.base.recs) && KeysAsc(recs)
    requires forall c :: 0 <= c < |recs| && w.pglast < recs[c].key <= hi ==> recs[c].key < oldest
    ensures Fetched(w, w', n, oldest) && Read(w, w', recs, hi)
    decreases |recs| - Seek(recs, w.pglast)
  {
    hide SameRecs, KeysAsc, Read;
    var c := Seek(recs, w.pglast);
    if c == |recs| || hi < recs[c].key {
      w', n := w, 0;
      NoMore(w, recs, hi);
    } else {
      var k := recs[c].key;
      NextInLine(w, recs, oldest);
      var v := Work(w, Fetch(k));
      SeekNext(recs, w.pglast);
      w', n := FetchAll(v, recs, hi, oldest);
      ReadOn(w, v, w', recs, hi);
      n := n + 1;
      assert CanWork(w, Fetch(k), oldest) && Fetched(Work(w, Fetch(k)), w', n - 1, oldest);
    }
  }

  lemma SeekNext(recs: seq<Rec>, lo: int)
    requires KeysAsc(recs) && Seek(recs, lo) < |recs|
    ensures Seek(recs, recs[Seek(recs, lo)].key) == Seek(recs, lo) + 1
  {
    SeekIs(recs, recs[Seek(recs, lo)].key, Seek(recs, lo) + 1);
  }

  lemma NoMore(w: Writer, recs: seq<Rec>, hi: int)
    requires KeysAsc(recs) && (var c := Seek(recs, w.pglast); c == |recs| || hi < recs[c].key)
    ensures Read(w, w, recs, hi)
  {
    var c := Seek(recs, w.pglast);
    forall d | 0 <= d < |recs| && w.pglast < recs[d].key ensures hi < recs[d].key {
      assert c <= d;
      if c < d { assert recs[c].key < recs[d].key; }
    }
  }

  /** Record c is the next one. */
  lemma FirstAhead(recs: seq<Rec>, lo: int, d: int)
    requires KeysAsc(recs) && 0 <= d < |recs| && lo < recs[d].key
    ensures Seek(recs, lo) <= d && recs[Seek(recs, lo)].key <= recs[d].key
  {
    var c := Seek(recs, lo);
    if c < d { assert recs[c].key < recs[d].key; }
  }

  lemma NextInLine(w: Writer, recs: seq<Rec>, oldest: int)
    requires SameRecs(recs, w.base.recs) && KeysAsc(recs)
    requires var c := Seek(recs, w.pglast); c < |recs| && recs[c].key < oldest
    ensures CanWork(w, Fetch(recs[Seek(recs, w.pglast)].key), oldest)
  {
    hide KeysAsc;
    var c := Seek(recs, w.pglast);
    forall k | k in w.base.recs && w.pglast < k ensures recs[c].key <= k {
      assert HasRec(recs, k);
      var d :| 0 <= d < |recs| && recs[d].key == k;
      FirstAhead(recs, w.pglast, d);
    }
  }

  lemma ReadOn(w: Writer, v: Writer, w': Writer, recs: seq<Rec>, hi: int)
    requires SameRecs(recs, w.base.recs) && KeysAsc(recs)
    requires var c := Seek(recs, w.pglast); c < |recs| && recs[c].key <= hi && v == Work(w, Fetch(recs[c].key))
    requires Read(v, w', recs, hi)
    ensures Read(w, w', recs, hi)
  {
    var c := Seek(recs, w.pglast);
    forall p ensures p in w'.head <==> p in w.head || InRecs(recs, w.pglast, hi, p) {
      assert p in w'.head <==> p in v.head || InRecs(recs, recs[c].key, hi, p);
      assert p in v.head <==> p in w.head || p in recs[c].ids;
      if InRecs(recs, w.pglast, hi, p) {
        var d :| 0 <= d < |recs| && w.pglast < recs[d].key <= hi && p in recs[d].ids;
        if c < d { assert recs[c].key < recs[d].key; }
      }
    }
  }

  lemma ReadTwice(w: Writer, w0: Writer, w1: Writer, recs: seq<Rec>, mid: int, hi: int)
    requires Read(w, w0, recs, mid) && Read(w0, w1, recs, hi) && mid <= hi && w.pglast <= hi
    ensures Read(w, w1, recs, hi)
  {
    forall p ensures p in w1.head <==> p in w.head || InRecs(recs, w.pglast, hi, p) {
      if InRecs(recs, w.pglast, hi, p) {
        var d :| 0 <= d < |recs| && w.pglast < recs[d].key <= hi && p in recs[d].ids;
        if recs[d].key <= mid {
          assert InRecs(recs, w.pglast, mid, p);
        } else {
          assert w0.pglast < recs[d].key;
        }
      }
    }
  }

  // ---- in the states of the protocol ----

  /** The lists of the allocator are those of the writer in state s, and so is the cached oldest
      reader. */
  ghost predicate Matches(s: State, v: View, recs: seq<Rec>) {
    && s.w.Some? && |s.metas| == |s.dmetas| == 2
    && var w := s.w.value;
    && SamePages(v.free, w.head) && SamePages(v.loose, w.loose) && w.pglast == v.pglast && w.next == v.next
    && s.pgoldest == v.pgoldest && SameRecs(recs, w.base.recs)
  }

  /** The protocol takes n record reads from s to s'. */
  ghost predicate FetchRun(s: State, s': State, n: nat)
    requires |s.metas| == |s.dmetas| == 2
    decreases n
  {
    if n == 0 then s == s'
    else exists k :: Enabled(s, WWork(Fetch(k))) && FetchRun(Next(s, WWork(Fetch(k))), s', n - 1)
  }

  lemma RunStep(s: State, k: int, s': State, n: nat)
    requires |s.metas| == |s.dmetas| == 2 && Enabled(s, WWork(Fetch(k))) && 0 < n
    requires var s1 := Next(s, WWork(Fetch(k))); |s1.metas| == |s1.dmetas| == 2 && FetchRun(s1, s', n - 1)
    ensures FetchRun(s, s', n)
  {
    hide Enabled, Next;
  }

  lemma {:induction false} FetchedRun(s: State, w': Writer, n: nat)
    requires Busy(s) && |s.metas| == |s.dmetas| == 2 && Fetched(s.w.value, w', n, s.pgoldest)
    ensures FetchRun(s, s.(w := Some(w')), n)
    decreases n
  {
    hide FetchRun, Enabled, CanWork, Next;
    if n == 0 {
      assert s.(w := Some(w')) == s;
      FetchRunNone(s);
    } else {
      var k :| CanWork(s.w.value, Fetch(k), s.pgoldest) && Fetched(Work(s.w.value, Fetch(k)), w', n - 1, s.pgoldest);
      var s1 := SetWriter(s, Work(s.w.value, Fetch(k)));
      FetchStep(s, k);
      FetchedRun(s1, w', n - 1);
      assert s1.(w := Some(w')) == s.(w := Some(w'));
      RunStep(s, k, s.(w := Some(w')), n);
    }
  }

  lemma FetchStep(s: State, k: int)
    requires Busy(s) && |s.metas| == |s.dmetas| == 2 && CanWork(s.w.value, Fetch(k), s.pgoldest)
    ensures var s1 := SetWriter(s, Work(s.w.value, Fetch(k)));
            Enabled(s, WWork(Fetch(k))) && Next(s, WWork(Fetch(k))) == s1 && Busy(s1) && s1.pgoldest == s.pgoldest
  {
  }

  /** Up to which record an allocation reads with the oldest reader as cached. */
  function Midway(v: View, v': View): int {
    if v'.pgoldest <= v.pgoldest || v'.pglast < v.pgoldest then v'.pglast else v.pgoldest - 1
  }

  /** The first part of an allocation: the records that the cached oldest reader allows are read, by
      steps of the protocol. */
  lemma AllocReadsOld(s: State, v: View, v': View, c: Call, recs: seq<Rec>) returns (s0: State, n0: nat)
    requires Busy(s) && Matches(s, v, recs) && KeysAsc(recs) && RunAllocated(v, v', c, recs)
    ensures FetchRun(s, s0, n0) && s0.w.Some? && s0 == s.(w := s0.w)
    ensures Read(s.w.value, s0.w.value, recs, Midway(v, v'))
  {
    var w0;
    hide SameRecs, KeysAsc, Fetched, Read, FetchRun, Needed, AtRecord, GotRun, NoPages;
    w0, n0 := FetchAll(s.w.value, recs, Midway(v, v'), s.pgoldest);
    s0 := s.(w := Some(w0));
    FetchedRun(s, w0, n0);
  }

  /** The second part: in any state s1 with that writer in which the oldest reader is what the
      allocator was left with, after a new scan if it was looked up again, the other records are
      read. */
  lemma AllocReadsNew(w: Writer, s1: State, v: View, v': View, c: Call, recs: seq<Rec>) returns (s2: State, n1: nat)
    requires Busy(s1) && |s1.metas| == |s1.dmetas| == 2 && s1.pgoldest == v'.pgoldest && w.pglast == v.pglast
    requires Read(w, s1.w.value, recs, Midway(v, v')) && SameRecs(recs, w.base.recs)
    requires KeysAsc(recs) && RunAllocated(v, v', c, recs)
    ensures FetchRun(s1, s2, n1) && s2.w.Some? && s2 == s1.(w := s2.w) && Read(w, s2.w.value, recs, v'.pglast)
    ensures v'.pgoldest <= v.pgoldest ==> s2 == s1
  {
    hide SameRecs, KeysAsc, Fetched, FetchRun, Needed, AtRecord, GotRun, NoPages, InRecs;
    if Midway(v, v') == v'.pglast {
      s2, n1 := s1, 0;
      FetchRunNone(s1);
    } else {
      var w1;
      w1, n1 := FetchAll(s1.w.value, recs, v'.pglast, s1.pgoldest);
      s2 := s1.(w := Some(w1));
      FetchedRun(s1, w1, n1);
      ReadTwice(w, s1.w.value, w1, recs, Midway(v, v'), v'.pglast);
    }
  }

  lemma FetchRunNone(s: State)
    requires |s.metas| == |s.dmetas| == 2
    ensures FetchRun(s, s, 0)
  {
  }

  /** With all records read the writer is at the last one, and its head list is what was gathered. */
  lemma ReadAll(w: Writer, w2: Writer, recs: seq<Rec>, lo: int, hi: int)
    requires Read(w, w2, recs, hi) && w.pglast == lo <= hi && AtRecord(recs, lo, hi)
    ensures w2.pglast == hi
  {
  }

  /** The end of an allocation that found no loose page: the run is taken from the head list, or from
      the end of the file; what the allocator has left is what the protocol has left. */
  lemma AllocTakes(w: Writer, s2: State, v: View, v': View, c: Call, recs: seq<Rec>, cs: map<int, Content>, toFdb: bool)
    requires Busy(s2) && |s2.metas| == |s2.dmetas| == 2 && s2.pgoldest == v'.pgoldest
    requires Read(w, s2.w.value, recs, v'.pglast) && RunAllocated(v, v', c, recs) && c.rc == MDB_SUCCESS
    requires SamePages(v.free, w.head) && SamePages(v.loose, w.loose) && w.pglast == v.pglast && w.next == v.next
    requires SameRecs(recs, w.base.recs) && Consecutive(cs.Keys, c.pgno, |cs|) && |cs| == c.num
    ensures var l := WWork(if v'.next == v.next then TakeHead(cs, toFdb) else TakeNew(cs, toFdb));
            Enabled(s2, l) && Matches(Next(s2, l), v', recs)
  {
    hide SameRecs, InRecs, AllBelow, Needed, FromEnd, FromList, AtRecord;
    ReadAll(w, s2.w.value, recs, v.pglast, v'.pglast);
    if v'.next == v.next {
      ListTakes(w, s2.w.value, v, v', c, recs, cs);
      hide Read, RunAllocated;
      TakesHead(s2, v', recs, cs, toFdb);
    } else {
      EndTakes(w, s2.w.value, v, v', c, recs);
      hide Read, RunAllocated;
      TakesNew(s2, v', recs, cs, toFdb);
    }
  }

  lemma EndTakes(w: Writer, w2: Writer, v: View, v': View, c: Call, recs: seq<Rec>)
    requires Read(w, w2, recs, v'.pglast) && SamePages(v.free, w.head) && w.pglast == v.pglast
    requires Gained(v'.free, v.free, recs, v.pglast, v'.pglast)
    ensures SamePages(v'.free, w2.head)
  {
    hide InRecs;
  }

  lemma TakesHead(s2: State, v': View, recs: seq<Rec>, cs: map<int, Content>, toFdb: bool)
    requires Busy(s2) && |s2.metas| == |s2.dmetas| == 2 && s2.pgoldest == v'.pgoldest
    requires var w2 := s2.w.value;
             && cs.Keys <= w2.head && SamePages(v'.free, w2.head - cs.Keys) && SamePages(v'.loose, w2.loose)
             && w2.pglast == v'.pglast && w2.next == v'.next && SameRecs(recs, w2.base.recs)
    ensures Enabled(s2, WWork(TakeHead(cs, toFdb))) && Matches(Next(s2, WWork(TakeHead(cs, toFdb))), v', recs)
  {
    hide SameRecs, SamePages;
  }

  lemma TakesNew(s2: State, v': View, recs: seq<Rec>, cs: map<int, Content>, toFdb: bool)
    requires Busy(s2) && |s2.metas| == |s2.dmetas| == 2 && s2.pgoldest == v'.pgoldest
    requires var w2 := s2.w.value;
             && SamePages(v'.free, w2.head) && SamePages(v'.loose, w2.loose) && Consecutive(cs.Keys, w2.next, |cs|)
             && w2.pglast == v'.pglast && w2.next + |cs| == v'.next && SameRecs(recs, w2.base.recs)
    ensures Enabled(s2, WWork(TakeNew(cs, toFdb))) && Matches(Next(s2, WWork(TakeNew(cs, toFdb))), v', recs)
  {
    hide SameRecs, SamePages;
  }

  lemma ListTakes(w: Writer, w2: Writer, v: View, v': View, c: Call, recs: seq<Rec>, cs: map<int, Content>)
    requires Read(w, w2, recs, v'.pglast) && SamePages(v.free, w.head) && w.pglast == v.pglast
    requires FromList(v'.free, c.pgno, c.num, v.free, recs, v.pglast, v'.pglast)
    requires Consecutive(cs.Keys, c.pgno, |cs|) && |cs| == c.num
    ensures cs.Keys <= w2.head && SamePages(v'.free, w2.head - cs.Keys)
  {
    RunDownMembers(c.pgno, c.num);
    var all := v'.free + RunDown(c.pgno, c.num);
    hide InRecs;
    forall p ensures p in w2.head <==> p in all {
      assert p in all <==> p in v.free || InRecs(recs, v.pglast, v'.pglast, p);
    }
    forall p ensures p in all <==> p in v'.free || p in cs.Keys {}
  }

  /** An allocation that failed leaves the records read, and nothing else, in the protocol too. */
  lemma AllocFails(w: Writer, s2: State, v: View, v': View, c: Call, recs: seq<Rec>)
    requires Busy(s2) && |s2.metas| == |s2.dmetas| == 2 && s2.pgoldest == v'.pgoldest
    requires Read(w, s2.w.value, recs, v'.pglast) && RunAllocated(v, v', c, recs) && c.rc != MDB_SUCCESS
    requires SamePages(v.free, w.head) && SamePages(v.loose, w.loose) && w.pglast == v.pglast && w.next == v.next
    requires SameRecs(recs, w.base.recs)
    ensures Matches(s2, v', recs)
  {
    hide SameRecs, InRecs, AllBelow, Needed, FromEnd;
    ReadAll(w, s2.w.value, recs, v.pglast, v'.pglast);
  }

  /** A loose page is taken as such. */
  lemma AllocLoose(s: State, v: View, v': View, call: Call, recs: seq<Rec>, c: Content, toFdb: bool)
    requires Busy(s) && Matches(s, v, recs) && call.num == 1 && v.loose != [] && Allocated(v, v', call, recs)
    requires forall i :: 1 <= i < |v.loose| ==> v.loose[i] != v.loose[0]
    ensures var l := WWork(TakeLoose(call.pgno, c, toFdb)); Enabled(s, l) && Matches(Next(s, l), v', recs)
  {
    hide SameRecs;
    assert call.pgno == v.loose[0] == ([call.pgno] + v'.loose)[0];
    assert v'.loose == ([call.pgno] + v'.loose)[1..] == v.loose[1..];
    forall p ensures p in v'.loose <==> p in v.loose && p != call.pgno {
      assert v.loose == [v.loose[0]] + v.loose[1..];
    }
  }

  /** Freeing a run that this transaction obtained gives its pages back to the head list; freeing
      another one drops its pages from the trees, to be noted as freed. */
  lemma FreeIsWork(w: Writer, v: OverflowFree.View, v': OverflowFree.View, pg: Id, n: nat, mp: int, isDirty: bool,
                   oldest: int, ps: set<int>)
    requires SamePages(v.list, w.head) && SamePages(v.freed, w.freed) && v.hasHead == w.hasHead
    requires Consecutive(ps, pg, n) && ps <= w.Tree() && StrictDesc(v.list) && OverflowFree.Absent(v.list, pg, n)
    requires OverflowFree.Own(v, pg, isDirty) ==> ps <= w.mem.Keys
    requires if OverflowFree.Own(v, pg, isDirty) then OverflowFree.Returned(v, v', pg, n, mp, isDirty)
             else OverflowFree.Noted(v, v', pg, n)
    ensures var op := if OverflowFree.Own(v, pg, isDirty) then GiveBack(ps) else Drop(ps);
            && CanWork(w, op, oldest) && Work(w, op).Tree() == w.Tree() - ps && Work(w, op).hasHead == v'.hasHead
            && SamePages(v'.list, Work(w, op).head) && SamePages(v'.freed, Work(w, op).freed)
  {
    hide StrictDesc;
    RunDownMembers(pg, n);
    if OverflowFree.Own(v, pg, isDirty) {
      RunAdded(v.list, pg, n);
    }
  }
}
