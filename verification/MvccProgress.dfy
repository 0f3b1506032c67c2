/** The protocol gets somewhere: undisturbed, a reader comes to see the last published snapshot, and
    a writer publishes what it wrote. */
module MvccProgress {
  import opened MvccState
  import opened MvccInv
  import opened MvccCommit

  /** The steps ls lead from s to s'. */
  ghost predicate Path(s: State, ls: seq<Label>, s': State)
    decreases |ls|
  {
    if ls == [] then s' == s
    else |s.metas| == |s.dmetas| == 2 && Enabled(s, ls[0]) && Path(Next(s, ls[0]), ls[1..], s')
  }

  lemma PathStep(s: State, l: Label, ls: seq<Label>, s': State)
    requires |s.metas| == |s.dmetas| == 2 && Enabled(s, l) && Path(Next(s, l), ls, s')
    ensures Path(s, [l] + ls, s')
  {
    assert ([l] + ls)[1..] == ls;
  }

  lemma PathOne(s: State, l: Label)
    requires |s.metas| == |s.dmetas| == 2 && Enabled(s, l)
    ensures Path(s, [l], Next(s, l)) && Path(Next(s, l), [], Next(s, l))
  {
    assert Path(Next(s, l), [], Next(s, l));
    PathStep(s, l, [], Next(s, l));
    assert [l] + [] == [l];
  }

  lemma {:induction false} PathJoin(s: State, a: seq<Label>, s1: State, b: seq<Label>, s2: State)
    requires Path(s, a, s1) && Path(s1, b, s2)
    ensures Path(s, a + b, s2)
    decreases |a|
  {
    hide Enabled, Next;
    if a == [] {
      assert a + b == b;
    } else {
      PathJoin(Next(s, a[0]), a[1..], s1, b, s2);
      assert (a + b)[1..] == a[1..] + b;
    }
  }

  /** A new slot. */
  lemma SlotEnters(s: State)
    requires |s.metas| == |s.dmetas| == 2
    ensures var n := |s.slots|;
            Path(s, [RAppend, RClaim(n), RPid(n)], s.(slots := s.slots + [Slot(true, NONE, Idle)]))
  {
    var n := |s.slots|;
    var s1 := s.(slots := s.slots + [Slot(false, NONE, Idle)]);
    var s2 := s.(slots := s.slots + [Slot(false, NONE, Claiming)]);
    var s3 := s.(slots := s.slots + [Slot(true, NONE, Idle)]);
    assert s1.slots[n := Slot(false, NONE, Claiming)] == s2.slots;
    assert s2.slots[n := Slot(true, NONE, Idle)] == s3.slots;
    assert Next(s, RAppend) == s1 && Next(s1, RClaim(n)) == s2 && Next(s2, RPid(n)) == s3;
    assert Path(s3, [], s3);
    PathStep(s2, RPid(n), [], s3);
    assert [RPid(n)] + [] == [RPid(n)];
    PathStep(s1, RClaim(n), [RPid(n)], s3);
    PathStep(s, RAppend, [RClaim(n), RPid(n)], s3);
    assert [RAppend] + ([RClaim(n)] + [RPid(n)]) == [RAppend, RClaim(n), RPid(n)];
    assert [RClaim(n)] + [RPid(n)] == [RClaim(n), RPid(n)];
  }

  /** A reader in its slot, when no commit comes between: load, store, check, copy. */
  lemma SlotReads(s: State, i: int)
    requires |s.metas| == |s.dmetas| == 2 && IsSlot(s, i) && s.slots[i] == Slot(true, NONE, Idle)
    ensures Path(s, [RLoad(i), RStore(i), RCheck(i), RCopy(i)],
                 SetSlot(s, i, Slot(true, s.mti, Live(s.mti, s.metas[SlotOf(s.mti)].snap))))
  {
    var s1 := SetSlot(s, i, Slot(true, NONE, Loaded(s.mti)));
    var s2 := SetSlot(s, i, Slot(true, s.mti, Stored));
    var s3 := SetSlot(s, i, Slot(true, s.mti, Confirmed(s.mti)));
    var s4 := SetSlot(s, i, Slot(true, s.mti, Live(s.mti, s.metas[SlotOf(s.mti)].snap)));
    assert Next(s, RLoad(i)) == s1 && Next(s1, RStore(i)) == s2;
    assert Next(s2, RCheck(i)) == s3 && Next(s3, RCopy(i)) == s4;
    assert Path(s4, [], s4);
    PathStep(s3, RCopy(i), [], s4);
    assert [RCopy(i)] + [] == [RCopy(i)];
    PathStep(s2, RCheck(i), [RCopy(i)], s4);
    assert [RCheck(i)] + [RCopy(i)] == [RCheck(i), RCopy(i)];
    PathStep(s1, RStore(i), [RCheck(i), RCopy(i)], s4);
    assert [RStore(i)] + [RCheck(i), RCopy(i)] == [RStore(i), RCheck(i), RCopy(i)];
    PathStep(s, RLoad(i), [RStore(i), RCheck(i), RCopy(i)], s4);
    assert [RLoad(i)] + [RStore(i), RCheck(i), RCopy(i)] == [RLoad(i), RStore(i), RCheck(i), RCopy(i)];
  }

  /** From any state a new reader can come to see the last published snapshot, whatever the writer
      and the other readers are at. */
  lemma ReaderGets(s: State) returns (ls: seq<Label>, s': State)
    requires Inv(s)
    ensures Path(s, ls, s') && |s'.slots| == |s.slots| + 1 && s'.slots[..|s.slots|] == s.slots
    ensures s' == s.(slots := s'.slots) && |s.metas| == 2
    ensures s'.slots[|s.slots|] == Slot(true, s.mti, Live(s.mti, s.metas[SlotOf(s.mti)].snap))
  {
    assert |s.metas| == |s.dmetas| == 2;
    hide Inv, Path, Work, CanWork, SavedRecs, NewSnap, SavesHead, Pick;
    var n := |s.slots|;
    var s1 := s.(slots := s.slots + [Slot(true, NONE, Idle)]);
    s' := SetSlot(s1, n, Slot(true, s.mti, Live(s.mti, s.metas[SlotOf(s.mti)].snap)));
    SlotEnters(s);
    SlotReads(s1, n);
    PathJoin(s, [RAppend, RClaim(n), RPid(n)], s1, [RLoad(n), RStore(n), RCheck(n), RCopy(n)], s');
    ls := [RAppend, RClaim(n), RPid(n)] + [RLoad(n), RStore(n), RCheck(n), RCopy(n)];
  }

  /** The state once the meta of the writer w is written. */
  ghost function MetaOn(s: State): State
    requires |s.metas| == 2 && s.w.Some?
  {
    var w := s.w.value;
    var b := SlotOf(w.txnid);
    s.(durable := s.durable + s.disk, metas := s.metas[b := Meta(w.txnid, NewSnap(w))],
       w := Some(w.(phase := MetaWritten(s.metas[b]))))
  }

  lemma SyncStep(s: State)
    requires |s.metas| == |s.dmetas| == 2 && Enabled(s, WSync)
    ensures s.w.Some?
    ensures Path(s, [WSync], s.(durable := s.durable + s.disk, w := Some(s.w.value.(phase := Synced))))
  {
    hide Work, CanWork, SavedRecs, NewSnap, SavesHead, Pick;
    PathOne(s, WSync);
  }

  lemma MetaStep(s: State)
    requires |s.metas| == |s.dmetas| == 2 && s.w.Some? && s.w.value.phase.Synced?
    ensures var w, b := s.w.value, SlotOf(s.w.value.txnid);
            Path(s, [WMeta], s.(metas := s.metas[b := Meta(w.txnid, NewSnap(w))],
                                w := Some(w.(phase := MetaWritten(s.metas[b])))))
  {
    hide Work, CanWork, SavedRecs, NewSnap, SavesHead, Pick;
    PathOne(s, WMeta);
  }

  lemma DurableStep(s: State)
    requires |s.metas| == |s.dmetas| == 2 && s.w.Some? && s.w.value.phase.MetaWritten?
    ensures Path(s, [WMetaDurable], s.(dmetas := s.metas, w := Some(s.w.value.(phase := MetaDurable))))
  {
    hide Work, CanWork, SavedRecs, NewSnap, SavesHead, Pick;
    PathOne(s, WMetaDurable);
  }

  lemma LastStep(s: State)
    requires |s.metas| == |s.dmetas| == 2 && s.w.Some? && s.w.value.phase.MetaDurable?
    ensures Path(s, [WPublish], s.(mti := s.w.value.txnid, w := None))
  {
    hide Work, CanWork, SavedRecs, NewSnap, SavesHead, Pick;
    PathOne(s, WPublish);
  }

  lemma SyncedMeta(s: State)
    requires |s.metas| == |s.dmetas| == 2 && Enabled(s, WSync)
    ensures s.w.Some? && Path(s, [WSync, WMeta], MetaOn(s))
  {
    hide Path, Enabled, NewSnap;
    SyncStep(s);
    var w := s.w.value;
    var s1 := s.(durable := s.durable + s.disk, w := Some(w.(phase := Synced)));
    SyncedSnap(w);
    MetaStep(s1);
    PathJoin(s, [WSync], s1, [WMeta], MetaOn(s));
    assert [WSync] + [WMeta] == [WSync, WMeta];
  }

  lemma SyncedSnap(w: Writer)
    ensures NewSnap(w.(phase := Synced)) == NewSnap(w)
  {
  }

  lemma MetaPublished(s: State)
    requires |s.metas| == |s.dmetas| == 2 && s.w.Some? && s.w.value.phase.MetaWritten?
    ensures Path(s, [WMetaDurable, WPublish], s.(dmetas := s.metas, mti := s.w.value.txnid, w := None))
  {
    hide Path;
    var s1 := s.(dmetas := s.metas, w := Some(s.w.value.(phase := MetaDurable)));
    DurableStep(s);
    LastStep(s1);
    PathJoin(s, [WMetaDurable], s1, [WPublish], s.(dmetas := s.metas, mti := s.w.value.txnid, w := None));
    assert [WMetaDurable] + [WPublish] == [WMetaDurable, WPublish];
  }

  /** From a saved and flushed state the commit can be completed: the new snapshot is published. */
  lemma CommitGets(s: State) returns (s': State)
    requires Inv(s) && Enabled(s, WSync)
    ensures Path(s, [WSync, WMeta, WMetaDurable, WPublish], s')
    ensures s'.mti == s.mti + 1 && s'.w.None? && |s'.metas| == 2
    ensures s'.metas[SlotOf(s'.mti)] == Meta(s.mti + 1, NewSnap(s.w.value))
    ensures s'.dmetas == s'.metas && s'.slots == s.slots
  {
    SyncFacts(s);
    hide Inv, Path, NewSnap, Enabled;
    var s2 := MetaOn(s);
    s' := s2.(dmetas := s2.metas, mti := s2.w.value.txnid, w := None);
    SyncedMeta(s);
    MetaPublished(s2);
    PathJoin(s, [WSync, WMeta], s2, [WMetaDurable, WPublish], s');
    assert [WSync, WMeta] + [WMetaDurable, WPublish] == [WSync, WMeta, WMetaDurable, WPublish];
  }

  lemma SyncFacts(s: State)
    requires Inv(s) && Enabled(s, WSync)
    ensures |s.metas| == |s.dmetas| == 2 && s.w.Some? && s.w.value.txnid == s.mti + 1
  {
  }

  // ---- from any writer at work to the commit ----

  lemma NonePending(w: Writer)
    requires !exists p :: p in w.unflushed
    ensures w.unflushed !! w.Tree()
  {
    var ps := w.unflushed;
    assert forall p :: p !in w.unflushed;
    assert ps == {};
  }

  /** The pages of the writer that are not on the file yet, one by one. */
  lemma {:induction false} FlushAll(s: State) returns (ls: seq<Label>, s': State)
    requires Inv(s) && s.w.Some? && s.w.value.phase.Saved?
    ensures Path(s, ls, s') && Inv(s') && Enabled(s', WSync) && s'.mti == s.mti && s'.slots == s.slots
    ensures s'.w.Some? && s'.w.value == s.w.value.(unflushed := s'.w.value.unflushed)
    decreases s.w.value.unflushed
  {
    hide Work, CanWork, SavedRecs, NewSnap, SavesHead, Pick, Cover;
    var w := s.w.value;
    if p :| p in w.unflushed {
      assert w.unflushed <= w.mem.Keys;
      var l := WFlush(p);
      assert |s.metas| == |s.dmetas| == 2 && Enabled(s, l);
      InvNext(s, l);
      var s1 := Next(s, l);
      assert s1.w.value == w.(unflushed := w.unflushed - {p});
      hide Inv, Enabled, Next, Path;
      ls, s' := FlushAll(s1);
      PathStep(s, l, ls, s');
      ls := [l] + ls;
    } else {
      ls, s' := [], s;
      NonePending(w);
      assert Path(s, [], s);
    }
  }

  /** The records of a save that puts everything in one of them. */
  ghost function OneRecord(w: Writer): map<int, set<int>> {
    if w.head + w.loose == {} then map[] else map[w.pglast := w.head + w.loose]
  }

  lemma OneSaves(s: State)
    requires Inv(s) && Busy(s) && (s.w.value.hasHead || s.w.value.loose == {})
    ensures Enabled(s, WSave(OneRecord(s.w.value))) && |s.metas| == |s.dmetas| == 2
  {
    var w := s.w.value;
    var low := OneRecord(w);
    assert BooksInv(w, s.mti, s.metas[SlotOf(s.mti)].snap, s.disk);
    forall p ensures p in w.head + w.loose <==> exists k :: k in low && p in low[k] {
      if p in w.head + w.loose { assert w.pglast in low && p in low[w.pglast]; }
    }
    assert SavesHead(low, w);
  }

  /** A writer at work that has a list for its loose pages can commit what it holds by then. */
  lemma WriterGets(s: State) returns (ls: seq<Label>, s': State)
    requires Inv(s) && Busy(s) && (s.w.value.hasHead || s.w.value.loose == {})
    ensures Path(s, ls, s') && s'.mti == s.mti + 1 && s'.w.None? && s'.slots == s.slots && |s'.metas| == 2
    ensures var q, w := s'.metas[SlotOf(s'.mti)].snap, s.w.value;
            && s'.metas[SlotOf(s'.mti)].txnid == s'.mti && s'.dmetas == s'.metas
            && q == NewSnap(w).(recs := SavedRecs(OneRecord(w), w))
  {
    var w := s.w.value;
    var l := WSave(OneRecord(w));
    OneSaves(s);
    InvNext(s, l);
    var s1 := Next(s, l);
    SaveStep(s, OneRecord(w));
    hide *;
    ls, s' := SavedGets(s1);
    PathStep(s, l, ls, s');
    ls := [l] + ls;
    SavedSnap(w, OneRecord(w), s1.w.value);
  }

  /** A saved writer commits what it saved. */
  lemma SavedGets(s: State) returns (ls: seq<Label>, s': State)
    requires Inv(s) && s.w.Some? && s.w.value.phase.Saved?
    ensures Path(s, ls, s') && s'.mti == s.mti + 1 && s'.w.None? && s'.slots == s.slots && |s'.metas| == 2
    ensures s'.metas[SlotOf(s'.mti)] == Meta(s.mti + 1, NewSnap(s.w.value)) && s'.dmetas == s'.metas
  {
    hide *;
    var a, s1 := FlushAll(s);
    FlushedSnap(s.w.value, s1.w.value);
    s' := CommitGets(s1);
    PathJoin(s, a, s1, [WSync, WMeta, WMetaDurable, WPublish], s');
    ls := a + [WSync, WMeta, WMetaDurable, WPublish];
  }

  lemma FlushedSnap(w: Writer, w': Writer)
    requires w' == w.(unflushed := w'.unflushed)
    ensures NewSnap(w') == NewSnap(w)
  {
  }

  lemma SaveStep(s: State, low: map<int, set<int>>)
    requires |s.metas| == |s.dmetas| == 2 && Enabled(s, WSave(low))
    ensures var w := s.w.value;
            Next(s, WSave(low)) ==
              s.(w := Some(w.(recs := SavedRecs(low, w), head := {}, loose := {}, phase := Saved)))
  {
    hide SavedRecs, SavesHead;
  }

  lemma SavedSnap(w: Writer, low: map<int, set<int>>, w': Writer)
    requires w'.data == w.data && w'.fdb == w.fdb && w'.mem == w.mem && w'.base == w.base && w'.txnid == w.txnid
    requires w'.recs == SavedRecs(low, w) && w'.next == w.next
    ensures NewSnap(w') == NewSnap(w).(recs := SavedRecs(low, w))
  {
    hide SavedRecs;
  }

  // ---- everybody can stop ----

  /** Every reader can end, and leaves its slot empty. */
  lemma ReaderEnds(s: State, i: int) returns (ls: seq<Label>, s': State)
    requires Inv(s) && IsSlot(s, i) && !s.slots[i].pc.Idle?
    ensures Path(s, ls, s') && IsSlot(s', i) && s' == s.(slots := s.slots[i := s'.slots[i]])
    ensures s'.slots[i].pc.Idle? && (!s.slots[i].pc.Claiming? ==> s'.slots[i].txn == NONE)
  {
    assert |s.metas| == |s.dmetas| == 2;
    hide Inv, Path, Enabled, Next;
    if s.slots[i].pc.Claiming? {
      ls, s' := [RPid(i)], SetSlot(s, i, s.slots[i].(pid := true, pc := Idle));
      SlotStep(s, RPid(i), i, s'.slots[i]);
    } else if s.slots[i].pc.Loaded? {
      var s1 := SetSlot(s, i, s.slots[i].(txn := s.slots[i].pc.t, pc := Stored));
      SlotStep(s, RStore(i), i, s1.slots[i]);
      ls, s' := StoredEnds(s1, i);
      PathJoin(s, [RStore(i)], s1, ls, s');
      ls := [RStore(i)] + ls;
    } else if s.slots[i].pc.Stored? {
      ls, s' := StoredEnds(s, i);
    } else {
      ls, s' := [REnd(i, true)], SetSlot(s, i, Slot(false, NONE, Idle));
      SlotStep(s, REnd(i, true), i, s'.slots[i]);
    }
  }

  /** What a step of reader i makes of its slot. */
  ghost predicate SlotNext(s: State, l: Label, i: int, r: Slot)
    requires IsSlot(s, i)
  {
    var was := s.slots[i];
    match l
    case RPid(j) => j == i && was.pc.Claiming? && r == was.(pid := true, pc := Idle)
    case RLoad(j) => j == i && was.pid && was.pc.Idle? && was.txn == NONE && r == was.(pc := Loaded(s.mti))
    case RStore(j) => j == i && was.pc.Loaded? && r == was.(txn := was.pc.t, pc := Stored)
    case RCheck(j) =>
      j == i && was.pc.Stored? && r == was.(pc := if was.txn == s.mti then Confirmed(s.mti) else Loaded(s.mti))
    case REnd(j, release) => j == i && (was.pc.Confirmed? || was.pc.Live?) && r == Slot(!release, NONE, Idle)
    case _ => false
  }

  lemma SetTwice(s: State, i: int, r: Slot, r': Slot)
    requires IsSlot(s, i)
    ensures SetSlot(SetSlot(s, i, r), i, r') == SetSlot(s, i, r') && IsSlot(SetSlot(s, i, r), i)
    ensures SetSlot(s, i, r).slots[i] == r
  {
    assert s.slots[i := r][i := r'] == s.slots[i := r'];
  }

  lemma SlotStep(s: State, l: Label, i: int, r: Slot)
    requires |s.metas| == |s.dmetas| == 2 && IsSlot(s, i) && SlotNext(s, l, i, r)
    ensures Path(s, [l], SetSlot(s, i, r))
  {
    hide Path, Work, CanWork, SavedRecs, NewSnap, SavesHead, Pick;
    PathOne(s, l);
  }

  /** A reader that has stored a number checks it, stores a newer one if need be, and ends. */
  lemma StoredEnds(s: State, i: int) returns (ls: seq<Label>, s': State)
    requires |s.metas| == |s.dmetas| == 2 && IsSlot(s, i) && s.slots[i].pc.Stored?
    ensures Path(s, ls, s') && s' == s.(slots := s.slots[i := Slot(false, NONE, Idle)])
  {
    hide Path, Enabled, Next;
    var r1 := s.slots[i].(pc := if s.slots[i].txn == s.mti then Confirmed(s.mti) else Loaded(s.mti));
    var s1, r4 := SetSlot(s, i, r1), Slot(false, NONE, Idle);
    s' := SetSlot(s, i, r4);
    SlotStep(s, RCheck(i), i, r1);
    SetTwice(s, i, r1, r4);
    if r1.pc.Confirmed? {
      SlotStep(s1, REnd(i, true), i, r4);
      ls := [REnd(i, true)];
    } else {
      var r2 := Slot(r1.pid, s.mti, Stored);
      var r3 := Slot(r1.pid, s.mti, Confirmed(s.mti));
      var s2, s3 := SetSlot(s, i, r2), SetSlot(s, i, r3);
      SetTwice(s, i, r1, r2);
      SetTwice(s, i, r2, r3);
      SetTwice(s, i, r3, r4);
      SlotStep(s1, RStore(i), i, r2);
      SlotStep(s2, RCheck(i), i, r3);
      SlotStep(s3, REnd(i, true), i, r4);
      PathJoin(s2, [RCheck(i)], s3, [REnd(i, true)], s');
      PathJoin(s1, [RStore(i)], s2, [RCheck(i)] + [REnd(i, true)], s');
      ls := [RStore(i)] + ([RCheck(i)] + [REnd(i, true)]);
    }
    PathJoin(s, [RCheck(i)], s1, ls, s');
    ls := [RCheck(i)] + ls;
  }

  /** Every writer can be done with: aborted as long as its meta is not written, and then published. */
  lemma WriterEnds(s: State) returns (ls: seq<Label>, s': State)
    requires Inv(s) && s.w.Some?
    ensures Path(s, ls, s') && s'.w.None? && s'.slots == s.slots && s'.scan.NoScan?
    ensures s'.mti == if MetaOut(s) then s.mti + 1 else s.mti
    ensures !MetaOut(s) ==> s'.metas == s.metas && s'.dmetas == s.dmetas
  {
    assert |s.metas| == |s.dmetas| == 2 && s.w.value.txnid == s.mti + 1 && (MetaOut(s) ==> s.scan.NoScan?);
    hide Inv, Path, Work, CanWork, SavedRecs, NewSnap, SavesHead, Pick;
    if s.w.value.phase.MetaWritten? {
      MetaPublished(s);
      ls, s' := [WMetaDurable, WPublish], s.(dmetas := s.metas, mti := s.w.value.txnid, w := None);
    } else if s.w.value.phase.MetaDurable? {
      ls, s' := [WPublish], s.(mti := s.w.value.txnid, w := None);
      LastStep(s);
    } else {
      ls, s' := [WAbort], s.(w := None, scan := NoScan);
      AbortStep(s);
    }
  }

  lemma AbortStep(s: State)
    requires |s.metas| == |s.dmetas| == 2 && s.w.Some? && !MetaOut(s)
    ensures Path(s, [WAbort], s.(w := None, scan := NoScan))
  {
    hide Work, CanWork, SavedRecs, NewSnap, SavesHead, Pick;
    PathOne(s, WAbort);
  }

  // ---- what may go wrong ----

  lemma WritebackStep(s: State, p: int)
    requires |s.metas| == |s.dmetas| == 2 && p in s.disk
    ensures Path(s, [Writeback(p)], s.(durable := s.durable[p := s.disk[p]]))
  {
    hide Work, CanWork, SavedRecs, NewSnap, SavesHead, Pick;
    PathOne(s, Writeback(p));
  }

  lemma MetaWritebackStep(s: State, i: int)
    requires |s.metas| == |s.dmetas| == 2 && 0 <= i < 2
    ensures Path(s, [MetaWriteback(i)], s.(dmetas := s.dmetas[i := s.metas[i]]))
  {
    hide Work, CanWork, SavedRecs, NewSnap, SavesHead, Pick;
    PathOne(s, MetaWriteback(i));
  }

  /** The store once the pages ps have reached stable storage. */
  function Reached(s: State, ps: set<int>): map<int, Content>
    requires ps <= s.disk.Keys
  {
    s.durable + map p | p in ps :: s.disk[p]
  }

  lemma {:induction false} SomeReach(s: State, ps: set<int>) returns (ls: seq<Label>)
    requires |s.metas| == |s.dmetas| == 2 && ps <= s.disk.Keys
    ensures Path(s, ls, s.(durable := Reached(s, ps)))
    decreases ps
  {
    hide Path;
    if p :| p in ps {
      var qs := ps - {p};
      var s1 := s.(durable := Reached(s, qs));
      ls := SomeReach(s, qs);
      WritebackStep(s1, p);
      assert Reached(s, ps) == s1.durable[p := s.disk[p]];
      PathJoin(s, ls, s1, [Writeback(p)], s.(durable := Reached(s, ps)));
      ls := ls + [Writeback(p)];
    } else {
      NoneReached(s, ps);
      ls := [];
      PathNone(s);
    }
  }

  lemma PathNone(s: State)
    ensures Path(s, [], s)
  {
  }

  lemma NoneReached(s: State, ps: set<int>)
    requires ps <= s.disk.Keys && !exists p :: p in ps
    ensures Reached(s, ps) == s.durable
  {
    var qs := ps;
    assert forall p :: p !in ps;
    assert qs == {};
  }

  /** A crash may come at any time, after any of the flushed pages and either meta page, and no others,
      have reached stable storage: no reader or writer is left, and the file is what was there. */
  lemma CrashKeeps(s: State, ps: set<int>, i: int) returns (ls: seq<Label>, s': State)
    requires |s.metas| == |s.dmetas| == 2 && ps <= s.disk.Keys && 0 <= i < 2
    ensures Path(s, ls, s') && s'.slots == [] && s'.w.None? && !s'.fatal
    ensures s'.disk == s'.durable == Reached(s, ps) && s'.metas == s'.dmetas == s.dmetas[i := s.metas[i]]
    ensures s'.mti == Pick(s'.metas).txnid
  {
    hide Path, Enabled, Next, Pick;
    ls := SomeReach(s, ps);
    var s1 := s.(durable := Reached(s, ps));
    var s2 := s1.(dmetas := s.dmetas[i := s.metas[i]]);
    MetaWritebackStep(s1, i);
    PathJoin(s, ls, s1, [MetaWriteback(i)], s2);
    ls := ls + [MetaWriteback(i)];
    s' := CrashStep(s2);
    PathJoin(s, ls, s2, [Crash], s');
    ls := ls + [Crash];
  }

  lemma CrashStep(s: State) returns (s': State)
    requires |s.metas| == |s.dmetas| == 2
    ensures Path(s, [Crash], s') && s'.slots == [] && s'.w.None? && !s'.fatal
    ensures s'.disk == s'.durable == s.durable && s'.metas == s'.dmetas == s.dmetas && s'.mti == Pick(s.dmetas).txnid
  {
    hide Work, CanWork, SavedRecs, NewSnap, SavesHead, Pick;
    PathOne(s, Crash);
    s' := Next(s, Crash);
  }

  /** And every meta write may fail, with the old data put back, under the old number, or not. */
  lemma MetaFails(s: State, back: bool) returns (s': State)
    requires |s.metas| == |s.dmetas| == 2 && s.w.Some? && s.w.value.phase.MetaWritten?
    ensures |s'.metas| == 2 && Path(s, [WMetaFail(back)], s') && s'.fatal && s'.w.None?
    ensures s'.mti == s.mti && s'.dmetas == s.dmetas
    ensures !back ==> s'.metas == s.metas
    ensures back ==>
              var w := s.w.value;
              && s'.metas[1 - w.txnid % 2] == s.metas[1 - w.txnid % 2]
              && s'.metas[w.txnid % 2].txnid == w.phase.prior.txnid
              && s'.metas[w.txnid % 2].snap == NewSnap(w).(next := w.phase.prior.snap.next)
  {
    hide Work, CanWork, SavedRecs, NewSnap, SavesHead, Pick;
    PathOne(s, WMetaFail(back));
    s' := Next(s, WMetaFail(back));
  }
}
