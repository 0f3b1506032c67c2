/** What every run of the protocol guarantees. */
module MvccTheorems {
  import opened MvccState
  import opened MvccInv
  import opened MvccSteps
  import opened MvccCommit

  // ---- runs ----

  /** The empty environment: two equal metas, no pages, no readers. */
  const EMPTY := Snap(0, {}, {}, map[], map[], NUM_METAS)
  const START := State([], 0, [Meta(0, EMPTY), Meta(0, EMPTY)], [Meta(0, EMPTY), Meta(0, EMPTY)],
                       map[], map[], None, NoScan, 0, false)

  /** ss are the states, ls the steps, in any interleaving and with crashes anywhere. */
  ghost predicate IsRun(ss: seq<State>, ls: seq<Label>) {
    && |ss| == |ls| + 1
    && ss[0] == START
    && (forall k :: 0 <= k < |ls| ==> Takes(ss[k], ls[k], ss[k + 1]))
  }

  ghost predicate Takes(s: State, l: Label, s': State) {
    |s.metas| == |s.dmetas| == 2 && Enabled(s, l) && s' == Next(s, l)
  }

  lemma {:induction false} RunInv(ss: seq<State>, ls: seq<Label>, k: nat)
    requires IsRun(ss, ls) && k <= |ls|
    ensures Inv(ss[k])
  {
    hide Inv, Enabled, Next;
    if k == 0 {
      StartInv();
    } else {
      RunInv(ss, ls, k - 1);
      assert Takes(ss[k - 1], ls[k - 1], ss[k - 1 + 1]);
      InvNext(ss[k - 1], ls[k - 1]);
    }
  }

  lemma StartInv()
    ensures Inv(START)
  {
    forall p ensures p in EMPTY.data + EMPTY.fdb || ListedAbove(EMPTY.recs, 0, p) <==> NUM_METAS <= p < EMPTY.next {
    }
    assert SnapOk(EMPTY);
  }

  // ---- readers ----

  /** In every run, a live reader's pages are on the file as its snapshot says, and the
      snapshot is at least as new as the transaction the reader published. */
  lemma ReaderSafe(ss: seq<State>, ls: seq<Label>, k: nat, i: int)
    requires IsRun(ss, ls) && k <= |ls| && IsSlot(ss[k], i) && ss[k].slots[i].pc.Live?
    ensures var r := ss[k].slots[i];
            && Holds(ss[k].disk, r.pc.snap.image)
            && (!ss[k].fatal ==> r.txn == r.pc.t <= r.pc.snap.txnid)
  {
    RunInv(ss, ls, k);
    assert SlotInv(ss[k], ss[k].slots[i]);
  }

  /** No page of a live reader's snapshot is ever handed to the writer. */
  lemma NeverHandedOut(ss: seq<State>, ls: seq<Label>, k: nat, i: int, op: Op)
    requires IsRun(ss, ls) && k < |ls| && IsSlot(ss[k], i) && ss[k].slots[i].pc.Live? && ls[k] == WWork(op)
    ensures var q := ss[k].slots[i].pc.snap;
            match op
            case TakeLoose(p, _, _) => p !in q.image
            case TakeHead(cs, _) => cs.Keys !! q.image.Keys
            case TakeNew(cs, _) => cs.Keys !! q.image.Keys
            case Fetch(n) => ss[k].w.Some? && n in ss[k].w.value.base.recs && ss[k].w.value.base.recs[n] !! q.image.Keys
            case _ => true
  {
    var s := ss[k];
    RunInv(ss, ls, k);
    assert Takes(ss[k], ls[k], ss[k + 1]);
    var q := s.slots[i].pc.snap;
    assert Protected(s.metas, s.slots, q);
    HandOut(s, op, q);
  }

  lemma HandOut(s: State, op: Op, q: Snap)
    requires Inv(s) && Enabled(s, WWork(op)) && Protected(s.metas, s.slots, q)
    ensures Work(s.w.value, op).mem.Keys !! q.image.Keys && Work(s.w.value, op).head !! q.image.Keys
    ensures op.Fetch? ==> op.k in s.w.value.base.recs && s.w.value.base.recs[op.k] !! q.image.Keys
  {
    var w := s.w.value;
    BusyFacts(s);
    assert Apart(w, q);
    ProtectedNew(s, q);
    hide Inv;
    WorkApart(w, op, s.pgoldest, q);
  }

  /** Nothing is written over a live reader's pages: short of a crash, every step leaves them. */
  lemma NeverOverwritten(ss: seq<State>, ls: seq<Label>, k: nat, i: int, p: int)
    requires IsRun(ss, ls) && k < |ls| && ls[k] != Crash
    requires IsSlot(ss[k], i) && ss[k].slots[i].pc.Live? && p in ss[k].slots[i].pc.snap.image
    ensures p in ss[k].disk && p in ss[k + 1].disk && ss[k + 1].disk[p] == ss[k].disk[p]
  {
    var s, q := ss[k], ss[k].slots[i].pc.snap;
    ReaderSafe(ss, ls, k, i);
    RunInv(ss, ls, k);
    assert Takes(ss[k], ls[k], ss[k + 1]);
    assert Protected(s.metas, s.slots, q);
    if ls[k].WFlush? { FlushHolds(s, ls[k].p, q); } else { DiskSame(s, ls[k]); }
  }

  /** Only a flush writes pages. */
  lemma DiskSame(s: State, l: Label)
    requires |s.metas| == |s.dmetas| == 2 && Enabled(s, l) && !l.WFlush? && !l.Crash?
    ensures Next(s, l).disk == s.disk
  {
  }

  /** A reader past the publish-and-recheck loop is at or above the writer's cached oldest. */
  lemma OldestBelowReaders(ss: seq<State>, ls: seq<Label>, k: nat, i: int)
    requires IsRun(ss, ls) && k <= |ls| && IsSlot(ss[k], i) && Pinned(ss[k].slots[i])
    ensures ss[k].slots[i].txn == ss[k].slots[i].pc.t && ss[k].pgoldest <= ss[k].slots[i].pc.t <= ss[k].mti
  {
    RunInv(ss, ls, k);
    assert SlotInv(ss[k], ss[k].slots[i]);
  }

  // ---- crashes ----

  /** At every point of every run, a crash leaves a meta page that names the last published
      snapshot, or the one whose meta was being written, with all its pages. */
  lemma CrashAtomic(ss: seq<State>, ls: seq<Label>, k: nat)
    requires IsRun(ss, ls) && k <= |ls|
    ensures var s := ss[k];
            && |s.metas| == |s.dmetas| == 2
            && var c := Pick(s.dmetas);
            && c.Genuine() && SnapOk(c.snap) && Holds(s.durable, c.snap.image)
            && (c.txnid == s.mti ==> c == s.metas[SlotOf(s.mti)])
            && (c.txnid == s.mti || (c.txnid == s.mti + 1 && (MetaOut(s) || s.fatal)))
            && (c.txnid == s.mti + 1 && MetaOut(s) ==> c.snap == NewSnap(s.w.value))
  {
    var s := ss[k];
    RunInv(ss, ls, k);
    hide ReaderInv, ScanInv, SnapOk, Holds, Safe;
    var c := Pick(s.dmetas);
    assert s.mti <= c.txnid <= s.mti + 1;
  }

  /** Until the new meta is written both older snapshots are whole, in the file and on
      stable storage. */
  lemma OldMetasWhole(ss: seq<State>, ls: seq<Label>, k: nat, i: int)
    requires IsRun(ss, ls) && k <= |ls| && 0 <= i < 2 && i < |ss[k].metas| && ss[k].metas[i].Genuine()
    ensures Holds(ss[k].disk, ss[k].metas[i].snap.image) && Holds(ss[k].durable, ss[k].metas[i].snap.image)
    ensures !MetaOut(ss[k]) && !ss[k].fatal ==> ss[k].dmetas == ss[k].metas
  {
    RunInv(ss, ls, k);
  }

  /** Published transactions are never lost. */
  lemma {:induction false} PublishedStays(ss: seq<State>, ls: seq<Label>, j: nat, k: nat)
    requires IsRun(ss, ls) && j <= k <= |ls|
    ensures ss[j].mti <= ss[k].mti
  {
    hide Inv, Enabled, Next;
    if j < k {
      PublishedStays(ss, ls, j, k - 1);
      RunInv(ss, ls, k - 1);
      assert Takes(ss[k - 1], ls[k - 1], ss[k - 1 + 1]);
      MtiGrows(ss[k - 1], ls[k - 1]);
    }
  }

  lemma MtiGrows(s: State, l: Label)
    requires Inv(s) && Enabled(s, l)
    ensures |s.metas| == |s.dmetas| == 2 && s.mti <= Next(s, l).mti
  {
    assert s.mti <= Pick(s.dmetas).txnid;
    hide Inv;
  }

  // ---- where snapshots come from ----

  /** q is the empty database or what some commit before step k wrote. */
  ghost predicate Committed(ss: seq<State>, ls: seq<Label>, k: nat, q: Snap)
    requires |ss| == |ls| + 1
  {
    q == EMPTY || exists j :: 0 <= j < k && j < |ls| && WroteMeta(ss[j], ls[j], q)
  }

  ghost predicate WroteMeta(s: State, l: Label, q: Snap) {
    l.WMeta? && s.w.Some? && NewSnap(s.w.value) == q
  }

  ghost predicate AllCommitted(ss: seq<State>, ls: seq<Label>, k: nat)
    requires |ss| == |ls| + 1 && k <= |ls|
  {
    var s := ss[k];
    && |s.metas| == |s.dmetas| == 2
    && (forall i :: 0 <= i < 2 && s.metas[i].Genuine() ==> Committed(ss, ls, k, s.metas[i].snap))
    && (forall i :: 0 <= i < 2 && s.dmetas[i].Genuine() ==> Committed(ss, ls, k, s.dmetas[i].snap))
    && (!s.fatal ==> forall i :: 0 <= i < |s.slots| && s.slots[i].pc.Live? ==> Committed(ss, ls, k, s.slots[i].pc.snap))
  }

  /** Where the genuine metas and live snapshots of s' come from. */
  ghost predicate Origins(s: State, l: Label, s': State) {
    && |s'.metas| == |s'.dmetas| == 2
    && (forall m: Meta :: m.Genuine() && (m in s'.metas || m in s'.dmetas) ==> FromMeta(s, l, m))
    && (!s'.fatal ==> forall i :: IsSlot(s', i) && s'.slots[i].pc.Live? ==>
      !s.fatal && FromLive(s, i, s'.slots[i].pc.snap))
  }

  ghost predicate FromMeta(s: State, l: Label, m: Meta) {
    m in s.metas || m in s.dmetas || WroteMeta(s, l, m.snap)
  }

  ghost predicate FromLive(s: State, i: int, q: Snap) {
    || (IsSlot(s, i) && s.slots[i].pc.Live? && s.slots[i].pc.snap == q)
    || (exists m :: m in s.metas && m.Genuine() && m.snap == q)
  }

  lemma StepOrigins(s: State, l: Label)
    requires Inv(s) && |s.metas| == |s.dmetas| == 2 && Enabled(s, l)
    ensures Origins(s, l, Next(s, l))
  {
    hide Inv, Enabled, Next, WroteMeta;
    InvNext(s, l);
    var s' := Next(s, l);
    TwoMetas(s');
    MetaOrigin(s, l);
    if !s'.fatal {
      forall i | IsSlot(s', i) && s'.slots[i].pc.Live? ensures !s.fatal && FromLive(s, i, s'.slots[i].pc.snap) {
        LiveOrigin(s, l, i);
      }
    }
  }

  /** What a reader sees, and what a crash leaves, is always some commit's whole snapshot. */
  lemma {:induction false} OnlyCommitted(ss: seq<State>, ls: seq<Label>, k: nat)
    requires IsRun(ss, ls) && k <= |ls|
    ensures AllCommitted(ss, ls, k)
  {
    hide Inv, Enabled, Next, Origins;
    if 0 < k {
      OnlyCommitted(ss, ls, k - 1);
      RunInv(ss, ls, k - 1);
      assert Takes(ss[k - 1], ls[k - 1], ss[k - 1 + 1]);
      StepOrigins(ss[k - 1], ls[k - 1]);
      CommittedStep(ss, ls, k - 1);
    }
  }

  lemma CommittedStep(ss: seq<State>, ls: seq<Label>, k: nat)
    requires |ss| == |ls| + 1 && k < |ls| && Origins(ss[k], ls[k], ss[k + 1]) && AllCommitted(ss, ls, k)
    ensures AllCommitted(ss, ls, k + 1)
  {
    hide WroteMeta;
    forall q | Committed(ss, ls, k, q) || WroteMeta(ss[k], ls[k], q) ensures Committed(ss, ls, k + 1, q) {
    }
  }

  lemma TwoMetas(s: State)
    requires Inv(s)
    ensures |s.metas| == |s.dmetas| == 2
  {
  }

  ghost predicate MetasFrom(s: State, l: Label, s': State) {
    forall m: Meta :: m.Genuine() && (m in s'.metas || m in s'.dmetas) ==> FromMeta(s, l, m)
  }

  lemma NewMetaFrom(s: State)
    requires Inv(s) && Enabled(s, WMeta)
    ensures |s.metas| == |s.dmetas| == 2 && MetasFrom(s, WMeta, Next(s, WMeta))
  {
    NewTxnid(s.w.value);
    hide DbOk, ReaderInv, ScanInv, SnapOk, Holds, NewSnap, WriterInv;
  }

  lemma FailedMetaFrom(s: State, back: bool)
    requires Inv(s) && Enabled(s, WMetaFail(back))
    ensures |s.metas| == |s.dmetas| == 2 && MetasFrom(s, WMetaFail(back), Next(s, WMetaFail(back)))
  {
    NewTxnid(s.w.value);
    hide DbOk, ReaderInv, ScanInv, SnapOk, Holds, NewSnap;
  }

  lemma DurableMetaFrom(s: State)
    requires Inv(s) && Enabled(s, WMetaDurable)
    ensures |s.metas| == |s.dmetas| == 2 && MetasFrom(s, WMetaDurable, Next(s, WMetaDurable))
  {
    hide DbOk, ReaderInv, ScanInv, SnapOk, Holds, NewSnap, WriterInv;
  }

  lemma WrittenMetaFrom(s: State, i: int)
    requires Inv(s) && Enabled(s, MetaWriteback(i))
    ensures |s.metas| == |s.dmetas| == 2 && MetasFrom(s, MetaWriteback(i), Next(s, MetaWriteback(i)))
  {
    hide DbOk, ReaderInv, ScanInv, SnapOk, Holds, NewSnap, WriterInv;
  }

  lemma CrashMetaFrom(s: State)
    requires Inv(s)
    ensures |s.metas| == |s.dmetas| == 2 && MetasFrom(s, Crash, Next(s, Crash))
  {
    hide DbOk, ReaderInv, ScanInv, SnapOk, Holds, NewSnap, WriterInv;
  }

  lemma MetaOrigin(s: State, l: Label)
    requires |s.metas| == |s.dmetas| == 2 && Enabled(s, l) && Inv(s)
    ensures MetasFrom(s, l, Next(s, l))
  {
    hide Inv, Next, Enabled;
    match l
    case WMeta => NewMetaFrom(s);
    case WMetaFail(back) => FailedMetaFrom(s, back);
    case WMetaDurable => DurableMetaFrom(s);
    case MetaWriteback(i) => WrittenMetaFrom(s, i);
    case Crash => CrashMetaFrom(s);
    case _ => MetasKept(s, l);
  }

  lemma NewTxnid(w: Writer)
    ensures NewSnap(w).txnid == w.txnid
  {
  }

  lemma MetasKept(s: State, l: Label)
    requires |s.metas| == |s.dmetas| == 2 && Enabled(s, l) && !l.WMeta? && !l.WMetaFail? && !l.WMetaDurable?
    requires !l.MetaWriteback? && !l.Crash?
    ensures Next(s, l).metas == s.metas && Next(s, l).dmetas == s.dmetas && Next(s, l).fatal == s.fatal
  {
  }

  lemma LiveOrigin(s: State, l: Label, i: int)
    requires |s.metas| == |s.dmetas| == 2 && Enabled(s, l) && Inv(s) && IsSlot(Next(s, l), i)
    requires Next(s, l).slots[i].pc.Live? && !Next(s, l).fatal
    ensures !s.fatal
    ensures FromLive(s, i, Next(s, l).slots[i].pc.snap)
  {
    hide DbOk, WriterInv, ScanInv, SnapOk, Holds, NewSnap, SavesHead, CanWork;
    if l.RCopy? {
      assert SlotInv(s, s.slots[l.i]);
      assert s.metas[SlotOf(s.slots[l.i].pc.t)] in s.metas;
    }
  }

  // ---- page conservation ----

  /** The lengths of the records ks. */
  ghost function SumOver(ks: set<int>, recs: map<int, set<int>>): int
    requires ks <= recs.Keys
  {
    if exists k :: k in ks then var k := AnyOf(ks); |recs[k]| + SumOver(ks - {k}, recs) else 0
  }

  ghost function AnyOf(ks: set<int>): int
    requires exists k :: k in ks
  {
    var k :| k in ks; k
  }

  ghost function SumSizes(recs: map<int, set<int>>): int { SumOver(recs.Keys, recs) }

  function Unread(recs: map<int, set<int>>, lo: int): map<int, set<int>> {
    map k | k in recs && lo < k :: recs[k]
  }

  lemma {:induction false} SumUnion(ks: set<int>, recs: map<int, set<int>>, all: set<int>)
    requires ks <= recs.Keys
    requires forall p :: p in all <==> exists k :: k in ks && p in recs[k]
    requires forall k1, k2 :: k1 in ks && k2 in ks && k1 < k2 ==> recs[k1] !! recs[k2]
    ensures SumOver(ks, recs) == |all|
  {
    if !exists k :: k in ks {
      forall p ensures p !in all {}
      assert all == {};
    } else {
      var k := AnyOf(ks);
      SumSplit(ks, recs, all, k);
      SumUnion(ks - {k}, recs, all - recs[k]);
      assert all == recs[k] + (all - recs[k]);
    }
  }

  lemma SumSplit(ks: set<int>, recs: map<int, set<int>>, all: set<int>, k: int)
    requires ks <= recs.Keys && k in ks
    requires forall p :: p in all <==> exists k :: k in ks && p in recs[k]
    requires forall k1, k2 :: k1 in ks && k2 in ks && k1 < k2 ==> recs[k1] !! recs[k2]
    ensures recs[k] <= all
    ensures forall k1, k2 :: k1 in ks - {k} && k2 in ks - {k} && k1 < k2 ==> recs[k1] !! recs[k2]
    ensures forall p :: p in all - recs[k] <==> exists k' :: k' in ks - {k} && p in recs[k']
  {
    forall p | p in recs[k] ensures p in all {
      assert k in ks && p in recs[k];
    }
    forall p ensures p in all - recs[k] <==> exists k' :: k' in ks - {k} && p in recs[k'] {
      if k' :| k' in ks - {k} && p in recs[k'] {
        assert recs[if k < k' then k else k'] !! recs[if k < k' then k' else k];
      }
      if p in all && p !in recs[k] {
        var k' :| k' in ks && p in recs[k'];
        assert k' in ks - {k} && p in recs[k'];
      }
    }
  }

  lemma {:induction false} RangeSize(s: set<int>, lo: int, hi: int)
    requires lo <= hi && forall p :: p in s <==> lo <= p < hi
    ensures |s| == hi - lo
    decreases hi - lo
  {
    if lo == hi {
      forall p ensures p !in s {}
      assert s == {};
    } else {
      RangeSize(s - {hi - 1}, lo, hi - 1);
    }
  }

  lemma CoverAudit(u: set<int>, recs: map<int, set<int>>, lo: int, next: int)
    requires Cover(u, recs, lo, next) && NUM_METAS <= next
    ensures |u| + SumSizes(Unread(recs, lo)) + NUM_METAS == next
  {
    var listed := set p | NUM_METAS <= p < next && ListedAbove(recs, lo, p);
    var rest := Unread(recs, lo);
    forall p ensures p in listed <==> exists k :: k in rest && p in rest[k] {
      if k :| k in rest && p in rest[k] {
        assert k in recs && lo < k && p in recs[k];
      }
      if p in listed {
        var k :| k in recs && lo < k && p in recs[k];
        assert k in rest && p in rest[k];
      }
    }
    SumUnion(rest.Keys, rest, listed);
    forall p | p in listed ensures p !in u {
    }
    RangeSize(u + listed, NUM_METAS, next);
  }

  /** The audit equation of a committed snapshot: every page from 2 on is in a tree or, once,
      in a freeDB record. */
  lemma SnapAudit(q: Snap)
    requires SnapOk(q)
    ensures |q.data| + |q.fdb| + SumSizes(q.recs) + NUM_METAS == q.next
  {
    CoverAudit(q.data + q.fdb, q.recs, 0, q.next);
    assert Unread(q.recs, 0) == q.recs;
  }

  /** The audit equation of a write transaction at work. */
  lemma WorkAudit(w: Writer)
    requires OwnCover(w) && NUM_METAS <= w.next
    ensures |w.data| + |w.fdb| + |w.head| + |w.freed| + |w.loose| + SumSizes(Unread(w.base.recs,
            w.pglast)) + NUM_METAS == w.next
  {
    CoverAudit(w.Own(), w.base.recs, w.pglast, w.next);
    assert |w.data + w.fdb| == |w.data| + |w.fdb|;
    assert |w.data + w.fdb + w.head| == |w.data + w.fdb| + |w.head|;
    assert |w.data + w.fdb + w.head + w.freed| == |w.data + w.fdb + w.head| + |w.freed|;
    assert |w.Own()| == |w.data + w.fdb + w.head + w.freed| + |w.loose|;
  }

  /** In every run no page is lost or counted twice: not in the published database, not in
      the one a crash would leave, not by the writer while it works nor by what it saved. */
  lemma PagesConserved(ss: seq<State>, ls: seq<Label>, k: nat)
    requires IsRun(ss, ls) && k <= |ls|
    ensures var s := ss[k];
            && |s.metas| == |s.dmetas| == 2
            && Audited(s.metas[SlotOf(s.mti)].snap) && Audited(Pick(s.dmetas).snap)
            && (s.w.Some? && !s.w.value.phase.Working? ==> Audited(NewSnap(s.w.value)))
            && (s.w.Some? && s.w.value.phase.Working? ==>
                  var w := s.w.value;
                  |w.data| + |w.fdb| + |w.head| + |w.freed| + |w.loose|
                  + SumSizes(Unread(w.base.recs, w.pglast)) + NUM_METAS == w.next)
  {
    var s := ss[k];
    RunInv(ss, ls, k);
    ConservedIn(s);
    hide Inv, SnapOk, OwnCover;
    SnapAudit(s.metas[SlotOf(s.mti)].snap);
    SnapAudit(Pick(s.dmetas).snap);
    if s.w.Some? {
      if s.w.value.phase.Working? { WorkAudit(s.w.value); } else { SnapAudit(NewSnap(s.w.value)); }
    }
  }

  ghost predicate Audited(q: Snap) {
    |q.data| + |q.fdb| + SumSizes(q.recs) + NUM_METAS == q.next
  }

  lemma ConservedIn(s: State)
    requires Inv(s)
    ensures |s.metas| == |s.dmetas| == 2 && SnapOk(s.metas[SlotOf(s.mti)].snap) && SnapOk(Pick(s.dmetas).snap)
    ensures s.w.Some? && !s.w.value.phase.Working? ==> SnapOk(NewSnap(s.w.value))
    ensures s.w.Some? && s.w.value.phase.Working? ==> OwnCover(s.w.value) && NUM_METAS <= s.w.value.next
  {
    hide ReaderInv, ScanInv, Holds, Safe;
  }
}
