/** Commit, abort, crash, and the steps of readers keep the invariant. */
module MvccCommit {
  import opened MvccState
  import opened MvccInv
  import opened MvccSteps

  // ---- readers ----

  lemma ReaderStep(s: State, l: Label)
    requires Inv(s) && Enabled(s, l)
    requires l.RClaim? || l.RPid? || l.RLoad? || l.RStore? || l.RCheck? || l.REnd?
    ensures Inv(Next(s, l))
  {
    var i := l.i;
    var r := s.slots[i];
    assert SlotInv(s, r);
    var r' := match l
      case RClaim(_) => Slot(false, NONE, Claiming)
      case RPid(_) => r.(pid := true, pc := Idle)
      case RLoad(_) => r.(pc := Loaded(s.mti))
      case RStore(_) => r.(txn := r.pc.t, pc := Stored)
      case RCheck(_) => r.(pc := if r.txn == s.mti then Confirmed(s.mti) else Loaded(s.mti))
      case REnd(_, release) => Slot(!release, NONE, Idle);
    hide DbOk, WriterInv, Safe, Holds;
    SlotStep(s, i, r');
  }

  // ---- begin and abort ----

  lemma BeginStep(s: State)
    requires Inv(s) && Enabled(s, WBegin)
    ensures Inv(Next(s, WBegin))
  {
    var s' := Next(s, WBegin);
    var w := s'.w.value;
    BeginBooks(s);
    forall q | Protected(s.metas, s.slots, q) ensures Apart(w, q) {
    }
    MetaSame(s, s');
    ReadersSame(s, s');
    hide MetaInv, ReaderInv, Protected, BooksInv, Apart, Holds;
  }

  lemma BeginBooks(s: State)
    requires Inv(s) && Enabled(s, WBegin)
    ensures |s.metas| == 2 == |s.dmetas|
    ensures BooksInv(Next(s, WBegin).w.value, s.mti, s.metas[SlotOf(s.mti)].snap, s.disk)
  {
    var w := Next(s, WBegin).w.value;
    assert SnapOk(w.base) && w.base.txnid == s.mti;
    hide Inv;
    assert w.Own() == w.base.data + w.base.fdb;
  }

  lemma AbortStep(s: State)
    requires Inv(s) && Enabled(s, WAbort)
    ensures Inv(Next(s, WAbort))
  {
    var s' := Next(s, WAbort);
    MetaSame(s, s');
    ReadersSame(s, s');
    hide MetaInv, ReaderInv, Protected, BooksInv, Apart, Holds;
  }

  // ---- sync ----

  /** With every tree page flushed, the file holds the new snapshot. */
  lemma SyncHolds(s: State)
    requires Inv(s) && Enabled(s, WSync)
    ensures Holds(s.disk, NewSnap(s.w.value).image) && Holds(s.durable + s.disk, NewSnap(s.w.value).image)
  {
    var w := s.w.value;
    var q := NewSnap(w);
    assert Holds(s.disk, w.base.image);
    assert BooksInv(w, s.mti, s.metas[SlotOf(s.mti)].snap, s.disk);
    hide Inv, SnapOk;
    forall p | p in q.image ensures p in s.disk && s.disk[p] == q.image[p] {
      assert p in w.Tree() && p !in w.unflushed;
    }
  }

  /** What the file holds is durable after a sync. */
  lemma SyncDb(s: State)
    requires MetaInv(s) && !s.fatal && !(s.w.Some? && s.w.value.phase.MetaWritten?)
    ensures DbOk(s.metas, s.durable + s.disk)
  {
    hide SnapOk, Safe;
    var d := s.durable + s.disk;
    assert DbOk(s.metas, s.disk);
    forall i | 0 <= i < 2 && s.metas[i].Genuine() ensures Holds(d, s.metas[i].snap.image) {
      assert Holds(s.disk, s.metas[i].snap.image);
    }
  }

  lemma SyncStep(s: State)
    requires Inv(s) && Enabled(s, WSync)
    ensures Inv(Next(s, WSync))
  {
    var s' := Next(s, WSync);
    SyncHolds(s);
    SyncDb(s);
    var w := s.w.value;
    assert NewSnap(s'.w.value) == NewSnap(w);
    ReadersSame(s, s');
    hide DbOk, Holds, Safe, Protected, SnapOk, ReaderInv;
    assert MetaInv(s') && ScanInv(s') && WriterInv(s');
  }

  // ---- the meta page ----

  /** The metas right after the new one is written. */
  lemma NewDb(ms: seq<Meta>, mti: int, n: Snap, pg: map<int, Content>)
    requires DbOk(ms, pg) && 0 <= mti && Pick(ms).txnid == mti && ms[SlotOf(mti)].txnid == mti
    requires ms[SlotOf(mti)].Genuine()
    requires SnapOk(n) && n.txnid == mti + 1 && Holds(pg, n.image) && Safe(ms[SlotOf(mti)].snap, n.recs, n.next)
    ensures DbOk(ms[SlotOf(mti + 1) := Meta(mti + 1, n)], pg)
  {
    NewSafe(n);
    hide SnapOk, Holds, Safe;
  }

  lemma MetaSafe(s: State)
    requires Inv(s) && Enabled(s, WMeta)
    ensures |s.metas| == 2 && SnapOk(NewSnap(s.w.value)) && s.w.value.txnid == s.mti + 1
    ensures Safe(s.metas[SlotOf(s.mti)].snap, s.w.value.recs, s.w.value.next)
    ensures Holds(s.disk, NewSnap(s.w.value).image) && Holds(s.durable, NewSnap(s.w.value).image)
  {
    var w := s.w.value;
    var b := s.metas[SlotOf(s.mti)];
    assert Protected(s.metas, s.slots, b.snap);
    assert Apart(w, b.snap);
    assert BooksInv(w, s.mti, b.snap, s.disk);
  }

  lemma NewSafe(n: Snap)
    requires SnapOk(n)
    ensures Safe(n, n.recs, n.next)
  {
  }

  lemma MetaStep(s: State)
    requires Inv(s) && Enabled(s, WMeta)
    ensures Inv(Next(s, WMeta))
  {
    var s' := Next(s, WMeta);
    MetaMetas(s);
    forall j | 0 <= j < |s'.slots| ensures SlotInv(s', s'.slots[j]) {
      MetaSlot(s, j);
    }
    MetaWriter(s);
    hide MetaInv, WriterInv, SlotInv;
  }

  lemma MetaMetas(s: State)
    requires Inv(s) && Enabled(s, WMeta)
    ensures MetaInv(Next(s, WMeta))
  {
    MetaSafe(s);
    hide WriterInv, ReaderInv, SnapOk, Holds, Safe, Protected, DbOk, NewSnap;
    NewMetas(s, NewSnap(s.w.value), Next(s, WMeta));
  }

  lemma NewMetas(s: State, n: Snap, s': State)
    requires MetaInv(s) && !MetaOut(s) && !s.fatal
    requires SnapOk(n) && n.txnid == s.mti + 1 && Holds(s.disk, n.image) && Holds(s.durable, n.image)
    requires Safe(s.metas[SlotOf(s.mti)].snap, n.recs, n.next)
    requires MetaOut(s') && s'.w.value.phase.MetaWritten?
    requires s' == s.(metas := s.metas[SlotOf(s.mti + 1) := Meta(s.mti + 1, n)], w := s'.w)
    ensures MetaInv(s')
  {
    NewDb(s.metas, s.mti, n, s.disk);
    NewDb(s.metas, s.mti, n, s.durable);
    hide SnapOk, Holds, Safe, DbOk;
  }

  lemma MetaWriter(s: State)
    requires Inv(s) && Enabled(s, WMeta)
    ensures |s.metas| == |s.dmetas| == 2 && WriterInv(Next(s, WMeta))
  {
    assert NewSnap(Next(s, WMeta).w.value) == NewSnap(s.w.value);
    hide DbOk, Safe, Apart, Protected, Holds, SnapOk, ReaderInv;
  }

  lemma MetaSlot(s: State, j: int)
    requires Inv(s) && Enabled(s, WMeta) && 0 <= j < |s.slots|
    ensures |s.metas| == |s.dmetas| == 2 && SlotInv(Next(s, WMeta), s.slots[j])
  {
    var r := s.slots[j];
    assert SlotInv(s, r);
    if r.pc.Live? {
      assert Protected(s.metas, s.slots, r.pc.snap);
      assert Apart(s.w.value, r.pc.snap);
    }
    hide Holds, Safe, SnapOk, Protected;
  }

  lemma MetaDurableStep(s: State)
    requires Inv(s) && Enabled(s, WMetaDurable)
    ensures Inv(Next(s, WMetaDurable))
  {
    var s' := Next(s, WMetaDurable);
    assert NewSnap(s'.w.value) == NewSnap(s.w.value);
    ReadersSame(s, s');
    hide Holds, Safe, Protected, SnapOk, Apart, DbOk, ReaderInv;
    assert MetaInv(s') && ScanInv(s') && WriterInv(s');
  }

  lemma PublishStep(s: State)
    requires Inv(s) && Enabled(s, WPublish)
    ensures Inv(Next(s, WPublish))
  {
    var s' := Next(s, WPublish);
    assert SnapOk(NewSnap(s.w.value));
    hide Holds, Safe, Protected, SnapOk, Apart, DbOk, NewSnap;
    assert MetaInv(s') && ScanInv(s') && WriterInv(s');
    forall j | 0 <= j < |s'.slots| ensures SlotInv(s', s'.slots[j]) {
      assert SlotInv(s, s.slots[j]);
    }
  }

  /** A failed meta write: the put-back meta is not genuine, and the old one is picked. */
  lemma PutBack(ms: seq<Meta>, mti: int, junk: Meta, pg: map<int, Content>)
    requires DbOk(ms, pg) && 0 <= mti && !junk.Genuine() && (junk.txnid < mti || mti == 0 == junk.txnid)
    requires var b := SlotOf(mti); ms[b].txnid == mti && ms[b].Genuine() && SnapOk(ms[b].snap)
    ensures DbOk(ms[1 - SlotOf(mti) := junk], pg)
    ensures Pick(ms[1 - SlotOf(mti) := junk]) == ms[SlotOf(mti)]
  {
    NewSafe(ms[SlotOf(mti)].snap);
    hide Holds, Safe, SnapOk;
  }

  lemma FailDb(s: State, pg: map<int, Content>)
    requires Inv(s) && Enabled(s, WMetaFail(true)) && DbOk(s.metas, pg)
    ensures |s.metas| == |s.dmetas| == 2 && DbOk(Next(s, WMetaFail(true)).metas, pg)
    ensures Pick(Next(s, WMetaFail(true)).metas) == s.metas[SlotOf(s.mti)]
  {
    hide Holds, Safe, SnapOk, DbOk, Cover;
    var w := s.w.value;
    PutBack(s.metas, s.mti, Meta(w.phase.prior.txnid, NewSnap(w).(next := w.phase.prior.snap.next)), pg);
  }

  lemma MetaFailStep(s: State)
    requires Inv(s) && Enabled(s, WMetaFail(true))
    ensures Inv(Next(s, WMetaFail(true)))
  {
    var s' := Next(s, WMetaFail(true));
    FailDb(s, s.disk);
    FailDb(s, s.durable);
    forall j | 0 <= j < |s'.slots| ensures SlotInv(s', s'.slots[j]) {
      assert SlotInv(s, s.slots[j]);
    }
    assert Holds(s'.disk, s'.metas[1 - SlotOf(s.mti)].snap.image);
    hide Holds, Safe, Protected, SnapOk, Apart;
    assert MetaInv(s') && ScanInv(s') && WriterInv(s');
  }

  /** The old data could not be put back either: the new meta page stays, unpublished. */
  lemma MetaStaysStep(s: State)
    requires Inv(s) && Enabled(s, WMetaFail(false))
    ensures Inv(Next(s, WMetaFail(false)))
  {
    var s' := Next(s, WMetaFail(false));
    forall j | 0 <= j < |s'.slots| ensures SlotInv(s', s'.slots[j]) {
      assert SlotInv(s, s.slots[j]);
    }
    assert Holds(s'.disk, s'.metas[1 - SlotOf(s.mti)].snap.image);
    hide Holds, Safe, Protected, SnapOk, Apart;
    assert MetaInv(s') && ScanInv(s') && WriterInv(s');
  }

  // ---- the kernel, and crashes ----

  lemma WritebackDb(ms: seq<Meta>, disk: map<int, Content>, durable: map<int, Content>, p: int)
    requires DbOk(ms, durable) && p in disk
    requires forall i :: 0 <= i < |ms| && ms[i].Genuine() ==> Holds(disk, ms[i].snap.image)
    ensures DbOk(ms, durable[p := disk[p]])
  {
    hide SnapOk, Safe;
    forall i | 0 <= i < 2 && ms[i].Genuine() ensures Holds(durable[p := disk[p]], ms[i].snap.image) {
    }
  }

  lemma WritebackStep(s: State, p: int)
    requires Inv(s) && Enabled(s, Writeback(p))
    ensures Inv(Next(s, Writeback(p)))
  {
    var s' := Next(s, Writeback(p));
    WritebackDb(s.metas, s.disk, s.durable, p);
    WritebackDb(s.dmetas, s.disk, s.durable, p);
    ReadersSame(s, s');
    assert WriterInv(s');
    hide SnapOk, Safe, DbOk, Protected, ReaderInv, WriterInv, Holds;
    assert MetaInv(s') && ScanInv(s');
  }

  /** What the writer and the readers rely on is not the metas on stable storage. */
  lemma OnlyDurable(s: State, ds: seq<Meta>)
    requires |s.metas| == 2 && ReaderInv(s) && ScanInv(s) && WriterInv(s)
    ensures var s' := s.(dmetas := ds); ReaderInv(s') && ScanInv(s') && WriterInv(s')
  {
    ReadersSame(s, s.(dmetas := ds));
    hide ReaderInv, Holds, Protected, Apart, BooksInv;
  }

  lemma NewDurable(s: State)
    requires MetaInv(s)
    ensures MetaInv(s.(dmetas := s.metas))
  {
    hide SnapOk, Safe, DbOk, Holds;
  }

  lemma MetaWritebackStep(s: State, i: int)
    requires Inv(s) && Enabled(s, MetaWriteback(i))
    ensures Inv(Next(s, MetaWriteback(i)))
  {
    var s' := Next(s, MetaWriteback(i));
    assert s'.dmetas == (if i == SlotOf(s.mti) then s.dmetas else s.metas) by {
      hide WriterInv, ReaderInv, DbOk, Holds, SnapOk;
    }
    OnlyDurable(s, s'.dmetas);
    NewDurable(s);
    hide MetaInv, WriterInv, ReaderInv, ScanInv;
    assert s' == s.(dmetas := s'.dmetas);
    assert s.dmetas == s'.dmetas ==> s' == s;
  }

  /** After a crash the metas on stable storage are those of a database that can be opened. */
  lemma Reopened(ms: seq<Meta>, pg: map<int, Content>)
    requires DbOk(ms, pg)
    ensures |ms| == 2 && Inv(State([], Pick(ms).txnid, ms, ms, pg, pg, None, NoScan, 0, false))
  {
    var s := State([], Pick(ms).txnid, ms, ms, pg, pg, None, NoScan, 0, false);
    assert 0 <= Pick(ms).txnid by { hide Safe, Holds; }
    hide Safe, Holds, SnapOk;
    assert ScanInv(s) && WriterInv(s) && ReaderInv(s);
    assert MetaInv(s);
  }

  lemma CrashStep(s: State)
    requires Inv(s)
    ensures Inv(Next(s, Crash))
  {
    assert |s.metas| == |s.dmetas| == 2 && DbOk(s.dmetas, s.durable);
    hide Inv, DbOk;
    Reopened(s.dmetas, s.durable);
  }

  // ---- runs ----

  /** Every step keeps the invariant. */
  lemma InvNext(s: State, l: Label)
    requires Inv(s) && Enabled(s, l)
    ensures Inv(Next(s, l))
  {
    hide Inv, Enabled, Next;
    match l
    case RAppend => AppendStep(s);
    case RClaim(_) => ReaderStep(s, l);
    case RPid(_) => ReaderStep(s, l);
    case RLoad(_) => ReaderStep(s, l);
    case RStore(_) => ReaderStep(s, l);
    case RCheck(_) => ReaderStep(s, l);
    case RCopy(i) => CopyStep(s, i);
    case REnd(_, _) => ReaderStep(s, l);
    case WBegin => BeginStep(s);
    case WScanStart => ScanStep(s, l);
    case WScanPid => ScanStep(s, l);
    case WScanTxn => ScanStep(s, l);
    case WScanDone => ScanStep(s, l);
    case WWork(op) => WorkStep(s, op);
    case WFlush(p) => FlushStep(s, p);
    case WSave(low) => SaveStep(s, low);
    case WSync => SyncStep(s);
    case WMeta => MetaStep(s);
    case WMetaFail(back) => if back { MetaFailStep(s); } else { MetaStaysStep(s); }
    case WMetaDurable => MetaDurableStep(s);
    case WPublish => PublishStep(s);
    case WAbort => AbortStep(s);
    case Writeback(p) => WritebackStep(s, p);
    case MetaWriteback(i) => MetaWritebackStep(s, i);
    case Crash => CrashStep(s);
  }
}
