/** Every step of the protocol keeps the invariant. */
module MvccSteps {
  import opened MvccState
  import opened MvccInv

  // ---- what a step leaves alone ----

  lemma MetaSame(s: State, s': State)
    requires MetaInv(s) && s'.metas == s.metas && s'.dmetas == s.dmetas && s'.mti == s.mti && s'.fatal == s.fatal
    requires s'.disk == s.disk && s'.durable == s.durable && (s'.fatal ==> s'.w.None?)
    requires MetaOut(s) == MetaOut(s')
    requires (s.w.Some? && s.w.value.phase.MetaWritten?) ==> (s'.w.Some? && s'.w.value.phase.MetaWritten?)
    ensures MetaInv(s')
  {
    hide DbOk, Holds, SnapOk;
  }

  lemma ReadersSame(s: State, s': State)
    requires |s.metas| == 2 && ReaderInv(s) && s'.slots == s.slots && s'.metas == s.metas && s'.disk == s.disk
    requires s'.fatal == s.fatal && s'.mti == s.mti && s'.pgoldest == s.pgoldest
    ensures ReaderInv(s')
  {
    hide Holds, Safe;
    forall j | 0 <= j < |s'.slots| ensures SlotInv(s', s'.slots[j]) {
      assert SlotInv(s, s.slots[j]);
    }
  }

  // ---- readers ----

  /** A step that only rewrites one reader slot. */
  lemma SlotStep(s: State, i: int, r: Slot)
    requires Inv(s) && IsSlot(s, i) && SlotInv(s, r)
    requires Pinned(r) ==> r.txn == s.mti || (Pinned(s.slots[i]) && r.txn == s.slots[i].txn)
    requires r.pc.Live? ==> s.fatal || Protected(s.metas, s.slots, r.pc.snap)
    ensures Inv(SetSlot(s, i, r))
  {
    var s' := SetSlot(s, i, r);
    MetaSame(s, s');
    hide MetaInv;
    forall q | Protected(s'.metas, s'.slots, q) && s.w.Some? ensures Protected(s.metas, s.slots, q) {
      ProtectedBySlot(s, i, r, q);
    }
    assert WriterInv(s');
    forall j | 0 <= j < |s'.slots| ensures SlotInv(s', s'.slots[j]) {
      assert SlotInv(s, if j == i then r else s.slots[j]);
    }
  }

  lemma ProtectedBySlot(s: State, i: int, r: Slot, q: Snap)
    requires IsSlot(s, i) && Protected(s.metas, s.slots[i := r], q)
    requires r.pc.Live? ==> Protected(s.metas, s.slots, r.pc.snap)
    ensures Protected(s.metas, s.slots, q)
  {
    var t := s.slots[i := r];
    if j :| 0 <= j < |t| && t[j].pc.Live? && t[j].pc.snap == q {
      if j != i { assert s.slots[j].pc.Live? && s.slots[j].pc.snap == q; }
    }
  }

  lemma AppendStep(s: State)
    requires Inv(s)
    ensures Inv(Next(s, RAppend))
  {
    var s' := Next(s, RAppend);
    MetaSame(s, s');
    hide MetaInv, Holds, Safe;
    forall q | Protected(s'.metas, s'.slots, q) ensures Protected(s.metas, s.slots, q) {
      if j :| 0 <= j < |s'.slots| && s'.slots[j].pc.Live? && s'.slots[j].pc.snap == q {
        assert s.slots[j].pc.Live? && s.slots[j].pc.snap == q;
      }
    }
    assert WriterInv(s');
    forall j | 0 <= j < |s'.slots| ensures SlotInv(s', s'.slots[j]) {
      if j < |s.slots| { assert SlotInv(s, s.slots[j]); }
    }
  }

  /** The meta a confirmed reader copies is a readable snapshot, at least as new as the
      transaction it published, also when commits slipped in between. */
  lemma CopyStep(s: State, i: int)
    requires Inv(s) && Enabled(s, RCopy(i))
    ensures Inv(Next(s, RCopy(i)))
  {
    CopyHolds(s, i);
    var r := s.slots[i];
    var t := r.pc.t;
    assert SlotInv(s, r);
    hide MetaInv, ReaderInv, WriterInv, ScanInv, Holds, Safe, Protected;
    SlotStep(s, i, r.(pc := Live(t, s.metas[SlotOf(t)].snap)));
  }

  lemma CopyHolds(s: State, i: int)
    requires Inv(s) && Enabled(s, RCopy(i))
    ensures |s.metas| == 2
    ensures var r, t := s.slots[i], s.slots[i].pc.t;
            var q := s.metas[SlotOf(t)].snap;
            SlotInv(s, r.(pc := Live(t, q))) && (!s.fatal ==> Protected(s.metas, s.slots, q))
  {
    hide WriterInv, ScanInv, SnapOk, Cover;
    var r := s.slots[i];
    var t := r.pc.t;
    var b := SlotOf(t);
    assert SlotInv(s, r);
    assert b == SlotOf(s.mti) || b == 1 - SlotOf(s.mti);
    if !s.fatal {
      assert t <= s.metas[b].txnid by {
        if b != SlotOf(s.mti) { assert t <= s.mti - 1; }
      }
      assert s.metas[b].txnid <= Pick(s.metas).txnid;
    }
  }

  // ---- the scan ----

  lemma ScanStep(s: State, l: Label)
    requires Inv(s) && Enabled(s, l) && (l.WScanStart? || l.WScanPid? || l.WScanTxn? || l.WScanDone?)
    ensures Inv(Next(s, l))
  {
    hide DbOk, Safe, Holds, BooksInv, Apart, Protected;
    var s' := Next(s, l);
    assert MetaInv(s') && WriterInv(s');
    assert ScanInv(s') by {
      if l.WScanPid? && s'.scan.ScanAt? {
        var j := s'.scan.i;
        if j < |s.slots| { assert SlotInv(s, s.slots[j]); }
      }
    }
    forall j | 0 <= j < |s'.slots| ensures SlotInv(s', s'.slots[j]) {
      assert SlotInv(s, s.slots[j]);
    }
  }

  // ---- the writer at work ----

  /** What the steps of a working writer need to know about its state. */
  lemma BusyFacts(s: State)
    requires Inv(s) && Busy(s)
    ensures |s.metas| == |s.dmetas| == 2
    ensures BooksInv(s.w.value, s.mti, s.metas[SlotOf(s.mti)].snap, s.disk)
    ensures SnapOk(s.w.value.base) && s.metas[SlotOf(s.mti)] == Pick(s.metas) && !s.fatal
  {
  }

  /** The transaction number of a protected snapshot is at least pgoldest, or its record
      numbers that may be taken stay below it. */
  lemma ProtectedNew(s: State, q: Snap)
    requires Inv(s) && Busy(s) && Protected(s.metas, s.slots, q)
    ensures s.pgoldest <= q.txnid + 1 && Safe(q, s.w.value.base.recs, s.w.value.base.next)
  {
    hide SnapOk, Safe, Holds;
    var c := Pick(s.metas);
    assert c == s.metas[SlotOf(s.mti)];
    if i :| 0 <= i < |s.metas| && s.metas[i].Genuine() && s.metas[i].snap == q {
      assert c.txnid - 1 <= s.metas[i].txnid;
    } else {
      var i :| 0 <= i < |s.slots| && s.slots[i].pc.Live? && s.slots[i].pc.snap == q;
      assert SlotInv(s, s.slots[i]);
    }
  }

  /** Records already in the head list plus the next one: the cover only moves its border. */
  lemma CoverFetch(u: set<int>, recs: map<int, set<int>>, lo: int, k: int, next: int)
    requires Cover(u, recs, lo, next) && k in recs && lo < k
    requires forall k' :: k' in recs && lo < k' ==> k <= k'
    ensures Cover(u + recs[k], recs, k, next) && u !! recs[k]
  {
    forall p ensures p in u + recs[k] || ListedAbove(recs, k, p) <==> p in u || ListedAbove(recs, lo, p) {
      if ListedAbove(recs, lo, p) {
        var k' :| k' in recs && lo < k' && p in recs[k'];
        if k' != k { assert k < k' && p in recs[k']; }
      }
      if p in recs[k] { assert ListedAbove(recs, lo, p); }
      if ListedAbove(recs, k, p) {
        var k' :| k' in recs && k < k' && p in recs[k'];
        assert lo < k';
      }
    }
  }

  lemma CoverGrow(u: set<int>, recs: map<int, set<int>>, lo: int, next: int, ps: set<int>, n: nat)
    requires Cover(u, recs, lo, next) && Consecutive(ps, next, n) && NUM_METAS <= next
    ensures Cover(u + ps, recs, lo, next + n) && u !! ps
  {
    forall p ensures p in u + ps || ListedAbove(recs, lo, p) <==> NUM_METAS <= p < next + n {
      assert p in u || ListedAbove(recs, lo, p) <==> NUM_METAS <= p < next;
      assert p in ps <==> next <= p < next + n;
    }
    forall k | k in recs && lo < k ensures recs[k] !! u + ps {
      forall p | p in recs[k] ensures p !in ps { assert ListedAbove(recs, lo, p); }
    }
    forall p | p in ps ensures p !in u { assert next <= p; }
  }

  lemma FetchCover(w: Writer, k: int, oldest: int)
    requires CanWork(w, Fetch(k), oldest) && OwnCover(w)
    ensures OwnCover(Work(w, Fetch(k)))
  {
    CoverFetch(w.Own(), w.base.recs, w.pglast, k, w.next);
    assert Work(w, Fetch(k)).Own() == w.Own() + w.base.recs[k];
    hide Cover;
  }

  lemma GrowCover(w: Writer, cs: map<int, Content>, toFdb: bool)
    requires Consecutive(cs.Keys, w.next, |cs|) && OwnCover(w) && NUM_METAS <= w.next
    ensures OwnCover(Work(w, TakeNew(cs, toFdb)))
  {
    hide Disjoint, Writer.Own, Work, Cover, Consecutive;
    CoverGrow(w.Own(), w.base.recs, w.pglast, w.next, cs.Keys, |cs|);
    GrowDisjoint(w, cs, toFdb);
    GrowOwn(w, cs, toFdb);
  }

  lemma GrowDisjoint(w: Writer, cs: map<int, Content>, toFdb: bool)
    requires Disjoint(w) && w.Own() !! cs.Keys
    ensures Disjoint(Work(w, TakeNew(cs, toFdb)))
  {
    var ps := cs.Keys;
    NotInUnion(w, ps);
    if toFdb {
      DisjointUnion(w.fdb, ps, w.data, w.head, w.freed, w.loose);
    } else {
      DisjointUnion(w.data, ps, w.fdb, w.head, w.freed, w.loose);
    }
  }

  lemma NotInUnion(w: Writer, ps: set<int>)
    requires w.Own() !! ps
    ensures ps !! w.data && ps !! w.fdb && ps !! w.head && ps !! w.freed && ps !! w.loose
  {
  }

  lemma DisjointUnion(x: set<int>, ps: set<int>, a: set<int>, b: set<int>, c: set<int>, d: set<int>)
    requires x !! a && x !! b && x !! c && x !! d
    requires ps !! a && ps !! b && ps !! c && ps !! d
    ensures x + ps !! a && x + ps !! b && x + ps !! c && x + ps !! d
    ensures a !! x + ps && b !! x + ps && c !! x + ps && d !! x + ps
  {
  }

  lemma GrowOwn(w: Writer, cs: map<int, Content>, toFdb: bool)
    ensures var w' := Work(w, TakeNew(cs, toFdb));
            w'.Own() == w.Own() + cs.Keys && w'.base == w.base && w'.pglast == w.pglast && w'.next == w.next + |cs|
  {
    UnionGrow(w.data, w.fdb, w.head, w.freed, w.loose, cs.Keys);
  }

  lemma UnionGrow(a: set<int>, b: set<int>, c: set<int>, d: set<int>, e: set<int>, ps: set<int>)
    ensures a + (b + ps) + c + d + e == a + b + c + d + e + ps == (a + ps) + b + c + d + e
  {
  }

  lemma MoveCover(w: Writer, op: Op, oldest: int)
    requires CanWork(w, op, oldest) && OwnCover(w) && !op.Fetch? && !op.TakeNew?
    ensures OwnCover(Work(w, op))
  {
    hide Cover, Consecutive;
    var w' := Work(w, op);
    assert w'.Own() == w.Own();
  }

  /** No work of the writer loses a page or lists one twice. */
  lemma WorkCover(w: Writer, op: Op, oldest: int)
    requires CanWork(w, op, oldest) && OwnCover(w) && NUM_METAS <= w.next
    ensures OwnCover(Work(w, op))
  {
    hide OwnCover, Work;
    match op
    case Fetch(k) => FetchCover(w, k, oldest);
    case TakeNew(cs, toFdb) => GrowCover(w, cs, toFdb);
    case _ => MoveCover(w, op, oldest);
  }

  lemma WorkLoose(w: Writer, op: Op, oldest: int)
    requires CanWork(w, op, oldest) && w.loose <= w.mem.Keys && w.unflushed <= w.mem.Keys && w.loose !! w.Tree()
    ensures Work(w, op).loose <= Work(w, op).mem.Keys && Work(w, op).unflushed <= Work(w, op).mem.Keys
  {
  }

  lemma WorkTree(w: Writer, op: Op, oldest: int)
    requires CanWork(w, op, oldest) && w.Tree() <= w.mem.Keys + w.base.image.Keys && w.loose !! w.Tree()
    ensures Work(w, op).Tree() <= Work(w, op).mem.Keys + w.base.image.Keys
  {
    var w' := Work(w, op);
    forall p | p in w'.Tree() ensures p in w'.mem || p in w.base.image {
      assert p in w.Tree() ==> p in w.mem || p in w.base.image;
    }
  }

  lemma WorkBooks(w: Writer, op: Op, oldest: int, mti: int, base: Snap, disk: map<int, Content>)
    requires CanWork(w, op, oldest) && w.phase.Working? && BooksInv(w, mti, base, disk) && oldest <= mti
    requires NUM_METAS <= base.next
    ensures BooksInv(Work(w, op), mti, base, disk)
  {
    WorkCover(w, op, oldest);
    assert w.loose !! w.Tree();
    WorkLoose(w, op, oldest);
    WorkTree(w, op, oldest);
    hide OwnCover, Writer.Tree;
  }

  /** Reused and new pages are never pages of a protected snapshot. */
  lemma WorkApart(w: Writer, op: Op, oldest: int, q: Snap)
    requires CanWork(w, op, oldest) && w.phase.Working? && Apart(w, q)
    requires oldest <= q.txnid + 1 && Safe(q, w.base.recs, w.base.next) && w.base.next <= w.next
    requires w.loose <= w.mem.Keys
    ensures Apart(Work(w, op), q)
  {
    var w' := Work(w, op);
    forall p | p in q.image ensures p !in w'.mem && p !in w'.head {
      assert p !in w.mem && p !in w.head && p < w.next;
      if op.Fetch? { assert w.base.recs[op.k] !! q.image.Keys; }
    }
  }

  lemma WorkWriter(s: State, op: Op)
    requires Inv(s) && Enabled(s, WWork(op))
    ensures WriterInv(Next(s, WWork(op)))
  {
    var w := s.w.value;
    var w' := Work(w, op);
    WorkBooks(w, op, s.pgoldest, s.mti, s.metas[SlotOf(s.mti)].snap, s.disk);
    forall q | Protected(s.metas, s.slots, q) ensures Apart(w', q) {
      ProtectedNew(s, q);
      WorkApart(w, op, s.pgoldest, q);
    }
    hide MetaInv, ReaderInv, ScanInv, Safe, Holds, BooksInv, Apart, CanWork, Protected;
  }

  /** Work of the writer: allocation, changes, frees. */
  lemma WorkStep(s: State, op: Op)
    requires Inv(s) && Enabled(s, WWork(op))
    ensures Inv(Next(s, WWork(op)))
  {
    WorkWriter(s, op);
    WorkPhase(s.w.value, op);
    var s' := Next(s, WWork(op));
    hide MetaInv, ReaderInv, WriterInv, CanWork, Work;
    MetaSame(s, s');
    ReadersSame(s, s');
  }

  lemma WorkPhase(w: Writer, op: Op)
    ensures Work(w, op).phase == w.phase
  {
  }

  /** Writing one of its own pages to the file. */
  lemma FlushStep(s: State, p: int)
    requires Inv(s) && Enabled(s, WFlush(p))
    ensures Inv(Next(s, WFlush(p)))
  {
    FlushMeta(s, p);
    FlushWriter(s, p);
    var s' := Next(s, WFlush(p));
    forall j | 0 <= j < |s'.slots| ensures SlotInv(s', s'.slots[j]) {
      FlushSlot(s, p, j);
    }
    hide MetaInv, WriterInv, SlotInv, Holds;
    assert ScanInv(s');
  }

  /** A page of the writer is not a page of a protected snapshot. */
  lemma FlushHolds(s: State, p: int, q: Snap)
    requires Inv(s) && Enabled(s, WFlush(p)) && Protected(s.metas, s.slots, q) && Holds(s.disk, q.image)
    ensures Holds(Next(s, WFlush(p)).disk, q.image)
  {
    hide MetaInv, ReaderInv, Protected, Safe;
    assert Apart(s.w.value, q);
  }

  lemma FlushSlot(s: State, p: int, j: int)
    requires Inv(s) && Enabled(s, WFlush(p)) && 0 <= j < |s.slots|
    ensures |Next(s, WFlush(p)).metas| == 2 && SlotInv(Next(s, WFlush(p)), s.slots[j])
  {
    assert SlotInv(s, s.slots[j]);
    if s.slots[j].pc.Live? { FlushHolds(s, p, s.slots[j].pc.snap); }
    hide Holds, Safe;
  }

  lemma FlushMeta(s: State, p: int)
    requires Inv(s) && Enabled(s, WFlush(p))
    ensures MetaInv(Next(s, WFlush(p)))
  {
    var s' := Next(s, WFlush(p));
    forall i | 0 <= i < 2 && s.metas[i].Genuine() ensures Holds(s'.disk, s.metas[i].snap.image) {
      FlushHolds(s, p, s.metas[i].snap);
    }
    hide Holds, Safe, SnapOk, WriterInv;
    assert DbOk(s'.metas, s'.disk);
  }

  lemma FlushWriter(s: State, p: int)
    requires Inv(s) && Enabled(s, WFlush(p))
    ensures |Next(s, WFlush(p)).metas| == 2 && WriterInv(Next(s, WFlush(p)))
  {
    var s' := Next(s, WFlush(p));
    var w := s.w.value;
    assert NewSnap(s'.w.value) == NewSnap(w);
    hide MetaInv, ReaderInv, Protected, Safe, SnapOk, Cover, Holds;
  }

  // ---- saving the free list ----

  lemma SavedListed(low: map<int, set<int>>, w: Writer, p: int)
    requires SavesHead(low, w) && 0 <= w.pglast < w.txnid && (forall k :: k in w.base.recs ==> k < w.txnid)
    ensures ListedAbove(SavedRecs(low, w), 0, p) <==>
            ListedAbove(w.base.recs, w.pglast, p) || p in w.head + w.loose || p in w.freed
  {
    var recs := SavedRecs(low, w);
    if ListedAbove(recs, 0, p) {
      var k :| k in recs && 0 < k && p in recs[k];
      if k == w.txnid {
      } else if k in low {
        assert k in low && p in low[k];
      } else {
        assert k in w.base.recs && w.pglast < k && p in w.base.recs[k];
      }
    }
    if ListedAbove(w.base.recs, w.pglast, p) {
      var k :| k in w.base.recs && w.pglast < k && p in w.base.recs[k];
      assert k in recs && 0 < k && p in recs[k];
    }
    if p in w.head + w.loose {
      var k :| k in low && p in low[k];
      assert k in recs && 0 < k && p in recs[k];
    }
    if p in w.freed { assert w.txnid in recs && p in recs[w.txnid]; }
  }

  /** After the save every page is in a tree of the new snapshot or in one of its records. */
  lemma SavedCover(low: map<int, set<int>>, w: Writer)
    requires SavesHead(low, w) && 0 <= w.pglast < w.txnid && (forall k :: k in w.base.recs ==> 1 <= k < w.txnid)
    requires Disjoint(w) && Cover(w.Own(), w.base.recs, w.pglast, w.next)
    ensures Cover(w.data + w.fdb, SavedRecs(low, w), 0, w.next)
    ensures forall k :: k in SavedRecs(low, w) ==> 1 <= k <= w.txnid
  {
    var recs := SavedRecs(low, w);
    forall p ensures p in w.data + w.fdb || ListedAbove(recs, 0, p) <==> NUM_METAS <= p < w.next {
      SavedListed(low, w, p);
    }
    forall k | k in low ensures low[k] <= w.head + w.loose { LowInHead(low, w, k); }
    forall k | k in recs ensures recs[k] !! w.data + w.fdb && 1 <= k <= w.txnid {
    }
    forall k1, k2 | k1 in recs && k2 in recs && 0 < k1 < k2 ensures recs[k1] !! recs[k2] {
    }
  }

  lemma LowInHead(low: map<int, set<int>>, w: Writer, k: int)
    requires SavesHead(low, w) && k in low
    ensures low[k] <= w.head + w.loose
  {
    forall p | p in low[k] ensures p in w.head + w.loose {
      assert k in low && p in low[k];
    }
  }

  /** The writer right after a save. */
  function SavedWriter(w: Writer, low: map<int, set<int>>): Writer {
    w.(recs := SavedRecs(low, w), head := {}, loose := {}, phase := Saved)
  }

  lemma SavedBooks(w: Writer, low: map<int, set<int>>, mti: int, base: Snap, disk: map<int, Content>)
    requires BooksInv(w, mti, base, disk) && w.phase.Working? && SavesHead(low, w) && SnapOk(base) && 0 <= mti
    ensures BooksInv(SavedWriter(w, low), mti, base, disk)
  {
    SavedCover(low, w);
    hide SavedRecs, SavesHead;
    assert SnapOk(NewSnap(SavedWriter(w, low)));
  }

  lemma SaveWriter(s: State, low: map<int, set<int>>)
    requires Inv(s) && Enabled(s, WSave(low))
    ensures |s.metas| == 2 && WriterInv(Next(s, WSave(low)))
  {
    var w := s.w.value;
    BusyFacts(s);
    SavedBooks(w, low, s.mti, s.metas[SlotOf(s.mti)].snap, s.disk);
    forall q | Protected(s.metas, s.slots, q) ensures Apart(SavedWriter(w, low), q) {
      SaveApart(s, low, q);
    }
    hide Inv, SnapOk, DbOk, Safe, Holds, Apart, Protected, NewSnap, SavedRecs, SavesHead, BooksInv;
  }

  lemma SaveStep(s: State, low: map<int, set<int>>)
    requires Inv(s) && Enabled(s, WSave(low))
    ensures Inv(Next(s, WSave(low)))
  {
    SaveWriter(s, low);
    hide MetaInv, ReaderInv, WriterInv, SavesHead;
    var s' := Next(s, WSave(low));
    MetaSame(s, s');
    ReadersSame(s, s');
  }

  /** The records of the new freeDB leave every protected snapshot alone. */
  lemma SaveApart(s: State, low: map<int, set<int>>, q: Snap)
    requires Inv(s) && Enabled(s, WSave(low)) && Protected(s.metas, s.slots, q)
    ensures Apart(SavedWriter(s.w.value, low), q)
  {
    ProtectedNew(s, q);
    ProtectedOld(s, q);
    BusyFacts(s);
    assert Apart(s.w.value, q);
    hide Inv;
    SavedSafe(s.w.value, low, q);
  }

  lemma SavedSafe(w: Writer, low: map<int, set<int>>, q: Snap)
    requires Apart(w, q) && Safe(q, w.base.recs, w.base.next) && w.base.next <= w.next && SavesHead(low, w)
    requires q.txnid < w.txnid && w.loose <= w.mem.Keys
    ensures Apart(SavedWriter(w, low), q)
  {
    var recs := SavedRecs(low, w);
    forall k | k in recs && k <= q.txnid ensures recs[k] !! q.image.Keys {
      if k in low { LowInHead(low, w, k); }
    }
  }

  lemma ProtectedOld(s: State, q: Snap)
    requires Inv(s) && Protected(s.metas, s.slots, q) && !s.fatal
    ensures q.txnid <= Pick(s.metas).txnid
  {
    if i :| 0 <= i < |s.metas| && s.metas[i].Genuine() && s.metas[i].snap == q {
    } else {
      var i :| 0 <= i < |s.slots| && s.slots[i].pc.Live? && s.slots[i].pc.snap == q;
      assert SlotInv(s, s.slots[i]);
    }
  }
}
