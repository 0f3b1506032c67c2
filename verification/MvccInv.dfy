/** The invariant of the protocol. */
module MvccInv {
  import opened MvccState

  /** Page p is listed in a record with a key above lo. */
  ghost predicate ListedAbove(recs: map<int, set<int>>, lo: int, p: int) {
    exists k :: k in recs && lo < k && p in recs[k]
  }

  /** Every page from 2 up to next is, exactly once, in u or in one record above lo. */
  ghost predicate Cover(u: set<int>, recs: map<int, set<int>>, lo: int, next: int) {
    && (forall p :: p in u || ListedAbove(recs, lo, p) <==> NUM_METAS <= p < next)
    && (forall k :: k in recs && lo < k ==> recs[k] !! u)
    && (forall k1, k2 :: k1 in recs && k2 in recs && lo < k1 < k2 ==> recs[k1] !! recs[k2])
  }

  /** The pages of `image` are on `pg` with these contents. */
  ghost predicate Holds(pg: map<int, Content>, image: map<int, Content>) {
    forall p :: p in image ==> p in pg && pg[p] == image[p]
  }

  /** A snapshot that accounts for every page. */
  ghost predicate SnapOk(q: Snap) {
    && q.image.Keys == q.data + q.fdb && q.data !! q.fdb
    && 0 <= q.txnid && NUM_METAS <= q.next
    && (forall k :: k in q.recs ==> 1 <= k <= q.txnid)
    && Cover(q.data + q.fdb, q.recs, 0, q.next)
  }

  /** Taking records up to q's own transaction for reuse leaves q's pages alone. */
  ghost predicate Safe(q: Snap, recs: map<int, set<int>>, next: int) {
    && q.image.Keys == q.Pages()
    && (forall p :: p in q.image ==> p < next)
    && (forall k :: k in recs && k <= q.txnid ==> recs[k] !! q.image.Keys)
  }

  /** Two metas over a page store from which the database can be opened. */
  ghost predicate DbOk(ms: seq<Meta>, pg: map<int, Content>) {
    && |ms| == 2
    && var c := Pick(ms);
    && c.Genuine() && SnapOk(c.snap) && Holds(pg, c.snap.image) && ms[SlotOf(c.txnid)] == c
    && (ms[1 - SlotOf(c.txnid)].txnid < c.txnid || c.txnid == 0 == ms[1].txnid)
    && (forall i :: 0 <= i < 2 && ms[i].Genuine() ==>
          Holds(pg, ms[i].snap.image) && Safe(ms[i].snap, c.snap.recs, c.snap.next) && c.txnid - 1 <= ms[i].txnid)
  }

  /** Snapshots somebody may read: the genuine metas and those of live readers. */
  ghost predicate Protected(metas: seq<Meta>, slots: seq<Slot>, q: Snap) {
    || (exists i :: 0 <= i < |metas| && metas[i].Genuine() && metas[i].snap == q)
    || (exists i :: 0 <= i < |slots| && slots[i].pc.Live? && slots[i].pc.snap == q)
  }

  predicate MetaOut(s: State) { s.w.Some? && (s.w.value.phase.MetaWritten? || s.w.value.phase.MetaDurable?) }

  ghost predicate MetaInv(s: State) {
    && |s.metas| == |s.dmetas| == 2 && 0 <= s.mti
    && DbOk(s.metas, s.disk) && DbOk(s.metas, s.durable) && DbOk(s.dmetas, s.disk) && DbOk(s.dmetas, s.durable)
    && var b := SlotOf(s.mti);
    && s.metas[b].txnid == s.mti && s.metas[b].Genuine() && s.dmetas[b] == s.metas[b] && SnapOk(s.metas[b].snap)
    && s.mti <= Pick(s.metas).txnid <= s.mti + 1
    && (!s.fatal ==> Pick(s.metas).txnid == if MetaOut(s) then s.mti + 1 else s.mti)
    && (s.dmetas == s.metas || s.fatal || (s.w.Some? && s.w.value.phase.MetaWritten?))
    && (s.fatal ==> s.w.None? && Holds(s.disk, s.metas[1 - b].snap.image))
    && (Pick(s.dmetas).txnid <= s.mti + 1)
    && (Pick(s.dmetas).txnid == s.mti + 1 ==>
          || (MetaOut(s) && Pick(s.dmetas) == s.metas[1 - b])
          || (s.fatal && Pick(s.dmetas).snap.(next := s.metas[1 - b].snap.next) == s.metas[1 - b].snap))
  }

  ghost predicate SlotInv(s: State, r: Slot)
    requires |s.metas| == 2
  {
    match r.pc
    case Loaded(_) => r.pid
    case Stored => r.pid
    case Confirmed(t) => r.pid && r.txn == t && s.pgoldest <= t <= s.mti && (s.fatal || s.metas[SlotOf(t)].Genuine())
    case Live(t, q) =>
      && r.pid && r.txn == t && s.pgoldest <= t <= s.mti && Holds(s.disk, q.image)
      && (!s.fatal ==> t <= q.txnid <= Pick(s.metas).txnid && Safe(q, Pick(s.metas).snap.recs, Pick(s.metas).snap.next))
    case _ => true
  }

  ghost predicate ReaderInv(s: State)
    requires |s.metas| == 2
  {
    forall i :: 0 <= i < |s.slots| ==> SlotInv(s, s.slots[i])
  }

  predicate Pinned(r: Slot) { r.pc.Confirmed? || r.pc.Live? }

  /** What the scan has seen so far bounds every pinned reader it has passed. */
  ghost predicate ScanInv(s: State) {
    && s.pgoldest <= s.mti
    && (s.scan.NoScan? || (s.w.Some? && s.w.value.phase.Working? && 0 <= s.scan.i && s.scan.acc <= s.mti))
    && (s.scan.ScanAt? ==> forall j :: s.scan.i <= j < |s.slots| && Pinned(s.slots[j]) ==> s.scan.acc <= s.slots[j].txn)
    && (s.scan.ScanRead? ==> forall j :: s.scan.i < j < |s.slots| && Pinned(s.slots[j]) ==>
      s.scan.acc <= s.slots[j].txn)
    && (s.scan.ScanRead? ==> s.scan.i < |s.slots|)
  }

  ghost predicate Disjoint(w: Writer) {
    && w.data !! w.fdb && w.data !! w.head && w.data !! w.freed && w.data !! w.loose
    && w.fdb !! w.head && w.fdb !! w.freed && w.fdb !! w.loose
    && w.head !! w.freed && w.head !! w.loose && w.freed !! w.loose
  }

  /** Every page is in a tree of the writer, on one of its lists, or in an unread record. */
  ghost predicate OwnCover(w: Writer) {
    && Disjoint(w)
    && Cover(w.Own(), w.base.recs, w.pglast, w.next)
  }

  /** The writer's own bookkeeping. */
  ghost predicate BooksInv(w: Writer, mti: int, base: Snap, disk: map<int, Content>) {
    && w.txnid == mti + 1 && w.base == base && base.txnid == mti
    && w.loose <= w.mem.Keys && w.unflushed <= w.mem.Keys
    && w.Tree() <= w.mem.Keys + base.image.Keys
    && base.next <= w.next
    && (forall p :: p in w.mem && p !in w.unflushed ==> p in disk && disk[p] == w.mem[p])
    && match w.phase
       case Working =>
         && w.recs == base.recs
         && OwnCover(w)
         && (if w.hasHead then 0 < w.pglast <= mti else w.pglast == 0 && w.head == {})
       case _ =>
         && SnapOk(NewSnap(w))
  }

  /** A protected snapshot and the pages the writer may write. */
  ghost predicate Apart(w: Writer, q: Snap) {
    && w.mem.Keys !! q.image.Keys && w.head !! q.image.Keys
    && (!w.phase.Working? ==> Safe(q, w.recs, w.next))
  }

  ghost predicate WriterInv(s: State)
    requires |s.metas| == 2
  {
    s.w.Some? ==>
      var w := s.w.value;
      && BooksInv(w, s.mti, s.metas[SlotOf(s.mti)].snap, s.disk)
      && (!MetaOut(s) ==> forall q :: Protected(s.metas, s.slots, q) ==> Apart(w, q))
      && (w.phase.Synced? || MetaOut(s) ==> Holds(s.disk, NewSnap(w).image) && Holds(s.durable, NewSnap(w).image))
      && (MetaOut(s) ==> s.metas[SlotOf(w.txnid)] == Meta(w.txnid, NewSnap(w)))
      && (w.phase.MetaWritten? ==> w.phase.prior.txnid < s.mti || s.mti == 0 == w.phase.prior.txnid)
  }

  ghost predicate Inv(s: State) {
    MetaInv(s) && ReaderInv(s) && ScanInv(s) && WriterInv(s)
  }
}
