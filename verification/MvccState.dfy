/** The page and reader protocol of an LMDB environment, as a step system.

    One process, one writer at a time (the writer mutex), any number of reader slots.
    B-trees are abstract: a snapshot is the set of pages reachable from its two roots with
    their contents, plus the records of its freeDB. Writes go through the page cache
    (`disk`, shared with readers) and reach stable storage (`durable`) when the kernel likes
    or at a sync. A meta page is written atomically. */
module MvccState {

  datatype Content = Content(bytes: seq<bv8>)
  datatype Option<T> = None | Some(value: T)

  const NUM_METAS := 2

  /** What a meta page leads to. `data` and `fdb` are the pages of the main tree and of the
      freeDB tree, `image` their contents, `recs` the freeDB records (txnid -> freed pages),
      `next` the first page number never used. */
  datatype Snap = Snap(txnid: int, data: set<int>, fdb: set<int>, image: map<int, Content>,
                       recs: map<int, set<int>>, next: int) {
    function Pages(): set<int> { data + fdb }
  }

  /** A meta page. After a failed meta write the put-back leaves the new roots under the old
      transaction number; such a page is not genuine. */
  datatype Meta = Meta(txnid: int, snap: Snap) {
    predicate Genuine() { txnid == snap.txnid }
  }

  /** The newer of the two metas (mdb_env_pick_meta). */
  function Pick(ms: seq<Meta>): Meta
    requires |ms| == 2
  {
    if ms[0].txnid < ms[1].txnid then ms[1] else ms[0]
  }

  const NONE := 0xFFFF_FFFF_FFFF_FFFF

  /** Where a reader is in mdb_txn_renew0. */
  datatype ReaderPc =
    | Idle                        // no transaction
    | Claiming                    // slot reset, pid not yet stored
    | Loaded(t: int)              // mti_txnid read
    | Stored                      // and published in the slot
    | Confirmed(t: int)           // publication re-checked, meta not yet copied
    | Live(t: int, snap: Snap)    // meta copied

  /** A slot of the reader table: is a pid set, and the published mr_txnid. */
  datatype Slot = Slot(pid: bool, txn: int, pc: ReaderPc)

  /** mdb_find_oldest reads the slots from the last one down; pid and txnid separately. */
  datatype Scan = NoScan | ScanAt(i: int, acc: int) | ScanRead(i: int, acc: int)

  datatype Phase = Working | Saved | Synced | MetaWritten(prior: Meta) | MetaDurable

  /** The write transaction. `mem` holds the pages it allocated, `unflushed` those changed
      since they were last written; `head`, `freed` and `loose` are me_pghead, mt_free_pgs
      and mt_loose_pgs; `recs` is the freeDB as it will be committed. */
  datatype Writer = Writer(txnid: int, base: Snap, data: set<int>, fdb: set<int>,
                           hasHead: bool, head: set<int>, pglast: int, freed: set<int>, loose: set<int>,
                           mem: map<int, Content>, unflushed: set<int>, next: int,
                           recs: map<int, set<int>>, phase: Phase) {
    function Tree(): set<int> { data + fdb }
    function Own(): set<int> { data + fdb + head + freed + loose }
  }

  /** The snapshot a writer is about to commit. */
  function NewSnap(w: Writer): Snap {
    Snap(w.txnid, w.data, w.fdb,
         map p | p in w.data + w.fdb ::
           (if p in w.mem then w.mem[p] else if p in w.base.image then w.base.image[p] else Content([])),
         w.recs, w.next)
  }

  datatype State = State(slots: seq<Slot>, mti: int, metas: seq<Meta>, dmetas: seq<Meta>,
                         disk: map<int, Content>, durable: map<int, Content>,
                         w: Option<Writer>, scan: Scan, pgoldest: int, fatal: bool)

  // ---- steps ----

  /** What the writer does to its own pages and lists. */
  datatype Op =
    | Fetch(k: int)                                        // read the next freeDB record
    | TakeLoose(p: int, c: Content, toFdb: bool)           // allocate
    | TakeHead(cs: map<int, Content>, toFdb: bool)
    | TakeNew(cs: map<int, Content>, toFdb: bool)
    | Modify(p: int, c: Content)
    | Drop(ps: set<int>)                                   // free
    | Loosen(p: int)
    | GiveBack(ps: set<int>)
    | LooseToFreed

  datatype Label =
    | RAppend                               // readers
    | RClaim(i: int)
    | RPid(i: int)
    | RLoad(i: int)
    | RStore(i: int)
    | RCheck(i: int)
    | RCopy(i: int)
    | REnd(i: int, release: bool)
    | WBegin                                // writer
    | WScanStart
    | WScanPid
    | WScanTxn
    | WScanDone
    | WWork(op: Op)
    | WFlush(p: int)
    | WSave(low: map<int, set<int>>)
    | WSync
    | WMeta
    | WMetaFail(back: bool)                 // was the old data put back?
    | WMetaDurable
    | WPublish
    | WAbort
    | Writeback(p: int)                     // kernel
    | MetaWriteback(i: int)
    | Crash

  predicate IsSlot(s: State, i: int) { 0 <= i < |s.slots| }

  predicate Busy(s: State) { s.w.Some? && s.w.value.phase.Working? && s.scan.NoScan? }

  ghost predicate Consecutive(ps: set<int>, lo: int, n: nat) {
    forall p :: p in ps <==> lo <= p < lo + n
  }

  /** The records WSave writes below pglast: they partition the head list and loose pages. */
  ghost predicate SavesHead(low: map<int, set<int>>, w: Writer) {
    && (forall k :: k in low ==> 1 <= k <= w.pglast)
    && (forall p :: p in w.head + w.loose <==> exists k :: k in low && p in low[k])
    && (forall k1, k2 :: k1 in low && k2 in low && k1 < k2 ==> low[k1] !! low[k2])
  }

  /** The freeDB after the save: unread records stay, consumed ones are replaced by the saved
      head list, and the pages this transaction freed get a record of their own. */
  function SavedRecs(low: map<int, set<int>>, w: Writer): map<int, set<int>> {
    (map k | k in w.base.recs && w.pglast < k :: w.base.recs[k]) + low
    + if w.freed == {} then map[] else map[w.txnid := w.freed]
  }

  /** Newly obtained pages enter a tree of the writer. */
  function Place(w: Writer, cs: map<int, Content>, toFdb: bool): Writer {
    w.(data := if toFdb then w.data else w.data + cs.Keys,
       fdb := if toFdb then w.fdb + cs.Keys else w.fdb,
       mem := w.mem + cs, unflushed := w.unflushed + cs.Keys)
  }

  /** What the writer may do to its own pages and lists; `oldest` is the cached me_pgoldest. */
  ghost predicate CanWork(w: Writer, op: Op, oldest: int) {
    match op
    case Fetch(k) =>
      k in w.base.recs && w.pglast < k < oldest && forall k' :: k' in w.base.recs && w.pglast < k' ==> k <= k'
    case TakeLoose(p, _, _) => p in w.loose
    case TakeHead(cs, _) => cs.Keys <= w.head
    case TakeNew(cs, _) => Consecutive(cs.Keys, w.next, |cs|)
    case Modify(p, _) => p in w.mem && p in w.Tree()
    case Drop(ps) => ps <= w.Tree()
    case Loosen(p) => p in w.mem && p in w.data
    case GiveBack(ps) => w.hasHead && ps <= w.Tree() && ps <= w.mem.Keys
    case LooseToFreed => !w.hasHead
  }

  function Work(w: Writer, op: Op): Writer {
    match op
    case Fetch(k) =>
      if k in w.base.recs then w.(hasHead := true, head := w.head + w.base.recs[k], pglast := k) else w
    case TakeLoose(p, c, toFdb) => Place(w.(loose := w.loose - {p}), map[p := c], toFdb)
    case TakeHead(cs, toFdb) => Place(w.(head := w.head - cs.Keys), cs, toFdb)
    case TakeNew(cs, toFdb) => Place(w.(next := w.next + |cs|), cs, toFdb)
    case Modify(p, c) => w.(mem := w.mem[p := c], unflushed := w.unflushed + {p})
    case Drop(ps) => w.(data := w.data - ps, fdb := w.fdb - ps, freed := w.freed + ps)
    case Loosen(p) => w.(data := w.data - {p}, loose := w.loose + {p})
    case GiveBack(ps) =>
      w.(data := w.data - ps, fdb := w.fdb - ps, head := w.head + ps, mem := w.mem - ps, unflushed := w.unflushed - ps)
    case LooseToFreed =>
      w.(freed := w.freed + w.loose, loose := {}, mem := w.mem - w.loose, unflushed := w.unflushed - w.loose)
  }

  ghost predicate Enabled(s: State, l: Label) {
    match l
    case RAppend => true
    case RClaim(i) => IsSlot(s, i) && s.slots[i].pc.Idle? && !s.slots[i].pid
    case RPid(i) => IsSlot(s, i) && s.slots[i].pc.Claiming?
    case RLoad(i) => IsSlot(s, i) && s.slots[i].pid && s.slots[i].pc.Idle? && s.slots[i].txn == NONE
    case RStore(i) => IsSlot(s, i) && s.slots[i].pc.Loaded?
    case RCheck(i) => IsSlot(s, i) && s.slots[i].pc.Stored?
    case RCopy(i) => IsSlot(s, i) && s.slots[i].pc.Confirmed?
    case REnd(i, _) => IsSlot(s, i) && (s.slots[i].pc.Confirmed? || s.slots[i].pc.Live?)
    case WBegin => s.w.None? && !s.fatal
    case WScanStart => Busy(s)
    case WScanPid => s.scan.ScanAt? && 0 < s.scan.i
    case WScanTxn => s.scan.ScanRead?
    case WScanDone => s.scan.ScanAt? && s.scan.i == 0
    case WFlush(p) => && s.w.Some? && (s.w.value.phase.Working? || s.w.value.phase.Saved?)
                      && p in s.w.value.mem && p in s.w.value.unflushed
    case WSave(low) => Busy(s) && (s.w.value.hasHead || s.w.value.loose == {}) && SavesHead(low, s.w.value)
    case WSync => s.w.Some? && s.w.value.phase.Saved? && s.w.value.unflushed !! s.w.value.Tree()
    case WMeta => s.w.Some? && s.w.value.phase.Synced?
    case WMetaFail(_) => s.w.Some? && s.w.value.phase.MetaWritten?
    case WMetaDurable => s.w.Some? && s.w.value.phase.MetaWritten?
    case WPublish => s.w.Some? && s.w.value.phase.MetaDurable?
    case WAbort => s.w.Some? && !s.w.value.phase.MetaWritten? && !s.w.value.phase.MetaDurable?
    case Writeback(p) => p in s.disk
    case MetaWriteback(i) => 0 <= i < |s.metas| && |s.metas| == |s.dmetas| == 2
    case Crash => true
    case WWork(op) => Busy(s) && CanWork(s.w.value, op, s.pgoldest)
  }

  function SetSlot(s: State, i: int, r: Slot): State
    requires IsSlot(s, i)
  {
    s.(slots := s.slots[i := r])
  }

  function SetWriter(s: State, w: Writer): State { s.(w := Some(w)) }

  function Min(x: int, y: int): int { if x < y then x else y }

  /** The slot a transaction's meta page lives in. */
  function SlotOf(t: int): int { t % NUM_METAS }

  ghost function Next(s: State, l: Label): State
    requires Enabled(s, l) && |s.metas| == |s.dmetas| == 2
  {
    match l
    case RAppend => s.(slots := s.slots + [Slot(false, NONE, Idle)])
    case RClaim(i) => SetSlot(s, i, Slot(false, NONE, Claiming))
    case RPid(i) => SetSlot(s, i, s.slots[i].(pid := true, pc := Idle))
    case RLoad(i) => SetSlot(s, i, s.slots[i].(pc := Loaded(s.mti)))
    case RStore(i) => SetSlot(s, i, s.slots[i].(txn := s.slots[i].pc.t, pc := Stored))
    case RCheck(i) =>
      SetSlot(s, i, s.slots[i].(pc := if s.slots[i].txn == s.mti then Confirmed(s.mti) else Loaded(s.mti)))
    case RCopy(i) =>
      SetSlot(s, i, s.slots[i].(pc := Live(s.slots[i].pc.t, s.metas[SlotOf(s.slots[i].pc.t)].snap)))
    case REnd(i, release) => SetSlot(s, i, Slot(!release, NONE, Idle))
    case WBegin =>
      var b := s.metas[SlotOf(s.mti)].snap;
      SetWriter(s, Writer(s.mti + 1, b, b.data, b.fdb, false, {}, 0, {}, {}, map[], {}, b.next, b.recs, Working))
    case WScanStart => s.(scan := ScanAt(|s.slots|, s.mti))
    case WScanPid =>
      var j := s.scan.i - 1;
      s.(scan := if IsSlot(s, j) && s.slots[j].pid then ScanRead(j, s.scan.acc) else ScanAt(j, s.scan.acc))
    case WScanTxn =>
      var j := s.scan.i;
      s.(scan := ScanAt(j, if IsSlot(s, j) then Min(s.scan.acc, s.slots[j].txn) else s.scan.acc))
    case WScanDone => s.(scan := NoScan, pgoldest := s.scan.acc)
    case WFlush(p) =>
      var w := s.w.value;
      SetWriter(s, w.(unflushed := w.unflushed - {p})).(disk := s.disk[p := w.mem[p]])
    case WSave(low) =>
      var w := s.w.value;
      SetWriter(s, w.(recs := SavedRecs(low, w), head := {}, loose := {}, phase := Saved))
    case WSync => SetWriter(s, s.w.value.(phase := Synced)).(durable := s.durable + s.disk)
    case WMeta =>
      var w := s.w.value;
      var b := SlotOf(w.txnid);
      SetWriter(s, w.(phase := MetaWritten(s.metas[b]))).(metas := s.metas[b := Meta(w.txnid, NewSnap(w))])
    case WMetaFail(back) =>
      var w := s.w.value;
      var b, m := SlotOf(w.txnid), w.phase.prior;
      var junk := Meta(m.txnid, NewSnap(w).(next := m.snap.next));
      s.(metas := if back then s.metas[b := junk] else s.metas, w := None, fatal := true)
    case WMetaDurable =>
      var w := s.w.value;
      SetWriter(s, w.(phase := MetaDurable)).(dmetas := s.metas)
    case WPublish => s.(mti := s.w.value.txnid, w := None)
    case WAbort => s.(w := None, scan := NoScan)
    case Writeback(p) => s.(durable := s.durable[p := s.disk[p]])
    case MetaWriteback(i) => s.(dmetas := s.dmetas[i := s.metas[i]])
    case Crash =>
      State([], Pick(s.dmetas).txnid, s.dmetas, s.dmetas, s.durable, s.durable, None, NoScan, 0, false)
    case WWork(op) => SetWriter(s, Work(s.w.value, op))
  }
}
