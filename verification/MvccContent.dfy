/** What is committed is what the writer wrote: the pages of a committed snapshot and their contents,
    told from the labels of its transaction alone. */
module MvccContent {
  import opened MvccState
  import opened MvccInv
  import opened MvccSteps
  import opened MvccCommit
  import opened MvccTheorems

  // ---- what the labels say ----

  /** The content that one step gives to page p. */
  function Put(l: Label, p: int): Option<Content> {
    match l
    case WWork(TakeLoose(q, c, _)) => if q == p then Some(c) else None
    case WWork(TakeHead(cs, _)) => if p in cs then Some(cs[p]) else None
    case WWork(TakeNew(cs, _)) => if p in cs then Some(cs[p]) else None
    case WWork(Modify(q, c)) => if q == p then Some(c) else None
    case _ => None
  }

  function LastPut(ls: seq<Label>, p: int): Option<Content> {
    if ls == [] then None
    else
      var x := Put(ls[|ls| - 1], p);
      if x.Some? then x else LastPut(ls[..|ls| - 1], p)
  }

  /** The tree a page is in, if any. */
  datatype Where = Outside | InData | InFdb

  /** Where one step moves page p. */
  function Move(l: Label, p: int): Option<Where> {
    match l
    case WWork(TakeLoose(q, _, toFdb)) => if q == p then Some(if toFdb then InFdb else InData) else None
    case WWork(TakeHead(cs, toFdb)) => if p in cs then Some(if toFdb then InFdb else InData) else None
    case WWork(TakeNew(cs, toFdb)) => if p in cs then Some(if toFdb then InFdb else InData) else None
    case WWork(Drop(ps)) => if p in ps then Some(Outside) else None
    case WWork(GiveBack(ps)) => if p in ps then Some(Outside) else None
    case WWork(Loosen(q)) => if q == p then Some(Outside) else None
    case _ => None
  }

  function LastPlace(ls: seq<Label>, p: int, base: Where): Where {
    if ls == [] then base
    else
      var x := Move(ls[|ls| - 1], p);
      if x.Some? then x.value else LastPlace(ls[..|ls| - 1], p, base)
  }

  function PlaceIn(q: Snap, p: int): Where {
    if p in q.data then InData else if p in q.fdb then InFdb else Outside
  }

  // ---- the writer keeps to it ----

  /** The writer's trees and pages are what the labels ls since its begin say. */
  ghost predicate Tracks(w: Writer, base: Snap, ls: seq<Label>) {
    forall p :: TracksPage(w, base, ls, p)
  }

  ghost predicate TracksPage(w: Writer, base: Snap, ls: seq<Label>, p: int) {
    && (p in w.data <==> LastPlace(ls, p, PlaceIn(base, p)) == InData)
    && (p in w.fdb <==> LastPlace(ls, p, PlaceIn(base, p)) == InFdb)
    && (p in w.data + w.fdb ==>
          if p in w.mem then LastPut(ls, p) == Some(w.mem[p]) else LastPut(ls, p) == None && p in base.image)
  }

  lemma LabelNext(ls: seq<Label>, l: Label, p: int, base: Where)
    ensures LastPut(ls + [l], p) == if Put(l, p).Some? then Put(l, p) else LastPut(ls, p)
    ensures LastPlace(ls + [l], p, base) == if Move(l, p).Some? then Move(l, p).value else LastPlace(ls, p, base)
  {
    assert (ls + [l])[..|ls|] == ls;
  }

  /** Page p is in one place only, and no new page is in any. */
  lemma OwnAt(w: Writer, p: int)
    requires OwnCover(w)
    ensures p in w.data ==> p !in w.fdb && p !in w.head && p !in w.loose && p < w.next
    ensures p in w.fdb ==> p !in w.head && p !in w.loose && p < w.next
  {
    assert p in w.Own() ==> p < w.next;
  }

  lemma TakeTracks(w: Writer, op: Op, oldest: int, base: Snap, ls: seq<Label>, p: int)
    requires CanWork(w, op, oldest) && OwnCover(w) && TracksPage(w, base, ls, p)
    requires op.TakeLoose? || op.TakeHead? || op.TakeNew?
    ensures TracksPage(Work(w, op), base, ls + [WWork(op)], p)
  {
    LabelNext(ls, WWork(op), p, PlaceIn(base, p));
    OwnAt(w, p);
    hide LastPut, LastPlace, PlaceIn, OwnCover;
  }

  lemma LeaveTracks(w: Writer, op: Op, oldest: int, base: Snap, ls: seq<Label>, p: int)
    requires CanWork(w, op, oldest) && OwnCover(w) && TracksPage(w, base, ls, p)
    requires !op.TakeLoose? && !op.TakeHead? && !op.TakeNew?
    ensures TracksPage(Work(w, op), base, ls + [WWork(op)], p)
  {
    LabelNext(ls, WWork(op), p, PlaceIn(base, p));
    OwnAt(w, p);
    hide LastPut, LastPlace, PlaceIn, OwnCover;
  }

  lemma WorkTracks(w: Writer, op: Op, oldest: int, base: Snap, ls: seq<Label>)
    requires CanWork(w, op, oldest) && OwnCover(w) && Tracks(w, base, ls)
    ensures Tracks(Work(w, op), base, ls + [WWork(op)])
  {
    hide TracksPage, CanWork, Work, OwnCover;
    forall p ensures TracksPage(Work(w, op), base, ls + [WWork(op)], p) {
      if op.TakeLoose? || op.TakeHead? || op.TakeNew? {
        TakeTracks(w, op, oldest, base, ls, p);
      } else {
        LeaveTracks(w, op, oldest, base, ls, p);
      }
    }
  }

  /** Steps that leave the writer's trees and pages alone. */
  lemma StillTracks(w: Writer, w': Writer, l: Label, base: Snap, ls: seq<Label>)
    requires Tracks(w, base, ls) && w'.data == w.data && w'.fdb == w.fdb && w'.mem == w.mem && !l.WWork?
    ensures Tracks(w', base, ls + [l])
  {
    forall p ensures TracksPage(w', base, ls + [l], p) {
      LabelNext(ls, l, p, PlaceIn(base, p));
      assert TracksPage(w, base, ls, p);
      hide LastPut, LastPlace;
    }
  }

  lemma BeginTracks(base: Snap, w: Writer)
    requires SnapOk(base) && w.data == base.data && w.fdb == base.fdb && w.mem == map[]
    ensures Tracks(w, base, [])
  {
  }

  // ---- over runs ----

  predicate EndsTxn(l: Label) { l.WAbort? || l.WMetaFail? || l.WPublish? || l.Crash? }

  /** The transaction begun at step j is at work until step k. */
  ghost predicate SameTxn(ls: seq<Label>, j: nat, k: nat) {
    j < k <= |ls| && ls[j] == WBegin && forall i :: j < i < k ==> !EndsTxn(ls[i])
  }

  /** The snapshot a transaction begun in s starts from. */
  ghost function BaseOf(s: State): Snap
    requires |s.metas| == 2
  {
    s.metas[SlotOf(s.mti)].snap
  }

  /** What the writer of state s is, from the state its transaction began in and the labels since. */
  ghost predicate Writes(s: State, begun: State, ls: seq<Label>) {
    && |begun.metas| == 2 && s.w.Some? && s.w.value.base == BaseOf(begun) && s.w.value.txnid == begun.mti + 1
    && Tracks(s.w.value, BaseOf(begun), ls)
  }

  lemma WriteNext(s: State, l: Label, begun: State, ls: seq<Label>)
    requires Inv(s) && Enabled(s, l) && Writes(s, begun, ls) && !EndsTxn(l)
    ensures |s.metas| == |s.dmetas| == 2 && Writes(Next(s, l), begun, ls + [l])
  {
    TwoMetas(s);
    var w := s.w.value;
    if l.WWork? {
      BusyFacts(s);
      hide Inv, Tracks, SavesHead;
      WorkTracks(w, l.op, s.pgoldest, BaseOf(begun), ls);
      WorkBase(w, l.op);
    } else {
      hide Inv;
      WriterSame(s, l);
      hide Tracks, Enabled, Next;
      StillTracks(w, Next(s, l).w.value, l, BaseOf(begun), ls);
    }
  }

  lemma WorkBase(w: Writer, op: Op)
    ensures Work(w, op).base == w.base && Work(w, op).txnid == w.txnid
  {
  }

  lemma WriterSame(s: State, l: Label)
    requires |s.metas| == |s.dmetas| == 2 && Enabled(s, l) && !l.WWork? && !EndsTxn(l) && s.w.Some?
    ensures var w, n := s.w.value, Next(s, l).w;
            && n.Some? && n.value.data == w.data && n.value.fdb == w.fdb && n.value.mem == w.mem
            && n.value.base == w.base && n.value.txnid == w.txnid
  {
    if IsWriters(l) {
      OwnStep(s, l);
    } else {
      OtherStep(s, l);
    }
    hide Enabled, Next;
  }

  predicate IsWriters(l: Label) { l.WBegin? || l.WFlush? || l.WSave? || l.WSync? || l.WMeta? || l.WMetaDurable? }

  lemma OtherStep(s: State, l: Label)
    requires |s.metas| == |s.dmetas| == 2 && Enabled(s, l) && !l.WWork? && !EndsTxn(l) && !IsWriters(l)
    ensures Next(s, l).w == s.w
  {
    hide SavesHead, SavedRecs, NewSnap, CanWork, Work;
  }

  lemma OwnStep(s: State, l: Label)
    requires |s.metas| == |s.dmetas| == 2 && Enabled(s, l) && IsWriters(l) && s.w.Some?
    ensures var w, n := s.w.value, Next(s, l).w;
            && n.Some? && n.value.data == w.data && n.value.fdb == w.fdb && n.value.mem == w.mem
            && n.value.base == w.base && n.value.txnid == w.txnid
  {
    hide SavesHead, SavedRecs, NewSnap, CanWork, Work;
  }

  lemma {:induction false} TxnWrites(ss: seq<State>, ls: seq<Label>, j: nat, k: nat)
    requires IsRun(ss, ls) && SameTxn(ls, j, k)
    ensures Writes(ss[k], ss[j], ls[j + 1..k])
    decreases k
  {
    hide Inv, Enabled, Next, Writes, EndsTxn;
    RunInv(ss, ls, k - 1);
    assert Takes(ss[k - 1], ls[k - 1], ss[k - 1 + 1]);
    if k == j + 1 {
      assert ls[j + 1..k] == [];
      BeginWrites(ss[j]);
    } else {
      TxnWrites(ss, ls, j, k - 1);
      WriteNext(ss[k - 1], ls[k - 1], ss[j], ls[j + 1..k - 1]);
      assert ls[j + 1..k] == ls[j + 1..k - 1] + [ls[k - 1]];
    }
  }

  lemma BeginWrites(s: State)
    requires Inv(s) && Enabled(s, WBegin)
    ensures |s.metas| == |s.dmetas| == 2 && Writes(Next(s, WBegin), s, [])
  {
    assert SnapOk(BaseOf(s));
    hide Inv, SnapOk, Tracks;
    BeginTracks(BaseOf(s), Next(s, WBegin).w.value);
  }

  /** q is the snapshot that the labels of its transaction, j < i < k, make of the one it started
      from: each page is where it was moved last, and holds what it was given last. */
  ghost predicate Described(q: Snap, begun: State, ls: seq<Label>) {
    && |begun.metas| == 2 && q.txnid == begun.mti + 1
    && var base := BaseOf(begun);
    && q.image.Keys == q.data + q.fdb
    && (forall p :: p in q.data <==> LastPlace(ls, p, PlaceIn(base, p)) == InData)
    && (forall p :: p in q.fdb <==> LastPlace(ls, p, PlaceIn(base, p)) == InFdb)
    && (forall p :: p in q.image ==> Holding(q, base, ls, p))
  }

  ghost predicate Holding(q: Snap, base: Snap, ls: seq<Label>, p: int) {
    p in q.image &&
    match LastPut(ls, p)
    case Some(c) => q.image[p] == c
    case None => p in base.image && q.image[p] == base.image[p]
  }

  lemma NewDescribed(w: Writer, begun: State, ls: seq<Label>)
    requires |begun.metas| == 2 && w.base == BaseOf(begun) && w.txnid == begun.mti + 1 && Tracks(w, BaseOf(begun), ls)
    ensures Described(NewSnap(w), begun, ls)
  {
    var q, base := NewSnap(w), BaseOf(begun);
    hide LastPlace, LastPut, PlaceIn;
    forall p
      ensures (p in q.data <==> LastPlace(ls, p, PlaceIn(base, p)) == InData)
      ensures (p in q.fdb <==> LastPlace(ls, p, PlaceIn(base, p)) == InFdb)
      ensures p in q.image ==> Holding(q, base, ls, p)
    {
      assert TracksPage(w, base, ls, p);
    }
  }

  /** In every run: the snapshot that a transaction writes is the one its labels describe. */
  lemma CommitDescribed(ss: seq<State>, ls: seq<Label>, j: nat, k: nat)
    requires IsRun(ss, ls) && SameTxn(ls, j, k) && k < |ls| && ls[k] == WMeta
    ensures |ss[k + 1].metas| == 2
    ensures Described(ss[k + 1].metas[(ss[j].mti + 1) % 2].snap, ss[j], ls[j + 1..k])
  {
    TxnWrites(ss, ls, j, k);
    RunInv(ss, ls, k);
    RunInv(ss, ls, k + 1);
    assert Takes(ss[k], ls[k], ss[k + 1]);
    TwoMetas(ss[k + 1]);
    hide Inv, NewSnap, Described;
    NewDescribed(ss[k].w.value, ss[j], ls[j + 1..k]);
  }

  /** Whoever writes began. */
  lemma {:induction false} BeganAt(ss: seq<State>, ls: seq<Label>, k: nat) returns (j: nat)
    requires IsRun(ss, ls) && k <= |ls| && ss[k].w.Some?
    ensures SameTxn(ls, j, k)
  {
    hide Enabled, Next, Inv;
    if k == 0 {
      assert false;
    } else {
      assert Takes(ss[k - 1], ls[k - 1], ss[k - 1 + 1]);
      if ls[k - 1] == WBegin {
        j := k - 1;
      } else {
        NoneStays(ss[k - 1], ls[k - 1]);
        j := BeganAt(ss, ls, k - 1);
      }
    }
  }

  lemma NoneStays(s: State, l: Label)
    requires |s.metas| == |s.dmetas| == 2 && Enabled(s, l) && l != WBegin && Next(s, l).w.Some?
    ensures s.w.Some? && !EndsTxn(l)
  {
    hide SavesHead, SavedRecs, NewSnap;
  }

  /** Some transaction that wrote its meta before step m made q. */
  ghost predicate FromTxn(ss: seq<State>, ls: seq<Label>, m: nat, q: Snap)
    requires m <= |ls| < |ss|
  {
    exists j: nat, k: nat ::
      SameTxn(ls, j, k) && k < m && ls[k] == WMeta && Described(q, ss[j], ls[j + 1..k])
  }

  /** In every run: what a live reader sees is the empty database, or what the labels of one
      transaction describe, whole, and the file holds it. */
  lemma ReaderSees(ss: seq<State>, ls: seq<Label>, m: nat, i: int)
    requires IsRun(ss, ls) && m <= |ls| && IsSlot(ss[m], i) && ss[m].slots[i].pc.Live? && !ss[m].fatal
    ensures var q := ss[m].slots[i].pc.snap;
            && Holds(ss[m].disk, q.image)
            && (q == EMPTY || FromTxn(ss, ls, m, q))
  {
    var q := ss[m].slots[i].pc.snap;
    ReaderSafe(ss, ls, m, i);
    OnlyCommitted(ss, ls, m);
    if q != EMPTY {
      assert Committed(ss, ls, m, q);
      var k :| 0 <= k < m && k < |ls| && WroteMeta(ss[k], ls[k], q);
      var j := BeganAt(ss, ls, k);
      TxnWrites(ss, ls, j, k);
      hide Described;
      NewDescribed(ss[k].w.value, ss[j], ls[j + 1..k]);
    }
  }

  /** And so is what a crash leaves. */
  lemma CrashLeaves(ss: seq<State>, ls: seq<Label>, m: nat)
    requires IsRun(ss, ls) && m <= |ls| && |ss[m].dmetas| == 2
    ensures var q := Pick(ss[m].dmetas).snap;
            && Holds(ss[m].durable, q.image)
            && (q == EMPTY || FromTxn(ss, ls, m, q))
  {
    var q := Pick(ss[m].dmetas).snap;
    CrashAtomic(ss, ls, m);
    OnlyCommitted(ss, ls, m);
    if q != EMPTY {
      assert Committed(ss, ls, m, q);
      var k :| 0 <= k < m && k < |ls| && WroteMeta(ss[k], ls[k], q);
      var j := BeganAt(ss, ls, k);
      TxnWrites(ss, ls, j, k);
      hide Described;
      NewDescribed(ss[k].w.value, ss[j], ls[j + 1..k]);
    }
  }
}
