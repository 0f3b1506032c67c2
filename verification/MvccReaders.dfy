/** The reader table from the steps alone: which slots are in use, and which transaction each of them
    holds back. */
module MvccReaders {
  import opened MvccState
  import opened MvccTheorems
  import opened MvccScan

  /** What a slot should hold: is it taken, the number last read, and the number it publishes. */
  datatype Held = Held(pid: bool, read: int, txn: int)

  const EMPTY := Held(false, NONE, NONE)

  /** One step, with `mti` published before it. */
  function HoldsNext(h: Held, l: Label, mti: int, i: int): Held {
    match l
    case RClaim(j) => if j == i then EMPTY else h
    case RPid(j) => if j == i then h.(pid := true) else h
    case RLoad(j) => if j == i then h.(read := mti) else h
    case RStore(j) => if j == i then h.(txn := h.read) else h
    case RCheck(j) => if j == i then h.(read := mti) else h
    case REnd(j, release) => if j == i then h.(pid := !release, txn := NONE) else h
    case Crash => EMPTY
    case _ => h
  }

  /** What slot i should hold after k steps. */
  function HeldAt(ss: seq<State>, ls: seq<Label>, k: nat, i: int): Held
    requires k <= |ls| < |ss|
  {
    if k == 0 then EMPTY else HoldsNext(HeldAt(ss, ls, k - 1, i), ls[k - 1], ss[k - 1].mti, i)
  }

  ghost predicate SlotHolds(s: State, i: int, h: Held) {
    if IsSlot(s, i) then
      && s.slots[i].pid == h.pid && s.slots[i].txn == h.txn && (s.slots[i].pc.Loaded? ==> s.slots[i].pc.t == h.read)
    else h == EMPTY
  }

  predicate IsReader(l: Label) {
    l.RAppend? || l.RClaim? || l.RPid? || l.RLoad? || l.RStore? || l.RCheck? || l.RCopy? || l.REnd? || l.Crash?
  }

  lemma ReaderStep(s: State, l: Label, s': State, i: int, h: Held)
    requires Takes(s, l, s') && SlotHolds(s, i, h) && 0 <= i && IsReader(l)
    ensures SlotHolds(s', i, HoldsNext(h, l, s.mti, i))
  {
    hide Work, NewSnap, SavedRecs, CanWork, SavesHead, Pick;
  }

  lemma OtherStep(s: State, l: Label, s': State)
    requires Takes(s, l, s') && !IsReader(l)
    ensures s'.slots == s.slots
  {
    hide Work, NewSnap, SavedRecs, CanWork, SavesHead, Pick;
  }

  lemma HoldsStep(s: State, l: Label, s': State, i: int, h: Held)
    requires Takes(s, l, s') && SlotHolds(s, i, h) && 0 <= i
    ensures SlotHolds(s', i, HoldsNext(h, l, s.mti, i))
  {
    if IsReader(l) {
      ReaderStep(s, l, s', i, h);
    } else {
      OtherStep(s, l, s');
      hide Takes;
    }
  }

  lemma HeldNext(ss: seq<State>, ls: seq<Label>, k: nat, i: int)
    requires k < |ls| < |ss|
    ensures HeldAt(ss, ls, k + 1, i) == HoldsNext(HeldAt(ss, ls, k, i), ls[k], ss[k].mti, i)
  {
    hide HoldsNext;
  }

  lemma RunStep(ss: seq<State>, ls: seq<Label>, k: nat)
    requires IsRun(ss, ls) && k < |ls|
    ensures Takes(ss[k], ls[k], ss[k + 1])
  {
    hide Takes;
  }

  lemma RunStart(ss: seq<State>, ls: seq<Label>, i: nat)
    requires IsRun(ss, ls)
    ensures SlotHolds(ss[0], i, EMPTY)
  {
    hide Takes;
  }

  lemma {:induction false} HoldsAll(ss: seq<State>, ls: seq<Label>, k: nat, i: nat)
    requires IsRun(ss, ls) && k <= |ls|
    ensures SlotHolds(ss[k], i, HeldAt(ss, ls, k, i))
  {
    if k == 0 {
      RunStart(ss, ls, i);
      hide SlotHolds;
    } else {
      hide Takes, HoldsNext, SlotHolds, HeldAt;
      HoldsAll(ss, ls, k - 1, i);
      RunStep(ss, ls, k - 1);
      HoldsStep(ss[k - 1], ls[k - 1], ss[k], i, HeldAt(ss, ls, k - 1, i));
      HeldNext(ss, ls, k - 1, i);
    }
  }

  /** In every run a slot is taken from the time its reader signs it until it is released, and it
      holds back the transaction that its reader read last, from the store until the end. */
  lemma SlotsFollow(ss: seq<State>, ls: seq<Label>, k: nat, i: int)
    requires IsRun(ss, ls) && k <= |ls| && IsSlot(ss[k], i)
    ensures ss[k].slots[i].pid == HeldAt(ss, ls, k, i).pid && ss[k].slots[i].txn == HeldAt(ss, ls, k, i).txn
  {
    HoldsAll(ss, ls, k, i);
  }

  /** No reader is between its store and its end. */
  ghost predicate AllEnded(ss: seq<State>, ls: seq<Label>, k: nat)
    requires k <= |ls| < |ss|
  {
    forall i :: IsSlot(ss[k], i) ==> HeldAt(ss, ls, k, i).txn == NONE || !HeldAt(ss, ls, k, i).pid
  }

  /** Once all readers have ended, a scan that no reader disturbs finds the published transaction:
      nothing that older readers held back stays unused. */
  lemma EndedScan(ss: seq<State>, ls: seq<Label>, j: nat, k: nat)
    requires IsRun(ss, ls) && SameScan(ls, j, k) && k < |ls| && ls[k] == WScanDone && AllEnded(ss, ls, j)
    requires forall i :: j <= i <= k ==> ss[i].slots == ss[j].slots
    ensures ss[j].mti <= NONE ==> ss[k + 1].pgoldest == ss[j].mti
  {
    QuietScan(ss, ls, j, k);
    forall t | IsSlot(ss[j], t) && ss[j].slots[t].pid ensures ss[j].slots[t].txn == NONE {
      SlotsFollow(ss, ls, j, t);
    }
  }
}
