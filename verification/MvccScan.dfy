/** What mdb_find_oldest finds: the least of the published transaction and of the numbers in the
    reader slots, each as it was when its slot was looked at. */
module MvccScan {
  import opened MvccState
  import opened MvccInv
  import opened MvccTheorems

  /** At step m the scan looks whether slot t is in use. */
  ghost predicate LooksAt(ss: seq<State>, ls: seq<Label>, m: int, t: int) {
    0 <= m < |ls| < |ss| && ls[m] == WScanPid && IsSlot(ss[m], t) && ss[m].scan.ScanAt? && ss[m].scan.i == t + 1
  }

  /** At step m the scan reads the transaction number in slot t. */
  ghost predicate Reads(ss: seq<State>, ls: seq<Label>, m: int, t: int) {
    0 <= m < |ls| < |ss| && ls[m] == WScanTxn && IsSlot(ss[m], t) && ss[m].scan.ScanRead? && ss[m].scan.i == t
  }

  predicate EndsScan(l: Label) { l.WScanStart? || l.WScanDone? || l.WAbort? || l.Crash? }

  /** The scan started at step j is under way at step k. */
  ghost predicate SameScan(ls: seq<Label>, j: nat, k: nat) {
    j < k <= |ls| && ls[j] == WScanStart && forall i :: j < i < k ==> !EndsScan(ls[i])
  }

  /** Between steps j and k slot t was seen free, or with a number not below acc. */
  ghost predicate Seen(ss: seq<State>, ls: seq<Label>, j: int, k: int, t: int, acc: int) {
    exists m :: j < m < k && LooksAt(ss, ls, m, t) && (!ss[m].slots[t].pid || ReadAbove(ss, ls, m, k, t, acc))
  }

  ghost predicate ReadAbove(ss: seq<State>, ls: seq<Label>, m: int, k: int, t: int, acc: int) {
    exists n :: m < n < k && Reads(ss, ls, n, t) && acc <= ss[n].slots[t].txn
  }

  ghost predicate LookedAt(ss: seq<State>, ls: seq<Label>, j: int, k: int, t: int) {
    exists m :: j < m < k && LooksAt(ss, ls, m, t) && ss[m].slots[t].pid
  }

  /** acc is the published transaction, or what was read in a slot in use. */
  ghost predicate Attained(ss: seq<State>, ls: seq<Label>, j: int, k: int, acc: int)
    requires 0 <= j < |ss|
  {
    acc == ss[j].mti || exists n, t :: j < n < k && Attains(ss, ls, j, n, t, acc)
  }

  ghost predicate Attains(ss: seq<State>, ls: seq<Label>, j: int, n: int, t: int, acc: int) {
    Reads(ss, ls, n, t) && ss[n].slots[t].txn == acc && LookedAt(ss, ls, j, n, t)
  }

  /** The scan so far. */
  ghost predicate Scanned(ss: seq<State>, ls: seq<Label>, j: nat, k: nat)
    requires j < k < |ss|
  {
    var c, n := ss[k].scan, |ss[j].slots|;
    && n <= |ss[k].slots|
    && !c.NoScan? && c.acc <= ss[j].mti && Attained(ss, ls, j, k, c.acc)
    && 0 <= c.i && (if c.ScanAt? then c.i <= n else c.i < n)
    && (forall t :: (if c.ScanAt? then c.i else c.i + 1) <= t < n ==> Seen(ss, ls, j, k, t, c.acc))
    && (c.ScanRead? ==> LookedAt(ss, ls, j, k, c.i))
  }

  lemma SeenLater(ss: seq<State>, ls: seq<Label>, j: int, k: int, t: int, acc: int, acc': int)
    requires Seen(ss, ls, j, k, t, acc) && acc' <= acc
    ensures Seen(ss, ls, j, k + 1, t, acc')
  {
    var m :| j < m < k && LooksAt(ss, ls, m, t) && (!ss[m].slots[t].pid || ReadAbove(ss, ls, m, k, t, acc));
    if ss[m].slots[t].pid {
      var n :| m < n < k && Reads(ss, ls, n, t) && acc <= ss[n].slots[t].txn;
      assert ReadAbove(ss, ls, m, k + 1, t, acc');
    }
  }

  lemma AttainedLater(ss: seq<State>, ls: seq<Label>, j: nat, k: int, acc: int)
    requires j < |ss| && Attained(ss, ls, j, k, acc)
    ensures Attained(ss, ls, j, k + 1, acc)
  {
    if acc != ss[j].mti {
      var n, t :| j < n < k && Attains(ss, ls, j, n, t, acc);
    }
  }

  lemma LookedLater(ss: seq<State>, ls: seq<Label>, j: int, k: int, t: int)
    requires LookedAt(ss, ls, j, k, t)
    ensures LookedAt(ss, ls, j, k + 1, t)
  {
    var m :| j < m < k && LooksAt(ss, ls, m, t) && ss[m].slots[t].pid;
  }

  /** No step shortens the reader table, but for a crash, and only scan steps move the scan. */
  lemma OtherSteps(s: State, l: Label)
    requires |s.metas| == |s.dmetas| == 2 && Enabled(s, l) && !l.Crash?
    ensures |s.slots| <= |Next(s, l).slots|
    ensures !EndsScan(l) && !l.WScanPid? && !l.WScanTxn? ==> Next(s, l).scan == s.scan
  {
    hide SavesHead, SavedRecs, NewSnap, CanWork, Work;
  }

  lemma ScanStarts(ss: seq<State>, ls: seq<Label>, j: nat)
    requires IsRun(ss, ls) && j < |ls| && ls[j] == WScanStart
    ensures Scanned(ss, ls, j, j + 1)
  {
    assert Takes(ss[j], ls[j], ss[j + 1]);
  }

  lemma StillScanned(ss: seq<State>, ls: seq<Label>, j: nat, k: nat)
    requires IsRun(ss, ls) && j < k < |ls| && Scanned(ss, ls, j, k)
    requires !EndsScan(ls[k]) && !ls[k].WScanPid? && !ls[k].WScanTxn?
    ensures Scanned(ss, ls, j, k + 1)
  {
    hide Enabled, Next, Seen, LookedAt, Attained;
    assert Takes(ss[k], ls[k], ss[k + 1]);
    OtherSteps(ss[k], ls[k]);
    var c, n := ss[k].scan, |ss[j].slots|;
    AttainedLater(ss, ls, j, k, c.acc);
    var k' := k + 1;
    forall t | (if c.ScanAt? then c.i else c.i + 1) <= t < n ensures Seen(ss, ls, j, k', t, c.acc) {
      SeenLater(ss, ls, j, k, t, c.acc, c.acc);
    }
    if c.ScanRead? { LookedLater(ss, ls, j, k, c.i); }
  }

  lemma PidScanned(ss: seq<State>, ls: seq<Label>, j: nat, k: nat)
    requires IsRun(ss, ls) && j < k < |ls| && Scanned(ss, ls, j, k) && ls[k] == WScanPid
    ensures Scanned(ss, ls, j, k + 1)
  {
    hide Seen, LookedAt, Attained;
    assert Takes(ss[k], ls[k], ss[k + 1]);
    var c, n := ss[k].scan, |ss[j].slots|;
    var u := c.i - 1;
    AttainedLater(ss, ls, j, k, c.acc);
    var k' := k + 1;
    forall t | c.i <= t < n ensures Seen(ss, ls, j, k', t, c.acc) {
      SeenLater(ss, ls, j, k, t, c.acc, c.acc);
    }
    assert LooksAt(ss, ls, k, u);
    if ss[k].slots[u].pid {
      LooksNow(ss, ls, j, k, u);
    } else {
      FreeNow(ss, ls, j, k, u, c.acc);
    }
  }

  lemma LooksNow(ss: seq<State>, ls: seq<Label>, j: nat, k: nat, t: int)
    requires j < k && LooksAt(ss, ls, k, t) && ss[k].slots[t].pid
    ensures LookedAt(ss, ls, j, k + 1, t)
  {
  }

  lemma FreeNow(ss: seq<State>, ls: seq<Label>, j: nat, k: nat, t: int, acc: int)
    requires j < k && LooksAt(ss, ls, k, t) && !ss[k].slots[t].pid
    ensures Seen(ss, ls, j, k + 1, t, acc)
  {
  }

  lemma ReadsNow(ss: seq<State>, ls: seq<Label>, j: nat, k: nat, t: int, acc: int)
    requires j < k && LookedAt(ss, ls, j, k, t) && Reads(ss, ls, k, t) && acc <= ss[k].slots[t].txn
    ensures Seen(ss, ls, j, k + 1, t, acc)
    ensures j < |ss| && (acc == ss[k].slots[t].txn ==> Attained(ss, ls, j, k + 1, acc))
  {
    var m :| j < m < k && LooksAt(ss, ls, m, t) && ss[m].slots[t].pid;
    assert ReadAbove(ss, ls, m, k + 1, t, acc);
    if acc == ss[k].slots[t].txn { assert Attains(ss, ls, j, k, t, acc); }
  }

  lemma TxnScanned(ss: seq<State>, ls: seq<Label>, j: nat, k: nat)
    requires IsRun(ss, ls) && j < k < |ls| && Scanned(ss, ls, j, k) && ls[k] == WScanTxn
    ensures Scanned(ss, ls, j, k + 1)
  {
    hide Seen, LookedAt, Attained;
    assert Takes(ss[k], ls[k], ss[k + 1]);
    var c, c', n := ss[k].scan, ss[k + 1].scan, |ss[j].slots|;
    var k' := k + 1;
    forall t | c.i + 1 <= t < n ensures Seen(ss, ls, j, k', t, c'.acc) {
      SeenLater(ss, ls, j, k, t, c.acc, c'.acc);
    }
    assert Reads(ss, ls, k, c.i);
    ReadsNow(ss, ls, j, k, c.i, c'.acc);
    AttainedLater(ss, ls, j, k, c.acc);
  }

  lemma {:induction false} ScanRun(ss: seq<State>, ls: seq<Label>, j: nat, k: nat)
    requires IsRun(ss, ls) && SameScan(ls, j, k)
    ensures Scanned(ss, ls, j, k)
    decreases k
  {
    hide Scanned, EndsScan, IsRun;
    if k == j + 1 {
      ScanStarts(ss, ls, j);
    } else {
      ScanRun(ss, ls, j, k - 1);
      if ls[k - 1].WScanPid? {
        PidScanned(ss, ls, j, k - 1);
      } else if ls[k - 1].WScanTxn? {
        TxnScanned(ss, ls, j, k - 1);
      } else {
        StillScanned(ss, ls, j, k - 1);
      }
    }
  }

  /** A finished scan leaves as the oldest a number not above the published transaction nor above
      that of any slot of the table as it was read, and it is one of these. */
  lemma ScanFinds(ss: seq<State>, ls: seq<Label>, j: nat, k: nat)
    requires IsRun(ss, ls) && SameScan(ls, j, k) && k < |ls| && ls[k] == WScanDone
    ensures var o := ss[k + 1].pgoldest;
            && o <= ss[j].mti && Attained(ss, ls, j, k, o)
            && forall t :: 0 <= t < |ss[j].slots| ==> Seen(ss, ls, j, k, t, o)
  {
    hide Seen, Attained;
    ScanRun(ss, ls, j, k);
    assert Takes(ss[k], ls[k], ss[k + 1]);
  }

  /** o is the least of the published transaction and of the slots in use. */
  ghost predicate IsLeast(s: State, o: int) {
    && o <= s.mti && (forall t :: IsSlot(s, t) && s.slots[t].pid ==> o <= s.slots[t].txn)
    && (o == s.mti || exists t :: IsSlot(s, t) && s.slots[t].pid && s.slots[t].txn == o)
  }

  /** While no reader comes or goes that is exactly the oldest. */
  lemma QuietScan(ss: seq<State>, ls: seq<Label>, j: nat, k: nat)
    requires IsRun(ss, ls) && SameScan(ls, j, k) && k < |ls| && ls[k] == WScanDone
    requires forall i :: j <= i <= k ==> ss[i].slots == ss[j].slots
    ensures IsLeast(ss[j], ss[k + 1].pgoldest)
  {
    ScanFinds(ss, ls, j, k);
    var o := ss[k + 1].pgoldest;
    forall t | IsSlot(ss[j], t) && ss[j].slots[t].pid ensures o <= ss[j].slots[t].txn {
      QuietSlot(ss, ls, j, k, t, o);
    }
    if o != ss[j].mti {
      var n, t :| j < n < k && Attains(ss, ls, j, n, t, o);
      var m :| j < m < n && LooksAt(ss, ls, m, t) && ss[m].slots[t].pid;
      assert ss[m].slots == ss[j].slots && ss[n].slots == ss[j].slots;
      assert IsSlot(ss[j], t) && ss[j].slots[t].pid && ss[j].slots[t].txn == o;
    }
  }

  lemma QuietSlot(ss: seq<State>, ls: seq<Label>, j: nat, k: nat, t: int, o: int)
    requires k < |ss| && j < k && (forall i :: j <= i <= k ==> ss[i].slots == ss[j].slots)
    requires Seen(ss, ls, j, k, t, o) && IsSlot(ss[j], t) && ss[j].slots[t].pid
    ensures o <= ss[j].slots[t].txn
  {
    var m :| j < m < k && LooksAt(ss, ls, m, t) && (!ss[m].slots[t].pid || ReadAbove(ss, ls, m, k, t, o));
    assert ss[m].slots == ss[j].slots;
    var n :| m < n < k && Reads(ss, ls, n, t) && o <= ss[n].slots[t].txn;
    assert ss[n].slots == ss[j].slots;
  }
}
