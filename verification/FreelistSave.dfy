/** mdb_freelist_save: write the free-page list into the freeDB, although every write to the
    freeDB may itself take pages from the list, free pages, or read further records. */
module FreelistSave {
  import opened Midl
  import MidlSort
  import MvccState

  /** A freeDB record: the ids it has room for, and those its length field says it holds. */
  datatype Rec = Rec(room: int, ids: seq<Id>)
  type Db = map<int, Rec>

  /** r starts with s. */
  ghost predicate Grows(s: seq<Id>, r: seq<Id>) {
    |s| <= |r| && forall n :: 0 <= n <= |s| ==> r[..n] == s[..n]
  }

  /** Further pages freed, short of a list that could not be sorted. */
  function WithFreed(s: seq<Id>, more: seq<Id>): (r: seq<Id>)
    requires Ids(s) && |s| <= MidlSort.COUNT_MAX
    ensures Ids(r) && |s| <= |r| <= MidlSort.COUNT_MAX && multiset(s) <= multiset(r)
    ensures Grows(s, r)
  {
    if |s| + |more| <= MidlSort.COUNT_MAX && forall k :: 0 <= k < |more| ==> 0 <= more[k] <= ID_MAX then
      assert multiset(s + more) == multiset(s) + multiset(more);
      s + more
    else s
  }

  lemma NoneFreed(s: seq<Id>)
    requires Ids(s) && |s| <= MidlSort.COUNT_MAX
    ensures WithFreed(s, []) == s
  {
    assert s + [] == s;
  }

  // ---- the records reserved for the free-page list ----

  /** The room of the records lo .. hi. */
  ghost function Room(db: Db, lo: int, hi: int): int
    decreases hi - lo + 1
  {
    if hi < lo then 0 else Room(db, lo, hi - 1) + if hi in db then db[hi].room else 0
  }

  lemma {:induction false} RoomSame(db: Db, db': Db, lo: int, hi: int)
    requires forall k :: lo <= k <= hi ==> (k in db <==> k in db') && (k in db ==> db[k].room == db'[k].room)
    ensures Room(db, lo, hi) == Room(db', lo, hi)
    decreases hi - lo + 1
  {
    if lo <= hi { RoomSame(db, db', lo, hi - 1); }
  }

  lemma {:induction false} RoomLow(db: Db, lo: int, hi: int)
    requires lo <= hi
    ensures Room(db, lo, hi) == Room(db, lo + 1, hi) + if lo in db then db[lo].room else 0
    decreases hi - lo
  {
    if lo < hi { RoomLow(db, lo, hi - 1); }
  }

  /** The reserved records are headId .. pglast, empty so far, and none other is that low;
      only headId itself may not be written yet. */
  ghost predicate Reserved(db: Db, headId: int, pglast: int, headRoom: int, totalRoom: int) {
    && (if pglast == 0 then headId == 0 else 1 <= headId <= pglast)
    && (forall k :: k in db && k <= pglast ==> headId <= k && db[k].ids == [])
    && (forall k :: headId < k <= pglast ==> k in db)
    && (forall k :: k in db && k <= pglast ==> 0 <= db[k].room)
    && headRoom == (if headId in db then db[headId].room else 0)
    && totalRoom == Room(db, headId, pglast)
  }

  /** The unread records keep what they had. */
  ghost predicate UnreadKept(was: Db, db: Db, pglast: int, txnid: int) {
    forall k :: pglast < k < txnid ==> (k in was <==> k in db) && (k in db ==> db[k] == was[k])
  }

  /** What a B-tree operation on the freeDB may do to the lists: read records up to `pglast`,
      leave `mopLen` pages at hand, and free further pages. */
  datatype Env = Env(pglast: int, mopLen: int, freed: seq<Id>)

  /** The keys up to pglast. */
  function UpTo(db: Db, pglast: int): set<int> { set k | k in db && k <= pglast }

  lemma UpToHas(db: Db, k: int)
    requires k in db
    ensures 0 < |UpTo(db, k)|
  {
    assert k in UpTo(db, k);
  }

  lemma UpToLess(db: Db, k: int, pglast: int)
    requires k in db && k <= pglast
    ensures |UpTo(db - {k}, pglast)| == |UpTo(db, pglast)| - 1
  {
    assert UpTo(db - {k}, pglast) == UpTo(db, pglast) - {k};
  }

  predicate IsFirst(ks: set<int>, m: int) { m in ks && forall j :: j in ks ==> m <= j }

  lemma {:induction false} FirstExists(ks: set<int>, k: int)
    requires k in ks
    ensures exists m :: IsFirst(ks, m)
    decreases ks
  {
    if IsFirst(ks, k) {
    } else {
      var j :| j in ks && j < k;
      var rest := ks - {k};
      assert j in rest;
      FirstExists(rest, j);
      var m :| IsFirst(rest, m);
      assert m <= j;
      forall i | i in ks ensures m <= i {
        assert i == k || i in rest;
      }
      assert m in rest && m in ks;
      assert IsFirst(ks, m);
    }
  }

  /** mdb_midl_sort on the pages freed by the transaction. */
  method SortIds(s: seq<Id>) returns (t: seq<Id>)
    requires Ids(s) && |s| <= MidlSort.COUNT_MAX
    ensures Desc(t) && multiset(t) == multiset(s) && |t| == |s|
  {
    var n := |s|;
    var a := new Id[n + 1](k => if 1 <= k <= n then s[k - 1] else n);
    assert a[1..n + 1] == s;
    MidlSort.Sort(a);
    t := a[1..n + 1];
  }

  /** How much of the remaining `need` the record headId takes: all, or a share of it that
      fills whole overflow pages. */
  function HeadRoom(need: int, headId: int, maxfree: int): (r: int)
    requires 0 < maxfree
    ensures 0 <= r && (headId <= 1 || need <= maxfree ==> r >= need)
    ensures headId > 1 && need > maxfree ==> r >= maxfree && r % (maxfree + 1) == maxfree
    ensures headId > 1 && need > maxfree ==> need / headId <= r <= need / headId + maxfree
    ensures headId <= 1 || need <= maxfree ==> r == if need < 0 then 0 else need
    ensures 0 <= need ==> r <= need + maxfree
  {
    if need > maxfree && headId > 1 then
      var share := need / headId;
      ShareBelow(need, headId);
      WholePages(share, maxfree);
      share + (maxfree - share % (maxfree + 1))
    else if need < 0 then 0 else need
  }

  lemma ShareBelow(need: int, n: int)
    requires 0 <= need && 1 <= n
    ensures 0 <= need / n <= need
  {
    var share := need / n;
    assert need == share * n + need % n;
    if share > need {
      AtLeast(n, share);
      assert false;
    }
  }

  lemma WholePages(share: int, maxfree: int)
    requires 0 <= share && 0 < maxfree
    ensures var r := share + (maxfree - share % (maxfree + 1)); r >= maxfree && r % (maxfree + 1) == maxfree
  {
    var m := maxfree + 1;
    var q := share / m;
    assert share == q * m + share % m;
    assert share + (maxfree - share % m) == q * m + maxfree;
    Remainder(q, m, maxfree);
    assert share - share % m >= 0;
  }

  lemma Remainder(q: int, m: int, r: int)
    requires 0 <= r < m
    ensures (q * m + r) % m == r
  {
    var x := q * m + r;
    var d := q - x / m;
    assert d * m == q * m - (x / m) * m == x % m - r;
    if d >= 1 { AtLeast(d, m); } else if d <= -1 { AtLeast(-d, m); }
  }

  lemma AtLeast(d: int, m: int)
    requires d >= 1 && m >= 0
    ensures d * m >= m && -d * m <= -m
  {
  }

  /** The record of `len` ids that ends at place `rest` of the list. The slot before it lends
      its place to the length, and is then put back. */
  method CutRecord(mop: array<Id>, rest: int, len: int) returns (ids: seq<Id>)
    requires ValidIdl(mop) && 0 <= len <= rest <= mop[0]
    modifies mop
    ensures mop[..] == old(mop[..]) && ids == old(Elems(mop))[rest - len..rest]
  {
    var p := rest - len;
    var save := mop[p];
    mop[p] := len;
    ids := mop[p + 1..p + 1 + mop[p]];
    assert forall k :: 0 <= k < len ==> ids[k] == old(Elems(mop))[p + k];
    mop[p] := save;
  }

  ghost predicate Once(s: seq<Id>) { forall i, j :: 0 <= i < j < |s| ==> s[i] != s[j] }

  lemma {:induction false} OnceCount(s: seq<Id>, x: Id)
    requires Once(s)
    ensures multiset(s)[x] <= 1
  {
    if s != [] {
      var t := s[..|s| - 1];
      OnceCount(t, x);
      assert s == t + [s[|s| - 1]];
    }
  }

  /** Sorted, and without repeats: strictly descending. */
  lemma OnceStrict(s: seq<Id>, t: seq<Id>)
    requires Once(s) && Desc(t) && multiset(s) == multiset(t)
    ensures StrictDesc(t) && forall p :: p in t <==> p in s
  {
    forall p ensures p in t <==> p in s { assert p in multiset(s) <==> p in multiset(t); }
    forall i, j | 0 <= i < j < |t| ensures t[i] > t[j] {
      if t[i] == t[j] {
        Twice(t, i, j);
        OnceCount(s, t[i]);
      }
    }
  }

  /** The loose pages, sorted at the end of the list's own block, join the free-page list. */
  method MergeLoose(mop: array<Id>, loose: seq<Id>)
    requires ValidIdl(mop) && StrictDesc(Elems(mop)) && Ids(loose) && |loose| <= MidlSort.COUNT_MAX
    requires mop[0] + 2 * |loose| + 1 < mop.Length && Once(loose) && forall p :: p in Elems(mop) ==> p !in loose
    modifies mop
    ensures ValidIdl(mop) && StrictDesc(Elems(mop)) && mop[0] == old(mop[0]) + |loose|
    ensures forall p :: p in Elems(mop) <==> p in old(Elems(mop)) || p in loose
  {
    var sorted := SortIds(loose);
    SortedIds(loose, sorted);
    OnceStrict(loose, sorted);
    MergeStrict(Elems(mop), sorted);
    hide StrictDesc, Desc, Once, Merge;
    var off := mop.Length - 1 - |sorted|;
    PutList(mop, off, sorted);
    hide Ids;
    XMerge(mop, mop, off);
    assert mop[0] == |Elems(mop)|;
  }

  /** Write a list behind the one in mop. */
  method PutList(mop: array<Id>, off: nat, s: seq<Id>)
    requires ValidIdl(mop) && Ids(s) && mop[0] < off && off + |s| < mop.Length
    modifies mop
    ensures ValidIdl(mop) && mop[0] == old(mop[0]) && Elems(mop) == old(Elems(mop)) && ListAt(mop, off)
    ensures ElemsAt(mop, off) == s
  {
    ghost var n := mop[0];
    forall k | 0 <= k < |s| { mop[off + 1 + k] := s[k]; }
    mop[off] := |s|;
    assert mop[off + 1..off + |s| + 1] == s;
    assert mop[1..n + 1] == old(mop[1..n + 1]);
  }

  /** The lists as the save found them: records read, pages in the free-page list, pages freed. */
  datatype Found = Found(pglast: int, mopLen: int, freed: int, bag: multiset<Id>)

  // ---- how many records the reserve loop writes ----

  /** The record being reserved: its key, its room, and the room of all records reserved. */
  datatype Slot = Slot(headId: int, headRoom: int, totalRoom: int)

  /** The record the loop writes next. */
  function NextSlot(slot: Slot, mopLen: int, maxfree: int): Slot
    requires 0 < maxfree
  {
    var lower := slot.totalRoom < mopLen && slot.headRoom >= maxfree && slot.headId > 1;
    var headId := if lower then slot.headId - 1 else slot.headId;
    var rest := slot.totalRoom - if lower then 0 else slot.headRoom;
    var room := HeadRoom(mopLen - rest, headId, maxfree);
    Slot(headId, room, rest + room)
  }

  /** The slot of a loop that found the list as long as it is now at every round. */
  ghost predicate SlotOk(slot: Slot, mopLen: int, maxfree: int, more: int) {
    && 0 < maxfree && 1 <= slot.headId && 0 <= mopLen
    && (slot.totalRoom < mopLen ==>
      more == 1 && if slot.headRoom < maxfree then slot.headRoom == 0 == slot.totalRoom else slot.headId > 1)
    && (slot.totalRoom > mopLen ==>
      more <= 1 && slot.totalRoom <= mopLen + maxfree && NextSlot(slot, mopLen, maxfree) == slot)
  }

  /** The most records the loop still writes. */
  function SlotsLeft(slot: Slot, mopLen: int, maxfree: int, more: int): int {
    if slot.totalRoom == mopLen then 0
    else if slot.totalRoom > mopLen then (if more == 1 then 1 else 0)
    else if slot.headRoom < maxfree then slot.headId + 1 else slot.headId
  }

  lemma SlotFresh(pglast: int, mopLen: int, maxfree: int)
    ensures 0 < maxfree && 1 <= pglast && 0 <= mopLen ==> SlotOk(Slot(pglast, 0, 0), mopLen, maxfree, 1)
    ensures 0 <= pglast ==> 0 <= SlotsLeft(Slot(pglast, 0, 0), mopLen, maxfree, 1) <= pglast + 1
  {
  }

  lemma SlotsLeftOver(slot: Slot, mopLen: int, maxfree: int, more: int)
    requires SlotOk(slot, mopLen, maxfree, more) || slot.totalRoom == mopLen
    ensures 0 <= SlotsLeft(slot, mopLen, maxfree, more)
  {
  }

  /** A record written leaves fewer to write. */
  lemma SlotStep(slot: Slot, mopLen: int, maxfree: int, more: int)
    requires SlotOk(slot, mopLen, maxfree, more) && slot.totalRoom != mopLen
    requires slot.totalRoom > mopLen ==> more >= 1
    ensures var more' := if slot.totalRoom > mopLen then more - 1 else more;
            && SlotOk(NextSlot(slot, mopLen, maxfree), mopLen, maxfree, more')
            && 0 <= SlotsLeft(NextSlot(slot, mopLen, maxfree), mopLen, maxfree, more')
               < SlotsLeft(slot, mopLen, maxfree, more)
  {
    hide HeadRoom;
  }

  /** With room to spare the loop rewrites its record once and stops. */
  lemma SlotStop(slot: Slot, mopLen: int, maxfree: int, more: int)
    requires SlotOk(slot, mopLen, maxfree, more) && slot.totalRoom > mopLen && more < 1
    ensures SlotOk(slot, mopLen, maxfree, more - 1) && slot.totalRoom <= mopLen + maxfree
    ensures SlotsLeft(slot, mopLen, maxfree, more - 1) == 0
  {
  }

  class Saver {
    var db: Db                 // the freeDB
    var mePglast: int          // me_pglast
    var mopLen: int            // me_pghead[0] + mt_loose_count
    var freed: seq<Id>         // mt_free_pgs
    var env: seq<Env>          // what the coming B-tree operations will do
    const txnid: int
    const maxfree: int         // me_maxfree_1pg
    ghost const was: Db
    ghost var bag: multiset<Id>

    constructor (db: Db, txnid: int, maxfree: int, mePglast: int, mopLen: int, freed: seq<Id>, env: seq<Env>)
      requires 0 <= mePglast < txnid && 0 < maxfree && 0 <= mopLen && (mePglast == 0 ==> mopLen == 0)
      requires (0 < mePglast ==> mePglast in db) && forall k :: k in db ==> 1 <= k < txnid
      requires Ids(freed) && |freed| <= MidlSort.COUNT_MAX
      ensures Valid() && Start() && this.db == db == was && this.env == env
    {
      this.db, this.txnid, this.maxfree, this.mePglast, this.mopLen := db, txnid, maxfree, mePglast, mopLen;
      this.freed, this.env, was, bag := freed, env, db, multiset(freed);
    }

    ghost predicate Valid()
      reads this
    {
      && 0 <= mePglast < txnid && 0 < maxfree && 0 <= mopLen && (mePglast == 0 ==> mopLen == 0)
      && (forall k :: k in db ==> 1 <= k <= txnid)
      && Ids(freed) && |freed| <= MidlSort.COUNT_MAX && multiset(freed) == bag
      && UnreadKept(was, db, mePglast, txnid)
    }

    /** Nothing saved yet. */
    ghost predicate Start()
      reads this
    {
      (0 < mePglast ==> mePglast in db) && txnid !in db
    }

    /** The coming operations neither read records nor free pages. */
    ghost predicate Quiet()
      reads this`env, this`mePglast, this`mopLen
    {
      forall i :: 0 <= i < |env| ==> env[i].freed == [] && env[i].pglast <= mePglast && env[i].mopLen == mopLen
    }

    /** Quiet still, with the lists as given and `left` operations to come, or more. */
    ghost predicate Still(f: Found, left: int)
      reads this`env, this`mePglast, this`mopLen, this`freed, this`bag
    {
      Quiet() && f == Found(mePglast, mopLen, |freed|, bag) && left <= |env|
    }

    /** Records up to pglast, if it is the key of one, are read into the free-page list. */
    method ReadUpTo(pglast: int, len: int)
      requires Valid()
      modifies this`mePglast, this`mopLen
      ensures Valid() && old(mePglast) <= mePglast && (mePglast == old(mePglast) || mePglast in db)
      ensures pglast <= old(mePglast) && len == old(mopLen) ==> mePglast == old(mePglast) && mopLen == old(mopLen)
    {
      KeptMono(was, db, mePglast, txnid);
      hide UnreadKept, Ids;
      if pglast in db && mePglast < pglast < txnid { mePglast := pglast; }
      mopLen := if mePglast == 0 || len < 0 then 0 else len;
    }

    /** One B-tree operation takes its effect on the lists. */
    method Tick()
      requires Valid() && env != []
      modifies this`mePglast, this`mopLen, this`freed, this`env, this`bag
      ensures Valid() && env == old(env)[1..] && old(mePglast) <= mePglast
      ensures mePglast == old(mePglast) || mePglast in db
      ensures Grows(old(freed), freed) && old(bag) <= bag
      ensures old(Quiet()) ==> Still(old(Found(mePglast, mopLen, |freed|, bag)), |old(env)| - 1)
    {
      hide UnreadKept, Ids, WithFreed, Grows;
      var e := env[0];
      env := env[1..];
      ReadUpTo(e.pglast, e.mopLen);
      NoneFreed(freed);
      freed := WithFreed(freed, e.freed);
      bag := multiset(freed);
    }

    /** The record of the pages freed so far. */
    ghost predicate FreedSaved(freecnt: int)
      reads this
    {
      && 0 <= freecnt <= |freed|
      && (freecnt == 0 ==> txnid !in db)
      && (0 < freecnt ==>
        txnid in db && db[txnid].room == freecnt && db[txnid].ids == freed[..freecnt] &&
        Desc(freed[..freecnt]))
    }

    /** Between two rounds of the reserve loop. */
    ghost predicate Between(pglast: int, headId: int, headRoom: int, totalRoom: int, freecnt: int)
      reads this
    {
      && Valid() && pglast <= mePglast && (pglast < mePglast ==> mePglast in db)
      && Reserved(db, headId, pglast, headRoom, totalRoom) && FreedSaved(freecnt)
    }

    /** Delete the records read since the last round, and with them what was reserved. */
    method DeleteRead(pglast0: int, headId0: int, headRoom0: int, totalRoom0: int, ghost freecnt: int)
      returns (live: bool, pglast: int, headId: int, headRoom: int, totalRoom: int)
      requires Between(pglast0, headId0, headRoom0, totalRoom0, freecnt)
      modifies this`db, this`mePglast, this`mopLen, this`freed, this`env, this`bag
      ensures Between(pglast, headId, headRoom, totalRoom, freecnt) && |env| <= |old(env)| && old(bag) <= bag
      ensures if live then pglast == mePglast else env == []
      ensures pglast0 == old(mePglast) ==>
                && live && pglast == pglast0 && headId == headId0 && headRoom == headRoom0 && totalRoom == totalRoom0
                && env == old(env) && freed == old(freed) && bag == old(bag)
                && mopLen == old(mopLen) && mePglast == old(mePglast)
      ensures old(Quiet()) && pglast0 < old(mePglast) && |UpTo(old(db), old(mePglast))| <= |old(env)| ==>
                && live && headId == pglast && headRoom == 0 == totalRoom
                && Still(old(Found(mePglast, mopLen, |freed|, bag)), |old(env)| - |UpTo(old(db), old(mePglast))|)
    {
      hide Reserved, UnreadKept, Ids, Desc, Quiet, UpTo;
      pglast, headId, headRoom, totalRoom := pglast0, headId0, headRoom0, totalRoom0;
      ghost var quiet, n := Quiet(), |UpTo(db, mePglast)|;
      while pglast < mePglast
        invariant Between(pglast, headId, headRoom, totalRoom, freecnt) && |env| <= |old(env)| && old(bag) <= bag
        invariant pglast0 == old(mePglast) ==>
                && pglast == pglast0 && headId == headId0 && headRoom == headRoom0 && totalRoom == totalRoom0
                && env == old(env) && freed == old(freed) && bag == old(bag)
                && mopLen == old(mopLen) && mePglast == old(mePglast)
        invariant pglast != pglast0 ==> headId == pglast && headRoom == 0 == totalRoom
        invariant quiet && pglast0 < old(mePglast) ==>
                Still(old(Found(mePglast, mopLen, |freed|, bag)), |old(env)| - n + |UpTo(db, mePglast)|)
        decreases |env|
      {
        UpToHas(db, mePglast);
        if env == [] { return false, pglast, headId, headRoom, totalRoom; }
        FirstExists(db.Keys, mePglast);
        var key :| key in db.Keys && IsFirst(db.Keys, key);
        UpToLess(db, key, mePglast);
        assert key <= mePglast;
        pglast, headId := key, key;
        totalRoom, headRoom := 0, 0;
        DeleteFirst(db, key);
        KeptDelete(was, db, mePglast, txnid, key);
        db := db - {key};
        Tick();
      }
      live := true;
    }

    /** What saving the freed pages leaves alone. */
    ghost predicate Steady(pglast: int, headId: int, headRoom: int, totalRoom: int, bag0: multiset<Id>)
      reads this
    {
      && Valid() && pglast <= mePglast && (pglast < mePglast ==> mePglast in db) && bag0 <= bag
      && Reserved(db, headId, pglast, headRoom, totalRoom)
    }

    /** (Re)write the record of the freed pages until that frees no more. */
    method PutFreed(ghost pglast: int, ghost headId: int, ghost headRoom: int, ghost totalRoom: int)
      returns (live: bool, freecnt: int)
      requires Steady(pglast, headId, headRoom, totalRoom, bag)
      modifies this`db, this`mePglast, this`mopLen, this`freed, this`env, this`bag
      ensures Steady(pglast, headId, headRoom, totalRoom, old(bag)) && |old(freed)| <= |freed|
      ensures if live then |env| < |old(env)| && freecnt == |freed| else env == []
      ensures old(Quiet()) && old(env) != [] ==>
                live && Still(old(Found(mePglast, mopLen, |freed|, bag)), |old(env)| - 1)
    {
      hide Reserved, UnreadKept, Ids, Desc, Quiet;
      live, freecnt := true, -1;
      while freecnt < |freed|
        invariant old(Quiet()) ==>
                Still(old(Found(mePglast, mopLen, |freed|, bag)), |old(env)| - if freecnt == -1 then 0 else 1)
        invariant old(Quiet()) && freecnt != -1 ==> freecnt == |freed|
        invariant Steady(pglast, headId, headRoom, totalRoom, old(bag)) && |old(freed)| <= |freed|
        invariant freecnt <= |freed| && if freecnt == -1 then env == old(env) else |env| < |old(env)|
        decreases |env|
      {
        freecnt := |freed|;
        if env == [] { return false, freecnt; }
        PutHigh(db, txnid, Rec(freecnt, []), headId, pglast, headRoom, totalRoom);
        KeptPut(was, db, mePglast, txnid, txnid, Rec(freecnt, []));
        db := db[txnid := Rec(freecnt, [])];
        Tick();
      }
    }

    /** Save the pages freed by this transaction to one record. */
    method SaveFreed(freecnt0: int, ghost pglast: int, ghost headId: int, ghost headRoom: int, ghost totalRoom: int)
      returns (live: bool, freecnt: int)
      requires Between(pglast, headId, headRoom, totalRoom, freecnt0) && freecnt0 < |freed|
      modifies this`db, this`mePglast, this`mopLen, this`freed, this`env, this`bag
      ensures live ==> Between(pglast, headId, headRoom, totalRoom, freecnt) && |env| < |old(env)| && old(bag) <= bag
      ensures !live ==> env == []
      ensures old(Quiet()) && 2 <= |old(env)| ==>
                && live && freecnt == |freed|
                && Still(old(Found(mePglast, mopLen, |freed|, bag)), |old(env)| - 2)
    {
      hide Reserved, UnreadKept, Ids, Desc;
      freecnt := freecnt0;
      if freecnt == 0 {
        if env == [] { return false, freecnt; }
        Tick();
      }
      live, freecnt := PutFreed(pglast, headId, headRoom, totalRoom);
      if live { StoreFreed(pglast, headId, headRoom, totalRoom); }
    }

    /** Sort the freed pages and write them. */
    method StoreFreed(ghost pglast: int, ghost headId: int, ghost headRoom: int, ghost totalRoom: int)
      requires Steady(pglast, headId, headRoom, totalRoom, bag) && freed != []
      modifies this`db, this`freed
      ensures Between(pglast, headId, headRoom, totalRoom, |freed|) && |freed| == |old(freed)|
      ensures old(Quiet()) ==> Quiet()
    {
      hide Reserved, UnreadKept, Ids;
      var sorted := SortIds(freed);
      SortedIds(freed, sorted);
      freed := sorted;
      PutHigh(db, txnid, Rec(|freed|, freed), headId, pglast, headRoom, totalRoom);
      KeptPut(was, db, mePglast, txnid, txnid, Rec(|freed|, freed));
      db := db[txnid := Rec(|freed|, freed)];
      assert freed[..|freed|] == freed;
    }

    /** (Re)write the record headId, or add one below it. */
    method ReserveMore(pglast: int, headId0: int, headRoom0: int, totalRoom0: int, ghost freecnt: int)
      returns (live: bool, headId: int, headRoom: int, totalRoom: int)
      requires Between(pglast, headId0, headRoom0, totalRoom0, freecnt) && pglast == mePglast && totalRoom0 != mopLen
      modifies this`db, this`mePglast, this`mopLen, this`freed, this`env, this`bag
      ensures live ==> Between(pglast, headId, headRoom, totalRoom, freecnt) && |env| < |old(env)| && old(bag) <= bag
      ensures live ==>
                Slot(headId, headRoom, totalRoom) ==
                  NextSlot(Slot(headId0, headRoom0, totalRoom0), old(mopLen), maxfree)
      ensures !live ==> env == []
      ensures old(Quiet()) && old(env) != [] ==>
                live && Still(old(Found(mePglast, mopLen, |freed|, bag)), |old(env)| - 1)
    {
      headId, headRoom, totalRoom := headId0, headRoom0, totalRoom0;
      if totalRoom < mopLen && headRoom >= maxfree && headId > 1 {
        headId := headId - 1;
        headRoom := 0;
      }
      totalRoom := totalRoom - headRoom;
      headRoom := HeadRoom(mopLen - totalRoom, headId, maxfree);
      if env == [] { return false, headId, headRoom, totalRoom; }
      PutHead(db, headId0, headId, headRoom, pglast, headRoom0, totalRoom0);
      KeptPut(was, db, mePglast, txnid, headId, Rec(headRoom, []));
      hide Reserved, UnreadKept, Ids, Desc;
      db := db[headId := Rec(headRoom, [])];
      Tick();
      totalRoom := totalRoom + headRoom;
      live := true;
    }

    /** The most operations the reserve loop still takes when none of them reads or frees. */
    ghost function Left(pglast: int, freecnt: int, slot: Slot, more: int): int
      reads this
    {
      (if pglast < mePglast then |UpTo(db, mePglast)| + mePglast + 1 else SlotsLeft(slot, mopLen, maxfree, more))
      + if freecnt < |freed| then 2 else 0
    }

    /** As many operations as the save takes when none of them reads records or frees pages: one
        for each record read, two for the freed pages, and one for each reserved record, or one more. */
    ghost function Enough(): int
      reads this
    {
      |UpTo(db, mePglast)| + (if freed == [] then 0 else 2) + if mePglast == 0 then 0 else mePglast + 1
    }

    /** Nothing is reserved or saved at the start. */
    lemma AtStart()
      requires Valid() && Start()
      ensures Between(0, 0, 0, 0, 0)
    {
      StartReserved(db);
    }

    /** Once all freed pages are written, their record holds them sorted. */
    lemma AllSaved(pglast: int, headId: int, headRoom: int, totalRoom: int, freecnt: int)
      requires Between(pglast, headId, headRoom, totalRoom, freecnt) && |freed| <= freecnt
      ensures Valid() && Reserved(db, headId, pglast, headRoom, totalRoom) && (bag == multiset{} <==> txnid !in db)
      ensures txnid in db ==> Desc(db[txnid].ids) && multiset(db[txnid].ids) == bag
    {
      assert freed[..freecnt] == freed && |bag| == |freed|;
    }

    /** The reserve loop is on the way to its end, with the lists as they were at its start. */
    ghost predicate OnTrack(f: Found, pglast: int, freecnt: int, slot: Slot, more: int)
      reads this
    {
      && Still(f, Left(pglast, freecnt, slot, more)) && 0 <= f.pglast && (f.pglast == 0 ==> f.mopLen == 0)
      && (pglast == f.pglast || (pglast == 0 && more == 1 && freecnt == 0))
      && if 0 < pglast then SlotOk(slot, f.mopLen, maxfree, more) else slot.totalRoom == 0
    }

    /** Delete the records read, and save the pages freed. */
    method CatchUp(pglast0: int, headId0: int, headRoom0: int, totalRoom0: int, freecnt0: int,
        ghost more: int, ghost f: Found)
      returns (live: bool, saved: bool, pglast: int, headId: int, headRoom: int, totalRoom: int, freecnt: int)
      requires Between(pglast0, headId0, headRoom0, totalRoom0, freecnt0)
      modifies this`db, this`mePglast, this`mopLen, this`freed, this`env, this`bag
      ensures live ==> Between(pglast, headId, headRoom, totalRoom, freecnt) && old(bag) <= bag
      ensures !live ==> env == []
      ensures live && saved ==> |env| < |old(env)|
      ensures live && !saved ==> |env| <= |old(env)| && pglast == mePglast && |freed| <= freecnt
      ensures old(OnTrack(f, pglast0, freecnt0, Slot(headId0, headRoom0, totalRoom0), more)) ==>
                live && OnTrack(f, pglast, freecnt, Slot(headId, headRoom, totalRoom), more)
    {
      hide Reserved, UnreadKept, Ids, Desc, FreedSaved, Quiet, UpTo, SlotOk, SlotsLeft, NextSlot;
      freecnt, saved := freecnt0, false;
      live, pglast, headId, headRoom, totalRoom := DeleteRead(pglast0, headId0, headRoom0, totalRoom0, freecnt);
      SlotFresh(f.pglast, mopLen, maxfree);
      if live && (totalRoom == mopLen || SlotOk(Slot(headId, headRoom, totalRoom), mopLen, maxfree, more)) {
        SlotsLeftOver(Slot(headId, headRoom, totalRoom), mopLen, maxfree, more);
      }
      if live && freecnt < |freed| {
        live, freecnt := SaveFreed(freecnt, pglast, headId, headRoom, totalRoom);
        saved := true;
      }
    }

    /** Stop when the records have room for the list, or write one more. */
    method ReserveStep(more0: int, pglast: int, headId0: int, headRoom0: int, totalRoom0: int, ghost freecnt: int,
        ghost f: Found)
      returns (live: bool, done: bool, more: int, headId: int, headRoom: int, totalRoom: int)
      requires Between(pglast, headId0, headRoom0, totalRoom0, freecnt) && pglast == mePglast && |freed| <= freecnt
      modifies this`db, this`mePglast, this`mopLen, this`freed, this`env, this`bag
      ensures live ==> Between(pglast, headId, headRoom, totalRoom, freecnt) && old(bag) <= bag
      ensures !live ==> env == []
      ensures done ==>
                && live && env == old(env) && mopLen <= totalRoom && mePglast == old(mePglast)
                && freed == old(freed) && bag == old(bag)
      ensures live && !done ==> |env| < |old(env)|
      ensures old(OnTrack(f, pglast, freecnt, Slot(headId0, headRoom0, totalRoom0), more0)) ==>
                && live && OnTrack(f, pglast, freecnt, Slot(headId, headRoom, totalRoom), more)
                && (done ==> totalRoom <= f.mopLen + maxfree)
    {
      hide Reserved, UnreadKept, Ids, Desc, FreedSaved, Quiet, UpTo, SlotOk, SlotsLeft, NextSlot;
      ghost var slot := Slot(headId0, headRoom0, totalRoom0);
      ghost var on := OnTrack(f, pglast, freecnt, slot, more0);
      more, headId, headRoom, totalRoom := more0, headId0, headRoom0, totalRoom0;
      if totalRoom >= mopLen {
        if totalRoom == mopLen { return true, true, more, headId, headRoom, totalRoom; }
        more := more - 1;
        if more < 0 {
          if on { SlotStop(slot, f.mopLen, maxfree, more0); }
          return true, true, more, headId, headRoom, totalRoom;
        }
      }
      done := false;
      if on { SlotStep(slot, f.mopLen, maxfree, more0); }
      live, headId, headRoom, totalRoom := ReserveMore(pglast, headId, headRoom, totalRoom, freecnt);
    }

    /** Reserve records until they have room for the whole free-page list, loose pages
        included, and the freed pages are saved. The method gives up only when it is not known what
        the next operation does. */
    method Reserve() returns (live: bool, headId: int, headRoom: int, totalRoom: int)
      requires Valid() && Start()
      modifies this`db, this`mePglast, this`mopLen, this`freed, this`env, this`bag
      ensures live ==>
                && Valid() && old(bag) <= bag
                && Reserved(db, headId, mePglast, headRoom, totalRoom) && mopLen <= totalRoom
                && (bag == multiset{} <==> txnid !in db)
                && (txnid in db ==> Desc(db[txnid].ids) && multiset(db[txnid].ids) == bag)
      ensures !live ==> env == []
      ensures old(Quiet()) && old(Enough()) <= |old(env)| ==>
                && live && mePglast == old(mePglast) && mopLen == old(mopLen) && bag == old(bag)
                && totalRoom <= mopLen + maxfree
    {
      var more, pglast, freecnt := 1, 0, 0;
      headId, headRoom, totalRoom := 0, 0, 0;
      ghost var quiet := Quiet() && Enough() <= |env|;
      ghost var f := Found(mePglast, mopLen, |freed|, bag);
      AtStart();
      hide Between, Quiet, UpTo, SlotOk, SlotsLeft, NextSlot, Valid, Start, Reserved, Desc;
      while true
        invariant Between(pglast, headId, headRoom, totalRoom, freecnt) && old(bag) <= bag
        invariant quiet ==> OnTrack(f, pglast, freecnt, Slot(headId, headRoom, totalRoom), more)
        decreases |env|
      {
        var saved, done := false, false;
        live, saved, pglast, headId, headRoom, totalRoom, freecnt :=
          CatchUp(pglast, headId, headRoom, totalRoom, freecnt, more, f);
        if !live { return; }
        if saved { continue; }
        live, done, more, headId, headRoom, totalRoom :=
          ReserveStep(more, pglast, headId, headRoom, totalRoom, freecnt, f);
        if !live { return; }
        if done { break; }
      }
      AllSaved(pglast, headId, headRoom, totalRoom, freecnt);
    }

    /** After the reserve loop: return the loose pages to the free-page list and write it. */
    method Finish(mop: array<Id>, loose: seq<Id>, canGrow: bool, headId: int, ghost headRoom: int, ghost totalRoom: int)
      returns (rc: int, ghost m: seq<Id>)
      requires ValidIdl(mop) && mop[0] + |loose| == mopLen <= totalRoom
      requires Reserved(db, headId, mePglast, headRoom, totalRoom) && StrictDesc(Elems(mop)) && Ids(loose)
      requires |loose| <= MidlSort.COUNT_MAX
      requires Once(loose) && forall p :: p in Elems(mop) ==> p !in loose
      modifies this`db, mop
      ensures rc == SUCCESS ==> StrictDesc(m) && Filled(old(db), db, m, headId, mePglast)
      ensures rc == SUCCESS ==> forall p :: p in m <==> p in old(Elems(mop)) || p in loose
      ensures rc != SUCCESS ==> !canGrow && db == old(db)
    {
      var list := mop;
      m := Elems(mop);
      hide Filled, Reserved, Ids;
      if loose != [] {
        rc, list := Need(mop, 2 * |loose| + 1, canGrow);
        if rc != SUCCESS { return; }
        MergeLoose(list, loose);
        m := Elems(list);
      }
      rc := SUCCESS;
      Fill(list, headId, headRoom, totalRoom);
    }

    /** Write the free-page list into the reserved records. */
    method Fill(mop: array<Id>, headId: int, ghost headRoom: int, ghost totalRoom: int)
      requires ValidIdl(mop) && Reserved(db, headId, mePglast, headRoom, totalRoom) && mop[0] <= totalRoom
      modifies this`db, mop
      ensures mop[..] == old(mop[..]) && Filled(old(db), db, old(Elems(mop)), headId, mePglast)
    {
      hide Filled, Reserved, Ids;
      if mop[0] == 0 {
        NothingToFill(db, headId, mePglast, headRoom, totalRoom);
        assert Elems(mop) == [];
      } else {
        db := FillRecords(db, mop, headId, mePglast, headRoom, totalRoom);
      }
    }
  }

  // ---- filling the reserved records ----

  /** The ids of the records lo .. hi, highest key first. */
  ghost function Joined(db: Db, lo: int, hi: int): seq<Id>
    decreases hi - lo + 1
  {
    if hi < lo then [] else (if hi in db then db[hi].ids else []) + Joined(db, lo, hi - 1)
  }

  lemma {:induction false} JoinedSame(db: Db, db': Db, lo: int, hi: int)
    requires forall k :: lo <= k <= hi ==> (k in db <==> k in db') && (k in db ==> db[k].ids == db'[k].ids)
    ensures Joined(db, lo, hi) == Joined(db', lo, hi)
    decreases hi - lo + 1
  {
    if lo <= hi { JoinedSame(db, db', lo, hi - 1); }
  }

  lemma {:induction false} JoinedEmpty(db: Db, lo: int, mid: int, hi: int)
    requires lo - 1 <= mid <= hi && forall k :: mid < k <= hi && k in db ==> db[k].ids == []
    ensures Joined(db, lo, hi) == Joined(db, lo, mid)
    decreases hi - mid
  {
    if mid < hi { JoinedEmpty(db, lo, mid, hi - 1); }
  }

  /** While records are filled from the lowest key up: those below id hold the end of the
      list m, from place `rest` on, and the others have room for the rest. */
  ghost predicate Filling(was: Db, db: Db, m: seq<Id>, headId: int, pglast: int, id: int, rest: int) {
    && 0 <= rest <= |m| && headId <= id <= pglast + 1
    && (forall k :: headId <= k <= pglast && k in was ==> 0 <= was[k].room)
    && db.Keys == was.Keys && (forall k :: k in db && !(headId <= k < id) ==> db[k] == was[k])
    && (forall k :: k in db && headId <= k < id ==> |db[k].ids| == db[k].room <= was[k].room)
    && Joined(db, headId, id - 1) == m[rest..]
    && rest <= Room(was, id, pglast)
  }

  lemma FillingStep(was: Db, db: Db, m: seq<Id>, headId: int, pglast: int, id: int, rest: int, len: int)
    requires Filling(was, db, m, headId, pglast, id, rest) && id in db && headId <= id <= pglast
    requires id in was && len == if was[id].room > rest then rest else was[id].room
    ensures Filling(was, db[id := Rec(len, m[rest - len..rest])], m, headId, pglast, id + 1, rest - len)
  {
    var db' := db[id := Rec(len, m[rest - len..rest])];
    JoinedSame(db, db', headId, id - 1);
    assert m[rest - len..] == m[rest - len..rest] + m[rest..];
    RoomLow(was, id, pglast);
    RoomNonneg(was, id + 1, pglast);
  }

  lemma {:induction false} RoomNonneg(db: Db, lo: int, hi: int)
    requires forall k :: lo <= k <= hi && k in db ==> 0 <= db[k].room
    ensures 0 <= Room(db, lo, hi)
    decreases hi - lo + 1
  {
    if lo <= hi { RoomNonneg(db, lo, hi - 1); }
  }

  lemma StartReserved(db: Db)
    requires forall k :: k in db ==> 1 <= k
    ensures Reserved(db, 0, 0, 0, 0)
  {
    assert Room(db, 0, -1) == 0;
  }

  lemma FillingSkip(db: Db, m: seq<Id>, headId: int, pglast: int, rest: int)
    requires Filling(db, db, m, headId, pglast, headId, rest) && headId !in db && headId <= pglast
    requires forall k :: headId < k <= pglast ==> k in db
    ensures Filling(db, db, m, headId, pglast, headId + 1, rest)
  {
    RoomLow(db, headId, pglast);
    assert Joined(db, headId, headId - 1) == [];
    assert Joined(db, headId, headId) == [] + [];
  }

  /** While ids are left there is a record to fill, and its key is not above pglast. */
  lemma FillingHere(was: Db, db: Db, m: seq<Id>, headId: int, pglast: int, id: int, rest: int)
    requires Filling(was, db, m, headId, pglast, id, rest) && 0 < rest && AllThere(was, id, pglast)
    ensures AllThere(was, id + 1, pglast) && headId <= id <= pglast && id in db && id in was && db[id] == was[id]
    ensures 0 <= db[id].room && rest <= |m|
  {
  }

  lemma FillingDone(was: Db, db: Db, m: seq<Id>, headId: int, pglast: int, id: int)
    requires Filling(was, db, m, headId, pglast, id, 0) && forall k :: k in was && headId <= k <= pglast ==>
            was[k].ids == []
    ensures Filled(was, db, m, headId, pglast)
  {
    JoinedEmpty(db, headId, id - 1, pglast);
    assert m[0..] == m;
  }

  /** The records headId .. pglast together hold the list m, the lowest ids in the lowest
      key; those not needed hold nothing, and the other records are as before. */
  ghost predicate Filled(was: Db, db: Db, m: seq<Id>, headId: int, pglast: int) {
    && db.Keys == was.Keys
    && Joined(db, headId, pglast) == m
    && (forall k :: k in db && headId <= k <= pglast ==> |db[k].ids| <= was[k].room)
    && (forall k :: k in db && !(headId <= k <= pglast) ==> db[k] == was[k])
  }

  lemma FillingStart(db: Db, m: seq<Id>, headId: int, pglast: int, headRoom: int, totalRoom: int)
    requires Reserved(db, headId, pglast, headRoom, totalRoom) && |m| <= totalRoom
    ensures Filling(db, db, m, headId, pglast, headId, |m|)
  {
  }

  lemma NothingToFill(db: Db, headId: int, pglast: int, headRoom: int, totalRoom: int)
    requires Reserved(db, headId, pglast, headRoom, totalRoom)
    ensures Filled(db, db, [], headId, pglast)
  {
    JoinedEmpty(db, headId, headId - 1, pglast);
  }

  /** Cut the free-page list into the reserved records, lowest key first, from the end. */
  method FillRecords(db0: Db, mop: array<Id>, headId: int, pglast: int, ghost headRoom: int, ghost totalRoom: int)
    returns (db: Db)
    requires ValidIdl(mop) && Reserved(db0, headId, pglast, headRoom, totalRoom) && 0 < mop[0] <= totalRoom
    modifies mop
    ensures mop[..] == old(mop[..]) && Filled(db0, db, old(Elems(mop)), headId, pglast)
  {
    hide Filling, Filled, Ids, Reserved, AllThere, Joined, Room;
    ghost var m := Elems(mop);
    db := db0;
    var rest, id := mop[0], headId;
    FillingBegin(db, m, headId, pglast, headRoom, totalRoom);
    if id !in db { id := id + 1; }                   // mdb_cursor_first
    while rest != 0
      invariant 0 <= rest && mop[..] == old(mop[..]) && Filling(db0, db, m, headId, pglast, id, rest)
      invariant AllThere(db0, id, pglast)
      decreases rest, pglast - id
    {
      FillingHere(db0, db, m, headId, pglast, id, rest);
      var len := db[id].room;
      if len > rest { len := rest; }
      var ids := CutRecord(mop, rest, len);
      FillingStep(db0, db, m, headId, pglast, id, rest, len);
      db := db[id := Rec(len, ids)];
      rest := rest - len;
      id := id + 1;                                  // mdb_cursor_next
    }
    FillingEnd(db0, db, m, headId, pglast, headRoom, totalRoom, id);
  }

  ghost predicate AllThere(db: Db, id: int, pglast: int) { forall k :: id <= k <= pglast ==> k in db }

  lemma FillingBegin(db: Db, m: seq<Id>, headId: int, pglast: int, headRoom: int, totalRoom: int)
    requires Reserved(db, headId, pglast, headRoom, totalRoom) && 0 < |m| <= totalRoom
    ensures var id := if headId in db then headId else headId + 1;
            Filling(db, db, m, headId, pglast, id, |m|) && AllThere(db, id, pglast)
  {
    FillingStart(db, m, headId, pglast, headRoom, totalRoom);
    assert pglast == 0 ==> totalRoom == Room(db, 0, 0) == if 0 in db then db[0].room else 0;
    if headId !in db { FillingSkip(db, m, headId, pglast, |m|); }
  }

  lemma FillingEnd(was: Db, db: Db, m: seq<Id>, headId: int, pglast: int, headRoom: int, totalRoom: int, id: int)
    requires Filling(was, db, m, headId, pglast, id, 0) && Reserved(was, headId, pglast, headRoom, totalRoom)
    ensures Filled(was, db, m, headId, pglast)
  {
    FillingDone(was, db, m, headId, pglast, id);
  }

  /** A record above pglast is none of the reserved ones. */
  lemma PutHigh(db: Db, k: int, r: Rec, headId: int, pglast: int, headRoom: int, totalRoom: int)
    requires Reserved(db, headId, pglast, headRoom, totalRoom) && pglast < k
    ensures Reserved(db[k := r], headId, pglast, headRoom, totalRoom)
  {
    RoomSame(db, db[k := r], headId, pglast);
  }

  /** Writing the head record, the lowest one or a new one below it. */
  lemma PutHead(db: Db, headId0: int, headId: int, room: int, pglast: int, headRoom0: int, totalRoom0: int)
    requires Reserved(db, headId0, pglast, headRoom0, totalRoom0) && 0 < pglast && 1 <= headId && 0 <= room
    requires headId == headId0 || (headId == headId0 - 1 && headId0 in db)
    ensures Reserved(db[headId := Rec(room, [])], headId, pglast, room,
                     totalRoom0 + room - if headId == headId0 then headRoom0 else 0)
  {
    var db' := db[headId := Rec(room, [])];
    RoomLow(db', headId, pglast);
    RoomSame(db, db', headId + 1, pglast);
    if headId == headId0 { RoomLow(db, headId0, pglast); }
  }

  /** Deleting the first record leaves none at or below its key. */
  lemma DeleteFirst(db: Db, key: int)
    requires IsFirst(db.Keys, key) && 1 <= key
    ensures Reserved(db - {key}, key, key, 0, 0)
  {
    assert Room(db - {key}, key, key - 1) == 0;
  }

  lemma KeptMono(was: Db, db: Db, pglast: int, txnid: int)
    requires UnreadKept(was, db, pglast, txnid)
    ensures forall p :: pglast <= p ==> UnreadKept(was, db, p, txnid)
  {
  }

  lemma KeptDelete(was: Db, db: Db, pglast: int, txnid: int, key: int)
    requires UnreadKept(was, db, pglast, txnid) && key <= pglast
    ensures UnreadKept(was, db - {key}, pglast, txnid)
  {
  }

  lemma KeptPut(was: Db, db: Db, pglast: int, txnid: int, k: int, r: Rec)
    requires UnreadKept(was, db, pglast, txnid) && (k <= pglast || k == txnid)
    ensures UnreadKept(was, db[k := r], pglast, txnid)
  {
  }

  /** Sorting keeps the ids. */
  lemma SortedIds(s: seq<Id>, t: seq<Id>)
    requires Ids(s) && multiset(t) == multiset(s)
    ensures Ids(t)
  {
    forall k | 0 <= k < |t| ensures 0 <= t[k] <= ID_MAX {
      assert t[k] in multiset(t);
      assert t[k] in s;
    }
  }

  // ---- what the saved records list ----

  lemma {:induction false} JoinedMember(db: Db, lo: int, hi: int, p: Id)
    ensures p in Joined(db, lo, hi) <==> exists k :: lo <= k <= hi && k in db && p in db[k].ids
    decreases hi - lo + 1
  {
    if lo <= hi {
      JoinedMember(db, lo, hi - 1, p);
      if hi in db && p in db[hi].ids { assert lo <= hi <= hi; }
      if k :| lo <= k <= hi && k in db && p in db[k].ids {
        if k < hi { assert lo <= k <= hi - 1 && k in db && p in db[k].ids; }
      }
    }
  }

  /** The cuts of a strictly descending list descend strictly and share no id. */
  lemma {:induction false} JoinedStrict(db: Db, lo: int, hi: int, k: int, j: int)
    requires StrictDesc(Joined(db, lo, hi)) && lo <= k <= hi && k in db
    ensures StrictDesc(db[k].ids)
    ensures lo <= j < k && j in db ==> forall p :: p in db[j].ids ==> p !in db[k].ids
    decreases hi - lo + 1
  {
    var rest := Joined(db, lo, hi - 1);
    var first := if hi in db then db[hi].ids else [];
    StrictParts(first, rest);
    if k < hi {
      JoinedStrict(db, lo, hi - 1, k, j);
    } else if lo <= j < k && j in db {
      forall p | p in db[j].ids ensures p !in db[k].ids {
        JoinedMember(db, lo, hi - 1, p);
      }
    }
  }

  lemma StrictParts(s: seq<Id>, t: seq<Id>)
    requires StrictDesc(s + t)
    ensures StrictDesc(s) && StrictDesc(t) && forall p :: p in t ==> p !in s
  {
    var r := s + t;
    forall i, j | 0 <= i < |s| && 0 <= j < |t| ensures s[i] > t[j] {
      assert r[i] > r[|s| + j];
    }
    forall i, j | 0 <= i < j < |t| ensures t[i] > t[j] {
      assert r[|s| + i] > r[|s| + j];
    }
    forall i, j | 0 <= i < j < |s| ensures s[i] > s[j] {
      assert r[i] > r[j];
    }
  }

  function Pages(s: seq<Id>): set<int> { set p | p in s }

  /** The records up to pglast, as sets of pages. */
  function Low(db: Db, pglast: int): map<int, set<int>> {
    map k | k in db && k <= pglast :: Pages(db[k].ids)
  }

  lemma LowMember(db: Db, headId: int, pglast: int, p: Id)
    requires forall k :: k in db && k <= pglast ==> headId <= k
    ensures p in Joined(db, headId, pglast) <==> exists k :: k in Low(db, pglast) && p in Low(db, pglast)[k]
  {
    var low := Low(db, pglast);
    JoinedMember(db, headId, pglast, p);
    if k :| headId <= k <= pglast && k in db && p in db[k].ids {
      assert k in low && p in low[k];
    }
    if k :| k in low && p in low[k] {
      assert headId <= k <= pglast && k in db && p in db[k].ids;
    }
  }

  /** The filled records are what the commit protocol asks of a free-list save: valid keys,
      no page twice, and exactly the pages of the free-page list and the loose list. */
  lemma FilledSavesHead(was: Db, db: Db, m: seq<Id>, headId: int, headRoom: int, totalRoom: int, w: MvccState.Writer)
    requires Reserved(was, headId, w.pglast, headRoom, totalRoom) && Filled(was, db, m, headId, w.pglast)
    requires StrictDesc(m) && Pages(m) == w.head + w.loose && forall k :: k in was ==> 1 <= k
    ensures MvccState.SavesHead(Low(db, w.pglast), w)
    ensures forall k :: k in db && k <= w.pglast ==> StrictDesc(db[k].ids)
  {
    var low := Low(db, w.pglast);
    forall k | k in db && k <= w.pglast ensures StrictDesc(db[k].ids) {
      JoinedStrict(db, headId, w.pglast, k, k);
    }
    forall p ensures p in w.head + w.loose <==> exists k :: k in low && p in low[k] {
      LowMember(db, headId, w.pglast, p);
      assert p in w.head + w.loose <==> p in Pages(m);
    }
    forall k1, k2 | k1 in low && k2 in low && k1 < k2 ensures low[k1] !! low[k2] {
      JoinedStrict(db, headId, w.pglast, k2, k1);
      forall p | p in low[k1] ensures p !in low[k2] {
        assert p in db[k1].ids;
      }
    }
  }

  /** The freeDB as the protocol sees it. */
  function AsSets(db: Db): map<int, set<int>> { map k | k in db :: Pages(db[k].ids) }

  /** The freeDB after the reserve loop: unread records are as the writer w found them, in `read`,
      and the pages it freed have a record of their own. */
  ghost predicate Prepared(read: Db, was: Db, w: MvccState.Writer) {
    && (forall k :: k in w.base.recs ==> 1 <= k < w.txnid && k in read && w.base.recs[k] == Pages(read[k].ids))
    && (forall k :: k in read && k < w.txnid ==> k in w.base.recs)
    && UnreadKept(read, was, w.pglast, w.txnid) && w.pglast < w.txnid
    && (forall k :: k in was ==> 1 <= k <= w.txnid)
    && (w.freed == {} <==> w.txnid !in was) && (w.txnid in was ==> Pages(was[w.txnid].ids) == w.freed)
  }

  /** What Saver.Reserve leaves is prepared, if w started from the same records and freed the
      same pages. */
  lemma ReserveDone(saver: Saver, w: MvccState.Writer)
    requires saver.Valid() && saver.txnid == w.txnid && saver.mePglast == w.pglast
    requires saver.bag == multiset{} <==> saver.txnid !in saver.db
    requires saver.txnid in saver.db ==> multiset(saver.db[saver.txnid].ids) == saver.bag
    requires forall p :: p in w.freed <==> p in saver.bag
    requires forall k :: k in w.base.recs <==> k in saver.was && k < w.txnid
    requires forall k :: k in w.base.recs ==> 1 <= k && w.base.recs[k] == Pages(saver.was[k].ids)
    ensures Prepared(saver.was, saver.db, w)
  {
    hide Ids;
    if w.txnid in saver.db {
      var ids := saver.db[w.txnid].ids;
      forall p ensures p in Pages(ids) <==> p in w.freed {
        assert p in ids <==> p in multiset(ids);
      }
    }
    assert w.freed == {} <==> saver.bag == multiset{} by {
      if w.freed == {} { assert forall p :: p !in saver.bag; }
      if saver.bag == multiset{} { assert forall p :: p !in w.freed; }
    }
  }

  /** The whole save: the final freeDB is the one a save of the commit protocol leaves. */
  lemma SavedIsStep(read: Db, was: Db, db: Db, m: seq<Id>, headId: int, headRoom: int, totalRoom: int,
      w: MvccState.Writer)
    requires Reserved(was, headId, w.pglast, headRoom, totalRoom) && Filled(was, db, m, headId, w.pglast)
    requires StrictDesc(m) && Pages(m) == w.head + w.loose && Prepared(read, was, w)
    ensures MvccState.SavesHead(Low(db, w.pglast), w)
    ensures AsSets(db) == MvccState.SavedRecs(Low(db, w.pglast), w)
  {
    FilledSavesHead(was, db, m, headId, headRoom, totalRoom, w);
    hide StrictDesc, Joined, MvccState.SavesHead, Pages;
    var a, b := AsSets(db), MvccState.SavedRecs(Low(db, w.pglast), w);
    forall k ensures (k in a <==> k in b) && (k in a ==> a[k] == b[k]) {
      if k <= w.pglast {
      } else if k < w.txnid {
        assert k in db <==> k in w.base.recs;
      }
    }
  }
}
