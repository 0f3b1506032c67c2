/** The stack of a cursor: where it stands among all entries. */
module CursorStack {
  import opened ByteOrder
  import opened PageNodes
  import opened BTree
  import opened Rebalance

  /** A page on the way down, and the place taken on it. */
  datatype Frame = Frame(page: Tree, ki: int)
  type Stack = seq<Frame>

  /** Frame i leads to page p. */
  ghost predicate LeadsTo(f: Frame, p: Tree) {
    f.page.BranchPage? && 0 <= f.ki < |f.page.kids| && f.page.kids[f.ki] == p
  }

  ghost predicate StackOk(s: Stack, t: Tree, d: nat) {
    && 0 < |s| <= d + 1 && s[0].page == t && Weak(t, d) && Sorted(InOrder(t))
    && (forall i, j :: 0 <= i && j == i + 1 && j < |s| ==> LeadsTo(s[i], s[j].page))
  }

  function Top(s: Stack): Frame
    requires s != []
  {
    s[|s| - 1]
  }

  function Pop(s: Stack): Stack
    requires s != []
  {
    s[..|s| - 1]
  }

  /** The entries before the page on top. */
  ghost function Offset(s: Stack): nat {
    if |s| <= 1 || !Top(Pop(s)).page.BranchPage? || !(0 <= Top(Pop(s)).ki <= |Top(Pop(s)).page.kids|) then 0
    else Offset(Pop(s)) + |Below(Top(Pop(s)).page.kids[..Top(Pop(s)).ki])|
  }

  lemma PopOk(s: Stack, t: Tree, d: nat)
    requires StackOk(s, t, d) && 1 < |s|
    ensures StackOk(Pop(s), t, d) && LeadsTo(Top(Pop(s)), Top(s).page)
    ensures Offset(s) == Offset(Pop(s)) + |Below(Top(Pop(s)).page.kids[..Top(Pop(s)).ki])|
  {
    hide Weak, Sorted, LeadsTo;
    var p := Pop(s);
    forall i, j | 0 <= i && j == i + 1 && j < |p| ensures LeadsTo(p[i], p[j].page) {
      assert LeadsTo(s[i], s[j].page);
    }
    assert LeadsTo(s[|s| - 2], s[|s| - 1].page);
    LeadsFacts(s[|s| - 2], s[|s| - 1].page);
  }

  lemma LeadsFacts(f: Frame, p: Tree)
    requires LeadsTo(f, p)
    ensures f.page.BranchPage? && 0 <= f.ki < |f.page.kids| && f.page.kids[f.ki] == p
  {
  }

  /** Going down to child ki of the page on top. */
  lemma PushOk(s: Stack, t: Tree, d: nat, f: Frame)
    requires StackOk(s, t, d) && |s| <= d && LeadsTo(Top(s), f.page)
    ensures StackOk(s + [f], t, d) && Pop(s + [f]) == s
    ensures Offset(s + [f]) == Offset(s) + |Below(Top(s).page.kids[..Top(s).ki])|
  {
    hide Weak, Sorted;
    var r := s + [f];
    assert Pop(r) == s;
    forall i, j | 0 <= i && j == i + 1 && j < |r| ensures LeadsTo(r[i], r[j].page) {
      if j < |s| { assert LeadsTo(s[i], s[j].page); }
    }
  }

  /** Another place on the page on top. */
  lemma MoveOk(s: Stack, t: Tree, d: nat, ki: int)
    requires StackOk(s, t, d)
    ensures var s' := Pop(s) + [Top(s).(ki := ki)]; StackOk(s', t, d) && Offset(s') == Offset(s)
  {
    hide Weak, Sorted, LeadsTo, InOrder, Below;
    var s' := Pop(s) + [Top(s).(ki := ki)];
    assert Pop(s') == Pop(s);
    assert forall i :: 0 <= i < |s| ==> s'[i].page == s[i].page;
    forall i, j | 0 <= i && j == i + 1 && j < |s'| ensures LeadsTo(s'[i], s'[j].page) {
      assert s'[i] == s[i] && LeadsTo(s[i], s[j].page);
    }
  }

  /** The page on top is d + 1 - |s| levels above the leaves, and not empty below a root. */
  lemma {:induction false} LevelOk(s: Stack, t: Tree, d: nat)
    requires StackOk(s, t, d)
    ensures Weak(Top(s).page, d + 1 - |s|) && (1 < |s| ==> Strong(Top(s).page, d + 1 - |s|))
    decreases |s|
  {
    if 1 < |s| {
      PopOk(s, t, d);
      LevelOk(Pop(s), t, d);
    }
  }

  /** The entries of a child among those of its page. */
  lemma KidSlice(t: Tree, i: int)
    requires t.BranchPage? && 0 <= i < |t.kids|
    ensures InOrder(t) == Below(t.kids[..i]) + InOrder(t.kids[i]) + Below(t.kids[i + 1..])
    ensures Below(t.kids[..i + 1]) == Below(t.kids[..i]) + InOrder(t.kids[i])
  {
    InOrderBelow(t);
    hide InOrder, Below;
    assert t.kids == t.kids[..i] + ([t.kids[i]] + t.kids[i + 1..]);
    BelowPlus(t.kids[..i], [t.kids[i]] + t.kids[i + 1..]);
    BelowPlus([t.kids[i]], t.kids[i + 1..]);
    BelowOne(t.kids[i]);
    assert t.kids[..i + 1] == t.kids[..i] + [t.kids[i]];
    BelowPlus(t.kids[..i], [t.kids[i]]);
  }

  /** The entries of the page on top, among all. */
  ghost predicate SliceAt(all: seq<Node>, k: nat, part: seq<Node>) {
    k + |part| <= |all| && forall i :: 0 <= i < |part| ==> all[k + i] == part[i]
  }

  lemma SliceIn(all: seq<Node>, k: nat, a: seq<Node>, b: seq<Node>, c: seq<Node>)
    requires SliceAt(all, k, a + b + c)
    ensures SliceAt(all, k + |a|, b)
  {
    var part := a + b + c;
    forall i | 0 <= i < |b| ensures all[k + |a| + i] == b[i] {
      assert part[|a| + i] == b[i];
      assert all[k + (|a| + i)] == part[|a| + i];
    }
  }

  lemma {:induction false} TopSlice(s: Stack, t: Tree, d: nat)
    requires StackOk(s, t, d)
    ensures SliceAt(InOrder(t), Offset(s), InOrder(Top(s).page))
    decreases |s|
  {
    hide InOrder, Weak, Below;
    if 1 < |s| {
      PopOk(s, t, d);
      TopSlice(Pop(s), t, d);
      var f := Top(Pop(s));
      KidSlice(f.page, f.ki);
      SliceIn(InOrder(t), Offset(Pop(s)), Below(f.page.kids[..f.ki]), InOrder(f.page.kids[f.ki]),
        Below(f.page.kids[f.ki + 1..]));
    }
  }

  // ---- siblings ----

  datatype Option<T> = None | Some(value: T)

  /** No child is left on the page in the direction wanted. */
  predicate AtEnd(f: Frame, right: bool) { if right then f.ki + 1 >= NumKeys(f.page) else f.ki == 0 }

  function Step(f: Frame, right: bool): Frame { f.(ki := if right then f.ki + 1 else f.ki - 1) }

  /** The stack mdb_cursor_sibling leaves. */
  function Sibling(s: Stack, right: bool): Option<Stack> {
    if |s| < 2 then None
    else
      var up, f := Pop(s), Top(Pop(s));
      var found := if AtEnd(f, right) then Sibling(up, right) else Some(Pop(up) + [Step(f, right)]);
      if found.None? || found.value == [] then None
      else
        var g := Top(found.value);
        if g.page.BranchPage? && 0 <= g.ki < |g.page.kids| then
          var p := g.page.kids[g.ki];
          Some(found.value + [Frame(p, if right then 0 else NumKeys(p) - 1)])
        else None
  }

  /** The right sibling starts where the page on top ends; there is none after the last entry. */
  lemma {:induction false} RightSibling(s: Stack, t: Tree, d: nat)
    requires StackOk(s, t, d)
    ensures match Sibling(s, true)
            case None => Offset(s) + |InOrder(Top(s).page)| == |InOrder(t)|
            case Some(r) =>
              StackOk(r, t, d) && |r| == |s| && Top(r).ki == 0 &&
              Offset(r) == Offset(s) + |InOrder(Top(s).page)|
    decreases |s|
  {
    hide InOrder, Weak, Below, Sorted;
    if |s| > 1 {
      PopOk(s, t, d);
      var up, f := Pop(s), Top(Pop(s));
      KidSlice(f.page, f.ki);
      if f.ki + 1 >= NumKeys(f.page) {
        RightSibling(up, t, d);
        assert f.page.kids[f.ki + 1..] == [];
        BelowNone(f.page.kids[f.ki + 1..]);
        if Sibling(up, true).Some? {
          var r := Sibling(up, true).value;
          DownFirst(r, t, d);
        }
      } else {
        MoveOk(up, t, d, f.ki + 1);
        var r := Pop(up) + [f.(ki := f.ki + 1)];
        PushOk(r, t, d, Frame(f.page.kids[f.ki + 1], 0));
      }
    }
  }

  lemma BelowNone(kids: seq<Tree>)
    requires kids == []
    ensures Below(kids) == []
  {
  }

  /** Down to the first child. */
  lemma DownFirst(r: Stack, t: Tree, d: nat)
    requires StackOk(r, t, d) && |r| <= d && Top(r).ki == 0
    ensures Top(r).page.BranchPage? && Top(r).page.kids != []
    ensures var q := r + [Frame(Top(r).page.kids[0], 0)]; StackOk(q, t, d) && Offset(q) == Offset(r)
  {
    LevelOk(r, t, d);
    PushOk(r, t, d, Frame(Top(r).page.kids[0], 0));
    BelowNone(Top(r).page.kids[..0]);
  }

  /** The left sibling ends where the page on top starts; there is none before the first entry. */
  lemma {:induction false} LeftSibling(s: Stack, t: Tree, d: nat)
    requires StackOk(s, t, d)
    ensures match Sibling(s, false)
            case None => Offset(s) == 0
            case Some(r) =>
              && StackOk(r, t, d) && |r| == |s| && Top(r).ki == NumKeys(Top(r).page) - 1
              && Offset(r) + |InOrder(Top(r).page)| == Offset(s)
    decreases |s|
  {
    hide InOrder, Weak, Below, Sorted, LeadsTo;
    if |s| > 1 {
      PopOk(s, t, d);
      LeadsFacts(Top(Pop(s)), Top(s).page);
      hide Offset;
      var up, f := Pop(s), Top(Pop(s));
      if f.ki == 0 {
        LeftSibling(up, t, d);
        BelowNone(f.page.kids[..0]);
        if Sibling(up, false).Some? {
          var r := Sibling(up, false).value;
          DownLast(r, t, d);
        }
      } else {
        StepLeft(up, t, d);
      }
    }
  }

  /** To the child before. */
  lemma StepLeft(up: Stack, t: Tree, d: nat)
    requires StackOk(up, t, d) && |up| <= d && Top(up).page.BranchPage? && 0 < Top(up).ki < |Top(up).page.kids|
    ensures var f := Top(up);
            var p := f.page.kids[f.ki - 1];
            var q := Pop(up) + [f.(ki := f.ki - 1)] + [Frame(p, NumKeys(p) - 1)];
            && StackOk(q, t, d) && |q| == |up| + 1 && Top(q) == Frame(p, NumKeys(p) - 1)
            && Offset(q) + |InOrder(p)| == Offset(up) + |Below(f.page.kids[..f.ki])|
  {
    hide InOrder, Weak, Below, Sorted;
    var f := Top(up);
    var p := f.page.kids[f.ki - 1];
    MoveOk(up, t, d, f.ki - 1);
    var r := Pop(up) + [f.(ki := f.ki - 1)];
    assert Top(r) == f.(ki := f.ki - 1);
    KidSlice(f.page, f.ki - 1);
    PushOk(r, t, d, Frame(p, NumKeys(p) - 1));
  }

  lemma DownLast(r: Stack, t: Tree, d: nat)
    requires StackOk(r, t, d) && |r| <= d && Top(r).ki == NumKeys(Top(r).page) - 1
    ensures Top(r).page.BranchPage? && Top(r).page.kids != []
    ensures var p := Top(r).page.kids[Top(r).ki];
            var q := r + [Frame(p, NumKeys(p) - 1)];
            StackOk(q, t, d) && Offset(q) + |InOrder(p)| == Offset(r) + |InOrder(Top(r).page)|
  {
    LevelOk(r, t, d);
    var f := Top(r);
    var p := f.page.kids[f.ki];
    PushOk(r, t, d, Frame(p, NumKeys(p) - 1));
    hide InOrder, Weak, Below;
    KidSlice(f.page, f.ki);
    assert f.page.kids[f.ki + 1..] == [];
    BelowNone(f.page.kids[f.ki + 1..]);
  }

  /** The stack above the leaf after its own move leads down to a page again. */
  lemma UpperMoved(s: Stack, t: Tree, d: nat, right: bool, found: Stack)
    requires StackOk(s, t, d) && 1 < |s|
    requires var up, f := Pop(s), Top(Pop(s));
             if AtEnd(f, right) then Sibling(up, right) == Some(found) else found == Pop(up) + [Step(f, right)]
    ensures |found| == |s| - 1 && var g := Top(found);
            && g.page.BranchPage? && 0 <= g.ki < |g.page.kids|
            && Sibling(s, right) == Some(found + [Frame(g.page.kids[g.ki],
              if right then 0 else NumKeys(g.page.kids[g.ki]) - 1)])
  {
    PopOk(s, t, d);
    var up, f := Pop(s), Top(Pop(s));
    LeadsFacts(f, Top(s).page);
    hide InOrder, Below, Sorted, Weak, Offset, LeadsTo;
    if AtEnd(f, right) {
      if right { RightSibling(up, t, d); } else { LeftSibling(up, t, d); }
      LevelOk(found, t, d);
      BranchLevel(Top(found).page, d + 1 - |found|);
    } else {
      assert Top(found) == Step(f, right);
    }
  }

  lemma BranchLevel(t: Tree, d: nat)
    requires d > 0 && Weak(t, d)
    ensures t.BranchPage? && 0 < |t.kids|
  {
  }
}
