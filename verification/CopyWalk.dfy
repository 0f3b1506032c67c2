/** mdb_env_cwalk as it runs: an explicit stack of pages, whose child numbers are replaced by
    the new ones on the way back up. */
module CopyWalk {
  import opened ByteOrder
  import BTree
  import opened CompactCopy
  import M = MvccTheorems
  import MvccState

  /** A page on the stack, and the child being copied. */
  datatype Frame = Frame(page: Page, ki: int)

  /** The branch a frame stands for, and the new numbers of the children copied already. */
  datatype Level = Level(t: Tree, done: seq<int>)

  ghost predicate LevelOk(g: Level) {
    g.t.BranchPage? && |g.done| < |g.t.kids|
  }

  ghost predicate LevelsOk(gs: seq<Level>) { forall i :: 0 <= i < |gs| ==> LevelOk(gs[i]) }

  /** What the copy ends as, when child |done| of the lowest level was just given number r. */
  ghost function Resume(gs: seq<Level>, out: seq<Page>, r: int): Emitted
    requires LevelsOk(gs)
    decreases |gs|
  {
    if gs == [] then Emitted(out, r)
    else
      var g := gs[|gs| - 1];
      var e := EmitKids(g.t, |g.done| + 1, NUM_METAS + |out|);
      var p := NUM_METAS + |out + e.pages|;
      Resume(gs[..|gs| - 1], out + e.pages + [BranchPage(p, g.t.seps, g.done + [r] + e.roots)], p)
  }

  /** The same, when that child, t, is still to be copied. */
  ghost function Pending(gs: seq<Level>, out: seq<Page>, t: Tree): Emitted
    requires LevelsOk(gs)
  {
    var e := Emit(t, NUM_METAS + |out|);
    Resume(gs, out + e.pages, e.root)
  }

  lemma {:induction false} ResumeGrows(gs: seq<Level>, out: seq<Page>, r: int)
    requires LevelsOk(gs)
    ensures |out| <= |Resume(gs, out, r).pages|
    decreases |gs|
  {
    hide EmitKids;
    if gs != [] {
      var g := gs[|gs| - 1];
      var e := EmitKids(g.t, |g.done| + 1, NUM_METAS + |out|);
      var p := NUM_METAS + |out + e.pages|;
      ResumeGrows(gs[..|gs| - 1], out + e.pages + [BranchPage(p, g.t.seps, g.done + [r] + e.roots)], p);
    }
  }

  lemma LevelsPush(gs: seq<Level>, g: Level)
    requires LevelsOk(gs) && LevelOk(g)
    ensures LevelsOk(gs + [g]) && (gs + [g])[..|gs|] == gs && (gs + [g])[|gs|] == g
  {
  }

  /** The next child. */
  lemma ResumeNext(gs: seq<Level>, g: Level, out: seq<Page>, r: int)
    requires LevelsOk(gs) && LevelOk(g) && |g.done| + 1 < |g.t.kids|
    ensures LevelsOk(gs + [g]) && LevelsOk(gs + [g.(done := g.done + [r])])
    ensures Resume(gs + [g], out, r) == Pending(gs + [g.(done := g.done + [r])], out, g.t.kids[|g.done| + 1])
  {
    var i, next := |g.done| + 1, NUM_METAS + |out|;
    var g' := g.(done := g.done + [r]);
    LevelsPush(gs, g);
    LevelsPush(gs, g');
    var first := Emit(g.t.kids[i], next);
    var rest := EmitKids(g.t, i + 1, next + |first.pages|);
    assert EmitKids(g.t, i, next) == EmittedKids(first.pages + rest.pages, [first.root] + rest.roots);
    hide Emit, EmitKids;
    assert NUM_METAS + |out + first.pages| == next + |first.pages|;
    assert out + (first.pages + rest.pages) == (out + first.pages) + rest.pages;
    assert g.done + [r] + ([first.root] + rest.roots) == g'.done + [first.root] + rest.roots;
  }

  /** No child is left: the page itself is written. */
  lemma ResumeLast(gs: seq<Level>, g: Level, out: seq<Page>, r: int)
    requires LevelsOk(gs) && LevelOk(g) && |g.done| + 1 == |g.t.kids|
    ensures LevelsOk(gs + [g])
    ensures var p := NUM_METAS + |out|;
            Resume(gs + [g], out, r) == Resume(gs, out + [BranchPage(p, g.t.seps, g.done + [r])], p)
  {
    LevelsPush(gs, g);
    assert EmitKids(g.t, |g.done| + 1, NUM_METAS + |out|) == EmittedKids([], []);
    assert out + [] == out && g.done + [r] + [] == g.done + [r];
  }

  /** Down to the first child. */
  lemma PendingDown(gs: seq<Level>, out: seq<Page>, t: Tree)
    requires LevelsOk(gs) && t.BranchPage? && t.kids != []
    ensures LevelsOk(gs + [Level(t, [])])
    ensures Pending(gs, out, t) == Pending(gs + [Level(t, [])], out, t.kids[0])
  {
    var next, g := NUM_METAS + |out|, Level(t, []);
    LevelsPush(gs, g);
    var first := Emit(t.kids[0], next);
    var rest := EmitKids(t, 1, next + |first.pages|);
    var all := EmittedKids(first.pages + rest.pages, [first.root] + rest.roots);
    assert EmitKids(t, 0, next) == all;
    assert Emit(t, next) == Emitted(all.pages + [BranchPage(next + |all.pages|, t.seps, all.roots)],
      next + |all.pages|);
    hide Emit, EmitKids;
    assert NUM_METAS + |out + first.pages| == next + |first.pages|;
    Assoc(out, first.pages, rest.pages);
    Assoc(out, all.pages, [BranchPage(next + |all.pages|, t.seps, all.roots)]);
    assert [] + [first.root] + rest.roots == all.roots;
  }

  lemma PendingLeaf(gs: seq<Level>, out: seq<Page>, items: seq<Item>)
    requires LevelsOk(gs)
    ensures var e := EmitItems(items, NUM_METAS + |out|);
            var p := NUM_METAS + |out + e.pages|;
            Pending(gs, out, BTree.LeafPage(items)) == Resume(gs, out + e.pages + [LeafPage(p, e.slots)], p)
  {
    var next := NUM_METAS + |out|;
    var e := EmitItems(items, next);
    assert Emit(BTree.LeafPage(items), next) == Emitted(e.pages + [LeafPage(next + |e.pages|, e.slots)],
      next + |e.pages|);
    hide EmitItems, Emit;
    Assoc(out, e.pages, [LeafPage(next + |e.pages|, e.slots)]);
  }

  // ---- the stack ----

  /** The frame's page is the level's branch: new numbers up to `fresh`, old ones after. */
  ghost predicate Stands(src: File, f: Frame, g: Level, news: seq<int>) {
    && LevelOk(g) && f.page.BranchPage? && f.page.seps == g.t.seps && |f.page.kids| == |g.t.kids|
    && f.ki == |g.done| && |news| <= |g.t.kids| && f.page.kids[..|news|] == news
    && forall j :: |news| <= j < |g.t.kids| ==> Repr(src, f.page.kids[j], g.t.kids[j])
  }

  /** The frames that wait for a page below them. */
  ghost predicate Waiting(src: File, stack: seq<Frame>, gs: seq<Level>) {
    |stack| == |gs| && LevelsOk(gs) && forall i :: 0 <= i < |gs| ==> Stands(src, stack[i], gs[i], gs[i].done)
  }

  lemma WaitingPush(src: File, stack: seq<Frame>, gs: seq<Level>, f: Frame, g: Level)
    requires Waiting(src, stack, gs) && Stands(src, f, g, g.done)
    ensures Waiting(src, stack + [f], gs + [g])
  {
  }

  lemma WaitingPop(src: File, stack: seq<Frame>, gs: seq<Level>)
    requires Waiting(src, stack, gs) && gs != []
    ensures Waiting(src, stack[..|stack| - 1], gs[..|gs| - 1])
    ensures Stands(src, stack[|stack| - 1], gs[|gs| - 1], gs[|gs| - 1].done)
  {
  }

  /** mdb_page_get, and its number. */
  lemma PageOf(src: File, pg: int, t: Tree)
    requires Repr(src, pg, t)
    ensures 0 <= pg < |src| && src[pg].pgno == pg
    ensures t.LeafPage? ==> src[pg].LeafPage? && |src[pg].slots| == |t.nodes| && forall i :: 0 <= i < |t.nodes| ==>
            SlotOk(src, src[pg].slots[i], t.nodes[i])
    ensures t.BranchPage? ==> Stands(src, Frame(src[pg], 0), Level(t, []), []) && t.kids != []
  {
  }

  /** Push pages down to the first leaf below page pg. */
  method Descend(src: File, stack0: seq<Frame>, pg0: int, ghost gs0: seq<Level>, ghost t0: Tree, ghost out: seq<Page>)
    returns (stack: seq<Frame>, leaf: Page, ghost gs: seq<Level>, ghost t: Tree)
    requires Waiting(src, stack0, gs0) && Repr(src, pg0, t0)
    ensures Waiting(src, stack, gs) && t.LeafPage? && LevelsOk(gs) && LevelsOk(gs0)
    ensures leaf.LeafPage? && |leaf.slots| == |t.nodes| && forall i :: 0 <= i < |t.nodes| ==>
            SlotOk(src, leaf.slots[i], t.nodes[i])
    ensures Pending(gs, out, t) == Pending(gs0, out, t0)
  {
    hide Repr, Pending, Stands, SlotOk;
    stack, gs, t := stack0, gs0, t0;
    var pg := pg0;
    PageOf(src, pg, t);
    var mp := src[pg];
    while mp.BranchPage?
      invariant Waiting(src, stack, gs) && Repr(src, pg, t) && 0 <= pg < |src| && mp == src[pg]
      invariant Pending(gs, out, t) == Pending(gs0, out, t0)
      decreases t
    {
      PageOf(src, pg, t);
      LeafOrBranch(src, pg, t);
      FirstChild(src, mp, t);
      WaitingPush(src, stack, gs, Frame(mp, 0), Level(t, []));
      PendingDown(gs, out, t);
      stack, gs := stack + [Frame(mp, 0)], gs + [Level(t, [])];
      pg := mp.kids[0];
      t := t.kids[0];
      PageOf(src, pg, t);
      mp := src[pg];
    }
    LeafOrBranch(src, pg, t);
    PageOf(src, pg, t);
    leaf := mp;
  }

  lemma LeafOrBranch(src: File, pg: int, t: Tree)
    requires Repr(src, pg, t) && 0 <= pg < |src|
    ensures src[pg].BranchPage? <==> t.BranchPage?
  {
  }

  lemma FirstChild(src: File, mp: Page, t: Tree)
    requires t.BranchPage? && Stands(src, Frame(mp, 0), Level(t, []), [])
    ensures mp.BranchPage? && mp.kids != [] && t.kids != [] && Repr(src, mp.kids[0], t.kids[0])
  {
  }

  /** The overflow pages of a leaf are copied before it, and its slots get their new numbers. */
  method CopyItems(src: File, leaf: Page, next0: int, ghost items: seq<Item>)
    returns (pages: seq<Page>, slots: seq<Slot>, next: int)
    requires leaf.LeafPage? && |leaf.slots| == |items| && forall i :: 0 <= i < |items| ==>
            SlotOk(src, leaf.slots[i], items[i])
    ensures EmitItems(items, next0) == EmittedItems(pages, slots) && next == next0 + |pages|
  {
    pages, slots, next := [], [], next0;
    var i := 0;
    while i < |leaf.slots|
      invariant 0 <= i <= |items| && EmitItems(items[..i], next0) == EmittedItems(pages, slots)
      invariant next == next0 + |pages|
    {
      assert SlotOk(src, leaf.slots[i], items[i]);
      assert items[..i + 1][..i] == items[..i];
      match leaf.slots[i] {
        case InLeaf(_, _) =>
          slots := slots + [leaf.slots[i]];
        case OnPage(key, pg) =>
          var omp := src[pg];
          slots := slots + [OnPage(key, next)];
          pages := pages + ([OverPage(next, omp.len, omp.val)] + Tails(omp.len - 1));
          next := next + omp.len;
      }
      assert pages == EmitItems(items[..i], next0).pages + EmitItem(items[i],
        next0 + |EmitItems(items[..i], next0).pages|).pages;
      i := i + 1;
    }
    assert items[..i] == items;
  }

  /** The child below the frame got its new number. */
  lemma Renumber(src: File, f: Frame, g: Level, r: int)
    requires Stands(src, f, g, g.done)
    ensures 0 <= f.ki < |f.page.kids|
    ensures var f' := f.(page := f.page.(kids := f.page.kids[f.ki := r])); Stands(src, f', g, g.done + [r])
  {
    var kids, news := f.page.kids[f.ki := r], g.done + [r];
    assert kids[..|news|] == news;
  }

  /** On to the next child, or none is left. */
  lemma NextChild(src: File, f: Frame, g: Level, r: int)
    requires Stands(src, f, g, g.done + [r])
    ensures f.page.BranchPage? && |f.page.kids| == |g.t.kids| && f.ki == |g.done| && f.page.seps == g.t.seps
    ensures f.ki + 1 < |f.page.kids| ==>
              var g' := g.(done := g.done + [r]);
              Stands(src, f.(ki := f.ki + 1), g', g'.done) && Repr(src, f.page.kids[f.ki + 1], g.t.kids[f.ki + 1])
    ensures f.ki + 1 == |f.page.kids| ==> f.page.kids == g.done + [r]
  {
    if f.ki + 1 == |f.page.kids| { assert f.page.kids[..|f.page.kids|] == f.page.kids; }
  }

  lemma PendingAll(t: Tree)
    ensures Pending([], [], t) == Emit(t, NUM_METAS)
  {
    assert [] + Emit(t, NUM_METAS).pages == Emit(t, NUM_METAS).pages;
  }

  /** A frame whose child was just copied. */
  ghost predicate Back(src: File, stack: seq<Frame>, gs: seq<Level>, r: int) {
    && stack != [] && |gs| == |stack| && Waiting(src, stack[..|stack| - 1], gs[..|gs| - 1])
    && Stands(src, stack[|stack| - 1], gs[|gs| - 1], gs[|gs| - 1].done + [r])
  }

  lemma BackLevels(src: File, stack: seq<Frame>, gs: seq<Level>, r: int)
    requires Back(src, stack, gs, r)
    ensures LevelsOk(gs) && gs == gs[..|gs| - 1] + [gs[|gs| - 1]] && LevelOk(gs[|gs| - 1])
  {
  }

  /** Give the page on top its number: the frame above refers to it from now on. */
  lemma HandUp(src: File, stack: seq<Frame>, gs: seq<Level>, r: int)
    requires Waiting(src, stack, gs) && stack != []
    ensures var f := stack[|stack| - 1];
            && f.page.BranchPage? && 0 <= f.ki < |f.page.kids| && |stack| == |gs|
            && Back(src, stack[|stack| - 1 := f.(page := f.page.(kids := f.page.kids[f.ki := r]))], gs, r)
  {
    hide Stands;
    WaitingPop(src, stack, gs);
    var f, n := stack[|stack| - 1], |stack| - 1;
    Renumber(src, f, gs[n], r);
    StandsBranch(src, f, gs[n]);
    var stack' := stack[n := f.(page := f.page.(kids := f.page.kids[f.ki := r]))];
    assert stack'[..n] == stack[..n];
  }

  lemma StandsBranch(src: File, f: Frame, g: Level)
    requires Stands(src, f, g, g.done)
    ensures f.page.BranchPage?
  {
  }

  /** The iterative walk writes exactly the pages of the recursive copy. */
  method Walk(src: File, root: int, ghost t: Tree) returns (out: seq<Page>, newRoot: int)
    requires Repr(src, root, t)
    ensures Emitted(out, newRoot) == Emit(t, NUM_METAS)
  {
    hide Repr, Stands, Pending, Emit, EmitItems, SlotOk, Resume, Waiting, Back;
    out := [];
    var next := NUM_METAS;
    ghost var gs, cur, r := [], t, 0;
    var stack, leaf := [], Tail;
    WaitingNone(src);
    stack, leaf, gs, cur := Descend(src, [], root, [], t, out);
    PendingAll(t);
    ghost var final := Emit(t, NUM_METAS);
    var atLeaf := true;
    while true
      invariant LevelsOk(gs) && next == NUM_METAS + |out|
      invariant atLeaf ==> Waiting(src, stack, gs) && Pending(gs, out, cur) == final
      invariant atLeaf ==> cur.LeafPage? && leaf.LeafPage? && |leaf.slots| == |cur.nodes|
      invariant atLeaf ==> forall i :: 0 <= i < |cur.nodes| ==> SlotOk(src, leaf.slots[i], cur.nodes[i])
      invariant !atLeaf ==> stack != [] && |stack| == |gs| && Back(src, stack, gs, r) && Resume(gs, out, r) == final
      invariant |out| <= |final.pages|
      decreases |final.pages| - |out|, if atLeaf then 0 else 1
    {
      var page;
      if atLeaf {
        var pages, slots;
        PendingLeaf(gs, out, cur.nodes);
        pages, slots, next := CopyItems(src, leaf, next, cur.nodes);
        out := out + pages;
        page := LeafPage(next, slots);
      } else {
        var f := stack[|stack| - 1];
        ghost var g, up := gs[|gs| - 1], gs[..|gs| - 1];
        BackLevels(src, stack, gs, r);
        BackNext(src, stack, gs, r);
        if f.ki + 1 < |f.page.kids| {
          ResumeNext(up, g, out, r);
          stack, leaf, gs, cur := Descend(src, stack[..|stack| - 1] + [f.(ki := f.ki + 1)], f.page.kids[f.ki + 1],
                                          up + [g.(done := g.done + [r])], g.t.kids[f.ki + 1], out);
          atLeaf := true;
          continue;
        }
        ResumeLast(up, g, out, r);
        page := BranchPage(next, f.page.seps, f.page.kids);
        stack, gs := stack[..|stack| - 1], up;
      }
      out := out + [page];
      var number := next;
      next := next + 1;
      ResumeGrows(gs, out, number);
      if stack == [] {
        newRoot := number;
        ResumeEnd(src, stack, gs, out, number);
        return;
      }
      HandUp(src, stack, gs, number);
      var parent := stack[|stack| - 1];
      stack := stack[|stack| - 1 := parent.(page := parent.page.(kids := parent.page.kids[parent.ki := number]))];
      r := number;
      atLeaf := false;
    }
  }

  lemma WaitingNone(src: File)
    ensures Waiting(src, [], []) && LevelsOk([])
  {
  }

  lemma ResumeEnd(src: File, stack: seq<Frame>, gs: seq<Level>, out: seq<Page>, r: int)
    requires Waiting(src, stack, gs) && stack == [] && LevelsOk(gs)
    ensures Resume(gs, out, r) == Emitted(out, r)
  {
  }

  /** The frame on top after its child was copied. */
  lemma BackNext(src: File, stack: seq<Frame>, gs: seq<Level>, r: int)
    requires Back(src, stack, gs, r)
    ensures var f, g := stack[|stack| - 1], gs[|gs| - 1];
            var rest, up := stack[..|stack| - 1], gs[..|gs| - 1];
            && f.page.BranchPage? && |f.page.kids| == |g.t.kids| && f.ki == |g.done| < |g.t.kids| &&
              f.page.seps == g.t.seps
            && Waiting(src, rest, up) && LevelsOk(up) && g.t.BranchPage?
            && (f.ki + 1 < |f.page.kids| ==>
                  Waiting(src, rest + [f.(ki := f.ki + 1)], up + [g.(done := g.done + [r])]) &&
                    Repr(src, f.page.kids[f.ki + 1], g.t.kids[f.ki + 1]))
            && (f.ki + 1 == |f.page.kids| ==> f.page.kids == g.done + [r])
  {
    var f, g := stack[|stack| - 1], gs[|gs| - 1];
    NextChild(src, f, g, r);
    hide Repr, Stands;
    if f.ki + 1 < |f.page.kids| {
      WaitingPush(src, stack[..|stack| - 1], gs[..|gs| - 1], f.(ki := f.ki + 1), g.(done := g.done + [r]));
    }
  }

  // ---- the whole copy ----

  const MDB_SUCCESS := 0
  const MDB_INCOMPATIBLE := -30784

  /** The pages of a tree, overflow pages included. */
  function PageCount(t: Tree): int
    decreases t, if t.BranchPage? then |t.kids| + 1 else 0
  {
    match t
    case LeafPage(items) => ItemPages(items) + 1
    case BranchPage(_, kids) => KidPages(t, 0) + 1
  }

  function ItemPages(items: seq<Item>): int {
    if items == [] then 0
    else
      var x := items[|items| - 1];
      ItemPages(items[..|items| - 1]) + if x.Big? then x.len else 0
  }

  function KidPages(t: Tree, i: nat): int
    requires t.BranchPage? && i <= |t.kids|
    decreases t, |t.kids| - i
  {
    if i == |t.kids| then 0 else PageCount(t.kids[i]) + KidPages(t, i + 1)
  }

  lemma {:induction false} ItemsCount(items: seq<Item>, next: int)
    requires ItemsOk(items)
    ensures |EmitItems(items, next).pages| == ItemPages(items)
    decreases |items|
  {
    if items != [] { ItemsCount(items[..|items| - 1], next); }
  }

  lemma {:induction false} EmitCount(t: Tree, next: int)
    requires TreeOk(t)
    ensures |Emit(t, next).pages| == PageCount(t)
    decreases t, if t.BranchPage? then |t.kids| + 1 else 0
  {
    match t
    case LeafPage(items) => ItemsCount(items, next);
    case BranchPage(_, _) => KidsCount(t, 0, next);
  }

  lemma {:induction false} KidsCount(t: Tree, i: nat, next: int)
    requires TreeOk(t) && t.BranchPage? && i <= |t.kids|
    ensures |EmitKids(t, i, next).pages| == KidPages(t, i)
    decreases t, |t.kids| - i
  {
    if i < |t.kids| {
      EmitCount(t.kids[i], next);
      KidsCount(t, i + 1, next + |Emit(t.kids[i], next).pages|);
    }
  }

  const P_INVALID := 0xFFFF_FFFF_FFFF_FFFF

  /** mdb_env_copyfd1: copy the main tree, and check that the last page came out where the
      page counts of the source said it would. An empty tree leaves just the meta pages. */
  method Copy(src: File, root: int, nextPgno: int, freecount: int, ghost t: Tree)
    returns (rc: int, file: File, newRoot: int)
    requires root != P_INVALID ==> Repr(src, root, t) && TreeOk(t)
    ensures root == P_INVALID ==> rc == MDB_SUCCESS && newRoot == P_INVALID && file == Placed([])
    ensures root != P_INVALID ==> Repr(file, newRoot, t) && newRoot == |file| - 1 == NUM_METAS + PageCount(t) - 1
    ensures root != P_INVALID ==> (rc == MDB_SUCCESS <==> PageCount(t) + freecount + NUM_METAS == nextPgno)
  {
    var out, predicted := [], if root != P_INVALID then nextPgno - 1 - freecount else root;
    newRoot := root;
    if root != P_INVALID {
      out, newRoot := Walk(src, root, t);
      ghost var none: seq<Page> := [];
      EmitRepr(t, none);
      EmitCount(t, NUM_METAS);
      assert none + out == out && NUM_METAS + |none| == NUM_METAS;
    }
    file := Placed(out);
    rc := if newRoot != predicted then MDB_INCOMPATIBLE else MDB_SUCCESS;
  }

  /** Every run of the commit protocol accounts for all pages, so the check of the copy passes
      on the published snapshot: t is its main tree, `freecount` counts the freeDB. */
  lemma PublishedCopies(ss: seq<MvccState.State>, ls: seq<MvccState.Label>, k: nat, t: Tree, freecount: int)
    requires M.IsRun(ss, ls) && k <= |ls| && |ss[k].metas| == 2
    requires var q := ss[k].metas[MvccState.SlotOf(ss[k].mti)].snap;
             |q.data| == PageCount(t) && freecount == |q.fdb| + M.SumSizes(q.recs)
    ensures PageCount(t) + freecount + NUM_METAS == ss[k].metas[MvccState.SlotOf(ss[k].mti)].snap.next
  {
    M.PagesConserved(ss, ls, k);
  }
}
