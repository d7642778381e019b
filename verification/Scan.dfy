/** In-order walks over a tree, in both directions, along the path. Interior
    cells are met on the way back up out of the subtree they close. */
module Scan {
  import opened Basics
  import opened Trees
  import opened Store
  import opened Descent

  function Reversed<X>(s: seq<X>): (r: seq<X>)
    ensures |r| == |s|
  {
    if |s| == 0 then [] else Reversed(s[1..]) + [s[0]]
  }

  lemma {:induction false} ReversedAppend<X>(a: seq<X>, b: seq<X>)
    ensures Reversed(a + b) == Reversed(b) + Reversed(a)
    decreases |a|
  {
    if |a| == 0 {
      assert a + b == b;
    } else {
      assert (a + b)[1..] == a[1..] + b;
      ReversedAppend(a[1..], b);
    }
  }

  lemma {:induction false} ReversedAt<X>(s: seq<X>, i: nat)
    requires i < |s|
    ensures Reversed(s)[i] == s[|s| - 1 - i]
    decreases |s|
  {
    if i < |s| - 1 { ReversedAt(s[1..], i); }
  }

  method ReverseList<X>(s: seq<X>) returns (r: seq<X>)
    ensures r == Reversed(s)
  {
    r := [];
    for i := 0 to |s|
      invariant r == Reversed(s[..i])
    {
      assert s[..i + 1] == s[..i] + [s[i]];
      ReversedAppend(s[..i], [s[i]]);
      assert Reversed([s[i]]) == [s[i]];
      r := [s[i]] + r;
    }
    assert s[..|s|] == s;
  }

  // ---- Moving about in a context ----

  /** Leaving a subtree for the page above it. */
  lemma AtUp<X>(m: map<PageId, Page<X>>, whole: Tree<X>, path: seq<Step>, c: Ctx<X>, t: Tree<X>, h: nat)
    requires At(m, whole, path, c, t, h) && c.Frame?
    ensures |path| > 0 && path[|path| - 1] == Step(c.id, |c.left|)
    ensures At(m, whole, path[..|path| - 1], c.up, Fill(c, t), h + 1)
    ensures m[c.id].InteriorPage? && Seps(m[c.id]) == c.cells && Children(m[c.id]) == KidIds(c.left) + [t.id] + KidIds(c.right)
    ensures |c.left| + |c.right| == |c.cells|
  {
    FillShape(c, t, h);
    FillShallow(c, t);
    RepsAppend(m, c.left + [t], c.right);
    RepsAppend(m, c.left, [t]);
    assert Reps(m, [t]) by { assert [t][1..] == []; }
  }

  ghost function NextSlot<X>(c: Ctx<X>, t: Tree<X>): Ctx<X>
    requires c.Frame? && |c.right| > 0
  {
    Frame(c.id, c.cells, c.left + [t], c.right[1..], c.up)
  }

  ghost function PrevSlot<X>(c: Ctx<X>, t: Tree<X>): Ctx<X>
    requires c.Frame? && |c.left| > 0
  {
    Frame(c.id, c.cells, c.left[..|c.left| - 1], [t] + c.right, c.up)
  }

  /** Moving to the child after, past the divider between them. */
  lemma AtNext<X>(m: map<PageId, Page<X>>, whole: Tree<X>, path: seq<Step>, c: Ctx<X>, t: Tree<X>, h: nat)
    requires At(m, whole, path, c, t, h) && c.Frame? && |c.right| > 0
    ensures |path| > 0 && |c.left| < |c.cells|
    ensures At(m, whole, path[|path| - 1 := Step(c.id, |c.left| + 1)], NextSlot(c, t), c.right[0], h)
  {
    AtUp(m, whole, path, c, t, h);
    var k := Fill(c, t);
    AtKid(m, whole, path[..|path| - 1], c.up, k, h + 1, |c.left| + 1);
    assert k.kids[..|c.left| + 1] == c.left + [t] && k.kids[|c.left| + 2..] == c.right[1..];
    assert Enter(c.up, k, |c.left| + 1) == NextSlot(c, t);
    assert path[..|path| - 1] + [Step(c.id, |c.left| + 1)] == path[|path| - 1 := Step(c.id, |c.left| + 1)];
  }

  lemma FlatNext<X>(c: Ctx<X>, t: Tree<X>)
    requires c.Frame? && |c.left| + |c.right| == |c.cells| && |c.right| > 0
    ensures FlatRight(c) == [c.cells[|c.left|]] + (Flat(c.right[0]) + FlatRight(NextSlot(c, t)))
  {
    assert c.cells[|c.left|..][1..] == c.cells[|c.left| + 1..];
  }

  lemma AtPrev<X>(m: map<PageId, Page<X>>, whole: Tree<X>, path: seq<Step>, c: Ctx<X>, t: Tree<X>, h: nat)
    requires At(m, whole, path, c, t, h) && c.Frame? && |c.left| > 0
    ensures |path| > 0 && |c.left| <= |c.cells|
    ensures At(m, whole, path[|path| - 1 := Step(c.id, |c.left| - 1)], PrevSlot(c, t), c.left[|c.left| - 1], h)
  {
    AtUp(m, whole, path, c, t, h);
    var k, i := Fill(c, t), |c.left| - 1;
    AtKid(m, whole, path[..|path| - 1], c.up, k, h + 1, i);
    assert k.kids[..i] == c.left[..i] && k.kids[i + 1..] == [t] + c.right;
    assert Enter(c.up, k, i) == PrevSlot(c, t);
    assert path[..|path| - 1] + [Step(c.id, i)] == path[|path| - 1 := Step(c.id, i)];
  }

  lemma FlatPrev<X>(c: Ctx<X>, t: Tree<X>)
    requires c.Frame? && 0 < |c.left| <= |c.cells|
    ensures FlatLeft(c) == FlatLeft(PrevSlot(c, t)) + Flat(c.left[|c.left| - 1]) + [c.cells[|c.left| - 1]]
  {
    var i := |c.left| - 1;
    assert c.cells[..i + 1] == c.cells[..i] + [c.cells[i]] && c.left == c.left[..i] + [c.left[i]];
    FlatBeforeAppend(c.cells[..i], c.left[..i], c.cells[i], c.left[i]);
    var x, y := FlatLeft(c.up), FlatBefore(c.cells[..i], c.left[..i]);
    Assoc(x, y + Flat(c.left[i]), [c.cells[i]]);
    Assoc(x, y, Flat(c.left[i]));
  }

  /** The first kid has nothing before it, the last nothing after it. */
  lemma EdgeKids<X>(c: Ctx<X>, t: Tree<X>, h: nat)
    requires t.TNode? && Shape(t, h)
    ensures FlatLeft(Enter(c, t, 0)) == FlatLeft(c)
    ensures Flat(t) + FlatRight(c) == Flat(t.kids[0]) + FlatRight(Enter(c, t, 0))
    ensures FlatRight(Enter(c, t, |t.cells|)) == FlatRight(c)
    ensures FlatLeft(c) + Flat(t) == FlatLeft(Enter(c, t, |t.cells|)) + Flat(t.kids[|t.cells|])
  {
    FirstKid(c, t, h);
    LastKid(c, t, h);
  }

  lemma FirstKid<X>(c: Ctx<X>, t: Tree<X>, h: nat)
    requires t.TNode? && Shape(t, h)
    ensures FlatLeft(Enter(c, t, 0)) == FlatLeft(c)
    ensures Flat(t) + FlatRight(c) == Flat(t.kids[0]) + FlatRight(Enter(c, t, 0))
  {
    var first, rest := t.kids[0], t.kids[1..];
    assert t.kids == [first] + rest && t.kids[..0] == [] && t.cells[..0] == [] && t.cells[0..] == t.cells;
    FlatFirst(t.cells, first, rest);
    EmptySides(FlatLeft(c));
    Assoc(Flat(first), FlatAfter(t.cells, rest), FlatRight(c));
  }

  lemma LastKid<X>(c: Ctx<X>, t: Tree<X>, h: nat)
    requires t.TNode? && Shape(t, h)
    ensures FlatRight(Enter(c, t, |t.cells|)) == FlatRight(c)
    ensures FlatLeft(c) + Flat(t) == FlatLeft(Enter(c, t, |t.cells|)) + Flat(t.kids[|t.cells|])
  {
    var n := |t.cells|;
    assert t.kids[n + 1..] == [] && t.cells[n..] == [] && t.cells[..n] == t.cells && t.kids[n..] == [t.kids[n]];
    FlatDrop(t.cells, t.kids, n);
    EmptySides(FlatRight(c));
    Assoc(FlatLeft(c), FlatBefore(t.cells, t.kids[..n]), Flat(t.kids[n]));
  }

  method DescendLeftmost<X>(s: PageStore<X>, path0: seq<Step>, page0: PageId,
      ghost whole: Tree<X>, ghost c0: Ctx<X>, ghost t0: Tree<X>, ghost h0: nat)
    returns (path: seq<Step>, page: PageId, ghost c: Ctx<X>, ghost leaf: Tree<X>)
    requires At(s.pages, whole, path0, c0, t0, h0) && page0 == t0.id
    ensures At(s.pages, whole, path, c, leaf, 0) && leaf.TLeaf? && page == leaf.id
    ensures FlatLeft(c) == FlatLeft(c0) && leaf.cells + FlatRight(c) == Flat(t0) + FlatRight(c0)
  {
    path, page, c, leaf := path0, page0, c0, t0;
    ghost var h := h0;
    while s.pages[page].InteriorPage?
      invariant page == leaf.id && At(s.pages, whole, path, c, leaf, h)
      invariant FlatLeft(c) == FlatLeft(c0) && Flat(leaf) + FlatRight(c) == Flat(t0) + FlatRight(c0)
      decreases h
    {
      EdgeKids(c, leaf, h);
      AtKid(s.pages, whole, path, c, leaf, h, 0);
      path := path + [Step(page, 0)];
      page := Children(s.pages[page])[0];
      c, leaf, h := Enter(c, leaf, 0), leaf.kids[0], h - 1;
    }
  }

  method DescendRightmost<X>(s: PageStore<X>, path0: seq<Step>, page0: PageId,
      ghost whole: Tree<X>, ghost c0: Ctx<X>, ghost t0: Tree<X>, ghost h0: nat)
    returns (path: seq<Step>, page: PageId, ghost c: Ctx<X>, ghost leaf: Tree<X>)
    requires At(s.pages, whole, path0, c0, t0, h0) && page0 == t0.id
    ensures At(s.pages, whole, path, c, leaf, 0) && leaf.TLeaf? && page == leaf.id
    ensures FlatRight(c) == FlatRight(c0) && FlatLeft(c) + leaf.cells == FlatLeft(c0) + Flat(t0)
  {
    path, page, c, leaf := path0, page0, c0, t0;
    ghost var h := h0;
    while s.pages[page].InteriorPage?
      invariant page == leaf.id && At(s.pages, whole, path, c, leaf, h)
      invariant FlatRight(c) == FlatRight(c0) && FlatLeft(c) + Flat(leaf) == FlatLeft(c0) + Flat(t0)
      decreases h
    {
      EdgeKids(c, leaf, h);
      AtKid(s.pages, whole, path, c, leaf, h, |leaf.cells|);
      var last := |s.pages[page].routed|;
      path := path + [Step(page, last)];
      page := Children(s.pages[page])[last];
      c, leaf, h := Enter(c, leaf, |leaf.cells|), leaf.kids[|leaf.cells|], h - 1;
    }
  }

  /** Climb to the nearest ancestor with a cell after the exhausted child. */
  method AscendRight<X>(s: PageStore<X>, path0: seq<Step>,
      ghost whole: Tree<X>, ghost c0: Ctx<X>, ghost t0: Tree<X>, ghost h0: nat)
    returns (path: seq<Step>, ghost c: Ctx<X>, ghost t: Tree<X>, ghost h: nat)
    requires At(s.pages, whole, path0, c0, t0, h0)
    ensures At(s.pages, whole, path, c, t, h) && FlatRight(c) == FlatRight(c0)
    ensures path == [] <==> c.Top?
    ensures c.Frame? ==> |c.right| > 0
  {
    path, c, t, h := path0, c0, t0, h0;
    while |path| > 0 && path[|path| - 1].slot >= |Routes(s.pages, path[|path| - 1].page)|
      invariant At(s.pages, whole, path, c, t, h) && FlatRight(c) == FlatRight(c0)
      decreases |path|
    {
      AtUp(s.pages, whole, path, c, t, h);
      assert c.cells[|c.left|..] == [];
      path := path[..|path| - 1];
      c, t, h := c.up, Fill(c, t), h + 1;
    }
    if c.Frame? { AtUp(s.pages, whole, path, c, t, h); }
  }

  method AscendLeft<X>(s: PageStore<X>, path0: seq<Step>,
      ghost whole: Tree<X>, ghost c0: Ctx<X>, ghost t0: Tree<X>, ghost h0: nat)
    returns (path: seq<Step>, ghost c: Ctx<X>, ghost t: Tree<X>, ghost h: nat)
    requires At(s.pages, whole, path0, c0, t0, h0)
    ensures At(s.pages, whole, path, c, t, h) && FlatLeft(c) == FlatLeft(c0)
    ensures path == [] <==> c.Top?
    ensures c.Frame? ==> |c.left| > 0
  {
    path, c, t, h := path0, c0, t0, h0;
    while |path| > 0 && path[|path| - 1].slot == 0
      invariant At(s.pages, whole, path, c, t, h) && FlatLeft(c) == FlatLeft(c0)
      decreases |path|
    {
      AtUp(s.pages, whole, path, c, t, h);
      assert c.cells[..|c.left|] == [];
      path := path[..|path| - 1];
      c, t, h := c.up, Fill(c, t), h + 1;
    }
    if c.Frame? { AtUp(s.pages, whole, path, c, t, h); }
  }

  function Routes<X>(m: map<PageId, Page<X>>, id: PageId): seq<Routed<X>> {
    if id in m && m[id].InteriorPage? then m[id].routed else []
  }

  /** From an exhausted child past the divider after it, to the next leaf. */
  method JumpRight<X>(s: PageStore<X>, path0: seq<Step>,
      ghost whole: Tree<X>, ghost c0: Ctx<X>, ghost t0: Tree<X>, ghost h: nat)
    returns (sep: X, path: seq<Step>, page: PageId, ghost c: Ctx<X>, ghost leaf: Tree<X>)
    requires At(s.pages, whole, path0, c0, t0, h) && c0.Frame? && |c0.right| > 0
    ensures At(s.pages, whole, path, c, leaf, 0) && leaf.TLeaf? && page == leaf.id
    ensures FlatRight(c0) == [sep] + (leaf.cells + FlatRight(c))
  {
    AtUp(s.pages, whole, path0, c0, t0, h);
    AtNext(s.pages, whole, path0, c0, t0, h);
    FlatNext(c0, t0);
    var at := path0[|path0| - 1];
    sep := Seps(s.pages[at.page])[at.slot];
    path, page, c, leaf := DescendLeftmost(s, path0[|path0| - 1 := Step(at.page, at.slot + 1)],
                                           Children(s.pages[at.page])[at.slot + 1], whole, NextSlot(c0, t0), c0.right[0], h);
  }

  method JumpLeft<X>(s: PageStore<X>, path0: seq<Step>,
      ghost whole: Tree<X>, ghost c0: Ctx<X>, ghost t0: Tree<X>, ghost h: nat)
    returns (sep: X, path: seq<Step>, page: PageId, ghost c: Ctx<X>, ghost leaf: Tree<X>)
    requires At(s.pages, whole, path0, c0, t0, h) && c0.Frame? && |c0.left| > 0
    ensures At(s.pages, whole, path, c, leaf, 0) && leaf.TLeaf? && page == leaf.id
    ensures FlatLeft(c0) == (FlatLeft(c) + leaf.cells) + [sep]
  {
    AtUp(s.pages, whole, path0, c0, t0, h);
    AtPrev(s.pages, whole, path0, c0, t0, h);
    FlatPrev(c0, t0);
    var at := path0[|path0| - 1];
    sep := Seps(s.pages[at.page])[at.slot - 1];
    path, page, c, leaf := DescendRightmost(s, path0[|path0| - 1 := Step(at.page, at.slot - 1)],
                                            Children(s.pages[at.page])[at.slot - 1],
                                            whole, PrevSlot(c0, t0), c0.left[|c0.left| - 1], h);
  }

  /** Everything from a position in a leaf to the end of the tree. */
  method ScanForward<X>(s: PageStore<X>, path0: seq<Step>, page0: PageId, slot0: nat,
      ghost whole: Tree<X>, ghost c0: Ctx<X>, ghost leaf0: Tree<X>)
    returns (out: seq<X>)
    requires At(s.pages, whole, path0, c0, leaf0, 0) && leaf0.TLeaf? && page0 == leaf0.id && slot0 <= |leaf0.cells|
    ensures out == leaf0.cells[slot0..] + FlatRight(c0)
  {
    var path, page := path0, page0;
    ghost var c, leaf := c0, leaf0;
    ghost var goal := leaf0.cells[slot0..] + FlatRight(c0);
    out := s.pages[page].cells[slot0..];
    while true
      invariant At(s.pages, whole, path, c, leaf, 0) && leaf.TLeaf? && page == leaf.id
      invariant out + FlatRight(c) == goal
      decreases |goal| - |out|
    {
      ghost var t, h;
      path, c, t, h := AscendRight(s, path, whole, c, leaf, 0);
      if |path| == 0 {
        return;
      }
      var sep;
      sep, path, page, c, leaf := JumpRight(s, path, whole, c, t, h);
      Regroup(out, [sep], leaf.cells, FlatRight(c));
      out := out + [sep] + s.pages[page].cells;
    }
  }

  lemma Regroup<X>(a: seq<X>, b: seq<X>, c: seq<X>, d: seq<X>)
    ensures a + (b + (c + d)) == a + b + c + d
  {
  }

  /** Everything from a position in a leaf back to the start of the tree. `last`
      is the slot of the first cell to emit; -1 if there is none. */
  method ScanBackward<X>(s: PageStore<X>, path0: seq<Step>, page0: PageId, last0: int,
      ghost whole: Tree<X>, ghost c0: Ctx<X>, ghost leaf0: Tree<X>)
    returns (out: seq<X>)
    requires At(s.pages, whole, path0, c0, leaf0, 0) && leaf0.TLeaf? && page0 == leaf0.id && -1 <= last0 < |leaf0.cells|
    ensures out == Reversed(FlatLeft(c0) + leaf0.cells[..last0 + 1])
  {
    var path, page := path0, page0;
    ghost var c, leaf := c0, leaf0;
    ghost var goal := Reversed(FlatLeft(c0) + leaf0.cells[..last0 + 1]);
    out := ReverseList(s.pages[page].cells[..last0 + 1]);
    ReversedAppend(FlatLeft(c0), leaf0.cells[..last0 + 1]);
    while true
      invariant At(s.pages, whole, path, c, leaf, 0) && leaf.TLeaf? && page == leaf.id
      invariant out + Reversed(FlatLeft(c)) == goal
      decreases |goal| - |out|
    {
      ghost var t, h;
      path, c, t, h := AscendLeft(s, path, whole, c, leaf, 0);
      if |path| == 0 {
        return;
      }
      var sep;
      sep, path, page, c, leaf := JumpLeft(s, path, whole, c, t, h);
      ReversedParts(FlatLeft(c), leaf.cells, sep);
      Regroup(out, [sep], Reversed(leaf.cells), Reversed(FlatLeft(c)));
      var cells := ReverseList(s.pages[page].cells);
      out := out + [sep] + cells;
    }
  }

  lemma ReversedParts<X>(a: seq<X>, b: seq<X>, x: X)
    ensures Reversed((a + b) + [x]) == [x] + (Reversed(b) + Reversed(a))
  {
    ReversedAppend(a + b, [x]);
    ReversedAppend(a, b);
    assert Reversed([x]) == [x];
  }

  method ScanAll<X>(s: PageStore<X>, root: PageId, ghost whole: Tree<X>, ghost height: nat) returns (out: seq<X>)
    requires Rep(s.pages, whole) && Shape(whole, height) && whole.id == root
    ensures out == Flat(whole)
  {
    AtRoot(s.pages, whole, height, (x: X) => false);
    var path, page;
    ghost var c, leaf;
    path, page, c, leaf := DescendLeftmost(s, [], root, whole, Top, whole, height);
    out := ScanForward(s, path, page, 0, whole, c, leaf);
    assert leaf.cells[0..] == leaf.cells;
  }

  method ScanAllBackward<X>(s: PageStore<X>, root: PageId, ghost whole: Tree<X>, ghost height: nat) returns (out: seq<X>)
    requires Rep(s.pages, whole) && Shape(whole, height) && whole.id == root
    ensures out == Reversed(Flat(whole))
  {
    AtRoot(s.pages, whole, height, (x: X) => false);
    var path, page;
    ghost var c, leaf;
    path, page, c, leaf := DescendRightmost(s, [], root, whole, Top, whole, height);
    var last := |s.pages[page].cells| - 1;
    assert leaf.cells[..last + 1] == leaf.cells;
    out := ScanBackward(s, path, page, last, whole, c, leaf);
    assert FlatLeft<X>(Top) == [];
    assert FlatLeft(c) + leaf.cells == Flat(whole);
  }
}
