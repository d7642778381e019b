/** A place in a tree is determined by where it stands in the in-order sequence:
    neighbouring subtrees of one depth are separated by at least one cell, so no
    position belongs to, or touches, two of them. */
module Places {
  import opened Trees

  /** A whole tree of one depth gives each of its places its depth. */
  lemma {:induction false} UnplugShape<X>(c: Ctx<X>, x: Tree<X>, h: nat)
    requires Shape(Plug(c, x), h)
    ensures Depth(c) <= h && Shape(x, h - Depth(c)) && CtxShape(c, h - Depth(c))
    decreases c
  {
    if c.Frame? {
      UnplugShape(c.up, Fill(c, x), h);
      FillShape(c, x, h - Depth(c));
    }
  }

  lemma LeafDepth<X>(c: Ctx<X>, leaf: Tree<X>, h: nat)
    requires Shape(Plug(c, leaf), h) && leaf.TLeaf?
    ensures Depth(c) == h && CtxShape(c, 0)
  {
    UnplugShape(c, leaf, h);
  }

  /** Everything up to a kid, and a cell, come before any later kid. */
  lemma {:induction false} BeforeGrows<X>(cells: seq<X>, kids: seq<Tree<X>>, i: nat, j: nat)
    requires i < j <= |cells| && j <= |kids|
    ensures |FlatBefore(cells[..j], kids[..j])| > |FlatBefore(cells[..i], kids[..i])| + |Flat(kids[i])|
    decreases j
  {
    var k := j - 1;
    assert cells[..j] == cells[..k] + [cells[k]] && kids[..j] == kids[..k] + [kids[k]];
    FlatBeforeAppend(cells[..k], kids[..k], cells[k], kids[k]);
    if i < k { BeforeGrows(cells, kids, i, k); }
  }

  /** The position p lies in the subtree `x` or at one of its ends. */
  ghost predicate Touches<X>(c: Ctx<X>, x: Tree<X>, p: nat) {
    |FlatLeft(c)| <= p <= |FlatLeft(c)| + |Flat(x)|
  }

  lemma TouchesParent<X>(c: Ctx<X>, x: Tree<X>, p: nat)
    requires c.Frame? && |c.left| + |c.right| == |c.cells| && Touches(c, x, p)
    ensures Touches(c.up, Fill(c, x), p)
  {
    FlatCut(c.cells, c.left, x, c.right);
  }

  lemma SameSlot<X>(c1: Ctx<X>, x1: Tree<X>, c2: Ctx<X>, x2: Tree<X>, p: nat)
    requires c1.Frame? && c2.Frame? && c1.up == c2.up && Fill(c1, x1) == Fill(c2, x2)
    requires |c1.left| + |c1.right| == |c1.cells| && |c2.left| + |c2.right| == |c2.cells|
    requires Touches(c1, x1, p) && Touches(c2, x2, p)
    ensures |c1.left| <= |c2.left|
  {
    var i, j, kids := |c2.left|, |c1.left|, Fill(c1, x1).kids;
    if i < j {
      assert kids[..i] == c2.left && kids[i] == x2 && kids[..j] == c1.left;
      BeforeGrows(c1.cells, kids, i, j);
    }
  }

  /** Two places of one depth that touch one position are one place. */
  lemma {:induction false} SamePlace<X>(c1: Ctx<X>, x1: Tree<X>, c2: Ctx<X>, x2: Tree<X>, h: nat, p: nat)
    requires Plug(c1, x1) == Plug(c2, x2) && CtxShape(c1, h) && CtxShape(c2, h) && Depth(c1) == Depth(c2)
    requires Touches(c1, x1, p) && Touches(c2, x2, p)
    ensures c1 == c2 && x1 == x2
    decreases c1
  {
    if c1.Frame? {
      TouchesParent(c1, x1, p);
      TouchesParent(c2, x2, p);
      SamePlace(c1.up, Fill(c1, x1), c2.up, Fill(c2, x2), h + 1, p);
      SameSlot(c1, x1, c2, x2, p);
      SameSlot(c2, x2, c1, x1, p);
      SameParts(c1.left, x1, c1.right, c2.left, x2, c2.right);
    }
  }

  lemma SameParts<T>(a: seq<T>, x: T, b: seq<T>, a': seq<T>, x': T, b': seq<T>)
    requires a + [x] + b == a' + [x'] + b' && |a| == |a'|
    ensures a == a' && x == x' && b == b'
  {
    var s := a + [x] + b;
    assert s[..|a|] == a && s[|a|] == x && s[|a| + 1..] == b;
    assert s[..|a'|] == a' && s[|a'|] == x' && s[|a'| + 1..] == b';
  }

  /** In a tree of one depth, two leaves that touch one position are one leaf. */
  lemma SameLeaf<X>(t: Tree<X>, h: nat, c1: Ctx<X>, x1: Tree<X>, c2: Ctx<X>, x2: Tree<X>, p: nat)
    requires Shape(t, h) && Plug(c1, x1) == t && Plug(c2, x2) == t && x1.TLeaf? && x2.TLeaf?
    requires Touches(c1, x1, p) && Touches(c2, x2, p)
    ensures c1 == c2 && x1 == x2
  {
    LeafDepth(c1, x1, h);
    LeafDepth(c2, x2, h);
    SamePlace(c1, x1, c2, x2, 0, p);
  }
}
