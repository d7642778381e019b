/** Repairing a page that has lost its last cell: merge it into a sibling, refill
    it by rotation, or, at the root, pull the only child up. Every move leaves
    the in-order sequence alone. */
module Rebalance {
  import opened Basics
  import opened TreeCells
  import opened Trees
  import opened Store
  import opened Split
  import opened Cascade
  import opened Keys
  import opened IndexTree

  // ---- On trees ----

  /** A page without cells: a leaf, or an interior page with its one child. */
  ghost predicate Bare<X>(x: Tree<X>) {
    x.cells == [] && (x.TNode? ==> |x.kids| == 1)
  }

  ghost predicate Level<X>(a: Tree<X>, b: Tree<X>) {
    a.TLeaf? == b.TLeaf? && (a.TNode? ==> |a.kids| == |a.cells| + 1 && |b.kids| == |b.cells| + 1)
  }

  /** `a`, `div` and `b` on the page numbered `id`. */
  ghost function Joined<X>(id: PageId, a: Tree<X>, div: X, b: Tree<X>): Tree<X>
    requires Level(a, b)
  {
    if a.TLeaf? then TLeaf(id, a.cells + [div] + b.cells)
    else TNode(id, a.cells + [div] + b.cells, a.kids + b.kids)
  }

  lemma {:induction false} FlatJoin<X>(ac: seq<X>, ak: seq<Tree<X>>, div: X, bc: seq<X>, bk: seq<Tree<X>>)
    requires |ak| == |ac| + 1 && |bk| == |bc| + 1
    ensures FlatKids(ac + [div] + bc, ak + bk) == FlatKids(ac, ak) + [div] + FlatKids(bc, bk)
  {
    var cells, kids, m := ac + [div] + bc, ak + bk, |ac|;
    FlatSplit(cells, kids, m);
    assert cells[..m] == ac && cells[m + 1..] == bc && kids[..m + 1] == ak && kids[m + 1..] == bk;
  }

  lemma JoinedFacts<X>(m: map<PageId, Page<X>>, id: PageId, a: Tree<X>, div: X, b: Tree<X>, h: nat, ok: PageRule<X>)
    requires Shape(a, h) && Shape(b, h)
    ensures Level(a, b) && Shape(Joined(id, a, div, b), h)
    ensures Flat(Joined(id, a, div, b)) == Flat(a) + [div] + Flat(b)
    ensures NodeIds(Joined(id, a, div, b)) + multiset{a.id} + multiset{b.id} == multiset{id} + NodeIds(a) + NodeIds(b)
    ensures a.TNode? ==> (Reps(m, Joined(id, a, div, b).kids) <==> Reps(m, a.kids) && Reps(m, b.kids))
    ensures a.TNode? ==> (AllForest(Joined(id, a, div, b).kids, ok) <==> AllForest(a.kids, ok) && AllForest(b.kids, ok))
  {
    if a.TNode? {
      FlatJoin(a.cells, a.kids, div, b.cells, b.kids);
      ForestAppend(a.kids, b.kids);
      RepsAppend(m, a.kids, b.kids);
      AllForestAppend(a.kids, b.kids, ok);
      ShapesAppend(a.kids, b.kids, h - 1);
    }
  }

  /** The cells before the m-th, and the cells after it. */
  ghost function CutLeft<X>(id: PageId, t: Tree<X>, m: nat): Tree<X>
    requires m < |t.cells| && (t.TNode? ==> |t.kids| == |t.cells| + 1)
  {
    if t.TLeaf? then TLeaf(id, t.cells[..m]) else LeftTree(id, t, m)
  }

  ghost function CutRight<X>(id: PageId, t: Tree<X>, m: nat): Tree<X>
    requires m < |t.cells| && (t.TNode? ==> |t.kids| == |t.cells| + 1)
  {
    if t.TLeaf? then TLeaf(id, t.cells[m + 1..]) else RightTree(id, t, m)
  }

  lemma CutFacts<X>(m: map<PageId, Page<X>>, t: Tree<X>, k: nat, a: PageId, b: PageId, h: nat, ok: PageRule<X>)
    requires Shape(t, h) && k < |t.cells|
    ensures Shape(CutLeft(a, t, k), h) && Shape(CutRight(b, t, k), h)
    ensures Flat(CutLeft(a, t, k)) + [t.cells[k]] + Flat(CutRight(b, t, k)) == Flat(t)
    ensures NodeIds(CutLeft(a, t, k)) + NodeIds(CutRight(b, t, k)) + multiset{t.id} == multiset{a} + multiset{b} + NodeIds(t)
    ensures t.TNode? ==> (Reps(m, CutLeft(a, t, k).kids) && Reps(m, CutRight(b, t, k).kids) <==> Reps(m, t.kids))
    ensures t.TNode? ==>
              (AllForest(CutLeft(a, t, k).kids, ok) && AllForest(CutRight(b, t, k).kids, ok) <==> AllForest(t.kids, ok))
  {
    if t.TNode? {
      HalvesFlat(t, k, a, b, h);
      var l, r := t.kids[..k + 1], t.kids[k + 1..];
      assert t.kids == l + r;
      ForestAppend(l, r);
      RepsAppend(m, l, r);
      AllForestAppend(l, r, ok);
    } else {
      assert t.cells == t.cells[..k] + [t.cells[k]] + t.cells[k + 1..];
    }
  }

  // ---- The parent, seen as a pair of neighbours around one divider ----

  /** The sibling that repairs the hole: the next one, or the previous one when
      the hole is the last child. */
  ghost function Sibling<X>(c: Ctx<X>): Tree<X>
    requires c.Frame? && |c.left| + |c.right| == |c.cells| >= 1
  {
    if |c.left| < |c.cells| then c.right[0] else c.left[|c.left| - 1]
  }

  ghost function Donor<X>(c: Ctx<X>): nat
    requires c.Frame? && |c.left| + |c.right| == |c.cells| >= 1
  {
    if |c.left| < |c.cells| then |c.left| else |c.cells| - 1
  }

  ghost function Divider<X>(c: Ctx<X>): X
    requires c.Frame? && |c.left| + |c.right| == |c.cells| >= 1
  {
    c.cells[Donor(c)]
  }

  /** The parent without the hole, its sibling and the divider between them. */
  ghost function PairFrame<X>(c: Ctx<X>): Ctx<X>
    requires c.Frame? && |c.left| + |c.right| == |c.cells| >= 1
  {
    var cells := c.cells[..Donor(c)] + c.cells[Donor(c) + 1..];
    if |c.left| < |c.cells| then Frame(c.id, cells, c.left, c.right[1..], c.up)
    else Frame(c.id, cells, c.left[..|c.left| - 1], [], c.up)
  }

  ghost function First<X>(c: Ctx<X>, x: Tree<X>): Tree<X>
    requires c.Frame? && |c.left| + |c.right| == |c.cells| >= 1
  {
    if |c.left| < |c.cells| then x else Sibling(c)
  }

  ghost function Second<X>(c: Ctx<X>, x: Tree<X>): Tree<X>
    requires c.Frame? && |c.left| + |c.right| == |c.cells| >= 1
  {
    if |c.left| < |c.cells| then Sibling(c) else x
  }

  lemma PairIsFill<X>(c: Ctx<X>, x: Tree<X>)
    requires c.Frame? && |c.left| + |c.right| == |c.cells| >= 1
    ensures Widen(PairFrame(c), First(c, x), Divider(c), Second(c, x)) == Fill(c, x)
  {
    if |c.left| < |c.cells| { FirstPairIsFill(c, x); } else { LastPairIsFill(c, x); }
  }

  lemma FirstPairIsFill<X>(c: Ctx<X>, x: Tree<X>)
    requires c.Frame? && |c.left| + |c.right| == |c.cells| >= 1 && |c.left| < |c.cells|
    ensures Widen(PairFrame(c), First(c, x), Divider(c), Second(c, x)) == Fill(c, x)
  {
    var i, w := |c.left|, Widen(PairFrame(c), First(c, x), Divider(c), Second(c, x));
    assert c.cells == c.cells[..i] + [c.cells[i]] + c.cells[i + 1..];
    assert c.right == [c.right[0]] + c.right[1..];
    assert w.kids == c.left + [x] + c.right;
  }

  lemma LastPairIsFill<X>(c: Ctx<X>, x: Tree<X>)
    requires c.Frame? && |c.left| + |c.right| == |c.cells| >= 1 && |c.left| == |c.cells|
    ensures Widen(PairFrame(c), First(c, x), Divider(c), Second(c, x)) == Fill(c, x)
  {
    var i, w := |c.left| - 1, Widen(PairFrame(c), First(c, x), Divider(c), Second(c, x));
    assert c.cells == c.cells[..i] + [c.cells[i]] + c.cells[i + 1..];
    assert c.left == c.left[..i] + [c.left[i]];
    assert w.kids == c.left + [x] + c.right;
  }

  lemma PairParts<X>(m: map<PageId, Page<X>>, c: Ctx<X>, h: nat, ok: PageRule<X>)
    requires c.Frame? && CtxShape(c, h) && |c.cells| >= 1 && Reps(m, c.left) && Reps(m, c.right)
    requires AllForest(c.left, ok) && AllForest(c.right, ok)
    ensures CtxShape(PairFrame(c), h) && Shape(Sibling(c), h) && Rep(m, Sibling(c)) && AllPages(Sibling(c), ok)
    ensures Reps(m, PairFrame(c).left) && Reps(m, PairFrame(c).right)
    ensures AllForest(PairFrame(c).left, ok) && AllForest(PairFrame(c).right, ok)
    ensures CtxIds(c) == CtxIds(PairFrame(c)) + NodeIds(Sibling(c))
  {
    PairIds(m, c, h);
    if |c.left| >= |c.cells| {
      var n := |c.left| - 1;
      var l, z := c.left[..n], [c.left[n]];
      assert c.left == l + z;
      RepsAppend(m, l, z);
      AllForestAppend(l, z, ok);
      ShapesAppend(l, z, h);
      Singleton(m, c.left[n], ok);
      ShapesOne(c.left[n], h);
    }
  }

  lemma PairIds<X>(m: map<PageId, Page<X>>, c: Ctx<X>, h: nat)
    requires c.Frame? && CtxShape(c, h) && |c.cells| >= 1
    ensures CtxIds(c) == CtxIds(PairFrame(c)) + NodeIds(Sibling(c))
  {
    if |c.left| >= |c.cells| {
      var n := |c.left| - 1;
      var l, z := c.left[..n], [c.left[n]];
      assert c.left == l + z;
      ForestAppend(l, z);
      assert ForestIds(z) == NodeIds(c.left[n]) by { assert z[1..] == []; }
      assert PairFrame(c).left == l && PairFrame(c).right == c.right;
    }
  }

  // ---- On pages, as the source edits them ----

  /** The sibling once the divider has come down beside the empty page's child. */
  function MergedPage<X>(sibling: Page<X>, empty: Page<X>, div: X, prepend: bool): Page<X>
    requires (sibling.LeafPage? && empty.LeafPage?) || (sibling.InteriorPage? && empty.InteriorPage?)
  {
    if sibling.LeafPage? then
      LeafPage(if prepend then [div] + sibling.cells else sibling.cells + [div])
    else if prepend then
      InteriorPage([Routed(empty.right, div)] + sibling.routed, sibling.right)
    else
      InteriorPage(sibling.routed + [Routed(sibling.right, div)], empty.right)
  }

  /** The parent once the divider has left it. */
  function NarrowedPage<X>(parent: Page<X>, donor: nat, prepend: bool, sibling: PageId): Page<X>
    requires parent.InteriorPage? && donor < |parent.routed|
  {
    var routed := parent.routed[..donor] + parent.routed[donor + 1..];
    InteriorPage(routed, if prepend then parent.right else sibling)
  }

  /** The empty page refilled with the divider and, inside the tree, the child next to it. */
  function RefilledPage<X>(sibling: Page<X>, empty: Page<X>, div: X, prepend: bool): Page<X>
    requires (sibling.LeafPage? && empty.LeafPage?) || (sibling.InteriorPage? && empty.InteriorPage? && |sibling.routed| >= 1)
  {
    if sibling.LeafPage? then LeafPage([div])
    else if prepend then InteriorPage([Routed(empty.right, div)], sibling.routed[0].child)
    else InteriorPage([Routed(sibling.right, div)], empty.right)
  }

  /** The sibling without the entry it lends. */
  function LenderPage<X>(sibling: Page<X>, prepend: bool): Page<X>
    requires (sibling.LeafPage? && |sibling.cells| >= 1) || (sibling.InteriorPage? && |sibling.routed| >= 1)
  {
    if sibling.LeafPage? then
      LeafPage(if prepend then sibling.cells[1..] else sibling.cells[..|sibling.cells| - 1])
    else if prepend then
      InteriorPage(sibling.routed[1..], sibling.right)
    else
      var last := |sibling.routed| - 1;
      InteriorPage(sibling.routed[..last], sibling.routed[last].child)
  }

  function Borrowed<X>(sibling: Page<X>, prepend: bool): X
    requires (sibling.LeafPage? && |sibling.cells| >= 1) || (sibling.InteriorPage? && |sibling.routed| >= 1)
  {
    if sibling.LeafPage? then (if prepend then sibling.cells[0] else sibling.cells[|sibling.cells| - 1])
    else (if prepend then sibling.routed[0].sep else sibling.routed[|sibling.routed| - 1].sep)
  }

  /** The parent with another divider in the same cell. */
  function RedividedPage<X>(parent: Page<X>, donor: nat, div: X): Page<X>
    requires parent.InteriorPage? && donor < |parent.routed|
  {
    InteriorPage(parent.routed[donor := Routed(parent.routed[donor].child, div)], parent.right)
  }

  lemma InteriorEq<X>(p: Page<X>, seps: seq<X>, ids: seq<PageId>)
    requires p.InteriorPage? && |ids| == |seps| + 1 && Seps(p) == seps && Children(p) == ids
    ensures p == Interior(seps, ids)
  {
    InteriorOf(p);
  }

  lemma MergedShallow<X>(c: Ctx<X>, x: Tree<X>, h: nat)
    requires c.Frame? && CtxShape(c, h) && |c.cells| >= 1 && Bare(x) && Shape(x, h) && Shape(Sibling(c), h)
    ensures
      var s, a, b := Sibling(c), First(c, x), Second(c, x);
      Level(a, b) &&
      MergedPage(Shallow(s), Shallow(x), Divider(c), |c.left| < |c.cells|) == Shallow(Joined(s.id, a, Divider(c), b))
  {
    var s, a, b := Sibling(c), First(c, x), Second(c, x);
    var div, pre := Divider(c), |c.left| < |c.cells|;
    if x.TNode? {
      var p := MergedPage(Shallow(s), Shallow(x), div, pre);
      var j := Joined(s.id, a, div, b);
      assert KidIds(x.kids) == [x.kids[0].id];
      assert Seps(p) == j.cells;
      assert KidIds(a.kids + b.kids) == KidIds(a.kids) + KidIds(b.kids);
      assert Children(p) == KidIds(j.kids);
      InteriorEq(p, j.cells, KidIds(j.kids));
    }
  }

  lemma NarrowedChildren<X>(c: Ctx<X>, x: Tree<X>, j: Tree<X>, parent: Page<X>)
    requires c.Frame? && |c.left| + |c.right| == |c.cells| >= 1 && j.id == Sibling(c).id
    requires parent == Interior(c.cells, KidIds(c.left) + [x.id] + KidIds(c.right))
    ensures
      var f := PairFrame(c);
      Children(NarrowedPage(parent, Donor(c), |c.left| < |c.cells|, j.id)) == KidIds(f.left) + [j.id] + KidIds(f.right)
  {
    var p := NarrowedPage(parent, Donor(c), |c.left| < |c.cells|, j.id);
    var i, ids := |c.left|, Children(parent);
    if i < |c.cells| {
      assert Children(p) == ids[..i] + ids[i + 1..];
      assert KidIds(c.right) == [j.id] + KidIds(c.right[1..]);
    } else {
      assert Children(p) == ids[..i - 1] + [j.id];
      assert KidIds(c.left) == KidIds(c.left[..i - 1]) + [j.id];
    }
  }

  lemma NarrowedShallow<X>(c: Ctx<X>, x: Tree<X>, j: Tree<X>, parent: Page<X>)
    requires c.Frame? && |c.left| + |c.right| == |c.cells| >= 1 && j.id == Sibling(c).id
    requires parent == Interior(c.cells, KidIds(c.left) + [x.id] + KidIds(c.right))
    ensures NarrowedPage(parent, Donor(c), |c.left| < |c.cells|, j.id) == Shallow(Fill(PairFrame(c), j))
  {
    var p, f := NarrowedPage(parent, Donor(c), |c.left| < |c.cells|, j.id), PairFrame(c);
    assert Seps(p) == f.cells;
    NarrowedChildren(c, x, j, parent);
    InteriorEq(p, f.cells, KidIds(f.left) + [j.id] + KidIds(f.right));
    FillShallow(f, j);
  }

  /** Where the joined cells are cut again so that the empty page gets one. */
  ghost function RotateAt<X>(c: Ctx<X>): nat
    requires c.Frame? && |c.left| + |c.right| == |c.cells| >= 1 && |Sibling(c).cells| >= 1
  {
    if |c.left| < |c.cells| then 1 else |Sibling(c).cells| - 1
  }

  ghost function JoinedPair<X>(c: Ctx<X>, x: Tree<X>): Tree<X>
    requires c.Frame? && |c.left| + |c.right| == |c.cells| >= 1 && Level(First(c, x), Second(c, x))
  {
    Joined(Sibling(c).id, First(c, x), Divider(c), Second(c, x))
  }

  /** The page that was empty, after the rotation. */
  ghost function Refilled<X>(c: Ctx<X>, x: Tree<X>): Tree<X>
    requires c.Frame? && |c.left| + |c.right| == |c.cells| >= 1 && Level(First(c, x), Second(c, x))
    requires |Sibling(c).cells| >= 1 && Bare(x)
  {
    if |c.left| < |c.cells| then CutLeft(x.id, JoinedPair(c, x), 1) else CutRight(x.id, JoinedPair(c, x), RotateAt(c))
  }

  ghost function Lender<X>(c: Ctx<X>, x: Tree<X>): Tree<X>
    requires c.Frame? && |c.left| + |c.right| == |c.cells| >= 1 && Level(First(c, x), Second(c, x))
    requires |Sibling(c).cells| >= 1 && Bare(x)
  {
    var id := Sibling(c).id;
    if |c.left| < |c.cells| then CutRight(id, JoinedPair(c, x), 1) else CutLeft(id, JoinedPair(c, x), RotateAt(c))
  }

  lemma RefilledShallow<X>(c: Ctx<X>, x: Tree<X>, h: nat)
    requires c.Frame? && |c.left| + |c.right| == |c.cells| >= 1 && Bare(x) && Shape(x, h) && Shape(Sibling(c), h)
    requires |Sibling(c).cells| >= 1 && Level(First(c, x), Second(c, x))
    ensures RefilledPage(Shallow(Sibling(c)), Shallow(x), Divider(c), |c.left| < |c.cells|) == Shallow(Refilled(c, x))
    ensures Refilled(c, x).cells == [Divider(c)]
  {
    var s, t, pre := Sibling(c), Refilled(c, x), |c.left| < |c.cells|;
    assert t.cells == [Divider(c)];
    if x.TNode? {
      var p := RefilledPage(Shallow(s), Shallow(x), Divider(c), pre);
      assert KidIds(x.kids) == [x.kids[0].id];
      assert Seps(p) == t.cells;
      if pre {
        assert t.kids == [x.kids[0], s.kids[0]];
      } else {
        assert t.kids == [s.kids[|s.kids| - 1], x.kids[0]];
      }
      assert Children(p) == KidIds(t.kids);
      InteriorEq(p, t.cells, KidIds(t.kids));
    }
  }

  lemma LenderShallow<X>(c: Ctx<X>, x: Tree<X>, h: nat)
    requires c.Frame? && |c.left| + |c.right| == |c.cells| >= 1 && Bare(x) && Shape(x, h) && Shape(Sibling(c), h)
    requires |Sibling(c).cells| >= 1 && Level(First(c, x), Second(c, x))
    ensures LenderPage(Shallow(Sibling(c)), |c.left| < |c.cells|) == Shallow(Lender(c, x))
    ensures Borrowed(Shallow(Sibling(c)), |c.left| < |c.cells|) == JoinedPair(c, x).cells[RotateAt(c)]
  {
    var s, t, pre := Sibling(c), Lender(c, x), |c.left| < |c.cells|;
    var n := |s.cells|;
    assert t.cells == if pre then s.cells[1..] else s.cells[..n - 1];
    if x.TNode? {
      var p := LenderPage(Shallow(s), pre);
      assert Seps(p) == t.cells;
      if pre {
        assert t.kids == s.kids[1..];
        assert Children(p) == KidIds(s.kids)[1..];
      } else {
        assert t.kids == s.kids[..n];
        assert Children(p) == KidIds(s.kids)[..n];
      }
      assert Children(p) == KidIds(t.kids);
      InteriorEq(p, t.cells, KidIds(t.kids));
    }
  }

  lemma RedividedShallow<X>(c: Ctx<X>, x: Tree<X>, l: Tree<X>, b: X, r: Tree<X>, parent: Page<X>)
    requires c.Frame? && |c.left| + |c.right| == |c.cells| >= 1 && l.id == First(c, x).id && r.id == Second(c, x).id
    requires parent == Interior(c.cells, KidIds(c.left) + [x.id] + KidIds(c.right))
    ensures RedividedPage(parent, Donor(c), b) == Shallow(Widen(PairFrame(c), l, b, r))
    ensures Widen(PairFrame(c), l, b, r).cells == c.cells[Donor(c) := b]
  {
    RedividedCells(c, l, b, r);
    PairIsFill(c, x);
    FillShallow(c, x);
    SameKidIds(PairFrame(c), l, b, r, First(c, x), Divider(c), Second(c, x));
    var p := RedividedPage(parent, Donor(c), b);
    assert Seps(p) == Seps(parent)[Donor(c) := b];
    assert Children(p) == Children(parent);
    InteriorEq(p, c.cells[Donor(c) := b], Children(parent));
  }

  lemma RedividedCells<X>(c: Ctx<X>, l: Tree<X>, b: X, r: Tree<X>)
    requires c.Frame? && |c.left| + |c.right| == |c.cells| >= 1
    ensures Widen(PairFrame(c), l, b, r).cells == c.cells[Donor(c) := b]
  {
    assert |PairFrame(c).left| == Donor(c);
  }

  lemma SameKidIds<X>(f: Ctx<X>, l: Tree<X>, b: X, r: Tree<X>, l0: Tree<X>, b0: X, r0: Tree<X>)
    requires f.Frame? && |f.left| <= |f.cells| && l.id == l0.id && r.id == r0.id
    ensures KidIds(Widen(f, l, b, r).kids) == KidIds(Widen(f, l0, b0, r0).kids)
  {
  }

  // ---- On the store ----

  /** The page `x` has no cells; everything around it is in order. */
  ghost predicate Emptied(m: map<PageId, Page<Entry>>, used: multiset<PageId>, c: Ctx<Entry>, x: Tree<Entry>, h: nat, n: nat,
                          keep: multiset<PageId>)
  {
    && Bare(x) && CtxRep(m, c, x.id) && Rep(m, x) && CtxShape(c, h) && Shape(x, h)
    && CtxAll(c, Rule(n)) && (x.TNode? ==> AllForest(x.kids, Rule(n)))
    && used == CtxIds(c) + NodeIds(x) + keep
  }

  ghost function ForestOf(t: Tree<Entry>): multiset<PageId> {
    if t.TLeaf? then multiset{} else ForestIds(t.kids)
  }

  /** Tree pages that neither a merge nor a rotation writes. */
  ghost function Untouched(c: Ctx<Entry>, x: Tree<Entry>): multiset<PageId>
    requires c.Frame? && |c.left| + |c.right| == |c.cells| >= 1
  {
    CtxIds(c.up) + ForestIds(PairFrame(c).left) + ForestIds(PairFrame(c).right) + (ForestOf(First(c, x)) + ForestOf(Second(c, x)))
  }

  lemma RepairIds(c: Ctx<Entry>, x: Tree<Entry>, keep: multiset<PageId>)
    requires c.Frame? && |c.left| + |c.right| == |c.cells| >= 1
    requires CtxIds(c) == CtxIds(PairFrame(c)) + NodeIds(Sibling(c))
    ensures CtxIds(c) + NodeIds(x) + keep
         == Untouched(c, x) + keep + multiset{c.id} + multiset{Sibling(c).id} + multiset{x.id}
  {
    var f, s := PairFrame(c), Sibling(c);
    var fs, fx := ForestOf(s), ForestOf(x);
    NodeIdsOf(s);
    NodeIdsOf(x);
    assert ForestOf(First(c, x)) + ForestOf(Second(c, x)) == fs + fx by { Swap(fs, fx); }
    Gather(multiset{c.id}, ForestIds(f.left), ForestIds(f.right), CtxIds(c.up), multiset{s.id}, fs, multiset{x.id}, fx, keep);
  }

  lemma NodeIdsOf(t: Tree<Entry>)
    ensures NodeIds(t) == multiset{t.id} + ForestOf(t)
  {
  }

  lemma Swap(a: multiset<PageId>, b: multiset<PageId>)
    ensures a + b == b + a
  {
  }

  lemma Gather(c: multiset<PageId>, l: multiset<PageId>, r: multiset<PageId>, up: multiset<PageId>, s: multiset<PageId>,
               fs: multiset<PageId>, x: multiset<PageId>, fx: multiset<PageId>, keep: multiset<PageId>)
    ensures c + l + r + up + (s + fs) + (x + fx) + keep == up + l + r + (fs + fx) + keep + c + s + x
  {
  }

  /** Everything a repair may rely on, taken apart. */
  lemma Parts(m: map<PageId, Page<Entry>>, used: multiset<PageId>, c: Ctx<Entry>, x: Tree<Entry>, h: nat, n: nat,
              keep: multiset<PageId>)
    requires c.Frame? && Emptied(m, used, c, x, h, n, keep)
    ensures |c.cells| >= 1 && PageFits(false, c.cells, n) && |c.left| + |c.right| == |c.cells|
    ensures CtxShape(PairFrame(c), h) && Shape(Sibling(c), h) && Rep(m, Sibling(c)) && AllPages(Sibling(c), Rule(n))
    ensures Level(First(c, x), Second(c, x)) && |Sibling(c).cells| >= 1 && GoodEntry(Divider(c), n)
    ensures used == Untouched(c, x) + keep + multiset{c.id} + multiset{Sibling(c).id} + multiset{x.id}
  {
    PairParts(m, c, h, Rule(n));
    RepairIds(c, x, keep);
    assert Good(n)(c.cells[Donor(c)]);
  }

  /** A page of the repaired tree, still to be put back into its own context. */
  ghost predicate Reset(m: map<PageId, Page<Entry>>, used: multiset<PageId>, c: Ctx<Entry>, p: Tree<Entry>, h: nat, n: nat,
                        keep: multiset<PageId>)
  {
    && p.TNode? && CtxRep(m, c, p.id) && Rep(m, p) && CtxShape(c, h) && Shape(p, h)
    && CtxAll(c, Rule(n)) && AllForest(p.kids, Rule(n)) && PageFits(false, p.cells, n)
    && used == CtxIds(c) + NodeIds(p) + keep
  }

  lemma Merged(m: map<PageId, Page<Entry>>, m': map<PageId, Page<Entry>>, used: multiset<PageId>, c: Ctx<Entry>, x: Tree<Entry>,
               h: nat, n: nat, keep: multiset<PageId>)
    returns (p: Tree<Entry>)
    requires c.Frame? && Emptied(m, used, c, x, h, n, keep)
    requires |c.cells| >= 1 && Level(First(c, x), Second(c, x)) && Agree(m, m', Untouched(c, x) + keep)
    requires Rule(n)(x.TLeaf?, JoinedPair(c, x).cells)
    requires Sibling(c).id in m' && m'[Sibling(c).id] == Shallow(JoinedPair(c, x))
    requires c.id in m' && m'[c.id] == Shallow(Fill(PairFrame(c), JoinedPair(c, x)))
    ensures p == Fill(PairFrame(c), JoinedPair(c, x)) && Flat(p) == Flat(Fill(c, x))
    ensures Reset(m', Untouched(c, x) + keep + multiset{c.id} + multiset{Sibling(c).id}, c.up, p, h + 1, n, keep)
    ensures Agree(m, m', keep)
  {
    var f, j := PairFrame(c), JoinedPair(c, x);
    p := Fill(f, j);
    Parts(m, used, c, x, h, n, keep);
    PairParts(m, c, h, Rule(n));
    JoinedFacts(m, j.id, First(c, x), Divider(c), Second(c, x), h, Rule(n));
    MergedRep(m, m', c, x, h, n, keep);
    FillShape(f, j, h);
    MergedFlat(c, x, h);
    FillIds(f, j);
    MergedAll(c, x, n);
    MergedIds(c, x, h, keep);
  }

  lemma MergedRep(m: map<PageId, Page<Entry>>, m': map<PageId, Page<Entry>>, c: Ctx<Entry>, x: Tree<Entry>,
                  h: nat, n: nat, keep: multiset<PageId>)
    requires c.Frame? && CtxShape(c, h) && Shape(x, h) && |c.cells| >= 1 && Level(First(c, x), Second(c, x))
    requires Reps(m, PairFrame(c).left) && Reps(m, PairFrame(c).right) && Rep(m, Sibling(c)) && Rep(m, x) && CtxRep(m, c.up, c.id)
    requires Shape(Sibling(c), h) && Agree(m, m', Untouched(c, x) + keep)
    requires Sibling(c).id in m' && m'[Sibling(c).id] == Shallow(JoinedPair(c, x))
    requires c.id in m' && m'[c.id] == Shallow(Fill(PairFrame(c), JoinedPair(c, x)))
    ensures Rep(m', Fill(PairFrame(c), JoinedPair(c, x))) && CtxRep(m', c.up, c.id) && Agree(m, m', keep)
  {
    var f, j, all := PairFrame(c), JoinedPair(c, x), Untouched(c, x) + keep;
    AgreeSub(m, m', all, CtxIds(c.up));
    AgreeSub(m, m', all, ForestIds(f.left));
    AgreeSub(m, m', all, ForestIds(f.right));
    AgreeSub(m, m', all, keep);
    CtxFrame(m, m', c.up, c.id);
    RepsFrame(m, m', f.left);
    RepsFrame(m, m', f.right);
    if x.TNode? {
      ForestAppend(First(c, x).kids, Second(c, x).kids);
      RepsAppend(m, First(c, x).kids, Second(c, x).kids);
      AgreeSub(m, m', all, ForestIds(j.kids));
      RepsFrame(m, m', j.kids);
    }
    FillReps(m', f, j);
  }

  lemma FillReps<X>(m: map<PageId, Page<X>>, c: Ctx<X>, t: Tree<X>)
    requires c.Frame?
    ensures Reps(m, Fill(c, t).kids) <==> Reps(m, c.left) && Rep(m, t) && Reps(m, c.right)
  {
    RepsAppend(m, c.left + [t], c.right);
    RepsAppend(m, c.left, [t]);
    assert [t][1..] == [];
  }

  lemma FillAll<X>(c: Ctx<X>, t: Tree<X>, ok: PageRule<X>)
    requires c.Frame?
    ensures AllForest(Fill(c, t).kids, ok) <==> AllForest(c.left, ok) && AllPages(t, ok) && AllForest(c.right, ok)
  {
    AllForestAppend(c.left + [t], c.right, ok);
    AllForestAppend(c.left, [t], ok);
    assert [t][1..] == [];
  }

  lemma MergedFlat(c: Ctx<Entry>, x: Tree<Entry>, h: nat)
    requires c.Frame? && CtxShape(c, h) && Shape(x, h) && |c.cells| >= 1 && CtxShape(PairFrame(c), h) && Shape(Sibling(c), h)
    ensures Level(First(c, x), Second(c, x))
    ensures Flat(Fill(PairFrame(c), JoinedPair(c, x))) == Flat(Fill(c, x))
  {
    var f, a, d, b := PairFrame(c), First(c, x), Divider(c), Second(c, x);
    var j := Joined(Sibling(c).id, a, d, b);
    JoinedFacts(map[], Sibling(c).id, a, d, b, h, (_, _) => true);
    PairIsFill(c, x);
    WidenFlat(f, a, d, b, h);
    FlatCut(f.cells, f.left, j, f.right);
    var u, v := FlatBefore(f.cells[..|f.left|], f.left), FlatAfter(f.cells[|f.left|..], f.right);
    Flatten(u, Flat(a), [d], Flat(b), v);
  }

  lemma Flatten<X>(u: seq<X>, a: seq<X>, d: seq<X>, b: seq<X>, v: seq<X>)
    ensures u + (a + d + b) + v == u + a + d + b + v
  {
  }

  lemma MergedAll(c: Ctx<Entry>, x: Tree<Entry>, n: nat)
    requires c.Frame? && |c.left| + |c.right| == |c.cells| >= 1 && Level(First(c, x), Second(c, x))
    requires AllForest(PairFrame(c).left, Rule(n)) && AllForest(PairFrame(c).right, Rule(n)) && PageFits(false, c.cells, n)
    requires AllPages(Sibling(c), Rule(n)) && (x.TNode? ==> AllForest(x.kids, Rule(n)))
    requires Rule(n)(x.TLeaf?, JoinedPair(c, x).cells)
    ensures AllForest(Fill(PairFrame(c), JoinedPair(c, x)).kids, Rule(n)) && PageFits(false, PairFrame(c).cells, n)
  {
    var j, d := JoinedPair(c, x), Donor(c);
    if x.TNode? { AllForestAppend(First(c, x).kids, Second(c, x).kids, Rule(n)); }
    FillAll(PairFrame(c), j, Rule(n));
    DropCellFits(false, c.cells, d, n);
  }

  lemma DropCellFits(leaf: bool, cells: seq<Entry>, d: nat, n: nat)
    requires PageFits(leaf, cells, n) && d < |cells|
    ensures PageFits(leaf, cells[..d] + cells[d + 1..], n)
  {
    var rest := cells[..d] + cells[d + 1..];
    FewerBytes(leaf, cells, d);
    forall i | 0 <= i < |rest| ensures Good(n)(rest[i]) {
      assert Good(n)(cells[if i < d then i else i + 1]);
    }
  }

  lemma FewerBytes(leaf: bool, cells: seq<Entry>, d: nat)
    requires d < |cells|
    ensures Bytes(cells[..d] + cells[d + 1..], Weight(leaf)) <= Bytes(cells, Weight(leaf))
  {
    BytesSplice(cells, d, d + 1, [], Weight(leaf));
    assert cells[..d] + [] + cells[d + 1..] == cells[..d] + cells[d + 1..];
  }

  lemma MergedIds(c: Ctx<Entry>, x: Tree<Entry>, h: nat, keep: multiset<PageId>)
    requires c.Frame? && |c.left| + |c.right| == |c.cells| >= 1 && Level(First(c, x), Second(c, x))
    ensures Untouched(c, x) + keep + multiset{c.id} + multiset{Sibling(c).id}
         == CtxIds(c.up) + NodeIds(Fill(PairFrame(c), JoinedPair(c, x))) + keep
  {
    var f, j := PairFrame(c), JoinedPair(c, x);
    FillIds(f, j);
    if x.TNode? { ForestAppend(First(c, x).kids, Second(c, x).kids); }
    assert NodeIds(j) == multiset{j.id} + (ForestOf(First(c, x)) + ForestOf(Second(c, x)));
  }

  /** Two writes and a free, none of them on `rest`. */
  lemma AgreeThree<X>(m0: map<PageId, Page<X>>, m1: map<PageId, Page<X>>, m2: map<PageId, Page<X>>, m3: map<PageId, Page<X>>,
                      u: multiset<PageId>, a: PageId, b: PageId, c: PageId, rest: multiset<PageId>)
    requires u == rest + multiset{c} + multiset{b} + multiset{a}
    requires Agree(m0, m1, u - multiset{b}) && Agree(m1, m2, u - multiset{c}) && Agree(m2, m3, u - multiset{a})
    ensures Agree(m0, m3, rest)
  {
    AgreeSub(m0, m1, u - multiset{b}, rest);
    AgreeSub(m1, m2, u - multiset{c}, rest);
    AgreeSub(m2, m3, u - multiset{a}, rest);
    AgreeTrans(m0, m1, m2, rest);
    AgreeTrans(m0, m2, m3, rest);
  }

  lemma DistinctPages(used: multiset<PageId>, free: seq<PageId>, n: nat, rest: multiset<PageId>, a: PageId, b: PageId, c: PageId)
    requires Ledger(used, free, n) && used == rest + multiset{c} + multiset{b} + multiset{a}
    ensures a != b && b != c && a != c && a !in rest && b !in rest && c !in rest
  {
    LedgerPush(used, free, n, a);
    LedgerPush(used, free, n, b);
    LedgerPush(used, free, n, c);
  }

  /** Rewrite two pages and free a third, all different. */
  method WriteTwoFreeOne<X>(s: PageStore<X>, b: PageId, bodyB: Page<X>, c: PageId, bodyC: Page<X>, a: PageId, ghost rest: multiset<PageId>)
    requires s.Valid() && s.used == rest + multiset{c} + multiset{b} + multiset{a}
    modifies s
    ensures s.Valid() && s.used == rest + multiset{c} + multiset{b} && Agree(old(s.pages), s.pages, rest)
    ensures b in s.pages && s.pages[b] == bodyB && c in s.pages && s.pages[c] == bodyC
  {
    DistinctPages(s.used, s.free, s.pageCount, rest, a, b, c);
    s.Write(b, bodyB);
    ghost var m1 := s.pages;
    s.Write(c, bodyC);
    ghost var m2 := s.pages;
    s.Free(a);
    AgreeThree(old(s.pages), m1, m2, s.pages, old(s.used), a, b, c, rest);
  }

  /** The divider moves down into the sibling, and the empty page is freed. */
  method MergeInto(s: PageStore<Entry>, parentId: PageId, pageId: PageId, siblingId: PageId, donor: nat, prepend: bool, div: Entry,
      ghost c: Ctx<Entry>, ghost x: Tree<Entry>, ghost h: nat, ghost n: nat, ghost keep: multiset<PageId>)
    returns (ghost p: Tree<Entry>)
    requires s.Valid() && c.Frame? && Emptied(s.pages, s.used, c, x, h, n, keep) && |c.left| + |c.right| == |c.cells| >= 1
    requires parentId == c.id && pageId == x.id && siblingId == Sibling(c).id && donor == Donor(c) && div == Divider(c)
    requires prepend == (|c.left| < |c.cells|) && Level(First(c, x), Second(c, x))
    requires Rule(n)(x.TLeaf?, JoinedPair(c, x).cells)
    modifies s
    ensures s.Valid() && Agree(old(s.pages), s.pages, keep)
    ensures p.cells == PairFrame(c).cells && Flat(p) == Flat(Fill(c, x)) && p.id == c.id
    ensures Reset(s.pages, s.used, c.up, p, h + 1, n, keep)
  {
    Parts(s.pages, s.used, c, x, h, n, keep);
    MergedShallow(c, x, h);
    NarrowedShallow(c, x, JoinedPair(c, x), s.pages[parentId]);
    var merged := MergedPage(s.pages[siblingId], s.pages[pageId], div, prepend);
    var narrowed := NarrowedPage(s.pages[parentId], donor, prepend, siblingId);
    WriteTwoFreeOne(s, siblingId, merged, parentId, narrowed, pageId, Untouched(c, x) + keep);
    p := Merged(old(s.pages), s.pages, old(s.used), c, x, h, n, keep);
  }

  ghost function RotatedLeft(c: Ctx<Entry>, x: Tree<Entry>): Tree<Entry>
    requires c.Frame? && |c.left| + |c.right| == |c.cells| >= 1 && Level(First(c, x), Second(c, x))
    requires |Sibling(c).cells| >= 1 && Bare(x)
  {
    CutLeft(First(c, x).id, JoinedPair(c, x), RotateAt(c))
  }

  ghost function RotatedRight(c: Ctx<Entry>, x: Tree<Entry>): Tree<Entry>
    requires c.Frame? && |c.left| + |c.right| == |c.cells| >= 1 && Level(First(c, x), Second(c, x))
    requires |Sibling(c).cells| >= 1 && Bare(x)
  {
    CutRight(Second(c, x).id, JoinedPair(c, x), RotateAt(c))
  }

  ghost function NewDivider(c: Ctx<Entry>, x: Tree<Entry>): Entry
    requires c.Frame? && |c.left| + |c.right| == |c.cells| >= 1 && Level(First(c, x), Second(c, x))
    requires |Sibling(c).cells| >= 1 && Bare(x)
  {
    JoinedPair(c, x).cells[RotateAt(c)]
  }

  /** The parent's sequence before a rotation, and after it with any divider. */
  lemma RotatedFlat(c: Ctx<Entry>, x: Tree<Entry>, div: Entry, h: nat) returns (u: seq<Entry>, v: seq<Entry>)
    requires c.Frame? && CtxShape(c, h) && Shape(x, h) && |c.cells| >= 1 && CtxShape(PairFrame(c), h) && Shape(Sibling(c), h)
    requires Level(First(c, x), Second(c, x)) && |Sibling(c).cells| >= 1 && Bare(x)
    ensures Flat(Fill(c, x)) == u + (Flat(First(c, x)) + [Divider(c)] + Flat(Second(c, x))) + v
    ensures Flat(Fill(c, x)) == u + (Flat(RotatedLeft(c, x)) + [NewDivider(c, x)] + Flat(RotatedRight(c, x))) + v
    ensures
      var p := Widen(PairFrame(c), RotatedLeft(c, x), div, RotatedRight(c, x));
      Flat(p) == u + (Flat(RotatedLeft(c, x)) + [div] + Flat(RotatedRight(c, x))) + v && Shape(p, h + 1)
  {
    var f, a, d, b, k := PairFrame(c), First(c, x), Divider(c), Second(c, x), RotateAt(c);
    var j := JoinedPair(c, x);
    JoinedFacts(map[], Sibling(c).id, a, d, b, h, (_, _) => true);
    CutFacts(map[], j, k, a.id, b.id, h, (_, _) => true);
    PairIsFill(c, x);
    WidenFlat(f, a, d, b, h);
    var l, r := RotatedLeft(c, x), RotatedRight(c, x);
    WidenFlat(f, l, div, r, h);
    u, v := FlatBefore(f.cells[..|f.left|], f.left), FlatAfter(f.cells[|f.left|..], f.right);
    Flatten(u, Flat(a), [d], Flat(b), v);
    Flatten(u, Flat(l), [div], Flat(r), v);
  }

  lemma RotatedRep(m: map<PageId, Page<Entry>>, m': map<PageId, Page<Entry>>, c: Ctx<Entry>, x: Tree<Entry>, div: Entry,
                   h: nat, n: nat, keep: multiset<PageId>)
    requires c.Frame? && CtxShape(c, h) && Shape(x, h) && |c.cells| >= 1 && Level(First(c, x), Second(c, x))
    requires |Sibling(c).cells| >= 1 && Bare(x) && Shape(Sibling(c), h)
    requires Reps(m, PairFrame(c).left) && Reps(m, PairFrame(c).right) && Rep(m, Sibling(c)) && Rep(m, x) && CtxRep(m, c.up, c.id)
    requires AllForest(PairFrame(c).left, Rule(n)) && AllForest(PairFrame(c).right, Rule(n))
    requires AllPages(Sibling(c), Rule(n)) && (x.TNode? ==> AllForest(x.kids, Rule(n)))
    requires Agree(m, m', Untouched(c, x) + keep)
    requires
      var l, r := RotatedLeft(c, x), RotatedRight(c, x);
      && l.id in m' && m'[l.id] == Shallow(l) && Rule(n)(x.TLeaf?, l.cells)
      && r.id in m' && m'[r.id] == Shallow(r) && Rule(n)(x.TLeaf?, r.cells)
    ensures
      var p := Widen(PairFrame(c), RotatedLeft(c, x), div, RotatedRight(c, x));
      Reps(m', p.kids) && AllForest(p.kids, Rule(n))
    ensures CtxRep(m', c.up, c.id) && Agree(m, m', keep)
  {
    var f, j, all := PairFrame(c), JoinedPair(c, x), Untouched(c, x) + keep;
    AgreeSub(m, m', all, CtxIds(c.up));
    AgreeSub(m, m', all, ForestIds(f.left));
    AgreeSub(m, m', all, ForestIds(f.right));
    AgreeSub(m, m', all, keep);
    CtxFrame(m, m', c.up, c.id);
    RepsFrame(m, m', f.left);
    RepsFrame(m, m', f.right);
    if x.TNode? {
      ForestAppend(First(c, x).kids, Second(c, x).kids);
      RepsAppend(m, First(c, x).kids, Second(c, x).kids);
      AllForestAppend(First(c, x).kids, Second(c, x).kids, Rule(n));
      AgreeSub(m, m', all, ForestIds(j.kids));
      RepsFrame(m, m', j.kids);
    }
    RotatedHalves(m', c, x, n);
    WidenKids(m', f, RotatedLeft(c, x), div, RotatedRight(c, x), Rule(n));
  }

  lemma RotatedHalves(m: map<PageId, Page<Entry>>, c: Ctx<Entry>, x: Tree<Entry>, n: nat)
    requires c.Frame? && |c.left| + |c.right| == |c.cells| >= 1 && Level(First(c, x), Second(c, x))
    requires |Sibling(c).cells| >= 1 && Bare(x)
    requires x.TNode? ==> Reps(m, JoinedPair(c, x).kids) && AllForest(JoinedPair(c, x).kids, Rule(n))
    requires
      var l, r := RotatedLeft(c, x), RotatedRight(c, x);
      && l.id in m && m[l.id] == Shallow(l) && Rule(n)(x.TLeaf?, l.cells)
      && r.id in m && m[r.id] == Shallow(r) && Rule(n)(x.TLeaf?, r.cells)
    ensures Rep(m, RotatedLeft(c, x)) && Rep(m, RotatedRight(c, x))
    ensures AllPages(RotatedLeft(c, x), Rule(n)) && AllPages(RotatedRight(c, x), Rule(n))
  {
    if x.TNode? { KidsApart(m, JoinedPair(c, x).kids, RotateAt(c) + 1, n); }
  }

  lemma KidsApart(m: map<PageId, Page<Entry>>, kids: seq<Tree<Entry>>, k: nat, n: nat)
    requires k <= |kids| && Reps(m, kids) && AllForest(kids, Rule(n))
    ensures Reps(m, kids[..k]) && Reps(m, kids[k..]) && AllForest(kids[..k], Rule(n)) && AllForest(kids[k..], Rule(n))
  {
    assert kids == kids[..k] + kids[k..];
    RepsAppend(m, kids[..k], kids[k..]);
    AllForestAppend(kids[..k], kids[k..], Rule(n));
  }

  lemma RotatedIds(c: Ctx<Entry>, x: Tree<Entry>, div: Entry, h: nat, n: nat, keep: multiset<PageId>)
    requires c.Frame? && CtxShape(c, h) && Shape(x, h) && |c.cells| >= 1 && Level(First(c, x), Second(c, x))
    requires |Sibling(c).cells| >= 1 && Bare(x) && Shape(Sibling(c), h)
    ensures
      var p := Widen(PairFrame(c), RotatedLeft(c, x), div, RotatedRight(c, x));
      Untouched(c, x) + keep + multiset{c.id} + multiset{Sibling(c).id} + multiset{x.id} == CtxIds(c.up) + NodeIds(p) + keep
  {
    var f, a, b := PairFrame(c), First(c, x), Second(c, x);
    var l, r := RotatedLeft(c, x), RotatedRight(c, x);
    WidenKids(map[], f, l, div, r, Rule(n));
    NodeIdsOf(l);
    NodeIdsOf(r);
    RotatedForest(c, x);
    Scatter(CtxIds(c.up), ForestIds(f.left), ForestIds(f.right), ForestOf(l), ForestOf(r),
            multiset{c.id}, multiset{a.id}, multiset{b.id}, keep);
    Swap(multiset{a.id}, multiset{b.id});
  }

  lemma RotatedForest(c: Ctx<Entry>, x: Tree<Entry>)
    requires c.Frame? && |c.left| + |c.right| == |c.cells| >= 1 && Level(First(c, x), Second(c, x))
    requires |Sibling(c).cells| >= 1 && Bare(x)
    ensures ForestOf(RotatedLeft(c, x)) + ForestOf(RotatedRight(c, x)) == ForestOf(First(c, x)) + ForestOf(Second(c, x))
  {
    if x.TNode? {
      var kids, k := First(c, x).kids + Second(c, x).kids, RotateAt(c);
      ForestAppend(First(c, x).kids, Second(c, x).kids);
      ForestAppend(kids[..k + 1], kids[k + 1..]);
      assert kids == kids[..k + 1] + kids[k + 1..];
    }
  }

  lemma Scatter(up: multiset<PageId>, l: multiset<PageId>, r: multiset<PageId>, fl: multiset<PageId>, fr: multiset<PageId>,
                c: multiset<PageId>, a: multiset<PageId>, b: multiset<PageId>, keep: multiset<PageId>)
    ensures up + l + r + (fl + fr) + keep + c + a + b == up + (c + (l + (a + fl) + (b + fr) + r)) + keep
    ensures up + l + r + (fl + fr) + keep + c + b + a == up + (c + (l + (a + fl) + (b + fr) + r)) + keep
  {
  }

  /** The two children rewritten around the divider that the parent has. */
  lemma Rotated(m: map<PageId, Page<Entry>>, m': map<PageId, Page<Entry>>, used: multiset<PageId>, c: Ctx<Entry>, x: Tree<Entry>, div: Entry,
                h: nat, n: nat, keep: multiset<PageId>)
    returns (p: Tree<Entry>)
    requires c.Frame? && Emptied(m, used, c, x, h, n, keep)
    requires |c.cells| >= 1 && Level(First(c, x), Second(c, x)) && |Sibling(c).cells| >= 1
    requires Agree(m, m', Untouched(c, x) + keep)
    requires
      var l, r := RotatedLeft(c, x), RotatedRight(c, x);
      && l.id in m' && m'[l.id] == Shallow(l) && Rule(n)(x.TLeaf?, l.cells)
      && r.id in m' && m'[r.id] == Shallow(r) && Rule(n)(x.TLeaf?, r.cells)
      && c.id in m' && m'[c.id] == Shallow(Widen(PairFrame(c), l, div, r))
    requires PageFits(false, c.cells[Donor(c) := div], n)
    ensures p == Widen(PairFrame(c), RotatedLeft(c, x), div, RotatedRight(c, x))
    ensures |p.cells| == |c.cells| && (div == NewDivider(c, x) ==> Flat(p) == Flat(Fill(c, x)))
    ensures Reset(m', used, c.up, p, h + 1, n, keep)
    ensures Agree(m, m', keep)
  {
    p := Widen(PairFrame(c), RotatedLeft(c, x), div, RotatedRight(c, x));
    Parts(m, used, c, x, h, n, keep);
    PairParts(m, c, h, Rule(n));
    var u, v := RotatedFlat(c, x, div, h);
    RotatedRep(m, m', c, x, div, h, n, keep);
    RotatedIds(c, x, div, h, n, keep);
    RedividedCells(c, RotatedLeft(c, x), div, RotatedRight(c, x));
  }

  /** A rotation always refills the empty page and never drains the sibling. */
  lemma RotatedPagesFit(c: Ctx<Entry>, x: Tree<Entry>, n: nat)
    requires c.Frame? && |c.left| + |c.right| == |c.cells| >= 1 && Level(First(c, x), Second(c, x)) && Bare(x)
    requires |Sibling(c).cells| >= 2 && Rule(n)(x.TLeaf?, Sibling(c).cells) && GoodEntry(Divider(c), n)
    ensures Rule(n)(x.TLeaf?, RotatedLeft(c, x).cells) && Rule(n)(x.TLeaf?, RotatedRight(c, x).cells)
    ensures GoodEntry(NewDivider(c, x), n)
  {
    hide Rule, GoodEntry;
    var s, d := Sibling(c).cells, Divider(c);
    var k := if |c.left| < |c.cells| then 0 else |s| - 1;
    TakenFits(x.TLeaf?, s, k, d, n);
    RotatedCells(c, x);
  }

  lemma TakenFits(leaf: bool, s: seq<Entry>, k: nat, d: Entry, n: nat)
    requires |s| >= 2 && k < |s| && Rule(n)(leaf, s) && GoodEntry(d, n)
    ensures Rule(n)(leaf, s[..k] + s[k + 1..]) && Rule(n)(leaf, [d]) && GoodEntry(s[k], n)
  {
    DropCellFits(leaf, s, k, n);
    BytesOne(d, Weight(leaf));
    assert Good(n)(s[k]) && AllGood([d], Good(n));
  }

  lemma RotatedCells(c: Ctx<Entry>, x: Tree<Entry>)
    requires c.Frame? && |c.left| + |c.right| == |c.cells| >= 1 && Level(First(c, x), Second(c, x)) && Bare(x)
    requires |Sibling(c).cells| >= 2
    ensures
      var s := Sibling(c).cells;
      var k := if |c.left| < |c.cells| then 0 else |s| - 1;
      var less := s[..k] + s[k + 1..];
      && RotatedLeft(c, x).cells == (if |c.left| < |c.cells| then [Divider(c)] else less)
      && RotatedRight(c, x).cells == (if |c.left| < |c.cells| then less else [Divider(c)])
      && NewDivider(c, x) == s[k]
  {
  }

  method WriteThree<X>(s: PageStore<X>, b: PageId, bodyB: Page<X>, a: PageId, bodyA: Page<X>, c: PageId, bodyC: Page<X>,
      ghost rest: multiset<PageId>)
    requires s.Valid() && s.used == rest + multiset{c} + multiset{b} + multiset{a}
    modifies s
    ensures s.Valid() && s.used == old(s.used) && Agree(old(s.pages), s.pages, rest)
    ensures b in s.pages && s.pages[b] == bodyB && c in s.pages && s.pages[c] == bodyC && a in s.pages && s.pages[a] == bodyA
  {
    DistinctPages(s.used, s.free, s.pageCount, rest, a, b, c);
    s.Write(b, bodyB);
    ghost var m1 := s.pages;
    s.Write(a, bodyA);
    ghost var m2 := s.pages;
    s.Write(c, bodyC);
    AgreeSub(old(s.pages), m1, s.used - multiset{b}, rest);
    AgreeSub(m1, m2, s.used - multiset{a}, rest);
    AgreeSub(m2, s.pages, s.used - multiset{c}, rest);
    AgreeTrans(old(s.pages), m1, m2, rest);
    AgreeTrans(old(s.pages), m2, s.pages, rest);
  }

  /** The divider refills the empty page, and the sibling's nearest entry becomes
      the divider. */
  method RotateFrom(s: PageStore<Entry>, parentId: PageId, pageId: PageId, siblingId: PageId, donor: nat, prepend: bool, div: Entry,
      ghost c: Ctx<Entry>, ghost x: Tree<Entry>, ghost h: nat, ghost n: nat, ghost keep: multiset<PageId>)
    returns (ghost p: Tree<Entry>)
    requires s.Valid() && c.Frame? && Emptied(s.pages, s.used, c, x, h, n, keep) && |c.left| + |c.right| == |c.cells| >= 1
    requires parentId == c.id && pageId == x.id && siblingId == Sibling(c).id && donor == Donor(c) && div == Divider(c)
    requires prepend == (|c.left| < |c.cells|) && Level(First(c, x), Second(c, x)) && |Sibling(c).cells| >= 2
    requires Bytes(c.cells[Donor(c) := NewDivider(c, x)], InteriorWeight) <= INTERIOR_ROOM
    modifies s
    ensures s.Valid() && Agree(old(s.pages), s.pages, keep)
    ensures |p.cells| == |c.cells| && Flat(p) == Flat(Fill(c, x)) && p.id == c.id
    ensures Reset(s.pages, s.used, c.up, p, h + 1, n, keep)
  {
    Parts(s.pages, s.used, c, x, h, n, keep);
    RefilledShallow(c, x, h);
    LenderShallow(c, x, h);
    RedividedShallow(c, x, RotatedLeft(c, x), NewDivider(c, x), RotatedRight(c, x), s.pages[parentId]);
    RotatedPagesFit(c, x, n);
    RedividedFits(c, x, n);
    var sibling, empty, parent := s.pages[siblingId], s.pages[pageId], s.pages[parentId];
    WriteThree(s, siblingId, LenderPage(sibling, prepend), pageId, RefilledPage(sibling, empty, div, prepend),
               parentId, RedividedPage(parent, donor, Borrowed(sibling, prepend)), Untouched(c, x) + keep);
    p := Rotated(old(s.pages), s.pages, old(s.used), c, x, NewDivider(c, x), h, n, keep);
  }

  /** The parent's cells with the entry that a rotation would move up. */
  lemma RotatedSeps(m: map<PageId, Page<Entry>>, used: multiset<PageId>, c: Ctx<Entry>, x: Tree<Entry>, h: nat, n: nat, keep: multiset<PageId>)
    requires c.Frame? && Emptied(m, used, c, x, h, n, keep) && |c.left| + |c.right| == |c.cells| >= 1
    requires Level(First(c, x), Second(c, x)) && |Sibling(c).cells| >= 2
    ensures c.id in m && m[c.id].InteriorPage? && Donor(c) < |m[c.id].routed| && Sibling(c).id in m
    ensures
      var sibling := m[Sibling(c).id];
      (sibling.LeafPage? && |sibling.cells| >= 1) || (sibling.InteriorPage? && |sibling.routed| >= 1)
    ensures Seps(RedividedPage(m[c.id], Donor(c), Borrowed(m[Sibling(c).id], |c.left| < |c.cells|))) == c.cells[Donor(c) := NewDivider(c, x)]
  {
    Parts(m, used, c, x, h, n, keep);
    LenderShallow(c, x, h);
    RedividedShallow(c, x, RotatedLeft(c, x), NewDivider(c, x), RotatedRight(c, x), m[c.id]);
  }

  method RotatedBytes(s: PageStore<Entry>, parentId: PageId, siblingId: PageId, donor: nat, prepend: bool,
      ghost c: Ctx<Entry>, ghost x: Tree<Entry>, ghost h: nat, ghost n: nat, ghost keep: multiset<PageId>)
    returns (bytes: nat)
    requires s.Valid() && c.Frame? && Emptied(s.pages, s.used, c, x, h, n, keep) && |c.left| + |c.right| == |c.cells| >= 1
    requires parentId == c.id && siblingId == Sibling(c).id && donor == Donor(c)
    requires prepend == (|c.left| < |c.cells|) && Level(First(c, x), Second(c, x)) && |Sibling(c).cells| >= 2
    ensures bytes == Bytes(c.cells[Donor(c) := NewDivider(c, x)], InteriorWeight)
  {
    RotatedSeps(s.pages, s.used, c, x, h, n, keep);
    bytes := TotalBytes(Seps(RedividedPage(s.pages[parentId], donor, Borrowed(s.pages[siblingId], prepend))), InteriorWeight);
  }

  lemma RedividedFits(c: Ctx<Entry>, x: Tree<Entry>, n: nat)
    requires c.Frame? && |c.left| + |c.right| == |c.cells| >= 1 && Level(First(c, x), Second(c, x)) && Bare(x)
    requires |Sibling(c).cells| >= 1 && PageFits(false, c.cells, n) && GoodEntry(NewDivider(c, x), n)
    requires Bytes(c.cells[Donor(c) := NewDivider(c, x)], InteriorWeight) <= INTERIOR_ROOM
    ensures PageFits(false, c.cells[Donor(c) := NewDivider(c, x)], n)
  {
    var cells := c.cells[Donor(c) := NewDivider(c, x)];
    forall i | 0 <= i < |cells| ensures Good(n)(cells[i]) { assert Good(n)(c.cells[i]); }
  }

  /** A repaired tree with the given sequence. */
  ghost predicate Repaired(m: map<PageId, Page<Entry>>, used: multiset<PageId>, t: Tree<Entry>, height: nat, n: nat,
                           keep: multiset<PageId>)
  {
    Rep(m, t) && Shape(t, height) && PagesOk(t, n) && used == NodeIds(t) + keep
  }

  /** A parent that still has cells ends the repair. */
  lemma Finish(m: map<PageId, Page<Entry>>, used: multiset<PageId>, c: Ctx<Entry>, p: Tree<Entry>, h: nat, n: nat,
               keep: multiset<PageId>)
    returns (t: Tree<Entry>, height: nat)
    requires c.Frame? && CtxShape(c, h) && Reset(m, used, c.up, p, h + 1, n, keep) && |p.cells| >= 1 && p.id == c.id
    ensures Repaired(m, used, t, height, n, keep) && t.id == RootPage(c)
    ensures Flat(t) == FlatLeft(c.up) + Flat(p) + FlatRight(c.up)
  {
    t := Plug(c.up, p);
    height := Reassemble(m, c.up, p, h + 1, Rule(n));
    PlugTop(c.up, p);
    PlugFlat(c.up, p, h + 1);
  }

  lemma StillEmpty(m: map<PageId, Page<Entry>>, used: multiset<PageId>, c: Ctx<Entry>, x: Tree<Entry>, p: Tree<Entry>, h: nat, n: nat,
                   keep: multiset<PageId>)
    requires c.Frame? && CtxShape(c, h) && Reset(m, used, c.up, p, h + 1, n, keep) && |p.cells| == 0
    requires Flat(p) == Flat(Fill(c, x)) && p.id == c.id
    ensures Emptied(m, used, c.up, p, h + 1, n, keep) && Flat(Plug(c.up, p)) == Flat(Plug(c, x))
  {
    PlugFlat(c.up, p, h + 1);
    PlugFlat(c.up, Fill(c, x), h + 1);
  }

  ghost function Relabel(t: Tree<Entry>, id: PageId): Tree<Entry> {
    if t.TLeaf? then TLeaf(id, t.cells) else TNode(id, t.cells, t.kids)
  }

  /** The root has run out of cells: its only child takes its page. */
  method PullUp(s: PageStore<Entry>, root: PageId, childId: PageId, ghost x: Tree<Entry>, ghost h: nat, ghost n: nat,
      ghost keep: multiset<PageId>)
    returns (ghost t: Tree<Entry>, ghost height: nat)
    requires s.Valid() && Emptied(s.pages, s.used, Top, x, h, n, keep) && x.TNode? && root == x.id && childId == x.kids[0].id
    modifies s
    ensures s.Valid() && Agree(old(s.pages), s.pages, keep)
    ensures Repaired(s.pages, s.used, t, height, n, keep) && t.id == root && Flat(t) == Flat(x)
  {
    ghost var k := x.kids[0];
    OnlyChild(s.pages, s.used, x, h, n, keep);
    WriteOneFreeOne(s, root, s.pages[childId], childId, ForestOf(k) + keep);
    PulledUp(old(s.pages), s.pages, k, root, keep, h - 1, n);
    t, height := Relabel(k, root), h - 1;
  }

  lemma OnlyChild(m: map<PageId, Page<Entry>>, used: multiset<PageId>, x: Tree<Entry>, h: nat, n: nat, keep: multiset<PageId>)
    requires Emptied(m, used, Top, x, h, n, keep) && x.TNode?
    ensures h > 0 && Rep(m, x.kids[0]) && AllPages(x.kids[0], Rule(n)) && Shape(x.kids[0], h - 1)
    ensures Flat(x) == Flat(x.kids[0]) && used == ForestOf(x.kids[0]) + keep + multiset{x.id} + multiset{x.kids[0].id}
  {
    var k := x.kids[0];
    assert x.kids == [k];
    Singleton(m, k, Rule(n));
    ShapesOne(k, h - 1);
    NodeIdsOf(k);
    Gather(multiset{x.id}, multiset{}, multiset{}, multiset{}, multiset{k.id}, ForestOf(k), multiset{}, multiset{}, keep);
    assert used == multiset{x.id} + (multiset{k.id} + ForestOf(k)) + keep;
  }

  method WriteOneFreeOne<X>(s: PageStore<X>, b: PageId, bodyB: Page<X>, a: PageId, ghost rest: multiset<PageId>)
    requires s.Valid() && s.used == rest + multiset{b} + multiset{a}
    modifies s
    ensures s.Valid() && s.used == rest + multiset{b} && Agree(old(s.pages), s.pages, rest)
    ensures b in s.pages && s.pages[b] == bodyB
  {
    LedgerPush(s.used, s.free, s.pageCount, b);
    LedgerPush(s.used, s.free, s.pageCount, a);
    s.Write(b, bodyB);
    ghost var m1 := s.pages;
    s.Free(a);
    AgreeSub(old(s.pages), m1, old(s.used) - multiset{b}, rest);
    AgreeSub(m1, s.pages, s.used, rest);
    AgreeTrans(old(s.pages), m1, s.pages, rest);
  }

  lemma PulledUp(m: map<PageId, Page<Entry>>, m': map<PageId, Page<Entry>>, k: Tree<Entry>, root: PageId, keep: multiset<PageId>,
                 h: nat, n: nat)
    requires Rep(m, k) && Shape(k, h) && AllPages(k, Rule(n)) && Agree(m, m', ForestOf(k) + keep)
    requires root in m' && m'[root] == Shallow(k)
    ensures Repaired(m', ForestOf(k) + keep + multiset{root}, Relabel(k, root), h, n, keep) && Agree(m, m', keep)
    ensures Flat(Relabel(k, root)) == Flat(k)
  {
    AgreeSub(m, m', ForestOf(k) + keep, keep);
    AgreeSub(m, m', ForestOf(k) + keep, ForestOf(k));
    if k.TNode? { RepsFrame(m, m', k.kids); }
  }

  function CellsOf<X>(p: Page<X>): seq<X>
    requires p.LeafPage? || p.InteriorPage?
  {
    if p.LeafPage? then p.cells else Seps(p)
  }

  /** What the repair reads from the parent and the sibling. */
  lemma ReadPair(m: map<PageId, Page<Entry>>, used: multiset<PageId>, c: Ctx<Entry>, x: Tree<Entry>, h: nat, n: nat,
                 keep: multiset<PageId>)
    requires c.Frame? && Emptied(m, used, c, x, h, n, keep)
    ensures |c.left| + |c.right| == |c.cells| >= 1 && Level(First(c, x), Second(c, x)) && GoodEntry(Divider(c), n)
    ensures c.id in m && m[c.id].InteriorPage? && |m[c.id].routed| == |c.cells|
    ensures m[c.id].routed[Donor(c)].sep == Divider(c)
    ensures Children(m[c.id])[if |c.left| < |c.cells| then |c.left| + 1 else Donor(c)] == Sibling(c).id
    ensures Sibling(c).id in m && (if x.TLeaf? then m[Sibling(c).id].LeafPage? else m[Sibling(c).id].InteriorPage?)
    ensures CellsOf(m[Sibling(c).id]) == Sibling(c).cells && Rule(n)(x.TLeaf?, Sibling(c).cells)
    ensures x.id in m && (if x.TLeaf? then m[x.id].LeafPage? else m[x.id].InteriorPage? && m[x.id].right == x.kids[0].id)
  {
    Parts(m, used, c, x, h, n, keep);
    assert Seps(m[c.id])[Donor(c)] == Divider(c);
    ReadBare(m, x, h);
  }

  lemma ReadBare(m: map<PageId, Page<Entry>>, x: Tree<Entry>, h: nat)
    requires Rep(m, x) && Bare(x) && Shape(x, h)
    ensures if x.TLeaf? then m[x.id].LeafPage? else m[x.id].InteriorPage? && m[x.id].right == x.kids[0].id
  {
    if x.TNode? {
      assert KidIds(x.kids) == [x.kids[0].id];
      assert Children(m[x.id])[0] == m[x.id].right;
    }
  }

  lemma MergeFits(c: Ctx<Entry>, x: Tree<Entry>, n: nat)
    requires c.Frame? && |c.left| + |c.right| == |c.cells| >= 1 && Level(First(c, x), Second(c, x)) && Bare(x)
    requires Rule(n)(x.TLeaf?, Sibling(c).cells) && GoodEntry(Divider(c), n)
    requires Bytes(Sibling(c).cells, Weight(x.TLeaf?)) + Weight(x.TLeaf?)(Divider(c)) <= Room(x.TLeaf?)
    ensures Rule(n)(x.TLeaf?, JoinedPair(c, x).cells)
  {
    var s, d := Sibling(c).cells, Divider(c);
    assert JoinedPair(c, x).cells == if |c.left| < |c.cells| then [d] + s else s + [d];
    JoinedFits(x.TLeaf?, s, d, n);
  }

  lemma JoinedFits(leaf: bool, s: seq<Entry>, d: Entry, n: nat)
    requires Rule(n)(leaf, s) && GoodEntry(d, n) && Bytes(s, Weight(leaf)) + Weight(leaf)(d) <= Room(leaf)
    ensures Rule(n)(leaf, [d] + s) && Rule(n)(leaf, s + [d])
  {
    BytesOne(d, Weight(leaf));
    BytesAppend([d], s, Weight(leaf));
    BytesAppend(s, [d], Weight(leaf));
    assert Good(n)(d);
  }

  /** A sibling down to one cell can always absorb the divider, so one of merge
      and rotation is always possible. */
  lemma OneCellMerges(leaf: bool, cells: seq<Entry>, d: Entry)
    requires |cells| == 1
    ensures Bytes(cells, Weight(leaf)) + Weight(leaf)(d) <= Room(leaf)
  {
    assert cells == [cells[0]];
    BytesOne(cells[0], Weight(leaf));
  }

  /** The sibling's entry nearest to the hole. */
  ghost function Edge(c: Ctx<Entry>): Entry
    requires c.Frame? && |c.left| + |c.right| == |c.cells| >= 1 && |Sibling(c).cells| >= 1
  {
    if |c.left| < |c.cells| then Sibling(c).cells[0] else Sibling(c).cells[|Sibling(c).cells| - 1]
  }

  /** The sibling takes the divider in: it has room, and the parent can spare it
      or the sibling has nothing to lend. */
  ghost predicate Absorbs(c: Ctx<Entry>, leaf: bool, root: PageId)
    requires c.Frame? && |c.left| + |c.right| == |c.cells| >= 1
  {
    && Bytes(Sibling(c).cells, Weight(leaf)) + Weight(leaf)(Divider(c)) <= Room(leaf)
    && !(|c.cells| == 1 && c.id != root && |Sibling(c).cells| >= 2)
  }

  /** The repair of an emptied page goes through: at the level where it ends by a
      rotation, if it does, the entry that moves up fits in place of the divider. */
  ghost predicate RepairFits(c: Ctx<Entry>, leaf: bool, root: PageId) {
    if c.Top? || |c.left| + |c.right| != |c.cells| || |c.cells| == 0 || |Sibling(c).cells| == 0 then true
    else if Absorbs(c, leaf, root) then |c.cells| > 1 || RepairFits(c.up, false, root)
    else Bytes(c.cells[Donor(c) := Edge(c)], InteriorWeight) <= INTERIOR_ROOM
  }

  /** One entry has been overwritten by a copy of another. */
  ghost predicate Spoilt(s: seq<Entry>, s': seq<Entry>) {
    exists j: nat, k: nat :: SpoiltAt(s, s', j, k)
  }

  ghost predicate SpoiltAt(s: seq<Entry>, s': seq<Entry>, j: nat, k: nat) {
    j < |s| && k < |s| && j != k && s' == s[k := s[j]]
  }

  /** So the sequence is no longer in order. */
  lemma SpoiltIsUnsorted(s: seq<Entry>, s': seq<Entry>)
    requires Spoilt(s, s')
    ensures !Sorted(s')
  {
    var j: nat, k: nat :| SpoiltAt(s, s', j, k);
    KeysAntisymmetric(s[j].key, s[j].key);
    assert s'[j] == s'[k] == s[j];
    assert !Ascends(s', Min(j, k), if j < k then k else j);
  }

  /** With the old divider between the rotated children, the entry that was to
      replace it is lost, and the divider is there twice. */
  lemma SpoiltByDivider(u: seq<Entry>, a: seq<Entry>, d: Entry, b: seq<Entry>, l: seq<Entry>, e: Entry, r: seq<Entry>, v: seq<Entry>)
    requires a + [d] + b == l + [e] + r && |a| != |l|
    ensures SpoiltAt(u + (a + [d] + b) + v, u + (l + [d] + r) + v, |u| + |a|, |u| + |l|)
  {
    var s := u + (a + [d] + b) + v;
    assert s[|u| + |a|] == (a + [d] + b)[|a|] == d;
    assert s == u + (l + [e] + r) + v;
    assert s[|u| + |l| := d] == u + (l + [d] + r) + v;
  }

  lemma SpoiltWithin(s: seq<Entry>, s': seq<Entry>, left: seq<Entry>, right: seq<Entry>, j: nat, k: nat)
    requires SpoiltAt(s, s', j, k)
    ensures SpoiltAt(left + s + right, left + s' + right, |left| + j, |left| + k)
  {
  }

  /** The refilled page holds more than the empty page did. */
  lemma RotationMoves(c: Ctx<Entry>, x: Tree<Entry>, h: nat)
    requires c.Frame? && CtxShape(c, h) && Shape(x, h) && |c.cells| >= 1 && Shape(Sibling(c), h) && Bare(x)
    requires Level(First(c, x), Second(c, x)) && |Sibling(c).cells| >= 1
    ensures |Flat(Refilled(c, x))| > |Flat(x)|
  {
    RefilledShallow(c, x, h);
    var t := Refilled(c, x);
    if x.TNode? {
      var s := Sibling(c);
      if |c.left| < |c.cells| {
        assert t.kids == [x.kids[0], s.kids[0]];
      } else {
        assert t.kids == [s.kids[|s.kids| - 1], x.kids[0]];
      }
      TwoKids(t.cells, t.kids);
      assert x.kids == [x.kids[0]];
    }
  }

  lemma TwoKids(cells: seq<Entry>, kids: seq<Tree<Entry>>)
    requires |cells| == 1 && |kids| == 2
    ensures FlatKids(cells, kids) == Flat(kids[0]) + [cells[0]] + Flat(kids[1])
  {
    assert kids[1..][0] == kids[1];
    assert FlatKids(cells[1..], kids[1..]) == Flat(kids[1]);
  }

  lemma HalvesMove(c: Ctx<Entry>, x: Tree<Entry>, h: nat)
    requires c.Frame? && CtxShape(c, h) && Shape(x, h) && |c.cells| >= 1 && Shape(Sibling(c), h)
    requires Level(First(c, x), Second(c, x)) && |Sibling(c).cells| >= 1 && Bare(x)
    requires |Flat(First(c, x))| + |Flat(Second(c, x))| == |Flat(RotatedLeft(c, x))| + |Flat(RotatedRight(c, x))|
    ensures |Flat(First(c, x))| != |Flat(RotatedLeft(c, x))|
  {
    RotationMoves(c, x, h);
    hide Flat;
    assert if |c.left| < |c.cells| then RotatedLeft(c, x) == Refilled(c, x) else RotatedRight(c, x) == Refilled(c, x);
  }

  lemma HalfwayFlat(c: Ctx<Entry>, x: Tree<Entry>, p: Tree<Entry>, h: nat)
    requires c.Frame? && CtxShape(c, h) && Shape(x, h) && |c.cells| >= 1 && CtxShape(PairFrame(c), h) && Shape(Sibling(c), h)
    requires Level(First(c, x), Second(c, x)) && |Sibling(c).cells| >= 1 && Bare(x)
    requires p == Widen(PairFrame(c), RotatedLeft(c, x), Divider(c), RotatedRight(c, x))
    ensures Spoilt(Flat(Plug(c, x)), FlatLeft(c.up) + Flat(p) + FlatRight(c.up))
  {
    var u, v := RotatedFlat(c, x, Divider(c), h);
    var a, b, l, r := Flat(First(c, x)), Flat(Second(c, x)), Flat(RotatedLeft(c, x)), Flat(RotatedRight(c, x));
    SameLengths(u, a, Divider(c), b, l, NewDivider(c, x), r, v);
    HalvesMove(c, x, h);
    PlugFlat(c.up, Fill(c, x), h + 1);
    HalfwaySequence(FlatLeft(c.up), u, a, Divider(c), b, l, NewDivider(c, x), r, v, FlatRight(c.up));
  }

  lemma SameLengths(u: seq<Entry>, a: seq<Entry>, d: Entry, b: seq<Entry>, l: seq<Entry>, e: Entry, r: seq<Entry>, v: seq<Entry>)
    requires u + (a + [d] + b) + v == u + (l + [e] + r) + v
    ensures |a| + |b| == |l| + |r|
  {
    assert |u + (a + [d] + b) + v| == |u + (l + [e] + r) + v|;
  }

  lemma HalfwaySequence(left: seq<Entry>, u: seq<Entry>, a: seq<Entry>, d: Entry, b: seq<Entry>, l: seq<Entry>, e: Entry, r: seq<Entry>,
                        v: seq<Entry>, right: seq<Entry>)
    requires u + (a + [d] + b) + v == u + (l + [e] + r) + v && |a| != |l|
    ensures Spoilt(left + (u + (a + [d] + b) + v) + right, left + (u + (l + [d] + r) + v) + right)
  {
    SameMiddle(u, a + [d] + b, l + [e] + r, v);
    SpoiltByDivider(u, a, d, b, l, e, r, v);
    SpoiltWithin(u + (a + [d] + b) + v, u + (l + [d] + r) + v, left, right, |u| + |a|, |u| + |l|);
  }

  lemma SameMiddle<T>(u: seq<T>, a: seq<T>, b: seq<T>, v: seq<T>)
    requires u + a + v == u + b + v
    ensures a == b
  {
    assert |a| == |b|;
    forall i | 0 <= i < |a| ensures a[i] == b[i] { assert (u + a + v)[|u| + i] == a[i] && (u + b + v)[|u| + i] == b[i]; }
  }

  method WriteTwo<X>(s: PageStore<X>, a: PageId, bodyA: Page<X>, b: PageId, bodyB: Page<X>, ghost rest: multiset<PageId>)
    requires s.Valid() && s.used == rest + multiset{a} + multiset{b}
    modifies s`pages, s`log
    ensures s.Valid() && Agree(old(s.pages), s.pages, rest)
    ensures a in s.pages && s.pages[a] == bodyA && b in s.pages && s.pages[b] == bodyB
  {
    LedgerPush(s.used, s.free, s.pageCount, a);
    LedgerPush(s.used, s.free, s.pageCount, b);
    s.Write(a, bodyA);
    ghost var m1 := s.pages;
    s.Write(b, bodyB);
    AgreeSub(old(s.pages), m1, s.used - multiset{a}, rest);
    AgreeSub(m1, s.pages, s.used - multiset{b}, rest);
    AgreeTrans(old(s.pages), m1, s.pages, rest);
  }

  /** A rotation that turns out not to fit has already rewritten both children.
      The pages are still a tree within its limits, but not in order: the entry
      that was to become the divider is nowhere, and the divider is there twice. */
  method RotateHalfway(s: PageStore<Entry>, pageId: PageId, siblingId: PageId, prepend: bool, div: Entry,
      ghost c: Ctx<Entry>, ghost x: Tree<Entry>, ghost h: nat, ghost n: nat, ghost keep: multiset<PageId>)
    returns (ghost t: Tree<Entry>, ghost height: nat)
    requires s.Valid() && c.Frame? && Emptied(s.pages, s.used, c, x, h, n, keep) && |c.left| + |c.right| == |c.cells| >= 1
    requires pageId == x.id && siblingId == Sibling(c).id && div == Divider(c) && prepend == (|c.left| < |c.cells|)
    requires Level(First(c, x), Second(c, x)) && |Sibling(c).cells| >= 2
    modifies s
    ensures s.Valid() && Agree(old(s.pages), s.pages, keep)
    ensures Repaired(s.pages, s.used, t, height, n, keep) && t.id == RootPage(c) && Spoilt(Flat(Plug(c, x)), Flat(t))
  {
    Parts(s.pages, s.used, c, x, h, n, keep);
    ReadyToRotate(s.pages, s.used, c, x, h, n, keep);
    RefilledShallow(c, x, h);
    LenderShallow(c, x, h);
    var sibling, empty := s.pages[siblingId], s.pages[pageId];
    WriteTwo(s, siblingId, LenderPage(sibling, prepend), pageId, RefilledPage(sibling, empty, div, prepend),
             Untouched(c, x) + keep + multiset{c.id});
    t, height := Halfway(old(s.pages), s.pages, s.used, c, x, h, n, keep);
  }

  lemma Halfway(m: map<PageId, Page<Entry>>, m': map<PageId, Page<Entry>>, used: multiset<PageId>, c: Ctx<Entry>, x: Tree<Entry>,
                h: nat, n: nat, keep: multiset<PageId>)
    returns (t: Tree<Entry>, height: nat)
    requires c.Frame? && Emptied(m, used, c, x, h, n, keep) && |c.left| + |c.right| == |c.cells| >= 1
    requires Level(First(c, x), Second(c, x)) && |Sibling(c).cells| >= 2
    requires Agree(m, m', Untouched(c, x) + keep + multiset{c.id})
    requires Sibling(c).id in m' && m'[Sibling(c).id] == Shallow(Lender(c, x)) && x.id in m' && m'[x.id] == Shallow(Refilled(c, x))
    ensures Repaired(m', used, t, height, n, keep) && t.id == RootPage(c) && Spoilt(Flat(Plug(c, x)), Flat(t)) && Agree(m, m', keep)
  {
    var rest := Untouched(c, x) + keep;
    Parts(m, used, c, x, h, n, keep);
    AgreeSub(m, m', rest + multiset{c.id}, rest);
    assert c.id in rest + multiset{c.id} && Same(m, m', c.id);
    RotatedPagesFit(c, x, n);
    SameParent(c, x, m[c.id]);
    var p := Rotated(m, m', used, c, x, Divider(c), h, n, keep);
    HalfwayFlat(c, x, p, h);
    t, height := Finish(m', used, c, p, h, n, keep);
  }

  /** The parent's page is right for the rotated children: they have the old numbers. */
  lemma SameParent(c: Ctx<Entry>, x: Tree<Entry>, parent: Page<Entry>)
    requires c.Frame? && |c.left| + |c.right| == |c.cells| >= 1 && Level(First(c, x), Second(c, x)) && |Sibling(c).cells| >= 1 && Bare(x)
    requires parent == Interior(c.cells, KidIds(c.left) + [x.id] + KidIds(c.right))
    ensures parent == Shallow(Widen(PairFrame(c), RotatedLeft(c, x), Divider(c), RotatedRight(c, x)))
    ensures c.cells[Donor(c) := Divider(c)] == c.cells
  {
    RedividedShallow(c, x, RotatedLeft(c, x), Divider(c), RotatedRight(c, x), parent);
    assert Seps(parent)[Donor(c)] == Divider(c);
    assert RedividedPage(parent, Donor(c), Divider(c)).routed == parent.routed;
  }

  /** An empty root that is a leaf stays; one with a single child takes its place. */
  method RepairRoot(s: PageStore<Entry>, root: PageId, ghost c: Ctx<Entry>, ghost x: Tree<Entry>, ghost h: nat, ghost n: nat,
      ghost keep: multiset<PageId>)
    returns (ghost t: Tree<Entry>, ghost height: nat)
    requires s.Valid() && Emptied(s.pages, s.used, c, x, h, n, keep) && c.Top? && root == x.id
    modifies s
    ensures s.Valid() && Agree(old(s.pages), s.pages, keep) && Repaired(s.pages, s.used, t, height, n, keep) && t.id == root
    ensures Flat(t) == Flat(Plug(c, x))
  {
    ReadBare(s.pages, x, h);
    AgreeRefl(s.pages, keep);
    var body := s.pages[root];
    t, height := x, h;
    if body.InteriorPage? {
      t, height := PullUp(s, root, body.right, x, h, n, keep);
    }
  }

  /** Give the page at the end of `path`, which has no cells, what it needs. Each
      recursive call is one level nearer the root. Only a rotation can fail. */
  method Repair(s: PageStore<Entry>, root: PageId, path: seq<Step>, page: PageId,
      ghost c: Ctx<Entry>, ghost x: Tree<Entry>, ghost h: nat, ghost n: nat, ghost keep: multiset<PageId>)
    returns (ok: bool, ghost t: Tree<Entry>, ghost height: nat)
    requires s.Valid() && Emptied(s.pages, s.used, c, x, h, n, keep)
    requires Follows(path, c) && page == x.id && root == (if c.Top? then x.id else RootPage(c))
    modifies s
    ensures ok <==> RepairFits(c, x.TLeaf?, root)
    ensures s.Valid() && Agree(old(s.pages), s.pages, keep) && Repaired(s.pages, s.used, t, height, n, keep) && t.id == root
    ensures if ok then Flat(t) == Flat(Plug(c, x)) else Spoilt(Flat(Plug(c, x)), Flat(t))
    decreases |path|
  {
    hide PageStore.Valid, Emptied, Repaired, Spoilt;
    FollowsDepth(path, c);
    if |path| == 0 {
      t, height := RepairRoot(s, root, c, x, h, n, keep);
      ok := true;
      return;
    }
    var at := path[|path| - 1];
    var siblingId, donor, prepend, div, cells, count := Neighbour(s, at, c, x, h, n, keep);
    var leaf := s.pages[page].LeafPage?;
    var bytes := TotalBytes(cells, Weight(leaf));
    var preferRotation := count == 1 && at.page != root;
    var canRotate := |cells| >= 2;
    if bytes + Weight(leaf)(div) <= Room(leaf) && !(preferRotation && canRotate) {
      ok, t, height := RepairByMerge(s, root, path, page, siblingId, donor, prepend, div, count, c, x, h, n, keep);
      return;
    }
    assert canRotate by { if |cells| == 1 { OneCellMerges(leaf, cells, div); } }
    ok, t, height := RepairByRotation(s, root, at, page, siblingId, donor, prepend, div, c, x, h, n, keep);
  }

  /** The sibling to take from or to merge with, the divider between the two, and
      how many dividers the parent has. */
  method Neighbour(s: PageStore<Entry>, at: Step, ghost c: Ctx<Entry>, ghost x: Tree<Entry>, ghost h: nat, ghost n: nat,
      ghost keep: multiset<PageId>)
    returns (siblingId: PageId, donor: nat, prepend: bool, div: Entry, cells: seq<Entry>, count: nat)
    requires c.Frame? && Emptied(s.pages, s.used, c, x, h, n, keep) && at.page == c.id && at.slot == |c.left|
    ensures |c.left| + |c.right| == |c.cells| >= 1 && Level(First(c, x), Second(c, x))
    ensures siblingId == Sibling(c).id && cells == Sibling(c).cells && Rule(n)(x.TLeaf?, cells)
    ensures donor == Donor(c) && div == Divider(c) && GoodEntry(div, n) && prepend == (|c.left| < |c.cells|) && count == |c.cells|
    ensures x.id in s.pages && s.pages[x.id].LeafPage? == x.TLeaf?
  {
    ReadPair(s.pages, s.used, c, x, h, n, keep);
    var parent := s.pages[at.page];
    prepend := at.slot < |parent.routed|;
    donor := if prepend then at.slot else |parent.routed| - 1;
    siblingId := Children(parent)[if prepend then at.slot + 1 else donor];
    div, cells, count := parent.routed[donor].sep, CellsOf(s.pages[siblingId]), |parent.routed|;
  }

  method RepairByRotation(s: PageStore<Entry>, root: PageId, at: Step, page: PageId,
      siblingId: PageId, donor: nat, prepend: bool, div: Entry,
      ghost c: Ctx<Entry>, ghost x: Tree<Entry>, ghost h: nat, ghost n: nat, ghost keep: multiset<PageId>)
    returns (ok: bool, ghost t: Tree<Entry>, ghost height: nat)
    requires s.Valid() && c.Frame? && Emptied(s.pages, s.used, c, x, h, n, keep) && |c.left| + |c.right| == |c.cells| >= 1
    requires at.page == c.id && page == x.id && root == RootPage(c) && siblingId == Sibling(c).id && donor == Donor(c)
    requires div == Divider(c) && prepend == (|c.left| < |c.cells|)
    requires Level(First(c, x), Second(c, x)) && |Sibling(c).cells| >= 2
    modifies s
    ensures ok <==> Bytes(c.cells[Donor(c) := Edge(c)], InteriorWeight) <= INTERIOR_ROOM
    ensures s.Valid() && Agree(old(s.pages), s.pages, keep) && Repaired(s.pages, s.used, t, height, n, keep) && t.id == root
    ensures if ok then Flat(t) == Flat(Plug(c, x)) else Spoilt(Flat(Plug(c, x)), Flat(t))
  {
    var rotated := RotatedBytes(s, at.page, siblingId, donor, prepend, c, x, h, n, keep);
    EdgeMovesUp(c, x);
    ok := rotated <= INTERIOR_ROOM;
    if !ok {
      t, height := RotateHalfway(s, page, siblingId, prepend, div, c, x, h, n, keep);
      return;
    }
    t, height := RotateAndFinish(s, at.page, page, siblingId, donor, prepend, div, c, x, h, n, keep);
  }

  lemma EdgeMovesUp(c: Ctx<Entry>, x: Tree<Entry>)
    requires c.Frame? && |c.left| + |c.right| == |c.cells| >= 1 && Level(First(c, x), Second(c, x)) && Bare(x)
    requires |Sibling(c).cells| >= 1
    ensures NewDivider(c, x) == Edge(c)
  {
  }

  lemma ReadyToRotate(m: map<PageId, Page<Entry>>, used: multiset<PageId>, c: Ctx<Entry>, x: Tree<Entry>, h: nat, n: nat,
                      keep: multiset<PageId>)
    requires c.Frame? && Emptied(m, used, c, x, h, n, keep) && |c.left| + |c.right| == |c.cells| >= 1
    ensures x.id in used && Sibling(c).id in used && x.id in m && Sibling(c).id in m
    ensures
      var sibling, empty := m[Sibling(c).id], m[x.id];
      || (sibling.LeafPage? && empty.LeafPage? && |sibling.cells| >= 1)
      || (sibling.InteriorPage? && empty.InteriorPage? && |sibling.routed| >= 1)
  {
    Parts(m, used, c, x, h, n, keep);
    ReadPair(m, used, c, x, h, n, keep);
  }

  method RotateAndFinish(s: PageStore<Entry>, parentId: PageId, page: PageId, siblingId: PageId, donor: nat, prepend: bool, div: Entry,
      ghost c: Ctx<Entry>, ghost x: Tree<Entry>, ghost h: nat, ghost n: nat, ghost keep: multiset<PageId>)
    returns (ghost t: Tree<Entry>, ghost height: nat)
    requires s.Valid() && c.Frame? && Emptied(s.pages, s.used, c, x, h, n, keep) && |c.left| + |c.right| == |c.cells| >= 1
    requires parentId == c.id && page == x.id && siblingId == Sibling(c).id && donor == Donor(c)
    requires div == Divider(c) && prepend == (|c.left| < |c.cells|)
    requires Level(First(c, x), Second(c, x)) && |Sibling(c).cells| >= 2
    requires Bytes(c.cells[Donor(c) := NewDivider(c, x)], InteriorWeight) <= INTERIOR_ROOM
    modifies s
    ensures s.Valid() && Agree(old(s.pages), s.pages, keep)
    ensures Repaired(s.pages, s.used, t, height, n, keep) && t.id == RootPage(c) && Flat(t) == Flat(Plug(c, x))
  {
    ghost var p := RotateFrom(s, parentId, page, siblingId, donor, prepend, div, c, x, h, n, keep);
    t, height := Finish(s.pages, s.used, c, p, h, n, keep);
    PlugFlat(c.up, Fill(c, x), h + 1);
  }

  method RepairByMerge(s: PageStore<Entry>, root: PageId, path: seq<Step>, page: PageId,
      siblingId: PageId, donor: nat, prepend: bool, div: Entry, cellsBefore: nat,
      ghost c: Ctx<Entry>, ghost x: Tree<Entry>, ghost h: nat, ghost n: nat, ghost keep: multiset<PageId>)
    returns (ok: bool, ghost t: Tree<Entry>, ghost height: nat)
    requires s.Valid() && c.Frame? && Emptied(s.pages, s.used, c, x, h, n, keep) && |c.left| + |c.right| == |c.cells| >= 1
    requires Follows(path, c) && page == x.id && root == RootPage(c) && siblingId == Sibling(c).id && donor == Donor(c)
    requires div == Divider(c) && prepend == (|c.left| < |c.cells|) && cellsBefore == |c.cells|
    requires Level(First(c, x), Second(c, x)) && Rule(n)(x.TLeaf?, Sibling(c).cells) && GoodEntry(div, n)
    requires Absorbs(c, x.TLeaf?, root)
    modifies s
    ensures ok <==> RepairFits(c, x.TLeaf?, root)
    ensures s.Valid() && Agree(old(s.pages), s.pages, keep) && Repaired(s.pages, s.used, t, height, n, keep) && t.id == root
    ensures if ok then Flat(t) == Flat(Plug(c, x)) else Spoilt(Flat(Plug(c, x)), Flat(t))
    decreases |path|, 0
  {
    var at := path[|path| - 1];
    MergeDecides(c, x, root, n);
    if cellsBefore > 1 {
      t, height := MergeAndFinish(s, at.page, page, siblingId, donor, prepend, div, c, x, h, n, keep);
      ok := true;
      return;
    }
    ghost var p := MergeLast(s, at.page, page, siblingId, donor, prepend, div, c, x, h, n, keep);
    ghost var m1 := s.pages;
    ok, t, height := Repair(s, root, path[..|path| - 1], at.page, c.up, p, h + 1, n, keep);
    AgreeTrans(old(s.pages), m1, s.pages, keep);
  }

  lemma MergeDecides(c: Ctx<Entry>, x: Tree<Entry>, root: PageId, n: nat)
    requires c.Frame? && |c.left| + |c.right| == |c.cells| >= 1 && Rule(n)(x.TLeaf?, Sibling(c).cells)
    requires Absorbs(c, x.TLeaf?, root)
    ensures RepairFits(c, x.TLeaf?, root) <==> |c.cells| > 1 || RepairFits(c.up, false, root)
  {
  }

  /** The parent keeps at least one divider. */
  method MergeAndFinish(s: PageStore<Entry>, parentId: PageId, page: PageId, siblingId: PageId, donor: nat, prepend: bool, div: Entry,
      ghost c: Ctx<Entry>, ghost x: Tree<Entry>, ghost h: nat, ghost n: nat, ghost keep: multiset<PageId>)
    returns (ghost t: Tree<Entry>, ghost height: nat)
    requires s.Valid() && c.Frame? && Emptied(s.pages, s.used, c, x, h, n, keep) && |c.left| + |c.right| == |c.cells| > 1
    requires parentId == c.id && page == x.id && siblingId == Sibling(c).id && donor == Donor(c)
    requires div == Divider(c) && prepend == (|c.left| < |c.cells|)
    requires Level(First(c, x), Second(c, x)) && Rule(n)(x.TLeaf?, Sibling(c).cells) && GoodEntry(div, n)
    requires Bytes(Sibling(c).cells, Weight(x.TLeaf?)) + Weight(x.TLeaf?)(Divider(c)) <= Room(x.TLeaf?)
    modifies s
    ensures s.Valid() && Agree(old(s.pages), s.pages, keep)
    ensures Repaired(s.pages, s.used, t, height, n, keep) && t.id == RootPage(c) && Flat(t) == Flat(Plug(c, x))
  {
    MergeFits(c, x, n);
    ghost var p := MergeInto(s, parentId, page, siblingId, donor, prepend, div, c, x, h, n, keep);
    t, height := Finish(s.pages, s.used, c, p, h, n, keep);
    PlugFlat(c.up, Fill(c, x), h + 1);
  }

  /** The parent gives away its only divider and is now empty itself. */
  method MergeLast(s: PageStore<Entry>, parentId: PageId, page: PageId, siblingId: PageId, donor: nat, prepend: bool, div: Entry,
      ghost c: Ctx<Entry>, ghost x: Tree<Entry>, ghost h: nat, ghost n: nat, ghost keep: multiset<PageId>)
    returns (ghost p: Tree<Entry>)
    requires s.Valid() && c.Frame? && Emptied(s.pages, s.used, c, x, h, n, keep) && |c.left| + |c.right| == |c.cells| == 1
    requires parentId == c.id && page == x.id && siblingId == Sibling(c).id && donor == Donor(c)
    requires div == Divider(c) && prepend == (|c.left| < |c.cells|)
    requires Level(First(c, x), Second(c, x)) && Rule(n)(x.TLeaf?, Sibling(c).cells) && GoodEntry(div, n)
    requires Bytes(Sibling(c).cells, Weight(x.TLeaf?)) + Weight(x.TLeaf?)(Divider(c)) <= Room(x.TLeaf?)
    modifies s
    ensures s.Valid() && Agree(old(s.pages), s.pages, keep)
    ensures Emptied(s.pages, s.used, c.up, p, h + 1, n, keep) && p.id == c.id && p.TNode? && Flat(Plug(c.up, p)) == Flat(Plug(c, x))
  {
    MergeFits(c, x, n);
    p := MergeInto(s, parentId, page, siblingId, donor, prepend, div, c, x, h, n, keep);
    StillEmpty(s.pages, s.used, c, x, p, h, n, keep);
  }
}
