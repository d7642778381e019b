/** What the table validator accepts, said page by page: rows ascend strictly within
    (low, high], separators ascend strictly within the same bounds, and the child
    left of a separator inherits it as its upper bound, the child right of it as its
    lower one. */
module TableRanges {
  import opened Basics
  import opened Trees
  import opened TreeCells
  import opened Validate

  ghost predicate Over(low: Option<int>, r: int) {
    low.None? || low.value < r
  }

  ghost predicate UpTo(r: int, high: Option<int>) {
    high.None? || r <= high.value
  }

  ghost predicate RowsWithin(cells: seq<Cell>, low: Option<int>, high: Option<int>) {
    && (forall i :: 0 <= i < |cells| ==> cells[i].Row? && Over(low, cells[i].rowid) && UpTo(cells[i].rowid, high))
    && forall i, j :: 0 <= i < j < |cells| ==> cells[i].rowid < cells[j].rowid
  }

  ghost predicate Ranged(t: Tree<Cell>, low: Option<int>, high: Option<int>)
    decreases t, 1
  {
    if t.TLeaf? then RowsWithin(t.cells, low, high) else RangedKids(t.cells, t.kids, low, high)
  }

  /** Each separator is above all before it and at most the bound; each child lies
      between the separators around it. */
  ghost predicate RangedKids(cells: seq<Cell>, kids: seq<Tree<Cell>>, low: Option<int>, high: Option<int>)
    decreases kids, 0
  {
    && |kids| == |cells| + 1
    && if |cells| == 0 then Ranged(kids[0], low, high)
       else
         && cells[0].Fence? && Over(low, cells[0].at) && UpTo(cells[0].at, high)
         && Ranged(kids[0], low, Some(cells[0].at)) && RangedKids(cells[1..], kids[1..], Some(cells[0].at), high)
  }

  /** A bound is a separator on a page above depth `d`. */
  ghost predicate BoundIs(b: Bound, v: Option<int>, d: int) {
    if b.Open? then v.None? else b.mark.cell.Fence? && v == Some(b.mark.cell.at) && b.mark.depth <= d
  }

  lemma FenceKnown(p: Policy, b: Bound, v: Option<int>, d: int)
    requires p.ForTable? && BoundIs(b, v, d)
    ensures BoundOk(p, b)
  {
    if b.At? { assert Fit(p, false, b.mark.cell); }
  }

  lemma LeafRanged(p: Policy, cells: seq<Cell>, d: nat, low: Bound, high: Bound, lo: Option<int>, hi: Option<int>)
    requires p.ForTable? && AllFit(p, true, cells) && BoundIs(low, lo, d) && BoundIs(high, hi, d)
    ensures Ordered(p, MarkAll(cells, d), low, high) <==> RowsWithin(cells, lo, hi)
  {
    var s := MarkAll(cells, d);
    if Ordered(p, s, low, high) {
      forall i | 0 <= i < |cells| ensures cells[i].Row? && Over(lo, cells[i].rowid) && UpTo(cells[i].rowid, hi) {
        assert InPlace(p, s, low, high, i) && Fit(p, true, cells[i]);
      }
      forall i, j | 0 <= i < j < |cells| ensures cells[i].rowid < cells[j].rowid { assert Ascends(p, s, i, j); }
    }
    if RowsWithin(cells, lo, hi) {
      forall i ensures InPlace(p, s, low, high, i) { if 0 <= i < |s| { assert Fit(p, true, cells[i]); } }
      forall i, j ensures Ascends(p, s, i, j) {}
    }
  }

  lemma {:induction false} TreeRanged(p: Policy, t: Tree<Cell>, d: nat, h: nat, root: PageId, low: Bound, high: Bound, lo: Option<int>, hi: Option<int>)
    requires p.ForTable? && Sound(p, t, root) && Shape(t, h) && BoundIs(low, lo, d) && BoundIs(high, hi, d - 1)
    ensures Ordered(p, Spelled(t, d), low, high) <==> Ranged(t, lo, hi)
    decreases t, 1
  {
    if t.TLeaf? {
      LeafRanged(p, t.cells, d, low, high, lo, hi);
    } else {
      KidsRanged(p, t.cells, t.kids, d, h - 1, root, low, high, lo, hi);
    }
  }

  lemma {:induction false} KidsRanged(p: Policy, cells: seq<Cell>, kids: seq<Tree<Cell>>, d: nat, h: nat, root: PageId,
                                      low: Bound, high: Bound, lo: Option<int>, hi: Option<int>)
    requires p.ForTable? && |kids| == |cells| + 1 && AllFit(p, false, cells) && AllSound(p, kids, root) && Shapes(kids, h)
    requires BoundIs(low, lo, d) && BoundIs(high, hi, d - 1)
    ensures Ordered(p, FlatKids(MarkAll(cells, d), TagAll(kids, d + 1)), low, high) <==> RangedKids(cells, kids, lo, hi)
    decreases kids, 0
  {
    if |cells| == 0 {
      TreeRanged(p, kids[0], d + 1, h, root, low, high, lo, hi);
    } else {
      var x := Mark(cells[0], d);
      assert Fit(p, false, cells[0]);
      TreeRanged(p, kids[0], d + 1, h, root, low, At(x), lo, Some(cells[0].at));
      KidsRanged(p, cells[1..], kids[1..], d, h, root, At(x), high, Some(cells[0].at), hi);
      FenceKnown(p, low, lo, d);
      FenceKnown(p, high, hi, d - 1);
      var a, b := Spelled(kids[0], d + 1), FlatKids(MarkAll(cells[1..], d), TagAll(kids[1..], d + 1));
      OrderedJoin(p, a, x, b, low, high);
      KidsSpelled(cells, kids, d);
    }
  }

  lemma KidsSpelled(cells: seq<Cell>, kids: seq<Tree<Cell>>, d: nat)
    requires |cells| > 0 && |kids| == |cells| + 1
    ensures FlatKids(MarkAll(cells, d), TagAll(kids, d + 1))
         == Spelled(kids[0], d + 1) + [Mark(cells[0], d)] + FlatKids(MarkAll(cells[1..], d), TagAll(kids[1..], d + 1))
  {
    assert MarkAll(cells, d)[1..] == MarkAll(cells[1..], d);
    assert TagAll(kids, d + 1)[1..] == TagAll(kids[1..], d + 1);
  }

  /** The validator accepts exactly the trees in these ranges, on pages that occur once
      each, with chains that end. */
  lemma {:induction false} AcceptsRanges(m: map<PageId, Page<Cell>>, links: map<PageId, PageId>, root: PageId, t: Tree<Cell>, h: nat)
    ensures IsTree(m, ForTable(links), root, t, h) <==>
              && Rep(m, t) && t.id == root && Shape(t, h) && Fresh(NodeIds(t), {})
              && Sound(ForTable(links), t, root) && Ranged(t, None, None)
  {
    if Shape(t, h) && Sound(ForTable(links), t, root) { TreeRanged(ForTable(links), t, 0, h, root, Open, Open, None, None); }
  }
}
