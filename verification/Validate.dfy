/** The validators of table and index trees: a walk over whatever the pages say,
    cyclic and shared page references included, that accepts exactly the trees in
    good order. The two differ in which cells they expect, in what they call
    order, and in whether a page may be empty. */
module Validate {
  import opened Basics
  import opened Trees
  import opened Store
  import opened Keys
  import opened TreeCells
  import opened Places
  import TableTree
  import IndexTree
  import Rebalance

  /** `links` is what the first four bytes of each page say, read as a number. */
  datatype Policy = ForTable(links: map<PageId, PageId>) | ForIndex(links: map<PageId, PageId>, arity: nat)

  /** A cell and how far below the root its page is. */
  datatype Mark = Mark(cell: Cell, depth: nat)

  /** The overflow chain from this page ends: it meets no page twice and misses none. */
  ghost predicate Ends(links: map<PageId, PageId>, first: PageId, seen: set<PageId>)
    decreases links.Keys - seen
  {
    first == 0 || (first !in seen && first in links && Ends(links, links[first], seen + {first}))
  }

  /** Follow an overflow chain, whatever the pages say. */
  method ReadThrough(links: map<PageId, PageId>, first: PageId) returns (ok: bool)
    ensures ok <==> Ends(links, first, {})
  {
    var page, seen := first, {};
    while page != 0
      invariant seen <= links.Keys && (Ends(links, first, {}) <==> Ends(links, page, seen))
      decreases links.Keys - seen
    {
      if page in seen || page !in links {
        return false;
      }
      page, seen := links[page], seen + {page};
    }
    return true;
  }

  /** A cell of the kind that this tree has on its leaves or interior pages. */
  predicate OfKind(p: Policy, leaf: bool, x: Cell) {
    match p
    case ForTable(_) => if leaf then x.Row? else x.Fence?
    case ForIndex(_, n) => x.Entry? && |x.key| == n
  }

  /** And its overflow chain, if it has one, can be read. */
  ghost predicate Fit(p: Policy, leaf: bool, x: Cell) {
    OfKind(p, leaf, x) && Readable(p.links, x)
  }

  ghost predicate Readable(links: map<PageId, PageId>, x: Cell) {
    Ends(links, Head(x.chain), {})
  }

  method CheckFit(p: Policy, leaf: bool, x: Cell) returns (ok: bool)
    ensures ok <==> Fit(p, leaf, x)
  {
    if !OfKind(p, leaf, x) {
      return false;
    }
    ok := ReadThrough(p.links, Head(x.chain));
  }

  ghost predicate Known(p: Policy, x: Cell) {
    Fit(p, true, x) || Fit(p, false, x)
  }

  /** `a` may stand before `b`. Keys ascend strictly. Rows ascend strictly; a row
      equal to a fence is left of it; a fence may repeat the fence that bounds its
      page from above, which stands on a page nearer the root. */
  predicate Less(p: Policy, a: Mark, b: Mark) {
    match p
    case ForIndex(_, _) => CompareKeys(a.cell.key, b.cell.key) < 0
    case ForTable(_) =>
      match (a.cell, b.cell)
      case (Row(r, _, _), Row(q, _, _)) => r < q
      case (Row(r, _, _), Fence(s)) => r <= s
      case (Fence(s), Row(r, _, _)) => s < r
      case (Fence(s), Fence(u)) => s < u || (s == u && a.depth > b.depth)
      case _ => false
  }

  lemma LessTransitive(p: Policy, a: Mark, b: Mark, c: Mark)
    requires Known(p, a.cell) && Known(p, b.cell) && Known(p, c.cell) && Less(p, a, b) && Less(p, b, c)
    ensures Less(p, a, c)
  {
    if p.ForIndex? { KeysTransitive(a.cell.key, b.cell.key, c.cell.key); }
  }

  datatype Bound = Open | At(mark: Mark)

  predicate Above(p: Policy, x: Mark, low: Bound) {
    low.Open? || Less(p, low.mark, x)
  }

  predicate Under(p: Policy, x: Mark, high: Bound) {
    high.Open? || Less(p, x, high.mark)
  }

  ghost predicate BoundOk(p: Policy, b: Bound) {
    b.Open? || Known(p, b.mark.cell)
  }

  ghost predicate InPlace(p: Policy, s: seq<Mark>, low: Bound, high: Bound, i: int) {
    0 <= i < |s| ==> Known(p, s[i].cell) && Above(p, s[i], low) && Under(p, s[i], high)
  }

  ghost predicate Ascends(p: Policy, s: seq<Mark>, i: int, j: int) {
    0 <= i < j < |s| ==> Less(p, s[i], s[j])
  }

  /** Cells of the tree's kind, each before all the later ones, between the bounds. */
  ghost predicate Ordered(p: Policy, s: seq<Mark>, low: Bound, high: Bound) {
    && (forall i {:trigger InPlace(p, s, low, high, i)} :: InPlace(p, s, low, high, i))
    && (forall i, j {:trigger Ascends(p, s, i, j)} :: Ascends(p, s, i, j))
  }

  // ---- Sequences ----

  lemma OrderedJoin(p: Policy, a: seq<Mark>, x: Mark, b: seq<Mark>, low: Bound, high: Bound)
    requires BoundOk(p, low) && BoundOk(p, high) && Known(p, x.cell)
    ensures Ordered(p, a + [x] + b, low, high) <==>
              Ordered(p, a, low, At(x)) && Above(p, x, low) && Under(p, x, high) && Ordered(p, b, At(x), high)
  {
    if Ordered(p, a + [x] + b, low, high) { JoinSplits(p, a, x, b, low, high); }
    if Ordered(p, a, low, At(x)) && Above(p, x, low) && Under(p, x, high) && Ordered(p, b, At(x), high) {
      JoinHolds(p, a, x, b, low, high);
    }
  }

  lemma JoinSplits(p: Policy, a: seq<Mark>, x: Mark, b: seq<Mark>, low: Bound, high: Bound)
    requires Ordered(p, a + [x] + b, low, high)
    ensures Ordered(p, a, low, At(x)) && Above(p, x, low) && Under(p, x, high) && Ordered(p, b, At(x), high)
  {
    var s, k := a + [x] + b, |a|;
    assert InPlace(p, s, low, high, k) && s[k] == x;
    forall i ensures InPlace(p, a, low, At(x), i) {
      if 0 <= i < |a| { assert InPlace(p, s, low, high, i) && Ascends(p, s, i, k) && s[i] == a[i]; }
    }
    forall i, j ensures Ascends(p, a, i, j) {
      if 0 <= i < j < |a| { assert Ascends(p, s, i, j) && s[i] == a[i] && s[j] == a[j]; }
    }
    forall i ensures InPlace(p, b, At(x), high, i) {
      if 0 <= i < |b| { assert InPlace(p, s, low, high, k + 1 + i) && Ascends(p, s, k, k + 1 + i) && s[k + 1 + i] == b[i]; }
    }
    forall i, j ensures Ascends(p, b, i, j) {
      if 0 <= i < j < |b| { assert Ascends(p, s, k + 1 + i, k + 1 + j) && s[k + 1 + i] == b[i] && s[k + 1 + j] == b[j]; }
    }
  }

  lemma JoinHolds(p: Policy, a: seq<Mark>, x: Mark, b: seq<Mark>, low: Bound, high: Bound)
    requires BoundOk(p, low) && BoundOk(p, high) && Known(p, x.cell)
    requires Ordered(p, a, low, At(x)) && Above(p, x, low) && Under(p, x, high) && Ordered(p, b, At(x), high)
    ensures Ordered(p, a + [x] + b, low, high)
  {
    var s, k := a + [x] + b, |a|;
    forall i ensures InPlace(p, s, low, high, i) {
      if 0 <= i < k {
        assert InPlace(p, a, low, At(x), i);
        if high.At? { LessTransitive(p, a[i], x, high.mark); }
      } else if k < i < |s| {
        assert InPlace(p, b, At(x), high, i - k - 1) && s[i] == b[i - k - 1];
        if low.At? { LessTransitive(p, low.mark, x, s[i]); }
      }
    }
    forall i, j ensures Ascends(p, s, i, j) {
      if 0 <= i < j < |s| { JoinAscends(p, a, x, b, low, high, i, j); }
    }
  }

  lemma JoinAscends(p: Policy, a: seq<Mark>, x: Mark, b: seq<Mark>, low: Bound, high: Bound, i: nat, j: nat)
    requires Known(p, x.cell) && Ordered(p, a, low, At(x)) && Ordered(p, b, At(x), high) && i < j < |a| + 1 + |b|
    ensures Ascends(p, a + [x] + b, i, j)
  {
    var k := |a|;
    if j < k {
      assert Ascends(p, a, i, j);
    } else if k < i {
      assert Ascends(p, b, i - k - 1, j - k - 1);
    } else {
      if i < k { assert InPlace(p, a, low, At(x), i); }
      if k < j { assert InPlace(p, b, At(x), high, j - k - 1); }
      if i < k < j { LessTransitive(p, a[i], x, b[j - k - 1]); }
    }
  }

  /** The bound that what precedes a stretch of the sequence puts on it. */
  ghost function After(pre: seq<Mark>, low: Bound): Bound {
    if |pre| == 0 then low else At(pre[|pre| - 1])
  }

  ghost function Before(post: seq<Mark>, high: Bound): Bound {
    if |post| == 0 then high else At(post[0])
  }

  lemma OrderedNone(p: Policy, low: Bound, high: Bound)
    ensures Ordered(p, [], low, high)
  {
    var none: seq<Mark> := [];
    forall i ensures InPlace(p, none, low, high, i) {}
    forall i, j ensures Ascends(p, none, i, j) {}
  }

  lemma OrderedHead(p: Policy, flat: seq<Mark>, post: seq<Mark>, low: Bound, high: Bound)
    requires Ordered(p, flat + post, low, high) && BoundOk(p, low) && BoundOk(p, high)
    ensures Ordered(p, flat, low, Before(post, high))
    ensures |post| > 0 ==> Known(p, post[0].cell) && Above(p, post[0], low) && Under(p, post[0], high)
  {
    if |post| == 0 {
      assert flat + post == flat;
    } else {
      assert flat + post == flat + [post[0]] + post[1..];
      assert InPlace(p, flat + post, low, high, |flat|) && (flat + post)[|flat|] == post[0];
      OrderedJoin(p, flat, post[0], post[1..], low, high);
    }
  }

  /** A stretch in the middle is ordered within the bounds its neighbours put on it. */
  lemma Middle(p: Policy, pre: seq<Mark>, flat: seq<Mark>, post: seq<Mark>, low: Bound, high: Bound)
    requires Ordered(p, pre + flat + post, low, high) && BoundOk(p, low) && BoundOk(p, high)
    ensures Ordered(p, flat, After(pre, low), Before(post, high))
    ensures |post| > 0 ==> Known(p, post[0].cell) && Above(p, post[0], low) && Under(p, post[0], high) && Above(p, post[0], After(pre, low))
  {
    var s := pre + flat + post;
    if |pre| == 0 {
      assert s == flat + post;
      OrderedHead(p, flat, post, low, high);
    } else {
      var k := |pre| - 1;
      var x := pre[k];
      assert s == pre[..k] + [x] + (flat + post);
      assert InPlace(p, s, low, high, k) && s[k] == x;
      OrderedJoin(p, pre[..k], x, flat + post, low, high);
      OrderedHead(p, flat, post, At(x), high);
      if |post| > 0 { assert InPlace(p, s, low, high, |pre| + |flat|) && s[|pre| + |flat|] == post[0]; }
    }
  }

  lemma CloseSequence(p: Policy, pre: seq<Mark>, flat: seq<Mark>, low: Bound, high: Bound)
    requires Ordered(p, pre, low, high) && BoundOk(p, low) && BoundOk(p, high) && Ordered(p, flat, After(pre, low), high)
    ensures Ordered(p, pre + flat, low, high)
  {
    if |pre| == 0 {
      assert pre + flat == flat;
    } else {
      var k := |pre| - 1;
      assert InPlace(p, pre, low, high, k);
      assert pre == pre[..k] + [pre[k]] + [];
      OrderedJoin(p, pre[..k], pre[k], [], low, high);
      OrderedJoin(p, pre[..k], pre[k], flat, low, high);
      assert pre[..k] + [pre[k]] + flat == pre + flat;
    }
  }

  /** A child's cells and the separator after them extend an ordered prefix. */
  lemma GrowPrefix(p: Policy, pre: seq<Mark>, flat: seq<Mark>, x: Mark, low: Bound, high: Bound)
    requires Ordered(p, pre, low, high) && BoundOk(p, low) && BoundOk(p, high) && Known(p, x.cell)
    requires Ordered(p, flat, After(pre, low), At(x)) && Above(p, x, After(pre, low)) && Above(p, x, low) && Under(p, x, high)
    ensures Ordered(p, pre + flat + [x], low, high)
  {
    OrderedNone(p, At(x), high);
    if |pre| > 0 { assert InPlace(p, pre, low, high, |pre| - 1); }
    OrderedJoin(p, flat, x, [], After(pre, low), high);
    assert flat + [x] + [] == flat + [x];
    CloseSequence(p, pre, flat + [x], low, high);
    assert pre + (flat + [x]) == pre + flat + [x];
  }

  // ---- Trees of marks ----

  function MarkAll(cells: seq<Cell>, d: nat): (r: seq<Mark>)
    ensures |r| == |cells| && forall i :: 0 <= i < |r| ==> r[i] == Mark(cells[i], d)
  {
    seq(|cells|, i requires 0 <= i < |cells| => Mark(cells[i], d))
  }

  /** The tree with every cell's depth written on it. */
  ghost function Tag(t: Tree<Cell>, d: nat): Tree<Mark>
    decreases t, 1
  {
    match t
    case TLeaf(id, cells) => TLeaf(id, MarkAll(cells, d))
    case TNode(id, cells, kids) => TNode(id, MarkAll(cells, d), TagAll(kids, d + 1))
  }

  ghost function TagAll(ts: seq<Tree<Cell>>, d: nat): (r: seq<Tree<Mark>>)
    ensures |r| == |ts|
    decreases ts, 0
  {
    if |ts| == 0 then [] else [Tag(ts[0], d)] + TagAll(ts[1..], d)
  }

  lemma {:induction false} TagAppend(a: seq<Tree<Cell>>, b: seq<Tree<Cell>>, d: nat)
    ensures TagAll(a + b, d) == TagAll(a, d) + TagAll(b, d)
    decreases |a|
  {
    if |a| == 0 {
      assert a + b == b;
    } else {
      assert (a + b)[1..] == a[1..] + b;
      TagAppend(a[1..], b, d);
    }
  }

  lemma {:induction false} TagOne(t: Tree<Cell>, d: nat)
    ensures TagAll([t], d) == [Tag(t, d)]
  {
    assert [t][1..] == [];
  }

  lemma MarkAppend(a: seq<Cell>, b: seq<Cell>, d: nat)
    ensures MarkAll(a + b, d) == MarkAll(a, d) + MarkAll(b, d)
  {
  }

  /** What a subtree spells, each cell with its depth. */
  ghost function Spelled(t: Tree<Cell>, d: nat): seq<Mark> {
    Flat(Tag(t, d))
  }

  /** What the first kids of a page and the separators after them spell. */
  ghost function SpelledBefore(cells: seq<Cell>, kids: seq<Tree<Cell>>, d: nat): seq<Mark>
    requires |kids| == |cells|
  {
    FlatBefore(MarkAll(cells, d), TagAll(kids, d + 1))
  }

  lemma {:induction false} SpelledNext(cells: seq<Cell>, kids: seq<Tree<Cell>>, x: Cell, t: Tree<Cell>, d: nat)
    requires |kids| == |cells|
    ensures SpelledBefore(cells + [x], kids + [t], d) == SpelledBefore(cells, kids, d) + Spelled(t, d + 1) + [Mark(x, d)]
  {
    MarkAppend(cells, [x], d);
    assert MarkAll([x], d) == [Mark(x, d)];
    TagAppend(kids, [t], d + 1);
    TagOne(t, d + 1);
    FlatBeforeAppend(MarkAll(cells, d), TagAll(kids, d + 1), Mark(x, d), Tag(t, d + 1));
  }

  /** A page's sequence, cut at its i-th kid. */
  lemma {:induction false} SpelledCut(id: PageId, cells: seq<Cell>, kids: seq<Tree<Cell>>, i: nat, d: nat) returns (post: seq<Mark>)
    requires |kids| == |cells| + 1 && i < |kids|
    ensures Spelled(TNode(id, cells, kids), d) == SpelledBefore(cells[..i], kids[..i], d) + Spelled(kids[i], d + 1) + post
    ensures if i < |cells| then |post| > 0 && post[0] == Mark(cells[i], d) else post == []
  {
    var left, right, marks := TagAll(kids[..i], d + 1), TagAll(kids[i + 1..], d + 1), MarkAll(cells, d);
    assert kids == kids[..i] + [kids[i]] + kids[i + 1..];
    TagAppend(kids[..i] + [kids[i]], kids[i + 1..], d + 1);
    TagAppend(kids[..i], [kids[i]], d + 1);
    TagOne(kids[i], d + 1);
    FlatCut(marks, left, Tag(kids[i], d + 1), right);
    assert marks[..i] == MarkAll(cells[..i], d);
    post := FlatAfter(marks[i..], right);
    if i < |cells| { assert marks[i..][0] == Mark(cells[i], d); }
  }

  lemma {:induction false} SpelledCells(t: Tree<Cell>, d: nat, h: nat)
    requires Shape(t, h)
    ensures |Spelled(t, d)| == |Flat(t)| && forall i :: 0 <= i < |Flat(t)| ==> Spelled(t, d)[i].cell == Flat(t)[i]
    decreases t, 1
  {
    if t.TNode? { SpelledKids(t.cells, t.kids, d, h - 1); }
  }

  lemma {:induction false} SpelledKids(cells: seq<Cell>, kids: seq<Tree<Cell>>, d: nat, h: nat)
    requires |kids| == |cells| + 1 && Shapes(kids, h)
    ensures
      var a, b := FlatKids(MarkAll(cells, d), TagAll(kids, d + 1)), FlatKids(cells, kids);
      |a| == |b| && forall i :: 0 <= i < |b| ==> a[i].cell == b[i]
    decreases kids, 0
  {
    SpelledCells(kids[0], d + 1, h);
    if |cells| > 0 {
      SpelledKids(cells[1..], kids[1..], d, h);
      assert MarkAll(cells, d)[1..] == MarkAll(cells[1..], d);
      assert TagAll(kids, d + 1)[1..] == TagAll(kids[1..], d + 1) && TagAll(kids, d + 1)[0] == Tag(kids[0], d + 1);
    } else {
      assert TagAll(kids, d + 1)[0] == Tag(kids[0], d + 1);
    }
  }

  // ---- Pages ----

  ghost predicate AllFit(p: Policy, leaf: bool, cells: seq<Cell>) {
    forall i :: 0 <= i < |cells| ==> Fit(p, leaf, cells[i])
  }

  /** Every page has cells of its kind. In an index only the root may be without
      cells, and only if it is a leaf. */
  ghost predicate Sound(p: Policy, t: Tree<Cell>, root: PageId) {
    && AllFit(p, t.TLeaf?, t.cells)
    && (p.ForIndex? ==> |t.cells| > 0 || (t.TLeaf? && t.id == root))
    && (t.TNode? ==> AllSound(p, t.kids, root))
  }

  ghost predicate AllSound(p: Policy, ts: seq<Tree<Cell>>, root: PageId) {
    |ts| == 0 || (Sound(p, ts[0], root) && AllSound(p, ts[1..], root))
  }

  lemma {:induction false} AllSoundAt(p: Policy, ts: seq<Tree<Cell>>, root: PageId, i: nat)
    requires AllSound(p, ts, root) && i < |ts|
    ensures Sound(p, ts[i], root)
    decreases i
  {
    if i > 0 { AllSoundAt(p, ts[1..], root, i - 1); }
  }

  lemma {:induction false} AllSoundAppend(p: Policy, ts: seq<Tree<Cell>>, t: Tree<Cell>, root: PageId)
    ensures AllSound(p, ts + [t], root) <==> AllSound(p, ts, root) && Sound(p, t, root)
    decreases |ts|
  {
    if |ts| == 0 {
      assert ts + [t] == [t] && [t][1..] == [];
    } else {
      assert (ts + [t])[1..] == ts[1..] + [t];
      AllSoundAppend(p, ts[1..], t, root);
    }
  }

  /** No page of these is in `seen`, and none occurs twice. */
  ghost predicate Fresh(ids: multiset<PageId>, seen: set<PageId>) {
    forall x {:trigger FreshAt(ids, seen, x)} :: FreshAt(ids, seen, x)
  }

  ghost predicate FreshAt(ids: multiset<PageId>, seen: set<PageId>, x: PageId) {
    ids[x] <= 1 && (x in ids ==> x !in seen)
  }

  ghost function Plus(seen: set<PageId>, ids: multiset<PageId>): set<PageId> {
    seen + set x | x in ids
  }

  lemma FreshMore(a: multiset<PageId>, b: multiset<PageId>, seen: set<PageId>)
    requires Fresh(a, seen) && Fresh(b, Plus(seen, a))
    ensures Fresh(a + b, seen) && Plus(Plus(seen, a), b) == Plus(seen, a + b)
  {
    forall x ensures FreshAt(a + b, seen, x) { assert FreshAt(a, seen, x) && FreshAt(b, Plus(seen, a), x); }
  }

  lemma FreshParts(a: multiset<PageId>, b: multiset<PageId>, c: multiset<PageId>, seen: set<PageId>)
    requires Fresh(a + b + c, seen)
    ensures Fresh(b, Plus(seen, a))
  {
    forall x ensures FreshAt(b, Plus(seen, a), x) { assert FreshAt(a + b + c, seen, x); }
  }

  lemma FreshRoot(page: PageId, ids: multiset<PageId>, seen: set<PageId>)
    ensures Fresh(multiset{page} + ids, seen) <==> page !in seen && Fresh(ids, seen + {page})
    ensures Plus(seen + {page}, ids) == Plus(seen, multiset{page} + ids)
  {
    if Fresh(multiset{page} + ids, seen) {
      forall x ensures FreshAt(ids, seen + {page}, x) { assert FreshAt(multiset{page} + ids, seen, x); }
      assert FreshAt(multiset{page} + ids, seen, page);
    }
    if page !in seen && Fresh(ids, seen + {page}) {
      forall x ensures FreshAt(multiset{page} + ids, seen, x) { assert FreshAt(ids, seen + {page}, x); }
    }
  }

  lemma LeafIsFresh(page: PageId, cells: seq<Cell>, seen: set<PageId>)
    requires page !in seen
    ensures Fresh(NodeIds(TLeaf(page, cells)), seen) && seen + {page} == Plus(seen, NodeIds(TLeaf(page, cells)))
  {
    forall x ensures FreshAt(NodeIds(TLeaf(page, cells)), seen, x) {}
  }

  lemma FewerLeft(keys: set<PageId>, seen: set<PageId>, more: set<PageId>)
    requires seen <= more
    ensures |keys - more| <= |keys - seen|
    ensures (exists x :: x in keys && x in more && x !in seen) ==> |keys - more| < |keys - seen|
  {
    Subset(keys - more, keys - seen);
  }

  lemma {:induction false} Subset(a: set<PageId>, b: set<PageId>)
    requires a <= b
    ensures |a| <= |b| && (a != b ==> |a| < |b|)
    decreases |a|
  {
    if a == {} {
      if b != {} { var x :| x in b; assert |b| == |b - {x}| + 1; }
    } else {
      var x :| x in a;
      Subset(a - {x}, b - {x});
      assert a != b ==> a - {x} != b - {x} by {
        if a != b { var y :| y in b && y !in a; assert y in b - {x}; }
      }
    }
  }

  lemma {:induction false} SameHeight(t: Tree<Cell>, a: nat, b: nat)
    requires Shape(t, a) && Shape(t, b)
    ensures a == b
    decreases t
  {
    if t.TNode? {
      ShapesAt(t.kids, a - 1, 0);
      ShapesAt(t.kids, b - 1, 0);
      SameHeight(t.kids[0], a - 1, b - 1);
    }
  }

  // ---- The walk ----

  /** What every step of one walk shares: the pages, the kind of tree, its root. */
  datatype Task = Task(m: map<PageId, Page<Cell>>, p: Policy, root: PageId)

  /** A place the walk comes to: a page, how deep it is, and the bounds it inherits. */
  datatype Visit = Visit(page: PageId, depth: nat, low: Bound, high: Bound)

  ghost predicate VisitOk(k: Task, v: Visit) {
    BoundOk(k.p, v.low) && BoundOk(k.p, v.high)
  }

  /** A subtree of height h in good order on the page. */
  ghost predicate Proper(k: Task, v: Visit, t: Tree<Cell>, h: nat) {
    Rep(k.m, t) && t.id == v.page && Shape(t, h) && Sound(k.p, t, k.root) && Ordered(k.p, Spelled(t, v.depth), v.low, v.high)
  }

  /** A tree that the walk ought to accept, if there is one. */
  datatype Claim = NoClaim | Claim(tree: Tree<Cell>, height: nat)

  ghost predicate Claims(claim: Claim, k: Task, v: Visit, seen: set<PageId>) {
    claim.Claim? && Proper(k, v, claim.tree, claim.height) && Fresh(NodeIds(claim.tree), seen)
  }

  /** What an accepted walk has found. */
  ghost predicate Accepted(k: Task, v: Visit, seen: set<PageId>, seen': set<PageId>, t: Tree<Cell>, h: nat, count: nat) {
    Proper(k, v, t, h) && count == |Spelled(t, v.depth)| && Fresh(NodeIds(t), seen) && seen' == Plus(seen, NodeIds(t))
  }

  /** The claim's part at the i-th child. */
  ghost function KidClaim(claim: Claim, i: nat): Claim {
    if claim.Claim? && claim.tree.TNode? && i < |claim.tree.kids| && claim.height > 0
    then Claim(claim.tree.kids[i], claim.height - 1) else NoClaim
  }

  lemma ClaimCells(claim: Claim, k: Task, v: Visit, seen: set<PageId>)
    requires Claims(claim, k, v, seen)
    ensures v.page in k.m && v.page !in seen && (k.m[v.page].LeafPage? || k.m[v.page].InteriorPage?)
    ensures k.m[v.page].LeafPage? ==>
              claim.tree == TLeaf(v.page, k.m[v.page].cells) && Sound(k.p, claim.tree, k.root)
              && Ordered(k.p, MarkAll(k.m[v.page].cells, v.depth), v.low, v.high)
    ensures k.m[v.page].InteriorPage? ==>
              && claim.tree.TNode? && claim.tree.cells == Seps(k.m[v.page]) && AllFit(k.p, false, claim.tree.cells) && claim.height > 0
              && (k.p.ForIndex? ==> |Seps(k.m[v.page])| > 0)
              && |claim.tree.kids| == |claim.tree.cells| + 1 && KidIds(claim.tree.kids) == Children(k.m[v.page])
  {
    var t := claim.tree;
    assert v.page in NodeIds(t);
    assert FreshAt(NodeIds(t), seen, v.page);
  }

  /** The visit to the i-th child of a page, after what `pre` spells. */
  function KidVisit(k: Task, v: Visit, i: nat, bound: Bound): Visit
    requires v.page in k.m && k.m[v.page].InteriorPage? && i <= |k.m[v.page].routed|
  {
    var body := k.m[v.page];
    Visit(Children(body)[i], v.depth + 1, bound, if i < |body.routed| then At(Mark(Seps(body)[i], v.depth)) else v.high)
  }

  /** What the claim says about its i-th child, once the ones before are seen. */
  lemma {:induction false} ClaimKid(claim: Claim, k: Task, v: Visit, seen0: set<PageId>, i: nat, kids: seq<Tree<Cell>>, pre: seq<Mark>, seen: set<PageId>)
    requires Claims(claim, k, v, seen0) && VisitOk(k, v) && v.page in k.m && k.m[v.page].InteriorPage? && i <= |k.m[v.page].routed|
    requires claim.tree.TNode? && claim.tree.cells == Seps(k.m[v.page]) && claim.height > 0 && |claim.tree.kids| == |claim.tree.cells| + 1
    requires KidIds(claim.tree.kids) == Children(k.m[v.page])
    requires kids == claim.tree.kids[..i] && pre == SpelledBefore(claim.tree.cells[..i], kids, v.depth)
    requires seen == Plus(seen0 + {v.page}, ForestIds(kids))
    ensures Claims(KidClaim(claim, i), k, KidVisit(k, v, i, After(pre, v.low)), seen)
    ensures i < |claim.tree.cells| ==>
              var x := Mark(claim.tree.cells[i], v.depth);
              Above(k.p, x, v.low) && Under(k.p, x, v.high) && Above(k.p, x, After(pre, v.low))
  {
    var t := claim.tree;
    var kid := t.kids[i];
    var post := SpelledCut(t.id, t.cells, t.kids, i, v.depth);
    Middle(k.p, pre, Spelled(kid, v.depth + 1), post, v.low, v.high);
    KidParts(k.m, k.p, t, i, claim.height, k.root);
    assert KidIds(t.kids)[i] == kid.id;
    KidFresh(v.page, t.kids, i, seen0);
  }

  lemma {:induction false} KidFresh(page: PageId, kids: seq<Tree<Cell>>, i: nat, seen0: set<PageId>)
    requires Fresh(multiset{page} + ForestIds(kids), seen0) && i < |kids|
    ensures Fresh(NodeIds(kids[i]), Plus(seen0 + {page}, ForestIds(kids[..i])))
  {
    var left, kid, right := kids[..i], kids[i], kids[i + 1..];
    assert kids == left + [kid] + right;
    ForestAppend(left + [kid], right);
    ForestAppend(left, [kid]);
    Singleton(map[], kid, (leaf: bool, cells: seq<Cell>) => true);
    FreshRoot(page, ForestIds(kids), seen0);
    FreshParts(ForestIds(left), NodeIds(kid), ForestIds(right), seen0 + {page});
  }

  lemma {:induction false} KidParts(m: map<PageId, Page<Cell>>, p: Policy, t: Tree<Cell>, i: nat, h: nat, root: PageId)
    requires t.TNode? && Rep(m, t) && Shape(t, h) && Sound(p, t, root) && i < |t.kids| && h > 0
    ensures Rep(m, t.kids[i]) && Shape(t.kids[i], h - 1) && Sound(p, t.kids[i], root)
  {
    RepsAt(m, t.kids, i);
    ShapesAt(t.kids, h - 1, i);
    AllSoundAt(p, t.kids, root, i);
  }

  /** The checks on the cells of a leaf. */
  method CheckCells(cells: seq<Cell>, p: Policy, depth: nat, low: Bound, high: Bound) returns (ok: bool)
    requires BoundOk(p, low) && BoundOk(p, high)
    ensures ok <==> AllFit(p, true, cells) && Ordered(p, MarkAll(cells, depth), low, high)
  {
    ghost var marks := MarkAll(cells, depth);
    OrderedNone(p, low, high);
    var i := 0;
    while i < |cells|
      invariant 0 <= i <= |cells| && AllFit(p, true, cells[..i]) && Ordered(p, marks[..i], low, high)
    {
      var x := Mark(cells[i], depth);
      assert marks[..i] + [] + marks[i..] == marks;
      if Ordered(p, marks, low, high) { Middle(p, marks[..i], [], marks[i..], low, high); }
      var fit := CheckFit(p, true, cells[i]);
      if !fit || (i > 0 && !Less(p, Mark(cells[i - 1], depth), x)) || !Above(p, x, low) || !Under(p, x, high) {
        return false;
      }
      OrderedNone(p, After(marks[..i], low), At(x));
      GrowPrefix(p, marks[..i], [], x, low, high);
      assert marks[..i] + [] + [x] == marks[..i + 1] && cells[..i + 1] == cells[..i] + [cells[i]];
      i := i + 1;
    }
    assert marks[..i] == marks && cells[..i] == cells;
    return true;
  }

  /** Check the subtree at the page. Each page is entered once, so the walk ends on
      any page graph. */
  method Walk(k: Task, v: Visit, seen0: set<PageId>, ghost claim: Claim)
    returns (ok: bool, h: nat, count: nat, seen: set<PageId>, ghost t: Tree<Cell>)
    requires VisitOk(k, v)
    ensures ok ==> Accepted(k, v, seen0, seen, t, h, count)
    ensures Claims(claim, k, v, seen0) ==> ok && t == claim.tree
    decreases |k.m.Keys - seen0|, 0
  {
    ok, h, count, seen, t := false, 0, 0, seen0, TLeaf(v.page, []);
    if Claims(claim, k, v, seen0) { ClaimCells(claim, k, v, seen0); }
    if v.page in seen0 || v.page !in k.m || !(k.m[v.page].LeafPage? || k.m[v.page].InteriorPage?) {
      return;
    }
    var body := k.m[v.page];
    if body.LeafPage? {
      if k.p.ForIndex? && |body.cells| == 0 && v.page != k.root {
        return;
      }
      ok := CheckCells(body.cells, k.p, v.depth, v.low, v.high);
      count, t := |body.cells|, TLeaf(v.page, body.cells);
      seen := seen0 + {v.page};
      LeafIsFresh(v.page, body.cells, seen0);
      return;
    }
    if k.p.ForIndex? && |body.routed| == 0 {
      return;
    }
    FewerLeft(k.m.Keys, seen0, seen0 + {v.page});
    ok, h, count, seen, t := WalkKids(k, v, seen0, claim);
  }

  /** The first kids of a page and the separators after them, checked; `pre` is
      what they spell. */
  ghost predicate Checked(k: Task, d: nat, done: seq<Cell>, kids: seq<Tree<Cell>>, pre: seq<Mark>, seen0: set<PageId>, seen: set<PageId>) {
    && |kids| == |done| && Reps(k.m, kids) && AllSound(k.p, kids, k.root) && AllFit(k.p, false, done)
    && pre == SpelledBefore(done, kids, d)
    && Fresh(ForestIds(kids), seen0) && seen == Plus(seen0, ForestIds(kids))
  }

  lemma {:induction false} CheckedNext(k: Task, d: nat, done: seq<Cell>, kids: seq<Tree<Cell>>, pre: seq<Mark>, seen0: set<PageId>, seen: set<PageId>,
                    t: Tree<Cell>, x: Cell, seen': set<PageId>)
    requires Checked(k, d, done, kids, pre, seen0, seen) && Rep(k.m, t) && Sound(k.p, t, k.root) && Fit(k.p, false, x)
    requires Fresh(NodeIds(t), seen) && seen' == Plus(seen, NodeIds(t))
    ensures Checked(k, d, done + [x], kids + [t], pre + Spelled(t, d + 1) + [Mark(x, d)], seen0, seen')
  {
    SpelledNext(done, kids, x, t, d);
    RepsAppend(k.m, kids, [t]);
    AllSoundAppend(k.p, kids, t, k.root);
    ForestAppend(kids, [t]);
    Singleton(k.m, t, (leaf: bool, cells: seq<Cell>) => true);
    FreshMore(ForestIds(kids), NodeIds(t), seen0);
  }

  /** The first kids of the page that the visit is to. */
  ghost predicate Along(k: Task, v: Visit, seen0: set<PageId>, kids: seq<Tree<Cell>>, pre: seq<Mark>, seen: set<PageId>)
    requires v.page in k.m && k.m[v.page].InteriorPage?
  {
    && |kids| <= |k.m[v.page].routed| && KidIds(kids) == Children(k.m[v.page])[..|kids|]
    && Checked(k, v.depth, Seps(k.m[v.page])[..|kids|], kids, pre, seen0 + {v.page}, seen)
  }

  lemma {:induction false} AlongIds(kids: seq<Tree<Cell>>, ids: seq<PageId>, t: Tree<Cell>)
    requires |kids| < |ids| && KidIds(kids) == ids[..|kids|] && t.id == ids[|kids|]
    ensures KidIds(kids + [t]) == ids[..|kids + [t]|]
  {
    assert ids[..|kids| + 1] == ids[..|kids|] + [t.id];
    KidIdsAppend(kids, t);
  }

  /** All kids checked: the page is the root of a proper subtree. */
  lemma {:induction false} PageRep(k: Task, v: Visit, seen0: set<PageId>, kids: seq<Tree<Cell>>, pre: seq<Mark>, seen1: set<PageId>,
                last: Tree<Cell>, h: nat, seen2: set<PageId>)
    returns (t: Tree<Cell>)
    requires v.page in k.m && k.m[v.page].InteriorPage? && Along(k, v, seen0, kids, pre, seen1) && |kids| == |k.m[v.page].routed|
    requires Shapes(kids, h) && v.page !in seen0 && (k.p.ForIndex? ==> |kids| > 0)
    requires Rep(k.m, last) && last.id == k.m[v.page].right && Shape(last, h) && Sound(k.p, last, k.root)
    requires Fresh(NodeIds(last), seen1) && seen2 == Plus(seen1, NodeIds(last))
    ensures t == TNode(v.page, Seps(k.m[v.page]), kids + [last])
    ensures Rep(k.m, t) && Shape(t, h + 1) && Sound(k.p, t, k.root) && Spelled(t, v.depth) == pre + Spelled(last, v.depth + 1)
    ensures Fresh(NodeIds(t), seen0) && seen2 == Plus(seen0, NodeIds(t))
  {
    var cells, ids, all := Seps(k.m[v.page]), Children(k.m[v.page]), kids + [last];
    t := TNode(v.page, cells, all);
    assert cells[..|kids|] == cells;
    KidIdsAppend(kids, last);
    assert ids == ids[..|kids|] + [ids[|kids|]];
    InteriorOf(k.m[v.page]);
    RepsAppend(k.m, kids, [last]);
    Singleton(k.m, last, (leaf: bool, cells: seq<Cell>) => true);
    ShapesAppend(kids, [last], h);
    ShapesOne(last, h);
    AllSoundAppend(k.p, kids, last, k.root);
    var post := SpelledCut(v.page, cells, all, |kids|, v.depth);
    assert all[..|kids|] == kids;
    ForestAppend(kids, [last]);
    FreshMore(ForestIds(kids), NodeIds(last), seen0 + {v.page});
    FreshRoot(v.page, ForestIds(all), seen0);
  }

  /** How far the walk over the children of a page has come. */
  ghost predicate Progress(k: Task, v: Visit, seen0: set<PageId>, claim: Claim, kids: seq<Tree<Cell>>, pre: seq<Mark>,
                           bound: Bound, even: bool, h: nat, count: nat, seen: set<PageId>)
    requires v.page in k.m && k.m[v.page].InteriorPage?
  {
    && Along(k, v, seen0, kids, pre, seen)
    && Ordered(k.p, pre, v.low, v.high) && bound == After(pre, v.low) && BoundOk(k.p, bound)
    && count + |kids| == |pre| + |k.m[v.page].routed|
    && (even && |kids| > 0 ==> Shapes(kids, h))
    && (Claims(claim, k, v, seen0) ==>
          && even && |kids| <= |claim.tree.kids| && kids == claim.tree.kids[..|kids|] && (|kids| > 0 ==> claim.height == h + 1))
  }

  lemma ProgressStart(k: Task, v: Visit, seen0: set<PageId>, claim: Claim)
    requires v.page in k.m && k.m[v.page].InteriorPage? && VisitOk(k, v) && v.page !in seen0
    ensures Progress(k, v, seen0, claim, [], [], v.low, true, 0, |k.m[v.page].routed|, seen0 + {v.page})
  {
    OrderedNone(k.p, v.low, v.high);
    var none: seq<Tree<Cell>> := [];
    var cells := Seps(k.m[v.page]);
    assert cells[..0] == [] && KidIds(none) == [];
    forall x ensures FreshAt(ForestIds(none), seen0 + {v.page}, x) {}
    assert Plus(seen0 + {v.page}, ForestIds(none)) == seen0 + {v.page};
  }

  lemma {:induction false} ClaimNext(k: Task, v: Visit, seen0: set<PageId>, claim: Claim, kids: seq<Tree<Cell>>, pre: seq<Mark>,
                  bound: Bound, even: bool, h: nat, count: nat, seen: set<PageId>)
    requires v.page in k.m && k.m[v.page].InteriorPage? && VisitOk(k, v) && |kids| <= |k.m[v.page].routed|
    requires Progress(k, v, seen0, claim, kids, pre, bound, even, h, count, seen)
    ensures BoundOk(k.p, bound)
    ensures Claims(claim, k, v, seen0) ==>
              var cells, i := Seps(k.m[v.page]), |kids|;
              && claim.tree.TNode? && claim.tree.cells == cells && |claim.tree.kids| == |cells| + 1 && claim.height > 0
              && Shape(claim.tree.kids[i], claim.height - 1)
              && Claims(KidClaim(claim, i), k, KidVisit(k, v, i, bound), seen)
              && (i < |cells| ==>
                    var x := Mark(cells[i], v.depth);
                    Fit(k.p, false, cells[i]) && Above(k.p, x, v.low) && Under(k.p, x, v.high) && Above(k.p, x, bound))
  {
    if Claims(claim, k, v, seen0) {
      ClaimCells(claim, k, v, seen0);
      ClaimKid(claim, k, v, seen0, |kids|, kids, pre, seen);
      ShapesAt(claim.tree.kids, claim.height - 1, |kids|);
    }
  }

  /** The next child is accepted. */
  lemma {:induction false} ProgressNext(k: Task, v: Visit, seen0: set<PageId>, claim: Claim, kids: seq<Tree<Cell>>, pre: seq<Mark>,
                     bound: Bound, even: bool, h: nat, count: nat, seen: set<PageId>, t: Tree<Cell>, h': nat, more: nat, seen': set<PageId>)
    requires v.page in k.m && k.m[v.page].InteriorPage? && |kids| < |k.m[v.page].routed| && VisitOk(k, v)
    requires Progress(k, v, seen0, claim, kids, pre, bound, even, h, count, seen)
    requires
      var sep := Seps(k.m[v.page])[|kids|];
      var x := Mark(sep, v.depth);
      && Fit(k.p, false, sep) && Above(k.p, x, bound) && Above(k.p, x, v.low) && Under(k.p, x, v.high)
      && Accepted(k, KidVisit(k, v, |kids|, bound), seen, seen', t, h', more)
    requires Claims(claim, k, v, seen0) ==> |kids| < |claim.tree.kids| && claim.tree.TNode? && t == claim.tree.kids[|kids|]
                                            && claim.height > 0 && Shape(t, claim.height - 1)
    ensures
      var x := Mark(Seps(k.m[v.page])[|kids|], v.depth);
      Progress(k, v, seen0, claim, kids + [t], pre + Spelled(t, v.depth + 1) + [x], At(x),
               even && (|kids| == 0 || h' == h), if |kids| == 0 then h' else h, count + more, seen')
  {
    hide Ordered, Along, Fresh, Sound;
    var x := Mark(Seps(k.m[v.page])[|kids|], v.depth);
    AlongNext(k, v, seen0, kids, pre, seen, t, x.cell, seen');
    GrowPrefix(k.p, pre, Spelled(t, v.depth + 1), x, v.low, v.high);
    EvenSoFar(kids, t, even, h, h');
    LastIs(pre + Spelled(t, v.depth + 1), x, v.low);
    if Claims(claim, k, v, seen0) { ClaimAlong(claim, kids, t, h, h'); }
  }

  lemma {:induction false} AlongNext(k: Task, v: Visit, seen0: set<PageId>, kids: seq<Tree<Cell>>, pre: seq<Mark>, seen: set<PageId>,
                  t: Tree<Cell>, x: Cell, seen': set<PageId>)
    requires v.page in k.m && k.m[v.page].InteriorPage? && Along(k, v, seen0, kids, pre, seen) && |kids| < |k.m[v.page].routed|
    requires Rep(k.m, t) && t.id == Children(k.m[v.page])[|kids|] && Sound(k.p, t, k.root)
    requires x == Seps(k.m[v.page])[|kids|] && Fit(k.p, false, x)
    requires Fresh(NodeIds(t), seen) && seen' == Plus(seen, NodeIds(t))
    ensures Along(k, v, seen0, kids + [t], pre + Spelled(t, v.depth + 1) + [Mark(x, v.depth)], seen')
  {
    AlongIds(kids, Children(k.m[v.page]), t);
    OneMore(Seps(k.m[v.page]), Seps(k.m[v.page])[..|kids|], x);
    CheckedNext(k, v.depth, Seps(k.m[v.page])[..|kids|], kids, pre, seen0 + {v.page}, seen, t, x, seen');
  }

  lemma {:induction false} ClaimAlong(claim: Claim, kids: seq<Tree<Cell>>, t: Tree<Cell>, h: nat, h': nat)
    requires claim.Claim? && claim.tree.TNode? && |kids| < |claim.tree.kids| && kids == claim.tree.kids[..|kids|] && t == claim.tree.kids[|kids|]
    requires claim.height > 0 && Shape(t, claim.height - 1) && Shape(t, h') && (|kids| > 0 ==> claim.height == h + 1)
    ensures kids + [t] == claim.tree.kids[..|kids + [t]|] && claim.height == h' + 1
  {
    SameHeight(t, h', claim.height - 1);
    OneMore(claim.tree.kids, kids, t);
  }

  lemma OneMore<T>(all: seq<T>, s: seq<T>, x: T)
    requires |s| < |all| && s == all[..|s|] && x == all[|s|]
    ensures s + [x] == all[..|s + [x]|]
  {
  }

  lemma {:induction false} EvenSoFar(kids: seq<Tree<Cell>>, t: Tree<Cell>, even: bool, h: nat, h': nat)
    requires (even && |kids| > 0 ==> Shapes(kids, h)) && Shape(t, h')
    ensures even && (|kids| == 0 || h' == h) ==> Shapes(kids + [t], if |kids| == 0 then h' else h)
  {
    ShapesAppend(kids, [t], h);
    ShapesOne(t, h');
    if |kids| == 0 { assert kids + [t] == [t]; }
  }

  lemma LastIs(s: seq<Mark>, x: Mark, low: Bound)
    ensures After(s + [x], low) == At(x) && |s + [x]| == |s| + 1
  {
  }

  /** Check the separators of an interior page and the subtrees between them. */
  method WalkKids(k: Task, v: Visit, seen0: set<PageId>, ghost claim: Claim)
    returns (ok: bool, h: nat, count: nat, seen: set<PageId>, ghost t: Tree<Cell>)
    requires VisitOk(k, v) && v.page in k.m && k.m[v.page].InteriorPage? && v.page !in seen0
    requires k.p.ForIndex? ==> |k.m[v.page].routed| > 0
    ensures ok ==> Accepted(k, v, seen0, seen, t, h, count)
    ensures Claims(claim, k, v, seen0) ==> ok && t == claim.tree
    decreases |k.m.Keys - (seen0 + {v.page})|, 2
  {
    var body := k.m[v.page];
    var bound, even := v.low, true;
    ghost var kids, pre := [], [];
    h, count, seen, t := 0, |body.routed|, seen0 + {v.page}, TLeaf(v.page, []);
    ProgressStart(k, v, seen0, claim);
    var i := 0;
    while i < |body.routed|
      invariant 0 <= i <= |body.routed| && i == |kids| && seen0 + {v.page} <= seen
      invariant Progress(k, v, seen0, claim, kids, pre, bound, even, h, count, seen)
      invariant bound == if i == 0 then v.low else At(Mark(Seps(body)[i - 1], v.depth))
    {
      ok, even, h, count, seen, kids, pre := WalkOne(k, v, seen0, claim, i, bound, even, h, count, seen, kids, pre);
      if !ok {
        return;
      }
      bound := At(Mark(Seps(body)[i], v.depth));
      i := i + 1;
    }
    ok, h, count, seen, t := WalkLast(k, v, seen0, claim, kids, pre, bound, even, h, count, seen);
  }

  /** The next separator and the subtree before it. */
  method WalkOne(k: Task, v: Visit, seen0: set<PageId>, ghost claim: Claim, i: nat,
      bound: Bound, even0: bool, h0: nat, count0: nat, seen1: set<PageId>, ghost kids0: seq<Tree<Cell>>, ghost pre0: seq<Mark>)
    returns (ok: bool, even: bool, h: nat, count: nat, seen: set<PageId>, ghost kids: seq<Tree<Cell>>, ghost pre: seq<Mark>)
    requires VisitOk(k, v) && v.page in k.m && k.m[v.page].InteriorPage? && v.page !in seen0 && i == |kids0| < |k.m[v.page].routed|
    requires Progress(k, v, seen0, claim, kids0, pre0, bound, even0, h0, count0, seen1) && seen0 + {v.page} <= seen1
    requires bound == if i == 0 then v.low else At(Mark(Seps(k.m[v.page])[i - 1], v.depth))
    ensures ok ==>
              && Progress(k, v, seen0, claim, kids, pre, At(Mark(Seps(k.m[v.page])[i], v.depth)), even, h, count, seen)
              && |kids| == i + 1 && seen0 + {v.page} <= seen
    ensures Claims(claim, k, v, seen0) ==> ok
    decreases |k.m.Keys - (seen0 + {v.page})|, 1
  {
    var body := k.m[v.page];
    var x := Mark(Seps(body)[i], v.depth);
    ok, even, h, count, seen, kids, pre := false, even0, h0, count0, seen1, kids0, pre0;
    ClaimNext(k, v, seen0, claim, kids, pre, bound, even, h, count, seen);
    var fit := CheckFit(k.p, false, x.cell);
    if !fit || (i > 0 && !Less(k.p, Mark(Seps(body)[i - 1], v.depth), x))
       || !Above(k.p, x, v.low) || !Under(k.p, x, v.high) {
      return;
    }
    FewerLeft(k.m.Keys, seen0 + {v.page}, seen);
    var h', more, seen';
    ghost var kid;
    ok, h', more, seen', kid := Walk(k, KidVisit(k, v, i, bound), seen, KidClaim(claim, i));
    if !ok {
      return;
    }
    ProgressNext(k, v, seen0, claim, kids, pre, bound, even, h, count, seen, kid, h', more, seen');
    even := even && (i == 0 || h' == h);
    h := if i == 0 then h' else h;
    kids, pre := kids + [kid], pre + Spelled(kid, v.depth + 1) + [x];
    count, seen := count + more, seen';
  }

  /** The last child, and the verdict on the page. */
  method WalkLast(k: Task, v: Visit, seen0: set<PageId>, ghost claim: Claim, ghost kids: seq<Tree<Cell>>, ghost pre: seq<Mark>,
      bound: Bound, even: bool, h: nat, count0: nat, seen1: set<PageId>)
    returns (ok: bool, height: nat, count: nat, seen: set<PageId>, ghost t: Tree<Cell>)
    requires VisitOk(k, v) && v.page in k.m && k.m[v.page].InteriorPage? && |kids| == |k.m[v.page].routed| && v.page !in seen0
    requires Progress(k, v, seen0, claim, kids, pre, bound, even, h, count0, seen1) && seen0 + {v.page} <= seen1
    requires k.p.ForIndex? ==> |kids| > 0
    ensures ok ==> Accepted(k, v, seen0, seen, t, height, count)
    ensures Claims(claim, k, v, seen0) ==> ok && t == claim.tree
    decreases |k.m.Keys - (seen0 + {v.page})|, 1
  {
    hide Progress, Accepted, Along, Ordered;
    FewerLeft(k.m.Keys, seen0 + {v.page}, seen1);
    ClaimNext(k, v, seen0, claim, kids, pre, bound, even, h, count0, seen1);
    var good, h', more;
    ghost var last;
    good, h', more, seen, last := Walk(k, KidVisit(k, v, |k.m[v.page].routed|, bound), seen1, KidClaim(claim, |kids|));
    height, count := h' + 1, count0 + more;
    ok := good && even && (|k.m[v.page].routed| == 0 || h' == h);
    t := Verdict(k, v, seen0, claim, kids, pre, bound, even, h, count0, seen1, good, last, h', more, seen, ok);
  }

  lemma {:induction false} Verdict(k: Task, v: Visit, seen0: set<PageId>, claim: Claim, kids: seq<Tree<Cell>>, pre: seq<Mark>,
                                   bound: Bound, even: bool, h: nat, count0: nat, seen1: set<PageId>,
                                   good: bool, last: Tree<Cell>, h': nat, more: nat, seen: set<PageId>, ok: bool)
    returns (t: Tree<Cell>)
    requires VisitOk(k, v) && v.page in k.m && k.m[v.page].InteriorPage? && |kids| == |k.m[v.page].routed| && v.page !in seen0
    requires Progress(k, v, seen0, claim, kids, pre, bound, even, h, count0, seen1) && (k.p.ForIndex? ==> |kids| > 0)
    requires good ==> Accepted(k, KidVisit(k, v, |kids|, bound), seen1, seen, last, h', more)
    requires ok == (good && even && (|kids| == 0 || h' == h))
    requires Claims(claim, k, v, seen0) ==> good && ClaimsLast(claim, v.page, Seps(k.m[v.page]), |kids|, last)
    ensures ok ==> Accepted(k, v, seen0, seen, t, h' + 1, count0 + more)
    ensures Claims(claim, k, v, seen0) ==> ok && t == claim.tree
  {
    hide Ordered, Along, Fresh, Sound;
    t := last;
    if Claims(claim, k, v, seen0) { ClaimAlong(claim, kids, last, h, h'); }
    if ok {
      t := PageRep(k, v, seen0, kids, pre, seen1, last, h', seen);
      CloseSequence(k.p, pre, Spelled(last, v.depth + 1), v.low, v.high);
    }
  }

  ghost predicate ClaimsLast(claim: Claim, page: PageId, cells: seq<Cell>, n: nat, last: Tree<Cell>) {
    && claim.Claim? && claim.tree.TNode? && claim.tree.id == page && claim.tree.cells == cells && |claim.tree.kids| == n + 1
    && claim.height > 0 && last == claim.tree.kids[n] && Shape(last, claim.height - 1)
  }

  // ---- The two validators ----

  /** The pages below `root` are a tree of one height, on pages of the right kind
      that occur once each, and in order. */
  ghost predicate IsTree(m: map<PageId, Page<Cell>>, p: Policy, root: PageId, t: Tree<Cell>, h: nat) {
    && Rep(m, t) && t.id == root && Shape(t, h) && Fresh(NodeIds(t), {})
    && Sound(p, t, root) && Ordered(p, Spelled(t, 0), Open, Open)
  }

  method ValidateTree(m: map<PageId, Page<Cell>>, p: Policy, root: PageId) returns (ok: bool, count: nat)
    ensures ok <==> exists t, h :: IsTree(m, p, root, t, h)
    ensures ok ==> forall t, h :: IsTree(m, p, root, t, h) ==> count == |Flat(t)|
  {
    ghost var claim := NoClaim;
    if exists t, h :: IsTree(m, p, root, t, h) {
      ghost var t, h :| IsTree(m, p, root, t, h);
      claim := Claim(t, h);
    }
    var height, seen;
    ghost var found;
    ok, height, count, seen, found := Walk(Task(m, p, root), Visit(root, 0, Open, Open), {}, claim);
    if ok {
      assert IsTree(m, p, root, found, height);
      SpelledCells(found, 0, height);
      forall t, h | IsTree(m, p, root, t, h) ensures t == found { SameTree(m, t, found, h, height); }
    }
  }

  /** Accepts exactly the index trees in good order, and counts their entries. */
  method ValidateIndex(m: map<PageId, Page<Cell>>, links: map<PageId, PageId>, root: PageId, arity: nat) returns (ok: bool, count: nat)
    ensures ok <==> exists t, h :: IsTree(m, ForIndex(links, arity), root, t, h)
    ensures ok ==> forall t, h :: IsTree(m, ForIndex(links, arity), root, t, h) ==> count == |Flat(t)|
  {
    ok, count := ValidateTree(m, ForIndex(links, arity), root);
  }

  /** Accepts exactly the table trees in good order. */
  method ValidateTable(m: map<PageId, Page<Cell>>, links: map<PageId, PageId>, root: PageId) returns (ok: bool)
    ensures ok <==> exists t, h :: IsTree(m, ForTable(links), root, t, h)
  {
    var count;
    ok, count := ValidateTree(m, ForTable(links), root);
  }

  /** The pages determine the tree. */
  lemma {:induction false} SameTree(m: map<PageId, Page<Cell>>, a: Tree<Cell>, b: Tree<Cell>, h: nat, k: nat)
    requires Rep(m, a) && Rep(m, b) && a.id == b.id && Shape(a, h) && Shape(b, k)
    ensures a == b
    decreases a, 1
  {
    if a.TNode? && b.TNode? {
      assert Seps(Shallow(a)) == a.cells && Children(Shallow(a)) == KidIds(a.kids);
      assert Seps(Shallow(b)) == b.cells && Children(Shallow(b)) == KidIds(b.kids);
      SameKids(m, a.kids, b.kids, h - 1, k - 1);
    }
  }

  lemma {:induction false} SameKids(m: map<PageId, Page<Cell>>, a: seq<Tree<Cell>>, b: seq<Tree<Cell>>, h: nat, k: nat)
    requires Reps(m, a) && Reps(m, b) && KidIds(a) == KidIds(b) && Shapes(a, h) && Shapes(b, k)
    ensures a == b
    decreases a, 0
  {
    assert |KidIds(a)| == |KidIds(b)|;
    if |a| > 0 {
      assert KidIds(a)[0] == a[0].id && KidIds(b)[0] == b[0].id;
      SameTree(m, a[0], b[0], h, k);
      assert KidIds(a[1..]) == KidIds(a)[1..] && KidIds(b[1..]) == KidIds(b)[1..];
      SameKids(m, a[1..], b[1..], h, k);
      assert a == [a[0]] + a[1..] && b == [b[0]] + b[1..];
    }
  }

  // ---- What acceptance means ----

  /** In an accepted index the entries ascend strictly and have the right arity. */
  lemma IndexOrder(links: map<PageId, PageId>, s: seq<Mark>, f: seq<Cell>, n: nat)
    requires |s| == |f| && forall i :: 0 <= i < |f| ==> s[i].cell == f[i]
    ensures Ordered(ForIndex(links, n), s, Open, Open) <==> IndexTree.Sorted(f) && IndexTree.SameArity(f, n) && AllReadable(links, f)
  {
    if Ordered(ForIndex(links, n), s, Open, Open) {
      forall i ensures IndexTree.HasArity(f, n, i) { assert InPlace(ForIndex(links, n), s, Open, Open, i); }
      forall i | 0 <= i < |f| ensures Readable(links, f[i]) { assert InPlace(ForIndex(links, n), s, Open, Open, i); }
      forall i, j ensures IndexTree.Ascends(f, i, j) { assert Ascends(ForIndex(links, n), s, i, j); }
    }
    if IndexTree.Sorted(f) && IndexTree.SameArity(f, n) && AllReadable(links, f) {
      forall i ensures InPlace(ForIndex(links, n), s, Open, Open, i) { assert IndexTree.HasArity(f, n, i); }
      forall i, j ensures Ascends(ForIndex(links, n), s, i, j) { assert IndexTree.Ascends(f, i, j); }
    }
  }

  lemma {:induction false} AcceptedIndex(m: map<PageId, Page<Cell>>, links: map<PageId, PageId>, n: nat, root: PageId, t: Tree<Cell>, h: nat)
    requires IsTree(m, ForIndex(links, n), root, t, h)
    ensures IndexTree.Sorted(Flat(t)) && IndexTree.SameArity(Flat(t), n) && AllReadable(links, Flat(t))
  {
    SpelledCells(t, 0, h);
    IndexOrder(links, Spelled(t, 0), Flat(t), n);
  }

  /** A failed rotation is found out: no tree that the pages spell is accepted. */
  lemma {:induction false} DamageIsDetected(m: map<PageId, Page<Cell>>, links: map<PageId, PageId>, n: nat, root: PageId, t: Tree<Cell>, h: nat, s: seq<Cell>)
    requires Rep(m, t) && Shape(t, h) && t.id == root && Rebalance.Spoilt(s, Flat(t))
    ensures !exists t', h' :: IsTree(m, ForIndex(links, n), root, t', h')
  {
    forall t', h' | IsTree(m, ForIndex(links, n), root, t', h') ensures false {
      SameTree(m, t, t', h, h');
      AcceptedIndex(m, links, n, root, t', h');
      Rebalance.SpoiltIsUnsorted(s, Flat(t));
    }
  }

  /** `a` stands before `b` in an accepted table. */
  ghost predicate InTurn(a: Cell, b: Cell) {
    match (a, b)
    case (Row(r, _, _), Row(q, _, _)) => r < q
    case (Row(r, _, _), Fence(s)) => r <= s
    case (Fence(s), Row(r, _, _)) => s < r
    case (Fence(s), Fence(u)) => s <= u
    case _ => false
  }

  ghost predicate AllInTurn(a: seq<Cell>, b: seq<Cell>) {
    forall i, j :: 0 <= i < |a| && 0 <= j < |b| ==> InTurn(a[i], b[j])
  }

  /** In an accepted table the cells follow each other in turn: rows ascend strictly,
      and fences ascend with them. */
  lemma {:induction false} AcceptedTable(m: map<PageId, Page<Cell>>, links: map<PageId, PageId>, root: PageId, t: Tree<Cell>, h: nat)
    requires IsTree(m, ForTable(links), root, t, h)
    ensures forall i, j :: 0 <= i < j < |Flat(t)| ==> InTurn(Flat(t)[i], Flat(t)[j])
  {
    SpelledCells(t, 0, h);
    var s := Spelled(t, 0);
    forall i, j | 0 <= i < j < |Flat(t)| ensures InTurn(Flat(t)[i], Flat(t)[j]) { assert Ascends(ForTable(links), s, i, j); }
  }

  /** So each subtree's rows lie above every separator left of it, and at or below
      every separator right of it. */
  lemma {:induction false} AcceptedRanges(m: map<PageId, Page<Cell>>, links: map<PageId, PageId>, root: PageId, t: Tree<Cell>, h: nat,
                                          c: Ctx<Cell>, x: Tree<Cell>)
    requires IsTree(m, ForTable(links), root, t, h) && Plug(c, x) == t
    ensures AllInTurn(FlatLeft(c), Flat(x)) && AllInTurn(Flat(x), FlatRight(c))
  {
    AcceptedTable(m, links, root, t, h);
    UnplugShape(c, x, h);
    PlugFlat(c, x, h - Depth(c));
    TurnsApart(FlatLeft(c), Flat(x), FlatRight(c));
  }

  lemma TurnsApart(a: seq<Cell>, b: seq<Cell>, c: seq<Cell>)
    requires forall i, j :: 0 <= i < j < |a + b + c| ==> InTurn((a + b + c)[i], (a + b + c)[j])
    ensures AllInTurn(a, b) && AllInTurn(b, c)
  {
    var s := a + b + c;
    forall i, j | 0 <= i < |a| && 0 <= j < |b| ensures InTurn(a[i], b[j]) { assert InTurn(s[i], s[|a| + j]); }
    forall i, j | 0 <= i < |b| && 0 <= j < |c| ensures InTurn(b[i], c[j]) { assert InTurn(s[|a| + i], s[|a| + |b| + j]); }
  }

  // ---- What the operations keep is what the validators want ----

  ghost predicate AllReadable(links: map<PageId, PageId>, s: seq<Cell>) {
    forall i :: 0 <= i < |s| ==> Readable(links, s[i])
  }

  /** An overflow page begins with the number of the next one. */
  ghost predicate Linked(m: map<PageId, Page<Cell>>, links: map<PageId, PageId>) {
    forall id :: id in m && m[id].OverflowPage? ==> id in links && links[id] == m[id].next
  }

  lemma {:induction false} ChainEnds(m: map<PageId, Page<Cell>>, links: map<PageId, PageId>, ids: seq<PageId>, seen: set<PageId>)
    requires Linked(m, links) && OverflowLinks(m, ids) && Fresh(Tally(ids), seen)
    ensures Ends(links, Head(ids), seen)
    decreases |ids|
  {
    if |ids| > 0 {
      FreshRoot(ids[0], Tally(ids[1..]), seen);
      ChainEnds(m, links, ids[1..], seen + {ids[0]});
    }
  }

  lemma {:induction false} ChainsEnd(m: map<PageId, Page<Cell>>, links: map<PageId, PageId>, s: seq<Cell>)
    requires Linked(m, links) && ChainsLinked(m, s) && Fresh(ChainIds(s), {})
    ensures AllReadable(links, s)
    decreases |s|
  {
    if |s| > 0 {
      forall x ensures FreshAt(Tally(s[0].chain), {}, x) && FreshAt(ChainIds(s[1..]), {}, x) { assert FreshAt(ChainIds(s), {}, x); }
      ChainEnds(m, links, s[0].chain, {});
      ChainsEnd(m, links, s[1..]);
    }
  }

  ghost predicate ReadableForest(links: map<PageId, PageId>, ts: seq<Tree<Cell>>) {
    forall i :: 0 <= i < |ts| ==> AllReadable(links, Flat(ts[i]))
  }

  lemma ReadableParts(links: map<PageId, PageId>, a: seq<Cell>, x: Cell, b: seq<Cell>)
    requires AllReadable(links, a + [x] + b)
    ensures AllReadable(links, a) && Readable(links, x) && AllReadable(links, b)
  {
    var s := a + [x] + b;
    forall i | 0 <= i < |a| ensures Readable(links, a[i]) { assert Readable(links, s[i]); }
    assert Readable(links, s[|a|]);
    forall i | 0 <= i < |b| ensures Readable(links, b[i]) { assert Readable(links, s[|a| + 1 + i]); }
  }

  /** What can be read in sequence can be read on every page. */
  lemma {:induction false} KidsReadable(links: map<PageId, PageId>, cells: seq<Cell>, kids: seq<Tree<Cell>>)
    requires |kids| == |cells| + 1 && AllReadable(links, FlatKids(cells, kids))
    ensures AllReadable(links, cells) && ReadableForest(links, kids)
    decreases |cells|
  {
    if |cells| > 0 {
      ReadableParts(links, Flat(kids[0]), cells[0], FlatKids(cells[1..], kids[1..]));
      KidsReadable(links, cells[1..], kids[1..]);
      forall i | 0 <= i < |cells| ensures Readable(links, cells[i]) { if i > 0 { assert cells[i] == cells[1..][i - 1]; } }
      forall i | 0 <= i < |kids| ensures AllReadable(links, Flat(kids[i])) { if i > 0 { assert kids[i] == kids[1..][i - 1]; } }
    }
  }

  lemma {:induction false} IndexPagesSound(links: map<PageId, PageId>, t: Tree<Cell>, h: nat, n: nat, root: PageId)
    requires AllPages(t, IndexTree.Rule(n)) && Shape(t, h) && AllReadable(links, Flat(t))
    ensures Sound(ForIndex(links, n), t, root)
    decreases t, 1
  {
    if t.TNode? {
      KidsReadable(links, t.cells, t.kids);
      IndexForestSound(links, t.kids, h - 1, n, root);
    }
    forall i | 0 <= i < |t.cells| ensures Fit(ForIndex(links, n), t.TLeaf?, t.cells[i]) { assert IndexTree.Good(n)(t.cells[i]); }
  }

  lemma {:induction false} IndexForestSound(links: map<PageId, PageId>, ts: seq<Tree<Cell>>, h: nat, n: nat, root: PageId)
    requires AllForest(ts, IndexTree.Rule(n)) && Shapes(ts, h) && ReadableForest(links, ts)
    ensures AllSound(ForIndex(links, n), ts, root)
    decreases ts, 0
  {
    if |ts| > 0 {
      IndexPagesSound(links, ts[0], h, n, root);
      IndexForestSound(links, ts[1..], h, n, root);
    }
  }

  lemma {:induction false} TablePagesSound(links: map<PageId, PageId>, t: Tree<Cell>, h: nat, root: PageId)
    requires AllPages(t, TableTree.Rule) && Shape(t, h) && AllReadable(links, Flat(t))
    ensures Sound(ForTable(links), t, root)
    decreases t, 1
  {
    if t.TNode? {
      KidsReadable(links, t.cells, t.kids);
      TableForestSound(links, t.kids, h - 1, root);
    }
    forall i | 0 <= i < |t.cells| ensures Fit(ForTable(links), t.TLeaf?, t.cells[i]) {
      assert if t.TLeaf? then TableTree.GoodRow(t.cells[i]) else TableTree.GoodFence(t.cells[i]);
    }
  }

  lemma {:induction false} TableForestSound(links: map<PageId, PageId>, ts: seq<Tree<Cell>>, h: nat, root: PageId)
    requires AllForest(ts, TableTree.Rule) && Shapes(ts, h) && ReadableForest(links, ts)
    ensures AllSound(ForTable(links), ts, root)
    decreases ts, 0
  {
    if |ts| > 0 {
      TablePagesSound(links, ts[0], h, root);
      TableForestSound(links, ts[1..], h, root);
    }
  }

  lemma {:induction false} SoundKnown(p: Policy, t: Tree<Cell>, root: PageId, h: nat)
    requires Sound(p, t, root) && Shape(t, h)
    ensures forall i :: 0 <= i < |Flat(t)| ==> Known(p, Flat(t)[i])
    decreases t, 1
  {
    if t.TNode? { KidsKnown(p, t.cells, t.kids, root, h - 1); }
  }

  lemma {:induction false} KidsKnown(p: Policy, cells: seq<Cell>, kids: seq<Tree<Cell>>, root: PageId, h: nat)
    requires |kids| == |cells| + 1 && AllFit(p, false, cells) && AllSound(p, kids, root) && Shapes(kids, h)
    ensures forall i :: 0 <= i < |FlatKids(cells, kids)| ==> Known(p, FlatKids(cells, kids)[i])
    decreases kids, 0
  {
    SoundKnown(p, kids[0], root, h);
    if |cells| > 0 { KidsKnown(p, cells[1..], kids[1..], root, h); }
  }

  lemma TableOrder(links: map<PageId, PageId>, s: seq<Mark>, f: seq<Cell>)
    requires |s| == |f| && forall i :: 0 <= i < |f| ==> s[i].cell == f[i] && Known(ForTable(links), f[i])
    requires TableTree.Sorted(f)
    ensures Ordered(ForTable(links), s, Open, Open)
  {
    forall i ensures InPlace(ForTable(links), s, Open, Open, i) {}
    forall i, j ensures Ascends(ForTable(links), s, i, j) {
      if 0 <= i < j < |s| { assert TableTree.Ascends(f, i, j); }
    }
  }

  lemma {:induction false} OwnedOnce(t: Tree<Cell>, used: multiset<PageId>, free: seq<PageId>, pages: nat, others: multiset<PageId>)
    requires Ledger(used, free, pages) && used == NodeIds(t) + (ChainIds(Flat(t)) + others)
    ensures Fresh(NodeIds(t), {}) && Fresh(ChainIds(Flat(t)), {})
  {
    forall x ensures FreshAt(NodeIds(t), {}, x) && FreshAt(ChainIds(Flat(t)), {}, x) { assert Owners(used, free, x) <= 1; }
  }

  /** Every well-formed index passes validation. */
  lemma {:induction false} IndexPasses(m: map<PageId, Page<Cell>>, links: map<PageId, PageId>, used: multiset<PageId>, free: seq<PageId>, pages: nat,
                    t: Tree<Cell>, h: nat, n: nat, others: multiset<PageId>)
    requires IndexTree.Wf(m, used, t, h, n, others) && Ledger(used, free, pages) && Linked(m, links)
    ensures IsTree(m, ForIndex(links, n), t.id, t, h)
  {
    OwnedOnce(t, used, free, pages, others);
    ChainsEnd(m, links, Flat(t));
    SpelledCells(t, 0, h);
    IndexOrder(links, Spelled(t, 0), Flat(t), n);
    if AllPages(t, IndexTree.Rule(n)) { IndexPagesSound(links, t, h, n, t.id); }
  }

  /** And so does every well-formed table. */
  lemma {:induction false} TablePasses(m: map<PageId, Page<Cell>>, links: map<PageId, PageId>, used: multiset<PageId>, free: seq<PageId>, pages: nat,
                    t: Tree<Cell>, h: nat, others: multiset<PageId>)
    requires TableTree.Wf(m, used, t, h, others) && Ledger(used, free, pages) && Linked(m, links)
    ensures IsTree(m, ForTable(links), t.id, t, h)
  {
    OwnedOnce(t, used, free, pages, others);
    ChainsEnd(m, links, Flat(t));
    SpelledCells(t, 0, h);
    if AllPages(t, TableTree.Rule) { TablePagesSound(links, t, h, t.id); }
    SoundKnown(ForTable(links), t, t.id, h);
    TableOrder(links, Spelled(t, 0), Flat(t));
  }
}
