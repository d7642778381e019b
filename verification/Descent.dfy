/** Root-to-leaf descent. A probe is given as the predicate "this stored item
    lies before the probe"; all the descent needs is that along the in-order
    sequence the answer never turns from no to yes. That covers full keys and
    key prefixes alike. */
module Descent {
  import opened Basics
  import opened Trees
  import opened Store

  ghost predicate Monotone<X>(s: seq<X>, below: X -> bool) {
    forall i, j :: 0 <= i < j < |s| && below(s[j]) ==> below(s[i])
  }

  ghost predicate AllBelow<X>(s: seq<X>, below: X -> bool) {
    forall i :: 0 <= i < |s| ==> below(s[i])
  }

  ghost predicate NoneBelow<X>(s: seq<X>, below: X -> bool) {
    forall i :: 0 <= i < |s| ==> !below(s[i])
  }

  /** A probe past the last cell is past them all. */
  lemma LastIsBelow<X>(cells: seq<X>, slot: nat, below: X -> bool)
    requires slot <= |cells| && AllBelow(cells[..slot], below) && NoneBelow(cells[slot..], below)
    ensures |cells| == 0 || below(cells[|cells| - 1]) <==> slot == |cells|
  {
    if slot < |cells| {
      assert cells[slot..][|cells| - 1 - slot] == cells[|cells| - 1];
    } else if |cells| > 0 {
      assert cells[..slot][slot - 1] == cells[|cells| - 1];
    }
  }

  /** The first slot whose item is not below the probe. */
  method LowerBound<X>(cells: seq<X>, below: X -> bool) returns (lo: nat)
    requires Monotone(cells, below)
    ensures lo <= |cells| && AllBelow(cells[..lo], below) && NoneBelow(cells[lo..], below)
  {
    lo := 0;
    var hi := |cells|;
    while lo < hi
      invariant lo <= hi <= |cells|
      invariant forall i :: 0 <= i < lo ==> below(cells[i])
      invariant forall i :: hi <= i < |cells| ==> !below(cells[i])
    {
      var mid := (lo + hi) / 2;
      if !below(cells[mid]) {
        hi := mid;
      } else {
        lo := mid + 1;
      }
    }
  }

  lemma MonotoneParts<X>(a: seq<X>, b: seq<X>, below: X -> bool)
    requires Monotone(a + b, below)
    ensures Monotone(a, below) && Monotone(b, below)
    ensures forall i, j :: 0 <= i < |a| && 0 <= j < |b| && below(b[j]) ==> below(a[i])
  {
    var s := a + b;
    forall i, j | 0 <= i < |a| && 0 <= j < |b| && below(b[j]) ensures below(a[i]) {
      assert s[i] == a[i] && s[|a| + j] == b[j];
    }
    forall i, j | 0 <= i < j < |a| && below(a[j]) ensures below(a[i]) {
      assert s[i] == a[i] && s[j] == a[j];
    }
    forall i, j | 0 <= i < j < |b| && below(b[j]) ensures below(b[i]) {
      assert s[|a| + i] == b[i] && s[|a| + j] == b[j];
    }
  }

  lemma MonotoneAround<X>(a: seq<X>, x: X, b: seq<X>, below: X -> bool)
    requires Monotone(a + [x] + b, below)
    ensures Monotone(a, below) && Monotone(b, below)
    ensures below(x) ==> AllBelow(a, below)
    ensures !below(x) ==> NoneBelow(b, below)
  {
    MonotoneParts(a + [x], b, below);
    MonotoneParts(a, [x], below);
    if !below(x) {
      forall j | 0 <= j < |b| ensures !below(b[j]) {
        assert (a + [x])[|a|] == x;
      }
    }
    if below(x) { assert [x][0] == x; }
  }

  /** The cells of a node inherit the order of the whole sequence. */
  lemma {:induction false} CellsMonotone<X>(cells: seq<X>, kids: seq<Tree<X>>, below: X -> bool)
    requires |kids| == |cells| + 1 && Monotone(FlatKids(cells, kids), below)
    ensures Monotone(cells, below)
    ensures NoneBelow(FlatKids(cells, kids), below) ==> NoneBelow(cells, below)
    decreases |cells|
  {
    if |cells| > 0 {
      var tail := FlatKids(cells[1..], kids[1..]);
      MonotoneAround(Flat(kids[0]), cells[0], tail, below);
      CellsMonotone(cells[1..], kids[1..], below);
      var all := FlatKids(cells, kids);
      var n := |Flat(kids[0])|;
      assert all[n] == cells[0];
      if !below(cells[0]) {
        assert NoneBelow(tail, below);
        forall j | 1 <= j < |cells| ensures !below(cells[j]) { assert cells[j] == cells[1..][j - 1]; }
      }
      forall i, j | 0 <= i < j < |cells| && below(cells[j]) ensures below(cells[i]) {
        assert cells[j] == cells[1..][j - 1];
        if i > 0 { assert cells[i] == cells[1..][i - 1]; }
      }
    }
  }

  lemma {:induction false} BeforeLast<X>(cells: seq<X>, kids: seq<Tree<X>>)
    requires |kids| == |cells| > 0
    ensures |FlatBefore(cells, kids)| > 0
    ensures FlatBefore(cells, kids)[|FlatBefore(cells, kids)| - 1] == cells[|cells| - 1]
    decreases |cells|
  {
    if |cells| > 1 {
      BeforeLast(cells[1..], kids[1..]);
    } else {
      assert FlatBefore(cells[1..], kids[1..]) == [];
    }
  }

  /** Taking the kid at the lower bound: what is left of it is below the probe,
      what is right of it is not. */
  lemma StepDown<X>(cells: seq<X>, kids: seq<Tree<X>>, k: nat, below: X -> bool)
    requires |kids| == |cells| + 1 && k <= |cells| && Monotone(FlatKids(cells, kids), below)
    requires AllBelow(cells[..k], below) && NoneBelow(cells[k..], below)
    ensures AllBelow(FlatBefore(cells[..k], kids[..k]), below)
    ensures NoneBelow(FlatAfter(cells[k..], kids[k + 1..]), below)
    ensures Monotone(Flat(kids[k]), below)
  {
    var a, m, b := FlatBefore(cells[..k], kids[..k]), Flat(kids[k]), FlatAfter(cells[k..], kids[k + 1..]);
    assert kids[..k] + [kids[k]] + kids[k + 1..] == kids;
    FlatCut(cells, kids[..k], kids[k], kids[k + 1..]);
    MonotoneParts(a + m, b, below);
    MonotoneParts(a, m, below);
    if k > 0 {
      BeforeLast(cells[..k], kids[..k]);
      assert a[|a| - 1] == cells[..k][k - 1];
    }
    if k < |cells| {
      assert b[0] == cells[k..][0];
      assert forall j :: 0 < j < |b| && below(b[j]) ==> below(b[0]);
    }
  }

  /** Everything left of the context's hole is below the probe, and nothing right of it. */
  ghost predicate Straddles<X>(c: Ctx<X>, below: X -> bool) {
    AllBelow(FlatLeft(c), below) && NoneBelow(FlatRight(c), below)
  }

  /** `c` and `t` are a place in the tree `whole`, reached by `path`. */
  ghost predicate At<X>(m: map<PageId, Page<X>>, whole: Tree<X>, path: seq<Step>, c: Ctx<X>, t: Tree<X>, h: nat) {
    Plug(c, t) == whole && Follows(path, c) && CtxShape(c, h) && Shape(t, h) && Rep(m, t) && CtxRep(m, c, t.id)
  }

  lemma AtRoot<X>(m: map<PageId, Page<X>>, t: Tree<X>, h: nat, below: X -> bool)
    requires Rep(m, t) && Shape(t, h)
    ensures At(m, t, [], Top, t, h) && Straddles<X>(Top, below)
  {
  }

  lemma AtKid<X>(m: map<PageId, Page<X>>, whole: Tree<X>, path: seq<Step>, c: Ctx<X>, t: Tree<X>, h: nat, k: nat)
    requires At(m, whole, path, c, t, h) && t.TNode? && k < |t.kids|
    ensures h > 0 && At(m, whole, path + [Step(t.id, k)], Enter(c, t, k), t.kids[k], h - 1)
    ensures m[t.id].InteriorPage? && Children(m[t.id])[k] == t.kids[k].id && Seps(m[t.id]) == t.cells
  {
    EnterPlug(c, t, k, h);
    assert t.kids[..k] + [t.kids[k]] + t.kids[k + 1..] == t.kids;
    FillShallow(Enter(c, t, k), t.kids[k]);
    RepsAppend(m, t.kids[..k] + [t.kids[k]], t.kids[k + 1..]);
    RepsAppend(m, t.kids[..k], [t.kids[k]]);
    RepsAt(m, t.kids, k);
    var path' := path + [Step(t.id, k)];
    assert path'[..|path'| - 1] == path;
  }

  lemma StraddlesKid<X>(c: Ctx<X>, t: Tree<X>, h: nat, k: nat, below: X -> bool)
    requires t.TNode? && Shape(t, h) && k <= |t.cells| && Straddles(c, below) && Monotone(Flat(t), below)
    requires AllBelow(t.cells[..k], below) && NoneBelow(t.cells[k..], below)
    ensures Straddles(Enter(c, t, k), below) && Monotone(Flat(t.kids[k]), below)
  {
    StepDown(t.cells, t.kids, k, below);
  }

  /** Descend to the leaf where the probe belongs, recording the slot taken on
      every page; the last slot is the lower bound in the leaf. */
  method FindLeaf<X>(s: PageStore<X>, root: PageId, below: X -> bool, ghost whole: Tree<X>, ghost height: nat)
    returns (path: seq<Step>, page: PageId, slot: nat, ghost c: Ctx<X>, ghost leaf: Tree<X>)
    requires Rep(s.pages, whole) && Shape(whole, height) && whole.id == root && Monotone(Flat(whole), below)
    ensures At(s.pages, whole, path, c, leaf, 0) && leaf.TLeaf? && page == leaf.id
    ensures Straddles(c, below) && slot <= |leaf.cells|
    ensures AllBelow(leaf.cells[..slot], below) && NoneBelow(leaf.cells[slot..], below)
  {
    path, page, slot, c, leaf := [], root, 0, Top, whole;
    ghost var h: nat := height;
    AtRoot(s.pages, whole, height, below);
    while s.pages[page].InteriorPage?
      invariant page == leaf.id && At(s.pages, whole, path, c, leaf, h)
      invariant Straddles(c, below) && Monotone(Flat(leaf), below)
      decreases h
    {
      CellsMonotone(leaf.cells, leaf.kids, below);
      slot := LowerBound(Seps(s.pages[page]), below);
      StraddlesKid(c, leaf, h, slot, below);
      AtKid(s.pages, whole, path, c, leaf, h, slot);
      path := path + [Step(page, slot)];
      page := Children(s.pages[page])[slot];
      c, leaf, h := Enter(c, leaf, slot), leaf.kids[slot], h - 1;
    }
    slot := LowerBound(s.pages[page].cells, below);
  }
}
