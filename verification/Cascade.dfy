/** Promoting a separator into an interior page, splitting that page when it has
    no room, and so on up to the root, which grows in place. Table and index
    trees run the same cascade; they differ in what an interior cell weighs. */
module Cascade {
  import opened Basics
  import opened Trees
  import opened Store
  import opened Split

  /** The heaviest interior cell: four of them fill an interior page exactly. */
  const MAX_WEIGHT: nat := 1021

  /** What the cascade needs of the rule that interior pages obey: it is a bound
      on bytes plus a condition on each cell, and it accepts every non-empty page
      of good cells within the bound. */
  ghost predicate InteriorRule<X(!new)>(ok: PageRule<X>, w: X -> nat, good: X -> bool) {
    && (forall x {:trigger Light(x, w, good)} :: Light(x, w, good))
    && (forall cells {:trigger RuleAt(cells, ok, w, good)} :: RuleAt(cells, ok, w, good))
  }

  ghost predicate Light<X>(x: X, w: X -> nat, good: X -> bool) {
    good(x) ==> w(x) <= MAX_WEIGHT
  }

  ghost predicate RuleAt<X>(cells: seq<X>, ok: PageRule<X>, w: X -> nat, good: X -> bool) {
    && (ok(false, cells) ==> Bytes(cells, w) <= INTERIOR_ROOM && AllGood(cells, good))
    && (|cells| >= 1 && Bytes(cells, w) <= INTERIOR_ROOM && AllGood(cells, good) ==> ok(false, cells))
  }

  ghost predicate AllGood<X>(cells: seq<X>, good: X -> bool) {
    forall i :: 0 <= i < |cells| ==> good(cells[i])
  }

  // ---- On pages ----

  /** Put `left`, `sep`, `right` where the page had one child at `slot`. */
  function WidenPage<X>(p: Page<X>, slot: nat, left: PageId, sep: X, right: PageId): (r: Page<X>)
    requires p.InteriorPage? && slot <= |p.routed|
    ensures r == Interior(Seps(p)[..slot] + [sep] + Seps(p)[slot..],
                          Children(p)[..slot] + [left, right] + Children(p)[slot + 1..])
  {
    var r :=
      if slot == |p.routed| then
        InteriorPage(p.routed + [Routed(left, sep)], right)
      else
        InteriorPage(p.routed[..slot] + [Routed(left, sep), Routed(right, p.routed[slot].sep)] + p.routed[slot + 1..],
                     p.right);
    assert Seps(r) == Seps(p)[..slot] + [sep] + Seps(p)[slot..];
    assert Children(r) == Children(p)[..slot] + [left, right] + Children(p)[slot + 1..];
    InteriorOf(r);
    r
  }

  /** Cells before the m-th, with its child as right child. */
  function LeftHalf<X>(p: Page<X>, m: nat): (r: Page<X>)
    requires p.InteriorPage? && m < |p.routed|
    ensures r == Interior(Seps(p)[..m], Children(p)[..m + 1])
  {
    var r := InteriorPage(p.routed[..m], p.routed[m].child);
    assert Seps(r) == Seps(p)[..m];
    assert Children(r) == Children(p)[..m + 1];
    InteriorOf(r);
    r
  }

  function RightHalf<X>(p: Page<X>, m: nat): (r: Page<X>)
    requires p.InteriorPage? && m < |p.routed|
    ensures r == Interior(Seps(p)[m + 1..], Children(p)[m + 1..])
  {
    var r := InteriorPage(p.routed[m + 1..], p.right);
    assert Seps(r) == Seps(p)[m + 1..];
    assert Children(r) == Children(p)[m + 1..];
    InteriorOf(r);
    r
  }

  /** The cell an over-full interior page gives up. It leaves two non-empty pages
      that both fit: neither guard in the source's split can fire. */
  method ChooseConsumed<X(!new)>(cells: seq<X>, slot: nat, w: X -> nat) returns (m: nat)
    requires slot < |cells| && Bounded(cells, w, MAX_WEIGHT)
    requires Bytes(cells, w) > INTERIOR_ROOM && Bytes(cells, w) <= INTERIOR_ROOM + w(cells[slot])
    ensures 1 <= m <= |cells| - 2
    ensures Bytes(cells[..m], w) <= INTERIOR_ROOM && Bytes(cells[m + 1..], w) <= INTERIOR_ROOM
    ensures if slot == |cells| - 1 then m == |cells| - 2 else LeavesMostEven(cells, m, w)
  {
    assert |cells| > 4 by { BytesAtMost(cells, w, MAX_WEIGHT); }
    if slot == |cells| - 1 {
      m := |cells| - 2;
      AppendConsume(cells, w);
    } else {
      m := ConsumeClosestToHalf(cells, w);
      BalancedConsume(cells, m, w, MAX_WEIGHT);
      ConsumeFits(cells, m, w);
      var clamped := if m < 1 then 1 else m;
      clamped := if clamped > |cells| - 2 then |cells| - 2 else clamped;
      assert clamped == m;
    }
  }

  lemma AppendConsume<X>(cells: seq<X>, w: X -> nat)
    requires |cells| >= 3 && Bounded(cells, w, MAX_WEIGHT)
    requires Bytes(cells, w) <= INTERIOR_ROOM + w(cells[|cells| - 1])
    ensures Bytes(cells[..|cells| - 2], w) <= INTERIOR_ROOM && Bytes(cells[|cells| - 1..], w) <= INTERIOR_ROOM
  {
    var n := |cells|;
    BytesTake(cells, n - 1, w);
    BytesTake(cells, n - 2, w);
    assert cells[..n] == cells;
    assert cells[n - 1..] == [cells[n - 1]];
    BytesOne(cells[n - 1], w);
  }

  lemma ConsumeFits<X>(cells: seq<X>, m: nat, w: X -> nat)
    requires m < |cells| && Bounded(cells, w, MAX_WEIGHT) && Unevenness(cells, m, w) <= MAX_WEIGHT
    requires INTERIOR_ROOM < Bytes(cells, w) <= INTERIOR_ROOM + MAX_WEIGHT
    ensures 1 <= m <= |cells| - 2
    ensures Bytes(cells[..m], w) <= INTERIOR_ROOM && Bytes(cells[m + 1..], w) <= INTERIOR_ROOM
  {
    BytesTake(cells, m, w);
    BytesCut(cells, m + 1, w);
    assert w(cells[m]) <= MAX_WEIGHT;
    assert cells[..0] == [] && cells[|cells|..] == [];
  }

  // ---- On trees ----

  /** The frame's page with `L sep R` in its hole. */
  ghost function Widen<X>(c: Ctx<X>, L: Tree<X>, sep: X, R: Tree<X>): Tree<X>
    requires c.Frame? && |c.left| <= |c.cells|
  {
    TNode(c.id, c.cells[..|c.left|] + [sep] + c.cells[|c.left|..], c.left + [L, R] + c.right)
  }

  lemma WidenFlat<X>(c: Ctx<X>, L: Tree<X>, sep: X, R: Tree<X>, h: nat)
    requires c.Frame? && CtxShape(c, h) && Shape(L, h) && Shape(R, h)
    ensures Shape(Widen(c, L, sep, R), h + 1)
    ensures Flat(Widen(c, L, sep, R))
         == FlatBefore(c.cells[..|c.left|], c.left) + Flat(L) + [sep] + Flat(R) + FlatAfter(c.cells[|c.left|..], c.right)
  {
    var i := |c.left|;
    var cells := c.cells[..i] + [sep] + c.cells[i..];
    assert c.left + [L, R] + c.right == (c.left + [L]) + [R] + c.right;
    FlatCut(cells, c.left + [L], R, c.right);
    assert cells[..i + 1] == c.cells[..i] + [sep];
    assert cells[i + 1..] == c.cells[i..];
    FlatBeforeAppend(c.cells[..i], c.left, sep, L);
    WidenShape(c, L, sep, R, h);
  }

  lemma WidenShape<X>(c: Ctx<X>, L: Tree<X>, sep: X, R: Tree<X>, h: nat)
    requires c.Frame? && CtxShape(c, h) && Shape(L, h) && Shape(R, h)
    ensures Shape(Widen(c, L, sep, R), h + 1)
  {
    assert c.left + [L, R] + c.right == (c.left + [L]) + ([R] + c.right);
    ShapesAppend(c.left + [L], [R] + c.right, h);
    ShapesAppend(c.left, [L], h);
    ShapesAppend([R], c.right, h);
    ShapesOne(L, h);
    ShapesOne(R, h);
  }

  lemma WidenKids<X>(m: map<PageId, Page<X>>, c: Ctx<X>, L: Tree<X>, sep: X, R: Tree<X>, ok: PageRule<X>)
    requires c.Frame? && |c.left| <= |c.cells|
    ensures ForestIds(Widen(c, L, sep, R).kids)
         == ForestIds(c.left) + NodeIds(L) + NodeIds(R) + ForestIds(c.right)
    ensures Reps(m, Widen(c, L, sep, R).kids)
       <==> Reps(m, c.left) && Rep(m, L) && Rep(m, R) && Reps(m, c.right)
    ensures AllForest(Widen(c, L, sep, R).kids, ok)
       <==> AllForest(c.left, ok) && AllPages(L, ok) && AllPages(R, ok) && AllForest(c.right, ok)
  {
    var pair := [L, R];
    Pair(m, L, R, ok);
    ForestAppend(c.left + pair, c.right);
    ForestAppend(c.left, pair);
    RepsAppend(m, c.left, pair);
    RepsAppend(m, c.left + pair, c.right);
    AllForestAppend(c.left, pair, ok);
    AllForestAppend(c.left + pair, c.right, ok);
  }

  lemma WidenIds<X>(c: Ctx<X>, L: Tree<X>, sep: X, R: Tree<X>, keep: multiset<PageId>)
    requires c.Frame? && |c.left| <= |c.cells|
    requires ForestIds(Widen(c, L, sep, R).kids) == ForestIds(c.left) + NodeIds(L) + NodeIds(R) + ForestIds(c.right)
    ensures CtxIds(c) + NodeIds(L) + NodeIds(R) + keep == CtxIds(c.up) + NodeIds(Widen(c, L, sep, R)) + keep
  {
  }

  lemma WidenShallow<X>(c: Ctx<X>, L: Tree<X>, sep: X, R: Tree<X>, p: Page<X>)
    requires c.Frame? && |c.left| + |c.right| == |c.cells|
    requires p == Interior(c.cells, KidIds(c.left) + [L.id] + KidIds(c.right))
    ensures WidenPage(p, |c.left|, L.id, sep, R.id) == Shallow(Widen(c, L, sep, R))
  {
    var t := Widen(c, L, sep, R);
    assert Children(p)[..|c.left|] + [L.id, R.id] + Children(p)[|c.left| + 1..] == KidIds(t.kids);
  }

  /** A node's sequence, cut at one of its own cells. */
  lemma {:induction false} FlatSplit<X>(cells: seq<X>, kids: seq<Tree<X>>, m: nat)
    requires |kids| == |cells| + 1 && m < |cells|
    ensures FlatKids(cells, kids)
         == FlatKids(cells[..m], kids[..m + 1]) + [cells[m]] + FlatKids(cells[m + 1..], kids[m + 1..])
    decreases m
  {
    if m == 0 {
      assert cells[..0] == [] && kids[..1] == [kids[0]];
    } else {
      FlatSplit(cells[1..], kids[1..], m - 1);
      assert cells[1..][..m - 1] == cells[..m][1..] && kids[1..][..m] == kids[..m + 1][1..];
      assert cells[1..][m..] == cells[m + 1..] && kids[1..][m..] == kids[m + 1..];
    }
  }

  ghost function LeftTree<X>(id: PageId, t: Tree<X>, m: nat): Tree<X>
    requires t.TNode? && |t.kids| == |t.cells| + 1 && m < |t.cells|
  {
    TNode(id, t.cells[..m], t.kids[..m + 1])
  }

  ghost function RightTree<X>(id: PageId, t: Tree<X>, m: nat): Tree<X>
    requires t.TNode? && |t.kids| == |t.cells| + 1 && m < |t.cells|
  {
    TNode(id, t.cells[m + 1..], t.kids[m + 1..])
  }

  lemma HalvesFlat<X>(t: Tree<X>, m: nat, a: PageId, b: PageId, h: nat)
    requires t.TNode? && Shape(t, h) && m < |t.cells|
    ensures Flat(t) == Flat(LeftTree(a, t, m)) + [t.cells[m]] + Flat(RightTree(b, t, m))
    ensures Shape(LeftTree(a, t, m), h) && Shape(RightTree(b, t, m), h)
  {
    FlatSplit(t.cells, t.kids, m);
    assert t.kids == t.kids[..m + 1] + t.kids[m + 1..];
    ShapesAppend(t.kids[..m + 1], t.kids[m + 1..], h - 1);
  }

  lemma HalvesIds<X>(t: Tree<X>, m: nat, b: PageId, rest: multiset<PageId>, keep: multiset<PageId>)
    requires t.TNode? && |t.kids| == |t.cells| + 1 && m < |t.cells|
    ensures rest + NodeIds(t) + keep + multiset{b}
         == rest + NodeIds(LeftTree(t.id, t, m)) + NodeIds(RightTree(b, t, m)) + keep
  {
    ForestAppend(t.kids[..m + 1], t.kids[m + 1..]);
    assert t.kids == t.kids[..m + 1] + t.kids[m + 1..];
  }

  lemma HalvesRep<X>(m: map<PageId, Page<X>>, t: Tree<X>, k: nat, a: PageId, b: PageId, p: Page<X>, ok: PageRule<X>)
    requires t.TNode? && |t.kids| == |t.cells| + 1 && k < |t.cells| && p == Shallow(t)
    requires Reps(m, t.kids) && a in m && b in m && m[a] == LeftHalf(p, k) && m[b] == RightHalf(p, k)
    requires AllForest(t.kids, ok) && ok(false, t.cells[..k]) && ok(false, t.cells[k + 1..])
    ensures Rep(m, LeftTree(a, t, k)) && Rep(m, RightTree(b, t, k))
    ensures AllPages(LeftTree(a, t, k), ok) && AllPages(RightTree(b, t, k), ok)
  {
    var lk, rk := t.kids[..k + 1], t.kids[k + 1..];
    assert t.kids == lk + rk;
    RepsAppend(m, lk, rk);
    AllForestAppend(lk, rk, ok);
    KidIdsCut(t.kids, k + 1);
  }

  // ---- The cascade ----

  /** A well-formed tree of height h on pages of the store, which also owns `keep`. */
  ghost predicate Whole<X>(m: map<PageId, Page<X>>, used: multiset<PageId>, t: Tree<X>, h: nat,
                           keep: multiset<PageId>, ok: PageRule<X>)
  {
    Rep(m, t) && Shape(t, h) && AllPages(t, ok) && used == NodeIds(t) + keep
  }

  /** The same, with a split pending: `L` and `R` are to take the place of the
      hole, whose parent still points at `L` alone. */
  ghost predicate Pending<X>(m: map<PageId, Page<X>>, used: multiset<PageId>, c: Ctx<X>, L: Tree<X>, R: Tree<X>, h: nat,
                             keep: multiset<PageId>, ok: PageRule<X>)
  {
    && CtxRep(m, c, L.id) && Rep(m, L) && Rep(m, R)
    && CtxShape(c, h) && Shape(L, h) && Shape(R, h)
    && CtxAll(c, ok) && AllPages(L, ok) && AllPages(R, ok)
    && used == CtxIds(c) + NodeIds(L) + NodeIds(R) + keep
  }

  // ---- A leaf about to be rewritten ----

  /** A leaf in its context; the store also owns `keep`. */
  ghost predicate LeafSpot<X>(m: map<PageId, Page<X>>, used: multiset<PageId>, c: Ctx<X>, leaf: Tree<X>,
                              keep: multiset<PageId>, ok: PageRule<X>)
  {
    && leaf.TLeaf? && CtxRep(m, c, leaf.id) && Rep(m, leaf) && CtxShape(c, 0) && CtxAll(c, ok)
    && used == CtxIds(c) + NodeIds(leaf) + keep
  }

  /** The leaf keeps the left part of its cells, and a new page has the right part. */
  lemma LeafHalved<X>(m: map<PageId, Page<X>>, m1: map<PageId, Page<X>>, m2: map<PageId, Page<X>>,
                      used: multiset<PageId>, used': multiset<PageId>, c: Ctx<X>, leaf: Tree<X>,
                      L: Tree<X>, R: Tree<X>, keep: multiset<PageId>, ok: PageRule<X>)
    requires LeafSpot(m, used, c, leaf, keep, ok) && L.TLeaf? && R.TLeaf? && L.id == leaf.id
    requires ok(true, L.cells) && ok(true, R.cells)
    requires Agree(m, m1, used) && used' == used + multiset{R.id} && Agree(m1, m2, used' - multiset{leaf.id})
    requires R.id !in used && R.id in m1 && m1[R.id] == Shallow(R) && leaf.id in m2 && m2[leaf.id] == Shallow(L)
    ensures Pending(m2, used', c, L, R, 0, keep, ok) && Agree(m, m2, keep)
  {
    AgreeSub(m, m1, used, keep);
    AgreeSub(m, m1, used, CtxIds(c));
    AgreeSub(m1, m2, used' - multiset{leaf.id}, keep);
    AgreeSub(m1, m2, used' - multiset{leaf.id}, CtxIds(c));
    AgreeTrans(m, m1, m2, keep);
    AgreeTrans(m, m1, m2, CtxIds(c));
    CtxFrame(m, m2, c, leaf.id);
    assert Same(m1, m2, R.id);
  }

  /** An overflow chain on new pages leaves the leaf's tree alone. */
  lemma ChainWritten<X>(m: map<PageId, Page<X>>, m': map<PageId, Page<X>>, used: multiset<PageId>,
                        c: Ctx<X>, leaf: Tree<X>, chain: seq<PageId>, keep: multiset<PageId>, ok: PageRule<X>)
    requires LeafSpot(m, used, c, leaf, keep, ok) && Agree(m, m', used)
    ensures LeafSpot(m', used + Tally(chain), c, leaf, keep + Tally(chain), ok) && Agree(m, m', keep)
  {
    AgreeSub(m, m', used, keep);
    AgreeSub(m, m', used, CtxIds(c));
    AgreeSub(m, m', used, NodeIds(leaf));
    CtxFrame(m, m', c, leaf.id);
    RepFrame(m, m', leaf);
  }

  /** The tree the cascade would build if pages had no size limit. */
  ghost function PendingTree<X>(c: Ctx<X>, L: Tree<X>, sep: X, R: Tree<X>): Tree<X>
    requires c.Frame? && |c.left| <= |c.cells|
  {
    Plug(c.up, Widen(c, L, sep, R))
  }

  lemma PendingFlat<X>(c: Ctx<X>, L: Tree<X>, sep: X, R: Tree<X>, h: nat)
    requires c.Frame? && CtxShape(c, h) && Shape(L, h) && Shape(R, h)
    ensures Flat(PendingTree(c, L, sep, R)) == FlatLeft(c) + (Flat(L) + [sep] + Flat(R)) + FlatRight(c)
  {
    WidenFlat(c, L, sep, R, h);
    PlugFlat(c.up, Widen(c, L, sep, R), h + 1);
    var a, b := FlatBefore(c.cells[..|c.left|], c.left), FlatAfter(c.cells[|c.left|..], c.right);
    Regroup(FlatLeft(c.up), a, Flat(L), [sep], Flat(R), b, FlatRight(c.up));
  }

  lemma Regroup<X>(u: seq<X>, a: seq<X>, l: seq<X>, s: seq<X>, r: seq<X>, b: seq<X>, v: seq<X>)
    ensures u + (a + l + s + r + b) + v == (u + a) + (l + s + r) + (b + v)
  {
  }

  /** Splitting a node does not change what the whole tree spells. */
  lemma SplitKeepsFlat<X>(c: Ctx<X>, t: Tree<X>, m: nat, a: PageId, b: PageId, h: nat)
    requires c.Frame? && t.TNode? && CtxShape(c, h) && Shape(t, h) && m < |t.cells|
    ensures Flat(PendingTree(c, LeftTree(a, t, m), t.cells[m], RightTree(b, t, m))) == Flat(Plug(c, t))
  {
    HalvesFlat(t, m, a, b, h);
    PendingFlat(c, LeftTree(a, t, m), t.cells[m], RightTree(b, t, m), h);
    PlugFlat(c, t, h);
  }

  /** The parent has room: widen it in place. */
  method InsertIntoParent<X(!new)>(s: PageStore<X>, at: Step, left: PageId, sep: X, right: PageId,
      ghost c: Ctx<X>, ghost L: Tree<X>, ghost R: Tree<X>, ghost h: nat, ghost keep: multiset<PageId>, ghost ok: PageRule<X>)
    returns (ghost t: Tree<X>, ghost height: nat)
    requires s.Valid() && c.Frame? && at == Step(c.id, |c.left|) && left == L.id && right == R.id
    requires Pending(s.pages, s.used, c, L, R, h, keep, ok)
    requires ok(false, Widen(c, L, sep, R).cells)
    modifies s
    ensures s.Valid() && Agree(old(s.pages), s.pages, keep)
    ensures Whole(s.pages, s.used, t, height, keep, ok) && height == h + Depth(c)
    ensures t.TNode? && t.id == RootPage(c) && Flat(t) == Flat(PendingTree(c, L, sep, R))
  {
    WidenShallow(c, L, sep, R, s.pages[c.id]);
    s.Write(at.page, WidenPage(s.pages[at.page], at.slot, left, sep, right));
    t, height := Widened(old(s.pages), s.pages, s.used, c, L, sep, R, h, keep, ok);
  }

  lemma Widened<X>(m: map<PageId, Page<X>>, m': map<PageId, Page<X>>, used: multiset<PageId>,
                   c: Ctx<X>, L: Tree<X>, sep: X, R: Tree<X>, h: nat, keep: multiset<PageId>, ok: PageRule<X>)
    returns (t': Tree<X>, height: nat)
    requires c.Frame? && Pending(m, used, c, L, R, h, keep, ok) && ok(false, Widen(c, L, sep, R).cells)
    requires Agree(m, m', used - multiset{c.id}) && c.id in m' && m'[c.id] == Shallow(Widen(c, L, sep, R))
    ensures Whole(m', used, t', height, keep, ok) && height == h + Depth(c)
    ensures t' == PendingTree(c, L, sep, R) && t'.TNode? && t'.id == RootPage(c)
    ensures Agree(m, m', keep)
  {
    var t := Widen(c, L, sep, R);
    t' := Plug(c.up, t);
    WidenFlat(c, L, sep, R, h);
    WidenKids(m, c, L, sep, R, ok);
    assert used == CtxIds(c.up) + NodeIds(t) + keep by { WidenIds(c, L, sep, R, keep); }
    Rewritten(m, m', used - multiset{c.id}, t, c.up, keep);
    height := Reassemble(m', c.up, t, h + 1, ok);
    PlugTop(c.up, t);
  }

  /** Kids, upper context and everybody else's pages survive the rewrite of a node's own page. */
  lemma Rewritten<X>(m: map<PageId, Page<X>>, m': map<PageId, Page<X>>, ids: multiset<PageId>, t: Tree<X>, up: Ctx<X>,
                     keep: multiset<PageId>)
    requires Agree(m, m', ids) && t.TNode? && Reps(m, t.kids) && CtxRep(m, up, t.id)
    requires ForestIds(t.kids) + CtxIds(up) + keep <= ids
    ensures Reps(m', t.kids) && CtxRep(m', up, t.id) && Agree(m, m', keep)
  {
    AgreeSub(m, m', ids, ForestIds(t.kids));
    AgreeSub(m, m', ids, CtxIds(up));
    AgreeSub(m, m', ids, keep);
    RepsFrame(m, m', t.kids);
    CtxFrame(m, m', up, t.id);
  }

  lemma Reassemble<X>(m: map<PageId, Page<X>>, c: Ctx<X>, t: Tree<X>, h: nat, ok: PageRule<X>) returns (height: nat)
    requires CtxRep(m, c, t.id) && Rep(m, t) && CtxShape(c, h) && Shape(t, h) && CtxAll(c, ok) && AllPages(t, ok)
    ensures Rep(m, Plug(c, t)) && Shape(Plug(c, t), height) && AllPages(Plug(c, t), ok) && height == h + Depth(c)
    ensures NodeIds(Plug(c, t)) == CtxIds(c) + NodeIds(t)
  {
    height := h + Depth(c);
    PlugRep(m, c, t, h);
    PlugShape(c, t, h);
    PlugAll(c, t, ok);
    PlugIds(c, t);
  }

  /** Node t is about to be rewritten: its kids and its context are in place. */
  ghost predicate SplitReady<X>(m: map<PageId, Page<X>>, used: multiset<PageId>, c: Ctx<X>, t: Tree<X>, h: nat,
                                keep: multiset<PageId>, ok: PageRule<X>)
    requires t.TNode?
  {
    && CtxRep(m, c, t.id) && Reps(m, t.kids) && CtxShape(c, h) && Shape(t, h) && CtxAll(c, ok) && AllForest(t.kids, ok)
    && used == CtxIds(c) + NodeIds(t) + keep
  }

  /** The parent has no room and is not the root: it keeps its left half, and the
      right half moves to a fresh page. */
  method SplitParent<X(!new)>(s: PageStore<X>, page: PageId, wide: Page<X>, m: nat,
      ghost c: Ctx<X>, ghost t: Tree<X>, ghost h: nat, ghost keep: multiset<PageId>, ghost ok: PageRule<X>)
    returns (rightId: PageId)
    requires s.Valid() && t.TNode? && page == t.id && wide == Shallow(t) && m < |t.cells|
    requires SplitReady(s.pages, s.used, c, t, h, keep, ok) && ok(false, t.cells[..m]) && ok(false, t.cells[m + 1..])
    modifies s
    ensures s.Valid() && Agree(old(s.pages), s.pages, keep)
    ensures Pending(s.pages, s.used, c, LeftTree(page, t, m), RightTree(rightId, t, m), h, keep, ok)
  {
    ghost var rest := CtxIds(c) + ForestIds(t.kids) + keep;
    assert s.used == rest + multiset{page};
    rightId := s.NewPage(RightHalf(wide, m));
    ghost var m1 := s.pages;
    s.Write(page, LeftHalf(wide, m));
    AgreeSub(m1, s.pages, s.used - multiset{page}, rest);
    AgreeSub(old(s.pages), m1, old(s.used), rest);
    AgreeTrans(old(s.pages), m1, s.pages, rest);
    Halved(old(s.pages), s.pages, old(s.used), c, t, m, rightId, h, keep, ok);
  }

  lemma Halved<X>(m: map<PageId, Page<X>>, m': map<PageId, Page<X>>, used: multiset<PageId>,
                  c: Ctx<X>, t: Tree<X>, k: nat, rightId: PageId, h: nat, keep: multiset<PageId>, ok: PageRule<X>)
    requires t.TNode? && SplitReady(m, used, c, t, h, keep, ok) && k < |t.cells|
    requires ok(false, t.cells[..k]) && ok(false, t.cells[k + 1..])
    requires Agree(m, m', CtxIds(c) + ForestIds(t.kids) + keep)
    requires t.id in m' && m'[t.id] == LeftHalf(Shallow(t), k) && rightId in m' && m'[rightId] == RightHalf(Shallow(t), k)
    ensures Pending(m', used + multiset{rightId}, c, LeftTree(t.id, t, k), RightTree(rightId, t, k), h, keep, ok)
    ensures Agree(m, m', keep)
  {
    Rewritten(m, m', CtxIds(c) + ForestIds(t.kids) + keep, t, c, keep);
    HalvesRep(m', t, k, t.id, rightId, Shallow(t), ok);
    HalvesFlat(t, k, t.id, rightId, h);
    HalvesIds(t, k, rightId, CtxIds(c), keep);
  }

  /** The root has no room: it keeps its page number and becomes the parent of
      two fresh pages that hold its former halves. */
  method SplitRoot<X(!new)>(s: PageStore<X>, root: PageId, wide: Page<X>, m: nat,
      ghost t: Tree<X>, ghost h: nat, ghost keep: multiset<PageId>, ghost ok: PageRule<X>)
    returns (ghost t': Tree<X>)
    requires s.Valid() && t.TNode? && root == t.id && wide == Shallow(t) && m < |t.cells|
    requires SplitReady(s.pages, s.used, Top, t, h, keep, ok) && ok(false, t.cells[..m]) && ok(false, t.cells[m + 1..])
    requires ok(false, [t.cells[m]])
    modifies s
    ensures s.Valid() && Agree(old(s.pages), s.pages, keep)
    ensures Whole(s.pages, s.used, t', h + 1, keep, ok) && t'.TNode? && t'.id == root && Flat(t') == Flat(t)
  {
    ghost var rest := ForestIds(t.kids) + keep;
    assert s.used == rest + multiset{root};
    var rightId := s.NewPage(RightHalf(wide, m));
    ghost var m1, u1 := s.pages, s.used;
    var leftId := s.NewPage(LeftHalf(wide, m));
    ghost var m2 := s.pages;
    AgreeSub(m1, m2, u1, multiset{rightId});
    assert Same(m1, m2, rightId);
    AgreeSub(m1, m2, u1, rest);
    AgreeSub(old(s.pages), m1, old(s.used), rest);
    AgreeTrans(old(s.pages), m1, m2, rest);
    s.Write(root, InteriorPage([Routed(leftId, wide.routed[m].sep)], rightId));
    AgreeSub(m2, s.pages, s.used - multiset{root}, rest);
    AgreeTrans(old(s.pages), m2, s.pages, rest);
    t' := TNode(root, [t.cells[m]], [LeftTree(leftId, t, m), RightTree(rightId, t, m)]);
    RootHalved(old(s.pages), s.pages, old(s.used), t, m, leftId, rightId, h, keep, ok);
  }

  lemma RootHalved<X>(m: map<PageId, Page<X>>, m': map<PageId, Page<X>>, used: multiset<PageId>,
                      t: Tree<X>, k: nat, a: PageId, b: PageId, h: nat, keep: multiset<PageId>, ok: PageRule<X>)
    requires t.TNode? && SplitReady(m, used, Top, t, h, keep, ok) && k < |t.cells|
    requires ok(false, t.cells[..k]) && ok(false, t.cells[k + 1..]) && ok(false, [t.cells[k]])
    requires Agree(m, m', ForestIds(t.kids) + keep)
    requires a in m' && m'[a] == LeftHalf(Shallow(t), k) && b in m' && m'[b] == RightHalf(Shallow(t), k)
    requires t.id in m' && m'[t.id] == InteriorPage([Routed(a, t.cells[k])], b)
    ensures
      var t' := TNode(t.id, [t.cells[k]], [LeftTree(a, t, k), RightTree(b, t, k)]);
      Whole(m', used + multiset{b} + multiset{a}, t', h + 1, keep, ok) && Flat(t') == Flat(t)
    ensures Agree(m, m', keep)
  {
    Rewritten(m, m', ForestIds(t.kids) + keep, t, Top, keep);
    HalvesRep(m', t, k, a, b, Shallow(t), ok);
    HalvesFlat(t, k, a, b, h);
    RootOver(m', t.id, LeftTree(a, t, k), t.cells[k], RightTree(b, t, k), h, ok);
    RootIds(t, k, a, b, keep);
  }

  /** A fresh root over two subtrees of equal height. */
  lemma RootOver<X>(m: map<PageId, Page<X>>, id: PageId, L: Tree<X>, sep: X, R: Tree<X>, h: nat, ok: PageRule<X>)
    requires Rep(m, L) && Rep(m, R) && Shape(L, h) && Shape(R, h) && AllPages(L, ok) && AllPages(R, ok)
    requires id in m && m[id] == InteriorPage([Routed(L.id, sep)], R.id) && ok(false, [sep])
    ensures
      var t := TNode(id, [sep], [L, R]);
      && Rep(m, t) && Shape(t, h + 1) && AllPages(t, ok) && Flat(t) == Flat(L) + [sep] + Flat(R)
      && NodeIds(t) == multiset{id} + (NodeIds(L) + NodeIds(R))
  {
    var kids := [L, R];
    Pair(m, L, R, ok);
    assert KidIds(kids) == [L.id, R.id];
    assert Interior([sep], KidIds(kids)).routed == [Routed(L.id, sep)];
    FlatSplit([sep], kids, 0);
    assert kids[..1] == [L] && kids[1..] == [R];
    assert Flat(L) == FlatKids([], [L]) && Flat(R) == FlatKids([], [R]);
    assert kids == [L] + [R];
    ShapesAppend([L], [R], h);
    ShapesOne(L, h);
    ShapesOne(R, h);
  }

  lemma RootIds<X>(t: Tree<X>, k: nat, a: PageId, b: PageId, keep: multiset<PageId>)
    requires t.TNode? && |t.kids| == |t.cells| + 1 && k < |t.cells|
    ensures NodeIds(t) + keep + multiset{b} + multiset{a}
         == multiset{t.id} + (NodeIds(LeftTree(a, t, k)) + NodeIds(RightTree(b, t, k))) + keep
  {
    ForestAppend(t.kids[..k + 1], t.kids[k + 1..]);
    assert t.kids == t.kids[..k + 1] + t.kids[k + 1..];
  }

  lemma WideReady<X>(m: map<PageId, Page<X>>, used: multiset<PageId>, c: Ctx<X>, L: Tree<X>, sep: X, R: Tree<X>, h: nat,
                     keep: multiset<PageId>, ok: PageRule<X>)
    requires c.Frame? && Pending(m, used, c, L, R, h, keep, ok)
    ensures SplitReady(m, used, c.up, Widen(c, L, sep, R), h + 1, keep, ok)
    ensures WidenPage(m[c.id], |c.left|, L.id, sep, R.id) == Shallow(Widen(c, L, sep, R))
  {
    WidenFlat(c, L, sep, R, h);
    WidenKids(m, c, L, sep, R, ok);
    WidenIds(c, L, sep, R, keep);
    WidenShallow(c, L, sep, R, m[c.id]);
  }

  lemma WideCells<X(!new)>(c: Ctx<X>, L: Tree<X>, sep: X, R: Tree<X>, w: X -> nat, ok: PageRule<X>, good: X -> bool)
    requires c.Frame? && |c.left| <= |c.cells| && InteriorRule(ok, w, good) && ok(false, c.cells) && good(sep)
    ensures
      var cells := Widen(c, L, sep, R).cells;
      && cells[|c.left|] == sep && AllGood(cells, good) && Bounded(cells, w, MAX_WEIGHT)
      && Bytes(cells, w) == Bytes(c.cells, w) + w(sep) && Bytes(c.cells, w) <= INTERIOR_ROOM
  {
    var i := |c.left|;
    assert c.cells[i..i] == [];
    BytesSplice(c.cells, i, i, [sep], w);
    BytesOne(sep, w);
    assert RuleAt(c.cells, ok, w, good);
    var cells := Widen(c, L, sep, R).cells;
    forall j | 0 <= j < |cells| ensures good(cells[j]) && w(cells[j]) <= MAX_WEIGHT {
      assert Light(cells[j], w, good);
      assert cells[j] == if j < i then c.cells[j] else if j == i then sep else c.cells[j - 1];
    }
  }

  lemma RuleAccepts<X(!new)>(cells: seq<X>, w: X -> nat, ok: PageRule<X>, good: X -> bool)
    requires InteriorRule(ok, w, good) && |cells| >= 1 && Bytes(cells, w) <= INTERIOR_ROOM && AllGood(cells, good)
    ensures ok(false, cells)
  {
    assert RuleAt(cells, ok, w, good);
  }

  lemma HalvesOk<X(!new)>(cells: seq<X>, m: nat, w: X -> nat, ok: PageRule<X>, good: X -> bool)
    requires InteriorRule(ok, w, good) && AllGood(cells, good) && 1 <= m <= |cells| - 2
    requires Bytes(cells[..m], w) <= INTERIOR_ROOM && Bytes(cells[m + 1..], w) <= INTERIOR_ROOM
    ensures ok(false, cells[..m]) && ok(false, cells[m + 1..]) && ok(false, [cells[m]]) && good(cells[m])
  {
    RuleAccepts(cells[..m], w, ok, good);
    RuleAccepts(cells[m + 1..], w, ok, good);
    BytesOne(cells[m], w);
    assert Light(cells[m], w, good);
    RuleAccepts([cells[m]], w, ok, good);
  }

  /** The page at `at` must hold what `wide` says and cannot: split it. */
  method PromoteSplit<X(!new)>(s: PageStore<X>, w: X -> nat, at: Step, isRoot: bool, wide: Page<X>,
      ghost c: Ctx<X>, ghost t: Tree<X>, ghost h: nat,
      ghost keep: multiset<PageId>, ghost ok: PageRule<X>, ghost good: X -> bool)
    returns (sep': X, right': PageId, ghost t': Tree<X>, ghost L': Tree<X>, ghost R': Tree<X>)
    requires s.Valid() && t.TNode? && at.page == t.id && wide == Shallow(t) && isRoot == c.Top?
    requires InteriorRule(ok, w, good) && AllGood(t.cells, good) && Bounded(t.cells, w, MAX_WEIGHT)
    requires at.slot < |t.cells| && INTERIOR_ROOM < Bytes(t.cells, w) <= INTERIOR_ROOM + w(t.cells[at.slot])
    requires SplitReady(s.pages, s.used, c, t, h, keep, ok)
    modifies s
    ensures s.Valid() && Agree(old(s.pages), s.pages, keep)
    ensures isRoot ==> Whole(s.pages, s.used, t', h + 1, keep, ok) && t'.TNode? && t'.id == t.id && Flat(t') == Flat(t)
    ensures !isRoot ==>
              && at.page == L'.id && right' == R'.id && good(sep')
              && Pending(s.pages, s.used, c, L', R', h, keep, ok)
              && Flat(PendingTree(c, L', sep', R')) == Flat(Plug(c, t))
  {
    var m := ChooseConsumed(Seps(wide), at.slot, w);
    HalvesOk(t.cells, m, w, ok, good);
    sep' := Seps(wide)[m];
    right', t', L', R' := 0, t, t, t;
    if isRoot {
      t' := SplitRoot(s, at.page, wide, m, t, h, keep, ok);
    } else {
      right' := SplitParent(s, at.page, wide, m, c, t, h, keep, ok);
      L', R' := LeftTree(at.page, t, m), RightTree(right', t, m);
      SplitKeepsFlat(c, t, m, at.page, right', h);
    }
  }

  /** The page has room for one more cell. */
  method PromoteWithRoom<X(!new)>(s: PageStore<X>, w: X -> nat, at: Step, isRoot: bool, left: PageId, sep: X, right: PageId,
      ghost c: Ctx<X>, ghost L: Tree<X>, ghost R: Tree<X>, ghost h: nat,
      ghost keep: multiset<PageId>, ghost ok: PageRule<X>, ghost good: X -> bool)
    returns (ghost t: Tree<X>, ghost height: nat)
    requires s.Valid() && c.Frame? && at == Step(c.id, |c.left|) && isRoot == c.up.Top? && left == L.id && right == R.id
    requires InteriorRule(ok, w, good) && good(sep)
    requires Pending(s.pages, s.used, c, L, R, h, keep, ok)
    requires Bytes(c.cells, w) + w(sep) <= INTERIOR_ROOM
    modifies s
    ensures s.Valid() && Agree(old(s.pages), s.pages, keep)
    ensures Whole(s.pages, s.used, t, height, keep, ok) && height == h + Depth(c) && t.TNode? && t.id == RootPage(c)
    ensures Flat(t) == Flat(PendingTree(c, L, sep, R))
  {
    WideCells(c, L, sep, R, w, ok, good);
    RuleAccepts(Widen(c, L, sep, R).cells, w, ok, good);
    t, height := InsertIntoParent(s, at, left, sep, right, c, L, R, h, keep, ok);
  }

  /** The page has no room: split it. The root is then done; any other page leaves
      a separator to promote one level up. */
  method PromoteWithoutRoom<X(!new)>(s: PageStore<X>, w: X -> nat, at: Step, isRoot: bool, left: PageId, sep: X, right: PageId,
      ghost c: Ctx<X>, ghost L: Tree<X>, ghost R: Tree<X>, ghost h: nat,
      ghost keep: multiset<PageId>, ghost ok: PageRule<X>, ghost good: X -> bool)
    returns (sep': X, right': PageId, ghost t: Tree<X>, ghost L': Tree<X>, ghost R': Tree<X>)
    requires s.Valid() && c.Frame? && at == Step(c.id, |c.left|) && isRoot == c.up.Top? && left == L.id && right == R.id
    requires InteriorRule(ok, w, good) && good(sep)
    requires Pending(s.pages, s.used, c, L, R, h, keep, ok)
    requires Bytes(c.cells, w) + w(sep) > INTERIOR_ROOM
    modifies s
    ensures s.Valid() && Agree(old(s.pages), s.pages, keep)
    ensures isRoot ==> Whole(s.pages, s.used, t, h + 2, keep, ok) && t.TNode? && t.id == c.id
    ensures isRoot ==> Flat(t) == Flat(PendingTree(c, L, sep, R))
    ensures !isRoot ==> at.page == L'.id && right' == R'.id && good(sep') && Pending(s.pages, s.used, c.up, L', R', h + 1, keep, ok)
    ensures !isRoot ==> Flat(PendingTree(c.up, L', sep', R')) == Flat(PendingTree(c, L, sep, R))
  {
    WideReady(s.pages, s.used, c, L, sep, R, h, keep, ok);
    WideCells(c, L, sep, R, w, ok, good);
    var wide := WidenPage(s.pages[at.page], at.slot, left, sep, right);
    sep', right', t, L', R' := PromoteSplit(s, w, at, isRoot, wide, c.up, Widen(c, L, sep, R), h + 1, keep, ok, good);
  }

  /** Insert `left sep right` into the page the path ends at, splitting as many
      pages on the way up as it takes. Never fails, and changes nothing but the
      shape: the in-order sequence is exactly the pending one. */
  method PromoteSeparator<X(!new)>(s: PageStore<X>, w: X -> nat, path: seq<Step>, left0: PageId, sep0: X, right0: PageId,
      ghost c0: Ctx<X>, ghost L0: Tree<X>, ghost R0: Tree<X>, ghost h0: nat,
      ghost keep: multiset<PageId>, ghost ok: PageRule<X>, ghost good: X -> bool)
    returns (ghost t: Tree<X>, ghost height: nat)
    requires s.Valid() && c0.Frame? && Follows(path, c0) && left0 == L0.id && right0 == R0.id
    requires InteriorRule(ok, w, good) && good(sep0)
    requires Pending(s.pages, s.used, c0, L0, R0, h0, keep, ok)
    modifies s
    ensures s.Valid() && Agree(old(s.pages), s.pages, keep)
    ensures Whole(s.pages, s.used, t, height, keep, ok)
    ensures t.TNode? && t.id == path[0].page && height <= h0 + Depth(c0) + 1
    ensures Flat(t) == Flat(PendingTree(c0, L0, sep0, R0))
  {
    var left, sep, right := left0, sep0, right0;
    ghost var c, L, R := c0, L0, R0;
    ghost var h: nat := h0;
    var rest := path;
    AgreeRefl(s.pages, keep);
    FollowsDepth(path, c);
    while true
      invariant s.Valid() && Agree(old(s.pages), s.pages, keep)
      invariant c.Frame? && Follows(rest, c) && RootPage(c) == RootPage(c0) && left == L.id && right == R.id && good(sep)
      invariant Pending(s.pages, s.used, c, L, R, h, keep, ok)
      invariant Flat(PendingTree(c, L, sep, R)) == Flat(PendingTree(c0, L0, sep0, R0))
      invariant h + Depth(c) == h0 + Depth(c0)
      decreases |rest|
    {
      ghost var before := s.pages;
      var at := rest[|rest| - 1];
      rest := rest[..|rest| - 1];
      FollowsDepth(rest, c.up);
      var bytes := TotalBytes(Seps(s.pages[at.page]), w);
      if bytes + w(sep) <= INTERIOR_ROOM {
        t, height := PromoteWithRoom(s, w, at, |rest| == 0, left, sep, right, c, L, R, h, keep, ok, good);
        AgreeTrans(old(s.pages), before, s.pages, keep);
        return;
      }
      var sep', right';
      ghost var L', R';
      sep', right', t, L', R' := PromoteWithoutRoom(s, w, at, |rest| == 0, left, sep, right, c, L, R, h, keep, ok, good);
      AgreeTrans(old(s.pages), before, s.pages, keep);
      if |rest| == 0 {
        height := h + 2;
        return;
      }
      left, sep, right := at.page, sep', right';
      c, L, R, h := c.up, L', R', h + 1;
    }
  }
}
