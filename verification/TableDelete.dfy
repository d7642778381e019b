/** Deleting from a table b-tree. A leaf that runs empty is unlinked from its
    parent and freed, and so is any interior page that loses its last child; if
    that reaches the root, the root becomes an empty leaf again. */
module TableDelete {
  import opened Basics
  import opened Trees
  import opened Store
  import opened Split
  import opened Cascade
  import opened TableTree

  /** A page that holds nothing any more, still linked from its parent. */
  ghost predicate Doomed(m: map<PageId, Page<Item>>, used: multiset<PageId>, c: Ctx<Item>, id: PageId, h: nat, keep: multiset<PageId>) {
    && CtxRep(m, c, id) && CtxShape(c, h) && CtxAll(c, Rule)
    && used == CtxIds(c) + multiset{id} + keep
  }

  /** The parent's page without the child at `slot`: its own fence goes with it,
      or, if it was the last child, the fence before it. */
  function UnlinkedPage(p: Page<Item>, slot: nat): Page<Item>
    requires p.InteriorPage? && slot <= |p.routed|
  {
    if slot < |p.routed| then InteriorPage(p.routed[..slot] + p.routed[slot + 1..], p.right)
    else if |p.routed| > 0 then InteriorPage(p.routed[..|p.routed| - 1], p.routed[|p.routed| - 1].child)
    else InteriorPage([], 0)
  }

  ghost function Unlinked(c: Ctx<Item>): Tree<Item>
    requires c.Frame? && |c.left| + |c.right| == |c.cells| && |c.cells| > 0
  {
    TNode(c.id, if |c.right| > 0 then c.cells[..|c.left|] + c.cells[|c.left| + 1..] else c.cells[..|c.cells| - 1], c.left + c.right)
  }

  /** The fence that goes. */
  ghost function Gone(c: Ctx<Item>): Item
    requires c.Frame? && |c.left| + |c.right| == |c.cells| && |c.cells| > 0
  {
    if |c.right| > 0 then c.cells[|c.left|] else c.cells[|c.cells| - 1]
  }

  lemma UnlinkedShallow(c: Ctx<Item>, hole: PageId)
    requires c.Frame? && |c.left| + |c.right| == |c.cells| && |c.cells| > 0
    ensures UnlinkedPage(Interior(c.cells, KidIds(c.left) + [hole] + KidIds(c.right)), |c.left|) == Shallow(Unlinked(c))
  {
    var ids := KidIds(c.left) + [hole] + KidIds(c.right);
    var t := Unlinked(c);
    assert KidIds(t.kids) == KidIds(c.left) + KidIds(c.right);
    if |c.right| > 0 {
      UnlinkMiddlePage(c.cells, ids, |c.left|);
      assert ids[..|c.left|] + ids[|c.left| + 1..] == KidIds(t.kids);
    } else {
      UnlinkLastPage(c.cells, ids);
      assert ids[..|c.cells|] == KidIds(t.kids);
    }
  }

  lemma UnlinkMiddlePage(cells: seq<Item>, ids: seq<PageId>, k: nat)
    requires |ids| == |cells| + 1 && k < |cells|
    ensures UnlinkedPage(Interior(cells, ids), k) == Interior(cells[..k] + cells[k + 1..], ids[..k] + ids[k + 1..])
  {
    var p := Interior(cells, ids);
    var q := UnlinkedPage(p, k);
    assert Seps(q) == Seps(p)[..k] + Seps(p)[k + 1..];
    assert Children(q) == Children(p)[..k] + Children(p)[k + 1..];
    InteriorOf(q);
  }

  lemma UnlinkLastPage(cells: seq<Item>, ids: seq<PageId>)
    requires |ids| == |cells| + 1 && |cells| > 0
    ensures UnlinkedPage(Interior(cells, ids), |cells|) == Interior(cells[..|cells| - 1], ids[..|cells|])
  {
    var p := Interior(cells, ids);
    var q := UnlinkedPage(p, |cells|);
    assert Seps(q) == Seps(p)[..|cells| - 1];
    assert Children(q) == Children(p)[..|cells|];
    InteriorOf(q);
  }

  /** One fence leaves the sequence, nothing else does. */
  lemma UnlinkedFlat(c: Ctx<Item>, h: nat) returns (a: seq<Item>, b: seq<Item>)
    requires c.Frame? && CtxShape(c, h) && |c.cells| > 0
    ensures Shape(Unlinked(c), h + 1)
    ensures FlatLeft(c) + FlatRight(c) == a + [Gone(c)] + b
    ensures FlatLeft(c.up) + Flat(Unlinked(c)) + FlatRight(c.up) == a + b
  {
    ShapesAppend(c.left, c.right, h);
    var before, f, after := NodeWithout(c);
    a, b := FlatLeft(c.up) + before, after + FlatRight(c.up);
    Around(FlatLeft(c.up), before, [f], after, FlatRight(c.up),
           FlatBefore(c.cells[..|c.left|], c.left), FlatAfter(c.cells[|c.left|..], c.right));
  }

  lemma Around(u: seq<Item>, x: seq<Item>, f: seq<Item>, y: seq<Item>, v: seq<Item>, l: seq<Item>, r: seq<Item>)
    requires l + r == x + f + y
    ensures (u + l) + (r + v) == (u + x) + f + (y + v)
    ensures u + (x + y) + v == (u + x) + (y + v)
  {
    assert (u + l) + (r + v) == u + (l + r) + v;
  }

  /** The node's own sequence around the fence that goes. */
  lemma NodeWithout(c: Ctx<Item>) returns (before: seq<Item>, f: Item, after: seq<Item>)
    requires c.Frame? && |c.left| + |c.right| == |c.cells| && |c.cells| > 0
    ensures f == Gone(c)
    ensures FlatBefore(c.cells[..|c.left|], c.left) + FlatAfter(c.cells[|c.left|..], c.right) == before + [f] + after
    ensures Flat(Unlinked(c)) == before + after
  {
    f := Gone(c);
    if |c.right| > 0 {
      before, after := WithoutMiddle(c);
    } else {
      before, after := WithoutLast(c);
    }
  }

  lemma WithoutMiddle(c: Ctx<Item>) returns (before: seq<Item>, after: seq<Item>)
    requires c.Frame? && |c.left| + |c.right| == |c.cells| && |c.right| > 0
    ensures FlatBefore(c.cells[..|c.left|], c.left) + FlatAfter(c.cells[|c.left|..], c.right) == before + [Gone(c)] + after
    ensures Flat(Unlinked(c)) == before + after
  {
    var i, t := |c.left|, Unlinked(c);
    assert c.left + c.right == c.left + [c.right[0]] + c.right[1..];
    assert t.cells[..i] == c.cells[..i] && t.cells[i..] == c.cells[i + 1..] && c.cells[i..][1..] == c.cells[i + 1..];
    FlatCut(t.cells, c.left, c.right[0], c.right[1..]);
    before, after := FlatBefore(c.cells[..i], c.left), Flat(c.right[0]) + FlatAfter(c.cells[i + 1..], c.right[1..]);
    Assoc(before, Flat(c.right[0]), FlatAfter(c.cells[i + 1..], c.right[1..]));
    Assoc([c.cells[i]], Flat(c.right[0]), FlatAfter(c.cells[i + 1..], c.right[1..]));
    Assoc(before, [c.cells[i]], after);
  }

  lemma WithoutLast(c: Ctx<Item>) returns (before: seq<Item>, after: seq<Item>)
    requires c.Frame? && |c.left| == |c.cells| > 0 && |c.right| == 0
    ensures FlatBefore(c.cells[..|c.left|], c.left) + FlatAfter(c.cells[|c.left|..], c.right) == before + [Gone(c)] + after
    ensures Flat(Unlinked(c)) == before + after
  {
    var n, t := |c.cells| - 1, Unlinked(c);
    assert c.cells[..|c.left|] == c.cells[..n] + [c.cells[n]] && c.left == c.left[..n] + [c.left[n]];
    FlatBeforeAppend(c.cells[..n], c.left[..n], c.cells[n], c.left[n]);
    assert t.kids == c.left[..n] + [c.left[n]] + [];
    FlatCut(t.cells, c.left[..n], c.left[n], []);
    assert t.cells[..n] == c.cells[..n] && t.cells[n..] == [] && c.cells[|c.left|..] == [];
    before, after := FlatBefore(c.cells[..n], c.left[..n]) + Flat(c.left[n]), [];
  }

  lemma UnlinkedRule(c: Ctx<Item>)
    requires c.Frame? && |c.left| + |c.right| == |c.cells| && |c.cells| > 0 && CtxAll(c, Rule)
    ensures AllPages(Unlinked(c), Rule) && Gone(c).Fence?
  {
    AllForestAppend(c.left, c.right, Rule);
    var k := if |c.right| > 0 then |c.left| else |c.cells| - 1;
    assert GoodFence(c.cells[k]);
    BytesSplice(c.cells, k, k + 1, [], FenceWeight);
    var cells := c.cells[..k] + c.cells[k + 1..];
    assert c.cells[..k] + [] + c.cells[k + 1..] == cells;
    forall i | 0 <= i < |cells| ensures GoodFence(cells[i]) { assert GoodFence(c.cells[if i < k then i else i + 1]); }
    assert Unlinked(c).cells == cells;
  }

  ghost predicate Pruned(m: map<PageId, Page<Item>>, used: multiset<PageId>, t: Tree<Item>, height: nat, keep: multiset<PageId>) {
    Rep(m, t) && Shape(t, height) && PagesOk(t) && used == NodeIds(t) + keep
  }

  /** The parent survives without the child. */
  lemma ParentSurvives(m: map<PageId, Page<Item>>, m': map<PageId, Page<Item>>, used: multiset<PageId>, c: Ctx<Item>, id: PageId, h: nat,
                       keep: multiset<PageId>)
    returns (t: Tree<Item>, height: nat, a: seq<Item>, b: seq<Item>)
    requires c.Frame? && Doomed(m, used, c, id, h, keep) && |c.cells| > 0
    requires Agree(m, m', ForestIds(c.left) + ForestIds(c.right) + CtxIds(c.up) + keep)
    requires c.id in m' && m'[c.id] == Shallow(Unlinked(c))
    ensures Pruned(m', used - multiset{id}, t, height, keep) && t.id == RootPage(c) && Agree(m, m', keep)
    ensures Gone(c).Fence? && FlatLeft(c) + FlatRight(c) == a + [Gone(c)] + b && Flat(t) == a + b
  {
    var ids := ForestIds(c.left) + ForestIds(c.right) + CtxIds(c.up) + keep;
    var u := Unlinked(c);
    t := Plug(c.up, u);
    a, b := UnlinkedFlat(c, h);
    UnlinkedRule(c);
    RepsAppend(m, c.left, c.right);
    ForestAppend(c.left, c.right);
    Rewritten(m, m', ids, u, c.up, keep);
    height := Reassemble(m', c.up, u, h + 1, Rule);
    PlugFlat(c.up, u, h + 1);
    PlugTop(c.up, u);
    UnlinkedIds(c, id, keep);
  }

  lemma UnlinkedIds(c: Ctx<Item>, id: PageId, keep: multiset<PageId>)
    requires c.Frame? && |c.left| + |c.right| == |c.cells| && |c.cells| > 0
    ensures CtxIds(c) + multiset{id} + keep - multiset{id} == CtxIds(c.up) + NodeIds(Unlinked(c)) + keep
  {
    ForestAppend(c.left, c.right);
  }

  /** Rewrite the parent, then free the child. */
  method Unlink(s: PageStore<Item>, parent: PageId, body: Page<Item>, child: PageId, ghost rest: multiset<PageId>)
    requires s.Valid() && s.used == rest + multiset{parent} + multiset{child}
    modifies s
    ensures s.Valid() && s.used == old(s.used) - multiset{child} && Agree(old(s.pages), s.pages, rest)
    ensures parent in s.pages && s.pages[parent] == body
  {
    LedgerPush(s.used, s.free, s.pageCount, parent);
    LedgerPush(s.used, s.free, s.pageCount, child);
    assert parent != child;
    s.Write(parent, body);
    ghost var m1 := s.pages;
    s.Free(child);
    AgreeSub(old(s.pages), m1, old(s.used) - multiset{parent}, rest);
    AgreeSub(m1, s.pages, s.used, rest);
    AgreeTrans(old(s.pages), m1, s.pages, rest);
  }

  /** The parent had only this child: it is doomed in turn. */
  lemma ParentDoomed(m: map<PageId, Page<Item>>, m': map<PageId, Page<Item>>, used: multiset<PageId>, c: Ctx<Item>, id: PageId, h: nat,
                     keep: multiset<PageId>)
    requires c.Frame? && Doomed(m, used, c, id, h, keep) && |c.cells| == 0
    requires Agree(m, m', CtxIds(c.up) + keep)
    ensures Doomed(m', used - multiset{id}, c.up, c.id, h + 1, keep) && Agree(m, m', keep)
    ensures FlatLeft(c) == FlatLeft(c.up) && FlatRight(c) == FlatRight(c.up)
  {
    assert c.left == [] && c.right == [];
    AgreeSub(m, m', CtxIds(c.up) + keep, CtxIds(c.up));
    AgreeSub(m, m', CtxIds(c.up) + keep, keep);
    CtxFrame(m, m', c.up, c.id);
    assert c.cells[..|c.left|] == [] && c.cells[|c.left|..] == [];
  }

  /** One step of the upward loop where the parent survives. */
  method UnlinkChild(s: PageStore<Item>, at: Step, child: PageId, ghost c: Ctx<Item>, ghost h: nat, ghost keep: multiset<PageId>)
    returns (ghost t: Tree<Item>, ghost height: nat, ghost a: seq<Item>, ghost b: seq<Item>, ghost fence: Item)
    requires s.Valid() && c.Frame? && Doomed(s.pages, s.used, c, child, h, keep) && |c.cells| > 0 && at == Step(c.id, |c.left|)
    modifies s
    ensures s.Valid() && Agree(old(s.pages), s.pages, keep)
    ensures Pruned(s.pages, s.used, t, height, keep) && t.id == RootPage(c)
    ensures fence.Fence? && FlatLeft(c) + FlatRight(c) == a + [fence] + b && Flat(t) == a + b
  {
    ghost var rest := ForestIds(c.left) + ForestIds(c.right) + CtxIds(c.up) + keep;
    assert s.used == rest + multiset{at.page} + multiset{child};
    UnlinkedShallow(c, child);
    Unlink(s, at.page, UnlinkedPage(s.pages[at.page], at.slot), child, rest);
    t, height, a, b := ParentSurvives(old(s.pages), s.pages, old(s.used), c, child, h, keep);
    fence := Gone(c);
  }

  /** One step where the parent is emptied; the root is rewritten as a leaf. */
  method UnlinkOnly(s: PageStore<Item>, at: Step, child: PageId, isRoot: bool, ghost c: Ctx<Item>, ghost h: nat, ghost keep: multiset<PageId>)
    requires s.Valid() && c.Frame? && Doomed(s.pages, s.used, c, child, h, keep) && |c.cells| == 0 && at == Step(c.id, |c.left|)
    modifies s
    ensures s.Valid() && Agree(old(s.pages), s.pages, keep)
    ensures Doomed(s.pages, s.used, c.up, c.id, h + 1, keep)
    ensures FlatLeft(c) == FlatLeft(c.up) && FlatRight(c) == FlatRight(c.up)
    ensures isRoot ==> c.id in s.pages && s.pages[c.id] == LeafPage([])
  {
    ghost var rest := CtxIds(c.up) + keep;
    assert c.left == [] && c.right == [];
    assert s.used == rest + multiset{at.page} + multiset{child};
    Unlink(s, at.page, if isRoot then LeafPage([]) else UnlinkedPage(s.pages[at.page], at.slot), child, rest);
    ParentDoomed(old(s.pages), s.pages, old(s.used), c, child, h, keep);
  }

  /** Unlink and free the emptied page, and every ancestor that empties with it.
      The tree loses one fence, or ends as an empty leaf on the root page. */
  method FreeUpward(s: PageStore<Item>, path: seq<Step>, leafPage: PageId, ghost c0: Ctx<Item>, ghost keep: multiset<PageId>)
    returns (ghost t: Tree<Item>, ghost height: nat, ghost dropped: seq<Item>, ghost a: seq<Item>, ghost b: seq<Item>)
    requires s.Valid() && c0.Frame? && Follows(path, c0) && Doomed(s.pages, s.used, c0, leafPage, 0, keep)
    modifies s
    ensures s.Valid() && Agree(old(s.pages), s.pages, keep)
    ensures Pruned(s.pages, s.used, t, height, keep) && t.id == RootPage(c0)
    ensures FlatLeft(c0) + FlatRight(c0) == a + dropped + b && Flat(t) == a + b
    ensures |dropped| == 0 || (|dropped| == 1 && dropped[0].Fence?)
  {
    var child := leafPage;
    var rest := path;
    ghost var c, h := c0, 0;
    AgreeRefl(s.pages, keep);
    while true
      invariant s.Valid() && Agree(old(s.pages), s.pages, keep)
      invariant c.Frame? && Follows(rest, c) && Doomed(s.pages, s.used, c, child, h, keep) && RootPage(c) == RootPage(c0) && h >= 0
      invariant FlatLeft(c) == FlatLeft(c0) && FlatRight(c) == FlatRight(c0)
      decreases |rest|
    {
      ghost var before := s.pages;
      var at := rest[|rest| - 1];
      rest := rest[..|rest| - 1];
      FollowsDepth(rest, c.up);
      if |s.pages[at.page].routed| > 0 {
        ghost var fence;
        t, height, a, b, fence := UnlinkChild(s, at, child, c, h, keep);
        AgreeTrans(old(s.pages), before, s.pages, keep);
        dropped := [fence];
        return;
      }
      UnlinkOnly(s, at, child, |rest| == 0, c, h, keep);
      AgreeTrans(old(s.pages), before, s.pages, keep);
      if |rest| == 0 {
        t, height, dropped, a, b := TLeaf(c.id, []), 0, [], [], [];
        return;
      }
      child := at.page;
      c, h := c.up, h + 1;
    }
  }

  /** Take a row's cell out of its leaf and give back its overflow pages. */
  method RemoveRow(s: PageStore<Item>, page: PageId, slot: nat,
      ghost c: Ctx<Item>, ghost leaf: Tree<Item>, ghost keep: multiset<PageId>)
    requires s.Valid() && leaf.TLeaf? && page == leaf.id && slot < |leaf.cells| && leaf.cells[slot].Row?
    requires Spot(s.pages, s.used, c, leaf, keep + Tally(leaf.cells[slot].chain)) && OverflowLinks(s.pages, leaf.cells[slot].chain)
    modifies s
    ensures s.Valid() && Agree(old(s.pages), s.pages, keep)
    ensures Spot(s.pages, s.used, c, TLeaf(page, leaf.cells[..slot] + leaf.cells[slot + 1..]), keep)
  {
    var cells := s.pages[page].cells;
    var chain := cells[slot].chain;
    ghost var rest := CtxIds(c) + keep + Tally(chain);
    LedgerPush(s.used, s.free, s.pageCount, page);
    s.Write(page, LeafPage(cells[..slot] + cells[slot + 1..]));
    ghost var m1 := s.pages;
    AgreeSub(old(s.pages), m1, s.used - multiset{page}, rest);
    ghost var kept := CtxIds(c) + multiset{page} + keep;
    AgreeSub(old(s.pages), m1, rest, Tally(chain));
    OverflowLinksFrame(old(s.pages), m1, chain);
    s.FreeOverflowChain(Head(chain), chain, kept);
    RowRemoved(old(s.pages), m1, s.pages, c, leaf, slot, keep, chain);
  }

  lemma RowRemoved(m: map<PageId, Page<Item>>, m1: map<PageId, Page<Item>>, m2: map<PageId, Page<Item>>,
                   c: Ctx<Item>, leaf: Tree<Item>, slot: nat, keep: multiset<PageId>, chain: seq<PageId>)
    requires leaf.TLeaf? && slot < |leaf.cells| && CtxRep(m, c, leaf.id) && CtxShape(c, 0) && CtxAll(c, Rule) && LeafFits(leaf.cells)
    requires Agree(m, m1, CtxIds(c) + keep + Tally(chain)) && Agree(m1, m2, CtxIds(c) + multiset{leaf.id} + keep)
    requires leaf.id in m1 && m1[leaf.id] == LeafPage(leaf.cells[..slot] + leaf.cells[slot + 1..])
    ensures Spot(m2, CtxIds(c) + multiset{leaf.id} + keep, c, TLeaf(leaf.id, leaf.cells[..slot] + leaf.cells[slot + 1..]), keep)
    ensures Agree(m, m2, keep)
  {
    AgreeSub(m, m1, CtxIds(c) + keep + Tally(chain), CtxIds(c));
    AgreeSub(m, m1, CtxIds(c) + keep + Tally(chain), keep);
    AgreeSub(m1, m2, CtxIds(c) + multiset{leaf.id} + keep, CtxIds(c));
    AgreeSub(m1, m2, CtxIds(c) + multiset{leaf.id} + keep, keep);
    AgreeTrans(m, m1, m2, CtxIds(c));
    AgreeTrans(m, m1, m2, keep);
    CtxFrame(m, m2, c, leaf.id);
    assert Same(m1, m2, leaf.id);
    DropRowFits(leaf.cells, slot);
  }

  lemma DropRowFits(cells: seq<Item>, k: nat)
    requires k < |cells| && LeafFits(cells)
    ensures LeafFits(cells[..k] + cells[k + 1..])
  {
    BytesSplice(cells, k, k + 1, [], LeafWeight);
    var less := cells[..k] + cells[k + 1..];
    assert cells[..k] + [] + cells[k + 1..] == less;
    forall i | 0 <= i < |less| ensures GoodRow(less[i]) { assert GoodRow(cells[if i < k then i else i + 1]); }
  }
}
