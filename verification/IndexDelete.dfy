/** Removing an entry from an index b-tree, from a leaf or from an interior page. */
module IndexDelete {
  import opened Basics
  import opened TreeCells
  import opened Trees
  import opened Store
  import opened Split
  import opened Cascade
  import opened Descent
  import opened Keys
  import opened IndexTree
  import opened Rebalance
  import opened Places

  function AtMost(probe: Key): Entry -> bool {
    (e: Entry) => CompareKeys(probe, e.key) >= 0
  }

  lemma AtMostIsMonotone(s: seq<Entry>, n: nat, probe: Key)
    requires Sorted(s) && SameArity(s, n)
    ensures Monotone(s, AtMost(probe))
  {
    forall i, j | 0 <= i < j < |s| && AtMost(probe)(s[j]) ensures AtMost(probe)(s[i]) {
      assert Ascends(s, i, j) && HasArity(s, n, i) && HasArity(s, n, j);
      if CompareKeys(probe, s[i].key) < 0 { ProbeStaysBefore(probe, s[i].key, s[j].key); }
    }
  }

  /** Where the key is, if anywhere. */
  datatype Place = Place(found: bool, path: seq<Step>, page: PageId, slot: nat)

  ghost predicate Avoids(c: Ctx<Entry>, key: Key) {
    Straddles(c, Below(key)) && Straddles(c, AtMost(key))
  }

  lemma AvoidsKid(c: Ctx<Entry>, t: Tree<Entry>, h: nat, k: nat, key: Key)
    requires t.TNode? && Shape(t, h) && k <= |t.cells| && Avoids(c, key)
    requires Monotone(Flat(t), Below(key)) && Monotone(Flat(t), AtMost(key))
    requires AllBelow(t.cells[..k], Below(key)) && NoneBelow(t.cells[k..], Below(key))
    requires k < |t.cells| ==> CompareKeys(key, t.cells[k].key) != 0
    ensures Avoids(Enter(c, t, k), key)
    ensures Monotone(Flat(t.kids[k]), Below(key)) && Monotone(Flat(t.kids[k]), AtMost(key))
  {
    CellsMonotone(t.cells, t.kids, AtMost(key));
    var b := t.cells[k..];
    forall j | 0 <= j < |b| ensures !AtMost(key)(b[j]) {
      assert !Below(key)(b[0]) && b[0] == t.cells[k];
      assert b[j] == t.cells[k + j];
    }
    StraddlesKid(c, t, h, k, Below(key));
    StraddlesKid(c, t, h, k, AtMost(key));
  }

  lemma AvoidsAll(c: Ctx<Entry>, leaf: Tree<Entry>, slot: nat, key: Key, whole: Tree<Entry>)
    requires leaf.TLeaf? && CtxShape(c, 0) && Plug(c, leaf) == whole && Avoids(c, key) && slot <= |leaf.cells|
    requires Monotone(leaf.cells, AtMost(key))
    requires AllBelow(leaf.cells[..slot], Below(key)) && NoneBelow(leaf.cells[slot..], Below(key))
    requires slot < |leaf.cells| ==> CompareKeys(key, leaf.cells[slot].key) != 0
    ensures Absent(Flat(whole), key)
  {
    PlugFlat(c, leaf, 0);
    LeafAvoids(leaf.cells, slot, key);
    AbsentAround(FlatLeft(c), leaf.cells, FlatRight(c), key);
  }

  lemma LeafAvoids(m: seq<Entry>, slot: nat, key: Key)
    requires slot <= |m| && Monotone(m, AtMost(key)) && AllBelow(m[..slot], Below(key)) && NoneBelow(m[slot..], Below(key))
    requires slot < |m| ==> CompareKeys(key, m[slot].key) != 0
    ensures Absent(m, key)
  {
    forall i | 0 <= i < |m| ensures CompareKeys(key, m[i].key) != 0 {
      if i < slot {
        assert m[..slot][i] == m[i];
      } else {
        assert !Below(key)(m[slot..][0]) && m[slot..][0] == m[slot];
        assert !AtMost(key)(m[slot]);
      }
    }
  }

  lemma AbsentAround(l: seq<Entry>, m: seq<Entry>, r: seq<Entry>, key: Key)
    requires AllBelow(l, Below(key)) && Absent(m, key) && NoneBelow(r, AtMost(key))
    ensures Absent(l + m + r, key)
  {
    var all := l + m + r;
    forall i | 0 <= i < |all| ensures CompareKeys(key, all[i].key) != 0 {
      if i < |l| { assert Below(key)(l[i]); } else if i >= |l| + |m| { assert !AtMost(key)(r[i - |l| - |m|]); }
    }
  }

  /** Find the key anywhere in the tree: a separator equal to it is always at the
      slot the descent would take. */
  method Locate(s: PageStore<Entry>, root: PageId, key: Key, ghost whole: Tree<Entry>, ghost height: nat, ghost n: nat)
    returns (place: Place, ghost c: Ctx<Entry>, ghost t: Tree<Entry>, ghost h: nat)
    requires Rep(s.pages, whole) && Shape(whole, height) && whole.id == root && Sorted(Flat(whole)) && SameArity(Flat(whole), n)
    ensures !place.found ==> Absent(Flat(whole), key)
    ensures place.found ==>
              && At(s.pages, whole, place.path, c, t, h) && place.page == t.id
              && place.slot < |t.cells| && CompareKeys(key, t.cells[place.slot].key) == 0
  {
    var path, page := [], root;
    c, t, h := Top, whole, height;
    AtRoot(s.pages, whole, height, Below(key));
    AtRoot(s.pages, whole, height, AtMost(key));
    ProbeIsMonotone(Flat(whole), n, key);
    AtMostIsMonotone(Flat(whole), n, key);
    while s.pages[page].InteriorPage?
      invariant page == t.id && At(s.pages, whole, path, c, t, h) && Avoids(c, key)
      invariant Monotone(Flat(t), Below(key)) && Monotone(Flat(t), AtMost(key))
      decreases h
    {
      CellsMonotone(t.cells, t.kids, Below(key));
      var seps := Seps(s.pages[page]);
      var slot := LowerBound(seps, Below(key));
      if slot < |seps| && CompareKeys(key, seps[slot].key) == 0 {
        return Place(true, path, page, slot), c, t, h;
      }
      AvoidsKid(c, t, h, slot, key);
      AtKid(s.pages, whole, path, c, t, h, slot);
      path := path + [Step(page, slot)];
      page := Children(s.pages[page])[slot];
      c, t, h := Enter(c, t, slot), t.kids[slot], h - 1;
    }
    var cells := s.pages[page].cells;
    var slot := LowerBound(cells, Below(key));
    if slot < |cells| && CompareKeys(key, cells[slot].key) == 0 {
      return Place(true, path, page, slot), c, t, h;
    }
    AvoidsAll(c, t, slot, key, whole);
    return Place(false, path, page, slot), c, t, h;
  }

  // ---- Replacing a divider further up the context ----

  ghost function FrameAt(c: Ctx<Entry>, d: nat): Ctx<Entry>
    requires d < Depth(c)
    decreases c
  {
    if d == 0 then c else FrameAt(c.up, d - 1)
  }

  /** The hole is the last child all the way up to the d-th frame, whose divider
      right of the hole is therefore the next entry in order. */
  ghost predicate RightEdge(c: Ctx<Entry>, d: nat)
    decreases c
  {
    c.Frame? && |c.left| + |c.right| == |c.cells| &&
    if d == 0 then |c.right| > 0 else |c.right| == 0 && RightEdge(c.up, d - 1)
  }

  ghost function Redivide(c: Ctx<Entry>, d: nat, e: Entry): Ctx<Entry>
    requires RightEdge(c, d)
    decreases c
  {
    if d == 0 then Frame(c.id, c.cells[|c.left| := e], c.left, c.right, c.up)
    else Frame(c.id, c.cells, c.left, c.right, Redivide(c.up, d - 1, e))
  }

  ghost function Next(c: Ctx<Entry>, d: nat): Entry
    requires RightEdge(c, d)
    decreases c
  {
    if d == 0 then c.cells[|c.left|] else Next(c.up, d - 1)
  }

  lemma {:induction false} EdgeDepth(c: Ctx<Entry>, d: nat)
    requires RightEdge(c, d)
    ensures d < Depth(c)
    decreases c
  {
    if d > 0 { EdgeDepth(c.up, d - 1); }
  }

  /** What follows the hole: the divider, then a tail that a new divider leaves alone. */
  lemma {:induction false} RedivideFlat(c: Ctx<Entry>, d: nat, e: Entry) returns (tail: seq<Entry>)
    requires RightEdge(c, d)
    ensures FlatRight(c) == [Next(c, d)] + tail && FlatRight(Redivide(c, d, e)) == [e] + tail
    ensures FlatLeft(Redivide(c, d, e)) == FlatLeft(c)
    decreases c
  {
    if d == 0 {
      var i := |c.left|;
      var cells := c.cells[i := e];
      assert cells[i..][1..] == c.cells[i..][1..] && cells[..i] == c.cells[..i];
      var rest := Flat(c.right[0]) + FlatAfter(c.cells[i..][1..], c.right[1..]);
      assert FlatAfter(c.cells[i..], c.right) == [c.cells[i]] + rest;
      assert FlatAfter(cells[i..], c.right) == [e] + rest;
      tail := rest + FlatRight(c.up);
    } else {
      tail := RedivideFlat(c.up, d - 1, e);
      assert c.cells[|c.left|..] == [];
      assert FlatAfter(c.cells[|c.left|..], c.right) == [];
    }
  }

  lemma {:induction false} RedivideShape(c: Ctx<Entry>, d: nat, e: Entry, h: nat, path: seq<Step>)
    requires RightEdge(c, d) && CtxShape(c, h) && Follows(path, c)
    ensures CtxShape(Redivide(c, d, e), h) && Follows(path, Redivide(c, d, e))
    ensures CtxIds(Redivide(c, d, e)) == CtxIds(c) && Depth(Redivide(c, d, e)) == Depth(c)
    ensures RootPage(Redivide(c, d, e)) == RootPage(c)
    decreases c
  {
    if d > 0 { RedivideShape(c.up, d - 1, e, h + 1, path[..|path| - 1]); }
  }

  lemma {:induction false} RedivideAll(c: Ctx<Entry>, d: nat, e: Entry, ok: PageRule<Entry>)
    requires RightEdge(c, d) && CtxAll(c, ok)
    requires d < Depth(c) && (var f := FrameAt(c, d); f.Frame? && |f.left| < |f.cells| && ok(false, f.cells[|f.left| := e]))
    ensures CtxAll(Redivide(c, d, e), ok)
    decreases c
  {
    if d > 0 {
      EdgeDepth(c.up, d - 1);
      RedivideAll(c.up, d - 1, e, ok);
    }
  }

  /** The context's pages other than the d-th frame's own. */
  ghost function IdsBut(c: Ctx<Entry>, d: nat): multiset<PageId>
    requires d < Depth(c)
    decreases c
  {
    if d == 0 then ForestIds(c.left) + ForestIds(c.right) + CtxIds(c.up)
    else multiset{c.id} + ForestIds(c.left) + ForestIds(c.right) + IdsBut(c.up, d - 1)
  }

  lemma {:induction false} IdsButOne(c: Ctx<Entry>, d: nat)
    requires d < Depth(c)
    ensures FrameAt(c, d).Frame? && CtxIds(c) == IdsBut(c, d) + multiset{FrameAt(c, d).id}
    decreases c
  {
    if d > 0 { IdsButOne(c.up, d - 1); }
  }

  ghost predicate RedividedAt(m: map<PageId, Page<Entry>>, m': map<PageId, Page<Entry>>, f: Ctx<Entry>, e: Entry) {
    && f.Frame? && f.id in m && m[f.id].InteriorPage? && |f.left| < |m[f.id].routed|
    && f.id in m' && m'[f.id] == RedividedPage(m[f.id], |f.left|, e)
  }

  lemma RedividedIs(cells: seq<Entry>, ids: seq<PageId>, i: nat, e: Entry)
    requires |ids| == |cells| + 1 && i < |cells|
    ensures RedividedPage(Interior(cells, ids), i, e) == Interior(cells[i := e], ids)
  {
    var p := Interior(cells, ids);
    var q := RedividedPage(p, i, e);
    assert Seps(q) == Seps(p)[i := e];
    assert Children(q) == Children(p);
    InteriorEq(q, cells[i := e], ids);
  }

  lemma {:induction false} RedivideRep(m: map<PageId, Page<Entry>>, m': map<PageId, Page<Entry>>, c: Ctx<Entry>, d: nat, e: Entry,
                                       hole: PageId)
    requires RightEdge(c, d) && d < Depth(c) && CtxRep(m, c, hole)
    requires Agree(m, m', IdsBut(c, d)) && RedividedAt(m, m', FrameAt(c, d), e)
    ensures CtxRep(m', Redivide(c, d, e), hole)
    decreases c
  {
    AgreeSub(m, m', IdsBut(c, d), ForestIds(c.left));
    AgreeSub(m, m', IdsBut(c, d), ForestIds(c.right));
    RepsFrame(m, m', c.left);
    RepsFrame(m, m', c.right);
    if d == 0 {
      AgreeSub(m, m', IdsBut(c, d), CtxIds(c.up));
      CtxFrame(m, m', c.up, c.id);
      RedividedIs(c.cells, KidIds(c.left) + [hole] + KidIds(c.right), |c.left|, e);
    } else {
      AgreeSub(m, m', IdsBut(c, d), IdsBut(c.up, d - 1));
      assert Same(m, m', c.id);
      RedivideRep(m, m', c.up, d - 1, e, c.id);
    }
  }

  // ---- Removing ----

  ghost function Without(s: seq<Entry>, i: nat): seq<Entry>
    requires i < |s|
  {
    s[..i] + s[i + 1..]
  }

  /** Take a cell out of its leaf. */
  method ShrinkLeaf(s: PageStore<Entry>, page: PageId, slot: nat,
      ghost c: Ctx<Entry>, ghost leaf: Tree<Entry>, ghost n: nat, ghost keep: multiset<PageId>)
    requires s.Valid() && Spot(s.pages, s.used, c, leaf, n, keep) && page == leaf.id && slot < |leaf.cells|
    modifies s`pages, s`log
    ensures s.Valid() && Agree(old(s.pages), s.pages, keep)
    ensures Spot(s.pages, s.used, c, TLeaf(page, Without(leaf.cells, slot)), n, keep)
  {
    var cells := s.pages[page].cells;
    s.Write(page, LeafPage(cells[..slot] + cells[slot + 1..]));
    DropCellFits(true, leaf.cells, slot, n);
    AgreeSub(old(s.pages), s.pages, s.used - multiset{page}, keep);
    AgreeSub(old(s.pages), s.pages, s.used - multiset{page}, CtxIds(c));
    CtxFrame(old(s.pages), s.pages, c, page);
  }

  /** Give back the overflow pages of a removed entry. */
  method ReleaseChain(s: PageStore<Entry>, chain: seq<PageId>,
      ghost c: Ctx<Entry>, ghost leaf: Tree<Entry>, ghost n: nat, ghost keep: multiset<PageId>)
    requires s.Valid() && Spot(s.pages, s.used, c, leaf, n, keep + Tally(chain)) && OverflowLinks(s.pages, chain)
    modifies s
    ensures s.Valid() && Agree(old(s.pages), s.pages, keep)
    ensures Spot(s.pages, s.used, c, leaf, n, keep)
  {
    ghost var rest := CtxIds(c) + NodeIds(leaf) + keep;
    assert s.used == rest + Tally(chain);
    s.FreeOverflowChain(Head(chain), chain, rest);
    AgreeSub(old(s.pages), s.pages, rest, keep);
    AgreeSub(old(s.pages), s.pages, rest, CtxIds(c));
    AgreeSub(old(s.pages), s.pages, rest, NodeIds(leaf));
    CtxFrame(old(s.pages), s.pages, c, leaf.id);
    RepFrame(old(s.pages), s.pages, leaf);
  }

  /** A repair gives the sequence it should, or spoils it. */
  ghost predicate Result(ok: bool, s: seq<Entry>, s': seq<Entry>) {
    if ok then s' == s else Spoilt(s, s')
  }

  /** If the removal emptied the leaf, repair it. */
  method Settle(s: PageStore<Entry>, root: PageId, path: seq<Step>, page: PageId,
      ghost c: Ctx<Entry>, ghost leaf: Tree<Entry>, ghost n: nat, ghost keep: multiset<PageId>)
    returns (ok: bool, ghost t: Tree<Entry>, ghost height: nat)
    requires s.Valid() && Spot(s.pages, s.used, c, leaf, n, keep) && page == leaf.id
    requires Follows(path, c) && root == (if c.Top? then page else RootPage(c))
    modifies s
    ensures ok <==> |leaf.cells| > 0 || RepairFits(c, true, root)
    ensures s.Valid() && Agree(old(s.pages), s.pages, keep) && Repaired(s.pages, s.used, t, height, n, keep) && t.id == root
    ensures Result(ok, FlatLeft(c) + leaf.cells + FlatRight(c), Flat(t))
  {
    PlugFlat(c, leaf, 0);
    if |s.pages[page].cells| > 0 {
      AgreeRefl(s.pages, keep);
      t := Plug(c, leaf);
      height := Reassemble(s.pages, c, leaf, 0, Rule(n));
      PlugTop(c, leaf);
      ok := true;
      return;
    }
    ok, t, height := Repair(s, root, path, page, c, leaf, 0, n, keep);
  }

  method RemoveFromLeaf(s: PageStore<Entry>, root: PageId, path: seq<Step>, page: PageId, slot: nat,
      ghost c: Ctx<Entry>, ghost leaf: Tree<Entry>, ghost n: nat, ghost keep: multiset<PageId>)
    returns (ok: bool, ghost t: Tree<Entry>, ghost height: nat)
    requires s.Valid() && leaf.TLeaf? && slot < |leaf.cells| && page == leaf.id
    requires Spot(s.pages, s.used, c, leaf, n, keep + Tally(leaf.cells[slot].chain)) && OverflowLinks(s.pages, leaf.cells[slot].chain)
    requires Follows(path, c) && root == (if c.Top? then page else RootPage(c))
    modifies s
    ensures ok <==> |leaf.cells| > 1 || RepairFits(c, true, root)
    ensures s.Valid() && Agree(old(s.pages), s.pages, keep) && Repaired(s.pages, s.used, t, height, n, keep) && t.id == root
    ensures Result(ok, FlatLeft(c) + Without(leaf.cells, slot) + FlatRight(c), Flat(t))
  {
    var chain := s.pages[page].cells[slot].chain;
    ShrinkLeaf(s, page, slot, c, leaf, n, keep + Tally(chain));
    ghost var m1, leaf' := s.pages, TLeaf(page, Without(leaf.cells, slot));
    AgreeSub(old(s.pages), m1, keep + Tally(chain), keep);
    AgreeSub(old(s.pages), m1, keep + Tally(chain), Tally(chain));
    OverflowLinksFrame(old(s.pages), m1, chain);
    ReleaseChain(s, chain, c, leaf', n, keep);
    ghost var m2 := s.pages;
    AgreeTrans(old(s.pages), m1, m2, keep);
    ok, t, height := Settle(s, root, path, page, c, leaf', n, keep);
    AgreeTrans(old(s.pages), m2, s.pages, keep);
  }

  /** Down the right edge of the subtree left of a divider, to the leaf whose last
      cell precedes it. */
  method RightmostLeaf(s: PageStore<Entry>, path0: seq<Step>, page0: PageId,
      ghost whole: Tree<Entry>, ghost c0: Ctx<Entry>, ghost t0: Tree<Entry>, ghost h0: nat)
    returns (path: seq<Step>, page: PageId, ghost c: Ctx<Entry>, ghost leaf: Tree<Entry>, ghost d: nat)
    requires At(s.pages, whole, path0, c0, t0, h0) && RightEdge(c0, 0) && page0 == t0.id
    ensures At(s.pages, whole, path, c, leaf, 0) && leaf.TLeaf? && page == leaf.id
    ensures RightEdge(c, d) && d < Depth(c) && FrameAt(c, d) == c0 && Next(c, d) == c0.cells[|c0.left|]
  {
    path, page, c, leaf, d := path0, page0, c0, t0, 0;
    ghost var h := h0;
    while s.pages[page].InteriorPage?
      invariant page == leaf.id && At(s.pages, whole, path, c, leaf, h)
      invariant RightEdge(c, d) && d < Depth(c) && FrameAt(c, d) == c0 && Next(c, d) == c0.cells[|c0.left|]
      decreases h
    {
      var last := |s.pages[page].routed|;
      AtKid(s.pages, whole, path, c, leaf, h, |leaf.cells|);
      path := path + [Step(page, last)];
      page := s.pages[page].right;
      c, leaf, d, h := Enter(c, leaf, |leaf.cells|), leaf.kids[|leaf.cells|], d + 1, h - 1;
    }
  }

  /** The predecessor's payload goes into the divider's cell, which keeps its child
      pointer, and leaves its own leaf. */
  method SwapDivider(s: PageStore<Entry>, dividerPage: PageId, slot: nat, page: PageId, replacement: Entry,
      ghost c: Ctx<Entry>, ghost d: nat, ghost leaf: Tree<Entry>, ghost n: nat, ghost keep: multiset<PageId>)
    requires s.Valid() && Spot(s.pages, s.used, c, leaf, n, keep) && page == leaf.id && |leaf.cells| > 0
    requires RightEdge(c, d) && d < Depth(c) && replacement == leaf.cells[|leaf.cells| - 1]
    requires
      var f := FrameAt(c, d);
      f.Frame? && dividerPage == f.id && slot == |f.left| < |f.cells| && Rule(n)(false, f.cells[slot := replacement])
    modifies s`pages, s`log
    ensures s.Valid() && Agree(old(s.pages), s.pages, keep)
    ensures Spot(s.pages, s.used, Redivide(c, d, replacement), TLeaf(page, leaf.cells[..|leaf.cells| - 1]), n, keep)
  {
    hide RightEdge, Redivide, Rule;
    IdsButOne(c, d);
    FrameIsPage(s.pages, c, d, page);
    ghost var rest := IdsBut(c, d) + keep;
    assert s.used == rest + multiset{dividerPage} + multiset{page};
    WriteTwo(s, dividerPage, RedividedPage(s.pages[dividerPage], slot, replacement),
             page, LeafPage(s.pages[page].cells[..|s.pages[page].cells| - 1]), rest);
    Swapped(old(s.pages), s.pages, s.used, c, d, leaf, n, keep);
  }

  lemma {:induction false} FrameIsPage(m: map<PageId, Page<Entry>>, c: Ctx<Entry>, d: nat, hole: PageId)
    requires d < Depth(c) && CtxRep(m, c, hole)
    ensures
      var f := FrameAt(c, d);
      f.Frame? && f.id in m && m[f.id].InteriorPage? && |m[f.id].routed| == |f.cells| && Seps(m[f.id]) == f.cells
    decreases c
  {
    if d > 0 { FrameIsPage(m, c.up, d - 1, c.id); }
  }

  lemma Swapped(m: map<PageId, Page<Entry>>, m': map<PageId, Page<Entry>>, used: multiset<PageId>,
                c: Ctx<Entry>, d: nat, leaf: Tree<Entry>, n: nat, keep: multiset<PageId>)
    requires Spot(m, used, c, leaf, n, keep) && |leaf.cells| > 0 && RightEdge(c, d) && d < Depth(c)
    requires
      var f, e := FrameAt(c, d), leaf.cells[|leaf.cells| - 1];
      && RedividedAt(m, m', f, e) && |f.left| < |f.cells| && Rule(n)(false, f.cells[|f.left| := e])
      && leaf.id in m' && m'[leaf.id] == LeafPage(leaf.cells[..|leaf.cells| - 1])
      && Agree(m, m', IdsBut(c, d) + keep)
    ensures Agree(m, m', keep)
    ensures Spot(m', used, Redivide(c, d, leaf.cells[|leaf.cells| - 1]), TLeaf(leaf.id, leaf.cells[..|leaf.cells| - 1]), n, keep)
  {
    var k := |leaf.cells| - 1;
    var e := leaf.cells[k];
    AgreeSub(m, m', IdsBut(c, d) + keep, keep);
    AgreeSub(m, m', IdsBut(c, d) + keep, IdsBut(c, d));
    RedivideRep(m, m', c, d, e, leaf.id);
    RedivideAll(c, d, e, Rule(n));
    RedivideKeeps(c, d, e, 0);
    DropCellFits(true, leaf.cells, k, n);
    assert leaf.cells[..k] + leaf.cells[k + 1..] == leaf.cells[..k];
  }

  lemma {:induction false} RedivideKeeps(c: Ctx<Entry>, d: nat, e: Entry, h: nat)
    requires RightEdge(c, d) && CtxShape(c, h)
    ensures CtxShape(Redivide(c, d, e), h) && CtxIds(Redivide(c, d, e)) == CtxIds(c)
    decreases c
  {
    if d > 0 { RedivideKeeps(c.up, d - 1, e, h + 1); }
  }

  datatype Removal = Removed | DividerTooLong | RotationTooLong

  /** The leaf whose last cell precedes the divider at `slot` of the page `page0`. */
  method FindPredecessor(s: PageStore<Entry>, root: PageId, path0: seq<Step>, page0: PageId, slot: nat,
      ghost whole: Tree<Entry>, ghost height0: nat, ghost n: nat, ghost others: multiset<PageId>,
      ghost c0: Ctx<Entry>, ghost node: Tree<Entry>, ghost h: nat)
    returns (path: seq<Step>, page: PageId, ghost c: Ctx<Entry>, ghost d: nat, ghost leaf: Tree<Entry>)
    requires s.Valid() && Wf(s.pages, s.used, whole, height0, n, others) && whole.id == root
    requires At(s.pages, whole, path0, c0, node, h) && node.TNode? && page0 == node.id && slot < |node.cells|
    ensures Spot(s.pages, s.used, c, leaf, n, ChainIds(Flat(whole)) + others) && page == leaf.id && |leaf.cells| > 0
    ensures Plug(c, leaf) == whole && c.Frame? && Follows(path, c) && root == RootPage(c)
    ensures RightEdge(c, d) && d < Depth(c) && FrameAt(c, d) == Enter(c0, node, slot) && Next(c, d) == node.cells[slot]
    ensures s.pages[page0].InteriorPage? && Seps(s.pages[page0]) == node.cells
  {
    AtKid(s.pages, whole, path0, c0, node, h, slot);
    path, page, c, leaf, d := RightmostLeaf(s, path0 + [Step(page0, slot)], Children(s.pages[page0])[slot],
                                            whole, Enter(c0, node, slot), node.kids[slot], h - 1);
    SpotOf(s.pages, s.used, whole, height0, n, others, path, c, leaf);
    LeafHasCells(c, leaf, whole, n);
    FollowsDepth(path, c);
  }

  /** Remove a divider by putting its predecessor in its place. The check that the
      predecessor fits there comes before any write. */
  method RemoveDivider(s: PageStore<Entry>, root: PageId, path0: seq<Step>, page0: PageId, slot: nat,
      ghost whole: Tree<Entry>, ghost height0: nat, ghost n: nat, ghost others: multiset<PageId>,
      ghost c0: Ctx<Entry>, ghost node: Tree<Entry>, ghost h: nat, ghost keep: multiset<PageId>)
    returns (r: Removal, ghost c: Ctx<Entry>, ghost d: nat, ghost leaf: Tree<Entry>, ghost flat: seq<Entry>,
             ghost t: Tree<Entry>, ghost height: nat)
    requires s.Valid() && Wf(s.pages, s.used, whole, height0, n, others) && whole.id == root
    requires At(s.pages, whole, path0, c0, node, h) && node.TNode? && page0 == node.id && slot < |node.cells|
    requires ChainIds(Flat(whole)) + others == keep + Tally(node.cells[slot].chain)
    requires OverflowLinks(s.pages, node.cells[slot].chain)
    modifies s
    ensures leaf.TLeaf? && |leaf.cells| > 0 && CtxShape(c, 0) && Plug(c, leaf) == whole
    ensures RightEdge(c, d) && d < Depth(c) && FrameAt(c, d) == Enter(c0, node, slot) && Next(c, d) == node.cells[slot]
    ensures r.DividerTooLong? <==> Bytes(node.cells[slot := leaf.cells[|leaf.cells| - 1]], InteriorWeight) > INTERIOR_ROOM
    ensures r.DividerTooLong? ==> s.Valid() && s.Now() == old(s.Now()) && s.used == old(s.used) && t == whole && height == height0
    ensures !r.DividerTooLong? ==> s.Valid() && Agree(old(s.pages), s.pages, keep)
    ensures !r.DividerTooLong? ==> Repaired(s.pages, s.used, t, height, n, keep) && t.id == root
    ensures !r.DividerTooLong? ==> RightAfter(whole, c, d, leaf, flat) && Result(r.Removed?, flat, Flat(t))
    ensures !r.DividerTooLong? ==>
              (r.Removed? <==> |leaf.cells| > 1 || RepairFits(Redivide(c, d, leaf.cells[|leaf.cells| - 1]), true, root))
  {
    var path, page;
    path, page, c, d, leaf := FindPredecessor(s, root, path0, page0, slot, whole, height0, n, others, c0, node, h);
    t, height, flat := whole, height0, [];
    var divider := Seps(s.pages[page0])[slot];
    var replacement := s.pages[page].cells[|s.pages[page].cells| - 1];
    var bytes := TotalBytes(Seps(s.pages[page0])[slot := replacement], InteriorWeight);
    if bytes > INTERIOR_ROOM {
      r := DividerTooLong;
      return;
    }
    NewDividerFits(c, d, c0, node, slot, leaf, n);
    var ok;
    ok, flat, t, height := SwapAndSettle(s, root, path, page0, slot, page, divider, replacement, whole, c, d, leaf, n, keep);
    r := if ok then Removed else RotationTooLong;
  }

  method SwapAndSettle(s: PageStore<Entry>, root: PageId, path: seq<Step>, dividerPage: PageId, slot: nat, page: PageId,
      divider: Entry, replacement: Entry,
      ghost whole: Tree<Entry>, ghost c: Ctx<Entry>, ghost d: nat, ghost leaf: Tree<Entry>, ghost n: nat, ghost keep: multiset<PageId>)
    returns (ok: bool, ghost flat: seq<Entry>, ghost t: Tree<Entry>, ghost height: nat)
    requires s.Valid() && Spot(s.pages, s.used, c, leaf, n, keep + Tally(divider.chain)) && page == leaf.id && |leaf.cells| > 0
    requires Plug(c, leaf) == whole && c.Frame? && Follows(path, c) && root == RootPage(c) && OverflowLinks(s.pages, divider.chain)
    requires RightEdge(c, d) && d < Depth(c) && replacement == leaf.cells[|leaf.cells| - 1]
    requires
      var f := FrameAt(c, d);
      f.Frame? && dividerPage == f.id && slot == |f.left| < |f.cells| && Rule(n)(false, f.cells[slot := replacement])
    modifies s
    ensures ok <==> |leaf.cells| > 1 || RepairFits(Redivide(c, d, replacement), true, root)
    ensures s.Valid() && Agree(old(s.pages), s.pages, keep) && Repaired(s.pages, s.used, t, height, n, keep) && t.id == root
    ensures RightAfter(whole, c, d, leaf, flat) && Result(ok, flat, Flat(t))
  {
    ghost var c', leaf' := Redivide(c, d, replacement), TLeaf(page, leaf.cells[..|leaf.cells| - 1]);
    SwapDivider(s, dividerPage, slot, page, replacement, c, d, leaf, n, keep + Tally(divider.chain));
    ghost var m1 := s.pages;
    KeepsChain(old(s.pages), m1, divider.chain, keep);
    ReleaseChain(s, divider.chain, c', leaf', n, keep);
    ghost var m2 := s.pages;
    AgreeTrans(old(s.pages), m1, m2, keep);
    RedivideShape(c, d, replacement, 0, path);
    ok, t, height := Settle(s, root, path, page, c', leaf', n, keep);
    AgreeTrans(old(s.pages), m2, s.pages, keep);
    flat := FlatLeft(c') + leaf'.cells + FlatRight(c');
    SwapSequence(whole, c, d, leaf, flat);
  }

  lemma LeafHasCells(c: Ctx<Entry>, leaf: Tree<Entry>, whole: Tree<Entry>, n: nat)
    requires c.Frame? && leaf.TLeaf? && Plug(c, leaf) == whole && PagesOk(whole, n)
    ensures |leaf.cells| > 0 && CtxAll(c, Rule(n))
  {
    PlugTop(c, leaf);
    PlugAll(c, leaf, Rule(n));
  }

  lemma NewDividerFits(c: Ctx<Entry>, d: nat, c0: Ctx<Entry>, node: Tree<Entry>, slot: nat, leaf: Tree<Entry>, n: nat)
    requires leaf.TLeaf? && |leaf.cells| > 0 && PageFits(true, leaf.cells, n) && CtxAll(c, Rule(n))
    requires d < Depth(c) && node.TNode? && slot < |node.kids| && FrameAt(c, d) == Enter(c0, node, slot) && slot < |node.cells|
    requires Bytes(node.cells[slot := leaf.cells[|leaf.cells| - 1]], InteriorWeight) <= INTERIOR_ROOM
    ensures Rule(n)(false, node.cells[slot := leaf.cells[|leaf.cells| - 1]])
  {
    FrameRule(c, d, Rule(n));
    var e := leaf.cells[|leaf.cells| - 1];
    var cells := node.cells[slot := e];
    assert Good(n)(e);
    forall i | 0 <= i < |cells| ensures Good(n)(cells[i]) { assert Good(n)(node.cells[i]); }
  }

  lemma {:induction false} FrameRule(c: Ctx<Entry>, d: nat, ok: PageRule<Entry>)
    requires d < Depth(c) && CtxAll(c, ok)
    ensures FrameAt(c, d).Frame? && ok(false, FrameAt(c, d).cells)
    decreases c
  {
    if d > 0 { FrameRule(c.up, d - 1, ok); }
  }

  /** `flat` is the tree's sequence without the entry that follows the leaf. */
  ghost predicate RightAfter(whole: Tree<Entry>, c: Ctx<Entry>, d: nat, leaf: Tree<Entry>, flat: seq<Entry>)
    requires RightEdge(c, d)
  {
    var pos := |FlatLeft(c)| + |leaf.cells|;
    pos < |Flat(whole)| && Flat(whole)[pos] == Next(c, d) && flat == Without(Flat(whole), pos)
  }

  lemma SwapSequence(whole: Tree<Entry>, c: Ctx<Entry>, d: nat, leaf: Tree<Entry>, flat: seq<Entry>)
    requires leaf.TLeaf? && |leaf.cells| > 0 && CtxShape(c, 0) && Plug(c, leaf) == whole && RightEdge(c, d)
    requires
      var k := |leaf.cells| - 1;
      var c' := Redivide(c, d, leaf.cells[k]);
      flat == FlatLeft(c') + leaf.cells[..k] + FlatRight(c')
    ensures RightAfter(whole, c, d, leaf, flat)
  {
    var k := |leaf.cells| - 1;
    PlugFlat(c, leaf, 0);
    var tail := RedivideFlat(c, d, leaf.cells[k]);
    SwapShuffle(FlatLeft(c), leaf.cells, Next(c, d), tail);
  }

  lemma SwapShuffle<X>(l: seq<X>, x: seq<X>, div: X, tail: seq<X>)
    requires |x| > 0
    ensures
      var all, pos := l + x + ([div] + tail), |l| + |x|;
      all[pos] == div && l + x[..|x| - 1] + ([x[|x| - 1]] + tail) == all[..pos] + all[pos + 1..]
  {
    var all, pos := l + x + ([div] + tail), |l| + |x|;
    assert all[..pos] == l + x && all[pos + 1..] == tail;
    assert x == x[..|x| - 1] + [x[|x| - 1]];
  }

  /** The leaf a deletion takes its cell from: the entry's own leaf, or the leaf
      whose last cell takes the place of a divider d frames up. */
  datatype Where =
    | InLeaf(c: Ctx<Entry>, leaf: Tree<Entry>, slot: nat)
    | Divider(c: Ctx<Entry>, leaf: Tree<Entry>, d: nat)

  /** `w` is where the entry with this key is taken out of the tree. */
  ghost predicate Marks(w: Where, t: Tree<Entry>, key: Key) {
    && w.leaf.TLeaf? && Plug(w.c, w.leaf) == t
    && match w
       case InLeaf(_, leaf, slot) => slot < |leaf.cells| && CompareKeys(key, leaf.cells[slot].key) == 0
       case Divider(c, leaf, d) => |leaf.cells| > 0 && RightEdge(c, d) && CompareKeys(key, Next(c, d).key) == 0
  }

  /** The deletion goes through: a replaced divider fits in its page, and an
      emptied leaf can be repaired. */
  ghost predicate Fits(w: Where, root: PageId)
    requires w.leaf.TLeaf? && (w.Divider? ==> |w.leaf.cells| > 0 && RightEdge(w.c, w.d))
  {
    match w
    case InLeaf(c, leaf, _) => |leaf.cells| > 1 || RepairFits(c, true, root)
    case Divider(c, leaf, d) =>
      var e := leaf.cells[|leaf.cells| - 1];
      EdgeDepth(c, d);
      && DividerFits(FrameAt(c, d), e)
      && (|leaf.cells| > 1 || RepairFits(Redivide(c, d, e), true, root))
  }

  ghost predicate DividerFits(f: Ctx<Entry>, e: Entry) {
    f.Frame? && |f.left| < |f.cells| && Bytes(f.cells[|f.left| := e], InteriorWeight) <= INTERIOR_ROOM
  }

  datatype Outcome = Missing | Gone | Stuck(clean: bool)

  /** How a deletion at this place ends. A divider that does not fit is noticed
      before the first write; a rotation that does not fit only after it. */
  ghost function Forecast(w: Where, root: PageId): Outcome
    requires w.leaf.TLeaf? && (w.Divider? ==> |w.leaf.cells| > 0 && RightEdge(w.c, w.d))
  {
    if !Replaceable(w) then Stuck(true)
    else if Fits(w, root) then Gone
    else Stuck(false)
  }

  /** The entry is on a leaf, or its predecessor fits in its place. */
  ghost predicate Replaceable(w: Where)
    requires w.Divider? ==> w.leaf.TLeaf? && |w.leaf.cells| > 0 && RightEdge(w.c, w.d)
  {
    match w
    case InLeaf(_, _, _) => true
    case Divider(c, leaf, d) =>
      EdgeDepth(c, d);
      DividerFits(FrameAt(c, d), leaf.cells[|leaf.cells| - 1])
  }

  /** Of `s` exactly the entry with this key is gone. */
  ghost predicate Dropped(s: seq<Entry>, key: Key, pos: nat, s': seq<Entry>) {
    pos < |s| && CompareKeys(key, s[pos].key) == 0 && s' == Without(s, pos)
  }

  /** The outcome is what the page space allows, wherever the key's place is. */
  ghost predicate Foretold(r: Outcome, t: Tree<Entry>, key: Key, root: PageId) {
    forall w :: Marks(w, t, key) ==> r == Forecast(w, root)
  }

  // ---- The key determines the place ----

  /** Where in the sequence the entry stands that is taken out at `w`. */
  ghost function Position(w: Where): nat {
    |FlatLeft(w.c)| + match w case InLeaf(_, _, slot) => slot case Divider(_, leaf, _) => |leaf.cells|
  }

  lemma MarkedPosition(w: Where, t: Tree<Entry>, h: nat, key: Key)
    requires Marks(w, t, key) && Shape(t, h)
    ensures Position(w) < |Flat(t)| && CompareKeys(key, Flat(t)[Position(w)].key) == 0
  {
    LeafDepth(w.c, w.leaf, h);
    PlugFlat(w.c, w.leaf, 0);
    if w.Divider? {
      var tail := RedivideFlat(w.c, w.d, Next(w.c, w.d));
    }
  }

  /** At most one entry of an ascending sequence has a given full key. */
  lemma OneMatch(s: seq<Entry>, n: nat, key: Key, i: nat, j: nat)
    requires Sorted(s) && SameArity(s, n) && |key| == n && i < |s| && j < |s|
    requires CompareKeys(key, s[i].key) == 0 && CompareKeys(key, s[j].key) == 0
    ensures i == j
  {
    assert HasArity(s, n, i) && HasArity(s, n, j) && Ascends(s, i, j) && Ascends(s, j, i);
    if i < j { KeysTransitive(key, s[i].key, s[j].key); }
    if j < i { KeysTransitive(key, s[j].key, s[i].key); }
  }

  lemma {:induction false} OneEdge(c: Ctx<Entry>, d1: nat, d2: nat)
    requires RightEdge(c, d1) && RightEdge(c, d2)
    ensures d1 == d2
    decreases c
  {
    if d1 > 0 && d2 > 0 { OneEdge(c.up, d1 - 1, d2 - 1); }
  }

  /** A full key marks at most one place, so how its deletion ends can be told
      from the tree and the key alone. */
  lemma MarksUnique(w1: Where, w2: Where, t: Tree<Entry>, h: nat, n: nat, key: Key)
    requires Shape(t, h) && Sorted(Flat(t)) && SameArity(Flat(t), n) && |key| == n
    requires Marks(w1, t, key) && Marks(w2, t, key)
    ensures w1 == w2
  {
    MarkedPosition(w1, t, h, key);
    MarkedPosition(w2, t, h, key);
    OneMatch(Flat(t), n, key, Position(w1), Position(w2));
    SameLeaf(t, h, w1.c, w1.leaf, w2.c, w2.leaf, Position(w1));
    if w1.Divider? && w2.Divider? { OneEdge(w1.c, w1.d, w2.d); }
  }

  lemma ChainWithout(m: map<PageId, Page<Entry>>, s: seq<Entry>, pos: nat, others: multiset<PageId>)
    requires pos < |s|
    ensures ChainIds(s) + others == ChainIds(Without(s, pos)) + others + Tally(s[pos].chain)
    ensures ChainsLinked(m, s) <==> ChainsLinked(m, Without(s, pos)) && OverflowLinks(m, s[pos].chain)
  {
    assert s == s[..pos] + [s[pos]] + s[pos + 1..];
    ChainInsert(m, s[..pos], s[pos], s[pos + 1..]);
  }

  lemma SortedWithout(s: seq<Entry>, pos: nat, n: nat)
    requires Sorted(s) && SameArity(s, n) && pos < |s|
    ensures Sorted(Without(s, pos)) && SameArity(Without(s, pos), n)
  {
    var r := Without(s, pos);
    forall i ensures HasArity(r, n, i) {
      if 0 <= i < |r| { assert HasArity(s, n, if i < pos then i else i + 1); }
    }
    forall i, j ensures Ascends(r, i, j) {
      if 0 <= i < j < |r| { assert Ascends(s, if i < pos then i else i + 1, if j < pos then j else j + 1); }
    }
  }

  lemma DeleteDone(m: map<PageId, Page<Entry>>, m': map<PageId, Page<Entry>>, used': multiset<PageId>,
                   s: seq<Entry>, pos: nat, t': Tree<Entry>, h': nat, n: nat, others: multiset<PageId>)
    requires Sorted(s) && SameArity(s, n) && ChainsLinked(m, s) && pos < |s|
    requires Repaired(m', used', t', h', n, ChainIds(Without(s, pos)) + others) && Flat(t') == Without(s, pos)
    requires Agree(m, m', ChainIds(Without(s, pos)) + others)
    ensures Wf(m', used', t', h', n, others) && Agree(m, m', others)
  {
    ChainWithout(m, s, pos, others);
    SortedWithout(s, pos, n);
    AgreeSub(m, m', ChainIds(Without(s, pos)) + others, ChainIds(Without(s, pos)));
    AgreeSub(m, m', ChainIds(Without(s, pos)) + others, others);
    ChainsFrame(m, m', Without(s, pos));
  }

  lemma LeafSequence(whole: Tree<Entry>, c: Ctx<Entry>, leaf: Tree<Entry>, slot: nat)
    requires leaf.TLeaf? && slot < |leaf.cells| && CtxShape(c, 0) && Plug(c, leaf) == whole
    ensures
      var s, pos := Flat(whole), |FlatLeft(c)| + slot;
      pos < |s| && s[pos] == leaf.cells[slot] && Without(s, pos) == FlatLeft(c) + Without(leaf.cells, slot) + FlatRight(c)
  {
    PlugFlat(c, leaf, 0);
    TakeOut(FlatLeft(c), leaf.cells, slot, FlatRight(c));
  }

  lemma TakeOut(l: seq<Entry>, m: seq<Entry>, slot: nat, r: seq<Entry>)
    requires slot < |m|
    ensures
      var s, pos := l + m + r, |l| + slot;
      pos < |s| && s[pos] == m[slot] && Without(s, pos) == l + Without(m, slot) + r
  {
    var s, pos := l + m + r, |l| + slot;
    assert s[..pos] == l + m[..slot];
    assert s[pos + 1..] == m[slot + 1..] + r;
  }

  /** Where a divider stands in the sequence. */
  lemma DividerPosition(whole: Tree<Entry>, c: Ctx<Entry>, node: Tree<Entry>, h: nat, slot: nat) returns (pos: nat)
    requires Plug(c, node) == whole && node.TNode? && CtxShape(c, h) && Shape(node, h) && slot < |node.cells|
    ensures pos < |Flat(whole)| && Flat(whole)[pos] == node.cells[slot]
  {
    PlugFlat(c, node, h);
    FlatSplit(node.cells, node.kids, slot);
    pos := |FlatLeft(c)| + |FlatKids(node.cells[..slot], node.kids[..slot + 1])|;
  }

  /** Keys are distinct, so two places that hold the same entry are one place. */
  lemma SamePosition(whole: Tree<Entry>, pos: nat, c: Ctx<Entry>, d: nat, leaf: Tree<Entry>, flat: seq<Entry>)
    requires Sorted(Flat(whole)) && RightEdge(c, d) && pos < |Flat(whole)| && Flat(whole)[pos] == Next(c, d)
    requires RightAfter(whole, c, d, leaf, flat)
    ensures flat == Without(Flat(whole), pos)
  {
    KeysAntisymmetric(Next(c, d).key, Next(c, d).key);
    var other := |FlatLeft(c)| + |leaf.cells|;
    assert Ascends(Flat(whole), pos, other) && Ascends(Flat(whole), other, pos);
  }

  /** The entry is gone: everything else is where it was in the order. */
  ghost predicate Erased(m: map<PageId, Page<Entry>>, m': map<PageId, Page<Entry>>, used': multiset<PageId>,
                         whole: Tree<Entry>, pos: nat, key: Key, t: Tree<Entry>, h: nat, n: nat, others: multiset<PageId>)
  {
    && pos < |Flat(whole)| && CompareKeys(key, Flat(whole)[pos].key) == 0 && Flat(t) == Without(Flat(whole), pos)
    && Wf(m', used', t, h, n, others) && t.id == whole.id && Agree(m, m', others)
  }

  /** The entry is gone, and another one with it: the pages are within their limits
      and the tree has one depth, but one entry stands where another should. The
      overflow pages of all entries that should be there are still the index's own. */
  ghost predicate Damaged(m: map<PageId, Page<Entry>>, m': map<PageId, Page<Entry>>, used': multiset<PageId>,
                          whole: Tree<Entry>, pos: nat, key: Key, t: Tree<Entry>, h: nat, n: nat, others: multiset<PageId>)
  {
    && pos < |Flat(whole)| && CompareKeys(key, Flat(whole)[pos].key) == 0 && Spoilt(Without(Flat(whole), pos), Flat(t))
    && Repaired(m', used', t, h, n, ChainIds(Without(Flat(whole), pos)) + others) && t.id == whole.id
    && Agree(m, m', ChainIds(Without(Flat(whole), pos)) + others)
  }

  lemma NotAbsent(s: seq<Entry>, pos: nat, key: Key)
    requires pos < |s| && CompareKeys(key, s[pos].key) == 0
    ensures !Absent(s, key)
  {
  }

  /** Before a removal: the leaf as the operation needs it, and what it must keep. */
  lemma LeafReady(m: map<PageId, Page<Entry>>, used: multiset<PageId>, whole: Tree<Entry>, height: nat, n: nat,
                  others: multiset<PageId>, key: Key, path: seq<Step>, c: Ctx<Entry>, leaf: Tree<Entry>, slot: nat)
    returns (pos: nat, keep: multiset<PageId>)
    requires Wf(m, used, whole, height, n, others) && leaf.TLeaf? && At(m, whole, path, c, leaf, 0)
    requires slot < |leaf.cells| && CompareKeys(key, leaf.cells[slot].key) == 0
    ensures pos == |FlatLeft(c)| + slot < |Flat(whole)| && Flat(whole)[pos] == leaf.cells[slot] && CtxShape(c, 0)
    ensures keep == ChainIds(Without(Flat(whole), pos)) + others
    ensures Spot(m, used, c, leaf, n, keep + Tally(leaf.cells[slot].chain)) && OverflowLinks(m, leaf.cells[slot].chain)
    ensures !Absent(Flat(whole), key)
    ensures Follows(path, c) && whole.id == (if c.Top? then leaf.id else RootPage(c))
  {
    hide Without, Spot, Flat, FlatLeft, FlatRight, Plug;
    pos := |FlatLeft(c)| + slot;
    LeafSequence(whole, c, leaf, slot);
    keep := ChainIds(Without(Flat(whole), pos)) + others;
    NotAbsent(Flat(whole), pos, key);
    ChainWithout(m, Flat(whole), pos, others);
    SpotOf(m, used, whole, height, n, others, path, c, leaf);
    FollowsDepth(path, c);
  }

  /** After a removal: the repaired tree is the old one without that entry, or spoilt. */
  lemma NowErased(ok: bool, m: map<PageId, Page<Entry>>, m': map<PageId, Page<Entry>>, used: multiset<PageId>, used': multiset<PageId>,
                  whole: Tree<Entry>, height: nat, pos: nat, key: Key, t: Tree<Entry>, h: nat, n: nat,
                  others: multiset<PageId>, keep: multiset<PageId>)
    requires Wf(m, used, whole, height, n, others) && pos < |Flat(whole)| && CompareKeys(key, Flat(whole)[pos].key) == 0
    requires keep == ChainIds(Without(Flat(whole), pos)) + others && Agree(m, m', keep)
    requires Repaired(m', used', t, h, n, keep) && t.id == whole.id && Result(ok, Without(Flat(whole), pos), Flat(t))
    ensures if ok then Erased(m, m', used', whole, pos, key, t, h, n, others) else Damaged(m, m', used', whole, pos, key, t, h, n, others)
  {
    AgreeSub(m, m', keep, others);
    if ok { DeleteDone(m, m', used', Flat(whole), pos, t, h, n, others); }
  }

  method DeleteFromLeaf(s: PageStore<Entry>, root: PageId, key: Key, place: Place,
      ghost whole: Tree<Entry>, ghost height: nat, ghost n: nat, ghost others: multiset<PageId>, ghost c: Ctx<Entry>, ghost leaf: Tree<Entry>)
    returns (r: Outcome, ghost pos: nat, ghost w: Where, ghost t: Tree<Entry>, ghost h: nat)
    requires s.Valid() && Wf(s.pages, s.used, whole, height, n, others) && whole.id == root
    requires leaf.TLeaf? && At(s.pages, whole, place.path, c, leaf, 0)
    requires place.page == leaf.id && place.slot < |leaf.cells| && CompareKeys(key, leaf.cells[place.slot].key) == 0
    modifies s
    ensures !Absent(Flat(whole), key) && (r.Gone? || r == Stuck(false))
    ensures Marks(w, whole, key) && r == Forecast(w, root)
    ensures s.Valid()
    ensures r.Gone? ==> Erased(old(s.pages), s.pages, s.used, whole, pos, key, t, h, n, others)
    ensures r == Stuck(false) ==> Damaged(old(s.pages), s.pages, s.used, whole, pos, key, t, h, n, others)
  {
    hide PageStore.Valid, Wf, Without, Flat, FlatLeft, FlatRight, Repaired, Spoilt, Erased, Damaged;
    w := InLeaf(c, leaf, place.slot);
    ghost var keep;
    pos, keep := LeafReady(s.pages, s.used, whole, height, n, others, key, place.path, c, leaf, place.slot);
    var ok;
    LeafSequence(whole, c, leaf, place.slot);
    ok, t, h := RemoveFromLeaf(s, root, place.path, place.page, place.slot, c, leaf, n, keep);
    NowErased(ok, old(s.pages), s.pages, old(s.used), s.used, whole, height, pos, key, t, h, n, others, keep);
    r := if ok then Gone else Stuck(false);
  }

  lemma DividerReady(m: map<PageId, Page<Entry>>, used: multiset<PageId>, whole: Tree<Entry>, height: nat, n: nat,
                     others: multiset<PageId>, key: Key, path: seq<Step>, c: Ctx<Entry>, node: Tree<Entry>, h: nat, slot: nat)
    returns (pos: nat, keep: multiset<PageId>)
    requires Wf(m, used, whole, height, n, others) && node.TNode? && At(m, whole, path, c, node, h)
    requires slot < |node.cells| && CompareKeys(key, node.cells[slot].key) == 0
    ensures pos < |Flat(whole)| && Flat(whole)[pos] == node.cells[slot] && keep == ChainIds(Without(Flat(whole), pos)) + others
    ensures ChainIds(Flat(whole)) + others == keep + Tally(node.cells[slot].chain) && OverflowLinks(m, node.cells[slot].chain)
    ensures !Absent(Flat(whole), key)
  {
    pos := DividerPosition(whole, c, node, h, slot);
    keep := ChainIds(Without(Flat(whole), pos)) + others;
    NotAbsent(Flat(whole), pos, key);
    ChainWithout(m, Flat(whole), pos, others);
  }

  method DeleteDivider(s: PageStore<Entry>, root: PageId, key: Key, place: Place,
      ghost whole: Tree<Entry>, ghost height: nat, ghost n: nat, ghost others: multiset<PageId>,
      ghost c0: Ctx<Entry>, ghost node: Tree<Entry>, ghost h0: nat)
    returns (r: Outcome, ghost pos: nat, ghost w: Where, ghost t: Tree<Entry>, ghost h: nat)
    requires s.Valid() && Wf(s.pages, s.used, whole, height, n, others) && whole.id == root
    requires node.TNode? && At(s.pages, whole, place.path, c0, node, h0)
    requires place.page == node.id && place.slot < |node.cells| && CompareKeys(key, node.cells[place.slot].key) == 0
    modifies s
    ensures !Absent(Flat(whole), key) && !r.Missing?
    ensures r == Stuck(true) ==> s.Now() == old(s.Now()) && s.used == old(s.used) && t == whole && h == height
    ensures Marks(w, whole, key) && r == Forecast(w, root)
    ensures s.Valid()
    ensures r.Gone? ==> Erased(old(s.pages), s.pages, s.used, whole, pos, key, t, h, n, others)
    ensures r == Stuck(false) ==> Damaged(old(s.pages), s.pages, s.used, whole, pos, key, t, h, n, others)
  {
    ghost var keep;
    pos, keep := DividerReady(s.pages, s.used, whole, height, n, others, key, place.path, c0, node, h0, place.slot);
    ghost var c, d, leaf, flat;
    var removal;
    removal, c, d, leaf, flat, t, h := RemoveDivider(s, root, place.path, place.page, place.slot, whole, height, n, others,
                                               c0, node, h0, keep);
    w := Divider(c, leaf, d);
    DividerMarks(c, d, leaf, whole, key, c0, node, place.slot, root);
    if removal.DividerTooLong? {
      r := Stuck(true);
      return;
    }
    SamePosition(whole, pos, c, d, leaf, flat);
    NowErased(removal.Removed?, old(s.pages), s.pages, old(s.used), s.used, whole, height, pos, key, t, h, n, others, keep);
    r := if removal.Removed? then Gone else Stuck(false);
  }

  lemma DividerMarks(c: Ctx<Entry>, d: nat, leaf: Tree<Entry>, whole: Tree<Entry>, key: Key, c0: Ctx<Entry>, node: Tree<Entry>,
                     slot: nat, root: PageId)
    requires leaf.TLeaf? && |leaf.cells| > 0 && Plug(c, leaf) == whole && node.TNode? && slot < |node.cells| && slot < |node.kids|
    requires RightEdge(c, d) && d < Depth(c) && FrameAt(c, d) == Enter(c0, node, slot) && Next(c, d) == node.cells[slot]
    requires CompareKeys(key, node.cells[slot].key) == 0
    ensures Marks(Divider(c, leaf, d), whole, key)
    ensures
      var e := leaf.cells[|leaf.cells| - 1];
      Forecast(Divider(c, leaf, d), root) ==
        if Bytes(node.cells[slot := e], InteriorWeight) > INTERIOR_ROOM then Stuck(true)
        else if |leaf.cells| > 1 || RepairFits(Redivide(c, d, e), true, root) then Gone
        else Stuck(false)
  {
    assert FrameAt(c, d).cells == node.cells && |FrameAt(c, d).left| == slot;
  }
}
