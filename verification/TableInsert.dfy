/** Inserting into a table b-tree. A full leaf is cut in two, and a copy of the
    last rowid on the left becomes the fence between the halves. */
module TableInsert {
  import opened Basics
  import opened TreeCells
  import opened Trees
  import opened Store
  import opened Split
  import opened Cascade
  import opened Descent
  import opened CellSizes
  import opened TableTree

  /** Both sides of the cut fit on a page. */
  ghost predicate FitsAt(cells: seq<Item>, k: nat)
    requires k <= |cells|
  {
    Bytes(cells[..k], LeafWeight) <= LEAF_ROOM && Bytes(cells[k..], LeafWeight) <= LEAF_ROOM
  }

  /** Some contiguous cut in two fits. */
  ghost predicate CanSplit(cells: seq<Item>) {
    exists k :: 1 <= k < |cells| && FitsAt(cells, k)
  }

  /** Where to cut, and whether the halves fit. If they do not, no cut would do. */
  method ChooseCut(cells: seq<Item>, append: bool) returns (cut: nat, ok: bool)
    requires |cells| >= 2 && (append ==> Bytes(cells[..|cells| - 1], LeafWeight) <= LEAF_ROOM)
    ensures 1 <= cut < |cells| && (ok <==> FitsAt(cells, cut)) && (ok <==> CanSplit(cells))
    ensures if append then ok && cut == |cells| - 1 else MostEven(cells, cut, LeafWeight)
  {
    if append {
      cut, ok := |cells| - 1, true;
      assert cells[cut..] == [cells[cut]];
      BytesOne(cells[cut], LeafWeight);
      return;
    }
    cut := ClosestToHalf(cells, LeafWeight);
    var left := TotalBytes(cells[..cut], LeafWeight);
    var right := TotalBytes(cells[cut..], LeafWeight);
    ok := left <= LEAF_ROOM && right <= LEAF_ROOM;
    forall k | 1 <= k < |cells| && FitsAt(cells, k) ensures ok { CutIsOptimal(cells, cut, k, LeafWeight); }
  }

  ghost function WithCell(leaf: Tree<Item>, slot: nat, x: Item): seq<Item>
    requires leaf.TLeaf? && slot <= |leaf.cells|
  {
    leaf.cells[..slot] + [x] + leaf.cells[slot..]
  }

  /** The cells of a leaf cut at `cut`, with the fence in between; 0 is no cut. */
  ghost function Fenced(cells: seq<Item>, cut: nat): seq<Item>
    requires cut < |cells| && cells[if cut == 0 then 0 else cut - 1].Row?
  {
    if cut == 0 then cells else cells[..cut] + [Fence(cells[cut - 1].rowid)] + cells[cut..]
  }

  lemma WithCellFacts(leaf: Tree<Item>, slot: nat, x: Item)
    requires leaf.TLeaf? && slot <= |leaf.cells|
    ensures Bytes(WithCell(leaf, slot, x), LeafWeight) == Bytes(leaf.cells, LeafWeight) + LeafWeight(x)
    ensures AllGood(leaf.cells, GoodRow) && GoodRow(x) ==> AllGood(WithCell(leaf, slot, x), GoodRow)
  {
    assert leaf.cells[slot..slot] == [];
    BytesSplice(leaf.cells, slot, slot, [x], LeafWeight);
    BytesOne(x, LeafWeight);
  }

  /** What an insertion leaves behind, before the order is considered. */
  ghost predicate Inserted(m: map<PageId, Page<Item>>, used: multiset<PageId>, t: Tree<Item>, h: nat, keep: multiset<PageId>) {
    Rep(m, t) && Shape(t, h) && AllPages(t, Rule) && used == NodeIds(t) + keep
  }

  /** The leaf has room. */
  method PutInLeaf(s: PageStore<Item>, page: PageId, slot: nat, x: Item,
      ghost c: Ctx<Item>, ghost leaf: Tree<Item>, ghost keep: multiset<PageId>)
    returns (ghost t: Tree<Item>, ghost height: nat)
    requires s.Valid() && Spot(s.pages, s.used, c, leaf, keep) && page == leaf.id && slot <= |leaf.cells|
    requires GoodRow(x) && Bytes(leaf.cells, LeafWeight) + LeafWeight(x) <= LEAF_ROOM
    modifies s
    ensures s.Valid() && Agree(old(s.pages), s.pages, keep)
    ensures Inserted(s.pages, s.used, t, height, keep) && t == Plug(c, TLeaf(page, WithCell(leaf, slot, x)))
  {
    var cells := s.pages[page].cells;
    s.Write(page, LeafPage(cells[..slot] + [x] + cells[slot..]));
    WithCellFacts(leaf, slot, x);
    t, height := LeafRewritten(old(s.pages), s.pages, s.used, c, leaf, WithCell(leaf, slot, x), keep);
  }

  lemma LeafRewritten(m: map<PageId, Page<Item>>, m': map<PageId, Page<Item>>, used: multiset<PageId>,
                      c: Ctx<Item>, leaf: Tree<Item>, cells: seq<Item>, keep: multiset<PageId>)
    returns (t: Tree<Item>, height: nat)
    requires Spot(m, used, c, leaf, keep) && Rule(true, cells) && Agree(m, m', used - multiset{leaf.id})
    requires leaf.id in m' && m'[leaf.id] == LeafPage(cells)
    ensures Inserted(m', used, t, height, keep) && t == Plug(c, TLeaf(leaf.id, cells)) && Agree(m, m', keep)
  {
    AgreeSub(m, m', used - multiset{leaf.id}, keep);
    AgreeSub(m, m', used - multiset{leaf.id}, CtxIds(c));
    CtxFrame(m, m', c, leaf.id);
    t := Plug(c, TLeaf(leaf.id, cells));
    height := Reassemble(m', c, TLeaf(leaf.id, cells), 0, Rule);
  }

  ghost predicate CutOk(cells: seq<Item>, cut: nat) {
    1 <= cut < |cells| && AllGood(cells, GoodRow) && FitsAt(cells, cut)
  }

  lemma HalvesAreLeaves(cells: seq<Item>, cut: nat)
    requires CutOk(cells, cut)
    ensures Rule(true, cells[..cut]) && Rule(true, cells[cut..]) && cells[cut - 1].Row?
    ensures GoodFence(Fence(cells[cut - 1].rowid)) && Rule(false, [Fence(cells[cut - 1].rowid)])
  {
    assert GoodRow(cells[cut - 1]);
    BytesOne(Fence(cells[cut - 1].rowid), FenceWeight);
    var left, right := cells[..cut], cells[cut..];
    forall i | 0 <= i < |left| ensures GoodRow(left[i]) { assert GoodRow(cells[i]); }
    forall i | 0 <= i < |right| ensures GoodRow(right[i]) { assert GoodRow(cells[cut + i]); }
  }

  /** The root is a full leaf: it becomes an interior page over two fresh leaves. */
  method SplitRootLeaf(s: PageStore<Item>, root: PageId, cells: seq<Item>, cut: nat,
      ghost leaf: Tree<Item>, ghost keep: multiset<PageId>)
    returns (ghost t: Tree<Item>, ghost height: nat)
    requires s.Valid() && Spot(s.pages, s.used, Top, leaf, keep) && root == leaf.id && CutOk(cells, cut) && cells[cut - 1].Row?
    modifies s
    ensures s.Valid() && Agree(old(s.pages), s.pages, keep)
    ensures Inserted(s.pages, s.used, t, height, keep) && t.id == root && Flat(t) == Fenced(cells, cut)
  {
    hide PageStore.Valid;
    HalvesAreLeaves(cells, cut);
    var fence := Fence(cells[cut - 1].rowid);
    var rightId := s.NewPage(LeafPage(cells[cut..]));
    ghost var m1, u1 := s.pages, s.used;
    var leftId := s.NewPage(LeafPage(cells[..cut]));
    ghost var m2 := s.pages;
    assert Same(m1, m2, rightId);
    s.Write(root, InteriorPage([Routed(leftId, fence)], rightId));
    AgreeSub(old(s.pages), m1, old(s.used), keep);
    AgreeSub(m1, m2, u1, keep);
    AgreeSub(m2, s.pages, s.used - multiset{root}, keep);
    AgreeTrans(old(s.pages), m1, m2, keep);
    AgreeTrans(old(s.pages), m2, s.pages, keep);
    ghost var L, R := TLeaf(leftId, cells[..cut]), TLeaf(rightId, cells[cut..]);
    RootOver(s.pages, root, L, fence, R, 0, Rule);
    t, height := TNode(root, [fence], [L, R]), 1;
  }

  /** Any other full leaf keeps its left half and hands the fence to the cascade. */
  method SplitInnerLeaf(s: PageStore<Item>, path: seq<Step>, page: PageId, cells: seq<Item>, cut: nat,
      ghost c: Ctx<Item>, ghost leaf: Tree<Item>, ghost keep: multiset<PageId>)
    returns (ghost t: Tree<Item>, ghost height: nat)
    requires s.Valid() && Spot(s.pages, s.used, c, leaf, keep) && page == leaf.id && CutOk(cells, cut) && cells[cut - 1].Row?
    requires c.Frame? && Follows(path, c)
    modifies s
    ensures s.Valid() && Agree(old(s.pages), s.pages, keep)
    ensures Inserted(s.pages, s.used, t, height, keep) && t.id == path[0].page
    ensures Flat(t) == FlatLeft(c) + Fenced(cells, cut) + FlatRight(c)
  {
    HalvesAreLeaves(cells, cut);
    RuleIsInteriorRule();
    var fence := Fence(cells[cut - 1].rowid);
    var rightId := s.NewPage(LeafPage(cells[cut..]));
    ghost var m1 := s.pages;
    s.Write(page, LeafPage(cells[..cut]));
    ghost var m2 := s.pages;
    ghost var L, R := TLeaf(page, cells[..cut]), TLeaf(rightId, cells[cut..]);
    LeafHalved(old(s.pages), m1, m2, old(s.used), s.used, c, leaf, L, R, keep, Rule);
    t, height := PromoteSeparator(s, FenceWeight, path, page, fence, rightId, c, L, R, 0, keep, Rule, GoodFence);
    AgreeTrans(old(s.pages), m2, s.pages, keep);
    PendingFlat(c, L, fence, R, 0);
  }

  /** The cut for a leaf that must take one more row. */
  method CutFor(s: PageStore<Item>, path: seq<Step>, cells: seq<Item>, slot: nat, draft: Item,
      ghost c: Ctx<Item>, ghost leaf: Tree<Item>)
    returns (cut: nat, ok: bool)
    requires leaf.TLeaf? && LeafFits(leaf.cells) && cells == leaf.cells && slot <= |cells| && draft.Row?
    requires CtxRep(s.pages, c, leaf.id) && Follows(path, c) && NoneBelow(cells[slot..], Below(draft.rowid))
    requires AllBelow(cells[..slot], Below(draft.rowid))
    requires Bytes(cells, LeafWeight) + LeafWeight(draft) > LEAF_ROOM
    ensures
      var all := WithCell(leaf, slot, draft);
      && 1 <= cut < |all| && (ok <==> FitsAt(all, cut)) && (ok <==> CanSplit(all))
      && (if slot == |cells| && LastChild(c) then cut == slot else MostEven(all, cut, LeafWeight))
  {
    var rightmost := |path| == 0 || path[|path| - 1].slot == |s.pages[path[|path| - 1].page].routed|;
    var append := rightmost && (|cells| == 0 || Below(draft.rowid)(cells[|cells| - 1]));
    LastIsBelow(cells, slot, Below(draft.rowid));
    assert rightmost <==> LastChild(c);
    var all := cells[..slot] + [draft] + cells[slot..];
    if append { assert all[..|all| - 1] == cells; }
    cut, ok := ChooseCut(all, append);
  }

  /** The cut chosen for the draft is right for the real cell: they weigh the same. */
  lemma SameButDraft(leaf: Tree<Item>, slot: nat, draft: Item, x: Item)
    requires leaf.TLeaf? && slot <= |leaf.cells| && LeafWeight(draft) == LeafWeight(x)
    ensures
      var a, b := WithCell(leaf, slot, draft), WithCell(leaf, slot, x);
      |a| == |b| && forall i :: 0 <= i < |a| ==> LeafWeight(a[i]) == LeafWeight(b[i])
  {
  }

  lemma DraftCut(leaf: Tree<Item>, slot: nat, draft: Item, x: Item, cut: nat)
    requires leaf.TLeaf? && slot <= |leaf.cells| && LeafFits(leaf.cells) && GoodRow(x)
    requires draft.Row? && draft.rowid == x.rowid && draft.payload == x.payload
    requires 1 <= cut < |WithCell(leaf, slot, draft)| && FitsAt(WithCell(leaf, slot, draft), cut)
    ensures CutOk(WithCell(leaf, slot, x), cut) && WithCell(leaf, slot, x)[cut - 1].Row?
  {
    WithCellFacts(leaf, slot, x);
    SameButDraft(leaf, slot, draft, x);
    hide LeafWeight;
    var a, b := WithCell(leaf, slot, draft), WithCell(leaf, slot, x);
    SameWeights(a[..cut], b[..cut], LeafWeight);
    SameWeights(a[cut..], b[cut..], LeafWeight);
    assert GoodRow(b[cut - 1]);
  }

  /** A full leaf that can be cut: write the overflow chain, then the pages. */
  method SplitLeaf(s: PageStore<Item>, path: seq<Step>, page: PageId, slot: nat, draft: Item, cut: nat,
      ghost c: Ctx<Item>, ghost leaf: Tree<Item>, ghost keep: multiset<PageId>)
    returns (ghost x: Item, ghost t: Tree<Item>, ghost height: nat)
    requires s.Valid() && Spot(s.pages, s.used, c, leaf, keep) && page == leaf.id && slot <= |leaf.cells|
    requires Follows(path, c) && draft.Row? && InRowidRange(draft.rowid) && |draft.payload| < TWO_64
    requires 1 <= cut < |WithCell(leaf, slot, draft)| && FitsAt(WithCell(leaf, slot, draft), cut)
    modifies s
    ensures x.Row? && x.rowid == draft.rowid && x.payload == draft.payload && GoodRow(x) && OverflowLinks(s.pages, x.chain)
    ensures s.Valid() && Agree(old(s.pages), s.pages, keep)
    ensures Inserted(s.pages, s.used, t, height, keep + Tally(x.chain))
    ensures t.id == (if |path| == 0 then page else path[0].page)
    ensures CutOk(WithCell(leaf, slot, x), cut) && WithCell(leaf, slot, x)[cut - 1].Row?
    ensures Flat(t) == FlatLeft(c) + Fenced(WithCell(leaf, slot, x), cut) + FlatRight(c)
  {
    var cells := s.pages[page].cells;
    var chain := s.WriteOverflowChain(ChainPages(TABLE_MAX_LOCAL, |draft.payload|));
    var row := Row(draft.rowid, draft.payload, chain);
    x := row;
    ChainWritten(old(s.pages), s.pages, old(s.used), c, leaf, chain, keep, Rule);
    DraftCut(leaf, slot, draft, x, cut);
    ghost var m1 := s.pages;
    t, height := SplitAt(s, path, page, cells[..slot] + [row] + cells[slot..], cut, c, leaf, keep + Tally(chain));
    ChainKept(old(s.pages), m1, s.pages, old(s.used), chain, keep);
  }

  method SplitAt(s: PageStore<Item>, path: seq<Step>, page: PageId, cells: seq<Item>, cut: nat,
      ghost c: Ctx<Item>, ghost leaf: Tree<Item>, ghost keep: multiset<PageId>)
    returns (ghost t: Tree<Item>, ghost height: nat)
    requires s.Valid() && Spot(s.pages, s.used, c, leaf, keep) && page == leaf.id && CutOk(cells, cut) && cells[cut - 1].Row?
    requires Follows(path, c)
    modifies s
    ensures s.Valid() && Agree(old(s.pages), s.pages, keep)
    ensures Inserted(s.pages, s.used, t, height, keep) && t.id == (if |path| == 0 then page else path[0].page)
    ensures Flat(t) == FlatLeft(c) + Fenced(cells, cut) + FlatRight(c)
  {
    if |path| == 0 {
      t, height := SplitRootLeaf(s, page, cells, cut, leaf, keep);
      assert FlatLeft(c) == [] && FlatRight(c) == [];
      return;
    }
    t, height := SplitInnerLeaf(s, path, page, cells, cut, c, leaf, keep);
  }

  /** A leaf with room: write the overflow chain, then the cell. */
  method PlaceInLeaf(s: PageStore<Item>, path: seq<Step>, page: PageId, slot: nat, draft: Item,
      ghost c: Ctx<Item>, ghost leaf: Tree<Item>, ghost keep: multiset<PageId>)
    returns (ghost x: Item, ghost t: Tree<Item>, ghost height: nat)
    requires s.Valid() && Spot(s.pages, s.used, c, leaf, keep) && page == leaf.id && slot <= |leaf.cells|
    requires Follows(path, c) && draft.Row? && InRowidRange(draft.rowid) && |draft.payload| < TWO_64
    requires Bytes(leaf.cells, LeafWeight) + LeafWeight(draft) <= LEAF_ROOM
    modifies s
    ensures x.Row? && x.rowid == draft.rowid && x.payload == draft.payload && GoodRow(x) && OverflowLinks(s.pages, x.chain)
    ensures s.Valid() && Agree(old(s.pages), s.pages, keep)
    ensures Inserted(s.pages, s.used, t, height, keep + Tally(x.chain))
    ensures t.id == (if |path| == 0 then page else path[0].page)
    ensures Flat(t) == FlatLeft(c) + WithCell(leaf, slot, x) + FlatRight(c)
  {
    var chain := s.WriteOverflowChain(ChainPages(TABLE_MAX_LOCAL, |draft.payload|));
    var row := Row(draft.rowid, draft.payload, chain);
    x := row;
    ChainWritten(old(s.pages), s.pages, old(s.used), c, leaf, chain, keep, Rule);
    ghost var m1 := s.pages;
    t, height := PutInLeaf(s, page, slot, row, c, leaf, keep + Tally(chain));
    ChainKept(old(s.pages), m1, s.pages, old(s.used), chain, keep);
    PlugFlat(c, TLeaf(page, WithCell(leaf, slot, x)), 0);
    PlugTop(c, TLeaf(page, WithCell(leaf, slot, x)));
    FollowsDepth(path, c);
  }
}
