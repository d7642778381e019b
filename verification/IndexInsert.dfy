/** Inserting into an index b-tree. A full leaf is cut in three: a left page, a
    right page, and the entry between them, which moves up for good. */
module IndexInsert {
  import opened Basics
  import opened TreeCells
  import opened Trees
  import opened Store
  import opened Split
  import opened Cascade
  import opened Descent
  import opened Keys
  import opened CellSizes
  import opened IndexTree

  /** Where the leaf is cut: the left page gets all but the last of the first
      `cut` cells, and that last one moves up. Neither side is empty or too big,
      so the two dead ends that the source guards against cannot be reached. */
  method ChooseCut(cells: seq<Entry>, append: bool) returns (cut: nat)
    requires Bounded(cells, LeafWeight, 1017) && |cells| >= 1 && Bytes(cells, LeafWeight) > LEAF_ROOM
    requires append ==> Bytes(cells, LeafWeight) <= LEAF_ROOM + LeafWeight(cells[|cells| - 1])
    requires Bytes(cells, LeafWeight) <= LEAF_ROOM + 1017
    ensures 2 <= cut < |cells|
    ensures Bytes(cells[..cut - 1], LeafWeight) <= LEAF_ROOM && Bytes(cells[cut..], LeafWeight) <= LEAF_ROOM
    ensures if append then cut == |cells| - 1 else MostEven(cells, cut, LeafWeight)
  {
    var n := |cells|;
    assert n > 4 by { BytesAtMost(cells, LeafWeight, 1017); }
    if append {
      cut := n - 1;
      BytesTake(cells, n - 1, LeafWeight);
      assert cells[..n] == cells;
      assert cells[n - 1..] == [cells[n - 1]];
      BytesOne(cells[n - 1], LeafWeight);
    } else {
      cut := ClosestToHalf(cells, LeafWeight);
      BalancedCut(cells, cut, LeafWeight, 1017);
      CutIsInside(cells, cut);
    }
    BytesTake(cells, cut - 1, LeafWeight);
  }

  lemma CutIsInside(cells: seq<Entry>, cut: nat)
    requires Bounded(cells, LeafWeight, 1017) && 1 <= cut < |cells| && Skew(cells, cut, LeafWeight) <= 1017
    requires LEAF_ROOM < Bytes(cells, LeafWeight) <= LEAF_ROOM + 1017
    ensures cut >= 2
    ensures Bytes(cells[..cut], LeafWeight) <= LEAF_ROOM && Bytes(cells[cut..], LeafWeight) <= LEAF_ROOM
  {
    BytesCut(cells, cut, LeafWeight);
    assert LeafWeight(cells[0]) <= 1017;
    BytesTake(cells, 0, LeafWeight);
    assert cells[..0] == [];
  }

  /** What an insertion leaves behind, before the order is considered. */
  ghost predicate Inserted(m: map<PageId, Page<Entry>>, used: multiset<PageId>, t: Tree<Entry>, h: nat, n: nat,
                           keep: multiset<PageId>)
  {
    Rep(m, t) && Shape(t, h) && AllPages(t, Rule(n)) && used == NodeIds(t) + keep
  }

  ghost function WithCell(leaf: Tree<Entry>, slot: nat, e: Entry): seq<Entry>
    requires leaf.TLeaf? && slot <= |leaf.cells|
  {
    leaf.cells[..slot] + [e] + leaf.cells[slot..]
  }

  lemma WithCellFacts(leaf: Tree<Entry>, slot: nat, e: Entry, n: nat)
    requires leaf.TLeaf? && slot <= |leaf.cells| && PageFits(true, leaf.cells, n) && GoodEntry(e, n)
    ensures AllGood(WithCell(leaf, slot, e), Good(n)) && Bounded(WithCell(leaf, slot, e), LeafWeight, 1017)
    ensures Bytes(WithCell(leaf, slot, e), LeafWeight) == Bytes(leaf.cells, LeafWeight) + LeafWeight(e)
  {
    assert leaf.cells[slot..slot] == [];
    BytesSplice(leaf.cells, slot, slot, [e], LeafWeight);
    BytesOne(e, LeafWeight);
    var cells := WithCell(leaf, slot, e);
    forall i | 0 <= i < |cells| ensures Good(n)(cells[i]) {
      assert cells[i] == if i < slot then leaf.cells[i] else if i == slot then e else leaf.cells[i - 1];
    }
  }

  /** The leaf has room. */
  method PutInLeaf(s: PageStore<Entry>, page: PageId, slot: nat, e: Entry,
      ghost c: Ctx<Entry>, ghost leaf: Tree<Entry>, ghost n: nat, ghost keep: multiset<PageId>)
    returns (ghost t: Tree<Entry>, ghost height: nat)
    requires s.Valid() && Spot(s.pages, s.used, c, leaf, n, keep) && page == leaf.id && slot <= |leaf.cells|
    requires GoodEntry(e, n) && Bytes(leaf.cells, LeafWeight) + LeafWeight(e) <= LEAF_ROOM
    modifies s
    ensures s.Valid() && Agree(old(s.pages), s.pages, keep)
    ensures Inserted(s.pages, s.used, t, height, n, keep) && t == Plug(c, TLeaf(page, WithCell(leaf, slot, e)))
  {
    var cells := s.pages[page].cells;
    s.Write(page, LeafPage(cells[..slot] + [e] + cells[slot..]));
    t, height := LeafRewritten(old(s.pages), s.pages, s.used, c, leaf, slot, e, n, keep);
  }

  lemma LeafRewritten(m: map<PageId, Page<Entry>>, m': map<PageId, Page<Entry>>, used: multiset<PageId>,
                      c: Ctx<Entry>, leaf: Tree<Entry>, slot: nat, e: Entry, n: nat, keep: multiset<PageId>)
    returns (t: Tree<Entry>, height: nat)
    requires Spot(m, used, c, leaf, n, keep) && slot <= |leaf.cells| && GoodEntry(e, n)
    requires Bytes(leaf.cells, LeafWeight) + LeafWeight(e) <= LEAF_ROOM
    requires Agree(m, m', used - multiset{leaf.id})
    requires leaf.id in m' && m'[leaf.id] == LeafPage(WithCell(leaf, slot, e))
    ensures Inserted(m', used, t, height, n, keep) && t == Plug(c, TLeaf(leaf.id, WithCell(leaf, slot, e)))
    ensures Agree(m, m', keep)
  {
    WithCellFacts(leaf, slot, e, n);
    AgreeSub(m, m', used - multiset{leaf.id}, keep);
    AgreeSub(m, m', used - multiset{leaf.id}, CtxIds(c));
    CtxFrame(m, m', c, leaf.id);
    var leaf' := TLeaf(leaf.id, WithCell(leaf, slot, e));
    t := Plug(c, leaf');
    height := Reassemble(m', c, leaf', 0, Rule(n));
  }

  /** A leaf cut in three. */
  ghost predicate CutOk(cells: seq<Entry>, cut: nat, n: nat) {
    && 2 <= cut < |cells| && AllGood(cells, Good(n))
    && Bytes(cells[..cut - 1], LeafWeight) <= LEAF_ROOM && Bytes(cells[cut..], LeafWeight) <= LEAF_ROOM
  }

  lemma HalvesAreLeaves(cells: seq<Entry>, cut: nat, n: nat)
    requires CutOk(cells, cut, n)
    ensures Rule(n)(true, cells[..cut - 1]) && Rule(n)(true, cells[cut..]) && GoodEntry(cells[cut - 1], n)
    ensures Rule(n)(false, [cells[cut - 1]])
  {
    BytesOne(cells[cut - 1], InteriorWeight);
    assert Good(n)(cells[cut - 1]);
    var left, right := cells[..cut - 1], cells[cut..];
    forall i | 0 <= i < |left| ensures Good(n)(left[i]) { assert Good(n)(cells[i]); }
    forall i | 0 <= i < |right| ensures Good(n)(right[i]) { assert Good(n)(cells[cut + i]); }
    assert AllGood([cells[cut - 1]], Good(n));
  }

  ghost function Left(page: PageId, cells: seq<Entry>, cut: nat): Tree<Entry>
    requires 2 <= cut < |cells|
  {
    TLeaf(page, cells[..cut - 1])
  }

  ghost function Right(page: PageId, cells: seq<Entry>, cut: nat): Tree<Entry>
    requires 2 <= cut < |cells|
  {
    TLeaf(page, cells[cut..])
  }

  lemma CutFlat(cells: seq<Entry>, cut: nat, a: PageId, b: PageId)
    requires 2 <= cut < |cells|
    ensures Flat(Left(a, cells, cut)) + [cells[cut - 1]] + Flat(Right(b, cells, cut)) == cells
  {
  }

  /** The root is a full leaf: it becomes an interior page over two fresh leaves. */
  method SplitRootLeaf(s: PageStore<Entry>, root: PageId, cells: seq<Entry>, cut: nat,
      ghost leaf: Tree<Entry>, ghost n: nat, ghost keep: multiset<PageId>)
    returns (ghost t: Tree<Entry>, ghost height: nat)
    requires s.Valid() && Spot(s.pages, s.used, Top, leaf, n, keep) && root == leaf.id && CutOk(cells, cut, n)
    modifies s
    ensures s.Valid() && Agree(old(s.pages), s.pages, keep)
    ensures Inserted(s.pages, s.used, t, height, n, keep) && t.id == root && Flat(t) == cells
  {
    hide PageStore.Valid;
    HalvesAreLeaves(cells, cut, n);
    var rightId := s.NewPage(LeafPage(cells[cut..]));
    ghost var m1, u1 := s.pages, s.used;
    var leftId := s.NewPage(LeafPage(cells[..cut - 1]));
    ghost var m2 := s.pages;
    assert Same(m1, m2, rightId);
    s.Write(root, InteriorPage([Routed(leftId, cells[cut - 1])], rightId));
    AgreeSub(old(s.pages), m1, old(s.used), keep);
    AgreeSub(m1, m2, u1, keep);
    AgreeSub(m2, s.pages, s.used - multiset{root}, keep);
    AgreeTrans(old(s.pages), m1, m2, keep);
    AgreeTrans(old(s.pages), m2, s.pages, keep);
    ghost var L, R := Left(leftId, cells, cut), Right(rightId, cells, cut);
    RootOver(s.pages, root, L, cells[cut - 1], R, 0, Rule(n));
    CutFlat(cells, cut, leftId, rightId);
    t, height := TNode(root, [cells[cut - 1]], [L, R]), 1;
  }

  /** Any other full leaf keeps its left part and hands the rest to the cascade. */
  method SplitInnerLeaf(s: PageStore<Entry>, path: seq<Step>, page: PageId, cells: seq<Entry>, cut: nat,
      ghost c: Ctx<Entry>, ghost leaf: Tree<Entry>, ghost n: nat, ghost keep: multiset<PageId>)
    returns (ghost t: Tree<Entry>, ghost height: nat)
    requires s.Valid() && Spot(s.pages, s.used, c, leaf, n, keep) && page == leaf.id && CutOk(cells, cut, n)
    requires c.Frame? && Follows(path, c)
    modifies s
    ensures s.Valid() && Agree(old(s.pages), s.pages, keep)
    ensures Inserted(s.pages, s.used, t, height, n, keep) && t.id == path[0].page
    ensures Flat(t) == FlatLeft(c) + cells + FlatRight(c)
  {
    HalvesAreLeaves(cells, cut, n);
    RuleIsInteriorRule(n);
    var rightId := s.NewPage(LeafPage(cells[cut..]));
    ghost var m1 := s.pages;
    s.Write(page, LeafPage(cells[..cut - 1]));
    ghost var m2 := s.pages;
    ghost var L, R := Left(page, cells, cut), Right(rightId, cells, cut);
    LeafHalved(old(s.pages), m1, m2, old(s.used), s.used, c, leaf, L, R, keep, Rule(n));
    t, height := PromoteSeparator(s, InteriorWeight, path, page, cells[cut - 1], rightId, c, L, R, 0, keep, Rule(n), Good(n));
    AgreeTrans(old(s.pages), m2, s.pages, keep);
    PendingFlat(c, L, cells[cut - 1], R, 0);
    CutFlat(cells, cut, page, rightId);
  }

  /** The cut for a leaf that must take one more cell. Appending past the end of
      the rightmost leaf peels off the new cell alone. */
  method CutFor(s: PageStore<Entry>, path: seq<Step>, cells: seq<Entry>, slot: nat, draft: Entry,
      ghost c: Ctx<Entry>, ghost leaf: Tree<Entry>, ghost n: nat)
    returns (cut: nat)
    requires leaf.TLeaf? && PageFits(true, leaf.cells, n) && cells == leaf.cells && slot <= |cells|
    requires CtxRep(s.pages, c, leaf.id) && Follows(path, c)
    requires AllBelow(cells[..slot], Below(draft.key)) && NoneBelow(cells[slot..], Below(draft.key))
    requires Bytes(cells, LeafWeight) + LeafWeight(draft) > LEAF_ROOM
    ensures
      var all := WithCell(leaf, slot, draft);
      && 2 <= cut < |all| && Bytes(all[..cut - 1], LeafWeight) <= LEAF_ROOM && Bytes(all[cut..], LeafWeight) <= LEAF_ROOM
      && (if slot == |cells| && LastChild(c) then cut == slot else MostEven(all, cut, LeafWeight))
  {
    var rightmost := |path| == 0 || path[|path| - 1].slot == |s.pages[path[|path| - 1].page].routed|;
    var append := rightmost && (|cells| == 0 || Below(draft.key)(cells[|cells| - 1]));
    LastIsBelow(cells, slot, Below(draft.key));
    assert rightmost <==> LastChild(c);
    DraftFacts(leaf, slot, draft, n);
    cut := ChooseCut(cells[..slot] + [draft] + cells[slot..], append);
  }

  /** A full leaf: choose the cut, write the overflow chain, then the pages. */
  method SplitLeaf(s: PageStore<Entry>, path: seq<Step>, page: PageId, slot: nat, key: Key, len: nat,
      ghost c: Ctx<Entry>, ghost leaf: Tree<Entry>, ghost n: nat, ghost keep: multiset<PageId>)
    returns (ghost e: Entry, ghost t: Tree<Entry>, ghost height: nat)
    requires s.Valid() && Spot(s.pages, s.used, c, leaf, n, keep) && page == leaf.id && slot <= |leaf.cells|
    requires Follows(path, c) && AllBelow(leaf.cells[..slot], Below(key)) && NoneBelow(leaf.cells[slot..], Below(key))
    requires |key| == n && len < TWO_64
    requires Bytes(leaf.cells, LeafWeight) + LeafWeight(Entry(key, len, [])) > LEAF_ROOM
    modifies s
    ensures e.key == key && e.len == len && GoodEntry(e, n) && OverflowLinks(s.pages, e.chain)
    ensures s.Valid() && Agree(old(s.pages), s.pages, keep)
    ensures Inserted(s.pages, s.used, t, height, n, keep + Tally(e.chain))
    ensures t.id == (if |path| == 0 then page else path[0].page)
    ensures Flat(t) == FlatLeft(c) + WithCell(leaf, slot, e) + FlatRight(c)
  {
    var cells := s.pages[page].cells;
    var draft := Entry(key, len, []);
    var cut := CutFor(s, path, cells, slot, draft, c, leaf, n);
    var chain := s.WriteOverflowChain(ChainPages(INDEX_MAX_LOCAL, len));
    var entry := Entry(key, len, chain);
    e := entry;
    ChainWritten(old(s.pages), s.pages, old(s.used), c, leaf, chain, keep, Rule(n));
    DraftCut(leaf, slot, draft, e, cut, n);
    ghost var m1 := s.pages;
    t, height := SplitAt(s, path, page, cells[..slot] + [entry] + cells[slot..], cut, c, leaf, n, keep + Tally(chain));
    ChainKept(old(s.pages), m1, s.pages, old(s.used), chain, keep);
  }

  method SplitAt(s: PageStore<Entry>, path: seq<Step>, page: PageId, cells: seq<Entry>, cut: nat,
      ghost c: Ctx<Entry>, ghost leaf: Tree<Entry>, ghost n: nat, ghost keep: multiset<PageId>)
    returns (ghost t: Tree<Entry>, ghost height: nat)
    requires s.Valid() && Spot(s.pages, s.used, c, leaf, n, keep) && page == leaf.id && CutOk(cells, cut, n) && Follows(path, c)
    modifies s
    ensures s.Valid() && Agree(old(s.pages), s.pages, keep)
    ensures Inserted(s.pages, s.used, t, height, n, keep) && t.id == (if |path| == 0 then page else path[0].page)
    ensures Flat(t) == FlatLeft(c) + cells + FlatRight(c)
  {
    if |path| == 0 {
      t, height := SplitRootLeaf(s, page, cells, cut, leaf, n, keep);
      assert FlatLeft(c) == [] && FlatRight(c) == [];
      return;
    }
    t, height := SplitInnerLeaf(s, path, page, cells, cut, c, leaf, n, keep);
  }

  lemma DraftFacts(leaf: Tree<Entry>, slot: nat, draft: Entry, n: nat)
    requires leaf.TLeaf? && slot <= |leaf.cells| && PageFits(true, leaf.cells, n)
    ensures Bounded(WithCell(leaf, slot, draft), LeafWeight, 1017)
    ensures Bytes(WithCell(leaf, slot, draft), LeafWeight) == Bytes(leaf.cells, LeafWeight) + LeafWeight(draft)
  {
    assert leaf.cells[slot..slot] == [];
    BytesSplice(leaf.cells, slot, slot, [draft], LeafWeight);
    BytesOne(draft, LeafWeight);
  }

  lemma SameWeightsAround(cells: seq<Entry>, slot: nat, draft: Entry, e: Entry, cut: nat)
    requires slot <= |cells| && e.len == draft.len && 1 <= cut <= |cells| + 1
    ensures
      var a, b := cells[..slot] + [draft] + cells[slot..], cells[..slot] + [e] + cells[slot..];
      && Bytes(a[..cut - 1], LeafWeight) == Bytes(b[..cut - 1], LeafWeight)
      && Bytes(a[cut..], LeafWeight) == Bytes(b[cut..], LeafWeight)
  {
    var a, b := cells[..slot] + [draft] + cells[slot..], cells[..slot] + [e] + cells[slot..];
    assert LeafWeight(draft) == LeafWeight(e);
    SameWeights(a[..cut - 1], b[..cut - 1], LeafWeight);
    SameWeights(a[cut..], b[cut..], LeafWeight);
  }

  /** The cut chosen for the draft is right for the real cell: they weigh the same. */
  lemma DraftCut(leaf: Tree<Entry>, slot: nat, draft: Entry, e: Entry, cut: nat, n: nat)
    requires leaf.TLeaf? && slot <= |leaf.cells| && PageFits(true, leaf.cells, n) && GoodEntry(e, n) && e.len == draft.len
    requires
      var cells := WithCell(leaf, slot, draft);
      2 <= cut < |cells| && Bytes(cells[..cut - 1], LeafWeight) <= LEAF_ROOM && Bytes(cells[cut..], LeafWeight) <= LEAF_ROOM
    ensures CutOk(WithCell(leaf, slot, e), cut, n)
  {
    WithCellFacts(leaf, slot, e, n);
    var a, b := WithCell(leaf, slot, draft), WithCell(leaf, slot, e);
    SameWeightsAround(leaf.cells, slot, draft, e, cut);
  }

  /** A leaf with room: write the overflow chain, then the cell. */
  method PlaceInLeaf(s: PageStore<Entry>, path: seq<Step>, page: PageId, slot: nat, key: Key, len: nat,
      ghost c: Ctx<Entry>, ghost leaf: Tree<Entry>, ghost n: nat, ghost keep: multiset<PageId>)
    returns (ghost e: Entry, ghost t: Tree<Entry>, ghost height: nat)
    requires s.Valid() && Spot(s.pages, s.used, c, leaf, n, keep) && page == leaf.id && slot <= |leaf.cells|
    requires Follows(path, c) && |key| == n && len < TWO_64
    requires Bytes(leaf.cells, LeafWeight) + LeafWeight(Entry(key, len, [])) <= LEAF_ROOM
    modifies s
    ensures e.key == key && e.len == len && GoodEntry(e, n) && OverflowLinks(s.pages, e.chain)
    ensures s.Valid() && Agree(old(s.pages), s.pages, keep)
    ensures Inserted(s.pages, s.used, t, height, n, keep + Tally(e.chain))
    ensures t.id == (if |path| == 0 then page else path[0].page)
    ensures Flat(t) == FlatLeft(c) + WithCell(leaf, slot, e) + FlatRight(c)
  {
    var chain := s.WriteOverflowChain(ChainPages(INDEX_MAX_LOCAL, len));
    var entry := Entry(key, len, chain);
    e := entry;
    ChainWritten(old(s.pages), s.pages, old(s.used), c, leaf, chain, keep, Rule(n));
    ghost var m1 := s.pages;
    t, height := PutInLeaf(s, page, slot, entry, c, leaf, n, keep + Tally(chain));
    ChainKept(old(s.pages), m1, s.pages, old(s.used), chain, keep);
    PlugFlat(c, TLeaf(page, WithCell(leaf, slot, e)), 0);
    PlugTop(c, TLeaf(page, WithCell(leaf, slot, e)));
    FollowsDepth(path, c);
  }

  /** Put a new entry at its place in a leaf, splitting if need be. */
  method InsertEntry(s: PageStore<Entry>, path: seq<Step>, page: PageId, slot: nat, key: Key, len: nat,
      ghost c: Ctx<Entry>, ghost leaf: Tree<Entry>, ghost n: nat, ghost keep: multiset<PageId>)
    returns (ghost e: Entry, ghost t: Tree<Entry>, ghost height: nat)
    requires s.Valid() && Spot(s.pages, s.used, c, leaf, n, keep) && page == leaf.id && slot <= |leaf.cells|
    requires Follows(path, c) && AllBelow(leaf.cells[..slot], Below(key)) && NoneBelow(leaf.cells[slot..], Below(key))
    requires |key| == n && len < TWO_64
    modifies s
    ensures e.key == key && e.len == len && GoodEntry(e, n) && OverflowLinks(s.pages, e.chain)
    ensures s.Valid() && Agree(old(s.pages), s.pages, keep)
    ensures Inserted(s.pages, s.used, t, height, n, keep + Tally(e.chain))
    ensures t.id == (if |path| == 0 then page else path[0].page)
    ensures Flat(t) == FlatLeft(c) + WithCell(leaf, slot, e) + FlatRight(c)
  {
    var bytes := TotalBytes(s.pages[page].cells, LeafWeight);
    if bytes + LeafWeight(Entry(key, len, [])) <= LEAF_ROOM {
      e, t, height := PlaceInLeaf(s, path, page, slot, key, len, c, leaf, n, keep);
      return;
    }
    e, t, height := SplitLeaf(s, path, page, slot, key, len, c, leaf, n, keep);
  }
}
