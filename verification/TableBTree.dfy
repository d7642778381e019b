/** The table b-tree: a finite map from rowid to payload, kept on pages. */
module Tables {
  import opened Basics
  import opened TreeCells
  import opened Trees
  import opened Store
  import opened Split
  import opened Cascade
  import opened Descent
  import opened CellSizes
  import opened TableTree
  import opened TableInsert
  import opened TableOrder
  import opened TableDelete
  import opened Places
  import Validator = Validate

  datatype Found = NotFound | FoundAt(page: PageId, slot: nat)

  datatype InsertResult = Done | DuplicateRowid | PageFull

  /** Exact search among the rows of a leaf. */
  method BinarySearchLeaf(cells: seq<Item>, rowid: int) returns (found: bool, slot: nat)
    requires Sorted(cells) && forall i :: 0 <= i < |cells| ==> cells[i].Row?
    ensures found ==> slot < |cells| && cells[slot].rowid == rowid
    ensures !found ==> forall i :: 0 <= i < |cells| ==> cells[i].rowid != rowid
  {
    var lo, hi := 0, |cells| - 1;
    while lo <= hi
      invariant 0 <= lo <= hi + 1 <= |cells|
      invariant forall i :: 0 <= i < |cells| && !(lo <= i <= hi) ==> cells[i].rowid != rowid
      decreases hi - lo
    {
      var mid := lo + (hi - lo) / 2;
      if cells[mid].rowid == rowid {
        return true, mid;
      }
      forall i | 0 <= i < |cells| ensures
        (i < mid ==> cells[i].rowid < cells[mid].rowid) && (mid < i ==> cells[mid].rowid < cells[i].rowid) {
        assert Ascends(cells, i, mid) && Ascends(cells, mid, i);
      }
      if rowid > cells[mid].rowid {
        lo := mid + 1;
      } else {
        hi := mid - 1;
      }
    }
    return false, 0;
  }

  class TableBTree {
    const store: PageStore<Item>
    const root: PageId
    ghost var tree: Tree<Item>
    ghost var height: nat
    /** Pages of the file that belong to other trees. */
    ghost var others: multiset<PageId>

    ghost predicate Valid()
      reads this, store
    {
      store.Valid() && tree.id == root && Wf(store.pages, store.used, tree, height, others)
    }

    /** The table as a value. */
    ghost function Contents(): map<int, Payload>
      reads this
    {
      Table(Flat(tree))
    }

    constructor (s: PageStore<Item>)
      requires s.Valid()
      modifies s
      ensures Valid() && store == s && Contents() == map[] && others == old(s.used)
      ensures Agree(old(s.pages), s.pages, others)
    {
      ghost var before := s.used;
      var id := s.NewPage(LeafPage([]));
      store, root := s, id;
      tree, height, others := TLeaf(id, []), 0, before;
    }

    /** A table that is already on the pages of the file. */
    constructor Open(s: PageStore<Item>, page: PageId, ghost t: Tree<Item>, ghost h: nat, ghost rest: multiset<PageId>)
      requires s.Valid() && t.id == page && Wf(s.pages, s.used, t, h, rest)
      ensures Valid() && store == s && root == page && tree == t && height == h && others == rest
    {
      store, root := s, page;
      tree, height, others := t, h, rest;
    }

    /** The leaf and slot of a rowid: found exactly when the map has it, and then
        the cell there holds the map's payload. */
    method Search(rowid: int) returns (r: Found)
      requires Valid()
      ensures r.FoundAt? <==> rowid in Contents()
      ensures r.FoundAt? ==>
                && r.page in store.pages && store.pages[r.page].LeafPage? && r.slot < |store.pages[r.page].cells|
                && store.pages[r.page].cells[r.slot].Row? && store.pages[r.page].cells[r.slot].rowid == rowid
                && store.pages[r.page].cells[r.slot].payload == Contents()[rowid]
    {
      ProbeIsMonotone(Flat(tree), rowid);
      var path, page, at;
      ghost var c, leaf;
      path, page, at, c, leaf := FindLeaf(store, root, Below(rowid), tree, height);
      SpotOf(store.pages, store.used, tree, height, others, path, c, leaf);
      LeafRows(c, leaf, tree);
      TakenIffPresent(c, leaf, at, rowid, tree);
      var found, slot := BinarySearchLeaf(store.pages[page].cells, rowid);
      if !found {
        return NotFound;
      }
      RowIsEntry(c, leaf, slot, tree);
      return FoundAt(page, slot);
    }

    /** Add a row. A rowid already there is refused, and so is a row that does not
        fit on its leaf when that leaf with the row cannot be cut in two; neither
        refusal touches the store. */
    method Insert(rowid: int, payload: Payload) returns (r: InsertResult)
      requires Valid() && InRowidRange(rowid) && |payload| < TWO_64
      modifies `tree, `height, store
      ensures Valid() && Agree(old(store.pages), store.pages, others)
      ensures r.DuplicateRowid? <==> rowid in old(Contents())
      ensures r.PageFull? <==> rowid !in old(Contents()) && Refuses(old(tree), Row(rowid, payload, []))
      ensures !r.Done? ==> tree == old(tree) && height == old(height) && store.Now() == old(store.Now()) && store.used == old(store.used)
      ensures r.Done? ==> Contents() == old(Contents())[rowid := payload]
    {
      ghost var t, h;
      r, t, h := InsertRow(store, root, Row(rowid, payload, []), tree, height, others);
      tree, height := t, h;
    }

    /** Validation never finds fault with a table that these operations built. */
    method Validate(links: map<PageId, PageId>) returns (ok: bool)
      requires Valid() && Validator.Linked(store.pages, links)
      ensures ok
    {
      Validator.TablePasses(store.pages, links, store.used, store.free, store.pageCount, tree, height, others);
      ok := Validator.ValidateTable(store.pages, links, root);
    }

    /** Remove a row, its overflow pages, and every page that empties. */
    method Delete(rowid: int) returns (found: bool)
      requires Valid()
      modifies `tree, `height, store
      ensures Valid() && Agree(old(store.pages), store.pages, others)
      ensures found <==> rowid in old(Contents())
      ensures Contents() == old(Contents()) - {rowid}
      ensures !found ==> tree == old(tree) && height == old(height) && store.Now() == old(store.Now()) && store.used == old(store.used)
    {
      AgreeRefl(store.pages, others);
      var path, page, slot;
      ghost var c, leaf;
      path, page, slot, c, leaf := FindPlace(store, root, rowid, tree, height, others);
      var cells := store.pages[page].cells;
      if slot >= |cells| || cells[slot].rowid != rowid {
        NothingToRemove(Contents(), rowid);
        return false;
      }
      ghost var t, h;
      t, h := DeleteRow(store, root, path, page, slot, tree, height, others, c, leaf);
      tree, height := t, h;
      return true;
    }
  }

  /** The leaf a rowid belongs on, and its slot there; it is in the table exactly
      when it is in that slot. */
  method FindPlace(s: PageStore<Item>, root: PageId, rowid: int, ghost t: Tree<Item>, ghost h: nat, ghost others: multiset<PageId>)
    returns (path: seq<Step>, page: PageId, slot: nat, ghost c: Ctx<Item>, ghost leaf: Tree<Item>)
    requires Wf(s.pages, s.used, t, h, others) && t.id == root
    ensures Spot(s.pages, s.used, c, leaf, ChainIds(Flat(t)) + others) && Plug(c, leaf) == t && page == leaf.id && Follows(path, c)
    ensures LowerSlot(leaf, c, slot, rowid) && (Taken(leaf, slot, rowid) <==> rowid in Table(Flat(t)))
    ensures t.id == (if |path| == 0 then page else path[0].page) && t.id == (if c.Top? then page else RootPage(c))
    ensures slot < |leaf.cells| ==> leaf.cells[slot].Row?
    ensures page in s.pages && s.pages[page] == LeafPage(leaf.cells)
  {
    ProbeIsMonotone(Flat(t), rowid);
    path, page, slot, c, leaf := FindLeaf(s, root, Below(rowid), t, h);
    SpotOf(s.pages, s.used, t, h, others, path, c, leaf);
    TakenIffPresent(c, leaf, slot, rowid, t);
    if slot < |leaf.cells| { assert GoodRow(leaf.cells[slot]); }
  }

  lemma NothingToRemove(m: map<int, Payload>, k: int)
    requires k !in m
    ensures m == m - {k}
  {
  }

  /** `cells` are those of the leaf the row belongs on, with the row at its lower
      bound. */
  ghost predicate Crowded(t: Tree<Item>, x: Item, cells: seq<Item>) {
    exists c, leaf, slot :: CrowdedAt(t, x, cells, c, leaf, slot)
  }

  ghost predicate CrowdedAt(t: Tree<Item>, x: Item, cells: seq<Item>, c: Ctx<Item>, leaf: Tree<Item>, slot: nat) {
    x.Row? && LowerSlot(leaf, c, slot, x.rowid) && Plug(c, leaf) == t && cells == WithCell(leaf, slot, x)
  }

  /** More than a page holds, and no cut in two helps. */
  ghost predicate Overfull(cells: seq<Item>) {
    Bytes(cells, LeafWeight) > LEAF_ROOM && !CanSplit(cells)
  }

  /** The leaf that the row belongs on cannot take it. */
  ghost predicate Refuses(t: Tree<Item>, x: Item) {
    exists cells :: Crowded(t, x, cells) && Overfull(cells)
  }

  /** What stands before a lower bound is below the row, what stands after is not. */
  lemma LowerSlotCuts(t: Tree<Item>, h: nat, c: Ctx<Item>, leaf: Tree<Item>, slot: nat, rowid: int, i: nat)
    requires LowerSlot(leaf, c, slot, rowid) && Plug(c, leaf) == t && Shape(t, h) && i < |Flat(t)|
    ensures Below(rowid)(Flat(t)[i]) <==> i < |FlatLeft(c)| + slot
  {
    LeafDepth(c, leaf, h);
    PlugFlat(c, leaf, 0);
    var a, b := FlatLeft(c), leaf.cells;
    assert Flat(t) == a + b + FlatRight(c);
    if i < |a| {
      assert Below(rowid)(a[i]);
    } else if i < |a| + slot {
      assert Below(rowid)(b[..slot][i - |a|]);
    } else if i < |a| + |b| {
      assert !Below(rowid)(b[slot..][i - |a| - slot]);
    } else {
      assert !Below(rowid)(FlatRight(c)[i - |a| - |b|]);
    }
  }

  lemma LowerSlotFirst(t: Tree<Item>, h: nat, c1: Ctx<Item>, leaf1: Tree<Item>, slot1: nat,
                       c2: Ctx<Item>, leaf2: Tree<Item>, slot2: nat, rowid: int)
    requires LowerSlot(leaf1, c1, slot1, rowid) && LowerSlot(leaf2, c2, slot2, rowid)
    requires Plug(c1, leaf1) == t && Plug(c2, leaf2) == t && Shape(t, h)
    ensures |FlatLeft(c1)| + slot1 <= |FlatLeft(c2)| + slot2
  {
    var p := |FlatLeft(c2)| + slot2;
    if p < |FlatLeft(c1)| + slot1 {
      LeafDepth(c1, leaf1, h);
      PlugFlat(c1, leaf1, 0);
      LowerSlotCuts(t, h, c1, leaf1, slot1, rowid, p);
      LowerSlotCuts(t, h, c2, leaf2, slot2, rowid, p);
    }
  }

  /** A row belongs on one leaf, so whether it is refused can be told from the
      table's pages alone. */
  lemma CrowdedUnique(t: Tree<Item>, h: nat, x: Item, cells1: seq<Item>, cells2: seq<Item>)
    requires Shape(t, h) && Crowded(t, x, cells1) && Crowded(t, x, cells2)
    ensures cells1 == cells2
  {
    var c1, leaf1, slot1 :| CrowdedAt(t, x, cells1, c1, leaf1, slot1);
    var c2, leaf2, slot2 :| CrowdedAt(t, x, cells2, c2, leaf2, slot2);
    LowerSlotFirst(t, h, c1, leaf1, slot1, c2, leaf2, slot2, x.rowid);
    LowerSlotFirst(t, h, c2, leaf2, slot2, c1, leaf1, slot1, x.rowid);
    SameLeaf(t, h, c1, leaf1, c2, leaf2, |FlatLeft(c1)| + slot1);
  }

  /** Whether the row is refused is decided by the leaf at hand. */
  lemma RefusesHere(t: Tree<Item>, h: nat, c: Ctx<Item>, leaf: Tree<Item>, slot: nat, x: Item)
    requires x.Row? && LowerSlot(leaf, c, slot, x.rowid) && Plug(c, leaf) == t && Shape(t, h)
    ensures Refuses(t, x) <==> Overfull(WithCell(leaf, slot, x))
  {
    var here := WithCell(leaf, slot, x);
    assert CrowdedAt(t, x, here, c, leaf, slot);
    assert Crowded(t, x, here);
    forall cells | Crowded(t, x, cells) ensures cells == here { CrowdedUnique(t, h, x, cells, here); }
  }

  /** Find the leaf; refuse the row, put it there, or split the leaf. */
  method InsertRow(s: PageStore<Item>, root: PageId, draft: Item, ghost t0: Tree<Item>, ghost h0: nat, ghost others: multiset<PageId>)
    returns (r: InsertResult, ghost t: Tree<Item>, ghost h: nat)
    requires s.Valid() && Wf(s.pages, s.used, t0, h0, others) && t0.id == root
    requires draft.Row? && draft.chain == [] && InRowidRange(draft.rowid) && |draft.payload| < TWO_64
    modifies s
    ensures s.Valid() && Wf(s.pages, s.used, t, h, others) && t.id == root && Agree(old(s.pages), s.pages, others)
    ensures r.DuplicateRowid? <==> draft.rowid in Table(Flat(t0))
    ensures r.PageFull? <==> draft.rowid !in Table(Flat(t0)) && Refuses(t0, draft)
    ensures !r.Done? ==> t == t0 && h == h0 && s.Now() == old(s.Now()) && s.used == old(s.used)
    ensures r.Done? ==> Table(Flat(t)) == Table(Flat(t0))[draft.rowid := draft.payload]
  {
    t, h := t0, h0;
    AgreeRefl(s.pages, others);
    var path, page, slot;
    ghost var c, leaf;
    path, page, slot, c, leaf := FindPlace(s, root, draft.rowid, t0, h0, others);
    var cells := s.pages[page].cells;
    if slot < |cells| && cells[slot].rowid == draft.rowid {
      return DuplicateRowid, t, h;
    }
    WithCellFacts(leaf, slot, draft);
    RefusesHere(t0, h0, c, leaf, slot, draft);
    var bytes := TotalBytes(cells, LeafWeight);
    if bytes + LeafWeight(draft) <= LEAF_ROOM {
      t, h := InsertWithRoom(s, path, page, slot, draft, t0, h0, others, c, leaf);
      return Done, t, h;
    }
    var cut, ok := CutFor(s, path, cells, slot, draft, c, leaf);
    if !ok {
      return PageFull, t, h;
    }
    t, h := InsertBySplit(s, path, page, slot, draft, cut, t0, h0, others, c, leaf);
    return Done, t, h;
  }

  lemma SortedMiddle(l: seq<Item>, m: seq<Item>, r: seq<Item>)
    requires Sorted(l + m + r)
    ensures Sorted(m)
  {
    var s := l + m + r;
    forall i, j ensures Ascends(m, i, j) {
      if 0 <= i < j < |m| { assert Ascends(s, |l| + i, |l| + j) && s[|l| + i] == m[i] && s[|l| + j] == m[j]; }
    }
  }

  lemma LeafRows(c: Ctx<Item>, leaf: Tree<Item>, t: Tree<Item>)
    requires leaf.TLeaf? && LeafFits(leaf.cells) && CtxShape(c, 0) && Plug(c, leaf) == t && Sorted(Flat(t))
    ensures Sorted(leaf.cells) && forall i :: 0 <= i < |leaf.cells| ==> leaf.cells[i].Row?
  {
    PlugFlat(c, leaf, 0);
    SortedMiddle(FlatLeft(c), leaf.cells, FlatRight(c));
    forall i | 0 <= i < |leaf.cells| ensures leaf.cells[i].Row? { assert GoodRow(leaf.cells[i]); }
  }

  lemma RowIsEntry(c: Ctx<Item>, leaf: Tree<Item>, slot: nat, t: Tree<Item>)
    requires leaf.TLeaf? && slot < |leaf.cells| && leaf.cells[slot].Row? && CtxShape(c, 0) && Plug(c, leaf) == t && Sorted(Flat(t))
    ensures leaf.cells[slot].rowid in Table(Flat(t)) && Table(Flat(t))[leaf.cells[slot].rowid] == leaf.cells[slot].payload
  {
    PlugFlat(c, leaf, 0);
    var x := leaf.cells[slot];
    var a, b := FlatLeft(c) + leaf.cells[..slot], leaf.cells[slot + 1..] + FlatRight(c);
    Removal(FlatLeft(c), leaf.cells, slot, FlatRight(c));
    TableAround(a, x, b);
  }

  /** A place to insert: the leaf, and the slot that keeps the order. */
  ghost predicate Place(m: map<PageId, Page<Item>>, used: multiset<PageId>, t: Tree<Item>, h: nat, others: multiset<PageId>,
                        c: Ctx<Item>, leaf: Tree<Item>, slot: nat, rowid: int)
  {
    && Wf(m, used, t, h, others) && Spot(m, used, c, leaf, ChainIds(Flat(t)) + others) && Plug(c, leaf) == t
    && LowerSlot(leaf, c, slot, rowid) && !Taken(leaf, slot, rowid)
  }

  lemma InsertDone(m: map<PageId, Page<Item>>, m': map<PageId, Page<Item>>, used: multiset<PageId>, used': multiset<PageId>,
                   t: Tree<Item>, h: nat, others: multiset<PageId>, c: Ctx<Item>, leaf: Tree<Item>, slot: nat, x: Item, cut: nat,
                   t': Tree<Item>, h': nat)
    requires x.Row? && GoodRow(x) && Place(m, used, t, h, others, c, leaf, slot, x.rowid)
    requires cut < |WithCell(leaf, slot, x)| && WithCell(leaf, slot, x)[if cut == 0 then 0 else cut - 1].Row?
    requires Inserted(m', used', t', h', ChainIds(Flat(t)) + others + Tally(x.chain))
    requires Flat(t') == FlatLeft(c) + Fenced(WithCell(leaf, slot, x), cut) + FlatRight(c)
    requires Agree(m, m', ChainIds(Flat(t)) + others) && OverflowLinks(m', x.chain)
    ensures Wf(m', used', t', h', others) && Agree(m, m', others)
    ensures Table(Flat(t')) == Table(Flat(t))[x.rowid := x.payload]
  {
    AgreeSub(m, m', ChainIds(Flat(t)) + others, ChainIds(Flat(t)));
    AgreeSub(m, m', ChainIds(Flat(t)) + others, others);
    ChainsFrame(m, m', Flat(t));
    WithCellFacts(leaf, slot, x);
    GrownSequence(m', c, leaf, slot, x, t, cut, Flat(t'));
    Shuffle(NodeIds(t'), ChainIds(Flat(t)), others, Tally(x.chain));
  }

  method InsertWithRoom(s: PageStore<Item>, path: seq<Step>, page: PageId, slot: nat, draft: Item,
      ghost t0: Tree<Item>, ghost h0: nat, ghost others: multiset<PageId>, ghost c: Ctx<Item>, ghost leaf: Tree<Item>)
    returns (ghost t: Tree<Item>, ghost h: nat)
    requires s.Valid() && draft.Row? && InRowidRange(draft.rowid) && |draft.payload| < TWO_64
    requires Place(s.pages, s.used, t0, h0, others, c, leaf, slot, draft.rowid) && page == leaf.id && Follows(path, c)
    requires t0.id == (if |path| == 0 then page else path[0].page)
    requires Bytes(leaf.cells, LeafWeight) + LeafWeight(draft) <= LEAF_ROOM
    modifies s
    ensures s.Valid() && Wf(s.pages, s.used, t, h, others) && t.id == t0.id && Agree(old(s.pages), s.pages, others)
    ensures Table(Flat(t)) == Table(Flat(t0))[draft.rowid := draft.payload]
  {
    ghost var x;
    x, t, h := PlaceInLeaf(s, path, page, slot, draft, c, leaf, ChainIds(Flat(t0)) + others);
    FirstIsRow(leaf, slot, x);
    InsertDone(old(s.pages), s.pages, old(s.used), s.used, t0, h0, others, c, leaf, slot, x, 0, t, h);
  }

  lemma FirstIsRow(leaf: Tree<Item>, slot: nat, x: Item)
    requires leaf.TLeaf? && slot <= |leaf.cells| && LeafFits(leaf.cells) && GoodRow(x)
    ensures WithCell(leaf, slot, x)[0].Row?
  {
    WithCellFacts(leaf, slot, x);
    assert GoodRow(WithCell(leaf, slot, x)[0]);
  }

  method InsertBySplit(s: PageStore<Item>, path: seq<Step>, page: PageId, slot: nat, draft: Item, cut: nat,
      ghost t0: Tree<Item>, ghost h0: nat, ghost others: multiset<PageId>, ghost c: Ctx<Item>, ghost leaf: Tree<Item>)
    returns (ghost t: Tree<Item>, ghost h: nat)
    requires s.Valid() && draft.Row? && InRowidRange(draft.rowid) && |draft.payload| < TWO_64
    requires Place(s.pages, s.used, t0, h0, others, c, leaf, slot, draft.rowid) && page == leaf.id && Follows(path, c)
    requires t0.id == (if |path| == 0 then page else path[0].page)
    requires 1 <= cut < |WithCell(leaf, slot, draft)| && FitsAt(WithCell(leaf, slot, draft), cut)
    modifies s
    ensures s.Valid() && Wf(s.pages, s.used, t, h, others) && t.id == t0.id && Agree(old(s.pages), s.pages, others)
    ensures Table(Flat(t)) == Table(Flat(t0))[draft.rowid := draft.payload]
  {
    ghost var x;
    x, t, h := SplitLeaf(s, path, page, slot, draft, cut, c, leaf, ChainIds(Flat(t0)) + others);
    InsertDone(old(s.pages), s.pages, old(s.used), s.used, t0, h0, others, c, leaf, slot, x, cut, t, h);
  }

  /** Before a removal: what the leaf without the row must keep. */
  lemma DeleteReady(m: map<PageId, Page<Item>>, used: multiset<PageId>, t: Tree<Item>, h: nat, others: multiset<PageId>,
                    c: Ctx<Item>, leaf: Tree<Item>, slot: nat)
    returns (flat: seq<Item>, keep: multiset<PageId>)
    requires Wf(m, used, t, h, others) && Spot(m, used, c, leaf, ChainIds(Flat(t)) + others) && Plug(c, leaf) == t
    requires slot < |leaf.cells| && leaf.cells[slot].Row?
    ensures flat == FlatLeft(c) + (leaf.cells[..slot] + leaf.cells[slot + 1..]) + FlatRight(c) && keep == ChainIds(flat) + others
    ensures Sorted(flat) && Table(flat) == Table(Flat(t)) - {leaf.cells[slot].rowid} && ChainsLinked(m, flat)
    ensures Spot(m, used, c, leaf, keep + Tally(leaf.cells[slot].chain)) && OverflowLinks(m, leaf.cells[slot].chain)
  {
    flat := FlatLeft(c) + (leaf.cells[..slot] + leaf.cells[slot + 1..]) + FlatRight(c);
    keep := ChainIds(flat) + others;
    ShrunkSequence(m, c, leaf, slot, t);
    assert ChainIds(Flat(t)) + others == keep + Tally(leaf.cells[slot].chain);
  }

  lemma DeleteDone(m: map<PageId, Page<Item>>, m': map<PageId, Page<Item>>, used': multiset<PageId>, flat: seq<Item>,
                   dropped: seq<Item>, a: seq<Item>, b: seq<Item>, t': Tree<Item>, h': nat, others: multiset<PageId>)
    requires Sorted(flat) && ChainsLinked(m, flat) && Agree(m, m', ChainIds(flat) + others)
    requires flat == a + dropped + b && (|dropped| == 0 || (|dropped| == 1 && dropped[0].Fence?))
    requires Pruned(m', used', t', h', ChainIds(flat) + others) && Flat(t') == a + b
    ensures Wf(m', used', t', h', others) && Table(Flat(t')) == Table(flat) && Agree(m, m', others)
  {
    AgreeSub(m, m', ChainIds(flat) + others, ChainIds(flat));
    AgreeSub(m, m', ChainIds(flat) + others, others);
    ChainsFrame(m, m', flat);
    WithoutFence(m', flat, dropped, a, b);
  }

  lemma WithoutFence(m: map<PageId, Page<Item>>, flat: seq<Item>, dropped: seq<Item>, a: seq<Item>, b: seq<Item>)
    requires Sorted(flat) && flat == a + dropped + b && (|dropped| == 0 || (|dropped| == 1 && dropped[0].Fence?))
    ensures Sorted(a + b) && Table(a + b) == Table(flat) && ChainIds(a + b) == ChainIds(flat)
    ensures ChainsLinked(m, a + b) <==> ChainsLinked(m, flat)
  {
    if |dropped| == 0 {
      assert a + dropped + b == a + b;
    } else {
      assert dropped == [dropped[0]];
      FenceDropped(m, a, dropped[0], b);
    }
  }

  method DeleteRow(s: PageStore<Item>, root: PageId, path: seq<Step>, page: PageId, slot: nat,
      ghost t0: Tree<Item>, ghost h0: nat, ghost others: multiset<PageId>, ghost c: Ctx<Item>, ghost leaf: Tree<Item>)
    returns (ghost t: Tree<Item>, ghost h: nat)
    requires s.Valid() && Wf(s.pages, s.used, t0, h0, others) && Spot(s.pages, s.used, c, leaf, ChainIds(Flat(t0)) + others)
    requires Plug(c, leaf) == t0 && page == leaf.id && Follows(path, c) && root == (if c.Top? then page else RootPage(c))
    requires slot < |leaf.cells| && leaf.cells[slot].Row?
    modifies s
    ensures s.Valid() && Wf(s.pages, s.used, t, h, others) && t.id == root && Agree(old(s.pages), s.pages, others)
    ensures Table(Flat(t)) == Table(Flat(t0)) - {leaf.cells[slot].rowid}
  {
    ghost var flat, keep := DeleteReady(s.pages, s.used, t0, h0, others, c, leaf, slot);
    RemoveRow(s, page, slot, c, leaf, keep);
    ghost var dropped, a, b;
    t, h, dropped, a, b := SettleTable(s, root, path, page, c, TLeaf(page, leaf.cells[..slot] + leaf.cells[slot + 1..]), keep, old(s.pages));
    DeleteDone(old(s.pages), s.pages, s.used, flat, dropped, a, b, t, h, others);
  }

  /** The leaf stays if it has rows left or is the root. */
  method SettleTable(s: PageStore<Item>, root: PageId, path: seq<Step>, page: PageId,
      ghost c: Ctx<Item>, ghost leaf: Tree<Item>, ghost keep: multiset<PageId>, ghost m0: map<PageId, Page<Item>>)
    returns (ghost t: Tree<Item>, ghost h: nat, ghost dropped: seq<Item>, ghost a: seq<Item>, ghost b: seq<Item>)
    requires s.Valid() && Spot(s.pages, s.used, c, leaf, keep) && page == leaf.id
    requires Follows(path, c) && root == (if c.Top? then page else RootPage(c)) && Agree(m0, s.pages, keep)
    modifies s
    ensures s.Valid() && Agree(m0, s.pages, keep) && Pruned(s.pages, s.used, t, h, keep) && t.id == root
    ensures FlatLeft(c) + leaf.cells + FlatRight(c) == a + dropped + b && Flat(t) == a + b
    ensures |dropped| == 0 || (|dropped| == 1 && dropped[0].Fence?)
  {
    FollowsDepth(path, c);
    if |s.pages[page].cells| > 0 || |path| == 0 {
      t, h, dropped, a, b := Stays(s.pages, s.used, c, leaf, keep);
      return;
    }
    t, h, dropped, a, b := FreeEmptied(s, path, page, c, leaf, keep, m0);
  }

  method FreeEmptied(s: PageStore<Item>, path: seq<Step>, page: PageId,
      ghost c: Ctx<Item>, ghost leaf: Tree<Item>, ghost keep: multiset<PageId>, ghost m0: map<PageId, Page<Item>>)
    returns (ghost t: Tree<Item>, ghost h: nat, ghost dropped: seq<Item>, ghost a: seq<Item>, ghost b: seq<Item>)
    requires s.Valid() && Spot(s.pages, s.used, c, leaf, keep) && page == leaf.id
    requires leaf.cells == [] && c.Frame? && Follows(path, c) && Agree(m0, s.pages, keep)
    modifies s
    ensures s.Valid() && Agree(m0, s.pages, keep) && Pruned(s.pages, s.used, t, h, keep) && t.id == RootPage(c)
    ensures FlatLeft(c) + leaf.cells + FlatRight(c) == a + dropped + b && Flat(t) == a + b
    ensures |dropped| == 0 || (|dropped| == 1 && dropped[0].Fence?)
  {
    ghost var m1 := s.pages;
    t, h, dropped, a, b := FreeUpward(s, path, page, c, keep);
    AgreeTrans(m0, m1, s.pages, keep);
    assert FlatLeft(c) + leaf.cells == FlatLeft(c);
  }

  lemma Stays(m: map<PageId, Page<Item>>, used: multiset<PageId>, c: Ctx<Item>, leaf: Tree<Item>, keep: multiset<PageId>)
    returns (t: Tree<Item>, h: nat, dropped: seq<Item>, a: seq<Item>, b: seq<Item>)
    requires Spot(m, used, c, leaf, keep) && (|leaf.cells| > 0 || c.Top?)
    ensures Pruned(m, used, t, h, keep) && t.id == (if c.Top? then leaf.id else RootPage(c))
    ensures FlatLeft(c) + leaf.cells + FlatRight(c) == a + dropped + b && Flat(t) == a + b && dropped == []
  {
    a, dropped, b := FlatLeft(c) + leaf.cells, [], FlatRight(c);
    assert a + dropped == a;
    t := Plug(c, leaf);
    PlugFlat(c, leaf, 0);
    PlugTop(c, leaf);
    if c.Top? {
      h := 0;
    } else {
      h := Reassemble(m, c, leaf, 0, Rule);
    }
  }
}
