/** A movable position in a table b-tree. A page is pinned before it is looked at,
    and unpinned when it leaves the path or turns out not to belong there; between
    operations exactly the pages on the path are pinned, once each. */
module Cursors {
  import opened Basics
  import opened TreeCells
  import opened Trees
  import opened Store
  import opened Cascade
  import opened Descent
  import opened TableTree
  import opened TableOrder
  import opened Tables
  import opened Scan

  ghost function PagesOf(path: seq<Step>): (r: seq<PageId>)
    ensures |r| == |path|
  {
    seq(|path|, i requires 0 <= i < |path| => path[i].page)
  }

  /** One pin for each page of the path. */
  ghost function PinsOf(path: seq<Step>): multiset<PageId> {
    Tally(PagesOf(path))
  }

  lemma PushPin(path: seq<Step>, at: Step)
    ensures PinsOf(path + [at]) == PinsOf(path) + multiset{at.page}
  {
    assert PagesOf(path + [at]) == PagesOf(path) + [at.page];
    TallyAppend(PagesOf(path), [at.page]);
    assert [at.page][1..] == [];
  }

  lemma PopPin(path: seq<Step>)
    requires |path| > 0
    ensures PinsOf(path) - multiset{path[|path| - 1].page} == PinsOf(path[..|path| - 1])
    ensures path[|path| - 1].page in PinsOf(path)
  {
    var at := path[|path| - 1];
    assert path == path[..|path| - 1] + [at];
    PushPin(path[..|path| - 1], at);
  }

  lemma MovePin(path: seq<Step>, slot: nat)
    requires |path| > 0
    ensures PinsOf(path[|path| - 1 := Step(path[|path| - 1].page, slot)]) == PinsOf(path)
  {
    assert PagesOf(path[|path| - 1 := Step(path[|path| - 1].page, slot)]) == PagesOf(path);
  }

  lemma FirstPin(path: seq<Step>, i: nat)
    requires i < |path|
    ensures PinsOf(path[i..]) == multiset{path[i].page} + PinsOf(path[i + 1..])
  {
    assert PagesOf(path[i..])[0] == path[i].page;
    assert PagesOf(path[i..])[1..] == PagesOf(path[i + 1..]);
  }

  // ---- Positions in the sequence, and among the rows ----

  lemma RowsNext(s: seq<Item>, p: nat)
    requires p < |s|
    ensures |Rows(s[..p + 1])| == |Rows(s[..p])| + if s[p].Row? then 1 else 0
  {
    assert s[..p + 1] == s[..p] + [s[p]];
    RowsAppend(s[..p], [s[p]]);
    assert [s[p]][1..] == [];
  }

  lemma RowsAt(s: seq<Item>, p: nat)
    requires p < |s| && s[p].Row?
    ensures |Rows(s[..p])| < |Rows(s)| && Rows(s)[|Rows(s[..p])|] == s[p]
  {
    assert s == s[..p] + s[p..];
    RowsAppend(s[..p], s[p..]);
    assert Rows(s[p..])[0] == s[p];
  }

  lemma LastRow(s: seq<Item>, p: nat)
    requires p + 1 == |s| && s[p].Row?
    ensures |Rows(s[..p])| + 1 == |Rows(s)|
  {
    RowsNext(s, p);
    assert s[..p + 1] == s;
  }

  lemma {:induction false} RowsAreRows(s: seq<Item>, i: nat)
    requires i < |Rows(s)|
    ensures Rows(s)[i].Row? && Rows(s)[i] in s
    decreases |s|
  {
    if |s| > 0 {
      if s[0].Row? {
        if i > 0 { RowsAreRows(s[1..], i - 1); }
      } else {
        RowsAreRows(s[1..], i);
      }
    }
  }

  ghost predicate Precedes(x: Item, y: Item) {
    x.Row? && y.Row? && x.rowid < y.rowid
  }

  ghost predicate IsRowOf(x: Item, table: map<int, Payload>) {
    x.Row? && x.rowid in table && table[x.rowid] == x.payload
  }

  ghost predicate Listed(rows: seq<Item>, r: int) {
    exists i :: 0 <= i < |rows| && rows[i].Row? && rows[i].rowid == r
  }

  lemma {:induction false} RowsAscend(s: seq<Item>, i: nat, j: nat)
    requires Sorted(s) && i < j < |Rows(s)|
    ensures Precedes(Rows(s)[i], Rows(s)[j])
    decreases |s|
  {
    var rest := s[1..];
    forall a, b ensures Ascends(rest, a, b) { assert Ascends(s, a + 1, b + 1); }
    if !s[0].Row? {
      RowsAscend(rest, i, j);
    } else if i > 0 {
      RowsAscend(rest, i - 1, j - 1);
    } else {
      RowsAreRows(rest, j - 1);
      var p :| 0 <= p < |rest| && rest[p] == Rows(rest)[j - 1];
      assert Ascends(s, 0, p + 1);
    }
  }

  lemma RowsAreTheTable(s: seq<Item>)
    requires Sorted(s)
    ensures forall i, j :: 0 <= i < j < |Rows(s)| ==> Precedes(Rows(s)[i], Rows(s)[j])
    ensures forall i :: 0 <= i < |Rows(s)| ==> IsRowOf(Rows(s)[i], Table(s))
    ensures forall r :: r in Table(s) ==> Listed(Rows(s), r)
  {
    forall i, j | 0 <= i < j < |Rows(s)| ensures Precedes(Rows(s)[i], Rows(s)[j]) { RowsAscend(s, i, j); }
    forall i | 0 <= i < |Rows(s)| ensures IsRowOf(Rows(s)[i], Table(s)) {
      RowsAreRows(s, i);
      var p :| 0 <= p < |s| && s[p] == Rows(s)[i];
      assert s == s[..p] + [s[p]] + s[p + 1..];
      TableAround(s[..p], s[p], s[p + 1..]);
    }
    forall r | r in Table(s) ensures Listed(Rows(s), r) {
      TableHas(s, r);
      var p :| 0 <= p < |s| && s[p].Row? && s[p].rowid == r;
      RowsAt(s, p);
      assert Rows(s)[|Rows(s[..p])|].rowid == r;
    }
  }

  /** Everything before position p is below the key, nothing from there on. */
  lemma RowsSplitAt(s: seq<Item>, p: nat, key: int)
    requires p <= |s| && AllBelow(s[..p], Below(key)) && NoneBelow(s[p..], Below(key))
    ensures
      var k := |Rows(s[..p])|;
      k <= |Rows(s)| && forall i :: 0 <= i < |Rows(s)| ==> Rows(s)[i].Row? && (Rows(s)[i].rowid < key <==> i < k)
  {
    assert s == s[..p] + s[p..];
    RowsAppend(s[..p], s[p..]);
    var k := |Rows(s[..p])|;
    forall i | 0 <= i < |Rows(s)| ensures Rows(s)[i].Row? && (Rows(s)[i].rowid < key <==> i < k) {
      if i < k { RowsAreRows(s[..p], i); } else { RowsAreRows(s[p..], i - k); }
    }
  }

  /** What comes right before a leaf is a fence. */
  lemma {:induction false} FencePrecedes(c: Ctx<Item>, h: nat)
    requires CtxShape(c, h) && CtxAll(c, Rule) && |FlatLeft(c)| > 0
    ensures FlatLeft(c)[|FlatLeft(c)| - 1].Fence?
    decreases c
  {
    if |c.left| == 0 {
      assert c.cells[..|c.left|] == [];
      FencePrecedes(c.up, h + 1);
    } else {
      assert GoodFence(c.cells[|c.left| - 1]);
      BeforeLast(c.cells[..|c.left|], c.left);
    }
  }

  lemma LeafNotEmpty(t: Tree<Item>, c: Ctx<Item>, leaf: Tree<Item>)
    requires PagesOk(t) && Plug(c, leaf) == t && leaf.TLeaf?
    ensures c.Frame? ==> |leaf.cells| > 0
    ensures AllGood(leaf.cells, GoodRow) && CtxAll(c, Rule)
  {
    PlugTop(c, leaf);
    PlugAll(c, leaf, Rule);
  }

  class TableCursor {
    const table: TableBTree
    /** Root to leaf; empty when the cursor is not on a row. */
    var path: seq<Step>
    /** The pins this cursor holds in the buffer pool. */
    var pins: multiset<PageId>
    ghost var c: Ctx<Item>
    ghost var leaf: Tree<Item>

    ghost predicate Valid()
      reads this, table, table.store
    {
      table.Valid() && pins == PinsOf(path) && (path != [] ==> OnRow())
    }

    ghost predicate OnRow()
      reads this, table, table.store
      requires path != []
    {
      var last := path[|path| - 1];
      && At(table.store.pages, table.tree, path[..|path| - 1], c, leaf, 0)
      && leaf.TLeaf? && last.page == leaf.id && last.slot < |leaf.cells|
    }

    /** On the way down: `page` is the page of the subtree `leaf`, pinned but not yet
        on the path. */
    ghost predicate GoingDown(page: PageId, h: nat)
      reads this, table, table.store
    {
      && pins == PinsOf(path) + multiset{page} && page == leaf.id
      && At(table.store.pages, table.tree, path, c, leaf, h)
    }

    /** The rows in rowid order. */
    ghost function Records(): seq<Item>
      reads this, table
    {
      Rows(Flat(table.tree))
    }

    /** The cursor's position in the tree's sequence of rows and fences. */
    ghost function Position(): nat
      reads this
      requires path != []
    {
      |FlatLeft(c)| + path[|path| - 1].slot
    }

    /** Which record the cursor is on. */
    ghost function Index(): nat
      reads this, table
      requires path != []
    {
      if Position() <= |Flat(table.tree)| then |Rows(Flat(table.tree)[..Position()])| else 0
    }

    constructor (t: TableBTree)
      requires t.Valid()
      ensures Valid() && table == t && path == []
    {
      table := t;
      path, pins := [], multiset{};
      c, leaf := Top, t.tree;
    }

    /** The row under the cursor. */
    lemma Here()
      requires Valid() && path != []
      ensures Position() < |Flat(table.tree)| && Index() < |Records()|
      ensures Flat(table.tree)[Position()] == leaf.cells[path[|path| - 1].slot] == Records()[Index()]
      ensures Records()[Index()].Row?
    {
      AfterRow(table.tree, c, leaf, path[|path| - 1].slot, Position());
      RowsAt(Flat(table.tree), Position());
    }

    /** Going through the records is going through the table: rowids ascend, and
        record by record they and their payloads are the contents. */
    lemma Enumerates()
      requires Valid()
      ensures forall i, j :: 0 <= i < j < |Records()| ==> Precedes(Records()[i], Records()[j])
      ensures forall i :: 0 <= i < |Records()| ==> IsRowOf(Records()[i], table.Contents())
      ensures forall r :: r in table.Contents() ==> Listed(Records(), r)
    {
      RowsAreTheTable(Flat(table.tree));
    }

    /** Unpin every page of the path, then forget the path. */
    method Close()
      requires Valid()
      modifies this
      ensures Valid() && path == [] && pins == multiset{}
    {
      var i := 0;
      assert path[0..] == path;
      while i < |path|
        invariant 0 <= i <= |path| && table.Valid() && pins == PinsOf(path[i..])
        decreases |path| - i
      {
        FirstPin(path, i);
        Unpin(path[i].page);
        i := i + 1;
      }
      path := [];
    }

    method Pin(page: PageId)
      modifies `pins
      ensures pins == old(pins) + multiset{page}
    {
      pins := pins + multiset{page};
    }

    method Unpin(page: PageId)
      requires page in pins
      modifies `pins
      ensures pins == old(pins) - multiset{page}
    {
      pins := pins - multiset{page};
    }

    /** Unpin the last page and drop it from the path. */
    method Pop()
      requires |path| > 0 && pins == PinsOf(path)
      modifies `path, `pins
      ensures path == old(path)[..|old(path)| - 1] && pins == PinsOf(path)
    {
      PopPin(path);
      Unpin(path[|path| - 1].page);
      path := path[..|path| - 1];
    }

    /** Put a page that is already pinned on the path. */
    method Keep(page: PageId, slot: nat)
      requires pins == PinsOf(path) + multiset{page}
      modifies `path
      ensures path == old(path) + [Step(page, slot)] && pins == PinsOf(path)
    {
      PushPin(path, Step(page, slot));
      path := path + [Step(page, slot)];
    }

    method RowidHere() returns (r: int)
      requires Valid() && path != []
      ensures Index() < |Records()| && Records()[Index()].Row? && r == Records()[Index()].rowid
    {
      Here();
      var last := path[|path| - 1];
      r := table.store.pages[last.page].cells[last.slot].rowid;
    }

    method Record() returns (r: Payload)
      requires Valid() && path != []
      ensures Index() < |Records()| && Records()[Index()].Row? && r == Records()[Index()].payload
    {
      Here();
      var last := path[|path| - 1];
      r := table.store.pages[last.page].cells[last.slot].payload;
    }

    /** Walk down one edge from a page. The leaf it ends on is pinned but not yet on
        the path. */
    method Descend(start: PageId, rightmost: bool, ghost c0: Ctx<Item>, ghost t0: Tree<Item>, ghost h0: nat) returns (page: PageId)
      requires pins == PinsOf(path) && At(table.store.pages, table.tree, path, c0, t0, h0) && start == t0.id
      modifies this
      ensures GoingDown(page, 0) && leaf.TLeaf?
      ensures OnEdge(rightmost, c, leaf, c0, t0)
    {
      page := start;
      c, leaf := c0, t0;
      ghost var h := h0;
      Pin(page);
      while table.store.pages[page].InteriorPage?
        invariant GoingDown(page, h)
        invariant OnEdge(rightmost, c, leaf, c0, t0)
        decreases h
      {
        ReadNode(table.store.pages, leaf, h);
        EdgeStep(rightmost, c, leaf, c0, t0, h);
        page := GoDown(page, if rightmost then |table.store.pages[page].routed| else 0, h);
        h := h - 1;
      }
    }

    /** Keep an interior page on the path and pin its child. */
    method GoDown(page: PageId, slot: nat, ghost h: nat) returns (child: PageId)
      requires GoingDown(page, h) && leaf.TNode? && slot <= |leaf.cells|
      modifies this
      ensures h > 0 && GoingDown(child, h - 1)
      ensures slot < |old(leaf).kids| && c == Enter(old(c), old(leaf), slot) && leaf == old(leaf).kids[slot]
    {
      AtKid(table.store.pages, table.tree, path, c, leaf, h, slot);
      Keep(page, slot);
      c, leaf := Enter(c, leaf, slot), leaf.kids[slot];
      child := Children(table.store.pages[page])[slot];
      Pin(child);
    }

    /** Stop on the first or last row of the leaf reached. Only the root of an
        empty table has none; it is unpinned again. */
    method DescendToLeaf(start: PageId, rightmost: bool, ghost c0: Ctx<Item>, ghost t0: Tree<Item>, ghost h0: nat)
      requires table.Valid() && pins == PinsOf(path) && At(table.store.pages, table.tree, path, c0, t0, h0) && start == t0.id
      modifies this
      ensures Valid() && (path == [] <==> Flat(table.tree) == [])
      ensures path != [] && !rightmost ==> Position() == |FlatLeft(c0)|
      ensures path != [] && rightmost ==> Position() + 1 == |FlatLeft(c0)| + |Flat(t0)|
    {
      var page := Descend(start, rightmost, c0, t0, h0);
      EdgeEnds(rightmost, c, leaf, c0, t0);
      EmptyOnlyAtRoot(table.tree, c, leaf, path);
      var cells := table.store.pages[page].cells;
      if |cells| == 0 {
        Unpin(page);
        return;
      }
      Land(page, if rightmost then |cells| - 1 else 0);
    }

    /** Keep the leaf on the path, at the given slot. */
    method Land(page: PageId, slot: nat)
      requires table.Valid() && GoingDown(page, 0) && leaf.TLeaf? && slot < |leaf.cells|
      modifies `path
      ensures Valid() && path != [] && Position() == |FlatLeft(c)| + slot
    {
      Keep(page, slot);
      assert path[..|path| - 1] == old(path);
    }

    method First()
      requires Valid()
      modifies this
      ensures Valid() && (path == [] <==> |Records()| == 0)
      ensures path != [] ==> Index() == 0
    {
      Close();
      AtRoot(table.store.pages, table.tree, table.height, Below(0));
      DescendToLeaf(table.root, false, Top, table.tree, table.height);
      if path != [] {
        Here();
        assert Flat(table.tree)[..0] == [];
      }
    }

    method Last()
      requires Valid()
      modifies this
      ensures Valid() && (path == [] <==> |Records()| == 0)
      ensures path != [] ==> Index() + 1 == |Records()|
    {
      Close();
      AtRoot(table.store.pages, table.tree, table.height, Below(0));
      DescendToLeaf(table.root, true, Top, table.tree, table.height);
      if path != [] {
        Here();
        LastRow(Flat(table.tree), Position());
      }
    }

    /** Past an exhausted subtree: pop ancestors until one has a further child. */
    method Advance(ghost c0: Ctx<Item>, ghost t0: Tree<Item>, ghost h0: nat, ghost end: nat, ghost more: bool) returns (found: bool)
      requires table.Valid() && pins == PinsOf(path) && At(table.store.pages, table.tree, path, c0, t0, h0)
      requires end == |FlatLeft(c0)| + |Flat(t0)| && (more <==> |FlatRight(c0)| > 0)
      modifies this
      ensures Valid() && (found <==> path != []) && (found <==> more)
      ensures found ==> Position() == end + 1
    {
      c, leaf := c0, t0;
      ghost var h := h0;
      while |path| > 0
        invariant table.Valid() && pins == PinsOf(path) && At(table.store.pages, table.tree, path, c, leaf, h)
        invariant FlatRight(c) == FlatRight(c0) && |FlatLeft(c)| + |Flat(leaf)| == |FlatLeft(c0)| + |Flat(t0)|
        decreases |path|
      {
        var at := path[|path| - 1];
        AtUp(table.store.pages, table.tree, path, c, leaf, h);
        if at.slot + 1 < |Children(table.store.pages[at.page])| {
          Hop(at.slot + 1, h);
          return true;
        }
        Exhausted(c, leaf, h);
        Pop();
        c, leaf, h := c.up, Fill(c, leaf), h + 1;
      }
      return false;
    }

    /** Move the last step to the next child and go down to its first row. */
    method Hop(slot: nat, ghost h: nat)
      requires table.Valid() && pins == PinsOf(path) && At(table.store.pages, table.tree, path, c, leaf, h)
      requires c.Frame? && |path| > 0 && slot == |c.left| + 1 && |c.right| > 0
      modifies this
      ensures Valid() && path != [] && |FlatRight(old(c))| > 0
      ensures Position() == |FlatLeft(old(c))| + |Flat(old(leaf))| + 1
    {
      ghost var c1, t1 := NextSlot(c, leaf), c.right[0];
      AtUp(table.store.pages, table.tree, path, c, leaf, h);
      AtNext(table.store.pages, table.tree, path, c, leaf, h);
      StepOver(c, leaf, table.tree, h);
      var at := path[|path| - 1];
      MovePin(path, slot);
      path := path[|path| - 1 := Step(at.page, slot)];
      DescendToLeaf(Children(table.store.pages[at.page])[slot], false, c1, t1, h);
    }

    /** Before an exhausted subtree: pop ancestors until one has an earlier child. */
    method Retreat(ghost c0: Ctx<Item>, ghost t0: Tree<Item>, ghost h0: nat, ghost start: nat) returns (found: bool)
      requires table.Valid() && pins == PinsOf(path) && At(table.store.pages, table.tree, path, c0, t0, h0) && start == |FlatLeft(c0)|
      modifies this
      ensures Valid() && (found <==> path != []) && (found <==> start > 0)
      ensures found ==> Position() + 2 == start
    {
      c, leaf := c0, t0;
      ghost var h := h0;
      while |path| > 0
        invariant table.Valid() && pins == PinsOf(path) && At(table.store.pages, table.tree, path, c, leaf, h)
        invariant FlatLeft(c) == FlatLeft(c0)
        decreases |path|
      {
        var at := path[|path| - 1];
        AtUp(table.store.pages, table.tree, path, c, leaf, h);
        if at.slot > 0 {
          HopBack(at.slot - 1, h);
          return true;
        }
        assert c.cells[..|c.left|] == [];
        Pop();
        c, leaf, h := c.up, Fill(c, leaf), h + 1;
      }
      return false;
    }

    /** Move the last step to the child before and go down to its last row. */
    method HopBack(slot: nat, ghost h: nat)
      requires table.Valid() && pins == PinsOf(path) && At(table.store.pages, table.tree, path, c, leaf, h)
      requires c.Frame? && |path| > 0 && slot + 1 == |c.left|
      modifies this
      ensures Valid() && path != [] && Position() + 2 == |FlatLeft(old(c))|
    {
      ghost var c1, t1 := PrevSlot(c, leaf), c.left[slot];
      AtUp(table.store.pages, table.tree, path, c, leaf, h);
      AtPrev(table.store.pages, table.tree, path, c, leaf, h);
      StepBack(c, leaf, table.tree, h);
      var at := path[|path| - 1];
      MovePin(path, slot);
      path := path[|path| - 1 := Step(at.page, slot)];
      DescendToLeaf(Children(table.store.pages[at.page])[slot], true, c1, t1, h);
    }

    /** Move within the leaf. */
    method Slide(slot: nat)
      requires Valid() && path != [] && slot < |leaf.cells|
      modifies `path
      ensures Valid() && path != [] && Position() == |FlatLeft(c)| + slot
    {
      MovePin(path, slot);
      var last := path[|path| - 1];
      path := path[|path| - 1 := Step(last.page, slot)];
      assert path[..|path| - 1] == old(path)[..|path| - 1];
    }

    /** To the next position that holds a row, past at most one fence. */
    method StepForward() returns (found: bool)
      requires Valid() && path != []
      modifies this
      ensures Valid() && (found <==> path != []) && old(Position()) < |Flat(table.tree)|
      ensures Flat(table.tree)[old(Position())].Row? && (found <==> old(Position()) + 1 < |Flat(table.tree)|)
      ensures found ==> Position() == Following(Flat(table.tree), old(Position()))
    {
      var last := path[|path| - 1];
      ghost var p := Position();
      AfterRow(table.tree, c, leaf, last.slot, p);
      if last.slot + 1 < |table.store.pages[last.page].cells| {
        Slide(last.slot + 1);
        return true;
      }
      ghost var c0, t0 := c, leaf;
      Pop();
      found := Advance(c0, t0, 0, p + 1, p + 1 < |Flat(table.tree)|);
    }

    /** To the next position down that holds a row. */
    method StepBackward() returns (found: bool)
      requires Valid() && path != []
      modifies this
      ensures Valid() && (found <==> path != []) && old(Position()) < |Flat(table.tree)|
      ensures found <==> old(Position()) > 0
      ensures found ==> Position() == Preceding(Flat(table.tree), old(Position()))
    {
      var last := path[|path| - 1];
      ghost var p := Position();
      BeforeRow(table.tree, c, leaf, last.slot, p);
      if last.slot >= 1 {
        Slide(last.slot - 1);
        return true;
      }
      ghost var c0, t0 := c, leaf;
      Pop();
      found := Retreat(c0, t0, 0, p);
    }

    /** To the next-larger rowid; off the end, the cursor holds no page. */
    method Next() returns (found: bool)
      requires Valid()
      modifies this
      ensures Valid() && (found <==> path != [])
      ensures old(path) == [] ==> !found
      ensures old(path) != [] ==> (found <==> old(Index()) + 1 < |Records()|)
      ensures found ==> Index() == old(Index()) + 1
    {
      if |path| == 0 {
        return false;
      }
      ghost var p := Position();
      found := StepForward();
      RowAfter(Flat(table.tree), p);
      if found { Here(); }
    }

    /** To the next-smaller rowid. */
    method Prev() returns (found: bool)
      requires Valid()
      modifies this
      ensures Valid() && (found <==> path != [])
      ensures old(path) == [] ==> !found
      ensures old(path) != [] ==> (found <==> old(Index()) > 0)
      ensures found ==> Index() + 1 == old(Index())
    {
      if |path| == 0 {
        return false;
      }
      ghost var p := Position();
      found := StepBackward();
      if found { Here(); }
      RowBefore(Flat(table.tree), p);
    }

    /** Down to the leaf a key belongs on, which is pinned but not yet on the path. */
    method SeekLeaf(key: int) returns (page: PageId, idx: nat)
      requires table.Valid() && path == [] && pins == multiset{}
      modifies this
      ensures GoingDown(page, 0)
      ensures LowerSlot(leaf, c, idx, key)
    {
      hide PageStore.Valid;
      page := table.root;
      Pin(page);
      c, leaf := Top, table.tree;
      ghost var h := table.height;
      AtRoot(table.store.pages, table.tree, h, Below(key));
      ProbeIsMonotone(Flat(table.tree), key);
      while table.store.pages[page].InteriorPage?
        invariant GoingDown(page, h)
        invariant Straddles(c, Below(key)) && Monotone(Flat(leaf), Below(key))
        decreases h
      {
        page := SeekDown(page, key, h);
        h := h - 1;
      }
      idx := LowerBound(table.store.pages[page].cells, Below(key));
    }

    /** Into the child that the key belongs to. */
    method SeekDown(page: PageId, key: int, ghost h: nat) returns (child: PageId)
      requires GoingDown(page, h) && table.store.pages[page].InteriorPage?
      requires Straddles(c, Below(key)) && Monotone(Flat(leaf), Below(key))
      modifies this
      ensures h > 0 && GoingDown(child, h - 1) && Straddles(c, Below(key)) && Monotone(Flat(leaf), Below(key))
    {
      ReadNode(table.store.pages, leaf, h);
      CellsMonotone(leaf.cells, leaf.kids, Below(key));
      var slot := LowerBound(Seps(table.store.pages[page]), Below(key));
      StraddlesKid(c, leaf, h, slot, Below(key));
      child := GoDown(page, slot, h);
    }

    /** The leaf has no row at or above the key: unpin it and go on to the next. */
    method PassLeaf(page: PageId, ghost p: nat) returns (more: bool)
      requires table.Valid() && GoingDown(page, 0) && p == |FlatLeft(c)| + |Flat(leaf)| && (|FlatRight(c)| > 0 <==> p < |Flat(table.tree)|)
      modifies this
      ensures Valid() && (more <==> path != []) && (more <==> p < |Flat(table.tree)|)
      ensures more ==> Position() == p + 1
    {
      Unpin(page);
      ghost var c0, t0 := c, leaf;
      more := Advance(c0, t0, 0, p, p < |Flat(table.tree)|);
    }

    /** To the key, or else to the smallest rowid above it. */
    method Seek(key: int) returns (found: bool, ghost p: nat)
      requires Valid()
      modifies this
      ensures Valid() && (found <==> key in table.Contents())
      ensures SplitHere(Flat(table.tree), p, key)
      ensures p == if path == [] then |Flat(table.tree)| else Position()
    {
      hide OnRow;
      Close();
      var page, idx := SeekLeaf(key);
      p := |FlatLeft(c)| + idx;
      SeekSplits(table.tree, c, leaf, idx, key, p);
      var cells := table.store.pages[page].cells;
      if idx < |cells| {
        found := cells[idx].rowid == key;
        Land(page, idx);
        return;
      }
      var more := PassLeaf(page, p);
      p := if more then p + 1 else p;
      found := false;
    }
  }

  /** The rows below the key are those before its lower bound. */
  lemma SeekSplits(t: Tree<Item>, c: Ctx<Item>, leaf: Tree<Item>, idx: nat, key: int, p: nat)
    requires LowerSlot(leaf, c, idx, key) && CtxShape(c, 0) && Plug(c, leaf) == t && PagesOk(t) && Sorted(Flat(t))
    requires p == |FlatLeft(c)| + idx
    ensures SplitHere(Flat(t), p, key) && (idx < |leaf.cells| ==> leaf.cells[idx].Row?)
    ensures idx == |leaf.cells| ==> p == |FlatLeft(c)| + |Flat(leaf)| && (|FlatRight(c)| > 0 <==> p < |Flat(t)|)
    ensures idx == |leaf.cells| && p < |Flat(t)| ==> SplitHere(Flat(t), p + 1, key)
    ensures Taken(leaf, idx, key) <==> key in Table(Flat(t))
  {
    LeafNotEmpty(t, c, leaf);
    LeafFitsIn(t, c, leaf);
    TakenIffPresent(c, leaf, idx, key, t);
    LaidOut(t, c, leaf);
    SplitsAt(FlatLeft(c), leaf.cells, FlatRight(c), idx, key);
  }

  /** The rows among the first p items are exactly those with rowids below the key. */
  ghost predicate SplitHere(s: seq<Item>, p: nat, key: int) {
    && p <= |s|
    && (forall i :: 0 <= i < |Rows(s)| ==> Rows(s)[i].Row?)
    && (forall i :: 0 <= i < |Rows(s)| ==> (Rows(s)[i].rowid < key <==> i < |Rows(s[..p])|))
  }

  lemma LeafFitsIn(t: Tree<Item>, c: Ctx<Item>, leaf: Tree<Item>)
    requires PagesOk(t) && Plug(c, leaf) == t && leaf.TLeaf?
    ensures LeafFits(leaf.cells)
  {
    PlugTop(c, leaf);
    PlugAll(c, leaf, Rule);
  }

  lemma SplitsAt(l: seq<Item>, x: seq<Item>, r: seq<Item>, idx: nat, key: int)
    requires Laid(l, x, r) && idx <= |x| && AllBelow(l, Below(key)) && NoneBelow(r, Below(key))
    requires AllBelow(x[..idx], Below(key)) && NoneBelow(x[idx..], Below(key))
    ensures SplitHere(l + x + r, |l| + idx, key)
    ensures idx == |x| && |r| > 0 ==> SplitHere(l + x + r, |l| + |x| + 1, key)
  {
    var s, p := l + x + r, |l| + idx;
    assert s[..p] == l + x[..idx];
    assert s[p..] == x[idx..] + r;
    RowsSplitAt(s, p, key);
    if idx == |x| && |r| > 0 { RowsNext(s, p); }
  }

  /** The position after p that holds a row, if p is not the last. */
  ghost function Following(s: seq<Item>, p: nat): nat {
    if p + 1 < |s| && s[p + 1].Fence? then p + 2 else p + 1
  }

  ghost function Preceding(s: seq<Item>, p: nat): int {
    if 0 < p <= |s| && s[p - 1].Fence? then p - 2 else p - 1
  }

  /** The rows of a leaf between what is left and right of it: fences, if anything. */
  ghost predicate Laid(l: seq<Item>, x: seq<Item>, r: seq<Item>) {
    && (forall i :: 0 <= i < |x| ==> x[i].Row?)
    && (|l| > 0 ==> l[|l| - 1].Fence?)
    && (|r| > 0 ==> r[0].Fence?)
  }

  lemma LaidOut(t: Tree<Item>, c: Ctx<Item>, leaf: Tree<Item>)
    requires leaf.TLeaf? && CtxShape(c, 0) && Plug(c, leaf) == t && PagesOk(t)
    ensures Flat(t) == FlatLeft(c) + leaf.cells + FlatRight(c) && Laid(FlatLeft(c), leaf.cells, FlatRight(c))
  {
    PlugFlat(c, leaf, 0);
    LeafNotEmpty(t, c, leaf);
    forall i | 0 <= i < |leaf.cells| ensures leaf.cells[i].Row? { assert GoodRow(leaf.cells[i]); }
    if |FlatLeft(c)| > 0 { FencePrecedes(c, 0); }
    if |FlatRight(c)| > 0 { FenceFollows(c, 0); }
  }

  /** After a row: the next row of its leaf, or a fence and then a row, or nothing. */
  lemma WhatFollows(l: seq<Item>, x: seq<Item>, r: seq<Item>, slot: nat)
    requires Laid(l, x, r) && slot < |x|
    ensures
      var s, p := l + x + r, |l| + slot;
      && p < |s| && s[p].Row? && s[p] == x[slot]
      && (slot + 1 < |x| ==> p + 1 < |s| && Following(s, p) == |l| + (slot + 1))
      && (slot + 1 == |x| ==> (|r| > 0 <==> p + 1 < |s|))
      && (slot + 1 == |x| && |r| > 0 ==> Following(s, p) == |l| + |x| + 1)
  {
    var s, p := l + x + r, |l| + slot;
    if slot + 1 < |x| { assert s[p + 1] == x[slot + 1]; } else if |r| > 0 { assert s[p + 1] == r[0]; }
  }

  lemma WhatPrecedes(l: seq<Item>, x: seq<Item>, r: seq<Item>, slot: nat)
    requires Laid(l, x, r) && slot < |x|
    ensures
      var s, p := l + x + r, |l| + slot;
      && p < |s|
      && (slot > 0 ==> Preceding(s, p) == |l| + (slot - 1))
      && (slot == 0 && |l| > 0 ==> Preceding(s, p) == |l| - 2)
  {
    var s, p := l + x + r, |l| + slot;
    if slot > 0 { assert s[p - 1] == x[slot - 1]; } else if |l| > 0 { assert s[p - 1] == l[|l| - 1]; }
  }

  lemma AfterRow(t: Tree<Item>, c: Ctx<Item>, leaf: Tree<Item>, slot: nat, p: nat)
    requires leaf.TLeaf? && slot < |leaf.cells| && CtxShape(c, 0) && Plug(c, leaf) == t && PagesOk(t) && p == |FlatLeft(c)| + slot
    ensures p < |Flat(t)| && Flat(t)[p].Row? && Flat(t)[p] == leaf.cells[slot]
    ensures slot + 1 < |leaf.cells| ==> p + 1 < |Flat(t)| && Following(Flat(t), p) == p + 1
    ensures slot + 1 == |leaf.cells| ==> p + 1 == |FlatLeft(c)| + |Flat(leaf)|
    ensures slot + 1 == |leaf.cells| ==> (|FlatRight(c)| > 0 <==> p + 1 < |Flat(t)|)
    ensures slot + 1 == |leaf.cells| && p + 1 < |Flat(t)| ==> Following(Flat(t), p) == p + 2
  {
    LaidOut(t, c, leaf);
    hide PagesOk, CtxShape, Plug, FlatLeft, FlatRight, Laid;
    WhatFollows(FlatLeft(c), leaf.cells, FlatRight(c), slot);
  }

  lemma BeforeRow(t: Tree<Item>, c: Ctx<Item>, leaf: Tree<Item>, slot: nat, p: nat)
    requires leaf.TLeaf? && slot < |leaf.cells| && CtxShape(c, 0) && Plug(c, leaf) == t && PagesOk(t) && p == |FlatLeft(c)| + slot
    ensures p < |Flat(t)|
    ensures slot > 0 ==> Preceding(Flat(t), p) == p - 1
    ensures slot == 0 ==> p == |FlatLeft(c)|
    ensures slot == 0 && p > 0 ==> Preceding(Flat(t), p) == p - 2
  {
    LaidOut(t, c, leaf);
    WhatPrecedes(FlatLeft(c), leaf.cells, FlatRight(c), slot);
  }

  /** The row after is one further, or two across a fence. */
  lemma RowAfter(s: seq<Item>, p: nat)
    requires p < |s| && s[p].Row?
    ensures Following(s, p) <= |s| && |Rows(s[..Following(s, p)])| == |Rows(s[..p])| + 1
    ensures p + 1 == |s| ==> |Rows(s)| == |Rows(s[..p])| + 1
  {
    RowsNext(s, p);
    if p + 1 < |s| { RowsNext(s, p + 1); } else { assert s[..p + 1] == s; }
  }

  lemma RowBefore(s: seq<Item>, p: nat)
    requires p <= |s| && (0 <= Preceding(s, p) ==> s[Preceding(s, p)].Row?)
    ensures 0 <= Preceding(s, p) ==> |Rows(s[..p])| == |Rows(s[..Preceding(s, p)])| + 1
    ensures p == 0 ==> |Rows(s[..p])| == 0
  {
    if p >= 1 { RowsNext(s, p - 1); }
    if p >= 2 { RowsNext(s, p - 2); }
  }

  lemma ReadNode(m: map<PageId, Page<Item>>, t: Tree<Item>, h: nat)
    requires Rep(m, t) && Shape(t, h) && m[t.id].InteriorPage?
    ensures h > 0 && t.TNode? && |m[t.id].routed| == |t.cells| && |t.kids| == |t.cells| + 1 && Seps(m[t.id]) == t.cells
  {
  }

  /** Going down one edge keeps what is left of it, or what is left up to it. */
  ghost predicate OnEdge(rightmost: bool, c: Ctx<Item>, t: Tree<Item>, c0: Ctx<Item>, t0: Tree<Item>) {
    if rightmost then FlatLeft(c) + Flat(t) == FlatLeft(c0) + Flat(t0) else FlatLeft(c) == FlatLeft(c0)
  }

  lemma EdgeEnds(rightmost: bool, c: Ctx<Item>, leaf: Tree<Item>, c0: Ctx<Item>, t0: Tree<Item>)
    requires OnEdge(rightmost, c, leaf, c0, t0) && leaf.TLeaf?
    ensures if rightmost then |FlatLeft(c)| + |leaf.cells| == |FlatLeft(c0)| + |Flat(t0)| else |FlatLeft(c)| == |FlatLeft(c0)|
  {
    assert rightmost ==> |FlatLeft(c) + leaf.cells| == |FlatLeft(c0) + Flat(t0)|;
  }

  lemma EdgeStep(rightmost: bool, c: Ctx<Item>, t: Tree<Item>, c0: Ctx<Item>, t0: Tree<Item>, h: nat)
    requires OnEdge(rightmost, c, t, c0, t0) && t.TNode? && Shape(t, h)
    ensures
      var slot := if rightmost then |t.cells| else 0;
      OnEdge(rightmost, Enter(c, t, slot), t.kids[slot], c0, t0)
  {
    EdgeKids(c, t, h);
  }

  lemma EmptyOnlyAtRoot(t: Tree<Item>, c: Ctx<Item>, leaf: Tree<Item>, path: seq<Step>)
    requires PagesOk(t) && Plug(c, leaf) == t && leaf.TLeaf? && CtxShape(c, 0) && Follows(path, c)
    ensures |leaf.cells| == 0 ==> path == [] && Flat(t) == []
    ensures |leaf.cells| > 0 ==> Flat(t) != []
  {
    PlugFlat(c, leaf, 0);
    LeafNotEmpty(t, c, leaf);
  }

  lemma StepOver(c: Ctx<Item>, t: Tree<Item>, whole: Tree<Item>, h: nat)
    requires c.Frame? && CtxShape(c, h) && |c.right| > 0 && Plug(c, t) == whole
    ensures |FlatLeft(NextSlot(c, t))| == |FlatLeft(c)| + |Flat(t)| + 1 && |FlatRight(c)| > 0 && Flat(whole) != []
  {
    var i := |c.left|;
    FlatNext(c, t);
    assert c.cells[..i + 1] == c.cells[..i] + [c.cells[i]];
    FlatBeforeAppend(c.cells[..i], c.left, c.cells[i], t);
    PlugFlat(c, t, h);
  }

  lemma StepBack(c: Ctx<Item>, t: Tree<Item>, whole: Tree<Item>, h: nat)
    requires c.Frame? && CtxShape(c, h) && |c.left| > 0 && Plug(c, t) == whole
    ensures
      var prev := c.left[|c.left| - 1];
      |FlatLeft(PrevSlot(c, t))| + |Flat(prev)| + 1 == |FlatLeft(c)| && Flat(whole) != []
  {
    FlatPrev(c, t);
    PlugFlat(c, t, h);
  }

  lemma Exhausted(c: Ctx<Item>, t: Tree<Item>, h: nat)
    requires c.Frame? && CtxShape(c, h) && |c.right| == 0
    ensures FlatRight(c.up) == FlatRight(c)
    ensures |FlatLeft(c.up)| + |Flat(Fill(c, t))| == |FlatLeft(c)| + |Flat(t)|
  {
    assert c.cells[|c.left|..] == [];
    FlatCut(c.cells, c.left, t, c.right);
  }
}
