/** The bytes of a tree's pages: the space accounting of the trees is that of the
    encoded cells on a slotted page, so what fits by the one can be laid out by
    the other. */
module PageBytes {
  import opened Basics
  import opened TreeCells
  import opened Trees
  import opened Split
  import opened CellSizes
  import Cascade
  import Cells
  import IndexTree
  import Layout = PageLayout
  import Overflow
  import TableInsert
  import TableTree
  import Tables
  import Varint

  /** These bytes are the cell on a page: its payload cut at the threshold, with some
      link if it spills, and with some child before it on an interior page. */
  ghost predicate CellBytes(x: Cell, leaf: bool, bytes: seq<Varint.Byte>) {
    match x
    case Row(rowid, payload, _) =>
      leaf && InRowidRange(rowid) && exists p :: Cut(p, TABLE_MAX_LOCAL, |payload|) && bytes == Cells.LeafTableCell(rowid, p)
    case Fence(at) =>
      !leaf && InRowidRange(at) && exists child :: Child(child) && bytes == Cells.InteriorTableCell(child, at)
    case Entry(_, len, _) =>
      if leaf then exists p :: Cut(p, INDEX_MAX_LOCAL, len) && bytes == Cells.LeafIndexCell(p)
      else exists p, child :: Cut(p, INDEX_MAX_LOCAL, len) && Child(child) && bytes == Cells.InteriorIndexCell(child, p)
  }

  ghost predicate Cut(p: Cells.Payload, maxLocal: nat, total: nat) {
    Cells.ValidCut(maxLocal, p) && p.total == total
  }

  ghost predicate Child(child: nat) {
    child < Cells.TWO_32
  }

  ghost predicate AllBytes(cells: seq<Cell>, leaf: bool, encoded: seq<seq<Varint.Byte>>) {
    |encoded| == |cells| && forall i :: 0 <= i < |cells| ==> CellBytes(cells[i], leaf, encoded[i])
  }

  ghost predicate AllRows(cells: seq<Cell>) {
    forall i :: 0 <= i < |cells| ==> cells[i].Row?
  }

  /** The trees and the bytes speak of the same pages: the sizes agree, and a chain has as
      many pages as the bytes that spill take up, beside a four-byte link on each. */
  lemma ChainLength(maxLocal: nat, len: nat)
    requires MIN_LOCAL <= maxLocal
    ensures PAGE_SIZE == USABLE_SIZE == Layout.SIZE == 4 + Overflow.CONTENT == 4096
    ensures ChainPages(maxLocal, len) == Overflow.PageCount(len - LocalSize(maxLocal, len))
  {
  }

  // ---- One cell ----

  lemma RowLength(x: Cell, bytes: seq<Varint.Byte>)
    requires x.Row? && CellBytes(x, true, bytes)
    ensures |bytes| + 2 == TableTree.LeafWeight(x)
  {
    var p :| Cut(p, TABLE_MAX_LOCAL, |x.payload|) && bytes == Cells.LeafTableCell(x.rowid, p);
    Cells.LeafTableLength(x.rowid, p);
  }

  lemma FenceLength(x: Cell, bytes: seq<Varint.Byte>)
    requires x.Fence? && CellBytes(x, false, bytes)
    ensures |bytes| + 2 == TableTree.FenceWeight(x)
  {
    var child :| Child(child) && bytes == Cells.InteriorTableCell(child, x.at);
    Cells.InteriorTableLength(child, x.at);
  }

  lemma EntryLength(x: Cell, leaf: bool, bytes: seq<Varint.Byte>)
    requires x.Entry? && CellBytes(x, leaf, bytes)
    ensures |bytes| + 2 == IndexTree.Weight(leaf)(x)
  {
    if leaf {
      var p :| Cut(p, INDEX_MAX_LOCAL, x.entryLen) && bytes == Cells.LeafIndexCell(p);
      Cells.IndexLength(0, p);
    } else {
      var p, child :| Cut(p, INDEX_MAX_LOCAL, x.entryLen) && Child(child) && bytes == Cells.InteriorIndexCell(child, p);
      Cells.IndexLength(child, p);
    }
  }

  // ---- A page of them ----

  lemma {:induction false} TotalIsBytes(cells: seq<Cell>, encoded: seq<seq<Varint.Byte>>, w: Cell -> nat)
    requires |encoded| == |cells| && forall i :: 0 <= i < |cells| ==> |encoded[i]| + 2 == w(cells[i])
    ensures Bytes(cells, w) == 2 * |cells| + Layout.Total(encoded)
    decreases |cells|
  {
    if |cells| > 0 {
      var n := |cells| - 1;
      TotalIsBytes(cells[..n], encoded[..n], w);
      BytesTake(cells, n, w);
      assert cells[..n + 1] == cells;
    }
  }

  /** The page that these cells are laid out as. */
  function BodyOf(table: bool, leaf: bool, encoded: seq<seq<Varint.Byte>>, right: nat): Layout.Body {
    Layout.Body(if table then (if leaf then Layout.LeafTable else Layout.InteriorTable)
                else if leaf then Layout.LeafIndex else Layout.InteriorIndex, encoded, right, 0)
  }

  /** Rows fit on a leaf exactly if the leaf can be laid out in a page. */
  lemma LeafOfRows(cells: seq<Cell>, encoded: seq<seq<Varint.Byte>>)
    requires AllRows(cells) && AllBytes(cells, true, encoded)
    ensures Bytes(cells, TableTree.LeafWeight) <= LEAF_ROOM <==> Layout.Storable(BodyOf(true, true, encoded, 0))
  {
    forall i | 0 <= i < |cells| ensures |encoded[i]| + 2 == TableTree.LeafWeight(cells[i]) { RowLength(cells[i], encoded[i]); }
    TotalIsBytes(cells, encoded, TableTree.LeafWeight);
  }

  lemma InteriorOfFences(cells: seq<Cell>, encoded: seq<seq<Varint.Byte>>, right: nat)
    requires Cascade.AllGood(cells, TableTree.GoodFence) && AllBytes(cells, false, encoded) && Child(right)
    ensures Bytes(cells, TableTree.FenceWeight) <= INTERIOR_ROOM <==> Layout.Storable(BodyOf(true, false, encoded, right))
  {
    forall i | 0 <= i < |cells| ensures |encoded[i]| + 2 == TableTree.FenceWeight(cells[i]) { FenceLength(cells[i], encoded[i]); }
    TotalIsBytes(cells, encoded, TableTree.FenceWeight);
  }

  /** Entries fit on a page of either kind exactly if it can be laid out. */
  lemma PageOfEntries(cells: seq<Cell>, leaf: bool, n: nat, encoded: seq<seq<Varint.Byte>>, right: nat)
    requires Cascade.AllGood(cells, IndexTree.Good(n)) && AllBytes(cells, leaf, encoded) && Child(right) && (leaf ==> right == 0)
    ensures Bytes(cells, IndexTree.Weight(leaf)) <= Room(leaf) <==> Layout.Storable(BodyOf(false, leaf, encoded, right))
  {
    forall i | 0 <= i < |cells| ensures |encoded[i]| + 2 == IndexTree.Weight(leaf)(cells[i]) {
      assert IndexTree.Good(n)(cells[i]);
      EntryLength(cells[i], leaf, encoded[i]);
    }
    TotalIsBytes(cells, encoded, IndexTree.Weight(leaf));
  }

  // ---- Every page of a tree ----

  /** Every page of a table, wherever it is, can be laid out. */
  lemma TablePageStorable(c: Ctx<Cell>, x: Tree<Cell>, encoded: seq<seq<Varint.Byte>>, right: nat)
    requires TableTree.PagesOk(Plug(c, x)) && AllBytes(x.cells, x.TLeaf?, encoded) && Child(right) && (x.TLeaf? ==> right == 0)
    ensures Layout.Storable(BodyOf(true, x.TLeaf?, encoded, right))
  {
    PlugAll(c, x, TableTree.Rule);
    PlugTop(c, x);
    if x.TLeaf? { LeafOfRows(x.cells, encoded); } else { InteriorOfFences(x.cells, encoded, right); }
  }

  /** And so can every page of an index. */
  lemma IndexPageStorable(c: Ctx<Cell>, x: Tree<Cell>, n: nat, encoded: seq<seq<Varint.Byte>>, right: nat)
    requires IndexTree.PagesOk(Plug(c, x), n) && AllBytes(x.cells, x.TLeaf?, encoded) && Child(right) && (x.TLeaf? ==> right == 0)
    ensures Layout.Storable(BodyOf(false, x.TLeaf?, encoded, right))
  {
    PlugAll(c, x, IndexTree.Rule(n));
    PlugTop(c, x);
    PageOfEntries(x.cells, x.TLeaf?, n, encoded, right);
  }

  // ---- A row that is refused ----

  ghost predicate Laid(encoded: seq<seq<Varint.Byte>>) {
    Layout.Used(BodyOf(true, true, encoded, 0)) <= Layout.SIZE
  }

  /** Overfull means: the leaf takes more than a page, and so does one side of every
      cut in two. */
  lemma OverfullBytes(cells: seq<Cell>, encoded: seq<seq<Varint.Byte>>)
    requires AllRows(cells) && AllBytes(cells, true, encoded)
    ensures Tables.Overfull(cells) <==> !Laid(encoded) && forall k :: 1 <= k < |encoded| ==> !(Laid(encoded[..k]) && Laid(encoded[k..]))
  {
    LeafOfRows(cells, encoded);
    forall k | 1 <= k < |encoded| ensures TableInsert.FitsAt(cells, k) <==> Laid(encoded[..k]) && Laid(encoded[k..]) {
      LeafOfRows(cells[..k], encoded[..k]);
      LeafOfRows(cells[k..], encoded[k..]);
    }
  }

  lemma CrowdedRows(t: Tree<Cell>, x: Cell, cells: seq<Cell>)
    requires TableTree.PagesOk(t) && Tables.Crowded(t, x, cells)
    ensures AllRows(cells)
  {
    var c, leaf, slot :| Tables.CrowdedAt(t, x, cells, c, leaf, slot);
    LeafRows(c, leaf);
  }

  lemma LeafRows(c: Ctx<Cell>, leaf: Tree<Cell>)
    requires TableTree.PagesOk(Plug(c, leaf)) && leaf.TLeaf?
    ensures AllRows(leaf.cells)
  {
    PlugAll(c, leaf, TableTree.Rule);
    PlugTop(c, leaf);
  }

  /** So a row is refused exactly if the bytes of the leaf it belongs on, with the row
      in its place, do not fit on a page, and for no cut in two on two. */
  lemma RefusedBytes(t: Tree<Cell>, h: nat, x: Cell, cells: seq<Cell>, encoded: seq<seq<Varint.Byte>>)
    requires TableTree.PagesOk(t) && Shape(t, h) && Tables.Crowded(t, x, cells) && AllBytes(cells, true, encoded)
    ensures Tables.Refuses(t, x) <==> !Laid(encoded) && forall k :: 1 <= k < |encoded| ==> !(Laid(encoded[..k]) && Laid(encoded[k..]))
  {
    CrowdedRows(t, x, cells);
    OverfullBytes(cells, encoded);
    hide AllBytes, Laid, TableTree.PagesOk;
    if Tables.Refuses(t, x) {
      var other :| Tables.Crowded(t, x, other) && Tables.Overfull(other);
      Tables.CrowdedUnique(t, h, x, cells, other);
    }
  }
}
