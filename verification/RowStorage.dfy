/** A row through all layers: record, local and spilled part, cell, chain and page,
    and back. */
module RowStorage {
  import opened Basics
  import opened Varint
  import opened Record
  import opened Cells
  import CellSizes
  import PageLayout
  import Overflow

  /** The row as it is stored: its record, the pages of the part that spills, the
      first of them, and the cell. */
  datatype Stored = Stored(rowid: int, row: seq<Column>, record: seq<Byte>, local: nat, chain: seq<nat>, first: nat)

  ghost predicate WellStored(s: Stored, types: seq<seq<Byte>>, bodies: seq<seq<Byte>>, h: nat, m: map<nat, Overflow.Link>) {
    && CellSizes.InRowidRange(s.rowid) && IsRecord(s.record, s.row, types, bodies, h)
    && |s.record| < TWO_64 && s.local == CellSizes.LocalSize(CellSizes.TABLE_MAX_LOCAL, |s.record|) && s.first < TWO_32
    && (s.first != 0 <==> s.local < |s.record|)
    && Overflow.Chained(m, s.first, |s.record| - s.local, s.chain, s.record[s.local..])
  }

  function PayloadOf(s: Stored): Payload
    requires s.local <= |s.record|
  {
    Payload(|s.record|, s.record[..s.local], s.first)
  }

  /** Parse the page, decode the cell in the slot, fetch what spilled, decode the row. */
  method ReadRow(data: seq<Byte>, slot: nat, m: map<nat, Overflow.Link>,
      ghost b: PageLayout.Body, ghost s: Stored, ghost types: seq<seq<Byte>>, ghost bodies: seq<seq<Byte>>, ghost h: nat)
    returns (rowid: int, row: Option<seq<Column>>)
    requires |data| == PageLayout.SIZE && (forall x :: x in m ==> |m[x].bytes| == Overflow.CONTENT)
    ensures
      PageLayout.Layout(data, b) && PageLayout.Storable(b) && b.start == 0 && slot < |b.cells| && WellStored(s, types, bodies, h, m)
      && b.cells[slot] == LeafTableCell(s.rowid, PayloadOf(s))
      ==> rowid == s.rowid && row == Some(s.row)
  {
    var body := PageLayout.Parse(data, 0);
    if PageLayout.Layout(data, b) && PageLayout.Storable(b) && b.start == 0 {
      PageLayout.ReadBack(data, b, if body.Some? then body.value else b);
    }
    if body.None? || slot >= |body.value.cells| {
      return 0, None;
    }
    rowid, row := ReadCell(body.value.cells[slot], m, s, types, bodies, h);
  }

  method ReadCell(cell: seq<Byte>, m: map<nat, Overflow.Link>, ghost s: Stored, ghost types: seq<seq<Byte>>, ghost bodies: seq<seq<Byte>>, ghost h: nat)
    returns (rowid: int, row: Option<seq<Column>>)
    requires forall x :: x in m ==> |m[x].bytes| == Overflow.CONTENT
    ensures WellStored(s, types, bodies, h, m) && cell == LeafTableCell(s.rowid, PayloadOf(s)) ==> rowid == s.rowid && row == Some(s.row)
  {
    ghost var good := WellStored(s, types, bodies, h, m) && cell == LeafTableCell(s.rowid, PayloadOf(s));
    if good { LeafTableRoundTrip(s.rowid, PayloadOf(s)); }
    var leaf := DecodeLeafTable(cell);
    if leaf.None? {
      return 0, None;
    }
    rowid := leaf.value.rowid;
    var record := Gather(leaf.value.payload, m, s, good, types, bodies, h);
    row := None;
    if record.Some? {
      if good { WholeRecord(s, types, bodies, h, record.value); }
      row := Decode(record.value, 0);
    }
  }

  /** The local part and the rest from the chain. */
  method Gather(p: Payload, m: map<nat, Overflow.Link>, ghost s: Stored, ghost good: bool,
      ghost types: seq<seq<Byte>>, ghost bodies: seq<seq<Byte>>, ghost h: nat)
    returns (r: Option<seq<Byte>>)
    requires forall x :: x in m ==> |m[x].bytes| == Overflow.CONTENT
    requires good ==> WellStored(s, types, bodies, h, m) && p == PayloadOf(s)
    ensures good ==> r == Some(s.record)
  {
    if good { assert s.record == s.record[..s.local] + s.record[s.local..]; }
    if p.overflow == 0 {
      if good { assert s.record[..|s.record|] == s.record; }
      return Some(p.local);
    }
    if |p.local| > p.total {
      return None;
    }
    var rest := Overflow.ReadChain(m, p.overflow, p.total - |p.local|, s.chain, if good then s.record[s.local..] else []);
    if !rest.Bytes? {
      return None;
    }
    return Some(p.local + rest.data);
  }

  lemma WholeRecord(s: Stored, types: seq<seq<Byte>>, bodies: seq<seq<Byte>>, h: nat, data: seq<Byte>)
    requires IsRecord(s.record, s.row, types, bodies, h) && data == s.record
    ensures DecodeRecord(data, 0) == Some(s.row)
  {
    RecordRoundTrip(s.row, types, bodies, h, s.record, data, 0);
  }

  // ---- Writing ----

  datatype Storage =
    | NotEncodable
    | TooFewPages
    | PageFull
    | OnPage(data: seq<Byte>, pages: map<nat, Overflow.Link>)

  /** Pages that a chain may be written on: they exist, they differ, none is page 0,
      and their numbers fit in a link. */
  ghost predicate Spare(m: map<nat, Overflow.Link>, ids: seq<nat>) {
    && (forall i :: 0 <= i < |ids| ==> ids[i] in m && |m[ids[i]].bytes| == Overflow.CONTENT && 0 < ids[i] < TWO_32)
    && (forall i, j :: 0 <= i < j < |ids| ==> ids[i] != ids[j])
  }

  function Page(cells: seq<seq<Byte>>): PageLayout.Body {
    PageLayout.Body(PageLayout.LeafTable, cells, 0, 0)
  }

  /** The page with one more cell. */
  function WithCell(cells: seq<seq<Byte>>, slot: nat, cell: seq<Byte>): PageLayout.Body
    requires slot <= |cells|
  {
    Page(cells[..slot] + [cell] + cells[slot..])
  }

  /** The record of the row, its cut, and the spare pages for what spills. */
  ghost predicate Prepared(s: Stored, rowid: int, row: seq<Column>, types: seq<seq<Byte>>, bodies: seq<seq<Byte>>, h: nat, spare: seq<nat>) {
    && s.rowid == rowid && s.row == row && IsRecord(s.record, row, types, bodies, h) && |s.record| < TWO_64
    && s.local == CellSizes.LocalSize(CellSizes.TABLE_MAX_LOCAL, |s.record|)
    && s.chain <= spare && |s.chain| == Overflow.PageCount(|s.record| - s.local)
    && s.first == (if |s.chain| > 0 then spare[0] else 0) && s.first < TWO_32
  }

  /** Encode the row, cut the record, make the cell, and if the page has room for it
      write what spills on spare pages and lay out the page. An empty page takes any
      row. */
  method StoreRow(rowid: int, row: seq<Column>, cells: seq<seq<Byte>>, slot: nat, m0: map<nat, Overflow.Link>, spare: seq<nat>)
    returns (r: Storage, ghost s: Stored, ghost types: seq<seq<Byte>>, ghost bodies: seq<seq<Byte>>, ghost h: nat)
    requires CellSizes.InRowidRange(rowid) && slot <= |cells| && Spare(m0, spare)
    ensures r.OnPage? || r.PageFull? ==> Prepared(s, rowid, row, types, bodies, h, spare)
    ensures r.OnPage? ==>
              && WellStored(s, types, bodies, h, r.pages)
              && PageLayout.Layout(r.data, WithCell(cells, slot, LeafTableCell(rowid, PayloadOf(s))))
              && PageLayout.Storable(WithCell(cells, slot, LeafTableCell(rowid, PayloadOf(s))))
              && r.pages.Keys == m0.Keys && forall x :: x in m0 && x !in s.chain ==> r.pages[x] == m0[x]
    ensures r.NotEncodable? ==>
              || !AllEncodable(row) || (Parts(row, types, bodies) && |Joined(types)| + 9 >= TWO_64)
              || (IsRecord(s.record, row, types, bodies, h) && |s.record| >= TWO_64)
    ensures r.TooFewPages? ==> IsRecord(s.record, row, types, bodies, h) && |spare| < CellSizes.ChainPages(CellSizes.TABLE_MAX_LOCAL, |s.record|)
    ensures r.PageFull? ==> cells != [] && PageLayout.Used(WithCell(cells, slot, LeafTableCell(rowid, PayloadOf(s)))) > PageLayout.SIZE
  {
    s := Stored(rowid, row, [], 0, [], 0);
    var record;
    record, types, bodies, h := EncodeRecord(row);
    if record.None? {
      return NotEncodable, s, types, bodies, h;
    }
    s := s.(record := record.value);
    if |record.value| >= TWO_64 {
      return NotEncodable, s, types, bodies, h;
    }
    var local := CellSizes.LocalSize(CellSizes.TABLE_MAX_LOCAL, |record.value|);
    var rest := record.value[local..];
    var n := Overflow.PageCount(|rest|);
    if n > |spare| {
      return TooFewPages, s, types, bodies, h;
    }
    var first := if n > 0 then spare[0] else 0;
    s := Stored(rowid, row, record.value, local, spare[..n], first);
    var cell := LeafTableCell(rowid, Payload(|record.value|, record.value[..local], first));
    var page := WithCell(cells, slot, cell);
    if PageLayout.Used(page) > PageLayout.SIZE {
      if cells == [] { AloneItFits(rowid, PayloadOf(s)); }
      return PageFull, s, types, bodies, h;
    }
    var m := Spill(m0, spare[..n], rest, first);
    var ok, a := PageLayout.Serialize(page);
    return OnPage(a[..], m), s, types, bodies, h;
  }

  /** What spills goes on the pages, if anything does. */
  method Spill(m0: map<nat, Overflow.Link>, ids: seq<nat>, rest: seq<Byte>, first: nat) returns (m: map<nat, Overflow.Link>)
    requires Spare(m0, ids) && |ids| == Overflow.PageCount(|rest|) && first == if |ids| > 0 then ids[0] else 0
    ensures Overflow.Chained(m, first, |rest|, ids, rest)
    ensures m.Keys == m0.Keys && forall x :: x in m0 && x !in ids ==> m[x] == m0[x]
  {
    if |rest| == 0 {
      return m0;
    }
    m := Overflow.WriteChain(m0, ids, rest);
  }

  /** No cell is too long for an empty page. */
  lemma AloneItFits(rowid: int, p: Payload)
    requires CellSizes.InRowidRange(rowid) && ValidCut(CellSizes.TABLE_MAX_LOCAL, p)
    ensures PageLayout.Used(Page([LeafTableCell(rowid, p)])) <= PageLayout.SIZE
  {
    LeafTableLength(rowid, p);
    var cells := [LeafTableCell(rowid, p)];
    assert cells[..0] == [] && PageLayout.Total(cells[..0]) == 0;
  }

  /** End to end: a row of any size that is stored is read back. */
  method StoreAndRead(rowid: int, row: seq<Column>, cells: seq<seq<Byte>>, slot: nat, m0: map<nat, Overflow.Link>, spare: seq<nat>)
    returns (r: Storage, rowid': int, row': Option<seq<Column>>)
    requires CellSizes.InRowidRange(rowid) && slot <= |cells| && Spare(m0, spare)
    requires forall x :: x in m0 ==> |m0[x].bytes| == Overflow.CONTENT
    ensures r.OnPage? ==> rowid' == rowid && row' == Some(row)
    ensures r.PageFull? ==> cells != []
  {
    ghost var s, types, bodies, h;
    r, s, types, bodies, h := StoreRow(rowid, row, cells, slot, m0, spare);
    rowid', row' := 0, None;
    if r.OnPage? {
      ChainPagesFull(s, types, bodies, h, m0, r.pages);
      ghost var body := WithCell(cells, slot, LeafTableCell(rowid, PayloadOf(s)));
      assert body.cells[slot] == LeafTableCell(rowid, PayloadOf(s));
      rowid', row' := ReadRow(r.data, slot, r.pages, body, s, types, bodies, h);
    }
  }

  lemma ChainPagesFull(s: Stored, types: seq<seq<Byte>>, bodies: seq<seq<Byte>>, h: nat, m0: map<nat, Overflow.Link>, m: map<nat, Overflow.Link>)
    requires WellStored(s, types, bodies, h, m) && m.Keys == m0.Keys && (forall x :: x in m0 && x !in s.chain ==> m[x] == m0[x])
    requires forall x :: x in m0 ==> |m0[x].bytes| == Overflow.CONTENT
    ensures forall x :: x in m ==> |m[x].bytes| == Overflow.CONTENT
  {
    forall x | x in m && x in s.chain ensures |m[x].bytes| == Overflow.CONTENT {
      var i :| 0 <= i < |s.chain| && s.chain[i] == x;
      HoldsAt(m, s.chain, s.record[s.local..], 0, i);
    }
  }

  lemma {:induction false} HoldsAt(m: map<nat, Overflow.Link>, ids: seq<nat>, data: seq<Byte>, i: nat, k: nat)
    requires i <= k < |ids| && Overflow.Holds(m, ids, data, i)
    ensures ids[k] in m && |m[ids[k]].bytes| == Overflow.CONTENT
    decreases k - i
  {
    if i < k { HoldsAt(m, ids, data, i + 1, k); }
  }
}
