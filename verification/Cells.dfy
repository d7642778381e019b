/** The four cell formats. Each carries what descent needs first: a child page, then
    lengths, then the local part of the payload and the link to the rest. */
module Cells {
  import opened Basics
  import opened Varint
  import opened Record
  import opened CellSizes

  const TWO_32: nat := 0x1_0000_0000

  /** The part of a payload that stays on the page, and the page of the rest. */
  datatype Payload = Payload(total: nat, local: seq<Byte>, overflow: nat)

  /** The cut is where the thresholds say, and there is a link exactly if it spills. */
  predicate ValidCut(maxLocal: nat, p: Payload) {
    && MIN_LOCAL <= maxLocal && p.total < TWO_64 && p.overflow < TWO_32
    && |p.local| == LocalSize(maxLocal, p.total)
    && (p.overflow != 0 <==> |p.local| < p.total)
  }

  function Link(p: Payload): seq<Byte> {
    if p.overflow != 0 then BigEndian(p.overflow, 4) else []
  }

  function LeafTableCell(rowid: int, p: Payload): seq<Byte>
    requires InRowidRange(rowid) && ValidCut(TABLE_MAX_LOCAL, p)
  {
    Encoded(p.total) + Encoded(TwosComplement(rowid)) + p.local + Link(p)
  }

  function InteriorTableCell(child: nat, rowid: int): seq<Byte>
    requires child < TWO_32 && InRowidRange(rowid)
  {
    BigEndian(child, 4) + Encoded(TwosComplement(rowid))
  }

  function LeafIndexCell(p: Payload): seq<Byte>
    requires ValidCut(INDEX_MAX_LOCAL, p)
  {
    Encoded(p.total) + p.local + Link(p)
  }

  function InteriorIndexCell(child: nat, p: Payload): seq<Byte>
    requires child < TWO_32 && ValidCut(INDEX_MAX_LOCAL, p)
  {
    BigEndian(child, 4) + LeafIndexCell(p)
  }

  // ---- Decoding ----

  /** The local payload and the link, read from `at`; none if the cell is too short. */
  function ReadPayload(cell: seq<Byte>, at: nat, total: nat, maxLocal: nat): Option<Payload>
    requires MIN_LOCAL <= maxLocal
  {
    var local := LocalSize(maxLocal, total);
    if at + local > |cell| then None
    else if local < total then
      if at + local + 4 > |cell| then None
      else Some(Payload(total, cell[at..at + local], FromBigEndian(cell[at + local..at + local + 4])))
    else Some(Payload(total, cell[at..at + local], 0))
  }

  datatype TableLeaf = TableLeaf(rowid: int, payload: Payload)

  function DecodeLeafTable(cell: seq<Byte>): Option<TableLeaf> {
    var total := DecodeAt(cell, 0);
    if total.Truncated? then None
    else
      var raw := DecodeAt(cell, total.size);
      if raw.Truncated? || raw.value >= TWO_64 then None
      else
        var p := ReadPayload(cell, total.size + raw.size, total.value, TABLE_MAX_LOCAL);
        if p.None? then None else Some(TableLeaf(FromTwosComplement(raw.value), p.value))
  }

  datatype TableRoute = TableRoute(child: nat, rowid: int)

  function DecodeInteriorTable(cell: seq<Byte>): Option<TableRoute> {
    if |cell| < 4 then None
    else
      var raw := DecodeAt(cell, 4);
      if raw.Truncated? || raw.value >= TWO_64 then None
      else Some(TableRoute(FromBigEndian(cell[..4]), FromTwosComplement(raw.value)))
  }

  function DecodeIndexFrom(cell: seq<Byte>, at: nat): Option<Payload> {
    var total := DecodeAt(cell, at);
    if total.Truncated? then None else ReadPayload(cell, at + total.size, total.value, INDEX_MAX_LOCAL)
  }

  function DecodeLeafIndex(cell: seq<Byte>): Option<Payload> {
    DecodeIndexFrom(cell, 0)
  }

  datatype IndexRoute = IndexRoute(child: nat, payload: Payload)

  function DecodeInteriorIndex(cell: seq<Byte>): Option<IndexRoute> {
    if |cell| < 4 then None
    else
      var p := DecodeIndexFrom(cell, 4);
      if p.None? then None else Some(IndexRoute(FromBigEndian(cell[..4]), p.value))
  }

  // ---- Round trips ----

  lemma Powers4()
    ensures Pow256(4) == TWO_32
  {
    assert Pow256(2) == 256 * Pow256(1) && Pow256(1) == 256 * Pow256(0);
    assert Pow256(4) == 256 * Pow256(3) && Pow256(3) == 256 * Pow256(2);
  }

  lemma LiesAt(data: seq<Byte>, at: nat, bytes: seq<Byte>)
    requires Lies(data, at, bytes)
    ensures data[at..at + |bytes|] == bytes
  {
  }

  lemma PayloadReads(cell: seq<Byte>, at: nat, p: Payload, maxLocal: nat)
    requires ValidCut(maxLocal, p) && Lies(cell, at, p.local + Link(p))
    ensures ReadPayload(cell, at, p.total, maxLocal) == Some(p)
  {
    LiesParts(cell, at, p.local, Link(p));
    LiesAt(cell, at, p.local);
    if p.overflow != 0 {
      Powers4();
      BigEndianRoundTrip(p.overflow, 4);
      LiesAt(cell, at + |p.local|, Link(p));
    }
  }

  lemma LiesSelf(a: seq<Byte>, b: seq<Byte>)
    ensures Lies(a + b, |a|, b) && Lies(a + b, 0, a)
  {
  }

  lemma VarintReads(v: nat, bytes: seq<Byte>, data: seq<Byte>, at: nat)
    requires v < TWO_64 && bytes == Encoded(v) && Lies(data, at, bytes)
    ensures DecodeAt(data, at) == Decoded(v, |bytes|)
  {
    RoundTrip(v, data, at);
  }

  lemma LeafTableReads(cell: seq<Byte>, total: nat, n1: nat, raw: nat, n2: nat, p: Payload)
    requires DecodeAt(cell, 0) == Decoded(total, n1) && DecodeAt(cell, n1) == Decoded(raw, n2) && raw < TWO_64
    requires ReadPayload(cell, n1 + n2, total, TABLE_MAX_LOCAL) == Some(p)
    ensures DecodeLeafTable(cell) == Some(TableLeaf(FromTwosComplement(raw), p))
  {
  }

  lemma Placed(a: seq<Byte>, b: seq<Byte>, c: seq<Byte>)
    ensures Lies(a + b + c, 0, a) && Lies(a + b + c, |a|, b) && Lies(a + b + c, |a| + |b|, c)
  {
    LiesSelf(a + b, c);
    LiesParts(a + b + c, 0, a, b);
  }

  lemma LeafTableRoundTrip(rowid: int, p: Payload)
    requires InRowidRange(rowid) && ValidCut(TABLE_MAX_LOCAL, p)
    ensures DecodeLeafTable(LeafTableCell(rowid, p)) == Some(TableLeaf(rowid, p))
  {
    var raw := TwosComplement(rowid);
    LastTwo(Encoded(p.total) + Encoded(raw), p.local, Link(p));
    ThreeParts(p, raw, Encoded(p.total), Encoded(raw), p.local + Link(p));
    assert FromTwosComplement(raw) == rowid;
  }

  lemma ThreeParts(p: Payload, raw: nat, a: seq<Byte>, b: seq<Byte>, tail: seq<Byte>)
    requires ValidCut(TABLE_MAX_LOCAL, p) && raw < TWO_64 && a == Encoded(p.total) && b == Encoded(raw)
    requires tail == p.local + Link(p)
    ensures DecodeLeafTable(a + b + tail) == Some(TableLeaf(FromTwosComplement(raw), p))
  {
    var cell := a + b + tail;
    Placed(a, b, tail);
    TwoVarints(p.total, raw, a, b, cell);
    PayloadReads(cell, |a| + |b|, p, TABLE_MAX_LOCAL);
    LeafTableReads(cell, p.total, |a|, raw, |b|, p);
  }

  lemma LastTwo(a: seq<Byte>, b: seq<Byte>, c: seq<Byte>)
    ensures a + b + c == a + (b + c)
  {
  }

  lemma TwoVarints(u: nat, v: nat, a: seq<Byte>, b: seq<Byte>, cell: seq<Byte>)
    requires u < TWO_64 && v < TWO_64 && a == Encoded(u) && b == Encoded(v)
    requires Lies(cell, 0, a) && Lies(cell, |a|, b)
    ensures DecodeAt(cell, 0) == Decoded(u, |a|) && DecodeAt(cell, |a|) == Decoded(v, |b|)
  {
    VarintReads(u, a, cell, 0);
    VarintReads(v, b, cell, |a|);
  }

  lemma InteriorTableRoundTrip(child: nat, rowid: int)
    requires child < TWO_32 && InRowidRange(rowid)
    ensures DecodeInteriorTable(InteriorTableCell(child, rowid)) == Some(TableRoute(child, rowid))
  {
    var a, b := BigEndian(child, 4), Encoded(TwosComplement(rowid));
    LiesSelf(a, b);
    VarintReads(TwosComplement(rowid), b, a + b, 4);
    Powers4();
    BigEndianRoundTrip(child, 4);
    assert (a + b)[..4] == a;
  }

  lemma IndexReads(cell: seq<Byte>, at: nat, p: Payload)
    requires ValidCut(INDEX_MAX_LOCAL, p) && Lies(cell, at, LeafIndexCell(p))
    ensures DecodeIndexFrom(cell, at) == Some(p)
  {
    var a, tail := Encoded(p.total), p.local + Link(p);
    assert LeafIndexCell(p) == a + tail;
    LiesParts(cell, at, a, tail);
    VarintReads(p.total, a, cell, at);
    PayloadReads(cell, at + |a|, p, INDEX_MAX_LOCAL);
  }

  lemma LeafIndexRoundTrip(p: Payload)
    requires ValidCut(INDEX_MAX_LOCAL, p)
    ensures DecodeLeafIndex(LeafIndexCell(p)) == Some(p)
  {
    IndexReads(LeafIndexCell(p), 0, p);
  }

  lemma InteriorIndexRoundTrip(child: nat, p: Payload)
    requires child < TWO_32 && ValidCut(INDEX_MAX_LOCAL, p)
    ensures DecodeInteriorIndex(InteriorIndexCell(child, p)) == Some(IndexRoute(child, p))
  {
    var a := BigEndian(child, 4);
    var cell := InteriorIndexCell(child, p);
    LiesSelf(a, LeafIndexCell(p));
    IndexReads(cell, 4, p);
    Powers4();
    BigEndianRoundTrip(child, 4);
    assert cell[..4] == a;
  }

  // ---- The lengths that the trees count with ----

  lemma LeafTableLength(rowid: int, p: Payload)
    requires InRowidRange(rowid) && ValidCut(TABLE_MAX_LOCAL, p)
    ensures |LeafTableCell(rowid, p)| == TableCellLen(rowid, p.total)
  {
    EncodedLength(p.total);
    EncodedLength(TwosComplement(rowid));
  }

  lemma IndexLength(child: nat, p: Payload)
    requires child < TWO_32 && ValidCut(INDEX_MAX_LOCAL, p)
    ensures |LeafIndexCell(p)| == IndexCellLen(p.total) && |InteriorIndexCell(child, p)| == IndexCellLen(p.total) + 4
  {
    EncodedLength(p.total);
  }

  lemma InteriorTableLength(child: nat, rowid: int)
    requires child < TWO_32 && InRowidRange(rowid)
    ensures |InteriorTableCell(child, rowid)| == 4 + VarintLen(TwosComplement(rowid))
  {
    EncodedLength(TwosComplement(rowid));
  }
}
