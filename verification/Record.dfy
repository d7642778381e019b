/** Rows as bytes: a header that names each column's type and length, then the
    column bodies. The header counts its own length. */
module Record {
  import opened Basics
  import opened Varint
  import CellSizes

  /** `bits` are the eight bytes of a float; text is its UTF-8 bytes. */
  datatype Column =
    | Null
    | Integer(i: int)
    | Float(bits: seq<Byte>)
    | Text(utf8: seq<Byte>)
    | Blob(bytes: seq<Byte>)

  // ---- Fixed-width integers ----

  function Pow256(w: nat): (p: nat)
    ensures p >= 1
  {
    if w == 0 then 1 else 256 * Pow256(w - 1)
  }

  function BigEndian(u: nat, w: nat): (r: seq<Byte>)
    ensures |r| == w
  {
    if w == 0 then [] else BigEndian(u / 256, w - 1) + [u % 256]
  }

  function FromBigEndian(b: seq<Byte>): nat {
    if |b| == 0 then 0 else FromBigEndian(b[..|b| - 1]) * 256 + b[|b| - 1]
  }

  lemma {:induction false} BigEndianRoundTrip(u: nat, w: nat)
    requires u < Pow256(w)
    ensures FromBigEndian(BigEndian(u, w)) == u
    decreases w
  {
    if w > 0 {
      BigEndianRoundTrip(u / 256, w - 1);
      var b := BigEndian(u, w);
      assert b[..w - 1] == BigEndian(u / 256, w - 1);
    }
  }

  function ToSigned(v: int, w: nat): (r: seq<Byte>)
    requires FitsIn(v, w)
    ensures |r| == w
  {
    BigEndian(if v < 0 then v + Pow256(w) else v, w)
  }

  function FromSigned(b: seq<Byte>): int {
    var u := FromBigEndian(b);
    if 2 * u >= Pow256(|b|) then u - Pow256(|b|) else u
  }

  predicate FitsIn(v: int, w: nat) {
    0 <= Pow256(w) + 2 * v && 2 * v < Pow256(w)
  }

  lemma SignedRoundTrip(v: int, w: nat)
    requires FitsIn(v, w)
    ensures FromSigned(ToSigned(v, w)) == v
  {
    BigEndianRoundTrip(if v < 0 then v + Pow256(w) else v, w);
  }

  // ---- One column ----

  /** The widths of the integer serial types 1 to 6. */
  function IntWidth(t: nat): nat
    requires 1 <= t <= 6
  {
    if t <= 4 then t else if t == 5 then 6 else 8
  }

  predicate Encodable(c: Column) {
    match c
    case Null => true
    case Integer(i) => FitsIn(i, 8)
    case Float(bits) => |bits| == 8
    case Text(s) => 2 * |s| + 13 < TWO_64
    case Blob(s) => 2 * |s| + 12 < TWO_64
  }

  /** The narrowest integer type. */
  function IntType(i: int): (t: nat)
    requires FitsIn(i, 8)
    ensures 1 <= t <= 6 && FitsIn(i, IntWidth(t))
    ensures forall s :: 1 <= s < t ==> !FitsIn(i, IntWidth(s))
  {
    if FitsIn(i, 1) then 1 else if FitsIn(i, 2) then 2 else if FitsIn(i, 3) then 3
    else if FitsIn(i, 4) then 4 else if FitsIn(i, 6) then 5 else 6
  }

  /** The types and the widths by their ranges: one, two, three, four, six and eight
      bytes, each value in the first that takes it. */
  lemma IntegerRanges(i: int)
    requires FitsIn(i, 8)
    ensures -0x8000_0000_0000_0000 <= i < 0x8000_0000_0000_0000
    ensures IntType(i) == 1 <==> -128 <= i < 128
    ensures IntType(i) <= 2 <==> -32768 <= i < 32768
    ensures IntType(i) <= 3 <==> -0x80_0000 <= i < 0x80_0000
    ensures IntType(i) <= 4 <==> -0x8000_0000 <= i < 0x8000_0000
    ensures IntType(i) <= 5 <==> -0x8000_0000_0000 <= i < 0x8000_0000_0000
    ensures i != 0 && i != 1 ==>
              |Body(Integer(i))| == match IntType(i) { case 1 => 1 case 2 => 2 case 3 => 3 case 4 => 4 case 5 => 6 case _ => 8 }
  {
    assert Pow256(1) == 256 * Pow256(0) && Pow256(2) == 256 * Pow256(1) && Pow256(3) == 256 * Pow256(2);
    assert Pow256(4) == 256 * Pow256(3) && Pow256(5) == 256 * Pow256(4) && Pow256(6) == 256 * Pow256(5);
    assert Pow256(7) == 256 * Pow256(6) && Pow256(8) == 256 * Pow256(7);
  }

  /** The values that can be stored: integers of 64 bits, and texts and blobs whose
      serial type is below 2^64. */
  lemma EncodableValues(c: Column)
    ensures Encodable(c) <==>
              && (c.Integer? ==> -0x8000_0000_0000_0000 <= c.i < 0x8000_0000_0000_0000)
              && (c.Float? ==> |c.bits| == 8)
              && (c.Text? ==> |c.utf8| < 0x7FFF_FFFF_FFFF_FFFA)
              && (c.Blob? ==> |c.bytes| < 0x7FFF_FFFF_FFFF_FFFA)
  {
    assert Pow256(1) == 256 * Pow256(0) && Pow256(2) == 256 * Pow256(1) && Pow256(3) == 256 * Pow256(2);
    assert Pow256(4) == 256 * Pow256(3) && Pow256(5) == 256 * Pow256(4) && Pow256(6) == 256 * Pow256(5);
    assert Pow256(7) == 256 * Pow256(6) && Pow256(8) == 256 * Pow256(7);
  }

  function SerialType(c: Column): (t: nat)
    requires Encodable(c)
    ensures t < TWO_64
  {
    match c
    case Null => 0
    case Integer(i) => if i == 0 then 8 else if i == 1 then 9 else IntType(i)
    case Float(_) => 7
    case Text(s) => 2 * |s| + 13
    case Blob(s) => 2 * |s| + 12
  }

  function Body(c: Column): seq<Byte>
    requires Encodable(c)
  {
    match c
    case Null => []
    case Integer(i) => if i == 0 || i == 1 then [] else ToSigned(i, IntWidth(IntType(i)))
    case Float(bits) => bits
    case Text(s) => s
    case Blob(s) => s
  }

  /** The length a serial type implies; none for the reserved types. */
  function BodyLength(t: nat): (n: Option<nat>)
    ensures n.None? <==> t == 10 || t == 11
  {
    if t == 0 || t == 8 || t == 9 then Some(0)
    else if 1 <= t <= 6 then Some(IntWidth(t))
    else if t == 7 then Some(8)
    else if t == 10 || t == 11 then None
    else if t % 2 == 0 then Some((t - 12) / 2)
    else Some((t - 13) / 2)
  }

  function DecodeValue(t: nat, data: seq<Byte>, offset: nat): (r: Option<Column>)
    ensures r.None? <==> t == 10 || t == 11 || (t !in {0, 8, 9} && offset + BodyLength(t).value > |data|)
  {
    if t == 0 then Some(Null)
    else if t == 8 then Some(Integer(0))
    else if t == 9 then Some(Integer(1))
    else
      var length := BodyLength(t);
      if length.None? || offset + length.value > |data| then None
      else
        var body := data[offset..offset + length.value];
        if 1 <= t <= 6 then Some(Integer(FromSigned(body)))
        else if t == 7 then Some(Float(body))
        else if t % 2 == 0 then Some(Blob(body))
        else Some(Text(body))
  }

  lemma ValueRoundTrip(c: Column, data: seq<Byte>, offset: nat)
    requires Encodable(c) && Lies(data, offset, Body(c))
    ensures BodyLength(SerialType(c)) == Some(|Body(c)|)
    ensures DecodeValue(SerialType(c), data, offset) == Some(c)
  {
    assert data[offset..offset + |Body(c)|] == Body(c);
    if c.Integer? && c.i != 0 && c.i != 1 { SignedRoundTrip(c.i, IntWidth(IntType(c.i))); }
  }

  // ---- Whole records ----

  function Joined(parts: seq<seq<Byte>>): seq<Byte> {
    if |parts| == 0 then [] else parts[0] + Joined(parts[1..])
  }

  lemma {:induction false} JoinedAppend(parts: seq<seq<Byte>>, p: seq<Byte>)
    ensures Joined(parts + [p]) == Joined(parts) + p
    decreases |parts|
  {
    if |parts| == 0 {
      assert parts + [p] == [p] && [p][1..] == [];
    } else {
      assert (parts + [p])[1..] == parts[1..] + [p];
      JoinedAppend(parts[1..], p);
    }
  }

  ghost predicate AllEncodable(cs: seq<Column>) {
    forall i :: 0 <= i < |cs| ==> Encodable(cs[i])
  }

  /** The type varints and the bodies of a row. */
  ghost predicate Parts(cs: seq<Column>, types: seq<seq<Byte>>, bodies: seq<seq<Byte>>) {
    && |types| == |cs| && |bodies| == |cs|
    && forall i {:trigger PartAt(cs[i], types[i], bodies[i])} :: 0 <= i < |cs| ==> PartAt(cs[i], types[i], bodies[i])
  }

  ghost predicate PartAt(c: Column, t: seq<Byte>, b: seq<Byte>) {
    Encodable(c) && t == Encoded(SerialType(c)) && b == Body(c)
  }

  lemma PartsFirst(cs: seq<Column>, types: seq<seq<Byte>>, bodies: seq<seq<Byte>>)
    requires Parts(cs, types, bodies) && |cs| > 0
    ensures PartAt(cs[0], types[0], bodies[0]) && Parts(cs[1..], types[1..], bodies[1..])
  {
    assert PartAt(cs[0], types[0], bodies[0]);
    forall i | 0 <= i < |cs[1..]| ensures PartAt(cs[1..][i], types[1..][i], bodies[1..][i]) {
      assert PartAt(cs[i + 1], types[i + 1], bodies[i + 1]);
    }
  }

  /** These are the serial types of the columns. */
  ghost predicate TypesOf(cs: seq<Column>, ts: seq<nat>) {
    if |cs| == 0 then ts == [] else |ts| > 0 && TypeIs(cs[0], ts[0]) && TypesOf(cs[1..], ts[1..])
  }

  ghost predicate TypeIs(c: Column, t: nat) {
    Encodable(c) && t == SerialType(c)
  }

  lemma LengthMonotone(a: nat, b: nat)
    requires a <= b
    ensures CellSizes.VarintLen(a) <= CellSizes.VarintLen(b)
  {
  }

  /** The header length that counts itself. */
  method HeaderSize(n: nat) returns (h: nat)
    requires n + 9 < TWO_64
    ensures h < TWO_64 && h == |Encoded(h)| + n
  {
    h := 1 + n;
    EncodedLength(h);
    while true
      invariant 1 + n <= h <= 9 + n && h <= CellSizes.VarintLen(h) + n
      decreases 9 + n - h
    {
      EncodedLength(h);
      var actual := |Encoded(h)| + n;
      if actual == h {
        break;
      }
      LengthMonotone(h, actual);
      h := actual;
    }
  }

  /** The bytes of a row: header length, types, bodies. */
  ghost predicate IsRecord(r: seq<Byte>, cs: seq<Column>, types: seq<seq<Byte>>, bodies: seq<seq<Byte>>, h: nat) {
    && Parts(cs, types, bodies) && h < TWO_64 && h == |Encoded(h)| + |Joined(types)|
    && r == Encoded(h) + Joined(types) + Joined(bodies)
  }

  /** Encode a row; none if a value is out of range or the header too long. */
  method EncodeRecord(cs: seq<Column>)
    returns (r: Option<seq<Byte>>, ghost types: seq<seq<Byte>>, ghost bodies: seq<seq<Byte>>, ghost h: nat)
    ensures r.Some? ==> IsRecord(r.value, cs, types, bodies, h)
    ensures r.None? ==> !AllEncodable(cs) || (Parts(cs, types, bodies) && |Joined(types)| + 9 >= TWO_64)
  {
    h := 0;
    var ts, bs := [], [];
    types, bodies := [], [];
    var i := 0;
    while i < |cs|
      invariant 0 <= i <= |cs| && |ts| == i && |bs| == i
      invariant forall k {:trigger PartAt(cs[k], ts[k], bs[k])} :: 0 <= k < i ==> PartAt(cs[k], ts[k], bs[k])
    {
      if !Encodable(cs[i]) {
        return None, types, bodies, h;
      }
      ghost var ts0, bs0 := ts, bs;
      var t := EncodeUvarint(SerialType(cs[i]));
      ts, bs := ts + [t], bs + [Body(cs[i])];
      forall k | 0 <= k <= i ensures PartAt(cs[k], ts[k], bs[k]) { if k < i { assert PartAt(cs[k], ts0[k], bs0[k]); } }
      i := i + 1;
    }
    types, bodies := ts, bs;
    var header := Join(ts);
    var body := Join(bs);
    if |header| + 9 >= TWO_64 {
      return None, types, bodies, h;
    }
    var size := HeaderSize(|header|);
    var head := EncodeUvarint(size);
    h := size;
    r := Some(head + header + body);
  }

  method Join(parts: seq<seq<Byte>>) returns (r: seq<Byte>)
    ensures r == Joined(parts)
  {
    r := [];
    for i := 0 to |parts|
      invariant r == Joined(parts[..i])
    {
      JoinedAppend(parts[..i], parts[i]);
      assert parts[..i] + [parts[i]] == parts[..i + 1];
      r := r + parts[i];
    }
    assert parts[..|parts|] == parts;
  }

  /** The types in the header from `pos` to its end. */
  function ReadTypes(data: seq<Byte>, pos: nat, end: nat): Option<seq<nat>>
    decreases if pos < end then end - pos else 0
  {
    if pos == end then Some([])
    else if pos > end then None
    else match DecodeAt(data, pos)
      case Truncated => None
      case Decoded(t, n) =>
        if n == 0 then None
        else match ReadTypes(data, pos + n, end)
          case None => None
          case Some(ts) => Some([t] + ts)
  }

  function ReadValues(ts: seq<nat>, data: seq<Byte>, offset: nat): Option<seq<Column>> {
    if |ts| == 0 then Some([])
    else match DecodeValue(ts[0], data, offset)
      case None => None
      case Some(c) =>
        match ReadValues(ts[1..], data, offset + BodyLength(ts[0]).value)
        case None => None
        case Some(cs) => Some([c] + cs)
  }

  /** The columns of a record whose header runs from `pos` to `start`. */
  function ReadColumns(data: seq<Byte>, pos: nat, start: nat): Option<seq<Column>> {
    match ReadTypes(data, pos, start)
    case None => None
    case Some(ts) => ReadValues(ts, data, start)
  }

  function DecodeRecord(data: seq<Byte>, offset: nat): Option<seq<Column>> {
    var head := DecodeAt(data, offset);
    if head.Truncated? then None else ReadColumns(data, offset + head.size, offset + head.value)
  }

  lemma TypesOn(data: seq<Byte>, pos: nat, end: nat, t: nat, n: nat)
    requires DecodeAt(data, pos) == Decoded(t, n) && n > 0 && pos < end
    ensures ReadTypes(data, pos, end) == match ReadTypes(data, pos + n, end) { case None => None case Some(ts) => Some([t] + ts) }
  {
  }

  /** Read the header, then the columns. */
  method Decode(data: seq<Byte>, offset: nat) returns (r: Option<seq<Column>>)
    ensures r == DecodeRecord(data, offset)
  {
    var head := DecodeUvarint(data, offset);
    if head.Truncated? {
      return None;
    }
    var types := DecodeTypes(data, offset + head.size, offset + head.value);
    if types.None? {
      return None;
    }
    r := DecodeValues(types.value, data, offset + head.value);
  }

  method DecodeTypes(data: seq<Byte>, pos0: nat, end: nat) returns (r: Option<seq<nat>>)
    ensures r == ReadTypes(data, pos0, end)
  {
    var types: seq<nat>, pos: nat := [], pos0;
    ghost var goal := ReadTypes(data, pos0, end);
    if goal.Some? { assert types + goal.value == goal.value; }
    while pos < end
      invariant goal == (match ReadTypes(data, pos, end) { case None => None case Some(ts) => Some(types + ts) })
      decreases end - pos
    {
      var t := DecodeUvarint(data, pos);
      if t.Truncated? || t.size == 0 {
        return None;
      }
      TypesOn(data, pos, end, t.value, t.size);
      ghost var rest := ReadTypes(data, pos + t.size, end);
      if rest.Some? { assert types + ([t.value] + rest.value) == types + [t.value] + rest.value; }
      types, pos := types + [t.value], pos + t.size;
    }
    if pos != end {
      return None;
    }
    assert types + [] == types;
    return Some(types);
  }

  method DecodeValues(types: seq<nat>, data: seq<Byte>, offset: nat) returns (r: Option<seq<Column>>)
    ensures r == ReadValues(types, data, offset)
  {
    var values: seq<Column>, at: nat := [], offset;
    ghost var goal := ReadValues(types, data, offset);
    if goal.Some? { assert values + goal.value == goal.value; }
    assert types[0..] == types;
    for i := 0 to |types|
      invariant goal == (match ReadValues(types[i..], data, at) { case None => None case Some(vs) => Some(values + vs) })
    {
      var v := DecodeValue(types[i], data, at);
      assert types[i..][0] == types[i] && types[i..][1..] == types[i + 1..];
      if v.None? {
        return None;
      }
      ghost var rest := ReadValues(types[i + 1..], data, at + BodyLength(types[i]).value);
      if rest.Some? { assert values + ([v.value] + rest.value) == values + [v.value] + rest.value; }
      values, at := values + [v.value], at + BodyLength(types[i]).value;
    }
    assert types[|types|..] == [] && values + [] == values;
    return Some(values);
  }

  // ---- Round trip ----

  lemma LiesParts(data: seq<Byte>, at: nat, a: seq<Byte>, b: seq<Byte>)
    requires Lies(data, at, a + b)
    ensures Lies(data, at, a) && Lies(data, at + |a|, b)
  {
    forall i | 0 <= i < |a| ensures data[at + i] == a[i] { assert (a + b)[i] == a[i]; }
    forall i | 0 <= i < |b| ensures data[at + |a| + i] == b[i] {
      assert (a + b)[|a| + i] == b[i] && data[at + (|a| + i)] == (a + b)[|a| + i];
    }
  }

  lemma TypesStep(data: seq<Byte>, pos: nat, end: nat, t: nat, n: nat, ts: seq<nat>)
    requires DecodeAt(data, pos) == Decoded(t, n) && n > 0 && pos < end && ReadTypes(data, pos + n, end) == Some(ts)
    ensures ReadTypes(data, pos, end) == Some([t] + ts)
  {
  }

  lemma RecordStep(data: seq<Byte>, pos: nat, start: nat, ts: seq<nat>, cs: seq<Column>)
    requires ReadTypes(data, pos, start) == Some(ts) && ReadValues(ts, data, start) == Some(cs)
    ensures ReadColumns(data, pos, start) == Some(cs)
  {
  }

  lemma FirstType(c: Column, bytes: seq<Byte>, data: seq<Byte>, pos: nat) returns (t: nat)
    requires Encodable(c) && bytes == Encoded(SerialType(c)) && Lies(data, pos, bytes)
    ensures TypeIs(c, t) && DecodeAt(data, pos) == Decoded(t, |bytes|) && |bytes| > 0
  {
    t := SerialType(c);
    RoundTrip(t, data, pos);
  }

  lemma {:induction false} ReadBackTypes(cs: seq<Column>, types: seq<seq<Byte>>, bodies: seq<seq<Byte>>, data: seq<Byte>, pos: nat) returns (ts: seq<nat>)
    requires Parts(cs, types, bodies) && Lies(data, pos, Joined(types))
    ensures ReadTypes(data, pos, pos + |Joined(types)|) == Some(ts) && TypesOf(cs, ts)
    decreases |cs|
  {
    if |cs| == 0 {
      ts := [];
    } else {
      PartsFirst(cs, types, bodies);
      var first, rest := types[0], Joined(types[1..]);
      LiesParts(data, pos, first, rest);
      var t := FirstType(cs[0], first, data, pos);
      var tail := ReadBackTypes(cs[1..], types[1..], bodies[1..], data, pos + |first|);
      var end := pos + |Joined(types)|;
      assert pos + |first| + |rest| == end;
      TypesStep(data, pos, end, t, |first|, tail);
      ts := [t] + tail;
      assert ts[1..] == tail;
    }
  }

  lemma ValuesStep(t: nat, ts: seq<nat>, data: seq<Byte>, offset: nat, c: Column, n: nat, cs: seq<Column>)
    requires DecodeValue(t, data, offset) == Some(c) && BodyLength(t) == Some(n) && ReadValues(ts, data, offset + n) == Some(cs)
    ensures ReadValues([t] + ts, data, offset) == Some([c] + cs)
  {
    assert ([t] + ts)[1..] == ts;
  }

  lemma {:induction false} ReadBackValues(cs: seq<Column>, types: seq<seq<Byte>>, bodies: seq<seq<Byte>>, ts: seq<nat>, data: seq<Byte>, offset: nat)
    requires Parts(cs, types, bodies) && TypesOf(cs, ts) && Lies(data, offset, Joined(bodies))
    ensures ReadValues(ts, data, offset) == Some(cs)
    decreases |cs|
  {
    if |cs| > 0 {
      PartsFirst(cs, types, bodies);
      var first, rest := bodies[0], Joined(bodies[1..]);
      LiesParts(data, offset, first, rest);
      ValueRoundTrip(cs[0], data, offset);
      ReadBackValues(cs[1..], types[1..], bodies[1..], ts[1..], data, offset + |first|);
      ValuesStep(ts[0], ts[1..], data, offset, cs[0], |first|, cs[1..]);
      assert [cs[0]] + cs[1..] == cs && [ts[0]] + ts[1..] == ts;
    }
  }

  lemma Assemble(data: seq<Byte>, offset: nat, h: nat, n: nat, cs: seq<Column>)
    requires DecodeAt(data, offset) == Decoded(h, n) && ReadColumns(data, offset + n, offset + h) == Some(cs)
    ensures DecodeRecord(data, offset) == Some(cs)
  {
  }

  lemma HeaderReads(h: nat, head: seq<Byte>, data: seq<Byte>, offset: nat)
    requires h < TWO_64 && head == Encoded(h) && Lies(data, offset, head)
    ensures DecodeAt(data, offset) == Decoded(h, |head|)
  {
    RoundTrip(h, data, offset);
  }

  /** A row comes back from its bytes, wherever they stand. */
  lemma RecordRoundTrip(cs: seq<Column>, types: seq<seq<Byte>>, bodies: seq<seq<Byte>>, h: nat, r: seq<Byte>, data: seq<Byte>, offset: nat)
    requires IsRecord(r, cs, types, bodies, h) && Lies(data, offset, r)
    ensures DecodeRecord(data, offset) == Some(cs)
  {
    var head := Encoded(h);
    LiesParts(data, offset, head + Joined(types), Joined(bodies));
    LiesParts(data, offset, head, Joined(types));
    var n := |head|;
    HeaderReads(h, head, data, offset);
    Columns(cs, types, bodies, data, offset + n, offset + h);
    Assemble(data, offset, h, n, cs);
  }

  lemma Columns(cs: seq<Column>, types: seq<seq<Byte>>, bodies: seq<seq<Byte>>, data: seq<Byte>, pos: nat, start: nat)
    requires Parts(cs, types, bodies) && Lies(data, pos, Joined(types)) && start == pos + |Joined(types)| && Lies(data, start, Joined(bodies))
    ensures ReadColumns(data, pos, start) == Some(cs)
  {
    var ts := ReadBackTypes(cs, types, bodies, data, pos);
    ReadBackValues(cs, types, bodies, ts, data, start);
    RecordStep(data, pos, start, ts, cs);
  }

  // ---- One column alone ----

  datatype Lookup = Found(value: Column) | NoSuchColumn | Malformed

  /** Read the header only as far as the column, adding up the lengths before it. */
  method DecodeColumn(data: seq<Byte>, offset: nat, column: nat) returns (r: Lookup)
    ensures DecodeRecord(data, offset).Some? ==>
              r == if column < |DecodeRecord(data, offset).value| then Found(DecodeRecord(data, offset).value[column]) else NoSuchColumn
  {
    var head := DecodeUvarint(data, offset);
    if head.Truncated? {
      return Malformed;
    }
    r := SkipTo(data, offset + head.size, offset + head.value, column);
  }

  method SkipTo(data: seq<Byte>, pos0: nat, start: nat, column: nat) returns (r: Lookup)
    ensures
      var all := ReadColumns(data, pos0, start);
      all.Some? ==> r == if column < |all.value| then Found(all.value[column]) else NoSuchColumn
  {
    var pos: nat, at: nat, index: nat := pos0, start, 0;
    ghost var all := ReadColumns(data, pos0, start);
    ghost var good, row := all.Some?, if all.Some? then all.value else [];
    ghost var ts, vs := if good then ReadTypes(data, pos0, start).value else [], row;
    if good { RestOf(data, pos0, start, start, ts, vs); }
    while pos < start
      invariant good ==> Rest(data, pos, start, at, ts, vs)
      invariant good ==> index <= column && index <= |row| && vs == row[index..]
      decreases start - pos
    {
      var t := DecodeUvarint(data, pos);
      if good { NextIs(data, pos, start, at, ts, vs, t); }
      if t.Truncated? || t.size == 0 {
        return Malformed;
      }
      if index == column {
        var v := DecodeValue(t.value, data, at);
        return if v.Some? then Found(v.value) else Malformed;
      }
      var length := BodyLength(t.value);
      if length.None? {
        return Malformed;
      }
      var pos', at' := pos + t.size, at + length.value;
      if good { ts, vs := Onward(data, pos, start, at, ts, vs, t, length.value, pos', at'); }
      pos, at, index := pos', at', index + 1;
    }
    if good { NoneLeft(data, pos, start, at, ts, vs); }
    return NoSuchColumn;
  }

  lemma NextIs(data: seq<Byte>, pos: nat, end: nat, at: nat, ts: seq<nat>, vs: seq<Column>, d: Decoded)
    requires Rest(data, pos, end, at, ts, vs) && pos < end && d == DecodeAt(data, pos)
    ensures |vs| > 0 && d.Decoded? && d.size > 0 && DecodeValue(d.value, data, at) == Some(vs[0]) && BodyLength(d.value).Some?
  {
  }

  lemma Onward(data: seq<Byte>, pos: nat, end: nat, at: nat, ts: seq<nat>, vs: seq<Column>, d: Decoded, n: nat, pos': nat, at': nat)
    returns (ts': seq<nat>, vs': seq<Column>)
    requires Rest(data, pos, end, at, ts, vs) && pos < end && d == DecodeAt(data, pos) && d.Decoded? && BodyLength(d.value) == Some(n)
    requires pos' == pos + d.size && at' == at + n
    ensures |vs| > 0 && vs' == vs[1..] && Rest(data, pos', end, at', ts', vs')
  {
    ts', vs' := ts[1..], vs[1..];
  }

  lemma NoneLeft(data: seq<Byte>, pos: nat, end: nat, at: nat, ts: seq<nat>, vs: seq<Column>)
    requires Rest(data, pos, end, at, ts, vs) && pos >= end
    ensures vs == []
  {
  }

  /** These types and values remain to be read. */
  ghost predicate Rest(data: seq<Byte>, pos: nat, end: nat, at: nat, ts: seq<nat>, vs: seq<Column>)
    decreases |ts|
  {
    if |ts| == 0 then pos == end && vs == []
    else pos < end && |vs| > 0 && Leads(data, pos, at, ts[0], vs[0])
         && Rest(data, pos + DecodeAt(data, pos).size, end, at + BodyLength(ts[0]).value, ts[1..], vs[1..])
  }

  /** The next type, and the value of that type. */
  ghost predicate Leads(data: seq<Byte>, pos: nat, at: nat, t: nat, v: Column) {
    && DecodeAt(data, pos).Decoded? && DecodeAt(data, pos).size > 0 && DecodeAt(data, pos).value == t
    && BodyLength(t).Some? && DecodeValue(t, data, at) == Some(v)
  }

  lemma {:induction false} RestOf(data: seq<Byte>, pos: nat, end: nat, at: nat, ts: seq<nat>, vs: seq<Column>)
    requires ReadTypes(data, pos, end) == Some(ts) && ReadValues(ts, data, at) == Some(vs)
    ensures Rest(data, pos, end, at, ts, vs)
    decreases |ts|
  {
    if |ts| > 0 {
      var d := DecodeAt(data, pos);
      var rest := ReadTypes(data, pos + d.size, end).value;
      assert ts == [d.value] + rest && ts[1..] == rest;
      var more := ReadValues(ts[1..], data, at + BodyLength(ts[0]).value).value;
      assert vs == [DecodeValue(ts[0], data, at).value] + more && vs[1..] == more;
      RestOf(data, pos + d.size, end, at + BodyLength(ts[0]).value, rest, more);
    }
  }
}
