/** The slotted page: a header, an array of cell pointers growing up, cell data
    packed down from the end of the page. */
module PageLayout {
  import opened Basics
  import opened Varint
  import opened Record
  import opened Cells

  const SIZE: nat := 4096

  datatype Kind = LeafTable | InteriorTable | LeafIndex | InteriorIndex

  function Code(k: Kind): Byte {
    match k
    case InteriorIndex => 2
    case InteriorTable => 5
    case LeafIndex => 10
    case LeafTable => 13
  }

  predicate IsLeaf(k: Kind) {
    k.LeafTable? || k.LeafIndex?
  }

  function HeaderLength(k: Kind): nat {
    if IsLeaf(k) then 8 else 12
  }

  /** `start` is where the page's own header begins: 100 on page 1, else 0. */
  datatype Body = Body(kind: Kind, cells: seq<seq<Byte>>, right: nat, start: nat)

  function Total(cells: seq<seq<Byte>>): nat {
    if |cells| == 0 then 0 else Total(cells[..|cells| - 1]) + |cells[|cells| - 1]|
  }

  function Used(b: Body): nat {
    b.start + HeaderLength(b.kind) + 2 * |b.cells| + Total(b.cells)
  }

  predicate Storable(b: Body) {
    Used(b) <= SIZE && b.right < TWO_32 && (IsLeaf(b.kind) ==> b.right == 0)
  }

  /** Where the first k cells end, growing downwards. */
  function Offset(cells: seq<seq<Byte>>, k: nat): int
    requires k <= |cells|
  {
    SIZE - Total(cells[..k])
  }

  lemma OffsetStep(cells: seq<seq<Byte>>, k: nat)
    requires k < |cells|
    ensures Offset(cells, k + 1) + |cells[k]| == Offset(cells, k)
  {
    assert cells[..k + 1][..k] == cells[..k] && cells[..k + 1][k] == cells[k];
  }

  lemma {:induction false} OffsetsFall(cells: seq<seq<Byte>>, j: nat, k: nat)
    requires j <= k <= |cells|
    ensures Offset(cells, k) <= Offset(cells, j)
    decreases k - j
  {
    if j < k {
      OffsetStep(cells, k - 1);
      OffsetsFall(cells, j, k - 1);
    }
  }

  function Pointers(b: Body): nat {
    b.start + HeaderLength(b.kind)
  }

  /** The k-th cell and its pointer are in place. */
  ghost predicate CellAt(data: seq<Byte>, b: Body, k: int) {
    0 <= k < |b.cells| ==>
      0 <= Offset(b.cells, k + 1) && Lies(data, Offset(b.cells, k + 1), b.cells[k])
  }

  ghost predicate PointerAt(data: seq<Byte>, b: Body, k: int) {
    0 <= k < |b.cells| ==>
      0 <= Offset(b.cells, k + 1) && Lies(data, Pointers(b) + 2 * k, BigEndian(Offset(b.cells, k + 1), 2))
  }

  ghost predicate HeaderAt(data: seq<Byte>, b: Body) {
    && b.start < |data| && data[b.start] == Code(b.kind)
    && Lies(data, b.start + 1, [0, 0]) && Lies(data, b.start + 3, BigEndian(|b.cells|, 2)) && Lies(data, b.start + 7, [0])
    && (!IsLeaf(b.kind) ==> Lies(data, b.start + 8, BigEndian(b.right, 4)))
  }

  ghost predicate Blank(data: seq<Byte>, lo: nat, hi: nat) {
    hi <= |data| && forall i :: lo <= i < hi ==> data[i] == 0
  }

  /** These bytes are that page: header, with no free block, no fragment and the place
      where cell data starts; pointers; cells; and zeros everywhere else. */
  ghost predicate Layout(data: seq<Byte>, b: Body) {
    && |data| == SIZE && HeaderAt(data, b)
    && 0 <= Offset(b.cells, |b.cells|) && Lies(data, b.start + 5, BigEndian(Offset(b.cells, |b.cells|), 2))
    && Blank(data, 0, b.start) && Blank(data, Pointers(b) + 2 * |b.cells|, Offset(b.cells, |b.cells|))
    && (forall k {:trigger CellAt(data, b, k)} :: CellAt(data, b, k))
    && (forall k {:trigger PointerAt(data, b, k)} :: PointerAt(data, b, k))
  }

  // ---- Writing ----

  function Spliced(data: seq<Byte>, at: nat, bytes: seq<Byte>): (r: seq<Byte>)
    requires at + |bytes| <= |data|
    ensures |r| == |data|
  {
    data[..at] + bytes + data[at + |bytes|..]
  }

  lemma SplicedHere(data: seq<Byte>, at: nat, bytes: seq<Byte>)
    requires at + |bytes| <= |data|
    ensures Lies(Spliced(data, at, bytes), at, bytes)
  {
  }

  lemma SplicedElsewhere(data: seq<Byte>, at: nat, bytes: seq<Byte>, where: nat, other: seq<Byte>)
    requires at + |bytes| <= |data| && Lies(data, where, other) && (where + |other| <= at || at + |bytes| <= where)
    ensures Lies(Spliced(data, at, bytes), where, other)
  {
    var r := Spliced(data, at, bytes);
    forall i | 0 <= i < |other| ensures r[where + i] == other[i] { assert data[where + i] == other[i]; }
  }

  /** Copy bytes into the buffer. */
  method Blit(a: array<Byte>, at: nat, bytes: seq<Byte>)
    requires at + |bytes| <= a.Length
    modifies a
    ensures a[..] == Spliced(old(a[..]), at, bytes)
  {
    var i := 0;
    while i < |bytes|
      invariant 0 <= i <= |bytes|
      invariant a[..] == Spliced(old(a[..]), at, bytes[..i])
    {
      a[at + i] := bytes[i];
      i := i + 1;
    }
    assert bytes[..i] == bytes;
  }

  /** The first n cells, or pointers, are in place. */
  ghost predicate CellsTo(data: seq<Byte>, b: Body, n: int) {
    forall k {:trigger CellAt(data, b, k)} :: k < n ==> CellAt(data, b, k)
  }

  ghost predicate PointersTo(data: seq<Byte>, b: Body, n: int) {
    forall k {:trigger PointerAt(data, b, k)} :: k < n ==> PointerAt(data, b, k)
  }

  /** Cell data lies above the pointer array. */
  lemma RoomForPointers(b: Body, k: nat)
    requires Storable(b) && k <= |b.cells|
    ensures Pointers(b) + 2 * |b.cells| <= Offset(b.cells, k) <= SIZE
  {
    assert b.cells[..|b.cells|] == b.cells && b.cells[..0] == [];
    OffsetsFall(b.cells, k, |b.cells|);
    OffsetsFall(b.cells, 0, k);
  }

  lemma HeaderKept(data: seq<Byte>, at: nat, bytes: seq<Byte>, b: Body)
    requires HeaderAt(data, b) && at + |bytes| <= |data|
    requires at >= Pointers(b) || (at == b.start + 5 && |bytes| == 2)
    ensures HeaderAt(Spliced(data, at, bytes), b)
  {
    SplicedElsewhere(data, at, bytes, b.start + 1, [0, 0]);
    SplicedElsewhere(data, at, bytes, b.start + 3, BigEndian(|b.cells|, 2));
    SplicedElsewhere(data, at, bytes, b.start + 7, [0]);
    if !IsLeaf(b.kind) { SplicedElsewhere(data, at, bytes, b.start + 8, BigEndian(b.right, 4)); }
  }

  lemma BlankKept(data: seq<Byte>, at: nat, bytes: seq<Byte>, lo: nat, hi: nat)
    requires Blank(data, lo, hi) && at + |bytes| <= |data| && (hi <= at || at + |bytes| <= lo)
    ensures Blank(Spliced(data, at, bytes), lo, hi)
  {
  }

  lemma CellsKept(data: seq<Byte>, at: nat, bytes: seq<Byte>, b: Body, n: nat)
    requires Storable(b) && n <= |b.cells| && CellsTo(data, b, n) && at + |bytes| <= |data| && at + |bytes| <= Offset(b.cells, n)
    ensures CellsTo(Spliced(data, at, bytes), b, n)
  {
    var r := Spliced(data, at, bytes);
    forall k | k < n ensures CellAt(r, b, k) {
      assert CellAt(data, b, k);
      if 0 <= k {
        OffsetsFall(b.cells, k + 1, n);
        SplicedElsewhere(data, at, bytes, Offset(b.cells, k + 1), b.cells[k]);
      }
    }
  }

  lemma PointersKept(data: seq<Byte>, at: nat, bytes: seq<Byte>, b: Body, n: nat)
    requires n <= |b.cells| && PointersTo(data, b, n) && at + |bytes| <= |data|
    requires at >= Pointers(b) + 2 * n || at + |bytes| <= Pointers(b)
    ensures PointersTo(Spliced(data, at, bytes), b, n)
  {
    var r := Spliced(data, at, bytes);
    forall k | k < n ensures PointerAt(r, b, k) {
      assert PointerAt(data, b, k);
      if 0 <= k { SplicedElsewhere(data, at, bytes, Pointers(b) + 2 * k, BigEndian(Offset(b.cells, k + 1), 2)); }
    }
  }

  method WriteHeader(a: array<Byte>, b: Body)
    requires a.Length == SIZE && Storable(b) && Blank(a[..], 0, SIZE)
    modifies a
    ensures HeaderAt(a[..], b) && Blank(a[..], 0, b.start) && Blank(a[..], Pointers(b), SIZE)
  {
    ghost var d0 := a[..];
    Blit(a, b.start, [Code(b.kind)]);
    ghost var d1 := a[..];
    Blit(a, b.start + 3, BigEndian(|b.cells|, 2));
    ghost var d2 := a[..];
    HeadWritten(d0, d1, d2, b);
    if !IsLeaf(b.kind) {
      Blit(a, b.start + 8, BigEndian(b.right, 4));
      SplicedHere(d2, b.start + 8, BigEndian(b.right, 4));
      HeadKept(d2, b.start + 8, BigEndian(b.right, 4), b);
      BlankKept(d2, b.start + 8, BigEndian(b.right, 4), 0, b.start);
      BlankKept(d2, b.start + 8, BigEndian(b.right, 4), Pointers(b), SIZE);
    }
  }

  /** The eight bytes that every header has, but for the start of the cells. */
  ghost predicate HeadAt(data: seq<Byte>, b: Body) {
    && b.start < |data| && data[b.start] == Code(b.kind)
    && Lies(data, b.start + 1, [0, 0]) && Lies(data, b.start + 3, BigEndian(|b.cells|, 2)) && Lies(data, b.start + 7, [0])
  }

  lemma HeadWritten(d0: seq<Byte>, d1: seq<Byte>, d2: seq<Byte>, b: Body)
    requires |d0| == SIZE && Storable(b) && Blank(d0, 0, SIZE)
    requires d1 == Spliced(d0, b.start, [Code(b.kind)]) && d2 == Spliced(d1, b.start + 3, BigEndian(|b.cells|, 2))
    ensures HeadAt(d2, b) && Blank(d2, 0, b.start) && Blank(d2, b.start + 8, SIZE)
  {
    var count := BigEndian(|b.cells|, 2);
    SplicedHere(d1, b.start + 3, count);
    assert d1[b.start] == Code(b.kind) by { SplicedHere(d0, b.start, [Code(b.kind)]); assert d1[b.start + 0] == [Code(b.kind)][0]; }
    BlankKept(d0, b.start, [Code(b.kind)], 0, b.start);
    BlankKept(d0, b.start, [Code(b.kind)], b.start + 1, SIZE);
    BlankKept(d1, b.start + 3, count, 0, b.start);
    BlankKept(d1, b.start + 3, count, b.start + 1, b.start + 3);
    BlankKept(d1, b.start + 3, count, b.start + 5, SIZE);
  }

  lemma HeadKept(data: seq<Byte>, at: nat, bytes: seq<Byte>, b: Body)
    requires HeadAt(data, b) && at + |bytes| <= |data| && at >= b.start + 8
    ensures HeadAt(Spliced(data, at, bytes), b)
  {
    SplicedElsewhere(data, at, bytes, b.start + 1, [0, 0]);
    SplicedElsewhere(data, at, bytes, b.start + 3, BigEndian(|b.cells|, 2));
    SplicedElsewhere(data, at, bytes, b.start + 7, [0]);
  }

  /** Cell data from the end of the page down; returns where it starts. */
  method WriteCells(a: array<Byte>, b: Body) returns (at: nat)
    requires a.Length == SIZE && Storable(b) && HeaderAt(a[..], b) && Blank(a[..], 0, b.start) && Blank(a[..], Pointers(b), SIZE)
    modifies a
    ensures HeaderAt(a[..], b) && CellsTo(a[..], b, |b.cells|) && at == Offset(b.cells, |b.cells|)
    ensures Blank(a[..], 0, b.start) && Blank(a[..], Pointers(b), at)
  {
    at := SIZE;
    assert b.cells[..0] == [];
    var i := 0;
    while i < |b.cells|
      invariant 0 <= i <= |b.cells| && at == Offset(b.cells, i) && 0 <= at <= SIZE && HeaderAt(a[..], b) && CellsTo(a[..], b, i)
      invariant Blank(a[..], 0, b.start) && Blank(a[..], Pointers(b), at)
    {
      OffsetStep(b.cells, i);
      RoomForPointers(b, i + 1);
      RoomForPointers(b, i);
      ghost var data := a[..];
      at := at - |b.cells[i]|;
      Blit(a, at, b.cells[i]);
      SplicedHere(data, at, b.cells[i]);
      HeaderKept(data, at, b.cells[i], b);
      CellsKept(data, at, b.cells[i], b, i);
      BlankKept(data, at, b.cells[i], 0, b.start);
      BlankKept(data, at, b.cells[i], Pointers(b), at);
      assert CellAt(a[..], b, i);
      i := i + 1;
    }
  }

  lemma OnePointer(data: seq<Byte>, b: Body, i: nat, at: nat)
    requires |data| == SIZE && Storable(b) && i < |b.cells| && at == Offset(b.cells, i + 1)
    requires HeaderAt(data, b) && CellsTo(data, b, |b.cells|) && PointersTo(data, b, i)
    requires 0 <= Offset(b.cells, |b.cells|) && Blank(data, 0, b.start)
    requires Blank(data, Pointers(b) + 2 * i, Offset(b.cells, |b.cells|))
    ensures Pointers(b) + 2 * i + 2 <= SIZE
    ensures
      var r := Spliced(data, Pointers(b) + 2 * i, BigEndian(at, 2));
      && HeaderAt(r, b) && CellsTo(r, b, |b.cells|) && PointersTo(r, b, i + 1)
      && Blank(r, 0, b.start) && Blank(r, Pointers(b) + 2 * (i + 1), Offset(b.cells, |b.cells|))
  {
    RoomForPointers(b, |b.cells|);
    var where, bytes := Pointers(b) + 2 * i, BigEndian(at, 2);
    SplicedHere(data, where, bytes);
    HeaderKept(data, where, bytes, b);
    CellsKept(data, where, bytes, b, |b.cells|);
    PointersKept(data, where, bytes, b, i);
    BlankKept(data, where, bytes, 0, b.start);
    BlankKept(data, where, bytes, where + 2, Offset(b.cells, |b.cells|));
    var r := Spliced(data, where, bytes);
    forall k | k < i + 1 ensures PointerAt(r, b, k) {
      if k < i { assert k < i ==> PointerAt(r, b, k); }
    }
  }

  method WritePointers(a: array<Byte>, b: Body)
    requires a.Length == SIZE && Storable(b) && HeaderAt(a[..], b) && CellsTo(a[..], b, |b.cells|)
    requires 0 <= Offset(b.cells, |b.cells|) && Blank(a[..], 0, b.start) && Blank(a[..], Pointers(b), Offset(b.cells, |b.cells|))
    modifies a
    ensures HeaderAt(a[..], b) && CellsTo(a[..], b, |b.cells|) && PointersTo(a[..], b, |b.cells|)
    ensures Blank(a[..], 0, b.start) && Blank(a[..], Pointers(b) + 2 * |b.cells|, Offset(b.cells, |b.cells|))
  {
    var i, at := 0, SIZE;
    assert b.cells[..0] == [] && PointersTo(a[..], b, 0);
    hide HeaderAt, CellsTo, PointersTo, Blank;
    while i < |b.cells|
      invariant 0 <= i <= |b.cells| && at == Offset(b.cells, i)
      invariant HeaderAt(a[..], b) && CellsTo(a[..], b, |b.cells|) && PointersTo(a[..], b, i)
      invariant Blank(a[..], 0, b.start) && Blank(a[..], Pointers(b) + 2 * i, Offset(b.cells, |b.cells|))
    {
      OffsetStep(b.cells, i);
      RoomForPointers(b, i + 1);
      ghost var data := a[..];
      at := at - |b.cells[i]|;
      Blit(a, Pointers(b) + 2 * i, BigEndian(at, 2));
      OnePointer(data, b, i, at);
      i := i + 1;
    }
  }

  /** Lay out a page; false, with nothing laid out, if it does not fit. */
  method Serialize(b: Body) returns (ok: bool, a: array<Byte>)
    requires b.right < TWO_32 && (IsLeaf(b.kind) ==> b.right == 0)
    ensures ok <==> Used(b) <= SIZE
    ensures ok ==> fresh(a) && Layout(a[..], b)
  {
    a := new Byte[SIZE](i => 0);
    if Used(b) > SIZE {
      return false, a;
    }
    WriteHeader(a, b);
    var at := WriteCells(a, b);
    WritePointers(a, b);
    RoomForPointers(b, |b.cells|);
    ghost var data := a[..];
    Blit(a, b.start + 5, BigEndian(at, 2));
    StartWritten(data, b, at);
    ok := true;
  }

  lemma StartWritten(data: seq<Byte>, b: Body, at: nat)
    requires |data| == SIZE && Storable(b) && at == Offset(b.cells, |b.cells|) && Pointers(b) + 2 * |b.cells| <= at
    requires HeaderAt(data, b) && CellsTo(data, b, |b.cells|) && PointersTo(data, b, |b.cells|)
    requires Blank(data, 0, b.start) && Blank(data, Pointers(b) + 2 * |b.cells|, at)
    ensures Layout(Spliced(data, b.start + 5, BigEndian(at, 2)), b)
  {
    var where, bytes := b.start + 5, BigEndian(at, 2);
    SplicedHere(data, where, bytes);
    HeaderKept(data, where, bytes, b);
    CellsKept(data, where, bytes, b, |b.cells|);
    PointersKept(data, where, bytes, b, |b.cells|);
    BlankKept(data, where, bytes, 0, b.start);
    BlankKept(data, where, bytes, Pointers(b) + 2 * |b.cells|, at);
    var r := Spliced(data, where, bytes);
    forall k ensures CellAt(r, b, k) && PointerAt(r, b, k) {}
  }

  /** There is one such page: every byte of it is determined. */
  lemma LayoutUnique(d: seq<Byte>, e: seq<Byte>, b: Body)
    requires Storable(b) && Layout(d, b) && Layout(e, b)
    ensures d == e
  {
    forall i | 0 <= i < SIZE ensures d[i] == e[i] {
      if i < Pointers(b) {
        HeadByte(d, e, b, i);
      } else if i < Pointers(b) + 2 * |b.cells| {
        var k := (i - Pointers(b)) / 2;
        assert PointerAt(d, b, k) && PointerAt(e, b, k);
        SameThere(d, e, Pointers(b) + 2 * k, BigEndian(Offset(b.cells, k + 1), 2), i);
      } else if i >= Offset(b.cells, |b.cells|) {
        var k := CellOver(b, i, |b.cells|);
        assert CellAt(d, b, k) && CellAt(e, b, k);
        SameThere(d, e, Offset(b.cells, k + 1), b.cells[k], i);
      }
    }
  }

  lemma HeadByte(d: seq<Byte>, e: seq<Byte>, b: Body, i: nat)
    requires Storable(b) && Layout(d, b) && Layout(e, b) && i < Pointers(b)
    ensures d[i] == e[i]
  {
    if i >= b.start + 8 {
      SameThere(d, e, b.start + 8, BigEndian(b.right, 4), i);
    } else if i >= b.start + 7 {
      SameThere(d, e, b.start + 7, [0], i);
    } else if i >= b.start + 5 {
      SameThere(d, e, b.start + 5, BigEndian(Offset(b.cells, |b.cells|), 2), i);
    } else if i >= b.start + 3 {
      SameThere(d, e, b.start + 3, BigEndian(|b.cells|, 2), i);
    } else if i >= b.start + 1 {
      SameThere(d, e, b.start + 1, [0, 0], i);
    }
  }

  lemma SameThere(d: seq<Byte>, e: seq<Byte>, at: nat, bytes: seq<Byte>, i: nat)
    requires Lies(d, at, bytes) && Lies(e, at, bytes) && at <= i < at + |bytes|
    ensures d[i] == e[i]
  {
    assert d[at + (i - at)] == bytes[i - at] == e[at + (i - at)];
  }

  /** The cell whose bytes an offset falls into. */
  lemma {:induction false} CellOver(b: Body, i: nat, n: nat) returns (k: nat)
    requires n <= |b.cells| && Offset(b.cells, n) <= i < SIZE
    ensures k < n && Offset(b.cells, k + 1) <= i < Offset(b.cells, k + 1) + |b.cells[k]|
    decreases n
  {
    assert b.cells[..0] == [];
    OffsetStep(b.cells, n - 1);
    k := n - 1;
    if i >= Offset(b.cells, n - 1) { k := CellOver(b, i, n - 1); }
  }

  // ---- Reading ----

  function KindOf(code: Byte): Option<Kind> {
    if code == 2 then Some(InteriorIndex) else if code == 5 then Some(InteriorTable)
    else if code == 10 then Some(LeafIndex) else if code == 13 then Some(LeafTable) else None
  }

  lemma Pow2()
    ensures Pow256(2) == 65536 && Pow256(4) == TWO_32
  {
    Powers4();
    assert Pow256(2) == 256 * Pow256(1) && Pow256(1) == 256 * Pow256(0);
  }

  lemma NumberAt(data: seq<Byte>, at: nat, v: nat, w: nat)
    requires v < Pow256(w) && Lies(data, at, BigEndian(v, w))
    ensures FromBigEndian(data[at..at + w]) == v
  {
    LiesAt(data, at, BigEndian(v, w));
    BigEndianRoundTrip(v, w);
  }

  function HalfWord(data: seq<Byte>, at: nat): nat
    requires at + 2 <= |data|
  {
    FromBigEndian(data[at..at + 2])
  }

  /** Every one of the n cell pointers leads past the pointers, into the page. */
  ghost predicate PointersLead(data: seq<Byte>, pointers: nat, n: nat) {
    pointers + 2 * n <= |data| && forall i :: 0 <= i < n ==> pointers + 2 * n <= HalfWord(data, pointers + 2 * i) <= |data|
  }

  /** What a page must look like to be read: a known type, and no pointer that leads astray. */
  ghost predicate Readable(data: seq<Byte>, start: nat)
    requires |data| == SIZE && start <= 100
  {
    var kind := KindOf(data[start]);
    kind.Some? && PointersLead(data, start + HeaderLength(kind.value), HalfWord(data, start + 3))
  }

  /** The i-th cell runs from its pointer to the pointer before it, or is empty if that
      lies lower: pages whose cells overlap are read all the same. */
  ghost predicate CellRead(data: seq<Byte>, pointers: nat, i: nat, cell: seq<Byte>)
    requires |data| == SIZE && pointers + 2 * i + 2 <= SIZE
  {
    var at := HalfWord(data, pointers + 2 * i);
    var end := if i == 0 then SIZE else HalfWord(data, pointers + 2 * i - 2);
    cell == if at <= end <= SIZE then data[at..end] else []
  }

  /** What a page holds, whether or not it was laid out by this program. */
  ghost predicate Holds(data: seq<Byte>, b: Body) {
    && |data| == SIZE && b.start + 12 <= SIZE && KindOf(data[b.start]) == Some(b.kind)
    && |b.cells| == HalfWord(data, b.start + 3) && Pointers(b) + 2 * |b.cells| <= SIZE
    && (forall i :: 0 <= i < |b.cells| ==> CellRead(data, Pointers(b), i, b.cells[i]))
    && b.right == if IsLeaf(b.kind) then 0 else FromBigEndian(data[b.start + 8..b.start + 12])
  }

  /** Read a page; none exactly if its type is unknown or a pointer leads astray. */
  method Parse(data: seq<Byte>, start: nat) returns (r: Option<Body>)
    requires |data| == SIZE && start <= 100
    ensures r.Some? <==> Readable(data, start)
    ensures r.Some? ==> r.value.start == start && Holds(data, r.value)
  {
    var kind := KindOf(data[start]);
    if kind.None? {
      return None;
    }
    var k := kind.value;
    var pointers := start + HeaderLength(k);
    var count := HalfWord(data, start + 3);
    if pointers + 2 * count > SIZE {
      return None;
    }
    var cells := ParseCells(data, pointers, count);
    if cells.None? {
      return None;
    }
    var right := 0;
    if !IsLeaf(k) {
      right := FromBigEndian(data[start + 8..start + 12]);
    }
    return Some(Body(k, cells.value, right, start));
  }

  method ParseCells(data: seq<Byte>, pointers: nat, count: nat) returns (r: Option<seq<seq<Byte>>>)
    requires |data| == SIZE && pointers + 2 * count <= SIZE
    ensures r.Some? <==> PointersLead(data, pointers, count)
    ensures r.Some? ==> |r.value| == count && forall i :: 0 <= i < count ==> CellRead(data, pointers, i, r.value[i])
  {
    var cells := [];
    var i, prev := 0, SIZE;
    while i < count
      invariant 0 <= i <= count && |cells| == i && prev == (if i == 0 then SIZE else HalfWord(data, pointers + 2 * i - 2)) <= SIZE
      invariant forall k :: 0 <= k < i ==> pointers + 2 * count <= HalfWord(data, pointers + 2 * k) <= SIZE
      invariant forall k :: 0 <= k < i ==> CellRead(data, pointers, k, cells[k])
    {
      var at := HalfWord(data, pointers + 2 * i);
      if !(pointers + 2 * count <= at <= SIZE) {
        return None;
      }
      cells := cells + [if at <= prev then data[at..prev] else []];
      prev := at;
      i := i + 1;
    }
    return Some(cells);
  }

  lemma PointerBack(data: seq<Byte>, b: Body, i: nat)
    requires Layout(data, b) && Storable(b) && i < |b.cells|
    ensures Pointers(b) + 2 * |b.cells| <= SIZE && HalfWord(data, Pointers(b) + 2 * i) == Offset(b.cells, i + 1)
    ensures Pointers(b) + 2 * |b.cells| <= Offset(b.cells, i + 1) <= Offset(b.cells, i) <= SIZE
    ensures data[Offset(b.cells, i + 1)..Offset(b.cells, i)] == b.cells[i]
  {
    RoomForPointers(b, |b.cells|);
    NextCell(data, b, i);
    hide Layout, Storable;
  }

  lemma CellBack(data: seq<Byte>, b: Body, i: nat)
    requires Layout(data, b) && Storable(b) && i < |b.cells|
    ensures Pointers(b) + 2 * |b.cells| <= SIZE && CellRead(data, Pointers(b), i, b.cells[i])
  {
    PointerBack(data, b, i);
    hide Layout, Storable, HalfWord;
    if i > 0 { PointerBack(data, b, i - 1); } else { assert b.cells[..0] == []; }
  }

  lemma HeadBack(data: seq<Byte>, b: Body)
    requires Layout(data, b) && Storable(b) && b.start <= 100
    ensures KindOf(data[b.start]) == Some(b.kind) && HalfWord(data, b.start + 3) == |b.cells|
    ensures b.right == if IsLeaf(b.kind) then 0 else FromBigEndian(data[b.start + 8..b.start + 12])
  {
    Pow2();
    RoomForPointers(b, |b.cells|);
    NumberAt(data, b.start + 3, |b.cells|, 2);
    if !IsLeaf(b.kind) { NumberAt(data, b.start + 8, b.right, 4); }
  }

  lemma CellsBack(data: seq<Byte>, b: Body)
    requires Layout(data, b) && Storable(b)
    ensures PointersLead(data, Pointers(b), |b.cells|)
    ensures forall i :: 0 <= i < |b.cells| ==> CellRead(data, Pointers(b), i, b.cells[i])
  {
    RoomForPointers(b, |b.cells|);
    forall i | 0 <= i < |b.cells|
      ensures Pointers(b) + 2 * |b.cells| <= HalfWord(data, Pointers(b) + 2 * i) <= SIZE
    {
      PointerBack(data, b, i);
    }
    forall i | 0 <= i < |b.cells| ensures CellRead(data, Pointers(b), i, b.cells[i]) { CellBack(data, b, i); }
  }

  /** A page that was laid out can be read, as the body it was made from and no other. */
  lemma ReadBack(data: seq<Byte>, b: Body, q: Body)
    requires Layout(data, b) && Storable(b) && b.start <= 100
    ensures Readable(data, b.start)
    ensures q.start == b.start && Holds(data, q) ==> q == b
  {
    HeadBack(data, b);
    CellsBack(data, b);
    hide Layout, Storable, CellRead, HalfWord, PointersLead;
    if q.start == b.start && Holds(data, q) {
      forall i | 0 <= i < |b.cells| ensures q.cells[i] == b.cells[i] { OneCell(data, Pointers(b), i, b.cells[i], q.cells[i]); }
      assert q.cells == b.cells;
    }
  }

  lemma OneCell(data: seq<Byte>, pointers: nat, i: nat, a: seq<Byte>, b: seq<Byte>)
    requires |data| == SIZE && pointers + 2 * i + 2 <= SIZE && CellRead(data, pointers, i, a) && CellRead(data, pointers, i, b)
    ensures a == b
  {
  }

  lemma NextCell(data: seq<Byte>, b: Body, i: nat)
    requires Layout(data, b) && Storable(b) && i < |b.cells|
    ensures
      var at, prev := Offset(b.cells, i + 1), Offset(b.cells, i);
      && Pointers(b) + 2 * |b.cells| <= at <= prev <= SIZE && Pointers(b) + 2 * i + 2 <= SIZE
      && FromBigEndian(data[Pointers(b) + 2 * i..Pointers(b) + 2 * i + 2]) == at && data[at..prev] == b.cells[i]
      && b.cells[..i + 1] == b.cells[..i] + [b.cells[i]]
  {
    Pow2();
    OffsetStep(b.cells, i);
    RoomForPointers(b, i + 1);
    RoomForPointers(b, i);
    assert CellAt(data, b, i) && PointerAt(data, b, i);
    NumberAt(data, Pointers(b) + 2 * i, Offset(b.cells, i + 1), 2);
    LiesAt(data, Offset(b.cells, i + 1), b.cells[i]);
  }
}
