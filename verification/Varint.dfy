/** Variable-length integers: big-endian groups of seven bits, the high bit set on
    every byte that is not the last; a ninth byte carries eight bits and no flag. */
module Varint {
  import opened Basics
  import CellSizes

  type Byte = b: nat | b < 256

  const TWO_56: nat := 0x100_0000_0000_0000

  datatype Decoded = Decoded(value: nat, size: nat) | Truncated

  function Pow(k: nat): (p: nat)
    ensures p >= 1
  {
    if k == 0 then 1 else 128 * Pow(k - 1)
  }

  /** The k low groups of v, the most significant first. */
  function Groups(v: nat, k: nat): (r: seq<nat>)
    ensures |r| == k && forall i :: 0 <= i < k ==> r[i] < 128
  {
    if k == 0 then [] else Groups(v / 128, k - 1) + [v % 128]
  }

  /** v shifted right by k groups. */
  function Shifted(v: nat, k: nat): nat {
    if k == 0 then v else Shifted(v / 128, k - 1)
  }

  /** How many groups a value needs. */
  function GroupCount(v: nat): (k: nat)
    ensures k >= 1
  {
    if v < 128 then 1 else 1 + GroupCount(v / 128)
  }

  /** Continuation flags on all groups but the last. */
  function Flagged(gs: seq<nat>): (r: seq<Byte>)
    requires forall i :: 0 <= i < |gs| ==> gs[i] < 128
    ensures |r| == |gs|
  {
    if |gs| == 0 then [] else if |gs| == 1 then [gs[0]] else [gs[0] + 128] + Flagged(gs[1..])
  }

  function AllFlagged(gs: seq<nat>): (r: seq<Byte>)
    requires forall i :: 0 <= i < |gs| ==> gs[i] < 128
    ensures |r| == |gs|
  {
    if |gs| == 0 then [] else [gs[0] + 128] + AllFlagged(gs[1..])
  }

  function Encoded(v: nat): (r: seq<Byte>)
    requires v < TWO_64
    ensures |r| >= 1
  {
    if v < TWO_56 then Flagged(Groups(v, GroupCount(v))) else AllFlagged(Groups(v / 256, 8)) + [v % 256]
  }

  /** Read on at `offset`, with `size` bytes read and `value` so far. */
  function DecodeFrom(data: seq<Byte>, offset: nat, size: nat, value: nat): Decoded
    requires size <= 8
    decreases 8 - size
  {
    if offset + size >= |data| then Truncated
    else if size == 8 then Decoded(value * 256 + data[offset + 8], 9)
    else if data[offset + size] < 128 then Decoded(value * 128 + data[offset + size], size + 1)
    else DecodeFrom(data, offset, size + 1, value * 128 + data[offset + size] - 128)
  }

  function DecodeAt(data: seq<Byte>, offset: nat): Decoded {
    DecodeFrom(data, offset, 0, 0)
  }

  // ---- The loops ----

  lemma {:induction false} GroupAt(v: nat, k: nat, i: nat)
    requires i < k
    ensures Groups(v, k)[i] == Shifted(v, k - 1 - i) % 128
    decreases k
  {
    if i < k - 1 { GroupAt(v / 128, k - 1, i); }
  }

  lemma {:induction false} FlaggedAt(gs: seq<nat>, i: nat)
    requires i < |gs| && forall n :: 0 <= n < |gs| ==> gs[n] < 128
    ensures Flagged(gs)[i] == gs[i] + if i + 1 < |gs| then 128 else 0
    ensures AllFlagged(gs)[i] == gs[i] + 128
    decreases |gs|
  {
    if i > 0 { FlaggedAt(gs[1..], i - 1); }
  }

  /** The flagged groups of v, from the top down to the group `least`. */
  method FlagGroups(v: nat, n: nat, least: nat) returns (r: seq<Byte>)
    requires least <= n
    ensures |r| == n - least && forall i :: 0 <= i < n - least ==> r[i] == Groups(v, n)[i] + 128
  {
    r := [];
    var k := n;
    while k > least
      invariant least <= k <= n && |r| == n - k
      invariant forall i :: 0 <= i < n - k ==> r[i] == Groups(v, n)[i] + 128
    {
      k := k - 1;
      GroupAt(v, n, n - 1 - k);
      r := r + [Shifted(v, k) % 128 + 128];
    }
  }

  method EncodeUvarint(v: nat) returns (r: seq<Byte>)
    requires v < TWO_64
    ensures r == Encoded(v)
  {
    if v >= TWO_56 {
      var high := FlagGroups(v / 256, 8, 0);
      forall i | 0 <= i < 8 ensures high[i] == AllFlagged(Groups(v / 256, 8))[i] { FlaggedAt(Groups(v / 256, 8), i); }
      assert high == AllFlagged(Groups(v / 256, 8));
      return high + [v % 256];
    }
    var n := GroupCount(v);
    var high := FlagGroups(v, n, 1);
    r := high + [v % 128];
    forall i | 0 <= i < n ensures r[i] == Encoded(v)[i] {
      FlaggedAt(Groups(v, n), i);
      if i == n - 1 { GroupAt(v, n, i); }
    }
  }

  lemma DecodeStep(data: seq<Byte>, offset: nat, size: nat, value: nat)
    requires size < 8 && offset + size < |data|
    ensures
      var b: nat := data[offset + size];
      DecodeFrom(data, offset, size, value) ==
        if b < 128 then Decoded(value * 128 + b % 128, size + 1) else DecodeFrom(data, offset, size + 1, value * 128 + b % 128)
  {
    var b: nat := data[offset + size];
    assert b % 128 == if b < 128 then b else b - 128;
  }

  method DecodeUvarint(data: seq<Byte>, offset: nat) returns (r: Decoded)
    ensures r == DecodeAt(data, offset)
  {
    var value: nat := 0;
    ghost var goal := DecodeAt(data, offset);
    for i := 0 to 8
      invariant goal == DecodeFrom(data, offset, i, value)
    {
      if offset + i >= |data| {
        return Truncated;
      }
      DecodeStep(data, offset, i, value);
      var b: nat := data[offset + i];
      value := value * 128 + b % 128;
      if b < 128 {
        return Decoded(value, i + 1);
      }
    }
    if offset + 8 >= |data| {
      return Truncated;
    }
    return Decoded(value * 256 + data[offset + 8], 9);
  }

  // ---- Round trip ----

  lemma {:induction false} GroupCountFits(v: nat)
    ensures v < Pow(GroupCount(v))
    decreases v
  {
    if v >= 128 { GroupCountFits(v / 128); } else { assert Pow(1) == 128 * Pow(0); }
  }

  lemma {:induction false} GroupCountLeast(v: nat, k: nat)
    requires v < Pow(k) && k >= 1
    ensures GroupCount(v) <= k
    decreases v
  {
    if v >= 128 {
      assert k >= 2 by { assert Pow(1) == 128 * Pow(0); }
      GroupCountLeast(v / 128, k - 1);
    }
  }

  /** The value that groups spell, read on from `acc`. */
  function Horner(acc: nat, gs: seq<nat>): nat
    decreases |gs|
  {
    if |gs| == 0 then acc else Horner(acc * 128 + gs[0], gs[1..])
  }

  lemma {:induction false} HornerAppend(acc: nat, gs: seq<nat>, d: nat)
    ensures Horner(acc, gs + [d]) == Horner(acc, gs) * 128 + d
    decreases |gs|
  {
    if |gs| == 0 {
      assert gs + [d] == [d] && [d][1..] == [];
    } else {
      assert (gs + [d])[1..] == gs[1..] + [d];
      HornerAppend(acc * 128 + gs[0], gs[1..], d);
    }
  }

  lemma {:induction false} HornerGroups(v: nat, k: nat)
    requires v < Pow(k)
    ensures Horner(0, Groups(v, k)) == v
    decreases k
  {
    if k > 0 {
      HornerGroups(v / 128, k - 1);
      HornerAppend(0, Groups(v / 128, k - 1), v % 128);
    }
  }

  /** These groups, flagged, are what the data holds at this place. */
  ghost predicate Lies(data: seq<Byte>, at: nat, bytes: seq<Byte>) {
    at + |bytes| <= |data| && forall i :: 0 <= i < |bytes| ==> data[at + i] == bytes[i]
  }

  lemma LiesTail(data: seq<Byte>, at: nat, bytes: seq<Byte>)
    requires Lies(data, at, bytes) && |bytes| > 0
    ensures data[at] == bytes[0] && Lies(data, at + 1, bytes[1..])
  {
    forall i | 0 <= i < |bytes[1..]| ensures data[at + 1 + i] == bytes[1..][i] { assert data[at + (i + 1)] == bytes[i + 1]; }
  }

  lemma {:induction false} ReadGroups(data: seq<Byte>, offset: nat, size: nat, acc: nat, gs: seq<nat>)
    requires 1 <= |gs| && size + |gs| <= 8 && (forall i :: 0 <= i < |gs| ==> gs[i] < 128) && Lies(data, offset + size, Flagged(gs))
    ensures DecodeFrom(data, offset, size, acc) == Decoded(Horner(acc, gs), size + |gs|)
    decreases |gs|
  {
    LiesTail(data, offset + size, Flagged(gs));
    if |gs| > 1 { ReadGroups(data, offset, size + 1, acc * 128 + gs[0], gs[1..]); } else { assert gs[1..] == []; }
  }

  lemma {:induction false} ReadFlagged(data: seq<Byte>, offset: nat, size: nat, acc: nat, gs: seq<nat>)
    requires size + |gs| == 8 && (forall i :: 0 <= i < |gs| ==> gs[i] < 128) && Lies(data, offset + size, AllFlagged(gs)) && offset + 8 < |data|
    ensures DecodeFrom(data, offset, size, acc) == Decoded(Horner(acc, gs) * 256 + data[offset + 8], 9)
    decreases |gs|
  {
    if |gs| > 0 {
      LiesTail(data, offset + size, AllFlagged(gs));
      ReadFlagged(data, offset, size + 1, acc * 128 + gs[0], gs[1..]);
    }
  }

  lemma Powers()
    ensures Pow(8) == TWO_56
  {
    assert Pow(2) == 128 * Pow(1) && Pow(1) == 128 * Pow(0);
    assert Pow(4) == 128 * Pow(3) && Pow(3) == 128 * Pow(2);
    assert Pow(6) == 128 * Pow(5) && Pow(5) == 128 * Pow(4);
    assert Pow(8) == 128 * Pow(7) && Pow(7) == 128 * Pow(6);
  }

  /** Decoding finds the value and its exact length, whatever comes before or after. */
  lemma RoundTrip(v: nat, data: seq<Byte>, offset: nat)
    requires v < TWO_64 && Lies(data, offset, Encoded(v))
    ensures DecodeAt(data, offset) == Decoded(v, |Encoded(v)|)
  {
    Powers();
    if v < TWO_56 {
      GroupCountFits(v);
      GroupCountLeast(v, 8);
      ReadGroups(data, offset, 0, 0, Groups(v, GroupCount(v)));
      HornerGroups(v, GroupCount(v));
    } else {
      var high := AllFlagged(Groups(v / 256, 8));
      assert forall i :: 0 <= i < 8 ==> Encoded(v)[i] == high[i];
      assert data[offset + 8] == Encoded(v)[8] == v % 256;
      ReadFlagged(data, offset, 0, 0, Groups(v / 256, 8));
      HornerGroups(v / 256, 8);
    }
  }

  /** The encoding has the length that the space accounting assumes. */
  lemma EncodedLength(v: nat)
    requires v < TWO_64
    ensures |Encoded(v)| == CellSizes.VarintLen(v)
  {
    if v < TWO_56 { CountIs(v); }
  }

  lemma CountIs(v: nat)
    requires v < TWO_56
    ensures GroupCount(v) == CellSizes.VarintLen(v)
  {
    var a := v / 128;
    var b := a / 128;
    var c := b / 128;
    var d := c / 128;
    var e := d / 128;
    var f := e / 128;
    var g := f / 128;
    assert g < 128;
    assert GroupCount(g) == 1;
    assert GroupCount(f) == if f < 128 then 1 else 2;
    assert GroupCount(e) == if e < 128 then 1 else 1 + GroupCount(f);
    assert GroupCount(d) == if d < 128 then 1 else 1 + GroupCount(e);
    assert GroupCount(c) == if c < 128 then 1 else 1 + GroupCount(d);
    assert GroupCount(b) == if b < 128 then 1 else 1 + GroupCount(c);
    assert GroupCount(a) == if a < 128 then 1 else 1 + GroupCount(b);
  }
}
