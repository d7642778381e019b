/** Page space accounting, and where to cut a page that has run out of it.

    The weight of a cell is its encoded length plus its two-byte pointer. Pages
    are cut at the boundary whose two sides are closest in weight; what that
    buys is proved here from the greedy loops' own minimality. */
module Split {

  const PAGE_SIZE: nat := 4096
  /** What is left for cells and pointers beside the 8- or 12-byte page header. */
  const LEAF_ROOM: nat := PAGE_SIZE - 8
  const INTERIOR_ROOM: nat := PAGE_SIZE - 12

  function Room(leaf: bool): nat {
    if leaf then LEAF_ROOM else INTERIOR_ROOM
  }

  ghost function Bytes<X>(cells: seq<X>, w: X -> nat): nat {
    if |cells| == 0 then 0 else w(cells[0]) + Bytes(cells[1..], w)
  }

  lemma {:induction false} BytesAppend<X>(a: seq<X>, b: seq<X>, w: X -> nat)
    ensures Bytes(a + b, w) == Bytes(a, w) + Bytes(b, w)
    decreases |a|
  {
    if |a| == 0 {
      assert a + b == b;
    } else {
      assert (a + b)[1..] == a[1..] + b;
      BytesAppend(a[1..], b, w);
    }
  }

  lemma BytesOne<X>(x: X, w: X -> nat)
    ensures Bytes([x], w) == w(x)
  {
    assert [x][1..] == [];
  }

  lemma BytesTake<X>(cells: seq<X>, k: nat, w: X -> nat)
    requires k < |cells|
    ensures Bytes(cells[..k + 1], w) == Bytes(cells[..k], w) + w(cells[k])
  {
    assert cells[..k + 1] == cells[..k] + [cells[k]];
    BytesAppend(cells[..k], [cells[k]], w);
    BytesOne(cells[k], w);
  }

  lemma BytesCut<X>(cells: seq<X>, k: nat, w: X -> nat)
    requires k <= |cells|
    ensures Bytes(cells, w) == Bytes(cells[..k], w) + Bytes(cells[k..], w)
  {
    assert cells == cells[..k] + cells[k..];
    BytesAppend(cells[..k], cells[k..], w);
  }

  /** Replacing one cell by another changes the total by the difference. */
  lemma BytesUpdate<X>(cells: seq<X>, k: nat, x: X, w: X -> nat)
    requires k < |cells|
    ensures Bytes(cells[k := x], w) + w(cells[k]) == Bytes(cells, w) + w(x)
  {
    BytesSplice(cells, k, k + 1, [x], w);
    assert cells[k := x] == cells[..k] + [x] + cells[k + 1..];
    assert cells[k..k + 1] == [cells[k]];
    BytesOne(cells[k], w);
    BytesOne(x, w);
  }

  lemma BytesSplice<X>(cells: seq<X>, i: nat, j: nat, mid: seq<X>, w: X -> nat)
    requires i <= j <= |cells|
    ensures Bytes(cells[..i] + mid + cells[j..], w) + Bytes(cells[i..j], w) == Bytes(cells, w) + Bytes(mid, w)
  {
    BytesAppend(cells[..i] + mid, cells[j..], w);
    BytesAppend(cells[..i], mid, w);
    BytesCut(cells, j, w);
    BytesCut(cells[..j], i, w);
    assert cells[..j][..i] == cells[..i] && cells[..j][i..] == cells[i..j];
  }

  lemma {:induction false} BytesAtMost<X>(cells: seq<X>, w: X -> nat, most: nat)
    requires forall i :: 0 <= i < |cells| ==> w(cells[i]) <= most
    ensures Bytes(cells, w) <= |cells| * most
    decreases |cells|
  {
    if |cells| > 0 { BytesAtMost(cells[1..], w, most); }
  }

  lemma {:induction false} SameWeights<X>(a: seq<X>, b: seq<X>, w: X -> nat)
    requires |a| == |b| && forall i :: 0 <= i < |a| ==> w(a[i]) == w(b[i])
    ensures Bytes(a, w) == Bytes(b, w)
    decreases |a|
  {
    if |a| > 0 { SameWeights(a[1..], b[1..], w); }
  }

  function Abs(x: int): nat {
    if x < 0 then -x else x
  }

  /** How far a cut after k cells is from the middle, in half bytes. */
  ghost function Skew<X>(cells: seq<X>, k: nat, w: X -> nat): nat
    requires k <= |cells|
  {
    Abs(2 * Bytes(cells[..k], w) - Bytes(cells, w))
  }

  /** How far every cut is from the middle. */
  ghost function Skews<X>(cells: seq<X>, w: X -> nat): (r: seq<nat>)
    ensures |r| == |cells| + 1 && forall k :: 0 <= k <= |cells| ==> r[k] == Skew(cells, k, w)
  {
    seq(|cells| + 1, k requires 0 <= k <= |cells| => Skew(cells, k, w))
  }

  /** No cut has sides closer in weight, and none further right has sides as close. */
  ghost predicate MostEven<X(!new)>(cells: seq<X>, cut: nat, w: X -> nat) {
    && 1 <= cut < |cells|
    && (forall k :: 1 <= k < |cells| ==> Skew(cells, cut, w) <= Skew(cells, k, w))
    && (forall k :: cut < k < |cells| ==> Skew(cells, cut, w) < Skew(cells, k, w))
  }

  lemma SkewAt<X>(cells: seq<X>, k: nat, w: X -> nat, running: nat, total: nat, all: seq<nat>)
    requires 1 <= k <= |cells| && running == Bytes(cells[..k - 1], w) && total == Bytes(cells, w) && all == Skews(cells, w)
    ensures running + w(cells[k - 1]) == Bytes(cells[..k], w) && all[k] == Abs(2 * (running + w(cells[k - 1])) - total)
  {
    BytesTake(cells, k - 1, w);
  }

  /** The cut, between 1 and |cells| - 1, whose sides are closest in weight;
      the rightmost one if several are. */
  method ClosestToHalf<X>(cells: seq<X>, w: X -> nat) returns (best: nat)
    requires |cells| >= 2
    ensures 1 <= best < |cells|
    ensures forall k :: 1 <= k < |cells| ==> Skew(cells, best, w) <= Skew(cells, k, w)
    ensures forall k :: best < k < |cells| ==> Skew(cells, best, w) < Skew(cells, k, w)
  {
    var total := TotalBytes(cells, w);
    ghost var all := Skews(cells, w);
    var running := w(cells[0]);
    SkewAt(cells, 1, w, 0, total, all);
    best := 1;
    var bestSkew := Abs(2 * running - total);
    var k := 2;
    while k < |cells|
      invariant 2 <= k <= |cells| && 1 <= best < k
      invariant running == Bytes(cells[..k - 1], w)
      invariant bestSkew == all[best]
      invariant forall j :: 1 <= j < k ==> bestSkew <= all[j]
      invariant forall j :: best < j < k ==> bestSkew < all[j]
    {
      SkewAt(cells, k, w, running, total, all);
      running := running + w(cells[k - 1]);
      var skew := Abs(2 * running - total);
      if skew <= bestSkew {
        best, bestSkew := k, skew;
      }
      k := k + 1;
    }
  }

  method TotalBytes<X>(cells: seq<X>, w: X -> nat) returns (total: nat)
    ensures total == Bytes(cells, w)
  {
    total := 0;
    for k := 0 to |cells|
      invariant total == Bytes(cells[..k], w)
    {
      BytesTake(cells, k, w);
      total := total + w(cells[k]);
    }
    assert cells[..|cells|] == cells;
  }

  /** How unequal the two sides are once the cell at m is taken out. */
  ghost function Unevenness<X>(cells: seq<X>, m: nat, w: X -> nat): nat
    requires m < |cells|
  {
    Abs(Bytes(cells[..m], w) - Bytes(cells[m + 1..], w))
  }

  /** Taking out no other cell leaves sides closer in weight, and none further right as close. */
  ghost predicate LeavesMostEven<X(!new)>(cells: seq<X>, m: nat, w: X -> nat) {
    && m < |cells|
    && (forall k :: 0 <= k < |cells| ==> Unevenness(cells, m, w) <= Unevenness(cells, k, w))
    && (forall k :: m < k < |cells| ==> Unevenness(cells, m, w) < Unevenness(cells, k, w))
  }

  ghost function Unevennesses<X>(cells: seq<X>, w: X -> nat): (r: seq<nat>)
    ensures |r| == |cells| && forall m :: 0 <= m < |cells| ==> r[m] == Unevenness(cells, m, w)
  {
    seq(|cells|, m requires 0 <= m < |cells| => Unevenness(cells, m, w))
  }

  /** The cell whose removal leaves the two sides closest in weight; the
      rightmost one if several do. */
  method ConsumeClosestToHalf<X>(cells: seq<X>, w: X -> nat) returns (best: nat)
    requires |cells| >= 1
    ensures best < |cells|
    ensures forall m :: 0 <= m < |cells| ==> Unevenness(cells, best, w) <= Unevenness(cells, m, w)
    ensures forall m :: best < m < |cells| ==> Unevenness(cells, best, w) < Unevenness(cells, m, w)
  {
    var total := TotalBytes(cells, w);
    ghost var all := Unevennesses(cells, w);
    var before := w(cells[0]);
    assert cells[..0] == [];
    DiffAt(cells, 0, w, 0, before, total, all);
    best := 0;
    var bestDiff := Abs(before - total);
    var m := 1;
    while m < |cells|
      invariant 1 <= m <= |cells| && best < m
      invariant before == Bytes(cells[..m], w)
      invariant bestDiff == all[best]
      invariant forall j :: 0 <= j < m ==> bestDiff <= all[j]
      invariant forall j :: best < j < m ==> bestDiff < all[j]
    {
      var after := before + w(cells[m]);
      DiffAt(cells, m, w, before, after, total, all);
      var diff := Abs(before + after - total);
      if diff <= bestDiff {
        best, bestDiff := m, diff;
      }
      before := after;
      m := m + 1;
    }
  }

  lemma DiffAt<X>(cells: seq<X>, m: nat, w: X -> nat, before: nat, after: nat, total: nat, all: seq<nat>)
    requires m < |cells| && before == Bytes(cells[..m], w) && after == before + w(cells[m]) && total == Bytes(cells, w)
    requires all == Unevennesses(cells, w)
    ensures after == Bytes(cells[..m + 1], w) && all[m] == Abs(before + after - total)
  {
    BytesTake(cells, m, w);
    UnevennessAt(cells, m, w);
  }

  lemma UnevennessAt<X>(cells: seq<X>, m: nat, w: X -> nat)
    requires m < |cells|
    ensures Unevenness(cells, m, w)
         == Abs(Bytes(cells[..m], w) + Bytes(cells[..m + 1], w) - Bytes(cells, w))
  {
    BytesCut(cells, m + 1, w);
    SameGap(Bytes(cells[..m], w), Bytes(cells[..m + 1], w), Bytes(cells[m + 1..], w), Bytes(cells, w));
  }

  lemma SameGap(a: nat, b: nat, c: nat, total: nat)
    requires total == b + c
    ensures Abs(a - c) == Abs(a + b - total)
  {
  }

  /** The first prefix that reaches half of the total. */
  lemma {:induction false} Crossing<X>(cells: seq<X>, w: X -> nat, total: nat, k: nat) returns (j: nat)
    requires 0 < total <= 2 * Bytes(cells, w) && k <= |cells| && 2 * Bytes(cells[..k], w) < total
    ensures k <= j < |cells|
    ensures 2 * Bytes(cells[..j], w) < total <= 2 * Bytes(cells[..j + 1], w)
    decreases |cells| - k
  {
    assert cells[..|cells|] == cells;
    BytesTake(cells, k, w);
    if 2 * Bytes(cells[..k + 1], w) >= total {
      j := k;
    } else {
      j := Crossing(cells, w, total, k + 1);
    }
  }

  ghost predicate Bounded<X>(cells: seq<X>, w: X -> nat, most: nat) {
    forall i :: 0 <= i < |cells| ==> w(cells[i]) <= most
  }

  /** A balanced cut is off the middle by at most one cell. */
  lemma BalancedCut<X>(cells: seq<X>, best: nat, w: X -> nat, most: nat)
    requires Bounded(cells, w, most) && Bytes(cells, w) > 2 * most
    requires 1 <= best < |cells|
    requires forall k :: 1 <= k < |cells| ==> Skew(cells, best, w) <= Skew(cells, k, w)
    ensures Skew(cells, best, w) <= most
  {
    var total := Bytes(cells, w);
    var j := Crossing(cells, w, total, 0);
    BytesTake(cells, j, w);
    assert w(cells[j]) <= most;
    assert cells[..0] == [] && cells[..|cells|] == cells;
    assert 1 <= j && j + 1 < |cells|;
    assert Skew(cells, j, w) <= most || Skew(cells, j + 1, w) <= most;
  }

  lemma SomeEvenConsume<X>(cells: seq<X>, w: X -> nat, most: nat) returns (j: nat)
    requires Bounded(cells, w, most) && Bytes(cells, w) > 0
    ensures j < |cells| && Unevenness(cells, j, w) <= most
  {
    j := Crossing(cells, w, Bytes(cells, w), 0);
    BytesTake(cells, j, w);
    UnevennessAt(cells, j, w);
    assert w(cells[j]) <= most;
  }

  /** Taking out the best cell leaves sides that differ by at most one cell. */
  lemma BalancedConsume<X>(cells: seq<X>, best: nat, w: X -> nat, most: nat)
    requires Bounded(cells, w, most) && Bytes(cells, w) > 0 && best < |cells|
    requires forall m :: 0 <= m < |cells| ==> Unevenness(cells, best, w) <= Unevenness(cells, m, w)
    ensures Unevenness(cells, best, w) <= most
  {
    var j := SomeEvenConsume(cells, w, most);
  }

  /** The weight of the heavier side of a cut. */
  ghost function Heavier<X>(cells: seq<X>, k: nat, w: X -> nat): nat
    requires k <= |cells|
  {
    if Bytes(cells[..k], w) < Bytes(cells[k..], w) then Bytes(cells[k..], w) else Bytes(cells[..k], w)
  }

  /** Closest to the middle means: no cut has a lighter heavier side. So if the
      chosen cut does not fit on two pages, no cut does. */
  lemma CutIsOptimal<X>(cells: seq<X>, best: nat, k: nat, w: X -> nat)
    requires 1 <= best < |cells| && 1 <= k < |cells| && Skew(cells, best, w) <= Skew(cells, k, w)
    ensures Heavier(cells, best, w) <= Heavier(cells, k, w)
  {
    BytesCut(cells, best, w);
    BytesCut(cells, k, w);
  }
}
