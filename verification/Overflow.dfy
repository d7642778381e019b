/** The tail of a payload on a chain of pages: each starts with the number of the
    next, 0 on the last. */
module Overflow {
  import opened Basics
  import opened Varint

  const CONTENT: nat := 4092

  /** A page of the chain: its link and the bytes after it, padding included. */
  datatype Link = Link(next: PageId, bytes: seq<Byte>)

  datatype Reading = Bytes(data: seq<Byte>) | Cycle | NoSuchPage

  function PageCount(n: nat): nat {
    (n + CONTENT - 1) / CONTENT
  }

  /** The bytes that go on the i-th page. */
  function Chunk(data: seq<Byte>, i: nat): seq<Byte> {
    data[Min(i * CONTENT, |data|)..Min((i + 1) * CONTENT, |data|)]
  }

  /** From the i-th page on, the chain holds the data from the i-th chunk on. */
  ghost predicate Holds(m: map<PageId, Link>, ids: seq<PageId>, data: seq<Byte>, i: nat)
    requires i <= |ids|
    decreases |ids| - i
  {
    i == |ids| ||
    ( && ids[i] in m && |m[ids[i]].bytes| == CONTENT && m[ids[i]].next == (if i + 1 < |ids| then ids[i + 1] else 0)
      && m[ids[i]].bytes[..|Chunk(data, i)|] == Chunk(data, i)
      && Holds(m, ids, data, i + 1))
  }

  lemma ChunkSize(data: seq<Byte>, i: nat)
    ensures |Chunk(data, i)| <= CONTENT
  {
  }

  /** Write the data over pages that were allocated for it; what a page held beyond
      its chunk stays. */
  method WriteChain(m0: map<PageId, Link>, ids: seq<PageId>, data: seq<Byte>) returns (m: map<PageId, Link>)
    requires |data| > 0 && |ids| == PageCount(|data|)
    requires forall i :: 0 <= i < |ids| ==> ids[i] in m0 && |m0[ids[i]].bytes| == CONTENT
    requires forall i, j :: 0 <= i < j < |ids| ==> ids[i] != ids[j]
    ensures Holds(m, ids, data, 0)
    ensures m.Keys == m0.Keys && forall x :: x in m0 && x !in ids ==> m[x] == m0[x]
  {
    m := m0;
    var i := |ids|;
    while i > 0
      invariant 0 <= i <= |ids| && m.Keys == m0.Keys && Holds(m, ids, data, i)
      invariant forall k :: 0 <= k < i ==> m[ids[k]] == m0[ids[k]]
      invariant forall x :: x in m0 && x !in ids ==> m[x] == m0[x]
    {
      i := i - 1;
      var chunk := Chunk(data, i);
      ChunkSize(data, i);
      ghost var before := m;
      var old' := m[ids[i]].bytes;
      m := m[ids[i] := Link(if i + 1 < |ids| then ids[i + 1] else 0, chunk + old'[|chunk|..])];
      HoldsFrame(before, m, ids, data, i + 1, ids[i]);
      assert m[ids[i]].bytes[..|chunk|] == chunk;
    }
  }

  lemma {:induction false} HoldsFrame(m: map<PageId, Link>, m': map<PageId, Link>, ids: seq<PageId>, data: seq<Byte>, i: nat, x: PageId)
    requires i <= |ids| && Holds(m, ids, data, i) && (forall k :: i <= k < |ids| ==> ids[k] != x)
    requires m'.Keys == m.Keys && forall y :: y in m && y != x ==> m'[y] == m[y]
    ensures Holds(m', ids, data, i)
    decreases |ids| - i
  {
    if i < |ids| { HoldsFrame(m, m', ids, data, i + 1, x); }
  }

  /** Follow the chain, taking from each page what is still missing. A page met twice
      is an error, so the loop ends on any pages. */
  method ReadChain(m: map<PageId, Link>, first: PageId, total: nat, ghost ids: seq<PageId>, ghost data: seq<Byte>) returns (r: Reading)
    requires forall x :: x in m ==> |m[x].bytes| == CONTENT
    ensures Chained(m, first, total, ids, data) ==> r == Bytes(data)
  {
    ghost var good := Chained(m, first, total, ids, data);
    var content: seq<Byte>, seen, page := [], {}, first;
    ghost var i := 0;
    while page != 0
      invariant |content| <= total && seen <= m.Keys
      invariant good ==> i <= |ids| && page == (if i < |ids| then ids[i] else 0) && Holds(m, ids, data, i)
      invariant good ==> content == data[..Min(i * CONTENT, |data|)] && forall x :: x in seen ==> x in ids[..i]
      decreases m.Keys - seen
    {
      if page in seen {
        return Cycle;
      }
      if page !in m {
        return NoSuchPage;
      }
      seen := seen + {page};
      var take := Min(CONTENT, total - |content|);
      if good { ChunkFollows(data, i); }
      content := content + m[page].bytes[..take];
      page := m[page].next;
      i := i + 1;
    }
    if good { LastChunk(|data|, i); }
    return Bytes(content + seq(total - |content|, k => 0));
  }

  /** A chain of distinct pages that holds the data. */
  ghost predicate Chained(m: map<PageId, Link>, first: PageId, total: nat, ids: seq<PageId>, data: seq<Byte>) {
    && total == |data| && |ids| == PageCount(total) && first == (if |ids| > 0 then ids[0] else 0)
    && Holds(m, ids, data, 0) && 0 !in ids && forall i, j :: 0 <= i < j < |ids| ==> ids[i] != ids[j]
  }

  lemma ChunkFollows(data: seq<Byte>, i: nat)
    ensures |Chunk(data, i)| == Min(CONTENT, |data| - Min(i * CONTENT, |data|))
    ensures data[..Min(i * CONTENT, |data|)] + Chunk(data, i) == data[..Min((i + 1) * CONTENT, |data|)]
  {
  }

  lemma LastChunk(n: nat, i: nat)
    requires i >= PageCount(n)
    ensures Min(i * CONTENT, n) == n
  {
    assert PageCount(n) * CONTENT >= n;
  }
}
