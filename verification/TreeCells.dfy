/** What the pages of a file store, whichever tree they belong to: index entries,
    table rows, and the fences between table rows. Both kinds of tree live in one
    file, so both are made of one kind of cell. */
module TreeCells {
  import opened Basics
  import opened Trees
  import opened Store
  import opened Keys

  type Payload = seq<nat>

  /** An entry has the length of its encoded key record, a row its payload; both
      list the pages of their overflow chain. */
  datatype Cell =
    | Entry(entryKey: Key, entryLen: nat, entryChain: seq<PageId>)
    | Row(rowid: int, payload: Payload, rowChain: seq<PageId>)
    | Fence(at: int)
  {
    const key: Key := if Entry? then entryKey else []

    const len: nat := if Entry? then entryLen else 0

    const chain: seq<PageId> := match this case Entry(_, _, c) => c case Row(_, _, c) => c case Fence(_) => []
  }

  datatype Kind = TableKind | IndexKind(arity: nat)

  /** What the catalog knows of a tree. */
  datatype Root = Root(page: PageId, kind: Kind)

  /** The overflow pages of all the cells in a sequence. */
  ghost function ChainIds(s: seq<Cell>): multiset<PageId> {
    if |s| == 0 then multiset{} else Tally(s[0].chain) + ChainIds(s[1..])
  }

  ghost predicate ChainsLinked(m: map<PageId, Page<Cell>>, s: seq<Cell>) {
    |s| == 0 || (OverflowLinks(m, s[0].chain) && ChainsLinked(m, s[1..]))
  }

  lemma {:induction false} ChainAppend(m: map<PageId, Page<Cell>>, a: seq<Cell>, b: seq<Cell>)
    ensures ChainIds(a + b) == ChainIds(a) + ChainIds(b)
    ensures ChainsLinked(m, a + b) <==> ChainsLinked(m, a) && ChainsLinked(m, b)
    decreases |a|
  {
    if |a| == 0 {
      assert a + b == b;
    } else {
      assert (a + b)[1..] == a[1..] + b;
      ChainAppend(m, a[1..], b);
    }
  }

  lemma ChainInsert(m: map<PageId, Page<Cell>>, a: seq<Cell>, x: Cell, b: seq<Cell>)
    ensures ChainIds(a + [x] + b) == ChainIds(a + b) + Tally(x.chain)
    ensures ChainsLinked(m, a + [x] + b) <==> ChainsLinked(m, a + b) && OverflowLinks(m, x.chain)
  {
    ChainAppend(m, a + [x], b);
    ChainAppend(m, a, [x]);
    ChainAppend(m, a, b);
    assert [x][1..] == [];
  }

  lemma {:induction false} ChainsFrame(m: map<PageId, Page<Cell>>, m': map<PageId, Page<Cell>>, s: seq<Cell>)
    requires ChainsLinked(m, s) && Agree(m, m', ChainIds(s))
    ensures ChainsLinked(m', s)
    decreases |s|
  {
    if |s| > 0 {
      AgreeSub(m, m', ChainIds(s), Tally(s[0].chain));
      AgreeSub(m, m', ChainIds(s), ChainIds(s[1..]));
      OverflowLinksFrame(m, m', s[0].chain);
      ChainsFrame(m, m', s[1..]);
    }
  }
}
