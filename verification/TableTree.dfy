/** What a table b-tree is: rows on the leaves, copies of rowids as fences on the
    interior pages. A fence stands just after the row it was copied from, so one
    strictly ascending in-order sequence of rows and fences says that rows ascend
    and that the child left of a fence holds rowids up to the fence, the child
    right of it only larger ones. */
module TableTree {
  import opened Basics
  import opened TreeCells
  import opened Trees
  import opened Split
  import opened Cascade
  import opened Descent
  import opened CellSizes

  type Item = Cell

  function Rank(x: Item): int {
    match x
    case Row(rowid, _, _) => 2 * rowid
    case Fence(at) => 2 * at + 1
    case Entry(_, _, _) => 0
  }

  function LeafWeight(x: Item): (n: nat)
    ensures n <= 4085
  {
    if x.Row? && InRowidRange(x.rowid) then TableCellLen(x.rowid, |x.payload|) + 2 else 0
  }

  function FenceWeight(x: Item): (n: nat)
    ensures n <= 15
  {
    if x.Fence? && InRowidRange(x.at) then 4 + VarintLen(TwosComplement(x.at)) + 2 else 0
  }

  ghost predicate GoodRow(x: Item) {
    x.Row? && InRowidRange(x.rowid) && |x.payload| < TWO_64 && |x.chain| == ChainPages(TABLE_MAX_LOCAL, |x.payload|)
  }

  ghost predicate GoodFence(x: Item) {
    x.Fence? && InRowidRange(x.at)
  }

  ghost predicate LeafFits(cells: seq<Item>) {
    Bytes(cells, LeafWeight) <= LEAF_ROOM && AllGood(cells, GoodRow)
  }

  /** Leaves hold rows, at least one; interior pages hold fences, possibly none. */
  ghost predicate Rule(leaf: bool, cells: seq<Item>) {
    if leaf then |cells| >= 1 && LeafFits(cells)
    else Bytes(cells, FenceWeight) <= INTERIOR_ROOM && AllGood(cells, GoodFence)
  }

  lemma RuleIsInteriorRule()
    ensures InteriorRule(Rule, FenceWeight, GoodFence)
  {
    forall cells ensures RuleAt(cells, Rule, FenceWeight, GoodFence) {}
    forall x ensures Light(x, FenceWeight, GoodFence) {}
  }

  /** Only the root of an empty table may be a leaf without cells. */
  ghost predicate PagesOk(t: Tree<Item>) {
    AllPages(t, Rule) || (t.TLeaf? && LeafFits(t.cells))
  }

  ghost predicate Ascends(s: seq<Item>, i: int, j: int) {
    0 <= i < j < |s| ==> Rank(s[i]) < Rank(s[j])
  }

  ghost predicate Sorted(s: seq<Item>) {
    forall i, j {:trigger Ascends(s, i, j)} :: Ascends(s, i, j)
  }

  lemma SortedInsert(a: seq<Item>, x: Item, b: seq<Item>)
    requires Sorted(a + b)
    requires |a| > 0 ==> Rank(a[|a| - 1]) < Rank(x)
    requires |b| > 0 ==> Rank(x) < Rank(b[0])
    ensures Sorted(a + [x] + b)
  {
    var s, s' := a + b, a + [x] + b;
    forall i, j ensures Ascends(s', i, j) {
      if 0 <= i < j < |s'| {
        if i == |a| {
          assert b[j - |a| - 1] == s[j - 1] && b[0] == s[|a|] && Ascends(s, |a|, j - 1);
        } else if j == |a| {
          assert a[i] == s[i] && a[|a| - 1] == s[|a| - 1] && Ascends(s, i, |a| - 1);
        } else {
          var i', j' := if i < |a| then i else i - 1, if j < |a| then j else j - 1;
          assert s'[i] == s[i'] && s'[j] == s[j'] && Ascends(s, i', j');
        }
      }
    }
  }

  lemma SortedRemove(a: seq<Item>, x: Item, b: seq<Item>)
    requires Sorted(a + [x] + b)
    ensures Sorted(a + b)
  {
    var s, s' := a + [x] + b, a + b;
    forall i, j ensures Ascends(s', i, j) {
      if 0 <= i < j < |s'| { assert Ascends(s, if i < |a| then i else i + 1, if j < |a| then j else j + 1); }
    }
  }

  // ---- The rows ----

  /** The rows of a sequence, without the fences. */
  ghost function Rows(s: seq<Item>): seq<Item> {
    if |s| == 0 then [] else if s[0].Row? then [s[0]] + Rows(s[1..]) else Rows(s[1..])
  }

  lemma {:induction false} RowsAppend(a: seq<Item>, b: seq<Item>)
    ensures Rows(a + b) == Rows(a) + Rows(b)
    decreases |a|
  {
    if |a| == 0 {
      assert a + b == b;
    } else {
      assert (a + b)[1..] == a[1..] + b;
      RowsAppend(a[1..], b);
    }
  }

  // ---- The table as a finite map ----

  ghost function Single(x: Item): map<int, Payload> {
    if x.Row? then map[x.rowid := x.payload] else map[]
  }

  ghost function Table(s: seq<Item>): map<int, Payload> {
    if |s| == 0 then map[] else Single(s[0]) + Table(s[1..])
  }

  lemma MergeAssoc(a: map<int, Payload>, b: map<int, Payload>, c: map<int, Payload>)
    ensures a + (b + c) == (a + b) + c
  {
  }

  lemma {:induction false} TableAppend(a: seq<Item>, b: seq<Item>)
    ensures Table(a + b) == Table(a) + Table(b)
    decreases |a|
  {
    if |a| == 0 {
      assert a + b == b;
    } else {
      assert (a + b)[1..] == a[1..] + b && (a + b)[0] == a[0];
      TableAppend(a[1..], b);
      MergeAssoc(Single(a[0]), Table(a[1..]), Table(b));
    }
  }

  lemma TableParts(a: seq<Item>, x: Item, b: seq<Item>)
    ensures Table(a + [x] + b) == Table(a) + Single(x) + Table(b)
    ensures Table(a + b) == Table(a) + Table(b)
  {
    TableAppend(a + [x], b);
    TableAppend(a, [x]);
    TableAppend(a, b);
    TableOne(x);
  }

  lemma TableOne(x: Item)
    ensures Table([x]) == Single(x)
  {
    var none: seq<Item> := [];
    assert [x][1..] == none && Table(none) == map[];
    assert Single(x) + map[] == Single(x);
  }

  lemma MergeAround(a: map<int, Payload>, k: int, v: Payload, b: map<int, Payload>)
    requires k !in a && k !in b
    ensures a + map[k := v] + b == (a + b)[k := v]
    ensures a + b == (a + map[k := v] + b) - {k}
  {
  }

  lemma {:induction false} TableHas(s: seq<Item>, r: int)
    ensures r in Table(s) <==> exists i :: 0 <= i < |s| && s[i].Row? && s[i].rowid == r
    decreases |s|
  {
    if |s| > 0 {
      TableHas(s[1..], r);
      if r in Table(s[1..]) {
        var i :| 0 <= i < |s[1..]| && s[1..][i].Row? && s[1..][i].rowid == r;
        assert s[i + 1] == s[1..][i];
      }
      forall i | 0 < i < |s| && s[i].Row? && s[i].rowid == r ensures r in Table(s[1..]) { assert s[1..][i - 1] == s[i]; }
    }
  }

  lemma RanksAround(a: seq<Item>, x: Item, b: seq<Item>)
    requires Sorted(a + [x] + b)
    ensures forall i :: 0 <= i < |a| ==> Rank(a[i]) < Rank(x)
    ensures forall i :: 0 <= i < |b| ==> Rank(x) < Rank(b[i])
  {
    var s := a + [x] + b;
    forall i | 0 <= i < |a| ensures Rank(a[i]) < Rank(x) { assert Ascends(s, i, |a|) && s[|a|] == x && s[i] == a[i]; }
    forall i | 0 <= i < |b| ensures Rank(x) < Rank(b[i]) {
      assert Ascends(s, |a|, |a| + 1 + i) && s[|a|] == x && s[|a| + 1 + i] == b[i];
    }
  }

  /** A row in an ascending sequence is the only one with its rowid. */
  lemma TableAround(a: seq<Item>, x: Item, b: seq<Item>)
    requires Sorted(a + [x] + b) && x.Row?
    ensures x.rowid !in Table(a) && x.rowid !in Table(b) && x.rowid !in Table(a + b)
    ensures Table(a + [x] + b) == Table(a + b)[x.rowid := x.payload]
    ensures Table(a + b) == Table(a + [x] + b) - {x.rowid}
  {
    RanksAround(a, x, b);
    TableHas(a, x.rowid);
    TableHas(b, x.rowid);
    TableParts(a, x, b);
    MergeAround(Table(a), x.rowid, x.payload, Table(b));
  }

  lemma FenceIsNoEntry(a: seq<Item>, x: Item, b: seq<Item>)
    requires x.Fence?
    ensures Table(a + [x] + b) == Table(a + b)
  {
    TableParts(a, x, b);
  }

  // ---- Well-formed tables ----

  ghost predicate Wf(m: map<PageId, Page<Item>>, used: multiset<PageId>, t: Tree<Item>, h: nat, others: multiset<PageId>) {
    && Rep(m, t) && Shape(t, h) && PagesOk(t) && Sorted(Flat(t))
    && used == NodeIds(t) + (ChainIds(Flat(t)) + others)
    && ChainsLinked(m, Flat(t))
  }

  /** A rowid equal to a fence belongs left of it. */
  function Below(rowid: int): Item -> bool {
    (x: Item) => Rank(x) < 2 * rowid
  }

  lemma ProbeIsMonotone(s: seq<Item>, rowid: int)
    requires Sorted(s)
    ensures Monotone(s, Below(rowid))
  {
    forall i, j | 0 <= i < j < |s| && Below(rowid)(s[j]) ensures Below(rowid)(s[i]) {
      assert Ascends(s, i, j);
    }
  }

  /** A leaf in its context, ready to be rewritten. */
  ghost predicate Spot(m: map<PageId, Page<Item>>, used: multiset<PageId>, c: Ctx<Item>, leaf: Tree<Item>, keep: multiset<PageId>) {
    LeafSpot(m, used, c, leaf, keep, Rule) && LeafFits(leaf.cells)
  }

  lemma SpotOf(m: map<PageId, Page<Item>>, used: multiset<PageId>, t: Tree<Item>, h: nat, others: multiset<PageId>,
               path: seq<Step>, c: Ctx<Item>, leaf: Tree<Item>)
    requires Wf(m, used, t, h, others) && At(m, t, path, c, leaf, 0) && leaf.TLeaf?
    ensures Spot(m, used, c, leaf, ChainIds(Flat(t)) + others)
    ensures t.id == (if |path| == 0 then leaf.id else path[0].page)
    ensures t.id == (if c.Top? then leaf.id else RootPage(c))
  {
    FollowsDepth(path, c);
    PlugIds(c, leaf);
    PlugAll(c, leaf, Rule);
    PlugTop(c, leaf);
  }
}
