/** Operations that the page layout makes fail: an index deletion whose replacement
    divider does not fit, one whose repair does not, and a table insertion whose
    leaf cannot be cut in two. Each happens on a well-formed tree in a file. */
module Witnesses {
  import opened Basics
  import opened Trees
  import opened Store
  import opened Split
  import opened Cascade
  import opened Keys
  import opened CellSizes
  import opened TreeCells
  import opened IndexTree
  import opened Rebalance
  import opened IndexDelete
  import Index
  import Record
  import Varint
  import Validate
  import TableTree
  import TableInsert
  import TableOrder
  import Tables

  // ---- A root with leaves below it, on pages 2, 3, 4 and so on ----

  function Leaves(lists: seq<seq<Cell>>, id: PageId): (r: seq<Tree<Cell>>)
    ensures |r| == |lists|
  {
    if |lists| == 0 then [] else [TLeaf(id, lists[0])] + Leaves(lists[1..], id + 1)
  }

  lemma {:induction false} LeafAt(lists: seq<seq<Cell>>, id: PageId, i: nat)
    requires i < |lists|
    ensures Leaves(lists, id)[i] == TLeaf(id + i, lists[i])
    decreases i
  {
    if i > 0 { LeafAt(lists[1..], id + 1, i - 1); }
  }

  function Bush(cells: seq<Cell>, lists: seq<seq<Cell>>): Tree<Cell> {
    TNode(2, cells, Leaves(lists, 3))
  }

  function LeafPages(lists: seq<seq<Cell>>, id: PageId): (m: map<PageId, Page<Cell>>)
    ensures forall x :: x in m ==> id <= x
  {
    if |lists| == 0 then map[] else LeafPages(lists[1..], id + 1)[id := LeafPage(lists[0])]
  }

  function BushPages(cells: seq<Cell>, lists: seq<seq<Cell>>): map<PageId, Page<Cell>>
    requires |lists| == |cells| + 1
  {
    LeafPages(lists, 3)[2 := Interior(cells, KidIds(Leaves(lists, 3)))]
  }

  lemma {:induction false} LeavesRep(m: map<PageId, Page<Cell>>, lists: seq<seq<Cell>>, id: PageId)
    requires forall x :: x in LeafPages(lists, id) ==> x in m && m[x] == LeafPages(lists, id)[x]
    ensures Reps(m, Leaves(lists, id)) && Shapes(Leaves(lists, id), 0)
    decreases |lists|
  {
    if |lists| > 0 {
      assert id in LeafPages(lists, id);
      var rest := LeafPages(lists[1..], id + 1);
      forall x | x in rest ensures x in m && m[x] == rest[x] { assert x in LeafPages(lists, id); }
      LeavesRep(m, lists[1..], id + 1);
    }
  }

  lemma BushRep(cells: seq<Cell>, lists: seq<seq<Cell>>)
    requires |lists| == |cells| + 1
    ensures Rep(BushPages(cells, lists), Bush(cells, lists)) && Shape(Bush(cells, lists), 1)
  {
    LeavesRep(BushPages(cells, lists), lists, 3);
  }

  lemma {:induction false} LeafIds(lists: seq<seq<Cell>>, id: PageId, x: PageId)
    ensures ForestIds(Leaves(lists, id))[x] == if id <= x < id + |lists| then 1 else 0
    decreases |lists|
  {
    if |lists| > 0 { LeafIds(lists[1..], id + 1, x); }
  }

  lemma BushLedger(cells: seq<Cell>, lists: seq<seq<Cell>>)
    ensures Ledger(NodeIds(Bush(cells, lists)), [], 2 + |lists|)
  {
    var used, none: seq<PageId> := NodeIds(Bush(cells, lists)), [];
    forall x: PageId ensures Owners(used, none, x) == if 2 <= x <= 2 + |lists| then 1 else 0 { LeafIds(lists, 3, x); }
  }

  lemma {:induction false} LeavesAll(lists: seq<seq<Cell>>, id: PageId, ok: PageRule<Cell>)
    requires forall i :: 0 <= i < |lists| ==> ok(true, lists[i])
    ensures AllForest(Leaves(lists, id), ok)
    decreases |lists|
  {
    if |lists| > 0 {
      assert ok(true, lists[0]);
      LeavesAll(lists[1..], id + 1, ok);
    }
  }

  // ---- Entries numbered in order ----

  /** An entry of an index on one text column: the text has `size` bytes, the first
      of which tells the entries apart, and the rowid comes after it. */
  function KeyOf(k: nat, size: nat): Key {
    [Text(seq(size, i => if i == 0 then k else 32)), Int(k)]
  }

  /** The length of that key as a record: the header's own length, two serial types,
      the text, and the rowid, which for 0 and 1 takes no byte. */
  function KeyBytes(k: nat, size: nat): nat {
    (if size < 58 then 3 else 4) + size + (if k <= 1 then 0 else 1)
  }

  function E(k: nat, size: nat): Cell {
    Entry(KeyOf(k, size), KeyBytes(k, size), [])
  }

  /** The key as the record layer sees it. */
  ghost predicate Spells(key: Key, cs: seq<Record.Column>) {
    |key| == |cs| && forall i :: 0 <= i < |key| ==> SameValue(key[i], cs[i])
  }

  ghost predicate SameValue(v: Value, c: Record.Column) {
    match v
    case Text(s) => c.Text? && c.utf8 == s
    case Int(i) => c == Record.Integer(i)
    case _ => false
  }

  /** However such a key is encoded, its record has the length that its entry says. */
  lemma RecordLength(k: nat, size: nat, cs: seq<Record.Column>, types: seq<seq<Varint.Byte>>, bodies: seq<seq<Varint.Byte>>, h: nat,
                     r: seq<Varint.Byte>)
    requires k < 128 && size <= 1000 && Spells(KeyOf(k, size), cs) && Record.IsRecord(r, cs, types, bodies, h)
    ensures |r| == KeyBytes(k, size)
  {
    assert SameValue(KeyOf(k, size)[0], cs[0]) && SameValue(KeyOf(k, size)[1], cs[1]);
    assert Record.PartAt(cs[0], types[0], bodies[0]) && Record.PartAt(cs[1], types[1], bodies[1]);
    JoinedTwo(types);
    JoinedTwo(bodies);
    Varint.EncodedLength(2 * size + 13);
    Varint.EncodedLength(Record.SerialType(cs[1]));
    Varint.EncodedLength(h);
  }

  lemma JoinedTwo(parts: seq<seq<Varint.Byte>>)
    requires |parts| == 2
    ensures Record.Joined(parts) == parts[0] + parts[1]
  {
    assert parts[1..][1..] == [] && parts[1..][0] == parts[1];
    assert Record.Joined(parts[1..]) == parts[1];
  }

  predicate IsE(x: Cell, k: int) {
    && x.Entry? && |x.key| == 2 && x.key[0].Text? && |x.key[0].utf8| > 0 && x.key[0].utf8[0] == k && x.key[1] == Int(k)
    && x.chain == []
  }

  predicate Run(s: seq<Cell>, k: int) {
    forall i :: 0 <= i < |s| ==> IsE(s[i], k + i)
  }

  /** The leaves and the dividers between them are numbered from k on. */
  predicate Numbered(cells: seq<Cell>, lists: seq<seq<Cell>>, k: int)
    requires |lists| == |cells| + 1
  {
    Run(lists[0], k) && (|cells| > 0 ==> IsE(cells[0], k + |lists[0]|) && Numbered(cells[1..], lists[1..], k + |lists[0]| + 1))
  }

  lemma {:induction false} NumberedFlat(cells: seq<Cell>, lists: seq<seq<Cell>>, id: PageId, k: int)
    requires |lists| == |cells| + 1 && Numbered(cells, lists, k)
    ensures Run(FlatKids(cells, Leaves(lists, id)), k)
    decreases |cells|
  {
    if |cells| > 0 { NumberedFlat(cells[1..], lists[1..], id + 1, k + |lists[0]| + 1); }
  }

  lemma RunSorted(s: seq<Cell>, k: int)
    requires Run(s, k)
    ensures Sorted(s) && SameArity(s, 2)
  {
    forall i ensures HasArity(s, 2, i) {}
    forall i, j ensures Ascends(s, i, j) {
      if 0 <= i < j < |s| { assert IsE(s[i], k + i) && IsE(s[j], k + j) && CompareValues(s[i].key[0], s[j].key[0]) == -1; }
    }
  }

  lemma {:induction false} RunHasNoChains(m: map<PageId, Page<Cell>>, s: seq<Cell>, k: int)
    requires Run(s, k)
    ensures ChainIds(s) == multiset{} && ChainsLinked(m, s)
    decreases |s|
  {
    if |s| > 0 {
      assert IsE(s[0], k + 0);
      forall i | 0 <= i < |s[1..]| ensures IsE(s[1..][i], k + 1 + i) { assert IsE(s[i + 1], k + (i + 1)); }
      RunHasNoChains(m, s[1..], k + 1);
    }
  }

  /** Numbered entries on pages that fit are an index, alone in its file. */
  lemma BushIsIndex(cells: seq<Cell>, lists: seq<seq<Cell>>, k: int)
    requires |lists| == |cells| + 1 && Numbered(cells, lists, k)
    requires Rule(2)(false, cells) && forall i :: 0 <= i < |lists| ==> Rule(2)(true, lists[i])
    ensures Wf(BushPages(cells, lists), NodeIds(Bush(cells, lists)), Bush(cells, lists), 1, 2, multiset{})
  {
    var t, m := Bush(cells, lists), BushPages(cells, lists);
    BushRep(cells, lists);
    LeavesAll(lists, 3, Rule(2));
    NumberedFlat(cells, lists, 3, k);
    RunSorted(Flat(t), k);
    RunHasNoChains(m, Flat(t), k);
  }

  // ---- An index with two deletions that the pages do not allow ----

  /** One short divider and four long ones, nearly filling the root. */
  function Dividers(): seq<Cell> {
    [E(1, 7), E(7, 995), E(9, 995), E(11, 995), E(13, 995)]
  }

  /** Left of the short divider one long entry; right of it a leaf nearly full. */
  function FullLeaf(): seq<Cell> {
    [E(2, 995), E(3, 995), E(4, 995), E(5, 995), E(6, 56)]
  }

  function Lists(): seq<seq<Cell>> {
    [[E(0, 996)], FullLeaf(), [E(8, 6)], [E(10, 6)], [E(12, 6)], [E(14, 6)]]
  }

  lemma EntryWeights(k: nat, size: nat, len: nat)
    requires len == KeyBytes(k, size) <= 1000
    ensures var n := (if len < 128 then 1 else 2) + len; LeafWeight(E(k, size)) == n + 2 && InteriorWeight(E(k, size)) == n + 6
    ensures GoodEntry(E(k, size), 2)
  {
    assert INDEX_MAX_LOCAL == 1002;
  }

  lemma FiveBytes(s: seq<Cell>, w: Cell -> nat)
    requires |s| == 5
    ensures Bytes(s, w) == w(s[0]) + w(s[1]) + w(s[2]) + w(s[3]) + w(s[4])
  {
    BytesTake(s, 0, w);
    BytesTake(s, 1, w);
    BytesTake(s, 2, w);
    BytesTake(s, 3, w);
    BytesTake(s, 4, w);
    assert s[..5] == s && s[..0] == [];
  }

  lemma RootFits()
    ensures Bytes(Dividers(), InteriorWeight) == 4049 && Rule(2)(false, Dividers())
  {
    EntryWeights(1, 7, 10);
    EntryWeights(7, 995, 1000);
    EntryWeights(9, 995, 1000);
    EntryWeights(11, 995, 1000);
    EntryWeights(13, 995, 1000);
    FiveBytes(Dividers(), InteriorWeight);
    assert AllGood(Dividers(), Good(2));
  }

  lemma FullLeafFits()
    ensures Bytes(FullLeaf(), LeafWeight) == 4079 && Rule(2)(true, FullLeaf())
  {
    EntryWeights(2, 995, 1000);
    EntryWeights(3, 995, 1000);
    EntryWeights(4, 995, 1000);
    EntryWeights(5, 995, 1000);
    EntryWeights(6, 56, 60);
    FiveBytes(FullLeaf(), LeafWeight);
    assert AllGood(FullLeaf(), Good(2));
  }

  lemma SingleFits(k: nat, size: nat, len: nat)
    requires len == KeyBytes(k, size) <= 1000
    ensures Rule(2)(true, [E(k, size)])
  {
    EntryWeights(k, size, len);
    BytesOne(E(k, size), LeafWeight);
    assert AllGood([E(k, size)], Good(2));
  }

  lemma ListsFit()
    ensures forall i :: 0 <= i < |Lists()| ==> Rule(2)(true, Lists()[i])
  {
    SingleFits(0, 996, 1000);
    FullLeafFits();
    SingleFits(8, 6, 10);
    SingleFits(10, 6, 10);
    SingleFits(12, 6, 10);
    SingleFits(14, 6, 10);
  }

  /** Every length in the example is the length of the record of its key. */
  lemma LengthsAreReal(e: Cell, cs: seq<Record.Column>, types: seq<seq<Varint.Byte>>, bodies: seq<seq<Varint.Byte>>, h: nat,
                       r: seq<Varint.Byte>)
    requires e in Dividers() || exists i :: 0 <= i < |Lists()| && e in Lists()[i]
    requires Spells(e.key, cs) && Record.IsRecord(r, cs, types, bodies, h)
    ensures |r| == e.len
  {
    var k, size := RealKey(e);
    RecordLength(k, size, cs, types, bodies, h, r);
  }

  lemma RealKey(e: Cell) returns (k: nat, size: nat)
    requires e in Dividers() || exists i :: 0 <= i < |Lists()| && e in Lists()[i]
    ensures k < 128 && size <= 1000 && e == E(k, size)
  {
    if e in Dividers() {
      k, size := e.key[1].i, if e == E(1, 7) then 7 else 995;
    } else {
      var i :| 0 <= i < |Lists()| && e in Lists()[i];
      k, size := e.key[1].i, if i == 0 then 996 else if i > 1 then 6 else if e == E(6, 56) then 56 else 995;
    }
  }

  lemma OneNumbered(k: nat, size: nat)
    requires size > 0
    ensures Run([E(k, size)], k) && IsE(E(k, size), k)
  {
  }

  lemma FullLeafNumbered()
    ensures Run(FullLeaf(), 2)
  {
    OneNumbered(2, 995);
    OneNumbered(3, 995);
    OneNumbered(4, 995);
    OneNumbered(5, 995);
    OneNumbered(6, 56);
  }

  lemma LastNumbered(c: seq<Cell>, l: seq<seq<Cell>>, i: nat, k: nat, size: nat)
    requires |l| == |c| + 1 && i == |c| && size > 0 && l[i] == [E(k, size)]
    ensures Numbered(c[i..], l[i..], k)
  {
    OneNumbered(k, size);
    assert l[i..][0] == l[i] && |c[i..]| == 0;
  }

  lemma RightNumbered()
    ensures Numbered(Dividers()[2..], Lists()[2..], 8)
  {
    var c, l := Dividers(), Lists();
    LastNumbered(c, l, 5, 14, 6);
    Pair(c, l, 4, 12, 6, 995);
    Pair(c, l, 3, 10, 6, 995);
    Pair(c, l, 2, 8, 6, 995);
  }

  lemma ListsNumbered()
    ensures Numbered(Dividers(), Lists(), 0)
  {
    var c, l := Dividers(), Lists();
    RightNumbered();
    FullLeafNumbered();
    OneNumbered(7, 995);
    NumberedStep(c, l, 1, 2);
    Pair(c, l, 0, 0, 996, 7);
    assert c[0..] == c && l[0..] == l;
  }

  /** A leaf with one entry, and the divider after it. */
  lemma Pair(c: seq<Cell>, l: seq<seq<Cell>>, i: nat, k: nat, size: nat, size': nat)
    requires |l| == |c| + 1 && i < |c| && size > 0 && size' > 0 && l[i] == [E(k, size)] && c[i] == E(k + 1, size')
    requires Numbered(c[i + 1..], l[i + 1..], k + 2)
    ensures Numbered(c[i..], l[i..], k)
  {
    OneNumbered(k, size);
    OneNumbered(k + 1, size');
    NumberedStep(c, l, i, k);
  }

  lemma NumberedStep(c: seq<Cell>, l: seq<seq<Cell>>, i: nat, k: int)
    requires |l| == |c| + 1 && i < |c| && Run(l[i], k) && IsE(c[i], k + |l[i]|) && Numbered(c[i + 1..], l[i + 1..], k + |l[i]| + 1)
    ensures Numbered(c[i..], l[i..], k)
  {
    assert c[i..][1..] == c[i + 1..] && l[i..][1..] == l[i + 1..];
  }

  lemma {:induction false} SameKey(key: Key)
    ensures CompareKeys(key, key) == 0
    decreases |key|
  {
    KeysAntisymmetric(key, key);
  }

  /** Where the two entries are taken out: key 1 is the first divider, whose
      predecessor is alone on the first leaf; key 0 is that predecessor. */
  lemma ExampleMarks()
    ensures
      var t := Bush(Dividers(), Lists());
      && Marks(Where.Divider(Enter(Top, t, 0), t.kids[0], 0), t, KeyOf(1, 7))
      && Marks(InLeaf(Enter(Top, t, 0), t.kids[0], 0), t, KeyOf(0, 996))
  {
    var t := Bush(Dividers(), Lists());
    BushRep(Dividers(), Lists());
    EnterPlug(Top, t, 0, 1);
    LeafAt(Lists(), 3, 0);
    SameKey(KeyOf(1, 7));
    SameKey(KeyOf(0, 996));
  }

  lemma DividerTooLong()
    ensures
      var t := Bush(Dividers(), Lists());
      !DividerFits(Enter(Top, t, 0), E(0, 996))
  {
    RootFits();
    EntryWeights(0, 996, 1000);
    EntryWeights(1, 7, 10);
    BytesUpdate(Dividers(), 0, E(0, 996), InteriorWeight);
  }

  lemma RepairTooLong()
    ensures
      var t := Bush(Dividers(), Lists());
      !RepairFits(Enter(Top, t, 0), true, 2)
  {
    var c := Enter(Top, Bush(Dividers(), Lists()), 0);
    ExampleSibling();
    NoAbsorbing(c);
    RootFits();
    EntryWeights(1, 7, 10);
    EntryWeights(2, 995, 1000);
    BytesUpdate(Dividers(), 0, E(2, 995), InteriorWeight);
  }

  lemma ExampleSibling()
    ensures
      var c := Enter(Top, Bush(Dividers(), Lists()), 0);
      c.cells == Dividers() && |c.left| == 0 && |c.right| == 5 && Sibling(c) == TLeaf(4, FullLeaf())
  {
    LeafAt(Lists(), 3, 1);
  }

  lemma NoAbsorbing(c: Ctx<Cell>)
    requires c.Frame? && c.cells == Dividers() && |c.left| == 0 && |c.right| == 5 && Sibling(c) == TLeaf(4, FullLeaf())
    ensures !Absorbs(c, true, 2) && Edge(c) == E(2, 995) && Donor(c) == 0
  {
    FullLeafFits();
    EntryWeights(1, 7, 10);
  }

  /** The store with that index and nothing else. */
  method ExampleStore() returns (s: PageStore<Cell>)
    ensures fresh(s) && s.Valid()
    ensures
      var t := Bush(Dividers(), Lists());
      Wf(s.pages, s.used, t, 1, 2, multiset{})
  {
    BushLedger(Dividers(), Lists());
    RootFits();
    ListsFit();
    ListsNumbered();
    BushIsIndex(Dividers(), Lists(), 0);
    s := new PageStore.Holding(BushPages(Dividers(), Lists()), 8, 0, 0, [], NodeIds(Bush(Dividers(), Lists())));
  }

  lemma RefusedOutcome(r: Outcome)
    requires Foretold(r, Bush(Dividers(), Lists()), KeyOf(1, 7), 2)
    ensures r == Stuck(true)
  {
    var t := Bush(Dividers(), Lists());
    ExampleMarks();
    LeafAt(Lists(), 3, 0);
    DividerTooLong();
    var w := Where.Divider(Enter(Top, t, 0), t.kids[0], 0);
    assert Marks(w, t, KeyOf(1, 7));
  }

  lemma HalfwayOutcome(r: Outcome)
    requires Foretold(r, Bush(Dividers(), Lists()), KeyOf(0, 996), 2)
    ensures r == Stuck(false)
  {
    var t := Bush(Dividers(), Lists());
    ExampleMarks();
    LeafAt(Lists(), 3, 0);
    RepairTooLong();
    var w := InLeaf(Enter(Top, t, 0), t.kids[0], 0);
    assert Marks(w, t, KeyOf(0, 996));
  }

  /** Deleting a short divider whose predecessor is long is refused before any write. */
  method DeleteIsRefused() returns (r: Outcome)
    ensures r == Stuck(true)
  {
    var s := ExampleStore();
    var idx := new Index.IndexBTree.Open(s, 2, 2, Bush(Dividers(), Lists()), 1, multiset{});
    ghost var pos;
    r, pos := idx.Delete(KeyOf(1, 7));
    RefusedOutcome(r);
  }

  /** Deleting the last entry of a leaf beside a leaf that cannot take the divider,
      and whose first entry is too long to replace it, fails after two writes; the
      validator then rejects the index. */
  method DeleteFailsHalfway(links: map<PageId, PageId>) returns (r: Outcome, ok: bool)
    ensures r == Stuck(false) && !ok
  {
    var s := ExampleStore();
    var idx := new Index.IndexBTree.Open(s, 2, 2, Bush(Dividers(), Lists()), 1, multiset{});
    ghost var pos;
    r, pos := idx.Delete(KeyOf(0, 996));
    HalfwayOutcome(r);
    Validate.DamageIsDetected(s.pages, links, 2, 2, idx.tree, idx.height, Without(Flat(Bush(Dividers(), Lists())), pos));
    ghost var count;
    ok, count := Validate.ValidateIndex(s.pages, links, 2, 2);
  }

  // ---- The table tree ----

  function R(rowid: int, size: nat): Cell {
    Row(rowid, seq(size, i => 0), [])
  }

  /** A row too large to share a page with either neighbour cannot be inserted
      between them, though all three fit on pages of their own. */
  lemma MiddleRowIsRefused(a: Cell, x: Cell, b: Cell)
    requires TableTree.LeafWeight(a) + TableTree.LeafWeight(x) > LEAF_ROOM && TableTree.LeafWeight(x) + TableTree.LeafWeight(b) > LEAF_ROOM
    ensures !TableInsert.CanSplit([a, x, b])
  {
    var s := [a, x, b];
    forall k | 1 <= k < |s| ensures !TableInsert.FitsAt(s, k) {
      BytesTake(s, 0, TableTree.LeafWeight);
      BytesTake(s, 1, TableTree.LeafWeight);
      BytesTake(s, 2, TableTree.LeafWeight);
      BytesCut(s, k, TableTree.LeafWeight);
      assert s[..3] == s && s[..0] == [];
    }
  }

  function TwoRows(): seq<Cell> {
    [R(1, 2000), R(3, 2000)]
  }

  lemma RowWeights(rowid: int, size: nat)
    requires 0 <= rowid < 128 && 128 <= size <= 4061
    ensures TableTree.LeafWeight(R(rowid, size)) == size + 5 && TableTree.GoodRow(R(rowid, size))
  {
    assert TABLE_MAX_LOCAL == 4061;
  }

  lemma TwoRowsIsTable(m: map<PageId, Page<Cell>>)
    ensures TableTree.LeafFits(TwoRows()) && TableTree.Sorted(TwoRows()) && ChainIds(TwoRows()) == multiset{}
    ensures ChainsLinked(m, TwoRows())
    ensures 2 !in TableTree.Table(TwoRows())
  {
    var s := TwoRows();
    RowWeights(1, 2000);
    RowWeights(3, 2000);
    BytesTake(s, 0, TableTree.LeafWeight);
    BytesTake(s, 1, TableTree.LeafWeight);
    assert s[..2] == s && s[..0] == [];
    forall i, j ensures TableTree.Ascends(s, i, j) {}
    TableTree.TableHas(s, 2);
    assert s[1..] == [s[1]] && s[1..][1..] == [];
  }

  lemma TwoRowsRefuse(t: Tree<Cell>)
    requires t == TLeaf(2, TwoRows())
    ensures Tables.Refuses(t, R(2, 4000))
  {
    var a, x, b := R(1, 2000), R(2, 4000), R(3, 2000);
    RowWeights(1, 2000);
    RowWeights(2, 4000);
    RowWeights(3, 2000);
    MiddleRowIsRefused(a, x, b);
    var w := TableInsert.WithCell(t, 1, x);
    assert w == [a, x, b];
    TableInsert.WithCellFacts(t, 1, x);
    BytesTake(t.cells, 0, TableTree.LeafWeight);
    BytesTake(t.cells, 1, TableTree.LeafWeight);
    assert t.cells[..2] == t.cells && t.cells[..0] == [];
    assert TableOrder.LowerSlot(t, Top, 1, 2) by { assert t.cells[..1] == [a] && t.cells[1..] == [b]; }
    assert Tables.CrowdedAt(t, x, w, Top, t, 1);
    assert Tables.Crowded(t, x, w);
  }

  /** A table of two rows of 2000 bytes refuses a row of 4000 between them. */
  method InsertIsRefused() returns (r: Tables.InsertResult)
    ensures r == Tables.PageFull
  {
    ghost var t := TLeaf(2, TwoRows());
    ghost var none: seq<PageId> := [];
    TwoRowsIsTable(map[2 := LeafPage(TwoRows())]);
    forall x: PageId ensures Owners(multiset{2}, none, x) == if 2 <= x <= 2 then 1 else 0 {}
    var s := new PageStore.Holding(map[2 := LeafPage(TwoRows())], 2, 0, 0, [], multiset{2});
    var table := new Tables.TableBTree.Open(s, 2, t, 0, multiset{});
    TwoRowsRefuse(t);
    r := table.Insert(2, R(2, 4000).payload);
  }
}
