/** What an index b-tree is: pages of entries, and what must hold of them.

    Interior cells are entries too, so one strictly ascending in-order sequence
    says everything about order: cells ascending on each page, and each subtree
    strictly between the dividers around it. */
module IndexTree {
  import opened Basics
  import opened TreeCells
  import opened Trees
  import opened Split
  import opened Cascade
  import opened Descent
  import opened Keys
  import opened CellSizes

  type Entry = Cell

  function LeafWeight(e: Entry): nat {
    IndexCellLen(e.len) + 2
  }

  function InteriorWeight(e: Entry): nat {
    IndexCellLen(e.len) + 6
  }

  function Weight(leaf: bool): Entry -> nat {
    if leaf then LeafWeight else InteriorWeight
  }

  /** An entry of an index over `n - 1` columns: the rowid is the last of `n`. */
  ghost predicate GoodEntry(e: Entry, n: nat) {
    e.Entry? && |e.key| == n && e.len < TWO_64 && |e.chain| == ChainPages(INDEX_MAX_LOCAL, e.len)
  }

  ghost function Good(n: nat): Entry -> bool {
    (e: Entry) => GoodEntry(e, n)
  }

  ghost predicate PageFits(leaf: bool, cells: seq<Entry>, n: nat) {
    Bytes(cells, Weight(leaf)) <= Room(leaf) && AllGood(cells, Good(n))
  }

  /** Every page but an empty root: its cells fit, and there is at least one. */
  ghost function Rule(n: nat): PageRule<Entry> {
    (leaf: bool, cells: seq<Entry>) => |cells| >= 1 && PageFits(leaf, cells, n)
  }

  lemma RuleIsInteriorRule(n: nat)
    ensures InteriorRule(Rule(n), InteriorWeight, Good(n))
  {
    forall cells ensures RuleAt(cells, Rule(n), InteriorWeight, Good(n)) {}
    forall e ensures Light(e, InteriorWeight, Good(n)) {}
  }

  /** Only the root of an empty index may have no cells. */
  ghost predicate PagesOk(t: Tree<Entry>, n: nat) {
    AllPages(t, Rule(n)) || (t.TLeaf? && PageFits(true, t.cells, n))
  }

  ghost predicate Ascends(s: seq<Entry>, i: int, j: int) {
    0 <= i < j < |s| ==> CompareKeys(s[i].key, s[j].key) < 0
  }

  /** Strictly ascending keys. */
  ghost predicate Sorted(s: seq<Entry>) {
    forall i, j {:trigger Ascends(s, i, j)} :: Ascends(s, i, j)
  }

  ghost predicate HasArity(s: seq<Entry>, n: nat, i: int) {
    0 <= i < |s| ==> s[i].Entry? && |s[i].key| == n
  }

  ghost predicate SameArity(s: seq<Entry>, n: nat) {
    forall i {:trigger HasArity(s, n, i)} :: HasArity(s, n, i)
  }

  /** A well-formed index on the pages of a store that also owns `others`. */
  ghost predicate Wf(m: map<PageId, Page<Entry>>, used: multiset<PageId>, t: Tree<Entry>, h: nat, n: nat,
                     others: multiset<PageId>)
  {
    && Rep(m, t) && Shape(t, h) && PagesOk(t, n)
    && Sorted(Flat(t)) && SameArity(Flat(t), n)
    && used == NodeIds(t) + (ChainIds(Flat(t)) + others)
    && ChainsLinked(m, Flat(t))
  }

  // ---- Probes ----

  function Below(probe: Key): Entry -> bool {
    (e: Entry) => CompareKeys(probe, e.key) > 0
  }

  lemma ProbeIsMonotone(s: seq<Entry>, n: nat, probe: Key)
    requires Sorted(s) && SameArity(s, n)
    ensures Monotone(s, Below(probe))
  {
    forall i, j | 0 <= i < j < |s| && Below(probe)(s[j]) ensures Below(probe)(s[i]) {
      assert Ascends(s, i, j) && HasArity(s, n, i) && HasArity(s, n, j);
      ProbeMonotone(probe, s[i].key, s[j].key);
    }
  }

  /** No stored key equals this one. */
  ghost predicate Absent(s: seq<Entry>, key: Key) {
    forall i :: 0 <= i < |s| ==> CompareKeys(key, s[i].key) != 0
  }

  /** Inserting at the lower bound keeps the sequence strictly ascending exactly
      when the key was not there. */
  lemma SortedInsert(a: seq<Entry>, e: Entry, b: seq<Entry>)
    requires e.Entry? && Sorted(a + b) && SameArity(a + b, |e.key|)
    requires AllBelow(a, Below(e.key)) && NoneBelow(b, Below(e.key))
    ensures Sorted(a + [e] + b) <==> Absent(a + b, e.key)
    ensures SameArity(a + [e] + b, |e.key|)
  {
    var s, s' := a + b, a + [e] + b;
    forall i ensures HasArity(s', |e.key|, i) {
      if 0 <= i < |s'| && i != |a| {
        var k := if i < |a| then i else i - 1;
        assert s'[i] == s[k] && HasArity(s, |e.key|, k);
      }
    }
    if Absent(s, e.key) { NewStaysSorted(a, e, b); }
    if Sorted(s') { SortedWasAbsent(a, e, b); }
  }

  lemma NewStaysSorted(a: seq<Entry>, e: Entry, b: seq<Entry>)
    requires Sorted(a + b) && Absent(a + b, e.key) && AllBelow(a, Below(e.key)) && NoneBelow(b, Below(e.key))
    ensures Sorted(a + [e] + b)
  {
    var s, s' := a + b, a + [e] + b;
    forall i, j ensures Ascends(s', i, j) {
      if 0 <= i < j < |s'| {
        if i == |a| {
          assert s'[j] == s[j - 1] == b[j - |a| - 1];
        } else if j == |a| {
          KeysAntisymmetric(e.key, a[i].key);
        } else {
          var i', j' := if i < |a| then i else i - 1, if j < |a| then j else j - 1;
          assert s'[i] == s[i'] && s'[j] == s[j'] && Ascends(s, i', j');
        }
      }
    }
  }

  lemma SortedWasAbsent(a: seq<Entry>, e: Entry, b: seq<Entry>)
    requires Sorted(a + [e] + b)
    ensures Absent(a + b, e.key)
  {
    var s, s' := a + b, a + [e] + b;
    forall i | 0 <= i < |s| ensures CompareKeys(e.key, s[i].key) != 0 {
      KeysAntisymmetric(e.key, s[i].key);
      assert s'[|a|] == e;
      if i < |a| {
        assert s'[i] == s[i] && Ascends(s', i, |a|);
      } else {
        assert s'[i + 1] == s[i] && Ascends(s', |a|, i + 1);
      }
    }
  }

  /** A leaf in its context, ready to be rewritten. */
  ghost predicate Spot(m: map<PageId, Page<Entry>>, used: multiset<PageId>, c: Ctx<Entry>, leaf: Tree<Entry>, n: nat,
                       keep: multiset<PageId>)
  {
    LeafSpot(m, used, c, leaf, keep, Rule(n)) && PageFits(true, leaf.cells, n)
  }

  lemma SpotOf(m: map<PageId, Page<Entry>>, used: multiset<PageId>, t: Tree<Entry>, h: nat, n: nat, others: multiset<PageId>,
               path: seq<Step>, c: Ctx<Entry>, leaf: Tree<Entry>)
    requires Wf(m, used, t, h, n, others) && At(m, t, path, c, leaf, 0) && leaf.TLeaf?
    ensures Spot(m, used, c, leaf, n, ChainIds(Flat(t)) + others)
    ensures t.id == (if |path| == 0 then leaf.id else path[0].page)
  {
    FollowsDepth(path, c);
    PlugIds(c, leaf);
    PlugAll(c, leaf, Rule(n));
    PlugTop(c, leaf);
  }
}
