/** The index b-tree: a set of entries in key order, kept on pages. */
module Index {
  import opened Basics
  import opened TreeCells
  import opened Trees
  import opened Store
  import opened Descent
  import opened Keys
  import opened IndexTree
  import opened IndexInsert
  import opened IndexDelete
  import IndexSeek
  import Validator = Validate
  import opened Scan

  class IndexBTree {
    const store: PageStore<Entry>
    const root: PageId
    /** Indexed columns plus the rowid. */
    const arity: nat
    ghost var tree: Tree<Entry>
    ghost var height: nat
    /** Pages of the file that belong to other trees. */
    ghost var others: multiset<PageId>

    ghost predicate Valid()
      reads this, store
    {
      store.Valid() && tree.id == root && Wf(store.pages, store.used, tree, height, arity, others)
    }

    /** The index as a value: its entries, in key order. */
    ghost function Entries(): seq<Entry>
      reads this
    {
      Flat(tree)
    }

    /** A new index: one empty leaf, whose page number is the root for good. */
    constructor (s: PageStore<Entry>, n: nat)
      requires s.Valid()
      modifies s
      ensures Valid() && store == s && arity == n && Entries() == [] && others == old(s.used)
      ensures Agree(old(s.pages), s.pages, others)
    {
      ghost var before := s.used;
      var id := s.NewPage(LeafPage([]));
      store, root, arity := s, id, n;
      tree, height, others := TLeaf(id, []), 0, before;
    }

    /** An index that is already on the pages of the file. */
    constructor Open(s: PageStore<Entry>, page: PageId, n: nat, ghost t: Tree<Entry>, ghost h: nat, ghost rest: multiset<PageId>)
      requires s.Valid() && t.id == page && Wf(s.pages, s.used, t, h, n, rest)
      ensures Valid() && store == s && root == page && arity == n && tree == t && height == h && others == rest
    {
      store, root, arity := s, page, n;
      tree, height, others := t, h, rest;
    }

    /** Add an entry in its place. Never runs out of room, whatever the sizes. */
    method Insert(key: Key, len: nat) returns (ghost pos: nat, ghost e: Entry)
      requires Valid() && |key| == arity && len < TWO_64 && Absent(Entries(), key)
      modifies `tree, `height, store
      ensures Valid()
      ensures e.key == key && e.len == len && pos <= |old(Entries())|
      ensures Entries() == old(Entries())[..pos] + [e] + old(Entries())[pos..]
      ensures Agree(old(store.pages), store.pages, others)
    {
      ghost var t, h;
      pos, e, t, h := InsertKey(store, root, key, len, tree, height, arity, others);
      tree, height := t, h;
    }

    /** Remove the entry with exactly this key. How that ends can be told from the
        tree: the key marks at most one place, and `Forecast` says what the page
        space allows there. A removal that fails before the first write changes
        nothing; one that fails later has spoilt the order of the entries. */
    method Delete(key: Key) returns (r: Outcome, ghost pos: nat)
      requires Valid() && |key| == arity
      modifies `tree, `height, store
      ensures r.Missing? <==> Absent(old(Entries()), key)
      ensures r.Missing? || r == Stuck(true) ==>
                Valid() && tree == old(tree) && height == old(height) && store.Now() == old(store.Now()) && store.used == old(store.used)
      ensures !r.Missing? ==> exists w :: Marks(w, old(tree), key)
      ensures Foretold(r, old(tree), key, root)
      ensures r.Gone? ==> Valid() && Dropped(old(Entries()), key, pos, Entries()) && Agree(old(store.pages), store.pages, others)
      ensures r == Stuck(false) ==>
                && store.Valid() && tree.id == root && Damaged(old(store.pages), store.pages, store.used, old(tree), pos, key, tree, height, arity, others)
    {
      r, pos, tree, height := DeleteForetold(store, root, key, tree, height, arity, others);
    }

    /** Every entry in key order, interior entries included. */
    method Scan() returns (out: seq<Entry>)
      requires Valid()
      ensures out == Entries()
      ensures forall i, j :: 0 <= i < j < |out| ==> KeyPrecedes(out[i].key, out[j].key) && LeadAscends(out[i].key, out[j].key)
    {
      out := ScanAll(store, root, tree, height);
      InKeyOrder(out);
    }

    method ScanReverse() returns (out: seq<Entry>)
      requires Valid()
      ensures out == Reversed(Entries())
      ensures forall i, j :: 0 <= i < j < |out| ==> KeyPrecedes(out[j].key, out[i].key) && LeadAscends(out[j].key, out[i].key)
    {
      out := ScanAllBackward(store, root, tree, height);
      InReverseOrder(Entries());
    }

    /** The rowids of the entries whose leading columns equal the probe. */
    method SeekEq(probe: Key) returns (rowids: seq<Value>, ghost at: seq<nat>)
      requires Valid()
      ensures rowids == IndexSeek.Rowids(IndexSeek.Select(Entries(), IndexSeek.Matches(probe)))
      ensures IndexSeek.Answers(rowids, at, Entries())
      ensures forall p :: p in at <==> 0 <= p < |Entries()| && KeyMatches(probe, Entries()[p].key)
    {
      rowids := IndexSeek.SeekEq(store, root, probe, tree, height, arity);
      at := IndexSeek.MatchPlaces(Entries(), probe);
    }

    /** The rowids of the entries within the bounds; no bound means unbounded. */
    method SeekRange(low: Option<Key>, high: Option<Key>, lowInclusive: bool, highInclusive: bool)
      returns (rowids: seq<Value>, ghost at: seq<nat>)
      requires Valid()
      ensures IndexSeek.Answers(rowids, at, Entries())
      ensures forall p :: p in at <==> 0 <= p < |Entries()| && IndexSeek.Within(low, high, lowInclusive, highInclusive, Entries()[p].key)
    {
      rowids := IndexSeek.SeekRange(store, root, low, high, lowInclusive, highInclusive, tree, height, arity);
      at := IndexSeek.RangePlaces(Entries(), low, high, lowInclusive, highInclusive);
    }

    /** Validation never finds fault with an index that these operations built. */
    method Validate(links: map<PageId, PageId>) returns (ok: bool, count: nat)
      requires Valid() && Validator.Linked(store.pages, links)
      ensures ok && count == |Entries()|
    {
      Validator.IndexPasses(store.pages, links, store.used, store.free, store.pageCount, tree, height, arity, others);
      ok, count := Validator.ValidateIndex(store.pages, links, root, arity);
    }

    /** The rowid of the first entry with these values, of which none is NULL. */
    method FindConflict(values: Key) returns (r: Option<Value>, ghost p: nat)
      requires Valid()
      ensures r.None? <==> Null in values || IndexSeek.NoneAt(Entries(), values)
      ensures r.Some? ==> IndexSeek.FirstAt(Entries(), values, p)
      ensures r.Some? && |Entries()[p].key| > 0 ==> r.value == Entries()[p].key[|Entries()[p].key| - 1]
    {
      r, p := IndexSeek.FindConflict(store, root, values, tree, height, arity);
    }
  }

  /** Leading integers do not descend. */
  ghost predicate LeadAscends(a: Key, b: Key) {
    |a| > 0 && |b| > 0 && a[0].Int? && b[0].Int? ==> a[0].i <= b[0].i
  }

  lemma InKeyOrder(s: seq<Entry>)
    requires Sorted(s)
    ensures forall i, j :: 0 <= i < j < |s| ==> KeyPrecedes(s[i].key, s[j].key) && LeadAscends(s[i].key, s[j].key)
  {
    forall i, j | 0 <= i < j < |s| ensures KeyPrecedes(s[i].key, s[j].key) && LeadAscends(s[i].key, s[j].key) {
      assert Ascends(s, i, j);
      KeysCompare(s[i].key, s[j].key);
      var k: nat :| KeysPartAt(s[i].key, s[j].key, k);
      assert k > 0 ==> ValueMatches(s[i].key[0], s[j].key[0]);
    }
  }

  lemma InReverseOrder(s: seq<Entry>)
    requires Sorted(s)
    ensures
      var out := Reversed(s);
      forall i, j :: 0 <= i < j < |out| ==> KeyPrecedes(out[j].key, out[i].key) && LeadAscends(out[j].key, out[i].key)
  {
    InKeyOrder(s);
    hide Sorted, KeyPrecedes, LeadAscends;
    var out := Reversed(s);
    forall i, j | 0 <= i < j < |out| ensures KeyPrecedes(out[j].key, out[i].key) && LeadAscends(out[j].key, out[i].key) {
      ReversedAt(s, i);
      ReversedAt(s, j);
    }
  }

  /** An entry that was put in is found by its values. */
  method InsertAndFind(t: IndexBTree, values: Key, rowid: int, len: nat) returns (rowids: seq<Value>)
    requires t.Valid() && |values| + 1 == t.arity && len < TWO_64 && Absent(t.Entries(), values + [Int(rowid)])
    modifies t, t.store
    ensures t.Valid() && Int(rowid) in rowids
  {
    ghost var pos, e := t.Insert(values + [Int(rowid)], len);
    ghost var at;
    rowids, at := t.SeekEq(values);
    assert t.Entries()[pos] == e && KeyMatches(values, e.key);
    assert pos in at;
    ghost var i :| 0 <= i < |at| && at[i] == pos;
    assert rowids[i] == Int(rowid);
  }

  /** Find the leaf, put the entry there, and see that the order is kept. */
  method InsertKey(s: PageStore<Entry>, root: PageId, key: Key, len: nat,
      ghost whole: Tree<Entry>, ghost height: nat, ghost n: nat, ghost others: multiset<PageId>)
    returns (ghost pos: nat, ghost e: Entry, ghost t: Tree<Entry>, ghost h: nat)
    requires s.Valid() && Wf(s.pages, s.used, whole, height, n, others) && whole.id == root
    requires |key| == n && len < TWO_64 && Absent(Flat(whole), key)
    modifies s
    ensures s.Valid() && Wf(s.pages, s.used, t, h, n, others) && t.id == root && Agree(old(s.pages), s.pages, others)
    ensures e.key == key && e.len == len && pos <= |Flat(whole)| && Flat(t) == Flat(whole)[..pos] + [e] + Flat(whole)[pos..]
  {
    ProbeIsMonotone(Flat(whole), n, key);
    var path, page, slot;
    ghost var c, leaf;
    path, page, slot, c, leaf := FindLeaf(s, root, Below(key), whole, height);
    SpotOf(s.pages, s.used, whole, height, n, others, path, c, leaf);
    e, t, h := InsertEntry(s, path, page, slot, key, len, c, leaf, n, ChainIds(Flat(whole)) + others);
    pos := InsertDone(old(s.pages), s.pages, s.used, whole, c, leaf, slot, e, t, h, n, others);
  }

  /** Find the entry, take it out where it is, and say where that was. */
  method DeleteKey(s: PageStore<Entry>, root: PageId, key: Key,
      ghost whole: Tree<Entry>, ghost height: nat, ghost n: nat, ghost others: multiset<PageId>)
    returns (r: Outcome, ghost pos: nat, ghost w: Where, ghost t': Tree<Entry>, ghost h': nat)
    requires s.Valid() && Wf(s.pages, s.used, whole, height, n, others) && whole.id == root && |key| == n
    modifies s
    ensures r.Missing? <==> Absent(Flat(whole), key)
    ensures s.Valid()
    ensures r.Missing? || r == Stuck(true) ==> s.Now() == old(s.Now()) && s.used == old(s.used) && t' == whole && h' == height
    ensures !r.Missing? ==> Marks(w, whole, key) && r == Forecast(w, root)
    ensures r.Gone? ==> Erased(old(s.pages), s.pages, s.used, whole, pos, key, t', h', n, others)
    ensures r == Stuck(false) ==> Damaged(old(s.pages), s.pages, s.used, whole, pos, key, t', h', n, others)
  {
    var place;
    ghost var c, t, h;
    place, c, t, h := Locate(s, root, key, whole, height, n);
    pos, w, t', h' := 0, InLeaf(c, t, 0), whole, height;
    if !place.found {
      r := Missing;
      return;
    }
    if s.pages[place.page].LeafPage? {
      r, pos, w, t', h' := DeleteFromLeaf(s, root, key, place, whole, height, n, others, c, t);
    } else {
      r, pos, w, t', h' := DeleteDivider(s, root, key, place, whole, height, n, others, c, t, h);
    }
  }

  /** As `DeleteKey`, but the outcome is stated of every place the entry could be at. */
  method DeleteForetold(s: PageStore<Entry>, root: PageId, key: Key,
      ghost whole: Tree<Entry>, ghost height: nat, ghost n: nat, ghost others: multiset<PageId>)
    returns (r: Outcome, ghost pos: nat, ghost t': Tree<Entry>, ghost h': nat)
    requires s.Valid() && Wf(s.pages, s.used, whole, height, n, others) && whole.id == root && |key| == n
    modifies s
    ensures s.Valid() && (r.Missing? <==> Absent(Flat(whole), key))
    ensures r.Missing? || r == Stuck(true) ==> s.Now() == old(s.Now()) && s.used == old(s.used) && t' == whole && h' == height
    ensures (!r.Missing? ==> exists w :: Marks(w, whole, key)) && Foretold(r, whole, key, root)
    ensures r.Gone? ==> Erased(old(s.pages), s.pages, s.used, whole, pos, key, t', h', n, others)
    ensures r == Stuck(false) ==> Damaged(old(s.pages), s.pages, s.used, whole, pos, key, t', h', n, others)
  {
    hide PageStore.Valid, Erased, Damaged, Marks, Foretold;
    ghost var w;
    r, pos, w, t', h' := DeleteKey(s, root, key, whole, height, n, others);
    OnlyMarked(r, w, whole, height, n, key, root);
  }

  /** One place marked is the only one, and none is if the key is absent. */
  lemma OnlyMarked(r: Outcome, w: Where, t: Tree<Entry>, h: nat, n: nat, key: Key, root: PageId)
    requires Shape(t, h) && Sorted(Flat(t)) && SameArity(Flat(t), n) && |key| == n
    requires if Absent(Flat(t), key) then r.Missing? else Marks(w, t, key) && r == Forecast(w, root)
    ensures !r.Missing? ==> exists w' :: Marks(w', t, key)
    ensures Foretold(r, t, key, root)
  {
    forall w' | Marks(w', t, key) ensures r == Forecast(w', root) {
      MarkedPosition(w', t, h, key);
      MarksUnique(w, w', t, h, n, key);
    }
  }

  /** The new sequence is the old one with the entry at its lower bound. */
  lemma InsertSequence(m: map<PageId, Page<Entry>>, t: Tree<Entry>, c: Ctx<Entry>, leaf: Tree<Entry>, slot: nat, e: Entry,
                       flat: seq<Entry>)
    returns (pos: nat)
    requires e.Entry?
    requires Sorted(Flat(t)) && SameArity(Flat(t), |e.key|) && Absent(Flat(t), e.key)
    requires Plug(c, leaf) == t && leaf.TLeaf? && CtxShape(c, 0) && slot <= |leaf.cells|
    requires Straddles(c, Below(e.key)) && AllBelow(leaf.cells[..slot], Below(e.key)) && NoneBelow(leaf.cells[slot..], Below(e.key))
    requires flat == FlatLeft(c) + WithCell(leaf, slot, e) + FlatRight(c)
    ensures pos <= |Flat(t)| && flat == Flat(t)[..pos] + [e] + Flat(t)[pos..]
    ensures Sorted(flat) && SameArity(flat, |e.key|)
    ensures ChainIds(flat) == ChainIds(Flat(t)) + Tally(e.chain)
    ensures ChainsLinked(m, flat) <==> ChainsLinked(m, Flat(t)) && OverflowLinks(m, e.chain)
  {
    PlugFlat(c, leaf, 0);
    var a, b := FlatLeft(c) + leaf.cells[..slot], leaf.cells[slot..] + FlatRight(c);
    pos := |a|;
    SpliceAround(FlatLeft(c), leaf.cells, slot, e, FlatRight(c));
    assert Flat(t)[..pos] == a && Flat(t)[pos..] == b;
    assert AllBelow(a, Below(e.key)) && NoneBelow(b, Below(e.key));
    SortedInsert(a, e, b);
    ChainInsert(m, a, e, b);
  }

  lemma InsertDone(m: map<PageId, Page<Entry>>, m': map<PageId, Page<Entry>>, used': multiset<PageId>,
                   t: Tree<Entry>, c: Ctx<Entry>, leaf: Tree<Entry>, slot: nat, e: Entry, t': Tree<Entry>, h': nat,
                   n: nat, others: multiset<PageId>)
    returns (pos: nat)
    requires Sorted(Flat(t)) && SameArity(Flat(t), n) && ChainsLinked(m, Flat(t))
    requires Plug(c, leaf) == t && leaf.TLeaf? && CtxShape(c, 0) && slot <= |leaf.cells|
    requires Straddles(c, Below(e.key)) && AllBelow(leaf.cells[..slot], Below(e.key)) && NoneBelow(leaf.cells[slot..], Below(e.key))
    requires e.Entry? && |e.key| == n && Absent(Flat(t), e.key)
    requires Inserted(m', used', t', h', n, ChainIds(Flat(t)) + others + Tally(e.chain))
    requires Flat(t') == FlatLeft(c) + WithCell(leaf, slot, e) + FlatRight(c)
    requires Agree(m, m', ChainIds(Flat(t)) + others) && OverflowLinks(m', e.chain)
    ensures pos <= |Flat(t)| && Flat(t') == Flat(t)[..pos] + [e] + Flat(t)[pos..]
    ensures Wf(m', used', t', h', n, others) && Agree(m, m', others)
  {
    AgreeSub(m, m', ChainIds(Flat(t)) + others, ChainIds(Flat(t)));
    AgreeSub(m, m', ChainIds(Flat(t)) + others, others);
    ChainsFrame(m, m', Flat(t));
    pos := InsertSequence(m', t, c, leaf, slot, e, Flat(t'));
    Shuffle(NodeIds(t'), ChainIds(Flat(t)), others, Tally(e.chain));
  }

  lemma SpliceAround<X>(l: seq<X>, x: seq<X>, i: nat, e: X, r: seq<X>)
    requires i <= |x|
    ensures l + x + r == (l + x[..i]) + (x[i..] + r)
    ensures l + (x[..i] + [e] + x[i..]) + r == (l + x[..i]) + [e] + (x[i..] + r)
  {
    assert x == x[..i] + x[i..];
  }
}
