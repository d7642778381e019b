/** One file with any number of tables and indexes in it. Each operation works on
    one tree through a handle made for it; what the others own it never touches.
    So every page of the file, apart from the header, is at all times a page of
    one tree, an overflow page of one cell, or a free page. */
module Database {
  import opened Basics
  import opened Trees
  import opened Store
  import opened Keys
  import opened TreeCells
  import opened CellSizes
  import IndexTree
  import TableTree
  import IndexDelete
  import IndexSeek
  import Index
  import Tables

  /** What the pages of a tree spell, and how high it is. */
  datatype Grown = Grown(tree: Tree<Cell>, height: nat)

  ghost predicate WellFormed(m: map<PageId, Page<Cell>>, used: multiset<PageId>, r: Root, g: Grown, others: multiset<PageId>) {
    && g.tree.id == r.page
    && match r.kind
       case TableKind => TableTree.Wf(m, used, g.tree, g.height, others)
       case IndexKind(n) => IndexTree.Wf(m, used, g.tree, g.height, n, others)
  }

  ghost function PagesOf(g: Grown): multiset<PageId> {
    NodeIds(g.tree) + ChainIds(Flat(g.tree))
  }

  /** The tree would be well-formed if it were alone in the file. */
  ghost predicate Sits(m: map<PageId, Page<Cell>>, r: Root, g: Grown) {
    WellFormed(m, PagesOf(g), r, g, multiset{})
  }

  ghost predicate SitsAt(m: map<PageId, Page<Cell>>, rs: seq<Root>, gs: seq<Grown>, i: int) {
    0 <= i < |rs| && i < |gs| ==> Sits(m, rs[i], gs[i])
  }

  ghost predicate AllSit(m: map<PageId, Page<Cell>>, rs: seq<Root>, gs: seq<Grown>) {
    |rs| == |gs| && forall i {:trigger SitsAt(m, rs, gs, i)} :: SitsAt(m, rs, gs, i)
  }

  ghost function Owned(gs: seq<Grown>): multiset<PageId> {
    if |gs| == 0 then multiset{} else PagesOf(gs[0]) + Owned(gs[1..])
  }

  /** What the i-th tree must leave alone. */
  ghost function OthersOf(gs: seq<Grown>, i: nat): multiset<PageId>
    requires i < |gs|
  {
    Owned(gs[..i]) + Owned(gs[i + 1..])
  }

  // ---- Lists of trees ----

  lemma {:induction false} OwnedAppend(a: seq<Grown>, b: seq<Grown>)
    ensures Owned(a + b) == Owned(a) + Owned(b)
    decreases |a|
  {
    if |a| == 0 {
      assert a + b == b;
    } else {
      assert (a + b)[1..] == a[1..] + b;
      OwnedAppend(a[1..], b);
    }
  }

  lemma OwnedParts(a: seq<Grown>, g: Grown, b: seq<Grown>)
    ensures Owned(a + [g] + b) == Owned(a) + PagesOf(g) + Owned(b)
  {
    OwnedAppend(a + [g], b);
    OwnedAppend(a, [g]);
    assert Owned([g]) == PagesOf(g) by { assert [g][1..] == []; }
  }

  lemma OwnedMore(gs: seq<Grown>, g: Grown)
    ensures Owned(gs + [g]) == NodeIds(g.tree) + (ChainIds(Flat(g.tree)) + Owned(gs))
  {
    EmptySides(gs + [g]);
    OwnedParts(gs, g, []);
    var n, c := NodeIds(g.tree), ChainIds(Flat(g.tree));
    Regrouped(Owned(gs + [g]), Owned(gs), n, c, multiset{});
  }

  lemma Around<T>(s: seq<T>, i: nat)
    requires i < |s|
    ensures s == s[..i] + [s[i]] + s[i + 1..]
  {
  }

  lemma Unchanged<T>(s: seq<T>, i: nat)
    requires i < |s|
    ensures s[i := s[i]] == s
  {
  }

  lemma OwnedAt(gs: seq<Grown>, i: nat)
    requires i < |gs|
    ensures Owned(gs) == NodeIds(gs[i].tree) + (ChainIds(Flat(gs[i].tree)) + OthersOf(gs, i))
  {
    Around(gs, i);
    OwnedParts(gs[..i], gs[i], gs[i + 1..]);
    var n, c := NodeIds(gs[i].tree), ChainIds(Flat(gs[i].tree));
    Regrouped(Owned(gs), Owned(gs[..i]), n, c, Owned(gs[i + 1..]));
  }

  lemma Regrouped(all: multiset<PageId>, a: multiset<PageId>, n: multiset<PageId>, c: multiset<PageId>, b: multiset<PageId>)
    requires all == a + (n + c) + b
    ensures all == n + (c + (a + b))
  {
  }

  // ---- One tree among others ----

  lemma WellFormedIff(m: map<PageId, Page<Cell>>, used: multiset<PageId>, r: Root, g: Grown, others: multiset<PageId>)
    ensures WellFormed(m, used, r, g, others) <==>
              Sits(m, r, g) && used == NodeIds(g.tree) + (ChainIds(Flat(g.tree)) + others)
  {
  }

  /** A tree survives whatever leaves its own pages alone. */
  lemma SitsFrame(m: map<PageId, Page<Cell>>, m': map<PageId, Page<Cell>>, r: Root, g: Grown)
    requires Sits(m, r, g) && Agree(m, m', PagesOf(g))
    ensures Sits(m', r, g)
  {
    AgreeSub(m, m', PagesOf(g), NodeIds(g.tree));
    AgreeSub(m, m', PagesOf(g), ChainIds(Flat(g.tree)));
    RepFrame(m, m', g.tree);
    ChainsFrame(m, m', Flat(g.tree));
  }

  lemma {:induction false} OwnedIncludes(gs: seq<Grown>, i: nat)
    requires i < |gs|
    ensures PagesOf(gs[i]) <= Owned(gs)
    decreases |gs|
  {
    if i > 0 { OwnedIncludes(gs[1..], i - 1); }
  }

  /** All trees of the file, and nothing else. */
  ghost predicate Filed(m: map<PageId, Page<Cell>>, used: multiset<PageId>, rs: seq<Root>, gs: seq<Grown>) {
    AllSit(m, rs, gs) && used == Owned(gs)
  }

  /** Each tree of the file is well-formed among the others. */
  lemma Among(m: map<PageId, Page<Cell>>, used: multiset<PageId>, rs: seq<Root>, gs: seq<Grown>, i: nat)
    requires Filed(m, used, rs, gs) && i < |gs|
    ensures WellFormed(m, used, rs[i], gs[i], OthersOf(gs, i))
  {
    assert SitsAt(m, rs, gs, i);
    OwnedAt(gs, i);
    WellFormedIff(m, used, rs[i], gs[i], OthersOf(gs, i));
  }

  /** Every tree but the i-th is in its place. */
  ghost predicate OthersSit(m: map<PageId, Page<Cell>>, rs: seq<Root>, gs: seq<Grown>, i: nat) {
    |rs| == |gs| && forall j {:trigger SitsAt(m, rs, gs, j)} :: j != i ==> SitsAt(m, rs, gs, j)
  }

  lemma OthersStay(m: map<PageId, Page<Cell>>, m': map<PageId, Page<Cell>>, rs: seq<Root>, gs: seq<Grown>, i: nat, g: Grown)
    requires AllSit(m, rs, gs) && i < |gs| && Agree(m, m', OthersOf(gs, i))
    ensures OthersSit(m', rs, gs[i := g], i)
  {
    var gs' := gs[i := g];
    forall j ensures j != i ==> SitsAt(m', rs, gs', j) {
      if 0 <= j < |gs| && j != i {
        assert SitsAt(m, rs, gs, j);
        NotMine(gs, i, j);
        AgreeSub(m, m', OthersOf(gs, i), PagesOf(gs[j]));
        SitsFrame(m, m', rs[j], gs[j]);
      }
    }
  }

  /** An operation on one tree leaves a file of the same trees but that one. */
  lemma Replaced(m: map<PageId, Page<Cell>>, m': map<PageId, Page<Cell>>, used: multiset<PageId>, used': multiset<PageId>,
                 rs: seq<Root>, gs: seq<Grown>, i: nat, g: Grown)
    requires Filed(m, used, rs, gs) && i < |gs|
    requires WellFormed(m', used', rs[i], g, OthersOf(gs, i)) && Agree(m, m', OthersOf(gs, i))
    ensures Filed(m', used', rs, gs[i := g])
  {
    var gs' := gs[i := g];
    assert gs'[..i] == gs[..i] && gs'[i + 1..] == gs[i + 1..];
    WellFormedIff(m', used', rs[i], g, OthersOf(gs, i));
    OwnedAt(gs', i);
    OthersStay(m, m', rs, gs, i, g);
    forall j ensures SitsAt(m', rs, gs', j) {}
  }

  lemma NotMine(gs: seq<Grown>, i: nat, j: nat)
    requires i < |gs| && j < |gs| && i != j
    ensures PagesOf(gs[j]) <= OthersOf(gs, i)
  {
    if j < i { OwnedIncludes(gs[..i], j); } else { OwnedIncludes(gs[i + 1..], j - i - 1); }
  }

  /** A deletion that failed halfway has spoilt one index and touched nothing else:
      every other tree is in its place, and each page still has one owner. */
  ghost predicate Wrecked(m: map<PageId, Page<Cell>>, m': map<PageId, Page<Cell>>, used': multiset<PageId>, rs: seq<Root>, gs: seq<Grown>,
                          gs': seq<Grown>, i: nat, key: Key, pos: nat)
  {
    && |gs| == |gs'| && i < |gs| && gs' == gs[i := gs'[i]] && OthersSit(m', rs, gs', i)
    && IndexDelete.Damaged(m, m', used', gs[i].tree, pos, key, gs'[i].tree, gs'[i].height, |key|, OthersOf(gs, i))
  }

  /** The same for a deletion, which may fail halfway. */
  lemma Adopted(r: IndexDelete.Outcome, m: map<PageId, Page<Cell>>, m': map<PageId, Page<Cell>>, used: multiset<PageId>, used': multiset<PageId>,
                rs: seq<Root>, gs: seq<Grown>, i: nat, g: Grown, key: Key, pos: nat)
    returns (gs': seq<Grown>)
    requires Filed(m, used, rs, gs) && i < |gs|
    requires r != IndexDelete.Stuck(false) ==> WellFormed(m', used', rs[i], g, OthersOf(gs, i)) && Agree(m, m', OthersOf(gs, i))
    requires r == IndexDelete.Stuck(false) ==>
               IndexDelete.Damaged(m, m', used', gs[i].tree, pos, key, g.tree, g.height, |key|, OthersOf(gs, i))
    ensures gs' == gs[i := g] && (g == gs[i] ==> gs' == gs)
    ensures if r == IndexDelete.Stuck(false) then Wrecked(m, m', used', rs, gs, gs', i, key, pos) else Filed(m', used', rs, gs')
  {
    gs' := gs[i := g];
    if r != IndexDelete.Stuck(false) {
      Replaced(m, m', used, used', rs, gs, i, g);
    } else {
      AgreeSub(m, m', ChainIds(IndexDelete.Without(Flat(gs[i].tree), pos)) + OthersOf(gs, i), OthersOf(gs, i));
      OthersStay(m, m', rs, gs, i, g);
    }
  }

  /** A new tree on pages that nobody owned joins the file. */
  lemma Joined(m: map<PageId, Page<Cell>>, m': map<PageId, Page<Cell>>, used: multiset<PageId>, used': multiset<PageId>,
               rs: seq<Root>, gs: seq<Grown>, r: Root, g: Grown)
    requires Filed(m, used, rs, gs) && WellFormed(m', used', r, g, used) && Agree(m, m', used)
    ensures Filed(m', used', rs + [r], gs + [g])
  {
    WellFormedIff(m', used', r, g, used);
    OwnedMore(gs, g);
    forall j ensures SitsAt(m', rs + [r], gs + [g], j) {
      if 0 <= j < |gs| {
        assert SitsAt(m, rs, gs, j);
        OwnedIncludes(gs, j);
        AgreeSub(m, m', used, PagesOf(gs[j]));
        SitsFrame(m, m', rs[j], gs[j]);
      }
    }
  }

  // ---- The partition of the file ----

  ghost function TreePages(gs: seq<Grown>): multiset<PageId> {
    if |gs| == 0 then multiset{} else NodeIds(gs[0].tree) + TreePages(gs[1..])
  }

  ghost function OverflowPages(gs: seq<Grown>): multiset<PageId> {
    if |gs| == 0 then multiset{} else ChainIds(Flat(gs[0].tree)) + OverflowPages(gs[1..])
  }

  lemma {:induction false} OwnedKinds(gs: seq<Grown>)
    ensures Owned(gs) == TreePages(gs) + OverflowPages(gs)
    decreases |gs|
  {
    if |gs| > 0 { OwnedKinds(gs[1..]); }
  }

  /** The header page is nobody's; every other page of the file is once a page of a
      tree, or once an overflow page, or once free; no other page is any of these. */
  ghost predicate Partitioned(gs: seq<Grown>, free: seq<PageId>, n: nat) {
    forall x: PageId {:trigger TreePages(gs)[x]} ::
      TreePages(gs)[x] + OverflowPages(gs)[x] + Tally(free)[x] == if 2 <= x <= n then 1 else 0
  }

  /** The pages of a snapshot are partitioned. */
  ghost predicate InOrder(a: Snapshot) {
    Partitioned(a.trees, a.book.free, a.book.count)
  }

  lemma FiledIsPartitioned(m: map<PageId, Page<Cell>>, used: multiset<PageId>, rs: seq<Root>, gs: seq<Grown>, free: seq<PageId>, n: nat)
    requires Filed(m, used, rs, gs) && Ledger(used, free, n)
    ensures Partitioned(gs, free, n)
  {
    OwnedKinds(gs);
    ApartFromHeader(used, TreePages(gs), OverflowPages(gs), free, n);
  }

  lemma ApartFromHeader(used: multiset<PageId>, t: multiset<PageId>, c: multiset<PageId>, free: seq<PageId>, n: nat)
    requires used == t + c && Ledger(used, free, n)
    ensures forall x: PageId {:trigger t[x]} :: t[x] + c[x] + Tally(free)[x] == if 2 <= x <= n then 1 else 0
  {
    forall x: PageId ensures t[x] + c[x] + Tally(free)[x] == if 2 <= x <= n then 1 else 0 {
      assert Owners(used, free, x) == if 2 <= x <= n then 1 else 0;
    }
  }

  // ---- One operation on one tree, through a handle ----

  method InsertInTable(s: PageStore<Cell>, r: Root, rowid: int, payload: Payload, ghost g: Grown, ghost others: multiset<PageId>)
    returns (res: Tables.InsertResult, ghost g': Grown)
    requires s.Valid() && WellFormed(s.pages, s.used, r, g, others) && r.kind.TableKind? && InRowidRange(rowid) && |payload| < TWO_64
    modifies s
    ensures s.Valid() && WellFormed(s.pages, s.used, r, g', others) && Agree(old(s.pages), s.pages, others)
    ensures res.DuplicateRowid? <==> rowid in TableTree.Table(Flat(g.tree))
    ensures res.PageFull? <==> rowid !in TableTree.Table(Flat(g.tree)) && Tables.Refuses(g.tree, Row(rowid, payload, []))
    ensures res.Done? ==> TableTree.Table(Flat(g'.tree)) == TableTree.Table(Flat(g.tree))[rowid := payload]
    ensures !res.Done? ==> g' == g && s.Now() == old(s.Now())
  {
    var t := new Tables.TableBTree.Open(s, r.page, g.tree, g.height, others);
    res := t.Insert(rowid, payload);
    g' := Grown(t.tree, t.height);
  }

  method DeleteFromTable(s: PageStore<Cell>, r: Root, rowid: int, ghost g: Grown, ghost others: multiset<PageId>)
    returns (found: bool, ghost g': Grown)
    requires s.Valid() && WellFormed(s.pages, s.used, r, g, others) && r.kind.TableKind?
    modifies s
    ensures s.Valid() && WellFormed(s.pages, s.used, r, g', others) && Agree(old(s.pages), s.pages, others)
    ensures found <==> rowid in TableTree.Table(Flat(g.tree))
    ensures !found ==> g' == g && s.Now() == old(s.Now())
    ensures TableTree.Table(Flat(g'.tree)) == TableTree.Table(Flat(g.tree)) - {rowid}
  {
    var t := new Tables.TableBTree.Open(s, r.page, g.tree, g.height, others);
    found := t.Delete(rowid);
    g' := Grown(t.tree, t.height);
  }

  method InsertInIndex(s: PageStore<Cell>, r: Root, key: Key, len: nat, ghost g: Grown, ghost others: multiset<PageId>)
    returns (ghost pos: nat, ghost e: Cell, ghost g': Grown)
    requires s.Valid() && WellFormed(s.pages, s.used, r, g, others) && r.kind == IndexKind(|key|) && len < TWO_64
    requires IndexTree.Absent(Flat(g.tree), key)
    modifies s
    ensures s.Valid() && WellFormed(s.pages, s.used, r, g', others) && Agree(old(s.pages), s.pages, others)
    ensures e.key == key && e.len == len && pos <= |Flat(g.tree)|
    ensures Flat(g'.tree) == Flat(g.tree)[..pos] + [e] + Flat(g.tree)[pos..]
  {
    var t := new Index.IndexBTree.Open(s, r.page, r.kind.arity, g.tree, g.height, others);
    pos, e := t.Insert(key, len);
    g' := Grown(t.tree, t.height);
  }

  method DeleteFromIndex(s: PageStore<Cell>, r: Root, key: Key, ghost g: Grown, ghost others: multiset<PageId>)
    returns (res: IndexDelete.Outcome, ghost pos: nat, ghost g': Grown)
    requires s.Valid() && WellFormed(s.pages, s.used, r, g, others) && r.kind == IndexKind(|key|)
    modifies s
    ensures s.Valid()
    ensures res != IndexDelete.Stuck(false) ==> WellFormed(s.pages, s.used, r, g', others) && Agree(old(s.pages), s.pages, others)
    ensures res == IndexDelete.Stuck(false) ==>
              IndexDelete.Damaged(old(s.pages), s.pages, s.used, g.tree, pos, key, g'.tree, g'.height, |key|, others)
    ensures res.Missing? <==> IndexTree.Absent(Flat(g.tree), key)
    ensures IndexDelete.Foretold(res, g.tree, key, r.page)
    ensures res.Gone? ==> IndexDelete.Dropped(Flat(g.tree), key, pos, Flat(g'.tree))
    ensures res.Missing? || res == IndexDelete.Stuck(true) ==> g' == g && s.Now() == old(s.Now())
  {
    hide PageStore.Valid, IndexDelete.Damaged, IndexDelete.Foretold, IndexDelete.Dropped;
    AgreeRefl(s.pages, others);
    var t := new Index.IndexBTree.Open(s, r.page, r.kind.arity, g.tree, g.height, others);
    res, pos := t.Delete(key);
    g' := Grown(t.tree, t.height);
  }

  // ---- The file and its operations ----

  /** Whether no entry has this key, by the index's own equality search. */
  method KeyIsFree(s: PageStore<Cell>, r: Root, key: Key, ghost g: Grown, ghost others: multiset<PageId>) returns (free: bool)
    requires s.Valid() && WellFormed(s.pages, s.used, r, g, others) && r.kind.IndexKind?
    ensures free <==> IndexTree.Absent(Flat(g.tree), key)
  {
    var t := new Index.IndexBTree.Open(s, r.page, r.kind.arity, g.tree, g.height, others);
    var rowids;
    ghost var at;
    rowids, at := t.SeekEq(key);
    free := |rowids| == 0;
    NoneSelected(Flat(g.tree), key);
  }

  lemma NoneSelected(s: seq<Cell>, key: Key)
    ensures IndexSeek.Select(s, IndexSeek.Matches(key)) == [] <==> IndexTree.Absent(s, key)
  {
    if IndexTree.Absent(s, key) {
      IndexSeek.SelectNone(s, IndexSeek.Matches(key));
    } else {
      var i :| 0 <= i < |s| && CompareKeys(key, s[i].key) == 0;
      IndexSeek.SelectMeans(s, IndexSeek.Matches(key), s[i]);
      assert s[i] in multiset(s);
    }
  }

  /** The file between two operations: its trees and all its pages. */
  datatype Snapshot = Snapshot(roots: seq<Root>, trees: seq<Grown>, book: Book<Cell>)

  datatype Op =
    | NewTable
    | NewIndex(arity: nat)
    | PutRow(at: nat, rowid: int, payload: Payload)
    | CutRow(at: nat, rowid: int)
    | PutEntry(at: nat, key: Key, len: nat)
    | CutEntry(at: nat, key: Key)

  ghost function RowsOf(g: Grown): map<int, Payload> {
    TableTree.Table(Flat(g.tree))
  }

  ghost predicate TableAt(a: Snapshot, i: nat) {
    i < |a.roots| == |a.trees| && a.roots[i].kind.TableKind?
  }

  ghost predicate IndexAt(a: Snapshot, i: nat, n: nat) {
    i < |a.roots| == |a.trees| && a.roots[i].kind == IndexKind(n)
  }

  /** The same trees, but for the i-th. */
  ghost predicate OnlyAt(a: Snapshot, b: Snapshot, i: nat) {
    b.roots == a.roots && i < |a.trees| == |b.trees| && b.trees == a.trees[i := b.trees[i]]
  }

  /** The trees of before, and one new empty one. */
  ghost predicate Added(a: Snapshot, b: Snapshot, kind: Kind) {
    && |b.roots| == |a.roots| + 1 && b.roots[..|a.roots|] == a.roots && b.roots[|a.roots|].kind == kind
    && |b.trees| == |a.trees| + 1 && b.trees[..|a.trees|] == a.trees
    && if kind.TableKind? then RowsOf(b.trees[|a.trees|]) == map[] else Flat(b.trees[|a.trees|].tree) == []
  }

  ghost predicate EntryAdded(s: seq<Cell>, key: Key, len: nat, s': seq<Cell>) {
    exists pos: nat, e: Cell :: EntryAt(s, key, len, s', pos, e)
  }

  ghost predicate EntryAt(s: seq<Cell>, key: Key, len: nat, s': seq<Cell>, pos: nat, e: Cell) {
    pos <= |s| && e.key == key && e.len == len && s' == s[..pos] + [e] + s[pos..]
  }

  ghost predicate EntryCut(s: seq<Cell>, key: Key, s': seq<Cell>) {
    exists pos: nat :: IndexDelete.Dropped(s, key, pos, s')
  }

  /** What an operation does to the file: exactly its effect on its one tree, or
      nothing whatever if it names no tree, is refused, or finds nothing to do. */
  ghost predicate Performed(op: Op, a: Snapshot, b: Snapshot) {
    match op
    case NewTable => Added(a, b, TableKind)
    case NewIndex(n) => Added(a, b, IndexKind(n))
    case PutRow(i, rowid, payload) =>
      if TableAt(a, i) && InRowidRange(rowid) && |payload| < TWO_64 && rowid !in RowsOf(a.trees[i])
         && !Tables.Refuses(a.trees[i].tree, Row(rowid, payload, []))
      then OnlyAt(a, b, i) && RowsOf(b.trees[i]) == RowsOf(a.trees[i])[rowid := payload]
      else b == a
    case CutRow(i, rowid) =>
      if TableAt(a, i) && rowid in RowsOf(a.trees[i])
      then OnlyAt(a, b, i) && RowsOf(b.trees[i]) == RowsOf(a.trees[i]) - {rowid}
      else b == a
    case PutEntry(i, key, len) =>
      if IndexAt(a, i, |key|) && len < TWO_64 && IndexTree.Absent(Flat(a.trees[i].tree), key)
      then OnlyAt(a, b, i) && EntryAdded(Flat(a.trees[i].tree), key, len, Flat(b.trees[i].tree))
      else b == a
    case CutEntry(i, key) =>
      if IndexAt(a, i, |key|) && !IndexTree.Absent(Flat(a.trees[i].tree), key)
      then
        || (Foretold(IndexDelete.Gone, a, i, key) && OnlyAt(a, b, i) && EntryCut(Flat(a.trees[i].tree), key, Flat(b.trees[i].tree)))
        || (Foretold(IndexDelete.Stuck(true), a, i, key) && b == a)
      else b == a
  }

  ghost predicate Foretold(r: IndexDelete.Outcome, a: Snapshot, i: nat, key: Key)
    requires i < |a.roots| == |a.trees|
  {
    IndexDelete.Foretold(r, a.trees[i].tree, key, a.roots[i].page)
  }

  /** What such a failure leaves: one index spoilt, every other tree in its place, and
      each page with one owner or free. */
  ghost predicate HalfDone(op: Op, a: Snapshot, b: Snapshot) {
    op.CutEntry? && b.roots == a.roots && |a.roots| == |a.trees| && exists used, pos :: HalfDoneAt(op, a, b, used, pos)
  }

  ghost predicate HalfDoneAt(op: Op, a: Snapshot, b: Snapshot, used: multiset<PageId>, pos: nat)
    requires op.CutEntry?
  {
    && Wrecked(a.book.pages, b.book.pages, used, a.roots, a.trees, b.trees, op.at, op.key, pos)
    && Ledger(used, b.book.free, b.book.count) && FreeLinks(b.book.pages, b.book.free)
  }

  /** The one operation that can fail with the file changed: deleting an index entry
      whose repair the pages do not allow. */
  ghost predicate Fails(op: Op, a: Snapshot) {
    op.CutEntry? && IndexAt(a, op.at, |op.key|) && Foretold(IndexDelete.Stuck(false), a, op.at, op.key)
  }

  /** The outcome of a deletion, as the effect of an operation. */
  lemma CutMeans(r: IndexDelete.Outcome, pos: nat, a: Snapshot, b: Snapshot, used: multiset<PageId>, i: nat, key: Key)
    requires IndexAt(a, i, |key|) && OnlyAt(a, b, i) && Foretold(r, a, i, key)
    requires r.Missing? <==> IndexTree.Absent(Flat(a.trees[i].tree), key)
    requires r.Gone? ==> IndexDelete.Dropped(Flat(a.trees[i].tree), key, pos, Flat(b.trees[i].tree))
    requires r.Missing? || r == IndexDelete.Stuck(true) ==> b == a
    requires r == IndexDelete.Stuck(false) ==> HalfDoneAt(CutEntry(i, key), a, b, used, pos)
    ensures
      var op := CutEntry(i, key);
      if r == IndexDelete.Stuck(false) then Fails(op, a) && HalfDone(op, a, b) else Performed(op, a, b)
  {
  }

  class File {
    const store: PageStore<Cell>
    var roots: seq<Root>
    ghost var trees: seq<Grown>

    ghost predicate Valid()
      reads this, store
    {
      store.Valid() && Filed(store.pages, store.used, roots, trees)
    }

    ghost predicate IsTable(i: nat)
      reads this
    {
      i < |roots| && i < |trees| && roots[i].kind.TableKind?
    }

    ghost predicate IsIndex(i: nat, n: nat)
      reads this
    {
      i < |roots| && i < |trees| && roots[i].kind == IndexKind(n)
    }

    ghost function Rows(i: nat): map<int, Payload>
      reads this
      requires i < |trees|
    {
      TableTree.Table(Flat(trees[i].tree))
    }

    ghost function Entries(i: nat): seq<Cell>
      reads this
      requires i < |trees|
    {
      Flat(trees[i].tree)
    }

    /** Only the i-th tree is different from what it was. */
    twostate predicate OnlyChanged(i: nat)
      reads this
    {
      && roots == old(roots) && |trees| == |old(trees)|
      && i < |trees| && trees == old(trees)[i := trees[i]]
    }

    constructor ()
      ensures Valid() && roots == [] && fresh(store)
    {
      store := new PageStore();
      roots, trees := [], [];
      new;
      assert Owned([]) == multiset{};
    }

    /** A file that already holds these trees. */
    constructor Opened(s: PageStore<Cell>, rs: seq<Root>, ghost gs: seq<Grown>)
      requires s.Valid() && Filed(s.pages, s.used, rs, gs)
      ensures Valid() && store == s && roots == rs && trees == gs
    {
      store, roots, trees := s, rs, gs;
    }

    method CreateTable()
      requires Valid()
      modifies this, store
      ensures Valid() && |roots| == |old(roots)| + 1 && roots[..|old(roots)|] == old(roots) && roots[|old(roots)|].kind == TableKind
      ensures |trees| == |old(trees)| + 1 && trees[..|old(trees)|] == old(trees) && Rows(|old(trees)|) == map[]
    {
      var t := new Tables.TableBTree(store);
      ghost var g := Grown(t.tree, t.height);
      Joined(old(store.pages), store.pages, old(store.used), store.used, roots, trees, Root(t.root, TableKind), g);
      roots, trees := roots + [Root(t.root, TableKind)], trees + [g];
    }

    method CreateIndex(n: nat)
      requires Valid()
      modifies this, store
      ensures Valid() && |roots| == |old(roots)| + 1 && roots[..|old(roots)|] == old(roots) && roots[|old(roots)|].kind == IndexKind(n)
      ensures |trees| == |old(trees)| + 1 && trees[..|old(trees)|] == old(trees) && Entries(|old(trees)|) == []
    {
      var t := new Index.IndexBTree(store, n);
      ghost var g := Grown(t.tree, t.height);
      Joined(old(store.pages), store.pages, old(store.used), store.used, roots, trees, Root(t.root, IndexKind(n)), g);
      roots, trees := roots + [Root(t.root, IndexKind(n))], trees + [g];
    }

    method InsertRow(i: nat, rowid: int, payload: Payload) returns (r: Tables.InsertResult)
      requires Valid() && IsTable(i) && InRowidRange(rowid) && |payload| < TWO_64
      modifies `trees, store
      ensures Valid() && OnlyChanged(i)
      ensures r.DuplicateRowid? <==> rowid in old(Rows(i))
      ensures r.PageFull? <==> rowid !in old(Rows(i)) && Tables.Refuses(old(trees[i].tree), Row(rowid, payload, []))
      ensures r.Done? ==> Rows(i) == old(Rows(i))[rowid := payload]
      ensures !r.Done? ==> trees == old(trees) && store.Now() == old(store.Now())
    {
      hide Filed, WellFormed, PageStore.Valid;
      Among(store.pages, store.used, roots, trees, i);
      ghost var g;
      r, g := InsertInTable(store, roots[i], rowid, payload, trees[i], OthersOf(trees, i));
      Unchanged(trees, i);
      Replaced(old(store.pages), store.pages, old(store.used), store.used, roots, trees, i, g);
      trees := trees[i := g];
    }

    method DeleteRow(i: nat, rowid: int) returns (found: bool)
      requires Valid() && IsTable(i)
      modifies `trees, store
      ensures Valid() && OnlyChanged(i)
      ensures found <==> rowid in old(Rows(i))
      ensures !found ==> trees == old(trees) && store.Now() == old(store.Now())
      ensures Rows(i) == old(Rows(i)) - {rowid}
    {
      hide Filed, WellFormed, PageStore.Valid;
      Among(store.pages, store.used, roots, trees, i);
      ghost var g;
      found, g := DeleteFromTable(store, roots[i], rowid, trees[i], OthersOf(trees, i));
      Replaced(old(store.pages), store.pages, old(store.used), store.used, roots, trees, i, g);
      trees := trees[i := g];
    }

    method InsertEntry(i: nat, key: Key, len: nat) returns (ghost pos: nat, ghost e: Cell)
      requires Valid() && IsIndex(i, |key|) && len < TWO_64 && IndexTree.Absent(Entries(i), key)
      modifies `trees, store
      ensures Valid() && OnlyChanged(i)
      ensures e.key == key && e.len == len && pos <= |old(Entries(i))|
      ensures Entries(i) == old(Entries(i))[..pos] + [e] + old(Entries(i))[pos..]
    {
      hide Filed, WellFormed, PageStore.Valid;
      Among(store.pages, store.used, roots, trees, i);
      ghost var g;
      pos, e, g := InsertInIndex(store, roots[i], key, len, trees[i], OthersOf(trees, i));
      Replaced(old(store.pages), store.pages, old(store.used), store.used, roots, trees, i, g);
      trees := trees[i := g];
    }

    /** After a failure that is not clean the file must be rolled back. */
    method DeleteEntry(i: nat, key: Key) returns (r: IndexDelete.Outcome, ghost pos: nat)
      requires Valid() && IsIndex(i, |key|)
      modifies `trees, store
      ensures OnlyChanged(i) && store.Valid() && (r != IndexDelete.Stuck(false) ==> Valid())
      ensures r == IndexDelete.Stuck(false) ==>
                Wrecked(old(store.pages), store.pages, store.used, roots, old(trees), trees, i, key, pos)
      ensures r.Missing? <==> IndexTree.Absent(old(Entries(i)), key)
      ensures IndexDelete.Foretold(r, old(trees[i].tree), key, old(roots[i].page))
      ensures r.Gone? ==> IndexDelete.Dropped(old(Entries(i)), key, pos, Flat(trees[i].tree))
      ensures r.Missing? || r == IndexDelete.Stuck(true) ==> trees == old(trees) && store.Now() == old(store.Now())
    {
      hide Filed, WellFormed, IndexDelete.Damaged, PageStore.Valid;
      Among(store.pages, store.used, roots, trees, i);
      ghost var g;
      r, pos, g := DeleteFromIndex(store, roots[i], key, trees[i], OthersOf(trees, i));
      trees := Adopted(r, old(store.pages), store.pages, old(store.used), store.used, roots, trees, i, g, key, pos);
    }

    ghost function Now(): Snapshot
      reads this, store
    {
      Snapshot(roots, trees, store.Now())
    }

    /** One operation. Callers insert a key once, since its last column is a rowid,
        and name trees that exist: other requests are passed over. */
    method Step(op: Op) returns (ok: bool)
      requires Valid()
      modifies this, store
      ensures ok ==> Valid() && Performed(op, old(Now()), Now())
      ensures !ok ==> Fails(op, old(Now())) && HalfDone(op, old(Now()), Now()) && store.Valid()
    {
      ok := true;
      match op
      case NewTable => CreateTable();
      case NewIndex(n) => CreateIndex(n);
      case PutRow(i, rowid, payload) => PutOneRow(i, rowid, payload);
      case CutRow(i, rowid) => CutOneRow(i, rowid);
      case PutEntry(i, key, len) => PutOneEntry(i, key, len);
      case CutEntry(i, key) => ok := CutOneEntry(i, key);
    }

    method PutOneRow(i: nat, rowid: int, payload: Payload)
      requires Valid()
      modifies this, store
      ensures Valid() && Performed(PutRow(i, rowid, payload), old(Now()), Now())
    {
      if i < |roots| && roots[i].kind.TableKind? && InRowidRange(rowid) && |payload| < TWO_64 {
        var r := InsertRow(i, rowid, payload);
      }
    }

    method CutOneRow(i: nat, rowid: int)
      requires Valid()
      modifies this, store
      ensures Valid() && Performed(CutRow(i, rowid), old(Now()), Now())
    {
      if i < |roots| && roots[i].kind.TableKind? {
        var found := DeleteRow(i, rowid);
      }
    }

    method PutOneEntry(i: nat, key: Key, len: nat)
      requires Valid()
      modifies this, store
      ensures Valid() && Performed(PutEntry(i, key, len), old(Now()), Now())
    {
      if i < |roots| && roots[i].kind == IndexKind(|key|) && len < TWO_64 {
        Among(store.pages, store.used, roots, trees, i);
        var free := KeyIsFree(store, roots[i], key, trees[i], OthersOf(trees, i));
        if free {
          ghost var pos, e;
          pos, e := InsertEntry(i, key, len);
          assert EntryAt(old(Entries(i)), key, len, Entries(i), pos, e);
        }
      }
    }

    method CutOneEntry(i: nat, key: Key) returns (ok: bool)
      requires Valid()
      modifies this, store
      ensures ok ==> Valid() && Performed(CutEntry(i, key), old(Now()), Now())
      ensures !ok ==> Fails(CutEntry(i, key), old(Now())) && HalfDone(CutEntry(i, key), old(Now()), Now()) && store.Valid()
    {
      if i < |roots| && roots[i].kind == IndexKind(|key|) {
        var r;
        ghost var pos;
        r, pos := DeleteEntry(i, key);
        ok := r != IndexDelete.Stuck(false);
        CutMeans(r, pos, old(Now()), Now(), store.used, i, key);
        return;
      }
      ok := true;
    }

    /** Any operations, in any order, on any trees: each has exactly its effect, and
        before and after each of them the pages of the file are partitioned among
        trees, overflow chains and freelist. Only an index deletion that the pages do
        not allow can end the run early. */
    method Run(ops: seq<Op>) returns (ok: bool, ghost history: seq<Snapshot>)
      requires Valid()
      modifies this, store
      ensures History(ops, history) && history[0] == old(Now())
      ensures ok ==> Valid() && |history| == |ops| + 1 && history[|ops|] == Now()
      ensures !ok ==>
                && |history| <= |ops| && Fails(ops[|history| - 1], history[|history| - 1])
                && HalfDone(ops[|history| - 1], history[|history| - 1], Now()) && store.Valid()
    {
      ok, history := true, [Now()];
      Begins(ops, Now(), store.used);
      var k := 0;
      while k < |ops|
        invariant 0 <= k <= |ops| && ok && Valid()
        invariant |history| == k + 1 && history[0] == old(Now()) && history[k] == Now()
        invariant History(ops, history)
      {
        ok := Step(ops[k]);
        if !ok {
          return;
        }
        Continues(ops, history, Now(), store.used);
        k := k + 1;
        history := history + [Now()];
      }
    }
  }

  /** Each snapshot is what the operation makes of the one before it, and all of
      them are in order. */
  ghost predicate History(ops: seq<Op>, history: seq<Snapshot>) {
    && 1 <= |history| <= |ops| + 1
    && (forall k :: 0 <= k < |history| ==> InOrder(history[k]))
    && (forall k {:trigger PerformedAt(ops, history, k)} :: PerformedAt(ops, history, k))
  }

  ghost predicate PerformedAt(ops: seq<Op>, history: seq<Snapshot>, k: int) {
    0 <= k < |ops| && k + 1 < |history| ==> Performed(ops[k], history[k], history[k + 1])
  }

  lemma Begins(ops: seq<Op>, a: Snapshot, used: multiset<PageId>)
    requires Filed(a.book.pages, used, a.roots, a.trees) && Ledger(used, a.book.free, a.book.count)
    ensures History(ops, [a])
  {
    FiledIsPartitioned(a.book.pages, used, a.roots, a.trees, a.book.free, a.book.count);
    forall k ensures PerformedAt(ops, [a], k) {}
  }

  lemma Continues(ops: seq<Op>, history: seq<Snapshot>, a: Snapshot, used: multiset<PageId>)
    requires Filed(a.book.pages, used, a.roots, a.trees) && Ledger(used, a.book.free, a.book.count)
    requires History(ops, history) && |history| <= |ops| && Performed(ops[|history| - 1], history[|history| - 1], a)
    ensures History(ops, history + [a])
  {
    hide Performed, Filed;
    FiledIsPartitioned(a.book.pages, used, a.roots, a.trees, a.book.free, a.book.count);
    forall k ensures PerformedAt(ops, history + [a], k) { assert PerformedAt(ops, history, k); }
  }
}
