/** The page file of the trees, as the page layer holds it: what the images of a
    database file decode to, and what it means that a file, or the page cache over
    it, holds certain tables and indexes. */
module PageView {
  import opened Basics
  import opened Trees
  import opened Store
  import opened TreeCells
  import opened Durability
  import opened Database
  import Validate

  /** A free page at the end of the list is a page of zeros. */
  function ContentOf(p: Page<Cell>): Content {
    if p == FreePage(0) then Zeros else Body(p)
  }

  function PageOf(c: Content): Option<Page<Cell>> {
    match c
    case Zeros => Some(FreePage(0))
    case Body(p) => Some(p)
    case _ => None
  }

  lemma ContentRoundTrip(p: Page<Cell>)
    ensures PageOf(ContentOf(p)) == Some(p)
  {
  }

  /** The pages of a file, apart from the header page, that decode. */
  function Decoded(file: seq<Image>): map<PageId, Page<Cell>> {
    map id: PageId | 2 <= id <= |file| && PageOf(PageAt(file, id).rest).Some? :: PageOf(PageAt(file, id).rest).value
  }

  /** The file holds exactly these tables and indexes: its header tells its length
      and the freelist, page 1 lists the roots, and every other page is in one tree,
      on one overflow chain, or free. */
  ghost predicate Stores(file: seq<Image>, rs: seq<Root>, gs: seq<Grown>, free: seq<PageId>) {
    && |file| >= 1 && file[0].rest == Catalog(rs)
    && file[0].head.pageCount == |file| && file[0].head.trunk == Head(free) && file[0].head.freeCount == |free|
    && Holds(Snapshot(rs, gs, Book(Decoded(file), free, |file|)))
  }

  /** The same of a snapshot. */
  ghost predicate Stands(file: seq<Image>, a: Snapshot) {
    Stores(file, a.roots, a.trees, a.book.free)
  }

  /** The pages of the snapshot are those of its trees and its freelist. */
  ghost predicate Holds(a: Snapshot) {
    && Filed(a.book.pages, Owned(a.trees), a.roots, a.trees)
    && Ledger(Owned(a.trees), a.book.free, a.book.count) && FreeLinks(a.book.pages, a.book.free)
  }

  // ---- No page is unaccounted for ----

  /** Every page but those on the freelist holds something. */
  ghost predicate Filled(b: Book<Cell>) {
    forall id {:trigger InUse(b, id)} :: InUse(b, id) ==> id in b.pages && !b.pages[id].FreePage?
  }

  ghost predicate InUse(b: Book<Cell>, id: PageId) {
    2 <= id <= b.count && id !in b.free
  }

  ghost predicate UsedPage(m: map<PageId, Page<Cell>>, id: PageId) {
    id in m && !m[id].FreePage?
  }

  lemma {:induction false} TreePageUsed(m: map<PageId, Page<Cell>>, t: Tree<Cell>, h: nat, id: PageId)
    requires Rep(m, t) && Shape(t, h) && id in NodeIds(t)
    ensures UsedPage(m, id)
    decreases t, 1
  {
    if t.TNode? && id != t.id { ForestPageUsed(m, t.kids, h - 1, id); }
  }

  lemma {:induction false} ForestPageUsed(m: map<PageId, Page<Cell>>, ts: seq<Tree<Cell>>, h: nat, id: PageId)
    requires Reps(m, ts) && Shapes(ts, h) && id in ForestIds(ts)
    ensures UsedPage(m, id)
    decreases ts, 0
  {
    if id in NodeIds(ts[0]) { TreePageUsed(m, ts[0], h, id); } else { ForestPageUsed(m, ts[1..], h, id); }
  }

  lemma {:induction false} LinkUsed(m: map<PageId, Page<Cell>>, ids: seq<PageId>, id: PageId)
    requires OverflowLinks(m, ids) && id in Tally(ids)
    ensures UsedPage(m, id)
    decreases |ids|
  {
    if id != ids[0] { LinkUsed(m, ids[1..], id); }
  }

  lemma {:induction false} ChainPageUsed(m: map<PageId, Page<Cell>>, s: seq<Cell>, id: PageId)
    requires ChainsLinked(m, s) && id in ChainIds(s)
    ensures UsedPage(m, id)
    decreases |s|
  {
    if id in Tally(s[0].chain) { LinkUsed(m, s[0].chain, id); } else { ChainPageUsed(m, s[1..], id); }
  }

  lemma SitsUsed(m: map<PageId, Page<Cell>>, r: Root, g: Grown, id: PageId)
    requires Sits(m, r, g) && id in PagesOf(g)
    ensures UsedPage(m, id)
  {
    if id in NodeIds(g.tree) { TreePageUsed(m, g.tree, g.height, id); } else { ChainPageUsed(m, Flat(g.tree), id); }
  }

  lemma {:induction false} OwnerOf(gs: seq<Grown>, id: PageId) returns (i: nat)
    requires id in Owned(gs)
    ensures i < |gs| && id in PagesOf(gs[i])
    decreases |gs|
  {
    if id in PagesOf(gs[0]) {
      i := 0;
    } else {
      i := OwnerOf(gs[1..], id);
      i := i + 1;
    }
  }

  lemma HoldsIsFilled(a: Snapshot)
    requires Holds(a)
    ensures Filled(a.book)
  {
    forall id | InUse(a.book, id) ensures UsedPage(a.book.pages, id) {
      OwnedNotFree(a, id);
      var i := OwnerOf(a.trees, id);
      assert SitsAt(a.book.pages, a.roots, a.trees, i);
      SitsUsed(a.book.pages, a.roots[i], a.trees[i], id);
    }
  }

  lemma OwnedNotFree(a: Snapshot, id: PageId)
    requires Ledger(Owned(a.trees), a.book.free, a.book.count) && InUse(a.book, id)
    ensures id in Owned(a.trees)
  {
    assert Owners(Owned(a.trees), a.book.free, id) == 1;
    InTally(a.book.free, id);
  }

  lemma {:induction false} FreeIsFree(m: map<PageId, Page<Cell>>, free: seq<PageId>, id: PageId)
    requires FreeLinks(m, free) && id in free
    ensures id in m && m[id].FreePage?
    decreases |free|
  {
    if id != free[0] { FreeIsFree(m, free[1..], id); }
  }

  /** Every page but the header page is there. */
  lemma HoldsAll(a: Snapshot, id: PageId)
    requires Holds(a) && 2 <= id <= a.book.count
    ensures id in a.book.pages
  {
    if id in a.book.free {
      FreeIsFree(a.book.pages, a.book.free, id);
    } else {
      HoldsIsFilled(a);
      assert InUse(a.book, id);
    }
  }

  // ---- Other pages under the same trees ----

  /** Trees and freelist are found on any pages that agree up to the last page. */
  lemma HoldsFrame(a: Snapshot, m: map<PageId, Page<Cell>>)
    requires Holds(a) && forall id :: 2 <= id <= a.book.count && id in a.book.pages ==> id in m && m[id] == a.book.pages[id]
    ensures Holds(Snapshot(a.roots, a.trees, Book(m, a.book.free, a.book.count)))
  {
    var m0, used := a.book.pages, Owned(a.trees);
    forall x: PageId ensures x in used || x in Tally(a.book.free) ==> Same(m0, m, x) {
      assert Owners(used, a.book.free, x) == if 2 <= x <= a.book.count then 1 else 0;
    }
    assert Agree(m0, m, used) && Agree(m0, m, Tally(a.book.free));
    FreeLinksFrame(m0, m, a.book.free);
    forall i ensures SitsAt(m, a.roots, a.trees, i) {
      if 0 <= i < |a.trees| {
        assert SitsAt(m0, a.roots, a.trees, i);
        OwnedIncludes(a.trees, i);
        AgreeSub(m0, m, used, PagesOf(a.trees[i]));
        SitsFrame(m0, m, a.roots[i], a.trees[i]);
      }
    }
  }

  /** A tree that is no longer the same has one of its old pages changed. */
  lemma ChangedPage(m: map<PageId, Page<Cell>>, m': map<PageId, Page<Cell>>, t: Tree<Cell>, t': Tree<Cell>, h: nat, h': nat)
    returns (id: PageId)
    requires Rep(m, t) && Rep(m', t') && Shape(t, h) && Shape(t', h') && t.id == t'.id && t != t'
    ensures id in NodeIds(t) && !Same(m, m', id)
  {
    if forall x :: x in NodeIds(t) ==> Same(m, m', x) {
      assert Agree(m, m', NodeIds(t));
      RepFrame(m, m', t);
      Validate.SameTree(m', t, t', h, h');
      id := t.id;
    } else {
      id :| id in NodeIds(t) && !Same(m, m', id);
    }
  }

  /** So if all pages up to the last are what they were, so is every tree. */
  lemma SameTrees(a: Snapshot, m': map<PageId, Page<Cell>>, i: nat, t': Tree<Cell>, h': nat)
    requires Holds(a) && i < |a.trees| && Rep(m', t') && Shape(t', h') && t'.id == a.roots[i].page
    requires forall id :: 2 <= id <= a.book.count && id in a.book.pages ==> Same(a.book.pages, m', id)
    ensures t' == a.trees[i].tree
  {
    var g := a.trees[i];
    assert SitsAt(a.book.pages, a.roots, a.trees, i);
    if t' != g.tree {
      var id := ChangedPage(a.book.pages, m', g.tree, t', g.height, h');
      OwnedRange(a, i, id);
    }
  }

  lemma OwnedRange(a: Snapshot, i: nat, id: PageId)
    requires Holds(a) && i < |a.trees| && id in PagesOf(a.trees[i])
    ensures 2 <= id <= a.book.count
  {
    OwnedIncludes(a.trees, i);
    assert Owners(Owned(a.trees), a.book.free, id) == if 2 <= id <= a.book.count then 1 else 0;
  }
}
