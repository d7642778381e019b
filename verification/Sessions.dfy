/** Operations on tables and indexes as a transaction of the page layer: every page
    the trees allocate, write or free is allocated, written or freed through the
    page cache, in the same order; then the transaction is committed, or, if an
    operation failed halfway, rolled back. So the crash theorems are about trees. */
module Sessions {
  import opened Basics
  import opened Trees
  import opened Store
  import opened TreeCells
  import opened Durability
  import opened Recovery
  import opened Database
  import opened PageView
  import IndexDelete
  import PageLayer = Engine

  // ---- The cache shows the pages ----

  /** A transaction is open, nothing of it has reached the file, no page is pinned. */
  ghost predicate Ready(e: PageLayer.Engine)
    reads e
  {
    e.Writing() && e.Grown() && !e.barrierPassed && e.Unpinned() && e.capacity > 0
  }

  ghost predicate ShownAt(e: PageLayer.Engine, b: Book<Cell>, id: PageId)
    reads e
  {
    2 <= id <= b.count ==> id in b.pages && PageOf(e.View(id).rest) == Some(b.pages[id])
  }

  /** What the page layer shows is this page file. */
  ghost predicate Shows(e: PageLayer.Engine, b: Book<Cell>)
    reads e
  {
    && e.header.pageCount == b.count && e.header.trunk == Head(b.free) && e.header.freeCount == |b.free|
    && forall id {:trigger ShownAt(e, b, id)} :: ShownAt(e, b, id)
  }

  ghost predicate Tidy(b: Book<Cell>) {
    b.count >= 1 && FreeLinks(b.pages, b.free) && forall id :: id in b.free ==> 2 <= id <= b.count
  }

  /** A page that was added and not yet written holds zeros, and is not free. */
  ghost predicate BlankAt(before: nat, journalled: set<PageId>, b: Book<Cell>, id: PageId) {
    before < id <= b.count && id !in journalled ==> id !in b.free && id in b.pages && b.pages[id] == FreePage(0)
  }

  ghost predicate Blank(before: nat, journalled: set<PageId>, b: Book<Cell>) {
    forall id {:trigger BlankAt(before, journalled, b, id)} :: BlankAt(before, journalled, b, id)
  }

  ghost predicate Carried(e: PageLayer.Engine, b: Book<Cell>)
    reads e
  {
    Ready(e) && Shows(e, b) && Tidy(b) && Blank(e.before, e.journalled, b)
  }

  // ---- One move ----

  lemma TidyMoved(b: Book<Cell>, m: Move<Cell>)
    requires Tidy(b) && CanMove(b, m)
    ensures Tidy(Moved(b, m))
  {
    forall x | x in Moved(b, m).free ensures 2 <= x <= Moved(b, m).count {
      if !(m.Freed? && x == m.id) { assert x in b.free; }
    }
    if m.Took? {
    } else {
      var body := if m.Wrote? then m.body else FreePage(Head(b.free));
      AgreeOff(b.pages, m.id, body, b.free);
      FreeLinksFrame(b.pages, b.pages[m.id := body], b.free);
      if m.Freed? { assert ([m.id] + b.free)[1..] == b.free; }
    }
  }

  lemma AgreeOff(m: map<PageId, Page<Cell>>, id: PageId, body: Page<Cell>, free: seq<PageId>)
    requires id !in free
    ensures Agree(m, m[id := body], Tally(free))
  {
    forall x: PageId ensures x in Tally(free) ==> Same(m, m[id := body], x) { InTally(free, x); }
  }

  lemma HeadLink(b: Book<Cell>)
    requires Tidy(b) && |b.free| > 0
    ensures 2 <= b.free[0] <= b.count && b.free[0] in b.pages && b.pages[b.free[0]] == FreePage(Head(b.free[1..]))
  {
    assert b.free[0] in b.free;
  }

  method Take(e: PageLayer.Engine, ghost b: Book<Cell>)
    requires Carried(e, b)
    modifies e`disk, e`trace, e`journalOpen, e`journalled, e`cache, e`order, e`header
    ensures Carried(e, Moved(b, Took)) && e.View(1) == old(e.View(1)) && e.header.cookie == old(e.header.cookie)
    ensures old(e.journalOpen) ==> e.journalOpen
  {
    ghost var b' := Moved(b, Took);
    TidyMoved(b, Took);
    if |b.free| > 0 {
      HeadLink(b);
      assert ShownAt(e, b, b.free[0]);
    }
    var id := e.AllocatePage();
    forall x ensures ShownAt(e, b', x) { assert old(ShownAt(e, b, x)); }
    forall x ensures BlankAt(e.before, e.journalled, b', x) { assert BlankAt(e.before, old(e.journalled), b, x); }
  }

  method Put(e: PageLayer.Engine, id: PageId, body: Page<Cell>, ghost b: Book<Cell>)
    requires Carried(e, b) && CanMove(b, Wrote(id, body))
    modifies e`disk, e`trace, e`journalOpen, e`journalled, e`cache, e`order, e`header
    ensures Carried(e, Moved(b, Wrote(id, body))) && e.View(1) == old(e.View(1)) && e.header.cookie == old(e.header.cookie)
    ensures old(e.journalOpen) ==> e.journalOpen
  {
    ghost var b' := Moved(b, Wrote(id, body));
    TidyMoved(b, Wrote(id, body));
    e.WritePage(id, ContentOf(body));
    forall x ensures ShownAt(e, b', x) { assert old(ShownAt(e, b, x)); }
    forall x ensures BlankAt(e.before, e.journalled, b', x) { assert BlankAt(e.before, old(e.journalled), b, x); }
  }

  method Release(e: PageLayer.Engine, id: PageId, ghost b: Book<Cell>)
    requires Carried(e, b) && CanMove(b, Freed(id))
    modifies e`disk, e`trace, e`journalOpen, e`journalled, e`cache, e`order, e`header
    ensures Carried(e, Moved(b, Freed(id))) && e.View(1) == old(e.View(1)) && e.header.cookie == old(e.header.cookie)
    ensures old(e.journalOpen) ==> e.journalOpen
  {
    ghost var b' := Moved(b, Freed(id));
    TidyMoved(b, Freed(id));
    e.FreePage(id);
    forall x ensures ShownAt(e, b', x) { assert old(ShownAt(e, b, x)); }
    forall x ensures BlankAt(e.before, e.journalled, b', x) { assert BlankAt(e.before, old(e.journalled), b, x); }
  }

  /** Whatever the trees did to their file, the page layer does to its own. */
  method Carry(e: PageLayer.Engine, moves: seq<Move<Cell>>, ghost a: Book<Cell>, ghost b: Book<Cell>)
    requires Carried(e, a) && Leads(a, moves, b)
    modifies e`disk, e`trace, e`journalOpen, e`journalled, e`cache, e`order, e`header
    ensures Carried(e, b) && e.View(1) == old(e.View(1)) && e.header.cookie == old(e.header.cookie)
    ensures old(e.journalOpen) ==> e.journalOpen
  {
    ghost var now := a;
    var i := 0;
    assert moves[0..] == moves;
    while i < |moves|
      invariant 0 <= i <= |moves| && Carried(e, now) && Leads(now, moves[i..], b)
      invariant e.View(1) == old(e.View(1)) && e.header.cookie == old(e.header.cookie)
      invariant old(e.journalOpen) ==> e.journalOpen
      decreases |moves| - i
    {
      assert moves[i..][0] == moves[i] && moves[i..][1..] == moves[i + 1..];
      match moves[i] {
        case Took => Take(e, now);
        case Wrote(id, body) => Put(e, id, body, now);
        case Freed(id) => Release(e, id, now);
      }
      now := Moved(now, moves[i]);
      i := i + 1;
    }
  }

  // ---- One operation ----

  /** The page layer shows these trees and this catalog. */
  ghost predicate Showing(e: PageLayer.Engine, a: Snapshot)
    reads e
  {
    Carried(e, a.book) && e.View(1).rest == Catalog(a.roots)
  }

  /** The trees that the transaction began with, on the pages of the committed file. */
  ghost predicate Began(base: seq<Image>, before: nat, a: Snapshot) {
    Holds(a) && a.book.count == before == |base| && forall id {:trigger StoredAt(base, a, id)} :: StoredAt(base, a, id)
  }

  ghost predicate StoredAt(base: seq<Image>, a: Snapshot, id: PageId) {
    2 <= id <= a.book.count && id in a.book.pages ==> PageOf(PageAt(base, id).rest) == Some(a.book.pages[id])
  }

  /** Either a page has been saved, or the transaction has done nothing. */
  ghost predicate Saved(e: PageLayer.Engine, a0: Snapshot, a: Snapshot)
    reads e
  {
    e.journalOpen || (a == a0 && |e.base| >= 1 && e.header == e.base[0].head)
  }

  /** The pages that the transaction began with are what they were. */
  ghost predicate SamePages(a: Snapshot, m: map<PageId, Page<Cell>>) {
    forall id :: 2 <= id <= a.book.count && id in a.book.pages ==> Same(a.book.pages, m, id)
  }

  lemma UntouchedPages(e: PageLayer.Engine, a0: Snapshot, b: Book<Cell>)
    requires Carried(e, b) && !e.journalOpen && Began(e.base, e.before, a0)
    ensures SamePages(a0, b.pages)
  {
    e.NothingSaved();
    forall id | 2 <= id <= a0.book.count && id in a0.book.pages ensures Same(a0.book.pages, b.pages, id) {
      assert StoredAt(e.base, a0, id) && ShownAt(e, b, id);
    }
  }

  /** An operation that leaves the old pages alone adds a tree or does nothing. */
  lemma NothingDone(op: Op, a: Snapshot, b: Snapshot)
    requires Performed(op, a, b) && Holds(a) && Holds(b) && SamePages(a, b.book.pages)
    ensures b == a || |b.roots| > |a.roots|
  {
    if b != a && !op.NewTable? && !op.NewIndex? {
      SameTree(a, b, op.at);
    }
  }

  lemma SameTree(a: Snapshot, b: Snapshot, i: nat)
    requires Holds(a) && Holds(b) && SamePages(a, b.book.pages) && b.roots == a.roots && i < |a.trees| == |b.trees|
    ensures b.trees[i].tree == a.trees[i].tree
  {
    assert SitsAt(b.book.pages, b.roots, b.trees, i) && SitsAt(a.book.pages, a.roots, a.trees, i);
    SameTrees(a, b.book.pages, i, b.trees[i].tree, b.trees[i].height);
  }

  lemma SameCatalog(op: Op, a: Snapshot, b: Snapshot)
    requires Performed(op, a, b)
    ensures b.roots == a.roots || |b.roots| == |a.roots| + 1
  {
  }

  /** Nor can a deletion fail halfway without touching the old pages. */
  lemma DamageTouches(op: Op, a: Snapshot, b: Snapshot)
    requires HalfDone(op, a, b) && Holds(a)
    ensures !SamePages(a, b.book.pages)
  {
    var used, pos :| HalfDoneAt(op, a, b, used, pos);
    var i := op.at;
    if SamePages(a, b.book.pages) {
      assert SitsAt(a.book.pages, a.roots, a.trees, i);
      SameTrees(a, b.book.pages, i, b.trees[i].tree, b.trees[i].height);
    }
  }

  /** After it every page that is not free still holds something. */
  lemma DamageIsFilled(op: Op, a: Snapshot, b: Snapshot)
    requires HalfDone(op, a, b) && Holds(a)
    ensures Filled(b.book)
  {
    var used, pos :| HalfDoneAt(op, a, b, used, pos);
    forall id | InUse(b.book, id) ensures UsedPage(b.book.pages, id) {
      assert Owners(used, b.book.free, id) == 1;
      InTally(b.book.free, id);
      DamagedPageUsed(op, a, b, used, pos, id);
    }
  }

  lemma DamagedPageUsed(op: Op, a: Snapshot, b: Snapshot, used: multiset<PageId>, pos: nat, id: PageId)
    requires op.CutEntry? && HalfDoneAt(op, a, b, used, pos) && Holds(a) && b.roots == a.roots && id in used
    ensures UsedPage(b.book.pages, id)
  {
    var i, m, m' := op.at, a.book.pages, b.book.pages;
    var g, g' := a.trees[i], b.trees[i];
    var rest := IndexDelete.Without(Flat(g.tree), pos);
    if id in NodeIds(g'.tree) {
      TreePageUsed(m', g'.tree, g'.height, id);
    } else if id in OthersOf(a.trees, i) {
      var j := OtherOwner(a.trees, i, id);
      assert SitsAt(m', b.roots, b.trees, j);
      SitsUsed(m', b.roots[j], b.trees[j], id);
    } else {
      assert id in ChainIds(rest);
      assert SitsAt(m, a.roots, a.trees, i);
      IndexDelete.ChainWithout(m, Flat(g.tree), pos, multiset{});
      ChainPageUsed(m, rest, id);
      assert Same(m, m', id);
    }
  }

  lemma OtherOwner(gs: seq<Grown>, i: nat, id: PageId) returns (j: nat)
    requires i < |gs| && id in OthersOf(gs, i)
    ensures j < |gs| && j != i && id in PagesOf(gs[j])
  {
    if id in Owned(gs[..i]) {
      j := OwnerOf(gs[..i], id);
    } else {
      j := OwnerOf(gs[i + 1..], id);
      j := i + 1 + j;
    }
  }

  /** The same trees under a new handle. */
  method Reopened(f: File) returns (g: File)
    requires f.Valid()
    ensures fresh(g) && fresh(g.store) && g.Valid() && g.Now() == f.Now() && g.store.log == [] && g.store.origin == g.store.Now()
  {
    var s := new PageStore.Holding(f.store.pages, f.store.pageCount, f.store.trunk, f.store.freeCount, f.store.free, f.store.used);
    g := new File.Opened(s, f.roots, f.trees);
  }

  /** The schema cookie after n more trees; it counts in 32 bits. */
  function Bumped(cookie: nat, n: nat): nat {
    if n == 0 then cookie else (cookie + n) % 0x1_0000_0000
  }

  lemma BumpedAgain(cookie: nat, n: nat, k: nat)
    ensures Bumped(Bumped(cookie, n), k) == Bumped(cookie, n + k)
  {
  }

  /** Write the list of roots to page 1, and count the change of the schema. */
  method SaveCatalog(e: PageLayer.Engine, roots: seq<Root>, ghost b: Book<Cell>)
    requires Carried(e, b)
    modifies e`disk, e`trace, e`journalOpen, e`journalled, e`cache, e`order, e`header
    ensures Carried(e, b) && e.View(1).rest == Catalog(roots) && e.journalOpen && e.header.cookie == Bumped(old(e.header.cookie), 1)
  {
    e.WritePage(1, Catalog(roots));
    e.BumpCookie();
    forall x ensures ShownAt(e, b, x) { assert old(ShownAt(e, b, x)); }
    forall x ensures BlankAt(e.before, e.journalled, b, x) { assert BlankAt(e.before, old(e.journalled), b, x); }
  }

  /** Every page that the transaction added has been fetched for writing. */
  ghost predicate AllFetched(e: PageLayer.Engine)
    reads e
  {
    forall id :: id in e.cache && id > e.before ==> id in e.journalled
  }

  lemma FilledIsFetched(e: PageLayer.Engine, b: Book<Cell>)
    requires Carried(e, b) && Filled(b)
    ensures AllFetched(e)
  {
    forall id | id in e.cache && id > e.before ensures id in e.journalled {
      assert BlankAt(e.before, e.journalled, b, id);
      assert InUse(b, id) || id in b.free;
    }
  }

  lemma ShownHeader(e: PageLayer.Engine, b: Book<Cell>)
    requires Carried(e, b)
    ensures e.header == Header(b.count, Head(b.free), |b.free|, e.header.cookie)
  {
  }

  lemma Stored(f: File)
    requires f.Valid()
    ensures Holds(f.Now())
  {
  }

  lemma Logged(s: PageStore<Cell>)
    requires s.Valid()
    ensures Leads(s.origin, s.log, s.Now())
  {
  }

  /** One operation: the trees do it to their file, then the page layer to its own. */
  method Perform(e: PageLayer.Engine, f: File, op: Op, ghost a0: Snapshot) returns (ok: bool)
    requires f.Valid() && f.store.log == [] && f.store.origin == f.store.Now()
    requires Showing(e, f.Now()) && Saved(e, a0, f.Now()) && Began(e.base, e.before, a0)
    modifies f, f.store, e`disk, e`trace, e`journalOpen, e`journalled, e`cache, e`order, e`header
    ensures ok ==> f.Valid() && Performed(op, old(f.Now()), f.Now()) && Showing(e, f.Now()) && Saved(e, a0, f.Now())
    ensures ok ==> |f.roots| >= |old(f.roots)| && e.header.cookie == Bumped(old(e.header.cookie), |f.roots| - |old(f.roots)|)
    ensures !ok ==> Fails(op, old(f.Now())) && Ready(e) && e.journalOpen && AllFetched(e)
  {
    hide Performed, Fails, HalfDone, Began, Carried, SamePages, AllFetched, Holds, File.Valid, PageStore.Valid;
    Stored(f);
    ShownHeader(e, f.store.Now());
    var n := |f.roots|;
    ok := f.Step(op);
    if ok {
      Stored(f);
      SameCatalog(op, old(f.Now()), f.Now());
    }
    Logged(f.store);
    Carry(e, f.store.log, f.store.origin, f.store.Now());
    ShownHeader(e, f.store.Now());
    if !ok {
      Failed(e, op, a0, old(f.Now()), f.Now());
      return;
    }
    if |f.roots| > n {
      SaveCatalog(e, f.roots, f.store.Now());
    } else if !e.journalOpen {
      UntouchedPages(e, a0, f.store.Now());
      NothingDone(op, a0, f.Now());
    }
  }

  lemma Failed(e: PageLayer.Engine, op: Op, a0: Snapshot, a: Snapshot, b: Snapshot)
    requires HalfDone(op, a, b) && Holds(a) && Carried(e, b.book) && Began(e.base, e.before, a0) && (e.journalOpen || a == a0)
    ensures Ready(e) && e.journalOpen && AllFetched(e)
  {
    DamageIsFilled(op, a, b);
    FilledIsFetched(e, b.book);
    if !e.journalOpen {
      UntouchedPages(e, a0, b.book);
      DamageTouches(op, a, b);
    }
  }

  // ---- A whole transaction ----

  /** What the page layer reads when a transaction begins. */
  ghost predicate Reads(base: seq<Image>, a: Snapshot) {
    Stands(base, a) && a.book.pages == Decoded(base) && a.book.count == |base|
  }

  /** A new database: a header page with an empty catalog. */
  lemma NewFile(cookie: nat)
    ensures Reads([Image(Header(1, 0, 0, cookie), Catalog([]))], Snapshot([], [], Book(map[], [], 1)))
  {
    var file := [Image(Header(1, 0, 0, cookie), Catalog([]))];
    var a: Snapshot := Snapshot([], [], Book(map[], [], 1));
    assert Decoded(file) == map[];
    forall x ensures Owners(Owned(a.trees), a.book.free, x) == if 2 <= x <= 1 then 1 else 0 {}
    forall i ensures SitsAt(a.book.pages, a.roots, a.trees, i) {}
  }

  /** What a transaction leaves behind, the next one can begin with. */
  lemma GoesOn(base: seq<Image>, z: Snapshot)
    requires Stands(base, z)
    ensures Reads(base, Snapshot(z.roots, z.trees, Book(Decoded(base), z.book.free, |base|)))
  {
  }

  lemma BeginsShowing(e: PageLayer.Engine, a: Snapshot)
    requires Ready(e) && e.disk.file == e.base && e.before == e.header.pageCount == |e.base| && e.header == e.base[0].head
    requires Reads(e.base, a) && (forall id :: 1 <= id <= |e.base| ==> e.View(id) == PageAt(e.base, id))
    ensures Showing(e, a) && Saved(e, a, a) && Began(e.base, e.before, a)
  {
    assert e.View(1) == PageAt(e.base, 1);
    forall id: PageId ensures ShownAt(e, a.book, id) {
      if 2 <= id <= a.book.count { HoldsAll(a, id); }
    }
    forall id | id in a.book.free ensures 2 <= id <= a.book.count {
      InTally(a.book.free, id);
      assert Owners(Owned(a.trees), a.book.free, id) == if 2 <= id <= a.book.count then 1 else 0;
    }
  }

  /** What has been committed is what was shown. */
  lemma CommitStores(base: seq<Image>, a: Snapshot, head: Header, first: Image, shown: map<PageId, Image>)
    requires Holds(a) && |base| == a.book.count == head.pageCount && head.trunk == Head(a.book.free) && head.freeCount == |a.book.free|
    requires first.rest == Catalog(a.roots) && PageAt(base, 1) == first.(head := head)
    requires forall id :: 2 <= id <= |base| ==>
               id in shown && PageAt(base, id) == shown[id] && id in a.book.pages && PageOf(shown[id].rest) == Some(a.book.pages[id])
    ensures Stands(base, a)
  {
    var m := Decoded(base);
    forall id | 2 <= id <= a.book.count && id in a.book.pages ensures id in m && m[id] == a.book.pages[id] {
      assert PageAt(base, id) == shown[id];
    }
    HoldsFrame(a, m);
    assert base[0] == PageAt(base, 1);
  }

  /** Wherever the crash: any mixture of unsynced writes recovers to the trees before
      or the trees after, or, only while the journal of an earlier commit can come
      back, to the file before that; and if writes survive in order, every reopening
      succeeds and recovery, however often interrupted, gives one of the two. */
  ghost predicate BeforeOrAfter(d: Disk, a: Snapshot, z: Snapshot, older: seq<Image>) {
    && (forall file, j {:trigger FileSurvives(d, file), JournalSurvives(d, j)} :: FileSurvives(d, file) && JournalSurvives(d, j) ==>
          var r := Recovered(file, j); Stands(r, a) || Stands(r, z) || (d.undead.Some? && r == older))
    && (forall crashes {:trigger AfterCrashes(Left(d.file, Visible(d)), crashes)} ::
          var now := AfterCrashes(Left(d.file, Visible(d)), crashes);
          Openable(now.file) && (Stands(Recovered(now.file, now.journal), a) || Stands(Recovered(now.file, now.journal), z)))
  }

  lemma GuardedStands(d: Disk, base: seq<Image>, prev: seq<Image>, a: Snapshot, z: Snapshot, older: seq<Image>)
    requires Guarded(d, base, prev) && Openable(d.file) && Settled(base) && (Stands(base, a) || Stands(base, z))
    requires prev == older || Stands(prev, a) || Stands(prev, z)
    ensures BeforeOrAfter(d, a, z, older)
  {
    GuardedIsRecoverable(d, base, prev);
    forall file, j | FileSurvives(d, file) && JournalSurvives(d, j)
      ensures var r := Recovered(file, j); Stands(r, a) || Stands(r, z) || (d.undead.Some? && r == older) {
      assert Recovered(file, j) == base || Recovered(file, j) == if d.undead.Some? then prev else base;
    }
    forall crashes
      ensures
        var now := AfterCrashes(Left(d.file, Visible(d)), crashes);
        Openable(now.file) && (Stands(Recovered(now.file, now.journal), a) || Stands(Recovered(now.file, now.journal), z)) {
      CrashConverges(d, base, prev, crashes);
    }
  }

  /** All states of a run, and the state it ends in. */
  lemma RunStands(trace: seq<Disk>, start: nat, run: seq<Disk>, last: Disk, base: seq<Image>, prev: seq<Image>, base': seq<Image>, prev': seq<Image>,
                  a: Snapshot, z: Snapshot)
    requires start <= |trace| && trace[start..] == run + [last] && Sound(run, base, prev) && Settled(base) && Stands(base, a)
    requires Guarded(last, base', prev') && Openable(last.file) && Settled(base') && (Stands(base', a) || Stands(base', z))
    requires prev' == prev || Stands(prev', a) || Stands(prev', z)
    ensures forall k :: start <= k < |trace| ==> BeforeOrAfter(trace[k], a, z, prev)
  {
    forall k | start <= k < |trace| ensures BeforeOrAfter(trace[k], a, z, prev) {
      assert trace[k] == trace[start..][k - start];
      if k - start < |run| {
        GuardedStands(run[k - start], base, prev, a, z, prev);
      } else {
        GuardedStands(last, base', prev', a, z, prev);
      }
    }
  }

  lemma QuietRunStands(trace: seq<Disk>, start: nat, base: seq<Image>, prev: seq<Image>, a: Snapshot, z: Snapshot)
    requires start <= |trace| && Sound(trace[start..], base, prev) && Settled(base) && Stands(base, a)
    ensures forall k :: start <= k < |trace| ==> BeforeOrAfter(trace[k], a, z, prev)
  {
    forall k | start <= k < |trace| ensures BeforeOrAfter(trace[k], a, z, prev) {
      assert trace[k] == trace[start..][k - start];
      GuardedStands(trace[k], base, prev, a, z, prev);
    }
  }

  /** Between two operations of a transaction. */
  ghost predicate Underway(e: PageLayer.Engine, f: File, a: Snapshot)
    reads e, f, f.store
  {
    f.Valid() && Showing(e, f.Now()) && Saved(e, a, f.Now()) && Began(e.base, e.before, a)
  }

  lemma Arrived(e: PageLayer.Engine, f: File, a: Snapshot)
    requires Underway(e, f, a)
    ensures Showing(e, f.Now()) && Saved(e, a, f.Now()) && Holds(f.Now())
  {
  }

  method OneMore(e: PageLayer.Engine, f: File, op: Op, ghost a: Snapshot) returns (ok: bool, g: File)
    requires Underway(e, f, a)
    modifies e`disk, e`trace, e`journalOpen, e`journalled, e`cache, e`order, e`header
    ensures ok ==> Underway(e, g, a) && Performed(op, old(f.Now()), g.Now()) && Holds(g.Now())
    ensures ok ==> |g.roots| >= |old(f.roots)| && e.header.cookie == Bumped(old(e.header.cookie), |g.roots| - |old(f.roots)|)
    ensures !ok ==> Fails(op, old(f.Now())) && Ready(e) && e.journalOpen && AllFetched(e)
  {
    hide Performed, Fails, Showing, Saved, Began, AllFetched, Ready, File.Valid, PageStore.Valid, Bumped, Holds;
    g := Reopened(f);
    ok := Perform(e, g, op, a);
    if ok { Stored(g); }
  }

  method Start(e: PageLayer.Engine, ghost a: Snapshot) returns (f: File)
    requires e.Idle() && e.Unpinned() && e.capacity > 0 && Reads(e.base, a)
    modifies e`hooked, e`journalOpen, e`journalled, e`before, e`barrierPassed, e`start
    ensures fresh(f) && fresh(f.store) && Underway(e, f, a) && f.Now() == a && Holds(a) && Stands(e.base, a)
    ensures e.start == |e.trace| && e.header == e.base[0].head
  {
    f := Open(e, a);
    e.Begin();
    BeginsShowing(e, a);
  }

  /** A handle on the trees of the committed file. */
  method Open(e: PageLayer.Engine, ghost a: Snapshot) returns (f: File)
    requires e.Idle() && Reads(e.base, a)
    ensures fresh(f) && fresh(f.store) && f.Valid() && f.Now() == a
  {
    var file := e.disk.file;
    var s := new PageStore.Holding(Decoded(file), |file|, e.header.trunk, e.header.freeCount, a.book.free, Owned(a.trees));
    f := new File.Opened(s, file[0].rest.roots, a.trees);
  }

  /** An operation failed halfway: roll back. */
  method GiveUp(e: PageLayer.Engine, ghost a: Snapshot)
    requires Ready(e) && e.journalOpen && AllFetched(e) && Stands(e.base, a)
    modifies e
    ensures e.Idle() && e.Unpinned() && e.base == old(e.base) && e.start == old(e.start)
    ensures e.prev == old(e.prev) || e.prev == old(e.base)
    ensures e.start <= |e.trace| && forall k :: e.start <= k < |e.trace| ==> BeforeOrAfter(e.trace[k], a, a, old(e.prev))
  {
    ghost var run := e.Rollback();
    RunStands(e.trace, e.start, run, e.disk, e.base, old(e.prev), e.base, e.prev, a, a);
  }

  method Finish(e: PageLayer.Engine, ghost a: Snapshot, ghost z: Snapshot)
    requires Showing(e, z) && Saved(e, a, z) && Holds(z) && Stands(e.base, a)
    modifies e
    ensures e.Idle() && e.Unpinned() && e.start == old(e.start) && Stands(e.base, z) && e.base[0].head == old(e.header)
    ensures e.prev == old(e.prev) || e.prev == old(e.base)
    ensures e.start <= |e.trace| && forall k :: e.start <= k < |e.trace| ==> BeforeOrAfter(e.trace[k], a, z, old(e.prev))
  {
    ghost var first, shown := e.View(1), map id: PageId | 2 <= id <= z.book.count :: e.View(id);
    forall id | 2 <= id <= z.book.count ensures id in z.book.pages && PageOf(shown[id].rest) == Some(z.book.pages[id]) {
      assert ShownAt(e, z.book, id);
    }
    ghost var open := e.journalOpen;
    if !open { QuietRunStands(e.trace, e.start, e.base, e.prev, a, z); }
    var ok;
    ghost var run;
    ok, run := e.Commit();
    if open {
      CommitStores(e.base, z, e.header, first, shown);
      RunStands(e.trace, e.start, run, e.disk, old(e.base), old(e.prev), e.base, e.prev, a, z);
    }
  }

  /** The cookie has counted the trees that were made. */
  ghost predicate Counted(before: nat, a: Snapshot, after: nat, z: Snapshot) {
    |z.roots| >= |a.roots| && after == Bumped(before, |z.roots| - |a.roots|)
  }

  /** The operations, one after the other, until one fails halfway. */
  method RunAll(e: PageLayer.Engine, f: File, ops: seq<Op>, ghost a: Snapshot) returns (ok: bool, ghost history: seq<Snapshot>)
    requires Underway(e, f, a) && f.Now() == a && Holds(a)
    modifies e`disk, e`trace, e`journalOpen, e`journalled, e`cache, e`order, e`header
    ensures History(ops, history) && history[0] == a
    ensures ok ==> |history| == |ops| + 1 && Showing(e, history[|ops|]) && Saved(e, a, history[|ops|]) && Holds(history[|ops|])
    ensures ok ==> Counted(old(e.header.cookie), a, e.header.cookie, history[|ops|])
    ensures !ok ==> |history| <= |ops| && Fails(ops[|history| - 1], history[|history| - 1])
    ensures !ok ==> Ready(e) && e.journalOpen && AllFetched(e)
  {
    hide Underway, Showing, Saved, Performed, Fails, Ready, AllFetched, Filed, History;
    Begins(ops, a, Owned(a.trees));
    history := [a];
    var g, k := f, 0;
    while k < |ops|
      invariant 0 <= k <= |ops| && |history| == k + 1 && History(ops, history) && history[0] == a
      invariant Underway(e, g, a) && g.Now() == history[k] && Holds(history[k])
      invariant Counted(old(e.header.cookie), a, e.header.cookie, history[k])
      decreases |ops| - k
    {
      ok, g := OneMore(e, g, ops[k], a);
      if !ok {
        return;
      }
      Continues(ops, history, g.Now(), Owned(g.Now().trees));
      BumpedAgain(old(e.header.cookie), |history[k].roots| - |a.roots|, |g.roots| - |history[k].roots|);
      history := history + [g.Now()];
      k := k + 1;
    }
    Arrived(e, g, a);
    ok := true;
  }

  /** Any operations on any tables and indexes of a committed file, as one
      transaction: it commits, and the file holds exactly what the operations make of
      the trees, or an operation fails halfway, everything is rolled back, and the file
      holds what it held. A crash at any point of it leaves the one or the other. */
  method Transact(e: PageLayer.Engine, ops: seq<Op>, ghost a: Snapshot) returns (committed: bool, ghost history: seq<Snapshot>)
    requires e.Idle() && e.Unpinned() && e.capacity > 0 && Reads(e.base, a)
    modifies e
    ensures e.Idle() && e.Unpinned()
    ensures History(ops, history) && history[0] == a
    ensures committed ==> |history| == |ops| + 1 && Stands(e.base, history[|ops|])
    ensures committed ==> Counted(old(e.base[0].head.cookie), a, e.base[0].head.cookie, history[|ops|])
    ensures !committed ==> |history| <= |ops| && Fails(ops[|history| - 1], history[|history| - 1]) && e.base == old(e.base)
    ensures e.prev == old(e.prev) || e.prev == old(e.base)
    ensures
      var z := if committed then history[|ops|] else a;
      forall k :: |old(e.trace)| <= k < |e.trace| ==> BeforeOrAfter(e.trace[k], a, z, old(e.prev))
  {
    hide Underway, Showing, Saved, Holds, Stores, History, Fails, BeforeOrAfter, Ready, AllFetched, PageLayer.Engine.Idle;
    var f := Start(e, a);
    committed, history := RunAll(e, f, ops, a);
    if committed {
      Finish(e, a, history[|ops|]);
    } else {
      GiveUp(e, a);
    }
  }
}
