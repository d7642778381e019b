/** The page file as the b-trees see it: pages by number, a count of pages, and
    the one-level freelist threaded through the freed pages themselves.

    `used` is the ghost ledger of pages that somebody owns. `Valid` says that
    every page number from 1 to `pageCount` is owned exactly once or free exactly
    once, so a leak, a double free or a page with two owners cannot be stated. */
module Store {
  import opened Basics
  import opened Trees

  /** How often each page number occurs in a list. */
  ghost function Tally(ids: seq<PageId>): multiset<PageId> {
    if |ids| == 0 then multiset{} else multiset{ids[0]} + Tally(ids[1..])
  }

  lemma {:induction false} TallyAppend(a: seq<PageId>, b: seq<PageId>)
    ensures Tally(a + b) == Tally(a) + Tally(b)
    decreases |a|
  {
    if |a| == 0 {
      assert a + b == b;
    } else {
      assert (a + b)[1..] == a[1..] + b;
      TallyAppend(a[1..], b);
    }
  }

  lemma {:induction false} InTally(ids: seq<PageId>, x: PageId)
    ensures x in Tally(ids) <==> x in ids
    decreases |ids|
  {
    if |ids| > 0 { InTally(ids[1..], x); }
  }

  lemma TallyCut(ids: seq<PageId>, i: nat)
    requires i < |ids|
    ensures Tally(ids) == Tally(ids[..i]) + multiset{ids[i]} + Tally(ids[i + 1..])
    ensures Tally(ids[i..]) == multiset{ids[i]} + Tally(ids[i + 1..])
  {
    assert ids == ids[..i] + ids[i..];
    TallyAppend(ids[..i], ids[i..]);
    assert ids[i..][1..] == ids[i + 1..];
  }

  /** The link to the first page of a list; 0 means "none". */
  function Head(ids: seq<PageId>): PageId {
    if |ids| > 0 then ids[0] else 0
  }

  /** Each page in `ids` points at the next, and the last one at nothing. */
  ghost predicate OverflowLinks<X>(m: map<PageId, Page<X>>, ids: seq<PageId>) {
    |ids| == 0 || (ids[0] in m && m[ids[0]] == OverflowPage(Head(ids[1..])) && OverflowLinks(m, ids[1..]))
  }

  ghost predicate FreeLinks<X>(m: map<PageId, Page<X>>, ids: seq<PageId>) {
    |ids| == 0 || (ids[0] in m && m[ids[0]] == FreePage(Head(ids[1..])) && FreeLinks(m, ids[1..]))
  }

  lemma {:induction false} FreeLinksFrame<X>(m: map<PageId, Page<X>>, m': map<PageId, Page<X>>, ids: seq<PageId>)
    requires FreeLinks(m, ids) && Agree(m, m', Tally(ids))
    ensures FreeLinks(m', ids)
    decreases |ids|
  {
    if |ids| > 0 {
      assert Same(m, m', ids[0]);
      AgreeSub(m, m', Tally(ids), Tally(ids[1..]));
      FreeLinksFrame(m, m', ids[1..]);
    }
  }

  lemma {:induction false} OverflowLinksFrame<X>(m: map<PageId, Page<X>>, m': map<PageId, Page<X>>, ids: seq<PageId>)
    requires OverflowLinks(m, ids) && Agree(m, m', Tally(ids))
    ensures OverflowLinks(m', ids)
    decreases |ids|
  {
    if |ids| > 0 {
      assert Same(m, m', ids[0]);
      AgreeSub(m, m', Tally(ids), Tally(ids[1..]));
      OverflowLinksFrame(m, m', ids[1..]);
    }
  }

  /** A chain and everybody's pages survive what leaves them alone. */
  lemma ChainKept<X>(m: map<PageId, Page<X>>, m1: map<PageId, Page<X>>, m2: map<PageId, Page<X>>,
                     used: multiset<PageId>, chain: seq<PageId>, keep: multiset<PageId>)
    requires keep <= used && Agree(m, m1, used) && Agree(m1, m2, keep + Tally(chain)) && OverflowLinks(m1, chain)
    ensures Agree(m, m2, keep) && OverflowLinks(m2, chain)
  {
    AgreeSub(m, m1, used, keep);
    KeepsChain(m1, m2, chain, keep);
    AgreeTrans(m, m1, m2, keep);
  }

  lemma KeepsChain<X>(m: map<PageId, Page<X>>, m': map<PageId, Page<X>>, chain: seq<PageId>, keep: multiset<PageId>)
    requires Agree(m, m', keep + Tally(chain)) && OverflowLinks(m, chain)
    ensures Agree(m, m', keep) && OverflowLinks(m', chain)
  {
    AgreeSub(m, m', keep + Tally(chain), keep);
    AgreeSub(m, m', keep + Tally(chain), Tally(chain));
    OverflowLinksFrame(m, m', chain);
  }

  lemma Shuffle(a: multiset<PageId>, b: multiset<PageId>, c: multiset<PageId>, d: multiset<PageId>)
    ensures a + (b + c + d) == a + ((b + d) + c)
  {
  }

  ghost function Owners(used: multiset<PageId>, free: seq<PageId>, x: PageId): nat {
    used[x] + Tally(free)[x]
  }

  /** Page 1, the header page, is nobody's; every other page of the file is owned
      once or free once, and there are no others. */
  ghost predicate Ledger(used: multiset<PageId>, free: seq<PageId>, n: nat) {
    n >= 1 && forall x: PageId {:trigger Owners(used, free, x)} :: Owners(used, free, x) == if 2 <= x <= n then 1 else 0
  }

  lemma LedgerPop(used: multiset<PageId>, free: seq<PageId>, n: nat)
    requires Ledger(used, free, n) && |free| > 0
    ensures Ledger(used + multiset{free[0]}, free[1..], n) && free[0] !in used && 2 <= free[0] <= n
  {
    assert Owners(used, free, free[0]) == 1;
    forall x: PageId ensures Owners(used + multiset{free[0]}, free[1..], x) == Owners(used, free, x) {}
  }

  lemma LedgerGrow(used: multiset<PageId>, n: nat)
    requires Ledger(used, [], n)
    ensures Ledger(used + multiset{n + 1}, [], n + 1) && n + 1 !in used
  {
    var none: seq<PageId> := [];
    var more := used + multiset{n + 1};
    assert Owners(used, none, n + 1) == 0;
    forall x: PageId ensures Owners(more, none, x) == if 2 <= x <= n + 1 then 1 else 0 {
      assert Owners(used, none, x) == if 2 <= x <= n then 1 else 0;
    }
  }

  lemma LedgerPush(used: multiset<PageId>, free: seq<PageId>, n: nat, id: PageId)
    requires Ledger(used, free, n) && id in used
    ensures Ledger(used - multiset{id}, [id] + free, n)
    ensures id !in Tally(free) && id !in free && id !in used - multiset{id} && 2 <= id <= n
  {
    assert Owners(used, free, id) == if 2 <= id <= n then 1 else 0;
    assert ([id] + free)[1..] == free;
    InTally(free, id);
    forall x: PageId ensures Owners(used - multiset{id}, [id] + free, x) == Owners(used, free, x) {}
  }

  lemma FirstLedger()
    ensures Ledger(multiset{}, [], 1)
  {
    forall x: PageId ensures Owners(multiset{}, [], x) == if 2 <= x <= 1 then 1 else 0 {}
  }

  // ---- What happens to the file, step by step ----

  /** The page file as a value. */
  datatype Book<X> = Book(pages: map<PageId, Page<X>>, free: seq<PageId>, count: nat)

  /** The three things the tree code does to the file. */
  datatype Move<X> = Took | Wrote(id: PageId, body: Page<X>) | Freed(id: PageId)

  ghost predicate CanMove<X>(b: Book<X>, m: Move<X>) {
    m.Took? || (2 <= m.id <= b.count && m.id !in b.free)
  }

  ghost function Moved<X>(b: Book<X>, m: Move<X>): Book<X> {
    match m
    case Took => if |b.free| > 0 then b.(free := b.free[1..]) else Book(b.pages[b.count + 1 := FreePage(0)], [], b.count + 1)
    case Wrote(id, body) => b.(pages := b.pages[id := body])
    case Freed(id) => Book(b.pages[id := FreePage(Head(b.free))], [id] + b.free, b.count)
  }

  /** These moves, in this order, lead from one file to the other. */
  ghost predicate Leads<X>(a: Book<X>, moves: seq<Move<X>>, b: Book<X>)
    decreases |moves|
  {
    if |moves| == 0 then a == b else CanMove(a, moves[0]) && Leads(Moved(a, moves[0]), moves[1..], b)
  }

  lemma {:induction false} LeadsOn<X>(a: Book<X>, moves: seq<Move<X>>, b: Book<X>, m: Move<X>)
    requires Leads(a, moves, b) && CanMove(b, m)
    ensures Leads(a, moves + [m], Moved(b, m))
    decreases |moves|
  {
    if |moves| == 0 {
      assert (moves + [m])[1..] == [];
    } else {
      LeadsOn(Moved(a, moves[0]), moves[1..], b, m);
      assert (moves + [m])[1..] == moves[1..] + [m];
    }
  }

  class PageStore<X> {
    var pages: map<PageId, Page<X>>
    var pageCount: nat
    var trunk: PageId
    var freeCount: nat
    ghost var free: seq<PageId>
    ghost var used: multiset<PageId>
    /** The file when it was opened, and what has happened to it since. */
    ghost const origin: Book<X>
    var log: seq<Move<X>>

    /** The file now. */
    ghost function Now(): Book<X>
      reads this
    {
      Book(pages, free, pageCount)
    }

    ghost predicate Valid()
      reads this
    {
      && Ledger(used, free, pageCount)
      && freeCount == |free|
      && trunk == Head(free)
      && FreeLinks(pages, free)
      && Leads(origin, log, Now())
    }

    /** A new file: the header page and nothing else. */
    constructor ()
      ensures Valid() && used == multiset{} && free == [] && pageCount == 1
    {
      pages, pageCount, trunk, freeCount, log := map[], 1, 0, 0, [];
      free, used := [], multiset{};
      origin := Book(map[], [], 1);
      new;
      FirstLedger();
    }

    /** A file that already holds these pages. */
    constructor Holding(m: map<PageId, Page<X>>, n: nat, first: PageId, count: nat, ghost list: seq<PageId>, ghost owned: multiset<PageId>)
      requires Ledger(owned, list, n) && FreeLinks(m, list) && first == Head(list) && count == |list|
      ensures Valid() && pages == m && pageCount == n && used == owned && free == list && origin == Now() && log == []
    {
      pages, pageCount, trunk, freeCount, log := m, n, first, count, [];
      free, used := list, owned;
      origin := Book(m, list, n);
    }

    /** Take the head of the freelist, or grow the file by one page. */
    method AllocatePage() returns (id: PageId)
      requires Valid()
      modifies this
      ensures Valid() && id > 0 && id in pages
      ensures id !in old(used) && used == old(used) + multiset{id}
      ensures old(free) != [] ==>
                id == old(free)[0] && free == old(free)[1..] && pageCount == old(pageCount) && pages == old(pages)
      ensures old(free) == [] ==>
                id == pageCount == old(pageCount) + 1 && free == [] && pages == old(pages)[id := FreePage(0)]
      ensures Agree(old(pages), pages, old(used))
    {
      LeadsOn(origin, log, Now(), Took);
      log := log + [Took];
      if freeCount > 0 {
        LedgerPop(used, free, pageCount);
        id := trunk;
        AgreeRefl(pages, used);
        trunk := pages[id].next;
        freeCount := freeCount - 1;
        free := free[1..];
      } else {
        LedgerGrow(used, pageCount);
        pageCount := pageCount + 1;
        id := pageCount;
        AgreeWrite(pages, id, FreePage(0), used);
        pages := pages[id := FreePage(0)];
      }
      used := used + multiset{id};
    }

    /** Push an owned page on the freelist, overwriting it with the link. The
        header page is not owned, so it is never freed. */
    method Free(id: PageId)
      requires Valid() && id in used
      modifies this
      ensures Valid() && used == old(used) - multiset{id} && free == [id] + old(free)
      ensures 2 <= id <= pageCount == old(pageCount)
      ensures pages == old(pages)[id := FreePage(old(trunk))]
      ensures Agree(old(pages), pages, used)
    {
      LedgerPush(used, free, pageCount, id);
      LeadsOn(origin, log, Now(), Freed(id));
      log := log + [Freed(id)];
      AgreeWrite(pages, id, FreePage(trunk), used - multiset{id});
      AgreeWrite(pages, id, FreePage(trunk), Tally(free));
      FreeLinksFrame(pages, pages[id := FreePage(trunk)], free);
      pages := pages[id := FreePage(trunk)];
      trunk := id;
      freeCount := freeCount + 1;
      used := used - multiset{id};
      free := [id] + free;
      assert free[1..] == old(free);
    }

    /** Overwrite an owned page. */
    method Write(id: PageId, body: Page<X>)
      requires Valid() && id in used
      modifies `pages, `log
      ensures Valid() && pages == old(pages)[id := body]
      ensures Agree(old(pages), pages, used - multiset{id})
    {
      LedgerPush(used, free, pageCount, id);
      LeadsOn(origin, log, Now(), Wrote(id, body));
      log := log + [Wrote(id, body)];
      AgreeWrite(pages, id, body, Tally(free));
      AgreeWrite(pages, id, body, used - multiset{id});
      FreeLinksFrame(pages, pages[id := body], free);
      pages := pages[id := body];
    }

    /** Allocate a page and give it its first contents. */
    method NewPage(body: Page<X>) returns (id: PageId)
      requires Valid()
      modifies this
      ensures Valid() && id !in old(used) && used == old(used) + multiset{id}
      ensures id in pages && pages[id] == body
      ensures Agree(old(pages), pages, old(used))
    {
      id := AllocatePage();
      ghost var before := pages;
      Write(id, body);
      AgreeSub(before, pages, used - multiset{id}, old(used));
      AgreeTrans(old(pages), before, pages, old(used));
    }

    /** Allocate every page of the chain first, then link them: a page must know
        the number of the page after it before it is written. */
    method WriteOverflowChain(n: nat) returns (chain: seq<PageId>)
      requires Valid()
      modifies this
      ensures Valid() && |chain| == n && OverflowLinks(pages, chain)
      ensures used == old(used) + Tally(chain)
      ensures Agree(old(pages), pages, old(used))
    {
      hide Valid;
      chain := [];
      while |chain| < n
        invariant Valid() && |chain| <= n
        invariant used == old(used) + Tally(chain)
        invariant Agree(old(pages), pages, old(used))
      {
        ghost var before, owned := pages, used;
        var id := AllocatePage();
        assert Agree(old(pages), pages, old(used)) by {
          AgreeSub(before, pages, owned, old(used));
          AgreeTrans(old(pages), before, pages, old(used));
        }
        assert Tally(chain + [id]) == Tally(chain) + multiset{id} by { TallyAppend(chain, [id]); }
        chain := chain + [id];
      }
      ghost var owned := used;
      var i := n;
      while i > 0
        invariant 0 <= i <= n && Valid() && used == owned == old(used) + Tally(chain)
        invariant OverflowLinks(pages, chain[i..])
        invariant Agree(old(pages), pages, old(used))
      {
        i := i - 1;
        ghost var before := pages;
        LinkOne(chain, i, old(used));
        assert Agree(old(pages), pages, old(used)) by { AgreeTrans(old(pages), before, pages, old(used)); }
      }
      assert chain[0..] == chain;
    }

    /** Write the i-th page of a chain whose later pages are already linked. */
    method LinkOne(chain: seq<PageId>, i: nat, ghost rest: multiset<PageId>)
      requires Valid() && i < |chain| && used == rest + Tally(chain) && OverflowLinks(pages, chain[i + 1..])
      modifies `pages, `log
      ensures Valid() && OverflowLinks(pages, chain[i..]) && Agree(old(pages), pages, rest)
    {
      TallyCut(chain, i);
      assert chain[i..][1..] == chain[i + 1..];
      Write(chain[i], OverflowPage(if i + 1 < |chain| then chain[i + 1] else 0));
      assert OverflowLinks(pages, chain[i + 1..]) by {
        AgreeSub(old(pages), pages, used - multiset{chain[i]}, Tally(chain[i + 1..]));
        OverflowLinksFrame(old(pages), pages, chain[i + 1..]);
      }
      AgreeSub(old(pages), pages, used - multiset{chain[i]}, rest);
    }

    /** Follow the links, freeing each page once its link has been read. */
    method FreeOverflowChain(first: PageId, ghost chain: seq<PageId>, ghost kept: multiset<PageId>)
      requires Valid() && OverflowLinks(pages, chain) && used == kept + Tally(chain) && first == Head(chain)
      modifies this
      ensures Valid() && used == kept && pageCount == old(pageCount)
      ensures Agree(old(pages), pages, kept)
    {
      var current := first;
      ghost var rest := chain;
      AgreeRefl(pages, kept);
      while current != 0
        invariant Valid() && pageCount == old(pageCount)
        invariant current == Head(rest) && OverflowLinks(pages, rest) && used == kept + Tally(rest)
        invariant Agree(old(pages), pages, kept)
        decreases |rest|
      {
        ghost var before := pages;
        current := FreeFirst(current, rest, kept);
        assert Agree(old(pages), pages, kept) by { AgreeTrans(old(pages), before, pages, kept); }
        rest := rest[1..];
      }
      if |rest| > 0 { LedgerPush(used, free, pageCount, rest[0]); }
    }

    /** Free the first page of a chain and return the link it held. */
    method FreeFirst(id: PageId, ghost chain: seq<PageId>, ghost kept: multiset<PageId>) returns (next: PageId)
      requires Valid() && OverflowLinks(pages, chain) && used == kept + Tally(chain) && |chain| > 0 && id == chain[0]
      modifies this
      ensures Valid() && used == kept + Tally(chain[1..]) && pageCount == old(pageCount)
      ensures Agree(old(pages), pages, kept)
      ensures next == Head(chain[1..]) && OverflowLinks(pages, chain[1..])
    {
      LedgerPush(used, free, pageCount, id);
      next := pages[id].next;
      Free(id);
      AgreeSub(old(pages), pages, used, Tally(chain[1..]));
      AgreeSub(old(pages), pages, used, kept);
      OverflowLinksFrame(old(pages), pages, chain[1..]);
    }
  }
}
