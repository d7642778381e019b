/** Pager, buffer pool and transaction: the page cache over the database file, and
    the one writer that changes it. Every write to the disk goes through `Put`,
    which keeps a ghost trace of all states the disk has been in, so that a claim
    about the trace is a claim about a crash at any point. */
module Engine {
  import opened Basics
  import opened Durability
  import opened Recovery
  import Trees

  /** A cached page. */
  datatype Frame = Frame(data: Image, pins: nat, dirty: bool)

  datatype Fetch = Page(data: Image) | OutOfRange | Exhausted

  /** Every page of the base that the transaction may have changed has exactly one
      record; before the barrier the journal has no magic, after it it is certain. */
  ghost predicate Logging(d: Disk, base: seq<Image>, prev: seq<Image>, open: bool, passed: bool, journalled: set<PageId>) {
    && (if passed then Busy(d, base) && open
        else Quiet(d, base, prev) && !d.journal.armed && if open then d.stage.Loose? && Undoes(d.journal, base) else d.stage.Absent? && d.journal == NO_JOURNAL)
    && (forall id :: id in journalled && id <= |base| ==> open && Recorded(d.journal.records, id))
    && (open ==> forall i :: 0 <= i < |d.journal.records| ==> d.journal.records[i].page in journalled)
  }

  /** A valid journal covers the file; without one the file is untouched. */
  ghost predicate Standing(d: Disk, base: seq<Image>, prev: seq<Image>) {
    if d.journal.armed then Busy(d, base)
    else Quiet(d, base, prev) && (d.stage.Absent? || d.stage.Loose?)
  }

  lemma OpenJournal(d: Disk, base: seq<Image>, prev: seq<Image>, journalled: set<PageId>)
    requires Logging(d, base, prev, false, false, journalled)
    ensures Logging(BeginJournal(d, |base|), base, prev, true, false, journalled)
  {
  }

  lemma SaveOne(d: Disk, base: seq<Image>, prev: seq<Image>, journalled: set<PageId>, id: PageId)
    requires Logging(d, base, prev, true, false, journalled) && id !in journalled && 1 <= id <= |base|
    ensures Logging(AppendRecord(d, Record(id, PageAt(d.file, id), true)), base, prev, true, false, journalled + {id})
  {
    var d' := AppendRecord(d, Record(id, PageAt(d.file, id), true));
    JournalSteps(d, base, prev, Record(id, PageAt(d.file, id), true));
    forall x | x in journalled + {id} && x <= |base| ensures Recorded(d'.journal.records, x) {
      if x == id {
        assert d'.journal.records[|d.journal.records|].page == id;
      } else {
        var i :| 0 <= i < |d.journal.records| && d.journal.records[i].page == x;
        assert d'.journal.records[i].page == x;
      }
    }
  }

  /** None of these states can fail to reopen after a power loss. */
  ghost predicate Steady(t: seq<Disk>) {
    forall i :: 0 <= i < |t| ==> HeaderHolds(t[i])
  }

  lemma SteadyOn(t: seq<Disk>, start: nat, d: Disk)
    requires start <= |t| && Steady(t[start..]) && HeaderHolds(d)
    ensures Steady((t + [d])[start..])
  {
    assert (t + [d])[start..] == t[start..] + [d];
  }

  /** Page 1 written and not yet synced is the one state in which a power loss can
      leave a file that does not open. */
  lemma OnlyUnsynced(t: seq<Disk>, w: Disk)
    requires Steady(t) && 1 in w.touched && |w.durable| >= 1 && Openable(w.file)
    ensures ReopensBut(t + [w, SyncDb(w), Unlink(SyncDb(w))], |t|)
  {
    var all := t + [w, SyncDb(w), Unlink(SyncDb(w))];
    forall i | 0 <= i < |all| ensures Reopens(all[i]) <==> i != |t| {
      if i < |t| { assert all[i] == t[i]; }
      ReopensIff(all[i]);
    }
  }

  lemma RiskOnce(t: seq<Disk>, start: nat, w: Disk)
    requires start < |t| && Steady(t[start..|t| - 1]) && t[|t| - 1] == w
    requires 1 in w.touched && |w.durable| >= 1 && Openable(w.file)
    ensures
      var t' := t + [SyncDb(w), Unlink(SyncDb(w))];
      ReopensBut(t'[start..], |t'| - start - 3) && t'[|t'| - 3] == w
  {
    OnlyUnsynced(t[start..|t| - 1], w);
    var t' := t + [SyncDb(w), Unlink(SyncDb(w))];
    assert t'[start..] == t[start..|t| - 1] + [w, SyncDb(w), Unlink(SyncDb(w))];
  }

  lemma SteadyReopens(t: seq<Disk>)
    requires Steady(t)
    ensures ReopensBut(t, -1)
  {
    forall i | 0 <= i < |t| ensures Reopens(t[i]) { ReopensIff(t[i]); }
  }

  ghost predicate NoRepeats(s: seq<PageId>) {
    forall i, j :: 0 <= i < j < |s| ==> s[i] != s[j]
  }

  /** Drop page numbers from the recency order. */
  function Kept(order: seq<PageId>, gone: set<PageId>): (r: seq<PageId>)
    ensures forall x :: x in r <==> x in order && x !in gone
    ensures NoRepeats(order) ==> NoRepeats(r)
  {
    if |order| == 0 then []
    else
      var rest := Kept(order[1..], gone);
      if order[0] in gone then rest
      else
        assert NoRepeats(order) ==> order[0] !in order[1..];
        assert NoRepeats(order) ==> NoRepeats(order[1..]);
        [order[0]] + rest
  }

  lemma {:induction false} KeptAll(order: seq<PageId>, gone: set<PageId>)
    requires forall id :: id in order ==> id !in gone
    ensures Kept(order, gone) == order
  {
    if |order| > 0 { KeptAll(order[1..], gone); }
  }

  /** Dropping page numbers leaves the others in their order. */
  lemma {:induction false} KeptInOrder(order: seq<PageId>, gone: set<PageId>, i: nat, j: nat) returns (a: nat, b: nat)
    requires i <= j < |order| && order[i] !in gone && order[j] !in gone
    ensures a <= b < |Kept(order, gone)| && (i < j ==> a < b)
    ensures Kept(order, gone)[a] == order[i] && Kept(order, gone)[b] == order[j]
  {
    if i > 0 {
      a, b := KeptInOrder(order[1..], gone, i - 1, j - 1);
      if order[0] !in gone { a, b := a + 1, b + 1; }
    } else if j > 0 {
      var _, d := KeptInOrder(order[1..], gone, j - 1, j - 1);
      a, b := 0, d + 1;
    } else {
      a, b := 0, 0;
    }
  }

  /** The page becomes the most recently used one. */
  function Touched(order: seq<PageId>, id: PageId): (r: seq<PageId>)
    ensures |r| > 0 && r[|r| - 1] == id
    ensures forall x :: x in r <==> x in order || x == id
    ensures NoRepeats(order) ==> NoRepeats(r)
  {
    var rest := Kept(order, {id});
    var r := rest + [id];
    assert forall i :: 0 <= i < |rest| ==> r[i] in rest;
    r
  }

  /** The page number in a free page's first bytes; a page of zeros ends the list. */
  function LinkOf(c: Content): PageId {
    if c.Body? && c.page.FreePage? then c.page.next else 0
  }

  function Link(next: PageId): (c: Content)
    ensures LinkOf(c) == next
  {
    if next == 0 then Zeros else Body(Trees.FreePage(next))
  }

  class Engine {
    var disk: Disk
    /** The header in memory. */
    var header: Header
    var cache: map<PageId, Frame>
    /** Least recently used first. */
    var order: seq<PageId>
    const capacity: nat
    /** The transaction named by the pager's and the pool's hook, if any. */
    var hooked: bool
    var journalOpen: bool
    var journalled: set<PageId>
    var before: nat
    var barrierPassed: bool
    /** The committed database, and the one before the last commit. */
    ghost var base: seq<Image>
    ghost var prev: seq<Image>
    /** Every state of the disk; `start` is where the transaction began. */
    ghost var trace: seq<Disk>
    ghost var start: nat

    /** What a reader sees: the cached bytes, else the file's. */
    ghost function View(id: PageId): Image
      reads `cache, `disk
    {
      if id in cache then cache[id].data else PageAt(disk.file, id)
    }

    /** The cache is transparent: clean frames mirror the file. */
    ghost predicate PoolOk()
      reads `cache, `order, `disk
    {
      && NoRepeats(order) && (forall id :: id in order <==> id in cache)
      && (forall id :: id in cache ==> id >= 1)
      && (forall id :: id in cache && !cache[id].dirty ==> cache[id].data == PageAt(disk.file, id))
    }

    /** No page in the cache differs from the file. */
    ghost predicate AllClean()
      reads `cache
    {
      forall id :: id in cache ==> !cache[id].dirty
    }

    ghost predicate InRange()
      reads `cache, `header
    {
      forall id :: id in cache ==> id <= header.pageCount
    }

    /** Between transactions. */
    ghost predicate Idle()
      reads `cache, `order, `disk, `header, `hooked, `base, `prev
    {
      && PoolOk() && AllClean() && InRange() && !hooked && Settled(base)
      && Quiet(disk, base, prev) && disk.stage.Absent? && disk.journal == NO_JOURNAL && header == base[0].head
    }

    /** Whatever has been done to the file can be undone, and so could everything
        that was done to it since the run began. */
    ghost predicate Undoable()
      reads `base, `disk, `prev, `start, `trace
    {
      && Settled(base) && Standing(disk, base, prev) && Openable(disk.file)
      && start <= |trace| && Sound(trace[start..], base, prev)
    }

    /** Inside a transaction, at any point of it. */
    ghost predicate Writing()
      reads this
    {
      && hooked && before == |base| && Logging(disk, base, prev, journalOpen, barrierPassed, journalled)
      && Undoable() && PoolOk() && before <= header.pageCount
      && (forall id :: id in cache && id <= before && id !in journalled ==> !cache[id].dirty)
      && (!barrierPassed ==> Steady(trace[start..]))
    }

    /** No page is in use. */
    ghost predicate Unpinned()
      reads `cache
    {
      forall id :: id in cache ==> cache[id].pins == 0
    }

    /** Since the transaction began page 1 has not been written. */
    ghost predicate Unwritten()
      reads `start, `trace, `disk, `base
    {
      start <= |trace| && Steady(trace[start..]) && disk.durable == base && 1 !in disk.touched
    }

    /** Page 1 has been written just now. */
    ghost predicate Written()
      reads `start, `trace, `disk, `base
    {
      && start < |trace| && Steady(trace[start..|trace| - 1]) && trace[|trace| - 1] == disk
      && disk.durable == base && 1 in disk.touched
    }

    /** Every page the transaction added is in the cache, still to be written. */
    ghost predicate Grown()
      reads `cache, `header, `before
    {
      InRange() && forall id :: before < id <= header.pageCount ==> id in cache && cache[id].dirty
    }

    /** Open a database after a crash, with whatever the crash left. The file has
        passed the length check. Recovery comes before the first page is cached. */
    constructor Reopen(file: seq<Image>, j: Option<Journal>, cap: nat, ghost b: seq<Image>)
      requires Openable(file) && Settled(b) && Found(file, j, b)
      ensures Idle() && base == b && disk.file == b && trace == RecoveryTrace(Booted(file, j)) && cache == map[] && capacity == cap
      ensures !hooked && !journalOpen && !barrierPassed && journalled == {} && before == 0 && order == []
    {
      disk := Booted(file, j);
      header := file[0].head;
      cache, order, capacity := map[], [], cap;
      hooked, journalOpen, barrierPassed := false, false, false;
      journalled, before := {}, 0;
      base, prev, trace, start := b, b, [Booted(file, j)], 0;
      new;
      RecoverIfNeeded();
    }

    /** Roll back a hot journal: replay, truncate, sync, unlink, in this order. One
        that never became valid is only deleted. */
    method RecoverIfNeeded()
      requires Openable(disk.file) && Settled(base) && cache == map[] && order == [] && prev == base && !hooked && start == 0
      requires header == disk.file[0].head && trace == [disk]
      requires Found(disk.file, Visible(disk), base) && disk == Booted(disk.file, Visible(disk))
      modifies this
      ensures Idle() && base == old(base) && disk.file == base && trace == RecoveryTrace(old(disk)) && cache == map[]
      ensures unchanged(`hooked, `journalOpen, `barrierPassed, `journalled, `before, `order)
    {
      if disk.stage.Absent? {
        return;
      }
      if !Hot(disk.journal) {
        Put(Unlink(disk));
        return;
      }
      RollBackHot();
    }

    method RollBackHot()
      requires Undoable() && cache == map[] && order == [] && prev == base && !hooked && trace == [disk] && disk.stage.Armed? && Hot(disk.journal)
      modifies `disk, `trace, `prev, `header
      ensures Idle() && disk.file == base && trace == RecoveryTrace(old(disk))
    {
      Replay();
      ghost var run := CutBack(disk.journal.before);
      header := disk.file[0].head;
    }

    method Put(d: Disk)
      modifies `disk, `trace
      ensures disk == d && trace == old(trace) + [d]
    {
      disk := d;
      trace := trace + [d];
    }

    // ---- The pool ----

    /** Drop the least recently used page that may go. A dirty page is written back
        first, but never while a transaction is hooked; with only such pages left
        the pool grows instead. False: every page is pinned. */
    method EvictOne() returns (ok: bool, ghost at: nat)
      requires PoolOk()
      modifies `cache, `order, `disk, `trace
      ensures PoolOk() && forall id :: View(id) == old(View(id))
      ensures hooked || old(AllClean()) ==> disk == old(disk) && trace == old(trace)
      ensures at <= |old(order)| && forall k :: 0 <= k < at ==> Stays(old(cache), old(order)[k])
      ensures at < |old(order)| ==> ok && !Stays(old(cache), old(order)[at]) && cache == old(cache) - {old(order)[at]}
      ensures at == |old(order)| ==> cache == old(cache)
      ensures order == Remaining(old(order), old(cache), cache)
      ensures forall id :: id in cache ==> id in old(cache) && cache[id] == old(cache)[id]
      ensures forall id :: id in old(cache) && (old(cache)[id].pins > 0 || (hooked && old(cache)[id].dirty)) ==> id in cache
      ensures !ok <==> AllPinned(old(cache))
    {
      var held := false;
      var i := 0;
      while i < |order|
        invariant 0 <= i <= |order| && cache == old(cache) && order == old(order) && disk == old(disk) && trace == old(trace)
        invariant forall k :: 0 <= k < i ==> Stays(cache, order[k])
        invariant !held ==> forall k :: 0 <= k < i ==> order[k] in cache && cache[order[k]].pins > 0
        invariant held ==> !AllPinned(cache)
      {
        var id := order[i];
        var frame := cache[id];
        if frame.pins > 0 {
          i := i + 1;
          continue;
        }
        if frame.dirty && hooked {
          held := true;
          i := i + 1;
          continue;
        }
        Drop(id);
        assert old(cache).Keys - cache.Keys == {id};
        return true, i;
      }
      NobodyLeft(order, cache);
      return held, i;
    }

    /** Let an unpinned page go, writing it back first if it is dirty. */
    method Drop(id: PageId)
      requires PoolOk() && id in cache
      modifies `cache, `order, `disk, `trace
      ensures PoolOk() && forall x :: View(x) == old(View(x))
      ensures cache == old(cache) - {id} && (!old(cache)[id].dirty ==> disk == old(disk) && trace == old(trace))
      ensures order == Kept(old(order), {id})
    {
      if cache[id].dirty {
        Put(WriteDb(disk, id, cache[id].data));
      }
      cache := cache - {id};
      order := Kept(order, {id});
    }

    method MakeRoom() returns (ok: bool)
      requires PoolOk()
      modifies `cache, `order, `disk, `trace
      ensures PoolOk() && forall id :: View(id) == old(View(id))
      ensures hooked || old(AllClean()) ==> disk == old(disk) && trace == old(trace)
      ensures forall id :: id in cache ==> id in old(cache) && cache[id] == old(cache)[id]
      ensures forall id :: id in old(cache) && (old(cache)[id].pins > 0 || (hooked && old(cache)[id].dirty)) ==> id in cache
      ensures !ok <==> AllPinned(old(cache))
      ensures |cache| == |old(cache)| - if HasSpare(old(cache)) then 1 else 0
      ensures !hooked && ok ==> HasSpare(old(cache))
      ensures order == Remaining(old(order), old(cache), cache)
    {
      ghost var at;
      ghost var c, ids := cache, order;
      ok, at := EvictOne();
      Evicted(c, cache, ids, at);
      assert !hooked && ok ==> exists id :: id in c && !Stays(c, id);
    }

    lemma Evicted(c: map<PageId, Frame>, c': map<PageId, Frame>, ids: seq<PageId>, at: nat)
      requires (forall id :: id in ids <==> id in c) && at <= |ids| && forall k :: 0 <= k < at ==> Stays(c, ids[k])
      requires if at < |ids| then !Stays(c, ids[at]) && c' == c - {ids[at]} else c' == c
      ensures |c'| == |c| - if HasSpare(c) then 1 else 0
    {
      if at < |ids| {
        assert ids[at] in c && !Stays(c, ids[at]);
        OneFewer(c, ids[at]);
      } else {
        forall id | id in c ensures Stays(c, id) { var k :| 0 <= k < |ids| && ids[k] == id; }
      }
    }

    /** Some page may go. */
    ghost predicate HasSpare(c: map<PageId, Frame>)
      reads `hooked
    {
      exists id :: id in c && !Stays(c, id)
    }

    /** A page that eviction must leave: pinned, or changed by a transaction. */
    ghost predicate Stays(c: map<PageId, Frame>, id: PageId)
      reads this`hooked
    {
      id in c && (c[id].pins > 0 || (hooked && c[id].dirty))
    }

    /** A page that is cached takes no room; another one takes the place of a page that
        may go, if the pool is full. So without a transaction the pool keeps to its
        capacity, and within one it grows only over pages that must stay. */
    ghost function Growth(c: map<PageId, Frame>, id: PageId): nat
      reads `hooked
    {
      if id in c || (|c| >= capacity && HasSpare(c)) then 0 else 1
    }

    /** Pin a page, reading it from the file if it is not cached. */
    method GetPage(id: PageId) returns (r: Fetch)
      requires PoolOk()
      modifies `cache, `order, `disk, `trace
      ensures PoolOk() && forall x :: View(x) == old(View(x))
      ensures hooked || old(AllClean()) ==> disk == old(disk) && trace == old(trace)
      ensures r.Page? ==> r.data == View(id) && id in cache && |order| > 0 && order[|order| - 1] == id
      ensures
        var left := Remaining(old(order), old(cache), cache);
        order == if r.Page? then Touched(left, id) else left
      ensures r.Page? ==> cache[id].pins == 1 + (if id in old(cache) then old(cache)[id].pins else 0)
      ensures r.Page? ==> cache[id].dirty == (id in old(cache) && old(cache)[id].dirty)
      ensures r.Page? && id !in old(cache) ==> 1 <= id <= header.pageCount
      ensures r.OutOfRange? ==> id !in old(cache) && !(1 <= id <= header.pageCount)
      ensures r.Exhausted? <==> id !in old(cache) && |old(cache)| >= capacity && AllPinned(old(cache))
      ensures !hooked && |old(cache)| <= capacity ==> |cache| <= capacity
      ensures r.Page? ==> |cache| == |old(cache)| + Growth(old(cache), id)
      ensures forall x :: x in cache && !(r.Page? && x == id) ==> x in old(cache) && cache[x] == old(cache)[x]
      ensures forall x :: x in old(cache) && (old(cache)[x].pins > 0 || (hooked && old(cache)[x].dirty)) ==> x in cache
    {
      hide PoolOk, HasSpare, Stays, AllPinned, Touched, Remaining, Kept, AllClean;
      if id in cache {
        Still(order, cache, id, cache[id].(pins := cache[id].pins + 1));
        Hold(id);
        return Page(cache[id].data);
      }
      NobodyLeft(order, cache);
      if |cache| >= capacity {
        var ok := MakeRoom();
        if !ok {
          return Exhausted;
        }
      }
      if !(1 <= id <= header.pageCount) {
        return OutOfRange;
      }
      NewInOrder(old(order), old(cache), cache, id, Frame(PageAt(disk.file, id), 1, false));
      Admit(id);
      return Page(cache[id].data);
    }

    /** One more pin on a cached page, which becomes the most recently used one. */
    method Hold(id: PageId)
      requires PoolOk() && id in cache
      modifies `cache, `order
      ensures PoolOk() && forall x :: View(x) == old(View(x))
      ensures cache == old(cache)[id := old(cache)[id].(pins := old(cache)[id].pins + 1)]
      ensures order == Touched(old(order), id)
    {
      cache := cache[id := cache[id].(pins := cache[id].pins + 1)];
      order := Touched(order, id);
    }

    /** Read a page from the file and pin it. */
    method Admit(id: PageId)
      requires PoolOk() && id !in cache && id >= 1
      modifies `cache, `order
      ensures PoolOk() && forall x :: View(x) == old(View(x))
      ensures cache == old(cache)[id := Frame(PageAt(disk.file, id), 1, false)]
      ensures order == Touched(old(order), id)
    {
      cache := cache[id := Frame(PageAt(disk.file, id), 1, false)];
      order := Touched(order, id);
    }

    /** Release one pin; a page once dirty stays dirty until it is written. False:
        the page is not cached, or not pinned. */
    method Unpin(id: PageId, dirty: bool) returns (ok: bool)
      requires PoolOk()
      modifies `cache
      ensures PoolOk() && forall x :: View(x) == old(View(x))
      ensures ok <==> id in old(cache) && old(cache)[id].pins > 0
      ensures !ok ==> cache == old(cache)
      ensures ok ==> var f := old(cache)[id]; cache == old(cache)[id := Frame(f.data, f.pins - 1, f.dirty || dirty)]
    {
      if id !in cache || cache[id].pins == 0 {
        return false;
      }
      var f := cache[id];
      cache := cache[id := Frame(f.data, f.pins - 1, f.dirty || dirty)];
      return true;
    }

    // ---- The transaction ----

    /** Become the writer: from here on the page count is ours to move. */
    method Begin()
      requires Idle()
      modifies `hooked, `journalOpen, `journalled, `before, `barrierPassed, `start
      ensures Writing() && Grown() && disk.file == base && journalled == {} && !barrierPassed && !journalOpen
      ensures start == |trace| && before == header.pageCount
    {
      hooked, journalOpen, barrierPassed := true, false, false;
      journalled := {};
      before := header.pageCount;
      start := |trace|;
    }

    /** Before a page is changed for the first time: save the file's bytes. A page
        that did not exist when we became the writer is only noted. */
    method WillModify(id: PageId)
      requires Writing() && !barrierPassed && 1 <= id
      modifies `disk, `trace, `journalOpen, `journalled
      ensures Writing() && journalled == old(journalled) + {id} && forall x :: View(x) == old(View(x))
      ensures journalOpen == (old(journalOpen) || (id <= before && id !in old(journalled)))
    {
      if id in journalled {
        return;
      }
      if id > before {
        journalled := journalled + {id};
        return;
      }
      if !journalOpen {
        OpenJournal(disk, base, prev, journalled);
        Put(BeginJournal(disk, before));
        Extend(old(trace), start, disk, base, prev);
        SteadyOn(old(trace), start, disk);
        journalOpen := true;
      }
      ghost var t := trace;
      SaveOne(disk, base, prev, journalled, id);
      Put(AppendRecord(disk, Record(id, PageAt(disk.file, id), true)));
      Extend(t, start, disk, base, prev);
      SteadyOn(t, start, disk);
      journalled := journalled + {id};
    }

    /** The only way to a page that is to be changed: it is saved first, and dirty
        from here on. */
    method GetPageForWrite(id: PageId) returns (r: Fetch)
      requires Writing() && !barrierPassed && 1 <= id
      modifies `disk, `trace, `journalOpen, `journalled, `cache, `order
      ensures Writing()
      ensures forall x :: View(x) == old(View(x))
      ensures journalled == old(journalled) + {id}
      ensures r.Page? ==> r.data == View(id) && id in cache && cache[id].dirty && |order| > 0 && order[|order| - 1] == id
      ensures r.Page? ==> cache[id].pins == 1 + (if id in old(cache) then old(cache)[id].pins else 0)
      ensures journalOpen == (old(journalOpen) || (id <= before && id !in old(journalled)))
      ensures forall x :: x in cache && x != id ==> x in old(cache) && cache[x] == old(cache)[x]
      ensures forall x :: x in old(cache) && old(cache)[x].dirty ==> x in cache && cache[x].dirty
      ensures !r.Page? ==> forall x :: x in cache ==> x in old(cache) && cache[x] == old(cache)[x]
      ensures old(InRange()) ==> InRange()
      ensures old(Unpinned()) && capacity > 0 && id <= header.pageCount ==> r.Page?
      ensures old(Grown()) ==> Grown()
    {
      hide Writing, PoolOk;
      WillModify(id);
      r := Pin(id);
      if r.Page? { MarkDirty(id); }
    }

    method MarkDirty(id: PageId)
      requires Writing() && id in cache && id in journalled
      modifies `cache
      ensures Writing() && cache == old(cache)[id := old(cache)[id].(dirty := true)] && forall x :: View(x) == old(View(x))
      ensures old(Grown()) ==> Grown()
    {
      cache := cache[id := cache[id].(dirty := true)];
    }

    /** Reading a page inside a transaction writes nothing. */
    method Pin(id: PageId) returns (r: Fetch)
      requires Writing()
      modifies `cache, `order, `disk, `trace
      ensures Writing() && disk == old(disk) && trace == old(trace) && forall x :: View(x) == old(View(x))
      ensures r.Page? ==> r.data == View(id) && id in cache && |order| > 0 && order[|order| - 1] == id
      ensures r.Page? ==> cache[id].pins == 1 + (if id in old(cache) then old(cache)[id].pins else 0)
      ensures forall x :: x in cache && !(r.Page? && x == id) ==> x in old(cache) && cache[x] == old(cache)[x]
      ensures forall x :: x in old(cache) && old(cache)[x].dirty ==> x in cache && cache[x].dirty
      ensures old(InRange()) ==> InRange()
      ensures old(Unpinned()) && capacity > 0 && 1 <= id <= header.pageCount ==> r.Page?
      ensures old(Grown()) ==> Grown()
    {
      r := GetPage(id);
    }

    /** The holder of a page fetched for writing changes its bytes. */
    method Modify(id: PageId, image: Image)
      requires Writing() && id in cache && cache[id].dirty && cache[id].pins > 0
      modifies `cache
      ensures Writing() && cache == old(cache)[id := old(cache)[id].(data := image)]
      ensures View(id) == image && forall x :: x != id ==> View(x) == old(View(x))
      ensures old(Grown()) ==> Grown()
    {
      cache := cache[id := cache[id].(data := image)];
    }

    /** Grow the file by one page, in memory only. */
    method Grow() returns (id: PageId)
      requires Writing() && Grown() && !barrierPassed
      modifies `cache, `order, `header
      ensures Writing() && Grown() && id == header.pageCount && header == old(header).(pageCount := old(header).pageCount + 1)
      ensures cache == old(cache)[id := Frame(ZEROS, 0, true)]
      ensures View(id) == ZEROS && forall x :: x != id ==> View(x) == old(View(x))
    {
      id := header.pageCount + 1;
      header := header.(pageCount := id);
      cache := cache[id := Frame(ZEROS, 0, true)];
      order := Touched(order, id);
    }

    /** Give a page new contents: fetch it for writing, overwrite it, let it go. */
    method WritePage(id: PageId, content: Content)
      requires Writing() && InRange() && !barrierPassed && Unpinned() && capacity > 0 && 1 <= id <= header.pageCount
      modifies `disk, `trace, `journalOpen, `journalled, `cache, `order
      ensures Writing() && InRange() && Unpinned() && View(id) == old(View(id)).(rest := content) && forall x :: x != id ==> View(x) == old(View(x))
      ensures journalled == old(journalled) + {id}
      ensures journalOpen == (old(journalOpen) || (id <= before && id !in old(journalled)))
      ensures id in cache && cache[id].dirty && forall x :: x in old(cache) && old(cache)[x].dirty ==> x in cache && cache[x].dirty
    {
      var page := GetPageForWrite(id);
      Rewrite(id, page.data.(rest := content));
    }

    /** Drop a page without writing it back. */
    method Discard(id: PageId)
      requires Writing() && Unpinned()
      modifies `cache, `order
      ensures Writing() && Unpinned() && cache == old(cache) - {id} && forall x :: x != id ==> View(x) == old(View(x))
    {
      if id in cache {
        cache := cache - {id};
        order := Kept(order, {id});
      }
    }

    /** The page count moves with `Grow`; the freelist moves in memory like this. */
    method SetFreelist(trunk: PageId, freeCount: nat)
      requires Writing() && !barrierPassed
      modifies `header
      ensures Writing() && header == old(header).(trunk := trunk, freeCount := freeCount)
      ensures (forall x :: View(x) == old(View(x))) && (old(Grown()) ==> Grown())
    {
      header := header.(trunk := trunk, freeCount := freeCount);
    }

    /** A change of the schema is counted in memory. */
    method BumpCookie()
      requires Writing() && !barrierPassed
      modifies `header
      ensures Writing() && header == old(header).(cookie := (old(header).cookie + 1) % 0x1_0000_0000)
      ensures (forall x :: View(x) == old(View(x))) && (old(Grown()) ==> Grown())
    {
      header := header.(cookie := (header.cookie + 1) % 0x1_0000_0000);
    }

    /** As long as no page has been saved, everything reads as before. */
    lemma NothingSaved()
      requires Writing() && !journalOpen
      ensures forall id :: 1 <= id <= before ==> View(id) == PageAt(base, id)
    {
    }

    /** Reuse the head of the freelist, which is fetched for writing and read for its
        link, or grow the file. */
    method AllocatePage() returns (id: PageId)
      requires Writing() && Grown() && !barrierPassed && Unpinned() && capacity > 0
      requires header.freeCount > 0 ==> 1 <= header.trunk <= header.pageCount
      modifies `disk, `trace, `journalOpen, `journalled, `cache, `order, `header
      ensures Writing() && Grown() && Unpinned()
      ensures old(header).freeCount > 0 ==>
                && id == old(header).trunk && journalled == old(journalled) + {id} && (forall x :: View(x) == old(View(x)))
                && header == old(header).(trunk := LinkOf(old(View(id)).rest), freeCount := old(header).freeCount - 1)
                && journalOpen == (old(journalOpen) || (id <= before && id !in old(journalled)))
      ensures old(header).freeCount == 0 ==>
                && id == old(header).pageCount + 1 && header == old(header).(pageCount := id) && journalled == old(journalled)
                && View(id) == ZEROS && (forall x :: x != id ==> View(x) == old(View(x))) && journalOpen == old(journalOpen)
    {
      if header.freeCount == 0 {
        id := Grow();
        return;
      }
      id := header.trunk;
      var next := ReadForWrite(id);
      SetFreelist(LinkOf(next), header.freeCount - 1);
    }

    /** Fetch a page for writing, read it, and let it go unchanged. */
    method ReadForWrite(id: PageId) returns (c: Content)
      requires Writing() && Grown() && !barrierPassed && Unpinned() && capacity > 0 && 1 <= id <= header.pageCount
      modifies `disk, `trace, `journalOpen, `journalled, `cache, `order
      ensures Writing() && Grown() && Unpinned() && c == old(View(id)).rest && forall x :: View(x) == old(View(x))
      ensures journalled == old(journalled) + {id}
      ensures journalOpen == (old(journalOpen) || (id <= before && id !in old(journalled)))
    {
      var page := GetPageForWrite(id);
      c := page.data.rest;
      Rewrite(id, page.data);
    }

    /** Put a page on the freelist: whatever the cache holds of it is dropped, then it
        is fetched for writing and overwritten with the link. */
    method FreePage(id: PageId)
      requires Writing() && Grown() && !barrierPassed && Unpinned() && capacity > 0 && 2 <= id <= header.pageCount
      modifies `disk, `trace, `journalOpen, `journalled, `cache, `order, `header
      ensures Writing() && Grown() && Unpinned() && journalled == old(journalled) + {id}
      ensures View(id).rest == Link(old(header).trunk) && forall x :: x != id ==> View(x) == old(View(x))
      ensures header == old(header).(trunk := id, freeCount := old(header).freeCount + 1)
      ensures journalOpen == (old(journalOpen) || (id <= before && id !in old(journalled)))
    {
      Discard(id);
      WritePage(id, Link(header.trunk));
      SetFreelist(id, header.freeCount + 1);
    }

    // ---- Commit ----

    /** Write one page back if it is dirty. */
    method FlushPage(id: PageId)
      requires Writing() && barrierPassed && id in cache && id <= header.pageCount
      requires id == 1 ==> |disk.file| >= cache[1].data.head.pageCount
      modifies `cache, `disk, `trace
      ensures Writing() && forall x :: View(x) == old(View(x))
      ensures cache == old(cache)[id := old(cache)[id].(dirty := false)]
      ensures |disk.file| == if old(cache)[id].dirty && id > |old(disk).file| then id else |old(disk).file|
      ensures old(Unwritten()) ==> if id == 1 && old(cache)[1].dirty then Written() else Unwritten()
    {
      if cache[id].dirty { WriteBack(id); }
      MarkClean(id);
    }

    /** Write a dirty page to the file. */
    method WriteBack(id: PageId)
      requires Writing() && barrierPassed && id in cache && id <= header.pageCount && cache[id].dirty
      requires id == 1 ==> |disk.file| >= cache[1].data.head.pageCount
      modifies `disk, `trace
      ensures Writing() && disk == WriteDb(old(disk), id, cache[id].data) && forall x :: View(x) == old(View(x))
      ensures old(Unwritten()) ==> if id == 1 then Written() else Unwritten()
    {
      DbSteps(disk, base, id, cache[id].data, |base|);
      Put(WriteDb(disk, id, cache[id].data));
      Extend(old(trace), start, disk, base, prev);
      if old(Unwritten()) && id != 1 { SteadyOn(old(trace), start, disk); }
      assert trace[start..|trace| - 1] == old(trace)[start..];
    }

    /** The file holds what the frame holds. */
    method MarkClean(id: PageId)
      requires Writing() && id in cache && cache[id].data == PageAt(disk.file, id)
      modifies `cache
      ensures Writing() && cache == old(cache)[id := old(cache)[id].(dirty := false)] && forall x :: View(x) == old(View(x))
    {
      cache := cache[id := cache[id].(dirty := false)];
    }

    /** Write every dirty page, in recency order: page 1, touched last, goes last,
        when the file already holds every page that its header will claim. */
    method FlushAll()
      requires Writing() && Grown() && barrierPassed && |disk.file| == |base| && Unwritten()
      requires |order| > 0 && order[|order| - 1] == 1 && cache[1].data.head == header && cache[1].dirty
      modifies `cache, `disk, `trace
      ensures Written() && (old(Unpinned()) ==> Unpinned())
      ensures Writing() && AllClean() && InRange() && forall x :: View(x) == PageAt(disk.file, x) == old(View(x))
      ensures |disk.file| == header.pageCount && cache.Keys == old(cache).Keys
    {
      ghost var c0 := cache;
      FlushedNone(cache, order, before, |disk.file|);
      FlushEach(order, c0);
      AllBut(cache, c0, order, |order|, before, |disk.file|, header.pageCount);
    }

    /** The first i pages of the order have been written: page 1, the last of them,
        only when the file already holds every page that its header will claim. */
    ghost predicate Flushing(ids: seq<PageId>, i: nat, c0: map<PageId, Frame>)
      reads this
    {
      && Writing() && barrierPassed && ids == order && |ids| > 0 && ids[|ids| - 1] == 1 && i <= |ids|
      && Flushed(cache, c0, ids, i, before, |disk.file|) && |disk.file| <= header.pageCount
      && (forall id :: id in c0 ==> id <= header.pageCount) && (header.pageCount > before ==> header.pageCount in c0)
      && View(1).head == header && 1 in c0 && c0[1].dirty && if i < |ids| then Unwritten() else Written()
    }

    method FlushEach(ids: seq<PageId>, ghost c0: map<PageId, Frame>)
      requires Flushing(ids, 0, c0)
      modifies `cache, `disk, `trace
      ensures Flushing(ids, |ids|, c0) && forall x :: View(x) == old(View(x))
    {
      hide *;
      var i := 0;
      while i < |ids|
        invariant i <= |ids| && Flushing(ids, i, c0)
        invariant forall x :: View(x) == old(View(x))
      {
        FlushNext(ids, i, c0);
        i := i + 1;
      }
    }

    method FlushNext(ids: seq<PageId>, i: nat, ghost c0: map<PageId, Frame>)
      requires Flushing(ids, i, c0) && i < |ids|
      modifies `cache, `disk, `trace
      ensures Flushing(ids, i + 1, c0) && forall x :: View(x) == old(View(x))
    {
      assert before >= 1;
      hide Writing, Unwritten, Written;
      ghost var c, short := cache, |disk.file|;
      var id := ids[i];
      HeaderIsLast(ids, i);
      if id == 1 { AllBut(cache, c0, ids, i, before, |disk.file|, header.pageCount); }
      FlushPage(id);
      FlushedOne(c, c0, ids, i, before, short, |disk.file|);
    }

    /** Overwrite a page fetched for writing, and unpin it. */
    method Rewrite(id: PageId, image: Image)
      requires Writing() && id in cache && cache[id].dirty && cache[id].pins > 0
      modifies `cache
      ensures Writing() && View(id) == image && forall x :: x != id ==> View(x) == old(View(x))
      ensures cache == old(cache)[id := Frame(image, old(cache)[id].pins - 1, true)] && (old(Grown()) ==> Grown())
    {
      Modify(id, image);
      var ok := Unpin(id, false);
    }

    /** Put the in-memory header into page 1, which is saved like any other page and
        becomes the most recently used one. Fails only if no page can be pinned. */
    method StampHeader() returns (ok: bool)
      requires Writing() && Grown() && !barrierPassed
      modifies `disk, `trace, `journalOpen, `journalled, `cache, `order
      ensures Writing() && Grown()
      ensures !ok ==> forall x :: View(x) == old(View(x))
      ensures ok ==> journalOpen && 1 in journalled && |order| > 0 && order[|order| - 1] == 1 && cache[1].dirty
      ensures (old(Unpinned()) ==> Unpinned()) && (old(Unpinned()) && capacity > 0 ==> ok)
      ensures ok ==> View(1) == old(View(1)).(head := header) && forall x :: x != 1 ==> View(x) == old(View(x))
    {
      var page := GetPageForWrite(1);
      if !page.Page? {
        return false;
      }
      Rewrite(1, page.data.(head := header));
      ok := true;
    }

    /** Make the journal certain; from here on the database file may be written. */
    method Barrier()
      requires Writing() && !barrierPassed && journalOpen && 1 in journalled
      modifies `disk, `trace, `barrierPassed
      ensures Writing() && barrierPassed && disk.file == old(disk).file && |disk.file| == |base| && Unwritten()
      ensures forall x :: View(x) == old(View(x))
    {
      ghost var d0, t0 := disk, trace;
      Put(SyncJournal(disk));
      ghost var t1 := trace;
      Put(WriteMagic(disk));
      ghost var t2 := trace;
      Put(SyncMagic(disk));
      Arm(d0, base, prev, journalled);
      Extend(t0, start, SyncJournal(d0), base, prev);
      Extend(t1, start, WriteMagic(SyncJournal(d0)), base, prev);
      Extend(t2, start, disk, base, prev);
      SteadyOn(t0, start, SyncJournal(d0));
      SteadyOn(t1, start, WriteMagic(SyncJournal(d0)));
      SteadyOn(t2, start, disk);
      barrierPassed := true;
    }

    /** Of all the states since the transaction began only one can fail to reopen after
        a power loss: page 1 has been written and the file is not yet synced. */
    ghost predicate OneRisk(was: seq<Image>)
      reads `start, `trace, `base
    {
      && start + 3 <= |trace| && ReopensBut(trace[start..], |trace| - start - 3)
      && var d := trace[|trace| - 3]; d.file == base && d.durable == was && 1 in d.touched
    }

    /** Make the transaction durable. The journal's unlinking is the commit point. A
        transaction that saved no page writes nothing at all: then the engine is back
        to the committed state only if the header was left alone. */
    method Commit() returns (ok: bool, ghost run: seq<Disk>)
      requires Writing() && Grown() && !barrierPassed
      modifies `disk, `trace, `journalOpen, `journalled, `cache, `order, `barrierPassed, `hooked, `base, `prev
      ensures !ok ==> old(journalOpen) && Writing() && base == old(base) && prev == old(prev)
      ensures ok ==> !hooked
      ensures ok && old(journalOpen) ==>
                && Idle() && prev == old(base) && |base| == old(header).pageCount
                && forall id :: 1 <= id <= |base| ==>
                     PageAt(base, id) == if id == 1 then old(View(1)).(head := old(header)) else old(View(id))
      ensures ok && old(journalOpen) ==>
                start <= |trace| && trace[start..] == run + [disk] && Sound(run, old(base), old(prev))
      ensures ok && old(journalOpen) ==> OneRisk(old(base))
      ensures old(Unpinned()) ==> Unpinned() && (capacity > 0 ==> ok)
      ensures ok && !old(journalOpen) ==>
                && disk == old(disk) && trace == old(trace) && base == old(base) && prev == old(prev) && header == old(header)
                && (Idle() <==> header == base[0].head)
    {
      if !journalOpen {
        hooked := false;
        return true, [];
      }
      ok, run := CommitJournalled();
    }

    method CommitJournalled() returns (ok: bool, ghost run: seq<Disk>)
      requires Writing() && Grown() && !barrierPassed
      modifies `disk, `trace, `journalOpen, `journalled, `cache, `order, `barrierPassed, `hooked, `base, `prev
      ensures !ok ==> Writing() && base == old(base) && prev == old(prev)
      ensures ok ==>
                && Idle() && prev == old(base) && |base| == old(header).pageCount
                && forall id :: 1 <= id <= |base| ==>
                     PageAt(base, id) == if id == 1 then old(View(1)).(head := old(header)) else old(View(id))
      ensures ok ==> start <= |trace| && trace[start..] == run + [disk] && Sound(run, old(base), old(prev)) && OneRisk(old(base))
      ensures old(Unpinned()) ==> Unpinned() && (capacity > 0 ==> ok)
    {
      run := [];
      ok := StampHeader();
      if !ok {
        return;
      }
      hide Writing, Grown, OneRisk, Idle;
      run := Persist();
    }

    /** First the journal, then, after the barrier, the file: it gets every page as the
        cache shows it. */
    method Persist() returns (ghost run: seq<Disk>)
      requires Writing() && Grown() && !barrierPassed && journalOpen && 1 in journalled
      requires |order| > 0 && order[|order| - 1] == 1 && View(1).head == header && cache[1].dirty
      modifies `disk, `trace, `cache, `barrierPassed, `hooked, `base, `prev
      ensures Idle() && prev == old(base) && |base| == header.pageCount && forall id :: PageAt(base, id) == old(View(id))
      ensures start <= |trace| && trace[start..] == run + [disk] && Sound(run, old(base), old(prev)) && OneRisk(old(base))
      ensures old(Unpinned()) ==> Unpinned()
    {
      assert 1 in cache;
      hide *;
      Barrier();
      FlushAll();
      run := Finish();
    }

    /** Sync the file, unlink the journal: what the file holds is the database. */
    method Finish() returns (ghost run: seq<Disk>)
      requires Writing() && barrierPassed && AllClean() && InRange() && |disk.file| == header.pageCount && View(1).head == header
      requires Written()
      modifies `disk, `trace, `hooked, `base, `prev
      ensures Idle() && prev == old(base) && base == disk.file == old(disk).file
      ensures start <= |trace| && trace[start..] == run + [disk] && Sound(run, old(base), old(prev)) && OneRisk(old(base))
    {
      hide Steady, ReopensBut;
      FinishSteps(disk, base, prev, journalled);
      RiskOnce(trace, start, disk);
      run := SyncAndUnlink();
      base, prev := disk.file, base;
      hooked := false;
    }

    method SyncAndUnlink() returns (ghost run: seq<Disk>)
      requires start <= |trace| && Sound(trace[start..], base, prev) && Guarded(SyncDb(disk), base, prev) && Openable(disk.file)
      modifies `disk, `trace
      ensures disk == Unlink(SyncDb(old(disk))) && trace == old(trace) + [SyncDb(old(disk)), disk]
      ensures start <= |trace| && trace[start..] == run + [disk] && Sound(run, base, prev)
    {
      ghost var t0 := trace;
      Put(SyncDb(disk));
      Extend(t0, start, disk, base, prev);
      ghost var t1 := trace;
      Put(Unlink(disk));
      run := t1[start..];
      assert trace[start..] == run + [disk];
    }

    // ---- Rollback ----

    method RestoreOne(r: Record)
      requires Undoable() && disk.journal.armed && r in disk.journal.records && r.page >= 1
      modifies `disk, `trace
      ensures Undoable() && trace == old(trace) + [disk] && disk == WriteDb(old(disk), r.page, r.image)
    {
      assert Recorded(disk.journal.records, r.page);
      DbSteps(disk, base, r.page, r.image, |base|);
      Put(WriteDb(disk, r.page, r.image));
      Extend(old(trace), start, disk, base, prev);
    }

    /** Restore every saved page, in the order they were saved. A journal that never
        became valid is not replayed: then nothing reached the file. */
    method Replay()
      requires Undoable()
      modifies `disk, `trace
      ensures Undoable() && disk.journal == old(disk).journal
      ensures forall id :: 1 <= id <= |base| ==> PageAt(disk.file, id) == PageAt(base, id)
      ensures !disk.journal.armed ==> disk == old(disk) && trace == old(trace)
      ensures disk.journal.armed ==>
                disk == Restored(old(disk), disk.journal.records) && trace == old(trace) + ReplaySteps(old(disk), disk.journal.records)
    {
      if !disk.journal.armed {
        return;
      }
      var i := 0;
      ghost var records := disk.journal.records;
      ghost var goal, path := Restored(disk, records), trace + ReplaySteps(disk, records);
      assert records[0..] == records;
      while i < |disk.journal.records|
        invariant 0 <= i <= |records| && Undoable() && disk.journal == old(disk).journal
        invariant Restored(disk, records[i..]) == goal && trace + ReplaySteps(disk, records[i..]) == path
      {
        NextRecord(disk, records, i, trace);
        RestoreOne(disk.journal.records[i]);
        i := i + 1;
      }
      assert records[i..] == [];
      Rewound(old(disk), base, records);
    }

    /** Cut off what the transaction added, sync, and discard the journal. */
    method CutBack(n: nat) returns (ghost run: seq<Disk>)
      requires Undoable() && n == |base| && forall id :: 1 <= id <= |base| ==> PageAt(disk.file, id) == PageAt(base, id)
      modifies `disk, `trace, `prev
      ensures disk.file == base && Quiet(disk, base, prev) && disk.stage.Absent? && disk.journal == NO_JOURNAL
      ensures (prev == old(prev) || prev == base) && trace == old(trace) + CutStates(old(disk), |base|)
      ensures start <= |trace| && trace[start..] == run + [disk] && Sound(run, base, old(prev))
      ensures !old(disk).journal.armed && old(Steady(trace[start..])) ==> Steady(trace[start..])
    {
      CutSteps(disk, base, prev);
      ghost var t, armed := trace, disk.journal.armed;
      Put(TruncateDb(disk, n));
      Extend(t, start, disk, base, prev);
      run := SyncAndUnlink();
      if !armed && Steady(t[start..]) { SteadyCut(t, start, old(disk), base, prev); }
      if armed { prev := base; }
    }

    /** Undo the transaction: file, length, header and cache go back to where they
        were when it became the writer. Cached pages it did not touch stay. With no
        saved page there is nothing to undo on disk, and nothing is undone in memory. */
    method Rollback() returns (ghost run: seq<Disk>)
      requires Writing() && forall id :: id in journalled && id in cache ==> cache[id].pins == 0
      modifies `disk, `trace, `cache, `order, `header, `hooked, `prev
      ensures !hooked && disk.file == base && (prev == old(prev) || prev == base)
      ensures forall id :: 1 <= id <= |base| ==> View(id) == PageAt(base, id)
      ensures forall id :: id in old(cache) && id !in journalled ==> id in cache && cache[id] == old(cache)[id]
      ensures old(journalOpen) ==> header == base[0].head
      ensures old(journalOpen) ==> start <= |trace| && trace[start..] == run + [disk] && Sound(run, base, old(prev))
      ensures old(journalOpen) && !barrierPassed ==> ReopensBut(trace[start..], -1)
      ensures forall id :: id in cache ==> id in old(cache) && cache[id] == old(cache)[id]
      ensures old(journalOpen) ==> (Idle() <==> forall id :: id in old(cache) && id > before ==> id in journalled)
      ensures !old(journalOpen) ==> disk == old(disk) && trace == old(trace) && header == old(header) && cache == old(cache)
      ensures !old(journalOpen) && old(Grown()) ==> (Idle() <==> header == base[0].head)
    {
      if journalOpen {
        ghost var tidy;
        run, tidy := Undo();
        return;
      }
      run := [];
      hooked := false;
    }

    /** The file is the base; the cache still has the transaction's pages. */
    ghost predicate OnBase()
      reads `cache, `order, `disk, `journalled, `before, `base
    {
      && Settled(base) && disk.file == base && before == |base| && NoRepeats(order) && (forall id :: id in order <==> id in cache)
      && (forall id :: id in cache ==> id >= 1)
      && forall id :: id in cache && id <= before && id !in journalled ==> !cache[id].dirty && cache[id].data == PageAt(base, id)
    }

    method UndoDisk() returns (ghost run: seq<Disk>)
      requires Writing() && journalOpen
      modifies `disk, `trace, `prev
      ensures OnBase() && Quiet(disk, base, prev) && disk.stage.Absent? && disk.journal == NO_JOURNAL
      ensures prev == old(prev) || prev == base
      ensures start <= |trace| && trace[start..] == run + [disk] && Sound(run, base, old(prev))
      ensures !barrierPassed ==> ReopensBut(trace[start..], -1)
    {
      Unsaved(disk, base, prev, barrierPassed, journalled);
      Replay();
      run := CutBack(before);
      if !barrierPassed { SteadyReopens(trace[start..]); }
    }

    lemma AtRest(tidy: bool)
      requires Settled(base) && disk.file == base && Quiet(disk, base, prev) && disk.stage.Absent? && disk.journal == NO_JOURNAL
      requires header == base[0].head && !hooked && (tidy ==> PoolOk() && AllClean()) && (InRange() <==> tidy)
      ensures Idle() <==> tidy
    {
    }

    method Undo() returns (ghost run: seq<Disk>, ghost tidy: bool)
      requires Writing() && journalOpen
      modifies `disk, `trace, `cache, `order, `header, `hooked, `prev
      ensures !hooked && disk.file == base && (prev == old(prev) || prev == base) && header == base[0].head
      ensures forall id :: 1 <= id <= |base| ==> View(id) == PageAt(base, id)
      ensures forall id :: id in old(cache) && id !in journalled ==> id in cache && cache[id] == old(cache)[id]
      ensures start <= |trace| && trace[start..] == run + [disk] && Sound(run, base, old(prev))
      ensures !barrierPassed ==> ReopensBut(trace[start..], -1)
      ensures forall id :: id in cache ==> id in old(cache) && cache[id] == old(cache)[id]
      ensures tidy == (forall id :: id in old(cache) && id > before ==> id in journalled)
      ensures Idle() <==> tidy
    {
      hide Writing, Quiet, PoolOk, AllClean, InRange, ReopensBut;
      run := UndoDisk();
      tidy := Forget();
      hooked := false;
      AtRest(tidy);
    }

    /** Drop the transaction's pages from the cache and reread the header. Only a
        page that was added and never fetched for writing is left behind. */
    method Forget() returns (ghost tidy: bool)
      requires OnBase()
      modifies `cache, `order, `header
      ensures header == base[0].head && NoRepeats(order) && (forall id :: id in order <==> id in cache)
      ensures forall id :: id in old(cache) && id !in journalled ==> id in cache && cache[id] == old(cache)[id]
      ensures forall id :: id in cache ==> id in old(cache) && cache[id] == old(cache)[id]
      ensures forall id :: 1 <= id <= |base| ==> View(id) == PageAt(base, id)
      ensures tidy == (forall id :: id in old(cache) && id > before ==> id in journalled)
      ensures (tidy ==> PoolOk() && AllClean()) && (InRange() <==> tidy)
    {
      tidy := forall id :: id in cache && id > before ==> id in journalled;
      cache := cache - journalled;
      order := Kept(order, journalled);
      header := disk.file[0].head;
    }
  }

  ghost predicate AllPinned(c: map<PageId, Frame>) {
    forall id :: id in c ==> c[id].pins > 0
  }

  /** The recency order without the pages that have left the cache. */
  ghost function Remaining(order: seq<PageId>, c: map<PageId, Frame>, c': map<PageId, Frame>): seq<PageId> {
    Kept(order, c.Keys - c'.Keys)
  }

  lemma NobodyLeft(order: seq<PageId>, c: map<PageId, Frame>)
    ensures Remaining(order, c, c) == order
  {
    KeptAll(order, {});
    assert c.Keys - c.Keys == {};
  }

  lemma Still(order: seq<PageId>, c: map<PageId, Frame>, id: PageId, f: Frame)
    requires id in c
    ensures Remaining(order, c, c[id := f]) == order && |c[id := f]| == |c|
  {
    NobodyLeft(order, c);
    assert c[id := f].Keys == c.Keys;
  }

  lemma NewInOrder(order: seq<PageId>, c: map<PageId, Frame>, now: map<PageId, Frame>, id: PageId, f: Frame)
    requires id !in c && id !in now
    ensures Remaining(order, c, now[id := f]) == Remaining(order, c, now) && |now[id := f]| == |now| + 1
  {
    assert now[id := f].Keys == now.Keys + {id};
    assert c.Keys - now[id := f].Keys == c.Keys - now.Keys;
  }

  lemma OneFewer(c: map<PageId, Frame>, id: PageId)
    requires id in c
    ensures |c - {id}| == |c| - 1
  {
    assert (c - {id}).Keys == c.Keys - {id};
  }

  /** A page of the base that was not saved still holds its base bytes in the file. */
  lemma Unsaved(d: Disk, base: seq<Image>, prev: seq<Image>, passed: bool, journalled: set<PageId>)
    requires Logging(d, base, prev, true, passed, journalled)
    ensures forall id :: 1 <= id <= |base| && id !in journalled ==> PageAt(d.file, id) == PageAt(base, id)
  {
  }

  lemma CutSteps(d: Disk, base: seq<Image>, prev: seq<Image>)
    requires Settled(base) && Standing(d, base, prev)
    requires forall id :: 1 <= id <= |base| ==> PageAt(d.file, id) == PageAt(base, id)
    ensures
      var d1 := TruncateDb(d, |base|);
      var d2 := SyncDb(d1);
      && d1.file == base && Guarded(d1, base, prev) && Guarded(d2, base, prev) && Openable(base)
      && Quiet(Unlink(d2), base, if d.journal.armed then base else prev)
  {
    var d1 := TruncateDb(d, |base|);
    SameFile(d1.file, base);
    if d.journal.armed {
      DbSteps(d, base, 1, ZEROS, |base|);
      DbSteps(d1, base, 1, ZEROS, |base|);
      UnlinkCommits(SyncDb(d1), base);
    } else {
      assert d1 == d && SyncDb(d1) == d;
      UnlinkAbandons(d, base, prev);
    }
  }

  lemma SteadyCut(t: seq<Disk>, start: nat, d: Disk, base: seq<Image>, prev: seq<Image>)
    requires start <= |t| && Steady(t[start..]) && Settled(base) && Quiet(d, base, prev)
    ensures Steady((t + CutStates(d, |base|))[start..])
  {
    var d1 := TruncateDb(d, |base|);
    SameFile(d1.file, base);
    assert (t + CutStates(d, |base|))[start..] == t[start..] + CutStates(d, |base|);
  }

  lemma NextRecord(d: Disk, records: seq<Record>, i: nat, t: seq<Disk>)
    requires i < |records| && records[i].intact && records[i].page >= 1
    ensures
      var d' := WriteDb(d, records[i].page, records[i].image);
      && Restored(d, records[i..]) == Restored(d', records[i + 1..])
      && t + ReplaySteps(d, records[i..]) == t + [d'] + ReplaySteps(d', records[i + 1..])
  {
    assert records[i..][0] == records[i] && records[i..][1..] == records[i + 1..];
  }

  lemma Rewound(d: Disk, base: seq<Image>, records: seq<Record>)
    requires Busy(d, base) && Settled(base) && Openable(d.file) && records == d.journal.records
    ensures forall id :: 1 <= id <= |base| ==> PageAt(Restored(d, records).file, id) == PageAt(base, id)
  {
    assert records[0..] == records;
    OwnRecords(d, base, 0);
    ReplayIsSound(d, base, records);
    forall id | 1 <= id <= |base| ensures PageAt(Restored(d, records).file, id) == PageAt(base, id) {
      ReplayRestores(d.file, records, base, id);
    }
  }

  lemma FinishSteps(d: Disk, base: seq<Image>, prev: seq<Image>, journalled: set<PageId>)
    requires Logging(d, base, prev, true, true, journalled)
    ensures Guarded(SyncDb(d), base, prev) && Quiet(Unlink(SyncDb(d)), d.file, base) && Unlink(SyncDb(d)).file == d.file
  {
    DbSteps(d, base, 1, ZEROS, |base|);
    UnlinkCommits(SyncDb(d), base);
  }

  lemma Arm(d: Disk, base: seq<Image>, prev: seq<Image>, journalled: set<PageId>)
    requires Logging(d, base, prev, true, false, journalled) && 1 in journalled && |base| >= 1
    ensures Quiet(SyncJournal(d), base, prev) && Quiet(WriteMagic(SyncJournal(d)), base, prev)
    ensures Logging(SyncMagic(WriteMagic(SyncJournal(d))), base, prev, true, true, journalled)
  {
    var e := SyncMagic(WriteMagic(SyncJournal(d)));
    assert Recorded(d.journal.records, 1);
    BarrierPassed(e, base, prev);
  }

  /** The first i pages of the order are clean, and within the file; the others are
      as they were. */
  ghost predicate Flushed(c: map<PageId, Frame>, c0: map<PageId, Frame>, ids: seq<PageId>, i: nat, before: nat, length: nat) {
    && NoRepeats(ids) && (forall x :: x in ids <==> x in c0) && c.Keys == c0.Keys && i <= |ids| && before <= length
    && (forall x :: x in c0 && x > before ==> c0[x].dirty) && (forall x :: x in c0 ==> x in c && c[x].pins == c0[x].pins)
    && (forall k :: 0 <= k < i ==> ids[k] in c && !c[ids[k]].dirty && ids[k] <= length)
    && (forall k :: i <= k < |ids| ==> ids[k] in c && ids[k] in c0 && c[ids[k]] == c0[ids[k]])
  }

  lemma FlushedNone(c: map<PageId, Frame>, ids: seq<PageId>, before: nat, length: nat)
    requires NoRepeats(ids) && (forall x :: x in ids <==> x in c) && before <= length && forall x :: x in c && x > before ==> c[x].dirty
    ensures Flushed(c, c, ids, 0, before, length)
  {
  }

  lemma HeaderIsLast(ids: seq<PageId>, i: nat)
    requires NoRepeats(ids) && i < |ids| && ids[|ids| - 1] == 1
    ensures ids[i] == 1 <==> i + 1 == |ids|
  {
  }

  lemma FlushedOne(c: map<PageId, Frame>, c0: map<PageId, Frame>, ids: seq<PageId>, i: nat, before: nat, short: nat, length: nat)
    requires i < |ids| && short <= length && Flushed(c, c0, ids, i, before, short)
    requires ids[i] in c && (c[ids[i]].dirty ==> ids[i] <= length)
    ensures Flushed(c[ids[i] := c[ids[i]].(dirty := false)], c0, ids, i + 1, before, length)
  {
  }

  /** With all pages but possibly the last written, the file is long enough. */
  lemma AllBut(c: map<PageId, Frame>, c0: map<PageId, Frame>, ids: seq<PageId>, i: nat, before: nat, length: nat, pageCount: nat)
    requires Flushed(c, c0, ids, i, before, length) && |ids| > 0 && ids[|ids| - 1] == 1 && 1 <= before
    requires i == |ids| || ids[i] == 1
    requires pageCount > before ==> pageCount in c0
    ensures i >= |ids| - 1 && pageCount <= length
  {
    if i < |ids| { assert i == |ids| - 1; }
    if pageCount > before {
      var k :| 0 <= k < |ids| && ids[k] == pageCount;
    }
  }

}
