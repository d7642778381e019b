/** What the page layer does not do: a transaction that only grows the file commits
    without writing anything, one that grows it and never fetches the new page for
    writing leaves that page behind when it rolls back, and a header that survives a
    power loss without the pages it counts fails the length check. Each is shown on
    a new engine, through the methods of the page layer. */
module EngineWitnesses {
  import opened Basics
  import opened Durability
  import opened Recovery
  import opened Engine

  /** A database of one page. */
  function OnePage(): seq<Image> {
    [Image(Header(1, 0, 0, 0), Catalog([]))]
  }

  method NewEngine() returns (e: Engine)
    ensures fresh(e) && e.Idle() && e.base == OnePage() && e.cache == map[] && e.capacity == 10
  {
    e := new Engine.Reopen(OnePage(), None, 10, OnePage());
  }

  /** A transaction has added page 2. */
  method GrowOne() returns (e: Engine)
    ensures fresh(e) && e.Writing() && e.Grown() && e.Unpinned() && !e.barrierPassed && !e.journalOpen
    ensures e.base == OnePage() && e.before == 1 && e.header.pageCount == 2 && e.journalled == {} && 2 in e.cache && e.capacity == 10
  {
    e := NewEngine();
    e.Begin();
    var id := e.Grow();
  }

  /** The commit succeeds, but the header in memory counts a page that the file does
      not have. */
  method GrowThenCommit() returns (e: Engine, ok: bool)
    ensures ok && !e.hooked && !e.Idle() && e.header.pageCount == 2 && |e.disk.file| == 1
  {
    e := GrowOne();
    ghost var run;
    ok, run := e.Commit();
  }

  /** The file is back to one page, but the second one is still in the cache. */
  method GrowThenRollback() returns (e: Engine)
    ensures !e.hooked && !e.Idle() && 2 in e.cache && e.header.pageCount == 1 && |e.disk.file| == 1
  {
    e := GrowOne();
    e.WillModify(1);
    ghost var run;
    run := e.Rollback();
  }

  /** A commit that adds a page: just before its last sync page 1 counts two pages. A
      power loss then may keep the new page 1 and lose the page it counts, and the
      length check fails before recovery runs, though recovery would succeed. */
  method TornHeader() returns (e: Engine, ghost d: Disk)
    ensures e.Idle() && |e.base| == 2 && d in e.trace
    ensures |d.file| == 2 && FileSurvives(d, [d.file[0]]) && !Openable([d.file[0]]) && JournalSurvives(d, Some(d.journal))
    ensures Recovered([d.file[0]], Some(d.journal)) == OnePage()
  {
    e := GrowOne();
    e.WritePage(1, Catalog([]));
    ghost var ok, run;
    ok, run := e.Commit();
    d := LastUnsynced(e, run);
    AtRisk(d, OnePage(), e.base);
  }

  /** The state of the run in which page 1 is written and not yet synced. */
  lemma LastUnsynced(e: Engine, run: seq<Disk>) returns (d: Disk)
    requires e.start <= |e.trace| && e.trace[e.start..] == run + [e.disk] && (exists prev :: Sound(run, OnePage(), prev)) && e.OneRisk(OnePage())
    ensures d in e.trace && d.file == e.base && d.durable == OnePage() && Busy(d, OnePage())
    ensures 1 in d.touched
  {
    d := e.trace[|e.trace| - 3];
    var prev :| Sound(run, OnePage(), prev);
    assert run[|run| - 2] == d by { assert e.trace[e.start..][|run| - 2] == run[|run| - 2]; }
  }

  /** Page 1 alone survives of a file that has just grown to two pages. */
  lemma AtRisk(d: Disk, base: seq<Image>, grown: seq<Image>)
    requires Busy(d, base) && 1 in d.touched && |base| == 1 && d.durable == base
    requires d.file == grown && |grown| == 2 && grown[0].head.pageCount == 2
    ensures FileSurvives(d, [grown[0]]) && !Openable([grown[0]]) && JournalSurvives(d, Some(d.journal))
    ensures Recovered([grown[0]], Some(d.journal)) == base
  {
    var j := d.journal.(armed := true);
    assert j == d.journal;
    BusySurvivor(d, base, [grown[0]], Some(d.journal));
  }
}
