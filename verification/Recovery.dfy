/** Opening a database after a crash: the steps recovery takes, what they lead to,
    and why it does not matter how often they are interrupted. */
module Recovery {
  import opened Basics
  import opened Durability

  /** What a crash left is enough to get back to `base`. */
  ghost predicate Found(file: seq<Image>, j: Option<Journal>, base: seq<Image>) {
    if j.Some? && Hot(j.value) then
      Undoes(j.value, base) && Covers(file, j.value.records, base) && |file| >= |base| && Recorded(j.value.records, 1)
    else file == base
  }

  /** The journal as the operating system shows it. */
  function Visible(d: Disk): Option<Journal> {
    if d.stage.Absent? then None else Some(d.journal)
  }

  /** The disk at the next start: what is there is there for good. */
  function Booted(file: seq<Image>, j: Option<Journal>): Disk {
    match j
    case None => Disk(file, file, {}, Absent, NO_JOURNAL, None)
    case Some(j) => Disk(file, file, {}, if Hot(j) then Armed else Synced, j, None)
  }

  /** Writes reach the disk in order: the crash leaves what the system showed. */
  lemma CrashIsFound(d: Disk, base: seq<Image>, prev: seq<Image>)
    requires Guarded(d, base, prev)
    ensures Found(d.file, Visible(d), base)
  {
  }

  /** Writes since the last sync survive in any combination. */
  lemma SurvivorIsFound(d: Disk, base: seq<Image>, prev: seq<Image>, file: seq<Image>, j: Option<Journal>)
    requires Guarded(d, base, prev) && FileSurvives(d, file) && JournalSurvives(d, j)
    ensures Found(file, j, base) || (d.undead.Some? && Recovered(file, j) == prev)
  {
    if Quiet(d, base, prev) {
      SameFile(file, base);
      if d.undead.Some? && j == d.undead { RecoveryRestores(file, j.value, prev); }
    } else {
      forall id: PageId | 1 <= id <= |base| && !Recorded(d.journal.records, id) ensures PageAt(file, id) == PageAt(base, id) {
        assert id !in d.touched;
      }
    }
  }

  lemma FoundIsRecovered(file: seq<Image>, j: Option<Journal>, base: seq<Image>)
    requires Found(file, j, base)
    ensures Recovered(file, j) == base
  {
    if j.Some? && Hot(j.value) { RecoveryRestores(file, j.value, base); }
  }

  /** The states while records are restored one by one. */
  function ReplaySteps(d: Disk, records: seq<Record>): (t: seq<Disk>)
    decreases |records|
  {
    if |records| == 0 || !records[0].intact || records[0].page < 1 then []
    else
      var d' := WriteDb(d, records[0].page, records[0].image);
      [d'] + ReplaySteps(d', records[1..])
  }

  function Restored(d: Disk, records: seq<Record>): (r: Disk)
    decreases |records|
  {
    if |records| == 0 || !records[0].intact || records[0].page < 1 then d
    else Restored(WriteDb(d, records[0].page, records[0].image), records[1..])
  }

  /** Truncate, sync, unlink. */
  function CutStates(d: Disk, n: nat): seq<Disk> {
    var d1 := TruncateDb(d, n);
    var d2 := SyncDb(d1);
    [d1, d2, Unlink(d2)]
  }

  /** All states of the disk during recovery, the first one included. */
  function RecoveryTrace(d: Disk): (t: seq<Disk>)
    ensures |t| > 0
  {
    if d.stage.Absent? then [d]
    else if !Hot(d.journal) then [d, Unlink(d)]
    else [d] + ReplaySteps(d, d.journal.records) + CutStates(Restored(d, d.journal.records), d.journal.before)
  }

  /** These records, in this order, can be restored on a busy disk. */
  ghost predicate Restorable(d: Disk, base: seq<Image>, records: seq<Record>) {
    |records| == 0 || (RestorableOne(d, base, records[0]) && Restorable(d, base, records[1..]))
  }

  ghost predicate RestorableOne(d: Disk, base: seq<Image>, r: Record) {
    r.intact && 1 <= r.page <= |base| && r.image == PageAt(base, r.page) && Recorded(d.journal.records, r.page)
  }

  lemma {:induction false} OwnRecords(d: Disk, base: seq<Image>, k: nat)
    requires Busy(d, base) && k <= |d.journal.records|
    ensures Restorable(d, base, d.journal.records[k..])
    decreases |d.journal.records| - k
  {
    var rest := d.journal.records[k..];
    if k < |d.journal.records| {
      assert Recorded(d.journal.records, d.journal.records[k].page);
      assert rest[0] == d.journal.records[k] && rest[1..] == d.journal.records[k + 1..];
      OwnRecords(d, base, k + 1);
    }
  }

  lemma {:induction false} SameJournal(d: Disk, d': Disk, base: seq<Image>, records: seq<Record>)
    requires Restorable(d, base, records) && d'.journal == d.journal
    ensures Restorable(d', base, records)
    decreases |records|
  {
    if |records| > 0 { SameJournal(d, d', base, records[1..]); }
  }

  lemma SoundCons(d: Disk, tail: seq<Disk>, base: seq<Image>)
    requires Guarded(d, base, base) && Openable(d.file) && Sound(tail, base, base)
    ensures Sound([d] + tail, base, base)
  {
    var all := [d] + tail;
    forall i | 0 <= i < |all| ensures Guarded(all[i], base, base) && Openable(all[i].file) {
      if i > 0 { assert all[i] == tail[i - 1]; }
    }
  }

  lemma RestoreIsSafe(d: Disk, base: seq<Image>, r: Record)
    requires Busy(d, base) && Settled(base) && Openable(d.file) && RestorableOne(d, base, r)
    ensures Busy(WriteDb(d, r.page, r.image), base) && Openable(WriteDb(d, r.page, r.image).file)
  {
    DbSteps(d, base, r.page, r.image, |base|);
    StillOpens(d, base, r);
  }

  lemma {:induction false} ReplayIsSound(d: Disk, base: seq<Image>, records: seq<Record>)
    requires Busy(d, base) && Settled(base) && Openable(d.file) && Restorable(d, base, records)
    ensures Sound(ReplaySteps(d, records), base, base) && Busy(Restored(d, records), base) && Openable(Restored(d, records).file)
    ensures Restored(d, records).file == Replayed(d.file, records)
    decreases |records|
  {
    if |records| > 0 {
      var r := records[0];
      RestoreIsSafe(d, base, r);
      var d' := WriteDb(d, r.page, r.image);
      SameJournal(d, d', base, records[1..]);
      ReplayIsSound(d', base, records[1..]);
      SoundCons(d', ReplaySteps(d', records[1..]), base);
    }
  }

  lemma StillOpens(d: Disk, base: seq<Image>, r: Record)
    requires Busy(d, base) && Settled(base) && Openable(d.file) && 1 <= r.page <= |base| && r.image == PageAt(base, r.page)
    ensures Openable(WriteDb(d, r.page, r.image).file)
  {
    var file := WriteDb(d, r.page, r.image).file;
    if r.page == 1 { assert PageAt(base, 1) == base[0]; } else { assert PageAt(file, 1) == PageAt(d.file, 1); }
  }

  lemma CutIsSound(d: Disk, base: seq<Image>)
    requires Busy(d, base) && Settled(base) && forall id :: 1 <= id <= |base| ==> PageAt(d.file, id) == PageAt(base, id)
    ensures Sound(CutStates(d, |base|), base, base)
    ensures
      var end := CutStates(d, |base|)[2];
      end.file == base && end.stage.Absent? && end.journal == NO_JOURNAL && Quiet(end, base, base)
  {
    var d1 := TruncateDb(d, |base|);
    SameFile(d1.file, base);
    DbSteps(d, base, 1, ZEROS, |base|);
    DbSteps(d1, base, 1, ZEROS, |base|);
    UnlinkCommits(SyncDb(d1), base);
  }

  /** A crash at any moment of recovery leaves a file that can be opened and from
      which recovery starts over; undisturbed, it ends at `base`. */
  lemma RecoveryIsSound(file: seq<Image>, j: Option<Journal>, base: seq<Image>)
    requires Found(file, j, base) && Openable(file) && Settled(base)
    ensures
      var t := RecoveryTrace(Booted(file, j));
      && Sound(t, base, base)
      && t[|t| - 1].file == base && t[|t| - 1].stage.Absent? && Quiet(t[|t| - 1], base, base)
  {
    var d := Booted(file, j);
    if j.Some? && Hot(j.value) {
      var records := j.value.records;
      assert records[0..] == records;
      OwnRecords(d, base, 0);
      ReplayIsSound(d, base, records);
      forall id | 1 <= id <= |base| ensures PageAt(Restored(d, records).file, id) == PageAt(base, id) {
        ReplayRestores(file, records, base, id);
      }
      CutIsSound(Restored(d, records), base);
    } else if j.Some? && !d.stage.Absent? {
      assert Settled(base) && Openable(base);
    }
  }

  // ---- Power loss during recovery ----

  /** One record for page 1, at p, and every record readable. */
  ghost predicate HeaderAt(records: seq<Record>, p: int) {
    forall i :: 0 <= i < |records| ==> records[i].intact && records[i].page >= 1 && (records[i].page == 1 <==> i == p)
  }

  /** Page 1 is unsynced from the moment its record is restored. */
  lemma {:induction false} ReplayTouches(d: Disk, records: seq<Record>, p: int, k: nat)
    requires HeaderAt(records, p)
    requires k < |records| && (1 in d.touched <==> p < 0)
    ensures |ReplaySteps(d, records)| == |records|
    ensures var s := ReplaySteps(d, records)[k]; s.durable == d.durable && |s.file| >= |d.file| && (1 in s.touched <==> p <= k)
    decreases |records|
  {
    var d' := WriteDb(d, records[0].page, records[0].image);
    if |records| > 1 {
      ReplayTouches(d', records[1..], p - 1, if k == 0 then 0 else k - 1);
    }
  }

  lemma {:induction false} RestoredIsLast(d: Disk, records: seq<Record>)
    requires |records| > 0 && forall i :: 0 <= i < |records| ==> records[i].intact && records[i].page >= 1
    ensures |ReplaySteps(d, records)| == |records| && Restored(d, records) == ReplaySteps(d, records)[|records| - 1]
    decreases |records|
  {
    if |records| > 1 { RestoredIsLast(WriteDb(d, records[0].page, records[0].image), records[1..]); }
  }

  lemma DuringReplay(d: Disk, records: seq<Record>, p: nat, k: nat)
    requires k < |records| && p < |records| && HeaderAt(records, p) && 1 !in d.touched && |d.file| >= |d.durable| >= 1
    requires d.durable[0].head.pageCount <= |d.durable|
    ensures |ReplaySteps(d, records)| == |records| && (Reopens(ReplaySteps(d, records)[k]) <==> k < p)
  {
    ReplayTouches(d, records, p, k);
    ReopensIff(ReplaySteps(d, records)[k]);
  }

  /** During recovery a power loss can leave a file that fails the length check
      exactly between the restoring of page 1 and the sync at the end. */
  lemma RecoveryReopens(file: seq<Image>, j: Journal, base: seq<Image>, p: nat)
    requires Found(file, Some(j), base) && Hot(j) && Openable(file) && Settled(base)
    requires p < |j.records| && j.records[p].page == 1
    ensures
      var t := RecoveryTrace(Booted(file, Some(j)));
      |t| == |j.records| + 4 && forall k :: 0 <= k < |t| ==> (Reopens(t[k]) <==> k <= p || k >= |j.records| + 2)
  {
    var d, n := Booted(file, Some(j)), |j.records|;
    var t, steps, last := RecoveryTrace(d), ReplaySteps(d, j.records), Restored(d, j.records);
    assert HeaderAt(j.records, p);
    ReplayTouches(d, j.records, p, n - 1);
    RestoredIsLast(d, j.records);
    EndsAtBase(file, j, base);
    forall k | 0 <= k < |t| ensures Reopens(t[k]) <==> k <= p || k >= n + 2 {
      if k == 0 {
        ReopensIff(d);
      } else if k <= n {
        DuringReplay(d, j.records, p, k - 1);
        assert t[k] == steps[k - 1];
      } else {
        AtTheEnd(last, base, k - n - 1);
        assert t[k] == CutStates(last, |base|)[k - n - 1];
      }
    }
  }

  lemma EndsAtBase(file: seq<Image>, j: Journal, base: seq<Image>)
    requires Found(file, Some(j), base) && Hot(j) && Openable(file) && Settled(base)
    ensures CutStates(Restored(Booted(file, Some(j)), j.records), |base|)[2].file == base
  {
    RecoveryIsSound(file, Some(j), base);
    var t := RecoveryTrace(Booted(file, Some(j)));
    assert t[|t| - 1] == CutStates(Restored(Booted(file, Some(j)), j.records), |base|)[2];
  }

  lemma AtTheEnd(last: Disk, base: seq<Image>, k: nat)
    requires 1 in last.touched && |last.durable| >= 1 && Settled(base) && k < 3
    requires CutStates(last, |base|)[2].file == base
    ensures Reopens(CutStates(last, |base|)[k]) <==> k >= 1
  {
    ReopensIff(CutStates(last, |base|)[k]);
  }

  /** With nothing to roll back, no moment of recovery is at risk. */
  lemma ColdReopens(file: seq<Image>, j: Option<Journal>, base: seq<Image>, k: nat)
    requires Found(file, j, base) && Settled(base) && (j.Some? ==> !Hot(j.value)) && k < |RecoveryTrace(Booted(file, j))|
    ensures Reopens(RecoveryTrace(Booted(file, j))[k])
  {
    ReopensIff(RecoveryTrace(Booted(file, j))[k]);
  }

  datatype Left = Left(file: seq<Image>, journal: Option<Journal>)

  /** What is on disk after recovery was started and cut off, again and again, each
      time at the given step. */
  function AfterCrashes(left: Left, crashes: seq<nat>): Left
    decreases |crashes|
  {
    if |crashes| == 0 then left
    else
      var t := RecoveryTrace(Booted(left.file, left.journal));
      var d := t[crashes[0] % |t|];
      AfterCrashes(Left(d.file, Visible(d)), crashes[1..])
  }

  /** Convergence: after any number of interrupted recoveries the file still opens,
      and one that is left alone brings back exactly the same state. */
  lemma {:induction false} RecoveryConverges(left: Left, base: seq<Image>, crashes: seq<nat>)
    requires Found(left.file, left.journal, base) && Openable(left.file) && Settled(base)
    ensures
      var now := AfterCrashes(left, crashes);
      Openable(now.file) && Found(now.file, now.journal, base) && Recovered(now.file, now.journal) == base
    decreases |crashes|
  {
    if |crashes| == 0 {
      FoundIsRecovered(left.file, left.journal, base);
    } else {
      var t := RecoveryTrace(Booted(left.file, left.journal));
      var d := t[crashes[0] % |t|];
      RecoveryIsSound(left.file, left.journal, base);
      CrashIsFound(d, base, base);
      RecoveryConverges(Left(d.file, Visible(d)), base, crashes[1..]);
    }
  }

  /** From a crash at any point of a transaction: every reopening passes the length
      check, and recovery arrives at the state before the transaction. */
  lemma CrashConverges(d: Disk, base: seq<Image>, prev: seq<Image>, crashes: seq<nat>)
    requires Guarded(d, base, prev) && Openable(d.file) && Settled(base)
    ensures
      var now := AfterCrashes(Left(d.file, Visible(d)), crashes);
      Openable(now.file) && Recovered(now.file, now.journal) == base
  {
    CrashIsFound(d, base, prev);
    RecoveryConverges(Left(d.file, Visible(d)), base, crashes);
  }

  /** Whatever the state of the disk at which a run was cut off: if any combination
      of the unsynced writes survives, recovery yields the state before the run or,
      only while the journal of the commit before can come back, the one before that;
      and if writes survive in order, every reopening succeeds and recovery, however
      often interrupted, yields the state before the run. */
  lemma CrashAnywhere(run: seq<Disk>, i: nat, base: seq<Image>, prev: seq<Image>, crashes: seq<nat>)
    requires Sound(run, base, prev) && i < |run| && Settled(base)
    ensures Recoverable(run[i], base, if run[i].undead.Some? then prev else base)
    ensures
      var now := AfterCrashes(Left(run[i].file, Visible(run[i])), crashes);
      Openable(now.file) && Recovered(now.file, now.journal) == base
  {
    GuardedIsRecoverable(run[i], base, prev);
    CrashConverges(run[i], base, prev, crashes);
  }
}
