/** The database file, the rollback journal, and what a crash may leave of them.

    A crash is taken at its worst: of the pages written since the last sync each
    may hold the old bytes, the new ones or a torn mixture, in any combination;
    an unlinked journal may come back until the directory is synced. Recovery is
    a function of what is left. */
module Durability {
  import opened Basics
  import Trees
  import TreeCells

  /** The fields of the file header that the page layer uses. */
  datatype Header = Header(pageCount: nat, trunk: PageId, freeCount: nat, cookie: nat)

  /** What the bytes of a page decode to: a page of zeros, the catalog, which lives on
      page 1 alone, a page of a tree, chain or freelist, or nothing. */
  datatype Content =
    | Zeros
    | Catalog(roots: seq<TreeCells.Root>)
    | Body(page: Trees.Page<TreeCells.Cell>)
    | Garbled(bytes: seq<nat>)

  /** A page; only page 1 has a file header. */
  datatype Image = Image(head: Header, rest: Content)

  const NO_HEADER: Header := Header(0, 0, 0, 0)

  const ZEROS: Image := Image(NO_HEADER, Zeros)

  /** `intact` says that the stored checksum matches. */
  datatype Record = Record(page: PageId, image: Image, intact: bool)

  /** `armed` says that the magic and the record count are in place. */
  datatype Journal = Journal(armed: bool, before: nat, records: seq<Record>)

  const NO_JOURNAL: Journal := Journal(false, 0, [])

  /** A file's page, zeros past its end. */
  function PageAt(file: seq<Image>, id: PageId): Image {
    if 1 <= id <= |file| then file[id - 1] else ZEROS
  }

  /** Zero-fill the file up to n pages. */
  function Extended(file: seq<Image>, n: nat): (r: seq<Image>)
    ensures |r| == if n > |file| then n else |file|
    ensures forall id: PageId :: PageAt(r, id) == PageAt(file, id)
  {
    var r := if n <= |file| then file else file + seq(n - |file|, i => ZEROS);
    r
  }

  /** A page write; writing past the end zero-fills the gap. */
  function WritePage(file: seq<Image>, id: PageId, image: Image): (r: seq<Image>)
    requires id >= 1
    ensures |r| == if id > |file| then id else |file|
    ensures PageAt(r, id) == image && forall k: PageId :: k != id ==> PageAt(r, k) == PageAt(file, k)
  {
    Extended(file, id)[id - 1 := image]
  }

  function Resized(file: seq<Image>, n: nat): (r: seq<Image>)
    ensures |r| == n && forall id: PageId :: id <= n ==> PageAt(r, id) == PageAt(file, id)
  {
    Extended(file, n)[..n]
  }

  /** Two files with the same length and the same pages are the same file. */
  lemma SameFile(a: seq<Image>, b: seq<Image>)
    requires |a| == |b| && forall id: PageId :: 1 <= id <= |a| ==> PageAt(a, id) == PageAt(b, id)
    ensures a == b
  {
    forall i | 0 <= i < |a| ensures a[i] == b[i] { assert PageAt(a, i + 1) == PageAt(b, i + 1); }
  }

  // ---- Undoing ----

  /** Restore records in order up to the first whose checksum fails. */
  function Replayed(file: seq<Image>, records: seq<Record>): seq<Image>
    decreases |records|
  {
    if |records| == 0 || !records[0].intact || records[0].page < 1 then file
    else Replayed(WritePage(file, records[0].page, records[0].image), records[1..])
  }

  function Hot(j: Journal): bool {
    j.armed && |j.records| > 0
  }

  /** What opening the database makes of a file and a journal. */
  function Recovered(file: seq<Image>, journal: Option<Journal>): seq<Image> {
    if journal.Some? && Hot(journal.value) then Resized(Replayed(file, journal.value.records), journal.value.before)
    else file
  }

  predicate Recorded(records: seq<Record>, id: PageId) {
    exists i :: 0 <= i < |records| && records[i].page == id
  }

  /** Every record holds the page as it was in `base`, and is readable. */
  ghost predicate Faithful(records: seq<Record>, base: seq<Image>) {
    forall i :: 0 <= i < |records| ==>
      records[i].intact && 1 <= records[i].page <= |base| && records[i].image == PageAt(base, records[i].page)
  }

  ghost predicate OncePerPage(records: seq<Record>) {
    forall i, j :: 0 <= i < j < |records| ==> records[i].page != records[j].page
  }

  /** The journal undoes everything that was done to `base`. */
  ghost predicate Undoes(j: Journal, base: seq<Image>) {
    j.before == |base| && Faithful(j.records, base) && OncePerPage(j.records)
  }

  /** Outside the recorded pages the file still holds what `base` held. */
  ghost predicate Covers(file: seq<Image>, records: seq<Record>, base: seq<Image>) {
    forall id: PageId :: 1 <= id <= |base| && !Recorded(records, id) ==> PageAt(file, id) == PageAt(base, id)
  }

  lemma {:induction false} ReplayRestores(file: seq<Image>, records: seq<Record>, base: seq<Image>, id: PageId)
    requires Faithful(records, base) && 1 <= id <= |base|
    requires Recorded(records, id) || PageAt(file, id) == PageAt(base, id)
    ensures PageAt(Replayed(file, records), id) == PageAt(base, id)
    decreases |records|
  {
    if |records| > 0 {
      assert records[0].intact && 1 <= records[0].page <= |base| && records[0].image == PageAt(base, records[0].page);
      var next := WritePage(file, records[0].page, records[0].image);
      if Recorded(records, id) && PageAt(next, id) != PageAt(base, id) {
        var i :| 0 <= i < |records| && records[i].page == id;
        assert records[1..][i - 1].page == id;
      }
      ReplayRestores(next, records[1..], base, id);
    }
  }

  /** The heart of it: however the recorded pages and the length of the file were
      damaged, recovery brings back exactly `base`. */
  lemma RecoveryRestores(file: seq<Image>, j: Journal, base: seq<Image>)
    requires Hot(j) && Undoes(j, base) && Covers(file, j.records, base)
    ensures Recovered(file, Some(j)) == base
  {
    var r := Recovered(file, Some(j));
    forall id: PageId | 1 <= id <= |r| ensures PageAt(r, id) == PageAt(base, id) {
      ReplayRestores(file, j.records, base, id);
    }
    SameFile(r, base);
  }

  // ---- The disk ----

  /** How much of the journal is certain to be found after a crash. */
  datatype Stage =
    | Absent          // no journal file
    | Loose           // written, not synced: may be missing, garbled or cut short, but has no magic
    | Synced          // contents and name are durable; no magic yet
    | Arming          // the magic is written, not synced: there or not
    | Armed           // valid for certain

  /** `file` is what the operating system shows; `durable` is what was there at the
      last sync and `touched` the pages written since. `undead` is an unlinked
      valid journal whose name may still be in the directory after a crash. */
  datatype Disk = Disk(file: seq<Image>, durable: seq<Image>, touched: set<PageId>,
                       stage: Stage, journal: Journal, undead: Option<Journal>)

  ghost predicate FileSurvives(d: Disk, file: seq<Image>) {
    && Min(|d.durable|, |d.file|) <= |file| <= |d.durable| + |d.file| - Min(|d.durable|, |d.file|)
    && forall id: PageId :: 1 <= id <= |file| && id <= |d.durable| && id !in d.touched ==> PageAt(file, id) == PageAt(d.durable, id)
  }

  ghost predicate JournalSurvives(d: Disk, j: Option<Journal>) {
    || (d.undead.Some? && j == d.undead)
    || match d.stage
       case Absent => j.None? || !Hot(j.value)
       case Loose => j.None? || !Hot(j.value)
       case Synced => j.Some? && !Hot(j.value)
       case Arming => j.Some? && (!Hot(j.value) || j.value == d.journal.(armed := true))
       case Armed => j == Some(d.journal.(armed := true))
  }

  /** Wherever the crash, the database comes back as one of two states. */
  ghost predicate Recoverable(d: Disk, a: seq<Image>, b: seq<Image>) {
    forall file, j {:trigger FileSurvives(d, file), JournalSurvives(d, j)} ::
      FileSurvives(d, file) && JournalSurvives(d, j) ==> Recovered(file, j) == a || Recovered(file, j) == b
  }

  /** Nothing has been written: the file is the base, whatever the journal. A
      journal that may come back undoes the last commit. */
  ghost predicate Quiet(d: Disk, base: seq<Image>, prev: seq<Image>) {
    && d.file == base && d.durable == base && d.touched == {}
    && (d.stage.Loose? || d.stage.Synced? ==> !Hot(d.journal))
    && (d.stage.Arming? || d.stage.Armed? ==> d.journal.armed && Recorded(d.journal.records, 1) && Undoes(d.journal, base))
    && (d.undead.Some? ==>
          && (d.stage.Absent? || d.stage.Loose?)
          && d.undead.value.armed && Recorded(d.undead.value.records, 1) && Undoes(d.undead.value, prev) && Covers(base, d.undead.value.records, prev))
  }

  /** The journal is certain: recorded pages, and pages past the base, may hold anything. */
  ghost predicate Busy(d: Disk, base: seq<Image>) {
    && d.stage.Armed? && d.journal.armed && d.undead.None? && Undoes(d.journal, base) && Recorded(d.journal.records, 1)
    && |d.durable| >= |base| && |d.file| >= |base|
    && Covers(d.durable, d.journal.records, base)
    && Covers(d.file, d.journal.records, base)
    && forall id: PageId :: id in d.touched && id <= |base| ==> Recorded(d.journal.records, id)
  }

  /** What keeps the disk recoverable; `prev` is the state before the last commit. */
  ghost predicate Guarded(d: Disk, base: seq<Image>, prev: seq<Image>) {
    Quiet(d, base, prev) || Busy(d, base)
  }

  lemma QuietSurvivor(d: Disk, base: seq<Image>, prev: seq<Image>, file: seq<Image>, j: Option<Journal>)
    requires Quiet(d, base, prev) && FileSurvives(d, file) && JournalSurvives(d, j)
    ensures Recovered(file, j) == base || (d.undead.Some? && Recovered(file, j) == prev)
  {
    SameFile(file, base);
    if d.undead.Some? && j == d.undead {
      RecoveryRestores(file, d.undead.value, prev);
    } else if j.Some? && Hot(j.value) {
      RecoveryRestores(file, j.value, base);
    }
  }

  lemma BusySurvivor(d: Disk, base: seq<Image>, file: seq<Image>, j: Option<Journal>)
    requires Busy(d, base) && FileSurvives(d, file) && JournalSurvives(d, j)
    ensures Recovered(file, j) == base
  {
    forall id: PageId | 1 <= id <= |base| && !Recorded(d.journal.records, id) ensures PageAt(file, id) == PageAt(base, id) {
      assert id !in d.touched;
    }
    RecoveryRestores(file, j.value, base);
  }

  /** Atomicity: a guarded disk comes back as the base, or, only as long as the
      journal of the last commit can come back, as the state before that commit. */
  lemma GuardedIsRecoverable(d: Disk, base: seq<Image>, prev: seq<Image>)
    requires Guarded(d, base, prev)
    ensures Recoverable(d, base, if d.undead.Some? then prev else base)
  {
    forall file, j | FileSurvives(d, file) && JournalSurvives(d, j)
      ensures Recovered(file, j) == base || (d.undead.Some? && Recovered(file, j) == prev) {
      if Quiet(d, base, prev) { QuietSurvivor(d, base, prev, file, j); } else { BusySurvivor(d, base, file, j); }
    }
  }

  // ---- The steps that touch the disk ----

  function BeginJournal(d: Disk, before: nat): Disk {
    d.(stage := Loose, journal := Journal(false, before, []))
  }

  function AppendRecord(d: Disk, r: Record): Disk {
    d.(journal := d.journal.(records := d.journal.records + [r]))
  }

  /** The first half of the barrier: contents and name of the journal. */
  function SyncJournal(d: Disk): Disk {
    d.(stage := Synced, undead := None)
  }

  function WriteMagic(d: Disk): Disk {
    d.(stage := Arming, journal := d.journal.(armed := true))
  }

  function SyncMagic(d: Disk): Disk {
    d.(stage := Armed)
  }

  function WriteDb(d: Disk, id: PageId, image: Image): Disk
    requires id >= 1
  {
    d.(file := WritePage(d.file, id, image), touched := d.touched + {id})
  }

  function TruncateDb(d: Disk, n: nat): Disk {
    d.(file := Resized(d.file, n))
  }

  function SyncDb(d: Disk): Disk {
    d.(durable := d.file, touched := {})
  }

  function Unlink(d: Disk): Disk {
    d.(stage := Absent, journal := NO_JOURNAL, undead := if d.stage.Armed? then Some(d.journal) else d.undead)
  }

  /** Before the barrier nothing reaches the database file. */
  lemma JournalSteps(d: Disk, base: seq<Image>, prev: seq<Image>, r: Record)
    requires Quiet(d, base, prev)
    ensures d.stage.Absent? ==> Quiet(BeginJournal(d, |base|), base, prev)
    ensures d.stage.Loose? && !d.journal.armed ==> Quiet(AppendRecord(d, r), base, prev)
    ensures d.stage.Loose? ==> Quiet(SyncJournal(d), base, prev)
    ensures d.stage.Synced? && Undoes(d.journal, base) && Recorded(d.journal.records, 1) ==> Quiet(WriteMagic(d), base, prev)
    ensures d.stage.Arming? ==> Quiet(SyncMagic(d), base, prev)
  {
  }

  /** Once the journal is certain the file is as good as covered. */
  lemma BarrierPassed(d: Disk, base: seq<Image>, prev: seq<Image>)
    requires Quiet(d, base, prev) && d.stage.Armed?
    ensures Busy(d, base)
  {
  }

  /** After the barrier a recorded page, or one past the base, may be written. */
  lemma DbSteps(d: Disk, base: seq<Image>, id: PageId, image: Image, n: nat)
    requires Busy(d, base) && id >= 1 && n >= |base|
    ensures Recorded(d.journal.records, id) || id > |base| ==> Busy(WriteDb(d, id, image), base)
    ensures Busy(SyncDb(d), base)
    ensures Busy(TruncateDb(d, n), base)
  {
  }

  /** Unlinking the journal of a synced file commits what the file holds; until the
      directory is synced the old state may come back instead. */
  lemma UnlinkCommits(d: Disk, base: seq<Image>)
    requires Busy(d, base) && d.durable == d.file && d.touched == {}
    ensures Quiet(Unlink(d), d.file, base)
  {
  }

  lemma UnlinkAbandons(d: Disk, base: seq<Image>, prev: seq<Image>)
    requires Quiet(d, base, prev) && (d.stage.Loose? || d.stage.Absent?)
    ensures Quiet(Unlink(d), base, prev)
  {
  }

  // ---- Traces ----

  /** `Pager.open` accepts the file: it holds all pages its header claims. */
  ghost predicate Openable(file: seq<Image>) {
    |file| >= 1 && |file| >= file[0].head.pageCount
  }

  /** After a power loss the length check passes, whatever survives. */
  ghost predicate Reopens(d: Disk) {
    forall file :: FileSurvives(d, file) ==> Openable(file)
  }

  /** Page 1 is synced, and no file that can be left is too short for its count. */
  ghost predicate HeaderHolds(d: Disk) {
    && 1 !in d.touched && |d.durable| >= 1 && |d.file| >= 1
    && d.durable[0].head.pageCount <= Min(|d.durable|, |d.file|)
  }

  /** A power loss leaves a file that can be opened exactly if page 1 has not been
      written since the last sync and its page count is at most both lengths. */
  lemma ReopensIff(d: Disk)
    requires |d.durable| >= 1 && |d.file| >= 1
    ensures Reopens(d) <==> HeaderHolds(d)
  {
    var n := Min(|d.durable|, |d.file|);
    if HeaderHolds(d) {
      forall file | FileSurvives(d, file) ensures Openable(file) {
        assert PageAt(file, 1) == PageAt(d.durable, 1);
      }
    } else {
      var head := if 1 in d.touched then Header(n + 1, 0, 0, 0) else d.durable[0].head;
      var left := d.durable[..n][0 := d.durable[0].(head := head)];
      assert PageAt(left, 1) == left[0];
      assert FileSurvives(d, left) && !Openable(left);
    }
  }

  /** Of these states just the one at `bad` may fail to reopen after a power loss. */
  ghost predicate ReopensBut(ds: seq<Disk>, bad: int) {
    forall i :: 0 <= i < |ds| ==> (Reopens(ds[i]) <==> i != bad)
  }

  /** A crash at any of these states is survived, and the file can be reopened. */
  ghost predicate Sound(ds: seq<Disk>, base: seq<Image>, prev: seq<Image>) {
    forall i :: 0 <= i < |ds| ==> Guarded(ds[i], base, prev) && Openable(ds[i].file)
  }

  /** A committed file: its header counts its pages. */
  ghost predicate Settled(base: seq<Image>) {
    |base| >= 1 && base[0].head.pageCount == |base|
  }

  lemma Extend(t: seq<Disk>, start: nat, d: Disk, base: seq<Image>, prev: seq<Image>)
    requires start <= |t| && Sound(t[start..], base, prev) && Guarded(d, base, prev) && Openable(d.file)
    ensures Sound((t + [d])[start..], base, prev)
  {
    assert (t + [d])[start..] == t[start..] + [d];
  }
}
