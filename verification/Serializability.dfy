/** Strict two-phase locking: every run of reads and writes that the locks permit
    has the effect of the committed transactions one after the other, in the order
    in which they released their locks.

    A transaction that writes holds the writer lock exclusively from before its
    first write to the end; rolling it back puts the database back to what it was
    when that lock was granted. A transaction ends in three steps, and others may
    run between them: it commits or rolls back, it gives up the hook that names it
    as the writer, and only then it releases its locks. */
module Serializability {
  import opened Basics
  import opened WaitGraph
  import opened Locks

  type Table = Resource
  type Content = int

  /** The resource that makes its holder the one writer. */
  const WRITER: Resource := 0

  type Database = map<Table, Content>

  datatype Op =
    | Read(table: Table, seen: Option<Content>)
    | Write(table: Table, content: Content)

  function Lookup(db: Database, x: Table): Option<Content> {
    if x in db then Some(db[x]) else None
  }

  // ---- One transaction alone ----

  /** What a transaction makes of a database when nobody else is there. */
  function Apply(db: Database, log: seq<Op>): Database {
    if |log| == 0 then db
    else
      var before := Apply(db, log[..|log| - 1]);
      match log[|log| - 1]
      case Read(_, _) => before
      case Write(x, c) => before[x := c]
  }

  /** Alone on this database, the transaction would have read what it read. */
  ghost predicate Consistent(db: Database, log: seq<Op>) {
    |log| == 0 ||
    ( && Consistent(db, log[..|log| - 1])
      && (log[|log| - 1].Read? ==> log[|log| - 1].seen == Lookup(Apply(db, log[..|log| - 1]), log[|log| - 1].table)))
  }

  /** The transactions one after the other. */
  function Serially(db: Database, logs: seq<seq<Op>>): Database {
    if |logs| == 0 then db else Apply(Serially(db, logs[..|logs| - 1]), logs[|logs| - 1])
  }

  /** And each of them reads what it read in the run. */
  ghost predicate SerialOk(db: Database, logs: seq<seq<Op>>) {
    |logs| == 0 || (SerialOk(db, logs[..|logs| - 1]) && Consistent(Serially(db, logs[..|logs| - 1]), logs[|logs| - 1]))
  }

  // ---- Runs ----

  type LockTable = map<Resource, seq<Hold>>

  /** A committed transaction that still has its locks. */
  datatype Done = Done(txn: Txn, log: seq<Op>)

  datatype Stage = Finished | Unhooked

  /** `logs` are those of the active transactions; `ending` are the ones that have
      finished but still have their locks, among them those in `pending`, which
      committed. `base` and `basePages` are the database and its page count as they
      were when the writer lock was last granted. */
  datatype State = State(db: Database, pages: nat, locks: LockTable, logs: map<Txn, seq<Op>>, hook: Option<Txn>, journals: set<Txn>,
                         base: Database, basePages: nat, ending: map<Txn, Stage>, pending: seq<Done>, released: seq<seq<Op>>)

  datatype Action =
    | Begin(t: Txn)
    | Lock(t: Txn, x: Resource, mode: Mode)
    | TakeHook(t: Txn)
    | OpenJournal(t: Txn)
    | Grow(t: Txn)
    | ReadTable(t: Txn, x: Table)
    | WriteTable(t: Txn, x: Table, content: Content)
    | Commit(t: Txn)
    | Rollback(t: Txn)
    | Unhook(t: Txn)
    | Release(t: Txn)

  function HoldersOf(locks: LockTable, r: Resource): seq<Hold> {
    if r in locks then locks[r] else []
  }

  function Has(locks: LockTable, r: Resource, t: Txn, mode: Mode): bool {
    Hold(t, mode) in HoldersOf(locks, r) || Hold(t, Exclusive) in HoldersOf(locks, r)
  }

  function Released(locks: LockTable, t: Txn): LockTable {
    map r | r in locks :: Drop(locks[r], t)
  }

  /** Where a transaction stands in the queue of committed ones, if it does. */
  function Spot(ps: seq<Done>, t: Txn): (i: nat)
    ensures i <= |ps| && (i < |ps| ==> ps[i].txn == t) && forall j :: 0 <= j < i ==> ps[j].txn != t
  {
    if |ps| == 0 || ps[0].txn == t then 0 else 1 + Spot(ps[1..], t)
  }

  /** What each step needs: the grant of a lock fits the holders; a read is under a
      lock; a write is under an exclusive lock by the hooked writer with its journal
      open; and the steps of an ending come in their order. */
  predicate Enabled(s: State, a: Action) {
    match a
    case Begin(t) => t !in s.logs && t !in s.ending && forall r :: r in s.locks ==> ModeOf(s.locks[r], t).None?
    case Lock(t, x, mode) => t in s.logs && Fits(HoldersOf(s.locks, x), t, mode) && (x == WRITER ==> mode.Exclusive?)
    case TakeHook(t) => t in s.logs && Has(s.locks, WRITER, t, Exclusive)
    case OpenJournal(t) => t in s.logs && s.hook == Some(t)
    case Grow(t) => t in s.logs && s.hook == Some(t)
    case ReadTable(t, x) => t in s.logs && x != WRITER && Has(s.locks, x, t, Shared)
    case WriteTable(t, x, _) => t in s.logs && x != WRITER && t in s.journals && Has(s.locks, x, t, Exclusive)
    case Commit(t) => t in s.logs
    case Rollback(t) => t in s.logs
    case Unhook(t) => t in s.ending && s.ending[t].Finished?
    case Release(t) => t in s.ending && s.ending[t].Unhooked?
  }

  function Next(s: State, a: Action): State
    requires Enabled(s, a)
  {
    match a
    case Begin(t) => s.(logs := s.logs[t := []])
    case Lock(t, x, mode) =>
      if Has(s.locks, x, t, mode) then s
      else
        var granted := s.locks[x := Grant(HoldersOf(s.locks, x), t, mode)];
        if x == WRITER then s.(locks := granted, base := s.db, basePages := s.pages) else s.(locks := granted)
    case TakeHook(t) => s.(hook := Some(t))
    case OpenJournal(t) => s.(journals := s.journals + {t})
    case Grow(t) => s.(pages := s.pages + 1)
    case ReadTable(t, x) => s.(logs := s.logs[t := s.logs[t] + [Read(x, Lookup(s.db, x))]])
    case WriteTable(t, x, c) => s.(db := s.db[x := c], logs := s.logs[t := s.logs[t] + [Write(x, c)]])
    case Commit(t) =>
      s.(pending := s.pending + [Done(t, s.logs[t])], logs := s.logs - {t}, journals := s.journals - {t}, ending := s.ending[t := Finished])
    case Rollback(t) =>
      var undo := t in s.journals;
      s.(db := if undo then s.base else s.db, pages := if undo then s.basePages else s.pages,
         logs := s.logs - {t}, journals := s.journals - {t}, ending := s.ending[t := Finished])
    case Unhook(t) => s.(hook := if s.hook == Some(t) then None else s.hook, ending := s.ending[t := Unhooked])
    case Release(t) =>
      var s' := s.(locks := Released(s.locks, t), ending := s.ending - {t});
      var i := Spot(s.pending, t);
      if i == |s.pending| then s'
      else s'.(released := s.released + [s.pending[i].log], pending := s.pending[..i] + s.pending[i + 1..])
  }

  function Initial(db: Database, pages: nat): State {
    State(db, pages, map[], map[], None, {}, db, pages, map[], [], [])
  }

  /** A run: each step is enabled in the state the steps before it lead to. */
  predicate Legal(s: State, actions: seq<Action>)
    decreases |actions|
  {
    |actions| == 0 || (Enabled(s, actions[0]) && Legal(Next(s, actions[0]), actions[1..]))
  }

  function After(s: State, actions: seq<Action>): State
    requires Legal(s, actions)
    decreases |actions|
  {
    if |actions| == 0 then s else After(Next(s, actions[0]), actions[1..])
  }

  // ---- The invariant ----

  ghost predicate LocksOk(locks: LockTable) {
    forall r {:trigger LockOk(locks, r)} :: LockOk(locks, r)
  }

  ghost predicate LockOk(locks: LockTable, r: Resource) {
    Compatible(HoldersOf(locks, r))
  }

  /** Every operation of the log is on a table its transaction still has locked. */
  ghost predicate Covered(locks: LockTable, t: Txn, log: seq<Op>) {
    forall i :: 0 <= i < |log| ==>
      log[i].table != WRITER && Has(locks, log[i].table, t, if log[i].Read? then Shared else Exclusive)
  }

  ghost predicate NoWrites(log: seq<Op>) {
    forall i :: 0 <= i < |log| ==> log[i].Read?
  }

  ghost predicate ActiveOk(s: State, done: Database, t: Txn) {
    t in s.logs ==>
      && Covered(s.locks, t, s.logs[t]) && Consistent(done, s.logs[t]) && t !in s.ending
      && (t !in s.journals ==> NoWrites(s.logs[t]))
      && (Has(s.locks, WRITER, t, Exclusive) ==> s.base == done && s.basePages <= s.pages && (s.hook == Some(t) || s.pages == s.basePages))
  }

  ghost predicate ActivesOk(s: State, done: Database) {
    forall t {:trigger ActiveOk(s, done, t)} :: ActiveOk(s, done, t)
  }

  ghost predicate PendingOk(s: State, i: int) {
    0 <= i < |s.pending| ==>
      && Covered(s.locks, s.pending[i].txn, s.pending[i].log) && s.pending[i].txn in s.ending
      && forall j :: 0 <= j < i ==> s.pending[j].txn != s.pending[i].txn
  }

  ghost predicate PendingsOk(s: State) {
    forall i {:trigger PendingOk(s, i)} :: PendingOk(s, i)
  }

  /** The hook names the holder of the writer lock, and only that transaction has a
      journal; nobody else has changed the database. */
  ghost predicate WriterOk(s: State, done: Database) {
    && (forall t :: t in s.journals ==> s.hook == Some(t) && t in s.logs)
    && match s.hook
       case None => s.db == done
       case Some(w) =>
         && Has(s.locks, WRITER, w, Exclusive)
         && (if w in s.logs then s.db == Apply(done, s.logs[w]) else w in s.ending && s.ending[w].Finished? && s.db == done)
  }

  ghost function LogsOf(ps: seq<Done>): (r: seq<seq<Op>>)
    ensures |r| == |ps| && forall i :: 0 <= i < |r| ==> r[i] == ps[i].log
  {
    seq(|ps|, i requires 0 <= i < |ps| => ps[i].log)
  }

  /** The committed transactions: those that have released their locks, in that
      order, then those that have not, in the order they committed. */
  ghost function Order(s: State): seq<seq<Op>> {
    s.released + LogsOf(s.pending)
  }

  /** `done` is the database of the committed transactions. */
  ghost predicate Inv(db0: Database, s: State, done: Database) {
    && done == Serially(db0, Order(s)) && SerialOk(db0, Order(s))
    && LocksOk(s.locks) && ActivesOk(s, done) && PendingsOk(s) && WriterOk(s, done)
  }

  // ---- Logs ----

  ghost predicate Mentions(log: seq<Op>, x: Table) {
    exists i :: 0 <= i < |log| && log[i].table == x
  }

  ghost predicate Writes(log: seq<Op>, x: Table) {
    exists i :: 0 <= i < |log| && log[i].Write? && log[i].table == x
  }

  lemma {:induction false} ApplyElsewhere(db: Database, log: seq<Op>, x: Table)
    requires !Writes(log, x)
    ensures Lookup(Apply(db, log), x) == Lookup(db, x)
    decreases |log|
  {
    if |log| > 0 {
      var rest := log[..|log| - 1];
      assert !Writes(rest, x);
      ApplyElsewhere(db, rest, x);
      assert log[|log| - 1].Write? ==> log[|log| - 1].table != x;
    }
  }

  lemma {:induction false} ApplyReads(db: Database, log: seq<Op>)
    requires NoWrites(log)
    ensures Apply(db, log) == db
    decreases |log|
  {
    if |log| > 0 { ApplyReads(db, log[..|log| - 1]); }
  }

  ghost predicate AgreeOn(a: Database, b: Database, log: seq<Op>) {
    forall x {:trigger Mentions(log, x)} :: Mentions(log, x) ==> Lookup(a, x) == Lookup(b, x)
  }

  /** A log cannot tell apart databases that agree on its tables. */
  lemma {:induction false} SameForLog(a: Database, b: Database, log: seq<Op>, x: Table)
    requires AgreeOn(a, b, log)
    ensures Consistent(a, log) ==> Consistent(b, log)
    ensures Lookup(a, x) == Lookup(b, x) ==> Lookup(Apply(a, log), x) == Lookup(Apply(b, log), x)
    decreases |log|
  {
    if |log| > 0 {
      var rest, last := log[..|log| - 1], log[|log| - 1];
      forall y | Mentions(rest, y) ensures Lookup(a, y) == Lookup(b, y) {
        var i :| 0 <= i < |rest| && rest[i].table == y;
        assert log[i].table == y;
        assert Mentions(log, y);
      }
      SameForLog(a, b, rest, x);
      SameForLog(a, b, rest, last.table);
      assert Mentions(log, last.table);
    }
  }

  lemma ApplyOne(db: Database, log: seq<Op>, op: Op)
    ensures Apply(db, log + [op]) == match op { case Read(_, _) => Apply(db, log) case Write(x, c) => Apply(db, log)[x := c] }
    ensures Consistent(db, log + [op]) <==>
              Consistent(db, log) && (op.Read? ==> op.seen == Lookup(Apply(db, log), op.table))
  {
    assert (log + [op])[..|log|] == log;
  }

  lemma SerialOne(db: Database, logs: seq<seq<Op>>, log: seq<Op>)
    ensures Serially(db, logs + [log]) == Apply(Serially(db, logs), log)
    ensures SerialOk(db, logs + [log]) <==> SerialOk(db, logs) && Consistent(Serially(db, logs), log)
  {
    assert (logs + [log])[..|logs|] == logs;
  }

  // ---- Locks ----

  /** An exclusive holder shuts everybody else out. */
  lemma Excludes(locks: LockTable, r: Resource, t: Txn, u: Txn, mode: Mode)
    requires LocksOk(locks) && Has(locks, r, t, Exclusive) && Has(locks, r, u, mode)
    ensures t == u
  {
    assert LockOk(locks, r);
    var hs := HoldersOf(locks, r);
    var i :| 0 <= i < |hs| && hs[i] == Hold(t, Exclusive);
    assert |hs| == 1;
  }

  lemma GrantKeeps(locks: LockTable, x: Resource, t: Txn, mode: Mode)
    requires LocksOk(locks) && Fits(HoldersOf(locks, x), t, mode) && !Has(locks, x, t, mode)
    ensures LocksOk(locks[x := Grant(HoldersOf(locks, x), t, mode)])
    ensures forall r, u, m :: Has(locks, r, u, m) ==> Has(locks[x := Grant(HoldersOf(locks, x), t, mode)], r, u, m)
    ensures Has(locks[x := Grant(HoldersOf(locks, x), t, mode)], x, t, mode)
  {
    var hs := HoldersOf(locks, x);
    var locks' := locks[x := Grant(hs, t, mode)];
    assert LockOk(locks, x);
    GrantMeans(hs, t, mode);
    GrantFits(hs, t, mode);
    forall r ensures LockOk(locks', r) { assert LockOk(locks, r); }
    forall r, u, m | Has(locks, r, u, m) ensures Has(locks', r, u, m) {
      if r == x && u == t { assert m.Shared?; }
    }
  }

  lemma ReleaseKeeps(locks: LockTable, t: Txn)
    requires LocksOk(locks)
    ensures LocksOk(Released(locks, t))
    ensures forall r, u, m :: u != t && Has(locks, r, u, m) ==> Has(Released(locks, t), r, u, m)
    ensures forall r :: HoldersOf(Released(locks, t), r) == Drop(HoldersOf(locks, r), t)
  {
    forall r ensures LockOk(Released(locks, t), r) && HoldersOf(Released(locks, t), r) == Drop(HoldersOf(locks, r), t) {
      assert LockOk(locks, r);
      DropMeans(HoldersOf(locks, r), t);
    }
    forall r, u, m | u != t && Has(locks, r, u, m) ensures Has(Released(locks, t), r, u, m) { DropMeans(HoldersOf(locks, r), t); }
  }

  // ---- Transactions that do not conflict ----

  /** Neither writes a table that the other touches. */
  ghost predicate Apart(a: seq<Op>, b: seq<Op>) {
    forall x {:trigger Mentions(a, x)} {:trigger Mentions(b, x)} ::
      (Mentions(a, x) ==> !Writes(b, x)) && (Mentions(b, x) ==> !Writes(a, x))
  }

  /** Two transactions that have their locks at the same time do not conflict. */
  lemma LockedApart(locks: LockTable, t: Txn, a: seq<Op>, u: Txn, b: seq<Op>)
    requires LocksOk(locks) && Covered(locks, t, a) && Covered(locks, u, b) && t != u
    ensures Apart(a, b)
  {
    forall x ensures (Mentions(a, x) ==> !Writes(b, x)) && (Mentions(b, x) ==> !Writes(a, x)) {
      if Mentions(a, x) { NotWritten(locks, u, b, t, a, x); }
      if Mentions(b, x) { NotWritten(locks, t, a, u, b, x); }
    }
  }

  /** What one transaction touches, another did not write. */
  lemma NotWritten(locks: LockTable, w: Txn, log: seq<Op>, t: Txn, other: seq<Op>, x: Table)
    requires LocksOk(locks) && Covered(locks, w, log) && Covered(locks, t, other) && w != t && Mentions(other, x)
    ensures !Writes(log, x)
  {
    var k :| 0 <= k < |other| && other[k].table == x;
    assert Has(locks, x, t, Shared);
    if Writes(log, x) {
      var i :| 0 <= i < |log| && log[i].Write? && log[i].table == x;
      Excludes(locks, x, w, t, Shared);
    }
  }

  lemma AgreeAfter(db: Database, a: seq<Op>, b: seq<Op>)
    requires Apart(a, b)
    ensures AgreeOn(db, Apply(db, a), b)
  {
    forall x | Mentions(b, x) ensures Lookup(db, x) == Lookup(Apply(db, a), x) { ApplyElsewhere(db, a, x); }
  }

  lemma ReverseAgree(a: Database, b: Database, log: seq<Op>)
    requires AgreeOn(a, b, log)
    ensures AgreeOn(b, a, log)
  {
  }

  lemma SameDatabase(a: Database, b: Database)
    requires forall x :: Lookup(a, x) == Lookup(b, x)
    ensures a == b
  {
    forall x ensures (x in a <==> x in b) && (x in a ==> a[x] == b[x]) { assert Lookup(a, x) == Lookup(b, x); }
  }

  /** Their order does not matter. */
  lemma Commute(db: Database, a: seq<Op>, b: seq<Op>)
    requires Apart(a, b)
    ensures Apply(Apply(db, a), b) == Apply(Apply(db, b), a)
    ensures Consistent(db, a) && Consistent(Apply(db, a), b) ==> Consistent(db, b) && Consistent(Apply(db, b), a)
  {
    AgreeAfter(db, a, b);
    AgreeAfter(db, b, a);
    ReverseAgree(db, Apply(db, a), b);
    SameForLog(Apply(db, a), db, b, WRITER);
    SameForLog(db, Apply(db, b), a, WRITER);
    forall x ensures Lookup(Apply(Apply(db, a), b), x) == Lookup(Apply(Apply(db, b), a), x) { CommuteAt(db, a, b, x); }
    SameDatabase(Apply(Apply(db, a), b), Apply(Apply(db, b), a));
  }

  lemma CommuteAt(db: Database, a: seq<Op>, b: seq<Op>, x: Table)
    requires Apart(a, b)
    ensures Lookup(Apply(Apply(db, a), b), x) == Lookup(Apply(Apply(db, b), a), x)
  {
    AgreeAfter(db, a, b);
    AgreeAfter(db, b, a);
    if Writes(b, x) {
      WritesMentions(b, x);
      ApplyElsewhere(db, a, x);
      ApplyElsewhere(Apply(db, b), a, x);
      SameForLog(db, Apply(db, a), b, x);
    } else {
      ApplyElsewhere(db, b, x);
      ApplyElsewhere(Apply(db, a), b, x);
      SameForLog(db, Apply(db, b), a, x);
    }
  }

  lemma WritesMentions(log: seq<Op>, x: Table)
    requires Writes(log, x)
    ensures Mentions(log, x)
  {
  }

  lemma {:induction false} SerialSplit(db: Database, p: seq<seq<Op>>, q: seq<seq<Op>>)
    ensures Serially(db, p + q) == Serially(Serially(db, p), q)
    ensures SerialOk(db, p + q) <==> SerialOk(db, p) && SerialOk(Serially(db, p), q)
    decreases |q|
  {
    if |q| == 0 {
      assert p + q == p;
    } else {
      var n := |q| - 1;
      SerialSplit(db, p, q[..n]);
      assert (p + q)[..|p + q| - 1] == p + q[..n];
    }
  }

  lemma SerialTwo(db: Database, a: seq<Op>, b: seq<Op>)
    ensures Serially(db, [a, b]) == Apply(Apply(db, a), b)
    ensures SerialOk(db, [a, b]) <==> Consistent(db, a) && Consistent(Apply(db, a), b)
  {
    SerialOne(db, [], a);
    SerialOne(db, [a], b);
    assert [] + [a] == [a] && [a] + [b] == [a, b];
  }

  /** Two neighbours in a serial order that do not conflict may change places. */
  lemma SwapNeighbours(db: Database, p: seq<seq<Op>>, a: seq<Op>, b: seq<Op>, q: seq<seq<Op>>)
    requires Apart(a, b) && SerialOk(db, p + [a, b] + q)
    ensures SerialOk(db, p + [b, a] + q) && Serially(db, p + [b, a] + q) == Serially(db, p + [a, b] + q)
  {
    var here := Serially(db, p);
    SerialSplit(db, p + [a, b], q);
    SerialSplit(db, p, [a, b]);
    SerialSplit(db, p + [b, a], q);
    SerialSplit(db, p, [b, a]);
    SerialTwo(here, a, b);
    SerialTwo(here, b, a);
    Commute(here, a, b);
  }

  /** So one that conflicts with none of those before it may go first. */
  lemma {:induction false} MoveUp(db: Database, p: seq<seq<Op>>, q: seq<seq<Op>>, i: nat)
    requires i < |q| && SerialOk(db, p + q) && forall j :: 0 <= j < i ==> Apart(q[j], q[i])
    ensures SerialOk(db, p + [q[i]] + (q[..i] + q[i + 1..])) && Serially(db, p + [q[i]] + (q[..i] + q[i + 1..])) == Serially(db, p + q)
    decreases i
  {
    if i == 0 {
      assert p + [q[0]] + (q[..0] + q[1..]) == p + q;
    } else {
      var q' := q[..i - 1] + [q[i], q[i - 1]] + q[i + 1..];
      Neighbours(p, q, i);
      SwapNeighbours(db, p + q[..i - 1], q[i - 1], q[i], q[i + 1..]);
      forall j | 0 <= j < i - 1 ensures Apart(q'[j], q'[i - 1]) { assert q'[j] == q[j] && q'[i - 1] == q[i]; }
      MoveUp(db, p, q', i - 1);
    }
  }

  lemma Neighbours<T>(p: seq<T>, q: seq<T>, i: nat)
    requires 0 < i < |q|
    ensures
      var q' := q[..i - 1] + [q[i], q[i - 1]] + q[i + 1..];
      && p + q == (p + q[..i - 1]) + [q[i - 1], q[i]] + q[i + 1..] && p + q' == (p + q[..i - 1]) + [q[i], q[i - 1]] + q[i + 1..]
      && q'[i - 1] == q[i] && q'[..i - 1] + q'[i..] == q[..i] + q[i + 1..]
  {
    assert q == q[..i - 1] + [q[i - 1], q[i]] + q[i + 1..];
  }

  // ---- Every step keeps the invariant ----

  lemma SamePending(s: State, s': State)
    requires PendingsOk(s) && s'.pending == s.pending
    requires forall r, u, m :: Has(s.locks, r, u, m) ==> Has(s'.locks, r, u, m)
    requires forall t :: t in s.ending ==> t in s'.ending
    ensures PendingsOk(s')
  {
    forall i ensures PendingOk(s', i) { assert PendingOk(s, i); }
  }

  lemma StepBegin(db0: Database, s: State, done: Database, t: Txn)
    requires Inv(db0, s, done) && Enabled(s, Begin(t))
    ensures Inv(db0, Next(s, Begin(t)), done)
  {
    var s' := Next(s, Begin(t));
    SamePending(s, s');
    forall u ensures ActiveOk(s', done, u) {
      assert ActiveOk(s, done, u);
      if u == t { NoLocks(s.locks, t); }
    }
    if s.hook == Some(t) { NoLocks(s.locks, t); }
  }

  lemma NoLocks(locks: LockTable, t: Txn)
    requires forall r :: r in locks ==> ModeOf(locks[r], t).None?
    ensures forall r, m :: !Has(locks, r, t, m)
  {
  }

  lemma LockActive(db0: Database, s: State, done: Database, t: Txn, x: Resource, mode: Mode, u: Txn)
    requires Inv(db0, s, done) && Enabled(s, Lock(t, x, mode)) && !Has(s.locks, x, t, mode)
    requires forall y, v, n :: Has(s.locks, y, v, n) ==> Has(Next(s, Lock(t, x, mode)).locks, y, v, n)
    ensures ActiveOk(Next(s, Lock(t, x, mode)), done, u)
  {
    assert ActiveOk(s, done, u);
    if u in s.logs && Has(Next(s, Lock(t, x, mode)).locks, WRITER, u, Exclusive) { WriterGrant(s.locks, x, t, mode, u); }
  }

  lemma StepLock(db0: Database, s: State, done: Database, t: Txn, x: Resource, mode: Mode)
    requires Inv(db0, s, done) && Enabled(s, Lock(t, x, mode))
    ensures Inv(db0, Next(s, Lock(t, x, mode)), done)
  {
    var s' := Next(s, Lock(t, x, mode));
    if !Has(s.locks, x, t, mode) {
      GrantKeeps(s.locks, x, t, mode);
      SamePending(s, s');
      if x == WRITER && s.hook.Some? { WriterIsAlone(s.locks, s.hook.value, t); }
      forall u ensures ActiveOk(s', done, u) { LockActive(db0, s, done, t, x, mode, u); }
    }
  }

  /** A grant makes nobody the writer but the one who asked for the writer lock. */
  lemma WriterGrant(locks: LockTable, x: Resource, t: Txn, mode: Mode, u: Txn)
    requires LocksOk(locks) && Fits(HoldersOf(locks, x), t, mode) && (x == WRITER ==> mode.Exclusive?)
    requires Has(locks[x := Grant(HoldersOf(locks, x), t, mode)], WRITER, u, Exclusive)
    ensures if x == WRITER then u == t else Has(locks, WRITER, u, Exclusive)
  {
    if x == WRITER {
      assert LockOk(locks, x);
      GrantMeans(HoldersOf(locks, x), t, mode);
      if Hold(u, Exclusive) in HoldersOf(locks, x) { WriterIsAlone(locks, u, t); }
    }
  }

  /** Nobody else can be granted the writer lock. */
  lemma WriterIsAlone(locks: LockTable, w: Txn, t: Txn)
    requires LocksOk(locks) && Has(locks, WRITER, w, Exclusive) && Fits(HoldersOf(locks, WRITER), t, Exclusive)
    ensures w == t
  {
    var hs := HoldersOf(locks, WRITER);
    var i :| 0 <= i < |hs| && hs[i] == Hold(w, Exclusive);
  }

  lemma StepHook(db0: Database, s: State, done: Database, t: Txn)
    requires Inv(db0, s, done) && Enabled(s, TakeHook(t))
    ensures Inv(db0, Next(s, TakeHook(t)), done)
  {
    var s' := Next(s, TakeHook(t));
    SamePending(s, s');
    if s.hook.Some? { Excludes(s.locks, WRITER, s.hook.value, t, Exclusive); }
    assert ActiveOk(s, done, t);
    if s.hook.None? { ApplyReads(done, s.logs[t]); }
    forall u ensures ActiveOk(s', done, u) { assert ActiveOk(s, done, u); }
  }

  lemma StepJournal(db0: Database, s: State, done: Database, t: Txn)
    requires Inv(db0, s, done) && Enabled(s, OpenJournal(t))
    ensures Inv(db0, Next(s, OpenJournal(t)), done)
  {
    var s' := Next(s, OpenJournal(t));
    SamePending(s, s');
    forall u ensures ActiveOk(s', done, u) { assert ActiveOk(s, done, u); }
  }

  lemma StepGrow(db0: Database, s: State, done: Database, t: Txn)
    requires Inv(db0, s, done) && Enabled(s, Grow(t))
    ensures Inv(db0, Next(s, Grow(t)), done)
  {
    var s' := Next(s, Grow(t));
    SamePending(s, s');
    forall u ensures ActiveOk(s', done, u) {
      assert ActiveOk(s, done, u);
      if u in s.logs && Has(s.locks, WRITER, u, Exclusive) { Excludes(s.locks, WRITER, t, u, Exclusive); }
    }
  }

  /** What an active transaction reads is what its own log makes of the serial state. */
  lemma SeesDone(db0: Database, s: State, done: Database, t: Txn, x: Table)
    requires Inv(db0, s, done) && Enabled(s, ReadTable(t, x))
    ensures Consistent(done, s.logs[t] + [Read(x, Lookup(s.db, x))])
    ensures Apply(done, s.logs[t] + [Read(x, Lookup(s.db, x))]) == Apply(done, s.logs[t])
  {
    var op := Read(x, Lookup(s.db, x));
    assert ActiveOk(s, done, t);
    ApplyOne(done, s.logs[t], op);
    if s.hook != Some(t) {
      ApplyReads(done, s.logs[t]);
      if s.hook.Some? && s.hook.value in s.logs {
        assert ActiveOk(s, done, s.hook.value);
        NotWritten(s.locks, s.hook.value, s.logs[s.hook.value], t, [op], x) by { assert [op][0].table == x; }
        ApplyElsewhere(done, s.logs[s.hook.value], x);
      }
    }
  }

  lemma StepRead(db0: Database, s: State, done: Database, t: Txn, x: Table)
    requires Inv(db0, s, done) && Enabled(s, ReadTable(t, x))
    ensures Inv(db0, Next(s, ReadTable(t, x)), done)
  {
    var s' := Next(s, ReadTable(t, x));
    SamePending(s, s');
    SeesDone(db0, s, done, t, x);
    hide Apply;
    assert ActiveOk(s, done, t);
    forall u ensures ActiveOk(s', done, u) { assert ActiveOk(s, done, u); }
  }

  lemma StepWrite(db0: Database, s: State, done: Database, t: Txn, x: Table, c: Content)
    requires Inv(db0, s, done) && Enabled(s, WriteTable(t, x, c))
    ensures Inv(db0, Next(s, WriteTable(t, x, c)), done)
  {
    var s' := Next(s, WriteTable(t, x, c));
    SamePending(s, s');
    assert ActiveOk(s, done, t);
    ApplyOne(done, s.logs[t], Write(x, c));
    forall u ensures ActiveOk(s', done, u) { assert ActiveOk(s, done, u); }
  }

  /** What one transaction commits is invisible to the logs of all others. */
  lemma Undisturbed(s: State, done: Database, t: Txn, u: Txn)
    requires LocksOk(s.locks) && ActiveOk(s, done, t) && ActiveOk(s, done, u) && t in s.logs && u in s.logs && t != u
    ensures Consistent(Apply(done, s.logs[t]), s.logs[u])
  {
    LockedApart(s.locks, t, s.logs[t], u, s.logs[u]);
    AgreeAfter(done, s.logs[t], s.logs[u]);
    SameForLog(done, Apply(done, s.logs[t]), s.logs[u], WRITER);
  }

  lemma CommitActive(db0: Database, s: State, done: Database, t: Txn, u: Txn)
    requires Inv(db0, s, done) && Enabled(s, Commit(t))
    ensures ActiveOk(Next(s, Commit(t)), Apply(done, s.logs[t]), u)
  {
    assert ActiveOk(s, done, t) && ActiveOk(s, done, u);
    ApplyReadsIf(done, s.logs[t]);
    if u in s.logs && u != t {
      Undisturbed(s, done, t, u);
      if t in s.journals && Has(s.locks, WRITER, u, Exclusive) { Excludes(s.locks, WRITER, t, u, Exclusive); }
    }
  }

  lemma StepCommit(db0: Database, s: State, done: Database, t: Txn)
    requires Inv(db0, s, done) && Enabled(s, Commit(t))
    ensures Inv(db0, Next(s, Commit(t)), Apply(done, s.logs[t]))
  {
    var s', done' := Next(s, Commit(t)), Apply(done, s.logs[t]);
    assert ActiveOk(s, done, t);
    SerialOne(db0, Order(s), s.logs[t]);
    LogsMore(s.released, s.pending, Done(t, s.logs[t]));
    ApplyReadsIf(done, s.logs[t]);
    forall u ensures ActiveOk(s', done', u) { CommitActive(db0, s, done, t, u); }
    forall i ensures PendingOk(s', i) { PendingCommit(s, done, t, i); }
  }

  lemma LogsMore(released: seq<seq<Op>>, ps: seq<Done>, p: Done)
    ensures released + LogsOf(ps + [p]) == released + LogsOf(ps) + [p.log]
  {
  }

  lemma PendingCommit(s: State, done: Database, t: Txn, i: int)
    requires PendingsOk(s) && Enabled(s, Commit(t)) && ActiveOk(s, done, t)
    ensures PendingOk(Next(s, Commit(t)), i)
  {
    assert PendingOk(s, i);
    if i == |s.pending| { forall j | 0 <= j < i ensures s.pending[j].txn != t { assert PendingOk(s, j); } }
  }

  lemma StepRollback(db0: Database, s: State, done: Database, t: Txn)
    requires Inv(db0, s, done) && Enabled(s, Rollback(t))
    ensures Inv(db0, Next(s, Rollback(t)), done)
  {
    var s' := Next(s, Rollback(t));
    SamePending(s, s');
    assert ActiveOk(s, done, t);
    if t !in s.journals { ApplyReads(done, s.logs[t]); }
    forall u ensures ActiveOk(s', done, u) {
      assert ActiveOk(s, done, u);
      if u in s.logs && u != t && t in s.journals && Has(s.locks, WRITER, u, Exclusive) { Excludes(s.locks, WRITER, t, u, Exclusive); }
    }
  }

  lemma StepUnhook(db0: Database, s: State, done: Database, t: Txn)
    requires Inv(db0, s, done) && Enabled(s, Unhook(t))
    ensures Inv(db0, Next(s, Unhook(t)), done)
  {
    var s' := Next(s, Unhook(t));
    SamePending(s, s');
    assert ActiveOk(s, done, t);
    forall u ensures ActiveOk(s', done, u) { assert ActiveOk(s, done, u); }
  }

  /** Releasing its locks, a transaction takes its place in the serial order: it has
      had all of them until now, so it conflicts with none that committed before it
      and has not released yet. */
  lemma ReleaseOrder(db0: Database, s: State, done: Database, t: Txn)
    requires Inv(db0, s, done) && Enabled(s, Release(t))
    ensures
      var s' := Next(s, Release(t));
      Serially(db0, Order(s')) == done && SerialOk(db0, Order(s'))
  {
    var i, s' := Spot(s.pending, t), Next(s, Release(t));
    if i < |s.pending| {
      var q := LogsOf(s.pending);
      assert PendingOk(s, i);
      forall j | 0 <= j < i ensures Apart(q[j], q[i]) {
        assert PendingOk(s, j);
        LockedApart(s.locks, s.pending[j].txn, q[j], t, q[i]);
      }
      MoveUp(db0, s.released, q, i);
      LogsLess(s.pending, i);
    }
  }

  lemma LogsLess(ps: seq<Done>, i: nat)
    requires i < |ps|
    ensures LogsOf(ps[..i] + ps[i + 1..]) == LogsOf(ps)[..i] + LogsOf(ps)[i + 1..]
  {
  }

  lemma StepRelease(db0: Database, s: State, done: Database, t: Txn)
    requires Inv(db0, s, done) && Enabled(s, Release(t))
    ensures Inv(db0, Next(s, Release(t)), done)
  {
    var s' := Next(s, Release(t));
    ReleaseOrder(db0, s, done, t);
    ReleaseKeeps(s.locks, t);
    assert ActiveOk(s, done, t);
    forall u ensures ActiveOk(s', done, u) { ActiveAfter(s, done, t, u); }
    forall i ensures PendingOk(s', i) { PendingAfter(s, t, i); }
    WriterAfter(s, done, t);
  }

  lemma ActiveAfter(s: State, done: Database, t: Txn, u: Txn)
    requires LocksOk(s.locks) && Enabled(s, Release(t)) && ActiveOk(s, done, u) && t !in s.logs
    ensures ActiveOk(Next(s, Release(t)), done, u)
  {
    ReleaseKeeps(s.locks, t);
    DropMeans(HoldersOf(s.locks, WRITER), t);
  }

  lemma WriterAfter(s: State, done: Database, t: Txn)
    requires LocksOk(s.locks) && Enabled(s, Release(t)) && WriterOk(s, done) && t !in s.logs
    ensures WriterOk(Next(s, Release(t)), done)
  {
    ReleaseKeeps(s.locks, t);
  }

  lemma PendingAfter(s: State, t: Txn, i: int)
    requires PendingsOk(s) && LocksOk(s.locks) && Enabled(s, Release(t))
    requires forall r, u, m :: u != t && Has(s.locks, r, u, m) ==> Has(Released(s.locks, t), r, u, m)
    ensures PendingOk(Next(s, Release(t)), i)
  {
    var s', k := Next(s, Release(t)), Spot(s.pending, t);
    if 0 <= i < |s'.pending| {
      var n := if i < k then i else i + 1;
      assert PendingOk(s, n) && s'.pending[i] == s.pending[n];
      if k < |s.pending| { assert PendingOk(s, k); }
      forall j | 0 <= j < i ensures s'.pending[j].txn != s'.pending[i].txn {
        assert s'.pending[j] == s.pending[if j < k then j else j + 1];
      }
    }
  }

  lemma StepKeeps(db0: Database, s: State, done: Database, a: Action) returns (done': Database)
    requires Inv(db0, s, done) && Enabled(s, a)
    ensures Inv(db0, Next(s, a), done')
  {
    done' := done;
    match a
    case Begin(t) => StepBegin(db0, s, done, t);
    case Lock(t, x, mode) => StepLock(db0, s, done, t, x, mode);
    case TakeHook(t) => StepHook(db0, s, done, t);
    case OpenJournal(t) => StepJournal(db0, s, done, t);
    case Grow(t) => StepGrow(db0, s, done, t);
    case ReadTable(t, x) => StepRead(db0, s, done, t, x);
    case WriteTable(t, x, c) => StepWrite(db0, s, done, t, x, c);
    case Commit(t) =>
      StepCommit(db0, s, done, t);
      done' := Apply(done, s.logs[t]);
    case Rollback(t) => StepRollback(db0, s, done, t);
    case Unhook(t) => StepUnhook(db0, s, done, t);
    case Release(t) => StepRelease(db0, s, done, t);
  }

  lemma {:induction false} RunKeeps(db0: Database, s: State, done: Database, actions: seq<Action>) returns (done': Database)
    requires Inv(db0, s, done) && Legal(s, actions)
    ensures Inv(db0, After(s, actions), done')
    decreases |actions|
  {
    if |actions| == 0 {
      done' := done;
    } else {
      var next := StepKeeps(db0, s, done, actions[0]);
      done' := RunKeeps(db0, Next(s, actions[0]), next, actions[1..]);
    }
  }

  lemma Reached(db0: Database, n: nat, actions: seq<Action>) returns (done: Database)
    requires Legal(Initial(db0, n), actions)
    ensures Inv(db0, After(Initial(db0, n), actions), done)
  {
    var s := Initial(db0, n);
    forall t ensures ActiveOk(s, db0, t) {}
    forall i ensures PendingOk(s, i) {}
    forall r ensures LockOk(s.locks, r) {}
    done := RunKeeps(db0, s, db0, actions);
  }

  /** Serializability: after any run, the committed transactions, executed one after
      the other on the initial database in the order in which they released their
      locks, and then those still to release them, read what they read and leave
      the database of the run, once the writer in progress is rolled back. */
  lemma Serializable(db0: Database, n: nat, actions: seq<Action>)
    requires Legal(Initial(db0, n), actions)
    ensures
      var s := After(Initial(db0, n), actions);
      && SerialOk(db0, Order(s))
      && (s.hook.None? || s.hook.value !in s.logs ==> s.db == Serially(db0, Order(s)))
      && (s.hook.Some? && s.hook.value in s.logs ==>
            && Next(s, Rollback(s.hook.value)).db == Serially(db0, Order(s))
            && s.db == Apply(Serially(db0, Order(s)), s.logs[s.hook.value]))
  {
    var done := Reached(db0, n, actions);
    var s := After(Initial(db0, n), actions);
    if s.hook.Some? && s.hook.value in s.logs {
      assert ActiveOk(s, done, s.hook.value);
      ApplyReadsIf(done, s.logs[s.hook.value]);
    }
  }

  lemma ApplyReadsIf(db: Database, log: seq<Op>)
    ensures NoWrites(log) ==> Apply(db, log) == db
  {
    if NoWrites(log) { ApplyReads(db, log); }
  }

  /** A single writer: at every moment of every run the hooked transaction holds the
      writer lock exclusively, also while it ends; at most one journal exists, and
      it is the hooked transaction's; and only a step of that transaction moves the
      page count, by one page at a time or back to where it began. */
  lemma SingleWriter(db0: Database, n: nat, actions: seq<Action>, a: Action)
    requires Legal(Initial(db0, n), actions) && Enabled(After(Initial(db0, n), actions), a)
    ensures
      var s := After(Initial(db0, n), actions);
      && (s.hook.Some? ==> HoldersOf(s.locks, WRITER) == [Hold(s.hook.value, Exclusive)])
      && (s.journals == {} || (s.hook.Some? && s.journals == {s.hook.value}))
      && (Next(s, a).pages != s.pages ==> s.hook == Some(a.t) && (a.Grow? || (a.Rollback? && Next(s, a).pages == s.basePages)))
      && (a.Grow? ==> Next(s, a).pages == s.pages + 1)
  {
    var done := Reached(db0, n, actions);
    var s := After(Initial(db0, n), actions);
    if s.hook.Some? { AloneHere(s.locks, s.hook.value); }
    if s.journals != {} {
      var t :| t in s.journals;
      assert s.journals == {t};
    }
  }

  lemma AloneHere(locks: LockTable, w: Txn)
    requires LocksOk(locks) && Has(locks, WRITER, w, Exclusive)
    ensures HoldersOf(locks, WRITER) == [Hold(w, Exclusive)]
  {
    assert LockOk(locks, WRITER);
    var hs := HoldersOf(locks, WRITER);
    var i :| 0 <= i < |hs| && hs[i] == Hold(w, Exclusive);
  }
}
