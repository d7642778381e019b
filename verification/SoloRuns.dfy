/** The locks exclude no more than they must: a transaction whose locks nobody else
    stands against runs from its begin to its last release, whatever the others are
    doing, and leaves what its requests say. */
module SoloRuns {
  import opened Basics
  import opened WaitGraph
  import opened Locks
  import opened Serializability

  datatype Request = Get(table: Table) | Put(table: Table, content: Content)

  /** Lock the table, then use it. */
  function Steps(t: Txn, r: Request): seq<Action> {
    match r
    case Get(x) => [Lock(t, x, Shared), ReadTable(t, x)]
    case Put(x, c) => [Lock(t, x, Exclusive), WriteTable(t, x, c)]
  }

  function AllSteps(t: Txn, rs: seq<Request>): seq<Action> {
    if |rs| == 0 then [] else Steps(t, rs[0]) + AllSteps(t, rs[1..])
  }

  /** What the requests make of a database. */
  function Effect(db: Database, rs: seq<Request>): Database
    decreases |rs|
  {
    if |rs| == 0 then db
    else Effect(match rs[0] case Get(_) => db case Put(x, c) => db[x := c], rs[1..])
  }

  /** The writer's first steps. */
  function Opening(t: Txn): seq<Action> {
    [Begin(t), Lock(t, WRITER, Exclusive), TakeHook(t), OpenJournal(t)]
  }

  function Ending(t: Txn, commit: bool): seq<Action> {
    [if commit then Commit(t) else Rollback(t), Unhook(t), Release(t)]
  }

  ghost predicate Free(s: State, t: Txn, r: Request) {
    r.table != WRITER && Fits(HoldersOf(s.locks, r.table), t, if r.Get? then Shared else Exclusive)
  }

  ghost predicate AllFree(s: State, t: Txn, rs: seq<Request>) {
    forall i :: 0 <= i < |rs| ==> Free(s, t, rs[i])
  }

  /** A transaction that has not begun, a writer lock that nobody holds. */
  ghost predicate CanStart(s: State, t: Txn) {
    && t !in s.logs && t !in s.ending && t !in s.journals && s.hook.None? && (forall i :: 0 <= i < |s.pending| ==> s.pending[i].txn != t)
    && (forall r :: r in s.locks ==> Compatible(s.locks[r]) && ModeOf(s.locks[r], t).None?)
    && HoldersOf(s.locks, WRITER) == []
  }

  /** The transaction is at work. */
  ghost predicate Working(s: State, t: Txn) {
    && t in s.logs && t !in s.ending && s.hook == Some(t) && t in s.journals && (forall i :: 0 <= i < |s.pending| ==> s.pending[i].txn != t)
    && forall r :: r in s.locks ==> Compatible(s.locks[r])
  }

  /** The others, and what they hold, are as they were. */
  ghost predicate OthersAlone(s: State, s': State, t: Txn) {
    && s'.logs - {t} == s.logs - {t} && s'.ending - {t} == s.ending - {t} && s'.pages == s.pages
    && forall r, h: Hold :: h.txn != t ==> (h in HoldersOf(s'.locks, r) <==> h in HoldersOf(s.locks, r))
  }

  /** What only endings and the writer lock change. */
  ghost predicate Kept(s: State, s': State) {
    s'.released == s.released && s'.pending == s.pending && s'.base == s.base && s'.basePages == s.basePages
  }

  /** The one's locks are gone, and nobody else's. */
  ghost predicate Gone(locks: LockTable, locks': LockTable, t: Txn) {
    forall r, h: Hold :: h in HoldersOf(locks', r) <==> h in HoldersOf(locks, r) && h.txn != t
  }

  ghost predicate SameHolds(locks: LockTable, locks': LockTable) {
    forall r, h: Hold :: h in HoldersOf(locks', r) <==> h in HoldersOf(locks, r)
  }

  lemma {:induction false} LegalAppend(s: State, a: seq<Action>, b: seq<Action>)
    requires Legal(s, a) && Legal(After(s, a), b)
    ensures Legal(s, a + b) && After(s, a + b) == After(After(s, a), b)
    decreases |a|
  {
    if |a| == 0 {
      assert a + b == b;
    } else {
      assert (a + b)[0] == a[0] && (a + b)[1..] == a[1..] + b;
      LegalAppend(Next(s, a[0]), a[1..], b);
    }
  }

  lemma OneStep(s: State, a: Action)
    requires Enabled(s, a)
    ensures Legal(s, [a]) && After(s, [a]) == Next(s, a)
  {
    assert [a][1..] == [] && After(Next(s, a), []) == Next(s, a);
  }

  lemma TwoSteps(s: State, a: Action, b: Action)
    requires Enabled(s, a) && Enabled(Next(s, a), b)
    ensures Legal(s, [a, b]) && After(s, [a, b]) == Next(Next(s, a), b)
  {
    assert [a, b][1..] == [b] && [b][1..] == [];
    assert Legal(Next(s, a), [b]) && After(Next(s, a), [b]) == Next(Next(s, a), b);
  }

  /** A grant to oneself changes nothing for oneself. */
  lemma OwnGrant(hs: seq<Hold>, t: Txn, m: Mode, mode: Mode)
    requires Compatible(hs)
    ensures Fits(Grant(hs, t, m), t, mode) <==> Fits(hs, t, mode)
  {
    GrantMeans(hs, t, m);
    var g := Grant(hs, t, m);
    forall i | 0 <= i < |hs| && hs[i].txn != t ensures hs[i] in g {}
    forall i | 0 <= i < |g| && g[i].txn != t ensures g[i] in hs { assert g[i] in g; }
    if Fits(g, t, mode) {
      forall i | 0 <= i < |hs| && hs[i].txn != t ensures mode.Shared? && hs[i].mode.Shared? {
        var j :| 0 <= j < |g| && g[j] == hs[i];
      }
    }
    if Fits(hs, t, mode) {
      forall i | 0 <= i < |g| && g[i].txn != t ensures mode.Shared? && g[i].mode.Shared? {
        var j :| 0 <= j < |hs| && hs[j] == g[i];
      }
    }
  }

  /** Taking one lock. */
  lemma LockTaken(s: State, t: Txn, x: Resource, mode: Mode)
    requires Working(s, t) && x != WRITER && Fits(HoldersOf(s.locks, x), t, mode)
    ensures
      var s' := Next(s, Lock(t, x, mode));
      && Working(s', t) && Has(s'.locks, x, t, mode) && OthersAlone(s, s', t) && s'.db == s.db && s'.logs == s.logs && Kept(s, s')
      && forall r: Request :: Free(s, t, r) ==> Free(s', t, r)
  {
    var hs, s' := HoldersOf(s.locks, x), Next(s, Lock(t, x, mode));
    if !Has(s.locks, x, t, mode) {
      GrantMeans(hs, t, mode);
      GrantFits(hs, t, mode);
      OwnGrant(hs, t, mode, Shared);
      OwnGrant(hs, t, mode, Exclusive);
    }
  }

  lemma OneRequest(s: State, t: Txn, r: Request)
    requires Working(s, t) && Free(s, t, r)
    ensures Legal(s, Steps(t, r))
    ensures
      var s' := After(s, Steps(t, r));
      && Working(s', t) && OthersAlone(s, s', t) && s'.db == Effect(s.db, [r]) && Kept(s, s')
      && forall q: Request :: Free(s, t, q) ==> Free(s', t, q)
  {
    var mode := if r.Get? then Shared else Exclusive;
    LockTaken(s, t, r.table, mode);
    assert [r][1..] == [] && Effect(s.db, [r]) == match r { case Get(_) => s.db case Put(x, c) => s.db[x := c] };
    var s1 := Next(s, Lock(t, r.table, mode));
    TwoSteps(s, Lock(t, r.table, mode), Steps(t, r)[1]);
  }

  lemma {:induction false} AllRequests(s: State, t: Txn, rs: seq<Request>)
    requires Working(s, t) && AllFree(s, t, rs)
    ensures Legal(s, AllSteps(t, rs))
    ensures var s' := After(s, AllSteps(t, rs)); Working(s', t) && OthersAlone(s, s', t) && s'.db == Effect(s.db, rs) && Kept(s, s')
    decreases |rs|
  {
    if |rs| > 0 {
      OneRequest(s, t, rs[0]);
      var s1 := After(s, Steps(t, rs[0]));
      assert [rs[0]][1..] == [];
      AllRequests(s1, t, rs[1..]);
      LegalAppend(s, Steps(t, rs[0]), AllSteps(t, rs[1..]));
    }
  }

  lemma Opens(s: State, t: Txn)
    requires CanStart(s, t)
    ensures Legal(s, Opening(t))
    ensures
      var s' := After(s, Opening(t));
      && Working(s', t) && OthersAlone(s, s', t) && s'.db == s'.base == s.db && s'.basePages == s.pages
      && s'.released == s.released && s'.pending == s.pending
      && forall r: Request :: Free(s, t, r) ==> Free(s', t, r)
  {
    var a, b := [Begin(t), Lock(t, WRITER, Exclusive)], [TakeHook(t), OpenJournal(t)];
    TwoSteps(s, a[0], a[1]);
    var s1 := After(s, a);
    assert HoldersOf(s1.locks, WRITER) == [Hold(t, Exclusive)];
    TwoSteps(s1, b[0], b[1]);
    LegalAppend(s, a, b);
    assert Opening(t) == a + b;
  }

  lemma ReleasedGone(locks: LockTable, t: Txn)
    ensures Gone(locks, Released(locks, t), t)
  {
    forall r, h: Hold ensures h in HoldersOf(Released(locks, t), r) <==> h in HoldersOf(locks, r) && h.txn != t {
      DropMeans(HoldersOf(locks, r), t);
    }
  }

  lemma Closes(s: State, t: Txn, commit: bool)
    requires Working(s, t)
    ensures Legal(s, Ending(t, commit))
    ensures
      var s' := After(s, Ending(t, commit));
      && s'.db == (if commit then s.db else s.base) && s'.pages == (if commit then s.pages else s.basePages)
      && s'.logs == s.logs - {t} && s'.ending == s.ending - {t} && s'.hook.None? && t !in s'.journals
      && s'.pending == s.pending && s'.released == s.released + (if commit then [s.logs[t]] else [])
      && Gone(s.locks, s'.locks, t)
  {
    var a := Ending(t, commit);
    TwoSteps(s, a[0], a[1]);
    var s2 := After(s, a[..2]);
    assert a[..2] == [a[0], a[1]] && a == a[..2] + [a[2]];
    if commit {
      assert s2.pending == s.pending + [Done(t, s.logs[t])];
      SpotLast(s.pending, Done(t, s.logs[t]));
    }
    OneStep(s2, a[2]);
    LegalAppend(s, a[..2], [a[2]]);
    var s3 := After(s, a);
    assert s3.locks == Released(s.locks, t);
    ReleasedGone(s.locks, t);
  }

  lemma OthersTrans(a: State, b: State, c: State, t: Txn)
    requires OthersAlone(a, b, t) && OthersAlone(b, c, t)
    ensures OthersAlone(a, c, t)
  {
  }

  lemma BackAgain(s: State, s2: State, s': State, t: Txn)
    requires CanStart(s, t) && OthersAlone(s, s2, t) && s'.logs == s2.logs - {t} && s'.ending == s2.ending - {t}
    requires Gone(s2.locks, s'.locks, t)
    ensures s'.logs == s.logs && s'.ending == s.ending && SameHolds(s.locks, s'.locks)
  {
    assert s.logs - {t} == s.logs && s.ending - {t} == s.ending;
    forall r, h: Hold ensures h in HoldersOf(s'.locks, r) <==> h in HoldersOf(s.locks, r) {
      if h in HoldersOf(s.locks, r) { assert h.txn != t; }
      assert h.txn != t ==> (h in HoldersOf(s2.locks, r) <==> h in HoldersOf(s.locks, r));
      assert h in HoldersOf(s'.locks, r) <==> h in HoldersOf(s2.locks, r) && h.txn != t;
    }
  }

  lemma SpotLast(ps: seq<Done>, d: Done)
    requires forall i :: 0 <= i < |ps| ==> ps[i].txn != d.txn
    ensures Spot(ps + [d], d.txn) == |ps|
  {
    var all, i := ps + [d], Spot(ps + [d], d.txn);
    assert all[|ps|] == d;
    assert forall j :: 0 <= j < |ps| ==> all[j] == ps[j];
  }

  /** From its begin to its last release nothing stops it, and when it is gone the
      database is what its requests made of it, or, if it rolled back, what it was. */
  lemma RunsThrough(s: State, t: Txn, rs: seq<Request>, commit: bool)
    requires CanStart(s, t) && AllFree(s, t, rs)
    ensures Legal(s, Opening(t) + AllSteps(t, rs) + Ending(t, commit))
    ensures
      var s' := After(s, Opening(t) + AllSteps(t, rs) + Ending(t, commit));
      && s'.db == (if commit then Effect(s.db, rs) else s.db) && s'.pages == s.pages
      && s'.logs == s.logs && s'.ending == s.ending && s'.hook.None? && s'.pending == s.pending
      && |s'.released| == |s.released| + (if commit then 1 else 0)
      && SameHolds(s.locks, s'.locks)
  {
    hide Legal, After, Working, OthersAlone, Enabled, Next, CanStart, Opening, Ending, AllSteps, Effect, HoldersOf, Free;
    Opens(s, t);
    var s1 := After(s, Opening(t));
    assert AllFree(s1, t, rs);
    AllRequests(s1, t, rs);
    var s2 := After(s1, AllSteps(t, rs));
    Closes(s2, t, commit);
    LegalAppend(s, Opening(t), AllSteps(t, rs));
    LegalAppend(s, Opening(t) + AllSteps(t, rs), Ending(t, commit));
    OthersTrans(s, s1, s2, t);
    BackAgain(s, s2, After(s2, Ending(t, commit)), t);
  }
}
