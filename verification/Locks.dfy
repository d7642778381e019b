/** The lock manager as its atomic steps: a request, one pass of a waiter's loop, a
    timer, a release. A waiter is asleep on its resource's condition or awake. */
module Locks {
  import opened Basics
  import opened WaitGraph

  datatype Claim = Claim(txn: Txn, mode: Mode)

  /** `holders` in the order of their grants, `waiters` in the order they came. */
  datatype Entry = Entry(holders: seq<Hold>, waiters: seq<Claim>)

  datatype Answer = Granted | Queued

  datatype Pass = GotIt | Deadlock | TimedOut | Sleeping | Again

  /** All shared, or one exclusive; nobody twice. */
  ghost predicate Compatible(hs: seq<Hold>) {
    && (forall i, j :: 0 <= i < j < |hs| ==> hs[i].txn != hs[j].txn)
    && (forall i :: 0 <= i < |hs| && hs[i].mode.Exclusive? ==> |hs| == 1)
  }

  predicate Fits(hs: seq<Hold>, t: Txn, mode: Mode) {
    forall i :: 0 <= i < |hs| && hs[i].txn != t ==> mode.Shared? && hs[i].mode.Shared?
  }

  /** The grant itself decides: it fits exactly if the holders agree afterwards. */
  lemma FitsIff(hs: seq<Hold>, t: Txn, mode: Mode)
    requires Compatible(hs)
    ensures Fits(hs, t, mode) <==> Compatible(Grant(hs, t, mode))
  {
    var g := Grant(hs, t, mode);
    GrantMeans(hs, t, mode);
    if Fits(hs, t, mode) { GrantFits(hs, t, mode); }
    if Compatible(g) {
      forall i | 0 <= i < |hs| && hs[i].txn != t ensures mode.Shared? && hs[i].mode.Shared? {
        assert hs[i] in g && Hold(t, mode) in g;
        var j :| 0 <= j < |g| && g[j] == hs[i];
        var k :| 0 <= k < |g| && g[k] == Hold(t, mode);
        assert j != k;
      }
    }
  }

  /** First in the queue, or no queue; and compatible with everybody else's hold. */
  predicate Grantable(e: Entry, t: Txn, mode: Mode) {
    (|e.waiters| == 0 || e.waiters[0].txn == t) && Fits(e.holders, t, mode)
  }

  /** The mode a transaction holds, if it holds any. */
  function ModeOf(hs: seq<Hold>, t: Txn): (m: Option<Mode>)
    ensures m.Some? ==> Hold(t, m.value) in hs
    ensures m.None? ==> forall i :: 0 <= i < |hs| ==> hs[i].txn != t
  {
    if |hs| == 0 then None else if hs[0].txn == t then Some(hs[0].mode) else ModeOf(hs[1..], t)
  }

  /** Record a grant: an upgrade keeps its place, a new holder comes last. */
  function Grant(hs: seq<Hold>, t: Txn, mode: Mode): seq<Hold> {
    if |hs| == 0 then [Hold(t, mode)]
    else if hs[0].txn == t then [Hold(t, mode)] + hs[1..]
    else [hs[0]] + Grant(hs[1..], t, mode)
  }

  /** Drop a holder. */
  function Drop(hs: seq<Hold>, t: Txn): seq<Hold> {
    if |hs| == 0 then [] else if hs[0].txn == t then Drop(hs[1..], t) else [hs[0]] + Drop(hs[1..], t)
  }

  lemma {:induction false} GrantMembers(hs: seq<Hold>, t: Txn, mode: Mode)
    requires forall i, j :: 0 <= i < j < |hs| ==> hs[i].txn != hs[j].txn
    ensures forall h :: h in Grant(hs, t, mode) <==> h == Hold(t, mode) || (h in hs && h.txn != t)
    decreases |hs|
  {
    if |hs| > 0 {
      if hs[0].txn == t {
        forall h | h in hs[1..] ensures h.txn != t {}
      } else {
        GrantMembers(hs[1..], t, mode);
      }
      assert hs == [hs[0]] + hs[1..];
    }
  }

  lemma {:induction false} GrantMeans(hs: seq<Hold>, t: Txn, mode: Mode)
    requires forall i, j :: 0 <= i < j < |hs| ==> hs[i].txn != hs[j].txn
    ensures forall h :: h in Grant(hs, t, mode) <==> h == Hold(t, mode) || (h in hs && h.txn != t)
    ensures forall i, j :: 0 <= i < j < |Grant(hs, t, mode)| ==> Grant(hs, t, mode)[i].txn != Grant(hs, t, mode)[j].txn
    decreases |hs|
  {
    GrantMembers(hs, t, mode);
    if |hs| > 0 {
      if hs[0].txn == t {
        forall h | h in hs[1..] ensures h.txn != t {}
      } else {
        GrantMeans(hs[1..], t, mode);
        var g := Grant(hs[1..], t, mode);
        forall j | 0 <= j < |g| ensures g[j].txn != hs[0].txn {
          assert g[j] in g;
        }
      }
    }
  }

  /** A grant that fits keeps the holders compatible. */
  lemma GrantFits(hs: seq<Hold>, t: Txn, mode: Mode)
    requires Compatible(hs) && Fits(hs, t, mode)
    ensures Compatible(Grant(hs, t, mode))
  {
    GrantMeans(hs, t, mode);
    var g := Grant(hs, t, mode);
    forall i | 0 <= i < |g| && |g| > 1 ensures g[i].mode.Shared? {
      var k := if i == 0 then 1 else 0;
      assert g[i] in g && g[k] in g;
    }
  }

  lemma {:induction false} DropMeans(hs: seq<Hold>, t: Txn)
    ensures forall h :: h in Drop(hs, t) <==> h in hs && h.txn != t
    ensures Compatible(hs) ==> Compatible(Drop(hs, t))
    ensures |Drop(hs, t)| <= |hs|
    decreases |hs|
  {
    if |hs| > 0 {
      DropMeans(hs[1..], t);
      assert Compatible(hs) ==> Compatible(hs[1..]);
      if hs[0].txn != t && Compatible(hs) { FirstStays(hs, Drop(hs[1..], t)); }
    }
  }

  lemma FirstStays(hs: seq<Hold>, d: seq<Hold>)
    requires |hs| > 0 && Compatible(hs) && Compatible(d) && |d| <= |hs| - 1 && forall h :: h in d ==> h in hs[1..]
    ensures Compatible([hs[0]] + d)
  {
    forall j | 0 <= j < |d| ensures d[j].txn != hs[0].txn && (|hs| > 1 ==> d[j].mode.Shared?) { assert d[j] in d; }
  }

  ghost predicate DistinctWaiters(ws: seq<Claim>) {
    forall i, j :: 0 <= i < j < |ws| ==> ws[i].txn != ws[j].txn
  }

  ghost predicate Queued(ws: seq<Claim>, t: Txn) {
    exists i :: 0 <= i < |ws| && ws[i].txn == t
  }

  /** Leave the queue. */
  function Leave(ws: seq<Claim>, t: Txn): (r: seq<Claim>)
    ensures DistinctWaiters(ws) ==> DistinctWaiters(r)
    ensures forall q :: q in r ==> q in ws
    ensures forall q :: q in ws && q.txn != t ==> q in r
    ensures DistinctWaiters(ws) ==> forall q :: q in r ==> q.txn != t
  {
    if |ws| == 0 then []
    else if ws[0].txn == t then
      assert DistinctWaiters(ws) ==> forall q :: q in ws[1..] ==> q.txn != t;
      assert DistinctWaiters(ws) ==> DistinctWaiters(ws[1..]);
      ws[1..]
    else
      assert DistinctWaiters(ws) ==> DistinctWaiters(ws[1..]);
      assert DistinctWaiters(ws) ==> forall q :: q in ws[1..] ==> q.txn != ws[0].txn;
      [ws[0]] + Leave(ws[1..], t)
  }

  lemma QueuedAfter(ws: seq<Claim>, t: Txn, u: Txn)
    requires Queued(ws, u) && u != t
    ensures Queued(Leave(ws, t), u)
  {
    var i :| 0 <= i < |ws| && ws[i].txn == u;
    assert ws[i] in Leave(ws, t);
    var k :| 0 <= k < |Leave(ws, t)| && Leave(ws, t)[k] == ws[i];
  }

  // ---- The invariant ----

  /** Holders agree, and a sleeper at the head of the queue has reason to sleep. */
  ghost predicate EntryOk(e: Entry, asleep: map<Txn, Resource>) {
    && Compatible(e.holders) && DistinctWaiters(e.waiters)
    && (|e.waiters| > 0 && e.waiters[0].txn in asleep ==> !Grantable(e, e.waiters[0].txn, e.waiters[0].mode))
  }

  ghost predicate AllHere(ws: seq<Claim>, r: Resource, place: map<Txn, Resource>) {
    forall i :: 0 <= i < |ws| ==> ws[i].txn in place && place[ws[i].txn] == r
  }

  /** Every entry is in order and its waiters are where they belong. */
  ghost predicate EntriesOk(entries: map<Resource, Entry>, place: map<Txn, Resource>, asleep: map<Txn, Resource>) {
    forall r {:trigger InOrder(entries, place, asleep, r)} :: InOrder(entries, place, asleep, r)
  }

  ghost predicate InOrder(entries: map<Resource, Entry>, place: map<Txn, Resource>, asleep: map<Txn, Resource>, r: Resource) {
    r in entries ==> EntryOk(entries[r], asleep) && AllHere(entries[r].waiters, r, place)
  }

  ghost predicate PlacesOk(entries: map<Resource, Entry>, place: map<Txn, Resource>) {
    forall t {:trigger InQueue(entries, place, t)} :: InQueue(entries, place, t)
  }

  ghost predicate InQueue(entries: map<Resource, Entry>, place: map<Txn, Resource>, t: Txn) {
    t in place ==> place[t] in entries && Queued(entries[place[t]].waiters, t)
  }

  /** Only waiters sleep, are doomed, or have an edge; the doomed are awake. */
  ghost predicate WaitersOk(place: map<Txn, Resource>, waitingFor: map<Txn, Resource>, doomed: set<Txn>, asleep: map<Txn, Resource>) {
    && (forall t :: t in waitingFor ==> t in place && place[t] == waitingFor[t])
    && (forall t :: t in asleep ==> t in waitingFor && waitingFor[t] == asleep[t] && t !in doomed)
    && (forall t :: t in doomed ==> t in waitingFor)
  }

  /** One entry's holders change; its sleepers are woken. */
  lemma HoldersChange(entries: map<Resource, Entry>, place: map<Txn, Resource>, asleep: map<Txn, Resource>,
                      asleep': map<Txn, Resource>, r: Resource, hs: seq<Hold>, ws: seq<Claim>)
    requires EntriesOk(entries, place, asleep) && PlacesOk(entries, place)
    requires Compatible(hs) && ws == (if r in entries then entries[r].waiters else [])
    requires forall t :: t in asleep' <==> t in asleep && asleep[t] != r
    requires forall t :: t in asleep ==> t in place && place[t] == asleep[t]
    ensures EntriesOk(entries[r := Entry(hs, ws)], place, asleep') && PlacesOk(entries[r := Entry(hs, ws)], place)
  {
    var entries' := entries[r := Entry(hs, ws)];
    forall q ensures InOrder(entries', place, asleep', q) { assert InOrder(entries, place, asleep, q); }
    forall t ensures InQueue(entries', place, t) { assert InQueue(entries, place, t); }
  }

  /** A waiter joins the end of a queue, awake. */
  lemma Joins(entries: map<Resource, Entry>, place: map<Txn, Resource>, asleep: map<Txn, Resource>, r: Resource, c: Claim, e: Entry)
    requires EntriesOk(entries, place, asleep) && PlacesOk(entries, place) && c.txn !in place && c.txn !in asleep
    requires e == if r in entries then entries[r] else Entry([], [])
    ensures EntriesOk(entries[r := Entry(e.holders, e.waiters + [c])], place[c.txn := r], asleep)
    ensures PlacesOk(entries[r := Entry(e.holders, e.waiters + [c])], place[c.txn := r])
  {
    var entries', place', ws' := entries[r := Entry(e.holders, e.waiters + [c])], place[c.txn := r], e.waiters + [c];
    assert ws'[|e.waiters|] == c;
    forall q ensures InOrder(entries', place', asleep, q) { assert InOrder(entries, place, asleep, q); }
    forall t ensures InQueue(entries', place', t) {
      assert InQueue(entries, place, t);
      if t in place && place[t] == r && t != c.txn {
        var i :| 0 <= i < |e.waiters| && e.waiters[i].txn == t;
        assert ws'[i].txn == t;
      }
    }
  }

  /** A waiter leaves its queue, with or without the lock; its sleepers are woken. */
  lemma Leaves(entries: map<Resource, Entry>, place: map<Txn, Resource>, asleep: map<Txn, Resource>,
               asleep': map<Txn, Resource>, r: Resource, t: Txn, hs: seq<Hold>)
    requires EntriesOk(entries, place, asleep) && PlacesOk(entries, place) && t in place && place[t] == r && r in entries
    requires Compatible(hs) && (forall x :: x in asleep' <==> x in asleep && asleep[x] != r)
    requires forall x :: x in asleep ==> x in place && place[x] == asleep[x]
    ensures EntriesOk(entries[r := Entry(hs, Leave(entries[r].waiters, t))], place - {t}, asleep')
    ensures PlacesOk(entries[r := Entry(hs, Leave(entries[r].waiters, t))], place - {t})
  {
    var entries' := entries[r := Entry(hs, Leave(entries[r].waiters, t))];
    forall q ensures InOrder(entries', place - {t}, asleep', q) {
      assert InOrder(entries, place, asleep, q) && InQueue(entries, place, t);
      if q in entries && q == r {
        Left(entries[r].waiters, r, t, place, asleep, asleep');
      } else if q in entries {
        Elsewhere(entries[q], q, r, t, place, asleep, asleep');
      }
    }
    forall x ensures InQueue(entries', place - {t}, x) {
      assert InQueue(entries, place, x);
      if x in place && x != t && place[x] == r { QueuedAfter(entries[r].waiters, t, x); }
    }
  }

  lemma Left(ws: seq<Claim>, r: Resource, t: Txn, place: map<Txn, Resource>, asleep: map<Txn, Resource>, asleep': map<Txn, Resource>)
    requires DistinctWaiters(ws) && AllHere(ws, r, place) && (forall x :: x in asleep' <==> x in asleep && asleep[x] != r)
    requires forall x :: x in asleep ==> x in place && place[x] == asleep[x]
    ensures
      var ws' := Leave(ws, t);
      DistinctWaiters(ws') && AllHere(ws', r, place - {t}) && forall i :: 0 <= i < |ws'| ==> ws'[i].txn !in asleep'
  {
    var ws' := Leave(ws, t);
    forall i | 0 <= i < |ws'| ensures ws'[i].txn in place - {t} && place[ws'[i].txn] == r && ws'[i].txn !in asleep' {
      assert ws'[i] in ws' && ws'[i] in ws;
    }
  }

  lemma Elsewhere(e: Entry, q: Resource, r: Resource, t: Txn, place: map<Txn, Resource>,
                  asleep: map<Txn, Resource>, asleep': map<Txn, Resource>)
    requires q != r && t in place && place[t] == r && EntryOk(e, asleep) && AllHere(e.waiters, q, place)
    requires forall x :: x in asleep' ==> x in asleep
    ensures EntryOk(e, asleep') && AllHere(e.waiters, q, place - {t})
  {
  }

  /** Whoever holds enough has one mode, and a grant that fits is what it says. */
  lemma AskFacts(entries: map<Resource, Entry>, place: map<Txn, Resource>, asleep: map<Txn, Resource>, e: Entry, r: Resource, t: Txn, mode: Mode)
    requires EntriesOk(entries, place, asleep) && e == if r in entries then entries[r] else Entry([], [])
    ensures Compatible(e.holders) && (Fits(e.holders, t, mode) <==> Compatible(Grant(e.holders, t, mode)))
    ensures forall h :: h in Grant(e.holders, t, mode) <==> h == Hold(t, mode) || (h in e.holders && h.txn != t)
    ensures forall m :: Hold(t, m) in e.holders ==> ModeOf(e.holders, t) == Some(m)
  {
    assert InOrder(entries, place, asleep, r);
    FitsIff(e.holders, t, mode);
    GrantMeans(e.holders, t, mode);
  }

  class LockManager {
    var entries: map<Resource, Entry>
    var waitingFor: map<Txn, Resource>
    var doomed: set<Txn>
    /** Who sleeps, and on which resource's condition. */
    var asleep: map<Txn, Resource>
    /** Where each queued transaction queues. */
    ghost var place: map<Txn, Resource>

    function At(r: Resource): Entry
      reads this
    {
      if r in entries then entries[r] else Entry([], [])
    }

    ghost predicate Valid()
      reads this
    {
      EntriesOk(entries, place, asleep) && PlacesOk(entries, place) && WaitersOk(place, waitingFor, doomed, asleep)
    }

    constructor ()
      ensures Valid() && entries == map[] && place == map[] && waitingFor == map[] && doomed == {} && asleep == map[]
    {
      entries, waitingFor, doomed, asleep, place := map[], map[], {}, map[], map[];
    }

    method NotifyAll(r: Resource)
      modifies `asleep
      ensures asleep == map t | t in old(asleep) && old(asleep)[t] != r :: old(asleep)[t]
    {
      asleep := map t | t in asleep && asleep[t] != r :: asleep[t];
    }

    /** Ask for a lock. Granted at once if it is held already, or if nobody queues
        and the holders permit; otherwise the request goes to the end of the queue. */
    method Ask(t: Txn, r: Resource, mode: Mode) returns (a: Answer)
      requires Valid() && t !in place
      modifies this
      ensures Valid() && forall x :: x != r ==> At(x) == old(At(x))
      ensures a.Queued? ==> At(r) == Entry(old(At(r)).holders, old(At(r)).waiters + [Claim(t, mode)]) && place == old(place)[t := r]
      ensures a.Queued? ==> !old(Grantable(At(r), t, mode))
      ensures a.Queued? && old(At(r)).waiters == [] ==> !Compatible(Grant(old(At(r)).holders, t, mode))
      ensures Hold(t, mode) in old(At(r)).holders || Hold(t, Exclusive) in old(At(r)).holders ==> a.Granted? && At(r) == old(At(r))
      ensures a.Granted? ==> place == old(place) && At(r).waiters == old(At(r)).waiters
      ensures a.Granted? && At(r).holders != old(At(r)).holders ==>
                && old(At(r)).waiters == [] && Fits(old(At(r)).holders, t, mode) && At(r).holders == Grant(old(At(r)).holders, t, mode)
                && forall h :: h in At(r).holders <==> h == Hold(t, mode) || (h in old(At(r)).holders && h.txn != t)
      ensures a.Granted? ==> Hold(t, mode) in At(r).holders || Hold(t, Exclusive) in At(r).holders
      ensures waitingFor == old(waitingFor) && doomed == old(doomed) && forall x :: x in asleep ==> x in old(asleep)
      ensures a.Queued? ==> asleep == old(asleep)
    {
      var e := At(r);
      AskFacts(entries, place, asleep, e, r, t, mode);
      var held := ModeOf(e.holders, t);
      if held.Some? && (held.value == mode || held.value.Exclusive?) {
        return Granted;
      }
      if Grantable(e, t, mode) {
        NobodyAhead(entries, place, asleep, r, t);
        entries := entries[r := Entry(Grant(e.holders, t, mode), e.waiters)];
        NotifyAll(r);
        HoldersChange(old(entries), place, old(asleep), asleep, r, Grant(e.holders, t, mode), e.waiters);
        return Granted;
      }
      Joins(entries, place, asleep, r, Claim(t, mode), e);
      entries := entries[r := Entry(e.holders, e.waiters + [Claim(t, mode)])];
      place := place[t := r];
      return Queued;
    }

    /** A waiter leaves its queue, with or without the lock, and wakes the others. */
    method GoFrom(t: Txn, r: Resource, mode: Mode, granted: bool)
      requires Valid() && t in place && place[t] == r && t !in asleep
      requires granted ==> Grantable(At(r), t, mode)
      modifies this
      ensures Valid() && place == old(place) - {t} && t !in waitingFor && t !in doomed
      ensures forall x :: x != r ==> At(x) == old(At(x))
      ensures At(r) == Entry(if granted then Grant(old(At(r)).holders, t, mode) else old(At(r)).holders, Leave(old(At(r)).waiters, t))
    {
      EntryFacts(entries, place, asleep, t);
      var e := At(r);
      if granted { GrantFits(e.holders, t, mode); }
      var hs := if granted then Grant(e.holders, t, mode) else e.holders;
      entries := entries[r := Entry(hs, Leave(e.waiters, t))];
      NotifyAll(r);
      Leaves(old(entries), place, old(asleep), asleep, r, t, hs);
      waitingFor := waitingFor - {t};
      doomed := doomed - {t};
      place := place - {t};
    }

    /** The wait-for graph at this moment. */
    function Snapshot(): Graph
      reads this
    {
      Graph(waitingFor, map r | r in entries :: entries[r].holders)
    }

    /** One pass of a waiter's loop: take the lock if it can be had; otherwise look for
        a cycle, and go to sleep only if there is nothing to be done about it. The
        youngest of a cycle is the victim; if that is another waiter, it is woken. */
    method OnePass(t: Txn, r: Resource, mode: Mode, expired: bool) returns (p: Pass)
      requires Valid() && t in place && place[t] == r && t !in asleep && Claim(t, mode) in At(r).waiters
      modifies this
      ensures Valid() && forall x :: x != r ==> At(x) == old(At(x))
      ensures p.GotIt? <==> old(Grantable(At(r), t, mode))
      ensures p.GotIt? <==> old(At(r)).waiters[0].txn == t && Compatible(Grant(old(At(r)).holders, t, mode))
      ensures expired ==> !p.Sleeping?
      ensures p.GotIt? ==> old(At(r)).waiters[0] == Claim(t, mode) && At(r).holders == Grant(old(At(r)).holders, t, mode)
      ensures !p.GotIt? ==> At(r).holders == old(At(r)).holders
      ensures p.Sleeping? || p.Again? <==> t in place
      ensures p.Sleeping? || p.Again? ==> At(r) == old(At(r)) && place == old(place) && waitingFor == old(waitingFor)[t := r]
      ensures p.Sleeping? <==> t in asleep
      ensures p.Sleeping? ==> asleep == old(asleep)[t := r] && doomed == old(doomed)
      ensures p.Sleeping? && Deadlocked(Snapshot(), t) ==> exists v :: v in doomed && OnCycle(Snapshot(), v)
      ensures p.Again? ==> Deadlocked(WithEdge(old(Snapshot()), t, r), t)
      ensures p.Again? ==> exists v :: v in doomed && v !in old(doomed) && v != t && v !in asleep
      ensures p.Deadlock? && t !in old(doomed) ==> OnCycle(WithEdge(old(Snapshot()), t, r), t) && Deadlocked(WithEdge(old(Snapshot()), t, r), t)
      ensures p.TimedOut? ==> expired
    {
      EntryFacts(entries, place, asleep, t);
      FitsIff(At(r).holders, t, mode);
      if Grantable(At(r), t, mode) {
        HeadClaim(At(r).waiters, t, mode);
        GoFrom(t, r, mode, true);
        return GotIt;
      }
      if t in doomed {
        GoFrom(t, r, mode, false);
        return Deadlock;
      }
      p := Consider(t, r, mode, expired);
    }

    /** Nothing to be had: look for a cycle, act on it, give up, or sleep. */
    method Consider(t: Txn, r: Resource, mode: Mode, expired: bool) returns (p: Pass)
      requires Valid() && t in place && place[t] == r && t !in asleep && t !in doomed && Claim(t, mode) in At(r).waiters
      requires !Grantable(At(r), t, mode)
      modifies this
      ensures Valid() && (forall x :: x != r ==> At(x) == old(At(x))) && At(r).holders == old(At(r)).holders && !p.GotIt?
      ensures expired ==> !p.Sleeping?
      ensures p.Sleeping? || p.Again? <==> t in place
      ensures p.Sleeping? || p.Again? ==> At(r) == old(At(r)) && place == old(place) && waitingFor == old(waitingFor)[t := r]
      ensures p.Sleeping? <==> t in asleep
      ensures p.Sleeping? ==> asleep == old(asleep)[t := r] && doomed == old(doomed)
      ensures p.Sleeping? && Deadlocked(Snapshot(), t) ==> exists v :: v in doomed && OnCycle(Snapshot(), v)
      ensures p.Again? ==> Deadlocked(WithEdge(old(Snapshot()), t, r), t)
      ensures p.Again? ==> exists v :: v in doomed && v !in old(doomed) && v != t && v !in asleep
      ensures p.Deadlock? ==> OnCycle(WithEdge(old(Snapshot()), t, r), t) && Deadlocked(WithEdge(old(Snapshot()), t, r), t)
      ensures p.TimedOut? ==> expired
    {
      waitingFor := waitingFor[t := r];
      var g := Snapshot();
      assert g == WithEdge(old(Snapshot()), t, r);
      var verdict := DetectDeadlock(g, t);
      if verdict.Cycle? {
        OnItsCycle(g, verdict.edges, verdict.victim);
        if verdict.victim == t {
          GoFrom(t, r, mode, false);
          return Deadlock;
        }
        if verdict.victim !in doomed {
          Doom(verdict.victim);
          return Again;
        }
      }
      if expired {
        GoFrom(t, r, mode, false);
        return TimedOut;
      }
      Sleep(t, r, mode);
      assert Snapshot() == g;
      return Sleeping;
    }

    /** Condemn another waiter and wake it, wherever it sleeps. */
    method Doom(v: Txn)
      requires Valid() && v in waitingFor && v !in doomed
      modifies `doomed, `asleep
      ensures Valid() && doomed == old(doomed) + {v} && v !in asleep && forall x :: x in asleep ==> x in old(asleep)
    {
      doomed := doomed + {v};
      NotifyAll(waitingFor[v]);
      FewerAsleep(entries, place, old(asleep), asleep);
    }

    method Sleep(t: Txn, r: Resource, mode: Mode)
      requires Valid() && t in waitingFor && waitingFor[t] == r && t !in doomed && Claim(t, mode) in At(r).waiters
      requires !Grantable(At(r), t, mode)
      modifies `asleep
      ensures Valid() && asleep == old(asleep)[t := r]
    {
      asleep := asleep[t := r];
      OneMoreAsleep(entries, place, old(asleep), t, r, mode);
    }

    /** A timer fires, or a sleeper wakes for no reason. */
    method Stir(t: Txn)
      requires Valid()
      modifies `asleep
      ensures Valid() && asleep == old(asleep) - {t}
    {
      asleep := asleep - {t};
      FewerAsleep(entries, place, old(asleep), asleep);
    }

    /** Drop every lock of a finished transaction, waking whoever waits for one. */
    method ReleaseAll(t: Txn)
      requires Valid() && t !in place
      modifies this
      ensures Valid() && place == old(place) && entries.Keys == old(entries).Keys
      ensures forall r :: At(r) == Entry(Drop(old(At(r)).holders, t), old(At(r)).waiters)
    {
      var todo := entries.Keys;
      while todo != {}
        invariant Valid() && place == old(place) && entries.Keys == old(entries).Keys && todo <= entries.Keys
        invariant forall r :: r in entries && r in todo ==> entries[r] == old(entries)[r]
        invariant forall r :: r in entries && r !in todo ==> entries[r] == Entry(Drop(old(entries)[r].holders, t), old(entries)[r].waiters)
        decreases |todo|
      {
        var r :| r in todo;
        ReleaseOne(t, r);
        todo := todo - {r};
      }
    }

    method ReleaseOne(t: Txn, r: Resource)
      requires Valid() && r in entries
      modifies `entries, `asleep
      ensures Valid() && entries == old(entries)[r := Entry(Drop(old(entries)[r].holders, t), old(entries)[r].waiters)]
    {
      var e := entries[r];
      DropMeans(e.holders, t);
      assert InOrder(entries, place, asleep, r);
      if ModeOf(e.holders, t).Some? {
        entries := entries[r := Entry(Drop(e.holders, t), e.waiters)];
        NotifyAll(r);
        HoldersChange(old(entries), place, old(asleep), asleep, r, Drop(e.holders, t), e.waiters);
      } else {
        NothingToDrop(e.holders, t);
        assert entries[r := e] == entries;
      }
    }
  }

  /** The graph once this transaction waits for this resource. */
  function WithEdge(g: Graph, t: Txn, r: Resource): Graph {
    g.(waitingFor := g.waitingFor[t := r])
  }

  ghost predicate OnCycle(g: Graph, t: Txn) {
    exists edges :: ClosedWalk(g, edges) && Youngest(edges, t)
  }

  lemma OnItsCycle(g: Graph, edges: seq<Edge>, victim: Txn)
    requires ClosedWalk(g, edges) && Youngest(edges, victim)
    ensures victim in g.waitingFor && OnCycle(g, victim)
  {
    var i :| 0 <= i < |edges| && edges[i].from == victim;
    ChainAt(g, edges, edges[0].from, edges[0].from, i);
  }

  lemma HeadClaim(ws: seq<Claim>, t: Txn, mode: Mode)
    requires DistinctWaiters(ws) && Claim(t, mode) in ws && (|ws| == 0 || ws[0].txn == t)
    ensures |ws| > 0 && ws[0] == Claim(t, mode)
  {
    var i :| 0 <= i < |ws| && ws[i] == Claim(t, mode);
  }

  lemma FewerAsleep(entries: map<Resource, Entry>, place: map<Txn, Resource>, asleep: map<Txn, Resource>, asleep': map<Txn, Resource>)
    requires EntriesOk(entries, place, asleep) && forall t :: t in asleep' ==> t in asleep
    ensures EntriesOk(entries, place, asleep')
  {
    forall r ensures InOrder(entries, place, asleep', r) { assert InOrder(entries, place, asleep, r); }
  }

  lemma OneMoreAsleep(entries: map<Resource, Entry>, place: map<Txn, Resource>, asleep: map<Txn, Resource>, t: Txn, r: Resource, mode: Mode)
    requires EntriesOk(entries, place, asleep) && t in place && place[t] == r && r in entries && Claim(t, mode) in entries[r].waiters
    requires !Grantable(entries[r], t, mode)
    ensures EntriesOk(entries, place, asleep[t := r])
  {
    var asleep' := asleep[t := r];
    forall q ensures InOrder(entries, place, asleep', q) {
      assert InOrder(entries, place, asleep, q);
      if q in entries && |entries[q].waiters| > 0 && entries[q].waiters[0].txn == t {
        assert q == r;
        HeadClaim(entries[r].waiters, t, mode);
      }
    }
  }

  lemma {:induction false} NothingToDrop(hs: seq<Hold>, t: Txn)
    requires forall i :: 0 <= i < |hs| ==> hs[i].txn != t
    ensures Drop(hs, t) == hs
    decreases |hs|
  {
    if |hs| > 0 { NothingToDrop(hs[1..], t); }
  }

  /** A newcomer is not at the head of any queue, so a queue is empty if it is let in. */
  lemma NobodyAhead(entries: map<Resource, Entry>, place: map<Txn, Resource>, asleep: map<Txn, Resource>, r: Resource, t: Txn)
    requires EntriesOk(entries, place, asleep) && t !in place
    ensures r in entries ==> Compatible(entries[r].holders)
    ensures r in entries && |entries[r].waiters| > 0 ==> entries[r].waiters[0].txn != t
  {
    assert InOrder(entries, place, asleep, r);
  }

  lemma EntryFacts(entries: map<Resource, Entry>, place: map<Txn, Resource>, asleep: map<Txn, Resource>, t: Txn)
    requires EntriesOk(entries, place, asleep) && PlacesOk(entries, place) && t in place
    ensures place[t] in entries && EntryOk(entries[place[t]], asleep) && Queued(entries[place[t]].waiters, t)
  {
    assert InQueue(entries, place, t) && InOrder(entries, place, asleep, place[t]);
  }

  // ---- Completeness of the detection ----

  /** These transactions wait only for each other: each one's resource is held by
      members alone, and its queue cannot move. */
  ghost predicate Stuck(entries: map<Resource, Entry>, waitingFor: map<Txn, Resource>, stuck: set<Txn>) {
    forall t {:trigger StuckAt(entries, waitingFor, stuck, t)} :: t in stuck ==> StuckAt(entries, waitingFor, stuck, t)
  }

  ghost predicate StuckAt(entries: map<Resource, Entry>, waitingFor: map<Txn, Resource>, stuck: set<Txn>, t: Txn) {
    && t in waitingFor && waitingFor[t] in entries
    && var e := entries[waitingFor[t]];
    && (forall i :: 0 <= i < |e.holders| ==> e.holders[i].txn in stuck)
    && |e.waiters| > 0 && !Grantable(e, e.waiters[0].txn, e.waiters[0].mode)
  }

  /** The transaction is the only holder of what it waits for. */
  ghost predicate WaitsForItself(entries: map<Resource, Entry>, waitingFor: map<Txn, Resource>, t: Txn) {
    && t in waitingFor && waitingFor[t] in entries
    && forall i :: 0 <= i < |entries[waitingFor[t]].holders| ==> entries[waitingFor[t]].holders[i].txn == t
  }

  function GraphOf(entries: map<Resource, Entry>, waitingFor: map<Txn, Resource>): Graph {
    Graph(waitingFor, map r | r in entries :: entries[r].holders)
  }

  /** Exactly when no member of a stuck set is the only holder of what it waits for,
      the search from every member finds a cycle. */
  lemma StuckIsDeadlocked(entries: map<Resource, Entry>, waitingFor: map<Txn, Resource>, stuck: set<Txn>)
    requires Stuck(entries, waitingFor, stuck)
    ensures (forall t :: t in stuck ==> Deadlocked(GraphOf(entries, waitingFor), t))
       <==> (forall t :: t in stuck ==> !WaitsForItself(entries, waitingFor, t))
  {
    var g := GraphOf(entries, waitingFor);
    if forall t :: t in stuck ==> !WaitsForItself(entries, waitingFor, t) {
      forall x | x in stuck ensures Tied(g, stuck, x) { TiedByAnother(entries, waitingFor, stuck, x); }
      forall t | t in stuck ensures Deadlocked(g, t) { KnotIsDeadlock(g, stuck, t); }
    }
    forall t | t in stuck && WaitsForItself(entries, waitingFor, t) ensures !Deadlocked(g, t) { LonelyWait(entries, waitingFor, t); }
  }

  lemma TiedByAnother(entries: map<Resource, Entry>, waitingFor: map<Txn, Resource>, stuck: set<Txn>, t: Txn)
    requires Stuck(entries, waitingFor, stuck) && t in stuck && !WaitsForItself(entries, waitingFor, t)
    ensures Tied(GraphOf(entries, waitingFor), stuck, t)
  {
    var g := GraphOf(entries, waitingFor);
    assert StuckAt(entries, waitingFor, stuck, t);
    var hs := entries[waitingFor[t]].holders;
    assert Blockers(g, t) == hs;
    var i :| 0 <= i < |hs| && hs[i].txn != t;
    assert Waits(g, t, hs[i].txn);
  }

  /** Nobody has an edge to itself, so no walk leaves such a transaction. */
  lemma LonelyWait(entries: map<Resource, Entry>, waitingFor: map<Txn, Resource>, t: Txn)
    requires WaitsForItself(entries, waitingFor, t)
    ensures !Deadlocked(GraphOf(entries, waitingFor), t)
  {
    var g := GraphOf(entries, waitingFor);
    assert Blockers(g, t) == entries[waitingFor[t]].holders;
    assert forall u :: !Waits(g, t, u);
    assert forall w :: Walk(g, w) && w[0] == t ==> |w| == 1;
  }

  /** The writer waits for the reader, who does not wait for anybody else. */
  lemma NoCycleYet(entries: map<Resource, Entry>, waitingFor: map<Txn, Resource>)
    requires 0 in entries && entries[0].holders == [Hold(1, Shared)] && (1 in waitingFor ==> waitingFor[1] == 0)
    requires 3 in waitingFor && waitingFor[3] == 0
    ensures !Deadlocked(GraphOf(entries, waitingFor), 3) && !Deadlocked(GraphOf(entries, waitingFor), 1)
  {
    var g := GraphOf(entries, waitingFor);
    assert forall u :: !Waits(g, 1, u);
    assert forall w :: Walk(g, w) && w[0] == 1 ==> |w| == 1;
    forall w | Walk(g, w) && w[0] == 3 ensures Distinct(w) {
      if |w| > 1 {
        assert Waits(g, 3, w[1]) && w[1] == 1;
        assert Walk(g, w[1..]) && w[1..][0] == 1;
      }
    }
  }

  /** Transaction 1 holds the lock shared; transaction 3 wants it alone, and sleeps. */
  method OneHoldsOneSleeps() returns (lm: LockManager)
    ensures fresh(lm) && lm.Valid() && lm.doomed == {} && lm.place == map[3 := 0] && lm.asleep == map[3 := 0]
    ensures lm.waitingFor == map[3 := 0] && lm.At(0) == Entry([Hold(1, Shared)], [Claim(3, Exclusive)])
  {
    lm := new LockManager();
    var a := lm.Ask(1, 0, Shared);
    assert lm.At(0) == Entry([Hold(1, Shared)], []);
    a := lm.Ask(3, 0, Exclusive);
    assert !Fits([Hold(1, Shared)], 3, Exclusive) by { assert [Hold(1, Shared)][0].txn == 1; }
    assert lm.At(0) == Entry([Hold(1, Shared)], [Claim(3, Exclusive)]);
    NoCycleYet(lm.entries, lm.waitingFor[3 := 0]);
    var p := lm.OnePass(3, 0, Exclusive, false);
  }

  lemma BothStuck(entries: map<Resource, Entry>, waitingFor: map<Txn, Resource>)
    requires 0 in entries && entries[0] == Entry([Hold(1, Shared)], [Claim(3, Exclusive), Claim(1, Exclusive)])
    requires waitingFor == map[3 := 0, 1 := 0]
    ensures Stuck(entries, waitingFor, {1, 3}) && WaitsForItself(entries, waitingFor, 1)
  {
    assert !Fits([Hold(1, Shared)], 3, Exclusive) by { assert [Hold(1, Shared)][0].txn == 1; }
    forall t | t in {1, 3} ensures StuckAt(entries, waitingFor, {1, 3}, t) {}
  }

  /** Such a set can be reached: a reader that wants to upgrade queues behind a
      writer that waits for the reader. Both sleep, nobody is condemned, and the
      graph has no cycle, since the queue itself is not in it. */
  method UpgradeGoesUnnoticed() returns (lm: LockManager)
    ensures lm.Valid() && lm.doomed == {} && lm.asleep == map[3 := 0, 1 := 0]
    ensures Stuck(lm.entries, lm.waitingFor, {1, 3}) && WaitsForItself(lm.entries, lm.waitingFor, 1)
    ensures !Deadlocked(lm.Snapshot(), 1) && !Deadlocked(lm.Snapshot(), 3)
  {
    lm := OneHoldsOneSleeps();
    hide LockManager.Valid, Stuck, WaitsForItself, Deadlocked, OnCycle;
    var a := lm.Ask(1, 0, Exclusive);
    assert lm.At(0) == Entry([Hold(1, Shared)], [Claim(3, Exclusive), Claim(1, Exclusive)]);
    NoCycleYet(lm.entries, lm.waitingFor[1 := 0]);
    assert lm.At(0).waiters[1] == Claim(1, Exclusive);
    var p := lm.OnePass(1, 0, Exclusive, false);
    NoCycleYet(lm.entries, lm.waitingFor);
    BothStuck(lm.entries, lm.waitingFor);
  }
}
