/** The wait-for graph and the search for a cycle in it. */
module WaitGraph {

  type Txn = nat
  type Resource = nat

  datatype Mode = Shared | Exclusive

  datatype Hold = Hold(txn: Txn, mode: Mode)

  /** Who waits for what, and who holds it. */
  datatype Graph = Graph(waitingFor: map<Txn, Resource>, holders: map<Resource, seq<Hold>>)

  datatype Edge = Edge(from: Txn, resource: Resource, to: Txn)

  datatype Verdict = NoCycle | Cycle(victim: Txn, edges: seq<Edge>)

  /** The holders of the resource a transaction waits for. */
  function Blockers(g: Graph, t: Txn): seq<Hold> {
    if t in g.waitingFor && g.waitingFor[t] in g.holders then g.holders[g.waitingFor[t]] else []
  }

  /** `a` waits for something `b` holds. Nobody waits behind their own hold. */
  ghost predicate Waits(g: Graph, a: Txn, b: Txn) {
    a != b && exists i :: 0 <= i < |Blockers(g, a)| && Blockers(g, a)[i].txn == b
  }

  ghost predicate Walk(g: Graph, w: seq<Txn>) {
    |w| > 0 && (|w| == 1 || (Waits(g, w[0], w[1]) && Walk(g, w[1..])))
  }

  lemma {:induction false} WalkAppend(g: Graph, w: seq<Txn>, t: Txn)
    requires Walk(g, w) && Waits(g, w[|w| - 1], t)
    ensures Walk(g, w + [t])
    decreases |w|
  {
    if |w| > 1 {
      WalkAppend(g, w[1..], t);
      assert (w + [t])[1..] == w[1..] + [t];
    } else {
      assert (w + [t])[1..] == [t];
    }
  }

  ghost predicate Distinct(s: seq<Txn>) {
    forall i, j :: 0 <= i < j < |s| ==> s[i] != s[j]
  }

  /** Some walk from `t` comes back to a transaction it has passed. */
  ghost predicate Deadlocked(g: Graph, t: Txn) {
    exists w :: Walk(g, w) && w[0] == t && !Distinct(w)
  }

  /** No walk from `t` ever repeats, even counting the path that led to it. */
  ghost predicate Dead(g: Graph, path: seq<Txn>, t: Txn) {
    forall w {:trigger Strays(g, path, t, w)} :: Strays(g, path, t, w)
  }

  ghost predicate Strays(g: Graph, path: seq<Txn>, t: Txn, w: seq<Txn>) {
    Walk(g, w) && w[0] == t ==> Distinct(path + w)
  }

  ghost predicate Genuine(g: Graph, e: Edge) {
    Waits(g, e.from, e.to) && e.from in g.waitingFor && e.resource == g.waitingFor[e.from]
  }

  /** The edges lead from `a` to `b`, each starting where the one before ends. */
  ghost predicate Chain(g: Graph, edges: seq<Edge>, a: Txn, b: Txn) {
    if |edges| == 0 then a == b
    else edges[0].from == a && Genuine(g, edges[0]) && Chain(g, edges[1..], edges[0].to, b)
  }

  lemma {:induction false} ChainAppend(g: Graph, edges: seq<Edge>, a: Txn, e: Edge)
    requires Chain(g, edges, a, e.from) && Genuine(g, e)
    ensures Chain(g, edges + [e], a, e.to)
    decreases |edges|
  {
    if |edges| > 0 {
      ChainAppend(g, edges[1..], edges[0].to, e);
      assert (edges + [e])[1..] == edges[1..] + [e];
    } else {
      assert edges + [e] == [e] && [e][1..] == [];
    }
  }

  ghost predicate ClosedWalk(g: Graph, edges: seq<Edge>) {
    |edges| > 0 && Chain(g, edges, edges[0].from, edges[0].from)
  }

  ghost predicate Youngest(edges: seq<Edge>, victim: Txn) {
    && (exists i :: 0 <= i < |edges| && edges[i].from == victim)
    && (forall i :: 0 <= i < |edges| ==> edges[i].from <= victim)
  }

  /** `edges` are the edges along `path`, the last one leading to `t`. */
  ghost predicate Trail(g: Graph, path: seq<Txn>, edges: seq<Edge>, t: Txn)
    decreases |path|
  {
    && |edges| == |path|
    && (|path| > 0 ==>
          var n := |path| - 1;
          Genuine(g, edges[n]) && edges[n].from == path[n] && edges[n].to == t && Trail(g, path[..n], edges[..n], path[n]))
  }

  lemma {:induction false} TrailWalk(g: Graph, path: seq<Txn>, edges: seq<Edge>, t: Txn)
    requires Trail(g, path, edges, t)
    ensures Walk(g, path + [t])
    decreases |path|
  {
    if |path| > 0 {
      var n := |path| - 1;
      TrailWalk(g, path[..n], edges[..n], path[n]);
      assert path[..n] + [path[n]] == path;
      WalkAppend(g, path, t);
    }
  }

  lemma {:induction false} TrailChain(g: Graph, path: seq<Txn>, edges: seq<Edge>, t: Txn, i: nat)
    requires Trail(g, path, edges, t) && i < |path|
    ensures Chain(g, edges[i..], path[i], t) && edges[i].from == path[i]
    decreases |path|
  {
    var n := |path| - 1;
    if i < n {
      TrailChain(g, path[..n], edges[..n], path[n], i);
      assert edges[..n][i..] + [edges[n]] == edges[i..];
      ChainAppend(g, edges[..n][i..], path[i], edges[n]);
    } else {
      assert edges[i..] == [edges[n]] && [edges[n]][1..] == [];
    }
  }

  /** Every walk from `t` begins with one of its blockers. */
  lemma DeadEnd(g: Graph, path: seq<Txn>, t: Txn)
    requires t !in path && Distinct(path)
    requires forall i :: 0 <= i < |Blockers(g, t)| && Blockers(g, t)[i].txn != t ==> Dead(g, path + [t], Blockers(g, t)[i].txn)
    ensures Dead(g, path, t)
  {
    forall w ensures Strays(g, path, t, w) {
      if Walk(g, w) && w[0] == t {
        if |w| == 1 {
          assert w == [t];
        } else {
          var i :| 0 <= i < |Blockers(g, t)| && Blockers(g, t)[i].txn == w[1];
          assert Dead(g, path + [t], w[1]) && Strays(g, path + [t], w[1], w[1..]);
          assert path + [t] + w[1..] == path + w;
        }
      }
    }
  }

  /** The path closes on itself: the cycle is its tail. */
  lemma CycleFound(g: Graph, path: seq<Txn>, edges: seq<Edge>, t: Txn, i: nat)
    requires Trail(g, path, edges, t) && i < |path| && path[i] == t
    ensures ClosedWalk(g, edges[i..]) && Deadlocked(g, path[0])
  {
    TrailWalk(g, path, edges, t);
    TrailChain(g, path, edges, t, i);
    var w := path + [t];
    assert w[i] == w[|path|] && w[0] == path[0];
  }

  method MaxOf(path: seq<Txn>, i: nat) returns (m: Txn)
    requires i < |path|
    ensures (exists k :: i <= k < |path| && path[k] == m) && forall k :: i <= k < |path| ==> path[k] <= m
  {
    m := path[i];
    var k := i + 1;
    while k < |path|
      invariant i < k <= |path| && (exists n :: i <= n < k && path[n] == m) && forall n :: i <= n < k ==> path[n] <= m
    {
      if path[k] > m { m := path[k]; }
      k := k + 1;
    }
  }

  method IndexOf(path: seq<Txn>, t: Txn) returns (i: nat)
    requires t in path
    ensures i < |path| && path[i] == t
  {
    i := 0;
    while path[i] != t
      invariant i < |path| && forall k :: 0 <= k < i ==> path[k] != t
      decreases |path| - i
    {
      i := i + 1;
    }
  }

  /** Follow wait-for edges depth first. The path holds only distinct waiting
      transactions, so the search ends. */
  method Visit(g: Graph, t: Txn, path: seq<Txn>, edges: seq<Edge>, ghost origin: Txn) returns (r: Verdict)
    requires Trail(g, path, edges, t) && Distinct(path) && origin == (path + [t])[0]
    ensures r.NoCycle? ==> Dead(g, path, t)
    ensures r.Cycle? ==> ClosedWalk(g, r.edges) && Youngest(r.edges, r.victim) && Deadlocked(g, origin)
    decreases |g.waitingFor.Keys - Members(path)|, 0
  {
    if t in path {
      var i := IndexOf(path, t);
      CycleFound(g, path, edges, t, i);
      var victim := MaxOf(path, i);
      TailIsYoungest(g, path, edges, t, i, victim);
      return Cycle(victim, edges[i..]);
    }
    if t !in g.waitingFor {
      DeadEnd(g, path, t);
      return NoCycle;
    }
    Shrinks(g.waitingFor.Keys, path, t);
    r := VisitBlockers(g, t, path, edges, origin);
    if r.NoCycle? { DeadEnd(g, path, t); }
  }

  /** Try every holder of the resource that `t` waits for. */
  method VisitBlockers(g: Graph, t: Txn, path: seq<Txn>, edges: seq<Edge>, ghost origin: Txn) returns (r: Verdict)
    requires Trail(g, path, edges, t) && Distinct(path + [t]) && origin == (path + [t])[0] && t in g.waitingFor
    ensures r.NoCycle? ==>
              forall k :: 0 <= k < |Blockers(g, t)| && Blockers(g, t)[k].txn != t ==> Dead(g, path + [t], Blockers(g, t)[k].txn)
    ensures r.Cycle? ==> ClosedWalk(g, r.edges) && Youngest(r.edges, r.victim) && Deadlocked(g, origin)
    decreases |g.waitingFor.Keys - Members(path + [t])|, 1
  {
    var resource := g.waitingFor[t];
    var blockers := Blockers(g, t);
    var i := 0;
    while i < |blockers|
      invariant 0 <= i <= |blockers|
      invariant forall k :: 0 <= k < i && blockers[k].txn != t ==> Dead(g, path + [t], blockers[k].txn)
    {
      var next := blockers[i].txn;
      if next != t {
        TrailPush(g, path, edges, t, next);
        r := Visit(g, next, path + [t], edges + [Edge(t, resource, next)], origin);
        if r.Cycle? {
          return;
        }
      }
      i := i + 1;
    }
    return NoCycle;
  }

  ghost function Members(path: seq<Txn>): set<Txn> {
    set t | t in path
  }

  lemma MembersPush(path: seq<Txn>, t: Txn)
    ensures Members(path + [t]) == Members(path) + {t}
  {
  }

  lemma Shrinks(keys: set<Txn>, path: seq<Txn>, t: Txn)
    requires t in keys && t !in path
    ensures |keys - Members(path + [t])| < |keys - Members(path)|
  {
    MembersPush(path, t);
    assert keys - Members(path) == (keys - Members(path + [t])) + {t};
  }

  lemma TrailPush(g: Graph, path: seq<Txn>, edges: seq<Edge>, t: Txn, next: Txn)
    requires Trail(g, path, edges, t) && t in g.waitingFor && Waits(g, t, next)
    ensures Trail(g, path + [t], edges + [Edge(t, g.waitingFor[t], next)], next)
  {
    assert (path + [t])[..|path|] == path;
    assert (edges + [Edge(t, g.waitingFor[t], next)])[..|path|] == edges;
  }

  lemma TailIsYoungest(g: Graph, path: seq<Txn>, edges: seq<Edge>, t: Txn, i: nat, victim: Txn)
    requires Trail(g, path, edges, t) && i < |path|
    requires (exists k :: i <= k < |path| && path[k] == victim) && forall k :: i <= k < |path| ==> path[k] <= victim
    ensures Youngest(edges[i..], victim)
  {
    forall k | i <= k < |path| ensures edges[i..][k - i].from == path[k] { TrailChain(g, path, edges, t, k); }
    var k :| i <= k < |path| && path[k] == victim;
    assert edges[i..][k - i].from == victim;
    forall n | 0 <= n < |edges[i..]| ensures edges[i..][n].from <= victim { assert edges[i..][n].from == path[i + n]; }
  }

  /** A cycle is reported exactly when one can be reached from the waiter. */
  method DetectDeadlock(g: Graph, t: Txn) returns (r: Verdict)
    ensures r.Cycle? <==> Deadlocked(g, t)
    ensures r.Cycle? ==> ClosedWalk(g, r.edges) && Youngest(r.edges, r.victim)
  {
    r := Visit(g, t, [], [], t);
    if r.NoCycle? {
      forall w | Walk(g, w) && w[0] == t ensures Distinct(w) { assert Strays(g, [], t, w) && [] + w == w; }
    }
  }

  /** The victim is never the oldest of the cycle. */
  lemma OldestIsSpared(g: Graph, edges: seq<Edge>, victim: Txn)
    requires ClosedWalk(g, edges) && Youngest(edges, victim)
    ensures exists i :: 0 <= i < |edges| && edges[i].from < victim
  {
    var i :| 0 <= i < |edges| && edges[i].from == victim;
    ChainAt(g, edges, edges[0].from, edges[0].from, i);
    var j := if i + 1 < |edges| then i + 1 else 0;
    assert edges[j].from != victim;
  }

  lemma {:induction false} ChainAt(g: Graph, edges: seq<Edge>, a: Txn, b: Txn, i: nat)
    requires Chain(g, edges, a, b) && i < |edges|
    ensures Genuine(g, edges[i]) && edges[i].to == (if i + 1 < |edges| then edges[i + 1].from else b)
    decreases |edges|
  {
    if i > 0 { ChainAt(g, edges[1..], edges[0].to, b, i - 1); }
  }

  // ---- Completeness ----

  /** Each of these transactions waits for a resource held by another of them. */
  ghost predicate Knot(g: Graph, stuck: set<Txn>) {
    forall t {:trigger Tied(g, stuck, t)} :: t in stuck ==> Tied(g, stuck, t)
  }

  ghost predicate Tied(g: Graph, stuck: set<Txn>, t: Txn) {
    exists u :: u in stuck && Waits(g, t, u)
  }

  /** A walk of any length that stays in the knot. */
  lemma {:induction false} LongWalk(g: Graph, stuck: set<Txn>, t: Txn, n: nat) returns (w: seq<Txn>)
    requires Knot(g, stuck) && t in stuck
    ensures |w| == n + 1 && w[0] == t && Walk(g, w) && forall i :: 0 <= i < |w| ==> w[i] in stuck
    decreases n
  {
    if n == 0 {
      w := [t];
    } else {
      assert Tied(g, stuck, t);
      var u :| u in stuck && Waits(g, t, u);
      var rest := LongWalk(g, stuck, u, n - 1);
      w := [t] + rest;
      assert w[1..] == rest;
    }
  }

  lemma {:induction false} Pigeonhole(w: seq<Txn>, box: set<Txn>)
    requires forall i :: 0 <= i < |w| ==> w[i] in box
    requires Distinct(w)
    ensures |w| <= |box|
    decreases |w|
  {
    if |w| > 0 {
      var rest := w[1..];
      forall i | 0 <= i < |rest| ensures rest[i] in box - {w[0]} { assert rest[i] == w[i + 1] != w[0]; }
      Pigeonhole(rest, box - {w[0]});
    }
  }

  /** Whoever is in a knot is found to be deadlocked. */
  lemma KnotIsDeadlock(g: Graph, stuck: set<Txn>, t: Txn)
    requires Knot(g, stuck) && t in stuck
    ensures Deadlocked(g, t)
  {
    var w := LongWalk(g, stuck, t, |stuck|);
    if Distinct(w) { Pigeonhole(w, stuck); }
  }
}
