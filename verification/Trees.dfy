/** B-tree pages as they sit in the file, and the tree they spell out.

    A `Tree` is the value that a set of pages represents; a `Ctx` is a tree with
    one subtree missing, read from the hole up to the root. The `path` that every
    b-tree operation carries is such a context, so a loop that walks `path`
    upwards peels frames off a context, and a fact about the whole tree is a fact
    about the context plus a fact about the subtree in its hole.

    `X` is what a page stores: an index entry, or a table row or fence. */
module Trees {
  import opened Basics

  datatype Routed<X> = Routed(child: PageId, sep: X)

  /** The decoded body of a page. Interior cells carry the child to their left. */
  datatype Page<X> =
    | LeafPage(cells: seq<X>)
    | InteriorPage(routed: seq<Routed<X>>, right: PageId)
    | OverflowPage(next: PageId)
    | FreePage(next: PageId)

  datatype Tree<X> =
    | TLeaf(id: PageId, cells: seq<X>)
    | TNode(id: PageId, cells: seq<X>, kids: seq<Tree<X>>)

  /** Every child page number of an interior page, left to right. */
  function Children<X>(p: Page<X>): (r: seq<PageId>)
    requires p.InteriorPage?
    ensures |r| == |p.routed| + 1
  {
    seq(|p.routed| + 1, i requires 0 <= i <= |p.routed| => if i < |p.routed| then p.routed[i].child else p.right)
  }

  function Seps<X>(p: Page<X>): (r: seq<X>)
    requires p.InteriorPage?
    ensures |r| == |p.routed|
  {
    seq(|p.routed|, i requires 0 <= i < |p.routed| => p.routed[i].sep)
  }

  /** The interior page with the given separators and children. */
  function Interior<X>(seps: seq<X>, ids: seq<PageId>): (p: Page<X>)
    requires |ids| == |seps| + 1
    ensures p.InteriorPage? && Seps(p) == seps && Children(p) == ids
  {
    var p := InteriorPage(seq(|seps|, i requires 0 <= i < |seps| => Routed(ids[i], seps[i])), ids[|seps|]);
    assert Seps(p) == seps && Children(p) == ids;
    p
  }

  lemma InteriorOf<X>(p: Page<X>)
    requires p.InteriorPage?
    ensures Interior(Seps(p), Children(p)) == p
  {
    assert Interior(Seps(p), Children(p)).routed == p.routed;
  }

  function KidIds<X>(kids: seq<Tree<X>>): (r: seq<PageId>)
    ensures |r| == |kids|
  {
    seq(|kids|, i requires 0 <= i < |kids| => kids[i].id)
  }

  lemma KidIdsCut<X>(kids: seq<Tree<X>>, k: nat)
    requires k <= |kids|
    ensures KidIds(kids[..k]) == KidIds(kids)[..k] && KidIds(kids[k..]) == KidIds(kids)[k..]
  {
    var ids := KidIds(kids);
    forall i | 0 <= i < k ensures KidIds(kids[..k])[i] == ids[..k][i] {}
    forall i | 0 <= i < |kids| - k ensures KidIds(kids[k..])[i] == ids[k..][i] {}
  }

  lemma KidIdsAppend<X>(kids: seq<Tree<X>>, t: Tree<X>)
    ensures KidIds(kids + [t]) == KidIds(kids) + [t.id]
  {
  }

  // ---- Shape: every leaf at the same depth ----

  ghost predicate Shape<X>(t: Tree<X>, h: nat)
    decreases t, 1
  {
    match t
    case TLeaf(_, _) => h == 0
    case TNode(_, cells, kids) => h > 0 && |kids| == |cells| + 1 && Shapes(kids, h - 1)
  }

  ghost predicate Shapes<X>(ts: seq<Tree<X>>, h: nat)
    decreases ts, 0
  {
    |ts| == 0 || (Shape(ts[0], h) && Shapes(ts[1..], h))
  }

  lemma {:induction false} ShapesAt<X>(ts: seq<Tree<X>>, h: nat, i: nat)
    requires Shapes(ts, h) && i < |ts|
    ensures Shape(ts[i], h)
    decreases i
  {
    if i > 0 { ShapesAt(ts[1..], h, i - 1); }
  }

  lemma {:induction false} ShapesAppend<X>(a: seq<Tree<X>>, b: seq<Tree<X>>, h: nat)
    ensures Shapes(a + b, h) <==> Shapes(a, h) && Shapes(b, h)
    decreases |a|
  {
    if |a| == 0 {
      assert a + b == b;
    } else {
      assert (a + b)[1..] == a[1..] + b;
      ShapesAppend(a[1..], b, h);
    }
  }

  lemma ShapesOne<X>(t: Tree<X>, h: nat)
    ensures Shapes([t], h) <==> Shape(t, h)
  {
    assert [t][1..] == [];
  }

  // ---- The in-order sequence ----

  ghost function Flat<X>(t: Tree<X>): seq<X>
    decreases t, 1
  {
    match t
    case TLeaf(_, cells) => cells
    case TNode(_, cells, kids) =>
      if |kids| == |cells| + 1 then FlatKids(cells, kids) else []
  }

  /** kid, cell, kid, cell, ..., kid */
  ghost function FlatKids<X>(cells: seq<X>, kids: seq<Tree<X>>): seq<X>
    requires |kids| == |cells| + 1
    decreases kids, 0
  {
    if |cells| == 0 then Flat(kids[0])
    else Flat(kids[0]) + [cells[0]] + FlatKids(cells[1..], kids[1..])
  }

  /** kid, cell, kid, cell: everything to the left of the kid that follows. */
  ghost function FlatBefore<X>(cells: seq<X>, kids: seq<Tree<X>>): seq<X>
    requires |kids| == |cells|
    decreases kids
  {
    if |cells| == 0 then []
    else Flat(kids[0]) + [cells[0]] + FlatBefore(cells[1..], kids[1..])
  }

  /** cell, kid, cell, kid: everything to the right of the kid before. */
  ghost function FlatAfter<X>(cells: seq<X>, kids: seq<Tree<X>>): seq<X>
    requires |kids| == |cells|
    decreases kids
  {
    if |cells| == 0 then []
    else [cells[0]] + Flat(kids[0]) + FlatAfter(cells[1..], kids[1..])
  }

  lemma {:induction false} FlatFirst<X>(cells: seq<X>, k: Tree<X>, right: seq<Tree<X>>)
    requires |right| == |cells|
    ensures FlatKids(cells, [k] + right) == Flat(k) + FlatAfter(cells, right)
    decreases |right|
  {
    assert ([k] + right)[1..] == right;
    if |cells| > 0 {
      assert right == [right[0]] + right[1..];
      FlatFirst(cells[1..], right[0], right[1..]);
    }
  }

  lemma {:induction false} FlatDrop<X>(cells: seq<X>, kids: seq<Tree<X>>, i: nat)
    requires |kids| == |cells| + 1 && i <= |cells|
    ensures FlatKids(cells, kids) == FlatBefore(cells[..i], kids[..i]) + FlatKids(cells[i..], kids[i..])
    decreases i
  {
    if i > 0 {
      FlatDrop(cells[1..], kids[1..], i - 1);
      assert cells[1..][..i - 1] == cells[..i][1..] && kids[1..][..i - 1] == kids[..i][1..];
      assert cells[1..][i - 1..] == cells[i..] && kids[1..][i - 1..] == kids[i..];
    }
  }

  /** A node's sequence, cut at any one of its kids. */
  lemma FlatCut<X>(cells: seq<X>, left: seq<Tree<X>>, k: Tree<X>, right: seq<Tree<X>>)
    requires |left| + |right| == |cells|
    ensures FlatKids(cells, left + [k] + right)
         == FlatBefore(cells[..|left|], left) + Flat(k) + FlatAfter(cells[|left|..], right)
  {
    var kids, i := left + [k] + right, |left|;
    assert kids[..i] == left && kids[i..] == [k] + right;
    calc {
      FlatKids(cells, kids);
      { FlatDrop(cells, kids, i); }
      FlatBefore(cells[..i], left) + FlatKids(cells[i..], [k] + right);
      { FlatFirst(cells[i..], k, right); }
      FlatBefore(cells[..i], left) + (Flat(k) + FlatAfter(cells[i..], right));
      { Assoc(FlatBefore(cells[..i], left), Flat(k), FlatAfter(cells[i..], right)); }
      FlatBefore(cells[..i], left) + Flat(k) + FlatAfter(cells[i..], right);
    }
  }

  lemma EmptySides<X>(a: seq<X>)
    ensures [] + a == a && a + [] == a
  {
  }

  lemma Assoc<X>(a: seq<X>, b: seq<X>, c: seq<X>)
    ensures a + (b + c) == a + b + c
  {
  }

  lemma {:induction false} FlatBeforeAppend<X>(cells: seq<X>, kids: seq<Tree<X>>, c: X, k: Tree<X>)
    requires |kids| == |cells|
    ensures FlatBefore(cells + [c], kids + [k]) == FlatBefore(cells, kids) + Flat(k) + [c]
    decreases |cells|
  {
    if |cells| == 0 {
      assert cells + [c] == [c] && kids + [k] == [k];
      assert [c][1..] == [];
    } else {
      assert (cells + [c])[1..] == cells[1..] + [c];
      assert (kids + [k])[1..] == kids[1..] + [k];
      FlatBeforeAppend(cells[1..], kids[1..], c, k);
    }
  }

  // ---- Page numbers, each with its multiplicity ----

  ghost function NodeIds<X>(t: Tree<X>): multiset<PageId> {
    match t
    case TLeaf(id, _) => multiset{id}
    case TNode(id, _, kids) => multiset{id} + ForestIds(kids)
  }

  ghost function ForestIds<X>(ts: seq<Tree<X>>): multiset<PageId> {
    if |ts| == 0 then multiset{} else NodeIds(ts[0]) + ForestIds(ts[1..])
  }

  lemma {:induction false} ForestAppend<X>(a: seq<Tree<X>>, b: seq<Tree<X>>)
    ensures ForestIds(a + b) == ForestIds(a) + ForestIds(b)
    decreases |a|
  {
    if |a| == 0 {
      assert a + b == b;
    } else {
      assert (a + b)[1..] == a[1..] + b;
      ForestAppend(a[1..], b);
    }
  }

  // ---- Representation: the store's pages spell out the tree ----

  function Shallow<X>(t: Tree<X>): Page<X> {
    match t
    case TLeaf(_, cells) => LeafPage(cells)
    case TNode(_, cells, kids) =>
      if |kids| == |cells| + 1 then Interior(cells, KidIds(kids)) else FreePage(0)
  }

  ghost predicate Rep<X>(m: map<PageId, Page<X>>, t: Tree<X>) {
    t.id in m && m[t.id] == Shallow(t) && (t.TNode? ==> Reps(m, t.kids))
  }

  ghost predicate Reps<X>(m: map<PageId, Page<X>>, ts: seq<Tree<X>>) {
    |ts| == 0 || (Rep(m, ts[0]) && Reps(m, ts[1..]))
  }

  lemma {:induction false} RepsAt<X>(m: map<PageId, Page<X>>, ts: seq<Tree<X>>, i: nat)
    requires Reps(m, ts) && i < |ts|
    ensures Rep(m, ts[i])
    decreases i
  {
    if i > 0 { RepsAt(m, ts[1..], i - 1); }
  }

  lemma {:induction false} RepsAppend<X>(m: map<PageId, Page<X>>, a: seq<Tree<X>>, b: seq<Tree<X>>)
    ensures Reps(m, a + b) <==> Reps(m, a) && Reps(m, b)
    decreases |a|
  {
    if |a| == 0 {
      assert a + b == b;
    } else {
      assert (a + b)[1..] == a[1..] + b;
      RepsAppend(m, a[1..], b);
    }
  }

  ghost predicate Same<X>(m: map<PageId, Page<X>>, m': map<PageId, Page<X>>, x: PageId) {
    x in m ==> x in m' && m'[x] == m[x]
  }

  /** The pages in `ids` hold in m' what they held in m. */
  ghost predicate Agree<X>(m: map<PageId, Page<X>>, m': map<PageId, Page<X>>, ids: multiset<PageId>) {
    forall x {:trigger Same(m, m', x)} :: x in ids ==> Same(m, m', x)
  }

  lemma AgreeRefl<X>(m: map<PageId, Page<X>>, ids: multiset<PageId>)
    ensures Agree(m, m, ids)
  {
  }

  lemma AgreeWrite<X>(m: map<PageId, Page<X>>, id: PageId, p: Page<X>, ids: multiset<PageId>)
    requires id !in ids
    ensures Agree(m, m[id := p], ids)
  {
  }

  lemma AgreeTrans<X>(m: map<PageId, Page<X>>, m': map<PageId, Page<X>>, m'': map<PageId, Page<X>>, ids: multiset<PageId>)
    requires Agree(m, m', ids) && Agree(m', m'', ids)
    ensures Agree(m, m'', ids)
  {
    forall x | x in ids ensures Same(m, m'', x) {
      assert Same(m, m', x) && Same(m', m'', x);
    }
  }

  lemma AgreeSub<X>(m: map<PageId, Page<X>>, m': map<PageId, Page<X>>, ids: multiset<PageId>, sub: multiset<PageId>)
    requires Agree(m, m', ids) && sub <= ids
    ensures Agree(m, m', sub)
  {
    forall x | x in sub ensures Same(m, m', x) { assert x in ids; }
  }

  /** A tree survives any change to pages that are not its own. */
  lemma {:induction false} RepFrame<X>(m: map<PageId, Page<X>>, m': map<PageId, Page<X>>, t: Tree<X>)
    requires Rep(m, t) && Agree(m, m', NodeIds(t))
    ensures Rep(m', t)
    decreases t, 1
  {
    assert t.id in NodeIds(t);
    assert Same(m, m', t.id);
    if t.TNode? {
      AgreeSub(m, m', NodeIds(t), ForestIds(t.kids));
      RepsFrame(m, m', t.kids);
    }
  }

  lemma {:induction false} RepsFrame<X>(m: map<PageId, Page<X>>, m': map<PageId, Page<X>>, ts: seq<Tree<X>>)
    requires Reps(m, ts) && Agree(m, m', ForestIds(ts))
    ensures Reps(m', ts)
    decreases ts, 0
  {
    if |ts| > 0 {
      AgreeSub(m, m', ForestIds(ts), NodeIds(ts[0]));
      AgreeSub(m, m', ForestIds(ts), ForestIds(ts[1..]));
      RepFrame(m, m', ts[0]);
      RepsFrame(m, m', ts[1..]);
    }
  }

  // ---- Per-page conditions (bytes, non-emptiness) ----

  /** A condition on one page's cells; the first argument says "this is a leaf". */
  type PageRule<!X> = (bool, seq<X>) -> bool

  ghost predicate AllPages<X>(t: Tree<X>, ok: PageRule<X>) {
    ok(t.TLeaf?, t.cells) && (t.TNode? ==> AllForest(t.kids, ok))
  }

  ghost predicate AllForest<X>(ts: seq<Tree<X>>, ok: PageRule<X>) {
    |ts| == 0 || (AllPages(ts[0], ok) && AllForest(ts[1..], ok))
  }

  lemma {:induction false} AllForestAppend<X>(a: seq<Tree<X>>, b: seq<Tree<X>>, ok: PageRule<X>)
    ensures AllForest(a + b, ok) <==> AllForest(a, ok) && AllForest(b, ok)
    decreases |a|
  {
    if |a| == 0 {
      assert a + b == b;
    } else {
      assert (a + b)[1..] == a[1..] + b;
      AllForestAppend(a[1..], b, ok);
    }
  }

  lemma Singleton<X>(m: map<PageId, Page<X>>, t: Tree<X>, ok: PageRule<X>)
    ensures ForestIds([t]) == NodeIds(t)
    ensures Reps(m, [t]) <==> Rep(m, t)
    ensures AllForest([t], ok) <==> AllPages(t, ok)
  {
    assert [t][1..] == [];
  }

  lemma Pair<X>(m: map<PageId, Page<X>>, a: Tree<X>, b: Tree<X>, ok: PageRule<X>)
    ensures ForestIds([a, b]) == NodeIds(a) + NodeIds(b)
    ensures Reps(m, [a, b]) <==> Rep(m, a) && Rep(m, b)
    ensures AllForest([a, b], ok) <==> AllPages(a, ok) && AllPages(b, ok)
  {
    assert [a, b] == [a] + [b];
    Singleton(m, a, ok);
    Singleton(m, b, ok);
    ForestAppend([a], [b]);
    RepsAppend(m, [a], [b]);
    AllForestAppend([a], [b], ok);
  }

  // ---- Contexts ----

  /** A tree with a hole. `Frame` is the interior page whose child, between
      `left` and `right`, is the hole; `up` is the context of that page. */
  datatype Ctx<X> =
    | Top
    | Frame(id: PageId, cells: seq<X>, left: seq<Tree<X>>, right: seq<Tree<X>>, up: Ctx<X>)

  ghost function Fill<X>(f: Ctx<X>, t: Tree<X>): Tree<X>
    requires f.Frame?
  {
    TNode(f.id, f.cells, f.left + [t] + f.right)
  }

  ghost function Plug<X>(c: Ctx<X>, t: Tree<X>): Tree<X>
    decreases c
  {
    if c.Top? then t else Plug(c.up, Fill(c, t))
  }

  ghost function Depth<X>(c: Ctx<X>): nat {
    if c.Top? then 0 else 1 + Depth(c.up)
  }

  ghost predicate CtxShape<X>(c: Ctx<X>, h: nat)
    decreases c
  {
    c.Top? ||
    (|c.left| + |c.right| == |c.cells| && Shapes(c.left, h) && Shapes(c.right, h) && CtxShape(c.up, h + 1))
  }

  ghost function FlatLeft<X>(c: Ctx<X>): seq<X> {
    if c.Top? || |c.left| > |c.cells| then []
    else FlatLeft(c.up) + FlatBefore(c.cells[..|c.left|], c.left)
  }

  ghost function FlatRight<X>(c: Ctx<X>): seq<X> {
    if c.Top? || |c.left| + |c.right| != |c.cells| then []
    else FlatAfter(c.cells[|c.left|..], c.right) + FlatRight(c.up)
  }

  ghost function CtxIds<X>(c: Ctx<X>): multiset<PageId> {
    if c.Top? then multiset{}
    else multiset{c.id} + ForestIds(c.left) + ForestIds(c.right) + CtxIds(c.up)
  }

  ghost predicate CtxRep<X>(m: map<PageId, Page<X>>, c: Ctx<X>, hole: PageId) {
    c.Top? ||
    ( && |c.left| + |c.right| == |c.cells|
      && c.id in m && m[c.id] == Interior(c.cells, KidIds(c.left) + [hole] + KidIds(c.right))
      && Reps(m, c.left) && Reps(m, c.right)
      && CtxRep(m, c.up, c.id))
  }

  ghost predicate CtxAll<X>(c: Ctx<X>, ok: PageRule<X>) {
    c.Top? || (ok(false, c.cells) && AllForest(c.left, ok) && AllForest(c.right, ok) && CtxAll(c.up, ok))
  }

  /** The page number of the root of any tree in this context. */
  ghost function RootPage<X>(c: Ctx<X>): PageId
    requires c.Frame?
  {
    if c.up.Top? then c.id else RootPage(c.up)
  }

  lemma {:induction false} PlugTop<X>(c: Ctx<X>, t: Tree<X>)
    ensures Plug(c, t).id == (if c.Top? then t.id else RootPage(c))
    ensures t.TNode? || c.Frame? ==> Plug(c, t).TNode?
    decreases c
  {
    if c.Frame? { PlugTop(c.up, Fill(c, t)); }
  }

  lemma {:induction false} PlugFlat<X>(c: Ctx<X>, t: Tree<X>, h: nat)
    requires CtxShape(c, h)
    ensures Flat(Plug(c, t)) == FlatLeft(c) + Flat(t) + FlatRight(c)
    decreases c
  {
    if c.Frame? {
      PlugFlat(c.up, Fill(c, t), h + 1);
      FlatCut(c.cells, c.left, t, c.right);
      Nest(FlatLeft(c.up), FlatBefore(c.cells[..|c.left|], c.left), Flat(t), FlatAfter(c.cells[|c.left|..], c.right), FlatRight(c.up));
    }
  }

  lemma Nest<X>(u: seq<X>, a: seq<X>, x: seq<X>, b: seq<X>, v: seq<X>)
    ensures u + (a + x + b) + v == (u + a) + x + (b + v)
  {
  }

  lemma FillShape<X>(c: Ctx<X>, t: Tree<X>, h: nat)
    requires c.Frame? && |c.left| + |c.right| == |c.cells|
    ensures Shape(Fill(c, t), h + 1) <==> Shapes(c.left, h) && Shape(t, h) && Shapes(c.right, h)
  {
    ShapesAppend(c.left + [t], c.right, h);
    ShapesAppend(c.left, [t], h);
    ShapesOne(t, h);
  }

  lemma {:induction false} PlugShape<X>(c: Ctx<X>, t: Tree<X>, h: nat)
    requires CtxShape(c, h) && Shape(t, h)
    ensures Shape(Plug(c, t), h + Depth(c))
    decreases c
  {
    if c.Frame? {
      FillShape(c, t, h);
      PlugShape(c.up, Fill(c, t), h + 1);
    }
  }

  lemma {:induction false} PlugIds<X>(c: Ctx<X>, t: Tree<X>)
    ensures NodeIds(Plug(c, t)) == CtxIds(c) + NodeIds(t)
    decreases c
  {
    if c.Frame? {
      PlugIds(c.up, Fill(c, t));
      FillIds(c, t);
    }
  }

  lemma FillIds<X>(c: Ctx<X>, t: Tree<X>)
    requires c.Frame?
    ensures NodeIds(Fill(c, t)) == multiset{c.id} + ForestIds(c.left) + NodeIds(t) + ForestIds(c.right)
  {
    ForestAppend(c.left + [t], c.right);
    ForestAppend(c.left, [t]);
    assert ForestIds([t]) == NodeIds(t) by { assert [t][1..] == []; }
  }

  lemma FillShallow<X>(c: Ctx<X>, t: Tree<X>)
    requires c.Frame? && |c.left| + |c.right| == |c.cells|
    ensures Shallow(Fill(c, t)) == Interior(c.cells, KidIds(c.left) + [t.id] + KidIds(c.right))
  {
    assert KidIds(c.left + [t] + c.right) == KidIds(c.left) + [t.id] + KidIds(c.right);
  }

  lemma {:induction false} PlugRep<X>(m: map<PageId, Page<X>>, c: Ctx<X>, t: Tree<X>, h: nat)
    requires CtxShape(c, h)
    ensures Rep(m, Plug(c, t)) <==> CtxRep(m, c, t.id) && Rep(m, t)
    decreases c
  {
    if c.Frame? {
      PlugRep(m, c.up, Fill(c, t), h + 1);
      FillShallow(c, t);
      RepsAppend(m, c.left + [t], c.right);
      RepsAppend(m, c.left, [t]);
      assert Reps(m, [t]) <==> Rep(m, t) by { assert [t][1..] == []; }
    }
  }

  lemma {:induction false} PlugAll<X>(c: Ctx<X>, t: Tree<X>, ok: PageRule<X>)
    ensures AllPages(Plug(c, t), ok) <==> CtxAll(c, ok) && AllPages(t, ok)
    decreases c
  {
    if c.Frame? {
      PlugAll(c.up, Fill(c, t), ok);
      AllForestAppend(c.left + [t], c.right, ok);
      AllForestAppend(c.left, [t], ok);
      assert AllForest([t], ok) <==> AllPages(t, ok) by { assert [t][1..] == []; }
    }
  }

  lemma {:induction false} CtxFrame<X>(m: map<PageId, Page<X>>, m': map<PageId, Page<X>>, c: Ctx<X>, hole: PageId)
    requires CtxRep(m, c, hole) && Agree(m, m', CtxIds(c))
    ensures CtxRep(m', c, hole)
    decreases c
  {
    if c.Frame? {
      assert Same(m, m', c.id);
      AgreeSub(m, m', CtxIds(c), ForestIds(c.left));
      AgreeSub(m, m', CtxIds(c), ForestIds(c.right));
      AgreeSub(m, m', CtxIds(c), CtxIds(c.up));
      RepsFrame(m, m', c.left);
      RepsFrame(m, m', c.right);
      CtxFrame(m, m', c.up, c.id);
    }
  }

  // ---- Paths ----

  /** One step of a root-to-leaf path: the page, and the slot taken in it. */
  datatype Step = Step(page: PageId, slot: nat)

  /** The steps of `path` above the hole are exactly the frames of `c`. */
  ghost predicate Follows<X>(path: seq<Step>, c: Ctx<X>)
    decreases c
  {
    if c.Top? then path == []
    else |path| > 0 && path[|path| - 1] == Step(c.id, |c.left|) && Follows(path[..|path| - 1], c.up)
  }

  /** The hole is the root, or the rightmost child of its parent. */
  ghost predicate LastChild<X>(c: Ctx<X>) {
    c.Top? || |c.left| == |c.cells|
  }

  lemma {:induction false} FollowsDepth<X>(path: seq<Step>, c: Ctx<X>)
    requires Follows(path, c)
    ensures |path| == Depth(c)
    ensures c.Frame? ==> path[0].page == RootPage(c)
    decreases c
  {
    if c.Frame? { FollowsDepth(path[..|path| - 1], c.up); }
  }

  /** Stepping from a node into its i-th kid. */
  ghost function Enter<X>(c: Ctx<X>, t: Tree<X>, i: nat): Ctx<X>
    requires t.TNode? && i < |t.kids|
  {
    Frame(t.id, t.cells, t.kids[..i], t.kids[i + 1..], c)
  }

  lemma EnterPlug<X>(c: Ctx<X>, t: Tree<X>, i: nat, h: nat)
    requires t.TNode? && i < |t.kids| && Shape(t, h) && CtxShape(c, h)
    ensures h > 0 && Plug(Enter(c, t, i), t.kids[i]) == Plug(c, t)
    ensures CtxShape(Enter(c, t, i), h - 1) && Shape(t.kids[i], h - 1)
    ensures Depth(Enter(c, t, i)) == Depth(c) + 1
  {
    assert Fill(Enter(c, t, i), t.kids[i]) == t by {
      assert t.kids[..i] + [t.kids[i]] + t.kids[i + 1..] == t.kids;
    }
    FillShape(Enter(c, t, i), t.kids[i], h - 1);
  }
}
