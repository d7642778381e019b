/** What the page operations on a table do to its sequence of rows and fences,
    and so to the table as a map. */
module TableOrder {
  import opened Basics
  import opened TreeCells
  import opened Trees
  import opened Store
  import opened Cascade
  import opened Descent
  import opened TableTree
  import opened TableInsert

  /** What comes right after a leaf is a fence. */
  lemma {:induction false} FenceFollows(c: Ctx<Item>, h: nat)
    requires CtxShape(c, h) && CtxAll(c, Rule) && |FlatRight(c)| > 0
    ensures FlatRight(c)[0].Fence?
    decreases c
  {
    if |c.right| == 0 {
      assert c.cells[|c.left|..] == [];
      FenceFollows(c.up, h + 1);
    } else {
      assert GoodFence(c.cells[|c.left|]);
      assert c.cells[|c.left|..][0] == c.cells[|c.left|];
    }
  }

  ghost predicate LowerSlot(leaf: Tree<Item>, c: Ctx<Item>, slot: nat, rowid: int) {
    && leaf.TLeaf? && slot <= |leaf.cells| && Straddles(c, Below(rowid))
    && AllBelow(leaf.cells[..slot], Below(rowid)) && NoneBelow(leaf.cells[slot..], Below(rowid))
  }

  ghost predicate Taken(leaf: Tree<Item>, slot: nat, rowid: int) {
    leaf.TLeaf? && slot < |leaf.cells| && leaf.cells[slot].Row? && leaf.cells[slot].rowid == rowid
  }

  /** The rows before and after a place in a leaf. */
  ghost function Ahead(c: Ctx<Item>, leaf: Tree<Item>, slot: nat): seq<Item>
    requires leaf.TLeaf? && slot <= |leaf.cells|
  {
    FlatLeft(c) + leaf.cells[..slot]
  }

  ghost function Behind(c: Ctx<Item>, leaf: Tree<Item>, slot: nat): seq<Item>
    requires leaf.TLeaf? && slot <= |leaf.cells|
  {
    leaf.cells[slot..] + FlatRight(c)
  }

  lemma AroundSlot(c: Ctx<Item>, leaf: Tree<Item>, slot: nat, t: Tree<Item>, x: Item)
    requires leaf.TLeaf? && slot <= |leaf.cells| && CtxShape(c, 0) && Plug(c, leaf) == t
    ensures Flat(t) == Ahead(c, leaf, slot) + Behind(c, leaf, slot)
    ensures FlatLeft(c) + WithCell(leaf, slot, x) + FlatRight(c) == Ahead(c, leaf, slot) + [x] + Behind(c, leaf, slot)
  {
    PlugFlat(c, leaf, 0);
    Insertion(FlatLeft(c), leaf.cells, slot, x, FlatRight(c));
  }

  lemma Removal(l: seq<Item>, m: seq<Item>, slot: nat, r: seq<Item>)
    requires slot < |m|
    ensures l + m + r == (l + m[..slot]) + [m[slot]] + (m[slot + 1..] + r)
    ensures l + (m[..slot] + m[slot + 1..]) + r == (l + m[..slot]) + (m[slot + 1..] + r)
  {
    assert m == m[..slot] + [m[slot]] + m[slot + 1..];
  }

  lemma Insertion(l: seq<Item>, m: seq<Item>, slot: nat, x: Item, r: seq<Item>)
    requires slot <= |m|
    ensures l + m + r == (l + m[..slot]) + (m[slot..] + r)
    ensures l + (m[..slot] + [x] + m[slot..]) + r == (l + m[..slot]) + [x] + (m[slot..] + r)
  {
    assert m == m[..slot] + m[slot..];
  }

  /** The rowid is in the table exactly when it is at its lower bound. */
  lemma TakenIffPresent(c: Ctx<Item>, leaf: Tree<Item>, slot: nat, rowid: int, t: Tree<Item>)
    requires LowerSlot(leaf, c, slot, rowid) && CtxShape(c, 0) && CtxAll(c, Rule) && Plug(c, leaf) == t
    requires LeafFits(leaf.cells) && Sorted(Flat(t))
    ensures Taken(leaf, slot, rowid) <==> rowid in Table(Flat(t))
    ensures !Taken(leaf, slot, rowid) && |Behind(c, leaf, slot)| > 0 ==> 2 * rowid < Rank(Behind(c, leaf, slot)[0])
    ensures |Ahead(c, leaf, slot)| > 0 ==> Rank(Ahead(c, leaf, slot)[|Ahead(c, leaf, slot)| - 1]) < 2 * rowid
  {
    var a, b := Ahead(c, leaf, slot), Behind(c, leaf, slot);
    AroundSlot(c, leaf, slot, t, Fence(0));
    BelowBoth(FlatLeft(c), leaf.cells[..slot], rowid);
    if Taken(leaf, slot, rowid) {
      assert b[0] == leaf.cells[slot];
      HasFirst(a, b, rowid);
    } else {
      NothingAt(c, leaf, slot, rowid);
      HasNot(a, b, rowid);
    }
  }

  lemma BelowBoth(a: seq<Item>, b: seq<Item>, rowid: int)
    requires AllBelow(a, Below(rowid)) && AllBelow(b, Below(rowid))
    ensures AllBelow(a + b, Below(rowid))
  {
    forall i | 0 <= i < |a + b| ensures Below(rowid)((a + b)[i]) {
      assert Below(rowid)(if i < |a| then a[i] else b[i - |a|]);
    }
  }

  lemma HasFirst(a: seq<Item>, b: seq<Item>, rowid: int)
    requires |b| > 0 && b[0].Row? && b[0].rowid == rowid
    ensures rowid in Table(a + b)
  {
    TableHas(a + b, rowid);
    assert (a + b)[|a|] == b[0];
  }

  lemma HasNot(a: seq<Item>, b: seq<Item>, rowid: int)
    requires Sorted(a + b) && AllBelow(a, Below(rowid)) && (|b| > 0 ==> 2 * rowid < Rank(b[0]))
    ensures rowid !in Table(a + b)
  {
    SortedTail(a, b);
    TableHas(a + b, rowid);
    forall i | 0 <= i < |a + b| ensures Rank((a + b)[i]) != 2 * rowid {
      if i >= |a| { assert (a + b)[i] == b[i - |a|]; } else { assert Below(rowid)(a[i]); }
    }
  }

  lemma SortedTail(a: seq<Item>, b: seq<Item>)
    requires Sorted(a + b)
    ensures forall i :: 0 <= i < |b| ==> Rank(b[0]) <= Rank(b[i])
  {
    forall i | 0 <= i < |b| ensures Rank(b[0]) <= Rank(b[i]) {
      assert Ascends(a + b, |a|, |a| + i) && (a + b)[|a|] == b[0] && (a + b)[|a| + i] == b[i];
    }
  }

  lemma NothingAt(c: Ctx<Item>, leaf: Tree<Item>, slot: nat, rowid: int)
    requires LowerSlot(leaf, c, slot, rowid) && CtxShape(c, 0) && CtxAll(c, Rule) && LeafFits(leaf.cells) && !Taken(leaf, slot, rowid)
    ensures |Behind(c, leaf, slot)| > 0 ==> 2 * rowid < Rank(Behind(c, leaf, slot)[0])
  {
    if slot < |leaf.cells| {
      assert GoodRow(leaf.cells[slot]);
      assert !Below(rowid)(leaf.cells[slot..][0]);
    } else if |FlatRight(c)| > 0 {
      FenceFollows(c, 0);
      assert !Below(rowid)(FlatRight(c)[0]);
    }
  }

  /** A new row in its place, and perhaps a fence after one of its neighbours. */
  lemma GrownSequence(m: map<PageId, Page<Item>>, c: Ctx<Item>, leaf: Tree<Item>, slot: nat, x: Item, t: Tree<Item>, cut: nat,
                      flat: seq<Item>)
    requires x.Row? && LowerSlot(leaf, c, slot, x.rowid) && CtxShape(c, 0) && CtxAll(c, Rule) && Plug(c, leaf) == t
    requires LeafFits(leaf.cells) && Sorted(Flat(t)) && GoodRow(x) && !Taken(leaf, slot, x.rowid)
    requires cut < |WithCell(leaf, slot, x)| && AllGood(WithCell(leaf, slot, x), GoodRow)
    requires WithCell(leaf, slot, x)[if cut == 0 then 0 else cut - 1].Row?
    requires flat == FlatLeft(c) + Fenced(WithCell(leaf, slot, x), cut) + FlatRight(c)
    ensures Sorted(flat) && x.rowid !in Table(Flat(t)) && Table(flat) == Table(Flat(t))[x.rowid := x.payload]
    ensures ChainIds(flat) == ChainIds(Flat(t)) + Tally(x.chain)
    ensures ChainsLinked(m, flat) <==> ChainsLinked(m, Flat(t)) && OverflowLinks(m, x.chain)
  {
    var a, b := Ahead(c, leaf, slot), Behind(c, leaf, slot);
    AroundSlot(c, leaf, slot, t, x);
    TakenIffPresent(c, leaf, slot, x.rowid, t);
    SortedInsert(a, x, b);
    TableAround(a, x, b);
    ChainInsert(m, a, x, b);
    if cut > 0 { FenceAdded(m, FlatLeft(c), WithCell(leaf, slot, x), cut, FlatRight(c)); }
  }

  lemma CutApart(l: seq<Item>, w: seq<Item>, cut: nat, f: Item, r: seq<Item>)
    requires 1 <= cut < |w| && w[cut - 1].Row? && f == Fence(w[cut - 1].rowid)
    ensures l + w + r == (l + w[..cut]) + (w[cut..] + r)
    ensures l + Fenced(w, cut) + r == (l + w[..cut]) + [f] + (w[cut..] + r)
  {
    assert w == w[..cut] + w[cut..];
  }

  lemma FenceAdded(m: map<PageId, Page<Item>>, l: seq<Item>, w: seq<Item>, cut: nat, r: seq<Item>)
    requires 1 <= cut < |w| && AllGood(w, GoodRow) && w[cut - 1].Row? && Sorted(l + w + r)
    ensures Sorted(l + Fenced(w, cut) + r) && Table(l + Fenced(w, cut) + r) == Table(l + w + r)
    ensures ChainIds(l + Fenced(w, cut) + r) == ChainIds(l + w + r)
    ensures ChainsLinked(m, l + Fenced(w, cut) + r) <==> ChainsLinked(m, l + w + r)
  {
    var f := Fence(w[cut - 1].rowid);
    var p, q := l + w[..cut], w[cut..] + r;
    CutApart(l, w, cut, f, r);
    hide Fenced;
    assert GoodRow(w[cut]);
    assert Ascends(p + q, |p| - 1, |p|) && p[|p| - 1] == w[cut - 1] && q[0] == w[cut];
    SortedInsert(p, f, q);
    FenceIsNoEntry(p, f, q);
    ChainInsert(m, p, f, q);
  }

  /** A row taken out of its leaf. */
  lemma ShrunkSequence(m: map<PageId, Page<Item>>, c: Ctx<Item>, leaf: Tree<Item>, slot: nat, t: Tree<Item>)
    requires leaf.TLeaf? && slot < |leaf.cells| && leaf.cells[slot].Row? && CtxShape(c, 0) && Plug(c, leaf) == t && Sorted(Flat(t))
    ensures
      var x, flat := leaf.cells[slot], FlatLeft(c) + (leaf.cells[..slot] + leaf.cells[slot + 1..]) + FlatRight(c);
      && Sorted(flat) && x.rowid in Table(Flat(t)) && Table(flat) == Table(Flat(t)) - {x.rowid}
      && ChainIds(Flat(t)) == ChainIds(flat) + Tally(x.chain)
      && (ChainsLinked(m, Flat(t)) <==> ChainsLinked(m, flat) && OverflowLinks(m, x.chain))
  {
    var x := leaf.cells[slot];
    var a, b := FlatLeft(c) + leaf.cells[..slot], leaf.cells[slot + 1..] + FlatRight(c);
    PlugFlat(c, leaf, 0);
    Removal(FlatLeft(c), leaf.cells, slot, FlatRight(c));
    SortedRemove(a, x, b);
    TableAround(a, x, b);
    ChainInsert(m, a, x, b);
  }

  /** A fence that went with the child before or after it. */
  lemma FenceDropped(m: map<PageId, Page<Item>>, a: seq<Item>, f: Item, b: seq<Item>)
    requires Sorted(a + [f] + b) && f.Fence?
    ensures Sorted(a + b) && Table(a + b) == Table(a + [f] + b) && ChainIds(a + b) == ChainIds(a + [f] + b)
    ensures ChainsLinked(m, a + b) <==> ChainsLinked(m, a + [f] + b)
  {
    SortedRemove(a, f, b);
    FenceIsNoEntry(a, f, b);
    ChainInsert(m, a, f, b);
  }
}
