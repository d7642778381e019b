/** Which entries a probe or a pair of bounds selects. */
module IndexSeek {
  import opened Basics
  import opened TreeCells
  import opened Trees
  import opened Store
  import opened Descent
  import opened Keys
  import opened IndexTree
  import opened IndexDelete
  import opened Scan

  ghost function Select(s: seq<Entry>, keep: Entry -> bool): seq<Entry> {
    if |s| == 0 then []
    else if keep(s[0]) then [s[0]] + Select(s[1..], keep) else Select(s[1..], keep)
  }

  /** The last column of a stored key is its rowid. */
  function RowidOf(e: Entry): Value {
    if |e.key| == 0 then Null else e.key[|e.key| - 1]
  }

  ghost function Rowids(s: seq<Entry>): (r: seq<Value>)
    ensures |r| == |s|
  {
    seq(|s|, i requires 0 <= i < |s| => RowidOf(s[i]))
  }

  lemma {:induction false} SelectAppend(a: seq<Entry>, b: seq<Entry>, keep: Entry -> bool)
    ensures Select(a + b, keep) == Select(a, keep) + Select(b, keep)
    decreases |a|
  {
    if |a| == 0 {
      assert a + b == b;
    } else {
      assert (a + b)[1..] == a[1..] + b;
      SelectAppend(a[1..], b, keep);
    }
  }

  lemma {:induction false} SelectNone(s: seq<Entry>, keep: Entry -> bool)
    requires forall i :: 0 <= i < |s| ==> !keep(s[i])
    ensures Select(s, keep) == []
    decreases |s|
  {
    if |s| > 0 {
      assert !keep(s[0]);
      SelectNone(s[1..], keep);
    }
  }

  lemma SelectNext(s: seq<Entry>, i: nat, keep: Entry -> bool)
    requires i < |s|
    ensures Select(s[..i + 1], keep) == Select(s[..i], keep) + (if keep(s[i]) then [s[i]] else [])
  {
    assert s[..i + 1] == s[..i] + [s[i]] && [s[i]][1..] == [];
    SelectAppend(s[..i], [s[i]], keep);
  }

  lemma SelectedRowids(s: seq<Entry>, i: nat, keep: Entry -> bool)
    requires i < |s|
    ensures Rowids(Select(s[..i + 1], keep)) == Rowids(Select(s[..i], keep)) + (if keep(s[i]) then [RowidOf(s[i])] else [])
  {
    SelectNext(s, i, keep);
  }

  /** What a selection means: the kept entries, each once, in their order. */
  lemma {:induction false} SelectMeans(s: seq<Entry>, keep: Entry -> bool, e: Entry)
    ensures multiset(Select(s, keep))[e] == if keep(e) then multiset(s)[e] else 0
    decreases |s|
  {
    if |s| > 0 {
      assert s == [s[0]] + s[1..];
      SelectMeans(s[1..], keep, e);
    }
  }

  /** The answers are, in order, the last columns of the keys at these places. */
  ghost predicate Answers(rowids: seq<Value>, at: seq<nat>, s: seq<Entry>) {
    && |rowids| == |at| && (forall i, j :: 0 <= i < j < |at| ==> at[i] < at[j])
    && forall i :: 0 <= i < |at| ==> at[i] < |s| && (|s[at[i]].key| > 0 ==> rowids[i] == s[at[i]].key[|s[at[i]].key| - 1])
  }

  lemma {:induction false} SelectPlaces(s: seq<Entry>, keep: Entry -> bool) returns (at: seq<nat>)
    ensures |at| == |Select(s, keep)| && forall i, j :: 0 <= i < j < |at| ==> at[i] < at[j]
    ensures forall i :: 0 <= i < |at| ==> at[i] < |s| && Select(s, keep)[i] == s[at[i]]
    ensures forall p :: p in at <==> 0 <= p < |s| && keep(s[p])
    decreases |s|
  {
    at := [];
    if |s| > 0 {
      var n, last := |s| - 1, s[|s| - 1];
      at := SelectPlaces(s[..n], keep);
      assert s[..n + 1] == s;
      SelectNext(s, n, keep);
      if keep(last) { at := at + [n]; }
    }
  }

  function Matches(probe: Key): Entry -> bool {
    (e: Entry) => CompareKeys(probe, e.key) == 0
  }

  function AboveLow(low: Option<Key>, inclusive: bool, e: Entry): bool {
    low.None? || CompareKeys(low.value, e.key) < 0 || (inclusive && CompareKeys(low.value, e.key) == 0)
  }

  function BelowHigh(high: Option<Key>, inclusive: bool, e: Entry): bool {
    high.None? || CompareKeys(high.value, e.key) > 0 || (inclusive && CompareKeys(high.value, e.key) == 0)
  }

  function InRange(low: Option<Key>, high: Option<Key>, lowInclusive: bool, highInclusive: bool): Entry -> bool {
    (e: Entry) => AboveLow(low, lowInclusive, e) && BelowHigh(high, highInclusive, e)
  }

  /** A key between the bounds. */
  ghost predicate Within(low: Option<Key>, high: Option<Key>, lowInclusive: bool, highInclusive: bool, key: Key) {
    && (low.None? || KeyPrecedes(low.value, key) || (lowInclusive && KeyMatches(low.value, key)))
    && (high.None? || KeyPrecedes(key, high.value) || (highInclusive && KeyMatches(key, high.value)))
  }

  /** What an equality search finds: exactly the keys that match, in order. */
  lemma MatchPlaces(s: seq<Entry>, probe: Key) returns (at: seq<nat>)
    ensures Answers(Rowids(Select(s, Matches(probe))), at, s)
    ensures forall p :: p in at <==> 0 <= p < |s| && KeyMatches(probe, s[p].key)
  {
    at := SelectPlaces(s, Matches(probe));
    forall p | 0 <= p < |s| ensures Matches(probe)(s[p]) <==> KeyMatches(probe, s[p].key) { KeysCompare(probe, s[p].key); }
  }

  /** What a range search finds: exactly the keys between the bounds, in order. */
  lemma RangePlaces(s: seq<Entry>, low: Option<Key>, high: Option<Key>, lowInclusive: bool, highInclusive: bool) returns (at: seq<nat>)
    ensures Answers(Rowids(Select(s, InRange(low, high, lowInclusive, highInclusive))), at, s)
    ensures forall p :: p in at <==> 0 <= p < |s| && Within(low, high, lowInclusive, highInclusive, s[p].key)
  {
    at := SelectPlaces(s, InRange(low, high, lowInclusive, highInclusive));
    forall p | 0 <= p < |s|
      ensures InRange(low, high, lowInclusive, highInclusive)(s[p]) <==> Within(low, high, lowInclusive, highInclusive, s[p].key) {
      if low.Some? { KeysCompare(low.value, s[p].key); }
      if high.Some? {
        KeysAntisymmetric(high.value, s[p].key);
        KeysCompare(s[p].key, high.value);
      }
    }
  }

  /** Past the first entry that a prefix probe is before, nothing matches it. */
  lemma NoMoreMatches(s: seq<Entry>, n: nat, k: nat, i: nat, probe: Key)
    requires Sorted(s) && SameArity(s, n) && k <= i < |s| && NoneBelow(s[k..], Below(probe)) && !Matches(probe)(s[i])
    ensures forall j :: i <= j < |s| ==> !Matches(probe)(s[j])
  {
    assert !Below(probe)(s[k..][i - k]);
    forall j | i <= j < |s| ensures !Matches(probe)(s[j]) {
      if i < j {
        assert Ascends(s, i, j) && HasArity(s, n, i) && HasArity(s, n, j);
        ProbeStaysBefore(probe, s[i].key, s[j].key);
      }
    }
  }

  /** Past the first entry above the upper bound, everything is above it. */
  lemma NoMoreInRange(s: seq<Entry>, n: nat, i: nat, high: Option<Key>, inclusive: bool)
    requires Sorted(s) && SameArity(s, n) && i < |s| && !BelowHigh(high, inclusive, s[i])
    ensures forall j :: i <= j < |s| ==> !BelowHigh(high, inclusive, s[j])
  {
    forall j | i <= j < |s| ensures !BelowHigh(high, inclusive, s[j]) {
      if i < j {
        assert Ascends(s, i, j) && HasArity(s, n, i) && HasArity(s, n, j);
        if CompareKeys(high.value, s[i].key) < 0 {
          ProbeStaysBefore(high.value, s[i].key, s[j].key);
        } else {
          if CompareKeys(high.value, s[j].key) > 0 { ProbeMonotone(high.value, s[i].key, s[j].key); }
        }
      }
    }
  }

  /** A scan that skips the first k entries and stops before the i-th has seen
      everything there was to select. */
  lemma WindowIsAll(s: seq<Entry>, k: nat, i: nat, keep: Entry -> bool)
    requires k <= i <= |s|
    requires forall j :: 0 <= j < k ==> !keep(s[j])
    requires forall j :: i <= j < |s| ==> !keep(s[j])
    ensures Select(s, keep) == Select(s[k..][..i - k], keep)
  {
    assert s == s[..k] + (s[k..][..i - k] + s[i..]);
    SelectAppend(s[..k], s[k..][..i - k] + s[i..], keep);
    SelectAppend(s[k..][..i - k], s[i..], keep);
    SelectNone(s[..k], keep);
    SelectNone(s[i..], keep);
  }

  /** The entries from the lower bound of a probe on. */
  method From(s: PageStore<Entry>, root: PageId, probe: Key, ghost whole: Tree<Entry>, ghost height: nat, ghost n: nat)
    returns (stored: seq<Entry>, ghost k: nat)
    requires Rep(s.pages, whole) && Shape(whole, height) && whole.id == root && Sorted(Flat(whole)) && SameArity(Flat(whole), n)
    ensures k <= |Flat(whole)| && stored == Flat(whole)[k..]
    ensures AllBelow(Flat(whole)[..k], Below(probe)) && NoneBelow(Flat(whole)[k..], Below(probe))
  {
    ProbeIsMonotone(Flat(whole), n, probe);
    var path, page, slot;
    ghost var c, leaf;
    path, page, slot, c, leaf := FindLeaf(s, root, Below(probe), whole, height);
    stored := ScanForward(s, path, page, slot, whole, c, leaf);
    PlugFlat(c, leaf, 0);
    k := |FlatLeft(c)| + slot;
    assert Flat(whole)[..k] == FlatLeft(c) + leaf.cells[..slot];
    assert Flat(whole)[k..] == leaf.cells[slot..] + FlatRight(c);
  }

  /** The rowids whose leading columns equal the probe. */
  method SeekEq(s: PageStore<Entry>, root: PageId, probe: Key, ghost whole: Tree<Entry>, ghost height: nat, ghost n: nat)
    returns (rowids: seq<Value>)
    requires Rep(s.pages, whole) && Shape(whole, height) && whole.id == root && Sorted(Flat(whole)) && SameArity(Flat(whole), n)
    ensures rowids == Rowids(Select(Flat(whole), Matches(probe)))
  {
    var stored;
    ghost var k;
    stored, k := From(s, root, probe, whole, height, n);
    ghost var all := Flat(whole);
    rowids := [];
    var i := 0;
    while i < |stored| && CompareKeys(probe, stored[i].key) == 0
      invariant 0 <= i <= |stored|
      invariant rowids == Rowids(Select(stored[..i], Matches(probe)))
    {
      SelectedRowids(stored, i, Matches(probe));
      rowids := rowids + [RowidOf(stored[i])];
      i := i + 1;
    }
    if i < |stored| { NoMoreMatches(all, n, k, k + i, probe); }
    forall j | 0 <= j < k ensures !Matches(probe)(all[j]) { assert Below(probe)(all[..k][j]); }
    WindowIsAll(all, k, k + i, Matches(probe));
  }

  /** The rowids within the bounds, in key order. */
  method SeekRange(s: PageStore<Entry>, root: PageId, low: Option<Key>, high: Option<Key>, lowInclusive: bool, highInclusive: bool,
      ghost whole: Tree<Entry>, ghost height: nat, ghost n: nat)
    returns (rowids: seq<Value>)
    requires Rep(s.pages, whole) && Shape(whole, height) && whole.id == root && Sorted(Flat(whole)) && SameArity(Flat(whole), n)
    ensures rowids == Rowids(Select(Flat(whole), InRange(low, high, lowInclusive, highInclusive)))
  {
    var stored;
    ghost var k := 0;
    ghost var all, keep := Flat(whole), InRange(low, high, lowInclusive, highInclusive);
    if low.Some? {
      stored, k := From(s, root, low.value, whole, height, n);
    } else {
      stored := ScanAll(s, root, whole, height);
    }
    if low.Some? {
      forall j | 0 <= j < |stored| ensures CompareKeys(low.value, stored[j].key) <= 0 { assert !Below(low.value)(all[k..][j]); }
    }
    var i;
    rowids, i := TakeWhile(stored, low, high, lowInclusive, highInclusive);
    if i < |stored| {
      assert stored[i] == all[k + i];
      NoMoreInRange(all, n, k + i, high, highInclusive);
    }
    forall j | 0 <= j < k ensures !keep(all[j]) { assert Below(low.value)(all[..k][j]); }
    WindowIsAll(all, k, k + i, keep);
  }

  /** Of entries none of which is below the lower bound: the rowids of those above
      it, up to the first that is above the upper bound. */
  method TakeWhile(stored: seq<Entry>, low: Option<Key>, high: Option<Key>, lowInclusive: bool, highInclusive: bool)
    returns (rowids: seq<Value>, i: nat)
    requires low.Some? ==> forall j :: 0 <= j < |stored| ==> CompareKeys(low.value, stored[j].key) <= 0
    ensures i <= |stored| && rowids == Rowids(Select(stored[..i], InRange(low, high, lowInclusive, highInclusive)))
    ensures i < |stored| ==> !BelowHigh(high, highInclusive, stored[i])
  {
    ghost var keep := InRange(low, high, lowInclusive, highInclusive);
    rowids, i := [], 0;
    while i < |stored|
      invariant 0 <= i <= |stored| && rowids == Rowids(Select(stored[..i], keep))
    {
      SelectedRowids(stored, i, keep);
      if low.Some? && !lowInclusive && CompareKeys(low.value, stored[i].key) == 0 {
        i := i + 1;
        continue;
      }
      if high.Some? {
        var c := CompareKeys(high.value, stored[i].key);
        if c < 0 || (c == 0 && !highInclusive) {
          break;
        }
      }
      rowids := rowids + [RowidOf(stored[i])];
      i := i + 1;
    }
  }

  lemma FirstMatch(s: seq<Entry>, probe: Key) returns (p: nat)
    ensures
      var rowids := Rowids(Select(s, Matches(probe)));
      && (rowids == [] <==> NoneAt(s, probe))
      && (rowids != [] ==> FirstAt(s, probe, p) && (|s[p].key| > 0 ==> rowids[0] == s[p].key[|s[p].key| - 1]))
  {
    var at := MatchPlaces(s, probe);
    p := if |at| > 0 then at[0] else 0;
    forall q | 0 <= q < |s| && KeyMatches(probe, s[q].key) ensures |at| > 0 && p <= q { assert q in at; }
    assert |at| > 0 ==> at[0] in at;
  }

  ghost predicate NoneAt(s: seq<Entry>, probe: Key) {
    forall q :: 0 <= q < |s| ==> !KeyMatches(probe, s[q].key)
  }

  /** The first entry that matches. */
  ghost predicate FirstAt(s: seq<Entry>, probe: Key, p: nat) {
    p < |s| && KeyMatches(probe, s[p].key) && forall q :: 0 <= q < p ==> !KeyMatches(probe, s[q].key)
  }

  /** For a UNIQUE index: the rowid of the first entry with these values. A NULL
      among them never conflicts. */
  method FindConflict(s: PageStore<Entry>, root: PageId, values: Key, ghost whole: Tree<Entry>, ghost height: nat, ghost n: nat)
    returns (r: Option<Value>, ghost p: nat)
    requires Rep(s.pages, whole) && Shape(whole, height) && whole.id == root && Sorted(Flat(whole)) && SameArity(Flat(whole), n)
    ensures r.None? <==> Null in values || NoneAt(Flat(whole), values)
    ensures r.Some? ==> FirstAt(Flat(whole), values, p)
    ensures r.Some? && |Flat(whole)[p].key| > 0 ==> r.value == Flat(whole)[p].key[|Flat(whole)[p].key| - 1]
  {
    if Null in values {
      return None, 0;
    }
    var rowids := SeekEq(s, root, values, whole, height, n);
    p := FirstMatch(Flat(whole), values);
    r := if |rowids| == 0 then None else Some(rowids[0]);
  }
}
