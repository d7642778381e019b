/** Index keys and their order: NULL before numbers before text before blobs,
    numbers by value whatever their type, text and blobs byte by byte. A key is
    a row of such values, and only the columns both sides have are compared. */
module Keys {

  datatype Value =
    | Null
    | Int(i: int)
    | Real(r: real)
    | Text(utf8: seq<nat>)
    | Blob(bytes: seq<nat>)

  type Key = seq<Value>

  function Rank(v: Value): nat {
    match v
    case Null => 0
    case Int(_) => 1
    case Real(_) => 1
    case Text(_) => 2
    case Blob(_) => 3
  }

  function Number(v: Value): real
    requires v.Int? || v.Real?
  {
    if v.Int? then v.i as real else v.r
  }

  function CompareBytes(a: seq<nat>, b: seq<nat>): (c: int)
    ensures -1 <= c <= 1
  {
    if |a| == 0 && |b| == 0 then 0
    else if |a| == 0 then -1
    else if |b| == 0 then 1
    else if a[0] < b[0] then -1
    else if a[0] > b[0] then 1
    else CompareBytes(a[1..], b[1..])
  }

  function CompareValues(a: Value, b: Value): (c: int)
    ensures -1 <= c <= 1
  {
    if Rank(a) < Rank(b) then -1
    else if Rank(a) > Rank(b) then 1
    else match a
      case Null => 0
      case Int(_) => CompareNumbers(Number(a), Number(b))
      case Real(_) => CompareNumbers(Number(a), Number(b))
      case Text(s) => CompareBytes(s, b.utf8)
      case Blob(s) => CompareBytes(s, b.bytes)
  }

  function CompareNumbers(x: real, y: real): (c: int)
    ensures -1 <= c <= 1
  {
    if x < y then -1 else if x > y then 1 else 0
  }

  /** -1, 0 or 1; only the shared leading columns count. */
  function CompareKeys(a: Key, b: Key): (c: int)
    ensures -1 <= c <= 1
  {
    if |a| == 0 || |b| == 0 then 0
    else
      var c := CompareValues(a[0], b[0]);
      if c != 0 then c else CompareKeys(a[1..], b[1..])
  }

  // ---- What the order is ----

  /** Up to the i-th byte the two are the same; there `a` ends or is the smaller. */
  ghost predicate BytesPartAt(a: seq<nat>, b: seq<nat>, i: nat) {
    i <= |a| && i < |b| && a[..i] == b[..i] && (i == |a| || a[i] < b[i])
  }

  /** The first byte that differs decides; else the shorter comes first. */
  ghost predicate BytesPrecede(a: seq<nat>, b: seq<nat>) {
    exists i: nat :: BytesPartAt(a, b, i)
  }

  ghost predicate ValuePrecedes(a: Value, b: Value) {
    match a
    case Null => b != Null
    case Int(i) => b.Text? || b.Blob? || (b.Int? && i < b.i) || (b.Real? && i as real < b.r)
    case Real(r) => b.Text? || b.Blob? || (b.Int? && r < b.i as real) || (b.Real? && r < b.r)
    case Text(s) => b.Blob? || (b.Text? && BytesPrecede(s, b.utf8))
    case Blob(s) => b.Blob? && BytesPrecede(s, b.bytes)
  }

  /** Equal, or the same number in two types. */
  ghost predicate ValueMatches(a: Value, b: Value) {
    || a == b
    || (a.Int? && b.Real? && a.i as real == b.r)
    || (a.Real? && b.Int? && a.r == b.i as real)
  }

  ghost predicate KeysPartAt(a: Key, b: Key, i: nat) {
    i < |a| && i < |b| && ValuePrecedes(a[i], b[i]) && forall j :: 0 <= j < i ==> ValueMatches(a[j], b[j])
  }

  /** The first column that differs decides. */
  ghost predicate KeyPrecedes(a: Key, b: Key) {
    exists i: nat :: KeysPartAt(a, b, i)
  }

  /** All columns that both sides have are the same. */
  ghost predicate KeyMatches(a: Key, b: Key) {
    forall j :: 0 <= j < |a| && j < |b| ==> ValueMatches(a[j], b[j])
  }

  lemma {:induction false} BytesCompare(a: seq<nat>, b: seq<nat>)
    ensures CompareBytes(a, b) < 0 <==> BytesPrecede(a, b)
    ensures CompareBytes(a, b) == 0 <==> a == b
    decreases |a|
  {
    if |a| == 0 && |b| > 0 {
      assert BytesPartAt(a, b, 0);
    } else if |a| > 0 && |b| > 0 {
      BytesCompare(a[1..], b[1..]);
      assert a == [a[0]] + a[1..] && b == [b[0]] + b[1..];
      if a[0] < b[0] { assert BytesPartAt(a, b, 0); }
      if a[0] == b[0] { BytesPartLater(a, b); }
      forall i: nat | BytesPartAt(a, b, i) ensures a[0] <= b[0] { if i > 0 { assert a[..i][0] == b[..i][0]; } }
    }
  }

  lemma BytesPartLater(a: seq<nat>, b: seq<nat>)
    requires |a| > 0 && |b| > 0 && a[0] == b[0]
    ensures BytesPrecede(a, b) <==> BytesPrecede(a[1..], b[1..])
  {
    forall i: nat | BytesPartAt(a, b, i) ensures BytesPartAt(a[1..], b[1..], i - 1) {
      assert i > 0 && a[1..][..i - 1] == a[..i][1..] && b[1..][..i - 1] == b[..i][1..];
    }
    forall i: nat | BytesPartAt(a[1..], b[1..], i) ensures BytesPartAt(a, b, i + 1) {
      assert a[..i + 1] == [a[0]] + a[1..][..i] && b[..i + 1] == [b[0]] + b[1..][..i];
    }
  }

  lemma ValuesCompare(a: Value, b: Value)
    ensures CompareValues(a, b) < 0 <==> ValuePrecedes(a, b)
    ensures CompareValues(a, b) == 0 <==> ValueMatches(a, b)
  {
    if a.Text? && b.Text? { BytesCompare(a.utf8, b.utf8); }
    if a.Blob? && b.Blob? { BytesCompare(a.bytes, b.bytes); }
  }

  lemma {:induction false} KeysCompare(a: Key, b: Key)
    ensures CompareKeys(a, b) < 0 <==> KeyPrecedes(a, b)
    ensures CompareKeys(a, b) == 0 <==> KeyMatches(a, b)
    decreases |a|
  {
    if |a| > 0 && |b| > 0 {
      ValuesCompare(a[0], b[0]);
      KeysCompare(a[1..], b[1..]);
      if ValuePrecedes(a[0], b[0]) { assert KeysPartAt(a, b, 0); }
      if ValueMatches(a[0], b[0]) {
        KeysPartLater(a, b);
      } else {
        forall i: nat | KeysPartAt(a, b, i) ensures i == 0 {}
      }
    }
  }

  lemma KeysPartLater(a: Key, b: Key)
    requires |a| > 0 && |b| > 0 && ValueMatches(a[0], b[0]) && !ValuePrecedes(a[0], b[0])
    ensures KeyPrecedes(a, b) <==> KeyPrecedes(a[1..], b[1..])
    ensures KeyMatches(a, b) <==> KeyMatches(a[1..], b[1..])
  {
    forall i: nat | KeysPartAt(a, b, i) ensures KeysPartAt(a[1..], b[1..], i - 1) {
      assert i > 0;
      forall j | 0 <= j < i - 1 ensures ValueMatches(a[1..][j], b[1..][j]) { assert ValueMatches(a[j + 1], b[j + 1]); }
    }
    forall i: nat | KeysPartAt(a[1..], b[1..], i) ensures KeysPartAt(a, b, i + 1) {
      forall j | 0 <= j < i + 1 ensures ValueMatches(a[j], b[j]) { if j > 0 { assert ValueMatches(a[1..][j - 1], b[1..][j - 1]); } }
    }
    if KeyMatches(a[1..], b[1..]) {
      forall j | 0 <= j < |a| && j < |b| ensures ValueMatches(a[j], b[j]) { if j > 0 { assert ValueMatches(a[1..][j - 1], b[1..][j - 1]); } }
    }
  }

  // ---- That it is one ----

  lemma {:induction false} BytesOrder(a: seq<nat>, b: seq<nat>, c: seq<nat>)
    ensures CompareBytes(a, b) == -CompareBytes(b, a)
    ensures CompareBytes(a, b) <= 0 && CompareBytes(b, c) <= 0 ==>
              CompareBytes(a, c) <= 0 && (CompareBytes(a, c) == 0 <==> CompareBytes(a, b) == 0 && CompareBytes(b, c) == 0)
    decreases |a| + |b| + |c|
  {
    if |a| > 0 && |b| > 0 && |c| > 0 {
      BytesOrder(a[1..], b[1..], c[1..]);
    } else if |a| > 0 && |b| > 0 {
      BytesOrder(a[1..], b[1..], c);
    }
  }

  /** Values are totally ordered, up to the equality that makes 1 and 1.0 equal. */
  lemma ValuesOrder(a: Value, b: Value, c: Value)
    ensures CompareValues(a, b) == -CompareValues(b, a)
    ensures CompareValues(a, b) <= 0 && CompareValues(b, c) <= 0 ==>
              CompareValues(a, c) <= 0 && (CompareValues(a, c) == 0 <==> CompareValues(a, b) == 0 && CompareValues(b, c) == 0)
  {
    if a.Text? && b.Text? { BytesOrder(a.utf8, b.utf8, if c.Text? then c.utf8 else []); }
    if a.Blob? && b.Blob? { BytesOrder(a.bytes, b.bytes, if c.Blob? then c.bytes else []); }
  }

  lemma {:induction false} KeysAntisymmetric(a: Key, b: Key)
    ensures CompareKeys(a, b) == -CompareKeys(b, a)
    decreases |a|
  {
    if |a| > 0 && |b| > 0 {
      ValuesOrder(a[0], b[0], a[0]);
      KeysAntisymmetric(a[1..], b[1..]);
    }
  }

  /** A probe of any length sees keys of one arity in their order: once it is not
      past a key, it is not past any later key. */
  lemma {:induction false} ProbeMonotone(p: Key, x: Key, y: Key)
    requires |x| == |y| && CompareKeys(x, y) <= 0 && CompareKeys(p, y) > 0
    ensures CompareKeys(p, x) > 0
    decreases |x|
  {
    if |x| > 0 {
      ValuesOrder(x[0], y[0], p[0]);
      ValuesOrder(y[0], p[0], x[0]);
      ValuesOrder(p[0], y[0], x[0]);
      ValuesOrder(p[0], x[0], y[0]);
      ValuesOrder(x[0], p[0], y[0]);
      if CompareValues(x[0], y[0]) == 0 && CompareValues(p[0], y[0]) == 0 {
        ProbeMonotone(p[1..], x[1..], y[1..]);
      }
    }
  }

  /** And once it is before a key, it is before every later key. */
  lemma {:induction false} ProbeStaysBefore(p: Key, x: Key, y: Key)
    requires |x| == |y| && CompareKeys(x, y) <= 0 && CompareKeys(p, x) < 0
    ensures CompareKeys(p, y) < 0
    decreases |x|
  {
    if |x| > 0 {
      ValuesOrder(p[0], x[0], y[0]);
      ValuesOrder(x[0], y[0], p[0]);
      if CompareValues(p[0], x[0]) == 0 && CompareValues(x[0], y[0]) == 0 {
        ProbeStaysBefore(p[1..], x[1..], y[1..]);
      }
    }
  }

  lemma KeysTransitive(a: Key, b: Key, c: Key)
    requires |a| == |b| && CompareKeys(a, b) <= 0 && CompareKeys(b, c) < 0
    ensures CompareKeys(a, c) < 0
  {
    KeysAntisymmetric(b, c);
    ProbeMonotone(c, a, b);
    KeysAntisymmetric(c, a);
  }
}
