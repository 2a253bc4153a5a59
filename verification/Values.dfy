/**
  The values the client puts on the wire and takes off it.

  `Value` is a JSON document: what a Go `any` becomes once encoded.  An `int64` and a
  `float64` that print as the same integer are the same JSON number (`Number`); a numeral
  with a fraction or an exponent is kept as its text (`Decimal`).
*/
module Values {

  datatype Option<+T> = None | Some(value: T)

  type int64 = i: int | -0x8000_0000_0000_0000 <= i < 0x8000_0000_0000_0000

  type byte = b: int | 0 <= b < 256

  datatype Value =
    | Null
    | Bool(b: bool)
    | Number(n: int)
    | Decimal(numeral: string)
    | Text(s: string)
    | Array(elems: seq<Value>)
    | Object(fields: map<string, Value>)

  /** A decoded JSON object: Go's `map[string]any`. */
  type Row = map<string, Value>

  /** `order` visits every key of `m` exactly once, as a Go `range` over a map does. */
  ghost predicate IsIteration<K, V>(order: seq<K>, m: map<K, V>) {
    && (forall i, j | 0 <= i < j < |order| :: order[i] != order[j])
    && (forall k | k in order :: k in m)
    && (forall k | k in m :: k in order)
  }

  /** Some iteration order exists, and one can be chosen to end in any given key. */
  lemma {:induction false} IterationExists<K, V>(m: map<K, V>) returns (order: seq<K>)
    ensures IsIteration(order, m)
    decreases |m|
  {
    if m == map[] {
      order := [];
    } else {
      var k :| k in m;
      order := IterationEndingIn(m, k);
    }
  }

  lemma {:induction false} IterationEndingIn<K, V>(m: map<K, V>, k: K) returns (order: seq<K>)
    requires k in m
    ensures IsIteration(order, m) && order != [] && order[|order| - 1] == k
    decreases |m|, 0
  {
    var rest := m - {k};
    assert rest.Keys == m.Keys - {k};
    assert |rest.Keys| == |m.Keys| - 1;
    var front := IterationExists(rest);
    order := front + [k];
  }

  lemma {:induction false} IterationLength<K, V>(order: seq<K>, m: map<K, V>)
    requires IsIteration(order, m)
    ensures |order| == |m|
    decreases |order|
  {
    if order == [] {
      assert m.Keys == {};
    } else {
      var last := order[|order| - 1];
      var rest := m - {last};
      assert rest.Keys == m.Keys - {last};
      assert forall k :: k in order[..|order| - 1] <==> k in rest;
      IterationLength(order[..|order| - 1], rest);
    }
  }

  /** The places of a sequence where `p` holds. */
  ghost function Places<T>(s: seq<T>, p: T -> bool): set<int> {
    set i | 0 <= i < |s| && p(s[i])
  }

  lemma PlacesSnoc<T>(s: seq<T>, x: T, p: T -> bool)
    ensures |Places(s + [x], p)| == |Places(s, p)| + if p(x) then 1 else 0
  {
    assert Places(s + [x], p) == Places(s, p) + if p(x) then {|s|} else {};
  }

  lemma SomeIteration<K, V>(m: map<K, V>)
    ensures exists order: seq<K> :: IsIteration(order, m)
  {
    var order := IterationExists(m);
  }
}
