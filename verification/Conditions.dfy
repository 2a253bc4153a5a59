/**
  `normalizeCondition`: friendly parameter names become the daemon's own.

  Like every Go loop over a map this one runs in an arbitrary order.  The theorems say when
  that order can be seen in the result.
*/
module Conditions {
  import opened Values

  const ALIASES: map<string, string> := map[
    "column" := "column_id",
    "min" := "lo",
    "max" := "hi",
    "min_inclusive" := "lo_inclusive",
    "max_inclusive" := "hi_inclusive"]

  /** The aliases that apply to a condition type. */
  function AliasesFor(condType: string): map<string, string> {
    if condType == "fm_contains" || condType == "fm_contains_all" then ALIASES["value" := "pattern"] else ALIASES
  }

  function Canonical(condType: string, key: string): string {
    var aliases := AliasesFor(condType);
    if key in aliases then aliases[key] else key
  }

  /** The documented table of aliases: `value` is one for the full-text conditions only, and any
      other name stands for itself. */
  lemma DocumentedAliases(condType: string, key: string)
    ensures Canonical(condType, key) ==
            match key
            case "column" => "column_id"
            case "min" => "lo"
            case "max" => "hi"
            case "min_inclusive" => "lo_inclusive"
            case "max_inclusive" => "hi_inclusive"
            case "value" => (if condType in {"fm_contains", "fm_contains_all"} then "pattern" else "value")
            case _ => key
  {
  }

  /** Canonical names are not aliases themselves, and no two aliases share one. */
  lemma AliasTable(condType: string, a: string, b: string)
    ensures Canonical(condType, Canonical(condType, a)) == Canonical(condType, a)
    ensures Canonical(condType, a) == Canonical(condType, b) ==>
              a == b || a == Canonical(condType, b) || b == Canonical(condType, a)
  {
  }

  /** The normalised parameters when the map is visited in `order`. */
  ghost function NormalizeVisiting(condType: string, params: Row, order: seq<string>): Row
    requires forall k | k in order :: k in params
  {
    if order == [] then map[]
    else
      var last := order[|order| - 1];
      NormalizeVisiting(condType, params, order[..|order| - 1])[Canonical(condType, last) := params[last]]
  }

  method NormalizeCondition(condType: string, params: Row, order: seq<string>) returns (normalized: Row)
    requires IsIteration(order, params)
    ensures normalized == NormalizeVisiting(condType, params, order)
  {
    hide AliasesFor;
    var aliases := AliasesFor(condType);
    normalized := map[];
    var i := 0;
    while i < |order|
      invariant 0 <= i <= |order|
      invariant normalized == NormalizeVisiting(condType, params, order[..i])
    {
      var key := order[i];
      assert order[..i + 1][..i] == order[..i];
      if key in aliases {
        normalized := normalized[aliases[key] := params[key]];
      } else {
        normalized := normalized[key := params[key]];
      }
      i := i + 1;
    }
    assert order[..i] == order;
  }

  /** The keys of the result are the canonical names of the parameters, and each holds the
      value of the last parameter visited under that name. */
  lemma {:induction false} NormalizedLookup(condType: string, params: Row, order: seq<string>, c: string)
    requires forall k | k in order :: k in params
    ensures var m := NormalizeVisiting(condType, params, order);
            && (c in m <==> exists i :: 0 <= i < |order| && Canonical(condType, order[i]) == c)
            && forall i | 0 <= i < |order| && Canonical(condType, order[i]) == c
                 && (forall j | i < j < |order| :: Canonical(condType, order[j]) != c) ::
                 m[c] == params[order[i]]
  {
    hide Canonical;
    if order != [] {
      var n := |order| - 1;
      NormalizedLookup(condType, params, order[..n], c);
      if Canonical(condType, order[n]) != c {
        forall i | 0 <= i < n && Canonical(condType, order[i]) == c ensures order[..n][i] == order[i] {
        }
      }
    }
  }

  /** Two parameters that normalise to the same name and carry different values. */
  ghost predicate Clash(condType: string, params: Row, a: string, b: string) {
    a in params && b in params && a != b && Canonical(condType, a) == Canonical(condType, b) && params[a] != params[b]
  }

  /** The caller gave an alias and its canonical key with different values. */
  ghost predicate HasClash(condType: string, params: Row) {
    exists key :: key in params && Canonical(condType, key) in params && params[key] != params[Canonical(condType, key)]
  }

  lemma ClashIsAliasAndCanonical(condType: string, params: Row, a: string, b: string)
    requires Clash(condType, params, a, b)
    ensures HasClash(condType, params)
  {
    AliasTable(condType, a, b);
    hide Canonical;
    assert Canonical(condType, a) == b || Canonical(condType, b) == a;
  }

  /** Without a clash every order gives the value of any parameter with that name. */
  lemma NormalizedWithoutClash(condType: string, params: Row, order: seq<string>, key: string)
    requires IsIteration(order, params) && !HasClash(condType, params) && key in params
    ensures var m := NormalizeVisiting(condType, params, order);
            Canonical(condType, key) in m && m[Canonical(condType, key)] == params[key]
  {
    var c := Canonical(condType, key);
    NormalizedLookup(condType, params, order, c);
    var i :| 0 <= i < |order| && order[i] == key;
    hide Canonical, HasClash;
    var last := LastVisited(condType, order, c, i);
    if params[order[last]] != params[key] {
      assert Clash(condType, params, key, order[last]);
      ClashIsAliasAndCanonical(condType, params, key, order[last]);
    }
  }

  lemma {:induction false} LastVisited(condType: string, order: seq<string>, c: string, i: nat) returns (last: nat)
    requires i < |order| && Canonical(condType, order[i]) == c
    ensures last < |order| && Canonical(condType, order[last]) == c
    ensures forall j | last < j < |order| :: Canonical(condType, order[j]) != c
    decreases |order| - i
  {
    hide Canonical;
    if j :| i < j < |order| && Canonical(condType, order[j]) == c {
      last := LastVisited(condType, order, c, j);
    } else {
      last := i;
    }
  }

  lemma NormalizedKeys(condType: string, params: Row, order: seq<string>)
    requires IsIteration(order, params)
    ensures forall c :: c in NormalizeVisiting(condType, params, order)
                   <==> exists key :: key in params && Canonical(condType, key) == c
  {
    hide Canonical;
    forall c ensures c in NormalizeVisiting(condType, params, order)
                <==> exists key :: key in params && Canonical(condType, key) == c
    {
      NormalizedLookup(condType, params, order, c);
      if key :| key in params && Canonical(condType, key) == c {
        assert key in order;
      }
    }
  }

  /** Without a clash the order cannot be seen. */
  lemma NoClashIsConfluent(condType: string, params: Row, order: seq<string>, order': seq<string>)
    requires IsIteration(order, params) && IsIteration(order', params) && !HasClash(condType, params)
    ensures NormalizeVisiting(condType, params, order) == NormalizeVisiting(condType, params, order')
  {
    var m, m' := NormalizeVisiting(condType, params, order), NormalizeVisiting(condType, params, order');
    NormalizedKeys(condType, params, order);
    NormalizedKeys(condType, params, order');
    hide Canonical, HasClash;
    assert forall c :: c in m <==> c in m';
    forall c | c in m ensures m[c] == m'[c] {
      var key :| key in params && Canonical(condType, key) == c;
      NormalizedWithoutClash(condType, params, order, key);
      NormalizedWithoutClash(condType, params, order', key);
    }
  }

  /** With a clash either value can win: the one visited last does. */
  lemma LastVisitedWins(condType: string, params: Row, order: seq<string>)
    requires IsIteration(order, params) && order != []
    ensures var last := order[|order| - 1];
            var m := NormalizeVisiting(condType, params, order);
            Canonical(condType, last) in m && m[Canonical(condType, last)] == params[last]
  {
  }

  /** The result is independent of the order exactly when no alias is given together with
      its canonical key under a different value. */
  lemma {:induction false} ConfluentUnlessClash(condType: string, params: Row)
    ensures (forall o, o' | IsIteration(o, params) && IsIteration(o', params) ::
               NormalizeVisiting(condType, params, o) == NormalizeVisiting(condType, params, o'))
       <==> !HasClash(condType, params)
  {
    if HasClash(condType, params) {
      var key :| key in params && Canonical(condType, key) in params && params[key] != params[Canonical(condType, key)];
      AliasTable(condType, key, key);
      hide Canonical, NormalizeVisiting;
      var o := IterationEndingIn(params, key);
      var o' := IterationEndingIn(params, Canonical(condType, key));
      LastVisitedWins(condType, params, o);
      LastVisitedWins(condType, params, o');
      assert NormalizeVisiting(condType, params, o) != NormalizeVisiting(condType, params, o');
    } else {
      forall o, o' | IsIteration(o, params) && IsIteration(o', params)
        ensures NormalizeVisiting(condType, params, o) == NormalizeVisiting(condType, params, o')
      {
        NoClashIsConfluent(condType, params, o, o');
      }
    }
  }

  /** Normalising what is already normal changes nothing, in any order. */
  lemma NormalizeIsIdempotent(condType: string, params: Row, order: seq<string>, order': seq<string>)
    requires IsIteration(order, params)
    requires IsIteration(order', NormalizeVisiting(condType, params, order))
    ensures NormalizeVisiting(condType, NormalizeVisiting(condType, params, order), order')
         == NormalizeVisiting(condType, params, order)
  {
    var m := NormalizeVisiting(condType, params, order);
    NormalizedKeys(condType, params, order);
    forall c | c in m ensures Canonical(condType, c) == c {
      var key :| key in params && Canonical(condType, key) == c;
      AliasTable(condType, key, key);
    }
    hide Canonical;
    var m' := NormalizeVisiting(condType, m, order');
    NormalizedKeys(condType, m, order');
    assert forall c :: c in m <==> c in m';
    assert !HasClash(condType, m);
    forall c | c in m ensures m'[c] == m[c] {
      NormalizedWithoutClash(condType, m, order', c);
    }
  }

  lemma {:induction false} CountAtMost(condType: string, params: Row, order: seq<string>)
    requires forall k | k in order :: k in params
    ensures |NormalizeVisiting(condType, params, order)| <= |order|
  {
    hide Canonical;
    if order != [] {
      CountAtMost(condType, params, order[..|order| - 1]);
    }
  }

  lemma {:induction false} CountPrefix(condType: string, params: Row, order: seq<string>)
    requires forall k | k in order :: k in params
    requires forall i, j | 0 <= i < j < |order| :: order[i] != order[j]
    requires forall a, b | a in params && b in params && a != b :: Canonical(condType, a) != Canonical(condType, b)
    ensures |NormalizeVisiting(condType, params, order)| == |order|
  {
    hide Canonical;
    if order != [] {
      var n := |order| - 1;
      CountPrefix(condType, params, order[..n]);
      NormalizedLookup(condType, params, order[..n], Canonical(condType, order[n]));
    }
  }

  /** Two parameters with one canonical name leave at least one entry fewer. */
  lemma SharedNameShrinks(condType: string, params: Row, order: seq<string>, a: string, b: string)
    requires IsIteration(order, params)
    requires a in params && b in params && a != b && Canonical(condType, a) == Canonical(condType, b)
    ensures |NormalizeVisiting(condType, params, order)| < |params|
  {
    var fewer := params - {a};
    var order' := IterationExists(fewer);
    hide Canonical;
    NormalizedKeys(condType, params, order);
    NormalizedKeys(condType, fewer, order');
    var m, m' := NormalizeVisiting(condType, params, order), NormalizeVisiting(condType, fewer, order');
    forall c | c in m ensures c in m' {
      var key :| key in params && Canonical(condType, key) == c;
      var kept := if key == a then b else key;
      assert kept in fewer && Canonical(condType, kept) == c;
    }
    assert forall c :: c in m' ==> c in m;
    assert m.Keys == m'.Keys;
    CountAtMost(condType, fewer, order');
    IterationLength(order', fewer);
    assert fewer.Keys == params.Keys - {a};
    assert |m| == |m.Keys| == |m'.Keys| == |m'| && |fewer| == |fewer.Keys|;
  }

  /** The number of parameters is kept exactly when no alias stands beside its canonical key. */
  lemma {:induction false} CountKept(condType: string, params: Row, order: seq<string>)
    requires IsIteration(order, params)
    ensures |NormalizeVisiting(condType, params, order)| == |params|
       <==> forall a, b | a in params && b in params && a != b :: Canonical(condType, a) != Canonical(condType, b)
  {
    hide Canonical;
    if a, b :| a in params && b in params && a != b && Canonical(condType, a) == Canonical(condType, b) {
      SharedNameShrinks(condType, params, order, a, b);
    } else {
      IterationLength(order, params);
      CountPrefix(condType, params, order);
    }
  }
}
