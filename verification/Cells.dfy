/**
  `flattenCells`: a column-id-to-value map becomes the flat array
  `[id, value, id, value, ...]` in ascending id order.

  Go visits a map in an arbitrary order, so that order is an input here, and the theorems
  below quantify over it.
*/
module CellFlattening {
  import opened Values

  /** Go's `Cells`, where the nil map is a value of its own. */
  datatype Cells = NilCells | Cells(m: map<int64, Value>) {
    function Map(): map<int64, Value> {
      if NilCells? then map[] else m
    }
  }

  // ---- Sorting the ids ----

  function Insert(sorted: seq<int64>, x: int64): seq<int64> {
    if sorted == [] then [x]
    else
      var last := |sorted| - 1;
      if x < sorted[last] then Insert(sorted[..last], x) + [sorted[last]]
      else sorted + [x]
  }

  function Sorted(ids: seq<int64>): seq<int64> {
    if ids == [] then [] else Insert(Sorted(ids[..|ids| - 1]), ids[|ids| - 1])
  }

  lemma {:induction false} InsertAt(sorted: seq<int64>, x: int64, j: nat)
    requires j <= |sorted|
    requires forall k | j <= k < |sorted| :: x < sorted[k]
    requires j == 0 || sorted[j - 1] <= x
    ensures Insert(sorted, x) == sorted[..j] + [x] + sorted[j..]
  {
    if j < |sorted| {
      var last := |sorted| - 1;
      InsertAt(sorted[..last], x, j);
      assert sorted[..last][..j] == sorted[..j];
      assert sorted[..last][j..] + [sorted[last]] == sorted[j..];
    } else {
      assert sorted[..j] == sorted && sorted[j..] == [];
    }
  }

  /** One exchange of neighbours moves `x` one place to the left. */
  lemma ExchangeLeft(front: seq<int64>, x: int64, back: seq<int64>, j: nat)
    requires 0 < j <= |front|
    ensures (front[..j] + [x] + front[j..] + back)[j := front[j - 1]][j - 1 := x]
         == front[..j - 1] + [x] + front[j - 1..] + back
  {
  }

  lemma InsertLength(sorted: seq<int64>, x: int64)
    ensures |Insert(sorted, x)| == |sorted| + 1
  {
  }

  /** Moves the element at `i` left past every larger one. */
  method SiftDown(a: array<int64>, i: nat)
    requires i < a.Length
    modifies a
    ensures a[..] == Insert(old(a[..i]), old(a[i])) + old(a[i + 1..])
  {
    hide Insert;
    ghost var front, x, back := a[..i], a[i], a[i + 1..];
    var j := i;
    assert a[..] == front[..j] + [x] + front[j..] + back;
    while j > 0 && a[j] < a[j - 1]
      invariant 0 <= j <= i
      invariant a[..] == front[..j] + [x] + front[j..] + back
      invariant forall k | j <= k < i :: x < front[k]
    {
      ghost var before := a[..];
      assert before[j] == x && before[j - 1] == front[j - 1];
      a[j], a[j - 1] := a[j - 1], a[j];
      assert a[..] == before[j := front[j - 1]][j - 1 := x];
      ExchangeLeft(front, x, back, j);
      j := j - 1;
    }
    assert a[..][j] == x;
    assert j > 0 ==> a[..][j - 1] == front[j - 1];
    InsertAt(front, x, j);
  }

  lemma SortedStep(ids: seq<int64>, i: nat)
    requires i < |ids|
    ensures Sorted(ids[..i + 1]) == Insert(Sorted(ids[..i]), ids[i])
    ensures |Sorted(ids[..i + 1])| == |Sorted(ids[..i])| + 1
  {
    assert ids[..i + 1][..i] == ids[..i];
    InsertLength(Sorted(ids[..i]), ids[i]);
  }

  /** The in-place insertion sort that stands for `sort.Slice` on the collected ids. */
  method SortIds(a: array<int64>)
    modifies a
    ensures a[..] == Sorted(old(a[..]))
  {
    ghost var input := a[..];
    assert Sorted(input[..0]) == [];
    hide Sorted, Insert;
    var i := 0;
    while i < a.Length
      invariant 0 <= i <= a.Length
      invariant |Sorted(input[..i])| == i
      invariant a[..] == Sorted(input[..i]) + input[i..]
    {
      ghost var front := Sorted(input[..i]);
      assert a[..i] == front && a[i] == a[..][i] == input[i] && a[i + 1..] == input[i + 1..];
      SiftDown(a, i);
      SortedStep(input, i);
      i := i + 1;
    }
    assert input[..i] == input;
  }

  // ---- The canonical id sequence ----

  ghost predicate Ascending(ids: seq<int64>) {
    forall i, j | 0 <= i < j < |ids| :: ids[i] < ids[j]
  }

  ghost function Elements(ids: seq<int64>): set<int64> {
    set id | id in ids
  }

  /** Dropping its last id from an ascending enumeration drops the maximum. */
  lemma AscendingLast(a: seq<int64>)
    requires Ascending(a) && a != []
    ensures Ascending(a[..|a| - 1])
    ensures a[|a| - 1] in Elements(a)
    ensures Elements(a[..|a| - 1]) == Elements(a) - {a[|a| - 1]}
    ensures forall k | k in Elements(a) :: k <= a[|a| - 1]
  {
    assert a == a[..|a| - 1] + [a[|a| - 1]];
  }

  lemma AscendingAppend(front: seq<int64>, id: int64)
    requires Ascending(front) && forall k | k in Elements(front) :: k < id
    ensures Ascending(front + [id]) && Elements(front + [id]) == Elements(front) + {id}
  {
    assert forall i | 0 <= i < |front| :: front[i] in Elements(front);
  }

  lemma {:induction false} InsertKeepsOrder(sorted: seq<int64>, x: int64)
    requires Ascending(sorted) && x !in Elements(sorted)
    ensures Ascending(Insert(sorted, x))
    ensures Elements(Insert(sorted, x)) == Elements(sorted) + {x}
  {
    if sorted != [] {
      var front, last := sorted[..|sorted| - 1], sorted[|sorted| - 1];
      AscendingLast(sorted);
      if x < last {
        InsertKeepsOrder(front, x);
        AscendingAppend(Insert(front, x), last);
      } else {
        AscendingAppend(sorted, x);
      }
    }
  }

  /** Sorting the ids of any iteration gives an ascending enumeration of the same ids. */
  lemma {:induction false} SortedEnumerates(ids: seq<int64>)
    requires forall i, j | 0 <= i < j < |ids| :: ids[i] != ids[j]
    ensures Ascending(Sorted(ids))
    ensures Elements(Sorted(ids)) == Elements(ids)
  {
    if ids != [] {
      var last := |ids| - 1;
      SortedEnumerates(ids[..last]);
      assert ids == ids[..last] + [ids[last]];
      assert ids[last] !in Elements(ids[..last]);
      InsertKeepsOrder(Sorted(ids[..last]), ids[last]);
    }
  }

  /** A set of ids has only one ascending enumeration. */
  lemma {:induction false} AscendingIsUnique(a: seq<int64>, b: seq<int64>)
    requires Ascending(a) && Ascending(b) && Elements(a) == Elements(b)
    ensures a == b
  {
    assert a != [] ==> a[0] in Elements(b);
    assert b != [] ==> b[0] in Elements(a);
    hide Ascending, Elements;
    if a != [] {
      AscendingLast(a);
      AscendingLast(b);
      AscendingIsUnique(a[..|a| - 1], b[..|b| - 1]);
      assert a == a[..|a| - 1] + [a[|a| - 1]] && b == b[..|b| - 1] + [b[|b| - 1]];
    }
  }

  /** `ids` lists the keys of `m` in ascending order. */
  ghost predicate Enumerates(ids: seq<int64>, m: map<int64, Value>) {
    Ascending(ids) && Elements(ids) == m.Keys
  }

  // ---- Flattening ----

  function Id(id: int64): Value {
    Number(id)
  }

  function Pairs(ids: seq<int64>, m: map<int64, Value>): seq<Value>
    requires Elements(ids) <= m.Keys
  {
    if ids == [] then []
    else Pairs(ids[..|ids| - 1], m) + [Id(ids[|ids| - 1]), m[ids[|ids| - 1]]]
  }

  lemma SortedStaysIn(order: seq<int64>, m: map<int64, Value>)
    requires IsIteration(order, m)
    ensures Enumerates(Sorted(order), m)
  {
    SortedEnumerates(order);
  }

  /** What flattening produces when the map happens to be visited in `order`. */
  ghost function FlattenVisiting(m: map<int64, Value>, order: seq<int64>): seq<Value>
    requires IsIteration(order, m)
  {
    SortedStaysIn(order, m);
    Pairs(Sorted(order), m)
  }

  /** `flat` lists the entries of `m`, each id before its value, ids strictly ascending. */
  ghost predicate IsFlatFormOf(flat: seq<Value>, m: map<int64, Value>) {
    exists ids: seq<int64> :: Enumerates(ids, m) && flat == Pairs(ids, m)
  }

  /** The ids in the order the map was visited, put into an array to be sorted. */
  method CollectIds(order: seq<int64>) returns (ids: array<int64>)
    ensures fresh(ids) && ids[..] == order
  {
    ids := new int64[|order|];
    var n := 0;
    while n < |order|
      invariant 0 <= n <= |order|
      invariant ids[..n] == order[..n]
    {
      ids[n] := order[n];
      n := n + 1;
    }
  }

  lemma PairsStep(ids: seq<int64>, m: map<int64, Value>, i: nat)
    requires i < |ids| && Elements(ids) <= m.Keys
    ensures Elements(ids[..i]) <= m.Keys && Elements(ids[..i + 1]) <= m.Keys && ids[i] in m
    ensures Pairs(ids[..i + 1], m) == Pairs(ids[..i], m) + [Id(ids[i]), m[ids[i]]]
  {
    assert ids[i] in Elements(ids);
    assert ids[..i + 1][..i] == ids[..i];
  }

  method FlattenCells(cells: Cells, order: seq<int64>) returns (flat: seq<Value>)
    requires IsIteration(order, cells.Map())
    ensures flat == FlattenVisiting(cells.Map(), order)
    ensures flat == match cells
                    case NilCells => []
                    case Cells(m) => Flat(m)
  {
    var m := cells.Map();
    SortedStaysIn(order, m);
    if |m| == 0 {
      IterationLength(order, m);
      return [];
    }
    var a := CollectIds(order);
    SortIds(a);
    var ids := a[..];
    flat := [];
    var i := 0;
    while i < |ids|
      invariant 0 <= i <= |ids|
      invariant Elements(ids[..i]) <= m.Keys
      invariant flat == Pairs(ids[..i], m)
    {
      PairsStep(ids, m, i);
      flat := flat + [Id(ids[i]), m[ids[i]]];
      i := i + 1;
    }
    assert ids[..i] == ids;
  }

  // ---- The flat form is canonical ----

  lemma {:induction false} PairsShape(ids: seq<int64>, m: map<int64, Value>)
    requires Elements(ids) <= m.Keys
    ensures |Pairs(ids, m)| == 2 * |ids|
    ensures forall i | 0 <= i < |ids| :: Pairs(ids, m)[2 * i] == Id(ids[i]) && Pairs(ids, m)[2 * i + 1] == m[ids[i]]
  {
    if ids != [] {
      PairsShape(ids[..|ids| - 1], m);
    }
  }

  /** Whatever order the map is visited in, the array is the same one. */
  lemma FlattenIgnoresOrder(m: map<int64, Value>, order: seq<int64>, order': seq<int64>)
    requires IsIteration(order, m) && IsIteration(order', m)
    ensures FlattenVisiting(m, order) == FlattenVisiting(m, order')
  {
    SortedStaysIn(order, m);
    SortedStaysIn(order', m);
    AscendingIsUnique(Sorted(order), Sorted(order'));
  }

  lemma FlattenGivesFlatForm(m: map<int64, Value>, order: seq<int64>)
    requires IsIteration(order, m)
    ensures IsFlatFormOf(FlattenVisiting(m, order), m)
  {
    SortedStaysIn(order, m);
    var ids := Sorted(order);
    assert FlattenVisiting(m, order) == Pairs(ids, m);
  }

  lemma FlatIds(m: map<int64, Value>) returns (ids: seq<int64>)
    ensures Enumerates(ids, m) && |ids| == |m| && Flat(m) == Pairs(ids, m)
  {
    assert IsFlatFormOf(Flat(m), m);
    ids :| Enumerates(ids, m) && Flat(m) == Pairs(ids, m);
    assert forall i, j | 0 <= i < j < |ids| :: ids[i] < ids[j];
    IterationLength(ids, m);
  }

  /** The array flattening gives, independent of any visiting order. */
  ghost function Flat(m: map<int64, Value>): (flat: seq<Value>)
    ensures IsFlatFormOf(flat, m)
    ensures forall order | IsIteration(order, m) :: FlattenVisiting(m, order) == flat
  {
    SomeIteration(m);
    var order :| IsIteration(order, m);
    FlattenGivesFlatForm(m, order);
    assert forall o | IsIteration(o, m) :: FlattenVisiting(m, o) == FlattenVisiting(m, order) by {
      forall o | IsIteration(o, m) ensures FlattenVisiting(m, o) == FlattenVisiting(m, order) {
        FlattenIgnoresOrder(m, o, order);
      }
    }
    FlattenVisiting(m, order)
  }

  // ---- Reading a flat array back ----

  /** The int64 a JSON number denotes, if it denotes one. */
  function ToInt64(v: Value): Option<int64> {
    if v.Number? && -0x8000_0000_0000_0000 <= v.n < 0x8000_0000_0000_0000 then Some(v.n) else None
  }

  /** The map a flat array denotes, provided its ids are strictly ascending. */
  function Unflatten(flat: seq<Value>): Option<map<int64, Value>> {
    if flat == [] then Some(map[])
    else if |flat| == 1 then None
    else
      match (Unflatten(flat[..|flat| - 2]), ToInt64(flat[|flat| - 2]))
      case (Some(m), Some(id)) =>
        if forall k | k in m :: k < id then Some(m[id := flat[|flat| - 1]]) else None
      case _ => None
  }

  lemma {:induction false} PairsDependOnIdsOnly(ids: seq<int64>, m: map<int64, Value>, m': map<int64, Value>)
    requires Elements(ids) <= m.Keys && Elements(ids) <= m'.Keys
    requires forall id | id in Elements(ids) :: m[id] == m'[id]
    ensures Pairs(ids, m) == Pairs(ids, m')
  {
    if ids != [] {
      PairsDependOnIdsOnly(ids[..|ids| - 1], m, m');
    }
  }

  lemma IdReadsBack(id: int64)
    ensures ToInt64(Id(id)) == Some(id)
  {
  }

  lemma UnflattenStep(flat: seq<Value>, m: map<int64, Value>, id: int64, v: Value)
    requires Unflatten(flat) == Some(m) && forall k | k in m :: k < id
    ensures Unflatten(flat + [Id(id), v]) == Some(m[id := v])
  {
    var longer := flat + [Id(id), v];
    assert longer[..|longer| - 2] == flat;
    IdReadsBack(id);
  }

  lemma {:induction false} UnflattenPairs(ids: seq<int64>, m: map<int64, Value>)
    requires Enumerates(ids, m)
    ensures Unflatten(Pairs(ids, m)) == Some(m)
  {
    if ids == [] {
      assert m == map[];
    } else {
      var front, id := ids[..|ids| - 1], ids[|ids| - 1];
      var rest := m - {id};
      AscendingLast(ids);
      PairsDependOnIdsOnly(front, rest, m);
      assert Pairs(ids, m) == Pairs(front, rest) + [Id(id), m[id]];
      assert Enumerates(front, rest);
      assert m == rest[id := m[id]];
      hide Pairs, Unflatten, Enumerates;
      UnflattenPairs(front, rest);
      UnflattenStep(Pairs(front, rest), rest, id, m[id]);
    }
  }

  lemma PairsAppend(front: seq<int64>, m: map<int64, Value>, id: int64, v: Value)
    requires Elements(front) == m.Keys && id !in m && Elements(front + [id]) == Elements(front) + {id}
    ensures Pairs(front + [id], m[id := v]) == Pairs(front, m) + [Id(id), v]
  {
    PairsDependOnIdsOnly(front, m, m[id := v]);
    assert (front + [id])[..|front|] == front;
  }

  lemma EnumerationStep(front: seq<int64>, m: map<int64, Value>, id: int64, v: Value)
    requires Enumerates(front, m) && forall k | k in m.Keys :: k < id
    ensures Enumerates(front + [id], m[id := v])
    ensures Pairs(front + [id], m[id := v]) == Pairs(front, m) + [Id(id), v]
  {
    AscendingAppend(front, id);
    PairsAppend(front, m, id, v);
  }

  lemma ToInt64Exact(v: Value)
    ensures ToInt64(v).Some? ==> v == Id(ToInt64(v).value)
  {
  }

  lemma UnflattenLast(flat: seq<Value>)
    requires Unflatten(flat).Some? && flat != []
    ensures |flat| >= 2 && Unflatten(flat[..|flat| - 2]).Some? && ToInt64(flat[|flat| - 2]).Some?
    ensures var m, id := Unflatten(flat[..|flat| - 2]).value, ToInt64(flat[|flat| - 2]).value;
            (forall k | k in m.Keys :: k < id) && Unflatten(flat).value == m[id := flat[|flat| - 1]]
  {
    hide ToInt64;
  }

  lemma LastPair(flat: seq<Value>)
    requires |flat| >= 2 && ToInt64(flat[|flat| - 2]).Some?
    ensures flat == flat[..|flat| - 2] + [Id(ToInt64(flat[|flat| - 2]).value), flat[|flat| - 1]]
  {
    ToInt64Exact(flat[|flat| - 2]);
    hide ToInt64, Id;
  }

  lemma {:induction false} UnflattenGivesPairs(flat: seq<Value>) returns (ids: seq<int64>)
    requires Unflatten(flat).Some?
    ensures Enumerates(ids, Unflatten(flat).value) && flat == Pairs(ids, Unflatten(flat).value)
  {
    if flat == [] {
      ids := [];
    } else {
      UnflattenLast(flat);
      LastPair(flat);
      hide Enumerates, Pairs, Unflatten, ToInt64;
      var rest, id := flat[..|flat| - 2], ToInt64(flat[|flat| - 2]).value;
      var front := UnflattenGivesPairs(rest);
      EnumerationStep(front, Unflatten(rest).value, id, flat[|flat| - 1]);
      ids := front + [id];
    }
  }

  /** Flattening and unflattening are inverse to each other: `flat` reads back as `m`
      exactly when it is the array `m` flattens to. */
  lemma UnflattenInvertsFlat(flat: seq<Value>, m: map<int64, Value>)
    ensures Unflatten(flat) == Some(m) <==> flat == Flat(m)
  {
    var ids := FlatIds(m);
    UnflattenPairs(ids, m);
    if Unflatten(flat) == Some(m) {
      var ids' := UnflattenGivesPairs(flat);
      AscendingIsUnique(ids, ids');
    }
  }

  /** Two `Cells` flatten to the same array exactly when they hold the same entries;
      only the nil map and the empty map are identified. */
  lemma FlatIsInjective(a: Cells, b: Cells)
    ensures Flat(a.Map()) == Flat(b.Map()) <==> a == b || (a in {NilCells, Cells(map[])} && b in {NilCells, Cells(map[])})
  {
    UnflattenInvertsFlat(Flat(a.Map()), a.Map());
    UnflattenInvertsFlat(Flat(b.Map()), b.Map());
  }

  /** The shape of the wire array: one pair per entry, ids strictly ascending, every value
      next to its own id. */
  lemma FlatShape(m: map<int64, Value>) returns (ids: seq<int64>)
    ensures (forall i, j | 0 <= i < j < |ids| :: ids[i] < ids[j]) && forall id :: id in ids <==> id in m
    ensures |Flat(m)| == 2 * |m| == 2 * |ids|
    ensures forall i | 0 <= i < |ids| :: Flat(m)[2 * i] == Number(ids[i]) && Flat(m)[2 * i + 1] == m[ids[i]]
  {
    ids := FlatIds(m);
    PairsShape(ids, m);
  }

  /** What a left-to-right, two-at-a-time search for `colID` finds. */
  function Scan(cells: seq<Value>, colID: int64): Value {
    if |cells| < 2 then Null
    else if ToInt64(cells[0]) == Some(colID) then cells[1]
    else Scan(cells[2..], colID)
  }

  /** The reader of a row's flat cells array. */
  method CellValue(cells: seq<Value>, colID: int64) returns (v: Value)
    ensures v == Scan(cells, colID)
  {
    var i := 0;
    while i + 1 < |cells|
      invariant 0 <= i <= |cells|
      invariant Scan(cells[i..], colID) == Scan(cells, colID)
    {
      if ToInt64(cells[i]) == Some(colID) {
        return cells[i + 1];
      }
      assert cells[i..][2..] == cells[i + 2..];
      i := i + 2;
    }
    return Null;
  }

  lemma {:induction false} ScanAppend(cells: seq<Value>, pair: seq<Value>, colID: int64)
    requires |cells| % 2 == 0 && |pair| == 2
    ensures Holds(cells, colID) ==> Scan(cells + pair, colID) == Scan(cells, colID)
    ensures !Holds(cells, colID) ==> Scan(cells + pair, colID) == Scan(pair, colID)
  {
    if cells == [] {
      assert cells + pair == pair;
    } else {
      assert (cells + pair)[2..] == cells[2..] + pair;
      ScanAppend(cells[2..], pair, colID);
    }
  }

  /** Some pair of `cells` is labelled with `colID`. */
  predicate Holds(cells: seq<Value>, colID: int64) {
    |cells| >= 2 && (ToInt64(cells[0]) == Some(colID) || Holds(cells[2..], colID))
  }

  lemma {:induction false} HoldsAppend(cells: seq<Value>, pair: seq<Value>, colID: int64)
    requires |cells| % 2 == 0 && |pair| == 2
    ensures Holds(cells + pair, colID) <==> Holds(cells, colID) || ToInt64(pair[0]) == Some(colID)
  {
    if cells == [] {
      assert cells + pair == pair;
    } else {
      assert (cells + pair)[2..] == cells[2..] + pair;
      HoldsAppend(cells[2..], pair, colID);
    }
  }

  lemma ScanStep(flat: seq<Value>, id: int64, v: Value, colID: int64)
    requires |flat| % 2 == 0
    ensures Holds(flat + [Id(id), v], colID) <==> Holds(flat, colID) || id == colID
    ensures Scan(flat + [Id(id), v], colID) ==
            if Holds(flat, colID) then Scan(flat, colID) else if id == colID then v else Null
  {
    IdReadsBack(id);
    HoldsAppend(flat, [Id(id), v], colID);
    ScanAppend(flat, [Id(id), v], colID);
    assert Scan([Id(id), v], colID) == if id == colID then v else Null;
  }

  lemma PairsLast(ids: seq<int64>, m: map<int64, Value>)
    requires Elements(ids) <= m.Keys && ids != []
    ensures ids[|ids| - 1] in m && Elements(ids[..|ids| - 1]) <= m.Keys
    ensures Pairs(ids, m) == Pairs(ids[..|ids| - 1], m) + [Id(ids[|ids| - 1]), m[ids[|ids| - 1]]]
  {
    assert ids[|ids| - 1] in Elements(ids);
  }

  lemma {:induction false} ScanPairs(ids: seq<int64>, m: map<int64, Value>, colID: int64)
    requires Ascending(ids) && Elements(ids) <= m.Keys
    ensures |Pairs(ids, m)| % 2 == 0
    ensures Holds(Pairs(ids, m), colID) <==> colID in Elements(ids)
    ensures Scan(Pairs(ids, m), colID) == if colID in Elements(ids) then m[colID] else Null
  {
    if ids != [] {
      var front, id := ids[..|ids| - 1], ids[|ids| - 1];
      hide Pairs, Scan, Holds, Elements, Ascending;
      AscendingLast(ids);
      PairsLast(ids, m);
      ScanPairs(front, m, colID);
      ScanStep(Pairs(front, m), id, m[id], colID);
    }
  }

  /** The flat form refines the map: reading any column of it is looking that column up. */
  lemma ScanRefinesLookup(m: map<int64, Value>, colID: int64)
    ensures Scan(Flat(m), colID) == if colID in m then m[colID] else Null
  {
    var ids := FlatIds(m);
    ScanPairs(ids, m, colID);
  }
}
