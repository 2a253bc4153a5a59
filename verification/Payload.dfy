/**
  The operations a transaction stages and the request body that carries them.

  `Op` is the canonical encoding of one staging call; `OpVisiting` is the encoding built when
  the call's maps happen to be visited in given orders.  `ReadOp` reads an encoded operation
  back.
*/
module Payload {
  import opened Values
  import opened CellFlattening

  /** A call of one of the four staging methods. */
  datatype Call =
    | Put(table: string, cells: Cells, returning: bool)
    | Upsert(table: string, cells: Cells, updateCells: Cells, returning: bool)
    | Delete(table: string, rowID: int64)
    | DeleteByPK(table: string, pk: Value)

  /** The orders in which a call's maps are visited. */
  datatype Orders = Orders(cells: seq<int64>, update: seq<int64>)

  ghost predicate Visits(orders: Orders, call: Call) {
    match call
    case Put(_, cells, _) => IsIteration(orders.cells, cells.Map())
    case Upsert(_, cells, update, _) =>
      IsIteration(orders.cells, cells.Map()) && IsIteration(orders.update, update.Map())
    case Delete(_, _) => true
    case DeleteByPK(_, _) => true
  }

  // ---- Encoding ----

  function Tagged(tag: string, fields: Row): Value {
    Object(map[tag := Object(fields)])
  }

  function PutFields(table: string, flat: seq<Value>, returning: bool): Row {
    map["table" := Text(table), "cells" := Array(flat), "returning" := Bool(returning)]
  }

  function UpsertFields(table: string, flat: seq<Value>, update: Option<seq<Value>>, returning: bool): Row {
    var fields := PutFields(table, flat, returning);
    if update.Some? then fields["update_cells" := Array(update.value)] else fields
  }

  function DeleteOp(table: string, rowID: int64): Value {
    Tagged("delete", map["table" := Text(table), "row_id" := Number(rowID)])
  }

  function DeleteByPKOp(table: string, pk: Value): Value {
    Tagged("delete_by_pk", map["table" := Text(table), "pk" := pk])
  }

  ghost function Op(call: Call): Value {
    match call
    case Put(table, cells, returning) => Tagged("put", PutFields(table, Flat(cells.Map()), returning))
    case Upsert(table, cells, update, returning) =>
      Tagged("upsert", UpsertFields(table, Flat(cells.Map()),
                                    if update.NilCells? then None else Some(Flat(update.Map())), returning))
    case Delete(table, rowID) => DeleteOp(table, rowID)
    case DeleteByPK(table, pk) => DeleteByPKOp(table, pk)
  }

  ghost function OpVisiting(call: Call, orders: Orders): Value
    requires Visits(orders, call)
  {
    match call
    case Put(table, cells, returning) =>
      Tagged("put", PutFields(table, FlattenVisiting(cells.Map(), orders.cells), returning))
    case Upsert(table, cells, update, returning) =>
      Tagged("upsert", UpsertFields(table, FlattenVisiting(cells.Map(), orders.cells),
                                    if update.NilCells? then None
                                    else Some(FlattenVisiting(update.Map(), orders.update)), returning))
    case Delete(table, rowID) => DeleteOp(table, rowID)
    case DeleteByPK(table, pk) => DeleteByPKOp(table, pk)
  }

  /** However the maps of a call are visited, the operation encoded is the same. */
  lemma OpIgnoresOrders(call: Call, orders: Orders)
    requires Visits(orders, call)
    ensures OpVisiting(call, orders) == Op(call)
  {
    match call
    case Put(_, cells, _) =>
      assert FlattenVisiting(cells.Map(), orders.cells) == Flat(cells.Map());
    case Upsert(_, cells, update, _) =>
      assert FlattenVisiting(cells.Map(), orders.cells) == Flat(cells.Map());
      assert FlattenVisiting(update.Map(), orders.update) == Flat(update.Map());
    case Delete(_, _) =>
    case DeleteByPK(_, _) =>
  }

  // ---- Reading an operation back ----

  function FieldText(fields: Row, name: string): Option<string> {
    if name in fields && fields[name].Text? then Some(fields[name].s) else None
  }

  function FieldBool(fields: Row, name: string): Option<bool> {
    if name in fields && fields[name].Bool? then Some(fields[name].b) else None
  }

  function FieldCells(fields: Row, name: string): Option<map<int64, Value>> {
    if name in fields && fields[name].Array? then Unflatten(fields[name].elems) else None
  }

  function ReadPut(fields: Row): Option<Call> {
    if fields.Keys != {"table", "cells", "returning"} then None
    else
      match (FieldText(fields, "table"), FieldCells(fields, "cells"), FieldBool(fields, "returning"))
      case (Some(table), Some(m), Some(returning)) => Some(Put(table, Cells(m), returning))
      case _ => None
  }

  function ReadUpsert(fields: Row): Option<Call> {
    if fields.Keys - {"update_cells"} != {"table", "cells", "returning"} then None
    else
      match (FieldText(fields, "table"), FieldCells(fields, "cells"), FieldUpdate(fields), FieldBool(fields, "returning"))
      case (Some(table), Some(m), Some(update), Some(returning)) => Some(Upsert(table, Cells(m), update, returning))
      case _ => None
  }

  /** The values to write on conflict; the field is absent when there is nothing to do. */
  function FieldUpdate(fields: Row): Option<Cells> {
    if "update_cells" !in fields then Some(NilCells)
    else
      match FieldCells(fields, "update_cells")
      case Some(u) => Some(Cells(u))
      case None => None
  }

  function ReadDelete(fields: Row): Option<Call> {
    if fields.Keys != {"table", "row_id"} then None
    else
      match (FieldText(fields, "table"), ToInt64(fields["row_id"]))
      case (Some(table), Some(rowID)) => Some(Delete(table, rowID))
      case _ => None
  }

  function ReadDeleteByPK(fields: Row): Option<Call> {
    if fields.Keys != {"table", "pk"} then None
    else
      match FieldText(fields, "table")
      case Some(table) => Some(DeleteByPK(table, fields["pk"]))
      case None => None
  }

  /** The fields of an operation tagged `tag`, and nothing else beside the tag. */
  function Tag(op: Value, tag: string): Option<Row> {
    if op.Object? && op.fields.Keys == {tag} && op.fields[tag].Object? then Some(op.fields[tag].fields) else None
  }

  function ReadOp(op: Value): Option<Call> {
    if Tag(op, "put").Some? then ReadPut(Tag(op, "put").value)
    else if Tag(op, "upsert").Some? then ReadUpsert(Tag(op, "upsert").value)
    else if Tag(op, "delete").Some? then ReadDelete(Tag(op, "delete").value)
    else if Tag(op, "delete_by_pk").Some? then ReadDeleteByPK(Tag(op, "delete_by_pk").value)
    else None
  }

  /** What a call means once nil and empty `cells` are identified.  A nil `updateCells`
      (do nothing) and an empty one stay different. */
  function Meaning(call: Call): Call {
    if (call.Put? || call.Upsert?) && call.cells.NilCells? then call.(cells := Cells(map[])) else call
  }

  lemma TagReadsBack(tag: string, fields: Row)
    ensures Tag(Tagged(tag, fields), tag) == Some(fields)
    ensures forall other | other != tag :: Tag(Tagged(tag, fields), other) == None
  {
    assert Tagged(tag, fields).fields.Keys == {tag};
    assert forall other: string | other != tag :: tag !in {other};
  }

  lemma ReadPutBack(table: string, m: map<int64, Value>, returning: bool)
    ensures ReadPut(PutFields(table, Flat(m), returning)) == Some(Put(table, Cells(m), returning))
  {
    hide Flat, Unflatten;
    UnflattenInvertsFlat(Flat(m), m);
  }

  lemma ReadUpsertBack(table: string, m: map<int64, Value>, update: Cells, returning: bool)
    ensures ReadUpsert(UpsertFields(table, Flat(m), if update.NilCells? then None else Some(Flat(update.Map())), returning))
         == Some(Upsert(table, Cells(m), update, returning))
  {
    hide Flat, Unflatten;
    UnflattenInvertsFlat(Flat(m), m);
    UnflattenInvertsFlat(Flat(update.Map()), update.Map());
  }

  lemma ReadDeletesBack(table: string, rowID: int64, pk: Value)
    ensures ReadDelete(map["table" := Text(table), "row_id" := Number(rowID)]) == Some(Delete(table, rowID))
    ensures ReadDeleteByPK(map["table" := Text(table), "pk" := pk]) == Some(DeleteByPK(table, pk))
  {
    var fields: Row := map["table" := Text(table), "row_id" := Number(rowID)];
    var byKey: Row := map["table" := Text(table), "pk" := pk];
    assert fields.Keys == {"table", "row_id"} && byKey.Keys == {"table", "pk"};
  }

  /** An encoded operation still says everything the caller said. */
  lemma OpRoundTrip(call: Call)
    ensures ReadOp(Op(call)) == Some(Meaning(call))
  {
    hide Flat, Tag, Tagged, ReadPut, ReadUpsert, ReadDelete, ReadDeleteByPK, PutFields, UpsertFields;
    match call
    case Put(table, cells, returning) =>
      TagReadsBack("put", PutFields(table, Flat(cells.Map()), returning));
      ReadPutBack(table, cells.Map(), returning);
    case Upsert(table, cells, update, returning) =>
      var flat := if update.NilCells? then None else Some(Flat(update.Map()));
      TagReadsBack("upsert", UpsertFields(table, Flat(cells.Map()), flat, returning));
      ReadUpsertBack(table, cells.Map(), update, returning);
    case Delete(table, rowID) =>
      TagReadsBack("delete", map["table" := Text(table), "row_id" := Number(rowID)]);
      ReadDeletesBack(table, rowID, Null);
    case DeleteByPK(table, pk) =>
      TagReadsBack("delete_by_pk", map["table" := Text(table), "pk" := pk]);
      ReadDeletesBack(table, 0, pk);
  }

  /** Two calls encode alike exactly when they mean the same. */
  lemma OpFaithful(a: Call, b: Call)
    ensures Op(a) == Op(b) <==> Meaning(a) == Meaning(b)
  {
    OpRoundTrip(a);
    OpRoundTrip(b);
  }

  // ---- Sequences of calls ----

  ghost function Ops(calls: seq<Call>): seq<Value> {
    seq(|calls|, i requires 0 <= i < |calls| => Op(calls[i]))
  }

  function Meanings(calls: seq<Call>): seq<Call> {
    seq(|calls|, i requires 0 <= i < |calls| => Meaning(calls[i]))
  }

  /** Two call sequences stage the same operations exactly when they mean the same, call
      by call. */
  lemma OpsFaithful(a: seq<Call>, b: seq<Call>)
    ensures Ops(a) == Ops(b) <==> Meanings(a) == Meanings(b)
  {
    if |a| != |b| {
      assert |Ops(a)| != |Ops(b)| && |Meanings(a)| != |Meanings(b)|;
    } else {
      forall i | 0 <= i < |a| ensures Ops(a)[i] == Ops(b)[i] <==> Meanings(a)[i] == Meanings(b)[i] {
        OpFaithful(a[i], b[i]);
      }
      SameElements(Ops(a), Ops(b));
      SameElements(Meanings(a), Meanings(b));
    }
  }

  lemma SameElements<T>(s: seq<T>, t: seq<T>)
    requires |s| == |t|
    ensures s == t <==> forall i | 0 <= i < |s| :: s[i] == t[i]
  {
  }

  // ---- One-shot operations of the client itself ----

  /** `Client.Put` encodes a put without a `returning` field. */
  ghost function ClientPutOp(table: string, cells: Cells): Value {
    Tagged("put", map["table" := Text(table), "cells" := Array(Flat(cells.Map()))])
  }

  ghost function ClientUpsertOp(table: string, cells: Cells, update: Cells): Value {
    var fields := map["table" := Text(table), "cells" := Array(Flat(cells.Map()))];
    Tagged("upsert", if update.NilCells? then fields else fields["update_cells" := Array(Flat(update.Map()))])
  }

  lemma UnreadableWithoutReturning(fields: Row)
    requires "returning" !in fields
    ensures ReadOp(Tagged("put", fields)) == None && ReadOp(Tagged("upsert", fields)) == None
  {
    assert forall tag: string :: Tagged(tag, fields).fields.Keys == {tag};
    assert forall s: set<string> :: "returning" in s ==> fields.Keys != s && fields.Keys - {"update_cells"} != s;
  }

  /** No staged operation ever equals a one-shot put or upsert: a commit begun one way and
      retried the other way is a different payload. */
  lemma OneShotDiffersFromStaged(table: string, cells: Cells, update: Cells, call: Call)
    ensures ClientPutOp(table, cells) != Op(call) && ClientUpsertOp(table, cells, update) != Op(call)
  {
    var fields := map["table" := Text(table), "cells" := Array(Flat(cells.Map()))];
    OpRoundTrip(call);
    hide ReadOp, Op, Flat;
    UnreadableWithoutReturning(fields);
    UnreadableWithoutReturning(fields["update_cells" := Array(Flat(update.Map()))]);
  }

  /** A call of `Client.Put` or `Client.Upsert`. */
  datatype OneShot =
    | OneShotPut(table: string, cells: Cells)
    | OneShotUpsert(table: string, cells: Cells, update: Cells)

  function ReadOneShotPut(fields: Row): Option<OneShot> {
    match (FieldText(fields, "table"), FieldCells(fields, "cells"))
    case (Some(table), Some(m)) => if fields.Keys == {"table", "cells"} then Some(OneShotPut(table, Cells(m))) else None
    case _ => None
  }

  function ReadOneShotUpsert(fields: Row): Option<OneShot> {
    match (FieldText(fields, "table"), FieldCells(fields, "cells"), FieldUpdate(fields))
    case (Some(table), Some(m), Some(update)) =>
      if fields.Keys - {"update_cells"} == {"table", "cells"} then Some(OneShotUpsert(table, Cells(m), update)) else None
    case _ => None
  }

  /** Reads a one-shot operation, and rejects one with fields it does not know. */
  function ReadOneShot(op: Value): Option<OneShot> {
    if Tag(op, "put").Some? then ReadOneShotPut(Tag(op, "put").value)
    else if Tag(op, "upsert").Some? then ReadOneShotUpsert(Tag(op, "upsert").value)
    else None
  }

  /** `cells` with nil and empty identified. */
  function OrEmpty(cells: Cells): Cells {
    if cells.NilCells? then Cells(map[]) else cells
  }

  /** A one-shot operation says everything the caller said: the table, the cells, and the update
      cells, absent exactly when they are nil. */
  lemma OneShotRoundTrip(table: string, cells: Cells, update: Cells)
    ensures ReadOneShot(ClientPutOp(table, cells)) == Some(OneShotPut(table, OrEmpty(cells)))
    ensures ReadOneShot(ClientUpsertOp(table, cells, update)) == Some(OneShotUpsert(table, OrEmpty(cells), update))
  {
    UnflattenInvertsFlat(Flat(cells.Map()), cells.Map());
    UnflattenInvertsFlat(Flat(update.Map()), update.Map());
    hide Flat, Unflatten, Tag, Tagged;
    var fields: Row := map["table" := Text(table), "cells" := Array(Flat(cells.Map()))];
    var more := fields["update_cells" := Array(Flat(update.Map()))];
    assert fields.Keys == {"table", "cells"} && more.Keys == {"table", "cells", "update_cells"};
    TagReadsBack("put", fields);
    TagReadsBack("upsert", fields);
    TagReadsBack("upsert", more);
    assert ReadOneShotPut(fields) == Some(OneShotPut(table, OrEmpty(cells)));
    assert ReadOneShotUpsert(if update.NilCells? then fields else more) == Some(OneShotUpsert(table, OrEmpty(cells), update));
    hide ReadOneShotPut, ReadOneShotUpsert;
  }

  /** Two one-shot calls send the same operation exactly when they mean the same. */
  lemma OneShotFaithful(table: string, cells: Cells, update: Cells, table': string, cells': Cells, update': Cells)
    ensures ClientPutOp(table, cells) == ClientPutOp(table', cells') <==>
            table == table' && OrEmpty(cells) == OrEmpty(cells')
    ensures ClientUpsertOp(table, cells, update) == ClientUpsertOp(table', cells', update') <==>
            table == table' && OrEmpty(cells) == OrEmpty(cells') && update == update'
    ensures ClientPutOp(table, cells) != ClientUpsertOp(table', cells', update')
  {
    OneShotRoundTrip(table, cells, update);
    OneShotRoundTrip(table', cells', update');
    hide Flat, ReadOneShot;
  }

  // ---- The request body ----

  function TxnPayload(ops: seq<Value>, key: string): Value {
    var fields := map["ops" := Array(ops)];
    Object(if key != "" then fields["idempotency_key" := Text(key)] else fields)
  }

  /** The idempotency key a request body carries; the empty string if it carries none. */
  function KeyOf(payload: Value): string {
    if payload.Object? && "idempotency_key" in payload.fields && payload.fields["idempotency_key"].Text?
    then payload.fields["idempotency_key"].s
    else ""
  }

  function OpsOf(payload: Value): seq<Value> {
    if payload.Object? && "ops" in payload.fields && payload.fields["ops"].Array?
    then payload.fields["ops"].elems
    else []
  }

  /** The body determines the operations and the key, and says nothing else; it has no key field
      when the key is empty. */
  lemma PayloadFaithful(ops: seq<Value>, key: string)
    ensures OpsOf(TxnPayload(ops, key)) == ops && KeyOf(TxnPayload(ops, key)) == key
    ensures TxnPayload(ops, key).Object?
    ensures TxnPayload(ops, key).fields.Keys == if key == "" then {"ops"} else {"ops", "idempotency_key"}
  {
  }
}
