/**
  `QueryBuilder`: conditions and settings collected call by call, and the request built
  from them.

  The conditions are a Go slice: a backing array and a length.  `append` writes into the
  backing array while there is room, so a payload built earlier shares storage with the
  builder that goes on growing.
*/
module QueryBuilding {
  import opened Values
  import opened CellFlattening
  import opened Conditions
  import opened Network
  import Routes

  /** A slice handed out: the first `len` elements of `buf`. */
  datatype View = View(buf: array<Value>, len: nat)

  /** The outcome of posting a query: no body at all, an empty body, a body that does not
      decode, or a document. */
  datatype Answer =
    | PostFailed(error: ClientError)
    | EmptyBody
    | Unreadable
    | Document(rows: Option<seq<Row>>, truncated: bool)

  datatype Call =
    | Where(condType: string, normalized: Row)
    | Projection(columns: Option<seq<int64>>)
    | Limit(limit: int64)
    | Offset(offset: int64)
    | Execute(answer: Answer)

  // ---- What a sequence of calls amounts to ----

  function Condition(condType: string, normalized: Row): Value {
    Object(map[condType := Object(normalized)])
  }

  function ConditionsOf(trace: seq<Call>): seq<Value> {
    if trace == [] then []
    else
      var last := trace[|trace| - 1];
      ConditionsOf(trace[..|trace| - 1]) + if last.Where? then [Condition(last.condType, last.normalized)] else []
  }

  /** The kinds of setting a call can change. */
  datatype Setting = Columns | MaxRows | Skipped | Flag

  /** What a call sets, and to which value. */
  datatype Change = Change(setting: Setting, columns: Option<seq<int64>>, number: int64, flag: bool)

  function ChangeOf(call: Call): Option<Change> {
    match call
    case Where(_, _) => None
    case Projection(columns) => Some(Change(Columns, columns, 0, false))
    case Limit(n) => Some(Change(MaxRows, None, n, false))
    case Offset(n) => Some(Change(Skipped, None, n, false))
    case Execute(EmptyBody) => Some(Change(Flag, None, 0, false))
    case Execute(Document(_, truncated)) => Some(Change(Flag, None, 0, truncated))
    case Execute(_) => None
  }

  predicate Changes(call: Call, setting: Setting) {
    ChangeOf(call).Some? && ChangeOf(call).value.setting == setting
  }

  /** The last change made to a setting. */
  function LastChange(trace: seq<Call>, setting: Setting): Option<Change> {
    if trace == [] then None
    else
      var last := trace[|trace| - 1];
      if Changes(last, setting) then ChangeOf(last) else LastChange(trace[..|trace| - 1], setting)
  }

  function ColumnsOf(trace: seq<Call>): Option<seq<int64>> {
    match LastChange(trace, Columns)
    case Some(change) => change.columns
    case None => None
  }

  function NumberOf(trace: seq<Call>, setting: Setting): Option<int64> {
    match LastChange(trace, setting)
    case Some(change) => Some(change.number)
    case None => None
  }

  function TruncatedBy(trace: seq<Call>): bool {
    match LastChange(trace, Flag)
    case Some(change) => change.flag
    case None => false
  }

  function Numbers(ids: seq<int64>): seq<Value> {
    seq(|ids|, i requires 0 <= i < |ids| => Number(ids[i]))
  }

  /** The request document with the given settings. */
  function QueryDocument(table: string, conditions: seq<Value>, columns: Option<seq<int64>>,
                         limit: Option<int64>, offset: Option<int64>): Value {
    var fields: Row := map["table" := Text(table)];
    var fields := if conditions != [] then fields["conditions" := Array(conditions)] else fields;
    var fields := if columns.Some? then fields["projection" := Array(Numbers(columns.value))] else fields;
    var fields := if limit.Some? then fields["limit" := Number(limit.value)] else fields;
    Object(if offset.Some? then fields["offset" := Number(offset.value)] else fields)
  }

  /** The request a sequence of calls builds. */
  function QueryOf(table: string, trace: seq<Call>): Value {
    QueryDocument(table, ConditionsOf(trace), ColumnsOf(trace), NumberOf(trace, MaxRows), NumberOf(trace, Skipped))
  }

  // ---- The builder ----

  /** What `Build` returns; the conditions are shared, not copied. */
  datatype Payload = Payload(
    table: string, conditions: Option<View>, projection: Option<seq<int64>>,
    limit: Option<int64>, offset: Option<int64>)

  predicate InBounds(p: Payload) {
    p.conditions.Some? ==> 0 < p.conditions.value.len <= p.conditions.value.buf.Length
  }

  /** The document a payload encodes to when it is read now. */
  function Render(p: Payload): Value
    requires InBounds(p)
    reads if p.conditions.Some? then {p.conditions.value.buf} else {}
  {
    QueryDocument(p.table, if p.conditions.None? then [] else p.conditions.value.buf[..p.conditions.value.len],
                  p.projection, p.limit, p.offset)
  }

  /** A payload handed out, and the document it encoded to at that time. */
  datatype Loan = Loan(payload: Payload, document: Value)

  /** The client a query is sent through, and the requests it has sent. */
  class QueryClient {
    const baseURL: string
    var requests: seq<(string, Value)>

    constructor (url: string)
      ensures baseURL == Routes.BaseURL(url) && requests == []
    {
      baseURL, requests := Routes.BaseURL(url), [];
    }

    method Post(path: string, document: Value)
      modifies this
      ensures requests == old(requests) + [(Routes.RequestURL(baseURL, path), document)]
    {
      requests := requests + [(baseURL + "/" + Routes.TrimLeft(path), document)];
    }
  }

  /** A larger backing array holding the same elements. */
  method Grow(buf: array<Value>, len: nat, capacity: nat) returns (grown: array<Value>)
    requires len <= buf.Length && len <= capacity
    ensures fresh(grown) && grown.Length == capacity && grown[..len] == buf[..len]
  {
    grown := new Value[capacity];
    var i := 0;
    while i < len
      invariant 0 <= i <= len
      invariant grown[..i] == buf[..i]
    {
      grown[i] := buf[i];
      i := i + 1;
    }
  }

  class QueryBuilder {
    const client: QueryClient
    const table: string
    var conditions: array<Value>
    var count: nat
    var projection: Option<seq<int64>>
    var limit: Option<int64>
    var offset: Option<int64>
    var lastTrunc: bool
    ghost var trace: seq<Call>
    ghost var loans: seq<Loan>

    ghost function Shared(): set<object>
      reads this
    {
      set loan | loan in loans && loan.payload.conditions.Some? :: loan.payload.conditions.value.buf
    }

    /** The fields are what the calls so far amount to, and every payload ever handed out
        still encodes to the document it encoded to then. */
    ghost predicate Valid()
      reads this, conditions, Shared()
    {
      && count <= conditions.Length
      && conditions[..count] == ConditionsOf(trace)
      && projection == ColumnsOf(trace)
      && limit == NumberOf(trace, MaxRows)
      && offset == NumberOf(trace, Skipped)
      && lastTrunc == TruncatedBy(trace)
      && forall loan | loan in loans :: Intact(loan)
    }

    ghost predicate Intact(loan: Loan)
      requires loan in loans
      reads this, Shared()
    {
      && InBounds(loan.payload)
      && (loan.payload.conditions.Some? && loan.payload.conditions.value.buf == conditions ==>
            loan.payload.conditions.value.len <= count)
      && Render(loan.payload) == loan.document
    }

    constructor (client: QueryClient, table: string)
      ensures Valid() && fresh(conditions) && trace == [] && loans == []
      ensures this.client == client && this.table == table
    {
      this.client, this.table := client, table;
      conditions, count := new Value[0], 0;
      projection, limit, offset, lastTrunc := None, None, None, false;
      trace, loans := [], [];
    }

    /** `spare` is the extra room the runtime allocates when the slice has to grow. */
    method Where(condType: string, params: Row, order: seq<string>, spare: nat)
      requires Valid() && IsIteration(order, params)
      modifies this, conditions
      ensures Valid() && loans == old(loans)
      ensures conditions == old(conditions) || fresh(conditions)
      ensures trace == old(trace) + [Call.Where(condType, NormalizeVisiting(condType, params, order))]
    {
      hide QueryDocument, LastChange, ConditionsOf, NormalizeVisiting;
      var normalized := NormalizeCondition(condType, params, order);
      var c := Condition(condType, normalized);
      if count == conditions.Length {
        conditions := Grow(conditions, count, count + 1 + spare);
      }
      conditions[count] := c;
      count := count + 1;
      trace := trace + [Call.Where(condType, normalized)];
      TraceSnoc(old(trace), Call.Where(condType, normalized));
      assert conditions[..count] == old(conditions[..count]) + [c];
      forall loan | loan in loans ensures Intact(loan) {
        assert old(Intact(loan));
        if loan.payload.conditions.Some? {
          var View(buf, len) := loan.payload.conditions.value;
          assert buf[..len] == old(buf[..len]);
        }
      }
    }

    method Projection(columnIDs: Option<seq<int64>>)
      requires Valid()
      modifies this
      ensures Valid() && loans == old(loans) && conditions == old(conditions)
      ensures trace == old(trace) + [Call.Projection(columnIDs)]
    {
      hide QueryDocument, LastChange, ConditionsOf;
      projection := columnIDs;
      trace := trace + [Call.Projection(columnIDs)];
      TraceSnoc(old(trace), Call.Projection(columnIDs));
    }

    method Limit(n: int64)
      requires Valid()
      modifies this
      ensures Valid() && loans == old(loans) && conditions == old(conditions)
      ensures trace == old(trace) + [Call.Limit(n)]
    {
      hide QueryDocument, LastChange, ConditionsOf;
      limit := Some(n);
      trace := trace + [Call.Limit(n)];
      TraceSnoc(old(trace), Call.Limit(n));
    }

    method Offset(n: int64)
      requires Valid()
      modifies this
      ensures Valid() && loans == old(loans) && conditions == old(conditions)
      ensures trace == old(trace) + [Call.Offset(n)]
    {
      hide QueryDocument, LastChange, ConditionsOf;
      offset := Some(n);
      trace := trace + [Call.Offset(n)];
      TraceSnoc(old(trace), Call.Offset(n));
    }

    method Build() returns (payload: Payload)
      requires Valid()
      modifies this`loans
      ensures Valid() && loans == old(loans) + [Loan(payload, QueryOf(table, trace))]
      ensures InBounds(payload) && Render(payload) == QueryOf(table, trace)
    {
      payload := Payload.Payload(table, if count > 0 then Some(View(conditions, count)) else None, projection, limit, offset);
      loans := loans + [Loan(payload, QueryOf(table, trace))];
    }

    /** Builds the request and posts it. */
    method Send()
      requires Valid()
      modifies this`loans, client
      ensures Valid()
      ensures client.requests ==
              old(client.requests) + [(Routes.RequestURL(client.baseURL, "/kit/query"), QueryOf(table, trace))]
      ensures exists payload :: loans == old(loans) + [Loan(payload, QueryOf(table, trace))]
    {
      hide QueryOf, QueryDocument, ConditionsOf, ColumnsOf, NumberOf, TruncatedBy;
      var payload := Build();
      client.Post("/kit/query", Render(payload));
    }

    /** Takes the flag from an answer that decodes. */
    method Record(answer: Answer)
      requires Valid()
      modifies this`lastTrunc, this`trace
      ensures Valid() && trace == old(trace) + [Call.Execute(answer)]
    {
      hide QueryOf, QueryDocument, ConditionsOf, ColumnsOf, NumberOf, TruncatedBy;
      trace := trace + [Call.Execute(answer)];
      ExecuteSnoc(old(trace), answer);
      match answer {
        case PostFailed(_) =>
        case Unreadable =>
        case EmptyBody => lastTrunc := false;
        case Document(_, truncated) => lastTrunc := truncated;
      }
    }

    method Execute(answer: Answer) returns (r: Result<seq<Row>>)
      requires Valid()
      modifies this, client
      ensures Valid() && conditions == old(conditions)
      ensures trace == old(trace) + [Call.Execute(answer)]
      ensures client.requests ==
              old(client.requests) + [(Routes.RequestURL(client.baseURL, "/kit/query"), QueryOf(table, old(trace)))]
      ensures exists payload :: loans == old(loans) + [Loan(payload, QueryOf(table, old(trace)))]
      ensures r == match answer
                   case PostFailed(e) => Err(e)
                   case Unreadable => Err(Undecodable)
                   case EmptyBody => Ok([])
                   case Document(rows, _) => Ok(if rows.None? then [] else rows.value)
    {
      Send();
      Record(answer);
      r := match answer
        case PostFailed(e) => Err(e)
        case Unreadable => Err(Undecodable)
        case EmptyBody => Ok([])
        case Document(rows, _) => Ok(if rows.None? then [] else rows.value);
    }

    /** The flag of the last Execute that decoded; false before any did. */
    function Truncated(): (truncated: bool)
      requires Valid()
      reads this, conditions, Shared()
      ensures truncated == TruncatedBy(trace)
    {
      lastTrunc
    }
  }

  lemma TraceSnoc(trace: seq<Call>, call: Call)
    ensures ConditionsOf(trace + [call]) == ConditionsOf(trace)
         + if call.Where? then [Condition(call.condType, call.normalized)] else []
    ensures forall setting :: LastChange(trace + [call], setting) ==
              if Changes(call, setting) then ChangeOf(call) else LastChange(trace, setting)
  {
    assert (trace + [call])[..|trace|] == trace;
  }

  /** An Execute sets nothing but the flag, and that only when its answer decodes. */
  lemma ExecuteSnoc(trace: seq<Call>, answer: Answer)
    ensures var trace' := trace + [Execute(answer)];
            && ConditionsOf(trace') == ConditionsOf(trace) && ColumnsOf(trace') == ColumnsOf(trace)
            && (forall setting | setting != Flag :: NumberOf(trace', setting) == NumberOf(trace, setting))
            && TruncatedBy(trace') == match answer
                                      case EmptyBody => false
                                      case Document(_, truncated) => truncated
                                      case _ => TruncatedBy(trace)
  {
    TraceSnoc(trace, Execute(answer));
    hide ConditionsOf, LastChange;
  }

  // ---- Reading a request back ----

  /** What a query request says; each setting is `None` when its field is absent. */
  datatype Request = Request(
    table: string, conditions: seq<(string, Row)>, columns: Option<seq<int64>>,
    limit: Option<int64>, offset: Option<int64>)

  /** One externally tagged condition: its type and its parameters. */
  ghost function ReadCondition(c: Value): Option<(string, Row)> {
    if c.Object? && exists condType :: c.fields.Keys == {condType} && c.fields[condType].Object? then
      var condType :| c.fields.Keys == {condType} && c.fields[condType].Object?;
      Some((condType, c.fields[condType].fields))
    else None
  }

  ghost function ReadConditions(cs: seq<Value>): Option<seq<(string, Row)>> {
    if cs == [] then Some([])
    else
      match (ReadCondition(cs[0]), ReadConditions(cs[1..]))
      case (Some(c), Some(rest)) => Some([c] + rest)
      case _ => None
  }

  function ReadIds(ids: seq<Value>): Option<seq<int64>> {
    if ids == [] then Some([])
    else
      match (ToInt64(ids[0]), ReadIds(ids[1..]))
      case (Some(id), Some(rest)) => Some([id] + rest)
      case _ => None
  }

  ghost function ConditionsField(fields: Row): Option<seq<(string, Row)>> {
    if "conditions" !in fields then Some([])
    else if fields["conditions"].Array? && fields["conditions"].elems != [] then ReadConditions(fields["conditions"].elems)
    else None
  }

  function ProjectionField(fields: Row): Option<Option<seq<int64>>> {
    if "projection" !in fields then Some(None)
    else if !fields["projection"].Array? then None
    else
      match ReadIds(fields["projection"].elems)
      case Some(ids) => Some(Some(ids))
      case None => None
  }

  function NumberField(fields: Row, name: string): Option<Option<int64>> {
    if name !in fields then Some(None)
    else
      match ToInt64(fields[name])
      case Some(n) => Some(Some(n))
      case None => None
  }

  /** Reads a request document, and rejects one with fields it does not know. */
  ghost function ReadRequest(document: Value): Option<Request> {
    if !document.Object? || !(document.fields.Keys <= {"table", "conditions", "projection", "limit", "offset"})
       || "table" !in document.fields || !document.fields["table"].Text? then None
    else
      var fields := document.fields;
      match (ConditionsField(fields), ProjectionField(fields), NumberField(fields, "limit"), NumberField(fields, "offset"))
      case (Some(cs), Some(columns), Some(limit), Some(offset)) =>
        Some(Request(fields["table"].s, cs, columns, limit, offset))
      case _ => None
  }

  // ---- What the calls asked for, call by call ----

  /** The conditions in the order they were added. */
  function WheresOf(trace: seq<Call>): seq<(string, Row)> {
    if trace == [] then []
    else (if trace[0].Where? then [(trace[0].condType, trace[0].normalized)] else []) + WheresOf(trace[1..])
  }

  /** The last `Limit` asked for `limit`; `None` if there was none. */
  ghost predicate LastLimit(trace: seq<Call>, limit: Option<int64>) {
    match limit
    case None => forall i | 0 <= i < |trace| :: !trace[i].Limit?
    case Some(n) =>
      exists i :: 0 <= i < |trace| && trace[i] == Limit(n) && forall j | i < j < |trace| :: !trace[j].Limit?
  }

  ghost predicate LastOffset(trace: seq<Call>, offset: Option<int64>) {
    match offset
    case None => forall i | 0 <= i < |trace| :: !trace[i].Offset?
    case Some(n) =>
      exists i :: 0 <= i < |trace| && trace[i] == Offset(n) && forall j | i < j < |trace| :: !trace[j].Offset?
  }

  /** The last `Projection` asked for `columns`; `None` if it asked for all of them or there
      was none. */
  ghost predicate LastProjection(trace: seq<Call>, columns: Option<seq<int64>>) {
    || (columns == None && forall i | 0 <= i < |trace| :: !trace[i].Projection?)
    || exists i :: 0 <= i < |trace| && trace[i] == Projection(columns) && forall j | i < j < |trace| :: !trace[j].Projection?
  }

  /** An `Execute` whose answer decodes, a missing body included. */
  predicate Decodes(call: Call) {
    call.Execute? && (call.answer.Document? || call.answer.EmptyBody?)
  }

  /** The last change, by its place among the calls. */
  lemma {:induction false} LastChangeAt(trace: seq<Call>, setting: Setting) returns (i: nat)
    ensures i <= |trace| && forall j | i < j < |trace| :: !Changes(trace[j], setting)
    ensures i < |trace| ==> Changes(trace[i], setting) && LastChange(trace, setting) == ChangeOf(trace[i])
    ensures i == |trace| ==> LastChange(trace, setting) == None && forall j | 0 <= j < |trace| :: !Changes(trace[j], setting)
  {
    hide Changes, ChangeOf;
    if trace == [] {
      i := 0;
    } else {
      var n := |trace| - 1;
      if Changes(trace[n], setting) {
        i := n;
      } else {
        i := LastChangeAt(trace[..n], setting);
        if i == n {
          i := |trace|;
        }
      }
    }
  }

  lemma NumbersAsked(trace: seq<Call>)
    ensures LastLimit(trace, NumberOf(trace, MaxRows)) && LastOffset(trace, NumberOf(trace, Skipped))
  {
    hide LastChange;
    var i := LastChangeAt(trace, MaxRows);
    var k := LastChangeAt(trace, Skipped);
    assert forall j | 0 <= j < |trace| :: Changes(trace[j], MaxRows) <==> trace[j].Limit?;
    assert forall j | 0 <= j < |trace| :: Changes(trace[j], Skipped) <==> trace[j].Offset?;
    assert i < |trace| ==> trace[i] == Limit(NumberOf(trace, MaxRows).value);
    assert k < |trace| ==> trace[k] == Offset(NumberOf(trace, Skipped).value);
  }

  lemma ColumnsAsked(trace: seq<Call>)
    ensures LastProjection(trace, ColumnsOf(trace))
  {
    hide LastChange;
    var i := LastChangeAt(trace, Columns);
    assert forall j | 0 <= j < |trace| :: Changes(trace[j], Columns) <==> trace[j].Projection?;
    assert i < |trace| ==> trace[i] == Projection(ColumnsOf(trace));
  }

  /** The flag is set exactly when the last answer that decoded was a truncated document. */
  lemma TruncatedMeaning(trace: seq<Call>)
    ensures TruncatedBy(trace) <==>
            exists i :: 0 <= i < |trace| && Decodes(trace[i]) && trace[i].answer.Document? && trace[i].answer.truncated
                        && forall j | i < j < |trace| :: !Decodes(trace[j])
  {
    hide LastChange;
    var i := LastChangeAt(trace, Flag);
    assert forall j | 0 <= j < |trace| :: Changes(trace[j], Flag) <==> Decodes(trace[j]);
    hide ChangeOf;
    if k :| 0 <= k < |trace| && Decodes(trace[k]) && forall j | k < j < |trace| :: !Decodes(trace[j]) {
      assert k == i;
    }
  }

  lemma ReadConditionBack(condType: string, normalized: Row)
    ensures ReadCondition(Condition(condType, normalized)) == Some((condType, normalized))
  {
    var c := Condition(condType, normalized);
    assert c.fields.Keys == {condType};
    forall k | c.fields.Keys == {k} ensures k == condType {
      assert k in c.fields.Keys;
    }
  }

  function TaggedAll(wheres: seq<(string, Row)>): seq<Value> {
    if wheres == [] then [] else [Condition(wheres[0].0, wheres[0].1)] + TaggedAll(wheres[1..])
  }

  lemma TaggedPrepend(condType: string, normalized: Row, wheres: seq<(string, Row)>)
    ensures TaggedAll([(condType, normalized)] + wheres) == [Condition(condType, normalized)] + TaggedAll(wheres)
  {
    assert ([(condType, normalized)] + wheres)[1..] == wheres;
  }

  /** The conditions collected are those asked for, tagged one by one. */
  lemma {:induction false} ConditionsAreWheres(trace: seq<Call>)
    ensures ConditionsOf(trace) == TaggedAll(WheresOf(trace))
  {
    if trace != [] {
      var first, rest := trace[..1], trace[1..];
      assert trace == first + rest;
      TraceAppend(first, rest, Flag);
      assert ConditionsOf([]) == [];
      TraceSnoc([], trace[0]);
      assert [] + [trace[0]] == first;
      ConditionsAreWheres(rest);
      hide Condition, ConditionsOf, TaggedAll;
      if trace[0].Where? {
        TaggedPrepend(trace[0].condType, trace[0].normalized, WheresOf(rest));
      } else {
        assert [] + WheresOf(rest) == WheresOf(rest) && [] + ConditionsOf(rest) == ConditionsOf(rest);
      }
    }
  }

  lemma {:induction false} TagsReadBack(wheres: seq<(string, Row)>)
    ensures ReadConditions(TaggedAll(wheres)) == Some(wheres)
  {
    if wheres != [] {
      ReadConditionBack(wheres[0].0, wheres[0].1);
      hide Condition, ReadCondition;
      TagsReadBack(wheres[1..]);
      assert wheres == [wheres[0]] + wheres[1..];
    }
  }

  lemma {:induction false} IdsReadBack(ids: seq<int64>)
    ensures ReadIds(Numbers(ids)) == Some(ids)
  {
    if ids != [] {
      assert Numbers(ids)[1..] == Numbers(ids[1..]);
      IdsReadBack(ids[1..]);
      assert ids == [ids[0]] + ids[1..];
    }
  }

  lemma DocumentFields(table: string, conditions: seq<Value>, columns: Option<seq<int64>>,
                       limit: Option<int64>, offset: Option<int64>)
    ensures var document := QueryDocument(table, conditions, columns, limit, offset);
            && document.Object? && document.fields.Keys <= {"table", "conditions", "projection", "limit", "offset"}
            && "table" in document.fields && document.fields["table"] == Text(table)
            && (if conditions == [] then "conditions" !in document.fields
                else "conditions" in document.fields && document.fields["conditions"] == Array(conditions))
            && (if columns == None then "projection" !in document.fields
                else "projection" in document.fields && document.fields["projection"] == Array(Numbers(columns.value)))
            && (if limit == None then "limit" !in document.fields
                else "limit" in document.fields && document.fields["limit"] == Number(limit.value))
            && (if offset == None then "offset" !in document.fields
                else "offset" in document.fields && document.fields["offset"] == Number(offset.value))
  {
    hide Numbers;
  }

  lemma DocumentReadsBack(table: string, conditions: seq<Value>, columns: Option<seq<int64>>,
                          limit: Option<int64>, offset: Option<int64>)
    requires ReadConditions(conditions).Some?
    ensures ReadRequest(QueryDocument(table, conditions, columns, limit, offset))
         == Some(Request(table, ReadConditions(conditions).value, columns, limit, offset))
  {
    if columns.Some? {
      IdsReadBack(columns.value);
    }
    DocumentFields(table, conditions, columns, limit, offset);
    hide QueryDocument, ReadIds, Numbers, ReadConditions;
    var fields := QueryDocument(table, conditions, columns, limit, offset).fields;
    assert ConditionsField(fields) == ReadConditions(conditions) by { EmptyReads(); }
    assert ProjectionField(fields) == Some(columns);
    assert NumberField(fields, "limit") == Some(limit);
    assert NumberField(fields, "offset") == Some(offset);
    hide ConditionsField, ProjectionField, NumberField;
  }

  lemma EmptyReads()
    ensures ReadConditions([]) == Some([])
  {
  }

  /** The request built says exactly what the calls asked for: every condition in call order,
      and the last column list, limit and offset, each under its own name. */
  lemma RequestReadsBack(table: string, trace: seq<Call>)
    ensures var request := ReadRequest(QueryOf(table, trace));
            && request.Some? && request.value.table == table
            && request.value.conditions == WheresOf(trace)
            && LastProjection(trace, request.value.columns)
            && LastLimit(trace, request.value.limit) && LastOffset(trace, request.value.offset)
  {
    ConditionsAreWheres(trace);
    TagsReadBack(WheresOf(trace));
    NumbersAsked(trace);
    ColumnsAsked(trace);
    hide QueryDocument, ReadRequest, LastLimit, LastOffset, LastProjection, ColumnsOf, NumberOf, ConditionsOf, TaggedAll, WheresOf, ReadConditions;
    DocumentReadsBack(table, ConditionsOf(trace), ColumnsOf(trace), NumberOf(trace, MaxRows), NumberOf(trace, Skipped));
  }

  lemma {:induction false} SomeWhere(trace: seq<Call>)
    ensures WheresOf(trace) != [] <==> exists i :: 0 <= i < |trace| && trace[i].Where?
  {
    if trace != [] {
      SomeWhere(trace[1..]);
      if i :| 0 <= i < |trace| && trace[i].Where? {
        assert i > 0 ==> trace[1..][i - 1] == trace[i];
      }
    }
  }

  /** A field is present exactly when some call set it. */
  lemma FieldsPresent(table: string, trace: seq<Call>)
    ensures var document := QueryOf(table, trace);
            && document.Object? && "table" in document.fields
            && ("conditions" in document.fields <==> exists i :: 0 <= i < |trace| && trace[i].Where?)
            && ("projection" in document.fields <==> !LastProjection(trace, None))
            && ("limit" in document.fields <==> exists i :: 0 <= i < |trace| && trace[i].Limit?)
            && ("offset" in document.fields <==> exists i :: 0 <= i < |trace| && trace[i].Offset?)
            && document.fields.Keys <= {"table", "conditions", "projection", "limit", "offset"}
  {
    RequestReadsBack(table, trace);
    SomeWhere(trace);
    LastIsUnique(trace);
    hide QueryOf, LastProjection, LastLimit, LastOffset, WheresOf;
    var fields := QueryOf(table, trace).fields;
    assert "conditions" in fields <==> ConditionsField(fields).value != [];
    assert LastLimit(trace, None) <==> "limit" !in fields;
    assert LastOffset(trace, None) <==> "offset" !in fields;
    NoneMeansNever(trace);
  }

  lemma NoneMeansNever(trace: seq<Call>)
    ensures LastLimit(trace, None) <==> !exists i :: 0 <= i < |trace| && trace[i].Limit?
    ensures LastOffset(trace, None) <==> !exists i :: 0 <= i < |trace| && trace[i].Offset?
  {
  }

  /** No two settings are the last ones of the same calls. */
  lemma LastIsUnique(trace: seq<Call>)
    ensures forall a, b | LastLimit(trace, a) && LastLimit(trace, b) :: a == b
    ensures forall a, b | LastOffset(trace, a) && LastOffset(trace, b) :: a == b
    ensures forall a, b | LastProjection(trace, a) && LastProjection(trace, b) :: a == b
  {
  }

  /** Two builders build the same request exactly when their calls asked for the same. */
  lemma SameRequestMeaning(table: string, s: seq<Call>, table': string, t: seq<Call>)
    ensures QueryOf(table, s) == QueryOf(table', t) <==>
            && table == table' && WheresOf(s) == WheresOf(t)
            && (forall columns :: LastProjection(s, columns) <==> LastProjection(t, columns))
            && (forall n :: LastLimit(s, n) <==> LastLimit(t, n))
            && (forall n :: LastOffset(s, n) <==> LastOffset(t, n))
  {
    RequestReadsBack(table, s);
    RequestReadsBack(table', t);
    LastIsUnique(s);
    LastIsUnique(t);
    NumbersAsked(s);
    NumbersAsked(t);
    ColumnsAsked(s);
    ColumnsAsked(t);
    ConditionsAreWheres(s);
    ConditionsAreWheres(t);
    hide QueryDocument, ReadRequest, LastLimit, LastOffset, LastProjection, ColumnsOf, NumberOf, ConditionsOf, TaggedAll, WheresOf;
    if QueryOf(table, s) == QueryOf(table', t) {
      hide QueryOf;
      var r := ReadRequest(QueryOf(table, s)).value;
      assert LastProjection(s, r.columns) && LastProjection(t, r.columns);
      assert LastLimit(s, r.limit) && LastLimit(t, r.limit);
      assert LastOffset(s, r.offset) && LastOffset(t, r.offset);
    }
  }

  // ---- Laws of the builder ----

  lemma {:induction false} TraceAppend(a: seq<Call>, b: seq<Call>, setting: Setting)
    ensures ConditionsOf(a + b) == ConditionsOf(a) + ConditionsOf(b)
    ensures LastChange(a + b, setting) == if LastChange(b, setting).Some? then LastChange(b, setting) else LastChange(a, setting)
  {
    if b == [] {
      assert a + b == a;
    } else {
      var front := b[..|b| - 1];
      TraceAppend(a, front, setting);
      assert (a + b)[..|a + b| - 1] == a + front;
    }
  }

  /** Everything observable about a builder. */
  ghost predicate Alike(s: seq<Call>, t: seq<Call>) {
    ConditionsOf(s) == ConditionsOf(t) && forall setting :: LastChange(s, setting) == LastChange(t, setting)
  }

  lemma AlikeInContext(a: seq<Call>, s: seq<Call>, t: seq<Call>, b: seq<Call>)
    requires Alike(s, t)
    ensures Alike(a + s + b, a + t + b)
  {
    forall setting ensures LastChange(a + s + b, setting) == LastChange(a + t + b, setting)
                        && ConditionsOf(a + s + b) == ConditionsOf(a + t + b)
    {
      TraceAppend(a, s, setting);
      TraceAppend(a, t, setting);
      TraceAppend(a + s, b, setting);
      TraceAppend(a + t, b, setting);
    }
    assert LastChange(a + s + b, Flag) == LastChange(a + t + b, Flag);
  }

  lemma AlikeBuildsAlike(table: string, s: seq<Call>, t: seq<Call>)
    requires Alike(s, t)
    ensures QueryOf(table, s) == QueryOf(table, t) && TruncatedBy(s) == TruncatedBy(t)
  {
  }

  lemma PairSwaps(x: Call, y: Call)
    requires !(x.Where? && y.Where?)
    requires forall setting :: !(Changes(x, setting) && Changes(y, setting))
    ensures Alike([x, y], [y, x])
  {
    TraceSnoc([x], y);
    TraceSnoc([y], x);
    TraceSnoc([], x);
    TraceSnoc([], y);
    assert [] + [x] == [x] && [] + [y] == [y];
    assert [x] + [y] == [x, y] && [y] + [x] == [y, x];
    hide ConditionsOf, LastChange, ChangeOf;
    forall setting ensures LastChange([x, y], setting) == LastChange([y, x], setting) {
      assert !(Changes(x, setting) && Changes(y, setting));
    }
  }

  /** Calls that touch different things commute: the order of setters among themselves, and
      between setters and conditions, does not matter. */
  lemma IndependentCallsCommute(table: string, a: seq<Call>, x: Call, y: Call, b: seq<Call>)
    requires !(x.Where? && y.Where?)
    requires forall setting :: !(Changes(x, setting) && Changes(y, setting))
    ensures QueryOf(table, a + [x, y] + b) == QueryOf(table, a + [y, x] + b)
    ensures TruncatedBy(a + [x, y] + b) == TruncatedBy(a + [y, x] + b)
  {
    hide QueryOf, TruncatedBy;
    PairSwaps(x, y);
    AlikeInContext(a, [x, y], [y, x], b);
    AlikeBuildsAlike(table, a + [x, y] + b, a + [y, x] + b);
  }

  /** The last setter wins: an earlier call of the same setter leaves no trace. */
  lemma LastSetterWins(table: string, a: seq<Call>, x: Call, b: seq<Call>, y: Call, c: seq<Call>, setting: Setting)
    requires Changes(x, setting) && Changes(y, setting)
    ensures QueryOf(table, a + ([x] + b + [y]) + c) == QueryOf(table, a + (b + [y]) + c)
    ensures TruncatedBy(a + ([x] + b + [y]) + c) == TruncatedBy(a + (b + [y]) + c)
  {
    var s, t := [x] + b + [y], b + [y];
    assert s == [x] + t;
    TraceSnoc([], x);
    assert [] + [x] == [x];
    TraceSnoc(b, y);
    forall any ensures LastChange(s, any) == LastChange(t, any) && ConditionsOf(s) == ConditionsOf(t) {
      TraceAppend([x], t, any);
    }
    assert LastChange(s, setting) == LastChange(t, setting);
    AlikeInContext(a, s, t, c);
    AlikeBuildsAlike(table, a + s + c, a + t + c);
  }

  /** An Execute that failed, or whose reply did not decode, changes neither the next request
      nor the truncation flag. */
  lemma FailedExecuteLeavesNoTrace(table: string, a: seq<Call>, answer: Answer, b: seq<Call>)
    requires answer.PostFailed? || answer.Unreadable?
    ensures QueryOf(table, a + [Execute(answer)] + b) == QueryOf(table, a + [] + b)
    ensures TruncatedBy(a + [Execute(answer)] + b) == TruncatedBy(a + [] + b)
  {
    TraceSnoc([], Execute(answer));
    assert [] + [Execute(answer)] == [Execute(answer)];
    assert Alike([Execute(answer)], []);
    AlikeInContext(a, [Execute(answer)], [], b);
    AlikeBuildsAlike(table, a + [Execute(answer)] + b, a + [] + b);
  }
}
