/**
  The far side of the client: the daemon's promise about idempotency keys, and a network
  that may lose, delay and reorder requests, and lose or replace replies.

  The daemon itself is not part of the repository.  `Handle` is what its documentation
  promises: a known key with an equal payload replays the first response; a known key with
  another payload is answered 409 and has no effect; otherwise the whole batch is applied
  or, at the daemon's discretion, refused without effect.
*/
module Network {
  import opened Values
  import opened Payload
  import opened Errors

  type SuccessStatus = s: int | 200 <= s < 300 witness 200
  type ErrorStatus = s: int | s < 200 || s >= 300 witness 500
  type ServerStatus = s: int | 500 <= s < 600 witness 500

  datatype Reply = Reply(status: int, body: Body)

  /** One batch applied to the database, and the reply it was answered with. */
  datatype Application = Application(payload: Value, reply: Reply)

  /** The daemon: every batch applied so far, oldest first, and the first use of each key. */
  datatype Daemon = Daemon(applied: seq<Application>, bound: map<string, Application>)

  /** The daemon's discretion over one request: refuse it outright, or serve it; `mismatch`
      is the body of the 409 should the key turn out to belong to another payload. */
  datatype Verdict =
    | Refuse(refusal: ErrorStatus, reason: Body)
    | Serve(status: SuccessStatus, body: Body, mismatch: Body)

  function Handle(d: Daemon, payload: Value, v: Verdict): (Daemon, Reply) {
    match v
    case Refuse(status, body) => (d, Reply(status, body))
    case Serve(status, body, mismatch) =>
      var key := KeyOf(payload);
      if key != "" && key in d.bound then
        if d.bound[key].payload == payload then (d, d.bound[key].reply)
        else (d, Reply(409, mismatch))
      else
        var a := Application(payload, Reply(status, body));
        (Daemon(d.applied + [a], if key == "" then d.bound else d.bound[key := a]), a.reply)
  }

  // ---- What the client sees ----

  /** Why a call failed.  Only a response and an oversized body wrap one of the sentinels. */
  datatype ClientError =
    | TxnCommitted
    | Transport
    | TooLarge
    | Undecodable
    | Response(failure: Failure)

  /** `errors.Is(err, sentinel)`. */
  predicate Is(err: ClientError, sentinel: Sentinel) {
    match err
    case Response(failure) => failure.sentinel == Some(sentinel)
    case TooLarge => sentinel == Query
    case TxnCommitted => false
    case Transport => false
    case Undecodable => false
  }

  datatype Result<+T> = Ok(value: T) | Err(error: ClientError)

  /** The results array of a transaction response. */
  function DecodeResults(body: Body): Result<seq<Row>> {
    if TrimSpace(body.text) == "" then Ok([])
    else
      match body.txn
      case None => Err(Undecodable)
      case Some(None) => Ok([])
      case Some(Some(results)) => Ok(results)
  }

  /** `rows` are the results a transaction response holds: none if the body is blank or has no
      results array, else the array. */
  ghost predicate HoldsResults(body: Body, rows: seq<Row>) {
    if (forall i | 0 <= i < |body.text| :: IsSpace(body.text[i])) || body.txn == Some(None) then rows == []
    else body.txn == Some(Some(rows))
  }

  /** Decoding gives exactly the results the body holds, and fails exactly when it holds none. */
  lemma DecodeResultsMeaning(body: Body)
    ensures forall rows :: DecodeResults(body) == Ok(rows) <==> HoldsResults(body, rows)
    ensures DecodeResults(body) == Err(Undecodable) <==>
            body.txn == None && exists i | 0 <= i < |body.text| :: !IsSpace(body.text[i])
  {
    TrimSpaceEmpty(body.text);
    hide TrimSpace, IsSpace;
  }

  /** What a transaction response reads as: a blank one, and one without a results array, as no
      results; any other that decodes as its array. */
  ghost predicate ReadsAs(body: Body, result: Result<seq<Row>>) {
    if forall i | 0 <= i < |body.text| :: IsSpace(body.text[i]) then result == Ok([])
    else
      match body.txn
      case None => result == Err(Undecodable)
      case Some(None) => result == Ok([])
      case Some(Some(rows)) => result == Ok(rows)
  }

  lemma BodyReadsAs(body: Body)
    ensures ReadsAs(body, DecodeResults(body))
  {
    TrimSpaceEmpty(body.text);
    hide TrimSpace, IsSpace;
  }

  ghost function ReadReply(reply: Reply): Result<seq<Row>> {
    if 200 <= reply.status < 300 then DecodeResults(reply.body)
    else Err(Response(FailureFor(reply.status, reply.body)))
  }

  // ---- The network ----

  /** A body that is no transaction response: a proxy's error page, a truncated document. */
  type Page = b: Body | TrimSpace(b.text) != "" && b.txn == None witness Body("<html>", None, None, None)

  /** What becomes of the reply to a request the daemon handled.  An intermediary may answer
      in the daemon's place, with a server error or with a page. */
  datatype ReplyFate =
    | Received
    | Lost
    | Oversized
    | Garbled(status: SuccessStatus, page: Page)
    | Gateway(failure: ServerStatus, body: Body)

  /** A reply reads as a success with given results exactly when it is a 2xx whose body holds
      them. */
  lemma ReadReplyMeaning(reply: Reply)
    ensures forall rows :: ReadReply(reply) == Ok(rows) <==>
              200 <= reply.status < 300 && HoldsResults(reply.body, rows)
  {
    DecodeResultsMeaning(reply.body);
    hide DecodeResults, HoldsResults;
  }

  /** Which errors `errors.Is` finds a sentinel in. */
  lemma WhatErrorsWrap(e: ClientError, sentinel: Sentinel)
    ensures Is(e, sentinel) <==> (e == TooLarge && sentinel == Query)
                                 || (e.Response? && e.failure.sentinel == Some(sentinel))
  {
  }

  /** What becomes of one request: it never leaves or is dropped; the client gives up on it
      while it is still on its way; or the daemon handles it. */
  datatype Fate =
    | Unsent
    | Stranded
    | Delivered(verdict: Verdict, reply: ReplyFate)

  /** `posted` lists every request the client tried to send; `inFlight` those it gave up on
      that may still arrive. */
  datatype Net = Net(daemon: Daemon, posted: seq<Value>, inFlight: multiset<Value>)

  const EMPTY_NET := Net(Daemon([], map[]), [], multiset{})

  /** What comes back over the connection: nothing, more than the client will read, or a
      reply. */
  datatype Arrival = Nothing | Oversize | Got(reply: Reply)

  function ArrivalOf(reply: Reply, fate: ReplyFate): Arrival {
    match fate
    case Received => Got(reply)
    case Lost => Nothing
    case Oversized => Oversize
    case Garbled(status, page) => Got(Reply(status, page))
    case Gateway(status, body) => Got(Reply(status, body))
  }

  /** One POST of a transaction body, as the connection carries it. */
  function Carry(net: Net, payload: Value, fate: Fate): (Net, Arrival) {
    var posted := net.posted + [payload];
    match fate
    case Unsent => (net.(posted := posted), Nothing)
    case Stranded => (net.(posted := posted, inFlight := net.inFlight + multiset{payload}), Nothing)
    case Delivered(verdict, replyFate) =>
      var (daemon, reply) := Handle(net.daemon, payload, verdict);
      (net.(daemon := daemon, posted := posted), ArrivalOf(reply, replyFate))
  }

  ghost function ReadArrival(arrival: Arrival): Result<seq<Row>> {
    match arrival
    case Nothing => Err(Transport)
    case Oversize => Err(TooLarge)
    case Got(reply) => ReadReply(reply)
  }

  /** One POST of a transaction body, as the caller sees it. */
  ghost function Exchange(net: Net, payload: Value, fate: Fate): (Net, Result<seq<Row>>) {
    var (net', arrival) := Carry(net, payload, fate);
    (net', ReadArrival(arrival))
  }

  /** What the caller is told, fate by fate. */
  lemma WhatTheCallerIsTold(net: Net, payload: Value, fate: Fate)
    ensures var result := Exchange(net, payload, fate).1;
            match fate
            case Unsent => result == Err(Transport)
            case Stranded => result == Err(Transport)
            case Delivered(_, Lost) => result == Err(Transport)
            case Delivered(_, Oversized) => result == Err(TooLarge)
            case Delivered(_, Garbled(_, _)) => result == Err(Undecodable)
            case Delivered(_, Gateway(status, body)) => result == Err(Response(FailureFor(status, body)))
            case Delivered(verdict, Received) =>
              var Reply(status, body) := Handle(net.daemon, payload, verdict).1;
              if status < 200 || status >= 300 then result == Err(Response(FailureFor(status, body)))
              else && (forall rows :: result == Ok(rows) <==> HoldsResults(body, rows))
                   && (result.Ok? || result == Err(Undecodable))
  {
    if fate.Delivered? && fate.reply.Received? {
      DecodeResultsMeaning(Handle(net.daemon, payload, fate.verdict).1.body);
      hide Handle, HoldsResults, FailureFor, TrimSpace;
    } else {
      hide Handle, HoldsResults, FailureFor, TrimSpace;
    }
  }

  /** A request the client gave up on reaches the daemon after all; nobody reads the reply. */
  function LateArrival(net: Net, payload: Value, verdict: Verdict): Net {
    if payload in net.inFlight then
      net.(daemon := Handle(net.daemon, payload, verdict).0, inFlight := net.inFlight - multiset{payload})
    else net
  }

  /** A request given up on may still be applied when it arrives. */
  lemma StrandedMayArrive(net: Net, payload: Value, status: SuccessStatus, body: Body)
    requires KeyOf(payload) !in net.daemon.bound
    ensures var stranded := Exchange(net, payload, Stranded).0;
            var arrived := LateArrival(stranded, payload, Serve(status, body, body));
            && stranded.daemon == net.daemon
            && arrived.daemon.applied == net.daemon.applied + [Application(payload, Reply(status, body))]
            && arrived.inFlight == net.inFlight
  {
    hide KeyOf;
    assert net.inFlight + multiset{payload} - multiset{payload} == net.inFlight;
  }

  // ---- What every step keeps ----

  ghost function PayloadsOf(applied: seq<Application>): multiset<Value> {
    if applied == [] then multiset{}
    else PayloadsOf(applied[..|applied| - 1]) + multiset{applied[|applied| - 1].payload}
  }

  /** The applications made under one key. */
  ghost function Under(applied: seq<Application>, key: string): seq<Application> {
    if applied == [] then []
    else
      var last := applied[|applied| - 1];
      Under(applied[..|applied| - 1], key) + if KeyOf(last.payload) == key then [last] else []
  }

  lemma UnderSnoc(applied: seq<Application>, a: Application, key: string)
    ensures Under(applied + [a], key) == Under(applied, key) + if KeyOf(a.payload) == key then [a] else []
  {
    assert (applied + [a])[..|applied|] == applied;
  }

  lemma PayloadsSnoc(applied: seq<Application>, a: Application)
    ensures PayloadsOf(applied + [a]) == PayloadsOf(applied) + multiset{a.payload}
  {
    assert (applied + [a])[..|applied|] == applied;
  }

  /** A payload counts as often as there are places where it was applied. */
  lemma {:induction false} PayloadsByPlace(applied: seq<Application>, payload: Value, p: Application -> bool)
    requires forall a :: p(a) <==> a.payload == payload
    ensures PayloadsOf(applied)[payload] == |Places(applied, p)|
  {
    if applied != [] {
      var n := |applied| - 1;
      PayloadsByPlace(applied[..n], payload, p);
      PlacesSnoc(applied[..n], applied[n], p);
      assert applied == applied[..n] + [applied[n]];
      hide Places;
    }
  }

  /** The applications under a key are those whose payload carries it, each as often as made. */
  lemma {:induction false} UnderByKey(applied: seq<Application>, key: string, a: Application)
    ensures multiset(Under(applied, key))[a] == if KeyOf(a.payload) == key then multiset(applied)[a] else 0
  {
    if applied != [] {
      hide KeyOf;
      var n := |applied| - 1;
      UnderByKey(applied[..n], key, a);
      assert applied == applied[..n] + [applied[n]];
    }
  }

  /** A key is bound exactly to the one application made under it, and every application was
      answered with success. */
  ghost predicate DaemonOk(d: Daemon) {
    && (forall key: string | key != "" ::
          Under(d.applied, key) == if key in d.bound then [d.bound[key]] else [])
    && (forall key | key in d.bound :: 200 <= d.bound[key].reply.status < 300)
    && "" !in d.bound
  }

  /** Every application comes from a request of its own that was really posted. */
  ghost predicate NetOk(net: Net) {
    && DaemonOk(net.daemon)
    && PayloadsOf(net.daemon.applied) + net.inFlight <= multiset(net.posted)
  }

  /** Handling a request leaves the daemon alone, or applies this one batch under a key not
      used before and binds the key to it. */
  lemma HandleShape(d: Daemon, payload: Value, v: Verdict) returns (a: Application)
    ensures a.payload == payload && 200 <= a.reply.status < 300
    ensures var key, d' := KeyOf(payload), Handle(d, payload, v).0;
            || d' == d
            || (&& d' == Daemon(d.applied + [a], if key == "" then d.bound else d.bound[key := a])
                && (key != "" ==> key !in d.bound))
  {
    hide KeyOf;
    a := Application(payload, Reply(if v.Serve? then v.status else 200, if v.Serve? then v.body else v.reason));
  }

  lemma HandleKeepsDaemonOk(d: Daemon, payload: Value, v: Verdict)
    requires DaemonOk(d)
    ensures DaemonOk(Handle(d, payload, v).0)
  {
    var d' := Handle(d, payload, v).0;
    var a := HandleShape(d, payload, v);
    hide KeyOf, Handle, Under;
    if d' != d {
      forall key: string | key != ""
        ensures Under(d'.applied, key) == if key in d'.bound then [d'.bound[key]] else []
      {
        UnderSnoc(d.applied, a, key);
        assert Under(d.applied, key) + [] == Under(d.applied, key);
      }
    }
  }

  lemma HandleAddsAtMostPayload(d: Daemon, payload: Value, v: Verdict)
    ensures PayloadsOf(Handle(d, payload, v).0.applied) <= PayloadsOf(d.applied) + multiset{payload}
  {
    var d' := Handle(d, payload, v).0;
    if d'.applied != d.applied {
      PayloadsSnoc(d.applied, d'.applied[|d.applied|]);
    }
  }

  lemma PostedSnoc(posted: seq<Value>, payload: Value)
    ensures multiset(posted + [payload]) == multiset(posted) + multiset{payload}
  {
  }

  lemma {:induction false} ExchangeKeepsNetOk(net: Net, payload: Value, fate: Fate)
    requires NetOk(net)
    ensures NetOk(Exchange(net, payload, fate).0)
  {
    PostedSnoc(net.posted, payload);
    if fate.Delivered? {
      HandleKeepsDaemonOk(net.daemon, payload, fate.verdict);
      HandleAddsAtMostPayload(net.daemon, payload, fate.verdict);
      hide Handle, DaemonOk, PayloadsOf;
    }
  }

  lemma LateArrivalKeepsNetOk(net: Net, payload: Value, verdict: Verdict)
    requires NetOk(net)
    ensures NetOk(LateArrival(net, payload, verdict))
  {
    if payload in net.inFlight {
      HandleKeepsDaemonOk(net.daemon, payload, verdict);
      HandleAddsAtMostPayload(net.daemon, payload, verdict);
      hide Handle, DaemonOk, PayloadsOf;
      assert net.inFlight == net.inFlight - multiset{payload} + multiset{payload};
    }
  }

  /** The first application under a key stays the only one, whatever is handled later. */
  lemma BoundKeyIsFinal(d: Daemon, payload: Value, v: Verdict, key: string)
    requires DaemonOk(d) && key in d.bound
    ensures key in Handle(d, payload, v).0.bound && Handle(d, payload, v).0.bound[key] == d.bound[key]
  {
  }

  /** Success reported to the client under a key means the batch is the one bound to the key,
      and the results are those of the reply it was first answered with. */
  lemma SuccessMeansBound(net: Net, payload: Value, fate: Fate)
    requires NetOk(net) && KeyOf(payload) != ""
    requires Exchange(net, payload, fate).1.Ok?
    ensures var (net', result) := Exchange(net, payload, fate);
            && KeyOf(payload) in net'.daemon.bound
            && net'.daemon.bound[KeyOf(payload)].payload == payload
            && ReadReply(net'.daemon.bound[KeyOf(payload)].reply) == result
            && HoldsResults(net'.daemon.bound[KeyOf(payload)].reply.body, result.value)
  {
    WhatTheCallerIsTold(net, payload, fate);
    hide HoldsResults;
    hide FailureFor, KeyOf, PayloadsOf, Under, TrimSpace;
    assert fate.Delivered? && fate.reply.Received?;
  }

  /** The daemon moves only by handling the request, and success is only ever reported when it
      served the request and its own reply came through. */
  lemma ExchangeHandles(net: Net, payload: Value, fate: Fate)
    ensures var (net', result) := Exchange(net, payload, fate);
            && net'.daemon == (if fate.Delivered? then Handle(net.daemon, payload, fate.verdict).0 else net.daemon)
            && (result.Ok? ==>
                  && fate.Delivered? && fate.verdict.Serve? && fate.reply.Received?
                  && result == ReadReply(Handle(net.daemon, payload, fate.verdict).1))
  {
    hide KeyOf, TrimSpace, FailureFor;
  }

  // ---- What a failure says about the batch ----

  /** The failures that leave the fate of the batch open: no reply, a reply too large or not
      decodable, a server error, and a response whose message says "not found:". */
  predicate MayHaveBeenApplied(e: ClientError) {
    match e
    case TxnCommitted => false
    case Transport => true
    case TooLarge => true
    case Undecodable => true
    case Response(f) => 500 <= f.status < 600 || (f.status == 404 && NamesMissing(f.message))
  }

  /** Any other failure, whatever the network did, means this attempt applied nothing. */
  lemma OtherFailuresMeanNoEffect(net: Net, payload: Value, fate: Fate)
    requires Exchange(net, payload, fate).1.Err? && !MayHaveBeenApplied(Exchange(net, payload, fate).1.error)
    ensures Exchange(net, payload, fate).0.daemon == net.daemon
  {
    hide KeyOf, TrimSpace, MessageFor, EnvelopeOf, NamesMissing, PayloadsOf, Under;
  }

  /** A failure with a response is the reading of some non-2xx reply. */
  lemma ResponseHasReply(net: Net, payload: Value, fate: Fate) returns (reply: Reply)
    requires Exchange(net, payload, fate).1.Err? && Exchange(net, payload, fate).1.error.Response?
    ensures !(200 <= reply.status < 300) && ReadReply(reply) == Exchange(net, payload, fate).1
  {
    hide KeyOf, TrimSpace, FailureFor;
    reply := Carry(net, payload, fate).1.reply;
  }

  /** A failure whose message says "not found:" shows nothing of the status it came with. */
  lemma MissingHidesStatus(status: int, status': int, body: Body)
    requires NamesMissing(MessageFor(status, body))
    ensures FailureFor(status, body) == FailureFor(status', body)
  {
    DefaultMessageIsNotMissing(status);
    hide NamesMissing, DefaultMessage, EnvelopeOf;
  }

  /** Unless the daemon's own reply comes through, what the client sees is the same whether the
      daemon served the request or refused it. */
  lemma RepliesLookAlike(net: Net, payload: Value, status: SuccessStatus, body: Body, answer: ReplyFate)
    requires KeyOf(payload) !in net.daemon.bound && !answer.Received?
    ensures var did := Exchange(net, payload, Delivered(Serve(status, body, body), answer));
            var didNot := Exchange(net, payload, Delivered(Refuse(500, body), answer));
            && did.1 == didNot.1 == ReadArrival(ArrivalOf(Reply(status, body), answer))
            && did.0.daemon.applied == net.daemon.applied + [Application(payload, Reply(status, body))]
            && didNot.0.daemon == net.daemon
  {
    hide KeyOf, ReadArrival;
  }

  /** An intermediary's server error can read exactly like any such response. */
  lemma GatewayInstead(reply: Reply) returns (answer: ReplyFate)
    requires !(200 <= reply.status < 300)
    requires MayHaveBeenApplied(Response(FailureFor(reply.status, reply.body)))
    ensures !answer.Received?
    ensures forall r :: ReadArrival(ArrivalOf(r, answer)) == ReadReply(reply)
  {
    var f := FailureFor(reply.status, reply.body);
    if NamesMissing(f.message) {
      MissingHidesStatus(reply.status, 500, reply.body);
      answer := Gateway(500, reply.body);
    } else {
      assert f.status == reply.status;
      hide FailureFor, NamesMissing, DecodeResults;
      answer := Gateway(reply.status, reply.body);
    }
    hide FailureFor, NamesMissing, DecodeResults;
  }

  lemma PageIsUndecodable(page: Page, status: SuccessStatus)
    ensures forall r :: ReadArrival(ArrivalOf(r, Garbled(status, page))) == Err(Undecodable)
  {
    hide TrimSpace;
  }

  /** Each of those failures can be what an intermediary, not the daemon, made the client see. */
  lemma AnswerInstead(net: Net, payload: Value, fate: Fate) returns (answer: ReplyFate)
    requires Exchange(net, payload, fate).1.Err? && MayHaveBeenApplied(Exchange(net, payload, fate).1.error)
    ensures !answer.Received?
    ensures forall reply :: ReadArrival(ArrivalOf(reply, answer)) == Exchange(net, payload, fate).1
  {
    hide Exchange;
    match Exchange(net, payload, fate).1.error {
      case Transport => answer := Lost;
      case TooLarge => answer := Oversized;
      case Undecodable =>
        var page: Page := Body("<html>", None, None, None);
        hide TrimSpace;
        PageIsUndecodable(page, 200);
        answer := Garbled(200, page);
      case Response(f) =>
        var reply := ResponseHasReply(net, payload, fate);
        hide FailureFor, NamesMissing, TrimSpace;
        answer := GatewayInstead(reply);
    }
    hide ReadReply, FailureFor, NamesMissing, TrimSpace;
  }

  /** And each of those failures says nothing at all.  If the key is free, the very same error
      is reported by a fate on which the batch is applied and by one on which it is not. */
  lemma {:induction false} AmbiguousFailure(net: Net, payload: Value, fate: Fate) returns (did: Fate, didNot: Fate)
    requires Exchange(net, payload, fate).1.Err? && MayHaveBeenApplied(Exchange(net, payload, fate).1.error)
    requires KeyOf(payload) !in net.daemon.bound
    ensures Exchange(net, payload, did).1 == Exchange(net, payload, fate).1 == Exchange(net, payload, didNot).1
    ensures exists reply ::
              Exchange(net, payload, did).0.daemon.applied == net.daemon.applied + [Application(payload, reply)]
    ensures Exchange(net, payload, didNot).0.daemon == net.daemon
  {
    var answer := AnswerInstead(net, payload, fate);
    var blank := Body("", None, None, None);
    hide Exchange, KeyOf, MayHaveBeenApplied, ReadArrival, ArrivalOf;
    did, didNot := Delivered(Serve(200, blank, blank), answer), Delivered(Refuse(500, blank), answer);
    RepliesLookAlike(net, payload, 200, blank, answer);
  }

  /** A conflict or a rejected credential reported to the client means this attempt applied
      nothing: the documented "the engine has already discarded the entire batch". */
  lemma ConflictMeansNoEffect(net: Net, payload: Value, fate: Fate)
    requires var result := Exchange(net, payload, fate).1;
             result.Err? && (Is(result.error, Conflict) || Is(result.error, Auth))
    ensures Exchange(net, payload, fate).0.daemon == net.daemon
  {
    var reply := ResponseHasReply(net, payload, fate);
    FailureIsConsistent(reply.status, reply.body);
    hide Exchange, FailureFor, NamesMissing;
    OtherFailuresMeanNoEffect(net, payload, fate);
  }
}
