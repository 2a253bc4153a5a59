/**
  Runs of the whole system: any number of transactions staging, committing, failing and
  retrying, with the network and other clients doing as they please in between.

  A run is a sequence of events from the initial world.  The theorems at the end hold of
  every run.
*/
module Protocol {
  import opened Values
  import opened Payload
  import opened Network
  import opened ClientApi
  import opened Transactions

  /** What a caller was told when a commit succeeded: a transaction that its batch was
      applied, a transaction that had nothing to send, or the caller of a one-shot operation. */
  datatype Entry =
    | Confirmed(t: nat, key: string, payload: Value, results: seq<Row>)
    | Emptied(t: nat)
    | Direct(key: string, payload: Value, results: seq<Row>)

  /** The entries that report a batch as applied. */
  predicate Reports(e: Entry) {
    e.Confirmed? || e.Direct?
  }

  /** The entries that told transaction `t` it is committed. */
  predicate Closes(e: Entry, t: nat) {
    !e.Direct? && e.t == t
  }

  datatype World = World(txns: seq<Txn>, net: Net, log: seq<Entry>)

  const INITIAL := World([], EMPTY_NET, [])

  datatype Event =
    | Begin
    | Stage(t: nat, call: Call, orders: Orders)
    | Rollback(t: nat)
    | Commit(t: nat, key: string, fate: Fate)
    | OneShot(op: Value, key: string, fate: Fate)
    | Elsewhere(traffic: Traffic)

  ghost function CommitEvent(w: World, t: nat, key: string, fate: Fate): World
    requires t < |w.txns|
  {
    var (txn, net, result) := CommitStep(w.txns[t], w.net, key, fate);
    var news :=
      if result.Err? then []
      else if w.txns[t].ops == [] then [Emptied(t)]
      else [Confirmed(t, key, TxnPayload(w.txns[t].ops, key), result.value)];
    World(w.txns[t := txn], net, w.log + news)
  }

  /** An operation the client sends on its own, without a transaction. */
  ghost function OneShotEvent(w: World, op: Value, key: string, fate: Fate): World {
    var payload := TxnPayload([op], key);
    var (net, result) := Exchange(w.net, payload, fate);
    World(w.txns, net, w.log + if result.Ok? then [Direct(key, payload, result.value)] else [])
  }

  ghost function TrafficEvent(w: World, traffic: Traffic): World {
    w.(net := match traffic
              case Late(payload, verdict) => LateArrival(w.net, payload, verdict)
              case Foreign(payload, fate) => Carry(w.net, payload, fate).0)
  }

  /** One event; an event about a transaction that does not exist changes nothing. */
  ghost function Step(w: World, e: Event): World {
    match e
    case Begin => w.(txns := w.txns + [Txn([], false)])
    case Stage(t, call, orders) =>
      if t < |w.txns| && Visits(orders, call) then
        w.(txns := w.txns[t := w.txns[t].(ops := w.txns[t].ops + [OpVisiting(call, orders)])])
      else w
    case Rollback(t) =>
      if t < |w.txns| then w.(txns := w.txns[t := RollbackStep(w.txns[t]).0]) else w
    case Commit(t, key, fate) => if t < |w.txns| then CommitEvent(w, t, key, fate) else w
    case OneShot(op, key, fate) => OneShotEvent(w, op, key, fate)
    case Elsewhere(traffic) => TrafficEvent(w, traffic)
  }

  ghost function Run(w: World, es: seq<Event>): World {
    if es == [] then w else Step(Run(w, es[..|es| - 1]), es[|es| - 1])
  }

  /** An event does to the world what the method it stands for does to the objects, and the log
      gains an entry exactly when a caller is told of success. */
  lemma EventsAreCalls(w: World, t: nat, call: Call, orders: Orders, op: Value, key: string, fate: Fate)
    requires t < |w.txns|
    ensures Visits(orders, call) ==>
              Step(w, Stage(t, call, orders)) == w.(txns := w.txns[t := Txn(w.txns[t].ops + [Op(call)], w.txns[t].committed)])
    ensures Step(w, Rollback(t)) == if w.txns[t].committed then w else w.(txns := w.txns[t := Txn([], false)])
    ensures var w' := Step(w, Commit(t, key, fate));
            var (txn, net, told) := CommitStep(w.txns[t], w.net, key, fate);
            && w'.txns == w.txns[t := txn] && w'.net == net
            && (told.Err? ==> w'.log == w.log)
            && (told.Ok? ==> |w'.log| == |w.log| + 1 && w.log <= w'.log && Closes(w'.log[|w.log|], t))
            && (told.Ok? && w.txns[t].ops != [] ==>
                  w'.log[|w.log|] == Confirmed(t, key, TxnPayload(w.txns[t].ops, key), told.value))
    ensures var w' := Step(w, OneShot(op, key, fate));
            var (net, told) := Exchange(w.net, TxnPayload([op], key), fate);
            && w'.txns == w.txns && w'.net == net
            && w'.log == w.log + if told.Ok? then [Direct(key, TxnPayload([op], key), told.value)] else []
  {
    hide Exchange, TxnPayload, Op, OpVisiting, Visits, CommitStep;
    if Visits(orders, call) {
      OpIgnoresOrders(call, orders);
    }
    assert w.txns[t := w.txns[t]] == w.txns;
  }

  lemma RunSnoc(w: World, es: seq<Event>, e: Event)
    ensures Run(w, es + [e]) == Step(Run(w, es), e)
  {
    assert (es + [e])[..|es|] == es;
  }

  lemma {:induction false} RunAppend(w: World, a: seq<Event>, b: seq<Event>)
    ensures Run(w, a + b) == Run(Run(w, a), b)
  {
    if b == [] {
      assert a + b == a;
    } else {
      RunAppend(w, a, b[..|b| - 1]);
      assert (a + b)[..|a + b| - 1] == a + b[..|b| - 1];
    }
  }

  // ---- The invariant of every run ----

  /** What a confirmed commit under a key was told is what the daemon has on record. */
  ghost predicate Honoured(e: Entry, d: Daemon) {
    Reports(e) && e.key != "" ==>
      && e.key in d.bound
      && d.bound[e.key].payload == e.payload
      && ReadReply(d.bound[e.key].reply) == Ok(e.results)
  }

  ghost predicate LogOk(log: seq<Entry>, d: Daemon) {
    forall i | 0 <= i < |log| :: Honoured(log[i], d)
  }

  /** A transaction is committed exactly when it was told so, and it is told so once. */
  ghost predicate CommittedIffLogged(txns: seq<Txn>, log: seq<Entry>) {
    && (forall i | 0 <= i < |log| && !log[i].Direct? :: log[i].t < |txns| && txns[log[i].t].committed)
    && (forall i, j | 0 <= i < j < |log| && !log[i].Direct? && !log[j].Direct? :: log[i].t != log[j].t)
    && (forall t | 0 <= t < |txns| && txns[t].committed :: exists i :: 0 <= i < |log| && Closes(log[i], t))
  }

  /** A batch and what its sender is told about it. */
  type Answer = (Value, Result<seq<Row>>)

  /** The batches reported as applied without a key, with the results reported. */
  ghost function ConfirmedWithoutKey(log: seq<Entry>): multiset<Answer> {
    if log == [] then multiset{}
    else
      var last := log[|log| - 1];
      ConfirmedWithoutKey(log[..|log| - 1])
      + if Reports(last) && last.key == "" then multiset{(last.payload, Ok(last.results))} else multiset{}
  }

  /** The batches applied, with what their replies say. */
  ghost function AnswersOf(applied: seq<Application>): multiset<Answer> {
    if applied == [] then multiset{}
    else
      var last := applied[|applied| - 1];
      AnswersOf(applied[..|applied| - 1]) + multiset{(last.payload, ReadReply(last.reply))}
  }

  lemma ConfirmedSnoc(log: seq<Entry>, e: Entry)
    ensures ConfirmedWithoutKey(log + [e]) == ConfirmedWithoutKey(log)
         + if Reports(e) && e.key == "" then multiset{(e.payload, Ok(e.results))} else multiset{}
  {
    assert (log + [e])[..|log|] == log;
  }

  lemma ToldOnce(e: Entry, payload: Value, results: seq<Row>)
    ensures (if Reports(e) && e.key == "" then multiset{(e.payload, Ok(e.results))} else multiset{})[(payload, Ok(results))]
         == if (e.Confirmed? || e.Direct?) && e.key == "" && e.payload == payload && e.results == results then 1 else 0
  {
  }

  /** A report counts as often as there are places in the log that make it. */
  lemma {:induction false} ConfirmedByPlace(log: seq<Entry>, payload: Value, results: seq<Row>, p: Entry -> bool)
    requires forall e :: p(e) <==> (e.Confirmed? || e.Direct?) && e.key == "" && e.payload == payload && e.results == results
    ensures ConfirmedWithoutKey(log)[(payload, Ok(results))] == |Places(log, p)|
  {
    if log != [] {
      var n := |log| - 1;
      ConfirmedByPlace(log[..n], payload, results, p);
      PlacesSnoc(log[..n], log[n], p);
      ToldOnce(log[n], payload, results);
      ConfirmedSnoc(log[..n], log[n]);
      assert log == log[..n] + [log[n]];
      hide Places, Reports, ConfirmedWithoutKey;
    }
  }

  /** An answer counts as often as there are places where it was given. */
  lemma {:induction false} AnswersByPlace(applied: seq<Application>, payload: Value, results: seq<Row>, p: Application -> bool)
    requires forall a :: p(a) <==>
               a.payload == payload && 200 <= a.reply.status < 300 && HoldsResults(a.reply.body, results)
    ensures AnswersOf(applied)[(payload, Ok(results))] == |Places(applied, p)|
  {
    if applied != [] {
      var n := |applied| - 1;
      AnswersByPlace(applied[..n], payload, results, p);
      PlacesSnoc(applied[..n], applied[n], p);
      ReadReplyMeaning(applied[n].reply);
      assert applied == applied[..n] + [applied[n]];
      assert p(applied[n]) <==> (applied[n].payload, ReadReply(applied[n].reply)) == (payload, Ok(results));
      hide Places, ReadReply, HoldsResults;
    }
  }

  /** Every confirmation without a key has an application of its own behind it, with the same
      results. */
  ghost predicate Backed(log: seq<Entry>, d: Daemon) {
    ConfirmedWithoutKey(log) <= AnswersOf(Under(d.applied, ""))
  }

  ghost predicate WorldOk(w: World) {
    && NetOk(w.net)
    && LogOk(w.log, w.net.daemon)
    && Backed(w.log, w.net.daemon)
    && CommittedIffLogged(w.txns, w.log)
  }

  /** Nothing the daemon records under a key is ever revised. */
  ghost predicate Extends(d: Daemon, d': Daemon) {
    forall key | key in d.bound :: key in d'.bound && d'.bound[key] == d.bound[key]
  }

  lemma ExtendsKeepsLog(log: seq<Entry>, d: Daemon, d': Daemon)
    requires LogOk(log, d) && Extends(d, d')
    ensures LogOk(log, d')
  {
    forall i | 0 <= i < |log| ensures Honoured(log[i], d') {
      assert Honoured(log[i], d);
    }
  }

  lemma AnswersSnoc(applied: seq<Application>, a: Application)
    ensures AnswersOf(applied + [a]) == AnswersOf(applied) + multiset{(a.payload, ReadReply(a.reply))}
  {
    assert (applied + [a])[..|applied|] == applied;
  }

  /** Handling a request never takes an application back, and serving one that carries no
      key adds one, answered with the reply given. */
  lemma HandleBacks(d: Daemon, payload: Value, v: Verdict)
    ensures var (d', reply) := Handle(d, payload, v);
            && AnswersOf(Under(d.applied, "")) <= AnswersOf(Under(d'.applied, ""))
            && (v.Serve? && KeyOf(payload) == "" ==>
                  AnswersOf(Under(d'.applied, ""))
                  == AnswersOf(Under(d.applied, "")) + multiset{(payload, ReadReply(reply))})
  {
    var d' := Handle(d, payload, v).0;
    hide KeyOf, AnswersOf, Under, ReadReply;
    if d'.applied != d.applied {
      var a := d'.applied[|d.applied|];
      UnderSnoc(d.applied, a, "");
      if KeyOf(payload) == "" {
        AnswersSnoc(Under(d.applied, ""), a);
      } else {
        assert Under(d.applied, "") + [] == Under(d.applied, "");
      }
    }
  }

  /** An exchange backs its own success. */
  lemma ExchangeBacks(net: Net, payload: Value, fate: Fate)
    ensures var (net', result) := Exchange(net, payload, fate);
            var before, after := AnswersOf(Under(net.daemon.applied, "")), AnswersOf(Under(net'.daemon.applied, ""));
            before <= after && (result.Ok? && KeyOf(payload) == "" ==> before + multiset{(payload, result)} <= after)
  {
    ExchangeHandles(net, payload, fate);
    if fate.Delivered? {
      HandleBacks(net.daemon, payload, fate.verdict);
    }
    hide Exchange, Handle, ReadReply, KeyOf, AnswersOf, Under;
  }

  lemma CarryExtends(net: Net, payload: Value, fate: Fate)
    requires NetOk(net)
    ensures NetOk(Carry(net, payload, fate).0)
    ensures Extends(net.daemon, Carry(net, payload, fate).0.daemon)
  {
    ExchangeKeepsNetOk(net, payload, fate);
    if fate.Delivered? {
      forall key | key in net.daemon.bound {
        BoundKeyIsFinal(net.daemon, payload, fate.verdict, key);
      }
    }
  }

  lemma LateArrivalExtends(net: Net, payload: Value, verdict: Verdict)
    requires NetOk(net)
    ensures NetOk(LateArrival(net, payload, verdict))
    ensures Extends(net.daemon, LateArrival(net, payload, verdict).daemon)
  {
    LateArrivalKeepsNetOk(net, payload, verdict);
    forall key | key in net.daemon.bound {
      BoundKeyIsFinal(net.daemon, payload, verdict, key);
    }
  }

  /** What a commit event does to the network and the log. */
  lemma CommitEventShape(w: World, t: nat, key: string, fate: Fate)
    requires t < |w.txns|
    ensures var w', payload := CommitEvent(w, t, key, fate), TxnPayload(w.txns[t].ops, key);
            var (net', result) := Exchange(w.net, payload, fate);
            || (w'.net == w.net && (w'.log == w.log || w'.log == w.log + [Emptied(t)]))
            || (w'.net == net' && result.Err? && w'.log == w.log)
            || (w'.net == net' && result.Ok? && w'.log == w.log + [Confirmed(t, key, payload, result.value)])
  {
    hide Exchange, TxnPayload;
    assert w.log + [] == w.log;
  }

  lemma CommitKeepsNet(w: World, t: nat, key: string, fate: Fate)
    requires WorldOk(w) && t < |w.txns|
    ensures NetOk(CommitEvent(w, t, key, fate).net)
    ensures Extends(w.net.daemon, CommitEvent(w, t, key, fate).net.daemon)
  {
    CommitEventShape(w, t, key, fate);
    hide NetOk, Carry, ReadArrival, TxnPayload, LogOk, Backed, CommittedIffLogged, CommitEvent;
    CarryExtends(w.net, TxnPayload(w.txns[t].ops, key), fate);
  }

  /** A log and a network after one exchange: unchanged but for the exchange's own success. */
  ghost predicate Advances(log: seq<Entry>, net: Net, payload: Value, fate: Fate, log': seq<Entry>, net': Net) {
    var (after, result) := Exchange(net, payload, fate);
    && net' == after
    && if result.Err? then log' == log
       else && |log'| == |log| + 1 && log'[..|log|] == log
            && Reports(log'[|log|]) && log'[|log|].key == KeyOf(payload)
            && log'[|log|].payload == payload && log'[|log|].results == result.value
  }

  lemma AdvanceKeepsLog(log: seq<Entry>, net: Net, payload: Value, fate: Fate, log': seq<Entry>, net': Net)
    requires NetOk(net) && LogOk(log, net.daemon) && Advances(log, net, payload, fate, log', net')
    ensures LogOk(log', net'.daemon) && Extends(net.daemon, net'.daemon)
  {
    CarryExtends(net, payload, fate);
    ExtendsKeepsLog(log, net.daemon, net'.daemon);
    if Exchange(net, payload, fate).1.Ok? {
      if KeyOf(payload) != "" {
        SuccessMeansBound(net, payload, fate);
      }
      assert Honoured(log'[|log|], net'.daemon) by {
        hide NetOk, LogOk, Exchange, KeyOf, Extends, ReadReply;
      }
      LogSnoc(log, log', net'.daemon);
    }
    hide NetOk, LogOk, Exchange, Honoured, Extends;
  }

  lemma LogSnoc(log: seq<Entry>, log': seq<Entry>, d: Daemon)
    requires LogOk(log, d) && |log'| == |log| + 1 && log'[..|log|] == log && Honoured(log'[|log|], d)
    ensures LogOk(log', d)
  {
    hide Honoured;
    forall i | 0 <= i < |log'| ensures Honoured(log'[i], d) {
      assert i < |log| ==> log'[i] == log[i];
    }
  }

  lemma AdvanceKeepsBacked(log: seq<Entry>, net: Net, payload: Value, fate: Fate, log': seq<Entry>, net': Net)
    requires Backed(log, net.daemon) && Advances(log, net, payload, fate, log', net')
    ensures Backed(log', net'.daemon)
  {
    ExchangeBacks(net, payload, fate);
    hide Exchange, KeyOf, AnswersOf, Under, ConfirmedWithoutKey;
    if Exchange(net, payload, fate).1.Ok? {
      assert log' == log + [log'[|log|]];
      ConfirmedSnoc(log, log'[|log|]);
    }
  }

  /** A commit event advances by one exchange, or leaves the network alone. */
  lemma CommitAdvances(w: World, t: nat, key: string, fate: Fate)
    requires t < |w.txns|
    ensures var w' := CommitEvent(w, t, key, fate);
            || (w'.net == w.net && (w'.log == w.log || w'.log == w.log + [Emptied(t)]))
            || Advances(w.log, w.net, TxnPayload(w.txns[t].ops, key), fate, w'.log, w'.net)
  {
    CommitEventShape(w, t, key, fate);
    PayloadFaithful(w.txns[t].ops, key);
    hide Exchange, TxnPayload, KeyOf, OpsOf, CommitEvent;
  }

  lemma CommitKeepsLog(w: World, t: nat, key: string, fate: Fate)
    requires WorldOk(w) && t < |w.txns|
    ensures LogOk(CommitEvent(w, t, key, fate).log, CommitEvent(w, t, key, fate).net.daemon)
  {
    var w', payload := CommitEvent(w, t, key, fate), TxnPayload(w.txns[t].ops, key);
    CommitAdvances(w, t, key, fate);
    hide NetOk, TxnPayload, Backed, CommittedIffLogged, CommitEvent, Advances;
    if Advances(w.log, w.net, payload, fate, w'.log, w'.net) {
      AdvanceKeepsLog(w.log, w.net, payload, fate, w'.log, w'.net);
    }
  }

  lemma EmptiedKeepsBacked(log: seq<Entry>, d: Daemon, t: nat)
    requires Backed(log, d)
    ensures Backed(log + [Emptied(t)], d)
  {
    ConfirmedSnoc(log, Emptied(t));
    hide AnswersOf, Under, ConfirmedWithoutKey;
  }

  lemma CommitKeepsBacked(w: World, t: nat, key: string, fate: Fate)
    requires WorldOk(w) && t < |w.txns|
    ensures Backed(CommitEvent(w, t, key, fate).log, CommitEvent(w, t, key, fate).net.daemon)
  {
    var w', payload := CommitEvent(w, t, key, fate), TxnPayload(w.txns[t].ops, key);
    CommitAdvances(w, t, key, fate);
    hide NetOk, LogOk, Backed, TxnPayload, CommittedIffLogged, CommitEvent, Advances;
    if Advances(w.log, w.net, payload, fate, w'.log, w'.net) {
      AdvanceKeepsBacked(w.log, w.net, payload, fate, w'.log, w'.net);
    } else if w'.log != w.log {
      EmptiedKeepsBacked(w.log, w.net.daemon, t);
    }
  }

  lemma CommitKeepsOnce(w: World, t: nat, key: string, fate: Fate)
    requires WorldOk(w) && t < |w.txns|
    ensures CommittedIffLogged(CommitEvent(w, t, key, fate).txns, CommitEvent(w, t, key, fate).log)
  {
    hide NetOk, LogOk, Backed, Exchange, TxnPayload;
    var w' := CommitEvent(w, t, key, fate);
    if |w'.log| > |w.log| {
      assert !w.txns[t].committed;
      assert Closes(w'.log[|w.log|], t);
    }
    forall u | 0 <= u < |w'.txns| && w'.txns[u].committed
      ensures exists i :: 0 <= i < |w'.log| && Closes(w'.log[i], u)
    {
      if u != t || w.txns[t].committed {
        var i :| 0 <= i < |w.log| && Closes(w.log[i], u);
        assert Closes(w'.log[i], u);
      }
    }
  }

  lemma OneShotKeepsOnce(w: World, op: Value, key: string, fate: Fate)
    requires CommittedIffLogged(w.txns, w.log)
    ensures CommittedIffLogged(OneShotEvent(w, op, key, fate).txns, OneShotEvent(w, op, key, fate).log)
  {
    hide Exchange, TxnPayload;
    var w' := OneShotEvent(w, op, key, fate);
    forall u | 0 <= u < |w'.txns| && w'.txns[u].committed
      ensures exists i :: 0 <= i < |w'.log| && Closes(w'.log[i], u)
    {
      var i :| 0 <= i < |w.log| && Closes(w.log[i], u);
      assert Closes(w'.log[i], u);
    }
  }

  lemma OneShotAdvances(w: World, op: Value, key: string, fate: Fate)
    ensures Advances(w.log, w.net, TxnPayload([op], key), fate,
                     OneShotEvent(w, op, key, fate).log, OneShotEvent(w, op, key, fate).net)
  {
    PayloadFaithful([op], key);
    hide Exchange, TxnPayload, KeyOf, OpsOf;
    var result := Exchange(w.net, TxnPayload([op], key), fate).1;
    assert w.log + [] == w.log;
    assert result.Ok? ==> (w.log + [Direct(key, TxnPayload([op], key), result.value)])[..|w.log|] == w.log;
  }

  lemma OneShotKeepsWorldOk(w: World, op: Value, key: string, fate: Fate)
    requires WorldOk(w)
    ensures WorldOk(OneShotEvent(w, op, key, fate))
    ensures Extends(w.net.daemon, OneShotEvent(w, op, key, fate).net.daemon)
  {
    var w', payload := OneShotEvent(w, op, key, fate), TxnPayload([op], key);
    OneShotAdvances(w, op, key, fate);
    OneShotKeepsOnce(w, op, key, fate);
    CarryExtends(w.net, payload, fate);
    AdvanceKeepsLog(w.log, w.net, payload, fate, w'.log, w'.net);
    AdvanceKeepsBacked(w.log, w.net, payload, fate, w'.log, w'.net);
    assert w'.net == Carry(w.net, payload, fate).0;
    hide NetOk, LogOk, Backed, CommittedIffLogged, OneShotEvent, Extends, Carry;
  }

  /** Events that only touch the staged operations. */
  lemma StagingKeepsWorldOk(w: World, e: Event)
    requires WorldOk(w) && (e.Begin? || e.Stage? || e.Rollback?)
    ensures WorldOk(Step(w, e)) && Step(w, e).net == w.net
  {
    hide NetOk, LogOk, Backed, OpVisiting, Visits;
    var w' := Step(w, e);
    assert |w.txns| <= |w'.txns| && w'.log == w.log;
    assert forall t | 0 <= t < |w.txns| :: w'.txns[t].committed == w.txns[t].committed;
    assert forall t | |w.txns| <= t < |w'.txns| :: !w'.txns[t].committed;
  }

  lemma CommitKeepsWorldOk(w: World, t: nat, key: string, fate: Fate)
    requires WorldOk(w) && t < |w.txns|
    ensures WorldOk(CommitEvent(w, t, key, fate))
    ensures Extends(w.net.daemon, CommitEvent(w, t, key, fate).net.daemon)
  {
    CommitKeepsNet(w, t, key, fate);
    CommitKeepsLog(w, t, key, fate);
    CommitKeepsBacked(w, t, key, fate);
    CommitKeepsOnce(w, t, key, fate);
    hide NetOk, LogOk, Backed, CommittedIffLogged, CommitEvent, Extends;
  }

  lemma TrafficKeepsWorldOk(w: World, traffic: Traffic)
    requires WorldOk(w)
    ensures WorldOk(TrafficEvent(w, traffic))
    ensures Extends(w.net.daemon, TrafficEvent(w, traffic).net.daemon)
  {
    match traffic {
      case Late(payload, verdict) =>
        LateArrivalExtends(w.net, payload, verdict);
        HandleBacks(w.net.daemon, payload, verdict);
      case Foreign(payload, fate) =>
        CarryExtends(w.net, payload, fate);
        ExchangeBacks(w.net, payload, fate);
    }
    ExtendsKeepsLog(w.log, w.net.daemon, TrafficEvent(w, traffic).net.daemon);
    hide NetOk, LogOk, CommittedIffLogged, Extends, Handle, ReadArrival, ConfirmedWithoutKey, AnswersOf, Under;
  }

  lemma {:induction false} StepKeepsWorldOk(w: World, e: Event)
    requires WorldOk(w)
    ensures WorldOk(Step(w, e))
    ensures Extends(w.net.daemon, Step(w, e).net.daemon)
  {
    if e.Begin? || e.Stage? || e.Rollback? {
      StagingKeepsWorldOk(w, e);
    }
    hide WorldOk, CommitEvent, OneShotEvent, TrafficEvent;
    if e.Commit? && e.t < |w.txns| {
      CommitKeepsWorldOk(w, e.t, e.key, e.fate);
    } else if e.OneShot? {
      OneShotKeepsWorldOk(w, e.op, e.key, e.fate);
    } else if e.Elsewhere? {
      TrafficKeepsWorldOk(w, e.traffic);
    }
  }

  lemma {:induction false} RunKeepsWorldOk(w: World, es: seq<Event>)
    requires WorldOk(w)
    ensures WorldOk(Run(w, es))
    ensures Extends(w.net.daemon, Run(w, es).net.daemon)
  {
    if es != [] {
      RunKeepsWorldOk(w, es[..|es| - 1]);
      StepKeepsWorldOk(Run(w, es[..|es| - 1]), es[|es| - 1]);
    }
  }

  lemma {:induction false} ReachableOk(es: seq<Event>)
    ensures WorldOk(Run(INITIAL, es))
  {
    assert WorldOk(INITIAL);
    RunKeepsWorldOk(INITIAL, es);
  }

  // ---- Exactly once ----

  /** Under `key` at most one batch was applied, and whoever was told a commit under it
      succeeded, through a transaction or a one-shot operation, was told about that one batch,
      their own, with the results of its first reply. */
  ghost predicate OnceUnder(w: World, key: string) {
    var applied := Under(w.net.daemon.applied, key);
    && |applied| <= 1
    && forall i | 0 <= i < |w.log| && Reports(w.log[i]) && w.log[i].key == key ::
         |applied| == 1 && applied[0].payload == w.log[i].payload
         && ReadReply(applied[0].reply) == Ok(w.log[i].results)
         && HoldsResults(applied[0].reply.body, w.log[i].results)
  }

  lemma WorldOkMeansOnce(w: World, key: string)
    requires WorldOk(w) && key != ""
    ensures OnceUnder(w, key)
  {
    if key in w.net.daemon.bound {
      ReadReplyMeaning(w.net.daemon.bound[key].reply);
    }
    hide ReadReply, HoldsResults, CommittedIffLogged, Backed, Under, PayloadsOf;
    forall i | 0 <= i < |w.log| && Reports(w.log[i]) && w.log[i].key == key
      ensures Honoured(w.log[i], w.net.daemon)
    {
    }
  }

  /** Exactly once, in every run and for every non-empty key, however often and however late
      the requests under it are sent, lost, delayed or answered. */
  lemma {:induction false} ExactlyOnce(es: seq<Event>, key: string)
    requires key != ""
    ensures OnceUnder(Run(INITIAL, es), key)
  {
    ReachableOk(es);
    hide Run, WorldOk, OnceUnder;
    WorldOkMeansOnce(Run(INITIAL, es), key);
  }

  /** Once a batch is applied under a key, no continuation of the run applies anything else
      under it, and nobody is ever told that a different batch succeeded under it. */
  lemma {:induction false} FirstBatchOwnsKey(es: seq<Event>, more: seq<Event>, key: string)
    requires key != "" && Under(Run(INITIAL, es).net.daemon.applied, key) != []
    ensures var before := Under(Run(INITIAL, es).net.daemon.applied, key);
            var w := Run(INITIAL, es + more);
            && Under(w.net.daemon.applied, key) == before
            && forall i | 0 <= i < |w.log| && Reports(w.log[i]) && w.log[i].key == key ::
                 w.log[i].payload == before[0].payload
  {
    var w := Run(INITIAL, es);
    ReachableOk(es);
    RunAppend(INITIAL, es, more);
    RunKeepsWorldOk(w, more);
    assert key in w.net.daemon.bound;
    ExactlyOnce(es + more, key);
  }

  /** No success is invented: the batches reported as applied without a key, with the results
      reported, are among the batches applied without one, with the results of their replies,
      each counted as often as it occurs; and no transaction is confirmed twice. */
  lemma {:induction false} EverySuccessIsBacked(es: seq<Event>)
    ensures var w := Run(INITIAL, es);
            && ConfirmedWithoutKey(w.log) <= AnswersOf(Under(w.net.daemon.applied, ""))
            && (forall t, i, j | 0 <= i < j < |w.log| && Closes(w.log[i], t) :: !Closes(w.log[j], t))
            && (forall t | 0 <= t < |w.txns| ::
                  w.txns[t].committed <==> exists i :: 0 <= i < |w.log| && Closes(w.log[i], t))
  {
    ReachableOk(es);
    hide Run, NetOk, LogOk;
  }

  // ---- Conservation: with or without a key ----

  /** The events that try to send a request. */
  predicate Sends(e: Event) {
    e.Commit? || e.OneShot? || (e.Elsewhere? && e.traffic.Foreign?)
  }

  /** They are exactly the events that can. */
  lemma {:induction false} SendsExactly(e: Event)
    ensures Sends(e) <==> exists w: World :: |Step(w, e).net.posted| > |w.net.posted|
  {
    var op := Null;
    if Sends(e) {
      var txns := if e.Commit? then seq(e.t + 1, _ => Txn([op], false)) else [];
      var w := World(txns, EMPTY_NET, []);
      hide Handle, TxnPayload;
      assert |Step(w, e).net.posted| > |w.net.posted|;
    }
    forall w: World | !Sends(e) ensures |Step(w, e).net.posted| <= |w.net.posted| {
      StepPosts(w, e);
    }
  }

  /** The number of them in a run. */
  function Attempts(es: seq<Event>): nat {
    if es == [] then 0
    else
      var last := es[|es| - 1];
      Attempts(es[..|es| - 1]) + if Sends(last) then 1 else 0
  }

  lemma {:induction false} PostsNeedAttempts(es: seq<Event>)
    ensures |Run(INITIAL, es).net.posted| <= Attempts(es)
  {
    if es != [] {
      PostsNeedAttempts(es[..|es| - 1]);
      hide Run, Attempts, Exchange;
      var w, e := Run(INITIAL, es[..|es| - 1]), es[|es| - 1];
      StepPosts(w, e);
      assert Run(INITIAL, es) == Step(w, e) by { RunSnoc(INITIAL, es[..|es| - 1], e); assert es == es[..|es| - 1] + [e]; }
      AttemptsSnoc(es[..|es| - 1], e);
      assert es == es[..|es| - 1] + [e];
    }
  }

  lemma AttemptsSnoc(es: seq<Event>, e: Event)
    ensures Attempts(es + [e]) == Attempts(es) + if Sends(e) then 1 else 0
  {
    assert (es + [e])[..|es|] == es;
  }

  lemma StepPosts(w: World, e: Event)
    ensures |Step(w, e).net.posted| <= |w.net.posted| + if Sends(e) then 1 else 0
  {
  }

  lemma {:induction false} PayloadsCount(applied: seq<Application>)
    ensures |PayloadsOf(applied)| == |applied|
  {
    if applied != [] {
      PayloadsCount(applied[..|applied| - 1]);
    }
  }

  /** No batch is applied that nobody sent, and none more often than it was sent: requests
      applied or still in flight are among the requests posted, each counted as often as it
      occurs.  So applications never outnumber attempts. */
  lemma {:induction false} NothingFromNowhere(es: seq<Event>)
    ensures var net := Run(INITIAL, es).net;
            && PayloadsOf(net.daemon.applied) + net.inFlight <= multiset(net.posted)
            && |net.daemon.applied| <= Attempts(es)
  {
    ReachableOk(es);
    var net := Run(INITIAL, es).net;
    PayloadsCount(net.daemon.applied);
    PostsNeedAttempts(es);
    hide Run, Attempts, PayloadsOf;
    assert |PayloadsOf(net.daemon.applied)| <= |multiset(net.posted)| by {
      SubmultisetSize(PayloadsOf(net.daemon.applied), multiset(net.posted));
    }
  }

  lemma SubmultisetSize<T>(a: multiset<T>, b: multiset<T>)
    requires a <= b
    ensures |a| <= |b|
  {
    assert b == a + (b - a);
  }
}
