/**
  What retrying does: after a failure, after more staging, from a rebuilt transaction, in the
  other style of call, and with and without a key.
*/
module Retrying {
  import opened Values
  import opened CellFlattening
  import opened Payload
  import opened Errors
  import opened Network
  import opened ClientApi
  import opened Transactions
  import opened Protocol

  // ---- A committed transaction is inert ----

  /** From the moment a transaction is committed, every later Commit or Rollback of it leaves
      the whole world as it was, whatever else happens in between; staging on it goes on but
      is never sent. */
  lemma {:induction false} CommittedIsFinal(w: World, es: seq<Event>, t: nat)
    requires t < |w.txns| && w.txns[t].committed
    ensures t < |Run(w, es).txns| && Run(w, es).txns[t].committed
    ensures forall key, fate :: Step(Run(w, es), Commit(t, key, fate)) == Run(w, es)
    ensures Step(Run(w, es), Rollback(t)) == Run(w, es)
  {
    hide CommitStep;
    if es != [] {
      CommittedIsFinal(w, es[..|es| - 1], t);
      CommittedStays(Run(w, es[..|es| - 1]), es[|es| - 1], t);
    }
    hide Run;
    forall key, fate ensures Step(Run(w, es), Commit(t, key, fate)) == Run(w, es) {
      CommitWhenCommitted(Run(w, es), t, key, fate);
    }
  }

  lemma CommittedStays(w: World, e: Event, t: nat)
    requires t < |w.txns| && w.txns[t].committed
    ensures t < |Step(w, e).txns| && Step(w, e).txns[t].committed
  {
    hide OpVisiting, Exchange;
  }

  lemma CommitWhenCommitted(w: World, t: nat, key: string, fate: Fate)
    requires t < |w.txns| && w.txns[t].committed
    ensures Step(w, Commit(t, key, fate)) == w
  {
    hide Exchange;
    assert w.txns[t := w.txns[t]] == w.txns;
    assert w.log + [] == w.log;
  }

  // ---- Trying again ----

  /** When a retry gets through: it succeeds exactly when its key is free, or belongs to this
      very batch, and the reply then given decodes.  That reply is the first attempt's if the
      first attempt was applied, and then nothing is applied again. */
  lemma RetryThatGetsThrough(t: Txn, net: Net, key: string, verdict: Verdict)
    requires NetOk(net) && !t.committed && t.ops != [] && verdict.Serve?
    ensures var (t', net', result) := CommitStep(t, net, key, Delivered(verdict, Received));
            var bound := net.daemon.bound;
            var fits := key in bound ==> bound[key].payload == TxnPayload(t.ops, key);
            var body := if key in bound then bound[key].reply.body else verdict.body;
            && t'.committed == result.Ok?
            && (forall rows :: result == Ok(rows) <==> fits && HoldsResults(body, rows))
            && (fits ==> result.Ok? || result == Err(Undecodable))
            && (!fits ==> result == Err(Response(FailureFor(409, verdict.mismatch))))
            && (key in bound ==> net'.daemon == net.daemon)
  {
    PayloadFaithful(t.ops, key);
    DecodeResultsMeaning(if key in net.daemon.bound then net.daemon.bound[key].reply.body else verdict.body);
    hide TxnPayload, KeyOf, DecodeResults, HoldsResults, FailureFor, PayloadsOf, Under;
  }

  /** A batch applied with a reply that does not decode is out of its sender's reach: under
      that key every exchange fails, whatever is sent and whatever the network does. */
  lemma UndecodableReplyBlocksKey(net: Net, payload: Value, fate: Fate)
    requires NetOk(net) && KeyOf(payload) in net.daemon.bound
    requires forall rows :: !HoldsResults(net.daemon.bound[KeyOf(payload)].reply.body, rows)
    ensures Exchange(net, payload, fate).0.daemon == net.daemon && Exchange(net, payload, fate).1.Err?
  {
    hide KeyOf, FailureFor, TrimSpace, HoldsResults, PayloadsOf, Under;
    if Exchange(net, payload, fate).1.Ok? {
      SuccessMeansBound(net, payload, fate);
    }
  }

  /** Over runs: once such a reply is on record under a key, no continuation ever reports a
      commit under that key as successful. */
  lemma {:induction false} UndecodableReplyNeverConfirmed(es: seq<Event>, more: seq<Event>, key: string)
    requires key in Run(INITIAL, es).net.daemon.bound
    requires forall rows :: !HoldsResults(Run(INITIAL, es).net.daemon.bound[key].reply.body, rows)
    ensures forall i | 0 <= i < |Run(INITIAL, es + more).log| && Reports(Run(INITIAL, es + more).log[i]) ::
              Run(INITIAL, es + more).log[i].key != key
  {
    var w, w' := Run(INITIAL, es), Run(INITIAL, es + more);
    ReachableOk(es);
    RunAppend(INITIAL, es, more);
    RunKeepsWorldOk(w, more);
    assert 200 <= w.net.daemon.bound[key].reply.status < 300 && "" !in w.net.daemon.bound;
    assert LogOk(w'.log, w'.net.daemon);
    assert key in w'.net.daemon.bound && w'.net.daemon.bound[key] == w.net.daemon.bound[key];
    ReadReplyMeaning(w.net.daemon.bound[key].reply);
    hide Run, WorldOk, ReadReply, HoldsResults, Extends;
    forall i | 0 <= i < |w'.log| && Reports(w'.log[i]) ensures w'.log[i].key != key {
      assert Honoured(w'.log[i], w'.net.daemon);
    }
  }

  /** `payload` was applied, whole and as a batch of its own, under a key not used before. */
  ghost predicate AppliedWhole(d: Daemon, d': Daemon, payload: Value) {
    && (KeyOf(payload) != "" ==> Under(d.applied, KeyOf(payload)) == [])
    && exists reply :: d'.applied == d.applied + [Application(payload, reply)]
  }

  /** All an exchange can do to the daemon: nothing, or apply this one batch whole. */
  lemma ExchangeEffect(net: Net, payload: Value, fate: Fate)
    requires NetOk(net)
    ensures var d' := Exchange(net, payload, fate).0.daemon;
            d' == net.daemon || AppliedWhole(net.daemon, d', payload)
  {
    hide KeyOf, DecodeResults, FailureFor, PayloadsOf, Under;
  }

  /** A batch other than the one a key is bound to has no effect and is never confirmed. */
  lemma OtherBatchFails(net: Net, payload: Value, fate: Fate)
    requires NetOk(net) && KeyOf(payload) in net.daemon.bound
    requires net.daemon.bound[KeyOf(payload)].payload != payload
    ensures Exchange(net, payload, fate).0.daemon == net.daemon && Exchange(net, payload, fate).1.Err?
  {
    if Exchange(net, payload, fate).1.Ok? {
      SuccessMeansBound(net, payload, fate);
    }
  }

  /** What a commit event does to its transaction and the network. */
  lemma CommitEventIsCommitStep(w: World, t: nat, key: string, fate: Fate)
    requires t < |w.txns|
    ensures var w' := Step(w, Commit(t, key, fate));
            && |w'.txns| == |w.txns|
            && w'.txns[t] == CommitStep(w.txns[t], w.net, key, fate).0
            && w'.net == CommitStep(w.txns[t], w.net, key, fate).1
  {
    hide CommitStep;
  }

  /** Committing a batch under a key that may be bound to a proper prefix of it. */
  lemma LongerBatch(t: Txn, net: Net, ops: seq<Value>, key: string, fate: Fate)
    requires NetOk(net) && key != "" && ops < t.ops
    ensures var shorter, longer := TxnPayload(ops, key), TxnPayload(t.ops, key);
            var (_, net', result) := CommitStep(t, net, key, fate);
            && shorter != longer
            && (net'.daemon == net.daemon || AppliedWhole(net.daemon, net'.daemon, longer))
            && (key in net.daemon.bound && net.daemon.bound[key].payload == shorter ==>
                  result.Err? && net'.daemon == net.daemon)
  {
    var longer := TxnPayload(t.ops, key);
    PayloadFaithful(ops, key);
    PayloadFaithful(t.ops, key);
    ExchangeEffect(net, longer, fate);
    hide Exchange, TxnPayload, KeyOf, OpsOf, AppliedWhole, NetOk;
    if key in net.daemon.bound && net.daemon.bound[key].payload == TxnPayload(ops, key) {
      OtherBatchFails(net, longer, fate);
    }
  }

  ghost predicate NoRollback(es: seq<Event>, t: nat) {
    forall i | 0 <= i < |es| :: es[i] != Rollback(t)
  }

  lemma StepOnlyStages(w: World, e: Event, t: nat)
    requires t < |w.txns| && e != Rollback(t)
    ensures t < |Step(w, e).txns| && w.txns[t].ops <= Step(w, e).txns[t].ops
  {
    hide OpVisiting, Exchange, TxnPayload, Visits;
  }

  /** Without a rollback the operations of a transaction only accumulate. */
  lemma {:induction false} RunOnlyStages(w: World, es: seq<Event>, t: nat)
    requires t < |w.txns| && NoRollback(es, t)
    ensures t < |Run(w, es).txns| && w.txns[t].ops <= Run(w, es).txns[t].ops
  {
    if es != [] {
      var front := es[..|es| - 1];
      RunOnlyStages(w, front, t);
      StepOnlyStages(Run(w, front), es[|es| - 1], t);
    }
  }

  /** Between a failed commit and a later one under the same key anything may happen, short of
      a rollback: more staging, further attempts, the first request arriving late, other
      clients using the key.  Nothing staged is lost, and no batches are merged.  If the batch
      has grown, the later commit applies the longer one whole, under a key nothing was applied
      under before, or has no effect; and if by then the shorter one was applied, it has no
      effect and fails. */
  lemma {:induction false} StagingBetweenAttempts(w: World, t: nat, key: string, first: Fate, es: seq<Event>, second: Fate)
    requires WorldOk(w) && key != ""
    requires t < |w.txns| && !w.txns[t].committed && CommitStep(w.txns[t], w.net, key, first).2.Err?
    requires NoRollback(es, t)
    ensures var ops := w.txns[t].ops;
            var w2 := Run(Step(w, Commit(t, key, first)), es);
            t < |w2.txns| && ops <= w2.txns[t].ops &&
            (ops < w2.txns[t].ops ==>
               var shorter, longer := TxnPayload(ops, key), TxnPayload(w2.txns[t].ops, key);
               var (_, net3, result) := CommitStep(w2.txns[t], w2.net, key, second);
               && shorter != longer
               && (net3.daemon == w2.net.daemon || AppliedWhole(w2.net.daemon, net3.daemon, longer))
               && (key in w2.net.daemon.bound && w2.net.daemon.bound[key].payload == shorter ==>
                     result.Err? && net3.daemon == w2.net.daemon))
  {
    var w1 := Step(w, Commit(t, key, first));
    var w2 := Run(w1, es);
    CommitEventIsCommitStep(w, t, key, first);
    FailedCommitIsRetryable(w.txns[t], w.net, key, first);
    StepKeepsWorldOk(w, Commit(t, key, first));
    RunKeepsWorldOk(w1, es);
    RunOnlyStages(w1, es, t);
    assert NetOk(w2.net);
    hide Run, Step, CommitStep, TxnPayload, AppliedWhole, WorldOk, NetOk;
    if w.txns[t].ops < w2.txns[t].ops {
      LongerBatch(w2.txns[t], w2.net, w.txns[t].ops, key, second);
    }
  }

  // ---- Rebuilding the transaction ----

  /** A fresh transaction on which `calls` are staged, its maps visited in `orders`. */
  function Rebuild(t: nat, calls: seq<Call>, orders: seq<Orders>): seq<Event>
    requires |orders| == |calls|
  {
    if calls == [] then [Begin]
    else Rebuild(t, calls[..|calls| - 1], orders[..|calls| - 1]) + [Stage(t, calls[|calls| - 1], orders[|calls| - 1])]
  }

  ghost predicate VisitAll(orders: seq<Orders>, calls: seq<Call>) {
    |orders| == |calls| && forall i | 0 <= i < |calls| :: Visits(orders[i], calls[i])
  }

  lemma StageAppends(w: World, ops: seq<Value>, call: Call, orders: Orders)
    requires Visits(orders, call)
    ensures Step(w.(txns := w.txns + [Txn(ops, false)]), Stage(|w.txns|, call, orders))
         == w.(txns := w.txns + [Txn(ops + [Op(call)], false)])
  {
    OpIgnoresOrders(call, orders);
    hide Op, OpVisiting, Visits;
  }

  lemma OpsSnoc(calls: seq<Call>)
    requires calls != []
    ensures Ops(calls) == Ops(calls[..|calls| - 1]) + [Op(calls[|calls| - 1])]
  {
    hide Op;
  }

  /** The rebuilt transaction holds the canonical operations, whatever the orders. */
  lemma {:induction false} RebuildStagesOps(w: World, calls: seq<Call>, orders: seq<Orders>)
    requires VisitAll(orders, calls)
    ensures Run(w, Rebuild(|w.txns|, calls, orders)) == w.(txns := w.txns + [Txn(Ops(calls), false)])
  {
    var t := |w.txns|;
    if calls == [] {
      assert Run(w, [Begin]) == Step(Run(w, []), Begin);
      assert Ops(calls) == [];
    } else {
      var n := |calls| - 1;
      hide Run, Step, Op, Ops, Visits;
      RebuildStagesOps(w, calls[..n], orders[..n]);
      RunSnoc(w, Rebuild(t, calls[..n], orders[..n]), Stage(t, calls[n], orders[n]));
      StageAppends(w, Ops(calls[..n]), calls[n], orders[n]);
      OpsSnoc(calls);
    }
  }

  /** The request is served and its reply comes through. */
  predicate GetsThrough(fate: Fate) {
    fate.Delivered? && fate.verdict.Serve? && fate.reply.Received?
  }

  /** Committing under a key that is already bound never applies anything; it can only succeed
      as a replay, and when it gets through it is a replay or a mismatch. */
  lemma CommitUnderBoundKey(t: Txn, net: Net, key: string, fate: Fate)
    requires NetOk(net) && key in net.daemon.bound && !t.committed && t.ops != []
    ensures var bound := net.daemon.bound[key];
            var same := bound.payload == TxnPayload(t.ops, key);
            var (t', net', result) := CommitStep(t, net, key, fate);
            && net'.daemon == net.daemon
            && t'.committed == result.Ok?
            && (result.Ok? ==> same && HoldsResults(bound.reply.body, result.value))
            && (GetsThrough(fate) ==>
                  && (forall rows :: result == Ok(rows) <==> same && HoldsResults(bound.reply.body, rows))
                  && (!same ==> result == Err(Response(FailureFor(409, fate.verdict.mismatch)))))
  {
    PayloadFaithful(t.ops, key);
    if CommitStep(t, net, key, fate).2.Ok? {
      SuccessMeansBound(net, TxnPayload(t.ops, key), fate);
    }
    if GetsThrough(fate) {
      RetryThatGetsThrough(t, net, key, fate.verdict);
    }
    hide TxnPayload, KeyOf, DecodeResults, HoldsResults, FailureFor, Under, PayloadsOf, OpsOf;
  }

  /** Retrying from a rebuilt transaction.  The key is bound to a batch staged from `calls`;
      a new transaction staged from `calls'`, its maps visited in any orders, is committed
      under that key.  On no fate is anything applied again, and the commit succeeds only as a
      replay, if the two call sequences mean the same.  When it gets through, it succeeds
      exactly when they mean the same and the original reply decodes; when they do not mean
      the same it is refused with a 409. */
  lemma {:induction false} RebuildAndRetry(w: World, calls: seq<Call>, calls': seq<Call>, orders': seq<Orders>,
                                           key: string, fate: Fate)
    requires NetOk(w.net) && key in w.net.daemon.bound
    requires w.net.daemon.bound[key].payload == TxnPayload(Ops(calls), key)
    requires VisitAll(orders', calls') && calls' != []
    ensures var w1 := Run(w, Rebuild(|w.txns|, calls', orders'));
            |w1.txns| == |w.txns| + 1 &&
            var (t', net', result) := CommitStep(w1.txns[|w.txns|], w1.net, key, fate);
            var same, original := Meanings(calls') == Meanings(calls), w.net.daemon.bound[key].reply;
            && net'.daemon == w.net.daemon
            && t'.committed == result.Ok?
            && (result.Ok? ==> same && HoldsResults(original.body, result.value))
            && (GetsThrough(fate) ==>
                  && (forall rows :: result == Ok(rows) <==> same && HoldsResults(original.body, rows))
                  && (!same ==> result == Err(Response(FailureFor(409, fate.verdict.mismatch)))))
  {
    RebuildStagesOps(w, calls', orders');
    OpsFaithful(calls', calls);
    PayloadFaithful(Ops(calls), key);
    PayloadFaithful(Ops(calls'), key);
    assert |Ops(calls')| == |calls'|;
    hide Run, Rebuild, TxnPayload, KeyOf, Ops, Meanings, OpsOf, CommitStep, NetOk, HoldsResults, FailureFor;
    CommitUnderBoundKey(Txn(Ops(calls'), false), w.net, key, fate);
  }

  /** A write begun as a one-shot `Client.Put` or `Client.Upsert` and retried through a
      transaction under the same key, or the other way round: the two encode the operation
      differently, so the retry has no effect and never succeeds. */
  lemma {:induction false} RetryInOtherStyleFails(net: Net, upsert: bool, table: string, cells: Cells, update: Cells,
                                                  call: Call, key: string, fate: Fate)
    requires NetOk(net) && key in net.daemon.bound
    ensures var oneShot := if upsert then ClientUpsertOp(table, cells, update) else ClientPutOp(table, cells);
            var once, staged := TxnPayload([oneShot], key), TxnPayload([Op(call)], key);
            && (net.daemon.bound[key].payload == once ==>
                  Exchange(net, staged, fate).0.daemon == net.daemon && Exchange(net, staged, fate).1.Err?)
            && (net.daemon.bound[key].payload == staged ==>
                  Exchange(net, once, fate).0.daemon == net.daemon && Exchange(net, once, fate).1.Err?)
  {
    var oneShot := if upsert then ClientUpsertOp(table, cells, update) else ClientPutOp(table, cells);
    OneShotDiffersFromStaged(table, cells, update, call);
    PayloadFaithful([oneShot], key);
    PayloadFaithful([Op(call)], key);
    hide Exchange, Op, ClientPutOp, ClientUpsertOp, TxnPayload, KeyOf, OpsOf, NetOk;
    assert [oneShot][0] != [Op(call)][0];
    if net.daemon.bound[key].payload == TxnPayload([oneShot], key) {
      OtherBatchFails(net, TxnPayload([Op(call)], key), fate);
    }
    if net.daemon.bound[key].payload == TxnPayload([Op(call)], key) {
      OtherBatchFails(net, TxnPayload([oneShot], key), fate);
    }
  }

  // ---- The key is what makes retrying safe ----

  /** A reply lost and the commit retried: without a key the batch is applied twice, with one
      it is applied once. */
  lemma KeyIsNecessary(call: Call, orders: Orders, verdict: Verdict, key: string)
    requires Visits(orders, call) && verdict.Serve?
    ensures var es := [Begin, Stage(0, call, orders), Commit(0, key, Delivered(verdict, Lost)),
                       Commit(0, key, Delivered(verdict, Received))];
            |Run(INITIAL, es).net.daemon.applied| == if key == "" then 2 else 1
  {
    var b, s := Begin, Stage(0, call, orders);
    var c, d := Commit(0, key, Delivered(verdict, Lost)), Commit(0, key, Delivered(verdict, Received));
    var w2 := World([Txn([Op(call)], false)], EMPTY_NET, []);
    OpIgnoresOrders(call, orders);
    assert Step(Step(INITIAL, b), s) == w2 by {
      hide Op, OpVisiting;
      assert [] + [Op(call)] == [Op(call)];
    }
    LostThenRetried(Op(call), verdict, key);
    hide Step, Op, Visits;
    RunSnoc(INITIAL, [], b);
    RunSnoc(INITIAL, [b], s);
    RunSnoc(INITIAL, [b, s], c);
    RunSnoc(INITIAL, [b, s, c], d);
    assert [b, s, c] + [d] == [b, s, c, d] && [b, s] + [c] == [b, s, c] && [b] + [s] == [b, s] && [] + [b] == [b];
  }

  lemma LostThenRetried(op: Value, verdict: Verdict, key: string)
    requires verdict.Serve?
    ensures var w2 := World([Txn([op], false)], EMPTY_NET, []);
            var w3 := Step(w2, Commit(0, key, Delivered(verdict, Lost)));
            var w4 := Step(w3, Commit(0, key, Delivered(verdict, Received)));
            |w4.net.daemon.applied| == if key == "" then 2 else 1
  {
    PayloadFaithful([op], key);
    hide TxnPayload, KeyOf, DecodeResults, FailureFor, OpsOf;
  }
}
