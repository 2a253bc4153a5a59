/**
  The retry loop the transactions guide documents, over a transaction object and a network
  on which others go on working while the loop sleeps.
*/
module RetryLoop {
  import opened Values
  import opened Payload
  import opened Errors
  import opened Network
  import opened ClientApi
  import opened Transactions

  /** What happens to one attempt, and what the rest of the world does in the pause after it. */
  datatype Attempt = Attempt(fate: Fate, pause: seq<Traffic>)

  /** The transaction and the network as attempt `n` finds them. */
  ghost function Before(t: Txn, net: Net, key: string, plan: seq<Attempt>, n: nat): (Txn, Net)
    requires n <= |plan|
  {
    if n == 0 then (t, net)
    else
      var (t0, net0) := Before(t, net, key, plan, n - 1);
      var (t1, net1, _) := CommitStep(t0, net0, key, plan[n - 1].fate);
      (t1, AfterTraffic(net1, plan[n - 1].pause))
  }

  /** Attempt `n`: the transaction and the network after it, and its result. */
  ghost function Outcome(t: Txn, net: Net, key: string, plan: seq<Attempt>, n: nat): (Txn, Net, Result<seq<Row>>)
    requires n < |plan|
  {
    var (t', net') := Before(t, net, key, plan, n);
    CommitStep(t', net', key, plan[n].fate)
  }

  /** The results after which the loop returns at once. */
  predicate Final(result: Result<seq<Row>>) {
    result.Ok? || Is(result.error, Conflict) || Is(result.error, Auth)
  }

  /** The loop makes `made` attempts: it goes on past every result that is not final, and
      stops at the first that is, or at the third. */
  ghost predicate Makes(t: Txn, net: Net, key: string, plan: seq<Attempt>, made: nat) {
    && |plan| == 3 && 1 <= made <= 3
    && (forall n | 0 <= n < made - 1 :: !Final(Outcome(t, net, key, plan, n).2))
    && (made < 3 ==> Final(Outcome(t, net, key, plan, made - 1).2))
  }

  method CommitWithRetry(txn: Transaction, key: string, plan: seq<Attempt>)
    returns (err: Option<ClientError>, made: nat)
    requires |plan| == 3
    modifies txn, txn.client.link
    ensures Makes(old(txn.View()), old(txn.client.link.net), key, plan, made)
    ensures var (t', net', result) := Outcome(old(txn.View()), old(txn.client.link.net), key, plan, made - 1);
            && txn.View() == t' && txn.client.link.net == net'
            && err == if result.Ok? then None else Some(result.error)
  {
    hide CommitStep, AfterTraffic, Is;
    ghost var t, net := txn.View(), txn.client.link.net;
    var attempt := 0;
    while attempt < 3
      invariant 0 <= attempt < 3
      invariant (txn.View(), txn.client.link.net) == Before(t, net, key, plan, attempt)
      invariant forall n | 0 <= n < attempt :: !Final(Outcome(t, net, key, plan, n).2)
    {
      var r := txn.Commit(key, plan[attempt].fate);
      if r.Ok? {
        return None, attempt + 1;
      }
      if Is(r.error, Conflict) {
        return Some(r.error), attempt + 1;
      }
      if Is(r.error, Auth) {
        return Some(r.error), attempt + 1;
      }
      if attempt == 2 {
        return Some(r.error), attempt + 1;
      }
      txn.client.link.Elapse(plan[attempt].pause);
      attempt := attempt + 1;
    }
    // The guide's last statement, a second `return nil`: control never gets here.
    assert false;
  }

  // ---- What the loop guarantees ----

  lemma {:induction false} TrafficKeepsNetOk(net: Net, others: seq<Traffic>)
    requires NetOk(net)
    ensures NetOk(AfterTraffic(net, others))
  {
    if others != [] {
      var front := others[..|others| - 1];
      TrafficKeepsNetOk(net, front);
      match others[|others| - 1] {
        case Late(payload, verdict) => LateArrivalKeepsNetOk(AfterTraffic(net, front), payload, verdict);
        case Foreign(payload, fate) => ExchangeKeepsNetOk(AfterTraffic(net, front), payload, fate);
      }
    }
  }

  /** Until an attempt succeeds the transaction stays exactly as it was. */
  lemma {:induction false} LoopKeepsTransaction(t: Txn, net: Net, key: string, plan: seq<Attempt>, n: nat)
    requires n <= |plan| && NetOk(net)
    requires forall k | 0 <= k < n :: Outcome(t, net, key, plan, k).2.Err?
    ensures Before(t, net, key, plan, n).0 == t
    ensures NetOk(Before(t, net, key, plan, n).1)
  {
    if n > 0 {
      LoopKeepsTransaction(t, net, key, plan, n - 1);
      var (t0, net0) := Before(t, net, key, plan, n - 1);
      assert Outcome(t, net, key, plan, n - 1).2.Err?;
      FailedCommitIsRetryable(t0, net0, key, plan[n - 1].fate);
      CommitKeepsNetOk(t0, net0, key, plan[n - 1].fate);
      TrafficKeepsNetOk(CommitStep(t0, net0, key, plan[n - 1].fate).1, plan[n - 1].pause);
    }
  }

  /** Every attempt the loop makes sends one request, and always the same one: the operations
      staged when it started, under its key. */
  lemma EveryAttemptSendsTheBatch(t: Txn, net: Net, key: string, plan: seq<Attempt>, made: nat)
    requires NetOk(net) && !t.committed && t.ops != []
    requires Makes(t, net, key, plan, made)
    ensures forall n | 0 <= n < made ::
              Outcome(t, net, key, plan, n).1.posted == Before(t, net, key, plan, n).1.posted + [TxnPayload(t.ops, key)]
  {
    forall n | 0 <= n < made
      ensures Outcome(t, net, key, plan, n).1.posted == Before(t, net, key, plan, n).1.posted + [TxnPayload(t.ops, key)]
    {
      forall k | 0 <= k < n ensures Outcome(t, net, key, plan, k).2.Err? {
        assert !Final(Outcome(t, net, key, plan, k).2);
      }
      LoopKeepsTransaction(t, net, key, plan, n);
      CommitPosts(t, Before(t, net, key, plan, n).1, key, plan[n].fate);
    }
  }

  /** The loop returns nil exactly when some attempt succeeded; that attempt is then the last. */
  lemma NilMeansSomeAttemptSucceeded(t: Txn, net: Net, key: string, plan: seq<Attempt>, made: nat)
    requires Makes(t, net, key, plan, made)
    ensures Outcome(t, net, key, plan, made - 1).2.Ok?
       <==> exists n | 0 <= n < made :: Outcome(t, net, key, plan, n).2.Ok?
  {
    hide Outcome;
    forall n | 0 <= n < made - 1 ensures Outcome(t, net, key, plan, n).2.Err? {
      assert !Final(Outcome(t, net, key, plan, n).2);
    }
  }

  /** The loop under a non-empty key, started with operations staged: whatever happens on the
      network, at most one batch is applied under the key; and if the loop returns nil, that
      batch is this transaction's, applied exactly once, with its first reply's results. */
  lemma RetryLoopAppliesOnce(t: Txn, net: Net, key: string, plan: seq<Attempt>, made: nat)
    requires NetOk(net) && key != "" && !t.committed && t.ops != []
    requires Makes(t, net, key, plan, made)
    ensures var (t', net', result) := Outcome(t, net, key, plan, made - 1);
            var applied := Under(net'.daemon.applied, key);
            && |applied| <= 1
            && t' == Txn(t.ops, result.Ok?)
            && (result.Ok? ==> |applied| == 1 && applied[0].payload == TxnPayload(t.ops, key)
                               && HoldsResults(applied[0].reply.body, result.value))
  {
    forall n | 0 <= n < made - 1 ensures Outcome(t, net, key, plan, n).2.Err? {
      assert !Final(Outcome(t, net, key, plan, n).2);
    }
    LoopKeepsTransaction(t, net, key, plan, made - 1);
    LastAttempt(t, Before(t, net, key, plan, made - 1).1, key, plan[made - 1].fate);
  }

  lemma LastAttempt(t: Txn, net: Net, key: string, fate: Fate)
    requires NetOk(net) && key != "" && !t.committed && t.ops != []
    ensures var (t', net', result) := CommitStep(t, net, key, fate);
            var applied := Under(net'.daemon.applied, key);
            && |applied| <= 1
            && t' == Txn(t.ops, result.Ok?)
            && (result.Ok? ==> |applied| == 1 && applied[0].payload == TxnPayload(t.ops, key)
                               && HoldsResults(applied[0].reply.body, result.value))
  {
    CommitKeepsNetOk(t, net, key, fate);
    PayloadFaithful(t.ops, key);
    hide TxnPayload, KeyOf, OpsOf, Under, PayloadsOf, ReadReply, HoldsResults;
    if CommitStep(t, net, key, fate).2.Ok? {
      SuccessMeansBound(net, TxnPayload(t.ops, key), fate);
    }
  }

  /** Started on a committed transaction the loop never sends anything, and yet makes all
      three attempts: the error is not one it stops at. */
  lemma LoopOnCommittedTransaction(t: Txn, net: Net, key: string, plan: seq<Attempt>, made: nat)
    requires t.committed && Makes(t, net, key, plan, made)
    ensures made == 3
    ensures forall n | 0 <= n < made ::
              && Outcome(t, net, key, plan, n).2 == Err(TxnCommitted)
              && Outcome(t, net, key, plan, n).1 == Before(t, net, key, plan, n).1
  {
    forall n: nat | n < 3 ensures Before(t, net, key, plan, n).0 == t {
      BeforeWhenCommitted(t, net, key, plan, n);
    }
  }

  lemma {:induction false} BeforeWhenCommitted(t: Txn, net: Net, key: string, plan: seq<Attempt>, n: nat)
    requires t.committed && n <= |plan|
    ensures Before(t, net, key, plan, n).0 == t
  {
    if n > 0 {
      BeforeWhenCommitted(t, net, key, plan, n - 1);
    }
  }

  /** The loop stops at a 409 as at a conflict and at a 401 or 403 as at a failed authentication,
      as documented, exactly when the message does not say "not found:"; it stops at a success, and at no
      other status, nor at a lost, oversized or undecodable reply. */
  lemma WhatStopsTheLoop(status: ErrorStatus, body: Body)
    ensures var result := ReadReply(Reply(status, body));
            && result.Err? && result.error.Response?
            && var missing := NamesMissing(result.error.failure.message);
            && (Is(result.error, Conflict) <==> status == 409 && !missing)
            && (Is(result.error, Auth) <==> status in {401, 403} && !missing)
            && (Final(result) <==> status in {401, 403, 409} && !missing)
    ensures forall rows :: Final(Ok(rows))
    ensures !Final(Err(Transport)) && !Final(Err(TooLarge)) && !Final(Err(Undecodable)) && !Final(Err(TxnCommitted))
  {
    SentinelTable(status, body);
    hide NamesMissing, FailureFor;
  }
}
