/**
  `Transaction`: operations staged locally and committed in one request.

  `Txn` is the value of a transaction object and `CommitStep` what one `Commit` does to it
  and to the network.  The methods of the class are proved against them.
*/
module Transactions {
  import opened Values
  import opened CellFlattening
  import opened Payload
  import opened Errors
  import opened Network
  import opened ClientApi
  import Routes

  datatype Txn = Txn(ops: seq<Value>, committed: bool)

  /** One `Commit`: the transaction afterwards, the network afterwards, and the result. */
  ghost function CommitStep(t: Txn, net: Net, key: string, fate: Fate): (Txn, Net, Result<seq<Row>>) {
    if t.committed then (t, net, Err(TxnCommitted))
    else if t.ops == [] then (Txn(t.ops, true), net, Ok([]))
    else
      var (net', result) := Exchange(net, TxnPayload(t.ops, key), fate);
      (Txn(t.ops, result.Ok?), net', result)
  }

  /** One `Rollback`: the transaction afterwards and the result. */
  function RollbackStep(t: Txn): (Txn, Result<()>) {
    if t.committed then (t, Err(TxnCommitted)) else (Txn([], false), Ok(()))
  }

  class Transaction {
    const client: Client
    var ops: seq<Value>
    var committed: bool

    constructor Begin(client: Client)
      ensures this.client == client && View() == Txn([], false)
    {
      this.client := client;
      ops, committed := [], false;
    }

    function View(): Txn
      reads this
    {
      Txn(ops, committed)
    }

    method Put(table: string, cells: Cells, returning: bool, order: seq<int64>)
      requires IsIteration(order, cells.Map())
      modifies this
      ensures ops == old(ops) + [Op(Call.Put(table, cells, returning))] && committed == old(committed)
      ensures Count() == old(Count()) + 1
    {
      var flat := FlattenCells(cells, order);
      assert flat == Flat(cells.Map());
      ops := ops + [Tagged("put", map["table" := Text(table), "cells" := Array(flat), "returning" := Bool(returning)])];
    }

    method Upsert(table: string, cells: Cells, updateCells: Cells, returning: bool, orders: Orders)
      requires IsIteration(orders.cells, cells.Map()) && IsIteration(orders.update, updateCells.Map())
      modifies this
      ensures ops == old(ops) + [Op(Call.Upsert(table, cells, updateCells, returning))] && committed == old(committed)
      ensures Count() == old(Count()) + 1
    {
      var flat := FlattenCells(cells, orders.cells);
      assert flat == Flat(cells.Map());
      var op: Row := map["table" := Text(table), "cells" := Array(flat), "returning" := Bool(returning)];
      if !updateCells.NilCells? {
        var update := FlattenCells(updateCells, orders.update);
        assert update == Flat(updateCells.Map());
        op := op["update_cells" := Array(update)];
      }
      ops := ops + [Tagged("upsert", op)];
    }

    method Delete(table: string, rowID: int64)
      modifies this
      ensures ops == old(ops) + [Op(Call.Delete(table, rowID))] && committed == old(committed)
      ensures Count() == old(Count()) + 1
    {
      ops := ops + [Tagged("delete", map["table" := Text(table), "row_id" := Number(rowID)])];
    }

    method DeleteByPK(table: string, pk: Value)
      modifies this
      ensures ops == old(ops) + [Op(Call.DeleteByPK(table, pk))] && committed == old(committed)
      ensures Count() == old(Count()) + 1
    {
      ops := ops + [Tagged("delete_by_pk", map["table" := Text(table), "pk" := pk])];
    }

    function Count(): nat
      reads this
    {
      |ops|
    }

    method Commit(key: string, fate: Fate) returns (r: Result<seq<Row>>)
      modifies this, client.link
      ensures (View(), client.link.net, r) == CommitStep(old(View()), old(client.link.net), key, fate)
      ensures client.link.visited == old(client.link.visited)
              + if !old(committed) && old(ops) != [] then [Routes.RequestURL(client.baseURL, "/kit/txn")] else []
    {
      if committed {
        return Err(TxnCommitted);
      }
      if |ops| == 0 {
        committed := true;
        return Ok([]);
      }
      hide Exchange, TxnPayload;
      r := client.CommitTxn(ops, key, fate);
      if r.Err? {
        return;
      }
      committed := true;
    }

    method Rollback() returns (r: Result<()>)
      modifies this
      ensures (View(), r) == RollbackStep(old(View()))
      ensures old(committed) ==> r == Err(TxnCommitted) && ops == old(ops) && committed
      ensures !old(committed) ==> r == Ok(()) && Count() == 0 && !committed
    {
      if committed {
        return Err(TxnCommitted);
      }
      ops := [];
      return Ok(());
    }
  }

  /** A committed transaction refuses everything, and an empty one commits without a request. */
  lemma CommittedRefuses(t: Txn, net: Net, key: string, fate: Fate)
    ensures t.committed ==>
              CommitStep(t, net, key, fate) == (t, net, Err(TxnCommitted)) && RollbackStep(t) == (t, Err(TxnCommitted))
    ensures !t.committed ==> RollbackStep(t) == (Txn([], false), Ok(()))
    ensures !t.committed && t.ops == [] ==> CommitStep(t, net, key, fate) == (Txn([], true), net, Ok([]))
  {
  }

  /** What a commit returns when the daemon serves the request and its reply comes through: what
      the new reply holds if the key is free, what the first reply held if the key belongs to
      this batch, and a conflict if it belongs to another. */
  lemma {:induction false} WhatCommitReturns(t: Txn, net: Net, key: string, verdict: Verdict)
    requires NetOk(net) && !t.committed && t.ops != [] && verdict.Serve?
    ensures var d, payload := net.daemon, TxnPayload(t.ops, key);
            var (t', _, result) := CommitStep(t, net, key, Delivered(verdict, Received));
            && t' == Txn(t.ops, result.Ok?)
            && (key !in d.bound ==> ReadsAs(verdict.body, result))
            && (key in d.bound && d.bound[key].payload == payload ==> ReadsAs(d.bound[key].reply.body, result))
            && (key in d.bound && d.bound[key].payload != payload ==>
                  result == Err(Response(FailureFor(409, verdict.mismatch))))
  {
    var d := net.daemon;
    PayloadFaithful(t.ops, key);
    BodyReadsAs(if key in d.bound then d.bound[key].reply.body else verdict.body);
    hide DecodeResults, ReadsAs, FailureFor, TxnPayload, KeyOf, Under, PayloadsOf, OpsOf;
  }

  /** A failed commit leaves the transaction as it was, so it can be tried again. */
  lemma FailedCommitIsRetryable(t: Txn, net: Net, key: string, fate: Fate)
    requires CommitStep(t, net, key, fate).2.Err?
    ensures CommitStep(t, net, key, fate).0 == t
  {
  }

  /** A commit contacts the daemon exactly when the transaction is open and not empty. */
  lemma CommitPosts(t: Txn, net: Net, key: string, fate: Fate)
    ensures CommitStep(t, net, key, fate).1.posted
         == net.posted + if !t.committed && t.ops != [] then [TxnPayload(t.ops, key)] else []
  {
  }

  /** Rolling back after a failed commit succeeds and discards the operations: a commit after
      that sends nothing at all.  The guide says the transaction has by then entered the
      committed state and `Rollback` fails; the code does neither. */
  lemma RollbackAfterFailedCommit(t: Txn, net: Net, key: string, fate: Fate, key': string, fate': Fate)
    requires !t.committed && CommitStep(t, net, key, fate).2.Err?
    ensures var (t1, net1, _) := CommitStep(t, net, key, fate);
            var (t2, r) := RollbackStep(t1);
            r == Ok(()) && CommitStep(t2, net1, key', fate') == (Txn([], true), net1, Ok([]))
  {
    hide Exchange;
    FailedCommitIsRetryable(t, net, key, fate);
  }

  lemma CommitKeepsNetOk(t: Txn, net: Net, key: string, fate: Fate)
    requires NetOk(net)
    ensures NetOk(CommitStep(t, net, key, fate).1)
  {
    ExchangeKeepsNetOk(net, TxnPayload(t.ops, key), fate);
  }
}
