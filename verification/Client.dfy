/**
  The client object: its base URL, the request it sends, and the one-shot operations.
*/
module ClientApi {
  import opened Values
  import opened CellFlattening
  import opened Payload
  import opened Errors
  import opened Network
  import Routes

  /** The connection to the daemon.  `net` is everything on its far side; `visited` lists the
      URLs requested. */
  class Link {
    var net: Net
    var visited: seq<string>

    constructor ()
      ensures net == EMPTY_NET && visited == []
    {
      net, visited := EMPTY_NET, [];
    }

    method Send(url: string, payload: Value, fate: Fate) returns (arrival: Arrival)
      modifies this
      ensures (net, arrival) == Carry(old(net), payload, fate)
      ensures visited == old(visited) + [url]
    {
      var (net', a) := Carry(net, payload, fate);
      net, arrival := net', a;
      visited := visited + [url];
    }

    /** Time passes: requests given up on arrive, other clients commit. */
    method Elapse(others: seq<Traffic>)
      modifies this`net
      ensures net == AfterTraffic(old(net), others)
    {
      var i := 0;
      assert others[..0] == [];
      while i < |others|
        invariant 0 <= i <= |others|
        invariant net == AfterTraffic(old(net), others[..i])
      {
        assert others[..i + 1][..i] == others[..i];
        net := match others[i]
          case Late(payload, verdict) => LateArrival(net, payload, verdict)
          case Foreign(payload, fate) => Carry(net, payload, fate).0;
        i := i + 1;
      }
      assert others[..i] == others;
    }
  }

  /** What the rest of the world does to the connection. */
  datatype Traffic =
    | Late(payload: Value, verdict: Verdict)
    | Foreign(payload: Value, fate: Fate)

  ghost function AfterTraffic(net: Net, others: seq<Traffic>): Net {
    if others == [] then net
    else
      var before := AfterTraffic(net, others[..|others| - 1]);
      match others[|others| - 1]
      case Late(payload, verdict) => LateArrival(before, payload, verdict)
      case Foreign(payload, fate) => Carry(before, payload, fate).0
  }

  /** The first of the per-operation results. */
  function FirstResult(results: seq<Row>): Row {
    if |results| == 0 then map[] else results[0]
  }

  class Client {
    const link: Link
    const baseURL: string

    constructor (url: string, link: Link)
      ensures this.link == link && baseURL == Routes.BaseURL(url)
    {
      this.link := link;
      baseURL := Routes.TrimRight(if url == "" then Routes.DEFAULT_BASE_URL else url);
    }

    /** The body of a 2xx response, or the typed error. */
    method Post(path: string, payload: Value, fate: Fate) returns (r: Result<Body>)
      modifies link
      ensures link.net == Carry(old(link.net), payload, fate).0
      ensures link.visited == old(link.visited) + [Routes.RequestURL(baseURL, path)]
      ensures r == match Carry(old(link.net), payload, fate).1
                   case Nothing => Err(Transport)
                   case Oversize => Err(TooLarge)
                   case Got(Reply(status, body)) =>
                     if 200 <= status < 300 then Ok(body) else Err(Response(FailureFor(status, body)))
    {
      hide Carry, FailureFor;
      var arrival := link.Send(baseURL + "/" + Routes.TrimLeft(path), payload, fate);
      if arrival.Nothing? {
        return Err(Transport);
      }
      if arrival.Oversize? {
        return Err(TooLarge);
      }
      var Reply(status, body) := arrival.reply;
      if status < 200 || status >= 300 {
        var re := NewResponseError(status, body);
        return Err(Response(re.View()));
      }
      return Ok(body);
    }

    /** Sends a batch; an empty one is not sent at all. */
    method CommitTxn(ops: seq<Value>, key: string, fate: Fate) returns (r: Result<seq<Row>>)
      modifies link
      ensures ops == [] ==> r == Ok([]) && link.net == old(link.net) && link.visited == old(link.visited)
      ensures ops != [] ==> (link.net, r) == Exchange(old(link.net), TxnPayload(ops, key), fate)
      ensures ops != [] ==> link.visited == old(link.visited) + [Routes.RequestURL(baseURL, "/kit/txn")]
    {
      if |ops| == 0 {
        return Ok([]);
      }
      r := CommitOps(ops, key, fate);
    }

    /** Builds the payload, posts it and decodes the results. */
    method CommitOps(ops: seq<Value>, key: string, fate: Fate) returns (r: Result<seq<Row>>)
      modifies link
      ensures (link.net, r) == Exchange(old(link.net), TxnPayload(ops, key), fate)
      ensures link.visited == old(link.visited) + [Routes.RequestURL(baseURL, "/kit/txn")]
    {
      hide Carry, FailureFor, DecodeResults;
      var fields: Row := map["ops" := Array(ops)];
      if key != "" {
        fields := fields["idempotency_key" := Text(key)];
      }
      var body := Post("/kit/txn", Object(fields), fate);
      match body {
        case Err(e) => r := Err(e);
        case Ok(b) => r := DecodeResults(b);
      }
    }

    method Put(table: string, cells: Cells, order: seq<int64>, key: string, fate: Fate) returns (r: Result<Row>)
      requires IsIteration(order, cells.Map())
      modifies link
      ensures var (net', result) := Exchange(old(link.net), TxnPayload([ClientPutOp(table, cells)], key), fate);
              link.net == net' && r == match result
                                       case Err(e) => Err(e)
                                       case Ok(rows) => Ok(if rows == [] then map[] else rows[0])
    {
      hide Exchange, TxnPayload;
      var flat := FlattenCells(cells, order);
      assert flat == Flat(cells.Map());
      var results := CommitOps([Tagged("put", map["table" := Text(table), "cells" := Array(flat)])], key, fate);
      match results {
        case Err(e) => r := Err(e);
        case Ok(rows) => r := Ok(FirstResult(rows));
      }
    }

    method Upsert(table: string, cells: Cells, updateCells: Cells, orders: Orders, key: string, fate: Fate)
      returns (r: Result<Row>)
      requires IsIteration(orders.cells, cells.Map()) && IsIteration(orders.update, updateCells.Map())
      modifies link
      ensures var payload := TxnPayload([ClientUpsertOp(table, cells, updateCells)], key);
              var (net', result) := Exchange(old(link.net), payload, fate);
              link.net == net' && r == match result
                                       case Err(e) => Err(e)
                                       case Ok(rows) => Ok(if rows == [] then map[] else rows[0])
    {
      hide Exchange, TxnPayload;
      var flat := FlattenCells(cells, orders.cells);
      assert flat == Flat(cells.Map());
      var op: Row := map["table" := Text(table), "cells" := Array(flat)];
      if !updateCells.NilCells? {
        var update := FlattenCells(updateCells, orders.update);
        assert update == Flat(updateCells.Map());
        op := op["update_cells" := Array(update)];
      }
      var results := CommitOps([Tagged("upsert", op)], key, fate);
      match results {
        case Err(e) => r := Err(e);
        case Ok(rows) => r := Ok(FirstResult(rows));
      }
    }
  }
}
