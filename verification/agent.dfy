/**
 The store-side operations of `PrinterAgent` (agent.py): saving metrics and
 queueing them for the server, the metrics pass, draining the send queue,
 and setting a serial number by hand.  Every message for the server goes
 through the `send_queue` table and leaves only when the server accepts it.
 */
module Agent {
  import opened Wrappers
  import opened Payload
  import Store
  import Sampling

  /** The message `_save_metrics` queues for a stored sample. */
  function MetricsMessage(agentId: string, printerId: nat, metrics: map<string, Value>): Value {
    Dict(map["type" := Str("metrics"), "agent_id" := Str(agentId), "printer_id" := Num(printerId),
             "data" := Dict(metrics)])
  }

  /** The message `set_printer_serial` queues for a changed serial. */
  function UpdateMessage(agentId: string, printerId: nat, ip: string, serial: string): Value {
    Dict(map["type" := Str("printer_update"), "agent_id" := Str(agentId), "printer_id" := Num(printerId),
             "data" := Dict(map["ip_address" := Str(ip), "serial_number" := Str(serial)])])
  }

  /**
   `_save_metrics`: one `metrics` row holding the sample's columns and one
   queued `metrics` message carrying the agent id, the printer id and the
   whole sample; the printers are untouched.  When the INSERT raises (no
   timestamp, or a list or dict column) nothing is written or queued and the
   flag is false.
   */
  function SaveMetrics(st: Store.Store, agentId: string, printerId: nat, metrics: map<string, Value>): (r: (Store.Store, bool))
    ensures r.1 <==> Store.Insertable(metrics)
    ensures !r.1 ==> r.0 == st
    ensures r.1 ==> r.0.metrics == st.metrics + [Store.MetricRow(st.nextMetricId, printerId,
      Some(metrics["timestamp"]), Store.Column(metrics, "page_count"), Store.Column(metrics, "toner_levels"),
      Store.Column(metrics, "status"), Store.Column(metrics, "error_state"), Store.Column(metrics, "raw_data"))]
    ensures r.1 ==> r.0.queue == st.queue + [Store.QueueItem(st.nextQueueId, MetricsMessage(agentId, printerId, metrics))]
    ensures r.0.printers == st.printers
    ensures Store.Valid(st) ==> Store.Valid(r.0)
  {
    match Store.AppendMetrics(st, printerId, metrics)
    case None => (st, false)
    case Some(st1) => (Store.Enqueue(st1, MetricsMessage(agentId, printerId, metrics)), true)
  }

  /** `_save_metrics` for each sample in turn. */
  function SaveAll(st: Store.Store, agentId: string, samples: seq<Sampling.Sample>): Store.Store
    decreases |samples|
  {
    if |samples| == 0 then st
    else
      var k := |samples| - 1;
      SaveMetrics(SaveAll(st, agentId, samples[..k]), agentId, samples[k].row.id, samples[k].metrics).0
  }

  /** Saving `samples` keeps the printers and the stored rows and messages, and adds one of each per sample. */
  lemma {:induction false} SaveAllGrows(st: Store.Store, agentId: string, samples: seq<Sampling.Sample>)
    requires Sampling.AllInsertable(samples)
    ensures SaveAll(st, agentId, samples).printers == st.printers
    ensures |SaveAll(st, agentId, samples).metrics| == |st.metrics| + |samples|
    ensures SaveAll(st, agentId, samples).metrics[..|st.metrics|] == st.metrics
    ensures |SaveAll(st, agentId, samples).queue| == |st.queue| + |samples|
    ensures SaveAll(st, agentId, samples).queue[..|st.queue|] == st.queue
    ensures Store.Valid(st) ==> Store.Valid(SaveAll(st, agentId, samples))
    decreases |samples|
  {
    if |samples| > 0 {
      var k := |samples| - 1;
      SaveAllGrows(st, agentId, samples[..k]);
      var mid := SaveAll(st, agentId, samples[..k]);
      var st' := SaveAll(st, agentId, samples);
      assert st' == SaveMetrics(mid, agentId, samples[k].row.id, samples[k].metrics).0;
      Sampling.AllInsertablePrefix(samples, k);
      assert st'.metrics[..|st.metrics|] == mid.metrics[..|mid.metrics|][..|st.metrics|];
      assert st'.queue[..|st.queue|] == (st'.queue[..|mid.queue|])[..|st.queue|];
    }
  }

  /** The metrics rows from position `base` on belong to the printers of `samples`, in order. */
  ghost predicate RowsFor(metrics: seq<Store.MetricRow>, base: nat, samples: seq<Sampling.Sample>) {
    && |metrics| == base + |samples|
    && forall j :: 0 <= j < |samples| ==> metrics[base + j].printerId == samples[j].row.id
  }

  lemma RowsStep(metrics: seq<Store.MetricRow>, row: Store.MetricRow, base: nat, samples: seq<Sampling.Sample>)
    requires |samples| > 0 && RowsFor(metrics, base, samples[..|samples| - 1])
    requires row.printerId == samples[|samples| - 1].row.id
    ensures RowsFor(metrics + [row], base, samples)
  {
    var k := |samples| - 1;
    forall j | 0 <= j < |samples| ensures (metrics + [row])[base + j].printerId == samples[j].row.id {
      if j < k {
        assert samples[..k][j] == samples[j];
      }
    }
  }

  /** The `j`-th metrics row added by `SaveAll` belongs to the `j`-th sample's printer. */
  lemma {:induction false} SaveAllRows(st: Store.Store, agentId: string, samples: seq<Sampling.Sample>)
    requires Sampling.AllInsertable(samples)
    ensures RowsFor(SaveAll(st, agentId, samples).metrics, |st.metrics|, samples)
    decreases |samples|
  {
    if |samples| > 0 {
      var k := |samples| - 1;
      SaveAllRows(st, agentId, samples[..k]);
      var mid := SaveAll(st, agentId, samples[..k]);
      var st' := SaveMetrics(mid, agentId, samples[k].row.id, samples[k].metrics).0;
      Sampling.AllInsertablePrefix(samples, k);
      assert st'.metrics == mid.metrics + [st'.metrics[|mid.metrics|]];
      RowsStep(mid.metrics, st'.metrics[|mid.metrics|], |st.metrics|, samples);
    }
  }

  /** The messages from position `base` on carry `samples`, in order. */
  ghost predicate Carries(queue: seq<Store.QueueItem>, base: nat, agentId: string, samples: seq<Sampling.Sample>) {
    && |queue| == base + |samples|
    && forall j :: 0 <= j < |samples| ==>
         queue[base + j].data == MetricsMessage(agentId, samples[j].row.id, samples[j].metrics)
  }

  lemma CarriesStep(queue: seq<Store.QueueItem>, base: nat, agentId: string, samples: seq<Sampling.Sample>, item: Store.QueueItem)
    requires |samples| > 0 && Carries(queue, base, agentId, samples[..|samples| - 1])
    requires item.data == MetricsMessage(agentId, samples[|samples| - 1].row.id, samples[|samples| - 1].metrics)
    ensures Carries(queue + [item], base, agentId, samples)
  {
    var k := |samples| - 1;
    forall j | 0 <= j < |samples|
      ensures (queue + [item])[base + j].data == MetricsMessage(agentId, samples[j].row.id, samples[j].metrics)
    {
      if j < k {
        assert samples[..k][j] == samples[j];
      }
    }
  }

  /** The messages queued by `SaveAll` carry the samples, in order, with their printers' ids. */
  lemma {:induction false} SaveAllMessages(st: Store.Store, agentId: string, samples: seq<Sampling.Sample>)
    requires Sampling.AllInsertable(samples)
    ensures Carries(SaveAll(st, agentId, samples).queue, |st.queue|, agentId, samples)
    decreases |samples|
  {
    if |samples| > 0 {
      var k := |samples| - 1;
      SaveAllMessages(st, agentId, samples[..k]);
      var mid := SaveAll(st, agentId, samples[..k]);
      assert SaveAll(st, agentId, samples) == SaveMetrics(mid, agentId, samples[k].row.id, samples[k].metrics).0;
      Sampling.AllInsertablePrefix(samples, k);
      CarriesStep(mid.queue, |st.queue|, agentId, samples, Store.QueueItem(mid.nextQueueId,
        MetricsMessage(agentId, samples[k].row.id, samples[k].metrics)));
    }
  }

  /**
   `collect_metrics`: poll every printer of the table in order and save the
   sample of each that answered; the `k`-th poll reads the clock as `clock(k)`.
   */
  function CollectMetrics(poll: Sampling.Poll, st: Store.Store, agentId: string, clock: nat -> string): Store.Store {
    SaveAll(st, agentId, Sampling.Samples(poll, st.printers, clock))
  }

  /**
   The metrics pass stores one row and queues one message for each printer
   that answered, each message carrying that printer's id and sample, and
   leaves the printers as they were.
   */
  lemma CollectMetricsEffect(poll: Sampling.Poll, st: Store.Store, agentId: string, clock: nat -> string)
    requires Sampling.Stamped(poll)
    ensures CollectMetrics(poll, st, agentId, clock).printers == st.printers
    ensures |CollectMetrics(poll, st, agentId, clock).metrics| == |st.metrics| + |Sampling.Samples(poll, st.printers, clock)|
    ensures Carries(CollectMetrics(poll, st, agentId, clock).queue, |st.queue|, agentId, Sampling.Samples(poll, st.printers, clock))
    ensures CollectMetrics(poll, st, agentId, clock).queue[..|st.queue|] == st.queue
    ensures Store.Valid(st) ==> Store.Valid(CollectMetrics(poll, st, agentId, clock))
  {
    var samples := Sampling.Samples(poll, st.printers, clock);
    Sampling.SamplesStamped(poll, st.printers, clock);
    SaveAllGrows(st, agentId, samples);
    SaveAllMessages(st, agentId, samples);
  }

  /** Some message from position `base` on reports `metrics` for printer `printerId`. */
  ghost predicate Reports(q: seq<Store.QueueItem>, base: nat, agentId: string, printerId: nat, metrics: map<string, Value>) {
    exists j :: base <= j < |q| && q[j].data == MetricsMessage(agentId, printerId, metrics)
  }

  /** A queue carrying the samples reports every printer that answered. */
  lemma CarriesAnswered(poll: Sampling.Poll, rows: seq<Store.PrinterRow>, clock: nat -> string,
                        q: seq<Store.QueueItem>, base: nat, agentId: string, samples: seq<Sampling.Sample>)
    requires samples == Sampling.Samples(poll, rows, clock) && Carries(q, base, agentId, samples)
    ensures forall k :: 0 <= k < |rows| && poll(rows[k].ip, clock(k)).Some? ==>
      Reports(q, base, agentId, rows[k].id, poll(rows[k].ip, clock(k)).value)
  {
    Sampling.SamplesExact(poll, rows, clock);
    forall k | 0 <= k < |rows| && poll(rows[k].ip, clock(k)).Some?
      ensures Reports(q, base, agentId, rows[k].id, poll(rows[k].ip, clock(k)).value)
    {
      assert Sampling.Contributed(poll, rows, clock, k, samples);
      var i :| 0 <= i < |samples| && Sampling.Answered(poll, rows, clock, k, samples[i]);
      assert q[base + i].data == MetricsMessage(agentId, samples[i].row.id, samples[i].metrics);
    }
  }

  /** Every message of a queue carrying the samples is for a printer that answered with that sample. */
  lemma CarriesOnlyAnswered(poll: Sampling.Poll, rows: seq<Store.PrinterRow>, clock: nat -> string,
                            q: seq<Store.QueueItem>, base: nat, agentId: string, samples: seq<Sampling.Sample>)
    requires samples == Sampling.Samples(poll, rows, clock) && Carries(q, base, agentId, samples)
    ensures forall j :: base <= j < |q| ==>
      exists k :: (0 <= k < |rows| && poll(rows[k].ip, clock(k)).Some? &&
        q[j].data == MetricsMessage(agentId, rows[k].id, poll(rows[k].ip, clock(k)).value))
  {
    Sampling.SamplesExact(poll, rows, clock);
    forall j | base <= j < |q|
      ensures exists k :: (0 <= k < |rows| && poll(rows[k].ip, clock(k)).Some? &&
        q[j].data == MetricsMessage(agentId, rows[k].id, poll(rows[k].ip, clock(k)).value))
    {
      var i := j - base;
      assert Sampling.FromSnapshot(poll, rows, clock, samples[i]);
      var k :| 0 <= k < |rows| && Sampling.Answered(poll, rows, clock, k, samples[i]);
      assert q[base + i].data == MetricsMessage(agentId, samples[i].row.id, samples[i].metrics);
    }
  }

  /**
   Every printer that answers its poll gets a message with its id and its
   sample, and every new message is for a printer of the table that answered
   with exactly that sample.
   */
  lemma CollectMetricsReports(poll: Sampling.Poll, st: Store.Store, agentId: string, clock: nat -> string)
    requires Sampling.Stamped(poll)
    ensures forall k :: 0 <= k < |st.printers| && poll(st.printers[k].ip, clock(k)).Some? ==>
      Reports(CollectMetrics(poll, st, agentId, clock).queue, |st.queue|, agentId, st.printers[k].id,
              poll(st.printers[k].ip, clock(k)).value)
    ensures var q := CollectMetrics(poll, st, agentId, clock).queue;
      forall j :: |st.queue| <= j < |q| ==>
        exists k :: (0 <= k < |st.printers| && poll(st.printers[k].ip, clock(k)).Some? &&
          q[j].data == MetricsMessage(agentId, st.printers[k].id, poll(st.printers[k].ip, clock(k)).value))
  {
    var samples := Sampling.Samples(poll, st.printers, clock);
    var q := CollectMetrics(poll, st, agentId, clock).queue;
    CollectMetricsEffect(poll, st, agentId, clock);
    CarriesAnswered(poll, st.printers, clock, q, |st.queue|, agentId, samples);
    CarriesOnlyAnswered(poll, st.printers, clock, q, |st.queue|, agentId, samples);
  }

  /** `LIMIT 100` of the sync query. */
  const SyncBatch: nat := 100

  /** The items one sync pass considers: the oldest `SyncBatch` queued ones. */
  function Batch(queue: seq<Store.QueueItem>): (b: seq<Store.QueueItem>)
    ensures |b| == if |queue| < SyncBatch then |queue| else SyncBatch
    ensures b == queue[..|b|]
  {
    if |queue| < SyncBatch then queue else queue[..SyncBatch]
  }

  /** `_send_to_server`: the request for one queued message, to `<url>/data` with the token as bearer. */
  function SendRequest(url: string, token: string, item: Store.QueueItem): Request {
    Post(url + "/data", Some(Str(token)), item.data)
  }

  /**
   The server as one sync pass sees it: its answer to the post of the queued
   message with a given id.  Keying on the id as well as the request lets two
   queued copies of the same message be answered differently.
   */
  type Server = (nat, Request) -> Response

  /** The server's answer to each queued message, as `_send_to_server` posts it. */
  function Replies(server: Server, url: string, token: string): Store.QueueItem -> Response {
    (item: Store.QueueItem) => server(item.id, SendRequest(url, token, item))
  }

  /** The items of `items` the server did not accept, in their order. */
  function Unacked(items: seq<Store.QueueItem>, reply: Store.QueueItem -> Response): (r: seq<Store.QueueItem>)
    decreases |items|
  {
    if |items| == 0 then []
    else
      var k := |items| - 1;
      var prev := Unacked(items[..k], reply);
      if IsOk(reply(items[k])) then prev else prev + [items[k]]
  }

  /** Ids strictly increasing along a sequence of queue items. */
  ghost predicate Ascending(items: seq<Store.QueueItem>) {
    forall i, j :: 0 <= i < j < |items| ==> items[i].id < items[j].id
  }

  /**
   An item stays iff it was not accepted; what stays keeps its order (ids
   still ascend), and no stay-behind has an id beyond the last input's.
   */
  lemma {:induction false} UnackedExact(items: seq<Store.QueueItem>, reply: Store.QueueItem -> Response)
    ensures forall x :: x in Unacked(items, reply) <==> x in items && !IsOk(reply(x))
    ensures Ascending(items) ==> Ascending(Unacked(items, reply))
    decreases |items|
  {
    if |items| > 0 {
      var k := |items| - 1;
      var prefix := items[..k];
      UnackedExact(prefix, reply);
      assert items == prefix + [items[k]];
      var prev := Unacked(prefix, reply);
      if !IsOk(reply(items[k])) && Ascending(items) {
        forall x | x in prev ensures x.id < items[k].id {
          var i :| 0 <= i < |prefix| && prefix[i] == x;
        }
        var r := prev + [items[k]];
        forall i, j | 0 <= i < j < |r| ensures r[i].id < r[j].id {
          if j < |prev| {
            assert Ascending(prefix);
          } else {
            assert r[i] in prev;
          }
        }
      }
    }
  }

  /** The queue minus the item with id `id` (`DELETE FROM send_queue WHERE id = ?`). */
  function RemoveId(queue: seq<Store.QueueItem>, id: nat): (r: seq<Store.QueueItem>)
    ensures forall x :: x in r <==> x in queue && x.id != id
    decreases |queue|
  {
    if |queue| == 0 then []
    else if queue[0].id == id then RemoveId(queue[1..], id)
    else [queue[0]] + RemoveId(queue[1..], id)
  }

  lemma {:induction false} RemoveAbsent(queue: seq<Store.QueueItem>, id: nat)
    requires forall x :: x in queue ==> x.id != id
    ensures RemoveId(queue, id) == queue
    decreases |queue|
  {
    if |queue| > 0 {
      RemoveAbsent(queue[1..], id);
    }
  }

  /** Deleting by id the one item with that id removes exactly it. */
  lemma {:induction false} RemoveOne(a: seq<Store.QueueItem>, x: Store.QueueItem, b: seq<Store.QueueItem>)
    requires forall y :: y in a + b ==> y.id != x.id
    ensures RemoveId(a + [x] + b, x.id) == a + b
    decreases |a|
  {
    if |a| == 0 {
      assert a + [x] + b == [x] + b;
      assert ([x] + b)[1..] == b;
      RemoveAbsent(b, x.id);
    } else {
      assert (a + [x] + b)[0] == a[0];
      assert (a + [x] + b)[1..] == a[1..] + [x] + b;
      RemoveOne(a[1..], x, b);
      assert a + b == [a[0]] + (a[1..] + b);
    }
  }

  /**
   The queue a sync pass leaves when the server accepts what `reply` says:
   the batch's unaccepted items, then everything behind the batch.
   */
  function AfterSync(queue: seq<Store.QueueItem>, reply: Store.QueueItem -> Response): seq<Store.QueueItem> {
    Unacked(Batch(queue), reply) + queue[|Batch(queue)|..]
  }

  /** One step of the sync loop: the `i`-th batch item is deleted iff the server accepted it. */
  lemma SyncStep(batch: seq<Store.QueueItem>, rest: seq<Store.QueueItem>, i: nat, reply: Store.QueueItem -> Response)
    requires Ascending(batch + rest) && i < |batch|
    ensures IsOk(reply(batch[i])) ==>
      RemoveId(Unacked(batch[..i], reply) + batch[i..] + rest, batch[i].id) == Unacked(batch[..i + 1], reply) + batch[i + 1..] + rest
    ensures !IsOk(reply(batch[i])) ==>
      Unacked(batch[..i], reply) + batch[i..] + rest == Unacked(batch[..i + 1], reply) + batch[i + 1..] + rest
  {
    var item := batch[i];
    var q := batch + rest;
    var done := Unacked(batch[..i], reply);
    var later := batch[i + 1..] + rest;
    assert batch[..i + 1][..i] == batch[..i] && batch[..i + 1][i] == item;
    assert batch[i..] == [item] + batch[i + 1..];
    assert done + batch[i..] + rest == done + [item] + later;
    if IsOk(reply(item)) {
      UnackedExact(batch[..i], reply);
      forall y: Store.QueueItem | y in done + later ensures y.id != item.id {
        if y in done {
          var j :| 0 <= j < i && batch[..i][j] == y;
          assert q[j] == y && q[i] == item;
        } else {
          var j :| 0 <= j < |later| && later[j] == y;
          assert q[i + 1 + j] == y && q[i] == item;
        }
      }
      RemoveOne(done, item, later);
      assert done + later == Unacked(batch[..i + 1], reply) + batch[i + 1..] + rest;
    }
  }

  /**
   `sync_with_server`: with an empty token, fail and touch nothing.  Otherwise
   send the oldest (up to 100) queued messages one by one, delete each the
   server accepted with a 200, and report success whatever the replies were.
   */
  method SyncWithServer(st: Store.Store, url: string, token: string, server: Server)
    returns (ok: bool, st': Store.Store)
    requires Ascending(st.queue)
    ensures token == "" ==> !ok && st' == st
    ensures token != "" ==> ok && st' == st.(queue := AfterSync(st.queue, Replies(server, url, token)))
  {
    if token == "" {
      return false, st;
    }
    var batch := Batch(st.queue);
    var rest := st.queue[|batch|..];
    assert st.queue == batch + rest;
    var queue := SendBatch(batch, rest, url, token, server);
    return true, st.(queue := queue);
  }

  /** Posts each item of `batch` in order and deletes those the server accepted, ahead of `rest`. */
  method SendBatch(batch: seq<Store.QueueItem>, rest: seq<Store.QueueItem>, url: string, token: string,
                   server: Server)
    returns (queue: seq<Store.QueueItem>)
    requires Ascending(batch + rest)
    ensures queue == Unacked(batch, Replies(server, url, token)) + rest
  {
    ghost var reply := Replies(server, url, token);
    queue := batch + rest;
    assert batch[..0] == [] && batch[0..] == batch;
    var i := 0;
    while i < |batch|
      invariant 0 <= i <= |batch|
      invariant queue == Unacked(batch[..i], reply) + batch[i..] + rest
    {
      SyncStep(batch, rest, i, reply);
      var answer := server(batch[i].id, SendRequest(url, token, batch[i]));
      assert answer == reply(batch[i]);
      if IsOk(answer) {
        queue := RemoveId(queue, batch[i].id);
      }
      i := i + 1;
    }
    assert batch[..|batch|] == batch && batch[|batch|..] == [];
  }

  /**
   One sync pass deletes exactly the accepted items of the first 100, keeps
   the rejected ones in order ahead of the untouched rest, and keeps the
   queue's ids ascending.
   */
  lemma SyncDeletesOnlyAccepted(queue: seq<Store.QueueItem>, reply: Store.QueueItem -> Response)
    requires Ascending(queue)
    ensures forall x :: x in AfterSync(queue, reply) <==>
      x in queue && (x in Batch(queue) ==> !IsOk(reply(x)))
    ensures Ascending(AfterSync(queue, reply))
    ensures |queue| > SyncBatch ==> AfterSync(queue, reply)[|AfterSync(queue, reply)| - (|queue| - SyncBatch)..] == queue[SyncBatch..]
  {
    var b := Batch(queue);
    var rest := queue[|b|..];
    assert queue == b + rest;
    assert Ascending(b);
    UnackedExact(b, reply);
    var u := Unacked(b, reply);
    var r := u + rest;
    forall i, j | 0 <= i < j < |r| ensures r[i].id < r[j].id {
      if j < |u| {
      } else if i < |u| {
        assert r[i] in u;
        var i' :| 0 <= i' < |b| && b[i'] == r[i];
        assert queue[i'] == r[i] && queue[|b| + (j - |u|)] == r[j];
      } else {
        assert queue[|b| + (i - |u|)] == r[i] && queue[|b| + (j - |u|)] == r[j];
      }
    }
  }

  /**
   `set_printer_serial`: for a known address, only that row's serial changes
   and one `printer_update` message with the row's id, the address and the
   serial is queued; an unknown address changes nothing and fails.
   */
  function SetPrinterSerial(st: Store.Store, agentId: string, ip: string, serial: string): (r: (Store.Store, bool))
    ensures r.1 <==> exists i :: 0 <= i < |st.printers| && st.printers[i].ip == ip
    ensures !r.1 ==> r.0 == st
    ensures r.1 ==> r.0.printers == Store.SetSerial(st, ip, serial).0.printers
    ensures r.1 ==> exists i :: (0 <= i < |st.printers| && st.printers[i].ip == ip &&
      r.0.queue == st.queue + [Store.QueueItem(st.nextQueueId, UpdateMessage(agentId, st.printers[i].id, ip, serial))])
    ensures r.0.metrics == st.metrics
    ensures Store.Valid(st) ==> Store.Valid(r.0)
  {
    match Store.IndexOf(st.printers, ip)
    case None => (st, false)
    case Some(i) =>
      (Store.Enqueue(Store.SetSerial(st, ip, serial).0, UpdateMessage(agentId, st.printers[i].id, ip, serial)), true)
  }

  /**
   A serial update on a known address changes that row's serial and nothing
   else in the table, and adds exactly one message behind the queued ones.
   */
  lemma SetPrinterSerialEffect(st: Store.Store, agentId: string, ip: string, serial: string, i: nat)
    requires Store.UniqueIps(st.printers) && i < |st.printers| && st.printers[i].ip == ip
    ensures var (st', ok) := SetPrinterSerial(st, agentId, ip, serial);
      && ok
      && |st'.printers| == |st.printers|
      && st'.printers[i] == st.printers[i].(serial := serial)
      && (forall j :: 0 <= j < |st.printers| && j != i ==> st'.printers[j] == st.printers[j])
      && st'.queue == st.queue + [Store.QueueItem(st.nextQueueId, UpdateMessage(agentId, st.printers[i].id, ip, serial))]
  {
    Store.IndexOfUnique(st.printers, i);
  }
}
