/**
 The agent's SQLite database as a value: the `printers` table (one row per IP
 address, `UNIQUE(ip_address)`), the append-only `metrics` table and the
 `send_queue` FIFO, each with its AUTOINCREMENT counter.  Rows keep rowid
 order, which is also id order.
 */
module Store {
  import opened Wrappers
  import opened Payload

  /** A `printers` row; `serverId` is the `server_id` column of Agent/data_collector.py (NULL in agent.py). */
  datatype PrinterRow = PrinterRow(
    id: nat, ip: string, model: string, name: string, serial: string, lastSeen: string, serverId: Option<int>)

  /** A `metrics` row; each column holds `metrics.get(column)` of the sample it was made from. */
  datatype MetricRow = MetricRow(
    id: nat, printerId: nat, timestamp: Option<Value>, pageCount: Option<Value>, tonerLevels: Option<Value>,
    status: Option<Value>, errorState: Option<Value>, rawData: Option<Value>)

  /** A `send_queue` row: the message as a value (the table holds its JSON text). */
  datatype QueueItem = QueueItem(id: nat, data: Value)

  datatype Store = Store(
    printers: seq<PrinterRow>, nextPrinterId: nat,
    metrics: seq<MetricRow>, nextMetricId: nat,
    queue: seq<QueueItem>, nextQueueId: nat)

  /** A freshly created database: empty tables, AUTOINCREMENT starting at 1. */
  const Empty: Store := Store([], 1, [], 1, [], 1)

  ghost predicate UniqueIps(rows: seq<PrinterRow>) {
    forall i, j :: 0 <= i < j < |rows| ==> rows[i].ip != rows[j].ip
  }

  ghost predicate PrinterIdsValid(rows: seq<PrinterRow>, next: nat) {
    && (forall i, j :: 0 <= i < j < |rows| ==> rows[i].id < rows[j].id)
    && (forall i :: 0 <= i < |rows| ==> 0 < rows[i].id < next)
  }

  ghost predicate MetricIdsValid(rows: seq<MetricRow>, next: nat) {
    && (forall i, j :: 0 <= i < j < |rows| ==> rows[i].id < rows[j].id)
    && (forall i :: 0 <= i < |rows| ==> 0 < rows[i].id < next)
  }

  ghost predicate QueueIdsValid(items: seq<QueueItem>, next: nat) {
    && (forall i, j :: 0 <= i < j < |items| ==> items[i].id < items[j].id)
    && (forall i :: 0 <= i < |items| ==> 0 < items[i].id < next)
  }

  /** The table constraints: unique IP addresses, and ids ascending below their counters. */
  ghost predicate Valid(st: Store) {
    && UniqueIps(st.printers)
    && st.nextPrinterId > 0 && st.nextMetricId > 0 && st.nextQueueId > 0
    && PrinterIdsValid(st.printers, st.nextPrinterId)
    && MetricIdsValid(st.metrics, st.nextMetricId)
    && QueueIdsValid(st.queue, st.nextQueueId)
  }

  lemma EmptyIsValid()
    ensures Valid(Empty)
  {
  }

  /** `SELECT ... FROM printers WHERE ip_address = ?`: the position of the row for `ip`. */
  function IndexOf(rows: seq<PrinterRow>, ip: string): (r: Option<nat>)
    ensures r.Some? ==> r.value < |rows| && rows[r.value].ip == ip
    ensures r.None? <==> forall i :: 0 <= i < |rows| ==> rows[i].ip != ip
    decreases |rows|
  {
    if |rows| == 0 then None
    else if rows[|rows| - 1].ip == ip then Some(|rows| - 1)
    else IndexOf(rows[..|rows| - 1], ip)
  }

  /** With unique addresses, the row found for an address is the only one holding it. */
  lemma IndexOfUnique(rows: seq<PrinterRow>, i: nat)
    requires UniqueIps(rows) && i < |rows|
    ensures IndexOf(rows, rows[i].ip) == Some(i)
    decreases |rows|
  {
    if i < |rows| - 1 {
      IndexOfUnique(rows[..|rows| - 1], i);
    }
  }

  /** Replacing the row found for an address by one with the same address keeps it the row found. */
  lemma ReplaceKeepsIndex(rows: seq<PrinterRow>, i: nat, row: PrinterRow)
    requires IndexOf(rows, row.ip) == Some(i)
    ensures IndexOf(rows[i := row], row.ip) == Some(i)
    ensures UniqueIps(rows) ==> UniqueIps(rows[i := row])
    decreases |rows|
  {
    if i < |rows| - 1 {
      assert rows[i := row][..|rows| - 1] == rows[..|rows| - 1][i := row];
      ReplaceKeepsIndex(rows[..|rows| - 1], i, row);
    }
  }

  /** `d.get(k, default)` on a string dict. */
  function Get(d: map<string, string>, k: string, default: string): string {
    if k in d then d[k] else default
  }

  /**
   `_save_printer`: the row for `info["ip_address"]` gets `info`'s model, name
   and serial (defaults `''`, `''`, `'UNKNOWN'`) and `last_seen = now`,
   overwriting what it held; an unknown IP gets a new row with the next id and
   a NULL `server_id`.  Returns the row id, or `None` (nothing written) when
   `info` has no `ip_address`.
   */
  function SavePrinter(st: Store, info: map<string, string>, now: string): (r: (Store, Option<nat>))
    ensures r.1.None? <==> "ip_address" !in info
    ensures r.1.None? ==> r.0 == st
    ensures r.1.Some? ==> Valid(st) ==> Valid(r.0)
    ensures r.0.metrics == st.metrics && r.0.queue == st.queue
    ensures r.0.nextMetricId == st.nextMetricId && r.0.nextQueueId == st.nextQueueId
    ensures r.1.Some? ==> "ip_address" in info && Upserted(st, r.0, info, now, r.1.value)
  {
    if "ip_address" !in info then (st, None)
    else
      match IndexOf(st.printers, info["ip_address"])
      case Some(i) =>
        UpdateRowEffect(st, info, now, i);
        (UpdateRow(st, info, now, i), Some(st.printers[i].id))
      case None =>
        InsertRowEffect(st, info, now);
        (InsertRow(st, info, now), Some(st.nextPrinterId))
  }

  /** The row `info` describes, with the given id, last-seen time and server id. */
  function RowFor(info: map<string, string>, id: nat, now: string, serverId: Option<int>): PrinterRow
    requires "ip_address" in info
  {
    PrinterRow(id, info["ip_address"], Get(info, "model", ""), Get(info, "name", ""), Get(info, "serial", "UNKNOWN"),
      now, serverId)
  }

  /** The `UPDATE printers` branch: the row at `i` takes `info`'s columns, keeping its id and server id. */
  function UpdateRow(st: Store, info: map<string, string>, now: string, i: nat): Store
    requires "ip_address" in info && i < |st.printers|
  {
    st.(printers := st.printers[i := RowFor(info, st.printers[i].id, now, st.printers[i].serverId)])
  }

  /** The `INSERT INTO printers` branch: a new last row with the next id and no server id. */
  function InsertRow(st: Store, info: map<string, string>, now: string): Store
    requires "ip_address" in info
  {
    st.(printers := st.printers + [RowFor(info, st.nextPrinterId, now, None)], nextPrinterId := st.nextPrinterId + 1)
  }

  /**
   After saving `info` as row `id`: the row found for its address holds its
   columns and `now`; rows of other addresses are untouched; a known address
   keeps its row's position, id and server id, an unknown one gets a new last
   row with the next id and no server id.
   */
  ghost predicate Upserted(st: Store, st': Store, info: map<string, string>, now: string, id: nat)
    requires "ip_address" in info
  {
    var ip := info["ip_address"];
    && IndexOf(st'.printers, ip).Some?
    && var row := st'.printers[IndexOf(st'.printers, ip).value];
    && row.id == id
    && row.model == Get(info, "model", "")
    && row.name == Get(info, "name", "")
    && row.serial == Get(info, "serial", "UNKNOWN")
    && row.lastSeen == now
    && (forall j :: 0 <= j < |st.printers| && st.printers[j].ip != ip ==>
          j < |st'.printers| && st'.printers[j] == st.printers[j])
    && (IndexOf(st.printers, ip).Some? ==>
          var old_row := st.printers[IndexOf(st.printers, ip).value];
          && |st'.printers| == |st.printers|
          && id == old_row.id
          && row.serverId == old_row.serverId
          && st'.nextPrinterId == st.nextPrinterId)
    && (IndexOf(st.printers, ip).None? ==>
          && |st'.printers| == |st.printers| + 1
          && id == st.nextPrinterId
          && row.serverId.None?
          && st'.nextPrinterId == st.nextPrinterId + 1)
  }

  lemma UpdateRowEffect(st: Store, info: map<string, string>, now: string, i: nat)
    requires "ip_address" in info && IndexOf(st.printers, info["ip_address"]) == Some(i)
    ensures Upserted(st, UpdateRow(st, info, now, i), info, now, st.printers[i].id)
    ensures Valid(st) ==> Valid(UpdateRow(st, info, now, i))
  {
    var row := RowFor(info, st.printers[i].id, now, st.printers[i].serverId);
    ReplaceKeepsIndex(st.printers, i, row);
  }

  lemma InsertRowEffect(st: Store, info: map<string, string>, now: string)
    requires "ip_address" in info && IndexOf(st.printers, info["ip_address"]).None?
    ensures Upserted(st, InsertRow(st, info, now), info, now, st.nextPrinterId)
    ensures Valid(st) ==> Valid(InsertRow(st, info, now))
  {
    var st' := InsertRow(st, info, now);
    assert IndexOf(st'.printers, info["ip_address"]) == Some(|st.printers|);
  }

  /**
   `UPDATE printers SET serial_number = ? WHERE ip_address = ?`: returns
   whether a row matched; only that row's serial changes.
   */
  function SetSerial(st: Store, ip: string, serial: string): (r: (Store, bool))
    ensures r.1 <==> exists i :: 0 <= i < |st.printers| && st.printers[i].ip == ip
    ensures !r.1 ==> r.0 == st
    ensures r.0.metrics == st.metrics && r.0.queue == st.queue && r.0.nextQueueId == st.nextQueueId
    ensures r.0.nextPrinterId == st.nextPrinterId && r.0.nextMetricId == st.nextMetricId
    ensures |r.0.printers| == |st.printers|
    ensures forall i :: 0 <= i < |st.printers| ==>
      r.0.printers[i] == if st.printers[i].ip == ip then st.printers[i].(serial := serial) else st.printers[i]
    ensures Valid(st) ==> Valid(r.0)
  {
    match IndexOf(st.printers, ip)
    case None => (st, false)
    case Some(_) =>
      ReserialEffect(st, ip, serial);
      (st.(printers := Reserial(st.printers, ip, serial)), true)
  }

  /** Every row for `ip` with its serial replaced. */
  function Reserial(rows: seq<PrinterRow>, ip: string, serial: string): seq<PrinterRow> {
    seq(|rows|, j requires 0 <= j < |rows| => if rows[j].ip == ip then rows[j].(serial := serial) else rows[j])
  }

  lemma ReserialEffect(st: Store, ip: string, serial: string)
    ensures var rows := Reserial(st.printers, ip, serial);
      && |rows| == |st.printers|
      && (forall i :: 0 <= i < |rows| ==> rows[i].ip == st.printers[i].ip && rows[i].id == st.printers[i].id)
      && (Valid(st) ==> Valid(st.(printers := rows)))
  {
  }

  /** `sample.get(key)`: the sample's value for a column, `None` when it has none. */
  function Column(sample: map<string, Value>, key: string): Option<Value> {
    if key in sample then Some(sample[key]) else None
  }

  /** A parameter `sqlite3` can bind: `None`, a number, a boolean or a string, but not a list or a dict. */
  predicate Bindable(v: Option<Value>) {
    v.None? || !(v.value.List? || v.value.Dict?)
  }

  /**
   The `INSERT INTO metrics` succeeds: the `NOT NULL` `timestamp` column gets
   a value other than `None`, and every column's parameter can be bound.
   */
  predicate Insertable(sample: map<string, Value>) {
    && "timestamp" in sample && sample["timestamp"] != Null
    && Bindable(Column(sample, "timestamp")) && Bindable(Column(sample, "page_count"))
    && Bindable(Column(sample, "toner_levels")) && Bindable(Column(sample, "status"))
    && Bindable(Column(sample, "error_state")) && Bindable(Column(sample, "raw_data"))
  }

  /**
   `INSERT INTO metrics`: appends one row whose columns hold the sample's
   values under the next id, or raises, writing nothing, when the sample is
   not insertable.
   */
  function AppendMetrics(st: Store, printerId: nat, sample: map<string, Value>): (r: Option<Store>)
    ensures r.Some? <==> Insertable(sample)
    ensures r.Some? ==> r.value.metrics == st.metrics + [MetricRow(st.nextMetricId, printerId,
      Column(sample, "timestamp"), Column(sample, "page_count"), Column(sample, "toner_levels"),
      Column(sample, "status"), Column(sample, "error_state"), Column(sample, "raw_data"))]
    ensures r.Some? ==> r.value.metrics[|st.metrics|].timestamp.Some?
    ensures r.Some? ==> r.value.printers == st.printers && r.value.queue == st.queue
    ensures r.Some? ==> r.value.nextPrinterId == st.nextPrinterId && r.value.nextQueueId == st.nextQueueId
    ensures r.Some? ==> (Valid(st) ==> Valid(r.value))
  {
    if !Insertable(sample) then None
    else
      var row := MetricRow(st.nextMetricId, printerId, Column(sample, "timestamp"), Column(sample, "page_count"),
        Column(sample, "toner_levels"), Column(sample, "status"), Column(sample, "error_state"),
        Column(sample, "raw_data"));
      Some(st.(metrics := st.metrics + [row], nextMetricId := st.nextMetricId + 1))
  }

  /** `INSERT INTO send_queue`: appends one message behind every queued one. */
  function Enqueue(st: Store, data: Value): (st': Store)
    ensures st'.queue == st.queue + [QueueItem(st.nextQueueId, data)]
    ensures st'.printers == st.printers && st'.metrics == st.metrics
    ensures st'.nextPrinterId == st.nextPrinterId && st'.nextMetricId == st.nextMetricId
    ensures Valid(st) ==> Valid(st')
  {
    st.(queue := st.queue + [QueueItem(st.nextQueueId, data)], nextQueueId := st.nextQueueId + 1)
  }
}
