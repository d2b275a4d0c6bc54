/**
 `PrinterCollector` (Agent/data_collector.py): the same discovery and metrics
 passes as the agent, but talking to the server directly through
 `ServerIntegration` instead of a local send queue.  Server integration is set
 up at start-up only when `[server] enabled` is true; every printer row keeps
 the `server_id` the server is known to hold it under.
 */
module Collector {
  import opened Wrappers
  import opened Payload
  import Text
  import Config
  import Integration
  import Store
  import Sampling
  import Discovery
  import Probe

  /** A started collector: its configuration and its server client, when integration is on. */
  datatype Collector = Collector(config: Config.Config, server: Option<Integration.Client>)

  /**
   What start-up depends on beyond the configuration file: the host name, the
   files `ServerIntegration` reads, whether `agent_id.txt` can be written, the
   two UUIDs it may draw, and whether the integration module imported.
   */
  datatype Machine = Machine(
    hostname: string, keyFile: Integration.StoredFile, idFile: Integration.StoredFile, canWrite: bool,
    u1: string, u2: string, integrationAvailable: bool)

  /** Start-up's result, the configuration file it wrote, if any, and what it wrote to `agent_id.txt`. */
  datatype Booted = Booted(collector: Collector, configSaved: Option<seq<Config.IniSection>>, idWritten: Option<string>)

  /**
   `config[section][key]` as the text handed to `ServerIntegration`; after a
   load these entries always hold strings, and a missing one cannot occur
   because loading keeps the defaults' keys.
   */
  function Setting(cfg: Config.Config, section: string, key: string): string {
    match Config.Lookup(cfg, section, key)
    case None => ""
    case Some(v) => Config.Render(v)
  }

  /** Python truthiness of `config["server"]["enabled"]`. */
  predicate ServerEnabled(cfg: Config.Config) {
    match Config.Lookup(cfg, "server", "enabled")
    case Some(BoolVal(b)) => b
    case Some(IntVal(n)) => n != 0
    case Some(StrVal(s)) => |s| > 0
    case Some(ListVal(xs)) => |xs| > 0
    case None => false
  }

  /**
   `PrinterCollector.__init__`: load the configuration over the defaults for
   agent id `id` with `loader` (as written, `CollectorLoader`), then build the
   server client from the loaded address, id and name iff the server is
   enabled and the integration module is available.
   */
  function Start(loader: Config.Loader, id: string, file: Config.ConfigFile, m: Machine): (r: Booted)
    ensures var loaded := Config.Load(loader, Config.CollectorDefaults(id, m.hostname), file);
      && r.collector.config == loaded.config
      && r.configSaved == loaded.saved
    ensures r.collector.server.Some? <==> ServerEnabled(r.collector.config) && m.integrationAvailable
    ensures r.collector.server.None? ==> r.idWritten.None?
    ensures r.collector.server.Some? ==>
      && r.collector.server.value.serverUrl == Text.RStrip(Setting(r.collector.config, "server", "url"), '/')
      && r.collector.server.value.registered == m.keyFile.Readable?
      && r.collector.server.value.apiKey == Integration.LoadApiKey(m.keyFile)
    ensures r.collector.server.Some? && |Setting(r.collector.config, "agent", "id")| > 0 ==>
      r.collector.server.value.agentId == Setting(r.collector.config, "agent", "id") && r.idWritten.None?
  {
    var loaded := Config.Load(loader, Config.CollectorDefaults(id, m.hostname), file);
    var cfg := loaded.config;
    if ServerEnabled(cfg) && m.integrationAvailable then
      var s := Integration.Init(Setting(cfg, "server", "url"), Some(Setting(cfg, "agent", "id")),
                                Some(Setting(cfg, "agent", "name")), m.hostname, m.keyFile, m.idFile, m.canWrite, m.u1, m.u2);
      Booted(Collector(cfg, Some(s.client)), loaded.saved, s.idWritten)
    else
      Booted(Collector(cfg, None), loaded.saved, None)
  }

  lemma DefaultsDisabled(id: string, host: string)
    ensures !ServerEnabled(Config.CollectorDefaults(id, host))
  {
    assert Config.SectionIndex(Config.CollectorDefaults(id, host), "server") == Some(1);
  }

  /** Without a configuration file the collector writes its defaults and starts with the server off. */
  lemma FirstStartIsOffline(loader: Config.Loader, id: string, m: Machine)
    ensures var r := Start(loader, id, Config.Missing, m);
      && r.collector.server.None?
      && r.configSaved == Some(Config.Written(Config.CollectorDefaults(id, m.hostname)))
  {
    DefaultsDisabled(id, m.hostname);
  }

  /**
   As written, a file with `enabled = true` and a server address starts the
   collector with the server off, and the defaults are written over the file.
   */
  lemma AsWrittenIgnoresEnable(id: string, m: Machine)
    ensures var r := Start(Config.CollectorLoader, id, Config.Present(Config.EnableServer), m);
      && r.collector.server.None?
      && r.configSaved == Some(Config.Written(Config.CollectorDefaults(id, m.hostname)))
  {
    Config.WordsAreNotInts();
    assert Config.EnableServer == Config.EnableFile("true");
    Config.CollectorIgnoresEnable(id, m.hostname, "true");
    DefaultsDisabled(id, m.hostname);
  }

  /** As written, `enabled = 1` does start the server, and the file is kept. */
  lemma AsWrittenEnablesWithOne(id: string, m: Machine)
    requires m.integrationAvailable
    ensures var r := Start(Config.CollectorLoader, id, Config.Present(Config.EnableWithOne), m);
      r.collector.server.Some? && r.configSaved.None?
  {
    Config.CollectorEnablesWithOne(id, m.hostname);
  }

  /**
   With the `bool` test ahead of the `int` test, the same file with
   `enabled = true` turns integration on, and the client talks to the
   file's address.
   */
  lemma FixedStartEnablesServer(id: string, m: Machine)
    requires m.integrationAvailable
    ensures var r := Start(Config.FixedCollectorLoader, id, Config.Present(Config.EnableServer), m);
      && r.configSaved.None?
      && r.collector.server.Some?
      && r.collector.server.value.serverUrl == "https://printers.example.com/api"
  {
    Config.FixedLoaderHonoursEnable(id, m.hostname);
    var r := Start(Config.FixedCollectorLoader, id, Config.Present(Config.EnableServer), m);
    assert Setting(r.collector.config, "server", "url") == "https://printers.example.com/api";
    assert Text.RStrip("https://printers.example.com/api", '/') == "https://printers.example.com/api";
  }

  /**
   With the fixed loader and the server enabled, the client identifies itself
   with the collector's configured agent id, and `agent_id.txt` is neither
   consulted nor written.
   */
  lemma FixedStartUsesConfiguredId(id: string, m: Machine)
    requires m.integrationAvailable && |id| > 0
    ensures var r := Start(Config.FixedCollectorLoader, id, Config.Present(Config.EnableServer), m);
      && r.collector.server.Some?
      && r.collector.server.value.agentId == id
      && r.idWritten.None?
  {
    Config.FixedLoaderHonoursEnable(id, m.hostname);
  }

  /**
   As written, restarting from the file the collector saved for its defaults
   finds the file unloadable again: the server stays off and the file is
   rewritten at every start.
   */
  lemma AsWrittenRestartRewrites(id: string, m: Machine)
    requires Text.Unpadded(id) && Text.Unpadded(m.hostname)
    ensures var d := Config.CollectorDefaults(id, m.hostname);
      var r := Start(Config.CollectorLoader, id, Config.Present(Config.Reread(Config.Written(d))), m);
      r.collector.server.None? && r.configSaved == Some(Config.Written(d))
  {
    Config.CollectorRewritesOwnFile(id, m.hostname);
    DefaultsDisabled(id, m.hostname);
  }

  /**
   With the `bool` test first, restarting from the file a configuration was
   saved to starts with that configuration and rewrites nothing.
   */
  lemma FixedRestartKeepsConfig(id: string, m: Machine, cfg: Config.Config)
    requires Config.SameShape(Config.CollectorDefaults(id, m.hostname), cfg)
    requires Config.AllReload(Config.FixedCollectorLoader, Config.CollectorDefaults(id, m.hostname), cfg)
    ensures var r := Start(Config.FixedCollectorLoader, id, Config.Present(Config.Reread(Config.Written(cfg))), m);
      r.collector.config == cfg && r.configSaved.None?
  {
    Config.FixedCollectorRoundTrip(id, m.hostname, cfg);
  }

  /** The discovery requests the collector makes: one `send_printer_data` per reported record, in order. */
  function Announcements(server: Option<Integration.Client>, found: seq<map<string, string>>): seq<Request>
    decreases |found|
  {
    if server.None? || |found| == 0 then []
    else
      var k := |found| - 1;
      var prev := Announcements(server, found[..k]);
      match Integration.PrinterDataRequest(server.value, StrMap(found[k]))
      case None => prev
      case Some(req) => prev + [req]
  }

  /**
   With a server holding a usable key, each reported record is posted once,
   in order, as a `printer_discovery` message; otherwise nothing is sent.
   */
  lemma {:induction false} AnnouncementsExact(c: Integration.Client, found: seq<map<string, string>>)
    requires Addressed(found)
    ensures !Integration.HasKey(c) ==> Announcements(Some(c), found) == []
    ensures Integration.HasKey(c) ==> Announces(c, found, Announcements(Some(c), found))
    decreases |found|
  {
    if |found| > 0 {
      AddressedPrefix(found);
      AnnouncementsExact(c, found[..|found| - 1]);
      AnnouncementsNext(c, found);
    }
  }

  lemma AnnouncementsNext(c: Integration.Client, found: seq<map<string, string>>)
    requires |found| > 0 && "ip_address" in found[|found| - 1]
    requires !Integration.HasKey(c) ==> Announcements(Some(c), found[..|found| - 1]) == []
    requires Integration.HasKey(c) ==> Announces(c, found[..|found| - 1], Announcements(Some(c), found[..|found| - 1]))
    ensures !Integration.HasKey(c) ==> Announcements(Some(c), found) == []
    ensures Integration.HasKey(c) ==> Announces(c, found, Announcements(Some(c), found))
  {
    var k := |found| - 1;
    AnnouncementsLast(c, found);
    if Integration.HasKey(c) {
      var req := Post(c.serverUrl + "/api/data", c.apiKey, Integration.DiscoveryMessage(StrMap(found[k])));
      AnnouncesStep(c, found, Announcements(Some(c), found[..k]), req);
    }
  }

  /** Every record carries an `ip_address`, as discovery's records do. */
  ghost predicate Addressed(found: seq<map<string, string>>) {
    forall j :: 0 <= j < |found| ==> "ip_address" in found[j]
  }

  lemma AddressedPrefix(found: seq<map<string, string>>)
    requires |found| > 0 && Addressed(found)
    ensures Addressed(found[..|found| - 1]) && "ip_address" in found[|found| - 1]
  {
    var prefix := found[..|found| - 1];
    forall j | 0 <= j < |prefix| ensures "ip_address" in prefix[j] {
      assert prefix[j] == found[j];
    }
  }

  /** `sent` holds one discovery post per record of `found`, in order. */
  ghost predicate Announces(c: Integration.Client, found: seq<map<string, string>>, sent: seq<Request>) {
    && |sent| == |found|
    && forall j :: 0 <= j < |found| ==>
         sent[j] == Post(c.serverUrl + "/api/data", c.apiKey, Integration.DiscoveryMessage(StrMap(found[j])))
  }

  lemma AnnouncesStep(c: Integration.Client, found: seq<map<string, string>>, prev: seq<Request>, req: Request)
    requires |found| > 0 && Announces(c, found[..|found| - 1], prev)
    requires req == Post(c.serverUrl + "/api/data", c.apiKey, Integration.DiscoveryMessage(StrMap(found[|found| - 1])))
    ensures Announces(c, found, prev + [req])
  {
    var k := |found| - 1;
    forall j | 0 <= j < k ensures (prev + [req])[j] == Post(c.serverUrl + "/api/data", c.apiKey, Integration.DiscoveryMessage(StrMap(found[j]))) {
      assert found[..k][j] == found[j];
    }
  }

  lemma AnnouncementsLast(c: Integration.Client, found: seq<map<string, string>>)
    requires |found| > 0 && "ip_address" in found[|found| - 1]
    ensures var prev := Announcements(Some(c), found[..|found| - 1]);
      Announcements(Some(c), found)
      == if Integration.HasKey(c)
         then prev + [Post(c.serverUrl + "/api/data", c.apiKey, Integration.DiscoveryMessage(StrMap(found[|found| - 1])))]
         else prev
  {
    assert "ip_address" in StrMap(found[|found| - 1]);
  }

  /** A collector discovery pass: the scan and the requests it sent to the server. */
  datatype Discovered = Discovered(scan: Discovery.Scan, sent: seq<Request>)

  /** `PrinterCollector.discover_printers`: the agent's discovery, each reported record also posted when a server is set. */
  function DiscoverPrinters(snmp: Probe.Snmp, hosts: Discovery.Hosts, c: Collector, st: Store.Store, now: string): Discovered {
    var subnets := match Config.Lookup(c.config, "network", "subnets")
      case Some(ListVal(xs)) => xs
      case _ => [];
    var scan := Discovery.Discover(snmp, hosts, subnets, st, now);
    Discovered(scan, Announcements(c.server, scan.found))
  }

  /** Every printer the pass reports is posted to a server with a key, in order, and to no other. */
  lemma DiscoverPrintersAnnounces(snmp: Probe.Snmp, hosts: Discovery.Hosts, c: Collector, st: Store.Store, now: string)
    ensures var d := DiscoverPrinters(snmp, hosts, c, st, now);
      && (c.server.None? || !Integration.HasKey(c.server.value) ==> d.sent == [])
      && (c.server.Some? && Integration.HasKey(c.server.value) ==>
            && |d.sent| == |d.scan.found|
            && forall j :: 0 <= j < |d.sent| ==>
                 d.sent[j] == Post(c.server.value.serverUrl + "/api/data", c.server.value.apiKey,
                                   Integration.DiscoveryMessage(StrMap(d.scan.found[j]))))
  {
    var subnets := match Config.Lookup(c.config, "network", "subnets")
      case Some(ListVal(xs)) => xs
      case _ => [];
    Discovery.DiscoverSound(snmp, hosts, subnets, st, now);
    var scan := Discovery.Discover(snmp, hosts, subnets, st, now);
    if c.server.Some? {
      AnnouncementsExact(c.server.value, scan.found);
    }
  }

  /** A `send_metrics` call: the printer's `server_id` and the sample. */
  datatype Forward = Forward(serverId: int, metrics: map<string, Value>)

  /**
   The collector's `_save_metrics` for each sample in turn: one metrics row
   each, nothing queued; a sample whose INSERT raises is logged and skipped.
   */
  function StoreAll(st: Store.Store, samples: seq<Sampling.Sample>): Store.Store
    decreases |samples|
  {
    if |samples| == 0 then st
    else
      var k := |samples| - 1;
      var mid := StoreAll(st, samples[..k]);
      match Store.AppendMetrics(mid, samples[k].row.id, samples[k].metrics)
      case Some(st') => st'
      case None => mid
  }

  /** The samples `collect_metrics` forwards: those of printers with a `server_id`, when a server is set. */
  function Forwards(server: Option<Integration.Client>, samples: seq<Sampling.Sample>): seq<Forward>
    decreases |samples|
  {
    if server.None? || |samples| == 0 then []
    else
      var k := |samples| - 1;
      var prev := Forwards(server, samples[..k]);
      match samples[k].row.serverId
      case None => prev
      case Some(sid) => prev + [Forward(sid, samples[k].metrics)]
  }

  /** A collector metrics pass: the database afterwards and the `send_metrics` calls it made. */
  datatype Collected = Collected(store: Store.Store, forwarded: seq<Forward>)

  /** `PrinterCollector.collect_metrics` over a snapshot of the printers table. */
  function CollectMetrics(poll: Sampling.Poll, st: Store.Store, server: Option<Integration.Client>, clock: nat -> string): Collected {
    var samples := Sampling.Samples(poll, st.printers, clock);
    Collected(StoreAll(st, samples), Forwards(server, samples))
  }

  /** Storing samples adds one metrics row per sample, for its printer, and touches nothing else. */
  lemma {:induction false} StoreAllEffect(st: Store.Store, samples: seq<Sampling.Sample>)
    requires Sampling.AllInsertable(samples)
    ensures StoreAll(st, samples).printers == st.printers && StoreAll(st, samples).queue == st.queue
    ensures |StoreAll(st, samples).metrics| == |st.metrics| + |samples|
    ensures StoreAll(st, samples).metrics[..|st.metrics|] == st.metrics
    ensures forall j :: 0 <= j < |samples| ==> StoreAll(st, samples).metrics[|st.metrics| + j].printerId == samples[j].row.id
    ensures Store.Valid(st) ==> Store.Valid(StoreAll(st, samples))
    decreases |samples|
  {
    if |samples| > 0 {
      var k := |samples| - 1;
      Sampling.AllInsertablePrefix(samples, k);
      StoreAllEffect(st, samples[..k]);
      var mid := StoreAll(st, samples[..k]);
      var st' := StoreAll(st, samples);
      assert st'.metrics[..|mid.metrics|] == mid.metrics;
      assert st'.metrics[..|st.metrics|] == mid.metrics[..|st.metrics|];
      forall j | 0 <= j < |samples| ensures st'.metrics[|st.metrics| + j].printerId == samples[j].row.id {
        if j < k {
          assert st'.metrics[..|mid.metrics|][|st.metrics| + j] == mid.metrics[|st.metrics| + j];
        }
      }
    }
  }

  /**
   `send_metrics` edits the sample in place before posting it; a sample
   `_get_printer_metrics` built already has its timestamp and its toner
   levels as JSON text, so the edit changes nothing and the server receives
   the sample as polled.
   */
  lemma PolledSampleSentAsIs(snmp: Probe.Snmp, ip: string, now: string, later: string)
    requires Probe.GetMetrics(snmp, ip, now).Some?
    ensures Integration.PreparedMetrics(Probe.GetMetrics(snmp, ip, now).value, later) == Probe.GetMetrics(snmp, ip, now).value
  {
    Integration.PreparedMetricsKeeps(Probe.GetMetrics(snmp, ip, now).value, later);
  }

  /** A sample is forwarded iff a server is set and its printer has a `server_id`. */
  lemma {:induction false} ForwardsExact(server: Option<Integration.Client>, samples: seq<Sampling.Sample>)
    ensures server.None? ==> Forwards(server, samples) == []
    ensures server.Some? ==> forall f :: f in Forwards(server, samples) <==>
      exists j :: 0 <= j < |samples| && samples[j].row.serverId == Some(f.serverId) && samples[j].metrics == f.metrics
    decreases |samples|
  {
    if server.Some? && |samples| > 0 {
      var k := |samples| - 1;
      ForwardsExact(server, samples[..k]);
      assert forall j :: 0 <= j < k ==> samples[..k][j] == samples[j];
    }
  }

  /**
   The collector's metrics pass stores a row for every printer that answered
   and, with a server set, forwards exactly the samples of answering printers
   that have a `server_id`, under that id; nothing is queued.
   */
  lemma CollectMetricsForwardsRegistered(poll: Sampling.Poll, st: Store.Store, server: Option<Integration.Client>,
                                         clock: nat -> string)
    ensures var r := CollectMetrics(poll, st, server, clock);
      Sampling.Stamped(poll) ==>
        && r.store.printers == st.printers && r.store.queue == st.queue
        && |r.store.metrics| == |st.metrics| + |Sampling.Samples(poll, st.printers, clock)|
    ensures server.None? ==> CollectMetrics(poll, st, server, clock).forwarded == []
    ensures server.Some? ==> ForwardsAnswered(poll, st.printers, clock, CollectMetrics(poll, st, server, clock).forwarded)
    ensures server.Some? ==> ForwardsOnlyAnswered(poll, st.printers, clock, CollectMetrics(poll, st, server, clock).forwarded)
  {
    var samples := Sampling.Samples(poll, st.printers, clock);
    if Sampling.Stamped(poll) {
      Sampling.SamplesStamped(poll, st.printers, clock);
      StoreAllEffect(st, samples);
    }
    ForwardsExact(server, samples);
    if server.Some? {
      Sampling.SamplesExact(poll, st.printers, clock);
      AnsweredForwarded(poll, st.printers, clock, samples, Forwards(server, samples));
      ForwardedAnswered(poll, st.printers, clock, samples, Forwards(server, samples));
    }
  }

  /** Every answering printer with a `server_id` has its sample forwarded under that id. */
  ghost predicate ForwardsAnswered(poll: Sampling.Poll, rows: seq<Store.PrinterRow>, clock: nat -> string, fw: seq<Forward>) {
    forall k :: 0 <= k < |rows| && rows[k].serverId.Some? && poll(rows[k].ip, clock(k)).Some? ==>
      Forward(rows[k].serverId.value, poll(rows[k].ip, clock(k)).value) in fw
  }

  /** Every forward is the sample of an answering printer, under that printer's `server_id`. */
  ghost predicate ForwardsOnlyAnswered(poll: Sampling.Poll, rows: seq<Store.PrinterRow>, clock: nat -> string, fw: seq<Forward>) {
    forall f :: f in fw ==>
      exists k :: (0 <= k < |rows| && rows[k].serverId == Some(f.serverId) && poll(rows[k].ip, clock(k)) == Some(f.metrics))
  }

  lemma AnsweredForwarded(poll: Sampling.Poll, rows: seq<Store.PrinterRow>, clock: nat -> string,
                          samples: seq<Sampling.Sample>, fw: seq<Forward>)
    requires forall k :: 0 <= k < |rows| && poll(rows[k].ip, clock(k)).Some? ==>
      Sampling.Contributed(poll, rows, clock, k, samples)
    requires forall f :: f in fw <==>
      exists j :: 0 <= j < |samples| && samples[j].row.serverId == Some(f.serverId) && samples[j].metrics == f.metrics
    ensures ForwardsAnswered(poll, rows, clock, fw)
  {
    forall k | 0 <= k < |rows| && rows[k].serverId.Some? && poll(rows[k].ip, clock(k)).Some?
      ensures Forward(rows[k].serverId.value, poll(rows[k].ip, clock(k)).value) in fw
    {
      assert Sampling.Contributed(poll, rows, clock, k, samples);
      var j :| 0 <= j < |samples| && Sampling.Answered(poll, rows, clock, k, samples[j]);
      assert samples[j].row.serverId == Some(rows[k].serverId.value);
    }
  }

  lemma ForwardedAnswered(poll: Sampling.Poll, rows: seq<Store.PrinterRow>, clock: nat -> string,
                          samples: seq<Sampling.Sample>, fw: seq<Forward>)
    requires forall j :: 0 <= j < |samples| ==> Sampling.FromSnapshot(poll, rows, clock, samples[j])
    requires forall f :: f in fw <==>
      exists j :: 0 <= j < |samples| && samples[j].row.serverId == Some(f.serverId) && samples[j].metrics == f.metrics
    ensures ForwardsOnlyAnswered(poll, rows, clock, fw)
  {
    forall f | f in fw
      ensures exists k :: (0 <= k < |rows| && rows[k].serverId == Some(f.serverId) && poll(rows[k].ip, clock(k)) == Some(f.metrics))
    {
      var j :| 0 <= j < |samples| && samples[j].row.serverId == Some(f.serverId) && samples[j].metrics == f.metrics;
      assert Sampling.FromSnapshot(poll, rows, clock, samples[j]);
      var k :| 0 <= k < |rows| && Sampling.Answered(poll, rows, clock, k, samples[j]);
    }
  }

  /** The placeholder `server_id` a printer gets once the server accepted it. */
  const PlaceholderServerId: int := 1

  /** The record `sync_unregistered_printers` posts for a row. */
  function PrinterData(row: Store.PrinterRow): map<string, Value> {
    map["ip_address" := Str(row.ip), "serial_number" := Str(row.serial), "model" := Str(row.model), "name" := Str(row.name)]
  }

  /** A row without a `server_id` whose record the server accepted (a truthy `send_printer_data` result). */
  predicate Accepted(c: Integration.Client, reply: nat -> Response, row: Store.PrinterRow) {
    row.serverId.None? && Truthy(Integration.SendPrinterData(c, PrinterData(row), reply(row.id)))
  }

  /**
   A row is accepted exactly when it has no `server_id`, the client holds a
   usable key, and the server answered its record 200 with an accepting body.
   */
  lemma AcceptedExact(c: Integration.Client, reply: nat -> Response, row: Store.PrinterRow)
    ensures Accepted(c, reply, row) <==>
      && row.serverId.None? && Integration.HasKey(c) && IsOk(reply(row.id))
      && reply(row.id).body.Some? && Integration.AcceptingBody(reply(row.id).body.value)
  {
    Integration.SendPrinterDataTruthy(c, PrinterData(row), reply(row.id));
  }

  /** The table after one sync pass: accepted rows get the placeholder `server_id`, the rest stay. */
  function Synced(c: Integration.Client, reply: nat -> Response, rows: seq<Store.PrinterRow>): (r: seq<Store.PrinterRow>)
    ensures |r| == |rows|
  {
    seq(|rows|, i requires 0 <= i < |rows| =>
      if Accepted(c, reply, rows[i]) then rows[i].(serverId := Some(PlaceholderServerId)) else rows[i])
  }

  /**
   `sync_unregistered_printers`: without a server, fail and change nothing.
   Otherwise post every row lacking a `server_id`, give each accepted one the
   placeholder id, and succeed iff at least one was accepted.  Rows are
   updated by id, which is the table's primary key, so position `i` stands
   for the row with `id = rows[i].id`.
   */
  method SyncUnregistered(st: Store.Store, server: Option<Integration.Client>, reply: nat -> Response)
    returns (ok: bool, st': Store.Store)
    ensures server.None? ==> !ok && st' == st
    ensures server.Some? ==>
      && (ok <==> exists i :: 0 <= i < |st.printers| && Accepted(server.value, reply, st.printers[i]))
      && st' == st.(printers := Synced(server.value, reply, st.printers))
  {
    if server.None? {
      return false, st;
    }
    var c := server.value;
    var rows := st.printers;
    var count := 0;
    var i := 0;
    while i < |rows|
      invariant 0 <= i <= |rows| && |rows| == |st.printers|
      invariant forall j :: 0 <= j < i ==> rows[j] == Synced(c, reply, st.printers)[j]
      invariant forall j :: i <= j < |rows| ==> rows[j] == st.printers[j]
      invariant count > 0 <==> exists j :: 0 <= j < i && Accepted(c, reply, st.printers[j])
    {
      var row := rows[i];
      if row.serverId.None? && Truthy(Integration.SendPrinterData(c, PrinterData(row), reply(row.id))) {
        rows := rows[i := row.(serverId := Some(PlaceholderServerId))];
        count := count + 1;
      }
      i := i + 1;
    }
    assert rows == Synced(c, reply, st.printers);
    return count > 0, st.(printers := rows);
  }

  /**
   After a sync pass a row lacks a `server_id` iff it lacked one and the
   server did not accept it; so a second pass with the same answers accepts
   nothing and leaves the table as it is.
   */
  lemma SyncSettles(c: Integration.Client, reply: nat -> Response, rows: seq<Store.PrinterRow>)
    ensures forall i :: 0 <= i < |rows| ==>
      (Synced(c, reply, rows)[i].serverId.None? <==> rows[i].serverId.None? && !Accepted(c, reply, rows[i]))
    ensures forall i :: 0 <= i < |rows| ==> !Accepted(c, reply, Synced(c, reply, rows)[i])
    ensures Synced(c, reply, Synced(c, reply, rows)) == Synced(c, reply, rows)
  {
    var once := Synced(c, reply, rows);
    assert forall i :: 0 <= i < |rows| ==> !Accepted(c, reply, once[i]);
    assert Synced(c, reply, once) == once;
  }
}
