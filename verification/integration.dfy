/**
 `ServerIntegration` (Agent/agent_integration.py): the client that registers
 the agent with the central server and posts printer records and metrics to
 it.  Its state is the server address, the API key, the agent id and name,
 and the `registered` flag.  Every HTTP call is split in two: the request the
 client would send (or none, when a guard or an exception stops it first) and
 the outcome given the server's `reply`.
 */
module Integration {
  import opened Wrappers
  import opened Payload
  import Text

  /** A small file the client reads at start-up: absent, readable with the given contents, or failing to open. */
  datatype StoredFile = NoFile | Readable(content: string) | Unreadable

  /** The client's state.  `apiKey` is `None` or whatever the key file or the server supplied. */
  datatype Client = Client(serverUrl: string, apiKey: Option<Value>, agentId: string, agentName: string, registered: bool)

  /** The key is usable: `if self.api_key:`. */
  predicate HasKey(c: Client) {
    c.apiKey.Some? && Truthy(c.apiKey.value)
  }

  /** `_load_api_key`: the stripped contents of `agent_key.txt`, or `None` when it is absent or unreadable. */
  function LoadApiKey(keyFile: StoredFile): (r: Option<Value>)
    ensures r.Some? <==> keyFile.Readable?
    ensures r.Some? ==> r.value.Str? && Text.Unpadded(r.value.s)
  {
    match keyFile
    case Readable(content) =>
      var s := Text.Strip(content);
      Text.StripFixes(s);
      Some(Str(s))
    case _ => None
  }

  /** The agent id and, when a new one was persisted, the contents written to `agent_id.txt`. */
  datatype IdChoice = IdChoice(id: string, written: Option<string>)

  /**
   `_load_agent_id`: reuse the stripped contents of `agent_id.txt`; with no
   file, persist the fresh id `u1` and use it, or, when the file cannot be
   created, use a second fresh id `u2`; when the file exists but cannot be
   read, use `u1` and persist nothing.
   */
  function LoadAgentId(idFile: StoredFile, canWrite: bool, u1: string, u2: string): (r: IdChoice)
    ensures idFile.Readable? ==> r == IdChoice(Text.Strip(idFile.content), None)
    ensures r.written.Some? <==> idFile.NoFile? && canWrite
    ensures r.written.Some? ==> r.written.value == r.id
    ensures idFile.NoFile? ==> r.id == (if canWrite then u1 else u2)
  {
    match idFile
    case Readable(content) => IdChoice(Text.Strip(content), None)
    case Unreadable => IdChoice(u1, None)
    case NoFile => if canWrite then IdChoice(u1, Some(u1)) else IdChoice(u2, None)
  }

  /** A supplied id or name counts only when non-empty (`agent_id or ...`). */
  function OrElse(given: Option<string>, fallback: string): string {
    if given.Some? && |given.value| > 0 then given.value else fallback
  }

  /** The constructed client and what it persisted to `agent_id.txt`. */
  datatype Started = Started(client: Client, idWritten: Option<string>)

  /**
   `ServerIntegration.__init__`: the address loses its trailing `/`s, the key
   comes from `agent_key.txt`, the id is the supplied one or `_load_agent_id`'s
   (consulted only when none is supplied), the name is the supplied one or the
   host name, and the client counts as registered iff a key file was read.
   */
  function Init(serverUrl: string, agentId: Option<string>, agentName: Option<string>, hostname: string,
                keyFile: StoredFile, idFile: StoredFile, canWrite: bool, u1: string, u2: string): (r: Started)
    ensures r.client.serverUrl == Text.RStrip(serverUrl, '/')
    ensures |r.client.serverUrl| == 0 || r.client.serverUrl[|r.client.serverUrl| - 1] != '/'
    ensures r.client.registered <==> keyFile.Readable?
    ensures r.client.apiKey == LoadApiKey(keyFile)
    ensures agentId.Some? && |agentId.value| > 0 ==> r.client.agentId == agentId.value && r.idWritten.None?
    ensures !(agentId.Some? && |agentId.value| > 0) ==>
      var chosen := LoadAgentId(idFile, canWrite, u1, u2);
      r.client.agentId == chosen.id && r.idWritten == chosen.written
    ensures r.client.agentName == (if agentName.Some? && |agentName.value| > 0 then agentName.value else hostname)
  {
    var key := LoadApiKey(keyFile);
    var id := if agentId.Some? && |agentId.value| > 0 then IdChoice(agentId.value, None)
              else LoadAgentId(idFile, canWrite, u1, u2);
    Started(Client(Text.RStrip(serverUrl, '/'), key, id.id, OrElse(agentName, hostname), key.Some?), id.written)
  }

  /** The Authorization bearer a request carries: the key, when it is usable. */
  function Bearer(c: Client): (r: Option<Value>)
    ensures r.Some? <==> HasKey(c)
    ensures r.Some? ==> r == c.apiKey
  {
    if HasKey(c) then c.apiKey else None
  }

  /** What `register` learns about the host: its name, its address (`None` when resolving raises) and `os.name`. */
  datatype Host = Host(hostname: string, address: Option<string>, osName: string)

  /** The registration request, or `None` when resolving the host address raised before it was built. */
  function RegisterRequest(c: Client, host: Host): (r: Option<Request>)
    ensures r.Some? <==> host.address.Some?
    ensures r.Some? ==> r.value.Post? && r.value.url == c.serverUrl + "/api/agents/register"
    ensures r.Some? ==> (r.value.bearer.Some? <==> HasKey(c))
    ensures r.Some? ==> (r.value.body.Dict? && r.value.body.fields.Keys ==
      {"agent_id", "name", "hostname", "ip_address", "os_info", "version"})
    ensures r.Some? ==> (r.value.body.fields["agent_id"] == Str(c.agentId)
      && r.value.body.fields["ip_address"] == Str(host.address.value))
  {
    match host.address
    case None => None
    case Some(ip) =>
      Some(Post(c.serverUrl + "/api/agents/register", Bearer(c),
        Dict(map["agent_id" := Str(c.agentId), "name" := Str(c.agentName), "hostname" := Str(host.hostname),
                 "ip_address" := Str(ip), "os_info" := Str(host.osName), "version" := Str("1.0.0")])))
  }

  /** A call's result, the client afterwards, and the text written to `agent_key.txt`, if any. */
  datatype Outcome = Outcome(result: bool, client: Client, keyWritten: Option<string>)

  /**
   `f.write(token)` after `open(..., "w")` truncated the file: a string token
   is written; anything else makes `write` raise, leaving the file empty.
   */
  function KeyFileText(token: Value): string {
    if token.Str? then token.s else ""
  }

  /**
   `register`: a 200 reply whose body has a `token` makes it the key and
   persists it; a 200 reply without one keeps the key; both mark the client
   registered and succeed.  Any other status, an unparsable body, a body the
   `in` test raises on, a transport error or an unresolvable host address
   fail with nothing changed.
   */
  function Register(c: Client, host: Host, reply: Response): (r: Outcome)
    ensures !r.result ==> r.client == c && r.keyWritten.None?
    ensures r.result <==> host.address.Some? && IsOk(reply) && reply.body.Some? && !LookupKey(reply.body.value, "token").Raises?
    ensures r.result ==> (r.client.registered && r.client.serverUrl == c.serverUrl && r.client.agentId == c.agentId
      && r.client.agentName == c.agentName)
    ensures r.result ==> match LookupKey(reply.body.value, "token")
      case Present(token) => r.client.apiKey == Some(token) && r.keyWritten == Some(KeyFileText(token))
      case _ => r.client.apiKey == c.apiKey && r.keyWritten.None?
  {
    if host.address.None? || !IsOk(reply) || reply.body.None? then Outcome(false, c, None)
    else
      match LookupKey(reply.body.value, "token")
      case Raises => Outcome(false, c, None)
      case Absent => Outcome(true, c.(registered := true), None)
      case Present(token) => Outcome(true, c.(apiKey := Some(token), registered := true), Some(KeyFileText(token)))
  }

  /** The body `send_printer_data` posts. */
  function DiscoveryMessage(data: map<string, Value>): Value {
    Dict(map["type" := Str("printer_discovery"), "data" := Dict(data)])
  }

  /** The `send_printer_data` request: none without a usable key or without an `ip_address`. */
  function PrinterDataRequest(c: Client, data: map<string, Value>): (r: Option<Request>)
    ensures r.Some? <==> HasKey(c) && "ip_address" in data
    ensures r.Some? ==> r.value == Post(c.serverUrl + "/api/data", c.apiKey, DiscoveryMessage(data))
  {
    if !HasKey(c) || "ip_address" !in data then None
    else Some(Post(c.serverUrl + "/api/data", Bearer(c), DiscoveryMessage(data)))
  }

  /**
   `send_printer_data`'s return value: the `printer_id` of a 200 reply's body,
   `True` for a 200 reply without one, `False` otherwise, including when no
   request was made.
   */
  function SendPrinterData(c: Client, data: map<string, Value>, reply: Response): (r: Value)
    ensures PrinterDataRequest(c, data).None? ==> r == Bool(false)
    ensures !IsOk(reply) || reply.body.None? ==> r == Bool(false)
    ensures PrinterDataRequest(c, data).Some? && IsOk(reply) && reply.body.Some? ==>
      match reply.body.value
      case Dict(fields) => r == (if "printer_id" in fields then fields["printer_id"] else Bool(true))
      case List(xs) => r == Bool(Str("printer_id") !in xs)
      case Str(s) => r == Bool(!Text.Contains(s, "printer_id"))
      case JsonText(_) => r == Bool(true)
      case _ => r == Bool(false)
  {
    if PrinterDataRequest(c, data).None? || !IsOk(reply) || reply.body.None? then Bool(false)
    else
      match LookupKey(reply.body.value, "printer_id")
      case Present(id) => id
      case Absent => Bool(true)
      case Raises => Bool(false)
  }

  /**
   A 200 reply body that `send_printer_data` turns into a truthy result: a
   dict without `printer_id` or with a truthy one, a list or string the `in`
   test finds no `printer_id` in, or JSON text.
   */
  predicate AcceptingBody(body: Value) {
    match body
    case Dict(fields) => "printer_id" !in fields || Truthy(fields["printer_id"])
    case List(xs) => Str("printer_id") !in xs
    case Str(s) => !Text.Contains(s, "printer_id")
    case JsonText(_) => true
    case _ => false
  }

  /** `send_printer_data` reports success exactly for a request sent and answered 200 with an accepting body. */
  lemma SendPrinterDataTruthy(c: Client, data: map<string, Value>, reply: Response)
    ensures Truthy(SendPrinterData(c, data, reply)) <==>
      PrinterDataRequest(c, data).Some? && IsOk(reply) && reply.body.Some? && AcceptingBody(reply.body.value)
  {
  }

  /**
   The metrics `send_metrics` posts: `timestamp` filled in with `now` when
   absent, a dict `toner_levels` replaced by its JSON text; every other entry
   as given.
   */
  function PreparedMetrics(metrics: map<string, Value>, now: string): (m: map<string, Value>)
    ensures m.Keys == metrics.Keys + {"timestamp"}
    ensures m["timestamp"] == if "timestamp" in metrics then metrics["timestamp"] else Str(now)
    ensures "toner_levels" in metrics ==>
      m["toner_levels"] == (if metrics["toner_levels"].Dict? then JsonText(metrics["toner_levels"]) else metrics["toner_levels"])
    ensures forall k :: k in metrics && k != "timestamp" && k != "toner_levels" ==> m[k] == metrics[k]
  {
    var m := if "timestamp" in metrics then metrics else metrics["timestamp" := Str(now)];
    if "toner_levels" in m && m["toner_levels"].Dict? then m["toner_levels" := JsonText(m["toner_levels"])] else m
  }

  /** Preparing metrics twice changes nothing further, whatever time the second call reads. */
  lemma PreparedMetricsIdempotent(metrics: map<string, Value>, now: string, later: string)
    ensures PreparedMetrics(PreparedMetrics(metrics, now), later) == PreparedMetrics(metrics, now)
  {
    var m := PreparedMetrics(metrics, now);
    assert "timestamp" in m;
    assert "toner_levels" in m ==> !m["toner_levels"].Dict?;
  }

  /** Metrics that carry a timestamp and no dict `toner_levels` are sent exactly as given. */
  lemma PreparedMetricsKeeps(metrics: map<string, Value>, now: string)
    requires "timestamp" in metrics
    requires "toner_levels" in metrics ==> !metrics["toner_levels"].Dict?
    ensures PreparedMetrics(metrics, now) == metrics
  {
  }

  /** The body `send_metrics` posts. */
  function MetricsMessage(printerId: Value, metrics: map<string, Value>): Value {
    Dict(map["type" := Str("metrics"), "printer_id" := printerId, "data" := Dict(metrics)])
  }

  /** The `send_metrics` request: none without a usable key or with no metrics. */
  function MetricsRequest(c: Client, printerId: Value, metrics: map<string, Value>, now: string): (r: Option<Request>)
    ensures r.Some? <==> HasKey(c) && |metrics| > 0
    ensures r.Some? ==> r.value == Post(c.serverUrl + "/api/data", c.apiKey, MetricsMessage(printerId, PreparedMetrics(metrics, now)))
  {
    if !HasKey(c) || |metrics| == 0 then None
    else Some(Post(c.serverUrl + "/api/data", Bearer(c), MetricsMessage(printerId, PreparedMetrics(metrics, now))))
  }

  /** `send_metrics`: true iff a request was made and the reply was a 200. */
  function SendMetrics(c: Client, printerId: Value, metrics: map<string, Value>, now: string, reply: Response): (r: bool)
    ensures r <==> MetricsRequest(c, printerId, metrics, now).Some? && IsOk(reply)
  {
    HasKey(c) && |metrics| > 0 && IsOk(reply)
  }

  /** The `get_server_config` request: none without a usable key. */
  function ConfigRequest(c: Client): (r: Option<Request>)
    ensures r.Some? <==> HasKey(c)
    ensures r.Some? ==> r.value == Get(c.serverUrl + "/api/agents/config/" + c.agentId, c.apiKey)
  {
    if HasKey(c) then Some(Get(c.serverUrl + "/api/agents/config/" + c.agentId, Bearer(c))) else None
  }

  /**
   `get_server_config` (and its alias `get_config`): the decoded body of a 200
   reply; Python's `None` (here `Null`) without a key, on any other status, on
   an unparsable body or a transport error.
   */
  function GetServerConfig(c: Client, reply: Response): (r: Value)
    ensures ConfigRequest(c).None? || !IsOk(reply) || reply.body.None? ==> r == Null
    ensures ConfigRequest(c).Some? && IsOk(reply) && reply.body.Some? ==> r == reply.body.value
  {
    if HasKey(c) && IsOk(reply) && reply.body.Some? then reply.body.value else Null
  }

  /**
   After registering with a truthy token, fetching the configuration sends
   that token and yields the body of a 200 reply; a value other than `None`
   comes only from such a reply.
   */
  lemma RegisteredFetchesConfig(c: Client, host: Host, reply: Response, token: Value, configReply: Response)
    requires IsOk(reply) && reply.body == Some(Dict(map["token" := token])) && host.address.Some?
    requires Truthy(token)
    ensures var c' := Register(c, host, reply).client;
      && ConfigRequest(c').Some? && ConfigRequest(c').value.bearer == Some(token)
      && (IsOk(configReply) && configReply.body.Some? ==> GetServerConfig(c', configReply) == configReply.body.value)
      && (GetServerConfig(c', configReply) != Null ==> IsOk(configReply) && configReply.body.Some?)
  {
  }

  /**
   An id `_load_agent_id` drew and persisted on the first start (a UUID has
   no surrounding whitespace) is read back on the next start.
   */
  lemma IdSurvivesRestart(u1: string, u2: string, v1: string, v2: string, canWrite: bool)
    requires Text.Unpadded(u1)
    ensures var first := LoadAgentId(NoFile, true, u1, u2);
      && first.id == u1 && first.written == Some(u1)
      && LoadAgentId(Readable(first.written.value), canWrite, v1, v2) == IdChoice(u1, None)
  {
    Text.StripFixes(u1);
  }

  /**
   Two starts of the client without a supplied id: the second one uses the
   id the first persisted, and persists nothing.
   */
  lemma InitIdSurvivesRestart(serverUrl: string, hostname: string, keyFile: StoredFile,
                              u1: string, u2: string, v1: string, v2: string)
    requires Text.Unpadded(u1)
    ensures var first := Init(serverUrl, None, None, hostname, keyFile, NoFile, true, u1, u2);
      && first.idWritten == Some(u1)
      && var second := Init(serverUrl, None, None, hostname, keyFile, Readable(u1), true, v1, v2);
         second.client.agentId == first.client.agentId && second.idWritten.None?
  {
    IdSurvivesRestart(u1, u2, v1, v2, true);
  }

  /**
   A string token the server issued at registration is persisted and, being
   unpadded, is the key the next start loads, which counts as registered.
   */
  lemma KeySurvivesRestart(c: Client, host: Host, reply: Response, token: string,
                           serverUrl: string, hostname: string, idFile: StoredFile, canWrite: bool, u1: string, u2: string)
    requires IsOk(reply) && reply.body == Some(Dict(map["token" := Str(token)])) && host.address.Some?
    requires Text.Unpadded(token)
    ensures var r := Register(c, host, reply);
      && r.keyWritten == Some(token)
      && var next := Init(serverUrl, None, None, hostname, Readable(r.keyWritten.value), idFile, canWrite, u1, u2).client;
         next.apiKey == r.client.apiKey && next.registered
  {
    Text.StripFixes(token);
  }

  /**
   Whether the server is contacted at all depends only on the client's key:
   without a usable key no send or config request is built, whatever the data.
   */
  lemma NoKeyNoTraffic(c: Client, data: map<string, Value>, printerId: Value, metrics: map<string, Value>, now: string)
    requires !HasKey(c)
    ensures PrinterDataRequest(c, data).None?
    ensures MetricsRequest(c, printerId, metrics, now).None?
    ensures ConfigRequest(c).None?
  {
  }

  /**
   A client built from a readable but empty key file counts as registered yet
   holds no usable key, so it sends nothing until it registers again.
   */
  lemma EmptyKeyFileRegisteredButMute(serverUrl: string, hostname: string, idFile: StoredFile, canWrite: bool,
                                      u1: string, u2: string, content: string)
    requires Text.Strip(content) == ""
    ensures var c := Init(serverUrl, None, None, hostname, Readable(content), idFile, canWrite, u1, u2).client;
      c.registered && !HasKey(c)
  {
  }

  /**
   Registering with a token and then building any request sends that token as
   the bearer when it is truthy, and nothing when it is not.
   */
  lemma RegisteredTokenIsBearer(c: Client, host: Host, reply: Response, token: Value)
    requires IsOk(reply) && reply.body == Some(Dict(map["token" := token])) && host.address.Some?
    ensures var r := Register(c, host, reply);
      r.result && r.client.apiKey == Some(token)
      && (ConfigRequest(r.client).Some? <==> Truthy(token))
      && (Truthy(token) ==> ConfigRequest(r.client).value.bearer == Some(token))
  {
  }
}
