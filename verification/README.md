# Printer monitoring agent, as a Dafny model

The system is a Python agent that finds network printers over SNMP and keeps their
records and readings in a local SQLite database. It either queues the readings for
a central server (`PrinterAgent`, agent.py) or talks to the server directly
through `ServerIntegration` (`PrinterCollector`, Agent/data_collector.py and
Agent/agent_integration.py).

The model keeps the decision logic of those three files. Everything the code asks
of the outside world becomes a parameter:

- an SNMP oracle `(ip, oid) -> Reply(text) | ErrorReply | Raised`;
- an HTTP oracle giving a status and a decoded body, or a transport failure;
- the host enumeration of a subnet;
- the clock, the files the client reads, and the UUIDs it draws.

The database is an immutable value (`Store.Store`). It holds the `printers` rows in
rowid order, the append-only `metrics` rows, and the `send_queue` FIFO.

Modules, one per file:

- `Wrappers`: `Option`.
- `Text`: ASCII lower-casing, `strip`, `rstrip`, and `str(int)` / `int(str)`.
- `JsonList`: `json.dumps` and `json.loads` for a list of strings, with the round trip proved.
- `Payload`: Python values, truthiness, and HTTP requests and responses.
- `Probe`: the printer classifier, the identity record and the metrics record.
- `Store`: the tables and their constraints, the printer upsert, set-serial, and the appends.
- `Discovery`: the subnet-then-host discovery walk.
- `Config`: loading a configuration over its defaults, and saving it.
- `Integration`: the `ServerIntegration` client.
- `Sampling`: the metrics pass over a snapshot of the printers.
- `Agent`: agent.py's metrics saving, send-queue sync and manual serial update.
- `Collector`: data_collector.py's start-up, discovery, forwarding and printer sync.

## Model

| member | source | states |
|---|---|---|
| Text.IntRoundTrip | Agent/data_collector.py:100-101 | `getint` reads back exactly the integer `str` wrote |
| JsonList.ListRoundTrip | Agent/data_collector.py:107-110 | `json.loads(json.dumps(xs)) == xs` for every list of strings, escapes and non-BMP characters included |
| Probe.IsPrinter | agent.py:214-224 | a device is a printer iff the probe reported no error and its text, lower-cased, contains one of the eight vendor keywords |
| Probe.ClassifierIgnoresCase | agent.py:220-221 | the classifier gives the same answer for any ASCII case variant of the reply |
| Probe.PrinterInfo | agent.py:229-263 | the identity record always has `ip_address` and a `serial`, which is `'UNKNOWN'` when that query failed; `model` and `name` are present iff their queries answered; any raise yields no record |
| Probe.QueryAll | agent.py:242-253 | no record iff some query raised; otherwise every answered query's reply is stored under its key, the keys are the starting ones plus those of answered queries, and starting keys outside the table keep their values |
| Probe.ColourInjective | agent.py:380-381 | distinct keys ending in `_toner` strip to distinct colours, so no toner reading overwrites another; on the metric keys, stripping the suffix is what `replace` does |
| Probe.ReadMetrics | agent.py:365-380 | no readings iff some query raised; otherwise a `*_toner` reply is filed under its colour, every other reply at top level, and unanswered keys are absent |
| Probe.GetMetrics | agent.py:343-394 | the sample is absent iff some query raised. Otherwise it holds exactly `timestamp = now`, `toner_levels`, `raw_data` and the answered non-toner keys. Every one of those except `toner_levels` and `raw_data` is a string. `toner_levels` is JSON text of exactly the answered colours, so a failed toner query leaves its colour out. `raw_data` is JSON text of the rest of the sample. Toner keys never appear at top level |
| Store.SavePrinter | agent.py:265-316 | an upsert keyed by address: a known address keeps its id and `server_id` and has its fields overwritten (missing model and name become `''`, a missing serial `'UNKNOWN'`); a new one gets the next id; other rows are unchanged; one row per address is preserved; a new row has a NULL `server_id` |
| Store.IndexOfUnique | agent.py:139 | with `UNIQUE(ip_address)`, the row an address finds is the only one holding it |
| Store.SetSerial | Agent/data_collector.py:460-480 | a known address changes only that row's serial and succeeds; an unknown one fails and changes nothing |
| Store.AppendMetrics | Agent/data_collector.py:432-458 | the INSERT succeeds iff the sample has a non-NULL `timestamp` (the column is NOT NULL) and no list or dict column. Then one row is appended under the next id, holding exactly the sample's timestamp, page count, toner levels, status, error state and raw data. The printers and the queue are unchanged. On failure nothing is written |
| Store.Enqueue | agent.py:433-447 | one message is appended behind every queued one, under the next id |
| Discovery.ScanHostsFound | agent.py:185-191 | within a subnet, a record is reported iff some host in it yields that record |
| Discovery.ScanHostsYields | agent.py:185-191 | within a subnet, the records come out in host-enumeration order. The reference reads the hosts front to back, one record per accepted host |
| Discovery.ScanHostsEffect | agent.py:185-191 | every reported host has a row, rows of unreported hosts are untouched, and the table constraints hold |
| Discovery.DiscoverSound | agent.py:173-196 | discovery reports exactly the records of accepted hosts in the subnets that parse, in subnet order and then host order, and the store effects hold |
| Discovery.ScanSubnetsFound | agent.py:178-193 | across subnets, a record is reported iff some host of a parsed subnet yields it |
| Discovery.ScanSubnetsAppend | agent.py:178-193 | scanning `a + b` is scanning `a` and then `b` from the resulting store, with the reports concatenated in order |
| Discovery.ScanSubnetsYields | agent.py:178-193 | across subnets, the reports are each parsed subnet's records in turn, each subnet's in host order |
| Discovery.SkipUnparsable | agent.py:179-193 | a subnet that fails to parse changes neither the reports nor the store, and later subnets are still scanned |
| Sampling.SamplesExact | agent.py:318-341 | every printer of the snapshot whose poll succeeded contributes its sample, and every sample comes from such a printer |
| Sampling.SamplesStamped | agent.py:359-388 | with a stamped poll, every sample carries its time and its toner levels as JSON text |
| Sampling.SnmpPollStamped | agent.py:343-394 | every sample `_get_printer_metrics` builds carries the time it read and JSON-text toner levels, and the metrics INSERT accepts it |
| Agent.SaveMetrics | agent.py:396-431 | the INSERT succeeds iff the sample is insertable. Then exactly one metrics row holding the sample's columns for the printer is added, and exactly one `metrics` message is queued, carrying the agent id, the printer id and the same sample. On failure nothing is written or queued and the result is false |
| Agent.SaveAllRows | agent.py:330-334 | a metrics pass appends exactly one row per sample, in sample order, each for that sample's printer |
| Agent.SaveAllMessages | agent.py:330-334 | the messages a metrics pass queues carry its samples in order, each with its printer's id |
| Agent.CollectMetricsEffect | agent.py:318-341 | the metrics pass adds one row and one message per answering printer and leaves the printers and the earlier queue as they were |
| Agent.CollectMetricsReports | agent.py:318-341 | every answering printer gets a message with its id and sample, and every new message is for such a printer |
| Agent.Batch | agent.py:463 | a sync pass looks at the oldest `min(100, n)` queued messages |
| Agent.UnackedExact | agent.py:472-480 | a message stays iff the server did not accept it, and the ones that stay keep their order |
| Agent.RemoveOne | agent.py:479 | deleting by id removes exactly the one message with that id |
| Agent.SendBatch | agent.py:472-480 | walking the batch keeps exactly the messages the server did not accept, in order, followed by the untouched rest of the queue |
| Agent.SyncWithServer | agent.py:449-488 | an empty token fails and changes nothing; otherwise the sync succeeds and leaves the batch's unaccepted messages followed by the untouched rest |
| Agent.SyncDeletesOnlyAccepted | agent.py:458-485 | a message leaves the queue iff it was in the batch and accepted; ids stay ascending; messages behind the batch are untouched |
| Agent.SetPrinterSerial | agent.py:515-550 | a known address changes only that row's serial and queues one `printer_update` message; an unknown address fails and changes nothing |
| Agent.SetPrinterSerialEffect | agent.py:521-541 | with unique addresses, exactly the matched row's serial changes and the message carries that row's id |
| Config.ParseBool | Agent/data_collector.py:104-105 | `getboolean` accepts exactly `1/yes/true/on` and `0/no/false/off`, in any ASCII case |
| Config.Convert | Agent/data_collector.py:100-115 | the conversion is picked by the default's type. An int, and as written a bool, uses `getint`: a number is assigned, anything else raises. With the fixed loader a bool uses `getboolean`. A list uses `json.loads`: a bad value raises in agent.py, while the collector's `subnets` keeps the default. The collector's other lists and all strings are assigned verbatim. Nothing else keeps the default |
| Config.OverlayChanges | Agent/data_collector.py:96-115 | loading keeps the defaults' sections and keys, and changes only entries the file mentions |
| Config.Load | Agent/data_collector.py:87-126 | a file that is missing, or refused by configparser, gives the defaults and writes them. Otherwise only entries the file mentions change. The result is the overlay, and nothing is written iff no conversion raised. A conversion that raises keeps what was overlaid so far and writes it |
| Config.Written | Agent/data_collector.py:128-139 | the saved file lists every section and key in order, with lists as JSON and other values with `str` |
| Config.SaveThenLoad | Agent/data_collector.py:100-139 | a configuration whose values survive a save and a reload, one by one, survives a whole save and reload unchanged, and nothing is rewritten |
| Config.AgentRoundTrip | agent.py:62-117 | agent.py's configuration survives a save and a reload |
| Config.CollectorIgnoresEnable | Agent/data_collector.py:100-106 | as written, any `enabled` value that `getint` rejects raises, so the server stays disabled, the address edit after it is dropped, and the defaults are written back |
| Config.WordsAreNotInts | Agent/data_collector.py:101-102 | `getint` rejects `true`, `yes` and `on`, so none of them enables the server as written |
| Config.CollectorEnablesWithOne | Agent/data_collector.py:100-101 | as written, `enabled = 1` loads through `getint` as the integer 1, and nothing is rewritten |
| Config.BadSubnetsKeepDefault | Agent/data_collector.py:107-113 | in the collector, a `subnets` value that is not a JSON list of strings keeps the default subnets, and nothing is written |
| Config.AgentBadSubnetsRewrite | agent.py:82-91 | in agent.py, the same value raises out of the loop, so the defaults are kept and written back |
| Config.CollectorRewritesOwnFile | Agent/data_collector.py:117-121 | as written, the file the collector saves for its own defaults fails to load cleanly and is rewritten at every start |
| Config.FixedLoaderHonoursEnable | Agent/data_collector.py:100-106 | with the `bool` test before the `int` test, `enabled = true` and the server address are both loaded |
| Config.FixedCollectorRoundTrip | Agent/data_collector.py:87-139 | with the `bool` test first, the collector's configuration survives a save and a reload, `enabled` included |
| Integration.LoadApiKey | Agent/agent_integration.py:46-54 | a key is loaded iff `agent_key.txt` could be read, and it is a string with no surrounding whitespace |
| Integration.LoadAgentId | Agent/agent_integration.py:65-79 | a stored id is reused; otherwise a fresh id is written and used; if that fails, another fresh id is used and nothing is written |
| Integration.IdSurvivesRestart | Agent/agent_integration.py:65-76 | an id drawn and persisted on the first start is read back unchanged on the next, and nothing more is written |
| Integration.Init | Agent/agent_integration.py:31-44 | trailing `/` is stripped from the address; `registered` holds iff a stored key was read; a supplied id and name win over the stored id and the host name |
| Integration.InitIdSurvivesRestart | Agent/agent_integration.py:40-44 | without a supplied id, a restart uses the id the first start persisted, and persists nothing |
| Integration.KeySurvivesRestart | Agent/agent_integration.py:46-63 | a string token saved at registration is the key the next start loads, and that start counts as registered |
| Integration.Bearer | Agent/agent_integration.py:101-103 | a request carries a bearer iff a non-empty key is held |
| Integration.RegisterRequest | Agent/agent_integration.py:81-110 | the registration body holds the six fields, with the agent id and the host address, and is posted to `/api/agents/register` |
| Integration.Register | Agent/agent_integration.py:81-128 | 200 with a token: the token becomes the key and is saved; 200 without one: the key is kept; both mark the client registered. Anything else fails with nothing changed |
| Integration.PrinterDataRequest | Agent/agent_integration.py:146-172 | a `printer_discovery` message with the data unchanged is posted iff a key is held and the data has `ip_address` |
| Integration.SendPrinterData | Agent/agent_integration.py:130-189 | no request, a non-200 reply or an unparsable body gives `False`. On a 200 the result depends on the body. A dict gives its `printer_id` if it has one, else `True`. A list or string gives `True` iff the `in` test finds no `printer_id`. A number, boolean or null body raises in `in`, giving `False` |
| Integration.SendPrinterDataTruthy | Agent/agent_integration.py:175-189 | the result is truthy iff a request was sent and answered 200 with an accepting body. That is a dict with no `printer_id` or a truthy one, or a list or string without it |
| Integration.PreparedMetrics | Agent/agent_integration.py:209-217 | a missing `timestamp` is filled in, a dict `toner_levels` becomes JSON text, and every other entry stays as given |
| Integration.PreparedMetricsIdempotent | Agent/agent_integration.py:219-225 | preparing metrics a second time changes nothing, whatever time the second call reads |
| Integration.PreparedMetricsKeeps | Agent/agent_integration.py:219-225 | metrics with a timestamp and no dict `toner_levels` are posted exactly as given |
| Integration.MetricsRequest | Agent/agent_integration.py:191-240 | a `metrics` message with the printer id is posted iff a key is held and the data is non-empty |
| Integration.SendMetrics | Agent/agent_integration.py:191-256 | the result is true iff a request was made and the reply was a 200 |
| Integration.ConfigRequest | Agent/agent_integration.py:258-275 | the configuration is fetched from `/api/agents/config/<id>` iff a key is held |
| Integration.GetServerConfig | Agent/agent_integration.py:258-295 | the result is the body of a 200 reply, and None without a key or on any failure; `get_config` gives the same |
| Integration.RegisteredFetchesConfig | Agent/agent_integration.py:258-295 | after registering with a truthy token, the configuration fetch sends that token and returns a 200 reply's body. A result other than `None` comes only from such a reply |
| Integration.NoKeyNoTraffic | Agent/agent_integration.py:146-148 | without a non-empty key, neither printer data, metrics nor a configuration fetch reaches the network |
| Collector.Start | Agent/data_collector.py:70-85 | the configuration is the loader's result. The server client exists iff `enabled` is truthy and the integration module loaded. It talks to the loaded address with `/` stripped and takes its key from `agent_key.txt`. A non-empty configured agent id is used as is, and `agent_id.txt` is neither read nor written |
| Collector.FirstStartIsOffline | Agent/data_collector.py:80-85 | with either loader, a first start writes the defaults and leaves the server off |
| Collector.AsWrittenIgnoresEnable | Agent/data_collector.py:80-85 | as written, a file with `enabled = true` and an address starts with the server off and has the defaults written over it |
| Collector.AsWrittenEnablesWithOne | Agent/data_collector.py:80-85 | as written, a file with `enabled = 1` starts the server client and is kept |
| Collector.FixedStartEnablesServer | Agent/data_collector.py:80-85 | with the corrected loader, a file with `enabled = true` and an address starts a client for that address and is kept |
| Collector.FixedStartUsesConfiguredId | Agent/data_collector.py:82-84 | the started client uses the collector's configured agent id, and `agent_id.txt` is not written |
| Collector.AsWrittenRestartRewrites | Agent/data_collector.py:80-85 | as written, restarting from the file saved for the defaults leaves the server off and rewrites the file |
| Collector.FixedRestartKeepsConfig | Agent/data_collector.py:80-85 | with the corrected loader, restarting from a saved configuration reloads it unchanged and writes nothing |
| Collector.AnnouncementsExact | Agent/data_collector.py:217-222 | with a keyed server, each reported record is posted once, in order; otherwise nothing is sent |
| Collector.DiscoverPrintersAnnounces | Agent/data_collector.py:196-226 | every printer the collector's discovery reports is posted, in order, when a keyed server is set, and nothing is posted otherwise |
| Collector.StoreAllEffect | Agent/data_collector.py:432-458 | storing insertable samples adds one row per sample, for its printer, and queues nothing |
| Collector.ForwardsExact | Agent/data_collector.py:366-371 | a sample is forwarded iff a server is set and its printer has a `server_id` |
| Collector.CollectMetricsForwardsRegistered | Agent/data_collector.py:350-377 | with a stamped poll, one row is stored per answering printer. With a server, exactly the samples of answering printers that have a `server_id` are forwarded, under that id. This holds whether or not storing succeeded |
| Collector.PolledSampleSentAsIs | Agent/data_collector.py:366-371 | the in-place edit `send_metrics` makes leaves a polled sample unchanged, so the stored row and the posted message carry the same sample |
| Collector.SyncUnregistered | Agent/data_collector.py:496-534 | without a server it fails and changes nothing; otherwise exactly the accepted NULL-`server_id` rows get `server_id = 1`, and it succeeds iff one was accepted |
| Collector.AcceptedExact | Agent/data_collector.py:512-520 | a row is accepted iff it has no `server_id`, a key is held, and the server answered its record 200 with an accepting body |
| Collector.SyncSettles | Agent/data_collector.py:508-531 | afterwards a row lacks a `server_id` iff it lacked one and was not accepted, so a repeat pass with the same answers changes nothing |

## Left out

- SNMP, SQLite, HTTP and file I/O: these are oracles and parameters. The SNMP community and timeout are absorbed into the SNMP oracle.
- Database exceptions: the failure of the `metrics` INSERT is modelled. It fails on a NULL `timestamp` and on a list or dict column, which sqlite3 cannot bind. The other statements bind only strings and integers, so their `except` paths are not modelled. Integers are assumed to fit in 64 bits; sqlite3 raises `OverflowError` on larger ones, which only a non-polled sample could carry.
- Agent.SaveAllGrows, Agent.SaveAllRows, Agent.SaveAllMessages, Agent.CollectMetricsEffect, Agent.CollectMetricsReports, Collector.StoreAllEffect: these count rows only for samples the INSERT accepts. The poll `_get_printer_metrics` builds always yields such samples (`Sampling.SnmpPollStamped`). For other polls the row counts are not stated.
- `ipaddress.ip_network(...).hosts()`: this is the `Hosts` input, with `None` when parsing raises.
- `threading.Lock`: the model runs sequentially and does not model the lock. As written, three call paths re-acquire the non-reentrant lock they already hold, and each of them deadlocks:
  - agent.py `collect_metrics` (line 323) calls `_save_metrics` (line 399), which calls `_queue_data_for_server` (line 436). It hangs at the first printer that answers.
  - agent.py `set_printer_serial` (line 518) commits the serial and then calls `_queue_data_for_server` (line 534 to line 436). It hangs after the commit, so no message is queued.
  - Agent/data_collector.py `collect_metrics` (line 355) calls `_save_metrics` (line 435). It hangs at the first printer that answers.

  The model states what these operations do if the lock were reentrant.
- `datetime.now()`: this is one `now` per discovery scan, which stamps every printer saved in that scan, while the source reads the clock again in each `_save_printer`. A metrics pass reads a `clock` per printer. JSON text produced by `json.dumps` for `raw_data` and `toner_levels` is kept as the value it encodes, because nothing reads it back.
- Queue order: `send_queue` is read `ORDER BY created_at`. The model assumes this agrees with insertion order, since equal timestamps are not distinguished.
- Queue contents: `json.loads` of a queued message is the stored value itself.
- configparser's text layer:
  - The file is modelled as its parsed sections, with values stripped.
  - Key lower-casing, the `DEFAULT` section, `%` interpolation and multi-line values are not modelled.
  - A file configparser rejects, or one with a repeated section or key, is treated like a missing file. `parser.read` silently skips a file it cannot open, which then loads as an empty file.
- Text conversions: `int()` accepts an optional sign and ASCII digits only, not underscores, surrounding Unicode spaces or non-ASCII digits. Lower-casing is ASCII only.
- `json.loads` on a subnets value: a JSON value that is not a list of strings counts as a parse failure.
- The `float` branch of `_load_config` is not modelled, because no default is a float.
- `DEFAULT_CONFIG.copy()` is shallow, so loading also mutates the module-level defaults. The model returns a fresh configuration and does not model that aliasing.
- `_save_printer` in Agent/data_collector.py (lines 295-348) is agent.py's upsert with the `server_id` column kept; both are `Store.SavePrinter`.
- `_check_snmp_device` in Agent/data_collector.py duplicates agent.py's; the model has one classifier and one identity record for both files.
- `register_with_server`, `run`, `main`, `schedule`, logging, `_setup_database` and Agent/db_setup.py: these are drivers and I/O with no decision logic beyond what is modelled.
- `Collector.Setting`: renders a non-string entry with `str` where Python would pass the object on. After loading, these entries are always strings.
- `_save_api_key`: writing `agent_key.txt` is assumed to open. A non-string token makes `write` raise after truncation, which leaves an empty file.
- `sync_unregistered_printers`: the `UPDATE ... WHERE id = ?` is applied to the snapshot row at the same position. Ids are the primary key, so the two coincide.

## Findings

| source | as written | input that shows it | evidently intended | confidence | as-written member | corrected member |
|---|---|---|---|---|---|---|
| Agent/data_collector.py:100-106 | the `int` test comes before the `bool` test. `isinstance(False, int)` holds, so `enabled` is read with `getint`, which raises on `true`/`False`. The outer `except` then drops the rest of the file and writes back what was loaded so far | a `[server]` section with `enabled = true`; or the collector's own saved file, which holds `enabled = False` | read `enabled` with `getboolean`, so `enabled = true` (as well as `yes` or `on`) enables the server and a saved file loads back unchanged. As written, only `enabled = 1` or another non-zero integer enables it | high, not executed | Collector.AsWrittenIgnoresEnable | Collector.FixedStartEnablesServer |
| Agent/data_collector.py:117-121 | because of the same dispatch, every start rewrites `config.ini` with the partially loaded configuration, discarding user edits after `enabled` | the file `_save_config` wrote for the defaults | a saved configuration reloads to itself and is not rewritten | high, not executed | Config.CollectorRewritesOwnFile | Config.FixedCollectorRoundTrip |
