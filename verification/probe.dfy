/**
 The SNMP-facing half of discovery and polling (agent.py and
 Agent/data_collector.py share it line for line): the printer classifier, the
 identity record and the metrics record, each assembled from the answers of an
 SNMP oracle instead of live `getCmd` calls.
 */
module Probe {
  import opened Wrappers
  import Text
  import opened Payload

  /**
   The answer to one SNMP GET: the value rendered with `str`, an error
   indication or error status, or an exception raised by the query itself.
   */
  datatype SnmpReply = Reply(text: string) | ErrorReply | Raised

  /** The SNMP oracle: the answer a host gives for one OID. */
  type Snmp = (string, string) -> SnmpReply

  const SysDescrOid: string := "1.3.6.1.2.1.1.1.0"

  const PrinterKeywords: seq<string> :=
    ["print", "hp", "xerox", "canon", "epson", "brother", "ricoh", "lexmark"]

  /** Some keyword of `keywords` occurs in `text`. */
  function MatchesKeyword(text: string, keywords: seq<string>): (r: bool)
    ensures r <==> exists i :: 0 <= i < |keywords| && Text.Contains(text, keywords[i])
    decreases |keywords|
  {
    if |keywords| == 0 then false
    else Text.Contains(text, keywords[0]) || MatchesKeyword(text, keywords[1..])
  }

  /**
   The `_check_snmp_device` decision on the system-description answer: a
   printer iff the query succeeded and the lower-cased value contains one of
   the vendor keywords.
   */
  function IsPrinter(reply: SnmpReply): (r: bool)
    ensures r <==> (reply.Reply? &&
      exists i :: 0 <= i < |PrinterKeywords| && Text.Contains(Text.AsciiLower(reply.text), PrinterKeywords[i]))
  {
    match reply
    case Reply(t) => MatchesKeyword(Text.AsciiLower(t), PrinterKeywords)
    case _ => false
  }

  function CheckDevice(snmp: Snmp, ip: string): bool {
    IsPrinter(snmp(ip, SysDescrOid))
  }

  /** Lower-casing the description first does not change the verdict. */
  lemma ClassifierIgnoresCase(t: string)
    ensures IsPrinter(Reply(t)) == IsPrinter(Reply(Text.AsciiLower(t)))
  {
    assert Text.AsciiLower(Text.AsciiLower(t)) == Text.AsciiLower(t);
  }

  /** A table of (dictionary key, OID) pairs queried in order. */
  type OidTable = seq<(string, string)>

  ghost predicate DistinctKeys(table: OidTable) {
    forall i, j :: 0 <= i < j < |table| ==> table[i].0 != table[j].0
  }

  ghost predicate SomeRaised(snmp: Snmp, ip: string, table: OidTable) {
    exists i :: 0 <= i < |table| && snmp(ip, table[i].1).Raised?
  }

  /**
   Queries every OID of `table` in order, storing each successful answer under
   its key in a copy of `init`; an exception from any query abandons the whole
   record.
   */
  function QueryAll(snmp: Snmp, ip: string, table: OidTable, init: map<string, string>): (r: Option<map<string, string>>)
    requires DistinctKeys(table)
    ensures r.None? <==> SomeRaised(snmp, ip, table)
    ensures r.Some? ==> Answers(snmp, ip, table, r.value)
    ensures r.Some? ==> KeysFrom(snmp, ip, table, init, r.value)
    ensures r.Some? ==> forall k :: k in init && (forall i :: 0 <= i < |table| ==> table[i].0 != k) ==>
      r.value[k] == init[k]
    decreases |table|
  {
    if |table| == 0 then Some(init)
    else
      var prefix := table[..|table| - 1];
      var (key, oid) := table[|table| - 1];
      PrefixDistinct(table);
      SomeRaisedLast(snmp, ip, table);
      match QueryAll(snmp, ip, prefix, init)
      case None => None
      case Some(info) =>
        match snmp(ip, oid)
        case Raised => None
        case ErrorReply =>
          QuerySkips(snmp, ip, table, init, info);
          Some(info)
        case Reply(t) =>
          QueryStores(snmp, ip, table, init, info);
          Some(info[key := t])
  }

  /** Every successful answer of `table` is stored under its key. */
  ghost predicate Answers(snmp: Snmp, ip: string, table: OidTable, info: map<string, string>) {
    forall i :: 0 <= i < |table| && snmp(ip, table[i].1).Reply? ==>
      table[i].0 in info && info[table[i].0] == snmp(ip, table[i].1).text
  }

  /** The keys of `info` are those of `init` and those of `table` that were answered. */
  ghost predicate KeysFrom(snmp: Snmp, ip: string, table: OidTable, init: map<string, string>, info: map<string, string>) {
    forall k :: k in info <==>
      (k in init || exists i :: 0 <= i < |table| && table[i].0 == k && snmp(ip, table[i].1).Reply?)
  }

  lemma QuerySkips(snmp: Snmp, ip: string, table: OidTable, init: map<string, string>, info: map<string, string>)
    requires |table| > 0 && snmp(ip, table[|table| - 1].1).ErrorReply?
    requires Answers(snmp, ip, table[..|table| - 1], info) && KeysFrom(snmp, ip, table[..|table| - 1], init, info)
    ensures Answers(snmp, ip, table, info) && KeysFrom(snmp, ip, table, init, info)
  {
    var n := |table| - 1;
    var prefix := table[..n];
    assert forall i :: 0 <= i < n ==> prefix[i] == table[i];
    forall k | k in info && k !in init
      ensures exists i :: 0 <= i < |table| && table[i].0 == k && snmp(ip, table[i].1).Reply?
    {
      var i :| 0 <= i < n && prefix[i].0 == k && snmp(ip, prefix[i].1).Reply?;
      assert table[i] == prefix[i];
    }
  }

  lemma QueryStores(snmp: Snmp, ip: string, table: OidTable, init: map<string, string>, info: map<string, string>)
    requires |table| > 0 && DistinctKeys(table) && snmp(ip, table[|table| - 1].1).Reply?
    requires Answers(snmp, ip, table[..|table| - 1], info) && KeysFrom(snmp, ip, table[..|table| - 1], init, info)
    ensures var info' := info[table[|table| - 1].0 := snmp(ip, table[|table| - 1].1).text];
      Answers(snmp, ip, table, info') && KeysFrom(snmp, ip, table, init, info')
  {
    var n := |table| - 1;
    var prefix := table[..n];
    var info' := info[table[n].0 := snmp(ip, table[n].1).text];
    assert forall i :: 0 <= i < n ==> prefix[i] == table[i];
    forall k | k in info' && k !in init
      ensures exists i :: 0 <= i < |table| && table[i].0 == k && snmp(ip, table[i].1).Reply?
    {
      if k != table[n].0 {
        var i :| 0 <= i < n && prefix[i].0 == k && snmp(ip, prefix[i].1).Reply?;
        assert table[i] == prefix[i];
      }
    }
    forall k | exists i :: 0 <= i < |table| && table[i].0 == k && snmp(ip, table[i].1).Reply?
      ensures k in info'
    {
      var i :| 0 <= i < |table| && table[i].0 == k && snmp(ip, table[i].1).Reply?;
      if i < n {
        assert prefix[i] == table[i];
      }
    }
  }

  const ModelOid: string := "1.3.6.1.2.1.25.3.2.1.3.1"
  const NameOid: string := "1.3.6.1.2.1.1.5.0"
  const SerialOid: string := "1.3.6.1.2.1.43.5.1.1.17.1"

  const IdentityOids: OidTable := [("model", ModelOid), ("name", NameOid), ("serial", SerialOid)]

  /** The identity record `_get_printer_info` builds for `ip`, or `None` when a query raised. */
  function PrinterInfo(snmp: Snmp, ip: string): (r: Option<map<string, string>>)
    ensures r.None? <==>
      (snmp(ip, ModelOid).Raised? || snmp(ip, NameOid).Raised? || snmp(ip, SerialOid).Raised?)
    ensures r.Some? ==> r.value.Keys <= {"ip_address", "model", "name", "serial"}
    ensures r.Some? ==> "ip_address" in r.value && r.value["ip_address"] == ip
    ensures r.Some? ==> ("serial" in r.value &&
      r.value["serial"] == (if snmp(ip, SerialOid).Reply? then snmp(ip, SerialOid).text else "UNKNOWN"))
    ensures r.Some? ==> ("model" in r.value <==> snmp(ip, ModelOid).Reply?)
    ensures r.Some? && "model" in r.value ==> r.value["model"] == snmp(ip, ModelOid).text
    ensures r.Some? ==> ("name" in r.value <==> snmp(ip, NameOid).Reply?)
    ensures r.Some? && "name" in r.value ==> r.value["name"] == snmp(ip, NameOid).text
  {
    var q := QueryAll(snmp, ip, IdentityOids, map["ip_address" := ip]);
    IdentityRaised(snmp, ip);
    match q
    case None => None
    case Some(info) =>
      IdentityRecord(snmp, ip, info);
      if "serial" !in info then Some(info["serial" := "UNKNOWN"]) else Some(info)
  }

  lemma IdentityRaised(snmp: Snmp, ip: string)
    ensures SomeRaised(snmp, ip, IdentityOids) <==>
      (snmp(ip, ModelOid).Raised? || snmp(ip, NameOid).Raised? || snmp(ip, SerialOid).Raised?)
  {
    assert IdentityOids[0].1 == ModelOid && IdentityOids[1].1 == NameOid && IdentityOids[2].1 == SerialOid;
  }

  /** What the identity queries leave in the record before the serial default. */
  lemma IdentityRecord(snmp: Snmp, ip: string, info: map<string, string>)
    requires Answers(snmp, ip, IdentityOids, info) && KeysFrom(snmp, ip, IdentityOids, map["ip_address" := ip], info)
    requires "ip_address" in info && info["ip_address"] == ip
    ensures info.Keys <= {"ip_address", "model", "name", "serial"}
    ensures "serial" in info <==> snmp(ip, SerialOid).Reply?
    ensures "serial" in info ==> info["serial"] == snmp(ip, SerialOid).text
    ensures "model" in info <==> snmp(ip, ModelOid).Reply?
    ensures "model" in info ==> info["model"] == snmp(ip, ModelOid).text
    ensures "name" in info <==> snmp(ip, NameOid).Reply?
    ensures "name" in info ==> info["name"] == snmp(ip, NameOid).text
  {
    assert IdentityOids[0] == ("model", ModelOid);
    assert IdentityOids[1] == ("name", NameOid);
    assert IdentityOids[2] == ("serial", SerialOid);
  }

  const MetricOids: OidTable := [
    ("page_count", "1.3.6.1.2.1.43.10.2.1.4.1.1"),
    ("status", "1.3.6.1.2.1.25.3.5.1.1.1"),
    ("error_state", "1.3.6.1.2.1.25.3.5.1.2.1"),
    ("black_toner", "1.3.6.1.2.1.43.11.1.1.9.1.1"),
    ("cyan_toner", "1.3.6.1.2.1.43.11.1.1.9.1.2"),
    ("magenta_toner", "1.3.6.1.2.1.43.11.1.1.9.1.3"),
    ("yellow_toner", "1.3.6.1.2.1.43.11.1.1.9.1.4")
  ]

  const TonerSuffix: string := "_toner"

  predicate IsTonerKey(key: string) {
    Text.EndsWith(key, TonerSuffix)
  }

  /**
   The colour a toner key files its level under: the key without its
   `_toner` suffix.  agent.py removes every `_toner` in the key; each metric
   key holds it once, as a suffix, so the two agree on every key of
   `MetricOids`, though not on strings such as `a_tonerb_toner`.
   */
  function Colour(key: string): string
    requires IsTonerKey(key)
  {
    key[..|key| - |TonerSuffix|]
  }

  /** Distinct toner keys have distinct colours under the suffix-stripping fold. */
  lemma ColourInjective(a: string, b: string)
    requires IsTonerKey(a) && IsTonerKey(b) && Colour(a) == Colour(b)
    ensures a == b
  {
    assert a == Colour(a) + TonerSuffix;
    assert b == Colour(b) + TonerSuffix;
  }

  /** Successful metric answers, split into top-level keys and toner levels by colour. */
  datatype Readings = Readings(top: map<string, string>, toner: map<string, string>)

  /**
   Queries every metric OID in order; a toner key's answer goes to `toner`
   under its colour, any other key's answer to `top`; an exception from any
   query abandons the sample.
   */
  function ReadMetrics(snmp: Snmp, ip: string, table: OidTable): (r: Option<Readings>)
    requires DistinctKeys(table)
    ensures r.None? <==> SomeRaised(snmp, ip, table)
    ensures r.Some? ==> ReadingsOf(snmp, ip, table, r.value)
    decreases |table|
  {
    if |table| == 0 then Some(Readings(map[], map[]))
    else
      var prefix := table[..|table| - 1];
      var (key, oid) := table[|table| - 1];
      PrefixDistinct(table);
      SomeRaisedLast(snmp, ip, table);
      match ReadMetrics(snmp, ip, prefix)
      case None => None
      case Some(rd) =>
        match snmp(ip, oid)
        case Raised => None
        case ErrorReply =>
          ReadSkips(snmp, ip, table, rd);
          Some(rd)
        case Reply(t) =>
          ReadRecords(snmp, ip, table, rd);
          Some(Record(rd, key, t))
  }

  /**
   The readings hold exactly the successful answers of `table`: a toner key's
   answer under its colour in `toner`, any other key's answer in `top`.
   */
  ghost predicate ReadingsOf(snmp: Snmp, ip: string, table: OidTable, rd: Readings) {
    Filed(snmp, ip, table, rd) && TopFrom(snmp, ip, table, rd.top) && TonerFrom(snmp, ip, table, rd.toner)
  }

  /** Every successful answer of `table` is filed where it belongs. */
  ghost predicate Filed(snmp: Snmp, ip: string, table: OidTable, rd: Readings) {
    forall i :: 0 <= i < |table| && snmp(ip, table[i].1).Reply? ==>
      if IsTonerKey(table[i].0)
      then Colour(table[i].0) in rd.toner && rd.toner[Colour(table[i].0)] == snmp(ip, table[i].1).text
      else table[i].0 in rd.top && rd.top[table[i].0] == snmp(ip, table[i].1).text
  }

  /** The keys of `top` are the non-toner keys of `table` that were answered. */
  ghost predicate TopFrom(snmp: Snmp, ip: string, table: OidTable, top: map<string, string>) {
    forall k :: k in top <==>
      exists i :: 0 <= i < |table| && table[i].0 == k && !IsTonerKey(k) && snmp(ip, table[i].1).Reply?
  }

  /** The keys of `toner` are the colours of the toner keys of `table` that were answered. */
  ghost predicate TonerFrom(snmp: Snmp, ip: string, table: OidTable, toner: map<string, string>) {
    forall c :: c in toner <==>
      exists i :: 0 <= i < |table| && IsTonerKey(table[i].0) && Colour(table[i].0) == c && snmp(ip, table[i].1).Reply?
  }

  /** Files one successful answer. */
  function Record(rd: Readings, key: string, text: string): Readings {
    if IsTonerKey(key) then rd.(toner := rd.toner[Colour(key) := text]) else rd.(top := rd.top[key := text])
  }

  lemma PrefixDistinct(table: OidTable)
    requires |table| > 0 && DistinctKeys(table)
    ensures DistinctKeys(table[..|table| - 1])
  {
  }

  lemma SomeRaisedLast(snmp: Snmp, ip: string, table: OidTable)
    requires |table| > 0
    ensures SomeRaised(snmp, ip, table) <==>
      SomeRaised(snmp, ip, table[..|table| - 1]) || snmp(ip, table[|table| - 1].1).Raised?
  {
    var prefix := table[..|table| - 1];
    if SomeRaised(snmp, ip, table) && !snmp(ip, table[|table| - 1].1).Raised? {
      var i :| 0 <= i < |table| && snmp(ip, table[i].1).Raised?;
      assert prefix[i] == table[i];
    }
    if SomeRaised(snmp, ip, prefix) {
      var i :| 0 <= i < |prefix| && snmp(ip, prefix[i].1).Raised?;
      assert prefix[i] == table[i];
    }
  }

  /** An error answer for the last key adds nothing. */
  lemma ReadSkips(snmp: Snmp, ip: string, table: OidTable, rd: Readings)
    requires |table| > 0 && snmp(ip, table[|table| - 1].1).ErrorReply?
    requires ReadingsOf(snmp, ip, table[..|table| - 1], rd)
    ensures ReadingsOf(snmp, ip, table, rd)
  {
    var n := |table| - 1;
    assert forall i :: 0 <= i < n ==> table[..n][i] == table[i];
    TopKept(snmp, ip, table, rd.top);
    TonerKept(snmp, ip, table, rd.toner);
  }

  /** A successful answer for the last key is filed, and, keys being distinct, overwrites nothing. */
  lemma ReadRecords(snmp: Snmp, ip: string, table: OidTable, rd: Readings)
    requires |table| > 0 && DistinctKeys(table) && snmp(ip, table[|table| - 1].1).Reply?
    requires ReadingsOf(snmp, ip, table[..|table| - 1], rd)
    ensures ReadingsOf(snmp, ip, table, Record(rd, table[|table| - 1].0, snmp(ip, table[|table| - 1].1).text))
  {
    var n := |table| - 1;
    var key := table[n].0;
    if IsTonerKey(key) {
      forall i | 0 <= i < n && IsTonerKey(table[i].0) ensures Colour(table[i].0) != Colour(key) {
        if Colour(table[i].0) == Colour(key) {
          ColourInjective(table[i].0, key);
        }
      }
      FiledToner(snmp, ip, table, rd);
      TopKept(snmp, ip, table, rd.top);
      TonerAdded(snmp, ip, table, rd.toner);
    } else {
      FiledTop(snmp, ip, table, rd);
      TopAdded(snmp, ip, table, rd.top);
      TonerKept(snmp, ip, table, rd.toner);
    }
  }

  lemma FiledToner(snmp: Snmp, ip: string, table: OidTable, rd: Readings)
    requires |table| > 0 && IsTonerKey(table[|table| - 1].0) && snmp(ip, table[|table| - 1].1).Reply?
    requires Filed(snmp, ip, table[..|table| - 1], rd)
    requires forall i :: 0 <= i < |table| - 1 && IsTonerKey(table[i].0) ==> Colour(table[i].0) != Colour(table[|table| - 1].0)
    ensures Filed(snmp, ip, table, Record(rd, table[|table| - 1].0, snmp(ip, table[|table| - 1].1).text))
  {
    var n := |table| - 1;
    assert forall i :: 0 <= i < n ==> table[..n][i] == table[i];
  }

  lemma FiledTop(snmp: Snmp, ip: string, table: OidTable, rd: Readings)
    requires |table| > 0 && DistinctKeys(table) && !IsTonerKey(table[|table| - 1].0)
    requires snmp(ip, table[|table| - 1].1).Reply?
    requires Filed(snmp, ip, table[..|table| - 1], rd)
    ensures Filed(snmp, ip, table, Record(rd, table[|table| - 1].0, snmp(ip, table[|table| - 1].1).text))
  {
    var n := |table| - 1;
    assert forall i :: 0 <= i < n ==> table[..n][i] == table[i];
  }

  /** The last key adds no top-level key when it is a toner key or went unanswered. */
  lemma TopKept(snmp: Snmp, ip: string, table: OidTable, top: map<string, string>)
    requires |table| > 0 && (IsTonerKey(table[|table| - 1].0) || !snmp(ip, table[|table| - 1].1).Reply?)
    requires TopFrom(snmp, ip, table[..|table| - 1], top)
    ensures TopFrom(snmp, ip, table, top)
  {
    var n := |table| - 1;
    var prefix := table[..n];
    forall k | k in top
      ensures exists i :: 0 <= i < |table| && table[i].0 == k && !IsTonerKey(k) && snmp(ip, table[i].1).Reply?
    {
      var i :| 0 <= i < n && prefix[i].0 == k && !IsTonerKey(k) && snmp(ip, prefix[i].1).Reply?;
      assert table[i] == prefix[i];
    }
    forall k | exists i :: 0 <= i < |table| && table[i].0 == k && !IsTonerKey(k) && snmp(ip, table[i].1).Reply?
      ensures k in top
    {
      var i :| 0 <= i < |table| && table[i].0 == k && !IsTonerKey(k) && snmp(ip, table[i].1).Reply?;
      assert prefix[i] == table[i];
    }
  }

  /** An answered non-toner last key adds exactly its own key. */
  lemma TopAdded(snmp: Snmp, ip: string, table: OidTable, top: map<string, string>)
    requires |table| > 0 && !IsTonerKey(table[|table| - 1].0) && snmp(ip, table[|table| - 1].1).Reply?
    requires TopFrom(snmp, ip, table[..|table| - 1], top)
    ensures TopFrom(snmp, ip, table, top[table[|table| - 1].0 := snmp(ip, table[|table| - 1].1).text])
  {
    var n := |table| - 1;
    var prefix := table[..n];
    var top' := top[table[n].0 := snmp(ip, table[n].1).text];
    forall k | k in top'
      ensures exists i :: 0 <= i < |table| && table[i].0 == k && !IsTonerKey(k) && snmp(ip, table[i].1).Reply?
    {
      if k != table[n].0 {
        var i :| 0 <= i < n && prefix[i].0 == k && !IsTonerKey(k) && snmp(ip, prefix[i].1).Reply?;
        assert table[i] == prefix[i];
      }
    }
    forall k | exists i :: 0 <= i < |table| && table[i].0 == k && !IsTonerKey(k) && snmp(ip, table[i].1).Reply?
      ensures k in top'
    {
      var i :| 0 <= i < |table| && table[i].0 == k && !IsTonerKey(k) && snmp(ip, table[i].1).Reply?;
      if i < n {
        assert prefix[i] == table[i];
      }
    }
  }

  /** The last key adds no colour when it is not a toner key or went unanswered. */
  lemma TonerKept(snmp: Snmp, ip: string, table: OidTable, toner: map<string, string>)
    requires |table| > 0 && (!IsTonerKey(table[|table| - 1].0) || !snmp(ip, table[|table| - 1].1).Reply?)
    requires TonerFrom(snmp, ip, table[..|table| - 1], toner)
    ensures TonerFrom(snmp, ip, table, toner)
  {
    var n := |table| - 1;
    var prefix := table[..n];
    forall c | c in toner
      ensures exists i :: 0 <= i < |table| && IsTonerKey(table[i].0) && Colour(table[i].0) == c && snmp(ip, table[i].1).Reply?
    {
      var i :| 0 <= i < n && IsTonerKey(prefix[i].0) && Colour(prefix[i].0) == c && snmp(ip, prefix[i].1).Reply?;
      assert table[i] == prefix[i];
    }
    forall c | exists i :: 0 <= i < |table| && IsTonerKey(table[i].0) && Colour(table[i].0) == c && snmp(ip, table[i].1).Reply?
      ensures c in toner
    {
      var i :| 0 <= i < |table| && IsTonerKey(table[i].0) && Colour(table[i].0) == c && snmp(ip, table[i].1).Reply?;
      assert prefix[i] == table[i];
    }
  }

  /** An answered toner last key adds exactly its colour. */
  lemma TonerAdded(snmp: Snmp, ip: string, table: OidTable, toner: map<string, string>)
    requires |table| > 0 && IsTonerKey(table[|table| - 1].0) && snmp(ip, table[|table| - 1].1).Reply?
    requires TonerFrom(snmp, ip, table[..|table| - 1], toner)
    ensures TonerFrom(snmp, ip, table, toner[Colour(table[|table| - 1].0) := snmp(ip, table[|table| - 1].1).text])
  {
    var n := |table| - 1;
    var prefix := table[..n];
    var toner' := toner[Colour(table[n].0) := snmp(ip, table[n].1).text];
    forall c | c in toner'
      ensures exists i :: 0 <= i < |table| && IsTonerKey(table[i].0) && Colour(table[i].0) == c && snmp(ip, table[i].1).Reply?
    {
      if c != Colour(table[n].0) {
        var i :| 0 <= i < n && IsTonerKey(prefix[i].0) && Colour(prefix[i].0) == c && snmp(ip, prefix[i].1).Reply?;
        assert table[i] == prefix[i];
      }
    }
    forall c | exists i :: 0 <= i < |table| && IsTonerKey(table[i].0) && Colour(table[i].0) == c && snmp(ip, table[i].1).Reply?
      ensures c in toner'
    {
      var i :| 0 <= i < |table| && IsTonerKey(table[i].0) && Colour(table[i].0) == c && snmp(ip, table[i].1).Reply?;
      if i < n {
        assert prefix[i] == table[i];
      }
    }
  }

  /** No metric key collides with the keys the sample sets itself. */
  lemma MetricKeysReserved()
    ensures DistinctKeys(MetricOids)
    ensures forall i :: 0 <= i < |MetricOids| ==>
      MetricOids[i].0 !in {"timestamp", "toner_levels", "raw_data"}
  {
  }

  /** The keys of a sample: the three it sets itself and the answered non-toner keys of the metric table. */
  ghost predicate SampleKeysExact(snmp: Snmp, ip: string, m: map<string, Value>) {
    forall k :: k in m <==>
      (|| k == "timestamp" || k == "toner_levels" || k == "raw_data"
       || exists i :: 0 <= i < |MetricOids| && MetricOids[i].0 == k && !IsTonerKey(k) && snmp(ip, MetricOids[i].1).Reply?)
  }

  /** The colours of the toner levels: those of the answered toner keys of the metric table. */
  ghost predicate TonerColoursExact(snmp: Snmp, ip: string, levels: map<string, Value>) {
    forall c :: c in levels <==>
      exists i :: 0 <= i < |MetricOids| && IsTonerKey(MetricOids[i].0) && Colour(MetricOids[i].0) == c
        && snmp(ip, MetricOids[i].1).Reply?
  }

  /**
   The sample `_get_printer_metrics` builds: `timestamp`, the toner levels as
   the JSON text of a colour-keyed dict, the other successful answers at top
   level, and `raw_data` holding the JSON text of all of that.
   */
  function GetMetrics(snmp: Snmp, ip: string, now: string): (r: Option<map<string, Value>>)
    ensures r.None? <==> SomeRaised(snmp, ip, MetricOids)
    ensures r.Some? ==> "timestamp" in r.value && r.value["timestamp"] == Str(now)
    ensures r.Some? ==> ("toner_levels" in r.value && r.value["toner_levels"].JsonText?
      && r.value["toner_levels"].encoded.Dict?)
    ensures r.Some? ==> "raw_data" in r.value && r.value["raw_data"] == JsonText(Dict(r.value - {"raw_data"}))
    ensures r.Some? ==> SampleKeysExact(snmp, ip, r.value)
    ensures r.Some? ==> forall k :: k in r.value && k != "toner_levels" && k != "raw_data" ==> r.value[k].Str?
    ensures r.Some? ==> forall i :: 0 <= i < |MetricOids| && snmp(ip, MetricOids[i].1).Reply? ==>
      var (key, text) := (MetricOids[i].0, snmp(ip, MetricOids[i].1).text);
      if IsTonerKey(key)
      then key !in r.value
        && Colour(key) in r.value["toner_levels"].encoded.fields
        && r.value["toner_levels"].encoded.fields[Colour(key)] == Str(text)
      else key in r.value && r.value[key] == Str(text)
    ensures r.Some? ==> TonerColoursExact(snmp, ip, r.value["toner_levels"].encoded.fields)
    ensures r.Some? ==> forall i :: 0 <= i < |MetricOids| && !snmp(ip, MetricOids[i].1).Reply? ==>
      && MetricOids[i].0 !in r.value
      && (IsTonerKey(MetricOids[i].0) ==> Colour(MetricOids[i].0) !in r.value["toner_levels"].encoded.fields)
  {
    MetricKeysReserved();
    match ReadMetrics(snmp, ip, MetricOids)
    case None => None
    case Some(rd) =>
      SampleOfReadings(snmp, ip, now, rd);
      SampleShape(snmp, ip, now, rd);
      FailedTonerAbsent(snmp, ip, StrMap(rd.toner));
      Some(SampleOf(rd, now))
  }

  /** The sample's keys, string values and `raw_data` follow from the readings. */
  lemma SampleShape(snmp: Snmp, ip: string, now: string, rd: Readings)
    requires ReadingsOf(snmp, ip, MetricOids, rd)
    ensures var m := SampleOf(rd, now);
      && SampleKeysExact(snmp, ip, m)
      && (forall k :: k in m && k != "toner_levels" && k != "raw_data" ==> m[k].Str?)
      && "raw_data" in m && m["raw_data"] == JsonText(Dict(m - {"raw_data"}))
      && TonerColoursExact(snmp, ip, StrMap(rd.toner))
  {
    SampleKeysOf(snmp, ip, now, rd);
    RawDataOf(snmp, ip, now, rd);
    assert StrMap(rd.toner).Keys == rd.toner.Keys;
  }

  lemma SampleKeysOf(snmp: Snmp, ip: string, now: string, rd: Readings)
    requires TopFrom(snmp, ip, MetricOids, rd.top)
    ensures SampleKeysExact(snmp, ip, SampleOf(rd, now))
  {
    var m := SampleOf(rd, now);
    assert m.Keys == rd.top.Keys + {"timestamp", "toner_levels", "raw_data"};
  }

  lemma RawDataOf(snmp: Snmp, ip: string, now: string, rd: Readings)
    requires TopFrom(snmp, ip, MetricOids, rd.top)
    ensures var m := SampleOf(rd, now);
      && (forall k :: k in m && k != "toner_levels" && k != "raw_data" ==> m[k].Str?)
      && "raw_data" in m && m["raw_data"] == JsonText(Dict(m - {"raw_data"}))
  {
    MetricKeysReserved();
    var base := StrMap(rd.top)["timestamp" := Str(now)]["toner_levels" := JsonText(Dict(StrMap(rd.toner)))];
    assert "raw_data" !in rd.top;
    assert SampleOf(rd, now) - {"raw_data"} == base;
  }

  /** A toner query that failed leaves its colour out of the levels: no other toner key shares the colour. */
  lemma FailedTonerAbsent(snmp: Snmp, ip: string, levels: map<string, Value>)
    requires TonerColoursExact(snmp, ip, levels)
    ensures forall i :: 0 <= i < |MetricOids| && !snmp(ip, MetricOids[i].1).Reply? && IsTonerKey(MetricOids[i].0) ==>
      Colour(MetricOids[i].0) !in levels
  {
    MetricKeysReserved();
    forall i | 0 <= i < |MetricOids| && !snmp(ip, MetricOids[i].1).Reply? && IsTonerKey(MetricOids[i].0)
      ensures Colour(MetricOids[i].0) !in levels
    {
      if Colour(MetricOids[i].0) in levels {
        var j :| 0 <= j < |MetricOids| && IsTonerKey(MetricOids[j].0) && Colour(MetricOids[j].0) == Colour(MetricOids[i].0)
          && snmp(ip, MetricOids[j].1).Reply?;
        ColourInjective(MetricOids[i].0, MetricOids[j].0);
        assert false;
      }
    }
  }

  /** The metrics dict built from the readings at time `now`. */
  function SampleOf(rd: Readings, now: string): map<string, Value> {
    var base := StrMap(rd.top)["timestamp" := Str(now)]["toner_levels" := JsonText(Dict(StrMap(rd.toner)))];
    base["raw_data" := JsonText(Dict(base))]
  }

  lemma SampleOfReadings(snmp: Snmp, ip: string, now: string, rd: Readings)
    requires ReadingsOf(snmp, ip, MetricOids, rd)
    ensures var m := SampleOf(rd, now);
      && "timestamp" in m && m["timestamp"] == Str(now)
      && "toner_levels" in m && m["toner_levels"] == JsonText(Dict(StrMap(rd.toner)))
      && (forall i :: 0 <= i < |MetricOids| && snmp(ip, MetricOids[i].1).Reply? ==>
            var (key, text) := (MetricOids[i].0, snmp(ip, MetricOids[i].1).text);
            if IsTonerKey(key)
            then key !in m && Colour(key) in StrMap(rd.toner) && StrMap(rd.toner)[Colour(key)] == Str(text)
            else key in m && m[key] == Str(text))
      && (forall i :: 0 <= i < |MetricOids| && !snmp(ip, MetricOids[i].1).Reply? ==> MetricOids[i].0 !in m)
  {
    MetricKeysReserved();
    SampleKeys(snmp, ip, MetricOids, now, rd);
  }

  /** A key the sample sets itself is never a table key; a table key is in the sample iff it is top-level and answered. */
  lemma SampleKeys(snmp: Snmp, ip: string, table: OidTable, now: string, rd: Readings)
    requires DistinctKeys(table) && ReadingsOf(snmp, ip, table, rd)
    requires forall i :: 0 <= i < |table| ==> table[i].0 !in {"timestamp", "toner_levels", "raw_data"}
    ensures var m := SampleOf(rd, now);
      && (forall i :: 0 <= i < |table| && snmp(ip, table[i].1).Reply? ==>
            var (key, text) := (table[i].0, snmp(ip, table[i].1).text);
            if IsTonerKey(key)
            then key !in m && Colour(key) in StrMap(rd.toner) && StrMap(rd.toner)[Colour(key)] == Str(text)
            else key in m && m[key] == Str(text))
      && (forall i :: 0 <= i < |table| && !snmp(ip, table[i].1).Reply? ==> table[i].0 !in m)
  {
    var m := SampleOf(rd, now);
    forall i | 0 <= i < |table| && !snmp(ip, table[i].1).Reply? ensures table[i].0 !in m {
      assert table[i].0 !in rd.top;
    }
  }

}
