/**
 `discover_printers` (agent.py and Agent/data_collector.py): walk the
 configured subnets in order and, within each, its hosts in order; every host
 the classifier accepts and that yields an identity record is saved and
 reported.  A subnet `ipaddress.ip_network` rejects is skipped.
 */
module Discovery {
  import opened Wrappers
  import Probe
  import Store

  /** The host enumeration: `ip_network(subnet).hosts()` rendered with `str`, or `None` when parsing raises. */
  type Hosts = string -> Option<seq<string>>

  /** The identity record a host contributes to discovery, if any. */
  function Found(snmp: Probe.Snmp, ip: string): Option<map<string, string>> {
    if Probe.CheckDevice(snmp, ip) then Probe.PrinterInfo(snmp, ip) else None
  }

  /** What probing one host yields; discovery itself uses `ip => Found(snmp, ip)`. */
  type HostProbe = string -> Option<map<string, string>>

  ghost predicate HasRow(rows: seq<Store.PrinterRow>, ip: string) {
    exists k :: 0 <= k < |rows| && rows[k].ip == ip
  }

  /** Some record of `infos` is for `ip`. */
  ghost predicate Mentions(infos: seq<map<string, string>>, ip: string) {
    exists j :: 0 <= j < |infos| && "ip_address" in infos[j] && infos[j]["ip_address"] == ip
  }

  /** What a discovery pass returns and the database it leaves behind. */
  datatype Scan = Scan(found: seq<map<string, string>>, store: Store.Store)

  /** The store effects every scan step keeps: validity, rows for reported hosts, other rows untouched. */
  ghost predicate StoreEffect(st: Store.Store, r: Scan) {
    && (Store.Valid(st) ==> Store.Valid(r.store))
    && r.store.metrics == st.metrics && r.store.queue == st.queue
    && |r.store.printers| >= |st.printers|
    && (forall j :: 0 <= j < |r.found| ==> "ip_address" in r.found[j] && HasRow(r.store.printers, r.found[j]["ip_address"]))
    && (forall k :: 0 <= k < |st.printers| && !Mentions(r.found, st.printers[k].ip) ==>
          r.store.printers[k] == st.printers[k])
  }

  /** Every record the probe yields is for the host probed. */
  ghost predicate Tagged(probe: HostProbe) {
    forall ip :: probe(ip).Some? ==> "ip_address" in probe(ip).value && probe(ip).value["ip_address"] == ip
  }

  /** The probe discovery runs: the classifier, then the identity record. */
  function SnmpProbe(snmp: Probe.Snmp): HostProbe {
    ip => Found(snmp, ip)
  }

  lemma FoundTagged(snmp: Probe.Snmp)
    ensures Tagged(SnmpProbe(snmp))
  {
  }

  /** After a save, the saved host has a row and rows for hosts already reported keep one. */
  lemma SaveKeepsRows(rows: seq<map<string, string>>, st: Store.Store, info: map<string, string>, now: string)
    requires "ip_address" in info
    requires forall j :: 0 <= j < |rows| ==> "ip_address" in rows[j] && HasRow(st.printers, rows[j]["ip_address"])
    ensures var st' := Store.SavePrinter(st, info, now).0;
      forall j :: 0 <= j < |rows + [info]| ==> "ip_address" in (rows + [info])[j] && HasRow(st'.printers, (rows + [info])[j]["ip_address"])
  {
    var ip := info["ip_address"];
    var st' := Store.SavePrinter(st, info, now).0;
    assert HasRow(st'.printers, ip) by {
      var k := Store.IndexOf(st'.printers, ip).value;
      assert st'.printers[k].ip == ip;
    }
    forall j | 0 <= j < |rows| ensures HasRow(st'.printers, rows[j]["ip_address"]) {
      var other := rows[j]["ip_address"];
      if other != ip {
        var k :| 0 <= k < |st.printers| && st.printers[k].ip == other;
        assert st'.printers[k] == st.printers[k];
      }
    }
    forall j | 0 <= j < |rows + [info]| ensures "ip_address" in (rows + [info])[j] && HasRow(st'.printers, (rows + [info])[j]["ip_address"]) {
      if j < |rows| {
        assert (rows + [info])[j] == rows[j];
      } else {
        assert (rows + [info])[j] == info;
      }
    }
  }

  /** A save touches only the row of the host it saves. */
  lemma SaveKeepsOthers(st0: Store.Store, rows: seq<map<string, string>>, st: Store.Store, info: map<string, string>, now: string)
    requires "ip_address" in info && |st.printers| >= |st0.printers|
    requires forall k :: 0 <= k < |st0.printers| && !Mentions(rows, st0.printers[k].ip) ==> st.printers[k] == st0.printers[k]
    ensures var st' := Store.SavePrinter(st, info, now).0;
      forall k :: 0 <= k < |st0.printers| && !Mentions(rows + [info], st0.printers[k].ip) ==> st'.printers[k] == st0.printers[k]
  {
    var st' := Store.SavePrinter(st, info, now).0;
    var found' := rows + [info];
    forall k | 0 <= k < |st0.printers| && !Mentions(found', st0.printers[k].ip)
      ensures st'.printers[k] == st0.printers[k]
    {
      forall j | 0 <= j < |rows| ensures found'[j] == rows[j] { }
      assert found'[|rows|] == info;
      assert !Mentions(rows, st0.printers[k].ip);
      assert st.printers[k].ip != info["ip_address"];
    }
  }

  /** Saving one more record keeps the store effects of the scan so far. */
  lemma SaveStep(st: Store.Store, r: Scan, info: map<string, string>, now: string)
    requires StoreEffect(st, r) && "ip_address" in info
    ensures StoreEffect(st, Scan(r.found + [info], Store.SavePrinter(r.store, info, now).0))
  {
    SaveKeepsRows(r.found, r.store, info, now);
    SaveKeepsOthers(st, r.found, r.store, info, now);
  }

  /** Probes one host: a host that yields a record is saved and reported. */
  function HostStep(probe: HostProbe, r: Scan, ip: string, now: string): Scan {
    match probe(ip)
    case None => r
    case Some(info) => Scan(r.found + [info], Store.SavePrinter(r.store, info, now).0)
  }

  /** Scans `ips` in order, saving and reporting every host that yields a record. */
  function ScanHosts(probe: HostProbe, ips: seq<string>, st: Store.Store, now: string): Scan
    decreases |ips|
  {
    if |ips| == 0 then Scan([], st)
    else HostStep(probe, ScanHosts(probe, ips[..|ips| - 1], st, now), ips[|ips| - 1], now)
  }

  /** `found` holds exactly the records the hosts of `ips` yield. */
  ghost predicate FoundExactly(probe: HostProbe, ips: seq<string>, found: seq<map<string, string>>) {
    forall info :: info in found <==> exists j :: 0 <= j < |ips| && probe(ips[j]) == Some(info)
  }

  lemma FoundExtend(probe: HostProbe, ips: seq<string>, found: seq<map<string, string>>)
    requires |ips| > 0 && FoundExactly(probe, ips[..|ips| - 1], found)
    ensures FoundExactly(probe, ips, found + (if probe(ips[|ips| - 1]).Some? then [probe(ips[|ips| - 1]).value] else []))
  {
    var prefix := ips[..|ips| - 1];
    assert forall j :: 0 <= j < |prefix| ==> prefix[j] == ips[j];
  }

  /** The records reported for `ips` are exactly those of the hosts that yield one. */
  lemma {:induction false} ScanHostsFound(probe: HostProbe, ips: seq<string>, st: Store.Store, now: string)
    ensures FoundExactly(probe, ips, ScanHosts(probe, ips, st, now).found)
    decreases |ips|
  {
    if |ips| > 0 {
      var prefix := ips[..|ips| - 1];
      ScanHostsFound(probe, prefix, st, now);
      var r := ScanHosts(probe, prefix, st, now);
      assert HostStep(probe, r, ips[|ips| - 1], now).found
          == r.found + (if probe(ips[|ips| - 1]).Some? then [probe(ips[|ips| - 1]).value] else []);
      FoundExtend(probe, ips, r.found);
    }
  }

  /** The record one host contributes: its probe's record, or nothing. */
  function YieldOf(probe: HostProbe, ip: string): seq<map<string, string>> {
    if probe(ip).Some? then [probe(ip).value] else []
  }

  /**
   A reference for what scanning `ips` reports, read front to back: the
   first host's record, if any, followed by what the remaining hosts yield.
   */
  function Yielded(probe: HostProbe, ips: seq<string>): seq<map<string, string>>
    decreases |ips|
  {
    if |ips| == 0 then [] else YieldOf(probe, ips[0]) + Yielded(probe, ips[1..])
  }

  lemma {:induction false} YieldedAppend(probe: HostProbe, a: seq<string>, b: seq<string>)
    ensures Yielded(probe, a + b) == Yielded(probe, a) + Yielded(probe, b)
    decreases |a|
  {
    if |a| > 0 {
      assert (a + b)[0] == a[0];
      assert (a + b)[1..] == a[1..] + b;
      YieldedAppend(probe, a[1..], b);
    } else {
      assert a + b == b;
    }
  }

  /** Scanning `ips` reports the hosts' records in the order the hosts were enumerated. */
  lemma {:induction false} ScanHostsYields(probe: HostProbe, ips: seq<string>, st: Store.Store, now: string)
    ensures ScanHosts(probe, ips, st, now).found == Yielded(probe, ips)
    decreases |ips|
  {
    if |ips| > 0 {
      var k := |ips| - 1;
      ScanHostsYields(probe, ips[..k], st, now);
      YieldedAppend(probe, ips[..k], [ips[k]]);
      assert ips[..k] + [ips[k]] == ips;
      assert Yielded(probe, [ips[k]]) == YieldOf(probe, ips[k]) + Yielded(probe, []);
    }
  }

  lemma {:induction false} ScanHostsEffect(probe: HostProbe, ips: seq<string>, st: Store.Store, now: string)
    requires Tagged(probe)
    ensures StoreEffect(st, ScanHosts(probe, ips, st, now))
    decreases |ips|
  {
    if |ips| > 0 {
      var r := ScanHosts(probe, ips[..|ips| - 1], st, now);
      ScanHostsEffect(probe, ips[..|ips| - 1], st, now);
      assert ScanHosts(probe, ips, st, now) == HostStep(probe, r, ips[|ips| - 1], now);
      match probe(ips[|ips| - 1])
      case None =>
      case Some(info) =>
        assert "ip_address" in info;
        SaveStep(st, r, info, now);
    }
  }

  /** `discover_printers` over the configured subnets, with the SNMP oracle. */
  function Discover(snmp: Probe.Snmp, hosts: Hosts, subnets: seq<string>, st: Store.Store, now: string): Scan {
    ScanSubnets(SnmpProbe(snmp), hosts, subnets, st, now)
  }

  /**
   Discovery reports exactly the identity records of the hosts, in subnets
   that parse, that the classifier accepts, in subnet order and within a
   subnet in host order; each reported host then has a row, rows of
   unreported hosts are untouched and the table constraints hold.
   */
  lemma DiscoverSound(snmp: Probe.Snmp, hosts: Hosts, subnets: seq<string>, st: Store.Store, now: string)
    ensures var r := Discover(snmp, hosts, subnets, st, now);
      && (forall info :: info in r.found <==> FoundInSubnets(SnmpProbe(snmp), hosts, subnets, info))
      && r.found == YieldedInSubnets(SnmpProbe(snmp), hosts, subnets)
      && StoreEffect(st, r)
  {
    FoundTagged(snmp);
    ScanSubnetsYields(SnmpProbe(snmp), hosts, subnets, st, now);
    ScanSubnetsFound(SnmpProbe(snmp), hosts, subnets, st, now);
    ScanSubnetsEffect(SnmpProbe(snmp), hosts, subnets, st, now);
  }

  /** Scans every subnet in order; a subnet whose hosts cannot be enumerated contributes nothing. */
  function ScanSubnets(probe: HostProbe, hosts: Hosts, subnets: seq<string>, st: Store.Store, now: string): Scan
    decreases |subnets|
  {
    if |subnets| == 0 then Scan([], st)
    else SubnetStep(probe, hosts, ScanSubnets(probe, hosts, subnets[..|subnets| - 1], st, now), subnets[|subnets| - 1], now)
  }

  /** Scans one subnet after the scan `r`: its hosts' records follow `r`'s, over `r`'s database. */
  function SubnetStep(probe: HostProbe, hosts: Hosts, r: Scan, subnet: string, now: string): Scan {
    match hosts(subnet)
    case None => r
    case Some(ips) =>
      var h := ScanHosts(probe, ips, r.store, now);
      Scan(r.found + h.found, h.store)
  }

  /** A subnet step after a scan whose records start with `pre` reports `pre` and then what it would have reported. */
  lemma SubnetStepPrefix(probe: HostProbe, hosts: Hosts, pre: seq<map<string, string>>, r: Scan, subnet: string, now: string)
    ensures SubnetStep(probe, hosts, Scan(pre + r.found, r.store), subnet, now)
         == Scan(pre + SubnetStep(probe, hosts, r, subnet, now).found, SubnetStep(probe, hosts, r, subnet, now).store)
  {
    match hosts(subnet)
    case None =>
    case Some(ips) =>
      var h := ScanHosts(probe, ips, r.store, now);
      assert pre + r.found + h.found == pre + (r.found + h.found);
  }

  /** A host of subnet `subnets[i]` reports `info`. */
  ghost predicate FoundInSubnets(probe: HostProbe, hosts: Hosts, subnets: seq<string>, info: map<string, string>) {
    exists i, j :: 0 <= i < |subnets| && hosts(subnets[i]).Some? && 0 <= j < |hosts(subnets[i]).value|
      && probe(hosts(subnets[i]).value[j]) == Some(info)
  }

  /**
   Discovery reports exactly the records of hosts, in subnets that parse, that
   pass the classifier and yield an identity record.
   */
  lemma {:induction false} ScanSubnetsFound(probe: HostProbe, hosts: Hosts, subnets: seq<string>, st: Store.Store, now: string)
    ensures var r := ScanSubnets(probe, hosts, subnets, st, now);
      forall info :: info in r.found <==> FoundInSubnets(probe, hosts, subnets, info)
    decreases |subnets|
  {
    if |subnets| > 0 {
      var prefix := subnets[..|subnets| - 1];
      var subnet := subnets[|subnets| - 1];
      assert forall i :: 0 <= i < |prefix| ==> prefix[i] == subnets[i];
      ScanSubnetsFound(probe, hosts, prefix, st, now);
      var r := ScanSubnets(probe, hosts, prefix, st, now);
      forall info ensures FoundInSubnets(probe, hosts, subnets, info) <==>
        (FoundInSubnets(probe, hosts, prefix, info) ||
         (hosts(subnet).Some? && exists j :: 0 <= j < |hosts(subnet).value| && probe(hosts(subnet).value[j]) == Some(info)))
      {
        if FoundInSubnets(probe, hosts, subnets, info) {
          var i, j :| 0 <= i < |subnets| && hosts(subnets[i]).Some? && 0 <= j < |hosts(subnets[i]).value|
            && probe(hosts(subnets[i]).value[j]) == Some(info);
          if i < |prefix| {
            assert prefix[i] == subnets[i];
          }
        }
        if FoundInSubnets(probe, hosts, prefix, info) {
          var i, j :| 0 <= i < |prefix| && hosts(prefix[i]).Some? && 0 <= j < |hosts(prefix[i]).value|
            && probe(hosts(prefix[i]).value[j]) == Some(info);
          assert prefix[i] == subnets[i];
        }
        if hosts(subnet).Some? && exists j :: 0 <= j < |hosts(subnet).value| && probe(hosts(subnet).value[j]) == Some(info) {
          assert subnets[|subnets| - 1] == subnet;
        }
      }
      match hosts(subnet)
      case None =>
      case Some(ips) =>
        ScanHostsFound(probe, ips, r.store, now);
    }
  }

  lemma {:induction false} ScanSubnetsEffect(probe: HostProbe, hosts: Hosts, subnets: seq<string>, st: Store.Store, now: string)
    requires Tagged(probe)
    ensures StoreEffect(st, ScanSubnets(probe, hosts, subnets, st, now))
    decreases |subnets|
  {
    if |subnets| > 0 {
      var prefix := subnets[..|subnets| - 1];
      ScanSubnetsEffect(probe, hosts, prefix, st, now);
      var r := ScanSubnets(probe, hosts, prefix, st, now);
      match hosts(subnets[|subnets| - 1])
      case None =>
      case Some(ips) =>
        ScanHostsEffect(probe, ips, r.store, now);
        ConcatEffect(st, r, ScanHosts(probe, ips, r.store, now));
    }
  }

  /**
   Scanning `a + b` reports `a`'s records, then `b`'s: results come in subnet
   order, and a subnet that fails to parse stops nothing after it.
   */
  lemma {:induction false} ScanSubnetsAppend(probe: HostProbe, hosts: Hosts, a: seq<string>, b: seq<string>, st: Store.Store, now: string)
    ensures var ra := ScanSubnets(probe, hosts, a, st, now);
      ScanSubnets(probe, hosts, a + b, st, now) == Scan(ra.found + ScanSubnets(probe, hosts, b, ra.store, now).found,
                                                       ScanSubnets(probe, hosts, b, ra.store, now).store)
    decreases |b|
  {
    var ra := ScanSubnets(probe, hosts, a, st, now);
    if |b| == 0 {
      assert a + b == a;
      assert ra.found + [] == ra.found;
    } else {
      var b' := b[..|b| - 1];
      assert (a + b)[..|a + b| - 1] == a + b';
      assert (a + b)[|a + b| - 1] == b[|b| - 1];
      ScanSubnetsAppend(probe, hosts, a, b', st, now);
      SubnetStepPrefix(probe, hosts, ra.found, ScanSubnets(probe, hosts, b', ra.store, now), b[|b| - 1], now);
    }
  }

  /** What one subnet contributes: nothing when it does not parse, else its hosts' records in order. */
  function SubnetYield(probe: HostProbe, hosts: Hosts, subnet: string): seq<map<string, string>> {
    match hosts(subnet)
    case None => []
    case Some(ips) => Yielded(probe, ips)
  }

  /** A reference for what discovery reports, read front to back over the subnets. */
  function YieldedInSubnets(probe: HostProbe, hosts: Hosts, subnets: seq<string>): seq<map<string, string>>
    decreases |subnets|
  {
    if |subnets| == 0 then [] else SubnetYield(probe, hosts, subnets[0]) + YieldedInSubnets(probe, hosts, subnets[1..])
  }

  lemma {:induction false} YieldedInSubnetsAppend(probe: HostProbe, hosts: Hosts, a: seq<string>, b: seq<string>)
    ensures YieldedInSubnets(probe, hosts, a + b) == YieldedInSubnets(probe, hosts, a) + YieldedInSubnets(probe, hosts, b)
    decreases |a|
  {
    if |a| > 0 {
      assert (a + b)[0] == a[0];
      assert (a + b)[1..] == a[1..] + b;
      YieldedInSubnetsAppend(probe, hosts, a[1..], b);
    } else {
      assert a + b == b;
    }
  }

  /** Scanning the subnets reports each subnet's records in turn, each in host order. */
  lemma {:induction false} ScanSubnetsYields(probe: HostProbe, hosts: Hosts, subnets: seq<string>, st: Store.Store, now: string)
    ensures ScanSubnets(probe, hosts, subnets, st, now).found == YieldedInSubnets(probe, hosts, subnets)
    decreases |subnets|
  {
    if |subnets| > 0 {
      var k := |subnets| - 1;
      ScanSubnetsYields(probe, hosts, subnets[..k], st, now);
      YieldedInSubnetsAppend(probe, hosts, subnets[..k], [subnets[k]]);
      assert subnets[..k] + [subnets[k]] == subnets;
      assert YieldedInSubnets(probe, hosts, [subnets[k]]) == SubnetYield(probe, hosts, subnets[k]) + YieldedInSubnets(probe, hosts, []);
      match hosts(subnets[k])
      case None =>
      case Some(ips) =>
        ScanHostsYields(probe, ips, ScanSubnets(probe, hosts, subnets[..k], st, now).store, now);
    }
  }

  /** An unparsable subnet leaves the scan exactly as if it were not configured. */
  lemma SkipUnparsable(probe: HostProbe, hosts: Hosts, a: seq<string>, bad: string, b: seq<string>, st: Store.Store, now: string)
    requires hosts(bad).None?
    ensures ScanSubnets(probe, hosts, a + [bad] + b, st, now) == ScanSubnets(probe, hosts, a + b, st, now)
  {
    ScanSubnetsAppend(probe, hosts, a + [bad], b, st, now);
    ScanSubnetsAppend(probe, hosts, a, b, st, now);
    assert (a + [bad])[..|a + [bad]| - 1] == a;
  }

  /** The store effects of two consecutive scans compose. */
  lemma ConcatEffect(st: Store.Store, r: Scan, h: Scan)
    requires StoreEffect(st, r) && StoreEffect(r.store, h)
    ensures StoreEffect(st, Scan(r.found + h.found, h.store))
  {
    ConcatRows(r, h);
    ConcatOthers(st, r, h);
  }

  lemma ConcatRows(r: Scan, h: Scan)
    requires forall j :: 0 <= j < |r.found| ==> "ip_address" in r.found[j] && HasRow(r.store.printers, r.found[j]["ip_address"])
    requires StoreEffect(r.store, h)
    ensures forall j :: 0 <= j < |r.found| ==> HasRow(h.store.printers, r.found[j]["ip_address"])
  {
    forall j | 0 <= j < |r.found| ensures HasRow(h.store.printers, r.found[j]["ip_address"]) {
      var ip := r.found[j]["ip_address"];
      var k :| 0 <= k < |r.store.printers| && r.store.printers[k].ip == ip;
      if !Mentions(h.found, ip) {
        assert h.store.printers[k] == r.store.printers[k];
      } else {
        var j' :| 0 <= j' < |h.found| && "ip_address" in h.found[j'] && h.found[j']["ip_address"] == ip;
      }
    }
  }

  lemma ConcatOthers(st: Store.Store, r: Scan, h: Scan)
    requires |h.store.printers| >= |r.store.printers| >= |st.printers|
    requires forall k :: 0 <= k < |st.printers| && !Mentions(r.found, st.printers[k].ip) ==> r.store.printers[k] == st.printers[k]
    requires forall k :: 0 <= k < |r.store.printers| && !Mentions(h.found, r.store.printers[k].ip) ==>
      h.store.printers[k] == r.store.printers[k]
    ensures forall k :: 0 <= k < |st.printers| && !Mentions(r.found + h.found, st.printers[k].ip) ==>
      h.store.printers[k] == st.printers[k]
  {
    var found := r.found + h.found;
    forall k | 0 <= k < |st.printers| && !Mentions(found, st.printers[k].ip)
      ensures h.store.printers[k] == st.printers[k]
    {
      forall j | 0 <= j < |r.found| ensures found[j] == r.found[j] { }
      forall j | 0 <= j < |h.found| ensures found[|r.found| + j] == h.found[j] { }
    }
  }
}
