/**
 The metrics pass both programs run (`collect_metrics` in agent.py and
 Agent/data_collector.py): every row of a snapshot of the `printers` table
 is polled in table order, and the printers whose poll produced a sample are
 the ones whose metrics get stored.
 */
module Sampling {
  import opened Wrappers
  import opened Payload
  import Probe
  import Store

  /** A printer that answered the poll, and the sample `_get_printer_metrics` built for it. */
  datatype Sample = Sample(row: Store.PrinterRow, metrics: map<string, Value>)

  /** A metrics poll: the sample for a printer address at a given time, or `None` when the poll raised. */
  type Poll = (string, string) -> Option<map<string, Value>>

  /** `_get_printer_metrics` over the SNMP oracle. */
  function SnmpPoll(snmp: Probe.Snmp): Poll {
    (ip, now) => Probe.GetMetrics(snmp, ip, now)
  }

  /**
   A sample carrying the time it was taken and its toner levels as JSON text,
   which the `metrics` INSERT accepts.
   */
  predicate StampedSample(m: map<string, Value>) {
    "timestamp" in m && "toner_levels" in m && m["toner_levels"].JsonText? && Store.Insertable(m)
  }

  /** Every sample of a pass can be written as a `metrics` row. */
  ghost predicate AllInsertable(samples: seq<Sample>) {
    forall j :: 0 <= j < |samples| ==> Store.Insertable(samples[j].metrics)
  }

  /** Every sample the poll produces carries the time it read and its toner levels as JSON text. */
  ghost predicate Stamped(poll: Poll) {
    forall ip, now :: poll(ip, now).Some? ==>
      StampedSample(poll(ip, now).value) && poll(ip, now).value["timestamp"] == Str(now)
  }

  lemma AllInsertablePrefix(samples: seq<Sample>, k: nat)
    requires AllInsertable(samples) && k <= |samples|
    ensures AllInsertable(samples[..k])
  {
    assert forall j :: 0 <= j < k ==> samples[..k][j] == samples[j];
  }

  lemma SnmpPollStamped(snmp: Probe.Snmp)
    ensures Stamped(SnmpPoll(snmp))
  {
    forall ip, now | SnmpPoll(snmp)(ip, now).Some?
      ensures StampedSample(SnmpPoll(snmp)(ip, now).value)
    {
      var m := Probe.GetMetrics(snmp, ip, now).value;
      StringSampleStamped(m);
    }
  }

  /** A sample of strings apart from its JSON-text toner levels and raw data is stamped and insertable. */
  lemma StringSampleStamped(m: map<string, Value>)
    requires "timestamp" in m && "toner_levels" in m && m["toner_levels"].JsonText?
    requires "raw_data" in m && m["raw_data"].JsonText?
    requires forall k :: k in m && k != "toner_levels" && k != "raw_data" ==> m[k].Str?
    ensures StampedSample(m)
  {
    assert Store.Bindable(Store.Column(m, "page_count"));
    assert Store.Bindable(Store.Column(m, "status"));
    assert Store.Bindable(Store.Column(m, "error_state"));
  }

  /** The poll of the `k`-th printer of the snapshot, which reads the clock as `clock(k)`. */
  predicate Answered(poll: Poll, rows: seq<Store.PrinterRow>, clock: nat -> string, k: nat, s: Sample)
    requires k < |rows|
  {
    s.row == rows[k] && poll(rows[k].ip, clock(k)) == Some(s.metrics)
  }

  /** The samples of the printers that answered, in table order. */
  function Samples(poll: Poll, rows: seq<Store.PrinterRow>, clock: nat -> string): seq<Sample>
    decreases |rows|
  {
    if |rows| == 0 then []
    else
      var k := |rows| - 1;
      var prev := Samples(poll, rows[..k], clock);
      match poll(rows[k].ip, clock(k))
      case None => prev
      case Some(m) => prev + [Sample(rows[k], m)]
  }

  /** Some sample of `r` is the poll of the `k`-th printer. */
  ghost predicate Contributed(poll: Poll, rows: seq<Store.PrinterRow>, clock: nat -> string, k: nat, r: seq<Sample>)
    requires k < |rows|
  {
    exists j :: 0 <= j < |r| && Answered(poll, rows, clock, k, r[j])
  }

  /** The sample comes from some printer of the snapshot whose poll produced it. */
  ghost predicate FromSnapshot(poll: Poll, rows: seq<Store.PrinterRow>, clock: nat -> string, s: Sample) {
    exists k :: 0 <= k < |rows| && Answered(poll, rows, clock, k, s)
  }

  /**
   Each sample comes from a printer of the snapshot whose poll produced it,
   and every printer whose poll produced a sample contributes it.
   */
  lemma {:induction false} SamplesExact(poll: Poll, rows: seq<Store.PrinterRow>, clock: nat -> string)
    ensures |Samples(poll, rows, clock)| <= |rows|
    ensures forall j :: 0 <= j < |Samples(poll, rows, clock)| ==>
      FromSnapshot(poll, rows, clock, Samples(poll, rows, clock)[j])
    ensures forall k :: 0 <= k < |rows| && poll(rows[k].ip, clock(k)).Some? ==>
      Contributed(poll, rows, clock, k, Samples(poll, rows, clock))
    decreases |rows|
  {
    if |rows| > 0 {
      var k := |rows| - 1;
      var prefix := rows[..k];
      SamplesExact(poll, prefix, clock);
      var prev := Samples(poll, prefix, clock);
      var last := poll(rows[k].ip, clock(k));
      var r := if last.None? then prev else prev + [Sample(rows[k], last.value)];
      assert Samples(poll, rows, clock) == r;
      forall j | 0 <= j < |r| ensures FromSnapshot(poll, rows, clock, r[j]) {
        if j < |prev| {
          var k' :| 0 <= k' < |prefix| && Answered(poll, prefix, clock, k', prev[j]);
          assert prefix[k'] == rows[k'];
          assert r[j] == prev[j];
          assert Answered(poll, rows, clock, k', r[j]);
        } else {
          assert Answered(poll, rows, clock, k, r[j]);
        }
      }
      forall k' | 0 <= k' < |rows| && poll(rows[k'].ip, clock(k')).Some?
        ensures Contributed(poll, rows, clock, k', r)
      {
        if k' < k {
          assert prefix[k'] == rows[k'];
          assert Contributed(poll, prefix, clock, k', prev);
          var j :| 0 <= j < |prev| && Answered(poll, prefix, clock, k', prev[j]);
          assert r[j] == prev[j];
          assert Answered(poll, rows, clock, k', r[j]);
        } else {
          assert Answered(poll, rows, clock, k, r[|prev|]);
        }
      }
    }
  }

  /** With a stamped poll, every sample carries its time and its toner levels as JSON text. */
  lemma {:induction false} SamplesStamped(poll: Poll, rows: seq<Store.PrinterRow>, clock: nat -> string)
    requires Stamped(poll)
    ensures forall j :: 0 <= j < |Samples(poll, rows, clock)| ==> StampedSample(Samples(poll, rows, clock)[j].metrics)
    ensures AllInsertable(Samples(poll, rows, clock))
    decreases |rows|
  {
    if |rows| > 0 {
      var k := |rows| - 1;
      SamplesStamped(poll, rows[..k], clock);
      var prev := Samples(poll, rows[..k], clock);
      var last := poll(rows[k].ip, clock(k));
      if last.None? {
        assert Samples(poll, rows, clock) == prev;
      } else {
        var r := prev + [Sample(rows[k], last.value)];
        assert Samples(poll, rows, clock) == r;
        forall j | 0 <= j < |r| ensures StampedSample(r[j].metrics) {
          if j < |prev| {
            assert r[j] == prev[j];
          }
        }
      }
    }
  }
}
