/** The Modbus TCP metric reader (src/reader/modbus/tcp.rs:11-17, 136-174). */
module TcpReader {
  import opened Wrappers
  import opened Domain
  import opened ModbusClient
  import opened BatchRead

  /** Results keyed by metric name: a later metric replaces an earlier one of the same name. */
  function ByName(results: seq<(MetricConfig, Outcome)>): map<string, Outcome> {
    if results == [] then map[]
    else
      var (m, o) := results[|results| - 1];
      ByName(results[..|results| - 1])[m.name := o]
  }

  /** No later metric has the name of metric `i`. */
  ghost predicate LastOfItsName(metrics: seq<MetricConfig>, i: nat)
    requires i < |metrics|
  {
    forall j | i < j < |metrics| :: metrics[j].name != metrics[i].name
  }

  /** Each name once, with the outcome of the last metric of that name. */
  ghost predicate IsReadResult(metrics: seq<MetricConfig>, slots: seq<Option<Outcome>>, results: map<string, Outcome>) {
    && |slots| == |metrics|
    && (forall name :: name in results <==> exists i | 0 <= i < |metrics| :: metrics[i].name == name)
    && forall i | 0 <= i < |metrics| && LastOfItsName(metrics, i) :: slots[i] == Some(results[metrics[i].name])
  }

  class ModbusTcpMetricReader {
    const client: ModbusTcpClient
    var metrics: seq<MetricConfig>

    constructor (client: ModbusTcpClient)
      ensures this.client == client && metrics == []
    {
      this.client := client;
      metrics := [];
    }

    method SetMetrics(metrics: seq<MetricConfig>)
      modifies this`metrics
      ensures this.metrics == metrics
    {
      this.metrics := metrics;
    }

    /** The metrics are taken out for the duration of the batch, and are back afterwards. */
    method Read() returns (results: map<string, Outcome>, ioCount: nat)
      modifies this`metrics, client`calls
      ensures metrics == old(metrics)
      ensures var q := Batch(client.At(), old(client.calls), metrics);
        && client.calls == q.calls
        && ioCount == |q.calls| - |old(client.calls)|
        && IsReadResult(metrics, q.slots, results)
    {
      var taken := metrics;
      metrics := [];
      var batch, count := BatchReadCoalesced(client, taken);
      ioCount := count;
      results := ByName(batch);
      metrics := taken;
      ghost var slots := Batch(client.At(), old(client.calls), taken).slots;
      assert forall i | 0 <= i < |taken| :: slots[i] == Some(batch[i].1);
      hide Batch, ByName;
      ByNameIsResult(taken, slots, batch);
    }
  }

  lemma {:induction false} ByNameIsLast(results: seq<(MetricConfig, Outcome)>, i: nat)
    requires i < |results|
    requires forall j | i < j < |results| :: results[j].0.name != results[i].0.name
    ensures results[i].0.name in ByName(results)
    ensures ByName(results)[results[i].0.name] == results[i].1
  {
    if i < |results| - 1 {
      ByNameIsLast(results[..|results| - 1], i);
    }
  }

  lemma {:induction false} ByNameKeys(results: seq<(MetricConfig, Outcome)>, name: string)
    ensures name in ByName(results) <==> exists i | 0 <= i < |results| :: results[i].0.name == name
  {
    if results != [] {
      var front := results[..|results| - 1];
      ByNameKeys(front, name);
      if i :| 0 <= i < |front| && front[i].0.name == name {
        assert results[i].0.name == name;
      }
      if i :| 0 <= i < |results| && results[i].0.name == name && i < |front| {
        assert front[i].0.name == name;
      }
    }
  }

  lemma {:induction false} ByNameIsResult(metrics: seq<MetricConfig>, slots: seq<Option<Outcome>>,
      batch: seq<(MetricConfig, Outcome)>)
    requires |slots| == |batch| == |metrics|
    requires forall i | 0 <= i < |metrics| :: batch[i].0 == metrics[i] && slots[i] == Some(batch[i].1)
    ensures IsReadResult(metrics, slots, ByName(batch))
  {
    hide ByName;
    forall i | 0 <= i < |metrics| && LastOfItsName(metrics, i)
      ensures metrics[i].name in ByName(batch) && slots[i] == Some(ByName(batch)[metrics[i].name])
    {
      ByNameIsLast(batch, i);
    }
    forall name ensures name in ByName(batch) <==> exists i | 0 <= i < |metrics| :: metrics[i].name == name {
      ByNameKeys(batch, name);
      if i :| 0 <= i < |batch| && batch[i].0.name == name { assert metrics[i].name == name; }
      if i :| 0 <= i < |metrics| && metrics[i].name == name { assert batch[i].0.name == name; }
    }
  }
}
