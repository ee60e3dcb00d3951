/** The store that collectors publish into (src/metrics.rs). */
module MetricStore {
  import opened Domain

  type Labels = map<string, string>

  function BaseLabels(collector: string, global: Labels, labels: Labels): Labels {
    (global + labels)["collector" := collector]
  }

  function FinalLabels(base: Labels, m: MetricValue): Labels {
    var merged := base + m.labels;
    if m.unit != "" then merged["unit" := m.unit] else merged
  }

  function Labelled(base: Labels, m: MetricValue): MetricValue {
    m.(labels := FinalLabels(base, m))
  }

  /** The published values by name: a later metric replaces an earlier one of the same name. */
  function Deduped(metrics: seq<MetricValue>, base: Labels): (d: map<string, MetricValue>)
    ensures KeyedByName(d)
  {
    if metrics == [] then map[]
    else
      var m := metrics[|metrics| - 1];
      Deduped(metrics[..|metrics| - 1], base)[m.name := Labelled(base, m)]
  }

  function AllLabelled(d: map<string, MetricValue>, base: Labels): map<string, MetricValue> {
    map k | k in d :: Labelled(base, d[k])
  }

  predicate KeyedByName(d: map<string, MetricValue>) {
    forall k | k in d :: d[k].name == k
  }

  /** `s` holds every value of `d` once, in whatever order. */
  ghost predicate Lists(s: seq<MetricValue>, d: map<string, MetricValue>) {
    && |s| == |d|
    && (forall i | 0 <= i < |s| :: s[i].name in d && d[s[i].name] == s[i])
    && (forall i, j | 0 <= i < j < |s| :: s[i].name != s[j].name)
    && (forall k | k in d :: exists i | 0 <= i < |s| :: s[i].name == k)
  }

  /** The values of a hash map, in the arbitrary order in which it yields them. */
  method IntoValues(d: map<string, MetricValue>) returns (s: seq<MetricValue>)
    requires KeyedByName(d)
    ensures Lists(s, d)
  {
    s := [];
    var rest := d.Keys;
    while rest != {}
      invariant rest <= d.Keys && |s| + |rest| == |d|
      invariant forall i | 0 <= i < |s| :: s[i].name in d && s[i].name !in rest && d[s[i].name] == s[i]
      invariant forall i, j | 0 <= i < j < |s| :: s[i].name != s[j].name
      invariant forall k | k in d && k !in rest :: exists i | 0 <= i < |s| :: s[i].name == k
    {
      var k :| k in rest;
      rest := rest - {k};
      ghost var before := s;
      s := s + [d[k]];
      assert s[|before|].name == k;
      forall x | x in d && x !in rest ensures exists i | 0 <= i < |s| :: s[i].name == x {
        if x != k {
          var i :| 0 <= i < |before| && before[i].name == x;
          assert s[i].name == x;
        }
      }
    }
  }

  /** The loop over the metrics: label each, and keep the last of each name. */
  method DedupByName(metrics: seq<MetricValue>, base: Labels) returns (deduped: map<string, MetricValue>)
    ensures deduped == Deduped(metrics, base)
  {
    hide Deduped;
    NothingDeduped(base);
    deduped := map[];
    for i := 0 to |metrics|
      invariant deduped == Deduped(metrics[..i], base)
    {
      var m := metrics[i];
      DedupedNext(metrics, i, base);
      var final := base + m.labels;
      if m.unit != "" {
        final := final["unit" := m.unit];
      }
      m := m.(labels := final);
      deduped := deduped[m.name := m];
    }
    assert metrics[..|metrics|] == metrics;
  }

  class Store {
    var inner: map<string, seq<MetricValue>>

    constructor ()
      ensures inner == map[]
    {
      inner := map[];
    }

    /** Replaces the entry of one collector, and no other. */
    method Publish(collector: string, metrics: seq<MetricValue>, global: Labels, labels: Labels)
      modifies this
      ensures inner.Keys == old(inner.Keys) + {collector}
      ensures Lists(inner[collector], Deduped(metrics, BaseLabels(collector, global, labels)))
      ensures forall c | c in old(inner) && c != collector :: inner[c] == old(inner[c])
    {
      hide Deduped, Lists;
      var base := global + labels;
      base := base["collector" := collector];
      var deduped := DedupByName(metrics, base);
      var merged := IntoValues(deduped);
      inner := inner[collector := merged];
    }

    function MetricsFor(collector: string): seq<MetricValue>
      reads this
    {
      if collector in inner then inner[collector] else []
    }

    method RemoveCollector(collector: string) returns (removed: bool)
      modifies this
      ensures removed == (collector in old(inner))
      ensures inner == old(inner) - {collector}
      ensures MetricsFor(collector) == []
    {
      removed := collector in inner;
      inner := inner - {collector};
    }
  }

  lemma {:induction false} NothingDeduped(base: Labels)
    ensures Deduped([], base) == map[]
  {
  }

  lemma {:induction false} DedupedNext(metrics: seq<MetricValue>, i: nat, base: Labels)
    requires i < |metrics|
    ensures Deduped(metrics[..i + 1], base) == Deduped(metrics[..i], base)[metrics[i].name := Labelled(base, metrics[i])]
  {
    hide Labelled;
    assert metrics[..i + 1][..i] == metrics[..i];
  }

  // ----- what a published value is -----

  /** Where each label of a published value comes from, in falling precedence. */
  lemma {:induction false} LabelPrecedence(collector: string, global: Labels, labels: Labels, m: MetricValue, k: string)
    ensures var final := Labelled(BaseLabels(collector, global, labels), m).labels;
      if k == "unit" && m.unit != "" then k in final && final[k] == m.unit
      else if k in m.labels then k in final && final[k] == m.labels[k]
      else if k == "collector" then k in final && final[k] == collector
      else if k in labels then k in final && final[k] == labels[k]
      else if k in global then k in final && final[k] == global[k]
      else k !in final
  {
  }

  /** Of several metrics with one name, exactly the last is published. */
  lemma {:induction false} LastOneWins(metrics: seq<MetricValue>, base: Labels, i: nat)
    requires i < |metrics|
    requires forall j | i < j < |metrics| :: metrics[j].name != metrics[i].name
    ensures metrics[i].name in Deduped(metrics, base)
    ensures Deduped(metrics, base)[metrics[i].name] == Labelled(base, metrics[i])
  {
    if i < |metrics| - 1 {
      LastOneWins(metrics[..|metrics| - 1], base, i);
    }
  }

  lemma {:induction false} NothingElseIsPublished(metrics: seq<MetricValue>, base: Labels, k: string)
    requires k in Deduped(metrics, base)
    ensures exists i | 0 <= i < |metrics| :: metrics[i].name == k && Deduped(metrics, base)[k] == Labelled(base, metrics[i])
  {
    var n := |metrics| - 1;
    if metrics[n].name != k {
      NothingElseIsPublished(metrics[..n], base, k);
      var i :| 0 <= i < n && metrics[..n][i].name == k && Deduped(metrics, base)[k] == Labelled(base, metrics[..n][i]);
      assert metrics[i].name == k;
    }
  }

  /** Publishing a list of distinctly named values publishes each of them, labelled. */
  lemma {:induction false} DedupedList(s: seq<MetricValue>, d: map<string, MetricValue>, base: Labels)
    requires Lists(s, d)
    ensures Deduped(s, base) == AllLabelled(d, base)
  {
    hide Labelled, Deduped;
    forall k | k in d ensures k in Deduped(s, base) && Deduped(s, base)[k] == Labelled(base, d[k]) {
      var i :| 0 <= i < |s| && s[i].name == k;
      LastOneWins(s, base, i);
    }
    forall k | k in Deduped(s, base) ensures k in d {
      NothingElseIsPublished(s, base, k);
    }
  }
}
