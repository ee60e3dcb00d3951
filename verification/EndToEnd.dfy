/**
 From the registers of a device to the entries of the store: one cycle of a collector over a
 Modbus TCP reader (src/reader/modbus/tcp.rs:155-173, src/collector.rs:236-367, src/metrics.rs:52-84).
 */
module EndToEnd {
  import opened Wrappers
  import opened Domain
  import opened ModbusClient
  import opened BatchRead
  import opened TcpReader
  import opened MetricStore
  import opened CollectorLog
  import opened CollectorCycle
  import opened CollectorHistory
  import Collector
  import Decoder

  // ----- the device and the metrics -----

  /** Every request for registers or bits that exist is answered. */
  ghost predicate FaultFree(device: Device) {
    && (forall n: nat, kind, addr: u16, count: u16 | 1 <= count && addr + count <= 0x1_0000 ::
          device.registers(n, kind, addr, count).Ok?)
    && (forall n: nat, kind, addr: u16, count: u16 | 1 <= count && addr + count <= 0x1_0000 ::
          device.bits(n, kind, addr, count).Ok? && device.bits(n, kind, addr, count).value != [])
  }

  predicate Readable(m: MetricConfig) {
    m.address.Some? && (IsRegister(KindOf(m)) ==> !TouchesTop(m))
  }

  /** A sound set-up: a connected, consistent, fault-free device and distinctly named metrics. */
  ghost predicate Sound(link: Link, metrics: seq<MetricConfig>) {
    && link.connected && Consistent(link.device) && FaultFree(link.device)
    && DistinctNames(metrics)
    && forall i | 0 <= i < |metrics| :: Readable(metrics[i])
  }

  /** The entries of a hash map, each once, in whatever order. */
  ghost predicate Yields(entries: seq<ReadEntry>, results: map<string, Outcome>) {
    && (forall k | 0 <= k < |entries| :: entries[k].name in results && entries[k].result == results[entries[k].name])
    && (forall k, l | 0 <= k < l < |entries| :: entries[k].name != entries[l].name)
    && (forall name | name in results :: exists k | 0 <= k < |entries| :: entries[k].name == name)
  }

  /** `entries` is what one read of the metrics, the batch begun after `calls`, returns. */
  ghost predicate OneRead(link: Link, calls: seq<Call>, metrics: seq<MetricConfig>, entries: seq<ReadEntry>) {
    exists results :: IsReadResult(metrics, Batch(link, calls, metrics).slots, results) && Yields(entries, results)
  }

  /** `v` is metric `m` read on its own at some moment of the batch. */
  ghost predicate OwnReading(link: Link, calls: seq<Call>, metrics: seq<MetricConfig>, m: MetricConfig, v: Number) {
    exists n | |calls| <= n < |Batch(link, calls, metrics).calls| ::
      SingleAt(link, n, m).Ok? && v == SingleAt(link, n, m).value.scaled
  }

  // ----- the read -----

  lemma {:induction false} SingleSucceeds(link: Link, n: nat, m: MetricConfig)
    requires link.connected && FaultFree(link.device) && Consistent(link.device) && Readable(m)
    ensures SingleAt(link, n, m).Ok?
  {
    var addr, count := m.address.value, RegisterCount(m);
    if IsRegister(KindOf(m)) {
      assert link.device.registers(n, KindOf(m), addr, count).Ok?;
      assert SlicesAgree(link.device, n, KindOf(m), addr, count);
    } else {
      assert link.device.bits(n, KindOf(m), addr, 1).Ok?;
    }
  }

  /** Such devices exist: a register bank that changes at will, without faults. */
  lemma {:induction false} BankIsFaultFree(bank: (nat, RegisterType, int) -> u16)
    ensures FaultFree(BankDevice(bank, (n, kind, addr) => false))
  {
    var device := BankDevice(bank, (n, kind, addr) => false);
    forall n: nat, kind, addr: u16, count: u16 | 1 <= count && addr + count <= 0x1_0000
      ensures device.bits(n, kind, addr, count).Ok? && device.bits(n, kind, addr, count).value != []
    {
      assert |device.bits(n, kind, addr, count).value| == count;
    }
  }

  /** The decoded contents of a metric's own registers in a table. */
  function FromTable(bank: (nat, RegisterType, int) -> u16, n: nat, kind: RegisterType, m: MetricConfig): Reading
    requires m.address.Some?
  {
    var regs := seq(RegisterCount(m), k requires 0 <= k < RegisterCount(m) => bank(n, kind, m.address.value + k));
    var raw := Decoder.RawOf(regs, m.dataType, m.byteOrder);
    Reading(raw, Affine(raw, m.scale, m.offset))
  }

  function FromBit(bank: (nat, RegisterType, int) -> u16, n: nat, kind: RegisterType, m: MetricConfig): Reading
    requires m.address.Some?
  {
    var raw := Whole(if bank(n, kind, m.address.value) == 0 then 0 else 1);
    Reading(raw, Affine(raw, m.scale, m.offset))
  }

  /** A metric's own reading over such a bank comes from the table that its configuration names. */
  lemma {:induction false} ReadingOverBank(bank: (nat, RegisterType, int) -> u16, n: nat, m: MetricConfig)
    requires Readable(m)
    ensures var reading := SingleAt(Link(BankDevice(bank, (n, kind, addr) => false), true), n, m);
      && (m.registerType == None || m.registerType == Some(Holding) ==> reading == Ok(FromTable(bank, n, Holding, m)))
      && (m.registerType == Some(Input) ==> reading == Ok(FromTable(bank, n, Input, m)))
      && (m.registerType == Some(Coil) ==> reading == Ok(FromBit(bank, n, Coil, m)))
      && (m.registerType == Some(Discrete) ==> reading == Ok(FromBit(bank, n, Discrete, m)))
  {
    var link := Link(BankDevice(bank, (n, kind, addr) => false), true);
    if IsRegister(KindOf(m)) {
      var regs := seq(RegisterCount(m), k requires 0 <= k < RegisterCount(m) => bank(n, KindOf(m), m.address.value + k));
      assert RegistersAt(link, n, KindOf(m), m.address.value, RegisterCount(m)).value == regs;
    }
  }

  /** The entry of metric `i` is its own reading. */
  lemma {:induction false} EntryOf(link: Link, calls: seq<Call>, metrics: seq<MetricConfig>, entries: seq<ReadEntry>, i: nat)
    returns (k: nat)
    requires Sound(link, metrics) && OneRead(link, calls, metrics, entries) && i < |metrics|
    ensures k < |entries| && entries[k].name == metrics[i].name && entries[k].result.Ok?
    ensures OwnReading(link, calls, metrics, metrics[i], entries[k].result.value.scaled)
  {
    hide Batch, SingleAt, TouchesTop, Consistent, FaultFree;
    var results :| IsReadResult(metrics, Batch(link, calls, metrics).slots, results) && Yields(entries, results);
    assert metrics[i].name in results;
    k :| 0 <= k < |entries| && entries[k].name == metrics[i].name;
    assert Readable(metrics[i]);
    BatchRefinesSingle(link, calls, metrics, i);
    var n :| |calls| <= n < |Batch(link, calls, metrics).calls|
      && Batch(link, calls, metrics).slots[i] == Some(SingleAt(link, n, metrics[i]));
    SingleSucceeds(link, n, metrics[i]);
    assert LastOfItsName(metrics, i);
  }

  lemma {:induction false} EntriesSucceed(link: Link, calls: seq<Call>, metrics: seq<MetricConfig>, entries: seq<ReadEntry>, k: nat)
    returns (i: nat)
    requires Sound(link, metrics) && OneRead(link, calls, metrics, entries) && k < |entries|
    ensures entries[k].result.Ok? && i < |metrics| && metrics[i].name == entries[k].name
  {
    hide Batch, Sound;
    var results :| IsReadResult(metrics, Batch(link, calls, metrics).slots, results) && Yields(entries, results);
    i :| 0 <= i < |metrics| && metrics[i].name == entries[k].name;
    var l := EntryOf(link, calls, metrics, entries, i);
    assert l == k;
  }

  lemma {:induction false} NoFailure(metrics: seq<MetricConfig>, entries: seq<ReadEntry>, name: string)
    requires forall k | 0 <= k < |entries| :: entries[k].result.Ok?
    ensures !LosesConnection(metrics, entries) && ErrorsIn(metrics, entries, name) == 0
  {
    if entries != [] {
      NoFailure(metrics, entries[..|entries| - 1], name);
    }
  }

  lemma {:induction false} LastOkOf(entries: seq<ReadEntry>, k: nat)
    requires k < |entries| && entries[k].result.Ok?
    requires forall l | k < l < |entries| :: entries[l].name != entries[k].name
    ensures LastOk(entries, entries[k].name) == Some(entries[k].result.value.scaled)
  {
    if k < |entries| - 1 {
      LastOkOf(entries[..|entries| - 1], k);
    }
  }

  /** No entry fails, and the value taken for metric `i` is its own reading. */
  lemma {:induction false} CleanRead(link: Link, calls: seq<Call>, metrics: seq<MetricConfig>, entries: seq<ReadEntry>)
    requires Sound(link, metrics) && OneRead(link, calls, metrics, entries)
    ensures !LosesConnection(metrics, entries)
    ensures forall name :: ErrorsIn(metrics, entries, name) == 0
    ensures forall i | 0 <= i < |metrics| ::
      && FindMetric(metrics, metrics[i].name) == Some(metrics[i])
      && LastOk(entries, metrics[i].name).Some?
      && OwnReading(link, calls, metrics, metrics[i], LastOk(entries, metrics[i].name).value)
  {
    hide LosesConnection, ErrorsIn, FindMetric, LastOk, OwnReading, Batch;
    forall k | 0 <= k < |entries| ensures entries[k].result.Ok? {
      var _ := EntriesSucceed(link, calls, metrics, entries, k);
    }
    NoFailure(metrics, entries, "");
    forall name ensures ErrorsIn(metrics, entries, name) == 0 {
      NoFailure(metrics, entries, name);
    }
    forall i | 0 <= i < |metrics|
      ensures FindMetric(metrics, metrics[i].name) == Some(metrics[i]) && LastOk(entries, metrics[i].name).Some?
      ensures OwnReading(link, calls, metrics, metrics[i], LastOk(entries, metrics[i].name).value)
    {
      FindIsFirst(metrics, i);
      var k := EntryOf(link, calls, metrics, entries, i);
      LastOkOf(entries, k);
    }
  }

  // ----- what the store shows -----

  /** Which value a label of a Modbus metric has: the metric itself brings none but its unit. */
  ghost predicate HasLabels(v: MetricValue, unit: string, collector: string, global: Labels, labels: Labels) {
    forall k ::
      if k == "unit" && unit != "" then k in v.labels && v.labels[k] == unit
      else if k == "collector" then k in v.labels && v.labels[k] == collector
      else if k in labels then k in v.labels && v.labels[k] == labels[k]
      else if k in global then k in v.labels && v.labels[k] == global[k]
      else k !in v.labels
  }

  /** `v` is the store's entry for metric `m`. */
  ghost predicate Shows(v: MetricValue, link: Link, calls: seq<Call>, cfg: CollectorConfig, m: MetricConfig, global: Labels) {
    && v.name == m.name && v.metricType == m.metricType && v.description == m.description && v.unit == m.unit
    && OwnReading(link, calls, cfg.metrics, m, v.value)
    && HasLabels(v, m.unit, cfg.name, global, cfg.labels)
  }

  ghost predicate IsShown(shown: seq<MetricValue>, link: Link, calls: seq<Call>, cfg: CollectorConfig, m: MetricConfig,
      global: Labels)
  {
    exists j | 0 <= j < |shown| :: Shows(shown[j], link, calls, cfg, m, global)
  }

  lemma {:induction false} LabelledShows(link: Link, calls: seq<Call>, cfg: CollectorConfig, m: MetricConfig, global: Labels,
      value: Number, at: nat)
    requires OwnReading(link, calls, cfg.metrics, m, value)
    ensures Shows(Labelled(BaseLabels(cfg.name, global, cfg.labels), ValueOf(m, value, at)), link, calls, cfg, m, global)
  {
    hide OwnReading;
    var base, v := BaseLabels(cfg.name, global, cfg.labels), ValueOf(m, value, at);
    var shown := Labelled(base, v);
    forall k
      ensures if k == "unit" && m.unit != "" then k in shown.labels && shown.labels[k] == m.unit
        else if k == "collector" then k in shown.labels && shown.labels[k] == cfg.name
        else if k in cfg.labels then k in shown.labels && shown.labels[k] == cfg.labels[k]
        else if k in global then k in shown.labels && shown.labels[k] == global[k]
        else k !in shown.labels
    {
      LabelPrecedence(cfg.name, global, cfg.labels, v, k);
    }
  }

  lemma {:induction false} EntryFor(shown: seq<MetricValue>, s: Cache, base: Labels, k: string) returns (j: nat)
    requires Lists(shown, AllLabelled(s, base)) && k in s
    ensures j < |shown| && shown[j].name == k && shown[j] == Labelled(base, s[k])
  {
    hide Labelled;
    assert k in AllLabelled(s, base);
    j :| 0 <= j < |shown| && shown[j].name == k;
  }

  lemma {:induction false} EntryIsKey(shown: seq<MetricValue>, s: Cache, base: Labels, j: nat)
    requires Lists(shown, AllLabelled(s, base)) && j < |shown|
    ensures shown[j].name in s
  {
    hide Labelled;
  }

  lemma {:induction false} EntriesAreDistinct(shown: seq<MetricValue>, s: Cache, base: Labels)
    requires Lists(shown, AllLabelled(s, base))
    ensures forall j, k | 0 <= j < k < |shown| :: shown[j].name != shown[k].name
  {
  }

  function NameSet<A>(s: seq<A>, name: A -> string): set<string> {
    set i | 0 <= i < |s| :: name(s[i])
  }

  lemma {:induction false} DistinctCount<A>(s: seq<A>, name: A -> string)
    requires forall i, j | 0 <= i < j < |s| :: name(s[i]) != name(s[j])
    ensures |NameSet(s, name)| == |s|
  {
    if s != [] {
      var n := |s| - 1;
      DistinctCount(s[..n], name);
      assert forall i | 0 <= i < n :: s[..n][i] == s[i];
      assert NameSet(s, name) == NameSet(s[..n], name) + {name(s[n])};
    }
  }

  /** Every metric is shown, once, and nothing else is. */
  lemma {:induction false} OneEntryEach(shown: seq<MetricValue>, link: Link, calls: seq<Call>, cfg: CollectorConfig, global: Labels)
    requires DistinctNames(cfg.metrics)
    requires forall j, k | 0 <= j < k < |shown| :: shown[j].name != shown[k].name
    requires forall i | 0 <= i < |cfg.metrics| :: IsShown(shown, link, calls, cfg, cfg.metrics[i], global)
    requires forall j | 0 <= j < |shown| :: Configured(cfg.metrics, shown[j].name)
    ensures |shown| == |cfg.metrics|
  {
    hide OwnReading, HasLabels, FindMetric;
    var metrics := cfg.metrics;
    var valueName, metricName := (v: MetricValue) => v.name, (m: MetricConfig) => m.name;
    DistinctCount(shown, valueName);
    DistinctCount(metrics, metricName);
    var a, b := NameSet(shown, valueName), NameSet(metrics, metricName);
    forall x | x in a ensures x in b {
      var j :| 0 <= j < |shown| && valueName(shown[j]) == x;
      assert Configured(metrics, shown[j].name);
      var i :| 0 <= i < |metrics| && metrics[i].name == x;
      assert metricName(metrics[i]) == x;
    }
    forall x | x in b ensures x in a {
      var i :| 0 <= i < |metrics| && metricName(metrics[i]) == x;
      assert IsShown(shown, link, calls, cfg, metrics[i], global);
      var j :| 0 <= j < |shown| && Shows(shown[j], link, calls, cfg, metrics[i], global);
      assert valueName(shown[j]) == x;
    }
    assert a == b;
  }

  // ----- the first cycle -----

  lemma {:induction false} FirstSnapshot(link: Link, calls: seq<Call>, metrics: seq<MetricConfig>, entries: seq<ReadEntry>,
      now: nat, k: string)
    requires Sound(link, metrics) && OneRead(link, calls, metrics, entries)
    ensures var s := Snapshot(metrics, map[], map[], entries, now);
      && (k in s <==> Configured(metrics, k))
      && (k in s ==> LastOk(entries, k).Some? && exists at ::
            s[k] == ValueOf(FindMetric(metrics, k).value, LastOk(entries, k).value, at))
  {
    hide Absorbed, FindMetric, LastOk, LosesConnection, ErrorsIn, OwnReading, OneRead, Sound;
    var t := Absorbed(metrics, Tally(map[], map[], 0, false, false), entries);
    CleanRead(link, calls, metrics, entries);
    forall name ensures name !in t.errors {
      AbsorbedErrors(metrics, map[], entries, name);
    }
    AbsorbedLocal(metrics, map[], entries, k);
    MergedAt(t.local, map[], t.errors, now, k);
  }

  lemma {:induction false} FirstEntries(link: Link, calls: seq<Call>, cfg: CollectorConfig, global: Labels,
      entries: seq<ReadEntry>, now: nat, shown: seq<MetricValue>)
    requires Sound(link, cfg.metrics) && OneRead(link, calls, cfg.metrics, entries)
    requires Lists(shown, AllLabelled(Snapshot(cfg.metrics, map[], map[], entries, now),
                                      BaseLabels(cfg.name, global, cfg.labels)))
    ensures forall i | 0 <= i < |cfg.metrics| :: IsShown(shown, link, calls, cfg, cfg.metrics[i], global)
    ensures forall j | 0 <= j < |shown| :: Configured(cfg.metrics, shown[j].name)
  {
    hide Snapshot, FindMetric, LastOk, LosesConnection, ErrorsIn, OwnReading, OneRead, BaseLabels, Shows, Labelled;
    hide Lists, AllLabelled;
    var metrics := cfg.metrics;
    var s := Snapshot(metrics, map[], map[], entries, now);
    var base := BaseLabels(cfg.name, global, cfg.labels);
    CleanRead(link, calls, metrics, entries);
    forall i | 0 <= i < |metrics| ensures IsShown(shown, link, calls, cfg, metrics[i], global) {
      var k := metrics[i].name;
      FirstSnapshot(link, calls, metrics, entries, now, k);
      var at :| s[k] == ValueOf(FindMetric(metrics, k).value, LastOk(entries, k).value, at);
      var j := EntryFor(shown, s, base, k);
      LabelledShows(link, calls, cfg, metrics[i], global, LastOk(entries, k).value, at);
    }
    forall j | 0 <= j < |shown| ensures Configured(metrics, shown[j].name) {
      EntryIsKey(shown, s, base, j);
      FirstSnapshot(link, calls, metrics, entries, now, shown[j].name);
    }
  }

  /** What the store holds once a snapshot is published. */
  lemma {:induction false} JustStored(task: Collector.CollectorTask, before: seq<Event>, snapshot: Cache)
    requires task.Inv() && task.log == before + [Event.Publish(snapshot)]
    ensures Lists(task.store.MetricsFor(task.cfg.name),
                  AllLabelled(snapshot, BaseLabels(task.cfg.name, task.globalLabels, task.cfg.labels)))
    ensures IsMerge(task.cfg.metrics, before, snapshot)
  {
    hide Obeys, TotalsOf, Watched, IsMerge, Lists, AllLabelled, BaseLabels;
    LastSnapshotSnoc(before, Event.Publish(snapshot));
    var p := |before|;
    assert task.log[..p] == before && task.log[p].Publish?;
  }

  lemma {:induction false} NothingShown(log: seq<Event>)
    requires forall k | 0 <= k < |log| :: !log[k].Publish?
    ensures Shown(log) == map[]
  {
    if log != [] { NothingShown(log[..|log| - 1]); }
  }

  lemma {:induction false} FirstMerge(metrics: seq<MetricConfig>, before: seq<Event>, entries: seq<ReadEntry>, io: nat, snapshot: Cache)
    returns (now: nat)
    requires IsMerge(metrics, before + [Event.Read(entries, io)], snapshot)
    requires forall k | 0 <= k < |before| :: !before[k].Publish?
    requires forall name :: ErrorsOf(metrics, before, name) == 0
    ensures snapshot == Snapshot(metrics, map[], map[], entries, now)
  {
    hide Snapshot, Shown, ErrorsOf;
    var log := before + [Event.Read(entries, io)];
    assert log[..|log| - 1] == before;
    var errors, at :| MergedFrom(metrics, log, errors, at, snapshot);
    now := at;
    NothingShown(before);
    assert errors == map[];
  }

  /**
   The first completed cycle of a task, with no error counted before it, over a fault-free
   device: the store holds exactly one entry per configured metric. Its value is the metric's
   own reading at a moment of this very read, and its labels come from the unit, the
   collector's name, its labels and the global ones. Names may clash here.
   */
  lemma {:induction false} FirstCycle(task: Collector.CollectorTask, link: Link, calls: seq<Call>, before: seq<Event>,
      entries: seq<ReadEntry>, io: nat, snapshot: Cache)
    requires task.Inv()
    requires task.log == before + [Event.Read(entries, io)] + [Event.Publish(snapshot)]
    requires forall k | 0 <= k < |before| :: !before[k].Publish?
    requires forall name :: ErrorsOf(task.cfg.metrics, before, name) == 0
    requires Sound(link, task.cfg.metrics) && OneRead(link, calls, task.cfg.metrics, entries)
    ensures var shown := task.store.MetricsFor(task.cfg.name);
      && |shown| == |task.cfg.metrics|
      && (forall j, k | 0 <= j < k < |shown| :: shown[j].name != shown[k].name)
      && (forall i | 0 <= i < |task.cfg.metrics| ::
            IsShown(shown, link, calls, task.cfg, task.cfg.metrics[i], task.globalLabels))
  {
    hide Collector.CollectorTask.Inv, OneRead, BaseLabels, IsShown, IsMerge, Snapshot, ErrorsOf;
    hide Lists, AllLabelled, Store.MetricsFor, Consistent, FaultFree, Readable, Configured;
    var cfg, shown := task.cfg, task.store.MetricsFor(task.cfg.name);
    JustStored(task, before + [Event.Read(entries, io)], snapshot);
    var now := FirstMerge(cfg.metrics, before, entries, io, snapshot);
    EntriesAreDistinct(shown, snapshot, BaseLabels(cfg.name, task.globalLabels, cfg.labels));
    FirstEntries(link, calls, cfg, task.globalLabels, entries, now, shown);
    OneEntryEach(shown, link, calls, cfg, task.globalLabels);
  }

  // ----- any cycle of any run -----

  lemma {:induction false} JustPublished(task: Collector.CollectorTask, before: seq<Event>, snapshot: Cache)
    requires task.Inv() && NoClash(task.cfg.metrics)
    requires task.log == before + [Event.Publish(snapshot)]
    ensures Faithful(task.cfg.metrics, task.log, snapshot)
  {
    hide Obeys, TotalsOf, Watched, NoClash, Faithful, Lists, AllLabelled, BaseLabels, CacheAgrees;
    var p := |before|;
    assert task.log[..p + 1] == task.log && task.log[p].Publish?;
  }

  /** The cache holds, for a metric that succeeds in the read just published, the value of that read. */
  lemma {:induction false} PublishedValue(metrics: seq<MetricConfig>, before: seq<Event>, entries: seq<ReadEntry>, io: nat,
      snapshot: Cache, name: string)
    requires Faithful(metrics, before + [Event.Read(entries, io)] + [Event.Publish(snapshot)], snapshot)
    requires Configured(metrics, name) && LastOk(entries, name).Some?
    ensures name in snapshot
    ensures snapshot[name] == ValueOf(FindMetric(metrics, name).value, LastOk(entries, name).value, snapshot[name].updatedAt)
  {
    hide LastGood, ErrorsOf, FindMetric, LastOk;
    var read := before + [Event.Read(entries, io)];
    LastGoodSnoc(read, Event.Publish(snapshot), name);
    assert AgreesOn(metrics, read + [Event.Publish(snapshot)], snapshot, name);
  }

  /** The snapshot's entry for metric `i` is the metric's own reading. */
  ghost predicate IsValueOf(link: Link, calls: seq<Call>, metrics: seq<MetricConfig>, i: nat, snapshot: Cache, at: nat)
    requires i < |metrics|
  {
    && metrics[i].name in snapshot
    && var v := snapshot[metrics[i].name];
       v == ValueOf(metrics[i], v.value, at) && OwnReading(link, calls, metrics, metrics[i], v.value)
  }

  lemma {:induction false} ValueInSnapshot(link: Link, calls: seq<Call>, metrics: seq<MetricConfig>, before: seq<Event>,
      entries: seq<ReadEntry>, io: nat, snapshot: Cache, i: nat)
    requires Faithful(metrics, before + [Event.Read(entries, io)] + [Event.Publish(snapshot)], snapshot)
    requires Sound(link, metrics) && OneRead(link, calls, metrics, entries) && i < |metrics|
    ensures exists at :: IsValueOf(link, calls, metrics, i, snapshot, at)
  {
    hide FindMetric, LastOk, LosesConnection, ErrorsIn, OwnReading, OneRead, Sound, Faithful;
    var name := metrics[i].name;
    CleanRead(link, calls, metrics, entries);
    PublishedValue(metrics, before, entries, io, snapshot, name);
    assert IsValueOf(link, calls, metrics, i, snapshot, snapshot[name].updatedAt);
  }

  lemma {:induction false} OnlyPublishable(metrics: seq<MetricConfig>, log: seq<Event>, snapshot: Cache, k: string)
    requires Faithful(metrics, log, snapshot) && k in snapshot
    ensures Publishable(metrics, k)
    ensures (forall name :: ErrorsOf(metrics, log, name) == 0) ==> Configured(metrics, k)
  {
    hide AgreesOn, ErrorsOf, FindMetric;
    if !Configured(metrics, k) {
      assert CountsShown(metrics, log, snapshot, BaseName(k));
    }
  }

  lemma {:induction false} PublishedEntries(link: Link, calls: seq<Call>, cfg: CollectorConfig, global: Labels,
      before: seq<Event>, entries: seq<ReadEntry>, io: nat, snapshot: Cache, shown: seq<MetricValue>)
    requires Faithful(cfg.metrics, before + [Event.Read(entries, io)] + [Event.Publish(snapshot)], snapshot)
    requires Lists(shown, AllLabelled(snapshot, BaseLabels(cfg.name, global, cfg.labels)))
    requires Sound(link, cfg.metrics) && OneRead(link, calls, cfg.metrics, entries)
    ensures forall i | 0 <= i < |cfg.metrics| ::
      IsShown(shown, link, calls, cfg, cfg.metrics[i], global)
    ensures forall j | 0 <= j < |shown| :: Publishable(cfg.metrics, shown[j].name)
    ensures (forall name :: ErrorsOf(cfg.metrics, before + [Event.Read(entries, io)] + [Event.Publish(snapshot)], name) == 0) ==>
      forall j | 0 <= j < |shown| :: Configured(cfg.metrics, shown[j].name)
  {
    hide FindMetric, OwnReading, OneRead, Sound, BaseLabels, Shows, Labelled, Publishable, Faithful, Configured;
    hide Lists, AllLabelled, ErrorsOf;
    var base := BaseLabels(cfg.name, global, cfg.labels);
    forall i | 0 <= i < |cfg.metrics|
      ensures IsShown(shown, link, calls, cfg, cfg.metrics[i], global)
    {
      var m := cfg.metrics[i];
      ValueInSnapshot(link, calls, cfg.metrics, before, entries, io, snapshot, i);
      var at :| IsValueOf(link, calls, cfg.metrics, i, snapshot, at);
      LabelledShows(link, calls, cfg, m, global, snapshot[m.name].value, at);
      var j := EntryFor(shown, snapshot, base, m.name);
    }
    var log := before + [Event.Read(entries, io)] + [Event.Publish(snapshot)];
    forall j | 0 <= j < |shown|
      ensures Publishable(cfg.metrics, shown[j].name)
      ensures (forall name :: ErrorsOf(cfg.metrics, log, name) == 0) ==> Configured(cfg.metrics, shown[j].name)
    {
      EntryIsKey(shown, snapshot, base, j);
      OnlyPublishable(cfg.metrics, log, snapshot, shown[j].name);
    }
  }

  /**
   Whatever a task went through before, once a read of a fault-free device is published the
   store shows each metric's own reading of this very read, in exactly one entry. All
   other entries are error counters of configured metrics, and there are none if no error
   was ever counted.
   */
  lemma {:induction false} EveryCycle(task: Collector.CollectorTask, link: Link, calls: seq<Call>, before: seq<Event>,
      entries: seq<ReadEntry>, io: nat, snapshot: Cache)
    requires task.Inv() && NoClash(task.cfg.metrics)
    requires task.log == before + [Event.Read(entries, io)] + [Event.Publish(snapshot)]
    requires Sound(link, task.cfg.metrics) && OneRead(link, calls, task.cfg.metrics, entries)
    ensures var shown := task.store.MetricsFor(task.cfg.name);
      && (forall j, k | 0 <= j < k < |shown| :: shown[j].name != shown[k].name)
      && (forall i | 0 <= i < |task.cfg.metrics| ::
            IsShown(shown, link, calls, task.cfg, task.cfg.metrics[i], task.globalLabels))
      && (forall j | 0 <= j < |shown| :: Publishable(task.cfg.metrics, shown[j].name))
      && ((forall name :: ErrorsOf(task.cfg.metrics, task.log, name) == 0) ==> |shown| == |task.cfg.metrics|)
  {
    hide Collector.CollectorTask.Inv, OneRead, BaseLabels, IsShown, Publishable, NoClash, Faithful, IsMerge, ErrorsOf;
    hide Lists, AllLabelled, Store.MetricsFor, Consistent, FaultFree, Readable, Configured;
    var cfg, shown := task.cfg, task.store.MetricsFor(task.cfg.name);
    JustStored(task, before + [Event.Read(entries, io)], snapshot);
    JustPublished(task, before + [Event.Read(entries, io)], snapshot);
    EntriesAreDistinct(shown, snapshot, BaseLabels(cfg.name, task.globalLabels, cfg.labels));
    PublishedEntries(link, calls, cfg, task.globalLabels, before, entries, io, snapshot, shown);
    if forall name :: ErrorsOf(cfg.metrics, task.log, name) == 0 {
      OneEntryEach(shown, link, calls, cfg, task.globalLabels);
    }
  }

  // ----- a case in which all this holds -----

  /** The entries of a batch over distinctly named metrics, in input order. */
  ghost function EntriesOf(metrics: seq<MetricConfig>, slots: seq<Option<Outcome>>): seq<ReadEntry>
    requires |slots| == |metrics| && forall i | 0 <= i < |slots| :: slots[i].Some?
  {
    seq(|metrics|, i requires 0 <= i < |metrics| => ReadEntry(metrics[i].name, slots[i].value, true, 0))
  }

  /** Over any register bank without faults, for any readable and distinctly named metrics, a sound read exists. */
  lemma {:induction false} SoundReadExists(bank: (nat, RegisterType, int) -> u16, calls: seq<Call>, metrics: seq<MetricConfig>)
    requires DistinctNames(metrics) && forall i | 0 <= i < |metrics| :: Readable(metrics[i])
    ensures var link := Link(BankDevice(bank, (n, kind, addr) => false), true);
      Sound(link, metrics) && exists entries :: OneRead(link, calls, metrics, entries)
  {
    hide Batch, FaultFree, Consistent, BankDevice, ByName, Answered;
    var link := Link(BankDevice(bank, (n, kind, addr) => false), true);
    BankIsFaultFree(bank);
    BankIsConsistent(bank, (n, kind, addr) => false);
    var slots := Batch(link, calls, metrics).slots;
    forall i | 0 <= i < |slots| ensures slots[i].Some? {
      EverySlotFilled(link, calls, metrics, i);
    }
    var batch := seq(|metrics|, i requires 0 <= i < |metrics| => (metrics[i], slots[i].value));
    var entries := EntriesOf(metrics, slots);
    ByNameIsResult(metrics, slots, batch);
    forall k | 0 <= k < |entries|
      ensures entries[k].name in ByName(batch) && entries[k].result == ByName(batch)[entries[k].name]
    {
      assert LastOfItsName(metrics, k);
    }
    forall name | name in ByName(batch) ensures exists k | 0 <= k < |entries| :: entries[k].name == name {
      var k :| 0 <= k < |metrics| && metrics[k].name == name;
      assert entries[k].name == name;
    }
    assert Yields(entries, ByName(batch));
    assert OneRead(link, calls, metrics, entries);
  }
}
