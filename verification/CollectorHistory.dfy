/**
 What a published snapshot and the counters have to be, told by the log alone, and why one
 cycle keeps them so (src/collector.rs:247-367).
 */
module CollectorHistory {
  import opened Wrappers
  import opened Domain
  import opened MetricStore
  import opened BatchRead
  import opened CollectorLog
  import opened CollectorCycle

  // ----- one read result, by name -----

  /** The latest successful value of `name` in a read result. */
  function LastOk(entries: seq<ReadEntry>, name: string): Option<Number> {
    if entries == [] then None
    else
      var e := entries[|entries| - 1];
      if e.name == name && e.result.Ok? then Some(e.result.value.scaled)
      else LastOk(entries[..|entries| - 1], name)
  }

  /** The moment of that value. */
  function LastMoment(entries: seq<ReadEntry>, name: string): nat {
    if entries == [] then 0
    else
      var e := entries[|entries| - 1];
      if e.name == name && e.result.Ok? then e.at else LastMoment(entries[..|entries| - 1], name)
  }

  /** The failures up to and including the one that aborts the cycle. */
  function FailuresIn(metrics: seq<MetricConfig>, entries: seq<ReadEntry>): nat {
    if entries == [] then 0
    else
      var front, e := entries[..|entries| - 1], entries[|entries| - 1];
      FailuresIn(metrics, front) + if !LosesConnection(metrics, front) && Fails(metrics, e) then 1 else 0
  }

  /** The failures of one metric that do not abort the cycle. */
  function ErrorsIn(metrics: seq<MetricConfig>, entries: seq<ReadEntry>, name: string): nat {
    if entries == [] then 0
    else
      var front, e := entries[..|entries| - 1], entries[|entries| - 1];
      ErrorsIn(metrics, front, name) +
      if !LosesConnection(metrics, front) && Fails(metrics, e) && e.online && e.name == name then 1 else 0
  }

  // ----- the whole log -----

  /** The value of `name` from its latest success in a cycle that was published. */
  function LastGood(log: seq<Event>, name: string): Option<Number> {
    if log == [] then None
    else
      var n := |log| - 1;
      if log[n].Publish? && n > 0 && log[n - 1].Read? && LastOk(log[n - 1].entries, name).Some?
      then LastOk(log[n - 1].entries, name)
      else LastGood(log[..n], name)
  }

  /** The errors counted for `name` so far, those of aborted cycles included. */
  function ErrorsOf(metrics: seq<MetricConfig>, log: seq<Event>, name: string): nat {
    if log == [] then 0
    else
      var e := log[|log| - 1];
      ErrorsOf(metrics, log[..|log| - 1], name) + if e.Read? then ErrorsIn(metrics, e.entries, name) else 0
  }

  /** No configured name is another configured name plus `_errors`. */
  predicate NoClash(metrics: seq<MetricConfig>) {
    forall i, j | 0 <= i < |metrics| && 0 <= j < |metrics| :: metrics[i].name != ErrorName(metrics[j].name)
  }

  lemma {:induction false} NoClashNames(metrics: seq<MetricConfig>, a: string, b: string)
    requires NoClash(metrics) && Configured(metrics, a) && Configured(metrics, b)
    ensures a != ErrorName(b)
  {
  }

  /** A configured metric, or the error counter of one. */
  predicate Publishable(metrics: seq<MetricConfig>, k: string) {
    Configured(metrics, k) || (k == ErrorName(BaseName(k)) && Configured(metrics, BaseName(k)))
  }

  /** The cache, as a function of the log, up to the counters of errors since the last publish. */
  ghost predicate CacheAgrees(metrics: seq<MetricConfig>, log: seq<Event>, cache: Cache) {
    && KeyedByName(cache)
    && (forall k | k in cache :: Publishable(metrics, k))
    && (forall name | Configured(metrics, name) :: AgreesOn(metrics, log, cache, name))
  }

  ghost predicate AgreesOn(metrics: seq<MetricConfig>, log: seq<Event>, cache: Cache, name: string)
    requires Configured(metrics, name)
  {
    var key := ErrorName(name);
    && (name in cache <==> LastGood(log, name).Some?)
    && (name in cache ==>
          cache[name] == ValueOf(FindMetric(metrics, name).value, LastGood(log, name).value, cache[name].updatedAt))
    && (key in cache ==> ErrorsOf(metrics, log, name) > 0 && IsCounter(cache[key], name))
  }

  predicate IsCounter(v: MetricValue, name: string) {
    && v.metricType == Counter && v.labels == map[] && v.unit == ""
    && v.description == "Error count for metric " + name
  }

  /** A snapshot, as a function of the log that ends with its publication. */
  ghost predicate Faithful(metrics: seq<MetricConfig>, log: seq<Event>, snapshot: Cache) {
    && CacheAgrees(metrics, log, snapshot)
    && forall name | Configured(metrics, name) :: CountsShown(metrics, log, snapshot, name)
  }

  ghost predicate CountsShown(metrics: seq<MetricConfig>, log: seq<Event>, snapshot: Cache, name: string) {
    var key := ErrorName(name);
    && (key in snapshot <==> ErrorsOf(metrics, log, name) > 0)
    && (key in snapshot ==> snapshot[key].value == Whole(ErrorsOf(metrics, log, name)))
  }

  ghost predicate ErrorsAgree(metrics: seq<MetricConfig>, log: seq<Event>, errors: ErrorCounts) {
    forall name :: (name in errors <==> ErrorsOf(metrics, log, name) > 0) && CountOf(errors, name) == ErrorsOf(metrics, log, name)
  }

  /** The latest snapshot published by a log. */
  function LastSnapshot(log: seq<Event>): Option<Cache> {
    if log == [] then None
    else if log[|log| - 1].Publish? then Some(log[|log| - 1].snapshot)
    else LastSnapshot(log[..|log| - 1])
  }

  lemma {:induction false} LastSnapshotSnoc(log: seq<Event>, e: Event)
    ensures LastSnapshot(log + [e]) == if e.Publish? then Some(e.snapshot) else LastSnapshot(log)
  {
    assert (log + [e])[..|log|] == log;
  }

  /** What is shown before anything is published is nothing. */
  function Shown(log: seq<Event>): Cache {
    match LastSnapshot(log)
    case Some(s) => s
    case None => map[]
  }

  // ----- what the entry loop adds up to -----

  lemma {:induction false} AbsorbedTotals(metrics: seq<MetricConfig>, errors: ErrorCounts, entries: seq<ReadEntry>)
    ensures var t := Absorbed(metrics, Tally(map[], errors, 0, false, false), entries);
      && t.lost == LosesConnection(metrics, entries)
      && t.failed == FailuresIn(metrics, entries)
      && (t.hadError <==> t.failed > 0)
  {
    if entries != [] { AbsorbedTotals(metrics, errors, entries[..|entries| - 1]); }
  }

  lemma {:induction false} AbsorbedErrors(metrics: seq<MetricConfig>, errors: ErrorCounts, entries: seq<ReadEntry>, name: string)
    ensures var t := Absorbed(metrics, Tally(map[], errors, 0, false, false), entries);
      && CountOf(t.errors, name) == CountOf(errors, name) + ErrorsIn(metrics, entries, name)
      && (name in t.errors <==> name in errors || ErrorsIn(metrics, entries, name) > 0)
  {
    if entries != [] {
      AbsorbedErrors(metrics, errors, entries[..|entries| - 1], name);
      AbsorbedTotals(metrics, errors, entries[..|entries| - 1]);
    }
  }

  lemma {:induction false} AbsorbedLocal(metrics: seq<MetricConfig>, errors: ErrorCounts, entries: seq<ReadEntry>, name: string)
    requires !LosesConnection(metrics, entries)
    ensures var t := Absorbed(metrics, Tally(map[], errors, 0, false, false), entries);
      && (name in t.local <==> Configured(metrics, name) && LastOk(entries, name).Some?)
      && (name in t.local ==>
            t.local[name] == ValueOf(FindMetric(metrics, name).value, LastOk(entries, name).value, LastMoment(entries, name)))
  {
    if entries != [] {
      AbsorbedLocal(metrics, errors, entries[..|entries| - 1], name);
      AbsorbedTotals(metrics, errors, entries[..|entries| - 1]);
    }
  }

  lemma {:induction false} OnlyConfiguredErrors(metrics: seq<MetricConfig>, entries: seq<ReadEntry>, name: string)
    ensures ErrorsIn(metrics, entries, name) > 0 ==> Configured(metrics, name)
  {
    if entries != [] { OnlyConfiguredErrors(metrics, entries[..|entries| - 1], name); }
  }

  lemma {:induction false} OnlyConfiguredCounts(metrics: seq<MetricConfig>, log: seq<Event>, name: string)
    ensures ErrorsOf(metrics, log, name) > 0 ==> Configured(metrics, name)
  {
    if log != [] {
      OnlyConfiguredCounts(metrics, log[..|log| - 1], name);
      if log[|log| - 1].Read? { OnlyConfiguredErrors(metrics, log[|log| - 1].entries, name); }
    }
  }

  // ----- how the log functions grow -----

  lemma {:induction false} LastGoodSnoc(log: seq<Event>, e: Event, name: string)
    ensures !e.Publish? ==> LastGood(log + [e], name) == LastGood(log, name)
    ensures e.Publish? && log != [] && log[|log| - 1].Read? ==>
      LastGood(log + [e], name) ==
        if LastOk(log[|log| - 1].entries, name).Some? then LastOk(log[|log| - 1].entries, name) else LastGood(log, name)
  {
    assert (log + [e])[..|log|] == log;
  }

  lemma {:induction false} ErrorsOfSnoc(metrics: seq<MetricConfig>, log: seq<Event>, e: Event, name: string)
    ensures ErrorsOf(metrics, log + [e], name)
         == ErrorsOf(metrics, log, name) + if e.Read? then ErrorsIn(metrics, e.entries, name) else 0
  {
    assert (log + [e])[..|log|] == log;
  }

  /** Events other than a publication leave an agreeing cache agreeing. */
  lemma {:induction false} CacheStillAgrees(metrics: seq<MetricConfig>, log: seq<Event>, e: Event, cache: Cache)
    requires CacheAgrees(metrics, log, cache) && !e.Publish?
    ensures CacheAgrees(metrics, log + [e], cache)
  {
    hide LastGood, ErrorsOf, FindMetric;
    forall name | Configured(metrics, name) ensures AgreesOn(metrics, log + [e], cache, name) {
      assert AgreesOn(metrics, log, cache, name);
      LastGoodSnoc(log, e, name);
      ErrorsOfSnoc(metrics, log, e, name);
    }
  }

  lemma {:induction false} ErrorsStillAgree(metrics: seq<MetricConfig>, log: seq<Event>, e: Event, errors: ErrorCounts)
    requires ErrorsAgree(metrics, log, errors) && !e.Read?
    ensures ErrorsAgree(metrics, log + [e], errors)
  {
    hide ErrorsOf;
    forall name
      ensures ErrorsOf(metrics, log + [e], name) == ErrorsOf(metrics, log, name)
    {
      ErrorsOfSnoc(metrics, log, e, name);
    }
  }

  lemma {:induction false} ErrorsAfterRead(metrics: seq<MetricConfig>, log: seq<Event>, entries: seq<ReadEntry>, io: nat,
      errors: ErrorCounts)
    requires ErrorsAgree(metrics, log, errors)
    ensures ErrorsAgree(metrics, log + [Read(entries, io)], Absorbed(metrics, Tally(map[], errors, 0, false, false), entries).errors)
  {
    hide ErrorsOf, ErrorsIn, Absorbed;
    forall name
      ensures var after := Absorbed(metrics, Tally(map[], errors, 0, false, false), entries).errors;
        && CountOf(after, name) == ErrorsOf(metrics, log + [Read(entries, io)], name)
        && (name in after <==> ErrorsOf(metrics, log + [Read(entries, io)], name) > 0)
    {
      ErrorsOfSnoc(metrics, log, Read(entries, io), name);
      AbsorbedErrors(metrics, errors, entries, name);
    }
  }

  // ----- one published cycle -----

  /** What the end of a completed cycle publishes. */
  function Snapshot(metrics: seq<MetricConfig>, prev: Cache, errors: ErrorCounts, entries: seq<ReadEntry>, now: nat): Cache {
    var t := Absorbed(metrics, Tally(map[], errors, 0, false, false), entries);
    Merged(t.local, prev, t.errors, now)
  }

  lemma {:induction false} SnapshotAtName(metrics: seq<MetricConfig>, log: seq<Event>, prev: Cache, errors: ErrorCounts,
      entries: seq<ReadEntry>, io: nat, now: nat, name: string)
    requires NoClash(metrics) && Configured(metrics, name)
    requires CacheAgrees(metrics, log, prev) && ErrorsAgree(metrics, log, errors)
    requires !LosesConnection(metrics, entries)
    ensures var s := Snapshot(metrics, prev, errors, entries, now);
      var log' := log + [Read(entries, io)] + [Publish(s)];
      AgreesOn(metrics, log', s, name) && CountsShown(metrics, log', s, name)
  {
    hide LastGood, ErrorsOf, ErrorsIn, Absorbed, Merged, FindMetric, BaseName, LastOk;
    var t := Absorbed(metrics, Tally(map[], errors, 0, false, false), entries);
    var s := Snapshot(metrics, prev, errors, entries, now);
    var read := log + [Read(entries, io)];
    LastGoodSnoc(log, Read(entries, io), name);
    LastGoodSnoc(read, Publish(s), name);
    ErrorsOfSnoc(metrics, log, Read(entries, io), name);
    ErrorsOfSnoc(metrics, read, Publish(s), name);
    AbsorbedErrors(metrics, errors, entries, name);
    AbsorbedLocal(metrics, errors, entries, name);
    NotAnErrorName(metrics, log, entries, errors, name);
    MergedAt(t.local, prev, t.errors, now, name);
    BaseOfErrorName(name);
    ErrorNameNotLocal(metrics, errors, entries, name);
    MergedAt(t.local, prev, t.errors, now, ErrorName(name));
    assert AgreesOn(metrics, log, prev, name);
  }

  /** Without a clash a configured name is no error counter. */
  lemma {:induction false} NotAnErrorName(metrics: seq<MetricConfig>, log: seq<Event>, entries: seq<ReadEntry>,
      errors: ErrorCounts, name: string)
    requires NoClash(metrics) && Configured(metrics, name) && ErrorsAgree(metrics, log, errors)
    ensures !CountsErrors(Absorbed(metrics, Tally(map[], errors, 0, false, false), entries).errors, name)
  {
    hide Absorbed, FindMetric, NoClash;
    var base := BaseName(name);
    AbsorbedErrors(metrics, errors, entries, base);
    OnlyConfiguredErrors(metrics, entries, base);
    OnlyConfiguredCounts(metrics, log, base);
    if Configured(metrics, base) { NoClashNames(metrics, name, base); }
  }

  lemma {:induction false} ErrorNameNotLocal(metrics: seq<MetricConfig>, errors: ErrorCounts, entries: seq<ReadEntry>, name: string)
    requires NoClash(metrics) && Configured(metrics, name) && !LosesConnection(metrics, entries)
    ensures ErrorName(name) !in Absorbed(metrics, Tally(map[], errors, 0, false, false), entries).local
  {
    hide Absorbed, FindMetric, NoClash;
    AbsorbedLocal(metrics, errors, entries, ErrorName(name));
    if Configured(metrics, ErrorName(name)) { NoClashNames(metrics, ErrorName(name), name); }
  }

  lemma {:induction false} SnapshotKeys(metrics: seq<MetricConfig>, log: seq<Event>, prev: Cache, errors: ErrorCounts,
      entries: seq<ReadEntry>, now: nat, k: string)
    requires CacheAgrees(metrics, log, prev) && ErrorsAgree(metrics, log, errors)
    requires !LosesConnection(metrics, entries)
    requires k in Snapshot(metrics, prev, errors, entries, now)
    ensures Publishable(metrics, k)
    ensures Snapshot(metrics, prev, errors, entries, now)[k].name == k
  {
    hide Absorbed, FindMetric, LastOk;
    var t := Absorbed(metrics, Tally(map[], errors, 0, false, false), entries);
    MergedAt(t.local, prev, t.errors, now, k);
    AbsorbedLocal(metrics, errors, entries, k);
    AbsorbedErrors(metrics, errors, entries, BaseName(k));
    OnlyConfiguredErrors(metrics, entries, BaseName(k));
    OnlyConfiguredCounts(metrics, log, BaseName(k));
  }

  /** A completed cycle publishes exactly what the log says. */
  lemma {:induction false} SnapshotIsFaithful(metrics: seq<MetricConfig>, log: seq<Event>, prev: Cache, errors: ErrorCounts,
      entries: seq<ReadEntry>, io: nat, now: nat)
    requires NoClash(metrics)
    requires CacheAgrees(metrics, log, prev) && ErrorsAgree(metrics, log, errors)
    requires !LosesConnection(metrics, entries)
    ensures var s := Snapshot(metrics, prev, errors, entries, now);
      Faithful(metrics, log + [Read(entries, io)] + [Publish(s)], s)
  {
    hide AgreesOn, CountsShown, FindMetric, Snapshot, CacheAgrees, ErrorsAgree, BaseName, Configured, Publishable;
    var s := Snapshot(metrics, prev, errors, entries, now);
    var log' := log + [Read(entries, io)] + [Publish(s)];
    forall name | Configured(metrics, name)
      ensures AgreesOn(metrics, log', s, name) && CountsShown(metrics, log', s, name)
    {
      SnapshotAtName(metrics, log, prev, errors, entries, io, now, name);
    }
    forall k | k in s ensures Publishable(metrics, k) && s[k].name == k {
      SnapshotKeys(metrics, log, prev, errors, entries, now, k);
    }
    AgreesFrom(metrics, log', s);
  }

  lemma {:induction false} AgreesFrom(metrics: seq<MetricConfig>, log: seq<Event>, cache: Cache)
    requires forall k | k in cache :: Publishable(metrics, k) && cache[k].name == k
    requires forall name | Configured(metrics, name) :: AgreesOn(metrics, log, cache, name)
    ensures CacheAgrees(metrics, log, cache)
  {
    hide AgreesOn, Configured, BaseName, Publishable;
  }

  lemma {:induction false} AbsorbedIsKeyed(metrics: seq<MetricConfig>, errors: ErrorCounts, entries: seq<ReadEntry>)
    ensures KeyedByName(Absorbed(metrics, Tally(map[], errors, 0, false, false), entries).local)
  {
    if entries != [] { AbsorbedIsKeyed(metrics, errors, entries[..|entries| - 1]); }
  }

  lemma {:induction false} SnapshotIsKeyed(metrics: seq<MetricConfig>, prev: Cache, errors: ErrorCounts,
      entries: seq<ReadEntry>, now: nat)
    requires KeyedByName(prev)
    ensures KeyedByName(Snapshot(metrics, prev, errors, entries, now))
  {
    hide Absorbed;
    var t := Absorbed(metrics, Tally(map[], errors, 0, false, false), entries);
    AbsorbedIsKeyed(metrics, errors, entries);
    forall k | k in Snapshot(metrics, prev, errors, entries, now)
      ensures Snapshot(metrics, prev, errors, entries, now)[k].name == k
    {
      MergedAt(t.local, prev, t.errors, now, k);
    }
  }

  /** Carrying forward drops no name, clash or not. */
  lemma {:induction false} SnapshotKeepsNames(metrics: seq<MetricConfig>, prev: Cache, errors: ErrorCounts,
      entries: seq<ReadEntry>, now: nat)
    ensures prev.Keys <= Snapshot(metrics, prev, errors, entries, now).Keys
  {
    hide Absorbed;
    var t := Absorbed(metrics, Tally(map[], errors, 0, false, false), entries);
    forall k | k in prev ensures k in Snapshot(metrics, prev, errors, entries, now) {
      MergedAt(t.local, prev, t.errors, now, k);
    }
  }

  /** A fresh value carries the moment at which it was handled, a carried one the moment of the merge. */
  lemma {:induction false} SnapshotMoments(metrics: seq<MetricConfig>, prev: Cache, errors: ErrorCounts,
      entries: seq<ReadEntry>, now: nat, name: string)
    requires !LosesConnection(metrics, entries) && Configured(metrics, name)
    requires !CountsErrors(Absorbed(metrics, Tally(map[], errors, 0, false, false), entries).errors, name)
    ensures var s := Snapshot(metrics, prev, errors, entries, now);
      name in s ==>
        if LastOk(entries, name).Some? then s[name].updatedAt == LastMoment(entries, name)
        else name in prev && s[name] == prev[name].(updatedAt := now)
  {
    hide Absorbed, FindMetric, LastOk, LosesConnection, LastMoment, CountsErrors;
    var t := Absorbed(metrics, Tally(map[], errors, 0, false, false), entries);
    AbsorbedLocal(metrics, errors, entries, name);
    MergedAt(t.local, prev, t.errors, now, name);
  }

  /**
   Exactly when the cycle's own value is published under its name: no error counter of that
   name, or one that happens to show the same number. A metric `m` and another `m_errors`
   thus clash from the first failure of `m` on.
   */
  lemma {:induction false} ClashExactly(metrics: seq<MetricConfig>, prev: Cache, errors: ErrorCounts,
      entries: seq<ReadEntry>, now: nat, name: string)
    requires !LosesConnection(metrics, entries)
    requires Configured(metrics, name) && LastOk(entries, name).Some?
    ensures var s := Snapshot(metrics, prev, errors, entries, now);
      var after := Absorbed(metrics, Tally(map[], errors, 0, false, false), entries).errors;
      && name in s
      && (s[name].value == LastOk(entries, name).value
          <==> (CountsErrors(after, name) ==> LastOk(entries, name).value == Whole(after[BaseName(name)])))
  {
    hide Absorbed, FindMetric, LastOk, BaseName;
    var t := Absorbed(metrics, Tally(map[], errors, 0, false, false), entries);
    AbsorbedLocal(metrics, errors, entries, name);
    MergedAt(t.local, prev, t.errors, now, name);
    MergedAt(t.local, prev, t.errors, now, ErrorName(BaseName(name)));
  }

  /** A collector's first snapshot is faithful, if its read keeps the connection. */
  ghost predicate FirstIsFaithful(metrics: seq<MetricConfig>, entries: seq<ReadEntry>, io: nat, now: nat) {
    var s := Snapshot(metrics, map[], map[], entries, now);
    !LosesConnection(metrics, entries) ==> Faithful(metrics, [] + [Read(entries, io)] + [Publish(s)], s)
  }

  /** One read in which `base` fails and the metric named as its error counter has the value `v`. */
  function ClashingRead(base: string, v: Number): seq<ReadEntry> {
    [ReadEntry(base, Err(EmptyResponse), true, 0), ReadEntry(ErrorName(base), Ok(Reading(v, v)), true, 0)]
  }

  lemma {:induction false} AbsorbTwo(metrics: seq<MetricConfig>, t: Tally, a: ReadEntry, b: ReadEntry)
    ensures Absorbed(metrics, t, [a, b]) == Absorb(metrics, Absorb(metrics, t, a), b)
  {
    hide Absorb;
    assert [a, b][..1] == [a] && [a][..0] == [];
    assert Absorbed(metrics, t, [a]) == Absorb(metrics, t, a);
  }

  lemma {:induction false} ClashingTally(metrics: seq<MetricConfig>, base: string, v: Number)
    requires Configured(metrics, base) && Configured(metrics, ErrorName(base))
    ensures var t := Absorbed(metrics, Tally(map[], map[], 0, false, false), ClashingRead(base, v));
      !t.lost && t.errors == map[base := 1]
  {
    hide FindMetric, Absorbed;
    var entries := ClashingRead(base, v);
    AbsorbTwo(metrics, Tally(map[], map[], 0, false, false), entries[0], entries[1]);
  }

  /** Such a read succeeds for `base_errors`, and 1 is published under that name. */
  lemma {:induction false} ClashShows(metrics: seq<MetricConfig>, base: string, v: Number, now: nat)
    requires Configured(metrics, base) && Configured(metrics, ErrorName(base))
    ensures var entries := ClashingRead(base, v);
      var s := Snapshot(metrics, map[], map[], entries, now);
      && !LosesConnection(metrics, entries)
      && LastOk(entries, ErrorName(base)) == Some(v)
      && ErrorName(base) in s && s[ErrorName(base)].value == Whole(1)
  {
    hide Configured, Absorbed, LosesConnection;
    var entries := ClashingRead(base, v);
    var t := Absorbed(metrics, Tally(map[], map[], 0, false, false), entries);
    ClashingTally(metrics, base, v);
    AbsorbedTotals(metrics, map[], entries);
    BaseOfErrorName(base);
    MergedAt(t.local, map[], t.errors, now, ErrorName(base));
  }

  lemma {:induction false} FaithfulAt(metrics: seq<MetricConfig>, log: seq<Event>, s: Cache, name: string)
    requires Faithful(metrics, log, s) && Configured(metrics, name)
    ensures name in s <==> LastGood(log, name).Some?
    ensures name in s ==> s[name].value == LastGood(log, name).value
  {
    hide LastGood, FindMetric, Configured;
    assert AgreesOn(metrics, log, s, name);
  }

  lemma {:induction false} ClashIsUnfaithful(metrics: seq<MetricConfig>, base: string)
    requires Configured(metrics, base) && Configured(metrics, ErrorName(base))
    ensures !FirstIsFaithful(metrics, ClashingRead(base, Float64(0)), 0, 0)
  {
    hide Configured, LosesConnection, LastOk, Snapshot, ClashingRead, Faithful, LastGood;
    var entries, name := ClashingRead(base, Float64(0)), ErrorName(base);
    var s := Snapshot(metrics, map[], map[], entries, 0);
    ClashShows(metrics, base, Float64(0), 0);
    var log := [] + [Read(entries, 0)];
    LastGoodSnoc(log, Publish(s), name);
    if Faithful(metrics, log + [Publish(s)], s) {
      FaithfulAt(metrics, log + [Publish(s)], s, name);
      assert false;
    }
  }

  /**
   The configured names decide it: snapshots can be trusted exactly if no configured name is
   another one plus `_errors`. Otherwise already the first snapshot can be wrong.
   */
  lemma {:induction false} NoClashExactly(metrics: seq<MetricConfig>)
    ensures NoClash(metrics)
       <==> forall entries: seq<ReadEntry>, io: nat, now: nat :: FirstIsFaithful(metrics, entries, io, now)
  {
    hide FirstIsFaithful, Configured, FindMetric;
    if NoClash(metrics) {
      forall entries: seq<ReadEntry>, io: nat, now: nat ensures FirstIsFaithful(metrics, entries, io, now) {
        FirstSnapshotIsFaithful(metrics, entries, io, now);
      }
    } else {
      var i, j :| 0 <= i < |metrics| && 0 <= j < |metrics| && metrics[i].name == ErrorName(metrics[j].name);
      IsConfigured(metrics, i);
      IsConfigured(metrics, j);
      ClashIsUnfaithful(metrics, metrics[j].name);
    }
  }

  lemma {:induction false} IsConfigured(metrics: seq<MetricConfig>, i: nat)
    requires i < |metrics|
    ensures Configured(metrics, metrics[i].name)
  {
  }

  lemma {:induction false} FirstSnapshotIsFaithful(metrics: seq<MetricConfig>, entries: seq<ReadEntry>, io: nat, now: nat)
    requires NoClash(metrics)
    ensures FirstIsFaithful(metrics, entries, io, now)
  {
    hide Faithful, Snapshot, LosesConnection, NoClash;
    NothingAgrees(metrics);
    if !LosesConnection(metrics, entries) {
      SnapshotIsFaithful(metrics, [], map[], map[], entries, io, now);
    }
  }

  lemma {:induction false} NothingAgrees(metrics: seq<MetricConfig>)
    ensures CacheAgrees(metrics, [], map[]) && ErrorsAgree(metrics, [], map[])
  {
  }

  /** A metric that reads 7 is published as 1. */
  lemma {:induction false} SevenIsPublishedAsOne(m: MetricConfig, other: MetricConfig, now: nat)
    requires m.name == "m" && other.name == "m_errors"
    ensures var entries := [ReadEntry("m", Err(EmptyResponse), true, 0), ReadEntry("m_errors", Ok(Reading(Whole(7), Whole(7))), true, 0)];
      var s := Snapshot([m, other], map[], map[], entries, now);
      && !LosesConnection([m, other], entries)
      && "m_errors" in s && s["m_errors"].value == Whole(1)
  {
    hide Configured, FindMetric, Snapshot, LosesConnection;
    assert ErrorName("m") == "m_errors";
    IsConfigured([m, other], 0);
    IsConfigured([m, other], 1);
    ClashShows([m, other], "m", Whole(7), now);
  }

  // ----- every snapshot of a run -----

  ghost predicate EverySnapshotFaithful(metrics: seq<MetricConfig>, log: seq<Event>) {
    forall p | 0 <= p < |log| && log[p].Publish? :: Faithful(metrics, log[..p + 1], log[p].snapshot)
  }

  lemma {:induction false} SnapshotsSnoc(metrics: seq<MetricConfig>, log: seq<Event>, e: Event)
    requires EverySnapshotFaithful(metrics, log)
    requires e.Publish? ==> Faithful(metrics, log + [e], e.snapshot)
    ensures EverySnapshotFaithful(metrics, log + [e])
  {
    hide Faithful;
    var longer := log + [e];
    forall p | 0 <= p < |longer| && longer[p].Publish?
      ensures Faithful(metrics, longer[..p + 1], longer[p].snapshot)
    {
      if p < |log| { assert longer[..p + 1] == log[..p + 1]; } else { assert longer[..p + 1] == longer; }
    }
  }

  /** `s` merges the read that ends the log with what was shown and with the errors counted until then. */
  ghost predicate MergedFrom(metrics: seq<MetricConfig>, log: seq<Event>, errors: ErrorCounts, now: nat, s: Cache) {
    && log != [] && log[|log| - 1].Read?
    && var before := log[..|log| - 1];
       && ErrorsAgree(metrics, before, errors)
       && s == Snapshot(metrics, Shown(before), errors, log[|log| - 1].entries, now)
  }

  ghost predicate IsMerge(metrics: seq<MetricConfig>, log: seq<Event>, s: Cache) {
    exists errors, now :: MergedFrom(metrics, log, errors, now, s)
  }

  /** Clash or not, every snapshot is the merge of its read. */
  ghost predicate EverySnapshotMerged(metrics: seq<MetricConfig>, log: seq<Event>) {
    forall p | 0 <= p < |log| && log[p].Publish? :: IsMerge(metrics, log[..p], log[p].snapshot)
  }

  lemma {:induction false} MergedSnoc(metrics: seq<MetricConfig>, log: seq<Event>, e: Event)
    requires EverySnapshotMerged(metrics, log)
    requires e.Publish? ==> IsMerge(metrics, log, e.snapshot)
    ensures EverySnapshotMerged(metrics, log + [e])
  {
    hide IsMerge;
    var longer := log + [e];
    forall p | 0 <= p < |longer| && longer[p].Publish? ensures IsMerge(metrics, longer[..p], longer[p].snapshot) {
      if p < |log| { assert longer[..p] == log[..p]; } else { assert longer[..p] == log; }
    }
  }

  lemma {:induction false} JustMerged(metrics: seq<MetricConfig>, before: seq<Event>, errors: ErrorCounts,
      entries: seq<ReadEntry>, io: nat, now: nat)
    requires ErrorsAgree(metrics, before, errors)
    ensures IsMerge(metrics, before + [Read(entries, io)], Snapshot(metrics, Shown(before), errors, entries, now))
  {
    hide ErrorsAgree, Snapshot, Shown;
    var log := before + [Read(entries, io)];
    assert log[..|log| - 1] == before;
    assert MergedFrom(metrics, log, errors, now, Snapshot(metrics, Shown(before), errors, entries, now));
  }

  /** The names of every snapshot so far are among `names`, and each snapshot keeps those before it. */
  ghost predicate NamesKept(log: seq<Event>, names: set<string>) {
    && (forall p | 0 <= p < |log| && log[p].Publish? :: log[p].snapshot.Keys <= names)
    && (forall p, q | 0 <= p < q < |log| && log[p].Publish? && log[q].Publish? ::
          log[p].snapshot.Keys <= log[q].snapshot.Keys)
  }

  lemma {:induction false} NamesKeptSnoc(log: seq<Event>, names: set<string>, e: Event)
    requires NamesKept(log, names)
    requires e.Publish? ==> names <= e.snapshot.Keys
    ensures NamesKept(log + [e], if e.Publish? then e.snapshot.Keys else names)
  {
  }

  lemma {:induction false} ErrorsOnlyGrow(metrics: seq<MetricConfig>, log: seq<Event>, p: nat, q: nat, name: string)
    requires p <= q <= |log|
    ensures ErrorsOf(metrics, log[..p], name) <= ErrorsOf(metrics, log[..q], name)
  {
    if p < q {
      assert log[..q][..q - 1] == log[..q - 1];
      ErrorsOnlyGrow(metrics, log, p, q - 1, name);
    }
  }

  /** A published error count never disappears and never decreases. */
  lemma {:induction false} ErrorCountsNeverDecrease(metrics: seq<MetricConfig>, log: seq<Event>, p: nat, q: nat, name: string)
    requires EverySnapshotFaithful(metrics, log) && Configured(metrics, name)
    requires p < q < |log| && log[p].Publish? && log[q].Publish?
    requires ErrorName(name) in log[p].snapshot
    ensures ErrorName(name) in log[q].snapshot
    ensures exists a: nat, b: nat | a <= b ::
      log[p].snapshot[ErrorName(name)].value == Whole(a) && log[q].snapshot[ErrorName(name)].value == Whole(b)
  {
    hide CacheAgrees;
    assert Faithful(metrics, log[..p + 1], log[p].snapshot);
    assert CountsShown(metrics, log[..p + 1], log[p].snapshot, name);
    assert Faithful(metrics, log[..q + 1], log[q].snapshot);
    assert CountsShown(metrics, log[..q + 1], log[q].snapshot, name);
    ErrorsOnlyGrow(metrics, log, p + 1, q + 1, name);
  }

  lemma {:induction false} LastGoodUntilPublish(log: seq<Event>, more: seq<Event>, name: string)
    requires forall i | 0 <= i < |more| :: !more[i].Publish?
    ensures LastGood(log + more, name) == LastGood(log, name)
  {
    if more == [] {
      assert log + more == log;
    } else {
      var front := more[..|more| - 1];
      assert log + more == (log + front) + [more[|more| - 1]];
      LastGoodSnoc(log + front, more[|more| - 1], name);
      LastGoodUntilPublish(log, front, name);
    }
  }

  lemma {:induction false} LostReadIsIgnored(cfg: CollectorConfig, stopAt: nat, log: seq<Event>, i: nat, other: Event, name: string)
    requires Obeys(cfg, stopAt, log) && i < |log| && log[i].Read? && other.Read?
    requires LosesConnection(cfg.metrics, log[i].entries)
    ensures LastGood(log[i := other], name) == LastGood(log, name)
  {
    hide Obeys, LosesConnection, LastOk, LastGood;
    var n, changed := |log| - 1, log[i := other];
    var front, e := log[..n], log[n];
    assert log == front + [e] && changed == changed[..n] + [changed[n]];
    LastGoodSnoc(front, e, name);
    LastGoodSnoc(changed[..n], changed[n], name);
    if i == n {
      assert changed[..n] == front;
    } else {
      assert changed[..n] == front[i := other];
      ObeysAt(cfg, stopAt, log, n);
      LostReadIsIgnored(cfg, stopAt, front, i, other, name);
      ReadsArePublished(cfg, stopAt, log, i);
      ReadsArePublished(cfg, stopAt, log, n);
    }
  }

  /**
   A read that loses its connection contributes to no snapshot, ever: whatever else it had
   returned, every snapshot of the run shows for each metric what it shows.
   */
  lemma {:induction false} AbortedReadsNeverShow(cfg: CollectorConfig, stopAt: nat, log: seq<Event>, i: nat, other: Event,
      p: nat, name: string)
    requires Obeys(cfg, stopAt, log) && EverySnapshotFaithful(cfg.metrics, log)
    requires i < |log| && log[i].Read? && LosesConnection(cfg.metrics, log[i].entries) && other.Read?
    requires p < |log| && log[p].Publish? && Configured(cfg.metrics, name)
    ensures var without := log[i := other];
      && (name in log[p].snapshot <==> LastGood(without[..p + 1], name).Some?)
      && (name in log[p].snapshot ==> log[p].snapshot[name].value == LastGood(without[..p + 1], name).value)
  {
    hide Obeys, LosesConnection, LastGood, Configured, Faithful;
    var prefix := log[..p + 1];
    FaithfulAt(cfg.metrics, prefix, log[p].snapshot, name);
    if i <= p {
      ObeysPrefix(cfg, stopAt, log, p + 1);
      assert log[i := other][..p + 1] == prefix[i := other];
      LostReadIsIgnored(cfg, stopAt, prefix, i, other, name);
    } else {
      assert log[i := other][..p + 1] == prefix;
    }
  }

  lemma {:induction false} ObeysPrefix(cfg: CollectorConfig, stopAt: nat, log: seq<Event>, n: nat)
    requires Obeys(cfg, stopAt, log) && n <= |log|
    ensures Obeys(cfg, stopAt, log[..n])
  {
    hide Obeys;
    if n < |log| {
      ObeysAt(cfg, stopAt, log, n);
    } else {
      assert log[..n] == log;
    }
  }

  // ----- counters -----

  /** Running totals of a log: cycles started and closed, clean ones, failures, losses, bus calls. */
  datatype Totals = Totals(starts: nat, closed: nat, clean: nat, failures: nat, losses: nat, io: nat, cleanRead: bool)

  /** A cycle is closed by a failed pre_poll, by a read that loses the connection, or by a publication. */
  function Tallied(metrics: seq<MetricConfig>, t: Totals, e: Event): Totals {
    match e
    case CycleStart(_) => t.(starts := t.starts + 1)
    case PrePoll(ok) => if ok then t else t.(closed := t.closed + 1)
    case Read(entries, io) =>
      var loss := if LosesConnection(metrics, entries) then 1 else 0;
      t.(closed := t.closed + loss, losses := t.losses + loss, io := t.io + io,
         failures := t.failures + FailuresIn(metrics, entries), cleanRead := FailuresIn(metrics, entries) == 0)
    case Publish(_) => t.(closed := t.closed + 1, clean := t.clean + if t.cleanRead then 1 else 0)
    case _ => t
  }

  function TotalsOf(metrics: seq<MetricConfig>, log: seq<Event>): Totals {
    if log == [] then Totals(0, 0, 0, 0, 0, 0, false)
    else Tallied(metrics, TotalsOf(metrics, log[..|log| - 1]), log[|log| - 1])
  }

  lemma {:induction false} TotalsSnoc(metrics: seq<MetricConfig>, log: seq<Event>, e: Event)
    ensures TotalsOf(metrics, log + [e]) == Tallied(metrics, TotalsOf(metrics, log), e)
  {
    assert (log + [e])[..|log|] == log;
  }

  ghost function SumOf(m: ErrorCounts): nat {
    if m == map[] then 0 else var k :| k in m; m[k] + SumOf(m - {k})
  }

  lemma {:induction false} SumSplits(m: ErrorCounts, k: string)
    requires k in m
    ensures SumOf(m) == m[k] + SumOf(m - {k})
    decreases |m|
  {
    var x :| x in m && SumOf(m) == m[x] + SumOf(m - {x});
    if x != k {
      SumSplits(m - {x}, k);
      SumSplits(m - {k}, x);
      assert m - {x} - {k} == m - {k} - {x};
    }
  }

  lemma {:induction false} SumAfterCount(m: ErrorCounts, k: string)
    ensures SumOf(m[k := CountOf(m, k) + 1]) == SumOf(m) + 1
  {
    var after := m[k := CountOf(m, k) + 1];
    SumSplits(after, k);
    assert after - {k} == m - {k};
    if k in m {
      SumSplits(m, k);
    } else {
      assert m - {k} == m;
    }
  }

  lemma {:induction false} AbsorbShares(metrics: seq<MetricConfig>, t: Tally, e: ReadEntry)
    requires !t.lost
    ensures SumOf(Absorb(metrics, t, e).errors) + (if Absorb(metrics, t, e).lost then 1 else 0)
         == SumOf(t.errors) + if Fails(metrics, e) then 1 else 0
  {
    hide SumOf;
    SumAfterCount(t.errors, e.name);
  }

  /** Each failure is either counted for its metric or aborts the cycle. */
  lemma {:induction false} FailuresAreShared(metrics: seq<MetricConfig>, errors: ErrorCounts, entries: seq<ReadEntry>)
    ensures SumOf(Absorbed(metrics, Tally(map[], errors, 0, false, false), entries).errors)
              + (if LosesConnection(metrics, entries) then 1 else 0)
         == SumOf(errors) + FailuresIn(metrics, entries)
  {
    hide SumOf, FindMetric, Fails, Absorb;
    if entries != [] {
      var front, e := entries[..|entries| - 1], entries[|entries| - 1];
      var t := Absorbed(metrics, Tally(map[], errors, 0, false, false), front);
      FailuresAreShared(metrics, errors, front);
      AbsorbedTotals(metrics, errors, front);
      AbsorbedTotals(metrics, errors, entries);
      if t.lost {
        NothingAfterLoss(metrics, Tally(map[], errors, 0, false, false), entries, |front|);
      } else {
        AbsorbShares(metrics, t, e);
      }
    }
  }

  // ----- the books of a collector: its local state against its log -----

  ghost predicate Books(metrics: seq<MetricConfig>, log: seq<Event>, prev: Cache, errors: ErrorCounts) {
    && KeyedByName(prev)
    && ErrorsAgree(metrics, log, errors)
    && SumOf(errors) + TotalsOf(metrics, log).losses == TotalsOf(metrics, log).failures
    && NamesKept(log, prev.Keys)
    && prev == Shown(log) && EverySnapshotMerged(metrics, log)
    && (NoClash(metrics) ==> CacheAgrees(metrics, log, prev) && EverySnapshotFaithful(metrics, log))
  }

  lemma {:induction false} BooksStart(metrics: seq<MetricConfig>)
    ensures Books(metrics, [], map[], map[])
  {
  }

  lemma {:induction false} BooksQuiet(metrics: seq<MetricConfig>, log: seq<Event>, prev: Cache, errors: ErrorCounts, e: Event)
    requires Books(metrics, log, prev, errors) && !e.Read? && !e.Publish?
    ensures Books(metrics, log + [e], prev, errors)
  {
    hide ErrorsAgree, CacheAgrees, EverySnapshotFaithful, EverySnapshotMerged, NamesKept, LastSnapshot, SumOf, TotalsOf, NoClash;
    ErrorsStillAgree(metrics, log, e, errors);
    LastSnapshotSnoc(log, e);
    MergedSnoc(metrics, log, e);
    TotalsSnoc(metrics, log, e);
    NamesKeptSnoc(log, prev.Keys, e);
    if NoClash(metrics) {
      CacheStillAgrees(metrics, log, e, prev);
      SnapshotsSnoc(metrics, log, e);
    }
  }

  lemma {:induction false} BooksAfterRead(metrics: seq<MetricConfig>, log: seq<Event>, prev: Cache, errors: ErrorCounts,
      entries: seq<ReadEntry>, io: nat)
    requires Books(metrics, log, prev, errors)
    ensures Books(metrics, log + [Read(entries, io)], prev,
              Absorbed(metrics, Tally(map[], errors, 0, false, false), entries).errors)
  {
    hide ErrorsAgree, CacheAgrees, EverySnapshotFaithful, EverySnapshotMerged, NamesKept, LastSnapshot, SumOf, TotalsOf, NoClash, Absorbed;
    var e := Read(entries, io);
    ErrorsAfterRead(metrics, log, entries, io, errors);
    LastSnapshotSnoc(log, e);
    MergedSnoc(metrics, log, e);
    TotalsSnoc(metrics, log, e);
    FailuresAreShared(metrics, errors, entries);
    NamesKeptSnoc(log, prev.Keys, e);
    if NoClash(metrics) {
      CacheStillAgrees(metrics, log, e, prev);
      SnapshotsSnoc(metrics, log, e);
    }
  }

  lemma {:induction false} BooksAfterPublish(metrics: seq<MetricConfig>, log: seq<Event>, prev: Cache, errors: ErrorCounts,
      entries: seq<ReadEntry>, io: nat, now: nat)
    requires Books(metrics, log, prev, errors) && !LosesConnection(metrics, entries)
    ensures KeyedByName(Snapshot(metrics, prev, errors, entries, now))
    ensures var s := Snapshot(metrics, prev, errors, entries, now);
      Books(metrics, log + [Read(entries, io)] + [Publish(s)], s,
        Absorbed(metrics, Tally(map[], errors, 0, false, false), entries).errors)
  {
    hide ErrorsAgree, CacheAgrees, EverySnapshotFaithful, EverySnapshotMerged, NamesKept, LastSnapshot, SumOf, TotalsOf, NoClash, Absorbed, Snapshot, Faithful;
    var s := Snapshot(metrics, prev, errors, entries, now);
    var read := log + [Read(entries, io)];
    var after := Absorbed(metrics, Tally(map[], errors, 0, false, false), entries).errors;
    BooksAfterRead(metrics, log, prev, errors, entries, io);
    SnapshotIsKeyed(metrics, prev, errors, entries, now);
    ErrorsStillAgree(metrics, read, Publish(s), after);
    LastSnapshotSnoc(read, Publish(s));
    JustMerged(metrics, log, errors, entries, io, now);
    MergedSnoc(metrics, read, Publish(s));
    TotalsSnoc(metrics, read, Publish(s));
    SnapshotKeepsNames(metrics, prev, errors, entries, now);
    NamesKeptSnoc(read, prev.Keys, Publish(s));
    if NoClash(metrics) {
      SnapshotIsFaithful(metrics, log, prev, errors, entries, io, now);
      FaithfulAgrees(metrics, read + [Publish(s)], s);
      SnapshotsSnoc(metrics, read, Publish(s));
    }
  }

  lemma {:induction false} FaithfulAgrees(metrics: seq<MetricConfig>, log: seq<Event>, s: Cache)
    requires Faithful(metrics, log, s)
    ensures CacheAgrees(metrics, log, s)
  {
  }
}
