/** One poll cycle of a collector: handling a read result and merging it (src/collector.rs:247-287, 329-357). */
module CollectorCycle {
  import opened Wrappers
  import opened Domain
  import opened MetricStore
  import opened CollectorLog

  type Cache = map<string, MetricValue>
  type ErrorCounts = map<string, nat>

  function ValueOf(m: MetricConfig, value: Number, at: nat): MetricValue {
    MetricValue(m.name, value, m.metricType, map[], m.description, m.unit, at)
  }

  function CountOf(errors: ErrorCounts, name: string): nat {
    if name in errors then errors[name] else 0
  }

  // ----- handling the entries of one read -----

  datatype Tally = Tally(local: Cache, errors: ErrorCounts, failed: nat, lost: bool, hadError: bool)

  function Absorb(metrics: seq<MetricConfig>, t: Tally, e: ReadEntry): Tally {
    if t.lost then t
    else
      match FindMetric(metrics, e.name)
      case None => t
      case Some(m) =>
        if e.result.Ok? then
          t.(local := t.local[e.name := ValueOf(m, e.result.value.scaled, e.at)])
        else if !e.online then
          t.(failed := t.failed + 1, lost := true, hadError := true)
        else
          t.(failed := t.failed + 1, hadError := true, errors := t.errors[e.name := CountOf(t.errors, e.name) + 1])
  }

  function Absorbed(metrics: seq<MetricConfig>, t: Tally, entries: seq<ReadEntry>): Tally {
    if entries == [] then t
    else Absorb(metrics, Absorbed(metrics, t, entries[..|entries| - 1]), entries[|entries| - 1])
  }

  lemma {:induction false} NothingAfterLoss(metrics: seq<MetricConfig>, t: Tally, entries: seq<ReadEntry>, i: nat)
    requires i <= |entries| && Absorbed(metrics, t, entries[..i]).lost
    ensures Absorbed(metrics, t, entries) == Absorbed(metrics, t, entries[..i])
  {
    if i < |entries| {
      assert entries[..|entries| - 1][..i] == entries[..i];
      NothingAfterLoss(metrics, t, entries[..|entries| - 1], i);
    } else {
      assert entries[..i] == entries;
    }
  }

  /** The loop over a read result; it stops at the first failure that finds the connection gone. */
  method HandleResults(metrics: seq<MetricConfig>, entries: seq<ReadEntry>, errorCounts: ErrorCounts)
    returns (t: Tally)
    ensures t == Absorbed(metrics, Tally(map[], errorCounts, 0, false, false), entries)
  {
    t := Tally(map[], errorCounts, 0, false, false);
    ghost var t0 := t;
    for i := 0 to |entries|
      invariant t == Absorbed(metrics, t0, entries[..i])
      invariant !t.lost
    {
      var e := entries[i];
      assert entries[..i + 1][..i] == entries[..i];
      var found := FindMetric(metrics, e.name);
      if found.None? {
        continue;
      }
      match e.result {
        case Ok(reading) =>
          t := t.(local := t.local[e.name := ValueOf(found.value, reading.scaled, e.at)]);
        case Err(_) =>
          t := t.(failed := t.failed + 1, hadError := true);
          if !e.online {
            t := t.(lost := true);
            NothingAfterLoss(metrics, t0, entries, i + 1);
            return;
          }
          t := t.(errors := t.errors[e.name := CountOf(t.errors, e.name) + 1]);
      }
    }
    assert entries[..|entries|] == entries;
  }

  // ----- merging with the previous cache and the error counts -----

  function ErrorName(name: string): string {
    name + "_errors"
  }

  /** `k` without its last seven characters. */
  function BaseName(k: string): string {
    if |k| >= 7 then k[..|k| - 7] else k
  }

  lemma {:induction false} BaseOfErrorName(name: string)
    ensures BaseName(ErrorName(name)) == name
  {
  }

  /** `k` is the error counter of a metric with an error count. */
  predicate CountsErrors(errors: ErrorCounts, k: string) {
    BaseName(k) in errors && k == ErrorName(BaseName(k))
  }

  function CarryForward(local: Cache, prev: Cache, now: nat): Cache {
    map k | k in local.Keys + prev.Keys :: if k in local then local[k] else prev[k].(updatedAt := now)
  }

  function ErrorValue(name: string, count: nat, now: nat): MetricValue {
    MetricValue(ErrorName(name), Whole(count), Counter, map[], "Error count for metric " + name, "", now)
  }

  function Counted(cache: Cache, name: string, count: nat, now: nat): MetricValue {
    if ErrorName(name) in cache then cache[ErrorName(name)].(value := Whole(count), updatedAt := now)
    else ErrorValue(name, count, now)
  }

  function WithErrorCounts(cache: Cache, errors: ErrorCounts, now: nat): Cache {
    map k | k in cache.Keys + (set name | name in errors :: ErrorName(name)) ::
      if k in cache && !CountsErrors(errors, k) then cache[k]
      else Counted(cache, BaseName(k), CountOf(errors, BaseName(k)), now)
  }

  function Merged(local: Cache, prev: Cache, errors: ErrorCounts, now: nat): Cache {
    WithErrorCounts(CarryForward(local, prev, now), errors, now)
  }

  /** What a merged cache holds under each key. */
  lemma {:induction false} MergedAt(local: Cache, prev: Cache, errors: ErrorCounts, now: nat, k: string)
    ensures var cache := CarryForward(local, prev, now);
      if CountsErrors(errors, k) then
        k in Merged(local, prev, errors, now)
        && Merged(local, prev, errors, now)[k] == Counted(cache, BaseName(k), errors[BaseName(k)], now)
      else
        && (k in Merged(local, prev, errors, now) <==> k in local || k in prev)
        && (k in local ==> Merged(local, prev, errors, now)[k] == local[k])
        && (k !in local && k in prev ==> Merged(local, prev, errors, now)[k] == prev[k].(updatedAt := now))
  {
    if name :| name in errors && ErrorName(name) == k {
      BaseOfErrorName(name);
    }
  }

  function Without<T>(m: map<string, T>, rest: set<string>): map<string, T> {
    map k | k in m && k !in rest :: m[k]
  }

  lemma {:induction false} WithoutNext<T>(m: map<string, T>, rest: set<string>, k: string)
    requires rest <= m.Keys && k in rest
    ensures Without(m, rest - {k}) == Without(m, rest)[k := m[k]]
    ensures k !in Without(m, rest)
  {
  }

  /** The first merge loop, over the previous cache in the arbitrary order of a hash map. */
  method MergePrevious(localCache: Cache, prevCache: Cache, now: nat) returns (cache: Cache)
    ensures cache == CarryForward(localCache, prevCache, now)
  {
    cache := localCache;
    var rest := prevCache.Keys;
    while rest != {}
      invariant rest <= prevCache.Keys
      invariant cache == CarryForward(localCache, Without(prevCache, rest), now)
    {
      var name :| name in rest;
      WithoutNext(prevCache, rest, name);
      rest := rest - {name};
      if name !in cache {
        cache := cache[name := prevCache[name].(updatedAt := now)];
      }
    }
    assert Without(prevCache, {}) == prevCache;
  }

  /** The second merge loop, over the error counts. */
  method PublishErrorCounts(merged: Cache, errorCounts: ErrorCounts, now: nat) returns (cache: Cache)
    ensures cache == WithErrorCounts(merged, errorCounts, now)
  {
    hide WithErrorCounts, Without, BaseName, CountsErrors;
    cache := merged;
    var rest := errorCounts.Keys;
    NoErrorCounts(merged, errorCounts, now);
    while rest != {}
      invariant rest <= errorCounts.Keys
      invariant cache == WithErrorCounts(merged, Without(errorCounts, rest), now)
    {
      var name :| name in rest;
      WithoutNext(errorCounts, rest, name);
      OneMoreCount(merged, Without(errorCounts, rest), name, errorCounts[name], now);
      rest := rest - {name};
      var count, key := errorCounts[name], ErrorName(name);
      if key !in cache {
        cache := cache[key := ErrorValue(name, count, now)];
      }
      cache := cache[key := cache[key].(value := Whole(count), updatedAt := now)];
    }
  }

  lemma {:induction false} NoErrorCounts(cache: Cache, errors: ErrorCounts, now: nat)
    ensures WithErrorCounts(cache, Without(errors, errors.Keys), now) == cache
    ensures Without(errors, {}) == errors
  {
    assert Without(errors, errors.Keys) == map[];
  }

  lemma {:induction false} WithErrorCountsAt(cache: Cache, errors: ErrorCounts, now: nat, k: string)
    ensures k in WithErrorCounts(cache, errors, now) <==> k in cache || CountsErrors(errors, k)
    ensures k in WithErrorCounts(cache, errors, now) ==>
      WithErrorCounts(cache, errors, now)[k] ==
        if CountsErrors(errors, k) then Counted(cache, BaseName(k), CountOf(errors, BaseName(k)), now) else cache[k]
  {
    if n :| n in errors && ErrorName(n) == k {
      BaseOfErrorName(n);
    }
  }

  lemma {:induction false} OneMoreCount(cache: Cache, errors: ErrorCounts, name: string, count: nat, now: nat)
    requires name !in errors
    ensures WithErrorCounts(cache, errors[name := count], now)
         == WithErrorCounts(cache, errors, now)[ErrorName(name) := Counted(cache, name, count, now)]
    ensures ErrorName(name) in WithErrorCounts(cache, errors, now) <==> ErrorName(name) in cache
    ensures ErrorName(name) in cache ==> WithErrorCounts(cache, errors, now)[ErrorName(name)] == cache[ErrorName(name)]
  {
    hide WithErrorCounts, BaseName, ErrorName, Counted;
    BaseOfErrorName(name);
    WithErrorCountsAt(cache, errors, now, ErrorName(name));
    var a := WithErrorCounts(cache, errors[name := count], now);
    var b := WithErrorCounts(cache, errors, now)[ErrorName(name) := Counted(cache, name, count, now)];
    forall k ensures (k in a <==> k in b) && (k in a ==> a[k] == b[k]) {
      WithErrorCountsAt(cache, errors[name := count], now, k);
      WithErrorCountsAt(cache, errors, now, k);
    }
  }
}
