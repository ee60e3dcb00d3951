/**
 What one collector task does, as a log of events, and the connection protocol that the log
 has to follow (src/collector.rs:32-74, 104-398).
 */
module CollectorLog {
  import opened Wrappers
  import opened Domain
  import opened BatchRead

  /** One entry of a read result, with the answers of the environment while it is handled. */
  datatype ReadEntry = ReadEntry(name: string, result: Outcome, online: bool, at: nat)

  datatype Event =
    | Connect(ok: bool)
    | Disconnect
    | InitWrites(ok: bool)
    | CycleStart(at: nat)
    | PrePoll(ok: bool)
    | Read(entries: seq<ReadEntry>, ioCount: nat)
    | Publish(snapshot: map<string, MetricValue>)
    | BackoffSleep(duration: nat)
    | PollSleep(at: nat, duration: nat)
    | Cancel

  /** Durations are in milliseconds. Only whether there are write steps matters here. */
  datatype CollectorConfig = CollectorConfig(
    name: string,
    pollingInterval: nat,
    labels: map<string, string>,
    hasWriter: bool,
    initWrites: nat,
    prePoll: nat,
    metrics: seq<MetricConfig>)
  {
    predicate RunsInit() { hasWriter && initWrites > 0 }

    predicate RunsPrePoll() { hasWriter && prePoll > 0 }
  }

  const MAX_BACKOFF: nat := 60000
  const INITIAL_BACKOFF: nat := 1000

  function Min(a: nat, b: nat): nat {
    if a <= b then a else b
  }

  function Pow2(n: nat): nat {
    if n == 0 then 1 else 2 * Pow2(n - 1)
  }

  /** The wait before reconnect attempt `i`, counted from 0 since the last successful connect. */
  function BackoffAt(i: nat): nat {
    Min(INITIAL_BACKOFF * Pow2(i), MAX_BACKOFF)
  }

  // ----- what a read result means for the connection -----

  /** The first configured metric of that name. */
  function FindMetric(metrics: seq<MetricConfig>, name: string): (r: Option<MetricConfig>)
    ensures r.Some? ==> r.value.name == name
    ensures r.Some? <==> exists i | 0 <= i < |metrics| :: metrics[i].name == name
  {
    if metrics == [] then None
    else if metrics[0].name == name then Some(metrics[0])
    else
      var r := FindMetric(metrics[1..], name);
      assert forall i | 1 <= i < |metrics| :: metrics[1..][i - 1] == metrics[i];
      r
  }

  /** Of several metrics with one name the first is found. */
  lemma {:induction false} FindIsFirst(metrics: seq<MetricConfig>, i: nat)
    requires i < |metrics| && forall j | 0 <= j < i :: metrics[j].name != metrics[i].name
    ensures FindMetric(metrics, metrics[i].name) == Some(metrics[i])
  {
    if i > 0 {
      FindIsFirst(metrics[1..], i - 1);
    }
  }

  predicate Configured(metrics: seq<MetricConfig>, name: string) {
    FindMetric(metrics, name).Some?
  }

  predicate Fails(metrics: seq<MetricConfig>, e: ReadEntry) {
    Configured(metrics, e.name) && e.result.Err?
  }

  /** Some failure finds the connection gone: the cycle is aborted there. */
  predicate LosesConnection(metrics: seq<MetricConfig>, entries: seq<ReadEntry>) {
    entries != [] &&
    (|| LosesConnection(metrics, entries[..|entries| - 1])
     || (Fails(metrics, entries[|entries| - 1]) && !entries[|entries| - 1].online))
  }

  // ----- the state of the connection, as the log tells it -----

  datatype Watch = Watch(
    up: bool,             // connected, and not disconnected since
    inits: nat,           // init_writes attempts since the last successful connect
    initOk: bool,         // the latest of them succeeded
    polled: bool,         // pre_poll succeeded in the current cycle
    streak: nat,          // consecutive pre_poll failures since the last successful connect
    sleeps: nat,          // backoff waits since the last successful connect
    started: Option<nat>, // when the latest cycle started
    cancelled: bool,
    reading: bool,        // the latest event is a read
    due: bool,            // a connect is due: at the start, and after each backoff wait
    reconnected: bool)    // a connect was attempted since the latest cycle started
  {
    predicate Ready(cfg: CollectorConfig) {
      up && (cfg.RunsInit() ==> inits == 1 && initOk)
    }
  }

  function Observe(before: Watch, e: Event): Watch {
    var w := before.(reading := e.Read?);
    match e
    case Connect(ok) =>
      if ok then w.(up := true, inits := 0, initOk := false, streak := 0, sleeps := 0, due := false, reconnected := true)
      else w.(due := false, reconnected := true)
    case Disconnect => w.(up := false)
    case InitWrites(ok) => w.(inits := w.inits + 1, initOk := ok)
    case CycleStart(at) => w.(polled := false, started := Some(at), reconnected := false)
    case PrePoll(ok) => w.(polled := ok, streak := if ok then 0 else w.streak + 1)
    case BackoffSleep(_) => w.(sleeps := w.sleeps + 1, due := true)
    case Cancel => w.(cancelled := true)
    case _ => w
  }

  function Watched(log: seq<Event>): Watch {
    if log == [] then Watch(false, 0, false, false, 0, 0, None, false, false, true, false)
    else Observe(Watched(log[..|log| - 1]), log[|log| - 1])
  }

  // ----- the rules -----

  /** The least time from one cycle to the next: the polling interval, or with a reconnect in between its backoff. */
  function Spacing(cfg: CollectorConfig, w: Watch): nat {
    if w.reconnected then Min(cfg.pollingInterval, INITIAL_BACKOFF) else cfg.pollingInterval
  }

  predicate Permits(cfg: CollectorConfig, w: Watch, e: Event) {
    if w.cancelled || (w.up && w.streak >= 3) then e.Disconnect?
    else if w.reading then e.Publish? || e.Disconnect?
    else
      match e
      case Connect(_) => !w.up && w.due
      case InitWrites(_) => cfg.RunsInit() && w.up && w.inits == 0
      case CycleStart(at) =>
        && w.Ready(cfg) && w.streak <= 2 && w.sleeps == 0
        && (w.started.Some? ==> at >= w.started.value + Spacing(cfg, w))
      case PrePoll(_) => cfg.RunsPrePoll() && w.Ready(cfg)
      case Read(_, _) => w.Ready(cfg) && (cfg.RunsPrePoll() ==> w.polled)
      case Publish(_) => false
      case BackoffSleep(d) => !w.up && !w.due && d == BackoffAt(w.sleeps)
      case PollSleep(at, d) =>
        && w.Ready(cfg) && !w.reconnected && d > 0
        && w.started.Some? && at >= w.started.value && at + d == w.started.value + cfg.pollingInterval
      case Disconnect => !w.up || !w.Ready(cfg)
      case Cancel => true
  }

  /** A read that loses the connection is followed by a disconnect, any other one by a publication. */
  predicate FollowsRead(cfg: CollectorConfig, w: Watch, log: seq<Event>, e: Event) {
    w.reading && log != [] && log[|log| - 1].Read? ==>
      if LosesConnection(cfg.metrics, log[|log| - 1].entries) then e.Disconnect? else e.Publish?
  }

  /**
   What may still start once the shutdown flag is set. The flag is set from the moment at
   which `stopAt` events have started.
   */
  predicate InTime(stopAt: nat, log: seq<Event>, e: Event) {
    && |log| < stopAt + 7
    && (e.Cancel? ==> stopAt <= |log|)
    && (e.Connect? || e.PrePoll? ==> |log| <= stopAt)
    && (e.Read? ==> |log| <= stopAt || (|log| == stopAt + 1 && log[|log| - 1].PrePoll?))
  }

  ghost predicate Allowed(cfg: CollectorConfig, stopAt: nat, log: seq<Event>, e: Event) {
    Permits(cfg, Watched(log), e) && FollowsRead(cfg, Watched(log), log, e) && InTime(stopAt, log, e)
  }

  ghost predicate Obeys(cfg: CollectorConfig, stopAt: nat, log: seq<Event>) {
    log == [] ||
    (Obeys(cfg, stopAt, log[..|log| - 1]) && Allowed(cfg, stopAt, log[..|log| - 1], log[|log| - 1]))
  }

  lemma {:induction false} PublishAllowed(cfg: CollectorConfig, stopAt: nat, log: seq<Event>, snapshot: map<string, MetricValue>)
    requires Watched(log).reading && !Watched(log).cancelled && Watched(log).streak <= 2 && |log| <= stopAt + 2
    requires log != [] && log[|log| - 1].Read? && !LosesConnection(cfg.metrics, log[|log| - 1].entries)
    ensures Allowed(cfg, stopAt, log, Publish(snapshot))
  {
    hide Watched, LosesConnection;
  }

  lemma {:induction false} ReadAllowed(cfg: CollectorConfig, stopAt: nat, log: seq<Event>, e: Event)
    requires var w := Watched(log);
      && w.Ready(cfg) && !w.reading && !w.cancelled && w.streak <= 2
      && (cfg.RunsPrePoll() ==> w.polled)
    requires |log| < stopAt || (|log| <= stopAt + 1 && |log| > 0 && log[|log| - 1].PrePoll?)
    requires e.Read?
    ensures Allowed(cfg, stopAt, log, e)
  {
    hide Watched, LosesConnection;
  }

  lemma {:induction false} WatchedSnoc(log: seq<Event>, e: Event)
    ensures Watched(log + [e]) == Observe(Watched(log), e)
  {
    assert (log + [e])[..|log|] == log;
  }

  lemma {:induction false} WatchedAt(log: seq<Event>, n: nat)
    requires n < |log|
    ensures Watched(log[..n + 1]) == Observe(Watched(log[..n]), log[n])
  {
    hide Observe;
    assert log[..n + 1][..n] == log[..n];
  }

  lemma {:induction false} ObeysSnoc(cfg: CollectorConfig, stopAt: nat, log: seq<Event>, e: Event)
    requires Obeys(cfg, stopAt, log) && Allowed(cfg, stopAt, log, e)
    ensures Obeys(cfg, stopAt, log + [e])
  {
    hide Allowed;
    assert (log + [e])[..|log|] == log;
  }

  lemma {:induction false} ObeysAt(cfg: CollectorConfig, stopAt: nat, log: seq<Event>, i: nat)
    requires Obeys(cfg, stopAt, log) && i < |log|
    ensures Obeys(cfg, stopAt, log[..i]) && Allowed(cfg, stopAt, log[..i], log[i])
  {
    hide Allowed;
    if i < |log| - 1 {
      ObeysAt(cfg, stopAt, log[..|log| - 1], i);
      assert log[..|log| - 1][..i] == log[..i];
    }
  }

  // ----- what obeying the rules means for a whole run -----

  /** A connection made by event `c` is still the current one when event `n` starts. */
  ghost predicate ConnectedSince(log: seq<Event>, c: nat, n: nat) {
    && c < n <= |log|
    && log[c] == Connect(true)
    && forall k | c < k < n :: !log[k].Disconnect? && !log[k].Connect?
  }

  /** Event `w` is the only init_writes between events `c` and `n`, and it succeeded. */
  ghost predicate OneInit(log: seq<Event>, c: nat, w: nat, n: nat) {
    && c < w < n <= |log|
    && log[w] == InitWrites(true)
    && forall k | c < k < n && log[k].InitWrites? :: k == w
  }

  /** A pre_poll that succeeded in the cycle in which event `n` starts. */
  ghost predicate PolledInCycle(log: seq<Event>, p: nat, n: nat) {
    && p < n <= |log|
    && log[p] == PrePoll(true)
    && forall k | p < k < n :: !log[k].CycleStart? && !log[k].PrePoll?
  }

  lemma {:induction false} LastStep(cfg: CollectorConfig, stopAt: nat, log: seq<Event>)
    requires Obeys(cfg, stopAt, log) && log != []
    ensures Obeys(cfg, stopAt, log[..|log| - 1])
    ensures Permits(cfg, Watched(log[..|log| - 1]), log[|log| - 1])
    ensures Watched(log) == Observe(Watched(log[..|log| - 1]), log[|log| - 1])
  {
    hide Permits, FollowsRead, InTime, Observe;
  }

  lemma {:induction false} NothingWatched()
    ensures !Watched([]).up
  {
  }

  lemma {:induction false} UpMeansConnected(cfg: CollectorConfig, stopAt: nat, log: seq<Event>) returns (c: nat)
    requires Obeys(cfg, stopAt, log) && Watched(log).up
    ensures ConnectedSince(log, c, |log|)
    ensures Watched(log).inits == 0 ==> forall k | c < k < |log| :: !log[k].InitWrites?
    ensures Watched(log).inits == 1 && Watched(log).initOk ==> exists w :: OneInit(log, c, w, |log|)
    ensures Watched(log).inits <= 1
  {
    hide Obeys, Watched;
    NothingWatched();
    LastStep(cfg, stopAt, log);
    var n := |log| - 1;
    var front, e := log[..n], log[n];
    if e == Connect(true) {
      c := n;
    } else {
      assert !e.Disconnect? && Watched(front).up && Permits(cfg, Watched(front), e);
      c := UpMeansConnected(cfg, stopAt, front);
      assert forall k | 0 <= k < n :: front[k] == log[k];
      if e.InitWrites? {
        if e.ok { assert OneInit(log, c, n, |log|); }
      } else if Watched(log).inits == 1 && Watched(log).initOk {
        var w :| OneInit(front, c, w, n);
        assert OneInit(log, c, w, |log|);
      }
    }
  }

  lemma {:induction false} PolledMeans(log: seq<Event>) returns (p: nat)
    requires Watched(log).polled
    ensures PolledInCycle(log, p, |log|)
  {
    var n := |log| - 1;
    if log[n] == PrePoll(true) {
      p := n;
    } else {
      p := PolledMeans(log[..n]);
      assert forall k | 0 <= k < n :: log[..n][k] == log[k];
    }
  }

  lemma {:induction false} CancelledStays(log: seq<Event>, i: nat)
    requires i < |log| && log[i].Cancel?
    ensures Watched(log).cancelled
  {
    hide Watched;
    WatchedSnoc(log[..|log| - 1], log[|log| - 1]);
    assert log == log[..|log| - 1] + [log[|log| - 1]];
    if i < |log| - 1 {
      CancelledStays(log[..|log| - 1], i);
    }
  }

  /**
   Every read of every run: exactly one successful connect since the last disconnect,
   exactly one init_writes since then if there are any, which succeeded, a successful
   pre_poll in the same cycle if there is one, and no cancellation before it.
   */
  lemma {:induction false} ReadsFollowProtocol(cfg: CollectorConfig, stopAt: nat, log: seq<Event>, i: nat)
    requires Obeys(cfg, stopAt, log) && i < |log| && log[i].Read?
    ensures exists c ::
      ConnectedSince(log, c, i) && (cfg.hasWriter && cfg.initWrites > 0 ==> exists w :: OneInit(log, c, w, i))
    ensures cfg.hasWriter && cfg.prePoll > 0 ==> exists p :: PolledInCycle(log, p, i)
    ensures forall k | 0 <= k < i :: !log[k].Cancel?
  {
    hide Obeys, FollowsRead, InTime, Watched;
    ObeysAt(cfg, stopAt, log, i);
    var front := log[..i];
    forall k | 0 <= k < i ensures !log[k].Cancel? {
      if front[k].Cancel? { CancelledStays(front, k); }
    }
    var c := UpMeansConnected(cfg, stopAt, front);
    ConnectedInPrefix(log, c, i);
    if cfg.RunsInit() {
      var w :| OneInit(front, c, w, i);
      assert OneInit(log, c, w, i);
    }
    if cfg.RunsPrePoll() {
      var p := PolledMeans(front);
      assert forall k | 0 <= k < i :: front[k] == log[k];
      assert PolledInCycle(log, p, i);
    }
  }

  /** Write steps are executed only if there are any and there is a writer. */
  lemma {:induction false} WritesAreConfigured(cfg: CollectorConfig, stopAt: nat, log: seq<Event>, i: nat)
    requires Obeys(cfg, stopAt, log) && i < |log|
    ensures log[i].InitWrites? ==> cfg.hasWriter && cfg.initWrites > 0
    ensures log[i].PrePoll? ==> cfg.hasWriter && cfg.prePoll > 0
  {
    hide Obeys, FollowsRead, InTime, Watched;
    ObeysAt(cfg, stopAt, log, i);
  }

  lemma {:induction false} ConnectedInPrefix(log: seq<Event>, c: nat, i: nat)
    requires i <= |log| && ConnectedSince(log[..i], c, i)
    ensures ConnectedSince(log, c, i)
  {
    assert forall k | 0 <= k < i :: log[..i][k] == log[k];
  }

  /** Pre_poll events `a`, `b` and `c` fail in a row, with no reconnect in between. */
  ghost predicate ThreeStrikes(log: seq<Event>, a: nat, b: nat, c: nat) {
    && a < b < c < |log|
    && log[a] == log[b] == log[c] == PrePoll(false)
    && forall k | a < k < c && k != b :: !log[k].PrePoll? && log[k] != Connect(true)
  }

  lemma {:induction false} StreakStep(w: Watch, e: Event)
    requires e.PrePoll? || e.Connect? ==> !e.ok
    ensures Observe(w, e).streak == w.streak + if e.PrePoll? then 1 else 0
  {
    match e
    case Connect(_) =>
    case PrePoll(_) =>
    case Read(_, _) =>
    case _ =>
  }

  lemma {:induction false} StreakGrows(log: seq<Event>, a: nat, n: nat)
    requires a < n <= |log| && log[a] == PrePoll(false)
    requires forall k | a < k < n :: log[k] != PrePoll(true) && log[k] != Connect(true)
    ensures Watched(log[..n]).streak >= 1 + Failures(log, a + 1, n)
  {
    hide Watched, Observe;
    WatchedAt(log, n - 1);
    StreakStep(Watched(log[..n - 1]), log[n - 1]);
    if n > a + 1 {
      StreakGrows(log, a, n - 1);
    }
  }

  /** The failed pre_polls among the events from `a` to `n`. */
  function Failures(log: seq<Event>, a: nat, n: nat): nat
    requires a <= n <= |log|
  {
    if a == n then 0 else Failures(log, a, n - 1) + if log[n - 1] == PrePoll(false) then 1 else 0
  }

  lemma {:induction false} FailuresCount(log: seq<Event>, a: nat, n: nat, b: nat)
    requires a <= b < n <= |log| && log[b] == PrePoll(false)
    ensures Failures(log, a, n) >= 1
  {
    if b < n - 1 { FailuresCount(log, a, n - 1, b); }
  }

  /** The third failure in a row is followed at once by a disconnect. */
  lemma {:induction false} ThirdStrikeDisconnects(cfg: CollectorConfig, stopAt: nat, log: seq<Event>, a: nat, b: nat, c: nat)
    requires Obeys(cfg, stopAt, log) && ThreeStrikes(log, a, b, c)
    ensures c + 1 < |log| ==> log[c + 1].Disconnect?
  {
    hide Obeys, FollowsRead, InTime;
    StreakGrows(log, a, c + 1);
    FailuresCount(log, a + 1, c, b);
    ObeysAt(cfg, stopAt, log, c);
    assert log[..c + 1][..c] == log[..c];
    if c + 1 < |log| {
      ObeysAt(cfg, stopAt, log, c + 1);
    }
  }

  /** Since event `a` pre_poll has neither succeeded nor been given a new connection, and failed `k` times. */
  ghost predicate Strikes(log: seq<Event>, a: nat, n: nat, k: nat) {
    && a <= n <= |log|
    && Failures(log, a, n) == k
    && forall j | a <= j < n :: log[j] != PrePoll(true) && log[j] != Connect(true)
  }

  lemma {:induction false} StrikesStep(log: seq<Event>, a: nat, n: nat, w: Watch)
    requires n < |log| && Strikes(log, a, n, w.streak)
    ensures Strikes(log, if log[n] == PrePoll(true) || log[n] == Connect(true) then n + 1 else a, n + 1,
                    Observe(w, log[n]).streak)
  {
  }

  lemma {:induction false} StreakIsARun(log: seq<Event>, n: nat) returns (a: nat)
    requires n <= |log|
    ensures Strikes(log, a, n, Watched(log[..n]).streak)
  {
    hide Watched, Observe, Strikes;
    if n == 0 {
      a := 0;
      NoStrikes(log);
    } else {
      a := StreakIsARun(log, n - 1);
      WatchedAt(log, n - 1);
      StrikesStep(log, a, n - 1, Watched(log[..n - 1]));
      a := if log[n - 1] == PrePoll(true) || log[n - 1] == Connect(true) then n else a;
    }
  }

  lemma {:induction false} NoStrikes(log: seq<Event>)
    ensures Strikes(log, 0, 0, Watched(log[..0]).streak)
  {
  }

  /**
   No disconnect without a cause: the task is cancelled, the connection is already down, it
   is not initialized, pre_poll failed three times in a row, or the read just before found
   the connection lost.
   */
  lemma {:induction false} DisconnectsHaveCause(cfg: CollectorConfig, stopAt: nat, log: seq<Event>, i: nat)
    requires Obeys(cfg, stopAt, log) && i < |log| && log[i].Disconnect?
    ensures var w := Watched(log[..i]);
      || w.cancelled || !w.up || !w.Ready(cfg)
      || (exists a, k :: k >= 3 && Strikes(log, a, i, k))
      || (i > 0 && log[i - 1].Read? && LosesConnection(cfg.metrics, log[i - 1].entries))
  {
    hide Obeys, InTime, LosesConnection;
    ObeysAt(cfg, stopAt, log, i);
    var a := StreakIsARun(log, i);
    assert i > 0 ==> log[..i][i - 1] == log[i - 1];
  }

  /** A read that loses the connection is never published, any other one is, and nothing else is. */
  lemma {:induction false} ReadsArePublished(cfg: CollectorConfig, stopAt: nat, log: seq<Event>, i: nat)
    requires Obeys(cfg, stopAt, log) && i < |log|
    ensures log[i].Read? && i + 1 < |log| ==>
      if LosesConnection(cfg.metrics, log[i].entries) then log[i + 1].Disconnect? else log[i + 1].Publish?
    ensures log[i].Publish? ==> i > 0 && log[i - 1].Read? && !LosesConnection(cfg.metrics, log[i - 1].entries)
  {
    hide Obeys, InTime, LosesConnection;
    if i + 1 < |log| {
      ObeysAt(cfg, stopAt, log, i + 1);
      assert log[..i + 1][..i] == log[..i];
    }
    ObeysAt(cfg, stopAt, log, i);
    assert i > 0 ==> log[..i][i - 1] == log[i - 1];
  }

  /** After a disconnect there is no pre_poll and no read until a connect succeeds. */
  lemma {:induction false} NothingWhileDown(cfg: CollectorConfig, stopAt: nat, log: seq<Event>, d: nat, n: nat)
    requires Obeys(cfg, stopAt, log) && d < n < |log| && log[d].Disconnect?
    requires forall k | d < k < n :: log[k] != Connect(true)
    ensures !log[n].PrePoll? && !log[n].Read? && !log[n].CycleStart?
  {
    DownStays(log, d, n);
    ObeysAt(cfg, stopAt, log, n);
  }

  lemma {:induction false} DownStays(log: seq<Event>, d: nat, n: nat)
    requires d < n <= |log| && log[d].Disconnect?
    requires forall k | d < k < n :: log[k] != Connect(true)
    ensures !Watched(log[..n]).up
  {
    hide Watched;
    WatchedAt(log, n - 1);
    if n > d + 1 { DownStays(log, d, n - 1); }
  }

  // ----- shutdown -----

  /**
   Shutdown is bounded: after the flag is set at most seven events start, at most one of them
   a connect, and no cycle that starts then polls or reads. Nothing is cancelled before.
   */
  lemma {:induction false} ShutdownIsBounded(cfg: CollectorConfig, stopAt: nat, log: seq<Event>)
    requires Obeys(cfg, stopAt, log)
    ensures |log| <= stopAt + 7
    ensures forall i | 0 <= i < |log| && log[i].Cancel? :: stopAt <= i
    ensures forall i, j | stopAt <= i < j < |log| && log[i].Connect? :: !log[j].Connect?
    ensures forall i, j | stopAt <= i < j < |log| && log[i].CycleStart? :: !log[j].PrePoll? && !log[j].Read?
  {
    hide Obeys, Permits, FollowsRead;
    if log != [] {
      ObeysAt(cfg, stopAt, log, |log| - 1);
    }
    forall i | 0 <= i < |log| && log[i].Cancel? ensures stopAt <= i {
      ObeysAt(cfg, stopAt, log, i);
    }
    forall i, j | stopAt <= i < j < |log|
      ensures log[j].Connect? ==> !log[i].Connect?
      ensures log[j].PrePoll? || log[j].Read? ==> !log[i].CycleStart?
    {
      ObeysAt(cfg, stopAt, log, j);
      assert log[..j][|log[..j]| - 1] == log[j - 1];
    }
  }

  // ----- backoff -----

  /** The backoff waits among the events from `a` to `n`. */
  function SleepsIn(log: seq<Event>, a: nat, n: nat): nat
    requires a <= n <= |log|
  {
    if a == n then 0 else SleepsIn(log, a, n - 1) + if log[n - 1].BackoffSleep? then 1 else 0
  }

  lemma {:induction false} SleepsAreCounted(log: seq<Event>, a: nat, n: nat)
    requires a <= n <= |log| && Watched(log[..a]).sleeps == 0
    requires forall k | a <= k < n :: log[k] != Connect(true)
    ensures Watched(log[..n]).sleeps == SleepsIn(log, a, n)
  {
    hide Watched;
    if a < n {
      WatchedAt(log, n - 1);
      SleepsAreCounted(log, a, n - 1);
    }
  }

  lemma {:induction false} NoSleepsYet(log: seq<Event>, a: nat)
    requires a <= |log| && (a == 0 || log[a - 1] == Connect(true))
    ensures Watched(log[..a]).sleeps == 0
  {
  }

  /** Wait `i` since the last successful connect, or since the start, lasts min(2^i, 60) seconds. */
  lemma {:induction false} BackoffIsExponential(cfg: CollectorConfig, stopAt: nat, log: seq<Event>, a: nat, s: nat)
    requires Obeys(cfg, stopAt, log) && a <= s < |log| && log[s].BackoffSleep?
    requires a == 0 || log[a - 1] == Connect(true)
    requires forall k | a <= k < s :: log[k] != Connect(true)
    ensures log[s].duration == Min(1000 * Pow2(SleepsIn(log, a, s)), 60000)
  {
    hide Obeys, FollowsRead, InTime, Watched;
    ObeysAt(cfg, stopAt, log, s);
    NoSleepsYet(log, a);
    SleepsAreCounted(log, a, s);
  }

  lemma {:induction false} DoubledBackoff(i: nat)
    ensures Min(BackoffAt(i) * 2, MAX_BACKOFF) == BackoffAt(i + 1)
    ensures i >= 6 ==> BackoffAt(i) == MAX_BACKOFF
  {
    if i > 0 { DoubledBackoff(i - 1); }
    assert BackoffAt(0) == 1000 && BackoffAt(1) == 2000 && BackoffAt(2) == 4000;
    assert BackoffAt(3) == 8000 && BackoffAt(4) == 16000 && BackoffAt(5) == 32000;
  }

  function TotalBackoff(n: nat): nat {
    if n == 0 then 0 else TotalBackoff(n - 1) + BackoffAt(n - 1)
  }

  lemma {:induction false} TotalBackoffClosedForm(n: nat)
    ensures TotalBackoff(n) == if n <= 6 then 1000 * (Pow2(n) - 1) else 63000 + 60000 * (n - 6)
  {
    if n > 0 {
      TotalBackoffClosedForm(n - 1);
      DoubledBackoff(n - 1);
    }
    assert Pow2(1) == 2 && Pow2(2) == 4 && Pow2(3) == 8 && Pow2(4) == 16 && Pow2(5) == 32 && Pow2(6) == 64;
  }

  /** The time spent in the backoff waits among the events from `a` to `n`. */
  function WaitedIn(log: seq<Event>, a: nat, n: nat): nat
    requires a <= n <= |log|
  {
    if a == n then 0 else WaitedIn(log, a, n - 1) + if log[n - 1].BackoffSleep? then log[n - 1].duration else 0
  }

  lemma {:induction false} WaitsAreTotalled(cfg: CollectorConfig, stopAt: nat, log: seq<Event>, a: nat, n: nat)
    requires Obeys(cfg, stopAt, log) && a <= n <= |log|
    requires a == 0 || log[a - 1] == Connect(true)
    requires forall k | a <= k < n :: log[k] != Connect(true)
    ensures WaitedIn(log, a, n) == TotalBackoff(SleepsIn(log, a, n))
  {
    hide Obeys;
    if a < n {
      WaitsAreTotalled(cfg, stopAt, log, a, n - 1);
      if log[n - 1].BackoffSleep? {
        BackoffIsExponential(cfg, stopAt, log, a, n - 1);
      }
    }
  }

  /** The first `i` waits since the last successful connect take 2^i - 1 seconds, from the seventh on a minute each. */
  lemma {:induction false} WaitsAddUp(cfg: CollectorConfig, stopAt: nat, log: seq<Event>, a: nat, n: nat)
    requires Obeys(cfg, stopAt, log) && a <= n <= |log|
    requires a == 0 || log[a - 1] == Connect(true)
    requires forall k | a <= k < n :: log[k] != Connect(true)
    ensures var i := SleepsIn(log, a, n);
      WaitedIn(log, a, n) == if i <= 6 then 1000 * (Pow2(i) - 1) else 63000 + 60000 * (i - 6)
  {
    hide Obeys;
    WaitsAreTotalled(cfg, stopAt, log, a, n);
    TotalBackoffClosedForm(SleepsIn(log, a, n));
  }

  // ----- backoff while init_writes fails -----

  /** The event that completes a connection: its init_writes if there are any. */
  predicate Initializes(cfg: CollectorConfig, e: Event) {
    if cfg.RunsInit() then e == InitWrites(true) else e == Connect(true)
  }

  /** Event `p` is the first since the connection was last initialized, or since the start. */
  ghost predicate SinceInit(cfg: CollectorConfig, log: seq<Event>, p: nat, s: nat) {
    && p <= s <= |log|
    && (p == 0 || Initializes(cfg, log[p - 1]))
    && forall k | p <= k < s :: !Initializes(cfg, log[k])
  }

  /** Event `a` is the first since the last successful connect after `p`, or `p` if there is none. */
  ghost predicate SinceConnect(log: seq<Event>, p: nat, a: nat, s: nat) {
    && p <= a <= s <= |log|
    && (a == p || log[a - 1] == Connect(true))
    && forall k | a <= k < s :: log[k] != Connect(true)
  }

  lemma {:induction false} UpHasNotSlept(cfg: CollectorConfig, stopAt: nat, log: seq<Event>)
    requires Obeys(cfg, stopAt, log) && Watched(log).up
    ensures Watched(log).sleeps == 0
  {
    hide Obeys, Watched;
    NothingWatched();
    LastStep(cfg, stopAt, log);
    if log[|log| - 1] != Connect(true) {
      UpHasNotSlept(cfg, stopAt, log[..|log| - 1]);
    }
  }

  lemma {:induction false} InitializedHasNotSlept(cfg: CollectorConfig, stopAt: nat, log: seq<Event>, p: nat)
    requires Obeys(cfg, stopAt, log) && p <= |log| && (p == 0 || Initializes(cfg, log[p - 1]))
    ensures Watched(log[..p]).sleeps == 0
  {
    hide Obeys, InTime, FollowsRead, Watched;
    if p == 0 || log[p - 1] == Connect(true) {
      NoSleepsYet(log, p);
    } else {
      ObeysAt(cfg, stopAt, log, p - 1);
      UpHasNotSlept(cfg, stopAt, log[..p - 1]);
      WatchedAt(log, p - 1);
    }
  }

  lemma {:induction false} SleepsSplit(log: seq<Event>, p: nat, a: nat, s: nat)
    requires p <= a <= s <= |log|
    ensures SleepsIn(log, p, s) == SleepsIn(log, p, a) + SleepsIn(log, a, s)
  {
    if a < s { SleepsSplit(log, p, a, s - 1); }
  }

  lemma {:induction false} BackoffRises(i: nat, j: nat)
    requires i <= j
    ensures BackoffAt(i) == BackoffAt(j) <==> i == j || i >= 6
    ensures BackoffAt(i) <= BackoffAt(j)
  {
    if i < j {
      BackoffRises(i, j - 1);
      DoubledBackoff(i);
      DoubledBackoff(j - 1);
      DoubledBackoff(j);
      assert BackoffAt(0) == 1000 && BackoffAt(1) == 2000 && BackoffAt(2) == 4000;
      assert BackoffAt(3) == 8000 && BackoffAt(4) == 16000 && BackoffAt(5) == 32000;
    }
  }

  /**
   Exactly when a wait is as long as the number of waits since the last initialization says:
   no wait came before the last successful connect, or the maximum is reached anyway.
   */
  lemma {:induction false} BackoffSinceInit(cfg: CollectorConfig, stopAt: nat, log: seq<Event>, p: nat, a: nat, s: nat)
    requires Obeys(cfg, stopAt, log) && s < |log| && log[s].BackoffSleep?
    requires SinceInit(cfg, log, p, s) && SinceConnect(log, p, a, s)
    ensures log[s].duration == BackoffAt(SleepsIn(log, p, s)) <==> SleepsIn(log, p, a) == 0 || SleepsIn(log, a, s) >= 6
  {
    hide Obeys, InTime, FollowsRead, Watched, BackoffAt;
    ObeysAt(cfg, stopAt, log, s);
    if a == p {
      InitializedHasNotSlept(cfg, stopAt, log, a);
    } else {
      NoSleepsYet(log, a);
    }
    SleepsAreCounted(log, a, s);
    SleepsSplit(log, p, a, s);
    BackoffRises(SleepsIn(log, a, s), SleepsIn(log, p, s));
  }

  /** While every connect succeeds, each wait after the first of them lasts one second. */
  lemma {:induction false} WaitsStayShort(cfg: CollectorConfig, stopAt: nat, log: seq<Event>, c: nat, s: nat)
    requires Obeys(cfg, stopAt, log) && c < s < |log| && log[c] == Connect(true) && log[s].BackoffSleep?
    requires forall k | c < k < s && log[k].Connect? :: log[k].ok
    ensures log[s].duration == 1000
  {
    hide Obeys, InTime, FollowsRead, Watched;
    ObeysAt(cfg, stopAt, log, s);
    OneSleepAtMost(cfg, stopAt, log, c, s);
  }

  predicate SleptOnceIfDue(w: Watch) {
    w.sleeps == if w.due then 1 else 0
  }

  lemma {:induction false} SleptOnceStep(cfg: CollectorConfig, w: Watch, e: Event)
    requires e == Connect(true) || (SleptOnceIfDue(w) && Permits(cfg, w, e) && e != Connect(false))
    ensures SleptOnceIfDue(Observe(w, e))
  {
  }

  lemma {:induction false} OneSleepAtMost(cfg: CollectorConfig, stopAt: nat, log: seq<Event>, c: nat, n: nat)
    requires Obeys(cfg, stopAt, log) && c < n <= |log| && log[c] == Connect(true)
    requires forall k | c < k < n && log[k].Connect? :: log[k].ok
    ensures SleptOnceIfDue(Watched(log[..n]))
  {
    hide Obeys, InTime, FollowsRead, Watched, Permits, Observe, SleptOnceIfDue;
    WatchedAt(log, n - 1);
    if c < n - 1 {
      OneSleepAtMost(cfg, stopAt, log, c, n - 1);
      ObeysAt(cfg, stopAt, log, n - 1);
    }
    SleptOnceStep(cfg, Watched(log[..n - 1]), log[n - 1]);
  }

  /** `n` connects that succeed, each with an init_writes that fails and its backoff wait. */
  function StuckLog(n: nat): (log: seq<Event>)
    ensures |log| == 4 * n
  {
    if n == 0 then [] else StuckLog(n - 1) + [Connect(true), InitWrites(false), Disconnect, BackoffSleep(1000)]
  }

  lemma {:induction false} StuckOnce(cfg: CollectorConfig, stopAt: nat, log: seq<Event>)
    requires cfg.RunsInit() && Obeys(cfg, stopAt, log) && |log| + 4 <= stopAt
    requires var w := Watched(log); !w.up && w.due && !w.cancelled && !w.reading
    ensures var more := log + [Connect(true)] + [InitWrites(false)] + [Disconnect] + [BackoffSleep(1000)];
      && Obeys(cfg, stopAt, more)
      && var w := Watched(more); !w.up && w.due && !w.cancelled && !w.reading
  {
    hide Obeys, Watched;
    var a := log + [Connect(true)];
    var b := a + [InitWrites(false)];
    var c := b + [Disconnect];
    ObeysSnoc(cfg, stopAt, log, Connect(true));
    WatchedSnoc(log, Connect(true));
    ObeysSnoc(cfg, stopAt, a, InitWrites(false));
    WatchedSnoc(a, InitWrites(false));
    ObeysSnoc(cfg, stopAt, b, Disconnect);
    WatchedSnoc(b, Disconnect);
    ObeysSnoc(cfg, stopAt, c, BackoffSleep(1000));
    WatchedSnoc(c, BackoffSleep(1000));
  }

  /** A collector whose init_writes keeps failing may retry once a second, any number of times. */
  lemma {:induction false} StuckLogObeys(cfg: CollectorConfig, stopAt: nat, n: nat)
    requires cfg.hasWriter && cfg.initWrites > 0 && 4 * n <= stopAt
    ensures Obeys(cfg, stopAt, StuckLog(n))
    ensures var w := Watched(StuckLog(n)); !w.up && w.due && !w.cancelled && !w.reading
  {
    if n > 0 {
      hide Obeys, Watched;
      StuckLogObeys(cfg, stopAt, n - 1);
      StuckOnce(cfg, stopAt, StuckLog(n - 1));
      assert StuckLog(n) == StuckLog(n - 1) + [Connect(true)] + [InitWrites(false)] + [Disconnect] + [BackoffSleep(1000)];
    }
  }

  /** The wait `s` doubles with every wait since the last initialization. */
  ghost predicate GrowsSinceInit(cfg: CollectorConfig, stopAt: nat, log: seq<Event>, p: nat, s: nat) {
    Obeys(cfg, stopAt, log) && s < |log| && log[s].BackoffSleep? && SinceInit(cfg, log, p, s) ==>
      log[s].duration == BackoffAt(SleepsIn(log, p, s))
  }

  lemma {:induction false} StuckBackoff(cfg: CollectorConfig)
    requires cfg.RunsInit()
    ensures !GrowsSinceInit(cfg, 8, StuckLog(2), 0, 7)
  {
    var log := StuckLog(2);
    StuckLogObeys(cfg, 8, 2);
    hide Obeys;
    assert log == [Connect(true), InitWrites(false), Disconnect, BackoffSleep(1000),
                   Connect(true), InitWrites(false), Disconnect, BackoffSleep(1000)];
    assert SleepsIn(log, 0, 3) == 0 && SleepsIn(log, 0, 5) == 1 && SleepsIn(log, 0, 7) == 1;
    assert BackoffAt(1) == 2000;
  }

  /** The backoff doubles until the connection is initialized, in every run, exactly if there are no init_writes. */
  lemma {:induction false} BackoffGrowsExactly(cfg: CollectorConfig)
    ensures !(cfg.hasWriter && cfg.initWrites > 0) <==> forall stopAt: nat, log: seq<Event>, p: nat, s: nat :: GrowsSinceInit(cfg, stopAt, log, p, s)
  {
    if cfg.RunsInit() {
      StuckBackoff(cfg);
    } else {
      hide Obeys;
      forall stopAt: nat, log: seq<Event>, p: nat, s: nat ensures GrowsSinceInit(cfg, stopAt, log, p, s) {
        if Obeys(cfg, stopAt, log) && s < |log| && log[s].BackoffSleep? && SinceInit(cfg, log, p, s) {
          BackoffSinceInit(cfg, stopAt, log, p, p, s);
        }
      }
    }
  }

  // ----- poll spacing -----

  /** The cycles that start among the events from `a` to `n`. */
  function StartsIn(log: seq<Event>, a: nat, n: nat): nat
    requires a <= n <= |log|
  {
    if a == n then 0 else StartsIn(log, a, n - 1) + if log[n - 1].CycleStart? then 1 else 0
  }

  lemma {:induction false} OneMoreSpace(k: nat, spacing: nat)
    ensures (k + 1) * spacing == k * spacing + spacing
  {
  }

  lemma {:induction false} StartStep(cfg: CollectorConfig, stopAt: nat, log: seq<Event>, n: nat)
    requires Obeys(cfg, stopAt, log) && n < |log| && Watched(log[..n]).started.Some?
    ensures Watched(log[..n + 1]).started.Some?
    ensures if log[n].CycleStart?
      then && Watched(log[..n + 1]).started.value == log[n].at
           && log[n].at >= Watched(log[..n]).started.value + Min(cfg.pollingInterval, INITIAL_BACKOFF)
      else Watched(log[..n + 1]).started == Watched(log[..n]).started
  {
    hide Obeys, Watched, FollowsRead, InTime;
    ObeysAt(cfg, stopAt, log, n);
    WatchedAt(log, n);
  }

  lemma {:induction false} StartedAfter(cfg: CollectorConfig, stopAt: nat, log: seq<Event>, i: nat, n: nat)
    requires Obeys(cfg, stopAt, log) && i < n <= |log| && log[i].CycleStart?
    ensures Watched(log[..n]).started.Some?
    ensures Watched(log[..n]).started.value
         >= log[i].at + StartsIn(log, i + 1, n) * Min(cfg.pollingInterval, INITIAL_BACKOFF)
  {
    hide Obeys, Min, Watched;
    if i == n - 1 {
      WatchedAt(log, i);
    } else {
      StartedAfter(cfg, stopAt, log, i, n - 1);
      StartStep(cfg, stopAt, log, n - 1);
      OneMoreSpace(StartsIn(log, i + 1, n - 1), Min(cfg.pollingInterval, INITIAL_BACKOFF));
    }
  }

  /** `k` cycles after another, at least `k` times min(polling interval, 1 s) have passed. */
  lemma {:induction false} CyclesAreSpaced(cfg: CollectorConfig, stopAt: nat, log: seq<Event>, i: nat, j: nat)
    requires Obeys(cfg, stopAt, log) && i < j < |log| && log[i].CycleStart? && log[j].CycleStart?
    ensures log[j].at >= log[i].at + StartsIn(log, i + 1, j + 1) * Min(cfg.pollingInterval, INITIAL_BACKOFF)
  {
    hide Obeys, Min;
    StartedAfter(cfg, stopAt, log, i, j + 1);
    assert log[..j + 1][..j] == log[..j];
  }

  /** No connect is attempted among the events from `a` to `n`. */
  ghost predicate NoConnect(log: seq<Event>, a: nat, n: nat)
    requires n <= |log|
  {
    forall k | a <= k < n :: !log[k].Connect?
  }

  /** Event `c` starts the cycle in which event `n` happens, with no connect since. */
  ghost predicate SameCycle(log: seq<Event>, c: nat, n: nat) {
    && c < n <= |log| && log[c].CycleStart?
    && NoConnect(log, c, n)
    && forall k | c < k < n :: !log[k].CycleStart?
  }

  lemma {:induction false} StartedStep(w: Watch, e: Event)
    ensures e.CycleStart? ==> Observe(w, e).started == Some(e.at) && !Observe(w, e).reconnected
    ensures e.Connect? ==> Observe(w, e).started == w.started && Observe(w, e).reconnected
    ensures !e.CycleStart? && !e.Connect? ==> Observe(w, e).started == w.started && Observe(w, e).reconnected == w.reconnected
  {
  }

  lemma {:induction false} NotReconnected(log: seq<Event>, i: nat, n: nat)
    requires i < n <= |log| && log[i].CycleStart? && NoConnect(log, i, n)
    ensures Watched(log[..n]).started.Some? && !Watched(log[..n]).reconnected
  {
    hide Watched, Observe;
    WatchedAt(log, n - 1);
    StartedStep(Watched(log[..n - 1]), log[n - 1]);
    if i < n - 1 { NotReconnected(log, i, n - 1); }
  }

  lemma {:induction false} SpacingStep(cfg: CollectorConfig, w: Watch, e: Event)
    requires Permits(cfg, w, e) && e.CycleStart? && w.started.Some? && !w.reconnected
    ensures e.at >= w.started.value + cfg.pollingInterval
  {
  }

  lemma {:induction false} StartedInterval(cfg: CollectorConfig, stopAt: nat, log: seq<Event>, i: nat, n: nat)
    requires Obeys(cfg, stopAt, log) && i < n <= |log| && log[i].CycleStart? && NoConnect(log, i, n)
    ensures Watched(log[..n]).started.Some?
    ensures Watched(log[..n]).started.value >= log[i].at + StartsIn(log, i + 1, n) * cfg.pollingInterval
  {
    hide Obeys, Min, Watched, Observe, Permits, FollowsRead, InTime, NoConnect;
    WatchedAt(log, n - 1);
    StartedStep(Watched(log[..n - 1]), log[n - 1]);
    if i < n - 1 {
      NoConnectPrefix(log, i, n);
      if log[n - 1].CycleStart? {
        NotReconnected(log, i, n - 1);
        ObeysAt(cfg, stopAt, log, n - 1);
        SpacingStep(cfg, Watched(log[..n - 1]), log[n - 1]);
      }
      StartedInterval(cfg, stopAt, log, i, n - 1);
      OneMoreSpace(StartsIn(log, i + 1, n - 1), cfg.pollingInterval);
    }
  }

  lemma {:induction false} NoConnectPrefix(log: seq<Event>, i: nat, n: nat)
    requires i < n <= |log| && NoConnect(log, i, n)
    ensures NoConnect(log, i, n - 1) && !log[n - 1].Connect?
  {
  }

  /** Without a connect in between, `k` cycles after another at least `k` polling intervals have passed. */
  lemma {:induction false} CyclesKeepTheInterval(cfg: CollectorConfig, stopAt: nat, log: seq<Event>, i: nat, j: nat)
    requires Obeys(cfg, stopAt, log) && i < j < |log| && log[i].CycleStart? && log[j].CycleStart?
    requires NoConnect(log, i, j)
    ensures log[j].at >= log[i].at + StartsIn(log, i + 1, j + 1) * cfg.pollingInterval
  {
    hide Obeys, Min, Watched;
    WatchedAt(log, j);
    StartedInterval(cfg, stopAt, log, i, j + 1);
  }

  lemma {:induction false} SameCycleStep(log: seq<Event>, c: nat, n: nat)
    requires n < |log| && SameCycle(log[..n], c, n) && !log[n].Connect? && !log[n].CycleStart?
    ensures SameCycle(log, c, n + 1)
  {
    assert forall k | 0 <= k < n :: log[..n][k] == log[k];
  }

  lemma {:induction false} CycleOf(cfg: CollectorConfig, stopAt: nat, log: seq<Event>) returns (c: nat)
    requires Obeys(cfg, stopAt, log)
    requires Watched(log).started.Some? && !Watched(log).reconnected
    ensures SameCycle(log, c, |log|) && Watched(log).started == Some(log[c].at)
  {
    hide Obeys, Watched, Observe, Permits;
    NothingStarted();
    var n := |log| - 1;
    LastStep(cfg, stopAt, log);
    StartedStep(Watched(log[..n]), log[n]);
    if log[n].CycleStart? {
      c := n;
    } else {
      c := CycleOf(cfg, stopAt, log[..n]);
      SameCycleStep(log, c, n);
    }
  }

  lemma {:induction false} SameCyclePrefix(log: seq<Event>, c: nat, n: nat)
    requires n <= |log| && SameCycle(log[..n], c, n)
    ensures SameCycle(log, c, n) && log[..n][c] == log[c]
  {
    assert forall k | 0 <= k < n :: log[..n][k] == log[k];
  }

  lemma {:induction false} NothingStarted()
    ensures Watched([]).started == None
  {
  }

  /** A poll wait lasts exactly the polling interval minus the time since its cycle's start. */
  lemma {:induction false} PollWaitIsTheRest(cfg: CollectorConfig, stopAt: nat, log: seq<Event>, s: nat) returns (c: nat)
    requires Obeys(cfg, stopAt, log) && s < |log| && log[s].PollSleep?
    ensures SameCycle(log, c, s)
    ensures log[c].at <= log[s].at < log[c].at + cfg.pollingInterval
    ensures log[s].duration == cfg.pollingInterval - (log[s].at - log[c].at)
  {
    hide Obeys, Watched, FollowsRead, InTime, SameCycle;
    ObeysAt(cfg, stopAt, log, s);
    c := CycleOf(cfg, stopAt, log[..s]);
    SameCyclePrefix(log, c, s);
  }
}
