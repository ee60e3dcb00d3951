/** The collector task (src/collector.rs:32-399), run against an arbitrary environment. */
module Collector {
  import opened Wrappers
  import opened Domain
  import opened MetricStore
  import opened CollectorLog
  import opened CollectorCycle
  import opened CollectorHistory

  /**
   Everything a task does not decide itself. Each answer is an arbitrary function of the
   step at which it is asked for, so these are all environments. A task that is never told
   to stop agrees, up to any step, with one that is told to stop later.
   */
  datatype World = World(
    connects: nat -> bool,            // does connect() succeed
    writes: nat -> bool,              // does execute_writes() succeed
    results: nat -> seq<ReadEntry>,   // what read() returns, in the order of its hash map
    ioCounts: nat -> nat,
    delays: nat -> nat,               // how long the step takes
    timerFirst: nat -> bool,          // which branch select! takes when both are ready
    stopAt: nat)                      // the shutdown flag is set from this step on

  class CollectorStats {
    var pollsTotal: nat
    var pollsSuccess: nat
    var pollsError: nat
    var readRequests: nat
    var readErrors: nat
    var lastPollDuration: nat

    constructor ()
      ensures pollsTotal == pollsSuccess == pollsError == readRequests == readErrors == 0
    {
      pollsTotal, pollsSuccess, pollsError, readRequests, readErrors, lastPollDuration := 0, 0, 0, 0, 0, 0;
    }

    method RecordRead(ioCount: nat, failed: nat)
      modifies this`readRequests, this`readErrors
      ensures readRequests == old(readRequests) + ioCount
      ensures readErrors == old(readErrors) + failed
    {
      readRequests := readRequests + ioCount;
      readErrors := readErrors + failed;
    }

    method RecordPoll(duration: nat, error: bool)
      modifies this`lastPollDuration, this`pollsError, this`pollsSuccess
      ensures lastPollDuration == duration
      ensures pollsError == old(pollsError) + if error then 1 else 0
      ensures pollsSuccess == old(pollsSuccess) + if error then 0 else 1
    {
      lastPollDuration := duration;
      if error {
        pollsError := pollsError + 1;
      } else {
        pollsSuccess := pollsSuccess + 1;
      }
    }
  }

  /** A log that ends with the shutdown check at the head of the main loop. */
  predicate LeftAtHead(log: seq<Event>) {
    |log| >= 3 && log[|log| - 3].CycleStart?
  }

  lemma {:induction false} LatestPublish(log: seq<Event>) returns (p: nat)
    requires LastSnapshot(log).Some?
    ensures p < |log| && log[p].Publish? && LastSnapshot(log) == Some(log[p].snapshot)
    ensures forall q | p < q < |log| :: !log[q].Publish?
  {
    var n := |log| - 1;
    if log[n].Publish? {
      p := n;
    } else {
      p := LatestPublish(log[..n]);
      assert forall k | 0 <= k < n :: log[..n][k] == log[k];
    }
  }

  datatype Attempt = Done | Retry | Stopped

  datatype PollResult = Proceed | Skip | Strike

  class CollectorTask {
    const cfg: CollectorConfig
    const world: World
    const globalLabels: Labels
    const store: Store
    const stats: CollectorStats?
    var prevCache: Cache
    var errorCounts: ErrorCounts
    var backoff: nat
    var prePollFailures: nat
    var cancelled: bool
    var clock: nat
    var step: nat
    ghost var log: seq<Event>

    // ----- invariants -----

    /** Event `i` says what the environment answered at that step. */
    ghost predicate Truthful(i: nat, e: Event) {
      match e
      case Connect(ok) => ok == world.connects(i)
      case InitWrites(ok) => ok == world.writes(i)
      case PrePoll(ok) => ok == world.writes(i)
      case Read(entries, ioCount) => entries == world.results(i) && ioCount == world.ioCounts(i)
      case _ => true
    }

    ghost predicate AllTruthful()
      reads this
    {
      forall i | 0 <= i < |log| :: Truthful(i, log[i])
    }

    /** The local state agrees with the log, and the log follows the rules. */
    ghost predicate Valid()
      reads this
    {
      && step == |log|
      && Obeys(cfg, world.stopAt, log)
      && AllTruthful()
      && prePollFailures == Watched(log).streak
      && cancelled == Watched(log).cancelled
      && Books(cfg.metrics, log, prevCache, errorCounts)
      && (Watched(log).started.Some? ==> clock >= Watched(log).started.value)
    }

    /** The shared counters tell the totals of the log. */
    ghost predicate CountersAgree()
      reads this, stats
    {
      stats != null ==>
        var t := TotalsOf(cfg.metrics, log);
        && stats.pollsTotal == t.starts
        && stats.pollsSuccess == t.clean
        && stats.pollsSuccess + stats.pollsError == t.closed
        && stats.readRequests == t.io
        && stats.readErrors == t.failures
    }

    ghost predicate Published()
      reads this, store
    {
      var snapshot := LastSnapshot(log);
      var base := BaseLabels(cfg.name, globalLabels, cfg.labels);
      snapshot.Some? ==>
        && cfg.name in store.inner
        && Lists(store.inner[cfg.name], AllLabelled(snapshot.value, base))
    }

    ghost predicate Inv()
      reads this, stats, store
    {
      Valid() && CountersAgree() && Published()
    }

    ghost function W(): Watch
      reads this
    {
      Watched(log)
    }

    /** The head of the main loop. */
    ghost predicate AtHead()
      reads this
    {
      && W().Ready(cfg) && W().sleeps == 0 && W().streak <= 2 && !W().cancelled && !W().reading && !W().due
      && backoff == INITIAL_BACKOFF
      && |log| <= world.stopAt + 4
      && (W().started.Some? ==> clock >= W().started.value + Spacing(cfg, W()))
      && TotalsOf(cfg.metrics, log).starts == TotalsOf(cfg.metrics, log).closed
    }

    /** How a task ends: cancelled and disconnected. */
    ghost predicate Ended()
      reads this
    {
      cancelled && W().cancelled && !W().up
    }

    constructor (cfg: CollectorConfig, world: World, globalLabels: Labels, store: Store, counted: bool)
      ensures this.cfg == cfg && this.world == world && this.globalLabels == globalLabels && this.store == store
      ensures counted <==> stats != null
      ensures stats != null ==> fresh(stats)
      ensures Inv() && log == []
      ensures backoff == INITIAL_BACKOFF
    {
      this.cfg, this.world, this.globalLabels, this.store := cfg, world, globalLabels, store;
      if counted {
        stats := new CollectorStats();
      } else {
        stats := null;
      }
      prevCache, errorCounts := map[], map[];
      backoff, prePollFailures, cancelled, clock, step := INITIAL_BACKOFF, 0, false, 0, 0;
      log := [];
      BooksStart(cfg.metrics);
    }

    // ----- steps -----

    predicate Stopping()
      reads this
    {
      world.stopAt <= step
    }

    /** One step of the task: its event is logged, and time passes. */
    method Tick(ghost e: Event)
      requires step == |log| && Obeys(cfg, world.stopAt, log) && Allowed(cfg, world.stopAt, log, e)
      requires e.CycleStart? || e.PollSleep? ==> e.at == clock
      requires AllTruthful() && Truthful(|log|, e)
      modifies this`step, this`clock, this`log
      ensures step == |log| && log == old(log) + [e]
      ensures Obeys(cfg, world.stopAt, log) && AllTruthful()
      ensures W() == Observe(old(W()), e)
      ensures TotalsOf(cfg.metrics, log) == Tallied(cfg.metrics, TotalsOf(cfg.metrics, old(log)), e)
      ensures LastSnapshot(log) == if e.Publish? then Some(e.snapshot) else LastSnapshot(old(log))
      ensures clock == old(clock) + world.delays(old(step)) && step == old(step) + 1
    {
      hide Obeys, Allowed, TotalsOf, LastSnapshot, Watched;
      ObeysSnoc(cfg, world.stopAt, log, e);
      WatchedSnoc(log, e);
      TotalsSnoc(cfg.metrics, log, e);
      LastSnapshotSnoc(log, e);
      clock := clock + world.delays(step);
      step := step + 1;
      log := log + [e];
    }

    ghost predicate Quiet(e: Event) {
      e.Connect? || e.Disconnect? || e.InitWrites? || e.BackoffSleep? || e.PollSleep? || e.Cancel?
    }

    /** A step that touches neither counters nor cache; the caller has made the matching local update. */
    method Note(ghost e: Event)
      requires Inv() && Allowed(cfg, world.stopAt, log, e) && Quiet(e)
      requires !e.Cancel? && e != Event.Connect(true)
      requires (e.PollSleep? ==> e.at == clock) && Truthful(|log|, e)
      modifies this`step, this`clock, this`log
      ensures Inv() && log == old(log) + [e]
      ensures W() == Observe(old(W()), e)
      ensures TotalsOf(cfg.metrics, log) == TotalsOf(cfg.metrics, old(log))
      ensures clock >= old(clock)
    {
      hide Obeys, Allowed, TotalsOf, LastSnapshot, Watched, Books, Lists, AllLabelled, BaseLabels;
      BooksQuiet(cfg.metrics, log, prevCache, errorCounts, e);
      Tick(e);
    }

    method Connect() returns (ok: bool)
      requires Inv()
      requires Allowed(cfg, world.stopAt, log, Event.Connect(world.connects(step)))
      modifies this`step, this`clock, this`log, this`prePollFailures, this`backoff
      ensures Inv()
      ensures log == old(log) + [Event.Connect(ok)]
      ensures W() == Observe(old(W()), Event.Connect(ok))
      ensures TotalsOf(cfg.metrics, log) == TotalsOf(cfg.metrics, old(log))
      ensures clock >= old(clock)
      ensures backoff == if ok then INITIAL_BACKOFF else old(backoff)
    {
      hide Obeys, Allowed, Permits, InTime, TotalsOf, LastSnapshot, Watched, Books, Lists, AllLabelled, BaseLabels;
      ok := world.connects(step);
      BooksQuiet(cfg.metrics, log, prevCache, errorCounts, Event.Connect(ok));
      Tick(Event.Connect(ok));
      if ok {
        backoff := INITIAL_BACKOFF;
        prePollFailures := 0;
      }
    }

    /** `cancel.cancel()`, and the disconnect that goes with it on the way out. */
    method CancelAndDisconnect()
      requires Inv() && !W().cancelled && !(W().up && W().streak >= 3) && !W().reading
      requires world.stopAt <= |log| <= world.stopAt + 5
      modifies this`step, this`clock, this`log, this`cancelled
      ensures Inv() && Ended()
      ensures log == old(log) + [Cancel] + [Event.Disconnect]
      ensures W().started == old(W()).started
      ensures TotalsOf(cfg.metrics, log) == TotalsOf(cfg.metrics, old(log))
    {
      hide Obeys, TotalsOf, LastSnapshot, Watched, Books;
      CancelOnly();
      Note(Event.Disconnect);
    }

    lemma {:induction false} MayCancel()
      requires !W().cancelled && !(W().up && W().streak >= 3) && !W().reading
      requires world.stopAt <= |log| <= world.stopAt + 6
      ensures Allowed(cfg, world.stopAt, log, Cancel)
    {
    }

    method CancelOnly()
      requires Inv() && !W().cancelled && !(W().up && W().streak >= 3) && !W().reading
      requires world.stopAt <= |log| <= world.stopAt + 6
      modifies this`step, this`clock, this`log, this`cancelled
      ensures Inv() && cancelled && log == old(log) + [Cancel]
      ensures W() == Observe(old(W()), Cancel)
      ensures TotalsOf(cfg.metrics, log) == TotalsOf(cfg.metrics, old(log))
    {
      hide Obeys, Allowed, TotalsOf, LastSnapshot, Watched, Books, Lists, AllLabelled, BaseLabels;
      MayCancel();
      BooksQuiet(cfg.metrics, log, prevCache, errorCounts, Cancel);
      Tick(Cancel);
      cancelled := true;
    }

    /**
     `select!` between a backoff sleep and the shutdown flag. A flag that is set on entry is
     seen before the timer is due; one that is set while waiting competes with the timer.
     */
    method SleepBackoff() returns (slept: bool)
      requires Inv() && !W().up && !W().cancelled && !W().reading && !W().due && backoff == BackoffAt(W().sleeps)
      requires |log| <= world.stopAt + 3
      modifies this`step, this`clock, this`log, this`backoff
      ensures Inv() && log == old(log) + [BackoffSleep(old(backoff))]
      ensures W() == Observe(old(W()), BackoffSleep(old(backoff)))
      ensures TotalsOf(cfg.metrics, log) == TotalsOf(cfg.metrics, old(log))
      ensures slept <==> old(step) < world.stopAt && (step < world.stopAt || world.timerFirst(old(step)))
      ensures slept ==> |log| <= world.stopAt && clock >= old(clock) + old(backoff)
      ensures slept ==> backoff == BackoffAt(W().sleeps)
      ensures clock >= old(clock)
      ensures !slept ==> world.stopAt <= |log|
    {
      hide Obeys, TotalsOf, LastSnapshot, Watched, Books;
      var flagged, first := Stopping(), world.timerFirst(step);
      DoubledBackoff(W().sleeps);
      Note(BackoffSleep(backoff));
      slept := !flagged && (!Stopping() || first);
      if slept {
        clock := clock + backoff;
        backoff := Min(backoff * 2, MAX_BACKOFF);
      }
    }

    // ----- connecting -----

    /** The init_writes that follow a successful connect, if there are any. */
    method Initialize() returns (ok: bool)
      requires Inv() && W().up && W().inits == 0 && W().streak == 0 && !W().cancelled && !W().reading
      requires |log| <= world.stopAt + 1
      modifies this`step, this`clock, this`log
      ensures Inv() && |old(log)| <= |log| <= |old(log)| + 1
      ensures W() == if cfg.RunsInit() then Observe(old(W()), InitWrites(ok)) else old(W())
      ensures !cfg.RunsInit() ==> ok
      ensures TotalsOf(cfg.metrics, log) == TotalsOf(cfg.metrics, old(log))
      ensures clock >= old(clock)
    {
      hide Valid, CountersAgree, Published, Watched, TotalsOf;
      ok := true;
      if cfg.RunsInit() {
        StepsAreLogged();
        ok := world.writes(step);
        Note(InitWrites(ok));
      }
    }

    /** Not connected, not cancelled, and due to wait `backoff` before the next attempt. */
    ghost predicate Down()
      reads this
    {
      !W().up && !W().cancelled && !W().reading && W().due && backoff == BackoffAt(W().sleeps)
    }

    /** Connected and initialized, with the backoff reset. */
    ghost predicate Connected()
      reads this
    {
      && W().Ready(cfg) && W().sleeps == 0 && W().streak == 0 && !W().cancelled && !W().reading && !W().due
      && W().reconnected
      && backoff == INITIAL_BACKOFF
    }

    /** The rest of an iteration whose connect succeeded. */
    method InitializeOrWait() returns (r: Attempt)
      requires Inv() && W().up && W().inits == 0 && W().streak == 0 && W().sleeps == 0
      requires !W().cancelled && !W().reading && !W().due && W().reconnected
      requires backoff == INITIAL_BACKOFF && |log| <= world.stopAt + 1
      modifies this`step, this`clock, this`log, this`backoff, this`cancelled
      ensures Inv() && |log| >= |old(log)|
      ensures W().started == old(W()).started
      ensures TotalsOf(cfg.metrics, log) == TotalsOf(cfg.metrics, old(log))
      ensures r == Done ==> Connected() && |log| <= world.stopAt + 2
      ensures r == Retry ==> Down() && |log| <= world.stopAt
      ensures r == Stopped ==> Ended() && !LeftAtHead(log)
    {
      hide Inv, Watched, TotalsOf, BackoffAt;
      var ok := Initialize();
      if ok {
        return Done;
      }
      Note(Event.Disconnect);
      ZeroSleeps();
      var slept := SleepBackoff();
      if !slept {
        CancelOnly();
        return Stopped;
      }
      r := Retry;
    }

    /** One iteration of the initial connect loop. */
    method ConnectAttempt() returns (r: Attempt)
      requires Inv() && Down() && |log| <= world.stopAt
      modifies this`step, this`clock, this`log, this`backoff, this`prePollFailures, this`cancelled
      ensures Inv() && |log| > |old(log)|
      ensures W().started == old(W()).started
      ensures TotalsOf(cfg.metrics, log) == TotalsOf(cfg.metrics, old(log))
      ensures r == Done ==> Connected() && |log| <= world.stopAt + 2
      ensures r == Retry ==> Down() && |log| <= world.stopAt
      ensures r == Stopped ==> Ended() && !LeftAtHead(log)
    {
      hide Inv, Watched, TotalsOf, BackoffAt;
      var ok := Connect();
      if ok {
        r := InitializeOrWait();
        return;
      }
      var slept := SleepBackoff();
      if !slept {
        CancelAndDisconnect();
        return Stopped;
      }
      return Retry;
    }

    /** The initial connect loop. It ends connected, or with the task shut down. */
    method InitialConnect() returns (connected: bool)
      requires Inv() && Down() && |log| <= world.stopAt
      modifies this`step, this`clock, this`log, this`backoff, this`prePollFailures, this`cancelled
      ensures Inv()
      ensures W().started == old(W()).started
      ensures TotalsOf(cfg.metrics, log) == TotalsOf(cfg.metrics, old(log))
      ensures connected ==> Connected() && |log| <= world.stopAt + 2
      ensures !connected ==> Ended() && !LeftAtHead(log)
    {
      hide Inv, Down, Watched, TotalsOf;
      while true
        invariant Inv() && Down() && |log| <= world.stopAt
        invariant W().started == old(W()).started
        invariant TotalsOf(cfg.metrics, log) == TotalsOf(cfg.metrics, old(log))
        decreases world.stopAt - |log|
      {
        var r := ConnectAttempt();
        if r != Retry {
          return r == Done;
        }
      }
    }

    /** There is a reason to disconnect, and time left to reconnect. */
    ghost predicate Due()
      reads this
    {
      && !W().cancelled && !W().due && backoff == BackoffAt(W().sleeps) && |log| <= world.stopAt + 2
      && Allowed(cfg, world.stopAt, log, Event.Disconnect)
    }

    lemma {:induction false} DueAgain()
      requires !W().cancelled && !W().reading && !W().due && (!W().up || !W().Ready(cfg))
      requires backoff == BackoffAt(W().sleeps) && |log| <= world.stopAt + 2
      ensures Due()
    {
    }

    /** One iteration of the reconnect loop. */
    method ReconnectAttempt() returns (r: Attempt)
      requires Inv() && Due()
      modifies this`step, this`clock, this`log, this`backoff, this`prePollFailures, this`cancelled
      ensures Inv() && |log| > |old(log)|
      ensures W().started == old(W()).started
      ensures TotalsOf(cfg.metrics, log) == TotalsOf(cfg.metrics, old(log))
      ensures r != Stopped ==> clock >= old(clock) + old(backoff)
      ensures r == Done ==> Connected() && |log| <= world.stopAt + 2
      ensures r == Retry ==> Due()
      ensures r == Stopped ==> Ended() && !LeftAtHead(log)
    {
      hide Valid, CountersAgree, Published, Watched, TotalsOf, BackoffAt;
      Note(Event.Disconnect);
      var slept := SleepBackoff();
      if !slept {
        CancelAndDisconnect();
        return Stopped;
      }
      var ok := Connect();
      if ok {
        ok := Initialize();
        if ok {
          return Done;
        }
        ZeroSleeps();
      }
      DueAgain();
      return Retry;
    }

    /** `reconnect_with_init_writes`. */
    method Reconnect() returns (connected: bool)
      requires Inv() && Due()
      modifies this`step, this`clock, this`log, this`backoff, this`prePollFailures, this`cancelled
      ensures Inv()
      ensures W().started == old(W()).started
      ensures TotalsOf(cfg.metrics, log) == TotalsOf(cfg.metrics, old(log))
      ensures connected ==> clock >= old(clock) + old(backoff)
      ensures |log| > |old(log)|
      ensures connected ==> Connected() && |log| <= world.stopAt + 2
      ensures !connected ==> Ended() && !LeftAtHead(log)
    {
      hide Inv, Watched, TotalsOf, BackoffAt;
      var r := ReconnectAttempt();
      while r == Retry
        invariant Inv() && |log| > |old(log)|
        invariant W().started == old(W()).started
        invariant TotalsOf(cfg.metrics, log) == TotalsOf(cfg.metrics, old(log))
        invariant r != Stopped ==> clock >= old(clock) + old(backoff)
        invariant r == Done ==> Connected() && |log| <= world.stopAt + 2
        invariant r == Retry ==> Due()
        invariant r == Stopped ==> Ended() && !LeftAtHead(log)
        decreases world.stopAt + 8 - |log|, r
      {
        r := ReconnectAttempt();
      }
      connected := r == Done;
    }

    // ----- one cycle -----

    /** The current cycle has started at `start` and is not closed yet. */
    ghost predicate InCycle(start: nat)
      reads this
    {
      && W().Ready(cfg) && W().sleeps == 0 && W().streak <= 2 && !W().cancelled && !W().due && !W().reconnected
      && backoff == INITIAL_BACKOFF
      && W().started == Some(start) && start <= clock
      && TotalsOf(cfg.metrics, log).starts == TotalsOf(cfg.metrics, log).closed + 1
    }

    /** The cycle that started at `start` is closed, and the connection still up. */
    ghost predicate Closed(start: nat)
      reads this
    {
      && W().Ready(cfg) && W().sleeps == 0 && !W().cancelled && !W().due && !W().reconnected
      && backoff == INITIAL_BACKOFF
      && W().started == Some(start) && start <= clock
      && TotalsOf(cfg.metrics, log).starts == TotalsOf(cfg.metrics, log).closed
      && |log| > 0 && !log[|log| - 1].CycleStart?
    }

    /** The top of the main loop: count the poll, then look at the shutdown flag. */
    method BeginCycle() returns (go: bool, start: nat)
      requires Inv() && AtHead()
      modifies this`step, this`clock, this`log, this`cancelled, stats
      ensures Inv() && |log| > |old(log)|
      ensures go ==> InCycle(start) && !W().reading && |log| < world.stopAt
      ensures !go ==> Ended() && LeftAtHead(log)
      ensures !go ==> TotalsOf(cfg.metrics, log).starts == TotalsOf(cfg.metrics, log).closed + 1
    {
      hide Obeys, TotalsOf, LastSnapshot, Watched, Books;
      start := clock;
      BooksQuiet(cfg.metrics, log, prevCache, errorCounts, CycleStart(start));
      Tick(CycleStart(start));
      if stats != null {
        stats.pollsTotal := stats.pollsTotal + 1;
      }
      go := !Stopping();
      if !go {
        CancelAndDisconnect();
      }
    }

    /** The pre_poll writes. Two failures in a row skip their cycles, the third forces a reconnect. */
    method PrePollPhase(start: nat) returns (r: PollResult)
      requires Inv() && InCycle(start) && !W().reading && |log| < world.stopAt
      modifies this`step, this`clock, this`log, this`prePollFailures, stats
      ensures Inv() && !W().reading && |old(log)| <= |log| <= world.stopAt
      ensures r == Proceed ==> InCycle(start) && (cfg.RunsPrePoll() ==> W().polled)
      ensures r == Proceed ==> log == old(log) || (log == old(log) + [PrePoll(true)])
      ensures r != Proceed ==> Closed(start) && (stats != null ==> stats.lastPollDuration == clock - start)
      ensures r == Skip ==> W().streak <= 2
      ensures r == Strike ==> W().streak >= 3
    {
      hide Obeys, TotalsOf, LastSnapshot, Watched, Books;
      if !cfg.RunsPrePoll() {
        return Proceed;
      }
      var ok := world.writes(step);
      BooksQuiet(cfg.metrics, log, prevCache, errorCounts, PrePoll(ok));
      Tick(PrePoll(ok));
      if ok {
        prePollFailures := 0;
        return Proceed;
      }
      prePollFailures := prePollFailures + 1;
      if stats != null {
        stats.RecordPoll(clock - start, true);
      }
      return if prePollFailures >= 3 then Strike else Skip;
    }

    /** The read of a cycle and the loop over its results. A lost connection closes the cycle. */
    method ReadPhase(start: nat) returns (t: Tally)
      requires Inv() && InCycle(start) && !W().reading && (cfg.RunsPrePoll() ==> W().polled)
      requires |log| < world.stopAt || (|log| <= world.stopAt + 1 && |log| > 0 && log[|log| - 1].PrePoll?)
      modifies this`step, this`clock, this`log, this`errorCounts, stats
      ensures Inv() && W() == old(W()).(reading := true)
      ensures log == old(log) + [Event.Read(world.results(old(step)), world.ioCounts(old(step)))]
      ensures t == Absorbed(cfg.metrics, Tally(map[], old(errorCounts), 0, false, false), world.results(old(step)))
      ensures errorCounts == t.errors
      ensures if t.lost then Closed(start) else InCycle(start)
      ensures t.lost && stats != null ==> stats.lastPollDuration == clock - start
    {
      hide Obeys, TotalsOf, LastSnapshot, Watched, Books, Absorbed, Allowed, Permits, InTime, LosesConnection, FailuresIn;
      hide Lists, AllLabelled, BaseLabels;
      var entries, ioCount := world.results(step), world.ioCounts(step);
      BooksAfterRead(cfg.metrics, log, prevCache, errorCounts, entries, ioCount);
      AbsorbedTotals(cfg.metrics, errorCounts, entries);
      ReadAllowed(cfg, world.stopAt, log, Event.Read(entries, ioCount));
      Tick(Event.Read(entries, ioCount));
      t := HandleResults(cfg.metrics, entries, errorCounts);
      errorCounts := t.errors;
      if stats != null {
        stats.RecordRead(ioCount, t.failed);
        if t.lost {
          stats.RecordPoll(clock - start, true);
        }
      }
    }

    /** The merged cache: this cycle's values, older values of other names, and the error counts. */
    method MergedCache(t: Tally, ghost before: seq<Event>, ghost errors: ErrorCounts, ghost entries: seq<ReadEntry>,
        ghost io: nat)
      returns (cache: Cache)
      requires Books(cfg.metrics, before, prevCache, errors)
      requires t == Absorbed(cfg.metrics, Tally(map[], errors, 0, false, false), entries)
      requires errorCounts == t.errors && !t.lost
      ensures KeyedByName(cache)
      ensures Books(cfg.metrics, before + [Event.Read(entries, io)] + [Event.Publish(cache)], cache, errorCounts)
      ensures cache == Snapshot(cfg.metrics, prevCache, errors, entries, clock)
    {
      hide Books, Absorbed, CarryForward, WithErrorCounts;
      AbsorbedTotals(cfg.metrics, errors, entries);
      BooksAfterPublish(cfg.metrics, before, prevCache, errors, entries, io, clock);
      cache := MergePrevious(t.local, prevCache, clock);
      cache := PublishErrorCounts(cache, errorCounts, clock);
    }

    method PublishToStore(cache: Cache)
      requires KeyedByName(cache)
      modifies store
      ensures cfg.name in store.inner
      ensures Lists(store.inner[cfg.name], AllLabelled(cache, BaseLabels(cfg.name, globalLabels, cfg.labels)))
      ensures OthersKept(old(store.inner), store.inner, cfg.name)
    {
      hide Lists, Deduped, AllLabelled, BaseLabels;
      var values := IntoValues(cache);
      DedupedList(values, cache, BaseLabels(cfg.name, globalLabels, cfg.labels));
      store.Publish(cfg.name, values, globalLabels, cfg.labels);
    }

    /** Publish to the store, and remember the published cache. */
    method PublishCache(cache: Cache)
      requires Valid() && KeyedByName(cache)
      requires Allowed(cfg, world.stopAt, log, Event.Publish(cache))
      requires Books(cfg.metrics, log + [Event.Publish(cache)], cache, errorCounts)
      modifies this`step, this`clock, this`log, this`prevCache, store
      ensures Valid() && Published() && prevCache == cache
      ensures log == old(log) + [Event.Publish(cache)] && clock >= old(clock)
      ensures W() == Observe(old(W()), Event.Publish(cache))
      ensures TotalsOf(cfg.metrics, log) == Tallied(cfg.metrics, TotalsOf(cfg.metrics, old(log)), Event.Publish(cache))
      ensures OthersKept(old(store.inner), store.inner, cfg.name)
    {
      hide Obeys, TotalsOf, LastSnapshot, Watched, Books, Lists, AllLabelled, BaseLabels, OthersKept, Published;
      hide Allowed, Permits, InTime, Tallied;
      Tick(Event.Publish(cache));
      PublishToStore(cache);
      prevCache := cache;
      PublishedNow(cache);
    }

    /** Record the poll, merge, and publish. */
    method PublishPhase(start: nat, t: Tally, ghost before: seq<Event>, ghost errors: ErrorCounts)
      requires Inv() && InCycle(start) && W().reading && Books(cfg.metrics, before, prevCache, errors)
      requires log != [] && log[|log| - 1].Read? && log == before + [log[|log| - 1]]
      requires t == Absorbed(cfg.metrics, Tally(map[], errors, 0, false, false), log[|log| - 1].entries)
      requires errorCounts == t.errors && !t.lost
      requires TotalsOf(cfg.metrics, log).cleanRead == !t.hadError
      requires |log| <= world.stopAt + 2
      modifies this`step, this`clock, this`log, this`prevCache, this`backoff, stats, store
      ensures Inv() && Closed(start) && W() == old(W()).(reading := false)
      ensures log == old(log) + [Event.Publish(prevCache)]
      ensures prevCache == Snapshot(cfg.metrics, old(prevCache), errors, old(log[|log| - 1].entries), old(clock))
      ensures stats != null ==> stats.lastPollDuration == old(clock) - start
      ensures OthersKept(old(store.inner), store.inner, cfg.name)
    {
      hide Obeys, TotalsOf, LastSnapshot, Watched, Books, Absorbed, Lists, Deduped, Snapshot;
      hide Allowed, Permits, InTime, AllLabelled, BaseLabels, OthersKept, LosesConnection, FailuresIn, Published;
      backoff := INITIAL_BACKOFF;
      if stats != null {
        stats.RecordPoll(clock - start, t.hadError);
      }
      var localCache := MergedCache(t, before, errors, log[|log| - 1].entries, log[|log| - 1].ioCount);
      AbsorbedTotals(cfg.metrics, errors, log[|log| - 1].entries);
      PublishAllowed(cfg, world.stopAt, log, localCache);
      PublishCache(localCache);
    }

    lemma {:induction false} PublishedNow(snapshot: Cache)
      requires LastSnapshot(log) == Some(snapshot) && cfg.name in store.inner
      requires Lists(store.inner[cfg.name], AllLabelled(snapshot, BaseLabels(cfg.name, globalLabels, cfg.labels)))
      ensures Published()
    {
    }

    /** `select!` between the rest of the polling interval and the shutdown flag. */
    method SleepPoll(remaining: nat) returns (slept: bool)
      requires Inv() && W().Ready(cfg) && !W().cancelled && !W().reading && W().streak <= 2
      requires !W().reconnected && W().started.Some? && clock >= W().started.value && remaining > 0
      requires clock + remaining == W().started.value + cfg.pollingInterval && |log| <= world.stopAt + 3
      modifies this`step, this`clock, this`log
      ensures Inv() && log == old(log) + [PollSleep(old(clock), remaining)] && W() == old(W())
      ensures TotalsOf(cfg.metrics, log) == TotalsOf(cfg.metrics, old(log))
      ensures step == old(step) + 1 && (slept <==> step < world.stopAt || world.timerFirst(old(step)))
      ensures slept ==> clock >= old(clock) + remaining
      ensures !slept ==> world.stopAt <= |log|
      ensures clock >= old(clock)
    {
      hide Obeys, TotalsOf, LastSnapshot, Watched, Books;
      var first := world.timerFirst(step);
      Note(PollSleep(clock, remaining));
      slept := !Stopping() || first;
      if slept {
        clock := clock + remaining;
      }
    }

    /**
     The end of an iteration. After a published cycle that used up its interval the flag is
     looked at here; after a skipped one only at the head of the loop.
     */
    method WaitForNext(start: nat, published: bool) returns (go: bool)
      requires Inv() && Closed(start) && !W().reading && W().streak <= 2
      requires |log| <= world.stopAt + 3
      modifies this`step, this`clock, this`log, this`cancelled
      ensures Inv() && |log| >= |old(log)|
      ensures TotalsOf(cfg.metrics, log) == TotalsOf(cfg.metrics, old(log))
      ensures go ==> AtHead()
      ensures !go ==> Ended() && !LeftAtHead(log)
      ensures old(clock) - start >= cfg.pollingInterval ==> (go <==> !published || old(step) < world.stopAt)
      ensures old(clock) - start < cfg.pollingInterval ==>
        (go <==> old(step) + 1 < world.stopAt || world.timerFirst(old(step)))
    {
      hide Valid, CountersAgree, Published, TotalsOf, Watched;
      var elapsed := clock - start;
      go := true;
      if elapsed < cfg.pollingInterval {
        go := SleepPoll(cfg.pollingInterval - elapsed);
      } else if published && Stopping() {
        StepsAreLogged();
        go := false;
      }
      if !go {
        CancelAndDisconnect();
      }
    }

    /** The read of a cycle and, unless it loses the connection, the publication of its results. */
    method ReadAndPublish(start: nat) returns (published: bool)
      requires Inv() && InCycle(start) && !W().reading && (cfg.RunsPrePoll() ==> W().polled)
      requires |log| < world.stopAt || (|log| <= world.stopAt + 1 && |log| > 0 && log[|log| - 1].PrePoll?)
      modifies this`step, this`clock, this`log, this`backoff, this`prevCache, this`errorCounts, stats, store
      ensures Inv() && |old(log)| < |log| <= world.stopAt + 3
      ensures Closed(start)
      ensures published ==> !W().reading && W().streak <= 2
      ensures !published ==> Due()
      ensures OthersKept(old(store.inner), store.inner, cfg.name)
    {
      hide Valid, CountersAgree, Published, TotalsOf, Watched, Books, Absorbed, Snapshot, Due;
      ghost var before, errors := log, errorCounts;
      BooksOfInv();
      var t := ReadPhase(start);
      if t.lost {
        LossIsDue(start, errors);
        return false;
      }
      TotalsOfRead(before, errors);
      PublishPhase(start, t, before, errors);
      published := true;
    }

    /** One iteration of the main loop. */
    method Cycle() returns (go: bool)
      requires Inv() && AtHead()
      modifies this`step, this`clock, this`log, this`cancelled, this`prePollFailures, this`backoff
      modifies this`prevCache, this`errorCounts, stats, store
      ensures Inv() && |log| > |old(log)|
      ensures go ==> AtHead()
      ensures !go ==> Ended() && ExitTotals()
      ensures OthersKept(old(store.inner), store.inner, cfg.name)
    {
      hide Inv, Due, TotalsOf, Watched;
      var start;
      go, start := BeginCycle();
      if !go {
        return;
      }
      var r := PrePollPhase(start);
      if r == Skip {
        go := WaitForNext(start, false);
        return;
      }
      if r == Strike {
        StrikeIsDue(start);
        go := Reconnect();
        return;
      }
      var published := ReadAndPublish(start);
      if published {
        go := WaitForNext(start, true);
      } else {
        go := Reconnect();
      }
    }

    lemma {:induction false} StepsAreLogged()
      requires Valid()
      ensures step == |log|
    {
    }

    lemma {:induction false} StrikeIsDue(start: nat)
      requires Closed(start) && W().streak >= 3 && !W().reading && |log| <= world.stopAt + 2
      ensures Due()
    {
      ZeroSleeps();
    }

    lemma {:induction false} LossIsDue(start: nat, errors: ErrorCounts)
      requires Closed(start) && W().reading && |log| <= world.stopAt + 2
      requires log[|log| - 1].Read? && W().streak <= 2
      requires Absorbed(cfg.metrics, Tally(map[], errors, 0, false, false), log[|log| - 1].entries).lost
      ensures Due()
    {
      ZeroSleeps();
      AbsorbedTotals(cfg.metrics, errors, log[|log| - 1].entries);
    }

    lemma {:induction false} BooksOfInv()
      requires Inv()
      ensures Books(cfg.metrics, log, prevCache, errorCounts)
    {
    }

    lemma {:induction false} TotalsOfRead(before: seq<Event>, errors: ErrorCounts)
      requires log != [] && log[|log| - 1].Read? && log == before + [log[|log| - 1]]
      ensures TotalsOf(cfg.metrics, log).cleanRead
           == !Absorbed(cfg.metrics, Tally(map[], errors, 0, false, false), log[|log| - 1].entries).hadError
    {
      TotalsSnoc(cfg.metrics, before, log[|log| - 1]);
      AbsorbedTotals(cfg.metrics, errors, log[|log| - 1].entries);
    }

    /** At exit the polls are balanced, or short by the one that the head of the loop gave up. */
    ghost predicate ExitTotals()
      reads this
    {
      var t := TotalsOf(cfg.metrics, log);
      && t.closed <= t.starts <= t.closed + 1
      && (t.starts == t.closed + 1 <==> LeftAtHead(log))
    }

    /**
     The whole task. It always ends, because the shutdown flag is set at some step; whatever
     it does before that step it would also do if it were never told to stop.
     */
    method Run()
      requires Inv() && log == [] && backoff == INITIAL_BACKOFF
      modifies this`step, this`clock, this`log, this`cancelled, this`prePollFailures, this`backoff
      modifies this`prevCache, this`errorCounts, stats, store
      ensures Inv() && Ended() && ExitTotals()
      ensures OthersKept(old(store.inner), store.inner, cfg.name)
    {
      StartIsDown();
      hide Inv, AtHead, Ended, ExitTotals, TotalsOf, Watched;
      var go := InitialConnect();
      AfterInitialConnect(go);
      while go
        invariant Inv()
        invariant go ==> AtHead()
        invariant !go ==> Ended() && ExitTotals()
        invariant OthersKept(old(store.inner), store.inner, cfg.name)
        decreases world.stopAt + 7 - |log|, go
      {
        ghost var before := store.inner;
        go := Cycle();
        OthersKeptTwice(old(store.inner), before, store.inner, cfg.name);
        AtMostSeven();
      }
    }

    /**
     At every point between steps: each read error is counted for its metric or belongs to a
     cycle that lost its connection, and the closed cycles are the successes and the errors.
     */
    lemma {:induction false} CountersAddUp()
      requires Inv() && stats != null
      ensures stats.readErrors == SumOf(errorCounts) + TotalsOf(cfg.metrics, log).losses
      ensures stats.pollsSuccess + stats.pollsError == TotalsOf(cfg.metrics, log).closed
      ensures stats.pollsTotal == TotalsOf(cfg.metrics, log).starts
      ensures AtHead() ==> stats.pollsTotal == stats.pollsSuccess + stats.pollsError
    {
      hide TotalsOf, SumOf, Watched, Obeys;
    }

    lemma {:induction false} SnapshotShowsLastGood(name: string)
      requires Valid() && NoClash(cfg.metrics) && Configured(cfg.metrics, name)
      requires LastSnapshot(log).Some?
      ensures var snapshot := LastSnapshot(log).value;
        && (name in snapshot <==> LastGood(log, name).Some?)
        && (name in snapshot ==> snapshot[name].value == LastGood(log, name).value)
    {
      hide LastGood, Obeys, TotalsOf, Watched, Configured, NoClash, Faithful, CacheAgrees, LastSnapshot;
      var p := LatestPublish(log);
      FaithfulAt(cfg.metrics, log[..p + 1], log[p].snapshot, name);
      assert log == log[..p + 1] + log[p + 1..];
      LastGoodUntilPublish(log[..p + 1], log[p + 1..], name);
    }

    /**
     Once something is published, the store shows for each metric that ever succeeded in a
     published cycle exactly one entry, its latest such success. No other metric has an entry.
     */
    lemma {:induction false} StoreShowsLastGood(name: string)
      requires Inv() && NoClash(cfg.metrics) && Configured(cfg.metrics, name)
      requires LastSnapshot(log).Some?
      ensures var shown := store.MetricsFor(cfg.name);
        && (LastGood(log, name).Some? <==> exists i | 0 <= i < |shown| :: shown[i].name == name)
        && (forall i, j | 0 <= i < j < |shown| :: shown[i].name != shown[j].name)
        && (forall i | 0 <= i < |shown| && shown[i].name == name ::
              LastGood(log, name).Some? && shown[i].value == LastGood(log, name).value)
    {
      hide LastGood, Valid, CountersAgree, BaseLabels, NoClash, LastSnapshot, FinalLabels, Configured;
      SnapshotShowsLastGood(name);
      var labelled := AllLabelled(LastSnapshot(log).value, BaseLabels(cfg.name, globalLabels, cfg.labels));
      assert name in labelled <==> LastGood(log, name).Some?;
    }

    lemma {:induction false} StartIsDown()
      requires Inv() && log == [] && backoff == INITIAL_BACKOFF
      ensures Down()
    {
      ZeroSleeps();
    }

    lemma {:induction false} AfterInitialConnect(connected: bool)
      requires W().started.None? && TotalsOf(cfg.metrics, log) == TotalsOf(cfg.metrics, [])
      requires connected ==> Connected() && |log| <= world.stopAt + 2
      requires !connected ==> Ended() && !LeftAtHead(log)
      ensures connected ==> AtHead()
      ensures !connected ==> Ended() && ExitTotals()
    {
    }

    lemma {:induction false} AtMostSeven()
      requires Inv()
      ensures |log| <= world.stopAt + 7
    {
      ShutdownIsBounded(cfg, world.stopAt, log);
    }
  }

  /** Every entry but that of `name` is as it was. */
  ghost predicate OthersKept(before: map<string, seq<MetricValue>>, after: map<string, seq<MetricValue>>, name: string) {
    after.Keys <= before.Keys + {name} && before.Keys <= after.Keys &&
    forall c | c in before && c != name :: after[c] == before[c]
  }

  lemma {:induction false} OthersKeptTwice(a: map<string, seq<MetricValue>>, b: map<string, seq<MetricValue>>,
      c: map<string, seq<MetricValue>>, name: string)
    requires OthersKept(a, b, name) && OthersKept(b, c, name)
    ensures OthersKept(a, c, name)
  {
  }

  lemma {:induction false} ZeroSleeps()
    ensures BackoffAt(0) == INITIAL_BACKOFF
  {
  }
}
