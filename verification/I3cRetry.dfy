/** Address resolution and the retry loop of I3C reads (src/reader/i3c/mod.rs:149-381). */
module I3cRetry {
  import opened Wrappers
  import opened Domain

  datatype AddressMode =
    | Pid(pid: string)
    | Static(addr: u8)
    | DeviceClass(class_: string, instance: u8)

  type Answer = Result<seq<u8>, string>

  /** Sysfs and the device: any answers, which may depend on the step at which they are given. */
  datatype Bus = Bus(resolve: nat -> Result<u8, string>, transfer: (nat, u8) -> Answer)

  datatype Event =
    | Slept(ms: nat)
    | Resolved(address: Result<u8, string>)
    | Transferred(addr: u8, answer: Answer)

  const BACKOFFS: seq<nat> := [100, 500, 2000]

  // ----- which errors are worth a retry -----

  function Lower(s: string): (r: string)
    ensures |r| == |s|
  {
    seq(|s|, i requires 0 <= i < |s| => if 'A' <= s[i] <= 'Z' then s[i] + 32 as char else s[i])
  }

  predicate Contains(s: string, part: string) {
    part <= s || (s != "" && Contains(s[1..], part))
  }

  /** A NACK or another transfer error, recognized by its message. */
  predicate IsTransferError(message: string) {
    var msg := Lower(message);
    || Contains(msg, "nack")
    || Contains(msg, "transfer")
    || Contains(msg, "i/o error")
    || Contains(msg, "io error")
    || Contains(msg, "connection reset")
    || Contains(msg, "remote i/o")
  }

  lemma {:induction false} ContainsExactly(s: string, part: string)
    ensures Contains(s, part) <==> exists i | 0 <= i <= |s| :: part <= s[i..]
  {
    assert s[0..] == s;
    if s != "" {
      ContainsExactly(s[1..], part);
      if i :| 0 <= i <= |s| - 1 && part <= s[1..][i..] {
        assert s[1..][i..] == s[i + 1..];
      }
      if i :| 1 <= i <= |s| && part <= s[i..] {
        assert s[1..][i - 1..] == s[i..];
      }
    }
  }

  ghost predicate OccursIn(part: string, s: string) {
    exists i | 0 <= i <= |s| :: part <= s[i..]
  }

  /** A message counts as a transfer error exactly if one of six texts occurs in it, in whatever case. */
  lemma {:induction false} TransferErrorExactly(message: string)
    ensures var msg := Lower(message);
      IsTransferError(message) <==>
        (|| OccursIn("nack", msg) || OccursIn("transfer", msg) || OccursIn("i/o error", msg)
         || OccursIn("io error", msg) || OccursIn("connection reset", msg) || OccursIn("remote i/o", msg))
  {
    hide Contains, Lower;
    var msg := Lower(message);
    ContainsExactly(msg, "nack");
    ContainsExactly(msg, "transfer");
    ContainsExactly(msg, "i/o error");
    ContainsExactly(msg, "io error");
    ContainsExactly(msg, "connection reset");
    ContainsExactly(msg, "remote i/o");
  }

  /** A message shorter than every marker is never retried. */
  lemma {:induction false} ShortMessagesAreFinal(message: string)
    requires |message| < 4
    ensures !IsTransferError(message)
  {
    hide IsTransferError;
    TransferErrorExactly(message);
  }

  /** Case does not matter. */
  lemma {:induction false} AnyCaseIsRetried()
    ensures IsTransferError("NACK") && IsTransferError("nack")
  {
    hide IsTransferError;
    TransferErrorExactly("NACK");
    TransferErrorExactly("nack");
    assert Lower("NACK") == "nack" && Lower("nack") == "nack";
    assert "nack" <= "nack"[0..];
  }

  // ----- the shape of one read -----

  /** Exactly one transfer, to the cached address or to one that was resolved just before it. */
  ghost predicate Opening(cached: Option<u8>, events: seq<Event>, r: Answer) {
    match cached
    case Some(addr) => events == [Transferred(addr, r)]
    case None => exists addr :: events == [Resolved(Ok(addr)), Transferred(addr, r)]
  }

  /**
   One retry: a wait, then in a dynamic mode a fresh resolution, whose failure ends the
   attempt, then one transfer to the fresh address. A static address is used as it is.
   */
  ghost predicate Attempt(mode: AddressMode, events: seq<Event>, ms: nat, r: Answer) {
    if mode.Static? then
      events == [Slept(ms), Transferred(mode.addr, r)]
    else
      || (r.Err? && events == [Slept(ms), Resolved(Err(r.error))])
      || exists addr :: events == [Slept(ms), Resolved(Ok(addr)), Transferred(addr, r)]
  }

  function Flat(parts: seq<seq<Event>>): seq<Event> {
    if parts == [] then [] else Flat(parts[..|parts| - 1]) + parts[|parts| - 1]
  }

  /** Attempts with the given outcomes: all but the last fail. */
  ghost predicate Retries(mode: AddressMode, attempts: seq<seq<Event>>, outcomes: seq<Answer>) {
    && |attempts| == |outcomes| <= |BACKOFFS|
    && (forall i | 0 <= i < |attempts| :: Attempt(mode, attempts[i], BACKOFFS[i], outcomes[i]))
    && (forall i | 0 <= i < |outcomes| - 1 :: outcomes[i].Err?)
  }

  /** What one call does and returns. */
  ghost predicate OneRead(mode: AddressMode, cached: Option<u8>, events: seq<Event>, result: Answer) {
    || (cached.None? && result.Err? && events == [Resolved(Err(result.error))])
    || exists opening, first, attempts, outcomes ::
         OpenedThenRetried(mode, cached, opening, first, attempts, outcomes, events, result)
  }

  ghost predicate OpenedThenRetried(mode: AddressMode, cached: Option<u8>, opening: seq<Event>, first: Answer,
      attempts: seq<seq<Event>>, outcomes: seq<Answer>, events: seq<Event>, result: Answer)
  {
    && events == opening + Flat(attempts)
    && Opening(cached, opening, first)
    && Retries(mode, attempts, outcomes)
    && if first.Ok? || !IsTransferError(first.error) then
         attempts == [] && result == first
       else
         && outcomes != [] && result == outcomes[|outcomes| - 1]
         && (result.Err? ==> |attempts| == |BACKOFFS|)
  }

  class I3cMetricReader {
    const mode: AddressMode
    const bus: Bus
    var resolvedAddress: Option<u8>
    var step: nat
    ghost var log: seq<Event>

    ghost predicate Valid()
      reads this
    {
      mode.Static? ==> resolvedAddress == Some(mode.addr)
    }

    constructor (mode: AddressMode, bus: Bus)
      ensures this.mode == mode && this.bus == bus && log == [] && Valid()
      ensures !mode.Static? ==> resolvedAddress == None
    {
      this.mode, this.bus := mode, bus;
      resolvedAddress := if mode.Static? then Some(mode.addr) else None;
      step, log := 0, [];
    }

    method ResolveAddress() returns (r: Result<u8, string>)
      requires Valid()
      modifies this
      ensures Valid()
      ensures log == old(log) + if old(resolvedAddress).Some? then [] else [Resolved(r)]
      ensures old(resolvedAddress).Some? ==> r == Ok(old(resolvedAddress).value)
      ensures resolvedAddress == if r.Ok? then Some(r.value) else None
    {
      if resolvedAddress.Some? {
        return Ok(resolvedAddress.value);
      }
      r := bus.resolve(step);
      step, log := step + 1, log + [Resolved(r)];
      if r.Ok? {
        resolvedAddress := Some(r.value);
      }
    }

    method InvalidateAddress()
      requires Valid()
      modifies this`resolvedAddress
      ensures Valid()
      ensures resolvedAddress == if mode.Static? then Some(mode.addr) else None
    {
      if !mode.Static? {
        resolvedAddress := None;
      }
    }

    method Transfer(addr: u8) returns (r: Answer)
      modifies this`step, this`log
      ensures log == old(log) + [Transferred(addr, r)]
    {
      r := bus.transfer(step, addr);
      step, log := step + 1, log + [Transferred(addr, r)];
    }

    /** One iteration of the retry loop. */
    method RetryOnce(ms: nat) returns (r: Answer, ghost events: seq<Event>)
      requires Valid()
      modifies this
      ensures Valid()
      ensures log == old(log) + events && Attempt(mode, events, ms, r)
    {
      events := [Slept(ms)];
      step, log := step + 1, log + [Slept(ms)];
      InvalidateAddress();
      var resolved := ResolveAddress();
      if !mode.Static? {
        events := events + [Resolved(resolved)];
      }
      match resolved {
        case Ok(addr) =>
          r := Transfer(addr);
          events := events + [Transferred(addr, r)];
        case Err(e) =>
          r := Err(e);
      }
    }

    /** The retry loop. */
    method RetryLoop() returns (result: Answer, ghost attempts: seq<seq<Event>>, ghost outcomes: seq<Answer>)
      requires Valid()
      modifies this
      ensures Valid()
      ensures log == old(log) + Flat(attempts)
      ensures Retries(mode, attempts, outcomes)
      ensures outcomes != [] && result == outcomes[|outcomes| - 1]
      ensures result.Err? ==> |attempts| == |BACKOFFS|
    {
      hide Attempt, Retries, Flat;
      attempts, outcomes := [], [];
      NoRetries(mode);
      result := Err("");
      for attempt := 0 to |BACKOFFS|
        invariant Valid() && |attempts| == |outcomes| == attempt
        invariant log == old(log) + Flat(attempts)
        invariant Retries(mode, attempts, outcomes)
        invariant forall i | 0 <= i < |outcomes| :: outcomes[i].Err?
        invariant attempt > 0 ==> result == outcomes[attempt - 1]
      {
        ghost var more;
        result, more := RetryOnce(BACKOFFS[attempt]);
        FlatSnoc(attempts, more);
        RetriesSnoc(mode, attempts, outcomes, more, result);
        attempts, outcomes := attempts + [more], outcomes + [result];
        if result.Ok? {
          return;
        }
      }
    }

    /** `read_register_sync`. */
    method ReadRegister() returns (result: Answer, ghost events: seq<Event>)
      requires Valid()
      modifies this
      ensures Valid()
      ensures log == old(log) + events
      ensures OneRead(mode, old(resolvedAddress), events, result)
    {
      hide Attempt, IsTransferError, Retries, Flat;
      ghost var cached := resolvedAddress;
      var address := ResolveAddress();
      if address.Err? {
        return Err(address.error), [Resolved(Err(address.error))];
      }
      result := Transfer(address.value);
      ghost var first := result;
      events := if cached.Some? then [Transferred(address.value, first)]
        else [Resolved(address), Transferred(address.value, first)];
      ghost var opening := events;
      NoRetries(mode);
      if result.Ok? || !IsTransferError(result.error) {
        assert OpenedThenRetried(mode, cached, opening, first, [], [], events, result);
        return;
      }
      ghost var attempts, outcomes;
      result, attempts, outcomes := RetryLoop();
      events := events + Flat(attempts);
      assert OpenedThenRetried(mode, cached, opening, first, attempts, outcomes, events, result);
    }
  }

  lemma {:induction false} NoRetries(mode: AddressMode)
    ensures Retries(mode, [], []) && Flat([]) == []
  {
  }

  lemma {:induction false} RetriesSnoc(mode: AddressMode, attempts: seq<seq<Event>>, outcomes: seq<Answer>,
      events: seq<Event>, r: Answer)
    requires Retries(mode, attempts, outcomes) && |attempts| == |outcomes| < |BACKOFFS|
    requires forall i | 0 <= i < |outcomes| :: outcomes[i].Err?
    requires Attempt(mode, events, BACKOFFS[|attempts|], r)
    ensures Retries(mode, attempts + [events], outcomes + [r])
  {
    hide Attempt;
  }

  lemma {:induction false} FlatSnoc(parts: seq<seq<Event>>, part: seq<Event>)
    ensures Flat(parts + [part]) == Flat(parts) + part
  {
    assert (parts + [part])[..|parts|] == parts;
  }

  // ----- what the shape implies -----

  function Transfers(events: seq<Event>): seq<(u8, Answer)> {
    if events == [] then []
    else
      var front, e := Transfers(events[..|events| - 1]), events[|events| - 1];
      if e.Transferred? then front + [(e.addr, e.answer)] else front
  }

  function Sleeps(events: seq<Event>): seq<nat> {
    if events == [] then []
    else
      var front, e := Sleeps(events[..|events| - 1]), events[|events| - 1];
      if e.Slept? then front + [e.ms] else front
  }

  lemma {:induction false} CountsConcat(a: seq<Event>, b: seq<Event>)
    ensures Transfers(a + b) == Transfers(a) + Transfers(b)
    ensures Sleeps(a + b) == Sleeps(a) + Sleeps(b)
  {
    if b == [] {
      assert a + b == a;
    } else {
      CountsConcat(a, b[..|b| - 1]);
      assert (a + b)[..|a + b| - 1] == a + b[..|b| - 1];
    }
  }

  lemma {:induction false} CountsOne(e: Event)
    ensures Transfers([e]) == if e.Transferred? then [(e.addr, e.answer)] else []
    ensures Sleeps([e]) == if e.Slept? then [e.ms] else []
  {
    assert [e][..0] == [];
  }

  lemma {:induction false} CountsFew(a: Event, b: Event, c: Event)
    ensures Transfers([a, b]) == Transfers([a]) + Transfers([b]) && Sleeps([a, b]) == Sleeps([a]) + Sleeps([b])
    ensures Transfers([a, b, c]) == Transfers([a, b]) + Transfers([c]) && Sleeps([a, b, c]) == Sleeps([a, b]) + Sleeps([c])
  {
    CountsConcat([a], [b]);
    CountsConcat([a, b], [c]);
    assert [a] + [b] == [a, b] && [a, b] + [c] == [a, b, c];
  }

  lemma {:induction false} AttemptCounts(mode: AddressMode, events: seq<Event>, ms: nat, r: Answer)
    requires Attempt(mode, events, ms, r)
    ensures Sleeps(events) == [ms]
    ensures |Transfers(events)| <= 1
    ensures |Transfers(events)| == 1 ==> Transfers(events)[0].1 == r
    ensures |Transfers(events)| == 1 && mode.Static? ==> Transfers(events)[0].0 == mode.addr
    ensures r.Ok? ==> |Transfers(events)| == 1
  {
    hide Transfers, Sleeps;
    CountsOne(events[0]);
    CountsOne(events[1]);
    CountsOne(events[|events| - 1]);
    CountsFew(events[0], events[1], events[|events| - 1]);
  }

  predicate AllFailed(transfers: seq<(u8, Answer)>) {
    forall i | 0 <= i < |transfers| :: transfers[i].1.Err?
  }

  predicate AllTo(addr: u8, transfers: seq<(u8, Answer)>) {
    forall i | 0 <= i < |transfers| :: transfers[i].0 == addr
  }

  /** A failed result saw no success; a successful one is the last transfer's, after failures only. */
  ghost predicate EndsWith(transfers: seq<(u8, Answer)>, r: Answer) {
    if r.Err? then AllFailed(transfers)
    else transfers != [] && transfers[|transfers| - 1].1 == r && AllFailed(transfers[..|transfers| - 1])
  }

  lemma {:induction false} EndsAfterFailures(a: seq<(u8, Answer)>, b: seq<(u8, Answer)>, r: Answer)
    requires AllFailed(a) && EndsWith(b, r)
    ensures EndsWith(a + b, r)
  {
    if r.Ok? {
      assert (a + b)[..|a + b| - 1] == a + b[..|b| - 1];
    }
  }

  lemma {:induction false} RetriesFront(mode: AddressMode, attempts: seq<seq<Event>>, outcomes: seq<Answer>)
    requires Retries(mode, attempts, outcomes) && attempts != []
    ensures Retries(mode, attempts[..|attempts| - 1], outcomes[..|attempts| - 1])
    ensures Attempt(mode, attempts[|attempts| - 1], BACKOFFS[|attempts| - 1], outcomes[|attempts| - 1])
    ensures |attempts| > 1 ==> outcomes[|attempts| - 2].Err?
    ensures Flat(attempts) == Flat(attempts[..|attempts| - 1]) + attempts[|attempts| - 1]
  {
    hide Attempt;
  }

  /** What the retries of one read transfer and how long they wait. */
  ghost predicate Counted(mode: AddressMode, attempts: seq<seq<Event>>, outcomes: seq<Answer>)
    requires |attempts| == |outcomes| <= |BACKOFFS|
  {
    var transfers := Transfers(Flat(attempts));
    && Sleeps(Flat(attempts)) == BACKOFFS[..|attempts|]
    && |transfers| <= |attempts|
    && (mode.Static? ==> AllTo(mode.addr, transfers))
    && if attempts == [] then transfers == [] else EndsWith(transfers, outcomes[|outcomes| - 1])
  }

  lemma {:induction false} CountedSnoc(mode: AddressMode, front: seq<seq<Event>>, outcomes: seq<Answer>,
      last: seq<Event>, r: Answer)
    requires |front| == |outcomes| < |BACKOFFS| && Counted(mode, front, outcomes)
    requires front != [] ==> outcomes[|outcomes| - 1].Err?
    requires Attempt(mode, last, BACKOFFS[|front|], r)
    ensures Counted(mode, front + [last], outcomes + [r])
  {
    hide Attempt, Transfers, Sleeps, Flat;
    FlatSnoc(front, last);
    AttemptCounts(mode, last, BACKOFFS[|front|], r);
    CountsConcat(Flat(front), last);
    EndsAfterFailures(Transfers(Flat(front)), Transfers(last), r);
    assert BACKOFFS[..|front|] + [BACKOFFS[|front|]] == BACKOFFS[..|front| + 1];
  }

  lemma {:induction false} RetriesCounts(mode: AddressMode, attempts: seq<seq<Event>>, outcomes: seq<Answer>)
    requires Retries(mode, attempts, outcomes)
    ensures Counted(mode, attempts, outcomes)
  {
    if attempts == [] {
      assert BACKOFFS[..0] == [];
    } else {
      hide Attempt, Transfers, Sleeps, Flat, Retries, Counted;
      var n := |attempts| - 1;
      RetriesFront(mode, attempts, outcomes);
      RetriesCounts(mode, attempts[..n], outcomes[..n]);
      CountedSnoc(mode, attempts[..n], outcomes[..n], attempts[n], outcomes[n]);
      assert attempts[..n] + [attempts[n]] == attempts && outcomes[..n] + [outcomes[n]] == outcomes;
    }
  }

  lemma {:induction false} OpeningCounts(cached: Option<u8>, events: seq<Event>, r: Answer)
    requires Opening(cached, events, r)
    ensures Sleeps(events) == []
    ensures |Transfers(events)| == 1 && Transfers(events)[0].1 == r
    ensures cached.Some? ==> Transfers(events)[0].0 == cached.value
  {
    hide Transfers, Sleeps;
    CountsOne(events[0]);
    CountsOne(events[|events| - 1]);
    CountsFew(events[0], events[|events| - 1], events[0]);
  }

  /** Every transfer but one that opens the read with a cached address is preceded by its own resolution. */
  ghost predicate FreshlyResolved(events: seq<Event>) {
    forall i | 1 <= i < |events| && events[i].Transferred? :: events[i - 1] == Resolved(Ok(events[i].addr))
  }

  lemma {:induction false} AttemptIsFresh(mode: AddressMode, before: seq<Event>, events: seq<Event>, ms: nat, r: Answer)
    requires !mode.Static? && FreshlyResolved(before) && Attempt(mode, events, ms, r)
    ensures FreshlyResolved(before + events)
  {
    var all := before + events;
    forall i | 1 <= i < |all| && all[i].Transferred? ensures all[i - 1] == Resolved(Ok(all[i].addr)) {
      if i >= |before| { assert all[i] == events[i - |before|]; }
    }
  }

  lemma {:induction false} RetriesAreFresh(mode: AddressMode, opening: seq<Event>, attempts: seq<seq<Event>>, outcomes: seq<Answer>)
    requires !mode.Static? && Retries(mode, attempts, outcomes) && FreshlyResolved(opening)
    ensures FreshlyResolved(opening + Flat(attempts))
  {
    hide Attempt, FreshlyResolved;
    if attempts == [] {
      assert opening + Flat(attempts) == opening;
    } else {
      var n := |attempts| - 1;
      RetriesAreFresh(mode, opening, attempts[..n], outcomes[..n]);
      AttemptIsFresh(mode, opening + Flat(attempts[..n]), attempts[n], BACKOFFS[n], outcomes[n]);
      assert opening + Flat(attempts) == (opening + Flat(attempts[..n])) + attempts[n];
    }
  }

  /**
   In a dynamic mode every retry uses an address that was resolved after the failure before
   it; in the static mode the one address is used throughout and nothing is resolved.
   */
  lemma {:induction false} RetriesUseFreshAddresses(mode: AddressMode, cached: Option<u8>, events: seq<Event>, result: Answer)
    requires OneRead(mode, cached, events, result)
    ensures !mode.Static? ==> FreshlyResolved(events)
  {
    if !mode.Static? && !(cached.None? && result.Err? && events == [Resolved(Err(result.error))]) {
      var opening, first, attempts, outcomes :|
        OpenedThenRetried(mode, cached, opening, first, attempts, outcomes, events, result);
      RetriesAreFresh(mode, opening, attempts, outcomes);
    }
  }

  // ----- one lemma for each consequence -----

  lemma {:induction false} ShapeSplits(mode: AddressMode, cached: Option<u8>, opening: seq<Event>, first: Answer,
      attempts: seq<seq<Event>>, outcomes: seq<Answer>, events: seq<Event>, result: Answer)
    requires OpenedThenRetried(mode, cached, opening, first, attempts, outcomes, events, result)
    ensures Transfers(events) == Transfers(opening) + Transfers(Flat(attempts))
    ensures |Transfers(opening)| == 1 && Transfers(opening)[0].1 == first
    ensures cached.Some? ==> Transfers(opening)[0].0 == cached.value
    ensures Sleeps(events) == BACKOFFS[..|attempts|]
    ensures |attempts| == |outcomes| <= |BACKOFFS| && Counted(mode, attempts, outcomes)
  {
    hide Opening, Attempt, IsTransferError, Transfers, Sleeps, Flat;
    OpeningCounts(cached, opening, first);
    RetriesCounts(mode, attempts, outcomes);
    CountsConcat(opening, Flat(attempts));
  }

  lemma {:induction false} ShapeIsShort(mode: AddressMode, cached: Option<u8>, opening: seq<Event>, first: Answer,
      attempts: seq<seq<Event>>, outcomes: seq<Answer>, events: seq<Event>, result: Answer)
    requires OpenedThenRetried(mode, cached, opening, first, attempts, outcomes, events, result)
    ensures 1 <= |Transfers(events)| <= 1 + |attempts| <= 4
    ensures Sleeps(events) == BACKOFFS[..|attempts|] && Transfers(events)[0].1 == first
    ensures first.Ok? || !IsTransferError(first.error) ==> attempts == [] && |Transfers(events)| == 1
  {
    hide Opening, Retries, IsTransferError, Transfers, Sleeps, Flat, AllTo, EndsWith;
    ShapeSplits(mode, cached, opening, first, attempts, outcomes, events, result);
  }

  lemma {:induction false} ShapeEndsWith(mode: AddressMode, cached: Option<u8>, opening: seq<Event>, first: Answer,
      attempts: seq<seq<Event>>, outcomes: seq<Answer>, events: seq<Event>, result: Answer)
    requires OpenedThenRetried(mode, cached, opening, first, attempts, outcomes, events, result)
    ensures EndsWith(Transfers(events), result)
  {
    hide Opening, Retries, IsTransferError, Transfers, Sleeps, Flat, AllTo;
    ShapeSplits(mode, cached, opening, first, attempts, outcomes, events, result);
    if attempts == [] {
      assert Transfers(events) == Transfers(opening);
    } else {
      EndsAfterFailures(Transfers(opening), Transfers(Flat(attempts)), result);
    }
  }

  lemma {:induction false} ShapeKeepsStatic(mode: AddressMode, cached: Option<u8>, opening: seq<Event>, first: Answer,
      attempts: seq<seq<Event>>, outcomes: seq<Answer>, events: seq<Event>, result: Answer)
    requires OpenedThenRetried(mode, cached, opening, first, attempts, outcomes, events, result)
    requires mode.Static? && cached == Some(mode.addr)
    ensures AllTo(mode.addr, Transfers(events))
  {
    hide Opening, Retries, IsTransferError, Transfers, Sleeps, Flat, EndsWith;
    ShapeSplits(mode, cached, opening, first, attempts, outcomes, events, result);
  }

  /** The last thing done gave the result: a transfer, or a resolution that failed. */
  ghost predicate LastGave(events: seq<Event>, result: Answer) {
    && events != []
    && match events[|events| - 1]
       case Slept(_) => false
       case Resolved(address) => result.Err? && address == Err(result.error)
       case Transferred(_, answer) => answer == result
  }

  lemma {:induction false} LastOfConcat(a: seq<Event>, b: seq<Event>, result: Answer)
    requires LastGave(b, result)
    ensures LastGave(a + b, result)
  {
  }

  lemma {:induction false} LastOfRetries(mode: AddressMode, attempts: seq<seq<Event>>, outcomes: seq<Answer>)
    requires Retries(mode, attempts, outcomes) && attempts != []
    ensures LastGave(Flat(attempts), outcomes[|outcomes| - 1])
  {
    var n := |attempts| - 1;
    RetriesFront(mode, attempts, outcomes);
    assert LastGave(attempts[n], outcomes[n]);
    LastOfConcat(Flat(attempts[..n]), attempts[n], outcomes[n]);
  }

  lemma {:induction false} ShapeLastGave(mode: AddressMode, cached: Option<u8>, opening: seq<Event>, first: Answer,
      attempts: seq<seq<Event>>, outcomes: seq<Answer>, events: seq<Event>, result: Answer)
    requires OpenedThenRetried(mode, cached, opening, first, attempts, outcomes, events, result)
    ensures LastGave(events, result)
    ensures result.Err? && first.Err? && IsTransferError(first.error) ==> |attempts| == |BACKOFFS|
  {
    hide Attempt, IsTransferError;
    if attempts == [] {
      assert Flat(attempts) == [] && events == opening;
      assert LastGave(opening, first);
    } else {
      hide Flat, LastGave;
      LastOfRetries(mode, attempts, outcomes);
      LastOfConcat(opening, Flat(attempts), result);
    }
  }

  /** The read ends before its first transfer when no address can be resolved. */
  lemma {:induction false} UnresolvedRead(events: seq<Event>, result: Answer)
    requires result.Err? && events == [Resolved(Err(result.error))]
    ensures Transfers(events) == [] && Sleeps(events) == []
    ensures EndsWith(Transfers(events), result) && LastGave(events, result)
  {
    CountsOne(events[0]);
  }

  /**
   One read does at most four transfers and waits a prefix of 100, 500, 2000 ms. An error
   that is no transfer error stops it after one transfer; after any other first error it only
   fails once all three waits are over. A success is the last transfer's answer and every
   transfer before it failed; a read that fails has seen no success and reports the error
   that came last. A static address is the only one ever used.
   */
  lemma {:induction false} RetryIsBounded(mode: AddressMode, cached: Option<u8>, events: seq<Event>, result: Answer)
    requires OneRead(mode, cached, events, result)
    requires mode.Static? ==> cached == Some(mode.addr)
    ensures |Transfers(events)| <= 4
    ensures Sleeps(events) <= [100, 500, 2000]
    ensures Transfers(events) != [] && Transfers(events)[0].1.Err? ==>
      if IsTransferError(Transfers(events)[0].1.error) then result.Err? ==> Sleeps(events) == [100, 500, 2000]
      else |Transfers(events)| == 1 && Sleeps(events) == []
    ensures EndsWith(Transfers(events), result) && LastGave(events, result)
    ensures mode.Static? ==> AllTo(mode.addr, Transfers(events))
  {
    hide OpenedThenRetried, IsTransferError, Transfers, Sleeps, EndsWith, LastGave, AllTo;
    if cached.None? && result.Err? && events == [Resolved(Err(result.error))] {
      UnresolvedRead(events, result);
    } else {
      var opening, first, attempts, outcomes :|
        OpenedThenRetried(mode, cached, opening, first, attempts, outcomes, events, result);
      ShapeIsShort(mode, cached, opening, first, attempts, outcomes, events, result);
      ShapeEndsWith(mode, cached, opening, first, attempts, outcomes, events, result);
      ShapeLastGave(mode, cached, opening, first, attempts, outcomes, events, result);
      if mode.Static? {
        ShapeKeepsStatic(mode, cached, opening, first, attempts, outcomes, events, result);
      }
      assert BACKOFFS[..3] == BACKOFFS && BACKOFFS[..0] == [];
    }
  }

  /** The message with which the Linux device reports that its ioctl failed, whatever the cause. */
  function IoctlFailed(cause: string): string {
    "I3C private transfer ioctl failed: " + cause
  }

  lemma {:induction false} SaysTransfer(cause: string)
    ensures Contains(Lower(IoctlFailed(cause)), "transfer")
  {
    hide Contains, IsTransferError;
    var msg := Lower(IoctlFailed(cause));
    var head, part := "I3C private transfer ioctl failed: ", "transfer";
    forall k | 0 <= k < |part| ensures msg[12..][k] == part[k] {
      assert msg[12..][k] == msg[12 + k] && IoctlFailed(cause)[12 + k] == head[12 + k];
      assert head[12 + k] == part[k] && 'a' <= part[k] <= 'z';
    }
    assert part <= msg[12..];
    ContainsExactly(msg, part);
  }

  /**
   Every failure of the ioctl counts as a transfer error, as its message says "transfer": on
   Linux even a cause that no retry can help is retried three times.
   */
  lemma {:induction false} EveryIoctlFailureIsRetried(cause: string)
    ensures IsTransferError(IoctlFailed(cause))
  {
    hide Contains, IoctlFailed, Lower;
    SaysTransfer(cause);
  }
}
