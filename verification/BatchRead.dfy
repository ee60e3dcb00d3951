/** Bulk reading with per-metric fallback (src/reader/modbus/batch.rs:74-287). */
module BatchRead {
  import opened Wrappers
  import opened Domain
  import opened Coalescing
  import opened ModbusClient
  import Decoder

  datatype MetricError =
    | NoAddress(name: string)
    | BeforeRange(name: string, addr: u16, start: u16)
    | OutOfBounds(name: string, from: nat, to: nat, length: nat)
    | Decoding(error: Decoder.DecodeError)
    | Bus(cause: ReadError)
    | EmptyResponse
    | NotProcessed(name: string)

  type Outcome = Result<Reading, MetricError>

  function RegisterCount(m: MetricConfig): u16 {
    Decoder.RegistersNeeded(m.dataType)
  }

  function KindOf(m: MetricConfig): RegisterType {
    match m.registerType
    case Some(kind) => kind
    case None => Holding
  }

  /** The table that the configuration names: holding registers if it names none. */
  predicate IsTableOf(kind: RegisterType, m: MetricConfig) {
    m.registerType == Some(kind) || (m.registerType == None && kind == Holding)
  }

  predicate IsRegister(kind: RegisterType) {
    kind == Holding || kind == Input
  }

  function Decoded(m: MetricConfig, regs: seq<u16>): Outcome {
    match Decoder.Decode(regs, m.dataType, m.byteOrder, m.scale, m.offset)
    case Ok(reading) => Ok(reading)
    case Err(e) => Err(Decoding(e))
  }

  /** One metric's value out of the registers of a range that begins at `start`. */
  function DecodeMetric(m: MetricConfig, regs: seq<u16>, start: u16): Outcome {
    match m.address
    case None => Err(NoAddress(m.name))
    case Some(addr) =>
      if addr < start then
        Err(BeforeRange(m.name, addr, start))
      else
        var from := addr - start;
        var to := from + RegisterCount(m);
        if to > |regs| then Err(OutOfBounds(m.name, from, to, |regs|)) else Decoded(m, regs[from..to])
  }

  /** Which error a metric gets that cannot be taken from a range, and when it can. */
  lemma {:induction false} DecodeMetricExactly(m: MetricConfig, addr: u16, regs: seq<u16>, start: u16)
    requires m.address == Some(addr)
    ensures addr < start ==> DecodeMetric(m, regs, start) == Err(BeforeRange(m.name, addr, start))
    ensures addr >= start && addr - start + RegisterCount(m) > |regs| ==>
      DecodeMetric(m, regs, start) == Err(OutOfBounds(m.name, addr - start, addr - start + RegisterCount(m), |regs|))
    ensures addr >= start && addr - start + RegisterCount(m) <= |regs| ==>
      DecodeMetric(m, regs, start).Ok?
  {
  }

  function BitReading(m: MetricConfig, bits: seq<bool>): Outcome {
    if bits == [] then Err(EmptyResponse)
    else Ok(Scaled(Whole(if bits[0] then 1 else 0), m.scale, m.offset))
  }

  /** The outcome of reading `m` on its own at moment `n`. */
  function SingleAt(link: Link, n: nat, m: MetricConfig): Outcome {
    match m.address
    case None => Err(NoAddress(m.name))
    case Some(addr) =>
      if IsRegister(KindOf(m)) then
        match RegistersAt(link, n, KindOf(m), addr, RegisterCount(m))
        case Ok(regs) => Decoded(m, regs)
        case Err(e) => Err(Bus(e))
      else
        match BitsAt(link, n, KindOf(m), addr, 1)
        case Ok(bits) => BitReading(m, bits)
        case Err(e) => Err(Bus(e))
  }

  /** A bit read that answers with no bit at all is an error. */
  lemma {:induction false} NoBitsIsAnError(link: Link, n: nat, m: MetricConfig)
    requires link.connected && m.address.Some? && (m.registerType == Some(Coil) || m.registerType == Some(Discrete))
    requires link.device.bits(n, m.registerType.value, m.address.value, 1) == Ok([])
    ensures SingleAt(link, n, m) == Err(EmptyResponse)
  {
  }

  /** The call that reads `m` on its own, if it has an address. */
  function SingleCall(m: MetricConfig): seq<Call> {
    match m.address
    case None => []
    case Some(addr) => [Call(KindOf(m), addr, if IsRegister(KindOf(m)) then RegisterCount(m) else 1)]
  }

  method ReadSingle(reader: ModbusTcpClient, m: MetricConfig) returns (r: Outcome)
    modifies reader`calls
    ensures reader.calls == old(reader.calls) + SingleCall(m)
    ensures m.address.Some? ==>
      exists call :: reader.calls == old(reader.calls) + [call] && IsTableOf(call.kind, m) && call.addr == m.address.value
    ensures r == SingleAt(reader.At(), |old(reader.calls)|, m)
  {
    if m.address.None? {
      return Err(NoAddress(m.name));
    }
    var addr, count := m.address.value, RegisterCount(m);
    assert IsTableOf(KindOf(m), m);
    match KindOf(m) {
      case Holding =>
        var regs := reader.ReadHoldingRegisters(addr, count);
        r := if regs.Err? then Err(Bus(regs.error)) else Decoded(m, regs.value);
      case Input =>
        var regs := reader.ReadInputRegisters(addr, count);
        r := if regs.Err? then Err(Bus(regs.error)) else Decoded(m, regs.value);
      case Coil =>
        var bits := reader.ReadCoils(addr, 1);
        r := if bits.Err? then Err(Bus(bits.error)) else BitReading(m, bits.value);
      case Discrete =>
        var bits := reader.ReadDiscreteInputs(addr, 1);
        r := if bits.Err? then Err(Bus(bits.error)) else BitReading(m, bits.value);
    }
  }

  // ----- the state of a batch, and what each part of the batch does to it -----

  /** The results so far, one slot per input metric, and the reader calls made so far. */
  datatype Progress = Progress(slots: seq<Option<Outcome>>, calls: seq<Call>)

  function Fill(p: Progress, idx: nat, o: Outcome): Progress {
    if idx < |p.slots| then p.(slots := p.slots[idx := Some(o)]) else p
  }

  /** Every member of a successful range is decoded from its registers. */
  function Spread(p: Progress, members: seq<IndexedMetric>, regs: seq<u16>, start: u16): (q: Progress)
    ensures |q.slots| == |p.slots| && q.calls == p.calls
  {
    if members == [] then p
    else
      var m := members[|members| - 1];
      Fill(Spread(p, members[..|members| - 1], regs, start), m.idx, DecodeMetric(m.metric, regs, start))
  }

  /** Every member is read on its own. */
  function Singly(link: Link, p: Progress, members: seq<IndexedMetric>): (q: Progress)
    ensures |q.slots| == |p.slots| && |p.calls| <= |q.calls| && q.calls[..|p.calls|] == p.calls
  {
    if members == [] then p
    else
      var before := Singly(link, p, members[..|members| - 1]);
      var m := members[|members| - 1];
      Fill(before, m.idx, SingleAt(link, |before.calls|, m.metric)).(calls := before.calls + SingleCall(m.metric))
  }

  function RangeCall(kind: RegisterType, range: MergedRange): Call
    requires range.Valid()
  {
    Call(kind, range.start, range.Count())
  }

  function RangeAnswer(link: Link, n: nat, kind: RegisterType, range: MergedRange): Result<seq<u16>, ReadError>
    requires range.Valid()
  {
    RegistersAt(link, n, kind, range.start, range.Count())
  }

  function OneRange(link: Link, p: Progress, kind: RegisterType, range: MergedRange): (q: Progress)
    requires range.Valid()
    ensures |q.slots| == |p.slots| && |p.calls| < |q.calls| && q.calls[..|p.calls|] == p.calls
  {
    var issued := p.(calls := p.calls + [RangeCall(kind, range)]);
    match RangeAnswer(link, |p.calls|, kind, range)
    case Ok(regs) => Spread(issued, range.members, regs, range.start)
    case Err(_) =>
      var q := Singly(link, issued, range.members);
      assert q.calls[..|p.calls|] == q.calls[..|issued.calls|][..|p.calls|];
      q
  }

  ghost predicate AllValid(ranges: seq<MergedRange>) {
    forall i | 0 <= i < |ranges| :: ranges[i].Valid()
  }

  ghost function AllRanges(link: Link, p: Progress, kind: RegisterType, ranges: seq<MergedRange>): (q: Progress)
    requires AllValid(ranges)
    ensures |q.slots| == |p.slots| && |p.calls| + |ranges| <= |q.calls| && q.calls[..|p.calls|] == p.calls
  {
    if ranges == [] then p
    else
      var before := AllRanges(link, p, kind, ranges[..|ranges| - 1]);
      var q := OneRange(link, before, kind, ranges[|ranges| - 1]);
      assert q.calls[..|p.calls|] == q.calls[..|before.calls|][..|p.calls|];
      q
  }

  // ----- the input of the planner -----

  function ItemAt(metrics: seq<MetricConfig>, idx: nat): IndexedMetric
    requires idx < |metrics| && metrics[idx].address.Some?
  {
    IndexedMetric(idx, metrics[idx], metrics[idx].address.value, RegisterCount(metrics[idx]))
  }

  /** The metrics that have an address and are of one of the given kinds, in input order. */
  function Selected(metrics: seq<MetricConfig>, kinds: set<RegisterType>, n: nat): seq<IndexedMetric>
    requires n <= |metrics|
  {
    if n == 0 then []
    else
      var front := Selected(metrics, kinds, n - 1);
      if metrics[n - 1].address.Some? && KindOf(metrics[n - 1]) in kinds
      then front + [ItemAt(metrics, n - 1)] else front
  }

  /** Insertion after every element with the same address: a stable sort by address. */
  function Inserted(sorted: seq<IndexedMetric>, item: IndexedMetric): (r: seq<IndexedMetric>)
    ensures |r| == |sorted| + 1
  {
    if sorted == [] || sorted[|sorted| - 1].addr <= item.addr then sorted + [item]
    else Inserted(sorted[..|sorted| - 1], item) + [sorted[|sorted| - 1]]
  }

  function SortByAddr(items: seq<IndexedMetric>): (r: seq<IndexedMetric>)
    ensures |r| == |items|
  {
    if items == [] then [] else Inserted(SortByAddr(items[..|items| - 1]), items[|items| - 1])
  }

  function PlanFor(metrics: seq<MetricConfig>, kind: RegisterType): seq<MergedRange> {
    Plan(SortByAddr(Selected(metrics, {kind}, |metrics|)))
  }

  const BIT_KINDS: set<RegisterType> := {Coil, Discrete}

  /** The slots after the grouping loop: only metrics without an address have an outcome. */
  function Blank(metrics: seq<MetricConfig>, n: nat): (slots: seq<Option<Outcome>>)
    requires n <= |metrics|
    ensures |slots| == |metrics|
  {
    seq(|metrics|, i requires 0 <= i < |metrics| =>
      if i < n && metrics[i].address.None? then Some(Err(NoAddress(metrics[i].name))) else None)
  }

  // ----- what the sort delivers -----

  /** By address, and among equal addresses in input order: in particular no index twice. */
  ghost predicate StablySorted(items: seq<IndexedMetric>) {
    forall i, j | 0 <= i < j < |items| ::
      items[i].addr < items[j].addr || (items[i].addr == items[j].addr && items[i].idx < items[j].idx)
  }

  ghost predicate SameItems(a: seq<IndexedMetric>, b: seq<IndexedMetric>) {
    forall x :: x in a <==> x in b
  }

  lemma {:induction false} InsertedKeepsItems(sorted: seq<IndexedMetric>, item: IndexedMetric)
    ensures SameItems(Inserted(sorted, item), sorted + [item])
  {
    if sorted != [] && sorted[|sorted| - 1].addr > item.addr {
      var front, last := sorted[..|sorted| - 1], sorted[|sorted| - 1];
      InsertedKeepsItems(front, item);
      var r := Inserted(front, item);
      assert sorted == front + [last];
      hide Inserted;
      forall x ensures x in r + [last] <==> x in sorted + [item] {
        assert x in r <==> x in front + [item];
      }
    }
  }

  lemma {:induction false} SortedSnoc(items: seq<IndexedMetric>, last: IndexedMetric)
    requires StablySorted(items)
    requires forall x | x in items :: x.addr < last.addr || (x.addr == last.addr && x.idx < last.idx)
    ensures StablySorted(items + [last])
  {
  }

  lemma {:induction false} InsertedSorts(sorted: seq<IndexedMetric>, item: IndexedMetric)
    requires StablySorted(sorted)
    requires forall i | 0 <= i < |sorted| :: sorted[i].idx < item.idx
    ensures StablySorted(Inserted(sorted, item))
    ensures SameItems(Inserted(sorted, item), sorted + [item])
  {
    InsertedKeepsItems(sorted, item);
    if sorted != [] && sorted[|sorted| - 1].addr > item.addr {
      var front, last := sorted[..|sorted| - 1], sorted[|sorted| - 1];
      InsertedSorts(front, item);
      SortedSnoc(Inserted(front, item), last);
    }
  }

  /** Items as the grouping loop makes them: each is its own metric's, by index. */
  ghost predicate From(metrics: seq<MetricConfig>, kinds: set<RegisterType>, items: seq<IndexedMetric>) {
    forall i | 0 <= i < |items| ::
      && items[i].idx < |metrics|
      && metrics[items[i].idx].address.Some?
      && KindOf(metrics[items[i].idx]) in kinds
      && items[i] == ItemAt(metrics, items[i].idx)
  }

  lemma {:induction false} SelectedShape(metrics: seq<MetricConfig>, kinds: set<RegisterType>, n: nat)
    requires n <= |metrics|
    ensures From(metrics, kinds, Selected(metrics, kinds, n))
    ensures forall i, j | 0 <= i < j < |Selected(metrics, kinds, n)| ::
              Selected(metrics, kinds, n)[i].idx < Selected(metrics, kinds, n)[j].idx
    ensures forall i | 0 <= i < |Selected(metrics, kinds, n)| :: Selected(metrics, kinds, n)[i].idx < n
    ensures forall i | 0 <= i < n && metrics[i].address.Some? && KindOf(metrics[i]) in kinds ::
              ItemAt(metrics, i) in Selected(metrics, kinds, n)
  {
    hide KindOf, RegisterCount;
    if n > 0 {
      SelectedShape(metrics, kinds, n - 1);
      var front, items := Selected(metrics, kinds, n - 1), Selected(metrics, kinds, n);
      assert items == front || items == front + [ItemAt(metrics, n - 1)];
      hide Selected;
      forall i | 0 <= i < n && metrics[i].address.Some? && KindOf(metrics[i]) in kinds
        ensures ItemAt(metrics, i) in items
      {
        if i < n - 1 { assert ItemAt(metrics, i) in front; }
      }
    }
  }

  lemma {:induction false} SortByAddrSorts(items: seq<IndexedMetric>)
    requires forall i, j | 0 <= i < j < |items| :: items[i].idx < items[j].idx
    ensures StablySorted(SortByAddr(items))
    ensures SameItems(SortByAddr(items), items)
  {
    if items != [] {
      var front, item := items[..|items| - 1], items[|items| - 1];
      SortByAddrSorts(front);
      var sorted := SortByAddr(front);
      forall i | 0 <= i < |sorted| ensures sorted[i].idx < item.idx {
        assert sorted[i] in front;
      }
      InsertedSorts(sorted, item);
      assert items == front + [item];
      forall x ensures x in SortByAddr(items) <==> x in items {
        assert x in sorted + [item] <==> x in front + [item];
      }
    }
  }

  ghost predicate DistinctIdx(items: seq<IndexedMetric>) {
    forall i, j | 0 <= i < j < |items| :: items[i].idx != items[j].idx
  }

  /** What the planner is given, and what it makes of it, for the metrics of one kind. */
  lemma {:induction false} PlannerInput(metrics: seq<MetricConfig>, kind: RegisterType)
    ensures |Members(PlanFor(metrics, kind))| == |Selected(metrics, {kind}, |metrics|)|
    ensures Plannable(Members(PlanFor(metrics, kind)))
    ensures From(metrics, {kind}, Members(PlanFor(metrics, kind)))
    ensures DistinctIdx(Members(PlanFor(metrics, kind)))
    ensures WellPlanned(PlanFor(metrics, kind))
    ensures forall i | 0 <= i < |metrics| && metrics[i].address.Some? && KindOf(metrics[i]) == kind ::
              ItemAt(metrics, i) in Members(PlanFor(metrics, kind))
  {
    hide Plan, Members, WellPlanned, SortByAddr, Selected;
    var items := Selected(metrics, {kind}, |metrics|);
    var sorted := SortByAddr(items);
    SelectedShape(metrics, {kind}, |metrics|);
    SortByAddrSorts(items);
    assert From(metrics, {kind}, sorted) by {
      forall i | 0 <= i < |sorted|
        ensures sorted[i].idx < |metrics| && metrics[sorted[i].idx].address.Some?
        ensures KindOf(metrics[sorted[i].idx]) in {kind} && sorted[i] == ItemAt(metrics, sorted[i].idx)
      {
        assert sorted[i] in items;
      }
    }
    PlanInvariant(sorted);
  }

  lemma {:induction false} PlanIsGood(metrics: seq<MetricConfig>, kind: RegisterType)
    ensures AllValid(PlanFor(metrics, kind))
    ensures forall i | 0 <= i < |PlanFor(metrics, kind)| :: Good(PlanFor(metrics, kind)[i])
  {
    hide Plan, Members, WellPlanned, SortByAddr, Selected, Good, Legal, MaxEnd;
    PlannerInput(metrics, kind);
    var ranges := PlanFor(metrics, kind);
    forall i | 0 <= i < |ranges| ensures Good(ranges[i]) && ranges[i].Valid() {
      WellPlannedGood(ranges, i);
      GoodIsValid(ranges[i]);
    }
  }

  lemma {:induction false} GoodIsValid(range: MergedRange)
    requires Good(range)
    ensures range.Valid() && range.members != []
  {
    MaxEndBounds(range.members, 0);
    assert ItemEnd(range.members[0]) <= range.end;
  }

  // ----- the batch -----

  ghost function Batch(link: Link, calls: seq<Call>, metrics: seq<MetricConfig>): (q: Progress)
    ensures |q.slots| == |metrics|
  {
    PlanIsGood(metrics, Holding);
    PlanIsGood(metrics, Input);
    var p := Progress(Blank(metrics, |metrics|), calls);
    var held := AllRanges(link, p, Holding, PlanFor(metrics, Holding));
    var input := AllRanges(link, held, Input, PlanFor(metrics, Input));
    Singly(link, input, Selected(metrics, BIT_KINDS, |metrics|))
  }

  ghost predicate Addressable(members: seq<IndexedMetric>, slots: nat) {
    forall j | 0 <= j < |members| :: members[j].idx < slots && members[j].metric.address.Some?
  }

  /** The fallback loop. */
  method ReadMembers(reader: ModbusTcpClient, members: seq<IndexedMetric>, results: array<Option<Outcome>>)
    returns (readCount: nat)
    requires Addressable(members, results.Length)
    modifies reader`calls, results
    ensures Progress(results[..], reader.calls)
         == Singly(reader.At(), old(Progress(results[..], reader.calls)), members)
    ensures readCount == |reader.calls| - |old(reader.calls)|
  {
    readCount := 0;
    ghost var p := Progress(results[..], reader.calls);
    for j := 0 to |members|
      invariant Progress(results[..], reader.calls) == Singly(reader.At(), p, members[..j])
      invariant readCount == |reader.calls| - |p.calls|
    {
      var member := members[j];
      assert members[..j + 1][..j] == members[..j];
      readCount := readCount + 1;
      var o := ReadSingle(reader, member.metric);
      results[member.idx] := Some(o);
    }
    assert members[..|members|] == members;
  }

  /** One iteration of either bulk loop: one range read, then the split or the fallback. */
  method ReadRange(reader: ModbusTcpClient, kind: RegisterType, range: MergedRange, results: array<Option<Outcome>>)
    returns (readCount: nat)
    requires IsRegister(kind) && range.Valid()
    requires Addressable(range.members, results.Length)
    modifies reader`calls, results
    ensures Progress(results[..], reader.calls)
         == OneRange(reader.At(), old(Progress(results[..], reader.calls)), kind, range)
    ensures readCount == |reader.calls| - |old(reader.calls)|
  {
    readCount := 1;
    var answer;
    if kind == Holding {
      answer := reader.ReadHoldingRegisters(range.start, range.Count());
    } else {
      answer := reader.ReadInputRegisters(range.start, range.Count());
    }
    ghost var p := Progress(results[..], reader.calls);
    match answer {
      case Ok(regs) =>
        for j := 0 to |range.members|
          invariant Progress(results[..], reader.calls) == Spread(p, range.members[..j], regs, range.start)
        {
          var member := range.members[j];
          assert range.members[..j + 1][..j] == range.members[..j];
          results[member.idx] := Some(DecodeMetric(member.metric, regs, range.start));
        }
        assert range.members[..|range.members|] == range.members;
      case Err(_) =>
        var fallback := ReadMembers(reader, range.members, results);
        readCount := readCount + fallback;
    }
  }

  method ReadRanges(reader: ModbusTcpClient, kind: RegisterType, ranges: seq<MergedRange>, results: array<Option<Outcome>>)
    returns (readCount: nat)
    requires IsRegister(kind) && AllValid(ranges)
    requires forall i | 0 <= i < |ranges| :: Addressable(ranges[i].members, results.Length)
    modifies reader`calls, results
    ensures Progress(results[..], reader.calls)
         == AllRanges(reader.At(), old(Progress(results[..], reader.calls)), kind, ranges)
    ensures readCount == |reader.calls| - |old(reader.calls)|
  {
    hide OneRange, Addressable, AllRanges;
    readCount := 0;
    ghost var p := Progress(results[..], reader.calls);
    NoRanges(reader.At(), p, kind);
    for k := 0 to |ranges|
      invariant Progress(results[..], reader.calls) == AllRanges(reader.At(), p, kind, ranges[..k])
      invariant readCount == |reader.calls| - |p.calls|
    {
      NextRange(reader.At(), p, kind, ranges, k);
      var count := ReadRange(reader, kind, ranges[k], results);
      readCount := readCount + count;
    }
    assert ranges[..|ranges|] == ranges;
  }

  lemma {:induction false} NoRanges(link: Link, p: Progress, kind: RegisterType)
    ensures AllRanges(link, p, kind, []) == p
  {
  }

  lemma {:induction false} NextRange(link: Link, p: Progress, kind: RegisterType, ranges: seq<MergedRange>, k: nat)
    requires AllValid(ranges) && k < |ranges|
    ensures AllRanges(link, p, kind, ranges[..k + 1]) == OneRange(link, AllRanges(link, p, kind, ranges[..k]), kind, ranges[k])
  {
    hide OneRange;
    assert ranges[..k + 1][..k] == ranges[..k];
  }

  lemma {:induction false} MembersOfPlan(ranges: seq<MergedRange>, i: nat, j: nat)
    requires i < |ranges| && j < |ranges[i].members|
    ensures ranges[i].members[j] in Members(ranges)
  {
    if i < |ranges| - 1 {
      MembersOfPlan(ranges[..|ranges| - 1], i, j);
    }
  }

  lemma {:induction false} PlanIsAddressable(metrics: seq<MetricConfig>, kind: RegisterType, i: nat)
    requires i < |PlanFor(metrics, kind)|
    ensures Addressable(PlanFor(metrics, kind)[i].members, |metrics|)
  {
    hide Members, SortByAddr, Selected, Plan, WellPlanned, Plannable;
    PlannerInput(metrics, kind);
    var ranges := PlanFor(metrics, kind);
    forall j | 0 <= j < |ranges[i].members|
      ensures ranges[i].members[j].idx < |metrics| && ranges[i].members[j].metric.address.Some?
    {
      MembersOfPlan(ranges, i, j);
    }
  }

  // ----- what each part does to the slots -----

  ghost predicate Untouched(members: seq<IndexedMetric>, idx: nat) {
    forall j | 0 <= j < |members| :: members[j].idx != idx
  }

  /** A batch part leaves every slot alone that belongs to none of its members. */
  ghost predicate OnlyTouches(p: Progress, q: Progress, members: seq<IndexedMetric>) {
    forall i | 0 <= i < |p.slots| && i < |q.slots| && Untouched(members, i) :: q.slots[i] == p.slots[i]
  }

  lemma {:induction false} SpreadEffect(p: Progress, members: seq<IndexedMetric>, regs: seq<u16>, start: u16)
    requires DistinctIdx(members) && Addressable(members, |p.slots|)
    ensures OnlyTouches(p, Spread(p, members, regs, start), members)
    ensures forall j | 0 <= j < |members| ::
      Spread(p, members, regs, start).slots[members[j].idx] == Some(DecodeMetric(members[j].metric, regs, start))
  {
    hide DecodeMetric;
    if members != [] {
      var front, last := members[..|members| - 1], members[|members| - 1];
      SpreadEffect(p, front, regs, start);
      forall j | 0 <= j < |members|
        ensures Spread(p, members, regs, start).slots[members[j].idx]
             == Some(DecodeMetric(members[j].metric, regs, start))
      {
        if j < |front| { assert members[j] == front[j]; }
      }
      forall i | 0 <= i < |p.slots| && Untouched(members, i)
        ensures Spread(p, members, regs, start).slots[i] == p.slots[i]
      {
        assert last.idx != i && Untouched(front, i);
      }
    }
  }

  lemma {:induction false} SinglyEffect(link: Link, p: Progress, members: seq<IndexedMetric>)
    requires DistinctIdx(members) && Addressable(members, |p.slots|)
    ensures OnlyTouches(p, Singly(link, p, members), members)
    ensures |Singly(link, p, members).calls| == |p.calls| + |members|
    ensures forall j | 0 <= j < |members| ::
      && [Singly(link, p, members).calls[|p.calls| + j]] == SingleCall(members[j].metric)
      && Singly(link, p, members).slots[members[j].idx] == Some(SingleAt(link, |p.calls| + j, members[j].metric))
  {
    hide SingleAt, SingleCall;
    if members != [] {
      var front, last := members[..|members| - 1], members[|members| - 1];
      SinglyEffect(link, p, front);
      OneCallEach(last.metric);
      var before, after := Singly(link, p, front), Singly(link, p, members);
      forall j | 0 <= j < |members|
        ensures [after.calls[|p.calls| + j]] == SingleCall(members[j].metric)
        ensures after.slots[members[j].idx] == Some(SingleAt(link, |p.calls| + j, members[j].metric))
      {
        if j < |front| {
          assert members[j] == front[j];
          assert after.calls[|p.calls| + j] == before.calls[|p.calls| + j];
        }
      }
      forall i | 0 <= i < |p.slots| && Untouched(members, i) ensures after.slots[i] == p.slots[i] {
        assert last.idx != i && Untouched(front, i);
      }
    }
  }

  lemma {:induction false} OneCallEach(m: MetricConfig)
    requires m.address.Some?
    ensures |SingleCall(m)| == 1
  {
  }

  /**
   Call `n` accounts for an outcome of the member: either it read the member's whole range
   and the outcome was cut from its answer, or it read this member alone after the read of
   its range, at an earlier moment of the same batch, had failed.
   */
  ghost predicate Accounts(link: Link, first: nat, calls: seq<Call>, n: nat, kind: RegisterType,
      range: MergedRange, m: MetricConfig, o: Outcome)
    requires range.Valid()
  {
    && first <= n < |calls|
    && (|| (&& calls[n] == RangeCall(kind, range)
            && RangeAnswer(link, n, kind, range).Ok?
            && o == DecodeMetric(m, RangeAnswer(link, n, kind, range).value, range.start))
        || (&& [calls[n]] == SingleCall(m)
            && o == SingleAt(link, n, m)
            && exists r | first <= r < n :: calls[r] == RangeCall(kind, range) && RangeAnswer(link, r, kind, range).Err?))
  }

  ghost predicate Accounted(link: Link, first: nat, q: Progress, kind: RegisterType, range: MergedRange, member: IndexedMetric)
    requires range.Valid()
  {
    && member.idx < |q.slots|
    && q.slots[member.idx].Some?
    && exists n :: Accounts(link, first, q.calls, n, kind, range, member.metric, q.slots[member.idx].value)
  }

  lemma {:induction false} AccountedLater(link: Link, first: nat, p: Progress, q: Progress, kind: RegisterType,
      range: MergedRange, member: IndexedMetric)
    requires range.Valid() && Accounted(link, first, p, kind, range, member)
    requires |q.slots| == |p.slots| && q.slots[member.idx] == p.slots[member.idx]
    requires |p.calls| <= |q.calls| && q.calls[..|p.calls|] == p.calls
    ensures Accounted(link, first, q, kind, range, member)
  {
    hide SingleAt, SingleCall, DecodeMetric, RangeAnswer, RangeCall;
    var o := p.slots[member.idx].value;
    var n :| Accounts(link, first, p.calls, n, kind, range, member.metric, o);
    assert forall k | 0 <= k < |p.calls| :: q.calls[k] == p.calls[k];
    assert Accounts(link, first, q.calls, n, kind, range, member.metric, o);
  }

  lemma {:induction false} OneRangeEffect(link: Link, p: Progress, kind: RegisterType, range: MergedRange, first: nat)
    requires range.Valid() && first <= |p.calls|
    requires DistinctIdx(range.members) && Addressable(range.members, |p.slots|)
    ensures OnlyTouches(p, OneRange(link, p, kind, range), range.members)
    ensures forall j | 0 <= j < |range.members| ::
              Accounted(link, first, OneRange(link, p, kind, range), kind, range, range.members[j])
    ensures |OneRange(link, p, kind, range).calls|
         == |p.calls| + 1 + if RangeAnswer(link, |p.calls|, kind, range).Err? then |range.members| else 0
  {
    hide SingleAt, SingleCall, DecodeMetric, RangeAnswer, RangeCall, Singly, Spread;
    var issued := p.(calls := p.calls + [RangeCall(kind, range)]);
    var q := OneRange(link, p, kind, range);
    var at := |p.calls|;
    match RangeAnswer(link, at, kind, range)
    case Ok(regs) =>
      SpreadEffect(issued, range.members, regs, range.start);
      forall j | 0 <= j < |range.members| ensures Accounted(link, first, q, kind, range, range.members[j]) {
        var m := range.members[j];
        assert Accounts(link, first, q.calls, at, kind, range, m.metric, q.slots[m.idx].value);
      }
    case Err(_) =>
      SinglyEffect(link, issued, range.members);
      assert q.calls[at] == q.calls[..|issued.calls|][at] == RangeCall(kind, range);
      forall j | 0 <= j < |range.members| ensures Accounted(link, first, q, kind, range, range.members[j]) {
        var m := range.members[j];
        assert Accounts(link, first, q.calls, at + 1 + j, kind, range, m.metric, q.slots[m.idx].value);
      }
  }

  lemma {:induction false} DistinctSplits(a: seq<IndexedMetric>, b: seq<IndexedMetric>, slots: nat)
    requires DistinctIdx(a + b) && Addressable(a + b, slots)
    ensures DistinctIdx(a) && DistinctIdx(b) && Addressable(a, slots) && Addressable(b, slots)
    ensures forall j | 0 <= j < |a| :: Untouched(b, a[j].idx)
    ensures forall i | Untouched(a + b, i) :: Untouched(a, i) && Untouched(b, i)
  {
    var c := a + b;
    assert forall i | 0 <= i < |a| :: c[i] == a[i];
    assert forall i | 0 <= i < |b| :: c[|a| + i] == b[i];
  }

  lemma {:induction false} AllRangesEffect(link: Link, p: Progress, kind: RegisterType, ranges: seq<MergedRange>)
    requires AllValid(ranges)
    requires DistinctIdx(Members(ranges)) && Addressable(Members(ranges), |p.slots|)
    ensures OnlyTouches(p, AllRanges(link, p, kind, ranges), Members(ranges))
    ensures forall i, j | 0 <= i < |ranges| && 0 <= j < |ranges[i].members| ::
              Accounted(link, |p.calls|, AllRanges(link, p, kind, ranges), kind, ranges[i], ranges[i].members[j])
  {
    hide OneRange, Accounted, DistinctIdx, Addressable, Untouched;
    if ranges != [] {
      var front, last := ranges[..|ranges| - 1], ranges[|ranges| - 1];
      var before, after := AllRanges(link, p, kind, front), AllRanges(link, p, kind, ranges);
      DistinctSplits(Members(front), last.members, |p.slots|);
      AllRangesEffect(link, p, kind, front);
      OneRangeEffect(link, before, kind, last, |p.calls|);
      forall i, j | 0 <= i < |ranges| && 0 <= j < |ranges[i].members|
        ensures Accounted(link, |p.calls|, after, kind, ranges[i], ranges[i].members[j])
      {
        if i < |front| {
          assert front[i] == ranges[i];
          MemberIsUntouched(front, last.members, i, j);
          AccountedIsInRange(link, |p.calls|, before, kind, ranges[i], ranges[i].members[j]);
          AccountedLater(link, |p.calls|, before, after, kind, ranges[i], ranges[i].members[j]);
        }
      }
    }
  }

  lemma {:induction false} AccountedIsInRange(link: Link, first: nat, q: Progress, kind: RegisterType,
      range: MergedRange, member: IndexedMetric)
    requires range.Valid() && Accounted(link, first, q, kind, range, member)
    ensures member.idx < |q.slots|
  {
  }

  lemma {:induction false} MemberIsUntouched(ranges: seq<MergedRange>, others: seq<IndexedMetric>, i: nat, j: nat)
    requires i < |ranges| && j < |ranges[i].members|
    requires forall k | 0 <= k < |Members(ranges)| :: Untouched(others, Members(ranges)[k].idx)
    ensures Untouched(others, ranges[i].members[j].idx)
  {
    MembersOfPlan(ranges, i, j);
  }

  // ----- the whole batch -----

  lemma {:induction false} OtherKindsUntouched(metrics: seq<MetricConfig>, kinds: set<RegisterType>,
      items: seq<IndexedMetric>, i: nat)
    requires i < |metrics| && From(metrics, kinds, items)
    requires metrics[i].address.Some? ==> KindOf(metrics[i]) !in kinds
    ensures Untouched(items, i)
  {
  }

  /** A planned item belongs to one of the ranges. */
  lemma {:induction false} PlannedSomewhere(ranges: seq<MergedRange>, item: IndexedMetric) returns (r: nat, j: nat)
    requires item in Members(ranges)
    ensures r < |ranges| && j < |ranges[r].members| && ranges[r].members[j] == item
  {
    var last := ranges[|ranges| - 1].members;
    if item in last {
      r := |ranges| - 1;
      j :| 0 <= j < |last| && last[j] == item;
    } else {
      r, j := PlannedSomewhere(ranges[..|ranges| - 1], item);
    }
  }

  /** What accounts for the outcome of input metric `i`. */
  ghost predicate Answered(link: Link, first: nat, q: Progress, metrics: seq<MetricConfig>, i: nat)
    requires i < |metrics| == |q.slots|
  {
    var m := metrics[i];
    if m.address.None? then
      q.slots[i] == Some(Err(NoAddress(m.name)))
    else if IsRegister(KindOf(m)) then
      exists range | range in PlanFor(metrics, KindOf(m)) :: InRange(link, first, q, metrics, i, range)
    else
      exists n | first <= n < |q.calls| :: [q.calls[n]] == SingleCall(m) && q.slots[i] == Some(SingleAt(link, n, m))
  }

  ghost predicate InRange(link: Link, first: nat, q: Progress, metrics: seq<MetricConfig>, i: nat, range: MergedRange)
    requires i < |metrics| && metrics[i].address.Some?
  {
    && range.Valid()
    && ItemAt(metrics, i) in range.members
    && Accounted(link, first, q, KindOf(metrics[i]), range, ItemAt(metrics, i))
  }

  /** One bulk loop answers the metrics of its kind. */
  lemma {:induction false} BulkAnswers(link: Link, p: Progress, metrics: seq<MetricConfig>, kind: RegisterType)
    requires |p.slots| == |metrics| && AllValid(PlanFor(metrics, kind))
    ensures OnlyTouches(p, AllRanges(link, p, kind, PlanFor(metrics, kind)), Members(PlanFor(metrics, kind)))
    ensures forall i | 0 <= i < |metrics| && metrics[i].address.Some? && KindOf(metrics[i]) == kind ::
      exists range | range in PlanFor(metrics, kind) ::
        InRange(link, |p.calls|, AllRanges(link, p, kind, PlanFor(metrics, kind)), metrics, i, range)
  {
    hide Members, SortByAddr, Selected, Plan, Accounted, AllRanges;
    PlannerInput(metrics, kind);
    var ranges := PlanFor(metrics, kind);
    AllRangesEffect(link, p, kind, ranges);
    forall i | 0 <= i < |metrics| && metrics[i].address.Some? && KindOf(metrics[i]) == kind
      ensures exists range | range in ranges ::
        InRange(link, |p.calls|, AllRanges(link, p, kind, ranges), metrics, i, range)
    {
      var r, j := PlannedSomewhere(ranges, ItemAt(metrics, i));
      assert ranges[r] in ranges && InRange(link, |p.calls|, AllRanges(link, p, kind, ranges), metrics, i, ranges[r]);
    }
  }

  /** A part of the batch that comes later leaves an answer of another kind standing. */
  lemma {:induction false} InRangeLater(link: Link, first: nat, p: Progress, q: Progress, metrics: seq<MetricConfig>,
      i: nat, range: MergedRange)
    requires i < |metrics| == |p.slots| && metrics[i].address.Some?
    requires InRange(link, first, p, metrics, i, range)
    requires |q.slots| == |p.slots| && q.slots[i] == p.slots[i]
    requires |p.calls| <= |q.calls| && q.calls[..|p.calls|] == p.calls
    ensures InRange(link, first, q, metrics, i, range)
  {
    hide Accounted;
    AccountedLater(link, first, p, q, KindOf(metrics[i]), range, ItemAt(metrics, i));
  }

  lemma {:induction false} InRangeEarlier(link: Link, first: nat, start: nat, q: Progress, metrics: seq<MetricConfig>,
      i: nat, range: MergedRange)
    requires i < |metrics| && metrics[i].address.Some?
    requires first <= start && InRange(link, start, q, metrics, i, range)
    ensures InRange(link, first, q, metrics, i, range)
  {
    hide SingleAt, SingleCall, DecodeMetric, RangeAnswer, RangeCall;
    var member := ItemAt(metrics, i);
    var o := q.slots[member.idx].value;
    var n :| Accounts(link, start, q.calls, n, KindOf(metrics[i]), range, member.metric, o);
    assert Accounts(link, first, q.calls, n, KindOf(metrics[i]), range, member.metric, o);
  }

  lemma {:induction false} SelectedIsAddressable(metrics: seq<MetricConfig>, kinds: set<RegisterType>)
    ensures DistinctIdx(Selected(metrics, kinds, |metrics|))
    ensures Addressable(Selected(metrics, kinds, |metrics|), |metrics|)
  {
    hide Selected, KindOf, RegisterCount;
    SelectedShape(metrics, kinds, |metrics|);
  }

  lemma {:induction false} ItemOf(metrics: seq<MetricConfig>, i: nat)
    requires i < |metrics| && metrics[i].address.Some?
    ensures ItemAt(metrics, i).idx == i && ItemAt(metrics, i).metric == metrics[i]
  {
  }

  lemma {:induction false} BitsAnswered(link: Link, first: nat, p: Progress, metrics: seq<MetricConfig>, i: nat)
    requires i < |metrics| == |p.slots| && first <= |p.calls|
    requires metrics[i].address.Some? && KindOf(metrics[i]) in BIT_KINDS
    ensures Answered(link, first, Singly(link, p, Selected(metrics, BIT_KINDS, |metrics|)), metrics, i)
  {
    hide SingleAt, SingleCall, Selected, Singly, DistinctIdx, Addressable, OnlyTouches, ItemAt, From, RegisterCount;
    var items := Selected(metrics, BIT_KINDS, |metrics|);
    SelectedIsAddressable(metrics, BIT_KINDS);
    SinglyEffect(link, p, items);
    SelectedShape(metrics, BIT_KINDS, |metrics|);
    ItemOf(metrics, i);
    var j :| 0 <= j < |items| && items[j] == ItemAt(metrics, i);
    var n := |p.calls| + j;
    assert [Singly(link, p, items).calls[n]] == SingleCall(metrics[i]);
  }

  lemma {:induction false} SinglyOnlyTouches(link: Link, p: Progress, metrics: seq<MetricConfig>)
    requires |p.slots| == |metrics|
    ensures OnlyTouches(p, Singly(link, p, Selected(metrics, BIT_KINDS, |metrics|)), Selected(metrics, BIT_KINDS, |metrics|))
    ensures From(metrics, BIT_KINDS, Selected(metrics, BIT_KINDS, |metrics|))
  {
    hide SingleAt, SingleCall, Selected, Singly;
    SelectedShape(metrics, BIT_KINDS, |metrics|);
    SinglyEffect(link, p, Selected(metrics, BIT_KINDS, |metrics|));
  }

  /**
   For every device, every input metric has an outcome, and exactly the calls of this batch
   account for it: its range's read, or its own read after its range's read failed.
   */
  lemma {:induction false} EverySlotFilled(link: Link, calls: seq<Call>, metrics: seq<MetricConfig>, i: nat)
    requires i < |metrics|
    ensures Answered(link, |calls|, Batch(link, calls, metrics), metrics, i)
    ensures Batch(link, calls, metrics).slots[i].Some?
  {
    hide Plan, Members, SortByAddr, Selected, AllRanges, Singly, SingleAt, SingleCall, Accounted, InRange, From;
    hide PlanFor, Plannable, WellPlanned, DistinctIdx, Good;
    PlanIsGood(metrics, Holding);
    PlanIsGood(metrics, Input);
    PlannerInput(metrics, Holding);
    PlannerInput(metrics, Input);
    var p := Progress(Blank(metrics, |metrics|), calls);
    var held := AllRanges(link, p, Holding, PlanFor(metrics, Holding));
    var input := AllRanges(link, held, Input, PlanFor(metrics, Input));
    var bits := Selected(metrics, BIT_KINDS, |metrics|);
    var q := Singly(link, input, bits);
    BulkAnswers(link, p, metrics, Holding);
    BulkAnswers(link, held, metrics, Input);
    SinglyOnlyTouches(link, input, metrics);
    var m := metrics[i];
    if m.address.Some? && KindOf(m) in BIT_KINDS {
      BitsAnswered(link, |calls|, input, metrics, i);
    } else {
      OtherKindsUntouched(metrics, BIT_KINDS, bits, i);
      if m.address.None? {
        OtherKindsUntouched(metrics, {Holding}, Members(PlanFor(metrics, Holding)), i);
        OtherKindsUntouched(metrics, {Input}, Members(PlanFor(metrics, Input)), i);
      } else if KindOf(m) == Holding {
        OtherKindsUntouched(metrics, {Input}, Members(PlanFor(metrics, Input)), i);
        var range :| range in PlanFor(metrics, Holding) && InRange(link, |calls|, held, metrics, i, range);
        InRangeLater(link, |calls|, held, input, metrics, i, range);
        InRangeLater(link, |calls|, input, q, metrics, i, range);
        InRangeFills(link, |calls|, q, metrics, i, range);
      } else {
        var range :| range in PlanFor(metrics, Input) && InRange(link, |held.calls|, input, metrics, i, range);
        InRangeLater(link, |held.calls|, input, q, metrics, i, range);
        InRangeEarlier(link, |calls|, |held.calls|, q, metrics, i, range);
        InRangeFills(link, |calls|, q, metrics, i, range);
      }
    }
  }

  /**
   Call `n` gave metric `m` its outcome: a call on the table that the configuration names,
   either the metric's own read or one from whose answer its own registers are decoded.
   */
  ghost predicate IsCallFor(link: Link, n: nat, call: Call, m: MetricConfig, o: Outcome)
    requires m.address.Some?
  {
    && IsTableOf(call.kind, m)
    && call.addr <= m.address.value
    && (|| (call.addr == m.address.value && o == SingleAt(link, n, m))
        || (&& RegistersAt(link, n, call.kind, call.addr, call.count).Ok?
            && o == DecodeMetric(m, RegistersAt(link, n, call.kind, call.addr, call.count).value, call.addr)))
  }

  lemma {:induction false} SingleIsCallFor(link: Link, n: nat, call: Call, m: MetricConfig)
    requires m.address.Some? && [call] == SingleCall(m)
    ensures IsCallFor(link, n, call, m, SingleAt(link, n, m))
  {
    hide SingleAt, DecodeMetric, RegistersAt;
    assert call == [call][0];
  }

  lemma {:induction false} RangeIsCallFor(link: Link, first: nat, q: Progress, metrics: seq<MetricConfig>, i: nat, range: MergedRange)
    returns (n: nat)
    requires i < |metrics| == |q.slots| && metrics[i].address.Some? && range.Valid() && PlannedRange(metrics, i, range)
    requires InRange(link, first, q, metrics, i, range)
    ensures first <= n < |q.calls| && q.slots[i].Some? && IsCallFor(link, n, q.calls[n], metrics[i], q.slots[i].value)
  {
    hide SingleAt, DecodeMetric, RegistersAt, SingleCall, PlannedRange;
    var m := metrics[i];
    PlannedRangeBounds(metrics, i, range);
    ItemOf(metrics, i);
    n :| Accounts(link, first, q.calls, n, KindOf(m), range, m, q.slots[i].value);
    if [q.calls[n]] == SingleCall(m) && q.slots[i].value == SingleAt(link, n, m) {
      SingleIsCallFor(link, n, q.calls[n], m);
    }
  }

  /** Every metric's outcome comes from one call of the batch, on the table that its configuration names. */
  lemma {:induction false} EveryCallNamesItsTable(link: Link, calls: seq<Call>, metrics: seq<MetricConfig>, i: nat) returns (n: nat)
    requires i < |metrics| && metrics[i].address.Some?
    ensures var q := Batch(link, calls, metrics);
      && |calls| <= n < |q.calls|
      && q.slots[i].Some?
      && IsCallFor(link, n, q.calls[n], metrics[i], q.slots[i].value)
  {
    hide Batch, PlanFor, InRange, SingleAt, SingleCall, IsCallFor;
    var q, m := Batch(link, calls, metrics), metrics[i];
    EverySlotFilled(link, calls, metrics, i);
    if IsRegister(KindOf(m)) {
      var range :| range in PlanFor(metrics, KindOf(m)) && InRange(link, |calls|, q, metrics, i, range);
      InRangeIsPlanned(link, |calls|, q, metrics, i, range);
      n := RangeIsCallFor(link, |calls|, q, metrics, i, range);
    } else {
      n :| |calls| <= n < |q.calls| && [q.calls[n]] == SingleCall(m) && q.slots[i] == Some(SingleAt(link, n, m));
      SingleIsCallFor(link, n, q.calls[n], m);
    }
  }

  lemma {:induction false} InRangeIsPlanned(link: Link, first: nat, q: Progress, metrics: seq<MetricConfig>, i: nat, range: MergedRange)
    requires i < |metrics| && metrics[i].address.Some? && range in PlanFor(metrics, KindOf(metrics[i]))
    requires InRange(link, first, q, metrics, i, range)
    ensures range.Valid() && PlannedRange(metrics, i, range)
  {
    hide PlanFor, Accounted, ItemAt;
  }

  lemma {:induction false} InRangeFills(link: Link, first: nat, q: Progress, metrics: seq<MetricConfig>, i: nat, range: MergedRange)
    requires i < |metrics| == |q.slots| && metrics[i].address.Some?
    requires InRange(link, first, q, metrics, i, range)
    ensures q.slots[i].Some?
  {
  }

  /** The grouping loop. */
  method GroupByKind(metrics: seq<MetricConfig>, slots: array<Option<Outcome>>)
    returns (holding: seq<IndexedMetric>, input: seq<IndexedMetric>, individual: seq<IndexedMetric>)
    requires slots.Length == |metrics| && slots[..] == Blank(metrics, 0)
    modifies slots
    ensures slots[..] == Blank(metrics, |metrics|)
    ensures holding == Selected(metrics, {Holding}, |metrics|)
    ensures input == Selected(metrics, {Input}, |metrics|)
    ensures individual == Selected(metrics, BIT_KINDS, |metrics|)
  {
    holding, input, individual := [], [], [];
    for idx := 0 to |metrics|
      invariant slots[..] == Blank(metrics, idx)
      invariant holding == Selected(metrics, {Holding}, idx)
      invariant input == Selected(metrics, {Input}, idx)
      invariant individual == Selected(metrics, BIT_KINDS, idx)
    {
      var m := metrics[idx];
      if m.address.None? {
        slots[idx] := Some(Err(NoAddress(m.name)));
        assert slots[..] == Blank(metrics, idx + 1);
        continue;
      }
      assert slots[..] == Blank(metrics, idx + 1);
      var item := IndexedMetric(idx, m, m.address.value, RegisterCount(m));
      match KindOf(m) {
        case Holding => holding := holding + [item];
        case Input => input := input + [item];
        case Coil => individual := individual + [item];
        case Discrete => individual := individual + [item];
      }
    }
  }

  /** Planning and bulk reading of one register kind. */
  method ReadKind(reader: ModbusTcpClient, metrics: seq<MetricConfig>, kind: RegisterType, items: seq<IndexedMetric>,
      slots: array<Option<Outcome>>)
    returns (readCount: nat)
    requires IsRegister(kind) && slots.Length == |metrics|
    requires items == Selected(metrics, {kind}, |metrics|)
    requires AllValid(PlanFor(metrics, kind))
    modifies reader`calls, slots
    ensures Progress(slots[..], reader.calls)
         == AllRanges(reader.At(), old(Progress(slots[..], reader.calls)), kind, PlanFor(metrics, kind))
    ensures readCount == |reader.calls| - |old(reader.calls)|
  {
    hide AllRanges, Selected, SortByAddr, Plan;
    var ranges := Coalesce(SortByAddr(items));
    forall i | 0 <= i < |ranges| ensures Addressable(ranges[i].members, slots.Length) {
      PlanIsAddressable(metrics, kind, i);
    }
    readCount := ReadRanges(reader, kind, ranges, slots);
  }

  /** What the output loop makes of a slot. */
  function Taken(slot: Option<Outcome>, name: string): Outcome {
    match slot
    case Some(o) => o
    case None => Err(NotProcessed(name))
  }

  method BatchReadCoalesced(reader: ModbusTcpClient, metrics: seq<MetricConfig>)
    returns (results: seq<(MetricConfig, Outcome)>, readCount: nat)
    modifies reader`calls
    ensures reader.calls == Batch(reader.At(), old(reader.calls), metrics).calls
    ensures readCount == |reader.calls| - |old(reader.calls)|
    ensures |results| == |metrics|
    ensures forall i | 0 <= i < |metrics| ::
              && results[i].0 == metrics[i]
              && Batch(reader.At(), old(reader.calls), metrics).slots[i] == Some(results[i].1)
  {
    hide AllRanges, Selected, PlanFor, Singly;
    var slots := new Option<Outcome>[|metrics|](_ => None);
    assert slots[..] == Blank(metrics, 0);
    var holding, input, individual := GroupByKind(metrics, slots);
    readCount := 0;

    PlanIsGood(metrics, Holding);
    var count := ReadKind(reader, metrics, Holding, holding, slots);
    readCount := readCount + count;

    PlanIsGood(metrics, Input);
    count := ReadKind(reader, metrics, Input, input, slots);
    readCount := readCount + count;

    SelectedShape(metrics, BIT_KINDS, |metrics|);
    count := ReadMembers(reader, individual, slots);
    readCount := readCount + count;

    ghost var link, first := reader.At(), old(reader.calls);
    assert Progress(slots[..], reader.calls) == Batch(link, first, metrics);
    hide Batch, Answered;
    results := [];
    for idx := 0 to |metrics|
      invariant Progress(slots[..], reader.calls) == Batch(link, first, metrics)
      invariant |results| == idx
      invariant forall i | 0 <= i < idx ::
        results[i].0 == metrics[i] && Batch(link, first, metrics).slots[i] == Some(results[i].1)
    {
      results := results + [(metrics[idx], Taken(slots[idx], metrics[idx].name))];
      EverySlotFilled(link, first, metrics, idx);
    }
  }

  // ----- the batch refines individual reads -----

  lemma {:induction false} PlannableParts(a: seq<IndexedMetric>, b: seq<IndexedMetric>)
    requires Plannable(a + b)
    ensures Plannable(a) && Plannable(b)
  {
    var all := a + b;
    assert forall k | 0 <= k < |a| :: all[k] == a[k];
    assert forall k | 0 <= k < |b| :: all[|a| + k] == b[k];
  }

  lemma {:induction false} RangeIsPlannable(ranges: seq<MergedRange>, i: nat)
    requires Plannable(Members(ranges)) && i < |ranges|
    ensures Plannable(ranges[i].members)
  {
    hide Plannable;
    PlannableParts(Members(ranges[..|ranges| - 1]), ranges[|ranges| - 1].members);
    if i < |ranges| - 1 {
      RangeIsPlannable(ranges[..|ranges| - 1], i);
    }
  }

  /** The last register of a metric lies beyond what the planner's saturating arithmetic reaches. */
  predicate TouchesTop(m: MetricConfig)
    requires m.address.Some?
  {
    m.address.value + RegisterCount(m) > 0xFFFF
  }

  ghost predicate PlannedRange(metrics: seq<MetricConfig>, i: nat, range: MergedRange)
    requires i < |metrics| && metrics[i].address.Some?
  {
    range in PlanFor(metrics, KindOf(metrics[i])) && ItemAt(metrics, i) in range.members
  }

  lemma {:induction false} PlannedRangeBounds(metrics: seq<MetricConfig>, i: nat, range: MergedRange)
    requires i < |metrics| && metrics[i].address.Some? && PlannedRange(metrics, i, range)
    ensures range.Valid() && range.start <= metrics[i].address.value
    ensures range.Count() <= MAX_REGISTERS_PER_READ
    ensures range.Count() == 0 <==> range.start == 0xFFFF
    ensures TouchesTop(metrics[i]) ==> range.end == 0xFFFF
    ensures !TouchesTop(metrics[i]) ==> metrics[i].address.value + RegisterCount(metrics[i]) <= range.end
  {
    var kind := KindOf(metrics[i]);
    var ranges := PlanFor(metrics, kind);
    var r :| 0 <= r < |ranges| && ranges[r] == range;
    var j :| 0 <= j < |range.members| && range.members[j] == ItemAt(metrics, i);
    hide Plan, Members, SortByAddr, Selected, Plannable, Good, WellPlanned;
    PlannerInput(metrics, kind);
    PlanIsGood(metrics, kind);
    RangeIsPlannable(ranges, r);
    GoodRangeBounds(range, j);
  }

  lemma {:induction false} SliceOfAnswer(link: Link, n: nat, m: MetricConfig, start: u16, count: u16)
    requires Consistent(link.device)
    requires m.address.Some? && IsRegister(KindOf(m))
    requires start <= m.address.value && m.address.value + RegisterCount(m) <= start + count
    requires RegistersAt(link, n, KindOf(m), start, count).Ok?
    ensures DecodeMetric(m, RegistersAt(link, n, KindOf(m), start, count).value, start) == SingleAt(link, n, m)
  {
    hide Consistent, Decoded, KindOf;
    ConsistentSlice(link.device, n, KindOf(m), start, count, m.address.value, RegisterCount(m));
  }

  /** A slice of a range's answer decodes to what the metric's own read would have given. */
  lemma {:induction false} SliceIsOwnRead(link: Link, n: nat, metrics: seq<MetricConfig>, i: nat, range: MergedRange)
    requires Consistent(link.device)
    requires i < |metrics| && metrics[i].address.Some? && IsRegister(KindOf(metrics[i]))
    requires PlannedRange(metrics, i, range) && !TouchesTop(metrics[i])
    requires range.Valid() && RangeAnswer(link, n, KindOf(metrics[i]), range).Ok?
    ensures DecodeMetric(metrics[i], RangeAnswer(link, n, KindOf(metrics[i]), range).value, range.start)
         == SingleAt(link, n, metrics[i])
  {
    hide PlannedRange, Consistent, DecodeMetric, SingleAt, RegistersAt, RegisterCount, KindOf, IsRegister;
    PlannedRangeBounds(metrics, i, range);
    SliceOfAnswer(link, n, metrics[i], range.start, range.Count());
  }

  lemma {:induction false} ConsistentSlice(device: Device, n: nat, kind: RegisterType, addr: u16, count: u16, a: u16, c: u16)
    requires Consistent(device) && device.registers(n, kind, addr, count).Ok?
    requires addr <= a && a + c <= addr + count && 1 <= c
    ensures |device.registers(n, kind, addr, count).value| == count
    ensures device.registers(n, kind, a, c) == Ok(device.registers(n, kind, addr, count).value[a - addr..a - addr + c])
  {
    assert SlicesAgree(device, n, kind, addr, count);
    assert PartAgrees(device, n, kind, addr, device.registers(n, kind, addr, count).value, a, c);
  }

  /** The outcome of input metric `i` is one it would have had if read on its own at a moment of this batch. */
  ghost predicate Refines(link: Link, calls: seq<Call>, metrics: seq<MetricConfig>, i: nat)
    requires i < |metrics|
  {
    var q := Batch(link, calls, metrics);
    exists n | |calls| <= n < |q.calls| :: q.slots[i] == Some(SingleAt(link, n, metrics[i]))
  }

  /** The metric's registers end below 65535, or its range opens at the very top. */
  ghost predicate ReadableInBulk(metrics: seq<MetricConfig>, i: nat)
    requires i < |metrics| && metrics[i].address.Some?
  {
    !TouchesTop(metrics[i]) || exists range :: PlannedRange(metrics, i, range) && range.start == 0xFFFF
  }

  /** Two planned ranges of one metric are one. */
  lemma {:induction false} PlannedRangeIsUnique(metrics: seq<MetricConfig>, i: nat, a: MergedRange, b: MergedRange)
    requires i < |metrics| && metrics[i].address.Some?
    requires PlannedRange(metrics, i, a) && PlannedRange(metrics, i, b)
    ensures a == b
  {
    var ranges := PlanFor(metrics, KindOf(metrics[i]));
    var item := ItemAt(metrics, i);
    var r :| 0 <= r < |ranges| && ranges[r] == a;
    var s :| 0 <= s < |ranges| && ranges[s] == b;
    hide Plan, Members, SortByAddr, Selected, Plannable, Good, WellPlanned;
    PlannerInput(metrics, KindOf(metrics[i]));
    SameRange(ranges, r, s, item);
  }

  lemma {:induction false} NotInBoth(a: seq<IndexedMetric>, b: seq<IndexedMetric>, item: IndexedMetric)
    requires DistinctIdx(a + b) && item in a
    ensures item !in b
  {
    var x :| 0 <= x < |a| && a[x] == item;
    forall y | 0 <= y < |b| ensures b[y].idx != item.idx {
      assert (a + b)[x] == item && (a + b)[|a| + y] == b[y];
    }
  }

  lemma {:induction false} SameRange(ranges: seq<MergedRange>, r: nat, s: nat, item: IndexedMetric)
    requires DistinctIdx(Members(ranges))
    requires r < |ranges| && s < |ranges| && item in ranges[r].members && item in ranges[s].members
    ensures r == s
  {
    var front, last := ranges[..|ranges| - 1], ranges[|ranges| - 1].members;
    var all := Members(front) + last;
    if r < |front| && s < |front| {
      assert forall k | 0 <= k < |Members(front)| :: all[k] == Members(front)[k];
      SameRange(front, r, s, item);
    } else if r < |front| || s < |front| {
      var t := if r < |front| then r else s;
      var j :| 0 <= j < |ranges[t].members| && ranges[t].members[j] == item;
      MembersOfPlan(front, t, j);
      NotInBoth(Members(front), last, item);
    }
  }

  /**
   Over any consistent device, whatever changes and fails between calls, each metric that is
   readable in bulk gets an outcome of its own individual read at a moment of the batch.
   */
  lemma {:induction false} BatchRefinesSingle(link: Link, calls: seq<Call>, metrics: seq<MetricConfig>, i: nat)
    requires Consistent(link.device)
    requires i < |metrics| && metrics[i].address.Some?
    requires IsRegister(KindOf(metrics[i])) ==> ReadableInBulk(metrics, i)
    ensures Refines(link, calls, metrics, i)
  {
    hide Batch, Accounts, PlanFor, SingleAt, DecodeMetric, Consistent, Members, ItemAt;
    EverySlotFilled(link, calls, metrics, i);
    var m, q := metrics[i], Batch(link, calls, metrics);
    if IsRegister(KindOf(m)) {
      var range :| range in PlanFor(metrics, KindOf(m)) && InRange(link, |calls|, q, metrics, i, range);
      RegisterRefines(link, calls, metrics, i, range);
    }
  }

  lemma {:induction false} RegisterRefines(link: Link, calls: seq<Call>, metrics: seq<MetricConfig>, i: nat, range: MergedRange)
    requires Consistent(link.device)
    requires i < |metrics| && metrics[i].address.Some?
    requires IsRegister(KindOf(metrics[i])) && ReadableInBulk(metrics, i)
    requires range in PlanFor(metrics, KindOf(metrics[i]))
    requires InRange(link, |calls|, Batch(link, calls, metrics), metrics, i, range)
    ensures Refines(link, calls, metrics, i)
  {
    hide Batch, PlanFor, SingleAt, DecodeMetric, Consistent;
    var m, q := metrics[i], Batch(link, calls, metrics);
    var o := q.slots[i].value;
    assert PlannedRange(metrics, i, range);
    PlannedRangeBounds(metrics, i, range);
    var n :| Accounts(link, |calls|, q.calls, n, KindOf(m), range, m, o);
    if RangeAnswer(link, n, KindOf(m), range).Ok? && o == DecodeMetric(m, RangeAnswer(link, n, KindOf(m), range).value, range.start) {
      if TouchesTop(m) {
        var top :| PlannedRange(metrics, i, top) && top.start == 0xFFFF;
        PlannedRangeIsUnique(metrics, i, range, top);
        assert false;
      }
      SliceIsOwnRead(link, n, metrics, i, range);
    }
  }

  /** A device that never fails and whose registers are all zero. */
  function ZeroDevice(): Device {
    BankDevice((n, kind, addr) => 0, (n, kind, addr) => false)
  }

  /** A bulk read that succeeds cuts a metric that touches the top off its last register. */
  lemma {:induction false} TopIsCutOff(metrics: seq<MetricConfig>, i: nat, range: MergedRange, regs: seq<u16>)
    requires i < |metrics| && metrics[i].address.Some? && PlannedRange(metrics, i, range)
    requires range.Valid() && |regs| == range.Count()
    ensures DecodeMetric(metrics[i], regs, range.start).Err? <==> TouchesTop(metrics[i])
    ensures TouchesTop(metrics[i]) ==> DecodeMetric(metrics[i], regs, range.start).error.OutOfBounds?
  {
    PlannedRangeBounds(metrics, i, range);
    hide PlannedRange;
  }

  lemma {:induction false} ZeroDeviceLosesTop(metrics: seq<MetricConfig>, i: nat)
    requires i < |metrics| && metrics[i].address.Some? && IsRegister(KindOf(metrics[i]))
    requires !ReadableInBulk(metrics, i)
    ensures !Refines(Link(ZeroDevice(), true), [], metrics, i)
  {
    hide Batch, PlanFor, DecodeMetric;
    var link := Link(ZeroDevice(), true);
    var m, q := metrics[i], Batch(link, [], metrics);
    EverySlotFilled(link, [], metrics, i);
    var range :| range in PlanFor(metrics, KindOf(m)) && InRange(link, 0, q, metrics, i, range);
    assert PlannedRange(metrics, i, range);
    PlannedRangeBounds(metrics, i, range);
    assert range.start != 0xFFFF;
    assert forall n: nat :: RangeAnswer(link, n, KindOf(m), range).Ok?;
    var o := q.slots[i].value;
    var n :| Accounts(link, 0, q.calls, n, KindOf(m), range, m, o);
    TopIsCutOff(metrics, i, range, RangeAnswer(link, n, KindOf(m), range).value);
    forall k: nat ensures SingleAt(link, k, m).Ok? {
      assert RegistersAt(link, k, KindOf(m), m.address.value, RegisterCount(m)).Ok?;
    }
  }

  /**
   A metric of two or four registers that ends with register 65535 passes the check of
   src/config.rs:1289 and is lost to bulk reads, whatever other metrics there are: the device
   below answers every individual read, and the batch gives an outcome that none of them has.
   */
  lemma {:induction false} AcceptedButLost(metrics: seq<MetricConfig>, i: nat)
    requires i < |metrics| && metrics[i].address.Some? && IsRegister(KindOf(metrics[i]))
    requires RegisterCount(metrics[i]) > 1 && metrics[i].address.value + RegisterCount(metrics[i]) == 65536
    ensures !ReadableInBulk(metrics, i)
    ensures forall n: nat :: SingleAt(Link(ZeroDevice(), true), n, metrics[i]).Ok?
    ensures !Refines(Link(ZeroDevice(), true), [], metrics, i)
  {
    hide Refines, PlannedRange;
    if range :| PlannedRange(metrics, i, range) && range.start == 0xFFFF {
      PlannedRangeBounds(metrics, i, range);
      assert false;
    }
    forall n: nat ensures SingleAt(Link(ZeroDevice(), true), n, metrics[i]).Ok? {
      assert RegistersAt(Link(ZeroDevice(), true), n, KindOf(metrics[i]), metrics[i].address.value, RegisterCount(metrics[i])).Ok?;
    }
    ZeroDeviceLosesTop(metrics, i);
  }

  /** A `u32` in the holding registers 65534 and 65535. */
  const TOP_METRIC: MetricConfig := MetricConfig("top", "", Gauge, Some(Holding), Some(65534), U32, BigEndian,
    Whole(1), Whole(0), "", [], None, 0)

  /** One such metric, on its own. */
  lemma {:induction false} TopMetricIsLost()
    ensures TOP_METRIC.address.value + RegisterCount(TOP_METRIC) <= 65536
    ensures !ReadableInBulk([TOP_METRIC], 0) && !Refines(Link(ZeroDevice(), true), [], [TOP_METRIC], 0)
  {
    hide Refines, ReadableInBulk;
    AcceptedButLost([TOP_METRIC], 0);
  }

  /**
   Exactly when a bulk read can stand in for individual reads: the metric's registers end
   below 65535, or its range opens at 65535 and so always falls back.
   */
  lemma {:induction false} BatchRefinesExactly(metrics: seq<MetricConfig>, i: nat)
    requires i < |metrics| && metrics[i].address.Some? && IsRegister(KindOf(metrics[i]))
    ensures ReadableInBulk(metrics, i)
       <==> forall link: Link, calls :: Consistent(link.device) ==> Refines(link, calls, metrics, i)
  {
    hide Refines, ReadableInBulk;
    if ReadableInBulk(metrics, i) {
      forall link: Link, calls | Consistent(link.device) ensures Refines(link, calls, metrics, i) {
        BatchRefinesSingle(link, calls, metrics, i);
      }
    } else {
      ZeroDeviceLosesTop(metrics, i);
      BankIsConsistent((n, kind, addr) => 0, (n, kind, addr) => false);
    }
  }

  // ----- how many calls a batch makes -----

  /** Reads of the ranges, one after the other from moment `n` on, all succeed. */
  ghost predicate NoneFails(link: Link, n: nat, kind: RegisterType, ranges: seq<MergedRange>)
    requires AllValid(ranges)
  {
    forall k | 0 <= k < |ranges| :: RangeAnswer(link, n + k, kind, ranges[k]).Ok?
  }

  /** The members of the ranges that fail when the loop over the ranges begins at moment `n`. */
  ghost function Fallbacks(link: Link, n: nat, kind: RegisterType, ranges: seq<MergedRange>): nat
    requires AllValid(ranges)
  {
    if ranges == [] then 0
    else
      var front, last := ranges[..|ranges| - 1], ranges[|ranges| - 1];
      var before := Fallbacks(link, n, kind, front);
      before + if RangeAnswer(link, n + |front| + before, kind, last).Err? then |last.members| else 0
  }

  lemma {:induction false} NoneFailsSnoc(link: Link, n: nat, kind: RegisterType, ranges: seq<MergedRange>)
    requires AllValid(ranges) && ranges != []
    ensures NoneFails(link, n, kind, ranges)
       <==> && NoneFails(link, n, kind, ranges[..|ranges| - 1])
            && RangeAnswer(link, n + |ranges| - 1, kind, ranges[|ranges| - 1]).Ok?
  {
    hide RangeAnswer;
    var front := ranges[..|ranges| - 1];
    if NoneFails(link, n, kind, ranges) {
      forall k | 0 <= k < |front| ensures RangeAnswer(link, n + k, kind, front[k]).Ok? {
        assert RangeAnswer(link, n + k, kind, ranges[k]).Ok?;
      }
    }
    if NoneFails(link, n, kind, front) && RangeAnswer(link, n + |front|, kind, ranges[|front|]).Ok? {
      forall k | 0 <= k < |ranges| ensures RangeAnswer(link, n + k, kind, ranges[k]).Ok? {
        if k < |front| { assert RangeAnswer(link, n + k, kind, front[k]).Ok?; }
      }
    }
  }

  ghost predicate NonEmpty(ranges: seq<MergedRange>) {
    forall i | 0 <= i < |ranges| :: ranges[i].members != []
  }

  lemma {:induction false} FallbackBounds(link: Link, n: nat, kind: RegisterType, ranges: seq<MergedRange>)
    requires AllValid(ranges) && NonEmpty(ranges)
    ensures |ranges| <= |Members(ranges)|
    ensures Fallbacks(link, n, kind, ranges) <= |Members(ranges)|
    ensures Fallbacks(link, n, kind, ranges) == 0 <==> NoneFails(link, n, kind, ranges)
  {
    hide RangeAnswer, NoneFails;
    if ranges == [] {
      NoneFailsEmpty(link, n, kind);
    } else {
      var last := ranges[|ranges| - 1];
      assert last.members != [];
      FallbackBounds(link, n, kind, ranges[..|ranges| - 1]);
      NoneFailsSnoc(link, n, kind, ranges);
    }
  }

  lemma {:induction false} NoneFailsEmpty(link: Link, n: nat, kind: RegisterType)
    ensures NoneFails(link, n, kind, [])
  {
  }

  lemma {:induction false} RangesCost(link: Link, p: Progress, kind: RegisterType, ranges: seq<MergedRange>)
    requires AllValid(ranges)
    requires DistinctIdx(Members(ranges)) && Addressable(Members(ranges), |p.slots|)
    ensures |AllRanges(link, p, kind, ranges).calls| == |p.calls| + |ranges| + Fallbacks(link, |p.calls|, kind, ranges)
  {
    hide OneRange, RangeAnswer, DistinctIdx, Addressable, Untouched;
    if ranges != [] {
      var n := |ranges| - 1;
      var front, last := ranges[..n], ranges[n];
      DistinctSplits(Members(front), last.members, |p.slots|);
      RangesCost(link, p, kind, front);
      OneRangeEffect(link, AllRanges(link, p, kind, front), kind, last, 0);
    }
  }

  lemma {:induction false} SelectedCount(metrics: seq<MetricConfig>, n: nat)
    requires n <= |metrics|
    ensures |Selected(metrics, {Holding}, n)| + |Selected(metrics, {Input}, n)| + |Selected(metrics, BIT_KINDS, n)| <= n
  {
    if n > 0 {
      SelectedCount(metrics, n - 1);
    }
  }

  /** The ranges and the bit metrics: what a batch costs when no range read fails. */
  function Quiet(metrics: seq<MetricConfig>): nat {
    |PlanFor(metrics, Holding)| + |PlanFor(metrics, Input)| + |Selected(metrics, BIT_KINDS, |metrics|)|
  }

  lemma {:induction false} GoodIsNonEmpty(ranges: seq<MergedRange>)
    requires forall i | 0 <= i < |ranges| :: Good(ranges[i])
    ensures NonEmpty(ranges)
  {
    forall i | 0 <= i < |ranges| ensures ranges[i].members != [] {
      assert Good(ranges[i]);
    }
  }

  lemma {:induction false} PlanMembers(metrics: seq<MetricConfig>, kind: RegisterType)
    ensures var ranges := PlanFor(metrics, kind);
      && AllValid(ranges) && NonEmpty(ranges)
      && DistinctIdx(Members(ranges)) && Addressable(Members(ranges), |metrics|)
      && |Members(ranges)| == |Selected(metrics, {kind}, |metrics|)|
  {
    hide PlanFor, Members, Selected, Good, WellPlanned, Plannable, NonEmpty, DistinctIdx;
    PlannerInput(metrics, kind);
    PlanIsGood(metrics, kind);
    GoodIsNonEmpty(PlanFor(metrics, kind));
  }

  /** One bulk loop's calls. */
  lemma {:induction false} KindCost(link: Link, p: Progress, metrics: seq<MetricConfig>, kind: RegisterType)
    requires |p.slots| == |metrics| && AllValid(PlanFor(metrics, kind))
    ensures var ranges := PlanFor(metrics, kind);
      var extra := Fallbacks(link, |p.calls|, kind, ranges);
      && |AllRanges(link, p, kind, ranges).calls| == |p.calls| + |ranges| + extra
      && |ranges| + extra <= 2 * |Selected(metrics, {kind}, |metrics|)|
      && (extra == 0 <==> NoneFails(link, |p.calls|, kind, ranges))
  {
    hide PlanFor, Members, Selected, AllRanges, NonEmpty, DistinctIdx, Addressable, NoneFails, Fallbacks;
    PlanMembers(metrics, kind);
    RangesCost(link, p, kind, PlanFor(metrics, kind));
    FallbackBounds(link, |p.calls|, kind, PlanFor(metrics, kind));
  }

  /**
   The number of reader calls: one per range and bit metric, plus one per member of each
   range whose read fails. So exactly the former if and only if no range read fails, and
   never more than twice the number of metrics.
   */
  lemma {:induction false} BatchCost(link: Link, calls: seq<Call>, metrics: seq<MetricConfig>)
    ensures AllValid(PlanFor(metrics, Holding)) && AllValid(PlanFor(metrics, Input))
    ensures var held, input := PlanFor(metrics, Holding), PlanFor(metrics, Input);
      var added := |Batch(link, calls, metrics).calls| - |calls|;
      var n := |calls|;
      var heldExtra := Fallbacks(link, n, Holding, held);
      var m := n + |held| + heldExtra;
      && added == Quiet(metrics) + heldExtra + Fallbacks(link, m, Input, input)
      && added <= 2 * |metrics|
      && (added == Quiet(metrics)
          <==> NoneFails(link, n, Holding, held) && NoneFails(link, n + |held|, Input, input))
  {
    hide PlanFor, Selected, AllRanges, Singly, NoneFails, Fallbacks, Good;
    PlanIsGood(metrics, Holding);
    PlanIsGood(metrics, Input);
    var p := Progress(Blank(metrics, |metrics|), calls);
    var held := AllRanges(link, p, Holding, PlanFor(metrics, Holding));
    var input := AllRanges(link, held, Input, PlanFor(metrics, Input));
    KindCost(link, p, metrics, Holding);
    KindCost(link, held, metrics, Input);
    SelectedShape(metrics, BIT_KINDS, |metrics|);
    SinglyEffect(link, input, Selected(metrics, BIT_KINDS, |metrics|));
    SelectedCount(metrics, |metrics|);
  }
}
