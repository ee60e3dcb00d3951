# bus-exporter: a verified model

bus-exporter polls sensors over Modbus, I2C, SPI and I3C and publishes their values to
Prometheus, OTLP and MQTT. This project models the parts of it in which a mistake would be
silent, a value from the wrong register, a reading that is lost, a connection used before it
is initialized, and proves what they promise. `dafny verify dfyconfig.toml` checks all of it.

- **Planning bulk reads** (`Coalesce.dfy`). Register metrics, sorted by address, are merged
  greedily into ranges of at most 125 registers (sections 6.3 and 6.4 of the MODBUS Application
  Protocol Specification V1.1b3) with gaps of at most 10. The plan is optimal among all splits
  of the sorted list into contiguous legal groups.
- **Executing them** (`ModbusClient.dfy`, `BatchRead.dfy`, `TcpReader.dfy`). The batch refines
  the individual reads of its metrics over every device and failure schedule. A device is any
  function of the moment and the request; a moment is the number of reader calls made so far.
- **Decoding** (`Decoder.dfy`). Two decoders, four byte orders, ten data types.
- **The collector task** (`CollectorLog.dfy`, `CollectorCycle.dfy`, `CollectorHistory.dfy`,
  `Collector.dfy`). A class whose methods are the loops of the source, run against an arbitrary
  environment, with a ghost log of its events. `CollectorLog` says which logs follow the
  connection protocol and what that means for a whole run, `CollectorHistory` says what a log
  obliges each published snapshot to be, and `Collector` proves that the task obeys both.
- **The store** (`MetricStore.dfy`), **metrics files** (`MetricsMerge.dfy`), **I3C retries**
  (`I3cRetry.dfy`) and **the Prometheus page** (`Prometheus.dfy`).
- **End to end** (`EndToEnd.dfy`): from the registers of a fault-free device to the entries of
  the store.

An `f64` is kept symbolic: an integer or a bit pattern, under one uninterpreted
`raw * scale + offset`. Equal symbols are equal floats, so every equation proved between
values holds of the floats. Durations are in milliseconds.

## What the code does not do

Four properties that one would expect are false of the code. Each is stated, with an input
at which it fails and the exact condition under which it holds.

- *A bulk read agrees with individual reads.* A metric that ends at register 65535 passes
  validation (`src/config.rs:1289`), but the planner's saturating end
  (`src/reader/modbus/batch.rs:54`) cuts its last register off, so it gets a bounds error
  although its own read would succeed. Input: one `u32` at 65534 (`BatchRead.TopMetricIsLost`),
  or any metric of two or four registers that ends there (`BatchRead.AcceptedButLost`). Exact
  condition: it ends below 65535, or its range opens at 65535 itself, where the bulk read is
  a rejected zero-length one (`BatchRead.BatchRefinesExactly`).
- *A snapshot shows each metric's own latest value.* An error count is published in place of
  the reading of a metric that is called like the counter. Input: `m` fails, `m_errors` reads
  7, and 1 is published (`CollectorHistory.SevenIsPublishedAsOne`). Exact condition: no
  configured name is another one plus `_errors` (`CollectorHistory.NoClashExactly`); for one
  value of one cycle, `CollectorHistory.ClashExactly`.
- *The two decoders agree.* They do exactly for the types and orders of `Decoder.SameOnWire`:
  not for `u8` and `bool`, nor for the byte-swapping orders of the 16-bit types, nor for the
  mid-endian orders of the wider ones. Input: the registers of `Decoder.Witness`, 1 in the last
  register and 0 before it (`Decoder.DecodersDifferAt`, `Decoder.DecodersAgreeExactly`).
- *The backoff doubles until the connection is initialized.* A connect that succeeds resets it
  before `init_writes` has run. Input: any number of rounds in which the connect succeeds and
  `init_writes` fails, one second apart (`CollectorLog.StuckLogObeys`, `CollectorLog.StuckBackoff`).
  Exact condition: in all runs if and only if there are no `init_writes`
  (`CollectorLog.BackoffGrowsExactly`); for one wait, if and only if none came between the last
  initialization and the last successful connect, or the maximum is reached anyway
  (`CollectorLog.BackoffSinceInit`).

## Model

| member | source | states |
|---|---|---|
| Coalescing.Coalesce | src/reader/modbus/batch.rs:47-72 | the loop computes the plan about which the next five rows speak |
| Coalescing.PlanServes | src/reader/modbus/batch.rs:38-72 | the ranges' members are the input, item for item and in order; each range is a legal group (span at most 125, gap to everything before at most 10) with the bounds of its members |
| Coalescing.GoodRangeBounds | src/reader/modbus/batch.rs:38-66 | every member lies inside its range, at most 125 registers are requested, and a zero-length request arises exactly for a range that starts at 65535 |
| Coalescing.OpenKeepsPlan | src/reader/modbus/batch.rs:53-69 | an item that opens a range ends beyond every item before it, the invariant on which optimality rests |
| Coalescing.StaysAhead | src/reader/modbus/batch.rs:47-72 | against any other split the greedy plan never has more ranges, and with equally many its last range holds no more items |
| Coalescing.PlanIsOptimal | src/reader/modbus/batch.rs:47-72 | no split of the sorted items into contiguous legal groups needs fewer reads, and the plan is such a split |
| Coalescing.PairMergesExactly | src/reader/modbus/batch.rs:54-69 | two items share a read if and only if at most 10 registers lie between them and the read has at most 125; it begins with the first and ends with the later end |
| ModbusClient.BankIsConsistent | src/reader/modbus/mod.rs:77-80 | any register bank that changes between calls, with any failure schedule, is a device whose successful answers are slices of one state |
| ModbusClient.RefusedUnasked | src/reader/modbus/tcp.rs:76-134 | the outcome of a read is independent of the device if and only if the count is outside 1..125 (registers) or 1..2000 (bits) or there is no connection |
| BatchRead.ReadSingle | src/reader/modbus/batch.rs:114-156 | one metric on its own: one call at its address on the table that its register type names (holding registers if none), none for a metric without an address, and the outcome at the moment of the call |
| BatchRead.SortByAddrSorts | src/reader/modbus/batch.rs:209-210 | the stable sort orders by address, keeps input order among equals, and loses and invents nothing |
| BatchRead.BatchReadCoalesced | src/reader/modbus/batch.rs:170-287 | the in-place loops over the result array compute exactly the batch, entry i belongs to metric i, the reported count is the number of reader calls made |
| BatchRead.OneRangeEffect | src/reader/modbus/batch.rs:211-235 | a range read touches the slots of its members only; a success decodes them all from that one answer, a failure reads each once on its own; one call, plus one per member of a failed range |
| BatchRead.EverySlotFilled | src/reader/modbus/batch.rs:174-281 | every slot has an outcome, so "not processed" cannot occur; each outcome is accounted to one call of this batch: its range's successful answer, its own read after its range failed, or the error for a missing address |
| BatchRead.EveryCallNamesItsTable | src/reader/modbus/batch.rs:182-235 | each metric's outcome comes from one call of the batch on the table that its register type names, either its own read or one from whose answer its registers are decoded |
| BatchRead.DecodeMetricExactly | src/reader/modbus/batch.rs:75-111 | which error a metric gets that begins before a range or ends beyond its answer, with all numbers, and that there is no other |
| BatchRead.BatchRefinesSingle | src/reader/modbus/batch.rs:75-111 | over any consistent device, whatever changes or fails, each metric's outcome is one of its own individual read at a moment of this batch |
| BatchRead.TopIsCutOff | src/reader/modbus/batch.rs:97-105 | an answer of the requested length yields a bounds error for a member exactly when it touches register 65535 |
| BatchRead.AcceptedButLost | src/config.rs:1286-1298 | every metric of two or four registers with `addr + count == 65536` passes the check, and in any list of metrics the batch gives it an outcome that none of its own reads has, on a device that answers all of them |
| BatchRead.TopMetricIsLost | src/config.rs:1286-1298 | the instance: one `u32` in the holding registers 65534 and 65535 |
| BatchRead.BatchRefinesExactly | src/reader/modbus/batch.rs:54-58 | a register metric's batch outcome is that of its own read on every consistent device if and only if it ends below 65535 or its range opens at 65535 |
| BatchRead.BatchCost | src/reader/modbus/batch.rs:175-270 | the calls are one per range and bit metric plus one per member of each failed range, exactly; hence the former alone if and only if no range read fails, and at most twice the metrics |
| TcpReader.ModbusTcpMetricReader.Read | src/reader/modbus/tcp.rs:155-173 | the metrics are back in place afterwards; the result has each name once, with the outcome of the last metric of that name, and reports the calls made |
| TcpReader.ByNameIsResult | src/reader/modbus/tcp.rs:155-173 | collecting the batch into a map keeps exactly the names, and for each name its last outcome |
| Decoder.DecodeUndoesEncode | src/reader/decoder.rs:186-264 | decoding the register encoding of any value that a data type carries gives the value back, in every byte order and whatever registers follow |
| Decoder.EncodeUndoesDecode | src/reader/decoder.rs:211-264 | every register string of the right length is the encoding of what it decodes to, except for `u8` and `bool` |
| Decoder.RegistersThatDropBits | src/reader/decoder.rs:226-236 | on registers a `u8` is the low byte and a `bool` is 1 for every nonzero register |
| Decoder.DecodeUndoesEncodeBytes | src/reader/decoder.rs:66-184 | decoding the bytes of any value that a data type carries gives the value back, in every byte order and whatever bytes follow |
| Decoder.SingleBytes | src/reader/decoder.rs:82-89 | on bytes a `u8` is the byte itself and a `bool` its lowest bit |
| Decoder.TooShort | src/reader/decoder.rs:73-79 | on too few registers or bytes the error gives the number needed and the number present |
| Decoder.ReorderIsInvolution | src/reader/decoder.rs:186-208 | each reordering of 4 or 8 bytes is its own inverse |
| Decoder.DecodeReadsPrefix | src/reader/decoder.rs:47-53 | only the first `registers_needed` registers matter |
| Decoder.DecodersAgreeExactly | src/reader/decoder.rs:66-264 | `decode` on registers and `decode_bytes` on their wire bytes give the same reading or both fail, for all register strings of any length, if and only if the type and order are in an explicit table |
| Decoder.DecodersFailTogether | src/reader/decoder.rs:66-76 | on too few registers both decoders fail, or neither, for every type |
| MetricStore.Store.Publish | src/metrics.rs:52-84 | replaces the entry of one collector by the labelled values, the last one of each name, and leaves every other collector's entry alone |
| MetricStore.LabelPrecedence | src/metrics.rs:59-77 | global, then collector labels, then `collector`, then the metric's labels, then `unit`: for every key, which of them a published value shows |
| MetricStore.LastOneWins | src/metrics.rs:66-79 | of several values with one name exactly the last is published |
| MetricStore.DedupedList | src/metrics.rs:66-83 | publishing distinctly named values, in any order, publishes each of them, labelled, and nothing else |
| CollectorLog.ReadsFollowProtocol | src/collector.rs:104-236 | every read of every run is preceded, since the last disconnect, by exactly one successful connect and exactly one successful `init_writes` if configured, in its cycle by a successful `pre_poll` if configured, and by no cancellation |
| CollectorLog.WritesAreConfigured | src/collector.rs:111-170 | `init_writes` and `pre_poll` run only if there are such steps and there is a writer |
| CollectorLog.ThirdStrikeDisconnects | src/collector.rs:172-183 | the third `pre_poll` failure in a row is followed at once by a disconnect |
| CollectorLog.DisconnectsHaveCause | src/collector.rs:178-312 | no disconnect without a cause: a cancellation, a connection that is down or was not initialized, three `pre_poll` failures since the last success or connect, or a read that found the connection lost |
| CollectorLog.ReadsArePublished | src/collector.rs:274-367 | a read that loses the connection is followed by a disconnect, any other one by its publication, and nothing is published without a read just before |
| CollectorLog.NothingWhileDown | src/collector.rs:32-74 | between a disconnect and the next successful connect no cycle starts, polls or reads |
| CollectorLog.ShutdownIsBounded | src/collector.rs:160-166 | after the shutdown flag is set at most seven events start, at most one of them a connect, and no cycle that starts then polls or reads; nothing is cancelled before the flag is set |
| CollectorLog.BackoffIsExponential | src/collector.rs:42-55 | wait i since the last successful connect lasts min(2^i, 60) seconds |
| CollectorLog.WaitsAddUp | src/collector.rs:42-55 | in every run the first i waits since the last successful connect take 2^i - 1 seconds together up to i = 6, and 63 + 60(i - 6) beyond |
| CollectorLog.BackoffSinceInit | src/collector.rs:52-63 | a wait is min(2^i, 60) seconds for i waits since the last *initialized* connection if and only if no wait came before the last successful connect since then, or the maximum is reached |
| CollectorLog.BackoffGrowsExactly | src/collector.rs:108-127 | that holds of every wait of every run if and only if no `init_writes` are configured |
| CollectorLog.WaitsStayShort | src/collector.rs:52-63 | while every connect succeeds, each wait after the first of them lasts one second, however often `init_writes` fails |
| CollectorLog.StuckLogObeys | src/collector.rs:108-127 | n rounds of a connect that succeeds, an `init_writes` that fails and a wait of one second are a run, for every n |
| CollectorLog.CyclesKeepTheInterval | src/collector.rs:378-381 | without a connect in between, k cycles after another at least k whole polling intervals have passed |
| CollectorLog.PollWaitIsTheRest | src/collector.rs:192-196 | a wait between polls lasts exactly the polling interval minus the time since its cycle's start |
| CollectorLog.CyclesAreSpaced | src/collector.rs:378-381 | k cycles after another at least k times min(polling interval, 1 s) have passed, reconnects and skipped cycles included |
| CollectorCycle.HandleResults | src/collector.rs:247-287 | the loop with its break at a lost connection computes the tally of the entries handled |
| CollectorLog.FindIsFirst | src/collector.rs:249-252 | of several metrics with one name the first one's configuration is used |
| CollectorCycle.MergePrevious | src/collector.rs:329-337 | carrying forward, in any order of the hash map: fresh values win, older ones get the new time |
| CollectorCycle.PublishErrorCounts | src/collector.rs:339-357 | entry-or-insert followed by the update, in any order of the hash map, sets every error counter and nothing else |
| CollectorCycle.MergedAt | src/collector.rs:329-357 | what the merged cache holds under any key: an error counter, a fresh value, an older value with the new time, or nothing |
| CollectorHistory.SnapshotIsFaithful | src/collector.rs:247-367 | if no configured name is another plus `_errors`, a completed cycle publishes for each metric its latest success in a published cycle and its exact error count, as a counter without labels or unit, and no key besides these |
| CollectorHistory.AbortedReadsNeverShow | src/collector.rs:289-312 | whatever else a read that lost its connection had returned, every snapshot of the run shows for each metric the same value |
| CollectorHistory.SnapshotKeepsNames | src/collector.rs:331-337 | no published name disappears in the next snapshot, clash or not |
| CollectorHistory.SnapshotMoments | src/collector.rs:256-337 | a fresh value carries the moment at which it was handled, a carried one is the previous value with the moment of the merge |
| CollectorHistory.ErrorCountsNeverDecrease | src/collector.rs:339-357 | once published, an error counter stays and never decreases over a run |
| CollectorHistory.NoClashExactly | src/collector.rs:339-357 | snapshots are faithful for every read if and only if no configured name is another one plus `_errors`; otherwise already a first snapshot is wrong |
| CollectorHistory.SevenIsPublishedAsOne | src/collector.rs:339-357 | the instance: `m` fails, `m_errors` reads 7, and 1 is published under `m_errors` |
| CollectorHistory.ClashExactly | src/collector.rs:339-357 | a cycle's own value is published under its name if and only if no error counter has that name or the counter shows the same number |
| CollectorHistory.FailuresAreShared | src/collector.rs:269-284 | every failure of a read is counted for its metric or aborts the cycle, never both, never neither |
| Collector.CollectorTask.InitialConnect | src/collector.rs:104-144 | ends connected, initialized and with the backoff reset, or cancelled and disconnected after a shutdown |
| Collector.CollectorTask.Reconnect | src/collector.rs:32-74 | the same for the reconnect loop, which waits at least the backoff first |
| Collector.CollectorTask.Cycle | src/collector.rs:148-398 | one iteration keeps the protocol, the books and the counters, returns to the head a whole polling interval after the cycle's start (after a reconnect: at least the backoff), with backoff 1 s, at most two strikes and balanced polls, or ends the task; other collectors' store entries stay |
| Collector.CollectorTask.Run | src/collector.rs:78-399 | the whole task terminates once told to stop, cancelled and disconnected, with a log that obeys every rule and with polls short by at most one, exactly when it left at the check that follows the increment |
| Collector.CollectorTask.AtMostSeven | src/collector.rs:160-166 | at every point of a run at most seven events lie behind the setting of the flag |
| Collector.CollectorTask.CountersAddUp | src/collector.rs:154-361 | `read_errors` is the sum of all per-metric error counts plus the aborted cycles; success plus error is the number of closed cycles, and at the loop head equals the total |
| Collector.CollectorTask.StoreShowsLastGood | src/collector.rs:359-367 | at every point after the first publish the store has, for a metric that ever succeeded in a published cycle, exactly one entry with its latest such value, and none for any other metric |
| EndToEnd.FirstCycle | src/collector.rs:236-367 | the first completed cycle of a task, no error having been counted, over a fault-free device: the store holds exactly one entry per configured metric, its own reading of this very read, with the labels in their order of precedence; names may clash |
| EndToEnd.EveryCycle | src/collector.rs:236-367 | in any run, whatever happened before, a published read of a fault-free device leaves every metric's own reading in exactly one entry; all other entries are error counters, and there are none if no error was ever counted |
| EndToEnd.SoundReadExists | src/reader/modbus/tcp.rs:155-173 | over any register bank without faults, any readable and distinctly named metrics have such a read |
| EndToEnd.ReadingOverBank | src/reader/modbus/mod.rs:94-146 | a metric's own reading over a register bank is the decoded contents of its own registers in the table its register type names, or its own coil or discrete input, with scale and offset applied |
| MetricsMerge.CollectorSection.ResolveMetricsFiles | src/config.rs:738-806 | the nested insert loops merge all files and then the inline metrics; on the first unreadable, unparsable, empty or incomplete file the error is returned and the metrics stay as they were |
| MetricsMerge.MergeExactly | src/config.rs:741-803 | the merge is the one list that has each name once, in order of first occurrence, with the entry that occurs last |
| MetricsMerge.ResolveTwice | src/config.rs:797-803 | resolving again with unchanged files changes nothing |
| MetricsMerge.LoadsWhenAllGood | src/config.rs:748-794 | resolving succeeds if and only if every file, looked for at its own path if absolute and inside the directory otherwise, is readable, well-formed and non-empty and no metric lacks a type or data type in itself and in its file's defaults |
| MetricsMerge.DependsOnItsPaths | src/config.rs:748-762 | resolving asks the disk for nothing but those paths |
| MetricsMerge.RelativeFiles | src/config.rs:749-753 | for relative files the result depends only on, and is good exactly with, the files at `dir/file` |
| MetricsMerge.MissingFieldIsNamed | src/config.rs:680-709 | which error an incomplete entry gives; the type is looked at first |
| MetricsMerge.EntriesStandAlone | src/config.rs:787-794 | every loaded metric is one entry of one file completed by that file's own defaults; no field comes from another file or from a replaced metric |
| MetricsMerge.ExplicitIsReadBack | src/config.rs:671-735 | defaults only fill gaps: an entry that says every field is read back as it is under any defaults, if and only if its register type is given or has no default |
| MetricsMerge.BlankTakesDefaults | src/config.rs:671-735 | an entry that gives only its name, address and commands is completed by the file's defaults in every other field |
| MetricsMerge.BuiltInDefaults | src/config.rs:708-733 | what neither the entry nor the defaults give: no description, no register type, big endian, scale 1, offset 0, no unit |
| I3cRetry.I3cMetricReader.ReadRegister | src/reader/i3c/mod.rs:326-381 | one read is an opening transfer and then at most three attempts of wait, re-resolution and transfer, with the result of the last |
| I3cRetry.RetryIsBounded | src/reader/i3c/mod.rs:326-381 | at most four transfers, waits a prefix of 100, 500, 2000 ms; a first error that is no transfer error stops after one transfer, after any other the read fails only once all three waits are over; a success is the last transfer's after failures only, a failure has seen no success and reports the error that came last; a static address is the only one used |
| I3cRetry.EveryIoctlFailureIsRetried | src/reader/i3c/mod.rs:115-119 | every failed ioctl of the Linux device is classified as a transfer error, whatever its cause |
| I3cRetry.RetriesUseFreshAddresses | src/reader/i3c/mod.rs:294-308 | in a dynamic mode every retry's transfer is immediately preceded by the resolution of its address, after the failure before it |
| I3cRetry.ContainsExactly | src/reader/i3c/mod.rs:150-162 | the search that classifies an error finds a part if and only if the part occurs somewhere |
| I3cRetry.TransferErrorExactly | src/reader/i3c/mod.rs:150-162 | a message is a transfer error if and only if one of the six texts occurs in it, in whatever case |
| I3cRetry.ShortMessagesAreFinal | src/reader/i3c/mod.rs:150-162 | a message shorter than every one of them is never retried |
| Prometheus.SanitizeName | src/exporter/prometheus/mod.rs:18-34 | the loop always yields a name |
| Prometheus.SanitizedFixesNames | src/exporter/prometheus/mod.rs:17-34 | a string is left alone if and only if it is a name; sanitizing is idempotent |
| Prometheus.SanitizedAt | src/exporter/prometheus/mod.rs:18-34 | character by character: ASCII letters and digits stay, everything else becomes an underscore, and one is put before a leading digit |
| Prometheus.MetricNameIsName | src/exporter/prometheus/mod.rs:37-45 | the full name is a name for every name and unit |
| Prometheus.MetricNameSpelledOut | src/exporter/prometheus/mod.rs:37-45 | `bus_` and the name, then an underscore and the unit if there is one; valid names and units appear as they are |
| Prometheus.SameUnitExactly | src/exporter/prometheus/mod.rs:37-45 | under the same unit, or without one, full names are equal if and only if the sanitized names are |
| Prometheus.EscapeIsSimultaneous | src/exporter/prometheus/mod.rs:60-63 | the three replacements one after the other are one simultaneous replacement of each character |
| Prometheus.LineReadsBack | src/exporter/prometheus/mod.rs:48-69 | a reader of the text format recovers from a printed line its name, its sanitized keys, the original label values and the value text, for all inputs |
| Prometheus.LinesDetermineValues | src/exporter/prometheus/mod.rs:48-69 | two equal lines have the same label values and the same sanitized keys |
| Prometheus.HelpReadsBack | src/exporter/prometheus/mod.rs:91-92 | a printed description is read back as it was |
| Prometheus.RenderMetrics | src/exporter/prometheus/mod.rs:72-100 | the grouping map and the print loops give one HELP and one TYPE line per full name, each followed by that name's samples in store order, with the names in lexicographic order |
| Prometheus.SortedIsUnique | src/exporter/prometheus/mod.rs:76-84 | there is only one sorted list of the names, so the page is determined by the samples |
| Prometheus.PageReadsBack | src/exporter/prometheus/mod.rs:72-100 | splitting and reading a whole page recovers exactly one sample per stored value, whatever names, labels and descriptions contain |
| Prometheus.PageCommentsReadBack | src/exporter/prometheus/mod.rs:84-93 | the comments of a page read back as one description and one type per full name, those of its first sample |
| Prometheus.CollideExactly | src/exporter/prometheus/mod.rs:37-69 | two samples name the same series if and only if their full names are equal and their labels have equal values under keys that are sanitized alike |
| Prometheus.UnitlessCollideExactly | src/exporter/prometheus/mod.rs:37-69 | unit-less samples with equal labels collide if and only if their names are sanitized alike, so two different valid names never do |
| Prometheus.CollectorsNeverCollide | src/exporter/prometheus/mod.rs:37-69 | samples of different collectors never do |
| Prometheus.NamesCanCollide | src/exporter/prometheus/mod.rs:37-45 | within one collector they can, by sanitizing and by the way in which name and unit are joined |

## Left out

- Rounding, NaN, infinities and decimal formatting of floats: numbers are symbolic, and a printed value is a text without line feeds.
- Decoder: `config::DataType` and `decoder::DataType`, and the two byte-order types, are one type here, so the mapping functions between them are gone.
- EndToEnd.FirstCycle: covers Modbus TCP; the RTU reader runs the same batch over a serial port.
- Collector.CollectorTask.Run: a task whose sender is dropped without setting the flag is not modelled, nor is one that is never told to stop, except through its prefixes, which it shares with tasks that are told to stop later.
- Collector.CollectorTask.SleepBackoff: a flag that is set when a backoff wait begins is seen before the timer is due, as the timer is not ready at the first look; a flag set during the wait competes with the timer. For the wait between polls either branch may win at any time.
- Collector: single operations of the client and the writer return, and are answers of the environment. Warnings, log lines and the 80 % threshold are not modelled.
- MetricStore.Store.Publish: one atomic step; concurrent writers of other collectors are represented by the frame condition only.
- MetricStore: the order of values in a stored vector is arbitrary, as it comes from a hash map.
- Prometheus.RenderMetrics: the label pairs of a value are a given list, where the source takes them sorted by key from an ordered map.
- Prometheus: internal metrics, the HTTP server and the `/metrics` handler.
- I3cRetry.I3cMetricReader.ReadRegister: lower-casing for error classification covers ASCII letters; the contexts that are wrapped around an error, lock poisoning and the test-only setter of the address are not modelled. Sysfs enumeration is an oracle.
- MetricsMerge.CollectorSection.ResolveMetricsFiles: reading and parsing a file is an oracle from its path; paths are Unix paths.
- Most of `Config::validate`, the command line, YAML parsing, systemd installation and regular-expression filters: independent checks and plumbing.
- The I2C and SPI readers and writers, the I3C metric loop around `read_register_sync`, the OTLP and MQTT exporters: simple loops or wrappers over libraries.
- BatchRead: `checked_add` on `usize` in `decode_metric` cannot overflow and has no error case here.
- Read errors are values of a datatype; their message texts are not modelled, except where I3C classifies them.
