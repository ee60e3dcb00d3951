/** Metrics files, their defaults, and the merge with inline metrics (src/config.rs:610-806). */
module MetricsMerge {
  import opened Wrappers
  import opened Domain

  // ----- the entries of a metrics file -----

  datatype MetricDefaults = MetricDefaults(
    description: Option<string>,
    metricType: Option<MetricType>,
    registerType: Option<RegisterType>,
    dataType: Option<DataType>,
    byteOrder: Option<ByteOrder>,
    scale: Option<Number>,
    offset: Option<Number>,
    unit: Option<string>)

  datatype RawMetric = RawMetric(
    name: string,
    description: Option<string>,
    metricType: Option<MetricType>,
    registerType: Option<RegisterType>,
    address: Option<u16>,
    dataType: Option<DataType>,
    byteOrder: Option<ByteOrder>,
    scale: Option<Number>,
    offset: Option<Number>,
    unit: Option<string>,
    command: seq<u8>,
    responseLength: Option<u16>,
    responseOffset: u16)

  /** What reading and parsing a file gives. */
  datatype FileContent =
    | Unreadable
    | Unparsable
    | Parsed(defaults: Option<MetricDefaults>, metrics: seq<RawMetric>)

  datatype LoadError =
    | ReadFailed(path: string)
    | ParseFailed(path: string)
    | NoMetrics(path: string)
    | MissingType(path: string, metric: string)
    | MissingDataType(path: string, metric: string)

  function OrElse<T>(own: Option<T>, fallback: Option<T>): Option<T> {
    if own.Some? then own else fallback
  }

  function UnwrapOr<T>(o: Option<T>, t: T): T {
    if o.Some? then o.value else t
  }

  const NO_DEFAULTS := MetricDefaults(None, None, None, None, None, None, None, None)

  function IntoMetric(raw: RawMetric, defaults: Option<MetricDefaults>, path: string): Result<MetricConfig, LoadError> {
    var d := UnwrapOr(defaults, NO_DEFAULTS);
    var metricType := OrElse(raw.metricType, d.metricType);
    var dataType := OrElse(raw.dataType, d.dataType);
    if metricType.None? then Err(MissingType(path, raw.name))
    else if dataType.None? then Err(MissingDataType(path, raw.name))
    else Ok(MetricConfig(
      raw.name,
      UnwrapOr(OrElse(raw.description, d.description), ""),
      metricType.value,
      OrElse(raw.registerType, d.registerType),
      raw.address,
      dataType.value,
      UnwrapOr(OrElse(raw.byteOrder, d.byteOrder), BigEndian),
      UnwrapOr(OrElse(raw.scale, d.scale), Whole(1)),
      UnwrapOr(OrElse(raw.offset, d.offset), Whole(0)),
      UnwrapOr(OrElse(raw.unit, d.unit), ""),
      raw.command,
      raw.responseLength,
      raw.responseOffset))
  }

  /** The first error, or every metric converted, in order. */
  function ConvertAll(raws: seq<RawMetric>, defaults: Option<MetricDefaults>, path: string): Result<seq<MetricConfig>, LoadError> {
    if raws == [] then Ok([])
    else
      var front :- ConvertAll(raws[..|raws| - 1], defaults, path);
      var last :- IntoMetric(raws[|raws| - 1], defaults, path);
      Ok(front + [last])
  }

  function FileMetrics(content: FileContent, path: string): Result<seq<MetricConfig>, LoadError> {
    match content
    case Unreadable => Err(ReadFailed(path))
    case Unparsable => Err(ParseFailed(path))
    case Parsed(defaults, metrics) =>
      if metrics == [] then Err(NoMetrics(path)) else ConvertAll(metrics, defaults, path)
  }

  function FilePath(dir: string, file: string): string {
    if "/" <= file || dir == "" then file
    else if dir[|dir| - 1] == '/' then dir + file
    else dir + "/" + file
  }

  /** The metrics of several files, one file after the other. */
  function Loaded(files: seq<string>, disk: string -> FileContent, dir: string): Result<seq<MetricConfig>, LoadError> {
    if files == [] then Ok([])
    else
      var front :- Loaded(files[..|files| - 1], disk, dir);
      var path := FilePath(dir, files[|files| - 1]);
      var last :- FileMetrics(disk(path), path);
      Ok(front + last)
  }

  // ----- the merge -----

  /** The first position of a name, or the length of the list. */
  function FirstOf(s: seq<MetricConfig>, name: string): (i: nat)
    ensures i <= |s|
    ensures i < |s| ==> s[i].name == name
    ensures forall j | 0 <= j < i :: s[j].name != name
  {
    if s == [] then 0
    else if s[0].name == name then 0
    else 1 + FirstOf(s[1..], name)
  }

  /** `IndexMap::insert` under the metric's name: replace in place, or append. */
  function Insert(s: seq<MetricConfig>, m: MetricConfig): seq<MetricConfig> {
    var i := FirstOf(s, m.name);
    if i < |s| then s[i := m] else s + [m]
  }

  function MergeInto(merged: seq<MetricConfig>, all: seq<MetricConfig>): seq<MetricConfig> {
    if all == [] then merged else Insert(MergeInto(merged, all[..|all| - 1]), all[|all| - 1])
  }

  ghost predicate IsLast(all: seq<MetricConfig>, m: MetricConfig) {
    exists i | 0 <= i < |all| :: all[i] == m && forall j | i < j < |all| :: all[j].name != m.name
  }

  /** Each name of `all` once, in order of first occurrence, with the entry that occurs last. */
  ghost predicate IsMergeOf(r: seq<MetricConfig>, all: seq<MetricConfig>) {
    && DistinctNames(r)
    && (forall i | 0 <= i < |all| :: FirstOf(r, all[i].name) < |r|)
    && (forall k | 0 <= k < |r| :: IsLast(all, r[k]))
    && (forall k, l | 0 <= k < l < |r| :: FirstOf(all, r[k].name) < FirstOf(all, r[l].name))
  }

  /** A collector as the configuration file gives it, before and after its metrics files are resolved. */
  class CollectorSection {
    const name: string
    const metricsFiles: Option<seq<string>>
    var metrics: seq<MetricConfig>

    constructor (name: string, metricsFiles: Option<seq<string>>, metrics: seq<MetricConfig>)
      ensures this.name == name && this.metricsFiles == metricsFiles && this.metrics == metrics
    {
      this.name, this.metricsFiles, this.metrics := name, metricsFiles, metrics;
    }

    function Files(): seq<string> {
      UnwrapOr(metricsFiles, [])
    }

    /** Either every file is good and the merge replaces the metrics, or nothing changes. */
    method ResolveMetricsFiles(disk: string -> FileContent, dir: string) returns (r: Result<(), LoadError>)
      modifies this`metrics
      ensures var loaded := Loaded(if metricsFiles.Some? then metricsFiles.value else [], disk, dir);
        if loaded.Ok? then r == Ok(()) && metrics == MergeInto([], loaded.value + old(metrics))
        else r == Err(loaded.error) && metrics == old(metrics)
    {
      hide FileMetrics, IntoMetric, Insert, FilePath;
      var merged: seq<MetricConfig> := [];
      var files := Files();
      ghost var all: seq<MetricConfig> := [];
      for i := 0 to |files|
        invariant Loaded(files[..i], disk, dir) == Ok(all)
        invariant merged == MergeInto([], all)
        invariant metrics == old(metrics)
      {
        LoadedStep(files, i, disk, dir);
        var path := FilePath(dir, files[i]);
        var fromFile :- MergeFile(merged, all, disk(path), path);
        merged := fromFile;
        all := all + FileMetrics(disk(path), path).value;
      }
      assert files[..|files|] == files;
      var inline := metrics;
      metrics := [];
      assert all + inline[..0] == all;
      for i := 0 to |inline|
        invariant merged == MergeInto([], all + inline[..i])
      {
        MergeSnoc([], all, inline, i);
        merged := Insert(merged, inline[i]);
      }
      assert inline[..|inline|] == inline;
      metrics := merged;
      r := Ok(());
    }
  }

  /** The body of the loop over the files. */
  method MergeFile(merged: seq<MetricConfig>, ghost all: seq<MetricConfig>, content: FileContent, path: string)
    returns (r: Result<seq<MetricConfig>, LoadError>)
    requires merged == MergeInto([], all)
    ensures var fromFile := FileMetrics(content, path);
      r == if fromFile.Ok? then Ok(MergeInto([], all + fromFile.value)) else Err(fromFile.error)
  {
    match content {
      case Unreadable => return Err(ReadFailed(path));
      case Unparsable => return Err(ParseFailed(path));
      case Parsed(defaults, raws) =>
        if raws == [] {
          return Err(NoMetrics(path));
        }
        hide IntoMetric, Insert;
        var result := merged;
        ghost var converted: seq<MetricConfig> := [];
        assert all + converted == all;
        for j := 0 to |raws|
          invariant ConvertAll(raws[..j], defaults, path) == Ok(converted)
          invariant result == MergeInto([], all + converted)
        {
          ConvertStep(raws, j, defaults, path);
          var metric :- IntoMetric(raws[j], defaults, path);
          MergeSnoc([], all, converted + [metric], |converted|);
          assert (converted + [metric])[..|converted|] == converted;
          assert (converted + [metric])[..|converted| + 1] == converted + [metric];
          result := Insert(result, metric);
          converted := converted + [metric];
        }
        assert raws[..|raws|] == raws;
        return Ok(result);
    }
  }

  lemma {:induction false} MergeSnoc(merged: seq<MetricConfig>, all: seq<MetricConfig>, more: seq<MetricConfig>, i: nat)
    requires i < |more|
    ensures MergeInto(merged, all + more[..i + 1]) == Insert(MergeInto(merged, all + more[..i]), more[i])
  {
    hide Insert;
    var longer := all + more[..i + 1];
    assert longer[..|longer| - 1] == all + more[..i];
  }

  /** An error in a prefix is the error of the whole. */
  lemma {:induction false} LoadedStep(files: seq<string>, i: nat, disk: string -> FileContent, dir: string)
    requires i < |files| && Loaded(files[..i], disk, dir).Ok?
    ensures var path := FilePath(dir, files[i]);
      var last := FileMetrics(disk(path), path);
      && (last.Ok? ==> Loaded(files[..i + 1], disk, dir) == Ok(Loaded(files[..i], disk, dir).value + last.value))
      && (last.Err? ==> Loaded(files, disk, dir) == Err(last.error))
  {
    hide FileMetrics, FilePath;
    assert files[..i + 1][..i] == files[..i];
    var path := FilePath(dir, files[i]);
    if FileMetrics(disk(path), path).Err? {
      LoadedErr(files, i + 1, disk, dir);
    }
  }

  lemma {:induction false} LoadedErr(files: seq<string>, i: nat, disk: string -> FileContent, dir: string)
    requires i <= |files| && Loaded(files[..i], disk, dir).Err?
    ensures Loaded(files, disk, dir) == Loaded(files[..i], disk, dir)
  {
    if i == |files| {
      assert files[..i] == files;
    } else {
      var front := files[..|files| - 1];
      assert front[..i] == files[..i];
      LoadedErr(front, i, disk, dir);
    }
  }

  lemma {:induction false} ConvertStep(raws: seq<RawMetric>, i: nat, defaults: Option<MetricDefaults>, path: string)
    requires i < |raws| && ConvertAll(raws[..i], defaults, path).Ok?
    ensures var last := IntoMetric(raws[i], defaults, path);
      && (last.Ok? ==> ConvertAll(raws[..i + 1], defaults, path) == Ok(ConvertAll(raws[..i], defaults, path).value + [last.value]))
      && (last.Err? ==> ConvertAll(raws, defaults, path) == Err(last.error))
  {
    hide IntoMetric;
    assert raws[..i + 1][..i] == raws[..i];
    if IntoMetric(raws[i], defaults, path).Err? {
      ConvertErr(raws, i + 1, defaults, path);
    }
  }

  lemma {:induction false} ConvertErr(raws: seq<RawMetric>, i: nat, defaults: Option<MetricDefaults>, path: string)
    requires i <= |raws| && ConvertAll(raws[..i], defaults, path).Err?
    ensures ConvertAll(raws, defaults, path) == ConvertAll(raws[..i], defaults, path)
  {
    hide IntoMetric;
    if i == |raws| {
      assert raws[..i] == raws;
    } else {
      var front := raws[..|raws| - 1];
      assert front[..i] == raws[..i];
      ConvertErr(front, i, defaults, path);
    }
  }

  // ----- when resolving fails -----

  predicate Complete(raw: RawMetric, defaults: Option<MetricDefaults>) {
    && (raw.metricType.Some? || (defaults.Some? && defaults.value.metricType.Some?))
    && (raw.dataType.Some? || (defaults.Some? && defaults.value.dataType.Some?))
  }

  /** A readable, well-formed file with at least one metric, where no metric lacks a required field. */
  predicate Good(content: FileContent) {
    && content.Parsed?
    && content.metrics != []
    && forall j | 0 <= j < |content.metrics| :: Complete(content.metrics[j], content.defaults)
  }

  lemma {:induction false} ConvertsWhenComplete(raws: seq<RawMetric>, defaults: Option<MetricDefaults>, path: string)
    ensures ConvertAll(raws, defaults, path).Ok? <==> forall j | 0 <= j < |raws| :: Complete(raws[j], defaults)
    ensures ConvertAll(raws, defaults, path).Ok? ==>
      var converted := ConvertAll(raws, defaults, path).value;
      |converted| == |raws| && forall j | 0 <= j < |raws| :: IntoMetric(raws[j], defaults, path) == Ok(converted[j])
  {
    if raws != [] {
      var front := raws[..|raws| - 1];
      ConvertsWhenComplete(front, defaults, path);
      assert forall j | 0 <= j < |front| :: front[j] == raws[j];
      IncompleteIsRefused(raws[|raws| - 1], defaults, path);
      hide IntoMetric, Complete;
    }
  }

  lemma {:induction false} IncompleteIsRefused(raw: RawMetric, defaults: Option<MetricDefaults>, path: string)
    ensures IntoMetric(raw, defaults, path).Ok? <==> Complete(raw, defaults)
  {
  }

  /** Where a metrics file is looked for: an absolute path as it is, any other one inside the directory. */
  predicate IsAt(path: string, dir: string, file: string) {
    if "/" <= file || dir == "" then path == file
    else if dir[|dir| - 1] == '/' then path == dir + file
    else path == dir + "/" + file
  }

  lemma {:induction false} FilesAreInTheDirectory(dir: string, file: string, path: string)
    ensures IsAt(path, dir, file) <==> path == FilePath(dir, file)
  {
  }

  /** Resolving succeeds exactly when every file is good at the place where it is looked for. */
  lemma {:induction false} LoadsWhenAllGood(files: seq<string>, disk: string -> FileContent, dir: string)
    ensures Loaded(files, disk, dir).Ok?
       <==> forall i, path | 0 <= i < |files| && IsAt(path, dir, files[i]) :: Good(disk(path))
  {
    hide FilePath, IsAt, IntoMetric, Complete;
    if files != [] {
      var front, last := files[..|files| - 1], files[|files| - 1];
      LoadsWhenAllGood(front, disk, dir);
      assert forall i | 0 <= i < |front| :: front[i] == files[i];
      var lastPath := FilePath(dir, last);
      forall path ensures IsAt(path, dir, last) <==> path == lastPath {
        FilesAreInTheDirectory(dir, last, path);
      }
      if disk(lastPath).Parsed? {
        ConvertsWhenComplete(disk(lastPath).metrics, disk(lastPath).defaults, lastPath);
      }
      assert Loaded(files, disk, dir).Ok? <==> Loaded(front, disk, dir).Ok? && Good(disk(lastPath));
    }
  }

  /** Resolving asks the disk for nothing but the files' own paths: everything else may differ. */
  lemma {:induction false} DependsOnItsPaths(files: seq<string>, disk: string -> FileContent, other: string -> FileContent, dir: string)
    requires forall i, path | 0 <= i < |files| && IsAt(path, dir, files[i]) :: disk(path) == other(path)
    ensures Loaded(files, disk, dir) == Loaded(files, other, dir)
  {
    hide FilePath, IsAt, FileMetrics;
    if files != [] {
      var front, last := files[..|files| - 1], files[|files| - 1];
      FilesAreInTheDirectory(dir, last, FilePath(dir, last));
      assert forall i | 0 <= i < |front| :: front[i] == files[i];
      DependsOnItsPaths(front, disk, other, dir);
    }
  }

  /** Relative files are read from `dir/file`, and only from there. */
  lemma {:induction false} RelativeFiles(files: seq<string>, disk: string -> FileContent, other: string -> FileContent, dir: string)
    requires dir != "" && dir[|dir| - 1] != '/'
    requires forall i | 0 <= i < |files| :: !("/" <= files[i]) && disk(dir + "/" + files[i]) == other(dir + "/" + files[i])
    ensures Loaded(files, disk, dir) == Loaded(files, other, dir)
    ensures Loaded(files, disk, dir).Ok? <==> forall i | 0 <= i < |files| :: Good(disk(dir + "/" + files[i]))
  {
    hide Loaded, Good;
    DependsOnItsPaths(files, disk, other, dir);
    LoadsWhenAllGood(files, disk, dir);
    assert forall i | 0 <= i < |files| :: IsAt(dir + "/" + files[i], dir, files[i]);
  }

  /** Which error an incomplete entry gives: the type is looked at first. */
  lemma {:induction false} MissingFieldIsNamed(raw: RawMetric, d: MetricDefaults, path: string)
    ensures raw.metricType.None? && d.metricType.None? ==> IntoMetric(raw, Some(d), path) == Err(MissingType(path, raw.name))
    ensures (raw.metricType.Some? || d.metricType.Some?) && raw.dataType.None? && d.dataType.None? ==>
      IntoMetric(raw, Some(d), path) == Err(MissingDataType(path, raw.name))
  {
  }

  /**
   Every loaded metric is one entry of one file, completed with that file's own defaults and
   with nothing else: no field comes from another file or from a metric of the same name.
   */
  lemma {:induction false} EntriesStandAlone(files: seq<string>, disk: string -> FileContent, dir: string, k: nat)
    requires Loaded(files, disk, dir).Ok? && k < |Loaded(files, disk, dir).value|
    ensures exists path, i, j :: IsEntry(files, disk, dir, path, i, j, Loaded(files, disk, dir).value[k])
  {
    hide FilePath, IsAt, IntoMetric, Complete;
    var n := |files| - 1;
    var front := Loaded(files[..n], disk, dir).value;
    if k < |front| {
      EntriesStandAlone(files[..n], disk, dir, k);
      var path, i, j :| IsEntry(files[..n], disk, dir, path, i, j, front[k]);
      assert Loaded(files, disk, dir).value[k] == front[k];
      assert IsEntry(files, disk, dir, path, i, j, Loaded(files, disk, dir).value[k]);
    } else {
      var path := FilePath(dir, files[n]);
      FilesAreInTheDirectory(dir, files[n], path);
      ConvertsWhenComplete(disk(path).metrics, disk(path).defaults, path);
      assert IsEntry(files, disk, dir, path, n, k - |front|, Loaded(files, disk, dir).value[k]);
    }
  }

  ghost predicate IsEntry(files: seq<string>, disk: string -> FileContent, dir: string, path: string, i: int, j: int, m: MetricConfig) {
    && 0 <= i < |files| && IsAt(path, dir, files[i])
    && disk(path).Parsed?
    && 0 <= j < |disk(path).metrics|
    && IntoMetric(disk(path).metrics[j], disk(path).defaults, path) == Ok(m)
  }

  /** The file entry that says every field of a metric outright. */
  function Explicit(m: MetricConfig): RawMetric {
    RawMetric(m.name, Some(m.description), Some(m.metricType), m.registerType, m.address, Some(m.dataType),
      Some(m.byteOrder), Some(m.scale), Some(m.offset), Some(m.unit), m.command, m.responseLength, m.responseOffset)
  }

  /** Defaults only fill gaps: an explicit entry is read back as it is, whatever the defaults say. */
  lemma {:induction false} ExplicitIsReadBack(m: MetricConfig, defaults: Option<MetricDefaults>, path: string)
    ensures IntoMetric(Explicit(m), defaults, path) == Ok(m) <==>
      m.registerType.Some? || defaults.None? || defaults.value.registerType.None?
  {
  }

  /** Defaults fill every gap but the address and the commands: an entry with nothing else of its own is all defaults. */
  lemma {:induction false} BlankTakesDefaults(m: MetricConfig, path: string)
    ensures IntoMetric(Blank(m), Some(AllDefaults(m)), path) == Ok(m)
  {
  }

  function Blank(m: MetricConfig): RawMetric {
    RawMetric(m.name, None, None, None, m.address, None, None, None, None, None, m.command, m.responseLength, m.responseOffset)
  }

  function AllDefaults(m: MetricConfig): MetricDefaults {
    MetricDefaults(Some(m.description), Some(m.metricType), m.registerType, Some(m.dataType), Some(m.byteOrder),
      Some(m.scale), Some(m.offset), Some(m.unit))
  }

  /** What is given neither in the entry nor in the defaults. */
  lemma {:induction false} BuiltInDefaults(m: MetricConfig, path: string)
    ensures var raw := Blank(m).(metricType := Some(m.metricType), dataType := Some(m.dataType));
      IntoMetric(raw, None, path) == Ok(m.(description := "", registerType := None, byteOrder := BigEndian,
        scale := Whole(1), offset := Whole(0), unit := ""))
  {
  }

  // ----- what the merge is -----

  lemma {:induction false} FirstOfAppend(s: seq<MetricConfig>, m: MetricConfig, name: string)
    ensures FirstOf(s + [m], name) ==
      if FirstOf(s, name) < |s| then FirstOf(s, name) else if m.name == name then |s| else |s| + 1
  {
    var i := FirstOf(s + [m], name);
    assert i < |s| ==> (s + [m])[i] == s[i];
    assert i == |s| ==> (s + [m])[i] == m;
    var j := FirstOf(s, name);
    assert j < |s| ==> (s + [m])[j] == s[j];
    assert forall k | 0 <= k < |s| :: (s + [m])[k] == s[k];
    assert (s + [m])[|s|] == m;
  }

  lemma {:induction false} IsLastAppend(all: seq<MetricConfig>, m: MetricConfig, x: MetricConfig)
    requires x == m || (IsLast(all, x) && x.name != m.name)
    ensures IsLast(all + [m], x)
  {
    if x == m {
      assert (all + [m])[|all|] == m;
    } else {
      var i :| 0 <= i < |all| && all[i] == x && forall j | i < j < |all| :: all[j].name != x.name;
      assert (all + [m])[i] == x;
    }
  }

  lemma {:induction false} LastOccurs(all: seq<MetricConfig>, x: MetricConfig)
    requires IsLast(all, x)
    ensures FirstOf(all, x.name) < |all|
  {
  }

  lemma {:induction false} InsertNames(r: seq<MetricConfig>, m: MetricConfig)
    ensures var at, q := FirstOf(r, m.name), Insert(r, m);
      && |q| == (if at < |r| then |r| else |r| + 1)
      && at < |q| && q[at] == m
      && (forall i | 0 <= i < |r| :: q[i].name == r[i].name)
      && (forall i | 0 <= i < |q| && i != at :: q[i] == r[i])
  {
  }

  lemma {:induction false} InsertIsLast(r: seq<MetricConfig>, all: seq<MetricConfig>, m: MetricConfig, k: nat)
    requires IsMergeOf(r, all) && k < |Insert(r, m)|
    ensures IsLast(all + [m], Insert(r, m)[k])
  {
    hide Insert, IsLast;
    InsertNames(r, m);
    IsLastAppend(all, m, Insert(r, m)[k]);
  }

  lemma {:induction false} InsertIsRising(r: seq<MetricConfig>, all: seq<MetricConfig>, m: MetricConfig, k: nat, l: nat)
    requires IsMergeOf(r, all) && k < l < |Insert(r, m)|
    ensures FirstOf(all + [m], Insert(r, m)[k].name) < FirstOf(all + [m], Insert(r, m)[l].name)
  {
    hide Insert, IsLast, FirstOf;
    InsertNames(r, m);
    var q := Insert(r, m);
    FirstOfAppend(all, m, q[k].name);
    FirstOfAppend(all, m, q[l].name);
    LastOccurs(all, r[k]);
    KnownName(r, all, m);
  }

  lemma {:induction false} KnownName(r: seq<MetricConfig>, all: seq<MetricConfig>, m: MetricConfig)
    requires IsMergeOf(r, all)
    ensures FirstOf(all, m.name) < |all| ==> FirstOf(r, m.name) < |r|
  {
    var i := FirstOf(all, m.name);
    if i < |all| {
      assert all[i].name == m.name;
    }
  }

  lemma {:induction false} InsertKeepsMerge(r: seq<MetricConfig>, all: seq<MetricConfig>, m: MetricConfig)
    requires IsMergeOf(r, all)
    ensures IsMergeOf(Insert(r, m), all + [m])
  {
    hide FirstOf, IsLast, Insert;
    var q, more := Insert(r, m), all + [m];
    InsertNames(r, m);
    assert DistinctNames(q);
    forall k | 0 <= k < |q| ensures IsLast(more, q[k]) {
      InsertIsLast(r, all, m, k);
    }
    forall k, l | 0 <= k < l < |q| ensures FirstOf(more, q[k].name) < FirstOf(more, q[l].name) {
      InsertIsRising(r, all, m, k, l);
    }
    forall i | 0 <= i < |more| ensures FirstOf(q, more[i].name) < |q| {
      var at := if i < |all| then FirstOf(r, all[i].name) else FirstOf(r, m.name);
      assert q[at].name == more[i].name;
    }
  }

  lemma {:induction false} NothingMerged()
    ensures IsMergeOf([], [])
  {
  }

  /** DistinctNames names in order of first occurrence, each with its last entry. */
  lemma {:induction false} MergeIsMerge(all: seq<MetricConfig>)
    ensures IsMergeOf(MergeInto([], all), all)
  {
    hide Insert, IsMergeOf;
    if all == [] {
      NothingMerged();
    } else {
      var n := |all| - 1;
      MergeIsMerge(all[..n]);
      InsertKeepsMerge(MergeInto([], all[..n]), all[..n], all[n]);
      assert all[..n] + [all[n]] == all;
    }
  }

  // ----- the description determines the merge -----

  function Firsts(r: seq<MetricConfig>, all: seq<MetricConfig>): (f: seq<nat>)
    ensures |f| == |r|
    ensures forall k | 0 <= k < |r| :: f[k] == FirstOf(all, r[k].name)
  {
    seq(|r|, k requires 0 <= k < |r| => FirstOf(all, r[k].name))
  }

  ghost predicate Rising(a: seq<nat>) {
    forall i, j | 0 <= i < j < |a| :: a[i] < a[j]
  }

  lemma {:induction false} HasElement(a: seq<nat>)
    requires a != []
    ensures a[0] in a
  {
  }

  lemma {:induction false} RisingIsDetermined(a: seq<nat>, b: seq<nat>)
    requires Rising(a) && Rising(b)
    requires forall x :: x in a <==> x in b
    ensures a == b
  {
    if a == [] {
      if b != [] {
        HasElement(b);
        assert false;
      }
    } else if b == [] {
      HasElement(a);
      assert false;
    } else {
      var x, y := a[|a| - 1], b[|b| - 1];
      assert x in b && y in a;
      assert x == y;
      var a', b' := a[..|a| - 1], b[..|b| - 1];
      forall z ensures z in a' <==> z in b' {
        assert z in a' <==> z in a && z != x;
        assert z in b' <==> z in b && z != y;
      }
      RisingIsDetermined(a', b');
      assert a == a' + [x] && b == b' + [y];
    }
  }

  lemma {:induction false} FirstsAgree(r: seq<MetricConfig>, q: seq<MetricConfig>, all: seq<MetricConfig>, x: nat)
    requires IsMergeOf(r, all) && IsMergeOf(q, all) && x in Firsts(r, all)
    ensures x in Firsts(q, all)
  {
    var k :| 0 <= k < |r| && Firsts(r, all)[k] == x;
    LastOccurs(all, r[k]);
    var l := FirstOf(q, all[x].name);
    assert Firsts(q, all)[l] == x;
  }

  lemma {:induction false} LastIsUnique(all: seq<MetricConfig>, x: MetricConfig, y: MetricConfig)
    requires IsLast(all, x) && IsLast(all, y) && x.name == y.name
    ensures x == y
  {
    var i :| 0 <= i < |all| && all[i] == x && forall j | i < j < |all| :: all[j].name != x.name;
    var k :| 0 <= k < |all| && all[k] == y && forall j | k < j < |all| :: all[j].name != y.name;
    assert i == k;
  }

  /** The merge is the one list that fits its description. */
  lemma {:induction false} MergeExactly(r: seq<MetricConfig>, all: seq<MetricConfig>)
    ensures r == MergeInto([], all) <==> IsMergeOf(r, all)
  {
    var q := MergeInto([], all);
    MergeIsMerge(all);
    if IsMergeOf(r, all) {
      hide FirstOf, IsLast, MergeInto;
      forall x ensures x in Firsts(r, all) <==> x in Firsts(q, all) {
        if x in Firsts(r, all) { FirstsAgree(r, q, all, x); }
        if x in Firsts(q, all) { FirstsAgree(q, r, all, x); }
      }
      RisingIsDetermined(Firsts(r, all), Firsts(q, all));
      forall k | 0 <= k < |r| ensures r[k] == q[k] {
        LastOccurs(all, r[k]);
        LastOccurs(all, q[k]);
        assert Firsts(r, all)[k] == Firsts(q, all)[k];
        assert r[k].name == all[FirstOf(all, r[k].name)].name;
        LastIsUnique(all, r[k], q[k]);
      }
    }
  }

  // ----- resolving twice -----

  ghost predicate StartsWithNames(q: seq<MetricConfig>, p: seq<MetricConfig>) {
    |p| <= |q| && forall i | 0 <= i < |p| :: q[i].name == p[i].name
  }

  lemma {:induction false} MergeKeepsNames(p: seq<MetricConfig>, more: seq<MetricConfig>)
    ensures StartsWithNames(MergeInto(p, more), p)
  {
    if more != [] {
      MergeKeepsNames(p, more[..|more| - 1]);
    }
  }

  lemma {:induction false} MergeConcat(p: seq<MetricConfig>, a: seq<MetricConfig>, b: seq<MetricConfig>)
    ensures MergeInto(p, a + b) == MergeInto(MergeInto(p, a), b)
  {
    hide Insert;
    if b == [] {
      assert a + b == a;
    } else {
      MergeConcat(p, a, b[..|b| - 1]);
      assert (a + b)[..|a + b| - 1] == a + b[..|b| - 1];
    }
  }

  function Overwritten(p: seq<MetricConfig>, r: seq<MetricConfig>, k: nat): seq<MetricConfig>
    requires k <= |r|
  {
    r[..k] + if k < |p| then p[k..] else []
  }

  lemma {:induction false} OverwriteOne(p: seq<MetricConfig>, r: seq<MetricConfig>, k: nat)
    requires k < |r| && DistinctNames(r) && StartsWithNames(r, p)
    ensures Insert(Overwritten(p, r, k), r[k]) == Overwritten(p, r, k + 1)
  {
    var s := Overwritten(p, r, k);
    assert forall i | 0 <= i < |s| :: s[i].name == r[i].name;
    assert FirstOf(s, r[k].name) == k;
  }

  lemma {:induction false} MergeAgain(p: seq<MetricConfig>, r: seq<MetricConfig>, k: nat)
    requires k <= |r| && DistinctNames(r) && StartsWithNames(r, p)
    ensures MergeInto(p, r[..k]) == Overwritten(p, r, k)
  {
    hide Insert, DistinctNames;
    if k == 0 {
      assert p[0..] == p && r[..0] == [];
    } else {
      MergeAgain(p, r, k - 1);
      OverwriteOne(p, r, k - 1);
      assert r[..k][..k - 1] == r[..k - 1];
    }
  }

  /** Resolving again with unchanged files changes nothing. */
  lemma {:induction false} ResolveTwice(fromFiles: seq<MetricConfig>, inline: seq<MetricConfig>)
    ensures var once := MergeInto([], fromFiles + inline);
      MergeInto([], fromFiles + once) == once
  {
    hide Insert, MergeInto;
    var p, r := MergeInto([], fromFiles), MergeInto([], fromFiles + inline);
    MergeIsMerge(fromFiles + inline);
    MergeConcat([], fromFiles, inline);
    MergeKeepsNames(p, inline);
    MergeAgain(p, r, |r|);
    MergeConcat([], fromFiles, r);
    assert r[..|r|] == r;
  }
}
