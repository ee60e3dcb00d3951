/** Text exposition of metrics (src/exporter/prometheus/mod.rs:17-100). */
module Prometheus {
  import opened Wrappers
  import opened Domain

  // ----- names -----

  predicate IsDigit(c: char) { '0' <= c <= '9' }

  predicate IsNameStart(c: char) {
    'a' <= c <= 'z' || 'A' <= c <= 'Z' || c == '_'
  }

  predicate IsNameChar(c: char) { IsNameStart(c) || IsDigit(c) }

  /** The identifiers of the exposition format: `[a-zA-Z_][a-zA-Z0-9_]*`. */
  predicate IsName(s: string) {
    s != "" && IsNameStart(s[0]) && forall i | 0 <= i < |s| :: IsNameChar(s[i])
  }

  function Cleaned(c: char): char {
    if IsNameChar(c) then c else '_'
  }

  /** What `sanitize_name` has pushed after `n` characters. */
  function Pushed(s: string, n: nat): string
    requires n <= |s|
  {
    if n == 0 then ""
    else if n == 1 && IsDigit(s[0]) then ['_', s[0]]
    else Pushed(s, n - 1) + [Cleaned(s[n - 1])]
  }

  function Sanitized(s: string): string {
    if s == "" then "_" else Pushed(s, |s|)
  }

  method SanitizeName(s: string) returns (out: string)
    ensures out == Sanitized(s)
    ensures IsName(out)
  {
    out := "";
    for i := 0 to |s|
      invariant out == Pushed(s, i)
    {
      var c := s[i];
      if IsNameChar(c) {
        if i == 0 && IsDigit(c) {
          out := out + ['_'];
        }
        out := out + [c];
      } else {
        out := out + ['_'];
      }
    }
    if out == "" {
      PushedIsName(s, |s|);
      out := out + ['_'];
    }
    SanitizedIsName(s);
  }

  /** What each character of a string becomes, and the underscore put before a leading digit. */
  lemma {:induction false} SanitizedAt(s: string, i: nat)
    requires i < |s|
    ensures var shift := if '0' <= s[0] <= '9' then 1 else 0;
      && |Sanitized(s)| == |s| + shift
      && (shift == 1 ==> Sanitized(s)[0] == '_')
      && Sanitized(s)[i + shift] ==
           if 'a' <= s[i] <= 'z' || 'A' <= s[i] <= 'Z' || '0' <= s[i] <= '9' then s[i] else '_'
  {
    PushedAt(s, |s|, i);
  }

  lemma {:induction false} PushedAt(s: string, n: nat, i: nat)
    requires i < n <= |s|
    ensures var shift := if '0' <= s[0] <= '9' then 1 else 0;
      && |Pushed(s, n)| == n + shift
      && (shift == 1 ==> Pushed(s, n)[0] == '_')
      && Pushed(s, n)[i + shift] == Cleaned(s[i])
  {
    if n > 1 {
      PushedAt(s, n - 1, if i < n - 1 then i else 0);
    }
  }

  lemma {:induction false} PushedIsName(s: string, n: nat)
    requires n <= |s|
    ensures n > 0 ==> IsName(Pushed(s, n))
  {
    if n > 1 { PushedIsName(s, n - 1); }
  }

  lemma {:induction false} SanitizedIsName(s: string)
    ensures IsName(Sanitized(s))
  {
    PushedIsName(s, |s|);
  }

  lemma {:induction false} NamesArePushedAsTheyAre(s: string, n: nat)
    requires IsName(s) && n <= |s|
    ensures Pushed(s, n) == s[..n]
  {
    if n > 0 { NamesArePushedAsTheyAre(s, n - 1); }
  }

  /** Exactly the names are left alone; so sanitizing is idempotent. */
  lemma {:induction false} SanitizedFixesNames(s: string)
    ensures Sanitized(s) == s <==> IsName(s)
    ensures Sanitized(Sanitized(s)) == Sanitized(s)
  {
    SanitizedIsName(s);
    if IsName(s) { NamesArePushedAsTheyAre(s, |s|); }
    NamesArePushedAsTheyAre(Sanitized(s), |Sanitized(s)|);
    assert Sanitized(s)[..|Sanitized(s)|] == Sanitized(s);
    assert s[..|s|] == s;
  }

  function MetricName(name: string, unit: string): string {
    if unit == "" then "bus_" + Sanitized(name)
    else "bus_" + Sanitized(name) + "_" + Sanitized(unit)
  }

  lemma {:induction false} MetricNameIsName(name: string, unit: string)
    ensures IsName(MetricName(name, unit))
  {
    SanitizedIsName(name);
    SanitizedIsName(unit);
    hide Sanitized;
    var a, n, u := "bus_", Sanitized(name), Sanitized(unit);
    assert forall i | 0 <= i < |a + n| :: IsNameChar((a + n)[i]);
    if unit != "" {
      assert forall i | 0 <= i < |a + n + "_"| :: IsNameChar((a + n + "_")[i]);
      assert forall i | 0 <= i < |a + n + "_" + u| :: IsNameChar((a + n + "_" + u)[i]);
    }
  }

  /** A metric without a unit is `bus_` and its name, one with a unit has that appended; names are kept as they are. */
  lemma {:induction false} MetricNameSpelledOut(name: string, unit: string)
    ensures MetricName(name, "") == "bus_" + Sanitized(name)
    ensures unit != "" ==> MetricName(name, unit) == "bus_" + Sanitized(name) + "_" + Sanitized(unit)
    ensures IsName(name) ==> MetricName(name, "") == "bus_" + name
    ensures IsName(name) && IsName(unit) ==> MetricName(name, unit) == "bus_" + name + "_" + unit
  {
    hide Sanitized;
    SanitizedFixesNames(name);
    SanitizedFixesNames(unit);
  }

  /** Under the same unit, or without one, names are told apart exactly by their sanitized forms. */
  lemma {:induction false} SameUnitExactly(a: string, b: string, unit: string)
    ensures MetricName(a, unit) == MetricName(b, unit) <==> Sanitized(a) == Sanitized(b)
  {
    hide Sanitized;
    var x, y := Sanitized(a), Sanitized(b);
    var tail := if unit == "" then "" else "_" + Sanitized(unit);
    assert MetricName(a, unit) == "bus_" + (x + tail) && MetricName(b, unit) == "bus_" + (y + tail);
    if MetricName(a, unit) == MetricName(b, unit) {
      assert ("bus_" + (x + tail))[4..] == x + tail && ("bus_" + (y + tail))[4..] == y + tail;
      assert (x + tail)[..|x|] == x && (y + tail)[..|y|] == y;
    }
  }

  // ----- label values -----

  /** `str::replace` with a one-character pattern. */
  function Replace(s: string, c: char, put: string): string {
    if s == "" then "" else (if s[0] == c then put else [s[0]]) + Replace(s[1..], c, put)
  }

  /** The three replacements of the source, one after the other. */
  function Escape(s: string): string {
    Replace(Replace(Replace(s, '\\', "\\\\"), '"', "\\\""), '\n', "\\n")
  }

  function EscapeChar(c: char): string {
    if c == '\\' then "\\\\" else if c == '"' then "\\\"" else if c == '\n' then "\\n" else [c]
  }

  /** All characters escaped at once. */
  function EscapeEach(s: string): string {
    if s == "" then "" else EscapeChar(s[0]) + EscapeEach(s[1..])
  }

  function Put(x: char, c: char, put: string): string {
    if x == c then put else [x]
  }

  lemma {:induction false} ReplaceStep(s: string, c: char, put: string)
    ensures s == "" ==> Replace(s, c, put) == ""
    ensures s != "" ==> Replace(s, c, put) == Put(s[0], c, put) + Replace(s[1..], c, put)
  {
  }

  lemma {:induction false} ReplaceConcat(a: string, b: string, c: char, put: string)
    ensures Replace(a + b, c, put) == Replace(a, c, put) + Replace(b, c, put)
  {
    hide Replace, Put;
    ReplaceStep(a, c, put);
    if a == "" {
      assert a + b == b;
    } else {
      var head, rest := Put(a[0], c, put), a[1..];
      ReplaceConcat(rest, b, c, put);
      ReplaceStep(a + b, c, put);
      assert (a + b)[1..] == rest + b && (a + b)[0] == a[0];
      assert head + (Replace(rest, c, put) + Replace(b, c, put)) == (head + Replace(rest, c, put)) + Replace(b, c, put);
    }
  }

  lemma {:induction false} ReplaceShort(x: char, y: char, c: char, put: string)
    ensures Replace([x], c, put) == if x == c then put else [x]
    ensures Replace([x, y], c, put) == (if x == c then put else [x]) + if y == c then put else [y]
  {
    assert [x][1..] == "" && [x, y][1..] == [y] && [y][1..] == "";
  }

  lemma {:induction false} EscapeOne(c: char)
    ensures Escape([c]) == EscapeChar(c)
  {
    assert "\\\\" == ['\\', '\\'] && "\\\"" == ['\\', '"'] && "\\n" == ['\\', 'n'];
    hide Replace;
    ReplaceShort(c, c, '\\', "\\\\");
    ReplaceShort(c, c, '"', "\\\"");
    ReplaceShort(c, c, '\n', "\\n");
    ReplaceShort('\\', '\\', '"', "\\\"");
    ReplaceShort('\\', '\\', '\n', "\\n");
    ReplaceShort('\\', '"', '\n', "\\n");
  }

  /** No replacement touches what an earlier one has put in. */
  lemma {:induction false} EscapeIsSimultaneous(s: string)
    ensures Escape(s) == EscapeEach(s)
  {
    if s != "" {
      var head, tail := [s[0]], s[1..];
      assert s == head + tail;
      EscapeIsSimultaneous(tail);
      EscapeOne(s[0]);
      ReplaceConcat(head, tail, '\\', "\\\\");
      ReplaceConcat(Replace(head, '\\', "\\\\"), Replace(tail, '\\', "\\\\"), '"', "\\\"");
      ReplaceConcat(Replace(Replace(head, '\\', "\\\\"), '"', "\\\""),
        Replace(Replace(tail, '\\', "\\\\"), '"', "\\\""), '\n', "\\n");
      hide Replace;
    }
  }

  // ----- one line -----

  /** The labels in the order of their keys, as an ordered map yields them. */
  type Pairs = seq<(string, string)>

  function LabelText(pair: (string, string)): string {
    Sanitized(pair.0) + "=\"" + Escape(pair.1) + "\""
  }

  /** The label texts joined by commas. */
  function Joined(labels: Pairs): string {
    if labels == [] then ""
    else if |labels| == 1 then LabelText(labels[0])
    else LabelText(labels[0]) + "," + Joined(labels[1..])
  }

  function MetricLine(name: string, labels: Pairs, value: string): string {
    if labels == [] then name + " " + value
    else name + "{" + Joined(labels) + "} " + value
  }

  // ----- a reader of the text exposition format, version 0.0.4 -----

  datatype Parsed = Parsed(name: string, labels: Pairs, value: string)

  /** The characters of an escaped label value, up to its closing quote. */
  function ReadQuoted(s: string): Option<(string, string)> {
    if s == "" then None
    else if s[0] == '"' then Some(("", s[1..]))
    else if s[0] == '\\' then
      if |s| < 2 then None
      else
        var c := if s[1] == 'n' then '\n' else s[1];
        match ReadQuoted(s[2..])
        case Some((v, rest)) => Some(([c] + v, rest))
        case None => None
    else
      match ReadQuoted(s[1..])
      case Some((v, rest)) => Some(([s[0]] + v, rest))
      case None => None
  }

  function NameLength(s: string): (n: nat)
    ensures n <= |s|
  {
    if s == "" || !IsNameChar(s[0]) then 0 else 1 + NameLength(s[1..])
  }

  /** Labels, from behind the opening brace or a comma to behind the closing brace. */
  function ReadLabels(s: string): Option<(Pairs, string)>
    decreases |s|
  {
    var n := NameLength(s);
    if n == 0 || |s| < n + 2 || s[n] != '=' || s[n + 1] != '"' then None
    else
      match ReadQuoted(s[n + 2..])
      case None => None
      case Some((v, rest)) =>
        if rest != "" && rest[0] == '}' then Some(([(s[..n], v)], rest[1..]))
        else if rest != "" && rest[0] == ',' && |rest| <= |s| then
          match ReadLabels(rest[1..])
          case None => None
          case Some((more, end)) => Some(([(s[..n], v)] + more, end))
        else None
  }

  function ReadLine(s: string): Option<Parsed> {
    var n := NameLength(s);
    var rest := s[n..];
    if n == 0 || rest == "" then None
    else if rest[0] == ' ' then Some(Parsed(s[..n], [], rest[1..]))
    else if rest[0] != '{' then None
    else
      match ReadLabels(rest[1..])
      case None => None
      case Some((labels, end)) =>
        if end != "" && end[0] == ' ' then Some(Parsed(s[..n], labels, end[1..])) else None
  }

  // ----- reading back what was printed -----

  lemma {:induction false} NameLengthOf(name: string, rest: string)
    requires forall i | 0 <= i < |name| :: IsNameChar(name[i])
    requires rest != "" && !IsNameChar(rest[0])
    ensures NameLength(name + rest) == |name|
    ensures (name + rest)[..|name|] == name && (name + rest)[|name|..] == rest
  {
    if name == "" {
      assert name + rest == rest;
    } else {
      NameLengthOf(name[1..], rest);
      assert (name + rest)[1..] == name[1..] + rest;
    }
  }

  lemma {:induction false} ReadOneEscape(c: char, tail: string)
    ensures ReadQuoted(tail).Some? ==>
      ReadQuoted(EscapeChar(c) + tail) == Some(([c] + ReadQuoted(tail).value.0, ReadQuoted(tail).value.1))
  {
    var e := EscapeChar(c);
    assert (e + tail)[|e|..] == tail;
  }

  lemma {:induction false} QuoteEnds(rest: string)
    ensures ReadQuoted(EscapeEach("") + "\"" + rest) == Some(("", rest))
  {
    var text := EscapeEach("") + "\"" + rest;
    assert text == "\"" + rest && text[1..] == rest;
  }

  lemma {:induction false} EscapeFirst(v: string, rest: string)
    requires v != ""
    ensures EscapeEach(v) + rest == EscapeChar(v[0]) + (EscapeEach(v[1..]) + rest)
  {
    hide EscapeChar;
  }

  lemma {:induction false} QuotedReadsBack(v: string, rest: string)
    ensures ReadQuoted(EscapeEach(v) + "\"" + rest) == Some((v, rest))
  {
    hide ReadQuoted, EscapeChar, EscapeEach;
    if v == "" {
      QuoteEnds(rest);
    } else {
      QuotedReadsBack(v[1..], rest);
      ReadOneEscape(v[0], EscapeEach(v[1..]) + "\"" + rest);
      EscapeFirst(v, "\"" + rest);
      var e, t := EscapeChar(v[0]), EscapeEach(v[1..]);
      assert e + (t + ("\"" + rest)) == e + (t + "\"" + rest);
      assert EscapeEach(v) + ("\"" + rest) == EscapeEach(v) + "\"" + rest;
      assert v == [v[0]] + v[1..];
    }
  }

  function Expected(labels: Pairs): Pairs {
    seq(|labels|, i requires 0 <= i < |labels| => (Sanitized(labels[i].0), labels[i].1))
  }

  lemma {:induction false} OneLabelReadsBack(key: string, v: string, rest: string)
    ensures var text := LabelText((key, v)) + rest;
      var n := NameLength(text);
      && n == |Sanitized(key)| > 0 && |text| >= n + 2 + |rest|
      && text[..n] == Sanitized(key)
      && text[n] == '=' && text[n + 1] == '"'
      && ReadQuoted(text[n + 2..]) == Some((v, rest))
  {
    SanitizedIsName(key);
    EscapeIsSimultaneous(v);
    hide Sanitized, Escape, EscapeEach, ReadQuoted;
    var quoted := Escape(v) + "\"" + rest;
    var text := LabelText((key, v)) + rest;
    assert text == Sanitized(key) + ("=\"" + quoted);
    NameLengthOf(Sanitized(key), "=\"" + quoted);
    assert text[|Sanitized(key)| + 2..] == quoted;
    QuotedReadsBack(v, rest);
  }

  /** What the reader does with one printed label, by what follows it. */
  lemma {:induction false} LabelStep(key: string, v: string, rest: string)
    requires rest != ""
    ensures rest[0] == '}' ==> ReadLabels(LabelText((key, v)) + rest) == Some(([(Sanitized(key), v)], rest[1..]))
    ensures rest[0] == ',' && ReadLabels(rest[1..]).Some? ==>
      var (more, end) := ReadLabels(rest[1..]).value;
      ReadLabels(LabelText((key, v)) + rest) == Some(([(Sanitized(key), v)] + more, end))
  {
    hide Sanitized, LabelText, ReadQuoted, NameLength;
    OneLabelReadsBack(key, v, rest);
  }

  lemma {:induction false} LabelsReadBack(labels: Pairs, rest: string)
    requires labels != []
    ensures ReadLabels(Joined(labels) + "}" + rest) == Some((Expected(labels), rest))
  {
    hide Sanitized, LabelText, ReadLabels;
    var text := Joined(labels) + "}" + rest;
    if |labels| == 1 {
      LabelStep(labels[0].0, labels[0].1, "}" + rest);
      assert text == LabelText(labels[0]) + ("}" + rest);
      assert ("}" + rest)[1..] == rest;
      assert Expected(labels) == [(Sanitized(labels[0].0), labels[0].1)];
    } else {
      var tail := Joined(labels[1..]) + "}" + rest;
      LabelsReadBack(labels[1..], rest);
      LabelStep(labels[0].0, labels[0].1, "," + tail);
      assert text == LabelText(labels[0]) + ("," + tail);
      assert ("," + tail)[1..] == tail;
      assert Expected(labels) == [(Sanitized(labels[0].0), labels[0].1)] + Expected(labels[1..]);
    }
  }

  /**
   A printed line is uniquely readable: for every metric name and unit, every list of label
   keys and values, and every value text, the reader recovers the name, the sanitized keys
   with the original values, and the value text.
   */
  lemma {:induction false} LineReadsBack(name: string, unit: string, labels: Pairs, value: string)
    ensures ReadLine(MetricLine(MetricName(name, unit), labels, value))
         == Some(Parsed(MetricName(name, unit), Expected(labels), value))
  {
    MetricNameIsName(name, unit);
    hide MetricName, Sanitized, Joined, ReadLabels;
    var fq := MetricName(name, unit);
    var line := MetricLine(fq, labels, value);
    if labels == [] {
      assert line == fq + (" " + value) && (" " + value)[1..] == value;
      NameLengthOf(fq, " " + value);
      assert Expected(labels) == [];
    } else {
      var rest := "{" + Joined(labels) + "} " + value;
      assert line == fq + rest;
      NameLengthOf(fq, rest);
      assert rest[1..] == Joined(labels) + "}" + (" " + value);
      LabelsReadBack(labels, " " + value);
      assert (" " + value)[1..] == value;
    }
  }

  /** Two different printed label lists can only differ in how their keys are sanitized. */
  lemma {:induction false} LinesDetermineValues(name: string, unit: string, a: Pairs, b: Pairs, va: string, vb: string)
    requires MetricLine(MetricName(name, unit), a, va) == MetricLine(MetricName(name, unit), b, vb)
    ensures va == vb && |a| == |b|
    ensures forall i | 0 <= i < |a| :: a[i].1 == b[i].1 && Sanitized(a[i].0) == Sanitized(b[i].0)
  {
    hide MetricLine, MetricName, Sanitized;
    LineReadsBack(name, unit, a, va);
    LineReadsBack(name, unit, b, vb);
    forall i | 0 <= i < |a| && |a| == |b| ensures a[i].1 == b[i].1 && Sanitized(a[i].0) == Sanitized(b[i].0) {
      assert Expected(a)[i] == Expected(b)[i];
    }
  }

  // ----- a whole page -----

  /** One value of the store, with the text of its type and of its number. */
  datatype Sample = Sample(name: string, unit: string, metricType: MetricType, description: string, labels: Pairs, value: string)

  function FullName(s: Sample): string {
    MetricName(s.name, s.unit)
  }

  function Group(samples: seq<Sample>, fq: string): seq<Sample> {
    if samples == [] then []
    else
      var front, last := Group(samples[..|samples| - 1], fq), samples[|samples| - 1];
      if FullName(last) == fq then front + [last] else front
  }

  function EscapeHelp(s: string): string {
    Replace(Replace(s, '\\', "\\\\"), '\n', "\\n")
  }

  /** What the text format takes an escaped description for. */
  function Unescaped(s: string): string {
    if s == "" then ""
    else if s[0] == '\\' && |s| > 1 then [if s[1] == 'n' then '\n' else s[1]] + Unescaped(s[2..])
    else [s[0]] + Unescaped(s[1..])
  }

  function HelpChar(c: char): string {
    if c == '\\' then "\\\\" else if c == '\n' then "\\n" else [c]
  }

  lemma {:induction false} HelpStep(c: char, rest: string)
    ensures EscapeHelp([c] + rest) == HelpChar(c) + EscapeHelp(rest)
  {
    assert "\\\\" == ['\\', '\\'] && "\\n" == ['\\', 'n'];
    hide Replace;
    ReplaceConcat([c], rest, '\\', "\\\\");
    ReplaceConcat(Replace([c], '\\', "\\\\"), Replace(rest, '\\', "\\\\"), '\n', "\\n");
    ReplaceShort(c, c, '\\', "\\\\");
    ReplaceShort(c, c, '\n', "\\n");
    ReplaceShort('\\', '\\', '\n', "\\n");
  }

  /** A printed description is read back as it was. */
  lemma {:induction false} HelpReadsBack(d: string)
    ensures Unescaped(EscapeHelp(d)) == d
  {
    if d != "" {
      assert d == [d[0]] + d[1..];
      HelpStep(d[0], d[1..]);
      HelpReadsBack(d[1..]);
      hide EscapeHelp;
      var text := HelpChar(d[0]) + EscapeHelp(d[1..]);
      assert text[|HelpChar(d[0])|..] == EscapeHelp(d[1..]);
    }
  }

  function HelpLine(fq: string, s: Sample): string {
    "# HELP " + fq + " " + EscapeHelp(s.description)
  }

  function TypeText(t: MetricType): string {
    match t
    case Gauge => "gauge"
    case Counter => "counter"
  }

  function TypeLine(fq: string, s: Sample): string {
    "# TYPE " + fq + " " + TypeText(s.metricType)
  }

  function SampleLines(fq: string, group: seq<Sample>): seq<string> {
    if group == [] then []
    else
      var s := group[|group| - 1];
      SampleLines(fq, group[..|group| - 1]) + [MetricLine(fq, s.labels, s.value)]
  }

  function GroupLines(fq: string, group: seq<Sample>): seq<string>
    requires group != []
  {
    [HelpLine(fq, group[0]), TypeLine(fq, group[0])] + SampleLines(fq, group)
  }

  function Text(lines: seq<string>): string {
    if lines == [] then "" else Text(lines[..|lines| - 1]) + lines[|lines| - 1] + "\n"
  }

  ghost predicate Distinct(a: seq<string>) {
    forall i, j | 0 <= i < j < |a| :: a[i] != a[j]
  }

  /** `names` lists each full name of the samples once. */
  ghost predicate Names(samples: seq<Sample>, names: seq<string>) {
    && Distinct(names)
    && (forall i | 0 <= i < |names| :: Group(samples, names[i]) != [])
    && (forall i | 0 <= i < |samples| :: FullName(samples[i]) in names)
  }

  ghost function PageLines(samples: seq<Sample>, names: seq<string>): seq<string>
    requires forall i | 0 <= i < |names| :: Group(samples, names[i]) != []
  {
    if names == [] then []
    else
      var fq := names[|names| - 1];
      PageLines(samples, names[..|names| - 1]) + GroupLines(fq, Group(samples, fq))
  }

  lemma {:induction false} TextConcat(a: seq<string>, b: seq<string>)
    ensures Text(a + b) == Text(a) + Text(b)
  {
    if b == [] {
      assert a + b == a;
    } else {
      var front, last := b[..|b| - 1], b[|b| - 1];
      TextConcat(a, front);
      assert (a + b)[..|a + b| - 1] == a + front;
      assert Text(a + b) == Text(a + front) + last + "\n" && Text(b) == Text(front) + last + "\n";
      hide Text;
      assert (Text(a) + Text(front)) + last + "\n" == Text(a) + (Text(front) + last + "\n");
    }
  }

  lemma {:induction false} TextOne(line: string)
    ensures Text([line]) == line + "\n"
  {
    assert [line][..0] == [];
  }

  lemma {:induction false} GroupNames(samples: seq<Sample>, fq: string)
    ensures Group(samples, fq) != [] <==> exists i | 0 <= i < |samples| :: FullName(samples[i]) == fq
  {
    if samples != [] {
      var front := samples[..|samples| - 1];
      GroupNames(front, fq);
      assert forall i | 0 <= i < |front| :: front[i] == samples[i];
    }
  }

  /** The grouping loop. */
  method GroupSamples(samples: seq<Sample>) returns (grouped: map<string, seq<Sample>>)
    ensures forall fq :: fq in grouped <==> Group(samples, fq) != []
    ensures forall fq | fq in grouped :: grouped[fq] == Group(samples, fq)
  {
    grouped := map[];
    for i := 0 to |samples|
      invariant forall fq :: fq in grouped <==> Group(samples[..i], fq) != []
      invariant forall fq | fq in grouped :: grouped[fq] == Group(samples[..i], fq)
    {
      assert samples[..i + 1][..i] == samples[..i];
      var fq := FullName(samples[i]);
      var values := if fq in grouped then grouped[fq] else [];
      grouped := grouped[fq := values + [samples[i]]];
    }
    assert samples[..|samples|] == samples;
  }

  // ----- the order of the groups -----

  /** The order of an ordered map keyed by strings: lexicographic, a prefix first. */
  predicate AtMost(a: string, b: string) {
    a == "" || (b != "" && (a[0] < b[0] || (a[0] == b[0] && AtMost(a[1..], b[1..]))))
  }

  lemma {:induction false} AtMostTotal(a: string, b: string)
    ensures AtMost(a, b) || AtMost(b, a)
    ensures AtMost(a, b) && AtMost(b, a) ==> a == b
  {
    if a != "" && b != "" {
      AtMostTotal(a[1..], b[1..]);
      assert a == [a[0]] + a[1..] && b == [b[0]] + b[1..];
    }
  }

  lemma {:induction false} AtMostTransitive(a: string, b: string, c: string)
    requires AtMost(a, b) && AtMost(b, c)
    ensures AtMost(a, c)
  {
    if a != "" {
      if a[0] == b[0] == c[0] {
        AtMostTransitive(a[1..], b[1..], c[1..]);
      }
    }
  }

  ghost predicate IsFirst(x: string, keys: set<string>) {
    x in keys && forall y | y in keys :: AtMost(x, y)
  }

  lemma {:induction false} HasFirst(keys: set<string>)
    requires keys != {}
    ensures exists x :: IsFirst(x, keys)
    decreases |keys|
  {
    var k :| k in keys;
    var rest := keys - {k};
    AtMostTotal(k, k);
    if rest == {} {
      assert keys == {k};
      assert IsFirst(k, keys);
    } else {
      HasFirst(rest);
      var x :| IsFirst(x, rest);
      AtMostTotal(k, x);
      if AtMost(x, k) {
        assert IsFirst(x, keys);
      } else {
        forall y | y in keys ensures AtMost(k, y) {
          if y != k { AtMostTransitive(k, x, y); }
        }
        assert IsFirst(k, keys);
      }
    }
  }

  ghost predicate Sorted(names: seq<string>) {
    forall i, j | 0 <= i < j < |names| :: AtMost(names[i], names[j])
  }

  /** The keys of an ordered map, in its order. */
  method SortedKeys(keys: set<string>) returns (names: seq<string>)
    ensures Sorted(names) && Distinct(names)
    ensures forall k :: k in names <==> k in keys
  {
    names := [];
    var rest := keys;
    while rest != {}
      invariant rest <= keys && Sorted(names)
      invariant forall k :: k in names <==> k in keys && k !in rest
      invariant Distinct(names)
      invariant forall i, k | 0 <= i < |names| && k in rest :: AtMost(names[i], k)
    {
      HasFirst(rest);
      var x :| x in rest && forall y | y in rest :: AtMost(x, y);
      rest := rest - {x};
      names := names + [x];
    }
  }

  ghost predicate SameKeys(a: seq<string>, b: seq<string>) {
    forall k :: k in a <==> k in b
  }

  lemma {:induction false} WithoutLast(a: seq<string>, b: seq<string>)
    requires Distinct(a) && Distinct(b) && SameKeys(a, b) && a != [] && b != []
    requires a[|a| - 1] == b[|b| - 1]
    ensures SameKeys(a[..|a| - 1], b[..|b| - 1])
  {
    var x, p, q := a[|a| - 1], a[..|a| - 1], b[..|b| - 1];
    forall k ensures k in p <==> k in q {
      assert k in p <==> k in a && k != x;
      assert k in q <==> k in b && k != x;
    }
  }

  /** There is only one sorted list of the names, so a page is a function of the samples and their order. */
  lemma {:induction false} SortedIsUnique(a: seq<string>, b: seq<string>)
    requires Sorted(a) && Sorted(b) && Distinct(a) && Distinct(b) && SameKeys(a, b)
    ensures a == b
  {
    EmptyTogether(a, b);
    if a != [] {
      hide AtMost, SameKeys;
      var x, y := a[|a| - 1], b[|b| - 1];
      LastIsGreatest(a, b);
      LastIsGreatest(b, a);
      AtMostTotal(x, y);
      WithoutLast(a, b);
      SortedIsUnique(a[..|a| - 1], b[..|b| - 1]);
      assert a == a[..|a| - 1] + [x] && b == b[..|b| - 1] + [y];
    }
  }

  lemma {:induction false} LastIsGreatest(a: seq<string>, b: seq<string>)
    requires Sorted(a) && SameKeys(a, b) && a != [] && b != []
    ensures AtMost(b[|b| - 1], a[|a| - 1])
  {
    hide AtMost;
    var k := b[|b| - 1];
    assert k in b;
    var i :| 0 <= i < |a| && a[i] == k;
    AtMostTotal(k, k);
  }

  lemma {:induction false} EmptyTogether(a: seq<string>, b: seq<string>)
    requires SameKeys(a, b)
    ensures a == [] <==> b == []
  {
    if a != [] { assert a[0] in a; }
    if b != [] { assert b[0] in b; }
  }

  /** The page, with the groups in the order of their names. */
  method RenderMetrics(samples: seq<Sample>) returns (page: string)
    ensures exists names :: Names(samples, names) && Sorted(names) && page == Text(PageLines(samples, names))
  {
    var grouped := GroupSamples(samples);
    var names := SortedKeys(grouped.Keys);
    KeysAreNames(samples, names);
    page := "";
    for i := 0 to |names|
      invariant page == Text(PageLines(samples, names[..i]))
    {
      var text := RenderGroup(names[i], grouped[names[i]]);
      page := page + text;
      NextGroup(samples, names, i);
    }
    assert names[..|names|] == names;
  }

  lemma {:induction false} KeysAreNames(samples: seq<Sample>, names: seq<string>)
    requires Distinct(names)
    requires forall fq :: fq in names <==> Group(samples, fq) != []
    ensures Names(samples, names)
  {
    hide FullName;
    forall i | 0 <= i < |samples| ensures FullName(samples[i]) in names {
      GroupNames(samples, FullName(samples[i]));
    }
  }

  lemma {:induction false} NextGroup(samples: seq<Sample>, names: seq<string>, i: nat)
    requires i < |names| && forall k | 0 <= k < |names| :: Group(samples, names[k]) != []
    ensures Text(PageLines(samples, names[..i + 1]))
         == Text(PageLines(samples, names[..i])) + Text(GroupLines(names[i], Group(samples, names[i])))
  {
    hide Text, Group, GroupLines;
    assert names[..i + 1][..i] == names[..i];
    TextConcat(PageLines(samples, names[..i]), GroupLines(names[i], Group(samples, names[i])));
  }

  method RenderGroup(fq: string, group: seq<Sample>) returns (buf: string)
    requires group != []
    ensures buf == Text(GroupLines(fq, group))
  {
    var first := group[0];
    buf := HelpLine(fq, first) + "\n";
    TextOne(HelpLine(fq, first));
    TextConcat([HelpLine(fq, first)], [TypeLine(fq, first)]);
    TextOne(TypeLine(fq, first));
    buf := buf + (TypeLine(fq, first) + "\n");
    ghost var head := [HelpLine(fq, first), TypeLine(fq, first)];
    assert head == [HelpLine(fq, first)] + [TypeLine(fq, first)];
    hide Text, HelpLine, TypeLine, MetricLine;
    assert SampleLines(fq, group[..0]) == [] && head + [] == head;
    for i := 0 to |group|
      invariant buf == Text(head + SampleLines(fq, group[..i]))
    {
      var line := MetricLine(fq, group[i].labels, group[i].value);
      assert group[..i + 1][..i] == group[..i];
      TextConcat(head + SampleLines(fq, group[..i]), [line]);
      TextOne(line);
      assert head + SampleLines(fq, group[..i + 1]) == head + SampleLines(fq, group[..i]) + [line];
      buf := buf + line;
      buf := buf + "\n";
    }
    assert group[..|group|] == group;
  }

  // ----- reading a page back -----

  function LineLength(s: string): (n: nat)
    ensures n <= |s|
  {
    if s == "" || s[0] == '\n' then 0 else 1 + LineLength(s[1..])
  }

  /** The lines of a text, each ended by a line feed. */
  function SplitLines(s: string): seq<string> {
    var n := LineLength(s);
    if n == |s| then [] else [s[..n]] + SplitLines(s[n + 1..])
  }

  /** What the lines other than comments say. */
  function ReadSamples(lines: seq<string>): seq<Option<Parsed>> {
    if lines == [] then []
    else
      var front, last := ReadSamples(lines[..|lines| - 1]), lines[|lines| - 1];
      if last != "" && last[0] == '#' then front else front + [ReadLine(last)]
  }

  lemma {:induction false} LineLengthOf(line: string, rest: string)
    requires '\n' !in line
    ensures LineLength(line + "\n" + rest) == |line|
  {
    var s := line + "\n" + rest;
    if line == "" {
      assert s[0] == '\n';
    } else {
      LineLengthOf(line[1..], rest);
      assert s[1..] == line[1..] + "\n" + rest && s[0] == line[0];
    }
  }

  lemma {:induction false} LinesSplitBack(lines: seq<string>)
    requires forall i | 0 <= i < |lines| :: '\n' !in lines[i]
    ensures SplitLines(Text(lines)) == lines
  {
    if lines != [] {
      var head, tail := lines[0], lines[1..];
      LinesSplitBack(tail);
      TextConcat([head], tail);
      TextOne(head);
      hide Text, LineLength;
      assert lines == [head] + tail;
      var s := head + "\n" + Text(tail);
      LineLengthOf(head, Text(tail));
      assert s[..|head|] == head && s[|head| + 1..] == Text(tail);
    }
  }

  lemma {:induction false} ReplaceRemoves(s: string, c: char, put: string)
    requires c !in put
    ensures c !in Replace(s, c, put)
  {
    if s != "" { ReplaceRemoves(s[1..], c, put); }
  }

  lemma {:induction false} NamesHaveNoLineFeed(s: string)
    requires IsName(s)
    ensures '\n' !in s && s[0] != '#'
  {
  }

  lemma {:induction false} JoinedHasNoLineFeed(labels: Pairs)
    ensures '\n' !in Joined(labels)
  {
    if labels != [] {
      SanitizedIsName(labels[0].0);
      NamesHaveNoLineFeed(Sanitized(labels[0].0));
      assert '\n' !in Escape(labels[0].1) by {
        hide Replace;
        ReplaceRemoves(Replace(Replace(labels[0].1, '\\', "\\\\"), '"', "\\\""), '\n', "\\n");
      }
      JoinedHasNoLineFeed(labels[1..]);
    }
  }

  /** The texts that are not escaped: a number and a type keyword. */
  ghost predicate PlainTexts(samples: seq<Sample>) {
    forall i | 0 <= i < |samples| :: '\n' !in samples[i].value
  }

  lemma {:induction false} GroupIsPlain(samples: seq<Sample>, fq: string)
    requires PlainTexts(samples)
    ensures PlainTexts(Group(samples, fq))
    ensures forall i | 0 <= i < |Group(samples, fq)| :: FullName(Group(samples, fq)[i]) == fq
  {
    if samples != [] { GroupIsPlain(samples[..|samples| - 1], fq); }
  }

  function Recovered(group: seq<Sample>): seq<Option<Parsed>> {
    if group == [] then []
    else
      var s := group[|group| - 1];
      Recovered(group[..|group| - 1]) + [Some(Parsed(FullName(s), Expected(s.labels), s.value))]
  }

  lemma {:induction false} OneSampleReadsBack(s: Sample)
    requires '\n' !in s.value
    ensures var line := MetricLine(FullName(s), s.labels, s.value);
      && '\n' !in line && line != "" && line[0] != '#'
      && ReadLine(line) == Some(Parsed(FullName(s), Expected(s.labels), s.value))
  {
    hide MetricName, ReadLine, Expected, Joined;
    MetricNameIsName(s.name, s.unit);
    NamesHaveNoLineFeed(FullName(s));
    JoinedHasNoLineFeed(s.labels);
    LineReadsBack(s.name, s.unit, s.labels, s.value);
    hide IsName;
    assert MetricLine(FullName(s), s.labels, s.value)[0] == FullName(s)[0];
  }

  lemma {:induction false} SampleLinesReadBack(fq: string, group: seq<Sample>)
    requires PlainTexts(group) && forall i | 0 <= i < |group| :: FullName(group[i]) == fq
    ensures forall i | 0 <= i < |SampleLines(fq, group)| :: '\n' !in SampleLines(fq, group)[i]
    ensures ReadSamples(SampleLines(fq, group)) == Recovered(group)
  {
    hide FullName, MetricLine, ReadLine, Expected;
    if group != [] {
      SampleLinesReadBack(fq, group[..|group| - 1]);
      OneSampleReadsBack(group[|group| - 1]);
    }
  }

  lemma {:induction false} ReadSamplesConcat(a: seq<string>, b: seq<string>)
    ensures ReadSamples(a + b) == ReadSamples(a) + ReadSamples(b)
  {
    hide ReadLine;
    if b == [] {
      assert a + b == a;
    } else {
      ReadSamplesConcat(a, b[..|b| - 1]);
      assert (a + b)[..|a + b| - 1] == a + b[..|b| - 1];
    }
  }

  lemma {:induction false} CommentIsSkipped(line: string)
    requires line != "" && line[0] == '#'
    ensures ReadSamples([line]) == []
  {
    hide ReadLine;
    assert [line][..0] == [];
  }

  lemma {:induction false} CommentsAreSkipped(fq: string, s: Sample)
    requires IsName(fq)
    ensures ReadSamples([HelpLine(fq, s), TypeLine(fq, s)]) == []
    ensures '\n' !in HelpLine(fq, s) && '\n' !in TypeLine(fq, s)
  {
    NamesHaveNoLineFeed(fq);
    assert '\n' !in EscapeHelp(s.description) by {
      hide Replace;
      ReplaceRemoves(Replace(s.description, '\\', "\\\\"), '\n', "\\n");
    }
    hide ReadSamples, EscapeHelp, IsName;
    CommentIsSkipped(HelpLine(fq, s));
    CommentIsSkipped(TypeLine(fq, s));
    ReadSamplesConcat([HelpLine(fq, s)], [TypeLine(fq, s)]);
    assert [HelpLine(fq, s)] + [TypeLine(fq, s)] == [HelpLine(fq, s), TypeLine(fq, s)];
  }

  lemma {:induction false} GroupReadsBack(samples: seq<Sample>, fq: string)
    requires PlainTexts(samples) && Group(samples, fq) != []
    ensures var lines := GroupLines(fq, Group(samples, fq));
      && ReadSamples(lines) == Recovered(Group(samples, fq))
      && forall i | 0 <= i < |lines| :: '\n' !in lines[i]
  {
    hide MetricName, ReadSamples, HelpLine, TypeLine, SampleLines, Recovered, Group;
    var group := Group(samples, fq);
    GroupIsPlain(samples, fq);
    MetricNameIsName(group[0].name, group[0].unit);
    assert FullName(group[0]) == fq;
    CommentsAreSkipped(fq, group[0]);
    SampleLinesReadBack(fq, group);
    ReadSamplesConcat([HelpLine(fq, group[0]), TypeLine(fq, group[0])], SampleLines(fq, group));
  }

  ghost function RecoveredPage(samples: seq<Sample>, names: seq<string>): seq<Option<Parsed>> {
    if names == [] then []
    else RecoveredPage(samples, names[..|names| - 1]) + Recovered(Group(samples, names[|names| - 1]))
  }

  lemma {:induction false} PageLinesReadBack(samples: seq<Sample>, names: seq<string>)
    requires PlainTexts(samples) && forall i | 0 <= i < |names| :: Group(samples, names[i]) != []
    ensures ReadSamples(PageLines(samples, names)) == RecoveredPage(samples, names)
    ensures forall i | 0 <= i < |PageLines(samples, names)| :: '\n' !in PageLines(samples, names)[i]
  {
    hide ReadSamples, GroupLines, Group, Recovered, PlainTexts;
    if names == [] {
      NothingToRead();
    } else {
      var front, fq := names[..|names| - 1], names[|names| - 1];
      PageLinesReadBack(samples, front);
      GroupReadsBack(samples, fq);
      ReadSamplesConcat(PageLines(samples, front), GroupLines(fq, Group(samples, fq)));
    }
  }

  lemma {:induction false} NothingToRead()
    ensures ReadSamples([]) == []
  {
  }

  /** Each sample belongs to exactly one group. */
  lemma {:induction false} GroupsPartition(samples: seq<Sample>, names: seq<string>)
    requires Distinct(names)
    requires forall i | 0 <= i < |samples| :: FullName(samples[i]) in names
    ensures |RecoveredPage(samples, names)| == |samples|
  {
    hide RecoveredPage, FullName, Distinct;
    if samples == [] {
      NoSamples(names);
    } else {
      var front, last := samples[..|samples| - 1], samples[|samples| - 1];
      GroupsPartition(front, names);
      OneMoreSample(front, last, names);
      assert samples == front + [last];
    }
  }

  lemma {:induction false} NoSamples(names: seq<string>)
    ensures RecoveredPage([], names) == []
  {
    if names != [] { NoSamples(names[..|names| - 1]); }
  }

  lemma {:induction false} RecoveredLength(group: seq<Sample>)
    ensures |Recovered(group)| == |group|
  {
    if group != [] { RecoveredLength(group[..|group| - 1]); }
  }

  lemma {:induction false} OneMoreSample(samples: seq<Sample>, s: Sample, names: seq<string>)
    requires Distinct(names)
    ensures |RecoveredPage(samples + [s], names)|
         == |RecoveredPage(samples, names)| + if FullName(s) in names then 1 else 0
  {
    hide Recovered, FullName;
    if names != [] {
      var front, fq := names[..|names| - 1], names[|names| - 1];
      OneMoreSample(samples, s, front);
      RecoveredLength(Group(samples, fq));
      RecoveredLength(Group(samples + [s], fq));
      assert (samples + [s])[..|samples|] == samples;
    }
  }

  /**
   A rendered page reads back: its sample lines say, group by group, exactly the samples of
   the store, one line for each, whatever their names, labels and descriptions contain.
   */
  lemma {:induction false} PageReadsBack(samples: seq<Sample>, names: seq<string>)
    requires Names(samples, names) && PlainTexts(samples)
    ensures ReadSamples(SplitLines(Text(PageLines(samples, names)))) == RecoveredPage(samples, names)
    ensures |RecoveredPage(samples, names)| == |samples|
  {
    hide ReadSamples, SplitLines, Text, PageLines, PlainTexts, RecoveredPage, Group, FullName;
    PageLinesReadBack(samples, names);
    LinesSplitBack(PageLines(samples, names));
    GroupsPartition(samples, names);
  }

  // ----- when two samples of a page collide -----

  /** The lines of the two samples name one and the same series: only the values may differ. */
  ghost predicate Collide(a: Sample, b: Sample) {
    var x := ReadLine(MetricLine(FullName(a), a.labels, a.value));
    var y := ReadLine(MetricLine(FullName(b), b.labels, b.value));
    x.Some? && y.Some? && x.value.name == y.value.name && x.value.labels == y.value.labels
  }

  lemma {:induction false} PlainIsKept(s: string, n: nat)
    requires n <= |s| && '_' !in Pushed(s, n)
    ensures Pushed(s, n) == s[..n]
  {
    if n > 0 {
      var p := Pushed(s, n - 1);
      assert forall i | 0 <= i < |p| :: p[i] in Pushed(s, n);
      assert Pushed(s, n)[|Pushed(s, n)| - 1] == Cleaned(s[n - 1]);
      PlainIsKept(s, n - 1);
    }
  }

  /** Exactly when two samples collide, and the label values tell them apart otherwise. */
  lemma {:induction false} CollideExactly(a: Sample, b: Sample)
    ensures Collide(a, b)
       <==> && FullName(a) == FullName(b) && |a.labels| == |b.labels|
            && forall i | 0 <= i < |a.labels| ::
                 a.labels[i].1 == b.labels[i].1 && Sanitized(a.labels[i].0) == Sanitized(b.labels[i].0)
  {
    hide ReadLine, MetricLine, MetricName, Sanitized;
    LineReadsBack(a.name, a.unit, a.labels, a.value);
    LineReadsBack(b.name, b.unit, b.labels, b.value);
    var x, y := Expected(a.labels), Expected(b.labels);
    if Collide(a, b) {
      assert x == y;
      forall i | 0 <= i < |a.labels|
        ensures a.labels[i].1 == b.labels[i].1 && Sanitized(a.labels[i].0) == Sanitized(b.labels[i].0)
      {
        assert x[i] == y[i];
      }
    }
  }

  /** The value under a key that occurs once. */
  ghost predicate HasLabel(labels: Pairs, key: string, value: string) {
    && (key, value) in labels
    && forall i, j | 0 <= i < j < |labels| :: labels[i].0 != labels[j].0
  }

  /** Samples of different collectors never collide, whatever else their labels are. */
  lemma {:induction false} CollectorsNeverCollide(a: Sample, b: Sample, x: string, y: string)
    requires HasLabel(a.labels, "collector", x) && HasLabel(b.labels, "collector", y) && x != y
    ensures !Collide(a, b)
  {
    hide FullName, Collide, Sanitized;
    CollideExactly(a, b);
    if Collide(a, b) {
      var i :| 0 <= i < |a.labels| && a.labels[i] == ("collector", x);
      var j :| 0 <= j < |b.labels| && b.labels[j] == ("collector", y);
      KeyOfCollector(b.labels[i].0);
      assert false;
    }
  }

  lemma {:induction false} KeyOfCollector(key: string)
    ensures Sanitized(key) == Sanitized("collector") ==> key == "collector"
  {
    SanitizedFixesNames("collector");
    if Sanitized(key) == "collector" {
      PlainIsKept(key, |key|);
      assert key[..|key|] == key;
    }
  }

  lemma {:induction false} DotIsReplaced()
    ensures Sanitized("a.b") == "a_b"
  {
    assert Pushed("a.b", 1) == "a" && Pushed("a.b", 2) == "a_" && Pushed("a.b", 3) == "a_b";
  }

  /** Within one collector, names can collide by sanitizing, and by how name and unit are joined. */
  lemma {:induction false} NamesCanCollide()
    ensures MetricName("a.b", "") == MetricName("a_b", "")
    ensures MetricName("a", "b_c") == MetricName("a_b", "c")
  {
    hide Sanitized;
    DotIsReplaced();
    SanitizedFixesNames("a");
    SanitizedFixesNames("c");
    SanitizedFixesNames("a_b");
    SanitizedFixesNames("b_c");
    assert "bus_" + "a" + "_" + "b_c" == "bus_" + "a_b" + "_" + "c";
  }

  /** Unit-less samples with equal label values collide exactly if their names are sanitized alike: valid names never. */
  lemma {:induction false} UnitlessCollideExactly(a: Sample, b: Sample)
    requires a.unit == b.unit == "" && a.labels == b.labels
    ensures Collide(a, b) <==> Sanitized(a.name) == Sanitized(b.name)
    ensures IsName(a.name) && IsName(b.name) ==> (Collide(a, b) <==> a.name == b.name)
  {
    hide Collide, Sanitized, MetricName;
    CollideExactly(a, b);
    SameUnitExactly(a.name, b.name, "");
    SanitizedFixesNames(a.name);
    SanitizedFixesNames(b.name);
  }

  // ----- the comments of a page -----

  datatype Comment = Help(name: string, text: string) | Kind(name: string, metricType: MetricType)

  /** A comment of the text format: what follows `# HELP ` or `# TYPE `, a name and a blank. */
  function ReadComment(line: string): Option<Comment> {
    if !("# HELP " <= line || "# TYPE " <= line) then None
    else
      var rest := line[7..];
      var n := NameLength(rest);
      if |rest| <= n || rest[n] != ' ' then None
      else if "# HELP " <= line then Some(Help(rest[..n], Unescaped(rest[n + 1..])))
      else if rest[n + 1..] == "gauge" then Some(Kind(rest[..n], Gauge))
      else if rest[n + 1..] == "counter" then Some(Kind(rest[..n], Counter))
      else None
  }

  lemma {:induction false} CommentSplits(head: string, fq: string, text: string)
    requires |head| == 7 && IsName(fq)
    ensures var line := head + fq + " " + text;
      && head <= line
      && var rest := line[7..];
         && |fq| < |rest| && NameLength(rest) == |fq| && rest[..|fq|] == fq && rest[|fq|] == ' ' && rest[|fq| + 1..] == text
  {
    var line := head + fq + " " + text;
    assert line == head + (fq + (" " + text));
    assert line[7..] == fq + (" " + text);
    NameLengthOf(fq, " " + text);
    assert (fq + (" " + text))[|fq| + 1..] == text;
  }

  /** The two comments of a group read back: the name, the description, and the type. */
  lemma {:induction false} CommentsReadBack(fq: string, s: Sample)
    requires IsName(fq)
    ensures ReadComment(HelpLine(fq, s)) == Some(Help(fq, s.description))
    ensures ReadComment(TypeLine(fq, s)) == Some(Kind(fq, s.metricType))
  {
    hide EscapeHelp, Unescaped, NameLength, IsName;
    CommentSplits("# HELP ", fq, EscapeHelp(s.description));
    CommentSplits("# TYPE ", fq, TypeText(s.metricType));
    HelpReadsBack(s.description);
    assert HelpLine(fq, s)[2] == 'H' && TypeLine(fq, s)[2] == 'T';
  }

  /** The comments among the lines; a sample's line begins with its name. */
  function ReadComments(lines: seq<string>): seq<Option<Comment>> {
    if lines == [] then []
    else
      var front, last := ReadComments(lines[..|lines| - 1]), lines[|lines| - 1];
      if last != "" && last[0] == '#' then front + [ReadComment(last)] else front
  }

  function CommentsOf(fq: string, s: Sample): seq<Option<Comment>> {
    [Some(Help(fq, s.description)), Some(Kind(fq, s.metricType))]
  }

  /** One HELP and one TYPE per full name, with the description and the type of its first sample. */
  ghost function PageComments(samples: seq<Sample>, names: seq<string>): seq<Option<Comment>>
    requires forall i | 0 <= i < |names| :: Group(samples, names[i]) != []
  {
    if names == [] then []
    else
      var fq := names[|names| - 1];
      PageComments(samples, names[..|names| - 1]) + CommentsOf(fq, Group(samples, fq)[0])
  }

  lemma {:induction false} ReadCommentsConcat(a: seq<string>, b: seq<string>)
    ensures ReadComments(a + b) == ReadComments(a) + ReadComments(b)
  {
    hide ReadComment;
    if b == [] {
      assert a + b == a;
    } else {
      ReadCommentsConcat(a, b[..|b| - 1]);
      assert (a + b)[..|a + b| - 1] == a + b[..|b| - 1];
    }
  }

  lemma {:induction false} SampleLinesAreNoComments(fq: string, group: seq<Sample>)
    requires IsName(fq)
    ensures ReadComments(SampleLines(fq, group)) == []
  {
    hide ReadComment, Joined;
    if group != [] {
      SampleLinesAreNoComments(fq, group[..|group| - 1]);
      var s := group[|group| - 1];
      assert MetricLine(fq, s.labels, s.value)[0] == fq[0];
    }
  }

  lemma {:induction false} OneComment(line: string)
    requires line != "" && line[0] == '#'
    ensures ReadComments([line]) == [ReadComment(line)]
  {
    hide ReadComment;
    assert [line][..0] == [];
  }

  lemma {:induction false} GroupCommentsReadBack(fq: string, group: seq<Sample>)
    requires IsName(fq) && group != []
    ensures ReadComments(GroupLines(fq, group)) == CommentsOf(fq, group[0])
  {
    hide ReadComments, ReadComment, SampleLines, IsName, EscapeHelp;
    var help, kind := HelpLine(fq, group[0]), TypeLine(fq, group[0]);
    CommentsReadBack(fq, group[0]);
    OneComment(help);
    OneComment(kind);
    ReadCommentsConcat([help], [kind]);
    SampleLinesAreNoComments(fq, group);
    ReadCommentsConcat([help] + [kind], SampleLines(fq, group));
    assert [help] + [kind] == [help, kind];
  }

  lemma {:induction false} PageCommentsSplit(samples: seq<Sample>, names: seq<string>)
    requires forall i | 0 <= i < |names| :: IsName(names[i]) && Group(samples, names[i]) != []
    ensures ReadComments(PageLines(samples, names)) == PageComments(samples, names)
  {
    hide ReadComments, GroupLines, Group, CommentsOf, IsName;
    if names == [] {
      NoComments();
    } else {
      var front, fq := names[..|names| - 1], names[|names| - 1];
      PageCommentsSplit(samples, front);
      GroupCommentsReadBack(fq, Group(samples, fq));
      ReadCommentsConcat(PageLines(samples, front), GroupLines(fq, Group(samples, fq)));
    }
  }

  lemma {:induction false} NoComments()
    ensures ReadComments([]) == []
  {
  }

  lemma {:induction false} GroupsAreNamed(samples: seq<Sample>, fq: string)
    requires Group(samples, fq) != []
    ensures IsName(fq)
  {
    GroupNames(samples, fq);
    var i :| 0 <= i < |samples| && FullName(samples[i]) == fq;
    MetricNameIsName(samples[i].name, samples[i].unit);
  }

  /** The comments of a rendered page read back: name, description and type, one pair per full name. */
  lemma {:induction false} PageCommentsReadBack(samples: seq<Sample>, names: seq<string>)
    requires Names(samples, names) && PlainTexts(samples)
    ensures ReadComments(SplitLines(Text(PageLines(samples, names)))) == PageComments(samples, names)
  {
    hide ReadComments, SplitLines, Text, PageLines, PlainTexts, PageComments, Group, IsName, FullName;
    PageLinesReadBack(samples, names);
    LinesSplitBack(PageLines(samples, names));
    forall i | 0 <= i < |names| ensures IsName(names[i]) {
      GroupsAreNamed(samples, names[i]);
    }
    PageCommentsSplit(samples, names);
  }
}
