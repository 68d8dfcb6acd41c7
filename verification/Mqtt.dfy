/**
 The MQTT topic grammar (grammar.rs of the MQTT connector; MQTT 3.1.1 section 4.7): compiling a
 pattern to levels, matching a topic against them and whether one filter covers another.
 */
module Mqtt {
  import opened Wrappers
  import opened Levels
  import opened TopicPatterns
  import opened Routers

  datatype Level = Literal(text: string) | Single(capture: Option<nat>) | Multi(capture: Option<nat>)

  /** A level as written: its text and the number of its capture, with whether that takes the rest. */
  datatype Raw = Raw(text: string, capture: Option<(nat, bool)>)

  datatype CompileError = CaptureInLevel | WildcardInLevel(text: string) | MultiNotLast

  datatype Compiled = Compiled(filter: string, levels: seq<Level>)

  predicate KnownCapture(level: Level) {
    level.Literal? || level.capture.None? || level.capture.value < MAX_CAPTURES
  }

  predicate WellFormed(f: Compiled) {
    forall i :: 0 <= i < |f.levels| ==> KnownCapture(f.levels[i])
  }

  type MqttFilter = f: Compiled | WellFormed(f) witness Compiled("", [])

  // ----- Compiling -----

  const OPEN := Raw("", None)

  /** raw with the first n segments appended: the first to its last level, each other one as a level. */
  function Append(raw: seq<Raw>, segments: seq<string>, n: nat): (r: seq<Raw>)
    requires raw != [] && n <= |segments|
    ensures |r| == |raw| + if n == 0 then 0 else n - 1
  {
    if n == 0 then raw
    else
      var before := Append(raw, segments, n - 1);
      AddText(if n > 1 then before + [OPEN] else before, segments[n - 1])
  }

  function AddText(raw: seq<Raw>, text: string): (r: seq<Raw>)
    requires raw != []
    ensures |r| == |raw|
  {
    var last := raw[|raw| - 1];
    raw[|raw| - 1 := last.(text := last.text + text)]
  }

  /** The last level holds capture number c. */
  function Capturing(raw: seq<Raw>, c: nat, multi: bool): (r: seq<Raw>)
    requires raw != []
    ensures |r| == |raw|
  {
    raw[|raw| - 1 := raw[|raw| - 1].(capture := Some((c, multi)))]
  }

  /** The levels of the first n parts as written; an error when two captures meet in one level. */
  function RawOf(parts: seq<Part>, n: nat): (r: Result<seq<Raw>, CompileError>)
    requires n <= |parts|
    ensures r.Success? ==> r.value != []
  {
    if n == 0 then Success([OPEN])
    else
      var raw :- RawOf(parts, n - 1);
      match parts[n - 1]
      case Text(t) => Success(Append(raw, Split(t), |Split(t)|))
      case Capture(_, multi) =>
        if raw[|raw| - 1].capture.Some? then Failure(CaptureInLevel)
        else Success(Capturing(raw, CaptureCount(parts, n - 1), multi))
  }

  predicate HasWildcard(text: string) {
    '+' in text || '#' in text
  }

  /** What a level compiles to, wherever it stands. */
  function LevelOf(raw: Raw): Result<Level, CompileError> {
    if raw.capture.Some? then
      if raw.text != "" then Failure(CaptureInLevel)
      else if raw.capture.value.1 then Success(Multi(Some(raw.capture.value.0)))
      else Success(Single(Some(raw.capture.value.0)))
    else if raw.text == "+" then Success(Single(None))
    else if raw.text == "#" then Success(Multi(None))
    else if HasWildcard(raw.text) then Failure(WildcardInLevel(raw.text))
    else Success(Literal(raw.text))
  }

  /** The first n levels compiled; only the last of all may take the rest. */
  function LevelsOf(raw: seq<Raw>, n: nat): (r: Result<seq<Level>, CompileError>)
    requires n <= |raw|
    ensures r.Success? ==> |r.value| == n
  {
    if n == 0 then Success([])
    else
      var levels :- LevelsOf(raw, n - 1);
      var level :- LevelOf(raw[n - 1]);
      if level.Multi? && n < |raw| then Failure(MultiNotLast) else Success(levels + [level])
  }

  function Render(level: Level): string {
    match level
    case Literal(text) => text
    case Single(_) => "+"
    case Multi(_) => "#"
  }

  function Rendered(levels: seq<Level>): (ls: seq<string>)
    ensures |ls| == |levels| && forall i :: 0 <= i < |ls| ==> ls[i] == Render(levels[i])
  {
    seq(|levels|, i requires 0 <= i < |levels| => Render(levels[i]))
  }

  function CompiledOf(parts: seq<Part>): Result<Compiled, CompileError> {
    var raw :- RawOf(parts, |parts|);
    var levels :- LevelsOf(raw, |raw|);
    Success(Compiled(Join(Rendered(levels)), levels))
  }

  method Compile(parts: seq<Part>) returns (r: Result<Compiled, CompileError>)
    ensures r == CompiledOf(parts)
  {
    var written := Write(parts);
    if written.Failure? {
      return Failure(written.error);
    }
    var raw, levels := written.value, [];
    for i := 0 to |raw|
      invariant LevelsOf(raw, i) == Success(levels)
    {
      var level := LevelOf(raw[i]);
      if level.Failure? {
        LevelsStayFailed(raw, i + 1, |raw|);
        return Failure(level.error);
      }
      if level.value.Multi? && i != |raw| - 1 {
        LevelsStayFailed(raw, i + 1, |raw|);
        return Failure(MultiNotLast);
      }
      levels := levels + [level.value];
    }
    r := Success(Compiled(Join(Rendered(levels)), levels));
  }

  /** The loop over the parts. */
  method Write(parts: seq<Part>) returns (r: Result<seq<Raw>, CompileError>)
    ensures r == RawOf(parts, |parts|)
  {
    var raw, captures := [OPEN], 0;
    for n := 0 to |parts|
      invariant RawOf(parts, n) == Success(raw) && captures == CaptureCount(parts, n)
    {
      match parts[n] {
        case Text(text) =>
          raw := AppendText(raw, text);
        case Capture(_, multi) =>
          if raw[|raw| - 1].capture.Some? {
            RawStaysFailed(parts, n + 1, |parts|);
            return Failure(CaptureInLevel);
          }
          raw := Capturing(raw, captures, multi);
          captures := captures + 1;
      }
    }
    r := Success(raw);
  }

  method AppendText(before: seq<Raw>, text: string) returns (raw: seq<Raw>)
    requires before != []
    ensures raw == Append(before, Split(text), |Split(text)|)
  {
    var segments := Split(text);
    raw := before;
    for i := 0 to |segments|
      invariant raw == Append(before, segments, i)
    {
      if i > 0 {
        raw := raw + [OPEN];
      }
      raw := AddText(raw, segments[i]);
    }
  }

  lemma {:induction false} RawStaysFailed(parts: seq<Part>, n: nat, m: nat)
    requires n <= m <= |parts| && RawOf(parts, n).Failure?
    ensures RawOf(parts, m) == RawOf(parts, n)
  {
    if n < m {
      RawStaysFailed(parts, n, m - 1);
    }
  }

  lemma {:induction false} LevelsStayFailed(raw: seq<Raw>, n: nat, m: nat)
    requires n <= m <= |raw| && LevelsOf(raw, n).Failure?
    ensures LevelsOf(raw, m) == LevelsOf(raw, n)
  {
    if n < m {
      LevelsStayFailed(raw, n, m - 1);
    }
  }

  predicate IsLiteral(f: Compiled) {
    forall i :: 0 <= i < |f.levels| ==> f.levels[i].Literal?
  }

  // ----- Matching -----

  /** A first level, or a topic, that wildcards do not match. */
  predicate Hidden(text: string) {
    text != "" && text[0] == '$'
  }

  function U16(n: nat): nat {
    n % 0x1_0000
  }

  function Cutout(start: nat, end: nat): (nat, nat) {
    (U16(start), U16(end))
  }

  /** The spans with that of a capture written, if there is one. */
  function Noted(spans: Spans, capture: Option<nat>, span: (nat, nat)): Spans
    requires capture.Some? ==> capture.value < MAX_CAPTURES
  {
    if capture.Some? then spans[capture.value := span] else spans
  }

  /** One level compared with a text that starts at start: the spans after it, unless they differ. */
  function OneLevel(level: Level, first: bool, text: string, start: nat, spans: Spans): Option<Spans>
    requires KnownCapture(level) && !level.Multi?
  {
    match level
    case Literal(lit) => if lit != text then None else Some(spans)
    case Single(capture) =>
      if first && Hidden(text) then None else Some(Noted(spans, capture, Cutout(start, start + |text|)))
  }

  /** Matching from level i on, against a topic of the given length with levels ls. */
  function MatchFrom(f: MqttFilter, ls: seq<string>, length: nat, i: nat, spans: Spans): (bool, Spans)
    requires i <= |f.levels| && ls != []
    decreases |f.levels| - i
  {
    if i == |f.levels| then (i == |ls|, spans)
    else
      assert KnownCapture(f.levels[i]);
      if f.levels[i].Multi? then
        if i == 0 && Hidden(ls[0]) then (false, spans)
        else (true, Noted(spans, f.levels[i].capture, Cutout(if i < |ls| then Offset(ls, i) else length, length)))
      else if i >= |ls| then (false, spans)
      else
        var next := OneLevel(f.levels[i], i == 0, ls[i], Offset(ls, i), spans);
        if next.None? then (false, spans) else MatchFrom(f, ls, length, i + 1, next.value)
  }

  function Match(f: MqttFilter, topic: string, spans: Spans): (bool, Spans) {
    MatchFrom(f, Split(topic), |topic|, 0, spans)
  }

  method Matches(f: MqttFilter, topic: string, spans: Spans) returns (hit: bool, written: Spans)
    ensures (hit, written) == Match(f, topic, spans)
  {
    written := spans;
    var rest, pos := Some(topic), 0;
    ghost var ls := Split(topic);
    for i := 0 to |f.levels|
      invariant RestIs(rest, ls, i) && pos == Offset(ls, i)
      invariant MatchFrom(f, ls, |topic|, i, written) == Match(f, topic, spans)
    {
      var level := f.levels[i];
      assert KnownCapture(level);
      if level.Multi? {
        FirstChar(topic);
        if i == 0 && Hidden(topic) {
          return false, written;
        }
        return true, Noted(written, level.capture, Cutout(if rest.Some? then pos else |topic|, |topic|));
      }
      MatchStep(f, ls, |topic|, i, written);
      var next := MatchLevel(level, i == 0, rest, pos, written, ls, i);
      if next.None? {
        return false, written;
      }
      rest, pos, written := next.value.0, next.value.1, next.value.2;
    }
    hit := rest.None?;
  }

  /** Takes one level off the rest, if it matches; the rest behind it, where that starts, and the spans. */
  method MatchLevel(level: Level, first: bool, rest: Option<string>, pos: nat, spans: Spans, ghost ls: seq<string>,
        ghost i: nat)
    returns (r: Option<(Option<string>, nat, Spans)>)
    requires KnownCapture(level) && !level.Multi? && RestIs(rest, ls, i) && pos == Offset(ls, i)
    ensures i >= |ls| ==> r.None?
    ensures i < |ls| ==>
      var next := OneLevel(level, first, ls[i], pos, spans);
      && (next.None? ==> r.None?)
      && (next.Some? ==> r.Some? && RestIs(r.value.0, ls, i + 1) && r.value.1 == Offset(ls, i + 1) && r.value.2 == next.value)
  {
    if rest.None? {
      return None;
    }
    var (text, next) := SplitOnce(rest.value);
    NextRest(rest.value, ls, i);
    var spans' := OneLevel(level, first, text, pos, spans);
    if spans'.None? {
      return None;
    }
    r := Some((next, pos + |text| + 1, spans'.value));
  }

  lemma MatchStep(f: MqttFilter, ls: seq<string>, length: nat, i: nat, spans: Spans)
    requires i < |f.levels| && ls != [] && KnownCapture(f.levels[i]) && !f.levels[i].Multi?
    ensures i >= |ls| ==> MatchFrom(f, ls, length, i, spans) == (false, spans)
    ensures i < |ls| ==>
      var next := OneLevel(f.levels[i], i == 0, ls[i], Offset(ls, i), spans);
      MatchFrom(f, ls, length, i, spans) == if next.None? then (false, spans) else MatchFrom(f, ls, length, i + 1, next.value)
  {
  }

  /** The levels from i on are those of rest; there is no rest after the last one. */
  ghost predicate RestIs(rest: Option<string>, ls: seq<string>, i: nat) {
    i <= |ls| && ls[i..] == if rest.Some? then Split(rest.value) else []
  }

  lemma NextRest(rest: string, ls: seq<string>, i: nat)
    requires RestIs(Some(rest), ls, i)
    ensures var (text, next) := SplitOnce(rest); i < |ls| && text == ls[i] && RestIs(next, ls, i + 1)
  {
    var (text, next) := SplitOnce(rest);
    SplitOnceIs(rest);
    assert ls[i] == ls[i..][0] && ls[i + 1..] == ls[i..][1..];
  }

  /** A topic begins with a dollar sign exactly when its first level does. */
  lemma FirstChar(topic: string)
    ensures Hidden(Split(topic)[0]) <==> Hidden(topic)
  {
    SplitOnceIs(topic);
  }

  /** What the router and the broker are given of a compiled pattern. */
  function AsFilter(f: MqttFilter): TopicFilter {
    TopicFilter(f.filter, IsLiteral(f), (topic, spans) => Match(f, topic, spans))
  }

  // ----- Covering -----

  /** Whether the levels a cover the levels b, compared from level i on. */
  predicate CoversFrom(a: seq<string>, b: seq<string>, i: nat)
    requires i <= |a| && i <= |b|
    decreases |a| - i
  {
    if i == |a| then i == |b|
    else if a[i] == "#" then i > 0 || i == |b| || !Hidden(b[i])
    else if i == |b| then false
    else if a[i] == "+" then b[i] != "#" && !(i == 0 && Hidden(b[i])) && CoversFrom(a, b, i + 1)
    else a[i] == b[i] && CoversFrom(a, b, i + 1)
  }

  predicate MqttCovers(a: string, b: string) {
    CoversFrom(Split(a), Split(b), 0)
  }

  method Covers(a: string, b: string) returns (r: bool)
    ensures r == MqttCovers(a, b)
  {
    var xs, ys := Split(a), Split(b);
    var i := 0;
    while true
      invariant i <= |xs| && i <= |ys| && CoversFrom(xs, ys, i) == MqttCovers(a, b)
      decreases |xs| - i
    {
      if i < |xs| && xs[i] == "#" {
        return i > 0 || i == |ys| || !Hidden(ys[i]);
      } else if i < |xs| && i < |ys| && xs[i] == "+" && ys[i] != "#" {
        if i == 0 && Hidden(ys[i]) {
          return false;
        }
      } else if i < |xs| && i < |ys| && xs[i] == ys[i] && xs[i] != "+" {
      } else {
        return i == |xs| && i == |ys|;
      }
      i := i + 1;
    }
  }
}
