/**
 Which patterns the MQTT grammar compiles, what their levels mean, and which stretch of a topic
 each capture is given.
 */
module MqttPatterns {
  import opened Wrappers
  import opened Lists
  import opened Levels
  import opened TopicPatterns
  import opened Routers
  import opened Mqtt
  import opened MqttTopics

  // ----- Levels as written -----

  type CapturePart = p: Part | p.Capture? witness Capture("", false)

  /** The captures among the first n parts. */
  function Captures(parts: seq<Part>, n: nat): (cs: seq<CapturePart>)
    requires n <= |parts|
    ensures |cs| == CaptureCount(parts, n)
  {
    if n == 0 then [] else Captures(parts, n - 1) + if parts[n - 1].Capture? then [parts[n - 1]] else []
  }

  /** The level l is the raw level's text with its capture, if any, printed somewhere in it. */
  ghost predicate Spelled(raw: Raw, l: string, cs: seq<CapturePart>) {
    && NoBraces(raw.text)
    && if raw.capture.None? then l == raw.text
      else
        && raw.capture.value.0 < |cs| && cs[raw.capture.value.0].multi == raw.capture.value.1
        && exists k :: SpelledAt(raw.text, k, PrintPart(cs[raw.capture.value.0]), l)
  }

  predicate SpelledAt(text: string, k: int, capture: string, l: string) {
    0 <= k <= |text| && l == text[..k] + capture + text[k..]
  }

  ghost predicate AllSpelled(raw: seq<Raw>, ls: seq<string>, cs: seq<CapturePart>) {
    |raw| == |ls| && forall i :: 0 <= i < |raw| ==> Spelled(raw[i], ls[i], cs)
  }

  lemma SpelledText(raw: Raw, l: string, cs: seq<CapturePart>, text: string)
    requires Spelled(raw, l, cs) && NoBraces(text)
    ensures Spelled(raw.(text := raw.text + text), l + text, cs)
  {
    if raw.capture.Some? {
      var capture := PrintPart(cs[raw.capture.value.0]);
      var k :| SpelledAt(raw.text, k, capture, l);
      assert (raw.text + text)[..k] == raw.text[..k] && (raw.text + text)[k..] == raw.text[k..] + text;
      assert SpelledAt(raw.text + text, k, capture, l + text);
    }
  }

  lemma SpelledCapture(raw: Raw, l: string, cs: seq<CapturePart>, part: CapturePart)
    requires Spelled(raw, l, cs) && raw.capture.None?
    ensures Spelled(raw.(capture := Some((|cs|, part.multi))), l + PrintPart(part), cs + [part])
  {
    assert raw.text[..|raw.text|] == raw.text && raw.text[|raw.text|..] == "";
    assert SpelledAt(raw.text, |raw.text|, PrintPart(part), l + PrintPart(part));
  }

  lemma SpelledLater(raw: Raw, l: string, cs: seq<CapturePart>, part: CapturePart)
    requires Spelled(raw, l, cs)
    ensures Spelled(raw, l, cs + [part])
  {
  }

  /** Levels after a text, whose first level joins the last one there. */
  function Grown(ls: seq<string>, segments: seq<string>, n: nat): (r: seq<string>)
    requires ls != [] && n <= |segments|
    ensures |r| == |ls| + if n == 0 then 0 else n - 1
  {
    if n == 0 then ls
    else if n == 1 then ls[|ls| - 1 := ls[|ls| - 1] + segments[0]]
    else Grown(ls, segments, n - 1) + [segments[n - 1]]
  }

  lemma {:induction false} GrownIs(ls: seq<string>, segments: seq<string>, n: nat)
    requires ls != [] && 0 < n <= |segments|
    ensures Grown(ls, segments, n) == ls[..|ls| - 1] + [ls[|ls| - 1] + segments[0]] + segments[1..n]
  {
    if n > 1 {
      GrownIs(ls, segments, n - 1);
      assert segments[1..n] == segments[1..n - 1] + [segments[n - 1]];
    }
  }

  lemma GrownSplit(s: string, t: string)
    ensures Grown(Split(s), Split(t), |Split(t)|) == Split(s + t)
  {
    var a, b := CutAll(s), CutAll(t);
    CutAllAppend(s, t);
    GrownIs(Split(s), Split(t), |Split(t)|);
    assert Split(t)[1..|Split(t)|] == if b.done == [] then [] else b.done[1..] + [b.last];
  }

  lemma {:induction false} AppendSpelled(raw: seq<Raw>, ls: seq<string>, cs: seq<CapturePart>, segments: seq<string>, n: nat)
    requires raw != [] && n <= |segments| && AllSpelled(raw, ls, cs)
    requires forall i :: 0 <= i < |segments| ==> NoBraces(segments[i])
    ensures AllSpelled(Append(raw, segments, n), Grown(ls, segments, n), cs)
  {
    if n > 0 {
      AppendSpelled(raw, ls, cs, segments, n - 1);
      var before, grown := Append(raw, segments, n - 1), Grown(ls, segments, n - 1);
      if n == 1 {
        SpelledText(raw[|raw| - 1], ls[|ls| - 1], cs, segments[0]);
      } else {
        assert "" + segments[n - 1] == segments[n - 1];
      }
    }
  }

  /** A level with two captures. */
  ghost predicate TwoOpen(l: string) {
    exists i, j :: 0 <= i < j < |l| && l[i] == '{' && l[j] == '{'
  }

  ghost predicate Clash(ls: seq<string>) {
    exists i :: 0 <= i < |ls| && TwoOpen(ls[i])
  }

  /** What is written so far: the raw levels spell it, or two captures stand in one of its levels. */
  ghost predicate Matched(r: Result<seq<Raw>, CompileError>, ls: seq<string>, cs: seq<CapturePart>) {
    if r.Success? then AllSpelled(r.value, ls, cs) else r.error == CaptureInLevel && Clash(ls)
  }

  lemma TwoOpenGrows(l: string, more: string)
    requires TwoOpen(l)
    ensures TwoOpen(l + more)
  {
    var i, j :| 0 <= i < j < |l| && l[i] == '{' && l[j] == '{';
    assert (l + more)[i] == '{' && (l + more)[j] == '{';
  }

  lemma ClashGrows(ls: seq<string>, segments: seq<string>, n: nat)
    requires ls != [] && 0 < n <= |segments| && Clash(ls)
    ensures Clash(Grown(ls, segments, n))
  {
    GrownIs(ls, segments, n);
    var i :| 0 <= i < |ls| && TwoOpen(ls[i]);
    TwoOpenGrows(ls[i], segments[0]);
    assert TwoOpen(Grown(ls, segments, n)[i]);
  }

  lemma {:induction false} SegmentsClean(t: string, n: nat)
    requires n <= |t| && NoBraces(t)
    ensures NoBraces(CutTo(t, n).last) && forall i :: 0 <= i < |CutTo(t, n).done| ==> NoBraces(CutTo(t, n).done[i])
  {
    if n > 0 {
      SegmentsClean(t, n - 1);
    }
  }

  lemma CaptureIsLevel(part: CapturePart)
    requires IsName(part.name)
    ensures Split(PrintPart(part)) == [PrintPart(part)]
  {
    CutAllFree(PrintPart(part));
  }

  lemma MatchedText(r: Result<seq<Raw>, CompileError>, s: string, cs: seq<CapturePart>, t: string)
    requires (r.Success? ==> r.value != []) && Matched(r, Split(s), cs) && NoBraces(t)
    ensures Matched(AfterText(r, t), Split(s + t), cs)
  {
    GrownSplit(s, t);
    if r.Success? {
      SegmentsClean(t, |t|);
      AppendSpelled(r.value, Split(s), cs, Split(t), |Split(t)|);
    } else {
      ClashGrows(Split(s), Split(t), |Split(t)|);
    }
  }

  /** The raw levels after a text, and after a capture. */
  function AfterText(r: Result<seq<Raw>, CompileError>, t: string): Result<seq<Raw>, CompileError>
    requires r.Success? ==> r.value != []
  {
    if r.Success? then Success(Append(r.value, Split(t), |Split(t)|)) else r
  }

  function AfterCapture(r: Result<seq<Raw>, CompileError>, c: nat, multi: bool): Result<seq<Raw>, CompileError>
    requires r.Success? ==> r.value != []
  {
    if r.Failure? then r
    else if r.value[|r.value| - 1].capture.Some? then Failure(CaptureInLevel)
    else Success(Capturing(r.value, c, multi))
  }

  lemma RawStep(parts: seq<Part>, n: nat)
    requires n < |parts|
    ensures parts[n].Text? ==> RawOf(parts, n + 1) == AfterText(RawOf(parts, n), parts[n].t)
    ensures parts[n].Capture? ==>
      RawOf(parts, n + 1) == AfterCapture(RawOf(parts, n), |Captures(parts, n)|, parts[n].multi)
  {
  }

  lemma CapturesStep(parts: seq<Part>, n: nat)
    requires n < |parts|
    ensures parts[n].Text? ==> Captures(parts, n + 1) == Captures(parts, n) && PrintPart(parts[n]) == parts[n].t
    ensures parts[n].Capture? ==> Captures(parts, n + 1) == Captures(parts, n) + [parts[n]]
  {
  }

  lemma CaptureSplit(s: string, part: CapturePart)
    requires IsName(part.name)
    ensures var ls, last := Split(s), |Split(s)| - 1;
      Split(s + PrintPart(part)) == ls[last := ls[last] + PrintPart(part)]
  {
    GrownSplit(s, PrintPart(part));
    CaptureIsLevel(part);
  }

  lemma MatchedCapture(r: Result<seq<Raw>, CompileError>, s: string, cs: seq<CapturePart>, part: CapturePart)
    requires (r.Success? ==> r.value != []) && Matched(r, Split(s), cs) && IsName(part.name)
    ensures Matched(AfterCapture(r, |cs|, part.multi), Split(s + PrintPart(part)), cs + [part])
  {
    CaptureSplit(s, part);
    LastGrows(r, Split(s), cs, part);
  }

  lemma ClashStays(ls: seq<string>, more: string)
    requires ls != [] && Clash(ls)
    ensures Clash(ls[|ls| - 1 := ls[|ls| - 1] + more])
  {
    ClashGrows(ls, [more], 1);
    assert Grown(ls, [more], 1) == ls[|ls| - 1 := ls[|ls| - 1] + more];
  }

  /** A capture printed after the last level. */
  lemma LastGrows(r: Result<seq<Raw>, CompileError>, ls: seq<string>, cs: seq<CapturePart>, part: CapturePart)
    requires (r.Success? ==> r.value != []) && ls != [] && Matched(r, ls, cs)
    ensures Matched(AfterCapture(r, |cs|, part.multi), ls[|ls| - 1 := ls[|ls| - 1] + PrintPart(part)], cs + [part])
  {
    if r.Failure? {
      ClashStays(ls, PrintPart(part));
    } else if r.value[|ls| - 1].capture.Some? {
      ClashNow(r.value, ls, cs, part);
    } else {
      CapturingSpelled(r.value, ls, cs, part);
    }
  }

  lemma CapturingSpelled(raw: seq<Raw>, ls: seq<string>, cs: seq<CapturePart>, part: CapturePart)
    requires raw != [] && AllSpelled(raw, ls, cs) && raw[|raw| - 1].capture.None?
    ensures AllSpelled(Capturing(raw, |cs|, part.multi), ls[|ls| - 1 := ls[|ls| - 1] + PrintPart(part)], cs + [part])
  {
    forall i | 0 <= i < |ls| - 1
      ensures Spelled(raw[i], ls[i], cs + [part])
    {
      SpelledLater(raw[i], ls[i], cs, part);
    }
    SpelledCapture(raw[|raw| - 1], ls[|ls| - 1], cs, part);
  }

  lemma ClashNow(raw: seq<Raw>, ls: seq<string>, cs: seq<CapturePart>, part: CapturePart)
    requires raw != [] && AllSpelled(raw, ls, cs) && raw[|raw| - 1].capture.Some?
    ensures Clash(ls[|ls| - 1 := ls[|ls| - 1] + PrintPart(part)])
  {
    SecondCapture(raw[|ls| - 1], ls[|ls| - 1], cs, PrintPart(part));
    assert TwoOpen(ls[|ls| - 1 := ls[|ls| - 1] + PrintPart(part)][|ls| - 1]);
  }

  lemma SecondCapture(raw: Raw, l: string, cs: seq<CapturePart>, shown: string)
    requires Spelled(raw, l, cs) && raw.capture.Some? && shown != "" && shown[0] == '{'
    ensures TwoOpen(l + shown)
  {
    var capture := PrintPart(cs[raw.capture.value.0]);
    var k :| SpelledAt(raw.text, k, capture, l);
    assert (l + shown)[k] == capture[0] == '{' && (l + shown)[|l|] == '{';
  }

  /** What is known after some parts: the raw levels, the text printed and the captures. */
  datatype Progress = Progress(raw: Result<seq<Raw>, CompileError>, text: string, cs: seq<CapturePart>)

  const START := Progress(Success([OPEN]), "", [])

  predicate Started(p: Progress) {
    p.raw.Success? ==> p.raw.value != []
  }

  /** The raw levels spell the levels printed, unless two captures stand in one. */
  ghost predicate Sound(p: Progress) {
    Started(p) && Matched(p.raw, Split(p.text), p.cs)
  }

  /** One more part, printed as given. */
  function Next(p: Progress, part: Part, printed: string): Progress
    requires Started(p)
  {
    match part
    case Text(t) => Progress(AfterText(p.raw, t), p.text + printed, p.cs)
    case Capture(_, multi) => Progress(AfterCapture(p.raw, |p.cs|, multi), p.text + printed, p.cs + [part])
  }

  lemma NextSound(p: Progress, part: Part)
    requires Sound(p) && GoodPart(part)
    ensures Sound(Next(p, part, PrintPart(part)))
  {
    if part.Text? {
      MatchedText(p.raw, p.text, p.cs, part.t);
    } else {
      MatchedCapture(p.raw, p.text, p.cs, part);
    }
  }

  function After(parts: seq<Part>, ss: seq<string>, n: nat): (p: Progress)
    requires n <= |parts| == |ss|
    ensures Started(p)
  {
    if n == 0 then START else Next(After(parts, ss, n - 1), parts[n - 1], ss[n - 1])
  }

  lemma {:induction false} AfterIs(parts: seq<Part>, ss: seq<string>, n: nat)
    requires n <= |parts| == |ss|
    ensures After(parts, ss, n).raw == RawOf(parts, n) && After(parts, ss, n).cs == Captures(parts, n)
  {
    if n > 0 {
      AfterIs(parts, ss, n - 1);
      RawStep(parts, n - 1);
      CapturesStep(parts, n - 1);
    }
  }

  lemma {:induction false} PrintedSoFar(parts: seq<Part>, ss: seq<string>, n: nat)
    requires n <= |parts| == |ss|
    ensures After(parts, ss, n).text == Flatten(ss, n)
  {
    if n > 0 {
      PrintedSoFar(parts, ss, n - 1);
    }
  }

  /** What holds at the start and is kept by every part holds after all of them. */
  lemma {:induction false} AfterKeeps(parts: seq<Part>, ss: seq<string>, inv: Progress -> bool, n: nat)
    requires n <= |parts| == |ss| && inv(START)
    requires forall p: Progress, i :: 0 <= i < n && Started(p) && inv(p) ==> inv(Next(p, parts[i], ss[i]))
    ensures inv(After(parts, ss, n))
  {
    if n > 0 {
      AfterKeeps(parts, ss, inv, n - 1);
    }
  }

  lemma StartSound()
    ensures Sound(START)
  {
    assert Split("") == [""];
  }

  lemma RawMatches(parts: seq<Part>)
    requires Canonical(parts)
    ensures Matched(RawOf(parts, |parts|), Split(Print(parts)), Captures(parts, |parts|))
  {
    var ss := TopicPatterns.Strings(parts);
    var inv := (p: Progress) => Sound(p);
    StartSound();
    forall p: Progress, i | 0 <= i < |parts| && Started(p) && inv(p)
      ensures inv(Next(p, parts[i], ss[i]))
    {
      NextSound(p, parts[i]);
    }
    AfterKeeps(parts, ss, inv, |parts|);
    AfterIs(parts, ss, |parts|);
    PrintedSoFar(parts, ss, |parts|);
  }

  // ----- Which patterns compile -----

  /** A level that is one capture, `{name}` or `{name..}`. */
  ghost predicate IsCapture(l: string, multi: bool) {
    exists name :: IsName(name) && l == PrintPart(Capture(name, multi))
  }

  /** A level as the grammar wants it: a whole wildcard or capture, or text without either. */
  ghost predicate GoodLevel(l: string, last: bool) {
    || l == "+" || IsCapture(l, false)
    || (last && (l == "#" || IsCapture(l, true)))
    || (NoBraces(l) && !HasWildcard(l))
  }

  lemma CaptureShape(l: string, multi: bool)
    requires IsCapture(l, multi)
    ensures |l| >= 3 && l[0] == '{' && l[|l| - 1] == '}' && (l[|l| - 2] == '.' <==> multi)
    ensures forall i :: 0 < i < |l| ==> l[i] != '{'
  {
    var name :| IsName(name) && l == PrintPart(Capture(name, multi));
    assert multi ==> l[|l| - 2] == ".."[1];
    assert !multi ==> l[|l| - 2] == name[|name| - 1];
  }

  lemma TwoOpenBad(l: string, last: bool)
    requires TwoOpen(l)
    ensures !GoodLevel(l, last)
  {
    var i, j :| 0 <= i < j < |l| && l[i] == '{' && l[j] == '{';
    if IsCapture(l, false) {
      CaptureShape(l, false);
    }
    if IsCapture(l, true) {
      CaptureShape(l, true);
    }
    assert IsBrace(l[j]);
  }

  /** Whether a raw level compiles, in terms of the level it spells. */
  lemma LevelIff(raw: Raw, l: string, cs: seq<CapturePart>, last: bool)
    requires Spelled(raw, l, cs) && forall c :: 0 <= c < |cs| ==> IsName(cs[c].name)
    ensures LevelOf(raw).Success? && (LevelOf(raw).value.Multi? ==> last) <==> GoodLevel(l, last)
  {
    if raw.capture.None? {
      PlainLevel(l);
    } else {
      var c := cs[raw.capture.value.0];
      var k :| SpelledAt(raw.text, k, PrintPart(c), l);
      assert IsCapture(PrintPart(c), c.multi);
      if raw.text == "" {
        assert l == PrintPart(c);
        CaptureLevel(l, c.multi, last);
      } else {
        MixedLevel(raw.text, k, PrintPart(c), c.multi, l, last);
      }
    }
  }

  lemma PlainLevel(l: string)
    requires NoBraces(l)
    ensures !IsCapture(l, false) && !IsCapture(l, true)
  {
    if IsCapture(l, false) {
      CaptureShape(l, false);
    }
    if IsCapture(l, true) {
      CaptureShape(l, true);
    }
  }

  lemma CaptureLevel(l: string, multi: bool, last: bool)
    requires IsCapture(l, multi)
    ensures GoodLevel(l, last) <==> (multi ==> last)
  {
    CaptureShape(l, multi);
    assert IsBrace(l[0]);
    if IsCapture(l, !multi) {
      CaptureShape(l, !multi);
    }
  }

  /** Text beside a capture. */
  lemma MixedLevel(text: string, k: nat, capture: string, multi: bool, l: string, last: bool)
    requires text != "" && NoBraces(text) && SpelledAt(text, k, capture, l) && IsCapture(capture, multi)
    ensures !GoodLevel(l, last)
  {
    CaptureShape(capture, multi);
    assert l[k] == capture[0] && IsBrace(l[k]);
    assert k > 0 ==> l[0] == text[0] && !IsBrace(l[0]);
    assert k == 0 ==> l[|l| - 1] == text[|text| - 1] && !IsBrace(l[|l| - 1]);
    if IsCapture(l, false) {
      CaptureShape(l, false);
    }
    if IsCapture(l, true) {
      CaptureShape(l, true);
    }
  }

  lemma {:induction false} CapturesNamed(parts: seq<Part>, n: nat)
    requires n <= |parts| && forall i :: 0 <= i < |parts| ==> GoodPart(parts[i])
    ensures forall c :: 0 <= c < |Captures(parts, n)| ==> IsName(Captures(parts, n)[c].name)
  {
    if n > 0 {
      CapturesNamed(parts, n - 1);
      assert GoodPart(parts[n - 1]);
    }
  }

  /** A raw level compiles, there or as the last one. */
  predicate LevelFits(raw: Raw, last: bool) {
    LevelOf(raw).Success? && (LevelOf(raw).value.Multi? ==> last)
  }

  /** Levels compile exactly when each of them does; otherwise the first that does not is reported. */
  lemma {:induction false} FirstMisfit(raw: seq<Raw>, n: nat) returns (i: nat)
    requires n <= |raw|
    ensures forall j :: 0 <= j < i && j < n ==> LevelFits(raw[j], j == |raw| - 1)
    ensures LevelsOf(raw, n).Success? <==> i == n
    ensures LevelsOf(raw, n).Failure? ==>
      && i < n && !LevelFits(raw[i], i == |raw| - 1)
      && LevelsOf(raw, n).error == if LevelOf(raw[i]).Failure? then LevelOf(raw[i]).error else MultiNotLast
  {
    i := 0;
    if n > 0 {
      i := FirstMisfit(raw, n - 1);
      if i == n - 1 && LevelFits(raw[n - 1], n == |raw|) {
        i := n;
      }
    }
  }

  lemma LevelsIff(raw: seq<Raw>, ls: seq<string>, cs: seq<CapturePart>)
    requires AllSpelled(raw, ls, cs) && forall c :: 0 <= c < |cs| ==> IsName(cs[c].name)
    ensures LevelsOf(raw, |raw|).Success? <==> forall i :: 0 <= i < |ls| ==> GoodLevel(ls[i], i == |ls| - 1)
  {
    var k := FirstMisfit(raw, |raw|);
    forall i | 0 <= i < |ls|
      ensures LevelFits(raw[i], i == |ls| - 1) <==> GoodLevel(ls[i], i == |ls| - 1)
    {
      LevelIff(raw[i], ls[i], cs, i == |ls| - 1);
    }
  }

  /**
   A pattern compiles if and only if every level of it, as written, is a whole wildcard or
   capture, or text without either, and `#` and `{name..}` stand in the last one only.
   */
  lemma CompilesIff(parts: seq<Part>)
    requires Canonical(parts)
    ensures var ls := Split(Print(parts));
      CompiledOf(parts).Success? <==> forall i :: 0 <= i < |ls| ==> GoodLevel(ls[i], i == |ls| - 1)
  {
    var ls, raw := Split(Print(parts)), RawOf(parts, |parts|);
    RawMatches(parts);
    if raw.Success? {
      CapturesNamed(parts, |parts|);
      LevelsIff(raw.value, ls, Captures(parts, |parts|));
    } else {
      var i :| 0 <= i < |ls| && TwoOpen(ls[i]);
      TwoOpenBad(ls[i], i == |ls| - 1);
    }
  }

  /** What is wrong with a level, as written. */
  ghost predicate LevelFault(l: string, last: bool, e: CompileError) {
    match e
    case CaptureInLevel => !NoBraces(l) && !IsCapture(l, false) && !IsCapture(l, true)
    case WildcardInLevel(text) => text == l && NoBraces(l) && HasWildcard(l) && l != "+" && l != "#"
    case MultiNotLast => !last && (l == "#" || IsCapture(l, true))
  }

  lemma FaultOfPlain(raw: Raw, last: bool)
    requires NoBraces(raw.text) && raw.capture.None? && !LevelFits(raw, last)
    ensures LevelFault(raw.text, last, if LevelOf(raw).Failure? then LevelOf(raw).error else MultiNotLast)
  {
  }

  lemma FaultOfCapture(raw: Raw, l: string, cs: seq<CapturePart>, last: bool)
    requires Spelled(raw, l, cs) && raw.capture.Some? && (forall c :: 0 <= c < |cs| ==> IsName(cs[c].name))
    requires !LevelFits(raw, last)
    ensures LevelFault(l, last, if LevelOf(raw).Failure? then LevelOf(raw).error else MultiNotLast)
  {
    var c := cs[raw.capture.value.0];
    var k :| SpelledAt(raw.text, k, PrintPart(c), l);
    assert IsCapture(PrintPart(c), c.multi);
    CaptureShape(PrintPart(c), c.multi);
    assert l[k] == PrintPart(c)[0] && IsBrace(l[k]);
    if raw.text == "" {
      assert l == PrintPart(c);
    } else {
      MixedLevel(raw.text, k, PrintPart(c), c.multi, l, true);
    }
  }

  lemma SpelledOneOpen(raw: Raw, l: string, cs: seq<CapturePart>)
    requires Spelled(raw, l, cs) && forall c :: 0 <= c < |cs| ==> IsName(cs[c].name)
    ensures !TwoOpen(l)
  {
    if raw.capture.Some? {
      var c := cs[raw.capture.value.0];
      var k :| SpelledAt(raw.text, k, PrintPart(c), l);
      assert IsCapture(PrintPart(c), c.multi);
      CaptureShape(PrintPart(c), c.multi);
      forall i | 0 <= i < |l| && i != k
        ensures l[i] != '{'
      {
        OnlyOpen(raw.text, k, PrintPart(c), l, i);
      }
    } else {
      forall i | 0 <= i < |l|
        ensures l[i] != '{'
      {
        assert !IsBrace(l[i]);
      }
    }
  }

  lemma OnlyOpen(text: string, k: nat, capture: string, l: string, i: nat)
    requires NoBraces(text) && SpelledAt(text, k, capture, l) && i < |l| && i != k
    requires |capture| > 0 && forall j :: 0 < j < |capture| ==> capture[j] != '{'
    ensures l[i] != '{'
  {
    if i < k {
      assert l[i] == text[i] && !IsBrace(text[i]);
    } else if i < k + |capture| {
      assert l[i] == capture[i - k];
    } else {
      assert l[i] == text[i - |capture|] && !IsBrace(text[i - |capture|]);
    }
  }

  /** The first level at fault, when no level has two captures. */
  ghost predicate FirstFault(ls: seq<string>, i: nat, e: CompileError) {
    && i < |ls| && LevelFault(ls[i], i == |ls| - 1, e)
    && forall j :: 0 <= j < i ==> GoodLevel(ls[j], j == |ls| - 1)
  }

  /**
   Why a pattern does not compile: two captures in one level, wherever that is; otherwise what is
   wrong with its first level at fault.
   */
  lemma CompileFails(parts: seq<Part>) returns (i: nat)
    requires Canonical(parts) && CompiledOf(parts).Failure?
    ensures var ls, e := Split(Print(parts)), CompiledOf(parts).error;
      if Clash(ls) then e == CaptureInLevel else FirstFault(ls, i, e)
  {
    i := 0;
    var ls, raw, cs := Split(Print(parts)), RawOf(parts, |parts|), Captures(parts, |parts|);
    RawMatches(parts);
    if raw.Success? {
      CapturesNamed(parts, |parts|);
      forall k | 0 <= k < |ls|
        ensures !TwoOpen(ls[k])
      {
        SpelledOneOpen(raw.value[k], ls[k], cs);
      }
      i := FirstMisfit(raw.value, |raw.value|);
      FaultAt(raw.value, ls, cs, i);
    }
  }

  lemma FaultAt(raw: seq<Raw>, ls: seq<string>, cs: seq<CapturePart>, i: nat)
    requires AllSpelled(raw, ls, cs) && (forall c :: 0 <= c < |cs| ==> IsName(cs[c].name))
    requires i < |raw| && !LevelFits(raw[i], i == |raw| - 1)
    requires forall j :: 0 <= j < i ==> LevelFits(raw[j], j == |raw| - 1)
    ensures FirstFault(ls, i, if LevelOf(raw[i]).Failure? then LevelOf(raw[i]).error else MultiNotLast)
  {
    if raw[i].capture.Some? {
      FaultOfCapture(raw[i], ls[i], cs, i == |raw| - 1);
    } else {
      FaultOfPlain(raw[i], i == |raw| - 1);
    }
    forall j | 0 <= j < i
      ensures GoodLevel(ls[j], j == |ls| - 1)
    {
      LevelIff(raw[j], ls[j], cs, j == |ls| - 1);
    }
  }

  /** What a compiled level stands for, given the level as written and the pattern's captures. */
  predicate StandsFor(level: Level, l: string, cs: seq<CapturePart>) {
    match level
    case Literal(text) => l == text && NoBraces(l)
    case Single(None) => l == "+"
    case Multi(None) => l == "#"
    case Single(Some(c)) => c < |cs| && !cs[c].multi && l == PrintPart(cs[c])
    case Multi(Some(c)) => c < |cs| && cs[c].multi && l == PrintPart(cs[c])
  }

  lemma LevelStandsFor(raw: Raw, l: string, cs: seq<CapturePart>)
    requires Spelled(raw, l, cs) && LevelOf(raw).Success?
    ensures StandsFor(LevelOf(raw).value, l, cs)
  {
    if raw.capture.Some? {
      var k :| SpelledAt(raw.text, k, PrintPart(cs[raw.capture.value.0]), l);
      assert l == "" + PrintPart(cs[raw.capture.value.0]) + "";
    }
  }

  /** A compiled pattern has the levels of the pattern as written, with its captures in their order. */
  lemma CompiledLevels(parts: seq<Part>)
    requires Canonical(parts) && CompiledOf(parts).Success?
    ensures var f, ls := CompiledOf(parts).value, Split(Print(parts));
      && |f.levels| == |ls| && WellFormed(f)
      && forall i :: 0 <= i < |ls| ==> StandsFor(f.levels[i], ls[i], Captures(parts, |parts|))
  {
    var f, ls, raw := CompiledOf(parts).value, Split(Print(parts)), RawOf(parts, |parts|).value;
    RawMatches(parts);
    RawFree(parts, |parts|);
    LevelsProper(raw, |raw|);
    forall i | 0 <= i < |ls|
      ensures StandsFor(f.levels[i], ls[i], Captures(parts, |parts|))
    {
      LevelStandsFor(raw[i], ls[i], Captures(parts, |parts|));
    }
  }

  // ----- Spans -----

  /** What the capture of level i is given of a topic: its level, or all that is left, possibly nothing. */
  function Given(f: Compiled, topic: string, i: nat): string
    requires i < |f.levels| && !f.levels[i].Literal?
  {
    var ls := Split(topic);
    if i >= |ls| || Offset(ls, i) > |topic| then ""
    else if f.levels[i].Single? then ls[i]
    else topic[Offset(ls, i)..]
  }

  /** All that is left at level i is what follows the levels before it and their slashes. */
  lemma RestFollows(topic: string, i: nat)
    requires i < |Split(topic)|
    ensures Offset(Split(topic), i) <= |topic| && topic == Joined(Split(topic), i) + topic[Offset(Split(topic), i)..]
  {
    LevelAt(topic, i);
    TextCut(topic, |topic|);
    assert topic[..|topic|] == topic;
    var rest := TextSplits(CutAll(topic), i);
    OffsetJoined(Split(topic), i);
    Regroup(Joined(Split(topic), i), Split(topic)[i], rest, "");
  }

  /** Captures are written in order, so no two levels write the same one. */
  ghost predicate Ordered(raw: seq<Raw>, c: nat) {
    && (forall i :: 0 <= i < |raw| && raw[i].capture.Some? ==> raw[i].capture.value.0 < c)
    && forall i, j :: 0 <= i < j < |raw| && raw[i].capture.Some? && raw[j].capture.Some? ==>
      raw[i].capture.value.0 < raw[j].capture.value.0
  }

  lemma {:induction false} AppendCaptures(raw: seq<Raw>, segments: seq<string>, n: nat)
    requires raw != [] && n <= |segments|
    ensures forall i :: 0 <= i < |Append(raw, segments, n)| ==>
      Append(raw, segments, n)[i].capture == if i < |raw| then raw[i].capture else None
  {
    if n > 0 {
      AppendCaptures(raw, segments, n - 1);
    }
  }

  lemma SameCaptures(raw: seq<Raw>, raw': seq<Raw>, c: nat)
    requires Ordered(raw, c) && |raw| <= |raw'|
    requires forall i :: 0 <= i < |raw'| ==> raw'[i].capture == if i < |raw| then raw[i].capture else None
    ensures Ordered(raw', c)
  {
  }

  lemma CapturingOrdered(raw: seq<Raw>, c: nat, multi: bool)
    requires raw != [] && Ordered(raw, c)
    ensures Ordered(Capturing(raw, c, multi), c + 1)
  {
  }

  lemma {:induction false} RawOrdered(parts: seq<Part>, n: nat)
    requires n <= |parts| && RawOf(parts, n).Success?
    ensures Ordered(RawOf(parts, n).value, CaptureCount(parts, n))
  {
    if n > 0 {
      RawOrdered(parts, n - 1);
      if parts[n - 1].Text? {
        var raw, segments := RawOf(parts, n - 1).value, Split(parts[n - 1].t);
        AppendCaptures(raw, segments, |segments|);
        SameCaptures(raw, Append(raw, segments, |segments|), CaptureCount(parts, n));
      } else {
        CapturingOrdered(RawOf(parts, n - 1).value, CaptureCount(parts, n - 1), parts[n - 1].multi);
      }
    }
  }

  /** Level i, and no other one, writes capture c. */
  predicate Writes(f: Compiled, i: nat, c: nat) {
    i < |f.levels| && !f.levels[i].Literal? && f.levels[i].capture == Some(c)
  }

  lemma LevelCapture(raw: Raw, level: Level, c: nat)
    requires LevelOf(raw) == Success(level) && !level.Literal? && level.capture == Some(c)
    ensures raw.capture.Some? && raw.capture.value.0 == c
  {
  }

  lemma WritesOnce(parts: seq<Part>, i: nat, j: nat, c: nat)
    requires CompiledOf(parts).Success? && Writes(CompiledOf(parts).value, i, c) && Writes(CompiledOf(parts).value, j, c)
    ensures i == j
  {
    RawWrites(parts, i, c);
    RawWrites(parts, j, c);
    RawOrdered(parts, |parts|);
  }

  lemma RawWrites(parts: seq<Part>, i: nat, c: nat)
    requires CompiledOf(parts).Success? && Writes(CompiledOf(parts).value, i, c)
    ensures var raw := RawOf(parts, |parts|).value;
      i < |raw| && raw[i].capture.Some? && raw[i].capture.value.0 == c
  {
    var raw := RawOf(parts, |parts|).value;
    RawFree(parts, |parts|);
    LevelsProper(raw, |raw|);
    LevelCapture(raw[i], CompiledOf(parts).value.levels[i], c);
  }

  /** A capture no later level writes keeps its span. */
  lemma {:induction false} SpanStays(f: MqttFilter, ls: seq<string>, length: nat, i: nat, spans: Spans, c: nat)
    requires i <= |f.levels| && ls != [] && c < MAX_CAPTURES && forall j :: i <= j < |f.levels| ==> !Writes(f, j, c)
    ensures MatchFrom(f, ls, length, i, spans).1[c] == spans[c]
    decreases |f.levels| - i
  {
    if i < |f.levels| && i < |ls| && !f.levels[i].Multi? {
      assert KnownCapture(f.levels[i]) && !Writes(f, i, c);
      var next := OneLevel(f.levels[i], i == 0, ls[i], Offset(ls, i), spans);
      if next.Some? {
        SpanStays(f, ls, length, i + 1, next.value, c);
      }
    } else if i < |f.levels| {
      assert KnownCapture(f.levels[i]) && !Writes(f, i, c);
    }
  }

  /** Where the capture of level i ends up, as 16-bit numbers. */
  function SpanOf(level: Level, ls: seq<string>, length: nat, i: nat): (nat, nat) {
    if i >= |ls| then Cutout(length, length)
    else if level.Multi? then Cutout(Offset(ls, i), length)
    else Cutout(Offset(ls, i), Offset(ls, i) + |ls[i]|)
  }

  lemma {:induction false} SpanWritten(f: MqttFilter, ls: seq<string>, length: nat, i: nat, spans: Spans, k: nat, c: nat)
    requires i <= k && Writes(f, k, c) && ls != [] && c < MAX_CAPTURES
    requires forall j :: 0 <= j < |f.levels| && j != k ==> !Writes(f, j, c)
    requires MatchFrom(f, ls, length, i, spans).0
    requires forall j :: 0 <= j < |f.levels| && f.levels[j].Multi? ==> j == |f.levels| - 1
    ensures MatchFrom(f, ls, length, i, spans).1[c] == SpanOf(f.levels[k], ls, length, k)
    decreases |f.levels| - i
  {
    assert KnownCapture(f.levels[i]);
    if !f.levels[i].Multi? {
      var next := OneLevel(f.levels[i], i == 0, ls[i], Offset(ls, i), spans).value;
      if i < k {
        SpanWritten(f, ls, length, i + 1, next, k, c);
      } else {
        SpanStays(f, ls, length, i + 1, next, c);
      }
    }
  }

  lemma SpanCuts(f: Compiled, topic: string, i: nat)
    requires |topic| < 0x1_0000 && i < |f.levels| && !f.levels[i].Literal?
    ensures Slice(topic, SpanOf(f.levels[i], Split(topic), |topic|, i)) == Some(Given(f, topic, i))
  {
    var ls := Split(topic);
    assert U16(|topic|) == |topic|;
    if i < |ls| {
      LevelAt(topic, i);
      assert U16(Offset(ls, i)) == Offset(ls, i) && U16(Offset(ls, i) + |ls[i]|) == Offset(ls, i) + |ls[i]|;
      assert topic[Offset(ls, i)..|topic|] == topic[Offset(ls, i)..];
    } else {
      assert topic[|topic|..|topic|] == "";
    }
  }

  /** The span of every capture of a matched topic cuts out exactly what its level is given. */
  lemma SpansCutGiven(parts: seq<Part>, topic: string, spans: Spans, i: nat, c: nat)
    requires CompiledOf(parts).Success? && WellFormed(CompiledOf(parts).value) && |topic| < 0x1_0000
    requires Match(CompiledOf(parts).value, topic, spans).0 && Writes(CompiledOf(parts).value, i, c) && c < MAX_CAPTURES
    ensures var f := CompiledOf(parts).value;
      Slice(topic, Match(f, topic, spans).1[c]) == Some(Given(f, topic, i))
  {
    var f := CompiledOf(parts).value;
    forall j | 0 <= j < |f.levels| && j != i
      ensures !Writes(f, j, c)
    {
      if Writes(f, j, c) {
        WritesOnce(parts, i, j, c);
      }
    }
    CompiledProper(parts);
    forall j | 0 <= j < |f.levels| && f.levels[j].Multi?
      ensures j == |f.levels| - 1
    {
      assert ProperLevel(f.levels[j], j == |f.levels| - 1);
    }
    SpanWritten(f, Split(topic), |topic|, 0, spans, i, c);
    SpanCuts(f, topic, i);
  }
}
