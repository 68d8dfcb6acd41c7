/**
 The one-level wildcard grammar (topic_pattern.rs:219-296): `+` and `{name}` stand for one level
 between slashes. Specified by substitution: a topic matches when some slash-free values put
 for the captures spell it.
 */
module Plus {
  import opened Wrappers
  import opened Levels
  import opened TopicPatterns
  import opened Routers
  import opened Strings
  import opened Subscriptions

  const U16: nat := 0x10000

  datatype Compiled = Compiled(filter: string, levels: seq<Option<string>>, captures: seq<Option<nat>>)

  predicate WellFormed(f: Compiled) {
    && |f.captures| == |f.levels|
    && forall i :: 0 <= i < |f.captures| && f.captures[i].Some? ==> f.captures[i].value < MAX_CAPTURES
  }

  type PlusFilter = f: Compiled | WellFormed(f) witness Compiled("", [], [])

  // ----- Compiling -----

  /** The filter of the first n parts: texts as they are, a plus for every capture. */
  function FilterText(parts: seq<Part>, n: nat): string
    requires n <= |parts|
  {
    if n == 0 then "" else FilterText(parts, n - 1) + if parts[n - 1].Text? then parts[n - 1].t else "+"
  }

  /** The level each of the first n parts' captures stands in. */
  function CaptureLevels(parts: seq<Part>, n: nat): (cl: seq<nat>)
    requires n <= |parts|
    ensures |cl| == CaptureCount(parts, n)
  {
    if n == 0 then []
    else CaptureLevels(parts, n - 1) + if parts[n - 1].Text? then [] else [|Split(FilterText(parts, n))| - 1]
  }

  /** Where x first stands in s, if it does. */
  function Position(s: seq<nat>, x: nat, n: nat): (i: Option<nat>)
    requires n <= |s|
    ensures i.Some? ==> i.value < n && s[i.value] == x
    ensures i.None? ==> forall j :: 0 <= j < n ==> s[j] != x
  {
    if n == 0 then None
    else
      var i := Position(s, x, n - 1);
      if i.Some? then i else if s[n - 1] == x then Some(n - 1) else None
  }

  /** What a level compares with: nothing for a wildcard. */
  function Literal(level: string): Option<string> {
    if level == "+" then None else Some(level)
  }

  function Literals(ls: seq<string>): (r: seq<Option<string>>)
    ensures |r| == |ls| && forall i :: 0 <= i < |ls| ==> r[i] == Literal(ls[i])
  {
    if ls == [] then [] else Literals(ls[..|ls| - 1]) + [Literal(ls[|ls| - 1])]
  }

  function Numbers(cl: seq<nat>, n: nat): (r: seq<Option<nat>>)
    ensures |r| == n && forall i :: 0 <= i < n ==> r[i] == Position(cl, i, |cl|)
  {
    if n == 0 then [] else Numbers(cl, n - 1) + [Position(cl, n - 1, |cl|)]
  }

  function CompiledOf(parts: seq<Part>): PlusFilter
    requires CaptureCount(parts, |parts|) <= MAX_CAPTURES
  {
    var filter := FilterText(parts, |parts|);
    var ls := Split(filter);
    Compiled(filter, Literals(ls), Numbers(CaptureLevels(parts, |parts|), |ls|))
  }

  method Compile(parts: seq<Part>) returns (f: PlusFilter)
    requires CaptureCount(parts, |parts|) <= MAX_CAPTURES
    ensures f.filter == FilterText(parts, |parts|) && f.levels == Literals(Split(f.filter))
    ensures f.captures == Numbers(CaptureLevels(parts, |parts|), |f.levels|)
  {
    var filter: string, cl: seq<nat> := "", [];
    for n := 0 to |parts|
      invariant filter == FilterText(parts, n) && cl == CaptureLevels(parts, n)
    {
      match parts[n] {
        case Text(t) => filter := filter + t;
        case Capture(_, _) =>
          filter := filter + "+";
          cl := cl + [|Split(filter)| - 1];
      }
    }
    var ls := Split(filter);
    f := Compiled(filter, Literals(ls), Numbers(cl, |ls|));
  }

  predicate IsLiteral(f: Compiled) {
    forall i :: 0 <= i < |f.levels| ==> f.levels[i].Some?
  }

  // ----- Matching -----

  /** The first n levels compared, writing the spans of captures until one differs. */
  function MatchTo(f: PlusFilter, ls: seq<string>, n: nat, spans: Spans): (bool, Spans)
    requires |ls| == |f.levels| && n <= |ls|
  {
    if n == 0 then (true, spans)
    else
      var (ok, before) := MatchTo(f, ls, n - 1, spans);
      if !ok || (f.levels[n - 1].Some? && f.levels[n - 1].value != ls[n - 1]) then (false, before)
      else if f.captures[n - 1].None? then (true, before)
      else (true, before[f.captures[n - 1].value := Span(ls, n - 1)])
  }

  /** Where a level stands, as 16-bit numbers. */
  function Span(ls: seq<string>, i: nat): (nat, nat)
    requires i < |ls|
  {
    (Offset(ls, i) % U16, (Offset(ls, i) + |ls[i]|) % U16)
  }

  function Match(f: PlusFilter, topic: string, spans: Spans): (bool, Spans) {
    if |Split(topic)| != |f.levels| then (false, spans)
    else MatchTo(f, Split(topic), |f.levels|, spans)
  }

  method Matches(f: PlusFilter, topic: string, spans: Spans) returns (hit: bool, written: Spans)
    ensures (hit, written) == Match(f, topic, spans)
  {
    var ls := Split(topic);
    written := spans;
    if |ls| != |f.levels| {
      return false, written;
    }
    var start := 0;
    for i := 0 to |ls|
      invariant start == Offset(ls, i)
      invariant MatchTo(f, ls, i, spans) == (true, written)
    {
      if f.levels[i].Some? && f.levels[i].value != ls[i] {
        StaysFalse(f, ls, i + 1, |ls|, spans);
        return false, written;
      }
      if f.captures[i].Some? {
        written := written[f.captures[i].value := (start % U16, (start + |ls[i]|) % U16)];
      }
      start := start + |ls[i]| + 1;
    }
    hit := true;
  }

  lemma {:induction false} StaysFalse(f: PlusFilter, ls: seq<string>, n: nat, m: nat, spans: Spans)
    requires |ls| == |f.levels| && n <= m <= |ls| && !MatchTo(f, ls, n, spans).0
    ensures MatchTo(f, ls, m, spans) == MatchTo(f, ls, n, spans)
  {
    if n < m {
      StaysFalse(f, ls, n, m - 1, spans);
    }
  }

  /** What the router and the broker are given of a compiled pattern. */
  function AsFilter(f: PlusFilter): TopicFilter {
    TopicFilter(f.filter, IsLiteral(f), (topic, spans) => Match(f, topic, spans))
  }

  // ----- Covering -----

  /** Filter a matches whatever filter b matches; for a topic b, whether a matches it. */
  predicate LevelsCover(a: seq<string>, b: seq<string>) {
    |a| == |b| && forall i :: 0 <= i < |a| ==> a[i] == "+" || a[i] == b[i]
  }

  predicate PlusCovers(a: string, b: string) {
    LevelsCover(Split(a), Split(b))
  }

  /** What a broker delivers for a subscribed filter. */
  predicate Takes(filter: string, topic: string) {
    PlusCovers(filter, topic)
  }

  lemma CoversIsSound()
    ensures Reflexive(PlusCovers) && Transitive(PlusCovers) && SoundFor(PlusCovers, Takes)
  {
    forall a, b, c | PlusCovers(a, b) && PlusCovers(b, c)
      ensures PlusCovers(a, c)
    {
      CoverTransitive(Split(a), Split(b), Split(c));
    }
  }

  lemma CoverTransitive(a: seq<string>, b: seq<string>, c: seq<string>)
    requires LevelsCover(a, b) && LevelsCover(b, c)
    ensures LevelsCover(a, c)
  {
  }

  // ----- What matching means -----

  lemma {:induction false} MatchToIff(f: PlusFilter, ls: seq<string>, n: nat, spans: Spans)
    requires |ls| == |f.levels| && n <= |ls|
    ensures MatchTo(f, ls, n, spans).0 <==>
      forall i :: 0 <= i < n && f.levels[i].Some? ==> f.levels[i].value == ls[i]
  {
    if n > 0 {
      MatchToIff(f, ls, n - 1, spans);
    }
  }

  /** The compiled filter matches exactly the topics a broker delivers for it. */
  lemma {:induction false} MatchIffTakes(parts: seq<Part>, topic: string, spans: Spans)
    requires CaptureCount(parts, |parts|) <= MAX_CAPTURES
    ensures Match(CompiledOf(parts), topic, spans).0 <==> Takes(CompiledOf(parts).filter, topic)
  {
    var f := CompiledOf(parts);
    if |Split(topic)| == |f.levels| {
      MatchToIff(f, Split(topic), |f.levels|, spans);
      var a, b := Split(f.filter), Split(topic);
      forall i | 0 <= i < |a|
        ensures (f.levels[i].Some? ==> f.levels[i].value == b[i]) <==> a[i] == "+" || a[i] == b[i]
      {
      }
    }
  }

  /**
   Covering is exact: one compiled pattern's filter covers another's if and only if it matches
   every topic the other matches.
   */
  lemma {:induction false} CoversExactly(p: seq<Part>, q: seq<Part>, spans: Spans)
    requires CaptureCount(p, |p|) <= MAX_CAPTURES && CaptureCount(q, |q|) <= MAX_CAPTURES
    ensures PlusCovers(CompiledOf(p).filter, CompiledOf(q).filter) <==>
      forall topic :: Match(CompiledOf(q), topic, spans).0 ==> Match(CompiledOf(p), topic, spans).0
  {
    var f, g := CompiledOf(p), CompiledOf(q);
    forall topic
      ensures Match(f, topic, spans).0 <==> Takes(f.filter, topic)
      ensures Match(g, topic, spans).0 <==> Takes(g.filter, topic)
    {
      MatchIffTakes(p, topic, spans);
      MatchIffTakes(q, topic, spans);
    }
    if PlusCovers(f.filter, g.filter) {
      CoversIsSound();
    } else {
      assert Takes(g.filter, g.filter) && !Takes(f.filter, g.filter);
    }
  }

  /** A literal filter matches only itself, so comparing it as a string is right. */
  lemma {:induction false} LiteralMatchesItself(parts: seq<Part>, topic: string, spans: Spans)
    requires CaptureCount(parts, |parts|) <= MAX_CAPTURES && IsLiteral(CompiledOf(parts))
    ensures Match(CompiledOf(parts), topic, spans).0 <==> topic == CompiledOf(parts).filter
  {
    var f := CompiledOf(parts);
    MatchIffTakes(parts, topic, spans);
    var a, b := Split(f.filter), Split(topic);
    forall i | 0 <= i < |a|
      ensures a[i] != "+"
    {
      assert f.levels[i].Some?;
    }
    if Takes(f.filter, topic) {
      assert a == b;
      SplitInjective(f.filter, topic);
    }
  }

  // ----- Patterns whose captures are whole levels -----

  /** The topic the first n parts spell with values for the captures. */
  function Fill(parts: seq<Part>, values: seq<string>, n: nat): string
    requires n <= |parts| && CaptureCount(parts, n) <= |values|
  {
    if n == 0 then ""
    else
      Fill(parts, values, n - 1)
      + if parts[n - 1].Text? then parts[n - 1].t else values[CaptureCount(parts, n - 1)]
  }

  /** values, one slash-free value per capture, spell topic. */
  predicate Reads(parts: seq<Part>, values: seq<string>, topic: string) {
    && |values| == CaptureCount(parts, |parts|)
    && (forall c :: 0 <= c < |values| ==> SlashFree(values[c]))
    && Fill(parts, values, |parts|) == topic
  }

  predicate EndsLevel(p: Part) {
    p.Text? && p.t != "" && p.t[|p.t| - 1] == '/'
  }

  predicate StartsLevel(p: Part) {
    p.Text? && p.t != "" && p.t[0] == '/'
  }

  /** A capture next to part n is a level apart from it. */
  predicate Fits(parts: seq<Part>, n: nat)
    requires n < |parts|
  {
    n == 0 || ((parts[n].Capture? ==> EndsLevel(parts[n - 1])) && (parts[n - 1].Capture? ==> StartsLevel(parts[n])))
  }

  /** Every capture fills its level, and no text holds a plus as a level of its own. */
  predicate WholeLevels(parts: seq<Part>) {
    && (forall n :: 0 <= n < |parts| ==> Fits(parts, n))
    && OnlyCaptures(Split(FilterText(parts, |parts|)), CaptureLevels(parts, |parts|))
  }

  predicate OnlyCaptures(ls: seq<string>, cl: seq<nat>) {
    forall i :: 0 <= i < |ls| && ls[i] == "+" ==> i in cl
  }

  /** Two cuts that differ only in the levels cl, where one has a plus and the other a value. */
  ghost predicate Agree(a: Cut, b: Cut, cl: seq<nat>, values: seq<string>) {
    && |a.done| == |b.done| && |cl| <= |values|
    && (forall c :: 0 <= c < |cl| ==>
      cl[c] <= |a.done| && a.Levels()[cl[c]] == "+" && b.Levels()[cl[c]] == values[c])
    && (forall i :: 0 <= i <= |a.done| && i !in cl ==> a.Levels()[i] == b.Levels()[i])
    && (forall c, d :: 0 <= c < d < |cl| ==> cl[c] < cl[d])
  }

  /** A text appended to both; after a capture it must open a new level. */
  lemma AgreeText(a: Cut, b: Cut, cl: seq<nat>, values: seq<string>, s: Cut)
    requires Agree(a, b, cl, values)
    requires |a.done| in cl ==> s.done != [] && s.done[0] == ""
    ensures Agree(a.Graft(s), b.Graft(s), cl, values)
    ensures |a.Graft(s).done| !in cl
  {
    var a', b' := a.Graft(s), b.Graft(s);
    forall i | 0 <= i < |a.done|
      ensures a'.Levels()[i] == a.Levels()[i] && b'.Levels()[i] == b.Levels()[i]
    {
    }
    if |a.done| in cl {
      assert a'.Levels()[|a.done|] == a.last + "" == a.last;
      assert b'.Levels()[|a.done|] == b.last + "" == b.last;
    } else {
      assert a.Levels()[|a.done|] == b.Levels()[|a.done|];
      assert a.last == b.last;
    }
    forall i | |a.done| < i <= |a'.done|
      ensures a'.Levels()[i] == b'.Levels()[i]
    {
    }
  }

  /** A capture in a level that is still empty. */
  lemma AgreeCapture(a: Cut, b: Cut, cl: seq<nat>, values: seq<string>, v: string)
    requires Agree(a, b, cl, values) && |a.done| !in cl && a.last == ""
    requires |cl| < |values| && values[|cl|] == v
    ensures Agree(a.Graft(Cut([], "+")), b.Graft(Cut([], v)), cl + [|a.done|], values)
  {
    assert a.Levels()[|a.done|] == b.Levels()[|a.done|];
    assert b.last + v == v;
  }

  /** Filter and topic of the same parts agree level by level, and a new level may start. */
  ghost predicate Aligned(parts: seq<Part>, n: nat, a: Cut, b: Cut, cl: seq<nat>, values: seq<string>)
    requires n <= |parts|
  {
    && Agree(a, b, cl, values)
    && (n == 0 || parts[n - 1].Text? ==> |a.done| !in cl)
    && (n == 0 || EndsLevel(parts[n - 1]) ==> a.last == "")
  }

  lemma {:induction false} TextAligned(parts: seq<Part>, n: nat, a: Cut, b: Cut, cl: seq<nat>, values: seq<string>, t: string)
    requires n < |parts| && Aligned(parts, n, a, b, cl, values) && parts[n] == Text(t)
    requires n > 0 && parts[n - 1].Capture? ==> StartsLevel(parts[n])
    ensures Aligned(parts, n + 1, a.Graft(CutAll(t)), b.Graft(CutAll(t)), cl, values)
  {
    if t != "" && t[0] == '/' {
      CutLeading(t, |t|);
    }
    AgreeText(a, b, cl, values, CutAll(t));
  }

  lemma CaptureAligned(parts: seq<Part>, n: nat, a: Cut, b: Cut, cl: seq<nat>, values: seq<string>, v: string)
    requires n < |parts| && Aligned(parts, n, a, b, cl, values) && parts[n].Capture?
    requires n > 0 ==> EndsLevel(parts[n - 1])
    requires |cl| < |values| && values[|cl|] == v
    ensures Aligned(parts, n + 1, a.Graft(Cut([], "+")), b.Graft(Cut([], v)), cl + [|a.done|], values)
    ensures |a.done| == |a.Graft(Cut([], "+")).Levels()| - 1
  {
    AgreeCapture(a, b, cl, values, v);
  }

  /** The filter and the topic of the first n parts, cut, and the levels they differ in. */
  ghost predicate Meet(parts: seq<Part>, values: seq<string>, n: nat)
    requires n <= |parts| && CaptureCount(parts, n) <= |values|
  {
    Aligned(parts, n, CutAll(FilterText(parts, n)), CutAll(Fill(parts, values, n)), CaptureLevels(parts, n), values)
  }

  lemma StepText(parts: seq<Part>, values: seq<string>, n: nat, t: string)
    requires n < |parts| && CaptureCount(parts, n) <= |values| && parts[n] == Text(t)
    ensures CutAll(FilterText(parts, n + 1)) == CutAll(FilterText(parts, n)).Graft(CutAll(t))
    ensures CutAll(Fill(parts, values, n + 1)) == CutAll(Fill(parts, values, n)).Graft(CutAll(t))
    ensures CaptureLevels(parts, n + 1) == CaptureLevels(parts, n)
  {
    CutAllAppend(FilterText(parts, n), t);
    CutAllAppend(Fill(parts, values, n), t);
  }

  lemma MeetText(parts: seq<Part>, values: seq<string>, n: nat, t: string)
    requires n < |parts| && CaptureCount(parts, n) <= |values| && Meet(parts, values, n) && parts[n] == Text(t)
    requires Fits(parts, n)
    ensures Meet(parts, values, n + 1)
  {
    var a, b, cl := CutAll(FilterText(parts, n)), CutAll(Fill(parts, values, n)), CaptureLevels(parts, n);
    TextAligned(parts, n, a, b, cl, values, t);
    StepText(parts, values, n, t);
  }

  lemma StepCapture(parts: seq<Part>, values: seq<string>, n: nat)
    requires n < |parts| && CaptureCount(parts, n) < |values| && parts[n].Capture?
    requires SlashFree(values[CaptureCount(parts, n)])
    ensures CutAll(FilterText(parts, n + 1)) == CutAll(FilterText(parts, n)).Graft(Cut([], "+"))
    ensures CutAll(Fill(parts, values, n + 1)) == CutAll(Fill(parts, values, n)).Graft(Cut([], values[CaptureCount(parts, n)]))
    ensures CaptureLevels(parts, n + 1) == CaptureLevels(parts, n) + [|CutAll(FilterText(parts, n + 1)).Levels()| - 1]
  {
    var plus, v := "+", values[CaptureCount(parts, n)];
    CutAllAppend(FilterText(parts, n), plus);
    CutAllAppend(Fill(parts, values, n), v);
    CutAllFree(plus);
    CutAllFree(v);
  }

  lemma MeetCapture(parts: seq<Part>, values: seq<string>, n: nat)
    requires n < |parts| && CaptureCount(parts, n) < |values| && Meet(parts, values, n) && parts[n].Capture?
    requires Fits(parts, n)
    requires SlashFree(values[CaptureCount(parts, n)])
    ensures Meet(parts, values, n + 1)
  {
    var a, b, cl := CutAll(FilterText(parts, n)), CutAll(Fill(parts, values, n)), CaptureLevels(parts, n);
    CaptureAligned(parts, n, a, b, cl, values, values[|cl|]);
    StepCapture(parts, values, n);
  }

  lemma MeetNothing(parts: seq<Part>, values: seq<string>)
    ensures Meet(parts, values, 0)
  {
  }

  lemma MeetStep(parts: seq<Part>, values: seq<string>, n: nat)
    requires n < |parts| && CaptureCount(parts, n + 1) <= |values| && Meet(parts, values, n) && Fits(parts, n)
    requires forall c :: 0 <= c < |values| ==> SlashFree(values[c])
    ensures Meet(parts, values, n + 1)
  {
    if parts[n].Text? {
      MeetText(parts, values, n, parts[n].t);
    } else {
      MeetCapture(parts, values, n);
    }
  }

  lemma {:induction false} FilterMeetsTopic(parts: seq<Part>, values: seq<string>, n: nat)
    requires n <= |parts| && CaptureCount(parts, n) <= |values| && forall i :: 0 <= i < |parts| ==> Fits(parts, i)
    requires forall c :: 0 <= c < |values| ==> SlashFree(values[c])
    ensures Meet(parts, values, n)
  {
    if n == 0 {
      MeetNothing(parts, values);
    } else {
      FilterMeetsTopic(parts, values, n - 1);
      MeetStep(parts, values, n - 1);
    }
  }

  /** The values standing in the captures' levels of a topic. */
  function ValuesAt(cl: seq<nat>, ls: seq<string>): (values: seq<string>)
    requires forall c :: 0 <= c < |cl| ==> cl[c] < |ls|
    ensures |values| == |cl| && forall c :: 0 <= c < |cl| ==> values[c] == ls[cl[c]]
  {
    seq(|cl|, c requires 0 <= c < |cl| => ls[cl[c]])
  }

  lemma {:induction false} CaptureLevelsExist(parts: seq<Part>, n: nat, c: nat)
    requires n <= |parts| && c < CaptureCount(parts, n)
    ensures CaptureLevels(parts, n)[c] < |Split(FilterText(parts, n))|
  {
    var f, last := FilterText(parts, n - 1), if parts[n - 1].Text? then parts[n - 1].t else "+";
    if c < CaptureCount(parts, n - 1) {
      CaptureLevelsExist(parts, n - 1, c);
      CutAllAppend(f, last);
      GraftKeeps(CutAll(f), CutAll(last));
    }
  }

  lemma GraftKeeps(a: Cut, s: Cut)
    ensures |a.Graft(s).Levels()| >= |a.Levels()|
  {
  }

  /** A topic some values spell has those values in the captures' levels. */
  lemma {:induction false} ReadAtLevels(parts: seq<Part>, values: seq<string>, topic: string)
    requires WholeLevels(parts) && Reads(parts, values, topic)
    ensures Agree(CutAll(FilterText(parts, |parts|)), CutAll(topic), CaptureLevels(parts, |parts|), values)
  {
    FilterMeetsTopic(parts, values, |parts|);
  }

  /**
   The matching theorem: a filter compiled from a pattern whose captures are whole levels
   matches a topic exactly when some slash-free values put for the captures spell that topic.
   */
  lemma {:induction false} MatchesIffReads(parts: seq<Part>, topic: string, spans: Spans)
    requires CaptureCount(parts, |parts|) <= MAX_CAPTURES && WholeLevels(parts)
    ensures Match(CompiledOf(parts), topic, spans).0 <==> exists values :: Reads(parts, values, topic)
  {
    var filter, cl := FilterText(parts, |parts|), CaptureLevels(parts, |parts|);
    MatchIffTakes(parts, topic, spans);
    if values :| Reads(parts, values, topic) {
      ReadAtLevels(parts, values, topic);
      AgreeCovers(CutAll(filter), CutAll(topic), cl, values);
    }
    if Takes(filter, topic) {
      TakenIsRead(parts, topic);
    }
  }

  lemma AgreeCovers(a: Cut, b: Cut, cl: seq<nat>, values: seq<string>)
    requires Agree(a, b, cl, values)
    ensures LevelsCover(a.Levels(), b.Levels())
  {
    forall i | 0 <= i < |a.Levels()|
      ensures a.Levels()[i] == "+" || a.Levels()[i] == b.Levels()[i]
    {
      if i in cl {
        var c :| 0 <= c < |cl| && cl[c] == i;
      }
    }
  }

  lemma {:induction false} TakenIsRead(parts: seq<Part>, topic: string)
    requires WholeLevels(parts) && Takes(FilterText(parts, |parts|), topic)
    ensures exists values :: Reads(parts, values, topic)
  {
    var filter, cl := FilterText(parts, |parts|), CaptureLevels(parts, |parts|);
    forall c | 0 <= c < |cl|
      ensures cl[c] < |Split(topic)|
    {
      CaptureLevelsExist(parts, |parts|, c);
    }
    var values := ValuesAt(cl, Split(topic));
    forall c | 0 <= c < |values|
      ensures SlashFree(values[c])
    {
      SplitFree(topic, cl[c]);
    }
    FilterMeetsTopic(parts, values, |parts|);
    var spelled := Fill(parts, values, |parts|);
    SameLevels(CutAll(filter), CutAll(spelled), CutAll(topic), cl, values);
    SplitInjective(spelled, topic);
    assert Reads(parts, values, topic);
  }

  lemma SameLevels(a: Cut, b: Cut, t: Cut, cl: seq<nat>, values: seq<string>)
    requires Agree(a, b, cl, values) && LevelsCover(a.Levels(), t.Levels()) && OnlyCaptures(a.Levels(), cl)
    requires forall c :: 0 <= c < |cl| && cl[c] < |t.Levels()| ==> values[c] == t.Levels()[cl[c]]
    ensures b.Levels() == t.Levels()
  {
    forall i | 0 <= i < |a.Levels()|
      ensures b.Levels()[i] == t.Levels()[i]
    {
      if i in cl {
        var c :| 0 <= c < |cl| && cl[c] == i;
      }
    }
  }

  // ----- Spans -----

  /** No two levels write the same capture. */
  lemma NumbersInjective(cl: seq<nat>, n: nat, i: nat, j: nat)
    requires i < j < n && Numbers(cl, n)[i].Some? && Numbers(cl, n)[j].Some?
    ensures Numbers(cl, n)[i] != Numbers(cl, n)[j]
  {
  }

  lemma {:induction false} SpanWritten(f: PlusFilter, ls: seq<string>, n: nat, spans: Spans, i: nat)
    requires |ls| == |f.levels| && i < n <= |ls| && MatchTo(f, ls, n, spans).0 && f.captures[i].Some?
    requires forall j :: i < j < n ==> f.captures[j] != f.captures[i]
    ensures MatchTo(f, ls, n, spans).1[f.captures[i].value] == Span(ls, i)
  {
    if i < n - 1 {
      SpanWritten(f, ls, n - 1, spans, i);
    }
  }

  lemma {:induction false} PositionOf(cl: seq<nat>, c: nat, n: nat)
    requires c < n <= |cl| && forall d :: 0 <= d < n && d != c ==> cl[d] != cl[c]
    ensures Position(cl, cl[c], n) == Some(c)
  {
    if c < n - 1 {
      PositionOf(cl, c, n - 1);
    }
  }

  /** The last level writing capture c is the one it stands in. */
  lemma {:induction false} CaptureSpan(f: PlusFilter, cl: seq<nat>, ls: seq<string>, spans: Spans, c: nat)
    requires |ls| == |f.levels| && f.captures == Numbers(cl, |ls|) && MatchTo(f, ls, |ls|, spans).0
    requires c < |cl| && c < |spans| && cl[c] < |ls| && forall d :: 0 <= d < |cl| && d != c ==> cl[d] != cl[c]
    ensures MatchTo(f, ls, |ls|, spans).1[c] == Span(ls, cl[c])
  {
    var i := cl[c];
    PositionOf(cl, c, |cl|);
    forall j | i < j < |ls|
      ensures f.captures[j] != f.captures[i]
    {
      if f.captures[j].Some? {
        NumbersInjective(cl, |ls|, i, j);
      }
    }
    SpanWritten(f, ls, |ls|, spans, i);
  }

  /** In a topic of fewer than 65536 bytes no span is truncated. */
  lemma SpanCuts(topic: string, i: nat)
    requires |topic| < U16 && i < |Split(topic)|
    ensures Slice(topic, Span(Split(topic), i)) == Some(Split(topic)[i])
  {
    LevelAt(topic, i);
  }

  /** Every span of a matched topic cuts out exactly its capture's value. */
  lemma {:induction false} SpansCutValues(parts: seq<Part>, values: seq<string>, topic: string, spans: Spans, c: nat)
    requires CaptureCount(parts, |parts|) <= MAX_CAPTURES && WholeLevels(parts)
    requires Reads(parts, values, topic) && |topic| < U16 && c < |values|
    ensures Match(CompiledOf(parts), topic, spans).0
    ensures Slice(topic, Match(CompiledOf(parts), topic, spans).1[c]) == Some(values[c])
  {
    MatchesIffReads(parts, topic, spans);
    ReadAtLevels(parts, values, topic);
    var cl, ls := CaptureLevels(parts, |parts|), Split(topic);
    AgreeDistinct(CutAll(FilterText(parts, |parts|)), CutAll(topic), cl, values, c);
    CaptureSpan(CompiledOf(parts), cl, ls, spans, c);
    SpanCuts(topic, cl[c]);
  }

  lemma AgreeDistinct(a: Cut, b: Cut, cl: seq<nat>, values: seq<string>, c: nat)
    requires Agree(a, b, cl, values) && c < |cl|
    ensures cl[c] < |b.Levels()| && b.Levels()[cl[c]] == values[c]
    ensures forall d :: 0 <= d < |cl| && d != c ==> cl[d] != cl[c]
  {
  }

  // ----- End to end -----

  /** The route was compiled from these parts by this grammar. */
  ghost predicate IsRouteOf(route: CompiledRoute, parts: seq<Part>) {
    && CaptureCount(parts, |parts|) <= MAX_CAPTURES
    && route == Pattern(AsFilter(CompiledOf(parts)), route.names, route.key)
  }

  /** Every route was compiled from a pattern by this grammar. */
  ghost predicate FromPlus(routes: seq<CompiledRoute>) {
    forall i :: 0 <= i < |routes| ==> exists parts :: IsRouteOf(routes[i], parts)
  }

  /** A route matches only what a broker delivers for its filter. */
  lemma {:induction false} RouteTakes(route: CompiledRoute, parts: seq<Part>, topic: string)
    requires IsRouteOf(route, parts) && Routers.Matches(route, topic).0
    ensures Takes(route.filter, topic)
  {
    var f := CompiledOf(parts);
    MatchIffTakes(parts, topic, NO_SPANS);
    if IsLiteral(f) {
      LiteralMatchesItself(parts, topic, NO_SPANS);
    } else {
      assert Routers.Matches(route, topic).0 ==> Match(f, topic, NO_SPANS).0;
    }
  }

  /** A route takes exactly the topics its filter takes, with the spans the compiled pattern writes. */
  lemma {:induction false} RouteMatchesIff(route: CompiledRoute, parts: seq<Part>, topic: string)
    requires IsRouteOf(route, parts)
    ensures route.filter == CompiledOf(parts).filter
    ensures Routers.Matches(route, topic).0 <==>
      Takes(route.filter, topic) && (|topic| <= 65535 || IsLiteral(CompiledOf(parts)))
    ensures Routers.Matches(route, topic).0 ==>
      Routers.Matches(route, topic).1 ==
        if IsLiteral(CompiledOf(parts)) then NO_SPANS else Match(CompiledOf(parts), topic, NO_SPANS).1
  {
    MatchIffTakes(parts, topic, NO_SPANS);
    if IsLiteral(CompiledOf(parts)) {
      LiteralMatchesItself(parts, topic, NO_SPANS);
    }
  }

  /** Whatever topic any route matches, the broker delivers it for some subscribed filter. */
  lemma {:induction false} SubscriptionsSuffice(routes: seq<CompiledRoute>, ids: seq<string>, i: nat,
        topic: string) returns (k: string)
    requires FromPlus(routes) && i < |routes| && Routers.Matches(routes[i], topic).0
    requires StrictlySorted(ids) && forall x :: x in ids <==> x in Filters(routes)
    ensures k in Subscriptions.Subscriptions(ids, PlusCovers) && Takes(k, topic)
  {
    var parts :| IsRouteOf(routes[i], parts);
    RouteTakes(routes[i], parts, topic);
    assert Filters(routes)[i] in Filters(routes);
    CoversIsSound();
    TransitiveIsAcyclic(PlusCovers);
    k := EveryTopicIsDelivered(ids, PlusCovers, Takes, routes[i].filter, topic);
  }
}
