/**
 Inbound links over MQTT, end to end: what a link's topic, as written, makes of a message's
 topic, and which value of it a keyed link's messages carry the key of.
 */
module MqttLinks {
  import opened Wrappers
  import opened Levels
  import opened KeyTables
  import opened TopicPatterns
  import opened TopicRoundTrip
  import opened Routers
  import opened Mqtt
  import opened MqttTopics
  import opened MqttPatterns
  import opened InboundRoutes
  import B = Builds
  import R = Registry

  /** The kind of a compile error; its text is not modelled. */
  function Message(e: CompileError): string {
    match e
    case CaptureInLevel => "capture"
    case WildcardInLevel(_) => "wildcard"
    case MultiNotLast => "multi"
  }

  /** The grammar as a connector gives it to the router. */
  function MqttGrammar(parts: seq<Part>): Result<TopicFilter, string> {
    match CompiledOf(parts)
    case Failure(e) => Failure(Message(e))
    case Success(f) => if WellFormed(f) then Success(AsFilter(f)) else Failure("captures")
  }

  /** An accepted topic gives a pattern whose compiled form has room for its captures. */
  lemma GrammarIs(topic: string)
    requires ParseSpec(topic).Success?
    ensures var parts := ParseSpec(topic).value;
      && Canonical(parts) && Print(parts) == topic
      && MqttGrammar(parts).Success? == CompiledOf(parts).Success?
      && (CompiledOf(parts).Success? ==>
        WellFormed(CompiledOf(parts).value) && MqttGrammar(parts) == Success(AsFilter(CompiledOf(parts).value)))
  {
    ParseSound(topic);
    if CompiledOf(ParseSpec(topic).value).Success? {
      CompiledLevels(ParseSpec(topic).value);
    }
  }

  /** A link over MQTT is routed by its pattern, under the names of its captures. */
  lemma LinkIsRoute(table: Option<KeyTable>, link: R.InboundLink)
    requires RouteOf(table, link, MqttGrammar).Success?
    ensures ParseSpec(link.topic).Success?
    ensures var parts, route := ParseSpec(link.topic).value, RouteOf(table, link, MqttGrammar).value;
      && Canonical(parts) && Print(parts) == link.topic
      && IsRouteOf(route, parts) && route.names == CaptureNames(parts, |parts|)
  {
    GrammarIs(link.topic);
  }

  // ----- What a link takes -----

  /** How a level of a link's topic, as written, is subscribed. */
  ghost predicate SubscribedAs(written: string, level: string) {
    if written == "+" || IsCapture(written, false) then level == "+"
    else if written == "#" || IsCapture(written, true) then level == "#"
    else level == written
  }

  /** The filter of a link is its topic with `+` for every `{name}` and `#` for `{name..}`. */
  lemma FilterIsWritten(table: Option<KeyTable>, link: R.InboundLink)
    requires RouteOf(table, link, MqttGrammar).Success?
    ensures var filter := Split(RouteOf(table, link, MqttGrammar).value.filter);
      && |filter| == |Split(link.topic)|
      && forall i :: 0 <= i < |filter| ==> SubscribedAs(Split(link.topic)[i], filter[i])
  {
    LinkIsRoute(table, link);
    var parts := ParseSpec(link.topic).value;
    var f := CompiledOf(parts).value;
    CompiledLevels(parts);
    CompiledProper(parts);
    RouteMatchesIff(RouteOf(table, link, MqttGrammar).value, parts, "");
    forall i | 0 <= i < |f.levels|
      ensures SubscribedAs(Split(link.topic)[i], Render(f.levels[i]))
    {
      LevelIsWritten(parts, i);
    }
  }

  lemma LevelIsWritten(parts: seq<Part>, i: nat)
    requires Canonical(parts) && CompiledOf(parts).Success? && i < |CompiledOf(parts).value.levels|
    requires |CompiledOf(parts).value.levels| == |Split(Print(parts))|
    requires StandsFor(CompiledOf(parts).value.levels[i], Split(Print(parts))[i], Captures(parts, |parts|))
    ensures SubscribedAs(Split(Print(parts))[i], Render(CompiledOf(parts).value.levels[i]))
  {
    var l, level, cs := Split(Print(parts))[i], CompiledOf(parts).value.levels[i], Captures(parts, |parts|);
    CompiledProper(parts);
    CapturesNamed(parts, |parts|);
    if level.Literal? {
      PlainLevel(l);
      assert ProperLevel(level, i == |CompiledOf(parts).value.levels| - 1);
    } else if level.capture.Some? {
      var c := cs[level.capture.value];
      assert IsCapture(l, c.multi);
      CaptureShape(l, c.multi);
      if IsCapture(l, !c.multi) {
        CaptureShape(l, !c.multi);
      }
    } else {
      if IsCapture(l, false) {
        CaptureShape(l, false);
      }
      if IsCapture(l, true) {
        CaptureShape(l, true);
      }
    }
  }

  // ----- What a capture is given -----

  /** What stands in a topic where level i of a pattern is a capture: one level, or all that is left. */
  ghost predicate IsValue(topic: string, i: nat, multi: bool, value: string) {
    var ls := Split(topic);
    if !multi then i < |ls| && value == ls[i]
    else if i < |ls| then topic == Joined(ls, i) + value
    else value == ""
  }

  lemma SameName(a: Part, b: Part)
    requires a.Capture? && b.Capture? && IsName(a.name) && IsName(b.name) && PrintPart(a) == PrintPart(b)
    ensures a == b
  {
    var l := PrintPart(a);
    assert IsCapture(l, a.multi) && IsCapture(l, b.multi);
    CaptureShape(l, a.multi);
    CaptureShape(l, b.multi);
    assert a.name == l[1..1 + |a.name|] && b.name == l[1..1 + |b.name|];
  }

  /** The level a capture stands in, and its number among the captures. */
  lemma CaptureNumber(parts: seq<Part>, i: nat, name: string, multi: bool) returns (c: nat)
    requires Canonical(parts) && CompiledOf(parts).Success? && IsName(name)
    requires i < |Split(Print(parts))| && Split(Print(parts))[i] == PrintPart(Capture(name, multi))
    ensures WellFormed(CompiledOf(parts).value) && Writes(CompiledOf(parts).value, i, c)
    ensures CompiledOf(parts).value.levels[i].Multi? == multi
    ensures c < |Captures(parts, |parts|)| && Captures(parts, |parts|)[c] == Capture(name, multi)
  {
    CompiledLevels(parts);
    CapturesNamed(parts, |parts|);
    var l, cs := Split(Print(parts))[i], Captures(parts, |parts|);
    var level := CompiledOf(parts).value.levels[i];
    assert StandsFor(level, l, cs);
    assert IsCapture(l, multi);
    CaptureShape(l, multi);
    assert IsBrace(l[0]);
    c := level.capture.value;
    SameName(cs[c], Capture(name, multi));
  }

  lemma {:induction false} CaptureHasName(parts: seq<Part>, n: nat, c: nat)
    requires n <= |parts| && c < |Captures(parts, n)|
    ensures c < |CaptureNames(parts, n)| && CaptureNames(parts, n)[c] == Captures(parts, n)[c].name
  {
    if c < |Captures(parts, n - 1)| {
      CaptureHasName(parts, n - 1, c);
    }
  }

  lemma {:induction false} CaptureFrom(parts: seq<Part>, n: nat, c: nat) returns (i: nat)
    requires n <= |parts| && c < |Captures(parts, n)|
    ensures i < n && parts[i] == Captures(parts, n)[c] && CaptureCount(parts, i) == c
  {
    if c < |Captures(parts, n - 1)| {
      i := CaptureFrom(parts, n - 1, c);
    } else {
      i := n - 1;
    }
  }

  /** A name is found at its capture's number, and nowhere else. */
  lemma NameFound(parts: seq<Part>, c: nat)
    requires Canonical(parts) && c < |Captures(parts, |parts|)|
    ensures var names := CaptureNames(parts, |parts|);
      c < |names| <= MAX_CAPTURES && Find(names, Captures(parts, |parts|)[c].name, |names|) == c
  {
    var names, name := CaptureNames(parts, |parts|), Captures(parts, |parts|)[c].name;
    CaptureHasName(parts, |parts|, c);
    var at := Find(names, name, |names|);
    assert at < |names|;
    CaptureHasName(parts, |parts|, at);
    var i := CaptureFrom(parts, |parts|, c);
    var j := CaptureFrom(parts, |parts|, at);
    assert parts[i].name == parts[j].name;
  }

  lemma GivenIsValue(f: Mqtt.Compiled, topic: string, i: nat)
    requires i < |f.levels| && !f.levels[i].Literal? && (f.levels[i].Single? ==> i < |Split(topic)|)
    ensures IsValue(topic, i, f.levels[i].Multi?, Given(f, topic, i))
  {
    if i < |Split(topic)| {
      RestFollows(topic, i);
    }
  }

  /**
   Where a link's topic has the level {name}, a message is given that level of its own topic under
   that name, and where it has {name..}, all that is left there. A link keyed by the name asks
   its table for just that value.
   */
  lemma CaptureIsValue(table: Option<KeyTable>, link: R.InboundLink, topic: string, i: nat, name: string, multi: bool)
      returns (value: string)
    requires RouteOf(table, link, MqttGrammar).Success? && |topic| <= 65535
    requires Routers.Matches(RouteOf(table, link, MqttGrammar).value, topic).0
    requires i < |Split(link.topic)| && IsName(name)
    requires Split(link.topic)[i] == "{" + name + (if multi then ".." else "") + "}"
    ensures IsValue(topic, i, multi, value)
    ensures var route := RouteOf(table, link, MqttGrammar).value;
      var spans := Routers.Matches(route, topic).1;
      && (forall key :: TopicMatch(topic, route.names, spans, key).Get(name) == Some(value))
      && (table.Some? && link.key.Some? && link.key.value.0 == name ==>
        route.key.Some? && Captured(route, topic, spans) == Some(value))
  {
    LinkIsRoute(table, link);
    var parts, route := ParseSpec(link.topic).value, RouteOf(table, link, MqttGrammar).value;
    var f := CompiledOf(parts).value;
    var c := CaptureNumber(parts, i, name, multi);
    NameFound(parts, c);
    RouteMatchesIff(route, parts, topic);
    MatchIffDelivers(parts, topic, NO_SPANS);
    SpansCutGiven(parts, topic, NO_SPANS, i, c);
    MatchedLevels(parts, topic, i);
    GivenIsValue(f, topic, i);
    value := Given(f, topic, i);
  }

  /** A matched topic has a level wherever the pattern takes exactly one. */
  lemma MatchedLevels(parts: seq<Part>, topic: string, i: nat)
    requires CompiledOf(parts).Success? && Delivers(CompiledOf(parts).value.filter, topic)
    requires i < |CompiledOf(parts).value.levels|
    ensures CompiledOf(parts).value.levels[i].Single? ==> i < |Split(topic)|
  {
    var f := CompiledOf(parts).value;
    CompiledProper(parts);
    if f.levels[i].Single? {
      FixedBeyond(Split(f.filter), 0, i);
    }
  }

  lemma {:induction false} FixedBeyond(a: seq<string>, m: nat, i: nat)
    requires m <= i < |a| && forall j :: m <= j <= i ==> a[j] != "#"
    ensures i < Fixed(a, m)
    decreases i - m
  {
    if m < i {
      FixedBeyond(a, m + 1, i);
    }
  }

  /**
   A keyed link's route is called for a message exactly when a broker delivers the topic for its
   filter and the value at the link's capture has a key in its record's table, or room for one.
   */
  lemma KeyedCalledIff(table: KeyTable, link: R.InboundLink, routes: seq<CompiledRoute>, k: nat, topic: string,
      payload: seq<int>, st: Tables, i: nat, multi: bool) returns (value: string)
    requires k < |routes| && RouteOf(Some(table), link, MqttGrammar) == Success(routes[k]) && link.key.Some?
    requires Routers.Covers(st, routes) && |topic| <= 65535
    requires i < |Split(link.topic)| && IsName(link.key.value.0)
    requires Split(link.topic)[i] == "{" + link.key.value.0 + (if multi then ".." else "") + "}"
    ensures table in st && routes[k].key.Some? && routes[k].key.value.0 == table
    ensures Delivers(routes[k].filter, topic) ==> IsValue(topic, i, multi, value)
    ensures var names := StateAfter(routes, k, topic, st)[table];
      Reached(IngestedBy(routes, |routes|, topic, payload, st), k) <==>
        Delivers(routes[k].filter, topic) && (value in names || |names| < table.capacity)
  {
    LinkIsRoute(Some(table), link);
    RouteMatchesIff(routes[k], ParseSpec(link.topic).value, topic);
    RouteReaches(routes, |routes|, topic, payload, st, k);
    value := "";
    if Delivers(routes[k].filter, topic) {
      value := CaptureIsValue(Some(table), link, topic, i, link.key.value.0, multi);
    }
  }

  /**
   End to end, in a built database: the key an ingested message carries through a link keyed by
   {name} stands, on the link's record, for what the message's topic has where the link's topic
   has {name}.
   */
  lemma KeyStandsForLevel(storages: seq<B.RecordEntry>, byKey: map<string, nat>, scheme: string, link: R.InboundLink,
      router: Router, p: (nat, CompiledRoute), g: Ingest, payload: seq<int>, i: nat, multi: bool)
      returns (value: string)
    requires B.Inverse(storages, byKey) && p in AllLinks(storages, |storages|, scheme, MqttGrammar).routes
    requires FromLink(storages, scheme, MqttGrammar, p.0, p.1, link) && link.key.Some? && p.1.key.Some?
    requires Faithful(router.routes, router.Now(), g) && router.routes[g.route] == p.1
    requires IsCallFor(g, router.routes, g.m.topic, payload) && |g.m.topic| <= 65535
    requires i < |Split(link.topic)| && IsName(link.key.value.0)
    requires Split(link.topic)[i] == "{" + link.key.value.0 + (if multi then ".." else "") + "}"
    ensures IsValue(g.m.topic, i, multi, value) && g.m.key.Some?
    ensures InboundKeyName(storages, byKey, storages[p.0].entry.key, g.m.key.value) == Some(value)
  {
    value := CaptureIsValue(storages[p.0].keyTable, link, g.m.topic, i, link.key.value.0, multi);
    KeyNameIsCaptured(storages, byKey, scheme, MqttGrammar, router, p, g);
  }
}
