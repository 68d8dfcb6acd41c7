/**
 What MQTT filters mean: which topics they take, that matching takes just these, and that one
 filter covers another exactly when it takes every topic the other takes, but for one pair.
 */
module MqttTopics {
  import opened Wrappers
  import opened Levels
  import opened TopicPatterns
  import opened Routers
  import opened Strings
  import opened Subscriptions
  import opened Mqtt

  // ----- What a filter takes -----

  /** The levels before the first `#`. */
  function Fixed(a: seq<string>, i: nat): (n: nat)
    requires i <= |a|
    ensures i <= n <= |a| && (n < |a| ==> a[n] == "#")
    ensures forall j :: i <= j < n ==> a[j] != "#"
    decreases |a| - i
  {
    if i == |a| || a[i] == "#" then i else Fixed(a, i + 1)
  }

  /** `+` takes any level; `#` any number of them, also none; no wildcard takes a first level with `$`. */
  ghost predicate Takes(a: seq<string>, t: seq<string>)
    requires a != [] && t != []
  {
    var n := Fixed(a, 0);
    && (if n < |a| then n <= |t| else n == |t|)
    && (forall i :: 0 <= i < n && i < |t| ==> a[i] == "+" || a[i] == t[i])
    && ((a[0] == "+" || a[0] == "#") ==> !Hidden(t[0]))
  }

  /** What a broker delivers for a subscribed filter (MQTT 3.1.1 section 4.7). */
  ghost predicate Delivers(filter: string, topic: string) {
    Takes(Split(filter), Split(topic))
  }

  /** As for a topic, but no level except `#` itself covers a `#`. */
  ghost predicate LevelsCover(a: seq<string>, b: seq<string>)
    requires a != [] && b != []
  {
    Takes(a, b) && forall i :: 0 <= i < Fixed(a, 0) && i < |b| ==> b[i] != "#"
  }

  /** What the comparison from level i on comes to. */
  ghost predicate CoverRest(a: seq<string>, b: seq<string>, i: nat)
    requires i <= |a| && i <= |b|
  {
    var n := Fixed(a, i);
    && (if n < |a| then n <= |b| else n == |b|)
    && (forall j :: i <= j < n && j < |b| ==> b[j] != "#" && (a[j] == "+" || a[j] == b[j]))
    && (i == 0 && a != [] && b != [] && (a[0] == "+" || a[0] == "#") ==> !Hidden(b[0]))
  }

  lemma {:induction false} CoversFromIff(a: seq<string>, b: seq<string>, i: nat)
    requires a != [] && b != [] && i <= |a| && i <= |b|
    ensures CoversFrom(a, b, i) <==> CoverRest(a, b, i)
    decreases |a| - i
  {
    if i < |a| && i < |b| && a[i] != "#" {
      CoversFromIff(a, b, i + 1);
    }
  }

  /** The comparison of two filters, level by level, without its loop. */
  lemma CoversIff(a: string, b: string)
    ensures MqttCovers(a, b) <==> LevelsCover(Split(a), Split(b))
  {
    CoversFromIff(Split(a), Split(b), 0);
  }

  lemma CoverTransitive(a: seq<string>, b: seq<string>, c: seq<string>)
    requires a != [] && b != [] && c != [] && LevelsCover(a, b) && LevelsCover(b, c)
    ensures LevelsCover(a, c)
  {
  }

  lemma CoverTakes(a: seq<string>, b: seq<string>, t: seq<string>)
    requires a != [] && b != [] && t != [] && LevelsCover(a, b) && Takes(b, t)
    ensures Takes(a, t)
  {
  }

  lemma CoverReflexive(a: seq<string>)
    requires a != []
    ensures LevelsCover(a, a)
  {
  }

  /** Covering is reflexive, transitive and sound, for all texts, whether they were compiled or not. */
  lemma CoversIsSound()
    ensures Reflexive(MqttCovers) && Transitive(MqttCovers) && SoundFor(MqttCovers, (f, t) => Delivers(f, t))
  {
    forall a
      ensures MqttCovers(a, a)
    {
      CoversIff(a, a);
      CoverReflexive(Split(a));
    }
    forall a, b, c | MqttCovers(a, b) && MqttCovers(b, c)
      ensures MqttCovers(a, c)
    {
      CoversIff(a, b);
      CoversIff(b, c);
      CoversIff(a, c);
      CoverTransitive(Split(a), Split(b), Split(c));
    }
    forall a, b, topic | MqttCovers(a, b) && Delivers(b, topic)
      ensures Delivers(a, topic)
    {
      CoversIff(a, b);
      CoverTakes(Split(a), Split(b), Split(topic));
    }
  }

  // ----- How exact covering is -----

  /** Wildcards are whole levels, and `#` is the last one. */
  predicate Proper(a: seq<string>) {
    && a != []
    && forall i :: 0 <= i < |a| ==>
      SlashFree(a[i]) && (a[i] == "+" || (a[i] == "#" && i == |a| - 1) || !HasWildcard(a[i]))
  }

  /** A text of x's longer than the first n levels. */
  function Fresh(a: seq<string>, n: nat): (v: string)
    requires n <= |a|
    ensures v != "" && forall i :: 0 <= i < |v| ==> v[i] == 'x'
    ensures forall i :: 0 <= i < n ==> |a[i]| < |v|
  {
    if n == 0 then "x"
    else if |a[n - 1]| < |Fresh(a, n - 1)| then Fresh(a, n - 1)
    else seq(|a[n - 1]| + 1, _ => 'x')
  }

  /** The first n levels of b with v put for `+`. */
  function Filled(b: seq<string>, v: string, n: nat): (t: seq<string>)
    requires n <= |b|
    ensures |t| == n && forall i :: 0 <= i < n ==> t[i] == if b[i] == "+" then v else b[i]
  {
    seq(n, i requires 0 <= i < n => if b[i] == "+" then v else b[i])
  }

  /** A topic b takes: its levels with v for every `+`, and more of them where it has a `#`. */
  ghost predicate Sample(b: seq<string>, v: string, t: seq<string>) {
    var m := Fixed(b, 0);
    && m <= |t| && t != [] && t[..m] == Filled(b, v, m)
    && (m == |b| ==> |t| == m)
    && forall i :: m <= i < |t| ==> t[i] == v
  }

  lemma SampleTaken(b: seq<string>, v: string, t: seq<string>)
    requires Proper(b) && Sample(b, v, t) && v != "" && v[0] == 'x' && SlashFree(v)
    ensures Takes(b, t) && forall i :: 0 <= i < |t| ==> SlashFree(t[i])
  {
    var m := Fixed(b, 0);
    forall i | 0 <= i < m
      ensures t[i] == if b[i] == "+" then v else b[i]
    {
      assert t[i] == t[..m][i];
    }
    assert b[0] == "+" || b[0] == "#" ==> t[0] == v;
  }

  /** If a takes a sample of b, they agree on the levels both have. */
  lemma SampleAgrees(a: seq<string>, b: seq<string>, v: string, t: seq<string>, i: nat)
    requires a != [] && Sample(b, v, t) && Takes(a, t) && v == Fresh(a, |a|)
    requires i < Fixed(a, 0) && i < Fixed(b, 0)
    ensures a[i] == "+" || a[i] == b[i]
  {
    assert t[i] == t[..Fixed(b, 0)][i];
  }

  lemma SampleShows(a: seq<string>, b: seq<string>, v: string, t: seq<string>)
    requires a != [] && b != [] && Sample(b, v, t) && Takes(a, t) && (a[0] == "+" || a[0] == "#")
    ensures !Hidden(b[0])
  {
    if Fixed(b, 0) > 0 {
      assert t[0] == t[..Fixed(b, 0)][0];
    }
  }

  /** The filter takes topics of k levels. */
  predicate TakesLength(a: seq<string>, k: nat) {
    if Fixed(a, 0) < |a| then Fixed(a, 0) <= k else Fixed(a, 0) == k
  }

  /** b's levels with v for every `+`, and k more where it has a `#`. */
  lemma SampleOf(a: seq<string>, b: seq<string>, v: string, k: nat)
    requires Proper(b) && a != [] && (Fixed(b, 0) == |b| ==> k == 0) && Fixed(b, 0) + k > 0
    requires forall t :: Sample(b, v, t) ==> Takes(a, t)
    ensures var t := Filled(b, v, Fixed(b, 0)) + seq(k, _ => v);
      Sample(b, v, t) && Takes(a, t) && TakesLength(a, Fixed(b, 0) + k)
  {
    var base := Filled(b, v, Fixed(b, 0));
    var t := base + seq(k, _ => v);
    assert t[..Fixed(b, 0)] == base;
    assert Sample(b, v, t);
  }

  /** `#` takes a single level; only `#` and `+/#` take both that and two levels. */
  lemma OnlyPair(a: seq<string>, b: seq<string>, v: string, t: seq<string>)
    requires Proper(a) && Proper(b) && v == Fresh(a, |a|) && Fixed(b, 0) == 0 && Fixed(a, 0) == 1 < |a|
    requires t == [v] && Takes(a, t)
    ensures a == ["+", "#"] && b == ["#"]
  {
    assert a[0] == "+";
    assert a == [a[0], a[1]] && b == [b[0]];
  }

  /** The lengths of the samples leave no room for a filter that does not cover. */
  lemma SampleLengths(a: seq<string>, b: seq<string>, v: string)
    requires Proper(a) && Proper(b) && v == Fresh(a, |a|) && !(a == ["+", "#"] && b == ["#"])
    requires forall t :: Sample(b, v, t) ==> Takes(a, t)
    ensures var n, m := Fixed(a, 0), Fixed(b, 0);
      n <= m && (n == |a| ==> n == m == |b|)
  {
    var n, m := Fixed(a, 0), Fixed(b, 0);
    if m > 0 {
      SampleOf(a, b, v, 0);
    }
    if m < |b| {
      SampleOf(a, b, v, 1);
      SampleOf(a, b, v, 2);
      if m == 0 && n == 1 {
        OnlyPair(a, b, v, Filled(b, v, m) + seq(1, _ => v));
      }
    }
  }

  /** A filter that takes all samples of another one covers it, but for `+/#` and `#`. */
  lemma SamplesSuffice(a: seq<string>, b: seq<string>, v: string)
    requires Proper(a) && Proper(b) && v == Fresh(a, |a|) && !(a == ["+", "#"] && b == ["#"])
    requires forall t :: Sample(b, v, t) ==> Takes(a, t)
    ensures LevelsCover(a, b)
  {
    var k := if Fixed(b, 0) == |b| then 0 else 1;
    var t := Filled(b, v, Fixed(b, 0)) + seq(k, _ => v);
    SampleOf(a, b, v, k);
    SampleLengths(a, b, v);
    SampleCovers(a, b, v, t);
  }

  /** One sample of fitting lengths shows that a covers b. */
  lemma SampleCovers(a: seq<string>, b: seq<string>, v: string, t: seq<string>)
    requires Proper(a) && Proper(b) && v == Fresh(a, |a|) && Sample(b, v, t) && Takes(a, t)
    requires var n, m := Fixed(a, 0), Fixed(b, 0);
      n <= m && (n == |a| ==> n == m == |b|)
    ensures LevelsCover(a, b)
  {
    forall i | 0 <= i < Fixed(a, 0)
      ensures a[i] == "+" || a[i] == b[i]
    {
      SampleAgrees(a, b, v, t, i);
    }
    if a[0] == "+" || a[0] == "#" {
      SampleShows(a, b, v, t);
    }
  }

  /**
   Covering is exact, for filters whose wildcards are whole levels: one covers another if and only
   if it takes every topic the other takes, except that `+/#` takes what `#` takes without
   covering it.
   */
  lemma CoversExactly(a: string, b: string)
    requires Proper(Split(a)) && Proper(Split(b))
    ensures MqttCovers(a, b) <==>
      (forall topic :: Delivers(b, topic) ==> Delivers(a, topic)) && !(a == "+/#" && b == "#")
  {
    CoversIff(a, b);
    if MqttCovers(a, b) {
      forall topic | Delivers(b, topic)
        ensures Delivers(a, topic)
      {
        CoverTakes(Split(a), Split(b), Split(topic));
      }
      if a == "+/#" && b == "#" {
        PairLevels();
        assert false;
      }
    } else if forall topic :: Delivers(b, topic) ==> Delivers(a, topic) {
      TakesAllSamples(a, b);
      if Split(a) == ["+", "#"] && Split(b) == ["#"] {
        PairLevels();
        SplitInjective(a, "+/#");
        SplitInjective(b, "#");
      } else {
        SamplesSuffice(Split(a), Split(b), Fresh(Split(a), |Split(a)|));
        assert false;
      }
    }
  }

  lemma PairLevels()
    ensures Split("+/#") == ["+", "#"] && Split("#") == ["#"]
  {
    assert Join(["+", "#"]) == "+/#" by {
      assert Joined(["+", "#"], 1) == Joined(["+", "#"], 0) + ("+" + "/");
    }
    SplitJoin(["+", "#"]);
    CutAllFree("#");
  }

  lemma TakesAllSamples(a: string, b: string)
    requires Proper(Split(b)) && forall topic :: Delivers(b, topic) ==> Delivers(a, topic)
    ensures forall t :: Sample(Split(b), Fresh(Split(a), |Split(a)|), t) ==> Takes(Split(a), t)
  {
    var v := Fresh(Split(a), |Split(a)|);
    forall t | Sample(Split(b), v, t)
      ensures Takes(Split(a), t)
    {
      SampleTaken(Split(b), v, t);
      SplitJoin(t);
      assert Delivers(b, Join(t));
    }
  }

  /** The pair that is not covered though it could be: conservative, as the grammar may be. */
  lemma PairIsNotCovered()
    ensures !MqttCovers("+/#", "#")
    ensures forall topic :: Delivers("#", topic) <==> Delivers("+/#", topic)
  {
    PairLevels();
    CoversIff("+/#", "#");
    assert ["+", "#"][0] == "+" && ["+", "#"][1] == "#";
  }

  // ----- What compiling gives -----

  predicate AllFree(raw: seq<Raw>) {
    forall i :: 0 <= i < |raw| ==> SlashFree(raw[i].text)
  }

  lemma {:induction false} AppendFree(raw: seq<Raw>, segments: seq<string>, n: nat)
    requires raw != [] && n <= |segments| && AllFree(raw)
    requires forall i :: 0 <= i < |segments| ==> SlashFree(segments[i])
    ensures AllFree(Append(raw, segments, n))
  {
    if n > 0 {
      AppendFree(raw, segments, n - 1);
    }
  }

  lemma {:induction false} RawFree(parts: seq<Part>, n: nat)
    requires n <= |parts| && RawOf(parts, n).Success?
    ensures AllFree(RawOf(parts, n).value)
  {
    if n > 0 {
      RawFree(parts, n - 1);
      if parts[n - 1].Text? {
        var t := parts[n - 1].t;
        forall i | 0 <= i < |Split(t)|
          ensures SlashFree(Split(t)[i])
        {
          SplitFree(t, i);
        }
        AppendFree(RawOf(parts, n - 1).value, Split(t), |Split(t)|);
      }
    }
  }

  /** What compiled levels are like. */
  predicate ProperLevel(level: Level, last: bool) {
    match level
    case Literal(text) => SlashFree(text) && !HasWildcard(text)
    case Single(_) => true
    case Multi(_) => last
  }

  lemma {:induction false} LevelsProper(raw: seq<Raw>, n: nat)
    requires n <= |raw| && AllFree(raw) && LevelsOf(raw, n).Success?
    ensures forall i :: 0 <= i < n ==> ProperLevel(LevelsOf(raw, n).value[i], i == |raw| - 1)
    ensures forall i :: 0 <= i < n ==> LevelOf(raw[i]) == Success(LevelsOf(raw, n).value[i])
  {
    if n > 0 {
      LevelsProper(raw, n - 1);
    }
  }

  /** A compiled pattern's filter has one level for each of its levels, with wildcards as the grammar asks. */
  lemma CompiledProper(parts: seq<Part>)
    requires CompiledOf(parts).Success?
    ensures var f := CompiledOf(parts).value;
      && Split(f.filter) == Rendered(f.levels) && Proper(Split(f.filter))
      && forall i :: 0 <= i < |f.levels| ==> ProperLevel(f.levels[i], i == |f.levels| - 1)
  {
    var raw, f := RawOf(parts, |parts|).value, CompiledOf(parts).value;
    RawFree(parts, |parts|);
    LevelsProper(raw, |raw|);
    forall i | 0 <= i < |f.levels|
      ensures SlashFree(Rendered(f.levels)[i])
    {
      assert ProperLevel(f.levels[i], i == |f.levels| - 1);
    }
    SplitJoin(Rendered(f.levels));
  }

  // ----- Matching is taking -----

  lemma {:induction false} MatchFromIff(f: MqttFilter, ls: seq<string>, length: nat, i: nat, spans: Spans)
    requires i <= |f.levels| && i <= |ls| && ls != []
    requires forall j :: 0 <= j < |f.levels| ==> ProperLevel(f.levels[j], j == |f.levels| - 1)
    ensures MatchFrom(f, ls, length, i, spans).0 <==> TakesRest(Rendered(f.levels), ls, i)
    decreases |f.levels| - i
  {
    if i < |f.levels| && i < |ls| && !f.levels[i].Multi? {
      assert KnownCapture(f.levels[i]) && ProperLevel(f.levels[i], i == |f.levels| - 1);
      TakesStep(Rendered(f.levels), ls, i);
      var next := OneLevel(f.levels[i], i == 0, ls[i], Offset(ls, i), spans);
      if next.Some? {
        MatchFromIff(f, ls, length, i + 1, next.value);
      }
    }
  }

  /** What matching from level i on comes to. */
  ghost predicate TakesRest(a: seq<string>, t: seq<string>, i: nat)
    requires i <= |a| && i <= |t|
  {
    var n := Fixed(a, i);
    && (if n < |a| then n <= |t| else n == |t|)
    && (forall j :: i <= j < n && j < |t| ==> a[j] == "+" || a[j] == t[j])
    && (i == 0 && a != [] && t != [] && (a[0] == "+" || a[0] == "#") ==> !Hidden(t[0]))
  }

  lemma TakesStep(a: seq<string>, t: seq<string>, i: nat)
    requires i < |a| && i < |t| && a[i] != "#"
    ensures TakesRest(a, t, i) <==>
      (if a[i] == "+" then !(i == 0 && Hidden(t[0])) else a[i] == t[i]) && TakesRest(a, t, i + 1)
  {
  }

  /** A compiled pattern matches exactly the topics a broker delivers for its filter. */
  lemma MatchIffDelivers(parts: seq<Part>, topic: string, spans: Spans)
    requires CompiledOf(parts).Success? && WellFormed(CompiledOf(parts).value)
    ensures Match(CompiledOf(parts).value, topic, spans).0 <==> Delivers(CompiledOf(parts).value.filter, topic)
  {
    CompiledProper(parts);
    MatchFromIff(CompiledOf(parts).value, Split(topic), |topic|, 0, spans);
  }

  /** Covering is exact for compiled patterns, in terms of the topics they match. */
  lemma PatternCoversExactly(p: seq<Part>, q: seq<Part>, spans: Spans)
    requires CompiledOf(p).Success? && WellFormed(CompiledOf(p).value)
    requires CompiledOf(q).Success? && WellFormed(CompiledOf(q).value)
    ensures var f, g := CompiledOf(p).value, CompiledOf(q).value;
      MqttCovers(f.filter, g.filter) <==>
        (forall topic :: Match(g, topic, spans).0 ==> Match(f, topic, spans).0) && !(f.filter == "+/#" && g.filter == "#")
  {
    var f, g := CompiledOf(p).value, CompiledOf(q).value;
    forall topic
      ensures Match(f, topic, spans).0 <==> Delivers(f.filter, topic)
      ensures Match(g, topic, spans).0 <==> Delivers(g.filter, topic)
    {
      MatchIffDelivers(p, topic, spans);
      MatchIffDelivers(q, topic, spans);
    }
    CompiledProper(p);
    CompiledProper(q);
    CoversExactly(f.filter, g.filter);
  }

  /** A pattern without wildcards matches only its own filter, so comparing it as a string is right. */
  lemma LiteralMatchesItself(parts: seq<Part>, topic: string, spans: Spans)
    requires CompiledOf(parts).Success? && WellFormed(CompiledOf(parts).value) && IsLiteral(CompiledOf(parts).value)
    ensures Match(CompiledOf(parts).value, topic, spans).0 <==> topic == CompiledOf(parts).value.filter
  {
    var f := CompiledOf(parts).value;
    CompiledProper(parts);
    MatchIffDelivers(parts, topic, spans);
    var a, t := Split(f.filter), Split(topic);
    forall i | 0 <= i < |a|
      ensures a[i] != "+" && a[i] != "#"
    {
      assert f.levels[i].Literal?;
    }
    if Delivers(f.filter, topic) {
      assert a == t;
      SplitInjective(f.filter, topic);
    }
  }

  // ----- End to end -----

  /** The route was compiled from these parts by this grammar. */
  ghost predicate IsRouteOf(route: CompiledRoute, parts: seq<Part>) {
    && CompiledOf(parts).Success? && WellFormed(CompiledOf(parts).value)
    && route == Pattern(AsFilter(CompiledOf(parts).value), route.names, route.key)
  }

  /** Every route was compiled from a pattern by this grammar. */
  ghost predicate FromMqtt(routes: seq<CompiledRoute>) {
    forall i :: 0 <= i < |routes| ==> exists parts :: IsRouteOf(routes[i], parts)
  }

  /** A route matches only what a broker delivers for its filter. */
  lemma RouteTakes(route: CompiledRoute, parts: seq<Part>, topic: string)
    requires IsRouteOf(route, parts) && Routers.Matches(route, topic).0
    ensures Delivers(route.filter, topic)
  {
    var f := CompiledOf(parts).value;
    MatchIffDelivers(parts, topic, NO_SPANS);
    if IsLiteral(f) {
      LiteralMatchesItself(parts, topic, NO_SPANS);
    } else {
      assert Routers.Matches(route, topic).0 ==> Match(f, topic, NO_SPANS).0;
    }
  }

  /**
   A route takes exactly the topics a broker delivers for its filter, with the spans the compiled
   pattern writes; a topic longer than a span can tell is taken by a route without wildcards only.
   */
  lemma RouteMatchesIff(route: CompiledRoute, parts: seq<Part>, topic: string)
    requires IsRouteOf(route, parts)
    ensures route.filter == CompiledOf(parts).value.filter
    ensures Routers.Matches(route, topic).0 <==>
      Delivers(route.filter, topic) && (|topic| <= 65535 || IsLiteral(CompiledOf(parts).value))
    ensures Routers.Matches(route, topic).0 ==>
      Routers.Matches(route, topic).1 ==
        if IsLiteral(CompiledOf(parts).value) then NO_SPANS else Match(CompiledOf(parts).value, topic, NO_SPANS).1
  {
    MatchIffDelivers(parts, topic, NO_SPANS);
    if IsLiteral(CompiledOf(parts).value) {
      LiteralMatchesItself(parts, topic, NO_SPANS);
    }
  }

  /** A route without a key is called for a message exactly when a broker delivers the topic for its filter. */
  lemma CalledIffDelivered(routes: seq<CompiledRoute>, topic: string, payload: seq<int>, st: Tables, i: nat)
    requires FromMqtt(routes) && Routers.Covers(st, routes) && |topic| <= 65535
    requires i < |routes| && routes[i].key.None?
    ensures Reached(IngestedBy(routes, |routes|, topic, payload, st), i) <==> Delivers(routes[i].filter, topic)
  {
    RouteReaches(routes, |routes|, topic, payload, st, i);
    var parts :| IsRouteOf(routes[i], parts);
    RouteMatchesIff(routes[i], parts, topic);
  }

  /** A message reaches no route exactly when a broker delivers its topic for no route's filter. */
  lemma UnmatchedIffUndelivered(routes: seq<CompiledRoute>, topic: string)
    requires FromMqtt(routes) && |topic| <= 65535
    ensures Unmatched(routes, |routes|, topic) <==> forall i :: 0 <= i < |routes| ==> !Delivers(routes[i].filter, topic)
  {
    forall i | 0 <= i < |routes|
      ensures Routers.Matches(routes[i], topic).0 <==> Delivers(routes[i].filter, topic)
    {
      var parts :| IsRouteOf(routes[i], parts);
      RouteMatchesIff(routes[i], parts, topic);
    }
  }

  /** Whatever topic any route matches, a broker delivers it for some subscribed filter. */
  lemma SubscriptionsSuffice(routes: seq<CompiledRoute>, ids: seq<string>, i: nat, topic: string) returns (k: string)
    requires FromMqtt(routes) && i < |routes| && Routers.Matches(routes[i], topic).0
    requires StrictlySorted(ids) && forall x :: x in ids <==> x in Filters(routes)
    ensures k in Subscriptions.Subscriptions(ids, MqttCovers) && Delivers(k, topic)
  {
    var parts :| IsRouteOf(routes[i], parts);
    RouteTakes(routes[i], parts, topic);
    assert Filters(routes)[i] in Filters(routes);
    CoversIsSound();
    TransitiveIsAcyclic(MqttCovers);
    k := EveryTopicIsDelivered(ids, MqttCovers, (f, t) => Delivers(f, t), routes[i].filter, topic);
  }
}
