/**
 Inbound routing (router.rs): every matching route ingests the message, keyed routes with the
 key their record's table gives the captured value.
 */
module Routers {
  import opened Wrappers
  import opened KeyTables
  import opened TopicPatterns

  /** Byte range of each capture in the topic. */
  type Spans = s: seq<(nat, nat)> | |s| == MAX_CAPTURES witness seq(MAX_CAPTURES, _ => (0, 0))

  const NO_SPANS: Spans := seq(MAX_CAPTURES, _ => (0, 0))

  /** A compiled pattern: what to subscribe, whether only that matches, and how to match. */
  datatype TopicFilter = TopicFilter(filter: string, literal: bool, matches: (string, Spans) -> (bool, Spans))

  datatype CompiledRoute = CompiledRoute(
    filter: string,
    matcher: Option<TopicFilter>,
    names: seq<string>,
    key: Option<(KeyTable, nat)>)

  /** A route matching through filter; one that matches only itself is compared as a string. */
  function Pattern(filter: TopicFilter, names: seq<string>, key: Option<(KeyTable, nat)>): CompiledRoute {
    CompiledRoute(filter.filter, if filter.literal then None else Some(filter), names, key)
  }

  /** Whether the route takes the topic, and where its captures are. */
  function Matches(route: CompiledRoute, topic: string): (bool, Spans) {
    if route.matcher.None? then (route.filter == topic, NO_SPANS)
    else if |topic| <= U16_MAX then route.matcher.value.matches(topic, NO_SPANS)
    else (false, NO_SPANS)
  }

  /** The topic between two positions, if they are in order and inside it. */
  function Slice(topic: string, span: (nat, nat)): Option<string> {
    if span.0 <= span.1 <= |topic| then Some(topic[span.0..span.1]) else None
  }

  /** The value a keyed route's table is asked for. */
  function Captured(route: CompiledRoute, topic: string, spans: Spans): Option<string>
    requires route.key.Some?
  {
    if route.key.value.1 < |spans| then Slice(topic, spans[route.key.value.1]) else None
  }

  /** What an ingest callback receives of a match. */
  datatype TopicMatch = TopicMatch(topic: string, names: seq<string>, spans: Spans, key: Option<KeyId>) {
    /** The value of the capture called name. */
    function Get(name: string): Option<string> {
      var i := Find(names, name, |names|);
      if i < |names| && i < |spans| then Slice(topic, spans[i]) else None
    }
  }

  datatype Ingest = Ingest(route: nat, m: TopicMatch, payload: seq<int>)

  /** What the log line after a message says. */
  datatype Seen = Routed | NotProduced | NoRoute

  // ----- What routing one message does -----

  /** The values each table has keys for. */
  type Tables = map<KeyTable, seq<string>>

  ghost predicate Covers(st: Tables, routes: seq<CompiledRoute>) {
    forall i :: 0 <= i < |routes| && routes[i].key.Some? ==> routes[i].key.value.0 in st
  }

  ghost predicate AllSound(st: Tables) {
    forall t :: t in st ==> Sound(st[t], t.capacity)
  }

  /** The tables after route was offered the topic. */
  function TablesAfter(route: CompiledRoute, topic: string, st: Tables): Tables
    requires route.key.Some? ==> route.key.value.0 in st
  {
    var (hit, spans) := Matches(route, topic);
    if !hit || route.key.None? then st
    else
      var t, value := route.key.value.0, Captured(route, topic, spans);
      if value.None? then st else st[t := Assigned(st[t], t.capacity, value.value)]
  }

  /** What the route ingests of the message: nothing, or one match. */
  function Ingested(route: CompiledRoute, index: nat, topic: string, payload: seq<int>, st: Tables): seq<Ingest>
    requires route.key.Some? ==> route.key.value.0 in st
  {
    var (hit, spans) := Matches(route, topic);
    if !hit then []
    else if route.key.None? then [Ingest(index, TopicMatch(topic, route.names, spans, None), payload)]
    else
      var t, value := route.key.value.0, Captured(route, topic, spans);
      if value.None? then []
      else
        var k := KeyOf(st[t], t.capacity, value.value);
        if k.None? then [] else [Ingest(index, TopicMatch(topic, route.names, spans, k), payload)]
  }

  /** None of the first n routes takes the topic. */
  predicate Unmatched(routes: seq<CompiledRoute>, n: nat, topic: string)
    requires n <= |routes|
  {
    forall i :: 0 <= i < n ==> !Matches(routes[i], topic).0
  }

  /** One of the first n routes takes the topic. */
  function AnyMatches(routes: seq<CompiledRoute>, n: nat, topic: string): bool
    requires n <= |routes|
  {
    n > 0 && (AnyMatches(routes, n - 1, topic) || Matches(routes[n - 1], topic).0)
  }

  lemma {:induction false} AnyMatchesIff(routes: seq<CompiledRoute>, n: nat, topic: string)
    requires n <= |routes|
    ensures AnyMatches(routes, n, topic) <==> !Unmatched(routes, n, topic)
  {
    if n > 0 {
      AnyMatchesIff(routes, n - 1, topic);
    }
  }

  /** Some call was answered without an error. */
  predicate Accepted(calls: seq<Ingest>, ingest: Ingest -> bool) {
    exists i :: 0 <= i < |calls| && ingest(calls[i])
  }

  lemma AcceptedAppend(calls: seq<Ingest>, made: seq<Ingest>, ingest: Ingest -> bool)
    requires |made| <= 1
    ensures Accepted(calls + made, ingest) <==> Accepted(calls, ingest) || (made != [] && ingest(made[0]))
  {
    if i :| 0 <= i < |calls| && ingest(calls[i]) {
      assert (calls + made)[i] == calls[i];
    }
    if made != [] {
      assert (calls + made)[|calls|] == made[0];
    }
  }

  /** The tables after the first n routes were offered the message. */
  function StateAfter(routes: seq<CompiledRoute>, n: nat, topic: string, st: Tables): (st': Tables)
    requires n <= |routes| && Covers(st, routes)
    ensures st'.Keys == st.Keys
  {
    if n == 0 then st
    else TablesAfter(routes[n - 1], topic, StateAfter(routes, n - 1, topic, st))
  }

  /** What the first n routes ingest of the message, in route order. */
  function IngestedBy(routes: seq<CompiledRoute>, n: nat, topic: string, payload: seq<int>, st: Tables): seq<Ingest>
    requires n <= |routes| && Covers(st, routes)
  {
    if n == 0 then []
    else
      IngestedBy(routes, n - 1, topic, payload, st)
      + Ingested(routes[n - 1], n - 1, topic, payload, StateAfter(routes, n - 1, topic, st))
  }

  // ----- What every dispatch keeps -----

  /** An ingested message's key stands, in its record's table, for the value its route captured. */
  ghost predicate Faithful(routes: seq<CompiledRoute>, st: Tables, g: Ingest)
    requires Covers(st, routes)
  {
    && g.route < |routes|
    && var route := routes[g.route];
      if route.key.None? then g.m.key.None?
      else
        var names := st[route.key.value.0];
        && g.m.key.Some? && 1 <= g.m.key.value.raw <= |names|
        && Captured(route, g.m.topic, g.m.spans) == Some(names[g.m.key.value.Index()])
  }

  /** Tables only gain values, at the end. */
  ghost predicate Grows(st: Tables, st': Tables) {
    st.Keys == st'.Keys && forall t :: t in st ==> st[t] <= st'[t]
  }

  lemma FaithfulGrows(routes: seq<CompiledRoute>, st: Tables, st': Tables, g: Ingest)
    requires Covers(st, routes) && Faithful(routes, st, g) && Grows(st, st')
    ensures Covers(st', routes) && Faithful(routes, st', g)
  {
  }

  lemma OfferKeeps(routes: seq<CompiledRoute>, i: nat, topic: string, payload: seq<int>, st: Tables)
    requires i < |routes| && Covers(st, routes) && AllSound(st)
    ensures var st' := TablesAfter(routes[i], topic, st);
      && Grows(st, st') && AllSound(st') && Covers(st', routes)
      && forall g :: g in Ingested(routes[i], i, topic, payload, st) ==> Faithful(routes, st', g)
  {
    var (hit, spans) := Matches(routes[i], topic);
    if hit && routes[i].key.Some? {
      var t, value := routes[i].key.value.0, Captured(routes[i], topic, spans);
      if value.Some? {
        AssignedIsSound(st[t], t.capacity, value.value);
      }
    }
  }

  /** A table changes only for a value a route is called with that had no key, and then by that value alone. */
  lemma OfferGrows(route: CompiledRoute, topic: string, st: Tables)
    requires route.key.Some? ==> route.key.value.0 in st
    ensures TablesAfter(route, topic, st) != st ==>
      && route.key.Some? && Ingests(route, topic, st)
      && var t, value := route.key.value.0, Captured(route, topic, Matches(route, topic).1);
        && value.Some? && value.value !in st[t]
        && TablesAfter(route, topic, st) == st[t := st[t] + [value.value]]
  {
    if route.key.Some? {
      var t := route.key.value.0;
      assert st[t := st[t]] == st;
    }
  }

  /** What holds at the start of a dispatch and is kept by offering to every route holds after it. */
  lemma {:induction false} DispatchKeeps(routes: seq<CompiledRoute>, n: nat, topic: string, payload: seq<int>,
        st: Tables, inv: (Tables, seq<Ingest>) -> bool)
    requires n <= |routes| && Covers(st, routes) && inv(st, [])
    requires forall i, s, calls :: 0 <= i < n && Covers(s, routes) && inv(s, calls) ==>
      inv(TablesAfter(routes[i], topic, s), calls + Ingested(routes[i], i, topic, payload, s))
    ensures inv(StateAfter(routes, n, topic, st), IngestedBy(routes, n, topic, payload, st))
  {
    if n > 0 {
      DispatchKeeps(routes, n - 1, topic, payload, st, inv);
      assert Covers(StateAfter(routes, n - 1, topic, st), routes);
    }
  }

  lemma RouteKeeps(routes: seq<CompiledRoute>, n: nat, topic: string, payload: seq<int>, st: Tables)
    requires n <= |routes| && Covers(st, routes) && AllSound(st)
    ensures Keeps(routes, st, StateAfter(routes, n, topic, st), IngestedBy(routes, n, topic, payload, st))
  {
    var inv := (s, calls) => Keeps(routes, st, s, calls);
    forall i, s, calls | 0 <= i < n && Covers(s, routes) && inv(s, calls)
      ensures inv(TablesAfter(routes[i], topic, s), calls + Ingested(routes[i], i, topic, payload, s))
    {
      RouteKeepsStep(routes, i, topic, payload, st, s, calls);
    }
    DispatchKeeps(routes, n, topic, payload, st, inv);
  }

  lemma {:induction false} RouteKeepsStep(routes: seq<CompiledRoute>, n: nat, topic: string, payload: seq<int>,
        st: Tables, st1: Tables, calls: seq<Ingest>)
    requires n < |routes| && Covers(st, routes) && Keeps(routes, st, st1, calls)
    ensures Keeps(routes, st, TablesAfter(routes[n], topic, st1), calls + Ingested(routes[n], n, topic, payload, st1))
  {
    OfferKeeps(routes, n, topic, payload, st1);
    KeepsMore(routes, st, st1, TablesAfter(routes[n], topic, st1), calls, Ingested(routes[n], n, topic, payload, st1));
  }

  /** Tables only grow and stay sound, and the calls' keys stand for what they captured. */
  ghost predicate Keeps(routes: seq<CompiledRoute>, st: Tables, st': Tables, calls: seq<Ingest>) {
    && Grows(st, st') && AllSound(st') && Covers(st', routes)
    && forall g :: g in calls ==> Faithful(routes, st', g)
  }

  lemma KeepsMore(routes: seq<CompiledRoute>, st: Tables, st1: Tables, st2: Tables, a: seq<Ingest>, b: seq<Ingest>)
    requires Covers(st, routes) && Keeps(routes, st, st1, a) && Keeps(routes, st1, st2, b)
    ensures Keeps(routes, st, st2, a + b)
  {
    forall g | g in a
      ensures Faithful(routes, st2, g)
    {
      FaithfulGrows(routes, st1, st2, g);
    }
  }

  /** Whether the route's callback is to run: it matches, and a keyed route's value has or gets a key. */
  ghost predicate Ingests(route: CompiledRoute, topic: string, st: Tables)
    requires route.key.Some? ==> route.key.value.0 in st
  {
    && Matches(route, topic).0
    && (route.key.Some? ==>
      var t, value := route.key.value.0, Captured(route, topic, Matches(route, topic).1);
      value.Some? && (value.value in st[t] || |st[t]| < t.capacity))
  }

  lemma IngestedIff(route: CompiledRoute, i: nat, topic: string, payload: seq<int>, st: Tables)
    requires route.key.Some? ==> route.key.value.0 in st
    ensures |Ingested(route, i, topic, payload, st)| == if Ingests(route, topic, st) then 1 else 0
  {
  }

  /** The call is for the message, with the route's own names and the spans its match wrote. */
  ghost predicate IsCallFor(g: Ingest, routes: seq<CompiledRoute>, topic: string, payload: seq<int>) {
    && g.route < |routes| && g.payload == payload && g.m.topic == topic
    && g.m.names == routes[g.route].names && Matches(routes[g.route], topic) == (true, g.m.spans)
  }

  /** The calls are for the message, for routes below n in increasing order. */
  ghost predicate InOrder(calls: seq<Ingest>, routes: seq<CompiledRoute>, n: nat, topic: string, payload: seq<int>) {
    && (forall k :: 0 <= k < |calls| ==> calls[k].route < n && IsCallFor(calls[k], routes, topic, payload))
    && (forall k, l :: 0 <= k < l < |calls| ==> calls[k].route < calls[l].route)
  }

  lemma IngestedInOrder(calls: seq<Ingest>, routes: seq<CompiledRoute>, i: nat, topic: string, payload: seq<int>,
        st: Tables)
    requires i < |routes| && Covers(st, routes) && InOrder(calls, routes, i, topic, payload)
    ensures InOrder(calls + Ingested(routes[i], i, topic, payload, st), routes, i + 1, topic, payload)
    ensures Ingested(routes[i], i, topic, payload, st) != [] ==> Ingested(routes[i], i, topic, payload, st)[0].route == i
  {
    var made := Ingested(routes[i], i, topic, payload, st);
    IngestedIff(routes[i], i, topic, payload, st);
    if made != [] {
      assert IsCallFor(made[0], routes, topic, payload);
    }
  }

  /** The calls of a dispatch are for its message, in route order, at most one per route. */
  lemma {:induction false} CallsInOrder(routes: seq<CompiledRoute>, n: nat, topic: string, payload: seq<int>,
        st: Tables)
    requires n <= |routes| && Covers(st, routes)
    ensures InOrder(IngestedBy(routes, n, topic, payload, st), routes, n, topic, payload)
  {
    if n > 0 {
      CallsInOrder(routes, n - 1, topic, payload, st);
      IngestedInOrder(IngestedBy(routes, n - 1, topic, payload, st), routes, n - 1, topic, payload,
        StateAfter(routes, n - 1, topic, st));
    }
  }

  /** Some call is for route i. */
  ghost predicate Reached(calls: seq<Ingest>, i: nat) {
    exists k :: 0 <= k < |calls| && calls[k].route == i
  }

  lemma ReachedAppend(a: seq<Ingest>, b: seq<Ingest>, i: nat)
    ensures Reached(a + b, i) <==> Reached(a, i) || Reached(b, i)
  {
    if k :| 0 <= k < |a| && a[k].route == i {
      assert (a + b)[k] == a[k];
    }
    if k :| 0 <= k < |b| && b[k].route == i {
      assert (a + b)[|a| + k] == b[k];
    }
  }

  /** Offering to route j reaches it exactly when it takes the message, and no earlier route. */
  lemma OfferReaches(all: seq<Ingest>, routes: seq<CompiledRoute>, j: nat, topic: string, payload: seq<int>,
        st: Tables, i: nat)
    requires i <= j < |routes| && Covers(st, routes) && InOrder(all, routes, j, topic, payload)
    ensures Reached(all + Ingested(routes[j], j, topic, payload, st), i) <==>
      if i < j then Reached(all, i) else Ingests(routes[j], topic, st)
  {
    var made := Ingested(routes[j], j, topic, payload, st);
    IngestedInOrder(all, routes, j, topic, payload, st);
    IngestedIff(routes[j], j, topic, payload, st);
    ReachedAppend(all, made, i);
    assert made != [] ==> made[0].route == j;
  }

  /** Exactly the routes that take the message ingest it; a keyed one only when its value has a key or gets one. */
  lemma {:induction false} RouteReaches(routes: seq<CompiledRoute>, n: nat, topic: string, payload: seq<int>,
        st: Tables, i: nat)
    requires n <= |routes| && Covers(st, routes) && i < n
    ensures Reached(IngestedBy(routes, n, topic, payload, st), i) <==> Ingests(routes[i], topic, StateAfter(routes, i, topic, st))
  {
    CallsInOrder(routes, n - 1, topic, payload, st);
    OfferReaches(IngestedBy(routes, n - 1, topic, payload, st), routes, n - 1, topic, payload,
      StateAfter(routes, n - 1, topic, st), i);
    if i < n - 1 {
      RouteReaches(routes, n - 1, topic, payload, st, i);
    }
  }

  // ----- Whole runs -----

  datatype Message = Message(topic: string, payload: seq<int>)

  function RunState(routes: seq<CompiledRoute>, messages: seq<Message>, n: nat, st: Tables): (st': Tables)
    requires n <= |messages| && Covers(st, routes)
    ensures st'.Keys == st.Keys
  {
    if n == 0 then st
    else StateAfter(routes, |routes|, messages[n - 1].topic, RunState(routes, messages, n - 1, st))
  }

  /** Everything ingested over the first n messages, in order. */
  function RunLog(routes: seq<CompiledRoute>, messages: seq<Message>, n: nat, st: Tables): seq<Ingest>
    requires n <= |messages| && Covers(st, routes)
  {
    if n == 0 then []
    else
      RunLog(routes, messages, n - 1, st)
      + IngestedBy(routes, |routes|, messages[n - 1].topic, messages[n - 1].payload, RunState(routes, messages, n - 1, st))
  }

  lemma {:induction false} RunKeeps(routes: seq<CompiledRoute>, messages: seq<Message>, n: nat, st: Tables)
    requires n <= |messages| && Covers(st, routes) && AllSound(st)
    ensures var st' := RunState(routes, messages, n, st);
      && Grows(st, st') && AllSound(st') && Covers(st', routes)
      && forall g :: g in RunLog(routes, messages, n, st) ==> Faithful(routes, st', g)
  {
    if n > 0 {
      RunKeeps(routes, messages, n - 1, st);
      var st1, st2 := RunState(routes, messages, n - 1, st), RunState(routes, messages, n, st);
      RouteKeeps(routes, |routes|, messages[n - 1].topic, messages[n - 1].payload, st1);
      forall g | g in RunLog(routes, messages, n - 1, st)
        ensures Faithful(routes, st2, g)
      {
        FaithfulGrows(routes, st1, st2, g);
      }
    }
  }

  /**
   Over any run, two messages ingested through keyed routes that share a table carry the same
   key exactly when they captured the same value.
   */
  lemma {:induction false} RunSameKeyIffSameValue(routes: seq<CompiledRoute>, messages: seq<Message>, st: Tables,
        a: Ingest, b: Ingest)
    requires Covers(st, routes) && AllSound(st)
    requires a in RunLog(routes, messages, |messages|, st) && b in RunLog(routes, messages, |messages|, st)
    requires a.route < |routes| && b.route < |routes| && routes[a.route].key.Some? && routes[b.route].key.Some?
    requires routes[a.route].key.value.0 == routes[b.route].key.value.0
    ensures a.m.key.Some? && b.m.key.Some?
    ensures a.m.key == b.m.key <==>
      Captured(routes[a.route], a.m.topic, a.m.spans) == Captured(routes[b.route], b.m.topic, b.m.spans)
    ensures 1 <= a.m.key.value.raw <= routes[a.route].key.value.0.capacity
  {
    RunKeeps(routes, messages, |messages|, st);
  }

  /** A keyed route's callback can read the keyed value by the capture's name. */
  lemma KeyedValueByName(route: CompiledRoute, g: Ingest)
    requires route.key.Some? && route.key.value.1 < |route.names| && g.m.names == route.names
    requires forall i, j :: 0 <= i < j < |route.names| ==> route.names[i] != route.names[j]
    ensures g.m.Get(route.names[route.key.value.1]) == Captured(route, g.m.topic, g.m.spans)
  {
  }

  // ----- The router -----

  /** The key a matching route's message gets; nothing when it is dropped. */
  function KeyResult(route: CompiledRoute, topic: string, spans: Spans, st: Tables): Option<Option<KeyId>>
    requires route.key.Some? ==> route.key.value.0 in st
  {
    if route.key.None? then Some(None)
    else
      var t, value := route.key.value.0, Captured(route, topic, spans);
      if value.None? then None
      else
        var k := KeyOf(st[t], t.capacity, value.value);
        if k.Some? then Some(k) else None
  }

  function KeyState(route: CompiledRoute, topic: string, spans: Spans, st: Tables): Tables
    requires route.key.Some? ==> route.key.value.0 in st
  {
    if route.key.None? || Captured(route, topic, spans).None? then st
    else
      var t := route.key.value.0;
      st[t := Assigned(st[t], t.capacity, Captured(route, topic, spans).value)]
  }

  class Router {
    const routes: seq<CompiledRoute>

    constructor (rs: seq<CompiledRoute>)
      ensures routes == rs
    {
      routes := rs;
    }

    ghost function Shared(): set<KeyTable> {
      set r | r in routes && r.key.Some? :: r.key.value.0
    }

    ghost predicate Valid()
      reads Shared()
    {
      forall t :: t in Shared() ==> t.Valid()
    }

    /** The values each of the routes' tables has keys for. */
    ghost function Now(): (st: Tables)
      reads Shared()
      ensures Covers(st, routes)
    {
      var st := map t | t in Shared() :: t.names;
      forall i | 0 <= i < |routes| && routes[i].key.Some?
        ensures routes[i].key.value.0 in st
      {
        assert routes[i] in routes;
      }
      st
    }

    /** The message's key: none of its own for a route without keys, nothing when the message is dropped. */
    method Key(i: nat, topic: string, spans: Spans) returns (k: Option<Option<KeyId>>)
      requires i < |routes| && Valid()
      modifies Shared()
      ensures Valid()
      ensures k == KeyResult(routes[i], topic, spans, old(Now()))
      ensures Now() == KeyState(routes[i], topic, spans, old(Now()))
    {
      var route := routes[i];
      assert route in routes;
      if route.key.None? {
        return Some(None);
      }
      var (table, capture) := route.key.value;
      if capture >= |spans| {
        return None;
      }
      var value := Slice(topic, spans[capture]);
      if value.None? {
        return None;
      }
      ghost var before := Now();
      var id := table.Key(value.value);
      assert Now() == before[table := table.names];
      k := if id.Some? then Some(id) else None;
    }

    /** Offers the message to one route: whether it matched, and the call made, if any. */
    method Offer(i: nat, topic: string, payload: seq<int>) returns (hit: bool, calls: seq<Ingest>)
      requires i < |routes| && Valid()
      modifies Shared()
      ensures Valid()
      ensures hit == Matches(routes[i], topic).0
      ensures calls == Ingested(routes[i], i, topic, payload, old(Now())) && |calls| <= 1
      ensures Now() == TablesAfter(routes[i], topic, old(Now()))
    {
      calls := [];
      var matching := Matches(routes[i], topic);
      hit := matching.0;
      if hit {
        var key := Key(i, topic, matching.1);
        if key.Some? {
          calls := [Ingest(i, TopicMatch(topic, routes[i].names, matching.1, key.value), payload)];
        }
      }
    }

    /**
     Offers the message to every route in order. The answer of a callback only decides what is
     logged; the calls made and the tables are those of IngestedBy and StateAfter.
     */
    method Route(topic: string, payload: seq<int>, ingest: Ingest -> bool) returns (calls: seq<Ingest>, seen: Seen)
      requires Valid()
      modifies Shared()
      ensures Valid()
      ensures calls == IngestedBy(routes, |routes|, topic, payload, old(Now()))
      ensures Now() == StateAfter(routes, |routes|, topic, old(Now()))
      ensures seen.NoRoute? <==> Unmatched(routes, |routes|, topic)
      ensures seen.Routed? <==> Accepted(calls, ingest)
    {
      var routed, matched := false, false;
      calls := [];
      ghost var st := Now();
      for i := 0 to |routes|
        invariant Valid()
        invariant calls == IngestedBy(routes, i, topic, payload, st)
        invariant Now() == StateAfter(routes, i, topic, st)
        invariant matched == AnyMatches(routes, i, topic)
        invariant routed <==> Accepted(calls, ingest)
        invariant routed ==> matched
      {
        assert routes[i] in routes;
        var hit, made := Offer(i, topic, payload);
        AcceptedAppend(calls, made, ingest);
        calls := calls + made;
        matched := matched || hit;
        routed := routed || (made != [] && ingest(made[0]));
      }
      AnyMatchesIff(routes, |routes|, topic);
      seen := if routed then Routed else if matched then NotProduced else NoRoute;
    }
  }
}
