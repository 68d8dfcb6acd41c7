/**
 The inbound router of one scheme (builder.rs:1366-1445): every link of every record compiled, keyed
 links with their record's key table.
 */
module InboundRoutes {
  import opened Wrappers
  import opened KeyTables
  import opened TopicPatterns
  import opened Routers
  import Graph
  import R = Registry
  import B = Builds

  /** A connector's grammar, compiling the parts of a pattern. */
  type Grammar = seq<Part> -> Result<TopicFilter, string>

  datatype RouteError = BadPattern(error: PatternError) | Rejected(message: string) | NotACapture(name: string)

  /** The record whose link cannot be compiled, the link's topic, and why. */
  datatype LinkError = LinkError(key: Graph.Key, topic: string, error: RouteError)

  /** The names of the first n parts' captures, in order. */
  function CaptureNames(parts: seq<Part>, n: nat): (names: seq<string>)
    requires n <= |parts|
    ensures |names| == CaptureCount(parts, n)
  {
    if n == 0 then []
    else CaptureNames(parts, n - 1) + if parts[n - 1].Capture? then [parts[n - 1].name] else []
  }

  lemma {:induction false} NamesGrow(parts: seq<Part>, m: nat, n: nat)
    requires m <= n <= |parts|
    ensures CaptureNames(parts, m) <= CaptureNames(parts, n)
  {
    if m < n {
      NamesGrow(parts, m, n - 1);
    }
  }

  /** The names are in the order of the captures: a capture's number is how many stand before it. */
  lemma NameOfCapture(parts: seq<Part>, i: nat)
    requires i < |parts| && parts[i].Capture?
    ensures CaptureCount(parts, i) < |CaptureNames(parts, |parts|)|
    ensures CaptureNames(parts, |parts|)[CaptureCount(parts, i)] == parts[i].name
  {
    NamesGrow(parts, i + 1, |parts|);
    assert CaptureNames(parts, i + 1)[CaptureCount(parts, i)] == parts[i].name;
  }

  /** The route of one link. */
  function RouteOf(table: Option<KeyTable>, link: R.InboundLink,
        grammar: Grammar): (r: Result<CompiledRoute, RouteError>)
    ensures r.Success? && link.key.Some? && table.Some? ==>
      && r.value.key.Some? && r.value.key.value.0 == table.value
      && r.value.key.value.1 < |r.value.names|
      && r.value.names[r.value.key.value.1] == link.key.value.0
    ensures r.Success? && (link.key.None? || table.None?) ==> r.value.key.None?
  {
    var parts := ParseSpec(link.topic);
    if parts.Failure? then Failure(BadPattern(parts.error))
    else
      var filter := grammar(parts.value);
      if filter.Failure? then Failure(Rejected(filter.error))
      else
        var names := CaptureNames(parts.value, |parts.value|);
        if link.key.None? || table.None? then Success(Pattern(filter.value, names, None))
        else
          var i := Find(names, link.key.value.0, |names|);
          if i == |names| then Failure(NotACapture(link.key.value.0))
          else Success(Pattern(filter.value, names, Some((table.value, i))))
  }

  method InboundRoute(table: Option<KeyTable>, link: R.InboundLink,
        grammar: Grammar) returns (r: Result<CompiledRoute, RouteError>)
    ensures r == RouteOf(table, link, grammar)
  {
    var parts := Parse(link.topic);
    if parts.Failure? {
      return Failure(BadPattern(parts.error));
    }
    var filter := grammar(parts.value);
    if filter.Failure? {
      return Failure(Rejected(filter.error));
    }
    var names := CaptureNames(parts.value, |parts.value|);
    var key: Option<(KeyTable, nat)> := None;
    if link.key.Some? && table.Some? {
      var i := Find(names, link.key.value.0, |names|);
      if i == |names| {
        return Failure(NotACapture(link.key.value.0));
      }
      key := Some((table.value, i));
    }
    r := Success(Pattern(filter.value, names, key));
  }

  /** What the links of a record, up to n, come to: routes with their record's index, and errors. */
  datatype Compiled = Compiled(routes: seq<(nat, CompiledRoute)>, errors: seq<LinkError>)

  function LinkOnto(c: Compiled, i: nat, entry: B.RecordEntry, link: R.InboundLink, scheme: string,
        grammar: Grammar): Compiled {
    if link.scheme != scheme then c
    else
      var route := RouteOf(entry.keyTable, link, grammar);
      if route.Success? then c.(routes := c.routes + [(i, route.value)])
      else c.(errors := c.errors + [LinkError(entry.entry.key, link.topic, route.error)])
  }

  function LinksOnto(c: Compiled, i: nat, entry: B.RecordEntry, n: nat, scheme: string, grammar: Grammar): Compiled
    requires n <= |entry.entry.record.inbound|
  {
    if n == 0 then c
    else LinkOnto(LinksOnto(c, i, entry, n - 1, scheme, grammar), i, entry, entry.entry.record.inbound[n - 1], scheme, grammar)
  }

  function AllLinks(storages: seq<B.RecordEntry>, n: nat, scheme: string, grammar: Grammar): Compiled
    requires n <= |storages|
  {
    if n == 0 then Compiled([], [])
    else
      var entry := storages[n - 1];
      LinksOnto(AllLinks(storages, n - 1, scheme, grammar), n - 1, entry, |entry.entry.record.inbound|, scheme, grammar)
  }

  /** All routes of a scheme, each with its record's index; or every link that cannot be compiled. */
  method InboundRouter(storages: seq<B.RecordEntry>, scheme: string, grammar: Grammar)
    returns (r: Result<(seq<CompiledRoute>, seq<nat>), seq<LinkError>>)
    ensures var c := AllLinks(storages, |storages|, scheme, grammar);
      && (c.errors != [] ==> r == Failure(c.errors))
      && (c.errors == [] ==> r.Success? && Zipped(r.value.0, r.value.1, [], c))
  {
    var routes: seq<CompiledRoute>, infos: seq<nat>, errors: seq<LinkError> := [], [], [];
    for i := 0 to |storages|
      invariant Zipped(routes, infos, errors, AllLinks(storages, i, scheme, grammar))
    {
      var entry := storages[i];
      var links := entry.entry.record.inbound;
      ghost var before := AllLinks(storages, i, scheme, grammar);
      for n := 0 to |links|
        invariant Zipped(routes, infos, errors, LinksOnto(before, i, entry, n, scheme, grammar))
      {
        if links[n].scheme == scheme {
          var route := InboundRoute(entry.keyTable, links[n], grammar);
          match route {
            case Success(compiled) =>
              routes := routes + [compiled];
              infos := infos + [i];
            case Failure(error) =>
              errors := errors + [LinkError(entry.entry.key, links[n].topic, error)];
          }
        }
      }
    }
    r := if errors != [] then Failure(errors) else Success((routes, infos));
  }

  ghost predicate Zipped(routes: seq<CompiledRoute>, infos: seq<nat>, errors: seq<LinkError>, c: Compiled) {
    && errors == c.errors && |routes| == |infos| == |c.routes|
    && forall k :: 0 <= k < |c.routes| ==> c.routes[k] == (infos[k], routes[k])
  }

  // ----- Whose table a keyed route uses -----

  /** A route of record i comes from one of its links of the scheme. */
  ghost predicate FromLink(storages: seq<B.RecordEntry>, scheme: string, grammar: Grammar, i: nat,
        route: CompiledRoute, link: R.InboundLink) {
    && i < |storages| && link in storages[i].entry.record.inbound && link.scheme == scheme
    && RouteOf(storages[i].keyTable, link, grammar) == Success(route)
  }

  ghost predicate Comes(storages: seq<B.RecordEntry>, scheme: string, grammar: Grammar, p: (nat, CompiledRoute)) {
    exists link :: FromLink(storages, scheme, grammar, p.0, p.1, link)
  }

  /** Every route comes from a link of the scheme of its record. */
  lemma {:induction false} AllCome(storages: seq<B.RecordEntry>, n: nat, scheme: string, grammar: Grammar)
    requires n <= |storages|
    ensures forall p :: p in AllLinks(storages, n, scheme, grammar).routes ==> Comes(storages, scheme, grammar, p)
  {
    var rs, es := AllPlaced(storages, n, scheme, grammar);
    var routes := AllLinks(storages, n, scheme, grammar).routes;
    forall p | p in routes
      ensures Comes(storages, scheme, grammar, p)
    {
      var k :| 0 <= k < |routes| && routes[k] == p;
      PlacedComes(storages, scheme, grammar, routes, rs, k);
    }
  }

  lemma PlacedComes(storages: seq<B.RecordEntry>, scheme: string, grammar: Grammar, routes: seq<(nat, CompiledRoute)>,
      places: seq<Place>, k: nat)
    requires RoutesAt(storages, scheme, grammar, routes, places) && k < |routes|
    ensures Comes(storages, scheme, grammar, routes[k])
  {
    var at := places[k];
    assert IsLink(storages, scheme, at);
    assert FromLink(storages, scheme, grammar, routes[k].0, routes[k].1, storages[at.0].entry.record.inbound[at.1]);
  }

  /** Every link of the scheme up to n is routed for its record, or reported. */
  lemma {:induction false} LinkIsRouted(c: Compiled, i: nat, entry: B.RecordEntry, n: nat, scheme: string,
        grammar: Grammar, m: nat)
    requires n <= |entry.entry.record.inbound|
    ensures var c' := LinksOnto(c, i, entry, n, scheme, grammar);
      && c.routes <= c'.routes && c.errors <= c'.errors
      && (m < n && entry.entry.record.inbound[m].scheme == scheme ==>
        LinkDone(c', i, entry, entry.entry.record.inbound[m], grammar))
  {
    if n > 0 {
      LinkIsRouted(c, i, entry, n - 1, scheme, grammar, m);
    }
  }

  ghost predicate LinkDone(c: Compiled, i: nat, entry: B.RecordEntry, link: R.InboundLink, grammar: Grammar) {
    match RouteOf(entry.keyTable, link, grammar)
    case Success(route) => (i, route) in c.routes
    case Failure(error) => LinkError(entry.entry.key, link.topic, error) in c.errors
  }

  /** No link of the scheme is forgotten: each gives its record's route, or an error naming it. */
  lemma {:induction false} EveryLinkIsRouted(storages: seq<B.RecordEntry>, n: nat, scheme: string, grammar: Grammar,
        i: nat, m: nat)
    requires i < n <= |storages| && m < |storages[i].entry.record.inbound|
    requires storages[i].entry.record.inbound[m].scheme == scheme
    ensures LinkDone(AllLinks(storages, n, scheme, grammar), i, storages[i], storages[i].entry.record.inbound[m], grammar)
  {
    var entry := storages[n - 1];
    LinkIsRouted(AllLinks(storages, n - 1, scheme, grammar), n - 1, entry, |entry.entry.record.inbound|, scheme, grammar, m);
    if i < n - 1 {
      EveryLinkIsRouted(storages, n - 1, scheme, grammar, i, m);
    }
  }

  /** Two keyed routes share a key table exactly when they belong to the same record. */
  lemma SameTableIffSameRecord(storages: seq<B.RecordEntry>, scheme: string, grammar: Grammar,
        p: (nat, CompiledRoute), q: (nat, CompiledRoute))
    requires B.OwnTables(storages)
    requires p in AllLinks(storages, |storages|, scheme, grammar).routes && p.1.key.Some?
    requires q in AllLinks(storages, |storages|, scheme, grammar).routes && q.1.key.Some?
    ensures p.1.key.value.0 == q.1.key.value.0 <==> p.0 == q.0
  {
    AllCome(storages, |storages|, scheme, grammar);
    assert Comes(storages, scheme, grammar, p) && Comes(storages, scheme, grammar, q);
    TableOfRoute(storages, scheme, grammar, p);
    TableOfRoute(storages, scheme, grammar, q);
    if p.0 < q.0 {
      assert storages[p.0].keyTable != storages[q.0].keyTable;
    } else if q.0 < p.0 {
      assert storages[q.0].keyTable != storages[p.0].keyTable;
    }
  }

  lemma TableOfRoute(storages: seq<B.RecordEntry>, scheme: string, grammar: Grammar, p: (nat, CompiledRoute))
    requires Comes(storages, scheme, grammar, p) && p.1.key.Some?
    ensures p.0 < |storages| && storages[p.0].keyTable == Some(p.1.key.value.0)
  {
    var link :| FromLink(storages, scheme, grammar, p.0, p.1, link);
  }

  /** In a built database every keyed link's route is keyed, by the capture the link names. */
  lemma KeyedLinkIsKeyed(storages: seq<B.RecordEntry>, i: nat, link: R.InboundLink, grammar: Grammar)
    requires B.Tabled(storages) && i < |storages| && link in storages[i].entry.record.inbound && link.key.Some?
    requires RouteOf(storages[i].keyTable, link, grammar).Success?
    ensures var route := RouteOf(storages[i].keyTable, link, grammar).value;
      && route.key.Some? && route.key.value.1 < |route.names|
      && route.names[route.key.value.1] == link.key.value.0
  {
    var links := storages[i].entry.record.inbound;
    B.KeyedHasCapacity(links, |links|);
    assert B.TableOf(storages[i]);
  }

  // ----- Names of keys -----

  /** The value a key stands for on a record. */
  function InboundKeyName(storages: seq<B.RecordEntry>, byKey: map<Graph.Key, nat>, record: Graph.Key,
        k: KeyId): Option<string>
    reads set e | e in storages && e.keyTable.Some? :: e.keyTable.value
  {
    if record !in byKey || byKey[record] >= |storages| || storages[byKey[record]].keyTable.None? then None
    else
      assert storages[byKey[record]] in storages;
      storages[byKey[record]].keyTable.value.Name(k)
  }

  /** The key an ingested message carries stands, on its route's record, for the value captured. */
  lemma KeyNameIsCaptured(storages: seq<B.RecordEntry>, byKey: map<Graph.Key, nat>, scheme: string, grammar: Grammar,
      router: Router, p: (nat, CompiledRoute), g: Ingest)
    requires B.Inverse(storages, byKey) && p in AllLinks(storages, |storages|, scheme, grammar).routes && p.1.key.Some?
    requires Faithful(router.routes, router.Now(), g) && router.routes[g.route] == p.1
    ensures p.0 < |storages| && g.m.key.Some?
    ensures InboundKeyName(storages, byKey, storages[p.0].entry.key, g.m.key.value) == Captured(p.1, g.m.topic, g.m.spans)
  {
    AllCome(storages, |storages|, scheme, grammar);
    TableOfRoute(storages, scheme, grammar, p);
    assert router.routes[g.route] in router.routes;
    assert router.Now()[p.1.key.value.0] == p.1.key.value.0.names;
  }

  // ----- Which routes and errors there are, in order -----

  /** Why a link has no route: the first reason there is. */
  lemma RouteFails(table: Option<KeyTable>, link: R.InboundLink, grammar: Grammar)
    ensures var r, parts := RouteOf(table, link, grammar), ParseSpec(link.topic);
      && (parts.Failure? ==> r == Failure(BadPattern(parts.error)))
      && (parts.Success? && grammar(parts.value).Failure? ==> r == Failure(Rejected(grammar(parts.value).error)))
      && (parts.Success? && grammar(parts.value).Success? ==>
        if table.Some? && link.key.Some? && !NamedIn(parts.value, link.key.value.0)
          then r == Failure(NotACapture(link.key.value.0)) else r.Success?)
  {
    if ParseSpec(link.topic).Success? && link.key.Some? {
      var parts := ParseSpec(link.topic).value;
      NamesAre(parts, |parts|, link.key.value.0);
    }
  }

  lemma {:induction false} NamesAre(parts: seq<Part>, n: nat, name: string)
    requires n <= |parts|
    ensures (exists i :: 0 <= i < n && parts[i].Capture? && parts[i].name == name) <==>
      exists c :: 0 <= c < |CaptureNames(parts, n)| && CaptureNames(parts, n)[c] == name
  {
    if n > 0 {
      NamesAre(parts, n - 1, name);
      var before, names := CaptureNames(parts, n - 1), CaptureNames(parts, n);
      if c :| 0 <= c < |before| && before[c] == name {
        assert names[c] == name;
      }
      if parts[n - 1].Capture? && parts[n - 1].name == name {
        assert names[|before|] == name;
      }
    }
  }

  /** A position among the links: the record, and the link of it. */
  type Place = (nat, nat)

  predicate Precedes(a: Place, b: Place) {
    a.0 < b.0 || (a.0 == b.0 && a.1 < b.1)
  }

  /** The link at a place, for the scheme. */
  predicate IsLink(storages: seq<B.RecordEntry>, scheme: string, at: Place) {
    && at.0 < |storages| && at.1 < |storages[at.0].entry.record.inbound|
    && storages[at.0].entry.record.inbound[at.1].scheme == scheme
  }

  function RouteAt(storages: seq<B.RecordEntry>, scheme: string, grammar: Grammar, at: Place): Result<CompiledRoute, RouteError>
    requires IsLink(storages, scheme, at)
  {
    RouteOf(storages[at.0].keyTable, storages[at.0].entry.record.inbound[at.1], grammar)
  }

  ghost predicate InOrder(places: seq<Place>) {
    forall k, l :: 0 <= k < l < |places| ==> Precedes(places[k], places[l])
  }

  /** Every route stands for the link at its place, under its record's index. */
  ghost predicate RoutesAt(storages: seq<B.RecordEntry>, scheme: string, grammar: Grammar,
      routes: seq<(nat, CompiledRoute)>, places: seq<Place>) {
    && |places| == |routes| && InOrder(places)
    && forall k :: 0 <= k < |routes| ==>
      && IsLink(storages, scheme, places[k])
      && routes[k].0 == places[k].0 && RouteAt(storages, scheme, grammar, places[k]) == Success(routes[k].1)
  }

  /** Every error stands for the link at its place, and names its record and topic. */
  ghost predicate ErrorsAt(storages: seq<B.RecordEntry>, scheme: string, grammar: Grammar, errors: seq<LinkError>,
      places: seq<Place>) {
    && |places| == |errors| && InOrder(places)
    && forall k :: 0 <= k < |errors| ==>
      && IsLink(storages, scheme, places[k])
      && RouteAt(storages, scheme, grammar, places[k]) == Failure(errors[k].error)
      && errors[k].key == storages[places[k].0].entry.key
      && errors[k].topic == storages[places[k].0].entry.record.inbound[places[k].1].topic
  }

  /** All places so far come before link n of record i. */
  ghost predicate Before(places: seq<Place>, i: nat, n: nat) {
    forall k :: 0 <= k < |places| ==> Precedes(places[k], (i, n))
  }

  lemma LaterLink(places: seq<Place>, i: nat, n: nat)
    requires Before(places, i, n)
    ensures Before(places, i, n + 1)
  {
  }

  lemma RoutePlaced(storages: seq<B.RecordEntry>, scheme: string, grammar: Grammar, routes: seq<(nat, CompiledRoute)>,
      places: seq<Place>, at: Place, route: CompiledRoute)
    requires RoutesAt(storages, scheme, grammar, routes, places) && Before(places, at.0, at.1)
    requires IsLink(storages, scheme, at) && RouteAt(storages, scheme, grammar, at) == Success(route)
    ensures RoutesAt(storages, scheme, grammar, routes + [(at.0, route)], places + [at])
    ensures Before(places + [at], at.0, at.1 + 1)
  {
  }

  lemma ErrorPlaced(storages: seq<B.RecordEntry>, scheme: string, grammar: Grammar, errors: seq<LinkError>,
      places: seq<Place>, at: Place, e: RouteError)
    requires ErrorsAt(storages, scheme, grammar, errors, places) && Before(places, at.0, at.1)
    requires IsLink(storages, scheme, at) && RouteAt(storages, scheme, grammar, at) == Failure(e)
    ensures var link := storages[at.0].entry.record.inbound[at.1];
      ErrorsAt(storages, scheme, grammar, errors + [LinkError(storages[at.0].entry.key, link.topic, e)], places + [at])
    ensures Before(places + [at], at.0, at.1 + 1)
  {
  }

  lemma {:induction false} LinksPlaced(storages: seq<B.RecordEntry>, c: Compiled, i: nat, n: nat, scheme: string,
      grammar: Grammar, rs: seq<Place>, es: seq<Place>) returns (rs': seq<Place>, es': seq<Place>)
    requires i < |storages| && n <= |storages[i].entry.record.inbound|
    requires RoutesAt(storages, scheme, grammar, c.routes, rs) && ErrorsAt(storages, scheme, grammar, c.errors, es)
    requires Before(rs, i, 0) && Before(es, i, 0)
    ensures var c' := LinksOnto(c, i, storages[i], n, scheme, grammar);
      RoutesAt(storages, scheme, grammar, c'.routes, rs') && ErrorsAt(storages, scheme, grammar, c'.errors, es')
    ensures Before(rs', i, n) && Before(es', i, n)
  {
    rs', es' := rs, es;
    if n > 0 {
      rs', es' := LinksPlaced(storages, c, i, n - 1, scheme, grammar, rs, es);
      rs', es' := LinkPlaced(storages, LinksOnto(c, i, storages[i], n - 1, scheme, grammar), i, n - 1, scheme, grammar, rs', es');
    }
  }

  lemma LinkPlaced(storages: seq<B.RecordEntry>, c: Compiled, i: nat, n: nat, scheme: string,
      grammar: Grammar, rs: seq<Place>, es: seq<Place>) returns (rs': seq<Place>, es': seq<Place>)
    requires i < |storages| && n < |storages[i].entry.record.inbound|
    requires RoutesAt(storages, scheme, grammar, c.routes, rs) && ErrorsAt(storages, scheme, grammar, c.errors, es)
    requires Before(rs, i, n) && Before(es, i, n)
    ensures var c' := LinkOnto(c, i, storages[i], storages[i].entry.record.inbound[n], scheme, grammar);
      RoutesAt(storages, scheme, grammar, c'.routes, rs') && ErrorsAt(storages, scheme, grammar, c'.errors, es')
    ensures Before(rs', i, n + 1) && Before(es', i, n + 1)
  {
    rs', es' := rs, es;
    LaterLink(rs, i, n);
    LaterLink(es, i, n);
    var link := storages[i].entry.record.inbound[n];
    if link.scheme == scheme {
      var route := RouteOf(storages[i].keyTable, link, grammar);
      if route.Success? {
        RoutePlaced(storages, scheme, grammar, c.routes, rs, (i, n), route.value);
        rs' := rs + [(i, n)];
      } else {
        ErrorPlaced(storages, scheme, grammar, c.errors, es, (i, n), route.error);
        es' := es + [(i, n)];
      }
    }
  }

  /** The routes are those of the scheme's links in order of records and links, and so are the errors. */
  lemma {:induction false} AllPlaced(storages: seq<B.RecordEntry>, n: nat, scheme: string, grammar: Grammar)
      returns (rs: seq<Place>, es: seq<Place>)
    requires n <= |storages|
    ensures var c := AllLinks(storages, n, scheme, grammar);
      RoutesAt(storages, scheme, grammar, c.routes, rs) && ErrorsAt(storages, scheme, grammar, c.errors, es)
    ensures Before(rs, n, 0) && Before(es, n, 0)
  {
    rs, es := [], [];
    if n > 0 {
      rs, es := AllPlaced(storages, n - 1, scheme, grammar);
      rs, es := LinksPlaced(storages, AllLinks(storages, n - 1, scheme, grammar), n - 1,
        |storages[n - 1].entry.record.inbound|, scheme, grammar, rs, es);
    }
  }
}
