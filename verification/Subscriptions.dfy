/**
 Which filters a router subscribes (router.rs:187-212): every route's filter once, in order,
 without those another one covers.
 */
module Subscriptions {
  import opened Routers
  import opened Strings
  import opened Walks

  function Filters(routes: seq<CompiledRoute>): (ids: seq<string>)
    ensures |ids| == |routes| && forall i :: 0 <= i < |routes| ==> ids[i] == routes[i].filter
  {
    seq(|routes|, i requires 0 <= i < |routes| => routes[i].filter)
  }

  /** The routes' filters in order, each once. */
  method ResourceIds(routes: seq<CompiledRoute>) returns (ids: seq<string>)
    ensures StrictlySorted(ids)
    ensures forall x :: x in ids <==> x in Filters(routes)
  {
    var sorted := SortUpTo(Filters(routes), |routes|);
    SortSorts(Filters(routes), |routes|);
    assert Filters(routes)[..|routes|] == Filters(routes);
    ids := [];
    for i := 0 to |sorted|
      invariant IdsOf(ids, sorted, i)
    {
      IdsStep(ids, sorted, i);
      if ids == [] || ids[|ids| - 1] != sorted[i] {
        ids := ids + [sorted[i]];
      }
    }
    assert sorted[..|sorted|] == sorted;
    SameMembers(sorted, Filters(routes));
  }

  /** ids holds the first i of the sorted filters, each once. */
  ghost predicate IdsOf(ids: seq<string>, sorted: seq<string>, i: nat)
    requires i <= |sorted|
  {
    && StrictlySorted(ids)
    && (forall x :: x in ids <==> x in sorted[..i])
    && (ids != [] <==> i > 0)
    && (i > 0 ==> ids[|ids| - 1] == sorted[i - 1])
  }

  lemma IdsStep(ids: seq<string>, sorted: seq<string>, i: nat)
    requires i < |sorted| && Sorted(sorted) && IdsOf(ids, sorted, i)
    ensures IdsOf(if ids == [] || ids[|ids| - 1] != sorted[i] then ids + [sorted[i]] else ids, sorted, i + 1)
  {
    assert sorted[..i + 1] == sorted[..i] + [sorted[i]];
    if ids != [] && ids[|ids| - 1] != sorted[i] {
      forall k | 0 <= k < |ids|
        ensures Less(ids[k], sorted[i])
      {
        AfterAll(ids, sorted[i - 1], sorted[i], k);
      }
    }
  }

  lemma SameMembers(a: seq<string>, b: seq<string>)
    requires multiset(a) == multiset(b)
    ensures forall x :: x in a <==> x in b
  {
    forall x
      ensures x in a <==> x in b
    {
      assert x in a <==> x in multiset(a);
      assert x in b <==> x in multiset(b);
    }
  }

  lemma AfterAll(ids: seq<string>, last: string, x: string, k: nat)
    requires StrictlySorted(ids) && k < |ids| && ids[|ids| - 1] == last && !Less(x, last) && x != last
    ensures Less(ids[k], x)
  {
    LessTotal(last, x, 0);
    if k < |ids| - 1 {
      LessTransitive(ids[k], last, x, 0);
    }
  }

  // ----- The reduction -----

  type Covering = (string, string) -> bool

  /** Another filter covers filter i, and i does not cover it back or stands later. */
  predicate Dropped(ids: seq<string>, covers: Covering, i: nat)
    requires i < |ids|
  {
    exists j :: 0 <= j < |ids| && j != i && covers(ids[j], ids[i]) && (j < i || !covers(ids[i], ids[j]))
  }

  /** Those of the first n filters that are subscribed. */
  function Kept(ids: seq<string>, covers: Covering, n: nat): seq<string>
    requires n <= |ids|
  {
    if n == 0 then []
    else Kept(ids, covers, n - 1) + if Dropped(ids, covers, n - 1) then [] else [ids[n - 1]]
  }

  /** What the router subscribes, given its resource ids. */
  function Subscriptions(ids: seq<string>, covers: Covering): seq<string> {
    Kept(ids, covers, |ids|)
  }

  lemma {:induction false} KeptWhich(ids: seq<string>, covers: Covering, n: nat, x: string)
    requires n <= |ids|
    ensures x in Kept(ids, covers, n) <==> exists i :: 0 <= i < n && ids[i] == x && !Dropped(ids, covers, i)
  {
    if n > 0 {
      KeptWhich(ids, covers, n - 1, x);
    }
  }

  /** The subscribed filters are in order, each once; with their members known that determines them. */
  lemma {:induction false} KeptSorted(ids: seq<string>, covers: Covering, n: nat)
    requires StrictlySorted(ids) && n <= |ids|
    ensures StrictlySorted(Kept(ids, covers, n))
  {
    if n > 0 {
      KeptSorted(ids, covers, n - 1);
      var kept := Kept(ids, covers, n - 1);
      forall k | 0 <= k < |kept|
        ensures Less(kept[k], ids[n - 1])
      {
        KeptWhich(ids, covers, n - 1, kept[k]);
      }
    }
  }

  /** b makes a superfluous, whatever else is subscribed. */
  ghost predicate Beats(covers: Covering, b: string, a: string) {
    b != a && covers(b, a) && (Less(b, a) || !covers(a, b))
  }

  ghost function BeatsRel(covers: Covering): (string, string) -> bool {
    (b, a) => Beats(covers, b, a)
  }

  /** A filter is dropped exactly when one of the others beats it. */
  lemma DroppedIffBeaten(ids: seq<string>, covers: Covering, x: string)
    requires StrictlySorted(ids) && x in ids
    ensures x in Subscriptions(ids, covers) <==> !exists b :: b in ids && Beats(covers, b, x)
  {
    var i :| 0 <= i < |ids| && ids[i] == x;
    KeptWhich(ids, covers, |ids|, x);
    forall j | 0 <= j < |ids|
      ensures (j == i <==> ids[j] == x) && (j < i <==> Less(ids[j], x))
    {
      StrictIndices(ids, j, i);
    }
    if b :| b in ids && Beats(covers, b, x) {
      var j :| 0 <= j < |ids| && ids[j] == b;
      assert j != i && covers(ids[j], ids[i]);
    }
    if Dropped(ids, covers, i) {
      var j :| 0 <= j < |ids| && j != i && covers(ids[j], ids[i]) && (j < i || !covers(ids[i], ids[j]));
      assert ids[j] in ids && Beats(covers, ids[j], x);
    }
  }

  /** Every subscribed filter is a resource id. */
  lemma KeptAreIds(ids: seq<string>, covers: Covering, x: string)
    requires x in Subscriptions(ids, covers)
    ensures x in ids
  {
    KeptWhich(ids, covers, |ids|, x);
  }

  /** No subscribed filter covers another, whatever the covering relation is. */
  lemma Minimal(ids: seq<string>, covers: Covering, a: string, b: string)
    requires StrictlySorted(ids) && a in Subscriptions(ids, covers) && b in Subscriptions(ids, covers) && a != b
    ensures !covers(a, b)
  {
    KeptAreIds(ids, covers, a);
    KeptAreIds(ids, covers, b);
    DroppedIffBeaten(ids, covers, a);
    DroppedIffBeaten(ids, covers, b);
    LessTotal(a, b, 0);
    assert !Beats(covers, a, b) && !Beats(covers, b, a);
  }

  // ----- When nothing is lost -----

  /** A subscribed filter from which x is reached by one filter beating the next. */
  ghost predicate Backed(ids: seq<string>, covers: Covering, x: string) {
    exists k :: k in Subscriptions(ids, covers) && Reaches(BeatsRel(covers), k, x)
  }

  lemma ReachesSelf(covers: Covering, x: string)
    ensures Reaches(BeatsRel(covers), x, x)
  {
    assert IsWalk(BeatsRel(covers), [x]);
  }

  lemma ReachesNext(covers: Covering, k: string, b: string, x: string)
    requires Reaches(BeatsRel(covers), k, b) && Beats(covers, b, x)
    ensures Reaches(BeatsRel(covers), k, x)
  {
    var p :| IsWalk(BeatsRel(covers), p) && p[0] == k && p[|p| - 1] == b;
    assert IsWalk(BeatsRel(covers), p + [x]);
    assert (p + [x])[0] == k && (p + [x])[|p + [x]| - 1] == x;
  }

  /** Going back from an unbacked filter never ends, so it meets a cycle. */
  lemma UnbackedBelowCycle(ids: seq<string>, covers: Covering, x: string)
    requires StrictlySorted(ids) && x in ids && !Backed(ids, covers, x)
    ensures BelowCycle(BeatsRel(covers), x)
  {
    var s := set y | y in ids && !Backed(ids, covers, y);
    forall y | y in s
      ensures HasPredecessor(BeatsRel(covers), s, y)
    {
      ReachesSelf(covers, y);
      DroppedIffBeaten(ids, covers, y);
      var b :| b in ids && Beats(covers, b, y);
      if Backed(ids, covers, b) {
        var k :| k in Subscriptions(ids, covers) && Reaches(BeatsRel(covers), k, b);
        ReachesNext(covers, k, b, y);
        assert false;
      }
      assert b in s && BeatsRel(covers)(b, y);
    }
    BackwardClosedBelowCycle(BeatsRel(covers), s, x);
  }

  /** Filters that beat one another in a circle are all dropped. */
  lemma CycleDropsAll(covers: Covering, c: seq<string>) returns (ids: seq<string>)
    requires IsCycle(BeatsRel(covers), c)
    ensures StrictlySorted(ids) && ids != [] && Subscriptions(ids, covers) == []
  {
    ids := SortedSet(c);
    assert c[0] in c;
    forall x | x in ids
      ensures x !in Subscriptions(ids, covers)
    {
      DroppedIffBeaten(ids, covers, x);
      var i :| 0 <= i < |c| && c[i] == x;
      var j := if i > 0 then i - 1 else |c| - 2;
      assert c[j] in c && BeatsRel(covers)(c[j], x) by {
        assert BeatsRel(covers)(c[j], c[j + 1]);
      }
      assert Beats(covers, c[j], x);
    }
    if Subscriptions(ids, covers) != [] {
      KeptAreIds(ids, covers, Subscriptions(ids, covers)[0]);
      assert false;
    }
  }

  lemma {:induction false} SortedSet(c: seq<string>) returns (ids: seq<string>)
    ensures StrictlySorted(ids) && forall x :: x in ids <==> x in c
  {
    if c == [] {
      ids := [];
    } else {
      ids := SortedSet(c[..|c| - 1]);
      assert c == c[..|c| - 1] + [c[|c| - 1]];
      if c[|c| - 1] !in ids {
        ids := InsertStrict(ids, c[|c| - 1]);
      }
    }
  }

  lemma {:induction false} InsertStrict(s: seq<string>, x: string) returns (r: seq<string>)
    requires StrictlySorted(s) && x !in s
    ensures StrictlySorted(r) && forall y :: y in r <==> y in s || y == x
  {
    if s == [] {
      r := [x];
    } else {
      var n := |s| - 1;
      assert s == s[..n] + [s[n]];
      LessTotal(s[n], x, 0);
      if Less(s[n], x) {
        r := s + [x];
        forall k | 0 <= k < |s|
          ensures Less(s[k], x)
        {
          if k < n {
            LessTransitive(s[k], s[n], x, 0);
          }
        }
      } else {
        var t := InsertStrict(s[..n], x);
        r := t + [s[n]];
        forall k | 0 <= k < |t|
          ensures Less(t[k], s[n])
        {
          assert t[k] in t;
        }
      }
    }
  }

  /**
   The exact condition under which the reduction loses nothing: no filters beat one another in
   a circle. Then every resource id hangs on a subscribed one, and otherwise some routes are
   left without any subscription at all.
   */
  lemma NothingLostIffAcyclic(covers: Covering)
    ensures Acyclic(BeatsRel(covers)) <==>
      forall ids, x :: StrictlySorted(ids) && x in ids ==> Backed(ids, covers, x)
    ensures Acyclic(BeatsRel(covers)) <==>
      forall ids :: StrictlySorted(ids) && ids != [] ==> Subscriptions(ids, covers) != []
  {
    if Acyclic(BeatsRel(covers)) {
      forall ids, x | StrictlySorted(ids) && x in ids
        ensures Backed(ids, covers, x) && Subscriptions(ids, covers) != []
      {
        if !Backed(ids, covers, x) {
          UnbackedBelowCycle(ids, covers, x);
        }
      }
      forall ids | StrictlySorted(ids) && ids != []
        ensures Subscriptions(ids, covers) != []
      {
        assert ids[0] in ids;
        assert Backed(ids, covers, ids[0]);
      }
    } else {
      var c :| IsCycle(BeatsRel(covers), c);
      var ids := CycleDropsAll(covers, c);
      assert ids[0] in ids;
      assert !Backed(ids, covers, ids[0]);
    }
  }

  // ----- What transitivity gives -----

  ghost predicate Reflexive(covers: Covering) {
    forall a :: covers(a, a)
  }

  ghost predicate Transitive(covers: Covering) {
    forall a, b, c :: covers(a, b) && covers(b, c) ==> covers(a, c)
  }

  /** A filter that covers another one matches whatever that one matches. */
  ghost predicate SoundFor(covers: Covering, takes: (string, string) -> bool) {
    forall a, b, topic :: covers(a, b) && takes(b, topic) ==> takes(a, topic)
  }

  /** What two filters beating one another in turn need for the first to cover the last. */
  ghost predicate Composes(covers: Covering) {
    forall a, b, c :: Beats(covers, a, b) && Beats(covers, b, c) ==> covers(a, c)
  }

  lemma TransitiveComposes(covers: Covering)
    requires Transitive(covers)
    ensures Composes(covers)
  {
    forall a, b, c | Beats(covers, a, b) && Beats(covers, b, c)
      ensures covers(a, c)
    {
      assert covers(a, b) && covers(b, c);
    }
  }

  lemma BeatsTransitive(covers: Covering, c: string, b: string, a: string)
    requires Composes(covers) && Beats(covers, c, b) && Beats(covers, b, a)
    ensures Beats(covers, c, a)
  {
    assert covers(c, a);
    if c == a {
      LessTransitive(a, b, a, 0);
      LessIrreflexive(a, 0);
      assert false;
    }
    if covers(a, c) && !Less(c, a) {
      LessTotal(a, c, 0);
      assert Beats(covers, a, c);
      assert covers(a, b) && covers(b, c);
      LessTransitive(c, b, a, 0);
      assert false;
    }
  }

  lemma {:induction false} BeatsAlong(covers: Covering, p: seq<string>, n: nat)
    requires Composes(covers) && IsWalk(BeatsRel(covers), p) && 0 < n < |p|
    ensures Beats(covers, p[0], p[n])
  {
    assert BeatsRel(covers)(p[n - 1], p[n]);
    if n > 1 {
      BeatsAlong(covers, p, n - 1);
      BeatsTransitive(covers, p[0], p[n - 1], p[n]);
    }
  }

  lemma ComposesIsAcyclic(covers: Covering)
    requires Composes(covers)
    ensures Acyclic(BeatsRel(covers))
  {
    forall c
      ensures !IsCycle(BeatsRel(covers), c)
    {
      if IsCycle(BeatsRel(covers), c) {
        BeatsAlong(covers, c, |c| - 1);
      }
    }
  }

  lemma TransitiveIsAcyclic(covers: Covering)
    requires Transitive(covers)
    ensures Acyclic(BeatsRel(covers))
  {
    TransitiveComposes(covers);
    ComposesIsAcyclic(covers);
  }

  lemma CoveredBySubscribed(ids: seq<string>, covers: Covering, x: string) returns (k: string)
    requires StrictlySorted(ids) && x in ids && Reflexive(covers) && Composes(covers)
    ensures k in Subscriptions(ids, covers) && covers(k, x)
  {
    ComposesIsAcyclic(covers);
    if !Backed(ids, covers, x) {
      UnbackedBelowCycle(ids, covers, x);
    }
    k :| k in Subscriptions(ids, covers) && Reaches(BeatsRel(covers), k, x);
    var p :| IsWalk(BeatsRel(covers), p) && p[0] == k && p[|p| - 1] == x;
    if |p| > 1 {
      BeatsAlong(covers, p, |p| - 1);
    }
  }

  /** With a reflexive, transitive covering every resource id is covered by a subscribed filter. */
  lemma EveryIdIsCovered(ids: seq<string>, covers: Covering, x: string) returns (k: string)
    requires StrictlySorted(ids) && x in ids && Reflexive(covers) && Transitive(covers)
    ensures k in Subscriptions(ids, covers) && covers(k, x)
  {
    TransitiveComposes(covers);
    k := CoveredBySubscribed(ids, covers, x);
  }

  /** Some subscribed filter covers x. */
  ghost predicate IsCovered(ids: seq<string>, covers: Covering, x: string) {
    exists k :: k in Subscriptions(ids, covers) && covers(k, x)
  }

  /** Of three filters that beat one another in turn only the first can be subscribed. */
  lemma OnlyFirstStays(covers: Covering, a: string, b: string, c: string)
    requires Beats(covers, a, b) && Beats(covers, b, c)
    requires forall ids, x :: StrictlySorted(ids) && x in ids ==> IsCovered(ids, covers, x)
    ensures covers(a, c)
  {
    var ids := SortedSet([a, b, c]);
    assert c in [a, b, c] && a in [a, b, c] && b in [a, b, c];
    assert IsCovered(ids, covers, c);
    var k :| k in Subscriptions(ids, covers) && covers(k, c);
    KeptAreIds(ids, covers, k);
    DroppedIffBeaten(ids, covers, k);
  }

  lemma AloneStays(covers: Covering, a: string)
    requires forall ids, x :: StrictlySorted(ids) && x in ids ==> IsCovered(ids, covers, x)
    ensures covers(a, a)
  {
    assert StrictlySorted([a]) && a in [a];
    assert IsCovered([a], covers, a);
    var k :| k in Subscriptions([a], covers) && covers(k, a);
    KeptAreIds([a], covers, k);
  }

  /** The exact condition under which every resource id of every list is covered by a subscribed filter. */
  lemma EveryIdIsCoveredIff(covers: Covering)
    ensures (forall ids, x :: StrictlySorted(ids) && x in ids ==> IsCovered(ids, covers, x))
      <==> Reflexive(covers) && Composes(covers)
  {
    if Reflexive(covers) && Composes(covers) {
      forall ids, x | StrictlySorted(ids) && x in ids
        ensures IsCovered(ids, covers, x)
      {
        var k := CoveredBySubscribed(ids, covers, x);
      }
    }
    if forall ids, x :: StrictlySorted(ids) && x in ids ==> IsCovered(ids, covers, x) {
      forall a
        ensures covers(a, a)
      {
        AloneStays(covers, a);
      }
      forall a, b, c | Beats(covers, a, b) && Beats(covers, b, c)
        ensures covers(a, c)
      {
        OnlyFirstStays(covers, a, b, c);
      }
    }
  }

  lemma {:induction false} MatchesAlong(covers: Covering, takes: (string, string) -> bool, p: seq<string>, n: nat,
        topic: string)
    requires SoundFor(covers, takes) && IsWalk(BeatsRel(covers), p) && n < |p| && takes(p[n], topic)
    ensures takes(p[0], topic)
  {
    if n > 0 {
      assert BeatsRel(covers)(p[n - 1], p[n]);
      MatchesAlong(covers, takes, p, n - 1, topic);
    }
  }

  /** Under a sound covering without circles, whatever a route takes a subscribed filter takes. */
  lemma EveryTopicIsDelivered(ids: seq<string>, covers: Covering, takes: (string, string) -> bool, x: string,
        topic: string)
    returns (k: string)
    requires StrictlySorted(ids) && x in ids && takes(x, topic)
    requires SoundFor(covers, takes) && Acyclic(BeatsRel(covers))
    ensures k in Subscriptions(ids, covers) && takes(k, topic)
  {
    if !Backed(ids, covers, x) {
      UnbackedBelowCycle(ids, covers, x);
    }
    k :| k in Subscriptions(ids, covers) && Reaches(BeatsRel(covers), k, x);
    var p :| IsWalk(BeatsRel(covers), p) && p[0] == k && p[|p| - 1] == x;
    MatchesAlong(covers, takes, p, |p| - 1, topic);
  }

  // ----- A covering that is sound and loses every topic -----

  /** Conservative: a filter covers itself and one other, in a circle of three. */
  function CircleCovers(a: string, b: string): bool {
    a == b || (a == "a" && b == "b") || (a == "b" && b == "c") || (a == "c" && b == "a")
  }

  /** Three filters that all match every topic, a sound reflexive covering, and no subscription left. */
  lemma CircleLosesAll()
    ensures Reflexive(CircleCovers)
    ensures SoundFor(CircleCovers, (f: string, topic: string) => f in ["a", "b", "c"])
    ensures StrictlySorted(["a", "b", "c"])
    ensures Subscriptions(["a", "b", "c"], CircleCovers) == []
  {
    var ids := ["a", "b", "c"];
    assert CircleCovers(ids[2], ids[0]) && !CircleCovers(ids[0], ids[2]);
    assert CircleCovers(ids[0], ids[1]) && CircleCovers(ids[1], ids[2]);
    assert Dropped(ids, CircleCovers, 0) && Dropped(ids, CircleCovers, 1) && Dropped(ids, CircleCovers, 2);
    calc {
      Kept(ids, CircleCovers, 3);
      Kept(ids, CircleCovers, 2);
      Kept(ids, CircleCovers, 1);
      [];
    }
  }
}
