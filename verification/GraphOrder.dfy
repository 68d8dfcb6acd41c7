/**
 The start order: Kahn's algorithm without in-degrees. A record is released when the last of
 its inputs is taken; records ready at once are taken first-in first-out, or by a seeded draw.
 */
module GraphOrder {
  import opened Wrappers
  import opened Walks
  import opened Graph
  import SplitMix

  datatype Kahn = Kahn(queue: seq<Key>, order: seq<Key>, rng: Option<bv64>)

  /** Removes q[i] and puts the last element in its place. */
  function SwapRemoveBack(q: seq<Key>, i: nat): seq<Key>
    requires i < |q|
  {
    q[i := q[|q| - 1]][..|q| - 1]
  }

  /** The index of the next record in the queue. */
  function Pick(s: Kahn): (i: nat)
    requires s.queue != []
    ensures i < |s.queue|
  {
    if s.rng.None? then 0 else SplitMix.Below(s.rng.value, |s.queue|)
  }

  function Rest(s: Kahn): seq<Key>
    requires s.queue != []
  {
    if s.rng.None? then s.queue[1..] else SwapRemoveBack(s.queue, Pick(s))
  }

  function NextRng(rng: Option<bv64>): Option<bv64> {
    if rng.None? then None else Some(SplitMix.NextState(rng.value))
  }

  function Step(nodes: seq<GraphNode>, s: Kahn): Kahn
    requires s.queue != []
  {
    var a := s.queue[Pick(s)];
    Kahn(Rest(s) + Released(nodes, |nodes|, s.order, a), s.order + [a], NextRng(s.rng))
  }

  /** The keys of the first n records that have no inputs, in registration order. */
  function Roots(nodes: seq<GraphNode>, n: nat): seq<Key>
    requires n <= |nodes|
  {
    if n == 0 then []
    else Roots(nodes, n - 1) + if Inputs(nodes[n - 1]) == [] then [nodes[n - 1].key] else []
  }

  function Start(nodes: seq<GraphNode>, seed: Option<bv64>): Kahn {
    Kahn(Roots(nodes, |nodes|), [], seed)
  }

  /** Every record of order comes after all its inputs. */
  ghost predicate AfterInputs(nodes: seq<GraphNode>, order: seq<Key>) {
    forall i :: 0 <= i < |order| ==> Ready(nodes, order[i], order[..i])
  }

  /** Taken and queued records are distinct, and are exactly those whose inputs are all taken. */
  ghost predicate Inv(nodes: seq<GraphNode>, s: Kahn) {
    && NoDup(s.order + s.queue)
    && (forall k :: k in s.order + s.queue <==> Ready(nodes, k, s.order))
    && AfterInputs(nodes, s.order)
  }

  lemma RestRemovesPick(s: Kahn)
    requires s.queue != []
    ensures multiset(s.queue) == multiset(Rest(s)) + multiset{s.queue[Pick(s)]}
  {
    var q, i, last := s.queue, Pick(s), |s.queue| - 1;
    if s.rng.None? {
      assert q == [q[0]] + q[1..];
    } else {
      assert q == q[..last] + [q[last]];
      if i < last {
        assert q[i := q[last]][..last] == q[..last][i := q[last]];
        assert q[..last][i] == q[i];
      } else {
        assert q[i := q[last]][..last] == q[..last];
      }
    }
  }

  /** Which index is taken: the first without a seed, otherwise the one drawn. */
  lemma PickIs(s: Kahn, i: nat, draw: nat)
    requires s.queue != [] && (s.rng.Some? ==> draw == SplitMix.Output(SplitMix.NextState(s.rng.value)) as int)
    ensures s.rng.None? ==> Pick(s) == 0
    ensures s.rng.Some? ==>
      (Pick(s) == i <==>
        i * 0x1_0000_0000_0000_0000 <= draw * |s.queue| < i * 0x1_0000_0000_0000_0000 + 0x1_0000_0000_0000_0000)
  {
    if s.rng.Some? {
      SplitMix.IndexDrawn(s.rng.value, |s.queue|, i, draw);
    }
  }

  /** How the queue closes up: from the front without a seed, with the last record where one was drawn. */
  lemma RestAt(s: Kahn, j: nat)
    requires s.queue != [] && j < |s.queue| - 1
    ensures |Rest(s)| == |s.queue| - 1
    ensures Rest(s)[j] == if s.rng.None? then s.queue[j + 1] else if j == Pick(s) then s.queue[|s.queue| - 1] else s.queue[j]
  {
  }

  lemma {:induction false} RootsExactly(nodes: seq<GraphNode>, n: nat)
    requires DistinctKeys(nodes) && n <= |nodes|
    ensures NoDup(Roots(nodes, n))
    ensures forall k :: k in Roots(nodes, n) <==> exists i :: 0 <= i < n && nodes[i].key == k && Inputs(nodes[i]) == []
  {
    if n > 0 {
      RootsExactly(nodes, n - 1);
      assert nodes[n - 1].key !in Roots(nodes, n - 1);
      NoDupSnoc(Roots(nodes, n - 1), nodes[n - 1].key);
    }
  }

  lemma StartInv(nodes: seq<GraphNode>, seed: Option<bv64>)
    requires DistinctKeys(nodes)
    ensures Inv(nodes, Start(nodes, seed))
  {
    RootsExactly(nodes, |nodes|);
    var s := Start(nodes, seed);
    assert s.order + s.queue == s.queue;
    forall i | 0 <= i < |nodes|
      ensures AllIn(Inputs(nodes[i]), []) <==> Inputs(nodes[i]) == []
    {
      if Inputs(nodes[i]) != [] {
        assert Inputs(nodes[i])[0] in Inputs(nodes[i]);
      }
    }
  }

  lemma ReadyGrows(nodes: seq<GraphNode>, taken: seq<Key>, a: Key, k: Key)
    requires DistinctKeys(nodes) && a !in taken
    ensures Ready(nodes, k, taken + [a]) <==> Ready(nodes, k, taken) || k in Released(nodes, |nodes|, taken, a)
    ensures !(Ready(nodes, k, taken) && k in Released(nodes, |nodes|, taken, a))
  {
    ReleasedExactly(nodes, |nodes|, taken, a);
    if Ready(nodes, k, taken) {
      var i :| 0 <= i < |nodes| && nodes[i].key == k && AllIn(Inputs(nodes[i]), taken);
      assert AllIn(Inputs(nodes[i]), taken + [a]) && !Unblocks(nodes, i, taken, a);
    }
    if Ready(nodes, k, taken + [a]) && !Ready(nodes, k, taken) {
      var i :| 0 <= i < |nodes| && nodes[i].key == k && AllIn(Inputs(nodes[i]), taken + [a]);
      assert Unblocks(nodes, i, taken, a);
    }
  }

  lemma StepKeepsInv(nodes: seq<GraphNode>, s: Kahn)
    requires DistinctKeys(nodes) && Inv(nodes, s) && s.queue != []
    ensures Inv(nodes, Step(nodes, s))
  {
    var s' := Step(nodes, s);
    forall k
      ensures k in s'.order + s'.queue <==> Ready(nodes, k, s'.order)
      ensures multiset(s'.order + s'.queue)[k] <= 1
    {
      StepKeepsReady(nodes, s, k);
    }
    assert s.queue[Pick(s)] in s.order + s.queue;
    AfterInputsGrows(nodes, s.order, s.queue[Pick(s)]);
  }

  lemma AfterInputsGrows(nodes: seq<GraphNode>, order: seq<Key>, a: Key)
    requires AfterInputs(nodes, order) && Ready(nodes, a, order)
    ensures AfterInputs(nodes, order + [a])
  {
    forall i | 0 <= i < |order| + 1
      ensures Ready(nodes, (order + [a])[i], (order + [a])[..i])
    {
      if i < |order| {
        assert (order + [a])[..i] == order[..i];
      } else {
        assert (order + [a])[..i] == order;
      }
    }
  }

  lemma {:induction false} StepKeepsReady(nodes: seq<GraphNode>, s: Kahn, k: Key)
    requires DistinctKeys(nodes) && Inv(nodes, s) && s.queue != []
    ensures k in Step(nodes, s).order + Step(nodes, s).queue <==> Ready(nodes, k, Step(nodes, s).order)
    ensures multiset(Step(nodes, s).order + Step(nodes, s).queue)[k] <= 1
  {
    var a := s.queue[Pick(s)];
    PickIsNew(nodes, s);
    StepCount(nodes, s, k);
    ReadyGrows(nodes, s.order, a, k);
    ReleasedExactly(nodes, |nodes|, s.order, a);
    assert k in s.order + s.queue <==> Ready(nodes, k, s.order);
  }

  /** A step keeps every taken or queued record and adds the released ones. */
  lemma {:induction false} StepCount(nodes: seq<GraphNode>, s: Kahn, k: Key)
    requires s.queue != []
    ensures var s', freed := Step(nodes, s), Released(nodes, |nodes|, s.order, s.queue[Pick(s)]);
      && multiset(s'.order + s'.queue)[k] == multiset(s.order + s.queue)[k] + multiset(freed)[k]
      && (k in s'.order + s'.queue <==> k in s.order + s.queue || k in freed)
  {
    RestRemovesPick(s);
    var s', freed := Step(nodes, s), Released(nodes, |nodes|, s.order, s.queue[Pick(s)]);
    assert multiset(s'.order + s'.queue)[k] == multiset(s.order + s.queue)[k] + multiset(freed)[k];
    assert k in s'.order + s'.queue <==> multiset(s'.order + s'.queue)[k] > 0;
    assert k in s.order + s.queue <==> multiset(s.order + s.queue)[k] > 0;
    assert k in freed <==> multiset(freed)[k] > 0;
  }

  lemma PickIsNew(nodes: seq<GraphNode>, s: Kahn)
    requires Inv(nodes, s) && s.queue != []
    ensures s.queue[Pick(s)] !in s.order
  {
    var a := s.queue[Pick(s)];
    assert a in s.order + s.queue;
    assert multiset(s.order + s.queue)[a] == multiset(s.order)[a] + multiset(s.queue)[a];
    assert a in s.queue && a in multiset(s.queue);
  }

  ghost function KeySet(nodes: seq<GraphNode>): set<Key> {
    set k | k in Keys(nodes)
  }

  lemma {:induction false} KeySetSize(nodes: seq<GraphNode>)
    requires DistinctKeys(nodes)
    ensures |KeySet(nodes)| == |nodes|
  {
    if nodes == [] {
      assert KeySet(nodes) == {};
    } else {
      var last := |nodes| - 1;
      var init := nodes[..last];
      KeySetSize(init);
      assert Keys(nodes) == Keys(init) + [nodes[last].key];
      assert KeySet(nodes) == KeySet(init) + {nodes[last].key};
      assert nodes[last].key !in KeySet(init);
    }
  }

  /** No more records are taken or queued than are registered. */
  lemma InvBounds(nodes: seq<GraphNode>, s: Kahn)
    requires DistinctKeys(nodes) && Inv(nodes, s)
    ensures |s.order| + |s.queue| <= |nodes|
  {
    KeySetSize(nodes);
    forall k | k in s.order + s.queue
      ensures k in KeySet(nodes)
    {
      var i :| 0 <= i < |nodes| && nodes[i].key == k && AllIn(Inputs(nodes[i]), s.order);
      assert Keys(nodes)[i] == k;
    }
    NoDupLength(s.order + s.queue, KeySet(nodes));
  }

  /** The state when the queue has run empty. */
  ghost function Run(nodes: seq<GraphNode>, s: Kahn): (r: Kahn)
    requires DistinctKeys(nodes) && Inv(nodes, s)
    ensures Inv(nodes, r) && r.queue == []
    decreases |nodes| - |s.order|
  {
    if s.queue == [] then s
    else
      StepKeepsInv(nodes, s);
      InvBounds(nodes, s);
      Run(nodes, Step(nodes, s))
  }

  /** The records in the order they start, a function of the registration list and the seed only. */
  ghost function StartOrder(nodes: seq<GraphNode>, seed: Option<bv64>): seq<Key>
    requires DistinctKeys(nodes)
  {
    StartInv(nodes, seed);
    Run(nodes, Start(nodes, seed)).order
  }

  lemma StartOrderInv(nodes: seq<GraphNode>, seed: Option<bv64>)
    requires DistinctKeys(nodes)
    ensures Inv(nodes, Kahn([], StartOrder(nodes, seed), None))
  {
    StartInv(nodes, seed);
    var r := Run(nodes, Start(nodes, seed));
    assert r.order + r.queue == StartOrder(nodes, seed) + [];
  }

  // ----- What the order is, in terms of cycles -----

  /** A registered record never taken has a registered input never taken. */
  lemma StuckInput(nodes: seq<GraphNode>, order: seq<Key>, k: Key) returns (x: Key)
    requires AllInputsRegistered(nodes) && Registered(nodes, k) && !Ready(nodes, k, order)
    ensures x !in order && Registered(nodes, x) && Feeds(nodes, x, k)
  {
    var i :| 0 <= i < |nodes| && nodes[i].key == k;
    assert !AllIn(Inputs(nodes[i]), order);
    x :| x in Inputs(nodes[i]) && x !in order;
  }

  /** The records never taken all have an input among them. */
  lemma StuckHasStuckInput(nodes: seq<GraphNode>, order: seq<Key>, stuck: set<Key>)
    requires DistinctKeys(nodes) && AllInputsRegistered(nodes)
    requires forall k :: k in order <==> Ready(nodes, k, order)
    requires stuck == set k | k in KeySet(nodes) && k !in order
    ensures BackwardClosed(FeedsRel(nodes), stuck)
  {
    forall k | k in stuck
      ensures HasPredecessor(FeedsRel(nodes), stuck, k)
    {
      var i :| 0 <= i < |nodes| && Keys(nodes)[i] == k;
      assert nodes[i].key == k;
      var x := StuckInput(nodes, order, k);
      var j :| 0 <= j < |nodes| && nodes[j].key == x;
      assert Keys(nodes)[j] == x;
      assert FeedsRel(nodes)(x, k);
    }
  }

  /** What a cycle or anything below it holds back is never taken. */
  lemma {:induction false} CycleNeverTaken(nodes: seq<GraphNode>, order: seq<Key>, c: seq<Key>, n: nat)
    requires DistinctKeys(nodes) && NoDup(order) && AfterInputs(nodes, order)
    requires IsCycle(FeedsRel(nodes), c) && n <= |order|
    ensures forall i :: 0 <= i < |c| ==> c[i] !in order[..n]
    decreases n
  {
    if n > 0 {
      CycleNeverTaken(nodes, order, c, n - 1);
      var k := order[n - 1];
      assert order[..n] == order[..n - 1] + [k];
      if i :| 0 <= i < |c| && c[i] == k {
        // The predecessor of c[i] on the cycle is an input of k, so it was taken before.
        var p := if i > 0 then i - 1 else |c| - 2;
        var q := p + 1;
        assert c[q] == k;
        assert FeedsRel(nodes)(c[p], c[q]);
        ReadyTakesInputs(nodes, c[p], k, order[..n - 1]);
        assert false;
      }
    }
  }

  lemma ReadyTakesInputs(nodes: seq<GraphNode>, a: Key, k: Key, taken: seq<Key>)
    requires DistinctKeys(nodes) && Feeds(nodes, a, k) && Ready(nodes, k, taken)
    ensures a in taken
  {
  }

  /** Downstream of a record never taken, no record is taken. */
  lemma UntakenSpreads(nodes: seq<GraphNode>, order: seq<Key>, p: seq<Key>)
    requires DistinctKeys(nodes) && AfterInputs(nodes, order)
    requires IsWalk(FeedsRel(nodes), p) && p[0] !in order
    ensures p[|p| - 1] !in order
  {
    var out := set k | k in p && k !in order;
    forall j, k | 0 <= j < |p| && k == j + 1 && k < |p| && p[j] in out
      ensures p[k] in out
    {
      assert FeedsRel(nodes)(p[j], p[k]);
      if p[k] in order {
        var i :| 0 <= i < |order| && order[i] == p[k];
        ReadyTakesInputs(nodes, p[j], p[k], order[..i]);
      }
    }
    WalkCarries(FeedsRel(nodes), p, out, 0);
  }

  /** A registered record is left out of the order exactly when it is on or below a cycle. */
  lemma OmittedIffBelowCycle(nodes: seq<GraphNode>, seed: Option<bv64>, k: Key)
    requires DistinctKeys(nodes) && AllInputsRegistered(nodes) && Registered(nodes, k)
    ensures k !in StartOrder(nodes, seed) <==> BelowCycle(FeedsRel(nodes), k)
  {
    var order := StartOrder(nodes, seed);
    StartOrderInv(nodes, seed);
    assert order + [] == order;
    if k !in order {
      var stuck := set x | x in KeySet(nodes) && x !in order;
      StuckHasStuckInput(nodes, order, stuck);
      var i :| 0 <= i < |nodes| && nodes[i].key == k;
      assert Keys(nodes)[i] == k;
      BackwardClosedBelowCycle(FeedsRel(nodes), stuck, k);
    }
    if BelowCycle(FeedsRel(nodes), k) {
      var c :| IsCycle(FeedsRel(nodes), c) && Reaches(FeedsRel(nodes), c[0], k);
      CycleNeverTaken(nodes, order, c, |order|);
      assert order[..|order|] == order;
      var p :| IsWalk(FeedsRel(nodes), p) && p[0] == c[0] && p[|p| - 1] == k;
      UntakenSpreads(nodes, order, p);
    }
  }

  /** Without a cycle the order is complete, for every seed: each key once. */
  lemma OrderIsPermutation(nodes: seq<GraphNode>, seed: Option<bv64>)
    requires DistinctKeys(nodes) && AllInputsRegistered(nodes)
    ensures |StartOrder(nodes, seed)| == |nodes| <==> Acyclic(FeedsRel(nodes))
    ensures Acyclic(FeedsRel(nodes)) ==> multiset(StartOrder(nodes, seed)) == multiset(Keys(nodes))
  {
    var order, keys := StartOrder(nodes, seed), Keys(nodes);
    StartOrderInv(nodes, seed);
    assert order + [] == order;
    NoDupIndices(keys);
    KeySetSize(nodes);
    OrderIsRegistered(nodes, order);
    if Acyclic(FeedsRel(nodes)) {
      forall k
        ensures multiset(order)[k] == multiset(keys)[k]
      {
        if k in keys {
          var i :| 0 <= i < |keys| && keys[i] == k;
          assert nodes[i].key == k;
          OmittedIffBelowCycle(nodes, seed, k);
        }
      }
      assert multiset(order) == multiset(keys);
      assert |order| == |multiset(order)|;
    } else {
      var c :| IsCycle(FeedsRel(nodes), c);
      assert IsWalk(FeedsRel(nodes), [c[0]]);
      assert BelowCycle(FeedsRel(nodes), c[0]);
      CycleRegistered(nodes, c);
      OmittedIffBelowCycle(nodes, seed, c[0]);
      NoDupLength(order, KeySet(nodes) - {c[0]});
    }
  }

  lemma OrderIsRegistered(nodes: seq<GraphNode>, order: seq<Key>)
    requires forall k :: k in order <==> Ready(nodes, k, order)
    ensures forall k :: k in order ==> k in Keys(nodes) && k in KeySet(nodes)
  {
    forall k | k in order
      ensures k in Keys(nodes)
    {
      var i :| 0 <= i < |nodes| && nodes[i].key == k && AllIn(Inputs(nodes[i]), order);
      assert Keys(nodes)[i] == k;
    }
  }

  lemma CycleRegistered(nodes: seq<GraphNode>, c: seq<Key>)
    requires IsCycle(FeedsRel(nodes), c)
    ensures Registered(nodes, c[0]) && c[0] in KeySet(nodes)
  {
    var p, q := |c| - 2, |c| - 1;
    assert FeedsRel(nodes)(c[p], c[q]);
    var i :| 0 <= i < |nodes| && nodes[i].key == c[q] && c[p] in Inputs(nodes[i]);
    assert Keys(nodes)[i] == c[0];
  }

  /** Every input of a started record starts before it, for every seed. */
  lemma InputsStartFirst(nodes: seq<GraphNode>, seed: Option<bv64>, a: Key, i: nat)
    requires DistinctKeys(nodes) && i < |StartOrder(nodes, seed)|
    requires Feeds(nodes, a, StartOrder(nodes, seed)[i])
    ensures a in StartOrder(nodes, seed)[..i]
  {
    StartOrderInv(nodes, seed);
    ReadyTakesInputs(nodes, a, StartOrder(nodes, seed)[i], StartOrder(nodes, seed)[..i]);
  }
}
