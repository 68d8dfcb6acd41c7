/**
 Building and validating the graph (graph.rs:147-348). The loops keep in-degrees, adjacency
 lists and a queue; they are proved against the order of GraphOrder.
 */
module GraphBuild {
  import opened Wrappers
  import opened Walks
  import opened Graph
  import opened GraphOrder
  import opened GraphEdges
  import SplitMix

  type Adjacency = map<Key, seq<Key>>

  predicate IsTransform(n: GraphNode) {
    n.origin.Transform? || n.origin.TransformJoin?
  }

  /** Those of the first n nodes that have transform inputs, in registration order. */
  function Transforms(nodes: seq<GraphNode>, n: nat): seq<GraphNode>
    requires n <= |nodes|
  {
    if n == 0 then [] else Transforms(nodes, n - 1) + if IsTransform(nodes[n - 1]) then [nodes[n - 1]] else []
  }

  lemma {:induction false} TransformsExactly(nodes: seq<GraphNode>, n: nat)
    requires DistinctKeys(nodes) && n <= |nodes|
    ensures DistinctKeys(Transforms(nodes, n))
    ensures forall t :: t in Transforms(nodes, n) <==> exists i :: 0 <= i < n && nodes[i] == t && IsTransform(t)
  {
    if n > 0 {
      TransformsExactly(nodes, n - 1);
      var ts := Transforms(nodes, n - 1);
      forall i | 0 <= i < |ts|
        ensures ts[i].key != nodes[n - 1].key
      {
        assert ts[i] in ts;
      }
    }
  }

  lemma OutputsSnoc(nodes: seq<GraphNode>, n: GraphNode, a: Key)
    ensures Outputs(nodes + [n], a) == Outputs(nodes, a) + Repeat(n.key, multiset(Inputs(n))[a])
  {
    var nodes' := nodes + [n];
    SpreadPrefix(Keys(nodes), Occurrences(nodes, a), Keys(nodes'), Occurrences(nodes', a), |nodes|);
  }

  /** a's adjacency list from the first n records. */
  function OutputsOf(nodes: seq<GraphNode>, n: nat, a: Key): seq<Key>
    requires n <= |nodes|
  {
    if n == 0 then [] else OutputsOf(nodes, n - 1, a) + Repeat(nodes[n - 1].key, multiset(Inputs(nodes[n - 1]))[a])
  }

  lemma {:induction false} SpreadIs(nodes: seq<GraphNode>, n: nat, a: Key)
    requires n <= |nodes|
    ensures Spread(Keys(nodes), Occurrences(nodes, a), n) == OutputsOf(nodes, n, a)
  {
    if n > 0 {
      SpreadIs(nodes, n - 1, a);
      SpreadNext(nodes, n - 1, a, OutputsOf(nodes, n - 1, a));
    }
  }

  lemma {:induction false} SpreadNext(nodes: seq<GraphNode>, n: nat, a: Key, before: seq<Key>)
    requires n < |nodes| && Spread(Keys(nodes), Occurrences(nodes, a), n) == before
    ensures Spread(Keys(nodes), Occurrences(nodes, a), n + 1) == before + Repeat(nodes[n].key, multiset(Inputs(nodes[n]))[a])
  {
    SpreadStep(nodes, n, a);
  }

  lemma {:induction false} OutputsStep(nodes: seq<GraphNode>, n: nat, a: Key, before: seq<Key>)
    requires n < |nodes| && Outputs(Transforms(nodes, n), a) == before
    ensures Outputs(Transforms(nodes, n + 1), a) == before + Repeat(nodes[n].key, multiset(Inputs(nodes[n]))[a])
  {
    if IsTransform(nodes[n]) {
      OutputsSnoc(Transforms(nodes, n), nodes[n], a);
    } else {
      assert Transforms(nodes, n + 1) == Transforms(nodes, n);
      assert Repeat(nodes[n].key, multiset(Inputs(nodes[n]))[a]) == [];
    }
  }

  lemma {:induction false} TransformsOutputs(nodes: seq<GraphNode>, n: nat, a: Key)
    requires n <= |nodes|
    ensures Outputs(Transforms(nodes, n), a) == OutputsOf(nodes, n, a)
  {
    if n == 0 {
      assert Transforms(nodes, 0) == [];
    } else {
      TransformsOutputs(nodes, n - 1, a);
      OutputsStep(nodes, n - 1, a, OutputsOf(nodes, n - 1, a));
    }
  }

  /** Leaving out records without transform inputs leaves the adjacency lists as they are. */
  lemma TransformsSpread(nodes: seq<GraphNode>, n: nat, a: Key)
    requires n <= |nodes|
    ensures Outputs(Transforms(nodes, n), a) == Spread(Keys(nodes), Occurrences(nodes, a), n)
  {
    TransformsOutputs(nodes, n, a);
    SpreadIs(nodes, n, a);
  }

  method CollectTransforms(nodes: seq<GraphNode>) returns (transforms: seq<GraphNode>)
    ensures transforms == Transforms(nodes, |nodes|)
  {
    transforms := [];
    for i := 0 to |nodes|
      invariant transforms == Transforms(nodes, i)
    {
      if IsTransform(nodes[i]) {
        transforms := transforms + [nodes[i]];
      }
    }
  }

  // ----- Missing inputs -----

  /** The first of the first n inputs that is not registered, reported for its record. */
  function FirstMissingOf(output: Key, inputs: seq<Key>, n: nat, all: set<Key>): Option<GraphError>
    requires n <= |inputs|
  {
    if n == 0 then None
    else
      var e := FirstMissingOf(output, inputs, n - 1, all);
      if e.Some? then e
      else if inputs[n - 1] !in all then Some(TransformInputNotFound(output, inputs[n - 1]))
      else None
  }

  /** The first unregistered input of the first n nodes, in registration order and then in input order. */
  function FirstMissing(nodes: seq<GraphNode>, n: nat, all: set<Key>): Option<GraphError>
    requires n <= |nodes|
  {
    if n == 0 then None
    else
      var e := FirstMissing(nodes, n - 1, all);
      if e.Some? then e
      else FirstMissingOf(nodes[n - 1].key, Inputs(nodes[n - 1]), |Inputs(nodes[n - 1])|, all)
  }

  lemma {:induction false} FirstMissingPrefix(nodes: seq<GraphNode>, nodes': seq<GraphNode>, n: nat, all: set<Key>)
    requires n <= |nodes| && n <= |nodes'| && forall i :: 0 <= i < n ==> nodes[i] == nodes'[i]
    ensures FirstMissing(nodes, n, all) == FirstMissing(nodes', n, all)
  {
    if n > 0 {
      FirstMissingPrefix(nodes, nodes', n - 1, all);
    }
  }

  lemma {:induction false} FirstMissingStep(nodes: seq<GraphNode>, n: nat, all: set<Key>, before: Option<GraphError>)
    requires n < |nodes| && FirstMissing(Transforms(nodes, n), |Transforms(nodes, n)|, all) == before
    ensures FirstMissing(Transforms(nodes, n + 1), |Transforms(nodes, n + 1)|, all) ==
      if before.Some? then before
      else FirstMissingOf(nodes[n].key, Inputs(nodes[n]), |Inputs(nodes[n])|, all)
  {
    if IsTransform(nodes[n]) {
      FirstMissingPrefix(Transforms(nodes, n), Transforms(nodes, n + 1), |Transforms(nodes, n)|, all);
    } else {
      assert Transforms(nodes, n + 1) == Transforms(nodes, n) && Inputs(nodes[n]) == [];
    }
  }

  lemma {:induction false} FirstMissingTransforms(nodes: seq<GraphNode>, n: nat, all: set<Key>)
    requires n <= |nodes|
    ensures FirstMissing(Transforms(nodes, n), |Transforms(nodes, n)|, all) == FirstMissing(nodes, n, all)
  {
    if n == 0 {
      assert Transforms(nodes, 0) == [];
    } else {
      FirstMissingTransforms(nodes, n - 1, all);
      FirstMissingStep(nodes, n - 1, all, FirstMissing(nodes, n - 1, all));
    }
  }

  ghost predicate InputsIn(inputs: seq<Key>, n: nat, all: set<Key>)
    requires n <= |inputs|
  {
    forall j :: 0 <= j < n ==> inputs[j] in all
  }

  /** All inputs of the first n nodes are registered. */
  ghost predicate Complete(nodes: seq<GraphNode>, n: nat, all: set<Key>)
    requires n <= |nodes|
  {
    forall i {:trigger InputsIn(Inputs(nodes[i]), |Inputs(nodes[i])|, all)} ::
      0 <= i < n ==> InputsIn(Inputs(nodes[i]), |Inputs(nodes[i])|, all)
  }

  /** Input j of node i is missing, and it is the first one missing. */
  ghost predicate MissingAt(nodes: seq<GraphNode>, all: set<Key>, i: int, j: int) {
    && 0 <= i < |nodes| && 0 <= j < |Inputs(nodes[i])|
    && Inputs(nodes[i])[j] !in all
    && Complete(nodes, i, all)
    && InputsIn(Inputs(nodes[i]), j, all)
  }

  lemma {:induction false} FirstMissingOfExactly(output: Key, inputs: seq<Key>, n: nat, all: set<Key>) returns (j: nat)
    requires n <= |inputs|
    ensures FirstMissingOf(output, inputs, n, all).None? <==> InputsIn(inputs, n, all)
    ensures FirstMissingOf(output, inputs, n, all).Some? ==>
      && j < n && inputs[j] !in all && InputsIn(inputs, j, all)
      && FirstMissingOf(output, inputs, n, all) == Some(TransformInputNotFound(output, inputs[j]))
  {
    j := 0;
    if n > 0 {
      j := FirstMissingOfExactly(output, inputs, n - 1, all);
      if FirstMissingOf(output, inputs, n - 1, all).None? {
        j := n - 1;
      }
    }
  }

  /** The reported input is missing, and nothing before it is; nothing is reported when all are there. */
  lemma {:induction false} FirstMissingExactly(nodes: seq<GraphNode>, n: nat, all: set<Key>) returns (i: nat, j: nat)
    requires n <= |nodes|
    ensures FirstMissing(nodes, n, all).None? <==> Complete(nodes, n, all)
    ensures FirstMissing(nodes, n, all).Some? ==>
      && MissingAt(nodes, all, i, j)
      && FirstMissing(nodes, n, all) == Some(TransformInputNotFound(nodes[i].key, Inputs(nodes[i])[j]))
  {
    i, j := 0, 0;
    if n > 0 {
      i, j := FirstMissingExactly(nodes, n - 1, all);
      if FirstMissing(nodes, n - 1, all).None? {
        i := n - 1;
        j := FirstMissingOfExactly(nodes[i].key, Inputs(nodes[i]), |Inputs(nodes[i])|, all);
      }
    }
  }

  method CheckInputs(transforms: seq<GraphNode>, all: set<Key>) returns (e: Option<GraphError>)
    ensures e == FirstMissing(transforms, |transforms|, all)
  {
    for i := 0 to |transforms|
      invariant FirstMissing(transforms, i, all).None?
    {
      var output, inputs := transforms[i].key, Inputs(transforms[i]);
      for j := 0 to |inputs|
        invariant FirstMissingOf(output, inputs, j, all).None?
      {
        if inputs[j] !in all {
          e := Some(TransformInputNotFound(output, inputs[j]));
          FirstMissingOfStable(output, inputs, j + 1, |inputs|, all);
          FirstMissingStable(transforms, i + 1, |transforms|, all);
          return;
        }
      }
    }
    return None;
  }

  lemma {:induction false} FirstMissingOfStable(output: Key, inputs: seq<Key>, n: nat, m: nat, all: set<Key>)
    requires n <= m <= |inputs| && FirstMissingOf(output, inputs, n, all).Some?
    ensures FirstMissingOf(output, inputs, m, all) == FirstMissingOf(output, inputs, n, all)
  {
    if n < m {
      FirstMissingOfStable(output, inputs, n, m - 1, all);
    }
  }

  lemma {:induction false} FirstMissingStable(nodes: seq<GraphNode>, n: nat, m: nat, all: set<Key>)
    requires n <= m <= |nodes| && FirstMissing(nodes, n, all).Some?
    ensures FirstMissing(nodes, m, all) == FirstMissing(nodes, n, all)
  {
    if n < m {
      FirstMissingStable(nodes, n, m - 1, all);
    }
  }

  // ----- In-degrees and adjacency lists -----

  /** The inputs of x among the first n records, counted with multiplicity. */
  function InputCount(nodes: seq<GraphNode>, n: nat, x: Key): nat
    requires n <= |nodes|
  {
    if n == 0 then 0
    else InputCount(nodes, n - 1, x) + if nodes[n - 1].key == x then |Inputs(nodes[n - 1])| else 0
  }

  lemma {:induction false} InputCountNone(nodes: seq<GraphNode>, n: nat, x: Key)
    requires n <= |nodes| && forall i :: 0 <= i < n ==> nodes[i].key != x
    ensures InputCount(nodes, n, x) == 0
  {
    if n > 0 {
      InputCountNone(nodes, n - 1, x);
    }
  }

  lemma {:induction false} InputCountOf(nodes: seq<GraphNode>, n: nat, i: nat)
    requires DistinctKeys(nodes) && i < n <= |nodes|
    ensures InputCount(nodes, n, nodes[i].key) == |Inputs(nodes[i])|
  {
    if i < n - 1 {
      InputCountOf(nodes, n - 1, i);
    } else {
      InputCountNone(nodes, i, nodes[i].key);
    }
  }

  /** Zero and empty for every key, in whatever order the key set is visited. */
  method InitialDegrees(all: set<Key>) returns (deg: Degrees, adj: Adjacency)
    ensures deg == map x | x in all :: 0
    ensures adj == map x | x in all :: []
  {
    deg, adj := map[], map[];
    var todo := all;
    while todo != {}
      invariant todo <= all
      invariant deg == map x | x in all - todo :: 0
      invariant adj == map x | x in all - todo :: []
    {
      var key :| key in todo;
      deg := deg[key := 0];
      adj := adj[key := []];
      todo := todo - {key};
    }
  }

  /** adj is adj0 with output put on the list of each input, once per occurrence. */
  ghost predicate Added(output: Key, inputs: seq<Key>, adj0: Adjacency, adj: Adjacency) {
    && adj.Keys == adj0.Keys
    && forall x :: x in adj ==> adj[x] == adj0[x] + Repeat(output, multiset(inputs)[x])
  }

  lemma AddedStep(output: Key, inputs: seq<Key>, j: nat, adj0: Adjacency, adj: Adjacency)
    requires j < |inputs| && inputs[j] in adj && Added(output, inputs[..j], adj0, adj)
    ensures Added(output, inputs[..j + 1], adj0, adj[inputs[j] := adj[inputs[j]] + [output]])
  {
    assert inputs[..j + 1] == inputs[..j] + [inputs[j]];
    assert multiset(inputs[..j + 1]) == multiset(inputs[..j])[inputs[j] := multiset(inputs[..j])[inputs[j]] + 1];
    var n := multiset(inputs[..j])[inputs[j]];
    assert Repeat(output, n + 1) == Repeat(output, n) + [output];
  }

  /** Adds the edges into one record. */
  method AddInputs(output: Key, inputs: seq<Key>, deg0: Degrees, adj0: Adjacency) returns (deg: Degrees, adj: Adjacency)
    requires output in deg0 && InputsIn(inputs, |inputs|, adj0.Keys)
    ensures deg == deg0[output := deg0[output] + |inputs|]
    ensures Added(output, inputs, adj0, adj)
  {
    deg, adj := deg0, adj0;
    assert deg == deg0[output := deg0[output]];
    for j := 0 to |inputs|
      invariant deg == deg0[output := deg0[output] + j]
      invariant Added(output, inputs[..j], adj0, adj)
    {
      AddedStep(output, inputs, j, adj0, adj);
      adj := adj[inputs[j] := adj[inputs[j]] + [output]];
      deg := deg[output := deg[output] + 1];
    }
    assert inputs[..|inputs|] == inputs;
  }

  /** Every key's inputs among the first n records. */
  function InputCounts(nodes: seq<GraphNode>, n: nat, all: set<Key>): Degrees
    requires n <= |nodes|
  {
    map x | x in all :: InputCount(nodes, n, x)
  }

  /** Every key's adjacency list from the first n records. */
  function AdjacencyLists(nodes: seq<GraphNode>, n: nat, all: set<Key>): Adjacency
    requires n <= |nodes|
  {
    map x | x in all :: Spread(Keys(nodes), Occurrences(nodes, x), n)
  }

  /** The records are registered, and so are their inputs. */
  ghost predicate Known(nodes: seq<GraphNode>, all: set<Key>) {
    forall i :: 0 <= i < |nodes| ==> nodes[i].key in all && InputsIn(Inputs(nodes[i]), |Inputs(nodes[i])|, all)
  }

  method BuildDegrees(all: set<Key>, transforms: seq<GraphNode>) returns (deg: Degrees, adj: Adjacency)
    requires Known(transforms, all)
    ensures deg == InputCounts(transforms, |transforms|, all)
    ensures adj == AdjacencyLists(transforms, |transforms|, all)
  {
    deg, adj := InitialDegrees(all);
    CountsStart(transforms, all);
    for t := 0 to |transforms|
      invariant deg == InputCounts(transforms, t, all)
      invariant adj == AdjacencyLists(transforms, t, all)
    {
      deg, adj := AddRecord(transforms, t, all, deg, adj);
    }
  }

  /** One more record's inputs. */
  method AddRecord(transforms: seq<GraphNode>, t: nat, all: set<Key>, deg0: Degrees, adj0: Adjacency)
      returns (deg: Degrees, adj: Adjacency)
    requires Known(transforms, all) && t < |transforms|
    requires deg0 == InputCounts(transforms, t, all) && adj0 == AdjacencyLists(transforms, t, all)
    ensures deg == InputCounts(transforms, t + 1, all) && adj == AdjacencyLists(transforms, t + 1, all)
  {
    deg, adj := AddInputs(transforms[t].key, Inputs(transforms[t]), deg0, adj0);
    CountsStep(transforms, t, all, deg);
    ListsStep(transforms, t, all, adj);
  }

  lemma CountsStart(nodes: seq<GraphNode>, all: set<Key>)
    ensures InputCounts(nodes, 0, all) == map x | x in all :: 0
    ensures AdjacencyLists(nodes, 0, all) == map x | x in all :: []
  {
  }

  lemma CountsStep(nodes: seq<GraphNode>, n: nat, all: set<Key>, deg: Degrees)
    requires n < |nodes| && nodes[n].key in all
    requires var k := nodes[n].key; var deg0 := InputCounts(nodes, n, all);
      deg == deg0[k := deg0[k] + |Inputs(nodes[n])|]
    ensures deg == InputCounts(nodes, n + 1, all)
  {
  }

  lemma ListsStep(nodes: seq<GraphNode>, n: nat, all: set<Key>, adj: Adjacency)
    requires n < |nodes| && Added(nodes[n].key, Inputs(nodes[n]), AdjacencyLists(nodes, n, all), adj)
    ensures adj == AdjacencyLists(nodes, n + 1, all)
  {
    forall x | x in all
      ensures adj[x] == Spread(Keys(nodes), Occurrences(nodes, x), n + 1)
    {
      SpreadStep(nodes, n, x);
    }
  }

  lemma SpreadStep(nodes: seq<GraphNode>, n: nat, a: Key)
    requires n < |nodes|
    ensures Spread(Keys(nodes), Occurrences(nodes, a), n + 1) ==
      Spread(Keys(nodes), Occurrences(nodes, a), n) + Repeat(nodes[n].key, multiset(Inputs(nodes[n]))[a])
  {
  }

  lemma CountsAreDegrees(nodes: seq<GraphNode>, deg: Degrees, adj: Adjacency)
    requires DistinctKeys(nodes)
    requires var ts := Transforms(nodes, |nodes|);
      deg == InputCounts(ts, |ts|, KeySet(nodes)) && adj == AdjacencyLists(ts, |ts|, KeySet(nodes))
    ensures DegreesOf(nodes, [], deg)
    ensures forall k :: k in adj ==> adj[k] == Outputs(nodes, k)
  {
    forall i | 0 <= i < |nodes|
      ensures nodes[i].key in deg && deg[nodes[i].key] == Pending(Inputs(nodes[i]), [])
    {
      assert Keys(nodes)[i] == nodes[i].key;
      CountIsPending(nodes, i);
    }
    forall k | k in adj
      ensures adj[k] == Outputs(nodes, k)
    {
      TransformsSpread(nodes, |nodes|, k);
    }
  }

  lemma CountIsPending(nodes: seq<GraphNode>, i: nat)
    requires DistinctKeys(nodes) && i < |nodes|
    ensures var ts := Transforms(nodes, |nodes|);
      InputCount(ts, |ts|, nodes[i].key) == Pending(Inputs(nodes[i]), [])
  {
    var ts := Transforms(nodes, |nodes|);
    TransformsExactly(nodes, |nodes|);
    PendingNone(Inputs(nodes[i]));
    if IsTransform(nodes[i]) {
      assert nodes[i] in ts;
      var j :| 0 <= j < |ts| && ts[j] == nodes[i];
      InputCountOf(ts, |ts|, j);
    } else {
      forall j | 0 <= j < |ts|
        ensures ts[j].key != nodes[i].key
      {
        assert ts[j] in ts;
      }
      InputCountNone(ts, |ts|, nodes[i].key);
    }
  }

  // ----- Kahn's loop -----

  method InitialQueue(nodes: seq<GraphNode>, deg: Degrees) returns (queue: seq<Key>)
    requires DegreesOf(nodes, [], deg)
    ensures queue == Roots(nodes, |nodes|)
  {
    queue := [];
    for i := 0 to |nodes|
      invariant queue == Roots(nodes, i)
    {
      PendingNone(Inputs(nodes[i]));
      if deg[nodes[i].key] == 0 {
        queue := queue + [nodes[i].key];
      }
    }
  }

  /** Takes one record: every in-degree found is positive, and the released records join the queue. */
  method Release(neighbors: seq<Key>, deg0: Degrees, queue0: seq<Key>) returns (deg: Degrees, queue: seq<Key>)
    requires Enough(neighbors, deg0)
    ensures deg == Drain(neighbors, |neighbors|, deg0) && queue == queue0 + Freed(neighbors, |neighbors|, deg0)
  {
    deg, queue := deg0, queue0;
    for j := 0 to |neighbors|
      invariant deg == Drain(neighbors, j, deg0) && queue == queue0 + Freed(neighbors, j, deg0)
    {
      var neighbor := neighbors[j];
      DrainNeverUnderflows(neighbors, j, deg0);
      if neighbor in deg {
        deg := deg[neighbor := deg[neighbor] - 1];
        if deg[neighbor] == 0 {
          queue := queue + [neighbor];
        }
      }
    }
  }

  method StartLoop(nodes: seq<GraphNode>, deg0: Degrees, adj: Adjacency, seed: Option<bv64>)
    returns (order: seq<Key>, deg: Degrees)
    requires DistinctKeys(nodes)
    requires DegreesOf(nodes, [], deg0)
    requires adj.Keys == KeySet(nodes) && forall k :: k in adj ==> adj[k] == Outputs(nodes, k)
    ensures order == StartOrder(nodes, seed)
    ensures DegreesOf(nodes, order, deg)
  {
    deg := deg0;
    var queue := InitialQueue(nodes, deg);
    order := [];
    var rng: SplitMix.SplitMix64? := null;
    if seed.Some? {
      rng := new SplitMix.SplitMix64(seed.value);
    }
    StartInv(nodes, seed);
    ghost var s := Start(nodes, seed);
    while true
      invariant (rng == null <==> s.rng.None?) && (rng != null ==> rng.state == s.rng.value)
      invariant s.queue == queue && s.order == order
      invariant Inv(nodes, s) && Run(nodes, s) == Run(nodes, Start(nodes, seed))
      invariant DegreesOf(nodes, order, deg)
      decreases |nodes| - |order|
    {
      ghost var a := if queue != [] then queue[Pick(s)] else "";
      if queue != [] {
        TakeIsSafe(nodes, s, deg);
      }
      var next: Option<Key> := None;
      if rng != null && queue != [] {
        var i := rng.DrawBelow(|queue|);
        next := Some(queue[i]);
        queue := queue[i := queue[|queue| - 1]][..|queue| - 1];
      } else if queue != [] {
        next := Some(queue[0]);
        queue := queue[1..];
      }
      if next.None? {
        break;
      }
      order := order + [next.value];
      if next.value in adj {
        deg, queue := Release(adj[next.value], deg, queue);
      }
      s := Step(nodes, s);
    }
  }

  /** What taking the next record may rely on, and what it leads to. */
  lemma TakeIsSafe(nodes: seq<GraphNode>, s: Kahn, deg: Degrees)
    requires DistinctKeys(nodes) && Inv(nodes, s) && s.queue != [] && DegreesOf(nodes, s.order, deg)
    ensures var a := s.queue[Pick(s)];
      && a in KeySet(nodes)
      && Enough(Outputs(nodes, a), deg)
      && Freed(Outputs(nodes, a), |Outputs(nodes, a)|, deg) == Released(nodes, |nodes|, s.order, a)
      && DegreesOf(nodes, s.order + [a], Drain(Outputs(nodes, a), |Outputs(nodes, a)|, deg))
    ensures Inv(nodes, Step(nodes, s)) && Run(nodes, s) == Run(nodes, Step(nodes, s))
    ensures |s.order| < |nodes|
  {
    var a := s.queue[Pick(s)];
    InvBounds(nodes, s);
    StepKeepsInv(nodes, s);
    PickIsNew(nodes, s);
    assert a in s.order + s.queue;
    var i :| 0 <= i < |nodes| && nodes[i].key == a && AllIn(Inputs(nodes[i]), s.order);
    assert Keys(nodes)[i] == a;
    OutputsEnough(nodes, s.order, a, deg);
    DrainReleases(nodes, s.order, a, deg);
  }

  // ----- The whole construction -----

  /** The keys of the first n records that satisfy p, in registration order. */
  ghost function Select(nodes: seq<GraphNode>, n: nat, p: Key -> bool): seq<Key>
    requires n <= |nodes|
  {
    if n == 0 then [] else Select(nodes, n - 1, p) + if p(nodes[n - 1].key) then [nodes[n - 1].key] else []
  }

  lemma {:induction false} SelectExactly(nodes: seq<GraphNode>, n: nat, p: Key -> bool)
    requires n <= |nodes|
    ensures forall k :: k in Select(nodes, n, p) <==> (exists i :: 0 <= i < n && nodes[i].key == k) && p(k)
  {
    if n > 0 {
      SelectExactly(nodes, n - 1, p);
    }
  }

  ghost function OnOrBelowCycle(nodes: seq<GraphNode>): Key -> bool {
    k => BelowCycle(FeedsRel(nodes), k)
  }

  /** The records on or below a cycle, in registration order. */
  ghost function CycleRecords(nodes: seq<GraphNode>): seq<Key> {
    Select(nodes, |nodes|, OnOrBelowCycle(nodes))
  }

  lemma CycleRecordsExactly(nodes: seq<GraphNode>)
    ensures forall k :: k in CycleRecords(nodes) <==> Registered(nodes, k) && BelowCycle(FeedsRel(nodes), k)
  {
    SelectExactly(nodes, |nodes|, OnOrBelowCycle(nodes));
  }

  /** A registered record is reported exactly when it was not started. */
  lemma ReportedIffOmitted(nodes: seq<GraphNode>, seed: Option<bv64>, k: Key)
    requires DistinctKeys(nodes) && AllInputsRegistered(nodes) && Registered(nodes, k)
    ensures k in CycleRecords(nodes) <==> k !in StartOrder(nodes, seed)
  {
    CycleRecordsExactly(nodes);
    OmittedIffBelowCycle(nodes, seed, k);
  }

  lemma CycleReportNotEmpty(nodes: seq<GraphNode>)
    requires !Acyclic(FeedsRel(nodes))
    ensures CycleRecords(nodes) != []
  {
    CycleRecordsExactly(nodes);
    var c :| IsCycle(FeedsRel(nodes), c);
    assert IsWalk(FeedsRel(nodes), [c[0]]);
    assert BelowCycle(FeedsRel(nodes), c[0]);
    CycleRegistered(nodes, c);
    assert c[0] in CycleRecords(nodes);
  }

  /** Every reported record waits for another reported one. */
  lemma ReportedWaits(nodes: seq<GraphNode>, k: Key) returns (x: Key)
    requires DistinctKeys(nodes) && AllInputsRegistered(nodes) && k in CycleRecords(nodes)
    ensures x in CycleRecords(nodes) && Feeds(nodes, x, k)
  {
    CycleRecordsExactly(nodes);
    ReportedIffOmitted(nodes, None, k);
    NotStartedNotReady(nodes, k);
    x := StuckInput(nodes, StartOrder(nodes, None), k);
    ReportedIffOmitted(nodes, None, x);
  }

  lemma NotStartedNotReady(nodes: seq<GraphNode>, k: Key)
    requires DistinctKeys(nodes)
    ensures k in StartOrder(nodes, None) <==> Ready(nodes, k, StartOrder(nodes, None))
  {
    StartOrderInv(nodes, None);
    assert StartOrder(nodes, None) + [] == StartOrder(nodes, None);
  }

  lemma PositiveIffNotTaken(nodes: seq<GraphNode>, order: seq<Key>, deg: Degrees, i: nat)
    requires DistinctKeys(nodes) && i < |nodes| && DegreesOf(nodes, order, deg)
    requires nodes[i].key in order <==> Ready(nodes, nodes[i].key, order)
    ensures deg[nodes[i].key] > 0 <==> nodes[i].key !in order
  {
    PendingZero(Inputs(nodes[i]), order);
    assert Ready(nodes, nodes[i].key, order) <==> AllIn(Inputs(nodes[i]), order);
  }

  /** After the loop a positive in-degree means the record is on or below a cycle. */
  lemma PositiveIffBelowCycle(nodes: seq<GraphNode>, deg: Degrees, seed: Option<bv64>, i: nat)
    requires DistinctKeys(nodes) && AllInputsRegistered(nodes) && i < |nodes|
    requires DegreesOf(nodes, StartOrder(nodes, seed), deg)
    ensures deg[nodes[i].key] > 0 <==> OnOrBelowCycle(nodes)(nodes[i].key)
  {
    var k, order := nodes[i].key, StartOrder(nodes, seed);
    assert k in order <==> Ready(nodes, k, order) by {
      StartOrderInv(nodes, seed);
      assert order + [] == order;
    }
    PositiveIffNotTaken(nodes, order, deg, i);
    assert k !in order <==> OnOrBelowCycle(nodes)(k) by {
      assert Registered(nodes, k);
      OmittedIffBelowCycle(nodes, seed, k);
    }
  }

  method ReportCycle(nodes: seq<GraphNode>, deg: Degrees, ghost stuck: Key -> bool) returns (records: seq<Key>)
    requires forall i :: 0 <= i < |nodes| ==> nodes[i].key in deg && (deg[nodes[i].key] > 0 <==> stuck(nodes[i].key))
    ensures records == Select(nodes, |nodes|, stuck)
  {
    records := [];
    for i := 0 to |nodes|
      invariant records == Select(nodes, i, stuck)
    {
      var key := nodes[i].key;
      if key in deg && deg[key] > 0 {
        records := records + [key];
      }
    }
  }

  /** Both ends of the edge start, the source first. */
  ghost predicate Forward(order: seq<Key>, e: GraphEdge) {
    e.from.Some? && e.to.Some? ==>
      exists i, j :: 0 <= i < j < |order| && order[i] == e.from.value && order[j] == e.to.value
  }

  lemma EdgesForward(nodes: seq<GraphNode>, seed: Option<bv64>)
    requires DistinctKeys(nodes) && AllInputsRegistered(nodes) && Acyclic(FeedsRel(nodes))
    ensures forall e :: e in EdgesOf(nodes) ==> Forward(StartOrder(nodes, seed), e)
  {
    var order := StartOrder(nodes, seed);
    OrderIsPermutation(nodes, seed);
    forall e | e in EdgesOf(nodes) && e.from.Some? && e.to.Some?
      ensures Forward(order, e)
    {
      var n := EdgeIsFeed(nodes, e);
      assert Feeds(nodes, e.from.value, e.to.value);
      assert Keys(nodes)[n] == e.to.value;
      assert e.to.value in multiset(Keys(nodes));
      var j :| 0 <= j < |order| && order[j] == e.to.value;
      InputsStartFirst(nodes, seed, e.from.value, j);
      var i :| 0 <= i < |order[..j]| && order[..j][i] == e.from.value;
      assert order[i] == e.from.value;
    }
  }

  /** In-degrees, adjacency lists and the order taken from them. */
  method Order(nodes: seq<GraphNode>, all: set<Key>, transforms: seq<GraphNode>, seed: Option<bv64>)
      returns (order: seq<Key>, deg: Degrees)
    requires DistinctKeys(nodes) && all == KeySet(nodes)
    requires transforms == Transforms(nodes, |nodes|) && Known(transforms, all)
    ensures order == StartOrder(nodes, seed) && DegreesOf(nodes, order, deg)
  {
    var deg0, adj := BuildDegrees(all, transforms);
    CountsAreDegrees(nodes, deg0, adj);
    order, deg := StartLoop(nodes, deg0, adj, seed);
  }

  lemma StuckBelowCycle(nodes: seq<GraphNode>, deg: Degrees, seed: Option<bv64>)
    requires DistinctKeys(nodes) && AllInputsRegistered(nodes) && DegreesOf(nodes, StartOrder(nodes, seed), deg)
    ensures forall i :: 0 <= i < |nodes| ==> (deg[nodes[i].key] > 0 <==> OnOrBelowCycle(nodes)(nodes[i].key))
  {
    forall i | 0 <= i < |nodes|
      ensures deg[nodes[i].key] > 0 <==> OnOrBelowCycle(nodes)(nodes[i].key)
    {
      PositiveIffBelowCycle(nodes, deg, seed, i);
    }
  }

  method BuildAndValidateSeeded(nodes: seq<GraphNode>, seed: Option<bv64>)
    returns (r: Result<DependencyGraph, GraphError>)
    requires DistinctKeys(nodes)
    ensures r.Success? <==> AllInputsRegistered(nodes) && Acyclic(FeedsRel(nodes))
    ensures r.Success? ==>
      && r.value == DependencyGraph(nodes, EdgesOf(nodes), StartOrder(nodes, seed))
      && multiset(r.value.topoOrder) == multiset(Keys(nodes))
      && forall e :: e in r.value.edges ==> Forward(r.value.topoOrder, e)
    ensures !AllInputsRegistered(nodes) ==>
      var missing := FirstMissing(nodes, |nodes|, KeySet(nodes));
      missing.Some? && r == Failure(missing.value)
    ensures AllInputsRegistered(nodes) && r.Failure? ==>
      CycleRecords(nodes) != [] && r == Failure(CyclicDependency(CycleRecords(nodes)))
  {
    var allKeys := set n | n in nodes :: n.key;
    AllKeysAreKeySet(nodes, allKeys);
    var transforms := CollectTransforms(nodes);
    var missing := CheckInputs(transforms, allKeys);
    TransformsComplete(nodes, allKeys);
    if missing.Some? {
      return Failure(missing.value);
    }
    var order, deg := Order(nodes, allKeys, transforms, seed);
    OrderIsPermutation(nodes, seed);
    KeySetSize(nodes);
    if |order| != |allKeys| {
      StuckBelowCycle(nodes, deg, seed);
      var records := ReportCycle(nodes, deg, OnOrBelowCycle(nodes));
      CycleReportNotEmpty(nodes);
      return Failure(CyclicDependency(records));
    }
    EdgesForward(nodes, seed);
    var edges := BuildEdges(nodes);
    return Success(DependencyGraph(nodes, edges, order));
  }

  method BuildAndValidate(nodes: seq<GraphNode>) returns (r: Result<DependencyGraph, GraphError>)
    requires DistinctKeys(nodes)
    ensures r.Success? <==> AllInputsRegistered(nodes) && Acyclic(FeedsRel(nodes))
    ensures r.Success? ==> r.value.topoOrder == StartOrder(nodes, None)
  {
    r := BuildAndValidateSeeded(nodes, None);
  }

  lemma AllKeysAreKeySet(nodes: seq<GraphNode>, all: set<Key>)
    requires all == set n | n in nodes :: n.key
    ensures all == KeySet(nodes)
  {
    forall k
      ensures k in all <==> k in KeySet(nodes)
    {
      if k in KeySet(nodes) {
        var i :| 0 <= i < |nodes| && Keys(nodes)[i] == k;
        assert nodes[i] in nodes && nodes[i].key == k;
      }
      if k in all {
        var n :| n in nodes && n.key == k;
        var i :| 0 <= i < |nodes| && nodes[i] == n;
        assert Keys(nodes)[i] == k;
      }
    }
  }

  /** The transforms' inputs are all registered exactly when the nodes' are. */
  lemma TransformsComplete(nodes: seq<GraphNode>, all: set<Key>)
    requires DistinctKeys(nodes) && all == KeySet(nodes)
    ensures var ts := Transforms(nodes, |nodes|);
      && FirstMissing(ts, |ts|, all) == FirstMissing(nodes, |nodes|, all)
      && (FirstMissing(ts, |ts|, all).None? <==> AllInputsRegistered(nodes))
      && (FirstMissing(ts, |ts|, all).None? <==> Known(ts, all))
  {
    var ts := Transforms(nodes, |nodes|);
    FirstMissingTransforms(nodes, |nodes|, all);
    var _, _ := FirstMissingExactly(nodes, |nodes|, all);
    var _, _ := FirstMissingExactly(ts, |ts|, all);
    CompleteIffRegistered(nodes, all);
    TransformsExactly(nodes, |nodes|);
    forall t | 0 <= t < |ts|
      ensures ts[t].key in all
    {
      assert ts[t] in ts;
      var i :| 0 <= i < |nodes| && nodes[i] == ts[t] && IsTransform(ts[t]);
      assert Keys(nodes)[i] == ts[t].key;
    }
  }

  lemma CompleteIffRegistered(nodes: seq<GraphNode>, all: set<Key>)
    requires all == KeySet(nodes)
    ensures Complete(nodes, |nodes|, all) <==> AllInputsRegistered(nodes)
  {
    forall k
      ensures k in all <==> Registered(nodes, k)
    {
      if i :| 0 <= i < |nodes| && nodes[i].key == k {
        assert Keys(nodes)[i] == k;
      }
      if k in all {
        var i :| 0 <= i < |nodes| && Keys(nodes)[i] == k;
        assert nodes[i].key == k;
      }
    }
    if Complete(nodes, |nodes|, all) {
      forall i, k | 0 <= i < |nodes| && k in Inputs(nodes[i])
        ensures Registered(nodes, k)
      {
        assert InputsIn(Inputs(nodes[i]), |Inputs(nodes[i])|, all);
        assert k in all;
      }
    }
  }

  // ----- Why keys must be distinct -----

  function Bare(key: Key, origin: RecordOrigin): GraphNode {
    GraphNode(key, origin, "", None, 0, false, [], None)
  }

  /** One key registered twice, and a record computed from it. */
  function Twice(a: Key, b: Key): seq<GraphNode> {
    [Bare(a, Passive), Bare(a, Passive), Bare(b, Transform(a))]
  }

  lemma TwiceTransforms(a: Key, b: Key)
    ensures Transforms(Twice(a, b), 3) == [Bare(b, Transform(a))]
  {
    var nodes := Twice(a, b);
    assert Transforms(nodes, 1) == [] && Transforms(nodes, 2) == [];
    assert Transforms(nodes, 3) == [] + [nodes[2]];
  }

  lemma TwiceCounts(a: Key, b: Key)
    requires a != b
    ensures var ts := [Bare(b, Transform(a))];
      && InputCounts(ts, 1, {a, b}) == map[a := 0, b := 1]
      && AdjacencyLists(ts, 1, {a, b})[a] == [b]
  {
    var ts := [Bare(b, Transform(a))];
    assert InputCount(ts, 0, a) == 0 && InputCount(ts, 0, b) == 0;
    SpreadStep(ts, 0, a);
    assert multiset(Inputs(ts[0]))[a] == 1;
    assert Repeat(b, 1) == [b];
  }

  /**
   With a key registered twice the code counts below zero: the key is queued twice, and the
   second time its neighbour's in-degree is zero already.
   */
  lemma TwiceUnderflows(a: Key, b: Key)
    requires a != b
    ensures var nodes := Twice(a, b);
      var ts := Transforms(nodes, |nodes|);
      var deg, list := InputCounts(ts, |ts|, {a, b}), AdjacencyLists(ts, |ts|, {a, b})[a];
      && Roots(nodes, |nodes|) == [a, a] && Enough(list, deg) && !Enough(list, Drain(list, |list|, deg))
  {
    TwiceRoots(a, b);
    TwiceTransforms(a, b);
    TwiceCounts(a, b);
    DrainedTwice(b, map[a := 0, b := 1]);
  }

  lemma {:induction false} TwiceRoots(a: Key, b: Key)
    ensures Roots(Twice(a, b), 3) == [a, a]
  {
    var nodes := Twice(a, b);
    RootsStep(nodes, 0);
    RootsStep(nodes, 1);
    RootsStep(nodes, 2);
    assert Inputs(nodes[0]) == [] && Inputs(nodes[1]) == [] && Inputs(nodes[2]) == [a];
  }

  lemma {:induction false} RootsStep(nodes: seq<GraphNode>, n: nat)
    requires n < |nodes|
    ensures Roots(nodes, n + 1) == Roots(nodes, n) + if Inputs(nodes[n]) == [] then [nodes[n].key] else []
    ensures Roots(nodes, 0) == []
  {
  }

  lemma DrainedTwice(b: Key, deg: Degrees)
    requires b in deg && deg[b] == 1
    ensures Enough([b], deg) && !Enough([b], Drain([b], 1, deg))
  {
    assert Drain([b], 0, deg) == deg && [b][0] == b;
    assert Drain([b], 1, deg) == Decrement(deg, b);
    assert multiset([b])[b] == 1 && b in [b];
  }
}
