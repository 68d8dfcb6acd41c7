/**
 Records, their transform inputs and the edges of the dependency graph (graph.rs:19-125).
 The in-degree bookkeeping of Kahn's algorithm is specified here; GraphOrder gives its order.
 */
module Graph {
  import opened Wrappers
  import opened Walks

  type Key = string

  datatype RecordOrigin =
    | Source
    | Link(protocol: string, address: string)
    | Transform(input: Key)
    | TransformJoin(inputs: seq<Key>)
    | Passive

  datatype SchemaInfo = SchemaInfo(name: string, version: nat)

  datatype GraphNode = GraphNode(
    key: Key,
    origin: RecordOrigin,
    bufferType: string,
    bufferCapacity: Option<nat>,
    tapCount: nat,
    hasOutboundLink: bool,
    outboundLinks: seq<string>,
    schema: Option<SchemaInfo>)

  datatype EdgeType =
    | SourceEdge
    | LinkEdge(protocol: string)
    | TransformEdge
    | TransformJoinEdge
    | TapEdge(index: nat)
    | LinkOutEdge(protocol: string)

  datatype GraphEdge = GraphEdge(from: Option<Key>, to: Option<Key>, edgeType: EdgeType)

  datatype DependencyGraph = DependencyGraph(nodes: seq<GraphNode>, edges: seq<GraphEdge>, topoOrder: seq<Key>)

  datatype GraphError =
    | TransformInputNotFound(outputKey: Key, inputKey: Key)
    | CyclicDependency(records: seq<Key>)

  /** The records a node is computed from; a join may name one twice. */
  function Inputs(n: GraphNode): seq<Key> {
    match n.origin
    case Transform(input) => [input]
    case TransformJoin(inputs) => inputs
    case _ => []
  }

  function Keys(nodes: seq<GraphNode>): (keys: seq<Key>)
    ensures |keys| == |nodes|
    ensures forall i :: 0 <= i < |nodes| ==> keys[i] == nodes[i].key
  {
    seq(|nodes|, i requires 0 <= i < |nodes| => nodes[i].key)
  }

  ghost predicate DistinctKeys(nodes: seq<GraphNode>) {
    forall i, j :: 0 <= i < j < |nodes| ==> nodes[i].key != nodes[j].key
  }

  ghost predicate Registered(nodes: seq<GraphNode>, k: Key) {
    exists i :: 0 <= i < |nodes| && nodes[i].key == k
  }

  ghost predicate AllInputsRegistered(nodes: seq<GraphNode>) {
    forall i, k {:trigger Inputs(nodes[i]), Registered(nodes, k)} ::
      0 <= i < |nodes| && k in Inputs(nodes[i]) ==> Registered(nodes, k)
  }

  /** a is an input of the record b. */
  ghost predicate Feeds(nodes: seq<GraphNode>, a: Key, b: Key) {
    exists i :: 0 <= i < |nodes| && nodes[i].key == b && a in Inputs(nodes[i])
  }

  /** Feeds as a relation, for walks and cycles. */
  ghost function FeedsRel(nodes: seq<GraphNode>): (Key, Key) -> bool {
    (a, b) => Feeds(nodes, a, b)
  }

  predicate AllIn(xs: seq<Key>, taken: seq<Key>) {
    forall x :: x in xs ==> x in taken
  }

  /** k is registered and all its inputs have been taken. */
  ghost predicate Ready(nodes: seq<GraphNode>, k: Key, taken: seq<Key>) {
    exists i :: 0 <= i < |nodes| && nodes[i].key == k && AllIn(Inputs(nodes[i]), taken)
  }

  // ----- In-degrees -----

  /** Input occurrences not yet taken: what an in-degree counts. */
  function Pending(xs: seq<Key>, taken: seq<Key>): nat {
    if xs == [] then 0
    else (if xs[0] in taken then 0 else 1) + Pending(xs[1..], taken)
  }

  lemma {:induction false} PendingZero(xs: seq<Key>, taken: seq<Key>)
    ensures Pending(xs, taken) == 0 <==> AllIn(xs, taken)
  {
    if xs != [] {
      PendingZero(xs[1..], taken);
      assert xs == [xs[0]] + xs[1..];
    }
  }

  /** Taking a removes one pending input per occurrence of a. */
  lemma {:induction false} PendingTake(xs: seq<Key>, taken: seq<Key>, a: Key)
    requires a !in taken
    ensures Pending(xs, taken) == Pending(xs, taken + [a]) + multiset(xs)[a]
  {
    if xs != [] {
      PendingTake(xs[1..], taken, a);
      assert xs == [xs[0]] + xs[1..];
    }
  }

  lemma {:induction false} PendingNone(xs: seq<Key>)
    ensures Pending(xs, []) == |xs|
  {
    if xs != [] {
      PendingNone(xs[1..]);
    }
  }

  function Repeat(k: Key, n: nat): (r: seq<Key>)
    ensures |r| == n && forall j :: 0 <= j < n ==> r[j] == k
  {
    seq(n, i => k)
  }

  lemma {:induction false} RepeatCount(r: seq<Key>, k: Key)
    requires forall j :: 0 <= j < |r| ==> r[j] == k
    ensures multiset(r)[k] == |r| && forall x :: x in r ==> x == k
  {
    if r != [] {
      RepeatCount(r[1..], k);
      assert r == [r[0]] + r[1..];
    }
  }

  /** Each key of the first n, as often as occ says. */
  function Spread(keys: seq<Key>, occ: seq<nat>, n: nat): seq<Key>
    requires n <= |keys| == |occ|
  {
    if n == 0 then [] else Spread(keys, occ, n - 1) + Repeat(keys[n - 1], occ[n - 1])
  }

  lemma {:induction false} SpreadPrefix(keys: seq<Key>, occ: seq<nat>, keys': seq<Key>, occ': seq<nat>, n: nat)
    requires n <= |keys| == |occ| && n <= |keys'| == |occ'|
    requires forall i :: 0 <= i < n ==> keys[i] == keys'[i] && occ[i] == occ'[i]
    ensures Spread(keys, occ, n) == Spread(keys', occ', n)
  {
    if n > 0 {
      SpreadPrefix(keys, occ, keys', occ', n - 1);
    }
  }

  /** How often a occurs among the inputs of each record. */
  function Occurrences(nodes: seq<GraphNode>, a: Key): (occ: seq<nat>)
    ensures |occ| == |nodes|
    ensures forall i :: 0 <= i < |nodes| ==> occ[i] == multiset(Inputs(nodes[i]))[a]
  {
    seq(|nodes|, i requires 0 <= i < |nodes| => multiset(Inputs(nodes[i]))[a])
  }

  /** a's adjacency list: each record once per occurrence of a among its inputs. */
  function Outputs(nodes: seq<GraphNode>, a: Key): seq<Key> {
    Spread(Keys(nodes), Occurrences(nodes, a), |nodes|)
  }

  /** The records among the first n that become ready when a is taken, in registration order. */
  function Released(nodes: seq<GraphNode>, n: nat, taken: seq<Key>, a: Key): seq<Key>
    requires n <= |nodes|
  {
    if n == 0 then []
    else
      Released(nodes, n - 1, taken, a)
      + if Unblocks(nodes, n - 1, taken, a) then [nodes[n - 1].key] else []
  }

  type Degrees = map<Key, nat>

  function Decrement(deg: Degrees, k: Key): Degrees {
    if k in deg && deg[k] > 0 then deg[k := deg[k] - 1] else deg
  }

  /** The in-degrees after decrementing along the first j entries of adj. */
  function Drain(adj: seq<Key>, j: nat, deg: Degrees): Degrees
    requires j <= |adj|
  {
    if j == 0 then deg else Decrement(Drain(adj, j - 1, deg), adj[j - 1])
  }

  /** The keys whose in-degree reaches zero along the first j entries of adj, in that order. */
  function Freed(adj: seq<Key>, j: nat, deg: Degrees): seq<Key>
    requires j <= |adj|
  {
    if j == 0 then []
    else
      var before := Drain(adj, j - 1, deg);
      Freed(adj, j - 1, deg) + if adj[j - 1] in before && before[adj[j - 1]] == 1 then [adj[j - 1]] else []
  }

  lemma {:induction false} DrainPrefix(x: seq<Key>, y: seq<Key>, j: nat, deg: Degrees)
    requires j <= |x|
    ensures Drain(x + y, j, deg) == Drain(x, j, deg) && Freed(x + y, j, deg) == Freed(x, j, deg)
  {
    if j > 0 {
      DrainPrefix(x, y, j - 1, deg);
      assert (x + y)[j - 1] == x[j - 1];
    }
  }

  lemma {:induction false} DrainAppend(x: seq<Key>, y: seq<Key>, j: nat, deg: Degrees)
    requires j <= |y|
    ensures Drain(x + y, |x| + j, deg) == Drain(y, j, Drain(x, |x|, deg))
    ensures Freed(x + y, |x| + j, deg) == Freed(x, |x|, deg) + Freed(y, j, Drain(x, |x|, deg))
  {
    if j == 0 {
      DrainPrefix(x, y, |x|, deg);
    } else {
      DrainAppend(x, y, j - 1, deg);
      assert (x + y)[|x| + j - 1] == y[j - 1];
    }
  }

  lemma {:induction false} DrainRepeat(r: seq<Key>, k: Key, j: nat, deg: Degrees)
    requires forall i :: 0 <= i < |r| ==> r[i] == k
    requires k in deg && j <= |r| <= deg[k]
    ensures Drain(r, j, deg) == deg[k := deg[k] - j]
    ensures Freed(r, j, deg) == if j > 0 && deg[k] == j then [k] else []
  {
    if j == 0 {
      assert deg == deg[k := deg[k]];
    } else {
      DrainRepeat(r, k, j - 1, deg);
    }
  }

  /** deg holds the pending count of every node. */
  ghost predicate DegreesOf(nodes: seq<GraphNode>, taken: seq<Key>, deg: Degrees) {
    forall i :: 0 <= i < |nodes| ==> nodes[i].key in deg && deg[nodes[i].key] == Pending(Inputs(nodes[i]), taken)
  }

  ghost predicate Distinct(keys: seq<Key>) {
    forall i, j :: 0 <= i < j < |keys| ==> keys[i] != keys[j]
  }

  /** The keys among the first n whose in-degree equals their positive count in occ, in order. */
  function UsedUp(keys: seq<Key>, occ: seq<nat>, n: nat, deg: Degrees): seq<Key>
    requires n <= |keys| == |occ| && forall i :: 0 <= i < |keys| ==> keys[i] in deg
  {
    if n == 0 then []
    else
      UsedUp(keys, occ, n - 1, deg)
      + if occ[n - 1] > 0 && deg[keys[n - 1]] == occ[n - 1] then [keys[n - 1]] else []
  }

  /** deg' is deg with occ taken off the first n in-degrees. */
  ghost predicate TakenOff(keys: seq<Key>, occ: seq<nat>, n: nat, deg: Degrees, deg': Degrees)
    requires |keys| == |occ|
  {
    && deg'.Keys == deg.Keys
    && forall i :: 0 <= i < |keys| ==>
      keys[i] in deg && deg'[keys[i]] + (if i < n then occ[i] else 0) == deg[keys[i]]
  }

  /** Draining the first n lists takes their lengths off the first n in-degrees. */
  lemma {:induction false} DrainSpread(keys: seq<Key>, occ: seq<nat>, n: nat, deg: Degrees)
    requires n <= |keys| == |occ| && Distinct(keys)
    requires forall i :: 0 <= i < |keys| ==> keys[i] in deg && occ[i] <= deg[keys[i]]
    ensures Freed(Spread(keys, occ, n), |Spread(keys, occ, n)|, deg) == UsedUp(keys, occ, n, deg)
    ensures TakenOff(keys, occ, n, deg, Drain(Spread(keys, occ, n), |Spread(keys, occ, n)|, deg))
  {
    if n > 0 {
      DrainSpread(keys, occ, n - 1, deg);
      var adj, r := Spread(keys, occ, n - 1), Repeat(keys[n - 1], occ[n - 1]);
      var before := Drain(adj, |adj|, deg);
      NextDegree(keys, occ, n, deg, before);
      DrainSplit(adj, r, keys[n - 1], deg);
      TakenOffStep(keys, occ, n, deg, before, Drain(adj + r, |adj + r|, deg));
    }
  }

  /** The next in-degree has not been touched. */
  lemma NextDegree(keys: seq<Key>, occ: seq<nat>, n: nat, deg: Degrees, before: Degrees)
    requires 0 < n <= |keys| == |occ| && TakenOff(keys, occ, n - 1, deg, before)
    ensures keys[n - 1] in deg && keys[n - 1] in before && before[keys[n - 1]] == deg[keys[n - 1]]
  {
  }

  lemma TakenOffStep(keys: seq<Key>, occ: seq<nat>, n: nat, deg: Degrees, before: Degrees, after: Degrees)
    requires 0 < n <= |keys| == |occ| && Distinct(keys) && TakenOff(keys, occ, n - 1, deg, before)
    requires keys[n - 1] in before && occ[n - 1] <= before[keys[n - 1]]
    requires after == before[keys[n - 1] := before[keys[n - 1]] - occ[n - 1]]
    ensures TakenOff(keys, occ, n, deg, after)
  {
  }

  lemma DrainSplit(adj: seq<Key>, r: seq<Key>, k: Key, deg: Degrees)
    requires forall i :: 0 <= i < |r| ==> r[i] == k
    requires k in Drain(adj, |adj|, deg) && |r| <= Drain(adj, |adj|, deg)[k]
    ensures Drain(adj + r, |adj + r|, deg) == Drain(adj, |adj|, deg)[k := Drain(adj, |adj|, deg)[k] - |r|]
    ensures Freed(adj + r, |adj + r|, deg) ==
      Freed(adj, |adj|, deg) + if |r| > 0 && Drain(adj, |adj|, deg)[k] == |r| then [k] else []
  {
    DrainAppend(adj, r, |r|, deg);
    DrainRepeat(r, k, |r|, Drain(adj, |adj|, deg));
  }

  lemma {:induction false} UsedUpIsReleased(nodes: seq<GraphNode>, n: nat, taken: seq<Key>, a: Key, deg: Degrees)
    requires a !in taken && DegreesOf(nodes, taken, deg) && n <= |nodes|
    ensures UsedUp(Keys(nodes), Occurrences(nodes, a), n, deg) == Released(nodes, n, taken, a)
  {
    if n > 0 {
      UsedUpIsReleased(nodes, n - 1, taken, a, deg);
      LastInput(Inputs(nodes[n - 1]), taken, a);
    }
  }

  /** a uses up the in-degree exactly when it is an input and the last one missing. */
  lemma LastInput(xs: seq<Key>, taken: seq<Key>, a: Key)
    requires a !in taken
    ensures Pending(xs, taken) == Pending(xs, taken + [a]) + multiset(xs)[a]
    ensures multiset(xs)[a] > 0 && Pending(xs, taken) == multiset(xs)[a] <==> a in xs && AllIn(xs, taken + [a])
  {
    PendingTake(xs, taken, a);
    PendingZero(xs, taken + [a]);
  }

  /**
   Draining a's adjacency list frees exactly the released records, in registration order,
   and leaves the pending counts for one more taken record.
   */
  lemma DrainReleases(nodes: seq<GraphNode>, taken: seq<Key>, a: Key, deg: Degrees)
    requires DistinctKeys(nodes) && a !in taken && DegreesOf(nodes, taken, deg)
    ensures var adj := Outputs(nodes, a);
      && Freed(adj, |adj|, deg) == Released(nodes, |nodes|, taken, a)
      && DegreesOf(nodes, taken + [a], Drain(adj, |adj|, deg))
  {
    var keys, occ := Keys(nodes), Occurrences(nodes, a);
    forall i | 0 <= i < |nodes|
      ensures keys[i] in deg && deg[keys[i]] == Pending(Inputs(nodes[i]), taken + [a]) + occ[i]
    {
      LastInput(Inputs(nodes[i]), taken, a);
    }
    DrainSpread(keys, occ, |nodes|, deg);
    UsedUpIsReleased(nodes, |nodes|, taken, a, deg);
  }

  /** No record appears in the list more often than its in-degree. */
  ghost predicate Enough(adj: seq<Key>, deg: Degrees) {
    forall k :: k in adj ==> k in deg && multiset(adj)[k] <= deg[k]
  }

  lemma {:induction false} SpreadCount(keys: seq<Key>, occ: seq<nat>, n: nat, i: nat)
    requires n <= |keys| == |occ| && Distinct(keys) && i < |keys|
    ensures multiset(Spread(keys, occ, n))[keys[i]] == if i < n then occ[i] else 0
    ensures forall k :: k in Spread(keys, occ, n) ==> k in keys
  {
    if n > 0 {
      SpreadCount(keys, occ, n - 1, i);
      RepeatCount(Repeat(keys[n - 1], occ[n - 1]), keys[n - 1]);
    }
  }

  lemma OutputsEnough(nodes: seq<GraphNode>, taken: seq<Key>, a: Key, deg: Degrees)
    requires DistinctKeys(nodes) && a !in taken && DegreesOf(nodes, taken, deg)
    ensures Enough(Outputs(nodes, a), deg)
  {
    var keys, occ := Keys(nodes), Occurrences(nodes, a);
    forall k | k in Outputs(nodes, a)
      ensures k in deg && multiset(Outputs(nodes, a))[k] <= deg[k]
    {
      SpreadCount(keys, occ, |keys|, 0);
      var i :| 0 <= i < |keys| && keys[i] == k;
      SpreadCount(keys, occ, |keys|, i);
      LastInput(Inputs(nodes[i]), taken, a);
    }
  }

  lemma {:induction false} DrainCounts(adj: seq<Key>, j: nat, deg: Degrees, k: Key)
    requires j <= |adj| && k in deg && multiset(adj[..j])[k] <= deg[k]
    ensures k in Drain(adj, j, deg) && Drain(adj, j, deg)[k] + multiset(adj[..j])[k] == deg[k]
  {
    if j > 0 {
      assert adj[..j] == adj[..j - 1] + [adj[j - 1]];
      DrainCounts(adj, j - 1, deg, k);
    }
  }

  /** Every decrement along the list finds a positive in-degree. */
  lemma DrainNeverUnderflows(adj: seq<Key>, j: nat, deg: Degrees)
    requires Enough(adj, deg) && j < |adj|
    ensures adj[j] in Drain(adj, j, deg) && Drain(adj, j, deg)[adj[j]] > 0
  {
    assert adj == adj[..j] + [adj[j]] + adj[j + 1..];
    assert multiset(adj)[adj[j]] == multiset(adj[..j])[adj[j]] + 1 + multiset(adj[j + 1..])[adj[j]];
    DrainCounts(adj, j, deg, adj[j]);
  }

  /** a is the last missing input of record i. */
  predicate Unblocks(nodes: seq<GraphNode>, i: nat, taken: seq<Key>, a: Key)
    requires i < |nodes|
  {
    a in Inputs(nodes[i]) && AllIn(Inputs(nodes[i]), taken + [a])
  }

  /** The released records are those whose last missing input is a. */
  lemma {:induction false} ReleasedExactly(nodes: seq<GraphNode>, n: nat, taken: seq<Key>, a: Key)
    requires DistinctKeys(nodes) && n <= |nodes|
    ensures NoDup(Released(nodes, n, taken, a))
    ensures forall k :: k in Released(nodes, n, taken, a) <==>
      exists i :: 0 <= i < n && nodes[i].key == k && Unblocks(nodes, i, taken, a)
  {
    if n > 0 {
      ReleasedExactly(nodes, n - 1, taken, a);
      assert nodes[n - 1].key !in Released(nodes, n - 1, taken, a);
      NoDupSnoc(Released(nodes, n - 1, taken, a), nodes[n - 1].key);
    }
  }
}
