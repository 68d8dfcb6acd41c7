/** The edges of the graph, built from the records' origins, links and taps (graph.rs:277-338). */
module GraphEdges {
  import opened Wrappers
  import opened Graph
  import opened Lists

  const SEPARATOR := "://"

  /** The index of the first "://" at or after i, if any. */
  function FindSeparator(address: string, i: nat): (r: Option<nat>)
    requires i <= |address|
    ensures r.Some? ==> i <= r.value <= |address| && SEPARATOR <= address[r.value..]
    ensures forall j :: i <= j < (if r.Some? then r.value else |address|) && j <= |address| ==> !(SEPARATOR <= address[j..])
    decreases |address| - i
  {
    if i == |address| then None
    else if SEPARATOR <= address[i..] then Some(i)
    else FindSeparator(address, i + 1)
  }

  /** What stands before the first "://", or nothing. */
  function Scheme(address: string): string {
    var at := FindSeparator(address, 0);
    if at.Some? then address[..at.value] else ""
  }

  function InputEdge(n: GraphNode, input: Key): GraphEdge {
    GraphEdge(Some(input), Some(n.key), if n.origin.Transform? then TransformEdge else TransformJoinEdge)
  }

  function LinkOut(n: GraphNode, address: string): GraphEdge {
    GraphEdge(Some(n.key), None, LinkOutEdge(Scheme(address)))
  }

  function Tap(n: GraphNode, index: nat): GraphEdge {
    GraphEdge(Some(n.key), None, TapEdge(index))
  }

  function OriginEdges(n: GraphNode): seq<GraphEdge> {
    match n.origin
    case Source => [GraphEdge(None, Some(n.key), SourceEdge)]
    case Link(protocol, _) => [GraphEdge(None, Some(n.key), LinkEdge(protocol))]
    case _ => seq(|Inputs(n)|, j requires 0 <= j < |Inputs(n)| => InputEdge(n, Inputs(n)[j]))
  }

  /** One edge per outbound link, then one per tap. */
  function OutboundEdges(n: GraphNode): seq<GraphEdge> {
    seq(|n.outboundLinks|, j requires 0 <= j < |n.outboundLinks| => LinkOut(n, n.outboundLinks[j]))
    + seq(n.tapCount, j requires 0 <= j => Tap(n, j))
  }

  function NodeEdges(n: GraphNode): seq<GraphEdge> {
    OriginEdges(n) + OutboundEdges(n)
  }

  function EdgeLists(nodes: seq<GraphNode>): seq<seq<GraphEdge>> {
    seq(|nodes|, i requires 0 <= i < |nodes| => NodeEdges(nodes[i]))
  }

  /** The edges of all records, in registration order. */
  function EdgesOf(nodes: seq<GraphNode>): seq<GraphEdge> {
    Flatten(EdgeLists(nodes), |nodes|)
  }

  method AppendOrigin(n: GraphNode, before: seq<GraphEdge>) returns (edges: seq<GraphEdge>)
    ensures edges == before + OriginEdges(n)
  {
    edges := before;
    match n.origin {
      case Source =>
        edges := edges + [GraphEdge(None, Some(n.key), SourceEdge)];
      case Link(protocol, _) =>
        edges := edges + [GraphEdge(None, Some(n.key), LinkEdge(protocol))];
      case Transform(input) =>
        edges := edges + [GraphEdge(Some(input), Some(n.key), TransformEdge)];
      case TransformJoin(inputs) =>
        for j := 0 to |inputs|
          invariant edges == before + OriginEdges(n)[..j]
        {
          edges := edges + [GraphEdge(Some(inputs[j]), Some(n.key), TransformJoinEdge)];
        }
      case Passive =>
    }
  }

  method AppendOutbound(n: GraphNode, before: seq<GraphEdge>) returns (edges: seq<GraphEdge>)
    ensures edges == before + OutboundEdges(n)
  {
    edges := before;
    for j := 0 to |n.outboundLinks|
      invariant edges == before + OutboundEdges(n)[..j]
    {
      edges := edges + [LinkOut(n, n.outboundLinks[j])];
    }
    for j := 0 to n.tapCount
      invariant edges == before + OutboundEdges(n)[..|n.outboundLinks| + j]
    {
      edges := edges + [Tap(n, j)];
    }
  }

  method BuildEdges(nodes: seq<GraphNode>) returns (edges: seq<GraphEdge>)
    ensures edges == EdgesOf(nodes)
  {
    edges := [];
    for i := 0 to |nodes|
      invariant edges == Flatten(EdgeLists(nodes), i)
    {
      edges := AppendOrigin(nodes[i], edges);
      edges := AppendOutbound(nodes[i], edges);
      Associate(Flatten(EdgeLists(nodes), i), OriginEdges(nodes[i]), OutboundEdges(nodes[i]));
      assert EdgeLists(nodes)[i] == NodeEdges(nodes[i]);
    }
  }

  lemma {:induction false} InputEdgeCount(n: GraphNode, j: nat, a: Key)
    requires j <= |Inputs(n)| == |OriginEdges(n)| && (n.origin.Transform? || n.origin.TransformJoin?)
    ensures multiset(OriginEdges(n)[..j])[InputEdge(n, a)] == multiset(Inputs(n)[..j])[a]
  {
    if j > 0 {
      InputEdgeCount(n, j - 1, a);
      assert OriginEdges(n)[..j] == OriginEdges(n)[..j - 1] + [InputEdge(n, Inputs(n)[j - 1])];
      assert Inputs(n)[..j] == Inputs(n)[..j - 1] + [Inputs(n)[j - 1]];
    }
  }

  /** A node draws as many edges from a to itself as a occurs among its inputs, and none to other records. */
  lemma NodeEdgeCount(n: GraphNode, e: GraphEdge)
    requires e.from.Some? && e.to.Some?
    ensures multiset(NodeEdges(n))[e] == if e == InputEdge(n, e.from.value) then multiset(Inputs(n))[e.from.value] else 0
  {
    assert e !in OutboundEdges(n);
    OriginEdgeCount(n, e);
  }

  lemma OriginEdgeCount(n: GraphNode, e: GraphEdge)
    requires e.from.Some? && e.to.Some?
    ensures multiset(OriginEdges(n))[e] == if e == InputEdge(n, e.from.value) then multiset(Inputs(n))[e.from.value] else 0
  {
    if e != InputEdge(n, e.from.value) {
      NoOriginEdge(n, e);
    } else if n.origin.Transform? || n.origin.TransformJoin? {
      InputEdgeCount(n, |Inputs(n)|, e.from.value);
      assert OriginEdges(n)[..|Inputs(n)|] == OriginEdges(n) && Inputs(n)[..|Inputs(n)|] == Inputs(n);
    } else {
      assert Inputs(n) == [] && e !in OriginEdges(n);
    }
  }

  lemma NoOriginEdge(n: GraphNode, e: GraphEdge)
    requires e.from.Some? && e.to.Some? && e != InputEdge(n, e.from.value)
    ensures e !in OriginEdges(n)
  {
  }

  /** The edges from a to record i are the occurrences of a among its inputs. */
  lemma {:induction false} EdgesAreInputs(nodes: seq<GraphNode>, a: Key, i: nat)
    requires DistinctKeys(nodes) && i < |nodes|
    ensures multiset(EdgesOf(nodes))[InputEdge(nodes[i], a)] == multiset(Inputs(nodes[i]))[a]
  {
    var e, parts := InputEdge(nodes[i], a), EdgeLists(nodes);
    forall j | 0 <= j < |parts| && j != i
      ensures e !in parts[j]
    {
      NodeEdgeCount(nodes[j], e);
      assert parts[j] == NodeEdges(nodes[j]) && e.to != Some(nodes[j].key);
    }
    FlattenCount(parts, |parts|, i, e);
    NodeEdgeCount(nodes[i], e);
  }

  /** Every edge with both ends joins an input to its record. */
  lemma EdgeIsFeed(nodes: seq<GraphNode>, e: GraphEdge) returns (i: nat)
    requires e in EdgesOf(nodes) && e.from.Some? && e.to.Some?
    ensures i < |nodes| && e == InputEdge(nodes[i], e.from.value) && e.from.value in Inputs(nodes[i])
  {
    i := FlattenFind(EdgeLists(nodes), |nodes|, e);
    assert multiset(NodeEdges(nodes[i]))[e] > 0;
    NodeEdgeCount(nodes[i], e);
  }

  // ----- Which edges, one by one -----

  /** The protocol is what stands before the first "://" of the address, or empty if there is none. */
  ghost predicate IsScheme(address: string, protocol: string) {
    || (protocol + "://" <= address && forall j :: 0 <= j < |protocol| ==> !("://" <= address[j..]))
    || (protocol == "" && forall j :: 0 <= j <= |address| ==> !("://" <= address[j..]))
  }

  lemma SchemeIs(address: string)
    ensures IsScheme(address, Scheme(address))
  {
    var at := FindSeparator(address, 0);
    if at.Some? {
      var p := address[..at.value];
      assert address == p + address[at.value..];
      assert p + SEPARATOR <= address;
    }
  }

  /** The edges of a record up to its outbound ones: where it comes from. */
  ghost predicate ComesFrom(n: GraphNode, edges: seq<GraphEdge>) {
    match n.origin
    case Source => edges == [GraphEdge(None, Some(n.key), SourceEdge)]
    case Link(protocol, _) => edges == [GraphEdge(None, Some(n.key), LinkEdge(protocol))]
    case Transform(input) => edges == [GraphEdge(Some(input), Some(n.key), TransformEdge)]
    case TransformJoin(inputs) =>
      && |edges| == |inputs|
      && forall j :: 0 <= j < |inputs| ==> edges[j] == GraphEdge(Some(inputs[j]), Some(n.key), TransformJoinEdge)
    case Passive => edges == []
  }

  /** One edge per outbound link, named by its scheme, then one per tap, numbered from zero. */
  ghost predicate GoesTo(n: GraphNode, edges: seq<GraphEdge>) {
    var links := |n.outboundLinks|;
    && |edges| == links + n.tapCount
    && (forall j :: 0 <= j < links ==> IsLinkOut(n, n.outboundLinks[j], edges[j]))
    && forall j :: 0 <= j < n.tapCount ==> edges[links + j] == GraphEdge(Some(n.key), None, TapEdge(j))
  }

  ghost predicate IsLinkOut(n: GraphNode, address: string, e: GraphEdge) {
    && e.from == Some(n.key) && e.to.None? && e.edgeType.LinkOutEdge? && IsScheme(address, e.edgeType.protocol)
  }

  /** The edges of a record: where it comes from, and then where it goes to. */
  ghost predicate AreEdgesOf(n: GraphNode, edges: seq<GraphEdge>) {
    exists m :: 0 <= m <= |edges| && ComesFrom(n, edges[..m]) && GoesTo(n, edges[m..])
  }

  lemma GoesToIs(n: GraphNode)
    ensures GoesTo(n, OutboundEdges(n))
  {
    forall j | 0 <= j < |n.outboundLinks|
      ensures IsLinkOut(n, n.outboundLinks[j], OutboundEdges(n)[j])
    {
      SchemeIs(n.outboundLinks[j]);
    }
  }

  lemma NodeEdgesAre(n: GraphNode)
    ensures AreEdgesOf(n, NodeEdges(n))
  {
    GoesToIs(n);
    var m := |OriginEdges(n)|;
    assert NodeEdges(n)[..m] == OriginEdges(n) && NodeEdges(n)[m..] == OutboundEdges(n);
  }

  /** The edges are those of all records, one record's after another's, in registration order. */
  lemma {:induction false} EdgesAre(nodes: seq<GraphNode>) returns (parts: seq<seq<GraphEdge>>)
    ensures |parts| == |nodes| && EdgesOf(nodes) == Flatten(parts, |parts|)
    ensures forall i :: 0 <= i < |nodes| ==> AreEdgesOf(nodes[i], parts[i])
  {
    parts := EdgeLists(nodes);
    forall i | 0 <= i < |nodes|
      ensures AreEdgesOf(nodes[i], parts[i])
    {
      NodeEdgesAre(nodes[i]);
    }
  }
}
