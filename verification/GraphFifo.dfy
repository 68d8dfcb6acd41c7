/**
 The order without a seed, told apart from the queue: records start in the order in which they
 become ready, and those that become ready at once in registration order.
 */
module GraphFifo {
  import opened Wrappers
  import opened Walks
  import opened Graph
  import opened GraphOrder
  import opened GraphBuild

  /** After how many of the records taken in this order, n or more, k first has all its inputs. */
  ghost function ReadyAt(nodes: seq<GraphNode>, k: Key, order: seq<Key>, n: nat): (m: nat)
    requires n <= |order|
    ensures n <= m <= |order|
    ensures m < |order| ==> Ready(nodes, k, order[..m])
    ensures forall j :: n <= j < m ==> !Ready(nodes, k, order[..j])
    decreases |order| - n
  {
    if n == |order| || Ready(nodes, k, order[..n]) then n else ReadyAt(nodes, k, order, n + 1)
  }

  /** x is registered before y. */
  ghost predicate Earlier(nodes: seq<GraphNode>, x: Key, y: Key) {
    exists i, j :: 0 <= i < j < |nodes| && nodes[i].key == x && nodes[j].key == y
  }

  /** x becomes ready before y, or with it and is registered before it. */
  ghost predicate Precedes(nodes: seq<GraphNode>, order: seq<Key>, x: Key, y: Key) {
    var m, n := ReadyAt(nodes, x, order, 0), ReadyAt(nodes, y, order, 0);
    m < n || (m == n && Earlier(nodes, x, y))
  }

  ghost predicate Fifo(nodes: seq<GraphNode>, order: seq<Key>, keys: seq<Key>) {
    forall i, j :: 0 <= i < j < |keys| ==> Precedes(nodes, order, keys[i], keys[j])
  }

  lemma {:induction false} ReadyAtGrows(nodes: seq<GraphNode>, k: Key, order: seq<Key>, a: Key, n: nat)
    requires n <= |order| && Ready(nodes, k, order)
    ensures ReadyAt(nodes, k, order + [a], n) == ReadyAt(nodes, k, order, n)
    decreases |order| - n
  {
    assert (order + [a])[..n] == order[..n];
    if n == |order| {
      assert order[..n] == order;
    } else if !Ready(nodes, k, order[..n]) {
      ReadyAtGrows(nodes, k, order, a, n + 1);
    }
  }

  lemma ReadyLater(nodes: seq<GraphNode>, k: Key, order: seq<Key>, n: nat)
    requires n <= |order| && Ready(nodes, k, order[..n])
    ensures Ready(nodes, k, order)
  {
    var i :| 0 <= i < |nodes| && nodes[i].key == k && AllIn(Inputs(nodes[i]), order[..n]);
    forall x | x in Inputs(nodes[i])
      ensures x in order
    {
      assert x in order[..n];
    }
  }

  lemma ReadyNow(nodes: seq<GraphNode>, k: Key, order: seq<Key>, a: Key)
    requires !Ready(nodes, k, order)
    ensures ReadyAt(nodes, k, order + [a], 0) == |order| + 1
  {
    var all := order + [a];
    forall m: nat | m <= |order|
      ensures !Ready(nodes, k, all[..m])
    {
      assert all[..m] == order[..m];
      if Ready(nodes, k, order[..m]) {
        ReadyLater(nodes, k, order, m);
      }
    }
  }

  lemma {:induction false} RootsEarlier(nodes: seq<GraphNode>, n: nat, i: nat, j: nat)
    requires n <= |nodes| && i < j < |Roots(nodes, n)|
    ensures Earlier(nodes, Roots(nodes, n)[i], Roots(nodes, n)[j])
  {
    if j < |Roots(nodes, n - 1)| {
      RootsEarlier(nodes, n - 1, i, j);
    } else {
      var m := RootFrom(nodes, n - 1, i);
      assert nodes[m].key == Roots(nodes, n)[i] && nodes[n - 1].key == Roots(nodes, n)[j];
    }
  }

  lemma {:induction false} RootFrom(nodes: seq<GraphNode>, n: nat, i: nat) returns (m: nat)
    requires n <= |nodes| && i < |Roots(nodes, n)|
    ensures m < n && nodes[m].key == Roots(nodes, n)[i]
  {
    if i < |Roots(nodes, n - 1)| {
      m := RootFrom(nodes, n - 1, i);
    } else {
      m := n - 1;
    }
  }

  lemma {:induction false} ReleasedEarlier(nodes: seq<GraphNode>, n: nat, taken: seq<Key>, a: Key, i: nat, j: nat)
    requires n <= |nodes| && i < j < |Released(nodes, n, taken, a)|
    ensures Earlier(nodes, Released(nodes, n, taken, a)[i], Released(nodes, n, taken, a)[j])
  {
    if j < |Released(nodes, n - 1, taken, a)| {
      ReleasedEarlier(nodes, n - 1, taken, a, i, j);
    } else {
      var m := ReleasedFrom(nodes, n - 1, taken, a, i);
      assert nodes[m].key == Released(nodes, n, taken, a)[i] && nodes[n - 1].key == Released(nodes, n, taken, a)[j];
    }
  }

  lemma {:induction false} ReleasedFrom(nodes: seq<GraphNode>, n: nat, taken: seq<Key>, a: Key, i: nat) returns (m: nat)
    requires n <= |nodes| && i < |Released(nodes, n, taken, a)|
    ensures m < n && nodes[m].key == Released(nodes, n, taken, a)[i]
  {
    if i < |Released(nodes, n - 1, taken, a)| {
      m := ReleasedFrom(nodes, n - 1, taken, a, i);
    } else {
      m := n - 1;
    }
  }

  lemma StartFifo(nodes: seq<GraphNode>)
    requires DistinctKeys(nodes)
    ensures Fifo(nodes, [], Roots(nodes, |nodes|))
  {
    var roots := Roots(nodes, |nodes|);
    forall i, j | 0 <= i < j < |roots|
      ensures Precedes(nodes, [], roots[i], roots[j])
    {
      RootsEarlier(nodes, |nodes|, i, j);
    }
  }

  /** Records that become ready later, in registration order, go behind. */
  lemma FifoAppend(nodes: seq<GraphNode>, order: seq<Key>, a: Key, keys: seq<Key>, freed: seq<Key>)
    requires Fifo(nodes, order, keys) && forall k :: k in keys ==> Ready(nodes, k, order)
    requires forall k :: k in freed ==> !Ready(nodes, k, order)
    requires forall i, j :: 0 <= i < j < |freed| ==> Earlier(nodes, freed[i], freed[j])
    ensures Fifo(nodes, order + [a], keys + freed)
  {
    var all := keys + freed;
    forall i, j | 0 <= i < j < |all|
      ensures Precedes(nodes, order + [a], all[i], all[j])
    {
      if i < |keys| {
        assert all[i] in keys;
        ReadyAtGrows(nodes, all[i], order, a, 0);
      } else {
        assert all[i] == freed[i - |keys|] && all[i] in freed;
        ReadyNow(nodes, all[i], order, a);
      }
      if j < |keys| {
        assert all[j] in keys;
        ReadyAtGrows(nodes, all[j], order, a, 0);
        assert Precedes(nodes, order, keys[i], keys[j]);
      } else {
        assert all[j] == freed[j - |keys|] && all[j] in freed;
        ReadyNow(nodes, all[j], order, a);
      }
    }
  }

  lemma StepFifo(nodes: seq<GraphNode>, s: Kahn)
    requires DistinctKeys(nodes) && Inv(nodes, s) && s.queue != [] && s.rng.None?
    requires Fifo(nodes, s.order, s.order + s.queue)
    ensures Fifo(nodes, Step(nodes, s).order, Step(nodes, s).order + Step(nodes, s).queue)
  {
    var a := s.queue[0];
    var freed := Released(nodes, |nodes|, s.order, a);
    PickIsNew(nodes, s);
    forall k | k in freed
      ensures !Ready(nodes, k, s.order)
    {
      ReadyGrows(nodes, s.order, a, k);
    }
    forall i, j | 0 <= i < j < |freed|
      ensures Earlier(nodes, freed[i], freed[j])
    {
      ReleasedEarlier(nodes, |nodes|, s.order, a, i, j);
    }
    FifoAppend(nodes, s.order, a, s.order + s.queue, freed);
    assert s.order + s.queue + freed == s.order + [a] + (s.queue[1..] + freed);
  }

  lemma {:induction false} RunFifo(nodes: seq<GraphNode>, s: Kahn)
    requires DistinctKeys(nodes) && Inv(nodes, s) && s.rng.None? && Fifo(nodes, s.order, s.order + s.queue)
    ensures Fifo(nodes, Run(nodes, s).order, Run(nodes, s).order)
    decreases |nodes| - |s.order|
  {
    if s.queue == [] {
      assert s.order + s.queue == s.order;
    } else {
      StepKeepsInv(nodes, s);
      InvBounds(nodes, s);
      StepFifo(nodes, s);
      RunFifo(nodes, Step(nodes, s));
    }
  }

  /**
   Without a seed records start in the order in which their last input does, those without
   inputs first, and records that become ready at once start in registration order.
   */
  lemma UnseededIsFifo(nodes: seq<GraphNode>)
    requires DistinctKeys(nodes)
    ensures var order := StartOrder(nodes, None);
      forall i, j :: 0 <= i < j < |order| ==> Precedes(nodes, order, order[i], order[j])
  {
    StartInv(nodes, None);
    StartFifo(nodes);
    var s := Start(nodes, None);
    assert s.order + s.queue == Roots(nodes, |nodes|);
    RunFifo(nodes, s);
  }

  // ----- The cycle report -----

  lemma {:induction false} SelectedFrom(nodes: seq<GraphNode>, n: nat, p: Key -> bool, i: nat) returns (m: nat)
    requires n <= |nodes| && i < |Select(nodes, n, p)|
    ensures m < n && nodes[m].key == Select(nodes, n, p)[i]
  {
    if i < |Select(nodes, n - 1, p)| {
      m := SelectedFrom(nodes, n - 1, p, i);
    } else {
      m := n - 1;
    }
  }

  lemma {:induction false} SelectedInOrder(nodes: seq<GraphNode>, n: nat, p: Key -> bool, i: nat, j: nat)
    requires n <= |nodes| && i < j < |Select(nodes, n, p)|
    ensures Earlier(nodes, Select(nodes, n, p)[i], Select(nodes, n, p)[j])
  {
    if j < |Select(nodes, n - 1, p)| {
      SelectedInOrder(nodes, n - 1, p, i, j);
    } else {
      var m := SelectedFrom(nodes, n - 1, p, i);
      assert nodes[m].key == Select(nodes, n, p)[i] && nodes[n - 1].key == Select(nodes, n, p)[j];
    }
  }

  /** The cycle report lists its records in registration order. */
  lemma CycleReportInOrder(nodes: seq<GraphNode>)
    ensures var report := CycleRecords(nodes);
      forall i, j :: 0 <= i < j < |report| ==> Earlier(nodes, report[i], report[j])
  {
    var report := CycleRecords(nodes);
    forall i, j | 0 <= i < j < |report|
      ensures Earlier(nodes, report[i], report[j])
    {
      SelectedInOrder(nodes, |nodes|, OnOrBelowCycle(nodes), i, j);
    }
  }
}
