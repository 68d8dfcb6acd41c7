/**
 Building a database from a builder (builder.rs:690-930): every mistake is collected first; then
 the records' collectors run in start order.
 */
module Builds {
  import opened Wrappers
  import opened Walks
  import opened Graph
  import opened GraphOrder
  import opened GraphBuild
  import opened GraphEdges
  import opened KeyTables
  import opened Mistakes
  import R = Registry

  /** A record of the database, and the key table its keyed links share. */
  datatype RecordEntry = RecordEntry(entry: Entry, keyTable: Option<KeyTable>)

  datatype AimDbInner = AimDbInner(storages: seq<RecordEntry>, byKey: map<Key, nat>, graph: DependencyGraph)

  datatype DbError = InvalidConfiguration(errors: seq<ConfigError>) | CollectorFailed(key: Key)

  // ----- Storages and key tables -----

  /** The capacity of the record's first keyed link. */
  function KeyCapacity(links: seq<R.InboundLink>, n: nat): Option<Capacity>
    requires n <= |links|
  {
    if n == 0 then None
    else
      var before := KeyCapacity(links, n - 1);
      if before.Some? then before else if links[n - 1].key.Some? then Some(links[n - 1].key.value.1) else None
  }

  lemma {:induction false} KeyedHasCapacity(links: seq<R.InboundLink>, n: nat)
    requires n <= |links|
    ensures KeyCapacity(links, n).Some? <==> exists i :: 0 <= i < n && links[i].key.Some?
  {
    if n > 0 {
      KeyedHasCapacity(links, n - 1);
    }
  }

  /** It is that of the first keyed link. */
  lemma {:induction false} CapacityIsFirst(links: seq<R.InboundLink>, n: nat, i: nat)
    requires i < n <= |links| && links[i].key.Some? && forall j :: 0 <= j < i ==> links[j].key.None?
    ensures KeyCapacity(links, n) == Some(links[i].key.value.1)
  {
    if i < n - 1 {
      CapacityIsFirst(links, n - 1, i);
    } else {
      KeyedHasCapacity(links, n - 1);
    }
  }

  function CapacityOf(e: Entry): Option<Capacity> {
    KeyCapacity(e.record.inbound, |e.record.inbound|)
  }

  /** Records with keyed links have an empty table of their capacity, each its own. */
  ghost predicate Tabled(storages: seq<RecordEntry>)
    reads set e | e in storages && e.keyTable.Some? :: e.keyTable.value
  {
    && (forall e :: e in storages ==> TableOf(e))
    && OwnTables(storages)
  }

  /** No two records share a key table. */
  ghost predicate OwnTables(storages: seq<RecordEntry>) {
    forall i, j :: 0 <= i < j < |storages| && storages[i].keyTable.Some? ==> storages[i].keyTable != storages[j].keyTable
  }

  ghost predicate Distinct(records: seq<Entry>) {
    forall i, j :: 0 <= i < j < |records| ==> records[i].key != records[j].key
  }

  /** One of the first n records has the key. */
  ghost predicate HasKey(records: seq<Entry>, n: nat, k: Key)
    requires n <= |records|
  {
    exists i :: 0 <= i < n && records[i].key == k
  }

  lemma HasKeyStep(records: seq<Entry>, n: nat)
    requires n < |records|
    ensures forall k :: HasKey(records, n + 1, k) <==> HasKey(records, n, k) || k == records[n].key
    ensures HasKey(records, n, records[n].key) ==> !Distinct(records)
  {
    forall k ensures HasKey(records, n + 1, k) <==> HasKey(records, n, k) || k == records[n].key {
      HasKeyOf(records, n, k);
    }
    if HasKey(records, n, records[n].key) {
      var i :| 0 <= i < n && records[i].key == records[n].key;
      assert records[i].key == records[n].key;
    }
  }

  lemma HasKeyOf(records: seq<Entry>, n: nat, k: Key)
    requires n < |records|
    ensures HasKey(records, n + 1, k) <==> HasKey(records, n, k) || k == records[n].key
  {
    if HasKey(records, n + 1, k) {
      var i :| 0 <= i < n + 1 && records[i].key == k;
      assert i < n ==> HasKey(records, n, k);
    }
    if k == records[n].key {
      assert records[n].key == k;
    }
  }

  /** byKey gives every key its record's position. */
  ghost predicate Inverse(storages: seq<RecordEntry>, byKey: map<Key, nat>) {
    && (forall i :: 0 <= i < |storages| ==> storages[i].entry.key in byKey && byKey[storages[i].entry.key] == i)
    && (forall k :: k in byKey ==> byKey[k] < |storages| && storages[byKey[k]].entry.key == k)
  }

  /** A record's entry has an empty table exactly when a link of the record is keyed. */
  ghost predicate TableOf(r: RecordEntry)
    reads if r.keyTable.Some? then {r.keyTable.value} else {}
  {
    && r.keyTable.Some? == CapacityOf(r.entry).Some?
    && (r.keyTable.Some? ==>
      && r.keyTable.value.capacity == CapacityOf(r.entry).value
      && r.keyTable.value.Valid() && r.keyTable.value.names == [])
  }

  method NewEntry(e: Entry) returns (r: RecordEntry)
    ensures r.entry == e && TableOf(r)
    ensures r.keyTable.Some? ==> fresh(r.keyTable.value)
  {
    var capacity := CapacityOf(e);
    if capacity.Some? {
      var t := new KeyTable(capacity.value);
      r := RecordEntry(e, Some(t));
    } else {
      r := RecordEntry(e, None);
    }
  }

  lemma InverseSnoc(storages: seq<RecordEntry>, byKey: map<Key, nat>, r: RecordEntry)
    requires Inverse(storages, byKey) && r.entry.key !in byKey
    ensures Inverse(storages + [r], byKey[r.entry.key := |storages|])
  {
  }

  lemma TabledSnoc(storages: seq<RecordEntry>, r: RecordEntry)
    requires Tabled(storages) && TableOf(r)
    requires forall i :: 0 <= i < |storages| && storages[i].keyTable.Some? ==> storages[i].keyTable != r.keyTable
    ensures Tabled(storages + [r])
  {
    var all := storages + [r];
    forall i | 0 <= i < |all|
      ensures all[i] in all && TableOf(all[i])
    {
    }
  }

  /** Storages and index; a key met again would be an error. */
  method BuildStorages(records: seq<Entry>) returns (storages: seq<RecordEntry>, byKey: map<Key, nat>,
        errors: seq<ConfigError>)
    ensures errors == [] <==> Distinct(records)
    ensures Distinct(records) ==>
      |storages| == |records| && forall i :: 0 <= i < |records| ==> storages[i].entry == records[i]
    ensures Inverse(storages, byKey)
    ensures forall i :: 0 <= i < |storages| && storages[i].keyTable.Some? ==> fresh(storages[i].keyTable.value)
    ensures Tabled(storages)
  {
    storages, byKey, errors := [], map[], [];
    for n := 0 to |records|
      invariant Inverse(storages, byKey)
      invariant forall k :: k in byKey <==> HasKey(records, n, k)
      invariant errors == [] ==> |storages| == n && forall i :: 0 <= i < n ==> storages[i].entry == records[i]
      invariant errors != [] ==> !Distinct(records)
      invariant forall i :: 0 <= i < |storages| && storages[i].keyTable.Some? ==> fresh(storages[i].keyTable.value)
      invariant Tabled(storages)
    {
      var e := records[n];
      HasKeyStep(records, n);
      if e.key in byKey {
        errors := errors + [R.ConfigError(e.key, R.DuplicateKey)];
      } else {
        var r := NewEntry(e);
        InverseSnoc(storages, byKey, r);
        TabledSnoc(storages, r);
        byKey := byKey[e.key := |storages|];
        storages := storages + [r];
      }
    }
    if errors == [] {
      assert forall i :: 0 <= i < |records| ==> byKey[records[i].key] == i;
    }
  }

  // ----- Collectors -----

  /** The collectors run for the first n keys of the order, each with its record's id. */
  function Plan(order: seq<Key>, byKey: map<Key, nat>, spawnFns: map<Key, R.TypeId>, n: nat): (ran: seq<(Key, nat)>)
    requires n <= |order|
  {
    if n == 0 then []
    else
      var k := order[n - 1];
      Plan(order, byKey, spawnFns, n - 1)
      + if k in byKey && k in spawnFns && k !in order[..n - 1] then [(k, byKey[k])] else []
  }

  /** The last of the first n collectors of a key. */
  function LastType(spawnFns: seq<R.SpawnFn>, k: Key, n: nat): Option<R.TypeId>
    requires n <= |spawnFns|
  {
    if n == 0 then None
    else if spawnFns[n - 1].key == k then Some(spawnFns[n - 1].typeId) else LastType(spawnFns, k, n - 1)
  }

  /** The collectors of the first n by key; a later one takes the place of an earlier one. */
  function SpawnTypes(spawnFns: seq<R.SpawnFn>, n: nat): map<Key, R.TypeId>
    requires n <= |spawnFns|
  {
    if n == 0 then map[] else SpawnTypes(spawnFns, n - 1)[spawnFns[n - 1].key := spawnFns[n - 1].typeId]
  }

  /** The collectors by key. */
  method SpawnMap(spawnFns: seq<R.SpawnFn>) returns (m: map<Key, R.TypeId>)
    ensures m == SpawnTypes(spawnFns, |spawnFns|)
    ensures forall k :: (if k in m then Some(m[k]) else None) == LastType(spawnFns, k, |spawnFns|)
  {
    m := map[];
    for n := 0 to |spawnFns|
      invariant m == SpawnTypes(spawnFns, n)
      invariant forall k :: (if k in m then Some(m[k]) else None) == LastType(spawnFns, k, n)
    {
      m := m[spawnFns[n].key := spawnFns[n].typeId];
    }
  }

  lemma {:induction false} OnlyType(spawnFns: seq<R.SpawnFn>, n: nat, i: nat)
    requires i < n <= |spawnFns| && forall j :: i < j < n ==> spawnFns[j].key != spawnFns[i].key
    ensures LastType(spawnFns, spawnFns[i].key, n) == Some(spawnFns[i].typeId)
  {
    if i < n - 1 {
      OnlyType(spawnFns, n - 1, i);
    }
  }

  /** A collector succeeds on a record of its type, if collecting does. */
  predicate Succeeds(records: seq<Entry>, spawnFns: map<Key, R.TypeId>, collect: (Key, nat) -> bool, run: (Key, nat)) {
    && run.0 in spawnFns && run.1 < |records|
    && records[run.1].typeId == spawnFns[run.0] && collect(run.0, run.1)
  }

  /** Runs the collectors in order, each at most once, up to the first that fails. */
  method Collect(order: seq<Key>, byKey: map<Key, nat>, records: seq<Entry>, fns: map<Key, R.TypeId>,
        collect: (Key, nat) -> bool)
    returns (ran: seq<(Key, nat)>, failed: Option<Key>)
    ensures failed.None? ==> ran == Plan(order, byKey, fns, |order|)
    ensures failed.None? <==> forall j :: 0 <= j < |Plan(order, byKey, fns, |order|)| ==>
      Succeeds(records, fns, collect, Plan(order, byKey, fns, |order|)[j])
    ensures failed.Some? ==> ran != [] && ran <= Plan(order, byKey, fns, |order|) && failed == Some(ran[|ran| - 1].0)
    ensures failed.Some? ==> !Succeeds(records, fns, collect, ran[|ran| - 1])
    ensures forall j :: 0 <= j < |ran| - 1 ==> Succeeds(records, fns, collect, ran[j])
  {
    ran := [];
    var left := fns;
    for n := 0 to |order|
      invariant ran == Plan(order, byKey, fns, n)
      invariant forall j :: 0 <= j < |ran| ==> Succeeds(records, fns, collect, ran[j])
      invariant left.Keys <= fns.Keys && forall k :: k in left ==> left[k] == fns[k]
      invariant forall k :: k in byKey && k in fns ==> (k in left <==> k !in order[..n])
    {
      var k := order[n];
      assert order[..n + 1] == order[..n] + [k];
      if k in byKey && k in left {
        var id := byKey[k];
        var typeId := left[k];
        left := left - {k};
        ran := ran + [(k, id)];
        PlanGrows(order, byKey, fns, n + 1, |order|);
        if id >= |records| || records[id].typeId != typeId || !collect(k, id) {
          assert !Succeeds(records, fns, collect, Plan(order, byKey, fns, |order|)[|ran| - 1]);
          return ran, Some(k);
        }
      }
    }
    failed := None;
  }

  lemma {:induction false} PlanGrows(order: seq<Key>, byKey: map<Key, nat>, fns: map<Key, R.TypeId>, m: nat, n: nat)
    requires m <= n <= |order|
    ensures Plan(order, byKey, fns, m) <= Plan(order, byKey, fns, n)
  {
    if m < n {
      PlanGrows(order, byKey, fns, m, n - 1);
    }
  }

  lemma {:induction false} PlanIsOrder(order: seq<Key>, byKey: map<Key, nat>, fns: map<Key, R.TypeId>, n: nat)
    requires n <= |order| && forall i, j :: 0 <= i < j < |order| ==> order[i] != order[j]
    requires forall j :: 0 <= j < |order| ==> order[j] in byKey && order[j] in fns
    ensures |Plan(order, byKey, fns, n)| == n
    ensures forall j :: 0 <= j < n ==> Plan(order, byKey, fns, n)[j] == (order[j], byKey[order[j]])
  {
    if n > 0 {
      PlanIsOrder(order, byKey, fns, n - 1);
      assert order[n - 1] !in order[..n - 1];
    }
  }

  // ----- The graph of the records -----

  function NodeOf(e: Entry): GraphNode {
    e.record.node.(key := e.key, hasOutboundLink := e.record.node.outboundLinks != [])
  }

  function NodesOf(records: seq<Entry>): (nodes: seq<GraphNode>)
    ensures |nodes| == |records| && forall i :: 0 <= i < |records| ==> nodes[i] == NodeOf(records[i])
  {
    seq(|records|, i requires 0 <= i < |records| => NodeOf(records[i]))
  }

  /** The configured record names a as an input of its transform. */
  predicate Names(e: Entry, a: Key) {
    match e.record.node.origin
    case Transform(input) => a == input
    case TransformJoin(inputs) => a in inputs
    case _ => false
  }

  /** a is named as an input of the record b. */
  ghost predicate Supplies(records: seq<Entry>, a: Key, b: Key) {
    exists i :: 0 <= i < |records| && records[i].key == b && Names(records[i], a)
  }

  ghost function SuppliesRel(records: seq<Entry>): (Key, Key) -> bool {
    (a, b) => Supplies(records, a, b)
  }

  /** As configured, every input named is a registered record, and no record is its own input, however indirectly. */
  ghost predicate Wired(records: seq<Entry>) {
    && (forall i, a :: 0 <= i < |records| && Names(records[i], a) ==> HasKey(records, |records|, a))
    && Acyclic(SuppliesRel(records))
  }

  lemma InputsAreNamed(e: Entry, a: Key)
    ensures a in Inputs(NodeOf(e)) <==> Names(e, a)
  {
  }

  lemma FeedsIsSupplies(records: seq<Entry>, a: Key, b: Key)
    ensures Feeds(NodesOf(records), a, b) <==> Supplies(records, a, b)
  {
    var nodes := NodesOf(records);
    if i :| 0 <= i < |nodes| && nodes[i].key == b && a in Inputs(nodes[i]) {
      InputsAreNamed(records[i], a);
    }
    if i :| 0 <= i < |records| && records[i].key == b && Names(records[i], a) {
      InputsAreNamed(records[i], a);
      assert nodes[i].key == b;
    }
  }

  lemma RegisteredIsHasKey(records: seq<Entry>, k: Key)
    ensures Registered(NodesOf(records), k) <==> HasKey(records, |records|, k)
  {
    if i :| 0 <= i < |records| && NodesOf(records)[i].key == k {
      assert records[i].key == k;
    }
    if i :| 0 <= i < |records| && records[i].key == k {
      assert NodesOf(records)[i].key == k;
    }
  }

  lemma AllInputsIff(records: seq<Entry>)
    ensures AllInputsRegistered(NodesOf(records)) <==>
      forall i, a :: 0 <= i < |records| && Names(records[i], a) ==> HasKey(records, |records|, a)
  {
    var nodes := NodesOf(records);
    if AllInputsRegistered(nodes) {
      forall i, a | 0 <= i < |records| && Names(records[i], a)
        ensures HasKey(records, |records|, a)
      {
        InputsAreNamed(records[i], a);
        assert a in Inputs(nodes[i]);
        RegisteredIsHasKey(records, a);
      }
    }
    if forall i, a :: 0 <= i < |records| && Names(records[i], a) ==> HasKey(records, |records|, a) {
      forall i, a | 0 <= i < |nodes| && a in Inputs(nodes[i])
        ensures Registered(nodes, a)
      {
        InputsAreNamed(records[i], a);
        RegisteredIsHasKey(records, a);
      }
    }
  }

  /** The graph of the records is sane exactly when the records are wired as configured. */
  lemma SaneIffWired(records: seq<Entry>)
    ensures Sane(records) <==> Wired(records)
  {
    AllInputsIff(records);
    forall a, b
      ensures FeedsRel(NodesOf(records))(a, b) <==> SuppliesRel(records)(a, b)
    {
      FeedsIsSupplies(records, a, b);
    }
    AcyclicSame(FeedsRel(NodesOf(records)), SuppliesRel(records));
  }

  lemma SoundIsDistinct(s: R.State)
    requires R.Sound(s)
    ensures Distinct(s.records) && DistinctKeys(NodesOf(s.records))
  {
    forall i, j | 0 <= i < j < |s.records|
      ensures s.records[i].key != s.records[j].key
    {
      R.KeysAreDistinct(s, i, j);
    }
  }

  /**
   The runs of a plan: every record's collector once, with the record's own id, and after the
   collectors of all inputs of the record.
   */
  ghost predicate OnceEachInOrder(records: seq<Entry>, ran: seq<(Key, nat)>) {
    && |ran| == |records|
    && (forall j :: 0 <= j < |ran| ==> ran[j].1 < |records| && records[ran[j].1].key == ran[j].0)
    && (forall i, j :: 0 <= i < j < |ran| ==> ran[i] != ran[j])
    && (forall i :: 0 <= i < |records| ==> (records[i].key, i) in ran)
    && (forall j, a :: 0 <= j < |ran| && a in Inputs(NodeOf(records[ran[j].1])) ==> RanBefore(ran, j, a))
  }

  /** Every record's collector ran after those of all inputs its configuration names. */
  ghost predicate InputsRanFirst(records: seq<Entry>, ran: seq<(Key, nat)>) {
    forall i, a :: 0 <= i < |records| && Names(records[i], a) ==> RanAfter(ran, i, records[i].key, a)
  }

  /** Record i's collector ran, and that of a record a before it. */
  ghost predicate RanAfter(ran: seq<(Key, nat)>, i: nat, k: Key, a: Key) {
    exists p, q :: 0 <= p < q < |ran| && ran[p].0 == a && ran[q] == (k, i)
  }

  lemma OnceIsInputsFirst(records: seq<Entry>, ran: seq<(Key, nat)>)
    requires OnceEachInOrder(records, ran)
    ensures InputsRanFirst(records, ran)
  {
    forall i, a | 0 <= i < |records| && Names(records[i], a)
      ensures RanAfter(ran, i, records[i].key, a)
    {
      assert (records[i].key, i) in ran;
      var q :| 0 <= q < |ran| && ran[q] == (records[i].key, i);
      InputsAreNamed(records[i], a);
      assert RanBefore(ran, q, a);
      var p :| 0 <= p < q && ran[p].0 == a;
      assert ran[p].0 == a && ran[q] == (records[i].key, i);
    }
  }

  /** The graph has one node per record, in order: the record's key, and all else as configured. */
  ghost predicate NodesAsConfigured(nodes: seq<GraphNode>, records: seq<Entry>) {
    |nodes| == |records| && forall i :: 0 <= i < |nodes| ==> NodeAsConfigured(nodes[i], records[i])
  }

  ghost predicate NodeAsConfigured(n: GraphNode, e: Entry) {
    && n.key == e.key && n.origin == e.record.node.origin
    && n.bufferType == e.record.node.bufferType && n.bufferCapacity == e.record.node.bufferCapacity
    && n.tapCount == e.record.node.tapCount && n.schema == e.record.node.schema
    && n.outboundLinks == e.record.node.outboundLinks && (n.hasOutboundLink <==> |n.outboundLinks| > 0)
  }

  ghost predicate RanBefore(ran: seq<(Key, nat)>, j: nat, a: Key)
    requires j <= |ran|
  {
    exists i :: 0 <= i < j && ran[i].0 == a
  }

  lemma OrderDistinct(nodes: seq<GraphNode>, seed: Option<bv64>)
    requires DistinctKeys(nodes)
    ensures var order := StartOrder(nodes, seed); forall i, j :: 0 <= i < j < |order| ==> order[i] != order[j]
  {
    StartOrderInv(nodes, seed);
    var order := StartOrder(nodes, seed);
    assert order + [] == order;
    NoDupApart(order);
  }

  lemma NoDupApart(s: seq<Key>)
    requires NoDup(s)
    ensures forall i, j :: 0 <= i < j < |s| ==> s[i] != s[j]
  {
    forall i, j | 0 <= i < j < |s|
      ensures s[i] != s[j]
    {
      assert s == s[..j] + [s[j]] + s[j + 1..];
      assert s[j] in s && multiset(s)[s[j]] == multiset(s[..j])[s[j]] + multiset([s[j]])[s[j]] + multiset(s[j + 1..])[s[j]];
      assert s[..j][i] == s[i] && s[i] in multiset(s[..j]);
    }
  }

  /** A start order: the registered keys, each once, and after its inputs. */
  ghost predicate IsStartOrder(s: R.State, order: seq<Key>)
    requires R.Sound(s)
  {
    && |order| == |s.records|
    && (forall i, j :: 0 <= i < j < |order| ==> order[i] != order[j])
    && (forall k :: k in order <==> k in s.index)
    && (forall j, a :: 0 <= j < |order| && Feeds(NodesOf(s.records), a, order[j]) ==> a in order[..j])
  }

  lemma {:induction false} StartOrderIs(s: R.State, seed: Option<bv64>)
    requires R.Sound(s) && DistinctKeys(NodesOf(s.records))
    requires AllInputsRegistered(NodesOf(s.records)) && Acyclic(FeedsRel(NodesOf(s.records)))
    ensures IsStartOrder(s, StartOrder(NodesOf(s.records), seed))
  {
    var nodes := NodesOf(s.records);
    var order := StartOrder(nodes, seed);
    OrderIsPermutation(nodes, seed);
    OrderDistinct(nodes, seed);
    forall k
      ensures k in order <==> k in s.index
    {
      SameKeys(s, order, k);
    }
    forall j, a | 0 <= j < |order| && Feeds(nodes, a, order[j])
      ensures a in order[..j]
    {
      InputsStartFirst(nodes, seed, a, j);
    }
  }

  lemma SameKeys(s: R.State, order: seq<Key>, k: Key)
    requires R.Sound(s) && multiset(order) == multiset(Keys(NodesOf(s.records)))
    ensures k in order <==> k in s.index
  {
    var keys := Keys(NodesOf(s.records));
    assert k in order <==> k in multiset(order);
    assert k in keys <==> k in multiset(keys);
    if k in s.index {
      assert keys[s.index[k]] == k;
    }
  }

  lemma PlanRunsAll(s: R.State, fns: map<Key, R.TypeId>, order: seq<Key>)
    requires R.Sound(s) && IsStartOrder(s, order)
    requires forall i :: 0 <= i < |s.records| ==> s.records[i].key in fns
    ensures OnceEachInOrder(s.records, Plan(order, s.index, fns, |order|))
  {
    forall j | 0 <= j < |order|
      ensures order[j] in s.index && order[j] in fns
    {
      assert order[j] in order;
      assert s.records[s.index[order[j]]].key == order[j];
    }
    PlanIsOrder(order, s.index, fns, |order|);
    var ran := Plan(order, s.index, fns, |order|);
    PlanCovers(s, order, ran);
    forall j, a | 0 <= j < |ran| && a in Inputs(NodeOf(s.records[ran[j].1]))
      ensures RanBefore(ran, j, a)
    {
      InputRanBefore(s, order, ran, j, a);
    }
  }

  lemma InputRanBefore(s: R.State, order: seq<Key>, ran: seq<(Key, nat)>, j: nat, a: Key)
    requires R.Sound(s) && IsStartOrder(s, order) && |ran| == |order| && j < |ran|
    requires forall i :: 0 <= i < |order| ==> order[i] in s.index && ran[i] == (order[i], s.index[order[i]])
    requires a in Inputs(NodeOf(s.records[s.index[order[j]]]))
    ensures RanBefore(ran, j, a)
  {
    assert NodesOf(s.records)[s.index[order[j]]].key == order[j];
    assert Feeds(NodesOf(s.records), a, order[j]);
    var i :| 0 <= i < j && order[..j][i] == a;
    assert ran[i].0 == a;
  }

  lemma PlanCovers(s: R.State, order: seq<Key>, ran: seq<(Key, nat)>)
    requires R.Sound(s) && (forall k :: k in order <==> k in s.index) && |ran| == |order|
    requires forall j :: 0 <= j < |order| ==> order[j] in s.index && ran[j] == (order[j], s.index[order[j]])
    ensures forall i :: 0 <= i < |s.records| ==> (s.records[i].key, i) in ran
  {
    forall i | 0 <= i < |s.records|
      ensures (s.records[i].key, i) in ran
    {
      var j :| 0 <= j < |order| && order[j] == s.records[i].key;
      assert ran[j] == (s.records[i].key, i);
    }
  }

  // ----- Building -----

  /** Storages and index of the builder's records; no key is met twice. */
  method IndexRecords(b: R.AimDbBuilder, before: seq<ConfigError>)
    returns (storages: seq<RecordEntry>, byKey: map<Key, nat>, errors: seq<ConfigError>)
    requires R.Sound(b.View())
    ensures errors == before && byKey == b.recordIndex
    ensures Holds(storages, b.records) && Inverse(storages, byKey) && Tabled(storages)
  {
    SoundIsDistinct(b.View());
    storages, byKey, errors := BuildStorages(b.records);
    SameIndex(b.View(), storages, byKey);
    errors := before + errors;
  }

  /** Storages, index and every mistake but those of the graph. */
  method Validate(b: R.AimDbBuilder, runtime: bool)
    returns (storages: seq<RecordEntry>, byKey: map<Key, nat>, errors: seq<ConfigError>)
    requires R.Sound(b.View())
    ensures errors == Findings(b.View(), runtime) && byKey == b.recordIndex
    ensures Holds(storages, b.records) && Inverse(storages, byKey) && Tabled(storages)
  {
    errors := CheckRecords(b.records, b.configErrors);
    if !runtime {
      errors := errors + [R.ConfigError("", R.NoRuntime)];
    }
    storages, byKey, errors := IndexRecords(b, errors);
    errors := CheckInputTypes(b.records, byKey, errors);
  }

  ghost predicate Holds(storages: seq<RecordEntry>, records: seq<Entry>) {
    |storages| == |records| && forall i :: 0 <= i < |records| ==> storages[i].entry == records[i]
  }

  /** The collectors by key. */
  function FnsOf(s: R.State): map<Key, R.TypeId> {
    SpawnTypes(s.spawnFns, |s.spawnFns|)
  }

  /** The runs of the collectors in the given order. */
  function PlanOf(s: R.State, order: seq<Key>): seq<(Key, nat)> {
    Plan(order, s.index, FnsOf(s), |order|)
  }

  /** Runs every record's collector, in the given start order. */
  method Start(b: R.AimDbBuilder, order: seq<Key>, collect: (Key, nat) -> bool) returns (ran: seq<(Key, nat)>,
        failed: Option<Key>)
    requires R.Sound(b.View()) && IsStartOrder(b.View(), order)
    ensures failed.None? <==> AllCollect(b.records, collect)
    ensures failed.None? ==> ran == PlanOf(b.View(), order)
    ensures failed.Some? ==> StoppedAt(PlanOf(b.View(), order), ran, failed.value, collect)
  {
    var fns := SpawnMap(b.spawnFns);
    OwnCollectors(b.View(), fns);
    PlanRunsAll(b.View(), fns, order);
    AllSucceed(b.View(), fns, Plan(order, b.recordIndex, fns, |order|), collect);
    ran, failed := Collect(order, b.recordIndex, b.records, fns, collect);
    if failed.Some? {
      SucceedsIff(b.View(), fns, Plan(order, b.recordIndex, fns, |order|), ran, collect);
    }
  }

  /** The plan was followed up to the first collector that failed, the key's. */
  ghost predicate StoppedAt(plan: seq<(Key, nat)>, ran: seq<(Key, nat)>, k: Key, collect: (Key, nat) -> bool) {
    && ran != [] && ran <= plan && ran[|ran| - 1].0 == k && !collect(ran[|ran| - 1].0, ran[|ran| - 1].1)
    && forall j :: 0 <= j < |ran| - 1 ==> collect(ran[j].0, ran[j].1)
  }

  lemma SucceedsIff(s: R.State, fns: map<Key, R.TypeId>, plan: seq<(Key, nat)>, ran: seq<(Key, nat)>,
        collect: (Key, nat) -> bool)
    requires OnceEachInOrder(s.records, plan) && ran <= plan
    requires forall i :: 0 <= i < |s.records| ==> s.records[i].key in fns && fns[s.records[i].key] == s.records[i].typeId
    ensures forall j :: 0 <= j < |ran| ==> (Succeeds(s.records, fns, collect, ran[j]) <==> collect(ran[j].0, ran[j].1))
  {
    forall j | 0 <= j < |ran|
      ensures Succeeds(s.records, fns, collect, ran[j]) <==> collect(ran[j].0, ran[j].1)
    {
      assert ran[j] == plan[j];
    }
  }

  /** The runs a build comes to when no collector fails. */
  ghost function StartPlan(s: R.State, seed: Option<bv64>): seq<(Key, nat)>
    requires R.Sound(s)
  {
    SoundIsDistinct(s);
    PlanOf(s, StartOrder(NodesOf(s.records), seed))
  }

  lemma {:induction false} SpawnTypesAre(spawnFns: seq<R.SpawnFn>, n: nat)
    requires n <= |spawnFns|
    ensures forall k ::
      (if k in SpawnTypes(spawnFns, n) then Some(SpawnTypes(spawnFns, n)[k]) else None) == LastType(spawnFns, k, n)
  {
    if n > 0 {
      SpawnTypesAre(spawnFns, n - 1);
    }
  }

  /** The collectors run in the given order: every record's once, and after those of the inputs it names. */
  ghost predicate RunsInOrder(records: seq<Entry>, order: seq<Key>, ran: seq<(Key, nat)>) {
    && OnceEachInOrder(records, ran) && InputsRanFirst(records, ran)
    && |ran| == |order| && forall j :: 0 <= j < |ran| ==> ran[j].0 == order[j]
  }

  lemma PlanOfRuns(s: R.State, order: seq<Key>)
    requires R.Sound(s) && IsStartOrder(s, order)
    ensures RunsInOrder(s.records, order, PlanOf(s, order))
  {
    SpawnTypesAre(s.spawnFns, |s.spawnFns|);
    OwnCollectors(s, FnsOf(s));
    PlanRunsAll(s, FnsOf(s), order);
    OnceIsInputsFirst(s.records, PlanOf(s, order));
    PlanFollows(s, order);
  }

  lemma PlanFollows(s: R.State, order: seq<Key>)
    requires R.Sound(s) && IsStartOrder(s, order)
    requires forall i :: 0 <= i < |s.records| ==> s.records[i].key in FnsOf(s)
    ensures |PlanOf(s, order)| == |order| && forall j :: 0 <= j < |order| ==> PlanOf(s, order)[j].0 == order[j]
  {
    forall j | 0 <= j < |order|
      ensures order[j] in s.index && order[j] in FnsOf(s)
    {
      assert order[j] in order;
      assert s.records[s.index[order[j]]].key == order[j];
    }
    PlanIsOrder(order, s.index, FnsOf(s), |order|);
  }

  /** Every record's collector succeeds for the record's own id. */
  predicate AllCollect(records: seq<Entry>, collect: (Key, nat) -> bool) {
    forall i :: 0 <= i < |records| ==> collect(records[i].key, i)
  }

  ghost predicate Sane(records: seq<Entry>) {
    AllInputsRegistered(NodesOf(records)) && Acyclic(FeedsRel(NodesOf(records)))
  }

  /** What is wrong with a graph that is not sane: the first unregistered input, or the records on cycles. */
  ghost function GraphFinding(nodes: seq<GraphNode>): Option<GraphError> {
    if !AllInputsRegistered(nodes) then FirstMissing(nodes, |nodes|, KeySet(nodes))
    else Some(CyclicDependency(CycleRecords(nodes)))
  }

  /**
   Builds what was configured. Reports every mistake at once, the graph's last; without any, runs
   the collectors, and the records' ids are their positions.
   */
  method Build(b: R.AimDbBuilder, runtime: bool, seed: Option<bv64>, collect: (Key, nat) -> bool)
    returns (r: Result<AimDbInner, DbError>, ran: seq<(Key, nat)>)
    requires R.Sound(b.View())
    ensures !Wired(b.records) ==>
      var finding := GraphFinding(NodesOf(b.records));
      && finding.Some? && IsGraphFinding(b.records, finding.value)
      && r == Failure(InvalidConfiguration(
        Findings(b.View(), runtime) + [R.ConfigError("", R.BadGraph(finding.value))]))
    ensures Wired(b.records) && !Clean(b.View(), runtime) ==>
      Findings(b.View(), runtime) != [] && r == Failure(InvalidConfiguration(Findings(b.View(), runtime)))
    ensures Wired(b.records) && Clean(b.View(), runtime) && r.Failure? ==>
      r.error.CollectorFailed? && StoppedAt(StartPlan(b.View(), seed), ran, r.error.key, collect)
    ensures r.Success? <==> Wired(b.records) && Clean(b.View(), runtime) && AllCollect(b.records, collect)
    ensures r.Success? ==> Built(b.records, seed, r.value, ran)
    ensures r.Success? ==> Inverse(r.value.storages, r.value.byKey) && Tabled(r.value.storages)
  {
    ran := [];
    var storages, byKey, errors := Validate(b, runtime);
    NoFindingsIffClean(b.View(), runtime);
    SaneIffWired(b.records);
    SoundIsDistinct(b.View());
    var graph := BuildAndValidateSeeded(NodesOf(b.records), seed);
    if graph.Failure? {
      GraphFindingIs(b.records);
      return Failure(InvalidConfiguration(errors + [R.ConfigError("", R.BadGraph(graph.error))])), ran;
    }
    if errors != [] {
      return Failure(InvalidConfiguration(errors)), ran;
    }
    StartOrderIs(b.View(), seed);
    var failed: Option<Key>;
    ran, failed := Start(b, graph.value.topoOrder, collect);
    if failed.Some? {
      return Failure(CollectorFailed(failed.value)), ran;
    }
    r := Success(AimDbInner(storages, byKey, graph.value));
    BuiltIs(b.View(), seed, r.value);
  }

  /** What a build gives: the records as configured, their graph, and their collectors run in its order. */
  ghost predicate Built(records: seq<Entry>, seed: Option<bv64>, inner: AimDbInner, ran: seq<(Key, nat)>) {
    && Holds(inner.storages, records) && IsGraphOf(records, seed, inner.graph)
    && RunsInOrder(records, inner.graph.topoOrder, ran)
  }

  /** The nodes as configured, all their edges, and the start order for the seed. */
  ghost predicate IsGraphOf(records: seq<Entry>, seed: Option<bv64>, graph: DependencyGraph) {
    && NodesAsConfigured(graph.nodes, records) && DistinctKeys(graph.nodes)
    && graph.edges == EdgesOf(graph.nodes) && graph.topoOrder == StartOrder(graph.nodes, seed)
  }

  lemma BuiltIs(s: R.State, seed: Option<bv64>, inner: AimDbInner)
    requires R.Sound(s) && Sane(s.records) && Holds(inner.storages, s.records)
    requires DistinctKeys(NodesOf(s.records)) && IsBuiltGraph(NodesOf(s.records), seed, inner.graph)
    ensures Built(s.records, seed, inner, PlanOf(s, inner.graph.topoOrder))
  {
    StartOrderIs(s, seed);
    PlanOfRuns(s, inner.graph.topoOrder);
  }

  ghost predicate IsBuiltGraph(nodes: seq<GraphNode>, seed: Option<bv64>, graph: DependencyGraph)
    requires DistinctKeys(nodes)
  {
    graph == DependencyGraph(nodes, EdgesOf(nodes), StartOrder(nodes, seed))
  }

  /** What a graph that is not sane is reported for, in terms of what was configured. */
  ghost predicate IsGraphFinding(records: seq<Entry>, e: GraphError) {
    match e
    case TransformInputNotFound(output, input) => exists i :: FirstUnregistered(records, i, output, input)
    case CyclicDependency(keys) =>
      && (forall i, a :: 0 <= i < |records| && Names(records[i], a) ==> HasKey(records, |records|, a))
      && forall k :: k in keys <==> HasKey(records, |records|, k) && BelowCycle(SuppliesRel(records), k)
  }

  /** Record i names an unregistered input, and no record before it does. */
  ghost predicate FirstUnregistered(records: seq<Entry>, i: int, output: Key, input: Key) {
    && 0 <= i < |records| && records[i].key == output && Names(records[i], input) && !HasKey(records, |records|, input)
    && forall j, a :: 0 <= j < i && Names(records[j], a) ==> HasKey(records, |records|, a)
  }

  lemma GraphFindingIs(records: seq<Entry>)
    requires !Wired(records)
    ensures GraphFinding(NodesOf(records)).Some? && IsGraphFinding(records, GraphFinding(NodesOf(records)).value)
  {
    var nodes := NodesOf(records);
    var all := KeySet(nodes);
    AllInputsIff(records);
    if AllInputsRegistered(nodes) {
      CycleRecordsExactly(nodes);
      BelowSame(records);
      forall k
        ensures k in CycleRecords(nodes) <==> HasKey(records, |records|, k) && BelowCycle(SuppliesRel(records), k)
      {
        RegisteredIsHasKey(records, k);
      }
    } else {
      CompleteIffRegistered(nodes, all);
      var i, j := FirstMissingExactly(nodes, |nodes|, all);
      MissingIsFirst(records, i, j);
    }
  }

  lemma BelowSame(records: seq<Entry>)
    ensures forall k :: BelowCycle(FeedsRel(NodesOf(records)), k) <==> BelowCycle(SuppliesRel(records), k)
  {
    forall a, b
      ensures FeedsRel(NodesOf(records))(a, b) <==> SuppliesRel(records)(a, b)
    {
      FeedsIsSupplies(records, a, b);
    }
    BelowCycleSame(FeedsRel(NodesOf(records)), SuppliesRel(records));
  }

  lemma InAllIffHasKey(records: seq<Entry>, k: Key)
    ensures k in KeySet(NodesOf(records)) <==> HasKey(records, |records|, k)
  {
    var keys := Keys(NodesOf(records));
    if k in KeySet(NodesOf(records)) {
      var i :| 0 <= i < |keys| && keys[i] == k;
      assert records[i].key == k;
    }
    if i :| 0 <= i < |records| && records[i].key == k {
      assert keys[i] == k;
    }
  }

  lemma MissingIsFirst(records: seq<Entry>, i: nat, j: nat)
    requires MissingAt(NodesOf(records), KeySet(NodesOf(records)), i, j)
    ensures FirstUnregistered(records, i, records[i].key, Inputs(NodesOf(records)[i])[j])
  {
    var nodes := NodesOf(records);
    var input := Inputs(nodes[i])[j];
    InputsAreNamed(records[i], input);
    InAllIffHasKey(records, input);
    forall m, a | 0 <= m < i && Names(records[m], a)
      ensures HasKey(records, |records|, a)
    {
      InputsAreNamed(records[m], a);
      InAllIffHasKey(records, a);
      assert InputsIn(Inputs(nodes[m]), |Inputs(nodes[m])|, KeySet(nodes));
    }
  }

  lemma SameIndex(s: R.State, storages: seq<RecordEntry>, byKey: map<Key, nat>)
    requires R.Sound(s) && Inverse(storages, byKey) && |storages| == |s.records|
    requires forall i :: 0 <= i < |s.records| ==> storages[i].entry == s.records[i]
    ensures byKey == s.index
  {
    forall k
      ensures k in byKey <==> k in s.index
      ensures k in byKey && k in s.index ==> byKey[k] == s.index[k]
    {
      if k in byKey {
        assert s.records[byKey[k]].key == k;
      }
      if k in s.index {
        assert storages[s.index[k]].entry.key == k;
      }
    }
  }

  /** Every record's collector is of its own type. */
  lemma OwnCollectors(s: R.State, fns: map<Key, R.TypeId>)
    requires R.Sound(s)
    requires forall k :: (if k in fns then Some(fns[k]) else None) == LastType(s.spawnFns, k, |s.spawnFns|)
    ensures forall i :: 0 <= i < |s.records| ==> s.records[i].key in fns && fns[s.records[i].key] == s.records[i].typeId
  {
    forall i | 0 <= i < |s.records|
      ensures s.records[i].key in fns && fns[s.records[i].key] == s.records[i].typeId
    {
      forall j | i < j < |s.records|
        ensures s.spawnFns[j].key != s.spawnFns[i].key
      {
        R.KeysAreDistinct(s, i, j);
      }
      OnlyType(s.spawnFns, |s.spawnFns|, i);
    }
  }

  lemma AllSucceed(s: R.State, fns: map<Key, R.TypeId>, plan: seq<(Key, nat)>, collect: (Key, nat) -> bool)
    requires OnceEachInOrder(s.records, plan)
    requires forall i :: 0 <= i < |s.records| ==> s.records[i].key in fns && fns[s.records[i].key] == s.records[i].typeId
    ensures (forall j :: 0 <= j < |plan| ==> Succeeds(s.records, fns, collect, plan[j]))
      <==> forall i :: 0 <= i < |s.records| ==> collect(s.records[i].key, i)
  {
    if forall j :: 0 <= j < |plan| ==> Succeeds(s.records, fns, collect, plan[j]) {
      forall i | 0 <= i < |s.records|
        ensures collect(s.records[i].key, i)
      {
        assert (s.records[i].key, i) in plan;
        var j :| 0 <= j < |plan| && plan[j] == (s.records[i].key, i);
        assert Succeeds(s.records, fns, collect, plan[j]);
      }
    }
  }
}
