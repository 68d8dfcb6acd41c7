/**
 Configuring records (builder.rs:540-630): a key is registered by its first configure call, with
 that call's type; later calls of the same type configure the same record again.
 */
module Registry {
  import opened Wrappers
  import opened Graph
  import KeyTables

  type TypeId = nat

  /** An inbound link: its scheme and resolved topic, and the capture it is keyed by. */
  datatype InboundLink = InboundLink(scheme: string, topic: string, key: Option<(string, KeyTables.Capacity)>)

  datatype Mistake =
    | OtherType
    | Recorded(message: string)
    | ConflictingWriters
    | NoBuffer
    | NoRuntime
    | InputType(input: Key)
    | BadGraph(error: GraphError)
    | DuplicateKey

  datatype ConfigError = ConfigError(key: Key, mistake: Mistake)

  /**
   What a record is configured as. Its node has no key of its own; the input types are what its
   transform reads its inputs as.
   */
  datatype Record = Record(
    node: GraphNode,
    inputTypes: seq<(Key, TypeId)>,
    inbound: seq<InboundLink>,
    hasProducer: bool,
    hasTransform: bool,
    hasBuffer: bool,
    mistakes: seq<ConfigError>)

  datatype Entry = Entry(key: Key, typeId: TypeId, record: Record)

  /** A collector for the futures of one record, of one type. */
  datatype SpawnFn = SpawnFn(key: Key, typeId: TypeId)

  const BLANK := Record(GraphNode("", Passive, "", None, 0, false, [], None), [], [], false, false, false, [])

  /** The state of a builder. */
  datatype State = State(records: seq<Entry>, index: map<Key, nat>, spawnFns: seq<SpawnFn>, errors: seq<ConfigError>)

  const EMPTY := State([], map[], [], [])

  /** One configure call. */
  datatype Call = Call(key: Key, typeId: TypeId, configure: Record -> Record)

  /** Index and list are inverse, and every record has one collector, of its own type. */
  ghost predicate Sound(s: State) {
    && (forall k :: k in s.index ==> s.index[k] < |s.records| && s.records[s.index[k]].key == k)
    && (forall i :: 0 <= i < |s.records| ==> s.records[i].key in s.index && s.index[s.records[i].key] == i)
    && |s.spawnFns| == |s.records|
    && (forall i :: 0 <= i < |s.records| ==> s.spawnFns[i] == SpawnFn(s.records[i].key, s.records[i].typeId))
  }

  class AimDbBuilder {
    var records: seq<Entry>
    var recordIndex: map<Key, nat>
    var spawnFns: seq<SpawnFn>
    var configErrors: seq<ConfigError>

    function View(): State
      reads this
    {
      State(records, recordIndex, spawnFns, configErrors)
    }

    constructor ()
      ensures View() == EMPTY
    {
      records, recordIndex, spawnFns, configErrors := [], map[], [], [];
    }

    /** Configures the record of a key, or registers it. */
    method Configure(key: Key, typeId: TypeId, f: Record -> Record)
      requires Sound(View())
      modifies this
      ensures Sound(View())
      ensures View() == Configured(old(View()), Call(key, typeId, f))
    {
      ConfiguredIsSound(View(), Call(key, typeId, f));
      var isNew := key !in recordIndex;
      var i: nat := |records|;
      if isNew {
        recordIndex := recordIndex[key := |records|];
        records := records + [Entry(key, typeId, BLANK)];
      } else {
        i := recordIndex[key];
        if records[i].typeId != typeId {
          configErrors := configErrors + [ConfigError(key, OtherType)];
          return;
        }
      }
      records := records[i := records[i].(record := f(records[i].record))];
      if isNew {
        spawnFns := spawnFns + [SpawnFn(key, typeId)];
      }
      assert isNew ==> records == old(records) + [Entry(key, typeId, f(BLANK))];
    }
  }

  /** The state after one configure call. */
  function Configured(s: State, c: Call): State {
    if !Has(s, c.key) then
      State(s.records + [Entry(c.key, c.typeId, c.configure(BLANK))], s.index[c.key := |s.records|],
        s.spawnFns + [SpawnFn(c.key, c.typeId)], s.errors)
    else
      var i := s.index[c.key];
      if s.records[i].typeId != c.typeId then s.(errors := s.errors + [ConfigError(c.key, OtherType)])
      else s.(records := s.records[i := s.records[i].(record := c.configure(s.records[i].record))])
  }

  predicate Has(s: State, key: Key) {
    key in s.index && s.index[key] < |s.records|
  }

  lemma ConfiguredIsSound(s: State, c: Call)
    requires Sound(s)
    ensures Sound(Configured(s, c))
  {
  }

  // ----- Whole runs -----

  /** The state after the first n calls. */
  function After(calls: seq<Call>, n: nat): State
    requires n <= |calls|
  {
    if n == 0 then EMPTY else Configured(After(calls, n - 1), calls[n - 1])
  }

  lemma {:induction false} AfterIsSound(calls: seq<Call>, n: nat)
    requires n <= |calls|
    ensures Sound(After(calls, n))
  {
    if n > 0 {
      AfterIsSound(calls, n - 1);
      ConfiguredIsSound(After(calls, n - 1), calls[n - 1]);
    }
  }

  /** The type and record of one key. */
  type Slot = Option<(TypeId, Record)>

  /** What a call makes of its key: the first one gives the type, others of that type configure on. */
  function Merged(before: Slot, c: Call): Slot {
    if before.None? then Some((c.typeId, c.configure(BLANK)))
    else if before.value.0 != c.typeId then before
    else Some((c.typeId, c.configure(before.value.1)))
  }

  /** What a call has reported: that its key is of another type. */
  function Mismatch(before: Slot, c: Call): seq<ConfigError> {
    if before.Some? && before.value.0 != c.typeId then [ConfigError(c.key, OtherType)] else []
  }

  /** What the first n calls make of one key, whatever the other keys are. */
  function Folded(calls: seq<Call>, n: nat, key: Key): Slot
    requires n <= |calls|
  {
    if n == 0 then None
    else if calls[n - 1].key != key then Folded(calls, n - 1, key)
    else Merged(Folded(calls, n - 1, key), calls[n - 1])
  }

  /** Calls that ask for another type than their key's first call, each reported once, in order. */
  function Mismatches(calls: seq<Call>, n: nat): seq<ConfigError>
    requires n <= |calls|
  {
    if n == 0 then []
    else Mismatches(calls, n - 1) + Mismatch(Folded(calls, n - 1, calls[n - 1].key), calls[n - 1])
  }

  /** What a state holds for a key. */
  function Held(s: State, key: Key): Slot {
    if Has(s, key) then Some((s.records[s.index[key]].typeId, s.records[s.index[key]].record)) else None
  }

  lemma ConfiguredHolds(s: State, c: Call, key: Key, t: State)
    requires Sound(s) && t == Configured(s, c)
    ensures Held(t, key) == if c.key != key then Held(s, key) else Merged(Held(s, key), c)
    ensures t.errors == s.errors + Mismatch(Held(s, c.key), c)
  {
  }

  lemma ConfiguredPositions(s: State, c: Call, a: seq<Entry>, t: State)
    requires Sound(s) && SamePlaces(a, s.records) && t == Configured(s, c)
    ensures SamePlaces(a, t.records)
  {
  }

  /** Every entry of a is in b, at the same position and with the same key and type. */
  ghost predicate SamePlaces(a: seq<Entry>, b: seq<Entry>) {
    |a| <= |b| && forall i :: 0 <= i < |a| ==> a[i].key == b[i].key && a[i].typeId == b[i].typeId
  }

  /** After any calls, each key holds exactly what its own calls made of it. */
  lemma {:induction false} EachKeyIsItsOwn(calls: seq<Call>, n: nat, key: Key)
    requires n <= |calls|
    ensures Held(After(calls, n), key) == Folded(calls, n, key)
  {
    if n > 0 {
      EachKeyIsItsOwn(calls, n - 1, key);
      AfterIsSound(calls, n - 1);
      ConfiguredHolds(After(calls, n - 1), calls[n - 1], key, After(calls, n));
    }
  }

  /** After any calls, the errors are exactly the calls with another type. */
  lemma {:induction false} ErrorsAreMismatches(calls: seq<Call>, n: nat)
    requires n <= |calls|
    ensures After(calls, n).errors == Mismatches(calls, n)
  {
    if n > 0 {
      ErrorsAreMismatches(calls, n - 1);
      EachKeyIsItsOwn(calls, n - 1, calls[n - 1].key);
      AfterIsSound(calls, n - 1);
      ConfiguredHolds(After(calls, n - 1), calls[n - 1], calls[n - 1].key, After(calls, n));
    }
  }

  /** A registered record keeps its position, key and type; new ones go to the end. */
  lemma {:induction false} PositionsStay(calls: seq<Call>, m: nat, n: nat)
    requires m <= n <= |calls|
    ensures SamePlaces(After(calls, m).records, After(calls, n).records)
  {
    if m < n {
      PositionsStay(calls, m, n - 1);
      PlacesStep(calls, After(calls, m).records, n - 1);
    }
  }

  lemma {:induction false} PlacesStep(calls: seq<Call>, a: seq<Entry>, n: nat)
    requires n < |calls| && SamePlaces(a, After(calls, n).records)
    ensures SamePlaces(a, After(calls, n + 1).records)
  {
    AfterIsSound(calls, n);
    ConfiguredPositions(After(calls, n), calls[n], a, After(calls, n + 1));
  }

  /** No two records of a sound state have the same key. */
  lemma KeysAreDistinct(s: State, i: nat, j: nat)
    requires Sound(s) && i < j < |s.records|
    ensures s.records[i].key != s.records[j].key
  {
    assert s.index[s.records[i].key] == i;
  }
}
