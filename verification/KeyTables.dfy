/**
 Key tables: small integers standing for the values of one capture, one table per record
 (inbound_key.rs).
 */
module KeyTables {
  import opened Wrappers

  const U16_MAX: nat := 0xFFFF
  const U32_MAX: nat := 0xFFFF_FFFF

  type Capacity = n: nat | 1 <= n <= U16_MAX witness 1

  /** A nonzero 16-bit number; 0-based as an index. */
  datatype KeyId = KeyId(raw: nat) {
    function Index(): int {
      raw - 1
    }
  }

  /** Where name stands in names, or |names| if nowhere. */
  function Find(names: seq<string>, name: string, n: nat): (i: nat)
    requires n <= |names|
    ensures i <= n
    ensures i < n ==> names[i] == name
    ensures i == n ==> forall j :: 0 <= j < n ==> names[j] != name
  {
    if n == 0 then 0
    else
      var i := Find(names, name, n - 1);
      if i < n - 1 then i else if names[n - 1] == name then n - 1 else n
  }

  /** The key of a value: the one it has, or the next free one, or none when the table is full. */
  function KeyOf(names: seq<string>, capacity: nat, name: string): Option<KeyId> {
    var i := Find(names, name, |names|);
    if i < |names| || |names| + 1 <= capacity then Some(KeyId(i + 1)) else None
  }

  /** The values with a key, in key order, after one more value was looked up. */
  function Assigned(names: seq<string>, capacity: nat, name: string): seq<string> {
    if Find(names, name, |names|) == |names| && |names| + 1 <= capacity then names + [name] else names
  }

  /** What every table keeps: distinct values, no more than its capacity. */
  ghost predicate Sound(names: seq<string>, capacity: nat) {
    |names| <= capacity && forall i, j :: 0 <= i < j < |names| ==> names[i] != names[j]
  }

  lemma AssignedIsSound(names: seq<string>, capacity: nat, name: string)
    requires Sound(names, capacity)
    ensures Sound(Assigned(names, capacity, name), capacity)
    ensures names <= Assigned(names, capacity, name)
    ensures var k := KeyOf(names, capacity, name); k.Some? ==>
      1 <= k.value.raw <= |Assigned(names, capacity, name)|
      && Assigned(names, capacity, name)[k.value.Index()] == name
    ensures KeyOf(names, capacity, name).None? ==> |names| == capacity && name !in names
  {
  }

  class KeyTable {
    const capacity: Capacity
    var byName: map<string, KeyId>
    var names: seq<string>
    var dropped: nat

    ghost predicate Valid()
      reads this
    {
      && Sound(names, capacity)
      && (forall name :: name in byName <==> name in names)
      && (forall i :: 0 <= i < |names| ==> byName[names[i]] == KeyId(i + 1))
      && dropped <= U32_MAX
    }

    constructor (c: Capacity)
      ensures Valid() && capacity == c && names == [] && dropped == 0
    {
      capacity, byName, names, dropped := c, map[], [], 0;
    }

    /** The key for name, assigned if new; none when the table is full, and that is counted. */
    method Key(name: string) returns (k: Option<KeyId>)
      requires Valid()
      modifies this
      ensures Valid()
      ensures k == KeyOf(old(names), capacity, name)
      ensures names == Assigned(old(names), capacity, name)
      ensures dropped == Counted(old(dropped), k)
    {
      if name in byName {
        ghost var i := Find(names, name, |names|);
        return Some(byName[name]);
      }
      var n := |names| + 1;
      if n > U16_MAX || n > capacity {
        if dropped < U32_MAX {
          dropped := dropped + 1;
        }
        return None;
      }
      names := names + [name];
      byName := byName[name := KeyId(n)];
      return Some(KeyId(n));
    }

    /** The value a key stands for. */
    function Name(k: KeyId): (name: Option<string>)
      reads this
    {
      if 0 <= k.Index() < |names| then Some(names[k.Index()]) else None
    }
  }

  // ----- Whole runs -----

  /** The table after the first n values. */
  function After(names: seq<string>, capacity: nat, values: seq<string>, n: nat): seq<string>
    requires n <= |values|
  {
    if n == 0 then names else Assigned(After(names, capacity, values, n - 1), capacity, values[n - 1])
  }

  /** The drop counter after a lookup that gave k: it counts refusals and stops at its maximum. */
  function Counted(dropped: nat, k: Option<KeyId>): nat {
    if k.None? && dropped < U32_MAX then dropped + 1 else dropped
  }

  /** A new table's drop counter after n lookups that gave these keys. */
  function Dropped(keys: seq<Option<KeyId>>, n: nat): nat
    requires n <= |keys|
  {
    if n == 0 then 0 else Counted(Dropped(keys, n - 1), keys[n - 1])
  }

  /** After any lookups the counter is the number of refused ones, or its maximum if there were more. */
  lemma {:induction false} DroppedCountsRefusals(keys: seq<Option<KeyId>>, n: nat)
    requires n <= |keys|
    ensures var refused := multiset(keys[..n])[None];
      Dropped(keys, n) == if refused < U32_MAX then refused else U32_MAX
  {
    if n > 0 {
      DroppedCountsRefusals(keys, n - 1);
      assert keys[..n] == keys[..n - 1] + [keys[n - 1]];
    }
  }

  /** The key value i got. */
  function KeyAt(names: seq<string>, capacity: nat, values: seq<string>, i: nat): Option<KeyId>
    requires i < |values|
  {
    KeyOf(After(names, capacity, values, i), capacity, values[i])
  }

  /** Whatever key a value got, it still has it n values later, and the table inverts it. */
  lemma {:induction false} KeysStay(names: seq<string>, capacity: nat, values: seq<string>, i: nat, n: nat)
    requires Sound(names, capacity) && i < |values| && n <= |values|
    ensures Sound(After(names, capacity, values, n), capacity)
    ensures names <= After(names, capacity, values, n)
    ensures var k, t := KeyAt(names, capacity, values, i), After(names, capacity, values, n);
      i < n && k.Some? ==> 1 <= k.value.raw <= |t| && t[k.value.Index()] == values[i]
    ensures i < n && KeyAt(names, capacity, values, i).None? ==>
      After(names, capacity, values, n) == After(names, capacity, values, i)
  {
    if n > 0 {
      KeysStay(names, capacity, values, i, n - 1);
      AssignedIsSound(After(names, capacity, values, n - 1), capacity, values[n - 1]);
    }
  }

  /** Two values get equal keys exactly when they are equal, and no key exceeds the capacity. */
  lemma SameKeyIffSameValue(names: seq<string>, capacity: nat, values: seq<string>, i: nat, j: nat)
    requires Sound(names, capacity) && i < |values| && j < |values|
    requires KeyAt(names, capacity, values, i).Some? && KeyAt(names, capacity, values, j).Some?
    ensures KeyAt(names, capacity, values, i) == KeyAt(names, capacity, values, j) <==> values[i] == values[j]
    ensures 1 <= KeyAt(names, capacity, values, i).value.raw <= capacity
  {
    KeysStay(names, capacity, values, i, |values|);
    KeysStay(names, capacity, values, j, |values|);
  }

  /** A value refused once is refused ever after; the same value is never both refused and keyed later. */
  lemma RefusedStaysRefused(names: seq<string>, capacity: nat, values: seq<string>, i: nat, j: nat)
    requires Sound(names, capacity) && i < j < |values| && values[i] == values[j]
    requires KeyAt(names, capacity, values, i).None?
    ensures KeyAt(names, capacity, values, j).None?
  {
    KeysStay(names, capacity, values, i, j);
  }

  /** Keys are dense: a new key is one more than the number of values that have one. */
  lemma KeysAreDense(names: seq<string>, capacity: nat, values: seq<string>, i: nat)
    requires Sound(names, capacity) && i < |values| && KeyAt(names, capacity, values, i).Some?
    ensures var before, k := After(names, capacity, values, i), KeyAt(names, capacity, values, i).value;
      if values[i] in before then 1 <= k.raw <= |before| else k.raw == |before| + 1
  {
  }
}
