/** Concatenation of lists of lists. */
module Lists {

  /** The first n parts, one after another. */
  function Flatten<T>(parts: seq<seq<T>>, n: nat): seq<T>
    requires n <= |parts|
  {
    if n == 0 then [] else Flatten(parts, n - 1) + parts[n - 1]
  }

  lemma {:induction false} FlattenCount<T>(parts: seq<seq<T>>, n: nat, i: nat, x: T)
    requires n <= |parts| && i < |parts| && forall j :: 0 <= j < n && j != i ==> x !in parts[j]
    ensures multiset(Flatten(parts, n))[x] == if i < n then multiset(parts[i])[x] else 0
  {
    if n > 0 {
      FlattenCount(parts, n - 1, i, x);
    }
  }

  lemma {:induction false} FlattenFind<T>(parts: seq<seq<T>>, n: nat, x: T) returns (i: nat)
    requires n <= |parts| && x in Flatten(parts, n)
    ensures i < n && x in parts[i]
  {
    if x in parts[n - 1] {
      i := n - 1;
    } else {
      i := FlattenFind(parts, n - 1, x);
    }
  }

  lemma {:induction false} FlattenPrefix<T>(parts: seq<seq<T>>, parts': seq<seq<T>>, n: nat)
    requires n <= |parts| && n <= |parts'| && forall i :: 0 <= i < n ==> parts[i] == parts'[i]
    ensures Flatten(parts, n) == Flatten(parts', n)
  {
    if n > 0 {
      FlattenPrefix(parts, parts', n - 1);
    }
  }

  /** What holds at zero and is kept by every step holds at n. */
  lemma {:induction false} UpTo(p: nat -> bool, n: nat)
    requires p(0) && forall k: nat :: k < n && p(k) ==> p(k + 1)
    ensures p(n)
  {
    if n > 0 {
      UpTo(p, n - 1);
    }
  }

  /** The parts from i on. */
  function Tail<T>(parts: seq<seq<T>>, i: nat): seq<T>
    requires i <= |parts|
    decreases |parts| - i
  {
    if i == |parts| then [] else parts[i] + Tail(parts, i + 1)
  }

  lemma {:induction false} FlattenSplits<T>(parts: seq<seq<T>>, i: nat)
    requires i <= |parts|
    ensures Flatten(parts, |parts|) == Flatten(parts, i) + Tail(parts, i)
    decreases |parts| - i
  {
    if i < |parts| {
      FlattenSplits(parts, i + 1);
      Associate(Flatten(parts, i), parts[i], Tail(parts, i + 1));
    }
  }

  lemma Associate<T>(a: seq<T>, b: seq<T>, c: seq<T>)
    ensures a + b + c == a + (b + c)
  {
  }
}
