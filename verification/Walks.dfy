/**
 Walks and cycles of a relation, and sequences without repetition.
 Used for the record graph and for the covering relation of topic filters.
 */
module Walks {

  /** No element occurs twice. */
  ghost predicate NoDup<T>(s: seq<T>) {
    forall x :: x in s ==> multiset(s)[x] == 1
  }

  /** A nonempty sequence whose neighbours are related. */
  ghost predicate IsWalk<T(!new)>(r: (T, T) -> bool, p: seq<T>) {
    && |p| >= 1
    && forall i, j :: 0 <= i < |p| && j == i + 1 && j < |p| ==> r(p[i], p[j])
  }

  /** A walk of at least one step that ends where it starts. */
  ghost predicate IsCycle<T(!new)>(r: (T, T) -> bool, c: seq<T>) {
    IsWalk(r, c) && |c| >= 2 && c[0] == c[|c| - 1]
  }

  ghost predicate Reaches<T(!new)>(r: (T, T) -> bool, a: T, b: T) {
    exists p :: IsWalk(r, p) && p[0] == a && p[|p| - 1] == b
  }

  ghost predicate Acyclic<T(!new)>(r: (T, T) -> bool) {
    forall c :: !IsCycle(r, c)
  }

  /** b lies on a cycle or is reached from one. */
  ghost predicate BelowCycle<T(!new)>(r: (T, T) -> bool, b: T) {
    exists c :: IsCycle(r, c) && Reaches(r, c[0], b)
  }

  lemma AcyclicSame<T(!new)>(r: (T, T) -> bool, s: (T, T) -> bool)
    requires forall x, y :: r(x, y) <==> s(x, y)
    ensures Acyclic(r) <==> Acyclic(s)
  {
    if c :| IsCycle(r, c) {
      assert IsCycle(s, c);
    }
    if c :| IsCycle(s, c) {
      assert IsCycle(r, c);
    }
  }

  lemma BelowCycleSame<T(!new)>(r: (T, T) -> bool, s: (T, T) -> bool)
    requires forall x, y :: r(x, y) <==> s(x, y)
    ensures forall b :: BelowCycle(r, b) <==> BelowCycle(s, b)
  {
    forall b
      ensures BelowCycle(r, b) <==> BelowCycle(s, b)
    {
      if BelowCycle(r, b) {
        BelowCycleToo(r, s, b);
      }
      if BelowCycle(s, b) {
        BelowCycleToo(s, r, b);
      }
    }
  }

  lemma BelowCycleToo<T(!new)>(r: (T, T) -> bool, s: (T, T) -> bool, b: T)
    requires (forall x, y :: r(x, y) <==> s(x, y)) && BelowCycle(r, b)
    ensures BelowCycle(s, b)
  {
    var c :| IsCycle(r, c) && Reaches(r, c[0], b);
    assert IsCycle(s, c);
    var p :| IsWalk(r, p) && p[0] == c[0] && p[|p| - 1] == b;
    assert IsWalk(s, p);
    assert Reaches(s, c[0], b);
  }

  /** Every element of s has a predecessor in s. */
  ghost predicate BackwardClosed<T(!new)>(r: (T, T) -> bool, s: set<T>) {
    forall x {:trigger HasPredecessor(r, s, x)} :: x in s ==> HasPredecessor(r, s, x)
  }

  ghost predicate HasPredecessor<T(!new)>(r: (T, T) -> bool, s: set<T>, x: T) {
    exists y :: y in s && r(y, x)
  }

  lemma {:induction false} NoDupLength<T>(s: seq<T>, all: set<T>)
    requires NoDup(s)
    requires forall x :: x in s ==> x in all
    ensures |s| <= |all|
  {
    if s != [] {
      var x, rest := s[0], s[1..];
      assert s == [x] + rest;
      forall y | y in rest
        ensures multiset(rest)[y] == 1 && y in all - {x}
      {
        assert y in s && multiset(s)[y] == multiset([x])[y] + multiset(rest)[y];
      }
      NoDupLength(rest, all - {x});
    }
  }

  lemma NoDupSnoc<T>(s: seq<T>, x: T)
    requires NoDup(s) && x !in s
    ensures NoDup(s + [x])
  {
  }

  lemma {:induction false} NoDupIndices<T>(s: seq<T>)
    requires forall i, j :: 0 <= i < j < |s| ==> s[i] != s[j]
    ensures NoDup(s)
  {
    if s != [] {
      NoDupIndices(s[1..]);
      assert s == [s[0]] + s[1..];
      assert s[0] !in s[1..];
    }
  }

  /** More elements than values: some value repeats. */
  lemma Pigeonhole<T>(p: seq<T>, all: set<T>)
    requires |p| > |all|
    requires forall x :: x in p ==> x in all
    ensures exists i, j :: 0 <= i < j < |p| && p[i] == p[j]
  {
    if forall i, j :: 0 <= i < j < |p| ==> p[i] != p[j] {
      NoDupIndices(p);
      NoDupLength(p, all);
    }
  }

  /** A walk of any length, inside s, that ends in b. */
  lemma {:induction false} BackWalk<T(!new)>(r: (T, T) -> bool, s: set<T>, b: T, n: nat) returns (p: seq<T>)
    requires b in s && BackwardClosed(r, s)
    ensures IsWalk(r, p) && |p| == n + 1 && p[n] == b
    ensures forall x :: x in p ==> x in s
  {
    if n == 0 {
      p := [b];
    } else {
      assert HasPredecessor(r, s, b);
      var a :| a in s && r(a, b);
      var q := BackWalk(r, s, a, n - 1);
      p := q + [b];
    }
  }

  /** Walking backwards inside a finite set must meet a cycle. */
  lemma BackwardClosedBelowCycle<T(!new)>(r: (T, T) -> bool, s: set<T>, b: T)
    requires b in s && BackwardClosed(r, s)
    ensures BelowCycle(r, b)
  {
    var p := BackWalk(r, s, b, |s|);
    Pigeonhole(p, s);
    var i, j :| 0 <= i < j < |p| && p[i] == p[j];
    var c, q := p[i..j + 1], p[j..];
    assert IsCycle(r, c);
    assert IsWalk(r, q) && q[0] == c[0] && q[|q| - 1] == b;
  }

  /** Membership that spreads forward along r spreads along walks. */
  lemma {:induction false} WalkCarries<T(!new)>(r: (T, T) -> bool, p: seq<T>, out: set<T>, i: nat)
    requires IsWalk(r, p) && i < |p| && p[i] in out
    requires forall j, k :: i <= j < |p| && k == j + 1 && k < |p| && p[j] in out ==> p[k] in out
    ensures p[|p| - 1] in out
    decreases |p| - i
  {
    if i < |p| - 1 {
      WalkCarries(r, p, out, i + 1);
    }
  }
}
