/** The order Rust gives strings, and sorted lists of strings without repetition. */
module Strings {

  /** a before b, when they agree up to i. */
  predicate LessFrom(a: string, b: string, i: nat)
    requires i <= |a| && i <= |b|
    decreases |a| - i
  {
    i < |b| && (i == |a| || a[i] < b[i] || (a[i] == b[i] && LessFrom(a, b, i + 1)))
  }

  predicate Less(a: string, b: string) {
    LessFrom(a, b, 0)
  }

  lemma {:induction false} LessIrreflexive(a: string, i: nat)
    requires i <= |a|
    ensures !LessFrom(a, a, i)
    decreases |a| - i
  {
    if i < |a| {
      LessIrreflexive(a, i + 1);
    }
  }

  lemma {:induction false} LessTransitive(a: string, b: string, c: string, i: nat)
    requires i <= |a| && i <= |b| && i <= |c| && LessFrom(a, b, i) && LessFrom(b, c, i)
    ensures LessFrom(a, c, i)
    decreases |a| - i
  {
    if i < |a| && a[i] == b[i] == c[i] {
      LessTransitive(a, b, c, i + 1);
    }
  }

  lemma {:induction false} LessTotal(a: string, b: string, i: nat)
    requires i <= |a| && i <= |b| && a[..i] == b[..i] && a != b
    ensures LessFrom(a, b, i) != LessFrom(b, a, i)
    decreases |a| - i
  {
    if i < |a| && i < |b| && a[i] == b[i] {
      assert a[..i + 1] == a[..i] + [a[i]] && b[..i + 1] == b[..i] + [b[i]];
      LessTotal(a, b, i + 1);
    }
  }

  ghost predicate Sorted(s: seq<string>) {
    forall i, j :: 0 <= i < j < |s| ==> !Less(s[j], s[i])
  }

  ghost predicate StrictlySorted(s: seq<string>) {
    forall i, j :: 0 <= i < j < |s| ==> Less(s[i], s[j])
  }

  lemma StrictIndices(s: seq<string>, i: nat, j: nat)
    requires StrictlySorted(s) && i < |s| && j < |s|
    ensures i < j <==> Less(s[i], s[j])
    ensures i == j <==> s[i] == s[j]
  {
    LessIrreflexive(s[i], 0);
    if j < i {
      LessTotal(s[i], s[j], 0);
    }
  }

  /** A strictly sorted list is determined by its elements. */
  lemma {:induction false} StrictUnique(s: seq<string>, t: seq<string>)
    requires StrictlySorted(s) && StrictlySorted(t) && forall x :: x in s <==> x in t
    ensures s == t
  {
    assert t != [] ==> t[0] in t;
    if s != [] {
      var x := s[|s| - 1];
      assert x in t;
      var n := |t| - 1;
      assert t[n] in s;
      LastIsGreatest(s, t[n]);
      LastIsGreatest(t, x);
      assert t[n] == x;
      forall y
        ensures y in s[..|s| - 1] <==> y in t[..n]
      {
        FrontElements(s, y);
        FrontElements(t, y);
      }
      StrictUnique(s[..|s| - 1], t[..n]);
      assert s == s[..|s| - 1] + [x] && t == t[..n] + [x];
    }
  }

  lemma FrontElements(s: seq<string>, x: string)
    requires StrictlySorted(s) && s != []
    ensures x in s[..|s| - 1] <==> x in s && x != s[|s| - 1]
  {
    if i :| 0 <= i < |s| - 1 && s[i] == x {
      StrictIndices(s, i, |s| - 1);
    }
    if i :| 0 <= i < |s| && s[i] == x && x != s[|s| - 1] {
      assert s[..|s| - 1][i] == x;
    }
  }

  lemma LastIsGreatest(s: seq<string>, x: string)
    requires StrictlySorted(s) && x in s
    ensures !Less(s[|s| - 1], x)
  {
    var i :| 0 <= i < |s| && s[i] == x;
    StrictIndices(s, |s| - 1, i);
  }

  // ----- Sorting and dropping repetitions -----

  /** x put before the first element of s it is not after. */
  function Insert(s: seq<string>, x: string): (r: seq<string>)
    ensures multiset(r) == multiset(s) + multiset{x}
  {
    if s == [] then [x]
    else if Less(s[|s| - 1], x) then s + [x]
    else
      assert s == s[..|s| - 1] + [s[|s| - 1]];
      Insert(s[..|s| - 1], x) + [s[|s| - 1]]
  }

  function SortUpTo(s: seq<string>, n: nat): (r: seq<string>)
    requires n <= |s|
    ensures multiset(r) == multiset(s[..n])
  {
    if n == 0 then [] else
      assert s[..n] == s[..n - 1] + [s[n - 1]];
      Insert(SortUpTo(s, n - 1), s[n - 1])
  }

  lemma {:induction false} InsertSorts(s: seq<string>, x: string)
    requires Sorted(s)
    ensures Sorted(Insert(s, x))
  {
    if s != [] {
      var n := |s| - 1;
      if Less(s[n], x) {
        forall i | 0 <= i < |s|
          ensures !Less(x, s[i])
        {
          if Less(x, s[i]) {
            LessTransitive(s[n], x, s[i], 0);
            LessIrreflexive(s[n], 0);
          }
        }
      } else {
        InsertSorts(s[..n], x);
        var r := Insert(s[..n], x);
        forall i | 0 <= i < |r|
          ensures !Less(s[n], r[i])
        {
          assert r[i] in multiset(r);
          if r[i] != x {
            assert r[i] in multiset(s[..n]);
          }
        }
      }
    }
  }

  lemma {:induction false} SortSorts(s: seq<string>, n: nat)
    requires n <= |s|
    ensures Sorted(SortUpTo(s, n))
  {
    if n > 0 {
      SortSorts(s, n - 1);
      InsertSorts(SortUpTo(s, n - 1), s[n - 1]);
    }
  }
}
