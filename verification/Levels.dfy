/** Topics split at slashes. */
module Levels {
  import opened Wrappers

  predicate SlashFree(s: string) {
    forall i :: 0 <= i < |s| ==> s[i] != '/'
  }

  /** A text cut at its slashes: the levels before the last, and the last one. */
  datatype Cut = Cut(done: seq<string>, last: string) {
    function Levels(): (ls: seq<string>)
      ensures ls != []
    {
      done + [last]
    }

    function Push(c: char): Cut {
      if c == '/' then Cut(done + [last], "") else Cut(done, last + [c])
    }

    /** This text followed by another one: the last level here and the first there become one. */
    function Graft(s: Cut): Cut {
      if s.done == [] then Cut(done, last + s.last)
      else Cut(done + [last + s.done[0]] + s.done[1..], s.last)
    }
  }

  const NOTHING := Cut([], "")

  function CutTo(s: string, n: nat): Cut
    requires n <= |s|
  {
    if n == 0 then NOTHING else CutTo(s, n - 1).Push(s[n - 1])
  }

  function CutAll(s: string): Cut {
    CutTo(s, |s|)
  }

  /** The levels of a topic; always at least one. */
  function Split(s: string): (ls: seq<string>)
    ensures ls != []
  {
    CutAll(s).Levels()
  }

  lemma GraftPush(a: Cut, s: Cut, c: char)
    ensures a.Graft(s.Push(c)) == a.Graft(s).Push(c)
  {
    if s.done == [] {
      assert a.last + (s.last + [c]) == a.last + s.last + [c];
    } else {
      assert (s.done + [s.last])[1..] == s.done[1..] + [s.last];
    }
  }

  lemma GraftNothing(a: Cut)
    ensures a.Graft(NOTHING) == a
  {
    assert a.last + "" == a.last;
  }

  lemma {:induction false} CutPrefix(a: string, b: string, n: nat)
    requires n <= |a| && n <= |b| && forall i :: 0 <= i < n ==> a[i] == b[i]
    ensures CutTo(a, n) == CutTo(b, n)
  {
    if n > 0 {
      CutPrefix(a, b, n - 1);
    }
  }

  lemma {:induction false} CutAppend(a: string, b: string, m: nat)
    requires m <= |b|
    ensures CutTo(a + b, |a| + m) == CutTo(a, |a|).Graft(CutTo(b, m))
  {
    var p := a + b;
    if m == 0 {
      CutPrefix(a, p, |a|);
      GraftNothing(CutTo(a, |a|));
    } else {
      CutAppend(a, b, m - 1);
      GraftPush(CutTo(a, |a|), CutTo(b, m - 1), b[m - 1]);
    }
  }

  /** A slash-free text is a single level. */
  lemma {:induction false} CutFree(v: string, n: nat)
    requires n <= |v| && SlashFree(v)
    ensures CutTo(v, n) == Cut([], v[..n])
  {
    if n > 0 {
      CutFree(v, n - 1);
      assert v[..n] == v[..n - 1] + [v[n - 1]];
    }
  }

  lemma CutAllAppend(a: string, b: string)
    ensures CutAll(a + b) == CutAll(a).Graft(CutAll(b))
  {
    CutAppend(a, b, |b|);
  }

  lemma CutAllFree(v: string)
    requires SlashFree(v)
    ensures CutAll(v) == Cut([], v)
  {
    CutFree(v, |v|);
    assert v[..|v|] == v;
  }

  /** After a leading slash the first level is empty. */
  lemma {:induction false} CutLeading(t: string, n: nat)
    requires 0 < n <= |t| && t[0] == '/'
    ensures var s := CutTo(t, n); s.done != [] && s.done[0] == ""
  {
    if n > 1 {
      CutLeading(t, n - 1);
    } else {
      assert CutTo(t, 0) == NOTHING;
    }
  }

  // ----- Splitting loses nothing -----

  /** The first n levels, each with a slash after it. */
  function Joined(ls: seq<string>, n: nat): string
    requires n <= |ls|
  {
    if n == 0 then "" else Joined(ls, n - 1) + (ls[n - 1] + "/")
  }

  lemma {:induction false} JoinedPrefix(a: seq<string>, b: seq<string>, n: nat)
    requires n <= |a| && n <= |b| && forall i :: 0 <= i < n ==> a[i] == b[i]
    ensures Joined(a, n) == Joined(b, n)
  {
    if n > 0 {
      JoinedPrefix(a, b, n - 1);
    }
  }

  function Text(c: Cut): string {
    Joined(c.done, |c.done|) + c.last
  }

  lemma TextPush(c: Cut, ch: char)
    ensures Text(c.Push(ch)) == Text(c) + [ch]
  {
    if ch == '/' {
      JoinedPrefix(c.done, c.done + [c.last], |c.done|);
      assert Joined(c.done, |c.done|) + (c.last + "/") + "" == Joined(c.done, |c.done|) + c.last + [ch];
    } else {
      assert Joined(c.done, |c.done|) + (c.last + [ch]) == Joined(c.done, |c.done|) + c.last + [ch];
    }
  }

  lemma {:induction false} TextCut(s: string, n: nat)
    requires n <= |s|
    ensures Text(CutTo(s, n)) == s[..n]
  {
    if n > 0 {
      TextCut(s, n - 1);
      TextPush(CutTo(s, n - 1), s[n - 1]);
      assert s[..n] == s[..n - 1] + [s[n - 1]];
    } else {
      assert Text(NOTHING) == "";
    }
  }

  /** Different topics have different levels. */
  lemma SplitInjective(a: string, b: string)
    requires Split(a) == Split(b)
    ensures a == b
  {
    var x, y := CutAll(a), CutAll(b);
    assert x.done == x.Levels()[..|x.done|] && y.done == y.Levels()[..|y.done|];
    assert x.last == x.Levels()[|x.done|] && y.last == y.Levels()[|y.done|];
    TextCut(a, |a|);
    TextCut(b, |b|);
    assert a[..|a|] == a && b[..|b|] == b;
  }

  /** The levels with a slash between each two. */
  function Join(ls: seq<string>): string
    requires ls != []
  {
    Joined(ls, |ls| - 1) + ls[|ls| - 1]
  }

  lemma CutSlash(a: string)
    ensures CutAll(a + "/") == Cut(Split(a), "")
  {
    var slash := "/";
    CutAllAppend(a, slash);
    assert CutTo(slash, 0) == NOTHING;
    assert CutAll(slash) == Cut([""], "");
    assert CutAll(a).last + "" == CutAll(a).last;
  }

  lemma GraftOpen(done: seq<string>, b: Cut)
    ensures Cut(done, "").Graft(b).Levels() == done + b.Levels()
  {
    assert "" + b.last == b.last;
    if b.done != [] {
      assert "" + b.done[0] == b.done[0];
      assert b.done == [b.done[0]] + b.done[1..];
    }
  }

  /** Splitting, in full: a text without slashes is one level, and a slash separates the levels before and after it. */
  lemma SplitIs(a: string, b: string)
    ensures '/' !in a ==> Split(a) == [a]
    ensures Split(a + "/" + b) == Split(a) + Split(b)
  {
    if '/' !in a {
      CutAllFree(a);
    }
    CutSlash(a);
    CutAllAppend(a + "/", b);
    GraftOpen(Split(a), CutAll(b));
  }

  lemma {:induction false} CutJoined(ls: seq<string>, n: nat)
    requires n <= |ls| && forall i :: 0 <= i < n ==> SlashFree(ls[i])
    ensures CutAll(Joined(ls, n)) == Cut(ls[..n], "")
  {
    if n > 0 {
      CutJoined(ls, n - 1);
      CutOneMore(Joined(ls, n - 1), ls[..n - 1], ls[n - 1]);
      assert ls[..n] == ls[..n - 1] + [ls[n - 1]];
    }
  }

  lemma CutOneMore(s: string, done: seq<string>, level: string)
    requires CutAll(s) == Cut(done, "") && SlashFree(level)
    ensures CutAll(s + (level + "/")) == Cut(done + [level], "")
  {
    SlashEnds(level);
    CutAllAppend(s, level + "/");
    assert "" + level == level;
    assert done + [level] + [] == done + [level];
  }

  lemma SlashEnds(v: string)
    requires SlashFree(v)
    ensures CutAll(v + "/") == Cut([v], "")
  {
    CutAllFree(v);
    var slash := "/";
    CutAllAppend(v, slash);
    assert CutTo(slash, 0) == NOTHING;
    assert CutAll(slash) == Cut([""], "");
    assert v + "" == v;
  }

  /** Slash-free levels come back from the text that joins them. */
  lemma SplitJoin(ls: seq<string>)
    requires ls != [] && forall i :: 0 <= i < |ls| ==> SlashFree(ls[i])
    ensures Split(Join(ls)) == ls
  {
    var n := |ls| - 1;
    CutJoined(ls, n);
    CutAllFree(ls[n]);
    CutAllAppend(Joined(ls, n), ls[n]);
    assert "" + ls[n] == ls[n];
    assert ls == ls[..n] + [ls[n]];
  }

  /** The first level and the text after its slash, if there is one. */
  function SplitOnce(s: string): (string, Option<string>) {
    var k := FirstSlash(s, 0);
    if k == |s| then (s, None) else (s[..k], Some(s[k + 1..]))
  }

  function FirstSlash(s: string, i: nat): (k: nat)
    requires i <= |s|
    ensures i <= k <= |s| && (k < |s| ==> s[k] == '/')
    ensures forall j :: i <= j < k ==> s[j] != '/'
    decreases |s| - i
  {
    if i == |s| || s[i] == '/' then i else FirstSlash(s, i + 1)
  }

  /** Splitting once gives the first level; the rest splits into the others. */
  lemma SplitOnceIs(s: string)
    ensures var (text, next) := SplitOnce(s);
      Split(s) == [text] + if next.Some? then Split(next.value) else []
  {
    var k := FirstSlash(s, 0);
    if k == |s| {
      CutAllFree(s);
    } else {
      var v, next := s[..k], s[k + 1..];
      assert s == v + "/" + next;
      SlashEnds(v);
      CutAllAppend(v + "/", next);
      assert "" + CutAll(next).last == CutAll(next).last;
      if CutAll(next).done != [] {
        assert "" + CutAll(next).done[0] == CutAll(next).done[0];
        assert CutAll(next).done == [CutAll(next).done[0]] + CutAll(next).done[1..];
      }
    }
  }

  /** Where level i starts. */
  function Offset(ls: seq<string>, i: nat): nat
    requires i <= |ls|
  {
    if i == 0 then 0 else Offset(ls, i - 1) + |ls[i - 1]| + 1
  }

  lemma {:induction false} OffsetJoined(ls: seq<string>, i: nat)
    requires i <= |ls|
    ensures Offset(ls, i) == |Joined(ls, i)|
  {
    if i > 0 {
      OffsetJoined(ls, i - 1);
    }
  }

  /** Some text follows any prefix of levels. */
  lemma {:induction false} JoinedSplits(ls: seq<string>, i: nat, n: nat) returns (rest: string)
    requires i < n <= |ls|
    ensures Joined(ls, n) == Joined(ls, i) + ls[i] + rest
  {
    if n == i + 1 {
      rest := "/";
      Regroup(Joined(ls, i), ls[i], "/", "");
    } else {
      var r := JoinedSplits(ls, i, n - 1);
      rest := r + (ls[n - 1] + "/");
      Regroup(Joined(ls, i), ls[i], r, ls[n - 1] + "/");
    }
  }

  lemma Regroup(a: string, b: string, c: string, d: string)
    ensures a + (b + c) == a + b + c
    ensures a + b + c + d == a + b + (c + d)
  {
  }

  lemma TextSplits(c: Cut, i: nat) returns (rest: string)
    requires i < |c.Levels()|
    ensures Text(c) == Joined(c.Levels(), i) + c.Levels()[i] + rest
  {
    JoinedPrefix(c.done, c.Levels(), i);
    if i < |c.done| {
      var r := JoinedSplits(c.done, i, |c.done|);
      rest := r + c.last;
      Regroup(Joined(c.done, i), c.done[i], r, c.last);
    } else {
      rest := "";
    }
  }

  /** Every level is the stretch of the topic from its offset. */
  lemma LevelAt(s: string, i: nat)
    requires i < |Split(s)|
    ensures Offset(Split(s), i) + |Split(s)[i]| <= |s|
    ensures s[Offset(Split(s), i)..Offset(Split(s), i) + |Split(s)[i]|] == Split(s)[i]
  {
    TextCut(s, |s|);
    assert s[..|s|] == s;
    var rest := TextSplits(CutAll(s), i);
    OffsetJoined(Split(s), i);
    Stretch(s, Joined(Split(s), i), Split(s)[i], rest);
  }

  lemma Stretch(s: string, a: string, b: string, c: string)
    requires s == a + b + c
    ensures |a| + |b| <= |s| && s[|a|..|a| + |b|] == b
  {
  }

  lemma {:induction false} LevelsAreFree(s: string, n: nat)
    requires n <= |s|
    ensures SlashFree(CutTo(s, n).last) && forall i :: 0 <= i < |CutTo(s, n).done| ==> SlashFree(CutTo(s, n).done[i])
  {
    if n > 0 {
      LevelsAreFree(s, n - 1);
    }
  }

  lemma SplitFree(s: string, i: nat)
    requires i < |Split(s)|
    ensures SlashFree(Split(s)[i])
  {
    LevelsAreFree(s, |s|);
  }
}
