/**
 What a build script watches of a repository (build.rs:416-427, 504-548): the top-most directories
 without an ignored path below them whole, other known files one by one.
 */
module WatchTrees {
  import opened Wrappers
  import opened Lists

  // ----- Paths -----

  /** d is a directory above path. */
  predicate Above(d: string, path: string) {
    |d| < |path| && path[..|d|] == d && path[|d|] == '/'
  }

  /** Every directory above path. */
  function Ancestors(path: string): (s: set<string>)
    ensures forall d :: d in s <==> Above(d, path)
  {
    var s := set i | 0 <= i < |path| && path[i] == '/' :: path[..i];
    assert forall d :: Above(d, path) ==> d == path[..|d|];
    s
  }

  /** path without the slashes at its end. */
  function Trimmed(path: string): (t: string)
    ensures t == "" || t[|t| - 1] != '/'
    ensures t <= path && forall i :: |t| <= i < |path| ==> path[i] == '/'
  {
    if path != "" && path[|path| - 1] == '/' then Trimmed(path[..|path| - 1]) else path
  }

  function Join(top: string, path: string): string {
    top + "/" + path
  }

  lemma AboveTransitive(a: string, b: string, c: string)
    requires Above(a, b) && Above(b, c)
    ensures Above(a, c)
  {
    assert c[..|a|] == c[..|b|][..|a|];
    assert c[|a|] == c[..|b|][|a|];
  }

  /** Two directories above the same path are one above the other, or the same. */
  lemma AboveTotal(a: string, b: string, c: string)
    requires Above(a, c) && Above(b, c)
    ensures a == b || Above(a, b) || Above(b, a)
    ensures |a| < |b| ==> Above(a, b)
  {
    if |a| < |b| {
      assert b[..|a|] == c[..|b|][..|a|] == c[..|a|];
      assert b[|a|] == c[..|b|][|a|];
    } else if |b| < |a| {
      assert a[..|b|] == c[..|a|][..|b|] == c[..|b|];
      assert a[|b|] == c[..|a|][|b|];
    }
  }

  // ----- Clean directories -----

  /** The top and every directory above one of the first n ignored paths. */
  function Unclean(ignored: seq<string>, n: nat): (s: set<string>)
    requires n <= |ignored|
    ensures forall d :: d in s <==> d == "" || exists i :: 0 <= i < n && Above(d, Trimmed(ignored[i]))
  {
    if n == 0 then {""} else Unclean(ignored, n - 1) + Ancestors(Trimmed(ignored[n - 1]))
  }

  /** The shortest directory above file, no shorter than i, that is not in unclean. */
  function CleanDir(file: string, unclean: set<string>, i: nat): (d: Option<string>)
    requires i <= |file|
    ensures d.Some? ==> Above(d.value, file) && d.value !in unclean && |d.value| >= i
    ensures d.Some? ==> forall e :: Above(e, file) && i <= |e| < |d.value| ==> e in unclean
    ensures d.None? ==> forall e :: Above(e, file) && i <= |e| ==> e in unclean
    decreases |file| - i
  {
    if i == |file| then None
    else if file[i] == '/' && file[..i] !in unclean then Some(file[..i])
    else
      assert forall e :: Above(e, file) && |e| == i ==> e == file[..i];
      CleanDir(file, unclean, i + 1)
  }

  /** What is watched for a known file. */
  function Target(file: string, unclean: set<string>): string {
    var d := CleanDir(file, unclean, 0);
    if d.Some? then d.value else file
  }

  // ----- The watch list -----

  datatype Directive = Env(name: string) | Changed(path: string)

  /** The list after watching one more path. */
  function Noted(ds: seq<Directive>, path: string): seq<Directive> {
    if Changed(path) in ds then ds else ds + [Changed(path)]
  }

  /** The list after the first n known files. */
  function NotedFiles(ds: seq<Directive>, top: string, known: seq<string>, unclean: set<string>,
        present: string -> bool, n: nat): seq<Directive>
    requires n <= |known|
  {
    if n == 0 then ds
    else
      var before, path := NotedFiles(ds, top, known, unclean, present, n - 1), Join(top, Target(known[n - 1], unclean));
      if known[n - 1] != "" && present(path) then Noted(before, path) else before
  }

  function NotedIndex(ds: seq<Directive>, index: Option<string>, present: string -> bool): seq<Directive> {
    if index.Some? && present(index.value) then Noted(ds, index.value) else ds
  }

  class Watch {
    var directives: seq<Directive>
    var seen: set<string>
    var tree: bool

    ghost predicate Valid()
      reads this
    {
      && (forall p :: p in seen <==> Changed(p) in directives)
      && Once(directives)
    }

    constructor ()
      ensures Valid() && directives == [] && !tree
    {
      directives, seen, tree := [], {}, false;
    }

    method Path(path: string)
      requires Valid()
      modifies this
      ensures Valid() && tree == old(tree)
      ensures directives == Noted(old(directives), path)
    {
      if path !in seen {
        directives := directives + [Changed(path)];
        seen := seen + {path};
      }
    }

    /** Watches the repository at top; false when its files could not be listed. */
    method WatchTree(top: string, known: Option<seq<string>>, ignored: Option<seq<string>>, index: Option<string>,
          present: string -> bool)
      returns (ok: bool)
      requires Valid()
      modifies this
      ensures Valid()
      ensures ok <==> known.Some? && ignored.Some?
      ensures !ok ==> directives == old(directives) && tree == old(tree)
      ensures ok ==> tree
      ensures ok ==> directives == NotedIndex(
        NotedFiles(old(directives), top, known.value, Unclean(ignored.value, |ignored.value|), present, |known.value|), index, present)
    {
      if known.None? || ignored.None? {
        return false;
      }
      var files := known.value;
      var unclean := UncleanSet(ignored.value);
      ghost var before := directives;
      for n := 0 to |files|
        invariant Valid()
        invariant directives == NotedFiles(before, top, files, unclean, present, n)
      {
        var file := files[n];
        if file != "" {
          var path := Join(top, Target(file, unclean));
          if present(path) {
            Path(path);
          }
        }
      }
      if index.Some? && present(index.value) {
        Path(index.value);
      }
      tree := true;
      ok := true;
    }
  }

  /** No path is watched twice. */
  ghost predicate Once(ds: seq<Directive>) {
    forall i, j :: 0 <= i < j < |ds| && ds[i].Changed? ==> ds[i] != ds[j]
  }

  /** Where the last slash of path is. */
  function LastSlash(path: string, n: nat): (i: Option<nat>)
    requires n <= |path|
    ensures i.Some? ==> i.value < n && path[i.value] == '/' && forall j :: i.value < j < n ==> path[j] != '/'
    ensures i.None? ==> forall j :: 0 <= j < n ==> path[j] != '/'
  {
    if n == 0 then None else if path[n - 1] == '/' then Some(n - 1) else LastSlash(path, n - 1)
  }

  lemma AncestorsOfParent(path: string, i: nat)
    requires i < |path| && path[i] == '/' && forall j :: i < j < |path| ==> path[j] != '/'
    ensures Ancestors(path) == Ancestors(path[..i]) + {path[..i]}
  {
    var parent := path[..i];
    assert Above(parent, path);
    forall d
      ensures Above(d, path) <==> Above(d, parent) || d == parent
    {
      if Above(d, path) && d != parent {
        AboveTotal(d, parent, path);
      }
      if Above(d, parent) {
        AboveTransitive(d, parent, path);
      }
    }
  }

  method UncleanSet(ignored: seq<string>) returns (unclean: set<string>)
    ensures unclean == Unclean(ignored, |ignored|)
  {
    unclean := {""};
    for n := 0 to |ignored|
      invariant unclean == Unclean(ignored, n)
    {
      var path := Trimmed(ignored[n]);
      var slash := LastSlash(path, |path|);
      while slash.Some?
        invariant slash == LastSlash(path, |path|)
        invariant unclean + Ancestors(path) == Unclean(ignored, n + 1)
        decreases |path|
      {
        AncestorsOfParent(path, slash.value);
        path := path[..slash.value];
        unclean := unclean + {path};
        slash := LastSlash(path, |path|);
      }
      assert Ancestors(path) == {};
    }
  }

  // ----- What is watched -----

  /** path, relative to the top, is watched for one of the first n known files. */
  ghost predicate Watched(top: string, known: seq<string>, n: nat, unclean: set<string>, present: string -> bool,
        path: string)
    requires n <= |known|
  {
    exists i :: 0 <= i < n && known[i] != "" && Target(known[i], unclean) == path && present(Join(top, path))
  }

  /** The list grows by exactly the watched paths. */
  lemma {:induction false} NotedWhich(ds: seq<Directive>, top: string, known: seq<string>, unclean: set<string>,
        present: string -> bool, n: nat, path: string)
    requires n <= |known|
    ensures Changed(Join(top, path)) in NotedFiles(ds, top, known, unclean, present, n) <==>
      Changed(Join(top, path)) in ds || Watched(top, known, n, unclean, present, path)
  {
    var d := Changed(Join(top, path));
    NotedAre(ds, top, known, unclean, present, n, d);
    if i :| 0 <= i < n && Notes(top, known, unclean, present, i, d) {
      JoinInjective(top, path, Target(known[i], unclean));
    }
    if i :| 0 <= i < n && known[i] != "" && Target(known[i], unclean) == path && present(Join(top, path)) {
      assert Notes(top, known, unclean, present, i, d);
    }
  }

  lemma JoinInjective(top: string, a: string, b: string)
    requires Join(top, a) == Join(top, b)
    ensures a == b
  {
    assert a == Join(top, a)[|top| + 1..] && b == Join(top, b)[|top| + 1..];
  }

  /** Nothing else is put on the list. */
  lemma {:induction false} NotedOnly(ds: seq<Directive>, top: string, known: seq<string>, unclean: set<string>,
        present: string -> bool, n: nat, d: Directive)
    requires n <= |known| && d in NotedFiles(ds, top, known, unclean, present, n)
    ensures d in ds || (d.Changed? && exists i :: 0 <= i < n && d.path == Join(top, Target(known[i], unclean)))
  {
    if n > 0 && d in NotedFiles(ds, top, known, unclean, present, n - 1) {
      NotedOnly(ds, top, known, unclean, present, n - 1, d);
    }
  }

  /**
   What a run adds to the list, in full: for every known file that is listed the path watched for
   it, if it exists, and the index, if it exists.
   */
  lemma {:induction false} WatchTreeWhich(ds: seq<Directive>, top: string, known: seq<string>, ignored: seq<string>,
        index: Option<string>, present: string -> bool, d: Directive)
    ensures var unclean := Unclean(ignored, |ignored|);
      d in NotedIndex(NotedFiles(ds, top, known, unclean, present, |known|), index, present) <==>
        || d in ds
        || SomeNotes(top, known, unclean, present, |known|, d)
        || (index.Some? && present(index.value) && d == Changed(index.value))
  {
    NotedAre(ds, top, known, Unclean(ignored, |ignored|), present, |known|, d);
  }

  /** The directive known file i adds. */
  ghost predicate Notes(top: string, known: seq<string>, unclean: set<string>, present: string -> bool, i: int,
        d: Directive)
  {
    && 0 <= i < |known| && known[i] != ""
    && var path := top + "/" + Target(known[i], unclean); present(path) && d == Changed(path)
  }

  /** One of the first n known files adds the directive. */
  ghost predicate SomeNotes(top: string, known: seq<string>, unclean: set<string>, present: string -> bool, n: nat,
        d: Directive)
  {
    exists i :: 0 <= i < n && Notes(top, known, unclean, present, i, d)
  }

  lemma {:induction false} NotedAre(ds: seq<Directive>, top: string, known: seq<string>, unclean: set<string>,
        present: string -> bool, n: nat, d: Directive)
    requires n <= |known|
    ensures d in NotedFiles(ds, top, known, unclean, present, n) <==>
      d in ds || SomeNotes(top, known, unclean, present, n, d)
  {
    var p := (k: nat) => k <= |known| ==> NotedIff(ds, top, known, unclean, present, k, d);
    forall k: nat | k < n && p(k)
      ensures p(k + 1)
    {
      NotedIffStep(ds, top, known, unclean, present, k, d);
    }
    UpTo(p, n);
  }

  ghost predicate NotedIff(ds: seq<Directive>, top: string, known: seq<string>, unclean: set<string>,
        present: string -> bool, n: nat, d: Directive)
    requires n <= |known|
  {
    d in NotedFiles(ds, top, known, unclean, present, n) <==> d in ds || SomeNotes(top, known, unclean, present, n, d)
  }

  lemma {:induction false} NotedIffStep(ds: seq<Directive>, top: string, known: seq<string>, unclean: set<string>,
        present: string -> bool, n: nat, d: Directive)
    requires n < |known|
    ensures NotedIff(ds, top, known, unclean, present, n, d) ==> NotedIff(ds, top, known, unclean, present, n + 1, d)
  {
    NotedLast(ds, top, known, unclean, present, n, d);
    NotesLast(top, known, unclean, present, n, d);
  }

  lemma {:induction false} NotedLast(ds: seq<Directive>, top: string, known: seq<string>, unclean: set<string>,
        present: string -> bool, n: nat, d: Directive)
    requires n < |known|
    ensures d in NotedFiles(ds, top, known, unclean, present, n + 1) <==>
      d in NotedFiles(ds, top, known, unclean, present, n) || Notes(top, known, unclean, present, n, d)
  {
  }

  lemma NotesLast(top: string, known: seq<string>, unclean: set<string>, present: string -> bool, n: nat, d: Directive)
    requires n < |known|
    ensures SomeNotes(top, known, unclean, present, n + 1, d) <==>
      SomeNotes(top, known, unclean, present, n, d) || Notes(top, known, unclean, present, n, d)
  {
    if i :| 0 <= i < n && Notes(top, known, unclean, present, i, d) {
      assert SomeNotes(top, known, unclean, present, n + 1, d);
    }
  }

  lemma {:induction false} NotedStep(ds: seq<Directive>, top: string, known: seq<string>, unclean: set<string>,
        present: string -> bool, n: nat)
    requires n < |known|
    ensures NotedFiles(ds, top, known, unclean, present, n) <= NotedFiles(ds, top, known, unclean, present, n + 1)
  {
  }

  lemma {:induction false} Chain(s: nat -> seq<Directive>, m: nat, n: nat)
    requires m <= n && forall k :: m <= k < n ==> s(k) <= s(k + 1)
    ensures s(m) <= s(n)
  {
    if m < n {
      Chain(s, m, n - 1);
    }
  }

  /** The list only grows at its end, file by file: what is on it stays where it is. */
  lemma {:induction false} NotedGrows(ds: seq<Directive>, top: string, known: seq<string>, unclean: set<string>,
        present: string -> bool, m: nat, n: nat)
    requires m <= n <= |known|
    ensures NotedFiles(ds, top, known, unclean, present, m) <= NotedFiles(ds, top, known, unclean, present, n)
  {
    var s := (k: nat) => if k <= |known| then NotedFiles(ds, top, known, unclean, present, k) else [];
    forall k: nat | m <= k < n
      ensures s(k) <= s(k + 1)
    {
      NotedStep(ds, top, known, unclean, present, k);
    }
    Chain(s, m, n);
  }

  /** A whole run leaves what was on the list in front, and puts the index, if it is new, last. */
  lemma {:induction false} WatchTreeGrows(ds: seq<Directive>, top: string, known: seq<string>, unclean: set<string>,
        index: Option<string>, present: string -> bool)
    ensures var files := NotedFiles(ds, top, known, unclean, present, |known|);
      ds <= files <= NotedIndex(files, index, present)
  {
    NotedGrows(ds, top, known, unclean, present, 0, |known|);
  }

  /** Every known file that exists is watched, itself or with a directory above it. */
  lemma EveryFileIsCovered(top: string, known: seq<string>, unclean: set<string>, present: string -> bool, file: string)
    requires file in known && file != "" && present(Join(top, file))
    requires forall d :: Above(d, file) ==> present(Join(top, d))
    ensures Watched(top, known, |known|, unclean, present, Target(file, unclean))
    ensures Target(file, unclean) == file || Above(Target(file, unclean), file)
  {
    var i :| 0 <= i < |known| && known[i] == file;
  }

  /** A file's directory is watched exactly when one above it is clean, and then it is the top-most clean one. */
  lemma TopMost(file: string, unclean: set<string>)
    ensures Target(file, unclean) != file <==> exists d :: Above(d, file) && d !in unclean
    ensures Target(file, unclean) != file ==>
      && Above(Target(file, unclean), file) && Target(file, unclean) !in unclean
      && forall d :: Above(d, Target(file, unclean)) ==> d in unclean
  {
    var t := Target(file, unclean);
    if t != file {
      forall d | Above(d, t)
        ensures d in unclean
      {
        AboveTransitive(d, t, file);
      }
    }
  }

  /**
   What is watched for f lies above what is watched for g exactly when f, itself a directory above
   g and above an ignored path, is watched as if it were a file.
   */
  lemma {:induction false} InsideIff(unclean: set<string>, f: string, g: string)
    ensures Above(Target(f, unclean), Target(g, unclean)) <==> Above(f, g) && Target(f, unclean) == f && f in unclean
  {
    var p, q := Target(f, unclean), Target(g, unclean);
    TopMost(f, unclean);
    TopMost(g, unclean);
    if Above(p, q) && q != g {
      AboveTransitive(p, q, g);
    }
    if Above(f, g) && p == f && f in unclean && q != g {
      AboveTotal(f, q, g);
    }
  }

  /** f is on the watch list itself, though it is a directory with ignored paths below it. */
  ghost predicate WatchedUnclean(top: string, unclean: set<string>, present: string -> bool, f: string) {
    f in unclean && Target(f, unclean) == f && present(Join(top, f))
  }

  /** A known path lies below another one that is watched though unclean. */
  ghost predicate Overlap(top: string, known: seq<string>, unclean: set<string>, present: string -> bool, i: nat, j: nat)
    requires i < |known| && j < |known|
  {
    && known[i] != "" && known[j] != "" && Above(known[i], known[j])
    && WatchedUnclean(top, unclean, present, known[i]) && present(Join(top, Target(known[j], unclean)))
  }

  ghost predicate Nested(top: string, known: seq<string>, unclean: set<string>, present: string -> bool, p: string, q: string) {
    && Above(p, q)
    && Watched(top, known, |known|, unclean, present, p) && Watched(top, known, |known|, unclean, present, q)
  }

  /** A watched path lies below another one if and only if known paths overlap like that. */
  lemma {:induction false} NestedIffOverlap(top: string, known: seq<string>, unclean: set<string>, present: string -> bool)
    ensures (exists p, q :: Nested(top, known, unclean, present, p, q)) <==>
      exists i, j :: 0 <= i < |known| && 0 <= j < |known| && Overlap(top, known, unclean, present, i, j)
  {
    if p, q :| Nested(top, known, unclean, present, p, q) {
      var i :| 0 <= i < |known| && known[i] != "" && Target(known[i], unclean) == p && present(Join(top, p));
      var j :| 0 <= j < |known| && known[j] != "" && Target(known[j], unclean) == q && present(Join(top, q));
      InsideIff(unclean, known[i], known[j]);
      assert Overlap(top, known, unclean, present, i, j);
    }
    if i, j :| 0 <= i < |known| && 0 <= j < |known| && Overlap(top, known, unclean, present, i, j) {
      InsideIff(unclean, known[i], known[j]);
      assert Nested(top, known, unclean, present, known[i], Target(known[j], unclean));
    }
  }

  /** path is ignored: listed itself, or below a listed directory. */
  ghost predicate Ignored(ignored: seq<string>, path: string) {
    exists i :: 0 <= i < |ignored| && (Trimmed(ignored[i]) == path || Above(Trimmed(ignored[i]), path))
  }

  lemma IgnoredSpreads(ignored: seq<string>, d: string, x: string)
    requires Ignored(ignored, d) && Above(d, x)
    ensures Ignored(ignored, x)
  {
    var i :| 0 <= i < |ignored| && (Trimmed(ignored[i]) == d || Above(Trimmed(ignored[i]), d));
    if Trimmed(ignored[i]) != d {
      AboveTransitive(Trimmed(ignored[i]), d, x);
    }
  }

  /** What is ignored below a directory with no listed path below it is ignored with that directory. */
  lemma IgnoredFromAbove(ignored: seq<string>, d: string, x: string)
    requires Ignored(ignored, x) && Above(d, x) && d !in Unclean(ignored, |ignored|)
    ensures Ignored(ignored, d)
  {
    var i :| 0 <= i < |ignored| && (Trimmed(ignored[i]) == x || Above(Trimmed(ignored[i]), x));
    var q := Trimmed(ignored[i]);
    assert !Above(d, q);
    if q != x {
      AboveTotal(d, q, x);
    }
  }

  ghost predicate HoldsIgnored(ignored: seq<string>, d: string) {
    exists x :: Above(d, x) && Ignored(ignored, x)
  }

  lemma IgnoredHolds(ignored: seq<string>, d: string)
    requires Ignored(ignored, d)
    ensures HoldsIgnored(ignored, d)
  {
    var x := d + "/";
    assert Above(d, x);
    IgnoredSpreads(ignored, d, x);
  }

  /** A directory without listed paths below it holds an ignored path exactly when it is ignored itself. */
  lemma {:induction false} HoldsIgnoredIff(ignored: seq<string>, d: string)
    requires d !in Unclean(ignored, |ignored|)
    ensures HoldsIgnored(ignored, d) <==> Ignored(ignored, d)
  {
    if HoldsIgnored(ignored, d) {
      var x :| Above(d, x) && Ignored(ignored, x);
      IgnoredFromAbove(ignored, d, x);
    } else if Ignored(ignored, d) {
      IgnoredHolds(ignored, d);
    }
  }

  /** What is watched for a file: never the top, and unclean only when it is the file itself. */
  lemma TargetIsPath(file: string, ignored: seq<string>)
    requires file != ""
    ensures var p := Target(file, Unclean(ignored, |ignored|)); p != "" && (p in Unclean(ignored, |ignored|) ==> p == file)
  {
    TopMost(file, Unclean(ignored, |ignored|));
  }

  /** A watched path holds an ignored one exactly when it is ignored itself, or is a known path above a listed one. */
  lemma {:induction false} WatchedHoldsIgnoredIff(ignored: seq<string>, file: string)
    requires file != ""
    ensures var p := Target(file, Unclean(ignored, |ignored|));
      HoldsIgnored(ignored, p) <==> Ignored(ignored, p) || (p == file && file in Unclean(ignored, |ignored|))
  {
    var p := Target(file, Unclean(ignored, |ignored|));
    TargetIsPath(file, ignored);
    if p in Unclean(ignored, |ignored|) {
      ListedBelow(ignored, p);
    } else {
      HoldsIgnoredIff(ignored, p);
    }
  }

  lemma ListedBelow(ignored: seq<string>, p: string)
    requires p in Unclean(ignored, |ignored|) && p != ""
    ensures HoldsIgnored(ignored, p)
  {
    var i :| 0 <= i < |ignored| && Above(p, Trimmed(ignored[i]));
    assert Ignored(ignored, Trimmed(ignored[i]));
  }

  /** Nothing watched for a file holds an ignored path when the file is not ignored and not above a listed path. */
  lemma {:induction false} HoldsNoIgnored(ignored: seq<string>, file: string)
    requires file != "" && !Ignored(ignored, file) && file !in Unclean(ignored, |ignored|)
    ensures !HoldsIgnored(ignored, Target(file, Unclean(ignored, |ignored|)))
  {
    var p := Target(file, Unclean(ignored, |ignored|));
    WatchedHoldsIgnoredIff(ignored, file);
    TopMost(file, Unclean(ignored, |ignored|));
    if Ignored(ignored, p) && p != file {
      IgnoredSpreads(ignored, p, file);
    }
  }

  /**
   A tracked file `a` replaced by a directory with an untracked `a/b` and an ignored `a/x`: both `a`
   and `a/b` are known and watched, one inside the other, and the watched `a` holds an ignored path.
   */
  lemma {:induction false} ReplacedFileOverlaps(top: string, present: string -> bool)
    requires present(Join(top, "a")) && present(Join(top, "a/b"))
    ensures var known, ignored := ["a", "a/b"], ["a/x"];
      var unclean := Unclean(ignored, 1);
      && Nested(top, known, unclean, present, "a", "a/b")
      && HoldsIgnored(ignored, "a") && !Ignored(ignored, "a")
  {
    var known, ignored := ["a", "a/b"], ["a/x"];
    var unclean := Unclean(ignored, 1);
    assert Trimmed(ignored[0]) == ignored[0];
    assert "a/x"[..1] == "a" && "a/b"[..1] == "a";
    assert Above("a", ignored[0]) && Above("a", known[1]);
    TopMost(known[0], unclean);
    TopMost(known[1], unclean);
    forall d | Above(d, "a/b")
      ensures d == "a"
    {
      assert "a/b"[|d|] == '/';
    }
    assert Target(known[0], unclean) == known[0] && Target(known[1], unclean) == known[1];
    ListedBelow(ignored, "a");
  }
}
