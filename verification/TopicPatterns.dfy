/**
 Inbound topic patterns (topic_pattern.rs:25-122): `{name}` captures one level, `{name..}` the
 rest. Parsing is specified by printing: a topic is accepted exactly when it is the print of a
 canonical list of parts, and that list is what parsing returns.
 */
module TopicPatterns {
  import opened Wrappers
  import opened Lists

  const MAX_CAPTURES: nat := 8

  datatype Part = Text(t: string) | Capture(name: string, multi: bool)

  datatype PatternError =
    | UnbalancedClose
    | UnbalancedOpen
    | EmptyName
    | BadName(name: string)
    | Duplicate(name: string)
    | TooManyCaptures

  predicate IsBrace(c: char) {
    c == '{' || c == '}'
  }

  predicate IsNameChar(c: char) {
    'a' <= c <= 'z' || 'A' <= c <= 'Z' || '0' <= c <= '9' || c == '_'
  }

  predicate NoBraces(s: string) {
    forall i :: 0 <= i < |s| ==> !IsBrace(s[i])
  }

  predicate IsName(s: string) {
    s != "" && forall i :: 0 <= i < |s| ==> IsNameChar(s[i])
  }

  // ----- Printing -----

  function PrintPart(p: Part): string {
    match p
    case Text(t) => t
    case Capture(name, multi) => "{" + name + (if multi then ".." else "") + "}"
  }

  function Strings(parts: seq<Part>): (ss: seq<string>)
    ensures |ss| == |parts| && forall i :: 0 <= i < |parts| ==> ss[i] == PrintPart(parts[i])
  {
    seq(|parts|, i requires 0 <= i < |parts| => PrintPart(parts[i]))
  }

  /** The topic the parts spell. */
  function Print(parts: seq<Part>): string {
    Flatten(Strings(parts), |parts|)
  }

  function CaptureCount(parts: seq<Part>, n: nat): (c: nat)
    requires n <= |parts|
    ensures c <= n
  {
    if n == 0 then 0 else CaptureCount(parts, n - 1) + if parts[n - 1].Capture? then 1 else 0
  }

  predicate GoodPart(p: Part) {
    match p
    case Text(t) => t != "" && NoBraces(t)
    case Capture(name, _) => IsName(name)
  }

  predicate NamedIn(parts: seq<Part>, name: string) {
    exists i :: 0 <= i < |parts| && parts[i].Capture? && parts[i].name == name
  }

  /** Nonempty brace-free texts, never two in a row; at most eight captures with distinct names. */
  predicate Canonical(parts: seq<Part>) {
    && (forall i :: 0 <= i < |parts| ==> GoodPart(parts[i]))
    && (forall i, j :: 0 <= i < |parts| && j == i + 1 && j < |parts| ==> parts[i].Capture? || parts[j].Capture?)
    && (forall i, j :: 0 <= i < j < |parts| && parts[i].Capture? && parts[j].Capture? ==> parts[i].name != parts[j].name)
    && CaptureCount(parts, |parts|) <= MAX_CAPTURES
  }

  // ----- Parsing -----

  /** The first brace at or after i, or the end. */
  function FindBrace(s: string, i: nat): (j: nat)
    requires i <= |s|
    ensures i <= j <= |s|
    ensures j < |s| ==> IsBrace(s[j])
    ensures forall k :: i <= k < j ==> !IsBrace(s[k])
    decreases |s| - i
  {
    if i == |s| || IsBrace(s[i]) then i else FindBrace(s, i + 1)
  }

  /** How a string goes on: with brace-free text only, in error, or with text, `{body}` and a rest. */
  datatype Scanned = NoMore | Broken(e: PatternError) | Found(text: string, body: string, rest: string)

  function Scan(s: string): (r: Scanned)
    ensures r.Found? ==> |r.rest| < |s|
  {
    var open := FindBrace(s, 0);
    if open == |s| then NoMore
    else if s[open] == '}' then Broken(UnbalancedClose)
    else
      var after := s[open + 1..];
      var close := FindBrace(after, 0);
      if close == |after| || after[close] == '{' then Broken(UnbalancedOpen)
      else Found(s[..open], after[..close], after[close + 1..])
  }

  function Braced(body: string): string {
    "{" + body + "}"
  }

  lemma SplitAt(s: string, i: nat)
    requires i < |s|
    ensures s == s[..i] + ([s[i]] + s[i + 1..])
  {
  }

  lemma Brace(text: string, body: string, rest: string)
    ensures text + ("{" + (body + ("}" + rest))) == text + (Braced(body) + rest)
  {
  }

  lemma Pieces(s: string, open: nat, after: string, close: nat)
    requires open < |s| && s[open] == '{' && after == s[open + 1..] && close < |after| && after[close] == '}'
    ensures s == s[..open] + (Braced(after[..close]) + after[close + 1..])
  {
    SplitAt(s, open);
    SplitAt(after, close);
    Brace(s[..open], after[..close], after[close + 1..]);
  }

  lemma ScanSound(s: string)
    ensures Scan(s).NoMore? ==> NoBraces(s)
    ensures Scan(s).Found? ==>
      NoBraces(Scan(s).text) && NoBraces(Scan(s).body) && s == Scan(s).text + (Braced(Scan(s).body) + Scan(s).rest)
  {
    if Scan(s).Found? {
      var open := FindBrace(s, 0);
      var after := s[open + 1..];
      Pieces(s, open, after, FindBrace(after, 0));
    }
  }

  /** There is only one way to take a string apart like this. */
  lemma ScanFinds(text: string, body: string, rest: string)
    requires NoBraces(text) && NoBraces(body)
    ensures Scan(text + (Braced(body) + rest)) == Found(text, body, rest)
  {
    var s := text + (Braced(body) + rest);
    assert s[|text|] == '{';
    FirstBrace(s, |text|);
    var after := s[|text| + 1..];
    assert after == body + ("}" + rest);
    assert after[|body|] == '}';
    FirstBrace(after, |body|);
    assert after[|body| + 1..] == rest;
  }

  lemma FirstBrace(s: string, j: nat)
    requires j < |s| && IsBrace(s[j]) && forall k :: 0 <= k < j ==> !IsBrace(s[k])
    ensures FindBrace(s, 0) == j
  {
  }

  lemma ScanNone(s: string)
    requires NoBraces(s)
    ensures Scan(s) == NoMore
  {
  }

  /** The capture a body spells. */
  function CaptureOf(body: string): (c: Part)
    ensures c.Capture?
  {
    if |body| >= 2 && body[|body| - 2] == '.' && body[|body| - 1] == '.'
    then Capture(body[..|body| - 2], true) else Capture(body, false)
  }

  /** Why a capture cannot follow the parts read before it, if so. */
  function CheckCapture(name: string, parts: seq<Part>, captures: nat): Option<PatternError> {
    if name == "" then Some(EmptyName)
    else if !IsName(name) then Some(BadName(name))
    else if NamedIn(parts, name) then Some(Duplicate(name))
    else if captures == MAX_CAPTURES then Some(TooManyCaptures)
    else None
  }

  function TextPart(t: string): seq<Part> {
    if t == "" then [] else [Text(t)]
  }

  /** The parts after one more text, possibly empty, and one more capture. */
  function Extend(parts: seq<Part>, text: string, c: Part): seq<Part> {
    parts + TextPart(text) + [c]
  }

  /** Parses the rest of a topic, after the parts read before it. */
  function ParseRest(rest: string, parts: seq<Part>): Result<seq<Part>, PatternError>
    decreases |rest|
  {
    match Scan(rest)
    case NoMore => Success(parts + TextPart(rest))
    case Broken(e) => Failure(e)
    case Found(text, body, rest') =>
      var c := CaptureOf(body);
      var e := CheckCapture(c.name, parts, CaptureCount(parts, |parts|));
      if e.Some? then Failure(e.value) else ParseRest(rest', Extend(parts, text, c))
  }

  function ParseSpec(topic: string): Result<seq<Part>, PatternError> {
    ParseRest(topic, [])
  }

  /** The parsing loop: the rest, the parts so far and their number of captures are updated. */
  method Parse(topic: string) returns (r: Result<seq<Part>, PatternError>)
    ensures r == ParseSpec(topic)
  {
    var parts: seq<Part>, captures, rest := [], 0, topic;
    var next := Scan(rest);
    while next.Found?
      invariant next == Scan(rest) && captures == CaptureCount(parts, |parts|)
      invariant ParseSpec(topic) == ParseRest(rest, parts)
      decreases |rest|
    {
      var c := CaptureOf(next.body);
      var e := CheckCapture(c.name, parts, captures);
      if e.Some? {
        return Failure(e.value);
      }
      parts := PushParts(parts, next.text, c);
      captures := captures + 1;
      rest := next.rest;
      next := Scan(rest);
    }
    if next.Broken? {
      return Failure(next.e);
    }
    ghost var before := parts;
    if rest != "" {
      parts := parts + [Text(rest)];
    }
    assert parts == before + TextPart(rest);
    return Success(parts);
  }

  method PushParts(before: seq<Part>, text: string, c: Part) returns (parts: seq<Part>)
    requires c.Capture?
    ensures parts == Extend(before, text, c)
    ensures CaptureCount(parts, |parts|) == CaptureCount(before, |before|) + 1
  {
    parts := before;
    if text != "" {
      parts := parts + [Text(text)];
    }
    parts := parts + [c];
    assert parts == Extend(before, text, c);
    AppendedCount(before, text, c);
  }

  lemma {:induction false} CountPrefix(parts: seq<Part>, more: seq<Part>, n: nat)
    requires n <= |parts|
    ensures CaptureCount(parts + more, n) == CaptureCount(parts, n)
  {
    if n > 0 {
      CountPrefix(parts, more, n - 1);
      assert (parts + more)[n - 1] == parts[n - 1];
    }
  }

  lemma AppendedCount(parts: seq<Part>, text: string, c: Part)
    requires c.Capture?
    ensures var next := Extend(parts, text, c); CaptureCount(next, |next|) == CaptureCount(parts, |parts|) + 1
  {
    var t := parts + TextPart(text);
    CountPrefix(t, [c], |t|);
    CountPrefix(parts, TextPart(text), |parts|);
    if text == "" {
      assert t == parts;
    }
  }
}
