/**
 Why a topic is refused as a pattern (topic_pattern.rs:46-98): everything before the fault parses,
 and the fault is the first one there is.
 */
module ParseErrors {
  import opened Wrappers
  import opened Lists
  import opened TopicPatterns
  import opened TopicRoundTrip

  // ----- Braces that do not match -----

  /** A closing brace with none open before it. */
  ghost predicate ClosesNothing(s: string) {
    exists text, more :: NoBraces(text) && s == text + ("}" + more)
  }

  /** An opening brace before which none is open, and after which the text ends or another opens. */
  ghost predicate StaysOpen(s: string) {
    exists text, body, more :: NoBraces(text) && NoBraces(body) && Unclosed(s, text, body, more)
  }

  predicate Unclosed(s: string, text: string, body: string, more: string) {
    s == text + ("{" + body) || s == text + ("{" + (body + ("{" + more)))
  }

  lemma ClosesIff(s: string)
    ensures Scan(s) == Broken(UnbalancedClose) <==> ClosesNothing(s)
  {
    if Scan(s) == Broken(UnbalancedClose) {
      var open := FindBrace(s, 0);
      SplitAt(s, open);
      assert NoBraces(s[..open]) && s == s[..open] + ("}" + s[open + 1..]);
    }
    if text, more :| NoBraces(text) && s == text + ("}" + more) {
      assert s[|text|] == '}';
      FirstBrace(s, |text|);
    }
  }

  lemma OpenIff(s: string)
    ensures Scan(s) == Broken(UnbalancedOpen) <==> StaysOpen(s)
  {
    if Scan(s) == Broken(UnbalancedOpen) {
      OpenIs(s);
    }
    if text, body, more :| NoBraces(text) && NoBraces(body) && Unclosed(s, text, body, more) {
      IsOpen(s, text, body, more);
    }
  }

  lemma OpenIs(s: string)
    requires Scan(s) == Broken(UnbalancedOpen)
    ensures StaysOpen(s)
  {
    var open := FindBrace(s, 0);
    var after := s[open + 1..];
    SplitAt(s, open);
    assert s == s[..open] + ("{" + after);
    OpenAfter(s, s[..open], after);
  }

  lemma OpenAfter(s: string, text: string, after: string)
    requires NoBraces(text) && s == text + ("{" + after)
    requires var close := FindBrace(after, 0); close == |after| || after[close] == '{'
    ensures StaysOpen(s)
  {
    var close := FindBrace(after, 0);
    var body := after[..close];
    if close < |after| {
      SplitAt(after, close);
      assert after == body + ("{" + after[close + 1..]);
      assert Unclosed(s, text, body, after[close + 1..]);
    } else {
      assert body == after;
      assert Unclosed(s, text, body, "");
    }
  }

  lemma IsOpen(s: string, text: string, body: string, more: string)
    requires NoBraces(text) && NoBraces(body) && Unclosed(s, text, body, more)
    ensures Scan(s) == Broken(UnbalancedOpen)
  {
    assert s[|text|] == '{';
    FirstBrace(s, |text|);
    var after := s[|text| + 1..];
    if s == text + ("{" + body) {
      assert after == body;
      NoBrace(after);
    } else {
      assert after == body + ("{" + more);
      assert after[|body|] == '{';
      FirstBrace(after, |body|);
    }
  }

  lemma NoBrace(s: string)
    requires NoBraces(s)
    ensures FindBrace(s, 0) == |s|
  {
  }

  // ----- Captures that are refused -----

  /** The name a capture's body spells: without the two dots of one that takes the rest. */
  function NameOf(body: string): string {
    if |body| >= 2 && body[|body| - 2..] == ".." then body[..|body| - 2] else body
  }

  /** Why a capture is refused after these parts: the first reason there is. */
  predicate RefusedFor(name: string, before: seq<Part>, e: PatternError) {
    match e
    case EmptyName => name == ""
    case BadName(n) => n == name && name != "" && !IsName(name)
    case Duplicate(n) => n == name && IsName(name) && NamedIn(before, name)
    case TooManyCaptures => IsName(name) && !NamedIn(before, name) && CaptureCount(before, |before|) == 8
    case _ => false
  }

  /** A capture is refused. */
  ghost predicate RefusesCapture(s: string, before: seq<Part>, e: PatternError) {
    exists text, body, more ::
      NoBraces(text) && NoBraces(body) && s == text + (("{" + body + "}") + more) && RefusedFor(NameOf(body), before, e)
  }

  lemma CheckIs(body: string, before: seq<Part>, e: PatternError)
    ensures CheckCapture(CaptureOf(body).name, before, CaptureCount(before, |before|)) == Some(e)
      <==> RefusedFor(NameOf(body), before, e)
  {
    if |body| >= 2 {
      assert body[|body| - 2..] == [body[|body| - 2], body[|body| - 1]];
    }
  }

  /** The rest of a topic, after the parts before it, is refused right there. */
  ghost predicate FaultAt(s: string, before: seq<Part>, e: PatternError) {
    match e
    case UnbalancedClose => ClosesNothing(s)
    case UnbalancedOpen => StaysOpen(s)
    case _ => RefusesCapture(s, before, e)
  }

  /** What the next turn of parsing comes to. */
  ghost predicate TurnFails(s: string, before: seq<Part>, e: PatternError) {
    match Scan(s)
    case NoMore => false
    case Broken(f) => f == e
    case Found(_, body, _) => CheckCapture(CaptureOf(body).name, before, CaptureCount(before, |before|)) == Some(e)
  }

  lemma CaptureFaultIff(s: string, before: seq<Part>, e: PatternError)
    ensures Scan(s).Found? && TurnFails(s, before, e) <==> RefusesCapture(s, before, e)
  {
    ScanSound(s);
    if Scan(s).Found? && TurnFails(s, before, e) {
      CheckIs(Scan(s).body, before, e);
      assert s == Scan(s).text + (("{" + Scan(s).body + "}") + Scan(s).rest);
    }
    if text, body, more :|
      NoBraces(text) && NoBraces(body) && s == text + (("{" + body + "}") + more) && RefusedFor(NameOf(body), before, e)
    {
      ScanFinds(text, body, more);
      CheckIs(body, before, e);
    }
  }

  lemma TurnFailsIff(s: string, before: seq<Part>, e: PatternError)
    ensures TurnFails(s, before, e) <==> FaultAt(s, before, e)
  {
    ClosesIff(s);
    OpenIff(s);
    CaptureFaultIff(s, before, e);
    ScanErrors(s);
  }

  /** Scanning fails for unbalanced braces only, and a capture never does. */
  lemma ScanErrors(s: string)
    ensures Scan(s).Broken? ==> Scan(s).e == UnbalancedClose || Scan(s).e == UnbalancedOpen
  {
  }

  // ----- What stands before the fault -----

  /** The parts but the last capture and the text before it, and that text. */
  function Init(parts: seq<Part>): (seq<Part>, string)
    requires parts != []
  {
    var n := |parts| - 1;
    if n > 0 && parts[n - 1].Text? then (parts[..n - 1], parts[n - 1].t) else (parts[..n], "")
  }

  lemma InitIs(parts: seq<Part>)
    requires Pending(parts) && parts != []
    ensures var (init, text) := Init(parts); var c := parts[|parts| - 1];
      && |init| < |parts| && NoBraces(text) && parts == Extend(init, text, c)
      && init == parts[..|init|] && parts[|init|..|parts| - 1] == TextPart(text)
  {
    var (init, text) := Init(parts);
    var n := |parts| - 1;
    assert parts == parts[..n] + [parts[n]];
    if n > 0 && parts[n - 1].Text? {
      assert GoodPart(parts[n - 1]);
      assert parts[..n] == parts[..n - 1] + [parts[n - 1]];
    } else {
      assert parts[..n] + [] == parts[..n];
    }
  }

  lemma InitPending(parts: seq<Part>)
    requires Pending(parts) && parts != []
    ensures Pending(Init(parts).0)
  {
    InitIs(parts);
    var init := Init(parts).0;
    FrontCanonical(parts, |init|);
    if init != [] {
      LastIsCapture(parts);
    }
  }

  lemma FrontCanonical(parts: seq<Part>, m: nat)
    requires Canonical(parts) && m <= |parts|
    ensures Canonical(parts[..m])
  {
    var front := parts[..m];
    assert front + parts[m..] == parts;
    CountPrefix(front, parts[m..], m);
    CountGrows(parts, m, |parts|);
    assert forall i :: 0 <= i < m ==> front[i] == parts[i];
  }

  lemma LastIsCapture(parts: seq<Part>)
    requires Pending(parts) && parts != [] && Init(parts).0 != []
    ensures var init := Init(parts).0; init[|init| - 1].Capture?
  {
    var n := |parts| - 1;
    if n > 0 && parts[n - 1].Text? && n > 1 {
      assert parts[n - 2].Capture?;
    }
  }

  /** What a canonical front prints is parsed back to it, whatever follows. */
  lemma {:induction false} FrontParses(parts: seq<Part>, rest: string)
    requires Pending(parts)
    ensures ParseSpec(Print(parts) + rest) == ParseRest(rest, parts)
    decreases |parts|
  {
    if parts == [] {
      assert Print(parts) + rest == rest;
    } else {
      var (init, text) := Init(parts);
      var c := parts[|parts| - 1];
      InitIs(parts);
      InitPending(parts);
      PrintExtend(init, text, c);
      Regroup(Print(init), text, PrintPart(c), rest);
      FrontParses(init, text + (PrintPart(c) + rest));
      LastParses(parts, rest);
    }
  }

  lemma LastParses(parts: seq<Part>, rest: string)
    requires Pending(parts) && parts != []
    ensures var (init, text) := Init(parts); var c := parts[|parts| - 1];
      ParseRest(text + (PrintPart(c) + rest), init) == ParseRest(rest, parts)
  {
    var (init, text) := Init(parts);
    InitIs(parts);
    var n := |parts| - 1;
    assert GoodPart(parts[n]);
    var body := BodyOf(parts[n]);
    NotNamedBefore(parts, |init|, n);
    ParseStep(text, body, rest, init);
  }

  /** A topic with a fault: what stands before it are canonical parts ending in a capture, if any. */
  ghost predicate Faulty(topic: string, before: seq<Part>, rest: string, e: PatternError) {
    Pending(before) && topic == Print(before) + rest && FaultAt(rest, before, e)
  }

  lemma {:induction false} FaultIn(topic: string, rest: string, parts: seq<Part>, e: PatternError)
      returns (before: seq<Part>, s: string)
    requires Pending(parts) && topic == Print(parts) + rest && ParseRest(rest, parts) == Failure(e)
    ensures Faulty(topic, before, s, e)
    decreases |rest|
  {
    ScanSound(rest);
    TurnFailsIff(rest, parts, e);
    before, s := parts, rest;
    if Scan(rest).Found? && !TurnFails(rest, parts, e) {
      var text, body, rest' := Scan(rest).text, Scan(rest).body, Scan(rest).rest;
      var c := CaptureOf(body);
      BodyPrints(body);
      PrintExtend(parts, text, c);
      PendingExtend(parts, text, c);
      Regroup(Print(parts), text, Braced(body), rest');
      before, s := FaultIn(topic, rest', Extend(parts, text, c), e);
    }
  }

  /**
   A topic is refused for a reason if and only if its first fault is that one: canonical parts,
   ending in a capture, spell what stands before it.
   */
  lemma {:induction false} RefusedIff(topic: string, e: PatternError)
    ensures ParseSpec(topic) == Failure(e) <==> exists before, rest :: Faulty(topic, before, rest, e)
  {
    if ParseSpec(topic) == Failure(e) {
      assert Print([]) + topic == topic;
      var before, rest := FaultIn(topic, topic, [], e);
    }
    if before, rest :| Faulty(topic, before, rest, e) {
      FrontParses(before, rest);
      TurnFailsIff(rest, before, e);
    }
  }
}
