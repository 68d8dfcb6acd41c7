/** Parsing a topic pattern and printing its parts are inverse (topic_pattern.rs:46-98). */
module TopicRoundTrip {
  import opened Wrappers
  import opened Lists
  import opened TopicPatterns

  // ----- What is accepted is canonical and prints back -----

  /** A list parsing can have built so far: canonical, and ending in a capture. */
  predicate Pending(parts: seq<Part>) {
    Canonical(parts) && (parts != [] ==> parts[|parts| - 1].Capture?)
  }

  lemma PrintOne(parts: seq<Part>, p: Part)
    ensures Print(parts + [p]) == Print(parts) + PrintPart(p)
  {
    FlattenPrefix(Strings(parts), Strings(parts + [p]), |parts|);
  }

  lemma PrintText(parts: seq<Part>, text: string)
    ensures Print(parts + TextPart(text)) == Print(parts) + text
  {
    if text == "" {
      assert parts + TextPart(text) == parts;
    } else {
      PrintOne(parts, Text(text));
    }
  }

  lemma PrintExtend(parts: seq<Part>, text: string, c: Part)
    ensures Print(Extend(parts, text, c)) == Print(parts) + text + PrintPart(c)
  {
    PrintText(parts, text);
    PrintOne(parts + TextPart(text), c);
  }

  lemma BodyPrints(body: string)
    ensures PrintPart(CaptureOf(body)) == Braced(body)
  {
    var c := CaptureOf(body);
    if c.multi {
      assert body == c.name + "..";
    }
  }

  lemma CaptureFollows(parts: seq<Part>, c: Part)
    requires Canonical(parts) && c.Capture? && GoodPart(c) && !NamedIn(parts, c.name)
    requires CaptureCount(parts, |parts|) < MAX_CAPTURES
    ensures Pending(parts + [c])
  {
    CountPrefix(parts, [c], |parts|);
    var next := parts + [c];
    forall i, j | 0 <= i < j < |next| && next[i].Capture? && next[j].Capture?
      ensures next[i].name != next[j].name
    {
      assert next[i] == parts[i];
    }
  }

  lemma TextNamesNothing(parts: seq<Part>, text: string, name: string)
    requires !NamedIn(parts, name)
    ensures !NamedIn(parts + TextPart(text), name)
  {
  }

  lemma TextCountsNothing(parts: seq<Part>, text: string)
    ensures var t := parts + TextPart(text); CaptureCount(t, |t|) == CaptureCount(parts, |parts|)
  {
    CountPrefix(parts, TextPart(text), |parts|);
    if text == "" {
      assert parts + TextPart(text) == parts;
    }
  }

  lemma PendingExtend(parts: seq<Part>, text: string, c: Part)
    requires Pending(parts) && NoBraces(text) && c.Capture?
    requires CheckCapture(c.name, parts, CaptureCount(parts, |parts|)).None?
    ensures Pending(Extend(parts, text, c))
  {
    PendingText(parts, text);
    TextNamesNothing(parts, text, c.name);
    TextCountsNothing(parts, text);
    CaptureFollows(parts + TextPart(text), c);
  }

  lemma PendingText(parts: seq<Part>, text: string)
    requires Pending(parts) && NoBraces(text)
    ensures Canonical(parts + TextPart(text))
  {
    TextCountsNothing(parts, text);
    if text == "" {
      assert parts + TextPart(text) == parts;
    }
  }

  lemma Regroup(a: string, b: string, c: string, d: string)
    ensures a + (b + (c + d)) == a + b + c + d
  {
  }

  lemma {:induction false} ParsePrints(topic: string, rest: string, parts: seq<Part>)
    requires Pending(parts) && topic == Print(parts) + rest && ParseRest(rest, parts).Success?
    ensures var r := ParseRest(rest, parts).value; Canonical(r) && Print(r) == topic
    decreases |rest|
  {
    ScanSound(rest);
    match Scan(rest)
    case NoMore =>
      PrintText(parts, rest);
      PendingText(parts, rest);
    case Found(text, body, rest') =>
      var c := CaptureOf(body);
      BodyPrints(body);
      PrintExtend(parts, text, c);
      PendingExtend(parts, text, c);
      Regroup(Print(parts), text, Braced(body), rest');
      ParsePrints(topic, rest', Extend(parts, text, c));
  }

  // ----- A canonical list comes back from its print -----

  /** The print of the parts from i on. */
  function PrintTail(parts: seq<Part>, i: nat): string
    requires i <= |parts|
  {
    Tail(Strings(parts), i)
  }

  lemma BodyOf(c: Part) returns (body: string)
    requires c.Capture? && IsName(c.name)
    ensures NoBraces(body) && CaptureOf(body) == c && PrintPart(c) == Braced(body)
  {
    body := c.name + if c.multi then ".." else "";
    if c.multi {
      assert body[..|body| - 2] == c.name;
    } else {
      assert body == c.name;
      assert IsNameChar(body[|body| - 1]);
    }
  }

  lemma {:induction false} CountGrows(parts: seq<Part>, i: nat, n: nat)
    requires i <= n <= |parts|
    ensures CaptureCount(parts, i) <= CaptureCount(parts, n)
  {
    if i < n {
      CountGrows(parts, i, n - 1);
    }
  }

  lemma NotNamedBefore(parts: seq<Part>, i: nat, j: nat)
    requires Canonical(parts) && i <= j < |parts| && parts[j].Capture?
    ensures CheckCapture(parts[j].name, parts[..i], CaptureCount(parts[..i], i)).None?
  {
    assert GoodPart(parts[j]);
    CountPrefix(parts[..i], parts[i..], i);
    assert parts[..i] + parts[i..] == parts;
    CountGrows(parts, i, j);
    CountGrows(parts, j + 1, |parts|);
    forall k | 0 <= k < |parts[..i]| && parts[..i][k].Capture?
      ensures parts[..i][k].name != parts[j].name
    {
      assert parts[..i][k] == parts[k];
    }
  }

  lemma {:induction false} ParseStep(text: string, body: string, tail: string, before: seq<Part>)
    requires NoBraces(text) && NoBraces(body)
    requires CheckCapture(CaptureOf(body).name, before, CaptureCount(before, |before|)).None?
    ensures ParseRest(text + (Braced(body) + tail), before) == ParseRest(tail, Extend(before, text, CaptureOf(body)))
  {
    ScanFinds(text, body, tail);
  }

  /** A capture, and the text before it if there is one, are read as one step. */
  lemma {:induction false} ParsesCapture(parts: seq<Part>, i: nat, text: string, j: nat)
    requires Canonical(parts) && i <= j < |parts| && parts[j].Capture?
    requires NoBraces(text) && parts[i..j] == TextPart(text)
    ensures ParseRest(text + (PrintPart(parts[j]) + PrintTail(parts, j + 1)), parts[..i])
      == ParseRest(PrintTail(parts, j + 1), parts[..j + 1])
  {
    assert GoodPart(parts[j]);
    var body := BodyOf(parts[j]);
    NotNamedBefore(parts, i, j);
    PrefixExtends(parts, i, text, j);
    ParseStep(text, body, PrintTail(parts, j + 1), parts[..i]);
  }

  lemma PrefixExtends(parts: seq<Part>, i: nat, text: string, j: nat)
    requires i <= j < |parts| && parts[i..j] == TextPart(text)
    ensures parts[..j + 1] == Extend(parts[..i], text, parts[j]) && |parts[..i]| == i
  {
    assert parts[..j] == parts[..i] + parts[i..j];
    assert parts[..j + 1] == parts[..j] + [parts[j]];
  }

  lemma ParsesEnd(parts: seq<Part>, i: nat, text: string)
    requires i <= |parts| && NoBraces(text) && parts[i..] == TextPart(text)
    ensures ParseRest(text, parts[..i]) == Success(parts)
  {
    ScanNone(text);
    assert parts[..i] + TextPart(text) == parts;
  }

  lemma TailStep(parts: seq<Part>, i: nat)
    requires i < |parts|
    ensures PrintTail(parts, i) == PrintPart(parts[i]) + PrintTail(parts, i + 1)
    ensures parts[i].Text? && i + 1 < |parts| ==>
      PrintTail(parts, i) == parts[i].t + (PrintPart(parts[i + 1]) + PrintTail(parts, i + 2))
    ensures i + 1 == |parts| ==> PrintTail(parts, i) == PrintPart(parts[i])
  {
    if i + 1 == |parts| {
      assert PrintPart(parts[i]) + "" == PrintPart(parts[i]);
    }
  }

  lemma NoText(s: string)
    ensures "" + s == s
  {
  }

  lemma ReadsCapture(parts: seq<Part>, i: nat)
    requires Canonical(parts) && i < |parts| && parts[i].Capture?
    ensures ParseRest(PrintTail(parts, i), parts[..i]) == ParseRest(PrintTail(parts, i + 1), parts[..i + 1])
  {
    var tail := PrintTail(parts, i + 1);
    TailStep(parts, i);
    NoText(PrintPart(parts[i]) + tail);
    assert parts[i..i] == [];
    ParsesCapture(parts, i, "", i);
  }

  lemma {:induction false} ReadsText(parts: seq<Part>, i: nat)
    requires Canonical(parts) && i + 1 < |parts| && parts[i].Text?
    ensures parts[i + 1].Capture?
    ensures ParseRest(PrintTail(parts, i), parts[..i]) == ParseRest(PrintTail(parts, i + 2), parts[..i + 2])
  {
    TailStep(parts, i);
    assert GoodPart(parts[i]);
    ParsesCapture(parts, i, parts[i].t, i + 1);
  }

  lemma ReadsLast(parts: seq<Part>, i: nat)
    requires Canonical(parts) && i <= |parts| && (i < |parts| ==> i + 1 == |parts| && parts[i].Text?)
    ensures ParseRest(PrintTail(parts, i), parts[..i]) == Success(parts)
  {
    if i < |parts| {
      assert GoodPart(parts[i]);
      TailStep(parts, i);
      ParsesEnd(parts, i, parts[i].t);
    } else {
      ParsesEnd(parts, i, "");
    }
  }

  /** Parsing the rest of a canonical print, after its first i parts, gives the rest of the parts. */
  lemma {:induction false} PrintParses(parts: seq<Part>, i: nat)
    requires Canonical(parts) && i <= |parts| && (i > 0 ==> parts[i - 1].Capture?)
    ensures ParseRest(PrintTail(parts, i), parts[..i]) == Success(parts)
    decreases |parts| - i
  {
    if i < |parts| && parts[i].Capture? {
      ReadsCapture(parts, i);
      PrintParses(parts, i + 1);
    } else if i + 1 < |parts| {
      ReadsText(parts, i);
      PrintParses(parts, i + 2);
    } else {
      ReadsLast(parts, i);
    }
  }

  lemma ParseSound(topic: string)
    requires ParseSpec(topic).Success?
    ensures Canonical(ParseSpec(topic).value) && Print(ParseSpec(topic).value) == topic
  {
    ParsePrints(topic, topic, []);
  }

  lemma ParseComplete(parts: seq<Part>)
    requires Canonical(parts)
    ensures ParseSpec(Print(parts)) == Success(parts)
  {
    FlattenSplits(Strings(parts), 0);
    assert Print(parts) == PrintTail(parts, 0);
    PrintParses(parts, 0);
    assert parts[..0] == [];
  }

  /**
   Parsing and printing are inverse: a topic is accepted as parts exactly when the parts are
   canonical and spell the topic.
   */
  lemma ParseIffPrint(topic: string, parts: seq<Part>)
    ensures ParseSpec(topic) == Success(parts) <==> Canonical(parts) && Print(parts) == topic
  {
    if ParseSpec(topic).Success? {
      ParseSound(topic);
    }
    if Canonical(parts) {
      ParseComplete(parts);
    }
  }
}
