/**
 The mistakes a build reports before it looks at the graph (builder.rs:690-827), and what each
 of them means for the records that were configured.
 */
module Mistakes {
  import opened Wrappers
  import opened Graph
  import R = Registry

  type Entry = R.Entry
  type ConfigError = R.ConfigError

  /** A recorded mistake, with the record's key where it has none. */
  function Attributed(key: Key, e: ConfigError): ConfigError {
    if e.key == "" then e.(key := key) else e
  }

  function Drained(key: Key, mistakes: seq<ConfigError>): (es: seq<ConfigError>)
    ensures |es| == |mistakes| && forall i :: 0 <= i < |mistakes| ==> es[i] == Attributed(key, mistakes[i])
  {
    if mistakes == [] then [] else Drained(key, mistakes[..|mistakes| - 1]) + [Attributed(key, mistakes[|mistakes| - 1])]
  }

  /** How many kinds of writer a record has. */
  function Writers(r: R.Record): nat {
    (if r.hasProducer then 1 else 0) + (if r.hasTransform then 1 else 0) + (if r.inbound != [] then 1 else 0)
  }

  function RecordFindings(e: Entry): seq<ConfigError> {
    Drained(e.key, e.record.mistakes)
    + (if Writers(e.record) > 1 then [R.ConfigError(e.key, R.ConflictingWriters)] else [])
    + if (e.record.node.outboundLinks != [] || e.record.inbound != []) && !e.record.hasBuffer
      then [R.ConfigError(e.key, R.NoBuffer)] else []
  }

  function AllRecordFindings(records: seq<Entry>, n: nat): seq<ConfigError>
    requires n <= |records|
  {
    if n == 0 then [] else AllRecordFindings(records, n - 1) + RecordFindings(records[n - 1])
  }

  /** Input j of a record's transform is registered with another type than the transform reads. */
  predicate ReadsOtherType(e: Entry, records: seq<Entry>, index: map<Key, nat>, j: nat)
    requires j < |e.record.inputTypes|
  {
    var (input, typeId) := e.record.inputTypes[j];
    input in index && index[input] < |records| && records[index[input]].typeId != typeId
  }

  function OtherType(e: Entry, j: nat): ConfigError
    requires j < |e.record.inputTypes|
  {
    R.ConfigError(e.key, R.InputType(e.record.inputTypes[j].0))
  }

  function InputFindings(e: Entry, records: seq<Entry>, index: map<Key, nat>, n: nat): seq<ConfigError>
    requires n <= |e.record.inputTypes|
  {
    if n == 0 then []
    else
      InputFindings(e, records, index, n - 1)
      + if ReadsOtherType(e, records, index, n - 1) then [OtherType(e, n - 1)] else []
  }

  function AllInputFindings(records: seq<Entry>, index: map<Key, nat>, n: nat): seq<ConfigError>
    requires n <= |records|
  {
    if n == 0 then []
    else
      var e := records[n - 1];
      AllInputFindings(records, index, n - 1) + InputFindings(e, records, index, |e.record.inputTypes|)
  }

  /** Every mistake but those of the graph. */
  function Findings(s: R.State, runtime: bool): seq<ConfigError> {
    s.errors + AllRecordFindings(s.records, |s.records|)
    + (if runtime then [] else [R.ConfigError("", R.NoRuntime)])
    + AllInputFindings(s.records, s.index, |s.records|)
  }

  // ----- What is a mistake -----

  /** Sources, transforms and inbound links all write a record's buffer; two kinds would race. */
  predicate HasTwoWriters(r: R.Record) {
    (r.hasProducer && r.hasTransform) || (r.hasProducer && r.inbound != []) || (r.hasTransform && r.inbound != [])
  }

  predicate IsLinked(r: R.Record) {
    r.node.outboundLinks != [] || r.inbound != []
  }

  ghost predicate RecordMistake(e: Entry, f: ConfigError) {
    || (exists i :: 0 <= i < |e.record.mistakes| && f == Attributed(e.key, e.record.mistakes[i]))
    || (f == R.ConfigError(e.key, R.ConflictingWriters) && HasTwoWriters(e.record))
    || (f == R.ConfigError(e.key, R.NoBuffer) && IsLinked(e.record) && !e.record.hasBuffer)
  }

  ghost predicate InputMistake(e: Entry, records: seq<Entry>, index: map<Key, nat>, n: nat, f: ConfigError)
    requires n <= |e.record.inputTypes|
  {
    exists j :: 0 <= j < n && ReadsOtherType(e, records, index, j) && f == OtherType(e, j)
  }

  ghost predicate AnyRecordMistake(records: seq<Entry>, n: nat, f: ConfigError)
    requires n <= |records|
  {
    exists i :: 0 <= i < n && RecordMistake(records[i], f)
  }

  ghost predicate AnyInputMistake(records: seq<Entry>, index: map<Key, nat>, n: nat, f: ConfigError)
    requires n <= |records|
  {
    exists i :: 0 <= i < n && InputMistake(records[i], records, index, |records[i].record.inputTypes|, f)
  }

  lemma InBoth(a: seq<ConfigError>, b: seq<ConfigError>, f: ConfigError)
    ensures f in a + b <==> f in a || f in b
  {
  }

  lemma RecordFindingsWhich(e: Entry, f: ConfigError)
    ensures f in RecordFindings(e) <==> RecordMistake(e, f)
  {
    if i :| 0 <= i < |e.record.mistakes| && f == Attributed(e.key, e.record.mistakes[i]) {
      assert Drained(e.key, e.record.mistakes)[i] == f;
    }
  }

  lemma {:induction false} AllRecordFindingsWhich(records: seq<Entry>, n: nat, f: ConfigError)
    requires n <= |records|
    ensures f in AllRecordFindings(records, n) <==> AnyRecordMistake(records, n, f)
  {
    if n > 0 {
      AllRecordFindingsWhich(records, n - 1, f);
      RecordFindingsWhich(records[n - 1], f);
      InBoth(AllRecordFindings(records, n - 1), RecordFindings(records[n - 1]), f);
      RecordStep(records, n - 1, f, RecordMistake(records[n - 1], f));
    }
  }

  lemma RecordStep(records: seq<Entry>, n: nat, f: ConfigError, last: bool)
    requires n < |records| && last == RecordMistake(records[n], f)
    ensures AnyRecordMistake(records, n + 1, f) <==> AnyRecordMistake(records, n, f) || last
  {
    if i :| 0 <= i < n && RecordMistake(records[i], f) {
      assert AnyRecordMistake(records, n + 1, f);
    }
  }

  lemma {:induction false} InputFindingsWhich(e: Entry, records: seq<Entry>, index: map<Key, nat>, n: nat, f: ConfigError)
    requires n <= |e.record.inputTypes|
    ensures f in InputFindings(e, records, index, n) <==> InputMistake(e, records, index, n, f)
  {
    if n > 0 {
      InputFindingsWhich(e, records, index, n - 1, f);
    }
  }

  lemma {:induction false} AllInputFindingsWhich(records: seq<Entry>, index: map<Key, nat>, n: nat, f: ConfigError)
    requires n <= |records|
    ensures f in AllInputFindings(records, index, n) <==> AnyInputMistake(records, index, n, f)
  {
    if n > 0 {
      var e := records[n - 1];
      AllInputFindingsWhich(records, index, n - 1, f);
      InputFindingsWhich(e, records, index, |e.record.inputTypes|, f);
      InBoth(AllInputFindings(records, index, n - 1), InputFindings(e, records, index, |e.record.inputTypes|), f);
      InputStep(records, index, n - 1, f, InputMistake(e, records, index, |e.record.inputTypes|, f));
    }
  }

  lemma InputStep(records: seq<Entry>, index: map<Key, nat>, n: nat, f: ConfigError, last: bool)
    requires n < |records| && last == InputMistake(records[n], records, index, |records[n].record.inputTypes|, f)
    ensures AnyInputMistake(records, index, n + 1, f) <==> AnyInputMistake(records, index, n, f) || last
  {
    if i :| 0 <= i < n && InputMistake(records[i], records, index, |records[i].record.inputTypes|, f) {
      assert AnyInputMistake(records, index, n + 1, f);
    }
  }

  /** Exactly the mistakes are found: of configuring, of each record, a missing runtime, and of each input's type. */
  lemma FindingsWhich(s: R.State, runtime: bool, f: ConfigError)
    ensures f in Findings(s, runtime) <==>
      || f in s.errors
      || AnyRecordMistake(s.records, |s.records|, f)
      || (!runtime && f == R.ConfigError("", R.NoRuntime))
      || AnyInputMistake(s.records, s.index, |s.records|, f)
  {
    AllRecordFindingsWhich(s.records, |s.records|, f);
    AllInputFindingsWhich(s.records, s.index, |s.records|, f);
  }

  /** The order of the findings: as configured, the records', the missing runtime, the inputs'. */
  lemma FindingsInOrder(s: R.State, runtime: bool) returns (a: nat, b: nat)
    ensures var fs := Findings(s, runtime);
      && |s.errors| == a <= b <= |fs| && fs[..a] == s.errors
      && (forall k :: a <= k < b ==> AnyRecordMistake(s.records, |s.records|, fs[k]))
      && if runtime then forall k :: b <= k < |fs| ==> AnyInputMistake(s.records, s.index, |s.records|, fs[k])
        else
          && b < |fs| && fs[b] == R.ConfigError("", R.NoRuntime)
          && forall k :: b < k < |fs| ==> AnyInputMistake(s.records, s.index, |s.records|, fs[k])
  {
    var records, inputs := AllRecordFindings(s.records, |s.records|), AllInputFindings(s.records, s.index, |s.records|);
    a, b := |s.errors|, |s.errors| + |records|;
    var fs := Findings(s, runtime);
    var rest := if runtime then b else b + 1;
    assert fs[..a] == s.errors;
    forall k | a <= k < b
      ensures AnyRecordMistake(s.records, |s.records|, fs[k])
    {
      assert fs[k] == records[k - a] && fs[k] in records;
      AllRecordFindingsWhich(s.records, |s.records|, fs[k]);
    }
    forall k | rest <= k < |fs|
      ensures AnyInputMistake(s.records, s.index, |s.records|, fs[k])
    {
      assert fs[k] == inputs[k - rest] && fs[k] in inputs;
      AllInputFindingsWhich(s.records, s.index, |s.records|, fs[k]);
    }
  }

  // ----- When there is none -----

  predicate CleanRecord(r: R.Record) {
    r.mistakes == [] && !HasTwoWriters(r) && (IsLinked(r) ==> r.hasBuffer)
  }

  /** The registered inputs of a record's transform hold the types it reads them as. */
  ghost predicate InputsAgree(e: Entry, records: seq<Entry>, index: map<Key, nat>) {
    forall j :: 0 <= j < |e.record.inputTypes| ==> !ReadsOtherType(e, records, index, j)
  }

  /** Nothing was configured wrongly, a runtime is set, and every record and its inputs' types are in order. */
  ghost predicate Clean(s: R.State, runtime: bool) {
    && s.errors == [] && runtime
    && (forall i :: 0 <= i < |s.records| ==> CleanRecord(s.records[i].record))
    && (forall i :: 0 <= i < |s.records| ==> InputsAgree(s.records[i], s.records, s.index))
  }

  lemma CleanRecordHasNone(e: Entry)
    ensures RecordFindings(e) == [] <==> CleanRecord(e.record)
  {
  }

  lemma {:induction false} NoRecordFindings(records: seq<Entry>, n: nat)
    requires n <= |records|
    ensures AllRecordFindings(records, n) == [] <==> forall i :: 0 <= i < n ==> CleanRecord(records[i].record)
  {
    if n > 0 {
      NoRecordFindings(records, n - 1);
      CleanRecordHasNone(records[n - 1]);
    }
  }

  lemma {:induction false} NoInputFindingsOf(e: Entry, records: seq<Entry>, index: map<Key, nat>, n: nat)
    requires n <= |e.record.inputTypes|
    ensures InputFindings(e, records, index, n) == [] <==> forall j :: 0 <= j < n ==> !ReadsOtherType(e, records, index, j)
  {
    if n > 0 {
      NoInputFindingsOf(e, records, index, n - 1);
    }
  }

  lemma {:induction false} NoInputFindings(records: seq<Entry>, index: map<Key, nat>, n: nat)
    requires n <= |records|
    ensures AllInputFindings(records, index, n) == [] <==>
      forall i :: 0 <= i < n ==> InputsAgree(records[i], records, index)
  {
    if n > 0 {
      var e := records[n - 1];
      NoInputFindings(records, index, n - 1);
      NoInputFindingsOf(e, records, index, |e.record.inputTypes|);
      assert InputFindings(e, records, index, |e.record.inputTypes|) == [] <==> InputsAgree(e, records, index);
    }
  }

  /** A configuration has no findings exactly when it is clean. */
  lemma NoFindingsIffClean(s: R.State, runtime: bool)
    ensures Findings(s, runtime) == [] <==> Clean(s, runtime)
  {
    NoRecordFindings(s.records, |s.records|);
    NoInputFindings(s.records, s.index, |s.records|);
  }

  // ----- Finding them -----

  /** One record's mistakes, with its key filled in where a setter did not have it. */
  method CheckRecord(e: Entry) returns (errors: seq<ConfigError>)
    ensures errors == RecordFindings(e)
  {
    errors := Drained(e.key, e.record.mistakes);
    var writers := 0;
    if e.record.hasProducer {
      writers := writers + 1;
    }
    if e.record.hasTransform {
      writers := writers + 1;
    }
    if e.record.inbound != [] {
      writers := writers + 1;
    }
    if writers > 1 {
      errors := errors + [R.ConfigError(e.key, R.ConflictingWriters)];
    }
    if (e.record.node.outboundLinks != [] || e.record.inbound != []) && !e.record.hasBuffer {
      errors := errors + [R.ConfigError(e.key, R.NoBuffer)];
    }
  }

  method CheckRecords(records: seq<Entry>, before: seq<ConfigError>) returns (errors: seq<ConfigError>)
    ensures errors == before + AllRecordFindings(records, |records|)
  {
    errors := before;
    for n := 0 to |records|
      invariant errors == before + AllRecordFindings(records, n)
    {
      var found := CheckRecord(records[n]);
      errors := errors + found;
    }
  }

  method CheckInputsOf(e: Entry, records: seq<Entry>, byKey: map<Key, nat>,
        before: seq<ConfigError>) returns (errors: seq<ConfigError>)
    ensures errors == before + InputFindings(e, records, byKey, |e.record.inputTypes|)
  {
    errors := before;
    for m := 0 to |e.record.inputTypes|
      invariant errors == before + InputFindings(e, records, byKey, m)
    {
      var (input, typeId) := e.record.inputTypes[m];
      if input in byKey && byKey[input] < |records| && records[byKey[input]].typeId != typeId {
        errors := errors + [R.ConfigError(e.key, R.InputType(input))];
        assert ReadsOtherType(e, records, byKey, m);
      }
    }
  }

  method CheckInputTypes(records: seq<Entry>, byKey: map<Key, nat>,
        before: seq<ConfigError>) returns (errors: seq<ConfigError>)
    ensures errors == before + AllInputFindings(records, byKey, |records|)
  {
    errors := before;
    for n := 0 to |records|
      invariant errors == before + AllInputFindings(records, byKey, n)
    {
      errors := CheckInputsOf(records[n], records, byKey, errors);
    }
  }
}
