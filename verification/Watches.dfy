/**
 Waiting for updates of a record (watch.rs): arming takes the stamp of the current value as the
 baseline, awaiting hands on the updates stamped after it. And the server beside it: which writes
 those are, whatever order writes, subscribe and get come in.
 */
module Watches {
  import opened Wrappers

  datatype Update = Update(ts: nat, skipped: nat, value: int)

  datatype WatchError = Rpc(code: nat) | Io

  /** What the stream yields. */
  datatype Item = Next(update: Update) | Error(error: WatchError) | End

  datatype Status = Ok | Timeout | Disconnected

  datatype WatchOutcome = WatchOutcome(status: Status, received: nat, wanted: nat, skipped: nat)

  /** How far a call of await gets: it waits on when the stream has yielded nothing more yet. */
  datatype Awaited = Done(outcome: WatchOutcome) | Failed(error: WatchError) | Waiting(received: nat)

  // ----- Awaiting -----

  predicate IsNew(u: Update, baseline: Option<nat>) {
    baseline.None? || u.ts > baseline.value
  }

  /** No item from here on: the deadline passes first, the stream has ended or failed, or yields nothing yet. */
  predicate Stops(items: seq<Item>, deadline: Option<nat>, i: nat) {
    (deadline.Some? && i >= deadline.value) || i >= |items| || !items[i].Next?
  }

  /** How many updates arrive before that. */
  function Arrived(items: seq<Item>, deadline: Option<nat>, i: nat): (n: nat)
    requires i <= |items|
    ensures i <= n <= |items| && Stops(items, deadline, n)
    ensures forall j :: i <= j < n ==> !Stops(items, deadline, j)
    decreases |items| - i
  {
    if Stops(items, deadline, i) then i else Arrived(items, deadline, i + 1)
  }

  /** Those of the first n items that are newer than the baseline. */
  function NewOnes(items: seq<Item>, baseline: Option<nat>, n: nat): (us: seq<Update>)
    requires n <= |items|
    ensures |us| <= n
  {
    if n == 0 then []
    else
      var item := items[n - 1];
      NewOnes(items, baseline, n - 1) + if item.Next? && IsNew(item.update, baseline) then [item.update] else []
  }

  function Lost(us: seq<Update>, n: nat): nat
    requires n <= |us|
  {
    if n == 0 then 0 else Lost(us, n - 1) + us[n - 1].skipped
  }

  /** How many of the first n calls succeed before one fails. */
  function Accepted(us: seq<Update>, accept: (nat, Update) -> bool, k: nat, n: nat): (m: nat)
    requires k <= n <= |us|
    ensures k <= m <= n
    ensures m < n ==> !accept(m, us[m])
    ensures forall j :: k <= j < m ==> accept(j, us[j])
    decreases n - k
  {
    if k < n && accept(k, us[k]) then Accepted(us, accept, k + 1, n) else k
  }

  /** The updates to hand on: all the new ones for a count of zero, otherwise the first count. */
  function Wanted(us: seq<Update>, count: nat): nat {
    if count > 0 && count <= |us| then count else |us|
  }

  /** How waiting ends when the stream stops after stop items and n updates, too few for a count. */
  function Ended(items: seq<Item>, deadline: Option<nat>, stop: nat, count: nat, n: nat, lost: nat): Awaited
    requires stop <= |items| && Stops(items, deadline, stop)
  {
    if deadline.Some? && stop >= deadline.value then Done(WatchOutcome(if count == 0 then Ok else Timeout, n, count, lost))
    else if stop == |items| then Waiting(n)
    else if items[stop].Error? then Failed(items[stop].error)
    else Done(WatchOutcome(if count == 0 then Ok else Disconnected, n, count, lost))
  }

  /** What was handed on and how it ended, in terms of the new updates that arrive in time. */
  function Verdict(items: seq<Item>, baseline: Option<nat>, count: nat, deadline: Option<nat>,
        accept: (nat, Update) -> bool)
    : (seq<Update>, Awaited)
  {
    var stop := Arrived(items, deadline, 0);
    var us := NewOnes(items, baseline, stop);
    var n := Wanted(us, count);
    var m := Accepted(us, accept, 0, n);
    if m < n then (us[..m + 1], Failed(Io))
    else if count > 0 && n == count then (us[..n], Done(WatchOutcome(Ok, n, count, Lost(us, n))))
    else (us[..n], Ended(items, deadline, stop, count, n, Lost(us, n)))
  }

  /** Waiting on from item i, with these updates handed on and so many reported lost. */
  function WaitOn(items: seq<Item>, baseline: Option<nat>, count: nat, deadline: Option<nat>,
        accept: (nat, Update) -> bool, i: nat, handed: seq<Update>, skipped: nat)
    : (seq<Update>, Awaited)
    requires i <= |items|
    decreases |items| - i
  {
    if count > 0 && |handed| >= count then (handed, Done(WatchOutcome(Ok, |handed|, count, skipped)))
    else if Stops(items, deadline, i) then (handed, Ended(items, deadline, i, count, |handed|, skipped))
    else
      var u := items[i].update;
      if !IsNew(u, baseline) then WaitOn(items, baseline, count, deadline, accept, i + 1, handed, skipped)
      else if !accept(|handed|, u) then (handed + [u], Failed(Io))
      else WaitOn(items, baseline, count, deadline, accept, i + 1, handed + [u], skipped + u.skipped)
  }

  method AwaitUpdates(items: seq<Item>, baseline: Option<nat>, count: nat, deadline: Option<nat>,
        accept: (nat, Update) -> bool)
    returns (handed: seq<Update>, r: Awaited)
    ensures (handed, r) == Verdict(items, baseline, count, deadline, accept)
  {
    handed := [];
    var skipped: nat, i: nat := 0, 0;
    WaitIsVerdict(items, baseline, count, deadline, accept, 0, [], 0);
    while count == 0 || |handed| < count
      invariant i <= |items|
      invariant WaitOn(items, baseline, count, deadline, accept, i, handed, skipped)
        == Verdict(items, baseline, count, deadline, accept)
      decreases |items| - i
    {
      if deadline.Some? && i >= deadline.value {
        return handed, Done(WatchOutcome(if count == 0 then Ok else Timeout, |handed|, count, skipped));
      }
      if i == |items| {
        return handed, Waiting(|handed|);
      }
      match items[i] {
        case Next(update) =>
          i := i + 1;
          if IsNew(update, baseline) {
            handed := handed + [update];
            if !accept(|handed| - 1, update) {
              return handed, Failed(Io);
            }
            skipped := skipped + update.skipped;
          }
        case Error(e) => return handed, Failed(e);
        case End => return handed, Done(WatchOutcome(if count == 0 then Ok else Disconnected, |handed|, count, skipped));
      }
    }
    r := Done(WatchOutcome(Ok, |handed|, count, skipped));
  }

  /** What waiting comes to is told by the new updates alone. */
  lemma {:induction false} WaitIsVerdict(items: seq<Item>, baseline: Option<nat>, count: nat, deadline: Option<nat>,
        accept: (nat, Update) -> bool, i: nat, handed: seq<Update>, skipped: nat)
    requires i <= Arrived(items, deadline, 0) && HandedOn(items, baseline, accept, i, handed, skipped)
    requires count > 0 ==> |handed| <= count
    ensures WaitOn(items, baseline, count, deadline, accept, i, handed, skipped)
      == Verdict(items, baseline, count, deadline, accept)
    decreases |items| - i
  {
    if count > 0 && |handed| == count {
      CountReached(items, baseline, count, deadline, accept, handed, i, skipped);
    } else {
      Turn(items, baseline, count, deadline, accept, i, handed, skipped);
      if !Stops(items, deadline, i) {
        var u := items[i].update;
        if !IsNew(u, baseline) {
          WaitIsVerdict(items, baseline, count, deadline, accept, i + 1, handed, skipped);
        } else if accept(|handed|, u) {
          WaitIsVerdict(items, baseline, count, deadline, accept, i + 1, handed + [u], skipped + u.skipped);
        }
      }
    }
  }

  /** What was handed on of the first i items, and the losses it reported; no call failed. */
  ghost predicate HandedOn(items: seq<Item>, baseline: Option<nat>, accept: (nat, Update) -> bool, i: nat,
        handed: seq<Update>, skipped: nat)
    requires i <= |items|
  {
    && handed == NewOnes(items, baseline, i) && skipped == Lost(handed, |handed|)
    && forall j :: 0 <= j < |handed| ==> accept(j, handed[j])
  }

  /** One turn of the loop: where it ends, what it hands on, and what a call that fails comes to. */
  lemma Turn(items: seq<Item>, baseline: Option<nat>, count: nat, deadline: Option<nat>,
        accept: (nat, Update) -> bool, i: nat, handed: seq<Update>, skipped: nat)
    requires i <= Arrived(items, deadline, 0) && HandedOn(items, baseline, accept, i, handed, skipped)
    requires count > 0 ==> |handed| < count
    ensures Stops(items, deadline, i) ==>
      Verdict(items, baseline, count, deadline, accept) == (handed, Ended(items, deadline, i, count, |handed|, skipped))
    ensures !Stops(items, deadline, i) ==>
      && i < Arrived(items, deadline, 0) && items[i].Next?
      && var u := items[i].update;
        if !IsNew(u, baseline) then HandedOn(items, baseline, accept, i + 1, handed, skipped)
        else if accept(|handed|, u) then HandedOn(items, baseline, accept, i + 1, handed + [u], skipped + u.skipped)
        else Verdict(items, baseline, count, deadline, accept) == (handed + [u], Failed(Io))
  {
    if Stops(items, deadline, i) {
      StreamStops(items, baseline, count, deadline, accept, handed, skipped);
    } else {
      HandOn(items, baseline, accept, i, handed, skipped);
      var u := items[i].update;
      if IsNew(u, baseline) && !accept(|handed|, u) {
        CallFails(items, baseline, count, deadline, accept, handed + [u], i + 1);
      }
    }
  }

  lemma HandOn(items: seq<Item>, baseline: Option<nat>, accept: (nat, Update) -> bool, i: nat, handed: seq<Update>,
        skipped: nat)
    requires i < |items| && items[i].Next? && HandedOn(items, baseline, accept, i, handed, skipped)
    ensures var u := items[i].update;
      if !IsNew(u, baseline) then HandedOn(items, baseline, accept, i + 1, handed, skipped)
      else (
        && NewOnes(items, baseline, i + 1) == handed + [u]
        && (accept(|handed|, u) ==> HandedOn(items, baseline, accept, i + 1, handed + [u], skipped + u.skipped))
      )
  {
    LostPrefix(handed, handed + [items[i].update], |handed|);
  }

  lemma StreamStops(items: seq<Item>, baseline: Option<nat>, count: nat, deadline: Option<nat>,
        accept: (nat, Update) -> bool, handed: seq<Update>, skipped: nat)
    requires HandedOn(items, baseline, accept, Arrived(items, deadline, 0), handed, skipped) && (count > 0 ==> |handed| < count)
    ensures Verdict(items, baseline, count, deadline, accept)
      == (handed, Ended(items, deadline, Arrived(items, deadline, 0), count, |handed|, skipped))
  {
    AllAccepted(handed, accept, 0, |handed|);
    assert handed[..|handed|] == handed;
  }

  lemma CountReached(items: seq<Item>, baseline: Option<nat>, count: nat, deadline: Option<nat>,
        accept: (nat, Update) -> bool, handed: seq<Update>, i: nat, skipped: nat)
    requires i <= Arrived(items, deadline, 0) && HandedOn(items, baseline, accept, i, handed, skipped) && |handed| == count > 0
    ensures Verdict(items, baseline, count, deadline, accept) == (handed, Done(WatchOutcome(Ok, count, count, skipped)))
  {
    var us := NewOnes(items, baseline, Arrived(items, deadline, 0));
    NewOnesGrow(items, baseline, i, Arrived(items, deadline, 0));
    assert us[..count] == handed == handed[..count];
    AllAccepted(us, accept, 0, count);
    LostPrefix(handed, us, count);
  }

  lemma CallFails(items: seq<Item>, baseline: Option<nat>, count: nat, deadline: Option<nat>,
        accept: (nat, Update) -> bool, handed: seq<Update>, i: nat)
    requires i <= Arrived(items, deadline, 0) && handed == NewOnes(items, baseline, i) && handed != []
    requires count > 0 ==> |handed| <= count
    requires forall j :: 0 <= j < |handed| - 1 ==> accept(j, handed[j])
    requires !accept(|handed| - 1, handed[|handed| - 1])
    ensures Verdict(items, baseline, count, deadline, accept) == (handed, Failed(Io))
  {
    var us := NewOnes(items, baseline, Arrived(items, deadline, 0));
    NewOnesGrow(items, baseline, i, Arrived(items, deadline, 0));
    FirstRefused(us, accept, handed, Wanted(us, count));
    assert us[..|handed|] == handed;
  }

  lemma {:induction false} NewOnesGrow(items: seq<Item>, baseline: Option<nat>, i: nat, n: nat)
    requires i <= n <= |items|
    ensures NewOnes(items, baseline, i) <= NewOnes(items, baseline, n)
  {
    if i < n {
      NewOnesGrow(items, baseline, i, n - 1);
    }
  }

  lemma {:induction false} LostPrefix(us: seq<Update>, vs: seq<Update>, n: nat)
    requires n <= |us| && n <= |vs| && us[..n] == vs[..n]
    ensures Lost(us, n) == Lost(vs, n)
  {
    if n > 0 {
      assert us[..n - 1] == us[..n][..n - 1] == vs[..n][..n - 1] == vs[..n - 1];
      assert us[n - 1] == us[..n][n - 1] == vs[n - 1];
      LostPrefix(us, vs, n - 1);
    }
  }

  lemma AllAccepted(us: seq<Update>, accept: (nat, Update) -> bool, k: nat, n: nat)
    requires k <= n <= |us| && forall j :: k <= j < n ==> accept(j, us[j])
    ensures Accepted(us, accept, k, n) == n
  {
  }

  lemma FirstRefused(us: seq<Update>, accept: (nat, Update) -> bool, handed: seq<Update>, n: nat)
    requires handed != [] && handed <= us && |handed| <= n <= |us|
    requires forall j :: 0 <= j < |handed| - 1 ==> accept(j, handed[j])
    requires !accept(|handed| - 1, handed[|handed| - 1])
    ensures Accepted(us, accept, 0, n) == |handed| - 1
  {
  }

  /** The status is Ok exactly when the count was reached, or was zero. */
  lemma OkIffCountReached(items: seq<Item>, baseline: Option<nat>, count: nat, deadline: Option<nat>,
        accept: (nat, Update) -> bool)
    ensures var (handed, r) := Verdict(items, baseline, count, deadline, accept);
      r.Done? ==> r.outcome.received == |handed| && (r.outcome.status == Ok <==> count == 0 || |handed| == count)
  {
  }

  /** The first item that does not go on: none is left, it is no update, or the deadline came first. */
  ghost predicate StopsFirst(items: seq<Item>, deadline: Option<nat>, stop: nat) {
    && stop <= |items|
    && (forall j :: 0 <= j < stop ==> items[j].Next? && (deadline.Some? ==> j < deadline.value))
    && (stop < |items| && (deadline.None? || stop < deadline.value) ==> !items[stop].Next?)
  }

  /** The losses reported with some updates. */
  function TotalSkipped(us: seq<Update>): nat {
    if us == [] then 0 else us[0].skipped + TotalSkipped(us[1..])
  }

  lemma {:induction false} LostIsTotal(us: seq<Update>, n: nat)
    requires n <= |us|
    ensures Lost(us, n) == TotalSkipped(us[..n])
  {
    if n > 0 {
      LostIsTotal(us, n - 1);
      TotalSnoc(us[..n - 1], us[n - 1]);
      assert us[..n] == us[..n - 1] + [us[n - 1]];
    } else {
      assert us[..0] == [];
    }
  }

  lemma {:induction false} TotalSnoc(us: seq<Update>, u: Update)
    ensures TotalSkipped(us + [u]) == TotalSkipped(us) + u.skipped
  {
    if us == [] {
      assert us + [u] == [u] && [u][1..] == [];
    } else {
      TotalSnoc(us[1..], u);
      assert (us + [u])[1..] == us[1..] + [u];
    }
  }

  /**
   How waiting ends, in full: with the callback's failure; with Ok when the count is reached; when
   the deadline comes first, with Ok if all were wanted and Timeout otherwise; by waiting on when
   nothing more has come; with the stream's error; and when it ends, with Ok or Disconnected.
   */
  ghost predicate EndsAs(items: seq<Item>, count: nat, deadline: Option<nat>, stop: nat, handed: seq<Update>,
        failed: bool, r: Awaited)
    requires stop <= |items|
  {
    var outcome := status => Done(WatchOutcome(status, |handed|, count, TotalSkipped(handed)));
    if failed then r == Failed(Io)
    else if count > 0 && |handed| == count then r == outcome(Ok)
    else if deadline.Some? && stop >= deadline.value then r == outcome(if count == 0 then Ok else Timeout)
    else if stop == |items| then r == Waiting(|handed|)
    else match items[stop]
      case Next(_) => false
      case Error(e) => r == Failed(e)
      case End => r == outcome(if count == 0 then Ok else Disconnected)
  }

  lemma WaitingEnds(items: seq<Item>, baseline: Option<nat>, count: nat, deadline: Option<nat>,
        accept: (nat, Update) -> bool) returns (stop: nat, failed: bool)
    ensures StopsFirst(items, deadline, stop)
    ensures var (handed, r) := Verdict(items, baseline, count, deadline, accept);
      && HandsOn(NewOnes(items, baseline, stop), count, accept, handed, failed)
      && EndsAs(items, count, deadline, stop, handed, failed, r)
  {
    stop := Arrived(items, deadline, 0);
    forall j | 0 <= j < stop
      ensures items[j].Next? && (deadline.Some? ==> j < deadline.value)
    {
      assert !Stops(items, deadline, j);
    }
    var us := NewOnes(items, baseline, stop);
    failed := VerdictHands(items, baseline, count, deadline, accept, us);
    var handed := Verdict(items, baseline, count, deadline, accept).0;
    LostIsTotal(us, |handed|);
    assert us[..|handed|] == handed;
  }

  // ----- Arming -----

  datatype Armed = Armed(items: seq<Item>, baseline: Option<nat>)

  /** What asking for the current value comes back with. */
  datatype Current = Stamped(ts: nat) | NotFound | Refused(error: WatchError)

  /** Whether arming meets a refusal, and otherwise the whole stream and the stamp of the current value. */
  function ArmResult(items: seq<Item>, current: Current, arrived: bool): Result<Armed, WatchError> {
    if current.Refused? then Failure(current.error)
    else if arrived && items != [] && items[0].Error? then Failure(items[0].error)
    else Success(Armed(items, if current.Stamped? then Some(current.ts) else None))
  }

  /**
   Looks at the first item if one is there already: a refusal is the result, anything else goes
   back in front, so arming takes nothing off the stream.
   */
  method Arm(items: seq<Item>, current: Current, arrived: bool) returns (r: Result<Armed, WatchError>)
    ensures current.Refused? ==> r == Failure(current.error)
    ensures !current.Refused? && arrived && items != [] && items[0].Error? ==> r == Failure(items[0].error)
    ensures !current.Refused? && !(arrived && items != [] && items[0].Error?) ==>
      r == Success(Armed(items, if current.Stamped? then Some(current.ts) else None))
    ensures r == ArmResult(items, current, arrived)
  {
    if current.Refused? {
      return Failure(current.error);
    }
    var baseline := if current.Stamped? then Some(current.ts) else None;
    var stream := items;
    if arrived && stream != [] {
      var first := stream[0];
      stream := stream[1..];
      match first {
        case Error(e) => return Failure(e);
        case Next(update) => stream := [Next(update)] + stream;
        case End => stream := [End] + stream;
      }
    }
    assert stream == items;
    r := Success(Armed(stream, baseline));
  }

  // ----- The server beside it -----

  /** A write some time after the last one, the subscribe, or the get. */
  datatype Step = Write(later: nat, value: int) | Subscribe(retained: nat) | Get

  /**
   All writes so far; what the subscription delivered; how many writes were retained before its
   first one and how many preceded the get.
   */
  datatype Server = Server(writes: seq<Update>, delivered: seq<Update>, from: Option<nat>, got: Option<nat>)

  const FRESH := Server([], [], None, None)

  function Now(s: Server): nat {
    if s.writes == [] then 0 else s.writes[|s.writes| - 1].ts
  }

  /** One step; a second subscribe or get, or a get before the subscribe, changes nothing. */
  function After(s: Server, step: Step): Server {
    match step
    case Write(later, value) =>
      var u := Update(Now(s) + later, 0, value);
      s.(writes := s.writes + [u], delivered := if s.from.Some? then s.delivered + [u] else s.delivered)
    case Subscribe(retained) =>
      if s.from.Some? then s
      else
        var from := if retained <= |s.writes| then |s.writes| - retained else 0;
        s.(from := Some(from), delivered := s.writes[from..])
    case Get =>
      if s.from.Some? && s.got.None? then s.(got := Some(|s.writes|)) else s
  }

  function Run(steps: seq<Step>, n: nat): Server
    requires n <= |steps|
  {
    if n == 0 then FRESH else After(Run(steps, n - 1), steps[n - 1])
  }

  ghost predicate NonDecreasing(us: seq<Update>) {
    forall i, j :: 0 <= i < j < |us| ==> us[i].ts <= us[j].ts
  }

  /** What holds after any steps: everything from some write before the get on was delivered, in order. */
  ghost predicate Inv(s: Server) {
    && NonDecreasing(s.writes)
    && (s.from.Some? ==> s.from.value <= |s.writes| && s.delivered == s.writes[s.from.value..])
    && (s.got.Some? ==> s.from.Some? && s.from.value <= s.got.value <= |s.writes|)
  }

  lemma NonDecreasingSnoc(us: seq<Update>, u: Update)
    requires NonDecreasing(us) && (us == [] || us[|us| - 1].ts <= u.ts)
    ensures NonDecreasing(us + [u])
  {
  }

  lemma SuffixSnoc(us: seq<Update>, u: Update, n: nat)
    requires n <= |us|
    ensures (us + [u])[n..] == us[n..] + [u]
  {
  }

  lemma WriteKeepsInv(s: Server, later: nat, value: int)
    requires Inv(s)
    ensures Inv(After(s, Write(later, value)))
  {
    var us, u := s.writes, Update(Now(s) + later, 0, value);
    NonDecreasingSnoc(us, u);
    var t := After(s, Write(later, value));
    assert t.writes == us + [u] && t.from == s.from && t.got == s.got;
    if s.from.Some? {
      SuffixSnoc(us, u, s.from.value);
    }
  }

  lemma StepKeepsInv(s: Server, step: Step)
    requires Inv(s)
    ensures Inv(After(s, step))
  {
    if step.Write? {
      WriteKeepsInv(s, step.later, step.value);
    }
  }

  lemma {:induction false} RunKeepsInv(steps: seq<Step>, n: nat)
    requires n <= |steps|
    ensures Inv(Run(steps, n))
  {
    if n > 0 {
      RunKeepsInv(steps, n - 1);
      StepKeepsInv(Run(steps, n - 1), steps[n - 1]);
    }
  }

  /** The stamp the get returned: that of the last write before it. */
  function Baseline(s: Server): Option<nat>
    requires s.got.Some? && s.got.value <= |s.writes|
  {
    if s.got.value == 0 then None else Some(s.writes[s.got.value - 1].ts)
  }

  function Stream(us: seq<Update>): (items: seq<Item>)
    ensures |items| == |us| && forall i :: 0 <= i < |us| ==> items[i] == Next(us[i])
  {
    seq(|us|, i requires 0 <= i < |us| => Next(us[i]))
  }

  /** The first write after the get is stamped later than the value the get returned. */
  predicate StampMovesOn(s: Server)
    requires s.got.Some? && s.got.value <= |s.writes|
  {
    s.got.value == 0 || s.got.value == |s.writes| || s.writes[s.got.value].ts > s.writes[s.got.value - 1].ts
  }

  /** Whether delivered update k passes the baseline filter. */
  lemma WhichPass(s: Server, k: nat)
    requires Inv(s) && s.got.Some? && k < |s.delivered|
    ensures var at := s.got.value - s.from.value;
      && (k < at ==> !IsNew(s.delivered[k], Baseline(s)))
      && (k >= at && StampMovesOn(s) ==> IsNew(s.delivered[k], Baseline(s)))
      && (k == at && !StampMovesOn(s) ==> !IsNew(s.delivered[k], Baseline(s)))
  {
    assert s.delivered[k] == s.writes[s.from.value + k];
  }

  /** The updates from at up to n. */
  function From(us: seq<Update>, at: nat, n: nat): seq<Update>
    requires n <= |us|
  {
    if n <= at then [] else us[at..n]
  }

  lemma FromSnoc(us: seq<Update>, at: nat, n: nat)
    requires n < |us|
    ensures From(us, at, n + 1) == From(us, at, n) + if n >= at then [us[n]] else []
  {
  }

  lemma NewSnoc(us: seq<Update>, baseline: Option<nat>, n: nat)
    requires n < |us|
    ensures NewOnes(Stream(us), baseline, n + 1) ==
      NewOnes(Stream(us), baseline, n) + if IsNew(us[n], baseline) then [us[n]] else []
  {
  }

  /** When the filter drops exactly the updates before at, the new ones are the rest. */
  lemma {:induction false} NewFrom(us: seq<Update>, baseline: Option<nat>, at: nat, n: nat)
    requires n <= |us| && forall k :: 0 <= k < |us| ==> (IsNew(us[k], baseline) <==> k >= at)
    ensures NewOnes(Stream(us), baseline, n) == From(us, at, n)
  {
    if n > 0 {
      NewFrom(us, baseline, at, n - 1);
      FromSnoc(us, at, n - 1);
      NewSnoc(us, baseline, n - 1);
    }
  }

  /** When it drops all those up to and including at, there are fewer. */
  lemma {:induction false} FewerFrom(us: seq<Update>, baseline: Option<nat>, at: nat, n: nat)
    requires at < |us| && n <= |us|
    requires forall k :: 0 <= k <= at ==> !IsNew(us[k], baseline)
    ensures |NewOnes(Stream(us), baseline, n)| <= if n <= at then 0 else n - at - 1
  {
    if n > 0 {
      FewerFrom(us, baseline, at, n - 1);
    }
  }

  lemma AllPass(s: Server)
    requires Inv(s) && s.got.Some? && StampMovesOn(s)
    ensures forall k :: 0 <= k < |s.delivered| ==> (IsNew(s.delivered[k], Baseline(s)) <==> k >= s.got.value - s.from.value)
  {
    forall k | 0 <= k < |s.delivered|
      ensures IsNew(s.delivered[k], Baseline(s)) <==> k >= s.got.value - s.from.value
    {
      WhichPass(s, k);
    }
  }

  lemma TooFewPass(s: Server)
    requires Inv(s) && s.got.Some? && !StampMovesOn(s)
    ensures |NewOnes(Stream(s.delivered), Baseline(s), |s.delivered|)| < |s.writes| - s.got.value
  {
    var at := s.got.value - s.from.value;
    forall k | 0 <= k <= at
      ensures !IsNew(s.delivered[k], Baseline(s))
    {
      WhichPass(s, k);
    }
    FewerFrom(s.delivered, Baseline(s), at, |s.delivered|);
  }

  /**
   In every state steps can lead to, the new updates among those delivered are exactly the writes
   after the get, if and only if the first of those has a later stamp than the value the get
   returned. The clock may give two writes the same stamp, so this can fail.
   */
  lemma NewIffStampMovesOn(s: Server)
    requires Inv(s) && s.got.Some?
    ensures NewOnes(Stream(s.delivered), Baseline(s), |s.delivered|) == s.writes[s.got.value..] <==> StampMovesOn(s)
  {
    var at, us := s.got.value - s.from.value, s.delivered;
    assert us[at..] == s.writes[s.got.value..];
    if StampMovesOn(s) {
      NewUpTo(s, |us|);
    } else {
      TooFewPass(s);
    }
  }

  /** A write right after the get, in the same tick of the clock, is delivered but never reported. */
  lemma SameTickIsMissed(first: Update, second: Update)
    requires first.ts == second.ts
    ensures var s := Server([first, second], [second], Some(1), Some(1));
      && Inv(s) && s.writes[s.got.value..] == [second]
      && NewOnes(Stream(s.delivered), Baseline(s), |s.delivered|) == []
  {
    var s := Server([first, second], [second], Some(1), Some(1));
    assert s.writes[1..] == [second];
    NewFrom([second], Some(first.ts), 1, 1);
  }

  /** And steps lead there: a write, the subscribe, the get, and another write at once. */
  lemma SameTickHappens(value: int, next: int, ts: nat)
    ensures var a, b := Update(ts, 0, value), Update(ts, 0, next);
      After(After(After(After(FRESH, Write(ts, value)), Subscribe(0)), Get), Write(0, next))
        == Server([a, b], [b], Some(1), Some(1))
  {
    var a, b := Update(ts, 0, value), Update(ts, 0, next);
    var s1 := After(FRESH, Write(ts, value));
    assert s1 == Server([a], [], None, None);
    var s2 := After(s1, Subscribe(0));
    assert s2 == Server([a], [], Some(1), None);
    var s3 := After(s2, Get);
    assert s3 == Server([a], [], Some(1), Some(1));
  }

  /** What the server answers the get with. */
  function Answer(s: Server): Current
    requires s.got.Some? && s.got.value <= |s.writes|
  {
    if s.got.value == 0 then NotFound else Stamped(s.writes[s.got.value - 1].ts)
  }

  /** How many of the delivered updates arrive in time. */
  function InTime(us: seq<Update>, deadline: Option<nat>): (n: nat)
    ensures n <= |us|
  {
    if deadline.Some? && deadline.value < |us| then deadline.value else |us|
  }

  /** How many of the writes after the get arrive in time. */
  function WritesInTime(s: Server, deadline: Option<nat>): (n: nat)
    requires Inv(s) && s.got.Some?
    ensures n <= |s.writes| - s.got.value
  {
    var at := s.got.value - s.from.value;
    if InTime(s.delivered, deadline) <= at then 0 else InTime(s.delivered, deadline) - at
  }

  lemma StreamArrives(us: seq<Update>, deadline: Option<nat>)
    ensures Arrived(Stream(us), deadline, 0) == InTime(us, deadline)
  {
    assert Stops(Stream(us), deadline, InTime(us, deadline));
    assert forall j :: 0 <= j < InTime(us, deadline) ==> !Stops(Stream(us), deadline, j);
  }

  lemma NewInTime(s: Server, deadline: Option<nat>)
    requires Inv(s) && s.got.Some? && StampMovesOn(s)
    ensures NewOnes(Stream(s.delivered), Baseline(s), InTime(s.delivered, deadline))
      == s.writes[s.got.value..][..WritesInTime(s, deadline)]
  {
    var at, n := s.got.value - s.from.value, InTime(s.delivered, deadline);
    NewUpTo(s, n);
    Window(s.delivered, at, n);
  }

  lemma NewUpTo(s: Server, n: nat)
    requires Inv(s) && s.got.Some? && StampMovesOn(s) && n <= |s.delivered|
    ensures var at := s.got.value - s.from.value;
      NewOnes(Stream(s.delivered), Baseline(s), n) == From(s.delivered, at, n) && s.delivered[at..] == s.writes[s.got.value..]
  {
    AllPass(s);
    RestDelivered(s);
    NewFrom(s.delivered, Baseline(s), s.got.value - s.from.value, n);
  }

  lemma Window(us: seq<Update>, at: nat, n: nat)
    requires at <= |us| && n <= |us|
    ensures From(us, at, n) == us[at..][..if n <= at then 0 else n - at]
  {
  }

  lemma RestDelivered(s: Server)
    requires Inv(s) && s.got.Some?
    ensures s.delivered[s.got.value - s.from.value..] == s.writes[s.got.value..]
  {
  }

  /**
   What is handed on of the new updates us: a first part of them, up to the one the callback
   refuses, or else as many as are wanted.
   */
  ghost predicate HandsOn(us: seq<Update>, count: nat, accept: (nat, Update) -> bool, handed: seq<Update>, failed: bool) {
    && handed <= us && |handed| <= Wanted(us, count)
    && (forall j :: 0 <= j < |handed| - 1 ==> accept(j, us[j]))
    && (failed <==> handed != [] && !accept(|handed| - 1, us[|handed| - 1]))
    && (!failed ==> |handed| == Wanted(us, count))
  }

  lemma VerdictHands(items: seq<Item>, baseline: Option<nat>, count: nat, deadline: Option<nat>,
        accept: (nat, Update) -> bool, us: seq<Update>) returns (failed: bool)
    requires us == NewOnes(items, baseline, Arrived(items, deadline, 0))
    ensures var (handed, r) := Verdict(items, baseline, count, deadline, accept);
      && HandsOn(us, count, accept, handed, failed)
      && r == if failed then Failed(Io)
        else if count > 0 && |handed| == count then Done(WatchOutcome(Ok, count, count, Lost(us, |handed|)))
        else Ended(items, deadline, Arrived(items, deadline, 0), count, |handed|, Lost(us, |handed|))
  {
    failed := Accepted(us, accept, 0, Wanted(us, count)) < Wanted(us, count);
  }

  /**
   Arm, then await, in every state steps can lead to with a clock that moved on. Arming succeeds,
   and for every deadline and callback the writes after the get that arrive in time are handed on,
   in order and each once, up to the count asked for or the one the callback refuses.
   */
  lemma ArmThenAwait(s: Server, arrived: bool, count: nat, deadline: Option<nat>, accept: (nat, Update) -> bool)
      returns (failed: bool)
    requires Inv(s) && s.got.Some? && StampMovesOn(s)
    ensures var armed := ArmResult(Stream(s.delivered), Answer(s), arrived);
      var us := s.writes[s.got.value..][..WritesInTime(s, deadline)];
      && armed.Success?
      && var (handed, r) := Verdict(armed.value.items, armed.value.baseline, count, deadline, accept);
      && HandsOn(us, count, accept, handed, failed)
      && r == if failed then Failed(Io)
        else if count > 0 && |handed| == count then Done(WatchOutcome(Ok, count, count, Lost(us, count)))
        else if deadline.Some? && deadline.value <= |s.delivered|
          then Done(WatchOutcome(if count == 0 then Ok else Timeout, |us|, count, Lost(us, |us|)))
        else Waiting(|us|)
  {
    ArmIs(s, arrived);
    StreamArrives(s.delivered, deadline);
    NewInTime(s, deadline);
    var us := s.writes[s.got.value..][..WritesInTime(s, deadline)];
    failed := VerdictHands(Stream(s.delivered), Baseline(s), count, deadline, accept, us);
    StreamEnds(s.delivered, deadline, count, |us|, Lost(us, |us|));
  }

  lemma ArmIs(s: Server, arrived: bool)
    requires Inv(s) && s.got.Some?
    ensures ArmResult(Stream(s.delivered), Answer(s), arrived) == Success(Armed(Stream(s.delivered), Baseline(s)))
  {
  }

  /** A stream of updates ends with the deadline, or not yet. */
  lemma StreamEnds(us: seq<Update>, deadline: Option<nat>, count: nat, n: nat, lost: nat)
    requires Arrived(Stream(us), deadline, 0) == InTime(us, deadline)
    ensures Ended(Stream(us), deadline, Arrived(Stream(us), deadline, 0), count, n, lost) ==
      if deadline.Some? && deadline.value <= |us| then Done(WatchOutcome(if count == 0 then Ok else Timeout, n, count, lost))
      else Waiting(n)
  {
  }
}
