/** The circuit breaker. Every handler holds the state lock from start to end, so
    each is one atomic step; the steps of overlapping calls interleave freely. */
module Breaker {
  import opened Wrappers

  type Time = int

  datatype State = Closed | Open | HalfOpen

  datatype Config = Config(threshold: nat, openFor: nat)

  datatype Core = Core(state: State, failures: nat, openedAt: Option<Time>)

  const FRESH := Core(Closed, 0, None)

  function AfterSuccess(b: Core): Core {
    Core(Closed, 0, None)
  }

  function AfterFailure(c: Config, b: Core, now: Time): Core {
    if b.failures + 1 >= c.threshold then Core(Open, b.failures + 1, Some(now))
    else b.(failures := b.failures + 1)
  }

  function AfterAttempt(c: Config, b: Core, now: Time): Core {
    if b.state == Open && b.openedAt.Some? && now - b.openedAt.value >= c.openFor then b.(state := HalfOpen) else b
  }

  datatype Outcome = Rejected | Succeeded | Failed

  /** A call with no other call in between: it starts at `start`, and if it is let
      through its future is ready at `end`. */
  function CallAlone(c: Config, b: Core, start: Time, ok: bool, end: Time): (Core, Outcome) {
    var b' := AfterAttempt(c, b, start);
    if b'.state == Open then (b', Rejected)
    else if ok then (AfterSuccess(b'), Succeeded)
    else (AfterFailure(c, b', end), Failed)
  }

  class Breaker {
    const failureThreshold: nat
    const openDuration: nat
    var state: State
    var consecutiveFailures: nat
    var openedAt: Option<Time>

    function View(): Core
      reads this
    {
      Core(state, consecutiveFailures, openedAt)
    }

    function Cfg(): Config {
      Config(failureThreshold, openDuration)
    }

    constructor (failureThreshold: nat, openDuration: nat)
      ensures View() == FRESH && Cfg() == Config(failureThreshold, openDuration)
    {
      this.failureThreshold := failureThreshold;
      this.openDuration := openDuration;
      state := Closed;
      consecutiveFailures := 0;
      openedAt := None;
    }

    method OnSuccess()
      modifies this
      ensures View() == AfterSuccess(old(View()))
    {
      state := Closed;
      consecutiveFailures := 0;
      openedAt := None;
    }

    method OnFailure(now: Time)
      modifies this
      ensures View() == AfterFailure(Cfg(), old(View()), now)
    {
      consecutiveFailures := consecutiveFailures + 1;
      if consecutiveFailures >= failureThreshold {
        state := Open;
        openedAt := Some(now);
      }
    }

    method TryHalfOpen(now: Time)
      modifies this
      ensures View() == AfterAttempt(Cfg(), old(View()), now)
    {
      if state == Open {
        match openedAt
        case Some(t) =>
          if now - t >= openDuration {
            state := HalfOpen;
          }
        case None =>
      }
    }

    /** `call`, when nothing interleaves; the future is its result and end time. */
    method Call(start: Time, ok: bool, end: Time) returns (outcome: Outcome)
      modifies this
      ensures (View(), outcome) == CallAlone(Cfg(), old(View()), start, ok, end)
    {
      TryHalfOpen(start);
      var s := state;
      if s == Open {
        return Rejected;
      }
      if ok {
        OnSuccess();
        outcome := Succeeded;
      } else {
        OnFailure(end);
        outcome := Failed;
      }
    }
  }

  // Interleaved runs.

  type CallId = nat

  datatype Event =
    | Attempt(call: CallId, time: Time)
    | StateRead(call: CallId, time: Time)
    | Success(call: CallId, time: Time)
    | Failure(call: CallId, time: Time)

  function Apply(c: Config, b: Core, e: Event): Core {
    match e
    case Attempt(_, t) => AfterAttempt(c, b, t)
    case StateRead(_, _) => b
    case Success(_, _) => AfterSuccess(b)
    case Failure(_, t) => AfterFailure(c, b, t)
  }

  function Run(c: Config, es: seq<Event>): Core {
    if es == [] then FRESH else Apply(c, Run(c, es[..|es| - 1]), es[|es| - 1])
  }

  lemma RunNext(c: Config, es: seq<Event>, n: nat)
    requires n < |es|
    ensures Run(c, es[..n + 1]) == Apply(c, Run(c, es[..n]), es[n])
  {
    assert es[..n + 1][..n] == es[..n];
  }

  // The state as a function of the history of completions.

  predicate Completes(e: Event) {
    e.Success? || e.Failure?
  }

  function FailuresSinceSuccess(es: seq<Event>): nat {
    if es == [] then 0
    else
      var before := FailuresSinceSuccess(es[..|es| - 1]);
      match es[|es| - 1]
      case Success(_, _) => 0
      case Failure(_, _) => before + 1
      case _ => before
  }

  function LatestCompletion(es: seq<Event>): Option<Event> {
    if es == [] then None
    else if Completes(es[|es| - 1]) then Some(es[|es| - 1])
    else LatestCompletion(es[..|es| - 1])
  }

  /** A threshold of 0 acts as 1: the breaker starts closed and the first failure
      opens it. */
  function Threshold(c: Config): nat {
    if c.threshold == 0 then 1 else c.threshold
  }

  /** Some attempt since the latest completion came `openFor` after it. */
  ghost predicate ProbeDue(c: Config, es: seq<Event>) {
    exists k :: 0 <= k < |es| && DueAt(c, es, k)
  }

  ghost predicate DueAt(c: Config, es: seq<Event>, k: nat)
    requires k < |es|
  {
    && es[k].Attempt?
    && LatestCompletion(es).Some? && es[k].time - LatestCompletion(es).value.time >= c.openFor
    && forall m :: k <= m < |es| ==> !Completes(es[m])
  }

  /** What the breaker is, read off the history alone. */
  ghost predicate FollowsHistory(c: Config, es: seq<Event>, b: Core) {
    var n := FailuresSinceSuccess(es);
    && b.failures == n
    && (b.state == Closed <==> n < Threshold(c))
    && (b.openedAt == None <==> n < Threshold(c))
    && (n > 0 ==> LatestCompletion(es).Some? && LatestCompletion(es).value.Failure?)
    && (n >= Threshold(c) ==> b.openedAt == Some(LatestCompletion(es).value.time))
    && (b.state == HalfOpen <==> n >= Threshold(c) && ProbeDue(c, es))
  }

  lemma DueStays(c: Config, es: seq<Event>, e: Event)
    requires !Completes(e)
    ensures LatestCompletion(es + [e]) == LatestCompletion(es)
    ensures ProbeDue(c, es + [e]) <==>
      ProbeDue(c, es) ||
      (e.Attempt? && LatestCompletion(es).Some? && e.time - LatestCompletion(es).value.time >= c.openFor)
  {
    var longer := es + [e];
    assert longer[..|es|] == es;
    forall k | 0 <= k < |es|
      ensures DueAt(c, longer, k) <==> DueAt(c, es, k)
    {
      if DueAt(c, longer, k) {
        assert forall m :: k <= m < |es| ==> longer[m] == es[m];
      }
    }
    if ProbeDue(c, longer) {
      var k :| 0 <= k < |longer| && DueAt(c, longer, k);
      if k < |es| {
        assert DueAt(c, es, k);
      }
    }
    if ProbeDue(c, es) {
      var k :| 0 <= k < |es| && DueAt(c, es, k);
      assert DueAt(c, longer, k);
    }
    if e.Attempt? && LatestCompletion(es).Some? && e.time - LatestCompletion(es).value.time >= c.openFor {
      assert DueAt(c, longer, |es|);
    }
  }

  lemma NotDueAfterCompletion(c: Config, es: seq<Event>, e: Event)
    requires Completes(e)
    ensures LatestCompletion(es + [e]) == Some(e) && !ProbeDue(c, es + [e])
  {
    assert (es + [e])[|es|] == e;
  }

  /** In every interleaving the breaker is a function of the completions so far
      and of whether a probe has come due since. */
  lemma {:induction false} HistoryDetermines(c: Config, es: seq<Event>)
    ensures FollowsHistory(c, es, Run(c, es))
  {
    if es != [] {
      var before, e := es[..|es| - 1], es[|es| - 1];
      HistoryDetermines(c, before);
      assert es == before + [e];
      if Completes(e) {
        NotDueAfterCompletion(c, before, e);
      } else {
        DueStays(c, before, e);
      }
    }
  }

  // Safety.

  ghost predicate Timed(es: seq<Event>) {
    forall i, j :: 0 <= i <= j < |es| ==> es[i].time <= es[j].time
  }

  /** The read at position `k` lets its call through. */
  ghost predicate Admits(c: Config, es: seq<Event>, k: nat)
    requires k < |es|
  {
    es[k].StateRead? && Run(c, es[..k]).state != Open
  }

  /** Only calls that were let through complete. */
  ghost predicate CompletionsAdmitted(c: Config, es: seq<Event>) {
    forall m :: 0 <= m < |es| && Completes(es[m]) ==> AdmittedBefore(c, es, es[m].call, m)
  }

  ghost predicate AdmittedBefore(c: Config, es: seq<Event>, call: CallId, m: nat)
    requires m <= |es|
  {
    exists k :: 0 <= k < m && Admits(c, es, k) && es[k].call == call
  }

  lemma {:induction false} LatestIsPast(es: seq<Event>) returns (m: nat)
    requires LatestCompletion(es).Some?
    ensures m < |es| && es[m] == LatestCompletion(es).value
  {
    var n := |es| - 1;
    if Completes(es[n]) {
      m := n;
    } else {
      m := LatestIsPast(es[..n]);
    }
  }

  lemma OpenedInThePast(c: Config, es: seq<Event>, i: nat)
    requires Timed(es) && i <= |es| && Run(c, es[..i]).openedAt.Some?
    ensures forall m :: i <= m < |es| ==> Run(c, es[..i]).openedAt.value <= es[m].time
  {
    HistoryDetermines(c, es[..i]);
    var m := LatestIsPast(es[..i]);
  }

  /** A read lets its call through exactly when the failures since the latest
      success are below the threshold, or an attempt since the latest failure
      came late enough. */
  lemma AdmitsExactly(c: Config, es: seq<Event>, k: nat)
    requires k < |es|
    ensures Admits(c, es, k) <==>
      es[k].StateRead? && (FailuresSinceSuccess(es[..k]) < Threshold(c) || ProbeDue(c, es[..k]))
  {
    HistoryDetermines(c, es[..k]);
  }

  /** While nothing succeeds and the time is not up, the breaker stays open. */
  lemma {:induction false} StaysOpen(c: Config, es: seq<Event>, i: nat, j: nat, since: Time)
    requires Timed(es) && i <= j <= |es|
    requires Run(c, es[..i]).state == Open && Run(c, es[..i]).openedAt == Some(since)
    requires forall m :: i <= m < j ==> !es[m].Success? && es[m].time < since + c.openFor
    ensures
      var b := Run(c, es[..j]);
      b.state == Open && b.openedAt.Some? && since <= b.openedAt.value
  {
    if i < j {
      StaysOpen(c, es, i, j - 1, since);
      RunNext(c, es, j - 1);
      OpenedInThePast(c, es, i);
      OpenedInThePast(c, es, j - 1);
    }
  }

  /** Safety: after opening at `since`, no read lets its call through before
      `since + openFor`, unless some call succeeds in between. */
  lemma NoneAdmittedWhileOpen(c: Config, es: seq<Event>, i: nat, k: nat, since: Time)
    requires Timed(es) && i <= k < |es|
    requires Run(c, es[..i]).state == Open && Run(c, es[..i]).openedAt == Some(since)
    requires es[k].time < since + c.openFor && Admits(c, es, k)
    ensures exists m :: i <= m < k && es[m].Success?
  {
    if forall m :: i <= m < k ==> !es[m].Success? {
      StaysOpen(c, es, i, k, since);
    }
  }

  /** ... and the first such success belongs to a call let through before the
      breaker opened. */
  lemma {:induction false} SuccessWasAdmittedEarlier(c: Config, es: seq<Event>, i: nat, m: nat, since: Time)
    requires Timed(es) && CompletionsAdmitted(c, es) && i <= m < |es|
    requires Run(c, es[..i]).state == Open && Run(c, es[..i]).openedAt == Some(since)
    requires es[m].Success? && es[m].time < since + c.openFor
    requires forall m' :: i <= m' < m ==> !es[m'].Success?
    ensures AdmittedBefore(c, es, es[m].call, i)
  {
    assert AdmittedBefore(c, es, es[m].call, m);
    var k :| 0 <= k < m && Admits(c, es, k) && es[k].call == es[m].call;
    if k >= i {
      NoneAdmittedWhileOpen(c, es, i, k, since);
    }
    assert k < i;
  }

  // Probes. An episode is a stretch i, ..., j - 1 of a run that starts with the
  // breaker open and in which no call completes.

  ghost predicate Episode(c: Config, es: seq<Event>, i: nat, j: nat) {
    && i <= j <= |es|
    && Run(c, es[..i]).state == Open
    && forall m :: i <= m < j ==> !Completes(es[m])
  }

  /** An attempt that comes `openFor` or more after the opening. */
  predicate LateAttempt(c: Config, e: Event, since: Time) {
    e.Attempt? && e.time - since >= c.openFor
  }

  /** The first late attempt from position `i` on; `j` if there is none before it. */
  function FirstLate(c: Config, es: seq<Event>, since: Time, i: nat, j: nat): (d: nat)
    requires i <= j <= |es|
    ensures i <= d <= j && (d < j ==> LateAttempt(c, es[d], since))
    ensures forall m :: i <= m < d ==> !LateAttempt(c, es[m], since)
    decreases j - i
  {
    if i == j || LateAttempt(c, es[i], since) then i else FirstLate(c, es, since, i + 1, j)
  }

  function ReadsIn(es: seq<Event>, i: nat, j: nat): nat
    requires i <= j <= |es|
  {
    if i == j then 0 else ReadsIn(es, i, j - 1) + if es[j - 1].StateRead? then 1 else 0
  }

  ghost function AdmittedIn(c: Config, es: seq<Event>, i: nat, j: nat): nat
    requires i <= j <= |es|
  {
    if i == j then 0 else AdmittedIn(c, es, i, j - 1) + if Admits(c, es, j - 1) then 1 else 0
  }

  lemma {:induction false} EpisodeState(c: Config, es: seq<Event>, i: nat, j: nat, since: Time)
    requires Episode(c, es, i, j) && Run(c, es[..i]).openedAt == Some(since)
    ensures
      Run(c, es[..j]) ==
      Run(c, es[..i]).(state := if FirstLate(c, es, since, i, j) < j then HalfOpen else Open)
  {
    if i < j {
      EpisodeState(c, es, i, j - 1, since);
      RunNext(c, es, j - 1);
    }
  }

  /** The calls let through between an opening and the next completion are exactly
      those whose read follows the first late attempt there, however many. */
  lemma {:induction false} ProbesAdmitted(c: Config, es: seq<Event>, i: nat, j: nat, since: Time)
    requires Episode(c, es, i, j) && Run(c, es[..i]).openedAt == Some(since)
    ensures AdmittedIn(c, es, i, j) == ReadsIn(es, FirstLate(c, es, since, i, j), j)
  {
    if i < j {
      ProbesAdmitted(c, es, i, j - 1, since);
      EpisodeState(c, es, i, j - 1, since);
    }
  }

  /** So at most one call is let through if and only if at most one read follows
      the first late attempt. */
  lemma SingleProbeExactly(c: Config, es: seq<Event>, i: nat, j: nat)
    requires Episode(c, es, i, j)
    ensures Run(c, es[..i]).openedAt.Some?
    ensures
      var since := Run(c, es[..i]).openedAt.value;
      AdmittedIn(c, es, i, j) <= 1 <==> ReadsIn(es, FirstLate(c, es, since, i, j), j) <= 1
  {
    HistoryDetermines(c, es[..i]);
    ProbesAdmitted(c, es, i, j, Run(c, es[..i]).openedAt.value);
  }

  /** `n` calls, each attempting and then reading at the same instant. */
  function Probes(n: nat, now: Time): seq<Event> {
    if n == 0 then [] else Probes(n - 1, now) + [Attempt(n - 1, now), StateRead(n - 1, now)]
  }

  lemma {:induction false} ProbesPrefix(n: nat, i: nat, now: Time)
    requires i < n
    ensures |Probes(n, now)| == 2 * n && |Probes(i, now)| == 2 * i
    ensures Probes(n, now)[..2 * i] == Probes(i, now)
    ensures Probes(n, now)[2 * i] == Attempt(i, now) && Probes(n, now)[2 * i + 1] == StateRead(i, now)
  {
    if i < n - 1 {
      ProbesPrefix(n - 1, i, now);
    } else if i > 0 {
      ProbesPrefix(i, i - 1, now);
    }
  }

  lemma {:induction false} ProbesHalfOpen(c: Config, es: seq<Event>, n: nat, now: Time)
    requires Run(c, es).state == Open && Run(c, es).openedAt.Some?
    requires now - Run(c, es).openedAt.value >= c.openFor
    ensures Run(c, es + Probes(n, now)) == if n == 0 then Run(c, es) else Run(c, es).(state := HalfOpen)
  {
    if n == 0 {
      assert es + Probes(0, now) == es;
    } else {
      ProbesHalfOpen(c, es, n - 1, now);
      var before, attempt, read := es + Probes(n - 1, now), Attempt(n - 1, now), StateRead(n - 1, now);
      assert es + Probes(n, now) == before + [attempt] + [read];
      RunAppend(c, before, attempt);
      RunAppend(c, before + [attempt], read);
    }
  }

  lemma RunAppend(c: Config, es: seq<Event>, e: Event)
    ensures Run(c, es + [e]) == Apply(c, Run(c, es), e)
  {
    assert (es + [e])[..|es|] == es;
  }

  /** Half-open counts no probes: until one completes, any number of overlapping
      calls is let through. */
  lemma EveryProbeAdmitted(c: Config, es: seq<Event>, n: nat, i: nat, now: Time)
    requires Run(c, es).state == Open && Run(c, es).openedAt.Some?
    requires now - Run(c, es).openedAt.value >= c.openFor && i < n
    ensures
      var all, k := es + Probes(n, now), |es| + 2 * i + 1;
      k < |all| && all[k] == StateRead(i, now) && Admits(c, all, k)
  {
    ProbesPrefix(n, i, now);
    ProbesHalfOpen(c, es, i, now);
    var all := es + Probes(n, now);
    assert all[..|es| + 2 * i + 1] == es + Probes(i, now) + [Attempt(i, now)];
    RunAppend(c, es + Probes(i, now), Attempt(i, now));
  }

  // Calls that do not overlap.

  datatype LoneCall = LoneCall(start: Time, ok: bool, end: Time)

  function RunAlone(c: Config, b: Core, calls: seq<LoneCall>): Core {
    if calls == [] then b
    else
      var last := calls[|calls| - 1];
      CallAlone(c, RunAlone(c, b, calls[..|calls| - 1]), last.start, last.ok, last.end).0
  }

  function OutcomeAt(c: Config, b: Core, calls: seq<LoneCall>, n: nat): Outcome
    requires n < |calls|
  {
    CallAlone(c, RunAlone(c, b, calls[..n]), calls[n].start, calls[n].ok, calls[n].end).1
  }

  // A lone call is its events, with no other call's between them.

  /** What call number `id` does after the history `es`: it attempts and reads; only
      if it is let through does it complete. */
  function LoneEvents(c: Config, es: seq<Event>, id: CallId, call: LoneCall): seq<Event> {
    var asks := [Attempt(id, call.start), StateRead(id, call.start)];
    if Run(c, es + asks).state == Open then asks
    else asks + [if call.ok then Success(id, call.end) else Failure(id, call.end)]
  }

  function EventsAlone(c: Config, calls: seq<LoneCall>): seq<Event> {
    if calls == [] then []
    else
      var n := |calls| - 1;
      var es := EventsAlone(c, calls[..n]);
      es + LoneEvents(c, es, n, calls[n])
  }

  /** A call that overlaps no other does what its events do: it is turned away
      exactly if its read does not let it through, and otherwise records its outcome. */
  lemma CallIsEvents(c: Config, es: seq<Event>, id: CallId, call: LoneCall)
    ensures
      var (b, outcome) := CallAlone(c, Run(c, es), call.start, call.ok, call.end);
      var all := es + LoneEvents(c, es, id, call);
      b == Run(c, all) && |es| + 1 < |all| && all[|es| + 1] == StateRead(id, call.start) &&
      outcome == if !Admits(c, all, |es| + 1) then Rejected else if call.ok then Succeeded else Failed
  {
    var attempt, read := Attempt(id, call.start), StateRead(id, call.start);
    var all := es + LoneEvents(c, es, id, call);
    assert es + [attempt, read] == es + [attempt] + [read];
    RunAppend(c, es, attempt);
    RunAppend(c, es + [attempt], read);
    assert all[..|es| + 1] == es + [attempt];
    var done := if call.ok then Success(id, call.end) else Failure(id, call.end);
    RunAppend(c, es + [attempt, read], done);
    assert es + ([attempt, read] + [done]) == es + [attempt, read] + [done];
  }

  /** So every theorem about runs holds of runs of lone calls. */
  lemma {:induction false} LoneRunIsRun(c: Config, calls: seq<LoneCall>)
    ensures RunAlone(c, FRESH, calls) == Run(c, EventsAlone(c, calls))
    ensures FollowsHistory(c, EventsAlone(c, calls), RunAlone(c, FRESH, calls))
  {
    if calls != [] {
      var n := |calls| - 1;
      LoneRunIsRun(c, calls[..n]);
      CallIsEvents(c, EventsAlone(c, calls[..n]), n, calls[n]);
    }
    HistoryDetermines(c, EventsAlone(c, calls));
  }

  /** Lone failing calls: a fresh breaker lets exactly `Threshold` of them through,
      and the last of these opens it. */
  lemma {:induction false} FailingCallsOpen(c: Config, calls: seq<LoneCall>)
    requires |calls| <= Threshold(c) && forall i :: 0 <= i < |calls| ==> !calls[i].ok
    ensures
      var n := |calls|;
      RunAlone(c, FRESH, calls) ==
      if n < Threshold(c) then Core(Closed, n, None) else Core(Open, n, Some(calls[n - 1].end))
    ensures forall i :: 0 <= i < |calls| ==> OutcomeAt(c, FRESH, calls, i) == Failed
  {
    if calls != [] {
      var n := |calls| - 1;
      FailingCallsOpen(c, calls[..n]);
      forall i | 0 <= i < n
        ensures OutcomeAt(c, FRESH, calls, i) == Failed
      {
        assert calls[..n][..i] == calls[..i];
        assert OutcomeAt(c, FRESH, calls[..n], i) == Failed;
      }
    }
  }

  /** Between non-overlapping calls the breaker is either closed, or open with a
      timer and at least the threshold of failures. */
  ghost predicate Settled(c: Config, b: Core) {
    if b.state == Closed then b.openedAt == None && b.failures < Threshold(c)
    else b.state == Open && b.openedAt.Some? && b.failures >= Threshold(c)
  }

  lemma {:induction false} AloneSettles(c: Config, calls: seq<LoneCall>)
    ensures Settled(c, RunAlone(c, FRESH, calls))
  {
    if calls != [] {
      AloneSettles(c, calls[..|calls| - 1]);
    }
  }

  /** While it is open and the time is not up, every call is rejected and leaves
      the breaker as it was. */
  lemma {:induction false} AloneRejected(c: Config, b: Core, calls: seq<LoneCall>)
    requires b.state == Open && b.openedAt.Some?
    requires forall i :: 0 <= i < |calls| ==> calls[i].start < b.openedAt.value + c.openFor
    ensures RunAlone(c, b, calls) == b
    ensures forall n :: 0 <= n < |calls| ==> OutcomeAt(c, b, calls, n) == Rejected
  {
    if calls != [] {
      var n := |calls| - 1;
      AloneRejected(c, b, calls[..n]);
      forall i | 0 <= i < n
        ensures OutcomeAt(c, b, calls, i) == Rejected
      {
        assert calls[..n][..i] == calls[..i];
        assert OutcomeAt(c, b, calls[..n], i) == Rejected;
      }
    }
  }

  /** Between calls an opened breaker always carries a timer. A call that comes
      before the time is up changes nothing; once it is up, one probe decides:
      success closes the breaker with a clean count, failure opens it again with a
      fresh timer. */
  lemma {:induction false} OneProbeDecides(c: Config, calls: seq<LoneCall>, probe: LoneCall)
    requires RunAlone(c, FRESH, calls).state == Open
    ensures RunAlone(c, FRESH, calls).openedAt.Some?
    ensures
      var b := RunAlone(c, FRESH, calls);
      CallAlone(c, b, probe.start, probe.ok, probe.end) ==
      if probe.start < b.openedAt.value + c.openFor then (b, Rejected)
      else if probe.ok then (FRESH, Succeeded)
      else (Core(Open, b.failures + 1, Some(probe.end)), Failed)
  {
    AloneSettles(c, calls);
  }
}
