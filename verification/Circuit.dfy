/** The circuit breaker of internal/audit/circuit.go.  Calls run concurrently; each critical
    section and each semaphore operation is a step of its own. */
module Circuit {
  import opened ByteStrings

  type CallId = nat

  /** Where a call is: past the first check, inside the auditor, or done with the second
      critical section but still holding the semaphore. */
  datatype Position = Waiting | Inside | Leaving

  datatype Verdict = Success | Failure | Cancelled

  /** What the breaker has observed, in the order of the second critical sections. */
  datatype Observation = Succeeded | Failed(at: int) | Opened(at: int)

  datatype State = State(maxFailures: nat, capacity: nat, openFor: int, failures: nat, openedUntil: int,
                         calls: map<CallId, Position>, history: seq<Observation>)

  datatype Step =
    | Enter(call: CallId, now: int)
    | Abandon(call: CallId)
    | Acquire(call: CallId)
    | Finish(call: CallId, verdict: Verdict, now: int)
    | Release(call: CallId)

  function Start(maxFailures: int, concurrency: int, openFor: int, past: int): State {
    State(if maxFailures < 1 then 5 else maxFailures, if concurrency < 1 then 1 else concurrency,
          if openFor <= 0 then 30_000 else openFor, 0, past, map[], [])
  }

  function Holders(s: State): set<CallId> {
    set c | c in s.calls && !s.calls[c].Waiting?
  }

  function InFlight(s: State): set<CallId> {
    set c | c in s.calls && s.calls[c].Inside?
  }

  predicate Rejected(s: State, now: int) { now < s.openedUntil }

  predicate Enabled(s: State, step: Step) {
    match step
    case Enter(call, _) => call !in s.calls
    case Abandon(call) => call in s.calls && s.calls[call].Waiting?
    case Acquire(call) => call in s.calls && s.calls[call].Waiting? && |Holders(s)| < s.capacity
    case Finish(call, _, _) => call in s.calls && s.calls[call].Inside?
    case Release(call) => call in s.calls && s.calls[call].Leaving?
  }

  function Next(s: State, step: Step): State
    requires Enabled(s, step)
  {
    match step
    case Enter(call, now) => if Rejected(s, now) then s else s.(calls := s.calls[call := Waiting])
    case Abandon(call) => s.(calls := s.calls - {call})
    case Acquire(call) => s.(calls := s.calls[call := Inside])
    case Finish(call, verdict, now) => Observe(s, verdict, now).(calls := s.calls[call := Leaving])
    case Release(call) => s.(calls := s.calls - {call})
  }

  /** The second critical section. */
  function Observe(s: State, verdict: Verdict, now: int): State {
    match verdict
    case Cancelled => s
    case Success => s.(failures := 0, history := s.history + [Succeeded])
    case Failure =>
      if s.failures + 1 >= s.maxFailures
      then s.(failures := 0, openedUntil := now + s.openFor, history := s.history + [Failed(now), Opened(now)])
      else s.(failures := s.failures + 1, history := s.history + [Failed(now)])
  }

  class CircuitBreaker {
    var state: State

    constructor (maxFailures: int, concurrency: int, openFor: int, past: int)
      ensures state == Start(maxFailures, concurrency, openFor, past)
    {
      state := Start(maxFailures, concurrency, openFor, past);
    }

    /** The end of an audit: count, reset, or open the circuit. */
    method Conclude(call: CallId, verdict: Verdict, now: int)
      requires call in state.calls && state.calls[call].Inside?
      modifies this
      ensures state == Next(old(state), Finish(call, verdict, now))
    {
      var failures, openedUntil, history := state.failures, state.openedUntil, state.history;
      if verdict.Success? {
        failures, history := 0, history + [Succeeded];
      } else if verdict.Failure? {
        failures, history := failures + 1, history + [Failed(now)];
        if failures >= state.maxFailures {
          openedUntil := now + state.openFor;
          failures, history := 0, history + [Opened(now)];
        }
      }
      assert (state.history + [Failed(now)]) + [Opened(now)] == state.history + [Failed(now), Opened(now)];
      state := state.(failures := failures, openedUntil := openedUntil, history := history,
                      calls := state.calls[call := Leaving]);
    }
  }

  // ---------------------------------------------------------------------------------
  // Invariant
  // ---------------------------------------------------------------------------------

  /** Failures since the last success or opening. */
  function Streak(history: seq<Observation>): nat {
    if history == [] || !history[|history| - 1].Failed? then 0 else 1 + Streak(history[..|history| - 1])
  }

  /** Every opening comes right after exactly `max` failures in a row. */
  ghost predicate OpeningsOk(history: seq<Observation>, max: nat) {
    forall i :: 0 <= i < |history| && history[i].Opened? ==> OpensAfter(history[..i], max, history[i].at)
  }

  /** `max` failures in a row, the last of them at `at`. */
  predicate OpensAfter(history: seq<Observation>, max: nat, at: int) {
    Streak(history) == max && history != [] && history[|history| - 1] == Failed(at)
  }

  ghost predicate Inv(s: State) {
    && s.maxFailures >= 1
    && s.failures < s.maxFailures
    && s.failures == Streak(s.history)
    && OpeningsOk(s.history, s.maxFailures)
    && |Holders(s)| <= s.capacity
  }

  lemma {:induction false} StreakSnoc(history: seq<Observation>, o: Observation)
    ensures Streak(history + [o]) == if o.Failed? then Streak(history) + 1 else 0
  {
    assert (history + [o])[..|history|] == history;
  }

  lemma {:induction false} OpeningsSnoc(history: seq<Observation>, o: Observation, max: nat)
    requires OpeningsOk(history, max) && (o.Opened? ==> OpensAfter(history, max, o.at))
    ensures OpeningsOk(history + [o], max)
  {
    var more := history + [o];
    forall i | 0 <= i < |more| && more[i].Opened?
      ensures OpensAfter(more[..i], max, more[i].at)
    {
      assert more[..i] == history[..i];
      if i == |history| {
        TakeAll(history);
      }
    }
  }

  lemma {:induction false} ObserveKeepsInv(s: State, verdict: Verdict, now: int)
    requires Inv(s)
    ensures var s' := Observe(s, verdict, now);
      s'.failures < s'.maxFailures && s'.failures == Streak(s'.history) && OpeningsOk(s'.history, s'.maxFailures)
  {
    match verdict
    case Cancelled =>
    case Success => ExtendHistory(s.history, Succeeded, s.maxFailures);
    case Failure =>
      ExtendHistory(s.history, Failed(now), s.maxFailures);
      if s.failures + 1 >= s.maxFailures {
        OpeningAfter(s.history, s.maxFailures, now);
      }
  }

  lemma {:induction false} OpeningAfter(history: seq<Observation>, max: nat, now: int)
    requires OpeningsOk(history + [Failed(now)], max) && Streak(history + [Failed(now)]) == max
    ensures OpeningsOk(history + [Failed(now), Opened(now)], max) && Streak(history + [Failed(now), Opened(now)]) == 0
  {
    assert (history + [Failed(now)]) + [Opened(now)] == history + [Failed(now), Opened(now)];
    ExtendHistory(history + [Failed(now)], Opened(now), max);
  }

  lemma {:induction false} ExtendHistory(history: seq<Observation>, o: Observation, max: nat)
    requires OpeningsOk(history, max) && (o.Opened? ==> OpensAfter(history, max, o.at))
    ensures OpeningsOk(history + [o], max)
    ensures Streak(history + [o]) == if o.Failed? then Streak(history) + 1 else 0
  {
    StreakSnoc(history, o);
    OpeningsSnoc(history, o, max);
  }

  lemma {:induction false} StepKeepsInv(s: State, step: Step)
    requires Inv(s) && Enabled(s, step)
    ensures Inv(Next(s, step))
  {
    var s' := Next(s, step);
    match step
    case Enter(call, now) => assert Holders(s') == Holders(s);
    case Abandon(call) => assert Holders(s') == Holders(s);
    case Acquire(call) => assert Holders(s') == Holders(s) + {call};
    case Finish(call, verdict, now) =>
      ObserveKeepsInv(s, verdict, now);
      assert Holders(s') == Holders(s);
    case Release(call) => assert Holders(s') == Holders(s) - {call};
  }

  // ---------------------------------------------------------------------------------
  // Runs
  // ---------------------------------------------------------------------------------

  ghost predicate Run(s: State, steps: seq<Step>, s': State)
    decreases |steps|
  {
    if steps == [] then s == s'
    else Enabled(s, steps[0]) && Run(Next(s, steps[0]), steps[1..], s')
  }

  lemma {:induction false} RunKeepsInv(s: State, steps: seq<Step>, s': State)
    requires Inv(s) && Run(s, steps, s')
    ensures Inv(s')
    decreases |steps|
  {
    if steps != [] {
      StepKeepsInv(s, steps[0]);
      RunKeepsInv(Next(s, steps[0]), steps[1..], s');
    }
  }

  // ---------------------------------------------------------------------------------
  // What a run did, told by its steps alone
  // ---------------------------------------------------------------------------------

  /** What the breaker hears of a call. */
  function ReportOf(verdict: Verdict, now: int): seq<Observation> {
    match verdict case Success => [Succeeded] case Failure => [Failed(now)] case Cancelled => []
  }

  /** The successes and failures the auditor reported, in order. */
  function ReportedIn(steps: seq<Step>): seq<Observation> {
    if steps == [] then []
    else (if steps[0].Finish? then ReportOf(steps[0].verdict, steps[0].now) else []) + ReportedIn(steps[1..])
  }

  /** A history without its openings. */
  function Reported(history: seq<Observation>): seq<Observation> {
    if history == [] then []
    else
      var k := |history| - 1;
      Reported(history[..k]) + if history[k].Opened? then [] else [history[k]]
  }

  /** When the circuit last opened. */
  function LastOpening(history: seq<Observation>): Option<int> {
    if history == [] then None
    else
      var k := |history| - 1;
      if history[k].Opened? then Some(history[k].at) else LastOpening(history[..k])
  }

  /** Until when calls are refused, given that they were refused until `past` at first. */
  function RefusedUntil(history: seq<Observation>, openFor: int, past: int): int {
    match LastOpening(history) case None => past case Some(at) => at + openFor
  }

  lemma {:induction false} HistorySnoc(history: seq<Observation>, o: Observation)
    ensures Reported(history + [o]) == Reported(history) + if o.Opened? then [] else [o]
    ensures LastOpening(history + [o]) == if o.Opened? then Some(o.at) else LastOpening(history)
  {
    assert (history + [o])[..|history|] == history;
  }

  lemma {:induction false} OpeningSnoc(history: seq<Observation>, now: int)
    ensures Reported(history + [Failed(now), Opened(now)]) == Reported(history) + [Failed(now)]
    ensures LastOpening(history + [Failed(now), Opened(now)]) == Some(now)
  {
    HistorySnoc(history, Failed(now));
    HistorySnoc(history + [Failed(now)], Opened(now));
    assert (history + [Failed(now)]) + [Opened(now)] == history + [Failed(now), Opened(now)];
  }

  lemma {:induction false} ObserveHistory(s: State, verdict: Verdict, now: int, past: int)
    requires s.openedUntil == RefusedUntil(s.history, s.openFor, past)
    ensures var s' := Observe(s, verdict, now);
      && s'.openedUntil == RefusedUntil(s'.history, s.openFor, past)
      && Reported(s'.history) == Reported(s.history) + ReportOf(verdict, now)
  {
    match verdict
    case Cancelled => assert Reported(s.history) + [] == Reported(s.history);
    case Success => HistorySnoc(s.history, Succeeded);
    case Failure =>
      HistorySnoc(s.history, Failed(now));
      OpeningSnoc(s.history, now);
  }

  /** The settings stay, the history is what the auditor reported with the openings in between, and
      the deadline is that of the last opening. */
  ghost predicate Happened(s: State, steps: seq<Step>, s': State, past: int) {
    && s'.maxFailures == s.maxFailures && s'.capacity == s.capacity && s'.openFor == s.openFor
    && s'.openedUntil == RefusedUntil(s'.history, s.openFor, past)
    && Reported(s'.history) == Reported(s.history) + ReportedIn(steps)
  }

  lemma {:induction false} HistoryGoesOn(s: State, steps: seq<Step>, t: State, s': State, past: int)
    requires steps != [] && t.maxFailures == s.maxFailures && t.capacity == s.capacity && t.openFor == s.openFor
    requires Reported(t.history) == Reported(s.history)
          + if steps[0].Finish? then ReportOf(steps[0].verdict, steps[0].now) else []
    requires Happened(t, steps[1..], s', past)
    ensures Happened(s, steps, s', past)
  {
    var report := if steps[0].Finish? then ReportOf(steps[0].verdict, steps[0].now) else [];
    assert (Reported(s.history) + report) + ReportedIn(steps[1..])
        == Reported(s.history) + (report + ReportedIn(steps[1..]));
  }

  lemma {:induction false} RunHistory(s: State, steps: seq<Step>, s': State, past: int)
    requires Run(s, steps, s') && s.openedUntil == RefusedUntil(s.history, s.openFor, past)
    ensures Happened(s, steps, s', past)
    decreases |steps|
  {
    if steps == [] {
      assert Reported(s.history) + [] == Reported(s.history);
    } else {
      var step := steps[0];
      if step.Finish? {
        ObserveHistory(s, step.verdict, step.now, past);
      } else {
        assert Reported(s.history) + [] == Reported(s.history);
      }
      RunHistory(Next(s, step), steps[1..], s', past);
      HistoryGoesOn(s, steps, Next(s, step), s', past);
    }
  }

  /** The last step that a call took. */
  function LastOf(steps: seq<Step>, call: CallId): Option<Step> {
    if steps == [] then None
    else
      var k := |steps| - 1;
      if steps[k].call == call then Some(steps[k]) else LastOf(steps[..k], call)
  }

  /** Where a call is, by its last step: it may be refused when it enters. */
  predicate Whereabouts(s: State, call: CallId, last: Option<Step>) {
    if last.None? || last.value.Abandon? || last.value.Release? then call !in s.calls
    else if last.value.Enter? then call !in s.calls || s.calls[call].Waiting?
    else call in s.calls && if last.value.Acquire? then s.calls[call].Inside? else s.calls[call].Leaving?
  }

  lemma {:induction false} RunLast(s: State, steps: seq<Step>, s': State) returns (m: State)
    requires steps != [] && Run(s, steps, s')
    ensures var k := |steps| - 1; Run(s, steps[..k], m) && Enabled(m, steps[k]) && s' == Next(m, steps[k])
    decreases |steps|
  {
    var k := |steps| - 1;
    if k == 0 {
      m := s;
      assert steps[1..] == [] && steps[..0] == [];
    } else {
      m := RunLast(Next(s, steps[0]), steps[1..], s');
      assert steps[..k][1..] == steps[1..][..k - 1] && steps[1..][k - 1] == steps[k];
    }
  }

  /** In every run the auditor works on exactly the calls that took a permit and have not come back. */
  lemma {:induction false} PositionsExactly(s: State, steps: seq<Step>, s': State, call: CallId)
    requires s.calls == map[] && Run(s, steps, s')
    ensures Whereabouts(s', call, LastOf(steps, call))
    ensures call in InFlight(s') <==> LastOf(steps, call).Some? && LastOf(steps, call).value.Acquire?
    decreases |steps|
  {
    if steps != [] {
      var m := RunLast(s, steps, s');
      PositionsExactly(s, steps[..|steps| - 1], m, call);
    }
  }

  /** In every run a call that arrives while the circuit is open is refused, and one that arrives
      before it first opened or after its time is not; a call that waits can go on exactly while a
      permit is free; and the failures that open the circuit are those the auditor reported. */
  lemma {:induction false} EnterExactly(maxFailures: int, concurrency: int, openFor: int, past: int, steps: seq<Step>,
                                        s: State, call: CallId, now: int)
    requires Run(Start(maxFailures, concurrency, openFor, past), steps, s) && call !in s.calls
    ensures var until := match LastOpening(s.history)
        case None => past
        case Some(at) => if openFor <= 0 then at + 30_000 else at + openFor;
      call in Next(s, Enter(call, now)).calls <==> until <= now
    ensures forall c <- s.calls :: s.calls[c].Waiting? ==>
              (Enabled(s, Acquire(c)) <==> |Holders(s)| < if concurrency < 1 then 1 else concurrency)
    ensures Reported(s.history) == ReportedIn(steps)
  {
    RunHistory(Start(maxFailures, concurrency, openFor, past), steps, s, past);
  }

  /** The streak is exactly the run of failures at the end of the history. */
  lemma {:induction false} StreakIsMaximalRun(history: seq<Observation>)
    ensures var n := Streak(history);
      && n <= |history|
      && (forall i :: |history| - n <= i < |history| ==> history[i].Failed?)
      && (n < |history| ==> !history[|history| - n - 1].Failed?)
  {
    if history != [] && history[|history| - 1].Failed? {
      StreakIsMaximalRun(history[..|history| - 1]);
    }
  }

  /** In every interleaving of concurrent calls: auditor calls in flight never exceed the
      semaphore, the failure count stays below the maximum, and every opening follows exactly
      `maxFailures` failures since the last success or opening. */
  lemma {:induction false} BreakerGuarantee(maxFailures: int, concurrency: int, openFor: int, past: int,
                                            steps: seq<Step>, s: State)
    requires Run(Start(maxFailures, concurrency, openFor, past), steps, s)
    ensures |InFlight(s)| <= if concurrency < 1 then 1 else concurrency
    ensures Streak(s.history) == s.failures < if maxFailures < 1 then 5 else maxFailures
    ensures forall i :: 0 <= i < |s.history| && s.history[i].Opened? ==>
              AfterExactly(s.history, if maxFailures < 1 then 5 else maxFailures, i)
  {
    RunKeepsInv(Start(maxFailures, concurrency, openFor, past), steps, s);
    RunHistory(Start(maxFailures, concurrency, openFor, past), steps, s, past);
    InFlightHold(s);
    OpeningsExactly(s.history, s.maxFailures);
  }

  /** Position `i` comes right after a maximal run of exactly `n` failures. */
  ghost predicate AfterExactly(history: seq<Observation>, n: nat, i: nat)
    requires i < |history| && history[i].Opened?
  {
    && i >= n && i > 0 && history[i - 1] == Failed(history[i].at)
    && (forall j :: i - n <= j < i ==> history[j].Failed?)
    && (i > n ==> !history[i - n - 1].Failed?)
  }

  lemma {:induction false} OpeningsExactly(history: seq<Observation>, max: nat)
    requires OpeningsOk(history, max)
    ensures forall i :: 0 <= i < |history| && history[i].Opened? ==> AfterExactly(history, max, i)
  {
    forall i | 0 <= i < |history| && history[i].Opened?
      ensures AfterExactly(history, max, i)
    {
      StreakIsMaximalRun(history[..i]);
    }
  }

  lemma {:induction false} InFlightHold(s: State)
    ensures |InFlight(s)| <= |Holders(s)|
  {
    SubsetSize(InFlight(s), Holders(s));
  }

  // ---------------------------------------------------------------------------------
  // Cancelled calls
  // ---------------------------------------------------------------------------------

  /** The steps of the calls outside `gone`. */
  function Without(steps: seq<Step>, gone: set<CallId>): seq<Step> {
    if steps == [] then []
    else (if steps[0].call in gone then [] else [steps[0]]) + Without(steps[1..], gone)
  }

  /** Whoever of `gone` comes back from the auditor comes back cancelled. */
  ghost predicate OnlyCancelled(steps: seq<Step>, gone: set<CallId>) {
    forall i :: 0 <= i < |steps| && steps[i].Finish? && steps[i].call in gone ==> steps[i].verdict.Cancelled?
  }

  /** The breaker as the other calls see it. */
  function Forget(s: State, gone: set<CallId>): State {
    s.(calls := s.calls - gone)
  }

  lemma {:induction false} ErasedStep(s: State, step: Step, gone: set<CallId>)
    requires Enabled(s, step) && step.call in gone && (step.Finish? ==> step.verdict.Cancelled?)
    ensures Forget(Next(s, step), gone) == Forget(s, gone)
  {
    assert Next(s, step).calls - gone == s.calls - gone;
  }

  /** Fewer calls hold the semaphore, so what was possible stays possible. */
  lemma {:induction false} KeptStep(s: State, step: Step, gone: set<CallId>)
    requires Enabled(s, step) && step.call !in gone
    ensures Enabled(Forget(s, gone), step) && Next(Forget(s, gone), step) == Forget(Next(s, step), gone)
  {
    SubsetSize(Holders(Forget(s, gone)), Holders(s));
    assert Next(Forget(s, gone), step).calls == Next(s, step).calls - gone;
  }

  lemma {:induction false} ErasedRun(s: State, steps: seq<Step>, s': State, gone: set<CallId>)
    requires Run(s, steps, s') && OnlyCancelled(steps, gone)
    ensures Run(Forget(s, gone), Without(steps, gone), Forget(s', gone))
    decreases |steps|
  {
    if steps != [] {
      var step := steps[0];
      ErasedRun(Next(s, step), steps[1..], s', gone);
      if step.call in gone {
        ErasedStep(s, step, gone);
        assert Without(steps, gone) == Without(steps[1..], gone);
      } else {
        KeptStep(s, step, gone);
        var rest := Without(steps[1..], gone);
        assert ([step] + rest)[0] == step && ([step] + rest)[1..] == rest;
      }
    }
  }

  /** Cancelled calls change nothing, in every interleaving: take any run and any set of calls
      that the auditor never answered, and the run without them is possible too and ends with
      the same failure count, the same deadline and the same observations. */
  lemma {:induction false} CancelledChangesNothing(maxFailures: int, concurrency: int, openFor: int, past: int,
                                                   steps: seq<Step>, s: State, gone: set<CallId>) returns (t: State)
    requires Run(Start(maxFailures, concurrency, openFor, past), steps, s) && OnlyCancelled(steps, gone)
    ensures Run(Start(maxFailures, concurrency, openFor, past), Without(steps, gone), t)
    ensures t.failures == s.failures && t.openedUntil == s.openedUntil && t.history == s.history
    ensures t.calls == s.calls - gone
  {
    var start := Start(maxFailures, concurrency, openFor, past);
    t := Forget(s, gone);
    ErasedRun(start, steps, s, gone);
    assert Forget(start, gone) == start;
  }
}
