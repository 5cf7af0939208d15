/** The Kafka to ClickHouse consumer of internal/consumer/consumer.go on one partition:
    batches, inserts with retries, dead letters, offset commits, crashes and redelivery. */
module Consumer {
  const BATCH: nat := 100
  const MAX_INSERT_ATTEMPTS: nat := 10

  /** A message either decodes to a valid event or it does not. */
  datatype Message = Valid(event: string) | Invalid

  /** The batch in hand is `log[lo..hi]`; `stage` tells how far its processing has come. */
  datatype Stage = Idle | Filling | Inserted | Ready

  datatype State = State(
    log: seq<Message>,
    committed: nat,
    lo: nat,
    hi: nat,
    stage: Stage,
    inserted: set<nat>,      // offsets whose event is in ClickHouse
    lettered: set<nat>,      // offsets in the dead-letter topic
    dropped: set<nat>)       // valid offsets of batches whose insert was cancelled

  datatype Step =
    | Produce(message: Message)
    | Fetch
    /** The insert is reported as done. */
    | Insert
    /** The insert fails; some rows may have been written. */
    | InsertError(written: set<nat>)
    /** The context is cancelled during a failing insert, which is then reported as done. */
    | InsertCancelled
    | Letter
    | Commit(effective: bool)
    /** Crash, restart or rebalance: consumption resumes at the committed offset. */
    | Restart

  function ValidOffsets(log: seq<Message>, lo: nat, hi: nat): set<nat>
    requires hi <= |log|
  {
    set o: nat | lo <= o < hi && log[o].Valid?
  }

  predicate Enabled(s: State, step: Step) {
    match step
    case Produce(_) => true
    case Fetch =>
      && s.hi < |s.log|
      && (|| s.stage.Idle?
          || (s.stage.Filling? && s.lo < s.hi <= |s.log| && s.log[s.hi - 1].Valid? && s.hi - s.lo < BATCH))
    case Insert => s.stage.Filling?
    case InsertError(written) => s.stage.Filling? && s.hi <= |s.log| && written <= ValidOffsets(s.log, s.lo, s.hi)
    case InsertCancelled => s.stage.Filling?
    case Letter => s.stage.Inserted?
    case Commit(_) => s.stage.Ready?
    case Restart => true
  }

  function Next(s: State, step: Step): State
    requires s.lo <= s.hi <= |s.log| && (s.stage.Inserted? ==> s.lo < s.hi)
    requires Enabled(s, step)
  {
    match step
    case Produce(message) => s.(log := s.log + [message])
    case Fetch => s.(lo := if s.stage.Idle? then s.hi else s.lo, hi := s.hi + 1, stage := Filling)
    case Insert => s.(inserted := s.inserted + ValidOffsets(s.log, s.lo, s.hi), stage := Inserted)
    case InsertError(written) => s.(inserted := s.inserted + written)
    case InsertCancelled => s.(dropped := s.dropped + ValidOffsets(s.log, s.lo, s.hi), stage := Inserted)
    case Letter =>
      s.(lettered := if s.log[s.hi - 1].Invalid? then s.lettered + {s.hi - 1} else s.lettered, stage := Ready)
    case Commit(effective) => s.(committed := if effective then s.hi else s.committed, lo := s.hi, stage := Idle)
    case Restart => s.(lo := s.committed, hi := s.committed, stage := Idle)
  }

  // ---------------------------------------------------------------------------------
  // Invariant
  // ---------------------------------------------------------------------------------

  predicate Handled(s: State, o: nat)
    requires o < |s.log|
  {
    if s.log[o].Valid? then o in s.inserted else o in s.lettered
  }

  /** Shape of the batch, kept by every step: contiguous, at most 100 messages, and an
      invalid message only at its end. */
  ghost predicate Shape(s: State) {
    && s.committed <= s.lo <= s.hi <= |s.log|
    && (s.stage.Idle? <==> s.lo == s.hi)
    && s.hi - s.lo <= BATCH
    && (forall o :: s.lo <= o < s.hi - 1 ==> s.log[o].Valid?)
    && (forall o <- s.inserted :: o < |s.log| && s.log[o].Valid?)
    && (forall o <- s.lettered :: o < |s.log| && s.log[o].Invalid?)
    && (forall o <- s.dropped :: o < |s.log| && s.log[o].Valid?)
  }

  /** Everything before the batch is dealt with or was dropped, and the batch as far as its
      stage says. */
  ghost predicate Safe(s: State)
    requires Shape(s)
  {
    && (forall o :: 0 <= o < s.lo ==> Handled(s, o) || o in s.dropped)
    && (s.stage.Inserted? || s.stage.Ready? ==>
          forall o :: s.lo <= o < s.hi && s.log[o].Valid? ==> o in s.inserted || o in s.dropped)
    && (s.stage.Ready? ==> s.lo < s.hi && (Handled(s, s.hi - 1) || s.hi - 1 in s.dropped))
  }

  lemma {:induction false} StepKeepsShape(s: State, step: Step)
    requires Shape(s) && Enabled(s, step)
    ensures Shape(Next(s, step))
  {
  }

  /** Every step keeps the invariant, a cancelled insert included. */
  lemma {:induction false} StepKeepsSafe(s: State, step: Step)
    requires Shape(s) && Safe(s) && Enabled(s, step)
    ensures Shape(Next(s, step)) && Safe(Next(s, step))
  {
    StepKeepsShape(s, step);
    var s' := Next(s, step);
    forall o | 0 <= o < s'.lo
      ensures Handled(s', o) || o in s'.dropped
    {
      assert o < s.lo ==> Handled(s, o) || o in s.dropped;
    }
  }

  // ---------------------------------------------------------------------------------
  // Runs
  // ---------------------------------------------------------------------------------

  ghost predicate Run(s: State, steps: seq<Step>, s': State)
    requires Shape(s)
    decreases |steps|
  {
    if steps == [] then s == s'
    else Enabled(s, steps[0]) && (StepKeepsShape(s, steps[0]); Run(Next(s, steps[0]), steps[1..], s'))
  }

  function Start(): State { State([], 0, 0, 0, Idle, {}, {}, {}) }

  lemma {:induction false} RunKeepsSafe(s: State, steps: seq<Step>, s': State)
    requires Shape(s) && Safe(s) && Run(s, steps, s')
    ensures Shape(s') && Safe(s')
    decreases |steps|
  {
    if steps != [] {
      StepKeepsSafe(s, steps[0]);
      RunKeepsSafe(Next(s, steps[0]), steps[1..], s');
    }
  }

  /** What a run drops are the valid messages of the batches in hand at its cancelled inserts. */
  ghost predicate InCancelledBatch(s: State, steps: seq<Step>, o: nat)
    requires Shape(s)
    decreases |steps|
  {
    && steps != [] && Enabled(s, steps[0])
    && (StepKeepsShape(s, steps[0]);
        || (steps[0].InsertCancelled? && o in ValidOffsets(s.log, s.lo, s.hi))
        || InCancelledBatch(Next(s, steps[0]), steps[1..], o))
  }

  /** Some insert of the run, reported as done or as failed, wrote message `o`. */
  ghost predicate WrittenIn(s: State, steps: seq<Step>, o: nat)
    requires Shape(s)
    decreases |steps|
  {
    && steps != [] && Enabled(s, steps[0])
    && (StepKeepsShape(s, steps[0]);
        || (steps[0].Insert? && o in ValidOffsets(s.log, s.lo, s.hi))
        || (steps[0].InsertError? && o in steps[0].written)
        || WrittenIn(Next(s, steps[0]), steps[1..], o))
  }

  lemma {:induction false} InsertedExactly(s: State, steps: seq<Step>, s': State, o: nat)
    requires Shape(s) && Run(s, steps, s')
    ensures o in s'.inserted <==> o in s.inserted || WrittenIn(s, steps, o)
    decreases |steps|
  {
    if steps != [] {
      StepKeepsShape(s, steps[0]);
      InsertedExactly(Next(s, steps[0]), steps[1..], s', o);
    }
  }

  lemma {:induction false} DroppedExactly(s: State, steps: seq<Step>, s': State, o: nat)
    requires Shape(s) && Run(s, steps, s')
    ensures o in s'.dropped <==> o in s.dropped || InCancelledBatch(s, steps, o)
    decreases |steps|
  {
    if steps != [] {
      StepKeepsShape(s, steps[0]);
      DroppedExactly(Next(s, steps[0]), steps[1..], s', o);
    }
  }

  /** The messages that were produced. */
  function ProducedIn(steps: seq<Step>): seq<Message> {
    if steps == [] then []
    else (if steps[0].Produce? then [steps[0].message] else []) + ProducedIn(steps[1..])
  }

  function FetchesIn(steps: seq<Step>): nat {
    if steps == [] then 0 else (if steps[0].Fetch? then 1 else 0) + FetchesIn(steps[1..])
  }

  lemma {:induction false} LogIsProduced(s: State, steps: seq<Step>, s': State)
    requires Shape(s) && Run(s, steps, s')
    ensures s'.log == s.log + ProducedIn(steps)
    decreases |steps|
  {
    if steps == [] {
      assert s.log + [] == s.log;
    } else {
      StepKeepsShape(s, steps[0]);
      LogIsProduced(Next(s, steps[0]), steps[1..], s');
      var one := if steps[0].Produce? then [steps[0].message] else [];
      assert (s.log + one) + ProducedIn(steps[1..]) == s.log + (one + ProducedIn(steps[1..])) && s.log + [] == s.log;
    }
  }

  lemma {:induction false} FetchedSince(s: State, steps: seq<Step>, s': State)
    requires Shape(s) && Run(s, steps, s') && forall i :: 0 <= i < |steps| ==> !steps[i].Restart?
    ensures s'.hi == s.hi + FetchesIn(steps)
    decreases |steps|
  {
    if steps != [] {
      StepKeepsShape(s, steps[0]);
      FetchedSince(Next(s, steps[0]), steps[1..], s');
    }
  }

  /** After a crash the messages are delivered again, one by one from the committed offset on. */
  lemma {:induction false} Redelivered(s: State, steps: seq<Step>, s': State)
    requires Shape(s) && Shape(Next(s, Restart)) && Run(Next(s, Restart), steps, s')
    requires forall i :: 0 <= i < |steps| ==> !steps[i].Restart?
    ensures s'.hi == s.committed + FetchesIn(steps)
  {
    FetchedSince(Next(s, Restart), steps, s');
  }

  /** In every run, with any crashes, redeliveries and cancellations: a message below the
      committed offset is lost if and only if its batch was in hand at a cancelled insert and
      no insert of the run wrote it. */
  lemma {:induction false} LostExactly(steps: seq<Step>, s: State, o: nat)
    requires Run(Start(), steps, s) && o < s.committed
    ensures s.committed <= s.lo <= s.hi <= |s.log| && s.log == ProducedIn(steps)
    ensures !Handled(s, o) <==> InCancelledBatch(Start(), steps, o) && !WrittenIn(Start(), steps, o)
  {
    RunKeepsSafe(Start(), steps, s);
    LogIsProduced(Start(), steps, s);
    InsertedExactly(Start(), steps, s, o);
    DroppedExactly(Start(), steps, s, o);
    assert Handled(s, o) || o in s.dropped;
  }

  lemma {:induction false} NothingCancelled(s: State, steps: seq<Step>, o: nat)
    requires Shape(s) && forall i :: 0 <= i < |steps| ==> !steps[i].InsertCancelled?
    ensures !InCancelledBatch(s, steps, o)
    decreases |steps|
  {
    if steps != [] && Enabled(s, steps[0]) {
      StepKeepsShape(s, steps[0]);
      NothingCancelled(Next(s, steps[0]), steps[1..], o);
    }
  }

  lemma {:induction false} ExactlyTheValid(s: State)
    requires Shape(s) && forall o: nat :: o < s.committed ==> Handled(s, o)
    ensures (set o | o in s.inserted && o < s.committed) == ValidOffsets(s.log, 0, s.committed)
  {
    forall o: nat
      ensures o in (set o | o in s.inserted && o < s.committed) <==> o in ValidOffsets(s.log, 0, s.committed)
    {
      if o < s.committed {
        assert Handled(s, o);
      }
    }
  }

  lemma {:induction false} AllHandled(steps: seq<Step>, s: State)
    requires Run(Start(), steps, s)
    requires forall i :: 0 <= i < |steps| ==> !steps[i].InsertCancelled?
    ensures Shape(s) && s.log == ProducedIn(steps) && forall o: nat :: o < s.committed ==> Handled(s, o)
  {
    RunKeepsSafe(Start(), steps, s);
    LogIsProduced(Start(), steps, s);
    forall o: nat | o < s.committed
      ensures Handled(s, o)
    {
      LostExactly(steps, s, o);
      NothingCancelled(Start(), steps, o);
    }
  }

  /** In every run without a cancelled insert, with any crashes and redeliveries: below the
      committed offset every message is inserted or dead-lettered, and the inserted ones are
      exactly the valid ones. */
  lemma {:induction false} CommitGuarantee(steps: seq<Step>, s: State)
    requires Run(Start(), steps, s)
    requires forall i :: 0 <= i < |steps| ==> !steps[i].InsertCancelled?
    ensures s.committed <= s.lo <= s.hi <= |s.log| && s.log == ProducedIn(steps) && s.hi - s.lo <= 100
    ensures forall o :: 0 <= o < s.committed ==> Handled(s, o)
    ensures (set o | o in s.inserted && o < s.committed) == ValidOffsets(s.log, 0, s.committed)
    ensures forall o :: s.lo <= o < s.hi - 1 ==> s.log[o].Valid?
  {
    AllHandled(steps, s);
    ExactlyTheValid(s);
  }

  /** Cancellation does break the guarantee: an event can be committed without being stored. */
  lemma {:induction false} CancelledInsertLosesEvents(event: string)
    ensures exists s :: Shape(s) && s.committed == 1 && !Handled(s, 0)
              && Run(Start(), [Produce(Valid(event)), Fetch, InsertCancelled, Letter, Commit(true)], s)
  {
    var s1 := Next(Start(), Produce(Valid(event)));
    var s2 := Next(s1, Fetch);
    var s3 := Next(s2, InsertCancelled);
    var s4 := Next(s3, Letter);
    var s5 := Next(s4, Commit(true));
    assert Run(s5, [], s5);
    assert Run(s4, [Commit(true)], s5);
    assert Run(s3, [Letter, Commit(true)], s5);
    assert Run(s2, [InsertCancelled, Letter, Commit(true)], s5);
    assert Run(s1, [Fetch, InsertCancelled, Letter, Commit(true)], s5);
  }

  /** Attempts to insert in a list of steps. */
  function Attempts(steps: seq<Step>): nat {
    if steps == [] then 0
    else (if steps[0].Insert? || steps[0].InsertError? then 1 else 0) + Attempts(steps[1..])
  }

  lemma {:induction false} RunSnoc(s: State, steps: seq<Step>, m: State, step: Step)
    requires Shape(s) && Run(s, steps, m) && Shape(m) && Enabled(m, step)
    ensures Run(s, steps + [step], Next(m, step))
    ensures Attempts(steps + [step]) == Attempts(steps) + if step.Insert? || step.InsertError? then 1 else 0
    decreases |steps|
  {
    var more := steps + [step];
    if steps == [] {
      StepKeepsShape(m, step);
      assert more[0] == step && more[1..] == [];
    } else {
      StepKeepsShape(s, steps[0]);
      RunSnoc(Next(s, steps[0]), steps[1..], m, step);
      assert more[0] == steps[0] && more[1..] == steps[1..] + [step];
    }
  }

  // ---------------------------------------------------------------------------------
  // The consumer loop
  // ---------------------------------------------------------------------------------

  datatype Outcome = Committed | CommitFailed | GaveUp

  class EventConsumer {
    var state: State

    constructor ()
      ensures Shape(state) && Safe(state) && state == Start()
    {
      state := Start();
    }

    /** Fetch a batch: stop at an invalid message, at 100 messages, or when no more arrive. */
    method FetchBatch(ghost start: State, ghost before: seq<Step>) returns (ghost steps: seq<Step>, timedOut: bool)
      requires Shape(start) && Run(start, before, state)
      requires Shape(state) && Safe(state) && state.stage.Idle? && state.hi < |state.log|
      modifies this
      ensures Run(start, steps, state) && Attempts(steps) == Attempts(before)
      ensures Shape(state) && Safe(state) && state.stage.Filling?
      ensures state.lo == old(state).hi && state.log == old(state).log && state.committed == old(state).committed
      ensures state.dropped == old(state).dropped
      ensures timedOut || state.hi - state.lo == 100 || state.log[state.hi - 1].Invalid? || state.hi == |state.log|
    {
      steps := Do(Fetch, start, before);
      timedOut := false;
      while !timedOut && state.log[state.hi - 1].Valid? && state.hi - state.lo < BATCH && state.hi < |state.log|
        invariant Run(start, steps, state) && Attempts(steps) == Attempts(before)
        invariant Shape(state) && Safe(state) && state.stage.Filling?
        invariant state.lo == old(state).hi && state.log == old(state).log && state.committed == old(state).committed
        invariant state.dropped == old(state).dropped
        decreases |state.log| - state.hi, !timedOut
      {
        timedOut := *;
        if !timedOut {
          steps := Do(Fetch, start, steps);
        }
      }
    }

    /** `insertWithRetry`: at most ten attempts; a context cancelled during an attempt is
        reported as success, one cancelled between attempts as a failure. */
    method InsertWithRetry(ghost start: State, ghost before: seq<Step>)
      returns (ok: bool, cancelled: bool, ghost steps: seq<Step>)
      requires Shape(start) && Run(start, before, state)
      requires Shape(state) && Safe(state) && state.stage.Filling?
      modifies this
      ensures Run(start, steps, state)
      ensures 1 <= Attempts(steps) - Attempts(before) <= 10
      ensures !ok && !cancelled ==> Attempts(steps) - Attempts(before) == 10
      ensures Shape(state) && Safe(state) && state.log == old(state).log
      ensures state.lo == old(state).lo && state.hi == old(state).hi && state.committed == old(state).committed
      ensures ok <==> state.stage.Inserted?
      ensures !ok ==> state.stage.Filling?
      ensures !(ok && cancelled) ==> state.dropped == old(state).dropped
    {
      steps := before;
      var attempt := 1;
      while true
        invariant Run(start, steps, state)
        invariant 1 <= attempt == Attempts(steps) - Attempts(before) + 1 <= MAX_INSERT_ATTEMPTS
        invariant Shape(state) && Safe(state) && state.stage.Filling? && state.dropped == old(state).dropped
        invariant state.log == old(state).log && state.lo == old(state).lo && state.hi == old(state).hi
        invariant state.committed == old(state).committed
        decreases MAX_INSERT_ATTEMPTS - attempt
      {
        var success: bool := *;
        if success {
          steps := Do(Insert, start, steps);
          return true, false, steps;
        }
        var written: set<nat> :| written <= ValidOffsets(state.log, state.lo, state.hi);
        steps := Do(InsertError(written), start, steps);
        cancelled := *;
        if cancelled {
          steps := Do(InsertCancelled, start, steps);
          return true, true, steps;
        }
        if attempt >= MAX_INSERT_ATTEMPTS {
          return false, false, steps;
        }
        cancelled := *;
        if cancelled {
          return false, true, steps;
        }
        attempt := attempt + 1;
      }
    }

    /** One turn of `Run`: the batch is committed only after its valid events are stored, unless
        that was cancelled, and its invalid message, if any, is dead-lettered. */
    method Turn(ghost start: State, ghost before: seq<Step>) returns (outcome: Outcome, ghost steps: seq<Step>)
      requires Shape(start) && Run(start, before, state)
      requires Shape(state) && Safe(state) && state.stage.Idle? && state.hi < |state.log|
      modifies this
      ensures Run(start, steps, state)
      ensures Shape(state) && Safe(state) && state.log == old(state).log
      ensures outcome.Committed? ==> state.committed == state.hi > old(state).committed
      ensures outcome.CommitFailed? ==> state.committed == state.hi || state.committed == old(state).committed
      ensures outcome.GaveUp? ==> state.committed == old(state).committed
      ensures forall o :: 0 <= o < state.committed ==> Handled(state, o) || o in state.dropped
    {
      var timedOut;
      steps, timedOut := FetchBatch(start, before);
      if state.log[state.lo].Valid? {
        var ok, cancelled;
        ok, cancelled, steps := InsertWithRetry(start, steps);
        if !ok {
          return GaveUp, steps;
        }
      } else {
        steps := Do(Insert, start, steps);
      }
      var lettered: bool := *;
      if state.log[state.hi - 1].Invalid? && !lettered {
        return GaveUp, steps;
      }
      steps := Do(Letter, start, steps);
      var effective: bool := *;
      steps := Do(Commit(effective), start, steps);
      var answered: bool := *;
      outcome := if effective && answered then Committed else CommitFailed;
    }

    /** Perform one step and extend the run that led here. */
    method Do(step: Step, ghost start: State, ghost steps: seq<Step>) returns (ghost steps': seq<Step>)
      requires Shape(start) && Run(start, steps, state)
      requires Shape(state) && Safe(state) && Enabled(state, step)
      modifies this
      ensures Shape(state) && Safe(state) && state == Next(old(state), step)
      ensures Run(start, steps', state)
      ensures Attempts(steps') == Attempts(steps) + if step.Insert? || step.InsertError? then 1 else 0
    {
      RunSnoc(start, steps, state, step);
      steps' := steps + [step];
      StepKeepsSafe(state, step);
      state := Next(state, step);
    }
  }
}
