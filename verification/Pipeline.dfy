/** The bounded audit pipeline of internal/events/events.go: capacity tokens, the event
    channel, and the one goroutine that stores batches.  Enqueuers run concurrently, so each
    channel operation is a step of its own.  `Close` is not part of the model. */
module Pipeline {
  import opened ByteStrings

  const BATCH: nat := 100

  type EventId = string
  type Caller = nat

  /** What the storing goroutine is doing with its batch. */
  datatype Phase = Collecting | Storing | Releasing(left: nat)

  datatype State = State(
    capacity: nat,
    slots: nat,                      // free tokens
    queue: seq<EventId>,             // the event channel
    holders: map<Caller, EventId>,   // enqueuers between taking a token and sending
    phase: Phase,
    batch: seq<EventId>,
    accepted: seq<EventId>,          // every event ever sent on the channel, in order
    done: nat,                       // how many of them are acknowledged as stored
    records: seq<EventId>,           // audit_records, by insertion
    failing: bool,                   // lastErr is set
    saturated: bool)

  datatype Step =
    | Acquire(caller: Caller, event: EventId)
    | Reject(caller: Caller, event: EventId)
    | Send(caller: Caller)
    | GiveBack(caller: Caller)
    | Receive
    | Flush
    | StoreOk
    /** The store reports an error; the transaction may have committed all the same. */
    | StoreError(committed: bool)
    | Release
    | Collect

  function Start(size: int): State {
    var capacity := if size < 1 then 1000 else size;
    State(capacity, capacity, [], map[], Collecting, [], [], 0, [], false, false)
  }

  /** `INSERT ... ON CONFLICT DO NOTHING`, one event after the other. */
  function Insert(records: seq<EventId>, events: seq<EventId>): seq<EventId>
    decreases |events|
  {
    if events == [] then records
    else Insert(if events[0] in records then records else records + [events[0]], events[1..])
  }

  predicate Enabled(s: State, step: Step) {
    match step
    case Acquire(caller, _) => caller !in s.holders && s.slots > 0
    case Reject(caller, _) => caller !in s.holders && s.slots == 0
    case Send(caller) => caller in s.holders && |s.queue| < s.capacity
    case GiveBack(caller) => caller in s.holders && |s.queue| >= s.capacity
    case Receive => s.phase.Collecting? && |s.batch| < BATCH && s.queue != []
    case Flush => s.phase.Collecting? && s.batch != [] && (|s.batch| == BATCH || s.queue == [])
    case StoreOk => s.phase.Storing?
    case StoreError(_) => s.phase.Storing?
    case Release => s.phase.Releasing? && s.phase.left > 0 && s.slots < s.capacity
    case Collect => s.phase.Releasing? && s.phase.left == 0
  }

  function Next(s: State, step: Step): State
    requires Enabled(s, step)
  {
    match step
    case Acquire(caller, event) => s.(slots := s.slots - 1, holders := s.holders[caller := event])
    case Reject(_, _) => s.(saturated := true)
    case Send(caller) =>
      var e := s.holders[caller];
      s.(queue := s.queue + [e], accepted := s.accepted + [e], holders := s.holders - {caller})
    case GiveBack(caller) => s.(slots := s.slots + 1, holders := s.holders - {caller}, saturated := true)
    case Receive => s.(batch := s.batch + [s.queue[0]], queue := s.queue[1..])
    case Flush => s.(phase := Storing)
    case StoreOk =>
      s.(records := Insert(s.records, s.batch), done := s.done + |s.batch|,
         phase := Releasing(|s.batch|), failing := false, saturated := false)
    case StoreError(committed) =>
      s.(records := if committed then Insert(s.records, s.batch) else s.records, failing := true)
    case Release => s.(slots := s.slots + 1, phase := Releasing(s.phase.left - 1))
    case Collect => s.(phase := Collecting, batch := [])
  }

  // ---------------------------------------------------------------------------------
  // Storing is idempotent
  // ---------------------------------------------------------------------------------

  lemma {:induction false} InsertMembers(records: seq<EventId>, events: seq<EventId>)
    ensures records <= Insert(records, events)
    ensures forall e :: e in Insert(records, events) <==> e in records || e in events
    ensures NoDuplicates(records) ==> NoDuplicates(Insert(records, events))
    decreases |events|
  {
    if events != [] {
      InsertMembers(if events[0] in records then records else records + [events[0]], events[1..]);
    }
  }

  lemma {:induction false} InsertAppend(records: seq<EventId>, a: seq<EventId>, b: seq<EventId>)
    ensures Insert(Insert(records, a), b) == Insert(records, a + b)
    decreases |a|
  {
    if a == [] {
      assert a + b == b;
    } else {
      assert (a + b)[1..] == a[1..] + b;
      InsertAppend(if a[0] in records then records else records + [a[0]], a[1..], b);
    }
  }

  lemma {:induction false} InsertKnown(records: seq<EventId>, events: seq<EventId>)
    requires forall e <- events :: e in records
    ensures Insert(records, events) == records
    decreases |events|
  {
    if events != [] {
      assert events[0] in events;
      InsertKnown(records, events[1..]);
    }
  }

  /** Storing a batch again, after a commit whose answer was lost, changes nothing. */
  lemma {:induction false} StoreTwice(records: seq<EventId>, events: seq<EventId>)
    ensures Insert(Insert(records, events), events) == Insert(records, events)
  {
    InsertMembers(records, events);
    InsertKnown(Insert(records, events), events);
  }

  // ---------------------------------------------------------------------------------
  // Invariant
  // ---------------------------------------------------------------------------------

  /** Tokens the storing goroutine still has to give back. */
  function Unreleased(s: State): nat {
    match s.phase
    case Releasing(left) => left
    case _ => |s.batch|
  }

  /** The part of the batch that is not acknowledged as stored. */
  function Pending(s: State): seq<EventId> {
    if s.phase.Releasing? then [] else s.batch
  }

  /** Every token is free, in the channel, in the batch, or held by an enqueuer. */
  predicate Conserved(s: State) {
    s.slots + |s.queue| + Unreleased(s) + |s.holders| == s.capacity
  }

  /** Accepted events are acknowledged, then pending, then queued, in the order of arrival. */
  predicate Ordered(s: State) {
    s.done <= |s.accepted| && s.accepted[s.done..] == Pending(s) + s.queue
  }

  /** The table holds a prefix of the accepted events, each once: the acknowledged ones and,
      after an ambiguous commit, the batch being retried. */
  predicate Recorded(s: State)
    requires s.done <= |s.accepted|
  {
    || s.records == Insert([], s.accepted[..s.done])
    || (s.phase.Storing? && s.records == Insert([], s.accepted[..s.done] + s.batch))
  }

  ghost predicate Inv(s: State) {
    && |s.batch| <= BATCH
    && Conserved(s)
    && Ordered(s)
    && Recorded(s)
  }

  lemma {:induction false} StoreKeepsOrder(s: State)
    requires Inv(s) && s.phase.Storing?
    ensures s.done + |s.batch| <= |s.accepted|
    ensures s.accepted[..s.done + |s.batch|] == s.accepted[..s.done] + s.batch
    ensures s.accepted[s.done + |s.batch|..] == s.queue
    ensures Insert(s.records, s.batch) == Insert([], s.accepted[..s.done] + s.batch)
  {
    var a, b := s.accepted[..s.done], s.batch;
    assert s.accepted == a + s.accepted[s.done..] == a + b + s.queue;
    InsertAppend([], a, b);
    StoreTwice(Insert([], a), b);
  }

  lemma {:induction false} SendKeepsInv(s: State, caller: Caller)
    requires Inv(s) && Enabled(s, Send(caller))
    ensures Inv(Next(s, Send(caller)))
  {
    var s', e := Next(s, Send(caller)), s.holders[caller];
    assert s'.holders.Keys == s.holders.Keys - {caller};
    assert s'.accepted[..s.done] == s.accepted[..s.done];
    assert s'.accepted[s.done..] == s.accepted[s.done..] + [e];
    assert (Pending(s) + s.queue) + [e] == Pending(s) + (s.queue + [e]);
  }

  lemma {:induction false} ReceiveKeepsInv(s: State)
    requires Inv(s) && Enabled(s, Receive)
    ensures Inv(Next(s, Receive))
  {
    assert s.batch + s.queue == (s.batch + [s.queue[0]]) + s.queue[1..];
  }

  lemma {:induction false} StoreKeepsInv(s: State, step: Step)
    requires Inv(s) && s.phase.Storing? && (step.StoreOk? || step.StoreError?)
    ensures Inv(Next(s, step))
  {
    StoreKeepsOrder(s);
    if step.StoreOk? {
      assert [] + s.queue == s.queue;
    }
  }

  lemma {:induction false} CollectKeepsInv(s: State)
    requires Inv(s) && Enabled(s, Collect)
    ensures Inv(Next(s, Collect))
  {
  }

  lemma {:induction false} AcquireKeepsInv(s: State, caller: Caller, event: EventId)
    requires Inv(s) && Enabled(s, Acquire(caller, event))
    ensures Inv(Next(s, Acquire(caller, event)))
  {
    assert Next(s, Acquire(caller, event)).holders.Keys == s.holders.Keys + {caller};
  }

  /** An enqueuer with a token finds room in the channel. */
  lemma {:induction false} HolderHasRoom(s: State)
    requires Inv(s)
    ensures s.holders != map[] ==> |s.queue| < s.capacity
  {
  }

  /** A commit whose answer is lost has stored the batch, and storing it again adds nothing. */
  lemma {:induction false} LostAnswer(s: State)
    requires s.phase.Storing?
    ensures var t := Next(s, StoreError(true));
      && t.failing && t.phase.Storing? && t.batch == s.batch && (forall e <- s.batch :: e in t.records)
      && Next(t, StoreOk).records == t.records == Next(s, StoreOk).records
      && Next(s, StoreError(false)).records == s.records
  {
    StoreTwice(s.records, s.batch);
    InsertMembers(s.records, s.batch);
  }

  /** Every step keeps the invariant. */
  lemma {:induction false} StepKeepsInv(s: State, step: Step)
    requires Inv(s) && Enabled(s, step)
    ensures Inv(Next(s, step))
  {
    HolderHasRoom(s);
    match step
    case Acquire(caller, event) => AcquireKeepsInv(s, caller, event);
    case Send(caller) => SendKeepsInv(s, caller);
    case Receive => ReceiveKeepsInv(s);
    case StoreOk => StoreKeepsInv(s, step);
    case StoreError(_) => StoreKeepsInv(s, step);
    case Collect => CollectKeepsInv(s);
    case _ =>
  }

  // ---------------------------------------------------------------------------------
  // Runs
  // ---------------------------------------------------------------------------------

  ghost predicate Run(s: State, steps: seq<Step>, s': State)
    decreases |steps|
  {
    if steps == [] then s == s'
    else Enabled(s, steps[0]) && Run(Next(s, steps[0]), steps[1..], s')
  }

  lemma {:induction false} RunKeepsInv(s: State, steps: seq<Step>, s': State)
    requires Inv(s) && Run(s, steps, s')
    ensures Inv(s') && s'.capacity == s.capacity && s.accepted <= s'.accepted
    decreases |steps|
  {
    if steps != [] {
      StepKeepsInv(s, steps[0]);
      RunKeepsInv(Next(s, steps[0]), steps[1..], s');
    }
  }

  // ---------------------------------------------------------------------------------
  // What a run did, told by its steps alone
  // ---------------------------------------------------------------------------------

  /** The event for which the caller last took a token. */
  function HeldBy(steps: seq<Step>, caller: Caller): Option<EventId> {
    if steps == [] then None
    else
      var k := |steps| - 1;
      if steps[k].Acquire? && steps[k].caller == caller then Some(steps[k].event) else HeldBy(steps[..k], caller)
  }

  /** Every send delivers the event for which its caller took the token. */
  function EnqueuedIn(steps: seq<Step>): seq<EventId> {
    if steps == [] then []
    else
      var k := |steps| - 1;
      EnqueuedIn(steps[..k]) +
      if !steps[k].Send? then []
      else match HeldBy(steps[..k], steps[k].caller) case Some(e) => [e] case None => []
  }

  /** The last attempt to store failed. */
  predicate FailingAfter(steps: seq<Step>) {
    steps != [] &&
    (var k := |steps| - 1; steps[k].StoreError? || (!steps[k].StoreOk? && FailingAfter(steps[..k])))
  }

  /** Somebody was rejected since the last batch was stored. */
  predicate SaturatedAfter(steps: seq<Step>) {
    steps != [] &&
    (var k := |steps| - 1;
     steps[k].Reject? || steps[k].GiveBack? || (!steps[k].StoreOk? && SaturatedAfter(steps[..k])))
  }

  lemma {:induction false} RunLast(s: State, steps: seq<Step>, s': State) returns (m: State)
    requires steps != [] && Run(s, steps, s')
    ensures var k := |steps| - 1; Run(s, steps[..k], m) && Enabled(m, steps[k]) && s' == Next(m, steps[k])
    decreases |steps|
  {
    var k := |steps| - 1;
    if k == 0 {
      m := s;
      assert steps[1..] == [] && steps[..0] == [];
    } else {
      m := RunLast(Next(s, steps[0]), steps[1..], s');
      assert steps[..k][1..] == steps[1..][..k - 1] && steps[1..][k - 1] == steps[k];
    }
  }

  /** Accepted events, held events and the two flags are what the steps say. */
  ghost predicate Happened(steps: seq<Step>, s: State) {
    && s.accepted == EnqueuedIn(steps)
    && (forall c <- s.holders :: HeldBy(steps, c) == Some(s.holders[c]))
    && (s.failing <==> FailingAfter(steps))
    && (s.saturated <==> SaturatedAfter(steps))
  }

  lemma {:induction false} HistoryGoesOn(steps: seq<Step>, m: State)
    requires steps != [] && Happened(steps[..|steps| - 1], m) && Enabled(m, steps[|steps| - 1])
    ensures Happened(steps, Next(m, steps[|steps| - 1]))
  {
  }

  /** In every run: what was accepted, event by event, is what the completed enqueues brought; the
      error and the saturation that the health check reports are those of the last attempts. */
  lemma {:induction false} RunHistory(size: int, steps: seq<Step>, s: State)
    requires Run(Start(size), steps, s)
    ensures Happened(steps, s) && s.capacity == if size < 1 then 1000 else size
    decreases |steps|
  {
    if steps != [] {
      var m := RunLast(Start(size), steps, s);
      RunHistory(size, steps[..|steps| - 1], m);
      HistoryGoesOn(steps, m);
    }
  }

  /** In every run: an enqueuer with a token always finds room in the channel, so the inner
      give-back branch is dead; giving back a token never blocks; what is recorded is a
      prefix of what was enqueued, in order and each event once; and nothing acknowledged is
      missing. */
  lemma {:induction false} PipelineGuarantee(size: int, steps: seq<Step>, s: State)
    requires Run(Start(size), steps, s)
    ensures forall caller <- s.holders :: !Enabled(s, GiveBack(caller)) && Enabled(s, Send(caller))
    ensures s.phase.Releasing? && s.phase.left > 0 ==> Enabled(s, Release)
    ensures s.slots == s.capacity <==> s.queue == [] && Unreleased(s) == 0 && s.holders == map[]
    ensures NoDuplicates(s.records)
    ensures var enqueued := EnqueuedIn(steps);
      && s.done <= |enqueued| && (forall i :: 0 <= i < s.done ==> enqueued[i] in s.records)
      && exists n :: s.done <= n <= |enqueued| && s.records == Insert([], enqueued[..n])
  {
    RunKeepsInv(Start(size), steps, s);
    RunHistory(size, steps, s);
    HolderHasRoom(s);
    var n := if s.records == Insert([], s.accepted[..s.done]) then s.done else s.done + |s.batch|;
    if s.records != Insert([], s.accepted[..s.done]) {
      StoreKeepsOrder(s);
    }
    assert s.records == Insert([], s.accepted[..n]);
    RecordedPrefix(s.accepted, n, s.done);
  }

  lemma {:induction false} RecordedPrefix(accepted: seq<EventId>, n: nat, done: nat)
    requires done <= n <= |accepted|
    ensures forall i :: 0 <= i < done ==> accepted[i] in Insert([], accepted[..n])
    ensures NoDuplicates(Insert([], accepted[..n]))
  {
    InsertMembers([], accepted[..n]);
    forall i | 0 <= i < done
      ensures accepted[i] in Insert([], accepted[..n])
    {
      assert accepted[..n][i] == accepted[i];
    }
  }

  // ---------------------------------------------------------------------------------
  // Who does what
  // ---------------------------------------------------------------------------------

  datatype Actor = Enqueuer(caller: Caller) | Storer

  function ActorOf(step: Step): Actor {
    match step
    case Acquire(caller, _) => Enqueuer(caller)
    case Reject(caller, _) => Enqueuer(caller)
    case Send(caller) => Enqueuer(caller)
    case GiveBack(caller) => Enqueuer(caller)
    case _ => Storer
  }

  /** The steps of one actor. */
  function Of(steps: seq<Step>, who: Actor): seq<Step> {
    if steps == [] then []
    else Of(steps[..|steps| - 1], who) + if ActorOf(steps[|steps| - 1]) == who then [steps[|steps| - 1]] else []
  }

  lemma {:induction false} OfSnoc(steps: seq<Step>, step: Step, who: Actor)
    ensures Of(steps + [step], who) == Of(steps, who) + if ActorOf(step) == who then [step] else []
  {
    assert (steps + [step])[..|steps|] == steps;
  }

  lemma {:induction false} RunSnoc(s: State, steps: seq<Step>, m: State, step: Step)
    requires Run(s, steps, m) && Enabled(m, step)
    ensures Run(s, steps + [step], Next(m, step))
    decreases |steps|
  {
    var more := steps + [step];
    if steps == [] {
      assert more[0] == step && more[1..] == [];
    } else {
      RunSnoc(Next(s, steps[0]), steps[1..], m, step);
      assert more[0] == steps[0] && more[1..] == steps[1..] + [step];
    }
  }

  /** What an actor can rely on while the others run. */
  ghost predicate Undisturbed(s: State, s': State, who: Actor) {
    match who
    case Enqueuer(c) => (c in s'.holders <==> c in s.holders) && (c in s.holders ==> s'.holders[c] == s.holders[c])
    case Storer =>
      && s'.phase == s.phase && s'.batch == s.batch && s'.done == s.done && s'.records == s.records
      && s'.failing == s.failing && s.queue <= s'.queue
  }

  lemma {:induction false} OthersStep(s: State, step: Step, who: Actor)
    requires Enabled(s, step) && ActorOf(step) != who
    ensures Undisturbed(s, Next(s, step), who) && s.accepted <= Next(s, step).accepted
  {
  }

  lemma {:induction false} StillUndisturbed(s: State, m: State, step: Step, who: Actor)
    requires Undisturbed(s, m, who) && s.accepted <= m.accepted && Enabled(m, step) && ActorOf(step) != who
    ensures Undisturbed(s, Next(m, step), who) && s.accepted <= Next(m, step).accepted
  {
    OthersStep(m, step, who);
  }

  // ---------------------------------------------------------------------------------
  // The methods, with everybody else running in between
  // ---------------------------------------------------------------------------------

  class AuditPipeline {
    var state: State

    constructor (size: int)
      ensures state == Start(size) && Inv(state)
    {
      state := Start(size);
    }

    /** Perform one step and extend the run that led here. */
    method Act(step: Step, ghost who: Actor, ghost start: State, ghost before: seq<Step>)
      returns (ghost steps: seq<Step>)
      requires Inv(state) && Run(start, before, state) && Enabled(state, step)
      modifies this
      ensures Inv(state) && Run(start, steps, state) && state == Next(old(state), step)
      ensures Of(steps, who) == Of(before, who) + if ActorOf(step) == who then [step] else []
    {
      StepKeepsInv(state, step);
      RunSnoc(start, before, state, step);
      OfSnoc(before, step, who);
      steps := before + [step];
      state := Next(state, step);
    }

    /** Any number of steps of the others. */
    method Others(who: Actor, ghost start: State, ghost before: seq<Step>) returns (ghost steps: seq<Step>)
      requires Inv(state) && Run(start, before, state)
      modifies this
      ensures Inv(state) && Run(start, steps, state) && Of(steps, who) == Of(before, who)
      ensures Undisturbed(old(state), state, who) && old(state).accepted <= state.accepted
    {
      steps := before;
      var n: nat :| n >= 0;
      for i := 0 to n
        invariant Inv(state) && Run(start, steps, state) && Of(steps, who) == Of(before, who)
        invariant Undisturbed(old(state), state, who) && old(state).accepted <= state.accepted
      {
        var step: Step := *;
        if Enabled(state, step) && ActorOf(step) != who {
          StillUndisturbed(old(state), state, step, who);
          steps := Act(step, who, start, steps);
        }
      }
    }

    /** Whatever the other enqueuers and the storing goroutine do meanwhile: the caller takes a
        token and sends its event, or finds no token and is rejected. */
    method Enqueue(caller: Caller, event: EventId) returns (ok: bool, ghost steps: seq<Step>)
      requires Inv(state) && caller !in state.holders
      modifies this
      ensures Inv(state) && Run(old(state), steps, state) && caller !in state.holders
      ensures Of(steps, Enqueuer(caller))
           == if ok then [Acquire(caller, event), Send(caller)] else [Reject(caller, event)]
      ensures old(state).accepted <= state.accepted
      ensures ok ==> event in state.accepted[|old(state).accepted|..]
    {
      ghost var start := state;
      steps := Others(Enqueuer(caller), start, []);
      if state.slots > 0 {
        steps := Act(Acquire(caller, event), Enqueuer(caller), start, steps);
        steps := SendHeld(caller, start, steps);
        return true, steps;
      }
      steps := Act(Reject(caller, event), Enqueuer(caller), start, steps);
      return false, steps;
    }

    /** With a token in hand there is always room, so the event is sent and never given back. */
    method SendHeld(caller: Caller, ghost start: State, ghost before: seq<Step>) returns (ghost steps: seq<Step>)
      requires Inv(state) && Run(start, before, state) && caller in state.holders
      modifies this
      ensures Inv(state) && Run(start, steps, state) && caller !in state.holders
      ensures Of(steps, Enqueuer(caller)) == Of(before, Enqueuer(caller)) + [Send(caller)]
      ensures old(state).accepted <= state.accepted
      ensures old(state).holders[caller] in state.accepted[|old(state).accepted|..]
    {
      steps := Others(Enqueuer(caller), start, before);
      HolderHasRoom(state);
      ghost var n := |state.accepted|;
      steps := Act(Send(caller), Enqueuer(caller), start, steps);
      steps := Others(Enqueuer(caller), start, steps);
      assert state.accepted[n] in state.accepted[|old(state).accepted|..];
    }

    /** Take events from the channel until the batch is full or the channel is found empty.  The
        batch is then the oldest accepted events that are not stored yet. */
    method FillBatch() returns (ghost steps: seq<Step>)
      requires Inv(state) && state.phase.Collecting? && (state.batch != [] || state.queue != [])
      modifies this
      ensures Inv(state) && Run(old(state), steps, state) && state.phase.Storing? && state.done == old(state).done
      ensures old(state).batch <= state.batch && 0 < |state.batch| <= 100
      ensures |state.batch| < 100 ==> state.queue == []
      ensures state.done + |state.batch| <= |state.accepted|
      ensures state.batch == state.accepted[state.done..state.done + |state.batch|]
    {
      ghost var start := state;
      steps := [];
      while |state.batch| < BATCH && state.queue != []
        invariant Inv(state) && Run(start, steps, state) && state.phase.Collecting? && state.done == old(state).done
        invariant old(state).batch <= state.batch && (state.batch != [] || state.queue != [])
        decreases BATCH - |state.batch|
      {
        steps := ReceiveOne(start, steps);
      }
      steps := Act(Flush, Storer, start, steps);
      BatchIsOldest(state);
    }

    method ReceiveOne(ghost start: State, ghost before: seq<Step>) returns (ghost steps: seq<Step>)
      requires Inv(state) && Run(start, before, state)
      requires state.phase.Collecting? && |state.batch| < BATCH && state.queue != []
      modifies this
      ensures Inv(state) && Run(start, steps, state) && state.phase.Collecting? && state.done == old(state).done
      ensures state.batch == old(state).batch + [old(state).queue[0]]
    {
      steps := Act(Receive, Storer, start, before);
      steps := Others(Storer, start, steps);
    }

    /** One attempt to store the batch.  After a reported commit exactly the tokens of the batch
        go back, one by one; a failed attempt keeps the batch and its tokens. */
    method StoreOnce() returns (ok: bool, ghost steps: seq<Step>)
      requires Inv(state) && state.phase.Storing?
      modifies this
      ensures Inv(state) && Run(old(state), steps, state)
      ensures ok ==> state.phase.Collecting? && state.batch == [] && state.done == old(state).done + |old(state).batch|
      ensures ok ==> Of(steps, Storer) == [StoreOk] + Releases(|old(state).batch|) + [Collect]
      ensures !ok ==> state.phase.Storing? && state.batch == old(state).batch && state.failing
      ensures !ok ==> state.done == old(state).done
      ensures !ok ==> |Of(steps, Storer)| == 1 && Of(steps, Storer)[0].StoreError?
    {
      ghost var start := state;
      steps := [];
      ok := *;
      if !ok {
        var committed: bool := *;
        steps := Act(StoreError(committed), Storer, start, steps);
        steps := Others(Storer, start, steps);
        return;
      }
      steps := Act(StoreOk, Storer, start, steps);
      steps := ReleaseAll(start, steps);
      assert [] + [StoreOk] == [StoreOk];
      steps := Act(Collect, Storer, start, steps);
    }

    /** Give back the tokens of a stored batch. */
    method ReleaseAll(ghost start: State, ghost before: seq<Step>) returns (ghost steps: seq<Step>)
      requires Inv(state) && Run(start, before, state) && state.phase.Releasing?
      modifies this
      ensures Inv(state) && Run(start, steps, state) && state.phase == Releasing(0) && state.done == old(state).done
      ensures Of(steps, Storer) == Of(before, Storer) + Releases(old(state).phase.left)
    {
      steps := before;
      ghost var given := 0;
      while state.phase.left > 0
        invariant Inv(state) && Run(start, steps, state) && state.phase.Releasing? && state.done == old(state).done
        invariant given + state.phase.left == old(state).phase.left
        invariant Of(steps, Storer) == Of(before, Storer) + Releases(given)
        decreases state.phase.left
      {
        steps := ReleaseOne(start, steps);
        ReleasesSnoc(Of(before, Storer), given);
        given := given + 1;
      }
    }

    method ReleaseOne(ghost start: State, ghost before: seq<Step>) returns (ghost steps: seq<Step>)
      requires Inv(state) && Run(start, before, state) && state.phase.Releasing? && state.phase.left > 0
      modifies this
      ensures Inv(state) && Run(start, steps, state)
      ensures state.phase == Releasing(old(state).phase.left - 1) && state.done == old(state).done
      ensures Of(steps, Storer) == Of(before, Storer) + [Release]
    {
      steps := Act(Release, Storer, start, before);
      steps := Others(Storer, start, steps);
    }
  }

  function Releases(n: nat): seq<Step> { seq(n, _ => Release) }

  lemma {:induction false} ReleasesSnoc(steps: seq<Step>, n: nat)
    ensures (steps + Releases(n)) + [Release] == steps + Releases(n + 1)
  {
  }

  lemma {:induction false} BatchIsOldest(s: State)
    requires Inv(s) && s.phase.Storing?
    ensures s.done + |s.batch| <= |s.accepted| && s.batch == s.accepted[s.done..s.done + |s.batch|]
  {
    StoreKeepsOrder(s);
    assert s.accepted[s.done..][..|s.batch|] == s.batch;
  }
}
