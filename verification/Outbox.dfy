/** The transactional outbox: internal/storage/postgres.go and the dispatcher of
    internal/events/events.go, as a protocol of atomic statements that any number of
    dispatchers interleave, with failures and crashes anywhere.  Times are milliseconds. */
module Outbox {
  import opened ByteStrings

  const MAX_ATTEMPTS: nat := 12
  const LEASE: nat := 30_000

  type EventId = string
  type SessionId = nat

  datatype Row = Row(createdAt: int, availableAt: int, leaseUntil: Option<int>, attempts: nat, publishedAt: Option<int>)

  /** One claim of one event: the attempt number tells the claims of an event apart. */
  datatype Ticket = Ticket(event: EventId, attempt: nat)

  /** A dispatcher at work on one claimed batch.  A gateway without brokers still runs a
      dispatcher, whose publisher reports success without sending. */
  datatype Session = Session(publisher: bool, todo: seq<Ticket>, failed: Option<Ticket>, published: seq<EventId>)

  /** The database, the clock, what was sent to Kafka, what it acknowledged, and what was
      reported as published without a publisher. */
  datatype State = State(now: int, records: set<EventId>, outbox: map<EventId, Row>, sent: seq<Ticket>,
                         acked: set<EventId>, skipped: set<EventId>, sessions: map<SessionId, Session>)

  // ---------------------------------------------------------------------------------
  // Statements
  // ---------------------------------------------------------------------------------

  predicate Claimable(row: Row, now: int) {
    && row.publishedAt.None? && row.attempts < MAX_ATTEMPTS && row.availableAt <= now
    && (row.leaseUntil.None? || row.leaseUntil.value < now)
  }

  function ClaimableIds(s: State): set<EventId> {
    set e | e in s.outbox && Claimable(s.outbox[e], s.now)
  }

  function IdSet(ids: seq<EventId>): set<EventId> {
    set e | e in ids
  }

  /** `ON CONFLICT DO NOTHING`: an event that is already there keeps its row. */
  function WithEvent(s: State, e: EventId, outboxEnabled: bool): State {
    s.(records := s.records + {e},
       outbox := if outboxEnabled && e !in s.outbox then s.outbox[e := Row(s.now, s.now, None, 0, None)] else s.outbox)
  }

  function WithEvents(s: State, events: seq<EventId>, outboxEnabled: bool): State {
    if events == [] then s
    else WithEvent(WithEvents(s, events[..|events| - 1], outboxEnabled), events[|events| - 1], outboxEnabled)
  }

  function Leased(row: Row, now: int): Row {
    row.(leaseUntil := Some(now + LEASE), attempts := row.attempts + 1)
  }

  function AfterClaim(outbox: map<EventId, Row>, ids: seq<EventId>, now: int): map<EventId, Row> {
    map e | e in outbox :: if e in ids then Leased(outbox[e], now) else outbox[e]
  }

  function TicketsOf(outbox: map<EventId, Row>, ids: seq<EventId>): (tickets: seq<Ticket>)
    requires forall e <- ids :: e in outbox
    ensures |tickets| == |ids|
    ensures forall i :: 0 <= i < |ids| ==> tickets[i] == Ticket(ids[i], outbox[ids[i]].attempts + 1)
  {
    seq(|ids|, i requires 0 <= i < |ids| => Ticket(ids[i], outbox[ids[i]].attempts + 1))
  }

  function PowerOfTwo(n: nat): nat {
    if n == 0 then 1 else 2 * PowerOfTwo(n - 1)
  }

  /** Exponential backoff of `RetryOutbox`, with its cap of five minutes. */
  function Backoff(attempts: nat): nat {
    var shift := if attempts == 0 then 0 else if attempts - 1 < 8 then attempts - 1 else 8;
    var delay := 1000 * PowerOfTwo(shift);
    if delay > 300_000 then 300_000 else delay
  }

  function AfterRetry(outbox: map<EventId, Row>, t: Ticket, now: int): map<EventId, Row> {
    if t.event in outbox
    then outbox[t.event := outbox[t.event].(leaseUntil := None, availableAt := now + Backoff(t.attempt))]
    else outbox
  }

  function AfterMark(outbox: map<EventId, Row>, ids: seq<EventId>, now: int): map<EventId, Row> {
    map e | e in outbox :: if e in ids then outbox[e].(publishedAt := Some(now), leaseUntil := None) else outbox[e]
  }

  // ---------------------------------------------------------------------------------
  // Steps
  // ---------------------------------------------------------------------------------

  /** How a call to the publisher ends: acknowledged; failed after the event was sent or
      before; or skipped, by a publisher that is not there. */
  datatype Delivery = Acknowledged | Unacknowledged | NotSent | Skipped

  predicate Succeeds(d: Delivery) { d.Acknowledged? || d.Skipped? }

  datatype Step =
    | Tick(ms: nat)
    | Store(events: seq<EventId>, outboxEnabled: bool)
    /** A claim commits; if the dispatcher dies before it reads the answer, nobody works on it. */
    | Claim(session: SessionId, publisher: bool, ids: seq<EventId>, answered: bool)
    /** The next event is published; without an acknowledgement it may have arrived or not. */
    | Publish(session: SessionId, delivery: Delivery)
    | Retry(session: SessionId, effective: bool)
    | Mark(session: SessionId, effective: bool)
    | Crash(session: SessionId)

  /** A missing publisher skips; a payload that does not decode is never sent. */
  predicate Possible(publisher: bool, delivery: Delivery) {
    if publisher then !delivery.Skipped? else delivery.Skipped? || delivery.NotSent?
  }

  ghost predicate Enabled(s: State, step: Step) {
    match step
    case Tick(_) => true
    case Store(_, _) => true
    case Claim(session, _, ids, _) =>
      session !in s.sessions && NoDuplicates(ids) && forall e <- ids :: e in ClaimableIds(s)
    case Publish(session, delivery) =>
      && session in s.sessions && s.sessions[session].failed.None? && s.sessions[session].todo != []
      && Possible(s.sessions[session].publisher, delivery)
    case Retry(session, _) => session in s.sessions && s.sessions[session].failed.Some?
    case Mark(session, _) => session in s.sessions && s.sessions[session].failed.None? && s.sessions[session].todo == []
    case Crash(session) => session in s.sessions
  }

  function Next(s: State, step: Step): State
    requires Enabled(s, step)
  {
    match step
    case Tick(ms) => s.(now := s.now + ms)
    case Store(events, outboxEnabled) => WithEvents(s, events, outboxEnabled)
    case Claim(session, publisher, ids, answered) =>
      assert forall e <- ids :: e in s.outbox;
      var w := Session(publisher, TicketsOf(s.outbox, ids), None, []);
      s.(outbox := AfterClaim(s.outbox, ids, s.now),
         sessions := if answered then s.sessions[session := w] else s.sessions)
    case Publish(session, delivery) =>
      var w := s.sessions[session];
      var t := w.todo[0];
      var w' := if Succeeds(delivery) then w.(todo := w.todo[1..], published := w.published + [t.event])
                else w.(todo := w.todo[1..], failed := Some(t));
      s.(sent := if delivery.Acknowledged? || delivery.Unacknowledged? then s.sent + [t] else s.sent,
         acked := if delivery.Acknowledged? then s.acked + {t.event} else s.acked,
         skipped := if delivery.Skipped? then s.skipped + {t.event} else s.skipped,
         sessions := s.sessions[session := w'])
    case Retry(session, effective) =>
      var w := s.sessions[session];
      s.(outbox := if effective then AfterRetry(s.outbox, w.failed.value, s.now) else s.outbox,
         sessions := s.sessions[session := w.(failed := None)])
    case Mark(session, effective) =>
      s.(outbox := if effective then AfterMark(s.outbox, s.sessions[session].published, s.now) else s.outbox,
         sessions := s.sessions - {session})
    case Crash(session) => s.(sessions := s.sessions - {session})
  }

  // ---------------------------------------------------------------------------------
  // Invariant
  // ---------------------------------------------------------------------------------

  ghost predicate Issued(s: State, t: Ticket) {
    t.event in s.outbox && 1 <= t.attempt <= s.outbox[t.event].attempts
  }

  ghost predicate RowsOk(s: State) {
    forall e <- s.outbox ::
      && e in s.records
      && s.outbox[e].attempts <= MAX_ATTEMPTS
      && (s.outbox[e].publishedAt.Some? ==> e in s.acked || e in s.skipped)
  }

  ghost predicate SessionOk(s: State, w: Session) {
    && NoDuplicates(w.todo)
    && (forall t <- w.todo :: Issued(s, t) && t !in s.sent)
    && (w.failed.Some? ==> w.failed.value.attempt >= 1)
    && (forall e <- w.published :: e in s.acked || e in s.skipped)
  }

  ghost predicate SessionsOk(s: State) {
    && (forall k <- s.sessions :: SessionOk(s, s.sessions[k]))
    && (forall k, l :: k in s.sessions && l in s.sessions && k != l ==>
          forall t <- s.sessions[k].todo :: t !in s.sessions[l].todo)
  }

  ghost predicate SentOk(s: State) {
    && NoDuplicates(s.sent)
    && (forall t <- s.sent :: Issued(s, t))
    && (forall e <- s.acked :: exists i :: 0 <= i < |s.sent| && s.sent[i].event == e)
  }

  ghost predicate Inv(s: State) {
    RowsOk(s) && SentOk(s) && SessionsOk(s)
  }

  lemma {:induction false} StoreKeepsRows(s: State, events: seq<EventId>, outboxEnabled: bool)
    ensures var s' := WithEvents(s, events, outboxEnabled);
      && s'.(records := s.records, outbox := s.outbox) == s
      && s.records <= s'.records
      && (forall e <- s.outbox :: e in s'.outbox && s'.outbox[e] == s.outbox[e])
      && (forall e <- s'.outbox ::
            e in s.outbox || (e in s'.records && s'.outbox[e] == Row(s.now, s.now, None, 0, None)))
    decreases |events|
  {
    if events != [] {
      StoreKeepsRows(s, events[..|events| - 1], outboxEnabled);
    }
  }

  /** A batch is recorded whatever the switch; with the outbox enabled each of its events has a
      row, claimable at once if it is new, and rows that were there stay as they were. */
  lemma {:induction false} StoreExactly(s: State, events: seq<EventId>, outboxEnabled: bool)
    ensures var s', queued := WithEvents(s, events, outboxEnabled), if outboxEnabled then IdSet(events) else {};
      && s'.records == s.records + IdSet(events)
      && s'.outbox.Keys == s.outbox.Keys + queued
      && ClaimableIds(s') == ClaimableIds(s) + (queued - s.outbox.Keys)
    decreases |events|
  {
    if events != [] {
      var k := |events| - 1;
      StoreExactly(s, events[..k], outboxEnabled);
      StoreOneExactly(WithEvents(s, events[..k], outboxEnabled), events[k], outboxEnabled);
      assert IdSet(events) == IdSet(events[..k]) + {events[k]};
    }
  }

  lemma {:induction false} StoreOneExactly(s: State, e: EventId, outboxEnabled: bool)
    ensures var s', queued := WithEvent(s, e, outboxEnabled), if outboxEnabled then {e} else {};
      && s'.records == s.records + {e}
      && s'.outbox.Keys == s.outbox.Keys + queued
      && ClaimableIds(s') == ClaimableIds(s) + (queued - s.outbox.Keys)
  {
  }

  /** Rows may be added and attempts may grow: issued tickets stay issued. */
  ghost predicate Grows(s: State, s': State) {
    forall e <- s.outbox :: e in s'.outbox && s.outbox[e].attempts <= s'.outbox[e].attempts
  }

  lemma {:induction false} StoreKeepsInv(s: State, events: seq<EventId>, outboxEnabled: bool)
    requires Inv(s)
    ensures Inv(WithEvents(s, events, outboxEnabled))
  {
    StoreKeepsRows(s, events, outboxEnabled);
    var s' := WithEvents(s, events, outboxEnabled);
    assert s'.sent == s.sent && s'.acked == s.acked && s'.skipped == s.skipped && s'.sessions == s.sessions;
    assert forall t :: Issued(s, t) ==> Issued(s', t);
    assert forall k <- s.sessions :: SessionOk(s, s.sessions[k]);
  }

  /** A claim issues tickets that nobody has seen before. */
  lemma {:induction false} ClaimKeepsInv(s: State, session: SessionId, publisher: bool, ids: seq<EventId>,
                                         answered: bool)
    requires Inv(s) && Enabled(s, Claim(session, publisher, ids, answered))
    ensures Inv(Next(s, Claim(session, publisher, ids, answered)))
  {
    var s' := Next(s, Claim(session, publisher, ids, answered));
    var tickets := TicketsOf(s.outbox, ids);
    assert forall t :: Issued(s, t) ==> Issued(s', t);
    forall t | t in tickets
      ensures Issued(s', t) && !Issued(s, t)
    {
      var i :| 0 <= i < |tickets| && tickets[i] == t;
      assert ids[i] in ids;
    }
    assert NoDuplicates(tickets);
    forall k | k in s.sessions
      ensures SessionOk(s', s.sessions[k])
    {
      assert SessionOk(s, s.sessions[k]);
    }
    if answered {
      assert SessionOk(s', Session(publisher, tickets, None, []));
    }
  }

  lemma {:induction false} PublishKeepsInv(s: State, session: SessionId, delivery: Delivery)
    requires Inv(s) && Enabled(s, Publish(session, delivery))
    ensures Inv(Next(s, Publish(session, delivery)))
  {
    var s' := Next(s, Publish(session, delivery));
    var w, w' := s.sessions[session], s'.sessions[session];
    var t := w.todo[0];
    assert SessionOk(s, w) && t in w.todo;
    RestOfTodo(w.todo);
    forall k | k in s.sessions && k != session
      ensures SessionOk(s', s.sessions[k])
    {
      assert SessionOk(s, s.sessions[k]);
      assert t !in s.sessions[k].todo;
    }
    PublishKeepsSent(s, s', t, delivery);
  }

  lemma {:induction false} RestOfTodo(todo: seq<Ticket>)
    requires todo != [] && NoDuplicates(todo)
    ensures NoDuplicates(todo[1..]) && forall u <- todo[1..] :: u in todo && u != todo[0]
  {
    forall u | u in todo[1..]
      ensures u in todo && u != todo[0]
    {
      var i :| 0 <= i < |todo[1..]| && todo[1..][i] == u;
      assert todo[i + 1] == u;
    }
  }

  lemma {:induction false} PublishKeepsSent(s: State, s': State, t: Ticket, delivery: Delivery)
    requires SentOk(s) && Issued(s, t) && t !in s.sent && s'.outbox == s.outbox
    requires s'.sent == if delivery.Acknowledged? || delivery.Unacknowledged? then s.sent + [t] else s.sent
    requires s'.acked == if delivery.Acknowledged? then s.acked + {t.event} else s.acked
    ensures SentOk(s')
  {
    if delivery.Acknowledged? {
      assert s'.sent[|s.sent|].event == t.event;
    }
    forall e | e in s.acked
      ensures exists i :: 0 <= i < |s'.sent| && s'.sent[i].event == e
    {
      var i :| 0 <= i < |s.sent| && s.sent[i].event == e;
      assert s'.sent[i].event == e;
    }
  }

  lemma {:induction false} SameTicketsKeepInv(s: State, s': State)
    requires Inv(s) && RowsOk(s')
    requires s'.sent == s.sent && s'.acked == s.acked && s'.skipped == s.skipped && Grows(s, s')
    requires forall k <- s'.sessions ::
               && k in s.sessions && s'.sessions[k].todo == s.sessions[k].todo
               && s'.sessions[k].published == s.sessions[k].published
               && (s'.sessions[k].failed.None? || s'.sessions[k].failed == s.sessions[k].failed)
    ensures Inv(s')
  {
    assert forall t :: Issued(s, t) ==> Issued(s', t);
    forall k | k in s'.sessions
      ensures SessionOk(s', s'.sessions[k])
    {
      assert SessionOk(s, s.sessions[k]);
    }
  }

  /** Every step keeps the invariant. */
  lemma {:induction false} StepKeepsInv(s: State, step: Step)
    requires Inv(s) && Enabled(s, step)
    ensures Inv(Next(s, step))
  {
    match step
    case Store(events, outboxEnabled) => StoreKeepsInv(s, events, outboxEnabled);
    case Claim(session, publisher, ids, answered) => ClaimKeepsInv(s, session, publisher, ids, answered);
    case Publish(session, delivery) => PublishKeepsInv(s, session, delivery);
    case Mark(session, effective) =>
      assert SessionOk(s, s.sessions[session]);
      SameTicketsKeepInv(s, Next(s, step));
    case _ => SameTicketsKeepInv(s, Next(s, step));
  }

  // ---------------------------------------------------------------------------------
  // Runs
  // ---------------------------------------------------------------------------------

  /** `steps` leads from `s` to `s'`. */
  ghost predicate Run(s: State, steps: seq<Step>, s': State)
    decreases |steps|
  {
    if steps == [] then s == s'
    else Enabled(s, steps[0]) && Run(Next(s, steps[0]), steps[1..], s')
  }

  ghost predicate Initial(s: State) {
    s.outbox == map[] && s.sent == [] && s.acked == {} && s.skipped == {} && s.sessions == map[]
  }

  lemma {:induction false} RunKeepsInv(s: State, steps: seq<Step>, s': State)
    requires Inv(s) && Run(s, steps, s')
    ensures Inv(s')
    decreases |steps|
  {
    if steps != [] {
      StepKeepsInv(s, steps[0]);
      RunKeepsInv(Next(s, steps[0]), steps[1..], s');
    }
  }

  function SendsOf(sent: seq<Ticket>, e: EventId): nat {
    if sent == [] then 0
    else SendsOf(sent[..|sent| - 1], e) + if sent[|sent| - 1].event == e then 1 else 0
  }

  function UsedAttempts(sent: seq<Ticket>, e: EventId): set<nat> {
    set t | t in sent && t.event == e :: t.attempt
  }

  lemma {:induction false} SendsCounted(sent: seq<Ticket>, e: EventId)
    requires NoDuplicates(sent)
    ensures |UsedAttempts(sent, e)| == SendsOf(sent, e)
  {
    if sent != [] {
      var k := |sent| - 1;
      SendsCounted(sent[..k], e);
      UsedSnoc(sent[..k], sent[k], e);
      assert sent == sent[..k] + [sent[k]] && sent[k] !in sent[..k];
    }
  }

  lemma {:induction false} UsedSnoc(sent: seq<Ticket>, t: Ticket, e: EventId)
    requires t !in sent
    ensures UsedAttempts(sent + [t], e) == UsedAttempts(sent, e) + if t.event == e then {t.attempt} else {}
    ensures t.event == e ==> t.attempt !in UsedAttempts(sent, e)
  {
    assert forall u :: u in sent + [t] <==> u in sent || u == t;
  }

  /** Distinct tickets of one event are no more than the attempts they number. */
  lemma {:induction false} SendsBounded(sent: seq<Ticket>, e: EventId, bound: nat)
    requires NoDuplicates(sent)
    requires forall t <- sent :: t.event == e ==> 1 <= t.attempt <= bound
    ensures SendsOf(sent, e) <= bound
  {
    SendsCounted(sent, e);
    Range(UsedAttempts(sent, e), bound);
  }

  lemma {:induction false} Range(s: set<nat>, n: nat)
    requires forall a <- s :: 1 <= a <= n
    ensures |s| <= n
  {
    if n == 0 {
      assert forall a :: a !in s;
    } else {
      Range(s - {n}, n - 1);
      assert n in s ==> |s - {n}| == |s| - 1;
      assert n !in s ==> s - {n} == s;
    }
  }

  /** In every run, with any number of dispatchers, failures and crashes: a row marked
      published was acknowledged by Kafka or skipped by a dispatcher without a publisher, and
      no event is published more than 12 times. */
  lemma {:induction false} DeliveryGuarantee(s: State, steps: seq<Step>, s': State, e: EventId)
    requires Initial(s) && Run(s, steps, s')
    ensures e in s'.outbox ==>
      && e in s'.records
      && s'.outbox[e].attempts <= 12
      && (s'.outbox[e].publishedAt.Some? ==> e in s'.skipped || (e in s'.acked && SendsOf(s'.sent, e) >= 1))
    ensures SendsOf(s'.sent, e) <= 12
  {
    RunKeepsInv(s, steps, s');
    SendsBounded(s'.sent, e, MAX_ATTEMPTS);
    if e in s'.outbox && e in s'.acked {
      var i :| 0 <= i < |s'.sent| && s'.sent[i].event == e;
      SendsPositive(s'.sent, i);
    }
  }

  lemma {:induction false} SendsPositive(sent: seq<Ticket>, i: nat)
    requires i < |sent|
    ensures SendsOf(sent, sent[i].event) >= 1
  {
    if i < |sent| - 1 {
      SendsPositive(sent[..|sent| - 1], i);
    }
  }

  /** Whether the dispatchers of a run have a publisher. */
  predicate Configured(steps: seq<Step>, publisher: bool) {
    forall i :: 0 <= i < |steps| && steps[i].Claim? ==> steps[i].publisher == publisher
  }

  lemma {:induction false} NothingSkipped(s: State, steps: seq<Step>, s': State)
    requires Run(s, steps, s') && Configured(steps, true)
    requires s.skipped == {} && forall k <- s.sessions :: s.sessions[k].publisher
    ensures s'.skipped == {}
    decreases |steps|
  {
    if steps != [] {
      var t := Next(s, steps[0]);
      if steps[0].Store? {
        StoreKeepsRows(s, steps[0].events, steps[0].outboxEnabled);
      }
      assert steps[0].Claim? ==> steps[0].publisher;
      assert forall k <- t.sessions :: t.sessions[k].publisher;
      NothingSkipped(t, steps[1..], s');
    }
  }

  predicate Published(s: State, e: EventId) {
    e in s.outbox && s.outbox[e].publishedAt.Some?
  }

  /** Published means acknowledged, in every run of dispatchers that do or do not have a
      publisher. */
  ghost predicate PublishedIsAcknowledged(publisher: bool) {
    forall s, steps, s', e :: Initial(s) && Run(s, steps, s') && Configured(steps, publisher) && Published(s', e)
      ==> e in s'.acked
  }

  /** A gateway whose brokers were removed marks a leftover row as published without sending it. */
  lemma {:induction false} UnsentButPublished(now: int, e: EventId) returns (s': State)
    ensures var s := State(now, {}, map[], [], {}, {}, map[]);
      && Initial(s)
      && Run(s, [Store([e], true), Claim(0, false, [e], true), Publish(0, Skipped), Mark(0, true)], s')
    ensures Published(s', e) && s'.sent == [] && s'.acked == {}
  {
    var s0 := State(now, {}, map[], [], {}, {}, map[]);
    assert WithEvents(s0, [], true) == s0 && [e][..0] == [];
    var s1 := Next(s0, Store([e], true));
    var s2 := Next(s1, Claim(0, false, [e], true));
    var s3 := Next(s2, Publish(0, Skipped));
    s' := Next(s3, Mark(0, true));
    assert Run(s', [], s');
    assert Run(s3, [Mark(0, true)], s');
    assert Run(s2, [Publish(0, Skipped), Mark(0, true)], s');
    assert Run(s1, [Claim(0, false, [e], true), Publish(0, Skipped), Mark(0, true)], s');
  }

  /** Exactly when: published means acknowledged if and only if the dispatchers have a
      publisher. */
  lemma {:induction false} AcknowledgedIffConfigured(publisher: bool)
    ensures PublishedIsAcknowledged(publisher) <==> publisher
  {
    if publisher {
      forall s, steps, s', e | Initial(s) && Run(s, steps, s') && Configured(steps, publisher) && Published(s', e)
        ensures e in s'.acked
      {
        NothingSkipped(s, steps, s');
        DeliveryGuarantee(s, steps, s', e);
      }
    } else {
      var s' := UnsentButPublished(0, "");
      assert "" !in s'.acked;
    }
  }

  /** A published row is never claimed, and hence never leased or counted, again. */
  lemma {:induction false} PublishedIsFinal(s: State, steps: seq<Step>, s': State, e: EventId)
    requires Run(s, steps, s')
    requires e in s.outbox && s.outbox[e].publishedAt.Some?
    ensures e in s'.outbox && s'.outbox[e].publishedAt.Some? && s'.outbox[e].attempts == s.outbox[e].attempts
    decreases |steps|
  {
    if steps != [] {
      var t := Next(s, steps[0]);
      if steps[0].Store? {
        StoreKeepsRows(s, steps[0].events, steps[0].outboxEnabled);
      }
      assert e in t.outbox && t.outbox[e].publishedAt.Some? && t.outbox[e].attempts == s.outbox[e].attempts;
      PublishedIsFinal(t, steps[1..], s', e);
    }
  }

  // ---------------------------------------------------------------------------------
  // What a run did, told by its steps alone
  // ---------------------------------------------------------------------------------

  function Elapsed(steps: seq<Step>): nat {
    if steps == [] then 0 else (if steps[0].Tick? then steps[0].ms else 0) + Elapsed(steps[1..])
  }

  /** The events that were stored, with the outbox enabled or not. */
  function EventsIn(steps: seq<Step>): set<EventId> {
    if steps == [] then {} else (if steps[0].Store? then IdSet(steps[0].events) else {}) + EventsIn(steps[1..])
  }

  function QueuedIn(steps: seq<Step>): set<EventId> {
    if steps == [] then {} else Stored(steps[0]) + QueuedIn(steps[1..])
  }

  /** How often an event was claimed. */
  function ClaimsOf(steps: seq<Step>, e: EventId): nat {
    if steps == [] then 0
    else (if steps[0].Claim? && e in steps[0].ids then 1 else 0) + ClaimsOf(steps[1..], e)
  }

  /** The calls that reached Kafka. */
  function SendsIn(steps: seq<Step>): nat {
    if steps == [] then 0
    else
      (if steps[0].Publish? && (steps[0].delivery.Acknowledged? || steps[0].delivery.Unacknowledged?) then 1 else 0)
      + SendsIn(steps[1..])
  }

  function AttemptsOf(s: State, e: EventId): nat {
    if e in s.outbox then s.outbox[e].attempts else 0
  }

  /** The clock, the tables and the log of Kafka tell what the steps say. */
  ghost predicate Happened(s: State, steps: seq<Step>, s': State, e: EventId) {
    && s'.now == s.now + Elapsed(steps)
    && s'.records == s.records + EventsIn(steps)
    && s'.outbox.Keys == s.outbox.Keys + QueuedIn(steps)
    && AttemptsOf(s', e) == AttemptsOf(s, e) + ClaimsOf(steps, e)
    && |s'.sent| == |s.sent| + SendsIn(steps)
  }

  lemma {:induction false} StepHistory(s: State, step: Step, e: EventId)
    requires Enabled(s, step)
    ensures Happened(s, [step], Next(s, step), e)
  {
    assert [step][1..] == [];
    if step.Store? {
      StoreExactly(s, step.events, step.outboxEnabled);
      StoreKeepsRows(s, step.events, step.outboxEnabled);
    } else if step.Claim? {
      assert e in step.ids ==> e in ClaimableIds(s);
    }
  }

  lemma {:induction false} HistoryGoesOn(s: State, steps: seq<Step>, t: State, s': State, e: EventId)
    requires steps != [] && Happened(s, [steps[0]], t, e) && Happened(t, steps[1..], s', e)
    ensures Happened(s, steps, s', e)
  {
    var none := [steps[0]][1..];
    assert none == [];
    assert Elapsed(none) == ClaimsOf(none, e) == SendsIn(none) == 0 && EventsIn(none) == QueuedIn(none) == {};
  }

  /** In every run, with any number of dispatchers, failures and crashes: every stored event is
      recorded, whatever the switch; exactly those stored with the outbox enabled have a row; and
      the attempts of a row count its claims. */
  lemma {:induction false} RunHistory(s: State, steps: seq<Step>, s': State, e: EventId)
    requires Run(s, steps, s')
    ensures Happened(s, steps, s', e)
    decreases |steps|
  {
    if steps != [] {
      StepHistory(s, steps[0], e);
      RunHistory(Next(s, steps[0]), steps[1..], s', e);
      HistoryGoesOn(s, steps, Next(s, steps[0]), s', e);
    }
  }

  // ---------------------------------------------------------------------------------
  // Leases and retries
  // ---------------------------------------------------------------------------------

  /** A claimed row is claimable again exactly when its lease is over, if attempts are left. */
  lemma {:induction false} LeaseExactly(s: State, step: Step, e: EventId, later: int)
    requires step.Claim? && Enabled(s, step) && e in step.ids
    ensures e in s.outbox && e in Next(s, step).outbox
    ensures Claimable(Next(s, step).outbox[e], later) <==> later > s.now + 30_000 && s.outbox[e].attempts < 11
  {
    assert e in ClaimableIds(s);
    if later <= s.now + 30_000 {
      assert !Claimable(Next(s, step).outbox[e], later);
    }
  }

  /** Nobody asks for a retry of `e`, or no such request takes effect. */
  ghost predicate NotRetried(s: State, steps: seq<Step>, e: EventId)
    decreases |steps|
  {
    steps != [] && Enabled(s, steps[0]) ==>
      && !(steps[0].Retry? && steps[0].effective && s.sessions[steps[0].session].failed.value.event == e)
      && NotRetried(Next(s, steps[0]), steps[1..], e)
  }

  /** The row is published, or leased until `until` at least. */
  predicate Held(s: State, e: EventId, until: int) {
    e in s.outbox &&
    (s.outbox[e].publishedAt.Some? || (s.outbox[e].leaseUntil.Some? && s.outbox[e].leaseUntil.value >= until))
  }

  lemma {:induction false} HeldStep(s: State, step: Step, e: EventId, until: int)
    requires Enabled(s, step) && Held(s, e, until) && until <= s.now + 30_000
    requires !(step.Retry? && step.effective && s.sessions[step.session].failed.value.event == e)
    ensures Held(Next(s, step), e, until) && until <= Next(s, step).now + 30_000
  {
    if step.Store? {
      StoreKeepsRows(s, step.events, step.outboxEnabled);
    }
  }

  lemma {:induction false} HeldRun(s: State, steps: seq<Step>, s': State, e: EventId, until: int)
    requires Run(s, steps, s') && NotRetried(s, steps, e) && Held(s, e, until) && until <= s.now + 30_000
    ensures Held(s', e, until)
    decreases |steps|
  {
    if steps != [] {
      HeldStep(s, steps[0], e, until);
      HeldRun(Next(s, steps[0]), steps[1..], s', e, until);
    }
  }

  /** Two claims of one event are more than thirty seconds apart, unless a retry was asked for in
      between, whatever the dispatchers do. */
  lemma {:induction false} ClaimsApart(s: State, first: Step, between: seq<Step>, s': State, second: Step, e: EventId)
    requires first.Claim? && e in first.ids && Enabled(s, first)
    requires Run(Next(s, first), between, s') && NotRetried(Next(s, first), between, e)
    requires second.Claim? && e in second.ids && Enabled(s', second)
    ensures Elapsed(between) > 30_000
  {
    var t := Next(s, first);
    assert e in ClaimableIds(s) && e in ClaimableIds(s');
    assert Held(t, e, t.now + 30_000);
    HeldRun(t, between, s', e, t.now + 30_000);
    RunHistory(t, between, s', e);
  }

  /** The delay starts at a second and doubles with every attempt up to the ninth. */
  lemma {:induction false} BackoffDoubles(attempts: nat)
    ensures attempts <= 1 ==> Backoff(attempts) == 1000
    ensures 1 <= attempts < 9 ==> Backoff(attempts + 1) == 2 * Backoff(attempts)
    ensures attempts >= 9 ==> Backoff(attempts) == 256_000
  {
    PowersUpToEight();
    if 1 <= attempts < 9 {
      assert PowerOfTwo(attempts) == 2 * PowerOfTwo(attempts - 1);
    }
  }

  /** A retry gives up the lease: the event is claimable exactly from the end of its delay on, and
      no other row changes. */
  lemma {:induction false} RetryExactly(s: State, session: SessionId, later: int)
    requires Enabled(s, Retry(session, true))
    requires var t := s.sessions[session].failed.value;
      t.event in s.outbox && s.outbox[t.event].publishedAt.None? && s.outbox[t.event].attempts < 12
    ensures var t, outbox := s.sessions[session].failed.value, Next(s, Retry(session, true)).outbox;
      && outbox.Keys == s.outbox.Keys
      && (forall e <- outbox :: e != t.event ==> outbox[e] == s.outbox[e])
      && (Claimable(outbox[t.event], later) <==> later >= s.now + Backoff(t.attempt))
      && outbox[t.event].attempts == s.outbox[t.event].attempts && outbox[t.event].publishedAt.None?
  {
  }

  /** A mark publishes the rows of the events it names, now, and no other row changes. */
  lemma {:induction false} MarkExactly(s: State, session: SessionId)
    requires Enabled(s, Mark(session, true))
    ensures var outbox := Next(s, Mark(session, true)).outbox;
      && outbox.Keys == s.outbox.Keys
      && forall e <- outbox ::
           var row := s.outbox[e];
           if e in s.sessions[session].published
           then outbox[e] == Row(row.createdAt, row.availableAt, None, row.attempts, Some(s.now))
           else outbox[e] == row
  {
  }

  /** A dispatcher is at work from a claim whose answer it got until it marks its events or dies. */
  predicate AtWork(before: bool, steps: seq<Step>, session: SessionId)
    decreases |steps|
  {
    if steps == [] then before
    else
      AtWork(match steps[0]
             case Claim(k, _, _, answered) => before || (k == session && answered)
             case Mark(k, _) => before && k != session
             case Crash(k) => before && k != session
             case _ => before,
             steps[1..], session)
  }

  lemma {:induction false} SessionsExactly(s: State, steps: seq<Step>, s': State, session: SessionId)
    requires Run(s, steps, s')
    ensures session in s'.sessions <==> AtWork(session in s.sessions, steps, session)
    decreases |steps|
  {
    if steps != [] {
      if steps[0].Store? {
        StoreKeepsRows(s, steps[0].events, steps[0].outboxEnabled);
      }
      SessionsExactly(Next(s, steps[0]), steps[1..], s', session);
    }
  }

  // ---------------------------------------------------------------------------------
  // Draining
  // ---------------------------------------------------------------------------------

  lemma {:induction false} PowerPositive(n: nat)
    ensures PowerOfTwo(n) >= 1
    ensures n <= 8 ==> PowerOfTwo(n) <= 256
  {
    if 0 < n <= 8 {
      PowerPositive(n - 1);
      PowersUpToEight();
    } else if n > 8 {
      PowerPositive(n - 1);
    }
  }

  lemma {:induction false} PowersUpToEight()
    ensures forall n :: 0 <= n <= 8 ==> PowerOfTwo(n) <= 256
    ensures PowerOfTwo(0) == 1 && PowerOfTwo(8) == 256
  {
    assert PowerOfTwo(2) == 4;
    assert PowerOfTwo(4) == 16;
    assert PowerOfTwo(6) == 64;
    assert PowerOfTwo(8) == 256;
  }

  /** A retry is at least a second away; the cap of five minutes is never reached. */
  lemma {:induction false} BackoffRange(attempts: nat)
    ensures 1000 <= Backoff(attempts) <= 256_000
  {
    var shift := if attempts == 0 then 0 else if attempts - 1 < 8 then attempts - 1 else 8;
    PowerPositive(shift);
  }

  lemma {:induction false} DistinctSize(ids: seq<EventId>)
    requires NoDuplicates(ids)
    ensures |IdSet(ids)| == |ids|
  {
    if ids != [] {
      var k := |ids| - 1;
      DistinctSize(ids[..k]);
      assert IdSet(ids) == IdSet(ids[..k]) + {ids[k]};
    }
  }

  /** While the clock stands still only a store makes rows claimable, at most its own, and a
      claim takes its rows away. */
  lemma {:induction false} StepClaimable(s: State, step: Step)
    requires Enabled(s, step) && !step.Tick?
    ensures ClaimableIds(Next(s, step)) <= ClaimableIds(s) + Stored(step)
    ensures step.Claim? ==> ClaimableIds(Next(s, step)) == ClaimableIds(s) - IdSet(step.ids)
  {
    if step.Store? {
      StoreExactly(s, step.events, step.outboxEnabled);
    } else {
      var s' := Next(s, step);
      if step.Retry? && step.effective {
        BackoffRange(s.sessions[step.session].failed.value.attempt);
      }
      assert forall e <- s'.outbox :: e in s.outbox;
    }
  }

  /** The events a step may give a row to. */
  function Stored(step: Step): set<EventId> {
    if step.Store? && step.outboxEnabled then IdSet(step.events) else {}
  }

  lemma {:induction false} IdSetSize(ids: seq<EventId>)
    ensures |IdSet(ids)| <= |ids|
  {
    if ids != [] {
      var k := |ids| - 1;
      IdSetSize(ids[..k]);
      assert IdSet(ids) == IdSet(ids[..k]) + {ids[k]};
    }
  }

  /** How many rows a list of steps claims, and how many it may create. */
  function Claims(steps: seq<Step>): nat {
    if steps == [] then 0 else (if steps[0].Claim? then |steps[0].ids| else 0) + Claims(steps[1..])
  }

  function Stores(steps: seq<Step>): nat {
    if steps == [] then 0
    else (if steps[0].Store? && steps[0].outboxEnabled then |steps[0].events| else 0) + Stores(steps[1..])
  }

  lemma {:induction false} CountsSnoc(steps: seq<Step>, step: Step)
    ensures Claims(steps + [step]) == Claims(steps) + if step.Claim? then |step.ids| else 0
    ensures Stores(steps + [step]) == Stores(steps) + if step.Store? && step.outboxEnabled then |step.events| else 0
  {
    var more := steps + [step];
    if steps == [] {
      assert more[0] == step && more[1..] == [];
    } else {
      CountsSnoc(steps[1..], step);
      assert more[0] == steps[0] && more[1..] == steps[1..] + [step];
    }
  }

  lemma {:induction false} ClaimableAfter(s: State, step: Step)
    requires Enabled(s, step) && !step.Tick?
    ensures |ClaimableIds(Next(s, step))| + Claims([step]) <= |ClaimableIds(s)| + Stores([step])
  {
    StepClaimable(s, step);
    assert [step][1..] == [];
    if step.Claim? {
      DistinctSize(step.ids);
      assert IdSet(step.ids) <= ClaimableIds(s);
      DifferenceSize(ClaimableIds(s), IdSet(step.ids));
    } else {
      SubsetSize(ClaimableIds(Next(s, step)), ClaimableIds(s) + Stored(step));
      if step.Store? {
        IdSetSize(step.events);
      }
    }
  }

  lemma {:induction false} DifferenceSize<T>(a: set<T>, b: set<T>)
    requires b <= a
    ensures |a - b| + |b| == |a|
  {
    assert a == (a - b) + b;
  }

  /** However dispatchers and writers interleave, at a fixed time no more rows are claimed than
      were claimable or are stored meanwhile, so the loop that goes on while a claim fills
      completely stops. */
  lemma {:induction false} DrainStops(s: State, steps: seq<Step>, s': State)
    requires Run(s, steps, s')
    requires forall i :: 0 <= i < |steps| ==> !steps[i].Tick?
    ensures Claims(steps) + |ClaimableIds(s')| <= |ClaimableIds(s)| + Stores(steps)
    decreases |steps|
  {
    if steps != [] {
      ClaimableAfter(s, steps[0]);
      assert [steps[0]][1..] == [];
      DrainStops(Next(s, steps[0]), steps[1..], s');
    }
  }

  // ---------------------------------------------------------------------------------
  // The repository and the dispatcher
  // ---------------------------------------------------------------------------------

  class Repository {
    var state: State

    constructor (now: int)
      ensures Initial(state) && state.now == now
    {
      state := State(now, {}, map[], [], {}, {}, map[]);
    }

    /** One transaction for a batch of events. */
    method StoreEvents(events: seq<EventId>, outboxEnabled: bool)
      modifies this
      ensures state == Next(old(state), Store(events, outboxEnabled))
      ensures state.records == old(state).records + IdSet(events)
      ensures state.outbox.Keys == old(state).outbox.Keys + if outboxEnabled then IdSet(events) else {}
      ensures forall e <- old(state).outbox :: state.outbox[e] == old(state).outbox[e]
    {
      StoreKeepsRows(state, events, outboxEnabled);
      StoreExactly(state, events, outboxEnabled);
      for i := 0 to |events|
        invariant state == WithEvents(old(state), events[..i], outboxEnabled)
      {
        TakeOneMore(events, i);
        state := WithEvent(state, events[i], outboxEnabled);
      }
      TakeAll(events);
    }

    /** The oldest claimable rows that no other transaction has locked, at most `limit`. */
    method SelectCandidates(limit: nat, locked: set<EventId>) returns (ids: seq<EventId>)
      ensures NoDuplicates(ids) && |ids| <= limit
      ensures forall e <- ids :: e in ClaimableIds(state) && e !in locked
      ensures forall e, d :: e in ids && d in ClaimableIds(state) && d !in locked && d !in ids ==>
                state.outbox[e].createdAt <= state.outbox[d].createdAt
      ensures |ids| < limit ==> forall e <- ClaimableIds(state) :: e in locked || e in ids
    {
      ids := [];
      var open := ClaimableIds(state) - locked;
      while |ids| < limit && open != {}
        invariant NoDuplicates(ids) && |ids| <= limit
        invariant forall e <- ClaimableIds(state) :: e in locked || e in ids || e in open
        invariant forall e <- ids :: e in ClaimableIds(state) && e !in locked && e !in open
        invariant open <= ClaimableIds(state) - locked
        invariant forall e, d :: e in ids && d in open ==> state.outbox[e].createdAt <= state.outbox[d].createdAt
      {
        var e := Oldest(open);
        ids, open := ids + [e], open - {e};
      }
    }

    method Oldest(open: set<EventId>) returns (oldest: EventId)
      requires open != {} && open <= state.outbox.Keys
      ensures oldest in open && forall e <- open :: state.outbox[oldest].createdAt <= state.outbox[e].createdAt
    {
      oldest :| oldest in open;
      var rest := open - {oldest};
      while rest != {}
        invariant oldest in open && rest <= open
        invariant forall e <- open :: e in rest || state.outbox[oldest].createdAt <= state.outbox[e].createdAt
      {
        var e :| e in rest;
        if state.outbox[e].createdAt < state.outbox[oldest].createdAt {
          oldest := e;
        }
        rest := rest - {e};
      }
    }

    /** Lease the selected rows and count the attempt. */
    method ClaimOutbox(session: SessionId, publisher: bool, limit: int, locked: set<EventId>)
      returns (records: seq<Ticket>, ghost step: Step)
      requires session !in state.sessions
      modifies this
      ensures step.Claim? && step.session == session && step.publisher == publisher && step.answered
      ensures Enabled(old(state), step) && state == Next(old(state), step)
      ensures records == state.sessions[session].todo
      ensures var most := if limit < 1 then 100 else limit;
        && |records| == |step.ids| <= most
        && (|records| < most ==> forall e <- ClaimableIds(old(state)) :: e in locked || e in step.ids)
    {
      var ids := SelectCandidates(if limit < 1 then 100 else limit, locked);
      assert forall e <- ids :: e in ClaimableIds(state);
      step := Claim(session, publisher, ids, true);
      records := TicketsOf(state.outbox, ids);
      state := Next(state, Claim(session, publisher, ids, true));
    }

    /** Publish the claimed events one by one and send the failed ones back for a retry. */
    method PublishAll(session: SessionId, records: seq<Ticket>, ghost start: State, ghost before: seq<Step>)
      returns (ghost steps: seq<Step>, ghost deliveries: seq<Delivery>)
      requires Run(start, before, state)
      requires session in state.sessions && state.sessions[session].todo == records
      requires state.sessions[session].failed.None? && state.sessions[session].published == []
      modifies this
      ensures Run(start, steps, state) && Claims(steps) == Claims(before) && Stores(steps) == Stores(before)
      ensures session in state.sessions && state.sessions[session].failed.None? && state.sessions[session].todo == []
      ensures |deliveries| == |records| && state.sessions[session].published == Reported(records, deliveries)
      ensures forall i :: 0 <= i < |records| && deliveries[i].Acknowledged? ==> records[i].event in state.acked
      ensures forall i :: 0 <= i < |records| ==> Possible(old(state).sessions[session].publisher, deliveries[i])
      ensures SamePublished(old(state).outbox, state.outbox) && ClaimableIds(state) <= ClaimableIds(old(state))
    {
      steps, deliveries := before, [];
      for i := 0 to |records|
        invariant Run(start, steps, state) && Claims(steps) == Claims(before) && Stores(steps) == Stores(before)
        invariant session in state.sessions
        invariant state.sessions[session].publisher == old(state).sessions[session].publisher
        invariant state.sessions[session].failed.None? && state.sessions[session].todo == records[i..]
        invariant |deliveries| == i && state.sessions[session].published == Reported(records[..i], deliveries)
        invariant forall k :: 0 <= k < i && deliveries[k].Acknowledged? ==> records[k].event in state.acked
        invariant forall k :: 0 <= k < i ==> Possible(old(state).sessions[session].publisher, deliveries[k])
        invariant SamePublished(old(state).outbox, state.outbox) && ClaimableIds(state) <= ClaimableIds(old(state))
      {
        ghost var delivery;
        steps, delivery := PublishOne(session, start, steps);
        ReportedSnoc(records, deliveries, i, delivery);
        deliveries := deliveries + [delivery];
      }
      TakeAll(records);
    }

    /** Publish the next event; after a failure ask for a retry, which may fail too. */
    method PublishOne(session: SessionId, ghost start: State, ghost before: seq<Step>)
      returns (ghost steps: seq<Step>, ghost delivery: Delivery)
      requires Run(start, before, state)
      requires session in state.sessions && state.sessions[session].todo != [] && state.sessions[session].failed.None?
      modifies this
      ensures Run(start, steps, state) && Claims(steps) == Claims(before) && Stores(steps) == Stores(before)
      ensures session in state.sessions
      ensures var w, w' := old(state).sessions[session], state.sessions[session];
              var t := w.todo[0];
        && Possible(w.publisher, delivery)
        && w' == w.(todo := w.todo[1..], published := w.published + if Succeeds(delivery) then [t.event] else [])
        && (delivery.Acknowledged? ==> t.event in state.acked)
      ensures old(state).acked <= state.acked
      ensures SamePublished(old(state).outbox, state.outbox) && ClaimableIds(state) <= ClaimableIds(old(state))
    {
      var outcome: Delivery;
      if state.sessions[session].publisher {
        outcome :| !outcome.Skipped?;
      } else {
        var decodes: bool := *;
        outcome := if decodes then Skipped else NotSent;
      }
      delivery := outcome;
      StepClaimable(state, Publish(session, outcome));
      steps := Do(Publish(session, outcome), start, before);
      if !Succeeds(outcome) {
        var effective: bool := *;
        StepClaimable(state, Retry(session, effective));
        steps := Do(Retry(session, effective), start, steps);
      }
    }

    /** One round of the dispatcher: claim, publish each event, mark the events reported as
        published.  The claim may fail, with or without effect, and so may the mark. */
    method Dispatch(session: SessionId, publisher: bool, limit: int, locked: set<EventId>)
      returns (claimed: nat, marked: bool, ghost steps: seq<Step>, ghost records: seq<Ticket>,
               ghost deliveries: seq<Delivery>)
      requires session !in state.sessions
      modifies this
      ensures Run(old(state), steps, state) && session !in state.sessions
      ensures claimed == |records| == |deliveries| && (claimed == Claims(steps) || claimed == 0) && Stores(steps) == 0
      ensures |ClaimableIds(state)| + claimed <= |ClaimableIds(old(state))|
      ensures forall i :: 0 <= i < |records| ==> Possible(publisher, deliveries[i])
      ensures forall i :: 0 <= i < |records| && deliveries[i].Acknowledged? ==> records[i].event in state.acked
      ensures forall e <- old(state).outbox :: e in state.outbox &&
                (if marked && e in Reported(records, deliveries) then state.outbox[e].publishedAt.Some?
                 else state.outbox[e].publishedAt == old(state).outbox[e].publishedAt)
    {
      marked, records, deliveries, steps := false, [], [], [];
      var claim: bool := *;
      if !claim {
        claimed := 0;
        steps := LoseClaim(session, publisher, limit, locked);
        return;
      }
      var todo;
      ghost var step;
      todo, step := ClaimOutbox(session, publisher, limit, locked);
      records, claimed := todo, |todo|;
      ClaimableAfter(old(state), step);
      RunSnoc(old(state), [], old(state), step);
      assert [] + [step] == [step] && [step][1..] == [];
      label claimedAll:
      steps, deliveries := PublishAll(session, todo, old(state), [step]);
      SubsetSize(ClaimableIds(state), ClaimableIds(old@claimedAll(state)));
      marked := *;
      ClaimableAfter(state, Mark(session, marked));
      assert [Mark(session, marked)][1..] == [];
      steps := Do(Mark(session, marked), old(state), steps);
    }

    /** A claim that fails: nothing happened, or it committed and its answer was lost. */
    method LoseClaim(session: SessionId, publisher: bool, limit: int, locked: set<EventId>)
      returns (ghost steps: seq<Step>)
      requires session !in state.sessions
      modifies this
      ensures Run(old(state), steps, state) && state.sessions == old(state).sessions && Stores(steps) == 0
      ensures |ClaimableIds(state)| <= |ClaimableIds(old(state))|
      ensures SamePublished(old(state).outbox, state.outbox)
    {
      steps := [];
      var committed: bool := *;
      if committed {
        var ids := SelectCandidates(if limit < 1 then 100 else limit, locked);
        assert forall e <- ids :: e in ClaimableIds(state);
        var step := Claim(session, publisher, ids, false);
        ClaimableAfter(state, step);
        assert [step][1..] == [];
        steps := Do(step, old(state), []);
      }
    }

    /** The loop of the dispatcher between two ticks: go on as long as the claim fills.  While
        the clock stands still this ends, because every full claim takes rows away. */
    method Drain(session: SessionId, publisher: bool, claimSize: int, locked: set<EventId>)
      returns (rounds: nat, total: nat, ghost steps: seq<Step>)
      requires session !in state.sessions
      modifies this
      ensures Run(old(state), steps, state) && session !in state.sessions
      ensures total + |ClaimableIds(state)| <= |ClaimableIds(old(state))|
      ensures 1 <= rounds <= total + 1
    {
      var most: nat := if claimSize < 1 then 100 else claimSize;
      rounds, total, steps := 0, 0, [];
      var claimed: nat := most;
      while claimed >= most
        invariant Run(old(state), steps, state) && session !in state.sessions
        invariant total + |ClaimableIds(state)| <= |ClaimableIds(old(state))|
        invariant rounds == 0 ==> claimed == most
        invariant rounds <= if claimed >= most then total else total + 1
        decreases |ClaimableIds(state)|, if claimed >= most then 1 else 0
      {
        var marked;
        ghost var round, records, deliveries;
        label before:
        claimed, marked, round, records, deliveries := Dispatch(session, publisher, most, locked);
        RunConcat(old(state), steps, old@before(state), round, state);
        steps, rounds, total := steps + round, rounds + 1, total + claimed;
      }
    }

    /** Perform one step and extend the run that led here. */
    method Do(step: Step, ghost start: State, ghost steps: seq<Step>) returns (ghost steps': seq<Step>)
      requires Run(start, steps, state) && Enabled(state, step)
      modifies this
      ensures state == Next(old(state), step) && Run(start, steps', state)
      ensures steps' == steps + [step]
      ensures Claims(steps') == Claims(steps) + if step.Claim? then |step.ids| else 0
      ensures Stores(steps') == Stores(steps) + if step.Store? && step.outboxEnabled then |step.events| else 0
    {
      RunSnoc(start, steps, state, step);
      CountsSnoc(steps, step);
      steps' := steps + [step];
      state := Next(state, step);
    }
  }

  /** The events whose delivery was reported as a success, in the order of the claim. */
  function Reported(records: seq<Ticket>, deliveries: seq<Delivery>): seq<EventId>
    requires |records| == |deliveries|
  {
    if records == [] then []
    else
      var k := |records| - 1;
      Reported(records[..k], deliveries[..k]) + if Succeeds(deliveries[k]) then [records[k].event] else []
  }

  lemma {:induction false} ReportedSnoc(records: seq<Ticket>, deliveries: seq<Delivery>, i: nat, d: Delivery)
    requires i < |records| && |deliveries| == i
    ensures Reported(records[..i + 1], deliveries + [d])
         == Reported(records[..i], deliveries) + if Succeeds(d) then [records[i].event] else []
  {
    TakeOneMore(records, i);
    assert (deliveries + [d])[..i] == deliveries;
  }

  lemma {:induction false} RunConcat(s: State, a: seq<Step>, m: State, b: seq<Step>, s': State)
    requires Run(s, a, m) && Run(m, b, s')
    ensures Run(s, a + b, s')
    decreases |a|
  {
    if a == [] {
      assert a + b == b;
    } else {
      RunConcat(Next(s, a[0]), a[1..], m, b, s');
      assert (a + b)[0] == a[0] && (a + b)[1..] == a[1..] + b;
    }
  }

  ghost predicate SamePublished(a: map<EventId, Row>, b: map<EventId, Row>) {
    forall e <- a :: e in b && b[e].publishedAt == a[e].publishedAt
  }

  lemma {:induction false} RunSnoc(s: State, steps: seq<Step>, m: State, step: Step)
    requires Run(s, steps, m) && Enabled(m, step)
    ensures Run(s, steps + [step], Next(m, step))
    decreases |steps|
  {
    var more := steps + [step];
    if steps == [] {
      assert more[0] == step && more[1..] == [];
    } else {
      RunSnoc(Next(s, steps[0]), steps[1..], m, step);
      assert more[0] == steps[0] && more[1..] == steps[1..] + [step];
    }
  }
}
