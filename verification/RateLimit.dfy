/** The token-bucket limiter of internal/ratelimit/redis.go: the Redis script, the local
    bucket, and the failover between them.  Times are milliseconds and arithmetic is over
    the reals; the clock never goes back. */
module RateLimit {
  import opened ByteStrings

  type BucketKey = string

  datatype Bucket = Bucket(tokens: real, at: real)

  /** `rate` is in tokens per millisecond. */
  datatype Config = Config(rate: real, burst: real)

  ghost predicate Configured(c: Config) {
    c.rate > 0.0 && c.burst >= 1.0
  }

  function Configure(rps: int, burst: int): (c: Config)
    ensures Configured(c)
  {
    Config((if rps < 1 then 60 else rps) as real / 1000.0, (if burst < 1 then 120 else burst) as real)
  }

  /** The settings mean what they say: in a second `rps` tokens flow in, a full bucket holds `burst`
      of them, and settings below one mean 60 and 120. */
  lemma {:induction false} ConfiguredAsGiven(rps: int, burst: int)
    ensures var c := Configure(rps, burst);
      && Refill(1000.0, c) == (if rps < 1 then 60 else rps) as real
      && c.burst == (if burst < 1 then 120 else burst) as real
      && Available(None, 0.0, c) == c.burst
  {
    var c := Configure(rps, burst);
    assert 1000.0 * c.rate == c.rate * 1000.0;
  }

  function Min(a: real, b: real): real { if a <= b then a else b }

  function Ceil(x: real): (n: int)
    ensures n as real >= x && n as real < x + 1.0
  {
    -((-x).Floor)
  }

  /** What flows into a bucket in a stretch of time. */
  function Refill(elapsed: real, c: Config): real { elapsed * c.rate }

  /** Tokens available at `now`: the stored ones plus the refill, at most the burst; a bucket
      that does not exist is full. */
  function Available(b: Option<Bucket>, now: real, c: Config): real {
    match b
    case None => c.burst
    case Some(bucket) => Min(c.burst, bucket.tokens + Refill(now - bucket.at, c))
  }

  datatype Answer = Answer(allowed: bool, bucket: Bucket)

  /** One call on a bucket, by script or locally: refill, then take a token if there is one. */
  function Take(b: Option<Bucket>, now: real, c: Config): Answer {
    var tokens := Available(b, now, c);
    var ok := tokens >= 1.0;
    Answer(ok, Bucket(if ok then tokens - 1.0 else tokens, now))
  }

  /** The script's hint: whole milliseconds until a token is there. */
  function RetryHint(tokens: real, c: Config): int
    requires c.rate > 0.0
  {
    Ceil((if 1.0 - tokens > 0.0 then 1.0 - tokens else 0.0) / c.rate)
  }

  const NANOS_PER_MILLI: real := 1_000_000.0

  /** Nanoseconds until a bucket that holds less than a token holds one. */
  function WaitNanos(tokens: real, c: Config): real
    requires c.rate > 0.0
  {
    (1.0 - tokens) / c.rate * NANOS_PER_MILLI
  }

  /** The hint of the local bucket, in milliseconds: cut to whole nanoseconds. */
  function LocalHint(tokens: real, c: Config): real
    requires c.rate > 0.0
  {
    WaitNanos(tokens, c).Floor as real / NANOS_PER_MILLI
  }

  /** The expiry the script sets on its key. */
  function ExpiresAfter(c: Config): int
    requires c.rate > 0.0
  {
    Ceil(c.burst / c.rate * 2.0)
  }

  // ---------------------------------------------------------------------------------
  // Failover
  // ---------------------------------------------------------------------------------

  /** How a call reaches Redis: not at all, with an answer, or with an error after which the
      script may or may not have run. */
  datatype Route = NoRedis | Answered | Failed(executed: bool)

  datatype Call = Call(key: BucketKey, now: real, route: Route)

  datatype State = State(remote: map<BucketKey, Bucket>, local: map<BucketKey, Bucket>, degraded: bool)

  function Lookup(m: map<BucketKey, Bucket>, key: BucketKey): Option<Bucket> {
    if key in m then Some(m[key]) else None
  }

  predicate TouchesRemote(call: Call) { call.route.Answered? || (call.route.Failed? && call.route.executed) }

  predicate TouchesLocal(call: Call) { !call.route.Answered? }

  function Next(s: State, call: Call, c: Config): State {
    var r := Take(Lookup(s.remote, call.key), call.now, c);
    var l := Take(Lookup(s.local, call.key), call.now, c);
    State(if TouchesRemote(call) then s.remote[call.key := r.bucket] else s.remote,
          if TouchesLocal(call) then s.local[call.key := l.bucket] else s.local,
          match call.route case NoRedis => s.degraded case Answered => false case Failed(_) => true)
  }

  function Allowed(s: State, call: Call, c: Config): bool {
    if call.route.Answered? then Take(Lookup(s.remote, call.key), call.now, c).allowed
    else Take(Lookup(s.local, call.key), call.now, c).allowed
  }

  /** The time after which a caller is told to try again, in milliseconds. */
  function Hint(s: State, call: Call, c: Config): real
    requires c.rate > 0.0
  {
    if call.route.Answered? then RetryHint(Take(Lookup(s.remote, call.key), call.now, c).bucket.tokens, c) as real
    else
      var answer := Take(Lookup(s.local, call.key), call.now, c);
      if answer.allowed then 0.0 else LocalHint(answer.bucket.tokens, c)
  }

  class AdaptiveLimiter {
    const config: Config
    var state: State

    constructor (rps: int, burst: int)
      ensures Configured(config) && config == Configure(rps, burst) && state == State(map[], map[], false)
    {
      config := Configure(rps, burst);
      state := State(map[], map[], false);
    }

    /** Ask Redis, and fall back to the local bucket when it fails or is not there. */
    method Allow(key: BucketKey, now: real, route: Route) returns (allowed: bool, retry: real)
      requires Configured(config)
      modifies this
      ensures allowed == Allowed(old(state), Call(key, now, route), config)
      ensures retry == Hint(old(state), Call(key, now, route), config)
      ensures state == Next(old(state), Call(key, now, route), config)
      ensures forall k :: k != key ==> Lookup(state.remote, k) == Lookup(old(state).remote, k)
      ensures forall k :: k != key ==> Lookup(state.local, k) == Lookup(old(state).local, k)
      ensures Lookup(state.remote, key) ==
                if route.NoRedis? || route == Failed(false) then Lookup(old(state).remote, key)
                else Some(Take(Lookup(old(state).remote, key), now, config).bucket)
      ensures Lookup(state.local, key) ==
                if route.Answered? then Lookup(old(state).local, key)
                else Some(Take(Lookup(old(state).local, key), now, config).bucket)
    {
      if route.NoRedis? {
        allowed, retry := AllowLocal(key, now);
        return;
      }
      var answer := Take(Lookup(state.remote, key), now, config);
      if route.Answered? {
        state := state.(remote := state.remote[key := answer.bucket], degraded := false);
        return answer.allowed, RetryHint(answer.bucket.tokens, config) as real;
      }
      if route.executed {
        state := state.(remote := state.remote[key := answer.bucket]);
      }
      state := state.(degraded := true);
      allowed, retry := AllowLocal(key, now);
    }

    method AllowLocal(key: BucketKey, now: real) returns (allowed: bool, retry: real)
      requires Configured(config)
      modifies this
      ensures var answer := Take(Lookup(old(state).local, key), now, config);
        && allowed == answer.allowed && state == old(state).(local := old(state).local[key := answer.bucket])
        && retry == if allowed then 0.0 else LocalHint(answer.bucket.tokens, config)
    {
      var bucket := if key in state.local then state.local[key] else Bucket(config.burst, now);
      var tokens := Min(config.burst, bucket.tokens + Refill(now - bucket.at, config));
      allowed := tokens >= 1.0;
      if allowed {
        tokens := tokens - 1.0;
      }
      state := state.(local := state.local[key := Bucket(tokens, now)]);
      retry := if allowed then 0.0 else LocalHint(tokens, config);
    }
  }

  // ---------------------------------------------------------------------------------
  // How much can be granted
  // ---------------------------------------------------------------------------------

  /** What a bucket can still hand out by time `end`. */
  function Credit(b: Option<Bucket>, now: real, end: real, c: Config): real {
    Available(b, now, c) + Refill(end - now, c)
  }

  lemma {:induction false} RefillNonNegative(elapsed: real, c: Config)
    requires Configured(c) && elapsed >= 0.0
    ensures Refill(elapsed, c) >= 0.0
  {
  }

  lemma {:induction false} RefillAdds(a: real, b: real, sum: real, c: Config)
    requires sum == a + b
    ensures Refill(sum, c) == Refill(a, c) + Refill(b, c)
  {
    assert (a + b) * c.rate == a * c.rate + b * c.rate;
  }

  /** After the time it takes at this rate, an amount has flowed in. */
  lemma {:induction false} RefillReaches(elapsed: real, amount: real, c: Config)
    requires Configured(c) && elapsed >= amount / c.rate
    ensures Refill(elapsed, c) >= amount
  {
    var needed := amount / c.rate;
    assert Refill(needed, c) == amount;
    RefillNonNegative(elapsed - needed, c);
    RefillAdds(needed, elapsed - needed, elapsed, c);
  }

  /** Waiting does not create credit. */
  lemma {:induction false} CreditOverTime(b: Option<Bucket>, now: real, later: real, end: real, c: Config)
    requires Configured(c) && now <= later
    ensures Credit(b, later, end, c) <= Credit(b, now, end, c)
  {
    RefillAdds(later - now, end - later, end - now, c);
    RefillNonNegative(later - now, c);
    if b.Some? {
      RefillAdds(now - b.value.at, later - now, later - b.value.at, c);
    }
  }

  /** A call costs its bucket one token of credit if it is granted, and nothing otherwise. */
  lemma {:induction false} CreditOfCall(b: Option<Bucket>, now: real, end: real, c: Config)
    requires Configured(c)
    ensures var a := Take(b, now, c);
      Credit(Some(a.bucket), now, end, c) == Credit(b, now, end, c) - if a.allowed then 1.0 else 0.0
  {
  }

  ghost predicate Monotone(calls: seq<Call>, from: real, end: real) {
    && (forall i :: 0 <= i < |calls| ==> from <= calls[i].now <= end)
    && (forall i, j :: 0 <= i < j < |calls| ==> calls[i].now <= calls[j].now)
  }

  /** Calls for `key` that are granted on the chosen side. */
  function Grants(s: State, calls: seq<Call>, key: BucketKey, c: Config, answered: bool): nat
    decreases |calls|
  {
    if calls == [] then 0
    else
      (if calls[0].key == key && calls[0].route.Answered? == answered && Allowed(s, calls[0], c) then 1 else 0)
      + Grants(Next(s, calls[0], c), calls[1..], key, c, answered)
  }

  ghost predicate BucketsSound(m: map<BucketKey, Bucket>, now: real, c: Config) {
    forall k <- m :: 0.0 <= m[k].tokens <= c.burst && m[k].at <= now
  }

  /** Stored buckets hold between nothing and the burst, and none is from the future. */
  ghost predicate Sound(s: State, now: real, c: Config) {
    BucketsSound(s.remote, now, c) && BucketsSound(s.local, now, c)
  }

  lemma {:induction false} AvailableRange(b: Option<Bucket>, now: real, c: Config)
    requires Configured(c)
    requires b.Some? ==> 0.0 <= b.value.tokens && b.value.at <= now
    ensures 0.0 <= Available(b, now, c) <= c.burst
  {
    if b.Some? {
      RefillNonNegative(now - b.value.at, c);
    }
  }

  lemma {:induction false} NextSound(s: State, call: Call, now: real, c: Config)
    requires Configured(c) && Sound(s, now, c) && now <= call.now
    ensures Sound(Next(s, call, c), call.now, c)
  {
    AvailableRange(Lookup(s.remote, call.key), call.now, c);
    AvailableRange(Lookup(s.local, call.key), call.now, c);
  }

  /** What a call leaves of the credit of a key on one side. */
  lemma {:induction false} CreditAfterCall(s: State, call: Call, key: BucketKey, c: Config, answered: bool, now: real,
                                           end: real)
    requires Configured(c) && now <= call.now
    ensures var granted := call.key == key && call.route.Answered? == answered && Allowed(s, call, c);
            var t := Next(s, call, c);
      Credit(Lookup(if answered then t.remote else t.local, key), call.now, end, c)
        <= Credit(Lookup(if answered then s.remote else s.local, key), now, end, c) - if granted then 1.0 else 0.0
  {
    var side := Lookup(if answered then s.remote else s.local, key);
    CreditOverTime(side, now, call.now, end, c);
    CreditOfCall(side, call.now, end, c);
  }

  lemma {:induction false} TailMonotone(calls: seq<Call>, now: real, end: real)
    requires calls != [] && Monotone(calls, now, end)
    ensures Monotone(calls[1..], calls[0].now, end) && now <= calls[0].now <= end
  {
    assert forall i :: 0 <= i < |calls[1..]| ==> calls[1..][i] == calls[i + 1];
  }

  lemma {:induction false} GrantsWithinCredit(s: State, calls: seq<Call>, key: BucketKey, c: Config, answered: bool,
                                              now: real, end: real)
    requires Configured(c) && Sound(s, now, c) && now <= end && Monotone(calls, now, end)
    ensures Grants(s, calls, key, c, answered) as real
         <= Credit(Lookup(if answered then s.remote else s.local, key), now, end, c)
    decreases |calls|
  {
    var side := Lookup(if answered then s.remote else s.local, key);
    if calls == [] {
      AvailableRange(side, now, c);
      RefillNonNegative(end - now, c);
    } else {
      var call := calls[0];
      TailMonotone(calls, now, end);
      NextSound(s, call, now, c);
      GrantsWithinCredit(Next(s, call, c), calls[1..], key, c, answered, call.now, end);
      CreditAfterCall(s, call, key, c, answered, now, end);
    }
  }

  /** From any state and for every key: calls between `now` and `end` are granted at most
      `burst + rate * (end - now)` times by Redis and as often by the local bucket, however
      the calls switch between the two. */
  lemma {:induction false} GrantBound(s: State, calls: seq<Call>, key: BucketKey, c: Config, answered: bool,
                                      now: real, end: real)
    requires Configured(c) && Sound(s, now, c) && now <= end && Monotone(calls, now, end)
    ensures Grants(s, calls, key, c, answered) as real <= c.burst + Refill(end - now, c)
  {
    GrantsWithinCredit(s, calls, key, c, answered, now, end);
    CreditAtMost(Lookup(if answered then s.remote else s.local, key), now, end, c);
  }

  lemma {:induction false} CreditAtMost(b: Option<Bucket>, now: real, end: real, c: Config)
    ensures Credit(b, now, end, c) <= c.burst + Refill(end - now, c)
  {
  }

  /** The state after a list of calls. */
  function After(s: State, calls: seq<Call>, c: Config): State
    decreases |calls|
  {
    if calls == [] then s else After(Next(s, calls[0], c), calls[1..], c)
  }

  lemma {:induction false} AfterSound(s: State, calls: seq<Call>, now: real, end: real, c: Config)
    requires Configured(c) && Sound(s, now, c) && now <= end && Monotone(calls, now, end)
    ensures Sound(After(s, calls, c), end, c)
    decreases |calls|
  {
    if calls != [] {
      NextSound(s, calls[0], now, c);
      TailMonotone(calls, now, end);
      AfterSound(Next(s, calls[0], c), calls[1..], calls[0].now, end, c);
    }
  }

  /** The same for any window of any history that starts with empty tables. */
  lemma {:induction false} WindowBound(earlier: seq<Call>, window: seq<Call>, key: BucketKey, c: Config, start: real,
                                       from: real, end: real)
    requires Configured(c) && start <= from <= end
    requires Monotone(earlier, start, from) && Monotone(window, from, end)
    ensures var s := After(State(map[], map[], false), earlier, c);
      && Grants(s, window, key, c, true) as real <= c.burst + Refill(end - from, c)
      && Grants(s, window, key, c, true) as real + Grants(s, window, key, c, false) as real
         <= 2.0 * (c.burst + Refill(end - from, c))
  {
    AfterSound(State(map[], map[], false), earlier, start, from, c);
    GrantBound(After(State(map[], map[], false), earlier, c), window, key, c, true, from, end);
    GrantBound(After(State(map[], map[], false), earlier, c), window, key, c, false, from, end);
  }

  /** What is granted is granted when it is due: calls for which the bucket holds a token each are
      all granted, whenever they come. */
  lemma {:induction false} CoveredCallsAreGranted(s: State, calls: seq<Call>, key: BucketKey, c: Config, answered: bool,
                                                  now: real, end: real)
    requires Configured(c) && Monotone(calls, now, end)
    requires forall i :: 0 <= i < |calls| ==> calls[i].key == key && calls[i].route.Answered? == answered
    requires |calls| as real <= Available(Lookup(if answered then s.remote else s.local, key), now, c)
    ensures Grants(s, calls, key, c, answered) == |calls|
    decreases |calls|
  {
    if calls != [] {
      var side, later := Lookup(if answered then s.remote else s.local, key), calls[0].now;
      TailMonotone(calls, now, end);
      AvailableGrows(side, now, later, c);
      assert Refill(later - later, c) == 0.0;
      CoveredCallsAreGranted(Next(s, calls[0], c), calls[1..], key, c, answered, later, end);
    }
  }

  lemma {:induction false} AvailableGrows(b: Option<Bucket>, now: real, later: real, c: Config)
    requires Configured(c) && now <= later
    ensures Available(b, now, c) <= Available(b, later, c)
  {
    if b.Some? {
      RefillAdds(now - b.value.at, later - now, later - b.value.at, c);
      RefillNonNegative(later - now, c);
    }
  }

  /** Redis is taken to be degraded after a list of calls if the last of them that tried it failed. */
  predicate DegradedAfter(degraded: bool, calls: seq<Call>) {
    if calls == [] then degraded
    else
      var k := |calls| - 1;
      calls[k].route.Failed? || (calls[k].route.NoRedis? && DegradedAfter(degraded, calls[..k]))
  }

  lemma {:induction false} DegradedExactly(s: State, calls: seq<Call>, c: Config)
    ensures After(s, calls, c).degraded <==> DegradedAfter(s.degraded, calls)
    decreases |calls|
  {
    if calls != [] {
      var k := |calls| - 1;
      AfterSnoc(s, calls[..k], calls[k], c);
      assert calls == calls[..k] + [calls[k]];
      DegradedExactly(s, calls[..k], c);
    }
  }

  lemma {:induction false} AfterSnoc(s: State, calls: seq<Call>, call: Call, c: Config)
    ensures After(s, calls + [call], c) == Next(After(s, calls, c), call, c)
    decreases |calls|
  {
    var more := calls + [call];
    if calls == [] {
      assert more[0] == call && more[1..] == [];
    } else {
      assert more[0] == calls[0] && more[1..] == calls[1..] + [call];
      AfterSnoc(Next(s, calls[0], c), calls[1..], call, c);
    }
  }

  // ---------------------------------------------------------------------------------
  // Expiry and retry hint
  // ---------------------------------------------------------------------------------

  /** A bucket idle for as long as its key lives is full again. */
  lemma {:induction false} ExpiredIsFull(b: Bucket, now: real, c: Config)
    requires Configured(c) && b.tokens >= 0.0
    requires now - b.at >= ExpiresAfter(c) as real
    ensures Available(Some(b), now, c) == c.burst
  {
    RefillReaches(now - b.at, c.burst, c);
  }

  /** Answers of a bucket to calls at the given times; before a call the key may have
      expired, which is only possible when it was idle for its whole lifetime. */
  function Answers(b: Option<Bucket>, times: seq<real>, expired: seq<bool>, c: Config): seq<bool>
    requires |times| == |expired|
    decreases |times|
  {
    if times == [] then []
    else
      var a := Take(if expired[0] then None else b, times[0], c);
      [a.allowed] + Answers(Some(a.bucket), times[1..], expired[1..], c)
  }

  ghost predicate MayExpire(b: Option<Bucket>, times: seq<real>, expired: seq<bool>, c: Config)
    requires Configured(c) && |times| == |expired|
    decreases |times|
  {
    times != [] ==>
      && (expired[0] && b.Some? ==> times[0] - b.value.at >= ExpiresAfter(c) as real)
      && MayExpire(Some(Take(if expired[0] then None else b, times[0], c).bucket), times[1..], expired[1..], c)
  }

  function Never(n: nat): (flags: seq<bool>)
    ensures |flags| == n && forall i :: 0 <= i < n ==> !flags[i]
  {
    seq(n, _ => false)
  }

  /** Expiry cannot be observed: the answers are those of a table that never forgets. */
  lemma {:induction false} ExpiryUnobservable(b: Option<Bucket>, times: seq<real>, expired: seq<bool>, c: Config)
    requires Configured(c) && |times| == |expired| && MayExpire(b, times, expired, c)
    requires b.Some? ==> b.value.tokens >= 0.0
    requires b.Some? && times != [] ==> b.value.at <= times[0]
    requires forall i, j :: 0 <= i < j < |times| ==> times[i] <= times[j]
    ensures Answers(b, times, expired, c) == Answers(b, times, Never(|times|), c)
    decreases |times|
  {
    if times != [] {
      if expired[0] && b.Some? {
        ExpiredIsFull(b.value, times[0], c);
      }
      var a := Take(b, times[0], c);
      assert a == Take(if expired[0] then None else b, times[0], c);
      AvailableRange(b, times[0], c);
      assert Never(|times|)[1..] == Never(|times| - 1);
      ExpiryUnobservable(Some(a.bucket), times[1..], expired[1..], c);
    }
  }

  /** Waiting the hinted time, with no other call in between, is enough for a grant. */
  lemma {:induction false} HintSuffices(b: Option<Bucket>, now: real, later: real, c: Config)
    requires Configured(c)
    requires var a := Take(b, now, c); later >= now + RetryHint(a.bucket.tokens, c) as real
    ensures Take(Some(Take(b, now, c).bucket), later, c).allowed
  {
    var tokens := Take(b, now, c).bucket.tokens;
    var missing := if 1.0 - tokens > 0.0 then 1.0 - tokens else 0.0;
    RefillReaches(later - now, missing, c);
  }

  /** The hint is no longer than it must be: a caller that is short of a token is still refused a
      millisecond before it. */
  lemma {:induction false} HintIsTight(b: Bucket, later: real, c: Config)
    requires Configured(c) && b.tokens < 1.0
    requires later <= b.at + RetryHint(b.tokens, c) as real - 1.0
    ensures !Take(Some(b), later, c).allowed
  {
    var missing := 1.0 - b.tokens;
    var needed := missing / c.rate;
    assert Refill(needed, c) == missing;
    RefillAdds(later - b.at, needed - (later - b.at), needed, c);
    RefillSign((later - b.at) - needed, c);
    RefillAdds(needed, (later - b.at) - needed, later - b.at, c);
  }

  /** A wait in nanoseconds grants a refused caller a token if and only if it is long enough. */
  lemma {:induction false} GrantAfterNanos(tokens: real, now: real, nanos: real, c: Config)
    requires Configured(c) && tokens < 1.0
    ensures Take(Some(Bucket(tokens, now)), now + nanos / NANOS_PER_MILLI, c).allowed <==> nanos >= WaitNanos(tokens, c)
  {
    var millis, needed := nanos / NANOS_PER_MILLI, (1.0 - tokens) / c.rate;
    assert (now + millis) - now == millis;
    assert Refill(needed, c) == 1.0 - tokens;
    RefillAdds(needed, millis - needed, millis, c);
    RefillSign(millis - needed, c);
  }

  lemma {:induction false} RefillSign(elapsed: real, c: Config)
    requires Configured(c)
    ensures Refill(elapsed, c) >= 0.0 <==> elapsed >= 0.0
  {
  }

  /** Over the reals the local hint is short by less than a nanosecond: before it a refused
      caller is refused again, and a nanosecond after it a token is there. */
  lemma {:induction false} LocalHintWithinNanosecond(tokens: real, now: real, nanos: real, c: Config)
    requires Configured(c) && tokens < 1.0
    ensures var hinted := LocalHint(tokens, c) * NANOS_PER_MILLI;
            var allowed := Take(Some(Bucket(tokens, now)), now + nanos / NANOS_PER_MILLI, c).allowed;
      (nanos < hinted ==> !allowed) && (nanos >= hinted + 1.0 ==> allowed)
  {
    GrantAfterNanos(tokens, now, nanos, c);
    var whole := WaitNanos(tokens, c).Floor as real;
    assert whole / NANOS_PER_MILLI * NANOS_PER_MILLI == whole;
  }
}
