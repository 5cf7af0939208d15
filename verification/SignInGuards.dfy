/** The two in-memory guards against guessing: the per-account lockout of
    internal/httpapi/login_guard.go and the per-address throttle of
    internal/httpapi/auth_throttle.go.  The clock never goes back. */
module LoginGuard {
  import opened ByteStrings

  datatype Failures = Failures(windowStart: int, lockedUntil: Option<int>, count: nat)

  type Entries = map<string, Failures>

  /** The failures allowed in one window, and its length in nanoseconds. */
  datatype Limits = Limits(maxFailures: nat, window: int)

  predicate Sensible(l: Limits) { l.maxFailures >= 1 && l.window > 0 }

  function Configure(maxFailures: int, window: int): (l: Limits)
    ensures Sensible(l)
  {
    Limits(if maxFailures < 1 then 5 else maxFailures, if window <= 0 then 900_000_000_000 else window)
  }

  predicate Blocked(entries: Entries, key: string, now: int) {
    key in entries && entries[key].lockedUntil.Some? && now < entries[key].lockedUntil.value
  }

  /** The entry after a wrong password at `now`. */
  function Counted(was: Option<Failures>, now: int, l: Limits): Failures {
    var entry := if was.None? || now - was.value.windowStart > l.window then Failures(now, None, 0) else was.value;
    if entry.count + 1 >= l.maxFailures then Failures(now, Some(now + l.window), 0)
    else entry.(count := entry.count + 1)
  }

  function Lookup(entries: Entries, key: string): Option<Failures> {
    if key in entries then Some(entries[key]) else None
  }

  datatype Op = Fail(key: string, now: int) | Success(key: string)

  function Step(entries: Entries, op: Op, l: Limits): Entries {
    match op
    case Fail(key, now) => entries[key := Counted(Lookup(entries, key), now, l)]
    case Success(key) => entries - {key}
  }

  function After(entries: Entries, ops: seq<Op>, l: Limits): Entries {
    if ops == [] then entries else Step(After(entries, ops[..|ops| - 1], l), ops[|ops| - 1], l)
  }

  class Guard {
    const limits: Limits
    const lower: string -> string
    var entries: Entries

    constructor (maxFailures: int, window: int, lower: string -> string)
      ensures Sensible(limits) && limits == Configure(maxFailures, window) && this.lower == lower && entries == map[]
      ensures limits.maxFailures == (if maxFailures < 1 then 5 else maxFailures)
      ensures limits.window == if window <= 0 then 15 * 60 * 1_000_000_000 else window
    {
      limits, this.lower, entries := Configure(maxFailures, window), lower, map[];
    }

    method IsBlocked(username: string, now: int) returns (blocked: bool)
      ensures blocked == Blocked(entries, lower(username), now)
    {
      var key := lower(username);
      if key !in entries {
        return false;
      }
      return entries[key].lockedUntil.Some? && now < entries[key].lockedUntil.value;
    }

    /** A wrong password: count it, and lock the account when the budget is used up. */
    method RecordFailure(username: string, now: int)
      modifies this
      ensures entries == Step(old(entries), Fail(lower(username), now), limits)
    {
      var key := lower(username);
      if key !in entries || now - entries[key].windowStart > limits.window {
        entries := entries[key := Failures(now, None, 0)];
      }
      var entry := entries[key].(count := entries[key].count + 1);
      if entry.count >= limits.maxFailures {
        entry := Failures(now, Some(now + limits.window), 0);
      }
      entries := entries[key := entry];
    }

    method RecordSuccess(username: string)
      modifies this
      ensures entries == Step(old(entries), Success(lower(username)), limits)
    {
      entries := entries - {lower(username)};
    }
  }

  // ---------------------------------------------------------------------------------
  // A lockout lasts
  // ---------------------------------------------------------------------------------

  /** No lock outlives its window, so a reset of the window never lifts a lock. */
  ghost predicate LocksWithinWindow(entries: Entries, l: Limits) {
    forall k <- entries :: entries[k].lockedUntil.Some? ==>
      entries[k].lockedUntil.value <= entries[k].windowStart + l.window
  }

  lemma {:induction false} StepKeepsLocks(entries: Entries, op: Op, l: Limits)
    requires Sensible(l) && LocksWithinWindow(entries, l)
    ensures LocksWithinWindow(Step(entries, op, l), l)
  {
  }

  /** Times of failures, in order and all before `now`. */
  ghost predicate Monotone(ops: seq<Op>, now: int) {
    && (forall i :: 0 <= i < |ops| && ops[i].Fail? ==> ops[i].now <= now)
    && (forall i, j :: 0 <= i < j < |ops| && ops[i].Fail? && ops[j].Fail? ==> ops[i].now <= ops[j].now)
  }

  lemma {:induction false} WindowStartPast(ops: seq<Op>, l: Limits, key: string, now: int)
    requires Monotone(ops, now) && key in After(map[], ops, l)
    ensures After(map[], ops, l)[key].windowStart <= now
  {
    var k := |ops| - 1;
    var was := After(map[], ops[..k], l);
    if key in was {
      WindowStartPast(ops[..k], l, key, now);
    }
  }

  /** One more failure, of this or another account, leaves a lock in force. */
  lemma {:induction false} LockHoldsOnce(ops: seq<Op>, op: Op, l: Limits, key: string, now: int)
    requires Sensible(l) && Monotone(ops, now) && LocksWithinWindow(After(map[], ops, l), l)
    requires Blocked(After(map[], ops, l), key, now) && op != Success(key)
    requires op.Fail? ==> op.now <= now && Monotone(ops, op.now)
    ensures Blocked(Step(After(map[], ops, l), op, l), key, now)
  {
    if op.Fail? && op.key == key {
      WindowStartPast(ops, l, key, op.now);
    }
  }

  lemma {:induction false} LocksStayWithinWindow(ops: seq<Op>, l: Limits)
    requires Sensible(l)
    ensures LocksWithinWindow(After(map[], ops, l), l)
  {
    if ops != [] {
      var k := |ops| - 1;
      LocksStayWithinWindow(ops[..k], l);
      StepKeepsLocks(After(map[], ops[..k], l), ops[k], l);
    }
  }

  /** A locked account stays locked until its time is up or a sign-in succeeds, whatever else
      happens to it or to other accounts: `from` is a moment at which the lock reached beyond
      `now`, and the history goes on from there. */
  lemma {:induction false} LockHolds(ops: seq<Op>, l: Limits, key: string, from: nat, now: int)
    requires Sensible(l) && Monotone(ops, now) && from <= |ops|
    requires Blocked(After(map[], ops[..from], l), key, now)
    requires forall i :: from <= i < |ops| ==> ops[i] != Success(key)
    ensures Blocked(After(map[], ops, l), key, now)
    decreases |ops|
  {
    if from == |ops| {
      assert ops[..from] == ops;
    } else {
      var k := |ops| - 1;
      assert ops[..k][..from] == ops[..from];
      LockHolds(ops[..k], l, key, from, now);
      LocksStayWithinWindow(ops[..k], l);
      LockHoldsOnce(ops[..k], ops[k], l, key, now);
    }
  }

  // ---------------------------------------------------------------------------------
  // A lockout is earned
  // ---------------------------------------------------------------------------------

  /** Failures of `key` from position `from` on. */
  function FailsSince(ops: seq<Op>, key: string, from: nat): nat {
    if |ops| <= from then 0
    else FailsSince(ops[..|ops| - 1], key, from) + if ops[|ops| - 1].Fail? && ops[|ops| - 1].key == key then 1 else 0
  }

  ghost predicate NoSuccess(ops: seq<Op>, key: string, from: nat) {
    forall i :: from <= i < |ops| ==> ops[i] != Success(key)
  }

  ghost predicate FailsWithin(ops: seq<Op>, key: string, from: nat, lo: int, hi: int) {
    forall i :: from <= i < |ops| && ops[i].Fail? && ops[i].key == key ==> lo <= ops[i].now <= hi
  }

  /** The lock until `until` was set by the failure at position `b - 1`, the last of exactly
      `maxFailures` failures from position `a` on, all within one window, and there has been
      no success since. */
  ghost predicate Earned(ops: seq<Op>, key: string, l: Limits, until: int, a: nat, b: nat) {
    && a < b <= |ops|
    && ops[b - 1] == Fail(key, until - l.window)
    && FailsSince(ops[..b], key, a) == l.maxFailures
    && FailsWithin(ops[..b], key, a, until - 2 * l.window, until - l.window)
    && NoSuccess(ops, key, a)
  }

  /** The count of an entry is the number of failures since position `a`, all in its window. */
  ghost predicate CountsFrom(ops: seq<Op>, key: string, entry: Failures, l: Limits, a: nat) {
    && a <= |ops|
    && FailsSince(ops, key, a) == entry.count < l.maxFailures
    && FailsWithin(ops, key, a, entry.windowStart, entry.windowStart + l.window)
    && NoSuccess(ops, key, a)
  }

  lemma {:induction false} EarnedStays(ops: seq<Op>, op: Op, key: string, l: Limits, until: int, a: nat, b: nat)
    requires Earned(ops, key, l, until, a, b) && op != Success(key)
    ensures Earned(ops + [op], key, l, until, a, b)
  {
    assert (ops + [op])[..b] == ops[..b];
  }

  /** What is known of the entry of `key` after a history. */
  ghost predicate Explained(ops: seq<Op>, key: string, entry: Failures, l: Limits, a: nat, lockA: nat, lockB: nat) {
    && CountsFrom(ops, key, entry, l, a)
    && (entry.lockedUntil.Some? ==> Earned(ops, key, l, entry.lockedUntil.value, lockA, lockB))
  }

  /** A step of another account. */
  lemma {:induction false} OtherKey(ops: seq<Op>, op: Op, key: string, entry: Failures, l: Limits, a: nat, lockA: nat,
                                    lockB: nat)
    requires Explained(ops, key, entry, l, a, lockA, lockB) && op.key != key
    ensures Explained(ops + [op], key, entry, l, a, lockA, lockB)
  {
    assert (ops + [op])[..|ops|] == ops;
    if entry.lockedUntil.Some? {
      EarnedStays(ops, op, key, l, entry.lockedUntil.value, lockA, lockB);
    }
  }

  /** A failure counted into a window that is still open. */
  lemma {:induction false} CountedFailure(ops: seq<Op>, now: int, key: string, entry: Failures, l: Limits, a: nat)
    requires CountsFrom(ops, key, entry, l, a) && entry.windowStart <= now <= entry.windowStart + l.window
    ensures FailsSince(ops + [Fail(key, now)], key, a) == entry.count + 1
    ensures FailsWithin(ops + [Fail(key, now)], key, a, entry.windowStart, entry.windowStart + l.window)
    ensures NoSuccess(ops + [Fail(key, now)], key, a)
  {
    assert (ops + [Fail(key, now)])[..|ops|] == ops;
  }

  /** A failure that uses up the budget earns the lock and starts a new count. */
  lemma {:induction false} LockingFailure(ops: seq<Op>, now: int, key: string, entry: Failures, l: Limits, a: nat)
    requires Sensible(l) && CountsFrom(ops, key, entry, l, a) && Monotone(ops, now)
    requires entry.windowStart <= now <= entry.windowStart + l.window && entry.count + 1 == l.maxFailures
    ensures Explained(ops + [Fail(key, now)], key, Failures(now, Some(now + l.window), 0), l, |ops| + 1, a, |ops| + 1)
  {
    CountedFailure(ops, now, key, entry, l, a);
    TakeAll(ops + [Fail(key, now)]);
  }

  /** Where an entry's count starts and, if it holds a lock, how the lock was earned. */
  lemma {:induction false} EntryExplained(ops: seq<Op>, l: Limits, key: string, now: int)
    returns (a: nat, lockA: nat, lockB: nat)
    requires Sensible(l) && Monotone(ops, now) && key in After(map[], ops, l)
    ensures Explained(ops, key, After(map[], ops, l)[key], l, a, lockA, lockB)
    decreases |ops|, 0
  {
    var k := |ops| - 1;
    var before, op := ops[..k], ops[k];
    var was := After(map[], before, l);
    assert ops == before + [op] && Monotone(before, now);
    if op.key != key {
      a, lockA, lockB := EntryExplained(before, l, key, now);
      OtherKey(before, op, key, was[key], l, a, lockA, lockB);
    } else {
      a, lockA, lockB := FailureExplained(before, op.now, l, key);
    }
  }

  lemma {:induction false} FailureExplained(before: seq<Op>, now: int, l: Limits, key: string)
    returns (a: nat, lockA: nat, lockB: nat)
    requires Sensible(l) && Monotone(before, now)
    ensures Explained(before + [Fail(key, now)], key, Counted(Lookup(After(map[], before, l), key), now, l), l, a,
                      lockA, lockB)
    decreases |before|, 1
  {
    var was := After(map[], before, l);
    var entry: Failures;
    if key !in was || now - was[key].windowStart > l.window {
      entry, a, lockA, lockB := Failures(now, None, 0), |before|, 0, 0;
    } else {
      entry := was[key];
      a, lockA, lockB := EntryExplained(before, l, key, now);
      WindowStartPast(before, l, key, now);
      if entry.lockedUntil.Some? {
        EarnedStays(before, Fail(key, now), key, l, entry.lockedUntil.value, lockA, lockB);
      }
    }
    if entry.count + 1 >= l.maxFailures {
      LockingFailure(before, now, key, entry, l, a);
      a, lockA, lockB := |before| + 1, a, |before| + 1;
    } else {
      CountedFailure(before, now, key, entry, l, a);
    }
  }

  /** An account is only ever locked by `maxFailures` failures within one window, with no
      success among them or since. */
  lemma {:induction false} BlockedIsEarned(ops: seq<Op>, l: Limits, key: string, now: int) returns (a: nat, b: nat)
    requires Sensible(l) && Monotone(ops, now) && Blocked(After(map[], ops, l), key, now)
    ensures Earned(ops, key, l, After(map[], ops, l)[key].lockedUntil.value, a, b)
  {
    var c;
    c, a, b := EntryExplained(ops, l, key, now);
  }

  // ---------------------------------------------------------------------------------
  // When failures lock
  // ---------------------------------------------------------------------------------

  /** What a list of failures makes of the entry of an account. */
  function AfterFailures(was: Option<Failures>, times: seq<int>, l: Limits): Option<Failures> {
    if times == [] then was
    else Some(Counted(AfterFailures(was, times[..|times| - 1], l), times[|times| - 1], l))
  }

  /** The times of the failures of `key` from position `from` on. */
  function FailTimes(ops: seq<Op>, key: string, from: nat): seq<int> {
    if |ops| <= from then []
    else
      var op := ops[|ops| - 1];
      FailTimes(ops[..|ops| - 1], key, from) + if op.Fail? && op.key == key then [op.now] else []
  }

  /** Since the last success, only its own failures matter to an account. */
  lemma {:induction false} OwnFailuresOnly(ops: seq<Op>, l: Limits, key: string, from: nat)
    requires from <= |ops| && NoSuccess(ops, key, from)
    ensures Lookup(After(map[], ops, l), key)
         == AfterFailures(Lookup(After(map[], ops[..from], l), key), FailTimes(ops, key, from), l)
    decreases |ops|
  {
    if from == |ops| {
      TakeAll(ops);
    } else {
      var k := |ops| - 1;
      assert ops[..k][..from] == ops[..from];
      OwnFailuresOnly(ops[..k], l, key, from);
      var times := FailTimes(ops[..k], key, from);
      assert times + [] == times;
      if ops[k].Fail? && ops[k].key == key {
        assert (times + [ops[k].now])[..|times|] == times;
      }
    }
  }

  /** The `n`-th of the failures locks the account, for one window. */
  ghost predicate LocksAt(was: Option<Failures>, times: seq<int>, l: Limits, n: nat) {
    && 0 < n <= |times|
    && AfterFailures(was, times[..n], l) == Some(Failures(times[n - 1], Some(times[n - 1] + l.window), 0))
  }

  /** As many failures as are allowed in a window, in order, and within the length of one. */
  ghost predicate Burst(times: seq<int>, l: Limits) {
    && |times| == l.maxFailures >= 1 && times[|times| - 1] <= times[0] + l.window
    && (forall i, j :: 0 <= i < j < |times| ==> times[i] <= times[j])
  }

  /** The entry a failure is counted in: the one of a window that is still open, or a new one. */
  function Open(was: Option<Failures>, now: int, l: Limits): Failures {
    if was.Some? && now <= was.value.windowStart + l.window then was.value else Failures(now, None, 0)
  }

  lemma {:induction false} CountUp(was: Option<Failures>, times: seq<int>, l: Limits, n: nat)
    requires 0 < n <= |times|
    requires var e := Open(was, times[0], l);
      e.count + n < l.maxFailures && forall i :: 0 <= i < n ==> times[i] <= e.windowStart + l.window
    ensures var e := Open(was, times[0], l); AfterFailures(was, times[..n], l) == Some(e.(count := e.count + n))
    decreases n
  {
    assert times[..n][..n - 1] == times[..n - 1];
    if n > 1 {
      CountUp(was, times, l, n - 1);
    }
  }

  lemma {:induction false} FailuresAppend(was: Option<Failures>, a: seq<int>, b: seq<int>, l: Limits)
    ensures AfterFailures(was, a + b, l) == AfterFailures(AfterFailures(was, a, l), b, l)
    decreases |b|
  {
    if b == [] {
      assert a + b == a;
    } else {
      var k := |b| - 1;
      assert (a + b)[..|a| + k] == a + b[..k];
      FailuresAppend(was, a, b[..k], l);
    }
  }

  /** As many failures as are allowed, within the length of one window, lock the account if and
      only if the one that uses up the count of the open window comes before that window ends: the
      windows do not slide. */
  lemma {:induction false} BurstLocksExactly(was: Option<Failures>, times: seq<int>, l: Limits)
    requires Sensible(l) && Burst(times, l)
    requires was.Some? ==> was.value.count < l.maxFailures
    ensures var e := Open(was, times[0], l);
      (exists n: nat :: LocksAt(was, times, l, n)) <==> times[l.maxFailures - 1 - e.count] <= e.windowStart + l.window
  {
    var e := Open(was, times[0], l);
    var j := l.maxFailures - 1 - e.count;
    if times[j] <= e.windowStart + l.window {
      if j > 0 {
        CountUp(was, times, l, j);
      }
      assert times[..j + 1][..j] == times[..j];
      assert LocksAt(was, times, l, j + 1);
    } else {
      forall n: nat
        ensures !LocksAt(was, times, l, n)
      {
        if 0 < n <= |times| {
          LateBurst(was, times, l, n);
        }
      }
    }
  }

  lemma {:induction false} LateBurst(was: Option<Failures>, times: seq<int>, l: Limits, n: nat)
    requires Sensible(l) && Burst(times, l) && 0 < n <= |times|
    requires was.Some? ==> was.value.count < l.maxFailures
    requires var e := Open(was, times[0], l); times[l.maxFailures - 1 - e.count] > e.windowStart + l.window
    ensures !LocksAt(was, times, l, n)
  {
    var e := Open(was, times[0], l);
    var late := FirstLate(times, e.windowStart + l.window, l.maxFailures - 1 - e.count);
    if n <= late {
      CountUp(was, times, l, n);
    } else {
      CountUp(was, times, l, late);
      AfterLate(was, times, l, late, n);
    }
  }

  /** A failure that comes too late for the open window starts a new count. */
  lemma {:induction false} AfterLate(was: Option<Failures>, times: seq<int>, l: Limits, late: nat, n: nat)
    requires Sensible(l) && Burst(times, l) && 0 < late < n <= |times|
    requires var midway := AfterFailures(was, times[..late], l);
      midway.Some? && times[late] > midway.value.windowStart + l.window
    ensures AfterFailures(was, times[..n], l) == Some(Failures(times[late], None, n - late))
  {
    var rest := times[late..];
    CountUp(AfterFailures(was, times[..late], l), rest, l, n - late);
    assert times[..n] == times[..late] + rest[..n - late];
    FailuresAppend(was, times[..late], rest[..n - late], l);
  }

  lemma {:induction false} FirstLate(times: seq<int>, end: int, j: nat) returns (late: nat)
    requires j < |times| && times[j] > end >= times[0]
    ensures 0 < late <= j && times[late] > end && forall i :: 0 <= i < late ==> times[i] <= end
  {
    late := 1;
    while times[late] <= end
      invariant 0 < late <= j && forall i :: 0 <= i < late ==> times[i] <= end
      decreases j - late
    {
      late := late + 1;
    }
  }

  /** An account whose last window is over, or that has none, is locked by such failures, until the
      last of them plus the window. */
  lemma {:induction false} FreshBurstLocks(ops: seq<Op>, l: Limits, key: string, from: nat, now: int)
    requires Sensible(l) && from <= |ops| && NoSuccess(ops, key, from)
    requires Burst(FailTimes(ops, key, from), l)
    requires var was, first := After(map[], ops[..from], l), FailTimes(ops, key, from)[0];
      key in was ==> first > was[key].windowStart + l.window
    ensures Blocked(After(map[], ops, l), key, now) <==> now < FailTimes(ops, key, from)[l.maxFailures - 1] + l.window
  {
    var was, times := Lookup(After(map[], ops[..from], l), key), FailTimes(ops, key, from);
    OwnFailuresOnly(ops, l, key, from);
    FreshBurst(was, times, l);
  }

  lemma {:induction false} FreshBurst(was: Option<Failures>, times: seq<int>, l: Limits)
    requires Sensible(l) && Burst(times, l) && (was.Some? ==> times[0] > was.value.windowStart + l.window)
    ensures var last := times[|times| - 1];
      AfterFailures(was, times, l) == Some(Failures(last, Some(last + l.window), 0))
  {
    var k := l.maxFailures - 1;
    if k > 0 {
      CountUp(was, times, l, k);
    }
  }

  /** Three failures within a window of ten do not lock when the window was opened too early. */
  lemma {:induction false} WindowsDoNotSlide(key: string)
    ensures var l, ops := Limits(3, 10), [Fail(key, 0), Fail(key, 9), Fail(key, 11), Fail(key, 12)];
      && Burst(FailTimes(ops, key, 1), l) && !Blocked(After(map[], ops, l), key, 12)
  {
    var l, ops := Limits(3, 10), [Fail(key, 0), Fail(key, 9), Fail(key, 11), Fail(key, 12)];
    assert ops[..3][..2] == ops[..2] && ops[..2][..1] == ops[..1] && ops[..1][..0] == [];
    assert FailTimes(ops[..1], key, 1) == [] && FailTimes(ops[..2], key, 1) == [9];
    assert FailTimes(ops[..3], key, 1) == [9, 11] && FailTimes(ops, key, 1) == [9, 11, 12];
    assert After(map[], ops[..1], l) == map[key := Failures(0, None, 1)];
    assert After(map[], ops[..2], l) == map[key := Failures(0, None, 2)];
    assert After(map[], ops[..3], l) == map[key := Failures(11, None, 1)];
  }
}

module AuthThrottle {
  const SWEEP_ABOVE: nat := 4096

  datatype Bucket = Bucket(start: int, count: nat)

  type Buckets = map<string, Bucket>

  predicate Stale(b: Bucket, now: int, window: int) { now - b.start > window }

  /** The sweep of an overgrown map. */
  function Swept(buckets: Buckets, now: int, window: int): Buckets {
    if |buckets| > SWEEP_ABOVE
    then map k | k in buckets && !Stale(buckets[k], now, window) :: buckets[k]
    else buckets
  }

  /** The map after a question about `key`: swept, and without the stale bucket of `key`. */
  function Asked(buckets: Buckets, key: string, now: int, window: int): Buckets {
    var b := Swept(buckets, now, window);
    if key in b && Stale(b[key], now, window) then b - {key} else b
  }

  /** The answer, and the same for a map that never forgets. */
  predicate Blocked(buckets: Buckets, key: string, now: int, window: int, limit: int) {
    key in buckets && !Stale(buckets[key], now, window) && buckets[key].count >= limit
  }

  function Failed(buckets: Buckets, key: string, now: int, window: int): Buckets {
    if key !in buckets || Stale(buckets[key], now, window) then buckets[key := Bucket(now, 1)]
    else buckets[key := buckets[key].(count := buckets[key].count + 1)]
  }

  class Throttle {
    const limit: int
    const window: int
    var buckets: Buckets

    constructor (limit: int, window: int)
      ensures this.limit == limit && this.window == window && buckets == map[]
    {
      this.limit, this.window, buckets := limit, window, map[];
    }

    /** Forget every stale bucket, visiting them in any order. */
    method Sweep(now: int)
      modifies this
      ensures buckets == map k | k in old(buckets) && !Stale(old(buckets)[k], now, window) :: old(buckets)[k]
    {
      var todo := buckets.Keys;
      while todo != {}
        invariant todo <= buckets.Keys <= old(buckets).Keys
        invariant forall k <- buckets :: buckets[k] == old(buckets)[k]
        invariant forall k <- old(buckets) :: k in todo || (k in buckets <==> !Stale(old(buckets)[k], now, window))
        decreases todo
      {
        var k :| k in todo;
        todo := todo - {k};
        if Stale(buckets[k], now, window) {
          buckets := buckets - {k};
        }
      }
    }

    method IsBlocked(key: string, now: int) returns (blocked: bool)
      modifies this
      ensures buckets == Asked(old(buckets), key, now, window)
      ensures blocked == Blocked(Swept(old(buckets), now, window), key, now, window, limit)
    {
      if |buckets| > SWEEP_ABOVE {
        Sweep(now);
      }
      if key !in buckets {
        return false;
      }
      if Stale(buckets[key], now, window) {
        buckets := buckets - {key};
        return false;
      }
      return buckets[key].count >= limit;
    }

    method RecordFailure(key: string, now: int)
      modifies this
      ensures buckets == Failed(old(buckets), key, now, window)
    {
      if key !in buckets || Stale(buckets[key], now, window) {
        buckets := buckets[key := Bucket(now, 0)];
      }
      buckets := buckets[key := buckets[key].(count := buckets[key].count + 1)];
    }
  }

  datatype Op = Ask(key: string, now: int) | Fail(key: string, now: int)

  /** The answers the throttle gives; a failure is answered by `false`. */
  function Answers(buckets: Buckets, ops: seq<Op>, window: int, limit: int): seq<bool>
    decreases |ops|
  {
    if ops == [] then []
    else match ops[0]
      case Ask(key, now) =>
        [Blocked(Swept(buckets, now, window), key, now, window, limit)]
        + Answers(Asked(buckets, key, now, window), ops[1..], window, limit)
      case Fail(key, now) => [false] + Answers(Failed(buckets, key, now, window), ops[1..], window, limit)
  }

  /** The answers of a throttle that never deletes anything. */
  function ReferenceAnswers(buckets: Buckets, ops: seq<Op>, window: int, limit: int): seq<bool>
    decreases |ops|
  {
    if ops == [] then []
    else match ops[0]
      case Ask(key, now) =>
        [Blocked(buckets, key, now, window, limit)] + ReferenceAnswers(buckets, ops[1..], window, limit)
      case Fail(key, now) => [false] + ReferenceAnswers(Failed(buckets, key, now, window), ops[1..], window, limit)
  }

  /** The throttle lacks only buckets that are stale by now. */
  ghost predicate Lags(buckets: Buckets, all: Buckets, now: int, window: int) {
    && (forall k <- buckets :: k in all && all[k] == buckets[k])
    && (forall k <- all :: k in buckets || Stale(all[k], now, window))
  }

  ghost predicate Monotone(ops: seq<Op>, from: int) {
    && (forall i :: 0 <= i < |ops| ==> from <= ops[i].now)
    && (forall i, j :: 0 <= i < j < |ops| ==> ops[i].now <= ops[j].now)
  }

  lemma {:induction false} TailMonotone(ops: seq<Op>, from: int)
    requires ops != [] && Monotone(ops, from)
    ensures Monotone(ops[1..], ops[0].now) && from <= ops[0].now
  {
    assert forall i :: 0 <= i < |ops[1..]| ==> ops[1..][i] == ops[i + 1];
  }

  lemma {:induction false} AskedLags(buckets: Buckets, all: Buckets, key: string, from: int, now: int, window: int,
                                     limit: int)
    requires Lags(buckets, all, from, window) && from <= now
    ensures Lags(Asked(buckets, key, now, window), all, now, window)
    ensures Blocked(Swept(buckets, now, window), key, now, window, limit) == Blocked(all, key, now, window, limit)
  {
    assert Lags(Swept(buckets, now, window), all, now, window);
  }

  lemma {:induction false} FailedLags(buckets: Buckets, all: Buckets, key: string, from: int, now: int, window: int)
    requires Lags(buckets, all, from, window) && from <= now
    ensures Lags(Failed(buckets, key, now, window), Failed(all, key, now, window), now, window)
  {
  }

  /** Sweeping and deleting never change an answer, whatever the failures and questions. */
  lemma {:induction false} ForgettingIsInvisible(buckets: Buckets, all: Buckets, ops: seq<Op>, from: int, window: int,
                                                 limit: int)
    requires Lags(buckets, all, from, window) && Monotone(ops, from)
    ensures Answers(buckets, ops, window, limit) == ReferenceAnswers(all, ops, window, limit)
    decreases |ops|
  {
    if ops != [] {
      TailMonotone(ops, from);
      var now := ops[0].now;
      match ops[0]
      case Ask(key, _) =>
        AskedLags(buckets, all, key, from, now, window, limit);
        ForgettingIsInvisible(Asked(buckets, key, now, window), all, ops[1..], now, window, limit);
      case Fail(key, _) =>
        FailedLags(buckets, all, key, from, now, window);
        ForgettingIsInvisible(Failed(buckets, key, now, window), Failed(all, key, now, window), ops[1..], now, window,
                              limit);
    }
  }

  // ---------------------------------------------------------------------------------
  // The answers, told by the failures alone
  // ---------------------------------------------------------------------------------

  predicate FailsAt(ops: seq<Op>, key: string, i: nat)
    requires i < |ops|
  {
    ops[i].Fail? && ops[i].key == key
  }

  /** A failure of `key` opens a window unless it falls into one that an earlier failure opened. */
  ghost predicate Opens(ops: seq<Op>, key: string, window: int, i: nat)
    requires i < |ops|
    decreases i
  {
    FailsAt(ops, key, i) && forall j: nat :: j < i && Opens(ops, key, window, j) ==> ops[i].now - ops[j].now > window
  }

  /** Failures of `key` from position `from` on. */
  function FailsSince(ops: seq<Op>, key: string, from: nat): nat {
    if |ops| <= from then 0
    else FailsSince(ops[..|ops| - 1], key, from) + if FailsAt(ops, key, |ops| - 1) then 1 else 0
  }

  /** At `now` some window of `key` is open that holds at least `limit` failures. */
  ghost predicate Exceeded(ops: seq<Op>, key: string, window: int, limit: int, now: int) {
    exists i: nat :: i < |ops| && Opens(ops, key, window, i) && now - ops[i].now <= window
                     && FailsSince(ops, key, i) >= limit
  }

  /** The map that never forgets, after a list of operations. */
  function AllAfter(ops: seq<Op>, window: int): Buckets {
    if ops == [] then map[]
    else
      var before, op := AllAfter(ops[..|ops| - 1], window), ops[|ops| - 1];
      if op.Fail? then Failed(before, op.key, op.now, window) else before
  }

  lemma {:induction false} OpensBefore(ops: seq<Op>, key: string, window: int, n: nat, i: nat)
    requires i < n <= |ops|
    ensures Opens(ops[..n], key, window, i) <==> Opens(ops, key, window, i)
    decreases i
  {
    forall j: nat | j < i
      ensures Opens(ops[..n], key, window, j) <==> Opens(ops, key, window, j)
    {
      OpensBefore(ops, key, window, n, j);
    }
  }

  /** Position `i` is the last that opened a window of `key`. */
  ghost predicate LastOpening(ops: seq<Op>, key: string, window: int, i: nat) {
    i < |ops| && Opens(ops, key, window, i) && forall j: nat :: i < j < |ops| ==> !Opens(ops, key, window, j)
  }

  lemma {:induction false} OpeningStays(ops: seq<Op>, key: string, window: int, i: nat)
    requires ops != [] && LastOpening(ops[..|ops| - 1], key, window, i) && !Opens(ops, key, window, |ops| - 1)
    ensures LastOpening(ops, key, window, i)
  {
    var k := |ops| - 1;
    forall j: nat | j < k
      ensures Opens(ops[..k], key, window, j) <==> Opens(ops, key, window, j)
    {
      OpensBefore(ops, key, window, k, j);
    }
  }

  /** A failure opens a window exactly when the last one is over. */
  lemma {:induction false} OpensExactly(ops: seq<Op>, key: string, window: int, from: int, i: nat)
    requires ops != [] && Monotone(ops, from) && FailsAt(ops, key, |ops| - 1)
    requires LastOpening(ops[..|ops| - 1], key, window, i)
    ensures Opens(ops, key, window, |ops| - 1) <==> ops[|ops| - 1].now - ops[i].now > window
  {
    var k := |ops| - 1;
    OpensBefore(ops, key, window, k, i);
    forall j: nat | j < k && Opens(ops, key, window, j)
      ensures j <= i
    {
      OpensBefore(ops, key, window, k, j);
    }
  }

  lemma {:induction false} NoOpening(ops: seq<Op>, key: string, window: int)
    requires ops != [] && forall j: nat :: j < |ops| - 1 ==> !FailsAt(ops, key, j)
    ensures Opens(ops, key, window, |ops| - 1) <==> FailsAt(ops, key, |ops| - 1)
  {
  }

  /** The bucket of a key counts the failures of the last window that opened. */
  lemma {:induction false} BucketExactly(ops: seq<Op>, key: string, window: int, from: int) returns (i: nat)
    requires Monotone(ops, from)
    ensures var all := AllAfter(ops, window);
      if key in all then LastOpening(ops, key, window, i) && all[key] == Bucket(ops[i].now, FailsSince(ops, key, i))
      else forall j: nat :: j < |ops| ==> !FailsAt(ops, key, j)
  {
    i := 0;
    if ops != [] {
      var k := |ops| - 1;
      var before := AllAfter(ops[..k], window);
      assert Monotone(ops[..k], from) && forall j: nat :: j < k ==> FailsAt(ops[..k], key, j) == FailsAt(ops, key, j);
      i := BucketExactly(ops[..k], key, window, from);
      if !FailsAt(ops, key, k) {
        if key in before {
          OpeningStays(ops, key, window, i);
        }
      } else if key in before {
        OpensExactly(ops, key, window, from, i);
        if Opens(ops, key, window, k) {
          i := k;
          assert FailsSince(ops[..k], key, k) == 0;
        } else {
          OpeningStays(ops, key, window, i);
        }
      } else {
        NoOpening(ops, key, window);
        i := k;
        assert FailsSince(ops[..k], key, k) == 0;
      }
    }
  }

  /** The map that never forgets blocks a key exactly when it has too many failures in a window
      that is still open. */
  lemma {:induction false} BlockedExactly(ops: seq<Op>, key: string, window: int, limit: int, from: int, now: int)
    requires Monotone(ops, from) && forall i :: 0 <= i < |ops| ==> ops[i].now <= now
    ensures Blocked(AllAfter(ops, window), key, now, window, limit) <==> Exceeded(ops, key, window, limit, now)
  {
    var i := BucketExactly(ops, key, window, from);
    if key in AllAfter(ops, window) {
      forall j: nat | j < |ops| && Opens(ops, key, window, j) && now - ops[j].now <= window
        ensures j == i
      {
        assert j <= i;
      }
    }
  }

  lemma {:induction false} AnswersFrom(ops: seq<Op>, n: nat, window: int, limit: int, k: nat)
    requires n <= k < |ops| && ops[k].Ask?
    ensures |ReferenceAnswers(AllAfter(ops[..n], window), ops[n..], window, limit)| == |ops| - n
    ensures ReferenceAnswers(AllAfter(ops[..n], window), ops[n..], window, limit)[k - n]
         == Blocked(AllAfter(ops[..k], window), ops[k].key, ops[k].now, window, limit)
    decreases k - n
  {
    AnswersSize(AllAfter(ops[..n], window), ops[n..], window, limit);
    if n < k {
      assert ops[..n + 1][..n] == ops[..n] && ops[n..][1..] == ops[n + 1..];
      AnswersFrom(ops, n + 1, window, limit, k);
    }
  }

  lemma {:induction false} AnswersSize(buckets: Buckets, ops: seq<Op>, window: int, limit: int)
    ensures |ReferenceAnswers(buckets, ops, window, limit)| == |ops|
    decreases |ops|
  {
    if ops != [] {
      AnswersSize(match ops[0] case Ask(_, _) => buckets case Fail(key, now) => Failed(buckets, key, now, window),
                  ops[1..], window, limit);
    }
  }

  /** From the first operation on, the throttle refuses a key if and only if at least `limit` of
      its failures fall into the window that is open. */
  lemma {:induction false} RefusedExactly(ops: seq<Op>, window: int, limit: int, k: nat, from: int)
    requires Monotone(ops, from) && k < |ops| && ops[k].Ask?
    ensures |Answers(map[], ops, window, limit)| == |ops|
    ensures Answers(map[], ops, window, limit)[k] <==> Exceeded(ops[..k], ops[k].key, window, limit, ops[k].now)
  {
    ForgettingIsInvisible(map[], map[], ops, from, window, limit);
    assert ops[..0] == [] && ops[0..] == ops;
    AnswersFrom(ops, 0, window, limit, k);
    BlockedExactly(ops[..k], ops[k].key, window, limit, from, ops[k].now);
  }
}
