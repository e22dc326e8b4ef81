/** The in-memory fixed-window rate limiter, over whole traces of calls with a clock that never runs back. */
module RateLimit {
  import opened Optional

  /** What the limiter knows of one key. */
  datatype Window = Window(count: int, resetAt: int)

  datatype Result = Result(allowed: bool, retryAfterMs: int)

  datatype Policy = Policy(limit: int, windowMs: int)

  /** Is the window over, or was there none? */
  predicate Expired(w: Option<Window>, now: int) {
    w.None? || w.value.resetAt <= now
  }

  /** The answer to one call on the state of its key. */
  function Answer(w: Option<Window>, p: Policy, now: int): (r: Result) {
    if Expired(w, now) then Result(true, 0)
    else if w.value.count >= p.limit then Result(false, w.value.resetAt - now)
    else Result(true, 0)
  }

  /** The state of its key afterwards. */
  function Next(w: Option<Window>, p: Policy, now: int): (w': Option<Window>) {
    if Expired(w, now) then Some(Window(1, now + p.windowMs))
    else if w.value.count >= p.limit then w
    else Some(w.value.(count := w.value.count + 1))
  }

  // ------------------------------------------------------------------
  // The limiter
  // ------------------------------------------------------------------

  class Bucket {
    var count: int
    var resetAt: int

    constructor (count: int, resetAt: int)
      ensures this.count == count && this.resetAt == resetAt
    {
      this.count, this.resetAt := count, resetAt;
    }
  }

  class RateLimiter {
    var buckets: map<string, Bucket>

    /** No two keys share a bucket. */
    ghost predicate Valid()
      reads this
    {
      forall k, j | k in buckets && j in buckets && k != j :: buckets[k] != buckets[j]
    }

    ghost function Repr(): set<Bucket>
      reads this
    {
      set k | k in buckets :: buckets[k]
    }

    /** What is known of each key. */
    ghost function State(): (s: map<string, Window>)
      reads this, Repr()
    {
      map k | k in buckets :: Window(buckets[k].count, buckets[k].resetAt)
    }

    constructor ()
      ensures Valid() && State() == map[]
      ensures fresh(Repr())
    {
      buckets := map[];
    }

    /** Answers as `Answer` says, moves the window of the key as `Next` says, and touches no other key. */
    method CheckRateLimit(key: string, limit: int, windowMs: int, now: int) returns (result: Result)
      requires Valid()
      modifies this, Repr()
      ensures Valid() && fresh(Repr() - old(Repr()))
      ensures result == Answer(Lookup(old(State()), key), Policy(limit, windowMs), now)
      ensures State() == Record(old(State()), key, Next(Lookup(old(State()), key), Policy(limit, windowMs), now))
    {
      if key !in buckets || buckets[key].resetAt <= now {
        var bucket := new Bucket(1, now + windowMs);
        buckets := buckets[key := bucket];
        return Result(true, 0);
      }
      var existing := buckets[key];
      if existing.count >= limit {
        return Result(false, existing.resetAt - now);
      }
      existing.count := existing.count + 1;
      return Result(true, 0);
    }
  }

  function Lookup(s: map<string, Window>, key: string): Option<Window> {
    if key in s then Some(s[key]) else None
  }

  function Record(s: map<string, Window>, key: string, w: Option<Window>): map<string, Window> {
    if w.Some? then s[key := w.value] else s
  }

  // ------------------------------------------------------------------
  // One key: what a trace of calls admits
  // ------------------------------------------------------------------

  predicate Sorted(times: seq<int>) {
    forall i, j | 0 <= i < j < |times| :: times[i] <= times[j]
  }

  /** No call is earlier than `lo`. */
  predicate From(times: seq<int>, lo: int) {
    forall i | 0 <= i < |times| :: lo <= times[i]
  }

  /** The state of the key after the calls. */
  function After(w: Option<Window>, p: Policy, times: seq<int>): (w': Option<Window>)
    decreases |times|
  {
    if times == [] then w else After(Next(w, p, times[0]), p, times[1..])
  }

  predicate Within(now: int, lo: int, hi: int) {
    lo <= now < hi
  }

  function Calls(times: seq<int>, lo: int, hi: int): (n: nat) {
    if times == [] then 0 else (if Within(times[0], lo, hi) then 1 else 0) + Calls(times[1..], lo, hi)
  }

  /** How many of the calls between `lo` and `hi` are admitted. */
  function Admitted(w: Option<Window>, p: Policy, times: seq<int>, lo: int, hi: int): (n: nat)
    decreases |times|
  {
    if times == [] then 0
    else
      (if Within(times[0], lo, hi) && Answer(w, p, times[0]).allowed then 1 else 0)
      + Admitted(Next(w, p, times[0]), p, times[1..], lo, hi)
  }

  /** What a window can admit: the call that opens it goes through even when the limit is not positive. */
  function Budget(p: Policy): int {
    if p.limit > 1 then p.limit else 1
  }

  predicate Sound(w: Option<Window>, p: Policy) {
    w.Some? ==> 1 <= w.value.count <= Budget(p)
  }

  function Min(a: int, b: int): int {
    if a <= b then a else b
  }

  lemma {:induction false} NoneTooLate(w: Option<Window>, p: Policy, times: seq<int>, lo: int, hi: int)
    requires Sorted(times) && (times != [] ==> hi <= times[0])
    ensures Calls(times, lo, hi) == Admitted(w, p, times, lo, hi) == 0
    decreases |times|
  {
    if times != [] {
      assert times[1..] != [] ==> times[0] <= times[1];
      NoneTooLate(Next(w, p, times[0]), p, times[1..], lo, hi);
    }
  }

  /** An open window admits exactly what is left of its budget, first come, first served. */
  lemma {:induction false} WindowAdmits(w: Option<Window>, p: Policy, times: seq<int>, lo: int)
    requires w.Some? && Sound(w, p)
    requires Sorted(times) && From(times, lo)
    ensures Admitted(w, p, times, lo, w.value.resetAt)
            == Min(Budget(p) - w.value.count, Calls(times, lo, w.value.resetAt))
    decreases |times|
  {
    if times == [] {
    } else if Expired(w, times[0]) {
      NoneTooLate(w, p, times, lo, w.value.resetAt);
    } else {
      WindowAdmits(Next(w, p, times[0]), p, times[1..], lo);
    }
  }

  /** Every window, from the call that opens it, admits its budget or all that come. */
  lemma EachWindowAdmitsItsBudget(w: Option<Window>, p: Policy, times: seq<int>)
    requires Sorted(times) && times != [] && Expired(w, times[0]) && p.windowMs > 0
    ensures var lo, hi := times[0], times[0] + p.windowMs;
            Admitted(w, p, times, lo, hi) == Min(Budget(p), Calls(times, lo, hi))
  {
    WindowAdmits(Next(w, p, times[0]), p, times[1..], times[0]);
  }

  lemma {:induction false} MonotoneInHi(w: Option<Window>, p: Policy, times: seq<int>, lo: int, hi: int, hi': int)
    requires hi <= hi'
    ensures Admitted(w, p, times, lo, hi) <= Admitted(w, p, times, lo, hi')
    decreases |times|
  {
    if times != [] { MonotoneInHi(Next(w, p, times[0]), p, times[1..], lo, hi, hi'); }
  }

  /** From an expired window on, less than one window length holds at most one budget. */
  lemma FromExpired(w: Option<Window>, p: Policy, times: seq<int>, lo: int, hi: int)
    requires Sorted(times) && From(times, lo) && hi <= lo + p.windowMs
    requires times != [] ==> Expired(w, times[0])
    ensures Admitted(w, p, times, lo, hi) <= Budget(p)
  {
    if times != [] {
      var w' := Next(w, p, times[0]);
      WindowAdmits(w', p, times[1..], lo);
      MonotoneInHi(w', p, times[1..], lo, hi, w'.value.resetAt);
    }
  }

  /** What is left of a window that is still open at `lo`, and then at most one more budget. */
  lemma {:induction false} FromOpen(w: Option<Window>, p: Policy, times: seq<int>, lo: int, hi: int)
    requires w.Some? && Sound(w, p)
    requires Sorted(times) && From(times, lo) && hi <= lo + p.windowMs
    ensures Admitted(w, p, times, lo, hi) <= Budget(p) - w.value.count + Budget(p)
    decreases |times|
  {
    if times != [] {
      if Expired(w, times[0]) {
        FromExpired(w, p, times, lo, hi);
      } else {
        FromOpen(Next(w, p, times[0]), p, times[1..], lo, hi);
      }
    }
  }

  /** Any interval of one window length, wherever it starts, admits at most two budgets less one. */
  lemma {:induction false} IntervalBound(w: Option<Window>, p: Policy, times: seq<int>, lo: int)
    requires Sound(w, p) && Sorted(times)
    ensures Admitted(w, p, times, lo, lo + p.windowMs) <= 2 * Budget(p) - 1
    decreases |times|
  {
    if times == [] {
    } else if times[0] < lo {
      IntervalBound(Next(w, p, times[0]), p, times[1..], lo);
    } else {
      assert From(times, lo);
      if w.None? {
        FromExpired(w, p, times, lo, lo + p.windowMs);
      } else {
        FromOpen(w, p, times, lo, lo + p.windowMs);
      }
    }
  }

  // ------------------------------------------------------------------
  // A denial's retry time is exact
  // ------------------------------------------------------------------

  /** Nothing is admitted before the announced time, whatever is tried in between, and the next call at or
      after it is. */
  lemma {:induction false} RetryIsExact(w: Option<Window>, p: Policy, now: int, tries: seq<int>, next: int)
    requires !Answer(w, p, now).allowed
    requires forall i | 0 <= i < |tries| :: Within(tries[i], now, now + Answer(w, p, now).retryAfterMs)
    ensures Answer(w, p, now).retryAfterMs > 0
    ensures Admitted(w, p, tries, now, now + Answer(w, p, now).retryAfterMs) == 0
    ensures now <= next ==>
              (Answer(After(w, p, tries), p, next).allowed <==> next >= now + Answer(w, p, now).retryAfterMs)
    decreases |tries|
  {
    if tries != [] {
      RetryIsExact(w, p, now, tries[1..], next);
    }
  }

  // ------------------------------------------------------------------
  // The interval bound is reached
  // ------------------------------------------------------------------

  function Burst(now: int, n: nat): (times: seq<int>)
    ensures |times| == n && forall i | 0 <= i < n :: times[i] == now
  {
    if n == 0 then [] else [now] + Burst(now, n - 1)
  }

  lemma {:induction false} BurstAdmits(w: Window, p: Policy, now: int, n: nat, rest: seq<int>, lo: int, hi: int)
    requires now < w.resetAt && w.count + n <= p.limit && Within(now, lo, hi)
    ensures Admitted(Some(w), p, Burst(now, n) + rest, lo, hi)
            == n + Admitted(Some(w.(count := w.count + n)), p, rest, lo, hi)
    decreases n
  {
    if n == 0 {
      assert Burst(now, n) + rest == rest;
    } else {
      assert (Burst(now, n) + rest)[1..] == Burst(now, n - 1) + rest;
      BurstAdmits(w.(count := w.count + 1), p, now, n - 1, rest, lo, hi);
    }
  }

  /** One call opens a window, the rest of its budget comes at its end, and the next budget right after. */
  function WorstTrace(p: Policy): seq<int>
    requires p.limit >= 1
  {
    [0] + (Burst(p.windowMs - 1, p.limit - 1) + Burst(p.windowMs, p.limit))
  }

  lemma WorstTraceIsSorted(p: Policy)
    requires p.limit >= 1 && p.windowMs >= 1
    ensures Sorted(WorstTrace(p))
  {
  }

  lemma IntervalBoundIsReached(p: Policy)
    requires p.limit >= 1 && p.windowMs >= 2
    ensures Sorted(WorstTrace(p))
    ensures var lo := p.windowMs - 1;
            Admitted(None, p, WorstTrace(p), lo, lo + p.windowMs) == 2 * Budget(p) - 1
  {
    WorstTraceIsSorted(p);
    var end := p.windowMs;
    var lo, hi := end - 1, end - 1 + end;
    assert WorstTrace(p)[1..] == Burst(end - 1, p.limit - 1) + Burst(end, p.limit);
    BurstAdmits(Window(1, end), p, end - 1, p.limit - 1, Burst(end, p.limit), lo, hi);
    assert Burst(end, p.limit)[1..] == Burst(end, p.limit - 1) + [];
    BurstAdmits(Window(1, end + end), p, end, p.limit - 1, [], lo, hi);
  }

  lemma {:induction false} EmptyInterval(w: Option<Window>, p: Policy, times: seq<int>, lo: int, hi: int)
    requires hi <= lo
    ensures Admitted(w, p, times, lo, hi) == 0
    decreases |times|
  {
    if times != [] { EmptyInterval(Next(w, p, times[0]), p, times[1..], lo, hi); }
  }

  /** With a window of one millisecond an interval that long admits no more than one budget. */
  lemma {:induction false} ShortestWindow(w: Option<Window>, p: Policy, times: seq<int>, lo: int)
    requires Sound(w, p) && Sorted(times) && p.windowMs == 1
    requires w.Some? && times != [] ==> w.value.resetAt <= times[0] + 1
    ensures Admitted(w, p, times, lo, lo + 1) <= Budget(p)
    decreases |times|
  {
    if times == [] {
    } else if times[0] < lo {
      ShortestWindow(Next(w, p, times[0]), p, times[1..], lo);
    } else if times[0] > lo {
      NoneTooLate(w, p, times, lo, lo + 1);
    } else if Expired(w, times[0]) {
      assert From(times, lo);
      FromExpired(w, p, times, lo, lo + 1);
    } else {
      assert From(times, lo);
      WindowAdmits(w, p, times, lo);
    }
  }

  /** The trace admits two budgets less one within one window length from `lo` on. */
  predicate Reaches(p: Policy, times: seq<int>, lo: int) {
    Sorted(times) && Admitted(None, p, times, lo, lo + p.windowMs) == 2 * Budget(p) - 1
  }

  ghost predicate BoundIsReached(p: Policy) {
    exists times, lo :: Reaches(p, times, lo)
  }

  /** There is if and only if the window lasts two milliseconds, or one when the budget is one call. */
  lemma BoundIsReachedExactly(p: Policy)
    ensures BoundIsReached(p) <==> p.windowMs >= 2 || (p.windowMs == 1 && Budget(p) == 1)
  {
    if p.windowMs >= 1 && Budget(p) == 1 {
      assert Reaches(p, [0], 0);
    } else if p.windowMs >= 2 {
      IntervalBoundIsReached(p);
      assert Reaches(p, WorstTrace(p), p.windowMs - 1);
    } else {
      forall times, lo
        ensures !Reaches(p, times, lo)
      {
        if Sorted(times) { ShortWindow(p, times, lo); }
      }
    }
  }

  lemma ShortWindow(p: Policy, times: seq<int>, lo: int)
    requires Sorted(times) && p.windowMs <= 1
    ensures Admitted(None, p, times, lo, lo + p.windowMs) <= if p.windowMs == 1 then Budget(p) else 0
  {
    if p.windowMs == 1 {
      ShortestWindow(None, p, times, lo);
    } else {
      EmptyInterval(None, p, times, lo, lo + p.windowMs);
    }
  }

  // ------------------------------------------------------------------
  // Many keys
  // ------------------------------------------------------------------

  datatype Call = Call(key: string, now: int)

  /** The answers to a trace of calls; every key has its own policy. */
  function Results(s: map<string, Window>, policy: string -> Policy, calls: seq<Call>): (results: seq<Result>)
    ensures |results| == |calls|
    decreases |calls|
  {
    if calls == [] then []
    else
      var key, now := calls[0].key, calls[0].now;
      [Answer(Lookup(s, key), policy(key), now)]
      + Results(Record(s, key, Next(Lookup(s, key), policy(key), now)), policy, calls[1..])
  }

  /** The times at which `key` is called. */
  function TimesOf(calls: seq<Call>, key: string): (times: seq<int>) {
    if calls == [] then []
    else (if calls[0].key == key then [calls[0].now] else []) + TimesOf(calls[1..], key)
  }

  /** How many calls of `key` between `lo` and `hi` were answered with yes. */
  function AdmittedOf(calls: seq<Call>, results: seq<Result>, key: string, lo: int, hi: int): (n: nat)
    requires |results| == |calls|
  {
    if calls == [] then 0
    else
      (if calls[0].key == key && Within(calls[0].now, lo, hi) && results[0].allowed then 1 else 0)
      + AdmittedOf(calls[1..], results[1..], key, lo, hi)
  }

  predicate ClockNeverRunsBack(calls: seq<Call>) {
    forall i, j | 0 <= i < j < |calls| :: calls[i].now <= calls[j].now
  }

  /** Keys do not interfere: what a key is granted depends on its own calls only. */
  lemma {:induction false} KeysDoNotInterfere(s: map<string, Window>, policy: string -> Policy, calls: seq<Call>,
                                              key: string, lo: int, hi: int)
    ensures AdmittedOf(calls, Results(s, policy, calls), key, lo, hi)
            == Admitted(Lookup(s, key), policy(key), TimesOf(calls, key), lo, hi)
    decreases |calls|
  {
    if calls != [] {
      var k, now := calls[0].key, calls[0].now;
      var s' := Record(s, k, Next(Lookup(s, k), policy(k), now));
      assert Results(s, policy, calls)[1..] == Results(s', policy, calls[1..]);
      KeysDoNotInterfere(s', policy, calls[1..], key, lo, hi);
      if k == key {
        assert TimesOf(calls, key)[1..] == TimesOf(calls[1..], key);
      } else {
        assert TimesOf(calls, key) == TimesOf(calls[1..], key);
      }
    }
  }

  lemma {:induction false} TimesFrom(calls: seq<Call>, key: string, lo: int)
    requires forall i | 0 <= i < |calls| :: lo <= calls[i].now
    ensures From(TimesOf(calls, key), lo)
  {
    if calls != [] { TimesFrom(calls[1..], key, lo); }
  }

  lemma {:induction false} TimesAreSorted(calls: seq<Call>, key: string)
    requires ClockNeverRunsBack(calls)
    ensures Sorted(TimesOf(calls, key))
  {
    if calls != [] {
      TimesAreSorted(calls[1..], key);
      forall i | 0 <= i < |calls[1..]| ensures calls[0].now <= calls[1..][i].now { }
      TimesFrom(calls[1..], key, calls[0].now);
      var rest := TimesOf(calls[1..], key);
      assert TimesOf(calls, key) == (if calls[0].key == key then [calls[0].now] else []) + rest;
    }
  }

  /** Over any trace of the whole limiter: no key is granted two budgets within one window length. */
  lemma LimiterBound(policy: string -> Policy, calls: seq<Call>, key: string, lo: int)
    requires ClockNeverRunsBack(calls)
    ensures AdmittedOf(calls, Results(map[], policy, calls), key, lo, lo + policy(key).windowMs)
            < 2 * Budget(policy(key))
  {
    KeysDoNotInterfere(map[], policy, calls, key, lo, lo + policy(key).windowMs);
    TimesAreSorted(calls, key);
    IntervalBound(None, policy(key), TimesOf(calls, key), lo);
  }

  /** No window ends later than one window length after `now`. */
  ghost predicate EndsInTime(s: map<string, Window>, policy: string -> Policy, now: int) {
    forall key <- s :: s[key].resetAt <= now + policy(key).windowMs
  }

  /** Who is admitted need not wait, and who is not waits for some time, but no longer than a window lasts. */
  predicate WaitIsBounded(result: Result, p: Policy) {
    if result.allowed then result.retryAfterMs == 0 else 0 < result.retryAfterMs <= p.windowMs
  }

  lemma EndsInTimeNext(s: map<string, Window>, policy: string -> Policy, key: string, now: int, later: int)
    requires EndsInTime(s, policy, now) && now <= later
    ensures EndsInTime(Record(s, key, Next(Lookup(s, key), policy(key), later)), policy, later)
  {
  }

  lemma {:induction false} WaitsFrom(s: map<string, Window>, policy: string -> Policy, calls: seq<Call>, now: int)
    requires EndsInTime(s, policy, now) && ClockNeverRunsBack(calls) && (calls != [] ==> now <= calls[0].now)
    ensures forall k | 0 <= k < |calls| :: WaitIsBounded(Results(s, policy, calls)[k], policy(calls[k].key))
    decreases |calls|
  {
    if calls != [] {
      var key, later := calls[0].key, calls[0].now;
      var s' := Record(s, key, Next(Lookup(s, key), policy(key), later));
      EndsInTimeNext(s, policy, key, now, later);
      assert forall i | 0 <= i < |calls[1..]| :: calls[1..][i] == calls[i + 1];
      WaitsFrom(s', policy, calls[1..], later);
      assert Results(s, policy, calls)[1..] == Results(s', policy, calls[1..]);
      forall k | 0 < k < |calls|
        ensures WaitIsBounded(Results(s, policy, calls)[k], policy(calls[k].key))
      {
        assert Results(s, policy, calls)[1..][k - 1] == Results(s, policy, calls)[k];
        assert calls[1..][k - 1] == calls[k];
      }
    }
  }

  /** In every trace of the whole limiter, for every key. */
  lemma WaitsAreBounded(policy: string -> Policy, calls: seq<Call>)
    requires ClockNeverRunsBack(calls)
    ensures forall k | 0 <= k < |calls| :: WaitIsBounded(Results(map[], policy, calls)[k], policy(calls[k].key))
  {
    WaitsFrom(map[], policy, calls, if calls == [] then 0 else calls[0].now);
  }

  /** After `results` the limiter is in state `s`, with the calls from the `k`-th on still to come. */
  ghost predicate Answered(policy: string -> Policy, calls: seq<Call>, k: nat, s: map<string, Window>,
                           results: seq<Result>) {
    k <= |calls| && results + Results(s, policy, calls[k..]) == Results(map[], policy, calls)
  }

  lemma AnsweredNext(policy: string -> Policy, calls: seq<Call>, k: nat, s: map<string, Window>, results: seq<Result>)
    requires k < |calls| && Answered(policy, calls, k, s, results)
    ensures var key, now := calls[k].key, calls[k].now;
            Answered(policy, calls, k + 1, Record(s, key, Next(Lookup(s, key), policy(key), now)),
                     results + [Answer(Lookup(s, key), policy(key), now)])
  {
    assert calls[k..][1..] == calls[k + 1..];
  }

  /** The limiter itself answers a trace that way. */
  method Replay(policy: string -> Policy, calls: seq<Call>) returns (results: seq<Result>)
    ensures results == Results(map[], policy, calls)
  {
    var limiter := new RateLimiter();
    results := [];
    ghost var s := limiter.State();
    for k := 0 to |calls|
      invariant limiter.Valid() && fresh(limiter) && fresh(limiter.Repr()) && s == limiter.State()
      invariant Answered(policy, calls, k, s, results)
    {
      var key, now := calls[k].key, calls[k].now;
      AnsweredNext(policy, calls, k, s, results);
      var result := limiter.CheckRateLimit(key, policy(key).limit, policy(key).windowMs, now);
      s := limiter.State();
      results := results + [result];
    }
  }
}
