/** The rate limiter around the token bucket script: key expiry, clocks that disagree, many keys in
    one store, and the calls that fail open (pkg/wkhttp/ratelimit.go). */
module RateLimiter {
  import opened Options
  import opened TokenBucket

  lemma CeilIsLeast(x: real, w: int)
    ensures w >= Ceil(x) <==> w as real >= x
  {
  }

  // ----- The retry hint -----

  /** The least whole number of seconds, at least one, after which a lone retry is admitted.  Besides
      the missing tokens it has to cover the time by which the clock stands behind the stored time. */
  ghost function LeastWait(c: Config, b: Bucket, now: real): int
    requires c.rate > 0.0
  {
    Max(1, Ceil((1.0 - Filled(c, Some(b), now)) / c.rate + RMax(0.0, b.ts - now)))
  }

  function Refill(c: Config, time: real): real {
    time * c.rate
  }

  /** Time to earn a missing amount. */
  lemma EarnedBy(c: Config, missing: real, wait: real)
    requires c.rate > 0.0
    ensures wait >= missing / c.rate <==> wait * c.rate >= missing
  {
  }

  /** What a clock adds over a wait of w seconds: nothing until it has passed the stored time. */
  lemma EarnedLater(c: Config, passed: real, w: real)
    requires c.rate > 0.0 && w >= 0.0
    ensures var usable := w - RMax(0.0, -passed);
            if usable >= 0.0 then Refill(c, RMax(0.0, passed + w)) == Refill(c, RMax(0.0, passed)) + Refill(c, usable)
            else Refill(c, RMax(0.0, passed + w)) == Refill(c, RMax(0.0, passed)) == 0.0 && Refill(c, usable) < 0.0
  {
  }

  lemma AllowedIff(c: Config, b: Bucket, now: real)
    requires c.Valid()
    ensures var tokens := b.tokens + Refill(c, RMax(0.0, now - b.ts));
            && (Script(c, Some(b), now).reply.allowed <==> tokens >= 1.0)
            && (tokens < 1.0 ==> Filled(c, Some(b), now) == tokens)
  {
  }

  /** A wait is long enough when its usable part earns what is missing. */
  lemma WaitEarns(c: Config, b: Bucket, now: real, w: int)
    requires c.rate > 0.0 && w >= 1
    ensures w >= LeastWait(c, b, now)
       <==> Refill(c, w as real - RMax(0.0, b.ts - now)) >= 1.0 - Filled(c, Some(b), now)
  {
    var missing, behind := 1.0 - Filled(c, Some(b), now), RMax(0.0, b.ts - now);
    CeilIsLeast(missing / c.rate + behind, w);
    EarnedBy(c, missing, w as real - behind);
    hide Filled, RMax, Ceil;
  }

  lemma LeastWaitIsExact(c: Config, b: Bucket, now: real, w: int)
    requires c.Valid() && InRange(c, Some(b)) && w >= 1
    requires !Script(c, Some(b), now).reply.allowed
    ensures Script(c, Some(b), now + w as real).reply.allowed <==> w >= LeastWait(c, b, now)
  {
    var passed, wait := now - b.ts, w as real;
    WaitEarns(c, b, now, w);
    EarnedLater(c, passed, wait);
    AllowedIff(c, b, now);
    AllowedIff(c, b, now + wait);
    hide Script, Filled, RMax, LeastWait, InRange, Refill;
    assert b.ts - now == -passed && now + wait - b.ts == passed + wait;
  }

  /** By how much the hint exceeds the time in which the missing tokens are earned: what rounding up to
      whole seconds, and to at least one, has added. */
  ghost function Slack(c: Config, b: Bucket, now: real): real
    requires c.rate > 0.0
  {
    RetryAfter(c, Filled(c, Some(b), now)) as real - (1.0 - Filled(c, Some(b), now)) / c.rate
  }

  /** The hint sent with a denial never exceeds the least wait.  A retry after it is admitted exactly when
      the time by which the clock stands behind the stored time fits into the slack; the hint is then the
      least wait, as it always is when the clock is not behind. */
  lemma RetryHint(c: Config, b: Bucket, now: real)
    requires c.Valid() && InRange(c, Some(b))
    requires !Script(c, Some(b), now).reply.allowed
    ensures var hint := Script(c, Some(b), now).reply.retryAfter;
            && 1 <= hint <= LeastWait(c, b, now)
            && (Script(c, Some(b), now + hint as real).reply.allowed <==> b.ts - now <= Slack(c, b, now))
            && (b.ts - now <= Slack(c, b, now) <==> hint == LeastWait(c, b, now))
            && (now >= b.ts ==> hint == LeastWait(c, b, now))
  {
    var hint := RetryAfter(c, Filled(c, Some(b), now));
    var missing := (1.0 - Filled(c, Some(b), now)) / c.rate;
    var behind := RMax(0.0, b.ts - now);
    CeilIsLeast(missing, Ceil(missing + behind));
    CeilIsLeast(missing, hint);
    CeilIsLeast(missing + behind, Ceil(missing + behind));
    CeilIsLeast(missing + behind, hint);
    DeniedReply(c, b, now);
    LeastWaitIsExact(c, b, now, hint);
    hide Script, Filled, InRange, Ceil;
  }

  lemma DeniedReply(c: Config, b: Bucket, now: real)
    requires c.Valid() && !Script(c, Some(b), now).reply.allowed
    ensures Script(c, Some(b), now).reply.retryAfter == RetryAfter(c, Filled(c, Some(b), now))
  {
  }

  /** With the clock behind the stored time the hint can be too short. */
  lemma RetryHintTooShort()
    ensures var c := Config(1.0, 1);
            var b := Bucket(0.0, 100.0);
            && c.Valid() && InRange(c, Some(b))
            && Script(c, Some(b), 0.0).reply == Reply(false, 0, 1)
            && !Script(c, Some(b), 1.0).reply.allowed
  {
    assert Ceil(1.0) == 1;
  }

  // ----- The remaining requests -----

  /** The stored state after k more calls at the same moment. */
  ghost function Repeated(c: Config, b: Option<Bucket>, now: real, k: nat): Option<Bucket> {
    if k == 0 then b else Script(c, Repeated(c, b, now, k - 1), now).bucket
  }

  /** The level that k more calls at the same moment leave: each takes a token while there is one. */
  lemma {:induction false} RepeatedLevel(c: Config, b: Option<Bucket>, now: real, k: nat)
    requires c.Valid() && InRange(c, b)
    ensures var level := Filled(c, b, now);
            && level >= 0.0
            && (k as real <= level ==> Filled(c, Repeated(c, b, now, k), now) == level - k as real)
            && (k as real > level ==> Filled(c, Repeated(c, b, now, k), now) < 1.0)
  {
    if k > 0 {
      RepeatedLevel(c, b, now, k - 1);
      assert Repeated(c, b, now, k) == Script(c, Repeated(c, b, now, k - 1), now).bucket;
      hide RetryAfter;
      CallTakes(c, Repeated(c, b, now, k - 1), now);
    }
  }

  /** What a call leaves at that moment. */
  lemma CallTakes(c: Config, b: Option<Bucket>, now: real)
    requires c.Valid()
    ensures var level := Filled(c, b, now);
            && Script(c, b, now).reply.allowed == (level >= 1.0)
            && Filled(c, Script(c, b, now).bucket, now) == (if level >= 1.0 then level - 1.0 else level)
  {
    assert 0.0 * c.rate == 0.0;
  }

  /** The number sent with an answer is that of the further requests which the key admits at the same moment. */
  lemma RemainingIsExact(c: Config, b: Option<Bucket>, now: real, k: nat)
    requires c.Valid() && InRange(c, b)
    ensures var o := Script(c, b, now);
            Script(c, Repeated(c, o.bucket, now, k), now).reply.allowed <==> k < o.reply.remaining
  {
    var o := Script(c, b, now);
    CallTakes(c, b, now);
    assert o.reply.remaining == Filled(c, o.bucket, now).Floor;
    assert InRange(c, o.bucket);
    RepeatedLevel(c, o.bucket, now, k);
    CallTakes(c, Repeated(c, o.bucket, now, k), now);
    hide Script, Filled, InRange;
  }

  // ----- Arbitrary clocks -----

  /** The sum of the upward moves of the first n times. */
  ghost function Upward(times: seq<real>, n: nat): real
    requires n <= |times|
  {
    if n < 2 then 0.0 else Upward(times, n - 1) + RMax(0.0, times[n - 1] - times[n - 2])
  }

  /** What the bucket earns between two clock readings. */
  ghost function Earned(c: Config, since: real, now: real): real {
    RMax(0.0, now - since) * c.rate
  }

  /** Rate times the sum of the upward moves. */
  ghost function UpwardRefill(c: Config, times: seq<real>, n: nat): real
    requires n <= |times|
  {
    Upward(times, n) * c.rate
  }

  lemma UpwardStep(c: Config, times: seq<real>, n: nat)
    requires 2 <= n <= |times|
    ensures UpwardRefill(c, times, n) == UpwardRefill(c, times, n - 1) + Earned(c, times[n - 2], times[n - 1])
  {
  }

  lemma EarnedViaMiddle(c: Config, since: real, prev: real, now: real)
    requires c.Valid()
    ensures 0.0 <= Earned(c, since, now) <= Earned(c, since, prev) + Earned(c, prev, now)
  {
  }

  /** What one call spends and what it leaves never exceeds what was there and what was earned. */
  lemma CallAccounted(c: Config, b: Bucket, now: real)
    requires c.Valid() && InRange(c, Some(b))
    ensures var o := Script(c, Some(b), now);
            && o.bucket.Some? && InRange(c, o.bucket)
            && o.bucket.value.tokens + Earned(c, o.bucket.value.ts, now) + Cost(o.reply.allowed)
               <= b.tokens + Earned(c, b.ts, now)
  {
  }

  /** Tokens in store, tokens still to be credited and tokens handed out never exceed the capacity
      plus the refill over all upward moves of the clock, whatever the clock does. */
  lemma {:induction false} TokensAccounted(c: Config, times: seq<real>, n: nat)
    requires c.Valid() && 0 < n <= |times|
    ensures var s := StateBefore(c, times, n);
            && s.Some? && InRange(c, s)
            && s.value.tokens + Earned(c, s.value.ts, times[n - 1]) + Count(Admissions(c, times), 0, n) as real
               <= c.burst as real + UpwardRefill(c, times, n)
  {
    var a := Admissions(c, times);
    var before := StateBefore(c, times, n - 1);
    assert StateBefore(c, times, n) == Script(c, before, times[n - 1]).bucket;
    assert Count(a, 0, n) == Count(a, 0, n - 1) + (if ReplyAt(c, times, n - 1).allowed then 1 else 0);
    if n == 1 {
      assert Count(a, 0, 0) == 0;
    } else {
      TokensAccounted(c, times, n - 1);
      CallAccounted(c, before.value, times[n - 1]);
      EarnedViaMiddle(c, before.value.ts, times[n - 2], times[n - 1]);
      UpwardStep(c, times, n);
    }
  }

  /** The bound for callers whose clocks may disagree. */
  lemma AdmittedUnderAnyClock(c: Config, times: seq<real>, n: nat)
    requires c.Valid() && 0 < n <= |times|
    ensures Count(Admissions(c, times), 0, n) as real <= c.burst as real + UpwardRefill(c, times, n)
  {
    TokensAccounted(c, times, n);
    EarnedViaMiddle(c, StateBefore(c, times, n).value.ts, times[n - 1], times[n - 1]);
  }

  // ----- Expiry -----

  /** A stored hash with the store's time at which it disappears. */
  datatype Entry = Entry(bucket: Bucket, deadline: real)

  /** A request carries the caller's clock and the clock the store uses for expiry. */
  datatype Request = Request(now: real, storeNow: real)

  function Live(e: Option<Entry>, storeNow: real): Option<Bucket> {
    if e.Some? && storeNow < e.value.deadline then Some(e.value.bucket) else None
  }

  /** One script call on a key that may have expired: the entry left behind, and the answer. */
  function LazyCall(c: Config, e: Option<Entry>, r: Request): (Option<Entry>, Reply) {
    var o := Script(c, Live(e, r.storeNow), r.now);
    var kept := if Live(e, r.storeNow).Some? then e else None;
    (if o.wrote && c.rate > 0.0 then Some(Entry(o.bucket.value, r.storeNow + Ttl(c) as real)) else kept, o.reply)
  }

  ghost function EntryBefore(c: Config, reqs: seq<Request>, i: nat): Option<Entry>
    requires i <= |reqs|
  {
    if i == 0 then None else LazyCall(c, EntryBefore(c, reqs, i - 1), reqs[i - 1]).0
  }

  ghost function LazyReply(c: Config, reqs: seq<Request>, i: nat): Reply
    requires i < |reqs|
  {
    LazyCall(c, EntryBefore(c, reqs, i), reqs[i]).1
  }

  /** The simple bucket: it starts full, writes on every request and never expires. */
  datatype Simple = Simple(tokens: real, ts: real)

  ghost function SimpleLevel(c: Config, s: Simple, now: real): real {
    Refilled(c, s.tokens, s.ts, now)
  }

  ghost function SimpleBefore(c: Config, reqs: seq<Request>, i: nat): Simple
    requires i <= |reqs|
  {
    if i == 0 then Simple(c.burst as real, if |reqs| > 0 then reqs[0].now else 0.0)
    else
      var level := SimpleLevel(c, SimpleBefore(c, reqs, i - 1), reqs[i - 1].now);
      Simple(if level >= 1.0 then level - 1.0 else level, reqs[i - 1].now)
  }

  ghost function SimpleReply(c: Config, reqs: seq<Request>, i: nat): Reply
    requires c.rate > 0.0 && i < |reqs|
  {
    var level := SimpleLevel(c, SimpleBefore(c, reqs, i), reqs[i].now);
    if level >= 1.0 then Reply(true, (level - 1.0).Floor, 0) else Reply(false, level.Floor, RetryAfter(c, level))
  }

  /** Callers' clocks never go back, and between any two requests the store's clock gains at most `drift`
      on the callers'. */
  ghost predicate ClocksWithin(reqs: seq<Request>, drift: real) {
    forall i, j :: 0 <= i <= j < |reqs| ==>
      && reqs[i].now <= reqs[j].now
      && reqs[j].storeNow - reqs[i].storeNow <= reqs[j].now - reqs[i].now + drift
  }

  /** What a key's time to live exceeds one complete refill by. */
  ghost function Tolerance(c: Config): real
    requires c.rate > 0.0
  {
    Ttl(c) as real - c.burst as real / c.rate
  }

  ghost predicate ClocksAgree(c: Config, reqs: seq<Request>)
    requires c.rate > 0.0
  {
    ClocksWithin(reqs, Tolerance(c))
  }

  /** A gain of one complete refill is tolerated. */
  lemma RefillTolerated(c: Config)
    requires c.Valid()
    ensures 0.0 < c.burst as real / c.rate <= Tolerance(c)
  {
    CeilIsLeast(c.burst as real / c.rate * 2.0, Ttl(c));
    EarnedBy(c, c.burst as real, 0.0);
  }

  /** Entry e was written by request w, and carried on to the simple bucket's time it holds the same. */
  ghost predicate Tracks(c: Config, reqs: seq<Request>, e: Entry, w: nat, s: Simple)
    requires w < |reqs| && c.rate > 0.0
  {
    && e.bucket.ts == reqs[w].now
    && e.deadline == reqs[w].storeNow + Ttl(c) as real
    && 0.0 <= e.bucket.tokens
    && s.tokens == Filled(c, Some(e.bucket), s.ts)
  }

  /** A key whose deadline has passed would have been full again. */
  lemma ExpiredWasFull(c: Config, reqs: seq<Request>, e: Entry, w: nat, i: nat)
    requires c.Valid() && ClocksAgree(c, reqs) && w <= i < |reqs|
    requires e.bucket.ts == reqs[w].now && 0.0 <= e.bucket.tokens
    requires e.deadline == reqs[w].storeNow + Ttl(c) as real
    requires reqs[i].storeNow >= e.deadline
    ensures Filled(c, Some(e.bucket), reqs[i].now) == c.burst as real
  {
    EarnedBy(c, c.burst as real, reqs[i].now - reqs[w].now);
  }

  lemma {:induction false} LazyTracksSimple(c: Config, reqs: seq<Request>, i: nat) returns (w: nat)
    requires c.Valid() && ClocksAgree(c, reqs) && 0 < i <= |reqs|
    ensures w < i && EntryBefore(c, reqs, i).Some?
    ensures SimpleBefore(c, reqs, i).ts == reqs[i - 1].now
    ensures Tracks(c, reqs, EntryBefore(c, reqs, i).value, w, SimpleBefore(c, reqs, i))
    decreases i, 0
  {
    LevelsAgree(c, reqs, i - 1);
    var live := Live(EntryBefore(c, reqs, i - 1), reqs[i - 1].storeNow);
    if LazyReply(c, reqs, i - 1).allowed {
      w := i - 1;
      var after := EntryBefore(c, reqs, i).value;
      assert after.bucket.tokens == Filled(c, live, reqs[i - 1].now) - 1.0;
      assert Filled(c, Some(after.bucket), reqs[i - 1].now) == RMin(c.burst as real, after.bucket.tokens);
      assert Filled(c, live, reqs[i - 1].now) <= c.burst as real;
    } else {
      w := LazyTracksSimple(c, reqs, i - 1);
      assert EntryBefore(c, reqs, i) == EntryBefore(c, reqs, i - 1);
    }
  }

  /** Both buckets find the same level. */
  lemma {:induction false} LevelsAgree(c: Config, reqs: seq<Request>, i: nat)
    requires c.Valid() && ClocksAgree(c, reqs) && i < |reqs|
    ensures Filled(c, Live(EntryBefore(c, reqs, i), reqs[i].storeNow), reqs[i].now)
         == SimpleLevel(c, SimpleBefore(c, reqs, i), reqs[i].now)
    decreases i, 1
  {
    if i > 0 {
      var w := LazyTracksSimple(c, reqs, i);
      var e := EntryBefore(c, reqs, i).value;
      assert reqs[w].now <= reqs[i - 1].now <= reqs[i].now;
      FillTwice(c, e.bucket, reqs[i - 1].now, reqs[i].now);
      if reqs[i].storeNow >= e.deadline {
        ExpiredWasFull(c, reqs, e, w, i);
        assert Live(Some(e), reqs[i].storeNow).None?;
      } else {
        assert Live(Some(e), reqs[i].storeNow) == Some(e.bucket);
      }
    }
  }

  /** Skipped writes and expiry are invisible: every answer is that of the simple bucket. */
  lemma LazyEqualsSimple(c: Config, reqs: seq<Request>, i: nat)
    requires c.Valid() && ClocksAgree(c, reqs) && i < |reqs|
    ensures LazyReply(c, reqs, i) == SimpleReply(c, reqs, i)
  {
    LevelsAgree(c, reqs, i);
  }
}
