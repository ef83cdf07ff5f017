/** The rate limiter with keys that expire (pkg/wkhttp/ratelimit.go): when a retry is admitted, how far
    the store's clock may run ahead before expiry shows, that admission is optimal up to there, and how
    much expiry can add whatever the clocks do. */
module KeyExpiry {
  import opened Options
  import opened TokenBucket
  import opened RateLimiter

  // ----- Retries -----

  /** Only a live key is denied, and the denial leaves it as it was. */
  lemma DeniedIsLive(c: Config, o: Option<Entry>, r: Request)
    requires c.Valid() && !LazyCall(c, o, r).1.allowed
    ensures o.Some? && r.storeNow < o.value.deadline && LazyCall(c, o, r).0 == o
    ensures !Script(c, Some(o.value.bucket), r.now).reply.allowed
    ensures LazyCall(c, o, r).1 == Script(c, Some(o.value.bucket), r.now).reply
  {
  }

  /** A retry w seconds later by the caller's clock, when the store's clock shows `later`. */
  ghost predicate RetryAdmitted(c: Config, o: Option<Entry>, r: Request, w: int, later: real) {
    LazyCall(c, LazyCall(c, o, r).0, Request(r.now + w as real, later)).1.allowed
  }

  /** After a denial a lone retry is admitted exactly when the key has expired or the wait is at least the
      least one. */
  lemma RetryAdmittedIff(c: Config, o: Option<Entry>, r: Request, w: int, later: real)
    requires c.Valid() && !LazyCall(c, o, r).1.allowed && w >= 1
    requires o.Some? ==> InRange(c, Some(o.value.bucket))
    ensures o.Some?
    ensures RetryAdmitted(c, o, r, w, later)
       <==> later >= o.value.deadline || w >= LeastWait(c, o.value.bucket, r.now)
  {
    DeniedIsLive(c, o, r);
    LeastWaitIsExact(c, o.value.bucket, r.now, w);
    hide LeastWait;
  }

  /** After the hinted wait it is admitted exactly when the key has expired or the time by which the clock
      was behind the stored time fits into the slack. */
  lemma HintAdmittedIff(c: Config, o: Option<Entry>, r: Request, later: real)
    requires c.Valid() && !LazyCall(c, o, r).1.allowed
    requires o.Some? ==> InRange(c, Some(o.value.bucket))
    ensures o.Some? && LazyCall(c, o, r).1.retryAfter >= 1
    ensures RetryAdmitted(c, o, r, LazyCall(c, o, r).1.retryAfter, later)
       <==> later >= o.value.deadline || o.value.bucket.ts - r.now <= Slack(c, o.value.bucket, r.now)
  {
    DeniedIsLive(c, o, r);
    RetryHint(c, o.value.bucket, r.now);
    RetryAdmittedIff(c, o, r, LazyCall(c, o, r).1.retryAfter, later);
    hide LazyCall, LeastWait, Slack, Script;
  }

  /** A key lives for the least whole number of seconds, at least one, in which it could be filled twice. */
  lemma TtlIsLeast(c: Config, w: int)
    requires c.rate > 0.0
    ensures w >= Ttl(c) <==> w >= 1 && w as real >= c.burst as real / c.rate * 2.0
  {
    CeilIsLeast(c.burst as real / c.rate * 2.0, w);
    hide Ceil;
  }

  /** The configurations that the limiter's constructor refuses: without a rate everything is denied and
      nothing stored; without a capacity an absent key is denied, and stored so that it can expire. */
  lemma RefusedConfigurations(c: Config, o: Option<Entry>, r: Request)
    ensures c.rate <= 0.0 ==>
              && LazyCall(c, o, r).1 == Reply(false, 0, 1)
              && (LazyCall(c, o, r).0 == if Live(o, r.storeNow).Some? then o else None)
    ensures c.rate > 0.0 && c.burst < 1 && o.None? ==>
              && !LazyCall(c, o, r).1.allowed
              && LazyCall(c, o, r).0 == Some(Entry(Bucket(c.burst as real, r.now), r.storeNow + Ttl(c) as real))
  {
    hide Ttl, RetryAfter;
  }

  // ----- Optimal admission -----

  ghost function Times(reqs: seq<Request>): (times: seq<real>)
    ensures |times| == |reqs|
  {
    seq(|reqs|, i requires 0 <= i < |reqs| => reqs[i].now)
  }

  ghost function LazyAdmissions(c: Config, reqs: seq<Request>): (a: seq<bool>)
    ensures |a| == |reqs|
  {
    seq(|reqs|, i requires 0 <= i < |reqs| => LazyReply(c, reqs, i).allowed)
  }

  lemma {:induction false} SimpleIsLevel(c: Config, reqs: seq<Request>, i: nat)
    requires c.Valid() && ClocksAgree(c, reqs) && i < |reqs|
    ensures Nondecreasing(Times(reqs))
    ensures SimpleLevel(c, SimpleBefore(c, reqs, i), reqs[i].now)
         == Level(c, Times(reqs), Admissions(c, Times(reqs)), i)
    ensures SimpleReply(c, reqs, i).allowed == Admissions(c, Times(reqs))[i]
  {
    AdmittedHasToken(c, Times(reqs), i);
    SimpleAllowed(c, reqs, i);
    hide Admissions, SimpleReply, Refilled;
    if i > 0 {
      SimpleIsLevel(c, reqs, i - 1);
      SimpleAllowed(c, reqs, i - 1);
    } else {
      RefilledHere(c, reqs[0].now);
    }
  }

  lemma SimpleAllowed(c: Config, reqs: seq<Request>, i: nat)
    requires c.Valid() && i < |reqs|
    ensures SimpleReply(c, reqs, i).allowed <==> SimpleLevel(c, SimpleBefore(c, reqs, i), reqs[i].now) >= 1.0
  {
    hide SimpleLevel, SimpleBefore, RetryAfter;
  }

  lemma RefilledHere(c: Config, now: real)
    ensures Refilled(c, c.burst as real, now, now) == c.burst as real
  {
  }

  /** The limiter admits what a bucket does that never expires. */
  lemma AdmitsLikeBucket(c: Config, reqs: seq<Request>)
    requires c.Valid() && ClocksAgree(c, reqs)
    ensures Nondecreasing(Times(reqs)) && LazyAdmissions(c, reqs) == Admissions(c, Times(reqs))
  {
    forall i | 0 <= i < |reqs|
      ensures LazyReply(c, reqs, i).allowed == Admissions(c, Times(reqs))[i]
    {
      LazyEqualsSimple(c, reqs, i);
      SimpleIsLevel(c, reqs, i);
    }
    hide Admissions;
  }

  /** A request is refused exactly when one more admission would overfill the stretch from some earlier
      admitted one. */
  lemma ExpiringDeniedIff(c: Config, reqs: seq<Request>, i: nat)
    requires c.Valid() && ClocksAgree(c, reqs) && i < |reqs|
    ensures var a := LazyAdmissions(c, reqs);
            !a[i] <==> exists j: nat :: j < i && a[j] && OverBudget(c, Times(reqs), a, j, i)
  {
    AdmitsLikeBucket(c, reqs);
    DeniedIffOverBudget(c, Times(reqs), i);
    hide LazyAdmissions, Admissions;
  }

  lemma ExpiringWindowBound(c: Config, reqs: seq<Request>, i: nat, k: nat)
    requires c.Valid() && ClocksAgree(c, reqs) && i <= k < |reqs|
    ensures Count(LazyAdmissions(c, reqs), i, k + 1) as real <= Budget(c, reqs[i].now, reqs[k].now)
  {
    AdmitsLikeBucket(c, reqs);
    WindowBound(c, Times(reqs), i, k);
    hide LazyAdmissions, Admissions;
  }

  /** At every point of the run no policy that keeps all stretches within budget has admitted more. */
  lemma ExpiringGreedyOptimal(c: Config, reqs: seq<Request>, a: seq<bool>, n: nat)
    requires c.Valid() && ClocksAgree(c, reqs)
    requires n <= |reqs| == |a| && Conforms(c, Times(reqs), a)
    ensures Conforms(c, Times(reqs), LazyAdmissions(c, reqs))
    ensures Count(a, 0, n) <= Count(LazyAdmissions(c, reqs), 0, n)
  {
    AdmitsLikeBucket(c, reqs);
    BucketConforms(c, Times(reqs));
    GreedyOptimal(c, Times(reqs), a, n);
    hide LazyAdmissions, Admissions;
  }

  // ----- How far the store's clock may run ahead -----

  /** A full bucket used up at one moment, then a request just as the key expires, when the caller's clock
      has moved on too little for a refill. */
  ghost function EarlyExpiry(c: Config, drift: real): seq<Request>
    requires c.Valid()
  {
    seq(c.burst, _ => Request(0.0, 0.0)) + [Request(RMax(0.0, Ttl(c) as real - drift), Ttl(c) as real)]
  }

  lemma {:induction false} Drained(c: Config, reqs: seq<Request>, k: nat)
    requires c.Valid() && k <= c.burst && k <= |reqs| && |reqs| > 0
    requires forall j :: 0 <= j <= k && j < |reqs| && j < c.burst ==> reqs[j] == Request(0.0, 0.0)
    requires reqs[0].now == 0.0
    ensures SimpleBefore(c, reqs, k) == Simple((c.burst - k) as real, 0.0)
    ensures EntryBefore(c, reqs, k)
         == if k == 0 then None else Some(Entry(Bucket((c.burst - k) as real, 0.0), Ttl(c) as real))
  {
    if k > 0 {
      Drained(c, reqs, k - 1);
      assert reqs[k - 1] == Request(0.0, 0.0);
      assert 0.0 * c.rate == 0.0;
      LiveNow(c, k - 1);
    }
  }

  lemma LiveNow(c: Config, k: nat)
    requires c.rate > 0.0
    ensures Ttl(c) >= 1
  {
  }

  lemma EarlyExpiryShows(c: Config, drift: real)
    requires c.Valid() && drift > Tolerance(c)
    ensures ClocksWithin(EarlyExpiry(c, drift), drift)
    ensures LazyReply(c, EarlyExpiry(c, drift), c.burst) != SimpleReply(c, EarlyExpiry(c, drift), c.burst)
  {
    var reqs, x := EarlyExpiry(c, drift), RMax(0.0, Ttl(c) as real - drift);
    RefillTolerated(c);
    assert 0.0 <= x < c.burst as real / c.rate;
    EarnedBy(c, c.burst as real, x);
    Drained(c, reqs, c.burst);
    assert reqs[c.burst] == Request(x, Ttl(c) as real);
    hide Ttl, EarlyExpiry, EntryBefore, SimpleBefore;
    ExpiredReply(c, Entry(Bucket(0.0, 0.0), Ttl(c) as real), reqs[c.burst]);
    NotFullReply(c, reqs, c.burst);
  }

  lemma ExpiredReply(c: Config, e: Entry, r: Request)
    requires c.Valid() && r.storeNow >= e.deadline
    ensures LazyCall(c, Some(e), r).1 == Reply(true, c.burst - 1, 0)
  {
    hide Ttl;
  }

  /** From an empty bucket, less than a refill later. */
  lemma NotFullReply(c: Config, reqs: seq<Request>, i: nat)
    requires c.Valid() && i < |reqs| && SimpleBefore(c, reqs, i) == Simple(0.0, 0.0)
    requires reqs[i].now * c.rate < c.burst as real
    ensures SimpleReply(c, reqs, i) != Reply(true, c.burst - 1, 0)
  {
    hide SimpleBefore, RetryAfter;
    assert SimpleLevel(c, Simple(0.0, 0.0), reqs[i].now) < c.burst as real;
  }

  /** Expiry is invisible on all runs with a given drift exactly when the drift is at most the tolerance. */
  lemma ExpiryInvisibleIff(c: Config, drift: real)
    requires c.Valid()
    ensures drift <= Tolerance(c)
       <==> forall reqs: seq<Request>, i: nat :: i < |reqs| && ClocksWithin(reqs, drift) ==>
              LazyReply(c, reqs, i) == SimpleReply(c, reqs, i)
  {
    if drift <= Tolerance(c) {
      forall reqs: seq<Request>, i: nat | i < |reqs| && ClocksWithin(reqs, drift)
        ensures LazyReply(c, reqs, i) == SimpleReply(c, reqs, i)
      {
        LazyEqualsSimple(c, reqs, i);
      }
    } else {
      EarlyExpiryShows(c, drift);
    }
  }

  // ----- Arbitrary clocks -----

  /** How many of the first n requests found their key expired. */
  ghost function Expiries(c: Config, reqs: seq<Request>, n: nat): nat
    requires n <= |reqs|
  {
    if n == 0 then 0
    else
      var e := EntryBefore(c, reqs, n - 1);
      Expiries(c, reqs, n - 1) + (if e.Some? && reqs[n - 1].storeNow >= e.value.deadline then 1 else 0)
  }

  /** The capacity k times over. */
  ghost function Bursts(c: Config, k: nat): int {
    c.burst * k
  }

  lemma BurstsStep(c: Config, k: nat)
    ensures Bursts(c, 0) == 0 && Bursts(c, k + 1) == Bursts(c, k) + c.burst
  {
  }

  /** Tokens in store and still to be credited to an entry. */
  ghost function Worth(c: Config, e: Entry, now: real): real {
    e.bucket.tokens + Earned(c, e.bucket.ts, now)
  }

  /** One call: what it spends and leaves is covered by what was there, or by a new full bucket. */
  lemma CallCovered(c: Config, o: Option<Entry>, prev: real, r: Request)
    requires c.Valid() && (o.Some? ==> InRange(c, Some(o.value.bucket)))
    ensures var after := LazyCall(c, o, r).0;
            var spent := Cost(LazyCall(c, o, r).1.allowed);
            && after.Some? && InRange(c, Some(after.value.bucket))
            && (if Live(o, r.storeNow).Some? then
                  Worth(c, after.value, r.now) + spent <= Worth(c, o.value, prev) + Earned(c, prev, r.now)
                else Worth(c, after.value, r.now) + spent == c.burst as real)
    ensures o.Some? ==> Worth(c, o.value, prev) >= 0.0
    ensures Earned(c, prev, r.now) >= 0.0
  {
    EarnedViaMiddle(c, prev, prev, r.now);
    if Live(o, r.storeNow).Some? {
      CallAccounted(c, o.value.bucket, r.now);
      EarnedViaMiddle(c, o.value.bucket.ts, prev, r.now);
    } else {
      assert 0.0 * c.rate == 0.0;
    }
    if o.Some? {
      EarnedViaMiddle(c, o.value.bucket.ts, prev, prev);
    }
    hide Ttl, UpwardRefill;
  }

  /** Each expiry adds at most one full bucket. */
  lemma {:induction false} EntryAccounted(c: Config, reqs: seq<Request>, n: nat)
    requires c.Valid() && 0 < n <= |reqs|
    ensures var e := EntryBefore(c, reqs, n);
            && e.Some? && InRange(c, Some(e.value.bucket))
            && Worth(c, e.value, reqs[n - 1].now) + Count(LazyAdmissions(c, reqs), 0, n) as real
               <= Bursts(c, 1 + Expiries(c, reqs, n)) as real + UpwardRefill(c, Times(reqs), n)
  {
    var a := LazyAdmissions(c, reqs);
    var before, r := EntryBefore(c, reqs, n - 1), reqs[n - 1];
    assert Count(a, 0, n) == Count(a, 0, n - 1) + (if a[n - 1] then 1 else 0);
    BurstsStep(c, Expiries(c, reqs, n - 1));
    BurstsStep(c, 1 + Expiries(c, reqs, n - 1));
    if n == 1 {
      CallCovered(c, before, r.now, r);
      UpwardNone(c, Times(reqs));
      assert Count(a, 0, 0) == 0;
    } else {
      EntryAccounted(c, reqs, n - 1);
      UpwardStep(c, Times(reqs), n);
      CallCovered(c, before, reqs[n - 2].now, r);
    }
    hide LazyCall, Worth, Bursts, UpwardRefill, Earned, InRange, Count;
  }

  lemma UpwardNone(c: Config, times: seq<real>)
    requires |times| >= 1
    ensures UpwardRefill(c, times, 1) == 0.0
  {
  }

  /** Whatever all clocks do, the limiter admits at most one full bucket for the start and one for each
      expiry, plus the refill over the upward moves of the callers' clock. */
  lemma AdmittedWithExpiry(c: Config, reqs: seq<Request>, n: nat)
    requires c.Valid() && 0 < n <= |reqs|
    ensures Count(LazyAdmissions(c, reqs), 0, n) as real
         <= Bursts(c, 1 + Expiries(c, reqs, n)) as real + UpwardRefill(c, Times(reqs), n)
  {
    EntryAccounted(c, reqs, n);
    CallCovered(c, EntryBefore(c, reqs, n), reqs[n - 1].now, reqs[n - 1]);
    hide Count, LazyAdmissions, UpwardRefill, Earned, Expiries, Worth, Bursts, LazyCall;
  }
}
