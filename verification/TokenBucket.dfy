/** The token bucket that the rate limiter runs as a Redis script (pkg/wkhttp/ratelimit.go).
    One script call is one atomic step on the state of one key.  Numbers are reals: the rounding of
    the script's doubles is not modelled. */
module TokenBucket {
  import opened Options

  /** The configuration of one limiter: refill rate per second and bucket capacity. */
  datatype Config = Config(rate: real, burst: int) {
    /** What the limiter's constructor insists on. */
    ghost predicate Valid() {
      rate > 0.0 && burst > 0
    }
  }

  datatype Bucket = Bucket(tokens: real, ts: real)

  datatype Reply = Reply(allowed: bool, remaining: int, retryAfter: int)

  /** What one script call leaves behind: the stored hash, whether it was written (and so given a new
      time to live), and the answer. */
  datatype Outcome = Outcome(bucket: Option<Bucket>, wrote: bool, reply: Reply)

  function RMin(x: real, y: real): real {
    if x <= y then x else y
  }

  function RMax(x: real, y: real): real {
    if x <= y then y else x
  }

  function Max(x: int, y: int): int {
    if x <= y then y else x
  }

  function Ceil(x: real): int {
    -((-x).Floor)
  }

  /** Seconds a written key survives. */
  function Ttl(c: Config): int
    requires c.rate > 0.0
  {
    Max(1, Ceil(c.burst as real / c.rate * 2.0))
  }

  /** The level found at time `now`: an absent key counts as a full bucket, and a clock that stands
      behind the stored time adds nothing. */
  function Filled(c: Config, b: Option<Bucket>, now: real): real {
    match b
    case None => c.burst as real
    case Some(Bucket(tokens, ts)) => RMin(c.burst as real, tokens + RMax(0.0, now - ts) * c.rate)
  }

  function RetryAfter(c: Config, filled: real): int
    requires c.rate > 0.0
  {
    Max(1, Ceil((1.0 - filled) / c.rate))
  }

  /** One run of the script on one key. */
  function Script(c: Config, b: Option<Bucket>, now: real): Outcome {
    if c.rate <= 0.0 then
      Outcome(b, false, Reply(false, 0, 1))
    else
      var filled := Filled(c, b, now);
      if filled >= 1.0 then
        Outcome(Some(Bucket(filled - 1.0, now)), true, Reply(true, (filled - 1.0).Floor, 0))
      else if b.None? then
        Outcome(Some(Bucket(filled, now)), true, Reply(false, filled.Floor, RetryAfter(c, filled)))
      else
        Outcome(b, false, Reply(false, filled.Floor, RetryAfter(c, filled)))
  }

  /** The invariant of a stored bucket. */
  ghost predicate InRange(c: Config, b: Option<Bucket>) {
    b.Some? ==> 0.0 <= b.value.tokens <= c.burst as real
  }

  // ----- Runs on one key that never expires -----

  /** The stored state before request number i of the run. */
  ghost function StateBefore(c: Config, times: seq<real>, i: nat): Option<Bucket>
    requires i <= |times|
  {
    if i == 0 then None else Script(c, StateBefore(c, times, i - 1), times[i - 1]).bucket
  }

  ghost function ReplyAt(c: Config, times: seq<real>, i: nat): Reply
    requires i < |times|
  {
    Script(c, StateBefore(c, times, i), times[i]).reply
  }

  /** The decisions of the bucket over a run. */
  ghost function Admissions(c: Config, times: seq<real>): (a: seq<bool>)
    ensures |a| == |times|
  {
    seq(|times|, i requires 0 <= i < |times| => ReplyAt(c, times, i).allowed)
  }

  /** How many requests among numbers i..j-1 were admitted. */
  ghost function Count(a: seq<bool>, i: nat, j: nat): nat
    requires i <= j <= |a|
  {
    if i == j then 0 else Count(a, i, j - 1) + (if a[j - 1] then 1 else 0)
  }

  ghost predicate Nondecreasing(times: seq<real>) {
    forall i, j :: 0 <= i <= j < |times| ==> times[i] <= times[j]
  }

  lemma {:induction false} CountSplit(a: seq<bool>, i: nat, j: nat, k: nat)
    requires i <= j <= k <= |a|
    ensures Count(a, i, k) == Count(a, i, j) + Count(a, j, k)
    decreases k - j
  {
    if j < k {
      CountSplit(a, i, j, k - 1);
    }
  }

  // ----- The ideal bucket of an arbitrary admission policy -----

  /** Level just before request i in a bucket that starts full and serves the decisions a. */
  ghost function Level(c: Config, times: seq<real>, a: seq<bool>, i: nat): real
    requires i < |times| == |a|
  {
    if i == 0 then c.burst as real
    else Refilled(c, Level(c, times, a, i - 1) - Cost(a[i - 1]), times[i - 1], times[i])
  }

  function Cost(admitted: bool): real {
    if admitted then 1.0 else 0.0
  }

  /** A level carried from one time to a later one. */
  function Refilled(c: Config, level: real, now: real, later: real): real {
    RMin(c.burst as real, level + (later - now) * c.rate)
  }

  /** What a window may hold: the capacity plus the refill over its length. */
  function Budget(c: Config, start: real, end: real): real {
    c.burst as real + c.rate * (end - start)
  }

  lemma BudgetGrows(c: Config, start: real, now: real, later: real)
    ensures Budget(c, start, later) == Budget(c, start, now) + (later - now) * c.rate
    ensures c.rate > 0.0 && now <= later ==> Budget(c, start, now) <= Budget(c, start, later)
  {
  }

  lemma BudgetHere(c: Config, now: real)
    ensures Budget(c, now, now) == c.burst as real
  {
  }

  /** What request j onwards leaves at request i, had the bucket been full at j. */
  ghost function Credit(c: Config, times: seq<real>, a: seq<bool>, j: nat, i: nat): real
    requires j <= i < |times| == |a|
  {
    Budget(c, times[j], times[i]) - Count(a, j, i) as real
  }

  lemma {:induction false} LevelAtMostCredit(c: Config, times: seq<real>, a: seq<bool>, j: nat, i: nat)
    requires j <= i < |times| == |a|
    ensures Level(c, times, a, i) <= Credit(c, times, a, j, i)
    decreases i - j
  {
    assert Level(c, times, a, i) <= c.burst as real;
    if j == i {
      assert Credit(c, times, a, j, i) == c.burst as real;
    } else {
      LevelAtMostCredit(c, times, a, j, i - 1);
      BudgetGrows(c, times[j], times[i - 1], times[i]);
    }
  }

  /** Below capacity the level is the credit left since some admitted request. */
  lemma {:induction false} LevelAttained(c: Config, times: seq<real>, a: seq<bool>, i: nat) returns (j: nat)
    requires c.rate > 0.0 && Nondecreasing(times)
    requires i < |times| == |a|
    requires Level(c, times, a, i) < c.burst as real
    ensures j < i && a[j]
    ensures Level(c, times, a, i) == Credit(c, times, a, j, i)
  {
    if Level(c, times, a, i - 1) < c.burst as real {
      j := LevelAttained(c, times, a, i - 1);
    } else {
      LevelAtMostCredit(c, times, a, i - 1, i - 1);
      j := i - 1;
      assert Count(a, j, i) == Count(a, j, i - 1) + (if a[j] then 1 else 0);
    }
    BudgetGrows(c, times[j], times[i - 1], times[i]);
  }

  /** A policy conforms when no stretch from one admitted request to another holds more admissions
      than capacity plus refill over that stretch. */
  ghost predicate Conforms(c: Config, times: seq<real>, a: seq<bool>)
    requires |times| == |a|
  {
    forall i, k :: 0 <= i <= k < |a| && a[i] && a[k] ==>
      Count(a, i, k + 1) as real <= Budget(c, times[i], times[k])
  }

  lemma ConformingLevel(c: Config, times: seq<real>, a: seq<bool>, k: nat)
    requires c.Valid() && Nondecreasing(times)
    requires k < |times| == |a| && a[k]
    requires Conforms(c, times, a)
    ensures Level(c, times, a, k) >= 1.0
  {
    if Level(c, times, a, k) < c.burst as real {
      var j := LevelAttained(c, times, a, k);
      assert Count(a, j, k + 1) == Count(a, j, k) + 1;
    }
  }

  // ----- The bucket's own decisions -----

  /** Stored values of a run on nondecreasing times are in range and not later than the clock. */
  lemma {:induction false} StateInRange(c: Config, times: seq<real>, i: nat)
    requires c.Valid() && Nondecreasing(times) && i <= |times|
    ensures InRange(c, StateBefore(c, times, i))
    ensures i > 0 ==> StateBefore(c, times, i).Some?
    ensures i > 0 ==> StateBefore(c, times, i).value.ts <= times[i - 1]
  {
    if i > 0 {
      StateInRange(c, times, i - 1);
      FilledInRange(c, StateBefore(c, times, i - 1), times[i - 1]);
    }
  }

  lemma FilledInRange(c: Config, b: Option<Bucket>, now: real)
    requires c.rate > 0.0 && c.burst >= 0 && InRange(c, b)
    ensures 0.0 <= Filled(c, b, now) <= c.burst as real
  {
  }

  /** Filling to one time and then to a later one is filling to the later one. */
  lemma FillTwice(c: Config, b: Bucket, now: real, later: real)
    requires c.Valid() && b.ts <= now <= later
    ensures Filled(c, Some(b), later)
         == Refilled(c, Filled(c, Some(b), now), now, later)
  {
  }

  /** One call followed by a read at a later time: admission costs one token, denial nothing. */
  lemma NextFilled(c: Config, b: Option<Bucket>, now: real, later: real)
    requires c.Valid() && now <= later
    requires b.Some? ==> b.value.ts <= now
    ensures var o := Script(c, b, now);
            Filled(c, o.bucket, later) == Refilled(c, Filled(c, b, now) - Cost(o.reply.allowed), now, later)
  {
    if b.Some? {
      FillTwice(c, b.value, now, later);
    }
  }

  /** Skipping the write on denial loses nothing: the level found is that of the ideal bucket. */
  lemma {:induction false} FilledIsLevel(c: Config, times: seq<real>, i: nat)
    requires c.Valid() && Nondecreasing(times) && i < |times|
    ensures Filled(c, StateBefore(c, times, i), times[i]) == Level(c, times, Admissions(c, times), i)
  {
    if i > 0 {
      var before := StateBefore(c, times, i - 1);
      FilledIsLevel(c, times, i - 1);
      StateInRange(c, times, i - 1);
      NextFilled(c, before, times[i - 1], times[i]);
      assert StateBefore(c, times, i) == Script(c, before, times[i - 1]).bucket;
      assert Admissions(c, times)[i - 1] == Script(c, before, times[i - 1]).reply.allowed;
    }
  }

  lemma AdmittedHasToken(c: Config, times: seq<real>, i: nat)
    requires c.Valid() && Nondecreasing(times) && i < |times|
    ensures var a := Admissions(c, times); a[i] <==> Level(c, times, a, i) >= 1.0
  {
    FilledIsLevel(c, times, i);
  }

  /** One more admission at i would put more than capacity plus refill into the stretch from j. */
  ghost predicate OverBudget(c: Config, times: seq<real>, a: seq<bool>, j: nat, i: nat)
    requires j <= i < |times| == |a|
  {
    (Count(a, j, i) + 1) as real > Budget(c, times[j], times[i])
  }

  /** A request is refused exactly when some earlier admitted request starts a stretch that one more
      admission would overfill: nothing that fits is refused. */
  lemma DeniedIffOverBudget(c: Config, times: seq<real>, i: nat)
    requires c.Valid() && Nondecreasing(times) && i < |times|
    ensures var a := Admissions(c, times);
            !a[i] <==> exists j: nat :: j < i && a[j] && OverBudget(c, times, a, j, i)
  {
    var a := Admissions(c, times);
    AdmittedHasToken(c, times, i);
    if Level(c, times, a, i) < 1.0 {
      var j := LevelAttained(c, times, a, i);
      assert OverBudget(c, times, a, j, i);
    } else {
      forall j: nat | j < i && a[j]
        ensures !OverBudget(c, times, a, j, i)
      {
        LevelAtMostCredit(c, times, a, j, i);
      }
    }
  }

  /** Every window holds at most capacity plus refill. */
  lemma {:induction false} WindowBound(c: Config, times: seq<real>, i: nat, k: nat)
    requires c.Valid() && Nondecreasing(times) && i <= k < |times|
    ensures Count(Admissions(c, times), i, k + 1) as real <= Budget(c, times[i], times[k])
    decreases k
  {
    var a := Admissions(c, times);
    BudgetHere(c, times[i]);
    hide Budget, Level, Admissions;
    if a[k] {
      AdmittedHasToken(c, times, k);
      LevelAtMostCredit(c, times, a, i, k);
    } else if i < k {
      WindowBound(c, times, i, k - 1);
      BudgetGrows(c, times[i], times[k - 1], times[k]);
    }
  }

  /** The bucket's own decisions conform, so the optimum below is taken over a set it belongs to. */
  lemma BucketConforms(c: Config, times: seq<real>)
    requires c.Valid() && Nondecreasing(times)
    ensures Conforms(c, times, Admissions(c, times))
  {
    var a := Admissions(c, times);
    forall i, k | 0 <= i <= k < |a| && a[i] && a[k]
      ensures Count(a, i, k + 1) as real <= Budget(c, times[i], times[k])
    {
      WindowBound(c, times, i, k);
    }
  }

  /** The bucket trails a conforming policy by at most the admissions it is ahead. */
  lemma {:induction false} AheadOfPolicy(c: Config, times: seq<real>, a: seq<bool>, n: nat)
    requires c.Valid() && Nondecreasing(times)
    requires n < |times| == |a| && Conforms(c, times, a)
    ensures var lead := Count(Admissions(c, times), 0, n) - Count(a, 0, n);
            && lead >= 0
            && Level(c, times, a, n) <= Level(c, times, Admissions(c, times), n) + lead as real
  {
    if n > 0 {
      AheadOfPolicy(c, times, a, n - 1);
      AdmittedHasToken(c, times, n - 1);
      if a[n - 1] {
        ConformingLevel(c, times, a, n - 1);
      }
    }
  }

  /** Greedy is optimal: at every point of the run, no conforming policy has admitted more requests. */
  lemma GreedyOptimal(c: Config, times: seq<real>, a: seq<bool>, n: nat)
    requires c.Valid() && Nondecreasing(times)
    requires n <= |times| == |a| && Conforms(c, times, a)
    ensures Count(a, 0, n) <= Count(Admissions(c, times), 0, n)
  {
    if n > 0 {
      AheadOfPolicy(c, times, a, n - 1);
      AdmittedHasToken(c, times, n - 1);
      if a[n - 1] {
        ConformingLevel(c, times, a, n - 1);
      }
    }
  }
}
