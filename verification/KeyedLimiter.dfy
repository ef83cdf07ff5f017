/** The limiter object: one bucket per key in a shared store, calls that fail open, and the throttled
    warning about them (pkg/wkhttp/ratelimit.go). */
module KeyedLimiter {
  import opened Options
  import opened TokenBucket
  import opened RateLimiter

  const DEGRADE_WARN_INTERVAL := 30

  type Store = map<string, Entry>

  datatype Call = Call(key: string, request: Request)

  function Lookup(store: Store, key: string): Option<Entry> {
    if key in store then Some(store[key]) else None
  }

  function Put(store: Store, key: string, e: Option<Entry>): Store {
    match e
    case None => store - {key}
    case Some(entry) => store[key := entry]
  }

  /** One script call against the whole store. */
  function StoreCall(c: Config, store: Store, call: Call): (Store, Reply) {
    var (e, reply) := LazyCall(c, Lookup(store, call.key), call.request);
    (Put(store, call.key, e), reply)
  }

  /** Every stored bucket is in range. */
  ghost predicate StoreInRange(c: Config, store: Store) {
    forall k :: k in store ==> InRange(c, Some(store[k].bucket))
  }

  /** How a script call can go wrong for its caller: not run at all, run with the reply lost, or run
      with a reply of unexpected shape. */
  datatype Fault = Healthy | NotRun | ReplyLost | BadShape

  // ----- Keys do not interfere -----

  ghost function StoreBefore(c: Config, calls: seq<Call>, i: nat): Store
    requires i <= |calls|
  {
    if i == 0 then map[] else StoreCall(c, StoreBefore(c, calls, i - 1), calls[i - 1]).0
  }

  /** The requests among the first i calls that concern one key. */
  ghost function KeyRequests(calls: seq<Call>, key: string, i: nat): seq<Request>
    requires i <= |calls|
  {
    if i == 0 then []
    else if calls[i - 1].key == key then KeyRequests(calls, key, i - 1) + [calls[i - 1].request]
    else KeyRequests(calls, key, i - 1)
  }

  lemma {:induction false} EntryDependsOnPrefix(c: Config, reqs: seq<Request>, r: Request, i: nat)
    requires i <= |reqs|
    ensures EntryBefore(c, reqs + [r], i) == EntryBefore(c, reqs, i)
  {
    if i > 0 {
      EntryDependsOnPrefix(c, reqs, r, i - 1);
    }
  }

  lemma {:induction false} StoredPerKey(c: Config, calls: seq<Call>, key: string, i: nat)
    requires i <= |calls|
    ensures var reqs := KeyRequests(calls, key, i);
            Lookup(StoreBefore(c, calls, i), key) == EntryBefore(c, reqs, |reqs|)
  {
    if i > 0 {
      StoredPerKey(c, calls, key, i - 1);
      var reqs := KeyRequests(calls, key, i - 1);
      EntryDependsOnPrefix(c, reqs, calls[i - 1].request, |reqs|);
    }
  }

  /** In any interleaving of keys, each call is answered as by a simple bucket serving only its key. */
  lemma {:induction false} AnsweredPerKey(c: Config, calls: seq<Call>, i: nat)
    requires c.Valid() && i < |calls|
    requires ClocksAgree(c, KeyRequests(calls, calls[i].key, i + 1))
    ensures var reqs := KeyRequests(calls, calls[i].key, i + 1);
            StoreCall(c, StoreBefore(c, calls, i), calls[i]).1 == SimpleReply(c, reqs, |reqs| - 1)
  {
    var key := calls[i].key;
    var earlier := KeyRequests(calls, key, i);
    StoredPerKey(c, calls, key, i);
    EntryDependsOnPrefix(c, earlier, calls[i].request, |earlier|);
    LazyEqualsSimple(c, earlier + [calls[i].request], |earlier|);
  }

  // ----- The throttled warning -----

  /** An attempt to warn: the clock reading, and the value of the last warning loaded before it. */
  datatype Attempt = Attempt(now: int, seen: int)

  /** The attempt warns when the loaded value is old enough and still the current one. */
  predicate Warns(last: int, a: Attempt) {
    a.now - a.seen >= DEGRADE_WARN_INTERVAL && last == a.seen
  }

  ghost function LastBefore(start: int, attempts: seq<Attempt>, i: nat): int
    requires i <= |attempts|
  {
    if i == 0 then start
    else
      var last := LastBefore(start, attempts, i - 1);
      if Warns(last, attempts[i - 1]) then attempts[i - 1].now else last
  }

  ghost predicate WarnsAt(start: int, attempts: seq<Attempt>, i: nat)
    requires i < |attempts|
  {
    Warns(LastBefore(start, attempts, i), attempts[i])
  }

  lemma {:induction false} LastOnlyGrows(start: int, attempts: seq<Attempt>, i: nat, j: nat)
    requires i <= j <= |attempts|
    ensures LastBefore(start, attempts, i) <= LastBefore(start, attempts, j)
    decreases j - i
  {
    if i < j {
      LastOnlyGrows(start, attempts, i, j - 1);
    }
  }

  /** What an attempt does to the time of the last warning: it becomes the attempt's if that time was
      loaded, is still there and lies at least the interval back, and stays as it was otherwise. */
  lemma DueAttemptWarns(start: int, attempts: seq<Attempt>, i: nat)
    requires i < |attempts|
    ensures var last, a := LastBefore(start, attempts, i), attempts[i];
            var due := a.seen == last && a.now - last >= DEGRADE_WARN_INTERVAL;
            && (WarnsAt(start, attempts, i) <==> due)
            && LastBefore(start, attempts, i + 1) == (if due then a.now else last)
  {
  }

  /** An undisturbed attempt warns exactly when the interval has passed since the last warning. */
  lemma UndisturbedAttempt(start: int, attempts: seq<Attempt>, i: nat)
    requires i < |attempts| && attempts[i].seen == LastBefore(start, attempts, i)
    ensures WarnsAt(start, attempts, i)
       <==> attempts[i].now - LastBefore(start, attempts, i) >= DEGRADE_WARN_INTERVAL
  {
  }

  /** Whatever the interleaving of loads and swaps and whatever the clocks, two warnings are at least
      the interval apart. */
  lemma WarningsAreSpaced(start: int, attempts: seq<Attempt>, i: nat, j: nat)
    requires i < j < |attempts| && WarnsAt(start, attempts, i) && WarnsAt(start, attempts, j)
    ensures attempts[j].now - attempts[i].now >= DEGRADE_WARN_INTERVAL
  {
    LastOnlyGrows(start, attempts, i + 1, j);
  }

  // ----- The limiter object -----

  class Limiter {
    const rps: real
    const burst: int
    var store: Store
    var lastDegradeWarn: int

    ghost predicate Valid()
      reads this
    {
      Settings().Valid() && StoreInRange(Settings(), store)
    }

    function Settings(): Config {
      Config(rps, burst)
    }

    constructor (rps: real, burst: int)
      requires rps > 0.0 && burst > 0
      ensures Valid() && Settings() == Config(rps, burst)
      ensures store == map[] && lastDegradeWarn == 0
    {
      this.rps := rps;
      this.burst := burst;
      store := map[];
      lastDegradeWarn := 0;
    }

    /** The script: read the hash, fill, take a token or compute the hint, write back if needed. */
    method RunScript(key: string, now: real, storeNow: real) returns (reply: Reply)
      modifies this`store
      ensures (store, reply) == StoreCall(Settings(), old(store), Call(key, Request(now, storeNow)))
    {
      ghost var live := Live(Lookup(store, key), storeNow);
      if key in store && store[key].deadline <= storeNow {
        store := store - {key};
      }
      if rps <= 0.0 {
        assert store == Put(old(store), key, Lookup(store, key));
        return Reply(false, 0, 1);
      }
      var filled, ttl := burst as real, Ttl(Settings());
      if key in store {
        var bucket := store[key].bucket;
        filled := RMin(burst as real, bucket.tokens + RMax(0.0, now - bucket.ts) * rps);
      }
      assert filled == Filled(Settings(), live, now);
      var allowed, retryAfter, needWrite := false, 0, false;
      if filled >= 1.0 {
        allowed, filled, needWrite := true, filled - 1.0, true;
      } else {
        retryAfter := RetryAfter(Settings(), filled);
        needWrite := key !in store;
      }
      reply := Reply(allowed, filled.Floor, retryAfter);
      ghost var o := Script(Settings(), live, now);
      assert reply == o.reply && needWrite == o.wrote;
      if needWrite {
        assert o.bucket == Some(Bucket(filled, now));
        store := store[key := Entry(Bucket(filled, now), storeNow + ttl as real)];
      }
      assert Lookup(store, key) == LazyCall(Settings(), Lookup(old(store), key), Request(now, storeNow)).0;
      assert store == Put(old(store), key, Lookup(store, key));
    }

    /** One limiter decision.  A call that goes wrong lets the request through. */
    method Allow(key: string, now: real, storeNow: real, fault: Fault)
      returns (allowed: bool, remaining: int, retryAfter: int, degraded: bool)
      requires Valid()
      modifies this`store
      ensures Valid()
      ensures degraded <==> fault != Healthy
      ensures degraded ==> allowed && remaining == burst && retryAfter == 0
      ensures !degraded ==> Reply(allowed, remaining, retryAfter)
                            == StoreCall(Settings(), old(store), Call(key, Request(now, storeNow))).1
      ensures 0 <= remaining <= burst && (if allowed then retryAfter == 0 else retryAfter >= 1)
      ensures store == if fault.NotRun? then old(store)
                       else StoreCall(Settings(), old(store), Call(key, Request(now, storeNow))).0
      ensures forall k :: k != key ==> Lookup(store, k) == Lookup(old(store), k)
    {
      ReplyInRange(Settings(), store, Call(key, Request(now, storeNow)));
      if fault.NotRun? {
        return true, burst, 0, true;
      }
      var reply := RunScript(key, now, storeNow);
      if fault != Healthy {
        return true, burst, 0, true;
      }
      var rem := reply.remaining;
      if rem < 0 {
        rem := 0;
      }
      if rem > burst {
        rem := burst;
      }
      return reply.allowed, rem, reply.retryAfter, false;
    }

    /** The second half of the throttle: `seen` was loaded earlier, possibly before other attempts. */
    method WarnIfDue(now: int, seen: int) returns (warned: bool)
      modifies this`lastDegradeWarn
      ensures warned <==> Warns(old(lastDegradeWarn), Attempt(now, seen))
      ensures lastDegradeWarn == if warned then now else old(lastDegradeWarn)
    {
      if now - seen < DEGRADE_WARN_INTERVAL {
        return false;
      }
      if lastDegradeWarn != seen {
        return false;
      }
      lastDegradeWarn := now;
      return true;
    }
  }

  /** A call keeps every bucket in range, and its answer needs no clamping. */
  lemma ReplyInRange(c: Config, store: Store, call: Call)
    requires c.Valid() && StoreInRange(c, store)
    ensures var (after, reply) := StoreCall(c, store, call);
            && StoreInRange(c, after)
            && 0 <= reply.remaining <= c.burst
            && (if reply.allowed then reply.retryAfter == 0 else reply.retryAfter >= 1)
  {
    var live := Live(Lookup(store, call.key), call.request.storeNow);
    FilledInRange(c, live, call.request.now);
  }
}
