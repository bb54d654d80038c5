/** internal/limiter/leaky_bucket.go, and what it guarantees over whole runs. */
module LeakyBuckets {
  import opened Prelude
  import opened Storage
  import opened Limiters

  class LeakyBucket {
    const store: Store
    const bucketCapacity: int
    const leakRate: int
    const leakInterval: int

    constructor (store: Store, bucketCapacity: int, leakRate: int, leakInterval: int)
      ensures this.store == store && Params() == Limiter.LeakyBucket(bucketCapacity, leakRate, leakInterval)
    {
      this.store, this.bucketCapacity := store, bucketCapacity;
      this.leakRate, this.leakInterval := leakRate, leakInterval;
    }

    function Params(): Limiter {
      Limiter.LeakyBucket(bucketCapacity, leakRate, leakInterval)
    }

    static function StateKey(key: string): string {
      "limiter:leaky_bucket:" + key
    }

    method Allow(key: string, r: Reading) returns (allowed: bool, failed: bool)
      requires r.getOk ==> leakInterval != 0
      modifies store`data
      ensures
        var (cell, reply) := Limiters.Allow(Params(), store.backend, Lookup(old(store.data), StateKey(key)), r);
        store.data == Put(old(store.data), StateKey(key), cell) && reply == Decision(allowed, failed)
    {
      var stateKey := StateKey(key);
      if !r.getOk {
        return true, true;
      }
      var stateStr := store.Get(stateKey, r.getAt);
      var count, lastLeakTime := 0, r.now;
      if stateStr.Some? && stateStr.value.LeakyState? {  // otherwise missing or unreadable
        count, lastLeakTime := stateStr.value.count, stateStr.value.lastLeakTime;
      }
      var elapsed := r.now - lastLeakTime;
      var tokensToLeak := Quot(elapsed, leakInterval) * leakRate;
      count := count - tokensToLeak;
      if count < 0 {
        count := 0;
      }
      lastLeakTime := r.now;
      allowed := count < bucketCapacity;
      if allowed {
        count := count + 1;
      }
      if !r.setOk {
        return true, true;
      }
      store.Set(stateKey, LeakyState(count, lastLeakTime), DAY, r.setAt);
      failed := false;
    }

    method Reset(key: string, ok: bool) returns (failed: bool)
      modifies store
      ensures failed == !ok
      ensures store.data
           == Put(old(store.data), StateKey(key), if ok then None else Lookup(old(store.data), StateKey(key)))
    {
      if ok {
        store.Delete(StateKey(key));
      }
      failed := !ok;
    }
  }

  /** What the service builds: see ValidateConfig and GetOrCreateLimiter. */
  predicate Sane(capacity: int, leak: int, interval: int) {
    0 <= capacity && 0 <= leak && 0 < interval
  }

  /** Requests that leak out between two consecutive calls: whole intervals only. */
  function Drip(leak: int, interval: int, from: int, to: int): int
    requires 0 < interval
  {
    (to - from) / interval * leak
  }

  /** Splitting a stretch of time never lets more leak out of it. */
  lemma DripSplits(leak: int, interval: int, a: int, b: int, c: int)
    requires 0 <= leak && 0 < interval && a <= b <= c
    ensures Drip(leak, interval, a, b) + Drip(leak, interval, b, c) <= Drip(leak, interval, a, c)
    ensures 0 <= Drip(leak, interval, a, b) && 0 <= Drip(leak, interval, b, c)
  {
    FloorAdds(b - a, c - b, interval);
    ScaledSum((b - a) / interval, (c - b) / interval, (c - a) / interval, leak);
  }

  /** The count a call at t starts from. */
  function Level(leak: int, interval: int, cell: Cell, t: int): int
    requires 0 < interval
  {
    if cell.Some? && cell.value.value.LeakyState?
    then Max(0, cell.value.value.count - Drip(leak, interval, cell.value.value.lastLeakTime, t))
    else 0
  }

  /** What the store can hold under the bucket's key when nothing ever expires. */
  ghost predicate Valid(capacity: int, cell: Cell, clock: int) {
    cell.Some? ==>
      && cell.value.expiration == None
      && (cell.value.value.LeakyState? || cell.value.value == UNREADABLE)
      && (cell.value.value.LeakyState? ==>
          0 <= cell.value.value.count <= capacity && cell.value.value.lastLeakTime <= clock)
  }

  lemma RememberedCallAddsRequest(capacity: int, leak: int, interval: int, cell: Cell, clock: int, r: Reading)
    requires Sane(capacity, leak, interval) && Valid(capacity, cell, clock) && clock <= r.now <= r.setAt
    requires r.getOk && r.setOk
    ensures
      var level := Level(leak, interval, cell, r.now);
      var next := Some(StorageValue(LeakyState(if level < capacity then level + 1 else level, r.now), None));
      && Allow(Limiter.LeakyBucket(capacity, leak, interval), Eternal, cell, r)
         == (next, Decision(level < capacity, false))
      && Valid(capacity, next, r.setAt)
  {
    if cell.Some? && cell.value.value.LeakyState? {
      assert Visible(cell, r.getAt) == Some(cell.value.value);
      DripSplits(leak, interval, cell.value.value.lastLeakTime, r.now, r.now);
    }
  }

  /** Over any store, a successful call is granted iff what its Get finds has drained below capacity, and adds one. */
  lemma CallAddsRequest(capacity: int, leak: int, interval: int, store: Backend, cell: Cell, clock: int, r: Reading)
    requires Sane(capacity, leak, interval) && Valid(capacity, Lasting(cell), clock) && clock <= r.now <= r.setAt
    requires r.getOk && r.setOk
    ensures
      var level := Level(leak, interval, Found(cell, r.getAt), r.now);
      var next := Some(StorageValue(LeakyState(if level < capacity then level + 1 else level, r.now),
                                    ExpirationOf(store, r.setAt, DAY)));
      && Allow(Limiter.LeakyBucket(capacity, leak, interval), store, cell, r)
         == (next, Decision(level < capacity, false))
      && Valid(capacity, Lasting(next), r.setAt)
  {
    RememberedCallAddsRequest(capacity, leak, interval, Found(cell, r.getAt), clock, r);
    assert Visible(Found(cell, r.getAt), r.getAt) == Visible(cell, r.getAt);
  }

  // When the store remembers

  /** The store never forgets, or only what has drained by then, or traffic never pauses long enough. */
  predicate Remembers(capacity: int, leak: int, interval: int, store: Backend, events: seq<Event>, stall: int)
    requires 0 < interval
  {
    || store.Eternal?
    || (stall <= DAY && capacity <= Drip(leak, interval, 0, DAY + 1 - stall))
    || Busy(None, events)
  }

  lemma RunIsRemembered(capacity: int, leak: int, interval: int, store: Backend, clock: int, events: seq<Event>,
                        stall: nat)
    requires Sane(capacity, leak, interval) && Remembers(capacity, leak, interval, store, events, stall)
    requires Orderly(Limiter.LeakyBucket(capacity, leak, interval), clock, events, stall)
    ensures
      var lim := Limiter.LeakyBucket(capacity, leak, interval);
      && Run(lim, store, None, events) == Run(lim, Eternal, None, events)
      && Remains(After(lim, store, None, events), After(lim, Eternal, None, events))
  {
    if store.Eternal? {
    } else if Busy(None, events) {
      BusyNeverForgets(Limiter.LeakyBucket(capacity, leak, interval), store, None, None, None, clock, events, stall);
    } else {
      ForgettingIsHarmless(capacity, leak, interval, store, None, None, clock, events, stall);
    }
  }

  // The rate bound

  /** An upper bound on what can still be admitted in [a, b). */
  function Potential(capacity: int, leak: int, interval: int, cell: Cell, clock: int, a: int, b: int): int
    requires 0 < interval
  {
    if b <= clock then 0
    else if cell.Some? && cell.value.value.LeakyState? && a <= cell.value.value.lastLeakTime
    then capacity - cell.value.value.count + Drip(leak, interval, cell.value.value.lastLeakTime, b - 1)
    else capacity + Drip(leak, interval, Max(a, clock), b - 1)
  }

  /** In every run, [a, b) admits at most a bucketful and what leaks, in whole intervals, between its first and last
      instant, plus one call for every failing store access and one bucketful for every reset or corruption in it. The
      store must remember the bucket; where it does not, SecondBurstGranted breaks the bound. */
  lemma RateBound(capacity: int, leak: int, interval: int, store: Backend, clock: int, events: seq<Event>, stall: nat,
                  a: int, b: int)
    requires Sane(capacity, leak, interval) && a < b
    requires Remembers(capacity, leak, interval, store, events, stall)
    requires Orderly(Limiter.LeakyBucket(capacity, leak, interval), clock, events, stall)
    ensures AdmittedIn(events, Run(Limiter.LeakyBucket(capacity, leak, interval), store, None, events), a, b)
         <= capacity + Drip(leak, interval, a, b - 1) + capacity * ClearsIn(events, a, b) + FailedIn(events, a, b)
  {
    RunIsRemembered(capacity, leak, interval, store, clock, events, stall);
    RememberedRateBound(capacity, leak, interval, clock, events, stall, a, b);
  }

  lemma RememberedRateBound(capacity: int, leak: int, interval: int, clock: int, events: seq<Event>, stall: nat,
                            a: int, b: int)
    requires Sane(capacity, leak, interval) && a < b
    requires Orderly(Limiter.LeakyBucket(capacity, leak, interval), clock, events, stall)
    ensures AdmittedIn(events, Run(Limiter.LeakyBucket(capacity, leak, interval), Eternal, None, events), a, b)
         <= capacity + Drip(leak, interval, a, b - 1) + capacity * ClearsIn(events, a, b) + FailedIn(events, a, b)
  {
    StartingPotential(capacity, leak, interval, clock, a, b);
    EternalRateBound(capacity, leak, interval, clock, events, stall, a, b, capacity as real,
                     capacity + Drip(leak, interval, a, b - 1), capacity * ClearsIn(events, a, b));
  }

  lemma StartingPotential(capacity: int, leak: int, interval: int, clock: int, a: int, b: int)
    requires Sane(capacity, leak, interval) && a < b
    ensures Potential(capacity, leak, interval, None, clock, a, b) <= capacity + Drip(leak, interval, a, b - 1)
  {
    DripSplits(leak, interval, a, Least(Max(a, clock), b - 1), b - 1);
  }

  lemma EternalRateBound(capacity: int, leak: int, interval: int, clock: int, events: seq<Event>, stall: nat, a: int,
                         b: int, clear: real, most: int, charge: int)
    requires Sane(capacity, leak, interval) && a < b && clear == capacity as real
    requires Potential(capacity, leak, interval, None, clock, a, b) <= most
    requires charge == capacity * ClearsIn(events, a, b)
    requires Orderly(Limiter.LeakyBucket(capacity, leak, interval), clock, events, stall)
    ensures AdmittedIn(events, Run(Limiter.LeakyBucket(capacity, leak, interval), Eternal, None, events), a, b)
         <= most + charge + FailedIn(events, a, b)
  {
    var lim := Limiter.LeakyBucket(capacity, leak, interval);
    var valid := (cell: Cell, k: int) => Valid(capacity, cell, k);
    var potential := (cell: Cell, k: int) => Potential(capacity, leak, interval, cell, k, a, b) as real;
    forall cell, k, e
      ensures Pays(lim, Eternal, stall, valid, potential, clear, a, b, cell, k, e)
    {
      if Valid(capacity, cell, k) && InOrder(lim, k, e, stall) {
        StepPays(capacity, leak, interval, stall, cell, k, e, a, b);
      }
    }
    forall cell, k | valid(cell, k)
      ensures 0.0 <= potential(cell, k)
    {
      WaitingPays(capacity, leak, interval, cell, k, k, a, b);
    }
    Amortize(lim, Eternal, stall, valid, potential, clear, a, b, None, clock, events);
    WholeCharge(capacity, events, a, b);
  }

  lemma WaitingPays(capacity: int, leak: int, interval: int, cell: Cell, clock: int, later: int, a: int, b: int)
    requires Sane(capacity, leak, interval) && a < b && Valid(capacity, cell, clock) && clock <= later
    ensures 0 <= Potential(capacity, leak, interval, cell, later, a, b)
              <= Potential(capacity, leak, interval, cell, clock, a, b)
  {
    if clock < b {
      DripSplits(leak, interval, Max(a, clock), Least(Max(a, later), b - 1), b - 1);
      if cell.Some? && cell.value.value.LeakyState? {
        DripSplits(leak, interval, cell.value.value.lastLeakTime, clock, b - 1);
      }
    }
  }

  /** A call at now, whose Set follows later, pays for itself. */
  lemma CallPays(capacity: int, leak: int, interval: int, cell: Cell, now: int, later: int, a: int, b: int)
    requires Sane(capacity, leak, interval) && a < b && Valid(capacity, cell, now) && now <= later
    ensures
      var level := Level(leak, interval, cell, now);
      var next := Some(StorageValue(LeakyState(if level < capacity then level + 1 else level, now), None));
      && Valid(capacity, next, later)
      && One(a <= now < b && level < capacity) + Potential(capacity, leak, interval, next, later, a, b)
         <= Potential(capacity, leak, interval, cell, now, a, b)
  {
    var level := Level(leak, interval, cell, now);
    var next := Some(StorageValue(LeakyState(if level < capacity then level + 1 else level, now), None));
    if cell.Some? && cell.value.value.LeakyState? {
      DripSplits(leak, interval, cell.value.value.lastLeakTime, now, now);
      if now < b {
        DripSplits(leak, interval, cell.value.value.lastLeakTime, now, b - 1);
      }
    }
    WaitingPays(capacity, leak, interval, next, now, later, a, b);
  }

  lemma StepPays(capacity: int, leak: int, interval: int, stall: nat, cell: Cell, clock: int, e: Event, a: int, b: int)
    requires Sane(capacity, leak, interval) && a < b && Valid(capacity, cell, clock)
    requires InOrder(Limiter.LeakyBucket(capacity, leak, interval), clock, e, stall)
    ensures
      var (next, reply) := Step(Limiter.LeakyBucket(capacity, leak, interval), Eternal, cell, e);
      && Valid(capacity, next, End(e))
      && One(CallIn(e, a, b) && Grants(reply)) + Potential(capacity, leak, interval, next, End(e), a, b)
         <= Potential(capacity, leak, interval, cell, clock, a, b)
            + (if Clears(e) && a <= Start(e) < b then capacity else 0) + One(CallIn(e, a, b) && !Succeeds(e))
  {
    WaitingPays(capacity, leak, interval, cell, clock, Start(e), a, b);
    WaitingPays(capacity, leak, interval, cell, clock, End(e), a, b);
    if Succeeds(e) {
      RememberedCallAddsRequest(capacity, leak, interval, cell, clock, e.r);
      CallPays(capacity, leak, interval, cell, e.r.now, e.r.setAt, a, b);
    } else if Clears(e) {
      ClearingPays(capacity, leak, interval, cell, e.at, a, b);
    }
  }

  lemma ClearingPays(capacity: int, leak: int, interval: int, cell: Cell, at: int, a: int, b: int)
    requires Sane(capacity, leak, interval) && a < b && Valid(capacity, cell, at)
    ensures forall empty: Cell | empty.None? || !empty.value.value.LeakyState? ::
      Potential(capacity, leak, interval, empty, at, a, b)
      <= Potential(capacity, leak, interval, cell, at, a, b) + if a <= at < b then capacity else 0
  {
    if at < b && cell.Some? && cell.value.value.LeakyState? && a <= cell.value.value.lastLeakTime {
      DripSplits(leak, interval, cell.value.value.lastLeakTime, at, b - 1);
    }
  }

  // Expiry after a day

  /** c1 is what an expiring store still has of the cell c2 of one that never expires. */
  ghost predicate Forgets(capacity: int, c1: Cell, c2: Cell, clock: int) {
    && Valid(capacity, c2, clock)
    && (c1.Some? ==>
        && c2.Some? && c1.value.value == c2.value.value
        && (c2.value.value.LeakyState? && c1.value.expiration.Some? ==>
            c2.value.value.lastLeakTime + DAY <= c1.value.expiration.value))
    && (c1.None? && c2.Some? && c2.value.value.LeakyState? ==> c2.value.value.lastLeakTime + DAY < clock)
  }

  /** Forgetting a bucket after a day changes no reply, in any run whose calls take up to `stall`, less than an
      interval, from their clock reading to their Get, exactly if that much less than a day and a nanosecond drains
      it. */
  lemma ExpiryIsTransparent(capacity: nat, leak: int, interval: int, b: Backend, stall: nat)
    requires Sane(capacity, leak, interval) && 0 < capacity && stall < interval && !b.Eternal?
    ensures capacity <= Drip(leak, interval, 0, DAY + 1 - stall)
       <==> forall clock, events | Orderly(Limiter.LeakyBucket(capacity, leak, interval), clock, events, stall) ::
              Run(Limiter.LeakyBucket(capacity, leak, interval), b, None, events)
              == Run(Limiter.LeakyBucket(capacity, leak, interval), Eternal, None, events)
  {
    var lim := Limiter.LeakyBucket(capacity, leak, interval);
    if capacity <= Drip(leak, interval, 0, DAY + 1 - stall) {
      DripTakesTime(leak, interval, DAY + 1 - stall);
      forall clock, events | Orderly(lim, clock, events, stall)
        ensures Run(lim, b, None, events) == Run(lim, Eternal, None, events)
      {
        ForgettingIsHarmless(capacity, leak, interval, b, None, None, clock, events, stall);
      }
    } else {
      var wait := Least(stall, DAY + 1);
      assert Drip(leak, interval, 0, DAY + 1 - wait) < capacity;
      BurstIsOrderly(lim, 0, 0, capacity, stall);
      SecondBurstIsOrderly(capacity, lim, wait, stall);
      TwoBurstsDisagree(capacity, leak, interval, b, wait);
      OrderlyConcat(lim, 0, Burst(0, capacity), [Waiting(wait)] + Burst(DAY + 1, capacity - 1), stall);
    }
  }

  lemma TwoBurstsDisagree(capacity: nat, leak: int, interval: int, b: Backend, wait: nat)
    requires Sane(capacity, leak, interval) && 0 < capacity && wait < interval && wait <= DAY + 1 && !b.Eternal?
    requires Drip(leak, interval, 0, DAY + 1 - wait) < capacity
    ensures Run(Limiter.LeakyBucket(capacity, leak, interval), b, None, TwoBursts(capacity, wait))
         != Run(Limiter.LeakyBucket(capacity, leak, interval), Eternal, None, TwoBursts(capacity, wait))
  {
    SecondBurstGranted(capacity, leak, interval, b, wait);
    SecondBurstDenied(capacity, leak, interval, wait);
  }

  lemma DripTakesTime(leak: int, interval: int, elapsed: int)
    requires 0 <= leak && 0 < interval && 0 < Drip(leak, interval, 0, elapsed)
    ensures interval <= elapsed
  {
    if elapsed < interval {
      ScaledSum(-(elapsed / interval), 0, -(elapsed / interval), leak);
    }
  }

  /** With calls that may stall up to `stall` on their way to the store, that much less than a day must drain it. */
  lemma {:induction false} ForgettingIsHarmless(capacity: int, leak: int, interval: int, b: Backend, c1: Cell, c2: Cell,
                                                clock: int, events: seq<Event>, stall: nat)
    requires Sane(capacity, leak, interval) && stall <= DAY && capacity <= Drip(leak, interval, 0, DAY + 1 - stall)
    requires Forgets(capacity, c1, c2, clock)
    requires Orderly(Limiter.LeakyBucket(capacity, leak, interval), clock, events, stall)
    ensures Run(Limiter.LeakyBucket(capacity, leak, interval), b, c1, events)
         == Run(Limiter.LeakyBucket(capacity, leak, interval), Eternal, c2, events)
    ensures Forgets(capacity, After(Limiter.LeakyBucket(capacity, leak, interval), b, c1, events),
                    After(Limiter.LeakyBucket(capacity, leak, interval), Eternal, c2, events), Clock(clock, events))
    decreases events
  {
    if events != [] {
      var lim, e := Limiter.LeakyBucket(capacity, leak, interval), events[0];
      ForgetfulStepAgrees(capacity, leak, interval, b, c1, c2, clock, e, stall);
      ForgettingIsHarmless(capacity, leak, interval, b, Step(lim, b, c1, e).0, Step(lim, Eternal, c2, e).0, End(e),
                           events[1..], stall);
    }
  }

  lemma ForgetfulStepAgrees(capacity: int, leak: int, interval: int, b: Backend, c1: Cell, c2: Cell, clock: int,
                            e: Event, stall: nat)
    requires Sane(capacity, leak, interval) && stall <= DAY && capacity <= Drip(leak, interval, 0, DAY + 1 - stall)
    requires Forgets(capacity, c1, c2, clock) && InOrder(Limiter.LeakyBucket(capacity, leak, interval), clock, e, stall)
    ensures
      var lim := Limiter.LeakyBucket(capacity, leak, interval);
      && Step(lim, b, c1, e).1 == Step(lim, Eternal, c2, e).1
      && Forgets(capacity, Step(lim, b, c1, e).0, Step(lim, Eternal, c2, e).0, End(e))
  {
    if Succeeds(e) {
      RememberedCallAddsRequest(capacity, leak, interval, c2, clock, e.r);
      SameDecision(capacity, leak, interval, c1, c2, clock, e.r, stall);
    }
  }

  lemma SameDecision(capacity: int, leak: int, interval: int, c1: Cell, c2: Cell, clock: int, r: Reading, stall: nat)
    requires Sane(capacity, leak, interval) && stall <= DAY && capacity <= Drip(leak, interval, 0, DAY + 1 - stall)
    requires Forgets(capacity, c1, c2, clock) && clock <= r.now <= r.getAt <= r.now + stall
    ensures DecideLeaky(capacity, leak, interval, Visible(c1, r.getAt), r.now)
         == DecideLeaky(capacity, leak, interval, Visible(c2, r.getAt), r.now)
  {
    if c2.Some? && c2.value.value.LeakyState? {
      var count, last := c2.value.value.count, c2.value.value.lastLeakTime;
      assert Visible(c2, r.getAt) == Some(LeakyState(count, last));
      if Visible(c1, r.getAt).None? {
        assert last + DAY + 1 - stall <= r.now;
        DripSplits(leak, interval, last, last + DAY + 1 - stall, r.now);
        DrainedIsFresh(capacity, leak, interval, count, last, r.now);
      }
    }
  }

  /** A bucket that has drained decides like a new one. */
  lemma DrainedIsFresh(capacity: int, leak: int, interval: int, count: int, last: int, now: int)
    requires Sane(capacity, leak, interval) && last <= now && count <= Drip(leak, interval, last, now)
    ensures DecideLeaky(capacity, leak, interval, Some(LeakyState(count, last)), now)
         == DecideLeaky(capacity, leak, interval, None, now)
  {
    assert Quot(0, interval) * leak == 0;
  }

  /** The first call of a burst finds this many requests in the bucket. */
  ghost predicate Finds(capacity: int, leak: int, interval: int, cell: Cell, t: int, count: int)
    requires 0 < interval
  {
    DecideLeaky(capacity, leak, interval, Visible(cell, t), t)
    == Outcome(LeakyState(if count < capacity then count + 1 else count, t), DAY, count < capacity)
  }

  function Holding(b: Backend, count: int, t: int): Cell {
    Some(StorageValue(LeakyState(count, t), ExpirationOf(b, t, DAY)))
  }

  lemma FindsWhatIsHeld(capacity: int, leak: int, interval: int, b: Backend, count: int, t: int)
    requires Sane(capacity, leak, interval) && 0 <= count <= capacity
    ensures Finds(capacity, leak, interval, Holding(b, count, t), t, count)
  {
    assert Visible(Holding(b, count, t), t) == Some(LeakyState(count, t));
    assert Quot(0, interval) == 0;
  }

  lemma {:induction false} BurstFills(capacity: int, leak: int, interval: int, b: Backend, cell: Cell, t: int,
                                      count: int, n: nat)
    requires Sane(capacity, leak, interval) && 0 <= count <= capacity && 0 < n
    requires Finds(capacity, leak, interval, cell, t, count)
    ensures After(Limiter.LeakyBucket(capacity, leak, interval), b, cell, Burst(t, n))
         == Holding(b, Least(count + n, capacity), t)
    ensures Run(Limiter.LeakyBucket(capacity, leak, interval), b, cell, Burst(t, n))[n - 1]
         == Decision(count + n <= capacity, false)
  {
    var lim := Limiter.LeakyBucket(capacity, leak, interval);
    var before := After(lim, b, cell, Burst(t, n - 1));
    RunConcat(lim, b, cell, Burst(t, n - 1), [CallAt(t)]);
    var level := Least(count + n - 1, capacity);
    assert Finds(capacity, leak, interval, before, t, level) by {
      if n > 1 {
        BurstFills(capacity, leak, interval, b, cell, t, count, n - 1);
        FindsWhatIsHeld(capacity, leak, interval, b, level, t);
      } else {
        assert before == cell && level == count;
      }
    }
    LastCall(capacity, leak, interval, b, before, t, level);
  }

  lemma LastCall(capacity: int, leak: int, interval: int, b: Backend, cell: Cell, t: int, count: int)
    requires Sane(capacity, leak, interval) && Finds(capacity, leak, interval, cell, t, count)
    ensures
      var lim := Limiter.LeakyBucket(capacity, leak, interval);
      && After(lim, b, cell, [CallAt(t)]) == Holding(b, if count < capacity then count + 1 else count, t)
      && Run(lim, b, cell, [CallAt(t)]) == [Decision(count < capacity, false)]
  {
    var step := Step(Limiter.LeakyBucket(capacity, leak, interval), b, cell, CallAt(t));
    assert After(Limiter.LeakyBucket(capacity, leak, interval), b, step.0, []) == step.0;
  }

  /** A call that read its clock `wait` before it reaches the store, a day and a nanosecond after the first burst. */
  function Waiting(wait: int): Event {
    Call(Reading(DAY + 1 - wait, DAY + 1, DAY + 1, DAY + 1, true, true))
  }

  /** A burst that fills the bucket, and when its state expires a waiting call and capacity - 1 more. */
  function TwoBursts(capacity: nat, wait: int): (events: seq<Event>)
    requires 0 < capacity
    ensures |events| == 2 * capacity
  {
    Burst(0, capacity) + ([Waiting(wait)] + Burst(DAY + 1, capacity - 1))
  }

  lemma SecondBurstIsOrderly(capacity: nat, lim: Limiter, wait: nat, stall: nat)
    requires 0 < capacity && wait <= stall && wait <= DAY + 1 && lim.LeakyBucket?
    ensures Orderly(lim, 0, [Waiting(wait)] + Burst(DAY + 1, capacity - 1), stall)
  {
    BurstIsOrderly(lim, DAY + 1, DAY + 1, capacity - 1, stall);
    OrderlyConcat(lim, 0, [Waiting(wait)], Burst(DAY + 1, capacity - 1), stall);
  }

  /** What the last of the two bursts' calls is told, by the count the waiting call leaves behind. */
  lemma LastOfTwoBursts(capacity: nat, leak: int, interval: int, b: Backend, wait: nat, count: int)
    requires Sane(capacity, leak, interval) && 0 < capacity && wait < interval && wait <= DAY + 1
    requires 0 <= count <= capacity
    requires
      Step(Limiter.LeakyBucket(capacity, leak, interval), b, Holding(b, capacity, 0), Waiting(wait)).0
      == Some(StorageValue(LeakyState(count, DAY + 1 - wait), ExpirationOf(b, DAY + 1, DAY)))
    ensures
      var lim := Limiter.LeakyBucket(capacity, leak, interval);
      Run(lim, b, None, TwoBursts(capacity, wait))[2 * capacity - 1]
      == if capacity == 1 then Step(lim, b, Holding(b, capacity, 0), Waiting(wait)).1
         else Decision(count + capacity - 1 <= capacity, false)
  {
    var lim, tail := Limiter.LeakyBucket(capacity, leak, interval), Burst(DAY + 1, capacity - 1);
    assert After(lim, b, None, Burst(0, capacity)) == Holding(b, capacity, 0) by {
      assert Finds(capacity, leak, interval, None, 0, 0);
      BurstFills(capacity, leak, interval, b, None, 0, 0, capacity);
    }
    LastReply(lim, b, None, Burst(0, capacity), [Waiting(wait)] + tail);
    LastAfterWaiting(capacity, leak, interval, b, wait, count, tail);
  }

  lemma LastAfterWaiting(capacity: nat, leak: int, interval: int, b: Backend, wait: nat, count: int, tail: seq<Event>)
    requires Sane(capacity, leak, interval) && 0 < capacity && wait < interval && wait <= DAY + 1
    requires 0 <= count <= capacity && tail == Burst(DAY + 1, capacity - 1)
    requires
      Step(Limiter.LeakyBucket(capacity, leak, interval), b, Holding(b, capacity, 0), Waiting(wait)).0
      == Some(StorageValue(LeakyState(count, DAY + 1 - wait), ExpirationOf(b, DAY + 1, DAY)))
    ensures
      var lim := Limiter.LeakyBucket(capacity, leak, interval);
      Run(lim, b, Holding(b, capacity, 0), [Waiting(wait)] + tail)[capacity - 1]
      == if capacity == 1 then Step(lim, b, Holding(b, capacity, 0), Waiting(wait)).1
         else Decision(count + capacity - 1 <= capacity, false)
  {
    var lim := Limiter.LeakyBucket(capacity, leak, interval);
    var cell := Step(lim, b, Holding(b, capacity, 0), Waiting(wait)).0;
    if capacity > 1 {
      LastReply(lim, b, Holding(b, capacity, 0), [Waiting(wait)], tail);
      assert After(lim, b, Holding(b, capacity, 0), [Waiting(wait)]) == cell;
      WaitingLeavesCount(capacity, leak, interval, b, wait, count);
      BurstFills(capacity, leak, interval, b, cell, DAY + 1, count, capacity - 1);
    } else {
      assert [Waiting(wait)] + tail == [Waiting(wait)];
    }
  }

  lemma WaitingLeavesCount(capacity: nat, leak: int, interval: int, b: Backend, wait: nat, count: int)
    requires Sane(capacity, leak, interval) && wait < interval && 0 <= count
    ensures Finds(capacity, leak, interval,
                  Some(StorageValue(LeakyState(count, DAY + 1 - wait), ExpirationOf(b, DAY + 1, DAY))), DAY + 1, count)
  {
    assert Quot(wait, interval) == 0;
    assert Quot(wait, interval) * leak == 0;
  }

  /** An expiring store grants the whole second burst. */
  lemma SecondBurstGranted(capacity: nat, leak: int, interval: int, b: Backend, wait: nat)
    requires Sane(capacity, leak, interval) && 0 < capacity && wait < interval && wait <= DAY + 1 && !b.Eternal?
    ensures Run(Limiter.LeakyBucket(capacity, leak, interval), b, None, TwoBursts(capacity, wait))[2 * capacity - 1]
         == Decision(true, false)
  {
    assert Visible(Holding(b, capacity, 0), DAY + 1) == None;
    assert Quot(0, interval) * leak == 0;
    LastOfTwoBursts(capacity, leak, interval, b, wait, 1);
  }

  /** A bucket that is remembered and had not drained when the waiting call read its clock does not. */
  lemma SecondBurstDenied(capacity: nat, leak: int, interval: int, wait: nat)
    requires Sane(capacity, leak, interval) && 0 < capacity && wait < interval && wait <= DAY + 1
    requires Drip(leak, interval, 0, DAY + 1 - wait) < capacity
    ensures Run(Limiter.LeakyBucket(capacity, leak, interval), Eternal, None,
                TwoBursts(capacity, wait))[2 * capacity - 1] == Decision(false, false)
  {
    var left := capacity - Drip(leak, interval, 0, DAY + 1 - wait);
    RememberedCallAddsRequest(capacity, leak, interval, Holding(Eternal, capacity, 0), 0, Waiting(wait).r);
    DripSplits(leak, interval, 0, 0, DAY + 1 - wait);
    LastOfTwoBursts(capacity, leak, interval, Eternal, wait, if left < capacity then left + 1 else left);
  }

  /** A burst is admitted as far as there is room. */
  lemma {:induction false} BurstAdmits(capacity: int, leak: int, interval: int, b: Backend, cell: Cell, t: int,
                                       count: int, n: nat)
    requires Sane(capacity, leak, interval) && 0 <= count <= capacity && Finds(capacity, leak, interval, cell, t, count)
    ensures Admitted(Run(Limiter.LeakyBucket(capacity, leak, interval), b, cell, Burst(t, n)))
         == Least(n, capacity - count)
  {
    if n > 0 {
      BurstAdmits(capacity, leak, interval, b, cell, t, count, n - 1);
      BurstFills(capacity, leak, interval, b, cell, t, count, n);
      BurstAdmitsLast(Limiter.LeakyBucket(capacity, leak, interval), b, cell, t, n);
    }
  }

  /** Of a bucketful that comes after a bucketful, as many calls are admitted as have leaked in the meantime, or all of
      them once the store has forgotten the first. */
  lemma SecondBucketful(capacity: nat, leak: int, interval: int, b: Backend, t: int, later: int)
    requires Sane(capacity, leak, interval) && 0 < capacity && t <= later
    ensures
      var lim := Limiter.LeakyBucket(capacity, leak, interval);
      && Admitted(Run(lim, b, None, Burst(t, capacity))) == capacity
      && Admitted(Run(lim, b, After(lim, b, None, Burst(t, capacity)), Burst(later, capacity)))
         == if !b.Eternal? && t + 86_400_000_000_000 < later then capacity
            else Least(capacity, (later - t) / interval * leak)
  {
    var level := Max(0, capacity - Drip(leak, interval, t, later));
    DripSplits(leak, interval, t, later, later);
    assert Finds(capacity, leak, interval, None, t, 0) by {
      assert Quot(0, interval) * leak == 0;
    }
    BurstAdmits(capacity, leak, interval, b, None, t, 0, capacity);
    BurstFills(capacity, leak, interval, b, None, t, 0, capacity);
    var full := Holding(b, capacity, t);
    if !b.Eternal? && t + DAY < later {
      assert Visible(full, later) == None;
      assert Finds(capacity, leak, interval, full, later, 0) by {
        assert Quot(0, interval) * leak == 0;
      }
      BurstAdmits(capacity, leak, interval, b, full, later, 0, capacity);
    } else {
      assert Visible(full, later) == Some(LeakyState(capacity, t));
      assert Finds(capacity, leak, interval, full, later, level);
      BurstAdmits(capacity, leak, interval, b, full, later, level, capacity);
    }
  }

  // The ideal leaky bucket

  /** A bucket that leaks at fixed instants, one interval apart from its first request on; `anchor` is the last of
      them. */
  datatype Ideal = Ideal(count: int, anchor: int)

  function IdealStep(capacity: int, leak: int, interval: int, ideal: Option<Ideal>, e: Event): (Option<Ideal>, Reply)
    requires 0 < interval
  {
    match e
    case Call(r) =>
      if !Succeeds(e) then (ideal, Decision(true, true))
      else
        var Ideal(count, anchor) := if ideal.Some? then ideal.value else Ideal(0, r.now);
        var level := Max(0, count - Drip(leak, interval, anchor, r.now));
        var leaksAt := anchor + (r.now - anchor) / interval * interval;
        (Some(Ideal(if level < capacity then level + 1 else level, leaksAt)), Decision(level < capacity, false))
    case Reset(_, ok) => (if ok then None else ideal, NoReply)
    case Sweep(_) => (ideal, NoReply)
    case Corrupt(_) => (None, NoReply)
  }

  function IdealRun(capacity: int, leak: int, interval: int, ideal: Option<Ideal>,
                    events: seq<Event>): (replies: seq<Reply>)
    requires 0 < interval
    ensures |replies| == |events|
    decreases events
  {
    if events == [] then []
    else
      var (next, reply) := IdealStep(capacity, leak, interval, ideal, events[0]);
      [reply] + IdealRun(capacity, leak, interval, next, events[1..])
  }

  function IdealAfter(capacity: int, leak: int, interval: int, ideal: Option<Ideal>,
                      events: seq<Event>): Option<Ideal>
    requires 0 < interval
    decreases events
  {
    if events == [] then ideal
    else IdealAfter(capacity, leak, interval, IdealStep(capacity, leak, interval, ideal, events[0]).0, events[1..])
  }

  /** The bucket is at least as full as the ideal one, because its clock is never behind. */
  ghost predicate Covers(capacity: int, cell: Cell, ideal: Option<Ideal>, clock: int) {
    && Valid(capacity, cell, clock)
    && (ideal.Some? <==> cell.Some? && cell.value.value.LeakyState?)
    && (ideal.Some? ==>
        && 0 <= ideal.value.count <= cell.value.value.count
        && ideal.value.anchor <= cell.value.value.lastLeakTime)
  }

  /** Every call the bucket grants, in any run, the ideal bucket grants too, and the count it holds at the end is at
      least the ideal's. */
  lemma IdealGrantsAsMuch(capacity: int, leak: int, interval: int, store: Backend, clock: int, events: seq<Event>,
                          stall: nat)
    requires Sane(capacity, leak, interval)
    requires Remembers(capacity, leak, interval, store, events, stall)
    requires Orderly(Limiter.LeakyBucket(capacity, leak, interval), clock, events, stall)
    ensures
      var granted := Run(Limiter.LeakyBucket(capacity, leak, interval), store, None, events);
      var ideally := IdealRun(capacity, leak, interval, None, events);
      var end := After(Limiter.LeakyBucket(capacity, leak, interval), store, None, events);
      var ideal := IdealAfter(capacity, leak, interval, None, events);
      && (forall i | 0 <= i < |events| && Grants(granted[i]) :: Grants(ideally[i]))
      && (end.Some? && end.value.value.LeakyState? ==> ideal.Some? && 0 <= ideal.value.count <= end.value.value.count)
  {
    RunIsRemembered(capacity, leak, interval, store, clock, events, stall);
    CoversThroughout(capacity, leak, interval, None, None, clock, events, stall);
  }

  lemma {:induction false} CoversThroughout(capacity: int, leak: int, interval: int, cell: Cell, ideal: Option<Ideal>,
                                            clock: int, events: seq<Event>, stall: nat)
    requires Sane(capacity, leak, interval) && Covers(capacity, cell, ideal, clock)
    requires Orderly(Limiter.LeakyBucket(capacity, leak, interval), clock, events, stall)
    ensures
      var granted := Run(Limiter.LeakyBucket(capacity, leak, interval), Eternal, cell, events);
      var ideally := IdealRun(capacity, leak, interval, ideal, events);
      && (forall i | 0 <= i < |events| && Grants(granted[i]) :: Grants(ideally[i]))
      && Covers(capacity, After(Limiter.LeakyBucket(capacity, leak, interval), Eternal, cell, events),
                IdealAfter(capacity, leak, interval, ideal, events), Clock(clock, events))
    decreases events
  {
    if events != [] {
      var lim, e := Limiter.LeakyBucket(capacity, leak, interval), events[0];
      var (next, reply) := Step(lim, Eternal, cell, e);
      var (nextIdeal, idealReply) := IdealStep(capacity, leak, interval, ideal, e);
      StepCovers(capacity, leak, interval, cell, ideal, clock, e, stall);
      CoversThroughout(capacity, leak, interval, next, nextIdeal, End(e), events[1..], stall);
      var granted, ideally := Run(lim, Eternal, cell, events), IdealRun(capacity, leak, interval, ideal, events);
      assert granted[0] == reply && ideally[0] == idealReply;
      assert granted[1..] == Run(lim, Eternal, next, events[1..]);
      assert ideally[1..] == IdealRun(capacity, leak, interval, nextIdeal, events[1..]);
      forall i | 0 <= i < |events| && Grants(granted[i])
        ensures Grants(ideally[i])
      {
        if i > 0 {
          assert granted[i] == granted[1..][i - 1] && ideally[i] == ideally[1..][i - 1];
        }
      }
    }
  }

  lemma StepCovers(capacity: int, leak: int, interval: int, cell: Cell, ideal: Option<Ideal>, clock: int, e: Event,
                   stall: nat)
    requires Sane(capacity, leak, interval) && Covers(capacity, cell, ideal, clock)
    requires InOrder(Limiter.LeakyBucket(capacity, leak, interval), clock, e, stall)
    ensures
      var (next, reply) := Step(Limiter.LeakyBucket(capacity, leak, interval), Eternal, cell, e);
      var (nextIdeal, idealReply) := IdealStep(capacity, leak, interval, ideal, e);
      && (Grants(reply) ==> Grants(idealReply))
      && Covers(capacity, next, nextIdeal, End(e))
  {
    if Succeeds(e) {
      RememberedCallAddsRequest(capacity, leak, interval, cell, clock, e.r);
      if ideal.Some? {
        DripSplits(leak, interval, ideal.value.anchor, cell.value.value.lastLeakTime, e.r.now);
        FloorBelow(e.r.now - ideal.value.anchor, interval);
      } else {
        FloorBelow(0, interval);
      }
    }
  }

  lemma FloorBelow(x: int, d: int)
    requires 0 <= x && 0 < d
    ensures 0 <= x / d * d <= x
    ensures x % d == 0 ==> x / d * d == x
  {
  }

  /** All calls fall on the ideal bucket's leaking instants. */
  ghost predicate OnGrid(interval: int, origin: int, events: seq<Event>)
    requires 0 < interval
  {
    forall i | 0 <= i < |events| && events[i].Call? :: (events[i].r.now - origin) % interval == 0
  }

  /** Where no remainder is dropped, the bucket is the ideal one. */
  lemma AgreesOnGrid(capacity: int, leak: int, interval: int, store: Backend, clock: int, events: seq<Event>,
                     stall: nat, origin: int)
    requires Sane(capacity, leak, interval) && OnGrid(interval, origin, events)
    requires Remembers(capacity, leak, interval, store, events, stall)
    requires Orderly(Limiter.LeakyBucket(capacity, leak, interval), clock, events, stall)
    ensures Run(Limiter.LeakyBucket(capacity, leak, interval), store, None, events)
         == IdealRun(capacity, leak, interval, None, events)
  {
    RunIsRemembered(capacity, leak, interval, store, clock, events, stall);
    GridThroughout(capacity, leak, interval, None, None, clock, events, stall, origin);
  }

  ghost predicate Coincides(capacity: int, interval: int, cell: Cell, ideal: Option<Ideal>, clock: int, origin: int)
    requires 0 < interval
  {
    && Covers(capacity, cell, ideal, clock)
    && (ideal.Some? ==>
        && ideal.value == Ideal(cell.value.value.count, cell.value.value.lastLeakTime)
        && (ideal.value.anchor - origin) % interval == 0)
  }

  lemma {:induction false} GridThroughout(capacity: int, leak: int, interval: int, cell: Cell, ideal: Option<Ideal>,
                                          clock: int, events: seq<Event>, stall: nat, origin: int)
    requires Sane(capacity, leak, interval) && OnGrid(interval, origin, events)
    requires Coincides(capacity, interval, cell, ideal, clock, origin)
    requires Orderly(Limiter.LeakyBucket(capacity, leak, interval), clock, events, stall)
    ensures Run(Limiter.LeakyBucket(capacity, leak, interval), Eternal, cell, events)
         == IdealRun(capacity, leak, interval, ideal, events)
    decreases events
  {
    if events != [] {
      var lim, e := Limiter.LeakyBucket(capacity, leak, interval), events[0];
      assert e.Call? ==> (e.r.now - origin) % interval == 0;
      assert OnGrid(interval, origin, events[1..]);
      StepCoincides(capacity, leak, interval, cell, ideal, clock, e, stall, origin);
      GridThroughout(capacity, leak, interval, Step(lim, Eternal, cell, e).0,
                     IdealStep(capacity, leak, interval, ideal, e).0, End(e), events[1..], stall, origin);
    }
  }

  lemma StepCoincides(capacity: int, leak: int, interval: int, cell: Cell, ideal: Option<Ideal>, clock: int, e: Event,
                      stall: nat, origin: int)
    requires Sane(capacity, leak, interval) && Coincides(capacity, interval, cell, ideal, clock, origin)
    requires InOrder(Limiter.LeakyBucket(capacity, leak, interval), clock, e, stall)
    requires e.Call? ==> (e.r.now - origin) % interval == 0
    ensures
      var (next, reply) := Step(Limiter.LeakyBucket(capacity, leak, interval), Eternal, cell, e);
      var (nextIdeal, idealReply) := IdealStep(capacity, leak, interval, ideal, e);
      reply == idealReply && Coincides(capacity, interval, next, nextIdeal, End(e), origin)
  {
    StepCovers(capacity, leak, interval, cell, ideal, clock, e, stall);
    if Succeeds(e) {
      RememberedCallAddsRequest(capacity, leak, interval, cell, clock, e.r);
      FloorBelow(0, interval);
      if ideal.Some? {
        SameResidue(e.r.now - origin, ideal.value.anchor - origin, interval);
        FloorBelow(e.r.now - ideal.value.anchor, interval);
      }
    }
  }

  lemma SameResidue(x: int, y: int, d: int)
    requires 0 < d && x % d == 0 && y % d == 0
    ensures (x - y) % d == 0
  {
    var p, q := x / d, y / d;
    assert x - y == (p - q) * d;
    var r, m := (x - y) / d, (x - y) % d;
    assert (p - q - r) * d == m;
    assert p - q - r >= 1 ==> (p - q - r) * d >= d;
    assert p - q - r <= -1 ==> (p - q - r) * d <= -d;
  }

  lemma CoarserGrid(interval: int, g: int, events: seq<Event>)
    requires 0 < interval && 0 < g && g % interval == 0 && OnGrid(g, 0, events)
    ensures OnGrid(interval, 0, events)
  {
    forall i | 0 <= i < |events| && events[i].Call?
      ensures (events[i].r.now - 0) % interval == 0
    {
      MultipleOfMultiple(events[i].r.now, g, interval);
    }
  }

  lemma MultipleOfMultiple(x: int, g: int, d: int)
    requires 0 < d && 0 < g && g % d == 0 && x % g == 0
    ensures x % d == 0
  {
    assert x == x / g * (g / d) * d;
    MultipleHasNoRemainder(x / g * (g / d), d);
  }

  /** Where the bucket drains between any two instants calls come at, or nothing ever leaks, it is the ideal one. */
  lemma AgreesWhenSparse(capacity: int, leak: int, interval: int, store: Backend, clock: int, events: seq<Event>,
                         stall: nat, g: int)
    requires Sane(capacity, leak, interval) && 0 < g && OnGrid(g, 0, events)
    requires leak == 0 || capacity <= Drip(leak, interval, 0, g)
    requires Remembers(capacity, leak, interval, store, events, stall)
    requires Orderly(Limiter.LeakyBucket(capacity, leak, interval), clock, events, stall)
    ensures Run(Limiter.LeakyBucket(capacity, leak, interval), store, None, events)
         == IdealRun(capacity, leak, interval, None, events)
  {
    RunIsRemembered(capacity, leak, interval, store, clock, events, stall);
    SparseThroughout(capacity, leak, interval, None, None, clock, events, stall, g);
  }

  ghost predicate Tallies(capacity: int, interval: int, cell: Cell, ideal: Option<Ideal>, clock: int, g: int)
    requires 0 < interval && 0 < g
  {
    && Covers(capacity, cell, ideal, clock)
    && (ideal.Some? ==>
        && ideal.value.count == cell.value.value.count
        && cell.value.value.lastLeakTime < ideal.value.anchor + interval
        && cell.value.value.lastLeakTime % g == 0)
  }

  lemma {:induction false} SparseThroughout(capacity: int, leak: int, interval: int, cell: Cell, ideal: Option<Ideal>,
                                            clock: int, events: seq<Event>, stall: nat, g: int)
    requires Sane(capacity, leak, interval) && 0 < g && OnGrid(g, 0, events)
    requires leak == 0 || capacity <= Drip(leak, interval, 0, g)
    requires Tallies(capacity, interval, cell, ideal, clock, g)
    requires Orderly(Limiter.LeakyBucket(capacity, leak, interval), clock, events, stall)
    ensures Run(Limiter.LeakyBucket(capacity, leak, interval), Eternal, cell, events)
         == IdealRun(capacity, leak, interval, ideal, events)
    decreases events
  {
    if events != [] {
      var lim, e := Limiter.LeakyBucket(capacity, leak, interval), events[0];
      assert e.Call? ==> (e.r.now - 0) % g == 0;
      assert OnGrid(g, 0, events[1..]);
      SparseStepAgrees(capacity, leak, interval, cell, ideal, clock, e, stall, g);
      SparseThroughout(capacity, leak, interval, Step(lim, Eternal, cell, e).0,
                       IdealStep(capacity, leak, interval, ideal, e).0, End(e), events[1..], stall, g);
    }
  }

  lemma SparseStepAgrees(capacity: int, leak: int, interval: int, cell: Cell, ideal: Option<Ideal>, clock: int,
                         e: Event, stall: nat, g: int)
    requires Sane(capacity, leak, interval) && 0 < g && (e.Call? ==> e.r.now % g == 0)
    requires leak == 0 || capacity <= Drip(leak, interval, 0, g)
    requires Tallies(capacity, interval, cell, ideal, clock, g)
    requires InOrder(Limiter.LeakyBucket(capacity, leak, interval), clock, e, stall)
    ensures
      var (next, reply) := Step(Limiter.LeakyBucket(capacity, leak, interval), Eternal, cell, e);
      var (nextIdeal, idealReply) := IdealStep(capacity, leak, interval, ideal, e);
      reply == idealReply && Tallies(capacity, interval, next, nextIdeal, End(e), g)
  {
    StepCovers(capacity, leak, interval, cell, ideal, clock, e, stall);
    if Succeeds(e) {
      RememberedCallAddsRequest(capacity, leak, interval, cell, clock, e.r);
      FloorBelow(0, interval);
      if ideal.Some? {
        SameLevels(capacity, leak, interval, ideal.value, cell.value.value.lastLeakTime, e.r.now, g);
        FloorBelow(e.r.now - ideal.value.anchor, interval);
      }
    }
  }

  lemma SameLevels(capacity: int, leak: int, interval: int, ideal: Ideal, last: int, now: int, g: int)
    requires Sane(capacity, leak, interval) && 0 < g && (leak == 0 || capacity <= Drip(leak, interval, 0, g))
    requires ideal.anchor <= last < ideal.anchor + interval && last <= now && last % g == 0 && now % g == 0
    requires 0 <= ideal.count <= capacity
    ensures Max(0, ideal.count - Drip(leak, interval, ideal.anchor, now))
         == Max(0, ideal.count - Drip(leak, interval, last, now))
  {
    if leak == 0 {
      assert Drip(leak, interval, ideal.anchor, now) == 0 == Drip(leak, interval, last, now);
    } else if last < now {
      NextOnGrid(last, now, g);
      DripSplits(leak, interval, last, last + g, now);
      DripSplits(leak, interval, ideal.anchor, last, now);
    } else {
      assert (now - ideal.anchor) / interval == 0 == (now - last) / interval;
    }
  }

  lemma NextOnGrid(last: int, now: int, g: int)
    requires 0 < g && last < now && last % g == 0 && now % g == 0
    ensures last + g <= now
  {
    var x, y := last / g, now / g;
    assert last == x * g && now == y * g;
    assert y <= x ==> y * g <= x * g;
    assert (y - x) * g == y * g - x * g;
    assert (y - x - 1) * g == (y - x) * g - g;
    assert y - x >= 1 ==> 0 <= (y - x - 1) * g;
  }

  /** A burst on a remembered bucket whose level is known. */
  lemma BurstLands(capacity: int, leak: int, interval: int, cell: Cell, t: int, level: int, n: nat)
    requires Sane(capacity, leak, interval) && Valid(capacity, cell, t) && 0 < n
    requires Level(leak, interval, cell, t) == level <= capacity
    ensures
      var lim := Limiter.LeakyBucket(capacity, leak, interval);
      && After(lim, Eternal, cell, Burst(t, n)) == Holding(Eternal, Least(level + n, capacity), t)
      && Run(lim, Eternal, cell, Burst(t, n))[n - 1] == Decision(level + n <= capacity, false)
  {
    RememberedCallAddsRequest(capacity, leak, interval, cell, t, CallAt(t).r);
    assert Finds(capacity, leak, interval, cell, t, level);
    BurstFills(capacity, leak, interval, Eternal, cell, t, level, n);
  }

  lemma LastIdealReply(capacity: int, leak: int, interval: int, ideal: Option<Ideal>, xs: seq<Event>, ys: seq<Event>)
    requires 0 < interval && ys != []
    ensures IdealRun(capacity, leak, interval, ideal, xs + ys)[|xs + ys| - 1]
         == IdealRun(capacity, leak, interval, IdealAfter(capacity, leak, interval, ideal, xs), ys)[|ys| - 1]
  {
    IdealConcat(capacity, leak, interval, ideal, xs, ys);
  }

  lemma IdealStepIs(capacity: int, leak: int, interval: int, ideal: Option<Ideal>, t: int, level: int, anchor: int)
    requires 0 < interval
    requires
      var Ideal(count, last) := if ideal.Some? then ideal.value else Ideal(0, t);
      level == Max(0, count - Drip(leak, interval, last, t)) && anchor == last + (t - last) / interval * interval
    ensures IdealStep(capacity, leak, interval, ideal, CallAt(t))
         == (Some(Ideal(if level < capacity then level + 1 else level, anchor)), Decision(level < capacity, false))
  {
  }

  lemma QuotientIs(x: int, d: int, k: int, r: int)
    requires 0 < d && x == k * d + r && 0 <= r < d
    ensures x / d == k
  {
    var q := x / d;
    assert (k - q) * d == x % d - r;
    assert k - q >= 1 ==> (k - q) * d >= d;
    assert k - q <= -1 ==> (k - q) * d <= -d;
  }

  /** A burst on an ideal bucket whose level and last leaking instant are known. */
  lemma {:induction false} IdealBurst(capacity: int, leak: int, interval: int, ideal: Option<Ideal>, t: int, level: int,
                                      anchor: int, n: nat)
    requires Sane(capacity, leak, interval) && 0 < n && 0 <= level <= capacity && anchor <= t < anchor + interval
    requires IdealStep(capacity, leak, interval, ideal, CallAt(t))
          == (Some(Ideal(if level < capacity then level + 1 else level, anchor)), Decision(level < capacity, false))
    ensures IdealAfter(capacity, leak, interval, ideal, Burst(t, n)) == Some(Ideal(Least(level + n, capacity), anchor))
    ensures IdealRun(capacity, leak, interval, ideal, Burst(t, n))[n - 1] == Decision(level + n <= capacity, false)
  {
    var before := IdealAfter(capacity, leak, interval, ideal, Burst(t, n - 1));
    var count := Least(level + n - 1, capacity);
    assert IdealStep(capacity, leak, interval, before, CallAt(t))
        == (Some(Ideal(if count < capacity then count + 1 else count, anchor)), Decision(count < capacity, false)) by {
      if n > 1 {
        IdealBurst(capacity, leak, interval, ideal, t, level, anchor, n - 1);
        assert (t - anchor) / interval == 0;
        IdealStepIs(capacity, leak, interval, before, t, count, anchor);
      }
    }
    LastIdealCall(capacity, leak, interval, before, t);
    IdealConcat(capacity, leak, interval, ideal, Burst(t, n - 1), [CallAt(t)]);
  }

  lemma LastIdealCall(capacity: int, leak: int, interval: int, ideal: Option<Ideal>, t: int)
    requires 0 < interval
    ensures
      var (next, reply) := IdealStep(capacity, leak, interval, ideal, CallAt(t));
      && IdealAfter(capacity, leak, interval, ideal, [CallAt(t)]) == next
      && IdealRun(capacity, leak, interval, ideal, [CallAt(t)]) == [reply]
  {
    var next := IdealStep(capacity, leak, interval, ideal, CallAt(t)).0;
    assert IdealAfter(capacity, leak, interval, next, []) == next;
  }

  lemma {:induction false} IdealConcat(capacity: int, leak: int, interval: int, ideal: Option<Ideal>, xs: seq<Event>,
                                       ys: seq<Event>)
    requires 0 < interval
    ensures IdealRun(capacity, leak, interval, ideal, xs + ys)
         == IdealRun(capacity, leak, interval, ideal, xs)
            + IdealRun(capacity, leak, interval, IdealAfter(capacity, leak, interval, ideal, xs), ys)
    ensures IdealAfter(capacity, leak, interval, ideal, xs + ys)
         == IdealAfter(capacity, leak, interval, IdealAfter(capacity, leak, interval, ideal, xs), ys)
    decreases xs
  {
    if xs == [] {
      assert xs + ys == ys;
    } else {
      assert (xs + ys)[1..] == xs[1..] + ys;
      IdealConcat(capacity, leak, interval, IdealStep(capacity, leak, interval, ideal, xs[0]).0, xs[1..], ys);
    }
  }

  // The run in which the dropped remainders are missed

  /** The bucket is filled at 0, g, 2 * g and so on up to n * g. */
  function Waves(capacity: nat, g: int, n: nat): (events: seq<Event>)
    ensures forall e | e in events :: e.Call?
  {
    if n == 0 then Burst(0, capacity) else Waves(capacity, g, n - 1) + Burst(n * g, capacity)
  }

  /** At a multiple of g before the remainders that are dropped at each add up to an interval. */
  function LastDropped(interval: int, g: int): nat
    requires 0 < interval && 0 < g && g % interval != 0
  {
    (interval - 1) / (g % interval)
  }

  /** Waves up to there, and at the next multiple one call more than leaks out of this bucket by then. */
  function DroppedRemainder(capacity: nat, leak: int, interval: int, g: int): (events: seq<Event>)
    requires Sane(capacity, leak, interval) && 0 < g && g % interval != 0
    ensures events != []
  {
    DripSplits(leak, interval, 0, g, g);
    var m := LastDropped(interval, g);
    Waves(capacity, g, m) + Burst((m + 1) * g, Drip(leak, interval, 0, g) + 1)
  }

  /** Over any store, if g is at most a day, the bucket denies that last call, which the ideal one grants. */
  lemma DroppedRemainderDenies(capacity: nat, leak: int, interval: int, g: int, store: Backend)
    requires Sane(capacity, leak, interval) && 0 < g && (store.Eternal? || g <= DAY)
    requires leak != 0 && g % interval != 0 && Drip(leak, interval, 0, g) < capacity
    ensures
      var events := DroppedRemainder(capacity, leak, interval, g);
      && AtMultiples(capacity, leak, interval, g, store, 0, events, 0)
      && Run(Limiter.LeakyBucket(capacity, leak, interval), store, None, events)[|events| - 1] == Decision(false, false)
      && IdealRun(capacity, leak, interval, None, events)[|events| - 1] == Decision(true, false)
  {
    var m, drip := LastDropped(interval, g), Drip(leak, interval, 0, g);
    DripSplits(leak, interval, 0, g, g);
    WavesAtMultiples(Limiter.LeakyBucket(capacity, leak, interval), capacity, g, m, drip + 1);
    if !store.Eternal? {
      LastWaveIsBusy(capacity, g, m, drip + 1);
    }
    RunIsRemembered(capacity, leak, interval, store, 0, DroppedRemainder(capacity, leak, interval, g), 0);
    RemainderIsDropped(capacity, leak, interval, g, m);
    RemainderIsCarried(capacity, leak, interval, g);
  }

  lemma WavesAtMultiples(lim: Limiter, capacity: nat, g: int, m: nat, n: nat)
    requires 0 < g && 0 < capacity && 0 < n
    ensures
      var events := Waves(capacity, g, m) + Burst((m + 1) * g, n);
      Orderly(lim, 0, events, 0) && OnGrid(g, 0, events)
  {
    WavesAreOrderly(lim, capacity, g, m);
    NextMultiple(m, g);
    WaveFollows(lim, Waves(capacity, g, m), m * g, (m + 1) * g, n);
    WavesOnGrid(capacity, g, m);
    BurstOnGrid(g, m + 1, n);
  }

  lemma NextMultiple(n: nat, g: int)
    requires 0 < g
    ensures 0 <= n * g < (n + 1) * g && (n + 1) * g == n * g + g
  {
    assert (n + 1) * g == n * g + g;
    ScaledSum(n, 0, n, g);
  }

  lemma BurstOnGrid(g: int, k: nat, n: nat)
    requires 0 < g
    ensures OnGrid(g, 0, Burst(k * g, n))
  {
    MultipleHasNoRemainder(k, g);
    forall i | 0 <= i < n
      ensures Burst(k * g, n)[i] == CallAt(k * g)
    {
      assert Burst(k * g, n)[i] in Burst(k * g, n);
    }
  }

  lemma {:induction false} WavesAreOrderly(lim: Limiter, capacity: nat, g: int, n: nat)
    requires 0 < g && 0 < capacity
    ensures Orderly(lim, 0, Waves(capacity, g, n), 0) && Clock(0, Waves(capacity, g, n)) == n * g
  {
    if n == 0 {
      BurstIsOrderly(lim, 0, 0, capacity, 0);
    } else {
      var t, last := n * g, (n - 1) * g;
      NextMultiple(n - 1, g);
      WavesAreOrderly(lim, capacity, g, n - 1);
      WaveFollows(lim, Waves(capacity, g, n - 1), last, t, capacity);
    }
  }

  lemma WaveFollows(lim: Limiter, before: seq<Event>, last: int, t: int, n: nat)
    requires Orderly(lim, 0, before, 0) && Clock(0, before) == last <= t && 0 < n
    ensures Orderly(lim, 0, before + Burst(t, n), 0) && Clock(0, before + Burst(t, n)) == t
  {
    BurstIsOrderly(lim, last, t, n, 0);
    OrderlyConcat(lim, 0, before, Burst(t, n), 0);
  }

  lemma {:induction false} WavesOnGrid(capacity: nat, g: int, n: nat)
    requires 0 < g
    ensures OnGrid(g, 0, Waves(capacity, g, n))
  {
    BurstOnGrid(g, n, capacity);
    if n > 0 {
      WavesOnGrid(capacity, g, n - 1);
    }
  }

  lemma {:induction false} BurstIsBusy(lastSet: Option<int>, t: int, n: nat, rest: seq<Event>)
    requires 0 < n && (lastSet.Some? ==> t <= lastSet.value + DAY) && Busy(Some(t), rest)
    ensures Busy(lastSet, Burst(t, n) + rest)
    decreases n
  {
    var longer := [CallAt(t)] + rest;
    assert longer[1..] == rest;
    if n == 1 {
      assert Burst(t, 1) + rest == longer;
    } else {
      BurstIsBusy(lastSet, t, n - 1, longer);
      assert Burst(t, n) + rest == Burst(t, n - 1) + longer;
    }
  }

  lemma {:induction false} WavesAreBusy(capacity: nat, g: int, n: nat, rest: seq<Event>)
    requires 0 < g <= DAY && 0 < capacity && Busy(Some(n * g), rest)
    ensures Busy(None, Waves(capacity, g, n) + rest)
    decreases n
  {
    if n == 0 {
      BurstIsBusy(None, 0, capacity, rest);
    } else {
      NextMultiple(n - 1, g);
      BurstIsBusy(Some((n - 1) * g), n * g, capacity, rest);
      WavesAreBusy(capacity, g, n - 1, Burst(n * g, capacity) + rest);
      assert Waves(capacity, g, n) + rest == Waves(capacity, g, n - 1) + (Burst(n * g, capacity) + rest);
    }
  }

  lemma LastWaveIsBusy(capacity: nat, g: int, m: nat, n: nat)
    requires 0 < g <= DAY && 0 < capacity && 0 < n
    ensures Busy(None, Waves(capacity, g, m) + Burst((m + 1) * g, n))
  {
    var last := Burst((m + 1) * g, n);
    NextMultiple(m, g);
    BurstIsBusy(Some(m * g), (m + 1) * g, n, []);
    assert last + [] == last;
    WavesAreBusy(capacity, g, m, last);
  }

  /** After each wave the bucket is full, and its clock reads that instant. */
  lemma {:induction false} WavesFill(capacity: nat, leak: int, interval: int, g: int, n: nat)
    requires Sane(capacity, leak, interval) && 0 < capacity && 0 < g
    ensures After(Limiter.LeakyBucket(capacity, leak, interval), Eternal, None, Waves(capacity, g, n))
         == Holding(Eternal, capacity, n * g)
  {
    var lim := Limiter.LeakyBucket(capacity, leak, interval);
    if n == 0 {
      BurstLands(capacity, leak, interval, None, 0, 0, capacity);
    } else {
      WavesFill(capacity, leak, interval, g, n - 1);
      RunConcat(lim, Eternal, None, Waves(capacity, g, n - 1), Burst(n * g, capacity));
      WaveLands(capacity, leak, interval, (n - 1) * g, g, capacity);
    }
  }

  lemma WaveLands(capacity: nat, leak: int, interval: int, t: int, g: int, n: nat)
    requires Sane(capacity, leak, interval) && 0 < g && 0 < n
    ensures
      var lim, level := Limiter.LeakyBucket(capacity, leak, interval), Max(0, capacity - Drip(leak, interval, 0, g));
      && After(lim, Eternal, Holding(Eternal, capacity, t), Burst(t + g, n))
         == Holding(Eternal, Least(level + n, capacity), t + g)
      && Run(lim, Eternal, Holding(Eternal, capacity, t), Burst(t + g, n))[n - 1]
         == Decision(level + n <= capacity, false)
  {
    DripSplits(leak, interval, 0, g, g);
    BurstLands(capacity, leak, interval, Holding(Eternal, capacity, t), t + g,
               Max(0, capacity - Drip(leak, interval, 0, g)), n);
  }

  lemma RemainderIsDropped(capacity: nat, leak: int, interval: int, g: int, m: nat)
    requires Sane(capacity, leak, interval) && 0 < g && 0 <= Drip(leak, interval, 0, g) < capacity
    ensures
      var events := Waves(capacity, g, m) + Burst((m + 1) * g, Drip(leak, interval, 0, g) + 1);
      Run(Limiter.LeakyBucket(capacity, leak, interval), Eternal, None, events)[|events| - 1] == Decision(false, false)
  {
    var last := Burst((m + 1) * g, Drip(leak, interval, 0, g) + 1);
    WavesFill(capacity, leak, interval, g, m);
    LastReply(Limiter.LeakyBucket(capacity, leak, interval), Eternal, None, Waves(capacity, g, m), last);
    NextMultiple(m, g);
    WaveLands(capacity, leak, interval, m * g, g, |last|);
  }

  /** A wave on a full ideal bucket, q intervals and a remainder after it last leaked. */
  lemma IdealWave(capacity: nat, leak: int, interval: int, anchor: int, q: int, rem: int, t: int, n: nat)
    requires Sane(capacity, leak, interval) && 0 < n && 0 <= rem < interval && 0 <= q
    requires t == anchor + q * interval + rem
    ensures
      var level := Max(0, capacity - q * leak);
      && IdealAfter(capacity, leak, interval, Some(Ideal(capacity, anchor)), Burst(t, n))
         == Some(Ideal(Least(level + n, capacity), anchor + q * interval))
      && IdealRun(capacity, leak, interval, Some(Ideal(capacity, anchor)), Burst(t, n))[n - 1]
         == Decision(level + n <= capacity, false)
  {
    QuotientIs(t - anchor, interval, q, rem);
    ScaledSum(q, 0, q, leak);
    var level := Max(0, capacity - q * leak);
    IdealStepIs(capacity, leak, interval, Some(Ideal(capacity, anchor)), t, level, anchor + q * interval);
    IdealBurst(capacity, leak, interval, Some(Ideal(capacity, anchor)), t, level, anchor + q * interval, n);
  }

  /** After each wave the ideal bucket is full too, but it last leaked as many remainders before that instant. */
  lemma {:induction false} IdealWavesFill(capacity: nat, leak: int, interval: int, g: int, q: int, r: int, n: nat)
    requires Sane(capacity, leak, interval) && 0 < capacity && 0 <= q && 0 <= r && g == q * interval + r
    requires n * r < interval
    ensures IdealAfter(capacity, leak, interval, None, Waves(capacity, g, n))
         == Some(Ideal(capacity, n * (q * interval)))
  {
    if n == 0 {
      IdealStepIs(capacity, leak, interval, None, 0, 0, 0);
      IdealBurst(capacity, leak, interval, None, 0, 0, 0, capacity);
    } else {
      WaveOffset(n, q * interval, r);
      IdealWavesFill(capacity, leak, interval, g, q, r, n - 1);
      IdealWaveFills(capacity, leak, interval, Waves(capacity, g, n - 1), (n - 1) * (q * interval), q, n * r, n * g);
    }
  }

  lemma IdealWaveFills(capacity: nat, leak: int, interval: int, before: seq<Event>, anchor: int, q: int, rem: int,
                       t: int)
    requires Sane(capacity, leak, interval) && 0 < capacity && 0 <= q && 0 <= rem < interval
    requires t == anchor + q * interval + rem
    requires IdealAfter(capacity, leak, interval, None, before) == Some(Ideal(capacity, anchor))
    ensures IdealAfter(capacity, leak, interval, None, before + Burst(t, capacity))
         == Some(Ideal(capacity, anchor + q * interval))
  {
    IdealConcat(capacity, leak, interval, None, before, Burst(t, capacity));
    IdealWave(capacity, leak, interval, anchor, q, rem, t, capacity);
  }

  lemma WaveOffset(n: nat, x: int, r: int)
    requires 0 < n && 0 <= r
    ensures n * (x + r) == (n - 1) * x + x + n * r
    ensures n * x == (n - 1) * x + x
    ensures 0 <= (n - 1) * r <= n * r && n * r == (n - 1) * r + r
  {
    assert n * (x + r) == n * x + n * r;
    assert n * x == (n - 1) * x + x;
    assert n * r == (n - 1) * r + r;
    ScaledSum(n - 1, 1, n, r);
  }

  lemma RemainderIsCarried(capacity: nat, leak: int, interval: int, g: int)
    requires Sane(capacity, leak, interval) && 0 < leak && 0 < g && g % interval != 0
    requires 0 <= Drip(leak, interval, 0, g) < capacity
    ensures
      var events := DroppedRemainder(capacity, leak, interval, g);
      IdealRun(capacity, leak, interval, None, events)[|events| - 1] == Decision(true, false)
  {
    var q, r, m, drip := g / interval, g % interval, LastDropped(interval, g), Drip(leak, interval, 0, g);
    var anchor, rem := m * (q * interval), (m + 1) * r - interval;
    assert 0 <= rem < interval && (m + 1) * g == anchor + (q + 1) * interval + rem by {
      RemaindersAddUp(interval, g, q, r, m, anchor, rem);
    }
    assert IdealAfter(capacity, leak, interval, None, Waves(capacity, g, m)) == Some(Ideal(capacity, anchor)) by {
      IdealWavesFill(capacity, leak, interval, g, q, r, m);
    }
    assert Max(0, capacity - (q + 1) * leak) + (drip + 1) <= capacity by {
      assert (q + 1) * leak == drip + leak;
    }
    LastIdealWave(capacity, leak, interval, g, m, anchor, q + 1, rem, drip + 1);
  }

  lemma RemaindersAddUp(interval: int, g: int, q: int, r: int, m: nat, anchor: int, rem: int)
    requires 0 < r < interval && m == (interval - 1) / r && g == q * interval + r
    requires anchor == m * (q * interval) && rem == (m + 1) * r - interval
    ensures m * r < interval && 0 <= rem < interval
    ensures (m + 1) * g == anchor + (q + 1) * interval + rem
  {
    assert interval - 1 == m * r + (interval - 1) % r;
    assert (m + 1) * r == m * r + r;
    assert (m + 1) * g == anchor + q * interval + (m + 1) * r by {
      WaveOffset(m + 1, q * interval, r);
    }
    assert (q + 1) * interval == q * interval + interval;
  }

  lemma LastIdealWave(capacity: nat, leak: int, interval: int, g: int, m: nat, anchor: int, q: int, rem: int, n: nat)
    requires Sane(capacity, leak, interval) && 0 < n && 0 <= rem < interval && 0 <= q
    requires IdealAfter(capacity, leak, interval, None, Waves(capacity, g, m)) == Some(Ideal(capacity, anchor))
    requires (m + 1) * g == anchor + q * interval + rem
    ensures
      var events := Waves(capacity, g, m) + Burst((m + 1) * g, n);
      IdealRun(capacity, leak, interval, None, events)[|events| - 1]
      == Decision(Max(0, capacity - q * leak) + n <= capacity, false)
  {
    var t := (m + 1) * g;
    LastIdealReply(capacity, leak, interval, None, Waves(capacity, g, m), Burst(t, n));
    IdealWave(capacity, leak, interval, anchor, q, rem, t, n);
  }

  ghost predicate IsIdeal(capacity: int, leak: int, interval: int, store: Backend, events: seq<Event>)
    requires 0 < interval
  {
    Run(Limiter.LeakyBucket(capacity, leak, interval), store, None, events)
    == IdealRun(capacity, leak, interval, None, events)
  }

  /** A run over a store that remembers the bucket, with calls at multiples of g. */
  ghost predicate AtMultiples(capacity: int, leak: int, interval: int, g: int, store: Backend, clock: int,
                              events: seq<Event>, stall: nat)
    requires 0 < interval && 0 < g
  {
    && Orderly(Limiter.LeakyBucket(capacity, leak, interval), clock, events, stall) && OnGrid(g, 0, events)
    && Remembers(capacity, leak, interval, store, events, stall)
  }

  /** Calls at multiples of g, for any g up to a day, or any g at all if the store never forgets: the bucket is the
      ideal one, in every such run, exactly if nothing leaks, or g is a number of whole intervals, or the bucket
      drains within g. */
  lemma AgreementIsExact(capacity: nat, leak: int, interval: int, g: int, store: Backend)
    requires Sane(capacity, leak, interval) && 0 < g && (store.Eternal? || g <= DAY)
    ensures leak == 0 || g % interval == 0 || capacity <= Drip(leak, interval, 0, g)
       <==> forall clock, events, stall | AtMultiples(capacity, leak, interval, g, store, clock, events, stall) ::
              IsIdeal(capacity, leak, interval, store, events)
  {
    if leak == 0 || g % interval == 0 || capacity <= Drip(leak, interval, 0, g) {
      forall clock, events, stall | AtMultiples(capacity, leak, interval, g, store, clock, events, stall)
        ensures IsIdeal(capacity, leak, interval, store, events)
      {
        AgreesAtMultiples(capacity, leak, interval, store, clock, events, stall, g);
      }
    } else {
      DroppedRemainderIsNotIdeal(capacity, leak, interval, g, store);
    }
  }

  lemma DroppedRemainderIsNotIdeal(capacity: nat, leak: int, interval: int, g: int, store: Backend)
    requires Sane(capacity, leak, interval) && 0 < g && (store.Eternal? || g <= DAY)
    requires leak != 0 && g % interval != 0 && Drip(leak, interval, 0, g) < capacity
    ensures AtMultiples(capacity, leak, interval, g, store, 0, DroppedRemainder(capacity, leak, interval, g), 0)
    ensures !IsIdeal(capacity, leak, interval, store, DroppedRemainder(capacity, leak, interval, g))
  {
    DroppedRemainderDenies(capacity, leak, interval, g, store);
  }

  lemma AgreesAtMultiples(capacity: nat, leak: int, interval: int, store: Backend, clock: int, events: seq<Event>,
                          stall: nat, g: int)
    requires Sane(capacity, leak, interval) && 0 < g
    requires leak == 0 || g % interval == 0 || capacity <= Drip(leak, interval, 0, g)
    requires AtMultiples(capacity, leak, interval, g, store, clock, events, stall)
    ensures IsIdeal(capacity, leak, interval, store, events)
  {
    if g % interval == 0 {
      CoarserGrid(interval, g, events);
      AgreesOnGrid(capacity, leak, interval, store, clock, events, stall, 0);
    } else {
      AgreesWhenSparse(capacity, leak, interval, store, clock, events, stall, g);
    }
  }

  // What dropping the remainder costs

  /** Each successful call comes less than an interval after the one before. */
  ghost predicate Polled(interval: int, last: Option<int>, events: seq<Event>)
    decreases events
  {
    events == [] ||
    if Succeeds(events[0])
    then
      && (last.Some? ==> events[0].r.now - last.value < interval)
      && Polled(interval, Some(events[0].r.now), events[1..])
    else Polled(interval, last, events[1..])
  }

  /** Under steady polling nothing ever leaks: however long the run, it admits one bucketful. */
  lemma PollingStopsTheLeak(capacity: int, leak: int, interval: int, store: Backend, clock: int, events: seq<Event>,
                            stall: nat, a: int, b: int)
    requires Sane(capacity, leak, interval) && Polled(interval, None, events)
    requires interval + stall <= DAY + 1 || Remembers(capacity, leak, interval, store, events, stall)
    requires forall i | 0 <= i < |events| :: !Clears(events[i])
    requires Orderly(Limiter.LeakyBucket(capacity, leak, interval), clock, events, stall)
    ensures AdmittedIn(events, Run(Limiter.LeakyBucket(capacity, leak, interval), store, None, events), a, b)
         <= capacity + FailedIn(events, a, b)
  {
    if interval + stall <= DAY + 1 {
      PolledIsBusy(capacity, leak, interval, None, None, clock, events, stall);
    }
    RunIsRemembered(capacity, leak, interval, store, clock, events, stall);
    PollingFills(capacity, leak, interval, None, clock, events, stall, a, b);
  }

  lemma {:induction false} PolledIsBusy(capacity: int, leak: int, interval: int, last: Option<int>,
                                        lastSet: Option<int>, clock: int, events: seq<Event>, stall: nat)
    requires Sane(capacity, leak, interval) && interval + stall <= DAY + 1 && Polled(interval, last, events)
    requires lastSet.Some? ==> last.Some? && last.value <= lastSet.value
    requires Orderly(Limiter.LeakyBucket(capacity, leak, interval), clock, events, stall)
    ensures Busy(lastSet, events)
    decreases events
  {
    if events != [] {
      var e := events[0];
      if Succeeds(e) {
        PolledIsBusy(capacity, leak, interval, Some(e.r.now), Some(e.r.setAt), End(e), events[1..], stall);
      } else {
        PolledIsBusy(capacity, leak, interval, last, if Clears(e) then None else lastSet, End(e), events[1..], stall);
      }
    }
  }

  lemma {:induction false} PollingFills(capacity: int, leak: int, interval: int, cell: Cell, clock: int,
                                        events: seq<Event>, stall: nat, a: int, b: int)
    requires Sane(capacity, leak, interval) && Valid(capacity, cell, clock)
    requires cell.Some? ==> cell.value.value.LeakyState?
    requires Polled(interval, if cell.Some? then Some(cell.value.value.lastLeakTime) else None, events)
    requires forall i | 0 <= i < |events| :: !Clears(events[i])
    requires Orderly(Limiter.LeakyBucket(capacity, leak, interval), clock, events, stall)
    ensures AdmittedIn(events, Run(Limiter.LeakyBucket(capacity, leak, interval), Eternal, cell, events), a, b)
         <= capacity - (if cell.Some? then cell.value.value.count else 0) + FailedIn(events, a, b)
    decreases events
  {
    if events != [] {
      var lim, e := Limiter.LeakyBucket(capacity, leak, interval), events[0];
      var next := Step(lim, Eternal, cell, e).0;
      if Succeeds(e) {
        RememberedCallAddsRequest(capacity, leak, interval, cell, clock, e.r);
        if cell.Some? {
          assert (e.r.now - cell.value.value.lastLeakTime) / interval == 0;
        }
      }
      PollingFills(capacity, leak, interval, next, End(e), events[1..], stall, a, b);
    }
  }
}
