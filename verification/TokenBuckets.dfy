/** internal/limiter/token_bucket.go, with reals for its float64 token counts, and what it guarantees over whole
    runs. */
module TokenBuckets {
  import opened Prelude
  import opened Storage
  import opened Limiters

  class TokenBucket {
    const store: Store
    const refillRate: real
    const refillInterval: int
    const maxTokens: real

    constructor (store: Store, refillRate: real, refillInterval: int, maxTokens: real)
      ensures this.store == store && Params() == Limiter.TokenBucket(refillRate, refillInterval, maxTokens)
    {
      this.store, this.refillRate, this.refillInterval, this.maxTokens := store, refillRate, refillInterval, maxTokens;
    }

    function Params(): Limiter {
      Limiter.TokenBucket(refillRate, refillInterval, maxTokens)
    }

    static function StateKey(key: string): string {
      "limiter:token_bucket:" + key
    }

    method GetBucketState(stateKey: string, r: Reading) returns (state: Value)
      ensures
        var seen := Visible(Lookup(store.data, stateKey), r.getAt);
        state == if seen.Some? && seen.value.BucketState? then seen.value else BucketState(maxTokens, r.midAt)
    {
      var stateStr := store.Get(stateKey, r.getAt);
      if stateStr.None? {
        return BucketState(maxTokens, r.midAt);
      }
      if !stateStr.value.BucketState? {  // does not parse: reinitialize
        return BucketState(maxTokens, r.midAt);
      }
      state := stateStr.value;
    }

    method Allow(key: string, r: Reading) returns (allowed: bool, failed: bool)
      requires r.getOk ==> refillInterval != 0
      modifies store`data
      ensures
        var (cell, reply) := Limiters.Allow(Params(), store.backend, Lookup(old(store.data), StateKey(key)), r);
        store.data == Put(old(store.data), StateKey(key), cell) && reply == Decision(allowed, failed)
    {
      var stateKey := StateKey(key);
      if !r.getOk {
        return true, true;
      }
      var state := GetBucketState(stateKey, r);
      ghost var before := state;
      var elapsed := r.now - state.lastFillTime;
      var tokensToAdd := refillRate * (elapsed as real / refillInterval as real);
      state := BucketState(Min(state.tokens + tokensToAdd, maxTokens), r.now);
      assert state.tokens == Refilled(refillRate, refillInterval, maxTokens, before.tokens, elapsed);
      allowed := state.tokens >= 1.0;
      if allowed {
        state := state.(tokens := state.tokens - 1.0);
      }
      if !r.setOk {
        return true, true;
      }
      store.Set(stateKey, state, DAY, r.setAt);
      failed := false;
    }

    method Reset(key: string, ok: bool) returns (failed: bool)
      modifies store
      ensures failed == !ok
      ensures store.data
           == Put(old(store.data), StateKey(key), if ok then None else Lookup(old(store.data), StateKey(key)))
    {
      if ok {
        store.Delete(StateKey(key));
      }
      failed := !ok;
    }
  }

  function Min(a: real, b: real): real {
    if a < b then a else b
  }

  /** What the service builds: see ValidateConfig. */
  predicate Sane(rate: real, interval: int, cap: real) {
    0.0 <= rate && 0 < interval && 0.0 <= cap
  }

  /** Tokens that flow in between two instants, were there no cap. */
  function Gain(rate: real, interval: int, from: int, to: int): real
    requires 0 < interval
  {
    rate * ((to - from) as real / interval as real)
  }

  lemma GainAdds(rate: real, interval: int, a: int, b: int, c: int)
    requires 0.0 <= rate && 0 < interval && a <= b <= c
    ensures Gain(rate, interval, a, b) + Gain(rate, interval, b, c) == Gain(rate, interval, a, c)
    ensures 0.0 <= Gain(rate, interval, a, b)
  {
    var x, y, i := (b - a) as real, (c - b) as real, interval as real;
    assert x / i + y / i == (x + y) / i;
    assert 0.0 <= x / i;
    assert rate * (x / i) + rate * (y / i) == rate * ((x + y) / i);
  }

  /** The tokens available at t; a missing or unreadable state is a full bucket. */
  function Level(rate: real, interval: int, cap: real, cell: Cell, t: int): real
    requires 0 < interval
  {
    if cell.Some? && cell.value.value.BucketState?
    then Min(cell.value.value.tokens + Gain(rate, interval, cell.value.value.lastFillTime, t), cap)
    else cap
  }

  /** What the store can hold under the bucket's key when nothing ever expires. */
  ghost predicate Valid(cap: real, cell: Cell, clock: int) {
    cell.Some? ==>
      && cell.value.expiration == None
      && (cell.value.value.BucketState? || cell.value.value == UNREADABLE)
      && (cell.value.value.BucketState? ==>
          0.0 <= cell.value.value.tokens <= cap && cell.value.value.lastFillTime <= clock)
  }

  /** The lazily refilled level is that of a bucket filled continuously. */
  lemma LevelAdvances(rate: real, interval: int, cap: real, cell: Cell, s: int, t: int)
    requires Sane(rate, interval, cap) && Valid(cap, cell, s) && s <= t
    ensures Level(rate, interval, cap, cell, t)
         == Min(Level(rate, interval, cap, cell, s) + Gain(rate, interval, s, t), cap)
    ensures 0.0 <= Level(rate, interval, cap, cell, s) <= Level(rate, interval, cap, cell, t) <= cap
  {
    GainAdds(rate, interval, s, t, t);
    if cell.Some? && cell.value.value.BucketState? {
      GainAdds(rate, interval, cell.value.value.lastFillTime, s, t);
    }
  }

  lemma RememberedCallTakesToken(rate: real, interval: int, cap: real, cell: Cell, clock: int, r: Reading)
    requires Sane(rate, interval, cap) && Valid(cap, cell, clock) && clock <= r.now && r.midAt <= r.now <= r.setAt
    requires r.getOk && r.setOk
    ensures
      var level := Level(rate, interval, cap, cell, r.now);
      var next := Some(StorageValue(BucketState(if level >= 1.0 then level - 1.0 else level, r.now), None));
      && Allow(Limiter.TokenBucket(rate, interval, cap), Eternal, cell, r) == (next, Decision(level >= 1.0, false))
      && Valid(cap, next, r.setAt)
      && (forall t | r.setAt <= t :: Level(rate, interval, cap, next, t) ==
            Min((if level >= 1.0 then level - 1.0 else level) + Gain(rate, interval, r.now, t), cap))
  {
    LevelAdvances(rate, interval, cap, cell, clock, r.now);
    DecidesByLevel(rate, interval, cap, cell, clock, r);
  }

  lemma DecidesByLevel(rate: real, interval: int, cap: real, cell: Cell, clock: int, r: Reading)
    requires Sane(rate, interval, cap) && Valid(cap, cell, clock) && clock <= r.now && r.midAt <= r.now
    ensures
      var level := Level(rate, interval, cap, cell, r.now);
      DecideToken(rate, interval, cap, Visible(cell, r.getAt), r.now, r.midAt)
      == Outcome(BucketState(if level >= 1.0 then level - 1.0 else level, r.now), DAY, level >= 1.0)
  {
    GainAdds(rate, interval, r.midAt, r.now, r.now);
    if cell.Some? && cell.value.value.BucketState? {
      assert Visible(cell, r.getAt) == Some(cell.value.value);
    }
  }

  /** Over any store, a successful call takes one token if the level of what its Get finds has one. */
  lemma CallTakesToken(rate: real, interval: int, cap: real, store: Backend, cell: Cell, clock: int, r: Reading)
    requires Sane(rate, interval, cap) && Valid(cap, Lasting(cell), clock)
    requires clock <= r.now && r.midAt <= r.now <= r.setAt && r.getOk && r.setOk
    ensures
      var level := Level(rate, interval, cap, Found(cell, r.getAt), r.now);
      var left := BucketState(if level >= 1.0 then level - 1.0 else level, r.now);
      var next := Some(StorageValue(left, ExpirationOf(store, r.setAt, DAY)));
      && Allow(Limiter.TokenBucket(rate, interval, cap), store, cell, r) == (next, Decision(level >= 1.0, false))
      && Valid(cap, Lasting(next), r.setAt)
      && (forall t | r.setAt <= t ::
            Level(rate, interval, cap, next, t) == Min(left.tokens + Gain(rate, interval, r.now, t), cap))
  {
    RememberedCallTakesToken(rate, interval, cap, Found(cell, r.getAt), clock, r);
    DecidesByLevel(rate, interval, cap, Found(cell, r.getAt), clock, r);
    assert Visible(Found(cell, r.getAt), r.getAt) == Visible(cell, r.getAt);
  }

  // When the store remembers

  /** The store never forgets, or only what has refilled by then, or traffic never pauses long enough. */
  predicate Remembers(rate: real, interval: int, cap: real, store: Backend, events: seq<Event>)
    requires 0 < interval
  {
    store.Eternal? || cap <= Gain(rate, interval, 0, DAY + 1) || Busy(None, events)
  }

  lemma RunIsRemembered(rate: real, interval: int, cap: real, store: Backend, clock: int, events: seq<Event>)
    requires Sane(rate, interval, cap) && Remembers(rate, interval, cap, store, events)
    requires Orderly(Limiter.TokenBucket(rate, interval, cap), clock, events, 0)
    ensures Run(Limiter.TokenBucket(rate, interval, cap), store, None, events)
         == Run(Limiter.TokenBucket(rate, interval, cap), Eternal, None, events)
  {
    if cap <= Gain(rate, interval, 0, DAY + 1) {
      ForgettingIsHarmless(rate, interval, cap, store, None, None, clock, events);
    } else if !store.Eternal? {
      BusyNeverForgets(Limiter.TokenBucket(rate, interval, cap), store, None, None, None, clock, events, 0);
    }
  }

  // Conservation and the burst bound

  /** An upper bound on what can still be admitted in [a, b). */
  function Potential(rate: real, interval: int, cap: real, cell: Cell, clock: int, a: int, b: int): real
    requires 0 < interval
  {
    if clock < a then cap + Gain(rate, interval, a, b - 1)
    else if clock < b then Level(rate, interval, cap, cell, clock) + Gain(rate, interval, clock, b - 1)
    else 0.0
  }

  /** In every run, [a, b) admits at most a full bucket and what flows in between its first and last instant, plus
      one call for every failing store access and one bucket for every reset or corruption in it. The store must
      remember the bucket; where it does not, SecondBurstGranted breaks the bound. */
  lemma BurstBound(rate: real, interval: int, cap: real, store: Backend, clock: int, events: seq<Event>, a: int, b: int)
    requires Sane(rate, interval, cap) && a < b
    requires Remembers(rate, interval, cap, store, events)
    requires Orderly(Limiter.TokenBucket(rate, interval, cap), clock, events, 0)
    ensures AdmittedIn(events, Run(Limiter.TokenBucket(rate, interval, cap), store, None, events), a, b) as real
         <= cap + Gain(rate, interval, a, b - 1) + cap * ClearsIn(events, a, b) as real + FailedIn(events, a, b) as real
  {
    var lim := Limiter.TokenBucket(rate, interval, cap);
    var valid := (cell: Cell, k: int) => Valid(cap, cell, k);
    var potential := (cell: Cell, k: int) => Potential(rate, interval, cap, cell, k, a, b);
    forall cell, k, e
      ensures Pays(lim, Eternal, 0, valid, potential, cap, a, b, cell, k, e)
    {
      if Valid(cap, cell, k) && InOrder(lim, k, e, 0) {
        StepPays(rate, interval, cap, cell, k, e, a, b);
      }
    }
    forall cell, k | valid(cell, k)
      ensures 0.0 <= potential(cell, k)
    {
      PotentialNonneg(rate, interval, cap, cell, k, a, b);
    }
    Amortize(lim, Eternal, 0, valid, potential, cap, a, b, None, clock, events);
    StartingPotential(rate, interval, cap, clock, a, b);
    ChargePerClear(cap, events, a, b);
    RunIsRemembered(rate, interval, cap, store, clock, events);
  }

  lemma StartingPotential(rate: real, interval: int, cap: real, clock: int, a: int, b: int)
    requires Sane(rate, interval, cap) && a < b
    ensures Potential(rate, interval, cap, None, clock, a, b) <= cap + Gain(rate, interval, a, b - 1)
  {
    GainAdds(rate, interval, a, b - 1, b - 1);
    if a <= clock < b {
      GainAdds(rate, interval, a, clock, b - 1);
    }
  }

  lemma PotentialNonneg(rate: real, interval: int, cap: real, cell: Cell, clock: int, a: int, b: int)
    requires Sane(rate, interval, cap) && a < b && Valid(cap, cell, clock)
    ensures 0.0 <= Potential(rate, interval, cap, cell, clock, a, b)
  {
    LevelAdvances(rate, interval, cap, cell, clock, clock);
    GainAdds(rate, interval, a, b - 1, b - 1);
    if clock < b {
      GainAdds(rate, interval, clock, b - 1, b - 1);
    }
  }

  /** Doing nothing until a later instant does not raise the potential. */
  lemma WaitingPays(rate: real, interval: int, cap: real, cell: Cell, clock: int, later: int, a: int, b: int)
    requires Sane(rate, interval, cap) && a < b && Valid(cap, cell, clock) && clock <= later
    ensures Potential(rate, interval, cap, cell, later, a, b) <= Potential(rate, interval, cap, cell, clock, a, b)
  {
    PotentialNonneg(rate, interval, cap, cell, clock, a, b);
    LevelAdvances(rate, interval, cap, cell, clock, later);
    if a <= clock && later < b {
      GainAdds(rate, interval, clock, later, b - 1);
    } else if clock < a <= later < b {
      GainAdds(rate, interval, a, later, b - 1);
    }
  }

  /** A call at now, whose Set follows later, pays for itself. */
  lemma CallPays(rate: real, interval: int, cap: real, cell: Cell, now: int, later: int, a: int, b: int)
    requires Sane(rate, interval, cap) && a < b && Valid(cap, cell, now) && now <= later
    ensures
      var level := Level(rate, interval, cap, cell, now);
      var next := Some(StorageValue(BucketState(if level >= 1.0 then level - 1.0 else level, now), None));
      && Valid(cap, next, later)
      && One(a <= now < b && level >= 1.0) as real + Potential(rate, interval, cap, next, later, a, b)
         <= Potential(rate, interval, cap, cell, now, a, b)
  {
    var level := Level(rate, interval, cap, cell, now);
    var next := Some(StorageValue(BucketState(if level >= 1.0 then level - 1.0 else level, now), None));
    LevelAdvances(rate, interval, cap, cell, now, now);
    WaitingPays(rate, interval, cap, next, now, later, a, b);
    assert Gain(rate, interval, now, now) == 0.0;
  }

  lemma StepPays(rate: real, interval: int, cap: real, cell: Cell, clock: int, e: Event, a: int, b: int)
    requires Sane(rate, interval, cap) && a < b && Valid(cap, cell, clock)
    requires InOrder(Limiter.TokenBucket(rate, interval, cap), clock, e, 0)
    ensures
      var (next, reply) := Step(Limiter.TokenBucket(rate, interval, cap), Eternal, cell, e);
      && Valid(cap, next, End(e))
      && One(CallIn(e, a, b) && Grants(reply)) as real + Potential(rate, interval, cap, next, End(e), a, b)
         <= Potential(rate, interval, cap, cell, clock, a, b)
            + (if Clears(e) && a <= Start(e) < b then cap else 0.0) + One(CallIn(e, a, b) && !Succeeds(e)) as real
  {
    WaitingPays(rate, interval, cap, cell, clock, Start(e), a, b);
    WaitingPays(rate, interval, cap, cell, clock, End(e), a, b);
    if Succeeds(e) {
      RememberedCallTakesToken(rate, interval, cap, cell, clock, e.r);
      CallPays(rate, interval, cap, cell, e.r.now, e.r.setAt, a, b);
    } else if Clears(e) {
      ClearingPays(rate, interval, cap, cell, e.at, a, b);
    }
  }

  lemma ClearingPays(rate: real, interval: int, cap: real, cell: Cell, at: int, a: int, b: int)
    requires Sane(rate, interval, cap) && a < b && Valid(cap, cell, at)
    ensures forall full | Level(rate, interval, cap, full, at) == cap ::
      Potential(rate, interval, cap, full, at, a, b)
      <= Potential(rate, interval, cap, cell, at, a, b) + if a <= at < b then cap else 0.0
  {
    LevelAdvances(rate, interval, cap, cell, at, at);
  }

  /** A bucket's books: the tokens it has held since `at`, and in all the calls it paid for, the tokens lost to the
      cap, and those given back because a call found no state. */
  datatype Ledger = Ledger(tokens: real, at: int, spent: nat, spilled: real, refunded: real)

  /** Only a call whose state is stored moves tokens. */
  function Post(rate: real, interval: int, cap: real, ledger: Ledger, cell: Cell, e: Event, reply: Reply): Ledger
    requires 0 < interval
  {
    if !Succeeds(e) then ledger
    else
      var filled := ledger.tokens + Gain(rate, interval, ledger.at, e.r.now);
      var found := Level(rate, interval, cap, Found(cell, e.r.getAt), e.r.now);
      var paid := One(Grants(reply));
      Ledger(found - paid as real, e.r.now, ledger.spent + paid, ledger.spilled + filled - Min(filled, cap),
             ledger.refunded + found - Min(filled, cap))
  }

  function Books(rate: real, interval: int, cap: real, store: Backend, ledger: Ledger, cell: Cell,
                 events: seq<Event>): Ledger
    requires 0 < interval
    decreases events
  {
    if events == [] then ledger
    else
      var (next, reply) := Step(Limiter.TokenBucket(rate, interval, cap), store, cell, events[0]);
      Books(rate, interval, cap, store, Post(rate, interval, cap, ledger, cell, events[0], reply), next, events[1..])
  }

  /** Calls paid for: those granted whose state was stored. */
  function Spent(events: seq<Event>, replies: seq<Reply>): nat
    requires |events| == |replies|
  {
    if events == [] then 0
    else One(Succeeds(events[0]) && Grants(replies[0])) + Spent(events[1..], replies[1..])
  }

  predicate HoldsState(cell: Cell) {
    cell.Some? && cell.value.value.BucketState?
  }

  /** The books are those of the stored state, if there is one. */
  ghost predicate Tracks(cap: real, ledger: Ledger, cell: Cell, clock: int) {
    && Valid(cap, Lasting(cell), clock)
    && 0.0 <= ledger.tokens <= cap && ledger.at <= clock
    && (HoldsState(cell) ==> cell.value.value == BucketState(ledger.tokens, ledger.at))
  }

  /** In every run over every store: a full bucket, what flowed in and what was given back is what is there, what was
      spent and what spilled. Nothing is given back where the store remembers and nobody resets or corrupts. */
  lemma TokensAreConserved(rate: real, interval: int, cap: real, store: Backend, clock: int, events: seq<Event>)
    requires Sane(rate, interval, cap) && Orderly(Limiter.TokenBucket(rate, interval, cap), clock, events, 0)
    ensures
      var lim := Limiter.TokenBucket(rate, interval, cap);
      var end := Books(rate, interval, cap, store, Ledger(cap, clock, 0, 0.0, 0.0), None, events);
      && Tracks(cap, end, After(lim, store, None, events), Clock(clock, events))
      && end.spent == Spent(events, Run(lim, store, None, events))
      && cap + Gain(rate, interval, clock, end.at) + end.refunded == end.tokens + end.spent as real + end.spilled
      && 0.0 <= end.spilled && 0.0 <= end.refunded
      && (Remembers(rate, interval, cap, store, events) && (forall i | 0 <= i < |events| :: !Clears(events[i]))
          ==> end.refunded == 0.0)
  {
    var ledger := Ledger(cap, clock, 0, 0.0, 0.0);
    BooksBalance(rate, interval, cap, store, ledger, None, clock, events);
    if Remembers(rate, interval, cap, store, events) && (forall i | 0 <= i < |events| :: !Clears(events[i])) {
      NothingIsRefunded(rate, interval, cap, store, ledger, None, None, clock, events);
    }
  }

  /** The same over any stretch, from any state. */
  lemma {:induction false} BooksBalance(rate: real, interval: int, cap: real, store: Backend, ledger: Ledger,
                                        cell: Cell, clock: int, events: seq<Event>)
    requires Sane(rate, interval, cap) && Tracks(cap, ledger, cell, clock)
    requires Orderly(Limiter.TokenBucket(rate, interval, cap), clock, events, 0)
    ensures
      var lim := Limiter.TokenBucket(rate, interval, cap);
      var end := Books(rate, interval, cap, store, ledger, cell, events);
      && Tracks(cap, end, After(lim, store, cell, events), Clock(clock, events))
      && end.spent == ledger.spent + Spent(events, Run(lim, store, cell, events))
      && ledger.tokens + ledger.spent as real + ledger.spilled
         + Gain(rate, interval, ledger.at, end.at) + end.refunded - ledger.refunded
         == end.tokens + end.spent as real + end.spilled
      && ledger.spilled <= end.spilled && ledger.refunded <= end.refunded && ledger.at <= end.at
    decreases events
  {
    if events == [] {
      assert Gain(rate, interval, ledger.at, ledger.at) == 0.0;
      return;
    }
    var (next, reply) := Step(Limiter.TokenBucket(rate, interval, cap), store, cell, events[0]);
    var posted := Post(rate, interval, cap, ledger, cell, events[0], reply);
    var end := Books(rate, interval, cap, store, posted, next, events[1..]);
    PostingBalances(rate, interval, cap, store, ledger, cell, clock, events[0]);
    BooksBalance(rate, interval, cap, store, posted, next, End(events[0]), events[1..]);
    GainAdds(rate, interval, ledger.at, posted.at, end.at);
  }

  lemma PostingBalances(rate: real, interval: int, cap: real, store: Backend, ledger: Ledger, cell: Cell, clock: int,
                        e: Event)
    requires Sane(rate, interval, cap) && Tracks(cap, ledger, cell, clock)
    requires InOrder(Limiter.TokenBucket(rate, interval, cap), clock, e, 0)
    ensures
      var (next, reply) := Step(Limiter.TokenBucket(rate, interval, cap), store, cell, e);
      var posted := Post(rate, interval, cap, ledger, cell, e, reply);
      && Tracks(cap, posted, next, End(e))
      && posted.spent == ledger.spent + One(Succeeds(e) && Grants(reply))
      && ledger.tokens + ledger.spent as real + ledger.spilled
         + Gain(rate, interval, ledger.at, posted.at) + posted.refunded - ledger.refunded
         == posted.tokens + posted.spent as real + posted.spilled
      && ledger.spilled <= posted.spilled && ledger.refunded <= posted.refunded && ledger.at <= posted.at
  {
    assert Gain(rate, interval, ledger.at, ledger.at) == 0.0;
    if Succeeds(e) {
      LevelAdvances(rate, interval, cap, Found(cell, e.r.getAt), clock, e.r.now);
      CallTakesToken(rate, interval, cap, store, cell, clock, e.r);
    }
  }

  /** The stored state lasts until a day after the last Set; where there is none, the bucket is new or that day over. */
  ghost predicate Lapses(cap: real, store: Backend, ledger: Ledger, cell: Cell, lastSet: Option<int>, clock: int) {
    && Tracks(cap, ledger, cell, clock)
    && (lastSet.Some? ==> ledger.at <= lastSet.value)
    && if HoldsState(cell) then
         && lastSet.Some?
         && cell.value.expiration == ExpirationOf(store, lastSet.value, DAY)
       else
         && (cell.Some? ==> cell.value.value == UNREADABLE)
         && (ledger.tokens == cap || (!store.Eternal? && lastSet.Some? && lastSet.value + DAY < clock))
  }

  lemma {:induction false} NothingIsRefunded(rate: real, interval: int, cap: real, store: Backend, ledger: Ledger,
                                             cell: Cell, lastSet: Option<int>, clock: int, events: seq<Event>)
    requires Sane(rate, interval, cap) && Lapses(cap, store, ledger, cell, lastSet, clock)
    requires store.Eternal? || cap <= Gain(rate, interval, 0, DAY + 1) || Busy(lastSet, events)
    requires Orderly(Limiter.TokenBucket(rate, interval, cap), clock, events, 0)
    requires forall i | 0 <= i < |events| :: !Clears(events[i])
    ensures Books(rate, interval, cap, store, ledger, cell, events).refunded == ledger.refunded
    decreases events
  {
    if events != [] {
      var e := events[0];
      var (next, reply) := Step(Limiter.TokenBucket(rate, interval, cap), store, cell, e);
      var posted := Post(rate, interval, cap, ledger, cell, e, reply);
      PostingBalances(rate, interval, cap, store, ledger, cell, clock, e);
      if Succeeds(e) {
        CallFindsItsTokens(rate, interval, cap, store, ledger, cell, lastSet, clock, e.r);
        CallTakesToken(rate, interval, cap, store, cell, clock, e.r);
      }
      NothingIsRefunded(rate, interval, cap, store, posted, next, if Succeeds(e) then Some(e.r.setAt) else lastSet,
                        End(e), events[1..]);
    }
  }

  lemma CallFindsItsTokens(rate: real, interval: int, cap: real, store: Backend, ledger: Ledger, cell: Cell,
                           lastSet: Option<int>, clock: int, r: Reading)
    requires Sane(rate, interval, cap) && Lapses(cap, store, ledger, cell, lastSet, clock)
    requires InOrder(Limiter.TokenBucket(rate, interval, cap), clock, Call(r), 0)
    requires || store.Eternal? || cap <= Gain(rate, interval, 0, DAY + 1)
             || (lastSet.Some? ==> r.getAt <= lastSet.value + DAY)
    ensures Level(rate, interval, cap, Found(cell, r.getAt), r.now)
         == Min(ledger.tokens + Gain(rate, interval, ledger.at, r.now), cap)
  {
    GainAdds(rate, interval, ledger.at, r.now, r.now);
    if !(HoldsState(cell) && Visible(cell, r.getAt).Some?) && ledger.tokens != cap {
      RefilledAfterADay(rate, interval, cap, ledger.at, r.now);
    }
  }

  lemma RefilledAfterADay(rate: real, interval: int, cap: real, from: int, to: int)
    requires Sane(rate, interval, cap) && cap <= Gain(rate, interval, 0, DAY + 1) && from + DAY < to
    ensures cap <= Gain(rate, interval, from, to)
  {
    assert Gain(rate, interval, from, from + DAY + 1) == Gain(rate, interval, 0, DAY + 1);
    GainAdds(rate, interval, from, from + DAY + 1, to);
    GainAdds(rate, interval, from + DAY + 1, to, to);
  }

  // Path independence

  ghost predicate SameLevel(rate: real, interval: int, cap: real, c1: Cell, c2: Cell, clock: int)
    requires 0 < interval
  {
    && Valid(cap, c1, clock) && Valid(cap, c2, clock)
    && Level(rate, interval, cap, c1, clock) == Level(rate, interval, cap, c2, clock)
  }

  /** Denied calls leave no trace: dropping any of them changes no other reply. Nor does it change the level that any
      later Get finds, unless the store can forget a bucket that has not refilled. */
  lemma DeniedCallsLeaveNoTrace(rate: real, interval: int, cap: real, store: Backend, clock: int, events: seq<Event>,
                                keep: seq<bool>)
    requires Sane(rate, interval, cap) && |keep| == |events|
    requires Remembers(rate, interval, cap, store, events)
    requires Remembers(rate, interval, cap, store, Thin(events, keep))
    requires Orderly(Limiter.TokenBucket(rate, interval, cap), clock, events, 0)
    requires var replies := Run(Limiter.TokenBucket(rate, interval, cap), store, None, events);
      forall i | 0 <= i < |events| && !keep[i] :: replies[i] == Decision(false, false)
    ensures
      var lim := Limiter.TokenBucket(rate, interval, cap);
      && Run(lim, store, None, Thin(events, keep)) == Thin(Run(lim, store, None, events), keep)
      && (store.Eternal? || cap <= Gain(rate, interval, 0, DAY + 1) ==>
          forall t | Clock(clock, events) <= t ::
            Level(rate, interval, cap, Found(After(lim, store, None, Thin(events, keep)), t), t)
            == Level(rate, interval, cap, Found(After(lim, store, None, events), t), t))
  {
    var lim := Limiter.TokenBucket(rate, interval, cap);
    OrderlyThin(lim, clock, clock, events, keep, 0);
    RunIsRemembered(rate, interval, cap, store, clock, events);
    RunIsRemembered(rate, interval, cap, store, clock, Thin(events, keep));
    ThinnedRunAgrees(rate, interval, cap, None, None, clock, events, keep);
    if store.Eternal? || cap <= Gain(rate, interval, 0, DAY + 1) {
      forall t | Clock(clock, events) <= t
        ensures Level(rate, interval, cap, Found(After(lim, store, None, Thin(events, keep)), t), t)
             == Level(rate, interval, cap, Found(After(lim, store, None, events), t), t)
      {
        ThinnedLevel(rate, interval, cap, store, clock, events, keep, t);
      }
    }
  }

  lemma ThinnedLevel(rate: real, interval: int, cap: real, store: Backend, clock: int, events: seq<Event>,
                     keep: seq<bool>, t: int)
    requires Sane(rate, interval, cap) && |keep| == |events| && Clock(clock, events) <= t
    requires store.Eternal? || cap <= Gain(rate, interval, 0, DAY + 1)
    requires
      var lim := Limiter.TokenBucket(rate, interval, cap);
      && Orderly(lim, clock, events, 0) && Orderly(lim, clock, Thin(events, keep), 0)
      && Clock(clock, Thin(events, keep)) <= Clock(clock, events)
      && SameLevel(rate, interval, cap, After(lim, Eternal, None, events),
                   After(lim, Eternal, None, Thin(events, keep)), Clock(clock, events))
    ensures
      var lim := Limiter.TokenBucket(rate, interval, cap);
      Level(rate, interval, cap, Found(After(lim, store, None, Thin(events, keep)), t), t)
      == Level(rate, interval, cap, Found(After(lim, store, None, events), t), t)
  {
    var lim, k := Limiter.TokenBucket(rate, interval, cap), Clock(clock, events);
    var e1, e2 := After(lim, Eternal, None, events), After(lim, Eternal, None, Thin(events, keep));
    LevelAdvances(rate, interval, cap, e1, k, t);
    LevelAdvances(rate, interval, cap, e2, k, t);
    LevelIsFound(rate, interval, cap, store, clock, events, t);
    LevelIsFound(rate, interval, cap, store, clock, Thin(events, keep), t);
  }

  lemma LevelIsFound(rate: real, interval: int, cap: real, store: Backend, clock: int, events: seq<Event>, t: int)
    requires Sane(rate, interval, cap) && Clock(clock, events) <= t
    requires store.Eternal? || cap <= Gain(rate, interval, 0, DAY + 1)
    requires Orderly(Limiter.TokenBucket(rate, interval, cap), clock, events, 0)
    ensures
      var lim := Limiter.TokenBucket(rate, interval, cap);
      Level(rate, interval, cap, Found(After(lim, store, None, events), t), t)
      == Level(rate, interval, cap, After(lim, Eternal, None, events), t)
  {
    var lim := Limiter.TokenBucket(rate, interval, cap);
    var c1, c2 := After(lim, store, None, events), After(lim, Eternal, None, events);
    if store.Eternal? {
      EternalNeverExpires(lim, None, events);
    } else {
      ForgettingIsHarmless(rate, interval, cap, store, None, None, clock, events);
      if Visible(c1, t).None? && HoldsState(c2) {
        var last := c2.value.value.lastFillTime;
        RefilledAfterADay(rate, interval, cap, last, t);
      }
    }
  }

  lemma {:induction false} ThinnedRunAgrees(rate: real, interval: int, cap: real, c1: Cell, c2: Cell, clock: int,
                                            events: seq<Event>, keep: seq<bool>)
    requires Sane(rate, interval, cap) && |keep| == |events| && SameLevel(rate, interval, cap, c1, c2, clock)
    requires Orderly(Limiter.TokenBucket(rate, interval, cap), clock, events, 0)
    requires var replies := Run(Limiter.TokenBucket(rate, interval, cap), Eternal, c1, events);
      forall i | 0 <= i < |events| && !keep[i] :: replies[i] == Decision(false, false)
    ensures
      var lim := Limiter.TokenBucket(rate, interval, cap);
      && Run(lim, Eternal, c2, Thin(events, keep)) == Thin(Run(lim, Eternal, c1, events), keep)
      && SameLevel(rate, interval, cap, After(lim, Eternal, c1, events), After(lim, Eternal, c2, Thin(events, keep)),
                   Clock(clock, events))
    decreases events
  {
    if events == [] {
      return;
    }
    var lim, e, rest := Limiter.TokenBucket(rate, interval, cap), events[0], events[1..];
    var (n1, r1) := Step(lim, Eternal, c1, e);
    var replies := Run(lim, Eternal, c1, events);
    assert replies == [r1] + Run(lim, Eternal, n1, rest);
    var thinned := Thin(rest, keep[1..]);
    if keep[0] {
      var n2 := Step(lim, Eternal, c2, e).0;
      KeptStepAgrees(rate, interval, cap, c1, c2, clock, e);
      ThinnedRunAgrees(rate, interval, cap, n1, n2, End(e), rest, keep[1..]);
      assert Thin(events, keep) == [e] + thinned;
      assert ([e] + thinned)[1..] == thinned;
    } else {
      assert replies[0] == Decision(false, false);
      DeniedStepAgrees(rate, interval, cap, c1, c2, clock, e);
      ThinnedRunAgrees(rate, interval, cap, n1, c2, End(e), rest, keep[1..]);
      assert Thin(events, keep) == thinned;
    }
  }

  lemma KeptStepAgrees(rate: real, interval: int, cap: real, c1: Cell, c2: Cell, clock: int, e: Event)
    requires Sane(rate, interval, cap) && SameLevel(rate, interval, cap, c1, c2, clock)
    requires InOrder(Limiter.TokenBucket(rate, interval, cap), clock, e, 0)
    ensures
      var lim := Limiter.TokenBucket(rate, interval, cap);
      && Step(lim, Eternal, c1, e).1 == Step(lim, Eternal, c2, e).1
      && SameLevel(rate, interval, cap, Step(lim, Eternal, c1, e).0, Step(lim, Eternal, c2, e).0, End(e))
  {
    LevelAdvances(rate, interval, cap, c1, clock, Start(e));
    LevelAdvances(rate, interval, cap, c2, clock, Start(e));
    LevelAdvances(rate, interval, cap, c1, clock, End(e));
    LevelAdvances(rate, interval, cap, c2, clock, End(e));
    if Succeeds(e) {
      RememberedCallTakesToken(rate, interval, cap, c1, clock, e.r);
      RememberedCallTakesToken(rate, interval, cap, c2, clock, e.r);
    }
  }

  lemma DeniedStepAgrees(rate: real, interval: int, cap: real, c1: Cell, c2: Cell, clock: int, e: Event)
    requires Sane(rate, interval, cap) && SameLevel(rate, interval, cap, c1, c2, clock)
    requires InOrder(Limiter.TokenBucket(rate, interval, cap), clock, e, 0)
    requires Step(Limiter.TokenBucket(rate, interval, cap), Eternal, c1, e).1 == Decision(false, false)
    ensures SameLevel(rate, interval, cap, Step(Limiter.TokenBucket(rate, interval, cap), Eternal, c1, e).0, c2, End(e))
  {
    RememberedCallTakesToken(rate, interval, cap, c1, clock, e.r);
    LevelAdvances(rate, interval, cap, c1, clock, e.r.now);
    LevelAdvances(rate, interval, cap, c1, e.r.now, End(e));
    LevelAdvances(rate, interval, cap, c2, clock, End(e));
    LevelAdvances(rate, interval, cap, c1, clock, End(e));
  }

  // Optimality

  /** A policy that pays for every call it takes out of a bucket with the same refill and cap; nothing ever
      refills it out of turn. */
  ghost predicate Affords(rate: real, interval: int, cap: real, tokens: real, last: int,
                          events: seq<Event>, policy: seq<Reply>)
    requires 0 < interval && |policy| == |events|
    decreases events
  {
    events == [] ||
    if events[0].Call? then
      var now := events[0].r.now;
      var level := Min(tokens + Gain(rate, interval, last, now), cap);
      && (Grants(policy[0]) ==> level >= 1.0)
      && Affords(rate, interval, cap, if Grants(policy[0]) then level - 1.0 else level, now, events[1..], policy[1..])
    else !Grants(policy[0]) && Affords(rate, interval, cap, tokens, last, events[1..], policy[1..])
  }

  /** On every prefix of every run, over any store, the bucket has admitted at least as many calls as any policy
      that affords its own. */
  lemma GreedyIsOptimal(rate: real, interval: int, cap: real, b: Backend, clock: int, events: seq<Event>,
                        policy: seq<Reply>, k: nat)
    requires Sane(rate, interval, cap) && |policy| == |events| && k <= |events|
    requires Orderly(Limiter.TokenBucket(rate, interval, cap), clock, events, 0)
    requires Affords(rate, interval, cap, cap, clock, events, policy)
    ensures Admitted(policy[..k]) <= Admitted(Run(Limiter.TokenBucket(rate, interval, cap), b, None, events)[..k])
  {
    AheadOfPolicy(rate, interval, cap, b, None, cap, clock, clock, 0, events, policy, k);
  }

  /** The policy's tokens exceed the bucket's by no more than the number of calls `lead` it is behind. */
  lemma {:induction false} AheadOfPolicy(rate: real, interval: int, cap: real, b: Backend, cell: Cell, tokens: real,
                                         last: int, clock: int,
                                         lead: nat, events: seq<Event>, policy: seq<Reply>, k: nat)
    requires Sane(rate, interval, cap) && |policy| == |events| && k <= |events|
    requires Valid(cap, Lasting(cell), last) && last <= clock
    requires tokens <= Level(rate, interval, cap, cell, last) + lead as real
    requires Orderly(Limiter.TokenBucket(rate, interval, cap), clock, events, 0)
    requires Affords(rate, interval, cap, tokens, last, events, policy)
    ensures Admitted(policy[..k])
         <= Admitted(Run(Limiter.TokenBucket(rate, interval, cap), b, cell, events)[..k]) + lead
    decreases events
  {
    if k == 0 {
      return;
    }
    var lim, e := Limiter.TokenBucket(rate, interval, cap), events[0];
    var (next, reply) := Step(lim, b, cell, e);
    var now := if e.Call? then e.r.now else last;
    var level := Min(tokens + Gain(rate, interval, last, now), cap);
    var left := if !e.Call? then tokens else if Grants(policy[0]) then level - 1.0 else level;
    var ahead := lead + One(Grants(reply)) - One(Grants(policy[0]));
    StaysAhead(rate, interval, cap, b, cell, tokens, last, lead, e, Grants(policy[0]));
    AheadOfPolicy(rate, interval, cap, b, next, left, now, End(e), ahead, events[1..], policy[1..], k - 1);
    PrefixUnfolds(policy, k);
    PrefixUnfolds(Run(lim, b, cell, events), k);
    assert Run(lim, b, cell, events)[1..] == Run(lim, b, next, events[1..]);
  }

  lemma StaysAhead(rate: real, interval: int, cap: real, b: Backend, cell: Cell, tokens: real, last: int, lead: nat,
                   e: Event, takes: bool)
    requires Sane(rate, interval, cap) && Valid(cap, Lasting(cell), last)
    requires tokens <= Level(rate, interval, cap, cell, last) + lead as real
    requires InOrder(Limiter.TokenBucket(rate, interval, cap), last, e, 0)
    requires takes ==> e.Call? && Min(tokens + Gain(rate, interval, last, e.r.now), cap) >= 1.0
    ensures
      var (next, reply) := Step(Limiter.TokenBucket(rate, interval, cap), b, cell, e);
      var now := if e.Call? then e.r.now else last;
      var level := Min(tokens + Gain(rate, interval, last, now), cap);
      var left := if !e.Call? then tokens else if takes then level - 1.0 else level;
      var ahead := lead + One(Grants(reply)) - One(takes);
      && Valid(cap, Lasting(next), now)
      && 0 <= ahead && left <= Level(rate, interval, cap, next, now) + ahead as real
  {
    var now := if e.Call? then e.r.now else last;
    LevelAdvances(rate, interval, cap, Lasting(cell), last, now);
    if Succeeds(e) {
      CallTakesToken(rate, interval, cap, b, cell, last, e.r);
      assert Gain(rate, interval, now, now) == 0.0;
    }
    LevelAdvances(rate, interval, cap, Lasting(Step(Limiter.TokenBucket(rate, interval, cap), b, cell, e).0), now, now);
  }

  lemma PrefixUnfolds(replies: seq<Reply>, k: nat)
    requires 0 < k <= |replies|
    ensures Admitted(replies[..k]) == One(Grants(replies[0])) + Admitted(replies[1..][..k - 1])
  {
    assert replies[..k][1..] == replies[1..][..k - 1];
  }

  // Expiry after a day

  /** c1 is what an expiring store still has of the cell c2 of one that never expires: where it has forgotten
      the state, a day has passed since the last refill. */
  ghost predicate Forgets(cap: real, c1: Cell, c2: Cell, clock: int) {
    && Valid(cap, c2, clock)
    && (c1.Some? ==>
        && c2.Some? && c1.value.value == c2.value.value
        && (c2.value.value.BucketState? && c1.value.expiration.Some? ==>
            c2.value.value.lastFillTime + DAY <= c1.value.expiration.value))
    && (c1.None? && c2.Some? && c2.value.value.BucketState? ==> c2.value.value.lastFillTime + DAY < clock)
  }

  /** Forgetting a bucket after a day changes no reply, in any run, exactly if a day and a nanosecond refill it.
      The cap is a whole number of tokens, as the service's limits are. */
  lemma ExpiryIsTransparent(rate: real, interval: int, n: nat, cap: real, b: Backend)
    requires Sane(rate, interval, cap) && 0 < n && cap == n as real && !b.Eternal?
    ensures cap <= Gain(rate, interval, 0, DAY + 1)
       <==> forall clock, events | Orderly(Limiter.TokenBucket(rate, interval, cap), clock, events, 0) ::
              Run(Limiter.TokenBucket(rate, interval, cap), b, None, events)
              == Run(Limiter.TokenBucket(rate, interval, cap), Eternal, None, events)
  {
    var lim := Limiter.TokenBucket(rate, interval, cap);
    if cap <= Gain(rate, interval, 0, DAY + 1) {
      forall clock, events | Orderly(lim, clock, events, 0)
        ensures Run(lim, b, None, events) == Run(lim, Eternal, None, events)
      {
        ForgettingIsHarmless(rate, interval, cap, b, None, None, clock, events);
      }
    } else {
      BurstIsOrderly(lim, 0, 0, n, 0);
      BurstIsOrderly(lim, 0, DAY + 1, n, 0);
      OrderlyConcat(lim, 0, Burst(0, n), Burst(DAY + 1, n), 0);
      SecondBurstGranted(rate, interval, n, cap, b);
      SecondBurstDenied(rate, interval, n, cap);
    }
  }

  lemma {:induction false} ForgettingIsHarmless(rate: real, interval: int, cap: real, b: Backend, c1: Cell, c2: Cell,
                                                clock: int, events: seq<Event>)
    requires Sane(rate, interval, cap) && cap <= Gain(rate, interval, 0, DAY + 1)
    requires Forgets(cap, c1, c2, clock)
    requires Orderly(Limiter.TokenBucket(rate, interval, cap), clock, events, 0)
    ensures Run(Limiter.TokenBucket(rate, interval, cap), b, c1, events)
         == Run(Limiter.TokenBucket(rate, interval, cap), Eternal, c2, events)
    ensures Forgets(cap, After(Limiter.TokenBucket(rate, interval, cap), b, c1, events),
                    After(Limiter.TokenBucket(rate, interval, cap), Eternal, c2, events), Clock(clock, events))
    decreases events
  {
    if events != [] {
      var lim, e := Limiter.TokenBucket(rate, interval, cap), events[0];
      ForgetfulStepAgrees(rate, interval, cap, b, c1, c2, clock, e);
      ForgettingIsHarmless(rate, interval, cap, b, Step(lim, b, c1, e).0, Step(lim, Eternal, c2, e).0, End(e),
                           events[1..]);
    }
  }

  lemma ForgetfulStepAgrees(rate: real, interval: int, cap: real, b: Backend, c1: Cell, c2: Cell, clock: int, e: Event)
    requires Sane(rate, interval, cap) && cap <= Gain(rate, interval, 0, DAY + 1)
    requires Forgets(cap, c1, c2, clock) && InOrder(Limiter.TokenBucket(rate, interval, cap), clock, e, 0)
    ensures
      var lim := Limiter.TokenBucket(rate, interval, cap);
      && Step(lim, b, c1, e).1 == Step(lim, Eternal, c2, e).1
      && Forgets(cap, Step(lim, b, c1, e).0, Step(lim, Eternal, c2, e).0, End(e))
  {
    if Succeeds(e) {
      RememberedCallTakesToken(rate, interval, cap, c2, clock, e.r);
      SameDecision(rate, interval, cap, c1, c2, clock, e.r);
    }
  }

  lemma SameDecision(rate: real, interval: int, cap: real, c1: Cell, c2: Cell, clock: int, r: Reading)
    requires Sane(rate, interval, cap) && cap <= Gain(rate, interval, 0, DAY + 1) && Forgets(cap, c1, c2, clock)
    requires clock <= r.getAt <= r.midAt <= r.now
    ensures DecideToken(rate, interval, cap, Visible(c1, r.getAt), r.now, r.midAt)
         == DecideToken(rate, interval, cap, Visible(c2, r.getAt), r.now, r.midAt)
  {
    DecidesByLevel(rate, interval, cap, c2, clock, r);
    DecidesByLevel(rate, interval, cap, None, clock, r);
    if c2.Some? && c2.value.value.BucketState? && Visible(c1, r.getAt).None? {
      var last := c2.value.value.lastFillTime;
      RefilledAfterADay(rate, interval, cap, last, r.now);
    }
  }

  /** Tokens left after n calls at one instant. */
  function Drained(tokens: real, n: nat): real {
    if n == 0 then tokens
    else if Drained(tokens, n - 1) >= 1.0 then Drained(tokens, n - 1) - 1.0 else Drained(tokens, n - 1)
  }

  lemma {:induction false} DrainedIs(tokens: real, n: nat)
    requires n as real <= tokens
    ensures Drained(tokens, n) == tokens - n as real
  {
    if n > 0 {
      DrainedIs(tokens, n - 1);
    }
  }

  /** Fewer than m tokens do not pay for m calls. */
  lemma {:induction false} DrainedBelow(tokens: real, m: nat, n: nat)
    requires tokens < m as real && n < m
    ensures Drained(tokens, n) < (m - n) as real
  {
    if n > 0 {
      DrainedBelow(tokens, m, n - 1);
    }
  }

  lemma {:induction false} DrainedInRange(tokens: real, n: nat)
    requires 0.0 <= tokens
    ensures 0.0 <= Drained(tokens, n) <= tokens
  {
    if n > 0 {
      DrainedInRange(tokens, n - 1);
    }
  }

  /** The first call of a burst finds this many tokens. */
  ghost predicate Finds(rate: real, interval: int, cap: real, cell: Cell, t: int, tokens: real)
    requires 0 < interval
  {
    DecideToken(rate, interval, cap, Visible(cell, t), t, t)
    == Outcome(BucketState(if tokens >= 1.0 then tokens - 1.0 else tokens, t), DAY, tokens >= 1.0)
  }

  function Holding(b: Backend, tokens: real, t: int): Cell {
    Some(StorageValue(BucketState(tokens, t), ExpirationOf(b, t, DAY)))
  }

  lemma FindsWhatIsHeld(rate: real, interval: int, cap: real, b: Backend, tokens: real, t: int)
    requires Sane(rate, interval, cap) && 0.0 <= tokens <= cap
    ensures Finds(rate, interval, cap, Holding(b, tokens, t), t, tokens)
  {
    assert Gain(rate, interval, t, t) == 0.0;
    assert Visible(Holding(b, tokens, t), t) == Some(BucketState(tokens, t));
  }

  lemma {:induction false} BurstDrains(rate: real, interval: int, cap: real, b: Backend, cell: Cell, t: int,
                                       tokens: real, n: nat)
    requires Sane(rate, interval, cap) && 0.0 <= tokens <= cap && 0 < n
    requires Finds(rate, interval, cap, cell, t, tokens)
    ensures After(Limiter.TokenBucket(rate, interval, cap), b, cell, Burst(t, n)) == Holding(b, Drained(tokens, n), t)
    ensures Run(Limiter.TokenBucket(rate, interval, cap), b, cell, Burst(t, n))[n - 1]
         == Decision(Drained(tokens, n - 1) >= 1.0, false)
  {
    var lim := Limiter.TokenBucket(rate, interval, cap);
    var before := After(lim, b, cell, Burst(t, n - 1));
    RunConcat(lim, b, cell, Burst(t, n - 1), [CallAt(t)]);
    assert Finds(rate, interval, cap, before, t, Drained(tokens, n - 1)) by {
      if n > 1 {
        BurstDrains(rate, interval, cap, b, cell, t, tokens, n - 1);
        DrainedInRange(tokens, n - 1);
        FindsWhatIsHeld(rate, interval, cap, b, Drained(tokens, n - 1), t);
      }
    }
    LastCall(rate, interval, cap, b, before, t, Drained(tokens, n - 1));
  }

  lemma LastCall(rate: real, interval: int, cap: real, b: Backend, cell: Cell, t: int, tokens: real)
    requires Sane(rate, interval, cap) && Finds(rate, interval, cap, cell, t, tokens)
    ensures
      var lim := Limiter.TokenBucket(rate, interval, cap);
      && After(lim, b, cell, [CallAt(t)]) == Holding(b, if tokens >= 1.0 then tokens - 1.0 else tokens, t)
      && Run(lim, b, cell, [CallAt(t)]) == [Decision(tokens >= 1.0, false)]
  {
    var step := Step(Limiter.TokenBucket(rate, interval, cap), b, cell, CallAt(t));
    assert After(Limiter.TokenBucket(rate, interval, cap), b, step.0, []) == step.0;
  }

  lemma FirstBurstEmpties(rate: real, interval: int, n: nat, cap: real, b: Backend)
    requires Sane(rate, interval, cap) && 0 < n && cap == n as real
    ensures
      var lim := Limiter.TokenBucket(rate, interval, cap);
      Run(lim, b, None, Burst(0, n) + Burst(DAY + 1, n))
      == Run(lim, b, None, Burst(0, n)) + Run(lim, b, Holding(b, 0.0, 0), Burst(DAY + 1, n))
  {
    assert Gain(rate, interval, 0, 0) == 0.0;
    assert Finds(rate, interval, cap, None, 0, cap);
    DrainedIs(cap, n);
    BurstDrains(rate, interval, cap, b, None, 0, cap, n);
    RunConcat(Limiter.TokenBucket(rate, interval, cap), b, None, Burst(0, n), Burst(DAY + 1, n));
  }

  /** A day and a nanosecond after a full burst the expiring store grants another full one. */
  lemma SecondBurstGranted(rate: real, interval: int, n: nat, cap: real, b: Backend)
    requires Sane(rate, interval, cap) && 0 < n && cap == n as real && !b.Eternal?
    ensures Run(Limiter.TokenBucket(rate, interval, cap), b, None, Burst(0, n) + Burst(DAY + 1, n))[2 * n - 1]
         == Decision(true, false)
  {
    FirstBurstEmpties(rate, interval, n, cap, b);
    assert Visible(Holding(b, 0.0, 0), DAY + 1) == None;
    assert Gain(rate, interval, DAY + 1, DAY + 1) == 0.0;
    assert Finds(rate, interval, cap, Holding(b, 0.0, 0), DAY + 1, cap);
    DrainedIs(cap, n - 1);
    BurstDrains(rate, interval, cap, b, Holding(b, 0.0, 0), DAY + 1, cap, n);
  }

  /** A bucket that is remembered and has not refilled by then does not. */
  lemma SecondBurstDenied(rate: real, interval: int, n: nat, cap: real)
    requires Sane(rate, interval, cap) && 0 < n && cap == n as real
    requires Gain(rate, interval, 0, DAY + 1) < cap
    ensures Run(Limiter.TokenBucket(rate, interval, cap), Eternal, None, Burst(0, n) + Burst(DAY + 1, n))[2 * n - 1]
         == Decision(false, false)
  {
    var gained := Gain(rate, interval, 0, DAY + 1);
    FirstBurstEmpties(rate, interval, n, cap, Eternal);
    GainAdds(rate, interval, 0, DAY + 1, DAY + 1);
    assert Visible(Holding(Eternal, 0.0, 0), DAY + 1) == Some(BucketState(0.0, 0));
    assert Refilled(rate, interval, cap, 0.0, DAY + 1 - 0) == gained;
    assert Finds(rate, interval, cap, Holding(Eternal, 0.0, 0), DAY + 1, gained);
    DrainedBelow(gained, n, n - 1);
    BurstDrains(rate, interval, cap, Eternal, Holding(Eternal, 0.0, 0), DAY + 1, gained, n);
  }

  /** The n-th call of a burst is granted iff there are n whole tokens. */
  lemma {:induction false} DrainedGrants(tokens: real, n: nat)
    requires 0.0 <= tokens && 0 < n
    ensures Drained(tokens, n - 1) >= 1.0 <==> n <= tokens.Floor
  {
    var whole := tokens.Floor;
    if n <= whole {
      DrainedIs(tokens, n - 1);
    } else if n == whole + 1 {
      DrainedBelow(tokens, n, n - 1);
    } else {
      DrainedGrants(tokens, n - 1);
    }
  }

  /** A burst is admitted as far as there are whole tokens. */
  lemma {:induction false} BurstAdmits(rate: real, interval: int, cap: real, b: Backend, cell: Cell, t: int,
                                       tokens: real, n: nat)
    requires Sane(rate, interval, cap) && 0.0 <= tokens <= cap && Finds(rate, interval, cap, cell, t, tokens)
    ensures Admitted(Run(Limiter.TokenBucket(rate, interval, cap), b, cell, Burst(t, n))) == Least(n, tokens.Floor)
  {
    if n > 0 {
      BurstAdmits(rate, interval, cap, b, cell, t, tokens, n - 1);
      BurstDrains(rate, interval, cap, b, cell, t, tokens, n);
      DrainedGrants(tokens, n);
      BurstAdmitsLast(Limiter.TokenBucket(rate, interval, cap), b, cell, t, n);
    }
  }

  /** For a whole number of tokens per interval the whole tokens that flow in are a quotient. */
  lemma WholeGain(perInterval: nat, interval: int, elapsed: nat)
    requires 0 < interval
    ensures (perInterval as real * (elapsed as real / interval as real)).Floor == elapsed * perInterval / interval
  {
    var x, d := elapsed * perInterval, interval;
    var q, exact := x / d, perInterval as real * (elapsed as real / interval as real);
    assert exact * d as real == x as real by {
      assert elapsed as real / d as real * d as real == elapsed as real;
      assert perInterval as real * elapsed as real == x as real;
    }
    assert q * d <= x < (q + 1) * d;
    assert (q * d) as real == q as real * d as real && ((q + 1) * d) as real == (q + 1) as real * d as real;
    assert q as real <= exact < (q + 1) as real by {
      QuotientBetween(exact, d as real, q as real);
    }
  }

  lemma QuotientBetween(exact: real, d: real, q: real)
    requires 0.0 < d && q * d <= exact * d < (q + 1.0) * d
    ensures q <= exact < q + 1.0
  {
    assert (exact - q) * d >= 0.0;
    assert (q + 1.0 - exact) * d > 0.0;
  }

  /** Of a bucketful that comes after a bucketful, as many calls are admitted as tokens have flowed in since, or all of
      them once the store has forgotten the first. */
  lemma SecondBucketful(perInterval: nat, interval: int, n: nat, b: Backend, t: int, later: int)
    requires 0 < interval && 0 < n && t <= later
    ensures
      var lim := Limiter.TokenBucket(perInterval as real, interval, n as real);
      && Admitted(Run(lim, b, None, Burst(t, n))) == n
      && Admitted(Run(lim, b, After(lim, b, None, Burst(t, n)), Burst(later, n)))
         == if !b.Eternal? && t + 86_400_000_000_000 < later then n
            else Least(n, (later - t) * perInterval / interval)
  {
    BucketfulEmpties(perInterval as real, interval, n, n as real, b, t);
    EmptyAdmits(perInterval as real, interval, n, n as real, b, t, later);
    FlowedIn(perInterval, interval, n, later - t);
  }

  lemma FlowedIn(perInterval: nat, interval: int, n: nat, elapsed: nat)
    requires 0 < interval
    ensures Least(n, Min(Gain(perInterval as real, interval, 0, elapsed), n as real).Floor)
         == Least(n, elapsed * perInterval / interval)
  {
    WholeGain(perInterval, interval, elapsed);
    GainAdds(perInterval as real, interval, 0, elapsed, elapsed);
    CappedFloor(Gain(perInterval as real, interval, 0, elapsed), n);
  }

  lemma CappedFloor(x: real, n: nat)
    requires 0.0 <= x
    ensures Least(n, Min(x, n as real).Floor) == Least(n, x.Floor)
  {
  }

  lemma EmptyAdmits(rate: real, interval: int, n: nat, cap: real, b: Backend, t: int, later: int)
    requires Sane(rate, interval, cap) && cap == n as real && t <= later
    ensures Admitted(Run(Limiter.TokenBucket(rate, interval, cap), b, Holding(b, 0.0, t), Burst(later, n)))
         == if !b.Eternal? && t + DAY < later then n
            else Least(n, Min(Gain(rate, interval, 0, later - t), cap).Floor)
  {
    if !b.Eternal? && t + DAY < later {
      assert Gain(rate, interval, later, later) == 0.0;
      assert Visible(Holding(b, 0.0, t), later) == None;
      BurstAdmits(rate, interval, cap, b, Holding(b, 0.0, t), later, cap, n);
    } else {
      assert Gain(rate, interval, 0, later - t) == Gain(rate, interval, t, later);
      EmptyRefills(rate, interval, cap, b, t, later);
      BurstAdmits(rate, interval, cap, b, Holding(b, 0.0, t), later, Min(Gain(rate, interval, t, later), cap), n);
    }
  }

  lemma BucketfulEmpties(rate: real, interval: int, n: nat, cap: real, b: Backend, t: int)
    requires Sane(rate, interval, cap) && 0 < n && cap == n as real
    ensures
      var lim := Limiter.TokenBucket(rate, interval, cap);
      && Admitted(Run(lim, b, None, Burst(t, n))) == n
      && After(lim, b, None, Burst(t, n)) == Holding(b, 0.0, t)
  {
    assert Gain(rate, interval, t, t) == 0.0;
    assert Finds(rate, interval, cap, None, t, cap);
    DrainedIs(cap, n);
    BurstAdmits(rate, interval, cap, b, None, t, cap, n);
    BurstDrains(rate, interval, cap, b, None, t, cap, n);
  }

  lemma EmptyRefills(rate: real, interval: int, cap: real, b: Backend, t: int, later: int)
    requires Sane(rate, interval, cap) && t <= later && (b.Eternal? || later <= t + DAY)
    ensures
      var tokens := Min(Gain(rate, interval, t, later), cap);
      0.0 <= tokens && Finds(rate, interval, cap, Holding(b, 0.0, t), later, tokens)
  {
    GainAdds(rate, interval, t, later, later);
    assert Visible(Holding(b, 0.0, t), later) == Some(BucketState(0.0, t));
    assert Refilled(rate, interval, cap, 0.0, later - t) == Min(Gain(rate, interval, t, later), cap);
  }
}
