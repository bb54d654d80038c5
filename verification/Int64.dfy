/** The arithmetic that Go does in int64: where it cannot overflow, and where it does. */
module Int64 {
  import opened Prelude
  import opened Storage
  import opened Limiters
  import opened Service
  import ServiceRuns

  const HOUR := 3_600 * SECOND
  const TWO_62 := 0x4000_0000_0000_0000
  const TWO_55 := 0x80_0000_0000_0000

  /** Every integer that one Allow computes from what it finds in the store is an int64. */
  predicate Computes64(lim: Limiter, seen: Option<Value>, r: Reading)
    requires Divides(lim)
  {
    match lim
    case SlidingWindow(_, window) => IsInt64(r.now - window) && IsInt64(window + SECOND)
    case TokenBucket(_, _, _) =>
      seen.Some? && seen.value.BucketState? ==> IsInt64(r.now - seen.value.lastFillTime)
    case LeakyBucket(_, leakRate, interval) =>
      seen.Some? && seen.value.LeakyState? ==>
        var elapsed := r.now - seen.value.lastLeakTime;
        && IsInt64(elapsed) && IsInt64(Quot(elapsed, interval) * leakRate)
        && IsInt64(seen.value.count - Quot(elapsed, interval) * leakRate) && IsInt64(seen.value.count + 1)
    case FixedWindow(_, window) =>
      && IsInt64(r.now + window) && IsInt64(window + SECOND)
      && IsInt64(r.now + window - r.midAt + SECOND)
      && (seen.Some? && seen.value.FixedState? ==>
          IsInt64(seen.value.windowEnd - r.midAt + SECOND) && IsInt64(seen.value.count + 1))
  }

  predicate RunComputes64(lim: Limiter, b: Backend, cell: Cell, events: seq<Event>)
    requires Divides(lim)
    decreases events
  {
    events == [] ||
    (&& (events[0].Call? && events[0].r.getOk ==> Computes64(lim, Visible(cell, events[0].r.getAt), events[0].r))
     && RunComputes64(lim, b, Step(lim, b, cell, events[0]).0, events[1..]))
  }

  /** A configuration ValidateConfig accepts, of moderate size. */
  predicate Moderate(cfg: Config) {
    && ValidateConfig(cfg) == None
    && cfg.limit <= 100_000_000_000_000
    && cfg.windowSeconds < 0x8000_0000 && cfg.refillInterval < 0x8000_0000
  }

  /** A clock before the year 2116, and a call that takes at most an hour. */
  predicate Prompt(e: Event) {
    && 0 <= Start(e) && End(e) < TWO_62
    && (e.Call? ==> 0 <= e.r.midAt < TWO_62 && e.r.setAt <= e.r.now + HOUR)
  }

  /** In every run of a limiter of moderate size, whose calls take at most an hour each, every intermediate result is an
      int64. For the leaky bucket this rests on the store forgetting a state a day after it was written. */
  lemma NoOverflow(cfg: Config, b: Backend, clock: int, events: seq<Event>, stall: nat)
    requires Moderate(cfg) && !b.Eternal?
    requires Build(cfg).Some? && Orderly(Build(cfg).value, clock, events, stall)
    requires forall i | 0 <= i < |events| :: Prompt(events[i])
    ensures IsInt64(cfg.windowSeconds * SECOND)
    ensures cfg.algorithm == TOKEN_BUCKET ==> IsInt64(cfg.refillInterval * SECOND)
    ensures Divides(Build(cfg).value) && RunComputes64(Build(cfg).value, b, None, events)
  {
    BuildIsBounded(cfg);
    StaysBounded(Build(cfg).value, b, None, clock, events, stall);
  }

  predicate Bounded(lim: Limiter) {
    match lim
    case SlidingWindow(_, window) => 0 < window <= 0x8000_0000 * SECOND
    case TokenBucket(_, interval, _) => 0 < interval
    case LeakyBucket(capacity, leakRate, interval) =>
      0 <= capacity <= 100_000_000_000_000 && 0 <= leakRate <= 100_000_000_000_000 && SECOND <= interval
    case FixedWindow(max, window) => 0 < window <= 0x8000_0000 * SECOND && 0 <= max <= 100_000_000_000_000
  }

  lemma BuildIsBounded(cfg: Config)
    requires Moderate(cfg)
    ensures Build(cfg).Some? && Divides(Build(cfg).value) && Bounded(Build(cfg).value)
    ensures IsInt64(cfg.windowSeconds * SECOND)
  {
    QuotientShrinks(cfg.limit, cfg.windowSeconds);
  }

  lemma QuotientShrinks(a: int, d: int)
    requires 0 <= a && 0 < d
    ensures 0 <= a / d <= a
  {
    var q := a / d;
    assert a == q * d + a % d;
    assert q * d == q + q * (d - 1);
    Product(q, d - 1);
  }

  lemma Product(x: int, y: int)
    requires 0 <= x && 0 <= y
    ensures 0 <= x * y
  {
  }

  ghost predicate Plausible(lim: Limiter, cell: Cell, clock: int) {
    cell.Some? ==>
      match cell.value.value
      case LeakyState(count, last) =>
        && 0 <= count <= 100_000_000_000_000 && 0 <= last <= clock
        && cell.value.expiration.Some? && cell.value.expiration.value <= last + HOUR + DAY
      case BucketState(_, last) => 0 <= last < TWO_62
      case FixedState(count, end) => 0 <= count <= 100_000_000_000_000 && 0 <= end < TWO_62 + 0x8000_0000 * SECOND
      case _ => true
  }

  lemma {:induction false} StaysBounded(lim: Limiter, b: Backend, cell: Cell, clock: int, events: seq<Event>,
                                        stall: nat)
    requires Divides(lim) && Bounded(lim) && !b.Eternal? && Plausible(lim, cell, clock)
    requires Orderly(lim, clock, events, stall) && forall i | 0 <= i < |events| :: Prompt(events[i])
    ensures RunComputes64(lim, b, cell, events)
    decreases events
  {
    if events != [] {
      assert Prompt(events[0]);
      if events[0].Call? && events[0].r.getOk {
        CallComputes64(lim, b, cell, clock, events[0].r, stall);
      }
      StaysBounded(lim, b, Step(lim, b, cell, events[0]).0, End(events[0]), events[1..], stall);
    }
  }

  lemma CallComputes64(lim: Limiter, b: Backend, cell: Cell, clock: int, r: Reading, stall: nat)
    requires Divides(lim) && Bounded(lim) && !b.Eternal? && Plausible(lim, cell, clock)
    requires InOrder(lim, clock, Call(r), stall) && Prompt(Call(r)) && r.getOk
    ensures Computes64(lim, Visible(cell, r.getAt), r)
    ensures Plausible(lim, Allow(lim, b, cell, r).0, r.setAt)
  {
    match lim
    case LeakyBucket(capacity, leakRate, interval) => LeakyComputes64(capacity, leakRate, interval, b, cell, clock, r);
    case SlidingWindow(_, _) =>
    case TokenBucket(_, _, _) =>
    case FixedWindow(_, _) =>
  }

  lemma LeakyComputes64(capacity: int, leakRate: int, interval: int, b: Backend, cell: Cell, clock: int, r: Reading)
    requires Bounded(LeakyBucket(capacity, leakRate, interval)) && !b.Eternal?
    requires Plausible(LeakyBucket(capacity, leakRate, interval), cell, clock) && Prompt(Call(r)) && r.getOk
    requires clock <= r.now <= r.getAt <= r.setAt
    ensures Computes64(LeakyBucket(capacity, leakRate, interval), Visible(cell, r.getAt), r)
    ensures Plausible(LeakyBucket(capacity, leakRate, interval),
                      Allow(LeakyBucket(capacity, leakRate, interval), b, cell, r).0, r.setAt)
  {
    var seen := Visible(cell, r.getAt);
    if seen.Some? && seen.value.LeakyState? {
      LeakIsBounded(r.now - seen.value.lastLeakTime, interval, leakRate);
    }
    LeakyStaysCounted(capacity, leakRate, interval, seen, r.now);
  }

  lemma LeakyStaysCounted(capacity: int, leakRate: int, interval: int, seen: Option<Value>, now: int)
    requires 0 <= capacity && interval != 0
    requires seen.Some? && seen.value.LeakyState? ==>
      0 <= seen.value.count <= 100_000_000_000_000 && 0 <= Quot(now - seen.value.lastLeakTime, interval) * leakRate
    requires capacity <= 100_000_000_000_000
    ensures
      var next := DecideLeaky(capacity, leakRate, interval, seen, now).next;
      next.LeakyState? && 0 <= next.count <= 100_000_000_000_000 && next.lastLeakTime == now
  {
    assert Quot(0, interval) * leakRate == 0;
  }

  /** At most a day and an hour's worth leaks at once. */
  lemma LeakIsBounded(elapsed: int, interval: int, leakRate: int)
    requires 0 <= elapsed <= HOUR + DAY && SECOND <= interval && 0 <= leakRate <= 100_000_000_000_000
    ensures 0 <= Quot(elapsed, interval) * leakRate <= 90_000 * 100_000_000_000_000
  {
    var q := elapsed / interval;
    assert q <= 90_000 by {
      assert q * interval <= elapsed;
      assert q * SECOND <= q * interval;
    }
    ScaledSum(q, 0, 90_000, leakRate);
  }

  // Where it does overflow

  /** A whole number of seconds wraps around to a zero duration exactly if it is a multiple of 2^55. */
  lemma WrapsToZero(n: int)
    ensures Seconds(n) == 0 <==> n % TWO_55 == 0
  {
    var c, u, t := 1_953_125, 20_211_507_185_753_197, 1_095_668;
    assert SECOND == 512 * c && TWO_64 == 512 * TWO_55 && c * u == 1 + t * TWO_55;
    if n % TWO_55 == 0 {
      var q := n / TWO_55;
      assert n * SECOND == (q * c) * TWO_64;
      MultipleHasNoRemainder(q * c, TWO_64);
      assert (n * SECOND) % TWO_64 == 0;
      ShiftedZero(n * SECOND);
    }
    if Seconds(n) == 0 {
      ShiftedZero(n * SECOND);
      var m := n * SECOND / TWO_64;
      assert n * c == m * TWO_55;
      assert n == n * (c * u) - n * (t * TWO_55);
      assert n * (c * u) == (n * c) * u;
      assert n == (m * u - n * t) * TWO_55;
      MultipleHasNoRemainder(m * u - n * t, TWO_55);
    }
  }

  lemma ShiftedZero(n: int)
    ensures Wrap64(n) == 0 <==> n % TWO_64 == 0
  {
    var shifted, q := n + TWO_63, n / TWO_64;
    if n % TWO_64 == 0 {
      assert n == q * TWO_64;
      ModShift(shifted, q);
    }
    if shifted % TWO_64 == TWO_63 {
      assert n == shifted / TWO_64 * TWO_64;
      MultipleHasNoRemainder(shifted / TWO_64, TWO_64);
    }
  }

  /** ValidateConfig has no upper bounds: a leaky bucket it accepts divides by zero on its first check exactly if its
      window is such a multiple. */
  lemma LeakyCheckIsDefined(b: Backend, key: string, cfg: Config, at: int, r: Reading)
    requires ValidateConfig(cfg) == None && cfg.algorithm == LEAKY_BUCKET && r.getOk
    ensures ServiceRuns.Responses(b, ServiceRuns.FRESH,
                                  [SetConfig(key, cfg, at, true, true), CheckLimit(key, at, true, r)])[1] == Undefined
       <==> cfg.windowSeconds % TWO_55 == 0
  {
    WrapsToZero(cfg.windowSeconds);
    var s := Respond(b, ServiceRuns.FRESH, SetConfig(key, cfg, at, true, true)).0;
    ServiceRuns.ConfigIsReadBack(b, ServiceRuns.FRESH, key, cfg, at, at, true);
    var ops := [SetConfig(key, cfg, at, true, true), CheckLimit(key, at, true, r)];
    assert ops[1..] == [CheckLimit(key, at, true, r)];
    assert ServiceRuns.Responses(b, s, ops[1..])[0] == Respond(b, s, CheckLimit(key, at, true, r)).1;
  }
}
