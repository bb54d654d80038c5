/** The four algorithms as one read-decide-write step each, and runs of such steps on one key. */
module Limiters {
  import opened Prelude
  import opened Storage

  /** A limiter is its parameters: everything that changes lives in the store. */
  datatype Limiter =
    | SlidingWindow(maxRequests: int, windowDuration: int)
    | TokenBucket(refillRate: real, refillInterval: int, maxTokens: real)
    | LeakyBucket(bucketCapacity: int, leakRate: int, leakInterval: int)
    | FixedWindow(maxRequests: int, windowDuration: int)

  /** What one Allow call observes: the instant `now` its decision uses, the instants at which the store
      executes its Get and Set, a further clock reading in between (the start of a fresh token bucket, the
      reference of the fixed window's TTL), and whether the store's Get and Set succeed. */
  datatype Reading = Reading(now: int, getAt: int, midAt: int, setAt: int, getOk: bool, setOk: bool)

  datatype Outcome = Outcome(next: Value, ttl: int, allowed: bool)

  /** Go panics on an integer division by zero; a float division by zero is not modelled. */
  predicate Divides(lim: Limiter) {
    match lim
    case TokenBucket(_, interval, _) => interval != 0
    case LeakyBucket(_, _, interval) => interval != 0
    case _ => true
  }

  /** The timestamps from the first one inside the window on. */
  function Prune(timestamps: seq<int>, windowStart: int): seq<int> {
    if timestamps == [] || timestamps[0] > windowStart then timestamps else Prune(timestamps[1..], windowStart)
  }

  /** The stored list; empty when it is missing or unreadable. */
  function Timestamps(seen: Option<Value>): seq<int> {
    if seen.Some? && seen.value.SlidingState? then seen.value.timestamps else []
  }

  function DecideSliding(max: int, window: int, seen: Option<Value>, now: int): Outcome {
    var kept := Prune(Timestamps(seen), now - window);
    var allowed := |kept| < max;
    Outcome(SlidingState(if allowed then kept + [now] else kept), window + SECOND, allowed)
  }

  function Refilled(rate: real, interval: int, cap: real, tokens: real, elapsed: int): real
    requires interval != 0
  {
    var toAdd := rate * (elapsed as real / interval as real);
    if tokens + toAdd < cap then tokens + toAdd else cap
  }

  function DecideToken(rate: real, interval: int, cap: real, seen: Option<Value>, now: int, midAt: int): Outcome
    requires interval != 0
  {
    var state := if seen.Some? && seen.value.BucketState? then seen.value else BucketState(cap, midAt);
    var tokens := Refilled(rate, interval, cap, state.tokens, now - state.lastFillTime);
    var allowed := tokens >= 1.0;
    Outcome(BucketState(if allowed then tokens - 1.0 else tokens, now), DAY, allowed)
  }

  function DecideLeaky(capacity: int, leakRate: int, interval: int, seen: Option<Value>, now: int): Outcome
    requires interval != 0
  {
    var state := if seen.Some? && seen.value.LeakyState? then seen.value else LeakyState(0, now);
    var drained := state.count - Quot(now - state.lastLeakTime, interval) * leakRate;
    var count := if drained < 0 then 0 else drained;
    var allowed := count < capacity;
    Outcome(LeakyState(if allowed then count + 1 else count, now), DAY, allowed)
  }

  function DecideFixed(max: int, window: int, seen: Option<Value>, now: int, midAt: int): Outcome {
    var state := if seen.Some? && seen.value.FixedState? && now < seen.value.windowEnd
                 then seen.value else FixedState(0, now + window);
    var allowed := state.count < max;
    var untilEnd := state.windowEnd - midAt + SECOND;
    Outcome(FixedState(if allowed then state.count + 1 else state.count, state.windowEnd),
            if untilEnd < 0 then window + SECOND else untilEnd,
            allowed)
  }

  function Decide(lim: Limiter, seen: Option<Value>, now: int, midAt: int): Outcome
    requires Divides(lim)
  {
    match lim
    case SlidingWindow(max, window) => DecideSliding(max, window, seen, now)
    case TokenBucket(rate, interval, cap) => DecideToken(rate, interval, cap, seen, now, midAt)
    case LeakyBucket(capacity, rate, interval) => DecideLeaky(capacity, rate, interval, seen, now)
    case FixedWindow(max, window) => DecideFixed(max, window, seen, now, midAt)
  }

  /** The cell as it would be without its expiration. */
  function Lasting(cell: Cell): Cell {
    if cell.Some? then Some(cell.value.(expiration := None)) else None
  }

  /** What a Get at t finds of a cell. */
  function Found(cell: Cell, t: int): Cell {
    if Visible(cell, t).None? then None else Lasting(cell)
  }

  /** Whether the request was let through, and whether Allow also returned an error. */
  datatype Reply = Decision(allowed: bool, failed: bool) | NoReply

  predicate Grants(reply: Reply) {
    reply.Decision? && reply.allowed
  }

  /** One Allow on the cell of its key: it fails open, and a failing store call has no effect. */
  function Allow(lim: Limiter, b: Backend, cell: Cell, r: Reading): (Cell, Reply)
    requires r.getOk ==> Divides(lim)
  {
    if !r.getOk then (cell, Decision(true, true))
    else
      var o := Decide(lim, Visible(cell, r.getAt), r.now, r.midAt);
      if !r.setOk then (cell, Decision(true, true))
      else (Some(StorageValue(o.next, ExpirationOf(b, r.setAt, o.ttl))), Decision(o.allowed, false))
  }

  // How long a state lives, in nanoseconds

  /** A bucket's state is found until 24 hours after it was written, and not after that. */
  lemma BucketsLiveADay(lim: Limiter, b: Backend, cell: Cell, r: Reading, t: int)
    requires (lim.TokenBucket? || lim.LeakyBucket?) && Divides(lim) && r.getOk && r.setOk
    ensures Visible(Allow(lim, b, cell, r).0, t).Some? <==> b.Eternal? || t <= r.setAt + 86_400_000_000_000
  {
  }

  /** A sliding window's list is found until a second after the last of its calls has left the window. */
  lemma ListsOutliveTheirWindow(max: int, window: int, b: Backend, cell: Cell, r: Reading, t: int)
    requires 0 < window && r.getOk && r.setOk
    ensures Visible(Allow(SlidingWindow(max, window), b, cell, r).0, t).Some?
       <==> b.Eternal? || t <= r.setAt + window + 1_000_000_000
  {
  }

  /** A fixed window's count is found for the rest of the window, counted from the Set, and a second more; if the second
      reading already shows a later instant, for a whole window and a second. To Redis a rest of nothing is for ever. */
  lemma CountsOutliveTheirWindow(max: int, window: int, b: Backend, cell: Cell, r: Reading, t: int)
    requires 0 < window && r.getOk && r.setOk
    ensures
      var next := Allow(FixedWindow(max, window), b, cell, r).0;
      && next.Some? && next.value.value.FixedState?
      && var late := r.midAt - next.value.value.windowEnd - 1_000_000_000;
         Visible(next, t).Some?
         <==> || b.Eternal? || (b.Redis? && late == 0)
              || t <= r.setAt + (if late > 0 then window + 1_000_000_000 else -late)
  {
  }

  /** Everything that can happen to one key of a limiter. Corrupt turns the stored string into one that does not
      parse. */
  datatype Event =
    | Call(r: Reading)
    | Reset(at: int, ok: bool)
    | Sweep(at: int)
    | Corrupt(at: int)

  function Start(e: Event): int {
    if e.Call? then e.r.now else e.at
  }

  function End(e: Event): int {
    if e.Call? then e.r.setAt else e.at
  }

  predicate Succeeds(e: Event) {
    e.Call? && e.r.getOk && e.r.setOk
  }

  predicate Clears(e: Event) {
    (e.Reset? && e.ok) || e.Corrupt?
  }

  const UNREADABLE := Text("?")

  function Step(lim: Limiter, b: Backend, cell: Cell, e: Event): (Cell, Reply)
    requires Divides(lim)
  {
    match e
    case Call(r) => Allow(lim, b, cell, r)
    case Reset(_, ok) => (if ok then None else cell, NoReply)
    case Sweep(at) => (SweepCell(cell, at), NoReply)
    case Corrupt(_) => (if cell.Some? then Some(cell.value.(value := UNREADABLE)) else None, NoReply)
  }

  /** The replies of a run. */
  function Run(lim: Limiter, b: Backend, cell: Cell, events: seq<Event>): (replies: seq<Reply>)
    requires Divides(lim)
    ensures |replies| == |events|
    decreases events
  {
    if events == [] then []
    else
      var (next, reply) := Step(lim, b, cell, events[0]);
      [reply] + Run(lim, b, next, events[1..])
  }

  /** The cell at the end of a run. */
  function After(lim: Limiter, b: Backend, cell: Cell, events: seq<Event>): Cell
    requires Divides(lim)
    decreases events
  {
    if events == [] then cell else After(lim, b, Step(lim, b, cell, events[0]).0, events[1..])
  }

  /** The clock does not run backwards, neither within a call nor from one event to the next. The token bucket
      reads its clock after its Get, the others before it, by at most `stall`. */
  predicate InOrder(lim: Limiter, clock: int, e: Event, stall: int) {
    && clock <= Start(e) <= End(e)
    && (e.Call? ==>
        if lim.TokenBucket? then clock <= e.r.getAt <= e.r.midAt <= e.r.now
        else e.r.now <= e.r.getAt <= e.r.midAt <= e.r.setAt && e.r.getAt <= e.r.now + stall)
  }

  predicate Orderly(lim: Limiter, clock: int, events: seq<Event>, stall: int)
    decreases events
  {
    events == [] || (InOrder(lim, clock, events[0], stall) && Orderly(lim, End(events[0]), events[1..], stall))
  }

  /** The clock after a run. */
  function Clock(clock: int, events: seq<Event>): int {
    if events == [] then clock else End(events[|events| - 1])
  }

  // Counting. `replies` may be those of a limiter or of any other policy.

  function One(b: bool): nat {
    if b then 1 else 0
  }

  predicate CallIn(e: Event, a: int, b: int) {
    e.Call? && a <= e.r.now < b
  }

  /** How many calls with now in [a, b) were let through. */
  function AdmittedIn(events: seq<Event>, replies: seq<Reply>, a: int, b: int): nat
    requires |events| == |replies|
  {
    if events == [] then 0
    else One(CallIn(events[0], a, b) && Grants(replies[0])) + AdmittedIn(events[1..], replies[1..], a, b)
  }

  function Admitted(replies: seq<Reply>): nat {
    if replies == [] then 0 else One(Grants(replies[0])) + Admitted(replies[1..])
  }

  /** How many calls with now in [a, b) met a failing store. */
  function FailedIn(events: seq<Event>, a: int, b: int): nat {
    if events == [] then 0 else One(CallIn(events[0], a, b) && !Succeeds(events[0])) + FailedIn(events[1..], a, b)
  }

  /** How many resets and corruptions fall into [a, b). */
  function ClearsIn(events: seq<Event>, a: int, b: int): nat {
    if events == [] then 0 else One(Clears(events[0]) && a <= Start(events[0]) < b) + ClearsIn(events[1..], a, b)
  }

  // Runs compose.

  lemma {:induction false} RunConcat(lim: Limiter, b: Backend, cell: Cell, xs: seq<Event>, ys: seq<Event>)
    requires Divides(lim)
    ensures Run(lim, b, cell, xs + ys) == Run(lim, b, cell, xs) + Run(lim, b, After(lim, b, cell, xs), ys)
    ensures After(lim, b, cell, xs + ys) == After(lim, b, After(lim, b, cell, xs), ys)
    decreases xs
  {
    if xs == [] {
      assert xs + ys == ys;
    } else {
      assert (xs + ys)[1..] == xs[1..] + ys;
      RunConcat(lim, b, Step(lim, b, cell, xs[0]).0, xs[1..], ys);
    }
  }

  lemma LastReply(lim: Limiter, b: Backend, cell: Cell, xs: seq<Event>, ys: seq<Event>)
    requires Divides(lim) && ys != []
    ensures Run(lim, b, cell, xs + ys)[|xs + ys| - 1] == Run(lim, b, After(lim, b, cell, xs), ys)[|ys| - 1]
  {
    RunConcat(lim, b, cell, xs, ys);
  }

  lemma {:induction false} OrderlyConcat(lim: Limiter, clock: int, xs: seq<Event>, ys: seq<Event>, stall: int)
    ensures Orderly(lim, clock, xs + ys, stall)
       <==> Orderly(lim, clock, xs, stall) && Orderly(lim, Clock(clock, xs), ys, stall)
    decreases xs
  {
    if xs == [] {
      assert xs + ys == ys;
    } else {
      assert (xs + ys)[1..] == xs[1..] + ys;
      OrderlyConcat(lim, End(xs[0]), xs[1..], ys, stall);
    }
  }

  lemma {:induction false} AdmittedConcat(xs: seq<Event>, rs: seq<Reply>, ys: seq<Event>, qs: seq<Reply>, a: int,
                                          b: int)
    requires |xs| == |rs| && |ys| == |qs|
    ensures AdmittedIn(xs + ys, rs + qs, a, b) == AdmittedIn(xs, rs, a, b) + AdmittedIn(ys, qs, a, b)
  {
    if xs == [] {
      assert xs + ys == ys && rs + qs == qs;
    } else {
      assert (xs + ys)[1..] == xs[1..] + ys && (rs + qs)[1..] == rs[1..] + qs;
      AdmittedConcat(xs[1..], rs[1..], ys, qs, a, b);
    }
  }

  lemma AdmittedFirst(lim: Limiter, b: Backend, cell: Cell, e: Event, rest: seq<Event>, from: int, to: int)
    requires Divides(lim)
    ensures
      var (next, reply) := Step(lim, b, cell, e);
      AdmittedIn([e] + rest, Run(lim, b, cell, [e] + rest), from, to)
      == One(CallIn(e, from, to) && Grants(reply)) + AdmittedIn(rest, Run(lim, b, next, rest), from, to)
  {
    assert ([e] + rest)[1..] == rest;
  }

  lemma {:induction false} AdmittedSplit(rs: seq<Reply>, m: nat)
    requires m <= |rs|
    ensures Admitted(rs) == Admitted(rs[..m]) + Admitted(rs[m..])
  {
    if m > 0 {
      assert rs[..m][1..] == rs[1..][..m - 1];
      AdmittedSplit(rs[1..], m - 1);
    }
  }

  lemma AdmittedAppend(rs: seq<Reply>, qs: seq<Reply>)
    ensures Admitted(rs + qs) == Admitted(rs) + Admitted(qs)
  {
    AdmittedSplit(rs + qs, |rs|);
    assert (rs + qs)[..|rs|] == rs && (rs + qs)[|rs|..] == qs;
  }

  /** A policy answers every event and grants nothing but calls. */
  ghost predicate IsPolicy(events: seq<Event>, replies: seq<Reply>) {
    |replies| == |events| && forall i | 0 <= i < |events| && Grants(replies[i]) :: events[i].Call?
  }

  /** The number of leading events that start before x. */
  function Cut(events: seq<Event>, x: int): (m: nat)
    ensures m <= |events|
  {
    if events == [] || x <= Start(events[0]) then 0 else 1 + Cut(events[1..], x)
  }

  /** What a policy admits before x and from x on is all it admits. */
  lemma {:induction false} CutSplits(lim: Limiter, clock: int, events: seq<Event>, stall: int, replies: seq<Reply>,
                                     x: int, y: int)
    requires Orderly(lim, clock, events, stall) && IsPolicy(events, replies) && Clock(clock, events) < y
    ensures Admitted(replies) == Admitted(replies[..Cut(events, x)]) + AdmittedIn(events, replies, x, y)
    decreases events
  {
    if events == [] {
      return;
    }
    ClockIsLast(lim, clock, events, stall);
    var m := Cut(events, x);
    if m == 0 {
      AllFrom(lim, clock, events, stall, replies, x, y);
    } else {
      CutSplits(lim, End(events[0]), events[1..], stall, replies[1..], x, y);
      assert replies[..m][1..] == replies[1..][..m - 1];
    }
  }

  lemma {:induction false} AllFrom(lim: Limiter, clock: int, events: seq<Event>, stall: int, replies: seq<Reply>,
                                   x: int, y: int)
    requires Orderly(lim, clock, events, stall) && IsPolicy(events, replies) && Clock(clock, events) < y
    requires events != [] ==> x <= Start(events[0])
    ensures AdmittedIn(events, replies, x, y) == Admitted(replies)
    decreases events
  {
    if events != [] {
      ClockIsLast(lim, clock, events, stall);
      AllFrom(lim, End(events[0]), events[1..], stall, replies[1..], x, y);
    }
  }

  lemma {:induction false} ClockIsLast(lim: Limiter, clock: int, events: seq<Event>, stall: int)
    requires Orderly(lim, clock, events, stall)
    ensures clock <= Clock(clock, events)
    ensures events != [] ==> Start(events[0]) <= Clock(clock, events)
    decreases events
  {
    if events != [] {
      ClockIsLast(lim, End(events[0]), events[1..], stall);
    }
  }

  /** Once the clock has passed b, nothing more is admitted in [a, b). */
  lemma {:induction false} NothingBefore(lim: Limiter, clock: int, events: seq<Event>, replies: seq<Reply>, stall: int,
                                         a: int, b: int)
    requires |events| == |replies| && Orderly(lim, clock, events, stall) && b <= clock
    ensures AdmittedIn(events, replies, a, b) == 0
    decreases events
  {
    if events != [] {
      NothingBefore(lim, End(events[0]), events[1..], replies[1..], stall, a, b);
    }
  }

  lemma {:induction false} OrderlyWeaken(lim: Limiter, clock: int, events: seq<Event>, stall: int, more: int)
    requires Orderly(lim, clock, events, stall) && stall <= more
    ensures Orderly(lim, clock, events, more)
    decreases events
  {
    if events != [] {
      OrderlyWeaken(lim, End(events[0]), events[1..], stall, more);
    }
  }

  function CallAt(t: int): Event {
    Call(Reading(t, t, t, t, true, true))
  }

  /** n calls whose clock readings all show t. */
  function Burst(t: int, n: nat): (events: seq<Event>)
    ensures |events| == n && forall e | e in events :: e == CallAt(t)
  {
    if n == 0 then [] else Burst(t, n - 1) + [CallAt(t)]
  }

  lemma {:induction false} BurstIsOrderly(lim: Limiter, clock: int, t: int, n: nat, stall: nat)
    requires clock <= t
    ensures Orderly(lim, clock, Burst(t, n), stall)
    ensures Clock(clock, Burst(t, n)) == if n == 0 then clock else t
  {
    if n > 0 {
      BurstIsOrderly(lim, clock, t, n - 1, stall);
      OrderlyConcat(lim, clock, Burst(t, n - 1), [CallAt(t)], stall);
    }
  }

  /** A burst admits what the burst one shorter admits, and its last call if that is granted. */
  lemma BurstAdmitsLast(lim: Limiter, b: Backend, cell: Cell, t: int, n: nat)
    requires Divides(lim) && 0 < n
    ensures Admitted(Run(lim, b, cell, Burst(t, n)))
         == Admitted(Run(lim, b, cell, Burst(t, n - 1))) + One(Grants(Run(lim, b, cell, Burst(t, n))[n - 1]))
  {
    var before := Run(lim, b, cell, Burst(t, n - 1));
    var last := Run(lim, b, After(lim, b, cell, Burst(t, n - 1)), [CallAt(t)]);
    RunConcat(lim, b, cell, Burst(t, n - 1), [CallAt(t)]);
    AdmittedAppend(before, last);
    assert last == [last[0]] && Admitted(last) == One(Grants(last[0]));
  }

  /** The entries of xs that keep marks. */
  function Thin<T>(xs: seq<T>, keep: seq<bool>): seq<T>
    requires |xs| == |keep|
  {
    if xs == [] then [] else (if keep[0] then [xs[0]] else []) + Thin(xs[1..], keep[1..])
  }

  lemma {:induction false} OrderlyThin(lim: Limiter, earlier: int, clock: int, events: seq<Event>, keep: seq<bool>,
                                       stall: int)
    requires |events| == |keep| && earlier <= clock && Orderly(lim, clock, events, stall)
    ensures Orderly(lim, earlier, Thin(events, keep), stall)
    ensures Clock(earlier, Thin(events, keep)) <= Clock(clock, events)
    decreases events
  {
    if events != [] {
      var e, rest := events[0], Thin(events[1..], keep[1..]);
      if keep[0] {
        OrderlyThin(lim, End(e), End(e), events[1..], keep[1..], stall);
        assert ([e] + rest)[1..] == rest;
      } else {
        OrderlyThin(lim, earlier, End(e), events[1..], keep[1..], stall);
        assert Thin(events, keep) == rest;
      }
    }
  }

  lemma {:induction false} EternalNeverExpires(lim: Limiter, cell: Cell, events: seq<Event>)
    requires Divides(lim) && (cell.Some? ==> cell.value.expiration == None)
    ensures var end := After(lim, Eternal, cell, events); end.Some? ==> end.value.expiration == None
    decreases events
  {
    if events != [] {
      EternalNeverExpires(lim, Step(lim, Eternal, cell, events[0]).0, events[1..]);
    }
  }

  // The buckets' states are kept for a day.

  /** Traffic never pauses for a day: every successful call reaches the store within a day of the Set before it. */
  predicate Busy(lastSet: Option<int>, events: seq<Event>)
    decreases events
  {
    if events == [] then true
    else if Succeeds(events[0]) then
      && (lastSet.Some? ==> events[0].r.getAt <= lastSet.value + DAY)
      && Busy(Some(events[0].r.setAt), events[1..])
    else Busy(if Clears(events[0]) then None else lastSet, events[1..])
  }

  /** What an expiring store still has, c1, is what one that never expires has, c2. */
  ghost predicate Remains(c1: Cell, c2: Cell) {
    c1.Some? ==> c2.Some? && c1.value.value == c2.value.value
  }

  predicate Blank(cell: Cell) {
    cell.Some? ==> cell.value.value == UNREADABLE
  }

  ghost predicate KeptADay(c1: Cell, c2: Cell, lastSet: Option<int>, clock: int) {
    && Remains(c1, c2) && (c2.Some? ==> c2.value.expiration == None)
    && if lastSet.None? then Blank(c1) && Blank(c2)
       else c2.Some? && if c1.None? then lastSet.value + DAY < clock
                        else c1.value.expiration in {None, Some(lastSet.value + DAY)}
  }

  /** Under such traffic a bucket over an expiring store behaves as over one that never expires. */
  lemma {:induction false} BusyNeverForgets(lim: Limiter, b: Backend, c1: Cell, c2: Cell, lastSet: Option<int>,
                                            clock: int, events: seq<Event>, stall: int)
    requires (lim.TokenBucket? || lim.LeakyBucket?) && Divides(lim)
    requires KeptADay(c1, c2, lastSet, clock) && Busy(lastSet, events) && Orderly(lim, clock, events, stall)
    ensures Run(lim, b, c1, events) == Run(lim, Eternal, c2, events)
    ensures Remains(After(lim, b, c1, events), After(lim, Eternal, c2, events))
    decreases events
  {
    if events != [] {
      var e := events[0];
      var nextSet := if Succeeds(e) then Some(e.r.setAt) else if Clears(e) then None else lastSet;
      if Succeeds(e) {
        BusyCallAgrees(lim, b, c1, c2, lastSet, clock, e.r, stall);
      }
      BusyNeverForgets(lim, b, Step(lim, b, c1, e).0, Step(lim, Eternal, c2, e).0, nextSet, End(e), events[1..],
                       stall);
    }
  }

  lemma BusyCallAgrees(lim: Limiter, b: Backend, c1: Cell, c2: Cell, lastSet: Option<int>, clock: int, r: Reading,
                       stall: int)
    requires (lim.TokenBucket? || lim.LeakyBucket?) && Divides(lim) && r.getOk && r.setOk
    requires KeptADay(c1, c2, lastSet, clock) && InOrder(lim, clock, Call(r), stall)
    requires lastSet.Some? ==> r.getAt <= lastSet.value + DAY
    ensures
      var (n1, r1) := Allow(lim, b, c1, r);
      var (n2, r2) := Allow(lim, Eternal, c2, r);
      r1 == r2 && KeptADay(n1, n2, Some(r.setAt), r.setAt)
  {
    var s1, s2 := Visible(c1, r.getAt), Visible(c2, r.getAt);
    assert s1 == s2 || (s1 in {None, Some(UNREADABLE)} && s2 in {None, Some(UNREADABLE)});
    assert Decide(lim, s1, r.now, r.midAt) == Decide(lim, s2, r.now, r.midAt);
    assert Decide(lim, s1, r.now, r.midAt).ttl == DAY;
  }

  // Amortization: one induction for every bound on what an interval admits.

  /** A step from a valid cell leads to a valid cell and pays for the call it admits out of the potential;
      clearing the state costs `clear`, and a call with a failing store is free. */
  ghost predicate Pays(lim: Limiter, b: Backend, stall: int, valid: (Cell, int) -> bool, potential: (Cell, int) -> real,
                       clear: real, from: int, to: int, cell: Cell, clock: int, e: Event)
    requires Divides(lim)
  {
    valid(cell, clock) && InOrder(lim, clock, e, stall) ==>
      var (next, reply) := Step(lim, b, cell, e);
      && valid(next, End(e))
      && One(CallIn(e, from, to) && Grants(reply)) as real + potential(next, End(e))
         <= potential(cell, clock) + (if Clears(e) && from <= Start(e) < to then clear else 0.0)
            + One(CallIn(e, from, to) && !Succeeds(e)) as real
  }

  /** What the resets and corruptions in [from, to) cost together. */
  function Charge(clear: real, events: seq<Event>, from: int, to: int): real {
    if events == [] then 0.0
    else (if Clears(events[0]) && from <= Start(events[0]) < to then clear else 0.0)
         + Charge(clear, events[1..], from, to)
  }

  lemma {:induction false} ChargePerClear(clear: real, events: seq<Event>, from: int, to: int)
    ensures Charge(clear, events, from, to) == clear * ClearsIn(events, from, to) as real
  {
    if events != [] {
      var here, later := One(Clears(events[0]) && from <= Start(events[0]) < to), ClearsIn(events[1..], from, to);
      ChargePerClear(clear, events[1..], from, to);
      assert ClearsIn(events, from, to) == here + later;
      assert clear * (here + later) as real == clear * here as real + clear * later as real;
    }
  }

  lemma {:induction false} WholeCharge(clear: int, events: seq<Event>, from: int, to: int)
    ensures Charge(clear as real, events, from, to) == (clear * ClearsIn(events, from, to)) as real
  {
    if events != [] {
      WholeCharge(clear, events[1..], from, to);
      assert clear * ClearsIn(events, from, to)
          == clear * One(Clears(events[0]) && from <= Start(events[0]) < to) + clear * ClearsIn(events[1..], from, to);
    }
  }

  lemma {:induction false} Amortize(lim: Limiter, b: Backend, stall: int, valid: (Cell, int) -> bool,
                                    potential: (Cell, int) -> real, clear: real, from: int, to: int,
                                    cell: Cell, clock: int, events: seq<Event>)
    requires Divides(lim)
    requires forall c, k, e :: Pays(lim, b, stall, valid, potential, clear, from, to, c, k, e)
    requires forall c, k :: valid(c, k) ==> 0.0 <= potential(c, k)
    requires valid(cell, clock) && Orderly(lim, clock, events, stall)
    ensures AdmittedIn(events, Run(lim, b, cell, events), from, to) as real
         <= potential(cell, clock) + Charge(clear, events, from, to) + FailedIn(events, from, to) as real
    decreases events
  {
    if events != [] {
      var e, next := events[0], Step(lim, b, cell, events[0]).0;
      assert Pays(lim, b, stall, valid, potential, clear, from, to, cell, clock, e);
      Amortize(lim, b, stall, valid, potential, clear, from, to, next, End(e), events[1..]);
    }
  }
}
