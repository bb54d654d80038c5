/** internal/limiter/fixed_window.go, and what it guarantees over whole runs. */
module FixedWindows {
  import opened Prelude
  import opened Storage
  import opened Limiters

  class FixedWindow {
    const store: Store
    const maxRequests: int
    const windowDuration: int

    constructor (store: Store, maxRequests: int, windowDuration: int)
      ensures this.store == store && Params() == Limiter.FixedWindow(maxRequests, windowDuration)
    {
      this.store, this.maxRequests, this.windowDuration := store, maxRequests, windowDuration;
    }

    function Params(): Limiter {
      Limiter.FixedWindow(maxRequests, windowDuration)
    }

    static function StateKey(key: string): string {
      "limiter:fixed_window:" + key
    }

    method Allow(key: string, r: Reading) returns (allowed: bool, failed: bool)
      modifies store`data
      ensures
        var (cell, reply) := Limiters.Allow(Params(), store.backend, Lookup(old(store.data), StateKey(key)), r);
        store.data == Put(old(store.data), StateKey(key), cell) && reply == Decision(allowed, failed)
    {
      var stateKey := StateKey(key);
      if !r.getOk {
        return true, true;
      }
      var stateStr := store.Get(stateKey, r.getAt);
      var count, windowEnd := 0, r.now + windowDuration;
      if stateStr.Some? {
        if stateStr.value.FixedState? {  // otherwise unreadable
          count, windowEnd := stateStr.value.count, stateStr.value.windowEnd;
        }
        if r.now >= windowEnd {
          count, windowEnd := 0, r.now + windowDuration;
        }
      }
      allowed := count < maxRequests;
      if allowed {
        count := count + 1;
      }
      var expiration := windowEnd - r.midAt + SECOND;
      if expiration < 0 {
        expiration := windowDuration + SECOND;
      }
      if !r.setOk {
        return true, true;
      }
      store.Set(stateKey, FixedState(count, windowEnd), expiration, r.setAt);
      failed := false;
    }

    method Reset(key: string, ok: bool) returns (failed: bool)
      modifies store
      ensures failed == !ok
      ensures store.data
           == Put(old(store.data), StateKey(key), if ok then None else Lookup(old(store.data), StateKey(key)))
    {
      if ok {
        store.Delete(StateKey(key));
      }
      failed := !ok;
    }
  }

  /** What the service builds: see ValidateConfig. */
  predicate Sane(max: int, window: int) {
    0 < max && 0 < window
  }

  /** The cell holds a window that is still open at t. */
  predicate Open(cell: Cell, t: int) {
    cell.Some? && cell.value.value.FixedState? && t < cell.value.value.windowEnd
  }

  /** The window a call at now counts in: the open one, or a new one that starts with this call. */
  function Current(window: int, cell: Cell, now: int): Value {
    if Open(cell, now) then cell.value.value else FixedState(0, now + window)
  }

  /** What the store can hold under the limiter's key: the TTL outlives the window by at least a second. */
  ghost predicate Valid(max: int, window: int, cell: Cell, clock: int) {
    cell.Some? ==>
      && (cell.value.value.FixedState? || cell.value.value == UNREADABLE)
      && (cell.value.value.FixedState? ==>
          && 1 <= cell.value.value.count <= max && cell.value.value.windowEnd <= clock + window
          && (cell.value.expiration.Some? ==> cell.value.value.windowEnd + SECOND <= cell.value.expiration.value))
  }

  lemma CallCounts(max: int, window: int, b: Backend, cell: Cell, clock: int, r: Reading)
    requires Sane(max, window) && Valid(max, window, cell, clock) && r.getOk && r.setOk
    requires InOrder(Limiter.FixedWindow(max, window), clock, Call(r), SECOND + 1)
    ensures
      var FixedState(count, end) := Current(window, cell, r.now);
      var (next, reply) := Allow(Limiter.FixedWindow(max, window), b, cell, r);
      && reply == Decision(count < max, false)
      && next.Some? && next.value.value == FixedState(if count < max then count + 1 else count, end)
      && Valid(max, window, next, r.now)
  {
    if Open(cell, r.now) {
      assert Visible(cell, r.getAt) == Some(cell.value.value);
    }
  }

  // How much any interval admits

  /** The most that windows starting in [from, b) can admit. */
  function Room(max: int, window: int, from: int, b: int): int
    requires 0 < window
    decreases b - from
  {
    if b <= from then 0 else max + Room(max, window, from + window, b)
  }

  lemma {:induction false} RoomShrinks(max: int, window: int, from: int, to: int, b: int)
    requires Sane(max, window) && from <= to
    ensures 0 <= Room(max, window, to, b) <= Room(max, window, from, b)
    decreases b - from
  {
    if from < b {
      RoomShrinks(max, window, from + window, to + window, b);
    }
  }

  lemma {:induction false} RoomOf(max: int, window: int, a: int, b: int, n: nat)
    requires Sane(max, window) && b == a + n * window
    ensures Room(max, window, a, b) == n * max
    decreases n
  {
    if n > 0 {
      assert n * window == window + (n - 1) * window && n * max == max + (n - 1) * max;
      RoomOf(max, window, a + window, b, n - 1);
    }
  }

  /** An upper bound on what can still be admitted in [a, b), where `most` bounds the whole interval. */
  function Potential(max: int, window: int, cell: Cell, clock: int, a: int, b: int, most: int): int
    requires 0 < window
  {
    if b <= clock then 0
    else if clock < a then most
    else if Open(cell, clock) then max - cell.value.value.count + Room(max, window, cell.value.value.windowEnd, b)
    else Room(max, window, clock, b)
  }

  /** In every run, n window lengths admit at most (n+1)*max - 1 calls, plus one for every failing store access and
      max for every reset or corruption in them. Windows start with a call of their own, so of the one that began
      before the interval at least one admission lies outside. */
  lemma IntervalBound(max: int, window: int, store: Backend, clock: int, events: seq<Event>, a: int, n: nat)
    requires Sane(max, window)
    requires Orderly(Limiter.FixedWindow(max, window), clock, events, SECOND + 1)
    ensures AdmittedIn(events, Run(Limiter.FixedWindow(max, window), store, None, events), a, a + n * window)
         <= (n + 1) * max - 1 + max * ClearsIn(events, a, a + n * window) + FailedIn(events, a, a + n * window)
  {
    var b := a + n * window;
    RoomOf(max, window, a, b, n);
    assert (n + 1) * max == n * max + max;
    RoomBounds(max, window, store, clock, events, a, b, (n + 1) * max - 1, max as real, max * ClearsIn(events, a, b));
  }

  lemma RoomBounds(max: int, window: int, store: Backend, clock: int, events: seq<Event>, a: int, b: int, most: int,
                   clear: real, charge: int)
    requires Sane(max, window) && a <= b && most == Room(max, window, a, b) + max - 1
    requires clear == max as real && charge == max * ClearsIn(events, a, b)
    requires Orderly(Limiter.FixedWindow(max, window), clock, events, SECOND + 1)
    ensures AdmittedIn(events, Run(Limiter.FixedWindow(max, window), store, None, events), a, b)
         <= most + charge + FailedIn(events, a, b)
  {
    var lim, stall := Limiter.FixedWindow(max, window), SECOND + 1;
    var valid := (cell: Cell, k: int) => Valid(max, window, cell, k);
    var potential := (cell: Cell, k: int) => Potential(max, window, cell, k, a, b, most) as real;
    forall cell, k, e
      ensures Pays(lim, store, stall, valid, potential, clear, a, b, cell, k, e)
    {
      if Valid(max, window, cell, k) && InOrder(lim, k, e, stall) {
        StepPays(max, window, store, cell, k, e, a, b, most);
      }
    }
    forall cell, k | valid(cell, k)
      ensures 0.0 <= potential(cell, k)
    {
      WaitingPays(max, window, cell, k, k, a, b, most);
    }
    Amortize(lim, store, stall, valid, potential, clear, a, b, None, clock, events);
    WholeCharge(max, events, a, b);
    RoomShrinks(max, window, a, Max(a, clock), b);
  }

  lemma WaitingPays(max: int, window: int, cell: Cell, clock: int, later: int, a: int, b: int, most: int)
    requires Sane(max, window) && a <= b && most == Room(max, window, a, b) + max - 1
    requires Valid(max, window, cell, clock) && clock <= later
    ensures 0 <= Potential(max, window, cell, later, a, b, most) <= Potential(max, window, cell, clock, a, b, most)
  {
    RoomShrinks(max, window, a, Max(a, later), b);
    RoomShrinks(max, window, clock, later, b);
    if Open(cell, clock) {
      var end := cell.value.value.windowEnd;
      RoomShrinks(max, window, a, Max(a, end), b);
      RoomShrinks(max, window, end, Max(end, later), b);
    }
  }

  /** A call at now, whose Set follows later, pays for itself. */
  lemma CallPays(max: int, window: int, cell: Cell, next: Cell, now: int, later: int, a: int, b: int, most: int)
    requires Sane(max, window) && a <= b && most == Room(max, window, a, b) + max - 1
    requires Valid(max, window, cell, now) && Valid(max, window, next, now) && now <= later && next.Some?
    requires
      var FixedState(count, end) := Current(window, cell, now);
      next.value.value == FixedState(if count < max then count + 1 else count, end)
    ensures One(a <= now < b && Current(window, cell, now).count < max)
            + Potential(max, window, next, later, a, b, most)
         <= Potential(max, window, cell, now, a, b, most)
  {
    WaitingPays(max, window, next, now, later, a, b, most);
  }

  lemma StepPays(max: int, window: int, store: Backend, cell: Cell, clock: int, e: Event, a: int, b: int, most: int)
    requires Sane(max, window) && a <= b && most == Room(max, window, a, b) + max - 1
    requires Valid(max, window, cell, clock) && InOrder(Limiter.FixedWindow(max, window), clock, e, SECOND + 1)
    ensures
      var (next, reply) := Step(Limiter.FixedWindow(max, window), store, cell, e);
      && Valid(max, window, next, End(e))
      && One(CallIn(e, a, b) && Grants(reply)) + Potential(max, window, next, End(e), a, b, most)
         <= Potential(max, window, cell, clock, a, b, most)
            + (if Clears(e) && a <= Start(e) < b then max else 0) + One(CallIn(e, a, b) && !Succeeds(e))
  {
    var next := Step(Limiter.FixedWindow(max, window), store, cell, e).0;
    WaitingPays(max, window, cell, clock, Start(e), a, b, most);
    WaitingPays(max, window, cell, clock, End(e), a, b, most);
    if Succeeds(e) {
      CallCounts(max, window, store, cell, clock, e.r);
      CallPays(max, window, cell, next, e.r.now, e.r.setAt, a, b, most);
    } else if Clears(e) {
      ClearingPays(max, window, cell, e.at, a, b, most);
    }
  }

  lemma ClearingPays(max: int, window: int, cell: Cell, at: int, a: int, b: int, most: int)
    requires Sane(max, window) && Valid(max, window, cell, at)
    ensures forall empty: Cell | empty.None? || !empty.value.value.FixedState? ::
      Potential(max, window, empty, at, a, b, most)
      <= Potential(max, window, cell, at, a, b, most) + if a <= at < b then max else 0
  {
    if a <= at < b && Open(cell, at) {
      RoomShrinks(max, window, cell.value.value.windowEnd, at + window, b);
    }
  }

  // What one window admits

  /** How many of the events are calls whose store accesses succeed: the only ones that count. */
  function Counting(events: seq<Event>): nat {
    if events == [] then 0 else One(Succeeds(events[0])) + Counting(events[1..])
  }

  /** How many are calls let through because a store access failed. */
  function FailOpen(events: seq<Event>): nat {
    if events == [] then 0 else One(events[0].Call? && !Succeeds(events[0])) + FailOpen(events[1..])
  }

  /** Events that fall into one window, opened by the first of them: sweeps and failing calls may come in between. */
  ghost predicate InOneWindow(window: int, cell: Cell, events: seq<Event>) {
    && events != [] && Succeeds(events[0]) && !Open(cell, Start(events[0]))
    && forall i | 0 <= i < |events| :: !Clears(events[i]) && Start(events[i]) < Start(events[0]) + window
  }

  /** With `before` of them already, the first max calls that count are granted. */
  predicate GrantsFirst(max: int, before: nat, events: seq<Event>, replies: seq<Reply>)
    requires |events| == |replies|
    decreases events
  {
    events == [] ||
    (&& (Succeeds(events[0]) ==> replies[0] == Decision(before < max, false))
     && GrantsFirst(max, before + One(Succeeds(events[0])), events[1..], replies[1..]))
  }

  lemma {:induction false} GrantedByIndex(max: int, before: nat, events: seq<Event>, replies: seq<Reply>, i: nat)
    requires |events| == |replies| && GrantsFirst(max, before, events, replies) && i < |events| && Succeeds(events[i])
    ensures replies[i] == Decision(before + Counting(events[..i]) < max, false)
    decreases events
  {
    if i > 0 {
      assert events[..i][1..] == events[1..][..i - 1];
      GrantedByIndex(max, before + One(Succeeds(events[0])), events[1..], replies[1..], i - 1);
    }
  }

  /** Of the calls that count in one window the first max are granted and no others; so the window admits the smaller
      of their number and max, besides those let through because the store failed. */
  lemma WindowAdmitsTheFirst(max: int, window: int, store: Backend, cell: Cell, clock: int, events: seq<Event>)
    requires Sane(max, window) && Valid(max, window, cell, clock) && InOneWindow(window, cell, events)
    requires Orderly(Limiter.FixedWindow(max, window), clock, events, SECOND + 1)
    ensures
      var replies := Run(Limiter.FixedWindow(max, window), store, cell, events);
      && (forall i | 0 <= i < |events| && Succeeds(events[i]) ::
            replies[i] == Decision(Counting(events[..i]) < max, false))
      && Admitted(replies) == Least(Counting(events), max) + FailOpen(events)
  {
    var lim, e, rest := Limiter.FixedWindow(max, window), events[0], events[1..];
    CallCounts(max, window, store, cell, clock, e.r);
    CallsCount(max, window, store, Step(lim, store, cell, e).0, End(e), rest, 1, Start(e) + window);
    var replies := Run(lim, store, cell, events);
    assert GrantsFirst(max, 0, events, replies);
    forall i | 0 <= i < |events| && Succeeds(events[i])
      ensures replies[i] == Decision(Counting(events[..i]) < max, false)
    {
      GrantedByIndex(max, 0, events, replies, i);
    }
  }

  lemma {:induction false} CallsCount(max: int, window: int, store: Backend, cell: Cell, clock: int, events: seq<Event>,
                                      before: nat, end: int)
    requires Sane(max, window) && Valid(max, window, cell, clock)
    requires Orderly(Limiter.FixedWindow(max, window), clock, events, SECOND + 1)
    requires forall i | 0 <= i < |events| :: !Clears(events[i]) && Start(events[i]) < end
    requires cell.Some? && cell.value.value == FixedState(Least(before, max), end)
    ensures
      var replies := Run(Limiter.FixedWindow(max, window), store, cell, events);
      && GrantsFirst(max, before, events, replies)
      && Admitted(replies) == Least(before + Counting(events), max) - Least(before, max) + FailOpen(events)
    decreases events
  {
    if events != [] {
      var e, rest := events[0], events[1..];
      var next := Step(Limiter.FixedWindow(max, window), store, cell, e).0;
      if Succeeds(e) {
        CallCounts(max, window, store, cell, clock, e.r);
      }
      CallsCount(max, window, store, next, End(e), rest, before + One(Succeeds(e)), end);
    }
  }

  // The bound is reached

  /** One call opens a window, max - 1 more follow an instant later, and a burst of max opens each further window. */
  function Crowd(max: int, window: int, n: nat): seq<Event>
    requires Sane(max, window)
  {
    if n == 0 then Burst(0, 1) + Burst(1, max - 1) else Crowd(max, window, n - 1) + Burst(n * window, max)
  }

  /** For every n some run does let (n+1)*max - 1 calls through in n window lengths. */
  lemma BoundIsReached(max: int, window: int, store: Backend, n: nat)
    requires Sane(max, window) && 2 <= window && 0 < n
    ensures Orderly(Limiter.FixedWindow(max, window), 0, Crowd(max, window, n), 0)
    ensures AdmittedIn(Crowd(max, window, n), Run(Limiter.FixedWindow(max, window), store, None, Crowd(max, window, n)),
                       1, 1 + n * window) == (n + 1) * max - 1
  {
    CrowdEnters(max, window, store, n, 1 + n * window);
    assert n * window >= window;
  }

  lemma {:induction false} CrowdEnters(max: int, window: int, store: Backend, n: nat, y: int)
    requires Sane(max, window) && 2 <= window && n * window < y && 1 < y
    ensures
      var lim, events := Limiter.FixedWindow(max, window), Crowd(max, window, n);
      && Orderly(lim, 0, events, 0) && Clock(0, events) <= Max(1, n * window)
      && AdmittedIn(events, Run(lim, store, None, events), 1, y) == (n + 1) * max - 1
      && Valid(max, window, After(lim, store, None, events), Max(1, n * window))
      && !Open(After(lim, store, None, events), (n + 1) * window)
  {
    if n == 0 {
      CrowdOpens(max, window, store, y);
    } else {
      var lim, t, before := Limiter.FixedWindow(max, window), n * window, Crowd(max, window, n - 1);
      assert (n - 1) * window == t - window && (n + 1) * window == t + window && window <= t by {
        Multiples(n, window);
      }
      assert (n + 1) * max - 1 == n * max - 1 + max;
      CrowdEnters(max, window, store, n - 1, y);
      CrowdGrows(max, window, store, before, t, y);
    }
  }

  lemma Multiples(n: nat, x: int)
    requires 0 < n && 0 < x
    ensures (n - 1) * x == n * x - x && (n + 1) * x == n * x + x && x <= n * x
  {
    assert 0 <= (n - 1) * x;
  }

  /** A burst at the end of a full window is admitted entirely. */
  lemma CrowdGrows(max: int, window: int, store: Backend, before: seq<Event>, t: int, y: int)
    requires
      var lim := Limiter.FixedWindow(max, window);
      && Sane(max, window) && 1 <= t < y && Orderly(lim, 0, before, 0) && Clock(0, before) <= t
      && Valid(max, window, After(lim, store, None, before), t) && !Open(After(lim, store, None, before), t)
    ensures
      var lim, events := Limiter.FixedWindow(max, window), before + Burst(t, max);
      && Orderly(lim, 0, events, 0) && Clock(0, events) == t
      && AdmittedIn(events, Run(lim, store, None, events), 1, y)
         == AdmittedIn(before, Run(lim, store, None, before), 1, y) + max
      && Valid(max, window, After(lim, store, None, events), t)
      && !Open(After(lim, store, None, events), t + window)
  {
    var lim := Limiter.FixedWindow(max, window);
    BurstIsOrderly(lim, Clock(0, before), t, max, 0);
    OrderlyConcat(lim, 0, before, Burst(t, max), 0);
    BurstEnters(max, window, store, After(lim, store, None, before), t, max, 1, y);
    Joined(lim, store, before, Burst(t, max), 1, y);
  }

  lemma CrowdOpens(max: int, window: int, store: Backend, y: int)
    requires Sane(max, window) && 2 <= window && 1 < y
    ensures
      var lim, events := Limiter.FixedWindow(max, window), Crowd(max, window, 0);
      && Orderly(lim, 0, events, 0) && Clock(0, events) <= 1
      && AdmittedIn(events, Run(lim, store, None, events), 1, y) == max - 1
      && Valid(max, window, After(lim, store, None, events), 1)
      && !Open(After(lim, store, None, events), window)
  {
    var lim := Limiter.FixedWindow(max, window);
    BurstIsOrderly(lim, 0, 0, 1, 0);
    BurstIsOrderly(lim, 0, 1, max - 1, 0);
    OrderlyConcat(lim, 0, Burst(0, 1), Burst(1, max - 1), 0);
    BurstEnters(max, window, store, None, 0, 1, 1, y);
    BurstEnters(max, window, store, After(lim, store, None, Burst(0, 1)), 1, max - 1, 1, y);
    Joined(lim, store, Burst(0, 1), Burst(1, max - 1), 1, y);
  }

  lemma Joined(lim: Limiter, store: Backend, xs: seq<Event>, ys: seq<Event>, a: int, b: int)
    requires Divides(lim)
    ensures After(lim, store, None, xs + ys) == After(lim, store, After(lim, store, None, xs), ys)
    ensures AdmittedIn(xs + ys, Run(lim, store, None, xs + ys), a, b)
         == AdmittedIn(xs, Run(lim, store, None, xs), a, b)
            + AdmittedIn(ys, Run(lim, store, After(lim, store, None, xs), ys), a, b)
  {
    RunConcat(lim, store, None, xs, ys);
    AdmittedConcat(xs, Run(lim, store, None, xs), ys, Run(lim, store, After(lim, store, None, xs), ys), a, b);
  }

  /** A burst that fits into the current window is admitted entirely. */
  lemma {:induction false} BurstEnters(max: int, window: int, store: Backend, cell: Cell, t: int, n: nat, a: int,
                                       b: int)
    requires Sane(max, window) && Valid(max, window, cell, t) && Current(window, cell, t).count + n <= max
    ensures
      var lim := Limiter.FixedWindow(max, window);
      var FixedState(count, end) := Current(window, cell, t);
      var after := After(lim, store, cell, Burst(t, n));
      && Valid(max, window, after, t)
      && (n == 0 ==> after == cell)
      && (n > 0 ==> after.Some? && after.value.value == FixedState(count + n, end))
      && AdmittedIn(Burst(t, n), Run(lim, store, cell, Burst(t, n)), a, b) == if a <= t < b then n else 0
  {
    if n > 0 {
      var lim := Limiter.FixedWindow(max, window);
      var before := After(lim, store, cell, Burst(t, n - 1));
      BurstEnters(max, window, store, cell, t, n - 1, a, b);
      CallCounts(max, window, store, before, t, CallAt(t).r);
      RunConcat(lim, store, cell, Burst(t, n - 1), [CallAt(t)]);
      AdmittedConcat(Burst(t, n - 1), Run(lim, store, cell, Burst(t, n - 1)), [CallAt(t)],
                     Run(lim, store, before, [CallAt(t)]), a, b);
    }
  }

  /** A burst is admitted as far as the current window has room. */
  lemma {:induction false} BurstAdmits(max: int, window: int, store: Backend, cell: Cell, t: int, n: nat)
    requires Sane(max, window) && Valid(max, window, cell, t)
    ensures
      var lim := Limiter.FixedWindow(max, window);
      var FixedState(count, end) := Current(window, cell, t);
      var after := After(lim, store, cell, Burst(t, n));
      && Admitted(Run(lim, store, cell, Burst(t, n))) == Least(n, max - count)
      && Valid(max, window, after, t)
      && (n == 0 ==> after == cell)
      && (n > 0 ==> after.Some? && after.value.value == FixedState(Least(count + n, max), end))
  {
    if n > 0 {
      var lim := Limiter.FixedWindow(max, window);
      var before := After(lim, store, cell, Burst(t, n - 1));
      BurstAdmits(max, window, store, cell, t, n - 1);
      CallCounts(max, window, store, before, t, CallAt(t).r);
      RunConcat(lim, store, cell, Burst(t, n - 1), [CallAt(t)]);
      BurstAdmitsLast(lim, store, cell, t, n);
    }
  }

  /** Of max calls that come after max calls, none is admitted before the window is over, and all are from then on. */
  lemma SecondWindowful(max: nat, window: int, store: Backend, t: int, later: int)
    requires Sane(max, window) && t <= later
    ensures
      var lim := Limiter.FixedWindow(max, window);
      && Admitted(Run(lim, store, None, Burst(t, max))) == max
      && Admitted(Run(lim, store, After(lim, store, None, Burst(t, max)), Burst(later, max)))
         == if later < t + window then 0 else max
  {
    BurstAdmits(max, window, store, None, t, max);
    BurstAdmits(max, window, store, After(Limiter.FixedWindow(max, window), store, None, Burst(t, max)), later, max);
  }

  // Expiry

  /** Expiry changes no reply, in any run, exactly as long as no call stalls beyond the TTL's extra second and a
      nanosecond. */
  lemma StallBoundIsExact(max: int, window: int, store: Backend, stall: nat)
    requires Sane(max, window) && !store.Eternal?
    ensures stall <= SECOND + 1
       <==> forall clock, events | Orderly(Limiter.FixedWindow(max, window), clock, events, stall) ::
              Run(Limiter.FixedWindow(max, window), store, None, events)
              == Run(Limiter.FixedWindow(max, window), Eternal, None, events)
  {
    var lim := Limiter.FixedWindow(max, window);
    if stall <= SECOND + 1 {
      forall clock, events | Orderly(lim, clock, events, stall)
        ensures Run(lim, store, None, events) == Run(lim, Eternal, None, events)
      {
        OrderlyWeaken(lim, clock, events, stall, SECOND + 1);
        ForgettingIsHarmless(max, window, store, None, None, clock, events);
      }
    } else {
      var late := window + SECOND + 1;
      var stalled := Call(Reading(window - 1, late, late, late, true, true));
      BurstIsOrderly(lim, 0, 0, max, stall);
      OrderlyConcat(lim, 0, Burst(0, max), [stalled], stall);
      StalledCallDisagrees(max, window, store);
    }
  }

  ghost predicate Forgets(max: int, window: int, c1: Cell, c2: Cell, clock: int) {
    && Valid(max, window, c1, clock) && Valid(max, window, c2, clock)
    && (c2.Some? ==> c2.value.expiration == None)
    && (c1.Some? ==> c2.Some? && c1.value.value == c2.value.value)
    && (c1.None? && c2.Some? && c2.value.value.FixedState? ==> c2.value.value.windowEnd <= clock)
  }

  lemma {:induction false} ForgettingIsHarmless(max: int, window: int, store: Backend, c1: Cell, c2: Cell, clock: int,
                                                events: seq<Event>)
    requires Sane(max, window) && Forgets(max, window, c1, c2, clock)
    requires Orderly(Limiter.FixedWindow(max, window), clock, events, SECOND + 1)
    ensures Run(Limiter.FixedWindow(max, window), store, c1, events)
         == Run(Limiter.FixedWindow(max, window), Eternal, c2, events)
    decreases events
  {
    if events != [] {
      var lim, e := Limiter.FixedWindow(max, window), events[0];
      ForgetfulStepAgrees(max, window, store, c1, c2, clock, e);
      ForgettingIsHarmless(max, window, store, Step(lim, store, c1, e).0, Step(lim, Eternal, c2, e).0, End(e),
                           events[1..]);
    }
  }

  lemma ForgetfulStepAgrees(max: int, window: int, store: Backend, c1: Cell, c2: Cell, clock: int, e: Event)
    requires Sane(max, window) && Forgets(max, window, c1, c2, clock)
    requires InOrder(Limiter.FixedWindow(max, window), clock, e, SECOND + 1)
    ensures
      var lim := Limiter.FixedWindow(max, window);
      && Step(lim, store, c1, e).1 == Step(lim, Eternal, c2, e).1
      && Forgets(max, window, Step(lim, store, c1, e).0, Step(lim, Eternal, c2, e).0, End(e))
  {
    if Succeeds(e) {
      CallCounts(max, window, store, c1, clock, e.r);
      CallCounts(max, window, Eternal, c2, clock, e.r);
    }
  }

  /** A call that reads its clock inside a full window and reaches the store after the entry expired. */
  lemma StalledCallDisagrees(max: int, window: int, store: Backend)
    requires Sane(max, window) && !store.Eternal?
    ensures
      var lim, late := Limiter.FixedWindow(max, window), window + SECOND + 1;
      var events := Burst(0, max) + [Call(Reading(window - 1, late, late, late, true, true))];
      && Run(lim, store, None, events)[max] == Decision(true, false)
      && Run(lim, Eternal, None, events)[max] == Decision(false, false)
  {
    var lim, late := Limiter.FixedWindow(max, window), window + SECOND + 1;
    var stalled := Call(Reading(window - 1, late, late, late, true, true));
    forall b: Backend
      ensures Run(lim, b, None, Burst(0, max) + [stalled])[max] == Step(lim, b, FullWindow(b, max, window), stalled).1
    {
      BurstFills(max, window, b, max);
      RunConcat(lim, b, None, Burst(0, max), [stalled]);
    }
    assert Visible(FullWindow(store, max, window), late) == None;
    assert Visible(FullWindow(Eternal, max, window), late) == Some(FixedState(max, window));
  }

  function FullWindow(b: Backend, count: int, window: int): Cell {
    Some(StorageValue(FixedState(count, window), ExpirationOf(b, 0, window + SECOND)))
  }

  lemma {:induction false} BurstFills(max: int, window: int, b: Backend, n: nat)
    requires Sane(max, window) && 0 < n <= max
    ensures After(Limiter.FixedWindow(max, window), b, None, Burst(0, n)) == FullWindow(b, n, window)
  {
    var lim := Limiter.FixedWindow(max, window);
    RunConcat(lim, b, None, Burst(0, n - 1), [CallAt(0)]);
    if n > 1 {
      BurstFills(max, window, b, n - 1);
      assert Visible(FullWindow(b, n - 1, window), 0) == Some(FixedState(n - 1, window));
    }
  }
}
