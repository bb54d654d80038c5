/** internal/limiter/sliding_window.go, and what it guarantees over whole runs. */
module SlidingWindows {
  import opened Prelude
  import opened Storage
  import opened Limiters

  class SlidingWindow {
    const store: Store
    const maxRequests: int
    const windowDuration: int

    constructor (store: Store, maxRequests: int, windowDuration: int)
      ensures this.store == store && Params() == Limiter.SlidingWindow(maxRequests, windowDuration)
    {
      this.store, this.maxRequests, this.windowDuration := store, maxRequests, windowDuration;
    }

    function Params(): Limiter {
      Limiter.SlidingWindow(maxRequests, windowDuration)
    }

    static function StateKey(key: string): string {
      "limiter:sliding_window:" + key
    }

    method Allow(key: string, r: Reading) returns (allowed: bool, failed: bool)
      modifies store`data
      ensures
        var (cell, reply) := Limiters.Allow(Params(), store.backend, Lookup(old(store.data), StateKey(key)), r);
        store.data == Put(old(store.data), StateKey(key), cell) && reply == Decision(allowed, failed)
    {
      var stateKey := StateKey(key);
      if !r.getOk {
        return true, true;
      }
      var stateStr := store.Get(stateKey, r.getAt);
      var timestamps: seq<int> := [];
      if stateStr.Some? && stateStr.value.SlidingState? {  // otherwise missing or unreadable
        timestamps := stateStr.value.timestamps;
      }
      var windowStart := r.now - windowDuration;
      var validStartIdx := |timestamps|;
      for i := 0 to |timestamps|
        invariant validStartIdx == |timestamps|
        invariant i <= |timestamps|
        invariant forall j | 0 <= j < i :: timestamps[j] <= windowStart
      {
        if timestamps[i] > windowStart {
          validStartIdx := i;
          break;
        }
      }
      PruneAt(timestamps, windowStart, validStartIdx);
      var filtered := timestamps[validStartIdx..];
      allowed := |filtered| < maxRequests;
      if allowed {
        filtered := filtered + [r.now];
      }
      if !r.setOk {
        return true, true;
      }
      store.Set(stateKey, SlidingState(filtered), windowDuration + SECOND, r.setAt);
      failed := false;
    }

    method Reset(key: string, ok: bool) returns (failed: bool)
      modifies store
      ensures failed == !ok
      ensures store.data
           == Put(old(store.data), StateKey(key), if ok then None else Lookup(old(store.data), StateKey(key)))
    {
      if ok {
        store.Delete(StateKey(key));
      }
      failed := !ok;
    }
  }

  lemma {:induction false} PruneAt(timestamps: seq<int>, windowStart: int, first: nat)
    requires first <= |timestamps| && forall j | 0 <= j < first :: timestamps[j] <= windowStart
    requires first < |timestamps| ==> timestamps[first] > windowStart
    ensures Prune(timestamps, windowStart) == timestamps[first..]
  {
    if first > 0 {
      PruneAt(timestamps[1..], windowStart, first - 1);
    }
  }

  // The specification: a log of every admission since the last reset, from which nothing is ever pruned.

  /** How many entries of the log lie in [a, b). */
  function CountIn(log: seq<int>, a: int, b: int): nat {
    if log == [] then 0 else CountIn(log[..|log| - 1], a, b) + One(a <= log[|log| - 1] < b)
  }

  /** A call at now is let through iff fewer than max logged admissions lie in (now - window, now]. */
  function LogStep(max: int, window: int, log: seq<int>, e: Event): (seq<int>, Reply) {
    match e
    case Call(r) =>
      if !(r.getOk && r.setOk) then (log, Decision(true, true))
      else if CountIn(log, r.now - window + 1, r.now + 1) < max then (log + [r.now], Decision(true, false))
      else (log, Decision(false, false))
    case Reset(_, ok) => (if ok then [] else log, NoReply)
    case Sweep(_) => (log, NoReply)
    case Corrupt(_) => ([], NoReply)
  }

  function LogRun(max: int, window: int, log: seq<int>, events: seq<Event>): (replies: seq<Reply>)
    ensures |replies| == |events|
    decreases events
  {
    if events == [] then []
    else
      var (next, reply) := LogStep(max, window, log, events[0]);
      [reply] + LogRun(max, window, next, events[1..])
  }

  function LogAfter(max: int, window: int, log: seq<int>, events: seq<Event>): seq<int>
    decreases events
  {
    if events == [] then log else LogAfter(max, window, LogStep(max, window, log, events[0]).0, events[1..])
  }

  // Refinement

  ghost predicate Sorted(log: seq<int>, clock: int) {
    && (forall i, j | 0 <= i < j < |log| :: log[i] <= log[j])
    && (forall i | 0 <= i < |log| :: log[i] <= clock)
  }

  /** An entry that may vanish at `expiration` was logged long enough before. */
  ghost predicate Outlived(log: seq<int>, window: int, expiration: Option<int>) {
    expiration.Some? ==> forall i | 0 <= i < |log| :: log[i] + window + SECOND <= expiration.value
  }

  /** The stored list is the log without a prefix that no later window can reach. */
  ghost predicate Refines(window: int, cell: Cell, log: seq<int>, clock: int) {
    && Sorted(log, clock)
    && if cell.None? then forall i | 0 <= i < |log| :: log[i] + window + SECOND < clock
       else if cell.value.value.SlidingState? then
         && Outlived(log, window, cell.value.expiration)
         && IsTail(window, cell.value.value.timestamps, log, clock)
       else cell.value.value == UNREADABLE && log == []
  }

  /** kept is a suffix of the log, and nothing before it is inside the window that ends at now. */
  ghost predicate IsTail(window: int, kept: seq<int>, log: seq<int>, now: int) {
    && |kept| <= |log| && kept == log[|log| - |kept|..]
    && forall i | 0 <= i < |log| - |kept| :: log[i] <= now - window
  }

  /** The limiter's replies are those of the unbounded log, in every run: with resets, corruption, sweeps,
      expiry and failing stores, as long as no call stalls longer than the TTL's extra second (and a
      nanosecond) between reading its clock and reaching the store. */
  lemma ExactRefinement(max: int, window: int, b: Backend, clock: int, events: seq<Event>)
    requires Orderly(Limiter.SlidingWindow(max, window), clock, events, SECOND + 1)
    ensures Run(Limiter.SlidingWindow(max, window), b, None, events) == LogRun(max, window, [], events)
  {
    RefinesThroughout(max, window, b, None, [], clock, events);
  }

  lemma {:induction false} RefinesThroughout(max: int, window: int, b: Backend, cell: Cell, log: seq<int>, clock: int,
                                             events: seq<Event>)
    requires Orderly(Limiter.SlidingWindow(max, window), clock, events, SECOND + 1)
    requires Refines(window, cell, log, clock)
    ensures Run(Limiter.SlidingWindow(max, window), b, cell, events) == LogRun(max, window, log, events)
    ensures Refines(window, After(Limiter.SlidingWindow(max, window), b, cell, events),
                    LogAfter(max, window, log, events), Clock(clock, events))
    decreases events
  {
    if events != [] {
      var e, lim := events[0], Limiter.SlidingWindow(max, window);
      StepRefines(max, window, b, cell, log, clock, e);
      RefinesThroughout(max, window, b, Step(lim, b, cell, e).0, LogStep(max, window, log, e).0, End(e), events[1..]);
    }
  }

  lemma StepRefines(max: int, window: int, b: Backend, cell: Cell, log: seq<int>, clock: int, e: Event)
    requires InOrder(Limiter.SlidingWindow(max, window), clock, e, SECOND + 1)
    requires Refines(window, cell, log, clock)
    ensures
      var (next, reply) := Step(Limiter.SlidingWindow(max, window), b, cell, e);
      var (nextLog, logReply) := LogStep(max, window, log, e);
      reply == logReply && Refines(window, next, nextLog, End(e))
  {
    if e.Call? && Succeeds(e) {
      CallRefines(max, window, b, cell, log, clock, e.r);
    }
  }

  lemma CallRefines(max: int, window: int, b: Backend, cell: Cell, log: seq<int>, clock: int, r: Reading)
    requires r.getOk && r.setOk && clock <= r.now <= r.getAt <= r.setAt && r.getAt <= r.now + SECOND + 1
    requires Refines(window, cell, log, clock)
    ensures
      var (next, reply) := Allow(Limiter.SlidingWindow(max, window), b, cell, r);
      var (nextLog, logReply) := LogStep(max, window, log, Call(r));
      reply == logReply && Refines(window, next, nextLog, r.setAt)
  {
    var seen := Visible(cell, r.getAt);
    var kept := Prune(Timestamps(seen), r.now - window);
    var expiration := ExpirationOf(b, r.setAt, window + SECOND);
    WriteRefines(window, cell, log, clock, r, expiration);
    AllowWrites(max, window, b, cell, r);
    LogWrites(max, window, log, r, |kept|);
  }

  lemma LogWrites(max: int, window: int, log: seq<int>, r: Reading, n: nat)
    requires r.getOk && r.setOk && n == CountIn(log, r.now - window + 1, r.now + 1)
    ensures LogStep(max, window, log, Call(r)) == (if n < max then log + [r.now] else log, Decision(n < max, false))
  {
  }

  lemma AllowWrites(max: int, window: int, b: Backend, cell: Cell, r: Reading)
    requires r.getOk && r.setOk
    ensures
      var kept := Prune(Timestamps(Visible(cell, r.getAt)), r.now - window);
      Allow(Limiter.SlidingWindow(max, window), b, cell, r)
      == (Some(StorageValue(SlidingState(if |kept| < max then kept + [r.now] else kept),
                            ExpirationOf(b, r.setAt, window + SECOND))),
          Decision(|kept| < max, false))
  {
  }

  /** Whatever Get returns, everything it lacks of the log is already outside the window. */
  lemma SeenIsTail(window: int, cell: Cell, log: seq<int>, clock: int, r: Reading)
    requires Refines(window, cell, log, clock)
    requires clock <= r.now <= r.getAt <= r.now + SECOND + 1
    ensures IsTail(window, Timestamps(Visible(cell, r.getAt)), log, r.now)
  {
  }

  /** The scan keeps exactly the logged entries inside the window. */
  lemma KeptIsTail(window: int, log: seq<int>, timestamps: seq<int>, now: int)
    requires Sorted(log, now) && IsTail(window, timestamps, log, now)
    ensures IsTail(window, Prune(timestamps, now - window), log, now)
    ensures CountIn(log, now - window + 1, now + 1) == |Prune(timestamps, now - window)|
  {
    if timestamps == [] || timestamps[0] > now - window {
      CountSuffix(log, |log| - |timestamps|, now - window + 1, now + 1);
    } else {
      assert timestamps[1..] == log[|log| - |timestamps| + 1..];
      KeptIsTail(window, log, timestamps[1..], now);
    }
  }

  lemma WriteRefines(window: int, cell: Cell, log: seq<int>, clock: int, r: Reading, expiration: Option<int>)
    requires Refines(window, cell, log, clock)
    requires clock <= r.now <= r.getAt <= r.setAt && r.getAt <= r.now + SECOND + 1
    requires expiration.Some? ==> expiration.value == r.setAt + window + SECOND
    ensures
      var kept := Prune(Timestamps(Visible(cell, r.getAt)), r.now - window);
      && CountIn(log, r.now - window + 1, r.now + 1) == |kept|
      && Refines(window, Some(StorageValue(SlidingState(kept), expiration)), log, r.setAt)
      && Refines(window, Some(StorageValue(SlidingState(kept + [r.now]), expiration)), log + [r.now], r.setAt)
  {
    var seen := Timestamps(Visible(cell, r.getAt));
    assert Sorted(log, r.now);
    SeenIsTail(window, cell, log, clock, r);
    KeptIsTail(window, log, seen, r.now);
    TailRefines(window, log, Prune(seen, r.now - window), r, expiration);
  }

  lemma TailRefines(window: int, log: seq<int>, kept: seq<int>, r: Reading, expiration: Option<int>)
    requires Sorted(log, r.now) && r.now <= r.setAt && IsTail(window, kept, log, r.now)
    requires expiration.Some? ==> expiration.value == r.setAt + window + SECOND
    ensures Refines(window, Some(StorageValue(SlidingState(kept), expiration)), log, r.setAt)
    ensures Refines(window, Some(StorageValue(SlidingState(kept + [r.now]), expiration)), log + [r.now], r.setAt)
  {
    var longer := log + [r.now];
    assert kept + [r.now] == longer[|longer| - |kept + [r.now]|..];
  }

  lemma {:induction false} CountSuffix(log: seq<int>, cut: nat, a: int, b: int)
    requires cut <= |log|
    requires forall i | 0 <= i < |log| :: cut <= i <==> a <= log[i] < b
    ensures CountIn(log, a, b) == |log| - cut
  {
    if log != [] {
      CountSuffix(log[..|log| - 1], if cut == |log| then cut - 1 else cut, a, b);
    }
  }

  // How much any window admits

  /** In every run, any interval no longer than the window lets through at most max calls, plus one for every
      call whose store failed, plus max more for every reset or corruption in it. */
  lemma WindowBound(max: int, window: int, backend: Backend, clock: int, events: seq<Event>, a: int, b: int)
    requires Orderly(Limiter.SlidingWindow(max, window), clock, events, SECOND + 1) && b <= a + window
    ensures AdmittedIn(events, Run(Limiter.SlidingWindow(max, window), backend, None, events), a, b)
         <= Max(0, max) * (1 + ClearsIn(events, a, b)) + FailedIn(events, a, b)
  {
    ExactRefinement(max, window, backend, clock, events);
    LogWindowBound(max, window, [], clock, events, a, b);
  }

  lemma {:induction false} LogWindowBound(max: int, window: int, log: seq<int>, clock: int, events: seq<Event>, a: int,
                                          b: int)
    requires Orderly(Limiter.SlidingWindow(max, window), clock, events, SECOND + 1) && b <= a + window
    requires (forall i | 0 <= i < |log| :: log[i] <= clock) && CountIn(log, a, b) <= Max(0, max)
    ensures AdmittedIn(events, LogRun(max, window, log, events), a, b) + CountIn(log, a, b)
         <= Max(0, max) * (1 + ClearsIn(events, a, b)) + FailedIn(events, a, b)
    decreases events
  {
    if events == [] {
      return;
    }
    var e, rest, next := events[0], events[1..], LogStep(max, window, log, events[0]).0;
    StepCounts(max, window, log, clock, e, a, b);
    LogWindowBound(max, window, next, End(e), rest, a, b);
    if Clears(e) && b <= e.at {
      NothingBefore(Limiter.SlidingWindow(max, window), End(e), rest, LogRun(max, window, next, rest), SECOND + 1, a,
                    b);
    } else if Clears(e) && a <= e.at {
      assert Max(0, max) * (1 + (1 + ClearsIn(rest, a, b))) == Max(0, max) * (1 + ClearsIn(rest, a, b)) + Max(0, max);
    }
  }

  /** The next log has that many entries more in [a, b), and still no more than the limit. */
  ghost predicate Grows(max: int, log: seq<int>, next: seq<int>, more: nat, later: int, a: int, b: int) {
    && (forall i | 0 <= i < |next| :: next[i] <= later)
    && CountIn(next, a, b) == CountIn(log, a, b) + more <= Max(0, max)
  }

  /** A step admits no more than it logs, up to a failure; clearing the log costs what was in it. */
  lemma StepCounts(max: int, window: int, log: seq<int>, clock: int, e: Event, a: int, b: int)
    requires InOrder(Limiter.SlidingWindow(max, window), clock, e, SECOND + 1) && b <= a + window
    requires (forall i | 0 <= i < |log| :: log[i] <= clock) && CountIn(log, a, b) <= Max(0, max)
    ensures
      var (next, reply) := LogStep(max, window, log, e);
      if Clears(e) then next == [] && !Grants(reply) && (e.at < a ==> CountIn(log, a, b) == 0)
      else Grows(max, log, next, One(Succeeds(e) && CallIn(e, a, b) && Grants(reply)), End(e), a, b)
  {
    if Succeeds(e) {
      WrittenCounts(max, window, log, clock, e.r, a, b);
    } else if !Clears(e) {
      SameGrows(max, log, clock, End(e), a, b);
    } else if e.at < a {
      CountWithin(log, a, b, 0, 0);
    }
  }

  lemma WrittenCounts(max: int, window: int, log: seq<int>, clock: int, r: Reading, a: int, b: int)
    requires clock <= r.now <= r.setAt && r.getOk && r.setOk && b <= a + window
    requires (forall i | 0 <= i < |log| :: log[i] <= clock) && CountIn(log, a, b) <= Max(0, max)
    ensures
      var (next, reply) := LogStep(max, window, log, Call(r));
      Grows(max, log, next, One(a <= r.now < b && Grants(reply)), r.setAt, a, b)
  {
    var n := CountIn(log, r.now - window + 1, r.now + 1);
    if n < max {
      if a <= r.now < b {
        WindowHasRoom(max, window, log, clock, r.now, a, b);
      }
      AppendGrows(max, log, clock, r.now, r.setAt, a, b);
    } else {
      SameGrows(max, log, clock, r.setAt, a, b);
    }
    LogWrites(max, window, log, r, n);
  }

  lemma AppendGrows(max: int, log: seq<int>, clock: int, now: int, later: int, a: int, b: int)
    requires (forall i | 0 <= i < |log| :: log[i] <= clock) && clock <= now <= later
    requires CountIn(log, a, b) <= Max(0, max) && (a <= now < b ==> CountIn(log, a, b) < max)
    ensures Grows(max, log, log + [now], One(a <= now < b), later, a, b)
  {
    CountAppend(log, now, a, b);
  }

  lemma SameGrows(max: int, log: seq<int>, clock: int, later: int, a: int, b: int)
    requires (forall i | 0 <= i < |log| :: log[i] <= clock) && clock <= later && CountIn(log, a, b) <= Max(0, max)
    ensures Grows(max, log, log, 0, later, a, b)
  {
  }

  lemma WindowHasRoom(max: int, window: int, log: seq<int>, clock: int, now: int, a: int, b: int)
    requires (forall i | 0 <= i < |log| :: log[i] <= clock) && clock <= now && a <= now < b <= a + window
    requires CountIn(log, now - window + 1, now + 1) < max
    ensures CountIn(log, a, b) < max
  {
    CountWithin(log, a, b, now - window + 1, now + 1);
  }

  lemma CountAppend(log: seq<int>, t: int, a: int, b: int)
    ensures CountIn(log + [t], a, b) == CountIn(log, a, b) + One(a <= t < b)
  {
    assert (log + [t])[..|log|] == log;
  }

  lemma {:induction false} CountWithin(log: seq<int>, a: int, b: int, c: int, d: int)
    requires forall i | 0 <= i < |log| && a <= log[i] < b :: c <= log[i] < d
    ensures CountIn(log, a, b) <= CountIn(log, c, d)
    ensures c >= d ==> CountIn(log, a, b) == 0
  {
    if log != [] {
      CountWithin(log[..|log| - 1], a, b, c, d);
    }
  }

  // Optimality

  /** A policy that keeps the documented limit: at most max of the arrivals in any window. */
  ghost predicate Conforms(max: int, window: int, events: seq<Event>, policy: seq<Reply>) {
    IsPolicy(events, policy) && forall a, b | b == a + window :: AdmittedIn(events, policy, a, b) <= max
  }

  /** On every prefix of every run the limiter has admitted at least as many calls as any conforming policy,
      even one that knows the whole run in advance. */
  lemma GreedyIsOptimal(max: int, window: int, backend: Backend, clock: int, events: seq<Event>, policy: seq<Reply>,
                        k: nat)
    requires 0 < window
    requires Orderly(Limiter.SlidingWindow(max, window), clock, events, SECOND + 1)
    requires Conforms(max, window, events, policy) && k <= |events|
    ensures Admitted(policy[..k]) <= Admitted(Run(Limiter.SlidingWindow(max, window), backend, None, events)[..k])
  {
    ExactRefinement(max, window, backend, clock, events);
    PrefixConforms(max, window, clock, events, policy, k);
    LogIsOptimal(max, window, clock, events[..k], policy[..k]);
    LogRunPrefix(max, window, [], events, k);
  }

  lemma {:induction false} LogRunPrefix(max: int, window: int, log: seq<int>, events: seq<Event>, k: nat)
    requires k <= |events|
    ensures LogRun(max, window, log, events[..k]) == LogRun(max, window, log, events)[..k]
    ensures k < |events| ==>
      LogRun(max, window, log, events)[k] == LogStep(max, window, LogAfter(max, window, log, events[..k]), events[k]).1
    decreases k
  {
    if k > 0 {
      assert events[..k][1..] == events[1..][..k - 1];
      LogRunPrefix(max, window, LogStep(max, window, log, events[0]).0, events[1..], k - 1);
    }
  }

  lemma PrefixConforms(max: int, window: int, clock: int, events: seq<Event>, policy: seq<Reply>, k: nat)
    requires Orderly(Limiter.SlidingWindow(max, window), clock, events, SECOND + 1)
    requires Conforms(max, window, events, policy) && k <= |events|
    ensures Orderly(Limiter.SlidingWindow(max, window), clock, events[..k], SECOND + 1)
    ensures Conforms(max, window, events[..k], policy[..k])
  {
    assert events == events[..k] + events[k..] && policy == policy[..k] + policy[k..];
    OrderlyConcat(Limiter.SlidingWindow(max, window), clock, events[..k], events[k..], SECOND + 1);
    forall a, b | b == a + window
      ensures AdmittedIn(events[..k], policy[..k], a, b) <= max
    {
      AdmittedConcat(events[..k], policy[..k], events[k..], policy[k..], a, b);
    }
  }

  lemma {:induction false} LogIsOptimal(max: int, window: int, clock: int, events: seq<Event>, policy: seq<Reply>)
    requires 0 < window
    requires Orderly(Limiter.SlidingWindow(max, window), clock, events, SECOND + 1)
    requires Conforms(max, window, events, policy)
    ensures Admitted(policy) <= Admitted(LogRun(max, window, [], events))
    decreases |events|
  {
    if events == [] {
      return;
    }
    var n := |events| - 1;
    var granted := LogRun(max, window, [], events);
    PrefixConforms(max, window, clock, events, policy, n);
    LogIsOptimal(max, window, clock, events[..n], policy[..n]);
    LogRunPrefix(max, window, [], events, n);
    AdmittedSplit(policy, n);
    AdmittedSplit(granted, n);
    assert policy[n..] == [policy[n]] && granted[n..] == [granted[n]];
    if Grants(policy[n]) && !Grants(granted[n]) {
      DenialIsForced(max, window, clock, events, policy);
    }
  }

  /** The exchange argument: where the log denies a call that a policy takes, the policy is already behind. */
  lemma {:induction false} DenialIsForced(max: int, window: int, clock: int, events: seq<Event>, policy: seq<Reply>)
    requires 0 < window && events != [] && Orderly(Limiter.SlidingWindow(max, window), clock, events, SECOND + 1)
    requires Conforms(max, window, events, policy)
    requires var n := |events| - 1; Grants(policy[n]) && !Grants(LogRun(max, window, [], events)[n])
    ensures var n := |events| - 1; Admitted(policy[..n]) + 1 <= Admitted(LogRun(max, window, [], events)[..n])
    decreases |events|, 0
  {
    var n := |events| - 1;
    var init, chosen, m := events[..n], policy[..n], Cut(events[..n], events[n].r.now - window + 1);
    var granted := LogRun(max, window, [], init);
    assert granted == LogRun(max, window, [], events)[..n] by {
      LogRunPrefix(max, window, [], events, n);
    }
    assert Admitted(chosen[..m]) <= Admitted(granted[..m]) by {
      PrefixConforms(max, window, clock, events, policy, n);
      PrefixConforms(max, window, clock, init, chosen, m);
      LogIsOptimal(max, window, clock, init[..m], chosen[..m]);
      LogRunPrefix(max, window, [], init, m);
    }
    PolicyHasRoom(max, window, clock, events, policy);
    WindowIsFull(max, window, clock, events);
  }

  /** A conforming policy that takes the last call took fewer than max in the window before it. */
  lemma PolicyHasRoom(max: int, window: int, clock: int, events: seq<Event>, policy: seq<Reply>)
    requires 0 < window && events != [] && Orderly(Limiter.SlidingWindow(max, window), clock, events, SECOND + 1)
    requires Conforms(max, window, events, policy) && Grants(policy[|events| - 1])
    ensures var n := |events| - 1;
      Admitted(policy[..n]) < Admitted(policy[..n][..Cut(events[..n], events[n].r.now - window + 1)]) + max
  {
    var n := |events| - 1;
    var init, chosen, t := events[..n], policy[..n], events[n].r.now;
    LastInOrder(max, window, clock, events);
    CutSplits(Limiter.SlidingWindow(max, window), clock, init, SECOND + 1, chosen, t - window + 1, t + 1);
    assert events == init + [events[n]] && policy == chosen + [policy[n]];
    AdmittedConcat(init, chosen, [events[n]], [policy[n]], t - window + 1, t + 1);
  }

  /** The log denies the last call only if it granted max calls in the window before it. */
  lemma WindowIsFull(max: int, window: int, clock: int, events: seq<Event>)
    requires events != [] && Orderly(Limiter.SlidingWindow(max, window), clock, events, SECOND + 1)
    requires var n := |events| - 1; events[n].Call? && !Grants(LogRun(max, window, [], events)[n])
    ensures var n := |events| - 1; var granted := LogRun(max, window, [], events[..n]);
      Admitted(granted[..Cut(events[..n], events[n].r.now - window + 1)]) + max <= Admitted(granted)
  {
    var n := |events| - 1;
    var init, granted, t := events[..n], LogRun(max, window, [], events[..n]), events[n].r.now;
    LastInOrder(max, window, clock, events);
    LogRunPrefix(max, window, [], events, n);
    LogGrantsCallsOnly(max, window, [], init);
    CutSplits(Limiter.SlidingWindow(max, window), clock, init, SECOND + 1, granted, t - window + 1, t + 1);
    LogIsGranted(max, window, [], init, t - window + 1, t + 1);
  }

  lemma LastInOrder(max: int, window: int, clock: int, events: seq<Event>)
    requires events != [] && Orderly(Limiter.SlidingWindow(max, window), clock, events, SECOND + 1)
    ensures var n := |events| - 1;
      && Orderly(Limiter.SlidingWindow(max, window), clock, events[..n], SECOND + 1)
      && Clock(clock, events[..n]) <= Start(events[n])
  {
    var n := |events| - 1;
    assert events == events[..n] + [events[n]];
    OrderlyConcat(Limiter.SlidingWindow(max, window), clock, events[..n], [events[n]], SECOND + 1);
  }

  lemma {:induction false} LogGrantsCallsOnly(max: int, window: int, log: seq<int>, events: seq<Event>)
    ensures IsPolicy(events, LogRun(max, window, log, events))
    decreases events
  {
    if events != [] {
      LogGrantsCallsOnly(max, window, LogStep(max, window, log, events[0]).0, events[1..]);
    }
  }

  /** Every log entry is a granted call. */
  lemma {:induction false} LogIsGranted(max: int, window: int, log: seq<int>, events: seq<Event>, a: int, b: int)
    ensures CountIn(LogAfter(max, window, log, events), a, b)
         <= CountIn(log, a, b) + AdmittedIn(events, LogRun(max, window, log, events), a, b)
    decreases events
  {
    if events != [] {
      LogIsGranted(max, window, LogStep(max, window, log, events[0]).0, events[1..], a, b);
    }
  }

  function Repeat(t: int, n: nat): seq<int> {
    seq(n, _ => t)
  }

  lemma {:induction false} RepeatCounts(log: seq<int>, t: int, n: nat, a: int, b: int)
    ensures CountIn(log + Repeat(t, n), a, b) == CountIn(log, a, b) + if a <= t < b then n else 0
  {
    if n == 0 {
      assert log + Repeat(t, 0) == log;
    } else {
      RepeatCounts(log, t, n - 1, a, b);
      RepeatAppend(log, t, n - 1);
      CountAppend(log + Repeat(t, n - 1), t, a, b);
    }
  }

  lemma RepeatAppend(log: seq<int>, t: int, n: nat)
    ensures log + Repeat(t, n) + [t] == log + Repeat(t, n + 1)
  {
  }

  /** A burst is logged as far as the window has room. */
  lemma {:induction false} BurstIsLogged(max: int, window: int, log: seq<int>, t: int, n: nat, count: nat)
    requires 0 < window && count == CountIn(log, t - window + 1, t + 1) <= max
    ensures LogAfter(max, window, log, Burst(t, n)) == log + Repeat(t, Least(n, max - count))
    ensures Admitted(LogRun(max, window, log, Burst(t, n))) == Least(n, max - count)
  {
    if n == 0 {
      assert log + Repeat(t, 0) == log;
    } else {
      var logged: nat := Least(n - 1, max - count);
      var before := log + Repeat(t, logged);
      BurstIsLogged(max, window, log, t, n - 1, count);
      RepeatCounts(log, t, logged, t - window + 1, t + 1);
      RepeatAppend(log, t, logged);
      LastIsLogged(max, window, log, t, n, before);
    }
  }

  lemma LastIsLogged(max: int, window: int, log: seq<int>, t: int, n: nat, before: seq<int>)
    requires 0 < n && before == LogAfter(max, window, log, Burst(t, n - 1))
    ensures
      var granted := CountIn(before, t - window + 1, t + 1) < max;
      && LogAfter(max, window, log, Burst(t, n)) == (if granted then before + [t] else before)
      && Admitted(LogRun(max, window, log, Burst(t, n)))
         == Admitted(LogRun(max, window, log, Burst(t, n - 1))) + One(granted)
  {
    var all := LogRun(max, window, log, Burst(t, n));
    LogAfterConcat(max, window, log, Burst(t, n - 1), CallAt(t));
    LogRunPrefix(max, window, log, Burst(t, n), n - 1);
    assert Burst(t, n)[..n - 1] == Burst(t, n - 1) && Burst(t, n)[n - 1] == CallAt(t);
    AdmittedSplit(all, n - 1);
    assert all[n - 1..] == [all[n - 1]];
  }

  lemma BurstsAreLogged(max: nat, window: int, b: Backend, t: int, later: int)
    requires t <= later
    ensures
      var lim, log := Limiter.SlidingWindow(max, window), LogAfter(max, window, [], Burst(t, max));
      && Run(lim, b, None, Burst(t, max)) == LogRun(max, window, [], Burst(t, max))
      && Run(lim, b, After(lim, b, None, Burst(t, max)), Burst(later, max))
         == LogRun(max, window, log, Burst(later, max))
  {
    var lim := Limiter.SlidingWindow(max, window);
    BurstIsOrderly(lim, t, t, max, SECOND + 1);
    RefinesThroughout(max, window, b, None, [], t, Burst(t, max));
    BurstIsOrderly(lim, Clock(t, Burst(t, max)), later, max, SECOND + 1);
    RefinesThroughout(max, window, b, After(lim, b, None, Burst(t, max)), LogAfter(max, window, [], Burst(t, max)),
                      Clock(t, Burst(t, max)), Burst(later, max));
  }

  /** Of max calls that come after max calls, none is admitted while those are in the window, and all are after that. */
  lemma SecondWindowful(max: nat, window: int, b: Backend, t: int, later: int)
    requires 0 < max && 0 < window && t <= later
    ensures
      var lim := Limiter.SlidingWindow(max, window);
      && Admitted(Run(lim, b, None, Burst(t, max))) == max
      && Admitted(Run(lim, b, After(lim, b, None, Burst(t, max)), Burst(later, max)))
         == if later < t + window then 0 else max
  {
    BurstsAreLogged(max, window, b, t, later);
    BurstIsLogged(max, window, [], t, max, 0);
    var log := [] + Repeat(t, max);
    assert CountIn(log, later - window + 1, later + 1) == if later < t + window then max else 0 by {
      RepeatCounts([], t, max, later - window + 1, later + 1);
    }
    BurstIsLogged(max, window, log, later, max, CountIn(log, later - window + 1, later + 1));
  }

  // The tolerated stall

  /** ExactRefinement's bound on the stall is the exact one, for every limit and window and for both stores. */
  lemma StallBoundIsExact(max: int, window: int, backend: Backend, stall: nat)
    requires 0 < max && 0 < window && !backend.Eternal?
    ensures stall <= SECOND + 1
       <==> forall clock, events | Orderly(Limiter.SlidingWindow(max, window), clock, events, stall) ::
              Run(Limiter.SlidingWindow(max, window), backend, None, events) == LogRun(max, window, [], events)
  {
    var lim := Limiter.SlidingWindow(max, window);
    if stall <= SECOND + 1 {
      forall clock, events | Orderly(lim, clock, events, stall)
        ensures Run(lim, backend, None, events) == LogRun(max, window, [], events)
      {
        OrderlyWeaken(lim, clock, events, stall, SECOND + 1);
        ExactRefinement(max, window, backend, clock, events);
      }
    } else {
      var late := window + SECOND + 1;
      var events := Burst(0, max) + [Call(Reading(window - 1, late, late, late, true, true))];
      BurstIsOrderly(lim, 0, 0, max, stall);
      OrderlyConcat(lim, 0, Burst(0, max), events[max..], stall);
      StalledCallDisagrees(max, window, backend);
    }
  }

  /** max calls fill the window; one that reads its clock inside it reaches the store after the entry expired. */
  lemma StalledCallDisagrees(max: int, window: int, backend: Backend)
    requires 0 < max && 0 < window && !backend.Eternal?
    ensures
      var late := window + SECOND + 1;
      var events := Burst(0, max) + [Call(Reading(window - 1, late, late, late, true, true))];
      && Run(Limiter.SlidingWindow(max, window), backend, None, events)[max] == Decision(true, false)
      && LogRun(max, window, [], events)[max] == Decision(false, false)
  {
    var lim, late := Limiter.SlidingWindow(max, window), window + SECOND + 1;
    var stalled := Call(Reading(window - 1, late, late, late, true, true));
    var events := Burst(0, max) + [stalled];
    var cell := After(lim, backend, None, Burst(0, max));
    assert cell.Some? && cell.value.expiration == Some(window + SECOND) by {
      RunConcat(lim, backend, None, Burst(0, max - 1), [CallAt(0)]);
    }
    assert Run(lim, backend, None, events)[max] == Decision(true, false) by {
      RunConcat(lim, backend, None, Burst(0, max), [stalled]);
      assert Visible(cell, late) == None;
      assert Prune([], -1) == [];
    }
    assert LogRun(max, window, [], events)[max] == Decision(false, false) by {
      LogBurst(max, window, max);
      assert events[..max] == Burst(0, max);
      LogRunPrefix(max, window, [], events, max);
      CountSuffix(LogAfter(max, window, [], Burst(0, max)), 0, 0, window);
    }
  }

  lemma {:induction false} LogBurst(max: int, window: int, n: nat)
    requires n <= max && 0 < window
    ensures var log := LogAfter(max, window, [], Burst(0, n)); |log| == n && forall i | 0 <= i < n :: log[i] == 0
  {
    if n > 0 {
      LogBurst(max, window, n - 1);
      var log := LogAfter(max, window, [], Burst(0, n - 1));
      LogAfterConcat(max, window, [], Burst(0, n - 1), CallAt(0));
      CountSuffix(log, 0, 1 - window, 1);
    }
  }

  lemma {:induction false} LogAfterConcat(max: int, window: int, log: seq<int>, xs: seq<Event>, e: Event)
    ensures LogAfter(max, window, log, xs + [e]) == LogStep(max, window, LogAfter(max, window, log, xs), e).0
    decreases xs
  {
    if xs != [] {
      assert (xs + [e])[1..] == xs[1..] + [e];
      LogAfterConcat(max, window, LogStep(max, window, log, xs[0]).0, xs[1..], e);
    }
  }
}
