/** When the limit itself is kept although Get and Set are separate store accesses: when calls take turns, and how old
    their clock readings may be. */
module Turns {
  import opened Prelude
  import opened Storage
  import opened Limiters
  import opened Interleavings
  import SlidingWindows

  /** With n calls in flight to begin with, there are never more than k. */
  predicate AtMost(k: nat, n: nat, moves: seq<Move>)
    decreases moves
  {
    if moves == [] then true
    else if moves[0].Fetch? then n < k && AtMost(k, n + 1, moves[1..])
    else if (moves[0].Commit? || moves[0].Fail?) && moves[0].i < n then AtMost(k, n - 1, moves[1..])
    else AtMost(k, n, moves[1..])
  }

  /** At most k calls at a time, which read the clock up to `skew` before they fetch; no store access fails and nothing
      is reset. */
  ghost predicate Fair(k: nat, skew: nat, clock: int, moves: seq<Move>) {
    && AllTimed(clock, moves, skew) && AtMost(k, 0, moves)
    && forall i | 0 <= i < |moves| :: !moves[i].Fail? && !moves[i].Clear?
  }

  /** The admissions on record in [a, b). */
  function Recorded(log: multiset<int>, a: int, b: int): nat
    decreases b - a
  {
    if b <= a then 0 else log[a] + Recorded(log, a + 1, b)
  }

  lemma {:induction false} RecordedAdds(log: multiset<int>, t: int, a: int, b: int)
    ensures Recorded(log + multiset{t}, a, b) == Recorded(log, a, b) + One(a <= t < b)
    decreases b - a
  {
    if a < b {
      RecordedAdds(log, t, a + 1, b);
    }
  }

  lemma {:induction false} NothingRecorded(log: multiset<int>, a: int, b: int)
    requires forall t | t in log :: t < a
    ensures Recorded(log, a, b) == 0
    decreases b - a
  {
    if a < b {
      NothingRecorded(log, a + 1, b);
    }
  }

  lemma {:induction false} RecordedThere(log: multiset<int>, t: int, a: int, b: int)
    requires a <= t < b
    ensures log[t] <= Recorded(log, a, b)
    decreases b - a
  {
    if a < t {
      RecordedThere(log, t, a + 1, b);
    }
  }

  ghost predicate KeepsLimit(max: int, window: int, b: Backend, moves: seq<Move>) {
    forall from, to | to == from + window ::
      Recorded(Replay(Limiter.SlidingWindow(max, window), b, INITIALLY, moves).log, from, to) <= max
  }

  /** The limit is kept in every window of every interleaving, with at most k calls in flight and clock readings up to
      `skew` old, exactly if calls take turns and besides read the clock as they fetch; or, for a limit of one, up to
      a second and a nanosecond before, or as long before as they like if the store never forgets. */
  lemma TurnsKeepTheLimit(max: int, window: int, b: Backend, k: nat, skew: nat)
    requires 0 < max && 0 < window
    ensures k == 0 || (k == 1 && (skew == 0 || (max == 1 && (b.Eternal? || skew <= SECOND + 1))))
       <==> forall clock, moves | Fair(k, skew, clock, moves) :: KeepsLimit(max, window, b, moves)
  {
    if k == 0 || (k == 1 && (skew == 0 || (max == 1 && (b.Eternal? || skew <= SECOND + 1)))) {
      forall clock, moves | Fair(k, skew, clock, moves)
        ensures KeepsLimit(max, window, b, moves)
      {
        if k == 0 {
          NobodyKeepsTheLimit(max, window, b, moves);
        } else if skew == 0 {
          PromptReadingsAreFresh(0, clock, clock, moves);
          FreshReadingsKeepTheLimit(max, window, b, clock, moves, 0);
        } else {
          OneAtATimeKeepsOne(window, b, clock, moves, skew);
        }
      }
    } else if 2 <= k {
      TwoOverrunTheLimit(max, window, b, k, skew);
    } else if 2 <= max {
      OldReadingOverrunsTheLimit(max, window, b, skew);
    } else {
      ExpiryOverrunsTheLimit(max, window, b, skew);
    }
  }

  lemma NobodyKeepsTheLimit(max: int, window: int, b: Backend, moves: seq<Move>)
    requires 0 < max && AtMost(0, 0, moves)
    ensures KeepsLimit(max, window, b, moves)
  {
    NobodyIsRecorded(Limiter.SlidingWindow(max, window), b, INITIALLY, moves);
    forall from, to | to == from + window
      ensures Recorded(multiset{}, from, to) <= max
    {
      NothingRecorded(multiset{}, from, to);
    }
  }

  lemma {:induction false} NobodyIsRecorded(lim: Limiter, b: Backend, w: World, moves: seq<Move>)
    requires Divides(lim) && AtMost(0, 0, moves)
    ensures Replay(lim, b, w, moves).log == w.log
    decreases moves
  {
    if moves != [] {
      NobodyIsRecorded(lim, b, Advance(lim, b, w, moves[0]), moves[1..]);
    }
  }

  // Taking turns, calls make a run

  /** With n calls in flight, and the last Set at `last`: every call reads its clock after the Set before it. */
  predicate ReadsAfterSets(n: nat, last: int, moves: seq<Move>)
    decreases moves
  {
    if moves == [] then true
    else if moves[0].Fetch? then last <= moves[0].now && ReadsAfterSets(n + 1, last, moves[1..])
    else if moves[0].Commit? && moves[0].i < n then ReadsAfterSets(n - 1, moves[0].at, moves[1..])
    else if moves[0].Fail? && moves[0].i < n then ReadsAfterSets(n - 1, last, moves[1..])
    else ReadsAfterSets(n, last, moves[1..])
  }

  lemma {:induction false} PromptReadingsAreFresh(n: nat, last: int, clock: int, moves: seq<Move>)
    requires AllTimed(clock, moves, 0) && last <= clock
    ensures ReadsAfterSets(n, last, moves)
    decreases moves
  {
    if moves != [] {
      var m := moves[0];
      var sets, ends := m.Commit? && m.i < n, (m.Commit? || m.Fail?) && m.i < n;
      PromptReadingsAreFresh(if m.Fetch? then n + 1 else if ends then n - 1 else n, if sets then m.at else last,
                             Instant(m), moves[1..]);
    }
  }

  function WholeCall(f: Move, at: int): Event
    requires f.Fetch?
  {
    Call(Reading(f.now, f.getAt, f.getAt, at, true, true))
  }

  /** The fetch of the call in flight, if there is one. */
  type Pending = p: Option<Move> | p.Some? ==> p.value.Fetch? witness None

  function NextPending(pending: Pending, m: Move): Pending {
    if m.Fetch? then Some(m) else if m.Commit? && m.i == 0 then None else pending
  }

  /** A call is an event once it stores. Sweeps are not: no Get can tell. */
  function Emitted(pending: Pending, m: Move): seq<Event> {
    if m.Commit? && m.i == 0 && pending.Some? then [WholeCall(pending.value, m.at)] else []
  }

  /** The run that calls taking turns make. */
  function Serial(pending: Pending, moves: seq<Move>): seq<Event>
    decreases moves
  {
    if moves == [] then if pending.Some? then [WholeCall(pending.value, pending.value.getAt)] else []
    else Emitted(pending, moves[0]) + Serial(NextPending(pending, moves[0]), moves[1..])
  }

  /** At most one call is in flight; the rest of a fair interleaving whose clock readings are fresh. */
  ghost predicate InTurn(skew: nat, last: int, clock: int, pending: Pending, moves: seq<Move>) {
    && AllTimed(clock, moves, skew) && AtMost(1, One(pending.Some?), moves)
    && (forall i | 0 <= i < |moves| :: !moves[i].Fail? && !moves[i].Clear?)
    && ReadsAfterSets(One(pending.Some?), last, moves)
    && (pending.Some? ==> last <= pending.value.now <= pending.value.getAt <= clock
                          && pending.value.getAt <= pending.value.now + skew)
  }

  lemma StaysInTurn(skew: nat, last: int, clock: int, pending: Pending, moves: seq<Move>)
    requires InTurn(skew, last, clock, pending, moves) && moves != []
    ensures
      var nextLast := if Emitted(pending, moves[0]) == [] then last else moves[0].at;
      InTurn(skew, nextLast, Instant(moves[0]), NextPending(pending, moves[0]), moves[1..])
    ensures moves[0].Fetch? ==> pending.None?
    ensures clock <= Instant(moves[0]) && !moves[0].Fail? && !moves[0].Clear?
  {
  }

  lemma {:induction false} SerialIsOrderly(lim: Limiter, skew: nat, last: int, clock: int, pending: Pending,
                                           moves: seq<Move>)
    requires lim.SlidingWindow? && InTurn(skew, last, clock, pending, moves)
    ensures Orderly(lim, last, Serial(pending, moves), skew)
    ensures forall i | 0 <= i < |Serial(pending, moves)| :: Succeeds(Serial(pending, moves)[i])
    decreases moves
  {
    if moves != [] {
      var m, rest := moves[0], moves[1..];
      StaysInTurn(skew, last, clock, pending, moves);
      var first, later := Emitted(pending, m), Serial(NextPending(pending, m), rest);
      SerialIsOrderly(lim, skew, if first == [] then last else m.at, Instant(m), NextPending(pending, m), rest);
      assert (first + later)[|first|..] == later;
    }
  }

  /** The cell, up to an entry that a sweep has removed. */
  ghost predicate Fades(base: Cell, cell: Cell, clock: int) {
    cell == base || (cell.None? && base.Some? && Expired(base.value.expiration, clock))
  }

  /** The world while calls take turns: `base` is what the run has in the cell. */
  ghost predicate InStep(max: int, window: int, w: World, base: Cell, clock: int, pending: Pending) {
    if pending.None? then w.inFlight == [] && Fades(base, w.cell, clock)
    else w.inFlight == [DecideSliding(max, window, Visible(base, pending.value.getAt), pending.value.now)]
  }

  /** The admissions on record in [from, to), without that of the call in flight. */
  function Settled(w: World, pending: Pending, from: int, to: int): int {
    Recorded(w.log, from, to)
    - One(pending.Some? && w.inFlight != [] && w.inFlight[0].allowed && from <= pending.value.now < to)
  }

  /** What at most one event does to the cell, and whether it is a call admitted in [from, to). */
  function Effect(lim: Limiter, b: Backend, cell: Cell, emitted: seq<Event>, from: int, to: int): (Cell, nat)
    requires Divides(lim)
  {
    if emitted == [] then (cell, 0)
    else
      var (next, reply) := Step(lim, b, cell, emitted[0]);
      (next, One(CallIn(emitted[0], from, to) && Grants(reply)))
  }

  /** A move settles what the event it emits admits. */
  lemma StaysInStep(max: int, window: int, b: Backend, w: World, base: Cell, clock: int, pending: Pending, m: Move,
                    from: int, to: int)
    requires InStep(max, window, w, base, clock, pending) && clock <= Instant(m) && !m.Fail? && !m.Clear?
    requires m.Fetch? ==> pending.None?
    ensures
      var lim, nextPending := Limiter.SlidingWindow(max, window), NextPending(pending, m);
      var next := Advance(lim, b, w, m);
      var (cell, admitted) := Effect(lim, b, base, Emitted(pending, m), from, to);
      && InStep(max, window, next, cell, Instant(m), nextPending)
      && Settled(next, nextPending, from, to) == Settled(w, pending, from, to) + admitted
  {
    if m.Fetch? {
      FetchSettles(max, window, b, w, base, clock, m, from, to);
    }
  }

  /** A fetched call is on record, if it is admitted, but not settled. */
  lemma FetchSettles(max: int, window: int, b: Backend, w: World, base: Cell, clock: int, m: Move, from: int, to: int)
    requires w.inFlight == [] && Fades(base, w.cell, clock) && m.Fetch? && clock <= m.getAt
    ensures
      var next := Advance(Limiter.SlidingWindow(max, window), b, w, m);
      && next.inFlight == [DecideSliding(max, window, Visible(base, m.getAt), m.now)]
      && Settled(next, Some(m), from, to) == Settled(w, None, from, to)
  {
    assert Visible(w.cell, m.getAt) == Visible(base, m.getAt);
    var o := DecideSliding(max, window, Visible(base, m.getAt), m.now);
    assert !o.next.FixedState?;
    RecordedAdds(w.log, m.now, from, to);
  }

  /** What is on record is what the run admits. */
  lemma {:induction false} TurnsAreSerial(max: int, window: int, b: Backend, w: World, base: Cell, skew: nat, last: int,
                                          clock: int, pending: Pending, moves: seq<Move>, from: int, to: int)
    requires InTurn(skew, last, clock, pending, moves) && InStep(max, window, w, base, clock, pending)
    ensures
      var lim, events := Limiter.SlidingWindow(max, window), Serial(pending, moves);
      Recorded(Replay(lim, b, w, moves).log, from, to)
      == Settled(w, pending, from, to) + AdmittedIn(events, Run(lim, b, base, events), from, to)
    decreases moves
  {
    if moves != [] {
      var lim, m, rest := Limiter.SlidingWindow(max, window), moves[0], moves[1..];
      var first, nextPending := Emitted(pending, m), NextPending(pending, m);
      StaysInTurn(skew, last, clock, pending, moves);
      StaysInStep(max, window, b, w, base, clock, pending, m, from, to);
      TurnsAreSerial(max, window, b, Advance(lim, b, w, m), Effect(lim, b, base, first, from, to).0, skew,
                     if first == [] then last else m.at, Instant(m), nextPending, rest, from, to);
      EmittedFirst(lim, b, base, first, Serial(nextPending, rest), from, to);
    }
  }

  lemma EmittedFirst(lim: Limiter, b: Backend, base: Cell, emitted: seq<Event>, rest: seq<Event>, from: int, to: int)
    requires Divides(lim) && |emitted| <= 1
    ensures
      var events := emitted + rest;
      var (next, admitted) := Effect(lim, b, base, emitted, from, to);
      AdmittedIn(events, Run(lim, b, base, events), from, to)
      == admitted + AdmittedIn(rest, Run(lim, b, next, rest), from, to)
  {
    if emitted == [] {
      assert emitted + rest == rest;
    } else {
      assert emitted == [emitted[0]];
      AdmittedFirst(lim, b, base, emitted[0], rest, from, to);
    }
  }

  /** Calls that take turns and read their clocks after the Set before them keep the limit, however old, up to a second
      and a nanosecond, those readings are when the call fetches. */
  lemma FreshReadingsKeepTheLimit(max: int, window: int, b: Backend, clock: int, moves: seq<Move>, skew: nat)
    requires 0 < max && skew <= SECOND + 1 && Fair(1, skew, clock, moves)
    requires ReadsAfterSets(0, clock - skew, moves)
    ensures KeepsLimit(max, window, b, moves)
  {
    var lim, events, last := Limiter.SlidingWindow(max, window), Serial(None, moves), clock - skew;
    SerialIsOrderly(lim, skew, last, clock, None, moves);
    OrderlyWeaken(lim, last, events, skew, SECOND + 1);
    forall from, to | to == from + window
      ensures Recorded(Replay(lim, b, INITIALLY, moves).log, from, to) <= max
    {
      TurnsAreSerial(max, window, b, INITIALLY, None, skew, last, clock, None, moves, from, to);
      NothingRecorded(multiset{}, from, to);
      NothingAmiss(events, from, to);
      SlidingWindows.WindowBound(max, window, b, last, events, from, to);
    }
  }

  lemma {:induction false} NothingAmiss(events: seq<Event>, a: int, b: int)
    requires forall i | 0 <= i < |events| :: Succeeds(events[i])
    ensures ClearsIn(events, a, b) == 0 && FailedIn(events, a, b) == 0
  {
    if events != [] {
      NothingAmiss(events[1..], a, b);
    }
  }

  // A limit of one

  ghost predicate AtMostOnce(window: int, log: multiset<int>) {
    forall from, to | to == from + window :: Recorded(log, from, to) <= 1
  }

  /** The latest admission, if there is one, is all that is stored or about to be stored, until long after its
      window. */
  ghost predicate Latest(window: int, b: Backend, w: World, clock: int, t: Option<int>) {
    && AtMostOnce(window, w.log) && |w.inFlight| <= 1
    && if t.None? then w.log == multiset{} && w.cell == None && w.inFlight == []
       else
         && t.value <= clock && (forall e | e in w.log :: e <= t.value)
         && if w.inFlight != [] then
              w.inFlight[0].next == SlidingState([t.value]) && w.inFlight[0].ttl == window + SECOND
            else if w.cell.Some? then
              && w.cell.value.value == SlidingState([t.value])
              && (w.cell.value.expiration.Some? ==>
                  !b.Eternal? && t.value + window + SECOND <= w.cell.value.expiration.value)
            else !b.Eternal? && t.value + window + SECOND < clock
  }

  lemma OneAtATimeKeepsOne(window: int, b: Backend, clock: int, moves: seq<Move>, skew: nat)
    requires 0 < window && Fair(1, skew, clock, moves) && (b.Eternal? || skew <= SECOND + 1)
    ensures KeepsLimit(1, window, b, moves)
  {
    forall from, to | to == from + window
      ensures Recorded(multiset{}, from, to) <= 1
    {
      NothingRecorded(multiset{}, from, to);
    }
    LatestThroughout(window, b, INITIALLY, clock, None, moves, skew);
  }

  lemma {:induction false} LatestThroughout(window: int, b: Backend, w: World, clock: int, t: Option<int>,
                                            moves: seq<Move>, skew: nat)
    requires 0 < window && (b.Eternal? || skew <= SECOND + 1) && Latest(window, b, w, clock, t)
    requires AllTimed(clock, moves, skew) && AtMost(1, |w.inFlight|, moves)
    requires forall i | 0 <= i < |moves| :: !moves[i].Fail? && !moves[i].Clear?
    ensures AtMostOnce(window, Replay(Limiter.SlidingWindow(1, window), b, w, moves).log)
    decreases moves
  {
    if moves != [] {
      var m := moves[0];
      var next := Advance(Limiter.SlidingWindow(1, window), b, w, m);
      assert !m.Fail? && !m.Clear?;
      if m.Fetch? {
        FetchIsLatest(window, b, w, clock, t, m, skew);
        LatestThroughout(window, b, next, m.getAt, if next.inFlight[0].allowed then Some(m.now) else t, moves[1..],
                         skew);
      } else {
        StaysLatest(window, b, w, clock, t, m, skew);
        LatestThroughout(window, b, next, m.at, t, moves[1..], skew);
      }
    }
  }

  lemma StaysLatest(window: int, b: Backend, w: World, clock: int, t: Option<int>, m: Move, skew: nat)
    requires Latest(window, b, w, clock, t) && Timed(clock, m, skew) && (m.Commit? || m.Sweep?) && 0 < window
    ensures Latest(window, b, Advance(Limiter.SlidingWindow(1, window), b, w, m), m.at, t)
    ensures |Advance(Limiter.SlidingWindow(1, window), b, w, m).inFlight|
         == if m.Commit? && m.i < |w.inFlight| then 0 else |w.inFlight|
  {
  }

  lemma FetchIsLatest(window: int, b: Backend, w: World, clock: int, t: Option<int>, m: Move, skew: nat)
    requires 0 < window && (b.Eternal? || skew <= SECOND + 1) && Latest(window, b, w, clock, t)
    requires m.Fetch? && Timed(clock, m, skew) && w.inFlight == []
    ensures
      var next := Advance(Limiter.SlidingWindow(1, window), b, w, m);
      |next.inFlight| == 1 && Latest(window, b, next, m.getAt, if next.inFlight[0].allowed then Some(m.now) else t)
  {
    var seen := Visible(w.cell, m.getAt);
    assert Timestamps(seen) == [] || (t.Some? && Timestamps(seen) == [t.value]);
    LatestDecides(window, seen, t, m.now);
    if Timestamps(seen) == [] || t.value + window <= m.now {
      assert t.Some? ==> t.value + window <= m.now;
      SpacedAdds(window, w.log, m.now);
    }
  }

  lemma LatestDecides(window: int, seen: Option<Value>, t: Option<int>, now: int)
    requires Timestamps(seen) == [] || (t.Some? && Timestamps(seen) == [t.value])
    ensures DecideSliding(1, window, seen, now)
         == if Timestamps(seen) == [] || t.value + window <= now
            then Outcome(SlidingState([now]), window + SECOND, true)
            else Outcome(SlidingState([t.value]), window + SECOND, false)
  {
    var list := Timestamps(seen);
    assert Prune(list, now - window) == if list == [] || list[0] <= now - window then [] else list;
    assert [] + [now] == [now];
  }

  lemma SpacedAdds(window: int, log: multiset<int>, t: int)
    requires AtMostOnce(window, log) && forall e | e in log :: e + window <= t
    ensures AtMostOnce(window, log + multiset{t})
  {
    forall from, to | to == from + window
      ensures Recorded(log + multiset{t}, from, to) <= 1
    {
      RecordedAdds(log, t, from, to);
      if from <= t < to {
        NothingRecorded(log, from, to);
      }
    }
  }

  // Where the limit is overrun

  /** n calls in turn, all at instant 0. */
  function Turns(n: nat): seq<Move> {
    if n == 0 then [] else Turns(n - 1) + [Fetch(0, 0, 0), Commit(0, 0)]
  }

  lemma {:induction false} TurnsAreFair(k: nat, skew: nat, n: nat, tail: seq<Move>)
    requires 1 <= k && Fair(k, skew, 0, tail)
    ensures Fair(k, skew, 0, Turns(n) + tail)
    decreases n
  {
    if n == 0 {
      assert Turns(0) + tail == tail;
    } else {
      var longer := [Fetch(0, 0, 0), Commit(0, 0)] + tail;
      assert longer[1..] == [Commit(0, 0)] + tail && ([Commit(0, 0)] + tail)[1..] == tail;
      TurnsAreFair(k, skew, n - 1, longer);
      assert Turns(n) + tail == Turns(n - 1) + longer;
    }
  }

  /** After a call that decides o at instant 0, admitted, and stores it at once. */
  function Stored(b: Backend, w: World, o: Outcome): World {
    World(Some(StorageValue(o.next, ExpirationOf(b, 0, o.ttl))), [], w.log + multiset{Tag(o, 0)})
  }

  lemma TurnIsStored(lim: Limiter, b: Backend, w: World)
    requires Divides(lim) && w.inFlight == [] && Decide(lim, Visible(w.cell, 0), 0, 0).allowed
    ensures Replay(lim, b, w, [Fetch(0, 0, 0), Commit(0, 0)])
         == Stored(b, w, Decide(lim, Visible(w.cell, 0), 0, 0))
  {
    var o := Decide(lim, Visible(w.cell, 0), 0, 0);
    var fetched := World(w.cell, [o], w.log + multiset{Tag(o, 0)});
    assert Advance(lim, b, w, Fetch(0, 0, 0)) == fetched;
    assert Advance(lim, b, fetched, Commit(0, 0)) == Stored(b, w, o);
    ReplayTwo(lim, b, w, Fetch(0, 0, 0), Commit(0, 0), []);
    assert [Fetch(0, 0, 0), Commit(0, 0)] + [] == [Fetch(0, 0, 0), Commit(0, 0)];
  }

  lemma {:induction false} ReplayConcat(lim: Limiter, b: Backend, w: World, xs: seq<Move>, ys: seq<Move>)
    requires Divides(lim)
    ensures Replay(lim, b, w, xs + ys) == Replay(lim, b, Replay(lim, b, w, xs), ys)
    decreases xs
  {
    if xs == [] {
      assert xs + ys == ys;
    } else {
      assert (xs + ys)[1..] == xs[1..] + ys;
      ReplayConcat(lim, b, Advance(lim, b, w, xs[0]), xs[1..], ys);
    }
  }

  lemma ReplayTwo(lim: Limiter, b: Backend, w: World, m1: Move, m2: Move, rest: seq<Move>)
    requires Divides(lim)
    ensures Replay(lim, b, w, [m1, m2] + rest) == Replay(lim, b, Advance(lim, b, Advance(lim, b, w, m1), m2), rest)
  {
    assert ([m1, m2] + rest)[1..] == [m2] + rest && ([m2] + rest)[1..] == rest;
  }

  /** Calls in turn lead from one state to the next, as long as each is admitted. */
  lemma {:induction false} TurnsReach(lim: Limiter, b: Backend, w: World, state: (World, int) -> bool, c: int, n: nat)
    requires Divides(lim) && state(w, c)
    requires forall v, j {:trigger Turn(lim, b, v, state, j)} | state(v, j) && j < c + n :: Turn(lim, b, v, state, j)
    ensures state(Replay(lim, b, w, Turns(n)), c + n)
  {
    if n > 0 {
      var before := Replay(lim, b, w, Turns(n - 1));
      TurnsReach(lim, b, w, state, c, n - 1);
      assert Turn(lim, b, before, state, c + n - 1);
      ReplayConcat(lim, b, w, Turns(n - 1), [Fetch(0, 0, 0), Commit(0, 0)]);
      TurnIsStored(lim, b, before);
    }
  }

  ghost predicate Turn(lim: Limiter, b: Backend, w: World, state: (World, int) -> bool, j: int)
    requires Divides(lim)
  {
    var o := Decide(lim, Visible(w.cell, 0), 0, 0);
    w.inFlight == [] && o.allowed && state(Stored(b, w, o), j + 1)
  }

  /** The cell lists j calls at instant 0, for as long as a list written then is kept. */
  ghost predicate Lists(window: int, b: Backend, cell: Cell, j: nat) {
    if cell.None? then j == 0
    else
      && cell.value.value.SlidingState? && |cell.value.value.timestamps| == j
      && (forall i | 0 <= i < j :: cell.value.value.timestamps[i] == 0)
      && cell.value.expiration == ExpirationOf(b, 0, window + SECOND)
  }

  lemma DecideAtZero(max: int, window: int, b: Backend, cell: Cell, j: nat)
    requires 0 < window && Lists(window, b, cell, j)
    ensures
      var o := DecideSliding(max, window, Visible(cell, 0), 0);
      && o.allowed == (j < max)
      && (j < max ==> Lists(window, b, Some(StorageValue(o.next, ExpirationOf(b, 0, o.ttl))), j + 1) && Tag(o, 0) == 0)
  {
    assert Prune(Timestamps(Visible(cell, 0)), 0 - window) == Timestamps(Visible(cell, 0));
  }

  /** The moves put so many more admissions on record in the window that starts at 0. */
  ghost predicate Gains(max: int, window: int, b: Backend, w: World, moves: seq<Move>, gain: nat) {
    Recorded(w.log, 0, window) + gain
    <= Recorded(Replay(Limiter.SlidingWindow(max, window), b, w, moves).log, 0, window)
  }

  /** After n calls in turn it takes only max - n + 1 more. */
  lemma GainOverruns(max: int, window: int, b: Backend, n: nat, tail: seq<Move>, gain: nat)
    requires 0 < window && n <= max < n + gain
    requires forall w: World | w.inFlight == [] && Lists(window, b, w.cell, n) :: Gains(max, window, b, w, tail, gain)
    ensures !KeepsLimit(max, window, b, Turns(n) + tail)
  {
    var filled := Replay(Limiter.SlidingWindow(max, window), b, INITIALLY, Turns(n));
    TurnsFill(max, window, b, n);
    ReplayConcat(Limiter.SlidingWindow(max, window), b, INITIALLY, Turns(n), tail);
    assert Gains(max, window, b, filled, tail, gain);
    RecordedThere(filled.log, 0, 0, window);
  }

  lemma TurnsFill(max: int, window: int, b: Backend, n: nat)
    requires 0 < window && n <= max
    ensures
      var filled := Replay(Limiter.SlidingWindow(max, window), b, INITIALLY, Turns(n));
      filled.inFlight == [] && Lists(window, b, filled.cell, n) && filled.log[0] == n
  {
    var lim := Limiter.SlidingWindow(max, window);
    var state := (w: World, j: int) => 0 <= j && w.inFlight == [] && Lists(window, b, w.cell, j) && w.log[0] == j;
    forall w, j | state(w, j) && j < n
      ensures Turn(lim, b, w, state, j)
    {
      DecideAtZero(max, window, b, w.cell, j);
    }
    TurnsReach(lim, b, INITIALLY, state, 0, n);
  }

  function Pair(): seq<Move> {
    [Fetch(0, 0, 0), Fetch(0, 0, 0)]
  }

  /** Two calls at a time: max - 1 calls in turn and then two at once, all at one instant. */
  lemma TwoOverrunTheLimit(max: int, window: int, b: Backend, k: nat, skew: nat)
    requires 0 < max && 0 < window && 2 <= k
    ensures Fair(k, skew, 0, Turns(max - 1) + Pair()) && !KeepsLimit(max, window, b, Turns(max - 1) + Pair())
  {
    PairIsFair(k, skew, max - 1);
    forall w: World | w.inFlight == [] && Lists(window, b, w.cell, max - 1)
      ensures Gains(max, window, b, w, Pair(), 2)
    {
      DecideAtZero(max, window, b, w.cell, max - 1);
      PairIsAdmitted(Limiter.SlidingWindow(max, window), b, w, DecideSliding(max, window, Visible(w.cell, 0), 0));
      RecordedAdds(w.log, 0, 0, window);
      RecordedAdds(w.log + multiset{0}, 0, 0, window);
    }
    GainOverruns(max, window, b, max - 1, Pair(), 2);
  }

  lemma PairIsFair(k: nat, skew: nat, n: nat)
    requires 2 <= k
    ensures FairTwice(k, skew, 0, Turns(n) + Pair())
  {
    var m := Fetch(0, 0, 0);
    assert AtMost(k, 1, [m]) && AllTimed(0, [m], skew) && ReadsBeforeSets([0], [m]);
    assert [m, m][1..] == [m] && [] + [0] == [0];
    TurnsAreFair(k, skew, n, Pair());
    TurnsReadBeforeSets(n, Pair());
  }

  lemma PairIsAdmitted(lim: Limiter, b: Backend, w: World, o: Outcome)
    requires Divides(lim) && o == Decide(lim, Visible(w.cell, 0), 0, 0) && o.allowed
    ensures Replay(lim, b, w, Pair()).log == w.log + multiset{Tag(o, 0)} + multiset{Tag(o, 0)}
  {
    var m := Fetch(0, 0, 0);
    ReplayTwo(lim, b, w, m, m, []);
    assert [m, m] + [] == [m, m];
  }

  /** A call just when those at instant 0 have left the window, and one that fetches then but read its clock a
      nanosecond earlier. */
  function OldReading(window: int): seq<Move> {
    [Fetch(window, window, window), Commit(0, window), Fetch(window - 1, window, window)]
  }

  /** One call at a time, but with a clock reading older than the Set before it, after max calls in turn. */
  lemma OldReadingOverrunsTheLimit(max: int, window: int, b: Backend, skew: nat)
    requires 2 <= max && 0 < window && 1 <= skew
    ensures Fair(1, skew, 0, Turns(max) + OldReading(window))
    ensures !KeepsLimit(max, window, b, Turns(max) + OldReading(window))
  {
    OldReadingIsFair(max, window, skew);
    forall w: World | w.inFlight == [] && Lists(window, b, w.cell, max)
      ensures Gains(max, window, b, w, OldReading(window), 1)
    {
      LateCallsJoin(max, window, b, w);
      RecordedAdds(w.log, window, 0, window);
      RecordedAdds(w.log + multiset{window}, window - 1, 0, window);
    }
    GainOverruns(max, window, b, max, OldReading(window), 1);
  }

  lemma OldReadingIsFair(n: nat, window: int, skew: nat)
    requires 0 < window && 1 <= skew
    ensures Fair(1, skew, 0, Turns(n) + OldReading(window))
  {
    var moves := OldReading(window);
    assert AtMost(1, 0, moves[2..]) && AllTimed(window, moves[2..], skew);
    assert moves[1..][1..] == moves[2..];
    assert AtMost(1, 1, moves[1..]) && AllTimed(window, moves[1..], skew);
    TurnsAreFair(1, skew, n, moves);
  }

  lemma LateCallsJoin(max: int, window: int, b: Backend, w: World)
    requires 2 <= max && 0 < window && w.inFlight == [] && Lists(window, b, w.cell, max)
    ensures Replay(Limiter.SlidingWindow(max, window), b, w, OldReading(window)).log
         == w.log + multiset{window} + multiset{window - 1}
  {
    var o := Outcome(SlidingState([window]), window + SECOND, true);
    LateCallsDecide(max, window, b, w.cell);
    CallAndAnother(Limiter.SlidingWindow(max, window), b, w, window, o, Fetch(window - 1, window, window));
  }

  /** The first finds the window empty, and the second only the first. */
  lemma LateCallsDecide(max: int, window: int, b: Backend, cell: Cell)
    requires 2 <= max && 0 < window && Lists(window, b, cell, max)
    ensures
      var o := Outcome(SlidingState([window]), window + SECOND, true);
      var next := Some(StorageValue(o.next, ExpirationOf(b, window, o.ttl)));
      && DecideSliding(max, window, Visible(cell, window), window) == o
      && var late := DecideSliding(max, window, Visible(next, window), window - 1);
         late.allowed && Tag(late, window - 1) == window - 1
  {
    AllPruned(Timestamps(Visible(cell, window)), 0);
    assert [] + [window] == [window];
    assert Prune([window], -1) == [window];
  }

  /** A call in turn at instant t, and one more fetch. */
  lemma CallAndAnother(lim: Limiter, b: Backend, w: World, t: int, o: Outcome, m: Move)
    requires Divides(lim) && w.inFlight == [] && o == Decide(lim, Visible(w.cell, t), t, t) && o.allowed && m.Fetch?
    requires
      var late := Decide(lim, Visible(Some(StorageValue(o.next, ExpirationOf(b, t, o.ttl))), m.getAt), m.now, m.midAt);
      late.allowed && Tag(late, m.now) == m.now
    ensures Replay(lim, b, w, [Fetch(t, t, t), Commit(0, t), m]).log
         == w.log + multiset{Tag(o, t)} + multiset{m.now}
  {
    var fetched := World(w.cell, [o], w.log + multiset{Tag(o, t)});
    var stored := World(Some(StorageValue(o.next, ExpirationOf(b, t, o.ttl))), [], fetched.log);
    assert Advance(lim, b, w, Fetch(t, t, t)) == fetched;
    assert Advance(lim, b, fetched, Commit(0, t)) == stored;
    ReplayTwo(lim, b, w, Fetch(t, t, t), Commit(0, t), [m]);
    assert [Fetch(t, t, t), Commit(0, t)] + [m] == [Fetch(t, t, t), Commit(0, t), m];
    LastFetch(lim, b, stored, m);
  }

  lemma LastFetch(lim: Limiter, b: Backend, w: World, m: Move)
    requires Divides(lim)
    ensures Replay(lim, b, w, [m]) == Advance(lim, b, w, m)
  {
    assert Replay(lim, b, Advance(lim, b, w, m), []) == Advance(lim, b, w, m);
  }

  lemma {:induction false} AllPruned(list: seq<int>, windowStart: int)
    requires forall i | 0 <= i < |list| :: list[i] <= windowStart
    ensures Prune(list, windowStart) == []
  {
    if list != [] {
      AllPruned(list[1..], windowStart);
    }
  }

  /** One call at a time, but with a clock reading so old that the list has expired when the call fetches. */
  lemma ExpiryOverrunsTheLimit(max: int, window: int, b: Backend, skew: nat)
    requires 0 < max && 0 < window && SECOND + 1 < skew && !b.Eternal?
    ensures
      var late := [Fetch(window - 1, window + SECOND + 1, window + SECOND + 1)];
      Fair(1, skew, 0, Turns(max) + late) && !KeepsLimit(max, window, b, Turns(max) + late)
  {
    var late := Fetch(window - 1, window + SECOND + 1, window + SECOND + 1);
    assert AtMost(1, 0, [late]);
    TurnsAreFair(1, skew, max, [late]);
    forall w: World | w.inFlight == [] && Lists(window, b, w.cell, max)
      ensures Gains(max, window, b, w, [late], 1)
    {
      LastFetch(Limiter.SlidingWindow(max, window), b, w, late);
      FreshDecision(max, window, window - 1);
      RecordedAdds(w.log, window - 1, 0, window);
    }
    GainOverruns(max, window, b, max, [late], 1);
  }

  lemma FreshDecision(max: int, window: int, now: int)
    requires 0 < max
    ensures DecideSliding(max, window, None, now) == Outcome(SlidingState([now]), window + SECOND, true)
  {
    assert Prune([], now - window) == [];
    assert [] + [now] == [now];
  }

  // The same for the fixed window

  /** With these second clock readings of the calls in flight: every call takes its second reading, from which it
      computes the TTL, between its Get and its Set. */
  predicate ReadsBeforeSets(mids: seq<int>, moves: seq<Move>)
    decreases moves
  {
    if moves == [] then true
    else if moves[0].Fetch? then
      moves[0].getAt <= moves[0].midAt && ReadsBeforeSets(mids + [moves[0].midAt], moves[1..])
    else if moves[0].Commit? && moves[0].i < |mids| then
      mids[moves[0].i] <= moves[0].at && ReadsBeforeSets(Without(mids, moves[0].i), moves[1..])
    else if moves[0].Fail? && moves[0].i < |mids| then ReadsBeforeSets(Without(mids, moves[0].i), moves[1..])
    else ReadsBeforeSets(mids, moves[1..])
  }

  ghost predicate FairTwice(k: nat, skew: nat, clock: int, moves: seq<Move>) {
    Fair(k, skew, clock, moves) && ReadsBeforeSets([], moves)
  }

  ghost predicate KeepsFixedLimit(max: int, window: int, b: Backend, moves: seq<Move>) {
    forall end :: Replay(Limiter.FixedWindow(max, window), b, INITIALLY, moves).log[end] <= max
  }

  /** No window admits more than max calls, in every interleaving with at most k calls in flight and clock readings up
      to `skew` old, exactly if calls take turns and no reading is older than a window and a second, or as old as they
      like if the store never forgets. */
  lemma TurnsKeepTheFixedLimit(max: int, window: int, b: Backend, k: nat, skew: nat)
    requires 0 < max && 0 < window
    ensures k == 0 || (k == 1 && (b.Eternal? || skew <= window + SECOND))
       <==> forall clock, moves | FairTwice(k, skew, clock, moves) :: KeepsFixedLimit(max, window, b, moves)
  {
    if k == 0 || (k == 1 && (b.Eternal? || skew <= window + SECOND)) {
      forall clock, moves | FairTwice(k, skew, clock, moves)
        ensures KeepsFixedLimit(max, window, b, moves)
      {
        if k == 0 {
          NobodyIsRecorded(Limiter.FixedWindow(max, window), b, INITIALLY, moves);
        } else {
          TurnsCountInFull(max, window, b, INITIALLY, [], clock, moves, skew);
        }
      }
    } else if 2 <= k {
      TwoOverrunTheFixedLimit(max, window, b, k, skew);
    } else {
      ExpiryOverrunsTheFixedLimit(max, window, b, skew);
    }
  }

  /** v counts every admission under its window end, and no window ends later. */
  ghost predicate Leads(v: Value, log: multiset<int>) {
    v.FixedState? && v.count == log[v.windowEnd] && forall end | v.windowEnd < end :: log[end] == 0
  }

  /** What the latest call wrote, or is about to write, is the count so far, and outlives its window by a second. */
  ghost predicate CountsInFull(max: int, b: Backend, w: World, mids: seq<int>, clock: int) {
    && (forall end :: w.log[end] <= max) && |w.inFlight| == |mids| <= 1
    && if w.inFlight != [] then
         && Leads(w.inFlight[0].next, w.log)
         && w.inFlight[0].next.windowEnd + SECOND <= Max(mids[0], clock) + w.inFlight[0].ttl
       else if w.cell.Some? then
         && Leads(w.cell.value.value, w.log)
         && (w.cell.value.expiration.Some? ==>
             && !b.Eternal?
             && w.cell.value.value.windowEnd + SECOND <= w.cell.value.expiration.value)
       else forall end | b.Eternal? || clock <= end + SECOND :: w.log[end] == 0
  }

  lemma {:induction false} TurnsCountInFull(max: int, window: int, b: Backend, w: World, mids: seq<int>, clock: int,
                                            moves: seq<Move>, skew: nat)
    requires 0 < max && 0 < window && (b.Eternal? || skew <= window + SECOND) && CountsInFull(max, b, w, mids, clock)
    requires AllTimed(clock, moves, skew) && AtMost(1, |w.inFlight|, moves) && ReadsBeforeSets(mids, moves)
    requires forall i | 0 <= i < |moves| :: !moves[i].Fail? && !moves[i].Clear?
    ensures forall end :: Replay(Limiter.FixedWindow(max, window), b, w, moves).log[end] <= max
    decreases moves
  {
    if moves != [] {
      var m := moves[0];
      var next := Advance(Limiter.FixedWindow(max, window), b, w, m);
      assert !m.Fail? && !m.Clear?;
      if m.Fetch? {
        FetchCountsInFull(max, window, b, w, clock, m, skew);
        assert mids + [m.midAt] == [m.midAt];
        TurnsCountInFull(max, window, b, next, [m.midAt], m.getAt, moves[1..], skew);
      } else {
        StaysCounted(max, window, b, w, mids, clock, m, skew);
        assert m.Commit? && m.i < |mids| ==> Without(mids, m.i) == [];
        TurnsCountInFull(max, window, b, next, if m.Commit? && m.i < |mids| then [] else mids, m.at, moves[1..], skew);
      }
    }
  }

  lemma StaysCounted(max: int, window: int, b: Backend, w: World, mids: seq<int>, clock: int, m: Move, skew: nat)
    requires CountsInFull(max, b, w, mids, clock) && Timed(clock, m, skew) && (m.Commit? || m.Sweep?)
    requires m.Commit? && m.i < |mids| ==> mids[m.i] <= m.at
    ensures CountsInFull(max, b, Advance(Limiter.FixedWindow(max, window), b, w, m),
                         if m.Commit? && m.i < |mids| then [] else mids, m.at)
  {
  }

  lemma FetchCountsInFull(max: int, window: int, b: Backend, w: World, clock: int, m: Move, skew: nat)
    requires 0 < max && 0 < window && (b.Eternal? || skew <= window + SECOND)
    requires CountsInFull(max, b, w, [], clock) && m.Fetch? && Timed(clock, m, skew) && m.getAt <= m.midAt
    ensures CountsInFull(max, b, Advance(Limiter.FixedWindow(max, window), b, w, m), [m.midAt], m.getAt)
  {
    var o := DecideFixed(max, window, Visible(w.cell, m.getAt), m.now, m.midAt);
    var end := o.next.windowEnd;
    assert o.next.count == w.log[end] + One(o.allowed);
    assert forall later | end < later :: w.log[later] == 0;
  }

  /** The cell counts c calls in the window from instant 0 on, for as long as a count written then is kept. */
  ghost predicate Counts(window: int, b: Backend, cell: Cell, c: nat) {
    if cell.None? then c == 0
    else cell.value == StorageValue(FixedState(c, window), ExpirationOf(b, 0, window + SECOND))
  }

  lemma CountAtZero(max: int, window: int, b: Backend, cell: Cell, c: nat)
    requires 0 < window && Counts(window, b, cell, c) && c < max
    ensures DecideFixed(max, window, Visible(cell, 0), 0, 0)
         == Outcome(FixedState(c + 1, window), window + SECOND, true)
  {
    if cell.Some? {
      assert Visible(cell, 0) == Some(FixedState(c, window));
    }
  }

  lemma {:induction false} TurnsReadBeforeSets(n: nat, tail: seq<Move>)
    requires ReadsBeforeSets([], tail)
    ensures ReadsBeforeSets([], Turns(n) + tail)
    decreases n
  {
    if n == 0 {
      assert Turns(0) + tail == tail;
    } else {
      var longer := [Fetch(0, 0, 0), Commit(0, 0)] + tail;
      assert longer[1..] == [Commit(0, 0)] + tail && ([Commit(0, 0)] + tail)[1..] == tail;
      assert Without([0], 0) == [] && [] + [0] == [0];
      assert ReadsBeforeSets([0], [Commit(0, 0)] + tail);
      TurnsReadBeforeSets(n - 1, longer);
      assert Turns(n) + tail == Turns(n - 1) + longer;
    }
  }

  ghost predicate GainsFixed(max: int, window: int, b: Backend, w: World, moves: seq<Move>, gain: nat) {
    Replay(Limiter.FixedWindow(max, window), b, w, moves).log[window] == w.log[window] + gain
  }

  lemma GainOverrunsFixed(max: int, window: int, b: Backend, n: nat, tail: seq<Move>, gain: nat)
    requires 0 < window && n <= max < n + gain
    requires forall w: World | w.inFlight == [] && Counts(window, b, w.cell, n) ::
      GainsFixed(max, window, b, w, tail, gain)
    ensures !KeepsFixedLimit(max, window, b, Turns(n) + tail)
  {
    var filled := Replay(Limiter.FixedWindow(max, window), b, INITIALLY, Turns(n));
    TurnsCount(max, window, b, n);
    ReplayConcat(Limiter.FixedWindow(max, window), b, INITIALLY, Turns(n), tail);
    assert GainsFixed(max, window, b, filled, tail, gain);
  }

  lemma TurnsCount(max: int, window: int, b: Backend, n: nat)
    requires 0 < window && n <= max
    ensures
      var filled := Replay(Limiter.FixedWindow(max, window), b, INITIALLY, Turns(n));
      filled.inFlight == [] && Counts(window, b, filled.cell, n) && filled.log[window] == n
  {
    var lim := Limiter.FixedWindow(max, window);
    var state := (w: World, c: int) => 0 <= c && w.inFlight == [] && Counts(window, b, w.cell, c) && w.log[window] == c;
    forall w, c | state(w, c) && c < n
      ensures Turn(lim, b, w, state, c)
    {
      CountAtZero(max, window, b, w.cell, c);
    }
    TurnsReach(lim, b, INITIALLY, state, 0, n);
  }

  lemma TwoOverrunTheFixedLimit(max: int, window: int, b: Backend, k: nat, skew: nat)
    requires 0 < max && 0 < window && 2 <= k
    ensures FairTwice(k, skew, 0, Turns(max - 1) + Pair())
    ensures !KeepsFixedLimit(max, window, b, Turns(max - 1) + Pair())
  {
    PairIsFair(k, skew, max - 1);
    forall w: World | w.inFlight == [] && Counts(window, b, w.cell, max - 1)
      ensures GainsFixed(max, window, b, w, Pair(), 2)
    {
      CountAtZero(max, window, b, w.cell, max - 1);
      PairIsAdmitted(Limiter.FixedWindow(max, window), b, w,
                     Outcome(FixedState(max, window), window + SECOND, true));
    }
    GainOverrunsFixed(max, window, b, max - 1, Pair(), 2);
  }

  /** One call at a time, but with a clock reading from within the window when the count has expired. */
  lemma ExpiryOverrunsTheFixedLimit(max: int, window: int, b: Backend, skew: nat)
    requires 0 < max && 0 < window && window + SECOND < skew && !b.Eternal?
    ensures
      var late := [Fetch(0, window + SECOND + 1, window + SECOND + 1)];
      FairTwice(1, skew, 0, Turns(max) + late) && !KeepsFixedLimit(max, window, b, Turns(max) + late)
  {
    var late := Fetch(0, window + SECOND + 1, window + SECOND + 1);
    assert AtMost(1, 0, [late]) && ReadsBeforeSets([], [late]);
    TurnsAreFair(1, skew, max, [late]);
    TurnsReadBeforeSets(max, [late]);
    forall w: World | w.inFlight == [] && Counts(window, b, w.cell, max)
      ensures GainsFixed(max, window, b, w, [late], 1)
    {
      assert Visible(w.cell, late.getAt) == None;
      LastFetch(Limiter.FixedWindow(max, window), b, w, late);
    }
    GainOverrunsFixed(max, window, b, max, [late], 1);
  }
}
