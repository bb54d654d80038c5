/** Allow is not atomic: its Get and its Set are two store accesses, and any number of calls may be between them.
    What still holds, whatever the interleaving, for the sliding and the fixed window. */
module Interleavings {
  import opened Prelude
  import opened Storage
  import opened Limiters

  /** One key with the calls in flight: each has fetched and decided but not yet stored its outcome. The log has an
      entry for every admission so far: its timestamp, or for the fixed window the end of the window it counted in. */
  datatype World = World(cell: Cell, inFlight: seq<Outcome>, log: multiset<int>)

  datatype Move =
    | Fetch(now: int, getAt: int, midAt: int)
    | Commit(i: nat, at: int)
    | Fail(i: nat, at: int)
    | Sweep(at: int)
    | Clear(at: int)

  const INITIALLY := World(None, [], multiset{})

  function Tag(o: Outcome, now: int): int {
    if o.next.FixedState? then o.next.windowEnd else now
  }

  function Without<T>(xs: seq<T>, i: nat): seq<T>
    requires i < |xs|
  {
    xs[..i] + xs[i + 1..]
  }

  function Advance(lim: Limiter, b: Backend, w: World, m: Move): World
    requires Divides(lim)
  {
    match m
    case Fetch(now, getAt, midAt) =>
      var o := Decide(lim, Visible(w.cell, getAt), now, midAt);
      World(w.cell, w.inFlight + [o], if o.allowed then w.log + multiset{Tag(o, now)} else w.log)
    case Commit(i, at) =>
      if i < |w.inFlight| then
        var o := w.inFlight[i];
        World(Some(StorageValue(o.next, ExpirationOf(b, at, o.ttl))), Without(w.inFlight, i), w.log)
      else w
    case Fail(i, _) => if i < |w.inFlight| then w.(inFlight := Without(w.inFlight, i)) else w
    case Sweep(at) => w.(cell := SweepCell(w.cell, at))
    case Clear(_) => w.(cell := None)
  }

  function Replay(lim: Limiter, b: Backend, w: World, moves: seq<Move>): World
    requires Divides(lim)
    decreases moves
  {
    if moves == [] then w else Replay(lim, b, Advance(lim, b, w, moves[0]), moves[1..])
  }

  function Instant(m: Move): int {
    if m.Fetch? then m.getAt else m.at
  }

  /** Store accesses happen in order; a call's clock reading is at most `skew` older than its Get. */
  predicate Timed(clock: int, m: Move, skew: int) {
    clock <= Instant(m) && (m.Fetch? ==> m.now <= m.getAt <= m.now + skew)
  }

  predicate AllTimed(clock: int, moves: seq<Move>, skew: int)
    decreases moves
  {
    moves == [] || (Timed(clock, moves[0], skew) && AllTimed(Instant(moves[0]), moves[1..], skew))
  }

  function Latest(clock: int, moves: seq<Move>): int {
    if moves == [] then clock else Instant(moves[|moves| - 1])
  }

  // Sliding window

  /** A list of at most max distinct admissions, in order up to the skew. */
  ghost predicate Records(max: int, skew: int, list: seq<int>, log: multiset<int>, clock: int) {
    && |list| <= Max(0, max)
    && multiset(list) <= log
    && (forall i, j | 0 <= i < j < |list| :: list[i] <= list[j] + skew)
    && (forall i | 0 <= i < |list| :: list[i] <= clock)
  }

  ghost predicate Genuine(max: int, skew: int, v: Value, log: multiset<int>, clock: int) {
    v.SlidingState? && Records(max, skew, v.timestamps, log, clock)
  }

  ghost predicate SlidingSafe(max: int, skew: int, w: World, clock: int) {
    && (w.cell.Some? ==> Genuine(max, skew, w.cell.value.value, w.log, clock))
    && forall i | 0 <= i < |w.inFlight| :: Genuine(max, skew, w.inFlight[i].next, w.log, clock)
  }

  /** n admissions on record lie in (from, to]. */
  ghost predicate Witnessed(log: multiset<int>, n: int, from: int, to: int) {
    exists some: multiset<int> :: some <= log && |some| >= n && forall t | t in some :: from < t <= to
  }

  /** Whatever the interleaving, every list stored or about to be stored records at most max real admissions, each
      once, and every denial is justified by max of them within the window, up to the skew of the clock readings.
      Without skew that is the window itself. */
  lemma SlidingDenialsAreJustified(max: int, window: int, b: Backend, clock: int, moves: seq<Move>, skew: nat,
                                   next: Move)
    requires AllTimed(clock, moves, skew) && Timed(Latest(clock, moves), next, skew) && next.Fetch?
    ensures
      var w := Replay(Limiter.SlidingWindow(max, window), b, INITIALLY, moves);
      && SlidingSafe(max, skew, w, Latest(clock, moves))
      && (DecideSliding(max, window, Visible(w.cell, next.getAt), next.now).allowed
          || Witnessed(w.log, max, next.now - window - skew, next.now + skew))
  {
    var w := Replay(Limiter.SlidingWindow(max, window), b, INITIALLY, moves);
    SlidingStaysSafe(max, window, b, INITIALLY, clock, moves, skew);
    FetchIsJustified(max, window, w, Latest(clock, moves), next, skew);
  }

  lemma FetchIsJustified(max: int, window: int, w: World, clock: int, m: Move, skew: nat)
    requires SlidingSafe(max, skew, w, clock) && Timed(clock, m, skew) && m.Fetch?
    ensures DecideSliding(max, window, Visible(w.cell, m.getAt), m.now).allowed
         || Witnessed(w.log, max, m.now - window - skew, m.now + skew)
  {
    if !DecideSliding(max, window, Visible(w.cell, m.getAt), m.now).allowed {
      DeniedWhenFull(max, window, Visible(w.cell, m.getAt), m.now);
      KeptIsWitness(max, window, w, clock, m, skew);
    }
  }

  ghost predicate Within(list: seq<int>, from: int, to: int) {
    forall i | 0 <= i < |list| :: from < list[i] <= to
  }

  lemma DeniedWhenFull(max: int, window: int, seen: Option<Value>, now: int)
    requires !DecideSliding(max, window, seen, now).allowed
    ensures max <= |Prune(Timestamps(seen), now - window)|
  {
  }

  lemma KeptIsWitness(max: int, window: int, w: World, clock: int, m: Move, skew: nat)
    requires SlidingSafe(max, skew, w, clock) && Timed(clock, m, skew) && m.Fetch?
    requires max <= |Prune(Timestamps(Visible(w.cell, m.getAt)), m.now - window)|
    ensures Witnessed(w.log, max, m.now - window - skew, m.now + skew)
  {
    KeptRecords(max, window, w, clock, m, skew);
    ListIsWitness(Prune(Timestamps(Visible(w.cell, m.getAt)), m.now - window), max, w.log,
                  m.now - window - skew, m.now + skew);
  }

  lemma KeptRecords(max: int, window: int, w: World, clock: int, m: Move, skew: nat)
    requires SlidingSafe(max, skew, w, clock) && Timed(clock, m, skew) && m.Fetch?
    ensures
      var kept := Prune(Timestamps(Visible(w.cell, m.getAt)), m.now - window);
      Records(max, skew, kept, w.log, clock) && Within(kept, m.now - window - skew, m.now + skew)
  {
    var timestamps := Timestamps(Visible(w.cell, m.getAt));
    var from := m.now - window - skew;
    SeenRecords(max, skew, w, clock, m.getAt);
    PruneKeeps(max, skew, timestamps, w.log, clock, m.now - window);
    Widen(Prune(timestamps, m.now - window), from, clock, from, m.now + skew);
  }

  lemma SeenRecords(max: int, skew: nat, w: World, clock: int, at: int)
    requires SlidingSafe(max, skew, w, clock)
    ensures Records(max, skew, Timestamps(Visible(w.cell, at)), w.log, clock)
  {
    if Visible(w.cell, at).Some? {
      assert Genuine(max, skew, w.cell.value.value, w.log, clock);
    }
  }

  lemma Widen(list: seq<int>, from: int, to: int, earlier: int, later: int)
    requires Within(list, from, to) && earlier <= from && to <= later
    ensures Within(list, earlier, later)
  {
  }

  lemma ListIsWitness(list: seq<int>, n: int, log: multiset<int>, from: int, to: int)
    requires multiset(list) <= log && Within(list, from, to) && n <= |list|
    ensures Witnessed(log, n, from, to)
  {
    var some := multiset(list);
    forall t | t in some
      ensures from < t <= to
    {
      assert t in list;
    }
  }

  lemma {:induction false} SlidingStaysSafe(max: int, window: int, b: Backend, w: World, clock: int, moves: seq<Move>,
                                            skew: nat)
    requires AllTimed(clock, moves, skew) && SlidingSafe(max, skew, w, clock)
    ensures SlidingSafe(max, skew, Replay(Limiter.SlidingWindow(max, window), b, w, moves), Latest(clock, moves))
    decreases moves
  {
    if moves != [] {
      var next := Advance(Limiter.SlidingWindow(max, window), b, w, moves[0]);
      assert SlidingSafe(max, skew, next, Instant(moves[0])) by {
        if moves[0].Fetch? {
          FetchStaysSafe(max, window, b, w, clock, moves[0], skew);
        } else {
          OthersStaySafe(max, window, b, w, clock, moves[0], skew);
        }
      }
      SlidingStaysSafe(max, window, b, next, Instant(moves[0]), moves[1..], skew);
    }
  }

  lemma StillGenuine(max: int, skew: int, v: Value, log: multiset<int>, clock: int, later: multiset<int>, now: int)
    requires Genuine(max, skew, v, log, clock) && log <= later && clock <= now
    ensures Genuine(max, skew, v, later, now)
  {
  }

  lemma AllStillGenuine(max: int, skew: int, w: World, clock: int, later: multiset<int>, now: int)
    requires SlidingSafe(max, skew, w, clock) && w.log <= later && clock <= now
    ensures SlidingSafe(max, skew, w.(log := later), now)
  {
    if w.cell.Some? {
      StillGenuine(max, skew, w.cell.value.value, w.log, clock, later, now);
    }
    forall i | 0 <= i < |w.inFlight|
      ensures Genuine(max, skew, w.inFlight[i].next, later, now)
    {
      StillGenuine(max, skew, w.inFlight[i].next, w.log, clock, later, now);
    }
  }

  lemma OthersStaySafe(max: int, window: int, b: Backend, w: World, clock: int, m: Move, skew: nat)
    requires SlidingSafe(max, skew, w, clock) && Timed(clock, m, skew) && !m.Fetch?
    ensures SlidingSafe(max, skew, Advance(Limiter.SlidingWindow(max, window), b, w, m), m.at)
  {
    AllStillGenuine(max, skew, w, clock, w.log, m.at);
  }

  lemma FetchStaysSafe(max: int, window: int, b: Backend, w: World, clock: int, m: Move, skew: nat)
    requires SlidingSafe(max, skew, w, clock) && Timed(clock, m, skew) && m.Fetch?
    ensures SlidingSafe(max, skew, Advance(Limiter.SlidingWindow(max, window), b, w, m), m.getAt)
  {
    var o := DecideSliding(max, window, Visible(w.cell, m.getAt), m.now);
    var log := if o.allowed then w.log + multiset{m.now} else w.log;
    FetchedIsGenuine(max, window, w, clock, m, skew);
    AllStillGenuine(max, skew, w, clock, log, m.getAt);
    JoiningStaysSafe(max, skew, w.(log := log), o, m.getAt);
  }

  lemma JoiningStaysSafe(max: int, skew: nat, w: World, o: Outcome, clock: int)
    requires SlidingSafe(max, skew, w, clock) && Genuine(max, skew, o.next, w.log, clock)
    ensures SlidingSafe(max, skew, w.(inFlight := w.inFlight + [o]), clock)
  {
  }

  lemma FetchedIsGenuine(max: int, window: int, w: World, clock: int, m: Move, skew: nat)
    requires SlidingSafe(max, skew, w, clock) && Timed(clock, m, skew) && m.Fetch?
    ensures
      var o := DecideSliding(max, window, Visible(w.cell, m.getAt), m.now);
      Genuine(max, skew, o.next, if o.allowed then w.log + multiset{m.now} else w.log, m.getAt)
  {
    var kept := Prune(Timestamps(Visible(w.cell, m.getAt)), m.now - window);
    KeptRecords(max, window, w, clock, m, skew);
    if |kept| < max {
      AppendKeeps(max, skew, kept, w.log, clock, m.now, m.getAt);
    } else {
      StillGenuine(max, skew, SlidingState(kept), w.log, clock, w.log, m.getAt);
    }
  }

  lemma AppendKeeps(max: int, skew: nat, list: seq<int>, log: multiset<int>, clock: int, now: int, later: int)
    requires Records(max, skew, list, log, clock) && |list| < max && clock <= later && now <= later <= now + skew
    ensures Records(max, skew, list + [now], log + multiset{now}, later)
  {
    assert multiset(list + [now]) == multiset(list) + multiset{now};
  }

  lemma PruneKeeps(max: int, skew: nat, list: seq<int>, log: multiset<int>, clock: int, windowStart: int)
    requires Records(max, skew, list, log, clock)
    ensures Records(max, skew, Prune(list, windowStart), log, clock)
    ensures Within(Prune(list, windowStart), windowStart - skew, clock)
  {
    var kept, k := Prune(list, windowStart), |list| - |Prune(list, windowStart)|;
    PruneIsSuffix(list, windowStart);
    SuffixRecords(max, skew, list, k, log, clock);
    assert kept == list[k..];
    if k < |list| {
      assert kept[0] == list[k];
      Widen(kept, list[k] - skew - 1, clock, windowStart - skew, clock);
    }
  }

  lemma {:induction false} PruneIsSuffix(list: seq<int>, windowStart: int)
    ensures var kept := Prune(list, windowStart);
      |kept| <= |list| && kept == list[|list| - |kept|..] && (kept != [] ==> windowStart < kept[0])
  {
    if list != [] && list[0] <= windowStart {
      PruneIsSuffix(list[1..], windowStart);
    }
  }

  lemma SuffixRecords(max: int, skew: nat, list: seq<int>, k: nat, log: multiset<int>, clock: int)
    requires Records(max, skew, list, log, clock) && k <= |list|
    ensures Records(max, skew, list[k..], log, clock)
    ensures k < |list| ==> Within(list[k..], list[k] - skew - 1, clock)
  {
    assert list == list[..k] + list[k..];
    assert multiset(list) == multiset(list[..k]) + multiset(list[k..]);
  }

  // Fixed window

  /** The count never exceeds the admissions recorded for its window. */
  ghost predicate Backed(max: int, window: int, v: Value, log: multiset<int>, clock: int) {
    && v.FixedState?
    && 0 <= v.count <= Max(0, max) && v.count <= log[v.windowEnd]
    && v.windowEnd <= clock + window
  }

  ghost predicate FixedSafe(max: int, window: int, w: World, clock: int) {
    && (w.cell.Some? ==> Backed(max, window, w.cell.value.value, w.log, clock))
    && forall i | 0 <= i < |w.inFlight| :: Backed(max, window, w.inFlight[i].next, w.log, clock)
  }

  /** Whatever the interleaving, every count stored or about to be stored is backed by that many real admissions, and
      every denial by max admissions under the window the call falls into. */
  lemma FixedDenialsAreJustified(max: int, window: int, b: Backend, clock: int, moves: seq<Move>, skew: nat, next: Move)
    requires 0 < window && AllTimed(clock, moves, skew) && Timed(Latest(clock, moves), next, skew) && next.Fetch?
    ensures
      var w := Replay(Limiter.FixedWindow(max, window), b, INITIALLY, moves);
      var o := DecideFixed(max, window, Visible(w.cell, next.getAt), next.now, next.midAt);
      && FixedSafe(max, window, w, Latest(clock, moves))
      && (o.allowed || (max <= w.log[o.next.windowEnd] && next.now < o.next.windowEnd <= next.now + skew + window))
  {
    FixedStaysSafe(max, window, b, INITIALLY, clock, moves, skew);
  }

  lemma {:induction false} FixedStaysSafe(max: int, window: int, b: Backend, w: World, clock: int, moves: seq<Move>,
                                          skew: nat)
    requires AllTimed(clock, moves, skew) && FixedSafe(max, window, w, clock)
    ensures FixedSafe(max, window, Replay(Limiter.FixedWindow(max, window), b, w, moves), Latest(clock, moves))
    decreases moves
  {
    if moves != [] {
      FixedMoveStaysSafe(max, window, b, w, clock, moves[0], skew);
      FixedStaysSafe(max, window, b, Advance(Limiter.FixedWindow(max, window), b, w, moves[0]), Instant(moves[0]),
                     moves[1..], skew);
    }
  }

  lemma FixedMoveStaysSafe(max: int, window: int, b: Backend, w: World, clock: int, m: Move, skew: nat)
    requires Timed(clock, m, skew) && FixedSafe(max, window, w, clock)
    ensures FixedSafe(max, window, Advance(Limiter.FixedWindow(max, window), b, w, m), Instant(m))
  {
  }
}
