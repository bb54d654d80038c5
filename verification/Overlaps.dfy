/** How far calls that overlap can overrun the limit: of the interleavings at one instant with at most k calls in
    flight, the worst admits a binomial coefficient less one. */
module Overlaps {
  import opened Prelude
  import opened Storage
  import opened Limiters
  import opened Interleavings
  import opened Turns

  /** Everything happens at instant t. */
  predicate AllAt(t: int, moves: seq<Move>) {
    forall i | 0 <= i < |moves| :: Instant(moves[i]) == t && (moves[i].Fetch? ==> moves[i].now == t)
  }

  function Choose(n: nat, k: nat): nat {
    if k == 0 then 1 else if n == 0 then 0 else Choose(n - 1, k - 1) + Choose(n - 1, k)
  }

  // The worst case as a recurrence

  /** What j slots can admit from a list with room for x more: a first call, what the other slots admit while it is in
      flight, and what all of them admit once it has stored its list, one entry longer, over theirs. */
  function Most(j: nat, x: int): (most: int)
    ensures -1 <= most && (0 <= x ==> 0 <= most)
    decreases j, Max(x, -1) + 1
  {
    if x < 0 then -1 else if j == 0 then 0 else 1 + Most(j - 1, x) + Most(j, x - 1)
  }

  lemma {:induction false} MostIsBinomial(j: nat, x: int)
    requires -1 <= x
    ensures x < 0 && 0 < j ==> Choose(x + j, j) == 0
    ensures 0 <= x ==> Most(j, x) == Choose(x + j, j) - 1
    decreases j, x + 1
  {
    if x < 0 {
      ChooseTooMany(j);
    } else if j > 0 {
      MostIsBinomial(j - 1, x);
      MostIsBinomial(j, x - 1);
    }
  }

  lemma {:induction false} ChooseTooMany(j: nat)
    ensures 0 < j ==> Choose(j - 1, j) == 0
  {
    if j > 1 {
      ChooseTooMany(j - 1);
      FewerYet(j - 2, j);
    }
  }

  lemma {:induction false} FewerYet(n: nat, k: nat)
    requires n < k
    ensures Choose(n, k) == 0
  {
    if n > 0 {
      FewerYet(n - 1, k - 1);
      FewerYet(n - 1, k);
    }
  }

  lemma {:induction false} MostGrows(j: nat, more: nat, x: int)
    requires j <= more
    ensures Most(j, x) <= Most(more, x)
    decreases more
  {
    if j < more {
      MostGrows(j, more - 1, x);
    }
  }

  lemma {:induction false} MoreRoomIsMore(j: nat, x: int, y: int)
    requires -1 <= x <= y
    ensures Most(j, x) <= Most(j, y)
    decreases y
  {
    if x < y {
      MoreRoomIsMore(j, x, y - 1);
    }
  }

  /** One slot more gains more, the more room there is. */
  lemma {:induction false} MostIsSupermodular(j: nat, x: int, y: int)
    requires -1 <= x <= y && 0 < j
    ensures Most(j + 1, x) - Most(j, x) <= Most(j + 1, y) - Most(j, y)
  {
    if 0 <= x {
      MoreRoomIsMore(j + 1, x - 1, y - 1);
    }
  }

  // The potential: the rooms in order, each played with one slot more than the one before

  function Smallest(rooms: multiset<int>): (x: int)
    requires rooms != multiset{}
    ensures x in rooms && forall y | y in rooms :: x <= y
  {
    LeastExists(rooms);
    var x :| x in rooms && forall y | y in rooms :: x <= y;
    x
  }

  lemma {:induction false} LeastExists(rooms: multiset<int>)
    requires rooms != multiset{}
    ensures exists x :: x in rooms && forall y | y in rooms :: x <= y
    decreases |rooms|
  {
    SomeRoom(rooms);
    var x :| x in rooms;
    var others := rooms - multiset{x};
    assert rooms == others + multiset{x};
    if others != multiset{} {
      LeastExists(others);
      var z :| z in others && forall y | y in others :: z <= y;
      LesserIsLeast(others, x, z);
    }
  }

  lemma SomeRoom(rooms: multiset<int>)
    ensures rooms != multiset{} ==> exists x :: x in rooms
  {
    if forall x :: x !in rooms {
      assert rooms == multiset{};
    }
  }

  lemma LesserIsLeast(others: multiset<int>, x: int, z: int)
    requires z in others && forall y | y in others :: z <= y
    ensures exists least :: least in others + multiset{x} && forall y | y in others + multiset{x} :: least <= y
  {
    var least := if x <= z then x else z;
    assert least in others + multiset{x};
  }

  /** The least of the rooms is played with j slots, the next with j + 1, and so on. */
  function Worth(j: nat, rooms: multiset<int>): int
    decreases |rooms|
  {
    if rooms == multiset{} then 0
    else
      var x := Smallest(rooms);
      Most(j, x) + Worth(j + 1, rooms - multiset{x})
  }

  lemma WorthOfLeast(j: nat, rooms: multiset<int>, x: int)
    requires forall y | y in rooms :: x <= y
    ensures Worth(j, rooms + multiset{x}) == Most(j, x) + Worth(j + 1, rooms)
  {
    var all := rooms + multiset{x};
    assert x in all && Smallest(all) == x;
    assert all - multiset{x} == rooms;
  }

  /** The least of the rooms goes first. */
  lemma WorthSplits(j: nat, rooms: multiset<int>, y: int, more: multiset<int>)
    requires y in rooms && (forall z | z in rooms :: y <= z) && forall z | z in more :: y <= z
    ensures Worth(j, rooms + more) == Most(j, y) + Worth(j + 1, (rooms - multiset{y}) + more)
  {
    var rest := (rooms - multiset{y}) + more;
    assert rooms + more == rest + multiset{y};
    assert forall z | z in rest :: z in rooms || z in more;
    WorthOfLeast(j, rest, y);
  }

  function Copies(x: int, n: nat): multiset<int> {
    multiset{}[x := n]
  }

  lemma CopiesSplit(rooms: multiset<int>, x: int, n: nat)
    ensures rooms + Copies(x, 0) == rooms
    ensures rooms + Copies(x, n + 1) == rooms + Copies(x, n) + multiset{x}
  {
  }

  /** A slot for x more than makes up for playing all others with one slot less. */
  lemma {:induction false} SlotPays(j: nat, rooms: multiset<int>, x: int)
    requires 0 < j && -1 <= x && forall y | y in rooms :: -1 <= y
    ensures Worth(j + 1, rooms) + Most(j, x) <= Worth(j, rooms + multiset{x})
    decreases |rooms|
  {
    if rooms == multiset{} || x <= Smallest(rooms) {
      WorthOfLeast(j, rooms, x);
    } else {
      var y := Smallest(rooms);
      WorthSplits(j, rooms, y, multiset{x});
      SlotPays(j + 1, rooms - multiset{y}, x);
      MostIsSupermodular(j, y, x);
    }
  }

  lemma {:induction false} SlotsPay(j: nat, rooms: multiset<int>, x: int, m: nat, top: nat)
    requires 0 < j && top == j + m && -1 <= x && forall y | y in rooms :: -1 <= y
    ensures Worth(top, rooms) <= m + Worth(j, rooms + Copies(x, m))
    decreases m
  {
    CopiesSplit(rooms, x, if m == 0 then 0 else m - 1);
    if m > 0 {
      SlotPays(j, rooms + Copies(x, m - 1), x);
      SlotsPay(j + 1, rooms, x, m - 1, top);
    }
  }

  /** The slots i + 1 to top that start from room r - 1, one by one, add up to the recurrence. */
  lemma {:induction false} SlotsInARow(i: nat, rooms: multiset<int>, r: int, n: nat, top: nat)
    requires top == i + n && 0 <= r && forall y | y in rooms :: r - 1 <= y
    ensures n + Worth(i + 1, rooms + Copies(r - 1, n)) == Most(top, r) - Most(i, r) + Worth(top + 1, rooms)
    decreases n
  {
    if n == 0 {
      CopiesSplit(rooms, r - 1, 0);
    } else {
      var fewer := rooms + Copies(r - 1, n - 1);
      assert Worth(i + 1, rooms + Copies(r - 1, n)) == Most(i + 1, r - 1) + Worth(i + 2, fewer) by {
        CopiesSplit(rooms, r - 1, n - 1);
        WorthOfLeast(i + 1, fewer, r - 1);
      }
      assert n - 1 + Worth(i + 2, fewer) == Most(top, r) - Most(i + 1, r) + Worth(top + 1, rooms) by {
        SlotsInARow(i + 1, rooms, r, n - 1, top);
      }
      assert Most(i + 1, r) == 1 + Most(i, r) + Most(i + 1, r - 1);
    }
  }

  /** Slots that start from room r - 1 are worth no more than one list about to be stored with room for r, played after
      all of them. */
  lemma {:induction false} StoringPays(i: nat, rooms: multiset<int>, r: int, n: nat, top: nat)
    requires top == i + n && 0 <= r && 0 < n && forall y | y in rooms :: -1 <= y
    ensures n + Worth(i + 1, rooms + Copies(r - 1, n)) + Most(i, r) <= Worth(top, rooms + multiset{r})
    decreases |rooms|
  {
    if rooms == multiset{} || r <= Smallest(rooms) {
      SlotsInARow(i, rooms, r, n, top);
      WorthOfLeast(top, rooms, r);
    } else {
      var y := Smallest(rooms);
      StoringPays(i + 1, rooms - multiset{y}, r, n, top + 1);
      LeastFirst(i, rooms, r, n, top, y);
    }
  }

  lemma LeastFirst(i: nat, rooms: multiset<int>, r: int, n: nat, top: nat, y: int)
    requires top == i + n && 0 < n && -1 <= y < r && y in rooms && forall z | z in rooms :: y <= z
    requires
      var rest := rooms - multiset{y};
      n + Worth(i + 2, rest + Copies(r - 1, n)) + Most(i + 1, r) <= Worth(top + 1, rest + multiset{r})
    ensures n + Worth(i + 1, rooms + Copies(r - 1, n)) + Most(i, r) <= Worth(top, rooms + multiset{r})
  {
    var rest := rooms - multiset{y};
    assert Worth(i + 1, rooms + Copies(r - 1, n)) == Most(i + 1, y) + Worth(i + 2, rest + Copies(r - 1, n)) by {
      WorthSplits(i + 1, rooms, y, Copies(r - 1, n));
    }
    assert Worth(top, rooms + multiset{r}) == Most(top, y) + Worth(top + 1, rest + multiset{r}) by {
      WorthSplits(top, rooms, y, multiset{r});
    }
    FirstIsNoMore(i, r, n, top, y, Worth(i + 2, rest + Copies(r - 1, n)), Worth(top + 1, rest + multiset{r}));
  }

  lemma FirstIsNoMore(i: nat, r: int, n: nat, top: nat, y: int, started: int, stored: int)
    requires top == i + n && 0 < n && n + started + Most(i + 1, r) <= stored
    ensures n + (Most(i + 1, y) + started) + Most(i, r) <= Most(top, y) + stored
  {
    MostGrows(i + 1, top, y);
    MostGrows(i, i + 1, r);
  }

  lemma {:induction false} MostOfNothing(j: nat)
    ensures Most(j, 0) == 0
  {
    if j > 0 {
      MostOfNothing(j - 1);
    }
  }

  /** A call that is denied takes up a slot that was worth nothing. */
  lemma {:induction false} DenialPays(j: nat, rooms: multiset<int>)
    requires 0 < j && forall y | y in rooms :: -1 <= y
    ensures Worth(j, rooms + multiset{0}) == 1 + Worth(j, rooms + multiset{-1})
    decreases |rooms|
  {
    if rooms == multiset{} || 0 <= Smallest(rooms) {
      WorthOfLeast(j, rooms, 0);
      WorthOfLeast(j, rooms, -1);
      MostOfNothing(j);
    } else {
      WorthSplits(j, rooms, -1, multiset{0});
      WorthSplits(j, rooms, -1, multiset{-1});
      DenialPays(j + 1, rooms - multiset{-1});
    }
  }

  // States at one instant

  /** A state whose lists hold instant t only, and no more than max of it. */
  ghost predicate Uniform(max: int, t: int, v: Value) {
    v.SlidingState? && |v.timestamps| <= max && forall i | 0 <= i < |v.timestamps| :: v.timestamps[i] == t
  }

  ghost predicate AtOnce(max: int, window: int, t: int, k: nat, w: World) {
    && |w.inFlight| <= k
    && (forall i | 0 <= i < |w.inFlight| :: Uniform(max, t, w.inFlight[i].next) && w.inFlight[i].ttl == window + SECOND)
    && (w.cell.Some? ==>
        && Uniform(max, t, w.cell.value.value)
        && (w.cell.value.expiration.Some? ==> t <= w.cell.value.expiration.value))
  }

  /** The room a list leaves for more calls. */
  function RoomIn(max: int, v: Option<Value>): int {
    max - |Timestamps(v)|
  }

  function Rooms(max: int, inFlight: seq<Outcome>): multiset<int> {
    if inFlight == [] then multiset{} else multiset{RoomIn(max, Some(inFlight[0].next))} + Rooms(max, inFlight[1..])
  }

  lemma {:induction false} RoomsAppend(max: int, xs: seq<Outcome>, o: Outcome)
    ensures Rooms(max, xs + [o]) == Rooms(max, xs) + multiset{RoomIn(max, Some(o.next))}
  {
    if xs == [] {
      assert [] + [o] == [o];
    } else {
      assert (xs + [o])[1..] == xs[1..] + [o];
      RoomsAppend(max, xs[1..], o);
    }
  }

  lemma {:induction false} RoomsWithout(max: int, xs: seq<Outcome>, i: nat)
    requires i < |xs|
    ensures Rooms(max, xs) == Rooms(max, Without(xs, i)) + multiset{RoomIn(max, Some(xs[i].next))}
  {
    if i == 0 {
      assert Without(xs, 0) == xs[1..];
    } else {
      assert Without(xs, i)[1..] == Without(xs[1..], i - 1) && Without(xs, i)[0] == xs[0];
      RoomsWithout(max, xs[1..], i - 1);
    }
  }

  lemma {:induction false} RoomsNonneg(max: int, t: int, xs: seq<Outcome>)
    requires forall i | 0 <= i < |xs| :: Uniform(max, t, xs[i].next)
    ensures forall x | x in Rooms(max, xs) :: 0 <= x
  {
    if xs != [] {
      RoomsNonneg(max, t, xs[1..]);
    }
  }

  /** What may still be admitted with lists in flight that leave these rooms: every free slot starts from the list that
      is stored, and its first call is one more. */
  function Prospect(rooms: multiset<int>, room: int, free: nat): int {
    free + Worth(1, rooms + Copies(room - 1, free))
  }

  function Potential(max: int, k: nat, w: World): int
    requires |w.inFlight| <= k
  {
    Prospect(Rooms(max, w.inFlight), RoomIn(max, Seen(w.cell)), k - |w.inFlight|)
  }

  function Seen(cell: Cell): Option<Value> {
    if cell.Some? then Some(cell.value.value) else None
  }

  lemma {:induction false} WorthNonneg(j: nat, rooms: multiset<int>)
    requires forall x | x in rooms :: 0 <= x
    ensures 0 <= Worth(j, rooms)
    decreases |rooms|
  {
    if rooms != multiset{} {
      WorthNonneg(j + 1, rooms - multiset{Smallest(rooms)});
    }
  }

  lemma PotentialNonneg(max: int, window: int, t: int, k: nat, w: World)
    requires 0 <= max && AtOnce(max, window, t, k, w)
    ensures 0 <= Potential(max, k, w)
  {
    var rooms, free := Rooms(max, w.inFlight), k - |w.inFlight|;
    RoomsNonneg(max, t, w.inFlight);
    ProspectCovers(rooms, RoomIn(max, Seen(w.cell)), free, free + 1);
    WorthNonneg(free + 1, rooms);
  }

  lemma ProspectCovers(rooms: multiset<int>, room: nat, free: nat, slots: nat)
    requires slots == free + 1 && forall x | x in rooms :: 0 <= x
    ensures Worth(slots, rooms) <= Prospect(rooms, room, free)
  {
    SlotsPay(1, rooms, room - 1, free, slots);
  }

  /** No move raises the potential, and a call that is admitted lowers it by one. */
  lemma MovePays(max: int, window: int, b: Backend, t: int, k: nat, w: World, m: Move)
    requires 0 <= max && 0 < window && AtOnce(max, window, t, k, w) && Instant(m) == t && !m.Fail? && !m.Clear?
    requires m.Fetch? ==> m.now == t && |w.inFlight| < k
    ensures
      var next := Advance(Limiter.SlidingWindow(max, window), b, w, m);
      && AtOnce(max, window, t, k, next)
      && |next.inFlight| == (if m.Fetch? then |w.inFlight| + 1
                             else if m.Commit? && m.i < |w.inFlight| then |w.inFlight| - 1 else |w.inFlight|)
      && next.log[t] + Potential(max, k, next) <= w.log[t] + Potential(max, k, w)
  {
    match m
    case Fetch(_, _, _) => FetchPays(max, window, b, t, k, w, m);
    case Commit(i, _) =>
      if i < |w.inFlight| {
        CommitPays(max, window, b, t, k, w, m);
      }
    case Sweep(_) =>
  }

  lemma FetchPays(max: int, window: int, b: Backend, t: int, k: nat, w: World, m: Move)
    requires 0 <= max && 0 < window && AtOnce(max, window, t, k, w) && m.Fetch? && m.now == m.getAt == t
    requires |w.inFlight| < k
    ensures
      var next := Advance(Limiter.SlidingWindow(max, window), b, w, m);
      && AtOnce(max, window, t, k, next)
      && next.log[t] + Potential(max, k, next) == w.log[t] + Potential(max, k, w)
  {
    var o := DecideSliding(max, window, Visible(w.cell, t), t);
    DecideAtOnce(max, window, w.cell, t);
    RoomsNonneg(max, t, w.inFlight);
    var log := if o.allowed then w.log + multiset{t} else w.log;
    assert Advance(Limiter.SlidingWindow(max, window), b, w, m) == World(w.cell, w.inFlight + [o], log);
    JoinsAtOnce(max, window, t, k, w, o, log);
    JoinsPotential(max, k, w, o, log);
  }

  lemma JoinsAtOnce(max: int, window: int, t: int, k: nat, w: World, o: Outcome, log: multiset<int>)
    requires AtOnce(max, window, t, k, w) && |w.inFlight| < k && Uniform(max, t, o.next) && o.ttl == window + SECOND
    ensures AtOnce(max, window, t, k, World(w.cell, w.inFlight + [o], log))
  {
  }

  lemma JoinsPotential(max: int, k: nat, w: World, o: Outcome, log: multiset<int>)
    requires |w.inFlight| < k && forall x | x in Rooms(max, w.inFlight) :: 0 <= x
    requires
      var room := RoomIn(max, Seen(w.cell));
      0 <= room && RoomIn(max, Some(o.next)) == if 0 < room then room - 1 else 0
    ensures Potential(max, k, World(w.cell, w.inFlight + [o], log)) + One(0 < RoomIn(max, Seen(w.cell)))
         == Potential(max, k, w)
  {
    var rooms, room, free := Rooms(max, w.inFlight), RoomIn(max, Seen(w.cell)), k - |w.inFlight|;
    var taken := if room > 0 then room - 1 else 0;
    assert Rooms(max, w.inFlight + [o]) == rooms + multiset{taken} by {
      RoomsAppend(max, w.inFlight, o);
    }
    assert Prospect(rooms + multiset{taken}, room, free - 1) + One(room > 0) == Prospect(rooms, room, free) by {
      FetchedIsWorth(rooms, room, free);
    }
  }

  /** A slot that fetches is worth one call less, or as much as before if the list is full. */
  lemma FetchedIsWorth(rooms: multiset<int>, room: nat, free: nat)
    requires 0 < free && forall x | x in rooms :: 0 <= x
    ensures Prospect(rooms + multiset{if room > 0 then room - 1 else 0}, room, free - 1) + One(room > 0)
         == Prospect(rooms, room, free)
  {
    var others := rooms + Copies(room - 1, free - 1);
    assert rooms + Copies(room - 1, free) == others + multiset{room - 1} by {
      CopiesSplit(rooms, room - 1, free - 1);
    }
    if room > 0 {
      assert rooms + multiset{room - 1} + Copies(room - 1, free - 1) == others + multiset{room - 1};
    } else {
      assert rooms + multiset{0} + Copies(room - 1, free - 1) == others + multiset{0};
      assert Worth(1, others + multiset{0}) == 1 + Worth(1, others + multiset{-1}) by {
        DenialPays(1, others);
      }
    }
  }

  lemma DecideAtOnce(max: int, window: int, cell: Cell, t: int)
    requires 0 <= max && 0 < window
    requires cell.Some? ==>
      Uniform(max, t, cell.value.value) && (cell.value.expiration.Some? ==> t <= cell.value.expiration.value)
    ensures
      var o, room := DecideSliding(max, window, Visible(cell, t), t), RoomIn(max, Seen(cell));
      && o.allowed == (0 < room) && 0 <= room
      && Uniform(max, t, o.next) && o.ttl == window + SECOND
      && RoomIn(max, Some(o.next)) == if 0 < room then room - 1 else 0
  {
    var list := Timestamps(Visible(cell, t));
    assert Visible(cell, t) == Seen(cell);
    assert Prune(list, t - window) == list;
  }

  lemma CommitPays(max: int, window: int, b: Backend, t: int, k: nat, w: World, m: Move)
    requires 0 <= max && 0 < window && AtOnce(max, window, t, k, w) && m.Commit? && m.at == t && m.i < |w.inFlight|
    ensures
      var next := Advance(Limiter.SlidingWindow(max, window), b, w, m);
      && AtOnce(max, window, t, k, next) && next.log == w.log
      && Potential(max, k, next) <= Potential(max, k, w)
  {
    var o := w.inFlight[m.i];
    var cell := Some(StorageValue(o.next, ExpirationOf(b, t, o.ttl)));
    assert Advance(Limiter.SlidingWindow(max, window), b, w, m) == World(cell, Without(w.inFlight, m.i), w.log);
    LeavesAtOnce(max, window, t, k, w, m.i, cell);
    RoomsNonneg(max, t, Without(w.inFlight, m.i));
    LeavesPotential(max, k, w, m.i, cell);
  }

  lemma LeavesAtOnce(max: int, window: int, t: int, k: nat, w: World, i: nat, cell: Cell)
    requires AtOnce(max, window, t, k, w) && i < |w.inFlight| && cell.Some?
    requires cell.value.value == w.inFlight[i].next
    requires cell.value.expiration.Some? ==> t <= cell.value.expiration.value
    ensures AtOnce(max, window, t, k, World(cell, Without(w.inFlight, i), w.log))
    ensures 0 <= RoomIn(max, Seen(cell)) && (0 <= max ==> 0 <= RoomIn(max, Seen(w.cell)))
  {
  }

  lemma LeavesPotential(max: int, k: nat, w: World, i: nat, cell: Cell)
    requires i < |w.inFlight| <= k && cell.Some? && cell.value.value == w.inFlight[i].next
    requires 0 <= RoomIn(max, Seen(cell)) && 0 <= RoomIn(max, Seen(w.cell))
    requires forall x | x in Rooms(max, Without(w.inFlight, i)) :: 0 <= x
    ensures Potential(max, k, World(cell, Without(w.inFlight, i), w.log)) <= Potential(max, k, w)
  {
    var rest, r, room := Rooms(max, Without(w.inFlight, i)), RoomIn(max, Seen(cell)), RoomIn(max, Seen(w.cell));
    var free, slots := k - |w.inFlight|, k - |Without(w.inFlight, i)|;
    assert Rooms(max, w.inFlight) == rest + multiset{r} by {
      RoomsWithout(max, w.inFlight, i);
    }
    assert Prospect(rest, r, slots) <= Prospect(rest + multiset{r}, room, free) by {
      StoredIsWorth(rest, r, room, free, slots);
    }
  }

  /** A list with room for r that is stored, and the slots that then start from it, are worth no more than before. */
  lemma StoredIsWorth(rest: multiset<int>, r: nat, room: nat, free: nat, slots: nat)
    requires slots == free + 1 && forall x | x in rest :: 0 <= x
    ensures Prospect(rest, r, slots) <= Prospect(rest + multiset{r}, room, free)
  {
    ProspectOfStored(rest, r, slots);
    ProspectCovers(rest + multiset{r}, room, free, slots);
  }

  lemma ProspectOfStored(rest: multiset<int>, r: nat, slots: nat)
    requires 0 < slots && forall x | x in rest :: 0 <= x
    ensures Prospect(rest, r, slots) <= Worth(slots, rest + multiset{r})
  {
    assert slots + Worth(1, rest + Copies(r - 1, slots)) + Most(0, r) <= Worth(slots, rest + multiset{r}) by {
      StoringPays(0, rest, r, slots, slots);
    }
  }

  lemma {:induction false} NeverMore(max: int, window: int, b: Backend, t: int, k: nat, w: World, moves: seq<Move>)
    requires 0 <= max && 0 < window && AtOnce(max, window, t, k, w)
    requires AllAt(t, moves) && AtMost(k, |w.inFlight|, moves)
    requires forall i | 0 <= i < |moves| :: !moves[i].Fail? && !moves[i].Clear?
    ensures Replay(Limiter.SlidingWindow(max, window), b, w, moves).log[t] <= w.log[t] + Potential(max, k, w)
    decreases moves
  {
    if moves == [] {
      PotentialNonneg(max, window, t, k, w);
    } else {
      var m := moves[0];
      assert !m.Fail? && !m.Clear? && Instant(m) == t && (m.Fetch? ==> m.now == t);
      MovePays(max, window, b, t, k, w, m);
      NeverMore(max, window, b, t, k, Advance(Limiter.SlidingWindow(max, window), b, w, m), moves[1..]);
    }
  }

  // The worst interleaving

  /** With d calls in flight: a call fetches and stays in flight while the other slots do their worst from the same
      list; then it stores its own over what they have left, and all slots go on from there. */
  function Contend(t: int, d: nat, j: nat, room: nat): seq<Move>
    decreases j + room
  {
    if j == 0 || room == 0 then []
    else [Fetch(t, t, t)] + (Contend(t, d + 1, j - 1, room) + ([Commit(d, t)] + Contend(t, d, j, room - 1)))
  }

  lemma {:induction false} ContendTakesSlots(k: nat, t: int, d: nat, j: nat, room: nat, tail: seq<Move>)
    requires d + j <= k && AtMost(k, d, tail)
    ensures AtMost(k, d, Contend(t, d, j, room) + tail)
    decreases j + room
  {
    if j == 0 || room == 0 {
      assert Contend(t, d, j, room) + tail == tail;
    } else {
      var later := Contend(t, d, j, room - 1) + tail;
      assert AtMost(k, d, later) by {
        ContendTakesSlots(k, t, d, j, room - 1, tail);
      }
      var stored := [Commit(d, t)] + later;
      assert AtMost(k, d + 1, stored) by {
        assert stored[1..] == later;
      }
      var rest := Contend(t, d + 1, j - 1, room) + stored;
      assert AtMost(k, d + 1, rest) by {
        ContendTakesSlots(k, t, d + 1, j - 1, room, stored);
      }
      ContendRegroups(t, d, j, room, tail);
      assert ([Fetch(t, t, t)] + rest)[1..] == rest;
    }
  }

  lemma ContendRegroups(t: int, d: nat, j: nat, room: nat, tail: seq<Move>)
    requires 0 < j && 0 < room
    ensures Contend(t, d, j, room) + tail
         == [Fetch(t, t, t)] + (Contend(t, d + 1, j - 1, room) + ([Commit(d, t)] + (Contend(t, d, j, room - 1) + tail)))
  {
  }

  lemma {:induction false} ContendIsPlain(t: int, d: nat, j: nat, room: nat)
    ensures Plain(t, Contend(t, d, j, room))
    decreases j + room
  {
    if 0 < j && 0 < room {
      ContendIsPlain(t, d + 1, j - 1, room);
      ContendIsPlain(t, d, j, room - 1);
    }
  }

  /** Only fetches and commits, all at instant t. */
  predicate Plain(t: int, moves: seq<Move>) {
    forall i | 0 <= i < |moves| :: moves[i] == Fetch(t, t, t) || (moves[i].Commit? && moves[i].at == t)
  }

  lemma {:induction false} PlainIsTimed(t: int, moves: seq<Move>)
    requires Plain(t, moves)
    ensures AllTimed(t, moves, 0)
    decreases moves
  {
    if moves != [] {
      PlainIsTimed(t, moves[1..]);
    }
  }

  ghost predicate Holds(max: int, t: int, cell: Cell, room: nat) {
    && RoomIn(max, Seen(cell)) == room
    && (cell.Some? ==>
        Uniform(max, t, cell.value.value) && (cell.value.expiration.Some? ==> t <= cell.value.expiration.value))
  }

  /** The world after the worst that j slots can do. */
  function Contended(max: int, window: int, b: Backend, t: int, w: World, j: nat, room: nat): World {
    Replay(Limiter.SlidingWindow(max, window), b, w, Contend(t, |w.inFlight|, j, room))
  }

  lemma {:induction false} ContendAdmits(max: int, window: int, b: Backend, t: int, w: World, j: nat, room: nat)
    requires 0 <= max && 0 < window && Holds(max, t, w.cell, room)
    ensures
      var end := Contended(max, window, b, t, w, j, room);
      end.inFlight == w.inFlight && end.log[t] == w.log[t] + Most(j, room)
    decreases j + room
  {
    if j == 0 || room == 0 {
      MostOfNothing(j);
      assert Contend(t, |w.inFlight|, j, room) == [];
    } else {
      var o := DecideSliding(max, window, Visible(w.cell, t), t);
      var w1 := World(w.cell, w.inFlight + [o], w.log + multiset{t});
      var w2 := Contended(max, window, b, t, w1, j - 1, room);
      var w3 := World(Some(StorageValue(o.next, ExpirationOf(b, t, o.ttl))), w.inFlight, w2.log);
      ContendAdmits(max, window, b, t, w1, j - 1, room);
      ContendGoesOn(max, window, b, t, w, j, room);
      ContendAdmits(max, window, b, t, w3, j, room - 1);
    }
  }

  /** After the first call has stored its list, all slots go on from there. */
  lemma ContendGoesOn(max: int, window: int, b: Backend, t: int, w: World, j: nat, room: nat)
    requires 0 <= max && 0 < window && Holds(max, t, w.cell, room) && 0 < j && 0 < room
    requires
      var o := DecideSliding(max, window, Visible(w.cell, t), t);
      var w1 := World(w.cell, w.inFlight + [o], w.log + multiset{t});
      Contended(max, window, b, t, w1, j - 1, room).inFlight == w1.inFlight
    ensures
      var o := DecideSliding(max, window, Visible(w.cell, t), t);
      var w1 := World(w.cell, w.inFlight + [o], w.log + multiset{t});
      var w2 := Contended(max, window, b, t, w1, j - 1, room);
      var w3 := World(Some(StorageValue(o.next, ExpirationOf(b, t, o.ttl))), w.inFlight, w2.log);
      && Holds(max, t, w3.cell, room - 1)
      && Contended(max, window, b, t, w, j, room) == Contended(max, window, b, t, w3, j, room - 1)
  {
    var o := DecideSliding(max, window, Visible(w.cell, t), t);
    var w1 := World(w.cell, w.inFlight + [o], w.log + multiset{t});
    var w2 := Contended(max, window, b, t, w1, j - 1, room);
    var w3 := World(Some(StorageValue(o.next, ExpirationOf(b, t, o.ttl))), w.inFlight, w2.log);
    FirstHolds(max, window, b, t, w, room, w2);
    ContendUnfolds(Limiter.SlidingWindow(max, window), b, w, t, |w.inFlight|, j, room, w1, w2, w3);
  }

  /** The first call is admitted; and what it stores in the end is its list, one entry longer than it found. */
  lemma FirstHolds(max: int, window: int, b: Backend, t: int, w: World, room: nat, w2: World)
    requires 0 <= max && 0 < window && Holds(max, t, w.cell, room) && 0 < room
    requires w2.inFlight == w.inFlight + [DecideSliding(max, window, Visible(w.cell, t), t)]
    ensures
      var lim, o := Limiter.SlidingWindow(max, window), DecideSliding(max, window, Visible(w.cell, t), t);
      var cell := Some(StorageValue(o.next, ExpirationOf(b, t, o.ttl)));
      && Advance(lim, b, w, Fetch(t, t, t)) == World(w.cell, w.inFlight + [o], w.log + multiset{t})
      && Advance(lim, b, w2, Commit(|w.inFlight|, t)) == World(cell, w.inFlight, w2.log)
      && Holds(max, t, cell, room - 1)
  {
    DecideAtOnce(max, window, w.cell, t);
    assert Without(w2.inFlight, |w.inFlight|) == w.inFlight;
  }

  lemma ContendUnfolds(lim: Limiter, b: Backend, w: World, t: int, d: nat, j: nat, room: nat, w1: World, w2: World,
                       w3: World)
    requires Divides(lim) && 0 < j && 0 < room
    requires Advance(lim, b, w, Fetch(t, t, t)) == w1
    requires Replay(lim, b, w1, Contend(t, d + 1, j - 1, room)) == w2
    requires Advance(lim, b, w2, Commit(d, t)) == w3
    ensures Replay(lim, b, w, Contend(t, d, j, room)) == Replay(lim, b, w3, Contend(t, d, j, room - 1))
  {
    var last := Contend(t, d, j, room - 1);
    MoveFirst(lim, b, w, Fetch(t, t, t), Contend(t, d + 1, j - 1, room) + ([Commit(d, t)] + last));
    ReplayConcat(lim, b, w1, Contend(t, d + 1, j - 1, room), [Commit(d, t)] + last);
    MoveFirst(lim, b, w2, Commit(d, t), last);
  }

  lemma MoveFirst(lim: Limiter, b: Backend, w: World, m: Move, rest: seq<Move>)
    requires Divides(lim)
    ensures Replay(lim, b, w, [m] + rest) == Replay(lim, b, Advance(lim, b, w, m), rest)
  {
    assert ([m] + rest)[1..] == rest;
  }

  /** Of all interleavings at one instant, on a key without state, with at most k calls in flight, none admits more than
      the number of ways to choose k of max + k, less one; and one does admit so many. */
  lemma OverrunIsBinomial(max: nat, window: int, b: Backend, t: int, k: nat)
    requires 0 < window
    ensures forall moves | Fair(k, 0, t, moves) && AllAt(t, moves) ::
      Replay(Limiter.SlidingWindow(max, window), b, INITIALLY, moves).log[t] <= Choose(max + k, k) - 1
    ensures Fair(k, 0, t, Contend(t, 0, k, max)) && AllAt(t, Contend(t, 0, k, max))
    ensures Replay(Limiter.SlidingWindow(max, window), b, INITIALLY, Contend(t, 0, k, max)).log[t]
         == Choose(max + k, k) - 1
  {
    MostIsBinomial(k, max);
    forall moves | Fair(k, 0, t, moves) && AllAt(t, moves)
      ensures Replay(Limiter.SlidingWindow(max, window), b, INITIALLY, moves).log[t] <= Choose(max + k, k) - 1
    {
      NeverMore(max, window, b, t, k, INITIALLY, moves);
      InitialPotential(max, k);
    }
    ContendTakesSlots(k, t, 0, k, max, []);
    assert Contend(t, 0, k, max) + [] == Contend(t, 0, k, max);
    ContendIsPlain(t, 0, k, max);
    PlainIsTimed(t, Contend(t, 0, k, max));
    ContendAdmits(max, window, b, t, INITIALLY, k, max);
  }

  lemma InitialPotential(max: nat, k: nat)
    ensures Potential(max, k, INITIALLY) == Most(k, max)
  {
    assert Rooms(max, INITIALLY.inFlight) == multiset{} && RoomIn(max, Seen(INITIALLY.cell)) == max;
    ProspectOfNothing(max, k, multiset{});
  }

  lemma ProspectOfNothing(max: nat, k: nat, none: multiset<int>)
    requires none == multiset{}
    ensures Prospect(none, max, k) == Most(k, max)
  {
    assert k + Worth(1, none + Copies(max - 1, k)) == Most(k, max) - Most(0, max) + Worth(k + 1, none) by {
      SlotsInARow(0, none, max, k, k);
    }
  }

  // Any number of calls at a time

  function Overlapping(t: int, n: nat): seq<Move> {
    if n == 0 then [] else [Fetch(t, t, t)] + Overlapping(t, n - 1)
  }

  /** Calls that overlap are all admitted, however many there are and whatever the limit. */
  lemma OverlappingCallsAreAllAdmitted(max: int, window: int, b: Backend, t: int, n: nat)
    requires 0 < max && 0 < window
    ensures Fair(n, 0, t, Overlapping(t, n))
    ensures Replay(Limiter.SlidingWindow(max, window), b, INITIALLY, Overlapping(t, n)).log[t] == n
  {
    OverlapIsFair(n, 0, t, n);
    OverlapIsAdmitted(max, window, b, INITIALLY, t, n);
  }

  lemma {:induction false} OverlapIsFair(k: nat, inFlight: nat, t: int, n: nat)
    requires inFlight + n <= k
    ensures AllTimed(t, Overlapping(t, n), 0) && AtMost(k, inFlight, Overlapping(t, n))
    ensures forall i | 0 <= i < |Overlapping(t, n)| :: Overlapping(t, n)[i].Fetch?
    decreases n
  {
    if n > 0 {
      OverlapIsFair(k, inFlight + 1, t, n - 1);
    }
  }

  lemma {:induction false} OverlapIsAdmitted(max: int, window: int, b: Backend, w: World, t: int, n: nat)
    requires 0 < max && w.cell == None
    ensures Replay(Limiter.SlidingWindow(max, window), b, w, Overlapping(t, n)).log[t] == w.log[t] + n
    decreases n
  {
    if n > 0 {
      var next := Advance(Limiter.SlidingWindow(max, window), b, w, Fetch(t, t, t));
      FirstCallIsAllowed(max, window, t);
      OverlapIsAdmitted(max, window, b, next, t, n - 1);
      assert Overlapping(t, n)[1..] == Overlapping(t, n - 1);
    }
  }

  lemma FirstCallIsAllowed(max: int, window: int, t: int)
    requires 0 < max
    ensures DecideSliding(max, window, None, t) == Outcome(SlidingState([t]), window + SECOND, true)
  {
    assert Prune([], t - window) == [];
    assert [] + [t] == [t];
  }
}
