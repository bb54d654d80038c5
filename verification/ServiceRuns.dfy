/** What the service guarantees over whole runs of operations on any keys. */
module ServiceRuns {
  import opened Prelude
  import opened Storage
  import opened Limiters
  import opened Service
  import SlidingWindows

  function After(b: Backend, s: State, ops: seq<Op>): State
    decreases ops
  {
    if ops == [] then s else After(b, Respond(b, s, ops[0]).0, ops[1..])
  }

  function Responses(b: Backend, s: State, ops: seq<Op>): (rs: seq<Response>)
    ensures |rs| == |ops|
    decreases ops
  {
    if ops == [] then []
    else
      var (next, response) := Respond(b, s, ops[0]);
      [response] + Responses(b, next, ops[1..])
  }

  const FRESH := State(map[], map[])

  // Keys never collide

  /** No prefix is a prefix of another: what something is stored under tells what it is and whose. */
  lemma StoreKeysAreDistinct(s1: Slot, k1: string, s2: Slot, k2: string)
    requires StoreKey(s1, k1) == StoreKey(s2, k2)
    ensures s1 == s2 && k1 == k2
  {
    var x := StoreKey(s1, k1);
    Signature(s1, k1);
    Signature(s2, k2);
    assert s1 == s2;
    assert x[|Prefix(s1)|..] == k1;
    assert x[|Prefix(s2)|..] == k2;
  }

  /** Three positions of a store key tell its slot. */
  lemma Signature(s: Slot, k: string)
    ensures |StoreKey(s, k)| > 10
    ensures
      var x := StoreKey(s, k);
      s == if x[0] == 'r' then (if x[10] == 'c' then ConfigSlot else MetadataSlot)
           else if x[8] == 's' then SlidingSlot else if x[8] == 't' then TokenSlot
           else if x[8] == 'l' then LeakySlot else FixedSlot
  {
    assert StoreKey(s, k)[..11] == Prefix(s)[..11];
    var x := StoreKey(s, k);
    assert x[0] == x[..11][0] && x[8] == x[..11][8] && x[10] == x[..11][10];
  }

  /** Limiter keys tell key and algorithm apart, even when the key contains colons. */
  lemma LimiterKeysAreDistinct(k1: string, a1: string, k2: string, a2: string)
    requires a1 in ALGORITHMS && a2 in ALGORITHMS && LimiterKey(k1, a1) == LimiterKey(k2, a2)
    ensures k1 == k2 && a1 == a2
  {
    NoColon(a1);
    NoColon(a2);
    if |k1| < |k2| {
      ColonInside(k1, a1, k2, a2);
    } else if |k2| < |k1| {
      ColonInside(k2, a2, k1, a1);
    }
    var x := LimiterKey(k1, a1);
    assert k1 == x[..|k1|] && k2 == x[..|k2|];
    assert a1 == x[|k1| + 1..] && a2 == x[|k2| + 1..];
  }

  lemma NoColon(a: string)
    requires a in ALGORITHMS
    ensures ':' !in a
  {
  }

  lemma ColonInside(k1: string, a1: string, k2: string, a2: string)
    requires |k1| < |k2| && LimiterKey(k1, a1) == LimiterKey(k2, a2)
    ensures ':' in a1
  {
    var x := LimiterKey(k1, a1);
    assert x[|k2|] == LimiterKey(k2, a2)[|k2|] == ':';
    assert x[|k2|] == a1[|k2| - |k1| - 1];
  }

  // Invariant

  /** Accepted by ValidateConfig, and its durations fit a time.Duration. */
  predicate Fits(cfg: Config) {
    && ValidateConfig(cfg) == None
    && cfg.windowSeconds * SECOND < TWO_63
    && (cfg.algorithm == TOKEN_BUCKET ==> cfg.refillInterval * SECOND < TWO_63)
  }

  ghost predicate AllFit(ops: seq<Op>) {
    forall i | 0 <= i < |ops| && ops[i].SetConfig? && ValidateConfig(ops[i].config) == None :: Fits(ops[i].config)
  }

  predicate Matches(lim: Limiter, algorithm: string) {
    match lim
    case SlidingWindow(max, window) => algorithm == SLIDING_WINDOW && 0 < max && 0 < window
    case TokenBucket(rate, interval, cap) => algorithm == TOKEN_BUCKET && 1.0 <= rate && 0 < interval && 1.0 <= cap
    case LeakyBucket(capacity, rate, interval) => algorithm == LEAKY_BUCKET && 0 < capacity && 0 < rate && 0 < interval
    case FixedWindow(max, window) => algorithm == FIXED_WINDOW && 0 < max && 0 < window
  }

  /** A value is of the kind its slot is for. */
  predicate Belongs(slot: Slot, v: Value) {
    match slot
    case ConfigSlot => v.ConfigJson? && Fits(v.config)
    case MetadataSlot => v.MetadataJson?
    case SlidingSlot => v.SlidingState?
    case TokenSlot => v.BucketState?
    case LeakySlot => v.LeakyState?
    case FixedSlot => v.FixedState?
  }

  ghost predicate DataInvariant(data: Data) {
    forall slot, key | StoreKey(slot, key) in data :: Belongs(slot, data[StoreKey(slot, key)].value)
  }

  ghost predicate LimiterInvariant(limiters: map<string, Limiter>) {
    forall key, algorithm | algorithm in ALGORITHMS && LimiterKey(key, algorithm) in limiters ::
      Matches(limiters[LimiterKey(key, algorithm)], algorithm)
  }

  /** Starting from nothing, whatever operations run on whatever keys with whatever store failures: everything stored
      is what its key says, every cached limiter is of the algorithm its key names with positive parameters, and no
      operation divides by zero, fails to parse or meets an unsupported algorithm. */
  lemma ServiceIsSafe(b: Backend, ops: seq<Op>)
    requires AllFit(ops)
    ensures var s := After(b, FRESH, ops); DataInvariant(s.data) && LimiterInvariant(s.limiters)
    ensures forall i | 0 <= i < |ops| :: Proper(Responses(b, FRESH, ops)[i])
  {
    SafeThroughout(b, FRESH, ops);
  }

  predicate Proper(response: Response) {
    && response != Undefined
    && (response.Failed? ==> response.error != Unparsable && !response.error.Unsupported?)
  }

  lemma {:induction false} SafeThroughout(b: Backend, s: State, ops: seq<Op>)
    requires AllFit(ops) && DataInvariant(s.data) && LimiterInvariant(s.limiters)
    ensures var end := After(b, s, ops); DataInvariant(end.data) && LimiterInvariant(end.limiters)
    ensures forall i | 0 <= i < |ops| :: Proper(Responses(b, s, ops)[i])
    decreases ops
  {
    if ops != [] {
      var (next, response) := Respond(b, s, ops[0]);
      assert AllFit(ops[..1]) && AllFit(ops[1..]);
      OpIsSafe(b, s, ops[0]);
      SafeThroughout(b, next, ops[1..]);
      assert Responses(b, s, ops) == [response] + Responses(b, next, ops[1..]);
    }
  }

  lemma OpIsSafe(b: Backend, s: State, op: Op)
    requires DataInvariant(s.data) && LimiterInvariant(s.limiters)
    requires op.SetConfig? && ValidateConfig(op.config) == None ==> Fits(op.config)
    ensures
      var (next, response) := Respond(b, s, op);
      DataInvariant(next.data) && LimiterInvariant(next.limiters) && Proper(response)
  {
    match op
    case SetConfig(key, cfg, at, _, _) =>
      if ValidateConfig(cfg).None? {
        PutKeeps(s.data, ConfigSlot, key, StorageValue(ConfigJson(cfg), ExpirationOf(b, at, 0)));
        var data := s.data[StoreKey(ConfigSlot, key) := StorageValue(ConfigJson(cfg), ExpirationOf(b, at, 0))];
        PutKeeps(data, MetadataSlot, key, StorageValue(MetadataJson(at / SECOND, at / SECOND), ExpirationOf(b, at, 0)));
      }
    case CheckLimit(key, at, configOk, r) =>
      FetchedFits(s.data, key, at, configOk);
      var fetched := FetchConfig(s.data, key, at, configOk);
      if fetched.Ok? {
        LimiterIsProper(s.limiters, key, fetched.value);
        var lim := LimiterFor(s.limiters, key, fetched.value).value;
        AllowBelongs(lim, b, Lookup(s.data, StoreKey(SlotOf(lim), key)), r);
        var cell := Allow(lim, b, Lookup(s.data, StoreKey(SlotOf(lim), key)), r).0;
        if cell.Some? {
          PutKeeps(s.data, SlotOf(lim), key, cell.value);
        }
      }
    case ResetLimit(key, at, configOk, _, _, _) =>
      FetchedFits(s.data, key, at, configOk);
      var fetched := FetchConfig(s.data, key, at, configOk);
      if fetched.Ok? {
        LimiterIsProper(s.limiters, key, fetched.value);
      }
    case GetStatus(key, at, configOk, _) =>
      FetchedFits(s.data, key, at, configOk);
    case Cleanup(_) =>
  }

  lemma PutKeeps(data: Data, slot: Slot, key: string, sv: StorageValue)
    requires DataInvariant(data)
    ensures Belongs(slot, sv.value) ==> DataInvariant(data[StoreKey(slot, key) := sv])
  {
    var next := data[StoreKey(slot, key) := sv];
    if Belongs(slot, sv.value) {
      forall s, k | StoreKey(s, k) in next
        ensures Belongs(s, next[StoreKey(s, k)].value)
      {
        if StoreKey(s, k) == StoreKey(slot, key) {
          StoreKeysAreDistinct(s, k, slot, key);
        }
      }
    }
  }

  lemma FetchedFits(data: Data, key: string, at: int, ok: bool)
    requires DataInvariant(data)
    ensures var fetched := FetchConfig(data, key, at, ok);
      if fetched.Ok? then Fits(fetched.value) else fetched.error in {NotFound, StoreFailed}
  {
    assert StoreKey(ConfigSlot, key) in data ==> Belongs(ConfigSlot, data[StoreKey(ConfigSlot, key)].value);
  }

  lemma LimiterIsProper(limiters: map<string, Limiter>, key: string, cfg: Config)
    requires LimiterInvariant(limiters) && Fits(cfg)
    ensures
      var lim := LimiterFor(limiters, key, cfg);
      && lim.Some? && Divides(lim.value) && Matches(lim.value, cfg.algorithm)
      && LimiterInvariant(limiters[LimiterKey(key, cfg.algorithm) := lim.value])
  {
    BuildMatches(cfg);
    var lim := LimiterFor(limiters, key, cfg).value;
    var next := limiters[LimiterKey(key, cfg.algorithm) := lim];
    forall k, a | a in ALGORITHMS && LimiterKey(k, a) in next
      ensures Matches(next[LimiterKey(k, a)], a)
    {
      if LimiterKey(k, a) == LimiterKey(key, cfg.algorithm) {
        LimiterKeysAreDistinct(k, a, key, cfg.algorithm);
      }
    }
  }

  lemma BuildMatches(cfg: Config)
    requires Fits(cfg)
    ensures Build(cfg).Some? && Matches(Build(cfg).value, cfg.algorithm)
  {
  }

  lemma AllowBelongs(lim: Limiter, b: Backend, cell: Cell, r: Reading)
    requires Divides(lim) && (cell.Some? ==> Belongs(SlotOf(lim), cell.value.value))
    ensures var next := Allow(lim, b, cell, r).0; next.Some? ==> Belongs(SlotOf(lim), next.value.value)
    ensures cell.Some? ==> Allow(lim, b, cell, r).0.Some?
  {
  }

  // Keys do not interfere

  /** Every stored configuration was accepted by ValidateConfig. */
  ghost predicate Configured(data: Data) {
    forall key | StoreKey(ConfigSlot, key) in data ::
      var v := data[StoreKey(ConfigSlot, key)].value;
      v.ConfigJson? && ValidateConfig(v.config) == None
  }

  /** Two states that hold the same for one key. */
  ghost predicate Agree(key: string, s1: State, s2: State) {
    && (forall slot :: Lookup(s1.data, StoreKey(slot, key)) == Lookup(s2.data, StoreKey(slot, key)))
    && (forall a | a in ALGORITHMS ::
          && (LimiterKey(key, a) in s1.limiters <==> LimiterKey(key, a) in s2.limiters)
          && (LimiterKey(key, a) in s1.limiters ==> s1.limiters[LimiterKey(key, a)] == s2.limiters[LimiterKey(key, a)]))
  }

  predicate Concerns(op: Op, key: string) {
    op.Cleanup? || op.key == key
  }

  /** The operations on one key, and the cleanups. */
  function Only(key: string, ops: seq<Op>): seq<Op> {
    if ops == [] then [] else (if Concerns(ops[0], key) then [ops[0]] else []) + Only(key, ops[1..])
  }

  function OnlyTheirs(key: string, ops: seq<Op>, rs: seq<Response>): seq<Response>
    requires |ops| == |rs|
  {
    if ops == [] then [] else (if Concerns(ops[0], key) then [rs[0]] else []) + OnlyTheirs(key, ops[1..], rs[1..])
  }

  /** What a key's operations return does not depend on what is done to other keys. */
  lemma KeysDoNotInterfere(b: Backend, key: string, ops: seq<Op>)
    ensures OnlyTheirs(key, ops, Responses(b, FRESH, ops)) == Responses(b, FRESH, Only(key, ops))
  {
    AgreeThroughout(b, key, FRESH, FRESH, ops);
  }

  lemma {:induction false} AgreeThroughout(b: Backend, key: string, s1: State, s2: State, ops: seq<Op>)
    requires Agree(key, s1, s2) && Configured(s1.data) && Configured(s2.data)
    ensures OnlyTheirs(key, ops, Responses(b, s1, ops)) == Responses(b, s2, Only(key, ops))
    decreases ops
  {
    if ops != [] {
      var op, rest := ops[0], ops[1..];
      var (n1, r1) := Respond(b, s1, op);
      StaysConfigured(b, s1, op);
      assert Responses(b, s1, ops)[0] == r1 && Responses(b, s1, ops)[1..] == Responses(b, n1, rest);
      if Concerns(op, key) {
        StaysConfigured(b, s2, op);
        OwnOpAgrees(b, key, s1, s2, op);
        AgreeThroughout(b, key, n1, Respond(b, s2, op).0, rest);
        assert Only(key, ops)[1..] == Only(key, rest);
      } else {
        OtherOpIsInvisible(b, key, s1, op);
        AgreeThroughout(b, key, n1, s2, rest);
        assert Only(key, ops) == Only(key, rest);
      }
    }
  }

  lemma StaysConfigured(b: Backend, s: State, op: Op)
    requires Configured(s.data)
    ensures Configured(Respond(b, s, op).0.data)
  {
    var next := Respond(b, s, op).0.data;
    forall key | StoreKey(ConfigSlot, key) in next
      ensures var v := next[StoreKey(ConfigSlot, key)].value; v.ConfigJson? && ValidateConfig(v.config) == None
    {
      var x := StoreKey(ConfigSlot, key);
      if !op.Cleanup? {
        forall slot | x == StoreKey(slot, op.key)
          ensures slot == ConfigSlot
        {
          StoreKeysAreDistinct(ConfigSlot, key, slot, op.key);
        }
      }
    }
  }

  /** An operation reads and writes nothing but its own key's entries. */
  lemma TouchesOwnKeysOnly(b: Backend, s: State, op: Op)
    requires Configured(s.data) && !op.Cleanup?
    ensures
      var next := Respond(b, s, op).0;
      && (forall x: string | forall slot :: x != StoreKey(slot, op.key) :: Lookup(next.data, x) == Lookup(s.data, x))
      && (forall x: string | forall a | a in ALGORITHMS :: x != LimiterKey(op.key, a) ::
            (x in next.limiters <==> x in s.limiters) && (x in s.limiters ==> next.limiters[x] == s.limiters[x]))
  {
    assert StoreKey(ConfigSlot, op.key) in s.data ==>
      ValidateConfig(s.data[StoreKey(ConfigSlot, op.key)].value.config) == None;
  }

  lemma OtherOpIsInvisible(b: Backend, key: string, s: State, op: Op)
    requires Configured(s.data) && !op.Cleanup? && op.key != key
    ensures forall s2 | Agree(key, s, s2) :: Agree(key, Respond(b, s, op).0, s2)
  {
    TouchesOwnKeysOnly(b, s, op);
    forall slot, other
      ensures StoreKey(slot, key) != StoreKey(other, op.key)
    {
      if StoreKey(slot, key) == StoreKey(other, op.key) {
        StoreKeysAreDistinct(slot, key, other, op.key);
      }
    }
    forall a, other | a in ALGORITHMS && other in ALGORITHMS
      ensures LimiterKey(key, a) != LimiterKey(op.key, other)
    {
      if LimiterKey(key, a) == LimiterKey(op.key, other) {
        LimiterKeysAreDistinct(key, a, op.key, other);
      }
    }
  }

  lemma OwnOpAgrees(b: Backend, key: string, s1: State, s2: State, op: Op)
    requires Agree(key, s1, s2) && Configured(s1.data) && Concerns(op, key)
    ensures
      var (n1, r1) := Respond(b, s1, op);
      var (n2, r2) := Respond(b, s2, op);
      r1 == r2 && Agree(key, n1, n2)
  {
    assert Lookup(s1.data, StoreKey(ConfigSlot, key)) == Lookup(s2.data, StoreKey(ConfigSlot, key));
    match op
    case SetConfig(_, cfg, at, configOk, metadataOk) =>
      var config := Some(StorageValue(ConfigJson(cfg), ExpirationOf(b, at, 0)));
      var metadata := Some(StorageValue(MetadataJson(at / SECOND, at / SECOND), ExpirationOf(b, at, 0)));
      PutAgrees(key, s1, s2, ConfigSlot, config);
      PutAgrees(key, s1.(data := Put(s1.data, StoreKey(ConfigSlot, key), config)),
                s2.(data := Put(s2.data, StoreKey(ConfigSlot, key), config)), MetadataSlot, metadata);
    case CheckLimit(_, at, configOk, r) =>
      OwnCheckAgrees(b, key, s1, s2, at, configOk, r);
    case ResetLimit(_, at, configOk, resetOk, deleteConfigOk, deleteMetadataOk) =>
      OwnResetAgrees(key, s1, s2, at, configOk, resetOk, deleteConfigOk, deleteMetadataOk);
    case GetStatus(_, _, _, _) =>
    case Cleanup(_) =>
  }

  lemma PutAgrees(key: string, s1: State, s2: State, slot: Slot, cell: Cell)
    requires Agree(key, s1, s2)
    ensures Agree(key, s1.(data := Put(s1.data, StoreKey(slot, key), cell)),
                  s2.(data := Put(s2.data, StoreKey(slot, key), cell)))
  {
  }

  /** Both states find the same limiter and cache it. */
  lemma CachedAgree(key: string, s1: State, s2: State, cfg: Config)
    requires Agree(key, s1, s2) && ValidateConfig(cfg) == None
    ensures
      var l1, l2 := LimiterFor(s1.limiters, key, cfg), LimiterFor(s2.limiters, key, cfg);
      && l1 == l2
      && (l1.Some? ==> Agree(key, s1.(limiters := s1.limiters[LimiterKey(key, cfg.algorithm) := l1.value]),
                             s2.(limiters := s2.limiters[LimiterKey(key, cfg.algorithm) := l1.value])))
  {
  }

  lemma OwnCheckAgrees(b: Backend, key: string, s1: State, s2: State, at: int, configOk: bool, r: Reading)
    requires Agree(key, s1, s2) && Configured(s1.data)
    ensures
      var (n1, r1) := DoCheckLimit(b, s1, key, at, configOk, r);
      var (n2, r2) := DoCheckLimit(b, s2, key, at, configOk, r);
      r1 == r2 && Agree(key, n1, n2)
  {
    assert Lookup(s1.data, StoreKey(ConfigSlot, key)) == Lookup(s2.data, StoreKey(ConfigSlot, key));
    var fetched := FetchConfig(s1.data, key, at, configOk);
    if fetched.Ok? {
      CachedAgree(key, s1, s2, fetched.value);
      var found := LimiterFor(s1.limiters, key, fetched.value);
      if found.Some? && (r.getOk ==> Divides(found.value)) {
        var lim, limiterKey := found.value, LimiterKey(key, fetched.value.algorithm);
        var cell := Allow(lim, b, Lookup(s1.data, StoreKey(SlotOf(lim), key)), r).0;
        PutAgrees(key, s1.(limiters := s1.limiters[limiterKey := lim]), s2.(limiters := s2.limiters[limiterKey := lim]),
                  SlotOf(lim), cell);
        assert Lookup(s1.data, StoreKey(SlotOf(lim), key)) == Lookup(s2.data, StoreKey(SlotOf(lim), key));
      }
    }
  }

  lemma OwnResetAgrees(key: string, s1: State, s2: State, at: int, configOk: bool, resetOk: bool, deleteConfigOk: bool,
                       deleteMetadataOk: bool)
    requires Agree(key, s1, s2) && Configured(s1.data)
    ensures
      var (n1, r1) := DoResetLimit(s1, key, at, configOk, resetOk, deleteConfigOk, deleteMetadataOk);
      var (n2, r2) := DoResetLimit(s2, key, at, configOk, resetOk, deleteConfigOk, deleteMetadataOk);
      r1 == r2 && Agree(key, n1, n2)
  {
    assert Lookup(s1.data, StoreKey(ConfigSlot, key)) == Lookup(s2.data, StoreKey(ConfigSlot, key));
    var fetched := FetchConfig(s1.data, key, at, configOk);
    if fetched.Ok? {
      CachedAgree(key, s1, s2, fetched.value);
    }
  }

  // From the service down to the algorithm

  /** A successful SetConfig is read back, and reported, at any later time, exactly if the store takes its TTL of
      zero for "never". */
  lemma ConfigIsReadBack(b: Backend, s: State, key: string, cfg: Config, at: int, later: int, metadataOk: bool)
    requires ValidateConfig(cfg) == None
    ensures
      var next := Respond(b, s, SetConfig(key, cfg, at, true, true)).0;
      var created := (if metadataOk then at else later) / SECOND;
      if b.Memory? && at < later
      then FetchConfig(next.data, key, later, true) == Err(NotFound)
      else && FetchConfig(next.data, key, later, true) == Ok(cfg)
           && DoGetStatus(next, key, later, true, metadataOk) == Status(cfg, created, created)
  {
    if StoreKey(ConfigSlot, key) == StoreKey(MetadataSlot, key) {
      StoreKeysAreDistinct(ConfigSlot, key, MetadataSlot, key);
    }
  }

  /** A limiter instance, once created, is never replaced. */
  lemma {:induction false} LimitersAreForever(b: Backend, s: State, ops: seq<Op>, limiterKey: string)
    requires limiterKey in s.limiters
    ensures
      var end := After(b, s, ops);
      limiterKey in end.limiters && end.limiters[limiterKey] == s.limiters[limiterKey]
    decreases ops
  {
    if ops != [] {
      LimitersAreForever(b, Respond(b, s, ops[0]).0, ops[1..], limiterKey);
    }
  }

  /** ResetLimit undoes the configuration and what the limiter in use has recorded, as far as the store lets it, and
      nothing else: in particular not what an algorithm configured earlier has recorded under its own slot. */
  lemma ResetUndoes(s: State, key: string, at: int, cfg: Config, resetOk: bool, deleteConfigOk: bool,
                    deleteMetadataOk: bool)
    requires FetchConfig(s.data, key, at, true) == Ok(cfg) && CanFind(s.limiters, key, cfg)
    requires LimiterFor(s.limiters, key, cfg).Some?
    ensures
      var (next, response) := DoResetLimit(s, key, at, true, resetOk, deleteConfigOk, deleteMetadataOk);
      var undone := if !resetOk then {} else
        {SlotOf(LimiterFor(s.limiters, key, cfg).value)} + (if deleteConfigOk then {ConfigSlot} else {})
        + (if deleteMetadataOk then {MetadataSlot} else {});
      && response == (if resetOk then Done else Failed(StoreFailed))
      && (resetOk && deleteConfigOk ==> FetchConfig(next.data, key, at, true) == Err(NotFound))
      && forall slot, k :: Lookup(next.data, StoreKey(slot, k)) ==
           if k == key && slot in undone then None else Lookup(s.data, StoreKey(slot, k))
  {
    forall slot, k, other | StoreKey(slot, k) == StoreKey(other, key)
      ensures slot == other && k == key
    {
      StoreKeysAreDistinct(slot, k, other, key);
    }
  }

  /** An operation that leaves configurations alone. */
  predicate IsCheck(op: Op) {
    op.Cleanup? || op.CheckLimit? || op.GetStatus?
  }

  /** What the operation is to the limiter. One that never gets to it is like a reset that fails: nothing happens. */
  function EventOf(op: Op): Event
    requires IsCheck(op)
  {
    if op.Cleanup? then Event.Sweep(op.at)
    else if op.CheckLimit? && op.configOk then Call(op.r)
    else Event.Reset(op.at, false)
  }

  function EventsOf(ops: seq<Op>): (events: seq<Event>)
    requires forall i | 0 <= i < |ops| :: IsCheck(ops[i])
    ensures |events| == |ops|
  {
    if ops == [] then [] else [EventOf(ops[0])] + EventsOf(ops[1..])
  }

  /** The response that passes on the limiter's reply, or that needs none. */
  predicate Answers(cfg: Config, op: Op, response: Response, reply: Reply)
    requires IsCheck(op)
  {
    match op
    case CheckLimit(_, _, configOk, _) =>
      if configOk then reply.Decision? && response == Checked(reply.allowed, if reply.allowed then cfg.limit else 0)
      else response == Failed(StoreFailed)
    case GetStatus(_, _, configOk, _) =>
      if configOk then response.Status? && response.config == cfg else response == Failed(StoreFailed)
    case Cleanup(_) => response == Done
  }

  /** The key has a lasting configuration, and lim is the limiter its checks use. */
  predicate Governs(s: State, key: string, cfg: Config, lim: Limiter) {
    && Fits(cfg) && Divides(lim)
    && Lookup(s.data, StoreKey(ConfigSlot, key)) == Some(StorageValue(ConfigJson(cfg), None))
    && LimiterFor(s.limiters, key, cfg) == Some(lim)
  }

  /** The checks of a configured key are a run of its limiter on its cell. */
  lemma {:induction false} ChecksAreLimiterRun(b: Backend, s: State, key: string, cfg: Config, lim: Limiter,
                                               ops: seq<Op>)
    requires Governs(s, key, cfg, lim)
    requires forall i | 0 <= i < |ops| :: IsCheck(ops[i]) && Concerns(ops[i], key)
    ensures
      var replies := Run(lim, b, Lookup(s.data, StoreKey(SlotOf(lim), key)), EventsOf(ops));
      forall i | 0 <= i < |ops| :: Answers(cfg, ops[i], Responses(b, s, ops)[i], replies[i])
    decreases ops
  {
    if ops != [] {
      var next, rest := Respond(b, s, ops[0]).0, ops[1..];
      CheckIsLimiterStep(b, s, key, cfg, lim, ops[0]);
      ChecksAreLimiterRun(b, next, key, cfg, lim, rest);
      var replies := Run(lim, b, Lookup(s.data, StoreKey(SlotOf(lim), key)), EventsOf(ops));
      forall i | 0 <= i < |ops|
        ensures Answers(cfg, ops[i], Responses(b, s, ops)[i], replies[i])
      {
        if i > 0 {
          assert Responses(b, s, ops)[i] == Responses(b, next, rest)[i - 1];
          assert replies[i] == Run(lim, b, Lookup(next.data, StoreKey(SlotOf(lim), key)), EventsOf(rest))[i - 1];
        }
      }
    }
  }

  lemma CheckIsLimiterStep(b: Backend, s: State, key: string, cfg: Config, lim: Limiter, op: Op)
    requires Governs(s, key, cfg, lim) && IsCheck(op) && Concerns(op, key)
    ensures
      var stateKey := StoreKey(SlotOf(lim), key);
      var (next, response) := Respond(b, s, op);
      var (cell, reply) := Step(lim, b, Lookup(s.data, stateKey), EventOf(op));
      && Answers(cfg, op, response, reply)
      && Lookup(next.data, stateKey) == cell
      && Governs(next, key, cfg, lim)
  {
    var stateKey, configKey := StoreKey(SlotOf(lim), key), StoreKey(ConfigSlot, key);
    if stateKey == configKey {
      StoreKeysAreDistinct(SlotOf(lim), key, ConfigSlot, key);
    }
  }

  /** Once a key is configured, its checks are answered by the algorithm run from an empty cell, whatever happens
      to other keys and whenever cleanups run, on a store that keeps configurations. */
  lemma ConfiguredKeyRunsItsLimiter(b: Backend, key: string, cfg: Config, at: int, ops: seq<Op>)
    requires Fits(cfg) && !b.Memory?
    requires forall i | 0 <= i < |ops| && Concerns(ops[i], key) :: IsCheck(ops[i])
    ensures
      var all := [SetConfig(key, cfg, at, true, true)] + ops;
      var own, responses := Only(key, ops), OnlyTheirs(key, all, Responses(b, FRESH, all));
      && Build(cfg).Some? && Divides(Build(cfg).value)
      && (forall i | 0 <= i < |own| :: IsCheck(own[i]))
      && |responses| == 1 + |own| && responses[0] == Done
      && var replies := Run(Build(cfg).value, b, None, EventsOf(own));
         forall i | 0 <= i < |own| :: Answers(cfg, own[i], responses[1..][i], replies[i])
  {
    var setUp, own := SetConfig(key, cfg, at, true, true), Only(key, ops);
    BuildMatches(cfg);
    OnlyKeepsChecks(key, ops);
    KeysDoNotInterfere(b, key, [setUp] + ops);
    assert Only(key, [setUp] + ops) == [setUp] + own by {
      assert ([setUp] + ops)[1..] == ops;
    }
    var s := Respond(b, FRESH, setUp).0;
    SettingConfigures(b, FRESH, key, cfg, at, Build(cfg).value);
    ChecksAreLimiterRun(b, s, key, cfg, Build(cfg).value, own);
    assert ([setUp] + own)[1..] == own;
    assert Responses(b, FRESH, [setUp] + own)[1..] == Responses(b, s, own);
  }

  /** A stored configuration leaves the limiters and what they recorded alone. */
  lemma SettingConfigures(b: Backend, s: State, key: string, cfg: Config, at: int, lim: Limiter)
    requires ValidateConfig(cfg) == None
    ensures
      var next := Respond(b, s, SetConfig(key, cfg, at, true, true)).0;
      && next.limiters == s.limiters
      && Lookup(next.data, StoreKey(SlotOf(lim), key)) == Lookup(s.data, StoreKey(SlotOf(lim), key))
      && Lookup(next.data, StoreKey(ConfigSlot, key)) == Some(StorageValue(ConfigJson(cfg), ExpirationOf(b, at, 0)))
  {
    forall slot, other | StoreKey(slot, key) == StoreKey(other, key)
      ensures slot == other
    {
      StoreKeysAreDistinct(slot, key, other, key);
    }
  }

  lemma {:induction false} OnlyKeepsChecks(key: string, ops: seq<Op>)
    requires forall i | 0 <= i < |ops| && Concerns(ops[i], key) :: IsCheck(ops[i])
    ensures forall i | 0 <= i < |Only(key, ops)| :: IsCheck(Only(key, ops)[i]) && Concerns(Only(key, ops)[i], key)
  {
    if ops != [] {
      OnlyKeepsChecks(key, ops[1..]);
    }
  }

  /** How many checks with now in [a, b) are allowed. */
  function AllowedIn(ops: seq<Op>, rs: seq<Response>, a: int, b: int): nat
    requires |ops| == |rs|
  {
    if ops == [] then 0
    else One(ops[0].CheckLimit? && a <= ops[0].r.now < b && rs[0].Checked? && rs[0].allowed)
         + AllowedIn(ops[1..], rs[1..], a, b)
  }

  lemma {:induction false} AllowedAreAdmitted(cfg: Config, ops: seq<Op>, responses: seq<Response>,
                                              replies: seq<Reply>, a: int, b: int)
    requires |ops| == |responses| == |replies| && forall i | 0 <= i < |ops| :: IsCheck(ops[i])
    requires forall i | 0 <= i < |ops| :: Answers(cfg, ops[i], responses[i], replies[i])
    ensures AllowedIn(ops, responses, a, b) == AdmittedIn(EventsOf(ops), replies, a, b)
  {
    if ops != [] {
      assert Answers(cfg, ops[0], responses[0], replies[0]);
      AllowedAreAdmitted(cfg, ops[1..], responses[1..], replies[1..], a, b);
    }
  }

  lemma {:induction false} ChecksNeverClear(ops: seq<Op>, a: int, b: int)
    requires forall i | 0 <= i < |ops| :: IsCheck(ops[i])
    ensures ClearsIn(EventsOf(ops), a, b) == 0
  {
    if ops != [] {
      ChecksNeverClear(ops[1..], a, b);
    }
  }

  /** What a client of a sliding-window key can rely on: of its checks within any window's length, at most `limit` are
      allowed plus those whose store access failed, whatever the clients of other keys do. */
  lemma SlidingWindowKeepsItsLimit(b: Backend, key: string, cfg: Config, at: int, ops: seq<Op>, from: int)
    requires Fits(cfg) && !b.Memory? && cfg.algorithm == SLIDING_WINDOW
    requires forall i | 0 <= i < |ops| && Concerns(ops[i], key) :: IsCheck(ops[i])
    requires forall i | 0 <= i < |Only(key, ops)| :: IsCheck(Only(key, ops)[i])
    requires Orderly(Limiter.SlidingWindow(cfg.limit, cfg.windowSeconds * SECOND), at, EventsOf(Only(key, ops)),
                     SECOND + 1)
    ensures
      var own, to := Only(key, ops), from + cfg.windowSeconds * SECOND;
      var all := [SetConfig(key, cfg, at, true, true)] + ops;
      var responses := OnlyTheirs(key, all, Responses(b, FRESH, all));
      && |responses| == 1 + |own|
      && AllowedIn(own, responses[1..], from, to) <= cfg.limit + FailedIn(EventsOf(own), from, to)
  {
    var own, to, window := Only(key, ops), from + cfg.windowSeconds * SECOND, cfg.windowSeconds * SECOND;
    ConfiguredKeyRunsItsLimiter(b, key, cfg, at, ops);
    var all := [SetConfig(key, cfg, at, true, true)] + ops;
    var replies := Run(Limiter.SlidingWindow(cfg.limit, window), b, None, EventsOf(own));
    AllowedAreAdmitted(cfg, own, OnlyTheirs(key, all, Responses(b, FRESH, all))[1..], replies, from, to);
    ChecksNeverClear(own, from, to);
    SlidingWindows.WindowBound(cfg.limit, window, b, at, EventsOf(own), from, to);
  }

  // The first configuration governs

  /** Equal in what the algorithm is built from. */
  predicate SameParameters(first: Config, newer: Config) {
    && first.limit == newer.limit
    && if first.algorithm == TOKEN_BUCKET
       then first.refillRate == newer.refillRate && first.refillInterval == newer.refillInterval
       else first.windowSeconds == newer.windowSeconds
  }

  lemma BuildTells(first: Config, newer: Config)
    requires Fits(first) && Fits(newer) && first.algorithm == newer.algorithm
    ensures Build(first) == Build(newer) <==> SameParameters(first, newer)
  {
  }

  /** From nothing: a key is configured and checked or reset, anything happens, and the key is configured anew under the
      same algorithm. Its checks still use the limiter of the first configuration, which is the one the newer describes
      exactly if the two agree in limit and window, or for the token bucket in limit and refill. */
  lemma FirstConfigGoverns(b: Backend, key: string, first: Config, newer: Config, at: int, use: Op, ops: seq<Op>,
                           later: int)
    requires Fits(first) && Fits(newer) && first.algorithm == newer.algorithm
    requires (use.CheckLimit? || use.ResetLimit?) && use.key == key && use.configOk && (b.Memory? ==> use.at == at)
    ensures
      var opening := [SetConfig(key, first, at, true, true), use];
      var s := After(b, FRESH, opening + (ops + [SetConfig(key, newer, later, true, true)]));
      && LimiterFor(s.limiters, key, newer) == Build(first)
      && (LimiterFor(s.limiters, key, newer) == Build(newer) <==> SameParameters(first, newer))
      && (!b.Memory? ==> Build(first).Some? && Governs(s, key, newer, Build(first).value))
  {
    var setUp, renewal := SetConfig(key, first, at, true, true), SetConfig(key, newer, later, true, true);
    var configured, limiterKey := Respond(b, FRESH, setUp).0, LimiterKey(key, first.algorithm);
    BuildMatches(first);
    BuildMatches(newer);
    BuildTells(first, newer);
    SettingConfigures(b, FRESH, key, first, at, Build(first).value);
    var used := Respond(b, configured, use).0;
    assert limiterKey in used.limiters && Some(used.limiters[limiterKey]) == Build(first);
    AfterTwo(b, FRESH, setUp, use);
    AfterConcat(b, FRESH, [setUp, use], ops + [renewal]);
    AfterConcat(b, used, ops, [renewal]);
    LimitersAreForever(b, used, ops, limiterKey);
    SettingConfigures(b, After(b, used, ops), key, newer, later, Build(first).value);
    assert After(b, After(b, used, ops), [renewal]) == Respond(b, After(b, used, ops), renewal).0;
  }

  lemma AfterTwo(b: Backend, s: State, op: Op, second: Op)
    ensures After(b, s, [op, second]) == Respond(b, Respond(b, s, op).0, second).0
  {
    assert [op, second][1..] == [second];
    assert After(b, Respond(b, s, op).0, [second]) == Respond(b, Respond(b, s, op).0, second).0;
  }

  lemma {:induction false} AfterConcat(b: Backend, s: State, xs: seq<Op>, ys: seq<Op>)
    ensures After(b, s, xs + ys) == After(b, After(b, s, xs), ys)
    decreases xs
  {
    if xs == [] {
      assert xs + ys == ys;
    } else {
      assert (xs + ys)[1..] == xs[1..] + ys;
      AfterConcat(b, Respond(b, s, xs[0]).0, xs[1..], ys);
    }
  }

  /** A key is configured, checked, configured anew and checked again, all at once. */
  function Reconfigured(key: string, first: Config, newer: Config, t: int): seq<Op> {
    var check := CheckLimit(key, t, true, CallAt(t).r);
    [SetConfig(key, first, t, true, true), check, SetConfig(key, newer, t, true, true), check]
  }

  /** Raising a limit of one to two has no effect: the second check is denied, though the new configuration alone would
      allow it. */
  lemma RaisedLimitIsIgnored(b: Backend, key: string, cfg: Config, t: int)
    requires Fits(cfg) && cfg.limit == 1
    ensures
      var raised := cfg.(limit := 2);
      && Responses(b, FRESH, Reconfigured(key, cfg, raised, t))[3] == Checked(false, 0)
      && Responses(b, FRESH, Reconfigured(key, raised, raised, t))[3] == Checked(true, 2)
  {
    var raised := cfg.(limit := 2);
    SecondCheckAsksTheFirst(b, key, cfg, raised, t);
    SecondCheckAsksTheFirst(b, key, raised, raised, t);
    SecondAtOnce(b, cfg, t);
    SecondAtOnce(b, raised, t);
  }

  lemma SecondCheckAsksTheFirst(b: Backend, key: string, first: Config, newer: Config, t: int)
    requires Fits(first) && Fits(newer) && first.algorithm == newer.algorithm
    ensures
      Build(first).Some? && Divides(Build(first).value) &&
      var lim, r := Build(first).value, CallAt(t).r;
      var allowed := Grants(Allow(lim, b, Allow(lim, b, None, r).0, r).1);
      Responses(b, FRESH, Reconfigured(key, first, newer, t))[3] == Checked(allowed, if allowed then newer.limit else 0)
  {
    BuildMatches(first);
    var ops, lim := Reconfigured(key, first, newer, t), Build(first).value;
    var s1 := Respond(b, FRESH, ops[0]).0;
    var s2 := Respond(b, s1, ops[1]).0;
    var s3 := Respond(b, s2, ops[2]).0;
    SettingConfigures(b, FRESH, key, first, t, lim);
    CheckAtOnce(b, s1, key, first, lim, t);
    SettingConfigures(b, s2, key, newer, t, lim);
    CheckAtOnce(b, s3, key, newer, lim, t);
    FourthResponse(b, FRESH, ops);
  }

  /** A check at the instant of the configuration, which even a TTL of zero outlasts. */
  lemma CheckAtOnce(b: Backend, s: State, key: string, cfg: Config, lim: Limiter, t: int)
    requires Fits(cfg) && Divides(lim) && LimiterFor(s.limiters, key, cfg) == Some(lim)
    requires Lookup(s.data, StoreKey(ConfigSlot, key)) == Some(StorageValue(ConfigJson(cfg), ExpirationOf(b, t, 0)))
    ensures
      var stateKey, limiterKey := StoreKey(SlotOf(lim), key), LimiterKey(key, cfg.algorithm);
      var (next, response) := Respond(b, s, CheckLimit(key, t, true, CallAt(t).r));
      var (cell, reply) := Allow(lim, b, Lookup(s.data, stateKey), CallAt(t).r);
      && limiterKey in next.limiters && next.limiters[limiterKey] == lim
      && Lookup(next.data, stateKey) == cell
      && response == Checked(Grants(reply), if Grants(reply) then cfg.limit else 0)
  {
    assert FetchConfig(s.data, key, t, true) == Ok(cfg);
  }

  lemma FourthResponse(b: Backend, s: State, ops: seq<Op>)
    requires |ops| == 4
    ensures
      var s1 := Respond(b, s, ops[0]).0;
      var s2 := Respond(b, s1, ops[1]).0;
      var s3 := Respond(b, s2, ops[2]).0;
      Responses(b, s, ops)[3] == Respond(b, s3, ops[3]).1
  {
    var s1 := Respond(b, s, ops[0]).0;
    var s2 := Respond(b, s1, ops[1]).0;
    LaterResponse(b, s, ops, 3);
    LaterResponse(b, s1, ops[1..], 2);
    LaterResponse(b, s2, ops[1..][1..], 1);
  }

  lemma LaterResponse(b: Backend, s: State, ops: seq<Op>, i: nat)
    requires 0 < i < |ops|
    ensures Responses(b, s, ops)[i] == Responses(b, Respond(b, s, ops[0]).0, ops[1..])[i - 1]
  {
  }

  /** Of two calls at one instant the second is granted iff the limit is at least two. */
  lemma SecondAtOnce(b: Backend, cfg: Config, t: int)
    requires Fits(cfg)
    ensures
      Build(cfg).Some? && Divides(Build(cfg).value) &&
      var lim, r := Build(cfg).value, CallAt(t).r;
      Grants(Allow(lim, b, Allow(lim, b, None, r).0, r).1) <==> 2 <= cfg.limit
  {
    BuildMatches(cfg);
    var lim, r := Build(cfg).value, CallAt(t).r;
    var cell := Allow(lim, b, None, r).0;
    assert Visible(cell, t) == Some(cell.value.value);
    match lim
    case SlidingWindow(max, window) => assert Prune([t], t - window) == [t] && Prune([], t - window) == [];
    case LeakyBucket(_, rate, interval) => assert Quot(0, interval) * rate == 0;
    case TokenBucket(_, _, _) =>
    case FixedWindow(_, _) =>
  }
}
