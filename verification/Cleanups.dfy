/** The cleanup goroutine, seen through the service. */
module Cleanups {
  import opened Prelude
  import opened Storage
  import opened Limiters
  import opened Service
  import ServiceRuns

  /** The instant an operation begins, and the one it ends. */
  function Begin(op: Op): int {
    op.at
  }

  function Finish(op: Op): int {
    if op.CheckLimit? then op.r.setAt else op.at
  }

  /** Operations come one after the other, and the store calls of each in order. */
  predicate InTime(clock: int, ops: seq<Op>)
    decreases ops
  {
    ops != [] ==>
      && clock <= Begin(ops[0])
      && (ops[0].CheckLimit? ==> ops[0].at <= ops[0].r.getAt <= ops[0].r.setAt)
      && InTime(Finish(ops[0]), ops[1..])
  }

  function WithoutCleanups(ops: seq<Op>): seq<Op> {
    if ops == [] then [] else (if ops[0].Cleanup? then [] else [ops[0]]) + WithoutCleanups(ops[1..])
  }

  function ToOthers(ops: seq<Op>, rs: seq<Response>): seq<Response>
    requires |ops| == |rs|
  {
    if ops == [] then [] else (if ops[0].Cleanup? then [] else [rs[0]]) + ToOthers(ops[1..], rs[1..])
  }

  /** However many cleanups run, and whenever they do, no client of any key can tell. */
  lemma CleanupsAreInvisible(b: Backend, clock: int, ops: seq<Op>)
    requires InTime(clock, ops)
    ensures ToOthers(ops, ServiceRuns.Responses(b, ServiceRuns.FRESH, ops))
         == ServiceRuns.Responses(b, ServiceRuns.FRESH, WithoutCleanups(ops))
  {
    SweptAnswersAlike(b, clock, ServiceRuns.FRESH, ServiceRuns.FRESH, ops);
  }

  /** The same but for what has expired. */
  predicate Remains(c1: Cell, c2: Cell, now: int) {
    SweepCell(c1, now) == SweepCell(c2, now)
  }

  ghost predicate Alike(s1: State, s2: State, now: int) {
    s1.limiters == s2.limiters && Remain(s1.data, s2.data, now)
  }

  ghost predicate Remain(d1: Data, d2: Data, now: int) {
    forall k :: Remains(Lookup(d1, k), Lookup(d2, k), now)
  }

  lemma PutKeeps(d1: Data, d2: Data, key: string, c1: Cell, c2: Cell, now: int)
    requires Remain(d1, d2, now) && Remains(c1, c2, now)
    ensures Remain(Put(d1, key, c1), Put(d2, key, c2), now)
  {
    forall k
      ensures Remains(Lookup(Put(d1, key, c1), k), Lookup(Put(d2, key, c2), k), now)
    {
      assert k != key ==> Remains(Lookup(d1, k), Lookup(d2, k), now);
    }
  }

  lemma {:induction false} SweptAnswersAlike(b: Backend, clock: int, s1: State, s2: State, ops: seq<Op>)
    requires InTime(clock, ops) && Alike(s1, s2, clock)
    ensures ToOthers(ops, ServiceRuns.Responses(b, s1, ops)) == ServiceRuns.Responses(b, s2, WithoutCleanups(ops))
    decreases ops
  {
    if ops != [] {
      var op, rest := ops[0], ops[1..];
      var n1 := Respond(b, s1, op).0;
      var n2 := if op.Cleanup? then s2 else Respond(b, s2, op).0;
      StaysAlike(b, clock, s1, s2, op);
      SweptAnswersAlike(b, Finish(op), n1, n2, rest);
      assert ServiceRuns.Responses(b, s1, ops)[1..] == ServiceRuns.Responses(b, n1, rest);
      if op.Cleanup? {
        assert WithoutCleanups(ops) == WithoutCleanups(rest);
      } else {
        assert WithoutCleanups(ops)[1..] == WithoutCleanups(rest);
      }
    }
  }

  lemma RemainsLater(s1: State, s2: State, clock: int, now: int)
    requires Alike(s1, s2, clock) && clock <= now
    ensures Alike(s1, s2, now)
    ensures forall k :: Visible(Lookup(s1.data, k), now) == Visible(Lookup(s2.data, k), now)
  {
    forall k
      ensures Remains(Lookup(s1.data, k), Lookup(s2.data, k), now)
      ensures Visible(Lookup(s1.data, k), now) == Visible(Lookup(s2.data, k), now)
    {
      assert Remains(Lookup(s1.data, k), Lookup(s2.data, k), clock);
    }
  }

  lemma StaysAlike(b: Backend, clock: int, s1: State, s2: State, op: Op)
    requires Alike(s1, s2, clock) && InTime(clock, [op])
    ensures
      if op.Cleanup? then Alike(Respond(b, s1, op).0, s2, Finish(op))
      else
        && Alike(Respond(b, s1, op).0, Respond(b, s2, op).0, Finish(op))
        && Respond(b, s1, op).1 == Respond(b, s2, op).1
  {
    RemainsLater(s1, s2, clock, op.at);
    match op
    case SetConfig(key, cfg, at, _, _) =>
      var config := Some(StorageValue(ConfigJson(cfg), ExpirationOf(b, at, 0)));
      var metadata := Some(StorageValue(MetadataJson(at / SECOND, at / SECOND), ExpirationOf(b, at, 0)));
      PutKeeps(s1.data, s2.data, StoreKey(ConfigSlot, key), config, config, at);
      PutKeeps(Put(s1.data, StoreKey(ConfigSlot, key), config), Put(s2.data, StoreKey(ConfigSlot, key), config),
               StoreKey(MetadataSlot, key), metadata, metadata, at);
    case CheckLimit(key, at, configOk, r) => CheckStaysAlike(b, s1, s2, key, at, configOk, r);
    case ResetLimit(_, at, _, _, _, _) =>
      RemovalsKeep(at);
    case GetStatus(_, _, _, _) =>
    case Cleanup(_) =>
  }

  /** Deleting a key writes nothing to it. */
  lemma RemovalsKeep(now: int)
    ensures forall d1: Data, d2: Data, key: string | Remain(d1, d2, now) :: Remain(d1 - {key}, d2 - {key}, now)
  {
    forall d1: Data, d2: Data, key: string | Remain(d1, d2, now)
      ensures Remain(d1 - {key}, d2 - {key}, now)
    {
      PutKeeps(d1, d2, key, None, None, now);
    }
  }

  lemma CheckStaysAlike(b: Backend, s1: State, s2: State, key: string, at: int, configOk: bool, r: Reading)
    requires Alike(s1, s2, at) && at <= r.getAt <= r.setAt
    ensures
      var (n1, r1) := DoCheckLimit(b, s1, key, at, configOk, r);
      var (n2, r2) := DoCheckLimit(b, s2, key, at, configOk, r);
      Alike(n1, n2, r.setAt) && r1 == r2
  {
    RemainsLater(s1, s2, at, at);
    RemainsLater(s1, s2, at, r.getAt);
    RemainsLater(s1, s2, at, r.setAt);
    var fetched := FetchConfig(s1.data, key, at, configOk);
    if fetched.Ok? && CanFind(s1.limiters, key, fetched.value) {
      var found := LimiterFor(s1.limiters, key, fetched.value);
      if found.Some? && (r.getOk ==> Divides(found.value)) {
        var lim, stateKey := found.value, StoreKey(SlotOf(found.value), key);
        var c1, c2 := Lookup(s1.data, stateKey), Lookup(s2.data, stateKey);
        assert Remains(c1, c2, r.setAt) && Visible(c1, r.getAt) == Visible(c2, r.getAt);
        PutKeeps(s1.data, s2.data, stateKey, Allow(lim, b, c1, r).0, Allow(lim, b, c2, r).0, r.setAt);
      }
    }
  }
}
