/** What each operation of the service answers, told from its arguments and the history of the key. */
module ServiceResponses {
  import opened Prelude
  import opened Storage
  import opened Service
  import opened ServiceRuns

  // Configuring

  /** A configuration is refused for the first of its fields that is wrong, in any state and whatever the store does,
      and refusing it changes nothing. */
  lemma WrongConfigsAreRefused(b: Backend, s: State, key: string, cfg: Config, at: int, configOk: bool,
                               metadataOk: bool)
    ensures
      var named := cfg.algorithm in {"token_bucket", "sliding_window", "fixed_window", "leaky_bucket"};
      var sized := named && 0 < cfg.limit;
      var refilled := sized && 0 < cfg.windowSeconds && cfg.algorithm == "token_bucket";
      var answer := Respond(b, s, SetConfig(key, cfg, at, configOk, metadataOk));
      && (cfg.algorithm == "" ==> answer == (s, Failed(AlgorithmRequired)))
      && (cfg.algorithm != "" && !named ==> answer == (s, Failed(InvalidAlgorithm(cfg.algorithm))))
      && (named && cfg.limit <= 0 ==> answer == (s, Failed(LimitMustBePositive)))
      && (sized && cfg.windowSeconds <= 0 ==> answer == (s, Failed(WindowSecondsMissing)))
      && (refilled && cfg.refillRate <= 0 ==> answer == (s, Failed(RefillRateMissing)))
      && (refilled && 0 < cfg.refillRate && cfg.refillInterval <= 0 ==> answer == (s, Failed(RefillIntervalMissing)))
  {
  }

  /** All fields are as they must be. */
  predicate Acceptable(cfg: Config) {
    && cfg.algorithm in {"token_bucket", "sliding_window", "fixed_window", "leaky_bucket"}
    && 0 < cfg.limit && 0 < cfg.windowSeconds
    && (cfg.algorithm == "token_bucket" ==> 0 < cfg.refillRate && 0 < cfg.refillInterval)
  }

  /** Any other configuration is written, with its metadata, as far as the store lets it: the answer is success iff
      both writes succeed, no limiter is touched and no other entry. */
  lemma AcceptableConfigsAreStored(b: Backend, s: State, key: string, cfg: Config, at: int, configOk: bool,
                                   metadataOk: bool)
    requires Acceptable(cfg)
    ensures
      var (next, response) := Respond(b, s, SetConfig(key, cfg, at, configOk, metadataOk));
      && response == (if configOk && metadataOk then Done else Failed(StoreFailed))
      && next.limiters == s.limiters
      && (configOk ==> Visible(Lookup(next.data, StoreKey(ConfigSlot, key)), at) == Some(ConfigJson(cfg)))
      && (configOk && metadataOk ==>
            Visible(Lookup(next.data, StoreKey(MetadataSlot, key)), at)
            == Some(MetadataJson(at / 1_000_000_000, at / 1_000_000_000)))
      && forall slot, k |
           !(k == key && configOk && (slot == ConfigSlot || (slot == MetadataSlot && metadataOk))) ::
           Lookup(next.data, StoreKey(slot, k)) == Lookup(s.data, StoreKey(slot, k))
  {
    forall slot, k, other | StoreKey(slot, k) == StoreKey(other, key)
      ensures slot == other && k == key
    {
      StoreKeysAreDistinct(slot, k, other, key);
    }
  }

  predicate Refused(op: Op) {
    op.SetConfig? && !Acceptable(op.config)
  }

  /** The other operations of a history. */
  function WithoutRefused(ops: seq<Op>): seq<Op> {
    if ops == [] then [] else (if Refused(ops[0]) then [] else [ops[0]]) + WithoutRefused(ops[1..])
  }

  function RepliesToOthers(ops: seq<Op>, rs: seq<Response>): seq<Response>
    requires |ops| == |rs|
  {
    if ops == [] then [] else (if Refused(ops[0]) then [] else [rs[0]]) + RepliesToOthers(ops[1..], rs[1..])
  }

  /** Deleting every refused configuration from a history changes neither its end nor any other response. */
  lemma {:induction false} RefusalsLeaveNoTrace(b: Backend, s: State, ops: seq<Op>)
    ensures After(b, s, ops) == After(b, s, WithoutRefused(ops))
    ensures RepliesToOthers(ops, Responses(b, s, ops)) == Responses(b, s, WithoutRefused(ops))
    decreases ops
  {
    if ops != [] {
      var op, rest := ops[0], ops[1..];
      var next := Respond(b, s, op).0;
      RefusalsLeaveNoTrace(b, next, rest);
      assert Responses(b, s, ops)[1..] == Responses(b, next, rest);
      if Refused(op) {
        WrongConfigsAreRefused(b, s, op.key, op.config, op.at, op.configOk, op.metadataOk);
        assert next == s && WithoutRefused(ops) == WithoutRefused(rest);
      } else {
        assert WithoutRefused(ops)[1..] == WithoutRefused(rest);
      }
    }
  }

  // Asking

  /** An operation that needs the key's configuration. */
  predicate Asks(op: Op) {
    op.CheckLimit? || op.ResetLimit? || op.GetStatus?
  }

  /** Without a configuration to be found under its key such an operation says so and changes nothing; so it does when
      the store fails, or holds something else there. */
  lemma UnconfiguredIsNotFound(b: Backend, s: State, op: Op)
    requires Asks(op)
    ensures
      var found := Visible(Lookup(s.data, StoreKey(ConfigSlot, op.key)), op.at);
      && (op.configOk && found.None? ==> Respond(b, s, op) == (s, Failed(NotFound)))
      && (!op.configOk ==> Respond(b, s, op) == (s, Failed(StoreFailed)))
      && (op.configOk && found.Some? && !found.value.ConfigJson? ==> Respond(b, s, op) == (s, Failed(Unparsable)))
      && (op.configOk && found.Some? && found.value.ConfigJson? ==>
            Respond(b, s, op).1 !in {Failed(NotFound), Failed(Unparsable)})
  {
  }

  /** A stored configuration need not be one that SetConfig accepted. An unknown algorithm without a cached limiter is
      reported by checks and resets, which change nothing. Checks and status queries divide by the window, resets only
      to create a limiter, and a check of a cached bucket by that bucket's interval once its Get has succeeded. */
  lemma StrangeConfigsAreReported(b: Backend, s: State, op: Op, cfg: Config)
    requires Asks(op) && op.configOk
    requires Visible(Lookup(s.data, StoreKey(ConfigSlot, op.key)), op.at) == Some(ConfigJson(cfg))
    ensures
      var named := cfg.algorithm in {"token_bucket", "sliding_window", "fixed_window", "leaky_bucket"};
      var limiterKey, response := LimiterKey(op.key, cfg.algorithm), Respond(b, s, op).1;
      && (cfg.windowSeconds != 0 && !named && limiterKey !in s.limiters && !op.GetStatus? ==>
            Respond(b, s, op) == (s, Failed(Unsupported(cfg.algorithm))))
      && (op.GetStatus? ==> (response == Undefined <==> cfg.windowSeconds == 0))
      && (op.ResetLimit? ==> (response == Undefined <==> cfg.windowSeconds == 0 && limiterKey !in s.limiters))
      && (op.CheckLimit? && limiterKey in s.limiters ==>
            var lim := s.limiters[limiterKey];
            (response == Undefined
             <==> || cfg.windowSeconds == 0
                  || (op.r.getOk && ((lim.TokenBucket? && lim.refillInterval == 0)
                                     || (lim.LeakyBucket? && lim.leakInterval == 0)))))
  {
  }

  /** An accepted configuration replaces the one before; a reset that can read and delete it ends it. */
  function NextConfig(key: string, last: Option<Config>, op: Op): Option<Config> {
    match op
    case SetConfig(k, cfg, _, configOk, _) => if k == key && Acceptable(cfg) && configOk then Some(cfg) else last
    case ResetLimit(k, _, configOk, resetOk, deleteConfigOk, _) =>
      if k == key && configOk && resetOk && deleteConfigOk then None else last
    case _ => last
  }

  /** The configuration a history leaves a key with, read off the operations alone. */
  function LastConfig(key: string, last: Option<Config>, ops: seq<Op>): Option<Config>
    decreases ops
  {
    if ops == [] then last else LastConfig(key, NextConfig(key, last, ops[0]), ops[1..])
  }

  /** What the store holds for it where a TTL of zero means "never". */
  function Entry(config: Option<Config>): Cell {
    if config.Some? then Some(StorageValue(ConfigJson(config.value), None)) else None
  }

  lemma ConfigChanges(b: Backend, s: State, key: string, last: Option<Config>, op: Op)
    requires !b.Memory? && Configured(s.data)
    requires Lookup(s.data, StoreKey(ConfigSlot, key)) == Entry(last)
    ensures Lookup(Respond(b, s, op).0.data, StoreKey(ConfigSlot, key)) == Entry(NextConfig(key, last, op))
  {
    if !op.Cleanup? && op.key != key {
      OthersLeaveConfig(b, s, key, op);
    } else if !op.Cleanup? {
      forall slot | StoreKey(slot, key) == StoreKey(ConfigSlot, key)
        ensures slot == ConfigSlot
      {
        StoreKeysAreDistinct(slot, key, ConfigSlot, key);
      }
    }
  }

  lemma OthersLeaveConfig(b: Backend, s: State, key: string, op: Op)
    requires Configured(s.data) && !op.Cleanup? && op.key != key
    ensures Lookup(Respond(b, s, op).0.data, StoreKey(ConfigSlot, key)) == Lookup(s.data, StoreKey(ConfigSlot, key))
  {
    forall slot
      ensures StoreKey(ConfigSlot, key) != StoreKey(slot, op.key)
    {
      if StoreKey(ConfigSlot, key) == StoreKey(slot, op.key) {
        StoreKeysAreDistinct(ConfigSlot, key, slot, op.key);
      }
    }
    TouchesOwnKeysOnly(b, s, op);
  }

  lemma {:induction false} HoldsLastConfig(b: Backend, s: State, key: string, last: Option<Config>, ops: seq<Op>)
    requires !b.Memory? && Configured(s.data)
    requires Lookup(s.data, StoreKey(ConfigSlot, key)) == Entry(last)
    ensures Lookup(After(b, s, ops).data, StoreKey(ConfigSlot, key)) == Entry(LastConfig(key, last, ops))
    decreases ops
  {
    if ops != [] {
      var op := ops[0];
      StaysConfigured(b, s, op);
      ConfigChanges(b, s, key, last, op);
      HoldsLastConfig(b, Respond(b, s, op).0, key, NextConfig(key, last, op), ops[1..]);
    }
  }

  /** On a store that keeps configurations, after any history on any keys, a check, reset or status query that can read
      the store answers "not found" iff its key's last configuration has been reset or never was, and a status query
      reports that configuration. */
  lemma LastConfigIsInForce(b: Backend, ops: seq<Op>, op: Op)
    requires !b.Memory? && Asks(op) && op.configOk
    ensures
      var s, last := After(b, FRESH, ops), LastConfig(op.key, None, ops);
      && (last.None? ==> Respond(b, s, op) == (s, Failed(NotFound)))
      && (last.Some? ==> Respond(b, s, op).1 != Failed(NotFound))
      && (last.Some? && op.GetStatus? ==> Respond(b, s, op).1.Status? && Respond(b, s, op).1.config == last.value)
  {
    HoldsLastConfig(b, FRESH, op.key, None, ops);
    LastIsAcceptable(op.key, None, ops);
    UnconfiguredIsNotFound(b, After(b, FRESH, ops), op);
  }

  lemma {:induction false} LastIsAcceptable(key: string, last: Option<Config>, ops: seq<Op>)
    requires last.Some? ==> Acceptable(last.value)
    ensures LastConfig(key, last, ops).Some? ==> Acceptable(LastConfig(key, last, ops).value)
    decreases ops
  {
    if ops != [] {
      LastIsAcceptable(key, NextConfig(key, last, ops[0]), ops[1..]);
    }
  }

  /** On any store, a key that never was given a configuration successfully is always answered "not found", or
      that the store failed. */
  lemma NeverSetIsNotFound(b: Backend, key: string, ops: seq<Op>, i: nat)
    requires forall j | 0 <= j < |ops| && ops[j].SetConfig? && ops[j].key == key ::
      !Acceptable(ops[j].config) || !ops[j].configOk
    requires i < |ops| && Asks(ops[i]) && ops[i].key == key
    ensures Responses(b, FRESH, ops)[i] == Failed(if ops[i].configOk then NotFound else StoreFailed)
  {
    NotFoundWhileUnset(b, FRESH, key, ops, i);
  }

  lemma {:induction false} NotFoundWhileUnset(b: Backend, s: State, key: string, ops: seq<Op>, i: nat)
    requires Configured(s.data) && StoreKey(ConfigSlot, key) !in s.data
    requires forall j | 0 <= j < |ops| && ops[j].SetConfig? && ops[j].key == key ::
      !Acceptable(ops[j].config) || !ops[j].configOk
    requires i < |ops| && Asks(ops[i]) && ops[i].key == key
    ensures Responses(b, s, ops)[i] == Failed(if ops[i].configOk then NotFound else StoreFailed)
    decreases ops
  {
    var op := ops[0];
    if i == 0 {
      UnconfiguredIsNotFound(b, s, op);
    } else {
      StaysConfigured(b, s, op);
      if op.SetConfig? && op.key == key && !Acceptable(op.config) {
        WrongConfigsAreRefused(b, s, op.key, op.config, op.at, op.configOk, op.metadataOk);
      } else if Asks(op) && op.key == key {
        UnconfiguredIsNotFound(b, s, op);
      } else if !op.Cleanup? && op.key != key {
        OthersLeaveConfig(b, s, key, op);
      }
      LaterResponse(b, s, ops, i);
      NotFoundWhileUnset(b, Respond(b, s, op).0, key, ops[1..], i - 1);
    }
  }

  /** A status query tells when the key was configured, in seconds, only if the metadata could be written too:
      otherwise it tells of the configuration before, or of now if there is none. */
  lemma StatusTellsMetadata(b: Backend, s: State, key: string, cfg: Config, at: int, written: bool, later: int)
    requires Acceptable(cfg) && (b.Memory? ==> later <= at)
    requires Lookup(s.data, StoreKey(MetadataSlot, key)).Some? ==>
      Lookup(s.data, StoreKey(MetadataSlot, key)).value.value.MetadataJson?
    ensures
      var next := Respond(b, s, SetConfig(key, cfg, at, true, written)).0;
      var before := Visible(Lookup(s.data, StoreKey(MetadataSlot, key)), later);
      Respond(b, next, GetStatus(key, later, true, true)).1 ==
        if written then Status(cfg, at / 1_000_000_000, at / 1_000_000_000)
        else if before.Some? then Status(cfg, before.value.createdAt, before.value.updatedAt)
        else Status(cfg, later / 1_000_000_000, later / 1_000_000_000)
  {
    if StoreKey(ConfigSlot, key) == StoreKey(MetadataSlot, key) {
      StoreKeysAreDistinct(ConfigSlot, key, MetadataSlot, key);
    }
  }
}
