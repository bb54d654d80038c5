/** internal/service/ratelimit.go: configurations, cached limiters and the keys everything is stored under. */
module Service {
  import opened Prelude
  import opened Storage
  import opened Limiters
  import opened SlidingWindows
  import opened TokenBuckets
  import opened LeakyBuckets
  import opened FixedWindows

  const TOKEN_BUCKET := "token_bucket"
  const SLIDING_WINDOW := "sliding_window"
  const FIXED_WINDOW := "fixed_window"
  const LEAKY_BUCKET := "leaky_bucket"

  const ALGORITHMS := {TOKEN_BUCKET, SLIDING_WINDOW, FIXED_WINDOW, LEAKY_BUCKET}

  datatype Error =
    | AlgorithmRequired
    | InvalidAlgorithm(algorithm: string)
    | LimitMustBePositive
    | WindowSecondsMissing
    | RefillRateMissing
    | RefillIntervalMissing
    | NotFound
    | Unparsable
    | Unsupported(algorithm: string)
    | StoreFailed

  datatype Result<+T> = Ok(value: T) | Err(error: Error)

  /** Undefined: Go panics on an integer division by zero, and a float one yields no number. */
  datatype Response =
    | Done
    | Failed(error: Error)
    | Checked(allowed: bool, remaining: int)
    | Status(config: Config, createdAt: int, updatedAt: int)
    | Undefined

  // Keys

  datatype Slot = ConfigSlot | MetadataSlot | SlidingSlot | TokenSlot | LeakySlot | FixedSlot

  function Prefix(slot: Slot): string {
    match slot
    case ConfigSlot => "ratelimit:config:"
    case MetadataSlot => "ratelimit:metadata:"
    case SlidingSlot => "limiter:sliding_window:"
    case TokenSlot => "limiter:token_bucket:"
    case LeakySlot => "limiter:leaky_bucket:"
    case FixedSlot => "limiter:fixed_window:"
  }

  function StoreKey(slot: Slot, key: string): string {
    Prefix(slot) + key
  }

  function SlotOf(lim: Limiter): Slot {
    match lim
    case SlidingWindow(_, _) => SlidingSlot
    case TokenBucket(_, _, _) => TokenSlot
    case LeakyBucket(_, _, _) => LeakySlot
    case FixedWindow(_, _) => FixedSlot
  }

  function LimiterKey(key: string, algorithm: string): string {
    key + ":" + algorithm
  }

  // Configurations

  /** The first complaint about a configuration, if there is any. */
  function ValidateConfig(cfg: Config): (complaint: Option<Error>)
    ensures complaint.None? <==>
      && cfg.algorithm in ALGORITHMS && 0 < cfg.limit && 0 < cfg.windowSeconds
      && (cfg.algorithm == TOKEN_BUCKET ==> 0 < cfg.refillRate && 0 < cfg.refillInterval)
  {
    if cfg.algorithm == "" then Some(AlgorithmRequired)
    else if cfg.algorithm !in ALGORITHMS then Some(InvalidAlgorithm(cfg.algorithm))
    else if cfg.limit <= 0 then Some(LimitMustBePositive)
    else if cfg.windowSeconds <= 0 then Some(WindowSecondsMissing)
    else if cfg.algorithm == TOKEN_BUCKET && cfg.refillRate <= 0 then Some(RefillRateMissing)
    else if cfg.algorithm == TOKEN_BUCKET && cfg.refillInterval <= 0 then Some(RefillIntervalMissing)
    else None
  }

  /** A number of seconds as a time.Duration, whose multiplication wraps around. */
  function Seconds(n: int): int {
    Wrap64(n * SECOND)
  }

  /** The limiter a configuration describes. */
  function Build(cfg: Config): Option<Limiter>
    requires cfg.windowSeconds != 0
  {
    var perSecond := Quot(cfg.limit, cfg.windowSeconds);
    var leakRate := if perSecond == 0 then 1 else perSecond;
    if cfg.algorithm == TOKEN_BUCKET then
      Some(Limiter.TokenBucket(cfg.refillRate as real, Seconds(cfg.refillInterval), cfg.limit as real))
    else if cfg.algorithm == SLIDING_WINDOW then Some(Limiter.SlidingWindow(cfg.limit, Seconds(cfg.windowSeconds)))
    else if cfg.algorithm == FIXED_WINDOW then Some(Limiter.FixedWindow(cfg.limit, Seconds(cfg.windowSeconds)))
    else if cfg.algorithm == LEAKY_BUCKET then
      Some(Limiter.LeakyBucket(cfg.limit, leakRate, Seconds(cfg.windowSeconds)))
    else None
  }

  // The service as a state machine

  /** The store and the limiter instances the process has created. */
  datatype State = State(data: Data, limiters: map<string, Limiter>)

  /** An operation with the instants its store calls execute at and whether they succeed. */
  datatype Op =
    | SetConfig(key: string, config: Config, at: int, configOk: bool, metadataOk: bool)
    | CheckLimit(key: string, at: int, configOk: bool, r: Reading)
    | ResetLimit(key: string, at: int, configOk: bool, resetOk: bool, deleteConfigOk: bool, deleteMetadataOk: bool)
    | GetStatus(key: string, at: int, configOk: bool, metadataOk: bool)
    | Cleanup(at: int)

  function FetchConfig(data: Data, key: string, at: int, ok: bool): Result<Config> {
    if !ok then Err(StoreFailed)
    else
      match Visible(Lookup(data, StoreKey(ConfigSlot, key)), at)
      case None => Err(NotFound)
      case Some(ConfigJson(cfg)) => Ok(cfg)
      case Some(_) => Err(Unparsable)
  }

  /** Finding the limiter divides by the window, unless it is cached. */
  predicate CanFind(limiters: map<string, Limiter>, key: string, cfg: Config) {
    cfg.windowSeconds != 0 || LimiterKey(key, cfg.algorithm) in limiters
  }

  /** The limiter for a configuration: the cached one if there is one, whatever its parameters. */
  function LimiterFor(limiters: map<string, Limiter>, key: string, cfg: Config): Option<Limiter>
    requires CanFind(limiters, key, cfg)
  {
    var limiterKey := LimiterKey(key, cfg.algorithm);
    if limiterKey in limiters then Some(limiters[limiterKey]) else Build(cfg)
  }

  function DoSetConfig(b: Backend, s: State, key: string, cfg: Config, at: int, configOk: bool,
                       metadataOk: bool): (State, Response) {
    var invalid := ValidateConfig(cfg);
    if invalid.Some? then (s, Failed(invalid.value))
    else if !configOk then (s, Failed(StoreFailed))
    else
      var data := s.data[StoreKey(ConfigSlot, key) := StorageValue(ConfigJson(cfg), ExpirationOf(b, at, 0))];
      if !metadataOk then (s.(data := data), Failed(StoreFailed))
      else
        var metadata := MetadataJson(at / SECOND, at / SECOND);
        (s.(data := data[StoreKey(MetadataSlot, key) := StorageValue(metadata, ExpirationOf(b, at, 0))]), Done)
  }

  function DoCheckLimit(b: Backend, s: State, key: string, at: int, configOk: bool, r: Reading): (State, Response) {
    match FetchConfig(s.data, key, at, configOk)
    case Err(error) => (s, Failed(error))
    case Ok(cfg) =>
      if !CanFind(s.limiters, key, cfg) then (s, Undefined)
      else
        match LimiterFor(s.limiters, key, cfg)
        case None => (s, Failed(Unsupported(cfg.algorithm)))
        case Some(lim) =>
          var cached := s.(limiters := s.limiters[LimiterKey(key, cfg.algorithm) := lim]);
          if r.getOk && !Divides(lim) then (cached, Undefined)
          else
            var stateKey := StoreKey(SlotOf(lim), key);
            var (cell, reply) := Allow(lim, b, Lookup(s.data, stateKey), r);
            var allowed := Grants(reply);
            (cached.(data := Put(s.data, stateKey, cell)),
             if cfg.windowSeconds == 0 then Undefined else Checked(allowed, if allowed then cfg.limit else 0))
  }

  function DoResetLimit(s: State, key: string, at: int, configOk: bool, resetOk: bool, deleteConfigOk: bool,
                        deleteMetadataOk: bool): (State, Response) {
    match FetchConfig(s.data, key, at, configOk)
    case Err(error) => (s, Failed(error))
    case Ok(cfg) =>
      if !CanFind(s.limiters, key, cfg) then (s, Undefined)
      else
        match LimiterFor(s.limiters, key, cfg)
        case None => (s, Failed(Unsupported(cfg.algorithm)))
        case Some(lim) =>
          var cached := s.(limiters := s.limiters[LimiterKey(key, cfg.algorithm) := lim]);
          if !resetOk then (cached, Failed(StoreFailed))
          else
            var cleared := s.data - {StoreKey(SlotOf(lim), key)};
            var unconfigured := if deleteConfigOk then cleared - {StoreKey(ConfigSlot, key)} else cleared;
            (cached.(data := if deleteMetadataOk then unconfigured - {StoreKey(MetadataSlot, key)} else unconfigured),
             Done)
  }

  function DoGetStatus(s: State, key: string, at: int, configOk: bool, metadataOk: bool): Response {
    match FetchConfig(s.data, key, at, configOk)
    case Err(error) => Failed(error)
    case Ok(cfg) =>
      if cfg.windowSeconds == 0 then Undefined
      else
        var found := if metadataOk then Visible(Lookup(s.data, StoreKey(MetadataSlot, key)), at) else None;
        if found.Some? && found.value.MetadataJson? then Status(cfg, found.value.createdAt, found.value.updatedAt)
        else Status(cfg, at / SECOND, at / SECOND)
  }

  function Respond(b: Backend, s: State, op: Op): (State, Response) {
    match op
    case SetConfig(key, cfg, at, configOk, metadataOk) => DoSetConfig(b, s, key, cfg, at, configOk, metadataOk)
    case CheckLimit(key, at, configOk, r) => DoCheckLimit(b, s, key, at, configOk, r)
    case ResetLimit(key, at, configOk, resetOk, deleteConfigOk, deleteMetadataOk) =>
      DoResetLimit(s, key, at, configOk, resetOk, deleteConfigOk, deleteMetadataOk)
    case GetStatus(key, at, configOk, metadataOk) => (s, DoGetStatus(s, key, at, configOk, metadataOk))
    case Cleanup(at) => (s.(data := Unexpired(s.data, at)), Done)
  }

  // The service as an object

  /** limiter.RateLimiter: one of the four implementations. */
  datatype RateLimiter =
    | Sliding(sw: SlidingWindows.SlidingWindow)
    | Token(tb: TokenBuckets.TokenBucket)
    | Leaky(lb: LeakyBuckets.LeakyBucket)
    | Fixed(fw: FixedWindows.FixedWindow)
  {
    function Params(): Limiter {
      match this
      case Sliding(sw) => sw.Params()
      case Token(tb) => tb.Params()
      case Leaky(lb) => lb.Params()
      case Fixed(fw) => fw.Params()
    }

    function Backing(): Store {
      match this
      case Sliding(sw) => sw.store
      case Token(tb) => tb.store
      case Leaky(lb) => lb.store
      case Fixed(fw) => fw.store
    }

    method Allow(key: string, r: Reading) returns (allowed: bool, failed: bool)
      requires r.getOk ==> Divides(Params())
      modifies Backing()`data
      ensures
        var stateKey := StoreKey(SlotOf(Params()), key);
        var (cell, reply) := Limiters.Allow(Params(), Backing().backend, Lookup(old(Backing().data), stateKey), r);
        Backing().data == Put(old(Backing().data), stateKey, cell) && reply == Decision(allowed, failed)
    {
      match this
      case Sliding(sw) => allowed, failed := sw.Allow(key, r);
      case Token(tb) => allowed, failed := tb.Allow(key, r);
      case Leaky(lb) => allowed, failed := lb.Allow(key, r);
      case Fixed(fw) => allowed, failed := fw.Allow(key, r);
    }

    method Reset(key: string, ok: bool) returns (failed: bool)
      modifies Backing()
      ensures failed == !ok
      ensures Backing().data
           == if ok then old(Backing().data) - {StoreKey(SlotOf(Params()), key)} else old(Backing().data)
    {
      ghost var stateKey := StoreKey(SlotOf(Params()), key);
      ghost var before := Backing().data;
      match this {
        case Sliding(sw) => failed := sw.Reset(key, ok);
        case Token(tb) => failed := tb.Reset(key, ok);
        case Leaky(lb) => failed := lb.Reset(key, ok);
        case Fixed(fw) => failed := fw.Reset(key, ok);
      }
      assert Put(before, stateKey, Lookup(before, stateKey)) == before;
    }
  }

  class RateLimitService {
    const store: Store
    var limiters: map<string, RateLimiter>

    constructor (store: Store)
      ensures this.store == store && Valid() && limiters == map[]
    {
      this.store := store;
      limiters := map[];
    }

    ghost predicate Valid()
      reads this
    {
      forall k | k in limiters :: limiters[k].Backing() == store
    }

    ghost function View(): State
      reads this, store
    {
      State(store.data, map k | k in limiters :: limiters[k].Params())
    }

    method GetConfig(key: string, at: int, ok: bool) returns (result: Result<Config>)
      ensures result == FetchConfig(store.data, key, at, ok)
    {
      if !ok {
        return Err(StoreFailed);
      }
      var configStr := store.Get(StoreKey(ConfigSlot, key), at);
      if configStr.None? {
        return Err(NotFound);
      }
      result := if configStr.value.ConfigJson? then Ok(configStr.value.config) else Err(Unparsable);
    }

    method GetOrCreateLimiter(limiterKey: string, cfg: Config) returns (found: Option<RateLimiter>)
      requires Valid() && (cfg.windowSeconds != 0 || limiterKey in limiters)
      modifies this`limiters
      ensures Valid()
      ensures
        var lim := if limiterKey in old(View().limiters) then Some(old(View().limiters)[limiterKey]) else Build(cfg);
        && found.Some? == lim.Some?
        && (found.Some? ==> found.value.Params() == lim.value && found.value.Backing() == store)
        && View().limiters == if lim.Some? then old(View().limiters)[limiterKey := lim.value] else old(View().limiters)
    {
      if limiterKey in limiters {
        return Some(limiters[limiterKey]);
      }
      var windowDuration := Seconds(cfg.windowSeconds);
      var leakRate := Quot(cfg.limit, cfg.windowSeconds);
      if leakRate == 0 {
        leakRate := 1;
      }
      var lim: RateLimiter;
      if cfg.algorithm == TOKEN_BUCKET {
        var tb := new TokenBuckets.TokenBucket(store, cfg.refillRate as real, Seconds(cfg.refillInterval),
                                               cfg.limit as real);
        lim := Token(tb);
      } else if cfg.algorithm == SLIDING_WINDOW {
        var sw := new SlidingWindows.SlidingWindow(store, cfg.limit, windowDuration);
        lim := Sliding(sw);
      } else if cfg.algorithm == FIXED_WINDOW {
        var fw := new FixedWindows.FixedWindow(store, cfg.limit, windowDuration);
        lim := Fixed(fw);
      } else if cfg.algorithm == LEAKY_BUCKET {
        var lb := new LeakyBuckets.LeakyBucket(store, cfg.limit, leakRate, windowDuration);
        lim := Leaky(lb);
      } else {
        return None;
      }
      limiters := limiters[limiterKey := lim];
      found := Some(lim);
    }

    method SetConfig(key: string, config: Config, at: int, configOk: bool,
                     metadataOk: bool) returns (response: Response)
      requires Valid()
      modifies store`data
      ensures Valid()
      ensures (View(), response) == DoSetConfig(store.backend, old(View()), key, config, at, configOk, metadataOk)
    {
      var invalid := ValidateConfig(config);
      if invalid.Some? {
        return Failed(invalid.value);
      }
      if !configOk {
        return Failed(StoreFailed);
      }
      store.Set(StoreKey(ConfigSlot, key), ConfigJson(config), 0, at);
      if !metadataOk {
        return Failed(StoreFailed);
      }
      store.Set(StoreKey(MetadataSlot, key), MetadataJson(at / SECOND, at / SECOND), 0, at);
      response := Done;
    }

    method CheckLimit(key: string, at: int, configOk: bool, r: Reading) returns (response: Response)
      requires Valid()
      modifies this`limiters, store`data
      ensures Valid() && (View(), response) == DoCheckLimit(store.backend, old(View()), key, at, configOk, r)
    {
      var fetched := GetConfig(key, at, configOk);
      if fetched.Err? {
        return Failed(fetched.error);
      }
      var config := fetched.value;
      if config.windowSeconds == 0 && LimiterKey(key, config.algorithm) !in limiters {
        return Undefined;
      }
      var found := GetOrCreateLimiter(LimiterKey(key, config.algorithm), config);
      if found.None? {
        return Failed(Unsupported(config.algorithm));
      }
      if r.getOk && !Divides(found.value.Params()) {
        return Undefined;
      }
      var allowed, failed := found.value.Allow(key, r);
      if failed {
        allowed := true;
      }
      if config.windowSeconds == 0 {
        return Undefined;
      }
      response := Checked(allowed, if allowed then config.limit else 0);
    }

    method ResetLimit(key: string, at: int, configOk: bool, resetOk: bool, deleteConfigOk: bool, deleteMetadataOk: bool)
      returns (response: Response)
      requires Valid()
      modifies this`limiters, store
      ensures Valid()
      ensures (View(), response)
           == DoResetLimit(old(View()), key, at, configOk, resetOk, deleteConfigOk, deleteMetadataOk)
    {
      var fetched := GetConfig(key, at, configOk);
      if fetched.Err? {
        return Failed(fetched.error);
      }
      var config := fetched.value;
      if config.windowSeconds == 0 && LimiterKey(key, config.algorithm) !in limiters {
        return Undefined;
      }
      var found := GetOrCreateLimiter(LimiterKey(key, config.algorithm), config);
      if found.None? {
        return Failed(Unsupported(config.algorithm));
      }
      var failed := found.value.Reset(key, resetOk);
      if failed {
        return Failed(StoreFailed);
      }
      if deleteConfigOk {
        store.Delete(StoreKey(ConfigSlot, key));
      }
      if deleteMetadataOk {
        store.Delete(StoreKey(MetadataSlot, key));
      }
      response := Done;
    }

    method GetStatus(key: string, at: int, configOk: bool, metadataOk: bool) returns (response: Response)
      requires Valid()
      ensures response == DoGetStatus(View(), key, at, configOk, metadataOk)
    {
      var fetched := GetConfig(key, at, configOk);
      if fetched.Err? {
        return Failed(fetched.error);
      }
      var config := fetched.value;
      if config.windowSeconds == 0 {
        return Undefined;
      }
      var createdAt, updatedAt := at / SECOND, at / SECOND;
      if metadataOk {
        var metadata := store.Get(StoreKey(MetadataSlot, key), at);
        if metadata.Some? && metadata.value.MetadataJson? {
          createdAt, updatedAt := metadata.value.createdAt, metadata.value.updatedAt;
        }
      }
      response := Status(config, createdAt, updatedAt);
    }
  }
}
