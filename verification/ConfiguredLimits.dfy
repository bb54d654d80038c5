/** What a configuration's numbers mean to a client, from the fields of the configuration to the answers. */
module ConfiguredLimits {
  import opened Prelude
  import opened Storage
  import opened Limiters
  import opened Service
  import ServiceRuns
  import SlidingWindows
  import TokenBuckets
  import LeakyBuckets
  import FixedWindows

  /** n checks of a key at instant t with a store that works. */
  function Checks(key: string, t: int, n: nat): (ops: seq<Op>)
    ensures |ops| == n && forall op | op in ops :: op == CheckLimit(key, t, true, CallAt(t).r)
  {
    if n == 0 then [] else [CheckLimit(key, t, true, CallAt(t).r)] + Checks(key, t, n - 1)
  }

  /** How many of the responses allow a request. */
  function AllowedCount(rs: seq<Response>): nat {
    if rs == [] then 0 else One(rs[0].Checked? && rs[0].allowed) + AllowedCount(rs[1..])
  }

  /** How many of `limit` further checks are allowed so many nanoseconds after `limit` checks on a fresh key: none until
      a window has passed, then all, under the windows; as many tokens as have flowed in since under the token bucket;
      the leak of as many whole windows as have passed under the leaky bucket, limit / window_seconds or else one a
      window. A bucket left alone for more than 24 hours starts afresh, unless the store never forgets. */
  function AllowedAgain(b: Backend, cfg: Config, elapsed: nat): int
    requires 0 < cfg.windowSeconds && (cfg.algorithm == "token_bucket" ==> 0 < cfg.refillInterval)
  {
    var window := cfg.windowSeconds * 1_000_000_000;
    if cfg.algorithm in {"sliding_window", "fixed_window"} then if elapsed < window then 0 else cfg.limit
    else if !b.Eternal? && 86_400_000_000_000 < elapsed then cfg.limit
    else if cfg.algorithm == "token_bucket"
         then Least(cfg.limit, elapsed * cfg.refillRate / (cfg.refillInterval * 1_000_000_000))
    else Least(cfg.limit, elapsed / window * Max(1, cfg.limit / cfg.windowSeconds))
  }

  /** One interval later: under the windows everything again, under the token bucket one refill, under the leaky bucket
      the leak of one window, unless the interval is so long that the store has forgotten the bucket. */
  lemma OneIntervalLater(b: Backend, cfg: Config)
    requires 0 < cfg.limit && 0 < cfg.windowSeconds && 0 < cfg.refillInterval && 0 <= cfg.refillRate
    ensures
      var window, interval := cfg.windowSeconds * 1_000_000_000, cfg.refillInterval * 1_000_000_000;
      && (cfg.algorithm in {"sliding_window", "fixed_window"} ==> AllowedAgain(b, cfg, window) == cfg.limit)
      && (cfg.algorithm == "token_bucket" ==>
            AllowedAgain(b, cfg, interval)
            == if b.Eternal? || cfg.refillInterval <= 86_400 then Least(cfg.limit, cfg.refillRate) else cfg.limit)
      && (cfg.algorithm == "leaky_bucket" ==>
            AllowedAgain(b, cfg, window)
            == if b.Eternal? || cfg.windowSeconds <= 86_400 then Least(cfg.limit, Max(1, cfg.limit / cfg.windowSeconds))
               else cfg.limit)
  {
    var window, interval := cfg.windowSeconds * 1_000_000_000, cfg.refillInterval * 1_000_000_000;
    MultipleHasNoRemainder(cfg.refillRate, interval);
    MultipleHasNoRemainder(1, window);
    assert interval * cfg.refillRate == cfg.refillRate * interval;
  }

  /** From the configuration to the answers, whatever the clients of other keys do: of the checks that follow a
      configuration the first `limit` at one instant are allowed, and of `limit` more exactly as many as the fields of
      the configuration say. */
  lemma ConfiguredLimitsAreKept(b: Backend, key: string, cfg: Config, at: int, ops: seq<Op>, t: int, later: int)
    requires ServiceRuns.Fits(cfg) && !b.Memory? && t <= later
    requires forall i | 0 <= i < |ops| && ServiceRuns.Concerns(ops[i], key) :: ServiceRuns.IsCheck(ops[i])
    requires ServiceRuns.Only(key, ops) == Checks(key, t, cfg.limit) + Checks(key, later, cfg.limit)
    ensures
      var all := [SetConfig(key, cfg, at, true, true)] + ops;
      var responses := ServiceRuns.OnlyTheirs(key, all, ServiceRuns.Responses(b, ServiceRuns.FRESH, all));
      && |responses| == 1 + cfg.limit + cfg.limit
      && AllowedCount(responses[1..][..cfg.limit]) == cfg.limit
      && AllowedCount(responses[1..][cfg.limit..]) == AllowedAgain(b, cfg, later - t)
  {
    ServiceRuns.ConfiguredKeyRunsItsLimiter(b, key, cfg, at, ops);
    var all := [SetConfig(key, cfg, at, true, true)] + ops;
    var responses := ServiceRuns.OnlyTheirs(key, all, ServiceRuns.Responses(b, ServiceRuns.FRESH, all));
    RepliesFollowConfig(b, key, cfg, t, later, ServiceRuns.Only(key, ops), responses[1..]);
  }

  lemma RepliesFollowConfig(b: Backend, key: string, cfg: Config, t: int, later: int, own: seq<Op>,
                            responses: seq<Response>)
    requires ServiceRuns.Fits(cfg) && t <= later && Build(cfg).Some? && Divides(Build(cfg).value)
    requires own == Checks(key, t, cfg.limit) + Checks(key, later, cfg.limit) && |responses| == |own|
    requires forall i | 0 <= i < |own| :: ServiceRuns.IsCheck(own[i])
    requires
      var replies := Run(Build(cfg).value, b, None, ServiceRuns.EventsOf(own));
      forall i | 0 <= i < |own| :: ServiceRuns.Answers(cfg, own[i], responses[i], replies[i])
    ensures AllowedCount(responses[..cfg.limit]) == cfg.limit
    ensures AllowedCount(responses[cfg.limit..]) == AllowedAgain(b, cfg, later - t)
  {
    var n, lim := cfg.limit, Build(cfg).value;
    var replies := Run(lim, b, None, ServiceRuns.EventsOf(own));
    ChecksAreBursts(key, t, later, n);
    RunConcat(lim, b, None, Burst(t, n), Burst(later, n));
    var first, second := Run(lim, b, None, Burst(t, n)), Run(lim, b, After(lim, b, None, Burst(t, n)), Burst(later, n));
    assert replies == first + second && replies[..n] == first && replies[n..] == second;
    assert own[..n] == Checks(key, t, n) && own[n..] == Checks(key, later, n);
    AllowedAreGranted(cfg, own[..n], responses[..n], replies[..n]);
    AllowedAreGranted(cfg, own[n..], responses[n..], replies[n..]);
    BurstsFollowConfig(b, cfg, t, later);
  }

  lemma ChecksAreBursts(key: string, t: int, later: int, n: nat)
    ensures var own := Checks(key, t, n) + Checks(key, later, n);
      && (forall i | 0 <= i < |own| :: ServiceRuns.IsCheck(own[i]))
      && ServiceRuns.EventsOf(own) == Burst(t, n) + Burst(later, n)
  {
    var own, bursts := Checks(key, t, n) + Checks(key, later, n), Burst(t, n) + Burst(later, n);
    forall i | 0 <= i < |own|
      ensures own[i] == CheckLimit(key, if i < n then t else later, true, CallAt(if i < n then t else later).r)
      ensures bursts[i] == CallAt(if i < n then t else later)
    {
      assert own[i] in (if i < n then Checks(key, t, n) else Checks(key, later, n));
      assert bursts[i] in (if i < n then Burst(t, n) else Burst(later, n));
    }
    EventAt(own);
  }

  lemma {:induction false} EventAt(ops: seq<Op>)
    requires forall i | 0 <= i < |ops| :: ServiceRuns.IsCheck(ops[i])
    ensures forall i | 0 <= i < |ops| :: ServiceRuns.EventsOf(ops)[i] == ServiceRuns.EventOf(ops[i])
  {
    if ops != [] {
      EventAt(ops[1..]);
    }
  }

  lemma {:induction false} AllowedAreGranted(cfg: Config, ops: seq<Op>, responses: seq<Response>, replies: seq<Reply>)
    requires |ops| == |responses| == |replies|
    requires forall op | op in ops :: op.CheckLimit? && op.configOk
    requires forall i | 0 <= i < |ops| :: ServiceRuns.Answers(cfg, ops[i], responses[i], replies[i])
    ensures AllowedCount(responses) == Admitted(replies)
  {
    if ops != [] {
      assert ops[0] in ops && ServiceRuns.Answers(cfg, ops[0], responses[0], replies[0]);
      AllowedAreGranted(cfg, ops[1..], responses[1..], replies[1..]);
    }
  }

  /** The limiter that a configuration describes grants what its fields say. */
  lemma BurstsFollowConfig(b: Backend, cfg: Config, t: int, later: int)
    requires ServiceRuns.Fits(cfg) && t <= later
    ensures
      && Build(cfg).Some? && Divides(Build(cfg).value)
      && var lim, n := Build(cfg).value, cfg.limit;
         && Admitted(Run(lim, b, None, Burst(t, n))) == n
         && Admitted(Run(lim, b, After(lim, b, None, Burst(t, n)), Burst(later, n))) == AllowedAgain(b, cfg, later - t)
  {
    ServiceRuns.BuildMatches(cfg);
    var window := cfg.windowSeconds * SECOND;
    match Build(cfg).value
    case SlidingWindow(_, _) => SlidingWindows.SecondWindowful(cfg.limit, window, b, t, later);
    case FixedWindow(_, _) => FixedWindows.SecondWindowful(cfg.limit, window, b, t, later);
    case TokenBucket(_, interval, _) => TokenBuckets.SecondBucketful(cfg.refillRate, interval, cfg.limit, b, t, later);
    case LeakyBucket(_, leak, _) => LeakyBuckets.SecondBucketful(cfg.limit, leak, window, b, t, later);
  }
}
