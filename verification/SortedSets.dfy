/** Whole histories of store calls on sorted sets: what is counted, and what a removal leaves. */
module SortedSets {
  import opened Prelude
  import opened Storage

  datatype Op =
    | ZAdd(key: string, score: real, member: string, ttl: int, at: int)
    | ZRemRangeByScore(key: string, min: real, max: real)
    | Delete(key: string)
    | Expire(key: string, ttl: int, at: int)
    | Sweep(at: int)

  function Apply(sets: Sets, op: Op): Sets {
    match op
    case ZAdd(key, score, member, ttl, at) => Added(sets, key, score, member, at + ttl)
    case ZRemRangeByScore(key, min, max) => RemoveRange(sets, key, min, max)
    case Delete(key) => sets - {key}
    case Expire(key, ttl, at) => Extended(sets, key, at + ttl)
    case Sweep(at) => UnexpiredSets(sets, at)
  }

  /** The sets at the end of a history that starts with none. */
  function ApplyAll(ops: seq<Op>): Sets {
    if ops == [] then map[] else Apply(ApplyAll(ops[..|ops| - 1]), ops[|ops| - 1])
  }

  /** When a set expires, read off the history alone: as its last ZAdd or Expire says. */
  function LastExpiration(ops: seq<Op>, key: string): Option<int> {
    if ops == [] then None
    else
      match ops[|ops| - 1]
      case ZAdd(k, _, _, ttl, at) => if k == key then Some(at + ttl) else LastExpiration(ops[..|ops| - 1], key)
      case Expire(k, ttl, at) => if k == key then Some(at + ttl) else LastExpiration(ops[..|ops| - 1], key)
      case _ => LastExpiration(ops[..|ops| - 1], key)
  }

  /** A member's score, read off the history alone: the last one given to it, unless the set was deleted since, or
      swept after its expiration, or a range with that score removed. */
  function LastScore(ops: seq<Op>, key: string, member: string): Option<real> {
    if ops == [] then None
    else
      var before := ops[..|ops| - 1];
      var score := LastScore(before, key, member);
      match ops[|ops| - 1]
      case ZAdd(k, newScore, m, _, _) => if k == key && m == member then Some(newScore) else score
      case ZRemRangeByScore(k, min, max) =>
        if k == key && score.Some? && min <= score.value && score.value <= max then None else score
      case Delete(k) => if k == key then None else score
      case Expire(_, _, _) => score
      case Sweep(at) =>
        if LastExpiration(before, key).Some? && LastExpiration(before, key).value < at then None else score
  }

  /** After any history a range counts exactly the members whose last score lies in it, bounds included, until the
      instant its set's last ZAdd or Expire names. A set that expired but was not swept keeps its members: another
      ZAdd counts them again. */
  lemma CountsLastScores(ops: seq<Op>, key: string, lo: real, hi: real, now: int, member: string)
    ensures member in Counted(ApplyAll(ops), key, lo, hi, now)
       <==> && LastScore(ops, key, member).Some?
            && lo <= LastScore(ops, key, member).value && LastScore(ops, key, member).value <= hi
            && LastExpiration(ops, key).Some? && now <= LastExpiration(ops, key).value
  {
    Holds(ops, key, member);
  }

  /** What the sets hold is what the history says. */
  lemma {:induction false} Holds(ops: seq<Op>, key: string, member: string)
    ensures Scored(ApplyAll(ops), key, member) == LastScore(ops, key, member)
    ensures key in ApplyAll(ops) ==>
      ApplyAll(ops)[key].expiration == LastExpiration(ops, key) && LastExpiration(ops, key).Some?
  {
    if ops != [] {
      var before, op := ops[..|ops| - 1], ops[|ops| - 1];
      Holds(before, key, member);
      if op.ZRemRangeByScore? {
        RemovalTakesRange(ApplyAll(before), op.key, op.min, op.max, key, member);
      }
    }
  }

  /** The score a member has. */
  function Scored(sets: Sets, key: string, member: string): Option<real> {
    if key in sets && member in sets[key].members then Some(sets[key].members[member]) else None
  }

  /** After any history a newly added member is counted exactly by the ranges that include its score, up to and
      including the instant its set expires at. */
  lemma AddedIsCounted(ops: seq<Op>, key: string, score: real, member: string, ttl: int, at: int, lo: real, hi: real,
                       now: int)
    ensures member in Counted(ApplyAll(ops + [ZAdd(key, score, member, ttl, at)]), key, lo, hi, now)
       <==> lo <= score && score <= hi && now <= at + ttl
  {
    var all := ops + [ZAdd(key, score, member, ttl, at)];
    assert all[..|all| - 1] == ops;
    CountsLastScores(all, key, lo, hi, now, member);
  }

  /** A removal takes the members whose score lies in its range, bounds included, and leaves every other, in this set
      and in all others, with its score; the set's entry goes with its last member. */
  lemma RemovalTakesRange(sets: Sets, key: string, min: real, max: real, k: string, member: string)
    ensures
      var after := RemoveRange(sets, key, min, max);
      && Scored(after, k, member) == (
           if k == key && Scored(sets, key, member).Some?
              && min <= Scored(sets, key, member).value && Scored(sets, key, member).value <= max
           then None else Scored(sets, k, member))
      && (k in after ==> k in sets && after[k].expiration == sets[k].expiration)
      && (key in after <==> key in sets && exists m | m in sets[key].members ::
            sets[key].members[m] < min || max < sets[key].members[m])
  {
    if key in sets {
      var members := sets[key].members;
      var left := members - MembersInRange(members, min, max);
      forall m
        ensures m in left <==> m in members && (members[m] < min || max < members[m])
      {
      }
      assert left == map[] <==> forall m :: m !in left;
    }
  }

  /** A sweep between two ZAdds decides whether the second brings back what had expired: without it the first member is
      counted again, with it that member is gone. */
  lemma SweepEndsExpiredSets(key: string, first: string, second: string, ttl: int, at: int, sweptAt: int, later: int)
    requires first != second && 0 < ttl && at + ttl < sweptAt <= later
    ensures
      var adding, again := ZAdd(key, 1.0, first, ttl, at), ZAdd(key, 1.0, second, ttl, later);
      && first in Counted(ApplyAll([adding, again]), key, 1.0, 1.0, later)
      && first !in Counted(ApplyAll([adding, Sweep(sweptAt), again]), key, 1.0, 1.0, later)
      && first !in Counted(ApplyAll([adding]), key, 1.0, 1.0, later)
  {
    var adding, again := ZAdd(key, 1.0, first, ttl, at), ZAdd(key, 1.0, second, ttl, later);
    CountsLastScores([adding, again], key, 1.0, 1.0, later, first);
    CountsLastScores([adding, Sweep(sweptAt), again], key, 1.0, 1.0, later, first);
    CountsLastScores([adding], key, 1.0, 1.0, later, first);
    assert [adding, again][..1] == [adding] && [adding, Sweep(sweptAt), again][..2] == [adding, Sweep(sweptAt)];
    assert [adding, Sweep(sweptAt)][..1] == [adding] && [adding][..0] == [];
    assert LastScore([adding], key, first) == Some(1.0) && LastExpiration([adding], key) == Some(at + ttl);
  }

  /** Removing one range splits any counted range in two: what is counted afterwards and what was removed from it. */
  lemma RemovalPartitionsCount(sets: Sets, key: string, now: int,
                               lo: real, hi: real, min: real, max: real)
    ensures
      var after := RemoveRange(sets, key, min, max);
      var removed := Counted(sets, key, lo, hi, now) * Counted(sets, key, min, max, now);
      && |Counted(sets, key, lo, hi, now)| == |Counted(after, key, lo, hi, now)| + |removed|
      && |Counted(after, key, min, max, now)| == 0
      && (hi < min || max < lo ==> Counted(after, key, lo, hi, now) == Counted(sets, key, lo, hi, now))
      && (forall k | k != key :: Counted(after, k, lo, hi, now) == Counted(sets, k, lo, hi, now))
  {
    RemovalLeaves(sets, key, now, lo, hi, min, max);
    RemovalLeaves(sets, key, now, min, max, min, max);
    SplitSize(Counted(sets, key, lo, hi, now), Counted(sets, key, min, max, now));
    assert hi < min || max < lo ==> Counted(sets, key, lo, hi, now) * Counted(sets, key, min, max, now) == {};
  }

  lemma SplitSize(before: set<string>, gone: set<string>)
    ensures |before| == |before - gone| + |before * gone|
    ensures before * gone == {} ==> before - gone == before
    ensures |gone - gone| == 0
  {
    assert before == (before - gone) + (before * gone);
  }

  lemma RemovalLeaves(sets: Sets, key: string, now: int, lo: real, hi: real, min: real, max: real)
    ensures Counted(RemoveRange(sets, key, min, max), key, lo, hi, now)
         == Counted(sets, key, lo, hi, now) - Counted(sets, key, min, max, now)
  {
    if key in sets {
      var members := sets[key].members;
      var left := members - MembersInRange(members, min, max);
      assert MembersInRange(left, lo, hi) == MembersInRange(members, lo, hi) - MembersInRange(members, min, max);
      if left == map[] {
        assert MembersInRange(left, lo, hi) == {};
      }
    }
  }
}
