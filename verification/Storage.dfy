/** The key/value store with expiry that limiters and service share (internal/storage). */
module Storage {
  import opened Prelude
  import Decimal

  /** What a limiter algorithm is configured with (RateLimitConfig). */
  datatype Config = Config(algorithm: string, limit: int, windowSeconds: int, refillRate: int, refillInterval: int)

  /** A stored string. The JSON documents appear as what they decode to; Text is any string that is not one of them. */
  datatype Value =
    | Text(text: string)
    | SlidingState(timestamps: seq<int>)
    | BucketState(tokens: real, lastFillTime: int)
    | LeakyState(count: int, lastLeakTime: int)
    | FixedState(count: int, windowEnd: int)
    | ConfigJson(config: Config)
    | MetadataJson(createdAt: int, updatedAt: int)

  /** expiration None is Go's zero time: never expires. */
  datatype StorageValue = StorageValue(value: Value, expiration: Option<int>)

  datatype SortedSet = SortedSet(members: map<string, real>, expiration: Option<int>)

  type Data = map<string, StorageValue>

  type Sets = map<string, SortedSet>

  /** What one key holds. */
  type Cell = Option<StorageValue>

  /** Memory and Redis read a TTL of zero differently; Eternal ignores every TTL and serves as reference. */
  datatype Backend = Memory | Redis | Eternal

  function ExpirationOf(b: Backend, at: int, ttl: int): Option<int> {
    match b
    case Memory => Some(at + ttl)
    case Redis => if ttl == 0 then None else Some(at + ttl)
    case Eternal => None
  }

  predicate Expired(expiration: Option<int>, now: int) {
    expiration.Some? && expiration.value < now
  }

  function Lookup(data: Data, key: string): Cell {
    if key in data then Some(data[key]) else None
  }

  function Put(data: Data, key: string, cell: Cell): Data {
    if cell.Some? then data[key := cell.value] else data - {key}
  }

  /** What Get finds in a cell; None stands for the empty string it returns for a missing or expired key. */
  function Visible(cell: Cell, now: int): Option<Value> {
    if cell.None? || Expired(cell.value.expiration, now) || cell.value.value == Text("") then None
    else Some(cell.value.value)
  }

  /** The unexpired part of the store. */
  function Unexpired(data: Data, now: int): Data {
    map k | k in data && !Expired(data[k].expiration, now) :: data[k]
  }

  function SweepCell(cell: Cell, now: int): Cell {
    if cell.Some? && Expired(cell.value.expiration, now) then None else cell
  }

  /** The text under a counter key, if there is any; expiration is not looked at. */
  function CounterText(data: Data, key: string): Option<string> {
    if key in data && data[key].value.Text? then Some(data[key].value.text) else None
  }

  /** The number such a text stands for: zero when it is missing or does not scan. */
  function Tally(text: Option<string>): int {
    if text.Some? && Decimal.Scan(text.value).Some? then Decimal.Scan(text.value).value else 0
  }

  predicate InRange(score: real, min: real, max: real) {
    min <= score <= max
  }

  function MembersInRange(members: map<string, real>, min: real, max: real): set<string> {
    set m | m in members && InRange(members[m], min, max)
  }

  function Added(sets: Sets, key: string, score: real, member: string, expiration: int): Sets {
    var members := if key in sets then sets[key].members else map[];
    sets[key := SortedSet(members[member := score], Some(expiration))]
  }

  function Extended(sets: Sets, key: string, expiration: int): Sets {
    if key in sets then sets[key := sets[key].(expiration := Some(expiration))] else sets
  }

  /** The unexpired sorted sets. */
  function UnexpiredSets(sets: Sets, now: int): Sets {
    map k | k in sets && !Expired(sets[k].expiration, now) :: sets[k]
  }

  /** Members ZCount sees: those in range of a present, unexpired set. */
  function Counted(sets: Sets, key: string, min: real, max: real, now: int): set<string> {
    if key in sets && !Expired(sets[key].expiration, now) then MembersInRange(sets[key].members, min, max) else {}
  }

  function RemoveRange(sets: Sets, key: string, min: real, max: real): Sets {
    if key !in sets then sets
    else
      var left := sets[key].members - MembersInRange(sets[key].members, min, max);
      if left == map[] then sets - {key} else sets[key := sets[key].(members := left)]
  }

  class Store {
    const backend: Backend
    var data: Data
    var sortedSets: Sets

    constructor (backend: Backend)
      ensures this.backend == backend && data == map[] && sortedSets == map[]
    {
      this.backend := backend;
      data, sortedSets := map[], map[];
    }

    method RemoveExpiredKeys(now: int)
      modifies this
      ensures data == Unexpired(old(data), now)
      ensures sortedSets == UnexpiredSets(old(sortedSets), now)
    {
      var pending := data.Keys;
      while pending != {}
        invariant pending <= data.Keys <= old(data).Keys
        invariant forall k | k in data :: data[k] == old(data)[k] && (k in pending || !Expired(data[k].expiration, now))
        invariant forall k | k in old(data) && !Expired(old(data)[k].expiration, now) :: k in data
        invariant sortedSets == old(sortedSets)
      {
        var key :| key in pending;
        pending := pending - {key};
        if Expired(data[key].expiration, now) {
          data := data - {key};
        }
      }
      var pendingSets := sortedSets.Keys;
      while pendingSets != {}
        invariant pendingSets <= sortedSets.Keys <= old(sortedSets).Keys
        invariant forall k | k in sortedSets ::
          sortedSets[k] == old(sortedSets)[k] && (k in pendingSets || !Expired(sortedSets[k].expiration, now))
        invariant forall k | k in old(sortedSets) && !Expired(old(sortedSets)[k].expiration, now) :: k in sortedSets
        invariant data == Unexpired(old(data), now)
      {
        var key :| key in pendingSets;
        pendingSets := pendingSets - {key};
        if Expired(sortedSets[key].expiration, now) {
          sortedSets := sortedSets - {key};
        }
      }
    }

    method Increment(key: string, ttl: int, now: int) returns (newVal: int)
      modifies this`data
      ensures newVal == Wrap64(Tally(CounterText(old(data), key)) + 1)
      ensures data == old(data)[key := StorageValue(Text(Decimal.Print(newVal)), Some(now + ttl))]
    {
      newVal := 1;
      if key in data {
        var scanned := if data[key].value.Text? then Decimal.Scan(data[key].value.text) else None;
        match scanned {
          case None => newVal := 1;
          case Some(n) => newVal := Wrap64(n + 1);
        }
      }
      data := data[key := StorageValue(Text(Decimal.Print(newVal)), Some(now + ttl))];
    }

    method IncrementBy(key: string, value: int, ttl: int, now: int) returns (newVal: int)
      modifies this`data
      ensures newVal == Wrap64(Tally(CounterText(old(data), key)) + value)
      ensures data == old(data)[key := StorageValue(Text(Decimal.Print(newVal)), Some(now + ttl))]
    {
      var currentVal := 0;
      if key in data {
        var scanned := if data[key].value.Text? then Decimal.Scan(data[key].value.text) else None;
        match scanned {
          case None => currentVal := 0;
          case Some(n) => currentVal := n;
        }
      }
      newVal := Wrap64(currentVal + value);
      data := data[key := StorageValue(Text(Decimal.Print(newVal)), Some(now + ttl))];
    }

    method Get(key: string, now: int) returns (found: Option<Value>)
      ensures found == Visible(Lookup(data, key), now)
    {
      if key !in data {
        return None;
      }
      var val := data[key];
      if val.expiration.Some? && val.expiration.value < now {
        return None;
      }
      return if val.value == Text("") then None else Some(val.value);
    }

    method Set(key: string, value: Value, ttl: int, now: int)
      modifies this`data
      ensures data == Put(old(data), key, Some(StorageValue(value, ExpirationOf(backend, now, ttl))))
    {
      data := data[key := StorageValue(value, ExpirationOf(backend, now, ttl))];
    }

    method Delete(key: string)
      modifies this
      ensures data == Put(old(data), key, None) && sortedSets == old(sortedSets) - {key}
    {
      data := data - {key};
      sortedSets := sortedSets - {key};
    }

    method ZAdd(key: string, score: real, member: string, ttl: int, now: int)
      modifies this`sortedSets
      ensures sortedSets == Added(old(sortedSets), key, score, member, now + ttl)
    {
      var zset := if key in sortedSets then sortedSets[key] else SortedSet(map[], None);
      sortedSets := sortedSets[key := SortedSet(zset.members[member := score], Some(now + ttl))];
    }

    method ZRemRangeByScore(key: string, min: real, max: real)
      modifies this`sortedSets
      ensures sortedSets == RemoveRange(old(sortedSets), key, min, max)
    {
      if key !in sortedSets {
        return;
      }
      var zset := sortedSets[key];
      var members := zset.members;
      var pending := members.Keys;
      while pending != {}
        invariant pending <= members.Keys <= zset.members.Keys
        invariant forall m | m in members ::
          members[m] == zset.members[m] && (m in pending || !InRange(members[m], min, max))
        invariant forall m | m in zset.members && !InRange(zset.members[m], min, max) :: m in members
      {
        var member :| member in pending;
        pending := pending - {member};
        if min <= members[member] && members[member] <= max {
          members := members - {member};
        }
      }
      assert members == zset.members - MembersInRange(zset.members, min, max);
      if |members| == 0 {
        sortedSets := sortedSets - {key};
      } else {
        sortedSets := sortedSets[key := zset.(members := members)];
      }
    }

    /** The count does not depend on the order in which the map is visited. */
    method ZCount(key: string, min: real, max: real, now: int) returns (count: nat)
      ensures count == |Counted(sortedSets, key, min, max, now)|
    {
      if key !in sortedSets {
        return 0;
      }
      var zset := sortedSets[key];
      if zset.expiration.Some? && zset.expiration.value < now {
        return 0;
      }
      count := 0;
      var pending := zset.members.Keys;
      ghost var hits := {};
      while pending != {}
        invariant pending <= zset.members.Keys && hits !! pending
        invariant forall m | m in zset.members && m !in pending :: m in hits <==> InRange(zset.members[m], min, max)
        invariant hits <= zset.members.Keys && count == |hits|
      {
        var member :| member in pending;
        pending := pending - {member};
        if min <= zset.members[member] && zset.members[member] <= max {
          count := count + 1;
          hits := hits + {member};
        }
      }
      assert hits == MembersInRange(zset.members, min, max);
    }

    method Expire(key: string, ttl: int, now: int)
      modifies this
      ensures data == if key in old(data)
                      then old(data)[key := old(data)[key].(expiration := Some(now + ttl))] else old(data)
      ensures sortedSets == Extended(old(sortedSets), key, now + ttl)
    {
      if key in data {
        data := data[key := data[key].(expiration := Some(now + ttl))];
      }
      if key in sortedSets {
        sortedSets := sortedSets[key := sortedSets[key].(expiration := Some(now + ttl))];
      }
    }
  }
}
