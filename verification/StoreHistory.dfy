/** Whole histories of store calls on values: sweeping is invisible, counters are exact. */
module StoreHistory {
  import opened Prelude
  import opened Storage
  import Decimal

  datatype Op =
    | Get(key: string, at: int)
    | Set(key: string, value: Value, ttl: int, at: int)
    | Delete(key: string, at: int)
    | Sweep(at: int)

  function Apply(b: Backend, data: Data, op: Op): Data {
    match op
    case Get(_, _) => data
    case Set(key, value, ttl, at) => Put(data, key, Some(StorageValue(value, ExpirationOf(b, at, ttl))))
    case Delete(key, _) => Put(data, key, None)
    case Sweep(at) => Unexpired(data, at)
  }

  function ApplyAll(b: Backend, data: Data, ops: seq<Op>): Data
    decreases ops
  {
    if ops == [] then data else ApplyAll(b, Apply(b, data, ops[0]), ops[1..])
  }

  /** What the Gets of a history return, in order. */
  function Answers(b: Backend, data: Data, ops: seq<Op>): seq<Option<Value>>
    decreases ops
  {
    if ops == [] then []
    else
      (if ops[0].Get? then [Visible(Lookup(data, ops[0].key), ops[0].at)] else [])
      + Answers(b, Apply(b, data, ops[0]), ops[1..])
  }

  /** The history a store without a cleanup goroutine would see. */
  function WithoutSweeps(ops: seq<Op>): seq<Op> {
    if ops == [] then [] else (if ops[0].Sweep? then [] else [ops[0]]) + WithoutSweeps(ops[1..])
  }

  ghost predicate Nondecreasing(ops: seq<Op>, clock: int) {
    ops != [] ==> clock <= ops[0].at && Nondecreasing(ops[1..], ops[0].at)
  }

  function EndTime(ops: seq<Op>, clock: int): int {
    if ops == [] then clock else ops[|ops| - 1].at
  }

  /** However many sweeps run, and whenever they do, every Get returns what it would have returned without them,
      and what the swept store holds is what is left unexpired of the unswept one. */
  lemma SweepsAreInvisible(b: Backend, ops: seq<Op>, clock: int)
    requires Nondecreasing(ops, clock)
    ensures Answers(b, map[], ops) == Answers(b, map[], WithoutSweeps(ops))
    ensures
      var swept, unswept := ApplyAll(b, map[], ops), ApplyAll(b, map[], WithoutSweeps(ops));
      var now := EndTime(ops, clock);
      && Unexpired(swept, now) == Unexpired(unswept, now)
      && (ops != [] && ops[|ops| - 1].Sweep? ==> swept == Unexpired(unswept, now))
  {
    SweptAgrees(b, map[], map[], ops, clock);
  }

  lemma {:induction false} SweptAgrees(b: Backend, d1: Data, d2: Data, ops: seq<Op>, clock: int)
    requires Nondecreasing(ops, clock) && Unexpired(d1, clock) == Unexpired(d2, clock)
    ensures Answers(b, d1, ops) == Answers(b, d2, WithoutSweeps(ops))
    ensures
      var swept, unswept := ApplyAll(b, d1, ops), ApplyAll(b, d2, WithoutSweeps(ops));
      var now := EndTime(ops, clock);
      && Unexpired(swept, now) == Unexpired(unswept, now)
      && (ops != [] && ops[|ops| - 1].Sweep? ==> swept == Unexpired(unswept, now))
    decreases ops
  {
    if ops == [] {
      return;
    }
    var op, rest := ops[0], ops[1..];
    AgreeLater(d1, d2, clock, op.at);
    var e1, e2 := Apply(b, d1, op), if op.Sweep? then d2 else Apply(b, d2, op);
    OpKeepsAgreement(b, d1, d2, op);
    SweptAgrees(b, e1, e2, rest, op.at);
    WithoutSweepsUnfolds(b, d2, ops);
    assert EndTime(ops, clock) == EndTime(rest, op.at);
  }

  lemma WithoutSweepsUnfolds(b: Backend, data: Data, ops: seq<Op>)
    requires ops != []
    ensures
      var op, kept, rest := ops[0], WithoutSweeps(ops), WithoutSweeps(ops[1..]);
      if op.Sweep? then kept == rest
      else
        && ApplyAll(b, data, kept) == ApplyAll(b, Apply(b, data, op), rest)
        && Answers(b, data, kept) == (if op.Get? then [Visible(Lookup(data, op.key), op.at)] else [])
                                     + Answers(b, Apply(b, data, op), rest)
  {
    var op, rest := ops[0], WithoutSweeps(ops[1..]);
    if op.Sweep? {
      assert WithoutSweeps(ops) == rest;
    } else {
      assert WithoutSweeps(ops) == [op] + rest && ([op] + rest)[1..] == rest;
    }
  }

  lemma AgreeLater(d1: Data, d2: Data, clock: int, now: int)
    requires clock <= now && Unexpired(d1, clock) == Unexpired(d2, clock)
    ensures Unexpired(d1, now) == Unexpired(d2, now)
    ensures forall key :: Visible(Lookup(d1, key), now) == Visible(Lookup(d2, key), now)
  {
    forall key
      ensures key in d1 && !Expired(d1[key].expiration, now)
        ==> key in d2 && !Expired(d2[key].expiration, now) && d1[key] == d2[key]
      ensures key in d2 && !Expired(d2[key].expiration, now)
        ==> key in d1 && !Expired(d1[key].expiration, now) && d1[key] == d2[key]
    {
      assert key in Unexpired(d1, clock) <==> key in Unexpired(d2, clock);
    }
  }

  lemma OpKeepsAgreement(b: Backend, d1: Data, d2: Data, op: Op)
    requires Unexpired(d1, op.at) == Unexpired(d2, op.at)
    ensures op.Sweep? ==> Unexpired(Apply(b, d1, op), op.at) == Unexpired(d2, op.at)
    ensures !op.Sweep? ==> Unexpired(Apply(b, d1, op), op.at) == Unexpired(Apply(b, d2, op), op.at)
  {
    forall key | key in d1 || key in d2
      ensures (key in d1 && !Expired(d1[key].expiration, op.at)) <==> (key in d2 && !Expired(d2[key].expiration, op.at))
      ensures key in d1 && !Expired(d1[key].expiration, op.at) ==> key in d2 && d1[key] == d2[key]
    {
      assert key in Unexpired(d1, op.at) <==> key in Unexpired(d2, op.at);
    }
  }

  /** The last Set of a key that no Delete follows, starting from the one known before. */
  function LastSet(key: string, last: Option<Op>, ops: seq<Op>): Option<Op>
    decreases ops
  {
    if ops == [] then last
    else
      var known := if (ops[0].Set? || ops[0].Delete?) && ops[0].key == key
                   then if ops[0].Set? then Some(ops[0]) else None
                   else last;
      LastSet(key, known, ops[1..])
  }

  /** A TTL counts from the instant of its Set, inclusively; Redis takes one of zero for "never". */
  predicate Lives(b: Backend, write: Op, now: int)
    requires write.Set?
  {
    b.Eternal? || (b.Redis? && write.ttl == 0) || now <= write.at + write.ttl
  }

  /** After any history a Get finds the value last Set and not deleted since, as long as its TTL lasts, unless it is the
      empty string, which the interface cannot tell from a missing key. */
  lemma GetFindsLastSet(b: Backend, ops: seq<Op>, clock: int, key: string, now: int)
    requires Nondecreasing(ops, clock) && EndTime(ops, clock) <= now
    ensures
      var last := LastSet(key, None, ops);
      && (last.Some? ==> last.value.Set?)
      && Visible(Lookup(ApplyAll(b, map[], ops), key), now) ==
           if last.Some? && Lives(b, last.value, now) && last.value.value != Text("") then Some(last.value.value)
           else None
  {
    FindsLastSet(b, map[], ops, clock, key, None, now);
  }

  /** The entry is the one last Set, or was swept after it had expired. */
  ghost predicate Keeps(b: Backend, cell: Cell, last: Option<Op>, clock: int) {
    if last.None? then cell.None?
    else
      && last.value.Set?
      && if cell.None? then !Lives(b, last.value, clock)
         else && cell.value.value == last.value.value
              && forall now :: Expired(cell.value.expiration, now) <==> !Lives(b, last.value, now)
  }

  lemma {:induction false} FindsLastSet(b: Backend, data: Data, ops: seq<Op>, clock: int, key: string,
                                        last: Option<Op>, now: int)
    requires Nondecreasing(ops, clock) && EndTime(ops, clock) <= now
    requires Keeps(b, Lookup(data, key), last, clock)
    ensures
      var end := LastSet(key, last, ops);
      && (end.Some? ==> end.value.Set?)
      && Visible(Lookup(ApplyAll(b, data, ops), key), now) ==
           if end.Some? && Lives(b, end.value, now) && end.value.value != Text("") then Some(end.value.value) else None
    decreases ops
  {
    if ops != [] {
      var op := ops[0];
      var known := if (op.Set? || op.Delete?) && op.key == key then if op.Set? then Some(op) else None else last;
      assert Keeps(b, Lookup(Apply(b, data, op), key), known, op.at);
      assert EndTime(ops, clock) == EndTime(ops[1..], op.at);
      FindsLastSet(b, Apply(b, data, op), ops[1..], op.at, key, known, now);
    }
  }

  /** Increment and IncrementBy do not look at the expiration, so to them a sweep is visible:
      exactly when it removes a counter whose text scans to something other than zero. */
  lemma SweepVisibleToCounters(data: Data, key: string, now: int)
    ensures Tally(CounterText(Unexpired(data, now), key)) != Tally(CounterText(data, key))
      <==> key in data && Expired(data[key].expiration, now) && Tally(CounterText(data, key)) != 0
  {
    assert key in Unexpired(data, now) <==> key in data && !Expired(data[key].expiration, now);
  }

  // Counters

  /** What one key's series of IncrementBy calls returns; Increment is IncrementBy of one. */
  function Returned(text: Option<string>, amounts: seq<int>): (r: seq<int>)
    ensures |r| == |amounts|
    decreases amounts
  {
    if amounts == [] then []
    else
      var newVal := Wrap64(Tally(text) + amounts[0]);
      [newVal] + Returned(Some(Decimal.Print(newVal)), amounts[1..])
  }

  /** The text the series leaves behind. */
  function EndText(text: Option<string>, amounts: seq<int>): Option<string>
    decreases amounts
  {
    if amounts == [] then text
    else EndText(Some(Decimal.Print(Wrap64(Tally(text) + amounts[0]))), amounts[1..])
  }

  function Sum(amounts: seq<int>): int {
    if amounts == [] then 0 else amounts[0] + Sum(amounts[1..])
  }

  /** On a key that starts absent, however large the amounts, every call returns the exact running sum
      as an int64 holds it, and the stored text is its decimal form. */
  lemma {:induction false} CounterIsExact(amounts: seq<int>)
    ensures forall i | 0 <= i < |amounts| :: Returned(None, amounts)[i] == Wrap64(Sum(amounts[..i + 1]))
    ensures amounts != [] ==> EndText(None, amounts) == Some(Decimal.Print(Wrap64(Sum(amounts))))
  {
    CountsFrom(None, amounts, 0);
    WrapAllAt(RunningSums(0, amounts));
    forall i | 0 <= i < |amounts|
      ensures RunningSums(0, amounts)[i] == Sum(amounts[..i + 1])
    {
      RunningSumAt(0, amounts, i);
    }
    if amounts != [] {
      LastReturnedIsStored(None, amounts);
      assert amounts[..|amounts| - 1 + 1] == amounts;
    }
  }

  /** On a key with a text, the sums start at the number it scans to, and at zero if it does not scan. */
  lemma CounterContinues(text: string, start: int, amounts: seq<int>)
    requires Decimal.Scan(text) == Some(start) || (Decimal.Scan(text) == None && start == 0)
    ensures Returned(Some(text), amounts) == WrapAll(RunningSums(start, amounts))
  {
    var counter := Some(text);
    assert Tally(counter) == start == Wrap64(start);
    CountsFrom(counter, amounts, start);
  }

  function RunningSums(total: int, amounts: seq<int>): (sums: seq<int>)
    ensures |sums| == |amounts|
    decreases amounts
  {
    if amounts == [] then [] else [total + amounts[0]] + RunningSums(total + amounts[0], amounts[1..])
  }

  lemma {:induction false} RunningSumAt(total: int, amounts: seq<int>, i: nat)
    requires i < |amounts|
    ensures RunningSums(total, amounts)[i] == total + Sum(amounts[..i + 1])
    decreases amounts
  {
    assert amounts[..i + 1][1..] == amounts[1..][..i];
    if i > 0 {
      RunningSumAt(total + amounts[0], amounts[1..], i - 1);
    }
  }

  function WrapAll(sums: seq<int>): seq<int> {
    if sums == [] then [] else [Wrap64(sums[0])] + WrapAll(sums[1..])
  }

  lemma {:induction false} WrapAllAt(sums: seq<int>)
    ensures |WrapAll(sums)| == |sums| && forall i | 0 <= i < |sums| :: WrapAll(sums)[i] == Wrap64(sums[i])
  {
    if sums != [] {
      WrapAllAt(sums[1..]);
    }
  }

  lemma SeriesUnfolds(text: Option<string>, amounts: seq<int>)
    requires amounts != []
    ensures
      var newVal := Wrap64(Tally(text) + amounts[0]);
      && Returned(text, amounts) == [newVal] + Returned(Some(Decimal.Print(newVal)), amounts[1..])
      && EndText(text, amounts) == EndText(Some(Decimal.Print(newVal)), amounts[1..])
  {
  }

  lemma {:induction false} CountsFrom(text: Option<string>, amounts: seq<int>, total: int)
    requires Tally(text) == Wrap64(total)
    ensures Returned(text, amounts) == WrapAll(RunningSums(total, amounts))
    decreases amounts
  {
    if amounts != [] {
      var newVal := Wrap64(total + amounts[0]);
      var next := Some(Decimal.Print(newVal));
      TallyOfPrinted(newVal, next);
      CountsFrom(next, amounts[1..], total + amounts[0]);
      FirstCount(text, amounts, total);
      SumsUnfold(total, amounts);
    }
  }

  lemma FirstCount(text: Option<string>, amounts: seq<int>, total: int)
    requires amounts != [] && Tally(text) == Wrap64(total)
    ensures
      var newVal := Wrap64(total + amounts[0]);
      Returned(text, amounts) == [newVal] + Returned(Some(Decimal.Print(newVal)), amounts[1..])
  {
    WrapAbsorbs(total, amounts[0]);
    SeriesUnfolds(text, amounts);
  }

  lemma SumsUnfold(total: int, amounts: seq<int>)
    requires amounts != []
    ensures WrapAll(RunningSums(total, amounts))
         == [Wrap64(total + amounts[0])] + WrapAll(RunningSums(total + amounts[0], amounts[1..]))
  {
    assert RunningSums(total, amounts)[1..] == RunningSums(total + amounts[0], amounts[1..]);
  }

  lemma TallyOfPrinted(n: int, text: Option<string>)
    requires IsInt64(n) && text == Some(Decimal.Print(n))
    ensures Tally(text) == n
  {
    Decimal.ScanPrint(n);
  }

  lemma {:induction false} LastReturnedIsStored(text: Option<string>, amounts: seq<int>)
    requires amounts != []
    ensures EndText(text, amounts) == Some(Decimal.Print(Returned(text, amounts)[|amounts| - 1]))
    decreases amounts
  {
    if |amounts| > 1 {
      LastReturnedIsStored(Some(Decimal.Print(Wrap64(Tally(text) + amounts[0]))), amounts[1..]);
    }
  }

  // Counters among other keys

  /** A call on the whole store: IncrementBy (Increment is IncrementBy of one), or one of the others. */
  datatype Call =
    | Add(key: string, amount: int, ttl: int, at: int)
    | Other(op: Op)

  function Sum64(data: Data, call: Call): int
    requires call.Add?
  {
    Wrap64(Tally(CounterText(data, call.key)) + call.amount)
  }

  function Perform(b: Backend, data: Data, call: Call): Data {
    match call
    case Add(key, _, ttl, at) =>
      data[key := StorageValue(Text(Decimal.Print(Sum64(data, call))), Some(at + ttl))]
    case Other(op) => Apply(b, data, op)
  }

  function PerformAll(b: Backend, data: Data, calls: seq<Call>): Data
    decreases calls
  {
    if calls == [] then data else PerformAll(b, Perform(b, data, calls[0]), calls[1..])
  }

  predicate AddsTo(call: Call, key: string) {
    call.Add? && call.key == key
  }

  /** What the calls that add to one key return. */
  function ReturnedFor(b: Backend, data: Data, key: string, calls: seq<Call>): seq<int>
    decreases calls
  {
    if calls == [] then []
    else
      (if AddsTo(calls[0], key) then [Sum64(data, calls[0])] else [])
      + ReturnedFor(b, Perform(b, data, calls[0]), key, calls[1..])
  }

  function AmountsFor(key: string, calls: seq<Call>): seq<int> {
    if calls == [] then []
    else (if AddsTo(calls[0], key) then [calls[0].amount] else []) + AmountsFor(key, calls[1..])
  }

  /** Nothing but additions writes the key, and no sweep runs after its entry has expired. */
  predicate LeftAlone(key: string, expiration: Option<int>, calls: seq<Call>)
    decreases calls
  {
    if calls == [] then true
    else
      match calls[0]
      case Add(k, _, ttl, at) => LeftAlone(key, if k == key then Some(at + ttl) else expiration, calls[1..])
      case Other(Set(k, _, _, _)) => k != key && LeftAlone(key, expiration, calls[1..])
      case Other(Delete(k, _)) => k != key && LeftAlone(key, expiration, calls[1..])
      case Other(Sweep(at)) => (expiration.Some? ==> at <= expiration.value) && LeftAlone(key, expiration, calls[1..])
      case Other(Get(_, _)) => LeftAlone(key, expiration, calls[1..])
  }

  /** Among calls on any keys, additions to a key that starts absent return the exact running sums, as an int64 holds
      them, and leave the last one's decimal form. */
  lemma CounterIsExactAmongOthers(b: Backend, data: Data, key: string, calls: seq<Call>)
    requires key !in data && LeftAlone(key, None, calls)
    ensures
      var amounts, returned := AmountsFor(key, calls), ReturnedFor(b, data, key, calls);
      && |returned| == |amounts|
      && (forall i | 0 <= i < |amounts| :: returned[i] == Wrap64(Sum(amounts[..i + 1])))
      && (amounts != [] ==>
          CounterText(PerformAll(b, data, calls), key) == Some(Decimal.Print(Wrap64(Sum(amounts)))))
  {
    AdditionsAreASeries(b, data, key, None, calls);
    CounterIsExact(AmountsFor(key, calls));
  }

  lemma {:induction false} AdditionsAreASeries(b: Backend, data: Data, key: string, expiration: Option<int>,
                                               calls: seq<Call>)
    requires LeftAlone(key, expiration, calls)
    requires if expiration.None? then key !in data
             else key in data && data[key].value.Text? && data[key].expiration == expiration
    ensures ReturnedFor(b, data, key, calls) == Returned(CounterText(data, key), AmountsFor(key, calls))
    ensures CounterText(PerformAll(b, data, calls), key) == EndText(CounterText(data, key), AmountsFor(key, calls))
    decreases calls
  {
    if calls != [] {
      var call, rest := calls[0], calls[1..];
      var next := Perform(b, data, call);
      if AddsTo(call, key) {
        AdditionsAreASeries(b, next, key, Some(call.at + call.ttl), rest);
        AdditionComesFirst(b, data, key, call, rest);
      } else {
        OthersLeaveCounter(b, data, key, expiration, calls);
        AdditionsAreASeries(b, next, key, expiration, rest);
        OtherAddsNothing(b, data, key, calls);
      }
    }
  }

  lemma AdditionComesFirst(b: Backend, data: Data, key: string, call: Call, rest: seq<Call>)
    requires AddsTo(call, key)
    requires
      var next := Perform(b, data, call);
      && ReturnedFor(b, next, key, rest) == Returned(CounterText(next, key), AmountsFor(key, rest))
      && CounterText(PerformAll(b, next, rest), key) == EndText(CounterText(next, key), AmountsFor(key, rest))
    ensures ReturnedFor(b, data, key, [call] + rest) == Returned(CounterText(data, key), AmountsFor(key, [call] + rest))
    ensures CounterText(PerformAll(b, data, [call] + rest), key)
         == EndText(CounterText(data, key), AmountsFor(key, [call] + rest))
  {
    var next, text, amounts := Perform(b, data, call), CounterText(data, key), AmountsFor(key, rest);
    var all, newVal, nextText := [call.amount] + amounts, Sum64(data, call), CounterText(next, key);
    assert AmountsFor(key, [call] + rest) == all;
    assert && ReturnedFor(b, data, key, [call] + rest) == [newVal] + ReturnedFor(b, next, key, rest)
           && PerformAll(b, data, [call] + rest) == PerformAll(b, next, rest) by {
      CallUnfolds(b, data, key, call, rest);
    }
    assert && Returned(text, all) == [newVal] + Returned(nextText, amounts)
           && EndText(text, all) == EndText(nextText, amounts) by {
      assert all[1..] == amounts;
      SeriesUnfolds(text, all);
    }
  }

  lemma CallUnfolds(b: Backend, data: Data, key: string, call: Call, rest: seq<Call>)
    requires AddsTo(call, key)
    ensures ReturnedFor(b, data, key, [call] + rest)
         == [Sum64(data, call)] + ReturnedFor(b, Perform(b, data, call), key, rest)
    ensures PerformAll(b, data, [call] + rest) == PerformAll(b, Perform(b, data, call), rest)
  {
    assert ([call] + rest)[1..] == rest;
  }

  lemma OtherAddsNothing(b: Backend, data: Data, key: string, calls: seq<Call>)
    requires calls != [] && !AddsTo(calls[0], key)
    ensures AmountsFor(key, calls) == AmountsFor(key, calls[1..])
    ensures ReturnedFor(b, data, key, calls) == ReturnedFor(b, Perform(b, data, calls[0]), key, calls[1..])
  {
  }

  lemma OthersLeaveCounter(b: Backend, data: Data, key: string, expiration: Option<int>, calls: seq<Call>)
    requires calls != [] && LeftAlone(key, expiration, calls) && !AddsTo(calls[0], key)
    requires key in data ==> data[key].expiration == expiration
    ensures LeftAlone(key, expiration, calls[1..])
    ensures Lookup(Perform(b, data, calls[0]), key) == Lookup(data, key)
  {
  }
}
