/** Shared vocabulary: options, time constants and the integer arithmetic of Go. */
module Prelude {
  datatype Option<+T> = None | Some(value: T)

  // All instants and durations are nanoseconds.
  const SECOND := 1_000_000_000
  const DAY := 86_400 * SECOND

  const TWO_63 := 0x8000_0000_0000_0000
  const TWO_64 := 0x1_0000_0000_0000_0000

  function Max(a: int, b: int): int {
    if a < b then b else a
  }

  function Least(a: int, b: int): int {
    if a < b then a else b
  }

  predicate IsInt64(n: int) {
    -TWO_63 <= n < TWO_63
  }

  /** The value an int64 holds after a computation whose exact result is n. */
  function Wrap64(n: int): (w: int)
    ensures IsInt64(w)
    ensures IsInt64(n) ==> w == n
  {
    (n + TWO_63) % TWO_64 - TWO_63
  }

  /** Go's integer division, which truncates toward zero. */
  function Quot(a: int, b: int): int
    requires b != 0
  {
    if a >= 0 then a / b else -((-a) / b)
  }

  /** What the division leaves has the sign of the dividend. */
  lemma QuotTruncates(a: int, b: int)
    requires 0 < b
    ensures var rest := a - Quot(a, b) * b; if 0 <= a then 0 <= rest < b else -b < rest <= 0
  {
    if a < 0 {
      assert -a == (-a) / b * b + (-a) % b;
    }
  }

  lemma WrapAbsorbs(a: int, b: int)
    ensures Wrap64(Wrap64(a) + b) == Wrap64(a + b)
  {
    var q := (a + TWO_63) / TWO_64;
    assert Wrap64(a) + b + TWO_63 == (a + b + TWO_63) - q * TWO_64;
    ModShift(a + b + TWO_63, q);
  }

  lemma ModShift(x: int, q: int)
    ensures (x - q * TWO_64) % TWO_64 == x % TWO_64
  {
    var d := x / TWO_64;
    assert x - q * TWO_64 == (d - q) * TWO_64 + x % TWO_64;
  }

  lemma FloorAdds(a: int, b: int, d: int)
    requires 0 <= a && 0 <= b && 0 < d
    ensures a / d + b / d <= (a + b) / d
  {
    var p, q := a / d, b / d;
    assert (p + q) * d <= a + b;
    FloorAtLeast(a + b, d, p + q);
  }

  lemma FloorAtLeast(x: int, d: int, k: int)
    requires 0 < d && k * d <= x
    ensures k <= x / d
  {
    assert (x / d + 1) * d > x;
  }

  lemma ScaledSum(x: int, y: int, z: int, k: int)
    requires 0 <= x && 0 <= y && x + y <= z && 0 <= k
    ensures 0 <= x * k && 0 <= y * k && x * k + y * k <= z * k
  {
    assert (x + y) * k == x * k + y * k;
    assert (z - (x + y)) * k == z * k - (x + y) * k;
  }

  lemma MultipleHasNoRemainder(k: int, d: int)
    requires 0 < d
    ensures k * d % d == 0 && k * d / d == k
  {
    var q, m := k * d / d, k * d % d;
    assert (k - q) * d == m;
    assert k - q >= 1 ==> (k - q) * d >= d;
    assert k - q <= -1 ==> (k - q) * d <= -d;
  }
}
