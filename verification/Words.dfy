/** Machine words of the firmware: bytes and the wrapping 32-bit counters. */
module Words {

  type Byte = x: int | 0 <= x < 256

  const U32: nat := 0x1_0000_0000

  /** The least natural number congruent to x: what a uint32_t keeps of x. */
  function Wrap(x: int): (r: nat)
    ensures r < U32
  {
    x % U32
  }

  /** `(int32_t)(a - b) < 0`, the wrap-safe "a is before b". */
  predicate Before(a: int, b: int) {
    Wrap(a - b) >= U32 / 2
  }

  /** A remainder is determined by any decomposition with a remainder in range. */
  lemma RemainderUnique(x: int, q: int, r: int, n: nat)
    requires x == q * n + r && 0 <= r < n
    ensures x % n == r && x / n == q
  {
    var d := q - x / n;
    assert d * n == x % n - r;
    MulAtLeast(d, n);
  }

  lemma MulAtLeast(d: int, n: nat)
    ensures d >= 1 ==> d * n >= n
    ensures d <= -1 ==> d * n <= 0 - n
  {
  }

  lemma ModShift(x: int, k: int, n: nat)
    requires n > 0
    ensures (x + k * n) % n == x % n
  {
    RemainderUnique(x + k * n, x / n + k, x % n, n);
  }

  /** Reducing modulo a multiple first does not change the residue. */
  lemma WrapMod(x: int, n: nat)
    requires n > 0 && U32 % n == 0
    ensures Wrap(x) % n == x % n
  {
    var q := x / U32;
    var m := U32 / n;
    assert U32 == m * n;
    assert x == Wrap(x) + q * U32;
    assert q * U32 == (q * m) * n;
    ModShift(Wrap(x), q * m, n);
  }

  lemma ModDiff(x: int, y: int, n: nat)
    requires n > 0
    ensures (x % n - y % n) % n == (x - y) % n
  {
    assert x % n - y % n == (x - y) + (y / n - x / n) * n;
    ModShift(x - y, y / n - x / n, n);
  }

  lemma RemainderOfRemainder(x: int, n: nat)
    requires n > 0
    ensures x % n % n == x % n
  {
    RemainderUnique(x % n, 0, x % n, n);
  }

  lemma CongruentDiff(x: int, y: int, x': int, y': int, n: nat)
    requires n > 0 && x % n == x' % n && y % n == y' % n
    ensures (x - y) % n == (x' - y') % n
  {
    ModDiff(x, y, n);
    ModDiff(x', y', n);
  }

  lemma SmallRemainder(d: int, n: nat)
    requires n > 0
    ensures 0 <= d < n ==> d % n == d
    ensures 0 - n <= d < 0 ==> d % n == d + n
  {
    if 0 <= d < n {
      RemainderUnique(d, 0, d, n);
    } else if 0 - n <= d < 0 {
      RemainderUnique(d, -1, d + n, n);
    }
  }

  lemma WrapAdd(a: int, b: int)
    ensures Wrap(Wrap(a) + b) == Wrap(a + b)
  {
    ModShift(Wrap(a) + b, a / U32, U32);
  }

  lemma WrapDiff(a: nat, b: nat)
    ensures Wrap(Wrap(a) - Wrap(b)) == Wrap(a - b)
  {
    ModDiff(a, b, U32);
  }

  // --- products ---

  lemma MulOrder(a: int, b: int, n: nat)
    requires a <= b
    ensures a * n <= b * n
  {
  }

  lemma MulLess(a: int, b: int, n: nat)
    requires a * n < b * n
    ensures a < b
  {
    if b <= a {
      MulOrder(b, a, n);
    }
  }

  lemma OneMore(n: int, a: int)
    ensures (n + 1) * a == n * a + a && a * (n + 1) == a * n + a
  {
  }
}
