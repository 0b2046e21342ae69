/** Java `int` arithmetic: 32-bit two's complement with wrap-around, and the
    remainder operator `%`, which truncates toward zero. */
module JavaInt {

  const MIN: int := -0x8000_0000
  const MAX: int := 0x7fff_ffff
  const MODULUS: int := 0x1_0000_0000

  /** The values of a Java `int` (or of a non-null `Integer`). */
  type Int32 = x: int | -0x8000_0000 <= x <= 0x7fff_ffff

  function Abs(x: int): nat
  {
    if x < 0 then -x else x
  }

  /** The `int` that Java's `+` or `*` yields for the mathematical result `x`:
      the unique 32-bit value congruent to `x` modulo 2^32. */
  function Wrap(x: int): (r: Int32)
    ensures (r - x) % MODULUS == 0
    ensures MIN <= x <= MAX ==> r == x
  {
    var k := (x - MIN) / MODULUS;
    assert x - MIN == k * MODULUS + (x - MIN) % MODULUS;
    (x - MIN) % MODULUS + MIN
  }

  /** Java's `a % b` for `b != 0`: the sign follows the dividend and the
      magnitude is less than that of the divisor; `RemLeavesMultiple` adds that
      `a - r` is a multiple of `b`. (`Integer.MIN_VALUE % -1` is 0 in Java, as
      here.) */
  function Rem(a: Int32, b: Int32): (r: Int32)
    requires b != 0
    ensures Abs(r) < Abs(b)
    ensures a >= 0 ==> r >= 0
    ensures a <= 0 ==> r <= 0
  {
    var m := Abs(b);
    var n := Abs(a);
    ModBounds(n, m);
    var k := n % m;
    assert 0 <= k < m <= 0x8000_0000;
    if a >= 0 then k else -k
  }

  /** What is left after removing Java's remainder is a multiple of the divisor,
      so with the bounds above `Rem` is the remainder of truncated division. */
  lemma RemLeavesMultiple(a: Int32, b: Int32)
    requires b != 0
    ensures (a - Rem(a, b)) % Abs(b) == 0
  {
    var m: int := Abs(b);
    var n: int := Abs(a);
    var q: int := n / m;
    assert n == q * m + n % m;
    if a >= 0 {
      assert a - Rem(a, b) == q * m;
      ModOfMultiple(q, m);
    } else {
      assert a - Rem(a, b) == (-q) * m;
      ModOfMultiple(-q, m);
    }
  }

  /** On positive operands Java's remainder is the mathematical one. */
  lemma RemOfPositive(a: Int32, b: Int32)
    requires a >= 0 && b > 0
    ensures Rem(a, b) == a % b
  {
  }

  lemma ModBounds(n: nat, m: int)
    requires 0 < m
    ensures 0 <= n % m < m
    ensures n == 0 ==> n % m == 0
  {
  }

  /** A multiple of `m` leaves no remainder. */
  lemma ModOfMultiple(q: int, m: int)
    requires m > 0
    ensures (q * m) % m == 0
  {
    var d, r := (q * m) / m, (q * m) % m;
    assert q * m == d * m + r;
    assert (q - d) * m == r by {
      assert (q - d) * m == q * m - d * m;
    }
    if q - d >= 1 {
      assert false;
    } else if q - d <= -1 {
      assert false;
    }
  }
}
