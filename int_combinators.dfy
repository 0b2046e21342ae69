/** The `Integer` helpers of LazyEvaluator.java: `incrByI`, `mulByI`, `mod`,
    `eq`, `gt` and `even`. In the source each takes and returns thunks; here
    they act on the forced values. */
module IntCombinators {
  import opened Wrappers
  import opened JavaInt

  /** `incrByI(d)`: adds `d` with Java's wrap-around. */
  function IncrByI(d: Int32): (f: Int32 -> Int32)
    ensures forall x: Int32 :: (f(x) - (x + d)) % MODULUS == 0
    ensures forall x: Int32 :: MIN <= x + d <= MAX ==> f(x) == x + d
  {
    var f := (x: Int32) => Wrap(x + d);
    assert forall x: Int32 :: f(x) == Wrap(x + d);
    f
  }

  /** `mulByI(factor)`: multiplies by `factor` with Java's wrap-around. */
  function MulByI(factor: Int32): (f: Int32 -> Int32)
    ensures forall x: Int32 :: (f(x) - x * factor) % MODULUS == 0
    ensures forall x: Int32 :: MIN <= x * factor <= MAX ==> f(x) == x * factor
  {
    var f := (x: Int32) => Wrap(x * factor);
    assert forall x: Int32 :: f(x) == Wrap(x * factor);
    f
  }

  /** `mod(dividend, divisor)`: Java's `%`, which raises an
      `ArithmeticException` (here `None`) for a zero divisor. */
  function Mod(dividend: Int32, divisor: Int32): (r: Option<Int32>)
    ensures r.None? <==> divisor == 0
    ensures r.Some? ==> Abs(r.value) < Abs(divisor)
    ensures r.Some? && dividend >= 0 ==> r.value >= 0
    ensures r.Some? && dividend <= 0 ==> r.value <= 0
    ensures r.Some? ==> (dividend - r.value) % Abs(divisor) == 0
  {
    if divisor == 0 then None
    else
      RemLeavesMultiple(dividend, divisor);
      Some(Rem(dividend, divisor))
  }

  /** `gt(a, b)`: `>` unboxes both operands, so this compares values. */
  function Gt(a: Int32, b: Int32): bool
  {
    a > b
  }

  /** `eq(a, b)` as written: `a.eval() == b.eval()` compares two `Integer`
      references. Boxing returns one shared object per value only for
      -128..127 (the range section 5.1.7 of the Java Language Specification
      guarantees, and the default cache); values boxed separately outside it
      are distinct objects, so they compare unequal. */
  function EqBoxed(a: Int32, b: Int32): (r: bool)
    ensures r ==> a == b
    ensures r <== a == b && -128 <= a <= 127
  {
    a == b && -128 <= a <= 127
  }

  /** `eq(a, b)` as intended: equality of the two values. */
  function Eq(a: Int32, b: Int32): (r: bool)
  {
    a == b
  }

  /** The as-written `eq` answers wrongly for two separately boxed 1000s. */
  lemma EqBoxedMissesEqualValues()
    ensures !EqBoxed(1000, 1000) && Eq(1000, 1000)
  {
  }

  /** The as-written and intended `eq` agree on values in the cached range. */
  lemma EqBoxedAgreesOnSmallValues(a: Int32, b: Int32)
    requires -128 <= a <= 127
    ensures EqBoxed(a, b) == Eq(a, b)
  {
  }

  /** `even(i)`: `eq(mod(i, 2), 0)`, built on the intended `eq`. */
  function Even(i: Int32): bool
  {
    Eq(Rem(i, 2), 0)
  }

  /** `even` with the source's reference comparison. */
  function EvenAsWritten(i: Int32): bool
  {
    EqBoxed(Rem(i, 2), 0)
  }

  /** `even` holds exactly of the multiples of 2, negative ones included. */
  lemma EvenIffMultipleOfTwo(i: Int32)
    ensures Even(i) <==> i % 2 == 0
  {
    RemLeavesMultiple(i, 2);
  }

  /** The remainder by 2 lies in the cached range, so `even` is right even
      with the reference comparison. */
  lemma EvenAsWrittenIsEven(i: Int32)
    ensures EvenAsWritten(i) == Even(i)
  {
    EqBoxedAgreesOnSmallValues(Rem(i, 2), 0);
  }
}
