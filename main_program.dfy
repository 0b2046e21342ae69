/** The two lists that `main` of LazyEvaluator.java forces and prints: the
    first three even numbers of `generate(ready(0), incrByI(1))`, and the
    first ten primes doubled. Printing is not modelled; the values are. */
module MainProgram {
  import opened JavaInt
  import opened IntCombinators
  import opened LazyList
  import opened Streams
  import opened Sieves

  /** `nums`, forced on its first `n` cells. */
  function NumsPrefix(n: nat): LList<Int32>
  {
    TakeStream(n, Generate(0, IncrByI(1)))
  }

  /** The first five cells of `nums` are 0, 1, 2, 3, 4. */
  lemma NumsUpTo4()
    ensures NumsPrefix(5) == Cons(0, Cons(1, Cons(2, Cons(3, Cons(4, Nil)))))
  {
    var s := Generate(0, IncrByI(1));
    forall k: nat | k < 5
      ensures s(k) == k
    {
      CountingUp(0, k);
    }
    SameElements(NumsPrefix(5), Cons(0, Cons(1, Cons(2, Cons(3, Cons(4, Nil))))));
  }

  /** Filtering 0 .. 4 with `isEven`, which calls `even` as written, leaves
      0, 2 and 4. */
  lemma EvensUpTo4()
    ensures Filter(EvenAsWritten, NumsPrefix(5)) == Cons(0, Cons(2, Cons(4, Nil)))
  {
    NumsUpTo4();
    forall i: Int32 | 0 <= i <= 4
      ensures EvenAsWritten(i) <==> i % 2 == 0
    {
      EvenAsWrittenIsEven(i);
      EvenIffMultipleOfTwo(i);
    }
  }

  /** `take(ready(3), filter(isEven, nums))` is `0 : 2 : 4 : []`, however many
      cells of `nums` beyond the fifth are forced; the `take` the source runs
      agrees with the intended one here. */
  lemma FirstThreeEvens(n: nat)
    requires 5 <= n
    ensures Take(3, Filter(EvenAsWritten, NumsPrefix(n))) == Cons(0, Cons(2, Cons(4, Nil)))
    ensures TakeAsWritten(3, Filter(EvenAsWritten, NumsPrefix(n))) == Cons(0, Cons(2, Cons(4, Nil)))
  {
    var evens, nums := Cons(0, Cons(2, Cons(4, Nil))), NumsPrefix(n);
    EvensUpTo4();
    TakeOfTakeStream(5, n, Generate(0, IncrByI(1)));
    FilterPrefix(EvenAsWritten, NumsPrefix(5), nums);
    TakePrefix(evens, Filter(EvenAsWritten, nums));
    TakeAsWrittenAgrees(3, Filter(EvenAsWritten, nums));
  }

  /** The first ten primes, doubled with `mulByI(2)`. */
  lemma DoubledTenPrimes()
    ensures Elems(Map(MulByI(2), TenPrimes())) == [4, 6, 10, 14, 22, 26, 34, 38, 46, 58]
  {
    assert Elems(TenPrimes()) == [2, 3, 5, 7, 11, 13, 17, 19, 23, 29];
  }

  /** `take(ready(10), map(mulByI(2), primes()))` is the first ten primes
      doubled, with either `take`. */
  lemma FirstTenDoubledPrimes(n: nat)
    requires 28 <= n && n + 1 <= MAX
    ensures Elems(Take(10, Map(MulByI(2), PrimesPrefix(n)))) == [4, 6, 10, 14, 22, 26, 34, 38, 46, 58]
    ensures Elems(TakeAsWritten(10, Map(MulByI(2), PrimesPrefix(n)))) == [4, 6, 10, 14, 22, 26, 34, 38, 46, 58]
  {
    TakeAsWrittenAgrees(10, Map(MulByI(2), PrimesPrefix(n)));
    TakeMap(10, MulByI(2), PrimesPrefix(n));
    FirstTenPrimes(n);
    DoubledTenPrimes();
  }
}
