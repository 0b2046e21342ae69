/** `sieve` and `primes` of LazyEvaluator.java: the sieve of Eratosthenes
    over lazy lists of `Integer`s. */
module Sieves {
  import opened JavaInt
  import opened IntCombinators
  import opened LazyList
  import opened Streams

  /** The filter `x -> gt(mod(x, p), ready(0))` that `sieve` applies to the
      tail after the head `p`. */
  function Survives(p: Int32): (Int32 -> bool)
    requires p != 0
  {
    (x: Int32) => Gt(Rem(x, p), 0)
  }

  /** Forcing the tail of `sieve(xs)` divides by the head of `xs` as soon as
      the tail has an element; with a head of 0 that raises an
      `ArithmeticException`. Only the first head can be 0, because no later
      element survives a filter with a 0 remainder. */
  predicate SieveDefined(xs: LList<Int32>)
  {
    xs.Cons? && xs.head == 0 ==> xs.tail == Nil
  }

  /** A list that survived the filter of a non-zero head starts with a
      positive element, so the sieve can go on with it. */
  lemma FilteredDefined(p: Int32, t: LList<Int32>)
    requires p != 0
    ensures SieveDefined(Filter(Survives(p), t))
    ensures forall x <- Elems(Filter(Survives(p), t)) :: x > 0 && Rem(x, p) > 0
  {
    var rest := Filter(Survives(p), t);
    if rest.Cons? {
      assert rest.head in Elems(rest);
    }
  }

  /** `sieve(xs)`: the head `p`, then the sieve of the tail without the
      elements whose remainder by `p` is not positive. The source forms
      `cons(p, sieve(filter(pred, tail)))`; with `p == 0` the tail is empty,
      the filter never calls `pred`, and the result is `p` alone. */
  function Sieve(xs: LList<Int32>): (r: LList<Int32>)
    requires SieveDefined(xs)
    ensures Len(r) <= Len(xs)
    ensures forall x <- Elems(r) :: x in Elems(xs)
    decreases Len(xs)
  {
    match xs
    case Nil => Nil
    case Cons(p, t) =>
      if p == 0 then Cons(p, Nil)
      else
        FilteredDefined(p, t);
        Cons(p, Sieve(Filter(Survives(p), t)))
  }

  /** The head of `sieve(xs)` is the head of `xs`, and no later element of
      `sieve(xs)` is divisible by it: every later one leaves a positive
      remainder. */
  lemma SieveHead(p: Int32, t: LList<Int32>)
    requires p != 0
    ensures Sieve(Cons(p, t)).Cons? && Sieve(Cons(p, t)).head == p
    ensures forall x <- Elems(Sieve(Cons(p, t)).tail) :: x > 0 && Rem(x, p) > 0 && x % Abs(p) != 0
  {
    FilteredDefined(p, t);
    forall x <- Elems(Sieve(Cons(p, t)).tail)
      ensures x > 0 && Rem(x, p) > 0 && x % Abs(p) != 0
    {
      RemLeavesMultiple(x, p);
    }
  }

  /** The sieve of a prefix is a prefix of the sieve: forcing more of the
      input never changes the primes already produced. */
  lemma {:induction false} SievePrefix(ys: LList<Int32>, xs: LList<Int32>)
    requires IsPrefix(ys, xs) && SieveDefined(xs)
    ensures SieveDefined(ys)
    ensures IsPrefix(Sieve(ys), Sieve(xs))
    decreases Len(ys)
  {
    match ys
    case Nil =>
    case Cons(p, yt) =>
      if p != 0 {
        FilterPrefix(Survives(p), yt, xs.tail);
        FilteredDefined(p, yt);
        FilteredDefined(p, xs.tail);
        SievePrefix(Filter(Survives(p), yt), Filter(Survives(p), xs.tail));
      }
  }

  /** `d` divides `n`. */
  predicate Divides(d: int, n: int)
  {
    d > 0 && n % d == 0
  }

  /** No number from 2 up to `c - 1` divides `x`. */
  ghost predicate NoDivisorBelow(c: int, x: int)
  {
    forall d :: 2 <= d < c ==> !Divides(d, x)
  }

  ghost predicate IsPrime(n: int)
  {
    n >= 2 && NoDivisorBelow(n, n)
  }

  /** Each element is smaller than every later one. */
  ghost predicate Increasing(xs: LList<Int32>)
  {
    match xs
    case Nil => true
    case Cons(h, t) => (forall x <- Elems(t) :: h < x) && Increasing(t)
  }

  lemma {:induction false} FilterIncreasing(pred: Int32 -> bool, xs: LList<Int32>)
    requires Increasing(xs)
    ensures Increasing(Filter(pred, xs))
  {
    match xs
    case Nil =>
    case Cons(_, t) => FilterIncreasing(pred, t);
  }

  lemma DividesTransitive(e: int, d: int, x: int)
    requires Divides(e, d) && Divides(d, x)
    ensures Divides(e, x)
  {
    var a, b := d / e, x / d;
    assert d == a * e;
    assert x == b * d;
    assert x == (b * a) * e by {
      assert b * d == b * (a * e) == (b * a) * e;
    }
    ModOfMultiple(b * a, e);
  }

  /** The smallest number from `c` on with no divisor below `c` is prime, and
      the numbers above it with no divisor below `c` that it does not divide
      are those with no divisor up to it. */
  lemma SmallestCandidate(c: int, p: int)
    requires 2 <= c <= p
    requires NoDivisorBelow(c, p)
    requires forall y :: c <= y < p ==> !NoDivisorBelow(c, y)
    ensures IsPrime(p)
    ensures forall x :: NoDivisorBelow(p + 1, x) <==> NoDivisorBelow(c, x) && !Divides(p, x)
  {
    forall d | 2 <= d < p
      ensures !Divides(d, p)
    {
      if c <= d {
        assert !NoDivisorBelow(c, d);
        var e :| 2 <= e < c && Divides(e, d);
        if Divides(d, p) {
          DividesTransitive(e, d, p);
        }
      }
    }
    forall x | NoDivisorBelow(c, x) && !Divides(p, x)
      ensures NoDivisorBelow(p + 1, x)
    {
      forall d | 2 <= d < p + 1
        ensures !Divides(d, x)
      {
        if c <= d < p {
          assert !NoDivisorBelow(c, d);
          var e :| 2 <= e < c && Divides(e, d);
          if Divides(d, x) {
            DividesTransitive(e, d, x);
          }
        }
      }
    }
  }

  /** `xs` is the increasing list of the numbers in `[c, hi]` with no divisor
      below `c`. */
  ghost predicate Candidates(xs: LList<Int32>, c: int, hi: int)
  {
    && 2 <= c && Increasing(xs) && SieveDefined(xs)
    && (forall x <- Elems(xs) :: c <= x <= hi && NoDivisorBelow(c, x))
    && (forall x :: c <= x <= hi && NoDivisorBelow(c, x) ==> x in Elems(xs))
  }

  /** The head of a candidate list is prime, and no prime in the range is
      smaller. */
  lemma CandidateHead(p: Int32, t: LList<Int32>, c: int, hi: int)
    requires Candidates(Cons(p, t), c, hi)
    ensures c <= p <= hi && IsPrime(p)
    ensures forall x :: NoDivisorBelow(p + 1, x) <==> NoDivisorBelow(c, x) && !Divides(p, x)
    ensures forall x :: c <= x <= hi && IsPrime(x) ==> p <= x
  {
    var xs := Cons(p, t);
    assert Elems(xs) == [p] + Elems(t);
    assert p in Elems(xs);
    forall y | c <= y < p
      ensures !NoDivisorBelow(c, y)
    {
      assert y !in Elems(xs);
    }
    SmallestCandidate(c, p);
    forall x | c <= x <= hi && IsPrime(x)
      ensures p <= x
    {
      assert NoDivisorBelow(c, x);
      assert x in Elems(xs);
    }
  }

  /** Filtering out the multiples of the head leaves the candidates from the
      next number on. */
  lemma CandidateTail(p: Int32, t: LList<Int32>, c: int, hi: int)
    requires Candidates(Cons(p, t), c, hi)
    requires c <= p
    requires forall x :: NoDivisorBelow(p + 1, x) <==> NoDivisorBelow(c, x) && !Divides(p, x)
    ensures Candidates(Filter(Survives(p), t), p + 1, hi)
  {
    var xs := Cons(p, t);
    assert Elems(xs) == [p] + Elems(t);
    var rest := Filter(Survives(p), t);
    FilterIncreasing(Survives(p), t);
    FilteredDefined(p, t);
    forall x <- Elems(rest)
      ensures p + 1 <= x <= hi && NoDivisorBelow(p + 1, x)
    {
      assert x in Elems(t);
      assert x in Elems(xs);
      RemOfPositive(x, p);
    }
    forall x | p + 1 <= x <= hi && NoDivisorBelow(p + 1, x)
      ensures x in Elems(rest)
    {
      assert x in Elems(xs);
      assert x in Elems(t);
      RemOfPositive(x, p);
    }
  }

  /** The main invariant of the sieve: fed the candidates of `[c, hi]`, it
      yields the increasing list of the primes in `[c, hi]`. */
  lemma {:induction false} SieveOfCandidates(xs: LList<Int32>, c: int, hi: int)
    requires Candidates(xs, c, hi)
    ensures Increasing(Sieve(xs))
    ensures forall x <- Elems(Sieve(xs)) :: c <= x <= hi && IsPrime(x)
    ensures forall x :: c <= x <= hi && IsPrime(x) ==> x in Elems(Sieve(xs))
    decreases Len(xs)
  {
    match xs
    case Nil =>
      forall x | c <= x <= hi && IsPrime(x)
        ensures NoDivisorBelow(c, x)
      {
      }
    case Cons(p, t) =>
      CandidateHead(p, t, c, hi);
      CandidateTail(p, t, c, hi);
      var rest := Filter(Survives(p), t);
      SieveOfCandidates(rest, p + 1, hi);
      var out := Sieve(rest);
      assert Sieve(xs) == Cons(p, out);
      assert Elems(Sieve(xs)) == [p] + Elems(out);
      assert forall x <- Elems(out) :: p < x;
      forall x | c <= x <= hi && IsPrime(x)
        ensures x in Elems(Sieve(xs))
      {
        if x != p {
          assert p + 1 <= x;
        }
      }
  }

  /** `primes()` is `sieve(generate(ready(2), incrByI(1)))`; here forced on the
      first `m` numbers that `generate` yields. */
  function PrimesPrefix(m: nat): LList<Int32>
  {
    var xs := TakeStream(m, Generate(2, IncrByI(1)));
    assert xs.Cons? ==> xs.head == Elems(xs)[0] == 2;
    Sieve(xs)
  }

  /** The first `m` numbers that `generate` yields from 2, as long as the `int`
      range lasts: the increasing list of the integers in `[2, m + 1]`. */
  lemma CandidatesFromTwo(m: nat)
    requires m + 1 <= MAX
    ensures Increasing(TakeStream(m, Generate(2, IncrByI(1))))
    ensures forall x <- Elems(TakeStream(m, Generate(2, IncrByI(1)))) :: 2 <= x <= m + 1
    ensures forall x :: 2 <= x <= m + 1 ==> x in Elems(TakeStream(m, Generate(2, IncrByI(1))))
  {
    var xs := TakeStream(m, Generate(2, IncrByI(1)));
    forall i | 0 <= i < m
      ensures Elems(xs)[i] == 2 + i
    {
      CountingUp(2, i);
    }
    IncreasingByIndex(xs);
    forall x | 2 <= x <= m + 1
      ensures x in Elems(xs)
    {
      assert Elems(xs)[x - 2] == x;
    }
  }

  lemma {:induction false} IncreasingByIndex(xs: LList<Int32>)
    requires forall i, j :: 0 <= i < j < Len(xs) ==> Elems(xs)[i] < Elems(xs)[j]
    ensures Increasing(xs)
  {
    match xs
    case Nil =>
    case Cons(h, t) =>
      assert Elems(xs) == [h] + Elems(t);
      forall x <- Elems(t)
        ensures h < x
      {
        var j :| 0 <= j < |Elems(t)| && Elems(t)[j] == x;
        assert Elems(xs)[0] == h && Elems(xs)[j + 1] == x;
      }
      forall i, j | 0 <= i < j < Len(t)
        ensures Elems(t)[i] < Elems(t)[j]
      {
        assert Elems(xs)[i + 1] == Elems(t)[i];
        assert Elems(xs)[j + 1] == Elems(t)[j];
      }
      IncreasingByIndex(t);
  }

  /** `primes()` forced on its first `m` candidates: the increasing list of
      all the primes up to `m + 1`. */
  lemma PrimesPrefixCorrect(m: nat)
    requires m + 1 <= MAX
    ensures Increasing(PrimesPrefix(m))
    ensures forall x <- Elems(PrimesPrefix(m)) :: 2 <= x <= m + 1 && IsPrime(x)
    ensures forall x :: 2 <= x <= m + 1 && IsPrime(x) ==> x in Elems(PrimesPrefix(m))
  {
    var xs := TakeStream(m, Generate(2, IncrByI(1)));
    CandidatesFromTwo(m);
    SieveOfCandidates(xs, 2, m + 1);
  }

  /** Forcing more candidates only extends the list of primes found. */
  lemma PrimesPrefixGrows(m: nat, n: nat)
    requires m <= n
    ensures IsPrefix(PrimesPrefix(m), PrimesPrefix(n))
  {
    var s := Generate(2, IncrByI(1));
    TakeOfTakeStream(m, n, s);
    assert IsPrefix(TakeStream(m, s), TakeStream(n, s));
    SievePrefix(TakeStream(m, s), TakeStream(n, s));
  }

  lemma HeadInElems(ys: LList<Int32>)
    ensures ys.Cons? ==> ys.head in Elems(ys)
  {
  }

  /** Two increasing lists with the same elements are equal. */
  lemma {:induction false} IncreasingUnique(xs: LList<Int32>, ys: LList<Int32>)
    requires Increasing(xs) && Increasing(ys)
    requires forall x <- Elems(xs) :: x in Elems(ys)
    requires forall y <- Elems(ys) :: y in Elems(xs)
    ensures xs == ys
    decreases Len(xs)
  {
    match xs
    case Nil =>
      HeadInElems(ys);
    case Cons(h, t) =>
      assert Elems(xs) == [h] + Elems(t);
      assert h in Elems(ys);
      var g, u := ys.head, ys.tail;
      assert Elems(ys) == [g] + Elems(u);
      assert g in Elems(xs);
      assert h == g;
      forall x <- Elems(t)
        ensures x in Elems(u)
      {
        assert x in Elems(ys);
      }
      forall y <- Elems(u)
        ensures y in Elems(t)
      {
        assert y in Elems(xs);
      }
      IncreasingUnique(t, u);
  }

  /** Trial division by `d, d + 1, ...` while the square of the divisor does
      not pass `n`: a test of primality that can be evaluated. */
  predicate NoDivisorFrom(d: nat, n: int)
    decreases n - d
  {
    d >= n || d * d > n || (!Divides(d, n) && NoDivisorFrom(d + 1, n))
  }

  /** A divisor of `n` at or above `d` with `d * d > n` has a cofactor below
      `d` that divides `n` too. */
  lemma LargeDivisor(d: int, e: int, n: int)
    requires 2 <= d <= e < n && d * d > n && Divides(e, n)
    ensures exists k :: 2 <= k < d && Divides(k, n)
  {
    var k := n / e;
    assert n == k * e by {
      assert n == e * (n / e) + n % e;
    }
    if k >= d {
      MulAtLeast(d, k, d, e);
      assert false;
    }
    if k <= 1 {
      MulAtLeast(k, 1, e, e);
      assert false;
    }
    ModOfMultiple(e, k);
    assert e * k == n;
    assert Divides(k, n);
  }

  lemma MulAtLeast(a: int, b: int, c: int, e: int)
    requires 0 <= a <= b && 0 <= c <= e
    ensures a * c <= b * e
  {
    assert a * c <= b * c;
    assert b * c <= b * e;
  }

  lemma {:induction false} NoDivisorFromMeans(d: nat, n: int)
    requires 2 <= d && 2 <= n
    requires forall e :: 2 <= e < d ==> !Divides(e, n)
    ensures NoDivisorFrom(d, n) <==> IsPrime(n)
    decreases n - d
  {
    if d >= n {
    } else if d * d > n {
      forall e | d <= e < n
        ensures !Divides(e, n)
      {
        if Divides(e, n) {
          LargeDivisor(d, e, n);
        }
      }
    } else if !Divides(d, n) {
      NoDivisorFromMeans(d + 1, n);
    }
  }

  /** The primes in `[lo, hi]` in increasing order, by trial division. */
  function PrimesBetween(lo: int, hi: int): seq<int>
    decreases hi - lo
  {
    if lo > hi then []
    else (if lo >= 2 && NoDivisorFrom(2, lo) then [lo] else []) + PrimesBetween(lo + 1, hi)
  }

  lemma {:induction false} PrimesBetweenMeans(lo: int, hi: int)
    ensures forall x :: x in PrimesBetween(lo, hi) <==> lo <= x <= hi && IsPrime(x)
    decreases hi - lo
  {
    if lo <= hi {
      PrimesBetweenMeans(lo + 1, hi);
      if lo >= 2 {
        NoDivisorFromMeans(2, lo);
      }
    }
  }

  /** Each element is smaller than the next. */
  predicate Ascending(s: seq<int>)
  {
    forall i :: 0 < i < |s| ==> s[i - 1] < s[i]
  }

  lemma {:induction false} AscendingIsIncreasing(xs: LList<Int32>)
    requires Ascending(Elems(xs))
    ensures Increasing(xs)
  {
    match xs
    case Nil =>
    case Cons(h, t) =>
      assert Elems(xs) == [h] + Elems(t);
      assert Ascending(Elems(t)) by {
        forall i | 0 < i < |Elems(t)|
          ensures Elems(t)[i - 1] < Elems(t)[i]
        {
          assert Elems(xs)[i] < Elems(xs)[i + 1];
        }
      }
      AscendingIsIncreasing(t);
      if t.Cons? {
        assert Elems(t) == [t.head] + Elems(t.tail);
        assert Elems(xs)[0] < Elems(xs)[1];
      }
  }

  /** The primes up to 29. */
  lemma PrimesUpTo29()
    ensures forall x :: 2 <= x <= 29 && IsPrime(x) <==> x in [2, 3, 5, 7, 11, 13, 17, 19, 23, 29]
  {
    TrialDivisionUpTo29();
    PrimesBetweenMeans(2, 29);
  }

  /** Trial division evaluated on 2 .. 29, one number per step, from the top
      down (the lemmas below are the steps). */
  lemma TrialDivisionUpTo29()
    ensures PrimesBetween(2, 29) == [2, 3, 5, 7, 11, 13, 17, 19, 23, 29]
  {
    TrialDivisionFrom4();
    assert PrimesBetween(3, 29) == [3, 5, 7, 11, 13, 17, 19, 23, 29];
  }

  lemma TrialDivisionFrom4()
    ensures PrimesBetween(4, 29) == [5, 7, 11, 13, 17, 19, 23, 29]
  {
    TrialDivisionFrom6();
    assert PrimesBetween(5, 29) == [5, 7, 11, 13, 17, 19, 23, 29];
  }

  lemma TrialDivisionFrom6()
    ensures PrimesBetween(6, 29) == [7, 11, 13, 17, 19, 23, 29]
  {
    TrialDivisionFrom8();
    assert PrimesBetween(7, 29) == [7, 11, 13, 17, 19, 23, 29];
  }

  lemma TrialDivisionFrom8()
    ensures PrimesBetween(8, 29) == [11, 13, 17, 19, 23, 29]
  {
    TrialDivisionFrom10();
    assert PrimesBetween(9, 29) == [11, 13, 17, 19, 23, 29];
  }

  lemma TrialDivisionFrom10()
    ensures PrimesBetween(10, 29) == [11, 13, 17, 19, 23, 29]
  {
    TrialDivisionFrom14();
    assert PrimesBetween(13, 29) == [13, 17, 19, 23, 29];
    assert PrimesBetween(12, 29) == [13, 17, 19, 23, 29];
    assert PrimesBetween(11, 29) == [11, 13, 17, 19, 23, 29];
    assert PrimesBetween(10, 29) == [11, 13, 17, 19, 23, 29];
  }

  lemma TrialDivisionFrom14()
    ensures PrimesBetween(14, 29) == [17, 19, 23, 29]
  {
    TrialDivisionFrom17();
    assert PrimesBetween(16, 29) == [17, 19, 23, 29];
    assert PrimesBetween(15, 29) == [17, 19, 23, 29];
  }

  lemma TrialDivisionFrom17()
    ensures PrimesBetween(17, 29) == [17, 19, 23, 29]
  {
    TrialDivisionFrom20();
    assert PrimesBetween(19, 29) == [19, 23, 29];
    assert PrimesBetween(18, 29) == [19, 23, 29];
  }

  lemma TrialDivisionFrom20()
    ensures PrimesBetween(20, 29) == [23, 29]
  {
    assert PrimesBetween(29, 29) == [29];
    assert PrimesBetween(28, 29) == [29];
    assert PrimesBetween(27, 29) == [29];
    assert PrimesBetween(26, 29) == [29];
    assert PrimesBetween(25, 29) == [29];
    assert PrimesBetween(24, 29) == [29];
    assert PrimesBetween(23, 29) == [23, 29];
    assert PrimesBetween(22, 29) == [23, 29];
    assert PrimesBetween(21, 29) == [23, 29];
    assert PrimesBetween(20, 29) == [23, 29];
  }

  /** Sieving the candidates 2 .. 29 leaves exactly the primes up to 29. */
  lemma SieveUpTo29()
    ensures PrimesPrefix(28) == TenPrimes()
  {
    var ten := TenPrimes();
    assert Elems(ten) == [2, 3, 5, 7, 11, 13, 17, 19, 23, 29];
    PrimesUpTo29();
    AscendingIsIncreasing(ten);
    PrimesPrefixIs(28, ten);
  }

  /** The sieve's output on the candidates `2 .. m + 1` is the one increasing
      list that holds exactly the primes in that range. */
  lemma PrimesPrefixIs(m: nat, ps: LList<Int32>)
    requires m + 1 <= MAX && Increasing(ps)
    requires forall x :: x in Elems(ps) <==> 2 <= x <= m + 1 && IsPrime(x)
    ensures PrimesPrefix(m) == ps
  {
    PrimesPrefixCorrect(m);
    IncreasingUnique(PrimesPrefix(m), ps);
  }

  function TenPrimes(): LList<Int32>
  {
    Cons(2, Cons(3, Cons(5, Cons(7, Cons(11, Cons(13, Cons(17, Cons(19, Cons(23, Cons(29, Nil))))))))))
  }

  /** `take(10, primes())` is `2 : 3 : 5 : 7 : 11 : 13 : 17 : 19 : 23 : 29 : []`:
      forcing the sieve on the numbers up to 29, or on any longer prefix of
      the candidates, produces these ten primes first, with the intended
      `take` and with the one the source runs. */
  lemma FirstTenPrimes(n: nat)
    requires 28 <= n && n + 1 <= MAX
    ensures Take(10, PrimesPrefix(n)) == TenPrimes()
    ensures TakeAsWritten(10, PrimesPrefix(n)) == TenPrimes()
  {
    SieveUpTo29();
    PrimesPrefixGrows(28, n);
    assert Len(TenPrimes()) == 10;
    TakePrefix(TenPrimes(), PrimesPrefix(n));
    TakeAsWrittenAgrees(10, PrimesPrefix(n));
  }
}
