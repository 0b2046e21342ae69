/** The infinite lists of LazyEvaluator.java, seen through their elements:
    an infinite `LList` whose every cell can be forced is the function from a
    position to the element there. `generate` builds one; `take` turns a
    prefix of one into a finite list. */
module Streams {
  import opened LazyList
  import opened JavaInt
  import opened IntCombinators

  type Stream<A> = nat -> A

  /** `f` applied `k` times to `x`. */
  function Iterate<A>(f: A -> A, k: nat, x: A): A
  {
    if k == 0 then x else f(Iterate(f, k - 1, x))
  }

  lemma {:induction false} IterateShift<A>(f: A -> A, k: nat, x: A)
    ensures Iterate(f, k + 1, x) == Iterate(f, k, f(x))
  {
    if k > 0 {
      IterateShift(f, k - 1, x);
    }
  }

  /** Position `k` of `generate(seed, next)`, unfolded as the source builds
      the list: position 0 is `seed`, and the rest is
      `generate(next(seed), next)`. It is `next` applied `k` times to `seed`. */
  function GenerateAt<A>(seed: A, next: A -> A, k: nat): (r: A)
    ensures r == Iterate(next, k, seed)
  {
    if k == 0 then seed
    else
      IterateShift(next, k - 1, seed);
      GenerateAt(next(seed), next, k - 1)
  }

  /** `generate(seed, next)`: `seed, next(seed), next(next(seed)), ...`. */
  function Generate<A>(seed: A, next: A -> A): Stream<A>
  {
    (k: nat) => GenerateAt(seed, next, k)
  }

  /** The source builds `generate(seed, next)` as a cell holding `seed` whose
      tail is `generate(next(seed), next)`; the stream satisfies that law. */
  lemma GenerateUnfolds<A>(seed: A, next: A -> A)
    ensures Generate(seed, next)(0) == seed
    ensures forall k: nat :: Generate(seed, next)(k + 1) == Generate(next(seed), next)(k)
  {
    forall k: nat
      ensures Generate(seed, next)(k + 1) == Generate(next(seed), next)(k)
    {
      assert GenerateAt(seed, next, k + 1) == GenerateAt(next(seed), next, k);
    }
  }

  /** `take(n, xs)` on an infinite list: the first `n` elements. */
  function TakeStream<A>(n: nat, s: Stream<A>): (r: LList<A>)
    ensures Len(r) == n
    ensures forall i :: 0 <= i < n ==> Elems(r)[i] == s(i)
  {
    TakeFrom(n, s, 0)
  }

  /** The `n` elements of `s` from position `start` on. */
  function TakeFrom<A>(n: nat, s: Stream<A>, start: nat): (r: LList<A>)
    ensures Len(r) == n
    ensures forall i :: 0 <= i < n ==> Elems(r)[i] == s(start + i)
  {
    if n == 0 then Nil
    else
      var t := TakeFrom(n - 1, s, start + 1);
      var r := Cons(s(start), t);
      assert Elems(r) == [s(start)] + Elems(t);
      assert forall i :: 1 <= i < n ==> Elems(r)[i] == Elems(t)[i - 1];
      r
  }

  /** A finite list is determined by its length and its elements. */
  lemma SameElements<A>(xs: LList<A>, ys: LList<A>)
    requires Len(xs) == Len(ys)
    requires forall i :: 0 <= i < Len(xs) ==> Elems(xs)[i] == Elems(ys)[i]
    ensures xs == ys
  {
    assert Elems(xs) == Elems(ys);
    ElemsInjective(xs, ys);
  }

  /** The list-level unfolding: `take(n + 1, generate(seed, next))` is `seed`
      in front of `take(n, generate(next(seed), next))`. */
  lemma TakeGenerate<A>(n: nat, seed: A, next: A -> A)
    ensures TakeStream(n + 1, Generate(seed, next)) ==
            Cons(seed, TakeStream(n, Generate(next(seed), next)))
  {
    GenerateUnfolds(seed, next);
    var l, r := TakeStream(n + 1, Generate(seed, next)), Cons(seed, TakeStream(n, Generate(next(seed), next)));
    forall i | 0 <= i < n + 1
      ensures Elems(l)[i] == Elems(r)[i]
    {
      if i > 0 {
        assert Elems(r)[i] == Elems(r.tail)[i - 1];
      }
    }
    SameElements(l, r);
  }

  /** Taking `m` from the first `n` elements takes the first `min(m, n)`:
      the finite prefixes of one infinite list agree with each other. */
  lemma TakeOfTakeStream<A>(m: int, n: nat, s: Stream<A>)
    requires m >= 0
    ensures Take(m, TakeStream(n, s)) == TakeStream(Min(m, n), s)
  {
    var l, r := Take(m, TakeStream(n, s)), TakeStream(Min(m, n), s);
    IsPrefixElems(l, TakeStream(n, s));
    SameElements(l, r);
  }

  /** `map` on an infinite list. */
  function MapStream<A, B>(f: A -> B, s: Stream<A>): Stream<B>
  {
    (k: nat) => f(s(k))
  }

  /** The first `n` elements of `map(f, xs)` are `f` mapped over the first
      `n` elements of `xs`. */
  lemma TakeMapStream<A, B>(n: nat, f: A -> B, s: Stream<A>)
    ensures TakeStream(n, MapStream(f, s)) == Map(f, TakeStream(n, s))
  {
    SameElements(TakeStream(n, MapStream(f, s)), Map(f, TakeStream(n, s)));
  }

  /** `generate(ready(start), incrByI(1))` counts up from `start` until the
      `int` range ends. */
  lemma {:induction false} CountingUp(start: Int32, k: nat)
    requires start + k <= MAX
    ensures Generate(start, IncrByI(1))(k) == start + k
  {
    if k > 0 {
      CountingUp(start, k - 1);
    }
  }
}
