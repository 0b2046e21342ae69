/** The lazy list `LList` of LazyEvaluator.java and the list combinators
    `len`, `elemAt`, `take`, `map` and `filter`, on finite lists.

    A Java `LList` is a cons cell whose head and tail are thunks, and whose
    `head == null` marks the empty list (`isNil`/`isCons`). Forcing every
    thunk of a finite list gives a value of the datatype below: `nil()` is
    `Nil` and `cons(h, t)` is `Cons(h, t)`. Each combinator is the value its
    Java counterpart produces once the whole result is forced. */
module LazyList {
  import opened Wrappers

  datatype LList<A> = Nil | Cons(head: A, tail: LList<A>)

  /** The elements of a list, in order. */
  function Elems<A>(xs: LList<A>): seq<A>
  {
    match xs
    case Nil => []
    case Cons(h, t) => [h] + Elems(t)
  }

  /** A list is determined by its elements. */
  lemma {:induction false} ElemsInjective<A>(xs: LList<A>, ys: LList<A>)
    requires Elems(xs) == Elems(ys)
    ensures xs == ys
  {
    match xs
    case Nil =>
    case Cons(h, t) =>
      assert ys.Cons? by {
        assert |Elems(xs)| > 0;
      }
      assert Elems(xs)[0] == h && Elems(ys)[0] == ys.head;
      assert Elems(t) == Elems(xs)[1..] == Elems(ys)[1..] == Elems(ys.tail);
      ElemsInjective(t, ys.tail);
  }

  /** `ys` is a prefix of `xs`: forcing `ys` meets the first cells of `xs`. */
  predicate IsPrefix<A(==)>(ys: LList<A>, xs: LList<A>)
  {
    match ys
    case Nil => true
    case Cons(h, t) => xs.Cons? && xs.head == h && IsPrefix(t, xs.tail)
  }

  lemma {:induction false} IsPrefixElems<A>(ys: LList<A>, xs: LList<A>)
    ensures IsPrefix(ys, xs) <==> Elems(ys) <= Elems(xs)
  {
    match ys
    case Nil =>
    case Cons(h, t) =>
      if xs.Cons? {
        IsPrefixElems(t, xs.tail);
        var a, b := Elems(ys), Elems(xs);
        assert a == [h] + Elems(t) && a[1..] == Elems(t);
        assert b == [xs.head] + Elems(xs.tail) && b[1..] == Elems(xs.tail);
        if a <= b {
          assert a[0] == b[0] && a[1..] <= b[1..];
        }
        if h == xs.head && Elems(t) <= Elems(xs.tail) {
          assert a <= b;
        }
      } else {
        assert Elems(xs) == [];
      }
  }

  /** `len`: the number of elements (a strict fold; on a finite list only). */
  function Len<A>(xs: LList<A>): (n: nat)
    ensures n == |Elems(xs)|
  {
    match xs
    case Nil => 0
    case Cons(_, t) => 1 + Len(t)
  }

  /** `elemAt(i, xs)`: the element at zero-based position `i`. An index at or
      beyond the length, or a negative one, walks off the end of the list and
      fails with a `NullPointerException` in the source; here it is `None`. */
  function ElemAt<A>(i: int, xs: LList<A>): (r: Option<A>)
    ensures r.Some? <==> 0 <= i < Len(xs)
    ensures r.Some? ==> r.value == Elems(xs)[i]
    decreases xs
  {
    match xs
    case Nil => None
    case Cons(h, t) => if i == 0 then Some(h) else ElemAt(i - 1, t)
  }

  function Min(a: int, b: int): int
  {
    if a <= b then a else b
  }

  /** `take(n, xs)`, as intended: the first `min(n, len(xs))` elements, and
      the empty list for `n <= 0`. `TakeAsWritten` follows the source's
      stopping condition `n == 0`. */
  function Take<A>(n: int, xs: LList<A>): (r: LList<A>)
    ensures Len(r) == if n <= 0 then 0 else Min(n, Len(xs))
    ensures IsPrefix(r, xs)
  {
    if n <= 0 then Nil
    else match xs
      case Nil => Nil
      case Cons(h, t) => Cons(h, Take(n - 1, t))
  }

  /** `take(n, xs)` as LazyEvaluator.java writes it: it stops only when the
      counter is exactly 0 or when the list runs out (a cell built from the
      `null` head of an empty list is itself empty). A negative count never
      reaches 0, so the whole list is returned. */
  function TakeAsWritten<A>(n: int, xs: LList<A>): (r: LList<A>)
    ensures Len(r) == if n < 0 then Len(xs) else Min(n, Len(xs))
    ensures IsPrefix(r, xs)
    decreases xs
  {
    if n == 0 then Nil
    else match xs
      case Nil => Nil
      case Cons(h, t) => Cons(h, TakeAsWritten(n - 1, t))
  }

  /** A prefix as long as the list is the list itself. */
  lemma {:induction false} FullPrefix<A>(ys: LList<A>, xs: LList<A>)
    requires IsPrefix(ys, xs) && Len(ys) == Len(xs)
    ensures ys == xs
  {
    match ys
    case Nil =>
    case Cons(_, t) => FullPrefix(t, xs.tail);
  }

  /** Taking as many elements as a prefix has gives that prefix. */
  lemma {:induction false} TakePrefix<A>(ys: LList<A>, xs: LList<A>)
    requires IsPrefix(ys, xs)
    ensures Take(Len(ys), xs) == ys
  {
    match ys
    case Nil =>
    case Cons(_, t) => TakePrefix(t, xs.tail);
  }

  /** For a count that is not negative the source's `take` is the intended one. */
  lemma {:induction false} TakeAsWrittenAgrees<A>(n: int, xs: LList<A>)
    requires n >= 0
    ensures TakeAsWritten(n, xs) == Take(n, xs)
  {
    if n != 0 && xs.Cons? {
      TakeAsWrittenAgrees(n - 1, xs.tail);
    }
  }

  /** With a negative count the source's `take` returns all of `xs`, where
      the intended `take` returns the empty list. */
  lemma TakeAsWrittenNegative<A>(n: int, xs: LList<A>)
    requires n < 0
    ensures TakeAsWritten(n, xs) == xs
    ensures Take(n, xs) == Nil
  {
    FullPrefix(TakeAsWritten(n, xs), xs);
  }

  /** Position `i` of `take(n, xs)` is position `i` of `xs` below `n`, and a
      failure from `n` on, whatever `xs` holds beyond. */
  lemma ElemAtTake<A>(i: int, n: int, xs: LList<A>)
    ensures ElemAt(i, Take(n, xs)) == if i < n then ElemAt(i, xs) else None
  {
    IsPrefixElems(Take(n, xs), xs);
  }

  /** `map(f, xs)`: the same shape, with `f` applied to every element. */
  function Map<A, B>(f: A -> B, xs: LList<A>): (r: LList<B>)
    ensures Len(r) == Len(xs)
    ensures forall i :: 0 <= i < Len(xs) ==> Elems(r)[i] == f(Elems(xs)[i])
  {
    match xs
    case Nil => Nil
    case Cons(h, t) => Cons(f(h), Map(f, t))
  }

  lemma MapIdentity<A>(xs: LList<A>)
    ensures Map(x => x, xs) == xs
  {
    ElemsInjective(Map(x => x, xs), xs);
  }

  lemma {:induction false} MapFusion<A, B, C>(f: B -> C, g: A -> B, xs: LList<A>)
    ensures Map(f, Map(g, xs)) == Map(x => f(g(x)), xs)
  {
    match xs
    case Nil =>
    case Cons(_, t) => MapFusion(f, g, t);
  }

  /** Taking a prefix and mapping commute: `map` forces only what is taken. */
  lemma {:induction false} TakeMap<A, B>(n: int, f: A -> B, xs: LList<A>)
    ensures Take(n, Map(f, xs)) == Map(f, Take(n, xs))
  {
    if n > 0 && xs.Cons? {
      TakeMap(n - 1, f, xs.tail);
    }
  }

  /** `filter(pred, xs)`: the elements of `xs` that satisfy `pred`. The empty
      list comes back as it is. */
  function Filter<A>(pred: A -> bool, xs: LList<A>): (r: LList<A>)
    ensures Len(r) <= Len(xs)
    ensures forall x <- Elems(r) :: x in Elems(xs) && pred(x)
    ensures forall x <- Elems(xs) :: pred(x) ==> x in Elems(r)
  {
    match xs
    case Nil => xs
    case Cons(h, t) => if pred(h) then Cons(h, Filter(pred, t)) else Filter(pred, t)
  }

  /** `s` is `t` with some elements left out, the rest in their order. */
  ghost predicate IsSubsequence<A>(s: seq<A>, t: seq<A>)
    decreases |t|
  {
    s == [] ||
    (t != [] && ((s[0] == t[0] && IsSubsequence(s[1..], t[1..])) || IsSubsequence(s, t[1..])))
  }

  /** `filter` keeps the original order. */
  lemma {:induction false} FilterKeepsOrder<A>(pred: A -> bool, xs: LList<A>)
    ensures IsSubsequence(Elems(Filter(pred, xs)), Elems(xs))
  {
    match xs
    case Nil =>
    case Cons(h, t) =>
      FilterKeepsOrder(pred, t);
      var s, u := Elems(Filter(pred, xs)), Elems(xs);
      assert u != [] && u[0] == h && u[1..] == Elems(t);
      if pred(h) {
        assert s[0] == h && s[1..] == Elems(Filter(pred, t));
      }
  }

  /** `filter` keeps every occurrence of a passing element and none of a
      failing one. */
  lemma {:induction false} FilterCounts<A>(pred: A -> bool, xs: LList<A>, x: A)
    ensures multiset(Elems(Filter(pred, xs)))[x] == if pred(x) then multiset(Elems(xs))[x] else 0
  {
    match xs
    case Nil =>
    case Cons(h, t) =>
      FilterCounts(pred, t, x);
      assert multiset(Elems(xs)) == multiset([h]) + multiset(Elems(t));
      if pred(h) {
        assert multiset(Elems(Filter(pred, xs))) == multiset([h]) + multiset(Elems(Filter(pred, t)));
      }
  }

  /** Filtering a prefix gives a prefix of the filtered list: what `filter`
      has produced from the cells forced so far never changes. */
  lemma {:induction false} FilterPrefix<A>(pred: A -> bool, ys: LList<A>, xs: LList<A>)
    requires IsPrefix(ys, xs)
    ensures IsPrefix(Filter(pred, ys), Filter(pred, xs))
  {
    match ys
    case Nil =>
    case Cons(_, t) => FilterPrefix(pred, t, xs.tail);
  }

  /** Mapping a prefix gives a prefix of the mapped list. */
  lemma {:induction false} MapPrefix<A, B>(f: A -> B, ys: LList<A>, xs: LList<A>)
    requires IsPrefix(ys, xs)
    ensures IsPrefix(Map(f, ys), Map(f, xs))
  {
    match ys
    case Nil =>
    case Cons(_, t) => MapPrefix(f, t, xs.tail);
  }
}
