# A lazy evaluator in Dafny

This project models a small lazy evaluator, a "graph reducer", written in Java.
A program is a graph of deferred cells (thunks). A thunk either holds a value
or holds a computation that it runs the first time it is forced, caching what
the computation returns. On top of the thunk sits a lazy list `LList`, a cons
cell whose head and tail are thunks, with combinators written purely in terms
of forcing: `take`, `map`, `filter`, `len`, `elemAt`, `generate`, `sieve` and
`primes`. There are also `Integer` helpers: `mod`, `eq`, `gt`, `even`,
`incrByI` and `mulByI`.

Modules:

- `PreludeThunk` (`prelude_thunk.dfy`) models the cell of `prelude/Thunk.java`.
  It is a Dafny class with a mutable `value: Option<A>`, a constant
  `computation` and a ghost count of computation calls. `None` stands for
  Java's `null`. The private constructors become named constructors; `ready`,
  `lazy`, `fn` and the `thunk` overloads become methods.
- `LazyThunk` (`lazy_thunk.dfy`) models the self-contained `Thunk` at the top of
  `LazyEvaluator.java`. Its default `compute()` throws, which is modelled as
  `Failure(MustOverride)`. A cell built by `make` overrides `compute()`.
- `LazyList` (`lazy_list.dfy`) models `LList` as the datatype
  `Nil | Cons(head, tail)`. It is the value a finite lazy list has once every
  cell is forced. `isNil`/`isCons` are the discriminators `Nil?`/`Cons?`, and
  `nil()`/`cons(h, t)` are the constructors. Each combinator is a function
  with a contract about the elements (`Elems`).
- `Streams` (`streams.dfy`) models infinite lists as functions from a position
  to the element there. It covers `generate`, `take` on an infinite list and
  `map` on an infinite list.
- `Sieves` (`sieve.dfy`) models `sieve` and `primes`. It proves that on the
  numbers `2 .. m + 1` the sieve yields exactly the primes in that range, in
  increasing order. It also proves that forcing more of the input never
  changes the part of the output already produced, and that
  `take(10, primes())` is `2, 3, 5, ..., 29`.
- `JavaInt` (`java_int.dfy`) models Java `int` arithmetic: two's-complement
  wrap-around and the truncating remainder `%`. `IntCombinators`
  (`int_combinators.dfy`) models the `Integer` helpers.
- `MainProgram` (`main_program.dfy`) models the two lists that `main` computes.
- `Wrappers` (`wrappers.dfy`) holds `Option` and `Result`.

Two points where the code departs from what it evidently intends. The model
follows the code and states the intended behaviour beside it:

- `take` imitates Haskell's `take`, which returns `[]` for a count `n <= 0`.
  The code stops only at `n == 0` (LazyEvaluator.java:140), so a negative
  count returns the whole list. `LazyList.TakeAsWritten` models this; see
  Findings.
- A memo cell is meant to run its computation once. prelude/Thunk.java:14-19
  uses `null` as "not yet evaluated", so a computation that returns `null`
  leaves the cell unset and the next `eval()` runs it again. The model counts
  that second call (`PreludeThunk.EvalTwice`).

## Model

| member | source | states |
|---|---|---|
| `PreludeThunk.Thunk.Eval` | prelude/Thunk.java:13-20 | If a value is held, returns it and leaves the value and the call count unchanged. Otherwise calls the computation exactly once, caches its result and returns that. The slot is written only when it was empty. |
| `PreludeThunk.Thunk.FromValue` | prelude/Thunk.java:42-49 | The value constructor stores `x` as the cached value, stores no computation, and has made no calls. |
| `PreludeThunk.Thunk.FromComputation` | prelude/Thunk.java:39-41 | The computation constructor stores `c`, leaves the value absent, and does not run `c`. |
| `PreludeThunk.Ready` | prelude/Thunk.java:23 | `ready(x)` is a fresh cell holding `x` with no computation. |
| `PreludeThunk.Lazy` | prelude/Thunk.java:25 | `lazy(c)` is a fresh pending cell holding `c`; building it makes no call. |
| `PreludeThunk.Fn` | prelude/Thunk.java:27 | `fn(f)` is `ready(f)`: a ready cell holding the function. |
| `PreludeThunk.ThunkOfValue` | prelude/Thunk.java:28 | `thunk(x)` behaves as `ready(x)`. |
| `PreludeThunk.ThunkOfComputation` | prelude/Thunk.java:29 | `thunk(c)` behaves as `lazy(c)`. |
| `PreludeThunk.EvalTwice` | prelude/Thunk.java:13-20 | Two forces give the same answer, and the cell then holds it (a held value is unchanged). A ready cell makes no call. A pending cell whose computation returns a value makes one call. One whose computation returns `null` makes two calls. |
| `PreludeThunk.SharedAndIndependent` | prelude/Thunk.java:13-20 | Two references to one cell share a single evaluation. Two cells built from one computation each call it once, and all answers agree. |
| `LazyThunk.Thunk.Plain` | LazyEvaluator.java:7-11 | `new Thunk<>()` has no value and only the default, throwing `compute()`. |
| `LazyThunk.Thunk.Overriding` | LazyEvaluator.java:25-27 | The anonymous subclass built by `make` holds the overriding computation and no value. |
| `LazyThunk.Thunk.Compute` | LazyEvaluator.java:7-9 | `compute()` counts one call. It gives the override's result, or the `MustOverride` failure when there is no override. |
| `LazyThunk.Thunk.Eval` | LazyEvaluator.java:2-5 | Returns a cached non-null value without computing. Otherwise it calls `compute()` once and caches the result. |
| `LazyThunk.Ready` | LazyEvaluator.java:17-22 | `ready(v)` is a fresh cell holding `v`, whose throwing `compute()` is never reached. |
| `LazyThunk.Make` | LazyEvaluator.java:24-27 | `make(c)` is a fresh pending cell; building it makes no call. |
| `LazyThunk.EvalMemoizes` | LazyEvaluator.java:2-5 | When the computation yields a value, the first `eval()` caches it: computation runs at most once, the second force returns the same value, and the cell then holds it. |
| `JavaInt.Wrap` | LazyEvaluator.java:72-77 | The 32-bit result of `+` or `*` is congruent to the mathematical result modulo 2^32, and equal to it when no overflow occurs. |
| `JavaInt.Rem` | LazyEvaluator.java:176-178 | Java's `%`: the result's magnitude is below the divisor's, and its sign follows the dividend. |
| `JavaInt.RemLeavesMultiple` | LazyEvaluator.java:176-178 | The dividend minus `%` is a multiple of the divisor, so `Rem` is the remainder of truncated division. |
| `JavaInt.RemOfPositive` | LazyEvaluator.java:176-178 | On non-negative dividends and positive divisors, Java's `%` is the mathematical remainder. |
| `IntCombinators.IncrByI` | LazyEvaluator.java:72-74 | `incrByI(d)` adds `d` modulo 2^32, exactly when there is no overflow. |
| `IntCombinators.MulByI` | LazyEvaluator.java:75-77 | `mulByI(factor)` multiplies modulo 2^32, exactly when there is no overflow. |
| `IntCombinators.Mod` | LazyEvaluator.java:176-178 | `mod` fails (ArithmeticException) exactly when the divisor is 0. Otherwise its result differs from the dividend by a multiple of the divisor, has a smaller magnitude than the divisor, and takes the dividend's sign: Java's `%`. |
| `IntCombinators.EqBoxed` | LazyEvaluator.java:110-112 | `eq` as written is true only of equal values, and always true of equal values in the boxing cache -128..127. |
| `IntCombinators.EqBoxedMissesEqualValues` | LazyEvaluator.java:110-112 | `eq` as written is false for two separately boxed 1000s, though the intended `Eq` is true. |
| `IntCombinators.EqBoxedAgreesOnSmallValues` | LazyEvaluator.java:110-112 | On values in the cached range, `eq` as written agrees with the intended `Eq`. |
| `IntCombinators.EvenIffMultipleOfTwo` | LazyEvaluator.java:106-108 | `even(i)`, `eq(mod(i, 2), 0)`, holds exactly when `i` is a multiple of 2, negative `i` included. |
| `IntCombinators.EvenAsWrittenIsEven` | LazyEvaluator.java:106-108 | `even` is unaffected by the reference comparison in `eq`, because a remainder by 2 lies in the cached range. |
| `LazyList.Len` | LazyEvaluator.java:120-124 | `len` is the number of elements. |
| `LazyList.ElemAt` | LazyEvaluator.java:133-137 | `elemAt(i, xs)` succeeds exactly when `0 <= i < len(xs)`, and then gives element `i`. Any other index is a failure. |
| `LazyList.Take` | LazyEvaluator.java:139-143 | Intended `take(n, xs)`: a prefix of `xs` of length `min(n, len(xs))`, and empty for `n <= 0`. |
| `LazyList.TakeAsWritten` | LazyEvaluator.java:139-143 | `take` as written: a prefix of length `min(n, len(xs))` for `n >= 0`, and all of `xs` for `n < 0`. |
| `LazyList.TakeAsWrittenAgrees` | LazyEvaluator.java:139-143 | For `n >= 0`, `take` as written equals the intended `take`. |
| `LazyList.TakeAsWrittenNegative` | LazyEvaluator.java:139-143 | For `n < 0`, `take` as written returns `xs` itself, while the intended `take` returns `Nil`. |
| `LazyList.TakePrefix` | LazyEvaluator.java:139-143 | Taking as many elements as a prefix of `xs` has yields that prefix. |
| `LazyList.ElemAtTake` | LazyEvaluator.java:133-143 | `elemAt(i, take(n, xs))` is `elemAt(i, xs)` below `n` and a failure from `n` on, e.g. `elemAt(5, take(3, anything))`. |
| `LazyList.Map` | LazyEvaluator.java:145-150 | `map(f, xs)` has the length of `xs`, and element `i` is `f` of element `i` of `xs`. |
| `LazyList.MapIdentity` | LazyEvaluator.java:145-150 | Mapping the identity gives the list back. |
| `LazyList.MapFusion` | LazyEvaluator.java:145-150 | Mapping `g` and then `f` is mapping their composition. |
| `LazyList.TakeMap` | LazyEvaluator.java:139-150 | `take(n, map(f, xs))` is `map(f, take(n, xs))`. |
| `LazyList.MapPrefix` | LazyEvaluator.java:145-150 | The map of a prefix is a prefix of the map. |
| `LazyList.Filter` | LazyEvaluator.java:152-164 | `filter(pred, xs)` is no longer than `xs`. Every element it keeps is in `xs` and satisfies `pred`, and every element of `xs` that satisfies `pred` is kept. |
| `LazyList.FilterKeepsOrder` | LazyEvaluator.java:152-164 | What `filter` keeps appears in its original order: a subsequence of `xs`. |
| `LazyList.FilterCounts` | LazyEvaluator.java:152-164 | `filter` keeps every occurrence of a passing element and none of a failing one, so it returns exactly the elements of `xs` that satisfy `pred`. |
| `LazyList.FilterPrefix` | LazyEvaluator.java:152-164 | The filter of a prefix is a prefix of the filter: forcing more input never changes what was produced. |
| `Streams.GenerateAt` | LazyEvaluator.java:197-201 | Position `k` of `generate(seed, next)`, unfolded as the code builds the list (`seed`, then `generate(next(seed), next)`), is `next` applied `k` times to `seed`. |
| `Streams.GenerateUnfolds` | LazyEvaluator.java:197-201 | `generate(seed, next)` is `seed` in front of `generate(next(seed), next)`, the cell structure the code builds. |
| `Streams.TakeStream` | LazyEvaluator.java:139-143 | `take(n, xs)` on an infinite list has length `n`, and element `i` of it is element `i` of `xs`. |
| `Streams.TakeGenerate` | LazyEvaluator.java:197-201 | `take(n + 1, generate(seed, next))` is `seed` in front of `take(n, generate(next(seed), next))`. |
| `Streams.TakeOfTakeStream` | LazyEvaluator.java:139-143 | Taking `m` from the first `n` elements takes the first `min(m, n)`. |
| `Streams.TakeMapStream` | LazyEvaluator.java:145-150 | `map` on an infinite list agrees with the list `map` on every prefix: the first `n` elements of the mapped list are `Map(f, ...)` of the first `n` elements. |
| `Streams.CountingUp` | LazyEvaluator.java:193-195 | `generate(ready(start), incrByI(1))` has `start + k` at position `k` while that fits in an `int`. |
| `Sieves.FilteredDefined` | LazyEvaluator.java:184-191 | Whatever survives the filter of a non-zero head is positive with a positive remainder, so the sieve can go on. |
| `Sieves.Sieve` | LazyEvaluator.java:184-191 | `sieve(xs)` is no longer than `xs`, and its elements are elements of `xs`. |
| `Sieves.SieveHead` | LazyEvaluator.java:184-191 | The head of `sieve(xs)` is the head `p` of `xs`, and no later element is divisible by `p`: each one is positive with a positive remainder (`gt(mod(x, p), 0)`). |
| `Sieves.SievePrefix` | LazyEvaluator.java:184-191 | The sieve of a prefix is a prefix of the sieve: the primes already produced never change. |
| `Sieves.FilterIncreasing` | LazyEvaluator.java:152-164 | Filtering an increasing list leaves it increasing. |
| `Sieves.CandidateHead` | LazyEvaluator.java:184-191 | The head of a list of sieve candidates is prime and is the smallest prime in range. |
| `Sieves.CandidateTail` | LazyEvaluator.java:184-191 | Filtering out the multiples of that head leaves the candidates from the head plus one on. |
| `Sieves.SieveOfCandidates` | LazyEvaluator.java:184-191 | Fed the candidates of a range, `sieve` yields an increasing list holding exactly the primes of that range. |
| `Sieves.CandidatesFromTwo` | LazyEvaluator.java:193-195 | The first `m` numbers of `generate(ready(2), incrByI(1))` are increasing, lie in `2 .. m + 1`, and include each number there. |
| `Sieves.PrimesPrefixCorrect` | LazyEvaluator.java:193-195 | `primes()` forced on its first `m` candidates is increasing and holds exactly the primes in `2 .. m + 1`. |
| `Sieves.PrimesPrefixGrows` | LazyEvaluator.java:193-195 | Forcing more candidates extends the primes produced and never changes them. |
| `Sieves.PrimesPrefixIs` | LazyEvaluator.java:193-195 | That output is the one increasing list of the primes in `2 .. m + 1`. |
| `Sieves.SieveUpTo29` | LazyEvaluator.java:193-195 | Sieving the candidates `2 .. 29` yields `2, 3, 5, 7, 11, 13, 17, 19, 23, 29`. |
| `Sieves.FirstTenPrimes` | LazyEvaluator.java:193-195 | `take(10, primes())` is `2, 3, 5, 7, 11, 13, 17, 19, 23, 29`, however many candidates beyond 29 are forced, both with the intended `take` and with the source's `take`. |
| `MainProgram.NumsUpTo4` | LazyEvaluator.java:97 | The first five elements of `nums` are 0 to 4. |
| `MainProgram.EvensUpTo4` | LazyEvaluator.java:95-98 | Filtering `0 .. 4` with `isEven`, which calls `even` as written, leaves 0, 2 and 4. |
| `MainProgram.FirstThreeEvens` | LazyEvaluator.java:95-99 | `take(ready(3), filter(isEven, nums))` is `0, 2, 4`, both with the intended `take` and with the source's `take`. |
| `MainProgram.DoubledTenPrimes` | LazyEvaluator.java:102 | `mulByI(2)` maps the first ten primes to `4, 6, 10, ..., 58`. |
| `MainProgram.FirstTenDoubledPrimes` | LazyEvaluator.java:101-103 | `take(ready(10), map(mulByI(2), primes()))` is `4, 6, 10, 14, 22, 26, 34, 38, 46, 58`, both with the intended `take` and with the source's `take`. |

Helper lemmas that carry the arithmetic and list reasoning have no row. These
are `ElemsInjective`, `IsPrefixElems`, `FullPrefix`, `SameElements`,
`IterateShift`, `TakeFrom`, the divisibility lemmas, `IncreasingUnique` and
the trial-division evaluation `PrimesBetween`/`TrialDivision…`.

`Gt`, `Eq`, `Even`, `EvenAsWritten`, `Survives`, `PrimesPrefix`, `Generate`
and `MapStream` model `gt`, the intended `eq`, `even`, `even` as written, the
sieve's predicate, `primes()`, `generate` (through `GenerateAt`) and `map` on
an infinite list. They carry no contract of their own; the rows above state their
properties. `Even` is built on the corrected `Eq`, and `EvenIffMultipleOfTwo`
proves the intended meaning of `even` about it.

## Left out

- `main`'s printing, `printList` and both `toString` methods: console output
  and string rendering. `MainProgram` models the values `main` forces.
- `sum`, `avg`, `incrByD` and `mulByD`: floating-point arithmetic.
- The `Unit` class: it is unused.
- Laziness and divergence. The model shows what a list is once forced, not when
  its cells are forced. `len` on an infinite list never terminates. `filter`
  and `sieve` produce each next element on demand; `filter` diverges only when
  no later element passes, and forcing either result completely diverges. Here
  they are defined on finite lists and on finite prefixes of a `generate`
  stream. The prefix lemmas (`FilterPrefix`,
  `MapPrefix`, `SievePrefix`, `PrimesPrefixGrows`) relate those prefixes to the
  infinite list.
- Java reference identity beyond object identity of Dafny cells. Sharing of
  head thunks between lists is also left out, because forced lists are values.
- `lazy(null)`, `cons` with a `null` head, and `ready(null)` when assertions are
  disabled. A model value is never `null`, so these cells cannot be built.
  `Valid()` states that a cell built by the factories holds a value or a
  computation.
- Computations with side effects. A computation is a pure Dafny arrow, so it
  returns the same result on every call.
- Stack overflow on long lists, and `len` overflowing `int` beyond 2^31 - 1
  elements. `Len` is an unbounded `nat`.
- `Take`: the count is an unbounded `int`, not a 32-bit `Integer` value.
- Sieve: requires `SieveDefined`. A head of 0 with a non-empty tail makes the
  source raise `ArithmeticException` only when the tail is forced. That
  partial list is not modelled.
- The Integer cache upper bound can be raised by a JVM setting. `EqBoxed` uses
  the default bound, 127.
- `EqBoxed` depends only on values. `eq(t, t)` on one cell holding a large
  value compares one object with itself, which is true in the source.
- `ElemAt` returns `None` where the source throws `NullPointerException`.

## Findings

| source | as written | input that shows it | evidently intended | confidence | as-written member | corrected member |
|---|---|---|---|---|---|---|
| LazyEvaluator.java:139-143 | `take` stops only when the count is exactly 0 | `take(-1, 1 : 2 : [])` returns `1 : 2 : []` | `n <= 0` yields the empty list | medium, not executed | `LazyList.TakeAsWrittenNegative` | `LazyList.Take` |
| LazyEvaluator.java:110-112 | `eq` compares two `Integer` references with `==` | `eq(ready(1000), ready(1000))` is false | equality of the values | medium, not executed | `IntCombinators.EqBoxedMissesEqualValues` | `IntCombinators.Eq` |
