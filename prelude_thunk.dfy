/** The deferred cell of the `prelude` package: a write-once memo slot
    `value` next to an optional pending `computation`. */
module PreludeThunk {
  import opened Wrappers

  /** A zero-argument computation. Its result may be Java's `null`, written
      `None`. Dafny arrows are pure, so a computation always yields the same
      result. */
  type Computation<A> = () -> Option<A>

  class Thunk<A> {
    /** The cached value; `None` stands for the `null` that marks "not yet
        evaluated". */
    var value: Option<A>
    /** The pending computation; a cell made by `Ready` has none. It is final. */
    const computation: Option<Computation<A>>
    /** How many times `computation` has been called. */
    ghost var computeCalls: nat

    /** Every cell the factories build can be evaluated: it holds a value or a
        computation to produce one. */
    ghost predicate Valid()
      reads this
    {
      value.Some? || computation.Some?
    }

    /** The private constructor taking a value. */
    constructor FromValue(x: A)
      ensures Valid()
      ensures value == Some(x) && computation == None && computeCalls == 0
    {
      value := Some(x);
      computation := None;
      computeCalls := 0;
    }

    /** The private constructor taking a computation: it stores `c` and does
        not call it. */
    constructor FromComputation(c: Computation<A>)
      ensures Valid()
      ensures value == None && computation == Some(c) && computeCalls == 0
    {
      value := None;
      computation := Some(c);
      computeCalls := 0;
    }

    /** Returns the cached value if there is one; otherwise calls the
        computation once, caches what it returns and returns that. */
    method Eval() returns (r: Option<A>)
      requires Valid()
      modifies this
      ensures Valid()
      ensures old(value).Some? ==>
        r == old(value) && value == old(value) && computeCalls == old(computeCalls)
      ensures old(value).None? ==>
        computation.Some? && r == computation.value() && value == r &&
        computeCalls == old(computeCalls) + 1
    {
      if value.Some? {
        r := value;
      } else {
        value := computation.value();
        computeCalls := computeCalls + 1;
        r := value;
      }
    }
  }

  /** `Thunk.ready(x)`: a cell already holding `x`, with no computation. */
  method Ready<A>(x: A) returns (t: Thunk<A>)
    ensures fresh(t) && t.Valid()
    ensures t.value == Some(x) && t.computation == None && t.computeCalls == 0
  {
    t := new Thunk.FromValue(x);
  }

  /** `Thunk.lazy(c)`: a pending cell; building it does not run `c`. */
  method Lazy<A>(c: Computation<A>) returns (t: Thunk<A>)
    ensures fresh(t) && t.Valid()
    ensures t.value == None && t.computation == Some(c) && t.computeCalls == 0
  {
    t := new Thunk.FromComputation(c);
  }

  /** `Thunk.fn(f)`: a function wrapped as a ready cell. */
  method Fn<A, B>(f: A -> B) returns (t: Thunk<A -> B>)
    ensures fresh(t) && t.Valid()
    ensures t.value == Some(f) && t.computation == None && t.computeCalls == 0
  {
    t := Ready(f);
  }

  /** The overload `thunk(A x)`, which is `ready(x)`. */
  method ThunkOfValue<A>(x: A) returns (t: Thunk<A>)
    ensures fresh(t) && t.Valid()
    ensures t.value == Some(x) && t.computation == None && t.computeCalls == 0
  {
    t := Ready(x);
  }

  /** The overload `thunk(Computation<A> x)`, which is `lazy(x)`. */
  method ThunkOfComputation<A>(c: Computation<A>) returns (t: Thunk<A>)
    ensures fresh(t) && t.Valid()
    ensures t.value == None && t.computation == Some(c) && t.computeCalls == 0
  {
    t := Lazy(c);
  }

  /** Forcing a cell twice gives one answer. The computation runs once if its
      result is a value and again on the second force if it was `null`; a cell
      that already held a value never runs it. */
  method EvalTwice<A>(t: Thunk<A>) returns (first: Option<A>, second: Option<A>)
    requires t.Valid()
    modifies t
    ensures t.Valid() && first == second && t.value == second
    ensures old(t.value).Some? ==> first == old(t.value) && t.computeCalls == old(t.computeCalls)
    ensures old(t.value).None? && first.Some? ==> t.computeCalls == old(t.computeCalls) + 1
    ensures old(t.value).None? && first.None? ==> t.computeCalls == old(t.computeCalls) + 2
  {
    first := t.Eval();
    second := t.Eval();
  }

  /** Two handles to one cell share its single evaluation; two cells built
      from the same computation evaluate independently, each calling it once. */
  method SharedAndIndependent<A>(c: Computation<A>)
    returns (t1: Thunk<A>, t2: Thunk<A>, a: Option<A>, b: Option<A>, d: Option<A>)
    requires c().Some?
    ensures t1 != t2 && a == b == d == c()
    ensures t1.computeCalls == 1 && t2.computeCalls == 1
  {
    t1 := Lazy(c);
    t2 := Lazy(c);
    var alias := t1;
    a := t1.Eval();
    b := alias.Eval();
    d := t2.Eval();
  }
}
