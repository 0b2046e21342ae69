/** The self-contained deferred cell at the top of LazyEvaluator.java. A cell
    made by `make` overrides `compute()`; a plain cell keeps the default
    `compute()`, which throws, and `ready` stores a value in it directly. */
module LazyThunk {
  import opened Wrappers

  /** The exception raised by the default `compute()`. */
  datatype ThunkError = MustOverride

  class Thunk<A> {
    /** The cached value; `None` is the initial `null`. */
    var value: Option<A>
    /** The overriding `compute()` of a cell made by `make`; `None` for the
        default one. Its result may be `null`, written `None`. */
    const computation: Option<() -> Option<A>>
    /** How many times `compute()` has been called. */
    ghost var computeCalls: nat

    /** A cell that `ready` or `make` returned: it has a value, or a
        `compute()` that does not throw. */
    ghost predicate Valid()
      reads this
    {
      value.Some? || computation.Some?
    }

    /** `new Thunk<>()`: no value and the default `compute()`. */
    constructor Plain()
      ensures value == None && computation == None && computeCalls == 0
    {
      value := None;
      computation := None;
      computeCalls := 0;
    }

    /** The anonymous subclass built by `make`, whose `compute()` calls `c`. */
    constructor Overriding(c: () -> Option<A>)
      ensures Valid()
      ensures value == None && computation == Some(c) && computeCalls == 0
    {
      value := None;
      computation := Some(c);
      computeCalls := 0;
    }

    /** `compute()`: the override's result, or the exception of the default. */
    method Compute() returns (r: Result<Option<A>, ThunkError>)
      modifies this`computeCalls
      ensures computeCalls == old(computeCalls) + 1
      ensures computation.None? ==> r == Failure(MustOverride)
      ensures computation.Some? ==> r == Success(computation.value())
    {
      computeCalls := computeCalls + 1;
      if computation.Some? {
        r := Success(computation.value());
      } else {
        r := Failure(MustOverride);
      }
    }

    /** `eval()`: the cached value if it is not `null`, otherwise the result of
        one call to `compute()`, which is cached. */
    method Eval() returns (r: Option<A>)
      requires Valid()
      modifies this
      ensures Valid()
      ensures old(value).Some? ==>
        r == old(value) && value == old(value) && computeCalls == old(computeCalls)
      ensures old(value).None? ==>
        computation.Some? && r == computation.value() && value == r &&
        computeCalls == old(computeCalls) + 1
    {
      if value.Some? {
        r := value;
      } else {
        var res := Compute();
        value := res.value;
        r := value;
      }
    }
  }

  /** `Thunk.ready(value)`: a plain cell whose value is set after construction,
      so its throwing `compute()` is never reached. */
  method Ready<A>(v: A) returns (t: Thunk<A>)
    ensures fresh(t) && t.Valid()
    ensures t.value == Some(v) && t.computation == None && t.computeCalls == 0
  {
    t := new Thunk.Plain();
    t.value := Some(v);
  }

  /** `Thunk.make(compute)`: a pending cell; building it runs nothing. */
  method Make<A>(c: () -> Option<A>) returns (t: Thunk<A>)
    ensures fresh(t) && t.Valid()
    ensures t.value == None && t.computation == Some(c) && t.computeCalls == 0
  {
    t := new Thunk.Overriding(c);
  }

  /** After the first `eval()` of a cell whose computation yields a value, the
      value is cached and a later `eval()` returns it without computing. */
  method EvalMemoizes<A>(t: Thunk<A>) returns (first: Option<A>, second: Option<A>)
    requires t.Valid()
    requires t.computation.Some? ==> t.computation.value().Some?
    modifies t
    ensures first.Some? && first == second && t.value == first
    ensures old(t.value).Some? ==> first == old(t.value) && t.computeCalls == old(t.computeCalls)
    ensures old(t.value).None? ==> t.computeCalls == old(t.computeCalls) + 1
  {
    first := t.Eval();
    second := t.Eval();
  }
}
