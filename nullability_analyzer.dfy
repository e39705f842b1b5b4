/** A conservative test for "may return null on non-null input": a traversal
    that raises a shared boolean flag whenever it meets a construct that can
    produce null. */
module NullabilityAnalyzer {
  import opened Ir

  /** The specification of the analysis: which expressions are reported. */
  predicate MayBeNull(e: Expr)
    decreases Size(e)
  {
    match e
    case NullIf(_, _) => true
    case In(_, _) => true
    case SearchedCase(_, _) => true
    case SimpleCase(_, _, _) => true
    case Subscript(_, _) => true
    case FunctionCall(_, _) => true
    case Constant(_, v) => v == Null
    case Cast(x, _, safe) => MayBeNull(x) || safe
    case _ =>
      ChildrenAreSmaller(e);
      exists i :: 0 <= i < |Children(e)| && MayBeNull(Children(e)[i])
  }

  /** java.util.concurrent.atomic.AtomicBoolean, single-threaded. */
  class AtomicFlag {
    var value: bool

    constructor(initial: bool)
      ensures value == initial
    {
      value := initial;
    }

    function Get(): bool
      reads this
    {
      value
    }

    method Set(update: bool)
      modifies this
      ensures value == update
    {
      value := update;
    }

    /** Sets the flag to `update` only when it holds `expected`. */
    method CompareAndSet(expected: bool, update: bool) returns (swapped: bool)
      modifies this
      ensures swapped == (old(value) == expected)
      ensures value == if swapped then update else old(value)
    {
      swapped := value == expected;
      if swapped {
        value := update;
      }
    }
  }

  /** The traversal. The flag is only ever raised, never lowered. */
  method Visit(e: Expr, result: AtomicFlag)
    modifies result
    ensures result.value == (old(result.value) || MayBeNull(e))
    decreases Size(e)
  {
    match e
    case NullIf(_, _) => result.Set(true);
    case In(_, _) => result.Set(true);
    case SearchedCase(_, _) => result.Set(true);
    case SimpleCase(_, _, _) => result.Set(true);
    case Subscript(_, _) => result.Set(true);
    case FunctionCall(_, _) => result.Set(true);
    case Constant(_, v) =>
      if v == Null {
        result.Set(true);
      }
    case Cast(x, _, safe) =>
      Visit(x, result);
      var _ := result.CompareAndSet(false, safe);
    case _ =>
      VisitChildren(e, result);
  }

  /** The default traversal: every child in order. */
  method VisitChildren(e: Expr, result: AtomicFlag)
    requires !(e.NullIf? || e.In? || e.SearchedCase? || e.SimpleCase? || e.Subscript? || e.FunctionCall? || e.Constant? || e.Cast?)
    modifies result
    ensures result.value == (old(result.value) || MayBeNull(e))
    decreases Size(e), 0
  {
    var children := Children(e);
    ChildrenAreSmaller(e);
    var i := 0;
    while i < |children|
      invariant 0 <= i <= |children|
      invariant result.value == (old(result.value) || exists k :: 0 <= k < i && MayBeNull(children[k]))
    {
      Visit(children[i], result);
      i := i + 1;
    }
  }

  /** mayReturnNullOnNonNullInput. */
  method MayReturnNullOnNonNullInput(e: Expr) returns (r: bool)
    ensures r == MayBeNull(e)
  {
    var result := new AtomicFlag(false);
    Visit(e, result);
    r := result.Get();
  }

  /** The constructs that always report may-be-null, whatever their operands. */
  lemma AlwaysReported(e: Expr)
    requires e.NullIf? || e.In? || e.SearchedCase? || e.SimpleCase? || e.Subscript? || e.FunctionCall?
    ensures MayBeNull(e)
  {
  }

  /** A constant is reported exactly when it is null; a cast when its operand
      is reported or it is a safe cast. */
  lemma ConstantAndCast(t: Type, v: Value, x: Expr, target: Type, safe: bool)
    ensures MayBeNull(Constant(t, v)) <==> v == Null
    ensures MayBeNull(Cast(x, target, safe)) <==> MayBeNull(x) || safe
  {
  }
}
