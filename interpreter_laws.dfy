/** Laws of the partial evaluator: error deferral, the AND/OR short circuit,
    COALESCE flattening and deduplication, CASE pruning, the comparison
    rewrites, BETWEEN and IN. Each law is stated over every context, or over
    a context whose operators behave like integer comparison. */
module InterpreterLaws {
  import opened Ir
  import opened Interpreter

  /** A bigint literal. */
  function Lit(n: int): Expr
  {
    Constant(BigintType, Long(n))
  }

  /** The comparison operators of `ctx` compare integers the usual way. */
  ghost predicate IntegerOperators(ctx: Ctx)
  {
    && (forall ts: seq<Type>, a: int, b: int :: InvokeOperator(ctx, EqualOp, ts, [Long(a), Long(b)]) == Success(Bool(a == b)))
    && (forall ts: seq<Type>, a: int, b: int :: InvokeOperator(ctx, LessThanOp, ts, [Long(a), Long(b)]) == Success(Bool(a < b)))
    && (forall ts: seq<Type>, a: int, b: int :: InvokeOperator(ctx, LessThanOrEqualOp, ts, [Long(a), Long(b)]) == Success(Bool(a <= b)))
    && (forall ts: seq<Type>, a: int, b: int :: InvokeOperator(ctx, IsDistinctFromOp, ts, [Long(a), Long(b)]) == Success(Bool(a != b)))
  }

  // ---------------------------------------------------------------------
  // processWithExceptionHandling

  /** In optimize mode a user error leaves the node itself as the residual,
      so no user error escapes; in evaluate mode every error is passed on. */
  lemma ErrorDeferral(ctx: Ctx, e: Expr)
    ensures ctx.optimize && Process(ctx, e).Failure? && Process(ctx, e).error.UserError? ==>
              Handle(ctx, e) == Success(Residual(e))
    ensures ctx.optimize && Handle(ctx, e).Failure? ==> Handle(ctx, e).error.InternalError?
    ensures !ctx.optimize ==> Handle(ctx, e) == Process(ctx, e)
    ensures Process(ctx, e).Success? ==> Handle(ctx, e) == Process(ctx, e)
  {
  }

  // ---------------------------------------------------------------------
  // AND / OR

  /** Every term folds without error. */
  predicate TermsSucceed(ctx: Ctx, node: Expr)
    requires node.Logical?
  {
    forall j :: 0 <= j < |node.terms| ==> Handle(ctx, node.terms[j]).Success?
  }

  /** No term folds to the value that decides the whole expression. */
  predicate NoneAbsorbing(ctx: Ctx, node: Expr)
    requires node.Logical?
  {
    forall j :: 0 <= j < |node.terms| ==> Handle(ctx, node.terms[j]) != Success(Known(Bool(Absorbing(node.logicalOperator))))
  }

  /** The terms from `i` on that do not fold to the identity value, in their
      original order, each with its type. */
  function Remaining(ctx: Ctx, node: Expr, i: nat): seq<Typed>
    requires node.Logical? && i <= |node.terms| && TermsSucceed(ctx, node)
    decreases |node.terms| - i
  {
    if i == |node.terms| then []
    else
      var p := Handle(ctx, node.terms[i]).value;
      (if p == Known(Bool(!Absorbing(node.logicalOperator))) then [] else [Typed(p, ctx.typeOf(node.terms[i]))])
      + Remaining(ctx, node, i + 1)
  }

  lemma {:induction false} ShortCircuitFrom(ctx: Ctx, node: Expr, i: nat, kept: seq<Typed>, k: nat)
    requires node.Logical? && i <= k < |node.terms|
    requires forall j :: i <= j < k ==> Handle(ctx, node.terms[j]).Success?
    requires Handle(ctx, node.terms[k]) == Success(Known(Bool(Absorbing(node.logicalOperator))))
    ensures LogicalFold(ctx, node, i, kept) == Success(Known(Bool(Absorbing(node.logicalOperator))))
    decreases k - i
  {
    if i < k {
      var p := Handle(ctx, node.terms[i]).value;
      if p != Known(Bool(Absorbing(node.logicalOperator))) {
        if p == Known(Bool(!Absorbing(node.logicalOperator))) {
          ShortCircuitFrom(ctx, node, i + 1, kept, k);
        } else {
          ShortCircuitFrom(ctx, node, i + 1, kept + [Typed(p, ctx.typeOf(node.terms[i]))], k);
        }
      }
    }
  }

  /** AND with a FALSE term is FALSE, OR with a TRUE term is TRUE, once the
      terms before it fold without error; the terms after it are never
      looked at. */
  lemma ShortCircuit(ctx: Ctx, node: Expr, k: nat)
    requires node.Logical? && k < |node.terms|
    requires forall j :: 0 <= j < k ==> Handle(ctx, node.terms[j]).Success?
    requires Handle(ctx, node.terms[k]) == Success(Known(Bool(Absorbing(node.logicalOperator))))
    ensures VisitLogical(ctx, node) == Success(Known(Bool(node.logicalOperator == Or)))
  {
    ShortCircuitFrom(ctx, node, 0, [], k);
  }

  lemma {:induction false} FoldWithoutAbsorbing(ctx: Ctx, node: Expr, i: nat, kept: seq<Typed>)
    requires node.Logical? && i <= |node.terms| && TermsSucceed(ctx, node) && NoneAbsorbing(ctx, node)
    ensures LogicalFold(ctx, node, i, kept) == Success(LogicalFinish(node.logicalOperator, kept + Remaining(ctx, node, i)))
    decreases |node.terms| - i
  {
    if i == |node.terms| {
      assert kept + [] == kept;
    } else {
      var p := Handle(ctx, node.terms[i]).value;
      var rest := Remaining(ctx, node, i + 1);
      if p == Known(Bool(!Absorbing(node.logicalOperator))) {
        FoldWithoutAbsorbing(ctx, node, i + 1, kept);
        assert Remaining(ctx, node, i) == [] + rest;
        assert [] + rest == rest;
      } else {
        var t := Typed(p, ctx.typeOf(node.terms[i]));
        FoldWithoutAbsorbing(ctx, node, i + 1, kept + [t]);
        assert (kept + [t]) + rest == kept + ([t] + rest);
      }
    }
  }

  /** With no deciding term, identity terms are dropped and the rest kept in
      their original order: none left gives the identity (TRUE for AND,
      FALSE for OR), one is returned as it is, all null gives null, and
      otherwise a residual node with the same operator is built from them. */
  lemma WithoutDecidingTerm(ctx: Ctx, node: Expr)
    requires node.Logical? && TermsSucceed(ctx, node) && NoneAbsorbing(ctx, node)
    ensures var rest := Remaining(ctx, node, 0);
            && (rest == [] ==> VisitLogical(ctx, node) == Success(Known(Bool(node.logicalOperator == And))))
            && (|rest| == 1 ==> VisitLogical(ctx, node) == Success(rest[0].folded))
            && (|rest| >= 2 && AllNull(rest) ==> VisitLogical(ctx, node) == Success(Known(Null)))
            && (|rest| >= 2 && !AllNull(rest) ==>
                  VisitLogical(ctx, node) == Success(Residual(Logical(node.logicalOperator, TypedExpressions(rest)))))
  {
    FoldWithoutAbsorbing(ctx, node, 0, []);
    assert [] + Remaining(ctx, node, 0) == Remaining(ctx, node, 0);
  }

  lemma {:induction false} AllIdentityRemainsEmpty(ctx: Ctx, node: Expr, i: nat)
    requires node.Logical? && i <= |node.terms|
    requires forall j :: 0 <= j < |node.terms| ==> Handle(ctx, node.terms[j]) == Success(Known(Bool(node.logicalOperator == And)))
    ensures TermsSucceed(ctx, node) && Remaining(ctx, node, i) == []
    decreases |node.terms| - i
  {
    if i < |node.terms| {
      AllIdentityRemainsEmpty(ctx, node, i + 1);
    }
  }

  /** AND of TRUE terms only (or of none) is TRUE; OR of FALSE terms only (or
      of none) is FALSE. */
  lemma AllIdentity(ctx: Ctx, node: Expr)
    requires node.Logical?
    requires forall j :: 0 <= j < |node.terms| ==> Handle(ctx, node.terms[j]) == Success(Known(Bool(node.logicalOperator == And)))
    ensures VisitLogical(ctx, node) == Success(Known(Bool(node.logicalOperator == And)))
  {
    AllIdentityRemainsEmpty(ctx, node, 0);
    WithoutDecidingTerm(ctx, node);
  }

  // ---------------------------------------------------------------------
  // IS NULL, NOT and arithmetic

  /** IS NULL is two-valued: a known argument gives TRUE exactly when it is
      null, and never null itself; a residual argument stays under IS NULL. */
  lemma IsNullIsTwoValued(ctx: Ctx, a: Expr)
    ensures var h := Handle(ctx, a);
            var r := VisitIsNull(ctx, IsNull(a));
            && (h.Failure? ==> r == Failure(h.error))
            && (forall v :: h == Success(Known(v)) ==> r == Success(Known(Bool(v.Null?))))
            && (forall x :: h == Success(Residual(x)) ==> r == Success(Residual(IsNull(x))))
            && (r.Success? && r.value.Known? ==> r.value.value.Bool?)
  {
  }

  /** NOT is three-valued negation: null stays null, a boolean is inverted,
      a residual is wrapped, and any other value fails the `(Boolean)` cast. */
  lemma NotIsKleeneNegation(ctx: Ctx, a: Expr)
    ensures var h := Handle(ctx, a);
            var r := VisitNot(ctx, Not(a));
            && (h.Failure? ==> r == Failure(h.error))
            && (h == Success(Known(Null)) ==> r == h)
            && (forall b: bool :: h == Success(Known(Bool(b))) ==> r == Success(Known(Bool(!b))))
            && (forall x :: h == Success(Residual(x)) ==> r == Success(Residual(Not(x))))
            && (forall v :: h == Success(Known(v)) && !v.Null? && !v.Bool? ==> r.Failure? && r.error.InternalError?)
  {
  }

  /** NOT NOT a folds to what `a` folds to, once `a` is null or a boolean. */
  lemma {:induction false} DoubleNegation(ctx: Ctx, a: Expr)
    requires Handle(ctx, a).Success? && Handle(ctx, a).value.Known?
    requires Handle(ctx, a).value.value.Null? || Handle(ctx, a).value.value.Bool?
    ensures Process(ctx, Not(Not(a))) == Handle(ctx, a)
  {
    NotIsKleeneNegation(ctx, a);
    assert Process(ctx, Not(a)) == VisitNot(ctx, Not(a));
    assert Handle(ctx, Not(a)) == VisitNot(ctx, Not(a));
    NotIsKleeneNegation(ctx, Not(a));
  }

  /** Unary minus: null stays null, a residual negation is unwrapped instead
      of being negated again, any other residual is wrapped, and a value goes
      to the NEGATION operator of the argument's type. */
  lemma ArithmeticNegationFolds(ctx: Ctx, a: Expr)
    ensures var h := Handle(ctx, a);
            var r := VisitArithmeticNegation(ctx, ArithmeticNegation(a));
            && (h.Failure? ==> r == Failure(h.error))
            && (h == Success(Known(Null)) ==> r == h)
            && (forall x :: h == Success(Residual(ArithmeticNegation(x))) ==> r == Success(Residual(x)))
            && (forall x :: h == Success(Residual(x)) && !x.ArithmeticNegation? ==> r == Success(Residual(ArithmeticNegation(x))))
            && (h.Success? && h.value.Known? && !h.value.value.Null? ==>
                  var n := InvokeOperator(ctx, NegationOp, [ctx.typeOf(a)], [h.value.value]);
                  (n.Failure? ==> r == Failure(n.error)) && (n.Success? ==> r == Success(Known(n.value))))
  {
  }

  /** Minus minus an unresolved operand folds to the operand. */
  lemma {:induction false} DoubleArithmeticNegation(ctx: Ctx, a: Expr, x: Expr)
    requires Handle(ctx, a) == Success(Residual(x)) && !x.ArithmeticNegation?
    ensures Process(ctx, ArithmeticNegation(ArithmeticNegation(a))) == Success(Residual(x))
  {
    ArithmeticNegationFolds(ctx, a);
    assert Process(ctx, ArithmeticNegation(a)) == Success(Residual(ArithmeticNegation(x)));
    assert Handle(ctx, ArithmeticNegation(a)) == Success(Residual(ArithmeticNegation(x)));
    ArithmeticNegationFolds(ctx, ArithmeticNegation(a));
  }

  /** A null left operand gives null without the right one being processed,
      so even a failing right operand does not matter; a null right operand
      gives null too; a residual operand keeps the operator and function. */
  lemma ArithmeticBinaryNulls(ctx: Ctx, op: ArithmeticOperator, f: ResolvedFunction, a: Expr, b: Expr)
    ensures var l := Handle(ctx, a);
            var rt := Handle(ctx, b);
            var r := VisitArithmeticBinary(ctx, ArithmeticBinary(op, f, a, b));
            && (l.Failure? ==> r == Failure(l.error))
            && (l == Success(Known(Null)) ==> r == Success(Known(Null)))
            && (l.Success? && l != Success(Known(Null)) && rt.Failure? ==> r == Failure(rt.error))
            && (l.Success? && rt == Success(Known(Null)) ==> r == Success(Known(Null)))
            && (l.Success? && rt.Success? && l.value != Known(Null) && rt.value != Known(Null)
                && (l.value.Residual? || rt.value.Residual?) ==>
                  r == Success(Residual(ArithmeticBinary(op, f, ToExpression(l.value, ctx.typeOf(a)), ToExpression(rt.value, ctx.typeOf(b))))))
  {
  }

  // ---------------------------------------------------------------------
  // Comparisons

  /** NOT_EQUAL is EQUAL on the same operands, negated: null stays null, a
      boolean is inverted, a residual EQUAL comes back as NOT_EQUAL. */
  lemma NotEqualNegatesEqual(ctx: Ctx, a: Expr, b: Expr)
    ensures var eq := VisitComparison(ctx, Comparison(Equal, a, b));
            var ne := VisitComparison(ctx, Comparison(NotEqual, a, b));
            && (eq.Failure? ==> ne == eq)
            && (eq == Success(Known(Null)) ==> ne == eq)
            && (forall x: bool :: eq == Success(Known(Bool(x))) ==> ne == Success(Known(Bool(!x))))
            && (forall l, r :: eq == Success(Residual(Comparison(Equal, l, r))) ==> ne == Success(Residual(Comparison(NotEqual, l, r))))
  {
    assert ProcessComparison(ctx, Comparison(NotEqual, a, b), Equal, a, b) == ProcessComparison(ctx, Comparison(Equal, a, b), Equal, a, b);
  }

  /** GREATER_THAN(a, b) is LESS_THAN(b, a), operands processed in that order;
      a residual comes back with the original operator and operand order. */
  lemma GreaterThanMirrorsLessThan(ctx: Ctx, a: Expr, b: Expr)
    ensures var lt := VisitComparison(ctx, Comparison(LessThan, b, a));
            var gt := VisitComparison(ctx, Comparison(GreaterThan, a, b));
            && (lt.Failure? ==> gt == lt)
            && (forall v :: lt == Success(Known(v)) ==> gt == lt)
            && (forall l, r :: lt == Success(Residual(Comparison(LessThan, l, r))) ==> gt == Success(Residual(Comparison(GreaterThan, r, l))))
  {
    assert ProcessComparison(ctx, Comparison(GreaterThan, a, b), LessThan, b, a) == ProcessComparison(ctx, Comparison(LessThan, b, a), LessThan, b, a);
  }

  /** The same for GREATER_THAN_OR_EQUAL and LESS_THAN_OR_EQUAL. */
  lemma GreaterThanOrEqualMirrorsLessThanOrEqual(ctx: Ctx, a: Expr, b: Expr)
    ensures var le := VisitComparison(ctx, Comparison(LessThanOrEqual, b, a));
            var ge := VisitComparison(ctx, Comparison(GreaterThanOrEqual, a, b));
            && (le.Failure? ==> ge == le)
            && (forall v :: le == Success(Known(v)) ==> ge == le)
            && (forall l, r :: le == Success(Residual(Comparison(LessThanOrEqual, l, r))) ==> ge == Success(Residual(Comparison(GreaterThanOrEqual, r, l))))
  {
    assert ProcessComparison(ctx, Comparison(GreaterThanOrEqual, a, b), LessThanOrEqual, b, a)
        == ProcessComparison(ctx, Comparison(LessThanOrEqual, b, a), LessThanOrEqual, b, a);
  }

  /** A residual comparison keeps the operator the caller wrote, and the
      operands keep their sides. */
  lemma ResidualKeepsOperator(ctx: Ctx, op: Operator, a: Expr, b: Expr)
    requires op != IsDistinctFrom
    requires VisitComparison(ctx, Comparison(op, a, b)).Success?
    requires VisitComparison(ctx, Comparison(op, a, b)).value.Residual?
    ensures var c := VisitComparison(ctx, Comparison(op, a, b)).value.expr;
            && c.Comparison? && c.operator == op
            && Handle(ctx, a).Success? && Handle(ctx, b).Success?
            && c.left == ToExpression(Handle(ctx, a).value, ctx.typeOf(a))
            && c.right == ToExpression(Handle(ctx, b).value, ctx.typeOf(b))
  {
    var node := Comparison(op, a, b);
    match op
    case Equal =>
    case LessThan =>
    case LessThanOrEqual =>
    case NotEqual =>
      assert ProcessComparison(ctx, node, Equal, a, b).Success?;
    case GreaterThan =>
      assert ProcessComparison(ctx, node, LessThan, b, a).Success?;
    case GreaterThanOrEqual =>
      assert ProcessComparison(ctx, node, LessThanOrEqual, b, a).Success?;
  }

  /** Over integers every operator, rewritten or not, gives the truth value of
      the comparison it names. */
  lemma IntegerComparison(ctx: Ctx, op: Operator, a: int, b: int)
    requires IntegerOperators(ctx)
    ensures VisitComparison(ctx, Comparison(op, Lit(a), Lit(b))) == Success(Known(Bool(Holds(op, a, b))))
  {
    var node := Comparison(op, Lit(a), Lit(b));
    match op
    case Equal =>
      ProcessIntegers(ctx, node, Equal, a, b);
    case NotEqual =>
      ProcessIntegers(ctx, node, Equal, a, b);
    case LessThan =>
      ProcessIntegers(ctx, node, LessThan, a, b);
    case LessThanOrEqual =>
      ProcessIntegers(ctx, node, LessThanOrEqual, a, b);
    case GreaterThan =>
      ProcessIntegers(ctx, node, LessThan, b, a);
    case GreaterThanOrEqual =>
      ProcessIntegers(ctx, node, LessThanOrEqual, b, a);
    case IsDistinctFrom =>
      var ts := [ctx.typeOf(Lit(a)), ctx.typeOf(Lit(b))];
      assert Handle(ctx, Lit(a)) == Success(Known(Long(a)));
      assert Handle(ctx, Lit(b)) == Success(Known(Long(b)));
      assert InvokeOperator(ctx, IsDistinctFromOp, ts, [Long(a), Long(b)]) == Success(Bool(a != b));
  }

  lemma ProcessIntegers(ctx: Ctx, node: Expr, op: Operator, x: int, y: int)
    requires IntegerOperators(ctx) && node.Comparison?
    requires (node.left == Lit(x) && node.right == Lit(y)) || (node.left == Lit(y) && node.right == Lit(x))
    requires op == Equal || op == LessThan || op == LessThanOrEqual
    ensures ProcessComparison(ctx, node, op, Lit(x), Lit(y)) == Success(Known(Bool(Holds(op, x, y))))
  {
    var ts := [ctx.typeOf(Lit(x)), ctx.typeOf(Lit(y))];
    assert Handle(ctx, Lit(x)) == Success(Known(Long(x)));
    assert Handle(ctx, Lit(y)) == Success(Known(Long(y)));
    if op == Equal {
      assert InvokeOperator(ctx, EqualOp, ts, [Long(x), Long(y)]) == Success(Bool(x == y));
    } else if op == LessThan {
      assert InvokeOperator(ctx, LessThanOp, ts, [Long(x), Long(y)]) == Success(Bool(x < y));
    } else {
      assert InvokeOperator(ctx, LessThanOrEqualOp, ts, [Long(x), Long(y)]) == Success(Bool(x <= y));
    }
  }

  /** IS DISTINCT FROM against null on one side and a residual on the other
      becomes a NOT NULL test on the residual side. */
  lemma DistinctFromNull(ctx: Ctx, a: Expr, b: Expr)
    requires Handle(ctx, a) == Success(Known(Null))
    requires Handle(ctx, b).Success? && Handle(ctx, b).value.Residual?
    ensures VisitComparison(ctx, Comparison(IsDistinctFrom, a, b)) == Success(Residual(Not(IsNull(Handle(ctx, b).value.expr))))
    ensures VisitComparison(ctx, Comparison(IsDistinctFrom, b, a)) == Success(Residual(Not(IsNull(Handle(ctx, b).value.expr))))
  {
  }

  /** flipComparison negates EQUAL and NOT_EQUAL on the same operands and
      mirrors the ordering operators with the operands swapped, agreeing
      with `Ir.Negate` and `Ir.Flip`; applied twice it gives the comparison
      back; IS DISTINCT FROM is refused. */
  lemma FlipComparisonLaws(op: Operator, a: Expr, b: Expr)
    ensures var f := FlipComparison(Comparison(op, a, b));
            && (f.Failure? <==> op == IsDistinctFrom)
            && ((op == Equal || op == NotEqual) ==> f == Success(Comparison(Negate(op).value, a, b)))
            && ((op == LessThan || op == LessThanOrEqual || op == GreaterThan || op == GreaterThanOrEqual) ==>
                  f == Success(Comparison(Flip(op), b, a)))
            && (f.Success? ==> f.value.Comparison? && FlipComparison(f.value) == Success(Comparison(op, a, b)))
  {
  }

  /** Which operand a comparison looks at first: EQUAL, NOT_EQUAL and
      LESS_THAN* stop at a null left operand and GREATER_THAN* at a null
      right one, whatever the other operand would do; IS DISTINCT FROM
      processes both operands, so a failing right one fails it. */
  lemma ComparisonNullOperand(ctx: Ctx, op: Operator, a: Expr, b: Expr)
    ensures (op == Equal || op == NotEqual || op == LessThan || op == LessThanOrEqual) && Handle(ctx, a) == Success(Known(Null)) ==>
              VisitComparison(ctx, Comparison(op, a, b)) == Success(Known(Null))
    ensures (op == GreaterThan || op == GreaterThanOrEqual) && Handle(ctx, b) == Success(Known(Null)) ==>
              VisitComparison(ctx, Comparison(op, a, b)) == Success(Known(Null))
    ensures Handle(ctx, a).Success? && Handle(ctx, b).Failure? ==>
              VisitComparison(ctx, Comparison(IsDistinctFrom, a, b)) == Failure(Handle(ctx, b).error)
  {
    var node := Comparison(op, a, b);
    if (op == GreaterThan || op == GreaterThanOrEqual) && Handle(ctx, b) == Success(Known(Null)) {
      assert ProcessComparison(ctx, node, Flip(op), b, a) == Success(Known(Null));
    }
  }

  // ---------------------------------------------------------------------
  // evaluate and optimize

  /** `evaluate` on integer literals answers with the reference meaning of
      the operator; IS DISTINCT FROM included. */
  lemma EvaluateComparison(ctx: Ctx, op: Operator, a: int, b: int)
    requires !ctx.optimize && IntegerOperators(ctx)
    ensures Evaluate(ctx, Comparison(op, Lit(a), Lit(b))) == Success(Bool(Holds(op, a, b)))
  {
    var node := Comparison(op, Lit(a), Lit(b));
    IntegerComparison(ctx, op, a, b);
    assert Process(ctx, node) == VisitComparison(ctx, node);
  }

  /** `evaluate` succeeds exactly when the expression folds to a value, and
      then gives that value; `optimize` gives the fold itself. */
  lemma EntryPoints(ctx: Ctx, e: Expr)
    ensures !ctx.optimize ==> (Evaluate(ctx, e).Success? <==> Handle(ctx, e).Success? && Handle(ctx, e).value.Known?)
    ensures !ctx.optimize && Evaluate(ctx, e).Success? ==> Process(ctx, e) == Success(Known(Evaluate(ctx, e).value))
    ensures ctx.optimize ==> Optimize(ctx, e) == Handle(ctx, e) && (Optimize(ctx, e).Failure? ==> Optimize(ctx, e).error.InternalError?)
  {
  }

  // ---------------------------------------------------------------------
  // BETWEEN

  /** SQL's three-valued AND, the reference for how the two bound
      comparisons combine. */
  function KleeneAnd(a: Value, b: Value): (r: Value)
    requires a.Null? || a.Bool?
    requires b.Null? || b.Bool?
    ensures r.Null? || r.Bool?
  {
    if a == Bool(false) || b == Bool(false) then Bool(false)
    else if a.Null? || b.Null? then Null
    else Bool(true)
  }

  /** The combination of the bound comparisons is three-valued AND: FALSE
      wins over null, null wins over TRUE. */
  lemma BetweenIsKleeneAnd(lower: Value, upper: Value)
    requires lower.Null? || lower.Bool?
    requires upper.Null? || upper.Bool?
    ensures BetweenCombine(lower, upper) == KleeneAnd(lower, upper)
    ensures lower.Null? ==> BetweenCombine(lower, upper) == (if upper == Bool(false) then Bool(false) else Null)
    ensures lower.Bool? && upper.Bool? ==> BetweenCombine(lower, upper) == Bool(lower.b && upper.b)
  {
  }

  /** A null probe gives null whatever the bounds. */
  lemma BetweenNullProbe(ctx: Ctx, probe: Expr, min: Expr, max: Expr)
    requires Handle(ctx, probe) == Success(Known(Null))
    ensures VisitBetween(ctx, Between(probe, min, max)) == Success(Known(Null))
  {
  }

  /** Over integers BETWEEN is `min <= v <= max`. */
  lemma IntegerBetween(ctx: Ctx, v: int, min: int, max: int)
    requires IntegerOperators(ctx)
    ensures VisitBetween(ctx, Between(Lit(v), Lit(min), Lit(max))) == Success(Known(Bool(min <= v <= max)))
  {
    assert Handle(ctx, Lit(v)) == Success(Known(Long(v)));
    assert Handle(ctx, Lit(min)) == Success(Known(Long(min)));
    assert Handle(ctx, Lit(max)) == Success(Known(Long(max)));
    assert InvokeOperator(ctx, LessThanOrEqualOp, [ctx.typeOf(Lit(min)), ctx.typeOf(Lit(v))], [Long(min), Long(v)]) == Success(Bool(min <= v));
    assert InvokeOperator(ctx, LessThanOrEqualOp, [ctx.typeOf(Lit(v)), ctx.typeOf(Lit(max))], [Long(v), Long(max)]) == Success(Bool(v <= max));
  }

  /** A null lower bound: FALSE when the value is above the upper bound, null
      otherwise. */
  lemma IntegerBetweenNullMin(ctx: Ctx, v: int, max: int)
    requires IntegerOperators(ctx)
    ensures VisitBetween(ctx, Between(Lit(v), Constant(BigintType, Null), Lit(max)))
            == Success(Known(if v <= max then Null else Bool(false)))
  {
    assert Handle(ctx, Lit(v)) == Success(Known(Long(v)));
    assert Handle(ctx, Constant(BigintType, Null)) == Success(Known(Null));
    assert Handle(ctx, Lit(max)) == Success(Known(Long(max)));
    assert InvokeOperator(ctx, LessThanOrEqualOp, [ctx.typeOf(Lit(v)), ctx.typeOf(Lit(max))], [Long(v), Long(max)]) == Success(Bool(v <= max));
  }

  // ---------------------------------------------------------------------
  // Searched CASE

  /** The operand of clause `j` folds to a value other than TRUE. */
  predicate NotTrueOperand(ctx: Ctx, node: Expr, j: nat)
    requires node.SearchedCase? && j < |node.whenClauses|
  {
    Handle(ctx, node.whenClauses[j].operand).Success?
    && Handle(ctx, node.whenClauses[j].operand).value.Known?
    && Handle(ctx, node.whenClauses[j].operand).value.value != Bool(true)
  }

  lemma {:induction false} NoMatchFrom(ctx: Ctx, node: Expr, i: nat)
    requires node.SearchedCase? && i <= |node.whenClauses|
    requires forall j :: i <= j < |node.whenClauses| ==> NotTrueOperand(ctx, node, j)
    ensures SearchedFold(ctx, node, i, []) == Success(CaseScan([], None))
    decreases |node.whenClauses| - i
  {
    if i < |node.whenClauses| {
      NoMatchFrom(ctx, node, i + 1);
      assert NotTrueOperand(ctx, node, i);
      assert SearchedFold(ctx, node, i, []) == SearchedFold(ctx, node, i + 1, []);
    }
  }

  /** Clauses whose condition is known and not TRUE are dropped; when that is
      every clause, the CASE is its default (null when there is none). */
  lemma SearchedNoMatch(ctx: Ctx, node: Expr)
    requires node.SearchedCase?
    requires forall j :: 0 <= j < |node.whenClauses| ==> NotTrueOperand(ctx, node, j)
    ensures VisitSearchedCase(ctx, node) == HandleOption(ctx, node, node.defaultValue)
    ensures node.defaultValue.None? ==> VisitSearchedCase(ctx, node) == Success(Known(Null))
  {
    NoMatchFrom(ctx, node, 0);
  }

  lemma {:induction false} FirstTrueFrom(ctx: Ctx, node: Expr, i: nat, k: nat)
    requires node.SearchedCase? && i <= k < |node.whenClauses|
    requires forall j :: i <= j < k ==> NotTrueOperand(ctx, node, j)
    requires Handle(ctx, node.whenClauses[k].operand) == Success(Known(Bool(true)))
    ensures var result := Handle(ctx, node.whenClauses[k].result);
            SearchedFold(ctx, node, i, []) == if result.Failure? then Failure(result.error) else Success(CaseScan([], Some(result.value)))
    decreases k - i
  {
    if i < k {
      FirstTrueFrom(ctx, node, i + 1, k);
      assert NotTrueOperand(ctx, node, i);
      assert SearchedFold(ctx, node, i, []) == SearchedFold(ctx, node, i + 1, []);
    }
  }

  /** When every earlier condition is known and not TRUE, the first TRUE
      condition makes the CASE the value of that clause's result. */
  lemma SearchedFirstTrue(ctx: Ctx, node: Expr, k: nat)
    requires node.SearchedCase? && k < |node.whenClauses|
    requires forall j :: 0 <= j < k ==> NotTrueOperand(ctx, node, j)
    requires Handle(ctx, node.whenClauses[k].operand) == Success(Known(Bool(true)))
    ensures VisitSearchedCase(ctx, node) == Handle(ctx, node.whenClauses[k].result)
  {
    FirstTrueFrom(ctx, node, 0, k);
  }

  lemma {:induction false} LaterClausesIgnoredFrom(ctx: Ctx, node: Expr, other: Expr, i: nat, k: nat, clauses: seq<WhenClause>)
    requires node.SearchedCase? && other.SearchedCase?
    requires i <= k < |node.whenClauses| && k < |other.whenClauses|
    requires node.whenClauses[..k + 1] == other.whenClauses[..k + 1]
    requires Handle(ctx, node.whenClauses[k].operand) == Success(Known(Bool(true)))
    ensures SearchedFold(ctx, node, i, clauses) == SearchedFold(ctx, other, i, clauses)
    ensures SearchedFold(ctx, node, i, clauses).Success? ==> SearchedFold(ctx, node, i, clauses).value.newDefault.Some?
    decreases k - i
  {
    assert node.whenClauses[i] == node.whenClauses[..k + 1][i] == other.whenClauses[i];
    if i < k {
      var w := node.whenClauses[i];
      var operand := Handle(ctx, w.operand);
      if operand.Success? && operand.value.Residual? {
        var result := Handle(ctx, w.result);
        if result.Success? {
          LaterClausesIgnoredFrom(ctx, node, other, i + 1, k,
                                  clauses + [WhenClause(operand.value.expr, ToExpression(result.value, ctx.typeOf(w.result)))]);
        }
      } else {
        LaterClausesIgnoredFrom(ctx, node, other, i + 1, k, clauses);
      }
    }
  }

  /** The first clause whose condition folds to TRUE ends the scan: the
      clauses after it and the default are never visited, so any CASE of the
      same type that agrees up to that clause folds the same way. */
  lemma SearchedLaterClausesIgnored(ctx: Ctx, node: Expr, other: Expr, k: nat)
    requires node.SearchedCase? && other.SearchedCase? && ctx.typeOf(node) == ctx.typeOf(other)
    requires k < |node.whenClauses| && k < |other.whenClauses|
    requires node.whenClauses[..k + 1] == other.whenClauses[..k + 1]
    requires Handle(ctx, node.whenClauses[k].operand) == Success(Known(Bool(true)))
    ensures VisitSearchedCase(ctx, node) == VisitSearchedCase(ctx, other)
  {
    LaterClausesIgnoredFrom(ctx, node, other, 0, k, []);
  }

  // ---------------------------------------------------------------------
  // COALESCE

  /** Every operand kept while scanning is residual. */
  predicate AllResidual(fs: seq<Folded>)
  {
    forall i :: 0 <= i < |fs| ==> fs[i].Residual?
  }

  /** The deterministic residuals among the operands. */
  ghost function DeterministicResiduals(fs: seq<Folded>): set<Expr>
  {
    set i | 0 <= i < |fs| && fs[i].Residual? && IsDeterministic(fs[i].expr) :: fs[i].expr
  }

  /** No deterministic residual occurs twice. */
  predicate NoRepeatedDeterministic(fs: seq<Folded>)
  {
    forall i, j :: 0 <= i < j < |fs| && fs[i].Residual? && fs[j].Residual? && IsDeterministic(fs[i].expr) ==>
      fs[i].expr != fs[j].expr
  }

  /** What is kept while scanning: residual operands only, no deterministic
      one twice, and `seen` holds exactly the deterministic ones. */
  ghost predicate ScanInvariant(kept: seq<Folded>, seen: set<Expr>)
  {
    AllResidual(kept) && seen == DeterministicResiduals(kept) && NoRepeatedDeterministic(kept)
  }

  /** The operand list of a folded COALESCE: residuals, except possibly a last
      operand known to be non-null; never a null; no deterministic residual
      twice. */
  predicate WellFormedOperands(fs: seq<Folded>)
  {
    && (forall i :: 0 <= i < |fs| - 1 ==> fs[i].Residual?)
    && (forall i :: 0 <= i < |fs| ==> fs[i] != Known(Null))
    && NoRepeatedDeterministic(fs)
  }

  /** Adding one residual operand keeps the invariant, keeps what was there
      and leaves the operand represented. */
  lemma AddUniqueKeeps(kept: seq<Folded>, seen: set<Expr>, x: Expr)
    requires ScanInvariant(kept, seen)
    ensures var s := AddUnique(kept, seen, x);
            ScanInvariant(s.kept, s.seen) && kept <= s.kept && Residual(x) in s.kept
            && (!IsDeterministic(x) ==> |s.kept| == |kept| + 1)
  {
    var s := AddUnique(kept, seen, x);
    if !IsDeterministic(x) {
      assert s.kept[|kept|] == Residual(x);
      assert DeterministicResiduals(s.kept) == DeterministicResiduals(kept) by {
        forall y | y in DeterministicResiduals(s.kept) ensures y in DeterministicResiduals(kept) {
          var i :| 0 <= i < |s.kept| && s.kept[i].Residual? && IsDeterministic(s.kept[i].expr) && s.kept[i].expr == y;
          assert i < |kept|;
          assert kept[i] == s.kept[i];
        }
        forall y | y in DeterministicResiduals(kept) ensures y in DeterministicResiduals(s.kept) {
          var i :| 0 <= i < |kept| && kept[i].Residual? && IsDeterministic(kept[i].expr) && kept[i].expr == y;
          assert s.kept[i] == kept[i];
        }
      }
    } else if x in seen {
      var i :| 0 <= i < |kept| && kept[i].Residual? && IsDeterministic(kept[i].expr) && kept[i].expr == x;
      assert kept[i] == Residual(x);
    } else {
      assert s.kept[|kept|] == Residual(x);
      assert DeterministicResiduals(s.kept) == DeterministicResiduals(kept) + {x} by {
        forall y | y in DeterministicResiduals(s.kept) ensures y in DeterministicResiduals(kept) + {x} {
          var i :| 0 <= i < |s.kept| && s.kept[i].Residual? && IsDeterministic(s.kept[i].expr) && s.kept[i].expr == y;
          if i < |kept| {
            assert kept[i] == s.kept[i];
          }
        }
        forall y | y in DeterministicResiduals(kept) + {x} ensures y in DeterministicResiduals(s.kept) {
          if y in DeterministicResiduals(kept) {
            var i :| 0 <= i < |kept| && kept[i].Residual? && IsDeterministic(kept[i].expr) && kept[i].expr == y;
            assert s.kept[i] == kept[i];
          } else {
            assert s.kept[|kept|].expr == y;
          }
        }
      }
      forall i, j | 0 <= i < j < |s.kept| && s.kept[i].Residual? && s.kept[j].Residual? && IsDeterministic(s.kept[i].expr)
        ensures s.kept[i].expr != s.kept[j].expr
      {
        if j == |kept| {
          assert s.kept[i] == kept[i];
          assert kept[i].expr in DeterministicResiduals(kept);
        } else {
          assert s.kept[i] == kept[i] && s.kept[j] == kept[j];
        }
      }
    }
  }

  /** Splicing in the operands of a nested residual COALESCE keeps the
      invariant; when no non-null constant among them stops the scan, every
      one of them is represented. */
  lemma {:induction false} NestedScanKeeps(nested: seq<Expr>, j: nat, kept: seq<Folded>, seen: set<Expr>)
    requires j <= |nested| && ScanInvariant(kept, seen)
    ensures var s := NestedScan(nested, j, kept, seen);
            ScanInvariant(s.kept, s.seen) && kept <= s.kept
            && (!s.stopped ==> forall k :: j <= k < |nested| ==> Residual(nested[k]) in s.kept)
    decreases |nested| - j
  {
    if j < |nested| {
      var x := nested[j];
      AddUniqueKeeps(kept, seen, x);
      var n := AddUnique(kept, seen, x);
      if !(x.Constant? && x.constantValue != Null) {
        NestedScanKeeps(nested, j + 1, n.kept, n.seen);
        var s := NestedScan(nested, j + 1, n.kept, n.seen);
        assert Residual(x) in s.kept by {
          var i :| 0 <= i < |n.kept| && n.kept[i] == Residual(x);
          assert s.kept[i] == n.kept[i];
        }
      }
    }
  }

  lemma {:induction false} CoalesceFoldShape(ctx: Ctx, node: Expr, i: nat, kept: seq<Folded>, seen: set<Expr>)
    requires node.Coalesce? && i <= |node.operands| && ScanInvariant(kept, seen)
    ensures var r := CoalesceFold(ctx, node, i, kept, seen);
            r.Success? ==> WellFormedOperands(r.value) && kept <= r.value
    decreases |node.operands| - i
  {
    if i < |node.operands| {
      var v := Handle(ctx, node.operands[i]);
      if v.Success? {
        var f := v.value;
        if f.Residual? && f.expr.Coalesce? {
          NestedScanKeeps(f.expr.operands, 0, kept, seen);
          var s := NestedScan(f.expr.operands, 0, kept, seen);
          if !s.stopped {
            CoalesceFoldShape(ctx, node, i + 1, s.kept, s.seen);
          }
        } else if f.Residual? {
          AddUniqueKeeps(kept, seen, f.expr);
          var s := AddUnique(kept, seen, f.expr);
          CoalesceFoldShape(ctx, node, i + 1, s.kept, s.seen);
        } else if f.value != Null {
          var r := kept + [f];
          forall a, b | 0 <= a < b < |r| && r[a].Residual? && r[b].Residual? && IsDeterministic(r[a].expr)
            ensures r[a].expr != r[b].expr
          {
            assert r[a] == kept[a] && r[b] == kept[b];
          }
        } else {
          CoalesceFoldShape(ctx, node, i + 1, kept, seen);
        }
      }
    }
  }

  /** The operands a COALESCE folds to: residuals only, except possibly a last
      one that is a known non-null value; never null; each deterministic
      residual once. */
  lemma CoalesceOperandsWellFormed(ctx: Ctx, node: Expr)
    requires node.Coalesce?
    ensures ProcessOperands(ctx, node).Success? ==> WellFormedOperands(ProcessOperands(ctx, node).value)
  {
    CoalesceFoldShape(ctx, node, 0, [], {});
  }

  lemma {:induction false} LaterOperandsIgnoredFrom(ctx: Ctx, node: Expr, other: Expr, i: nat, k: nat, kept: seq<Folded>, seen: set<Expr>)
    requires node.Coalesce? && other.Coalesce?
    requires i <= k < |node.operands| && other.operands == node.operands[..k + 1]
    requires Handle(ctx, node.operands[k]).Success? && Handle(ctx, node.operands[k]).value.Known?
    requires Handle(ctx, node.operands[k]).value.value != Null
    ensures CoalesceFold(ctx, node, i, kept, seen) == CoalesceFold(ctx, other, i, kept, seen)
    decreases k - i
  {
    assert other.operands[i] == node.operands[i];
    if i < k {
      var v := Handle(ctx, node.operands[i]);
      if v.Success? {
        var f := v.value;
        if f.Residual? && f.expr.Coalesce? {
          var s := NestedScan(f.expr.operands, 0, kept, seen);
          LaterOperandsIgnoredFrom(ctx, node, other, i + 1, k, s.kept, s.seen);
        } else if f.Residual? {
          var s := AddUnique(kept, seen, f.expr);
          LaterOperandsIgnoredFrom(ctx, node, other, i + 1, k, s.kept, s.seen);
        } else {
          LaterOperandsIgnoredFrom(ctx, node, other, i + 1, k, kept, seen);
        }
      }
    }
  }

  /** Processing stops at the first operand known to be non-null: the operands
      after it are never looked at, even one that would fail. */
  lemma CoalesceStopsAtKnownValue(ctx: Ctx, node: Expr, k: nat)
    requires node.Coalesce? && k < |node.operands|
    requires Handle(ctx, node.operands[k]).Success? && Handle(ctx, node.operands[k]).value.Known?
    requires Handle(ctx, node.operands[k]).value.value != Null
    ensures ProcessOperands(ctx, node) == ProcessOperands(ctx, Coalesce(node.operands[..k + 1]))
  {
    LaterOperandsIgnoredFrom(ctx, node, Coalesce(node.operands[..k + 1]), 0, k, [], {});
  }

  /** `COALESCE(NULL, 5, x)` is 5 whatever `x` is. */
  lemma CoalesceExample(ctx: Ctx, x: Expr)
    ensures VisitCoalesce(ctx, Coalesce([Constant(BigintType, Null), Lit(5), x])) == Success(Known(Long(5)))
  {
    var node := Coalesce([Constant(BigintType, Null), Lit(5), x]);
    assert Handle(ctx, node.operands[0]) == Success(Known(Null));
    assert Handle(ctx, node.operands[1]) == Success(Known(Long(5)));
    assert [] + [Known(Long(5))] == [Known(Long(5))];
    assert CoalesceFold(ctx, node, 1, [], {}) == Success([Known(Long(5))]);
    assert CoalesceFold(ctx, node, 0, [], {}) == CoalesceFold(ctx, node, 1, [], {});
  }

  // ---------------------------------------------------------------------
  // IN

  /** A list of bigint constants, each null or an integer. */
  predicate IntegerList(es: seq<Expr>)
  {
    forall i :: 0 <= i < |es| ==> es[i].Constant? && (es[i].constantValue.Null? || es[i].constantValue.Long?)
  }

  /** SQL's IN over integers: TRUE when some element equals the probe,
      otherwise null when some element is null, otherwise FALSE. */
  function InReference(v: int, es: seq<Expr>): Value
    requires IntegerList(es)
  {
    if exists i :: 0 <= i < |es| && es[i].constantValue == Long(v) then Bool(true)
    else if exists i :: 0 <= i < |es| && es[i].constantValue == Null then Null
    else Bool(false)
  }

  /** A null probe gives null, whatever the list. */
  lemma InNullProbe(ctx: Ctx, node: Expr, policy: NullPolicy)
    requires node.In? && Handle(ctx, node.probe) == Success(Known(Null))
    ensures VisitIn(ctx, node, policy) == Success(Known(Null))
  {
  }

  lemma {:induction false} InFoldIntegers(ctx: Ctx, node: Expr, v: int, policy: NullPolicy, i: nat, scan: InScan)
    requires IntegerOperators(ctx) && node.In? && node.probe == Lit(v) && IntegerList(node.valueList)
    requires i <= |node.valueList| && |scan.values| == |scan.types| && !scan.hasUnresolved
    ensures var r := InFold(ctx, node, Known(Long(v)), policy, i, scan);
            && r.Success? && !r.value.hasUnresolved
            && (r.value.found <==> scan.found || exists j :: i <= j < |node.valueList| && node.valueList[j].constantValue == Long(v))
            && (r.value.hasNull <==> scan.hasNull || exists j :: i <= j < |node.valueList| && node.valueList[j].constantValue == Null)
    decreases |node.valueList| - i
  {
    if i < |node.valueList| {
      var item := node.valueList[i];
      var t := ctx.typeOf(node.probe);
      assert Process(ctx, item) == Success(Known(item.constantValue));
      if item.constantValue.Null? {
        assert InCompare(ctx, node, Long(v), Null) == Success(Null);
      } else {
        var n := item.constantValue.n;
        assert InvokeOperator(ctx, EqualOp, [t, t], [Long(v), Long(n)]) == Success(Bool(v == n));
        assert InCompare(ctx, node, Long(v), Long(n)) == Success(Bool(v == n));
      }
      var c := InCompare(ctx, node, Long(v), item.constantValue).value;
      var next :=
        if c.Null? && policy == KeepNulls then
          scan.(hasNull := true, values := scan.values + [Known(item.constantValue)], types := scan.types + [ctx.typeOf(item)])
        else if c.Null? then scan.(hasNull := true)
        else if c.b then scan.(found := true)
        else scan;
      InFoldIntegers(ctx, node, v, policy, i + 1, next);
    }
  }

  /** Over integer constants IN agrees with SQL's definition on both paths,
      the set lookup for an all-non-null list and the element-by-element scan
      otherwise, under either null policy. */
  lemma IntegerIn(ctx: Ctx, node: Expr, v: int, policy: NullPolicy)
    requires IntegerOperators(ctx) && node.In? && node.probe == Lit(v) && IntegerList(node.valueList)
    ensures VisitIn(ctx, node, policy) == Success(Known(InReference(v, node.valueList)))
  {
    var t := ctx.typeOf(node.probe);
    var list := node.valueList;
    assert Handle(ctx, node.probe) == Success(Known(Long(v)));
    if !IsComplex(t) && NonNullConstants(list) {
      if exists i :: 0 <= i < |list| && list[i].constantValue == Long(v) {
        var i :| 0 <= i < |list| && list[i].constantValue == Long(v);
        assert InvokeOperator(ctx, EqualOp, [t, t], [Long(v), Long(v)]) == Success(Bool(true));
      } else {
        forall i | 0 <= i < |list|
          ensures InvokeOperator(ctx, EqualOp, [t, t], [Long(v), list[i].constantValue]) != Success(Bool(true))
        {
          assert InvokeOperator(ctx, EqualOp, [t, t], [Long(v), Long(list[i].constantValue.n)]) == Success(Bool(v == list[i].constantValue.n));
        }
      }
    } else {
      InFoldIntegers(ctx, node, v, policy, 0, InScan(false, false, false, [], []));
    }
  }

  lemma {:induction false} InFoldFails(ctx: Ctx, node: Expr, v: int, policy: NullPolicy, i: nat, k: nat, scan: InScan)
    requires IntegerOperators(ctx) && node.In? && node.probe == Lit(v)
    requires i <= k < |node.valueList| && IntegerList(node.valueList[..k])
    requires Process(ctx, node.valueList[k]).Failure?
    requires |scan.values| == |scan.types|
    ensures InFold(ctx, node, Known(Long(v)), policy, i, scan) == Failure(Process(ctx, node.valueList[k]).error)
    decreases k - i
  {
    if i < k {
      var item := node.valueList[i];
      assert item == node.valueList[..k][i];
      var t := ctx.typeOf(node.probe);
      assert Process(ctx, item) == Success(Known(item.constantValue));
      if item.constantValue.Null? {
        assert InCompare(ctx, node, Long(v), Null) == Success(Null);
      } else {
        var n := item.constantValue.n;
        assert InvokeOperator(ctx, EqualOp, [t, t], [Long(v), Long(n)]) == Success(Bool(v == n));
        assert InCompare(ctx, node, Long(v), Long(n)) == Success(Bool(v == n));
      }
      var c := InCompare(ctx, node, Long(v), item.constantValue).value;
      var next :=
        if c.Null? && policy == KeepNulls then
          scan.(hasNull := true, values := scan.values + [Known(item.constantValue)], types := scan.types + [ctx.typeOf(item)])
        else if c.Null? then scan.(hasNull := true)
        else if c.b then scan.(found := true)
        else scan;
      InFoldFails(ctx, node, v, policy, i + 1, k, next);
    }
  }

  /** IN does not short-circuit: every element is evaluated, so an element
      that fails makes the whole predicate fail even when an earlier element
      already matched. */
  lemma InEvaluatesEveryElement(ctx: Ctx, node: Expr, v: int, k: nat, policy: NullPolicy)
    requires IntegerOperators(ctx) && node.In? && node.probe == Lit(v)
    requires k < |node.valueList| && IntegerList(node.valueList[..k])
    requires Process(ctx, node.valueList[k]).Failure?
    ensures VisitIn(ctx, node, policy) == Failure(Process(ctx, node.valueList[k]).error)
  {
    assert Handle(ctx, node.probe) == Success(Known(Long(v)));
    assert !node.valueList[k].Constant?;
    InFoldFails(ctx, node, v, policy, 0, k, InScan(false, false, false, [], []));
  }

  /** How the IN loop carries element `e` into the residual list: a constant
      next to an unresolved probe is carried as it is, any other element is
      processed first. Either way it is carried as `c`. */
  predicate ElementFoldsTo(ctx: Ctx, value: Folded, e: Expr, c: Expr)
  {
    if value.Residual? && e.Constant? then e == c else Process(ctx, e) == Success(Residual(c))
  }

  /** One element carried as `c`. */
  lemma SameElementStep(ctx: Ctx, node: Expr, value: Folded, c: Expr, policy: NullPolicy, i: nat, scan: InScan)
    returns (next: InScan)
    requires node.In? && i < |node.valueList| && |scan.values| == |scan.types|
    requires ElementFoldsTo(ctx, value, node.valueList[i], c)
    ensures |next.values| == |next.types| && next.found == scan.found && next.values == scan.values + [Residual(c)]
    ensures scan.hasUnresolved || value.Known? ==> next.hasUnresolved
    ensures InFold(ctx, node, value, policy, i, scan) == InFold(ctx, node, value, policy, i + 1, next)
  {
    var item := node.valueList[i];
    next := if value.Residual? && item.Constant? then scan.(values := scan.values + [Residual(c)], types := scan.types + [ctx.typeOf(item)])
            else scan.(hasUnresolved := true, values := scan.values + [Residual(c)], types := scan.types + [ctx.typeOf(item)]);
  }

  lemma {:induction false} SameElementFold(ctx: Ctx, node: Expr, value: Folded, c: Expr, policy: NullPolicy, i: nat, scan: InScan)
    requires node.In? && i <= |node.valueList| && |scan.values| == |scan.types|
    requires forall j :: 0 <= j < |node.valueList| ==> ElementFoldsTo(ctx, value, node.valueList[j], c)
    ensures var r := InFold(ctx, node, value, policy, i, scan);
            && r.Success? && r.value.found == scan.found
            && (scan.hasUnresolved || (value.Known? && i < |node.valueList|) ==> r.value.hasUnresolved)
            && r.value.values == scan.values + seq(|node.valueList| - i, _ => Residual(c))
    decreases |node.valueList| - i
  {
    if i == |node.valueList| {
      assert scan.values + seq(0, _ => Residual(c)) == scan.values;
    } else {
      var next := SameElementStep(ctx, node, value, c, policy, i, scan);
      SameElementFold(ctx, node, value, c, policy, i + 1, next);
      assert (scan.values + [Residual(c)]) + seq(|node.valueList| - (i + 1), _ => Residual(c))
          == scan.values + seq(|node.valueList| - i, _ => Residual(c));
    }
  }

  lemma {:induction false} DistinctOfRepeats(c: Expr, n: nat, seen: set<Expr>)
    requires c in seen
    ensures DistinctDeterministic(seq(n, _ => c), seen) == []
  {
    if n > 0 {
      assert seq(n, _ => c)[1..] == seq(n - 1, _ => c);
      DistinctOfRepeats(c, n - 1, seen);
    }
  }

  lemma {:induction false} NoNonDeterministicRepeats(c: Expr, n: nat)
    requires IsDeterministic(c)
    ensures NonDeterministic(seq(n, _ => c)) == []
  {
    if n > 0 {
      assert seq(n, _ => c)[1..] == seq(n - 1, _ => c);
      NoNonDeterministicRepeats(c, n - 1);
    }
  }

  /** When every element of the list is carried as the same deterministic
      expression `c`, the duplicates collapse and IN becomes an EQUAL
      comparison of the probe with `c`: `x IN (1, 1)` becomes `x = 1`, and
      `2 IN (y)` becomes `2 = y`. */
  lemma InSingleValueBecomesEqual(ctx: Ctx, node: Expr, value: Folded, c: Expr, policy: NullPolicy)
    requires node.In? && Handle(ctx, node.probe) == Success(value) && value != Known(Null)
    requires IsDeterministic(c) && |node.valueList| >= 1
    requires forall j :: 0 <= j < |node.valueList| ==> ElementFoldsTo(ctx, value, node.valueList[j], c)
    ensures VisitIn(ctx, node, policy) == Success(Residual(Comparison(Equal, ToExpression(value, ctx.typeOf(node.probe)), c)))
  {
    var n := |node.valueList|;
    assert ElementFoldsTo(ctx, value, node.valueList[0], c);
    assert value.Known? ==> !NonNullConstants(node.valueList);
    SameElementFold(ctx, node, value, c, policy, 0, InScan(false, false, value.Residual?, [], []));
    var scan := InFold(ctx, node, value, policy, 0, InScan(false, false, value.Residual?, [], [])).value;
    var es := ToExpressions(scan.values, scan.types);
    assert es == seq(n, _ => c);
    RepeatsCollapse(c, n);
  }

  /** A list that is one deterministic expression, repeated, deduplicates to
      that expression. */
  lemma RepeatsCollapse(c: Expr, n: nat)
    requires IsDeterministic(c) && n >= 1
    ensures DistinctDeterministic(seq(n, _ => c), {}) + NonDeterministic(seq(n, _ => c)) == [c]
  {
    var es := seq(n, _ => c);
    assert es[1..] == seq(n - 1, _ => c);
    DistinctOfRepeats(c, n - 1, {c});
    var none: set<Expr> := {};
    assert none + {c} == {c};
    NoNonDeterministicRepeats(c, n);
  }

  // ---------------------------------------------------------------------
  // A null element of a residual IN list

  /** With a known probe and the policy as written, the residual list holds
      unresolved elements only: an element whose comparison was null is not
      carried into it. */
  lemma {:induction false} AsWrittenDropsNullElements(ctx: Ctx, node: Expr, value: Folded, i: nat, scan: InScan)
    requires node.In? && value.Known? && i <= |node.valueList| && |scan.values| == |scan.types|
    requires AllResidual(scan.values)
    ensures var r := InFold(ctx, node, value, AsWritten, i, scan);
            r.Success? ==> AllResidual(r.value.values)
    decreases |node.valueList| - i
  {
    if i < |node.valueList| {
      var item := node.valueList[i];
      var inValue := Process(ctx, item);
      if inValue.Success? {
        if inValue.value.Residual? {
          var next := scan.(hasUnresolved := true, values := scan.values + [inValue.value], types := scan.types + [ctx.typeOf(item)]);
          AsWrittenDropsNullElements(ctx, node, value, i + 1, next);
        } else {
          var c := InCompare(ctx, node, value.value, inValue.value.value);
          if c.Success? {
            var next := if c.value.Null? then scan.(hasNull := true) else if c.value.b then scan.(found := true) else scan;
            AsWrittenDropsNullElements(ctx, node, value, i + 1, next);
          }
        }
      }
    }
  }

  /** Every known element of a kept IN list compares null with the probe. */
  predicate KnownElementsCompareNull(ctx: Ctx, node: Expr, probe: Value, values: seq<Folded>)
    requires node.In?
  {
    forall j :: 0 <= j < |values| && values[j].Known? ==> InCompare(ctx, node, probe, values[j].value) == Success(Null)
  }

  predicate HasKnownElement(values: seq<Folded>)
  {
    exists j :: 0 <= j < |values| && values[j].Known?
  }

  /** The corrected policy: with a known probe, the known elements of the
      kept list are exactly elements that compared null with the probe, and
      one is there exactly when some comparison was null. */
  lemma {:induction false} KeepNullsRetainsNullElements(ctx: Ctx, node: Expr, value: Folded, i: nat, scan: InScan)
    requires node.In? && value.Known? && i <= |node.valueList| && |scan.values| == |scan.types|
    requires KnownElementsCompareNull(ctx, node, value.value, scan.values)
    requires scan.hasNull <==> HasKnownElement(scan.values)
    ensures var r := InFold(ctx, node, value, KeepNulls, i, scan);
            r.Success? ==> && KnownElementsCompareNull(ctx, node, value.value, r.value.values)
                           && (r.value.hasNull <==> HasKnownElement(r.value.values))
    decreases |node.valueList| - i
  {
    if i < |node.valueList| {
      var item := node.valueList[i];
      var inValue := Process(ctx, item);
      if inValue.Success? {
        if inValue.value.Residual? {
          var next := scan.(hasUnresolved := true, values := scan.values + [inValue.value], types := scan.types + [ctx.typeOf(item)]);
          assert forall j :: 0 <= j < |scan.values| ==> next.values[j] == scan.values[j];
          assert HasKnownElement(next.values) ==> HasKnownElement(scan.values);
          KeepNullsRetainsNullElements(ctx, node, value, i + 1, next);
        } else {
          var c := InCompare(ctx, node, value.value, inValue.value.value);
          if c.Success? {
            if c.value.Null? {
              var next := scan.(hasNull := true, values := scan.values + [inValue.value], types := scan.types + [ctx.typeOf(item)]);
              assert forall j :: 0 <= j < |scan.values| ==> next.values[j] == scan.values[j];
              assert next.values[|scan.values|] == inValue.value;
              KeepNullsRetainsNullElements(ctx, node, value, i + 1, next);
            } else {
              var next := if c.value.b then scan.(found := true) else scan;
              KeepNullsRetainsNullElements(ctx, node, value, i + 1, next);
            }
          }
        }
      }
    }
  }

  /** The name an operator resolves to in the sample contexts below. */
  function OperatorName(op: OperatorType): FunctionName
  {
    match op
    case EqualOp => BuiltinName("$operator$equal")
    case LessThanOp => BuiltinName("$operator$less_than")
    case LessThanOrEqualOp => BuiltinName("$operator$less_than_or_equal")
    case IsDistinctFromOp => BuiltinName("$operator$is_distinct_from")
    case NegationOp => BuiltinName("$operator$negation")
    case SubscriptOp => BuiltinName("$operator$subscript")
  }

  function SampleResolve(op: OperatorType, types: seq<Type>): ResolvedFunction
  {
    ResolvedFunction(OperatorName(op), true, [])
  }

  /** Integer comparison and nothing else. */
  function SampleInvoke(f: ResolvedFunction, args: seq<Value>): Result<Value, Failure>
  {
    if |args| == 2 && args[0].Long? && args[1].Long? then
      var a := args[0].n;
      var b := args[1].n;
      if f.functionName == OperatorName(EqualOp) then Success(Bool(a == b))
      else if f.functionName == OperatorName(LessThanOp) then Success(Bool(a < b))
      else if f.functionName == OperatorName(LessThanOrEqualOp) then Success(Bool(a <= b))
      else if f.functionName == OperatorName(IsDistinctFromOp) then Success(Bool(a != b))
      else Failure(InternalError("unsupported"))
    else Failure(InternalError("unsupported"))
  }

  /** A bigint-only context; every symbol folds as `symbols` says. */
  function SampleCtx(optimize: bool, symbols: string -> Folded): Ctx
  {
    Ctx(optimize, symbols, _ => BigintType, SampleResolve,
        (from, to) => ResolvedFunction(BuiltinName("$operator$cast"), true, []),
        (a, b) => Some(a), _ => false, SampleInvoke)
  }

  /** Planning: every symbol stays unresolved. */
  function PlanningCtx(): Ctx
  {
    SampleCtx(true, name => Residual(SymbolReference(name)))
  }

  /** Execution: every symbol holds the integer `y`. */
  function RuntimeCtx(y: int): Ctx
  {
    SampleCtx(false, name => Known(Long(y)))
  }

  /** The sample contexts compare integers the usual way, so the integer laws
      above apply to them. */
  lemma SampleCtxIsInteger(optimize: bool, symbols: string -> Folded)
    ensures IntegerOperators(SampleCtx(optimize, symbols))
  {
  }

  /** `2 IN (1, NULL, y)`. */
  const InWithNull: Expr := In(Lit(2), [Lit(1), Constant(BigintType, Null), SymbolReference("y")])

  /** As written, planning folds `2 IN (1, NULL, y)` to `2 = y`; with y = 3 the
      original is NULL but the folded form is FALSE. */
  lemma AsWrittenChangesAnswer()
    ensures VisitIn(PlanningCtx(), InWithNull, AsWritten) == Success(Residual(Comparison(Equal, Lit(2), SymbolReference("y"))))
    ensures Evaluate(RuntimeCtx(3), InWithNull) == Success(Null)
    ensures Evaluate(RuntimeCtx(3), Comparison(Equal, Lit(2), SymbolReference("y"))) == Success(Bool(false))
  {
    var ctx := PlanningCtx();
    var y := SymbolReference("y");
    var node := InWithNull;
    assert Handle(ctx, node.probe) == Success(Known(Long(2)));
    assert ctx.typeOf(node.probe) == BigintType;
    assert !NonNullConstants(node.valueList) by {
      assert !node.valueList[2].Constant?;
    }
    AsWrittenScan();
    assert IsDeterministic(y) by {
      assert Children(y) == [];
    }
    var none: set<Expr> := {};
    assert DistinctDeterministic([y], none) == [y];
    RuntimeAnswers(3);
  }

  /** The scan the code as written makes of `2 IN (1, NULL, y)` while
      planning: the null element only raises the flag. */
  lemma AsWrittenScan()
    ensures InFold(PlanningCtx(), InWithNull, Known(Long(2)), AsWritten, 0, InScan(false, false, false, [], []))
            == Success(InScan(false, true, true, [Residual(SymbolReference("y"))], [BigintType]))
  {
    var ctx := PlanningCtx();
    var y := SymbolReference("y");
    var node := InWithNull;
    assert Process(ctx, Lit(1)) == Success(Known(Long(1)));
    assert Process(ctx, Constant(BigintType, Null)) == Success(Known(Null));
    assert Process(ctx, y) == Success(Residual(y));
    assert InCompare(ctx, node, Long(2), Long(1)) == Success(Bool(false));
    var s0 := InScan(false, false, false, [], []);
    var s1 := s0.(hasNull := true);
    var s2 := s1.(hasUnresolved := true, values := [Residual(y)], types := [BigintType]);
    assert InFold(ctx, node, Known(Long(2)), AsWritten, 3, s2) == Success(s2);
    assert node.valueList[2] == y && node.valueList[1] == Constant(BigintType, Null);
    assert s1.values + [Residual(y)] == [Residual(y)] && s1.types + [BigintType] == [BigintType];
    assert InCompare(ctx, node, Long(2), Null) == Success(Null);
    assert InFold(ctx, node, Known(Long(2)), AsWritten, 2, s1) == Success(s2);
    assert InFold(ctx, node, Known(Long(2)), AsWritten, 1, s0) == Success(s2);
  }

  /** The list the corrected fold leaves: the null element is kept. */
  const KeptList: seq<Expr> := [Constant(BigintType, Null), SymbolReference("y")]

  /** The scan the corrected fold makes of `2 IN (1, NULL, y)` while planning. */
  lemma KeepNullsScan()
    ensures InFold(PlanningCtx(), InWithNull, Known(Long(2)), KeepNulls, 0, InScan(false, false, false, [], []))
            == Success(InScan(false, true, true, [Known(Null), Residual(SymbolReference("y"))], [BigintType, BigintType]))
  {
    var ctx := PlanningCtx();
    var node := InWithNull;
    assert Process(ctx, Lit(1)) == Success(Known(Long(1)));
    assert InCompare(ctx, node, Long(2), Long(1)) == Success(Bool(false));
    KeepNullsScanTail();
  }

  /** The last two elements of `2 IN (1, NULL, y)`: the null is kept, then
      the residual `y`. */
  lemma KeepNullsScanTail()
    ensures InFold(PlanningCtx(), InWithNull, Known(Long(2)), KeepNulls, 1, InScan(false, false, false, [], []))
            == Success(InScan(false, true, true, [Known(Null), Residual(SymbolReference("y"))], [BigintType, BigintType]))
  {
    var ctx := PlanningCtx();
    var y := SymbolReference("y");
    var nullConstant := Constant(BigintType, Null);
    var node := InWithNull;
    assert Process(ctx, nullConstant) == Success(Known(Null));
    assert Process(ctx, y) == Success(Residual(y));
    var s0 := InScan(false, false, false, [], []);
    var s1 := s0.(hasNull := true, values := [Known(Null)], types := [BigintType]);
    var s2 := s1.(hasUnresolved := true, values := [Known(Null), Residual(y)], types := [BigintType, BigintType]);
    assert InFold(ctx, node, Known(Long(2)), KeepNulls, 3, s2) == Success(s2);
    assert node.valueList[2] == y && node.valueList[1] == nullConstant;
    assert s1.values + [Residual(y)] == s2.values && s1.types + [BigintType] == s2.types;
    assert s0.values + [Known(Null)] == s1.values && s0.types + [BigintType] == s1.types;
    assert InCompare(ctx, node, Long(2), Null) == Success(Null);
    assert InFold(ctx, node, Known(Long(2)), KeepNulls, 2, s1) == Success(s2);
  }

  /** With null elements kept, planning folds `2 IN (1, NULL, y)` to
      `2 IN (NULL, y)`, which `RuntimeAnswers` shows is NULL like the original
      for every y other than 2. */
  lemma KeepNullsPreservesAnswer()
    ensures VisitIn(PlanningCtx(), InWithNull, KeepNulls) == Success(Residual(In(Lit(2), KeptList)))
    ensures Optimize(PlanningCtx(), InWithNull) == Success(Residual(In(Lit(2), KeptList)))
  {
    var ctx := PlanningCtx();
    var node := InWithNull;
    KeepNullsVisit();
    HandleIn(ctx, node);
  }

  /** Process folds IN with null elements kept. */
  lemma HandleIn(ctx: Ctx, node: Expr)
    requires node.In? && VisitIn(ctx, node, KeepNulls).Success?
    ensures Handle(ctx, node) == VisitIn(ctx, node, KeepNulls)
  {
  }

  lemma KeepNullsVisit()
    ensures VisitIn(PlanningCtx(), InWithNull, KeepNulls) == Success(Residual(In(Lit(2), KeptList)))
  {
    var ctx := PlanningCtx();
    var node := InWithNull;
    assert Handle(ctx, node.probe) == Success(Known(Long(2)));
    assert ctx.typeOf(node.probe) == BigintType;
    assert !NonNullConstants(node.valueList) by {
      assert !node.valueList[2].Constant?;
    }
    KeepNullsScan();
    KeptListFinish();
  }

  /** The residual built from that scan keeps both elements. */
  lemma KeptListFinish()
    ensures InFinish(Known(Long(2)), BigintType, InScan(false, true, true, [Known(Null), Residual(SymbolReference("y"))], [BigintType, BigintType]))
            == Residual(In(Lit(2), KeptList))
  {
    var y := SymbolReference("y");
    var nullConstant := Constant(BigintType, Null);
    var s2 := InScan(false, true, true, [Known(Null), Residual(y)], [BigintType, BigintType]);
    assert IsDeterministic(y) by {
      assert Children(y) == [];
    }
    assert IsDeterministic(nullConstant) by {
      assert Children(nullConstant) == [];
    }
    var none: set<Expr> := {};
    assert ToExpressions(s2.values, s2.types) == KeptList;
    assert DistinctDeterministic([y], {nullConstant}) == [y];
    assert none + {nullConstant} == {nullConstant};
    assert KeptList[1..] == [y];
    assert DistinctDeterministic(KeptList, none) == KeptList;
    assert NonDeterministic([y]) == [];
    assert NonDeterministic(KeptList) == [];
    assert KeptList + [] == KeptList;
    assert ToExpression(Known(Long(2)), BigintType) == Lit(2);
  }

  /** What the original and both folded forms evaluate to once y is bound. */
  lemma RuntimeAnswers(v: int)
    requires v != 2
    ensures Evaluate(RuntimeCtx(v), InWithNull) == Success(Null)
    ensures Evaluate(RuntimeCtx(v), Comparison(Equal, Lit(2), SymbolReference("y"))) == Success(Bool(false))
    ensures Evaluate(RuntimeCtx(v), In(Lit(2), KeptList)) == Success(Null)
  {
    var ctx := RuntimeCtx(v);
    var y := SymbolReference("y");
    SampleCtxIsInteger(false, name => Known(Long(v)));
    assert Handle(ctx, y) == Success(Known(Long(v)));
    assert InvokeOperator(ctx, EqualOp, [BigintType, BigintType], [Long(2), Long(v)]) == Success(Bool(false));
    assert Handle(ctx, Comparison(Equal, Lit(2), y)) == Success(Known(Bool(false)));
    InWithNullAtRuntime(v, InWithNull, 1);
    InWithNullAtRuntime(v, In(Lit(2), KeptList), 0);
  }

  lemma InWithNullAtRuntime(v: int, node: Expr, nulls: nat)
    requires v != 2 && nulls <= 1
    requires node.In? && node.probe == Lit(2) && |node.valueList| == nulls + 2
    requires nulls == 1 ==> node.valueList[0] == Lit(1)
    requires node.valueList[nulls] == Constant(BigintType, Null) && node.valueList[nulls + 1] == SymbolReference("y")
    ensures Evaluate(RuntimeCtx(v), node) == Success(Null)
  {
    var ctx := RuntimeCtx(v);
    var y := SymbolReference("y");
    var list := node.valueList;
    assert Handle(ctx, Lit(2)) == Success(Known(Long(2)));
    assert Process(ctx, y) == Success(Known(Long(v)));
    assert Process(ctx, Constant(BigintType, Null)) == Success(Known(Null));
    assert InCompare(ctx, node, Long(2), Long(v)) == Success(Bool(false));
    assert !NonNullConstants(list) by {
      assert list[nulls].constantValue == Null;
    }
    var s0 := InScan(false, false, false, [], []);
    var s1 := s0.(hasNull := true, values := [Known(Null)], types := [BigintType]);
    assert InFold(ctx, node, Known(Long(2)), KeepNulls, nulls + 2, s1) == Success(s1);
    assert InFold(ctx, node, Known(Long(2)), KeepNulls, nulls + 1, s1) == Success(s1);
    assert InCompare(ctx, node, Long(2), Null) == Success(Null);
    assert s0.values + [Known(Null)] == [Known(Null)] && s0.types + [BigintType] == [BigintType];
    assert ctx.typeOf(list[nulls]) == BigintType;
    assert InFold(ctx, node, Known(Long(2)), KeepNulls, nulls, s0) == Success(s1);
    if nulls == 1 {
      assert Process(ctx, Lit(1)) == Success(Known(Long(1)));
      assert InCompare(ctx, node, Long(2), Long(1)) == Success(Bool(false));
      assert InFold(ctx, node, Known(Long(2)), KeepNulls, 0, s0) == Success(s1);
    }
    assert InFold(ctx, node, Known(Long(2)), KeepNulls, 0, s0) == Success(s1);
    assert InFinish(Known(Long(2)), BigintType, s1) == Known(Null);
    assert VisitIn(ctx, node, KeepNulls) == Success(Known(Null));
    assert Process(ctx, node) == VisitIn(ctx, node, KeepNulls);
  }
}
