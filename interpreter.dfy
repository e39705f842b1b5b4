/** The partial evaluator of the expression IR. Every node folds to a concrete
    value (possibly SQL null) or to a residual expression; with `optimize` set,
    a user-facing error raised while folding a node leaves that node residual
    instead of failing. Function invocation, operator resolution, coercions,
    the type analyser and the symbol resolver are not visible here: they come
    in through `Ctx`. */
module Interpreter {
  import opened Ir

  /** A user-facing error (a TrinoException) or any other exception. Only
      user-facing errors are deferred in optimize mode. */
  datatype Failure = UserError(message: string) | InternalError(message: string)

  /** What a node folds to. `Known(Null)` is SQL null. */
  datatype Folded = Known(value: Value) | Residual(expr: Expr)

  type Outcome = Result<Folded, Failure>

  /** The operators the interpreter resolves through the catalog. */
  datatype OperatorType =
    | EqualOp
    | LessThanOp
    | LessThanOrEqualOp
    | IsDistinctFromOp
    | NegationOp
    | SubscriptOp

  /** The environment of one interpreter run. */
  datatype Ctx = Ctx(
    optimize: bool,
    symbols: string -> Folded,
    typeOf: Expr -> Type,
    resolveOperator: (OperatorType, seq<Type>) -> ResolvedFunction,
    coercion: (Type, Type) -> ResolvedFunction,
    commonSuperType: (Type, Type) -> Option<Type>,
    isDynamicFilter: FunctionName -> bool,
    invoke: (ResolvedFunction, seq<Value>) -> Result<Value, Failure>)

  // ---------------------------------------------------------------------
  // Small helpers

  function ToExpression(f: Folded, t: Type): Expr
  {
    if f.Residual? then f.expr else Constant(t, f.value)
  }

  function ToExpressions(fs: seq<Folded>, ts: seq<Type>): (r: seq<Expr>)
    requires |fs| == |ts|
    ensures |r| == |fs|
    ensures forall i :: 0 <= i < |fs| ==> r[i] == ToExpression(fs[i], ts[i])
  {
    seq(|fs|, i requires 0 <= i < |fs| => ToExpression(fs[i], ts[i]))
  }

  function TypesOf(ctx: Ctx, es: seq<Expr>): (r: seq<Type>)
    ensures |r| == |es|
    ensures forall i :: 0 <= i < |es| ==> r[i] == ctx.typeOf(es[i])
  {
    seq(|es|, i requires 0 <= i < |es| => ctx.typeOf(es[i]))
  }

  predicate AnyResidual(fs: seq<Folded>)
  {
    exists i :: 0 <= i < |fs| && fs[i].Residual?
  }

  function KnownValues(fs: seq<Folded>): (r: seq<Value>)
    requires !AnyResidual(fs)
    ensures |r| == |fs| && forall i :: 0 <= i < |fs| ==> fs[i] == Known(r[i])
  {
    seq(|fs|, i requires 0 <= i < |fs| => fs[i].value)
  }

  function InvokeOperator(ctx: Ctx, op: OperatorType, types: seq<Type>, args: seq<Value>): Result<Value, Failure>
  {
    ctx.invoke(ctx.resolveOperator(op, types), args)
  }

  /** `OperatorType.valueOf(operator.name())`: only the operators the
      execution engine implements have a counterpart. */
  function OperatorTypeOf(op: Operator): Option<OperatorType>
  {
    match op
    case Equal => Some(EqualOp)
    case LessThan => Some(LessThanOp)
    case LessThanOrEqual => Some(LessThanOrEqualOp)
    case IsDistinctFrom => Some(IsDistinctFromOp)
    case _ => None
  }

  /** A value cast to `Boolean`: null, a boolean, or a ClassCastException. */
  function AsBoolean(v: Value): (r: Result<Value, Failure>)
    ensures r.Success? <==> v.Null? || v.Bool?
    ensures r.Success? ==> r.value == v
  {
    if v.Null? || v.Bool? then Success(v) else Failure(InternalError("ClassCastException"))
  }

  // ---------------------------------------------------------------------
  // The visitor

  /** processWithExceptionHandling. */
  function Handle(ctx: Ctx, e: Expr): (r: Outcome)
    decreases e, 3, 0
  {
    var processed := Process(ctx, e);
    if processed.Failure? && processed.error.UserError? && ctx.optimize then Success(Residual(e))
    else processed
  }

  /** processWithExceptionHandling on an absent expression gives null. */
  function HandleOption(ctx: Ctx, node: Expr, d: Option<Expr>): Outcome
    requires node.SearchedCase? || node.SimpleCase?
    requires d == node.defaultValue
    decreases node, 0, 0
  {
    if d.None? then Success(Known(Null)) else Handle(ctx, d.value)
  }

  /** Every expression of a list through processWithExceptionHandling, in
      order; the first failure wins. */
  function HandleAll(ctx: Ctx, es: seq<Expr>): (r: Result<seq<Folded>, Failure>)
    ensures r.Success? ==> |r.value| == |es|
    decreases es, 0, 0
  {
    if es == [] then Success([])
    else
      var head :- Handle(ctx, es[0]);
      var tail :- HandleAll(ctx, es[1..]);
      Success([head] + tail)
  }

  function Process(ctx: Ctx, e: Expr): Outcome
    decreases e, 2, 0
  {
    match e
    case Constant(_, v) => Success(Known(v))
    case SymbolReference(name) => Success(ctx.symbols(name))
    case ArithmeticBinary(_, _, _, _) => VisitArithmeticBinary(ctx, e)
    case ArithmeticNegation(_) => VisitArithmeticNegation(ctx, e)
    case Comparison(_, _, _) => VisitComparison(ctx, e)
    case Between(_, _, _) => VisitBetween(ctx, e)
    case Logical(_, _) => VisitLogical(ctx, e)
    case Not(_) => VisitNot(ctx, e)
    case IsNull(_) => VisitIsNull(ctx, e)
    case Coalesce(_) => VisitCoalesce(ctx, e)
    case NullIf(_, _) => VisitNullIf(ctx, e)
    case SearchedCase(_, _) => VisitSearchedCase(ctx, e)
    case SimpleCase(_, _, _) => VisitSimpleCase(ctx, e)
    case In(_, _) => VisitIn(ctx, e, KeepNulls)
    case Cast(_, _, _) => VisitCast(ctx, e)
    case Row(_) => VisitRow(ctx, e)
    case Subscript(_, _) => VisitSubscript(ctx, e)
    case FunctionCall(_, _) => VisitFunctionCall(ctx, e)
    case Lambda(_, _) => VisitLambda(ctx, e)
    case Bind(_, _) => VisitBind(ctx, e)
  }

  function VisitIsNull(ctx: Ctx, node: Expr): Outcome
    requires node.IsNull?
    decreases node, 1, 0
  {
    var v :- Handle(ctx, node.argument);
    if v.Residual? then Success(Residual(IsNull(v.expr)))
    else Success(Known(Bool(v.value == Null)))
  }

  function VisitNot(ctx: Ctx, node: Expr): Outcome
    requires node.Not?
    decreases node, 1, 0
  {
    var v :- Handle(ctx, node.argument);
    if v == Known(Null) then Success(Known(Null))
    else if v.Residual? then Success(Residual(Not(v.expr)))
    else if v.value.Bool? then Success(Known(Bool(!v.value.b)))
    else Failure(InternalError("ClassCastException"))
  }

  // ---- AND / OR

  /** A term folded so far, with the type of the term it came from. */
  datatype Typed = Typed(folded: Folded, typ: Type)

  /** The value that decides the whole expression: FALSE for AND, TRUE for OR. */
  function Absorbing(op: LogicalOperator): bool
  {
    op == Or
  }

  function VisitLogical(ctx: Ctx, node: Expr): Outcome
    requires node.Logical?
    decreases node, 1, 0
  {
    LogicalFold(ctx, node, 0, [])
  }

  /** The loop over the terms: an absorbing term returns at once, an identity
      term is dropped, anything else is kept in order. */
  function LogicalFold(ctx: Ctx, node: Expr, i: nat, kept: seq<Typed>): Outcome
    requires node.Logical? && i <= |node.terms|
    decreases node, 0, |node.terms| - i
  {
    if i == |node.terms| then Success(LogicalFinish(node.logicalOperator, kept))
    else
      var term := node.terms[i];
      assert term in node.terms;
      var processed :- Handle(ctx, term);
      var op := node.logicalOperator;
      if processed == Known(Bool(Absorbing(op))) then Success(Known(Bool(Absorbing(op))))
      else if processed == Known(Bool(!Absorbing(op))) then LogicalFold(ctx, node, i + 1, kept)
      else LogicalFold(ctx, node, i + 1, kept + [Typed(processed, ctx.typeOf(term))])
  }

  predicate AllNull(kept: seq<Typed>)
  {
    forall i :: 0 <= i < |kept| ==> kept[i].folded == Known(Null)
  }

  function TypedExpressions(kept: seq<Typed>): (r: seq<Expr>)
    ensures |r| == |kept|
    ensures forall i :: 0 <= i < |kept| ==> r[i] == ToExpression(kept[i].folded, kept[i].typ)
  {
    seq(|kept|, i requires 0 <= i < |kept| => ToExpression(kept[i].folded, kept[i].typ))
  }

  /** What remains after the loop: no term means the identity, one term is
      returned as it is, only nulls give null, otherwise a residual node. */
  function LogicalFinish(op: LogicalOperator, kept: seq<Typed>): Folded
  {
    if kept == [] then Known(Bool(!Absorbing(op)))
    else if |kept| == 1 then kept[0].folded
    else if AllNull(kept) then Known(Null)
    else Residual(Logical(op, TypedExpressions(kept)))
  }

  // ---- COALESCE

  function VisitCoalesce(ctx: Ctx, node: Expr): Outcome
    requires node.Coalesce?
    decreases node, 1, 0
  {
    var operands :- ProcessOperands(ctx, node);
    if operands == [] then Success(Known(Null))
    else if |operands| == 1 then Success(operands[0])
    else Success(Residual(Coalesce(seq(|operands|, i requires 0 <= i < |operands| =>
                                     ToExpression(operands[i], ctx.typeOf(node))))))
  }

  function ProcessOperands(ctx: Ctx, node: Expr): Result<seq<Folded>, Failure>
    requires node.Coalesce?
    decreases node, 0, |node.operands| + 1
  {
    CoalesceFold(ctx, node, 0, [], {})
  }

  /** The result of scanning operands: what was kept, the deterministic
      residuals seen so far, and whether a non-null operand ended the scan. */
  datatype Scan = Scan(kept: seq<Folded>, seen: set<Expr>, stopped: bool)

  /** One residual operand: a non-deterministic one is always kept, a
      deterministic one only the first time. */
  function AddUnique(kept: seq<Folded>, seen: set<Expr>, x: Expr): Scan
  {
    if !IsDeterministic(x) then Scan(kept + [Residual(x)], seen, false)
    else if x in seen then Scan(kept, seen, false)
    else Scan(kept + [Residual(x)], seen + {x}, false)
  }

  /** The operands of a nested residual COALESCE, spliced in place; a non-null
      constant among them ends the whole scan. */
  function NestedScan(nested: seq<Expr>, j: nat, kept: seq<Folded>, seen: set<Expr>): Scan
    requires j <= |nested|
    decreases |nested| - j
  {
    if j == |nested| then Scan(kept, seen, false)
    else
      var x := nested[j];
      var next := AddUnique(kept, seen, x);
      if x.Constant? && x.constantValue != Null then Scan(next.kept, next.seen, true)
      else NestedScan(nested, j + 1, next.kept, next.seen)
  }

  function CoalesceFold(ctx: Ctx, node: Expr, i: nat, kept: seq<Folded>, seen: set<Expr>): Result<seq<Folded>, Failure>
    requires node.Coalesce? && i <= |node.operands|
    decreases node, 0, |node.operands| - i
  {
    if i == |node.operands| then Success(kept)
    else
      assert node.operands[i] in node.operands;
      var v :- Handle(ctx, node.operands[i]);
      if v.Residual? && v.expr.Coalesce? then
        var s := NestedScan(v.expr.operands, 0, kept, seen);
        if s.stopped then Success(s.kept) else CoalesceFold(ctx, node, i + 1, s.kept, s.seen)
      else if v.Residual? then
        var s := AddUnique(kept, seen, v.expr);
        CoalesceFold(ctx, node, i + 1, s.kept, s.seen)
      else if v.value != Null then Success(kept + [v])
      else CoalesceFold(ctx, node, i + 1, kept, seen)
  }

  // ---- CASE

  /** The clauses kept so far and, once a clause is known to match, its
      processed result. */
  datatype CaseScan = CaseScan(clauses: seq<WhenClause>, newDefault: Option<Folded>)

  function VisitSearchedCase(ctx: Ctx, node: Expr): Outcome
    requires node.SearchedCase?
    decreases node, 1, 0
  {
    var scan :- SearchedFold(ctx, node, 0, []);
    var defaultResult :- if scan.newDefault.Some? then Success(scan.newDefault.value)
                         else HandleOption(ctx, node, node.defaultValue);
    Success(CaseFinish(ctx, node, None, scan.clauses, defaultResult))
  }

  function SearchedFold(ctx: Ctx, node: Expr, i: nat, clauses: seq<WhenClause>): Result<CaseScan, Failure>
    requires node.SearchedCase? && i <= |node.whenClauses|
    decreases node, 0, |node.whenClauses| - i
  {
    if i == |node.whenClauses| then Success(CaseScan(clauses, None))
    else
      var w := node.whenClauses[i];
      assert w in node.whenClauses;
      var operand :- Handle(ctx, w.operand);
      if operand.Residual? then
        var result :- Handle(ctx, w.result);
        var kept := WhenClause(operand.expr, ToExpression(result, ctx.typeOf(w.result)));
        SearchedFold(ctx, node, i + 1, clauses + [kept])
      else if operand.value == Bool(true) then
        var result :- Handle(ctx, w.result);
        Success(CaseScan(clauses, Some(result)))
      else SearchedFold(ctx, node, i + 1, clauses)
  }

  /** No clause left: the default itself. Otherwise a residual CASE whose
      default is dropped when it folded to null. */
  function CaseFinish(ctx: Ctx, node: Expr, operand: Option<Folded>, clauses: seq<WhenClause>, defaultResult: Folded): Folded
    requires if operand.Some? then node.SimpleCase? else node.SearchedCase?
  {
    if clauses == [] then defaultResult
    else
      var d := if defaultResult == Known(Null) then None else Some(ToExpression(defaultResult, ctx.typeOf(node)));
      if operand.Some? then Residual(SimpleCase(ToExpression(operand.value, ctx.typeOf(node.caseOperand)), clauses, d))
      else Residual(SearchedCase(clauses, d))
  }

  function VisitSimpleCase(ctx: Ctx, node: Expr): Outcome
    requires node.SimpleCase?
    decreases node, 1, 0
  {
    var operand :- Handle(ctx, node.caseOperand);
    if operand == Known(Null) then HandleOption(ctx, node, node.defaultValue)
    else
      var scan :- SimpleFold(ctx, node, operand, 0, []);
      var defaultResult :- if scan.newDefault.Some? then Success(scan.newDefault.value)
                           else HandleOption(ctx, node, node.defaultValue);
      Success(CaseFinish(ctx, node, Some(operand), scan.clauses, defaultResult))
  }

  function SimpleFold(ctx: Ctx, node: Expr, operand: Folded, i: nat, clauses: seq<WhenClause>): Result<CaseScan, Failure>
    requires node.SimpleCase? && i <= |node.whenClauses|
    decreases node, 0, |node.whenClauses| - i
  {
    if i == |node.whenClauses| then Success(CaseScan(clauses, None))
    else
      var w := node.whenClauses[i];
      assert w in node.whenClauses;
      var whenOperand :- Handle(ctx, w.operand);
      if whenOperand.Residual? || operand.Residual? then
        var result :- Handle(ctx, w.result);
        var kept := WhenClause(ToExpression(whenOperand, ctx.typeOf(w.operand)), ToExpression(result, ctx.typeOf(w.result)));
        SimpleFold(ctx, node, operand, i + 1, clauses + [kept])
      else if whenOperand.value == Null then SimpleFold(ctx, node, operand, i + 1, clauses)
      else
        var equal :- InvokeOperator(ctx, EqualOp, [ctx.typeOf(node.caseOperand), ctx.typeOf(w.operand)],
                                    [operand.value, whenOperand.value]);
        if equal == Bool(true) then
          var result :- Handle(ctx, w.result);
          Success(CaseScan(clauses, Some(result)))
        else SimpleFold(ctx, node, operand, i + 1, clauses)
  }

  // ---- IN

  /** Whether a null element (or a null comparison) is kept in a residual IN
      list. `AsWritten` drops it, as the source does; `KeepNulls` keeps it. */
  datatype NullPolicy = AsWritten | KeepNulls

  /** The flags and unresolved elements gathered by the IN loop. */
  datatype InScan = InScan(found: bool, hasNull: bool, hasUnresolved: bool, values: seq<Folded>, types: seq<Type>)

  predicate NonNullConstants(es: seq<Expr>)
  {
    forall i :: 0 <= i < |es| ==> es[i].Constant? && es[i].constantValue != Null
  }

  /** The hashed-set lookup: some element compares EQUAL to the probe. */
  predicate SetContains(ctx: Ctx, t: Type, v: Value, es: seq<Expr>)
    requires NonNullConstants(es)
  {
    exists i :: 0 <= i < |es| && InvokeOperator(ctx, EqualOp, [t, t], [v, es[i].constantValue]) == Success(Bool(true))
  }

  predicate IsComplex(t: Type)
  {
    t.ArrayType? || t.MapType? || t.RowType?
  }

  function VisitIn(ctx: Ctx, node: Expr, policy: NullPolicy): Outcome
    requires node.In?
    decreases node, 1, 0
  {
    var value :- Handle(ctx, node.probe);
    var t := ctx.typeOf(node.probe);
    if value == Known(Null) then Success(Known(Null))
    else if value.Known? && !IsComplex(t) && NonNullConstants(node.valueList) then
      Success(Known(Bool(SetContains(ctx, t, value.value, node.valueList))))
    else
      var scan :- InFold(ctx, node, value, policy, 0, InScan(false, false, value.Residual?, [], []));
      Success(InFinish(value, t, scan))
  }

  function InFold(ctx: Ctx, node: Expr, value: Folded, policy: NullPolicy, i: nat, scan: InScan): Result<InScan, Failure>
    requires node.In? && i <= |node.valueList| && |scan.values| == |scan.types|
    ensures InFold(ctx, node, value, policy, i, scan).Success? ==>
              |InFold(ctx, node, value, policy, i, scan).value.values| == |InFold(ctx, node, value, policy, i, scan).value.types|
    decreases node, 0, |node.valueList| - i
  {
    if i == |node.valueList| then Success(scan)
    else
      var item := node.valueList[i];
      assert item in node.valueList;
      var t := ctx.typeOf(item);
      if value.Residual? && item.Constant? then
        InFold(ctx, node, value, policy, i + 1, scan.(values := scan.values + [Residual(item)], types := scan.types + [t]))
      else
        var inValue :- Process(ctx, item);
        if value.Residual? || inValue.Residual? then
          InFold(ctx, node, value, policy, i + 1,
                 scan.(hasUnresolved := true, values := scan.values + [inValue], types := scan.types + [t]))
        else
          var c :- InCompare(ctx, node, value.value, inValue.value);
          var next :=
            if c.Null? && policy == KeepNulls then
              scan.(hasNull := true, values := scan.values + [inValue], types := scan.types + [t])
            else if c.Null? then scan.(hasNull := true)
            else if c.b then scan.(found := true)
            else scan;
          InFold(ctx, node, value, policy, i + 1, next)
  }

  /** One element against the probe: null for a null element, otherwise the
      EQUAL operator's answer, which must be a boolean or null. */
  function InCompare(ctx: Ctx, node: Expr, value: Value, inValue: Value): (r: Result<Value, Failure>)
    requires node.In?
    ensures r.Success? ==> r.value.Null? || r.value.Bool?
  {
    if inValue == Null then Success(Null)
    else
      var t := ctx.typeOf(node.probe);
      var equal :- InvokeOperator(ctx, EqualOp, [t, t], [value, inValue]);
      AsBoolean(equal)
  }

  /** Deterministic expressions without repeats, in order of first occurrence. */
  function DistinctDeterministic(es: seq<Expr>, seen: set<Expr>): (r: seq<Expr>)
    decreases |es|
  {
    if es == [] then []
    else if IsDeterministic(es[0]) && es[0] !in seen then [es[0]] + DistinctDeterministic(es[1..], seen + {es[0]})
    else DistinctDeterministic(es[1..], seen)
  }

  function NonDeterministic(es: seq<Expr>): (r: seq<Expr>)
  {
    if es == [] then []
    else if !IsDeterministic(es[0]) then [es[0]] + NonDeterministic(es[1..])
    else NonDeterministic(es[1..])
  }

  function InFinish(value: Folded, t: Type, scan: InScan): Folded
    requires |scan.values| == |scan.types|
  {
    if scan.found then Known(Bool(true))
    else if scan.hasUnresolved then
      var es := ToExpressions(scan.values, scan.types);
      var simplified := DistinctDeterministic(es, {}) + NonDeterministic(es);
      if |simplified| == 1 then Residual(Comparison(Equal, ToExpression(value, t), simplified[0]))
      else Residual(In(ToExpression(value, t), simplified))
    else if scan.hasNull then Known(Null)
    else Known(Bool(false))
  }

  // ---- Arithmetic

  function VisitArithmeticNegation(ctx: Ctx, node: Expr): Outcome
    requires node.ArithmeticNegation?
    decreases node, 1, 0
  {
    var v :- Handle(ctx, node.argument);
    if v == Known(Null) then Success(Known(Null))
    else if v.Residual? then
      if v.expr.ArithmeticNegation? then Success(Residual(v.expr.argument))
      else Success(Residual(ArithmeticNegation(v.expr)))
    else
      var r :- InvokeOperator(ctx, NegationOp, [ctx.typeOf(node.argument)], [v.value]);
      Success(Known(r))
  }

  function VisitArithmeticBinary(ctx: Ctx, node: Expr): Outcome
    requires node.ArithmeticBinary?
    decreases node, 1, 0
  {
    var left :- Handle(ctx, node.left);
    if left == Known(Null) then Success(Known(Null))
    else
      var right :- Handle(ctx, node.right);
      if right == Known(Null) then Success(Known(Null))
      else if left.Residual? || right.Residual? then
        Success(Residual(ArithmeticBinary(node.arithmeticOperator, node.callee,
                                          ToExpression(left, ctx.typeOf(node.left)),
                                          ToExpression(right, ctx.typeOf(node.right)))))
      else
        var r :- ctx.invoke(node.callee, [left.value, right.value]);
        Success(Known(r))
  }

  // ---- Comparisons

  /** flipComparison: the form a residual EQUAL or LESS_THAN* comparison is
      turned back into. It negates EQUAL/NOT_EQUAL and mirrors the ordering
      operators; IS DISTINCT FROM is refused. */
  function FlipComparison(c: Expr): Result<Expr, Failure>
    requires c.Comparison?
  {
    match c.operator
    case Equal => Success(Comparison(NotEqual, c.left, c.right))
    case NotEqual => Success(Comparison(Equal, c.left, c.right))
    case LessThan => Success(Comparison(GreaterThan, c.right, c.left))
    case LessThanOrEqual => Success(Comparison(GreaterThanOrEqual, c.right, c.left))
    case GreaterThan => Success(Comparison(LessThan, c.right, c.left))
    case GreaterThanOrEqual => Success(Comparison(LessThanOrEqual, c.right, c.left))
    case IsDistinctFrom => Failure(InternalError("Unexpected value: IS_DISTINCT_FROM"))
  }

  function VisitComparison(ctx: Ctx, node: Expr): Outcome
    requires node.Comparison?
    decreases node, 1, 0
  {
    match node.operator
    case IsDistinctFrom => ProcessIsDistinctFrom(ctx, node)
    case NotEqual =>
      var result :- ProcessComparison(ctx, node, Equal, node.left, node.right);
      if result == Known(Null) then Success(Known(Null))
      else if result.Residual? then
        if result.expr.Comparison? then
          var flipped :- FlipComparison(result.expr);
          Success(Residual(flipped))
        else Failure(InternalError("ClassCastException"))
      else if result.value.Bool? then Success(Known(Bool(!result.value.b)))
      else Failure(InternalError("ClassCastException"))
    case GreaterThan => FlipBack(ctx, node, LessThan)
    case GreaterThanOrEqual => FlipBack(ctx, node, LessThanOrEqual)
    case _ => ProcessComparison(ctx, node, node.operator, node.left, node.right)
  }

  /** GREATER_THAN* evaluated as LESS_THAN* with the operands swapped; a
      residual comparison is flipped back. */
  function FlipBack(ctx: Ctx, node: Expr, mirrored: Operator): Outcome
    requires node.Comparison?
    decreases node, 0, 1
  {
    var result :- ProcessComparison(ctx, node, mirrored, node.right, node.left);
    if result.Residual? && result.expr.Comparison? then
      var flipped :- FlipComparison(result.expr);
      Success(Residual(flipped))
    else Success(result)
  }

  /** processComparisonExpression: a null operand gives null (the right one is
      not processed when the left one is null), a residual operand gives a
      residual comparison, otherwise the operator is invoked. */
  function ProcessComparison(ctx: Ctx, node: Expr, op: Operator, leftExpression: Expr, rightExpression: Expr): Outcome
    requires node.Comparison?
    requires (leftExpression == node.left && rightExpression == node.right)
             || (leftExpression == node.right && rightExpression == node.left)
    decreases node, 0, 0
  {
    var left :- Handle(ctx, leftExpression);
    if left == Known(Null) then Success(Known(Null))
    else
      var right :- Handle(ctx, rightExpression);
      if right == Known(Null) then Success(Known(Null))
      else if left.Residual? || right.Residual? then
        Success(Residual(Comparison(op, ToExpression(left, ctx.typeOf(leftExpression)),
                                    ToExpression(right, ctx.typeOf(rightExpression)))))
      else
        match OperatorTypeOf(op)
        case None => Failure(InternalError("No enum constant"))
        case Some(operatorType) =>
          var r :- InvokeOperator(ctx, operatorType, [ctx.typeOf(leftExpression), ctx.typeOf(rightExpression)],
                                  [left.value, right.value]);
          Success(Known(r))
  }

  function ProcessIsDistinctFrom(ctx: Ctx, node: Expr): Outcome
    requires node.Comparison?
    decreases node, 0, 0
  {
    var left :- Handle(ctx, node.left);
    var right :- Handle(ctx, node.right);
    if left == Known(Null) && right.Residual? then Success(Residual(Not(IsNull(right.expr))))
    else if right == Known(Null) && left.Residual? then Success(Residual(Not(IsNull(left.expr))))
    else if left.Residual? || right.Residual? then
      Success(Residual(Comparison(IsDistinctFrom, ToExpression(left, ctx.typeOf(node.left)),
                                  ToExpression(right, ctx.typeOf(node.right)))))
    else
      var r :- InvokeOperator(ctx, IsDistinctFromOp, [ctx.typeOf(node.left), ctx.typeOf(node.right)],
                              [left.value, right.value]);
      Success(Known(r))
  }

  // ---- BETWEEN

  /** How the two bound comparisons combine: a null one yields FALSE only
      when the other is FALSE. */
  function BetweenCombine(greaterOrEqualToMin: Value, lessThanOrEqualToMax: Value): Value
    requires greaterOrEqualToMin.Null? || greaterOrEqualToMin.Bool?
    requires lessThanOrEqualToMax.Null? || lessThanOrEqualToMax.Bool?
  {
    if greaterOrEqualToMin.Null? then (if lessThanOrEqualToMax == Bool(false) then Bool(false) else Null)
    else if lessThanOrEqualToMax.Null? then (if greaterOrEqualToMin == Bool(false) then Bool(false) else Null)
    else Bool(greaterOrEqualToMin.b && lessThanOrEqualToMax.b)
  }

  function VisitBetween(ctx: Ctx, node: Expr): Outcome
    requires node.Between?
    decreases node, 1, 0
  {
    var value :- Handle(ctx, node.probe);
    if value == Known(Null) then Success(Known(Null))
    else
      var min :- Handle(ctx, node.min);
      var max :- Handle(ctx, node.max);
      if value.Residual? || min.Residual? || max.Residual? then
        Success(Residual(Between(ToExpression(value, ctx.typeOf(node.probe)),
                                 ToExpression(min, ctx.typeOf(node.min)),
                                 ToExpression(max, ctx.typeOf(node.max)))))
      else
        var lower :- if min.value == Null then Success(Null)
                     else
                       var c :- InvokeOperator(ctx, LessThanOrEqualOp, [ctx.typeOf(node.min), ctx.typeOf(node.probe)],
                                               [min.value, value.value]);
                       AsBoolean(c);
        var upper :- if max.value == Null then Success(Null)
                     else
                       var c :- InvokeOperator(ctx, LessThanOrEqualOp, [ctx.typeOf(node.probe), ctx.typeOf(node.max)],
                                               [value.value, max.value]);
                       AsBoolean(c);
        Success(Known(BetweenCombine(lower, upper)))
  }

  // ---- NULLIF

  function VisitNullIf(ctx: Ctx, node: Expr): Outcome
    requires node.NullIf?
    decreases node, 1, 0
  {
    var first :- Handle(ctx, node.first);
    if first == Known(Null) then Success(Known(Null))
    else
      var second :- Handle(ctx, node.second);
      var firstType := ctx.typeOf(node.first);
      var secondType := ctx.typeOf(node.second);
      if second == Known(Null) then Success(first)
      else if first.Residual? || second.Residual? then
        Success(Residual(NullIf(ToExpression(first, firstType), ToExpression(second, secondType))))
      else
        match ctx.commonSuperType(firstType, secondType)
        case None => Failure(InternalError("NoSuchElementException"))
        case Some(commonType) =>
          var firstCast :- ctx.invoke(ctx.coercion(firstType, commonType), [first.value]);
          var secondCast :- ctx.invoke(ctx.coercion(secondType, commonType), [second.value]);
          var equal :- InvokeOperator(ctx, EqualOp, [commonType, commonType], [firstCast, secondCast]);
          if equal == Bool(true) then Success(Known(Null)) else Success(first)
  }

  // ---- CAST

  function VisitCast(ctx: Ctx, node: Expr): Outcome
    requires node.Cast?
    decreases node, 1, 0
  {
    var value :- Handle(ctx, node.argument);
    var sourceType := ctx.typeOf(node.argument);
    if value.Residual? then
      if node.targetType == sourceType then Success(value)
      else Success(Residual(Cast(value.expr, node.targetType, node.safe)))
    else if value.value == Null then Success(Known(Null))
    else
      var converted := ctx.invoke(ctx.coercion(sourceType, node.targetType), [value.value]);
      if converted.Success? then Success(Known(converted.value))
      else if node.safe then Success(Known(Null))
      else Failure(converted.error)
  }

  // ---- ROW, subscript, function call, lambda, bind

  function VisitRow(ctx: Ctx, node: Expr): Outcome
    requires node.Row?
    decreases node, 1, 0
  {
    var rowType := ctx.typeOf(node);
    if !rowType.RowType? then Failure(InternalError("ClassCastException"))
    else
      var values :- HandleAll(ctx, node.items);
      if |values| != |rowType.fieldTypes| then Failure(InternalError("values and types do not have the same size"))
      else if AnyResidual(values) then Success(Residual(Row(ToExpressions(values, rowType.fieldTypes))))
      else Success(Known(RowValue(KnownValues(values))))
  }

  const Int32Max: int := 0x7fff_ffff
  const Int32Min: int := -0x8000_0000

  function VisitSubscript(ctx: Ctx, node: Expr): Outcome
    requires node.Subscript?
    decreases node, 1, 0
  {
    var base :- Handle(ctx, node.base);
    if base == Known(Null) then Success(Known(Null))
    else
      var index :- Handle(ctx, node.index);
      if index == Known(Null) then Success(Known(Null))
      else if index.Known? && index.value.Long? && ctx.typeOf(node.base).ArrayType? && index.value.n == 0 then
        Failure(UserError("SQL array indices start at 1"))
      else if index.Known? && index.value.Long? && ctx.typeOf(node.base).ArrayType? && index.value.n < 0 then
        Failure(UserError("Array subscript is negative"))
      else if base.Residual? || index.Residual? then
        Success(Residual(Subscript(ToExpression(base, ctx.typeOf(node.base)), ToExpression(index, ctx.typeOf(node.index)))))
      else if base.value.RowValue? then
        if !index.value.Long? then Failure(InternalError("ClassCastException"))
        else
          var fieldIndex := index.value.n - 1;
          if fieldIndex < Int32Min || fieldIndex > Int32Max then Failure(InternalError("integer overflow"))
          else if fieldIndex < 0 || fieldIndex >= |base.value.fields| then Failure(UserError("ROW index out of bounds"))
          else Success(Known(base.value.fields[fieldIndex]))
      else
        var r :- InvokeOperator(ctx, SubscriptOp, [ctx.typeOf(node.base), ctx.typeOf(node.index)], [base.value, index.value]);
        Success(Known(r))
  }

  /** Whether some argument is null where the function does not accept null. */
  predicate NullOnNonNullable(f: ResolvedFunction, values: seq<Folded>)
  {
    exists i :: 0 <= i < |values| && values[i] == Known(Null) && !ArgumentNullable(f, i)
  }

  const FailFunction: FunctionName := BuiltinName("fail")

  function VisitFunctionCall(ctx: Ctx, node: Expr): Outcome
    requires node.FunctionCall?
    decreases node, 1, 0
  {
    var values :- HandleAll(ctx, node.arguments);
    var f := node.callee;
    if NullOnNonNullable(f, values) then Success(Known(Null))
    else if ctx.optimize && (!f.deterministic || AnyResidual(values) || ctx.isDynamicFilter(f.functionName)
                             || f.functionName == FailFunction) then
      Success(Residual(FunctionCall(f, ToExpressions(values, TypesOf(ctx, node.arguments)))))
    else if AnyResidual(values) then Failure(InternalError("unresolved argument"))
    else
      var r :- ctx.invoke(f, KnownValues(values));
      Success(Known(r))
  }

  function VisitLambda(ctx: Ctx, node: Expr): Outcome
    requires node.Lambda?
    decreases node, 1, 0
  {
    if ctx.optimize then
      var body :- Handle(ctx, node.body);
      Success(Residual(Lambda(node.parameters, ToExpression(body, ctx.typeOf(node.body)))))
    else
      var t := ctx.typeOf(node);
      if !t.FunctionType? then Failure(InternalError("ClassCastException"))
      else if |node.parameters| != |t.argumentTypes| then Failure(InternalError("IllegalArgumentException"))
      else Success(Known(Closure(node.parameters, node.body)))
  }

  function VisitBind(ctx: Ctx, node: Expr): Outcome
    requires node.Bind?
    decreases node, 1, 0
  {
    var values :- HandleAll(ctx, node.values);
    var target :- Handle(ctx, node.target);
    if AnyResidual(values) || target.Residual? then
      Success(Residual(Bind(ToExpressions(values, TypesOf(ctx, node.values)), ToExpression(target, ctx.typeOf(node.target)))))
    else if target.value.Closure? || target.value.BoundFunction? then
      Success(Known(BoundFunction(KnownValues(values), target.value)))
    else Failure(InternalError("ClassCastException"))
  }

  // ---------------------------------------------------------------------
  // Entry points

  /** `evaluate`: the expression must fold completely. */
  function Evaluate(ctx: Ctx, e: Expr): (r: Result<Value, Failure>)
    requires !ctx.optimize
  {
    var f :- Handle(ctx, e);
    if f.Residual? then Failure(InternalError("Expression interpreter returned an unresolved expression"))
    else Success(f.value)
  }

  /** `optimize`. */
  function Optimize(ctx: Ctx, e: Expr): (r: Outcome)
    requires ctx.optimize
  {
    Handle(ctx, e)
  }
}
