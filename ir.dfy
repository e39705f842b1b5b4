/** The expression IR: an immutable tree of SQL scalar-expression nodes, the
    runtime values the interpreter folds them to, and the comparison-operator
    algebra. Java references that may be null are modelled as `Option`s only
    where a constructor checks them. */
module Ir {

  datatype Option<T> = None | Some(value: T)
  {
    function GetOr(default: T): T
    {
      if Some? then value else default
    }
  }

  datatype Result<T, E> = Success(value: T) | Failure(error: E)
  {
    predicate IsFailure()
    {
      Failure?
    }

    function PropagateFailure<U>(): Result<U, E>
      requires Failure?
    {
      Failure(error)
    }

    function Extract(): T
      requires Success?
    {
      value
    }
  }

  /** The SQL types the core distinguishes. */
  datatype Type =
    | BooleanType
    | BigintType
    | DoubleType
    | VarcharType
    | DateType
    | ArrayType(element: Type)
    | MapType(key: Type, valueType: Type)
    | RowType(fieldTypes: seq<Type>)
    | FunctionType(argumentTypes: seq<Type>, returnType: Type)
    | OtherType(typeName: string)

  /** A catalog-qualified function name. */
  datatype FunctionName = FunctionName(catalog: string, schema: string, name: string)

  function BuiltinName(name: string): FunctionName
  {
    FunctionName("system", "builtin", name)
  }

  /** A function already resolved against the catalog. */
  datatype ResolvedFunction = ResolvedFunction(
    functionName: FunctionName,
    deterministic: bool,
    nullableArguments: seq<bool>)

  /** Whether argument `i` of `f` accepts SQL null. */
  predicate ArgumentNullable(f: ResolvedFunction, i: nat)
  {
    i < |f.nullableArguments| && f.nullableArguments[i]
  }

  /** Runtime values; `Null` is SQL null. */
  datatype Value =
    | Null
    | Bool(b: bool)
    | Long(n: int)
    | Text(s: string)
    | RowValue(fields: seq<Value>)
    | Closure(parameters: seq<string>, body: Expr)
    | BoundFunction(captured: seq<Value>, target: Value)
    | Opaque(id: int)

  datatype Operator =
    | Equal
    | NotEqual
    | LessThan
    | LessThanOrEqual
    | GreaterThan
    | GreaterThanOrEqual
    | IsDistinctFrom

  datatype LogicalOperator = And | Or

  datatype ArithmeticOperator = Add | Subtract | Multiply | Divide | Modulus

  datatype WhenClause = WhenClause(operand: Expr, result: Expr)

  datatype Expr =
    | Constant(constantType: Type, constantValue: Value)
    | SymbolReference(name: string)
    | ArithmeticBinary(arithmeticOperator: ArithmeticOperator, callee: ResolvedFunction, left: Expr, right: Expr)
    | ArithmeticNegation(argument: Expr)
    | Comparison(operator: Operator, left: Expr, right: Expr)
    | Between(probe: Expr, min: Expr, max: Expr)
    | Logical(logicalOperator: LogicalOperator, terms: seq<Expr>)
    | Not(argument: Expr)
    | IsNull(argument: Expr)
    | Coalesce(operands: seq<Expr>)
    | NullIf(first: Expr, second: Expr)
    | SearchedCase(whenClauses: seq<WhenClause>, defaultValue: Option<Expr>)
    | SimpleCase(caseOperand: Expr, whenClauses: seq<WhenClause>, defaultValue: Option<Expr>)
    | In(probe: Expr, valueList: seq<Expr>)
    | Cast(argument: Expr, targetType: Type, safe: bool)
    | Row(items: seq<Expr>)
    | Subscript(base: Expr, index: Expr)
    | FunctionCall(callee: ResolvedFunction, arguments: seq<Expr>)
    | Lambda(parameters: seq<string>, body: Expr)
    | Bind(values: seq<Expr>, target: Expr)

  const TrueLiteral: Expr := Constant(BooleanType, Bool(true))
  const FalseLiteral: Expr := Constant(BooleanType, Bool(false))

  // ---------------------------------------------------------------------
  // Comparison operators

  /** The operator that holds after swapping the two operands. */
  function Flip(op: Operator): Operator
  {
    match op
    case Equal => Equal
    case NotEqual => NotEqual
    case LessThan => GreaterThan
    case LessThanOrEqual => GreaterThanOrEqual
    case GreaterThan => LessThan
    case GreaterThanOrEqual => LessThanOrEqual
    case IsDistinctFrom => IsDistinctFrom
  }

  /** The complementary operator; IS DISTINCT FROM has none and is refused
      (an IllegalArgumentException in the source). */
  function Negate(op: Operator): Result<Operator, string>
  {
    match op
    case Equal => Success(NotEqual)
    case NotEqual => Success(Equal)
    case LessThan => Success(GreaterThanOrEqual)
    case LessThanOrEqual => Success(GreaterThan)
    case GreaterThan => Success(LessThanOrEqual)
    case GreaterThanOrEqual => Success(LessThan)
    case IsDistinctFrom => Failure("Unsupported comparison: IS_DISTINCT_FROM")
  }

  /** Reference meaning of each operator on two non-null integers. */
  predicate Holds(op: Operator, a: int, b: int)
  {
    match op
    case Equal => a == b
    case NotEqual => a != b
    case LessThan => a < b
    case LessThanOrEqual => a <= b
    case GreaterThan => a > b
    case GreaterThanOrEqual => a >= b
    case IsDistinctFrom => a != b
  }

  lemma FlipSwapsOperands(op: Operator, a: int, b: int)
    ensures Holds(Flip(op), b, a) == Holds(op, a, b)
    ensures Flip(Flip(op)) == op
    ensures Flip(op) == op <==> op in {Equal, NotEqual, IsDistinctFrom}
  {
  }

  lemma NegateComplements(op: Operator, a: int, b: int)
    ensures Negate(op).Failure? <==> op == IsDistinctFrom
    ensures Negate(op).Success? ==> Holds(Negate(op).value, a, b) == !Holds(op, a, b)
    ensures Negate(op).Success? ==> Negate(Negate(op).value) == Success(op)
  {
  }

  // ---------------------------------------------------------------------
  // Record constructors and their null checks. An `Option` argument stands
  // for a Java reference that may be null; `Failure` is the
  // NullPointerException the constructor throws.

  function NewComparison(operator: Option<Operator>, left: Option<Expr>, right: Option<Expr>): (r: Result<Expr, string>)
    ensures r.Success? <==> operator.Some? && left.Some? && right.Some?
    ensures r.Success? ==> r.value.Comparison? && r.value.operator == operator.value
                           && r.value.left == left.value && r.value.right == right.value
    ensures operator.None? ==> r == Failure("operator is null")
    ensures operator.Some? && left.None? ==> r == Failure("left is null")
    ensures operator.Some? && left.Some? && right.None? ==> r == Failure("right is null")
  {
    if operator.None? then Failure("operator is null")
    else if left.None? then Failure("left is null")
    else if right.None? then Failure("right is null")
    else Success(Comparison(operator.value, left.value, right.value))
  }

  /** `ImmutableList.copyOf`: refuses a null list or a null element. */
  function CopyOf<T>(xs: Option<seq<Option<T>>>): (r: Result<seq<T>, string>)
    ensures r.Success? <==> xs.Some? && forall i :: 0 <= i < |xs.value| ==> xs.value[i].Some?
    ensures r.Success? ==> |r.value| == |xs.value| && forall i :: 0 <= i < |r.value| ==> xs.value[i] == Some(r.value[i])
  {
    if xs.None? then Failure("NullPointerException")
    else CopyElements(xs.value)
  }

  function CopyElements<T>(xs: seq<Option<T>>): (r: Result<seq<T>, string>)
    ensures r.Success? <==> forall i :: 0 <= i < |xs| ==> xs[i].Some?
    ensures r.Success? ==> |r.value| == |xs| && forall i :: 0 <= i < |r.value| ==> xs[i] == Some(r.value[i])
  {
    if xs == [] then Success([])
    else if xs[0].None? then Failure("NullPointerException")
    else
      var rest :- CopyElements(xs[1..]);
      assert forall i :: 1 <= i < |xs| ==> xs[i] == xs[1..][i - 1];
      Success([xs[0].value] + rest)
  }

  function NewSearchedCase(whenClauses: Option<seq<Option<WhenClause>>>, defaultValue: Option<Option<Expr>>): (r: Result<Expr, string>)
    ensures r.Success? <==> CopyOf(whenClauses).Success? && defaultValue.Some?
    ensures CopyOf(whenClauses).Success? && defaultValue.None? ==> r == Failure("defaultValue is null")
    ensures r.Success? ==> r == Success(SearchedCase(CopyOf(whenClauses).value, defaultValue.value))
  {
    var clauses :- CopyOf(whenClauses);
    if defaultValue.None? then Failure("defaultValue is null")
    else Success(SearchedCase(clauses, defaultValue.value))
  }

  /** The two-argument constructor: an unsafe cast. */
  function NewCast(expression: Option<Expr>, targetType: Option<Type>): (r: Result<Expr, string>)
    ensures r.Success? <==> expression.Some? && targetType.Some?
    ensures r.Success? ==> r.value == Cast(expression.value, targetType.value, false) && !r.value.safe
  {
    NewSafeCast(expression, targetType, false)
  }

  function NewSafeCast(expression: Option<Expr>, targetType: Option<Type>, safe: bool): (r: Result<Expr, string>)
    ensures r.Success? <==> expression.Some? && targetType.Some?
    ensures expression.None? ==> r == Failure("expression is null")
    ensures expression.Some? && targetType.None? ==> r == Failure("type is null")
    ensures r.Success? ==> r.value.Cast? && r.value.safe == safe
                           && r.value.argument == expression.value && r.value.targetType == targetType.value
  {
    if expression.None? then Failure("expression is null")
    else if targetType.None? then Failure("type is null")
    else Success(Cast(expression.value, targetType.value, safe))
  }

  function NewBind(values: Option<seq<Option<Expr>>>, target: Option<Expr>): (r: Result<Expr, string>)
    ensures r.Success? <==> target.Some? && CopyOf(values).Success?
    ensures target.None? ==> r == Failure("function is null")
    ensures r.Success? ==> r == Success(Bind(CopyOf(values).value, target.value))
  {
    if target.None? then Failure("function is null")
    else
      var copied :- CopyOf(values);
      Success(Bind(copied, target.value))
  }

  function NewSubscript(base: Option<Expr>, index: Option<Expr>): (r: Result<Expr, string>)
    ensures r.Success? <==> base.Some? && index.Some?
    ensures base.None? ==> r == Failure("base is null")
    ensures base.Some? && index.None? ==> r == Failure("index is null")
    ensures r.Success? ==> r.value.Subscript? && r.value.base == base.value && r.value.index == index.value
  {
    if base.None? then Failure("base is null")
    else if index.None? then Failure("index is null")
    else Success(Subscript(base.value, index.value))
  }

  // ---------------------------------------------------------------------
  // Printed forms that other code relies on

  /** `Cast.toString`: a safe cast prints as TryCast. */
  function CastToString(c: Expr, show: Expr -> string, showType: Type -> string): (r: string)
    requires c.Cast?
    ensures (|r| >= 3 && r[..3] == "Try") <==> c.safe
  {
    var body := "Cast(" + show(c.argument) + ", " + showType(c.targetType) + ")";
    if c.safe then
      assert ("Try" + body)[..3] == "Try";
      "Try" + body
    else
      assert body[..3] == "Cas";
      body
  }

  /** `SearchedCaseExpression.toString`: an absent default prints as "null". */
  function SearchedCaseToString(e: Expr, show: Expr -> string, showClause: WhenClause -> string): (r: string)
    requires e.SearchedCase?
    ensures |r| >= 14 && r[..13] == "SearchedCase("
    ensures e.defaultValue.None? ==> r[|r| - 6..] == " null)"
  {
    var shown := Join(seq(|e.whenClauses|, i requires 0 <= i < |e.whenClauses| => showClause(e.whenClauses[i])));
    var tail := if e.defaultValue.Some? then show(e.defaultValue.value) else "null";
    var r := "SearchedCase(" + shown + ", " + tail + ")";
    assert r[..13] == "SearchedCase(";
    assert e.defaultValue.None? ==> r[|r| - 6..] == " null)";
    r
  }

  function Join(parts: seq<string>): string
  {
    if parts == [] then ""
    else if |parts| == 1 then parts[0]
    else parts[0] + ", " + Join(parts[1..])
  }

  // ---------------------------------------------------------------------
  // Children, in the order getChildren reports them, and the inverse rebuild

  function Flatten(clauses: seq<WhenClause>): (r: seq<Expr>)
    ensures |r| == 2 * |clauses|
  {
    if clauses == [] then []
    else [clauses[0].operand, clauses[0].result] + Flatten(clauses[1..])
  }

  function Unflatten(es: seq<Expr>): (r: seq<WhenClause>)
    requires |es| % 2 == 0
    ensures 2 * |r| == |es|
  {
    if es == [] then []
    else [WhenClause(es[0], es[1])] + Unflatten(es[2..])
  }

  function OptionList(d: Option<Expr>): (r: seq<Expr>)
    ensures |r| == if d.Some? then 1 else 0
  {
    if d.Some? then [d.value] else []
  }

  function Children(e: Expr): seq<Expr>
  {
    match e
    case Constant(_, _) => []
    case SymbolReference(_) => []
    case ArithmeticBinary(_, _, l, r) => [l, r]
    case ArithmeticNegation(x) => [x]
    case Comparison(_, l, r) => [l, r]
    case Between(v, lo, hi) => [v, lo, hi]
    case Logical(_, ts) => ts
    case Not(x) => [x]
    case IsNull(x) => [x]
    case Coalesce(os) => os
    case NullIf(a, b) => [a, b]
    case SearchedCase(ws, d) => Flatten(ws) + OptionList(d)
    case SimpleCase(o, ws, d) => [o] + Flatten(ws) + OptionList(d)
    case In(v, vs) => [v] + vs
    case Cast(x, _, _) => [x]
    case Row(items) => items
    case Subscript(b, i) => [b, i]
    case FunctionCall(_, args) => args
    case Lambda(_, body) => [body]
    case Bind(vs, f) => vs + [f]
  }

  /** The same node with its children replaced, in `Children` order. */
  function WithChildren(e: Expr, cs: seq<Expr>): Expr
    requires |cs| == |Children(e)|
  {
    match e
    case Constant(_, _) => e
    case SymbolReference(_) => e
    case ArithmeticBinary(op, f, _, _) => ArithmeticBinary(op, f, cs[0], cs[1])
    case ArithmeticNegation(_) => ArithmeticNegation(cs[0])
    case Comparison(op, _, _) => Comparison(op, cs[0], cs[1])
    case Between(_, _, _) => Between(cs[0], cs[1], cs[2])
    case Logical(op, _) => Logical(op, cs)
    case Not(_) => Not(cs[0])
    case IsNull(_) => IsNull(cs[0])
    case Coalesce(_) => Coalesce(cs)
    case NullIf(_, _) => NullIf(cs[0], cs[1])
    case SearchedCase(ws, d) =>
      SearchedCase(Unflatten(cs[..2 * |ws|]), if d.Some? then Some(cs[2 * |ws|]) else None)
    case SimpleCase(_, ws, d) =>
      SimpleCase(cs[0], Unflatten(cs[1..1 + 2 * |ws|]), if d.Some? then Some(cs[1 + 2 * |ws|]) else None)
    case In(_, vs) => In(cs[0], cs[1..])
    case Cast(_, t, safe) => Cast(cs[0], t, safe)
    case Row(_) => Row(cs)
    case Subscript(_, _) => Subscript(cs[0], cs[1])
    case FunctionCall(f, _) => FunctionCall(f, cs)
    case Lambda(ps, _) => Lambda(ps, cs[0])
    case Bind(vs, _) => Bind(cs[..|vs|], cs[|vs|])
  }

  lemma {:induction false} UnflattenFlatten(ws: seq<WhenClause>)
    ensures Unflatten(Flatten(ws)) == ws
  {
    if ws != [] {
      UnflattenFlatten(ws[1..]);
      assert Flatten(ws)[2..] == Flatten(ws[1..]);
    }
  }

  lemma {:induction false} FlattenUnflatten(es: seq<Expr>)
    requires |es| % 2 == 0
    ensures Flatten(Unflatten(es)) == es
  {
    if es != [] {
      FlattenUnflatten(es[2..]);
      assert Unflatten(es)[1..] == Unflatten(es[2..]);
    }
  }

  lemma {:induction false} FlattenAt(ws: seq<WhenClause>, i: nat)
    requires i < |ws|
    ensures Flatten(ws)[2 * i] == ws[i].operand && Flatten(ws)[2 * i + 1] == ws[i].result
  {
    if i > 0 {
      FlattenAt(ws[1..], i - 1);
    }
  }

  /** Rebuilding a node from its own children gives the node back. */
  lemma WithOwnChildren(e: Expr)
    ensures WithChildren(e, Children(e)) == e
  {
    match e
    case SearchedCase(ws, d) =>
      assert Children(e)[..2 * |ws|] == Flatten(ws);
      UnflattenFlatten(ws);
    case SimpleCase(o, ws, d) =>
      assert Children(e)[1..1 + 2 * |ws|] == Flatten(ws);
      UnflattenFlatten(ws);
    case In(v, vs) =>
      assert Children(e)[1..] == vs;
    case Bind(vs, f) =>
      assert Children(e)[..|vs|] == vs;
    case _ =>
  }

  /** A rebuilt node reports exactly the children it was given. */
  lemma ChildrenOfWithChildren(e: Expr, cs: seq<Expr>)
    requires |cs| == |Children(e)|
    ensures Children(WithChildren(e, cs)) == cs
  {
    if e.SearchedCase? || e.SimpleCase? {
      ChildrenOfRebuiltCase(e, cs);
    } else if e.In? {
      assert cs == [cs[0]] + cs[1..];
    } else if e.Bind? {
      assert cs == cs[..|e.values|] + [cs[|e.values|]];
    } else if e.ArithmeticNegation? || e.Not? || e.IsNull? || e.Cast? || e.Lambda? {
    } else if e.ArithmeticBinary? || e.Comparison? || e.Between? || e.NullIf? || e.Subscript? {
    } else {
    }
  }

  lemma ChildrenOfRebuiltCase(e: Expr, cs: seq<Expr>)
    requires e.SearchedCase? || e.SimpleCase?
    requires |cs| == |Children(e)|
    ensures Children(WithChildren(e, cs)) == cs
  {
    if e.SearchedCase? {
      ChildrenOfRebuiltSearched(e, cs);
    } else {
      ChildrenOfRebuiltSimple(e, cs);
    }
  }

  lemma ChildrenOfRebuiltSearched(e: Expr, cs: seq<Expr>)
    requires e.SearchedCase?
    requires |cs| == |Children(e)|
    ensures Children(WithChildren(e, cs)) == cs
  {
    var n := 2 * |e.whenClauses|;
    FlattenUnflatten(cs[..n]);
    RebuiltDefault(e.defaultValue, cs, n);
    assert cs == cs[..n] + cs[n..];
  }

  lemma ChildrenOfRebuiltSimple(e: Expr, cs: seq<Expr>)
    requires e.SimpleCase?
    requires |cs| == |Children(e)|
    ensures Children(WithChildren(e, cs)) == cs
  {
    var n := 1 + 2 * |e.whenClauses|;
    FlattenUnflatten(cs[1..n]);
    RebuiltDefault(e.defaultValue, cs, n);
    assert cs == [cs[0]] + cs[1..n] + cs[n..];
  }

  lemma RebuiltDefault(d: Option<Expr>, cs: seq<Expr>, n: nat)
    requires |cs| == n + |OptionList(d)|
    ensures OptionList(if d.Some? then Some(cs[n]) else None) == cs[n..]
  {
  }

  /** SearchedCaseExpression.getChildren: operand then result of each clause,
      in clause order, then the default when present. */
  lemma SearchedCaseChildren(ws: seq<WhenClause>, d: Option<Expr>)
    ensures |Children(SearchedCase(ws, d))| == 2 * |ws| + (if d.Some? then 1 else 0)
    ensures forall i :: 0 <= i < |ws| ==>
              Children(SearchedCase(ws, d))[2 * i] == ws[i].operand
              && Children(SearchedCase(ws, d))[2 * i + 1] == ws[i].result
    ensures d.Some? ==> Children(SearchedCase(ws, d))[2 * |ws|] == d.value
  {
    forall i | 0 <= i < |ws|
      ensures Children(SearchedCase(ws, d))[2 * i] == ws[i].operand
      ensures Children(SearchedCase(ws, d))[2 * i + 1] == ws[i].result
    {
      FlattenAt(ws, i);
    }
  }

  /** BindExpression.getChildren: the captured values in order, then the function. */
  lemma BindChildren(vs: seq<Expr>, f: Expr)
    ensures |Children(Bind(vs, f))| == |vs| + 1
    ensures Children(Bind(vs, f))[..|vs|] == vs && Children(Bind(vs, f))[|vs|] == f
  {
  }

  lemma ComparisonChildren(op: Operator, l: Expr, r: Expr)
    ensures Children(Comparison(op, l, r)) == [l, r]
  {
  }

  lemma CastChildren(x: Expr, t: Type, safe: bool)
    ensures Children(Cast(x, t, safe)) == [x]
  {
  }

  lemma SubscriptChildren(l: Expr, r: Expr)
    ensures Children(Subscript(l, r)) == [l, r]
  {
  }

  // ---------------------------------------------------------------------
  // Size, for termination of generic traversals

  function Size(e: Expr): nat
    decreases e, 1
  {
    match e
    case Constant(_, _) => 1
    case SymbolReference(_) => 1
    case ArithmeticBinary(_, _, l, r) => 1 + Size(l) + Size(r)
    case ArithmeticNegation(x) => 1 + Size(x)
    case Comparison(_, l, r) => 1 + Size(l) + Size(r)
    case Between(v, lo, hi) => 1 + Size(v) + Size(lo) + Size(hi)
    case Logical(_, ts) => 1 + SizeAll(ts)
    case Not(x) => 1 + Size(x)
    case IsNull(x) => 1 + Size(x)
    case Coalesce(os) => 1 + SizeAll(os)
    case NullIf(a, b) => 1 + Size(a) + Size(b)
    case SearchedCase(ws, d) => 1 + SizeClauses(ws) + SizeOption(d)
    case SimpleCase(o, ws, d) => 1 + Size(o) + SizeClauses(ws) + SizeOption(d)
    case In(v, vs) => 1 + Size(v) + SizeAll(vs)
    case Cast(x, _, _) => 1 + Size(x)
    case Row(items) => 1 + SizeAll(items)
    case Subscript(b, i) => 1 + Size(b) + Size(i)
    case FunctionCall(_, args) => 1 + SizeAll(args)
    case Lambda(_, body) => 1 + Size(body)
    case Bind(vs, f) => 1 + SizeAll(vs) + Size(f)
  }

  function SizeAll(es: seq<Expr>): nat
    decreases es, 0
  {
    if es == [] then 0 else Size(es[0]) + SizeAll(es[1..])
  }

  function SizeClauses(ws: seq<WhenClause>): nat
    decreases ws, 1
  {
    if ws == [] then 0 else SizeClause(ws[0]) + SizeClauses(ws[1..])
  }

  function SizeClause(w: WhenClause): nat
    decreases w, 0
  {
    Size(w.operand) + Size(w.result)
  }

  function SizeOption(d: Option<Expr>): nat
    decreases d, 0
  {
    if d.Some? then Size(d.value) else 0
  }

  lemma {:induction false} SizeAllAppend(a: seq<Expr>, b: seq<Expr>)
    ensures SizeAll(a + b) == SizeAll(a) + SizeAll(b)
  {
    if a == [] {
      assert a + b == b;
    } else {
      assert (a + b)[0] == a[0];
      assert (a + b)[1..] == a[1..] + b;
      SizeAllAppend(a[1..], b);
    }
  }

  lemma {:induction false} SizeAllFlatten(ws: seq<WhenClause>)
    ensures SizeAll(Flatten(ws)) == SizeClauses(ws)
  {
    if ws != [] {
      SizeAllFlatten(ws[1..]);
      SizeAllAppend([ws[0].operand, ws[0].result], Flatten(ws[1..]));
    }
  }

  lemma {:induction false} SizeAllElement(es: seq<Expr>, i: nat)
    requires i < |es|
    ensures Size(es[i]) <= SizeAll(es)
  {
    if i > 0 {
      SizeAllElement(es[1..], i - 1);
    }
  }

  /** A node is one larger than all its children together. */
  lemma SizeIsOnePlusChildren(e: Expr)
    ensures Size(e) == 1 + SizeAll(Children(e))
  {
    if e.SearchedCase? || e.SimpleCase? {
      SizeOfCase(e);
    } else if e.In? || e.Bind? {
      SizeOfListAndOne(e);
    } else if e.ArithmeticNegation? || e.Not? || e.IsNull? || e.Cast? || e.Lambda? {
      SizeOfUnary(e);
    } else if e.ArithmeticBinary? || e.Comparison? || e.Between? || e.NullIf? || e.Subscript? {
      SizeOfFixed(e);
    } else {
      SizeOfList(e);
    }
  }

  lemma SizeOfCase(e: Expr)
    requires e.SearchedCase? || e.SimpleCase?
    ensures Size(e) == 1 + SizeAll(Children(e))
  {
    var ws, d := e.whenClauses, e.defaultValue;
    SizeAllFlatten(ws);
    SizeAllAppend(Flatten(ws), OptionList(d));
    if d.Some? {
      SizeAllOne(d.value);
    }
    if e.SimpleCase? {
      SizeOfSimpleCase(e);
    }
  }

  lemma SizeOfSimpleCase(e: Expr)
    requires e.SimpleCase?
    requires SizeAll(Flatten(e.whenClauses) + OptionList(e.defaultValue)) == SizeClauses(e.whenClauses) + SizeOption(e.defaultValue)
    ensures Size(e) == 1 + SizeAll(Children(e))
  {
    var o, ws, d := e.caseOperand, e.whenClauses, e.defaultValue;
    SizeAllAppend([o], Flatten(ws) + OptionList(d));
    SizeAllOne(o);
    assert [o] + Flatten(ws) + OptionList(d) == [o] + (Flatten(ws) + OptionList(d));
  }

  lemma SizeOfListAndOne(e: Expr)
    requires e.In? || e.Bind?
    ensures Size(e) == 1 + SizeAll(Children(e))
  {
    if e.In? {
      SizeAllAppend([e.probe], e.valueList);
      SizeAllOne(e.probe);
    } else {
      SizeAllAppend(e.values, [e.target]);
      SizeAllOne(e.target);
    }
  }

  lemma SizeOfUnary(e: Expr)
    requires e.ArithmeticNegation? || e.Not? || e.IsNull? || e.Cast? || e.Lambda?
    ensures Size(e) == 1 + SizeAll(Children(e))
  {
    SizeAllOne(Children(e)[0]);
  }

  lemma SizeOfFixed(e: Expr)
    requires e.ArithmeticBinary? || e.Comparison? || e.Between? || e.NullIf? || e.Subscript?
    ensures Size(e) == 1 + SizeAll(Children(e))
  {
    var cs := Children(e);
    SizeAllOne(cs[|cs| - 1]);
    assert cs[1..][1..] == cs[2..];
    if |cs| == 3 {
      SizeAllOne(cs[1]);
      assert cs[2..] == [cs[2]];
    }
  }

  lemma SizeOfList(e: Expr)
    requires e.Constant? || e.SymbolReference? || e.Logical? || e.Coalesce? || e.Row? || e.FunctionCall?
    ensures Size(e) == 1 + SizeAll(Children(e))
  {
  }

  lemma SizeAllOne(x: Expr)
    ensures SizeAll([x]) == Size(x)
  {
    assert [x][1..] == [];
  }

  lemma ChildrenAreSmaller(e: Expr)
    ensures forall i :: 0 <= i < |Children(e)| ==> Size(Children(e)[i]) < Size(e)
  {
    SizeIsOnePlusChildren(e);
    forall i | 0 <= i < |Children(e)|
      ensures Size(Children(e)[i]) < Size(e)
    {
      SizeAllElement(Children(e), i);
    }
  }

  // ---------------------------------------------------------------------
  // Determinism: an expression is deterministic unless it calls a
  // non-deterministic function somewhere.

  predicate IsDeterministic(e: Expr)
    decreases Size(e)
  {
    ChildrenAreSmaller(e);
    (e.FunctionCall? ==> e.callee.deterministic)
    && forall i :: 0 <= i < |Children(e)| ==> IsDeterministic(Children(e)[i])
  }
}
