/** The visitor methods that work by filling lists and flags in a loop, written
    as loops. Each one is proved to compute exactly what the corresponding
    recursive definition in `Interpreter` computes, so every law proved about
    the definitions holds of the loops too. */
module InterpreterLoops {
  import opened Ir
  import opened Interpreter

  /** visitLogicalExpression. */
  method LogicalLoop(ctx: Ctx, node: Expr) returns (r: Outcome)
    requires node.Logical?
    ensures r == VisitLogical(ctx, node)
  {
    var op := node.logicalOperator;
    var terms: seq<Typed> := [];
    var i := 0;
    while i < |node.terms|
      invariant 0 <= i <= |node.terms|
      invariant LogicalFold(ctx, node, i, terms) == VisitLogical(ctx, node)
    {
      var term := node.terms[i];
      var processed := Handle(ctx, term);
      if processed.Failure? {
        return Failure(processed.error);
      }
      var p := processed.value;
      if p == Known(Bool(Absorbing(op))) {
        return Success(p);
      }
      if p != Known(Bool(!Absorbing(op))) {
        terms := terms + [Typed(p, ctx.typeOf(term))];
      }
      i := i + 1;
    }
    if terms == [] {
      return Success(Known(Bool(!Absorbing(op))));
    }
    if |terms| == 1 {
      return Success(terms[0].folded);
    }
    var allNull := true;
    var j := 0;
    while j < |terms|
      invariant 0 <= j <= |terms|
      invariant allNull <==> forall k :: 0 <= k < j ==> terms[k].folded == Known(Null)
    {
      if terms[j].folded != Known(Null) {
        allNull := false;
      }
      j := j + 1;
    }
    if allNull {
      return Success(Known(Null));
    }
    var expressions: seq<Expr> := [];
    j := 0;
    while j < |terms|
      invariant 0 <= j <= |terms|
      invariant expressions == TypedExpressions(terms)[..j]
    {
      expressions := expressions + [ToExpression(terms[j].folded, terms[j].typ)];
      j := j + 1;
    }
    assert expressions == TypedExpressions(terms);
    return Success(Residual(Logical(op, expressions)));
  }

  /** processOperands: the operands of a COALESCE, nested ones spliced in,
      duplicates of deterministic residuals skipped, stopping at the first
      operand known to be non-null. */
  method ProcessOperandsLoop(ctx: Ctx, node: Expr) returns (r: Result<seq<Folded>, Failure>)
    requires node.Coalesce?
    ensures r == ProcessOperands(ctx, node)
  {
    var newOperands: seq<Folded> := [];
    var unique: set<Expr> := {};
    var i := 0;
    while i < |node.operands|
      invariant 0 <= i <= |node.operands|
      invariant CoalesceFold(ctx, node, i, newOperands, unique) == ProcessOperands(ctx, node)
    {
      var processed := Handle(ctx, node.operands[i]);
      if processed.Failure? {
        return Failure(processed.error);
      }
      var value := processed.value;
      if value.Residual? && value.expr.Coalesce? {
        var nested := value.expr.operands;
        var kept0, seen0 := newOperands, unique;
        var j := 0;
        while j < |nested|
          invariant 0 <= j <= |nested|
          invariant NestedScan(nested, j, newOperands, unique) == NestedScan(nested, 0, kept0, seen0)
        {
          var x := nested[j];
          if !IsDeterministic(x) || x !in unique {
            newOperands := newOperands + [Residual(x)];
            if IsDeterministic(x) {
              unique := unique + {x};
            }
          }
          if x.Constant? && x.constantValue != Null {
            return Success(newOperands);
          }
          j := j + 1;
        }
      } else if value.Residual? {
        var e := value.expr;
        if !IsDeterministic(e) || e !in unique {
          newOperands := newOperands + [value];
          if IsDeterministic(e) {
            unique := unique + {e};
          }
        }
      } else if value.value != Null {
        return Success(newOperands + [value]);
      }
      i := i + 1;
    }
    return Success(newOperands);
  }

  /** visitSearchedCaseExpression. */
  method SearchedCaseLoop(ctx: Ctx, node: Expr) returns (r: Outcome)
    requires node.SearchedCase?
    ensures r == VisitSearchedCase(ctx, node)
  {
    var whenClauses: seq<WhenClause> := [];
    var foundNewDefault := false;
    var newDefault: Folded := Known(Null);
    var i := 0;
    while i < |node.whenClauses|
      invariant 0 <= i <= |node.whenClauses|
      invariant SearchedFold(ctx, node, i, whenClauses) == SearchedFold(ctx, node, 0, [])
    {
      var w := node.whenClauses[i];
      var operand := Handle(ctx, w.operand);
      if operand.Failure? {
        return Failure(operand.error);
      }
      if operand.value.Residual? {
        var result := Handle(ctx, w.result);
        if result.Failure? {
          return Failure(result.error);
        }
        whenClauses := whenClauses + [WhenClause(operand.value.expr, ToExpression(result.value, ctx.typeOf(w.result)))];
      } else if operand.value.value == Bool(true) {
        var result := Handle(ctx, w.result);
        if result.Failure? {
          return Failure(result.error);
        }
        foundNewDefault := true;
        newDefault := result.value;
        break;
      }
      i := i + 1;
    }
    assert SearchedFold(ctx, node, 0, []) == Success(CaseScan(whenClauses, if foundNewDefault then Some(newDefault) else None));
    var defaultResult: Folded;
    if foundNewDefault {
      defaultResult := newDefault;
    } else {
      var processed := HandleOption(ctx, node, node.defaultValue);
      if processed.Failure? {
        return Failure(processed.error);
      }
      defaultResult := processed.value;
    }
    if whenClauses == [] {
      return Success(defaultResult);
    }
    var defaultExpression := if defaultResult == Known(Null) then None else Some(ToExpression(defaultResult, ctx.typeOf(node)));
    return Success(Residual(SearchedCase(whenClauses, defaultExpression)));
  }

  /** visitInPredicate; a null-compared element stays in a residual list only under KeepNulls. */
  method InLoop(ctx: Ctx, node: Expr, policy: NullPolicy) returns (r: Outcome)
    requires node.In?
    ensures r == VisitIn(ctx, node, policy)
  {
    var processed := Handle(ctx, node.probe);
    if processed.Failure? {
      return Failure(processed.error);
    }
    var value := processed.value;
    if value == Known(Null) {
      return Success(Known(Null));
    }
    var t := ctx.typeOf(node.probe);
    if value.Known? && !IsComplex(t) && NonNullConstants(node.valueList) {
      return Success(Known(Bool(SetContains(ctx, t, value.value, node.valueList))));
    }
    var hasUnresolvedValue := value.Residual?;
    var hasNullValue := false;
    var found := false;
    var values: seq<Folded> := [];
    var types: seq<Type> := [];
    var i := 0;
    while i < |node.valueList|
      invariant 0 <= i <= |node.valueList| && |values| == |types|
      invariant InFold(ctx, node, value, policy, i, InScan(found, hasNullValue, hasUnresolvedValue, values, types))
                == InFold(ctx, node, value, policy, 0, InScan(false, false, value.Residual?, [], []))
    {
      var item := node.valueList[i];
      if value.Residual? && item.Constant? {
        values := values + [Residual(item)];
        types := types + [ctx.typeOf(item)];
      } else {
        var inValue := Process(ctx, item);
        if inValue.Failure? {
          return Failure(inValue.error);
        }
        if value.Residual? || inValue.value.Residual? {
          hasUnresolvedValue := true;
          values := values + [inValue.value];
          types := types + [ctx.typeOf(item)];
        } else {
          var compared := InCompare(ctx, node, value.value, inValue.value.value);
          if compared.Failure? {
            return Failure(compared.error);
          }
          if compared.value.Null? {
            hasNullValue := true;
            if policy == KeepNulls {
              values := values + [inValue.value];
              types := types + [ctx.typeOf(item)];
            }
          } else if compared.value.b {
            found := true;
          }
        }
      }
      i := i + 1;
    }
    return Success(InFinish(value, t, InScan(found, hasNullValue, hasUnresolvedValue, values, types)));
  }
}
