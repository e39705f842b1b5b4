/** The filter-predicate rewrite: NULLIF and CASE conjuncts of a filter are
    replaced by expressions that are TRUE exactly when the original is TRUE.
    FALSE and NULL may be exchanged, which is harmless only because a filter
    keeps a row on TRUE alone. */
module SimplifyFilterPredicate {
  import opened Ir

  /** The FALSE literal or a null constant of any type. */
  predicate IsNotTrue(e: Expr)
  {
    e == FalseLiteral || (e.Constant? && e.constantValue == Null)
  }

  /** `e IS NULL OR NOT e`: TRUE exactly when `e` is not TRUE. */
  function IsFalseOrNullPredicate(e: Expr): (r: Expr)
    ensures r.Logical? && r.logicalOperator == Or && |r.terms| == 2
    ensures r.terms[0] == IsNull(e) && r.terms[1] == Not(e)
  {
    Logical(Or, [IsNull(e), Not(e)])
  }

  /** Conjunction of a list of conjuncts: TRUE for none, the conjunct itself
      for one, an AND node otherwise. */
  function CombineConjuncts(es: seq<Expr>): (r: Expr)
    ensures es == [] ==> r == TrueLiteral
    ensures |es| == 1 ==> r == es[0]
    ensures |es| >= 2 ==> r == Logical(And, es)
  {
    if es == [] then TrueLiteral
    else if |es| == 1 then es[0]
    else Logical(And, es)
  }

  /** The top-level conjuncts of a predicate, nested ANDs flattened. */
  function ExtractConjuncts(e: Expr): seq<Expr>
    decreases e, 1
  {
    if e.Logical? && e.logicalOperator == And then ExtractAll(e.terms) else [e]
  }

  function ExtractAll(es: seq<Expr>): seq<Expr>
    decreases es, 0
  {
    if es == [] then [] else ExtractConjuncts(es[0]) + ExtractAll(es[1..])
  }

  // ---------------------------------------------------------------------
  // simplify(condition, trueValue, falseValue): the if-like CASE

  function SimplifyIf(condition: Expr, trueValue: Expr, falseValue: Option<Expr>): Option<Expr>
  {
    if trueValue == TrueLiteral && (falseValue.None? || IsNotTrue(falseValue.value)) then Some(condition)
    else if IsNotTrue(trueValue) && falseValue == Some(TrueLiteral) then Some(IsFalseOrNullPredicate(condition))
    else if falseValue == Some(trueValue) && IsDeterministic(trueValue) then Some(trueValue)
    else if IsNotTrue(trueValue) && (falseValue.None? || IsNotTrue(falseValue.value)) then Some(FalseLiteral)
    else if condition == TrueLiteral then Some(trueValue)
    else if IsNotTrue(condition) then Some(falseValue.GetOr(FalseLiteral))
    else None
  }

  // ---------------------------------------------------------------------
  // simplify(SearchedCaseExpression)

  function CountTrueResults(ws: seq<WhenClause>): (n: nat)
    ensures n <= |ws|
  {
    if ws == [] then 0 else (if ws[0].result == TrueLiteral then 1 else 0) + CountTrueResults(ws[1..])
  }

  function CountNotTrueResults(ws: seq<WhenClause>): (n: nat)
    ensures n <= |ws|
  {
    if ws == [] then 0 else (if IsNotTrue(ws[0].result) then 1 else 0) + CountNotTrueResults(ws[1..])
  }

  predicate DefaultNotTrue(d: Option<Expr>)
  {
    d.None? || IsNotTrue(d.value)
  }

  /** For the clauses up to the one with the TRUE result: `operand IS NULL OR
      NOT operand` for each earlier clause, then that clause's operand. */
  function UpToTrueResult(ws: seq<WhenClause>): seq<Expr>
  {
    if ws == [] then []
    else if IsNotTrue(ws[0].result) then [IsFalseOrNullPredicate(ws[0].operand)] + UpToTrueResult(ws[1..])
    else [ws[0].operand]
  }

  function AllFalseOrNull(ws: seq<WhenClause>): (r: seq<Expr>)
    ensures |r| == |ws|
    ensures forall i :: 0 <= i < |ws| ==> r[i] == IsFalseOrNullPredicate(ws[i].operand)
  {
    seq(|ws|, i requires 0 <= i < |ws| => IsFalseOrNullPredicate(ws[i].operand))
  }

  /** The last stage: clauses with a not-true operand are dropped; a TRUE
      operand ends the scan and its result becomes the value (no clause kept)
      or the new default; nothing dropped means no change. */
  function SkipClauses(ws: seq<WhenClause>, d: Option<Expr>, i: nat, kept: seq<WhenClause>): Option<Expr>
    requires i <= |ws|
    decreases |ws| - i
  {
    if i == |ws| then
      if kept == [] then Some(d.GetOr(FalseLiteral))
      else if |kept| < |ws| then Some(SearchedCase(kept, d))
      else None
    else if ws[i].operand == TrueLiteral then
      if kept == [] then Some(ws[i].result) else Some(SearchedCase(kept, Some(ws[i].result)))
    else SkipClauses(ws, d, i + 1, if IsNotTrue(ws[i].operand) then kept else kept + [ws[i]])
  }

  function SimplifySearched(c: Expr): Option<Expr>
    requires c.SearchedCase?
  {
    var ws := c.whenClauses;
    var d := c.defaultValue;
    if |ws| == 1 then SimplifyIf(ws[0].operand, ws[0].result, d)
    else
      var trueCount := CountTrueResults(ws);
      var notTrueCount := CountNotTrueResults(ws);
      if trueCount == |ws| && d == Some(TrueLiteral) then Some(TrueLiteral)
      else if notTrueCount == |ws| && DefaultNotTrue(d) then Some(FalseLiteral)
      else if trueCount == 1 && notTrueCount == |ws| - 1 && DefaultNotTrue(d) then Some(CombineConjuncts(UpToTrueResult(ws)))
      else if notTrueCount == |ws| && d == Some(TrueLiteral) then Some(CombineConjuncts(AllFalseOrNull(ws)))
      else SkipClauses(ws, d, 0, [])
  }

  /** simplify(SearchedCaseExpression), with its builder loops. */
  method SimplifySearchedCase(c: Expr) returns (r: Option<Expr>)
    requires c.SearchedCase?
    ensures r == SimplifySearched(c)
  {
    var ws := c.whenClauses;
    var d := c.defaultValue;
    if |ws| == 1 {
      return SimplifyIf(ws[0].operand, ws[0].result, d);
    }
    var trueCount := CountTrueResults(ws);
    var notTrueCount := CountNotTrueResults(ws);
    if trueCount == |ws| && d == Some(TrueLiteral) {
      return Some(TrueLiteral);
    }
    if notTrueCount == |ws| && DefaultNotTrue(d) {
      return Some(FalseLiteral);
    }
    if trueCount == 1 && notTrueCount == |ws| - 1 && DefaultNotTrue(d) {
      var builder := BuildUpToTrueResult(ws);
      return Some(CombineConjuncts(builder));
    }
    if notTrueCount == |ws| && d == Some(TrueLiteral) {
      var builder := BuildAllFalseOrNull(ws);
      return Some(CombineConjuncts(builder));
    }
    r := ScanClauses(ws, d);
  }

  /** The builder loop of the one-TRUE-result rule, which stops at the clause
      with the TRUE result. */
  method BuildUpToTrueResult(ws: seq<WhenClause>) returns (builder: seq<Expr>)
    ensures builder == UpToTrueResult(ws)
  {
    builder := [];
    var i := 0;
    while i < |ws|
      invariant 0 <= i <= |ws|
      invariant builder + UpToTrueResult(ws[i..]) == UpToTrueResult(ws)
    {
      assert ws[i..][1..] == ws[i + 1..];
      if IsNotTrue(ws[i].result) {
        builder := builder + [IsFalseOrNullPredicate(ws[i].operand)];
      } else {
        builder := builder + [ws[i].operand];
        return;
      }
      i := i + 1;
    }
    assert builder + [] == builder;
  }

  /** The builder loop of the TRUE-default rule. */
  method BuildAllFalseOrNull(ws: seq<WhenClause>) returns (builder: seq<Expr>)
    ensures builder == AllFalseOrNull(ws)
  {
    builder := [];
    var i := 0;
    while i < |ws|
      invariant 0 <= i <= |ws|
      invariant builder == AllFalseOrNull(ws)[..i]
    {
      builder := builder + [IsFalseOrNullPredicate(ws[i].operand)];
      i := i + 1;
    }
    assert AllFalseOrNull(ws)[..|ws|] == AllFalseOrNull(ws);
  }

  /** The last stage's loop over the clauses, with its early returns. */
  method ScanClauses(ws: seq<WhenClause>, d: Option<Expr>) returns (r: Option<Expr>)
    ensures r == SkipClauses(ws, d, 0, [])
  {
    var whenClauses: seq<WhenClause> := [];
    var i := 0;
    while i < |ws|
      invariant 0 <= i <= |ws|
      invariant SkipClauses(ws, d, i, whenClauses) == SkipClauses(ws, d, 0, [])
    {
      var operand := ws[i].operand;
      if operand == TrueLiteral {
        if whenClauses == [] {
          return Some(ws[i].result);
        }
        return Some(SearchedCase(whenClauses, Some(ws[i].result)));
      }
      if !IsNotTrue(operand) {
        whenClauses := whenClauses + [ws[i]];
      }
      i := i + 1;
    }
    if whenClauses == [] {
      return Some(d.GetOr(FalseLiteral));
    }
    if |whenClauses| < |ws| {
      return Some(SearchedCase(whenClauses, d));
    }
    return None;
  }

  // ---------------------------------------------------------------------
  // simplify(SimpleCaseExpression)

  predicate AllResultsTrue(ws: seq<WhenClause>)
  {
    forall i :: 0 <= i < |ws| ==> ws[i].result == TrueLiteral
  }

  predicate AllResultsNotTrue(ws: seq<WhenClause>)
  {
    forall i :: 0 <= i < |ws| ==> IsNotTrue(ws[i].result)
  }

  function SimplifySimple(c: Expr): Option<Expr>
    requires c.SimpleCase?
  {
    var d := c.defaultValue;
    if c.caseOperand.Constant? && c.caseOperand.constantValue == Null then Some(d.GetOr(FalseLiteral))
    else if AllResultsTrue(c.whenClauses) && d == Some(TrueLiteral) then Some(TrueLiteral)
    else if AllResultsNotTrue(c.whenClauses) && DefaultNotTrue(d) then Some(FalseLiteral)
    else None
  }

  // ---------------------------------------------------------------------
  // apply

  /** The rewrite of one conjunct, if any. */
  function SimplifyConjunct(e: Expr): Option<Expr>
  {
    match e
    case NullIf(first, second) => Some(Logical(And, [first, IsFalseOrNullPredicate(second)]))
    case SearchedCase(_, _) => SimplifySearched(e)
    case SimpleCase(_, _, _) => SimplifySimple(e)
    case _ => None
  }

  /** Every conjunct replaced by its rewrite where there is one, in place. */
  function RewriteConjuncts(cs: seq<Expr>): (r: seq<Expr>)
    ensures |r| == |cs|
    ensures forall i :: 0 <= i < |cs| ==> r[i] == SimplifyConjunct(cs[i]).GetOr(cs[i])
  {
    seq(|cs|, i requires 0 <= i < |cs| => SimplifyConjunct(cs[i]).GetOr(cs[i]))
  }

  predicate NoneSimplified(cs: seq<Expr>)
  {
    forall i :: 0 <= i < |cs| ==> SimplifyConjunct(cs[i]).None?
  }

  lemma NoneSimplifiedStep(cs: seq<Expr>, i: nat)
    requires i < |cs|
    ensures NoneSimplified(cs[..i + 1]) <==> NoneSimplified(cs[..i]) && SimplifyConjunct(cs[i]).None?
  {
    assert cs[..i + 1] == cs[..i] + [cs[i]];
    assert forall j :: 0 <= j < i ==> cs[..i + 1][j] == cs[..i][j];
  }

  /** The rule on a filter predicate: no result when no conjunct changes,
      otherwise the conjunction of the conjuncts, each rewritten in place. */
  method Apply(filterPredicate: Expr) returns (r: Option<Expr>)
    ensures r.None? <==> NoneSimplified(ExtractConjuncts(filterPredicate))
    ensures r.Some? ==> r.value == CombineConjuncts(RewriteConjuncts(ExtractConjuncts(filterPredicate)))
  {
    var conjuncts := ExtractConjuncts(filterPredicate);
    var newConjuncts: seq<Expr> := [];
    var simplified := false;
    var i := 0;
    while i < |conjuncts|
      invariant 0 <= i <= |conjuncts|
      invariant newConjuncts == RewriteConjuncts(conjuncts)[..i]
      invariant simplified <==> !NoneSimplified(conjuncts[..i])
    {
      var conjunct := conjuncts[i];
      var simplifiedConjunct := SimplifyConjunct(conjunct);
      if simplifiedConjunct.Some? {
        simplified := true;
        newConjuncts := newConjuncts + [simplifiedConjunct.value];
      } else {
        newConjuncts := newConjuncts + [conjunct];
      }
      NoneSimplifiedStep(conjuncts, i);
      i := i + 1;
    }
    assert conjuncts[..i] == conjuncts;
    if !simplified {
      return None;
    }
    assert newConjuncts == RewriteConjuncts(conjuncts);
    return Some(CombineConjuncts(newConjuncts));
  }
}
