/** Why the filter-predicate rewrite is sound: a filter keeps a row only when
    its predicate is TRUE, so a conjunct may be replaced by any expression
    that is TRUE on exactly the same rows. Each rewrite is checked against the
    partial evaluator, on rows where the operands it inspects fold to SQL
    booleans or null. */
module FilterEquivalence {
  import opened Ir
  import opened Interpreter
  import opened InterpreterLaws
  import opened SimplifyFilterPredicate

  /** A value a boolean expression can take: TRUE, FALSE or null. */
  predicate IsTruth(v: Value)
  {
    v.Null? || v.Bool?
  }

  /** The filter keeps the row: the predicate folds to TRUE. */
  predicate KeepsRow(ctx: Ctx, e: Expr)
  {
    Handle(ctx, e) == Success(Known(Bool(true)))
  }

  /** `e` folds to the boolean-or-null value `v`. */
  predicate FoldsTo(ctx: Ctx, e: Expr, v: Value)
  {
    Handle(ctx, e) == Success(Known(v)) && IsTruth(v)
  }

  // ---------------------------------------------------------------------
  // The building blocks of the rewritten predicates

  /** `e IS NULL OR NOT e` is TRUE exactly when `e` is not TRUE, and never
      null. */
  lemma FalseOrNullFolds(ctx: Ctx, e: Expr, v: Value)
    requires FoldsTo(ctx, e, v)
    ensures Handle(ctx, IsFalseOrNullPredicate(e)) == Success(Known(Bool(v != Bool(true))))
  {
    var n := IsFalseOrNullPredicate(e);
    assert VisitIsNull(ctx, IsNull(e)) == Success(Known(Bool(v == Null)));
    assert Handle(ctx, IsNull(e)) == Success(Known(Bool(v == Null)));
    if v.Null? {
      assert LogicalFold(ctx, n, 0, []) == Success(Known(Bool(true)));
    } else {
      assert VisitNot(ctx, Not(e)) == Success(Known(Bool(!v.b)));
      assert Handle(ctx, Not(e)) == Success(Known(Bool(!v.b)));
      assert LogicalFold(ctx, n, 0, []) == LogicalFold(ctx, n, 1, []);
      if v.b {
        assert LogicalFold(ctx, n, 1, []) == LogicalFold(ctx, n, 2, []);
      }
    }
    assert Handle(ctx, n) == VisitLogical(ctx, n);
  }

  /** A two-term AND folds to the three-valued conjunction of its terms. */
  lemma AndFolds(ctx: Ctx, p: Expr, q: Expr, pv: Value, qv: Value)
    requires FoldsTo(ctx, p, pv) && FoldsTo(ctx, q, qv)
    ensures Handle(ctx, Logical(And, [p, q])) == Success(Known(KleeneAnd(pv, qv)))
  {
    var n := Logical(And, [p, q]);
    assert n.terms[0] == p && n.terms[1] == q;
    if pv == Bool(false) {
      assert LogicalFold(ctx, n, 0, []) == Success(Known(Bool(false)));
    } else if pv == Bool(true) {
      assert LogicalFold(ctx, n, 0, []) == LogicalFold(ctx, n, 1, []);
      if qv == Bool(true) {
        assert LogicalFold(ctx, n, 1, []) == LogicalFold(ctx, n, 2, []);
      } else if qv.Null? {
        assert [] + [Typed(Known(Null), ctx.typeOf(q))] == [Typed(Known(Null), ctx.typeOf(q))];
        assert LogicalFold(ctx, n, 1, []) == LogicalFold(ctx, n, 2, [Typed(Known(Null), ctx.typeOf(q))]);
      } else {
        assert LogicalFold(ctx, n, 1, []) == Success(Known(Bool(false)));
      }
    } else if pv.Null? {
      var kept := [Typed(Known(Null), ctx.typeOf(p))];
      assert [] + kept == kept;
      assert LogicalFold(ctx, n, 0, []) == LogicalFold(ctx, n, 1, kept);
      if qv == Bool(true) {
        assert LogicalFold(ctx, n, 1, kept) == LogicalFold(ctx, n, 2, kept);
      } else if qv.Null? {
        var both := kept + [Typed(Known(Null), ctx.typeOf(q))];
        assert LogicalFold(ctx, n, 1, kept) == LogicalFold(ctx, n, 2, both);
        assert AllNull(both);
      } else {
        assert LogicalFold(ctx, n, 1, kept) == Success(Known(Bool(false)));
      }
    }
    assert Handle(ctx, n) == VisitLogical(ctx, n);
  }

  /** A literal folds to its value. */
  lemma ConstantFolds(ctx: Ctx, e: Expr)
    requires e.Constant?
    ensures Handle(ctx, e) == Success(Known(e.constantValue))
  {
  }

  /** The FALSE literal and null constants fold to something other than TRUE. */
  lemma NotTrueFolds(ctx: Ctx, e: Expr)
    requires IsNotTrue(e)
    ensures Handle(ctx, e).Success? && Handle(ctx, e).value.Known?
    ensures Handle(ctx, e).value.value != Bool(true) && IsTruth(Handle(ctx, e).value.value)
  {
  }

  // ---------------------------------------------------------------------
  // NULLIF

  /** The coercions into `t` leave booleans alone and EQUAL on `t` compares
      booleans. */
  ghost predicate BooleanEquality(ctx: Ctx, t: Type)
  {
    && (forall s: Type, x: bool :: ctx.invoke(ctx.coercion(s, t), [Bool(x)]) == Success(Bool(x)))
    && (forall x: bool, y: bool :: InvokeOperator(ctx, EqualOp, [t, t], [Bool(x), Bool(y)]) == Success(Bool(x == y)))
  }

  /** `NULLIF(a, b)` is TRUE exactly when `a` is TRUE and `b` is not. */
  lemma NullIfFolds(ctx: Ctx, a: Expr, b: Expr, av: Value, bv: Value)
    requires FoldsTo(ctx, a, av) && FoldsTo(ctx, b, bv)
    requires ctx.commonSuperType(ctx.typeOf(a), ctx.typeOf(b)).Some?
    requires BooleanEquality(ctx, ctx.commonSuperType(ctx.typeOf(a), ctx.typeOf(b)).value)
    ensures KeepsRow(ctx, NullIf(a, b)) <==> av == Bool(true) && bv != Bool(true)
  {
    var t := ctx.commonSuperType(ctx.typeOf(a), ctx.typeOf(b)).value;
    var n := NullIf(a, b);
    if av.Bool? && bv.Bool? {
      assert ctx.invoke(ctx.coercion(ctx.typeOf(a), t), [Bool(av.b)]) == Success(Bool(av.b));
      assert ctx.invoke(ctx.coercion(ctx.typeOf(b), t), [Bool(bv.b)]) == Success(Bool(bv.b));
      assert InvokeOperator(ctx, EqualOp, [t, t], [Bool(av.b), Bool(bv.b)]) == Success(Bool(av.b == bv.b));
      assert VisitNullIf(ctx, n) == Success(Known(if av.b == bv.b then Null else av));
    } else if av.Null? {
      assert VisitNullIf(ctx, n) == Success(Known(Null));
    } else {
      assert VisitNullIf(ctx, n) == Success(Known(av));
    }
    assert Handle(ctx, n) == VisitNullIf(ctx, n);
  }

  /** The NULLIF rule keeps exactly the rows the NULLIF conjunct keeps:
      `a AND (b IS NULL OR NOT b)`. */
  lemma NullIfRewriteKeepsRows(ctx: Ctx, a: Expr, b: Expr, av: Value, bv: Value)
    requires FoldsTo(ctx, a, av) && FoldsTo(ctx, b, bv)
    requires ctx.commonSuperType(ctx.typeOf(a), ctx.typeOf(b)).Some?
    requires BooleanEquality(ctx, ctx.commonSuperType(ctx.typeOf(a), ctx.typeOf(b)).value)
    ensures SimplifyConjunct(NullIf(a, b)).Some?
    ensures KeepsRow(ctx, NullIf(a, b)) <==> KeepsRow(ctx, SimplifyConjunct(NullIf(a, b)).value)
  {
    NullIfFolds(ctx, a, b, av, bv);
    FalseOrNullFolds(ctx, b, bv);
    AndFolds(ctx, a, IsFalseOrNullPredicate(b), av, Bool(bv != Bool(true)));
  }

  // ---------------------------------------------------------------------
  // Conjunctions

  /** `e` folds to TRUE, FALSE or null. */
  predicate FoldsToTruth(ctx: Ctx, e: Expr)
  {
    Handle(ctx, e).Success? && Handle(ctx, e).value.Known? && IsTruth(Handle(ctx, e).value.value)
  }

  predicate AllFoldToTruth(ctx: Ctx, es: seq<Expr>)
  {
    forall i :: 0 <= i < |es| ==> FoldsToTruth(ctx, es[i])
  }

  predicate AllKeepRow(ctx: Ctx, es: seq<Expr>)
  {
    forall i :: 0 <= i < |es| ==> KeepsRow(ctx, es[i])
  }

  lemma AllOfAppend(ctx: Ctx, a: seq<Expr>, b: seq<Expr>)
    ensures AllKeepRow(ctx, a + b) <==> AllKeepRow(ctx, a) && AllKeepRow(ctx, b)
    ensures AllFoldToTruth(ctx, a + b) <==> AllFoldToTruth(ctx, a) && AllFoldToTruth(ctx, b)
  {
    forall i | 0 <= i < |a|
      ensures (a + b)[i] == a[i]
    {
    }
    forall i | 0 <= i < |b|
      ensures (a + b)[|a| + i] == b[i]
    {
    }
    forall i | |a| <= i < |a + b|
      ensures (a + b)[i] == b[i - |a|]
    {
    }
  }

  /** The AND loop over terms that fold to truth values: only nulls are ever
      kept, and the result is TRUE exactly when nothing was kept and every
      remaining term is TRUE. */
  lemma {:induction false} AndFoldFrom(ctx: Ctx, node: Expr, i: nat, kept: seq<Typed>)
    requires node.Logical? && node.logicalOperator == And && i <= |node.terms|
    requires AllFoldToTruth(ctx, node.terms) && AllNull(kept)
    ensures LogicalFold(ctx, node, i, kept).Success? && LogicalFold(ctx, node, i, kept).value.Known?
    ensures IsTruth(LogicalFold(ctx, node, i, kept).value.value)
    ensures LogicalFold(ctx, node, i, kept) == Success(Known(Bool(true))) <==> kept == [] && AllKeepRow(ctx, node.terms[i..])
    decreases |node.terms| - i
  {
    if i < |node.terms| {
      var term := node.terms[i];
      assert FoldsToTruth(ctx, term);
      assert node.terms[i..] == [term] + node.terms[i + 1..];
      AllOfAppend(ctx, [term], node.terms[i + 1..]);
      var v := Handle(ctx, term).value.value;
      if v == Bool(true) {
        AndFoldFrom(ctx, node, i + 1, kept);
      } else if v.Null? {
        AndFoldFrom(ctx, node, i + 1, kept + [Typed(Known(Null), ctx.typeOf(term))]);
      }
    }
  }

  /** An AND of terms that fold to truth values folds to a truth value, and is
      TRUE exactly when every term is. */
  lemma AndKeepsRowIffAll(ctx: Ctx, es: seq<Expr>)
    requires AllFoldToTruth(ctx, es)
    ensures FoldsToTruth(ctx, Logical(And, es))
    ensures KeepsRow(ctx, Logical(And, es)) <==> AllKeepRow(ctx, es)
  {
    var node := Logical(And, es);
    AndFoldFrom(ctx, node, 0, []);
    assert es[0..] == es;
    assert VisitLogical(ctx, node) == LogicalFold(ctx, node, 0, []);
    assert Process(ctx, node) == VisitLogical(ctx, node);
    assert Handle(ctx, node) == LogicalFold(ctx, node, 0, []);
    assert FoldsToTruth(ctx, node);
    assert AllKeepRow(ctx, node.terms[0..]) <==> AllKeepRow(ctx, es);
  }

  /** The same for the conjunction built by the rewrite. */
  lemma CombineKeepsRowIffAll(ctx: Ctx, es: seq<Expr>)
    requires AllFoldToTruth(ctx, es)
    ensures FoldsToTruth(ctx, CombineConjuncts(es))
    ensures KeepsRow(ctx, CombineConjuncts(es)) <==> AllKeepRow(ctx, es)
  {
    if |es| >= 2 {
      AndKeepsRowIffAll(ctx, es);
    } else if |es| == 1 {
      assert FoldsToTruth(ctx, es[0]);
    }
  }

  // ---------------------------------------------------------------------
  // The meaning of a searched CASE

  predicate IsTrue(o: Outcome)
  {
    o == Success(Known(Bool(true)))
  }

  /** The reference meaning of a searched CASE: the result of the first clause
      whose condition is TRUE, otherwise the default. */
  function CaseReference(ctx: Ctx, ws: seq<WhenClause>, otherwise: Outcome): Outcome
  {
    if ws == [] then otherwise
    else if Handle(ctx, ws[0].operand) == Success(Known(Bool(true))) then Handle(ctx, ws[0].result)
    else CaseReference(ctx, ws[1..], otherwise)
  }

  /** An absent default is null. */
  function DefaultOutcome(ctx: Ctx, d: Option<Expr>): Outcome
  {
    if d.None? then Success(Known(Null)) else Handle(ctx, d.value)
  }

  /** Every condition folds to a value. */
  predicate OperandsKnown(ctx: Ctx, ws: seq<WhenClause>)
  {
    forall i :: 0 <= i < |ws| ==> Handle(ctx, ws[i].operand).Success? && Handle(ctx, ws[i].operand).value.Known?
  }

  lemma {:induction false} SearchedFoldReference(ctx: Ctx, node: Expr, i: nat)
    requires node.SearchedCase? && i <= |node.whenClauses|
    requires OperandsKnown(ctx, node.whenClauses)
    ensures var s := SearchedFold(ctx, node, i, []);
            CaseReference(ctx, node.whenClauses[i..], DefaultOutcome(ctx, node.defaultValue)) ==
              if s.Failure? then Failure(s.error)
              else if s.value.newDefault.Some? then Success(s.value.newDefault.value)
              else DefaultOutcome(ctx, node.defaultValue)
    ensures SearchedFold(ctx, node, i, []).Success? ==> SearchedFold(ctx, node, i, []).value.clauses == []
    decreases |node.whenClauses| - i
  {
    if i < |node.whenClauses| {
      var ws := node.whenClauses;
      assert ws[i..][0] == ws[i] && ws[i..][1..] == ws[i + 1..];
      var operand := Handle(ctx, ws[i].operand);
      assert operand.Success? && operand.value.Known?;
      if operand.value.value != Bool(true) {
        SearchedFoldReference(ctx, node, i + 1);
      }
    }
  }

  /** When every condition folds to a value, a searched CASE evaluates to its
      reference meaning, and keeps a row exactly when that meaning is TRUE. */
  lemma SearchedCaseMeaning(ctx: Ctx, ws: seq<WhenClause>, d: Option<Expr>)
    requires OperandsKnown(ctx, ws)
    ensures VisitSearchedCase(ctx, SearchedCase(ws, d)) == CaseReference(ctx, ws, DefaultOutcome(ctx, d))
    ensures KeepsRow(ctx, SearchedCase(ws, d)) <==> IsTrue(CaseReference(ctx, ws, DefaultOutcome(ctx, d)))
  {
    var node := SearchedCase(ws, d);
    SearchedFoldReference(ctx, node, 0);
    assert ws[0..] == ws;
    assert Process(ctx, node) == VisitSearchedCase(ctx, node);
  }

  lemma {:induction false} CaseReferenceAppend(ctx: Ctx, a: seq<WhenClause>, b: seq<WhenClause>, otherwise: Outcome)
    ensures CaseReference(ctx, a + b, otherwise) == CaseReference(ctx, a, CaseReference(ctx, b, otherwise))
  {
    if a == [] {
      assert a + b == b;
    } else {
      assert (a + b)[0] == a[0] && (a + b)[1..] == a[1..] + b;
      CaseReferenceAppend(ctx, a[1..], b, otherwise);
    }
  }

  /** The meaning is the default or the result of some clause. */
  lemma {:induction false} CaseReferenceChoice(ctx: Ctx, ws: seq<WhenClause>, otherwise: Outcome)
    ensures CaseReference(ctx, ws, otherwise) == otherwise
            || exists k :: 0 <= k < |ws| && CaseReference(ctx, ws, otherwise) == Handle(ctx, ws[k].result)
  {
    if ws != [] && Handle(ctx, ws[0].operand) != Success(Known(Bool(true))) {
      CaseReferenceChoice(ctx, ws[1..], otherwise);
      if CaseReference(ctx, ws[1..], otherwise) != otherwise {
        var k :| 0 <= k < |ws[1..]| && CaseReference(ctx, ws[1..], otherwise) == Handle(ctx, ws[1..][k].result);
        assert ws[1..][k] == ws[k + 1];
      }
    }
  }

  /** No result and no default is TRUE: the CASE is never TRUE. */
  lemma NeverTrue(ctx: Ctx, ws: seq<WhenClause>, otherwise: Outcome)
    requires forall i :: 0 <= i < |ws| ==> IsNotTrue(ws[i].result)
    requires !IsTrue(otherwise)
    ensures !IsTrue(CaseReference(ctx, ws, otherwise))
  {
    CaseReferenceChoice(ctx, ws, otherwise);
    if CaseReference(ctx, ws, otherwise) != otherwise {
      var k :| 0 <= k < |ws| && CaseReference(ctx, ws, otherwise) == Handle(ctx, ws[k].result);
      NotTrueFolds(ctx, ws[k].result);
    }
  }

  /** Every result and the default are TRUE: the CASE is TRUE. */
  lemma AlwaysTrue(ctx: Ctx, ws: seq<WhenClause>, otherwise: Outcome)
    requires forall i :: 0 <= i < |ws| ==> ws[i].result == TrueLiteral
    requires IsTrue(otherwise)
    ensures IsTrue(CaseReference(ctx, ws, otherwise))
  {
    CaseReferenceChoice(ctx, ws, otherwise);
  }

  // ---------------------------------------------------------------------
  // The if-like CASE

  /** Every rule for the if-like CASE keeps exactly the rows the CASE keeps;
      only the condition has to fold to a truth value. */
  lemma SimplifyIfKeepsRows(ctx: Ctx, c: Expr, t: Expr, f: Option<Expr>)
    requires FoldsToTruth(ctx, c)
    ensures SimplifyIf(c, t, f).Some? ==>
              (KeepsRow(ctx, SearchedCase([WhenClause(c, t)], f)) <==> KeepsRow(ctx, SimplifyIf(c, t, f).value))
  {
    IfMeaning(ctx, c, t, f);
    var cv := Handle(ctx, c).value.value;
    if f.Some? && IsNotTrue(f.value) {
      NotTrueFolds(ctx, f.value);
    }
    if f.Some? && f.value == TrueLiteral {
      ConstantFolds(ctx, f.value);
    }
    if IsNotTrue(t) {
      NotTrueFolds(ctx, t);
    }
    if t == TrueLiteral {
      ConstantFolds(ctx, t);
    }
    if IsNotTrue(c) {
      NotTrueFolds(ctx, c);
    }
    if IsNotTrue(t) && f == Some(TrueLiteral) {
      FalseOrNullFolds(ctx, c, cv);
    }
  }

  /** A one-clause CASE keeps a row when its condition is TRUE and its result
      is TRUE, or its condition is not TRUE and its default is TRUE. */
  lemma IfMeaning(ctx: Ctx, c: Expr, t: Expr, f: Option<Expr>)
    requires FoldsToTruth(ctx, c)
    ensures KeepsRow(ctx, SearchedCase([WhenClause(c, t)], f)) <==>
              if KeepsRow(ctx, c) then KeepsRow(ctx, t) else IsTrue(DefaultOutcome(ctx, f))
  {
    var ws := [WhenClause(c, t)];
    SearchedCaseMeaning(ctx, ws, f);
    assert ws[1..] == [];
  }

  // ---------------------------------------------------------------------
  // The searched CASE with several clauses

  lemma {:induction false} CountsCover(ws: seq<WhenClause>)
    ensures CountTrueResults(ws) + CountNotTrueResults(ws) <= |ws|
    ensures CountTrueResults(ws) + CountNotTrueResults(ws) == |ws| ==>
              forall i :: 0 <= i < |ws| ==> ws[i].result == TrueLiteral || IsNotTrue(ws[i].result)
    ensures CountTrueResults(ws) == |ws| ==> forall i :: 0 <= i < |ws| ==> ws[i].result == TrueLiteral
    ensures CountNotTrueResults(ws) == |ws| ==> forall i :: 0 <= i < |ws| ==> IsNotTrue(ws[i].result)
    ensures CountTrueResults(ws) == 0 ==> forall i :: 0 <= i < |ws| ==> ws[i].result != TrueLiteral
  {
    if ws != [] {
      CountsCover(ws[1..]);
      assert forall i :: 1 <= i < |ws| ==> ws[i] == ws[1..][i - 1];
    }
  }

  /** The rule for exactly one TRUE result: the conjuncts "an earlier
      condition is not TRUE" and "this clause's condition" are all TRUE
      exactly when the CASE is. */
  lemma {:induction false} UpToTrueKeepsRows(ctx: Ctx, ws: seq<WhenClause>, otherwise: Outcome)
    requires forall i :: 0 <= i < |ws| ==> ws[i].result == TrueLiteral || IsNotTrue(ws[i].result)
    requires CountTrueResults(ws) == 1
    requires forall i :: 0 <= i < |ws| ==> FoldsToTruth(ctx, ws[i].operand)
    requires !IsTrue(otherwise)
    ensures AllFoldToTruth(ctx, UpToTrueResult(ws))
    ensures AllKeepRow(ctx, UpToTrueResult(ws)) <==> IsTrue(CaseReference(ctx, ws, otherwise))
  {
    assert forall i :: 0 <= i < |ws[1..]| ==> ws[1..][i] == ws[i + 1];
    if IsNotTrue(ws[0].result) {
      UpToTrueKeepsRows(ctx, ws[1..], otherwise);
      UpToTrueSkip(ctx, ws, otherwise);
    } else {
      UpToTrueHere(ctx, ws, otherwise);
    }
  }

  /** A clause with a not-TRUE result before the TRUE one contributes
      `operand IS NULL OR NOT operand`. */
  lemma UpToTrueSkip(ctx: Ctx, ws: seq<WhenClause>, otherwise: Outcome)
    requires |ws| >= 1 && IsNotTrue(ws[0].result) && FoldsToTruth(ctx, ws[0].operand)
    requires AllFoldToTruth(ctx, UpToTrueResult(ws[1..]))
    requires AllKeepRow(ctx, UpToTrueResult(ws[1..])) <==> IsTrue(CaseReference(ctx, ws[1..], otherwise))
    ensures AllFoldToTruth(ctx, UpToTrueResult(ws))
    ensures AllKeepRow(ctx, UpToTrueResult(ws)) <==> IsTrue(CaseReference(ctx, ws, otherwise))
  {
    var c := ws[0].operand;
    var cv := Handle(ctx, c).value.value;
    NotTrueFolds(ctx, ws[0].result);
    FalseOrNullFolds(ctx, c, cv);
    assert UpToTrueResult(ws) == [IsFalseOrNullPredicate(c)] + UpToTrueResult(ws[1..]);
    AllOfAppend(ctx, [IsFalseOrNullPredicate(c)], UpToTrueResult(ws[1..]));
    assert KeepsRow(ctx, IsFalseOrNullPredicate(c)) <==> cv != Bool(true);
    if cv == Bool(true) {
      assert Handle(ctx, c) == Success(Known(Bool(true)));
      assert CaseReference(ctx, ws, otherwise) == Handle(ctx, ws[0].result);
      assert UpToTrueResult(ws)[0] == IsFalseOrNullPredicate(c);
    } else {
      assert CaseReference(ctx, ws, otherwise) == CaseReference(ctx, ws[1..], otherwise);
    }
  }

  /** The clause with the TRUE result contributes its operand and ends the
      list; no later clause yields TRUE. */
  lemma UpToTrueHere(ctx: Ctx, ws: seq<WhenClause>, otherwise: Outcome)
    requires |ws| >= 1 && ws[0].result == TrueLiteral && FoldsToTruth(ctx, ws[0].operand)
    requires forall i :: 0 <= i < |ws| ==> ws[i].result == TrueLiteral || IsNotTrue(ws[i].result)
    requires CountTrueResults(ws) == 1
    requires !IsTrue(otherwise)
    ensures AllFoldToTruth(ctx, UpToTrueResult(ws))
    ensures AllKeepRow(ctx, UpToTrueResult(ws)) <==> IsTrue(CaseReference(ctx, ws, otherwise))
  {
    var c := ws[0].operand;
    assert forall i :: 0 <= i < |ws[1..]| ==> ws[1..][i] == ws[i + 1];
    CountsCover(ws[1..]);
    NeverTrue(ctx, ws[1..], otherwise);
    ConstantFolds(ctx, ws[0].result);
    assert UpToTrueResult(ws) == [c];
    assert [c][0] == c;
    if Handle(ctx, c) == Success(Known(Bool(true))) {
      assert IsTrue(CaseReference(ctx, ws, otherwise));
    } else {
      assert CaseReference(ctx, ws, otherwise) == CaseReference(ctx, ws[1..], otherwise);
    }
  }

  /** The rule for all results not TRUE and a TRUE default: the CASE is TRUE
      exactly when no condition is. */
  lemma {:induction false} NoConditionTrue(ctx: Ctx, ws: seq<WhenClause>, otherwise: Outcome)
    requires forall i :: 0 <= i < |ws| ==> IsNotTrue(ws[i].result)
    requires IsTrue(otherwise)
    ensures IsTrue(CaseReference(ctx, ws, otherwise)) <==>
              forall i :: 0 <= i < |ws| ==> Handle(ctx, ws[i].operand) != Success(Known(Bool(true)))
  {
    if ws != [] {
      assert forall i :: 0 <= i < |ws[1..]| ==> ws[1..][i] == ws[i + 1];
      NoConditionTrue(ctx, ws[1..], otherwise);
      NotTrueFolds(ctx, ws[0].result);
      assert forall i :: 1 <= i < |ws| ==> ws[i] == ws[1..][i - 1];
    }
  }

  lemma AllFalseOrNullKeepsRows(ctx: Ctx, ws: seq<WhenClause>, otherwise: Outcome)
    requires forall i :: 0 <= i < |ws| ==> IsNotTrue(ws[i].result)
    requires forall i :: 0 <= i < |ws| ==> FoldsToTruth(ctx, ws[i].operand)
    requires IsTrue(otherwise)
    ensures AllFoldToTruth(ctx, AllFalseOrNull(ws))
    ensures AllKeepRow(ctx, AllFalseOrNull(ws)) <==> IsTrue(CaseReference(ctx, ws, otherwise))
  {
    NoConditionTrue(ctx, ws, otherwise);
    forall i | 0 <= i < |ws|
      ensures FoldsToTruth(ctx, AllFalseOrNull(ws)[i])
      ensures KeepsRow(ctx, AllFalseOrNull(ws)[i]) <==> Handle(ctx, ws[i].operand) != Success(Known(Bool(true)))
    {
      assert FoldsToTruth(ctx, ws[i].operand);
      FalseOrNullFolds(ctx, ws[i].operand, Handle(ctx, ws[i].operand).value.value);
    }
  }

  /** The last stage: dropping clauses whose condition is a not-TRUE
      constant and cutting the CASE at a TRUE condition keeps its meaning. */
  lemma {:induction false} SkipClausesKeepsRows(ctx: Ctx, ws: seq<WhenClause>, d: Option<Expr>, i: nat, kept: seq<WhenClause>)
    requires i <= |ws|
    requires OperandsKnown(ctx, ws) && OperandsKnown(ctx, kept)
    requires SkipClauses(ws, d, i, kept).Some?
    ensures KeepsRow(ctx, SkipClauses(ws, d, i, kept).value) <==> IsTrue(CaseReference(ctx, kept + ws[i..], DefaultOutcome(ctx, d)))
    decreases |ws| - i
  {
    var otherwise := DefaultOutcome(ctx, d);
    if i == |ws| {
      assert kept + ws[i..] == kept;
      if kept != [] {
        SearchedCaseMeaning(ctx, kept, d);
      }
    } else {
      CaseReferenceAppend(ctx, kept, ws[i..], otherwise);
      assert ws[i..][0] == ws[i] && ws[i..][1..] == ws[i + 1..];
      if ws[i].operand == TrueLiteral {
        if kept != [] {
          SearchedCaseMeaning(ctx, kept, Some(ws[i].result));
        }
      } else if IsNotTrue(ws[i].operand) {
        NotTrueFolds(ctx, ws[i].operand);
        SkipClausesKeepsRows(ctx, ws, d, i + 1, kept);
        CaseReferenceAppend(ctx, kept, ws[i + 1..], otherwise);
      } else {
        var next := kept + [ws[i]];
        assert forall j :: 0 <= j < |kept| ==> next[j] == kept[j];
        assert next[|kept|] == ws[i];
        SkipClausesKeepsRows(ctx, ws, d, i + 1, next);
        assert next + ws[i + 1..] == kept + ws[i..];
      }
    }
  }

  /** Every rule for the searched CASE keeps exactly the rows the CASE keeps,
      when every condition folds to a truth value. */
  lemma SimplifySearchedKeepsRows(ctx: Ctx, c: Expr)
    requires c.SearchedCase?
    requires forall i :: 0 <= i < |c.whenClauses| ==> FoldsToTruth(ctx, c.whenClauses[i].operand)
    ensures SimplifySearched(c).Some? ==> (KeepsRow(ctx, c) <==> KeepsRow(ctx, SimplifySearched(c).value))
  {
    var ws := c.whenClauses;
    var d := c.defaultValue;
    SearchedCaseMeaning(ctx, ws, d);
    if |ws| == 1 {
      assert FoldsToTruth(ctx, ws[0].operand);
      assert c == SearchedCase([WhenClause(ws[0].operand, ws[0].result)], d);
      SimplifyIfKeepsRows(ctx, ws[0].operand, ws[0].result, d);
    } else {
      assert c == SearchedCase(ws, d);
      MultiClauseKeepsRows(ctx, ws, d);
    }
  }

  /** The rules for any number of clauses but one, against the reference
      meaning. */
  lemma MultiClauseKeepsRows(ctx: Ctx, ws: seq<WhenClause>, d: Option<Expr>)
    requires |ws| != 1
    requires forall i :: 0 <= i < |ws| ==> FoldsToTruth(ctx, ws[i].operand)
    ensures var r := SimplifySearched(SearchedCase(ws, d));
            r.Some? ==> (IsTrue(CaseReference(ctx, ws, DefaultOutcome(ctx, d))) <==> KeepsRow(ctx, r.value))
  {
    var otherwise := DefaultOutcome(ctx, d);
    CountsCover(ws);
    if d.Some? && IsNotTrue(d.value) {
      NotTrueFolds(ctx, d.value);
    }
    if d == Some(TrueLiteral) {
      ConstantFolds(ctx, TrueLiteral);
    }
    var trueCount := CountTrueResults(ws);
    var notTrueCount := CountNotTrueResults(ws);
    if trueCount == |ws| && d == Some(TrueLiteral) {
      AlwaysTrue(ctx, ws, otherwise);
    } else if notTrueCount == |ws| && DefaultNotTrue(d) {
      NeverTrue(ctx, ws, otherwise);
    } else if trueCount == 1 && notTrueCount == |ws| - 1 && DefaultNotTrue(d) {
      OneTrueResultRule(ctx, ws, otherwise);
    } else if notTrueCount == |ws| && d == Some(TrueLiteral) {
      TrueDefaultRule(ctx, ws, otherwise);
    } else if SkipClauses(ws, d, 0, []).Some? {
      SkipClausesKeepsRows(ctx, ws, d, 0, []);
      assert [] + ws[0..] == ws;
    }
  }

  lemma OneTrueResultRule(ctx: Ctx, ws: seq<WhenClause>, otherwise: Outcome)
    requires forall i :: 0 <= i < |ws| ==> ws[i].result == TrueLiteral || IsNotTrue(ws[i].result)
    requires CountTrueResults(ws) == 1
    requires forall i :: 0 <= i < |ws| ==> FoldsToTruth(ctx, ws[i].operand)
    requires !IsTrue(otherwise)
    ensures IsTrue(CaseReference(ctx, ws, otherwise)) <==> KeepsRow(ctx, CombineConjuncts(UpToTrueResult(ws)))
  {
    UpToTrueKeepsRows(ctx, ws, otherwise);
    CombineKeepsRowIffAll(ctx, UpToTrueResult(ws));
  }

  lemma TrueDefaultRule(ctx: Ctx, ws: seq<WhenClause>, otherwise: Outcome)
    requires forall i :: 0 <= i < |ws| ==> IsNotTrue(ws[i].result)
    requires forall i :: 0 <= i < |ws| ==> FoldsToTruth(ctx, ws[i].operand)
    requires IsTrue(otherwise)
    ensures IsTrue(CaseReference(ctx, ws, otherwise)) <==> KeepsRow(ctx, CombineConjuncts(AllFalseOrNull(ws)))
  {
    AllFalseOrNullKeepsRows(ctx, ws, otherwise);
    CombineKeepsRowIffAll(ctx, AllFalseOrNull(ws));
  }

  // ---------------------------------------------------------------------
  // The simple CASE

  lemma {:induction false} SimpleFoldChoice(ctx: Ctx, node: Expr, operand: Folded, i: nat)
    requires node.SimpleCase? && i <= |node.whenClauses|
    requires operand.Known? && OperandsKnown(ctx, node.whenClauses)
    ensures var s := SimpleFold(ctx, node, operand, i, []);
            s.Success? ==>
              && s.value.clauses == []
              && (s.value.newDefault.None?
                  || exists k :: i <= k < |node.whenClauses| && Handle(ctx, node.whenClauses[k].result) == Success(s.value.newDefault.value))
    decreases |node.whenClauses| - i
  {
    if i < |node.whenClauses| {
      var w := node.whenClauses[i];
      assert Handle(ctx, w.operand).Success? && Handle(ctx, w.operand).value.Known?;
      SimpleFoldChoice(ctx, node, operand, i + 1);
    }
  }

  /** Every rule for the simple CASE keeps exactly the rows the CASE keeps,
      when the operands fold to values and the CASE evaluates without error. */
  lemma SimplifySimpleKeepsRows(ctx: Ctx, c: Expr)
    requires c.SimpleCase?
    requires Handle(ctx, c.caseOperand).Success? && Handle(ctx, c.caseOperand).value.Known?
    requires OperandsKnown(ctx, c.whenClauses)
    requires VisitSimpleCase(ctx, c).Success?
    ensures SimplifySimple(c).Some? ==> (KeepsRow(ctx, c) <==> KeepsRow(ctx, SimplifySimple(c).value))
  {
    var ws := c.whenClauses;
    var d := c.defaultValue;
    assert Process(ctx, c) == VisitSimpleCase(ctx, c);
    if d.Some? && IsNotTrue(d.value) {
      NotTrueFolds(ctx, d.value);
    }
    if d == Some(TrueLiteral) {
      ConstantFolds(ctx, TrueLiteral);
    }
    ConstantFolds(ctx, FalseLiteral);
    var operand := Handle(ctx, c.caseOperand).value;
    if operand != Known(Null) {
      SimpleFoldChoice(ctx, c, operand, 0);
      var s := SimpleFold(ctx, c, operand, 0, []);
      assert s.Success?;
      if s.value.newDefault.Some? {
        var k :| 0 <= k < |ws| && Handle(ctx, ws[k].result) == Success(s.value.newDefault.value);
        if AllResultsNotTrue(ws) {
          NotTrueFolds(ctx, ws[k].result);
        }
        if AllResultsTrue(ws) {
          ConstantFolds(ctx, ws[k].result);
        }
      }
    }
  }

  // ---------------------------------------------------------------------
  // apply

  /** What each rewrite needs of the row: NULLIF over booleans with a
      boolean equality, conditions that fold to truth values for a searched
      CASE, and an operand and WHEN values that fold, without error, for a
      simple CASE. */
  ghost predicate RewriteConditions(ctx: Ctx, c: Expr)
  {
    match c
    case NullIf(a, b) =>
      && FoldsToTruth(ctx, a) && FoldsToTruth(ctx, b)
      && ctx.commonSuperType(ctx.typeOf(a), ctx.typeOf(b)).Some?
      && BooleanEquality(ctx, ctx.commonSuperType(ctx.typeOf(a), ctx.typeOf(b)).value)
    case SearchedCase(ws, _) =>
      forall i :: 0 <= i < |ws| ==> FoldsToTruth(ctx, ws[i].operand)
    case SimpleCase(operand, ws, _) =>
      && Handle(ctx, operand).Success? && Handle(ctx, operand).value.Known?
      && OperandsKnown(ctx, ws)
      && VisitSimpleCase(ctx, c).Success?
    case _ => true
  }

  /** One conjunct: its rewrite keeps exactly the rows it keeps. */
  lemma SimplifyConjunctKeepsRows(ctx: Ctx, c: Expr)
    requires RewriteConditions(ctx, c)
    ensures KeepsRow(ctx, c) <==> KeepsRow(ctx, SimplifyConjunct(c).GetOr(c))
  {
    match c
    case NullIf(a, b) =>
      NullIfRewriteKeepsRows(ctx, a, b, Handle(ctx, a).value.value, Handle(ctx, b).value.value);
    case SearchedCase(_, _) =>
      SimplifySearchedKeepsRows(ctx, c);
    case SimpleCase(_, _, _) =>
      SimplifySimpleKeepsRows(ctx, c);
    case _ =>
  }

  /** A predicate whose nest of ANDs ends in conjuncts that fold to truth
      values. */
  predicate WellFolded(ctx: Ctx, e: Expr)
  {
    if e.Logical? && e.logicalOperator == And then forall i :: 0 <= i < |e.terms| ==> WellFolded(ctx, e.terms[i])
    else FoldsToTruth(ctx, e)
  }

  /** A filter keeps a row exactly when every one of its extracted conjuncts
      does. */
  lemma {:induction false} ExtractKeepsRows(ctx: Ctx, e: Expr)
    requires WellFolded(ctx, e)
    ensures FoldsToTruth(ctx, e)
    ensures AllFoldToTruth(ctx, ExtractConjuncts(e))
    ensures KeepsRow(ctx, e) <==> AllKeepRow(ctx, ExtractConjuncts(e))
    decreases e, 1
  {
    if e.Logical? && e.logicalOperator == And {
      ExtractAllKeepsRows(ctx, e.terms);
      AndKeepsRowIffAll(ctx, e.terms);
    } else {
      assert ExtractConjuncts(e) == [e];
      assert FoldsToTruth(ctx, e);
      assert forall i :: 0 <= i < |[e]| ==> [e][i] == e;
      assert AllFoldToTruth(ctx, ExtractConjuncts(e));
      assert KeepsRow(ctx, e) ==> AllKeepRow(ctx, ExtractConjuncts(e));
      assert AllKeepRow(ctx, ExtractConjuncts(e)) ==> KeepsRow(ctx, ExtractConjuncts(e)[0]);
    }
  }

  lemma {:induction false} ExtractAllKeepsRows(ctx: Ctx, es: seq<Expr>)
    requires forall i :: 0 <= i < |es| ==> WellFolded(ctx, es[i])
    ensures AllFoldToTruth(ctx, es)
    ensures AllFoldToTruth(ctx, ExtractAll(es))
    ensures AllKeepRow(ctx, es) <==> AllKeepRow(ctx, ExtractAll(es))
    decreases es, 0
  {
    if es != [] {
      assert WellFolded(ctx, es[0]);
      assert forall i :: 0 <= i < |es[1..]| ==> es[1..][i] == es[i + 1];
      ExtractKeepsRows(ctx, es[0]);
      ExtractAllKeepsRows(ctx, es[1..]);
      AllOfAppend(ctx, ExtractConjuncts(es[0]), ExtractAll(es[1..]));
      assert es == [es[0]] + es[1..];
      AllOfAppend(ctx, [es[0]], es[1..]);
    }
  }

  /** The whole rule: when every conjunct meets its rewrite's conditions and
      its rewrite folds to a truth value, the rewritten filter keeps exactly
      the rows the original keeps. */
  lemma ApplyKeepsRows(ctx: Ctx, filterPredicate: Expr)
    requires WellFolded(ctx, filterPredicate)
    requires forall c :: c in ExtractConjuncts(filterPredicate) ==>
               RewriteConditions(ctx, c) && FoldsToTruth(ctx, SimplifyConjunct(c).GetOr(c))
    ensures KeepsRow(ctx, filterPredicate) <==> KeepsRow(ctx, CombineConjuncts(RewriteConjuncts(ExtractConjuncts(filterPredicate))))
  {
    var cs := ExtractConjuncts(filterPredicate);
    ExtractKeepsRows(ctx, filterPredicate);
    var rs := RewriteConjuncts(cs);
    forall i | 0 <= i < |cs|
      ensures FoldsToTruth(ctx, rs[i])
      ensures KeepsRow(ctx, cs[i]) <==> KeepsRow(ctx, rs[i])
    {
      assert cs[i] in cs;
      SimplifyConjunctKeepsRows(ctx, cs[i]);
    }
    CombineKeepsRowIffAll(ctx, rs);
  }
}
