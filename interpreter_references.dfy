/** Reference definitions for the folds of COALESCE, CASE and CAST, written
    over the outcomes of the operands one by one rather than as a scan, and
    the proofs that the partial evaluator computes them. */
module InterpreterReferences {
  import opened Ir
  import opened Interpreter
  import opened InterpreterLaws

  // ---------------------------------------------------------------------
  // COALESCE

  /** Each operand of the COALESCE processed on its own. */
  function OperandOutcomes(ctx: Ctx, node: Expr): (r: seq<Outcome>)
    requires node.Coalesce?
    ensures |r| == |node.operands|
    ensures forall i :: 0 <= i < |r| ==> r[i] == Handle(ctx, node.operands[i])
  {
    seq(|node.operands|, i requires 0 <= i < |node.operands| => Handle(ctx, node.operands[i]))
  }

  /** Position of the first non-null constant, or the length. */
  function FirstNonNullConstant(es: seq<Expr>): (k: nat)
    ensures k <= |es|
    ensures forall j :: 0 <= j < k ==> !(es[j].Constant? && es[j].constantValue != Null)
    ensures k < |es| ==> es[k].Constant? && es[k].constantValue != Null
  {
    if es == [] then 0
    else if es[0].Constant? && es[0].constantValue != Null then 0
    else 1 + FirstNonNullConstant(es[1..])
  }

  function AsResiduals(es: seq<Expr>): (r: seq<Folded>)
    ensures |r| == |es|
    ensures forall i :: 0 <= i < |es| ==> r[i] == Residual(es[i])
  {
    seq(|es|, i requires 0 <= i < |es| => Residual(es[i]))
  }

  /** The operands of the folded COALESCE before duplicates are removed: the
      first failure is passed on; the operands of a nested residual COALESCE
      are spliced in, up to and including its first non-null constant, which
      ends the list; a null is dropped; a known non-null value ends the
      list. */
  function OperandStream(os: seq<Outcome>): Result<seq<Folded>, Failure>
  {
    if os == [] then Success([])
    else if os[0].Failure? then Failure(os[0].error)
    else
      var f := os[0].value;
      if f.Residual? && f.expr.Coalesce? then
        var k := FirstNonNullConstant(f.expr.operands);
        if k < |f.expr.operands| then Success(AsResiduals(f.expr.operands[..k + 1]))
        else
          var rest :- OperandStream(os[1..]);
          Success(AsResiduals(f.expr.operands) + rest)
      else if f.Residual? then
        var rest :- OperandStream(os[1..]);
        Success([f] + rest)
      else if f.value == Null then OperandStream(os[1..])
      else Success([f])
  }

  lemma AsResidualsFirst(es: seq<Expr>)
    requires es != []
    ensures AsResiduals(es) == [Residual(es[0])] + AsResiduals(es[1..])
  {
    var a := AsResiduals(es);
    var b := [Residual(es[0])] + AsResiduals(es[1..]);
    assert |a| == |b|;
    forall i | 0 <= i < |a| ensures a[i] == b[i] {
      if i > 0 {
        assert b[i] == AsResiduals(es[1..])[i - 1];
      }
    }
  }

  /** Position `i` holds a deterministic residual that already occurred. */
  predicate Repeats(fs: seq<Folded>, i: nat)
    requires i < |fs|
  {
    fs[i].Residual? && IsDeterministic(fs[i].expr) && fs[i] in fs[..i]
  }

  /** The list without the repeats of deterministic residuals; the first
      occurrence stays, and a non-deterministic residual always stays. */
  function FirstOccurrences(fs: seq<Folded>): seq<Folded>
  {
    if fs == [] then []
    else FirstOccurrences(fs[..|fs| - 1]) + (if Repeats(fs, |fs| - 1) then [] else [fs[|fs| - 1]])
  }

  /** Removing repeats loses no operand, and leaves no deterministic residual
      twice. */
  lemma {:induction false} FirstOccurrencesDistinct(fs: seq<Folded>)
    ensures forall x :: x in FirstOccurrences(fs) <==> x in fs
    ensures NoRepeatedDeterministic(FirstOccurrences(fs))
  {
    if fs != [] {
      var init := fs[..|fs| - 1];
      var last := fs[|fs| - 1];
      assert fs == init + [last];
      FirstOccurrencesDistinct(init);
      var r0 := FirstOccurrences(init);
      var r := FirstOccurrences(fs);
      if Repeats(fs, |fs| - 1) {
        assert r == r0;
        assert last in init;
      } else {
        assert r == r0 + [last];
        forall i, j | 0 <= i < j < |r| && r[i].Residual? && r[j].Residual? && IsDeterministic(r[i].expr)
          ensures r[i].expr != r[j].expr
        {
          if j == |r0| {
            assert r[i] == r0[i] && r[j] == last;
            assert r0[i] in r0;
            assert r0[i] in fs[..|fs| - 1];
          } else {
            assert r[i] == r0[i] && r[j] == r0[j];
            assert NoRepeatedDeterministic(r0);
          }
        }
        forall x ensures x in r <==> x in fs {
          assert x in r <==> x in r0 || x == last;
        }
      }
    }
  }

  /** The deterministic residuals of a list. */
  function SeenIn(fs: seq<Folded>): set<Expr>
  {
    if fs == [] then {}
    else
      var x := fs[|fs| - 1];
      SeenIn(fs[..|fs| - 1]) + (if x.Residual? && IsDeterministic(x.expr) then {x.expr} else {})
  }

  lemma {:induction false} SeenInHolds(fs: seq<Folded>, x: Expr)
    requires IsDeterministic(x)
    ensures x in SeenIn(fs) <==> Residual(x) in fs
  {
    if fs != [] {
      var init := fs[..|fs| - 1];
      SeenInHolds(init, x);
      assert fs == init + [fs[|fs| - 1]];
    }
  }

  lemma AddUniqueStep(p: seq<Folded>, x: Expr)
    ensures AddUnique(FirstOccurrences(p), SeenIn(p), x)
            == Scan(FirstOccurrences(p + [Residual(x)]), SeenIn(p + [Residual(x)]), false)
  {
    var q := p + [Residual(x)];
    assert q[..|q| - 1] == p;
    if IsDeterministic(x) {
      SeenInHolds(p, x);
    }
  }

  lemma KnownStep(p: seq<Folded>, v: Value)
    ensures FirstOccurrences(p + [Known(v)]) == FirstOccurrences(p) + [Known(v)]
  {
    var q := p + [Known(v)];
    assert q[..|q| - 1] == p;
  }

  /** One operand of a nested COALESCE. */
  lemma NestedStep(ops: seq<Expr>, j: nat, p: seq<Folded>)
    requires j < |ops|
    ensures var p' := p + [Residual(ops[j])];
            NestedScan(ops, j, FirstOccurrences(p), SeenIn(p))
            == if ops[j].Constant? && ops[j].constantValue != Null then Scan(FirstOccurrences(p'), SeenIn(p'), true)
               else NestedScan(ops, j + 1, FirstOccurrences(p'), SeenIn(p'))
  {
    AddUniqueStep(p, ops[j]);
  }

  lemma AppendFirst(p: seq<Folded>, ops: seq<Expr>, j: nat, end: nat)
    requires j < end <= |ops|
    ensures p + AsResiduals(ops[j..end]) == (p + [Residual(ops[j])]) + AsResiduals(ops[j + 1..end])
  {
    var rest := ops[j..end];
    assert rest[0] == ops[j] && rest[1..] == ops[j + 1..end];
    AsResidualsFirst(rest);
  }

  /** The splice of a nested COALESCE from position `j` on. */
  lemma {:induction false} NestedScanFrom(ops: seq<Expr>, j: nat, p: seq<Folded>)
    requires j <= FirstNonNullConstant(ops)
    ensures var k := FirstNonNullConstant(ops);
            var q := p + AsResiduals(ops[j..if k < |ops| then k + 1 else |ops|]);
            NestedScan(ops, j, FirstOccurrences(p), SeenIn(p)) == Scan(FirstOccurrences(q), SeenIn(q), k < |ops|)
    decreases |ops| - j
  {
    var k := FirstNonNullConstant(ops);
    var end := if k < |ops| then k + 1 else |ops|;
    if j == |ops| {
      assert p + AsResiduals(ops[j..end]) == p;
    } else {
      AppendFirst(p, ops, j, end);
      NestedStep(ops, j, p);
      if j < k {
        NestedScanFrom(ops, j + 1, p + [Residual(ops[j])]);
      } else {
        assert ops[j + 1..end] == [];
      }
    }
  }

  /** One operand of the COALESCE that folds to a nested residual COALESCE,
      in terms of the stream so far. */
  lemma NestedFoldStep(ctx: Ctx, node: Expr, i: nat, p: seq<Folded>, ops: seq<Expr>)
    requires node.Coalesce? && i < |node.operands| && Handle(ctx, node.operands[i]) == Success(Residual(Coalesce(ops)))
    ensures var k := FirstNonNullConstant(ops);
            CoalesceFold(ctx, node, i, FirstOccurrences(p), SeenIn(p))
            == if k < |ops| then Success(FirstOccurrences(p + AsResiduals(ops[..k + 1])))
               else CoalesceFold(ctx, node, i + 1, FirstOccurrences(p + AsResiduals(ops)), SeenIn(p + AsResiduals(ops)))
  {
    var k := FirstNonNullConstant(ops);
    NestedScanFrom(ops, 0, p);
    if k < |ops| {
      assert ops[0..k + 1] == ops[..k + 1];
    } else {
      assert ops[0..|ops|] == ops;
    }
  }

  /** One operand that folds to any other residual. */
  lemma ResidualFoldStep(ctx: Ctx, node: Expr, i: nat, p: seq<Folded>, x: Expr)
    requires node.Coalesce? && i < |node.operands| && Handle(ctx, node.operands[i]) == Success(Residual(x)) && !x.Coalesce?
    ensures CoalesceFold(ctx, node, i, FirstOccurrences(p), SeenIn(p))
            == CoalesceFold(ctx, node, i + 1, FirstOccurrences(p + [Residual(x)]), SeenIn(p + [Residual(x)]))
  {
    AddUniqueStep(p, x);
  }

  /** One operand that folds to a known value. */
  lemma KnownFoldStep(ctx: Ctx, node: Expr, i: nat, p: seq<Folded>, v: Value)
    requires node.Coalesce? && i < |node.operands| && Handle(ctx, node.operands[i]) == Success(Known(v))
    ensures CoalesceFold(ctx, node, i, FirstOccurrences(p), SeenIn(p))
            == if v != Null then Success(FirstOccurrences(p + [Known(v)]))
               else CoalesceFold(ctx, node, i + 1, FirstOccurrences(p), SeenIn(p))
  {
    KnownStep(p, v);
  }

  /** One outcome of the stream. */
  lemma StreamStep(os: seq<Outcome>, p: seq<Folded>)
    requires os != [] && os[0].Success?
    ensures var f := os[0].value;
            var s := OperandStream(os);
            var rest := OperandStream(os[1..]);
            var r := if s.Failure? then Failure(s.error) else Success(FirstOccurrences(p + s.value));
            r == if f.Residual? && f.expr.Coalesce? then
                   var ops := f.expr.operands;
                   var k := FirstNonNullConstant(ops);
                   if k < |ops| then Success(FirstOccurrences(p + AsResiduals(ops[..k + 1])))
                   else if rest.Failure? then Failure(rest.error)
                   else Success(FirstOccurrences((p + AsResiduals(ops)) + rest.value))
                 else if f.Residual? then
                   if rest.Failure? then Failure(rest.error) else Success(FirstOccurrences((p + [f]) + rest.value))
                 else if f.value != Null then Success(FirstOccurrences(p + [f]))
                 else if rest.Failure? then Failure(rest.error) else Success(FirstOccurrences(p + rest.value))
  {
    var f := os[0].value;
    var rest := OperandStream(os[1..]);
    if rest.Success? {
      if f.Residual? && f.expr.Coalesce? {
        assert (p + AsResiduals(f.expr.operands)) + rest.value == p + (AsResiduals(f.expr.operands) + rest.value);
      } else if f.Residual? {
        assert (p + [f]) + rest.value == p + ([f] + rest.value);
      }
    }
  }

  lemma {:induction false} CoalesceFoldFrom(ctx: Ctx, node: Expr, i: nat, p: seq<Folded>)
    requires node.Coalesce? && i <= |node.operands|
    ensures var s := OperandStream(OperandOutcomes(ctx, node)[i..]);
            CoalesceFold(ctx, node, i, FirstOccurrences(p), SeenIn(p))
            == if s.Failure? then Failure(s.error) else Success(FirstOccurrences(p + s.value))
    decreases |node.operands| - i
  {
    var os := OperandOutcomes(ctx, node);
    if i == |node.operands| {
      assert os[i..] == [];
      assert p + [] == p;
    } else {
      assert os[i..][0] == Handle(ctx, node.operands[i]);
      assert os[i..][1..] == os[i + 1..];
      var v := Handle(ctx, node.operands[i]);
      if v.Success? {
        var f := v.value;
        StreamStep(os[i..], p);
        if f.Residual? && f.expr.Coalesce? {
          NestedFoldStep(ctx, node, i, p, f.expr.operands);
          CoalesceFoldFrom(ctx, node, i + 1, p + AsResiduals(f.expr.operands));
        } else if f.Residual? {
          ResidualFoldStep(ctx, node, i, p, f.expr);
          CoalesceFoldFrom(ctx, node, i + 1, p + [f]);
        } else {
          KnownFoldStep(ctx, node, i, p, f.value);
          if f.value == Null {
            CoalesceFoldFrom(ctx, node, i + 1, p);
          }
        }
      }
    }
  }

  /** processOperands computes the reference: the operand stream with the
      first occurrence of each deterministic residual kept. */
  lemma CoalesceMatchesReference(ctx: Ctx, node: Expr)
    requires node.Coalesce?
    ensures var s := OperandStream(OperandOutcomes(ctx, node));
            ProcessOperands(ctx, node) == if s.Failure? then Failure(s.error) else Success(FirstOccurrences(s.value))
  {
    CoalesceFoldFrom(ctx, node, 0, []);
    assert OperandOutcomes(ctx, node)[0..] == OperandOutcomes(ctx, node);
    var s := OperandStream(OperandOutcomes(ctx, node));
    if s.Success? {
      assert [] + s.value == s.value;
    }
  }

  // ---------------------------------------------------------------------
  // Searched CASE

  /** Position of the first clause whose condition folds to TRUE, or the
      number of clauses. */
  function FirstTrueClause(ctx: Ctx, ws: seq<WhenClause>): (k: nat)
    ensures k <= |ws|
    ensures forall j :: 0 <= j < k ==> Handle(ctx, ws[j].operand) != Success(Known(Bool(true)))
    ensures k < |ws| ==> Handle(ctx, ws[k].operand) == Success(Known(Bool(true)))
  {
    if ws == [] then 0
    else if Handle(ctx, ws[0].operand) == Success(Known(Bool(true))) then 0
    else 1 + FirstTrueClause(ctx, ws[1..])
  }

  /** The clause as it stays in the folded CASE: its condition folded to a
      residual, and its result processed. A condition known to be FALSE or
      null drops the clause. */
  function KeptClause(ctx: Ctx, w: WhenClause): seq<WhenClause>
  {
    var operand := Handle(ctx, w.operand);
    var result := Handle(ctx, w.result);
    if operand.Success? && operand.value.Residual? && result.Success? then
      [WhenClause(operand.value.expr, ToExpression(result.value, ctx.typeOf(w.result)))]
    else []
  }

  function KeptClauses(ctx: Ctx, ws: seq<WhenClause>): seq<WhenClause>
  {
    if ws == [] then [] else KeptClause(ctx, ws[0]) + KeptClauses(ctx, ws[1..])
  }

  /** Every clause before `k` folds without error, and so does the result of
      clause `k` when there is one. */
  predicate ClausesFold(ctx: Ctx, ws: seq<WhenClause>, i: nat, k: nat)
    requires i <= k <= |ws|
  {
    && (forall j :: i <= j < k ==> Handle(ctx, ws[j].operand).Success?)
    && (forall j :: i <= j < k && Handle(ctx, ws[j].operand).value.Residual? ==> Handle(ctx, ws[j].result).Success?)
    && (k < |ws| ==> Handle(ctx, ws[k].result).Success?)
  }

  /** One clause before the first TRUE one. */
  lemma SearchedStep(ctx: Ctx, node: Expr, i: nat, acc: seq<WhenClause>)
    requires node.SearchedCase? && i < FirstTrueClause(ctx, node.whenClauses)
    ensures var w := node.whenClauses[i];
            var operand := Handle(ctx, w.operand);
            SearchedFold(ctx, node, i, acc)
            == if operand.Failure? then Failure(operand.error)
               else if operand.value.Residual? && Handle(ctx, w.result).Failure? then Failure(Handle(ctx, w.result).error)
               else SearchedFold(ctx, node, i + 1, acc + KeptClause(ctx, w))
  {
    assert acc + [] == acc;
  }

  lemma ClausesFoldStep(ctx: Ctx, ws: seq<WhenClause>, i: nat, k: nat)
    requires i < k <= |ws|
    ensures ClausesFold(ctx, ws, i, k)
            <==> && Handle(ctx, ws[i].operand).Success?
                 && (Handle(ctx, ws[i].operand).value.Residual? ==> Handle(ctx, ws[i].result).Success?)
                 && ClausesFold(ctx, ws, i + 1, k)
  {
  }

  lemma KeptClausesStep(ctx: Ctx, ws: seq<WhenClause>, i: nat, k: nat, acc: seq<WhenClause>)
    requires i < k <= |ws|
    ensures (acc + KeptClause(ctx, ws[i])) + KeptClauses(ctx, ws[i + 1..k]) == acc + KeptClauses(ctx, ws[i..k])
  {
    assert ws[i..k][0] == ws[i] && ws[i..k][1..] == ws[i + 1..k];
  }

  lemma {:induction false} SearchedFoldFrom(ctx: Ctx, node: Expr, i: nat, acc: seq<WhenClause>)
    requires node.SearchedCase? && i <= FirstTrueClause(ctx, node.whenClauses)
    ensures var ws := node.whenClauses;
            var k := FirstTrueClause(ctx, ws);
            var r := SearchedFold(ctx, node, i, acc);
            && (ClausesFold(ctx, ws, i, k) ==>
                  r == Success(CaseScan(acc + KeptClauses(ctx, ws[i..k]), if k < |ws| then Some(Handle(ctx, ws[k].result).value) else None)))
            && (!ClausesFold(ctx, ws, i, k) ==> r.Failure?)
    decreases |node.whenClauses| - i
  {
    var ws := node.whenClauses;
    var k := FirstTrueClause(ctx, ws);
    if i == k {
      assert ws[i..k] == [];
      assert acc + [] == acc;
    } else {
      var w := ws[i];
      SearchedStep(ctx, node, i, acc);
      ClausesFoldStep(ctx, ws, i, k);
      var kept := KeptClause(ctx, w);
      SearchedFoldFrom(ctx, node, i + 1, acc + kept);
      KeptClausesStep(ctx, ws, i, k, acc);
    }
  }

  /** A searched CASE whose conditions do not all fold to constants keeps
      exactly the clauses with a residual condition before the first clause
      that is known to be TRUE, in order, each with its processed result; the
      result of that clause, or else the default, becomes the new default, and
      a null default is left out. Without a residual clause the CASE is that
      result itself. An error on the way fails the CASE. */
  lemma SearchedCaseMatchesReference(ctx: Ctx, node: Expr)
    requires node.SearchedCase?
    ensures var ws := node.whenClauses;
            var k := FirstTrueClause(ctx, ws);
            var d := if k < |ws| then Handle(ctx, ws[k].result) else HandleOption(ctx, node, node.defaultValue);
            var cs := KeptClauses(ctx, ws[..k]);
            var r := VisitSearchedCase(ctx, node);
            && (ClausesFold(ctx, ws, 0, k) && d.Success? && cs == [] ==> r == d)
            && (ClausesFold(ctx, ws, 0, k) && d.Success? && cs != [] ==>
                  r == Success(Residual(SearchedCase(cs, if d.value == Known(Null) then None else Some(ToExpression(d.value, ctx.typeOf(node)))))))
            && (!ClausesFold(ctx, ws, 0, k) || d.Failure? ==> r.Failure?)
  {
    var ws := node.whenClauses;
    SearchedFoldFrom(ctx, node, 0, []);
    assert ws[0..FirstTrueClause(ctx, ws)] == ws[..FirstTrueClause(ctx, ws)];
    assert [] + KeptClauses(ctx, ws[..FirstTrueClause(ctx, ws)]) == KeptClauses(ctx, ws[..FirstTrueClause(ctx, ws)]);
  }

  // ---------------------------------------------------------------------
  // Simple CASE

  /** Clause `j` matches the known operand `v`: its WHEN value is known, not
      null, and EQUAL to `v`. */
  predicate Matches(ctx: Ctx, node: Expr, v: Value, j: nat)
    requires node.SimpleCase? && j < |node.whenClauses|
  {
    var w := node.whenClauses[j];
    var whenValue := Handle(ctx, w.operand);
    && whenValue.Success? && whenValue.value.Known? && whenValue.value.value != Null
    && InvokeOperator(ctx, EqualOp, [ctx.typeOf(node.caseOperand), ctx.typeOf(w.operand)], [v, whenValue.value.value])
       == Success(Bool(true))
  }

  /** Position of the first matching clause from `i` on, or the number of
      clauses. */
  function FirstMatch(ctx: Ctx, node: Expr, v: Value, i: nat): (k: nat)
    requires node.SimpleCase? && i <= |node.whenClauses|
    ensures i <= k <= |node.whenClauses|
    ensures forall j :: i <= j < k ==> !Matches(ctx, node, v, j)
    ensures k < |node.whenClauses| ==> Matches(ctx, node, v, k)
    decreases |node.whenClauses| - i
  {
    if i == |node.whenClauses| then i
    else if Matches(ctx, node, v, i) then i
    else FirstMatch(ctx, node, v, i + 1)
  }

  /** Each WHEN value folds to a known value. */
  predicate KnownWhenValues(ctx: Ctx, ws: seq<WhenClause>)
  {
    forall j :: 0 <= j < |ws| ==> Handle(ctx, ws[j].operand).Success? && Handle(ctx, ws[j].operand).value.Known?
  }

  /** Comparing `v` with each non-null WHEN value in `[i, k)` raises no
      error. */
  predicate ComparisonsSucceed(ctx: Ctx, node: Expr, v: Value, i: nat, k: nat)
    requires node.SimpleCase? && i <= k <= |node.whenClauses| && KnownWhenValues(ctx, node.whenClauses)
  {
    forall j :: i <= j < k && Handle(ctx, node.whenClauses[j].operand).value.value != Null ==>
      InvokeOperator(ctx, EqualOp, [ctx.typeOf(node.caseOperand), ctx.typeOf(node.whenClauses[j].operand)],
                     [v, Handle(ctx, node.whenClauses[j].operand).value.value]).Success?
  }

  /** The comparison of the known operand with the WHEN value of clause `i`. */
  function CompareWhen(ctx: Ctx, node: Expr, v: Value, i: nat): Result<Value, Failure>
    requires node.SimpleCase? && i < |node.whenClauses| && KnownWhenValues(ctx, node.whenClauses)
  {
    InvokeOperator(ctx, EqualOp, [ctx.typeOf(node.caseOperand), ctx.typeOf(node.whenClauses[i].operand)],
                   [v, Handle(ctx, node.whenClauses[i].operand).value.value])
  }

  lemma FirstMatchSkips(ctx: Ctx, node: Expr, v: Value, i: nat)
    requires node.SimpleCase? && i < |node.whenClauses| && !Matches(ctx, node, v, i)
    ensures FirstMatch(ctx, node, v, i) == FirstMatch(ctx, node, v, i + 1)
  {
  }

  /** One clause of a simple CASE with known values. */
  lemma SimpleStep(ctx: Ctx, node: Expr, v: Value, i: nat, acc: seq<WhenClause>)
    requires node.SimpleCase? && KnownWhenValues(ctx, node.whenClauses) && i < |node.whenClauses|
    ensures var whenValue := Handle(ctx, node.whenClauses[i].operand).value.value;
            var result := Handle(ctx, node.whenClauses[i].result);
            SimpleFold(ctx, node, Known(v), i, acc)
            == if whenValue == Null then SimpleFold(ctx, node, Known(v), i + 1, acc)
               else if CompareWhen(ctx, node, v, i).Failure? then Failure(CompareWhen(ctx, node, v, i).error)
               else if Matches(ctx, node, v, i) then
                 if result.Failure? then Failure(result.error) else Success(CaseScan(acc, Some(result.value)))
               else SimpleFold(ctx, node, Known(v), i + 1, acc)
  {
    assert Handle(ctx, node.whenClauses[i].operand).Success?;
  }

  lemma ComparisonsSucceedStep(ctx: Ctx, node: Expr, v: Value, i: nat, k: nat)
    requires node.SimpleCase? && i < k <= |node.whenClauses| && KnownWhenValues(ctx, node.whenClauses)
    ensures ComparisonsSucceed(ctx, node, v, i, k)
            <==> (Handle(ctx, node.whenClauses[i].operand).value.value != Null ==> CompareWhen(ctx, node, v, i).Success?)
                 && ComparisonsSucceed(ctx, node, v, i + 1, k)
  {
  }

  lemma {:induction false} SimpleFoldFrom(ctx: Ctx, node: Expr, v: Value, i: nat, acc: seq<WhenClause>)
    requires node.SimpleCase? && KnownWhenValues(ctx, node.whenClauses)
    requires i <= |node.whenClauses| && ComparisonsSucceed(ctx, node, v, i, FirstMatch(ctx, node, v, i))
    ensures var ws := node.whenClauses;
            var k := FirstMatch(ctx, node, v, i);
            SimpleFold(ctx, node, Known(v), i, acc)
            == if k == |ws| then Success(CaseScan(acc, None))
               else var result := Handle(ctx, ws[k].result);
                    if result.Failure? then Failure(result.error) else Success(CaseScan(acc, Some(result.value)))
    decreases |node.whenClauses| - i
  {
    if i < |node.whenClauses| {
      SimpleStep(ctx, node, v, i, acc);
      if !Matches(ctx, node, v, i) {
        FirstMatchSkips(ctx, node, v, i);
        ComparisonsSucceedStep(ctx, node, v, i, FirstMatch(ctx, node, v, i));
        SimpleFoldFrom(ctx, node, v, i + 1, acc);
      }
    }
  }

  lemma {:induction false} SimpleFoldFails(ctx: Ctx, node: Expr, v: Value, i: nat, acc: seq<WhenClause>)
    requires node.SimpleCase? && KnownWhenValues(ctx, node.whenClauses)
    requires i <= |node.whenClauses| && !ComparisonsSucceed(ctx, node, v, i, FirstMatch(ctx, node, v, i))
    ensures SimpleFold(ctx, node, Known(v), i, acc).Failure?
    decreases |node.whenClauses| - i
  {
    SimpleStep(ctx, node, v, i, acc);
    FirstMatchSkips(ctx, node, v, i);
    ComparisonsSucceedStep(ctx, node, v, i, FirstMatch(ctx, node, v, i));
    if ComparisonsSucceed(ctx, node, v, i + 1, FirstMatch(ctx, node, v, i + 1)) {
      assert CompareWhen(ctx, node, v, i).Failure?;
    } else {
      SimpleFoldFails(ctx, node, v, i + 1, acc);
    }
  }

  /** A simple CASE whose WHEN values fold to constants: a null operand gives
      the default; otherwise the CASE is the result of the first clause whose
      value is EQUAL to the operand, or else the default. A null WHEN value
      never matches; an error of the comparison fails the CASE. */
  lemma SimpleCaseMatchesReference(ctx: Ctx, node: Expr, v: Value)
    requires node.SimpleCase? && Handle(ctx, node.caseOperand) == Success(Known(v))
    requires KnownWhenValues(ctx, node.whenClauses)
    ensures v == Null ==> VisitSimpleCase(ctx, node) == HandleOption(ctx, node, node.defaultValue)
    ensures var ws := node.whenClauses;
            var k := FirstMatch(ctx, node, v, 0);
            && (v != Null && ComparisonsSucceed(ctx, node, v, 0, k) ==>
                  VisitSimpleCase(ctx, node) == if k < |ws| then Handle(ctx, ws[k].result) else HandleOption(ctx, node, node.defaultValue))
            && (v != Null && !ComparisonsSucceed(ctx, node, v, 0, k) ==> VisitSimpleCase(ctx, node).Failure?)
  {
    if v != Null {
      if ComparisonsSucceed(ctx, node, v, 0, FirstMatch(ctx, node, v, 0)) {
        SimpleFoldFrom(ctx, node, v, 0, []);
      } else {
        SimpleFoldFails(ctx, node, v, 0, []);
      }
    }
  }

  // ---------------------------------------------------------------------
  // CAST

  /** A null argument stays null, and a residual argument that already has
      the target type is returned without a cast. */
  lemma CastKeepsNullAndIdentity(ctx: Ctx, a: Expr, t: Type, safe: bool)
    ensures Handle(ctx, a) == Success(Known(Null)) ==> VisitCast(ctx, Cast(a, t, safe)) == Success(Known(Null))
    ensures Handle(ctx, a).Success? && Handle(ctx, a).value.Residual? && ctx.typeOf(a) == t ==>
              VisitCast(ctx, Cast(a, t, safe)) == Handle(ctx, a)
  {
  }

  /** TRY_CAST against CAST: once the argument folds, the safe cast never
      fails; where the unsafe cast fails it gives null, and where the unsafe
      cast folds to a value the safe cast folds to the same value. */
  lemma SafeCastAgrees(ctx: Ctx, a: Expr, t: Type)
    ensures var h := Handle(ctx, a);
            var tryCast := VisitCast(ctx, Cast(a, t, true));
            var cast := VisitCast(ctx, Cast(a, t, false));
            && (h.Success? ==> tryCast.Success?)
            && (h.Success? && cast.Failure? ==> tryCast == Success(Known(Null)))
            && (cast.Success? && cast.value.Known? ==> tryCast == cast)
  {
  }

  /** A residual argument of another type gets a cast with the node's safety
      flag. */
  lemma ResidualCastKeepsFlag(ctx: Ctx, a: Expr, t: Type, safe: bool)
    ensures var h := Handle(ctx, a);
            h.Success? && h.value.Residual? && ctx.typeOf(a) != t ==>
              VisitCast(ctx, Cast(a, t, safe)) == Success(Residual(Cast(h.value.expr, t, safe)))
  {
  }
}
