/** The peephole rewrite that drops `date_trunc('day', d)` around a DATE
    value `d`: truncating a date to the day is the identity. The rewrite walks
    the whole tree; a call that does not match keeps its shape and only its
    children are rewritten. */
module RemoveRedundantDateTrunc {
  import opened Ir

  const DateTrunc: FunctionName := BuiltinName("date_trunc")

  /** `toLowerCase(Locale.ENGLISH)`; only ASCII letters can lower-case to the
      letters of "day", so the ASCII mapping decides the comparison. */
  function LowerAscii(s: string): (r: string)
    ensures |r| == |s|
    ensures forall i :: 0 <= i < |s| ==> r[i] == if 'A' <= s[i] <= 'Z' then (s[i] as int + 32) as char else s[i]
  {
    seq(|s|, i requires 0 <= i < |s| => if 'A' <= s[i] <= 'Z' then (s[i] as int + 32) as char else s[i])
  }

  /** The unit is a constant whose text lower-cases to "day"; a null unit never
      matches. */
  predicate UnitIsDay(unit: Expr)
  {
    unit.Constant? && unit.constantValue.Text? && LowerAscii(unit.constantValue.s) == "day"
  }

  /** The call the rule removes: `date_trunc` with exactly two arguments, a
      DATE argument, a varchar unit given as a constant equal to "day". */
  predicate Fires(e: Expr, typeOf: Expr -> Type)
  {
    && e.FunctionCall?
    && e.callee.functionName == DateTrunc
    && |e.arguments| == 2
    && typeOf(e.arguments[1]) == DateType
    && typeOf(e.arguments[0]) == VarcharType
    && UnitIsDay(e.arguments[0])
  }

  /** The tree rewrite: a matching call becomes its rewritten argument; every
      other node is rebuilt from its rewritten children. */
  function Rewrite(e: Expr, typeOf: Expr -> Type): Expr
    decreases Size(e), 1
  {
    ChildrenAreSmaller(e);
    if Fires(e, typeOf) then
      assert e.arguments[1] == Children(e)[1];
      Rewrite(e.arguments[1], typeOf)
    else WithChildren(e, RewriteAll(e, Children(e), typeOf))
  }

  function RewriteAll(parent: Expr, cs: seq<Expr>, typeOf: Expr -> Type): (r: seq<Expr>)
    requires forall i :: 0 <= i < |cs| ==> Size(cs[i]) < Size(parent)
    ensures |r| == |cs|
    ensures forall i :: 0 <= i < |cs| ==> r[i] == Rewrite(cs[i], typeOf)
    decreases Size(parent), 0
  {
    seq(|cs|, i requires 0 <= i < |cs| => Rewrite(cs[i], typeOf))
  }

  /** The rule's entry point: a bare symbol reference is returned as it is. */
  function RewriteExpression(e: Expr, typeOf: Expr -> Type): Expr
  {
    if e.SymbolReference? then e else Rewrite(e, typeOf)
  }

  /** Some node of the tree matches. */
  predicate HasRedex(e: Expr, typeOf: Expr -> Type)
    decreases Size(e)
  {
    ChildrenAreSmaller(e);
    Fires(e, typeOf) || exists i :: 0 <= i < |Children(e)| && HasRedex(Children(e)[i], typeOf)
  }

  // ---------------------------------------------------------------------
  // Properties

  /** A bare symbol is left alone, and the shortcut at the entry point agrees
      with the traversal itself. */
  lemma RewriteExpressionAgrees(e: Expr, typeOf: Expr -> Type)
    ensures RewriteExpression(e, typeOf) == Rewrite(e, typeOf)
    ensures e.SymbolReference? ==> RewriteExpression(e, typeOf) == e
  {
    if e.SymbolReference? {
      assert Children(e) == [];
      assert RewriteAll(e, Children(e), typeOf) == [];
    }
  }

  /** The unit is compared case-insensitively, and a null unit never matches. */
  lemma UnitMatching(t: Type, s: string)
    ensures UnitIsDay(Constant(t, Text("day"))) && UnitIsDay(Constant(t, Text("DAY"))) && UnitIsDay(Constant(t, Text("Day")))
    ensures !UnitIsDay(Constant(t, Null))
    ensures UnitIsDay(Constant(t, Text(s))) ==> |s| == 3 && s[0] in "dD" && s[1] in "aA" && s[2] in "yY"
    ensures |s| == 3 && s[0] in "dD" && s[1] in "aA" && s[2] in "yY" ==> UnitIsDay(Constant(t, Text(s)))
  {
    assert LowerAscii("DAY") == "day";
    assert LowerAscii("Day") == "day";
    assert LowerAscii("day") == "day";
    if UnitIsDay(Constant(t, Text(s))) {
      var l := LowerAscii(s);
      assert l[0] == 'd' && l[1] == 'a' && l[2] == 'y';
    }
    if |s| == 3 && s[0] in "dD" && s[1] in "aA" && s[2] in "yY" {
      assert LowerAscii(s) == "day";
    }
  }

  /** A call that fails any one of the conditions is not removed: it stays a
      call to the same function with its rewritten arguments. */
  lemma NonMatchingCallKept(e: Expr, typeOf: Expr -> Type)
    requires e.FunctionCall? && !Fires(e, typeOf)
    ensures Rewrite(e, typeOf).FunctionCall? && Rewrite(e, typeOf).callee == e.callee
    ensures |Rewrite(e, typeOf).arguments| == |e.arguments|
    ensures forall i :: 0 <= i < |e.arguments| ==> Rewrite(e, typeOf).arguments[i] == Rewrite(e.arguments[i], typeOf)
  {
  }

  /** A matching call is replaced by its rewritten second argument. */
  lemma MatchingCallReplaced(f: ResolvedFunction, unit: Expr, argument: Expr, typeOf: Expr -> Type)
    requires f.functionName == DateTrunc
    requires typeOf(argument) == DateType && typeOf(unit) == VarcharType && UnitIsDay(unit)
    ensures Rewrite(FunctionCall(f, [unit, argument]), typeOf) == Rewrite(argument, typeOf)
  {
  }

  /** The rewrite never grows the tree, and shrinks it when some node
      matches. */
  lemma {:induction false} RewriteShrinks(e: Expr, typeOf: Expr -> Type)
    ensures Size(Rewrite(e, typeOf)) <= Size(e)
    ensures HasRedex(e, typeOf) ==> Size(Rewrite(e, typeOf)) < Size(e)
    decreases Size(e), 1
  {
    ChildrenAreSmaller(e);
    if Fires(e, typeOf) {
      assert e.arguments[1] == Children(e)[1];
      RewriteShrinks(e.arguments[1], typeOf);
    } else {
      RebuiltShrinks(e, typeOf);
    }
  }

  lemma {:induction false} RebuiltShrinks(e: Expr, typeOf: Expr -> Type)
    requires !Fires(e, typeOf)
    ensures Size(Rewrite(e, typeOf)) <= Size(e)
    ensures HasRedex(e, typeOf) ==> Size(Rewrite(e, typeOf)) < Size(e)
    decreases Size(e), 0
  {
    ChildrenAreSmaller(e);
    var cs := Children(e);
    var rs := RewriteAll(e, cs, typeOf);
    forall i | 0 <= i < |cs|
      ensures Size(rs[i]) <= Size(cs[i])
      ensures HasRedex(cs[i], typeOf) ==> Size(rs[i]) < Size(cs[i])
    {
      RewriteShrinks(cs[i], typeOf);
    }
    SizeOfRebuilt(e, rs);
    SizeIsOnePlusChildren(e);
    SizeAllPointwise(cs, rs);
  }

  lemma SizeOfRebuilt(e: Expr, cs: seq<Expr>)
    requires |cs| == |Children(e)|
    ensures Size(WithChildren(e, cs)) == 1 + SizeAll(cs)
  {
    ChildrenOfWithChildren(e, cs);
    SizeIsOnePlusChildren(WithChildren(e, cs));
  }

  /** SizeAll is monotonic, strictly so when one element shrinks. */
  lemma {:induction false} SizeAllPointwise(cs: seq<Expr>, rs: seq<Expr>)
    requires |cs| == |rs|
    requires forall i :: 0 <= i < |cs| ==> Size(rs[i]) <= Size(cs[i])
    ensures SizeAll(rs) <= SizeAll(cs)
    ensures (exists i :: 0 <= i < |cs| && Size(rs[i]) < Size(cs[i])) ==> SizeAll(rs) < SizeAll(cs)
  {
    if cs != [] {
      SizeAllPointwise(cs[1..], rs[1..]);
      if exists i :: 0 <= i < |cs| && Size(rs[i]) < Size(cs[i]) {
        var i :| 0 <= i < |cs| && Size(rs[i]) < Size(cs[i]);
        if i > 0 {
          assert Size(rs[1..][i - 1]) < Size(cs[1..][i - 1]);
        }
      }
    }
  }

  /** The rewrite changes the tree exactly when some node matches. */
  lemma {:induction false} FixpointIffNoRedex(e: Expr, typeOf: Expr -> Type)
    ensures Rewrite(e, typeOf) == e <==> !HasRedex(e, typeOf)
    decreases Size(e)
  {
    RewriteShrinks(e, typeOf);
    if !HasRedex(e, typeOf) {
      ChildrenAreSmaller(e);
      var cs := Children(e);
      var rs := RewriteAll(e, cs, typeOf);
      forall i | 0 <= i < |cs|
        ensures rs[i] == cs[i]
      {
        FixpointIffNoRedex(cs[i], typeOf);
      }
      assert rs == cs;
      WithOwnChildren(e);
    }
  }
}
