# Trino expression-IR partial evaluator and predicate rewrites, in Dafny

This project models the part of Trino's planner that folds and rewrites
row expressions in the intermediate representation (IR):

- **`IrExpressionInterpreter`** folds an IR expression tree under SQL
  three-valued logic. Each node becomes a concrete value, SQL null, or a
  residual expression. In *evaluate* mode every error propagates. In
  *optimize* mode a user-facing error (`TrinoException`) leaves the
  offending node in place as a residual.
  - `interpreter.dfy` defines it as total functions over a context `Ctx`,
    one visitor function per node kind.
  - `interpreter_loops.dfy` re-states the visitors that work by filling
    lists and flags as `while` loops. Each loop is proved equal to its
    function.
  - `interpreter_laws.dfy` proves the laws the visitor promises.
- **`SimplifyFilterPredicate`** rewrites the NULLIF and CASE conjuncts of
  a filter.
  - `simplify_filter_predicate.dfy` holds the rewrite, with the searched
    CASE rule and `apply` as loops.
  - `filter_equivalence.dfy` proves that every rewrite keeps exactly the
    rows the original filter keeps. That is, each rewrite preserves "is
    TRUE", evaluated by the interpreter above. This is the only reason
    the rewrite may exchange FALSE and NULL.
- **`NullabilityAnalyzer`** is a conservative "may return null on
  non-null input" test. It is a traversal that raises a shared
  `AtomicBoolean` flag (`nullability_analyzer.dfy`).
- **`RemoveRedundantDateTrunc`** removes `date_trunc('day', d)` around a
  DATE value `d` (`remove_redundant_date_trunc.dfy`).
- **The IR records** are the `Expr` datatype in `ir.dfy`, together with:
  - the comparison operator algebra (`flip`, `negate`);
  - the record constructors and their null checks;
  - `getChildren` order, and rebuilding a node from new children.

The interpreter's dependencies are parameters of `Ctx`:

- the type analyser (`typeOf`);
- the symbol resolver (`symbols`);
- operator resolution and invocation (`resolveOperator`, `invoke`);
- coercions and the common super type;
- dynamic-filter recognition.

A law that needs these dependencies to behave (for example "EQUAL on
integers is integer equality") states that as a hypothesis, such as
`IntegerOperators(ctx)` or `BooleanEquality(ctx, t)`.

## Model

| member | source | states |
|---|---|---|
| Ir.FlipSwapsOperands | core/trino-main/src/main/java/io/trino/sql/ir/ComparisonExpression.java:49-60 | `op(a, b)` holds exactly when `flip(op)(b, a)` holds; `flip` is an involution; it fixes exactly EQUAL, NOT_EQUAL and IS_DISTINCT_FROM |
| Ir.NegateComplements | core/trino-main/src/main/java/io/trino/sql/ir/ComparisonExpression.java:62-81 | `negate` fails exactly for IS_DISTINCT_FROM; otherwise it yields the complementary operator (holds iff the original does not) and negating twice gives the operator back |
| Ir.NewComparison | core/trino-main/src/main/java/io/trino/sql/ir/ComparisonExpression.java:85-90 | construction succeeds iff operator, left and right are all present; the null checks run in that order with their messages; the record holds exactly its arguments |
| Ir.ComparisonChildren | core/trino-main/src/main/java/io/trino/sql/ir/ComparisonExpression.java:116-120 | the children of a comparison are exactly `[left, right]` |
| Ir.CastChildren | core/trino-main/src/main/java/io/trino/sql/ir/Cast.java:64-67 | the children of a cast are exactly `[expression]` |
| Ir.SubscriptChildren | core/trino-main/src/main/java/io/trino/sql/ir/SubscriptExpression.java:40-43 | the children of a subscript are exactly `[base, index]` |
| Ir.CopyOf | core/trino-main/src/main/java/io/trino/sql/ir/SearchedCaseExpression.java:31 | an immutable copy succeeds iff the list and every element are present, and keeps the elements in order |
| Ir.NewSearchedCase | core/trino-main/src/main/java/io/trino/sql/ir/SearchedCaseExpression.java:31-32 | construction succeeds iff the clause list copies and the default Optional is present; a missing default fails with its message; the record holds the copied clauses |
| Ir.SearchedCaseChildren | core/trino-main/src/main/java/io/trino/sql/ir/SearchedCaseExpression.java:54-64 | children are operand then result of each clause in clause order, then the default when present; their count is `2 * clauses + (default ? 1 : 0)` |
| Ir.SearchedCaseToString | core/trino-main/src/main/java/io/trino/sql/ir/SearchedCaseExpression.java:73 | the printed form starts with `SearchedCase(` and an absent default prints as `null` |
| Ir.NewCast | core/trino-main/src/main/java/io/trino/sql/ir/Cast.java:28-31 | the two-argument constructor builds an unsafe cast of its arguments |
| Ir.NewSafeCast | core/trino-main/src/main/java/io/trino/sql/ir/Cast.java:35-36 | construction succeeds iff expression and type are present, failing on the expression first with its message; the record is a cast with the given safety flag |
| Ir.CastToString | core/trino-main/src/main/java/io/trino/sql/ir/Cast.java:72 | the printed form starts with `Try` exactly when the cast is safe |
| Ir.NewBind | core/trino-main/src/main/java/io/trino/sql/ir/BindExpression.java:53-54 | construction fails on a missing function first, then requires the value list to copy; the record holds the copied values and the function |
| Ir.BindChildren | core/trino-main/src/main/java/io/trino/sql/ir/BindExpression.java:76-82 | children are the values in order followed by the function; their count is values + 1 |
| Ir.NewSubscript | core/trino-main/src/main/java/io/trino/sql/ir/SubscriptExpression.java:29-30 | construction succeeds iff base and index are present, failing on the base first with its message; the record holds exactly the given base and index |
| Ir.Flip | core/trino-main/src/main/java/io/trino/sql/ir/ComparisonExpression.java:49-60 | `flip`: the operator that holds with the operands swapped (laws: `FlipSwapsOperands`) |
| Ir.Negate | core/trino-main/src/main/java/io/trino/sql/ir/ComparisonExpression.java:62-81 | `negate`: the complementary operator, refused for IS DISTINCT FROM (laws: `NegateComplements`) |
| Ir.Children | core/trino-main/src/main/java/io/trino/sql/ir/SearchedCaseExpression.java:54-64 | `getChildren` of every node kind, in the source's order (laws: `ComparisonChildren`, `CastChildren`, `SubscriptChildren`, `SearchedCaseChildren`, `BindChildren`) |
| Ir.WithChildren | core/trino-main/src/main/java/io/trino/sql/planner/iterative/rule/RemoveRedundantDateTrunc.java:93 | the node rebuilt from new children in `Children` order, as the default rewrite does (laws: `WithOwnChildren`, `ChildrenOfWithChildren`) |
| Ir.WithOwnChildren | core/trino-main/src/main/java/io/trino/sql/planner/iterative/rule/RemoveRedundantDateTrunc.java:93 | rebuilding a node from its own children gives the same node, so a rewrite that changes no child changes nothing |
| Ir.ChildrenOfWithChildren | core/trino-main/src/main/java/io/trino/sql/planner/iterative/rule/RemoveRedundantDateTrunc.java:93 | a node rebuilt from new children reports exactly those children, in order |
| Interpreter.Handle | core/trino-main/src/main/java/io/trino/sql/planner/IrExpressionInterpreter.java:165-185 | processWithExceptionHandling: in optimize mode a `UserError` (a `TrinoException`) turns into the node itself as a residual; any other outcome passes through (laws: `ErrorDeferral`) |
| Interpreter.Evaluate | core/trino-main/src/main/java/io/trino/sql/planner/IrExpressionInterpreter.java:136-148 | evaluate: the fold must be a value; an unresolved expression is an internal error (laws: `EntryPoints`, `EvaluateComparison`) |
| Interpreter.Optimize | core/trino-main/src/main/java/io/trino/sql/planner/IrExpressionInterpreter.java:150-153 | optimize: the fold with user errors deferred (law: `EntryPoints`) |
| Interpreter.Process | core/trino-main/src/main/java/io/trino/sql/planner/IrExpressionInterpreter.java:188-197 | the visitor dispatch: a constant is its value, a symbol is what the resolver gives, every other node goes to its visit function (IN with the `KeepNulls` policy) |
| Interpreter.VisitLogical | core/trino-main/src/main/java/io/trino/sql/planner/IrExpressionInterpreter.java:699-749 | AND/OR folding: terms in order, short circuit on the deciding value, identities dropped, nulls remembered (laws: `ShortCircuit`, `AllIdentity`, `WithoutDecidingTerm`; loop: `LogicalLoop`) |
| Interpreter.VisitIsNull | core/trino-main/src/main/java/io/trino/sql/planner/IrExpressionInterpreter.java:199-208 | IS NULL: a value gives whether it is null, a residual stays under IS NULL (law: `IsNullIsTwoValued`) |
| Interpreter.VisitNot | core/trino-main/src/main/java/io/trino/sql/planner/IrExpressionInterpreter.java:683-696 | NOT: null stays null, a residual is wrapped, a boolean is inverted, any other value fails the `(Boolean)` cast (laws: `NotIsKleeneNegation`, `DoubleNegation`) |
| Interpreter.VisitArithmeticNegation | core/trino-main/src/main/java/io/trino/sql/planner/IrExpressionInterpreter.java:472-502 | unary minus: null stays null, a residual negation is unwrapped, another residual wrapped, a value goes to the NEGATION operator (laws: `ArithmeticNegationFolds`, `DoubleArithmeticNegation`) |
| Interpreter.VisitArithmeticBinary | core/trino-main/src/main/java/io/trino/sql/planner/IrExpressionInterpreter.java:504-521 | binary arithmetic: a null left operand gives null before the right one is processed, then a null right one; a residual side keeps operator and function; otherwise the function is invoked (law: `ArithmeticBinaryNulls`) |
| Interpreter.VisitCoalesce | core/trino-main/src/main/java/io/trino/sql/planner/IrExpressionInterpreter.java:312-324 | no operand left gives null, one is returned as it is, several give a residual COALESCE of them (laws: `CoalesceExample`, `CoalesceMatchesReference`) |
| Interpreter.ProcessOperands | core/trino-main/src/main/java/io/trino/sql/planner/IrExpressionInterpreter.java:326-358 | the COALESCE operand scan with nested splicing, null skipping, stop at a known value and deduplication (reference: `CoalesceMatchesReference`; loop: `ProcessOperandsLoop`) |
| Interpreter.VisitSearchedCase | core/trino-main/src/main/java/io/trino/sql/planner/IrExpressionInterpreter.java:212-249 | the searched-CASE scan: residual clauses kept, non-TRUE known clauses dropped, the first TRUE clause ends the scan and supplies the default (reference: `SearchedCaseMatchesReference`) |
| Interpreter.VisitSimpleCase | core/trino-main/src/main/java/io/trino/sql/planner/IrExpressionInterpreter.java:252-297 | the simple-CASE scan: a null operand gives the default, null WHEN values are skipped, the first EQUAL clause ends the scan (reference: `SimpleCaseMatchesReference`) |
| Interpreter.VisitIn | core/trino-main/src/main/java/io/trino/sql/planner/IrExpressionInterpreter.java:361-470 | IN folding under a null policy: null probe, the constant-list fast path, the element loop and the residual list with duplicates removed (laws: `IntegerIn`, `InSingleValueBecomesEqual`, and the Findings row) |
| Interpreter.VisitComparison | core/trino-main/src/main/java/io/trino/sql/planner/IrExpressionInterpreter.java:524-555 | comparison folding: NOT_EQUAL through EQUAL, GREATER_THAN* through the mirrored LESS_THAN*, IS DISTINCT FROM on its own path (laws: `NotEqualNegatesEqual`, `GreaterThanMirrorsLessThan`, `ResidualKeepsOperator`) |
| Interpreter.FlipComparison | core/trino-main/src/main/java/io/trino/sql/planner/IrExpressionInterpreter.java:596-608 | flipComparison: EQUAL and NOT_EQUAL negated on the same operands, the ordering operators mirrored with the operands swapped, IS DISTINCT FROM refused (laws: `FlipComparisonLaws`) |
| Interpreter.FlipBack | core/trino-main/src/main/java/io/trino/sql/planner/IrExpressionInterpreter.java:545-551 | GREATER_THAN* folded as the mirrored LESS_THAN* with the operands swapped, a residual comparison flipped back (laws: `GreaterThanMirrorsLessThan`, `GreaterThanOrEqualMirrorsLessThanOrEqual`, `ResidualKeepsOperator`) |
| Interpreter.ProcessComparison | core/trino-main/src/main/java/io/trino/sql/planner/IrExpressionInterpreter.java:577-594 | processComparisonExpression: a null left operand gives null before the right one is processed, a null right one gives null, a residual side a residual comparison, otherwise the operator (laws: `ComparisonNullOperand`, `IntegerComparison`) |
| Interpreter.ProcessIsDistinctFrom | core/trino-main/src/main/java/io/trino/sql/planner/IrExpressionInterpreter.java:557-575 | both operands processed; a null side against a residual side gives `NOT (x IS NULL)`, another residual side a residual IS DISTINCT FROM, two values the operator (laws: `DistinctFromNull`, `IntegerComparison`, `ComparisonNullOperand`) |
| Interpreter.VisitBetween | core/trino-main/src/main/java/io/trino/sql/planner/IrExpressionInterpreter.java:611-643 | BETWEEN as the three-valued AND of the two bound comparisons (laws: `BetweenIsKleeneAnd`, `BetweenNullProbe`, `IntegerBetween`) |
| Interpreter.VisitNullIf | core/trino-main/src/main/java/io/trino/sql/planner/IrExpressionInterpreter.java:646-681 | NULLIF: a null first operand gives null, a null second gives the first, values equal after coercion to the common type give null, otherwise the first |
| Interpreter.VisitCast | core/trino-main/src/main/java/io/trino/sql/planner/IrExpressionInterpreter.java:842-870 | CAST: null stays null, a residual keeps or gets its cast, a value goes through the coercion, and a failing safe cast gives null (laws: `CastKeepsNullAndIdentity`, `SafeCastAgrees`, `ResidualCastKeepsFlag`) |
| Interpreter.VisitSubscript | core/trino-main/src/main/java/io/trino/sql/planner/IrExpressionInterpreter.java:895-925 | subscript: a null base or index gives null, an array index is checked, a residual side keeps the node, a ROW is indexed from 1 with a bounds error, other bases go to the operator |
| Interpreter.VisitFunctionCall | core/trino-main/src/main/java/io/trino/sql/planner/IrExpressionInterpreter.java:752-782 | a call: a null for a non-nullable argument gives null; in optimize mode a non-deterministic, unresolved, dynamic-filter or `fail` call stays residual; otherwise the function is invoked (an unresolved argument in evaluate mode is an internal error, see "## Left out") |
| Interpreter.AsBoolean | core/trino-main/src/main/java/io/trino/sql/planner/IrExpressionInterpreter.java:436 | the `(Boolean)` cast of an operator result succeeds exactly for null and booleans and returns the value unchanged |
| Interpreter.InCompare | core/trino-main/src/main/java/io/trino/sql/planner/IrExpressionInterpreter.java:432-442 | comparing an IN element with the probe yields null or a boolean, or an error |
| InterpreterLoops.LogicalLoop | core/trino-main/src/main/java/io/trino/sql/planner/IrExpressionInterpreter.java:699-749 | the term loop of AND/OR, with its list building, computes exactly `VisitLogical` |
| InterpreterLoops.ProcessOperandsLoop | core/trino-main/src/main/java/io/trino/sql/planner/IrExpressionInterpreter.java:326-358 | the COALESCE operand loop, with its unique set and nested loop, computes exactly `ProcessOperands` |
| InterpreterLoops.SearchedCaseLoop | core/trino-main/src/main/java/io/trino/sql/planner/IrExpressionInterpreter.java:212-249 | the searched-CASE clause loop with its `break` computes exactly `VisitSearchedCase` |
| InterpreterLoops.InLoop | core/trino-main/src/main/java/io/trino/sql/planner/IrExpressionInterpreter.java:361-469 | the IN element loop with its `found`/`hasNullValue` flags computes exactly `VisitIn` under either null policy: `AsWritten` drops a null-compared element as lines 437-438 do, `KeepNulls` keeps it |
| InterpreterLaws.ErrorDeferral | core/trino-main/src/main/java/io/trino/sql/planner/IrExpressionInterpreter.java:165-184 | in optimize mode a user error leaves the node itself as the residual and no user error escapes; in evaluate mode every error is passed on unchanged |
| InterpreterLaws.IsNullIsTwoValued | core/trino-main/src/main/java/io/trino/sql/planner/IrExpressionInterpreter.java:199-208 | IS NULL never folds to null: a value gives TRUE exactly when it is null; errors pass on; a residual stays under IS NULL |
| InterpreterLaws.NotIsKleeneNegation | core/trino-main/src/main/java/io/trino/sql/planner/IrExpressionInterpreter.java:683-696 | NOT is three-valued negation: errors pass on, null stays null, a boolean is inverted, a residual wrapped, any other value an internal error |
| InterpreterLaws.DoubleNegation | core/trino-main/src/main/java/io/trino/sql/planner/IrExpressionInterpreter.java:683-696 | NOT NOT a folds to what `a` folds to when `a` is null or a boolean |
| InterpreterLaws.ArithmeticNegationFolds | core/trino-main/src/main/java/io/trino/sql/planner/IrExpressionInterpreter.java:472-502 | unary minus: errors pass on, null stays null, `-(-x)` unwraps to `x` for residual `x`, another residual is wrapped, a value goes to NEGATION with its outcome |
| InterpreterLaws.DoubleArithmeticNegation | core/trino-main/src/main/java/io/trino/sql/planner/IrExpressionInterpreter.java:478-485 | minus minus an unresolved operand folds to the operand itself |
| InterpreterLaws.ArithmeticBinaryNulls | core/trino-main/src/main/java/io/trino/sql/planner/IrExpressionInterpreter.java:504-521 | a null left operand gives null even when the right operand fails; a failing right operand otherwise fails the node; a null right operand gives null; a residual side gives the same operator and function over the folded sides |
| InterpreterLaws.ShortCircuit | core/trino-main/src/main/java/io/trino/sql/planner/IrExpressionInterpreter.java:699-734 | a term folding to FALSE (AND) or TRUE (OR), after terms that fold without error, decides the whole expression |
| InterpreterLaws.AllIdentity | core/trino-main/src/main/java/io/trino/sql/planner/IrExpressionInterpreter.java:699-734 | when every term is the identity (TRUE for AND, FALSE for OR) all are dropped and the result is that identity, including for no terms |
| InterpreterLaws.WithoutDecidingTerm | core/trino-main/src/main/java/io/trino/sql/planner/IrExpressionInterpreter.java:736-748 | with no deciding term, the non-identity terms in their original order decide: none gives the identity, one is returned as it is, only nulls give null, otherwise a residual node with the same operator |
| InterpreterLaws.NotEqualNegatesEqual | core/trino-main/src/main/java/io/trino/sql/planner/IrExpressionInterpreter.java:536-546 | NOT_EQUAL is EQUAL negated: same error, null stays null, a boolean is negated, and a residual EQUAL comes back as NOT_EQUAL on the same operands |
| InterpreterLaws.GreaterThanMirrorsLessThan | core/trino-main/src/main/java/io/trino/sql/planner/IrExpressionInterpreter.java:547-553 | `a > b` folds as `b < a`, and a residual is flipped back to `a > b` |
| InterpreterLaws.GreaterThanOrEqualMirrorsLessThanOrEqual | core/trino-main/src/main/java/io/trino/sql/planner/IrExpressionInterpreter.java:547-553 | `a >= b` folds as `b <= a`, and a residual is flipped back to `a >= b` |
| InterpreterLaws.ResidualKeepsOperator | core/trino-main/src/main/java/io/trino/sql/planner/IrExpressionInterpreter.java:524-608 | a residual comparison keeps the caller's operator and has the folded operands in their original positions |
| InterpreterLaws.IntegerComparison | core/trino-main/src/main/java/io/trino/sql/planner/IrExpressionInterpreter.java:577-594 | over integer literals every comparison operator folds to its mathematical meaning |
| InterpreterLaws.DistinctFromNull | core/trino-main/src/main/java/io/trino/sql/planner/IrExpressionInterpreter.java:557-575 | `NULL IS DISTINCT FROM x` with `x` residual becomes `NOT (x IS NULL)`, on either side |
| InterpreterLaws.FlipComparisonLaws | core/trino-main/src/main/java/io/trino/sql/planner/IrExpressionInterpreter.java:596-608 | flipComparison fails exactly on IS DISTINCT FROM, agrees with `Ir.Negate` on EQUAL/NOT_EQUAL and with `Ir.Flip` (operands swapped) on the ordering operators, and undoes itself |
| InterpreterLaws.ComparisonNullOperand | core/trino-main/src/main/java/io/trino/sql/planner/IrExpressionInterpreter.java:524-594 | EQUAL, NOT_EQUAL and LESS_THAN* give null on a null left operand and GREATER_THAN* on a null right one, whatever the other operand does; IS DISTINCT FROM processes both, so a failing right operand fails it |
| InterpreterLaws.EvaluateComparison | core/trino-main/src/main/java/io/trino/sql/planner/IrExpressionInterpreter.java:136-148 | `evaluate` of a comparison of two integer literals is the operator's mathematical meaning |
| InterpreterLaws.EntryPoints | core/trino-main/src/main/java/io/trino/sql/planner/IrExpressionInterpreter.java:136-153 | `evaluate` succeeds exactly when the fold is a value and returns it; `optimize` is the fold and never raises a user error |
| InterpreterLaws.BetweenIsKleeneAnd | core/trino-main/src/main/java/io/trino/sql/planner/IrExpressionInterpreter.java:630-641 | the two bound comparisons combine as three-valued AND: a null comparison gives FALSE only when the other is FALSE, null otherwise |
| InterpreterLaws.BetweenNullProbe | core/trino-main/src/main/java/io/trino/sql/planner/IrExpressionInterpreter.java:611-617 | a null probe gives null whatever the bounds |
| InterpreterLaws.IntegerBetween | core/trino-main/src/main/java/io/trino/sql/planner/IrExpressionInterpreter.java:611-643 | over integers BETWEEN folds to `min <= v <= max` |
| InterpreterLaws.IntegerBetweenNullMin | core/trino-main/src/main/java/io/trino/sql/planner/IrExpressionInterpreter.java:630-641 | with a null lower bound the result is FALSE above the upper bound and null otherwise |
| InterpreterLaws.SearchedNoMatch | core/trino-main/src/main/java/io/trino/sql/planner/IrExpressionInterpreter.java:212-249 | clauses whose condition is known and not TRUE are dropped; when that is every clause the CASE is its default, null when absent |
| InterpreterLaws.SearchedFirstTrue | core/trino-main/src/main/java/io/trino/sql/planner/IrExpressionInterpreter.java:212-249 | the first TRUE condition after known non-TRUE ones makes the CASE that clause's result |
| InterpreterLaws.SearchedLaterClausesIgnored | core/trino-main/src/main/java/io/trino/sql/planner/IrExpressionInterpreter.java:212-249 | clauses after the first TRUE condition and the default are never visited: two CASEs that agree up to it fold the same |
| InterpreterLaws.CoalesceOperandsWellFormed | core/trino-main/src/main/java/io/trino/sql/planner/IrExpressionInterpreter.java:326-358 | the processed operands are residual except possibly the last, none is null, and no deterministic residual occurs twice |
| InterpreterReferences.CoalesceMatchesReference | core/trino-main/src/main/java/io/trino/sql/planner/IrExpressionInterpreter.java:326-358 | `processOperands` equals an independent reference over the operands' outcomes: the first failure is passed on, nulls are dropped, a nested residual COALESCE is spliced in up to its first non-null constant, a known value ends the list, and then only the first occurrence of each deterministic residual is kept |
| InterpreterReferences.FirstOccurrencesDistinct | core/trino-main/src/main/java/io/trino/sql/planner/IrExpressionInterpreter.java:332-356 | removing repeats loses no operand and leaves no deterministic residual twice, while a non-deterministic one may stay twice |
| InterpreterReferences.SearchedCaseMatchesReference | core/trino-main/src/main/java/io/trino/sql/planner/IrExpressionInterpreter.java:212-249 | a searched CASE keeps exactly the clauses with a residual condition before the first TRUE condition, in order and with their processed results; that clause's result, else the default, is the new default (left out when null); no residual clause gives that result itself; an error on the way fails the CASE |
| InterpreterReferences.SimpleCaseMatchesReference | core/trino-main/src/main/java/io/trino/sql/planner/IrExpressionInterpreter.java:252-297 | with WHEN values that fold to constants, a null operand gives the default; otherwise the CASE is the result of the first clause whose value is EQUAL to the operand, else the default; a null WHEN value never matches; a failing comparison fails the CASE |
| InterpreterReferences.CastKeepsNullAndIdentity | core/trino-main/src/main/java/io/trino/sql/planner/IrExpressionInterpreter.java:842-856 | a null argument stays null, and a residual argument already of the target type is returned without a cast |
| InterpreterReferences.SafeCastAgrees | core/trino-main/src/main/java/io/trino/sql/planner/IrExpressionInterpreter.java:842-870 | TRY_CAST against CAST: once the argument folds, the safe cast never fails; it gives null where the unsafe cast fails and the same value where the unsafe cast folds to one |
| InterpreterReferences.ResidualCastKeepsFlag | core/trino-main/src/main/java/io/trino/sql/planner/IrExpressionInterpreter.java:846-853 | a residual argument of another type is wrapped in a cast to the target type with the node's safety flag |
| InterpreterLaws.CoalesceStopsAtKnownValue | core/trino-main/src/main/java/io/trino/sql/planner/IrExpressionInterpreter.java:326-358 | processing stops at the first operand known to be non-null: later operands do not matter |
| InterpreterLaws.CoalesceExample | core/trino-main/src/main/java/io/trino/sql/planner/IrExpressionInterpreter.java:312-324 | `COALESCE(NULL, 5, x)` folds to 5 whatever `x` is: nulls are skipped and a single remaining operand is returned as it is |
| InterpreterLaws.InNullProbe | core/trino-main/src/main/java/io/trino/sql/planner/IrExpressionInterpreter.java:367-369 | a null probe gives null |
| InterpreterLaws.IntegerIn | core/trino-main/src/main/java/io/trino/sql/planner/IrExpressionInterpreter.java:361-469 | over integer constants IN is TRUE when some element equals the probe, else null when some element is null, else FALSE |
| InterpreterLaws.InEvaluatesEveryElement | core/trino-main/src/main/java/io/trino/sql/planner/IrExpressionInterpreter.java:413-444 | IN does not short-circuit: an element that fails makes the whole IN fail even after a match |
| InterpreterLaws.InSingleValueBecomesEqual | core/trino-main/src/main/java/io/trino/sql/planner/IrExpressionInterpreter.java:413-461 | when every element is carried as the same deterministic expression `c` (a repeated constant next to an unresolved probe, or elements that fold to one residual such as `2 IN (y)` or `2 IN (y, y)`), IN becomes the EQUAL comparison of the probe with `c` |
| InterpreterLaws.AsWrittenDropsNullElements | core/trino-main/src/main/java/io/trino/sql/planner/IrExpressionInterpreter.java:431-440 | as written, with a known probe only residual elements are ever kept in the list, so a null element is lost |
| InterpreterLaws.AsWrittenChangesAnswer | core/trino-main/src/main/java/io/trino/sql/planner/IrExpressionInterpreter.java:431-464 | as written, `2 IN (1, NULL, y)` is optimized to `2 = y`, which is FALSE at `y = 3` where the original is null |
| InterpreterLaws.KeepNullsRetainsNullElements | core/trino-main/src/main/java/io/trino/sql/planner/IrExpressionInterpreter.java:431-440 | with null elements kept and a known probe, every known element of the kept list compares null with the probe, and there is one exactly when a null element or null comparison was seen |
| InterpreterLaws.KeepNullsPreservesAnswer | core/trino-main/src/main/java/io/trino/sql/planner/IrExpressionInterpreter.java:450-464 | with null elements kept, `2 IN (1, NULL, y)` is optimized to `2 IN (NULL, y)` |
| InterpreterLaws.RuntimeAnswers | core/trino-main/src/main/java/io/trino/sql/planner/IrExpressionInterpreter.java:361-469 | for every `y != 2` the original and the corrected residual are null while the as-written residual is FALSE |
| FilterEquivalence.FalseOrNullFolds | core/trino-main/src/main/java/io/trino/sql/planner/iterative/rule/SimplifyFilterPredicate.java:221-224 | `e IS NULL OR NOT e` is TRUE exactly when `e` is not TRUE, and never null |
| FilterEquivalence.NotTrueFolds | core/trino-main/src/main/java/io/trino/sql/planner/iterative/rule/SimplifyFilterPredicate.java:215-219 | the FALSE literal and every null constant fold to a truth value other than TRUE |
| FilterEquivalence.NullIfRewriteKeepsRows | core/trino-main/src/main/java/io/trino/sql/planner/iterative/rule/SimplifyFilterPredicate.java:71 | `NULLIF(a, b)` and its rewrite `a AND (b IS NULL OR NOT b)` are TRUE on exactly the same rows |
| FilterEquivalence.SimplifyIfKeepsRows | core/trino-main/src/main/java/io/trino/sql/planner/iterative/rule/SimplifyFilterPredicate.java:95-116 | each of the six rules for the if-like CASE yields an expression TRUE on exactly the rows where the CASE is TRUE |
| FilterEquivalence.SimplifySearchedKeepsRows | core/trino-main/src/main/java/io/trino/sql/planner/iterative/rule/SimplifyFilterPredicate.java:118-193 | every rule for a multi-clause searched CASE (all TRUE, all not TRUE, one TRUE result, TRUE default, clause skipping) keeps exactly the rows the CASE keeps |
| FilterEquivalence.SkipClausesKeepsRows | core/trino-main/src/main/java/io/trino/sql/planner/iterative/rule/SimplifyFilterPredicate.java:172-192 | dropping clauses with a not-TRUE condition and cutting at a TRUE condition leaves the CASE's meaning intact |
| FilterEquivalence.SimplifySimpleKeepsRows | core/trino-main/src/main/java/io/trino/sql/planner/iterative/rule/SimplifyFilterPredicate.java:195-213 | each rule for the simple CASE keeps exactly the rows the CASE keeps |
| FilterEquivalence.SimplifyConjunctKeepsRows | core/trino-main/src/main/java/io/trino/sql/planner/iterative/rule/SimplifyFilterPredicate.java:69-82 | the rewrite of any one conjunct is TRUE exactly when the conjunct is |
| FilterEquivalence.ApplyKeepsRows | core/trino-main/src/main/java/io/trino/sql/planner/iterative/rule/SimplifyFilterPredicate.java:63-93 | the rewritten filter keeps exactly the rows the original filter keeps |
| FilterEquivalence.ExtractKeepsRows | core/trino-main/src/main/java/io/trino/sql/planner/iterative/rule/SimplifyFilterPredicate.java:65 | a filter is TRUE exactly when each of its extracted conjuncts is |
| FilterEquivalence.CombineKeepsRowIffAll | core/trino-main/src/main/java/io/trino/sql/planner/iterative/rule/SimplifyFilterPredicate.java:92 | the recombined conjunction is TRUE exactly when each conjunct is |
| FilterEquivalence.SearchedCaseMeaning | core/trino-main/src/main/java/io/trino/sql/planner/IrExpressionInterpreter.java:212-249 | with every condition folded to a value, a searched CASE is the result of its first TRUE clause, else its default |
| SimplifyFilterPredicate.SimplifyIf | core/trino-main/src/main/java/io/trino/sql/planner/iterative/rule/SimplifyFilterPredicate.java:95-116 | the six rules for a one-clause searched CASE, chosen by which of the result and default are TRUE, FALSE or null (laws: `SimplifyIfKeepsRows`) |
| SimplifyFilterPredicate.SimplifySearched | core/trino-main/src/main/java/io/trino/sql/planner/iterative/rule/SimplifyFilterPredicate.java:118-193 | the rules for a multi-clause searched CASE, tried in the source's order, ending in clause skipping (laws: `SimplifySearchedKeepsRows`; loop: `SimplifySearchedCase`) |
| SimplifyFilterPredicate.SkipClauses | core/trino-main/src/main/java/io/trino/sql/planner/iterative/rule/SimplifyFilterPredicate.java:172-192 | the clause-skipping stage: clauses with a FALSE or null condition are dropped and a TRUE condition cuts the CASE (laws: `SkipClausesKeepsRows`; loop: `ScanClauses`) |
| SimplifyFilterPredicate.SimplifySimple | core/trino-main/src/main/java/io/trino/sql/planner/iterative/rule/SimplifyFilterPredicate.java:195-213 | the rules for a simple CASE: a null-constant operand gives the default (FALSE when absent), all results and the default TRUE give TRUE, none TRUE gives FALSE, otherwise no rewrite (laws: `SimplifySimpleKeepsRows`) |
| SimplifyFilterPredicate.SimplifySearchedCase | core/trino-main/src/main/java/io/trino/sql/planner/iterative/rule/SimplifyFilterPredicate.java:118-193 | the rule's loops with early returns compute exactly the rule's definition `SimplifySearched` |
| SimplifyFilterPredicate.BuildUpToTrueResult | core/trino-main/src/main/java/io/trino/sql/planner/iterative/rule/SimplifyFilterPredicate.java:152-165 | the builder loop stops at the clause with the TRUE result and yields `operand IS NULL OR NOT operand` for each earlier clause, then that clause's operand |
| SimplifyFilterPredicate.BuildAllFalseOrNull | core/trino-main/src/main/java/io/trino/sql/planner/iterative/rule/SimplifyFilterPredicate.java:167-171 | the builder loop yields `operand IS NULL OR NOT operand` for every clause, in clause order |
| SimplifyFilterPredicate.ScanClauses | core/trino-main/src/main/java/io/trino/sql/planner/iterative/rule/SimplifyFilterPredicate.java:172-192 | the clause loop with its early returns computes exactly the clause-skipping stage `SkipClauses` |
| FilterEquivalence.UpToTrueKeepsRows | core/trino-main/src/main/java/io/trino/sql/planner/iterative/rule/SimplifyFilterPredicate.java:152-165 | with exactly one TRUE result and a default that is not TRUE, the built conjuncts are all TRUE exactly when the CASE is TRUE |
| FilterEquivalence.AllFalseOrNullKeepsRows | core/trino-main/src/main/java/io/trino/sql/planner/iterative/rule/SimplifyFilterPredicate.java:167-171 | with no TRUE result and a TRUE default, the built conjuncts are all TRUE exactly when the CASE is TRUE |
| SimplifyFilterPredicate.RewriteConjuncts | core/trino-main/src/main/java/io/trino/sql/planner/iterative/rule/SimplifyFilterPredicate.java:69-82 | every conjunct is replaced by its rewrite where there is one and kept otherwise, in its original position |
| SimplifyFilterPredicate.Apply | core/trino-main/src/main/java/io/trino/sql/planner/iterative/rule/SimplifyFilterPredicate.java:63-93 | the rule reports no change exactly when no conjunct was simplified; otherwise it returns the conjunction of the conjuncts, each rewritten in place |
| NullabilityAnalyzer.MayBeNull | core/trino-main/src/main/java/io/trino/sql/planner/NullabilityAnalyzer.java:53-121 | the may-be-null specification the traversal is proved against: a node is reported when it may be null by its kind, or when a child is (laws: `MayReturnNullOnNonNullInput`, `AlwaysReported`, `ConstantAndCast`) |
| NullabilityAnalyzer.AtomicFlag.CompareAndSet | core/trino-main/src/main/java/io/trino/sql/planner/NullabilityAnalyzer.java:67 | the flag changes only when it held the expected value, and the return value says whether it did |
| NullabilityAnalyzer.Visit | core/trino-main/src/main/java/io/trino/sql/planner/NullabilityAnalyzer.java:53-121 | after visiting `e` the flag is its old value or'ed with "e may be null": it is never lowered |
| NullabilityAnalyzer.MayReturnNullOnNonNullInput | core/trino-main/src/main/java/io/trino/sql/planner/NullabilityAnalyzer.java:41-47 | starting from a false flag, the answer is exactly the may-be-null specification |
| NullabilityAnalyzer.AlwaysReported | core/trino-main/src/main/java/io/trino/sql/planner/NullabilityAnalyzer.java:71-112 | NULLIF, IN, searched and simple CASE, subscript and every function call are reported whatever their operands |
| NullabilityAnalyzer.ConstantAndCast | core/trino-main/src/main/java/io/trino/sql/planner/NullabilityAnalyzer.java:53-69 | a constant is reported iff it is null; a cast iff its operand is reported or it is a safe cast |
| RemoveRedundantDateTrunc.Fires | core/trino-main/src/main/java/io/trino/sql/planner/iterative/rule/RemoveRedundantDateTrunc.java:79-88 | the match: `date_trunc` with two arguments, a DATE argument and a varchar constant unit that is "day" in any case (laws: `UnitMatching`, `MatchingCallReplaced`, `NonMatchingCallKept`) |
| RemoveRedundantDateTrunc.Rewrite | core/trino-main/src/main/java/io/trino/sql/planner/iterative/rule/RemoveRedundantDateTrunc.java:75-94 | the whole-tree rewrite: a match becomes its rewritten argument, every other node is rebuilt from its rewritten children (laws: `RewriteShrinks`, `FixpointIffNoRedex`) |
| RemoveRedundantDateTrunc.RewriteExpressionAgrees | core/trino-main/src/main/java/io/trino/sql/planner/iterative/rule/RemoveRedundantDateTrunc.java:48-57 | a bare symbol reference is returned unchanged, and the entry point agrees with the traversal |
| RemoveRedundantDateTrunc.UnitMatching | core/trino-main/src/main/java/io/trino/sql/planner/iterative/rule/RemoveRedundantDateTrunc.java:84-86 | the unit matches exactly when it is three letters d/a/y in any letter case; a null unit never matches |
| RemoveRedundantDateTrunc.NonMatchingCallKept | core/trino-main/src/main/java/io/trino/sql/planner/iterative/rule/RemoveRedundantDateTrunc.java:93 | a call that fails any condition keeps its callee and arity, with each argument rewritten |
| RemoveRedundantDateTrunc.MatchingCallReplaced | core/trino-main/src/main/java/io/trino/sql/planner/iterative/rule/RemoveRedundantDateTrunc.java:79-88 | a two-argument `date_trunc` with a varchar "day" unit and a DATE argument is replaced by its rewritten argument |
| RemoveRedundantDateTrunc.RewriteShrinks | core/trino-main/src/main/java/io/trino/sql/planner/iterative/rule/RemoveRedundantDateTrunc.java:75-94 | the rewrite never grows the tree and strictly shrinks it when some node matches |
| RemoveRedundantDateTrunc.FixpointIffNoRedex | core/trino-main/src/main/java/io/trino/sql/planner/iterative/rule/RemoveRedundantDateTrunc.java:75-94 | the rewrite leaves a tree unchanged exactly when no node in it matches |

## Left out

- InLoop, Process: `Process` folds IN with the `KeepNulls` policy, so a
  null-compared element stays in a residual IN list. The source drops it
  (lines 437-438), which changes the answer; see "## Findings". `InLoop`
  and `VisitIn` model both policies.
- Interpreter.VisitFunctionCall: in evaluate mode a call with an
  unresolved argument fails with an internal error. The source passes the
  expression object itself to the function invoker (line 781), whose
  behaviour on it is not part of this model.
- Function and operator invocation, operator resolution, coercions, the
  common super type and the type analyser are parameters of `Ctx`. Their
  bodies are not part of this model. Laws that need them to behave state
  that as a hypothesis (`IntegerOperators`, `BooleanEquality`).
- The IN fast path builds a Fastutil hash set and memoises it in the
  identity-keyed `inListCache`. It is modelled as "some element compares
  EQUAL to the probe" (`SetContains`), with no cache. The cache is a
  performance device, so its hit and miss paths coincide here by
  construction.
- Lambda and BIND evaluation, row-value building and the array subscript
  operator are JVM and runtime plumbing. They fold to opaque `Closure`,
  `BoundFunction` and `RowValue` values. Two consequences:
  - A ROW whose type has a different number of fields than it has items
    fails in both paths.
  - The array-index messages of the subscript operator are fixed strings.
- `DynamicFilters` is not part of this model. Whether a call is a dynamic
  filter is a `Ctx` parameter.
- `IrUtils.combineConjuncts` and `extractConjuncts` are not part of this
  model. Extraction flattens nested ANDs. Combination makes no conjunct
  TRUE, one conjunct itself, and several an AND. Deduplication and TRUE
  removal are not modelled.
- `DeterminismEvaluator` is not part of this model. `IsDeterministic`
  treats a tree as deterministic unless it calls a non-deterministic
  function.
- `ExpressionTreeRewriter` is not part of this model. A node is rebuilt
  from its rewritten children even when none changed. `WithOwnChildren`
  shows that the result is the same tree; Java object identity is not
  modelled.
- `RemoveRedundantDateTrunc.LowerAscii`: `toLowerCase(Locale.ENGLISH)` is
  modelled on ASCII letters only. Only ASCII letters can lower-case to
  the letters of "day", so the match is the same.
- `RemoveRedundantDateTrunc.Fires`: a varchar-typed constant whose value
  is not a string would raise a ClassCastException in the source. Here
  it simply does not match.
- Floating-point arithmetic, arithmetic operator semantics, `toString`
  beyond the CASE and cast forms, JSON annotations and visitor double
  dispatch are not modelled. A `match` over the `Expr` datatype replaces
  the visitor.
- `SimplifyExpressions`, the plan-node lifting and `FilterNode`
  reconstruction are outside the modelled core.
- `FilterEquivalence.SimplifySimpleKeepsRows` requires the simple CASE to
  evaluate without error, because an EQUAL invocation may fail. It also
  requires its operands to fold to values. That is, it speaks of fully
  resolved rows, as a filter sees them at execution.
- InterpreterReferences.SimpleCaseMatchesReference covers WHEN values
  that fold to constants. A clause whose WHEN value or operand is residual
  is kept with its processed result, as `SimpleFold` does. That case has
  no separate reference definition.
- `FilterEquivalence.ApplyKeepsRows` requires every conjunct, and every
  rewritten conjunct, to fold to TRUE, FALSE or null, as a boolean filter
  does at execution.

## Findings

| source | as written | input that shows it | evidently intended | confidence | as-written member | corrected member |
|---|---|---|---|---|---|---|
| core/trino-main/src/main/java/io/trino/sql/planner/IrExpressionInterpreter.java:431-440 | with a known probe, an element that is null, or whose EQUAL comparison is null, only sets `hasNullValue`. It is not added to `values`, so when another element is unresolved, the residual IN drops it | `2 IN (1, NULL, y)` with `y` unresolved while optimizing becomes `2 = y`. At `y = 3` the original is NULL and the residual is FALSE, and `NOT` of them differs | keep such elements in the residual list, giving `2 IN (NULL, y)`, which is NULL at every `y != 2` as the original is | medium; not executed | InterpreterLaws.AsWrittenChangesAnswer | InterpreterLaws.KeepNullsPreservesAnswer |

The rest of the model folds IN with the corrected behaviour:
`Process` uses `VisitIn(.., KeepNulls)`. The `AsWritten` policy of
`VisitIn` models the code as written.
