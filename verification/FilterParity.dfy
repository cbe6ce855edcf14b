/** The compiled SQL and the in-memory evaluator select the same rows. */
module FilterParity {
  import opened Wrappers
  import opened FilterAst
  import opened FilterFields
  import opened FilterLike
  import opened FilterEvaluate
  import opened FilterCompile

  /** Parameters already pushed never move. */
  lemma {:induction false} EmitExtends(resource: Resource, node: Node, params: Params, offset: nat, env: Env)
    requires WellShaped(node) && Emit(resource, node, params, offset, env).Ok?
    ensures params <= Emit(resource, node, params, offset, env).value.1
    decreases node, 0
  {
    match node
    case Group(_, children) =>
      if children != [] {
        EmitAllExtends(resource, children, params, offset, env);
      }
    case Not(child) => EmitExtends(resource, child, params, offset, env);
    case Comparison(_, _, _) =>
  }

  lemma {:induction false} EmitAllExtends(resource: Resource, nodes: seq<Node>, params: Params, offset: nat, env: Env)
    requires forall i :: 0 <= i < |nodes| ==> WellShaped(nodes[i])
    requires EmitAll(resource, nodes, params, offset, env).Ok?
    ensures params <= EmitAll(resource, nodes, params, offset, env).value.1
    decreases nodes, 1
  {
    if nodes != [] {
      EmitExtends(resource, nodes[0], params, offset, env);
      EmitAllExtends(resource, nodes[1..], Emit(resource, nodes[0], params, offset, env).value.1, offset, env);
    }
  }

  /* ------------------------------- one comparison ------------------------------- */

  /** A list on a scalar column that may hold NULL names null: `in` then asks about equality with NULL. */
  predicate ListsNull(field: Field, op: Operator, operand: Operand) {
    IsListOperator(op) && field.ty != UuidArray && field.nullable && operand.ListOf? && Null in operand.values
  }

  /** Some listed value is this id, literally. */
  predicate ListsId(field: Field, operand: Operand, id: string, env: Env) {
    exists k :: 0 <= k < |ValuesOf(operand)| && ResolveForEvaluation(ValuesOf(operand)[k], field, env) == Str(id)
  }

  /** Every id named by the filter also occurs in the spelling the database stores. */
  predicate SpelledAsStored(field: Field, operand: Operand, env: Env) {
    field.ty in {Uuid, UuidArray} ==>
      forall j :: 0 <= j < |ValuesOf(operand)| ==>
        var r := ResolveForEvaluation(ValuesOf(operand)[j], field, env);
        r.Str? ==> ListsId(field, operand, env.canonical(r.text), env)
  }

  predicate IsOrdering(op: Operator) {
    op in {Eq, Neq, Lt, Lte, Gt, Gte}
  }

  /** Postgres can read everything the comparison binds: whole numbers in range, dates, text without a NUL. */
  predicate IsBindable(field: Field, op: Operator, operand: Operand, env: Env) {
    forall j :: 0 <= j < |ValuesOf(operand)| ==>
      var r := ResolveForEvaluation(ValuesOf(operand)[j], field, env);
      if op == Contains then IsStorable(StringOf(r, env)) else Accepts(field.ty, r, env)
  }

  /**
   * A bound read as `js` milliseconds and as `pg` microseconds splits a column's timestamps alike,
   * although the evaluator sees them rounded down to milliseconds.
   */
  predicate SplitAlike(op: Operator, wholeMillis: bool, js: int, pg: int) {
    match op
    case Lt => if wholeMillis then 1000 * js - 1000 < pg <= 1000 * js else pg == 1000 * js
    case Gte => if wholeMillis then 1000 * js - 1000 < pg <= 1000 * js else pg == 1000 * js
    case Lte => if wholeMillis then 1000 * js <= pg < 1000 * js + 1000 else pg == 1000 * js + 999
    case Gt => if wholeMillis then 1000 * js <= pg < 1000 * js + 1000 else pg == 1000 * js + 999
    case _ => wholeMillis && pg == 1000 * js
  }

  predicate ReadAlike(op: Operator, wholeMillis: bool, text: string, env: Env) {
    env.jsInstant(text).Some? && env.pgInstant(text).Some? ==>
      SplitAlike(op, wholeMillis, env.jsInstant(text).value, env.pgInstant(text).value)
  }

  /** Both backends place the date it compares with between the same two rows. */
  predicate DatesReadAlike(field: Field, op: Operator, operand: Operand, env: Env) {
    field.ty == Date && IsOrdering(op) ==>
      forall j :: 0 <= j < |ValuesOf(operand)| ==>
        var r := ResolveForEvaluation(ValuesOf(operand)[j], field, env);
        r.Str? ==> ReadAlike(op, field.wholeMillis, r.text, env)
  }

  /** The two ways of folding case take the same characters for one of the needle's. */
  ghost predicate FoldsAlike(needle: string, env: Env) {
    forall i, c :: 0 <= i < |needle| && c != NUL ==>
      (env.lower(needle[i]) == env.lower(c) <==> env.fold(needle[i]) == env.fold(c))
  }

  ghost predicate NeedleFoldsAlike(field: Field, op: Operator, operand: Operand, env: Env) {
    op == Contains && operand.Scalar? ==>
      FoldsAlike(StringOf(ResolveForEvaluation(operand.value, field, env), env), env)
  }

  /** Nothing in this comparison on which SQL and JavaScript part ways. */
  ghost predicate SafeComparison(field: Field, op: Operator, operand: Operand, env: Env) {
    && IsBindable(field, op, operand, env)
    && !ListsNull(field, op, operand) && SpelledAsStored(field, operand, env)
    && DatesReadAlike(field, op, operand, env) && NeedleFoldsAlike(field, op, operand, env)
  }

  /** A comparison the validator let through, whose values could all be resolved. */
  ghost predicate Admitted(field: Field, op: Operator, operand: Operand, env: Env) {
    && WellShaped(Comparison(field.name, op, operand))
    && op in OperatorsByType(field.ty)
    && (forall v :: v in ValuesOf(operand) ==> CheckValue(field, v, env) && Resolve(v, field, env).Ok?)
    && (field.acceptsMe ==> field.ty in {Uuid, UuidArray})
  }

  /** The emitted expression is TRUE of the row exactly when the evaluator matches it. */
  ghost predicate MeansTheSame(field: Field, op: Operator, operand: Operand, row: Row, params: Params, offset: nat, all: Params, env: Env)
    requires WellShaped(Comparison(field.name, op, operand))
    requires EmitComparison(field, op, operand, params, offset, env).Ok?
  {
    IsTrue(EmitComparison(field, op, operand, params, offset, env).value.0, row, all, offset, env)
    <==> EvaluateComparison(field, op, operand, row, env)
  }

  /** The statement runs, and keeps the row exactly when the evaluator matches it. */
  ghost predicate AgreesOn(field: Field, op: Operator, operand: Operand, row: Row, params: Params, offset: nat, all: Params, env: Env)
    requires WellShaped(Comparison(field.name, op, operand))
    requires EmitComparison(field, op, operand, params, offset, env).Ok?
  {
    Query(EmitComparison(field, op, operand, params, offset, env).value.0, row, all, offset, env)
    == Ran(EvaluateComparison(field, op, operand, row, env))
  }

  lemma ResolutionsAgree(value: FilterValue, field: Field, env: Env)
    requires Resolve(value, field, env).Ok?
    ensures ResolveForEvaluation(value, field, env) == Resolve(value, field, env).value
    ensures ResolveForEvaluation(value, field, env) == Null <==> value == Null
  {
  }

  lemma {:induction false} FoldedEscape(s: string, env: Env)
    requires Sane(env)
    ensures FoldAll(EscapeEach(s), env) == EscapeEach(FoldAll(s, env))
  {
    if s != "" {
      var head := if IsMeta(s[0]) then ['\\', s[0]] else [s[0]];
      FoldConcat(head, EscapeEach(s[1..]), env);
      FoldedEscape(s[1..], env);
      assert FoldAll(s, env)[1..] == FoldAll(s[1..], env);
      assert env.fold('\\') == '\\';
    }
  }

  lemma {:induction false} FoldConcat(a: string, b: string, env: Env)
    ensures FoldAll(a + b, env) == FoldAll(a, env) + FoldAll(b, env)
  {
  }

  /** `ILIKE` with the escaped pattern is a substring search under Postgres's folding. */
  lemma PatternIsSubstring(text: string, needle: string, env: Env)
    requires Sane(env)
    ensures Like(FoldAll("%" + EscapeLike(needle) + "%", env), FoldAll(text, env))
            <==> Includes(FoldAll(text, env), FoldAll(needle, env))
  {
    EscapeIsPerCharacter(needle);
    EscapeIsPerCharacter(FoldAll(needle, env));
    FoldConcat("%" + EscapeLike(needle), "%", env);
    FoldConcat("%", EscapeLike(needle), env);
    FoldedEscape(needle, env);
    assert FoldAll("%", env) == "%" by { assert env.fold('%') == '%'; }
    EscapingIsExact(FoldAll(needle, env), FoldAll(text, env));
  }

  /** Where a needle stands in a text, character by character under some folding. */
  ghost predicate StandsAt(f: char -> char, needle: string, text: string, i: nat) {
    i + |needle| <= |text| && forall k :: 0 <= k < |needle| ==> f(needle[k]) == f(text[i + k])
  }

  lemma IncludesIsStanding(f: char -> char, needle: string, text: string, foldedNeedle: string, foldedText: string)
    requires |foldedNeedle| == |needle| && forall k :: 0 <= k < |needle| ==> foldedNeedle[k] == f(needle[k])
    requires |foldedText| == |text| && forall k :: 0 <= k < |text| ==> foldedText[k] == f(text[k])
    ensures Includes(foldedText, foldedNeedle) <==> exists i: nat :: StandsAt(f, needle, text, i)
  {
    if i :| 0 <= i <= |foldedText| && foldedNeedle <= foldedText[i..] {
      assert forall k :: 0 <= k < |needle| ==> foldedNeedle[k] == foldedText[i..][k] == foldedText[i + k];
      assert StandsAt(f, needle, text, i);
    }
    if i: nat :| StandsAt(f, needle, text, i) {
      assert foldedText[i..][..|needle|] == foldedNeedle;
    }
  }

  /** `ILIKE` and `toLowerCase().includes` find the same needle in the same texts once it folds alike. */
  lemma ContainsAgrees(text: string, needle: string, env: Env)
    requires Sane(env) && IsStorable(text) && FoldsAlike(needle, env)
    ensures Like(FoldAll("%" + EscapeLike(needle) + "%", env), FoldAll(text, env))
            <==> Includes(LowerAll(text, env), LowerAll(needle, env))
  {
    PatternIsSubstring(text, needle, env);
    IncludesIsStanding(env.fold, needle, text, FoldAll(needle, env), FoldAll(text, env));
    IncludesIsStanding(env.lower, needle, text, LowerAll(needle, env), LowerAll(text, env));
    forall i: nat
      ensures StandsAt(env.fold, needle, text, i) <==> StandsAt(env.lower, needle, text, i)
    {
      assert i + |needle| <= |text| ==>
               forall k :: 0 <= k < |needle| ==> (env.fold(needle[k]) == env.fold(text[i + k]) <==> env.lower(needle[k]) == env.lower(text[i + k]));
    }
  }

  /** A needle that does not fold alike: the text that differs from it in that one character. */
  lemma UnlikeFoldDisagrees(needle: string, i: nat, c: char, env: Env)
    requires Sane(env) && i < |needle|
    requires !(env.lower(needle[i]) == env.lower(c) <==> env.fold(needle[i]) == env.fold(c))
    ensures Like(FoldAll("%" + EscapeLike(needle) + "%", env), FoldAll(needle[i := c], env))
            <==> !Includes(LowerAll(needle[i := c], env), LowerAll(needle, env))
  {
    var text := needle[i := c];
    PatternIsSubstring(text, needle, env);
    IncludesIsStanding(env.fold, needle, text, FoldAll(needle, env), FoldAll(text, env));
    IncludesIsStanding(env.lower, needle, text, LowerAll(needle, env), LowerAll(text, env));
    OneCharacterApart(env.fold, needle, text, i, c);
    OneCharacterApart(env.lower, needle, text, i, c);
  }

  lemma OneCharacterApart(f: char -> char, needle: string, text: string, i: nat, c: char)
    requires i < |needle| && text == needle[i := c]
    ensures (exists k: nat :: StandsAt(f, needle, text, k)) <==> f(needle[i]) == f(c)
  {
    if f(needle[i]) == f(c) {
      assert StandsAt(f, needle, text, 0);
    }
    if k: nat :| StandsAt(f, needle, text, k) {
      assert k == 0 && text[0 + i] == c;
    }
  }

  /* ------------------------------- dates ------------------------------- */

  lemma AlikeSplitsAgree(op: Operator, wholeMillis: bool, js: int, pg: int, micros: int)
    requires IsOrdering(op) && SplitAlike(op, wholeMillis, js, pg) && (wholeMillis ==> micros % 1000 == 0)
    ensures Satisfies(op, micros - pg) <==> Satisfies(op, Sign(micros / 1000, js))
  {
  }

  /** A timestamp the two readings of a bound put on different sides. */
  lemma UnlikeSplitsDisagree(op: Operator, wholeMillis: bool, js: int, pg: int) returns (micros: int)
    requires IsOrdering(op) && !SplitAlike(op, wholeMillis, js, pg)
    ensures wholeMillis ==> micros % 1000 == 0
    ensures Satisfies(op, micros - pg) <==> !Satisfies(op, Sign(micros / 1000, js))
  {
    if op in {Lt, Gte} {
      micros := if pg > 1000 * js then 1000 * js else if wholeMillis then 1000 * js - 1000 else pg;
    } else if op in {Lte, Gt} {
      micros := if pg < 1000 * js then 1000 * js
                else if wholeMillis then 1000 * js + 1000
                else if pg < 1000 * js + 999 then 1000 * js + 999 else pg;
    } else {
      micros := if pg == 1000 * js then 1000 * js + 1 else 1000 * js;
    }
  }

  /** An `IN` list is TRUE exactly when some element compares equal. */
  lemma {:induction false} InIsExists(cell: Cell, field: Field, holes: seq<nat>, params: Params, offset: nat, env: Env)
    ensures SqlIn(cell, field, holes, params, offset, env) == Yes <==>
            exists j :: 0 <= j < |holes| && SqlCompare(cell, field, Eq, Bound(holes[j], params, offset), env) == Yes
  {
    if holes != [] {
      InIsExists(cell, field, holes[1..], params, offset, env);
      assert forall j :: 0 < j < |holes| ==> holes[j] == holes[1..][j - 1];
    }
  }

  /** What each list element sees: the resolved value, at its own placeholder. */
  lemma ListElements(field: Field, values: seq<FilterValue>, params: Params, offset: nat, all: Params, env: Env)
    requires ResolveAll(values, field, env).Ok?
    requires params + ResolveAll(values, field, env).value <= all
    ensures var holes := Holes(|params| + offset, |values|);
            forall j :: 0 <= j < |values| ==>
              Bound(holes[j], all, offset) == ResolveForEvaluation(values[j], field, env) == Resolve(values[j], field, env).value
  {
    hide ResolveForEvaluation, Resolve, ResolveAll;
    var resolved := ResolveAll(values, field, env).value;
    forall j | 0 <= j < |values|
      ensures Bound(Holes(|params| + offset, |values|)[j], all, offset) == resolved[j]
      ensures ResolveForEvaluation(values[j], field, env) == Resolve(values[j], field, env).value
    {
      assert all[|params| + j] == (params + resolved)[|params| + j];
      ResolutionsAgree(values[j], field, env);
    }
  }

  /** What validation leaves a listed value of an id or option field to be. */
  lemma ListedValue(field: Field, values: seq<FilterValue>, j: nat, env: Env)
    requires Admitted(field, In, ListOf(values), env) && j < |values|
    ensures var r := ResolveForEvaluation(values[j], field, env);
            r.Str? || (r == Null && values[j] == Null)
  {
    assert values[j] in ValuesOf(ListOf(values));
  }

  /** One listed value against a stored scalar. */
  lemma ScalarElement(field: Field, values: seq<FilterValue>, cell: Cell, j: nat, env: Env)
    requires Sane(env) && field.ty in {Uuid, Enum} && FitsType(cell, field, env) && j < |values|
    requires Admitted(field, In, ListOf(values), env) && SafeComparison(field, In, ListOf(values), env)
    ensures var r := ResolveForEvaluation(values[j], field, env);
            && (SameValue(cell, r) ==> SqlCompare(cell, field, Eq, r, env) == Yes)
            && (SqlCompare(cell, field, Eq, r, env) == Yes ==> Matched(field, values, cell, env))
  {
    ListedValue(field, values, j, env);
    hide Admitted;
    var r := ResolveForEvaluation(values[j], field, env);
    if SqlCompare(cell, field, Eq, r, env) == Yes && field.ty == Uuid {
      assert ValuesOf(ListOf(values))[j] == values[j];
      var k :| 0 <= k < |values| && ResolveForEvaluation(values[k], field, env) == Str(env.canonical(r.text));
      assert SameValue(cell, ResolveForEvaluation(values[k], field, env));
    }
  }

  /** A scalar `in` agrees once no null is listed and every id has its stored spelling. */
  lemma ScalarListAgrees(field: Field, values: seq<FilterValue>, cell: Cell, params: Params, offset: nat, all: Params, env: Env)
    requires Sane(env) && field.ty in {Uuid, Enum} && FitsType(cell, field, env)
    requires Admitted(field, In, ListOf(values), env) && SafeComparison(field, In, ListOf(values), env)
    requires ResolveAll(values, field, env).Ok? && params + ResolveAll(values, field, env).value <= all
    ensures SqlIn(cell, field, Holes(|params| + offset, |values|), all, offset, env) == Yes
            <==> Matched(field, values, cell, env)
  {
    hide Admitted, SafeComparison, SqlCompare, ResolveForEvaluation, Resolve;
    var holes := Holes(|params| + offset, |values|);
    InIsExists(cell, field, holes, all, offset, env);
    ListElements(field, values, params, offset, all, env);
    forall j | 0 <= j < |values|
      ensures SameValue(cell, ResolveForEvaluation(values[j], field, env)) ==>
                SqlCompare(cell, field, Eq, Bound(holes[j], all, offset), env) == Yes
      ensures SqlCompare(cell, field, Eq, Bound(holes[j], all, offset), env) == Yes ==> Matched(field, values, cell, env)
    {
      ScalarElement(field, values, cell, j, env);
    }
  }

  predicate StoredIds(cell: Cell, env: Env) {
    cell.Nullish() || (cell.Ids? && forall i :: 0 <= i < |cell.ids| ==> env.canonical(cell.ids[i]) == cell.ids[i])
  }

  lemma ArrayListAgrees(field: Field, values: seq<FilterValue>, cell: Cell, params: Params, offset: nat, all: Params, env: Env)
    requires Sane(env) && field.ty == UuidArray && StoredIds(cell, env)
    requires SafeComparison(field, In, ListOf(values), env)
    requires ResolveAll(values, field, env).Ok? && params + ResolveAll(values, field, env).value <= all
    ensures SqlOverlap(cell, Holes(|params| + offset, |values|), all, offset, env) == Yes
            <==> Matched(field, values, cell, env)
  {
    var holes := Holes(|params| + offset, |values|);
    ListElements(field, values, params, offset, all, env);
    hide ResolveForEvaluation, Resolve, Holes, Bound, SafeComparison;
    if cell.Ids? {
      forall i, j | 0 <= i < |cell.ids| && 0 <= j < |holes|
        ensures Names(Bound(holes[j], all, offset), cell.ids[i], env) ==> Matched(field, values, cell, env)
        ensures ResolveForEvaluation(values[j], field, env) == Str(cell.ids[i]) ==> Names(Bound(holes[j], all, offset), cell.ids[i], env)
      {
        ArrayElement(field, values, cell, i, j, env);
      }
    }
  }

  /** One listed id against one stored id. */
  lemma ArrayElement(field: Field, values: seq<FilterValue>, cell: Cell, i: nat, j: nat, env: Env)
    requires field.ty == UuidArray && StoredIds(cell, env) && cell.Ids? && i < |cell.ids| && j < |values|
    requires SafeComparison(field, In, ListOf(values), env)
    ensures var r := ResolveForEvaluation(values[j], field, env);
            && (Names(r, cell.ids[i], env) ==> Matched(field, values, cell, env))
            && (r == Str(cell.ids[i]) ==> Names(r, cell.ids[i], env))
  {
    hide ResolveForEvaluation;
    assert ValuesOf(ListOf(values))[j] == values[j];
    var r := ResolveForEvaluation(values[j], field, env);
    if Names(r, cell.ids[i], env) {
      assert ListsId(field, ListOf(values), cell.ids[i], env);
    }
  }

  /** An ordering or equality test against one bound value. */
  lemma ScalarAgrees(field: Field, op: Operator, value: FilterValue, cell: Cell, env: Env)
    requires Sane(env) && field.ty != UuidArray && FitsType(cell, field, env) && !cell.Nullish()
    requires op in {Eq, Neq, Lt, Lte, Gt, Gte}
    requires Admitted(field, op, Scalar(value), env) && SafeComparison(field, op, Scalar(value), env) && value != Null
    ensures var expected := ResolveForEvaluation(value, field, env);
            SqlCompare(cell, field, op, expected, env) == Yes
            <==> OrderOf(field, cell, expected, env).Some? && Satisfies(op, OrderOf(field, cell, expected, env).value)
  {
    assert value in [value];
    ResolutionsAgree(value, field, env);
    var expected := ResolveForEvaluation(value, field, env);
    assert ValuesOf(Scalar(value))[0] == value;
  }

  lemma ChainOfOne(c: Combinator, a: Sql, row: Row, params: Params, offset: nat, env: Env)
    ensures EvalSql(Chain(c, [a]), row, params, offset, env) == EvalSql(a, row, params, offset, env)
  {
    assert [a][1..] == [];
    assert EvalChain(c, [], row, params, offset, env) == Known(c == And);
  }

  lemma ChainOfTwo(c: Combinator, a: Sql, b: Sql, row: Row, params: Params, offset: nat, env: Env)
    ensures var x, y := EvalSql(a, row, params, offset, env), EvalSql(b, row, params, offset, env);
            EvalSql(Chain(c, [a, b]), row, params, offset, env) == if c == And then SqlAnd(x, y) else SqlOr(x, y)
  {
    assert [a, b][1..] == [b];
    ChainOfOne(c, b, row, params, offset, env);
  }

  /** A safe comparison's expression is true of the rows the evaluator matches. */
  lemma SafeMeansTheSame(field: Field, op: Operator, operand: Operand, row: Row, params: Params, offset: nat, all: Params, env: Env)
    requires Sane(env) && Admitted(field, op, operand, env) && field.sql.Some?
    requires EmitComparison(field, op, operand, params, offset, env).Ok?
    requires EmitComparison(field, op, operand, params, offset, env).value.1 <= all
    requires FitsType(CellOf(row, field), field, env) && SafeComparison(field, op, operand, env)
    ensures MeansTheSame(field, op, operand, row, params, offset, all, env)
  {
    match op
    case IsEmpty =>
      ChainOfTwo(Or, IsNull(field), CardinalityZero(field), row, all, offset, env);
    case IsNotEmpty =>
      ChainOfTwo(And, IsNotNull(field), CardinalityPositive(field), row, all, offset, env);
    case In => ListAgrees(field, op, operand, row, params, offset, all, env);
    case NotIn => ListAgrees(field, op, operand, row, params, offset, all, env);
    case Contains => PatternAgrees(field, operand, row, params, offset, all, env);
    case _ => OrderingAgrees(field, op, operand, row, params, offset, all, env);
  }

  lemma PatternAgrees(field: Field, operand: Operand, row: Row, params: Params, offset: nat, all: Params, env: Env)
    requires Sane(env) && Admitted(field, Contains, operand, env) && field.sql.Some?
    requires EmitComparison(field, Contains, operand, params, offset, env).Ok?
    requires EmitComparison(field, Contains, operand, params, offset, env).value.1 <= all
    requires FitsType(CellOf(row, field), field, env) && NeedleFoldsAlike(field, Contains, operand, env)
    ensures MeansTheSame(field, Contains, operand, row, params, offset, all, env)
  {
    hide Like, Includes, EscapeLike, FoldAll, LowerAll, FoldsAlike, StringOf, ResolveForEvaluation, CheckValue;
    var cell := CellOf(row, field);
    if cell.Holds? {
      ContainsReads(field, operand, cell.value.text, row, params, offset, all, env);
      ContainsAgrees(cell.value.text, StringOf(ResolveForEvaluation(operand.value, field, env), env), env);
    }
  }

  /** What the two backends ask of a stored text. */
  lemma ContainsReads(field: Field, operand: Operand, text: string, row: Row, params: Params, offset: nat, all: Params, env: Env)
    requires Admitted(field, Contains, operand, env) && field.sql.Some? && CellOf(row, field) == Holds(Str(text))
    requires EmitComparison(field, Contains, operand, params, offset, env).Ok?
    requires EmitComparison(field, Contains, operand, params, offset, env).value.1 <= all
    ensures var needle := StringOf(ResolveForEvaluation(operand.value, field, env), env);
            MeansTheSame(field, Contains, operand, row, params, offset, all, env) <==>
              (Like(FoldAll("%" + EscapeLike(needle) + "%", env), FoldAll(text, env))
               <==> Includes(LowerAll(text, env), LowerAll(needle, env)))
  {
    hide Like, Includes, EscapeLike, FoldAll, LowerAll, CheckValue, StringOf, Resolve, ResolveForEvaluation, ResolveAll, SqlCompare,
         SqlIn, SqlOverlap, EvalChain, Matched, OrderOf, Holes;
    assert operand.value in ValuesOf(operand);
    ResolutionsAgree(operand.value, field, env);
    var needle := StringOf(ResolveForEvaluation(operand.value, field, env), env);
    var pattern := "%" + EscapeLike(needle) + "%";
    assert all[|params|] == (params + [Str(pattern)])[|params|];
  }

  lemma OrderingAgrees(field: Field, op: Operator, operand: Operand, row: Row, params: Params, offset: nat, all: Params, env: Env)
    requires Sane(env) && Admitted(field, op, operand, env) && field.sql.Some? && op in {Eq, Neq, Lt, Lte, Gt, Gte}
    requires EmitComparison(field, op, operand, params, offset, env).Ok?
    requires EmitComparison(field, op, operand, params, offset, env).value.1 <= all
    requires FitsType(CellOf(row, field), field, env) && SafeComparison(field, op, operand, env)
    ensures MeansTheSame(field, op, operand, row, params, offset, all, env)
  {
    hide SqlCompare, OrderOf, Satisfies, FitsType, SafeComparison;
    var cell, value := CellOf(row, field), operand.value;
    assert value in ValuesOf(operand);
    ResolutionsAgree(value, field, env);
    if value != Null {
      assert all[|params|] == (params + [Resolve(value, field, env).value])[|params|];
      NothingComparesToNull(cell, field, op, ResolveForEvaluation(value, field, env), env);
      if !cell.Nullish() {
        ScalarAgrees(field, op, value, cell, env);
      }
    }
  }

  lemma NothingComparesToNull(cell: Cell, field: Field, op: Operator, value: FilterValue, env: Env)
    ensures cell.Nullish() || value == Null ==> SqlCompare(cell, field, op, value, env) == Unknown
  {
  }

  lemma ListAgrees(field: Field, op: Operator, operand: Operand, row: Row, params: Params, offset: nat, all: Params, env: Env)
    requires Sane(env) && Admitted(field, op, operand, env) && field.sql.Some? && IsListOperator(op)
    requires EmitComparison(field, op, operand, params, offset, env).Ok?
    requires EmitComparison(field, op, operand, params, offset, env).value.1 <= all
    requires FitsType(CellOf(row, field), field, env) && SafeComparison(field, op, operand, env)
    ensures MeansTheSame(field, op, operand, row, params, offset, all, env)
  {
    assert operand.ListOf?;
    hide Matched, SafeComparison, Admitted, FitsType, EmitComparison;
    var cell, values := CellOf(row, field), operand.values;
    EmptyListMatchesNothing(field, cell, env);
    ListsAlike(field, op, values, env);
    if values != [] {
      if field.ty == UuidArray {
        ArrayListAgrees(field, values, cell, params, offset, all, env);
      } else {
        ScalarListAgrees(field, values, cell, params, offset, all, env);
      }
      ListEmission(field, op, values, row, params, offset, all, env);
    }
  }

  /** What the emitted list expression selects. */
  lemma ListEmission(field: Field, op: Operator, values: seq<FilterValue>, row: Row, params: Params, offset: nat, all: Params, env: Env)
    requires field.sql.Some? && IsListOperator(op) && values != [] && ResolveAll(values, field, env).Ok?
    ensures var holes := Holes(|params| + offset, |values|);
            var matches := if field.ty == UuidArray then SqlOverlap(CellOf(row, field), holes, all, offset, env)
                           else SqlIn(CellOf(row, field), field, holes, all, offset, env);
            IsTrue(EmitComparison(field, op, ListOf(values), params, offset, env).value.0, row, all, offset, env)
            <==> if op == In then matches == Yes else matches != Yes
  {
    hide SqlIn, SqlOverlap, ResolveAll, Holes;
    var holes := Holes(|params| + offset, |values|);
    var list := if field.ty == UuidArray then Overlap(field, holes) else InList(field, holes);
    ChainOfOne(And, list, row, all, offset, env);
    assert EvalSql(NotCoalesce(list), row, all, offset, env) == Known(EvalSql(list, row, all, offset, env) != Yes);
    assert |ResolveAll(values, field, env).value| > 0;
  }

  /** `in` and `not_in` are admitted and safe alike. */
  lemma ListsAlike(field: Field, op: Operator, values: seq<FilterValue>, env: Env)
    requires IsListOperator(op) && Admitted(field, op, ListOf(values), env)
    ensures Admitted(field, In, ListOf(values), env)
    ensures SafeComparison(field, op, ListOf(values), env) ==> SafeComparison(field, In, ListOf(values), env)
    ensures field.ty in {Uuid, Enum, UuidArray}
  {
  }

  lemma EmptyListMatchesNothing(field: Field, cell: Cell, env: Env)
    ensures !Matched(field, [], cell, env)
  {
  }

  /* ------------------------- exactly when one comparison agrees ------------------------- */

  /** A null in a scalar list: a row holding NULL is in the list in memory and is not in SQL. */
  lemma NullListDisagrees(field: Field, op: Operator, values: seq<FilterValue>, row: Row, params: Params, offset: nat, all: Params, env: Env)
    requires field.sql.Some? && IsListOperator(op) && field.ty != UuidArray && Null in values
    requires ResolveAll(values, field, env).Ok? && CellOf(row, field) == NullCell
    ensures IsTrue(EmitComparison(field, op, ListOf(values), params, offset, env).value.0, row, all, offset, env)
            <==> !EvaluateComparison(field, op, ListOf(values), row, env)
  {
    var holes := Holes(|params| + offset, |values|);
    ListEmission(field, op, values, row, params, offset, all, env);
    InIsExists(NullCell, field, holes, all, offset, env);
    var j :| 0 <= j < |values| && values[j] == Null;
    assert SameValue(NullCell, ResolveForEvaluation(values[j], field, env));
  }

  /** An id listed only in another spelling: the stored id matches in SQL and not in memory. */
  lemma RespelledIdDisagrees(field: Field, op: Operator, operand: Operand, j: nat, id: string, row: Row, params: Params, offset: nat, all: Params, env: Env)
    requires Sane(env) && Admitted(field, op, operand, env) && field.sql.Some? && field.ty in {Uuid, UuidArray}
    requires EmitComparison(field, op, operand, params, offset, env).Ok?
    requires EmitComparison(field, op, operand, params, offset, env).value.1 <= all
    requires j < |ValuesOf(operand)| && ResolveForEvaluation(ValuesOf(operand)[j], field, env).Str?
    requires id == env.canonical(ResolveForEvaluation(ValuesOf(operand)[j], field, env).text)
    requires !ListsId(field, operand, id, env)
    requires CellOf(row, field) == if field.ty == UuidArray then Ids([id]) else Holds(Str(id))
    ensures !MeansTheSame(field, op, operand, row, params, offset, all, env)
  {
    var cell, v := CellOf(row, field), ValuesOf(operand)[j];
    assert v in ValuesOf(operand);
    ResolutionsAgree(v, field, env);
    if operand.ListOf? {
      RespelledInList(field, operand.values, j, id, cell, params, offset, all, env);
      ListEmission(field, op, operand.values, row, params, offset, all, env);
    } else {
      assert all[|params|] == (params + [Resolve(v, field, env).value])[|params|];
    }
  }

  lemma RespelledInList(field: Field, values: seq<FilterValue>, j: nat, id: string, cell: Cell, params: Params, offset: nat, all: Params, env: Env)
    requires field.ty in {Uuid, UuidArray} && j < |values| && ResolveForEvaluation(values[j], field, env).Str?
    requires id == env.canonical(ResolveForEvaluation(values[j], field, env).text)
    requires !ListsId(field, ListOf(values), id, env)
    requires cell == if field.ty == UuidArray then Ids([id]) else Holds(Str(id))
    requires ResolveAll(values, field, env).Ok? && params + ResolveAll(values, field, env).value <= all
    ensures var holes := Holes(|params| + offset, |values|);
            && !Matched(field, values, cell, env)
            && (if field.ty == UuidArray then SqlOverlap(cell, holes, all, offset, env)
                else SqlIn(cell, field, holes, all, offset, env)) == Yes
  {
    var holes := Holes(|params| + offset, |values|);
    RespelledIsNotMatched(field, values, id, cell, env);
    ListElements(field, values, params, offset, all, env);
    hide ResolveForEvaluation, ResolveAll, Resolve, Matched, ListsId, SqlOverlap, SqlIn, Bound;
    if field.ty == UuidArray {
      HoleOverlaps(id, holes, j, all, offset, env);
    } else {
      HoleIsIn(field, id, holes, j, all, offset, env);
    }
  }

  lemma HoleOverlaps(id: string, holes: seq<nat>, j: nat, all: Params, offset: nat, env: Env)
    requires j < |holes| && Names(Bound(holes[j], all, offset), id, env)
    ensures SqlOverlap(Ids([id]), holes, all, offset, env) == Yes
  {
    assert Names(Bound(holes[j], all, offset), [id][0], env);
  }

  lemma HoleIsIn(field: Field, id: string, holes: seq<nat>, j: nat, all: Params, offset: nat, env: Env)
    requires field.ty == Uuid && j < |holes| && Names(Bound(holes[j], all, offset), id, env)
    ensures SqlIn(Holds(Str(id)), field, holes, all, offset, env) == Yes
  {
    hide SqlIn, Bound;
    InIsExists(Holds(Str(id)), field, holes, all, offset, env);
    assert SqlCompare(Holds(Str(id)), field, Eq, Bound(holes[j], all, offset), env) == Yes;
  }

  lemma RespelledIsNotMatched(field: Field, values: seq<FilterValue>, id: string, cell: Cell, env: Env)
    requires field.ty in {Uuid, UuidArray} && !ListsId(field, ListOf(values), id, env)
    requires cell == if field.ty == UuidArray then Ids([id]) else Holds(Str(id))
    ensures !Matched(field, values, cell, env)
  {
    hide ResolveForEvaluation;
    assert forall k :: 0 <= k < |values| ==> ValuesOf(ListOf(values))[k] == values[k];
  }

  lemma {:induction false} EscapedIsStorable(s: string)
    ensures IsStorable(EscapeEach(s)) <==> IsStorable(s)
  {
    if s != "" {
      EscapedIsStorable(s[1..]);
      var head := if IsMeta(s[0]) then ['\\', s[0]] else [s[0]];
      assert EscapeEach(s) == head + EscapeEach(s[1..]);
      StorableConcat(head, EscapeEach(s[1..]));
      assert s == [s[0]] + s[1..];
      StorableConcat([s[0]], s[1..]);
    }
  }

  lemma StorableConcat(a: string, b: string)
    ensures IsStorable(a + b) <==> IsStorable(a) && IsStorable(b)
  {
    if IsStorable(a + b) {
      assert forall i :: 0 <= i < |a| ==> (a + b)[i] == a[i];
      assert forall i :: 0 <= i < |b| ==> (a + b)[|a| + i] == b[i];
    }
  }

  lemma PatternIsStorable(needle: string)
    ensures IsStorable("%" + EscapeLike(needle) + "%") <==> IsStorable(needle)
  {
    EscapeIsPerCharacter(needle);
    EscapedIsStorable(needle);
    StorableConcat("%" + EscapeLike(needle), "%");
    StorableConcat("%", EscapeLike(needle));
  }

  /** A comparison's parameters can be read exactly when its values can. */
  lemma BindsIffBindable(field: Field, op: Operator, operand: Operand, params: Params, offset: nat, all: Params, env: Env)
    requires Admitted(field, op, operand, env) && field.sql.Some?
    requires EmitComparison(field, op, operand, params, offset, env).Ok?
    requires EmitComparison(field, op, operand, params, offset, env).value.1 <= all
    ensures Binds(EmitComparison(field, op, operand, params, offset, env).value.0, all, offset, env)
            <==> IsBindable(field, op, operand, env)
  {
    if IsListOperator(op) {
      ListBindsIffBindable(field, op, operand.values, params, offset, all, env);
    } else if op == Contains {
      hide EscapeLike;
      assert operand.value in ValuesOf(operand);
      ResolutionsAgree(operand.value, field, env);
      var needle := StringOf(ResolveForEvaluation(operand.value, field, env), env);
      assert all[|params|] == (params + [Str("%" + EscapeLike(needle) + "%")])[|params|];
      PatternIsStorable(needle);
      assert ValuesOf(operand)[0] == operand.value;
    } else if IsOrdering(op) {
      assert operand.value in ValuesOf(operand) && ValuesOf(operand)[0] == operand.value;
      ResolutionsAgree(operand.value, field, env);
      if operand.value != Null {
        assert all[|params|] == (params + [Resolve(operand.value, field, env).value])[|params|];
      }
    }
  }

  lemma ListBindsIffBindable(field: Field, op: Operator, values: seq<FilterValue>, params: Params, offset: nat, all: Params, env: Env)
    requires IsListOperator(op) && field.sql.Some? && ResolveAll(values, field, env).Ok?
    requires params + ResolveAll(values, field, env).value <= all
    ensures Binds(EmitComparison(field, op, ListOf(values), params, offset, env).value.0, all, offset, env)
            <==> IsBindable(field, op, ListOf(values), env)
  {
    var holes := Holes(|params| + offset, |values|);
    ListEmits(field, op, values, params, offset, env);
    ListElements(field, values, params, offset, all, env);
    ListIsBindable(field, op, values, env);
    hide Accepts, Bound, ResolveForEvaluation, Resolve, ResolveAll, EmitComparison, ListSql, IsBindable, Holes;
    ListBinds(field, op, holes, all, offset, env);
    assert (forall j :: 0 <= j < |holes| ==> Accepts(field.ty, Bound(holes[j], all, offset), env)) <==>
           (forall j :: 0 <= j < |values| ==> Accepts(field.ty, ResolveForEvaluation(values[j], field, env), env)) by {
      assert forall j :: 0 <= j < |values| ==> Bound(holes[j], all, offset) == ResolveForEvaluation(values[j], field, env);
    }
  }

  /** The expression of a list comparison over these placeholders. */
  function ListSql(field: Field, op: Operator, holes: seq<nat>): Sql {
    var list := if field.ty == UuidArray then Overlap(field, holes) else InList(field, holes);
    if holes == [] then (if op == In then False else True)
    else if op == NotIn then NotCoalesce(list)
    else if field.ty == UuidArray then Chain(And, [list])
    else list
  }

  lemma ListEmits(field: Field, op: Operator, values: seq<FilterValue>, params: Params, offset: nat, env: Env)
    requires IsListOperator(op) && field.sql.Some? && ResolveAll(values, field, env).Ok?
    ensures EmitComparison(field, op, ListOf(values), params, offset, env).value.0
            == ListSql(field, op, Holes(|params| + offset, |values|))
  {
    hide ResolveAll, Holes;
    assert |ResolveAll(values, field, env).value| == |values|;
  }

  lemma ListBinds(field: Field, op: Operator, holes: seq<nat>, all: Params, offset: nat, env: Env)
    requires IsListOperator(op)
    ensures Binds(ListSql(field, op, holes), all, offset, env)
            <==> forall j :: 0 <= j < |holes| ==> Accepts(field.ty, Bound(holes[j], all, offset), env)
  {
    hide Accepts, Bound;
    var list := Overlap(field, holes);
    assert Binds(Chain(And, [list]), all, offset, env) <==> Binds([list][0], all, offset, env);
  }

  lemma ListIsBindable(field: Field, op: Operator, values: seq<FilterValue>, env: Env)
    requires IsListOperator(op)
    ensures IsBindable(field, op, ListOf(values), env)
            <==> forall j :: 0 <= j < |values| ==> Accepts(field.ty, ResolveForEvaluation(values[j], field, env), env)
  {
    hide Accepts, ResolveForEvaluation;
    assert forall j :: 0 <= j < |values| ==> ValuesOf(ListOf(values))[j] == values[j];
  }

  /** A date bound read otherwise: a timestamp between the two readings is kept by one backend only. */
  lemma UnlikeDateDisagrees(field: Field, op: Operator, operand: Operand, params: Params, offset: nat, all: Params, env: Env)
    returns (row: Row)
    requires Sane(env) && Admitted(field, op, operand, env) && field.sql.Some?
    requires EmitComparison(field, op, operand, params, offset, env).Ok?
    requires EmitComparison(field, op, operand, params, offset, env).value.1 <= all
    requires IsBindable(field, op, operand, env) && !DatesReadAlike(field, op, operand, env)
    ensures FitsType(CellOf(row, field), field, env)
    ensures !MeansTheSame(field, op, operand, row, params, offset, all, env)
  {
    var value := operand.value;
    assert value in ValuesOf(operand) && ValuesOf(operand)[0] == value;
    ResolutionsAgree(value, field, env);
    var text := ResolveForEvaluation(value, field, env).text;
    var js, pg := env.jsInstant(text).value, env.pgInstant(text).value;
    var micros := UnlikeSplitsDisagree(op, field.wholeMillis, js, pg);
    row := map[field.name := Moment(micros)];
    assert all[|params|] == (params + [Resolve(value, field, env).value])[|params|];
    hide Satisfies;
    assert SqlCompare(Moment(micros), field, op, Str(text), env) == Known(Satisfies(op, micros - pg));
    assert OrderOf(field, Moment(micros), Str(text), env) == Some(Sign(micros / 1000, js));
  }

  /** A needle folded otherwise: the text that differs from it in one character is found by one backend only. */
  lemma UnlikeNeedleDisagrees(field: Field, operand: Operand, params: Params, offset: nat, all: Params, env: Env)
    returns (row: Row)
    requires Sane(env) && Admitted(field, Contains, operand, env) && field.sql.Some?
    requires EmitComparison(field, Contains, operand, params, offset, env).Ok?
    requires EmitComparison(field, Contains, operand, params, offset, env).value.1 <= all
    requires IsBindable(field, Contains, operand, env) && !NeedleFoldsAlike(field, Contains, operand, env)
    ensures FitsType(CellOf(row, field), field, env)
    ensures !MeansTheSame(field, Contains, operand, row, params, offset, all, env)
  {
    hide EmitComparison, Accepts, ResolveForEvaluation, StringOf, Like, Includes, EscapeLike, FoldAll, LowerAll, Resolve, CheckValue, EvaluateComparison, IsTrue;
    assert ValuesOf(operand)[0] == operand.value && field.ty == Text;
    var needle := StringOf(ResolveForEvaluation(operand.value, field, env), env);
    assert IsStorable(needle) && !FoldsAlike(needle, env);
    var i, c :| 0 <= i < |needle| && c != NUL && !(env.lower(needle[i]) == env.lower(c) <==> env.fold(needle[i]) == env.fold(c));
    row := map[field.name := Holds(Str(needle[i := c]))];
    UnlikeFoldDisagrees(needle, i, c, env);
    ContainsReads(field, operand, needle[i := c], row, params, offset, all, env);
  }

  /**
   * A comparison runs and selects the same rows in SQL as in memory, whatever the rows hold, exactly
   * when Postgres can read what it binds, it lists no null against a scalar column that may hold one, spells every id as
   * stored, reads its date alike and folds its needle alike.
   */
  lemma AgreesExactlyWhenSafe(field: Field, op: Operator, operand: Operand, params: Params, offset: nat, all: Params, env: Env)
    requires Sane(env) && Admitted(field, op, operand, env) && field.sql.Some?
    requires EmitComparison(field, op, operand, params, offset, env).Ok?
    requires EmitComparison(field, op, operand, params, offset, env).value.1 <= all
    ensures (forall row: Row | FitsType(CellOf(row, field), field, env) ::
               AgreesOn(field, op, operand, row, params, offset, all, env))
            <==> SafeComparison(field, op, operand, env)
  {
    BindsIffBindable(field, op, operand, params, offset, all, env);
    if SafeComparison(field, op, operand, env) {
      forall row: Row | FitsType(CellOf(row, field), field, env)
        ensures AgreesOn(field, op, operand, row, params, offset, all, env)
      {
        SafeMeansTheSame(field, op, operand, row, params, offset, all, env);
      }
    } else {
      var row := UnsafeRow(field, op, operand, params, offset, all, env);
      assert FitsType(CellOf(row, field), field, env) && !AgreesOn(field, op, operand, row, params, offset, all, env);
    }
  }

  /** The id one spelling of the filter's misses, stored. */
  lemma RespelledRow(field: Field, op: Operator, operand: Operand, params: Params, offset: nat, all: Params, env: Env) returns (row: Row)
    requires Sane(env) && Admitted(field, op, operand, env) && field.sql.Some?
    requires EmitComparison(field, op, operand, params, offset, env).Ok?
    requires EmitComparison(field, op, operand, params, offset, env).value.1 <= all
    requires !SpelledAsStored(field, operand, env)
    ensures FitsType(CellOf(row, field), field, env)
    ensures !MeansTheSame(field, op, operand, row, params, offset, all, env)
  {
    hide EmitComparison, Admitted, EvaluateComparison, ResolveForEvaluation, ListsId, IsTrue;
    var j :| 0 <= j < |ValuesOf(operand)| && ResolveForEvaluation(ValuesOf(operand)[j], field, env).Str?
          && !ListsId(field, operand, env.canonical(ResolveForEvaluation(ValuesOf(operand)[j], field, env).text), env);
    var id := env.canonical(ResolveForEvaluation(ValuesOf(operand)[j], field, env).text);
    row := map[field.name := if field.ty == UuidArray then Ids([id]) else Holds(Str(id))];
    RespelledIdDisagrees(field, op, operand, j, id, row, params, offset, all, env);
  }

  /** A row its column can hold. */
  function SomeRow(field: Field, env: Env): (row: Row)
    requires Sane(env)
    ensures FitsType(CellOf(row, field), field, env)
  {
    map[field.name :=
      match field.ty
      case Number => Holds(Num(0.0))
      case Date => Moment(0)
      case Boolean => Holds(Bool(false))
      case Uuid => Holds(Str(env.canonical("")))
      case UuidArray => Ids([])
      case _ => Holds(Str(""))]
  }

  /** A row on which an unsafe comparison's backends part ways. */
  lemma UnsafeRow(field: Field, op: Operator, operand: Operand, params: Params, offset: nat, all: Params, env: Env) returns (row: Row)
    requires Sane(env) && Admitted(field, op, operand, env) && field.sql.Some?
    requires EmitComparison(field, op, operand, params, offset, env).Ok?
    requires EmitComparison(field, op, operand, params, offset, env).value.1 <= all
    requires !SafeComparison(field, op, operand, env)
    ensures FitsType(CellOf(row, field), field, env)
    ensures !IsBindable(field, op, operand, env) || !MeansTheSame(field, op, operand, row, params, offset, all, env)
  {
    hide IsBindable, SpelledAsStored, DatesReadAlike, EvaluateComparison, CheckValue, Resolve, EscapeLike;
    if !IsBindable(field, op, operand, env) {
      row := SomeRow(field, env);
    } else if ListsNull(field, op, operand) {
      row := map[field.name := NullCell];
      NullListDisagrees(field, op, operand.values, row, params, offset, all, env);
    } else if !SpelledAsStored(field, operand, env) {
      row := RespelledRow(field, op, operand, params, offset, all, env);
    } else if !DatesReadAlike(field, op, operand, env) {
      row := UnlikeDateDisagrees(field, op, operand, params, offset, all, env);
    } else {
      row := UnlikeNeedleDisagrees(field, operand, params, offset, all, env);
    }
  }

  /* ------------------------------- whole trees ------------------------------- */

  /** Every comparison in the tree is one on which the two backends cannot part ways. */
  ghost predicate SafeTree(resource: Resource, node: Node, env: Env) {
    match node
    case Comparison(name, op, operand) =>
      name in resource.fields ==> SafeComparison(resource.fields[name], op, operand, env)
    case Group(_, children) => forall i :: 0 <= i < |children| ==> SafeTree(resource, children[i], env)
    case Not(child) => SafeTree(resource, child, env)
  }

  lemma {:induction false} EmittedMeansEvaluated(resource: Resource, node: Node, params: Params, offset: nat, all: Params, row: Row, env: Env)
    requires Sane(env) && WellFormed(resource) && resource.compilable && WellShaped(node) && Validate(resource, node, env)
    requires SafeTree(resource, node, env) && FitsSchema(row, resource, env)
    requires Emit(resource, node, params, offset, env).Ok? && Emit(resource, node, params, offset, env).value.1 <= all
    ensures IsTrue(Emit(resource, node, params, offset, env).value.0, row, all, offset, env)
            <==> Evaluate(resource, node, row, env)
    decreases node, 0
  {
    hide EmitComparison, EvaluateComparison, SafeComparison, FitsSchema, WellFormed, OperatorsFor, CheckValue, CellOf;
    match node
    case Group(combinator, children) =>
      if children != [] {
        ChildrenMeanEvaluated(resource, children, params, offset, all, row, env);
        GroupMeansEvaluated(resource, combinator, children, EmitAll(resource, children, params, offset, env).value.0, all, offset, row, env);
      }
    case Not(child) =>
      EmittedMeansEvaluated(resource, child, params, offset, all, row, env);
    case Comparison(name, op, operand) =>
      ComparisonMeansEvaluated(resource, name, op, operand, params, offset, all, row, env);
  }

  /** A non-empty group means what its combinator makes of its children's meanings. */
  lemma GroupMeansEvaluated(resource: Resource, combinator: Combinator, children: seq<Node>, parts: seq<Sql>,
                            all: Params, offset: nat, row: Row, env: Env)
    requires |parts| == |children| && forall i :: 0 <= i < |children| ==> WellShaped(children[i])
    requires forall i :: 0 <= i < |children| ==>
               (IsTrue(parts[i], row, all, offset, env) <==> Evaluate(resource, children[i], row, env))
    ensures IsTrue(Chain(combinator, parts), row, all, offset, env)
            <==> Evaluate(resource, Group(combinator, children), row, env)
  {
    ChainSelects(combinator, parts, row, all, offset, env);
    hide IsTrue;
    assert IsTrue(Chain(combinator, parts), row, all, offset, env) <==> EvalChain(combinator, parts, row, all, offset, env) == Yes by {
      ChainIsItsParts(combinator, parts, row, all, offset, env);
    }
  }

  lemma ChainIsItsParts(combinator: Combinator, parts: seq<Sql>, row: Row, all: Params, offset: nat, env: Env)
    ensures IsTrue(Chain(combinator, parts), row, all, offset, env) <==> EvalChain(combinator, parts, row, all, offset, env) == Yes
  {
  }

  lemma ComparisonMeansEvaluated(resource: Resource, name: string, op: Operator, operand: Operand,
                                 params: Params, offset: nat, all: Params, row: Row, env: Env)
    requires Sane(env) && WellFormed(resource) && resource.compilable && FitsSchema(row, resource, env)
    requires name in resource.fields
    requires var field := resource.fields[name];
             && WellShaped(Comparison(field.name, op, operand))
             && op in OperatorsFor(field)
             && (IsNullary(op) || forall i :: 0 <= i < |ValuesOf(operand)| ==> CheckValue(field, ValuesOf(operand)[i], env))
             && SafeComparison(field, op, operand, env)
             && EmitComparison(field, op, operand, params, offset, env).Ok?
             && EmitComparison(field, op, operand, params, offset, env).value.1 <= all
    ensures MeansTheSame(resource.fields[name], op, operand, row, params, offset, all, env)
  {
    var field := resource.fields[name];
    ResolvedAlready(field, op, operand, params, offset, env);
    SafeMeansTheSame(field, op, operand, row, params, offset, all, env);
  }

  lemma {:induction false} ChildrenMeanEvaluated(resource: Resource, nodes: seq<Node>, params: Params, offset: nat, all: Params, row: Row, env: Env)
    requires Sane(env) && WellFormed(resource) && resource.compilable && FitsSchema(row, resource, env)
    requires forall i :: 0 <= i < |nodes| ==>
               WellShaped(nodes[i]) && Validate(resource, nodes[i], env) && SafeTree(resource, nodes[i], env)
    requires EmitAll(resource, nodes, params, offset, env).Ok? && EmitAll(resource, nodes, params, offset, env).value.1 <= all
    ensures var parts := EmitAll(resource, nodes, params, offset, env).value.0;
            forall i :: 0 <= i < |nodes| ==>
              (IsTrue(parts[i], row, all, offset, env) <==> Evaluate(resource, nodes[i], row, env))
    decreases nodes, 1
  {
    if nodes != [] {
      var (first, middle) := Emit(resource, nodes[0], params, offset, env).value;
      EmitAllExtends(resource, nodes[1..], middle, offset, env);
      EmittedMeansEvaluated(resource, nodes[0], params, offset, all, row, env);
      ChildrenMeanEvaluated(resource, nodes[1..], middle, offset, all, row, env);
    }
  }

  /** Three-valued AND is TRUE when every part is; OR when some part is. */
  lemma {:induction false} ChainSelects(combinator: Combinator, parts: seq<Sql>, row: Row, params: Params, offset: nat, env: Env)
    ensures EvalChain(combinator, parts, row, params, offset, env) == Yes <==>
            if combinator == And then forall i :: 0 <= i < |parts| ==> IsTrue(parts[i], row, params, offset, env)
            else exists i :: 0 <= i < |parts| && IsTrue(parts[i], row, params, offset, env)
    decreases |parts|
  {
    if parts != [] {
      var rest := parts[1..];
      ChainSelects(combinator, rest, row, params, offset, env);
      assert EvalSql(parts[0], row, params, offset, env) == Yes <==> IsTrue(parts[0], row, params, offset, env);
      assert forall i :: 0 <= i < |rest| ==> rest[i] == parts[i + 1];
      assert forall i :: 0 < i < |parts| ==> parts[i] == rest[i - 1];
    }
  }

  /** What `validate` and a successful emission leave known about a comparison. */
  lemma ResolvedAlready(field: Field, op: Operator, operand: Operand, params: Params, offset: nat, env: Env)
    requires WellShaped(Comparison(field.name, op, operand)) && op in OperatorsByType(field.ty)
    requires field.acceptsMe ==> field.ty in {Uuid, UuidArray}
    requires IsNullary(op) || forall i :: 0 <= i < |ValuesOf(operand)| ==> CheckValue(field, ValuesOf(operand)[i], env)
    requires EmitComparison(field, op, operand, params, offset, env).Ok?
    ensures Admitted(field, op, operand, env)
  {
  }

  /* ------------------------------- statements that run ------------------------------- */

  /** Postgres can read every value the tree's comparisons bind. */
  predicate IsBindableTree(resource: Resource, node: Node, env: Env) {
    match node
    case Comparison(name, op, operand) => name in resource.fields ==> IsBindable(resource.fields[name], op, operand, env)
    case Group(_, children) => forall i :: 0 <= i < |children| ==> IsBindableTree(resource, children[i], env)
    case Not(child) => IsBindableTree(resource, child, env)
  }

  lemma {:induction false} SafeIsBindable(resource: Resource, node: Node, env: Env)
    requires SafeTree(resource, node, env)
    ensures IsBindableTree(resource, node, env)
    decreases node
  {
    match node
    case Group(_, children) =>
      forall i | 0 <= i < |children|
        ensures IsBindableTree(resource, children[i], env)
      {
        SafeIsBindable(resource, children[i], env);
      }
    case Not(child) => SafeIsBindable(resource, child, env);
    case Comparison(_, _, _) =>
  }

  lemma {:induction false} EmittedBindsIffBindable(resource: Resource, node: Node, params: Params, offset: nat, all: Params, env: Env)
    requires WellFormed(resource) && resource.compilable && WellShaped(node) && Validate(resource, node, env)
    requires Emit(resource, node, params, offset, env).Ok? && Emit(resource, node, params, offset, env).value.1 <= all
    ensures Binds(Emit(resource, node, params, offset, env).value.0, all, offset, env) <==> IsBindableTree(resource, node, env)
    decreases node, 0
  {
    hide EmitComparison, IsBindable, OperatorsFor, CheckValue;
    match node
    case Group(_, children) =>
      if children != [] {
        ChildrenBindIffBindable(resource, children, params, offset, all, env);
      }
    case Not(child) => EmittedBindsIffBindable(resource, child, params, offset, all, env);
    case Comparison(name, op, operand) =>
      ComparisonBindsIffBindable(resource, name, op, operand, params, offset, all, env);
  }

  lemma ComparisonBindsIffBindable(resource: Resource, name: string, op: Operator, operand: Operand, params: Params, offset: nat, all: Params, env: Env)
    requires WellFormed(resource) && resource.compilable && name in resource.fields
    requires WellShaped(Comparison(name, op, operand)) && Validate(resource, Comparison(name, op, operand), env)
    requires EmitComparison(resource.fields[name], op, operand, params, offset, env).Ok?
    requires EmitComparison(resource.fields[name], op, operand, params, offset, env).value.1 <= all
    ensures Binds(EmitComparison(resource.fields[name], op, operand, params, offset, env).value.0, all, offset, env)
            <==> IsBindable(resource.fields[name], op, operand, env)
  {
    var field := resource.fields[name];
    ResolvedAlready(field, op, operand, params, offset, env);
    BindsIffBindable(field, op, operand, params, offset, all, env);
  }

  lemma {:induction false} ChildrenBindIffBindable(resource: Resource, nodes: seq<Node>, params: Params, offset: nat, all: Params, env: Env)
    requires WellFormed(resource) && resource.compilable
    requires forall i :: 0 <= i < |nodes| ==> WellShaped(nodes[i]) && Validate(resource, nodes[i], env)
    requires EmitAll(resource, nodes, params, offset, env).Ok? && EmitAll(resource, nodes, params, offset, env).value.1 <= all
    ensures var parts := EmitAll(resource, nodes, params, offset, env).value.0;
            forall i :: 0 <= i < |nodes| ==> (Binds(parts[i], all, offset, env) <==> IsBindableTree(resource, nodes[i], env))
    decreases nodes, 1
  {
    hide Binds, IsBindableTree, Validate, WellFormed;
    if nodes != [] {
      var (first, middle) := Emit(resource, nodes[0], params, offset, env).value;
      EmitAllExtends(resource, nodes[1..], middle, offset, env);
      EmittedBindsIffBindable(resource, nodes[0], params, offset, all, env);
      ChildrenBindIffBindable(resource, nodes[1..], middle, offset, all, env);
    }
  }

  /** A compiled filter runs exactly when Postgres can read every value it binds; otherwise no row is even looked at. */
  lemma CompiledRunsIffBindable(resource: Resource, node: Node, offset: nat, row: Row, env: Env)
    requires WellFormed(resource) && WellShaped(node) && Compile(resource, node, offset, env).Ok?
    ensures var (sql, params) := Compile(resource, node, offset, env).value;
            Query(sql, row, params, offset, env).Ran? <==> IsBindableTree(resource, node, env)
  {
    EmittedBindsIffBindable(resource, node, [], offset, Emit(resource, node, [], offset, env).value.1, env);
  }

  /**
   * The parity law: every compiled filter whose comparisons are safe runs, and selects exactly the rows
   * the evaluator matches, whatever rows the schema admits.
   */
  lemma CompiledMeansEvaluated(resource: Resource, node: Node, offset: nat, row: Row, env: Env)
    requires Sane(env) && WellFormed(resource) && WellShaped(node)
    requires SafeTree(resource, node, env) && FitsSchema(row, resource, env)
    requires Compile(resource, node, offset, env).Ok?
    ensures var (sql, params) := Compile(resource, node, offset, env).value;
            Query(sql, row, params, offset, env) == Ran(Evaluate(resource, node, row, env))
  {
    SafeIsBindable(resource, node, env);
    CompiledRunsIffBindable(resource, node, offset, row, env);
    EmittedMeansEvaluated(resource, node, [], offset, Emit(resource, node, [], offset, env).value.1, row, env);
  }

  /* ------------------------------- two readers of one card ------------------------------- */

  /** The filter asks about this field somewhere. */
  predicate Mentions(node: Node, name: string) {
    match node
    case Comparison(n, _, _) => n == name
    case Group(_, children) => exists i :: 0 <= i < |children| && Mentions(children[i], name)
    case Not(child) => Mentions(child, name)
  }

  /** The two rows hold the same in every field the filter asks about. */
  predicate AgreeWhereAsked(resource: Resource, node: Node, a: Row, b: Row) {
    forall n :: n in resource.fields && Mentions(node, n) ==> CellOf(a, resource.fields[n]) == CellOf(b, resource.fields[n])
  }

  lemma {:induction false} EvaluateReadsWhatIsAsked(resource: Resource, node: Node, a: Row, b: Row, env: Env)
    requires WellShaped(node) && AgreeWhereAsked(resource, node, a, b)
    ensures Evaluate(resource, node, a, env) == Evaluate(resource, node, b, env)
    decreases node
  {
    hide CellOf;
    match node
    case Group(_, children) =>
      forall i | 0 <= i < |children|
        ensures Evaluate(resource, children[i], a, env) == Evaluate(resource, children[i], b, env)
      {
        assert forall n :: Mentions(children[i], n) ==> Mentions(node, n);
        EvaluateReadsWhatIsAsked(resource, children[i], a, b, env);
      }
    case Not(child) =>
      assert forall n :: Mentions(child, n) ==> Mentions(node, n);
      EvaluateReadsWhatIsAsked(resource, child, a, b, env);
    case Comparison(name, _, _) =>
      assert Mentions(node, name);
  }

  /**
   * A card read twice, by the table and for the evaluator: a safe filter selects it on a board exactly
   * when it matches in a rule, provided the second reading holds the fields the filter asks about.
   */
  lemma RulesMatchTheBoard(resource: Resource, node: Node, offset: nat, stored: Row, read: Row, env: Env)
    requires Sane(env) && WellFormed(resource) && WellShaped(node)
    requires SafeTree(resource, node, env) && FitsSchema(stored, resource, env)
    requires Compile(resource, node, offset, env).Ok? && AgreeWhereAsked(resource, node, stored, read)
    ensures var (sql, params) := Compile(resource, node, offset, env).value;
            Query(sql, stored, params, offset, env) == Ran(Evaluate(resource, node, read, env))
  {
    CompiledMeansEvaluated(resource, node, offset, stored, env);
    EvaluateReadsWhatIsAsked(resource, node, stored, read, env);
  }

  /** A label the second reading leaves out: the board shows the card, and no rule matches it. */
  lemma UnreadLabelNeverMatches(id: string, env: Env)
    requires Sane(env) && env.isUuid(id) && env.canonical(id) == id && id != ME
    ensures var resource := Resource(map["label" := CARD_LABEL], true);
            var node := Comparison("label", In, ListOf([Str(id)]));
            var stored: Row, read: Row := map["label" := Ids([id])], map[];
            && WellFormed(resource) && WellShaped(node) && FitsSchema(stored, resource, env) && SafeTree(resource, node, env)
            && Compile(resource, node, 1, env).Ok?
            && Query(Compile(resource, node, 1, env).value.0, stored, Compile(resource, node, 1, env).value.1, 1, env) == Ran(true)
            && !Evaluate(resource, node, read, env)
  {
    var resource := Resource(map["label" := CARD_LABEL], true);
    var node := Comparison("label", In, ListOf([Str(id)]));
    var stored: Row := map["label" := Ids([id])];
    assert ValuesOf(node.operand) == [Str(id)];
    assert ResolveForEvaluation(ValuesOf(node.operand)[0], CARD_LABEL, env) == Str(id);
    assert ListsId(CARD_LABEL, node.operand, id, env);
    assert ResolveAll([Str(id)], CARD_LABEL, env).Ok? by {
      assert [Str(id)][1..] == [];
      assert ResolveAll([], CARD_LABEL, env).Ok?;
    }
    assert CellOf(stored, CARD_LABEL) == Ids([id]) && [id][0] == id;
    assert Matched(CARD_LABEL, [Str(id)], Ids([id]), env);
    CompiledMeansEvaluated(resource, node, 1, stored, env);
  }

  /* ------------------------------- inputs that fail ------------------------------- */

  /** `number > 1.5` compiles; the evaluator matches a card numbered 2, and Postgres refuses the statement. */
  lemma FractionalBoundIsRefused(env: Env)
    ensures var resource := Resource(map["number" := CARD_NUMBER], true);
            var node := Comparison("number", Gt, Scalar(Num(1.5)));
            var row: Row := map["number" := Holds(Num(2.0))];
            && WellFormed(resource) && WellShaped(node) && FitsSchema(row, resource, env)
            && Evaluate(resource, node, row, env)
            && Compile(resource, node, 1, env).Ok?
            && Query(Compile(resource, node, 1, env).value.0, row, Compile(resource, node, 1, env).value.1, 1, env) == Refused
  {
    assert 1.5 != 1.5.Floor as real;
  }

  /** Equality with a date is never safe on a column that keeps microseconds: rows between milliseconds part the backends. */
  lemma MicrosecondEqualityIsUnsafe(text: string, env: Env)
    requires env.symbolic(text).None? && env.jsInstant(text).Some? && env.pgInstant(text).Some? && text != ME
    ensures !SafeComparison(CARD_CREATED, Eq, Scalar(Str(text)), env)
  {
    assert ValuesOf(Scalar(Str(text)))[0] == Str(text);
    assert ResolveForEvaluation(Str(text), CARD_CREATED, env) == Str(text);
  }
}
