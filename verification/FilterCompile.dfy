/** The compiler: a validated tree to a parameterized SQL expression, and what SQL makes of it. */
module FilterCompile {
  import opened Wrappers
  import opened FilterAst
  import opened FilterFields
  import opened FilterLike

  datatype CompileError =
    | ResourceHasNoSql
    | InvalidFilter
    | UnknownField
    | FieldHasNoSql
    | MeNotAccepted
    | NoViewer
    | NoOperatorForm

  /** The emitted expression; `hole` numbers are the `$n` placeholders. */
  datatype Sql =
    | True
    | False
    | IsNull(column: Field)
    | IsNotNull(column: Field)
    | CardinalityZero(column: Field)
    | CardinalityPositive(column: Field)
    | InList(column: Field, holes: seq<nat>)
    | Overlap(column: Field, holes: seq<nat>)
    | ILike(column: Field, hole: nat)
    | Compare(column: Field, token: Operator, hole: nat)
    | NotCoalesce(operand: Sql)
    | Chain(combinator: Combinator, parts: seq<Sql>)

  type Params = seq<FilterValue>

  function Resolve(value: FilterValue, field: Field, env: Env): Result<FilterValue, CompileError> {
    if value != Str(ME) then
      if field.ty == Date && value.Str? && env.symbolic(value.text).Some? then Ok(Str(env.symbolic(value.text).value))
      else Ok(value)
    else if !field.acceptsMe then Err(MeNotAccepted)
    else match env.viewer
      case None => Err(NoViewer)
      case Some(id) => Ok(Str(id))
  }

  function ResolveAll(values: seq<FilterValue>, field: Field, env: Env): (r: Result<seq<FilterValue>, CompileError>)
    ensures r.Ok? ==> |r.value| == |values|
    ensures r.Ok? ==> forall i :: 0 <= i < |values| ==> Resolve(values[i], field, env) == Ok(r.value[i])
  {
    if values == [] then Ok([])
    else
      var first :- Resolve(values[0], field, env);
      var rest :- ResolveAll(values[1..], field, env);
      Ok([first] + rest)
  }

  /** The next `count` placeholder numbers. */
  function Holes(start: nat, count: nat): (holes: seq<nat>)
    ensures |holes| == count && forall i :: 0 <= i < count ==> holes[i] == start + i
  {
    if count == 0 then [] else Holes(start, count - 1) + [start + count - 1]
  }

  /** One comparison, after the parameters already pushed. */
  function EmitComparison(field: Field, op: Operator, operand: Operand, params: Params, offset: nat, env: Env)
    : Result<(Sql, Params), CompileError>
    requires WellShaped(Comparison(field.name, op, operand))
  {
    if field.sql.None? then Err(FieldHasNoSql)
    else
      var isArray := field.ty == UuidArray;
      match op
      case IsEmpty => Ok((if isArray then Chain(Or, [IsNull(field), CardinalityZero(field)]) else IsNull(field), params))
      case IsNotEmpty =>
        Ok((if isArray then Chain(And, [IsNotNull(field), CardinalityPositive(field)]) else IsNotNull(field), params))
      case In =>
        var values :- ResolveAll(operand.values, field, env);
        var holes := Holes(|params| + offset, |values|);
        Ok((if values == [] then False
            else if isArray then Chain(And, [Overlap(field, holes)])
            else InList(field, holes), params + values))
      case NotIn =>
        var values :- ResolveAll(operand.values, field, env);
        var holes := Holes(|params| + offset, |values|);
        Ok((if values == [] then True
            else NotCoalesce(if isArray then Overlap(field, holes) else InList(field, holes)), params + values))
      case Contains =>
        var value :- Resolve(operand.value, field, env);
        var pattern := "%" + EscapeLike(StringOf(value, env)) + "%";
        Ok((ILike(field, |params| + offset), params + [Str(pattern)]))
      case _ =>
        var value :- Resolve(operand.value, field, env);
        if value == Null then Ok((if op == Neq then IsNotNull(field) else IsNull(field), params))
        else Ok((Compare(field, op, |params| + offset), params + [value]))
  }

  function Emit(resource: Resource, node: Node, params: Params, offset: nat, env: Env)
    : Result<(Sql, Params), CompileError>
    requires WellShaped(node)
    decreases node, 0
  {
    match node
    case Group(combinator, children) =>
      if children == [] then Ok((if combinator == And then True else False, params))
      else
        var (parts, after) :- EmitAll(resource, children, params, offset, env);
        Ok((Chain(combinator, parts), after))
    case Not(child) =>
      var (operand, after) :- Emit(resource, child, params, offset, env);
      Ok((NotCoalesce(operand), after))
    case Comparison(name, op, operand) =>
      if name !in resource.fields then Err(UnknownField)
      else EmitComparison(resource.fields[name], op, operand, params, offset, env)
  }

  function EmitAll(resource: Resource, nodes: seq<Node>, params: Params, offset: nat, env: Env)
    : (r: Result<(seq<Sql>, Params), CompileError>)
    requires forall i :: 0 <= i < |nodes| ==> WellShaped(nodes[i])
    ensures r.Ok? ==> |r.value.0| == |nodes|
    decreases nodes, 1
  {
    if nodes == [] then Ok(([], params))
    else
      var (first, middle) :- Emit(resource, nodes[0], params, offset, env);
      var (rest, after) :- EmitAll(resource, nodes[1..], middle, offset, env);
      Ok(([first] + rest, after))
  }

  function Compile(resource: Resource, node: Node, offset: nat, env: Env): Result<(Sql, Params), CompileError>
    requires WellShaped(node)
  {
    if !resource.compilable then Err(ResourceHasNoSql)
    else if !Validate(resource, node, env) then Err(InvalidFilter)
    else Emit(resource, node, [], offset, env)
  }

  /* ----------------------- which filters compile ----------------------- */

  /** The filter names the viewer without saying who that is. */
  predicate NeedsViewer(node: Node) {
    match node
    case Comparison(_, op, operand) => !IsNullary(op) && Str(ME) in ValuesOf(operand)
    case Group(_, children) => exists i :: 0 <= i < |children| && NeedsViewer(children[i])
    case Not(child) => NeedsViewer(child)
  }

  predicate HasSql(resource: Resource, node: Node) {
    match node
    case Comparison(name, _, _) => name in resource.fields && resource.fields[name].sql.Some?
    case Group(_, children) => forall i :: 0 <= i < |children| ==> HasSql(resource, children[i])
    case Not(child) => HasSql(resource, child)
  }

  lemma {:induction false} ResolvesIff(values: seq<FilterValue>, field: Field, env: Env)
    requires forall i :: 0 <= i < |values| ==> CheckValue(field, values[i], env)
    ensures ResolveAll(values, field, env).Ok? <==> (Str(ME) in values ==> env.viewer.Some?)
    ensures ResolveAll(values, field, env).Err? ==> ResolveAll(values, field, env).error == NoViewer
  {
    if values != [] {
      ResolvesIff(values[1..], field, env);
      assert values == [values[0]] + values[1..];
    }
  }

  lemma ComparisonEmitsIff(resource: Resource, name: string, op: Operator, operand: Operand, params: Params, offset: nat, env: Env)
    requires WellShaped(Comparison(name, op, operand)) && Validate(resource, Comparison(name, op, operand), env)
    requires resource.fields[name].name == name
    ensures var node, r := Comparison(name, op, operand), EmitComparison(resource.fields[name], op, operand, params, offset, env);
            && (r.Ok? <==> HasSql(resource, node) && (NeedsViewer(node) ==> env.viewer.Some?))
            && (r.Err? ==> r.error == if HasSql(resource, node) then NoViewer else FieldHasNoSql)
  {
    var field := resource.fields[name];
    if !IsNullary(op) {
      assert forall i :: 0 <= i < |ValuesOf(operand)| ==> CheckValue(field, ValuesOf(operand)[i], env);
      ResolvesIff(ValuesOf(operand), field, env);
      if operand.Scalar? {
        assert ValuesOf(operand)[0] == operand.value && ValuesOf(operand)[1..] == [];
        assert ResolveAll([], field, env).Ok?;
      }
    }
  }

  lemma {:induction false} EmitsIff(resource: Resource, node: Node, params: Params, offset: nat, env: Env)
    requires WellFormed(resource) && WellShaped(node) && Validate(resource, node, env)
    ensures var r := Emit(resource, node, params, offset, env);
            && (r.Ok? <==> HasSql(resource, node) && (NeedsViewer(node) ==> env.viewer.Some?))
            && (r.Err? ==> r.error in {FieldHasNoSql, NoViewer})
    decreases node, 0
  {
    hide EmitComparison;
    match node
    case Group(_, children) =>
      if children != [] {
        AllEmitIff(resource, children, params, offset, env);
      }
    case Not(child) => EmitsIff(resource, child, params, offset, env);
    case Comparison(name, op, operand) => ComparisonEmitsIff(resource, name, op, operand, params, offset, env);
  }

  lemma {:induction false} AllEmitIff(resource: Resource, nodes: seq<Node>, params: Params, offset: nat, env: Env)
    requires WellFormed(resource)
    requires forall i :: 0 <= i < |nodes| ==> WellShaped(nodes[i]) && Validate(resource, nodes[i], env)
    ensures var r := EmitAll(resource, nodes, params, offset, env);
            && (r.Ok? <==> forall i :: 0 <= i < |nodes| ==> HasSql(resource, nodes[i]) && (NeedsViewer(nodes[i]) ==> env.viewer.Some?))
            && (r.Err? ==> r.error in {FieldHasNoSql, NoViewer})
    decreases nodes, 1
  {
    hide Emit, Validate, WellFormed, HasSql, NeedsViewer;
    if nodes != [] {
      EmitsIff(resource, nodes[0], params, offset, env);
      if Emit(resource, nodes[0], params, offset, env).Ok? {
        AllEmitIff(resource, nodes[1..], Emit(resource, nodes[0], params, offset, env).value.1, offset, env);
        assert forall i :: 0 < i < |nodes| ==> nodes[i] == nodes[1..][i - 1];
      }
    }
  }

  /**
   * Compilation and validation refuse the same filters, but for a field set without a table, a field
   * without SQL, and a viewer nobody named.
   */
  lemma CompilesIff(resource: Resource, node: Node, offset: nat, env: Env)
    requires WellFormed(resource) && WellShaped(node)
    ensures var r := Compile(resource, node, offset, env);
            && (r.Ok? <==> resource.compilable && Validate(resource, node, env) && HasSql(resource, node)
                           && (NeedsViewer(node) ==> env.viewer.Some?))
            && (r == Err(ResourceHasNoSql) <==> !resource.compilable)
            && (r == Err(InvalidFilter) <==> resource.compilable && !Validate(resource, node, env))
  {
    if Validate(resource, node, env) {
      EmitsIff(resource, node, [], offset, env);
    }
  }

  /* ----------------------- what SQL makes of the expression ----------------------- */

  /** SQL's three truth values. */
  datatype Truth = Yes | No | Unknown

  function Known(b: bool): Truth {
    if b then Yes else No
  }

  /** The parameter bound to `$hole`. */
  function Bound(hole: nat, params: Params, offset: nat): FilterValue {
    if offset <= hole < offset + |params| then params[hole - offset] else Null
  }

  /** A scalar column against a bound value, three-valued. */
  function SqlCompare(cell: Cell, field: Field, op: Operator, value: FilterValue, env: Env): Truth {
    if cell.Nullish() || value == Null then Unknown
    else match field.ty
      case Date =>
        if cell.Moment? && value.Str? && env.pgInstant(value.text).Some? then
          var other := env.pgInstant(value.text).value;
          Known(Satisfies(op, cell.micros - other))
        else Unknown
      case Number =>
        if cell.Holds? && cell.value.Num? && value.Num? then
          var a, b := cell.value.number, value.number;
          Known(Satisfies(op, if a < b then -1 else if a == b then 0 else 1))
        else Unknown
      case Uuid =>
        if cell.Holds? && cell.value.Str? && value.Str? then
          Known(Satisfies(op, if cell.value.text == env.canonical(value.text) then 0 else 1))
        else Unknown
      case _ =>
        if cell.Holds? then Known(Satisfies(op, if cell.value == value then 0 else 1)) else Unknown
  }

  function SqlOr(a: Truth, b: Truth): Truth {
    if a == Yes || b == Yes then Yes
    else if a.Unknown? || b.Unknown? then Unknown
    else No
  }

  function SqlAnd(a: Truth, b: Truth): Truth {
    if a == No || b == No then No
    else if a.Unknown? || b.Unknown? then Unknown
    else Yes
  }

  /** `column IN (...)` is a chain of equalities. */
  function SqlIn(cell: Cell, field: Field, holes: seq<nat>, params: Params, offset: nat, env: Env): Truth {
    if holes == [] then No
    else SqlOr(SqlCompare(cell, field, Eq, Bound(holes[0], params, offset), env),
               SqlIn(cell, field, holes[1..], params, offset, env))
  }

  /** The database reads a bound value as this stored id. */
  predicate Names(value: FilterValue, id: string, env: Env) {
    value.Str? && env.canonical(value.text) == id
  }

  /** `column && ARRAY[...]::uuid[]`: UNKNOWN only for a NULL column; NULL elements overlap nothing. */
  function SqlOverlap(cell: Cell, holes: seq<nat>, params: Params, offset: nat, env: Env): Truth {
    if !cell.Ids? then Unknown
    else Known(exists i, j :: 0 <= i < |cell.ids| && 0 <= j < |holes| &&
                             Names(Bound(holes[j], params, offset), cell.ids[i], env))
  }

  function EvalSql(sql: Sql, row: Row, params: Params, offset: nat, env: Env): Truth
    decreases sql, 0
  {
    match sql
    case True => Yes
    case False => No
    case IsNull(f) => Known(CellOf(row, f).Nullish())
    case IsNotNull(f) => Known(!CellOf(row, f).Nullish())
    case CardinalityZero(f) => if CellOf(row, f).Ids? then Known(|CellOf(row, f).ids| == 0) else Unknown
    case CardinalityPositive(f) => if CellOf(row, f).Ids? then Known(|CellOf(row, f).ids| > 0) else Unknown
    case InList(f, holes) => SqlIn(CellOf(row, f), f, holes, params, offset, env)
    case Overlap(f, holes) => SqlOverlap(CellOf(row, f), holes, params, offset, env)
    case ILike(f, hole) =>
      var cell, pattern := CellOf(row, f), Bound(hole, params, offset);
      if cell.Holds? && cell.value.Str? && pattern.Str? then
        Known(Like(FoldAll(pattern.text, env), FoldAll(cell.value.text, env)))
      else Unknown
    case Compare(f, op, hole) => SqlCompare(CellOf(row, f), f, op, Bound(hole, params, offset), env)
    case NotCoalesce(e) => Known(EvalSql(e, row, params, offset, env) != Yes)
    case Chain(combinator, parts) => EvalChain(combinator, parts, row, params, offset, env)
  }

  function EvalChain(combinator: Combinator, parts: seq<Sql>, row: Row, params: Params, offset: nat, env: Env): Truth
    decreases parts, 1
  {
    if parts == [] then Known(combinator == And)
    else
      var first := EvalSql(parts[0], row, params, offset, env);
      var rest := EvalChain(combinator, parts[1..], row, params, offset, env);
      if combinator == And then SqlAnd(first, rest) else SqlOr(first, rest)
  }

  predicate IsTrue(sql: Sql, row: Row, params: Params, offset: nat, env: Env) {
    EvalSql(sql, row, params, offset, env) == Yes
  }

  /* ----------------------- binding the parameters ----------------------- */

  /** The database can read a bound value as its column's type; a placeholder takes its column's. */
  predicate Accepts(ty: FieldType, value: FilterValue, env: Env) {
    value == Null ||
    match ty
    case Text => value.Str? && IsStorable(value.text)
    case Enum => value.Str? && IsStorable(value.text)
    case Number => value.Num? && IsInt4(value.number)
    case Date => value.Str? && env.pgInstant(value.text).Some?
    case Boolean => value.Bool?
    case Uuid => value.Str? && env.isUuid(value.text)
    case UuidArray => value.Str? && env.isUuid(value.text)
  }

  /** Every placeholder's value can be read. Values are read before any row is, so one that cannot refuses the statement. */
  predicate Binds(sql: Sql, params: Params, offset: nat, env: Env) {
    match sql
    case InList(f, holes) => forall i :: 0 <= i < |holes| ==> Accepts(f.ty, Bound(holes[i], params, offset), env)
    case Overlap(f, holes) => forall i :: 0 <= i < |holes| ==> Accepts(f.ty, Bound(holes[i], params, offset), env)
    case ILike(_, hole) => Accepts(Text, Bound(hole, params, offset), env)
    case Compare(f, _, hole) => Accepts(f.ty, Bound(hole, params, offset), env)
    case NotCoalesce(e) => Binds(e, params, offset, env)
    case Chain(_, parts) => forall i :: 0 <= i < |parts| ==> Binds(parts[i], params, offset, env)
    case _ => true
  }

  datatype Outcome = Refused | Ran(selected: bool)

  /** What a query does with one row: a WHERE clause keeps it exactly when its expression is TRUE. */
  function Query(sql: Sql, row: Row, params: Params, offset: nat, env: Env): Outcome {
    if Binds(sql, params, offset, env) then Ran(IsTrue(sql, row, params, offset, env)) else Refused
  }
}
