/** The in-memory evaluator: two-valued, over rows keyed by field name. */
module FilterEvaluate {
  import opened Wrappers
  import opened FilterAst
  import opened FilterFields

  function ResolveForEvaluation(value: FilterValue, field: Field, env: Env): FilterValue {
    if value != Str(ME) then
      if field.ty == Date && value.Str? && env.symbolic(value.text).Some? then Str(env.symbolic(value.text).value)
      else value
    else if !field.acceptsMe || env.viewer.None? then Null
    else Str(env.viewer.value)
  }

  /** -1, 0 or 1 the way Postgres would order the two, or none when they do not compare. */
  function OrderOf(field: Field, actual: Cell, expected: FilterValue, env: Env): Option<int> {
    match field.ty
    case Date =>
      /* A row's timestamp reaches the evaluator as a date, rounded down to milliseconds. */
      if actual.Moment? && expected.Str? && env.jsInstant(expected.text).Some? then
        Some(Sign(actual.micros / 1000, env.jsInstant(expected.text).value))
      else None
    case Number =>
      if actual.Holds? && actual.value.Num? && expected.Num? then
        Some(if actual.value.number == expected.number then 0 else if actual.value.number < expected.number then -1 else 1)
      else None
    case Boolean =>
      if actual.Holds? && actual.value.Bool? && expected.Bool? then
        Some(if actual.value.flag == expected.flag then 0 else if actual.value.flag then 1 else -1)
      else None
    case _ =>
      /* Strings; only equality is ever asked of them. */
      if actual.Holds? then Some(if StringOf(actual.value, env) == StringOf(expected, env) then 0 else 1) else Some(1)
  }

  function Sign(a: int, b: int): int {
    if a == b then 0 else if a < b then -1 else 1
  }

  predicate EvaluateComparison(field: Field, op: Operator, operand: Operand, row: Row, env: Env)
    requires WellShaped(Comparison(field.name, op, operand))
  {
    var actual := CellOf(row, field);
    match op
    case IsEmpty => if field.ty == UuidArray then !actual.Ids? || actual.ids == [] else actual.Nullish()
    case IsNotEmpty => if field.ty == UuidArray then actual.Ids? && actual.ids != [] else !actual.Nullish()
    case In => Matched(field, operand.values, actual, env)
    case NotIn => !Matched(field, operand.values, actual, env)
    case Contains =>
      if !(actual.Holds? && actual.value.Str?) then false
      else
        var needle := StringOf(ResolveForEvaluation(operand.value, field, env), env);
        Includes(LowerAll(actual.value.text, env), LowerAll(needle, env))
    case _ =>
      var expected := ResolveForEvaluation(operand.value, field, env);
      if expected == Null then (if op == Neq then !actual.Nullish() else actual.Nullish())
      else if actual.Nullish() then false
      else match OrderOf(field, actual, expected, env)
        case None => false
        case Some(order) => Satisfies(op, order)
  }

  /** `wanted.includes(actual)`, or any element of an array field; an empty list matches nothing. */
  predicate Matched(field: Field, values: seq<FilterValue>, actual: Cell, env: Env) {
    if field.ty == UuidArray then
      actual.Ids? &&
      exists i, j :: 0 <= i < |actual.ids| && 0 <= j < |values| &&
                     ResolveForEvaluation(values[j], field, env) == Str(actual.ids[i])
    else
      exists j :: 0 <= j < |values| && SameValue(actual, ResolveForEvaluation(values[j], field, env))
  }

  predicate SameValue(actual: Cell, wanted: FilterValue) {
    match actual
    case Absent => false
    case NullCell => wanted == Null
    case Holds(value) => value == wanted
    case Moment(_) => false
    case Ids(_) => false
  }

  predicate Includes(text: string, needle: string) {
    exists i :: 0 <= i <= |text| && needle <= text[i..]
  }

  predicate Evaluate(resource: Resource, node: Node, row: Row, env: Env)
    requires WellShaped(node)
  {
    match node
    case Group(And, children) => forall i :: 0 <= i < |children| ==> Evaluate(resource, children[i], row, env)
    case Group(Or, children) => exists i :: 0 <= i < |children| && Evaluate(resource, children[i], row, env)
    case Not(child) => !Evaluate(resource, child, row, env)
    case Comparison(name, op, operand) =>
      name in resource.fields && EvaluateComparison(resource.fields[name], op, operand, row, env)
  }

  /* ------------------------------- what a comparison asks ------------------------------- */

  /** The relation an operator names. */
  predicate Relates(op: Operator, a: real, b: real) {
    match op
    case Eq => a == b
    case Neq => a != b
    case Lt => a < b
    case Lte => a <= b
    case Gt => a > b
    case Gte => a >= b
    case _ => false
  }

  /** Numbers are compared as numbers, and timestamps by the millisecond they fall in. */
  lemma OrdersAsNamed(field: Field, op: Operator, operand: Operand, row: Row, env: Env)
    requires operand.Scalar? && op in {Eq, Neq, Lt, Lte, Gt, Gte}
    ensures field.ty == Number && operand.value.Num? && CellOf(row, field).Holds? && CellOf(row, field).value.Num? ==>
              (EvaluateComparison(field, op, operand, row, env)
               <==> Relates(op, CellOf(row, field).value.number, operand.value.number))
    ensures field.ty == Date && operand.value.Str? && operand.value != Str(ME) && CellOf(row, field).Moment?
            && env.symbolic(operand.value.text).None? && env.jsInstant(operand.value.text).Some? ==>
              (EvaluateComparison(field, op, operand, row, env)
               <==> Relates(op, (CellOf(row, field).micros / 1000) as real, env.jsInstant(operand.value.text).value as real))
  {
  }

  /** Texts, ids and options are the same or they are not, and nothing compares with a missing value. */
  lemma EqualAsStored(field: Field, op: Operator, operand: Operand, row: Row, env: Env)
    requires operand.Scalar? && op in {Eq, Neq} && operand.value != Str(ME) && operand.value != Null
    requires field.ty in {Text, Uuid, Enum} ==> operand.value.Str?
    requires field.ty == Boolean ==> operand.value.Bool?
    ensures CellOf(row, field).Holds? &&
            (if field.ty == Boolean then CellOf(row, field).value.Bool?
             else field.ty in {Text, Uuid, Enum} && CellOf(row, field).value.Str?) ==>
              (EvaluateComparison(field, op, operand, row, env) <==> (op == Eq <==> CellOf(row, field).value == operand.value))
    ensures CellOf(row, field).Nullish() && (field.ty == Date ==> operand.value.Str?) ==>
              !EvaluateComparison(field, op, operand, row, env)
  {
  }

  /** `contains` looks for the value as text: for null that is the word. */
  lemma ContainsLooksForTheText(field: Field, value: FilterValue, row: Row, env: Env)
    requires CellOf(row, field).Holds? && CellOf(row, field).value.Str? && value != Str(ME)
    requires value == Null || (value.Str? && field.ty == Text)
    ensures EvaluateComparison(field, Contains, Scalar(value), row, env) <==>
            Includes(LowerAll(CellOf(row, field).value.text, env), LowerAll(if value == Null then "null" else value.text, env))
  {
  }

  /** An unknown field matches nothing, and a field the row does not have is in no list, not even one naming null. */
  lemma NothingMatchesTheUnknown(resource: Resource, name: string, op: Operator, operand: Operand, row: Row, env: Env)
    requires WellShaped(Comparison(name, op, operand))
    ensures name !in resource.fields ==> !Evaluate(resource, Comparison(name, op, operand), row, env)
    ensures name in resource.fields && op == In && CellOf(row, resource.fields[name]).Absent? ==>
              !Evaluate(resource, Comparison(name, op, operand), row, env)
  {
  }
}
