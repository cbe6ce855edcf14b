/** The field whitelist, what a filter's values stand for, and the validation both backends rely on. */
module FilterFields {
  import opened Wrappers
  import opened FilterAst

  datatype FieldType = Text | Number | Date | Boolean | Uuid | UuidArray | Enum

  /** `wholeMillis` marks a timestamp column only ever written whole milliseconds, `nullable` a column that may hold NULL. */
  datatype Field = Field(
    name: string,
    ty: FieldType,
    sql: Option<string>,
    operators: Option<set<Operator>>,
    options: set<string>,
    acceptsMe: bool,
    wholeMillis: bool,
    nullable: bool)

  /** A field set, and whether it has a table behind it. */
  datatype Resource = Resource(fields: map<string, Field>, compilable: bool)

  /**
   * What the backends take from outside: the viewer, symbolic dates against one clock, the instant
   * JavaScript reads in a date string (in milliseconds) and the one Postgres reads (in microseconds,
   * if it reads it at all), the spelling Postgres gives an id, how each folds case, and number formatting.
   */
  datatype Env = Env(
    viewer: Option<string>,
    symbolic: string -> Option<string>,
    jsInstant: string -> Option<int>,
    pgInstant: string -> Option<int>,
    isUuid: string -> bool,
    canonical: string -> string,
    lower: char -> char,
    fold: char -> char,
    show: real -> string)

  predicate IsMeta(c: char) {
    c == '\\' || c == '%' || c == '_'
  }

  /**
   * Symbolic dates resolve to instants, a viewer is an id, canonical spelling is stable, and folding
   * keeps wildcards apart.
   */
  ghost predicate Sane(env: Env) {
    && (forall s :: env.symbolic(s).Some? ==> env.jsInstant(env.symbolic(s).value).Some?)
    && (env.viewer.Some? ==> env.isUuid(env.viewer.value))
    && (forall s :: env.canonical(env.canonical(s)) == env.canonical(s))
    && (forall c :: env.fold(c) == c || (!IsMeta(c) && !IsMeta(env.fold(c))))
  }

  const ME := "@me"

  function OperatorsByType(ty: FieldType): set<Operator> {
    match ty
    case Text => {Eq, Neq, Contains, IsEmpty, IsNotEmpty}
    case Number => {Eq, Neq, Lt, Lte, Gt, Gte, IsEmpty, IsNotEmpty}
    case Date => {Eq, Neq, Lt, Lte, Gt, Gte, IsEmpty, IsNotEmpty}
    case Boolean => {Eq, Neq}
    case Uuid => {Eq, Neq, In, NotIn, IsEmpty, IsNotEmpty}
    case UuidArray => {In, NotIn, IsEmpty, IsNotEmpty}
    case Enum => {Eq, Neq, In, NotIn, IsEmpty, IsNotEmpty}
  }

  function OperatorsFor(field: Field): set<Operator> {
    match field.operators
    case Some(own) => own
    case None => OperatorsByType(field.ty)
  }

  /** Fields are stored under their own names; a compilable set has no per-field vocabulary, and only
      id fields accept `@me`. */
  ghost predicate WellFormed(resource: Resource) {
    forall n :: n in resource.fields ==>
      var f := resource.fields[n];
      && f.name == n
      && (resource.compilable ==> f.operators.None?)
      && (f.acceptsMe ==> f.ty in {Uuid, UuidArray})
  }

  predicate IsNullary(op: Operator) {
    op in {IsEmpty, IsNotEmpty}
  }

  predicate IsListOperator(op: Operator) {
    op in {In, NotIn}
  }

  /** What the wire schema pairs with each operator. */
  predicate WellShaped(node: Node) {
    match node
    case Comparison(_, op, operand) =>
      if IsNullary(op) then operand.Missing? else if IsListOperator(op) then operand.ListOf? else operand.Scalar?
    case Group(_, children) => forall i :: 0 <= i < |children| ==> WellShaped(children[i])
    case Not(child) => WellShaped(child)
  }

  predicate CheckValue(field: Field, value: FilterValue, env: Env) {
    if value == Null then true
    else if value == Str(ME) then field.acceptsMe
    else match field.ty
      case Text => value.Str?
      case Number => value.Num?
      case Boolean => value.Bool?
      case Date => value.Str? && (env.symbolic(value.text).Some? || env.jsInstant(value.text).Some?)
      case Uuid => value.Str? && env.isUuid(value.text)
      case UuidArray => value.Str? && env.isUuid(value.text)
      case Enum => value.Str? && value.text in field.options
  }

  function ValuesOf(operand: Operand): seq<FilterValue> {
    match operand
    case Missing => []
    case Scalar(value) => [value]
    case ListOf(values) => values
  }

  /** No field, operator or value the walk would report. */
  predicate Validate(resource: Resource, node: Node, env: Env) {
    match node
    case Comparison(name, op, operand) =>
      && name in resource.fields
      && var field := resource.fields[name];
         op in OperatorsFor(field)
         && (IsNullary(op) || forall i :: 0 <= i < |ValuesOf(operand)| ==> CheckValue(field, ValuesOf(operand)[i], env))
    case Group(_, children) => forall i :: 0 <= i < |children| ==> Validate(resource, children[i], env)
    case Not(child) => Validate(resource, child, env)
  }

  /* ------------------------------- what validation lets through ------------------------------- */

  /** By operator: equality is for single values, order for numbers and dates, lists for ids and options, and a boolean is never empty. */
  lemma OperatorsMakeSense(ty: FieldType, op: Operator)
    ensures op in OperatorsByType(ty) <==>
            match op
            case Eq => !ty.UuidArray?
            case Neq => !ty.UuidArray?
            case Lt => ty.Number? || ty.Date?
            case Lte => ty.Number? || ty.Date?
            case Gt => ty.Number? || ty.Date?
            case Gte => ty.Number? || ty.Date?
            case Contains => ty.Text?
            case In => ty.Uuid? || ty.UuidArray? || ty.Enum?
            case NotIn => ty.Uuid? || ty.UuidArray? || ty.Enum?
            case IsEmpty => !ty.Boolean?
            case IsNotEmpty => !ty.Boolean?
  {
  }

  /** A text this field may be compared with. */
  predicate MaySay(field: Field, s: string, env: Env) {
    if s == ME then field.acceptsMe
    else
      || field.ty.Text?
      || (field.ty.Enum? && s in field.options)
      || (field.ty.Date? && (env.symbolic(s).Some? || env.jsInstant(s).Some?))
      || ((field.ty.Uuid? || field.ty.UuidArray?) && env.isUuid(s))
  }

  /** Null goes anywhere; a number, a flag or a text only where the field's type can hold it. */
  lemma ValuesLetThrough(field: Field, value: FilterValue, env: Env)
    ensures CheckValue(field, value, env) <==>
            match value
            case Null => true
            case Num(_) => field.ty.Number?
            case Bool(_) => field.ty.Boolean?
            case Str(s) => MaySay(field, s, env)
  {
  }

  /** The comparisons of a filter, left to right. */
  function Comparisons(node: Node): seq<Node>
    decreases node, 0
  {
    match node
    case Comparison(_, _, _) => [node]
    case Group(_, children) => AllComparisons(children)
    case Not(child) => Comparisons(child)
  }

  function AllComparisons(nodes: seq<Node>): seq<Node>
    decreases nodes, 1
  {
    if nodes == [] then [] else Comparisons(nodes[0]) + AllComparisons(nodes[1..])
  }

  /** A known field, an operator it supports, and values it may be compared with. */
  ghost predicate IsSound(resource: Resource, node: Node, env: Env) {
    node.Comparison? && node.field in resource.fields &&
    var field := resource.fields[node.field];
    && node.operator in (if field.operators.Some? then field.operators.value else OperatorsByType(field.ty))
    && (node.operator == IsEmpty || node.operator == IsNotEmpty ||
        forall v :: v in ValuesOf(node.operand) ==> CheckValue(field, v, env))
  }

  /** A filter is valid exactly when every comparison in it is, however they are nested. */
  lemma {:induction false} ValidIffComparisonsAre(resource: Resource, node: Node, env: Env)
    ensures Validate(resource, node, env) <==> forall c :: c in Comparisons(node) ==> IsSound(resource, c, env)
    decreases node, 0
  {
    hide CheckValue, IsSound;
    match node
    case Comparison(_, _, _) =>
      OneValidIff(resource, node, env);
      assert node in Comparisons(node) && forall c :: c in Comparisons(node) ==> c == node;
    case Group(_, children) => AllValidIff(resource, children, env);
    case Not(child) => ValidIffComparisonsAre(resource, child, env);
  }

  lemma OneValidIff(resource: Resource, node: Node, env: Env)
    requires node.Comparison?
    ensures Validate(resource, node, env) <==> IsSound(resource, node, env)
  {
    hide CheckValue, OperatorsByType;
    var values := ValuesOf(node.operand);
    assert forall i :: 0 <= i < |values| ==> values[i] in values;
  }

  lemma {:induction false} AllValidIff(resource: Resource, nodes: seq<Node>, env: Env)
    ensures (forall i :: 0 <= i < |nodes| ==> Validate(resource, nodes[i], env))
            <==> forall c :: c in AllComparisons(nodes) ==> IsSound(resource, c, env)
    decreases nodes, 1
  {
    hide Validate, IsSound;
    if nodes != [] {
      ValidIffComparisonsAre(resource, nodes[0], env);
      AllValidIff(resource, nodes[1..], env);
      assert forall i :: 0 < i < |nodes| ==> nodes[i] == nodes[1..][i - 1];
      assert forall c :: c in AllComparisons(nodes) <==> c in Comparisons(nodes[0]) || c in AllComparisons(nodes[1..]);
    }
  }

  /* ------------------------------- some of the cards' fields ------------------------------- */

  const CARD_TITLE := Field("title", Text, Some("work.cards.title"), None, {}, false, false, false)
  const CARD_NUMBER := Field("number", Number, Some("work.cards.number"), None, {}, false, false, false)
  const CARD_CREATED := Field("created", Date, Some("work.cards.created_at"), None, {}, false, false, false)
  const CARD_ARCHIVED := Field("archived", Boolean, Some("(work.cards.archived_at IS NOT NULL)"), None, {}, false, false, false)
  const CARD_LABEL_SOURCE := " FROM work.card_labels cl WHERE cl.card_id = work.cards.id)"
  const CARD_LABEL := Field("label", UuidArray, Some("(SELECT array_agg(cl.label_id)" + CARD_LABEL_SOURCE), None, {}, false, false, true)

  /* ------------------------------- rows ------------------------------- */

  /** One field of a row: missing, SQL NULL, a value, a timestamp in microseconds, or an array of ids. */
  datatype Cell = Absent | NullCell | Holds(value: FilterValue) | Moment(micros: int) | Ids(ids: seq<string>) {
    predicate Nullish() {
      Absent? || NullCell?
    }
  }

  type Row = map<string, Cell>

  function CellOf(row: Row, field: Field): Cell {
    if field.name in row then row[field.name] else Absent
  }

  const NUL := '\0'

  /** Postgres text holds any character but this one. */
  predicate IsStorable(s: string) {
    forall i :: 0 <= i < |s| ==> s[i] != NUL
  }

  /** What an `integer` column, and a parameter compared with one, can hold. */
  predicate IsInt4(n: real) {
    n == n.Floor as real && -0x8000_0000 <= n.Floor < 0x8000_0000
  }

  /** A stored value fits its column; stored ids are spelled the database's way. */
  predicate FitsType(cell: Cell, field: Field, env: Env) {
    if cell.Nullish() then field.nullable
    else match field.ty
    case Text => cell.Holds? && cell.value.Str? && IsStorable(cell.value.text)
    case Number => cell.Holds? && cell.value.Num? && IsInt4(cell.value.number)
    case Date => cell.Moment? && (field.wholeMillis ==> cell.micros % 1000 == 0)
    case Boolean => cell.Holds? && cell.value.Bool?
    case Uuid => cell.Holds? && cell.value.Str? && env.canonical(cell.value.text) == cell.value.text
    case UuidArray => cell.Ids? && forall i :: 0 <= i < |cell.ids| ==> env.canonical(cell.ids[i]) == cell.ids[i]
    case Enum => cell.Holds? && cell.value.Str?
  }

  predicate FitsSchema(row: Row, resource: Resource, env: Env) {
    forall n :: n in resource.fields ==> FitsType(CellOf(row, resource.fields[n]), resource.fields[n], env)
  }

  function StringOf(value: FilterValue, env: Env): string {
    match value
    case Null => "null"
    case Str(s) => s
    case Num(n) => env.show(n)
    case Bool(b) => if b then "true" else "false"
  }

  function FoldAll(s: string, env: Env): (t: string)
    ensures |t| == |s| && forall i :: 0 <= i < |s| ==> t[i] == env.fold(s[i])
  {
    if s == "" then "" else [env.fold(s[0])] + FoldAll(s[1..], env)
  }

  function LowerAll(s: string, env: Env): (t: string)
    ensures |t| == |s| && forall i :: 0 <= i < |s| ==> t[i] == env.lower(s[i])
  {
    if s == "" then "" else [env.lower(s[0])] + LowerAll(s[1..], env)
  }

  /** The relation an ordering operator asks for, given how two values compare. */
  predicate Satisfies(op: Operator, order: int) {
    match op
    case Eq => order == 0
    case Neq => order != 0
    case Lt => order < 0
    case Lte => order <= 0
    case Gt => order > 0
    case Gte => order >= 0
    case _ => false
  }
}
