/** The compiler as it runs: building text while pushing onto one shared parameter array. */
module FilterEmitter {
  import opened Wrappers
  import opened FilterAst
  import opened FilterFields
  import opened FilterLike
  import opened FilterCompile
  import opened FilterText

  function Join(texts: seq<string>, separator: string): string {
    if texts == [] then ""
    else if |texts| == 1 then texts[0]
    else texts[0] + separator + Join(texts[1..], separator)
  }

  function RenderAll(parts: seq<Sql>): (texts: seq<string>)
    ensures |texts| == |parts|
  {
    if parts == [] then [] else [Render(parts[0])] + RenderAll(parts[1..])
  }

  function PlaceholderTexts(holes: seq<nat>): (texts: seq<string>)
    ensures |texts| == |holes|
  {
    if holes == [] then [] else [Placeholder(holes[0])] + PlaceholderTexts(holes[1..])
  }

  lemma {:induction false} JoinedParts(parts: seq<Sql>, separator: string)
    ensures Join(RenderAll(parts), separator) == Spell(JoinPieces(parts, separator))
  {
    hide Spell;
    if |parts| > 1 {
      JoinedParts(parts[1..], separator);
      SpellConcat(Pieces(parts[0]) + [Lit(separator)], JoinPieces(parts[1..], separator));
      SpellConcat(Pieces(parts[0]), [Lit(separator)]);
      OneLiteral(separator);
      assert RenderAll(parts)[1..] == RenderAll(parts[1..]);
    } else {
      assert Spell([]) == "" by { EmptySpells(); }
    }
  }

  lemma EmptySpells()
    ensures Spell([]) == ""
  {
  }

  lemma {:induction false} JoinedPlaceholderTexts(holes: seq<nat>)
    ensures Join(PlaceholderTexts(holes), ", ") == Spell(HoleList(holes))
  {
    if |holes| > 1 {
      JoinedPlaceholderTexts(holes[1..]);
      var first := [Hole(holes[0]), Lit(", ")];
      SpellConcat(first, HoleList(holes[1..]));
      assert first[1..] == [Lit(", ")] && [Lit(", ")][1..] == [];
      assert PlaceholderTexts(holes)[1..] == PlaceholderTexts(holes[1..]);
    } else if |holes| == 1 {
      assert [Hole(holes[0])][1..] == [];
    }
  }

  lemma PlaceholderTextsFrom(start: nat, count: nat)
    requires count > 0
    ensures PlaceholderTexts(Holes(start, count)) == [Placeholder(start)] + PlaceholderTexts(Holes(start + 1, count - 1))
  {
    var holes, rest := Holes(start, count), Holes(start + 1, count - 1);
    assert forall i :: 0 <= i < |rest| ==> rest[i] == holes[1..][i];
    assert holes[1..] == rest;
  }

  /** How each expression's text is put together from its parts' texts. */
  lemma RenderedList(field: Field, holes: seq<nat>)
    ensures var list := Join(PlaceholderTexts(holes), ", ");
            && Render(InList(field, holes)) == ColumnText(field) + " IN (" + list + ")"
            && Render(Overlap(field, holes)) == ColumnText(field) + " && ARRAY[" + list + "]::uuid[]"
  {
    JoinedPlaceholderTexts(holes);
    SpellAround(ColumnText(field) + " IN (", HoleList(holes), ")");
    SpellAround(ColumnText(field) + " && ARRAY[", HoleList(holes), "]::uuid[]");
  }

  lemma RenderedNot(sql: Sql)
    ensures Render(NotCoalesce(sql)) == "(NOT COALESCE(" + Render(sql) + ", FALSE))"
  {
    hide Spell, Placeholder;
    SpellAround("(NOT COALESCE(", Pieces(sql), ", FALSE))");
  }

  lemma RenderedChain(combinator: Combinator, parts: seq<Sql>)
    ensures Render(Chain(combinator, parts)) == "(" + Join(RenderAll(parts), Separator(combinator)) + ")"
  {
    hide Spell, JoinPieces, Join, RenderAll;
    JoinedParts(parts, Separator(combinator));
    SpellAround("(", JoinPieces(parts, Separator(combinator)), ")");
  }

  lemma RenderedOne(combinator: Combinator, sql: Sql)
    ensures Render(Chain(combinator, [sql])) == "(" + Render(sql) + ")"
  {
    hide Render;
    RenderedChain(combinator, [sql]);
    assert [sql][1..] == [] && RenderAll([sql]) == [Render(sql)];
  }

  lemma RenderedTwo(combinator: Combinator, a: Sql, b: Sql)
    ensures Render(Chain(combinator, [a, b])) == "(" + Render(a) + Separator(combinator) + Render(b) + ")"
  {
    hide Render, Separator;
    RenderedChain(combinator, [a, b]);
    assert [a, b][1..] == [b] && [b][1..] == [];
    assert RenderAll([a, b]) == [Render(a), Render(b)];
    assert [Render(a), Render(b)][1..] == [Render(b)];
  }

  lemma RenderedNullTests(field: Field)
    ensures Render(IsNull(field)) == ColumnText(field) + " IS NULL"
    ensures Render(IsNotNull(field)) == ColumnText(field) + " IS NOT NULL"
    ensures Render(CardinalityZero(field)) == "cardinality(" + ColumnText(field) + ") = 0"
    ensures Render(CardinalityPositive(field)) == "cardinality(" + ColumnText(field) + ") > 0"
    ensures Render(True) == "TRUE" && Render(False) == "FALSE"
  {
    hide Spell;
    OneLiteral(ColumnText(field) + " IS NULL");
    OneLiteral(ColumnText(field) + " IS NOT NULL");
    OneLiteral("cardinality(" + ColumnText(field) + ") = 0");
    OneLiteral("cardinality(" + ColumnText(field) + ") > 0");
    OneLiteral("TRUE");
    OneLiteral("FALSE");
  }

  /** What the method must have produced, given what the specification emits. */
  predicate Produced(spec: Result<(Sql, Params), CompileError>, text: Result<string, CompileError>, params: Params) {
    match spec
    case Err(e) => text == Err(e)
    case Ok((sql, after)) => text == Ok(Render(sql)) && params == after
  }

  predicate ProducedAll(spec: Result<(seq<Sql>, Params), CompileError>, texts: Result<seq<string>, CompileError>, params: Params) {
    match spec
    case Err(e) => texts == Err(e)
    case Ok((parts, after)) => texts == Ok(RenderAll(parts)) && params == after
  }

  class Emitter {
    const resource: Resource
    const env: Env
    const offset: nat
    var params: Params

    constructor (resource: Resource, env: Env, offset: nat)
      ensures this.resource == resource && this.env == env && this.offset == offset && params == []
    {
      this.resource := resource;
      this.env := env;
      this.offset := offset;
      params := [];
    }

    /** Pushes a value and answers with the placeholder standing for it. */
    method PushParameter(value: FilterValue) returns (text: string)
      modifies this`params
      ensures params == old(params) + [value] && text == Placeholder(|old(params)| + offset)
    {
      params := params + [value];
      text := Placeholder(|params| + offset - 1);
    }

    method PushParameters(values: seq<FilterValue>) returns (texts: seq<string>)
      modifies this`params
      ensures params == old(params) + values
      ensures texts == PlaceholderTexts(Holes(|old(params)| + offset, |values|))
    {
      if values == [] {
        return [];
      }
      var first := PushParameter(values[0]);
      var rest := PushParameters(values[1..]);
      texts := [first] + rest;
      PlaceholderTextsFrom(|old(params)| + offset, |values|);
      assert [values[0]] + values[1..] == values;
    }

    method EmitComparisonText(field: Field, op: Operator, operand: Operand) returns (r: Result<string, CompileError>)
      requires WellShaped(Comparison(field.name, op, operand))
      modifies this`params
      ensures Produced(EmitComparison(field, op, operand, old(params), offset, env), r, params)
    {
      hide Render, Placeholder;
      if field.sql.None? {
        return Err(FieldHasNoSql);
      }
      var column := field.sql.value;
      var isArray := field.ty == UuidArray;
      RenderedNullTests(field);
      match op {
        case IsEmpty =>
          RenderedTwo(Or, IsNull(field), CardinalityZero(field));
          return Ok(if isArray then "(" + (column + " IS NULL") + " OR " + ("cardinality(" + column + ") = 0") + ")"
                    else column + " IS NULL");
        case IsNotEmpty =>
          RenderedTwo(And, IsNotNull(field), CardinalityPositive(field));
          return Ok(if isArray then "(" + (column + " IS NOT NULL") + " AND " + ("cardinality(" + column + ") > 0") + ")"
                    else column + " IS NOT NULL");
        case In =>
          r := EmitListText(field, column, op, operand.values);
        case NotIn =>
          r := EmitListText(field, column, op, operand.values);
        case Contains =>
          var value := Resolve(operand.value, field, env);
          if value.Err? {
            return Err(value.error);
          }
          RenderedHole(field, Eq, |params| + offset);
          var hole := PushParameter(Str("%" + EscapeLike(StringOf(value.value, env)) + "%"));
          return Ok(column + " ILIKE " + hole + " ESCAPE '\\'");
        case _ =>
          r := EmitOrderingText(field, column, op, operand.value);
      }
    }

    method EmitOrderingText(field: Field, column: string, op: Operator, value: FilterValue) returns (r: Result<string, CompileError>)
      requires field.sql == Some(column) && op in {Eq, Neq, Lt, Lte, Gt, Gte}
      modifies this`params
      ensures Produced(EmitComparison(field, op, Scalar(value), old(params), offset, env), r, params)
    {
      hide Render, Placeholder;
      RenderedNullTests(field);
      var resolved := Resolve(value, field, env);
      if resolved.Err? {
        return Err(resolved.error);
      }
      if resolved.value == Null {
        return Ok(if op == Neq then column + " IS NOT NULL" else column + " IS NULL");
      }
      RenderedHole(field, op, |params| + offset);
      var hole := PushParameter(resolved.value);
      return Ok(column + " " + Token(op) + " " + hole + Cast(field.ty));
    }

    method EmitListText(field: Field, column: string, op: Operator, values: seq<FilterValue>) returns (r: Result<string, CompileError>)
      requires field.sql == Some(column) && IsListOperator(op)
      modifies this`params
      ensures Produced(EmitComparison(field, op, ListOf(values), old(params), offset, env), r, params)
    {
      hide Render, Placeholder;
      RenderedNullTests(field);
      var resolved := ResolveAll(values, field, env);
      if resolved.Err? {
        return Err(resolved.error);
      }
      if |values| == 0 {
        return Ok(if op == In then "FALSE" else "TRUE");
      }
      ghost var holes := Holes(|params| + offset, |values|);
      var texts := PushParameters(resolved.value);
      RenderedList(field, holes);
      var list := Join(texts, ", ");
      if field.ty == UuidArray {
        var expression := column + " && ARRAY[" + list + "]::uuid[]";
        RenderedOne(And, Overlap(field, holes));
        RenderedNot(Overlap(field, holes));
        return Ok(if op == In then "(" + expression + ")" else "(NOT COALESCE(" + expression + ", FALSE))");
      }
      RenderedNot(InList(field, holes));
      var expression := column + " IN (" + list + ")";
      return Ok(if op == In then expression else "(NOT COALESCE(" + expression + ", FALSE))");
    }

    method EmitText(node: Node) returns (r: Result<string, CompileError>)
      requires WellShaped(node)
      modifies this`params
      ensures Produced(Emit(resource, node, old(params), offset, env), r, params)
      decreases node, 0
    {
      hide Render, Placeholder, EmitComparison;
      match node {
        case Group(combinator, children) =>
          if children == [] {
            ghost var anyField := Field("", Text, None, None, {}, false, false, true);
            RenderedNullTests(anyField);
            return Ok(if combinator == And then "TRUE" else "FALSE");
          }
          var parts := EmitTexts(children);
          if parts.Err? {
            return Err(parts.error);
          }
          ghost var emitted := EmitAll(resource, children, old(params), offset, env).value.0;
          RenderedChain(combinator, emitted);
          return Ok("(" + Join(parts.value, Separator(combinator)) + ")");
        case Not(child) =>
          var inner := EmitText(child);
          if inner.Err? {
            return Err(inner.error);
          }
          RenderedNot(Emit(resource, child, old(params), offset, env).value.0);
          return Ok("(NOT COALESCE(" + inner.value + ", FALSE))");
        case Comparison(name, op, operand) =>
          if name !in resource.fields {
            return Err(UnknownField);
          }
          r := EmitComparisonText(resource.fields[name], op, operand);
      }
    }

    method EmitTexts(nodes: seq<Node>) returns (r: Result<seq<string>, CompileError>)
      requires forall i :: 0 <= i < |nodes| ==> WellShaped(nodes[i])
      modifies this`params
      ensures ProducedAll(EmitAll(resource, nodes, old(params), offset, env), r, params)
      decreases nodes, 1
    {
      hide Render;
      if nodes == [] {
        return Ok([]);
      }
      var first := EmitText(nodes[0]);
      if first.Err? {
        return Err(first.error);
      }
      var rest := EmitTexts(nodes[1..]);
      if rest.Err? {
        return Err(rest.error);
      }
      ghost var parts := EmitAll(resource, nodes, old(params), offset, env).value.0;
      assert parts[1..] == EmitAll(resource, nodes[1..], Emit(resource, nodes[0], old(params), offset, env).value.1, offset, env).value.0;
      return Ok([first.value] + rest.value);
    }
  }

  lemma RenderedHole(field: Field, op: Operator, hole: nat)
    ensures Render(ILike(field, hole)) == ColumnText(field) + " ILIKE " + Placeholder(hole) + " ESCAPE '\\'"
    ensures Render(Compare(field, op, hole)) == ColumnText(field) + " " + Token(op) + " " + Placeholder(hole) + Cast(field.ty)
  {
    SpellAlternating(ColumnText(field) + " ILIKE ", hole, " ESCAPE '\\'");
    SpellAlternating(ColumnText(field) + " " + Token(op) + " ", hole, Cast(field.ty));
  }

  /** The text the compiler returns is the specified expression's text, with the specified parameters. */
  method CompileFilter(resource: Resource, node: Node, offset: nat, env: Env) returns (r: Result<(string, Params), CompileError>)
    requires WellShaped(node)
    ensures r == match Compile(resource, node, offset, env)
                 case Err(e) => Err(e)
                 case Ok((sql, params)) => Ok((Render(sql), params))
  {
    if !resource.compilable {
      return Err(ResourceHasNoSql);
    }
    if !Validate(resource, node, env) {
      return Err(InvalidFilter);
    }
    var emitter := new Emitter(resource, env, offset);
    var text := emitter.EmitText(node);
    if text.Err? {
      return Err(text.error);
    }
    return Ok((text.value, emitter.params));
  }
}
