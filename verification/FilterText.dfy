/** The emitted text, its placeholders, and splitting it back into bound parameters. */
module FilterText {
  import opened Wrappers
  import opened FilterAst
  import opened FilterFields
  import opened FilterLike
  import opened FilterCompile

  /* ------------------------------- spelling ------------------------------- */

  /** Text between placeholders, or a placeholder. */
  datatype Piece = Lit(text: string) | Hole(number: nat)

  function Decimal(n: nat): (s: string)
    ensures s != "" && forall i :: 0 <= i < |s| ==> IsDigit(s[i])
  {
    var last := ['0' + (n % 10) as char];
    if n < 10 then last else Decimal(n / 10) + last
  }

  predicate IsDigit(c: char) {
    '0' <= c <= '9'
  }

  function NumberOf(digits: string): nat
    requires forall i :: 0 <= i < |digits| ==> IsDigit(digits[i])
  {
    if digits == "" then 0
    else
      var last := digits[|digits| - 1];
      assert IsDigit(last);
      10 * NumberOf(digits[..|digits| - 1]) + (last as int - '0' as int)
  }

  lemma {:induction false} DecimalRoundTrip(n: nat)
    ensures NumberOf(Decimal(n)) == n
  {
    var d := Decimal(n);
    if n >= 10 {
      DecimalRoundTrip(n / 10);
      assert d[..|d| - 1] == Decimal(n / 10);
    } else {
      assert d[..0] == "";
    }
  }

  function Placeholder(n: nat): string {
    "$" + Decimal(n)
  }

  function Spell(pieces: seq<Piece>): string {
    if pieces == [] then ""
    else (match pieces[0] case Lit(s) => s case Hole(n) => Placeholder(n)) + Spell(pieces[1..])
  }

  function HolesIn(pieces: seq<Piece>): seq<nat> {
    if pieces == [] then []
    else (if pieces[0].Hole? then [pieces[0].number] else []) + HolesIn(pieces[1..])
  }

  function ColumnText(field: Field): string {
    match field.sql case Some(s) => s case None => ""
  }

  function Token(op: Operator): string {
    match op
    case Eq => "="
    case Neq => "<>"
    case Lt => "<"
    case Lte => "<="
    case Gt => ">"
    case Gte => ">="
    case _ => ""
  }

  function Cast(ty: FieldType): string {
    match ty
    case Uuid => "::uuid"
    case Date => "::timestamptz"
    case _ => ""
  }

  function HoleList(holes: seq<nat>): seq<Piece> {
    if holes == [] then []
    else if |holes| == 1 then [Hole(holes[0])]
    else [Hole(holes[0]), Lit(", ")] + HoleList(holes[1..])
  }

  function Separator(combinator: Combinator): string {
    match combinator case And => " AND " case Or => " OR "
  }

  function Pieces(sql: Sql): seq<Piece>
    decreases sql, 0
  {
    match sql
    case True => [Lit("TRUE")]
    case False => [Lit("FALSE")]
    case IsNull(f) => [Lit(ColumnText(f) + " IS NULL")]
    case IsNotNull(f) => [Lit(ColumnText(f) + " IS NOT NULL")]
    case CardinalityZero(f) => [Lit("cardinality(" + ColumnText(f) + ") = 0")]
    case CardinalityPositive(f) => [Lit("cardinality(" + ColumnText(f) + ") > 0")]
    case InList(f, holes) => [Lit(ColumnText(f) + " IN (")] + HoleList(holes) + [Lit(")")]
    case Overlap(f, holes) => [Lit(ColumnText(f) + " && ARRAY[")] + HoleList(holes) + [Lit("]::uuid[]")]
    case ILike(f, hole) => [Lit(ColumnText(f) + " ILIKE "), Hole(hole), Lit(" ESCAPE '\\'")]
    case Compare(f, op, hole) => [Lit(ColumnText(f) + " " + Token(op) + " "), Hole(hole), Lit(Cast(f.ty))]
    case NotCoalesce(e) => [Lit("(NOT COALESCE(")] + Pieces(e) + [Lit(", FALSE))")]
    case Chain(combinator, parts) => [Lit("(")] + JoinPieces(parts, Separator(combinator)) + [Lit(")")]
  }

  function JoinPieces(parts: seq<Sql>, separator: string): seq<Piece>
    decreases parts, 1
  {
    if parts == [] then []
    else if |parts| == 1 then Pieces(parts[0])
    else Pieces(parts[0]) + [Lit(separator)] + JoinPieces(parts[1..], separator)
  }

  /** The SQL text. */
  function Render(sql: Sql): string {
    Spell(Pieces(sql))
  }

  lemma SpellConcat(a: seq<Piece>, b: seq<Piece>)
    ensures Spell(a + b) == Spell(a) + Spell(b)
    ensures HolesIn(a + b) == HolesIn(a) + HolesIn(b)
  {
    TextConcat(a, b);
    HolesConcat(a, b);
  }

  lemma {:induction false} TextConcat(a: seq<Piece>, b: seq<Piece>)
    ensures Spell(a + b) == Spell(a) + Spell(b)
  {
    hide Placeholder;
    if a == [] {
      assert a + b == b;
    } else {
      assert (a + b)[0] == a[0] && (a + b)[1..] == a[1..] + b;
      TextConcat(a[1..], b);
    }
  }

  lemma {:induction false} HolesConcat(a: seq<Piece>, b: seq<Piece>)
    ensures HolesIn(a + b) == HolesIn(a) + HolesIn(b)
  {
    if a == [] {
      assert a + b == b;
    } else {
      assert (a + b)[0] == a[0] && (a + b)[1..] == a[1..] + b;
      HolesConcat(a[1..], b);
    }
  }

  lemma SpellAround(left: string, middle: seq<Piece>, right: string)
    ensures Spell([Lit(left)] + middle + [Lit(right)]) == left + Spell(middle) + right
    ensures HolesIn([Lit(left)] + middle + [Lit(right)]) == HolesIn(middle)
  {
    SpellConcat([Lit(left)] + middle, [Lit(right)]);
    SpellConcat([Lit(left)], middle);
    assert [Lit(left)][1..] == [] && [Lit(right)][1..] == [];
  }

  lemma SpellAlternating(a: string, n: nat, b: string)
    ensures Spell([Lit(a), Hole(n), Lit(b)]) == a + Placeholder(n) + b
    ensures HolesIn([Lit(a), Hole(n), Lit(b)]) == [n]
  {
    assert [Lit(a), Hole(n), Lit(b)] == [Lit(a)] + [Hole(n)] + [Lit(b)];
    assert [Hole(n)][1..] == [];
    SpellAround(a, [Hole(n)], b);
  }

  /* ------------------------- placeholders are consecutive ------------------------- */

  lemma HolesSplit(start: nat, m: nat, n: nat)
    ensures Holes(start, m) + Holes(start + m, n) == Holes(start, m + n)
  {
  }

  /** The placeholder numbers of an expression, left to right. */
  ghost function SqlHoles(sql: Sql): seq<nat>
    decreases sql, 0
  {
    match sql
    case InList(_, holes) => holes
    case Overlap(_, holes) => holes
    case ILike(_, hole) => [hole]
    case Compare(_, _, hole) => [hole]
    case NotCoalesce(e) => SqlHoles(e)
    case Chain(_, parts) => PartsHoles(parts)
    case _ => []
  }

  ghost function PartsHoles(parts: seq<Sql>): seq<nat>
    decreases parts, 1
  {
    if parts == [] then [] else SqlHoles(parts[0]) + PartsHoles(parts[1..])
  }

  lemma {:induction false} HoleListHoles(holes: seq<nat>)
    ensures HolesIn(HoleList(holes)) == holes
  {
    hide HolesIn;
    if |holes| > 1 {
      HolesConcat([Hole(holes[0]), Lit(", ")], HoleList(holes[1..]));
      HoleListHoles(holes[1..]);
      HoleAlone(holes[0]);
    } else if |holes| == 1 {
      HoleAlone(holes[0]);
    } else {
      HolesOfNothing();
    }
  }

  lemma HoleAlone(n: nat)
    ensures HolesIn([Hole(n), Lit(", ")]) == [n] && HolesIn([Hole(n)]) == [n]
  {
    assert [Hole(n), Lit(", ")][1..] == [Lit(", ")] && [Lit(", ")][1..] == [] && [Hole(n)][1..] == [];
  }

  /** The text has the expression's placeholders in the expression's order. */
  lemma {:induction false} SpelledHoles(sql: Sql)
    ensures HolesIn(Pieces(sql)) == SqlHoles(sql)
    decreases sql, 0
  {
    hide Spell, HolesIn;
    match sql
    case InList(f, holes) =>
      HoleListHoles(holes);
      SpellAround(ColumnText(f) + " IN (", HoleList(holes), ")");
    case Overlap(f, holes) =>
      HoleListHoles(holes);
      SpellAround(ColumnText(f) + " && ARRAY[", HoleList(holes), "]::uuid[]");
    case Compare(f, op, hole) => SpellAlternating(ColumnText(f) + " " + Token(op) + " ", hole, Cast(f.ty));
    case ILike(f, hole) => SpellAlternating(ColumnText(f) + " ILIKE ", hole, " ESCAPE '\\'");
    case NotCoalesce(e) =>
      SpelledHoles(e);
      SpellAround("(NOT COALESCE(", Pieces(e), ", FALSE))");
    case Chain(combinator, parts) =>
      JoinedHoles(parts, Separator(combinator));
      SpellAround("(", JoinPieces(parts, Separator(combinator)), ")");
    case _ => OneLiteral(Pieces(sql)[0].text);
  }

  lemma OneLiteral(s: string)
    ensures HolesIn([Lit(s)]) == [] && Spell([Lit(s)]) == s
  {
  }

  lemma HolesOfNothing()
    ensures HolesIn([]) == []
  {
  }

  lemma {:induction false} JoinedHoles(parts: seq<Sql>, separator: string)
    ensures HolesIn(JoinPieces(parts, separator)) == PartsHoles(parts)
    decreases parts, 1
  {
    hide HolesIn, Spell, SqlHoles;
    if parts == [] {
      HolesOfNothing();
    } else {
      SpelledHoles(parts[0]);
      JoinedHoles(parts[1..], separator);
      if |parts| > 1 {
        SpellConcat(Pieces(parts[0]) + [Lit(separator)], JoinPieces(parts[1..], separator));
        SpellConcat(Pieces(parts[0]), [Lit(separator)]);
        OneLiteral(separator);
      }
    }
  }

  /** Read left to right, the placeholders are the next numbers in turn, one per parameter pushed. */
  lemma {:induction false} PlaceholdersAreConsecutive(resource: Resource, node: Node, params: Params, offset: nat, env: Env)
    requires WellShaped(node) && Emit(resource, node, params, offset, env).Ok?
    ensures var (sql, after) := Emit(resource, node, params, offset, env).value;
            |params| <= |after| && SqlHoles(sql) == Holes(|params| + offset, |after| - |params|)
    decreases node, 0
  {
    match node
    case Group(combinator, children) =>
      if children != [] {
        PartsAreConsecutive(resource, children, params, offset, env);
      }
    case Not(child) => PlaceholdersAreConsecutive(resource, child, params, offset, env);
    case Comparison(name, op, operand) => OneComparisonsHoles(resource.fields[name], op, operand, params, offset, env);
  }

  lemma OneComparisonsHoles(field: Field, op: Operator, operand: Operand, params: Params, offset: nat, env: Env)
    requires WellShaped(Comparison(field.name, op, operand)) && EmitComparison(field, op, operand, params, offset, env).Ok?
    ensures var (sql, after) := EmitComparison(field, op, operand, params, offset, env).value;
            |params| <= |after| && SqlHoles(sql) == Holes(|params| + offset, |after| - |params|)
  {
    hide Resolve, ResolveAll, EscapeLike, Holes, SqlHoles, PartsHoles;
    var start := |params| + offset;
    OneHole(start);
    match op
    case IsEmpty => NoHoles(field); OneOrTwoParts(IsNull(field), CardinalityZero(field));
    case IsNotEmpty => NoHoles(field); OneOrTwoParts(IsNotNull(field), CardinalityPositive(field));
    case In => OwnHoles(field, Holes(start, |operand.values|), op, start);
    case NotIn => OwnHoles(field, Holes(start, |operand.values|), op, start);
    case Contains => OwnHoles(field, [], op, start);
    case _ => NoHoles(field); OwnHoles(field, [], op, start);
  }

  lemma NoHoles(field: Field)
    ensures SqlHoles(IsNull(field)) == SqlHoles(IsNotNull(field)) == []
    ensures SqlHoles(CardinalityZero(field)) == SqlHoles(CardinalityPositive(field)) == []
    ensures forall c, a, b :: SqlHoles(Chain(c, [a, b])) == PartsHoles([a, b])
  {
  }

  lemma OwnHoles(field: Field, holes: seq<nat>, op: Operator, start: nat)
    ensures SqlHoles(True) == SqlHoles(False) == []
    ensures SqlHoles(InList(field, holes)) == SqlHoles(NotCoalesce(InList(field, holes))) == holes
    ensures SqlHoles(NotCoalesce(Overlap(field, holes))) == SqlHoles(Chain(And, [Overlap(field, holes)])) == holes
    ensures SqlHoles(ILike(field, start)) == SqlHoles(Compare(field, op, start)) == [start]
  {
    OneOrTwoParts(Overlap(field, holes), True);
  }

  lemma OneHole(start: nat)
    ensures Holes(start, 0) == [] && Holes(start, 1) == [start]
  {
  }

  lemma OneOrTwoParts(a: Sql, b: Sql)
    ensures PartsHoles([a]) == SqlHoles(a)
    ensures PartsHoles([a, b]) == SqlHoles(a) + SqlHoles(b)
  {
    assert [a][1..] == [] && [b][1..] == [] && [a, b][1..] == [b];
    assert PartsHoles([b]) == SqlHoles(b) + PartsHoles([b][1..]);
  }

  lemma {:induction false} PartsAreConsecutive(resource: Resource, nodes: seq<Node>, params: Params, offset: nat, env: Env)
    requires forall i :: 0 <= i < |nodes| ==> WellShaped(nodes[i])
    requires EmitAll(resource, nodes, params, offset, env).Ok?
    ensures var (parts, after) := EmitAll(resource, nodes, params, offset, env).value;
            |params| <= |after| && PartsHoles(parts) == Holes(|params| + offset, |after| - |params|)
    decreases nodes, 1
  {
    hide SqlHoles, EmitComparison, Emit;
    if nodes == [] {
      OneHole(|params| + offset);
    } else {
      var (first, middle) := Emit(resource, nodes[0], params, offset, env).value;
      var (rest, after) := EmitAll(resource, nodes[1..], middle, offset, env).value;
      PlaceholdersAreConsecutive(resource, nodes[0], params, offset, env);
      PartsAreConsecutive(resource, nodes[1..], middle, offset, env);
      HolesSplit(|params| + offset, |middle| - |params|, |after| - |middle|);
      assert ([first] + rest)[1..] == rest;
    }
  }

  /* ------------------------- splitting the text back ------------------------- */

  /** How many digits a text starts with. */
  function DigitRun(text: string): (n: nat)
    ensures n <= |text| && forall i :: 0 <= i < n ==> IsDigit(text[i])
  {
    if text != "" && IsDigit(text[0]) then 1 + DigitRun(text[1..]) else 0
  }

  /** `text.split(/\$(\d+)/g)`: literal, number, literal, ..., literal. */
  function Split(text: string, literal: string): seq<string>
    decreases |text|
  {
    if text == "" then [literal]
    else
      var run := DigitRun(text[1..]);
      if text[0] == '$' && run > 0 then [literal, text[1..1 + run]] + Split(text[1 + run..], "")
      else Split(text[1..], literal + [text[0]])
  }

  /** Raw SQL or a bound value. */
  datatype Chunk = Raw(text: string) | Param(value: FilterValue)

  datatype BindError = NotANumber | NotSupplied(number: nat)

  /** The chunks of alternating literals and placeholder numbers. */
  function Bind(parts: seq<string>, literal: bool, params: Params): Result<seq<Chunk>, BindError>
    decreases |parts|
  {
    if parts == [] then Ok([])
    else if literal then
      var rest :- Bind(parts[1..], false, params);
      Ok((if parts[0] != "" then [Raw(parts[0])] else []) + rest)
    else if !(forall i :: 0 <= i < |parts[0]| ==> IsDigit(parts[0][i])) then Err(NotANumber)
    else
      var number := NumberOf(parts[0]);
      if number < 1 || number > |params| then Err(NotSupplied(number))
      else
        var rest :- Bind(parts[1..], true, params);
        Ok([Param(params[number - 1])] + rest)
  }

  /** The chunks pushed so far, then the outcome for the parts still to come. */
  function After(chunks: seq<Chunk>, r: Result<seq<Chunk>, BindError>): Result<seq<Chunk>, BindError> {
    match r
    case Ok(rest) => Ok(chunks + rest)
    case Err(e) => Err(e)
  }

  lemma BindStep(parts: seq<string>, literal: bool, params: Params, chunks: seq<Chunk>)
    requires parts != []
    ensures var part := parts[0];
            var number := if forall i :: 0 <= i < |part| ==> IsDigit(part[i]) then NumberOf(part) else 0;
            After(chunks, Bind(parts, literal, params)) ==
            if literal then After(if |part| > 0 then chunks + [Raw(part)] else chunks, Bind(parts[1..], false, params))
            else if !(forall i :: 0 <= i < |part| ==> IsDigit(part[i])) then Err(NotANumber)
            else if number < 1 || number > |params| then Err(NotSupplied(number))
            else After(chunks + [Param(params[number - 1])], Bind(parts[1..], true, params))
  {
    hide IsDigit, NumberOf;
    var part, rest := parts[0], Bind(parts[1..], !literal, params);
    if rest.Ok? {
      MoreChunks(chunks, if literal then (if part != "" then [Raw(part)] else []) else [], rest.value);
      if !literal && (forall i :: 0 <= i < |part| ==> IsDigit(part[i])) && 1 <= NumberOf(part) <= |params| {
        MoreChunks(chunks, [Param(params[NumberOf(part) - 1])], rest.value);
      }
    }
  }

  lemma MoreChunks(chunks: seq<Chunk>, more: seq<Chunk>, rest: seq<Chunk>)
    ensures chunks + (more + rest) == (chunks + more) + rest
    ensures more == [] ==> chunks + more == chunks
  {
  }

  /** The loop over the split text. */
  method CompiledPredicate(fragment: string, params: Params) returns (r: Result<seq<Chunk>, BindError>)
    ensures r == Bind(Split(fragment, ""), true, params)
  {
    var parts := Split(fragment, "");
    hide Split, NumberOf, IsDigit;
    var chunks: seq<Chunk> := [];
    assert parts[0..] == parts;
    assert forall rest: seq<Chunk> :: [] + rest == rest;
    for index := 0 to |parts|
      invariant Bind(parts, true, params) == After(chunks, Bind(parts[index..], index % 2 == 0, params))
    {
      var part := parts[index];
      assert parts[index..][1..] == parts[index + 1..];
      BindStep(parts[index..], index % 2 == 0, params, chunks);
      if index % 2 == 0 {
        if |part| > 0 {
          chunks := chunks + [Raw(part)];
        }
        continue;
      }
      if !(forall i :: 0 <= i < |part| ==> IsDigit(part[i])) {
        return Err(NotANumber);
      }
      var number := NumberOf(part);
      if number < 1 || number > |params| {
        return Err(NotSupplied(number));
      }
      chunks := chunks + [Param(params[number - 1])];
    }
    assert chunks + [] == chunks;
    return Ok(chunks);
  }

  /** No literal holds a dollar, and no placeholder runs into a following digit. */
  predicate Splittable(pieces: seq<Piece>) {
    pieces == [] ||
    (Splittable(pieces[1..]) &&
     match pieces[0]
     case Lit(s) => '$' !in s
     case Hole(_) => StartsApart(Spell(pieces[1..])))
  }

  predicate StartsApart(text: string) {
    text == "" || !IsDigit(text[0])
  }

  /** Literals gathered up between placeholder numbers. */
  function Parts(pieces: seq<Piece>, literal: string): seq<string> {
    if pieces == [] then [literal]
    else match pieces[0]
      case Lit(s) => Parts(pieces[1..], literal + s)
      case Hole(n) => [literal, Decimal(n)] + Parts(pieces[1..], "")
  }

  /** The parts of a split text put together again. */
  function Rejoin(parts: seq<string>, literal: bool): string {
    if parts == [] then "" else (if literal then "" else "$") + parts[0] + Rejoin(parts[1..], !literal)
  }

  /** Literals and numbers in turn, numbers whole: not empty, all digits, and not run into by a digit. */
  ghost predicate Alternates(parts: seq<string>) {
    && parts != []
    && (|parts| > 1 ==>
          && |parts| > 2 && parts[1] != "" && (forall i :: 0 <= i < |parts[1]| ==> IsDigit(parts[1][i]))
          && StartsApart(parts[2]) && Alternates(parts[2..]))
  }

  lemma {:induction false} SplitStartsWith(text: string, literal: string)
    ensures Split(text, literal) != [] && literal <= Split(text, literal)[0]
    ensures literal == "" && StartsApart(text) ==> StartsApart(Split(text, literal)[0])
    decreases |text|
  {
    if text != "" && !(text[0] == '$' && DigitRun(text[1..]) > 0) {
      SplitStartsWith(text[1..], literal + [text[0]]);
      if literal == "" {
        assert ("" + [text[0]])[0] == text[0] == Split(text, literal)[0][0];
      }
    }
  }

  lemma {:induction false} RunStopsAtNoDigit(text: string)
    ensures StartsApart(text[DigitRun(text)..])
  {
    if text != "" && IsDigit(text[0]) {
      RunStopsAtNoDigit(text[1..]);
      assert text[DigitRun(text)..] == text[1..][DigitRun(text[1..])..];
    }
  }

  /** A number is cut off whole. */
  lemma CutsAtNumber(text: string, literal: string)
    requires text != "" && text[0] == '$' && DigitRun(text[1..]) > 0
    ensures var number, rest := text[1..][..DigitRun(text[1..])], text[1..][DigitRun(text[1..])..];
            && Split(text, literal) == [literal, number] + Split(rest, "")
            && text == "$" + number + rest && StartsApart(rest)
            && number != "" && forall i :: 0 <= i < |number| ==> IsDigit(number[i])
  {
    hide IsDigit, StartsApart;
    RunStopsAtNoDigit(text[1..]);
    CutAt(text, DigitRun(text[1..]));
  }

  lemma CutAt(text: string, run: nat)
    requires 0 < run < |text| && text[0] == '$'
    ensures text[1..][..run] == text[1..1 + run] && text[1..][run..] == text[1 + run..]
    ensures text == "$" + text[1..][..run] + text[1..][run..]
  {
  }

  /** Splitting loses nothing of any text, dollars that number nothing included, and takes every number whole. */
  lemma {:induction false} SplitIsLossless(text: string, literal: string)
    ensures Rejoin(Split(text, literal), true) == literal + text
    ensures Alternates(Split(text, literal))
    decreases |text|
  {
    hide IsDigit, StartsApart, Rejoin, Alternates;
    if text == "" {
      OneLiteralRejoins(literal);
    } else if text[0] == '$' && DigitRun(text[1..]) > 0 {
      var number, rest := text[1..][..DigitRun(text[1..])], text[1..][DigitRun(text[1..])..];
      CutsAtNumber(text, literal);
      SplitIsLossless(rest, "");
      SplitStartsWith(rest, "");
      assert "" + rest == rest;
      hide Split;
      NumberBetween(literal, number, Split(rest, ""), rest);
    } else {
      SplitIsLossless(text[1..], literal + [text[0]]);
      assert literal + [text[0]] + text[1..] == literal + text;
    }
  }

  lemma OneLiteralRejoins(literal: string)
    ensures Rejoin([literal], true) == literal + "" && Alternates([literal])
  {
    assert [literal][1..] == [];
  }

  lemma NumberBetween(literal: string, number: string, after: seq<string>, rest: string)
    requires after != [] && Rejoin(after, true) == rest && Alternates(after) && StartsApart(after[0])
    requires number != "" && forall i :: 0 <= i < |number| ==> IsDigit(number[i])
    ensures Rejoin([literal, number] + after, true) == literal + ("$" + number + rest)
    ensures Alternates([literal, number] + after)
  {
    hide IsDigit, StartsApart;
    var parts := [literal, number] + after;
    assert parts[1..] == [number] + after && parts[1..][1..] == after && parts[2..] == after;
    assert "" + literal + ("$" + number + rest) == literal + ("$" + number + rest);
  }

  lemma {:induction false} SkipLiteral(s: string, rest: string, literal: string)
    requires '$' !in s
    ensures Split(s + rest, literal) == Split(rest, literal + s)
    decreases |s|
  {
    if s == "" {
      assert s + rest == rest && literal + s == literal;
    } else {
      assert (s + rest)[1..] == s[1..] + rest;
      SkipLiteral(s[1..], rest, literal + [s[0]]);
      assert literal + [s[0]] + s[1..] == literal + s;
    }
  }

  lemma {:induction false} RunOfDigits(digits: string, rest: string)
    requires (forall i :: 0 <= i < |digits| ==> IsDigit(digits[i])) && StartsApart(rest)
    ensures DigitRun(digits + rest) == |digits|
  {
    if digits == "" {
      assert digits + rest == rest;
    } else {
      assert (digits + rest)[1..] == digits[1..] + rest;
      RunOfDigits(digits[1..], rest);
    }
  }

  /** Splitting a spelled text recovers the pieces it was spelled from. */
  lemma {:induction false} SplitRecoversPieces(pieces: seq<Piece>, literal: string)
    requires Splittable(pieces)
    ensures Split(Spell(pieces), literal) == Parts(pieces, literal)
  {
    if pieces != [] {
      var rest := Spell(pieces[1..]);
      match pieces[0]
      case Lit(s) =>
        SkipLiteral(s, rest, literal);
        SplitRecoversPieces(pieces[1..], literal + s);
      case Hole(n) =>
        SplitAtPlaceholder(n, rest, literal);
        SplitRecoversPieces(pieces[1..], "");
    }
  }

  lemma SplitAtPlaceholder(n: nat, rest: string, literal: string)
    requires StartsApart(rest)
    ensures Split(Placeholder(n) + rest, literal) == [literal, Decimal(n)] + Split(rest, "")
  {
    var digits, text := Decimal(n), Placeholder(n) + rest;
    assert text[1..] == digits + rest;
    RunOfDigits(digits, rest);
    assert text[1..1 + |digits|] == digits && text[1 + |digits|..] == rest;
  }

  lemma {:induction false} SplittableConcat(a: seq<Piece>, b: seq<Piece>)
    requires Splittable(a) && Splittable(b) && StartsApart(Spell(b))
    ensures Splittable(a + b)
  {
    hide Spell, Placeholder;
    if a == [] {
      assert a + b == b;
    } else {
      assert (a + b)[1..] == a[1..] + b;
      SplittableConcat(a[1..], b);
      SpellConcat(a[1..], b);
    }
  }

  lemma SplittableAround(left: string, middle: seq<Piece>, right: string)
    requires '$' !in left && '$' !in right && StartsApart(right) && Splittable(middle)
    ensures Splittable([Lit(left)] + middle + [Lit(right)])
  {
    assert [Lit(right)][1..] == [] && Spell([Lit(right)]) == right + "";
    SplittableConcat(middle, [Lit(right)]);
    assert [Lit(left)] + middle + [Lit(right)] == [Lit(left)] + (middle + [Lit(right)]);
    assert ([Lit(left)] + (middle + [Lit(right)]))[1..] == middle + [Lit(right)];
  }

  lemma {:induction false} HoleListSplittable(holes: seq<nat>)
    ensures Splittable(HoleList(holes))
  {
    NothingIsSplittable();
    if |holes| == 1 {
      assert HoleList(holes)[1..] == [];
    } else if |holes| > 1 {
      HoleListSplittable(holes[1..]);
      var ps := HoleList(holes);
      assert ps[1..] == [Lit(", ")] + HoleList(holes[1..]);
      assert ps[1..][1..] == HoleList(holes[1..]);
    }
  }

  predicate DollarFree(sql: Sql) {
    match sql
    case True => true
    case False => true
    case NotCoalesce(e) => DollarFree(e)
    case Chain(_, parts) => forall i :: 0 <= i < |parts| ==> DollarFree(parts[i])
    case _ => '$' !in ColumnText(sql.column)
  }

  lemma ListSplittable(sql: Sql)
    requires (sql.InList? || sql.Overlap?) && '$' !in ColumnText(sql.column)
    ensures Splittable(Pieces(sql))
  {
    hide Splittable, ColumnText;
    HoleListSplittable(sql.holes);
    if sql.InList? {
      SplittableAround(ColumnText(sql.column) + " IN (", HoleList(sql.holes), ")");
    } else {
      SplittableAround(ColumnText(sql.column) + " && ARRAY[", HoleList(sql.holes), "]::uuid[]");
    }
  }

  lemma CleanTokens(op: Operator, ty: FieldType)
    ensures '$' !in Token(op) && '$' !in Cast(ty) && StartsApart(Cast(ty))
  {
  }

  lemma SingleHoleSplittable(sql: Sql)
    requires (sql.ILike? || sql.Compare?) && '$' !in ColumnText(sql.column)
    ensures Splittable(Pieces(sql))
  {
    hide Splittable, ColumnText, Token, Cast;
    if sql.ILike? {
      OneHoleSplittable(ColumnText(sql.column) + " ILIKE ", sql.hole, " ESCAPE '\\'");
    } else {
      CleanTokens(sql.token, sql.column.ty);
      OneHoleSplittable(ColumnText(sql.column) + " " + Token(sql.token) + " ", sql.hole, Cast(sql.column.ty));
    }
  }

  /** Every emitted text splits cleanly, provided no column expression holds a dollar. */
  lemma {:induction false} RenderedIsSplittable(sql: Sql)
    requires DollarFree(sql)
    ensures Splittable(Pieces(sql))
    decreases sql, 0
  {
    hide Splittable, Spell;
    if sql.NotCoalesce? {
      RenderedIsSplittable(sql.operand);
      SplittableAround("(NOT COALESCE(", Pieces(sql.operand), ", FALSE))");
    } else if sql.Chain? {
      JoinedIsSplittable(sql.parts, Separator(sql.combinator));
      SplittableAround("(", JoinPieces(sql.parts, Separator(sql.combinator)), ")");
    } else {
      LeafSplittable(sql);
    }
  }

  lemma LiteralLeafSplittable(sql: Sql)
    requires sql.True? || sql.False? || sql.IsNull? || sql.IsNotNull? || sql.CardinalityZero? || sql.CardinalityPositive?
    requires DollarFree(sql)
    ensures Splittable(Pieces(sql))
  {
    hide Splittable, ColumnText;
    var text := Pieces(sql)[0].text;
    assert '$' !in text;
    OneLiteralSplittable(text);
  }

  lemma LeafSplittable(sql: Sql)
    requires !sql.NotCoalesce? && !sql.Chain? && DollarFree(sql)
    ensures Splittable(Pieces(sql))
  {
    hide Splittable, ColumnText;
    if sql.InList? || sql.Overlap? {
      ListSplittable(sql);
    } else if sql.ILike? || sql.Compare? {
      SingleHoleSplittable(sql);
    } else {
      LiteralLeafSplittable(sql);
    }
  }

  lemma NothingIsSplittable()
    ensures Splittable([]) && StartsApart(Spell([]))
  {
  }

  lemma OneLiteralSplittable(s: string)
    requires '$' !in s
    ensures Splittable([Lit(s)])
  {
  }

  lemma OneHoleSplittable(left: string, hole: nat, right: string)
    requires '$' !in left && '$' !in right && StartsApart(right)
    ensures Splittable([Lit(left), Hole(hole), Lit(right)])
  {
    NothingIsSplittable();
    assert [Hole(hole)][1..] == [] && Splittable([Hole(hole)]);
    hide Splittable;
    SplittableAround(left, [Hole(hole)], right);
    assert [Lit(left), Hole(hole), Lit(right)] == [Lit(left)] + [Hole(hole)] + [Lit(right)];
  }

  lemma SeparatorInFront(separator: string, pieces: seq<Piece>)
    requires '$' !in separator && separator != "" && StartsApart(separator) && Splittable(pieces)
    ensures Splittable([Lit(separator)] + pieces) && StartsApart(Spell([Lit(separator)] + pieces))
  {
  }

  lemma {:induction false} JoinedIsSplittable(parts: seq<Sql>, separator: string)
    requires '$' !in separator && separator != "" && StartsApart(separator)
    requires forall i :: 0 <= i < |parts| ==> DollarFree(parts[i])
    ensures Splittable(JoinPieces(parts, separator))
    decreases parts, 1
  {
    NothingIsSplittable();
    hide Splittable, DollarFree, Spell, StartsApart;
    if |parts| > 0 {
      RenderedIsSplittable(parts[0]);
      if |parts| > 1 {
        JoinedIsSplittable(parts[1..], separator);
        var rest := [Lit(separator)] + JoinPieces(parts[1..], separator);
        SeparatorInFront(separator, JoinPieces(parts[1..], separator));
        SplittableConcat(Pieces(parts[0]), rest);
        assert JoinPieces(parts, separator) == Pieces(parts[0]) + rest;
      }
    }
  }

  /* ------------------------- the round trip ------------------------- */

  function ParamsOf(chunks: seq<Chunk>): Params {
    if chunks == [] then []
    else (if chunks[0].Param? then [chunks[0].value] else []) + ParamsOf(chunks[1..])
  }

  /** The text again, numbering the bound values from `next`. */
  function Respell(chunks: seq<Chunk>, next: nat): string {
    if chunks == [] then ""
    else match chunks[0]
      case Raw(s) => s + Respell(chunks[1..], next)
      case Param(_) => Placeholder(next) + Respell(chunks[1..], next + 1)
  }

  /** What binding some parts must come to: the values from `next` on, in order, around `text`. */
  ghost predicate BindsTo(parts: seq<string>, literal: bool, next: nat, params: Params, text: string) {
    var r := Bind(parts, literal, params);
    1 <= next <= |params| + 1 && r.Ok? && ParamsOf(r.value) == params[next - 1..] && Respell(r.value, next) == text
  }

  lemma BindNothing(params: Params)
    ensures BindsTo([], false, |params| + 1, params, "")
  {
  }

  lemma BindLiteral(literal: string, rest: seq<string>, next: nat, params: Params, text: string)
    requires BindsTo(rest, false, next, params, text)
    ensures BindsTo([literal] + rest, true, next, params, literal + text)
  {
    assert ([literal] + rest)[1..] == rest;
    var chunks := Bind(rest, false, params).value;
    if literal != "" {
      assert ([Raw(literal)] + chunks)[1..] == chunks;
    } else {
      assert [] + chunks == chunks && literal + text == text;
    }
  }

  /** Binding one placeholder puts its own value in front of what follows. */
  lemma BindNumber(rest: seq<string>, next: nat, params: Params, text: string)
    requires 1 <= next <= |params| && BindsTo(rest, true, next + 1, params, text)
    ensures BindsTo([Decimal(next)] + rest, false, next, params, Placeholder(next) + text)
  {
    DecimalRoundTrip(next);
    assert ([Decimal(next)] + rest)[1..] == rest;
    var chunks := Bind(rest, true, params).value;
    var whole := [Param(params[next - 1])] + chunks;
    assert Bind([Decimal(next)] + rest, false, params) == Ok(whole);
    assert whole[1..] == chunks;
  }

  lemma {:induction false} BindInOrder(pieces: seq<Piece>, literal: string, next: nat, params: Params)
    requires 1 <= next <= |params| + 1 && HolesIn(pieces) == Holes(next, |params| + 1 - next)
    ensures BindsTo(Parts(pieces, literal), true, next, params, literal + Spell(pieces))
    decreases |pieces|
  {
    hide BindsTo, Placeholder, Decimal, Holes;
    if pieces == [] {
      assert next == |params| + 1;
      BindNothing(params);
      BindLiteral(literal, [], next, params, "");
      assert [literal] + [] == [literal];
    } else {
      var rest := pieces[1..];
      match pieces[0]
      case Lit(s) =>
        BindInOrder(rest, literal + s, next, params);
        assert literal + s + Spell(rest) == literal + Spell(pieces);
      case Hole(n) =>
        NextHole(pieces, next, params);
        BindInOrder(rest, "", next + 1, params);
        assert "" + Spell(rest) == Spell(rest);
        BindNumber(Parts(rest, ""), next, params, Spell(rest));
        BindLiteral(literal, [Decimal(n)] + Parts(rest, ""), next, params, Placeholder(n) + Spell(rest));
        assert [literal, Decimal(n)] + Parts(rest, "") == [literal] + ([Decimal(n)] + Parts(rest, ""));
    }
  }

  lemma NextHole(pieces: seq<Piece>, next: nat, params: Params)
    requires pieces != [] && pieces[0].Hole?
    requires 1 <= next <= |params| + 1 && HolesIn(pieces) == Holes(next, |params| + 1 - next)
    ensures pieces[0].number == next <= |params| && HolesIn(pieces[1..]) == Holes(next + 1, |params| - next)
  {
    var holes, tail := HolesIn(pieces), HolesIn(pieces[1..]);
    assert holes == [pieces[0].number] + tail;
    var expected := Holes(next + 1, |params| - next);
    assert |tail| == |expected| && holes[0] == next;
    assert forall i :: 0 <= i < |tail| ==> tail[i] == holes[i + 1] == expected[i];
  }

  ghost predicate ColumnsWithoutDollar(resource: Resource) {
    forall n :: n in resource.fields ==> '$' !in ColumnText(resource.fields[n])
  }

  lemma {:induction false} EmittedIsDollarFree(resource: Resource, node: Node, params: Params, offset: nat, env: Env)
    requires WellShaped(node) && ColumnsWithoutDollar(resource) && Emit(resource, node, params, offset, env).Ok?
    ensures DollarFree(Emit(resource, node, params, offset, env).value.0)
    decreases node, 0
  {
    match node
    case Group(_, children) =>
      if children != [] {
        AllEmittedDollarFree(resource, children, params, offset, env);
      }
    case Not(child) => EmittedIsDollarFree(resource, child, params, offset, env);
    case Comparison(_, _, _) =>
  }

  lemma {:induction false} AllEmittedDollarFree(resource: Resource, nodes: seq<Node>, params: Params, offset: nat, env: Env)
    requires forall i :: 0 <= i < |nodes| ==> WellShaped(nodes[i])
    requires ColumnsWithoutDollar(resource) && EmitAll(resource, nodes, params, offset, env).Ok?
    ensures var parts := EmitAll(resource, nodes, params, offset, env).value.0;
            forall i :: 0 <= i < |parts| ==> DollarFree(parts[i])
    decreases nodes, 1
  {
    if nodes != [] {
      EmittedIsDollarFree(resource, nodes[0], params, offset, env);
      AllEmittedDollarFree(resource, nodes[1..], Emit(resource, nodes[0], params, offset, env).value.1, offset, env);
    }
  }

  /**
   * Handing a compiled filter (numbered from one) to the query builder never fails, binds every
   * parameter once and in order, and binds each where its placeholder was emitted.
   */
  lemma PredicateRoundTrip(resource: Resource, node: Node, env: Env)
    requires WellShaped(node) && ColumnsWithoutDollar(resource) && Compile(resource, node, 1, env).Ok?
    ensures var (sql, params) := Compile(resource, node, 1, env).value;
            var r := Bind(Split(Render(sql), ""), true, params);
            r.Ok? && ParamsOf(r.value) == params && Respell(r.value, 1) == Render(sql)
  {
    hide Spell, Split, Splittable, Parts, HolesIn, Pieces, Emit;
    var (sql, params) := Compile(resource, node, 1, env).value;
    EmittedIsDollarFree(resource, node, [], 1, env);
    RenderedIsSplittable(sql);
    SplitRecoversPieces(Pieces(sql), "");
    PlaceholdersAreConsecutive(resource, node, [], 1, env);
    SpelledHoles(sql);
    BindInOrder(Pieces(sql), "", 1, params);
    assert "" + Spell(Pieces(sql)) == Render(sql) && params[0..] == params;
  }
}
