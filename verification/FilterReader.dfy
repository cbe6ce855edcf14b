/**
 * What the emitted text says: a reader of the SQL the compiler writes, knowing only the words and signs
 * of SQL and the columns' texts, reads back the expression that was compiled, so its text selects
 * exactly the rows the filter matches. It is why groups are always parenthesised.
 */
module FilterReader {
  import opened Wrappers
  import opened FilterAst
  import opened FilterFields
  import opened FilterCompile
  import opened FilterText
  import opened FilterEmitter
  import opened FilterEvaluate
  import opened FilterParity

  /* ------------------------------- telling columns apart ------------------------------- */

  /** One of the two begins the other. */
  predicate Overlaps(s: string, t: string) {
    s <= t || t <= s
  }

  /** How a predicate on a column begins, and how a count of it does. */
  function Head(field: Field): string {
    ColumnText(field) + " "
  }

  function CountHead(field: Field): string {
    "cardinality(" + ColumnText(field) + ") "
  }

  /** No predicate of the field set begins like this. */
  predicate BeginsNothing(resource: Resource, s: string) {
    && !Overlaps(s, "TRUE") && !Overlaps(s, "FALSE")
    && forall n :: n in resource.fields ==>
         !Overlaps(s, Head(resource.fields[n])) && !Overlaps(s, CountHead(resource.fields[n]))
  }

  /** A column is not mistaken for a keyword, nor, when its text opens a bracket, for a group. */
  predicate StandsAlone(resource: Resource, field: Field) {
    var head := Head(field);
    && !Overlaps(head, "TRUE") && !Overlaps(head, "FALSE")
    && !Overlaps(head, "NOT COALESCE(") && !Overlaps(head, "(NOT COALESCE(")
    && (head[0] == '(' ==> head[1..] != "" && head[1] != '(' && BeginsNothing(resource, head[1..]))
  }

  predicate StandApart(f: Field, g: Field) {
    !Overlaps(Head(f), Head(g)) && !Overlaps(CountHead(f), CountHead(g))
  }

  /** What a field set's column texts must be for its filters to be readable; a check over pairs of fields. */
  predicate IsReadable(resource: Resource) {
    && (forall n :: n in resource.fields ==> StandsAlone(resource, resource.fields[n]))
    && (forall m, n :: m in resource.fields && n in resource.fields ==>
          && !Overlaps(Head(resource.fields[m]), CountHead(resource.fields[n]))
          && (m != n ==> StandApart(resource.fields[m], resource.fields[n])))
  }

  /** Two strings that begin one text overlap. */
  lemma BothBegin(s: string, t: string, text: string)
    requires s <= text && t <= text
    ensures Overlaps(s, t)
  {
  }

  /** Two strings that differ somewhere do not. */
  lemma Apart(s: string, t: string, k: nat)
    requires k < |s| && k < |t| && s[k] != t[k]
    ensures !Overlaps(s, t)
  {
  }

  /* ------------------------------- single predicates ------------------------------- */

  predicate IsField(resource: Resource, field: Field) {
    field.name in resource.fields && resource.fields[field.name] == field
  }

  predicate IsSingle(sql: Sql) {
    !sql.NotCoalesce? && !sql.Chain?
  }

  /** What the compiler emits over a field set: known columns, ordering tokens, no empty list or group. */
  predicate IsOver(resource: Resource, sql: Sql) {
    match sql
    case True => true
    case False => true
    case InList(f, holes) => IsField(resource, f) && holes != []
    case Overlap(f, holes) => IsField(resource, f) && holes != []
    case Compare(f, token, _) => IsField(resource, f) && token in {Eq, Neq, Lt, Lte, Gt, Gte}
    case NotCoalesce(e) => IsOver(resource, e)
    case Chain(_, parts) => parts != [] && forall i :: 0 <= i < |parts| ==> IsOver(resource, parts[i])
    case _ => IsField(resource, sql.column)
  }

  /** What a predicate's text begins with: which keyword, or which column and whether it is counted. */
  datatype Start = Constant(truth: bool) | Counted(column: Field) | Tested(column: Field)

  function StartOf(sql: Sql): Start
    requires IsSingle(sql)
  {
    if sql.True? then Constant(true)
    else if sql.False? then Constant(false)
    else if sql.CardinalityZero? || sql.CardinalityPositive? then Counted(sql.column)
    else Tested(sql.column)
  }

  function StartText(start: Start): string {
    match start
    case Constant(truth) => if truth then "TRUE" else "FALSE"
    case Counted(f) => CountHead(f)
    case Tested(f) => Head(f)
  }

  function ListText(holes: seq<nat>): string {
    Join(PlaceholderTexts(holes), ", ")
  }

  /** What follows the beginning. */
  function Ending(sql: Sql): string
    requires IsSingle(sql)
  {
    match sql
    case True => ""
    case False => ""
    case IsNull(_) => "IS NULL"
    case IsNotNull(_) => "IS NOT NULL"
    case CardinalityZero(_) => "= 0"
    case CardinalityPositive(_) => "> 0"
    case InList(_, holes) => "IN (" + (ListText(holes) + ")")
    case Overlap(_, holes) => "&& ARRAY[" + (ListText(holes) + "]::uuid[]")
    case ILike(_, hole) => "ILIKE " + (Placeholder(hole) + " ESCAPE '\\'")
    case Compare(f, op, hole) => Token(op) + " " + (Placeholder(hole) + Cast(f.ty))
  }

  lemma SingleText(sql: Sql)
    requires IsSingle(sql)
    ensures Render(sql) == StartText(StartOf(sql)) + Ending(sql)
  {
    hide Render, Placeholder, Token, Cast, ListText, Head, CountHead;
    if sql.InList? || sql.Overlap? {
      ListSplits(sql.column, sql.holes);
    } else if sql.ILike? {
      MatchSplits(sql.column, sql.hole);
    } else if sql.Compare? {
      CompareSplits(sql.column, sql.token, sql.hole);
    } else if sql.True? || sql.False? {
      RenderedKeywords();
      assert StartText(StartOf(sql)) + "" == StartText(StartOf(sql));
    } else {
      NullTestSplits(sql.column);
    }
  }

  lemma RenderedKeywords()
    ensures Render(True) == "TRUE" && Render(False) == "FALSE"
  {
    OneLiteral("TRUE");
    OneLiteral("FALSE");
  }

  lemma NullTestSplits(f: Field)
    ensures Render(IsNull(f)) == Head(f) + "IS NULL" && Render(IsNotNull(f)) == Head(f) + "IS NOT NULL"
    ensures Render(CardinalityZero(f)) == CountHead(f) + "= 0" && Render(CardinalityPositive(f)) == CountHead(f) + "> 0"
  {
    hide Render, ColumnText;
    RenderedNullTests(f);
    var c := ColumnText(f);
    assert c + " IS NULL" == (c + " ") + "IS NULL" && c + " IS NOT NULL" == (c + " ") + "IS NOT NULL";
    assert ("cardinality(" + c) + ") = 0" == (("cardinality(" + c) + ") ") + "= 0";
    assert ("cardinality(" + c) + ") > 0" == (("cardinality(" + c) + ") ") + "> 0";
  }

  lemma ListSplits(f: Field, holes: seq<nat>)
    ensures Render(InList(f, holes)) == Head(f) + ("IN (" + (ListText(holes) + ")"))
    ensures Render(Overlap(f, holes)) == Head(f) + ("&& ARRAY[" + (ListText(holes) + "]::uuid[]"))
  {
    hide Render, ColumnText, Join, PlaceholderTexts;
    RenderedList(f, holes);
    Regroup(ColumnText(f), " ", "IN (", ListText(holes), ")");
    Regroup(ColumnText(f), " ", "&& ARRAY[", ListText(holes), "]::uuid[]");
    assert " " + "IN (" == " IN (" && " " + "&& ARRAY[" == " && ARRAY[";
  }

  lemma MatchSplits(f: Field, hole: nat)
    ensures Render(ILike(f, hole)) == Head(f) + ("ILIKE " + (Placeholder(hole) + " ESCAPE '\\'"))
  {
    hide Render, ColumnText, Placeholder;
    RenderedHole(f, Eq, hole);
    Regroup(ColumnText(f), " ", "ILIKE ", Placeholder(hole), " ESCAPE '\\'");
    assert " " + "ILIKE " == " ILIKE ";
  }

  lemma CompareSplits(f: Field, op: Operator, hole: nat)
    ensures Render(Compare(f, op, hole)) == Head(f) + ((Token(op) + " ") + (Placeholder(hole) + Cast(f.ty)))
  {
    hide Render, ColumnText, Placeholder, Token, Cast;
    RenderedHole(f, op, hole);
    Regroup(ColumnText(f), " ", Token(op) + " ", Placeholder(hole), Cast(f.ty));
    assert ColumnText(f) + (" " + (Token(op) + " ")) == ColumnText(f) + " " + Token(op) + " ";
  }

  lemma Regroup(a: string, b: string, c: string, d: string, e: string)
    ensures a + (b + c) + d + e == (a + b) + (c + (d + e))
  {
    assert a + (b + c) == (a + b) + c;
    assert ((a + b) + c) + d + e == ((a + b) + c) + (d + e);
    assert ((a + b) + c) + (d + e) == (a + b) + (c + (d + e));
  }

  predicate IsKnown(resource: Resource, s: Start) {
    s.Tested? || s.Counted? ==> IsField(resource, s.column)
  }

  /** Texts that begin alike begin with the same keyword or column. */
  lemma StartsDecide(resource: Resource, s: Start, t: Start, text: string)
    requires IsReadable(resource) && IsKnown(resource, s) && IsKnown(resource, t)
    requires StartText(s) <= text && StartText(t) <= text
    ensures s == t
  {
    KeywordsStandApart(resource, s);
    KeywordsStandApart(resource, t);
    BothBegin(StartText(s), StartText(t), text);
    hide IsReadable, Head, CountHead, Overlaps;
    if (s.Tested? || s.Counted?) && (t.Tested? || t.Counted?) {
      ColumnsStandApart(resource, s.column, t.column);
    }
  }

  lemma KeywordsStandApart(resource: Resource, s: Start)
    requires IsReadable(resource) && IsKnown(resource, s)
    ensures s.Tested? || s.Counted? ==> !Overlaps(StartText(s), "TRUE") && !Overlaps(StartText(s), "FALSE")
    ensures !Overlaps("TRUE", "FALSE")
  {
    assert "TRUE"[0] != "FALSE"[0];
    if s.Counted? {
      assert CountHead(s.column)[0] == 'c' && "TRUE"[0] == 'T' && "FALSE"[0] == 'F';
    }
    if s.Tested? {
      assert StandsAlone(resource, s.column);
    }
  }

  lemma ColumnsStandApart(resource: Resource, f: Field, g: Field)
    requires IsReadable(resource) && IsField(resource, f) && IsField(resource, g)
    ensures !Overlaps(Head(f), CountHead(g)) && !Overlaps(CountHead(f), Head(g))
    ensures f != g ==> !Overlaps(Head(f), Head(g)) && !Overlaps(CountHead(f), CountHead(g))
  {
    hide Head, CountHead;
  }

  /* ------------------------------- the reader ------------------------------- */

  /** The text past what it begins with. */
  function Past(prefix: string, text: string): (rest: Option<string>)
    ensures rest.Some? ==> |rest.value| == |text| - |prefix| && text == prefix + rest.value
  {
    if prefix <= text then Some(text[|prefix|..]) else None
  }

  /** `$` and a run of digits. */
  function ReadNumber(text: string): (r: Option<(nat, string)>)
    ensures r.Some? ==> |r.value.1| < |text|
  {
    if text == "" || text[0] != '$' || DigitRun(text[1..]) == 0 then None
    else
      var run := DigitRun(text[1..]);
      Some((NumberOf(text[1..][..run]), text[1..][run..]))
  }

  /** One placeholder or more, with commas between. */
  function ReadNumbers(text: string): (r: Option<(seq<nat>, string)>)
    ensures r.Some? ==> |r.value.1| < |text|
    decreases |text|
  {
    match ReadNumber(text)
    case None => None
    case Some((n, rest)) =>
      match Past(", ", rest)
      case None => Some(([n], rest))
      case Some(more) =>
        match ReadNumbers(more)
        case None => None
        case Some((others, after)) => Some(([n] + others, after))
  }

  /** A comparison sign, with the blank after it. */
  function ReadSign(text: string): (r: Option<(Operator, string)>)
    ensures r.Some? ==> |r.value.1| < |text|
  {
    if "= " <= text then Some((Eq, text[2..]))
    else if "<> " <= text then Some((Neq, text[3..]))
    else if "< " <= text then Some((Lt, text[2..]))
    else if "<= " <= text then Some((Lte, text[3..]))
    else if "> " <= text then Some((Gt, text[2..]))
    else if ">= " <= text then Some((Gte, text[3..]))
    else None
  }

  /** What a bound value of the column's type is cast to. */
  function CastName(ty: FieldType): string {
    if ty == Uuid then "::uuid" else if ty == Date then "::timestamptz" else ""
  }

  /** What is asked of a column. */
  function ReadTest(f: Field, text: string): (r: Option<(Sql, string)>)
    ensures r.Some? ==> |r.value.1| < |text|
  {
    if "IS NULL" <= text then Some((IsNull(f), text[7..]))
    else if "IS NOT NULL" <= text then Some((IsNotNull(f), text[11..]))
    else if "IN (" <= text then ReadListed(ReadNumbers(text[4..]), ")", (holes: seq<nat>) => InList(f, holes))
    else if "&& ARRAY[" <= text then ReadListed(ReadNumbers(text[9..]), "]::uuid[]", (holes: seq<nat>) => Overlap(f, holes))
    else if "ILIKE " <= text then ReadBound(ReadNumber(text[6..]), " ESCAPE '\\'", (hole: nat) => ILike(f, hole))
    else match ReadSign(text)
      case None => None
      case Some((op, rest)) => ReadBound(ReadNumber(rest), CastName(f.ty), (hole: nat) => Compare(f, op, hole))
  }

  function ReadListed(r: Option<(seq<nat>, string)>, close: string, make: seq<nat> -> Sql): (sql: Option<(Sql, string)>)
    ensures sql.Some? ==> r.Some? && |sql.value.1| <= |r.value.1|
  {
    match r
    case None => None
    case Some((holes, rest)) =>
      match Past(close, rest)
      case None => None
      case Some(after) => Some((make(holes), after))
  }

  function ReadBound(r: Option<(nat, string)>, close: string, make: nat -> Sql): (sql: Option<(Sql, string)>)
    ensures sql.Some? ==> r.Some? && |sql.value.1| <= |r.value.1|
  {
    match r
    case None => None
    case Some((hole, rest)) =>
      match Past(close, rest)
      case None => None
      case Some(after) => Some((make(hole), after))
  }

  /** What is asked of a column's number of elements. */
  function ReadCount(f: Field, text: string): (r: Option<(Sql, string)>)
    ensures r.Some? ==> |r.value.1| < |text|
  {
    if "= 0" <= text then Some((CardinalityZero(f), text[3..]))
    else if "> 0" <= text then Some((CardinalityPositive(f), text[3..]))
    else None
  }

  /** The text begins with a keyword or one of the columns. */
  ghost predicate BeginsSingle(resource: Resource, text: string) {
    exists s :: IsKnown(resource, s) && StartText(s) <= text
  }

  ghost function ReadSingle(resource: Resource, text: string): (r: Option<(Sql, string)>)
    requires BeginsSingle(resource, text)
    ensures r.Some? ==> |r.value.1| < |text|
  {
    var s :| IsKnown(resource, s) && StartText(s) <= text;
    ReadFrom(s, text[|StartText(s)|..])
  }

  function ReadFrom(s: Start, rest: string): (r: Option<(Sql, string)>)
    ensures r.Some? ==> |r.value.1| <= |rest|
  {
    match s
    case Constant(truth) => Some((if truth then True else False, rest))
    case Counted(f) => ReadCount(f, rest)
    case Tested(f) => ReadTest(f, rest)
  }

  /** One expression, and the text after it. */
  ghost function Read(resource: Resource, text: string): (r: Option<(Sql, string)>)
    ensures r.Some? ==> |r.value.1| < |text|
    decreases |text|, 0
  {
    if BeginsSingle(resource, text) then ReadSingle(resource, text)
    else if "(NOT COALESCE(" <= text then
      match Read(resource, text[14..])
      case None => None
      case Some((operand, rest)) =>
        if ", FALSE))" <= rest then Some((NotCoalesce(operand), rest[9..])) else None
    else if "(" <= text then
      match ReadGroup(resource, text[1..])
      case None => None
      case Some((parts, combinator, rest)) => Some((Chain(combinator, parts), rest))
    else None
  }

  /** A group's parts up to its closing bracket, joined by one and the same word; a single part is joined by none. */
  ghost function ReadGroup(resource: Resource, text: string): (r: Option<(seq<Sql>, Combinator, string)>)
    ensures r.Some? ==> |r.value.2| < |text| && r.value.0 != []
    decreases |text|, 1
  {
    match Read(resource, text)
    case None => None
    case Some((first, rest)) =>
      if ")" <= rest then Some(([first], And, rest[1..]))
      else if " AND " <= rest then InFront(first, And, ReadGroup(resource, rest[5..]))
      else if " OR " <= rest then InFront(first, Or, ReadGroup(resource, rest[4..]))
      else None
  }

  ghost function InFront(first: Sql, word: Combinator, others: Option<(seq<Sql>, Combinator, string)>)
    : (r: Option<(seq<Sql>, Combinator, string)>)
    ensures r.Some? ==> others.Some? && r.value.2 == others.value.2 && r.value.0 == [first] + others.value.0
  {
    match others
    case None => None
    case Some((parts, combinator, rest)) =>
      if |parts| > 1 && combinator != word then None else Some(([first] + parts, word, rest))
  }

  /* ------------------------------- single predicates read back ------------------------------- */

  lemma PastPrefix(prefix: string, rest: string)
    ensures Past(prefix, prefix + rest) == Some(rest)
  {
    assert (prefix + rest)[|prefix|..] == rest;
  }

  /** A placeholder not run into by a digit is read back. */
  lemma NumberReads(n: nat, rest: string)
    requires StartsApart(rest)
    ensures ReadNumber(Placeholder(n) + rest) == Some((n, rest))
  {
    var digits, text := Decimal(n), Placeholder(n) + rest;
    assert text[1..] == digits + rest;
    RunOfDigits(digits, rest);
    assert text[1..][..|digits|] == digits && text[1..][|digits|..] == rest;
    DecimalRoundTrip(n);
  }

  predicate Closes(text: string) {
    text != "" && (text[0] == ')' || text[0] == ']')
  }

  /** A list of placeholders is read back up to its closing bracket. */
  lemma {:induction false} NumbersRead(holes: seq<nat>, rest: string)
    requires holes != [] && Closes(rest)
    ensures ReadNumbers(ListText(holes) + rest) == Some((holes, rest))
    decreases |holes|
  {
    hide Placeholder, ListText, ReadNumbers;
    if |holes| == 1 {
      OneHoleText(holes);
      NumberReads(holes[0], rest);
      assert holes == [holes[0]];
      LastNumber(holes[0], Placeholder(holes[0]) + rest, rest);
    } else {
      var more := ListText(holes[1..]) + rest;
      MoreHolesText(holes);
      assert (Placeholder(holes[0]) + ", " + ListText(holes[1..])) + rest == Placeholder(holes[0]) + (", " + more);
      NumberReads(holes[0], ", " + more);
      NumbersRead(holes[1..], rest);
      NumberInFront(holes[0], ListText(holes) + rest, more, holes[1..], rest);
      assert holes == [holes[0]] + holes[1..];
    }
  }

  lemma LastNumber(n: nat, text: string, rest: string)
    requires ReadNumber(text) == Some((n, rest)) && Closes(rest)
    ensures ReadNumbers(text) == Some(([n], rest))
  {
    hide ReadNumber;
  }

  lemma NumberInFront(n: nat, text: string, more: string, others: seq<nat>, rest: string)
    requires ReadNumber(text) == Some((n, ", " + more)) && ReadNumbers(more) == Some((others, rest))
    ensures ReadNumbers(text) == Some(([n] + others, rest))
  {
    hide ReadNumber;
    PastPrefix(", ", more);
  }

  lemma OneHoleText(holes: seq<nat>)
    requires |holes| == 1
    ensures ListText(holes) == Placeholder(holes[0])
  {
  }

  lemma MoreHolesText(holes: seq<nat>)
    requires |holes| > 1
    ensures ListText(holes) == Placeholder(holes[0]) + ", " + ListText(holes[1..])
  {
    hide Placeholder;
    var texts := PlaceholderTexts(holes);
    assert texts[0] == Placeholder(holes[0]) && texts[1..] == PlaceholderTexts(holes[1..]);
    JoinSplits(texts, ", ");
  }

  lemma JoinSplits(texts: seq<string>, separator: string)
    requires |texts| > 1
    ensures Join(texts, separator) == texts[0] + separator + Join(texts[1..], separator)
  {
  }

  lemma SignReads(op: Operator, rest: string)
    requires op in {Eq, Neq, Lt, Lte, Gt, Gte}
    ensures ReadSign((Token(op) + " ") + rest) == Some((op, rest))
    ensures var text := (Token(op) + " ") + rest; |text| > 1 && text[0] in {'=', '<', '>'}
  {
    var lead := Token(op) + " ";
    var text := lead + rest;
    assert text[0] == lead[0] && text[1] == lead[1];
    assert text[|lead|..] == rest;
  }

  lemma CastReads(ty: FieldType)
    ensures Cast(ty) == CastName(ty) && StartsApart(Cast(ty))
  {
  }

  lemma NullTestReads(f: Field, rest: string)
    ensures ReadTest(f, "IS NULL" + rest) == Some((IsNull(f), rest))
    ensures ReadTest(f, "IS NOT NULL" + rest) == Some((IsNotNull(f), rest))
  {
    hide ReadListed, ReadBound, ReadNumbers, ReadNumber, ReadSign;
    var a, b := "IS NULL" + rest, "IS NOT NULL" + rest;
    assert a[7..] == rest && b[11..] == rest;
    assert b[4] == 'O' && "IS NULL"[4] == 'U';
  }

  lemma ListTestReads(f: Field, holes: seq<nat>, rest: string)
    requires holes != []
    ensures ReadTest(f, "IN (" + (ListText(holes) + (")" + rest))) == Some((InList(f, holes), rest))
    ensures ReadTest(f, "&& ARRAY[" + (ListText(holes) + ("]::uuid[]" + rest))) == Some((Overlap(f, holes), rest))
  {
    hide ListText, ReadNumbers, ReadNumber, ReadSign, ReadBound;
    NumbersRead(holes, ")" + rest);
    NumbersRead(holes, "]::uuid[]" + rest);
    PastPrefix(")", rest);
    PastPrefix("]::uuid[]", rest);
    var x, y := ListText(holes) + (")" + rest), ListText(holes) + ("]::uuid[]" + rest);
    var a, b := "IN (" + x, "&& ARRAY[" + y;
    assert a[4..] == x && b[9..] == y;
    assert a[1] == 'N' && b[0] == '&';
    assert "IS NULL"[1] == 'S' && "IS NOT NULL"[1] == 'S' && "IS NULL"[0] == 'I' && "IS NOT NULL"[0] == 'I' && "IN ("[0] == 'I';
  }

  lemma PatternTestReads(f: Field, hole: nat, rest: string)
    ensures ReadTest(f, "ILIKE " + (Placeholder(hole) + (" ESCAPE '\\'" + rest))) == Some((ILike(f, hole), rest))
  {
    hide Placeholder, ReadNumbers, ReadNumber, ReadSign, ReadListed;
    NumberReads(hole, " ESCAPE '\\'" + rest);
    PastPrefix(" ESCAPE '\\'", rest);
    var x := Placeholder(hole) + (" ESCAPE '\\'" + rest);
    var a := "ILIKE " + x;
    assert a[6..] == x && a[1] == 'L';
    assert "IS NULL"[1] == 'S' && "IS NOT NULL"[1] == 'S' && "IN ("[1] == 'N' && "&& ARRAY["[0] == '&' && a[0] == 'I';
  }

  lemma CompareTestReads(f: Field, op: Operator, hole: nat, rest: string)
    requires op in {Eq, Neq, Lt, Lte, Gt, Gte} && StartsApart(rest)
    ensures ReadTest(f, (Token(op) + " ") + (Placeholder(hole) + (Cast(f.ty) + rest))) == Some((Compare(f, op, hole), rest))
  {
    hide Placeholder, Token, Cast, ReadNumbers, ReadNumber, ReadListed, ReadSign, CastName;
    CastReads(f.ty);
    var x := Placeholder(hole) + (Cast(f.ty) + rest);
    SignReads(op, x);
    assert StartsApart(Cast(f.ty) + rest);
    NumberReads(hole, Cast(f.ty) + rest);
    PastPrefix(Cast(f.ty), rest);
    var text := (Token(op) + " ") + x;
    assert "IS NULL"[0] == 'I' && "IS NOT NULL"[0] == 'I' && "IN ("[0] == 'I' && "&& ARRAY["[0] == '&' && "ILIKE "[0] == 'I';
  }

  lemma CountReads(f: Field, rest: string)
    ensures ReadCount(f, "= 0" + rest) == Some((CardinalityZero(f), rest))
    ensures ReadCount(f, "> 0" + rest) == Some((CardinalityPositive(f), rest))
  {
    var a, b := "= 0" + rest, "> 0" + rest;
    assert a[3..] == rest && b[3..] == rest;
    assert b[0] == '>' && "= 0"[0] == '=';
  }

  lemma EndingReads(resource: Resource, sql: Sql, rest: string)
    requires IsSingle(sql) && IsOver(resource, sql) && StartsApart(rest)
    ensures ReadFrom(StartOf(sql), Ending(sql) + rest) == Some((sql, rest))
  {
    hide ReadTest, ReadCount, ListText, Placeholder, Token, Cast, IsField;
    if sql.InList? {
      ListTestReads(sql.column, sql.holes, rest);
      Bracketed("IN (", ListText(sql.holes), ")", rest);
    } else if sql.Overlap? {
      ListTestReads(sql.column, sql.holes, rest);
      Bracketed("&& ARRAY[", ListText(sql.holes), "]::uuid[]", rest);
    } else if sql.ILike? {
      PatternTestReads(sql.column, sql.hole, rest);
      Bracketed("ILIKE ", Placeholder(sql.hole), " ESCAPE '\\'", rest);
    } else if sql.Compare? {
      CompareTestReads(sql.column, sql.token, sql.hole, rest);
      Bracketed(Token(sql.token) + " ", Placeholder(sql.hole), Cast(sql.column.ty), rest);
    } else if sql.True? || sql.False? {
      assert "" + rest == rest;
    } else {
      NullTestReads(sql.column, rest);
      CountReads(sql.column, rest);
    }
  }

  lemma Bracketed(lead: string, middle: string, close: string, rest: string)
    ensures (lead + (middle + close)) + rest == lead + (middle + (close + rest))
  {
    assert (lead + (middle + close)) + rest == lead + ((middle + close) + rest);
    assert (middle + close) + rest == middle + (close + rest);
  }

  lemma SingleReads(resource: Resource, sql: Sql, rest: string)
    requires IsReadable(resource) && IsOver(resource, sql) && IsSingle(sql) && StartsApart(rest)
    ensures Read(resource, Render(sql) + rest) == Some((sql, rest))
  {
    hide Render, StartText, Ending, IsReadable, IsOver, StartOf, ReadFrom;
    SingleText(sql);
    KnownStart(resource, sql);
    EndingReads(resource, sql, rest);
    var start := StartText(StartOf(sql));
    var text := start + (Ending(sql) + rest);
    assert (start + Ending(sql)) + rest == text;
    assert start <= text && text[|start|..] == Ending(sql) + rest;
    assert BeginsSingle(resource, text);
    OneStart(resource, StartOf(sql), text);
  }

  lemma KnownStart(resource: Resource, sql: Sql)
    requires IsSingle(sql) && IsOver(resource, sql)
    ensures IsKnown(resource, StartOf(sql))
  {
  }

  /** A text begins with one keyword or column only. */
  lemma OneStart(resource: Resource, s: Start, text: string)
    requires IsReadable(resource) && IsKnown(resource, s) && StartText(s) <= text
    ensures BeginsSingle(resource, text) && ReadSingle(resource, text) == ReadFrom(s, text[|StartText(s)|..])
  {
    hide IsReadable, IsKnown, StartText, ReadFrom;
    assert BeginsSingle(resource, text);
    forall t | IsKnown(resource, t) && StartText(t) <= text
      ensures t == s
    {
      StartsDecide(resource, s, t, text);
    }
  }

  /* ------------------------------- brackets read back ------------------------------- */

  /** How an expression's text begins. */
  function Beginning(sql: Sql): string {
    if sql.NotCoalesce? then "(NOT COALESCE("
    else if sql.Chain? then "("
    else StartText(StartOf(sql))
  }

  lemma BeginsIts(sql: Sql, rest: string)
    ensures Beginning(sql) <= Render(sql) + rest
  {
    hide Render, StartText, Ending;
    if sql.NotCoalesce? {
      RenderedNot(sql.operand);
    } else if sql.Chain? {
      RenderedChain(sql.combinator, sql.parts);
    } else {
      SingleText(sql);
    }
  }

  function Joined(parts: seq<Sql>, combinator: Combinator): string {
    Join(RenderAll(parts), Separator(combinator))
  }

  /** What follows a group's first part. */
  function AfterFirst(parts: seq<Sql>, combinator: Combinator, rest: string): (tail: string)
    requires parts != []
    ensures StartsApart(tail) && tail != ""
    ensures tail[0] == if |parts| == 1 then ')' else ' '
  {
    if |parts| == 1 then ")" + rest
    else Separator(combinator) + (Joined(parts[1..], combinator) + (")" + rest))
  }

  lemma SplitFirst(parts: seq<Sql>, combinator: Combinator, rest: string)
    requires parts != []
    ensures Joined(parts, combinator) + (")" + rest) == Render(parts[0]) + AfterFirst(parts, combinator, rest)
  {
    hide Render, Separator;
    var texts := RenderAll(parts);
    assert texts[0] == Render(parts[0]) && texts[1..] == RenderAll(parts[1..]);
    if |parts| > 1 {
      hide Join;
      JoinSplits(texts, Separator(combinator));
      var first, joined := Render(parts[0]) + Separator(combinator), Joined(parts[1..], combinator);
      assert (first + joined) + (")" + rest) == Render(parts[0]) + (Separator(combinator) + (joined + (")" + rest)));
    }
  }

  /** A group's text, bracket first. */
  lemma GroupText(sql: Sql, rest: string)
    requires sql.Chain? && sql.parts != []
    ensures Render(sql) + rest == "(" + (Joined(sql.parts, sql.combinator) + (")" + rest))
    ensures Render(sql) + rest == "(" + (Render(sql.parts[0]) + AfterFirst(sql.parts, sql.combinator, rest))
  {
    hide Render, Join, RenderAll, Separator, AfterFirst;
    RenderedChain(sql.combinator, sql.parts);
    var joined := Joined(sql.parts, sql.combinator);
    assert ("(" + joined + ")") + rest == "(" + (joined + (")" + rest));
    SplitFirst(sql.parts, sql.combinator, rest);
  }

  lemma NegationText(sql: Sql, rest: string)
    requires sql.NotCoalesce?
    ensures Render(sql) + rest == "(NOT COALESCE(" + (Render(sql.operand) + (", FALSE))" + rest))
  {
    hide Render;
    RenderedNot(sql.operand);
    assert (("(NOT COALESCE(" + Render(sql.operand)) + ", FALSE))") + rest
           == "(NOT COALESCE(" + (Render(sql.operand) + (", FALSE))" + rest));
  }

  /** No single predicate begins like a negation. */
  lemma NegationBeginsNoSingle(resource: Resource, text: string)
    requires IsReadable(resource) && "(NOT COALESCE(" <= text
    ensures !BeginsSingle(resource, text)
  {
    forall s | IsKnown(resource, s)
      ensures !(StartText(s) <= text)
    {
      StartIsNoNegation(resource, s);
      hide *;
      assert StartText(s) <= text ==> Overlaps(StartText(s), "(NOT COALESCE(") by { if StartText(s) <= text { BothBegin(StartText(s), "(NOT COALESCE(", text); } }
    }
  }

  lemma StartIsNoNegation(resource: Resource, s: Start)
    requires IsReadable(resource) && IsKnown(resource, s)
    ensures !Overlaps(StartText(s), "NOT COALESCE(") && !Overlaps(StartText(s), "(NOT COALESCE(")
  {
    if s.Tested? {
      ColumnIsNoNegation(resource, s.column);
    } else {
      hide IsReadable, Overlaps;
      BracketlessStart(s);
      Apart(StartText(s), "NOT COALESCE(", 0);
      Apart(StartText(s), "(NOT COALESCE(", 0);
    }
  }

  lemma ColumnIsNoNegation(resource: Resource, f: Field)
    requires IsReadable(resource) && IsField(resource, f)
    ensures !Overlaps(Head(f), "NOT COALESCE(") && !Overlaps(Head(f), "(NOT COALESCE(")
  {
    hide Head, CountHead, Overlaps, BeginsNothing;
    assert StandsAlone(resource, f);
  }

  lemma BracketlessStart(s: Start)
    requires !s.Tested?
    ensures StartText(s) != "" && StartText(s)[0] != '(' && StartText(s)[0] != 'N'
  {
  }

  /** No single predicate begins like a group, whatever the group holds. */
  lemma GroupBeginsNoSingle(resource: Resource, part: Sql, inside: string)
    requires IsReadable(resource) && IsOver(resource, part) && Beginning(part) <= inside
    ensures !BeginsSingle(resource, "(" + inside)
  {
    hide IsReadable, IsOver, Beginning, StartText, Head, BeginsNothing;
    forall s | IsKnown(resource, s)
      ensures !(StartText(s) <= "(" + inside)
    {
      OnlyColumnsBracket(resource, s);
      if StartText(s)[0] == '(' {
        BracketedColumn(resource, StartText(s)[1..], part, inside);
        PastBracket(StartText(s), inside);
      } else {
        assert ("(" + inside)[0] == '(';
      }
    }
  }

  /** Only a column's own text makes a single predicate begin with a bracket, and it then stands alone. */
  lemma OnlyColumnsBracket(resource: Resource, s: Start)
    requires IsReadable(resource) && IsKnown(resource, s)
    ensures StartText(s) != ""
    ensures var t := StartText(s);
            t[0] == '(' ==> t[1..] != "" && t[1] != '(' && BeginsNothing(resource, t[1..])
  {
    hide BeginsNothing, Overlaps, CountHead;
    if s.Tested? {
      assert StandsAlone(resource, s.column);
    } else {
      BracketlessStart(s);
    }
  }

  lemma PastBracket(s: string, inside: string)
    requires s != "" && s[0] == '('
    ensures s <= "(" + inside <==> s[1..] <= inside
  {
    assert ("(" + inside)[1..] == inside && "(" + s[1..] == s;
  }

  /** What follows the bracket of a column's own text begins nothing a group can hold. */
  lemma BracketedColumn(resource: Resource, s: string, part: Sql, inside: string)
    requires s != "" && s[0] != '(' && BeginsNothing(resource, s) && IsOver(resource, part)
    requires Beginning(part) <= inside
    ensures !(s <= inside)
  {
    hide Head, CountHead;
    if !IsSingle(part) {
      assert Beginning(part)[0] == '(' && inside[0] == '(';
    } else if StartOf(part).Tested? || StartOf(part).Counted? {
      assert IsField(resource, part.column);
      assert !Overlaps(s, Beginning(part));
    }
  }

  /** No group begins like a negation, whatever it holds. */
  lemma GroupIsNoNegation(resource: Resource, part: Sql, inside: string)
    requires IsReadable(resource) && IsOver(resource, part) && Beginning(part) <= inside
    ensures !("(NOT COALESCE(" <= "(" + inside)
  {
    PastBracket("(NOT COALESCE(", inside);
    assert "(NOT COALESCE("[1..] == "NOT COALESCE(";
    NothingBeginsWithNot(resource, part);
    hide Beginning;
  }

  lemma NothingBeginsWithNot(resource: Resource, part: Sql)
    requires IsReadable(resource) && IsOver(resource, part)
    ensures !Overlaps(Beginning(part), "NOT COALESCE(")
  {
    if IsSingle(part) {
      KnownStart(resource, part);
      StartIsNoNegation(resource, StartOf(part));
    } else {
      Apart(Beginning(part), "NOT COALESCE(", 0);
    }
  }

  /* ------------------------------- expressions read back ------------------------------- */

  /** The expression as its text shows it: the connective of a group with a single part shows nowhere. */
  function AsRead(sql: Sql): Sql
    decreases sql, 0
  {
    match sql
    case NotCoalesce(e) => NotCoalesce(AsRead(e))
    case Chain(combinator, parts) => Chain(if |parts| == 1 then And else combinator, AllAsRead(parts))
    case _ => sql
  }

  function AllAsRead(parts: seq<Sql>): (read: seq<Sql>)
    ensures |read| == |parts|
    decreases parts, 1
  {
    if parts == [] then [] else [AsRead(parts[0])] + AllAsRead(parts[1..])
  }

  lemma NegationReads(resource: Resource, sql: Sql, operand: Sql, rest: string)
    requires IsReadable(resource) && sql.NotCoalesce?
    requires Read(resource, Render(sql.operand) + (", FALSE))" + rest)) == Some((operand, ", FALSE))" + rest))
    ensures Read(resource, Render(sql) + rest) == Some((NotCoalesce(operand), rest))
  {
    hide Render, BeginsSingle, ReadGroup, IsReadable;
    var inside, text := Render(sql.operand) + (", FALSE))" + rest), Render(sql) + rest;
    NegationText(sql, rest);
    assert "(NOT COALESCE(" <= text && text[14..] == inside;
    NegationBeginsNoSingle(resource, text);
    assert (", FALSE))" + rest)[9..] == rest;
  }

  /** The text of an expression, whatever follows it, is read back as that expression. */
  lemma {:induction false} ReadsBack(resource: Resource, sql: Sql, rest: string)
    requires IsReadable(resource) && IsOver(resource, sql) && StartsApart(rest)
    ensures Read(resource, Render(sql) + rest) == Some((AsRead(sql), rest))
    decreases sql, 0
  {
    hide Render, Joined, AfterFirst, IsReadable, Read, ReadGroup;
    if sql.NotCoalesce? {
      ReadsBack(resource, sql.operand, ", FALSE))" + rest);
      NegationReads(resource, sql, AsRead(sql.operand), rest);
    } else if sql.Chain? {
      GroupText(sql, rest);
      PartsReadBack(resource, sql.parts, sql.combinator, rest);
      GroupReads(resource, sql, rest);
    } else {
      SingleReads(resource, sql, rest);
    }
  }

  lemma GroupReads(resource: Resource, sql: Sql, rest: string)
    requires IsReadable(resource) && IsOver(resource, sql) && sql.Chain?
    requires ReadGroup(resource, Joined(sql.parts, sql.combinator) + (")" + rest))
             == Some((AllAsRead(sql.parts), if |sql.parts| == 1 then And else sql.combinator, rest))
    ensures Read(resource, Render(sql) + rest) == Some((AsRead(sql), rest))
  {
    hide Render, Joined, AfterFirst, IsReadable, ReadGroup, BeginsSingle, AllAsRead, Beginning;
    var inside := Joined(sql.parts, sql.combinator) + (")" + rest);
    GroupText(sql, rest);
    SplitFirst(sql.parts, sql.combinator, rest);
    var part := sql.parts[0];
    assert IsOver(resource, part);
    BeginsIts(part, AfterFirst(sql.parts, sql.combinator, rest));
    GroupBeginsNoSingle(resource, part, inside);
    GroupIsNoNegation(resource, part, inside);
    var text := "(" + inside;
    assert "(" <= text && text[1..] == inside;
  }

  lemma {:induction false} PartsReadBack(resource: Resource, parts: seq<Sql>, combinator: Combinator, rest: string)
    requires IsReadable(resource) && parts != [] && forall i :: 0 <= i < |parts| ==> IsOver(resource, parts[i])
    ensures ReadGroup(resource, Joined(parts, combinator) + (")" + rest))
            == Some((AllAsRead(parts), if |parts| == 1 then And else combinator, rest))
    decreases parts, 1
  {
    hide Render, Joined, IsOver, IsReadable, Read, Separator, AsRead;
    var tail := AfterFirst(parts, combinator, rest);
    SplitFirst(parts, combinator, rest);
    ReadsBack(resource, parts[0], tail);
    if |parts| == 1 {
      PastPrefix(")", rest);
      assert AllAsRead(parts) == [AsRead(parts[0])];
    } else {
      var others := Joined(parts[1..], combinator) + (")" + rest);
      PartsReadBack(resource, parts[1..], combinator, rest);
      WordReads(combinator, others);
    }
  }

  /** The words between a group's parts. */
  lemma WordReads(combinator: Combinator, rest: string)
    ensures var text := Separator(combinator) + rest;
            && !(")" <= text)
            && (combinator == And ==> " AND " <= text && text[5..] == rest)
            && (combinator == Or ==> !(" AND " <= text) && " OR " <= text && text[4..] == rest)
  {
    var text := Separator(combinator) + rest;
    assert text[0] == ' ' && text[1] == Separator(combinator)[1];
    assert text[|Separator(combinator)|..] == rest;
  }

  /* ------------------------------- what it means ------------------------------- */

  /** What a group's text does not show makes no difference. */
  lemma {:induction false} AsReadMeansTheSame(sql: Sql, row: Row, params: Params, offset: nat, env: Env)
    ensures EvalSql(AsRead(sql), row, params, offset, env) == EvalSql(sql, row, params, offset, env)
    ensures Binds(AsRead(sql), params, offset, env) == Binds(sql, params, offset, env)
    decreases sql, 0
  {
    match sql
    case NotCoalesce(e) => AsReadMeansTheSame(e, row, params, offset, env);
    case Chain(combinator, parts) =>
      AllAsReadMeanTheSame(combinator, parts, row, params, offset, env);
      if |parts| == 1 {
        OnePartNeedsNoWord(AsRead(parts[0]), row, params, offset, env);
        assert AllAsRead(parts) == [AsRead(parts[0])];
      }
    case _ =>
  }

  lemma OnePartNeedsNoWord(part: Sql, row: Row, params: Params, offset: nat, env: Env)
    ensures EvalChain(And, [part], row, params, offset, env) == EvalChain(Or, [part], row, params, offset, env)
  {
    assert [part][1..] == [];
    assert EvalChain(And, [], row, params, offset, env) == Yes && EvalChain(Or, [], row, params, offset, env) == No;
  }

  lemma {:induction false} AllAsReadMeanTheSame(combinator: Combinator, parts: seq<Sql>, row: Row, params: Params, offset: nat, env: Env)
    ensures EvalChain(combinator, AllAsRead(parts), row, params, offset, env) == EvalChain(combinator, parts, row, params, offset, env)
    ensures forall i :: 0 <= i < |parts| ==>
              (Binds(AllAsRead(parts)[i], params, offset, env) <==> Binds(parts[i], params, offset, env))
    decreases parts, 1
  {
    if parts != [] {
      AsReadMeansTheSame(parts[0], row, params, offset, env);
      AllAsReadMeanTheSame(combinator, parts[1..], row, params, offset, env);
    }
  }

  lemma {:induction false} EmittedIsOver(resource: Resource, node: Node, params: Params, offset: nat, env: Env)
    requires WellFormed(resource) && WellShaped(node) && Emit(resource, node, params, offset, env).Ok?
    ensures IsOver(resource, Emit(resource, node, params, offset, env).value.0)
    decreases node, 0
  {
    match node
    case Group(_, children) =>
      if children != [] {
        AllEmittedAreOver(resource, children, params, offset, env);
      }
    case Not(child) => EmittedIsOver(resource, child, params, offset, env);
    case Comparison(name, op, operand) => ComparisonIsOver(resource, name, op, operand, params, offset, env);
  }

  lemma ComparisonIsOver(resource: Resource, name: string, op: Operator, operand: Operand, params: Params, offset: nat, env: Env)
    requires WellFormed(resource) && name in resource.fields && WellShaped(Comparison(name, op, operand))
    requires EmitComparison(resource.fields[name], op, operand, params, offset, env).Ok?
    ensures IsOver(resource, EmitComparison(resource.fields[name], op, operand, params, offset, env).value.0)
  {
    hide Resolve, ResolveAll, StringOf;
    assert IsField(resource, resource.fields[name]);
  }

  lemma {:induction false} AllEmittedAreOver(resource: Resource, nodes: seq<Node>, params: Params, offset: nat, env: Env)
    requires WellFormed(resource) && forall i :: 0 <= i < |nodes| ==> WellShaped(nodes[i])
    requires EmitAll(resource, nodes, params, offset, env).Ok?
    ensures var parts := EmitAll(resource, nodes, params, offset, env).value.0;
            forall i :: 0 <= i < |parts| ==> IsOver(resource, parts[i])
    decreases nodes, 1
  {
    if nodes != [] {
      EmittedIsOver(resource, nodes[0], params, offset, env);
      AllEmittedAreOver(resource, nodes[1..], Emit(resource, nodes[0], params, offset, env).value.1, offset, env);
    }
  }

  /** The text a filter compiles to is read back whole, as an expression that means what was compiled. */
  lemma CompiledTextReadsBack(resource: Resource, node: Node, offset: nat, row: Row, params: Params, env: Env)
    requires WellFormed(resource) && IsReadable(resource) && WellShaped(node) && Compile(resource, node, offset, env).Ok?
    ensures var sql := Compile(resource, node, offset, env).value.0;
            var read := Read(resource, Render(sql));
            && read == Some((AsRead(sql), ""))
            && EvalSql(read.value.0, row, params, offset, env) == EvalSql(sql, row, params, offset, env)
            && Query(read.value.0, row, params, offset, env) == Query(sql, row, params, offset, env)
  {
    var sql := Compile(resource, node, offset, env).value.0;
    EmittedIsOver(resource, node, [], offset, env);
    hide Render, EvalSql, Binds, Emit, IsOver, IsReadable, Read;
    assert Render(sql) + "" == Render(sql);
    ReadsBack(resource, sql, "");
    AsReadMeansTheSame(sql, row, params, offset, env);
  }

  /**
   * The parity law on texts: the text a safe filter compiles to, read by SQL's own words and run with
   * the parameters it came with, selects exactly the rows the evaluator matches.
   */
  lemma TextMeansEvaluated(resource: Resource, node: Node, offset: nat, row: Row, env: Env)
    requires Sane(env) && WellFormed(resource) && IsReadable(resource) && WellShaped(node)
    requires SafeTree(resource, node, env) && FitsSchema(row, resource, env)
    requires Compile(resource, node, offset, env).Ok?
    ensures var (sql, params) := Compile(resource, node, offset, env).value;
            var read := Read(resource, Render(sql));
            read.Some? && read.value.1 == "" && Query(read.value.0, row, params, offset, env) == Ran(Evaluate(resource, node, row, env))
  {
    hide Query, Read, Render, IsReadable, SafeTree, FitsSchema;
    CompiledMeansEvaluated(resource, node, offset, row, env);
    CompiledTextReadsBack(resource, node, offset, row, Compile(resource, node, offset, env).value.1, env);
  }

  /** Two expressions that begin one text are the same as read, and leave the same rest. */
  lemma TextReadsOneWay(resource: Resource, a: Sql, b: Sql, restA: string, restB: string)
    requires IsReadable(resource) && IsOver(resource, a) && IsOver(resource, b)
    requires StartsApart(restA) && StartsApart(restB)
    requires Render(a) + restA == Render(b) + restB
    ensures AsRead(a) == AsRead(b) && restA == restB
  {
    hide *;
    ReadsBack(resource, a, restA);
    ReadsBack(resource, b, restB);
  }

  /**
   * Two filters with one text are one filter to the database: no regrouping by precedence, no column
   * and no placeholder is mistaken for another.
   */
  lemma TextDeterminesMeaning(resource: Resource, a: Node, b: Node, offset: nat, row: Row, params: Params, env: Env)
    requires WellFormed(resource) && IsReadable(resource) && WellShaped(a) && WellShaped(b)
    requires Compile(resource, a, offset, env).Ok? && Compile(resource, b, offset, env).Ok?
    requires Render(Compile(resource, a, offset, env).value.0) == Render(Compile(resource, b, offset, env).value.0)
    ensures EvalSql(Compile(resource, a, offset, env).value.0, row, params, offset, env)
            == EvalSql(Compile(resource, b, offset, env).value.0, row, params, offset, env)
  {
    hide *;
    CompiledTextReadsBack(resource, a, offset, row, params, env);
    CompiledTextReadsBack(resource, b, offset, row, params, env);
  }

  /* ------------------------------- two field sets ------------------------------- */

  /** Where the three columns' texts part. */
  lemma CardTexts()
    ensures |ColumnText(CARD_TITLE)| > 12 && ColumnText(CARD_TITLE)[0] == 'w' && ColumnText(CARD_TITLE)[11] == 't'
    ensures |ColumnText(CARD_ARCHIVED)| > 12 && ColumnText(CARD_ARCHIVED)[0] == '(' && ColumnText(CARD_ARCHIVED)[1] == 'w'
    ensures ColumnText(CARD_ARCHIVED)[12] == 'a'
    ensures |ColumnText(CARD_LABEL)| > 12 && ColumnText(CARD_LABEL)[0] == '(' && ColumnText(CARD_LABEL)[1] == 'S'
  {
    assert ColumnText(CARD_TITLE) == "work.cards.title";
    assert ColumnText(CARD_ARCHIVED) == "(work.cards.archived_at IS NOT NULL)";
    assert ColumnText(CARD_LABEL) == "(SELECT array_agg(cl.label_id)" + CARD_LABEL_SOURCE;
  }

  lemma HeadLetters(f: Field)
    ensures |Head(f)| == |ColumnText(f)| + 1
    ensures forall i :: 0 <= i < |ColumnText(f)| ==> Head(f)[i] == ColumnText(f)[i]
    ensures |CountHead(f)| == |ColumnText(f)| + 14 && CountHead(f)[0] == 'c'
    ensures forall i :: 0 <= i < |ColumnText(f)| ==> CountHead(f)[12 + i] == ColumnText(f)[i]
  {
  }

  lemma CardLetters()
    ensures |Head(CARD_TITLE)| > 12 && Head(CARD_TITLE)[0] == 'w' && Head(CARD_TITLE)[11] == 't'
    ensures |Head(CARD_ARCHIVED)| > 12 && Head(CARD_ARCHIVED)[0] == '(' && Head(CARD_ARCHIVED)[1] == 'w' && Head(CARD_ARCHIVED)[12] == 'a'
    ensures |Head(CARD_LABEL)| > 12 && Head(CARD_LABEL)[0] == '(' && Head(CARD_LABEL)[1] == 'S'
    ensures |CountHead(CARD_TITLE)| > 13 && CountHead(CARD_TITLE)[0] == 'c' && CountHead(CARD_TITLE)[12] == 'w'
    ensures |CountHead(CARD_ARCHIVED)| > 13 && CountHead(CARD_ARCHIVED)[0] == 'c'
    ensures CountHead(CARD_ARCHIVED)[12] == '(' && CountHead(CARD_ARCHIVED)[13] == 'w'
    ensures |CountHead(CARD_LABEL)| > 13 && CountHead(CARD_LABEL)[0] == 'c' && CountHead(CARD_LABEL)[12] == '(' && CountHead(CARD_LABEL)[13] == 'S'
  {
    hide Head, CountHead, ColumnText;
    CardTexts();
    HeadLetters(CARD_TITLE);
    HeadLetters(CARD_ARCHIVED);
    HeadLetters(CARD_LABEL);
    assert CountHead(CARD_TITLE)[12 + 0] == ColumnText(CARD_TITLE)[0];
    assert CountHead(CARD_ARCHIVED)[12 + 0] == ColumnText(CARD_ARCHIVED)[0] && CountHead(CARD_ARCHIVED)[12 + 1] == ColumnText(CARD_ARCHIVED)[1];
    assert CountHead(CARD_LABEL)[12 + 0] == ColumnText(CARD_LABEL)[0] && CountHead(CARD_LABEL)[12 + 1] == ColumnText(CARD_LABEL)[1];
  }

  predicate IsCardColumn(f: Field) {
    f == CARD_TITLE || f == CARD_ARCHIVED || f == CARD_LABEL
  }

  lemma CardsStandApart(f: Field, g: Field)
    requires IsCardColumn(f) && IsCardColumn(g)
    ensures !Overlaps(Head(f), CountHead(g)) && (f != g ==> StandApart(f, g))
  {
    CardLetters();
    hide Head, CountHead, Overlaps;
    Apart(Head(f), CountHead(g), 0);
    if f != g {
      var k := if f == CARD_TITLE || g == CARD_TITLE then 0 else 1;
      Apart(Head(f), Head(g), k);
      Apart(CountHead(f), CountHead(g), 12 + k);
    }
  }

  lemma CardStandsAlone(resource: Resource, f: Field)
    requires IsCardColumn(f) && forall n :: n in resource.fields ==> IsCardColumn(resource.fields[n])
    ensures StandsAlone(resource, f)
  {
    CardLetters();
    hide Head, CountHead, Overlaps;
    var head := Head(f);
    Apart(head, "TRUE", 0);
    Apart(head, "FALSE", 0);
    Apart(head, "NOT COALESCE(", 0);
    Apart(head, "(NOT COALESCE(", if f == CARD_TITLE then 0 else 1);
    if f != CARD_TITLE {
      var inside := head[1..];
      Apart(inside, "TRUE", 0);
      Apart(inside, "FALSE", 0);
      Apart(inside, Head(CARD_TITLE), if f == CARD_LABEL then 0 else 11);
      Apart(inside, Head(CARD_ARCHIVED), 0);
      Apart(inside, Head(CARD_LABEL), 0);
      Apart(inside, CountHead(CARD_TITLE), 0);
      Apart(inside, CountHead(CARD_ARCHIVED), 0);
      Apart(inside, CountHead(CARD_LABEL), 0);
    }
  }

  /** Any field set made of these three columns, two of which open a bracket of their own, can be told apart. */
  lemma CardColumnsAreReadable(resource: Resource)
    requires WellFormed(resource) && forall n :: n in resource.fields ==> IsCardColumn(resource.fields[n])
    ensures IsReadable(resource)
  {
    hide IsCardColumn, StandsAlone, StandApart, Head, CountHead, Overlaps;
    forall n | n in resource.fields
      ensures StandsAlone(resource, resource.fields[n])
    {
      CardStandsAlone(resource, resource.fields[n]);
    }
    forall m, n | m in resource.fields && n in resource.fields
      ensures !Overlaps(Head(resource.fields[m]), CountHead(resource.fields[n]))
      ensures m != n ==> StandApart(resource.fields[m], resource.fields[n])
    {
      CardsStandApart(resource.fields[m], resource.fields[n]);
    }
  }

  /** Two fields over one column text: their filters are spelled alike and select different rows. */
  lemma SharedColumnHidesTheFilter(env: Env)
    ensures var first := Field("first", Text, Some("t.c"), None, {}, false, false, true);
            var second := first.(name := "second");
            var resource := Resource(map["first" := first, "second" := second], true);
            var a, b := Comparison("first", IsEmpty, Missing), Comparison("second", IsEmpty, Missing);
            var row: Row := map["first" := NullCell, "second" := Holds(Str("z"))];
            && WellFormed(resource) && Compile(resource, a, 1, env) == Ok((IsNull(first), []))
            && Compile(resource, b, 1, env) == Ok((IsNull(second), []))
            && Render(IsNull(first)) == Render(IsNull(second))
            && EvalSql(IsNull(first), row, [], 1, env) == Yes && EvalSql(IsNull(second), row, [], 1, env) == No
            && !IsReadable(resource)
  {
  }
}
