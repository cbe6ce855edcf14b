/** Ranks: a self-describing integer followed by a fraction with no trailing zero. */
module Ranks {
  import opened Wrappers
  import opened Lexicographic
  import opened RankIntegers

  /** A fraction's last digit carries value: `"V"` and `"V0"` would otherwise be the same. */
  predicate NoTrailingZero(f: string) {
    f == "" || f[|f| - 1] != ZERO
  }

  predicate IsFraction(f: string) {
    IsDigits(f) && NoTrailingZero(f)
  }

  predicate IsRank(value: string) {
    value != ""
    && 0 <= IntegerLength(value[0]) <= |value|
    && IsDigits(value)
    && NoTrailingZero(value[IntegerLength(value[0])..])
  }

  function IntegerOf(r: string): (x: string)
    requires IsRank(r)
    ensures IsInteger(x)
  {
    r[..IntegerLength(r[0])]
  }

  function FractionOf(r: string): (f: string)
    requires IsRank(r)
    ensures IsFraction(f)
    ensures IntegerOf(r) + f == r
  {
    r[IntegerLength(r[0])..]
  }

  /** Putting an integer and a fraction together is the inverse of taking a rank apart. */
  lemma Join(x: string, f: string)
    requires IsInteger(x) && IsFraction(f)
    ensures IsRank(x + f) && IntegerOf(x + f) == x && FractionOf(x + f) == f
  {
  }

  /* --------------------- lexicographic order is numeric order --------------------- */

  /** The digits after the point. */
  ghost function FractionValue(f: string): real {
    if f == "" then 0.0 else (DigitValue(f[0]) as real + FractionValue(f[1..])) / 62.0
  }

  ghost function Value(r: string): real
    requires IsRank(r)
  {
    IntegerValue(IntegerOf(r)) as real + FractionValue(FractionOf(r))
  }

  lemma {:induction false} FractionBounds(f: string)
    requires IsFraction(f)
    ensures 0.0 <= FractionValue(f) < 1.0
    ensures f != "" ==> 0.0 < FractionValue(f)
  {
    if f != "" {
      assert IsFraction(f[1..]);
      FractionBounds(f[1..]);
    }
  }

  lemma {:induction false} FractionOrder(f: string, g: string)
    requires IsFraction(f) && IsFraction(g) && Less(f, g)
    ensures FractionValue(f) < FractionValue(g)
  {
    FractionBounds(g);
    if f != "" {
      assert IsFraction(f[1..]) && IsFraction(g[1..]);
      FractionBounds(f[1..]);
      FractionBounds(g[1..]);
      if f[0] == g[0] {
        FractionOrder(f[1..], g[1..]);
      }
    }
  }

  lemma LessMeansLower(a: string, b: string)
    requires IsRank(a) && IsRank(b) && Less(a, b)
    ensures Value(a) < Value(b)
  {
    var x, f, y, g := IntegerOf(a), FractionOf(a), IntegerOf(b), FractionOf(b);
    FractionBounds(f);
    FractionBounds(g);
    if x == y {
      SharedPrefix(x, f, g);
      FractionOrder(f, g);
    } else {
      IntegersArePrefixFree(x, f, y, g);
      IntegerOrder(x, y);
    }
  }

  /** String order is exactly the order of the denoted numbers, so a number has one rank at most. */
  lemma OrderIsNumeric(a: string, b: string)
    requires IsRank(a) && IsRank(b)
    ensures Less(a, b) <==> Value(a) < Value(b)
    ensures a == b <==> Value(a) == Value(b)
  {
    Trichotomy(a, b);
    if Less(a, b) {
      LessMeansLower(a, b);
    } else if Less(b, a) {
      LessMeansLower(b, a);
    }
  }

  /* ------------------------------- midpoint ------------------------------- */

  /** How many leading digits of `b` the padded `a` shares. */
  function SharedDigits(a: string, b: string, from: nat): (shared: nat)
    requires from <= |b|
    ensures from <= shared <= |b|
    ensures forall i :: from <= i < shared ==> b[i] == if i < |a| then a[i] else ZERO
    ensures shared < |b| ==> b[shared] != if shared < |a| then a[shared] else ZERO
    decreases |b| - from
  {
    if from < |b| && (if from < |a| then a[from] else ZERO) == b[from]
    then SharedDigits(a, b, from + 1)
    else from
  }

  function Drop(s: string, n: nat): string {
    if n <= |s| then s[n..] else ""
  }

  /** The value `indexOf` finds for a string's first character; the empty string is found at 0. */
  function FirstDigit(s: string): int {
    if s == "" then 0 else DigitValue(s[0])
  }

  /** The midpoint of two fractions, where a missing `b` stands for one. */
  function Midpoint(a: string, b: Option<string>): (m: string)
    requires IsDigits(a) && (b.Some? ==> IsDigits(b.value))
    ensures IsDigits(m)
    decreases if b.Some? then |b.value| + 1 else 0, |a|
  {
    var shared := if b.Some? then SharedDigits(a, b.value, 0) else 0;
    if shared > 0 then b.value[..shared] + Midpoint(Drop(a, shared), Some(b.value[shared..]))
    else
      var low := FirstDigit(a);
      var high := if b.Some? then FirstDigit(b.value) else BASE;
      if high - low > 1 then [DigitAt((low + high + 1) / 2)]
      else if b.Some? && |b.value| > 1 then b.value[..1]
      else [DigitAt(low)] + Midpoint(Drop(a, 1), None)
  }

  /** A midpoint lies strictly inside its gap, is canonical, and is at most one digit longer. */
  lemma {:induction false} MidpointIsInside(a: string, b: Option<string>)
    requires IsFraction(a) && (b.Some? ==> IsFraction(b.value) && Less(a, b.value))
    ensures var m := Midpoint(a, b);
            && IsFraction(m) && Less(a, m)
            && (b.Some? ==> Less(m, b.value))
            && |m| <= (if b.Some? && |b.value| > |a| then |b.value| else |a|) + 1
    decreases if b.Some? then |b.value| + 1 else 0, |a|
  {
    var shared := if b.Some? then SharedDigits(a, b.value, 0) else 0;
    if shared > 0 {
      BelowSharedDigits(a, b.value, shared);
      var a', b' := Drop(a, shared), b.value[shared..];
      MidpointIsInside(a', Some(b'));
      RestoreSharedDigits(a, b.value, shared, Midpoint(a', Some(b')));
    } else {
      MidpointWithoutSharedDigits(a, b);
    }
  }

  /** After the shared digits there is still a gap, because `b` cannot end in padding. */
  lemma BelowSharedDigits(a: string, b: string, shared: nat)
    requires IsFraction(a) && IsFraction(b) && Less(a, b) && shared == SharedDigits(a, b, 0)
    ensures Less(Drop(a, shared), b[shared..]) && IsFraction(Drop(a, shared)) && IsFraction(b[shared..])
  {
    hide Less, DigitValue, SharedDigits;
    var p := b[..shared];
    assert b == p + b[shared..];
    if |a| >= shared {
      assert a == p + a[shared..];
      SharedPrefix(p, a[shared..], b[shared..]);
    } else {
      assert b[shared - 1] == ZERO;
      EmptyIsBelow(b[shared..]);
    }
  }

  /** What lies strictly inside the rest of a gap lies inside the gap once the shared digits are back. */
  lemma RestoreSharedDigits(a: string, b: string, shared: nat, m: string)
    requires IsDigits(b) && 0 < shared == SharedDigits(a, b, 0)
    requires IsFraction(m) && Less(Drop(a, shared), m) && Less(m, b[shared..])
    ensures var r := b[..shared] + m; IsFraction(r) && Less(a, r) && Less(r, b)
  {
    var p := b[..shared];
    assert m != "" by {
      NothingBelowEmpty(Drop(a, shared));
    }
    PrefixedFraction(p, m);
    hide Less, DigitValue, SharedDigits, IsFraction, IsDigits;
    SharedPrefix(p, m, b[shared..]);
    assert b == p + b[shared..];
    if |a| >= shared {
      assert a == p + a[shared..];
      SharedPrefix(p, a[shared..], m);
    } else {
      assert p == a + p[|a|..];
      BelowItsExtension(a, p[|a|..], m);
    }
  }

  lemma BelowItsExtension(a: string, q: string, m: string)
    requires q != ""
    ensures Less(a, a + q + m)
  {
    hide Less;
    assert a + q + m == a + (q + m);
    ProperPrefix(a, q + m);
  }

  lemma PrefixedFraction(p: string, m: string)
    requires IsDigits(p) && IsFraction(m) && m != ""
    ensures IsFraction(p + m)
  {
  }

  lemma EmptyIsBelow(b: string)
    ensures b != "" ==> Less("", b)
  {
  }

  lemma NothingBelowEmpty(a: string)
    ensures !Less(a, "")
  {
  }

  lemma {:induction false} MidpointWithoutSharedDigits(a: string, b: Option<string>)
    requires IsFraction(a) && (b.Some? ==> IsFraction(b.value) && Less(a, b.value))
    requires b.Some? ==> SharedDigits(a, b.value, 0) == 0
    ensures var m := Midpoint(a, b);
            && IsFraction(m) && Less(a, m)
            && (b.Some? ==> Less(m, b.value))
            && |m| <= (if b.Some? && |b.value| > |a| then |b.value| else |a|) + 1
    decreases if b.Some? then 1 else 0, |a|
  {
    var low := FirstDigit(a);
    var high := if b.Some? then FirstDigit(b.value) else BASE;
    var m := Midpoint(a, b);
    if high - low > 1 {
      DigitRoundTrip((low + high + 1) / 2);
    } else if b.Some? && |b.value| > 1 {
      ProperPrefix(b.value[..1], b.value[1..]);
      assert b.value[..1] + b.value[1..] == b.value;
    } else {
      var a' := Drop(a, 1);
      assert IsFraction(a');
      MidpointWithoutSharedDigits(a', None);
      DigitRoundTrip(low);
      assert m[1..] == Midpoint(a', None);
    }
  }

  /* ------------------------------- between ------------------------------- */

  datatype RankError =
    | InvalidBefore
    | InvalidAfter
    | OutOfOrder
    | NoIntegerPart
    | ExhaustedAbove
    | ExhaustedBelow
    | BadCount

  function IntegerPartOf(rank: string): Result<string, RankError> {
    if rank == "" || IntegerLength(rank[0]) < 0 || IntegerLength(rank[0]) > |rank| then Err(NoIntegerPart)
    else Ok(rank[..IntegerLength(rank[0])])
  }

  function BeforeRank(after: string): Result<string, RankError>
    requires IsRank(after)
  {
    var integer :- IntegerPartOf(after);
    var fraction := after[|integer|..];
    if integer == SMALLEST_INTEGER then Ok(integer + Midpoint("", Some(fraction)))
    else if Less(integer, after) then Ok(integer)
    else match Decrement(integer)
      case None => Err(ExhaustedBelow)
      case Some(decremented) => Ok(decremented)
  }

  function AfterRank(before: string): Result<string, RankError>
    requires IsRank(before)
  {
    var integer :- IntegerPartOf(before);
    match Increment(integer)
    case Some(incremented) => Ok(incremented)
    case None => Ok(integer + Midpoint(before[|integer|..], None))
  }

  /** A rank between two neighbours; a missing neighbour is an end of the list. */
  function Between(before: Option<string>, after: Option<string>): Result<string, RankError> {
    if before.Some? && !IsRank(before.value) then Err(InvalidBefore)
    else if after.Some? && !IsRank(after.value) then Err(InvalidAfter)
    else if before.Some? && after.Some? && !Less(before.value, after.value) then Err(OutOfOrder)
    else if before.None? then
      if after.None? then Ok(ZERO_INTEGER) else BeforeRank(after.value)
    else if after.None? then AfterRank(before.value)
    else
      var integerBefore :- IntegerPartOf(before.value);
      var integerAfter :- IntegerPartOf(after.value);
      if integerBefore == integerAfter then
        Ok(integerBefore + Midpoint(before.value[|integerBefore|..], Some(after.value[|integerAfter|..])))
      else match Increment(integerBefore)
        case None => Err(ExhaustedAbove)
        case Some(incremented) =>
          if Less(incremented, after.value) then Ok(incremented)
          else Ok(integerBefore + Midpoint(before.value[|integerBefore|..], None))
  }

  /** What `between` is for: valid, and strictly on the right side of each neighbour given. */
  predicate Inside(before: Option<string>, r: string, after: Option<string>) {
    && IsRank(r)
    && (before.Some? ==> Less(before.value, r))
    && (after.Some? ==> Less(r, after.value))
  }

  predicate ValidNeighbours(before: Option<string>, after: Option<string>) {
    && (before.Some? ==> IsRank(before.value))
    && (after.Some? ==> IsRank(after.value))
    && (before.Some? && after.Some? ==> Less(before.value, after.value))
  }

  /** The one gap with no room in it: nothing sorts below the smallest integer. */
  predicate AtFloor(before: Option<string>, after: Option<string>) {
    before.None? && after == Some(SMALLEST_INTEGER)
  }

  function LengthOf(r: Option<string>): nat {
    if r.Some? then |r.value| else 0
  }

  lemma InsideFraction(x: string, f: string, g: Option<string>)
    requires IsInteger(x) && IsFraction(f) && (g.Some? ==> IsFraction(g.value) && Less(f, g.value))
    ensures var r := x + Midpoint(f, g);
            && IsRank(r) && IntegerOf(r) == x && Less(x + f, r)
            && (g.Some? ==> Less(r, x + g.value))
            && |r| <= |x| + (if g.Some? && |g.value| > |f| then |g.value| else |f|) + 1
  {
    MidpointIsInside(f, g);
    var m := Midpoint(f, g);
    Join(x, m);
    SharedPrefix(x, f, m);
    if g.Some? {
      SharedPrefix(x, m, g.value);
    }
  }

  /** A different integer settles the order whatever the fractions are. */
  lemma IntegerSettles(a: string, b: string)
    requires IsRank(a) && IsRank(b) && IntegerOf(a) != IntegerOf(b)
    ensures Less(a, b) <==> IntegerValue(IntegerOf(a)) < IntegerValue(IntegerOf(b))
  {
    IntegersArePrefixFree(IntegerOf(a), FractionOf(a), IntegerOf(b), FractionOf(b));
    IntegerOrderIff(IntegerOf(a), IntegerOf(b));
  }

  lemma IntegerIsRank(x: string)
    requires IsInteger(x)
    ensures IsRank(x) && IntegerOf(x) == x && FractionOf(x) == ""
  {
  }

  lemma BelowFirst(after: string)
    requires IsRank(after) && after != SMALLEST_INTEGER
    ensures var r := BeforeRank(after); r.Ok? && Inside(None, r.value, Some(after)) && |r.value| <= |after| + 1
  {
    var x, f := IntegerOf(after), FractionOf(after);
    IntegerIsRank(x);
    assert x + "" == x;
    SharedPrefix(x, "", f);
    if x == SMALLEST_INTEGER {
      InsideFraction(x, "", Some(f));
    } else if f == "" {
      Trichotomy(x, x);
      DecrementIsMinusOne(x);
      IntegerIsRank(Decrement(x).value);
      IntegerSettles(Decrement(x).value, after);
    }
  }

  lemma AboveLast(before: string)
    requires IsRank(before)
    ensures var r := AfterRank(before); r.Ok? && Inside(Some(before), r.value, None) && |r.value| <= |before| + 1
  {
    var x, f := IntegerOf(before), FractionOf(before);
    IncrementIsPlusOne(x);
    match Increment(x)
    case Some(y) =>
      IntegerIsRank(y);
      IntegerSettles(before, y);
    case None =>
      InsideFraction(x, f, None);
  }

  lemma InGap(before: string, after: string)
    requires IsRank(before) && IsRank(after) && Less(before, after)
    ensures var r := Between(Some(before), Some(after));
            r.Ok? && Inside(Some(before), r.value, Some(after))
            && |r.value| <= (if |before| > |after| then |before| else |after|) + 1
  {
    var x, f, y, g := IntegerOf(before), FractionOf(before), IntegerOf(after), FractionOf(after);
    hide Midpoint, Increment, IntegerValue;
    if x == y {
      SharedPrefix(x, f, g);
      InsideFraction(x, f, Some(g));
    } else {
      IntegerSettles(before, after);
      IncrementIsPlusOne(x);
      WithinLimits(x);
      WithinLimits(y);
      var next := Increment(x).value;
      IntegerIsRank(next);
      IntegerSettles(before, next);
      InsideFraction(x, f, None);
      IntegerSettles(x + Midpoint(f, None), after);
    }
  }

  /**
   * `between` meets its promise on exactly the valid, ordered neighbours that do not ask for
   * something below the floor; it never reports exhaustion or a malformed integer on any input.
   */
  lemma BetweenIsInside(before: Option<string>, after: Option<string>)
    ensures var r := Between(before, after);
            && (r.Ok? <==> ValidNeighbours(before, after))
            && (r.Ok? ==> IsRank(r.value))
            && (r.Ok? && Inside(before, r.value, after) <==> ValidNeighbours(before, after) && !AtFloor(before, after))
            && (r.Err? ==> r.error in {InvalidBefore, InvalidAfter, OutOfOrder})
  {
    if ValidNeighbours(before, after) {
      if before.None? && after.None? {
        AroundZero();
        IntegerIsRank(ZERO_INTEGER);
      } else if AtFloor(before, after) {
        AtTheFloor();
        Trichotomy(SMALLEST_INTEGER + "0V", SMALLEST_INTEGER);
      } else if before.None? {
        BelowFirst(after.value);
      } else if after.None? {
        AboveLast(before.value);
      } else {
        InGap(before.value, after.value);
      }
    }
  }

  /** The input that fails: asked for room below the floor, `between` answers with a rank above it. */
  lemma AtTheFloor()
    ensures IsRank(SMALLEST_INTEGER) && IsRank(SMALLEST_INTEGER + "0V")
    ensures Between(None, Some(SMALLEST_INTEGER)) == Ok(SMALLEST_INTEGER + "0V")
    ensures Less(SMALLEST_INTEGER, SMALLEST_INTEGER + "0V")
  {
    hide Less, IntegerValue, Number, Limit;
    SmallestValue();
    IntegerIsRank(SMALLEST_INTEGER);
    ProperPrefix(SMALLEST_INTEGER, "0V");
    MidpointOfNothing();
    Join(SMALLEST_INTEGER, "0V");
  }

  /** An empty gap at zero: the two empty ends share no digit, and the search moves up instead. */
  lemma MidpointOfNothing()
    ensures Midpoint("", Some("")) == "0V"
  {
  }

  /**
   * One insertion lengthens a rank by at most one character, but for the first rank of all and the
   * one asked for below the floor, which take two.
   */
  lemma BetweenGrowsByOne(before: Option<string>, after: Option<string>)
    requires ValidNeighbours(before, after)
    ensures var r := Between(before, after);
            var longer := if LengthOf(before) > LengthOf(after) then LengthOf(before) else LengthOf(after);
            r.Ok? &&
            if AtFloor(before, after) || (before.None? && after.None?) then |r.value| == longer + 2
            else |r.value| <= longer + 1
  {
    if before.None? && after.None? {
    } else if AtFloor(before, after) {
      AtTheFloor();
    } else if before.None? {
      BelowFirst(after.value);
    } else if after.None? {
      AboveLast(before.value);
    } else {
      InGap(before.value, after.value);
    }
  }

  /** The integer a rank counts from. */
  function Whole(r: string): int
    requires IsRank(r)
  {
    IntegerValue(IntegerOf(r))
  }

  lemma WholeKeepsOrder(a: string, b: string)
    requires IsRank(a) && IsRank(b) && Less(a, b)
    ensures Whole(a) <= Whole(b)
  {
    if IntegerOf(a) != IntegerOf(b) {
      IntegerSettles(a, b);
    }
  }

  /** One insertion reaches at most one integer below its neighbours. */
  lemma BetweenDescendsByOne(before: Option<string>, after: Option<string>)
    requires ValidNeighbours(before, after) && !AtFloor(before, after)
    ensures var r := Between(before, after);
            r.Ok? && IsRank(r.value) &&
            Whole(r.value) >= if before.Some? then Whole(before.value) else if after.Some? then Whole(after.value) - 1 else 0
  {
    hide Less, Between, IsRank, Whole;
    BetweenIsInside(before, after);
    if before.Some? {
      WholeKeepsOrder(before.value, Between(before, after).value);
    } else if after.Some? {
      BelowFirstDescendsByOne(after.value);
    } else {
      EmptyListStartsAtZero();
    }
  }

  lemma EmptyListStartsAtZero()
    ensures Between(None, None) == Ok(ZERO_INTEGER) && IsRank(ZERO_INTEGER) && Whole(ZERO_INTEGER) == 0
  {
    AroundZero();
    IntegerIsRank(ZERO_INTEGER);
  }

  lemma BelowFirstDescendsByOne(after: string)
    requires IsRank(after) && after != SMALLEST_INTEGER
    ensures Between(None, Some(after)).Ok? && IsRank(Between(None, Some(after)).value)
    ensures Whole(Between(None, Some(after)).value) >= Whole(after) - 1
  {
    var x, f := IntegerOf(after), FractionOf(after);
    BelowFirst(after);
    IntegerIsRank(x);
    assert x + "" == x;
    SharedPrefix(x, "", f);
    if x == SMALLEST_INTEGER {
      InsideFraction(x, "", Some(f));
    } else if f == "" {
      Trichotomy(x, x);
      DecrementIsMinusOne(x);
      IntegerIsRank(Decrement(x).value);
    }
  }

  /** Refusals say which: a neighbour that is no rank, the first one first, or neighbours out of order. */
  lemma RefusalsSayWhy(before: Option<string>, after: Option<string>)
    ensures var r := Between(before, after);
            && (r == Err(InvalidBefore) <==> before.Some? && !IsRank(before.value))
            && (r == Err(InvalidAfter) <==> (before.Some? ==> IsRank(before.value)) && after.Some? && !IsRank(after.value))
            && (r == Err(OutOfOrder) <==>
                  before.Some? && after.Some? && IsRank(before.value) && IsRank(after.value) && !Less(before.value, after.value))
  {
    hide IsRank, Less, Midpoint;
    BetweenIsInside(before, after);
  }
}
