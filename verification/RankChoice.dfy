/** Which rank of a gap is taken: the nearest bare integer if one fits, else the middle one of the shortest. */
module RankChoice {
  import opened Wrappers
  import opened Lexicographic
  import opened RankIntegers
  import opened Ranks

  /* ------------------------------- integers first ------------------------------- */

  /** A rank above an integer counts from a smaller one below it. */
  lemma IntegerAbove(before: string, y: string)
    requires IsRank(before) && IsInteger(y) && Less(before, y)
    ensures IntegerValue(IntegerOf(before)) < IntegerValue(y)
  {
    var x, f := IntegerOf(before), FractionOf(before);
    IntegerIsRank(y);
    if x == y {
      assert y + "" == y && before == y + f;
      SharedPrefix(y, f, "");
    } else {
      IntegerSettles(before, y);
    }
  }

  /** Among the integers strictly between two ranks, the least is the answer. */
  lemma TakesLeastInteger(before: string, after: string, y: string)
    requires IsRank(before) && IsRank(after) && IsInteger(y) && Less(before, y) && Less(y, after)
    ensures var r := Between(Some(before), Some(after));
            r.Ok? && IsInteger(r.value) && Less(before, r.value) && Less(r.value, after)
            && IntegerValue(r.value) <= IntegerValue(y)
  {
    hide Less, Midpoint, Increment, IntegerValue, IsRank, IntegerLength;
    var x := IntegerOf(before);
    IntegerAbove(before, y);
    IntegerIsRank(y);
    Transitive(before, y, after);
    WholeKeepsOrder(y, after);
    IncrementIsPlusOne(x);
    WithinLimits(x);
    WithinLimits(y);
    var next := Increment(x).value;
    IntegerIsRank(next);
    IntegerSettles(before, next);
    IntegerOrderIff(next, y);
    if next != y {
      Transitive(next, y, after);
    }
    PartsOfRank(before);
    PartsOfRank(after);
  }

  lemma PartsOfRank(r: string)
    requires IsRank(r)
    ensures IntegerPartOf(r) == Ok(IntegerOf(r))
  {
  }

  /** Above the last rank, the least integer there is. */
  lemma TakesNextInteger(before: string, y: string)
    requires IsRank(before) && IsInteger(y) && Less(before, y)
    ensures var r := Between(Some(before), None);
            r.Ok? && IsInteger(r.value) && Less(before, r.value) && IntegerValue(r.value) <= IntegerValue(y)
  {
    hide Less, Midpoint, Increment, IntegerValue, IsRank, IntegerLength;
    var x := IntegerOf(before);
    IntegerAbove(before, y);
    IncrementIsPlusOne(x);
    WithinLimits(x);
    WithinLimits(y);
    var next := Increment(x).value;
    IntegerIsRank(next);
    IntegerSettles(before, next);
    PartsOfRank(before);
  }

  /** Below the first rank, the greatest integer there is, unless the first rank already counts from the smallest. */
  lemma TakesPreviousInteger(after: string, y: string)
    requires IsRank(after) && IntegerOf(after) != SMALLEST_INTEGER && IsInteger(y) && Less(y, after)
    ensures var r := Between(None, Some(after));
            r.Ok? && IsInteger(r.value) && Less(r.value, after) && IntegerValue(y) <= IntegerValue(r.value)
  {
    var x, f := IntegerOf(after), FractionOf(after);
    hide Midpoint, Decrement, IntegerValue, IsRank, IntegerLength;
    IntegerIsRank(x);
    IntegerIsRank(y);
    assert x + "" == x;
    SharedPrefix(x, "", f);
    PartsOfRank(after);
    WholeKeepsOrder(y, after);
    if f == "" {
      Trichotomy(x, x);
      IntegerAbove(y, x);
      DecrementIsMinusOne(x);
      IntegerIsRank(Decrement(x).value);
      IntegerSettles(Decrement(x).value, after);
    }
  }

  /** Below a first rank that counts from the smallest integer, and in a gap without an integer, the integer stays. */
  lemma KeepsTheInteger(before: Option<string>, after: string)
    requires IsRank(after) && after != SMALLEST_INTEGER
    requires match before
             case None => IntegerOf(after) == SMALLEST_INTEGER
             case Some(low) => IsRank(low) && Less(low, after)
                               && forall y :: IsInteger(y) && Less(low, y) ==> !Less(y, after)
    ensures var r := Between(before, Some(after));
            && r.Ok? && IsRank(r.value)
            && IntegerOf(r.value) == (if before.Some? then IntegerOf(before.value) else SMALLEST_INTEGER)
  {
    hide Midpoint, IntegerValue;
    BetweenIsInside(before, Some(after));
    var r := Between(before, Some(after)).value;
    match before
    case None =>
      var f := FractionOf(after);
      assert f == "" ==> after == SMALLEST_INTEGER;
      EmptyIsBelow(f);
      InsideFraction(SMALLEST_INTEGER, "", Some(f));
    case Some(low) =>
      WholeKeepsOrder(low, r);
      if IntegerOf(r) != IntegerOf(low) {
        StepsOverAnInteger(low, r, after);
      }
  }

  lemma StepsOverAnInteger(low: string, r: string, after: string)
    requires IsRank(low) && IsRank(r) && Less(low, r) && Less(r, after) && IntegerOf(r) != IntegerOf(low)
    ensures Less(low, IntegerOf(r)) && Less(IntegerOf(r), after)
  {
    hide IntegerValue, IsRank, IntegerLength;
    var y := IntegerOf(r);
    IntegerIsRank(y);
    IntegerSettles(low, r);
    IntegerSettles(low, y);
    if FractionOf(r) == "" {
      assert y + "" == r;
    } else {
      ProperPrefix(y, FractionOf(r));
      Transitive(y, r, after);
    }
  }

  /* ------------------------------- then the shortest fraction ------------------------------- */

  /** Whatever lies in a gap shares the digits its ends share. */
  lemma {:induction false} BetweenSharesDigits(a: string, b: string, x: string, n: nat)
    requires IsFraction(a) && IsDigits(b) && IsFraction(x) && n <= |b| && Less(a, x) && Less(x, b)
    requires forall i :: 0 <= i < n ==> b[i] == if i < |a| then a[i] else ZERO
    ensures n <= |x| && x[..n] == b[..n] && IsFraction(x[n..])
    ensures Less(Drop(a, n), x[n..]) && Less(x[n..], b[n..])
    decreases n
  {
    if n > 0 {
      var a', b', x' := Drop(a, 1), b[1..], x[1..];
      assert b[0] == if |a| > 0 then a[0] else ZERO;
      SharesFirstDigit(a, b, x);
      hide Less, IsFraction, IsDigits;
      forall i | 0 <= i < n - 1
        ensures b'[i] == if i < |a'| then a'[i] else ZERO
      {
        assert b'[i] == b[i + 1];
      }
      BetweenSharesDigits(a', b', x', n - 1);
      PastOneMore(a, b, x, n);
    }
  }

  lemma PastOneMore(a: string, b: string, x: string, n: nat)
    requires 0 < n <= |b| && n <= |x| && x[0] == b[0] && x[1..][..n - 1] == b[1..][..n - 1]
    ensures x[..n] == b[..n] && x[n..] == x[1..][n - 1..] && b[n..] == b[1..][n - 1..]
    ensures Drop(a, n) == Drop(Drop(a, 1), n - 1)
  {
    assert x[..n] == [x[0]] + x[1..][..n - 1] && b[..n] == [b[0]] + b[1..][..n - 1];
  }

  lemma SharesFirstDigit(a: string, b: string, x: string)
    requires IsFraction(a) && IsDigits(b) && IsFraction(x) && b != "" && Less(a, x) && Less(x, b)
    requires b[0] == if |a| > 0 then a[0] else ZERO
    ensures x != "" && x[0] == b[0]
    ensures IsFraction(Drop(a, 1)) && IsDigits(b[1..]) && IsFraction(x[1..])
    ensures Less(Drop(a, 1), x[1..]) && Less(x[1..], b[1..])
  {
    DigitsFromZero(x[0]);
    if a == "" {
      assert x[1..] != "";
    }
  }

  lemma DigitsFromZero(c: char)
    ensures DigitValue(c) >= 0 ==> c >= ZERO
  {
  }

  /** A digit sorts where it counts. */
  lemma DigitOrder(c: char, d: char)
    requires DigitValue(c) >= 0 && DigitValue(d) >= 0
    ensures c < d <==> DigitValue(c) < DigitValue(d)
    ensures c == d <==> DigitValue(c) == DigitValue(d)
    ensures DigitValue(c) < BASE
  {
  }

  /** The ends of a gap; a missing upper end stands for one. */
  predicate IsGap(a: string, b: Option<string>) {
    IsFraction(a) && (b.Some? ==> IsFraction(b.value) && Less(a, b.value))
  }

  predicate Fits(a: string, x: string, b: Option<string>) {
    IsFraction(x) && Less(a, x) && (b.Some? ==> Less(x, b.value))
  }

  function Shared(a: string, b: Option<string>): nat
    requires IsDigits(a) && (b.Some? ==> IsDigits(b.value))
  {
    if b.Some? then SharedDigits(a, b.value, 0) else 0
  }

  /** Past the shared digits, what fits is what fits the rest of the gap. */
  lemma FitsPastShared(a: string, b: string, w: string)
    requires IsGap(a, Some(b)) && IsDigits(w) && Shared(a, Some(b)) > 0
    ensures var n := Shared(a, Some(b));
            IsGap(Drop(a, n), Some(b[n..]))
            && (Fits(a, b[..n] + w, Some(b)) <==> Fits(Drop(a, n), w, Some(b[n..])))
  {
    var n := Shared(a, Some(b));
    BelowSharedDigits(a, b, n);
    var x := b[..n] + w;
    assert x[n..] == w;
    if Fits(a, x, Some(b)) {
      BetweenSharesDigits(a, b, x, n);
    }
    if Fits(Drop(a, n), w, Some(b[n..])) {
      RestoreSharedDigits(a, b, n, w);
    }
  }

  /** Where no digit fits between the first two, what fits begins with the lower and goes on above its rest. */
  lemma FitsPastLow(a: string, b: Option<string>, w: string)
    requires IsGap(a, b) && Shared(a, b) == 0 && IsDigits(w)
    requires var low, high := FirstDigit(a), if b.Some? then FirstDigit(b.value) else BASE;
             high - low <= 1 && !(b.Some? && |b.value| > 1)
    ensures FirstDigit(a) < BASE
    ensures w != "" ==> (Fits(a, [DigitAt(FirstDigit(a))] + w, b) <==> Fits(Drop(a, 1), w, None))
  {
    var low := FirstDigit(a);
    if a != "" {
      DigitOrder(a[0], a[0]);
    }
    DigitRoundTrip(low);
    var x := [DigitAt(low)] + w;
    assert x[1..] == w;
    if b.Some? {
      assert b.value != "" && IsDigits(b.value);
      DigitOrder(x[0], b.value[0]);
    }
    if a != "" {
      DigitOrder(a[0], x[0]);
    }
  }

  lemma StartsLow(a: string, b: Option<string>, x: string)
    requires IsGap(a, b) && Shared(a, b) == 0 && Fits(a, x, b)
    requires var low, high := FirstDigit(a), if b.Some? then FirstDigit(b.value) else BASE;
             high - low <= 1 && !(b.Some? && |b.value| > 1)
    ensures FirstDigit(a) < BASE && x[1..] != "" && x == [DigitAt(FirstDigit(a))] + x[1..]
  {
    var low := FirstDigit(a);
    DigitOrder(x[0], x[0]);
    if a != "" {
      DigitOrder(a[0], x[0]);
    }
    if b.Some? {
      DigitOrder(x[0], b.value[0]);
      NothingBelowEmpty(x[1..]);
      assert b.value[1..] == "";
    }
    assert DigitValue(x[0]) == low;
    DigitRoundTrip(low);
    DigitOrder(x[0], DigitAt(low));
    if a == "" {
      assert x[0] == ZERO;
    } else {
      NothingBelowEmpty(a[1..]);
    }
    assert x == [x[0]] + x[1..];
  }

  /** Nothing that fits the gap is shorter than the midpoint. */
  lemma {:induction false} MidpointIsShortest(a: string, b: Option<string>, x: string)
    requires IsGap(a, b) && Fits(a, x, b)
    ensures |Midpoint(a, b)| <= |x|
    decreases if b.Some? then |b.value| + 1 else 0, |a|
  {
    hide Fits, Less;
    var n := Shared(a, b);
    if n > 0 {
      FitsMeans(a, b, x);
      BetweenSharesDigits(a, b.value, x, n);
      var w := x[n..];
      assert x == b.value[..n] + w;
      FitsPastShared(a, b.value, w);
      MidpointIsShortest(Drop(a, n), Some(b.value[n..]), w);
    } else {
      var low, high := FirstDigit(a), if b.Some? then FirstDigit(b.value) else BASE;
      FitsMeans(a, b, x);
      if high - low <= 1 && !(b.Some? && |b.value| > 1) {
        StartsLow(a, b, x);
        FitsPastLow(a, b, x[1..]);
        MidpointIsShortest(Drop(a, 1), None, x[1..]);
      }
    }
  }

  lemma FitsMeans(a: string, b: Option<string>, x: string)
    requires Fits(a, x, b)
    ensures IsFraction(x) && IsDigits(x) && Less(a, x) && (b.Some? ==> Less(x, b.value)) && x != ""
  {
  }

  /** A digit that may stand last. */
  predicate FitsLast(a: string, q: string, d: nat, b: Option<string>)
    requires d < BASE
  {
    Fits(a, q + [DigitAt(d)], b)
  }

  /** Of the digits that could stand last in the midpoint it has the middle one, within rounding. */
  lemma {:induction false} MidpointIsCentral(a: string, b: Option<string>) returns (least: nat, greatest: nat)
    requires IsGap(a, b)
    ensures var m := Midpoint(a, b);
            m != "" &&
            var q, v := m[..|m| - 1], DigitValue(m[|m| - 1]);
            && 0 <= v < BASE && -1 <= 2 * v - (least + greatest) <= 1
            && forall d: nat :: d < BASE ==> (FitsLast(a, q, d, b) <==> least <= d <= greatest)
    decreases if b.Some? then |b.value| + 1 else 0, |a|
  {
    hide Fits, Less, Midpoint, NoTrailingZero, SharedDigits;
    MidpointUnfolds(a, b);
    var n := Shared(a, b);
    if n > 0 {
      var a', b' := Drop(a, n), b.value[n..];
      SharedGap(a, b.value);
      least, greatest := MidpointIsCentral(a', Some(b'));
      CentralInFront(a, b, b.value[..n], a', Some(b'), Midpoint(a', Some(b')), least, greatest);
    } else {
      var low, high := FirstDigit(a), if b.Some? then FirstDigit(b.value) else BASE;
      if high - low <= 1 && !(b.Some? && |b.value| > 1) {
        var a' := Drop(a, 1);
        LowGap(a, b);
        least, greatest := MidpointIsCentral(a', None);
        CentralInFront(a, b, [DigitAt(low)], a', None, Midpoint(a', None), least, greatest);
      } else {
        DigitOfOne(a, b);
        least, greatest := low + 1, if b.Some? && |b.value| > 1 then high else high - 1;
        OneDigitFits(a, b);
        assert Midpoint(a, b)[..0] == "";
      }
    }
  }

  /** How the search for a midpoint goes on in a smaller gap. */
  lemma MidpointUnfolds(a: string, b: Option<string>)
    requires IsGap(a, b)
    ensures var n := Shared(a, b);
            n > 0 ==> Midpoint(a, b) == b.value[..n] + Midpoint(Drop(a, n), Some(b.value[n..]))
    ensures var low, high := FirstDigit(a), if b.Some? then FirstDigit(b.value) else BASE;
            Shared(a, b) == 0 && high - low <= 1 && !(b.Some? && |b.value| > 1) ==>
              0 <= low < BASE && Midpoint(a, b) == [DigitAt(low)] + Midpoint(Drop(a, 1), None)
  {
    if a != "" {
      DigitOrder(a[0], a[0]);
    }
  }

  lemma SharedGap(a: string, b: string)
    requires IsGap(a, Some(b)) && Shared(a, Some(b)) > 0
    ensures var n := Shared(a, Some(b));
            && IsGap(Drop(a, n), Some(b[n..]))
            && forall w: string :: IsDigits(w) && w != "" ==> (Fits(a, b[..n] + w, Some(b)) <==> Fits(Drop(a, n), w, Some(b[n..])))
  {
    hide Fits, Less;
    var n := Shared(a, Some(b));
    forall w: string | IsDigits(w)
      ensures IsGap(Drop(a, n), Some(b[n..])) && (Fits(a, b[..n] + w, Some(b)) <==> Fits(Drop(a, n), w, Some(b[n..])))
    {
      FitsPastShared(a, b, w);
    }
    assert IsDigits("");
  }

  lemma LowGap(a: string, b: Option<string>)
    requires IsGap(a, b) && Shared(a, b) == 0
    requires var low, high := FirstDigit(a), if b.Some? then FirstDigit(b.value) else BASE;
             high - low <= 1 && !(b.Some? && |b.value| > 1)
    ensures IsGap(Drop(a, 1), None) && 0 <= FirstDigit(a) < BASE
    ensures forall w: string :: IsDigits(w) && w != "" ==>
              (Fits(a, [DigitAt(FirstDigit(a))] + w, b) <==> Fits(Drop(a, 1), w, None))
  {
    hide Fits, Less;
    FitsPastLow(a, b, "");
    forall w: string | IsDigits(w) && w != ""
      ensures Fits(a, [DigitAt(FirstDigit(a))] + w, b) <==> Fits(Drop(a, 1), w, None)
    {
      FitsPastLow(a, b, w);
    }
  }

  /** What the last digit may be is the same behind more digits. */
  lemma CentralInFront(a: string, b: Option<string>, p: string, a': string, b': Option<string>, m': string, least: nat, greatest: nat)
    requires m' != "" && IsDigits(m')
    requires var q := m'[..|m'| - 1];
             && (forall d: nat :: d < BASE ==> (FitsLast(a', q, d, b') <==> least <= d <= greatest))
             && (forall w: string :: IsDigits(w) && w != "" ==> (Fits(a, p + w, b) <==> Fits(a', w, b')))
    ensures var m := p + m';
            var q := m[..|m| - 1];
            && m[|m| - 1] == m'[|m'| - 1]
            && forall d: nat :: d < BASE ==> (FitsLast(a, q, d, b) <==> least <= d <= greatest)
  {
    hide Fits;
    var m := p + m';
    var q, q' := m[..|m| - 1], m'[..|m'| - 1];
    assert q == p + q';
    forall d: nat | d < BASE
      ensures FitsLast(a, q, d, b) <==> FitsLast(a', q', d, b')
    {
      var w := q' + [DigitAt(d)];
      DigitRoundTrip(d);
      assert q + [DigitAt(d)] == p + w;
      assert IsDigits(w);
    }
  }

  /** Which single digits fit. */
  lemma OneDigitFits(a: string, b: Option<string>)
    requires IsGap(a, b) && Shared(a, b) == 0
    ensures var low, high := FirstDigit(a), if b.Some? then FirstDigit(b.value) else BASE;
            forall d: nat :: d < BASE ==>
              (FitsLast(a, "", d, b) <==> low < d && (d < high || (d == high && b.Some? && |b.value| > 1)))
  {
    forall d: nat | d < BASE
      ensures var low, high := FirstDigit(a), if b.Some? then FirstDigit(b.value) else BASE;
              FitsLast(a, "", d, b) <==> low < d && (d < high || (d == high && b.Some? && |b.value| > 1))
    {
      DigitRoundTrip(d);
      var x := "" + [DigitAt(d)];
      assert x == [DigitAt(d)];
      OneDigitAbove(a, DigitAt(d));
      if b.Some? {
        OneDigitBelow(DigitAt(d), b.value);
      }
    }
  }

  lemma OneDigitAbove(a: string, c: char)
    requires IsFraction(a) && DigitValue(c) >= 0
    ensures IsFraction([c]) && Less(a, [c]) <==> FirstDigit(a) < DigitValue(c)
  {
    DigitOrder(c, ZERO);
    assert DigitValue(ZERO) == 0 && [c][1..] == "";
    if a != "" {
      DigitOrder(a[0], c);
      NothingBelowEmpty(a[1..]);
    }
  }

  lemma OneDigitBelow(c: char, b: string)
    requires IsFraction(b) && b != "" && DigitValue(c) >= 0
    ensures Less([c], b) <==> DigitValue(c) < FirstDigit(b) || (DigitValue(c) == FirstDigit(b) && |b| > 1)
  {
    DigitOrder(c, b[0]);
    assert [c][1..] == "" && (b[1..] != "" <==> |b| > 1);
  }

  lemma DigitOfOne(a: string, b: Option<string>)
    requires IsGap(a, b) && Shared(a, b) == 0
    requires var low, high := FirstDigit(a), if b.Some? then FirstDigit(b.value) else BASE;
             !(high - low <= 1 && !(b.Some? && |b.value| > 1))
    ensures var low, high := FirstDigit(a), if b.Some? then FirstDigit(b.value) else BASE;
            var m := Midpoint(a, b);
            && |m| == 1 && 0 <= low < high <= BASE
            && DigitValue(m[0]) == if high - low > 1 then (low + high + 1) / 2 else high
  {
    var low, high := FirstDigit(a), if b.Some? then FirstDigit(b.value) else BASE;
    if a != "" {
      DigitOrder(a[0], a[0]);
    }
    if b.Some? {
      DigitOrder(b.value[0], b.value[0]);
      if a != "" {
        DigitOrder(a[0], b.value[0]);
      }
    }
    if high - low > 1 {
      DigitRoundTrip((low + high + 1) / 2);
    }
  }

  /* ------------------------------- what is answered ------------------------------- */

  /** In a gap without an integer nothing shorter fits. */
  lemma ShortestWithoutInteger(before: string, after: string, s: string)
    requires IsRank(before) && IsRank(after) && Less(before, after)
    requires forall y :: IsInteger(y) && Less(before, y) ==> !Less(y, after)
    requires IsRank(s) && Less(before, s) && Less(s, after)
    ensures Between(Some(before), Some(after)).Ok? && |Between(Some(before), Some(after)).value| <= |s|
  {
    hide Midpoint, IntegerValue, Less, IsFraction, IntegerLength, Increment, IsRank;
    var x, f, g, h := IntegerOf(before), FractionOf(before), FractionOf(after), FractionOf(s);
    if IntegerOf(s) != x {
      StepsOverAnInteger(before, s, after);
    }
    PartsOfRank(before);
    PartsOfRank(after);
    SharedPrefix(x, f, h);
    if IntegerOf(after) == x {
      SharedPrefix(x, f, g);
      SharedPrefix(x, h, g);
      FractionFits(f, Some(g), h);
    } else {
      IntegerSettles(before, after);
      IncrementIsPlusOne(x);
      WithinLimits(x);
      WithinLimits(IntegerOf(after));
      var next := Increment(x).value;
      IntegerIsRank(next);
      IntegerSettles(before, next);
      FractionFits(f, None, h);
    }
  }

  lemma FractionFits(a: string, b: Option<string>, x: string)
    requires IsGap(a, b) && IsFraction(x) && Less(a, x) && (b.Some? ==> Less(x, b.value))
    ensures |Midpoint(a, b)| <= |x|
  {
    hide Midpoint, Less;
    assert Fits(a, x, b);
    MidpointIsShortest(a, b, x);
  }

  /** With an integer in the gap a shorter rank may fit: ranks far below zero are long. */
  lemma LeastIntegerMayBeLonger()
    ensures IsRank("Y00") && IsRank("a5") && IsInteger("a0") && Less("Y00", "a0") && Less("a0", "a5")
    ensures Between(Some("Y00"), Some("a5")) == Ok("Y01")
  {
    assert Increment("Y00") == Some("Y01") by {
      assert "Y00"[1..] == "00" && "00"[..1] == "0" && DigitAt(1) == '1';
      assert Successor("00") == ("0" + "1", false);
      assert ['Y'] + ("0" + "1") == "Y01";
    }
    PartsOfRank("Y00");
    PartsOfRank("a5");
    assert "Y00"[..3] == "Y00" && "a5"[..2] == "a5";
    assert Less("Y00", "a5") && Less("Y01", "a5") && "Y00" != "a5";
  }
}
