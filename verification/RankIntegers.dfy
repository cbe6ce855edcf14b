/** The alphabet of a rank and its self-describing integer part. */
module RankIntegers {
  import opened Wrappers
  import opened Lexicographic

  const DIGITS := "0123456789"
  const UPPER := "ABCDEFGHIJKLMNOPQRSTUVWXYZ"
  const LOWER := "abcdefghijklmnopqrstuvwxyz"

  /** 62 digits in ASCII order. */
  const RANK_DIGITS := DIGITS + UPPER + LOWER
  const BASE := 62
  const ZERO := '0'
  const LAST := 'z'

  /** Index of a digit in the alphabet, or -1. */
  function DigitValue(c: char): int {
    if '0' <= c <= '9' then c as int - '0' as int
    else if 'A' <= c <= 'Z' then c as int - 'A' as int + 10
    else if 'a' <= c <= 'z' then c as int - 'a' as int + 36
    else -1
  }

  function DigitAt(value: nat): char
    requires value < BASE
  {
    if value < 10 then (value + '0' as int) as char
    else if value < 36 then (value - 10 + 'A' as int) as char
    else (value - 36 + 'a' as int) as char
  }

  lemma AlphabetAt(v: nat)
    requires v < BASE
    ensures |RANK_DIGITS| == BASE && DigitAt(v) == RANK_DIGITS[v]
  {
  }

  /** The two functions above are exactly lookups in the alphabet, which is ascending. */
  lemma AlphabetLookup(v: nat, w: nat)
    requires v < w < BASE
    ensures |RANK_DIGITS| == BASE
    ensures DigitAt(v) == RANK_DIGITS[v] && DigitValue(RANK_DIGITS[v]) == v
    ensures RANK_DIGITS[v] < RANK_DIGITS[w]
  {
    AlphabetAt(v);
    AlphabetAt(w);
    hide RANK_DIGITS;
  }

  lemma NotInTheAlphabet(c: char)
    ensures DigitValue(c) == -1 <==> c !in RANK_DIGITS
  {
    if DigitValue(c) >= 0 {
      AlphabetAt(DigitValue(c));
    } else if c in RANK_DIGITS {
      var i :| 0 <= i < |RANK_DIGITS| && RANK_DIGITS[i] == c;
      AlphabetAt(i);
    }
  }

  predicate IsDigits(s: string) {
    forall i :: 0 <= i < |s| ==> DigitValue(s[i]) >= 0
  }

  function Power(n: nat): (p: int)
    ensures p >= 1
  {
    if n == 0 then 1 else BASE * Power(n - 1)
  }

  /** 62 + 62^2 + ... + 62^n: how many integers need at most n digits, per sign. */
  function Count(n: nat): (c: int)
    ensures c >= 0
  {
    if n == 0 then 0 else Count(n - 1) + Power(n)
  }

  lemma {:induction false} CountMonotone(m: nat, n: nat)
    requires m <= n
    ensures Count(m) <= Count(n)
  {
    if m < n {
      CountMonotone(m, n - 1);
    }
  }

  /** The number a digit string denotes. */
  function Number(d: string): int
  {
    if d == "" then 0 else Number(d[..|d| - 1]) * BASE + DigitValue(d[|d| - 1])
  }

  lemma {:induction false} NumberBounds(d: string)
    requires IsDigits(d)
    ensures 0 <= Number(d) < Power(|d|)
  {
    if d != "" {
      NumberBounds(d[..|d| - 1]);
    }
  }

  lemma {:induction false} NumberFromFront(c: char, d: string)
    ensures Number([c] + d) == DigitValue(c) * Power(|d|) + Number(d)
  {
    var s := [c] + d;
    if d == "" {
      assert s[..|s| - 1] == "";
    } else {
      assert s[..|s| - 1] == [c] + d[..|d| - 1];
      NumberFromFront(c, d[..|d| - 1]);
      assert Power(|d|) == BASE * Power(|d| - 1);
      hide Power, Number, DigitValue;
      Rescale(DigitValue(c), Power(|d| - 1), Number(d[..|d| - 1]), DigitValue(d[|d| - 1]));
    }
  }

  lemma Rescale(x: int, p: int, n: int, v: int)
    ensures (x * p + n) * BASE + v == x * (BASE * p) + (n * BASE + v)
  {
  }

  lemma LeadingDigitDecides(x: int, y: int, p: int, m: int, n: int)
    requires x < y && 0 <= m < p && 0 <= n
    ensures x * p + m < y * p + n
  {
    assert (x + 1) * p <= y * p;
  }

  /** Equally long digit strings compare as the numbers they denote. */
  lemma {:induction false} NumberOrder(a: string, b: string)
    requires IsDigits(a) && IsDigits(b) && |a| == |b| && Less(a, b)
    ensures Number(a) < Number(b)
  {
    var a', b' := a[1..], b[1..];
    var m, n := Number(a'), Number(b');
    assert Number(a) == DigitValue(a[0]) * Power(|a'|) + m by {
      NumberFromFront(a[0], a');
      assert a == [a[0]] + a';
    }
    assert Number(b) == DigitValue(b[0]) * Power(|a'|) + n by {
      NumberFromFront(b[0], b');
      assert b == [b[0]] + b';
    }
    if a[0] == b[0] {
      NumberOrder(a', b');
    } else {
      NumberBounds(a');
      NumberBounds(b');
      LeadingDigitDecides(DigitValue(a[0]), DigitValue(b[0]), Power(|a'|), m, n);
    }
  }

  /** Total length of the integer a head character announces, or -1. */
  function IntegerLength(head: char): int {
    if 'a' <= head <= 'z' then head as int - 'a' as int + 2
    else if 'A' <= head <= 'Z' then 'Z' as int - head as int + 2
    else -1
  }

  predicate IsInteger(x: string) {
    x != "" && IntegerLength(x[0]) == |x| && IsDigits(x)
  }

  /** Lowercase heads count up from zero, uppercase heads down from minus one. */
  function IntegerValue(x: string): int
    requires IsInteger(x)
  {
    if x[0] >= 'a' then Count(|x| - 2) + Number(x[1..]) else Number(x[1..]) - Count(|x| - 1)
  }

  const ZERO_INTEGER := "a0"
  /** How many digits the longest integers have. */
  const MAX_DIGITS := 26
  const SMALLEST_INTEGER := "A" + Repeat(ZERO, MAX_DIGITS)
  const LARGEST_INTEGER := "z" + Repeat(LAST, MAX_DIGITS)

  function Repeat(c: char, n: nat): (s: string)
    ensures |s| == n && forall i :: 0 <= i < n ==> s[i] == c
  {
    if n == 0 then "" else Repeat(c, n - 1) + [c]
  }

  /** How many integers the encoding has on each side of zero. */
  ghost function Limit(): int {
    Count(|LARGEST_INTEGER| - 1)
  }

  /** Where the integers under one head lie. */
  lemma IntegerRange(x: string)
    requires IsInteger(x)
    ensures x[0] >= 'a' ==> Count(|x| - 2) <= IntegerValue(x) < Count(|x| - 1)
    ensures x[0] < 'a' ==> -Count(|x| - 1) <= IntegerValue(x) < -Count(|x| - 2)
  {
    NumberBounds(x[1..]);
  }

  /** Longer is larger among the non-negative and smaller among the negative. */
  lemma IntegerOrder(x: string, y: string)
    requires IsInteger(x) && IsInteger(y) && Less(x, y)
    ensures IntegerValue(x) < IntegerValue(y)
  {
    IntegerRange(x);
    IntegerRange(y);
    if x[0] == y[0] {
      NumberOrder(x[1..], y[1..]);
    } else if x[0] >= 'a' {
      CountMonotone(|x| - 1, |y| - 2);
    } else if y[0] < 'a' {
      CountMonotone(|y| - 1, |x| - 2);
    }
  }

  /** Distinct integers denote distinct values, and the order agrees both ways. */
  lemma IntegerOrderIff(x: string, y: string)
    requires IsInteger(x) && IsInteger(y)
    ensures Less(x, y) <==> IntegerValue(x) < IntegerValue(y)
    ensures x == y <==> IntegerValue(x) == IntegerValue(y)
  {
    Trichotomy(x, y);
    if Less(x, y) {
      IntegerOrder(x, y);
    } else if Less(y, x) {
      IntegerOrder(y, x);
    }
  }

  /** No integer is a proper prefix of another. */
  lemma IntegersArePrefixFree(x: string, f: string, y: string, g: string)
    requires IsInteger(x) && IsInteger(y) && x != y
    ensures Less(x + f, y + g) <==> Less(x, y)
  {
    if x[0] == y[0] {
      FrontsDecide(x, f, y, g);
    }
  }

  /* ---------------------------- one step up, one step down ---------------------------- */

  /** Digits plus one, and whether every digit wrapped. */
  function Successor(d: string): (string, bool)
    requires IsDigits(d)
  {
    if d == "" then (d, true)
    else
      var front, next := d[..|d| - 1], DigitValue(d[|d| - 1]) + 1;
      if next == BASE then
        var (digits, carry) := Successor(front);
        (digits + [ZERO], carry)
      else (front + [DigitAt(next)], false)
  }

  /** Digits minus one, and whether every digit wrapped. */
  function Predecessor(d: string): (string, bool)
    requires IsDigits(d)
  {
    if d == "" then (d, true)
    else
      var front, next := d[..|d| - 1], DigitValue(d[|d| - 1]) - 1;
      if next == -1 then
        var (digits, borrow) := Predecessor(front);
        (digits + [LAST], borrow)
      else (front + [DigitAt(next)], false)
  }

  lemma DigitRoundTrip(v: nat)
    requires v < BASE
    ensures DigitValue(DigitAt(v)) == v
  {
  }

  lemma {:induction false} SuccessorValue(d: string)
    requires IsDigits(d)
    ensures var (s, carry) := Successor(d);
            IsDigits(s) && |s| == |d| && Number(s) + (if carry then Power(|d|) else 0) == Number(d) + 1
  {
    if d != "" {
      var front, next := d[..|d| - 1], DigitValue(d[|d| - 1]) + 1;
      if next == BASE {
        SuccessorValue(front);
        OneMoreDigit(Successor(front).0, ZERO);
      } else {
        DigitRoundTrip(next);
        OneMoreDigit(front, DigitAt(next));
      }
    }
  }

  lemma {:induction false} PredecessorValue(d: string)
    requires IsDigits(d)
    ensures var (s, borrow) := Predecessor(d);
            IsDigits(s) && |s| == |d| && Number(s) - (if borrow then Power(|d|) else 0) == Number(d) - 1
  {
    if d != "" {
      var front, next := d[..|d| - 1], DigitValue(d[|d| - 1]) - 1;
      if next == -1 {
        PredecessorValue(front);
        OneMoreDigit(Predecessor(front).0, LAST);
      } else {
        DigitRoundTrip(next);
        OneMoreDigit(front, DigitAt(next));
      }
    }
  }

  function NextHead(head: char, step: int): char
    requires IntegerLength(head) > 0 && -1 <= step <= 1
  {
    (head as int + step) as char
  }

  /** The next integer, or none when the encoding is exhausted. */
  function Increment(x: string): (r: Option<string>)
    requires IsInteger(x)
    ensures r.Some? ==> |r.value| <= |x| + 1
  {
    SuccessorValue(x[1..]);
    var head := x[0];
    var (digits, carry) := Successor(x[1..]);
    if !carry then Some([head] + digits)
    else if head == 'Z' then Some(ZERO_INTEGER)
    else if head == 'z' then None
    else if NextHead(head, 1) > 'a' then Some([NextHead(head, 1)] + digits + [ZERO])
    else Some([NextHead(head, 1)] + digits[..|digits| - 1])
  }

  /** The previous integer, or none when the encoding is exhausted. */
  function Decrement(x: string): (r: Option<string>)
    requires IsInteger(x)
    ensures r.Some? ==> |r.value| <= |x| + 1
  {
    PredecessorValue(x[1..]);
    var head := x[0];
    var (digits, borrow) := Predecessor(x[1..]);
    if !borrow then Some([head] + digits)
    else if head == 'a' then Some("Z" + [LAST])
    else if head == 'A' then None
    else if NextHead(head, -1) < 'Z' then Some([NextHead(head, -1)] + digits + [LAST])
    else Some([NextHead(head, -1)] + digits[..|digits| - 1])
  }

  lemma Assembled(head: char, t: string)
    requires IntegerLength(head) == |t| + 1 && IsDigits(t)
    ensures IsInteger([head] + t)
    ensures IntegerValue([head] + t) == if head >= 'a' then Count(|t| - 1) + Number(t) else Number(t) - Count(|t|)
  {
  }

  lemma OneMoreDigit(t: string, c: char)
    requires IsDigits(t) && DigitValue(c) >= 0
    ensures IsDigits(t + [c]) && Number(t + [c]) == Number(t) * BASE + DigitValue(c)
  {
  }

  /** The integer whose digits are all zero or all last, under a given head. */
  lemma EdgeOfHead(head: char, t: string)
    requires IntegerLength(head) == |t| + 1 && IsDigits(t)
    requires Number(t) == 0 || Number(t) == Power(|t|) - 1
    ensures IsInteger([head] + t)
    ensures head >= 'a' && Number(t) == 0 ==> IntegerValue([head] + t) == Count(|t| - 1)
    ensures head >= 'a' && Number(t) != 0 ==> IntegerValue([head] + t) == Count(|t|) - 1
    ensures head < 'a' && Number(t) == 0 ==> IntegerValue([head] + t) == -Count(|t|)
    ensures head < 'a' && Number(t) != 0 ==> IntegerValue([head] + t) == -Count(|t| - 1) - 1
  {
  }

  /** The two integers on either side of the sign change. */
  lemma AroundZero()
    ensures IsInteger("a0") && IntegerValue("a0") == 0
    ensures IsInteger("Zz") && IntegerValue("Zz") == -1
  {
  }

  /** After a full carry only zeros are left, in a run of whatever length the next head needs. */
  lemma ZeroRuns(s: string)
    requires IsDigits(s) && s != "" && Number(s) == 0
    ensures IsDigits(s + [ZERO]) && Number(s + [ZERO]) == 0
    ensures IsDigits(s[..|s| - 1]) && Number(s[..|s| - 1]) == 0
  {
  }

  lemma LastRuns(s: string)
    requires IsDigits(s) && s != "" && Number(s) == Power(|s|) - 1
    ensures IsDigits(s + [LAST]) && Number(s + [LAST]) == Power(|s| + 1) - 1
    ensures IsDigits(s[..|s| - 1]) && Number(s[..|s| - 1]) == Power(|s| - 1) - 1
  {
  }

  /** The three ways out of the loop with the carry still set. */
  lemma IncrementAfterCarry(head: char, s: string, y: string)
    requires IntegerLength(head) == |s| + 1 && IsDigits(s) && Number(s) == 0 && head != 'z'
    requires y == if head == 'Z' then ZERO_INTEGER
                  else if NextHead(head, 1) > 'a' then [NextHead(head, 1)] + (s + [ZERO])
                  else [NextHead(head, 1)] + s[..|s| - 1]
    ensures IsInteger(y) && IntegerValue(y) == if head >= 'a' then Count(|s|) else -Count(|s| - 1)
  {
    hide Number, Power, IsInteger;
    ZeroRuns(s);
    if head == 'Z' {
      AroundZero();
    } else if NextHead(head, 1) > 'a' {
      EdgeOfHead(NextHead(head, 1), s + [ZERO]);
    } else {
      EdgeOfHead(NextHead(head, 1), s[..|s| - 1]);
    }
  }

  /** The three ways out of the loop with the borrow still set. */
  lemma DecrementAfterBorrow(head: char, s: string, y: string)
    requires IntegerLength(head) == |s| + 1 && IsDigits(s) && Number(s) == Power(|s|) - 1 && head != 'A'
    requires y == if head == 'a' then "Zz"
                  else if NextHead(head, -1) < 'Z' then [NextHead(head, -1)] + (s + [LAST])
                  else [NextHead(head, -1)] + s[..|s| - 1]
    ensures IsInteger(y) && IntegerValue(y) == (if head >= 'a' then Count(|s| - 1) else -Count(|s|)) - 1
  {
    hide Number, IsInteger;
    LastRuns(s);
    if head == 'a' {
      AroundZero();
    } else if NextHead(head, -1) < 'Z' {
      EdgeOfHead(NextHead(head, -1), s + [LAST]);
    } else {
      EdgeOfHead(NextHead(head, -1), s[..|s| - 1]);
    }
  }

  lemma IncrementValue(x: string)
    requires IsInteger(x) && Increment(x).Some?
    ensures var y := Increment(x).value; IsInteger(y) && IntegerValue(y) == IntegerValue(x) + 1
  {
    hide Successor, Number, DigitValue;
    var head, d := x[0], x[1..];
    var (s, carry) := Successor(d);
    SuccessorValue(d);
    assert x == [head] + d;
    if carry {
      NumberBounds(s);
      NumberBounds(d);
      EdgeOfHead(head, d);
      assert [NextHead(head, 1)] + s + [ZERO] == [NextHead(head, 1)] + (s + [ZERO]);
      IncrementAfterCarry(head, s, Increment(x).value);
    } else {
      Assembled(head, s);
    }
  }

  lemma DecrementValue(x: string)
    requires IsInteger(x) && Decrement(x).Some?
    ensures var y := Decrement(x).value; IsInteger(y) && IntegerValue(y) == IntegerValue(x) - 1
  {
    hide Predecessor, Number, DigitValue;
    var head, d := x[0], x[1..];
    var (s, borrow) := Predecessor(d);
    PredecessorValue(d);
    assert x == [head] + d;
    if borrow {
      NumberBounds(s);
      NumberBounds(d);
      EdgeOfHead(head, d);
      assert head != 'a' ==> [NextHead(head, -1)] + s + [LAST] == [NextHead(head, -1)] + (s + [LAST]);
      DecrementAfterBorrow(head, s, Decrement(x).value);
    } else {
      Assembled(head, s);
    }
  }

  /** Every integer lies within the encoding's limits, which only the extremes reach. */
  lemma WithinLimits(x: string)
    requires IsInteger(x)
    ensures -Limit() <= IntegerValue(x) < Limit()
    ensures IntegerValue(x) == Limit() - 1 <==> x == LARGEST_INTEGER
    ensures IntegerValue(x) == -Limit() <==> x == SMALLEST_INTEGER
  {
    hide Number, Count, IntegerValue, DigitValue;
    IntegerRange(x);
    CountMonotone(|x| - 1, |LARGEST_INTEGER| - 1);
    LargestValue();
    SmallestValue();
    IntegerOrderIff(x, LARGEST_INTEGER);
    IntegerOrderIff(x, SMALLEST_INTEGER);
  }

  /** Increment is exactly plus one on the denoted integer, and is missing only at the top. */
  lemma IncrementIsPlusOne(x: string)
    requires IsInteger(x)
    ensures Increment(x).None? <==> x == LARGEST_INTEGER
    ensures Increment(x).Some? ==>
              var y := Increment(x).value; IsInteger(y) && IntegerValue(y) == IntegerValue(x) + 1
  {
    WithinLimits(x);
    if Increment(x).Some? {
      IncrementValue(x);
      WithinLimits(Increment(x).value);
    } else {
      TopWraps(x);
    }
  }

  /** Decrement is exactly minus one, and is missing only at the bottom. */
  lemma DecrementIsMinusOne(x: string)
    requires IsInteger(x)
    ensures Decrement(x).None? <==> x == SMALLEST_INTEGER
    ensures Decrement(x).Some? ==>
              var y := Decrement(x).value; IsInteger(y) && IntegerValue(y) == IntegerValue(x) - 1
  {
    WithinLimits(x);
    if Decrement(x).Some? {
      DecrementValue(x);
      WithinLimits(Decrement(x).value);
    } else {
      BottomWraps(x);
    }
  }

  lemma TopWraps(x: string)
    requires IsInteger(x) && Increment(x).None?
    ensures IntegerValue(x) == Limit() - 1
  {
    hide Successor, Number, DigitValue, Power;
    SuccessorValue(x[1..]);
    NumberBounds(Successor(x[1..]).0);
    NumberBounds(x[1..]);
    assert |x| == |LARGEST_INTEGER|;
  }

  lemma BottomWraps(x: string)
    requires IsInteger(x) && Decrement(x).None?
    ensures IntegerValue(x) == -Limit()
  {
    hide Predecessor, Number, DigitValue, Power;
    PredecessorValue(x[1..]);
    NumberBounds(Predecessor(x[1..]).0);
    NumberBounds(x[1..]);
    assert |x| == |LARGEST_INTEGER|;
  }

  lemma LargestValue()
    ensures IsInteger(LARGEST_INTEGER) && IntegerValue(LARGEST_INTEGER) == Limit() - 1
  {
    AllLast(LARGEST_INTEGER[1..]);
  }

  lemma {:induction false} AllLast(d: string)
    requires forall i :: 0 <= i < |d| ==> d[i] == LAST
    ensures Number(d) == Power(|d|) - 1
  {
    if d != "" {
      AllLast(d[..|d| - 1]);
    }
  }

  lemma SmallestValue()
    ensures IsInteger(SMALLEST_INTEGER) && IntegerValue(SMALLEST_INTEGER) == -Limit()
  {
    AllZero(SMALLEST_INTEGER[1..]);
  }

  lemma {:induction false} AllZero(d: string)
    requires forall i :: 0 <= i < |d| ==> d[i] == ZERO
    ensures Number(d) == 0
  {
    if d != "" {
      AllZero(d[..|d| - 1]);
    }
  }

  /** Where both steps exist they undo each other. */
  lemma StepsAreInverse(x: string)
    requires IsInteger(x)
    ensures Increment(x).Some? ==> IsInteger(Increment(x).value) && Decrement(Increment(x).value) == Some(x)
    ensures Decrement(x).Some? ==> IsInteger(Decrement(x).value) && Increment(Decrement(x).value) == Some(x)
  {
    IncrementIsPlusOne(x);
    DecrementIsMinusOne(x);
    WithinLimits(x);
    if Increment(x).Some? {
      var y := Increment(x).value;
      WithinLimits(y);
      DecrementIsMinusOne(y);
      IntegerOrderIff(Decrement(y).value, x);
    }
    if Decrement(x).Some? {
      var y := Decrement(x).value;
      WithinLimits(y);
      IncrementIsPlusOne(y);
      IntegerOrderIff(Increment(y).value, x);
    }
  }
}
