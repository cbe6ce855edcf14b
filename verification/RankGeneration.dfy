/** The loops of the rank generator, against the functions the theorems are about. */
module RankGeneration {
  import opened Wrappers
  import opened Lexicographic
  import opened RankIntegers
  import opened Ranks

  /** The loop's state: the first `i` digits still to be stepped, the rest already in `tail`. */
  ghost function SuccessorFrom(d: string, i: nat, tail: string): (string, bool)
    requires IsDigits(d) && i <= |d|
  {
    (Successor(d[..i]).0 + tail, Successor(d[..i]).1)
  }

  lemma SuccessorEnds(d: string)
    requires IsDigits(d)
    ensures Successor(d) == SuccessorFrom(d, |d|, "")
    ensures forall tail :: SuccessorFrom(d, 0, tail) == (tail, true)
  {
    assert d[..|d|] == d && Successor(d).0 + "" == Successor(d).0 && d[..0] == "";
    assert forall tail: string :: "" + tail == tail;
  }

  lemma SuccessorStep(d: string, i: nat, tail: string)
    requires IsDigits(d) && i < |d|
    ensures var next := DigitValue(d[i]) + 1;
            SuccessorFrom(d, i + 1, tail) == if next == BASE then SuccessorFrom(d, i, [ZERO] + tail)
                                          else (d[..i] + [DigitAt(next)] + tail, false)
  {
    assert d[..i + 1][..i] == d[..i];
    assert Successor(d[..i]).0 + [ZERO] + tail == Successor(d[..i]).0 + ([ZERO] + tail);
  }

  /** The loop's state: the first `i` digits still to be stepped, the rest already in `tail`. */
  ghost function PredecessorFrom(d: string, i: nat, tail: string): (string, bool)
    requires IsDigits(d) && i <= |d|
  {
    (Predecessor(d[..i]).0 + tail, Predecessor(d[..i]).1)
  }

  lemma PredecessorEnds(d: string)
    requires IsDigits(d)
    ensures Predecessor(d) == PredecessorFrom(d, |d|, "")
    ensures forall tail :: PredecessorFrom(d, 0, tail) == (tail, true)
  {
    assert d[..|d|] == d && Predecessor(d).0 + "" == Predecessor(d).0 && d[..0] == "";
    assert forall tail: string :: "" + tail == tail;
  }

  lemma PredecessorStep(d: string, i: nat, tail: string)
    requires IsDigits(d) && i < |d|
    ensures var next := DigitValue(d[i]) - 1;
            PredecessorFrom(d, i + 1, tail) == if next == -1 then PredecessorFrom(d, i, [LAST] + tail)
                                          else (d[..i] + [DigitAt(next)] + tail, false)
  {
    assert d[..i + 1][..i] == d[..i];
    assert Predecessor(d[..i]).0 + [LAST] + tail == Predecessor(d[..i]).0 + ([LAST] + tail);
  }

  /** The carry loop, in place; each position is read from `x` just before it is written. */
  method CarryLoop(x: string, digits: array<char>) returns (carry: bool)
    requires IsInteger(x) && digits[..] == x[1..]
    modifies digits
    ensures (digits[..], carry) == Successor(x[1..])
  {
    ghost var d := x[1..];
    ghost var now := d;
    carry := true;
    var index := digits.Length - 1;
    assert now[|d|..] == "";
    SuccessorEnds(d);
    while carry && index >= 0
      invariant -1 <= index < digits.Length == |d| == |now| && digits[..] == now
      invariant carry ==> now[..index + 1] == d[..index + 1]
      invariant Successor(d) == if carry then SuccessorFrom(d, index + 1, now[index + 1..]) else (now, false)
    {
      hide Successor, SuccessorFrom, DigitValue;
      ghost var tail := now[index + 1..];
      SuccessorStep(d, index, tail);
      var next := DigitValue(x[index + 1]) + 1;
      Overwritten(now, index, if next == BASE then ZERO else DigitAt(next));
      if next == BASE {
        digits[index] := ZERO;
        now := now[index := ZERO];
      } else {
        digits[index] := DigitAt(next);
        now := now[index := DigitAt(next)];
        carry := false;
      }
      index := index - 1;
    }
  }

  lemma Overwritten(s: string, index: nat, c: char)
    requires index < |s|
    ensures s[index := c][index..] == [c] + s[index + 1..] && s[index := c][..index] == s[..index]
    ensures s[index := c] == s[..index] + [c] + s[index + 1..]
    ensures s[..index + 1][..index] == s[..index]
  {
  }

  method IncrementInteger(x: string) returns (r: Option<string>)
    requires IsInteger(x)
    ensures r == Increment(x)
  {
    var head := x[0];
    var digits := new char[|x| - 1](i requires 0 <= i < |x| - 1 => x[i + 1]);
    assert digits[..] == x[1..];
    var carry := CarryLoop(x, digits);
    if !carry {
      return Some([head] + digits[..]);
    }
    if head == 'Z' {
      return Some(ZERO_INTEGER);
    }
    if head == 'z' {
      return None;
    }
    var nextHead := NextHead(head, 1);
    r := Some(if nextHead > 'a' then [nextHead] + digits[..] + [ZERO] else [nextHead] + digits[..digits.Length - 1]);
  }

  /** The borrow loop, in place; each position is read from `x` just before it is written. */
  method BorrowLoop(x: string, digits: array<char>) returns (borrow: bool)
    requires IsInteger(x) && digits[..] == x[1..]
    modifies digits
    ensures (digits[..], borrow) == Predecessor(x[1..])
  {
    ghost var d := x[1..];
    borrow := true;
    var index := digits.Length - 1;
    assert digits[digits.Length..] == "";
    PredecessorEnds(d);
    while borrow && index >= 0
      invariant -1 <= index < digits.Length == |d|
      invariant borrow ==> digits[..index + 1] == d[..index + 1]
      invariant Predecessor(d) == if borrow then PredecessorFrom(d, index + 1, digits[index + 1..]) else (digits[..], false)
    {
      hide Predecessor, PredecessorFrom, DigitValue;
      ghost var tail := digits[index + 1..];
      PredecessorStep(d, index, tail);
      var next := DigitValue(x[index + 1]) - 1;
      if next == -1 {
        digits[index] := LAST;
        assert digits[index..] == [LAST] + tail;
      } else {
        digits[index] := DigitAt(next);
        borrow := false;
        assert digits[..] == d[..index] + [DigitAt(next)] + tail;
      }
      index := index - 1;
    }
    assert digits[0..] == digits[..];
  }

  method DecrementInteger(x: string) returns (r: Option<string>)
    requires IsInteger(x)
    ensures r == Decrement(x)
  {
    var head := x[0];
    var digits := new char[|x| - 1](i requires 0 <= i < |x| - 1 => x[i + 1]);
    assert digits[..] == x[1..];
    var borrow := BorrowLoop(x, digits);
    if !borrow {
      return Some([head] + digits[..]);
    }
    if head == 'a' {
      return Some("Z" + [LAST]);
    }
    if head == 'A' {
      return None;
    }
    var nextHead := NextHead(head, -1);
    r := Some(if nextHead < 'Z' then [nextHead] + digits[..] + [LAST] else [nextHead] + digits[..digits.Length - 1]);
  }

  /** The recursive midpoint with its scan over the shared digits. */
  method ComputeMidpoint(a: string, b: Option<string>) returns (m: string)
    requires IsDigits(a) && (b.Some? ==> IsDigits(b.value))
    ensures m == Midpoint(a, b)
    decreases if b.Some? then |b.value| + 1 else 0, |a|
  {
    if b.Some? {
      var shared := 0;
      while shared < |b.value| && (if shared < |a| then a[shared] else ZERO) == b.value[shared]
        invariant 0 <= shared <= |b.value|
        invariant SharedDigits(a, b.value, 0) == SharedDigits(a, b.value, shared)
      {
        shared := shared + 1;
      }
      if shared > 0 {
        m := ComputeMidpoint(Drop(a, shared), Some(b.value[shared..]));
        return b.value[..shared] + m;
      }
    }
    var low := if a == "" then 0 else DigitValue(a[0]);
    var high := if b.None? then BASE else FirstDigit(b.value);
    if high - low > 1 {
      return [DigitAt((low + high + 1) / 2)];
    }
    if b.Some? && |b.value| > 1 {
      return b.value[..1];
    }
    m := ComputeMidpoint(Drop(a, 1), None);
    m := [DigitAt(low)] + m;
  }

  /* ------------------------------- rankSequence ------------------------------- */

  /** `count` ranks, each generated after the previous one. */
  function RankSequence(count: nat): (ranks: seq<string>)
    ensures |ranks| == count && forall r :: r in ranks ==> IsRank(r)
  {
    if count == 0 then []
    else
      var ranks := RankSequence(count - 1);
      var last := if ranks == [] then None else Some(ranks[|ranks| - 1]);
      BetweenIsInside(last, None);
      ranks + [Between(last, None).value]
  }

  method GenerateRankSequence(count: int) returns (r: Result<seq<string>, RankError>)
    ensures r == if count < 0 then Err(BadCount) else Ok(RankSequence(count))
  {
    if count < 0 {
      return Err(BadCount);
    }
    var ranks: seq<string> := [];
    var cursor: Option<string> := None;
    for index := 0 to count
      invariant ranks == RankSequence(index)
      invariant cursor == if ranks == [] then None else Some(ranks[|ranks| - 1])
    {
      BetweenIsInside(cursor, None);
      var next := Between(cursor, None).value;
      cursor := Some(next);
      ranks := ranks + [next];
    }
    return Ok(ranks);
  }

  /** Seeded ranks ascend strictly, however many there are. */
  lemma {:induction false} SequenceAscends(count: nat, i: nat, j: nat)
    requires i < j < count
    ensures Less(RankSequence(count)[i], RankSequence(count)[j])
  {
    hide Less, Between, IsRank;
    var ranks := RankSequence(count - 1);
    if j < count - 1 {
      SequenceAscends(count - 1, i, j);
    } else {
      BetweenIsInside(Some(ranks[count - 2]), None);
      if i < count - 2 {
        SequenceAscends(count - 1, i, count - 2);
        Transitive(ranks[i], ranks[count - 2], RankSequence(count)[j]);
      }
    }
  }

  /** Up to the encoding's limit the i-th seeded rank is the bare integer i. */
  lemma {:induction false} SequenceCounts(count: nat, i: nat)
    requires i < count && i < Limit()
    ensures var r := RankSequence(count)[i]; IsInteger(r) && IntegerValue(r) == i
  {
    hide IntegerValue, IsInteger, Limit, Increment;
    if i < count - 1 {
      SequenceCounts(count - 1, i);
    } else if i == 0 {
      AroundZero();
    } else {
      SequenceCounts(count - 1, i - 1);
      NextSeedIsNextInteger(count, i);
    }
  }

  /** After a bare integer below the limit, the next seeded rank is the next bare integer. */
  lemma NextSeedIsNextInteger(count: nat, i: nat)
    requires 0 < i == count - 1 && i < Limit()
    requires var before := RankSequence(count - 1)[i - 1]; IsInteger(before) && IntegerValue(before) == i - 1
    ensures var r := RankSequence(count)[i]; IsInteger(r) && IntegerValue(r) == i
  {
    hide IntegerValue, IsInteger, Limit, Increment;
    var before := RankSequence(count - 1)[i - 1];
    IntegerIsRank(before);
    IncrementIsPlusOne(before);
    WithinLimits(before);
  }

  /** Seeded ranks are logarithmically short: the first 62 + ... + 62^k fit in k + 1 characters. */
  lemma SequenceIsShort(count: nat, i: nat, k: nat)
    requires i < count && i < Limit() && i < Count(k)
    ensures |RankSequence(count)[i]| <= k + 1
  {
    hide RankSequence, IntegerValue, Count, Limit;
    SequenceCounts(count, i);
    var r := RankSequence(count)[i];
    IntegerRange(r);
    AroundZero();
    if k + 1 < |r| {
      CountMonotone(k, |r| - 2);
    }
  }
}
