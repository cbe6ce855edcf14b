/** The per-token daily quota: one upsert decides, counts and rolls the day over at once. */
module TokenQuota {
  import opened Sequences
  import opened Wrappers

  const DAILY_QUOTA := 100_000
  const EXPENSIVE_DAILY_QUOTA := 2_000
  const MINUTE := 60_000

  type Token = string

  /** Days are numbered; the statement only ever compares them for equality. */
  datatype Row = Row(day: int, used: nat, expensive: nat)

  datatype Call = Call(day: int, expensive: bool)

  /** The upsert's WHERE, or that there is no row to conflict with. */
  predicate Consumes(row: Option<Row>, call: Call) {
    row.None? || row.value.day != call.day ||
    (row.value.used < DAILY_QUOTA && (!call.expensive || row.value.expensive < EXPENSIVE_DAILY_QUOTA))
  }

  function Upsert(row: Option<Row>, call: Call): Option<Row> {
    if !Consumes(row, call) then row
    else if row.None? || row.value.day != call.day then Some(Row(call.day, 1, if call.expensive then 1 else 0))
    else Some(Row(call.day, row.value.used + 1, row.value.expensive + if call.expensive then 1 else 0))
  }

  /** The two tables a request writes: the counters, and each token's last use. */
  class QuotaStore {
    var rows: map<Token, Row>
    var lastUsed: map<Token, Option<int>>

    function RowOf(token: Token): Option<Row>
      reads this
    {
      if token in rows then Some(rows[token]) else None
    }

    method Consume(token: Token, call: Call, now: int) returns (consumed: bool)
      modifies this
      ensures consumed == Consumes(old(RowOf(token)), call)
      ensures RowOf(token) == Upsert(old(RowOf(token)), call)
      ensures forall other :: other != token ==> RowOf(other) == old(RowOf(other))
      ensures !consumed ==> rows == old(rows) && lastUsed == old(lastUsed)
      ensures consumed ==> lastUsed == Touched(old(lastUsed), token, now)
    {
      if token !in rows {
        rows := rows[token := Row(call.day, 1, if call.expensive then 1 else 0)];
      } else {
        var row := rows[token];
        if row.day != call.day {
          rows := rows[token := Row(call.day, 1, if call.expensive then 1 else 0)];
        } else if row.used < DAILY_QUOTA && (!call.expensive || row.expensive < EXPENSIVE_DAILY_QUOTA) {
          rows := rows[token := Row(row.day, row.used + 1, if call.expensive then row.expensive + 1 else row.expensive)];
        } else {
          return false;
        }
      }
      if token in lastUsed && (lastUsed[token].None? || lastUsed[token].value < now - MINUTE) {
        lastUsed := lastUsed[token := Some(now)];
      }
      return true;
    }
  }

  /** Written at most once a minute, and only for a token that exists. */
  function Touched(lastUsed: map<Token, Option<int>>, token: Token, now: int): map<Token, Option<int>> {
    if token in lastUsed && (lastUsed[token].None? || lastUsed[token].value < now - MINUTE)
    then lastUsed[token := Some(now)] else lastUsed
  }

  /** After a request a known token's last use is at most a minute out of date, and was not rewritten within the minute. */
  lemma LastUseIsRecent(lastUsed: map<Token, Option<int>>, token: Token, now: int)
    requires token in lastUsed
    ensures var after := Touched(lastUsed, token, now);
            && after.Keys == lastUsed.Keys && token in after && after[token].Some? && now - after[token].value <= 60_000
            && (after[token] != lastUsed[token] ==> after[token] == Some(now))
            && (lastUsed[token].Some? && now - lastUsed[token].value <= 60_000 ==> after == lastUsed)
            && forall other :: other in lastUsed && other != token ==> after[other] == lastUsed[other]
  {
  }

  /* ------------------------------- runs for one token ------------------------------- */

  function Front(calls: seq<Call>): seq<Call>
    requires calls != []
  {
    calls[..|calls| - 1]
  }

  function Last(calls: seq<Call>): Call
    requires calls != []
  {
    calls[|calls| - 1]
  }

  function RowAfter(calls: seq<Call>): Option<Row>
    decreases |calls|
  {
    if calls == [] then None else Upsert(RowAfter(Front(calls)), Last(calls))
  }

  /** How many of the calls made on a day were let through, of both classes or only the expensive ones. */
  function Granted(calls: seq<Call>, day: int, onlyExpensive: bool): nat
    decreases |calls|
  {
    if calls == [] then 0
    else
      var call := Last(calls);
      Granted(Front(calls), day, onlyExpensive) +
      if call.day == day && (onlyExpensive ==> call.expensive) && Consumes(RowAfter(Front(calls)), call) then 1 else 0
  }

  /** A day once left never comes back; days need not ascend. */
  ghost predicate NoDayReturns(calls: seq<Call>) {
    forall i, j, k :: 0 <= i < j < k < |calls| && calls[i].day == calls[k].day ==> calls[j].day == calls[k].day
  }

  lemma {:induction false} NoneGrantedYet(calls: seq<Call>, day: int, onlyExpensive: bool)
    requires forall i :: 0 <= i < |calls| ==> calls[i].day != day
    ensures Granted(calls, day, onlyExpensive) == 0
    decreases |calls|
  {
    if calls != [] {
      NoneGrantedYet(Front(calls), day, onlyExpensive);
    }
  }

  /** The stored counters are the numbers of granted calls on the stored day, which is the last call's. */
  lemma {:induction false} CountersAreGrants(calls: seq<Call>)
    requires NoDayReturns(calls) && calls != []
    ensures var day := Last(calls).day;
            RowAfter(calls) == Some(Row(day, Granted(calls, day, false), Granted(calls, day, true)))
    decreases |calls|
  {
    var front, call := Front(calls), Last(calls);
    if front != [] {
      CountersAreGrants(front);
    }
    if front == [] || Last(front).day != call.day {
      forall i | 0 <= i < |front|
        ensures front[i].day != call.day
      {
        assert front[i] == calls[i] && calls[|front| - 1] == Last(front) && calls[|front|] == call;
      }
      NoneGrantedYet(front, call.day, false);
      NoneGrantedYet(front, call.day, true);
    }
  }

  /** A call is refused exactly when its own day's grants have reached a ceiling that applies to it. */
  lemma GrantedIffRoomIsLeft(calls: seq<Call>)
    requires NoDayReturns(calls) && calls != []
    ensures var front, call := Front(calls), Last(calls);
            Consumes(RowAfter(front), call) <==>
              Granted(front, call.day, false) < DAILY_QUOTA &&
              (call.expensive ==> Granted(front, call.day, true) < EXPENSIVE_DAILY_QUOTA)
  {
    var front, call := Front(calls), Last(calls);
    if front == [] {
    } else {
      CountersAreGrants(front);
      if Last(front).day != call.day {
        forall i | 0 <= i < |front|
          ensures front[i].day != call.day
        {
          assert front[i] == calls[i] && calls[|front| - 1] == Last(front) && calls[|front|] == call;
        }
        NoneGrantedYet(front, call.day, false);
        NoneGrantedYet(front, call.day, true);
      }
    }
  }

  /** No day ever grants more than either ceiling, and expensive grants are part of the total. */
  lemma {:induction false} NoDayExceedsItsQuota(calls: seq<Call>, day: int)
    requires NoDayReturns(calls)
    ensures Granted(calls, day, true) <= Granted(calls, day, false) <= DAILY_QUOTA
    ensures Granted(calls, day, true) <= EXPENSIVE_DAILY_QUOTA
    decreases |calls|
  {
    if calls != [] {
      NoDayExceedsItsQuota(Front(calls), day);
      GrantedIffRoomIsLeft(calls);
    }
  }

  /** With the expensive class used up, a normal call is still granted whenever the total has room. */
  lemma ExpensiveNeverBlocksNormal(calls: seq<Call>, day: int)
    requires NoDayReturns(calls + [Call(day, false)])
    requires Granted(calls, day, true) == EXPENSIVE_DAILY_QUOTA && Granted(calls, day, false) < DAILY_QUOTA
    ensures Consumes(RowAfter(calls), Call(day, false)) && !Consumes(RowAfter(calls), Call(day, true))
  {
    var normal, expensive := calls + [Call(day, false)], calls + [Call(day, true)];
    assert Front(normal) == calls && Front(expensive) == calls;
    assert NoDayReturns(expensive) by {
      assert forall i :: 0 <= i < |normal| ==> normal[i].day == expensive[i].day;
    }
    GrantedIffRoomIsLeft(normal);
    GrantedIffRoomIsLeft(expensive);
  }

  /** A refused call leaves no trace: the rest of the run goes as if it had not been made. */
  lemma {:induction false} RefusedCallsVanish(before: seq<Call>, refused: Call, rest: seq<Call>)
    requires !Consumes(RowAfter(before), refused)
    ensures RowAfter(before + [refused] + rest) == RowAfter(before + rest)
    decreases |rest|
  {
    var full, without := before + [refused] + rest, before + rest;
    if rest == [] {
      assert Front(full) == before && without == before;
    } else {
      RefusedCallsVanish(before, refused, Front(rest));
      assert Front(full) == before + [refused] + Front(rest);
      assert Front(without) == before + Front(rest);
    }
  }

  /* ------------------------------- exactly when the quota holds ------------------------------- */

  /** The days a run visits, in order, each stretch of calls on one day counted once. */
  function Visits(calls: seq<Call>): (visits: seq<int>)
    ensures calls != [] ==> visits != [] && visits[|visits| - 1] == Last(calls).day
    ensures calls == [] ==> visits == []
    decreases |calls|
  {
    if calls == [] then []
    else
      var visits, day := Visits(Front(calls)), Last(calls).day;
      if visits != [] && visits[|visits| - 1] == day then visits else visits + [day]
  }

  ghost predicate KeepsQuota(calls: seq<Call>, day: int) {
    Granted(calls, day, false) <= DAILY_QUOTA && Granted(calls, day, true) <= EXPENSIVE_DAILY_QUOTA
  }

  lemma {:induction false} EveryDayIsVisited(calls: seq<Call>, i: nat)
    requires i < |calls|
    ensures calls[i].day in Visits(calls)
    decreases |calls|
  {
    if i < |calls| - 1 {
      EveryDayIsVisited(Front(calls), i);
    } else {
      var visits := Visits(calls);
      assert visits[|visits| - 1] == calls[i].day;
    }
  }

  lemma {:induction false} VisitedOnceStaysAway(calls: seq<Call>)
    requires NoRepeats(Visits(calls))
    ensures NoDayReturns(calls)
    decreases |calls|
  {
    if calls != [] {
      var front, last := Front(calls), |calls| - 1;
      var before := Visits(front);
      assert before <= Visits(calls);
      assert NoRepeats(before) by {
        assert forall m :: 0 <= m < |before| ==> before[m] == Visits(calls)[m];
      }
      VisitedOnceStaysAway(front);
      forall i, j | 0 <= i < j < last && calls[i].day == calls[last].day
        ensures calls[j].day == calls[last].day
      {
        EveryDayIsVisited(front, i);
        var m :| 0 <= m < |before| && before[m] == calls[i].day;
        assert before[m] == Visits(calls)[m];
        assert calls[last - 1].day == calls[last].day;
        assert front[i] == calls[i] && front[j] == calls[j] && front[last - 1] == calls[last - 1];
      }
    }
  }

  lemma {:induction false} EveryVisitIsACalls(calls: seq<Call>, m: nat)
    requires m < |Visits(calls)|
    ensures exists i :: 0 <= i < |calls| && calls[i].day == Visits(calls)[m]
    decreases |calls|
  {
    var front := Front(calls);
    if m < |Visits(front)| {
      EveryVisitIsACalls(front, m);
      var i :| 0 <= i < |front| && front[i].day == Visits(front)[m];
      assert calls[i] == front[i];
    } else {
      assert calls[|calls| - 1] == Last(calls);
    }
  }

  lemma {:induction false} NeverReturningIsVisitedOnce(calls: seq<Call>)
    requires NoDayReturns(calls)
    ensures NoRepeats(Visits(calls))
    decreases |calls|
  {
    if calls != [] {
      var front, last := Front(calls), |calls| - 1;
      var before, visits := Visits(front), Visits(calls);
      assert NoDayReturns(front);
      NeverReturningIsVisitedOnce(front);
      if visits != before {
        assert front != [] ==> calls[last - 1] == Last(front) && Last(front).day != calls[last].day;
        forall m | 0 <= m < |before|
          ensures before[m] != calls[last].day
        {
          EveryVisitIsACalls(front, m);
          var i :| 0 <= i < |front| && front[i].day == before[m];
          assert calls[i] == front[i];
        }
        assert visits == before + [calls[last].day];
      }
    }
  }

  /** Visiting no day twice is the same as no day coming back. */
  lemma VisitedOnceNeverReturns(calls: seq<Call>)
    ensures NoRepeats(Visits(calls)) <==> NoDayReturns(calls)
  {
    if NoRepeats(Visits(calls)) {
      VisitedOnceStaysAway(calls);
    }
    if NoDayReturns(calls) {
      NeverReturningIsVisitedOnce(calls);
    }
  }

  lemma {:induction false} RowHoldsTheLastDay(calls: seq<Call>)
    requires calls != []
    ensures RowAfter(calls).Some? && RowAfter(calls).value.day == Last(calls).day
    decreases |calls|
  {
    if Front(calls) != [] {
      RowHoldsTheLastDay(Front(calls));
    }
  }

  lemma NoCalls()
    ensures RowAfter([]) == None
  {
  }

  function Copies(day: int, n: nat): seq<Call> {
    if n == 0 then [] else Copies(day, n - 1) + [Call(day, false)]
  }

  /** What one more call adds. */
  lemma OneMoreCall(calls: seq<Call>, call: Call, d: int)
    ensures var more := calls + [call];
            && Last(more) == call && RowAfter(more) == Upsert(RowAfter(calls), call)
            && Visits(more) == (if calls != [] && Last(calls).day == call.day then Visits(calls) else Visits(calls) + [call.day])
            && Granted(more, d, false) ==
                 Granted(calls, d, false) + if call.day == d && Consumes(RowAfter(calls), call) then 1 else 0
  {
    assert Front(calls + [call]) == calls;
  }

  /** Arriving at a day other than the last one finds its whole quota unused. */
  lemma {:induction false} ArrivalIsGranted(calls: seq<Call>, day: int, n: nat, d: int)
    requires calls == [] || Last(calls).day != day
    requires 1 <= n <= DAILY_QUOTA
    ensures var more := calls + Copies(day, n);
            && more != [] && Last(more).day == day && RowAfter(more) == Some(Row(day, n, 0))
            && Visits(more) == Visits(calls) + [day]
            && Granted(more, d, false) == Granted(calls, d, false) + if d == day then n else 0
    decreases n
  {
    hide RowAfter, Visits, Granted;
    var fewer := calls + Copies(day, n - 1);
    assert calls + Copies(day, n) == fewer + [Call(day, false)];
    OneMoreCall(fewer, Call(day, false), d);
    if n == 1 {
      assert fewer == calls;
      if calls == [] {
        NoCalls();
      } else {
        RowHoldsTheLastDay(calls);
      }
    } else {
      ArrivalIsGranted(calls, day, n - 1, d);
    }
  }

  /** A run through the given days: `n` calls on visit `i`, one on every other. */
  function Overrun(visits: seq<int>, i: nat, n: nat): seq<Call>
    decreases |visits|
  {
    if visits == [] then []
    else
      var last := |visits| - 1;
      Overrun(visits[..last], i, n) + Copies(visits[last], if last == i then n else 1)
  }

  function Asked(visits: seq<int>, i: nat, n: nat, day: int): nat
    decreases |visits|
  {
    if visits == [] then 0
    else
      var last := |visits| - 1;
      Asked(visits[..last], i, n, day) + if visits[last] != day then 0 else if last == i then n else 1
  }

  lemma LastVisit(visits: seq<int>, i: nat, n: nat)
    requires visits != []
    ensures var last := |visits| - 1;
            Overrun(visits, i, n) == Overrun(visits[..last], i, n) + Copies(visits[last], if last == i then n else 1)
  {
  }

  /** Every call of such a run is granted. */
  lemma {:induction false} OverrunIsGranted(visits: seq<int>, i: nat, n: nat, day: int)
    requires forall m :: 0 < m < |visits| ==> visits[m] != visits[m - 1]
    requires 1 <= n <= DAILY_QUOTA
    ensures Visits(Overrun(visits, i, n)) == visits
    ensures Granted(Overrun(visits, i, n), day, false) == Asked(visits, i, n, day)
    decreases |visits|
  {
    if visits == [] {
    } else {
      hide RowAfter, Visits, Granted, Copies;
      var last := |visits| - 1;
      var front := visits[..last];
      OverrunIsGranted(front, i, n, day);
      hide Overrun;
      assert Overrun(visits, i, n) == Overrun(front, i, n) + Copies(visits[last], if last == i then n else 1) by {
        LastVisit(visits, i, n);
      }
      assert visits == front + [visits[last]];
      ArrivalIsGranted(Overrun(front, i, n), visits[last], if last == i then n else 1, day);
    }
  }

  lemma {:induction false} ReturningAsksForMore(visits: seq<int>, i: nat, n: nat)
    requires i < |visits|
    ensures Asked(visits, i, n, visits[i]) >= n
    ensures (exists k :: i < k < |visits| && visits[k] == visits[i]) ==> Asked(visits, i, n, visits[i]) > n
    decreases |visits|
  {
    var last := |visits| - 1;
    if i < last {
      var front := visits[..last];
      ReturningAsksForMore(front, i, n);
      if k :| i < k < |visits| && visits[k] == visits[i] {
        assert k < last ==> front[k] == front[i];
      }
    }
  }

  /**
   * Every run that visits days in this order keeps both ceilings on every day, exactly when no day
   * is visited twice: the row remembers one day, so a day left and come back to starts afresh.
   */
  lemma QuotaHoldsIffNoDayReturns(visits: seq<int>)
    requires forall m :: 0 < m < |visits| ==> visits[m] != visits[m - 1]
    ensures (forall calls: seq<Call>, day: int | Visits(calls) == visits :: KeepsQuota(calls, day)) <==> NoRepeats(visits)
  {
    if NoRepeats(visits) {
      forall calls: seq<Call>, day: int | Visits(calls) == visits
        ensures KeepsQuota(calls, day)
      {
        VisitedOnceNeverReturns(calls);
        NoDayExceedsItsQuota(calls, day);
      }
    } else {
      var i, k :| 0 <= i < k < |visits| && visits[i] == visits[k];
      var n: nat := DAILY_QUOTA;
      var calls := Overrun(visits, i, n);
      OverrunIsGranted(visits, i, n, visits[i]);
      ReturningAsksForMore(visits, i, n);
      assert Visits(calls) == visits && !KeepsQuota(calls, visits[i]);
    }
  }
}
