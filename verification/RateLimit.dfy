/** The gateway's per-key fixed-window limiter. Times are whole milliseconds. */
module RateLimit {
  datatype Window = Window(count: nat, resetAt: int)

  type Key = string
  type Windows = map<Key, Window>

  class FixedWindowLimiter {
    const limit: int
    const windowMs: nat
    var windows: Windows

    constructor (limit: int, windowMs: nat)
      ensures this.limit == limit && this.windowMs == windowMs && windows == map[]
    {
      this.limit, this.windowMs, windows := limit, windowMs, map[];
    }

    /** One more attempt on a key: counted whatever the answer, which is whether the window still had room. */
    method Hit(key: Key, now: int) returns (allowed: bool)
      modifies this`windows
      ensures windows == AfterHit(old(windows), windowMs, key, now)
      ensures allowed == IsAllowed(old(windows), limit, key, now)
    {
      if key !in windows || now >= windows[key].resetAt {
        windows := windows[key := Window(1, now + windowMs)];
        return true;
      }
      var existing := windows[key];
      existing := existing.(count := existing.count + 1);
      windows := windows[key := existing];
      return existing.count <= limit;
    }

    /** Keeps only the windows still running. */
    method Sweep(now: int)
      modifies this`windows
      ensures windows == AfterSweep(old(windows), now)
    {
      var keys := windows.Keys;
      ghost var before := windows;
      while keys != {}
        invariant keys <= windows.Keys <= before.Keys
        invariant forall key :: key in windows ==> windows[key] == before[key]
        invariant forall key :: key in before && key !in keys ==> (key in windows <==> now < before[key].resetAt)
        decreases |keys|
      {
        var key :| key in keys;
        if now >= windows[key].resetAt {
          windows := windows - {key};
        }
        keys := keys - {key};
      }
    }

    method Forget(key: Key)
      modifies this`windows
      ensures windows == old(windows) - {key}
    {
      windows := windows - {key};
    }
  }

  function AfterHit(windows: Windows, windowMs: nat, key: Key, now: int): Windows {
    windows[key := if key !in windows || now >= windows[key].resetAt then Window(1, now + windowMs)
                   else Window(windows[key].count + 1, windows[key].resetAt)]
  }

  predicate IsAllowed(windows: Windows, limit: int, key: Key, now: int) {
    key !in windows || now >= windows[key].resetAt || windows[key].count + 1 <= limit
  }

  function AfterSweep(windows: Windows, now: int): Windows {
    map key | key in windows && now < windows[key].resetAt :: windows[key]
  }

  /* ------------------------------- runs ------------------------------- */

  datatype Event = Hit(key: Key, at: int) | Sweep(at: int) | Forget(key: Key, at: int)

  function After(windows: Windows, windowMs: nat, event: Event): Windows {
    match event
    case Hit(key, at) => AfterHit(windows, windowMs, key, at)
    case Sweep(at) => AfterSweep(windows, at)
    case Forget(key, _) => windows - {key}
  }

  /** The clock never runs backwards. */
  ghost predicate IsTimeline(events: seq<Event>, now: int) {
    forall i :: 0 <= i < |events| ==> events[i].at >= now && forall j :: i < j < |events| ==> events[i].at <= events[j].at
  }

  /** The answers of every hit, in order. */
  function Answers(windows: Windows, limit: int, windowMs: nat, events: seq<Event>): seq<bool>
    decreases |events|
  {
    if events == [] then []
    else
      (if events[0].Hit? then [IsAllowed(windows, limit, events[0].key, events[0].at)] else [])
      + Answers(After(windows, windowMs, events[0]), limit, windowMs, events[1..])
  }

  /** How many hits on a key were allowed at a time in [from, to). */
  function Accepted(windows: Windows, limit: int, windowMs: nat, events: seq<Event>, key: Key, start: int, end: int): nat
    decreases |events|
  {
    if events == [] then 0
    else
      var e := events[0];
      (if e.Hit? && e.key == key && start <= e.at < end && IsAllowed(windows, limit, key, e.at) then 1 else 0)
      + Accepted(After(windows, windowMs, e), limit, windowMs, events[1..], key, start, end)
  }

  /* ------------------------------- at most 2 * limit - 1 in any window's length ------------------------------- */

  /** A window's first hit is always let through, so a limit below one acts as one. */
  function Effective(limit: int): (n: nat)
    ensures n >= 1
  {
    if limit < 1 then 1 else limit
  }

  /** How many more hits can still be allowed in [start, start + windowMs), given the key's window and the time. */
  function Budget(windows: Windows, limit: int, windowMs: nat, key: Key, start: int, now: int): int {
    var most := Effective(limit);
    if now >= start + windowMs then 0
    else if key !in windows || windows[key].resetAt <= start then
      if now >= start then most else 2 * most - 1
    else
      var left := if windows[key].count >= most then 0 else most - windows[key].count;
      if windows[key].resetAt < start + windowMs then left + most else left
  }

  ghost predicate Started(windows: Windows) {
    forall key :: key in windows ==> windows[key].count >= 1
  }

  lemma BudgetCovers(windows: Windows, limit: int, windowMs: nat, key: Key, start: int, now: int, event: Event)
    requires Started(windows) && event.at >= now && !(event.Forget? && event.key == key)
    ensures Started(After(windows, windowMs, event))
    ensures var taken := if event.Hit? && event.key == key && start <= event.at < start + windowMs
                            && IsAllowed(windows, limit, key, event.at) then 1 else 0;
            taken + Budget(After(windows, windowMs, event), limit, windowMs, key, start, event.at)
              <= Budget(windows, limit, windowMs, key, start, now)
  {
  }

  lemma {:induction false} AcceptedWithinBudget(windows: Windows, limit: int, windowMs: nat, events: seq<Event>,
                                                key: Key, start: int, now: int)
    requires Started(windows) && IsTimeline(events, now)
    requires forall i :: 0 <= i < |events| ==> !(events[i].Forget? && events[i].key == key)
    ensures Accepted(windows, limit, windowMs, events, key, start, start + windowMs)
              <= Budget(windows, limit, windowMs, key, start, now)
    decreases |events|
  {
    if events != [] {
      BudgetCovers(windows, limit, windowMs, key, start, now, events[0]);
      AcceptedWithinBudget(After(windows, windowMs, events[0]), limit, windowMs, events[1..], key, start, events[0].at);
    }
  }

  /**
   * From an empty limiter, one key that is never forgotten gets at most 2 * limit - 1 allowed hits in
   * any half-open interval one window long, wherever it lies and however the sweeps fall. (A limit
   * below one counts as one.)
   */
  lemma BurstIsBounded(limit: int, windowMs: nat, events: seq<Event>, key: Key, start: int, now: int)
    requires IsTimeline(events, now)
    requires forall i :: 0 <= i < |events| ==> !(events[i].Forget? && events[i].key == key)
    ensures Accepted(map[], limit, windowMs, events, key, start, start + windowMs) <= 2 * Effective(limit) - 1
  {
    AcceptedWithinBudget(map[], limit, windowMs, events, key, start, now);
  }

  function Hits(key: Key, at: int, n: nat): seq<Event> {
    if n == 0 then [] else [Hit(key, at)] + Hits(key, at, n - 1)
  }

  lemma {:induction false} HitsAreAllowed(windows: Windows, limit: int, windowMs: nat, key: Key, at: int, n: nat,
                                          rest: seq<Event>, start: int, end: int)
    requires key in windows && windows[key].count + n <= limit && at < windows[key].resetAt && start <= at < end
    ensures var later := windows[key := Window(windows[key].count + n, windows[key].resetAt)];
            Accepted(windows, limit, windowMs, Hits(key, at, n) + rest, key, start, end)
              == n + Accepted(later, limit, windowMs, rest, key, start, end)
    decreases n
  {
    hide Accepted;
    if n == 0 {
      assert Hits(key, at, 0) + rest == rest;
      assert windows[key := Window(windows[key].count, windows[key].resetAt)] == windows;
    } else {
      var tail := Hits(key, at, n - 1) + rest;
      var next := windows[key := Window(windows[key].count + 1, windows[key].resetAt)];
      assert Hits(key, at, n) + rest == [Hit(key, at)] + tail;
      OneMoreAllowed(windows, limit, windowMs, key, at, tail, start, end);
      HitsAreAllowed(next, limit, windowMs, key, at, n - 1, rest, start, end);
      assert next[key := Window(next[key].count + (n - 1), next[key].resetAt)]
          == windows[key := Window(windows[key].count + n, windows[key].resetAt)];
    }
  }

  lemma OneMoreAllowed(windows: Windows, limit: int, windowMs: nat, key: Key, at: int, tail: seq<Event>, start: int, end: int)
    requires key in windows && windows[key].count < limit && at < windows[key].resetAt && start <= at < end
    ensures var next := windows[key := Window(windows[key].count + 1, windows[key].resetAt)];
            Accepted(windows, limit, windowMs, [Hit(key, at)] + tail, key, start, end)
              == 1 + Accepted(next, limit, windowMs, tail, key, start, end)
  {
  }

  /** One hit opens a window; the rest of its budget goes at its very end, and a full budget right after. */
  function WorstCase(key: Key, limit: nat, windowMs: nat): seq<Event>
    requires limit >= 1
  {
    [Hit(key, 0)] + (Hits(key, windowMs - 1, limit - 1) + ([Hit(key, windowMs)] + (Hits(key, windowMs, limit - 1) + [])))
  }

  /** The bound is reached. */
  lemma BurstIsReached(limit: nat, windowMs: nat, key: Key)
    requires limit >= 1 && windowMs >= 2
    ensures Accepted(map[], limit, windowMs, WorstCase(key, limit, windowMs), key, windowMs - 1, 2 * windowMs - 1) == 2 * limit - 1
  {
    var start, end := windowMs - 1, 2 * windowMs - 1;
    var third := Hits(key, windowMs, limit - 1) + [];
    var second := [Hit(key, windowMs)] + third;
    var first := Hits(key, windowMs - 1, limit - 1) + second;
    var begun: Windows := map[key := Window(1, windowMs)];
    var full: Windows := map[key := Window(limit, windowMs)];
    var again: Windows := map[key := Window(1, 2 * windowMs)];
    assert ([Hit(key, 0)] + first)[1..] == first && second[1..] == third;
    assert AfterHit(map[], windowMs, key, 0) == begun;
    HitsAreAllowed(begun, limit, windowMs, key, windowMs - 1, limit - 1, second, start, end);
    assert begun[key := Window(1 + (limit - 1), windowMs)] == full;
    assert AfterHit(full, windowMs, key, windowMs) == again;
    HitsAreAllowed(again, limit, windowMs, key, windowMs, limit - 1, [], start, end);
  }

  /* ------------------------------- sweeping is invisible ------------------------------- */

  function WithoutSweeps(events: seq<Event>): seq<Event> {
    if events == [] then []
    else (if events[0].Sweep? then [] else [events[0]]) + WithoutSweeps(events[1..])
  }

  /** Two limiters that differ at most in expired windows. */
  ghost predicate SameLive(a: Windows, b: Windows, now: int) {
    forall key :: (key in a && now < a[key].resetAt) || (key in b && now < b[key].resetAt) ==>
      key in a && key in b && a[key] == b[key]
  }

  lemma {:induction false} SweptRunAgrees(a: Windows, b: Windows, limit: int, windowMs: nat, events: seq<Event>, now: int)
    requires IsTimeline(events, now) && SameLive(a, b, now)
    ensures Answers(a, limit, windowMs, events) == Answers(b, limit, windowMs, WithoutSweeps(events))
    decreases |events|
  {
    if events != [] {
      var e, rest := events[0], events[1..];
      var a' := After(a, windowMs, e);
      if e.Sweep? {
        assert SameLive(a', b, e.at);
        SweptRunAgrees(a', b, limit, windowMs, rest, e.at);
        assert WithoutSweeps(events) == WithoutSweeps(rest);
        assert Answers(a, limit, windowMs, events) == Answers(a', limit, windowMs, rest);
      } else {
        var b' := After(b, windowMs, e);
        assert SameLive(a', b', e.at);
        SweptRunAgrees(a', b', limit, windowMs, rest, e.at);
        assert WithoutSweeps(events)[0] == e && WithoutSweeps(events)[1..] == WithoutSweeps(rest);
      }
    }
  }

  /** Sweeps inserted anywhere in a run never change any answer. */
  lemma SweepsNeverChangeAnswers(limit: int, windowMs: nat, events: seq<Event>, now: int)
    requires IsTimeline(events, now)
    ensures Answers(map[], limit, windowMs, events) == Answers(map[], limit, windowMs, WithoutSweeps(events))
  {
    SweptRunAgrees(map[], map[], limit, windowMs, events, now);
  }

  function AfterAll(windows: Windows, windowMs: nat, events: seq<Event>): Windows
    decreases |events|
  {
    if events == [] then windows else AfterAll(After(windows, windowMs, events[0]), windowMs, events[1..])
  }

  /** Within a window every attempt on its key is counted, allowed or refused, and no other key's count changes. */
  lemma {:induction false} AttemptsAreCounted(windows: Windows, windowMs: nat, key: Key, at: int, n: nat)
    requires key in windows && at < windows[key].resetAt
    ensures AfterAll(windows, windowMs, Hits(key, at, n)) ==
            windows[key := Window(windows[key].count + n, windows[key].resetAt)]
    decreases n
  {
    if n == 0 {
      assert windows[key := windows[key]] == windows;
    } else {
      var next := AfterHit(windows, windowMs, key, at);
      assert Hits(key, at, n)[1..] == Hits(key, at, n - 1);
      AttemptsAreCounted(next, windowMs, key, at, n - 1);
    }
  }

  /** After a sweep exactly the windows still running are left, as they were. */
  lemma SweepLeavesTheLive(windows: Windows, now: int, key: Key)
    ensures key in AfterSweep(windows, now) <==> key in windows && !(windows[key].resetAt <= now)
    ensures key in AfterSweep(windows, now) ==> AfterSweep(windows, now)[key] == windows[key]
  {
  }
}
