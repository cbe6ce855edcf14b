/**
 * Every interleaving of relay instances, consumers, appends, failures and crashes: claim under row
 * locks, dispatch one event at a time, then mark, all in one transaction per batch.
 */
module OutboxProtocol {
  import opened Outbox
  import opened Sequences

  /** An open batch: what it locked, how far it has dispatched, and its uncommitted outcomes. */
  datatype Batch = Batch(consumer: Consumer, claimed: seq<Id>, next: nat, delivered: seq<Id>, failed: seq<Id>)

  /** The two tables as some commit left them. */
  datatype Tables = Tables(outbox: seq<Event>, table: DispatchTable)

  /**
   * Committed tables and all they have been, open transactions by number, and three histories: every
   * dispatch that returned, every returned dispatch whose transaction was then rolled back, and every
   * one that was committed for an event already marked.
   */
  datatype State = State(
    outbox: seq<Event>,
    table: DispatchTable,
    past: seq<Tables>,
    open: map<nat, Batch>,
    returned: multiset<Key>,
    rolledBack: multiset<Key>,
    repeated: multiset<Key>)

  datatype Step =
    | Append(events: seq<Event>)
    | Claim(tx: nat, consumer: Consumer, limit: nat, asOf: nat)
    | Deliver(tx: nat)
    | Fail(tx: nat)
    | Commit(tx: nat)
    | Crash(tx: nat)

  function Locked(s: State): set<Id> {
    set tx, i | tx in s.open && 0 <= i < |s.open[tx].claimed| :: s.open[tx].claimed[i]
  }

  ghost predicate FreshEvents(outbox: seq<Event>, events: seq<Event>) {
    && (forall i :: 0 <= i < |events| ==> events[i].id !in Ids(outbox))
    && NoRepeats(Ids(events))
  }

  ghost predicate Enabled(s: State, step: Step) {
    match step
    case Append(events) => FreshEvents(s.outbox, events)
    case Claim(tx, _, _, asOf) => tx !in s.open && asOf < |s.past|
    case Deliver(tx) => tx in s.open && s.open[tx].next < |s.open[tx].claimed|
    case Fail(tx) => tx in s.open && s.open[tx].next < |s.open[tx].claimed|
    case Commit(tx) => tx in s.open && s.open[tx].next == |s.open[tx].claimed|
    case Crash(tx) => tx in s.open
  }

  function Keys(consumer: Consumer, ids: seq<Id>): multiset<Key> {
    if ids == [] then multiset{} else Keys(consumer, ids[..|ids| - 1]) + multiset{(consumer, ids[|ids| - 1])}
  }

  /** The keys among these that are marked already. */
  function Again(table: DispatchTable, consumer: Consumer, ids: seq<Id>): multiset<Key> {
    if ids == [] then multiset{}
    else
      var key := (consumer, ids[|ids| - 1]);
      Again(table, consumer, ids[..|ids| - 1]) + if IsDispatched(table, key) then multiset{key} else multiset{}
  }

  /** New committed tables, remembered. */
  function Committed(s: State, outbox: seq<Event>, table: DispatchTable): State {
    s.(outbox := outbox, table := table, past := s.past + [Tables(outbox, table)])
  }

  /**
   * A claim locks rows as they are now, but picks them from the tables as its statement first saw
   * them: a mark committed in between is not read again.
   */
  function Apply(s: State, step: Step): State
    requires step.Claim? ==> step.asOf < |s.past|
    requires step.Deliver? || step.Fail? ==> step.tx in s.open && s.open[step.tx].next < |s.open[step.tx].claimed|
    requires step.Commit? || step.Crash? ==> step.tx in s.open
  {
    match step
    case Append(events) => Committed(s, AppendAll(s.outbox, events), s.table)
    case Claim(tx, consumer, limit, asOf) =>
      var claimed := ClaimPending(s.past[asOf].outbox, s.past[asOf].table, consumer, Locked(s), limit);
      s.(open := s.open[tx := Batch(consumer, claimed, 0, [], [])])
    case Deliver(tx) =>
      var b := s.open[tx];
      var id := b.claimed[b.next];
      s.(open := s.open[tx := b.(next := b.next + 1, delivered := b.delivered + [id])],
         returned := s.returned + multiset{(b.consumer, id)})
    case Fail(tx) =>
      var b := s.open[tx];
      s.(open := s.open[tx := b.(next := b.next + 1, failed := b.failed + [b.claimed[b.next]])])
    case Commit(tx) =>
      var b := s.open[tx];
      Committed(s, s.outbox, MarkAll(RecordAll(s.table, b.consumer, b.failed), b.consumer, b.delivered))
        .(open := s.open - {tx}, repeated := s.repeated + Again(s.table, b.consumer, b.delivered))
    case Crash(tx) =>
      var b := s.open[tx];
      s.(open := s.open - {tx}, rolledBack := s.rolledBack + Keys(b.consumer, b.delivered))
  }

  /** A run: each step taken where it is enabled. */
  ghost predicate IsRun(s: State, steps: seq<Step>)
    decreases |steps|
  {
    steps == [] || (Enabled(s, steps[0]) && IsRun(Apply(s, steps[0]), steps[1..]))
  }

  ghost function End(s: State, steps: seq<Step>): State
    requires IsRun(s, steps)
    decreases |steps|
  {
    if steps == [] then s else End(Apply(s, steps[0]), steps[1..])
  }

  const START := State([], map[], [Tables([], map[])], map[], multiset{}, multiset{}, multiset{})

  /* ------------------------------- the invariant ------------------------------- */

  /** The two outcomes split what has been dispatched so far. */
  ghost predicate GoodBatch(s: State, b: Batch) {
    && b.next <= |b.claimed| && NoRepeats(b.claimed)
    && (forall id :: id in b.delivered || id in b.failed <==> id in b.claimed[..b.next])
    && (forall id :: !(id in b.delivered && id in b.failed))
    && NoRepeats(b.delivered) && NoRepeats(b.failed)
    && (forall id :: id in b.claimed ==> id in Ids(s.outbox))
  }

  /** No two open transactions hold the same outbox row, whatever their consumers. */
  ghost predicate ClaimsDisjoint(s: State) {
    forall t, u, id :: t in s.open && u in s.open && id in s.open[t].claimed && id in s.open[u].claimed ==> t == u
  }

  /** Some open transaction has dispatched this event to this consumer without committing yet. */
  ghost predicate InFlight(s: State, key: Key) {
    exists tx :: tx in s.open && s.open[tx].consumer == key.0 && key.1 in s.open[tx].delivered
  }

  /**
   * Conservation: every dispatch that returned is now exactly one of the mark, in flight, rolled
   * back, or a repeat, so a mark needs a return, and a second return a crash or a repeat.
   */
  ghost predicate Conserved(s: State, key: Key) {
    s.returned[key] ==
      (if IsDispatched(s.table, key) then 1 else 0) + (if InFlight(s, key) then 1 else 0)
      + s.rolledBack[key] + s.repeated[key]
  }

  /** The latest tables end the history; all earlier ones were in order and their events are still there. */
  ghost predicate Remembers(s: State) {
    && s.past != [] && s.past[|s.past| - 1] == Tables(s.outbox, s.table)
    && forall i :: 0 <= i < |s.past| ==>
         InOrder(s.past[i].outbox) && forall id :: id in Ids(s.past[i].outbox) ==> id in Ids(s.outbox)
  }

  ghost predicate Inv(s: State) {
    && InOrder(s.outbox)
    && Remembers(s)
    && (forall tx :: tx in s.open ==> GoodBatch(s, s.open[tx]))
    && ClaimsDisjoint(s)
    && (forall key :: Conserved(s, key))
    && (forall key :: IsDispatched(s.table, key) ==> key.1 in Ids(s.outbox))
  }

  lemma {:induction false} AppendKeeps(outbox: seq<Event>, events: seq<Event>)
    requires InOrder(outbox) && FreshEvents(outbox, events)
    ensures InOrder(AppendAll(outbox, events))
    ensures forall id :: id in Ids(outbox) ==> id in Ids(AppendAll(outbox, events))
    decreases |events|
  {
    if events != [] {
      var next := Insert(outbox, events[0]);
      assert events[0].id !in Ids(outbox);
      forall i | 0 <= i < |outbox|
        ensures outbox[i].id != events[0].id
      {
        assert Ids(outbox)[i] in Ids(outbox);
      }
      InsertKeepsOrder(outbox, events[0]);
      forall id
        ensures id in Ids(next) <==> id == events[0].id || id in Ids(outbox)
      {
        IdsAreEvents(next, id);
        IdsAreEvents(outbox, id);
      }
      forall i | 0 <= i < |events[1..]|
        ensures events[1..][i].id !in Ids(next)
      {
        assert Ids(events)[0] != Ids(events)[i + 1];
      }
      assert Ids(events)[1..] == Ids(events[1..]);
      AppendKeeps(next, events[1..]);
    }
  }

  lemma IdsAreEvents(outbox: seq<Event>, id: Id)
    ensures id in Ids(outbox) <==> exists e :: e in outbox && e.id == id
  {
  }

  lemma {:induction false} KeysCount(consumer: Consumer, ids: seq<Id>, key: Key)
    requires NoRepeats(ids)
    ensures Keys(consumer, ids)[key] == if key.0 == consumer && key.1 in ids then 1 else 0
  {
    if ids != [] {
      var front, last := ids[..|ids| - 1], ids[|ids| - 1];
      KeysCount(consumer, front, key);
      assert ids == front + [last];
      assert forall i :: 0 <= i < |front| ==> front[i] == ids[i] && ids[i] != ids[|ids| - 1];
    }
  }

  lemma {:induction false} AgainCount(table: DispatchTable, consumer: Consumer, ids: seq<Id>, key: Key)
    requires NoRepeats(ids)
    ensures Again(table, consumer, ids)[key] ==
            if key.0 == consumer && key.1 in ids && IsDispatched(table, key) then 1 else 0
  {
    if ids != [] {
      var front, last := ids[..|ids| - 1], ids[|ids| - 1];
      AgainCount(table, consumer, front, key);
      assert ids == front + [last];
      assert forall i :: 0 <= i < |front| ==> front[i] == ids[i] && ids[i] != ids[|ids| - 1];
    }
  }

  lemma ClaimedIsLocked(s: State, tx: nat, id: Id)
    requires tx in s.open && id in s.open[tx].claimed
    ensures id in Locked(s)
  {
  }

  /** A claim takes distinct rows held by nobody, each owed to the consumer in the tables it reads. */
  lemma ClaimIsFresh(s: State, seen: Tables, consumer: Consumer, limit: nat)
    requires InOrder(seen.outbox)
    ensures var claimed := ClaimPending(seen.outbox, seen.table, consumer, Locked(s), limit);
            && NoRepeats(claimed) && |claimed| <= limit
            && (forall id :: id in claimed ==> id in Ids(seen.outbox) && !IsDispatched(seen.table, (consumer, id)))
            && (forall t, id :: t in s.open && id in s.open[t].claimed ==> id !in claimed)
  {
    var pending := Pending(seen.outbox, seen.table, consumer, Locked(s));
    var claimed := ClaimPending(seen.outbox, seen.table, consumer, Locked(s), limit);
    PendingHasNoRepeats(seen.outbox, seen.table, consumer, Locked(s));
    hide InOrder, Pending, Ids, Locked;
    forall id | id in claimed
      ensures id in Ids(seen.outbox) && !IsDispatched(seen.table, (consumer, id)) && id !in Locked(s)
    {
      assert id in pending;
      PendingMembers(seen.outbox, seen.table, consumer, Locked(s), id);
    }
    forall t, id | t in s.open && id in s.open[t].claimed
      ensures id !in claimed
    {
      ClaimedIsLocked(s, t, id);
    }
  }

  lemma ClaimKeepsInv(s: State, step: Step)
    requires Inv(s) && step.Claim? && Enabled(s, step)
    ensures Inv(Apply(s, step))
  {
    var s' := Apply(s, step);
    ClaimIsFresh(s, s.past[step.asOf], step.consumer, step.limit);
    hide InOrder, Pending, Ids, Locked, ClaimPending, IsDispatched, AppendAll, Keys, Again;
    assert forall t :: t in s.open ==> GoodBatch(s', s'.open[t]);
    assert GoodBatch(s', s'.open[step.tx]);
    forall key
      ensures Conserved(s', key)
    {
      assert Conserved(s, key);
      assert InFlight(s, key) <==> InFlight(s', key) by {
        if t :| t in s.open && s.open[t].consumer == key.0 && key.1 in s.open[t].delivered {
          assert t in s'.open;
        }
      }
    }
  }

  /** One event of a batch dispatched, one way or the other. */
  lemma AdvanceKeepsInv(s: State, step: Step)
    requires Inv(s) && (step.Deliver? || step.Fail?) && Enabled(s, step)
    ensures Inv(Apply(s, step))
  {
    hide InOrder, Ids, Pending, Conserved, InFlight, IsDispatched, Keys, AppendAll, ClaimPending;
    var s', b := Apply(s, step), s.open[step.tx];
    var b', id := s'.open[step.tx], b.claimed[b.next];
    assert b.claimed[..b.next + 1] == b.claimed[..b.next] + [id];
    assert id !in b.claimed[..b.next];
    assert GoodBatch(s', b') by {
      assert GoodBatch(s, b);
    }
    forall t | t in s'.open
      ensures GoodBatch(s', s'.open[t])
    {
      assert t != step.tx ==> GoodBatch(s, s.open[t]);
    }
    forall key
      ensures Conserved(s', key)
    {
      AdvanceConserves(s, step, key);
    }
  }

  lemma AdvanceConserves(s: State, step: Step, key: Key)
    requires Inv(s) && (step.Deliver? || step.Fail?) && Enabled(s, step)
    ensures Conserved(Apply(s, step), key)
  {
    hide InOrder, Ids, Pending, InFlight, GoodBatch;
    assert Conserved(s, key);
    FlightAfterAdvance(s, step, key);
  }

  lemma FlightAfterAdvance(s: State, step: Step, key: Key)
    requires Inv(s) && (step.Deliver? || step.Fail?) && Enabled(s, step)
    ensures var b := s.open[step.tx];
            var own := (b.consumer, b.claimed[b.next]);
            && (InFlight(Apply(s, step), key) <==> InFlight(s, key) || (step.Deliver? && key == own))
            && (key == own ==> !InFlight(s, key))
  {
    hide InOrder, Ids, Pending;
    var s', b := Apply(s, step), s.open[step.tx];
    var id := b.claimed[b.next];
    if t :| t in s.open && s.open[t].consumer == key.0 && key.1 in s.open[t].delivered {
      assert t in s'.open && key.1 in s'.open[t].delivered;
      assert GoodBatch(s, s.open[t]) && key.1 in s.open[t].claimed;
      assert id !in b.claimed[..b.next];
    }
    if t :| t in s'.open && s'.open[t].consumer == key.0 && key.1 in s'.open[t].delivered {
      assert t in s.open;
    }
    if step.Deliver? && key == (b.consumer, id) {
      assert step.tx in s'.open && id in s'.open[step.tx].delivered;
    }
  }

  lemma CommitKeepsInv(s: State, step: Step)
    requires Inv(s) && step.Commit? && Enabled(s, step)
    ensures Inv(Apply(s, step))
  {
    var s', b := Apply(s, step), s.open[step.tx];
    assert GoodBatch(s, b);
    forall key
      ensures IsDispatched(s'.table, key) <==> IsDispatched(s.table, key) || (key.0 == b.consumer && key.1 in b.delivered)
    {
      CommitRows(s, step.tx, key);
    }
    forall t | t in s'.open
      ensures GoodBatch(s', s'.open[t])
    {
      assert GoodBatch(s, s.open[t]);
    }
    forall key
      ensures Conserved(s', key)
      ensures IsDispatched(s'.table, key) ==> key.1 in Ids(s'.outbox)
    {
      assert Conserved(s, key);
      FlightAfterClose(s, step, key);
      AgainCount(s.table, b.consumer, b.delivered, key);
    }
  }

  /** What a commit does to each row of the dispatch table. */
  lemma CommitRows(s: State, tx: nat, key: Key)
    requires tx in s.open && GoodBatch(s, s.open[tx])
    ensures var b, table := s.open[tx], Apply(s, Commit(tx)).table;
            && (IsDispatched(table, key) <==> IsDispatched(s.table, key) || (key.0 == b.consumer && key.1 in b.delivered))
            && Attempts(table, key) == Attempts(s.table, key) + (if key.0 == b.consumer && key.1 in b.failed then 1 else 0)
            && (key.0 != b.consumer || key.1 !in b.claimed ==> (key in table <==> key in s.table))
  {
    var b := s.open[tx];
    RecordAllRows(s.table, b.consumer, b.failed, key);
    MarkAllRows(RecordAll(s.table, b.consumer, b.failed), b.consumer, b.delivered, key);
  }

  lemma FlightAfterClose(s: State, step: Step, key: Key)
    requires Inv(s) && (step.Commit? || step.Crash?) && Enabled(s, step)
    ensures var b := s.open[step.tx];
            var own := key.0 == b.consumer && key.1 in b.delivered;
            && (InFlight(s, key) <==> own || InFlight(Apply(s, step), key))
            && !(own && InFlight(Apply(s, step), key))
            && (own ==> key.1 in Ids(s.outbox))
  {
    hide InOrder, Ids, Pending, Conserved;
    var s', b := Apply(s, step), s.open[step.tx];
    assert GoodBatch(s, b);
    if t :| t in s'.open && s'.open[t].consumer == key.0 && key.1 in s'.open[t].delivered {
      assert t in s.open && GoodBatch(s, s.open[t]);
      assert key.1 in s.open[t].claimed;
      assert key.1 in b.delivered ==> key.1 in b.claimed;
    }
    if t :| t in s.open && s.open[t].consumer == key.0 && key.1 in s.open[t].delivered {
      assert t != step.tx ==> t in s'.open;
    }
  }

  lemma CrashKeepsInv(s: State, step: Step)
    requires Inv(s) && step.Crash? && Enabled(s, step)
    ensures Inv(Apply(s, step))
  {
    var s', b := Apply(s, step), s.open[step.tx];
    assert GoodBatch(s, b);
    forall t | t in s'.open
      ensures GoodBatch(s', s'.open[t])
    {
      assert GoodBatch(s, s.open[t]);
    }
    forall key
      ensures Conserved(s', key)
    {
      assert Conserved(s, key);
      FlightAfterClose(s, step, key);
      KeysCount(b.consumer, b.delivered, key);
    }
  }

  lemma AppendKeepsInv(s: State, step: Step)
    requires Inv(s) && step.Append? && Enabled(s, step)
    ensures Inv(Apply(s, step))
  {
    var s' := Apply(s, step);
    AppendKeeps(s.outbox, step.events);
    forall t | t in s'.open
      ensures GoodBatch(s', s'.open[t])
    {
      assert GoodBatch(s, s.open[t]);
    }
    forall key
      ensures Conserved(s', key)
    {
      assert Conserved(s, key);
    }
  }

  lemma StepKeepsInv(s: State, step: Step)
    requires Inv(s) && Enabled(s, step)
    ensures Inv(Apply(s, step))
  {
    match step
    case Append(_) => AppendKeepsInv(s, step);
    case Claim(_, _, _, _) => ClaimKeepsInv(s, step);
    case Deliver(_) => AdvanceKeepsInv(s, step);
    case Fail(_) => AdvanceKeepsInv(s, step);
    case Commit(_) => CommitKeepsInv(s, step);
    case Crash(_) => CrashKeepsInv(s, step);
  }

  lemma {:induction false} RunKeepsInv(s: State, steps: seq<Step>)
    requires Inv(s) && IsRun(s, steps)
    ensures Inv(End(s, steps))
    decreases |steps|
  {
    hide Inv, Apply;
    if steps != [] {
      StepKeepsInv(s, steps[0]);
      RunKeepsInv(Apply(s, steps[0]), steps[1..]);
    }
  }

  /* ------------------------------- what every run promises ------------------------------- */

  lemma StartIsSound()
    ensures Inv(START) && NothingRepeats(START)
  {
    assert START.past[0] == Tables(START.outbox, START.table);
    assert Remembers(START);
    assert InOrder(START.outbox) && ClaimsDisjoint(START);
    forall key
      ensures Conserved(START, key)
    {
    }
  }

  /**
   * From an empty database, after any run: open claims are disjoint, every mark had its dispatch
   * return, and each return beyond that is in flight, was rolled back by a crash, or was committed
   * for an event already marked.
   */
  lemma EveryRunIsSafe(steps: seq<Step>)
    requires IsRun(START, steps)
    ensures var s := End(START, steps);
            && ClaimsDisjoint(s)
            && (forall key :: IsDispatched(s.table, key) ==> s.returned[key] >= 1)
            && (forall key :: s.returned[key] ==
                  (if IsDispatched(s.table, key) then 1 else 0) + (if InFlight(s, key) then 1 else 0)
                  + s.rolledBack[key] + s.repeated[key])
  {
    StartIsSound();
    RunKeepsInv(START, steps);
    hide InOrder, GoodBatch, InFlight, Remembers, ClaimsDisjoint, IsDispatched, Ids;
    var s := End(START, steps);
    forall key
      ensures IsDispatched(s.table, key) ==> s.returned[key] >= 1
      ensures s.returned[key] ==
                (if IsDispatched(s.table, key) then 1 else 0) + (if InFlight(s, key) then 1 else 0)
                + s.rolledBack[key] + s.repeated[key]
    {
      assert Conserved(s, key);
    }
  }

  /** Every claim's statement sees the tables as the last commit left them. */
  ghost predicate IsCurrentRun(s: State, steps: seq<Step>)
    decreases |steps|
  {
    steps == [] ||
    (Enabled(s, steps[0]) && (steps[0].Claim? ==> steps[0].asOf == |s.past| - 1)
     && IsCurrentRun(Apply(s, steps[0]), steps[1..]))
  }

  /** No open batch holds an event its consumer has been marked for, and none ever did. */
  ghost predicate NothingRepeats(s: State) {
    && (forall t, id :: t in s.open && id in s.open[t].claimed ==> !IsDispatched(s.table, (s.open[t].consumer, id)))
    && s.repeated == multiset{}
  }

  lemma CommitRepeatsNothing(s: State, tx: nat)
    requires Inv(s) && NothingRepeats(s) && Enabled(s, Commit(tx))
    ensures NothingRepeats(Apply(s, Commit(tx)))
  {
    hide InOrder, Ids, Pending, Conserved, Remembers, MarkAll, RecordAll;
    var s', b := Apply(s, Commit(tx)), s.open[tx];
    assert GoodBatch(s, b);
    forall t, id | t in s'.open && id in s'.open[t].claimed
      ensures !IsDispatched(s'.table, (s'.open[t].consumer, id))
    {
      assert t in s.open && id !in b.claimed;
      assert id in b.delivered ==> id in b.claimed;
      CommitRows(s, tx, (s'.open[t].consumer, id));
    }
    forall key
      ensures Again(s.table, b.consumer, b.delivered)[key] == 0
    {
      AgainCount(s.table, b.consumer, b.delivered, key);
      assert key.1 in b.delivered ==> key.1 in b.claimed;
    }
    assert Again(s.table, b.consumer, b.delivered) == multiset{};
  }

  lemma StepRepeatsNothing(s: State, step: Step)
    requires Inv(s) && NothingRepeats(s) && Enabled(s, step)
    requires step.Claim? ==> step.asOf == |s.past| - 1
    ensures NothingRepeats(Apply(s, step))
  {
    if step.Claim? {
      ClaimIsFresh(s, s.past[step.asOf], step.consumer, step.limit);
      hide ClaimPending, Locked, Ids;
      var s' := Apply(s, step);
      assert forall t :: t in s'.open ==> t == step.tx || (t in s.open && s'.open[t] == s.open[t]);
    } else if step.Commit? {
      CommitRepeatsNothing(s, step.tx);
    } else {
      hide AppendAll, Keys, Ids;
      var s' := Apply(s, step);
      assert forall t :: t in s'.open ==>
               t in s.open && s'.open[t].claimed == s.open[t].claimed && s'.open[t].consumer == s.open[t].consumer;
    }
  }

  lemma {:induction false} CurrentRunRepeatsNothing(s: State, steps: seq<Step>)
    requires Inv(s) && NothingRepeats(s) && IsCurrentRun(s, steps)
    ensures IsRun(s, steps) && Inv(End(s, steps)) && NothingRepeats(End(s, steps))
    decreases |steps|
  {
    hide Inv, NothingRepeats, Apply;
    if steps != [] {
      StepKeepsInv(s, steps[0]);
      StepRepeatsNothing(s, steps[0]);
      CurrentRunRepeatsNothing(Apply(s, steps[0]), steps[1..]);
    }
  }

  /** When no claim reads behind a commit, returns beyond the first are exactly those a crash rolled back. */
  lemma CurrentClaimsNeverRepeat(steps: seq<Step>)
    requires IsCurrentRun(START, steps)
    ensures IsRun(START, steps)
    ensures var s := End(START, steps);
            && (forall key :: IsDispatched(s.table, key) ==> s.returned[key] == 1 + s.rolledBack[key] && !InFlight(s, key))
            && (forall key :: !IsDispatched(s.table, key) && !InFlight(s, key) ==> s.returned[key] == s.rolledBack[key])
  {
    StartIsSound();
    CurrentRunRepeatsNothing(START, steps);
    var s := End(START, steps);
    forall key
      ensures IsDispatched(s.table, key) ==> s.returned[key] == 1 + s.rolledBack[key] && !InFlight(s, key)
      ensures !IsDispatched(s.table, key) && !InFlight(s, key) ==> s.returned[key] == s.rolledBack[key]
    {
      assert Conserved(s, key);
      if t :| t in s.open && s.open[t].consumer == key.0 && key.1 in s.open[t].delivered {
        assert GoodBatch(s, s.open[t]) && key.1 in s.open[t].claimed;
        assert key == (s.open[t].consumer, key.1);
      }
    }
  }

  /** The only way a mark appears is a commit of that consumer's batch that dispatched the event; none disappears. */
  lemma MarksComeFromCommits(s: State, step: Step, key: Key)
    requires Inv(s) && Enabled(s, step)
    ensures IsDispatched(s.table, key) ==> IsDispatched(Apply(s, step).table, key)
    ensures !IsDispatched(s.table, key) && IsDispatched(Apply(s, step).table, key) ==>
              step.Commit? && s.open[step.tx].consumer == key.0 && key.1 in s.open[step.tx].delivered && s.returned[key] > 0
  {
    if step.Commit? {
      assert GoodBatch(s, s.open[step.tx]) && Conserved(s, key);
      CommitRows(s, step.tx, key);
      FlightAfterClose(s, step, key);
    }
  }

  /** A step of one consumer never touches another consumer's rows. */
  lemma ConsumersAreIndependent(s: State, step: Step, key: Key)
    requires Inv(s) && Enabled(s, step)
    requires step.Commit? ==> s.open[step.tx].consumer != key.0
    ensures IsDispatched(Apply(s, step).table, key) == IsDispatched(s.table, key)
    ensures Attempts(Apply(s, step).table, key) == Attempts(s.table, key)
    ensures key in Apply(s, step).table <==> key in s.table
  {
    if step.Commit? {
      assert GoodBatch(s, s.open[step.tx]);
      CommitRows(s, step.tx, key);
    }
  }

  /**
   * Nothing is lost: an event unlocked, and unmarked in the tables a claim reads, is claimed exactly
   * when fewer than the limit are ahead of it there. Reading behind a commit, that can be an event
   * already marked.
   */
  lemma UnmarkedStaysClaimable(s: State, id: Id, tx: nat, consumer: Consumer, limit: nat, asOf: nat)
    requires Inv(s) && tx !in s.open && asOf < |s.past|
    requires id in Ids(s.past[asOf].outbox) && !IsDispatched(s.past[asOf].table, (consumer, id)) && id !in Locked(s)
    ensures var pending := Pending(s.past[asOf].outbox, s.past[asOf].table, consumer, Locked(s));
            id in pending &&
            (IndexOf(pending, id) < limit <==> id in Apply(s, Claim(tx, consumer, limit, asOf)).open[tx].claimed)
  {
    var seen := s.past[asOf];
    var pending := Pending(seen.outbox, seen.table, consumer, Locked(s));
    PendingMembers(seen.outbox, seen.table, consumer, Locked(s), id);
    PendingHasNoRepeats(seen.outbox, seen.table, consumer, Locked(s));
    var claimed := Take(pending, limit);
    var n := IndexOf(pending, id);
    if n < limit {
      assert claimed[n] == id;
    }
    if id in claimed {
      var i :| 0 <= i < |claimed| && claimed[i] == id;
      assert pending[i] == id;
    }
  }

  /** A crash at any point leaves the tables as they were and frees exactly the rows its batch held. */
  lemma CrashFreesItsRows(s: State, tx: nat)
    requires Inv(s) && tx in s.open
    ensures var s' := Apply(s, Crash(tx));
            && s'.table == s.table && s'.outbox == s.outbox
            && Locked(s') == Locked(s) - (set id | id in s.open[tx].claimed)
  {
    var s' := Apply(s, Crash(tx));
    forall id
      ensures id in Locked(s') <==> id in Locked(s) && id !in s.open[tx].claimed
    {
      if id in Locked(s) {
        var t, i :| t in s.open && 0 <= i < |s.open[t].claimed| && s.open[t].claimed[i] == id;
        if t != tx {
          ClaimedIsLocked(s', t, id);
        }
      }
      if id in Locked(s') {
        var t, i :| t in s'.open && 0 <= i < |s'.open[t].claimed| && s'.open[t].claimed[i] == id;
        ClaimedIsLocked(s, t, id);
      }
    }
  }

  lemma {:induction false} AppendAllMembers(outbox: seq<Event>, events: seq<Event>, e: Event)
    ensures e in AppendAll(outbox, events) <==> e in outbox || e in events
    decreases |events|
  {
    if events != [] {
      InsertMembers(outbox, events[0], e);
      AppendAllMembers(Insert(outbox, events[0]), events[1..], e);
      assert events == [events[0]] + events[1..];
    }
  }

  lemma LockedRowsExist(s: State, id: Id)
    requires Inv(s)
    ensures id in Locked(s) ==> id in Ids(s.outbox)
  {
    if id in Locked(s) {
      var tx, k :| tx in s.open && 0 <= k < |s.open[tx].claimed| && s.open[tx].claimed[k] == id;
      assert GoodBatch(s, s.open[tx]) && id in s.open[tx].claimed;
    }
  }

  /** An append adds exactly its events, each owed to every consumer, and touches no mark or open batch. */
  lemma AppendedIsOwed(s: State, events: seq<Event>, e: Event, consumer: Consumer)
    requires Inv(s) && Enabled(s, Append(events))
    ensures var s' := Apply(s, Append(events));
            && (e in s'.outbox <==> e in s.outbox || e in events)
            && (e in events ==> e.id in Pending(s'.outbox, s'.table, consumer, Locked(s')))
            && s'.table == s.table && s'.open == s.open
  {
    var s' := Apply(s, Append(events));
    AppendAllMembers(s.outbox, events, e);
    if e in events {
      var i :| 0 <= i < |events| && events[i] == e;
      assert e.id !in Ids(s.outbox);
      IdsAreEvents(s'.outbox, e.id);
      LockedRowsExist(s, e.id);
      assert !IsDispatched(s'.table, (consumer, e.id)) by {
        assert IsDispatched(s.table, (consumer, e.id)) ==> (consumer, e.id).1 in Ids(s.outbox);
      }
      PendingMembers(s'.outbox, s'.table, consumer, Locked(s'), e.id);
    }
  }
}
