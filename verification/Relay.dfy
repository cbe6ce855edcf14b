/**
 * The realtime relay's drain loop: claim a batch, dispatch each event, mark what was delivered,
 * and go round again while batches come back full.
 */
module Relay {
  import opened Outbox
  import opened Sequences
  import P = OutboxProtocol

  const BATCH_SIZE: nat := 100
  const CONSUMER: Consumer := "realtime"

  /** Whether `dispatch` returns for an event or throws. */
  type Outcome = Id -> bool

  function Delivered(ids: seq<Id>, ok: Outcome): seq<Id> {
    if ids == [] then [] else (if ok(ids[0]) then [ids[0]] else []) + Delivered(ids[1..], ok)
  }

  function Failing(ids: seq<Id>, ok: Outcome): seq<Id> {
    if ids == [] then [] else (if ok(ids[0]) then [] else [ids[0]]) + Failing(ids[1..], ok)
  }

  /** The events one claim takes off a queue. */
  function Head(queue: seq<Id>): (batch: seq<Id>)
    ensures batch <= queue && |batch| <= BATCH_SIZE && (|batch| < BATCH_SIZE ==> batch == queue)
  {
    Take(queue, BATCH_SIZE)
  }

  /** What is still owed after a batch: its failures, in front of everything it did not reach. */
  function Next(queue: seq<Id>, ok: Outcome): seq<Id> {
    Failing(Head(queue), ok) + queue[|Head(queue)|..]
  }

  /** The dispatch table after one batch commits. */
  function AfterBatch(table: DispatchTable, batch: seq<Id>, ok: Outcome): DispatchTable {
    MarkAll(RecordAll(table, CONSUMER, Failing(batch, ok)), CONSUMER, Delivered(batch, ok))
  }

  /** Batches a drain claims, in order; the last one is the first that is not full. */
  function Rounds(queue: seq<Id>, ok: Outcome): (rounds: seq<seq<Id>>)
    requires |Failing(queue, ok)| < BATCH_SIZE
    ensures |rounds| > 0 && rounds[0] == Head(queue)
    decreases |queue|
  {
    if |Head(queue)| < BATCH_SIZE then [Head(queue)]
    else
      NextShrinks(queue, ok);
      [Head(queue)] + Rounds(Next(queue, ok), ok)
  }

  function AfterDrain(table: DispatchTable, queue: seq<Id>, ok: Outcome): DispatchTable
    requires |Failing(queue, ok)| < BATCH_SIZE
    decreases |queue|
  {
    var after := AfterBatch(table, Head(queue), ok);
    if |Head(queue)| < BATCH_SIZE then after
    else
      NextShrinks(queue, ok);
      AfterDrain(after, Next(queue, ok), ok)
  }

  function TimesClaimed(rounds: seq<seq<Id>>, id: Id): nat
    decreases |rounds|
  {
    if rounds == [] then 0 else (if id in rounds[0] then 1 else 0) + TimesClaimed(rounds[1..], id)
  }

  /** The queue after `n` more batches, whichever drains they belong to. */
  function Iterate(queue: seq<Id>, ok: Outcome, n: nat): seq<Id>
    decreases n
  {
    if n == 0 then queue else Iterate(Next(queue, ok), ok, n - 1)
  }

  /* ------------------------------- splitting a batch ------------------------------- */

  lemma SplitJoins(a: seq<Id>, b: seq<Id>, ok: Outcome)
    ensures Delivered(a + b, ok) == Delivered(a, ok) + Delivered(b, ok)
    ensures Failing(a + b, ok) == Failing(a, ok) + Failing(b, ok)
  {
    DeliveredJoins(a, b, ok);
    FailingJoins(a, b, ok);
  }

  lemma {:induction false} DeliveredJoins(a: seq<Id>, b: seq<Id>, ok: Outcome)
    ensures Delivered(a + b, ok) == Delivered(a, ok) + Delivered(b, ok)
  {
    if a == [] {
      assert a + b == b;
    } else {
      assert (a + b)[1..] == a[1..] + b;
      DeliveredJoins(a[1..], b, ok);
    }
  }

  lemma {:induction false} FailingJoins(a: seq<Id>, b: seq<Id>, ok: Outcome)
    ensures Failing(a + b, ok) == Failing(a, ok) + Failing(b, ok)
  {
    if a == [] {
      assert a + b == b;
    } else {
      assert (a + b)[1..] == a[1..] + b;
      FailingJoins(a[1..], b, ok);
    }
  }

  lemma {:induction false} SplitMembers(ids: seq<Id>, ok: Outcome, id: Id)
    ensures id in Delivered(ids, ok) <==> id in ids && ok(id)
    ensures id in Failing(ids, ok) <==> id in ids && !ok(id)
  {
    if ids != [] {
      SplitMembers(ids[1..], ok, id);
      assert ids == [ids[0]] + ids[1..];
    }
  }

  lemma {:induction false} SplitCounts(ids: seq<Id>, ok: Outcome)
    ensures |Delivered(ids, ok)| + |Failing(ids, ok)| == |ids|
    ensures Failing(Failing(ids, ok), ok) == Failing(ids, ok) && Delivered(Failing(ids, ok), ok) == []
  {
    if ids != [] {
      SplitCounts(ids[1..], ok);
      if ok(ids[0]) {
        assert Failing(ids, ok) == Failing(ids[1..], ok);
      } else {
        assert Failing(ids, ok)[1..] == Failing(ids[1..], ok);
      }
    }
  }

  lemma {:induction false} SplitHasNoRepeats(ids: seq<Id>, ok: Outcome)
    requires NoRepeats(ids)
    ensures NoRepeats(Delivered(ids, ok)) && NoRepeats(Failing(ids, ok))
  {
    if ids != [] {
      var rest := ids[1..];
      SplitHasNoRepeats(rest, ok);
      assert forall i :: 0 <= i < |rest| ==> rest[i] == ids[i + 1] && ids[0] != rest[i];
      SplitMembers(rest, ok, ids[0]);
      assert ids[0] !in Delivered(rest, ok) && ids[0] !in Failing(rest, ok);
    }
  }

  /** A batch moves its deliverable events out of the queue and leaves the rest in order. */
  lemma NextSplits(queue: seq<Id>, ok: Outcome)
    ensures Failing(Next(queue, ok), ok) == Failing(queue, ok)
    ensures Delivered(queue, ok) == Delivered(Head(queue), ok) + Delivered(Next(queue, ok), ok)
    ensures |Next(queue, ok)| == |queue| - |Delivered(Head(queue), ok)|
  {
    var head, rest := Head(queue), queue[|Head(queue)|..];
    assert queue == head + rest;
    SplitJoins(head, rest, ok);
    SplitJoins(Failing(head, ok), rest, ok);
    SplitCounts(head, ok);
  }

  /** A full batch with fewer than BATCH_SIZE failing events around must deliver at least one. */
  lemma NextShrinks(queue: seq<Id>, ok: Outcome)
    requires |Failing(queue, ok)| < BATCH_SIZE <= |queue|
    ensures |Next(queue, ok)| < |queue| && |Failing(Next(queue, ok), ok)| < BATCH_SIZE
  {
    NextSplits(queue, ok);
    SplitCounts(Head(queue), ok);
    SplitJoins(Head(queue), queue[|Head(queue)|..], ok);
    assert queue == Head(queue) + queue[|Head(queue)|..];
  }

  lemma NextHasNoRepeats(queue: seq<Id>, ok: Outcome)
    requires NoRepeats(queue)
    ensures NoRepeats(Next(queue, ok))
  {
    var head, rest := Head(queue), queue[|Head(queue)|..];
    SplitHasNoRepeats(head, ok);
    forall i, j | 0 <= i < |Failing(head, ok)| && 0 <= j < |rest|
      ensures Failing(head, ok)[i] != rest[j]
    {
      var id := Failing(head, ok)[i];
      SplitMembers(head, ok, id);
      var k :| 0 <= k < |head| && head[k] == id;
      assert queue[k] == id && queue[|head| + j] == rest[j];
    }
  }

  /* ------------------------------- the queue in the tables ------------------------------- */

  lemma BatchRows(table: DispatchTable, batch: seq<Id>, ok: Outcome, key: Key)
    requires NoRepeats(batch)
    ensures var after := AfterBatch(table, batch, ok);
            && (IsDispatched(after, key) <==> IsDispatched(table, key) || (key.0 == CONSUMER && key.1 in batch && ok(key.1)))
            && Attempts(after, key) ==
                 Attempts(table, key) + (if key.0 == CONSUMER && key.1 in batch && !ok(key.1) then 1 else 0)
  {
    SplitHasNoRepeats(batch, ok);
    SplitMembers(batch, ok, key.1);
    RecordAllRows(table, CONSUMER, Failing(batch, ok), key);
    MarkAllRows(RecordAll(table, CONSUMER, Failing(batch, ok)), CONSUMER, Delivered(batch, ok), key);
  }

  function Without(ids: seq<Id>, gone: seq<Id>): seq<Id> {
    if ids == [] then [] else (if ids[0] in gone then [] else [ids[0]]) + Without(ids[1..], gone)
  }

  lemma {:induction false} PendingAfterMarks(outbox: seq<Event>, table: DispatchTable, after: DispatchTable,
                                             consumer: Consumer, locked: set<Id>, gone: seq<Id>)
    requires forall id :: IsDispatched(after, (consumer, id)) <==> IsDispatched(table, (consumer, id)) || id in gone
    ensures Pending(outbox, after, consumer, locked) == Without(Pending(outbox, table, consumer, locked), gone)
  {
    if outbox != [] {
      PendingAfterMarks(outbox[1..], table, after, consumer, locked, gone);
      var id, rest := outbox[0].id, Pending(outbox[1..], table, consumer, locked);
      if !IsDispatched(table, (consumer, id)) && id !in locked {
        assert ([id] + rest)[1..] == rest;
      } else {
        assert Pending(outbox, table, consumer, locked) == rest;
        assert Pending(outbox, after, consumer, locked) == Without(rest, gone);
      }
    }
  }

  lemma {:induction false} WithoutNone(ids: seq<Id>, gone: seq<Id>)
    requires forall i :: 0 <= i < |ids| ==> ids[i] !in gone
    ensures Without(ids, gone) == ids
  {
    if ids != [] {
      WithoutNone(ids[1..], gone);
    }
  }

  lemma {:induction false} WithoutDelivered(front: seq<Id>, rest: seq<Id>, gone: seq<Id>, ok: Outcome)
    requires forall i :: 0 <= i < |front| ==> (front[i] in gone <==> ok(front[i]))
    requires forall i :: 0 <= i < |rest| ==> rest[i] !in gone
    ensures Without(front + rest, gone) == Failing(front, ok) + rest
  {
    if front == [] {
      assert front + rest == rest;
      WithoutNone(rest, gone);
    } else {
      var kept := if ok(front[0]) then [] else [front[0]];
      assert (front + rest)[0] == front[0] && (front + rest)[1..] == front[1..] + rest;
      WithoutDelivered(front[1..], rest, gone, ok);
      assert kept + (Failing(front[1..], ok) + rest) == (kept + Failing(front[1..], ok)) + rest;
    }
  }

  lemma MarksOfBatch(table: DispatchTable, batch: seq<Id>, ok: Outcome)
    requires NoRepeats(batch)
    ensures forall id :: id in Delivered(batch, ok) <==> id in batch && ok(id)
    ensures forall id :: IsDispatched(AfterBatch(table, batch, ok), (CONSUMER, id)) <==>
                         IsDispatched(table, (CONSUMER, id)) || id in Delivered(batch, ok)
  {
    hide AfterBatch, IsDispatched, Attempts, Delivered;
    forall id
      ensures id in Delivered(batch, ok) <==> id in batch && ok(id)
      ensures IsDispatched(AfterBatch(table, batch, ok), (CONSUMER, id)) <==>
              IsDispatched(table, (CONSUMER, id)) || id in Delivered(batch, ok)
    {
      SplitMembers(batch, ok, id);
      BatchRows(table, batch, ok, (CONSUMER, id));
    }
  }

  lemma RestIsNotInHead(queue: seq<Id>)
    requires NoRepeats(queue)
    ensures queue == Head(queue) + queue[|Head(queue)|..]
    ensures forall j :: |Head(queue)| <= j < |queue| ==> queue[j] !in Head(queue)
  {
    var head := Head(queue);
    forall j | |head| <= j < |queue|
      ensures queue[j] !in head
    {
      assert forall i :: 0 <= i < |head| ==> head[i] == queue[i] && queue[i] != queue[j];
    }
  }

  /** Taking a batch's deliveries out of a queue leaves its failures in front of the rest. */
  lemma WithoutABatch(queue: seq<Id>, ok: Outcome)
    requires NoRepeats(queue)
    ensures Without(queue, Delivered(Head(queue), ok)) == Next(queue, ok)
  {
    var head, rest, gone := Head(queue), queue[|Head(queue)|..], Delivered(Head(queue), ok);
    RestIsNotInHead(queue);
    hide Without, Delivered, Failing, NoRepeats;
    forall i | 0 <= i < |head|
      ensures head[i] in gone <==> ok(head[i])
    {
      SplitMembers(head, ok, head[i]);
    }
    forall j | 0 <= j < |rest|
      ensures rest[j] !in gone
    {
      SplitMembers(head, ok, rest[j]);
    }
    WithoutDelivered(head, rest, gone, ok);
  }

  /** What the next claim will see once a batch has committed. */
  lemma QueueAfterBatch(outbox: seq<Event>, table: DispatchTable, locked: set<Id>, ok: Outcome)
    requires InOrder(outbox)
    ensures var queue := Pending(outbox, table, CONSUMER, locked);
            NoRepeats(queue) &&
            Pending(outbox, AfterBatch(table, Head(queue), ok), CONSUMER, locked) == Next(queue, ok)
  {
    hide *;
    var queue := Pending(outbox, table, CONSUMER, locked);
    PendingHasNoRepeats(outbox, table, CONSUMER, locked);
    HeadHasNoRepeats(queue);
    MarksOfBatch(table, Head(queue), ok);
    PendingAfterMarks(outbox, table, AfterBatch(table, Head(queue), ok), CONSUMER, locked, Delivered(Head(queue), ok));
    WithoutABatch(queue, ok);
  }

  lemma HeadHasNoRepeats(queue: seq<Id>)
    requires NoRepeats(queue)
    ensures NoRepeats(Head(queue))
  {
    assert forall i :: 0 <= i < |Head(queue)| ==> Head(queue)[i] == queue[i];
  }

  lemma SplitOne(rows: seq<Id>, i: nat, ok: Outcome)
    requires i < |rows|
    ensures Delivered(rows[..i + 1], ok) ==
            if ok(rows[i]) then Delivered(rows[..i], ok) + [rows[i]] else Delivered(rows[..i], ok)
    ensures Failing(rows[..i + 1], ok) ==
            if ok(rows[i]) then Failing(rows[..i], ok) else Failing(rows[..i], ok) + [rows[i]]
  {
    assert rows[..i + 1] == rows[..i] + [rows[i]];
    SplitJoins(rows[..i], [rows[i]], ok);
    assert [rows[i]][1..] == [];
  }

  lemma RecordOneMore(table: DispatchTable, ids: seq<Id>, id: Id)
    ensures RecordAll(table, CONSUMER, ids + [id]) == RecordFailure(RecordAll(table, CONSUMER, ids), (CONSUMER, id))
  {
  }

  lemma NothingDone(table: DispatchTable, rows: seq<Id>, ok: Outcome)
    ensures Delivered(rows[..0], ok) == [] && RecordAll(table, CONSUMER, Failing(rows[..0], ok)) == table
    ensures rows == [] ==> AfterBatch(table, rows, ok) == table
  {
  }

  /* ------------------------------- the relay ------------------------------- */

  class Relay {
    /** Committed tables, and the outbox rows other transactions hold throughout. */
    var outbox: seq<Event>
    var table: DispatchTable
    var locked: set<Id>

    constructor (outbox: seq<Event>, table: DispatchTable, locked: set<Id>)
      ensures this.outbox == outbox && this.table == table && this.locked == locked
    {
      this.outbox, this.table, this.locked := outbox, table, locked;
    }

    ghost function Queue(): seq<Id>
      reads this
    {
      Pending(outbox, table, CONSUMER, locked)
    }

    /** Dispatches the claimed events one by one, counting each failure as it happens. */
    method DispatchAll(rows: seq<Id>, ok: Outcome) returns (done: seq<Id>)
      modifies this`table
      ensures done == Delivered(rows, ok)
      ensures table == RecordAll(old(table), CONSUMER, Failing(rows, ok))
    {
      NothingDone(table, rows, ok);
      hide *;
      done := [];
      for i := 0 to |rows|
        invariant done == Delivered(rows[..i], ok)
        invariant table == RecordAll(old(table), CONSUMER, Failing(rows[..i], ok))
      {
        SplitOne(rows, i, ok);
        RecordOneMore(old(table), Failing(rows[..i], ok), rows[i]);
        if ok(rows[i]) {
          done := done + [rows[i]];
        } else {
          table := RecordFailure(table, (CONSUMER, rows[i]));
        }
      }
      assert rows[..|rows|] == rows;
    }

    /** One transaction: claim a batch, dispatch each event, count failures, mark deliveries. */
    method DrainOnce(ok: Outcome) returns (claimed: nat, delivered: nat)
      requires InOrder(outbox)
      modifies this`table
      ensures claimed == |Head(old(Queue()))| && delivered == |Delivered(Head(old(Queue())), ok)|
      ensures table == AfterBatch(old(table), Head(old(Queue())), ok)
      ensures Queue() == Next(old(Queue()), ok)
    {
      hide InOrder, Pending, Next, RecordAll, MarkAll;
      var rows := ClaimPending(outbox, table, CONSUMER, locked, BATCH_SIZE);
      QueueAfterBatch(outbox, table, locked, ok);
      if |rows| == 0 {
        NothingDone(table, rows, ok);
        return 0, 0;
      }
      var done := DispatchAll(rows, ok);
      table := MarkAll(table, CONSUMER, done);
      return |rows|, |done|;
    }

    /** Drains until a batch comes back short. */
    method DrainFully(ok: Outcome) returns (total: nat)
      requires InOrder(outbox)
      requires |Failing(Queue(), ok)| < BATCH_SIZE
      modifies this`table
      ensures total == |Delivered(old(Queue()), ok)|
      ensures Queue() == Failing(old(Queue()), ok)
      ensures table == AfterDrain(old(table), old(Queue()), ok)
    {
      total := 0;
      while true
        invariant Failing(Queue(), ok) == Failing(old(Queue()), ok)
        invariant total + |Delivered(Queue(), ok)| == |Delivered(old(Queue()), ok)|
        invariant AfterDrain(table, Queue(), ok) == AfterDrain(old(table), old(Queue()), ok)
        decreases |Queue()|
      {
        ghost var queue := Queue();
        NextSplits(queue, ok);
        var claimed, delivered := DrainOnce(ok);
        total := total + delivered;
        if claimed < BATCH_SIZE {
          ShortBatchEmpties(queue, ok);
          return;
        }
        NextShrinks(queue, ok);
      }
    }
  }

  lemma ShortBatchEmpties(queue: seq<Id>, ok: Outcome)
    requires |queue| < BATCH_SIZE
    ensures Head(queue) == queue && Next(queue, ok) == Failing(queue, ok) && Delivered(Next(queue, ok), ok) == []
  {
    SplitCounts(queue, ok);
  }

  /* ------------------------------- what a whole drain does ------------------------------- */

  /**
   * Row by row: exactly the deliverable events are marked, and each failing event's attempts rise
   * by the number of batches that claimed it. Other consumers' rows are untouched.
   */
  lemma {:induction false} DrainRows(table: DispatchTable, queue: seq<Id>, ok: Outcome, key: Key)
    requires NoRepeats(queue) && |Failing(queue, ok)| < BATCH_SIZE
    ensures var after := AfterDrain(table, queue, ok);
            && (IsDispatched(after, key) <==> IsDispatched(table, key) || (key.0 == CONSUMER && key.1 in queue && ok(key.1)))
            && Attempts(after, key) == Attempts(table, key) +
                 (if key.0 == CONSUMER && !ok(key.1) then TimesClaimed(Rounds(queue, ok), key.1) else 0)
    decreases |queue|
  {
    var head := Head(queue);
    BatchRows(table, head, ok, key);
    hide AfterBatch, IsDispatched, Attempts;
    if |head| < BATCH_SIZE {
      assert [head][1..] == [];
    } else {
      NextShrinks(queue, ok);
      NextHasNoRepeats(queue, ok);
      var next := Next(queue, ok);
      DrainRows(AfterBatch(table, head, ok), next, ok, key);
      assert ([head] + Rounds(next, ok))[1..] == Rounds(next, ok);
      NextMembers(queue, ok, key.1);
    }
  }

  lemma NextMembers(queue: seq<Id>, ok: Outcome, id: Id)
    ensures id in queue && !(id in Head(queue) && ok(id)) ==> id in Next(queue, ok)
    ensures id in Next(queue, ok) ==> id in queue
    ensures NoRepeats(queue) && id in Head(queue) && ok(id) ==> id !in Next(queue, ok)
  {
    var head, rest := Head(queue), queue[|Head(queue)|..];
    assert queue == head + rest;
    SplitMembers(head, ok, id);
    if NoRepeats(queue) && id in head {
      var i :| 0 <= i < |head| && head[i] == id;
      assert forall j :: 0 <= j < |rest| ==> rest[j] == queue[|head| + j] && queue[i] != queue[|head| + j];
    }
  }

  /** A deliverable event is claimed once; a failing one by at least one batch, and from then on by every batch. */
  lemma {:induction false} EachEventIsClaimed(queue: seq<Id>, ok: Outcome, id: Id)
    requires NoRepeats(queue) && |Failing(queue, ok)| < BATCH_SIZE
    ensures var rounds := Rounds(queue, ok);
            && (id !in queue ==> TimesClaimed(rounds, id) == 0)
            && (id in queue && ok(id) ==> TimesClaimed(rounds, id) == 1)
            && (id in queue && !ok(id) ==> TimesClaimed(rounds, id) >= 1)
            && (id in rounds[0] && !ok(id) ==> TimesClaimed(rounds, id) == |rounds|)
    decreases |queue|
  {
    var head := Head(queue);
    if |head| < BATCH_SIZE {
      assert [head][1..] == [];
    } else {
      NextShrinks(queue, ok);
      NextHasNoRepeats(queue, ok);
      NextMembers(queue, ok, id);
      EachEventIsClaimed(Next(queue, ok), ok, id);
      assert ([head] + Rounds(Next(queue, ok), ok))[1..] == Rounds(Next(queue, ok), ok);
      if id in head && !ok(id) {
        FailuresComeFirst(queue, ok, id);
      }
    }
  }

  lemma FailuresComeFirst(queue: seq<Id>, ok: Outcome, id: Id)
    requires id in Head(queue) && !ok(id)
    ensures id in Head(Next(queue, ok))
  {
    var head := Head(queue);
    SplitMembers(head, ok, id);
    SplitCounts(head, ok);
    var i :| 0 <= i < |Failing(head, ok)| && Failing(head, ok)[i] == id;
    assert Head(Next(queue, ok))[i] == id;
  }

  /* ------------------------------- when a drain ends, and what starves ------------------------------- */

  lemma {:induction false} IterateKeepsFailing(queue: seq<Id>, ok: Outcome, n: nat)
    ensures Failing(Iterate(queue, ok, n), ok) == Failing(queue, ok)
    decreases n
  {
    if n > 0 {
      NextSplits(queue, ok);
      IterateKeepsFailing(Next(queue, ok), ok, n - 1);
    }
  }

  lemma {:induction false} BatchesUntilShort(queue: seq<Id>, ok: Outcome) returns (n: nat)
    requires |Failing(queue, ok)| < BATCH_SIZE
    ensures |Iterate(queue, ok, n)| < BATCH_SIZE
    decreases |queue|
  {
    if |queue| < BATCH_SIZE {
      n := 0;
    } else {
      NextShrinks(queue, ok);
      var m := BatchesUntilShort(Next(queue, ok), ok);
      n := m + 1;
    }
  }

  /** The drain loop ends exactly when fewer than BATCH_SIZE pending events keep failing. */
  lemma DrainEndsIffFewFail(queue: seq<Id>, ok: Outcome)
    ensures (exists n: nat :: |Iterate(queue, ok, n)| < BATCH_SIZE) <==> |Failing(queue, ok)| < BATCH_SIZE
  {
    if |Failing(queue, ok)| < BATCH_SIZE {
      var n := BatchesUntilShort(queue, ok);
    }
    if n: nat :| |Iterate(queue, ok, n)| < BATCH_SIZE {
      IterateKeepsFailing(queue, ok, n);
      SplitCounts(Iterate(queue, ok, n), ok);
    }
  }

  /** Where an event past the head moves to when a batch is taken. */
  lemma NextPosition(queue: seq<Id>, ok: Outcome, p: nat) returns (q: nat)
    requires BATCH_SIZE <= p < |queue|
    ensures q < |Next(queue, ok)| && Next(queue, ok)[q] == queue[p] && q <= p
    ensures Failing(Next(queue, ok)[..q], ok) == Failing(queue[..p], ok)
    ensures q == p ==> |Failing(queue[..p], ok)| >= BATCH_SIZE
  {
    var head := Head(queue);
    var between := queue[BATCH_SIZE..p];
    SplitCounts(head, ok);
    q := |Failing(head, ok)| + p - BATCH_SIZE;
    assert queue[..p] == head + between;
    assert Next(queue, ok)[..q] == Failing(head, ok) + between;
    SplitJoins(head, between, ok);
    SplitJoins(Failing(head, ok), between, ok);
  }

  lemma {:induction false} BatchesToReach(queue: seq<Id>, ok: Outcome, p: nat) returns (n: nat)
    requires p < |queue| && |Failing(queue[..p], ok)| < BATCH_SIZE
    ensures queue[p] in Head(Iterate(queue, ok, n))
    decreases p
  {
    if p < BATCH_SIZE {
      n := 0;
      assert Head(queue)[p] == queue[p];
    } else {
      var q := NextPosition(queue, ok, p);
      var m := BatchesToReach(Next(queue, ok), ok, q);
      n := m + 1;
    }
  }

  lemma {:induction false} NeverReached(queue: seq<Id>, ok: Outcome, p: nat, n: nat)
    requires NoRepeats(queue) && p < |queue| && |Failing(queue[..p], ok)| >= BATCH_SIZE
    ensures queue[p] !in Head(Iterate(queue, ok, n))
    decreases n
  {
    SplitCounts(queue[..p], ok);
    if n == 0 {
      assert forall i :: 0 <= i < |Head(queue)| ==> Head(queue)[i] == queue[i] && queue[i] != queue[p];
    } else {
      var q := NextPosition(queue, ok, p);
      NextHasNoRepeats(queue, ok);
      NeverReached(Next(queue, ok), ok, q, n - 1);
    }
  }

  /**
   * `attempts` is never consulted by the claim, so an event is ever dispatched exactly when fewer
   * than BATCH_SIZE permanently failing events are ahead of it.
   */
  lemma ReachedIffFewFailAhead(queue: seq<Id>, ok: Outcome, p: nat)
    requires NoRepeats(queue) && p < |queue|
    ensures (exists n: nat :: queue[p] in Head(Iterate(queue, ok, n))) <==> |Failing(queue[..p], ok)| < BATCH_SIZE
  {
    if |Failing(queue[..p], ok)| < BATCH_SIZE {
      var n := BatchesToReach(queue, ok, p);
    } else {
      forall n: nat
        ensures queue[p] !in Head(Iterate(queue, ok, n))
      {
        NeverReached(queue, ok, p, n);
      }
    }
  }

  /* ------------------------------- a batch is a run of the protocol ------------------------------- */

  function Outcomes(tx: nat, ids: seq<Id>, ok: Outcome): seq<P.Step> {
    if ids == [] then [P.Commit(tx)]
    else [if ok(ids[0]) then P.Deliver(tx) else P.Fail(tx)] + Outcomes(tx, ids[1..], ok)
  }

  /** The commit that ends a batch writes what the batch did. */
  lemma CommittingABatch(s: P.State, tx: nat, ok: Outcome)
    requires tx in s.open && s.open[tx].consumer == CONSUMER && s.open[tx].next == |s.open[tx].claimed|
    requires s.open[tx].delivered == Delivered(s.open[tx].claimed, ok)
    requires s.open[tx].failed == Failing(s.open[tx].claimed, ok)
    ensures P.IsRun(s, [P.Commit(tx)])
    ensures var s' := P.End(s, [P.Commit(tx)]);
            && s'.table == AfterBatch(s.table, s.open[tx].claimed, ok) && s'.open == s.open - {tx}
            && s'.outbox == s.outbox && s'.rolledBack == s.rolledBack
  {
  }

  /** A batch some way through: what has been dispatched so far has been sorted by outcome. */
  ghost predicate IsUnderWay(s: P.State, tx: nat, ok: Outcome) {
    tx in s.open &&
    var b := s.open[tx];
    && b.consumer == CONSUMER && b.next <= |b.claimed|
    && b.delivered == Delivered(b.claimed[..b.next], ok) && b.failed == Failing(b.claimed[..b.next], ok)
  }

  lemma DispatchingOne(s: P.State, tx: nat, ok: Outcome)
    requires IsUnderWay(s, tx, ok) && s.open[tx].next < |s.open[tx].claimed|
    ensures var b := s.open[tx];
            var step := if ok(b.claimed[b.next]) then P.Deliver(tx) else P.Fail(tx);
            P.Enabled(s, step) &&
            var s' := P.Apply(s, step);
            && IsUnderWay(s', tx, ok) && s'.open[tx].claimed == b.claimed && s'.open[tx].next == b.next + 1
            && s'.open - {tx} == s.open - {tx} && s'.outbox == s.outbox && s'.table == s.table && s'.rolledBack == s.rolledBack
  {
    hide Delivered, Failing, Pending, P.Keys, AppendAll;
    SplitOne(s.open[tx].claimed, s.open[tx].next, ok);
  }

  lemma {:induction false} FinishingABatch(s: P.State, tx: nat, ok: Outcome)
    requires IsUnderWay(s, tx, ok)
    ensures var b := s.open[tx];
            var steps := Outcomes(tx, b.claimed[b.next..], ok);
            && P.IsRun(s, steps)
            && P.End(s, steps).table == AfterBatch(s.table, b.claimed, ok)
            && P.End(s, steps).open == s.open - {tx}
            && P.End(s, steps).outbox == s.outbox
            && P.End(s, steps).rolledBack == s.rolledBack
    decreases |s.open[tx].claimed| - s.open[tx].next
  {
    hide AfterBatch, P.Apply, P.Enabled;
    var b := s.open[tx];
    var rest := b.claimed[b.next..];
    var steps := Outcomes(tx, rest, ok);
    if rest == [] {
      assert b.claimed[..b.next] == b.claimed;
      CommittingABatch(s, tx, ok);
    } else {
      DispatchingOne(s, tx, ok);
      assert rest[1..] == b.claimed[b.next + 1..];
      assert steps[1..] == Outcomes(tx, rest[1..], ok);
      FinishingABatch(P.Apply(s, steps[0]), tx, ok);
    }
  }

  /** `DrainOnce` is one claim-to-commit run of the protocol, so every run property holds of it. */
  lemma DrainOnceIsARun(s: P.State, tx: nat, ok: Outcome)
    requires tx !in s.open && P.Remembers(s)
    ensures var batch := Head(Pending(s.outbox, s.table, CONSUMER, P.Locked(s)));
            var steps := [P.Claim(tx, CONSUMER, BATCH_SIZE, |s.past| - 1)] + Outcomes(tx, batch, ok);
            && P.IsRun(s, steps)
            && P.End(s, steps).table == AfterBatch(s.table, batch, ok)
            && P.End(s, steps).open == s.open
            && P.End(s, steps).outbox == s.outbox
            && P.End(s, steps).rolledBack == s.rolledBack
  {
    var batch := Head(Pending(s.outbox, s.table, CONSUMER, P.Locked(s)));
    var claim := P.Claim(tx, CONSUMER, BATCH_SIZE, |s.past| - 1);
    var steps := [claim] + Outcomes(tx, batch, ok);
    var s' := P.Apply(s, claim);
    assert s'.open[tx] == P.Batch(CONSUMER, batch, 0, [], []);
    assert batch[0..] == batch && batch[..0] == [];
    FinishingABatch(s', tx, ok);
    assert steps[1..] == Outcomes(tx, batch, ok);
    assert s'.open - {tx} == s.open;
  }
}
