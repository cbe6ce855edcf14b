/** The outbox and its per-consumer dispatch table, as the queries read and write them. */
module Outbox {
  import opened Lexicographic
  import opened Sequences

  type Id = string
  type Consumer = string

  /** An appended event; the claim reads oldest first, then by id. */
  datatype Event = Event(id: Id, occurredAt: int)

  /** One row per (consumer, event) that consumer has attempted. */
  datatype DispatchRow = DispatchRow(dispatched: bool, attempts: nat)

  type Key = (Consumer, Id)
  type DispatchTable = map<Key, DispatchRow>

  predicate Earlier(a: Event, b: Event) {
    a.occurredAt < b.occurredAt || (a.occurredAt == b.occurredAt && Less(a.id, b.id))
  }

  /** The table in the order `ORDER BY occurred_at, id` reads it. */
  ghost predicate InOrder(outbox: seq<Event>) {
    forall i, j :: 0 <= i < j < |outbox| ==> Earlier(outbox[i], outbox[j]) && outbox[i].id != outbox[j].id
  }

  function Ids(outbox: seq<Event>): (ids: seq<Id>)
    ensures |ids| == |outbox| && forall i :: 0 <= i < |outbox| ==> ids[i] == outbox[i].id
  {
    if outbox == [] then [] else [outbox[0].id] + Ids(outbox[1..])
  }

  /** Puts an event where the order wants it. */
  function Insert(outbox: seq<Event>, event: Event): seq<Event> {
    if outbox == [] || Earlier(event, outbox[0]) then [event] + outbox
    else [outbox[0]] + Insert(outbox[1..], event)
  }

  function AppendAll(outbox: seq<Event>, events: seq<Event>): seq<Event>
    decreases |events|
  {
    if events == [] then outbox else AppendAll(Insert(outbox, events[0]), events[1..])
  }

  function IsDispatched(table: DispatchTable, key: Key): bool {
    key in table && table[key].dispatched
  }

  function Attempts(table: DispatchTable, key: Key): nat {
    if key in table then table[key].attempts else 0
  }

  /** Events still owed to a consumer and not locked by another transaction, in claim order. */
  function Pending(outbox: seq<Event>, table: DispatchTable, consumer: Consumer, locked: set<Id>): seq<Id> {
    if outbox == [] then []
    else
      var id := outbox[0].id;
      (if !IsDispatched(table, (consumer, id)) && id !in locked then [id] else [])
      + Pending(outbox[1..], table, consumer, locked)
  }

  /** `SELECT ... LIMIT n FOR UPDATE OF o SKIP LOCKED`. */
  function ClaimPending(outbox: seq<Event>, table: DispatchTable, consumer: Consumer, locked: set<Id>, limit: nat): seq<Id> {
    Take(Pending(outbox, table, consumer, locked), limit)
  }

  /** Upsert that counts one more failed attempt and leaves the mark alone. */
  function RecordFailure(table: DispatchTable, key: Key): DispatchTable {
    table[key := DispatchRow(IsDispatched(table, key), Attempts(table, key) + 1)]
  }

  /** Upsert that sets the mark and leaves the count alone. */
  function MarkOne(table: DispatchTable, key: Key): DispatchTable {
    table[key := DispatchRow(true, Attempts(table, key))]
  }

  function RecordAll(table: DispatchTable, consumer: Consumer, ids: seq<Id>): DispatchTable {
    if ids == [] then table else RecordFailure(RecordAll(table, consumer, ids[..|ids| - 1]), (consumer, ids[|ids| - 1]))
  }

  function MarkAll(table: DispatchTable, consumer: Consumer, ids: seq<Id>): DispatchTable {
    if ids == [] then table else MarkOne(MarkAll(table, consumer, ids[..|ids| - 1]), (consumer, ids[|ids| - 1]))
  }

  /* ------------------------------- what the queries mean ------------------------------- */

  lemma {:induction false} InsertMembers(outbox: seq<Event>, event: Event, e: Event)
    ensures e in Insert(outbox, event) <==> e == event || e in outbox
  {
    if outbox != [] && !Earlier(event, outbox[0]) {
      InsertMembers(outbox[1..], event, e);
      assert outbox == [outbox[0]] + outbox[1..];
    }
  }

  lemma EarlierIsTransitive(a: Event, b: Event, c: Event)
    requires Earlier(a, b) && Earlier(b, c)
    ensures Earlier(a, c)
  {
    if a.occurredAt == b.occurredAt == c.occurredAt {
      Transitive(a.id, b.id, c.id);
    }
  }

  /** Inserting keeps the claim order, and adds exactly the one event. */
  lemma {:induction false} InsertKeepsOrder(outbox: seq<Event>, event: Event)
    requires InOrder(outbox) && forall i :: 0 <= i < |outbox| ==> outbox[i].id != event.id
    ensures InOrder(Insert(outbox, event))
    ensures forall e :: e in Insert(outbox, event) <==> e == event || e in outbox
  {
    forall e
      ensures e in Insert(outbox, event) <==> e == event || e in outbox
    {
      InsertMembers(outbox, event, e);
    }
    hide Earlier, Less;
    if outbox == [] {
    } else if Earlier(event, outbox[0]) {
      forall j | 0 < j < |outbox|
        ensures Earlier(event, outbox[j])
      {
        EarlierIsTransitive(event, outbox[0], outbox[j]);
      }
    } else {
      var rest := outbox[1..];
      InsertKeepsOrder(rest, event);
      var tail := Insert(rest, event);
      OneIsEarlier(event, outbox[0]);
      forall j | 0 <= j < |tail|
        ensures Earlier(outbox[0], tail[j]) && outbox[0].id != tail[j].id
      {
        assert tail[j] in tail;
        InsertMembers(rest, event, tail[j]);
      }
    }
  }

  lemma OneIsEarlier(a: Event, b: Event)
    requires a.id != b.id
    ensures Earlier(a, b) || Earlier(b, a)
  {
    Trichotomy(a.id, b.id);
  }

  lemma {:induction false} PendingMembers(outbox: seq<Event>, table: DispatchTable, consumer: Consumer, locked: set<Id>, id: Id)
    ensures id in Pending(outbox, table, consumer, locked) <==>
            id in Ids(outbox) && !IsDispatched(table, (consumer, id)) && id !in locked
  {
    if outbox != [] {
      PendingMembers(outbox[1..], table, consumer, locked, id);
      assert Ids(outbox) == [outbox[0].id] + Ids(outbox[1..]);
    }
  }

  lemma {:induction false} PendingHasNoRepeats(outbox: seq<Event>, table: DispatchTable, consumer: Consumer, locked: set<Id>)
    requires InOrder(outbox)
    ensures NoRepeats(Pending(outbox, table, consumer, locked))
  {
    if outbox != [] {
      var rest := Pending(outbox[1..], table, consumer, locked);
      PendingHasNoRepeats(outbox[1..], table, consumer, locked);
      forall j | 0 <= j < |rest|
        ensures rest[j] != outbox[0].id
      {
        PendingMembers(outbox[1..], table, consumer, locked, rest[j]);
        var k :| 0 <= k < |Ids(outbox[1..])| && Ids(outbox[1..])[k] == rest[j];
        assert outbox[k + 1].id == rest[j];
      }
    }
  }

  lemma {:induction false} RecordAllRows(table: DispatchTable, consumer: Consumer, ids: seq<Id>, key: Key)
    ensures var after := RecordAll(table, consumer, ids);
            && IsDispatched(after, key) == IsDispatched(table, key)
            && (key.0 != consumer || key.1 !in ids ==> (key in after <==> key in table) && Attempts(after, key) == Attempts(table, key))
            && (NoRepeats(ids) && key.0 == consumer && key.1 in ids ==> Attempts(after, key) == Attempts(table, key) + 1)
  {
    if ids != [] {
      var front := ids[..|ids| - 1];
      RecordAllRows(table, consumer, front, key);
      assert ids == front + [ids[|ids| - 1]];
    }
  }

  lemma {:induction false} MarkAllRows(table: DispatchTable, consumer: Consumer, ids: seq<Id>, key: Key)
    ensures var after := MarkAll(table, consumer, ids);
            && (IsDispatched(after, key) <==> IsDispatched(table, key) || (key.0 == consumer && key.1 in ids))
            && Attempts(after, key) == Attempts(table, key)
            && (key.0 != consumer || key.1 !in ids ==> (key in after <==> key in table))
  {
    if ids != [] {
      var front := ids[..|ids| - 1];
      MarkAllRows(table, consumer, front, key);
      assert ids == front + [ids[|ids| - 1]];
    }
  }

  /** Some event under one id is older than some event under another, or as old with the lower id. */
  ghost predicate IsOlder(outbox: seq<Event>, a: Id, b: Id) {
    exists e, f :: e in outbox && f in outbox && e.id == a && f.id == b
                   && (e.occurredAt < f.occurredAt || (e.occurredAt == f.occurredAt && Less(a, b)))
  }

  lemma OlderInMore(first: Event, rest: seq<Event>, a: Id, b: Id)
    requires IsOlder(rest, a, b)
    ensures IsOlder([first] + rest, a, b)
  {
  }

  lemma FirstIsOlder(outbox: seq<Event>, id: Id)
    requires InOrder(outbox) && outbox != [] && id in Ids(outbox[1..])
    ensures IsOlder(outbox, outbox[0].id, id)
  {
    var rest := outbox[1..];
    var k :| 0 <= k < |Ids(rest)| && Ids(rest)[k] == id;
    assert Earlier(outbox[0], outbox[k + 1]) && outbox[k + 1].id == id;
    assert outbox[0] in outbox && outbox[k + 1] in outbox;
  }

  /** What a claim takes, it takes oldest first, ids settling ties. */
  lemma {:induction false} ClaimsOldestFirst(outbox: seq<Event>, table: DispatchTable, consumer: Consumer, locked: set<Id>, i: nat, j: nat)
    requires InOrder(outbox) && i < j < |Pending(outbox, table, consumer, locked)|
    ensures var pending := Pending(outbox, table, consumer, locked); IsOlder(outbox, pending[i], pending[j])
  {
    hide IsOlder, IsDispatched, Less;
    var pending, rest := Pending(outbox, table, consumer, locked), Pending(outbox[1..], table, consumer, locked);
    assert outbox == [outbox[0]] + outbox[1..];
    assert InOrder(outbox[1..]);
    if pending == rest {
      ClaimsOldestFirst(outbox[1..], table, consumer, locked, i, j);
      OlderInMore(outbox[0], outbox[1..], pending[i], pending[j]);
    } else {
      assert pending == [outbox[0].id] + rest;
      if i > 0 {
        ClaimsOldestFirst(outbox[1..], table, consumer, locked, i - 1, j - 1);
        OlderInMore(outbox[0], outbox[1..], pending[i], pending[j]);
      } else {
        assert pending[j] == rest[j - 1];
        PendingMembers(outbox[1..], table, consumer, locked, pending[j]);
        FirstIsOlder(outbox, pending[j]);
      }
    }
  }
}
