/** Dragging cards: single-row rank writes against plain list editing. */
module CardOrder {
  import opened Wrappers
  import opened Lexicographic
  import opened RankIntegers
  import opened Ranks
  import opened RankGeneration
  import opened Sequences

  type Id = string

  /** Rank first, id where ranks tie. */
  function CompareRanked(rankA: string, idA: Id, rankB: string, idB: Id): int {
    if Less(rankA, rankB) then -1
    else if Less(rankB, rankA) then 1
    else if Less(idA, idB) then -1
    else if Less(idB, idA) then 1
    else 0
  }

  predicate Precedes(ranks: map<Id, string>, a: Id, b: Id) {
    a in ranks && b in ranks && CompareRanked(ranks[a], a, ranks[b], b) < 0
  }

  /** Lower rank first; of equal ranks, lower id first; and nothing else counts. */
  lemma ComparesByRankThenId(rankA: string, idA: Id, rankB: string, idB: Id)
    ensures CompareRanked(rankA, idA, rankB, idB) < 0 <==> Less(rankA, rankB) || (rankA == rankB && Less(idA, idB))
    ensures CompareRanked(rankA, idA, rankB, idB) == 0 <==> rankA == rankB && idA == idB
    ensures CompareRanked(rankA, idA, rankB, idB) == -CompareRanked(rankB, idB, rankA, idA)
  {
    Trichotomy(rankA, rankB);
    Trichotomy(idA, idB);
  }

  /** The comparator is a strict total order on the rows of a list. */
  lemma PrecedesIsTotal(ranks: map<Id, string>, a: Id, b: Id, c: Id)
    requires a in ranks && b in ranks && c in ranks
    ensures Precedes(ranks, a, b) || a == b || Precedes(ranks, b, a)
    ensures !(Precedes(ranks, a, b) && Precedes(ranks, b, a))
    ensures Precedes(ranks, a, b) && Precedes(ranks, b, c) ==> Precedes(ranks, a, c)
  {
    Trichotomy(ranks[a], ranks[b]);
    Trichotomy(ranks[b], ranks[c]);
    Trichotomy(a, b);
    if Less(ranks[a], ranks[b]) && Less(ranks[b], ranks[c]) {
      Transitive(ranks[a], ranks[b], ranks[c]);
    }
    if Less(a, b) && Less(b, c) {
      Transitive(a, b, c);
    }
    Trichotomy(ranks[a], ranks[c]);
  }

  /** `list` is the rows in `ORDER BY rank, id`. */
  ghost predicate IsOrder(ranks: map<Id, string>, list: seq<Id>) {
    && (forall id :: id in list <==> id in ranks)
    && (forall i, j :: 0 <= i < j < |list| ==> Precedes(ranks, list[i], list[j]))
  }

  lemma BothEmpty(ranks: map<Id, string>, a: seq<Id>, b: seq<Id>)
    requires IsOrder(ranks, a) && IsOrder(ranks, b)
    ensures a == [] <==> b == []
  {
    if a != [] {
      assert a[0] in b;
    }
    if b != [] {
      assert b[0] in a;
    }
  }

  lemma OrderedPair(ranks: map<Id, string>, list: seq<Id>, i: nat, j: nat)
    requires IsOrder(ranks, list) && i < |list| && j < |list|
    ensures i < j ==> Precedes(ranks, list[i], list[j])
  {
  }

  /** There is one way to order a set of rows. */
  lemma {:induction false} OrderIsUnique(ranks: map<Id, string>, a: seq<Id>, b: seq<Id>)
    requires IsOrder(ranks, a) && IsOrder(ranks, b)
    ensures a == b
  {
    BothEmpty(ranks, a, b);
    if a != [] {
      assert a[0] in a && b[0] in b;
      var i :| 0 <= i < |b| && b[i] == a[0];
      var j :| 0 <= j < |a| && a[j] == b[0];
      PrecedesIsTotal(ranks, a[0], b[0], a[0]);
      OrderWithoutFirst(ranks, a);
      OrderWithoutFirst(ranks, b);
      OrderIsUnique(ranks - {a[0]}, a[1..], b[1..]);
      assert a == [a[0]] + a[1..] && b == [b[0]] + b[1..];
    }
  }

  lemma OrderWithoutFirst(ranks: map<Id, string>, list: seq<Id>)
    requires IsOrder(ranks, list) && list != []
    ensures IsOrder(ranks - {list[0]}, list[1..])
  {
    var rest := list[1..];
    forall id
      ensures id in rest <==> id in ranks - {list[0]}
    {
      if id in rest {
        var j :| 0 <= j < |rest| && rest[j] == id;
        assert Precedes(ranks, list[0], list[j + 1]);
        PrecedesIsTotal(ranks, list[0], list[j + 1], list[0]);
      }
      if id in ranks - {list[0]} {
        var j :| 0 <= j < |list| && list[j] == id;
        assert rest[j - 1] == id;
      }
    }
  }

  /** Where a row belongs among ordered rows. */
  lemma {:induction false} InsertionPoint(ranks: map<Id, string>, list: seq<Id>, id: Id) returns (at: nat)
    requires id in ranks && IsOrder(ranks - {id}, list)
    ensures at <= |list|
    ensures forall i :: 0 <= i < at ==> Precedes(ranks, list[i], id)
    ensures forall i :: at <= i < |list| ==> Precedes(ranks, id, list[i])
  {
    at := 0;
    while at < |list| && Precedes(ranks, list[at], id)
      invariant at <= |list|
      invariant forall i :: 0 <= i < at ==> Precedes(ranks, list[i], id)
    {
      at := at + 1;
    }
    forall i | at <= i < |list|
      ensures Precedes(ranks, id, list[i])
    {
      assert list[at] in list && list[i] in list;
      PrecedesIsTotal(ranks, list[at], id, list[i]);
      PrecedesIsTotal(ranks, id, list[at], list[i]);
      if at < i {
        assert Precedes(ranks - {id}, list[at], list[i]);
      }
    }
  }

  function InsertAt(list: seq<Id>, index: nat, id: Id): seq<Id>
    requires index <= |list|
  {
    list[..index] + [id] + list[index..]
  }

  /** Inserting a row where its rank puts it keeps the list in order. */
  lemma InsertKeepsOrder(ranks: map<Id, string>, list: seq<Id>, id: Id, at: nat)
    requires id in ranks && IsOrder(ranks - {id}, list) && at <= |list|
    requires forall i :: 0 <= i < at ==> Precedes(ranks, list[i], id)
    requires forall i :: at <= i < |list| ==> Precedes(ranks, id, list[i])
    ensures IsOrder(ranks, InsertAt(list, at, id))
  {
    var result := InsertAt(list, at, id);
    forall x
      ensures x in result <==> x in ranks
    {
      assert x in result <==> x in list[..at] || x == id || x in list[at..];
      assert list == list[..at] + list[at..];
      assert x in ranks <==> x == id || x in ranks - {id};
    }
    forall i, j | 0 <= i < j < |result|
      ensures Precedes(ranks, result[i], result[j])
    {
      var i', j' := if i < at then i else i - 1, if j < at then j else j - 1;
      if i != at && j != at {
        assert Precedes(ranks - {id}, list[i'], list[j']);
      }
    }
  }

  lemma {:induction false} OrderExists(ranks: map<Id, string>)
    ensures exists list :: IsOrder(ranks, list)
    decreases |ranks|
  {
    if ranks == map[] {
      assert IsOrder(ranks, []);
    } else {
      var id :| id in ranks;
      OrderExists(ranks - {id});
      var list :| IsOrder(ranks - {id}, list);
      var at := InsertionPoint(ranks, list, id);
      InsertKeepsOrder(ranks, list, id, at);
    }
  }

  /** What `ORDER BY rank, id` returns. */
  ghost function OrderOf(ranks: map<Id, string>): (list: seq<Id>)
    ensures IsOrder(ranks, list)
  {
    OrderExists(ranks);
    var list :| IsOrder(ranks, list);
    list
  }

  lemma OrderIs(ranks: map<Id, string>, list: seq<Id>)
    requires IsOrder(ranks, list)
    ensures OrderOf(ranks) == list
  {
    OrderIsUnique(ranks, OrderOf(ranks), list);
  }

  /* ------------------------------- moving a card ------------------------------- */

  /** One list: the rank of every card not deleted, and which of them are archived. */
  datatype Column = Column(ranks: map<Id, string>, archived: set<Id>) {
    /** The live cards other than the one being moved. */
    function Siblings(card: Id): map<Id, string> {
      ranks - archived - {card}
    }

    /** What the board shows. */
    ghost function Shown(): seq<Id> {
      OrderOf(ranks - archived)
    }

    ghost predicate Valid() {
      forall id :: id in ranks ==> IsRank(ranks[id])
    }
  }

  datatype MoveError = NotFound | Unrankable(error: RankError)

  function RankOfNeighbour(siblings: map<Id, string>, card: Option<Id>): Result<Option<string>, MoveError> {
    match card
    case None => Ok(None)
    case Some(id) => if id in siblings then Ok(Some(siblings[id])) else Err(NotFound)
  }

  /** Every row gets the next seeded rank, in the present order. */
  ghost function Rebalance(ranks: map<Id, string>): (rebalanced: map<Id, string>)
    ensures rebalanced.Keys == ranks.Keys
  {
    var list := OrderOf(ranks);
    map id | id in ranks :: RankSequence(|list|)[IndexOf(list, id)]
  }

  /** `moveCard`: rank from the named neighbours; if they cannot be ranked between, rebalance and retry. */
  ghost function MoveCard(column: Column, card: Id, before: Option<Id>, after: Option<Id>): Result<Column, MoveError> {
    var low :- RankOfNeighbour(column.Siblings(card), before);
    var high :- RankOfNeighbour(column.Siblings(card), after);
    match Between(low, high)
    case Ok(rank) => Ok(column.(ranks := column.ranks[card := rank]))
    case Err(_) =>
      var repaired := column.(ranks := Rebalance(column.ranks));
      var low' :- RankOfNeighbour(repaired.Siblings(card), before);
      var high' :- RankOfNeighbour(repaired.Siblings(card), after);
      match Between(low', high')
      case Ok(rank) => Ok(repaired.(ranks := repaired.ranks[card := rank]))
      case Err(error) => Err(Unrankable(error))
  }

  /** The neighbours of slot `index` among the other cards. */
  function Neighbour(list: seq<Id>, index: int): Option<Id> {
    if 0 <= index < |list| then Some(list[index]) else None
  }

  /** A row whose rank lies strictly between its neighbours' belongs in that slot. */
  lemma InsideMeansInSlot(ranks: map<Id, string>, list: seq<Id>, id: Id, index: nat)
    requires id in ranks && IsOrder(ranks - {id}, list) && index <= |list|
    requires index > 0 ==> list[index - 1] in ranks && Less(ranks[list[index - 1]], ranks[id])
    requires index < |list| ==> list[index] in ranks && Less(ranks[id], ranks[list[index]])
    ensures IsOrder(ranks, InsertAt(list, index, id))
  {
    forall i | 0 <= i < |list|
      ensures i < index ==> Precedes(ranks, list[i], id)
      ensures i >= index ==> Precedes(ranks, id, list[i])
    {
      assert list[i] in list;
      if i < index {
        assert list[index - 1] in list;
        Trichotomy(ranks[list[index - 1]], ranks[id]);
        assert i < index - 1 ==> Precedes(ranks - {id}, list[i], list[index - 1]);
        PrecedesIsTotal(ranks, list[i], list[index - 1], id);
      } else {
        assert list[index] in list;
        Trichotomy(ranks[id], ranks[list[index]]);
        assert i > index ==> Precedes(ranks - {id}, list[index], list[i]);
        PrecedesIsTotal(ranks, id, list[index], list[i]);
      }
    }
    InsertKeepsOrder(ranks, list, id, index);
  }

  /** Rebalancing keeps every pair in order and pulls equal ranks apart. */
  lemma RebalanceSeparates(ranks: map<Id, string>, a: Id, b: Id)
    requires a in ranks && b in ranks && Precedes(ranks, a, b)
    ensures Less(Rebalance(ranks)[a], Rebalance(ranks)[b])
    ensures IsRank(Rebalance(ranks)[a]) && IsRank(Rebalance(ranks)[b])
    ensures Precedes(Rebalance(ranks), a, b)
  {
    var list := OrderOf(ranks);
    var i, j := IndexOf(list, a), IndexOf(list, b);
    PrecedesIsTotal(ranks, a, b, a);
    OrderedPair(ranks, list, j, i);
    assert RankSequence(|list|)[i] in RankSequence(|list|) && RankSequence(|list|)[j] in RankSequence(|list|);
    SequenceAscends(|list|, i, j);
  }

  /** Whatever subset is shown, rebalancing does not change its order. */
  lemma RebalanceKeepsOrder(ranks: map<Id, string>, hidden: set<Id>, list: seq<Id>)
    requires IsOrder(ranks - hidden, list)
    ensures IsOrder(Rebalance(ranks) - hidden, list)
  {
    forall i, j | 0 <= i < j < |list|
      ensures Precedes(Rebalance(ranks) - hidden, list[i], list[j])
    {
      assert list[i] in list && list[j] in list;
      assert Precedes(ranks - hidden, list[i], list[j]);
      RebalanceSeparates(ranks, list[i], list[j]);
    }
  }

  lemma RebalanceIsValid(ranks: map<Id, string>)
    ensures forall id :: id in ranks ==> IsRank(Rebalance(ranks)[id])
    ensures forall id :: id in ranks ==> Rebalance(ranks)[id] != SMALLEST_INTEGER
  {
    forall id | id in ranks
      ensures IsRank(Rebalance(ranks)[id]) && Rebalance(ranks)[id] != SMALLEST_INTEGER
    {
      var list := OrderOf(ranks);
      var i := IndexOf(list, id);
      SequenceStartsAtZero(|list|, i);
    }
  }

  lemma SequenceStartsAtZero(count: nat, i: nat)
    requires i < count
    ensures IsRank(RankSequence(count)[i]) && RankSequence(count)[i] != SMALLEST_INTEGER
  {
    var r := RankSequence(count)[i];
    assert r in RankSequence(count);
    FirstIsZero(count);
    Trichotomy("a0", SMALLEST_INTEGER);
    if i > 0 {
      SequenceAscends(count, 0, i);
      Trichotomy(r, "a0");
      assert SMALLEST_INTEGER[0] == 'A';
      Transitive("a0", r, r + "0") by { ProperPrefix(r, "0"); }
    }
  }

  lemma {:induction false} FirstIsZero(count: nat)
    requires count > 0
    ensures RankSequence(count)[0] == "a0"
  {
    if count > 1 {
      FirstIsZero(count - 1);
    }
  }

  /** Rebalancing numbers the rows in order: the i-th gets the bare integer i. */
  lemma RebalanceNumbersTheRows(ranks: map<Id, string>, i: nat)
    requires i < |OrderOf(ranks)| && i < Limit()
    ensures OrderOf(ranks)[i] in ranks
    ensures var r := Rebalance(ranks)[OrderOf(ranks)[i]]; IsInteger(r) && IntegerValue(r) == i
  {
    hide Limit, IntegerValue, IsInteger;
    var list := OrderOf(ranks);
    assert list[i] in list;
    var j := IndexOf(list, list[i]);
    if j != i {
      OrderedPair(ranks, list, if i < j then i else j, if i < j then j else i);
      PrecedesIsTotal(ranks, list[i], list[j], list[i]);
    }
    SequenceCounts(|list|, i);
  }

  /** The slot asks for room in front of a card that already has the lowest possible rank. */
  predicate FloorSlot(ranks: map<Id, string>, list: seq<Id>, index: nat) {
    index == 0 && list != [] && list[0] in ranks && ranks[list[0]] == SMALLEST_INTEGER
  }

  /** Two clients inserted at the same point: the slot's neighbours have one rank between them. */
  predicate TiedSlot(ranks: map<Id, string>, list: seq<Id>, index: nat) {
    && 0 < index < |list| && list[index - 1] in ranks && list[index] in ranks
    && ranks[list[index - 1]] == ranks[list[index]]
  }

  lemma SlotNeighboursOrdered(ranks: map<Id, string>, list: seq<Id>, index: nat)
    requires IsOrder(ranks, list) && 0 < index < |list|
    ensures list[index - 1] in ranks && list[index] in ranks
    ensures ranks[list[index - 1]] != ranks[list[index]] ==> Less(ranks[list[index - 1]], ranks[list[index]])
    ensures Precedes(ranks, list[index - 1], list[index])
  {
    assert list[index - 1] in list && list[index] in list;
    Trichotomy(ranks[list[index - 1]], ranks[list[index]]);
  }

  /**
   * Dropping a card into a slot always succeeds, and the board then shows exactly the list with
   * the card inserted there, unless the slot is below the encoding's floor; it then never does.
   * Every other row keeps its rank whenever the neighbours' ranks differ.
   */
  lemma MoveRefinesInsertion(column: Column, card: Id, list: seq<Id>, index: nat)
    requires column.Valid() && card !in column.archived
    requires list == OrderOf(column.Siblings(card)) && index <= |list|
    ensures var r := MoveCard(column, card, Neighbour(list, index - 1), Neighbour(list, index));
            && r.Ok? && r.value.Valid() && r.value.archived == column.archived
            && (r.value.Shown() == InsertAt(list, index, card) <==> !FloorSlot(column.ranks, list, index))
            && (!TiedSlot(column.ranks, list, index) ==>
                  r.value.ranks == column.ranks[card := r.value.ranks[card]])
  {
    if TiedSlot(column.ranks, list, index) {
      MoveAfterRebalance(column, card, list, index);
    } else {
      MoveWithoutRebalance(column, card, list, index);
    }
  }

  /** A neighbour the request names without it being one of the live cards of the list, the moved one aside. */
  predicate IsStale(column: Column, card: Id, neighbour: Option<Id>) {
    neighbour.Some? &&
    (neighbour.value == card || neighbour.value in column.archived || neighbour.value !in column.ranks)
  }

  /** A stale request is refused as such, and nothing else is. */
  lemma MoveIsNotFoundIff(column: Column, card: Id, before: Option<Id>, after: Option<Id>)
    ensures MoveCard(column, card, before, after) == Err(NotFound)
            <==> IsStale(column, card, before) || IsStale(column, card, after)
  {
    var repaired := column.(ranks := Rebalance(column.ranks));
    StaleIff(column, card, before);
    StaleIff(column, card, after);
    StaleIff(repaired, card, before);
    StaleIff(repaired, card, after);
    hide Between, OrderOf, RankOfNeighbour, Rebalance;
  }

  lemma StaleIff(column: Column, card: Id, neighbour: Option<Id>)
    ensures IsStale(column, card, neighbour) <==> RankOfNeighbour(column.Siblings(card), neighbour) == Err(NotFound)
    ensures IsStale(column, card, neighbour) <==> RankOfNeighbour(column.Siblings(card), neighbour).Err?
  {
  }

  /** The two named neighbours stand in the order they were named in. */
  predicate NamedInOrder(column: Column, before: Option<Id>, after: Option<Id>) {
    before.Some? && after.Some? ==> Precedes(column.ranks, before.value, after.value)
  }

  /**
   * Any request, adjacent neighbours or not: one whose neighbours are there is carried out exactly when
   * they stand in the order named, and otherwise refused by rank. What is carried out ranks the card
   * strictly between the neighbours, off the floor, and moves no other card.
   */
  lemma MoveOutcome(column: Column, card: Id, before: Option<Id>, after: Option<Id>)
    requires column.Valid() && !IsStale(column, card, before) && !IsStale(column, card, after)
    ensures var r := MoveCard(column, card, before, after);
            && (r.Ok? <==> NamedInOrder(column, before, after))
            && (r.Err? ==> r.error == Unrankable(OutOfOrder))
            && (r.Ok? ==>
                  && r.value.archived == column.archived && r.value.ranks.Keys == column.ranks.Keys + {card}
                  && (before.Some? ==> Less(r.value.ranks[before.value], r.value.ranks[card]))
                  && (!AtFloor(RankAt(column.ranks, before), RankAt(column.ranks, after)) && after.Some? ==>
                        Less(r.value.ranks[card], r.value.ranks[after.value]))
                  && r.value.ranks - {card} ==
                       (if Tied(column, before, after) then Rebalance(column.ranks) else column.ranks) - {card})
  {
    hide Between, OrderOf, Less, Rebalance, IsRank, CompareRanked;
    var siblings := column.Siblings(card);
    var low, high := RankAt(siblings, before), RankAt(siblings, after);
    assert low == RankAt(column.ranks, before) && high == RankAt(column.ranks, after);
    BetweenIsInside(low, high);
    BetweenErrs(low, high);
    if before.Some? && after.Some? {
      ByRankThenId(column.ranks, before.value, after.value);
    }
    if !ValidNeighbours(low, high) {
      var repaired := column.(ranks := Rebalance(column.ranks));
      var siblings' := repaired.Siblings(card);
      var low', high' := RankAt(siblings', before), RankAt(siblings', after);
      RebalanceIsValid(column.ranks);
      RebalancedOrder(column.ranks, before.value, after.value);
      BetweenIsInside(low', high');
      BetweenErrs(low', high');
      assert high'.value != SMALLEST_INTEGER;
    }
  }

  predicate Tied(column: Column, before: Option<Id>, after: Option<Id>) {
    && before.Some? && after.Some? && before.value in column.ranks && after.value in column.ranks
    && column.ranks[before.value] == column.ranks[after.value]
  }

  lemma ByRankThenId(ranks: map<Id, string>, a: Id, b: Id)
    requires a in ranks && b in ranks
    ensures ranks[a] != ranks[b] ==> (Precedes(ranks, a, b) <==> Less(ranks[a], ranks[b]))
    ensures ranks[a] == ranks[b] ==> !Less(ranks[a], ranks[b])
  {
    Trichotomy(ranks[a], ranks[b]);
  }

  /** Rebalancing ranks two rows apart, the way they stood. */
  lemma RebalancedOrder(ranks: map<Id, string>, a: Id, b: Id)
    requires a in ranks && b in ranks
    ensures Less(Rebalance(ranks)[a], Rebalance(ranks)[b]) <==> Precedes(ranks, a, b)
  {
    hide Rebalance;
    PrecedesIsTotal(ranks, a, b, a);
    if Precedes(ranks, a, b) {
      RebalanceSeparates(ranks, a, b);
    } else if a != b {
      RebalanceSeparates(ranks, b, a);
      Trichotomy(Rebalance(ranks)[a], Rebalance(ranks)[b]);
    } else {
      Trichotomy(Rebalance(ranks)[a], Rebalance(ranks)[a]);
    }
  }

  lemma BetweenErrs(low: Option<string>, high: Option<string>)
    requires (low.Some? ==> IsRank(low.value)) && (high.Some? ==> IsRank(high.value))
    ensures !ValidNeighbours(low, high) ==> Between(low, high) == Err(OutOfOrder)
  {
  }

  function RankAt(ranks: map<Id, string>, card: Option<Id>): Option<string> {
    if card.Some? && card.value in ranks then Some(ranks[card.value]) else None
  }

  /** The ranks `moveCard` reads for a slot are in order and may be ranked between unless tied. */
  lemma SlotRanks(ranks: map<Id, string>, list: seq<Id>, index: nat)
    requires IsOrder(ranks, list) && index <= |list| && (forall id :: id in ranks ==> IsRank(ranks[id]))
    ensures var before, after := Neighbour(list, index - 1), Neighbour(list, index);
            var low, high := RankAt(ranks, before), RankAt(ranks, after);
            && (before.Some? ==> before.value in ranks)
            && (after.Some? ==> after.value in ranks)
            && (ValidNeighbours(low, high) <==> !TiedSlot(ranks, list, index))
            && (AtFloor(low, high) <==> FloorSlot(ranks, list, index))
  {
    assert index < |list| ==> list[index] in list;
    assert index > 0 ==> list[index - 1] in list;
    if 0 < index < |list| {
      SlotNeighboursOrdered(ranks, list, index);
      Trichotomy(ranks[list[index - 1]], ranks[list[index]]);
    }
  }

  /** The write `moveCard` makes once `between` has answered. */
  lemma WriteRank(column: Column, card: Id, list: seq<Id>, index: nat, rank: string)
    requires column.Valid() && card !in column.archived
    requires IsOrder(column.Siblings(card), list) && index <= |list|
    requires var siblings := column.Siblings(card);
             Between(RankAt(siblings, Neighbour(list, index - 1)), RankAt(siblings, Neighbour(list, index))) == Ok(rank)
    ensures var c := column.(ranks := column.ranks[card := rank]);
            && c.Valid()
            && (c.Shown() == InsertAt(list, index, card) <==> !FloorSlot(column.Siblings(card), list, index))
  {
    hide Less, Between, IsRank, CompareRanked;
    var c := column.(ranks := column.ranks[card := rank]);
    var shown, siblings := c.ranks - c.archived, column.Siblings(card);
    assert shown - {card} == siblings;
    SlotRanks(siblings, list, index);
    BetweenIsInside(RankAt(siblings, Neighbour(list, index - 1)), RankAt(siblings, Neighbour(list, index)));
    if FloorSlot(siblings, list, index) {
      AtTheFloor();
      var result := InsertAt(list, 0, card);
      assert result[0] == card && result[1] == list[0];
      LowerRankFirst(shown, list[0], card);
      PrecedesIsTotal(shown, result[0], result[1], card);
    } else {
      InsideMeansInSlot(shown, list, card, index);
      OrderIs(shown, InsertAt(list, index, card));
    }
  }

  lemma LowerRankFirst(ranks: map<Id, string>, a: Id, b: Id)
    requires a in ranks && b in ranks && Less(ranks[a], ranks[b])
    ensures Precedes(ranks, a, b)
  {
  }

  lemma MoveWithoutRebalance(column: Column, card: Id, list: seq<Id>, index: nat)
    requires column.Valid() && card !in column.archived
    requires list == OrderOf(column.Siblings(card)) && index <= |list|
    requires !TiedSlot(column.ranks, list, index)
    ensures var r := MoveCard(column, card, Neighbour(list, index - 1), Neighbour(list, index));
            && r.Ok? && r.value.Valid() && r.value.archived == column.archived
            && (r.value.Shown() == InsertAt(list, index, card) <==> !FloorSlot(column.ranks, list, index))
            && r.value.ranks == column.ranks[card := r.value.ranks[card]]
  {
    hide Less, Between, IsRank, CompareRanked, OrderOf;
    var siblings := column.Siblings(card);
    SlotRanks(siblings, list, index);
    var low, high := RankAt(siblings, Neighbour(list, index - 1)), RankAt(siblings, Neighbour(list, index));
    BetweenIsInside(low, high);
    WriteRank(column, card, list, index, Between(low, high).value);
  }

  lemma MoveAfterRebalance(column: Column, card: Id, list: seq<Id>, index: nat)
    requires column.Valid() && card !in column.archived
    requires list == OrderOf(column.Siblings(card)) && index <= |list|
    requires TiedSlot(column.ranks, list, index)
    ensures var r := MoveCard(column, card, Neighbour(list, index - 1), Neighbour(list, index));
            && r.Ok? && r.value.Valid() && r.value.archived == column.archived
            && r.value.Shown() == InsertAt(list, index, card)
  {
    hide Less, Between, IsRank, CompareRanked, OrderOf, Rebalance;
    var repaired := column.(ranks := Rebalance(column.ranks));
    var before, after, hidden := Neighbour(list, index - 1), Neighbour(list, index), column.archived + {card};
    var siblings, siblings' := column.Siblings(card), repaired.Siblings(card);
    assert siblings == column.ranks - hidden && siblings' == repaired.ranks - hidden;
    SlotRanks(siblings, list, index);
    BetweenIsInside(RankAt(siblings, before), RankAt(siblings, after));
    RebalanceKeepsOrder(column.ranks, hidden, list);
    RebalanceIsValid(column.ranks);
    SlotRanks(siblings', list, index);
    SlotNeighboursOrdered(siblings, list, index);
    RebalanceSeparates(column.ranks, list[index - 1], list[index]);
    Trichotomy(siblings'[list[index - 1]], siblings'[list[index]]);
    BetweenIsInside(RankAt(siblings', before), RankAt(siblings', after));
    WriteRank(repaired, card, list, index, Between(RankAt(siblings', before), RankAt(siblings', after)).value);
  }

  /* ------------------------------- whole runs of moves ------------------------------- */

  /** A drop: which card, and the index the client computed for it. */
  datatype Drop = Drop(card: Id, index: int)

  /** The client clamps an index outside the list to its nearer end. */
  function Clamp(index: int, length: nat): nat {
    if index < 0 then 0 else if index > length then length else index
  }

  /** Clamping takes the slot nearest to the index asked for. */
  lemma ClampIsNearest(index: int, length: nat, slot: nat)
    requires slot <= length
    ensures Clamp(index, length) <= length
    ensures slot != Clamp(index, length) ==> Distance(index, Clamp(index, length)) < Distance(index, slot)
  {
  }

  function Distance(a: int, b: int): nat {
    if a < b then b - a else a - b
  }

  function Without(list: seq<Id>, id: Id): seq<Id> {
    if list == [] then [] else (if list[0] == id then [] else [list[0]]) + Without(list[1..], id)
  }

  /** The plain list edit a drop stands for. */
  function EditList(list: seq<Id>, drop: Drop): seq<Id> {
    var others := Without(list, drop.card);
    InsertAt(others, Clamp(drop.index, |others|), drop.card)
  }

  /** One drop against the database: the client names neighbours, the server ranks between them. */
  ghost function ApplyDrop(column: Column, drop: Drop): Result<Column, MoveError> {
    var others := OrderOf(column.Siblings(drop.card));
    var index := Clamp(drop.index, |others|);
    MoveCard(column, drop.card, Neighbour(others, index - 1), Neighbour(others, index))
  }

  /** No drop of the run asks for room below the floor. */
  ghost predicate AvoidsFloor(column: Column, drops: seq<Drop>)
    decreases |drops|
  {
    drops == [] ||
    (var others := OrderOf(column.Siblings(drops[0].card));
     && !FloorSlot(column.ranks, others, Clamp(drops[0].index, |others|))
     && drops[0].card !in column.archived
     && (ApplyDrop(column, drops[0]).Ok? ==> AvoidsFloor(ApplyDrop(column, drops[0]).value, drops[1..])))
  }

  ghost function ApplyDrops(column: Column, drops: seq<Drop>): Result<Column, MoveError>
    decreases |drops|
  {
    if drops == [] then Ok(column)
    else
      var next :- ApplyDrop(column, drops[0]);
      ApplyDrops(next, drops[1..])
  }

  function EditAll(list: seq<Id>, drops: seq<Drop>): seq<Id>
    decreases |drops|
  {
    if drops == [] then list else EditAll(EditList(list, drops[0]), drops[1..])
  }

  lemma {:induction false} WithoutMembers(list: seq<Id>, id: Id, x: Id)
    ensures x in Without(list, id) <==> x in list && x != id
  {
    if list != [] {
      WithoutMembers(list[1..], id, x);
    }
  }

  /** Which other rows there are makes no difference to how two compare. */
  lemma PrecedesAlike(a: map<Id, string>, b: map<Id, string>, x: Id, y: Id)
    requires x in a && y in a ==> x in b && y in b && a[x] == b[x] && a[y] == b[y]
    ensures Precedes(a, x, y) ==> Precedes(b, x, y)
  {
  }

  lemma {:induction false} WithoutIsOrder(ranks: map<Id, string>, list: seq<Id>, id: Id)
    requires IsOrder(ranks, list)
    ensures IsOrder(ranks - {id}, Without(list, id))
  {
    hide Precedes;
    if list != [] {
      OrderWithoutFirst(ranks, list);
      WithoutIsOrder(ranks - {list[0]}, list[1..], id);
      var rest := Without(list[1..], id);
      if list[0] == id {
        assert ranks - {id} - {id} == ranks - {id};
      } else {
        forall x
          ensures x in Without(list, id) <==> x in ranks - {id}
        {
          WithoutMembers(list, id, x);
        }
        forall j | 0 <= j < |rest|
          ensures Precedes(ranks - {id}, list[0], rest[j])
        {
          assert rest[j] in rest;
          WithoutMembers(list[1..], id, rest[j]);
          var k :| 0 <= k < |list[1..]| && list[1..][k] == rest[j];
          OrderedPair(ranks, list, 0, k + 1);
          PrecedesAlike(ranks, ranks - {id}, list[0], rest[j]);
        }
        forall i, j | 0 <= i < j < |rest|
          ensures Precedes(ranks - {id}, rest[i], rest[j])
        {
          OrderedPair(ranks - {list[0]} - {id}, rest, i, j);
          PrecedesAlike(ranks - {list[0]} - {id}, ranks - {id}, rest[i], rest[j]);
        }
      }
    }
  }

  /** Every drop succeeds, and the board ends up showing what the same edits make of a plain list. */
  ghost predicate ShowsTheEdits(column: Column, drops: seq<Drop>) {
    var r := ApplyDrops(column, drops);
    r.Ok? && r.value.Valid() && r.value.Shown() == EditAll(column.Shown(), drops)
  }

  /** Any run of drops leaves the board showing exactly what the same edits make of a plain list. */
  lemma {:induction false} DropsRefineEdits(column: Column, drops: seq<Drop>)
    requires column.Valid() && AvoidsFloor(column, drops)
    ensures ShowsTheEdits(column, drops)
    decreases |drops|
  {
    if drops != [] {
      var drop := drops[0];
      var others := OrderOf(column.Siblings(drop.card));
      assert column.ranks - column.archived - {drop.card} == column.Siblings(drop.card);
      WithoutIsOrder(column.ranks - column.archived, column.Shown(), drop.card);
      OrderIs(column.Siblings(drop.card), Without(column.Shown(), drop.card));
      MoveRefinesInsertion(column, drop.card, others, Clamp(drop.index, |others|));
      DropsRefineEdits(ApplyDrop(column, drop).value, drops[1..]);
    }
  }

  /* ------------------------------- a condition known beforehand ------------------------------- */

  /** Every rank counts from an integer more than `n` above the encoding's floor. */
  ghost predicate HasRoomBelow(ranks: map<Id, string>, n: nat) {
    n < Limit() && forall id :: id in ranks ==> IsAbove(ranks[id], n)
  }

  ghost predicate IsAbove(rank: string, n: nat) {
    IsRank(rank) && Whole(rank) > n - Limit()
  }

  lemma FloorIsNotAbove(n: nat)
    ensures !IsAbove(SMALLEST_INTEGER, n)
  {
    SmallestValue();
    IntegerIsRank(SMALLEST_INTEGER);
    hide IntegerValue, IsRank, IsInteger, Limit;
  }

  /** With room below, no slot is at the floor. */
  lemma RoomMeansNoFloorSlot(ranks: map<Id, string>, n: nat, list: seq<Id>, index: nat)
    requires HasRoomBelow(ranks, n)
    ensures !FloorSlot(ranks, list, index)
  {
    FloorIsNotAbove(n);
  }

  lemma SeededWholesAreNatural(count: nat, i: nat)
    requires i < count
    ensures IsRank(RankSequence(count)[i]) && Whole(RankSequence(count)[i]) >= 0
  {
    SequenceStartsAtZero(count, i);
    FirstIsZero(count);
    if i == 0 {
      EmptyListStartsAtZero();
    } else {
      SequenceStartsAtZero(count, 0);
      SequenceAscends(count, 0, i);
      WholeKeepsOrder(RankSequence(count)[0], RankSequence(count)[i]);
      EmptyListStartsAtZero();
    }
  }

  /** A drop uses up at most one integer's room. */
  lemma DropLeavesRoom(column: Column, card: Id, list: seq<Id>, index: nat, n: nat)
    requires column.Valid() && card !in column.archived && HasRoomBelow(column.ranks, n + 1)
    requires list == OrderOf(column.Siblings(card)) && index <= |list|
    ensures var r := MoveCard(column, card, Neighbour(list, index - 1), Neighbour(list, index));
            r.Ok? && r.value.Valid() && HasRoomBelow(r.value.ranks, n)
  {
    hide Less, Between, IsRank, CompareRanked, OrderOf, Rebalance, Whole, Limit;
    var siblings := column.Siblings(card);
    var before, after := Neighbour(list, index - 1), Neighbour(list, index);
    RoomMeansNoFloorSlot(column.ranks, n + 1, list, index);
    MoveRefinesInsertion(column, card, list, index);
    SlotRanks(siblings, list, index);
    if !TiedSlot(column.ranks, list, index) {
      BetweenIsInside(RankAt(siblings, before), RankAt(siblings, after));
      BetweenDescendsByOne(RankAt(siblings, before), RankAt(siblings, after));
    } else {
      TiedDropLeavesRoom(column, card, list, index, n);
    }
  }

  lemma TiedDropLeavesRoom(column: Column, card: Id, list: seq<Id>, index: nat, n: nat)
    requires column.Valid() && card !in column.archived && HasRoomBelow(column.ranks, n + 1)
    requires list == OrderOf(column.Siblings(card)) && index <= |list| && TiedSlot(column.ranks, list, index)
    ensures var r := MoveCard(column, card, Neighbour(list, index - 1), Neighbour(list, index));
            r.Ok? && r.value.Valid() && HasRoomBelow(r.value.ranks, n)
  {
    hide Less, Between, IsRank, CompareRanked, OrderOf, Rebalance, Whole, Limit;
    var repaired := column.(ranks := Rebalance(column.ranks));
    var before, after := Neighbour(list, index - 1), Neighbour(list, index);
    var siblings, siblings' := column.Siblings(card), repaired.Siblings(card);
    MoveAfterRebalance(column, card, list, index);
    SlotRanks(siblings, list, index);
    BetweenIsInside(RankAt(siblings, before), RankAt(siblings, after));
    RebalanceIsValid(column.ranks);
    RebalancedWholesAreNatural(column.ranks);
    RebalanceKeepsOrder(column.ranks, column.archived + {card}, list);
    assert siblings == column.ranks - (column.archived + {card}) && siblings' == repaired.ranks - (column.archived + {card});
    SlotRanks(siblings', list, index);
    SlotNeighboursOrdered(siblings, list, index);
    RebalanceSeparates(column.ranks, list[index - 1], list[index]);
    Trichotomy(siblings'[list[index - 1]], siblings'[list[index]]);
    BetweenIsInside(RankAt(siblings', before), RankAt(siblings', after));
    BetweenDescendsByOne(RankAt(siblings', before), RankAt(siblings', after));
  }

  lemma RebalancedWholesAreNatural(ranks: map<Id, string>)
    ensures forall id :: id in ranks ==> IsRank(Rebalance(ranks)[id]) && Whole(Rebalance(ranks)[id]) >= 0
  {
    var list := OrderOf(ranks);
    hide IsRank, Whole, RankSequence, OrderOf;
    forall id | id in ranks
      ensures IsRank(Rebalance(ranks)[id]) && Whole(Rebalance(ranks)[id]) >= 0
    {
      OrderHasAll(ranks, id);
      SeededWholesAreNatural(|list|, IndexOf(list, id));
    }
  }

  lemma OrderHasAll(ranks: map<Id, string>, id: Id)
    requires id in ranks
    ensures id in OrderOf(ranks)
  {
  }

  lemma {:induction false} RoomAvoidsFloor(column: Column, drops: seq<Drop>)
    requires column.Valid() && HasRoomBelow(column.ranks, |drops|)
    requires forall i :: 0 <= i < |drops| ==> drops[i].card !in column.archived
    ensures AvoidsFloor(column, drops)
    decreases |drops|
  {
    if drops != [] {
      var others := OrderOf(column.Siblings(drops[0].card));
      var index := Clamp(drops[0].index, |others|);
      hide OrderOf, MoveCard, Limit, Whole;
      RoomMeansNoFloorSlot(column.ranks, |drops|, others, index);
      MoveRefinesInsertion(column, drops[0].card, others, index);
      DropLeavesRoom(column, drops[0].card, others, index, |drops| - 1);
      RoomAvoidsFloor(ApplyDrop(column, drops[0]).value, drops[1..]);
    }
  }

  /**
   * The same for a condition one can check before the first drop: every rank counts from more than
   * one integer per drop above the floor, and no dropped card is archived.
   */
  lemma DropsWithRoomRefineEdits(column: Column, drops: seq<Drop>)
    requires column.Valid() && HasRoomBelow(column.ranks, |drops|)
    requires forall i :: 0 <= i < |drops| ==> drops[i].card !in column.archived
    ensures ShowsTheEdits(column, drops)
  {
    RoomAvoidsFloor(column, drops);
    DropsRefineEdits(column, drops);
  }
}
