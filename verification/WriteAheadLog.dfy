/**
 * A page's append-only update log and its snapshots. A document is the set of updates it has
 * integrated; applying one twice changes nothing.
 */
module WriteAheadLog {
  import opened Wrappers

  /** An encoded edit, told apart by the client and clock that made it. */
  datatype Update = Update(client: nat, clock: nat)

  type Doc = set<Update>

  /** Times are microseconds, as the column stores them. */
  datatype Row = Row(id: nat, data: Update, at: nat)
  datatype Version = Version(state: Doc, at: nat)

  /** What a driver keeps of a timestamp: whole milliseconds, rounded down. */
  function Millis(at: nat): (ms: nat)
    ensures ms <= at < ms + 1000 && ms % 1000 == 0
  {
    at / 1000 * 1000
  }

  /** `ORDER BY created_at DESC LIMIT 1`. */
  function LatestVersion(versions: seq<Version>): Option<Version> {
    if versions == [] then None
    else
      var last := versions[|versions| - 1];
      match LatestVersion(versions[..|versions| - 1])
      case Some(earlier) => if earlier.at > last.at then Some(earlier) else Some(last)
      case None => Some(last)
  }

  predicate IsAfter(row: Row, cutoff: Option<nat>) {
    cutoff.None? || row.at > cutoff.value
  }

  /** Rows strictly after the cutoff, oldest first; every row when there is no cutoff. */
  function ReadUpdatesSince(rows: seq<Row>, cutoff: Option<nat>): (tail: seq<Row>)
    ensures forall row :: row in tail <==> row in rows && IsAfter(row, cutoff)
  {
    if rows == [] then []
    else (if IsAfter(rows[0], cutoff) then [rows[0]] else []) + ReadUpdatesSince(rows[1..], cutoff)
  }

  function PruneUpdates(rows: seq<Row>, ids: set<nat>): (kept: seq<Row>)
    ensures forall row :: row in kept <==> row in rows && row.id !in ids
  {
    if rows == [] then []
    else (if rows[0].id in ids then [] else [rows[0]]) + PruneUpdates(rows[1..], ids)
  }

  function IdsOf(rows: seq<Row>): set<nat> {
    set row | row in rows :: row.id
  }

  function DataOf(rows: seq<Row>): Doc {
    set row | row in rows :: row.data
  }

  /** The cutoff as it reaches a second query through a millisecond date. */
  function RoundedCutoff(versions: seq<Version>): Option<nat> {
    match LatestVersion(versions)
    case Some(version) => Some(Millis(version.at))
    case None => None
  }

  /** The cutoff as a subquery compares it, inside the database. */
  function ExactCutoff(versions: seq<Version>): Option<nat> {
    match LatestVersion(versions)
    case Some(version) => Some(version.at)
    case None => None
  }

  function Snapshot(versions: seq<Version>): Doc {
    match LatestVersion(versions)
    case Some(version) => version.state
    case None => {}
  }

  /** Latest snapshot plus the log tail: how a page is loaded. */
  function Rebuild(rows: seq<Row>, versions: seq<Version>): Doc {
    Snapshot(versions) + DataOf(ReadUpdatesSince(rows, RoundedCutoff(versions)))
  }

  /** The same, with the in-database cutoff: how the current state is materialised. */
  function Materialize(rows: seq<Row>, versions: seq<Version>): Doc {
    Snapshot(versions) + DataOf(ReadUpdatesSince(rows, ExactCutoff(versions)))
  }

  /* ------------------------------- rounding the cutoff ------------------------------- */

  /** Rows the rounded cutoff reads and the exact one does not: same millisecond, at or before the snapshot. */
  ghost predicate InRoundingGap(row: Row, versions: seq<Version>) {
    LatestVersion(versions).Some? &&
    Millis(LatestVersion(versions).value.at) < row.at <= LatestVersion(versions).value.at
  }

  /** Rounding never loses a row, and changes the outcome exactly when a row in the gap is not in the snapshot. */
  lemma RoundingIsHarmlessIffCovered(rows: seq<Row>, versions: seq<Version>)
    ensures Materialize(rows, versions) <= Rebuild(rows, versions)
    ensures forall row :: row in rows ==>
              (row in ReadUpdatesSince(rows, RoundedCutoff(versions)) <==>
               row in ReadUpdatesSince(rows, ExactCutoff(versions)) || InRoundingGap(row, versions))
    ensures Rebuild(rows, versions) == Materialize(rows, versions) <==>
            (forall row :: row in rows && InRoundingGap(row, versions) ==> row.data in Materialize(rows, versions))
  {
  }

  /** The two cutoffs do differ when a snapshot leaves out a row of its own millisecond, as a restore does. */
  lemma RoundingCanReadmit()
    ensures var u := Update(1, 0);
            var rows, versions := [Row(0, u, 1500)], [Version({}, 1600)];
            u in Rebuild(rows, versions) && u !in Materialize(rows, versions)
  {
  }

  lemma LatestAfterWrite(versions: seq<Version>, version: Version)
    requires forall v :: v in versions ==> v.at < version.at
    ensures LatestVersion(versions + [version]) == Some(version)
  {
    assert (versions + [version])[..|versions|] == versions;
    LatestIsOneOf(versions);
  }

  lemma {:induction false} LatestIsOneOf(versions: seq<Version>)
    ensures LatestVersion(versions).Some? <==> versions != []
    ensures LatestVersion(versions).Some? ==> LatestVersion(versions).value in versions
    ensures forall v :: v in versions ==> LatestVersion(versions).Some? && v.at <= LatestVersion(versions).value.at
  {
    if versions != [] {
      var front := versions[..|versions| - 1];
      LatestIsOneOf(front);
      assert versions == front + [versions[|versions| - 1]];
    }
  }

  ghost predicate InLogOrder(rows: seq<Row>) {
    forall i, j :: 0 <= i < j < |rows| ==> rows[i].at < rows[j].at
  }

  lemma InLogOrderInFront(row: Row, rest: seq<Row>, all: seq<Row>)
    requires InLogOrder([row] + all) && InLogOrder(rest) && forall r :: r in rest ==> r in all
    ensures InLogOrder([row] + rest)
  {
    forall i | 0 <= i < |rest|
      ensures row.at < rest[i].at
    {
      assert rest[i] in rest;
      var k :| 0 <= k < |all| && all[k] == rest[i];
      assert ([row] + all)[0] == row && ([row] + all)[k + 1] == all[k];
    }
  }

  /** Reading the tail and pruning keep the order the rows were logged in. */
  lemma {:induction false} ReadsInLogOrder(rows: seq<Row>, cutoff: Option<nat>)
    requires InLogOrder(rows)
    ensures InLogOrder(ReadUpdatesSince(rows, cutoff))
  {
    if rows != [] {
      assert rows == [rows[0]] + rows[1..];
      ReadsInLogOrder(rows[1..], cutoff);
      InLogOrderInFront(rows[0], ReadUpdatesSince(rows[1..], cutoff), rows[1..]);
    }
  }

  lemma {:induction false} PrunesInLogOrder(rows: seq<Row>, ids: set<nat>)
    requires InLogOrder(rows)
    ensures InLogOrder(PruneUpdates(rows, ids))
  {
    if rows != [] {
      assert rows == [rows[0]] + rows[1..];
      PrunesInLogOrder(rows[1..], ids);
      InLogOrderInFront(rows[0], PruneUpdates(rows[1..], ids), rows[1..]);
    }
  }
}
