/** The collab gateway's hooks on a live document: log before applying, replay on load, compact on store. */
module Collab {
  import opened Wrappers
  import opened WriteAheadLog
  import P = CollabProtocol

  /** A live document: applying an encoded state integrates whatever of it is new. */
  class Document {
    var state: Doc

    constructor ()
      ensures state == {}
    {
      state := {};
    }

    method ApplyUpdate(updates: Doc)
      modifies this
      ensures state == old(state) + updates
    {
      state := state + updates;
    }
  }

  /** One page's two tables, and the database clock that dates their rows. */
  class PageStore {
    var rows: seq<Row>
    var versions: seq<Version>
    var now: nat

    constructor ()
      ensures rows == [] && versions == [] && now == 0
    {
      rows, versions, now := [], [], 0;
    }

    method AppendUpdate(id: nat, data: Update, at: nat)
      requires at > now
      modifies this
      ensures rows == old(rows) + [Row(id, data, at)] && versions == old(versions) && now == at
    {
      rows, now := rows + [Row(id, data, at)], at;
    }

    method WriteVersion(state: Doc, at: nat)
      requires at > now
      modifies this
      ensures versions == old(versions) + [Version(state, at)] && rows == old(rows) && now == at
    {
      versions, now := versions + [Version(state, at)], at;
    }

    method PruneRows(ids: set<nat>)
      modifies this`rows
      ensures rows == PruneUpdates(old(rows), ids)
    {
      rows := PruneUpdates(rows, ids);
    }
  }

  /** What the protocol sees of a loaded page between compactions. */
  ghost function Seen(document: Document, store: PageStore): P.State
    reads document, store
  {
    P.State(store.rows, store.versions, P.Loaded(document.state, {}), P.Idle, store.now, {}, {})
  }

  /** On load: the latest snapshot, then every row since, one update at a time. */
  method ReplayPage(document: Document, store: PageStore)
    modifies document
    ensures document.state == old(document.state) + Rebuild(store.rows, store.versions)
  {
    var snapshot := LatestVersion(store.versions);
    if snapshot.Some? {
      document.ApplyUpdate(snapshot.value.state);
    }
    var updates := ReadUpdatesSince(store.rows, RoundedCutoff(store.versions));
    for i := 0 to |updates|
      invariant document.state == old(document.state) + Snapshot(store.versions) + DataOf(updates[..i])
    {
      assert DataOf(updates[..i + 1]) == DataOf(updates[..i]) + {updates[i].data} by {
        assert updates[..i + 1] == updates[..i] + [updates[i]];
      }
      document.ApplyUpdate({updates[i].data});
    }
    assert updates[..|updates|] == updates;
  }

  /** What the protocol sees of a page nobody has open. */
  ghost function SeenClosed(store: PageStore): P.State
    reads store
  {
    P.State(store.rows, store.versions, P.Unloaded, P.Idle, store.now, {}, {})
  }

  /** Opening a page replays it into a new document: the protocol's load. */
  method LoadPage(store: PageStore) returns (document: Document)
    ensures fresh(document) && Seen(document, store) == P.Apply(old(SeenClosed(store)), P.Load)
  {
    document := new Document();
    ReplayPage(document, store);
    assert {} + Rebuild(store.rows, store.versions) == Rebuild(store.rows, store.versions);
  }

  /**
   * One incoming message: logged, then applied. A read-only connection's message, and one that
   * carries no content, do neither, so the log holds exactly what was applied.
   */
  method HandleMessage(document: Document, store: PageStore, readOnly: bool, update: Option<Update>, id: nat, at: nat)
    requires at > store.now
    modifies document, store
    ensures store.versions == old(store.versions)
    ensures if readOnly || update.None?
            then store.rows == old(store.rows) && document.state == old(document.state) && store.now == old(store.now)
            else && store.rows == old(store.rows) + [Row(id, update.value, at)]
                 && document.state == old(document.state) + {update.value}
                 && store.now == at
  {
    BeforeHandleMessage(store, readOnly, update, id, at);
    if !readOnly && update.Some? {
      document.ApplyUpdate({update.value});
    }
  }

  method BeforeHandleMessage(store: PageStore, readOnly: bool, update: Option<Update>, id: nat, at: nat)
    requires at > store.now
    modifies store
    ensures store.versions == old(store.versions)
    ensures if readOnly || update.None?
            then store.rows == old(store.rows) && store.now == old(store.now)
            else store.rows == old(store.rows) + [Row(id, update.value, at)] && store.now == at
  {
    if readOnly {
      return;
    }
    if update.None? {
      return;
    }
    store.AppendUpdate(id, update.value, at);
  }

  /** Read the log tail; if there is one, strip the live document, snapshot it, and prune what was read. */
  method CompactPage(document: Document, store: PageStore, guard: Doc -> Doc, at: nat)
    returns (compacted: bool, prunedCount: nat)
    requires at > store.now
    modifies document, store
    ensures var read := ReadUpdatesSince(old(store.rows), RoundedCutoff(old(store.versions)));
            && (compacted <==> read != [])
            && prunedCount == |read|
            && Seen(document, store) ==
                 P.Compacted(old(Seen(document, store)), guard(old(document.state)), at).(guarded := {})
  {
    var rows := ReadUpdatesSince(store.rows, RoundedCutoff(store.versions));
    if |rows| == 0 {
      return false, 0;
    }
    document.ApplyUpdate(guard(document.state));
    store.WriteVersion(document.state, at);
    store.PruneRows(IdsOf(rows));
    return true, |rows|;
  }

  /** A page handled one message at a time, compacted at will, and reloaded into an empty document. */
  lemma ReloadAfterCompaction(s: P.State, guarded: Doc, at: nat)
    requires P.Inv(s) && s.live.Loaded? && s.job.Idle? && s.live.pending == {} && at > s.now
    ensures var s' := P.Compacted(s, guarded, at);
            && s.logged <= Rebuild(s'.rows, s'.versions)
            && (ReadUpdatesSince(s.rows, RoundedCutoff(s.versions)) != [] ==>
                  Rebuild(s'.rows, s'.versions) == s.live.doc + guarded)
            && P.Compacted(s', guarded, at + 1) == s'
  {
    if ReadUpdatesSince(s.rows, RoundedCutoff(s.versions)) != [] {
      P.CompactionRoundTrips(s, guarded, at);
    }
  }
}
