/**
 * One page over time: updates are logged before they are applied, the live document is compacted
 * into a snapshot step by step, and the process may die between any two steps and load again.
 */
module CollabProtocol {
  import opened Wrappers
  import opened WriteAheadLog

  /** The document in memory, and the updates logged but not yet applied to it. */
  datatype Live = Unloaded | Loaded(doc: Doc, pending: Doc)

  /**
   * How far a compaction has got. `late` gathers the updates whose logging or application overlaps
   * the time between encoding the document and dating the snapshot row.
   */
  datatype Job =
    | Idle
    | HasRead(ids: set<nat>)
    | HasEncoded(ids: set<nat>, state: Doc, late: Doc)
    | HasWritten(ids: set<nat>)

  /** Tables, process memory, the database clock, every update ever logged, and every one the guard made. */
  datatype State = State(
    rows: seq<Row>,
    versions: seq<Version>,
    live: Live,
    job: Job,
    now: nat,
    logged: Doc,
    guarded: Doc)

  datatype Step =
    | Load
    | Append(row: Row)
    | ApplyUpdate(update: Update)
    | ReadRows
    | StripAndEncode(stripped: Doc)
    | WriteSnapshot(at: nat)
    | PruneRows
    | Crash

  function JobIds(job: Job): set<nat> {
    match job
    case Idle => {}
    case HasRead(ids) => ids
    case HasEncoded(ids, _, _) => ids
    case HasWritten(ids) => ids
  }

  predicate Enabled(s: State, step: Step) {
    match step
    case Load => s.live.Unloaded?
    case Append(row) => s.live.Loaded? && row.at > s.now && row.id !in IdsOf(s.rows) + JobIds(s.job)
    case ApplyUpdate(update) => s.live.Loaded? && update in s.live.pending
    case ReadRows => s.live.Loaded? && s.job.Idle?
    case StripAndEncode(_) => s.live.Loaded? && s.job.HasRead?
    case WriteSnapshot(at) => s.live.Loaded? && s.job.HasEncoded? && at > s.now
    case PruneRows => s.live.Loaded? && s.job.HasWritten?
    case Crash => s.live.Loaded?
  }

  function Apply(s: State, step: Step): State
    requires Enabled(s, step)
  {
    match step
    case Load => s.(live := Loaded(Rebuild(s.rows, s.versions), {}))
    case Append(row) =>
      s.(rows := s.rows + [row], now := row.at, logged := s.logged + {row.data},
         live := s.live.(pending := s.live.pending + {row.data}),
         job := if s.job.HasEncoded? then s.job.(late := s.job.late + {row.data}) else s.job)
    case ApplyUpdate(update) => s.(live := Loaded(s.live.doc + {update}, s.live.pending - {update}))
    case ReadRows =>
      var rows := ReadUpdatesSince(s.rows, RoundedCutoff(s.versions));
      if rows == [] then s else s.(job := HasRead(IdsOf(rows)))
    case StripAndEncode(stripped) =>
      var doc := s.live.doc + stripped;
      s.(live := s.live.(doc := doc), guarded := s.guarded + stripped, job := HasEncoded(s.job.ids, doc, s.live.pending))
    case WriteSnapshot(at) =>
      s.(versions := s.versions + [Version(s.job.state, at)], job := HasWritten(s.job.ids), now := at)
    case PruneRows => s.(rows := PruneUpdates(s.rows, s.job.ids), job := Idle)
    case Crash => s.(live := Unloaded, job := Idle)
  }

  const START := State([], [], Unloaded, Idle, 0, {}, {})

  ghost predicate IsRun(s: State, steps: seq<Step>)
    decreases |steps|
  {
    steps == [] || (Enabled(s, steps[0]) && IsRun(Apply(s, steps[0]), steps[1..]))
  }

  ghost function End(s: State, steps: seq<Step>): State
    requires IsRun(s, steps)
    decreases |steps|
  {
    if steps == [] then s else End(Apply(s, steps[0]), steps[1..])
  }

  /** A snapshot is dated only when nothing overlapped its encoding that it does not already hold. */
  predicate Careful(s: State, step: Step) {
    step.WriteSnapshot? && s.job.HasEncoded? ==> s.job.late <= s.job.state
  }

  /** The discipline in a caller's terms: encode with nothing pending, log nothing until the snapshot is dated. */
  predicate Quiet(s: State, step: Step) {
    && (step.StripAndEncode? && s.live.Loaded? ==> s.live.pending == {})
    && (step.Append? ==> !s.job.HasEncoded?)
  }

  ghost predicate IsCarefulRun(s: State, steps: seq<Step>)
    decreases |steps|
  {
    steps == [] ||
    (Enabled(s, steps[0]) && Careful(s, steps[0]) && IsCarefulRun(Apply(s, steps[0]), steps[1..]))
  }

  ghost predicate IsQuietRun(s: State, steps: seq<Step>)
    decreases |steps|
  {
    steps == [] ||
    (Enabled(s, steps[0]) && Quiet(s, steps[0]) && IsQuietRun(Apply(s, steps[0]), steps[1..]))
  }

  /* ------------------------------- the invariant ------------------------------- */

  /** Every logged update comes back if the page is loaded now. */
  ghost predicate Durable(s: State) {
    s.logged <= Rebuild(s.rows, s.versions)
  }

  ghost predicate Dated(s: State) {
    && (forall row :: row in s.rows ==> row.at <= s.now && row.data in s.logged)
    && (forall version :: version in s.versions ==> version.at <= s.now)
  }

  /** A row no longer read is in the snapshot that stopped it being read. */
  ghost predicate Covered(s: State) {
    forall row :: row in s.rows && !IsAfter(row, ExactCutoff(s.versions)) ==> row.data in Snapshot(s.versions)
  }

  ghost predicate LiveIsComplete(s: State) {
    s.live.Loaded? ==> s.live.pending <= s.logged <= s.live.doc + s.live.pending
  }

  ghost predicate JobIsSound(s: State) {
    match s.job
    case Idle => true
    case HasRead(_) => s.live.Loaded?
    case HasEncoded(_, state, late) => s.live.Loaded? && late <= s.logged <= state + late
    case HasWritten(ids) =>
      s.live.Loaded? && forall row :: row in s.rows && row.id in ids ==> !IsAfter(row, ExactCutoff(s.versions))
  }

  ghost predicate Inv(s: State) {
    Durable(s) && Dated(s) && Covered(s) && LiveIsComplete(s) && JobIsSound(s)
  }

  lemma RebuildMember(s: State, u: Update)
    ensures u in Rebuild(s.rows, s.versions) <==>
            u in Snapshot(s.versions) ||
            exists row :: row in s.rows && IsAfter(row, RoundedCutoff(s.versions)) && row.data == u
  {
  }

  lemma AppendKeepsInv(s: State, step: Step)
    requires Inv(s) && step.Append? && Enabled(s, step)
    ensures Inv(Apply(s, step))
  {
    var s' := Apply(s, step);
    LatestIsOneOf(s.versions);
    forall u | u in s'.logged
      ensures u in Rebuild(s'.rows, s'.versions)
    {
      RebuildMember(s, u);
      RebuildMember(s', u);
      if u in s.logged && u !in Snapshot(s.versions) {
        var row :| row in s.rows && IsAfter(row, RoundedCutoff(s.versions)) && row.data == u;
        assert row in s'.rows;
      } else if u == step.row.data {
        assert step.row in s'.rows;
      }
    }
    forall row | row in s'.rows
      ensures row.at <= s'.now && row.data in s'.logged
    {
    }
  }

  /** A compaction starts exactly when there is a log tail to read, and remembers exactly its rows. */
  lemma StartsIffSomethingToRead(s: State)
    requires Enabled(s, ReadRows)
    ensures var tail, s' := ReadUpdatesSince(s.rows, RoundedCutoff(s.versions)), Apply(s, ReadRows);
            && (s' == s <==> tail == [])
            && (s'.job.HasRead? <==> exists row :: row in s.rows && IsAfter(row, RoundedCutoff(s.versions)))
            && (s'.job.HasRead? ==> forall row :: row in tail ==> row.id in s'.job.ids)
  {
    var tail := ReadUpdatesSince(s.rows, RoundedCutoff(s.versions));
    if tail != [] {
      assert tail[0] in tail;
    }
  }

  /** Dating a snapshot makes it the whole of what a load sees. */
  lemma RebuildAfterWrite(s: State, step: Step)
    requires Dated(s) && step.WriteSnapshot? && Enabled(s, step)
    ensures var s' := Apply(s, step);
            && LatestVersion(s'.versions) == Some(Version(s.job.state, step.at))
            && Materialize(s'.rows, s'.versions) == s.job.state
            && s.job.state <= Rebuild(s'.rows, s'.versions)
  {
    var s' := Apply(s, step);
    LatestAfterWrite(s.versions, Version(s.job.state, step.at));
    assert forall row :: row in s.rows ==> !IsAfter(row, ExactCutoff(s'.versions));
    assert DataOf(ReadUpdatesSince(s'.rows, ExactCutoff(s'.versions))) == {};
  }

  lemma WriteKeepsInv(s: State, step: Step)
    requires Inv(s) && step.WriteSnapshot? && Enabled(s, step) && Careful(s, step)
    ensures Inv(Apply(s, step))
  {
  }

  lemma PruneKeepsInv(s: State, step: Step)
    requires Inv(s) && step.PruneRows? && Enabled(s, step)
    ensures Inv(Apply(s, step))
  {
  }

  lemma StepKeepsInv(s: State, step: Step)
    requires Inv(s) && Enabled(s, step) && Careful(s, step)
    ensures Inv(Apply(s, step))
  {
    match step
    case Load => LatestIsOneOf(s.versions);
    case Append(_) => AppendKeepsInv(s, step);
    case ApplyUpdate(_) => {}
    case ReadRows => {}
    case StripAndEncode(_) => {}
    case WriteSnapshot(_) => WriteKeepsInv(s, step);
    case PruneRows => PruneKeepsInv(s, step);
    case Crash => {}
  }

  lemma {:induction false} CarefulRunKeepsInv(s: State, steps: seq<Step>)
    requires Inv(s) && IsCarefulRun(s, steps)
    ensures IsRun(s, steps) && Inv(End(s, steps))
    decreases |steps|
  {
    if steps != [] {
      StepKeepsInv(s, steps[0]);
      CarefulRunKeepsInv(Apply(s, steps[0]), steps[1..]);
    }
  }

  lemma {:induction false} QuietRunsAreCareful(s: State, steps: seq<Step>)
    requires IsQuietRun(s, steps) && (s.job.HasEncoded? ==> s.job.late == {})
    ensures IsCarefulRun(s, steps)
    decreases |steps|
  {
    if steps != [] {
      QuietRunsAreCareful(Apply(s, steps[0]), steps[1..]);
    }
  }

  /** Nothing in memory or on disk comes from anywhere but a logged update or the guard, on any run at all. */
  ghost predicate Grounded(s: State) {
    var known := s.logged + s.guarded;
    && (s.live.Loaded? ==> s.live.doc <= known && s.live.pending <= s.logged)
    && (s.job.HasEncoded? ==> s.job.state <= known)
    && (forall row :: row in s.rows ==> row.data in s.logged)
    && (forall version :: version in s.versions ==> version.state <= known)
  }

  lemma StepKeepsGrounded(s: State, step: Step)
    requires Grounded(s) && Enabled(s, step)
    ensures Grounded(Apply(s, step))
  {
    LatestIsOneOf(s.versions);
    var s' := Apply(s, step);
    assert forall row :: row in s'.rows ==> row in s.rows || (step.Append? && row == step.row);
    assert forall v :: v in s'.versions ==> v in s.versions || (step.WriteSnapshot? && v.state == s.job.state);
  }

  lemma {:induction false} RunKeepsGrounded(s: State, steps: seq<Step>)
    requires Grounded(s) && IsRun(s, steps)
    ensures Grounded(End(s, steps))
    decreases |steps|
  {
    if steps != [] {
      StepKeepsGrounded(s, steps[0]);
      RunKeepsGrounded(Apply(s, steps[0]), steps[1..]);
    }
  }

  /* ------------------------------- what every run promises ------------------------------- */

  /**
   * After any careful run, wherever it was cut off, loading the page gives back every logged update
   * and invents none, and both ways of cutting off the log tail agree.
   */
  lemma EveryLoggedUpdateIsRebuilt(steps: seq<Step>)
    requires IsCarefulRun(START, steps)
    ensures IsRun(START, steps)
    ensures var s := End(START, steps);
            && s.logged <= Rebuild(s.rows, s.versions) <= s.logged + s.guarded
            && Materialize(s.rows, s.versions) == Rebuild(s.rows, s.versions)
  {
    CarefulRunKeepsInv(START, steps);
    RunKeepsGrounded(START, steps);
    var s := End(START, steps);
    LatestIsOneOf(s.versions);
    RoundingIsHarmlessIffCovered(s.rows, s.versions);
    forall row | row in s.rows && InRoundingGap(row, s.versions)
      ensures row.data in Materialize(s.rows, s.versions)
    {
      assert !IsAfter(row, ExactCutoff(s.versions));
    }
  }

  /** An update kept in the log, out of the pruned ids, in the very millisecond the snapshot is dated. */
  ghost predicate KeepsARow(s: State, ids: set<nat>, at: nat, u: Update) {
    exists row :: row in s.rows && row.id !in ids && row.at > Millis(at) && row.data == u
  }

  lemma RebuildAfterPrune(s: State, at: nat, u: Update)
    requires Dated(s) && Enabled(s, WriteSnapshot(at))
    ensures var s' := Apply(Apply(s, WriteSnapshot(at)), PruneRows);
            && (u in Rebuild(s'.rows, s'.versions) <==> u in s.job.state || KeepsARow(s, s.job.ids, at, u))
            && Materialize(s'.rows, s'.versions) == s.job.state
  {
    var written := Apply(s, WriteSnapshot(at));
    var s' := Apply(written, PruneRows);
    RebuildAfterWrite(s, WriteSnapshot(at));
    assert DataOf(ReadUpdatesSince(s'.rows, ExactCutoff(s'.versions))) == {};
    RebuildMember(s', u);
    if row :| row in s.rows && row.id !in s.job.ids && row.at > Millis(at) && row.data == u {
      assert row in s'.rows;
    }
  }

  /**
   * Exactly when a compaction that goes on to prune is safe: each update that overlapped it is in
   * the encoded document, or kept a row the rounded cutoff still reads. For the exact cutoff only
   * the first will do.
   */
  lemma CompactionIsSafeIff(s: State, at: nat)
    requires Inv(s) && Enabled(s, WriteSnapshot(at))
    ensures var s' := Apply(Apply(s, WriteSnapshot(at)), PruneRows);
            && (Durable(s') <==>
                forall u :: u in s.job.late ==> u in s.job.state || KeepsARow(s, s.job.ids, at, u))
            && (s'.logged <= Materialize(s'.rows, s'.versions) <==> s.job.late <= s.job.state)
  {
    var s' := Apply(Apply(s, WriteSnapshot(at)), PruneRows);
    forall u
      ensures u in Rebuild(s'.rows, s'.versions) <==> u in s.job.state || KeepsARow(s, s.job.ids, at, u)
      ensures Materialize(s'.rows, s'.versions) == s.job.state
    {
      RebuildAfterPrune(s, at, u);
    }
    hide Rebuild, Materialize, KeepsARow, Covered, Dated;
    assert s'.logged == s.logged && s.job.late <= s.logged <= s.job.state + s.job.late;
  }

  lemma StepThen(s: State, step: Step, rest: seq<Step>)
    requires Enabled(s, step) && IsRun(Apply(s, step), rest)
    ensures IsRun(s, [step] + rest) && End(s, [step] + rest) == End(Apply(s, step), rest)
  {
  }

  function CompactionSteps(stripped: Doc, at: nat): seq<Step> {
    [ReadRows] + ([StripAndEncode(stripped)] + ([WriteSnapshot(at)] + ([PruneRows] + [])))
  }

  /** What a compaction that nothing interrupts leaves behind. */
  function Compacted(s: State, stripped: Doc, at: nat): State
    requires s.live.Loaded?
  {
    var read := ReadUpdatesSince(s.rows, RoundedCutoff(s.versions));
    if read == [] then s
    else
      s.(rows := PruneUpdates(s.rows, IdsOf(read)),
         versions := s.versions + [Version(s.live.doc + stripped, at)],
         live := s.live.(doc := s.live.doc + stripped),
         now := at,
         guarded := s.guarded + stripped)
  }

  lemma CompactionIsARun(s: State, stripped: Doc, at: nat)
    requires s.live.Loaded? && s.job.Idle? && at > s.now
    requires ReadUpdatesSince(s.rows, RoundedCutoff(s.versions)) != []
    ensures IsRun(s, CompactionSteps(stripped, at))
    ensures End(s, CompactionSteps(stripped, at)) == Compacted(s, stripped, at)
  {
    hide ReadUpdatesSince, PruneUpdates, RoundedCutoff, IdsOf;
    var read := Apply(s, ReadRows);
    var encoded := Apply(read, StripAndEncode(stripped));
    var written := Apply(encoded, WriteSnapshot(at));
    StepThen(written, PruneRows, []);
    StepThen(encoded, WriteSnapshot(at), [PruneRows] + []);
    StepThen(read, StripAndEncode(stripped), [WriteSnapshot(at)] + ([PruneRows] + []));
    StepThen(s, ReadRows, [StripAndEncode(stripped)] + ([WriteSnapshot(at)] + ([PruneRows] + [])));
  }

  /**
   * A compaction run without interruption: loading afterwards gives exactly the document it encoded,
   * nothing is left for another compaction to read, and no logged update is lost exactly when every
   * update still waiting to be applied was in the document already.
   */
  lemma CompactionRoundTrips(s: State, stripped: Doc, at: nat)
    requires Inv(s) && s.live.Loaded? && s.job.Idle? && at > s.now
    requires ReadUpdatesSince(s.rows, RoundedCutoff(s.versions)) != []
    ensures var s' := Compacted(s, stripped, at);
            && Rebuild(s'.rows, s'.versions) == s'.live.doc == s.live.doc + stripped
            && ReadUpdatesSince(s'.rows, RoundedCutoff(s'.versions)) == []
            && (Durable(s') <==> s.live.pending <= s'.live.doc)
  {
    NothingLeftToRead(s, at, s.live.doc + stripped);
    LatestAfterWrite(s.versions, Version(s.live.doc + stripped, at));
    hide ReadUpdatesSince, PruneUpdates, LatestVersion;
    assert DataOf([]) == {};
  }

  lemma {:induction false} NoneAfter(rows: seq<Row>, cutoff: Option<nat>)
    requires forall row :: row in rows ==> !IsAfter(row, cutoff)
    ensures ReadUpdatesSince(rows, cutoff) == []
  {
    if rows != [] {
      assert !IsAfter(rows[0], cutoff);
      NoneAfter(rows[1..], cutoff);
    }
  }

  lemma NothingLeftToRead(s: State, at: nat, state: Doc)
    requires Dated(s) && at > s.now
    ensures var ids := IdsOf(ReadUpdatesSince(s.rows, RoundedCutoff(s.versions)));
            var versions := s.versions + [Version(state, at)];
            ReadUpdatesSince(PruneUpdates(s.rows, ids), RoundedCutoff(versions)) == []
  {
    var read := ReadUpdatesSince(s.rows, RoundedCutoff(s.versions));
    var versions := s.versions + [Version(state, at)];
    LatestAfterWrite(s.versions, Version(state, at));
    LatestIsOneOf(s.versions);
    var kept := PruneUpdates(s.rows, IdsOf(read));
    forall row | row in kept
      ensures !IsAfter(row, RoundedCutoff(versions))
    {
      assert row !in read;
    }
    NoneAfter(kept, RoundedCutoff(versions));
  }

  /* ------------------------------- what goes wrong without care ------------------------------- */

  const EDIT := Update(1, 0)
  const LATER := Update(2, 0)

  /** One edit logged, and not yet applied. */
  function EarlyState(): State {
    State([Row(0, EDIT, 5000)], [], Loaded({}, {EDIT}), Idle, 5000, {EDIT}, {})
  }

  lemma Loading()
    ensures Apply(START, Load) == START.(live := Loaded({}, {}))
  {
    assert Snapshot(START.versions) == {};
    assert ReadUpdatesSince(START.rows, RoundedCutoff(START.versions)) == [];
    assert Rebuild(START.rows, START.versions) == {};
  }

  lemma EarlyStateIsReached()
    ensures IsRun(START, [Load] + ([Append(Row(0, EDIT, 5000))] + []))
    ensures End(START, [Load] + ([Append(Row(0, EDIT, 5000))] + [])) == EarlyState()
    ensures Inv(EarlyState())
  {
    var row := Row(0, EDIT, 5000);
    Loading();
    var s := Apply(START, Load);
    assert Apply(s, Append(row)) == EarlyState() by {
      assert {} + {EDIT} == {EDIT} && [] + [row] == [row];
    }
    StepThen(s, Append(row), []);
    StepThen(START, Load, [Append(row)] + []);
    StepKeepsInv(START, Load);
    StepKeepsInv(s, Append(row));
  }

  /** An edit logged but not yet applied when the document is encoded is pruned and gone. */
  lemma OverlappedApplyIsLost()
    ensures IsRun(START, [Load] + ([Append(Row(0, EDIT, 5000))] + []))
    ensures End(START, [Load] + ([Append(Row(0, EDIT, 5000))] + [])) == EarlyState()
    ensures var s := Compacted(EarlyState(), {}, 9000);
            EDIT in s.logged && EDIT !in Rebuild(s.rows, s.versions)
  {
    EarlyStateIsReached();
  }

  /**
   * The state once a second edit has been logged and applied after the encoding but before the
   * snapshot was dated, and the compaction has finished.
   */
  function LateState(): State {
    State([Row(1, LATER, 5500)], [Version({EDIT}, 9000)], Loaded({EDIT, LATER}, {}), Idle, 9000, {EDIT, LATER}, {})
  }

  function LateSteps(): seq<Step> {
    [ApplyUpdate(EDIT)] + ([ReadRows] + ([StripAndEncode({})] + ([Append(Row(1, LATER, 5500))] +
    ([ApplyUpdate(LATER)] + ([WriteSnapshot(9000)] + ([PruneRows] + []))))))
  }

  lemma EarlySteps()
    ensures Apply(EarlyState(), ApplyUpdate(EDIT)) == EarlyState().(live := Loaded({EDIT}, {}))
    ensures var s := EarlyState().(live := Loaded({EDIT}, {}));
            Apply(s, ReadRows) == s.(job := HasRead({0})) && {EDIT} + {} == {EDIT}
  {
    var row := Row(0, EDIT, 5000);
    var s := EarlyState();
    assert s.live.doc + {EDIT} == {EDIT} && s.live.pending - {EDIT} == {};
    assert Apply(s, ApplyUpdate(EDIT)) == s.(live := Loaded({EDIT}, {}));
    assert s.rows == [row];
    assert RoundedCutoff(s.versions) == None;
    assert ReadUpdatesSince([row], None) == [row] by {
      assert [row][1..] == [];
    }
    assert IdsOf([row]) == {0} by {
      assert row in [row];
    }
  }

  lemma PruningTheFirst()
    ensures PruneUpdates([Row(0, EDIT, 5000), Row(1, LATER, 5500)], {0}) == [Row(1, LATER, 5500)]
  {
    var first, second := Row(0, EDIT, 5000), Row(1, LATER, 5500);
    assert [first, second][1..] == [second] && [second][1..] == [];
    assert PruneUpdates([second], {0}) == [second];
  }

  lemma LateStateIsReached()
    ensures IsRun(EarlyState(), LateSteps()) && End(EarlyState(), LateSteps()) == LateState()
  {
    var second := Row(1, LATER, 5500);
    var s1 := EarlyState().(live := Loaded({EDIT}, {}));
    var s2 := s1.(job := HasRead({0}));
    var s3 := s1.(job := HasEncoded({0}, {EDIT}, {}));
    var s4 := State(s1.rows + [second], [], Loaded({EDIT}, {LATER}), HasEncoded({0}, {EDIT}, {LATER}), 5500, {EDIT, LATER}, {});
    var s5 := s4.(live := Loaded({EDIT, LATER}, {}));
    var s6 := s5.(versions := [Version({EDIT}, 9000)], job := HasWritten({0}), now := 9000);
    EarlySteps();
    assert Apply(s2, StripAndEncode({})) == s3;
    assert {EDIT} + {LATER} == {EDIT, LATER} && {} + {LATER} == {LATER} && {LATER} - {LATER} == {};
    assert second.id !in IdsOf(s3.rows) + JobIds(s3.job);
    assert Apply(s3, Append(second)) == s4;
    assert Apply(s4, ApplyUpdate(LATER)) == s5;
    assert [] + [Version({EDIT}, 9000)] == [Version({EDIT}, 9000)];
    assert Apply(s5, WriteSnapshot(9000)) == s6;
    PruningTheFirst();
    assert s6.rows == [Row(0, EDIT, 5000), second];
    assert Apply(s6, PruneRows) == LateState();
    LateRun(s1, s2, s3, s4, s5, s6);
  }

  lemma LateRun(s1: State, s2: State, s3: State, s4: State, s5: State, s6: State)
    requires Enabled(EarlyState(), ApplyUpdate(EDIT)) && Apply(EarlyState(), ApplyUpdate(EDIT)) == s1
    requires Enabled(s1, ReadRows) && Apply(s1, ReadRows) == s2
    requires Enabled(s2, StripAndEncode({})) && Apply(s2, StripAndEncode({})) == s3
    requires Enabled(s3, Append(Row(1, LATER, 5500))) && Apply(s3, Append(Row(1, LATER, 5500))) == s4
    requires Enabled(s4, ApplyUpdate(LATER)) && Apply(s4, ApplyUpdate(LATER)) == s5
    requires Enabled(s5, WriteSnapshot(9000)) && Apply(s5, WriteSnapshot(9000)) == s6
    requires Enabled(s6, PruneRows) && Apply(s6, PruneRows) == LateState()
    ensures IsRun(EarlyState(), LateSteps()) && End(EarlyState(), LateSteps()) == LateState()
  {
  }

  /**
   * An edit logged and applied while the snapshot was on its way to the database: its row is still in
   * the log, but dated before the snapshot, so no load reads it and no compaction is triggered by it.
   */
  lemma EditBehindTheSnapshotIsLost()
    ensures IsRun(EarlyState(), LateSteps()) && End(EarlyState(), LateSteps()) == LateState()
    ensures var s := LateState();
            && LATER in s.logged && LATER in s.live.doc && LATER in DataOf(s.rows)
            && LATER !in Rebuild(s.rows, s.versions)
            && ReadUpdatesSince(s.rows, RoundedCutoff(s.versions)) == []
  {
    LateStateIsReached();
    var s := LateState();
    assert s.rows[0] in s.rows;
    assert LatestVersion(s.versions) == Some(Version({EDIT}, 9000));
    NoneAfter(s.rows, RoundedCutoff(s.versions));
  }
}
