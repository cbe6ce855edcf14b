/**
 * Sockets joining and leaving rooms while revocations arrive: a join is decided, then takes effect;
 * a sweep is one step. Histories record when each decision was made and which revocations followed.
 */
module RoomProtocol {
  import opened Wrappers
  import opened Revocations
  import opened Rooms

  /** When, for whom and for which room the join decision came out as granted. */
  datatype Grant = Grant(time: nat, user: User, org: Org, room: Room)

  /** A room's last admission: when its join was decided, and when it took effect. */
  datatype Entry = Entry(decided: nat, admitted: nat)

  /** `since` is when each room was last found granted: by its join, or by a sweep that kept it. */
  datatype Conn = Conn(user: User, session: Session, held: Held, since: map<Room, nat>, entries: map<Room, Entry>)

  /** A join whose decision is made but which has not yet taken effect. */
  datatype Pending = Pending(id: SocketId, org: Org, room: Room, time: nat)

  datatype State = State(
    conns: map<SocketId, Conn>,
    pending: set<Pending>,
    processed: seq<Message>,
    grants: set<Grant>)

  datatype Step =
    | Connect(id: SocketId, user: User, session: Session)
    | Decide(id: SocketId, org: Org, room: Room, verdict: Verdict)
    | Admit(join: Pending)
    | Leave(id: SocketId, room: Room)
    | Close(id: SocketId)
    | Process(message: Message, authorize: Authorizer)

  predicate Enabled(ids: Ids, s: State, step: Step) {
    match step
    case Connect(id, _, _) => id !in s.conns
    case Decide(id, org, room, _) => id in s.conns && s.conns[id].held.connected && ids.isOrg(org) && ids.isRoom(room)
    case Admit(join) => join in s.pending && join.id in s.conns && s.conns[join.id].held.connected
    case Leave(id, _) => id in s.conns && s.conns[id].held.connected
    case Close(id) => id in s.conns
    case Process(_, _) => true
  }

  /** One socket after a sweep; every room that was re-checked and kept was granted again just now. */
  function SweptConn(ids: Ids, message: Message, authorize: Authorizer, conn: Conn, now: nat): Conn {
    var held := Swept(ids, authorize, conn.user, conn.session, message, conn.held);
    conn.(held := held,
          since := map room | room in held.rooms && room in conn.since ::
                     if Names(message, conn.user, held.rooms[room]) then now else conn.since[room])
  }

  /** The decisions a sweep makes. */
  function Regranted(ids: Ids, s: State, message: Message, authorize: Authorizer): set<Grant> {
    set id, room | id in s.conns && room in s.conns[id].held.rooms
                   && Names(message, s.conns[id].user, s.conns[id].held.rooms[room]) && !message.MemberRemoved?
                   && Passes(ids, authorize, s.conns[id].user, s.conns[id].held.rooms[room], room) ::
      Grant(|s.processed| + 1, s.conns[id].user, s.conns[id].held.rooms[room], room)
  }

  function Apply(ids: Ids, s: State, step: Step): State
    requires Enabled(ids, s, step)
  {
    match step
    case Connect(id, user, session) =>
      s.(conns := s.conns[id := Conn(user, session, Held(true, map[], {}), map[], map[])])
    case Decide(id, org, room, verdict) =>
      if !verdict.Granted? then s
      else
        s.(pending := s.pending + {Pending(id, org, room, |s.processed|)},
           grants := s.grants + {Grant(|s.processed|, s.conns[id].user, org, room)})
    case Admit(join) =>
      var conn := s.conns[join.id];
      var held := conn.held.(rooms := conn.held.rooms[join.room := join.org], joined := conn.held.joined + {join.room});
      s.(pending := s.pending - {join},
         conns := s.conns[join.id := conn.(held := held, since := conn.since[join.room := join.time],
                                           entries := conn.entries[join.room := Entry(join.time, |s.processed|)])])
    case Leave(id, room) =>
      var conn := s.conns[id];
      s.(conns := s.conns[id := conn.(held := Without(conn.held, room), since := conn.since - {room})])
    case Close(id) =>
      s.(conns := s.conns[id := s.conns[id].(held := s.conns[id].held.(connected := false, joined := {}))])
    case Process(message, authorize) =>
      s.(conns := map id | id in s.conns :: SweptConn(ids, message, authorize, s.conns[id], |s.processed| + 1),
         processed := s.processed + [message],
         grants := s.grants + Regranted(ids, s, message, authorize))
  }

  const START := State(map[], {}, [], {})

  /** No revocation processed since `time` concerns the user's rooms in the org. */
  ghost predicate Unrevoked(s: State, user: User, org: Org, time: nat) {
    forall i :: time <= i < |s.processed| ==> !Names(s.processed[i], user, org)
  }

  /** A decided join takes effect only if nothing that concerns it was processed in between. */
  ghost predicate Careful(ids: Ids, s: State, step: Step)
    requires Enabled(ids, s, step)
  {
    step.Admit? ==> Unrevoked(s, s.conns[step.join.id].user, step.join.org, step.join.time)
  }

  ghost predicate IsRun(ids: Ids, s: State, steps: seq<Step>)
    decreases |steps|
  {
    steps == [] || (Enabled(ids, s, steps[0]) && IsRun(ids, Apply(ids, s, steps[0]), steps[1..]))
  }

  ghost function End(ids: Ids, s: State, steps: seq<Step>): State
    requires IsRun(ids, s, steps)
    decreases |steps|
  {
    if steps == [] then s else End(ids, Apply(ids, s, steps[0]), steps[1..])
  }

  ghost predicate IsCarefulRun(ids: Ids, s: State, steps: seq<Step>)
    decreases |steps|
  {
    steps == [] ||
    (Enabled(ids, s, steps[0]) && Careful(ids, s, steps[0]) && IsCarefulRun(ids, Apply(ids, s, steps[0]), steps[1..]))
  }

  /** Joins taken as one step: each decision takes effect before anything else happens. */
  ghost predicate IsAtomicRun(ids: Ids, s: State, steps: seq<Step>)
    decreases |steps|
  {
    steps == [] ||
    (Enabled(ids, s, steps[0]) && (steps[0].Admit? ==> steps[0].join.time == |s.processed|)
     && IsAtomicRun(ids, Apply(ids, s, steps[0]), steps[1..]))
  }

  /* ------------------------------- the invariant ------------------------------- */

  /** What a connected socket believes it holds is what the adapter delivers to it. */
  ghost predicate Mirrors(conn: Conn) {
    conn.held.connected ==> conn.held.joined == conn.held.rooms.Keys
  }

  /** Every room held goes back to a granted decision for this user, org and room. */
  ghost predicate Earned(s: State, conn: Conn) {
    conn.held.connected ==>
      && conn.since.Keys == conn.held.rooms.Keys
      && forall room :: room in conn.held.rooms ==>
           && conn.since[room] <= |s.processed|
           && Grant(conn.since[room], conn.user, conn.held.rooms[room], room) in s.grants
  }

  ghost predicate PendingEarned(s: State) {
    forall join :: join in s.pending && join.id in s.conns ==>
      join.time <= |s.processed| && Grant(join.time, s.conns[join.id].user, join.org, join.room) in s.grants
  }

  /** Every room held was granted no earlier than the last revocation that concerns it. */
  ghost predicate Fresh(s: State, conn: Conn)
    requires Earned(s, conn)
  {
    conn.held.connected ==>
      forall room :: room in conn.held.rooms ==> Unrevoked(s, conn.user, conn.held.rooms[room], conn.since[room])
  }

  ghost predicate Inv(s: State) {
    && (forall id :: id in s.conns ==> Mirrors(s.conns[id]) && Earned(s, s.conns[id]))
    && PendingEarned(s)
    && (forall join :: join in s.pending ==> join.id in s.conns)
  }

  ghost predicate AllFresh(s: State)
    requires Inv(s)
  {
    forall id :: id in s.conns ==> Fresh(s, s.conns[id])
  }

  lemma SweptConnIsSound(ids: Ids, s: State, step: Step, id: SocketId)
    requires Inv(s) && step.Process? && id in s.conns
    ensures var s' := Apply(ids, s, step);
            && id in s'.conns && s'.conns[id] == SweptConn(ids, step.message, step.authorize, s.conns[id], |s.processed| + 1)
            && Mirrors(s'.conns[id]) && Earned(s', s'.conns[id])
    ensures AllFresh(s) ==> Fresh(Apply(ids, s, step), Apply(ids, s, step).conns[id])
  {
    var s' := Apply(ids, s, step);
    var conn, conn' := s.conns[id], s'.conns[id];
    assert Mirrors(conn) && Earned(s, conn);
    if conn'.held.connected {
      forall room | room in conn'.held.rooms
        ensures room in conn'.since && conn'.since[room] <= |s'.processed|
        ensures Grant(conn'.since[room], conn.user, conn'.held.rooms[room], room) in s'.grants
        ensures AllFresh(s) ==> Unrevoked(s', conn.user, conn'.held.rooms[room], conn'.since[room])
      {
        assert room in conn.held.rooms && room in conn.since;
        var org := conn.held.rooms[room];
        assert Keeps(ids, step.authorize, conn.user, step.message, org, room);
        if AllFresh(s) {
          assert Fresh(s, conn) && Unrevoked(s, conn.user, org, conn.since[room]);
        }
      }
    }
  }

  lemma StepKeepsInv(ids: Ids, s: State, step: Step)
    requires Inv(s) && Enabled(ids, s, step)
    ensures Inv(Apply(ids, s, step))
    ensures AllFresh(s) && Careful(ids, s, step) ==> AllFresh(Apply(ids, s, step))
  {
    if step.Process? {
      forall id | id in s.conns
        ensures var s' := Apply(ids, s, step); Mirrors(s'.conns[id]) && Earned(s', s'.conns[id])
        ensures AllFresh(s) ==> Fresh(Apply(ids, s, step), Apply(ids, s, step).conns[id])
      {
        SweptConnIsSound(ids, s, step, id);
      }
    } else if step.Admit? {
      AdmitKeepsInv(ids, s, step);
    } else if step.Decide? {
      DecideKeepsInv(ids, s, step);
    } else {
      SocketStepKeepsInv(ids, s, step);
    }
  }

  lemma AdmitKeepsInv(ids: Ids, s: State, step: Step)
    requires Inv(s) && Enabled(ids, s, step) && step.Admit?
    ensures Inv(Apply(ids, s, step))
    ensures AllFresh(s) && Careful(ids, s, step) ==> AllFresh(Apply(ids, s, step))
  {
    hide Swept, SweptConn, Regranted, Fresh;
    var s' := Apply(ids, s, step);
    forall id | id in s'.conns
      ensures Mirrors(s'.conns[id]) && Earned(s', s'.conns[id])
      ensures AllFresh(s) && Careful(ids, s, step) ==> Fresh(s', s'.conns[id])
    {
      assert Mirrors(s.conns[id]) && Earned(s, s.conns[id]);
      if AllFresh(s) && Careful(ids, s, step) {
        AdmitKeepsFresh(ids, s, step.join, id);
      }
    }
  }

  lemma AdmitKeepsFresh(ids: Ids, s: State, join: Pending, id: SocketId)
    requires Enabled(ids, s, Admit(join)) && Careful(ids, s, Admit(join)) && id in s.conns
    requires Earned(s, s.conns[id]) && Fresh(s, s.conns[id])
    requires Earned(Apply(ids, s, Admit(join)), Apply(ids, s, Admit(join)).conns[id])
    ensures Fresh(Apply(ids, s, Admit(join)), Apply(ids, s, Admit(join)).conns[id])
  {
  }

  lemma DecideKeepsInv(ids: Ids, s: State, step: Step)
    requires Inv(s) && Enabled(ids, s, step) && step.Decide?
    ensures Inv(Apply(ids, s, step))
    ensures AllFresh(s) && Careful(ids, s, step) ==> AllFresh(Apply(ids, s, step))
  {
  }

  lemma SocketStepKeepsInv(ids: Ids, s: State, step: Step)
    requires Inv(s) && Enabled(ids, s, step) && (step.Connect? || step.Leave? || step.Close?)
    ensures Inv(Apply(ids, s, step))
    ensures AllFresh(s) && Careful(ids, s, step) ==> AllFresh(Apply(ids, s, step))
  {
    hide Swept, SweptConn, Regranted;
    var s' := Apply(ids, s, step);
    forall id | id in s'.conns
      ensures Mirrors(s'.conns[id]) && Earned(s', s'.conns[id])
      ensures AllFresh(s) && Careful(ids, s, step) ==> Fresh(s', s'.conns[id])
    {
      if id in s.conns {
        assert Mirrors(s.conns[id]) && Earned(s, s.conns[id]);
        assert AllFresh(s) ==> Fresh(s, s.conns[id]);
      }
    }
  }

  lemma {:induction false} CarefulRunKeepsInv(ids: Ids, s: State, steps: seq<Step>)
    requires Inv(s) && AllFresh(s) && IsCarefulRun(ids, s, steps)
    ensures IsRun(ids, s, steps) && Inv(End(ids, s, steps)) && AllFresh(End(ids, s, steps))
    decreases |steps|
  {
    hide Inv, AllFresh, Apply, Enabled, Careful;
    if steps != [] {
      StepKeepsInv(ids, s, steps[0]);
      CarefulRunKeepsInv(ids, Apply(ids, s, steps[0]), steps[1..]);
    }
  }

  lemma {:induction false} AtomicRunsAreCareful(ids: Ids, s: State, steps: seq<Step>)
    requires IsAtomicRun(ids, s, steps)
    ensures IsCarefulRun(ids, s, steps)
    decreases |steps|
  {
    if steps != [] {
      AtomicRunsAreCareful(ids, Apply(ids, s, steps[0]), steps[1..]);
    }
  }

  /* ------------------------------- what every run promises ------------------------------- */

  /**
   * With joins, leaves and sweeps each one step: after any run, a connected socket is delivered
   * exactly the rooms it believes it holds, and each was granted to its user no earlier than the
   * last processed revocation that concerns it.
   */
  lemma EveryRoomHeldIsFresh(ids: Ids, steps: seq<Step>, id: SocketId, room: Room)
    requires IsAtomicRun(ids, START, steps)
    ensures IsRun(ids, START, steps)
    ensures var s := End(ids, START, steps);
            id in s.conns && s.conns[id].held.connected ==>
              var conn := s.conns[id];
              && conn.held.joined == conn.held.rooms.Keys
              && (room in conn.held.rooms ==>
                    && room in conn.since
                    && Grant(conn.since[room], conn.user, conn.held.rooms[room], room) in s.grants
                    && Unrevoked(s, conn.user, conn.held.rooms[room], conn.since[room]))
  {
    AtomicRunsAreCareful(ids, START, steps);
    CarefulRunKeepsInv(ids, START, steps);
    var s := End(ids, START, steps);
    if id in s.conns {
      assert Mirrors(s.conns[id]) && Earned(s, s.conns[id]) && Fresh(s, s.conns[id]);
    }
  }

  /* ------------------------------- late admissions ------------------------------- */

  /** Some revocation that concerns the room came between its join's decision and its effect. */
  ghost predicate WasLate(s: State, user: User, org: Org, entry: Entry) {
    exists i :: entry.decided <= i < entry.admitted && i < |s.processed| && Names(s.processed[i], user, org)
  }

  /**
   * Every room held has its last admission on record; until a revocation that concerns it is
   * processed it stands on that admission's decision, and from then on it is fresh.
   */
  ghost predicate Traced(s: State, conn: Conn)
    requires Earned(s, conn)
  {
    conn.held.connected ==>
      forall room :: room in conn.held.rooms ==>
        room in conn.entries &&
        var entry, org := conn.entries[room], conn.held.rooms[room];
        && entry.decided <= entry.admitted <= |s.processed|
        && (Unrevoked(s, conn.user, org, entry.admitted) ==> conn.since[room] == entry.decided)
        && (!Unrevoked(s, conn.user, org, entry.admitted) ==> Unrevoked(s, conn.user, org, conn.since[room]))
  }

  ghost predicate AllTraced(s: State)
    requires Inv(s)
  {
    forall id :: id in s.conns ==> Traced(s, s.conns[id])
  }

  lemma SweepKeepsTraced(ids: Ids, s: State, step: Step, id: SocketId)
    requires Inv(s) && step.Process? && id in s.conns && Traced(s, s.conns[id])
    requires Inv(Apply(ids, s, step))
    ensures id in Apply(ids, s, step).conns && Traced(Apply(ids, s, step), Apply(ids, s, step).conns[id])
  {
    var s' := Apply(ids, s, step);
    var conn, conn' := s.conns[id], s'.conns[id];
    var last := |s.processed|;
    assert s'.processed[last] == step.message;
    assert conn'.held.connected ==> conn.held.connected;
    if conn'.held.connected {
      forall room | room in conn'.held.rooms
        ensures var entry, org := conn'.entries[room], conn'.held.rooms[room];
                && (Unrevoked(s', conn.user, org, entry.admitted) <==>
                    Unrevoked(s, conn.user, org, entry.admitted) && !Names(step.message, conn.user, org))
                && (Unrevoked(s', conn.user, org, conn'.since[room]) <==>
                    conn'.since[room] > last || (Unrevoked(s, conn.user, org, conn'.since[room]) && !Names(step.message, conn.user, org)))
      {
        assert room in conn.held.rooms;
        OneMoreMessage(s, s', step.message, conn.user, conn.held.rooms[room], conn.entries[room].admitted);
        OneMoreMessage(s, s', step.message, conn.user, conn.held.rooms[room], conn'.since[room]);
      }
    }
  }

  lemma OneMoreMessage(s: State, s': State, message: Message, user: User, org: Org, time: nat)
    requires s'.processed == s.processed + [message]
    ensures Unrevoked(s', user, org, time) <==>
            time > |s.processed| || (Unrevoked(s, user, org, time) && !Names(message, user, org))
  {
    if Unrevoked(s', user, org, time) {
      assert time <= |s.processed| ==> s'.processed[|s.processed|] == message;
      forall i | time <= i < |s.processed|
        ensures !Names(s.processed[i], user, org)
      {
        assert s'.processed[i] == s.processed[i];
      }
    }
  }

  lemma AdmitKeepsTraced(ids: Ids, s: State, step: Step, id: SocketId)
    requires Inv(s) && Enabled(ids, s, step) && !step.Process? && id in Apply(ids, s, step).conns
    requires id in s.conns ==> Traced(s, s.conns[id])
    requires Inv(Apply(ids, s, step))
    ensures Traced(Apply(ids, s, step), Apply(ids, s, step).conns[id])
  {
    hide Swept, SweptConn, Regranted, Names, Unrevoked, Mirrors;
    var s' := Apply(ids, s, step);
    var conn' := s'.conns[id];
    if conn'.held.connected && id in s.conns {
      forall room | room in conn'.held.rooms
        ensures room in conn'.entries && conn'.entries[room].decided <= conn'.entries[room].admitted <= |s.processed|
        ensures (conn'.since[room] == conn'.entries[room].decided && conn'.entries[room].admitted == |s.processed|)
                || (room in s.conns[id].held.rooms && conn'.since[room] == s.conns[id].since[room]
                    && conn'.entries[room] == s.conns[id].entries[room] && conn'.held.rooms[room] == s.conns[id].held.rooms[room])
      {
        assert Earned(s, s.conns[id]) && PendingEarned(s);
      }
      TracedAlike(s, s', s.conns[id], conn');
    }
  }

  /** Rooms newly admitted, or as they were, are on record as they should be. */
  lemma TracedAlike(s: State, s': State, conn: Conn, conn': Conn)
    requires s'.processed == s.processed && conn'.user == conn.user
    requires conn.held.connected && conn'.held.connected
    requires Earned(s, conn) && Traced(s, conn) && Earned(s', conn')
    requires forall room :: room in conn'.held.rooms ==>
               && room in conn'.entries && conn'.entries[room].decided <= conn'.entries[room].admitted <= |s.processed|
               && ((conn'.since[room] == conn'.entries[room].decided && conn'.entries[room].admitted == |s.processed|)
                   || (room in conn.held.rooms && conn'.since[room] == conn.since[room]
                       && conn'.entries[room] == conn.entries[room] && conn'.held.rooms[room] == conn.held.rooms[room]))
    ensures Traced(s', conn')
  {
    hide Names;
  }

  lemma {:induction false} RunKeepsTraced(ids: Ids, s: State, steps: seq<Step>)
    requires Inv(s) && AllTraced(s) && IsRun(ids, s, steps)
    ensures Inv(End(ids, s, steps)) && AllTraced(End(ids, s, steps))
    decreases |steps|
  {
    hide Apply, Enabled, Careful, Traced, Mirrors, Earned;
    if steps != [] {
      var next := Apply(ids, s, steps[0]);
      StepKeepsInv(ids, s, steps[0]);
      forall id | id in next.conns
        ensures Traced(next, next.conns[id])
      {
        if steps[0].Process? {
          SweepKeepsConns(ids, s, steps[0], id);
          SweepKeepsTraced(ids, s, steps[0], id);
        } else {
          AdmitKeepsTraced(ids, s, steps[0], id);
        }
      }
      RunKeepsTraced(ids, next, steps[1..]);
    }
  }

  lemma SweepKeepsConns(ids: Ids, s: State, step: Step, id: SocketId)
    requires step.Process?
    ensures id in Apply(ids, s, step).conns <==> id in s.conns
  {
  }

  /**
   * On every run, late admissions and all: a room held is stale exactly when its last admission was
   * late and no revocation that concerns it has been processed since.
   */
  lemma StaleExactlyWhenLate(ids: Ids, steps: seq<Step>, id: SocketId, room: Room)
    requires IsRun(ids, START, steps)
    ensures var s := End(ids, START, steps);
            id in s.conns && s.conns[id].held.connected && room in s.conns[id].held.rooms ==>
              var conn := s.conns[id];
              var org := conn.held.rooms[room];
              room in conn.since && room in conn.entries &&
              var entry := conn.entries[room];
              (!Unrevoked(s, conn.user, org, conn.since[room]) <==>
                 WasLate(s, conn.user, org, entry) && Unrevoked(s, conn.user, org, entry.admitted))
  {
    RunKeepsTraced(ids, START, steps);
    var s := End(ids, START, steps);
    if id in s.conns {
      assert Earned(s, s.conns[id]) && Traced(s, s.conns[id]);
    }
  }

  /**
   * On every run, once a revocation has been processed every room it concerns that is still held is
   * fresh, however it was admitted.
   */
  lemma ProcessedRevocationsRestoreFreshness(ids: Ids, steps: seq<Step>, message: Message, authorize: Authorizer,
                                             id: SocketId, room: Room)
    requires IsRun(ids, START, steps)
    ensures var s := Apply(ids, End(ids, START, steps), Process(message, authorize));
            id in s.conns && s.conns[id].held.connected && room in s.conns[id].held.rooms
            && Names(message, s.conns[id].user, s.conns[id].held.rooms[room]) ==>
              room in s.conns[id].since &&
              Unrevoked(s, s.conns[id].user, s.conns[id].held.rooms[room], s.conns[id].since[room])
  {
    RunKeepsTraced(ids, START, steps);
    var before := End(ids, START, steps);
    var s := Apply(ids, before, Process(message, authorize));
    if id in s.conns {
      assert Earned(before, before.conns[id]);
    }
  }

  /** A step that answers with a grant for this user, org and room: a join decided so, or a sweep's check passed. */
  predicate Grants(s: State, step: Step, grant: Grant) {
    match step
    case Decide(id, org, room, verdict) =>
      id in s.conns && verdict == Granted && grant == Grant(|s.processed|, s.conns[id].user, org, room)
    case Process(message, authorize) =>
      authorize(grant.user, grant.org, grant.room) == Granted && grant.time == |s.processed| + 1
    case _ => false
  }

  /** A grant is recorded, and a join left to take effect, only by a decision that came out as granted. */
  lemma OnlyGrantsAreGranted(ids: Ids, s: State, step: Step, grant: Grant, join: Pending)
    requires Enabled(ids, s, step)
    ensures grant in Apply(ids, s, step).grants ==> grant in s.grants || Grants(s, step, grant)
    ensures join in Apply(ids, s, step).pending ==>
              (join in s.pending || step == Decide(join.id, join.org, join.room, Granted)) &&
              (join in s.pending || join.time == |s.processed|)
    ensures step.Decide? && step.verdict == Granted ==>
              Pending(step.id, step.org, step.room, |s.processed|) in Apply(ids, s, step).pending
  {
  }

  /** Some state the run passes through, where a step granted this. */
  ghost predicate WasGranted(ids: Ids, s: State, steps: seq<Step>, grant: Grant)
    requires IsRun(ids, s, steps)
    decreases |steps|
  {
    steps != [] && (Grants(s, steps[0], grant) || WasGranted(ids, Apply(ids, s, steps[0]), steps[1..], grant))
  }

  lemma {:induction false} GrantsHaveDecisions(ids: Ids, s: State, steps: seq<Step>, grant: Grant)
    requires IsRun(ids, s, steps) && grant in End(ids, s, steps).grants
    ensures grant in s.grants || WasGranted(ids, s, steps, grant)
    decreases |steps|
  {
    hide Apply, Enabled, Grants;
    if steps != [] {
      GrantsHaveDecisions(ids, Apply(ids, s, steps[0]), steps[1..], grant);
      OnlyGrantsAreGranted(ids, s, steps[0], grant, Pending("", "", "", 0));
    }
  }

  /** On every run each room held goes back to a join decision, or a sweep's check, that came out as granted. */
  lemma EveryRoomHeldWasGranted(ids: Ids, steps: seq<Step>, id: SocketId, room: Room)
    requires IsRun(ids, START, steps)
    ensures var s := End(ids, START, steps);
            id in s.conns && s.conns[id].held.connected && room in s.conns[id].held.rooms ==>
              room in s.conns[id].since &&
              WasGranted(ids, START, steps, Grant(s.conns[id].since[room], s.conns[id].user, s.conns[id].held.rooms[room], room))
  {
    RunKeepsGrants(ids, START, steps);
    var s := End(ids, START, steps);
    if id in s.conns && s.conns[id].held.connected && room in s.conns[id].held.rooms {
      assert Earned(s, s.conns[id]);
      GrantsHaveDecisions(ids, START, steps, Grant(s.conns[id].since[room], s.conns[id].user, s.conns[id].held.rooms[room], room));
    }
  }

  /** A socket enters a room only by a decided join taking effect, and that does put it in the room. */
  lemma RoomsAreEnteredByAdmission(ids: Ids, s: State, step: Step, id: SocketId, room: Room)
    requires Enabled(ids, s, step) && id in s.conns
    ensures id in Apply(ids, s, step).conns
    ensures var before, after := s.conns[id].held, Apply(ids, s, step).conns[id].held;
            && (room in after.rooms && (room !in before.rooms || after.rooms[room] != before.rooms[room]) ==>
                  step.Admit? && step.join.id == id && step.join.room == room)
            && (step.Admit? && step.join.id == id && step.join.room == room ==>
                  room in after.rooms && after.rooms[room] == step.join.org && room in after.joined
                  && step.join !in Apply(ids, s, step).pending)
  {
  }

  /** Leaving leaves that room, closing leaves them all, a new socket holds none, and nobody else is touched. */
  lemma SocketsLeaveAndClose(ids: Ids, s: State, step: Step, id: SocketId, room: Room)
    requires Enabled(ids, s, step) && (step.Connect? || step.Leave? || step.Close?)
    ensures var s' := Apply(ids, s, step);
            && (step == Leave(id, room) ==> id in s'.conns && room !in s'.conns[id].held.rooms && room !in s'.conns[id].held.joined)
            && (step == Close(id) ==> id in s'.conns && !s'.conns[id].held.connected && s'.conns[id].held.joined == {})
            && (step.Connect? && step.id == id ==>
                  id in s'.conns && s'.conns[id].held == Held(true, map[], {})
                  && s'.conns[id].user == step.user && s'.conns[id].session == step.session)
            && (step.id != id ==> (id in s'.conns <==> id in s.conns) && (id in s.conns ==> s'.conns[id] == s.conns[id]))
  {
  }

  /** Grants are only ever made for ids that parse. */
  ghost predicate GrantsParse(ids: Ids, s: State) {
    forall grant :: grant in s.grants ==> ids.isOrg(grant.org) && ids.isRoom(grant.room)
  }

  lemma StepKeepsGrantsParse(ids: Ids, s: State, step: Step)
    requires GrantsParse(ids, s) && Enabled(ids, s, step)
    ensures GrantsParse(ids, Apply(ids, s, step))
  {
  }

  /**
   * A sweep drops exactly the concerned rooms that no longer pass (a throwing check does not pass),
   * and on a removal all of them; it closes exactly the named session, and touches nothing else.
   */
  lemma SweepIsExact(ids: Ids, s: State, message: Message, authorize: Authorizer, id: SocketId, room: Room)
    requires Inv(s) && GrantsParse(ids, s) && id in s.conns && s.conns[id].held.connected
    ensures var before, after := s.conns[id], Apply(ids, s, Process(message, authorize)).conns[id];
            && (after.held.connected <==> !(message.EndSession? && message.session == before.session))
            && (room in after.held.rooms <==>
                  room in before.held.rooms &&
                  (Names(message, before.user, before.held.rooms[room]) ==>
                     !message.MemberRemoved? && authorize(before.user, before.held.rooms[room], room) == Granted))
            && (room in after.held.rooms ==> after.held.rooms[room] == before.held.rooms[room])
  {
  }

  /** A socket a message does not concern, in any org and by session, is as it was. */
  lemma OthersAreUntouched(ids: Ids, s: State, message: Message, authorize: Authorizer, id: SocketId)
    requires id in s.conns && !(message.EndSession? && message.session == s.conns[id].session)
    requires forall org :: !Names(message, s.conns[id].user, org)
    ensures Apply(ids, s, Process(message, authorize)).conns[id].held == s.conns[id].held
  {
  }

  lemma {:induction false} RunKeepsGrants(ids: Ids, s: State, steps: seq<Step>)
    requires Inv(s) && GrantsParse(ids, s) && IsRun(ids, s, steps)
    ensures Inv(End(ids, s, steps)) && GrantsParse(ids, End(ids, s, steps))
    decreases |steps|
  {
    hide Inv, GrantsParse, Apply, Enabled;
    if steps != [] {
      StepKeepsInv(ids, s, steps[0]);
      StepKeepsGrantsParse(ids, s, steps[0]);
      RunKeepsGrants(ids, Apply(ids, s, steps[0]), steps[1..]);
    }
  }

  /** An outbox row as the gateway takes it: one that asks for nothing changes nothing. */
  function ApplyRow(ids: Ids, s: State, row: Row, authorize: Authorizer): State {
    match RevocationOf(row)
    case None => s
    case Some(message) => Apply(ids, s, Process(message, authorize))
  }

  /**
   * On every run a row that is not about a session reaches exactly its subjects: of their rooms in its
   * org, those stay that pass the check, and none on a removal; everyone else's sockets are as they were.
   */
  lemma RowsReachTheirSubjects(ids: Ids, steps: seq<Step>, row: Row, authorize: Authorizer, id: SocketId, room: Room)
    requires IsRun(ids, START, steps) && row.name !in SESSION_ROWS
    ensures var s := End(ids, START, steps);
            id in s.conns && s.conns[id].held.connected ==>
              id in ApplyRow(ids, s, row, authorize).conns &&
              var before, after := s.conns[id], ApplyRow(ids, s, row, authorize).conns[id];
              && after.held.connected
              && (IsSubject(row, before.user) ==>
                    (room in after.held.rooms <==>
                       room in before.held.rooms &&
                       (before.held.rooms[room] == row.org ==>
                          row.name != "member.removed" && authorize(before.user, row.org, room) == Granted)))
              && (!IsSubject(row, before.user) ==> after.held == before.held)
  {
    RunKeepsGrants(ids, START, steps);
    var s := End(ids, START, steps);
    if id in s.conns && s.conns[id].held.connected {
      var user := s.conns[id].user;
      RevocationConcernsItsSubject(row, user, row.org);
      if RevocationOf(row).Some? {
        var message := RevocationOf(row).value;
        NoSessionEnds(row);
        forall org
          ensures Names(message, user, org) <==> org == row.org && IsSubject(row, user)
        {
          RevocationConcernsItsSubject(row, user, org);
        }
        hide Apply, RevocationOf, Names, IsSubject;
        SweepKeepsConns(ids, s, Process(message, authorize), id);
        SweepIsExact(ids, s, message, authorize, id, room);
        if !IsSubject(row, user) {
          OthersAreUntouched(ids, s, message, authorize, id);
        }
      }
    }
  }

  lemma NoSessionEnds(row: Row)
    requires RevocationOf(row).Some? && row.name !in SESSION_ROWS
    ensures !RevocationOf(row).value.EndSession?
  {
    if RevocationOf(row).value.EndSession? {
      AsksForExactly(row, RevocationOf(row).value);
    }
  }

  /** On every run a row about a session closes that session's sockets, all of them, and leaves every other as it was. */
  lemma RowsEndTheirSession(ids: Ids, steps: seq<Step>, row: Row, session: Session, authorize: Authorizer, id: SocketId)
    requires IsRun(ids, START, steps) && row.name in SESSION_ROWS && Says(row, "sessionId", session)
    ensures var s := End(ids, START, steps);
            id in s.conns ==>
              id in ApplyRow(ids, s, row, authorize).conns &&
              var before, after := s.conns[id], ApplyRow(ids, s, row, authorize).conns[id];
              if before.session == session then !after.held.connected && after.held.joined == {}
              else after.held == before.held
  {
    var reason := if row.name == "session.revoked" then SessionRevoked else TokenReuseDetected;
    AsksForExactly(row, EndSession(session, reason));
  }

  /** A row that does not say whom it is about, or of no known kind, does nothing. */
  lemma IllegibleRowsDoNothing(ids: Ids, s: State, row: Row, authorize: Authorizer)
    ensures ApplyRow(ids, s, row, authorize) != s ==>
            && row.payload.Some?
            && (row.name == "grant.revoked"
                || (row.name in SESSION_ROWS && SaysSomething(row, "sessionId"))
                || (row.name in MEMBER_ROWS && SaysSomething(row, "userId")))
  {
    AsksIffLegible(row);
  }

  /** What can take a room from a socket: itself, the end of its session, or a revocation whose check it fails. */
  ghost predicate Takes(step: Step, id: SocketId, user: User, session: Session, room: Room) {
    match step
    case Leave(i, r) => i == id && r == room
    case Close(i) => i == id
    case Process(message, authorize) =>
      || (message.EndSession? && message.session == session)
      || exists org :: Names(message, user, org) && (message.MemberRemoved? || authorize(user, org, room) != Granted)
    case _ => false
  }

  ghost predicate HoldsRoom(s: State, id: SocketId, user: User, session: Session, room: Room) {
    id in s.conns && s.conns[id].user == user && s.conns[id].session == session && s.conns[id].held.connected
    && room in s.conns[id].held.rooms
  }

  lemma RoomStaysUnlessTaken(ids: Ids, s: State, step: Step, id: SocketId, user: User, session: Session, room: Room)
    requires Inv(s) && GrantsParse(ids, s) && Enabled(ids, s, step)
    requires HoldsRoom(s, id, user, session, room) && !Takes(step, id, user, session, room)
    ensures HoldsRoom(Apply(ids, s, step), id, user, session, room)
  {
    if step.Process? {
      SweepIsExact(ids, s, step.message, step.authorize, id, room);
    }
  }

  /** No room is ever lost without cause, whatever else the run does between. */
  lemma {:induction false} RoomsAreLostForCause(ids: Ids, s: State, steps: seq<Step>, id: SocketId, user: User, session: Session, room: Room)
    requires Inv(s) && GrantsParse(ids, s) && IsRun(ids, s, steps) && HoldsRoom(s, id, user, session, room)
    ensures HoldsRoom(End(ids, s, steps), id, user, session, room)
            || exists i :: 0 <= i < |steps| && Takes(steps[i], id, user, session, room)
    decreases |steps|
  {
    hide Inv, GrantsParse, Apply, Enabled, Takes, HoldsRoom;
    if steps != [] && !Takes(steps[0], id, user, session, room) {
      StepKeepsInv(ids, s, steps[0]);
      StepKeepsGrantsParse(ids, s, steps[0]);
      RoomStaysUnlessTaken(ids, s, steps[0], id, user, session, room);
      RoomsAreLostForCause(ids, Apply(ids, s, steps[0]), steps[1..], id, user, session, room);
      assert forall i :: 0 <= i < |steps| - 1 ==> steps[1..][i] == steps[i + 1];
    }
  }

  /** After any run, whatever happens next: a room held is kept until something takes it. */
  lemma HeldUntilTaken(ids: Ids, before: seq<Step>, steps: seq<Step>, id: SocketId, user: User, session: Session, room: Room)
    requires IsRun(ids, START, before) && IsRun(ids, End(ids, START, before), steps)
    requires HoldsRoom(End(ids, START, before), id, user, session, room)
    ensures HoldsRoom(End(ids, End(ids, START, before), steps), id, user, session, room)
            || exists i :: 0 <= i < |steps| && Takes(steps[i], id, user, session, room)
  {
    RunKeepsGrants(ids, START, before);
    RoomsAreLostForCause(ids, End(ids, START, before), steps, id, user, session, room);
  }

  /** The socket of a removed member whose join was decided before the removal and took effect after it. */
  lemma LateAdmissionOutlivesRemoval(ids: Ids, user: User, session: Session, org: Org, room: Room, id: SocketId, authorize: Authorizer)
    requires ids.isOrg(org) && ids.isRoom(room)
    ensures var steps := [Connect(id, user, session)] + ([Decide(id, org, room, Granted)] +
                         ([Process(MemberRemoved(org, user), authorize)] + ([Admit(Pending(id, org, room, 0))] + [])));
            IsRun(ids, START, steps) &&
            var s := End(ids, START, steps);
            && s.processed == [MemberRemoved(org, user)] && id in s.conns && s.conns[id].user == user
            && s.conns[id].held == Held(true, map[room := org], {room})
  {
    var join := Pending(id, org, room, 0);
    var s1 := Apply(ids, START, Connect(id, user, session));
    var s2 := Apply(ids, s1, Decide(id, org, room, Granted));
    var s3 := Apply(ids, s2, Process(MemberRemoved(org, user), authorize));
    assert s3.conns[id].held == Held(true, map[], {});
    var s4 := Apply(ids, s3, Admit(join));
    assert s4.conns[id].held == Held(true, map[room := org], {room});
    StepThen(ids, s3, Admit(join), []);
    StepThen(ids, s2, Process(MemberRemoved(org, user), authorize), [Admit(join)] + []);
    StepThen(ids, s1, Decide(id, org, room, Granted), [Process(MemberRemoved(org, user), authorize)] + ([Admit(join)] + []));
    StepThen(ids, START, Connect(id, user, session),
             [Decide(id, org, room, Granted)] + ([Process(MemberRemoved(org, user), authorize)] + ([Admit(join)] + [])));
  }

  lemma StepThen(ids: Ids, s: State, step: Step, rest: seq<Step>)
    requires Enabled(ids, s, step) && IsRun(ids, Apply(ids, s, step), rest)
    ensures IsRun(ids, s, [step] + rest) && End(ids, s, [step] + rest) == End(ids, Apply(ids, s, step), rest)
  {
  }
}
