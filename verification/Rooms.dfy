/** A namespace's sockets: joining, leaving, and being swept out of rooms by a revocation. */
module Rooms {
  import opened Wrappers
  import opened Revocations
  import opened RateLimit

  type Room = string
  type SocketId = string

  /** The join decision; it reads a database, so it may also throw. */
  datatype Verdict = Granted | Refused | Failed
  type Authorizer = (User, Org, Room) -> Verdict

  /** Which strings parse as ids. Board rooms parse both; call rooms parse only the org. */
  datatype Ids = Ids(isOrg: Org -> bool, isRoom: Room -> bool)

  datatype Ack = Joined | Throttled | Invalid | Denied | NoAnswer

  /** A socket as it stands: what it believes it holds, and what the adapter delivers to it. */
  datatype Held = Held(connected: bool, rooms: map<Room, Org>, joined: set<Room>)

  class Socket {
    const id: SocketId
    const user: User
    const session: Session
    var connected: bool
    var rooms: map<Room, Org>
    var joined: set<Room>

    constructor (id: SocketId, user: User, session: Session)
      ensures this.id == id && this.user == user && this.session == session
      ensures View() == Held(true, map[], {})
    {
      this.id, this.user, this.session := id, user, session;
      connected, rooms, joined := true, map[], {};
    }

    function View(): Held
      reads this
    {
      Held(connected, rooms, joined)
    }

    method Disconnect()
      modifies this
      ensures View() == old(View()).(connected := false, joined := {})
    {
      connected, joined := false, {};
    }

    method Leave(room: Room)
      modifies this
      ensures View() == Without(old(View()), room)
    {
      rooms := rooms - {room};
      joined := joined - {room};
    }

    method Admit(room: Room, org: Org)
      modifies this
      ensures View() == old(View()).(joined := old(joined) + {room}, rooms := old(rooms)[room := org])
    {
      joined := joined + {room};
      rooms := rooms[room := org];
    }
  }

  function Without(held: Held, room: Room): Held {
    Held(held.connected, held.rooms - {room}, held.joined - {room})
  }

  /* ------------------------------- joining ------------------------------- */

  class Gateway {
    const joinsPerSocket: FixedWindowLimiter
    const refusedJoinsPerSocket: FixedWindowLimiter

    constructor (maxJoins: int, maxRefused: int, windowMs: nat)
      ensures joinsPerSocket != refusedJoinsPerSocket && fresh(joinsPerSocket) && fresh(refusedJoinsPerSocket)
      ensures joinsPerSocket.windows == map[] && refusedJoinsPerSocket.windows == map[]
      ensures joinsPerSocket.limit == maxJoins && refusedJoinsPerSocket.limit == maxRefused
    {
      joinsPerSocket := new FixedWindowLimiter(maxJoins, windowMs);
      refusedJoinsPerSocket := new FixedWindowLimiter(maxRefused, windowMs);
    }

    /** One refusal more; past the limit the socket is closed. */
    method CountRefusal(socket: Socket, now: int)
      modifies socket, refusedJoinsPerSocket
      ensures refusedJoinsPerSocket.windows ==
              AfterHit(old(refusedJoinsPerSocket.windows), refusedJoinsPerSocket.windowMs, socket.id, now)
      ensures socket.View() ==
              if IsAllowed(old(refusedJoinsPerSocket.windows), refusedJoinsPerSocket.limit, socket.id, now)
              then old(socket.View()) else old(socket.View()).(connected := false, joined := {})
    {
      var allowed := refusedJoinsPerSocket.Hit(socket.id, now);
      if allowed {
        return;
      }
      socket.Disconnect();
    }

    /** A join request: None is one that does not parse. Only a granted one touches the rooms. */
    method HandleJoin(ids: Ids, socket: Socket, request: Option<(Org, Room)>, authorize: Authorizer, now: int)
      returns (ack: Ack)
      requires joinsPerSocket != refusedJoinsPerSocket
      requires request.Some? ==> ids.isOrg(request.value.0) && ids.isRoom(request.value.1)
      modifies socket, joinsPerSocket, refusedJoinsPerSocket
      ensures joinsPerSocket.windows == AfterHit(old(joinsPerSocket.windows), joinsPerSocket.windowMs, socket.id, now)
      ensures ack ==
              if !IsAllowed(old(joinsPerSocket.windows), joinsPerSocket.limit, socket.id, now) then Throttled
              else if request.None? then Invalid
              else match authorize(socket.user, request.value.0, request.value.1)
                   case Granted => Joined
                   case Refused => Denied
                   case Failed => NoAnswer
      ensures ack.Joined? ==>
                socket.View() == old(socket.View()).(rooms := old(socket.rooms)[request.value.1 := request.value.0],
                                                     joined := old(socket.joined) + {request.value.1})
      ensures !ack.Joined? ==> socket.rooms == old(socket.rooms)
      ensures !ack.Joined? && socket.connected ==> socket.View() == old(socket.View())
      ensures ack.Throttled? || ack.NoAnswer? || ack.Joined? ==>
                refusedJoinsPerSocket.windows == old(refusedJoinsPerSocket.windows)
      ensures ack.Invalid? || ack.Denied? ==>
                && refusedJoinsPerSocket.windows ==
                     AfterHit(old(refusedJoinsPerSocket.windows), refusedJoinsPerSocket.windowMs, socket.id, now)
                && (old(socket.connected) ==>
                      (socket.connected <==>
                       IsAllowed(old(refusedJoinsPerSocket.windows), refusedJoinsPerSocket.limit, socket.id, now)))
    {
      hide AfterHit, RateLimit.IsAllowed;
      var allowed := joinsPerSocket.Hit(socket.id, now);
      if !allowed {
        return Throttled;
      }
      if request.None? {
        CountRefusal(socket, now);
        return Invalid;
      }
      var (org, room) := request.value;
      match authorize(socket.user, org, room) {
        case Granted =>
          socket.Admit(room, org);
          return Joined;
        case Refused =>
          CountRefusal(socket, now);
          return Denied;
        case Failed =>
          return NoAnswer;
      }
    }
  }

  /* ------------------------------- revocation ------------------------------- */

  /** The check a sweep makes of one room: unparseable, refused and failing all count as no. */
  predicate Passes(ids: Ids, authorize: Authorizer, user: User, org: Org, room: Room) {
    ids.isOrg(org) && ids.isRoom(room) && authorize(user, org, room).Granted?
  }

  /** Whether a socket's user keeps a room through a message. */
  predicate Keeps(ids: Ids, authorize: Authorizer, user: User, message: Message, org: Org, room: Room) {
    Names(message, user, org) ==> !message.MemberRemoved? && Passes(ids, authorize, user, org, room)
  }

  /** A socket after a message, given who and what session it is. */
  function Swept(ids: Ids, authorize: Authorizer, user: User, session: Session, message: Message, held: Held): Held {
    if message.EndSession? && message.session == session then held.(connected := false, joined := {})
    else
      var dropped := set room | room in held.rooms && !Keeps(ids, authorize, user, message, held.rooms[room], room);
      Held(held.connected, held.rooms - dropped, held.joined - dropped)
  }

  /** A socket part way through being swept: what has been looked at and is doomed is gone. */
  ghost predicate SweptSoFar(held: Held, now: Held, doomed: set<Room>, left: set<Room>) {
    && now.connected == held.connected
    && (forall room :: room in now.rooms <==> room in held.rooms && (room in doomed ==> room in left))
    && (forall room :: room in now.rooms ==> now.rooms[room] == held.rooms[room])
    && (forall room :: room in now.joined <==> room in held.joined && (room in doomed ==> room in left))
  }

  lemma SweptAll(held: Held, now: Held, doomed: set<Room>)
    requires SweptSoFar(held, now, doomed, {})
    ensures now == Held(held.connected, held.rooms - doomed, held.joined - doomed)
  {
  }

  lemma LookedAt(held: Held, now: Held, doomed: set<Room>, left: set<Room>, room: Room)
    requires SweptSoFar(held, now, doomed, left)
    ensures SweptSoFar(held, if room in doomed then Without(now, room) else now, doomed, left - {room})
  {
  }

  /** Leaves every room in an org. */
  method RemoveMember(socket: Socket, org: Org)
    modifies socket
    ensures var doomed := set room | room in old(socket.rooms) && old(socket.rooms)[room] == org;
            socket.View() == Held(old(socket.connected), old(socket.rooms) - doomed, old(socket.joined) - doomed)
  {
    var entries := socket.rooms;
    ghost var held := socket.View();
    ghost var doomed := set room | room in entries && entries[room] == org;
    var left := entries.Keys;
    while left != {}
      invariant left <= entries.Keys && SweptSoFar(held, socket.View(), doomed, left)
      decreases |left|
    {
      var room :| room in left;
      LookedAt(held, socket.View(), doomed, left, room);
      left := left - {room};
      if entries[room] == org {
        socket.Leave(room);
      }
    }
    SweptAll(held, socket.View(), doomed);
  }

  /** Puts each of the org's rooms to the join decision again; only a grant keeps one. */
  method Recheck(ids: Ids, socket: Socket, org: Org, authorize: Authorizer)
    modifies socket
    ensures var doomed := set room | room in old(socket.rooms) && old(socket.rooms)[room] == org
                                     && !Passes(ids, authorize, socket.user, org, room);
            socket.View() == Held(old(socket.connected), old(socket.rooms) - doomed, old(socket.joined) - doomed)
  {
    var entries := socket.rooms;
    ghost var held := socket.View();
    ghost var doomed := set room | room in entries && entries[room] == org && !Passes(ids, authorize, socket.user, org, room);
    var left := entries.Keys;
    while left != {}
      invariant left <= entries.Keys && SweptSoFar(held, socket.View(), doomed, left)
      decreases |left|
    {
      var room :| room in left;
      LookedAt(held, socket.View(), doomed, left, room);
      left := left - {room};
      if entries[room] != org {
        continue;
      }
      if !ids.isOrg(org) || !ids.isRoom(room) {
        socket.Leave(room);
        continue;
      }
      var allowed := false;
      match authorize(socket.user, org, room) {
        case Granted => allowed := true;
        case Refused => allowed := false;
        case Failed => {}
      }
      if !allowed {
        socket.Leave(room);
      }
    }
    SweptAll(held, socket.View(), doomed);
  }

  method SweepOne(ids: Ids, socket: Socket, message: Message, authorize: Authorizer)
    modifies socket
    ensures socket.View() == Swept(ids, authorize, socket.user, socket.session, message, old(socket.View()))
  {
    match message
    case EndSession(session, _) =>
      if socket.session == session {
        socket.Disconnect();
      }
    case MemberRemoved(org, user) =>
      if socket.user == user {
        RemoveMember(socket, org);
      }
    case RecheckUser(org, user) =>
      if socket.user == user {
        Recheck(ids, socket, org, authorize);
      }
    case RecheckOrg(org) =>
      Recheck(ids, socket, org, authorize);
  }

  /** One message, applied to every socket this instance holds. */
  method ApplyRevocation(ids: Ids, sockets: seq<Socket>, message: Message, authorize: Authorizer)
    requires forall i, j :: 0 <= i < j < |sockets| ==> sockets[i] != sockets[j]
    modifies set socket | socket in sockets
    ensures forall i :: 0 <= i < |sockets| ==>
              sockets[i].View() ==
              Swept(ids, authorize, sockets[i].user, sockets[i].session, message, old(sockets[i].View()))
  {
    for i := 0 to |sockets|
      invariant forall j :: 0 <= j < i ==>
                  sockets[j].View() ==
                  Swept(ids, authorize, sockets[j].user, sockets[j].session, message, old(sockets[j].View()))
      invariant forall j :: i <= j < |sockets| ==> sockets[j].View() == old(sockets[j].View())
    {
      SweepOne(ids, sockets[i], message, authorize);
    }
  }
}
