/** The socket handlers of the chat service (server.js:51-106): a state
    machine over the room directory, socket.io's membership sets, the
    per-socket `socket.data`, and the log of events sent to rooms. */
module Chat {
  import opened Wrappers
  import opened Rooms

  type SocketId = string

  /** The `chat-message` event sent to a room. `text` is copied from the
      client's payload and is `None` when the client sent none (`undefined`). */
  datatype Message = Message(id: string, username: string, text: Option<string>, ts: int)

  /** The three kinds of outbound event, each with its payload: the events
      `system-message`, `room-meta` and `chat-message`, in that order. */
  datatype Payload =
    | SystemMessage(text: string, usersCount: nat)
    | RoomMeta(room: Room)
    | ChatMessage(msg: Message)

  /** One `io.to(to).emit(event, payload)`; the event is the payload's constructor. */
  datatype Emission = Emission(to: RoomId, payload: Payload)

  /** `socket.data`: both fields are missing until the socket joins a room. */
  datatype SocketData = SocketData(username: Option<string>, roomId: Option<RoomId>)

  /** The join announcement: the name, then " joined the room.". */
  function JoinedText(username: string): (t: string)
    ensures |t| == |username| + |" joined the room."|
    ensures t[..|username|] == username && t[|username|..] == " joined the room."
  {
    username + " joined the room."
  }

  /** The leave announcement, with "A user" standing in for a missing name. */
  function LeftText(username: Option<string>): (t: string)
    ensures Present(username) ==> t == username.value + " left the room."
    ensures !Present(username) ==> t == "A user left the room."
  {
    (if Present(username) then username.value else "A user") + " left the room."
  }

  /** The author of a chat message, "Unknown" for a missing name. */
  function AuthorName(username: Option<string>): (a: string)
    ensures Present(username) ==> a == username.value
    ensures !Present(username) ==> a == "Unknown"
  {
    if Present(username) then username.value else "Unknown"
  }

  /** `io.sockets.adapter.rooms.get(r) || new Set()`. */
  function MembersOf(members: map<RoomId, set<SocketId>>, r: RoomId): (m: set<SocketId>)
    ensures r in members ==> m == members[r]
    ensures r !in members ==> m == {}
  {
    if r in members then members[r] else {}
  }

  /** `socket.data` of `s`; a socket that never joined has an empty one. */
  function SessionOf(sessions: map<SocketId, SocketData>, s: SocketId): (d: SocketData)
    ensures s in sessions ==> d == sessions[s]
    ensures s !in sessions ==> d.username.None? && d.roomId.None?
  {
    if s in sessions then sessions[s] else SocketData(None, None)
  }

  /** What socket.io does to the membership sets when `s` closes: it leaves every room. */
  function Drop(members: map<RoomId, set<SocketId>>, s: SocketId): (m: map<RoomId, set<SocketId>>)
    ensures m.Keys == members.Keys
    ensures forall r :: r in m ==> m[r] == members[r] - {s}
  {
    map r | r in members :: members[r] - {s}
  }

  /** The directory is a well-formed Map, membership sets exist only for
      rooms in it, and every socket that has joined is bound to a room of
      the directory under a non-empty name. */
  ghost predicate Consistent(rooms: map<RoomId, Room>, order: seq<RoomId>,
                             members: map<RoomId, set<SocketId>>, sessions: map<SocketId, SocketData>) {
    && WellFormed(rooms, order)
    && members.Keys <= rooms.Keys
    && forall s :: s in sessions ==> BoundIn(sessions[s], rooms)
  }

  ghost predicate BoundIn(d: SocketData, rooms: map<RoomId, Room>) {
    Present(d.roomId) && d.roomId.value in rooms && Present(d.username)
  }

  /** The state `join-room` leaves behind is consistent again. */
  lemma JoinKeepsConsistent(rooms: map<RoomId, Room>, order: seq<RoomId>,
                            members: map<RoomId, set<SocketId>>, sessions: map<SocketId, SocketData>,
                            s: SocketId, rid: RoomId, username: string, room: Room, clients: set<SocketId>)
    requires Consistent(rooms, order, members, sessions)
    requires room.id == rid && rid != "" && username != ""
    ensures Consistent(rooms[rid := room], if rid in rooms then order else order + [rid],
                       members[rid := clients], sessions[s := SocketData(Some(username), Some(rid))])
  {
  }

  /** Every room's stored count is the size of its membership set. */
  ghost predicate CountsMatch(rooms: map<RoomId, Room>, members: map<RoomId, set<SocketId>>) {
    forall r :: r in rooms ==> rooms[r].usersCount == |MembersOf(members, r)|
  }

  /** Every socket is a member of the room it is bound to and of no other. */
  ghost predicate Exclusive(members: map<RoomId, set<SocketId>>, sessions: map<SocketId, SocketData>) {
    forall r, t :: r in members && t in members[r] ==> SessionOf(sessions, t).roomId == Some(r)
  }

  /** Writing back the count of one room keeps every other room's count current. */
  lemma RefreshKeepsCounts(rooms: map<RoomId, Room>, members: map<RoomId, set<SocketId>>,
                           rid: RoomId, room: Room, clients: set<SocketId>)
    requires room.usersCount == |clients|
    ensures CountsMatch(rooms, members) ==> CountsMatch(rooms[rid := room], members[rid := clients])
  {
  }

  /** Joining `rid` keeps sockets exclusive when the joiner is in no other room. */
  lemma JoinKeepsExclusive(members: map<RoomId, set<SocketId>>, sessions: map<SocketId, SocketData>,
                           s: SocketId, rid: RoomId, d: SocketData)
    requires d.roomId == Some(rid)
    ensures Exclusive(members, sessions) && (forall r :: r in members && s in members[r] ==> Some(r) == d.roomId)
            ==> Exclusive(members[rid := MembersOf(members, rid) + {s}], sessions[s := d])
  {
    if !Exclusive(members, sessions) || exists r :: r in members && s in members[r] && Some(r) != d.roomId {
      return;
    }
    var m, ss := members[rid := MembersOf(members, rid) + {s}], sessions[s := d];
    forall r, t | r in m && t in m[r] ensures SessionOf(ss, t).roomId == Some(r) {
      if t != s {
        assert r in members && t in members[r];
        assert SessionOf(ss, t) == SessionOf(sessions, t);
      } else {
        assert SessionOf(ss, t) == d;
      }
    }
  }

  /** When sockets are exclusive, a closing socket leaves only the room it is
      bound to, and exclusivity survives. */
  lemma DropKeepsOtherRooms(members: map<RoomId, set<SocketId>>, sessions: map<SocketId, SocketData>, s: SocketId)
    requires Exclusive(members, sessions)
    ensures Exclusive(Drop(members, s), sessions)
    ensures forall r :: Some(r) != SessionOf(sessions, s).roomId ==> MembersOf(Drop(members, s), r) == MembersOf(members, r)
  {
  }

  /** When every socket is in its bound room only, a closing socket leaves
      every count current once its bound room, if any, is refreshed. */
  lemma DropKeepsCounts(rooms: map<RoomId, Room>, members: map<RoomId, set<SocketId>>,
                        sessions: map<SocketId, SocketData>, s: SocketId)
    requires Exclusive(members, sessions) && CountsMatch(rooms, members)
    ensures SessionOf(sessions, s).roomId.None? ==> CountsMatch(rooms, Drop(members, s))
    ensures var rid := SessionOf(sessions, s).roomId;
      rid.Some? && rid.value in rooms ==>
        CountsMatch(rooms[rid.value := rooms[rid.value].(usersCount := |MembersOf(Drop(members, s), rid.value)|)],
                    Drop(members, s))
  {
    DropKeepsOtherRooms(members, sessions, s);
  }

  class Server {
    /** The `rooms` Map, as its entries and their insertion order. */
    var rooms: map<RoomId, Room>
    var order: seq<RoomId>
    /** socket.io's `io.sockets.adapter.rooms`: the sockets in each room. */
    var members: map<RoomId, set<SocketId>>
    /** `socket.data` of every socket that has joined a room. */
    var sessions: map<SocketId, SocketData>
    /** Every event emitted so far, oldest first. */
    var log: seq<Emission>

    ghost predicate Valid()
      reads this
    {
      Consistent(rooms, order, members, sessions)
    }

    function Session(s: SocketId): SocketData
      reads this
    {
      SessionOf(sessions, s)
    }

    ghost predicate CountsCurrent()
      reads this
    {
      CountsMatch(rooms, members)
    }

    ghost predicate SingleRoom()
      reads this
    {
      Exclusive(members, sessions)
    }

    constructor ()
      ensures Valid() && CountsCurrent() && SingleRoom()
      ensures rooms == map[] && order == [] && members == map[] && sessions == map[] && log == []
    {
      rooms, order, members, sessions, log := map[], [], map[], map[], [];
    }

    /** `POST /api/rooms` with a fresh id and the clock reading. */
    method CreateRoom(id: RoomId, name: Option<string>, isPublic: JsonValue, now: int) returns (room: Room)
      requires Valid()
      modifies this`rooms, this`order
      ensures Valid()
      ensures room == NewRoom(id, name, isPublic, now)
      ensures rooms == old(rooms)[id := room]
      ensures order == if id in old(rooms) then old(order) else old(order) + [id]
      ensures id !in old(rooms) ==> |rooms| == |old(rooms)| + 1
      ensures id !in old(rooms) && old(CountsCurrent()) ==> CountsCurrent()
      ensures old(SingleRoom()) ==> SingleRoom()
    {
      room := NewRoom(id, name, isPublic, now);
      SetKeepsWellFormed(rooms, order, id, room);
      if id !in rooms {
        order := order + [id];
      }
      rooms := rooms[id := room];
    }

    /** The `join-room` handler. */
    method JoinRoom(s: SocketId, roomId: Option<RoomId>, username: Option<string>, now: int)
      requires Valid()
      modifies this`rooms, this`order, this`members, this`sessions, this`log
      ensures Valid()
      ensures !Present(roomId) || !Present(username) ==>
        && rooms == old(rooms) && order == old(order) && members == old(members)
        && sessions == old(sessions) && log == old(log)
      ensures Present(roomId) && Present(username) ==>
        var rid := roomId.value;
        && members == old(members)[rid := MembersOf(old(members), rid) + {s}]
        && sessions == old(sessions)[s := SocketData(username, roomId)]
        && order == (if rid in old(rooms) then old(order) else old(order) + [rid])
        && rooms == old(rooms)[rid := (if rid in old(rooms) then old(rooms)[rid] else ImplicitRoom(rid, now))
                                        .(usersCount := |MembersOf(members, rid)|)]
        && s in MembersOf(members, rid) && rooms[rid].usersCount >= 1
        && log == old(log) + [ Emission(rid, SystemMessage(JoinedText(username.value), rooms[rid].usersCount)),
                               Emission(rid, RoomMeta(rooms[rid])) ]
      ensures old(CountsCurrent()) ==> CountsCurrent()
      ensures old(SingleRoom()) && (forall r :: r in old(members) && s in old(members)[r] ==> Some(r) == roomId)
              ==> SingleRoom()
    {
      if !Present(roomId) || !Present(username) {
        return;
      }
      var rid := roomId.value;
      var existing := if rid in rooms then rooms[rid] else ImplicitRoom(rid, now);
      var clients := MembersOf(members, rid) + {s};
      var usersCount := |clients|;
      var room := existing.(usersCount := usersCount);
      JoinKeepsConsistent(rooms, order, members, sessions, s, rid, username.value, room, clients);
      RefreshKeepsCounts(rooms, members, rid, room, clients);
      JoinKeepsExclusive(members, sessions, s, rid, SocketData(username, roomId));
      rooms, order, members, sessions, log :=
        rooms[rid := room], (if rid in rooms then order else order + [rid]),
        members[rid := clients], sessions[s := SocketData(username, roomId)],
        log + [Emission(rid, SystemMessage(JoinedText(username.value), usersCount)), Emission(rid, RoomMeta(room))];
    }

    /** The `chat-message` handler, with a fresh message id and the clock reading.
        The `'Unknown'` fallback of `AuthorName` never applies: under `Valid()`
        a socket with a room also has a non-empty name, since `join-room` sets
        both together, so the author is the joined name itself. */
    method PostMessage(s: SocketId, text: Option<string>, msgId: string, now: int)
      requires Valid()
      modifies this`log
      ensures Valid()
      ensures rooms == old(rooms) && members == old(members) && sessions == old(sessions)
      ensures !Present(Session(s).roomId) ==> log == old(log)
      ensures Present(Session(s).roomId) ==>
        log == old(log) + [Emission(Session(s).roomId.value,
                                    ChatMessage(Message(msgId, Session(s).username.value, text, now)))]
    {
      var username := AuthorName(Session(s).username);
      var roomId := Session(s).roomId;
      if !Present(roomId) {
        return;
      }
      log := log + [Emission(roomId.value, ChatMessage(Message(msgId, username, text, now)))];
    }

    /** socket.io's own step when a socket closes: it leaves every room
        before the `disconnect` handler runs. */
    method DropSocket(s: SocketId)
      requires Valid()
      modifies this`members
      ensures Valid()
      ensures members == Drop(old(members), s)
    {
      members := Drop(members, s);
    }

    /** The `disconnect` handler, run once socket.io has taken `s` out of
        every membership set. The `'A user'` fallback of `LeftText` never
        applies: under `Valid()` a socket with a room also has a non-empty
        name, since `join-room` sets both together. */
    method OnDisconnect(s: SocketId)
      requires Valid()
      requires forall r :: r in members ==> s !in members[r]
      modifies this`rooms, this`log
      ensures Valid()
      ensures members == old(members) && sessions == old(sessions) && order == old(order)
      ensures rooms.Keys == old(rooms).Keys
      ensures !Present(Session(s).roomId) ==> rooms == old(rooms) && log == old(log)
      ensures Present(Session(s).roomId) ==>
        var rid := Session(s).roomId.value;
        && rid in old(rooms)
        && rooms == old(rooms)[rid := old(rooms)[rid].(usersCount := |MembersOf(members, rid)|)]
        && log == old(log) + [ Emission(rid, SystemMessage(LeftText(Session(s).username), |MembersOf(members, rid)|)),
                               Emission(rid, RoomMeta(rooms[rid])) ]
    {
      var username := Session(s).username;
      var roomId := Session(s).roomId;
      if !Present(roomId) {
        return;
      }
      var rid := roomId.value;
      var usersCount := |MembersOf(members, rid)|;
      if rid in rooms {
        var room := rooms[rid].(usersCount := usersCount);
        rooms := rooms[rid := room];
        log := log + [Emission(rid, SystemMessage(LeftText(username), usersCount)),
                      Emission(rid, RoomMeta(room))];
      }
    }

    /** A socket closing: socket.io's removal from every room, then the
        `disconnect` handler. While every socket is a member of its own
        room only, the counts stay equal to the membership sets. */
    method Disconnect(s: SocketId)
      requires Valid()
      modifies this`rooms, this`members, this`log
      ensures Valid()
      ensures members == Drop(old(members), s)
      ensures sessions == old(sessions) && order == old(order)
      ensures !Present(Session(s).roomId) ==> rooms == old(rooms) && log == old(log)
      ensures Present(Session(s).roomId) ==>
        var rid := Session(s).roomId.value;
        && rid in old(rooms)
        && rooms == old(rooms)[rid := old(rooms)[rid].(usersCount := |MembersOf(members, rid)|)]
        && log == old(log) + [ Emission(rid, SystemMessage(LeftText(Session(s).username), |MembersOf(members, rid)|)),
                               Emission(rid, RoomMeta(rooms[rid])) ]
      ensures old(CountsCurrent()) && old(SingleRoom()) ==> CountsCurrent() && SingleRoom()
    {
      if Exclusive(members, sessions) {
        DropKeepsOtherRooms(members, sessions, s);
        if CountsMatch(rooms, members) {
          DropKeepsCounts(rooms, members, sessions, s);
        }
      }
      DropSocket(s);
      OnDisconnect(s);
    }
  }
}
