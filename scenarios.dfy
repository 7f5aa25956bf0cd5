/** Event sequences driven through the handlers, with what they leave behind. */
module Scenarios {
  import opened Wrappers
  import opened Rooms
  import opened Chat

  /** The announcement texts of the scenarios below. */
  lemma AliceJoinedText()
    ensures JoinedText("Alice") == "Alice joined the room."
  {
  }

  lemma BobJoinedText()
    ensures JoinedText("Bob") == "Bob joined the room."
  {
  }

  lemma AliceLeftText()
    ensures LeftText(Some("Alice")) == "Alice left the room."
  {
  }

  /** The membership sets of the scenarios below, with their sizes. */
  lemma SocketSets()
    ensures {} + {"x"} == {"x"} && |{"x"}| == 1
    ensures {"x"} + {"y"} == {"x", "y"} && |{"x", "y"}| == 2
    ensures {"x", "y"} - {"x"} == {"y"} && |{"y"}| == 1
  {
  }

  /** Alice's socket "x" joins the unknown room "r1", which is created private and untitled. */
  method AliceJoins() returns (srv: Server)
    ensures fresh(srv) && srv.Valid()
    ensures "r1" in srv.rooms && srv.rooms["r1"] == Room("r1", DefaultName, false, 1, 1)
    ensures MembersOf(srv.members, "r1") == {"x"}
    ensures SessionOf(srv.sessions, "x") == SocketData(Some("Alice"), Some("r1"))
    ensures srv.log == [
      Emission("r1", SystemMessage("Alice joined the room.", 1)),
      Emission("r1", RoomMeta(Room("r1", DefaultName, false, 1, 1)))
    ]
  {
    AliceJoinedText();
    SocketSets();
    srv := new Server();
    srv.JoinRoom("x", Some("r1"), Some("Alice"), 1);
  }

  /** Then Bob's socket "y" joins "r1" as well. */
  method BobJoins(srv: Server)
    requires srv.Valid()
    requires "r1" in srv.rooms && srv.rooms["r1"] == Room("r1", DefaultName, false, 1, 1)
    requires MembersOf(srv.members, "r1") == {"x"}
    requires SessionOf(srv.sessions, "x") == SocketData(Some("Alice"), Some("r1"))
    modifies srv
    ensures srv.Valid()
    ensures "r1" in srv.rooms && srv.rooms["r1"] == Room("r1", DefaultName, false, 1, 2)
    ensures MembersOf(srv.members, "r1") == {"x", "y"}
    ensures SessionOf(srv.sessions, "x") == SocketData(Some("Alice"), Some("r1"))
    ensures srv.log == old(srv.log) + [
      Emission("r1", SystemMessage("Bob joined the room.", 2)),
      Emission("r1", RoomMeta(Room("r1", DefaultName, false, 1, 2)))
    ]
  {
    BobJoinedText();
    SocketSets();
    ghost var before := srv.members;
    srv.JoinRoom("y", Some("r1"), Some("Bob"), 2);
    assert srv.members == before["r1" := {"x"} + {"y"}];
  }

  /** Alice says "hi": one chat message to "r1" under her name. */
  method AliceSaysHi(srv: Server)
    requires srv.Valid()
    requires SessionOf(srv.sessions, "x") == SocketData(Some("Alice"), Some("r1"))
    modifies srv
    ensures srv.Valid()
    ensures srv.rooms == old(srv.rooms) && srv.members == old(srv.members) && srv.sessions == old(srv.sessions)
    ensures srv.order == old(srv.order)
    ensures srv.log == old(srv.log) + [Emission("r1", ChatMessage(Message("m1", "Alice", Some("hi"), 3)))]
  {
    srv.PostMessage("x", Some("hi"), "m1", 3);
  }

  /** Alice's socket closes while Bob's stays: "r1" is told that one user is left. */
  method AliceLeaves(srv: Server)
    requires srv.Valid()
    requires "r1" in srv.rooms && srv.rooms["r1"] == Room("r1", DefaultName, false, 1, 2)
    requires MembersOf(srv.members, "r1") == {"x", "y"}
    requires SessionOf(srv.sessions, "x") == SocketData(Some("Alice"), Some("r1"))
    modifies srv
    ensures srv.log == old(srv.log) + [
      Emission("r1", SystemMessage("Alice left the room.", 1)),
      Emission("r1", RoomMeta(Room("r1", DefaultName, false, 1, 1)))
    ]
  {
    AliceLeftText();
    SocketSets();
    srv.Disconnect("x");
  }

  /** The seven events of the scenario below, as the four handler calls append them. */
  lemma TwoUsersLog()
    ensures [ Emission("r1", SystemMessage("Alice joined the room.", 1)),
              Emission("r1", RoomMeta(Room("r1", DefaultName, false, 1, 1))) ]
          + [ Emission("r1", SystemMessage("Bob joined the room.", 2)),
              Emission("r1", RoomMeta(Room("r1", DefaultName, false, 1, 2))) ]
          + [ Emission("r1", ChatMessage(Message("m1", "Alice", Some("hi"), 3))) ]
          + [ Emission("r1", SystemMessage("Alice left the room.", 1)),
              Emission("r1", RoomMeta(Room("r1", DefaultName, false, 1, 1))) ]
         == [ Emission("r1", SystemMessage("Alice joined the room.", 1)),
              Emission("r1", RoomMeta(Room("r1", DefaultName, false, 1, 1))),
              Emission("r1", SystemMessage("Bob joined the room.", 2)),
              Emission("r1", RoomMeta(Room("r1", DefaultName, false, 1, 2))),
              Emission("r1", ChatMessage(Message("m1", "Alice", Some("hi"), 3))),
              Emission("r1", SystemMessage("Alice left the room.", 1)),
              Emission("r1", RoomMeta(Room("r1", DefaultName, false, 1, 1))) ]
  {
  }

  /** Two sockets join "r1" as Alice and Bob, Alice says "hi" and then her
      socket closes: the room sees both joins, the message under Alice's
      name, and her departure with one user left. */
  method TwoUsersInOneRoom() returns (log: seq<Emission>)
    ensures log == [
      Emission("r1", SystemMessage("Alice joined the room.", 1)),
      Emission("r1", RoomMeta(Room("r1", DefaultName, false, 1, 1))),
      Emission("r1", SystemMessage("Bob joined the room.", 2)),
      Emission("r1", RoomMeta(Room("r1", DefaultName, false, 1, 2))),
      Emission("r1", ChatMessage(Message("m1", "Alice", Some("hi"), 3))),
      Emission("r1", SystemMessage("Alice left the room.", 1)),
      Emission("r1", RoomMeta(Room("r1", DefaultName, false, 1, 1)))
    ]
  {
    TwoUsersLog();
    var srv := AliceJoins();
    BobJoins(srv);
    AliceSaysHi(srv);
    AliceLeaves(srv);
    log := srv.log;
  }

  /** Socket "x" joins "a" and then "b" without leaving "a". */
  method JoinTwoRooms() returns (srv: Server)
    ensures fresh(srv) && srv.Valid()
    ensures "a" in srv.rooms && srv.rooms["a"].usersCount == 1
    ensures MembersOf(srv.members, "a") == {"x"}
    ensures SessionOf(srv.sessions, "x").roomId == Some("b")
  {
    srv := new Server();
    srv.JoinRoom("x", Some("a"), Some("Alice"), 1);
    assert MembersOf(srv.members, "a") == {"x"};
    srv.JoinRoom("x", Some("b"), Some("Alice"), 2);
  }

  /** A socket that joins "a" and then "b" stays in both membership sets;
      when it closes, only "b" is refreshed, so "a" keeps a count of 1 over
      an empty set. */
  method SecondJoinLeavesStaleCount() returns (count: nat, size: nat)
    ensures count == 1 && size == 0
  {
    var srv := JoinTwoRooms();
    srv.Disconnect("x");
    count := srv.rooms["a"].usersCount;
    size := |MembersOf(srv.members, "a")|;
  }
}
