/**
 * Alice and Bob on one server, driven through the handlers and checked against their
 * contracts alone. Each step starts from the concrete state its `requires` names.
 */
module ChatScenario {
  import opened Wrappers
  import opened JsMap
  import opened JsText
  import opened Sockets
  import opened Sessions
  import opened Messages
  import opened ChatServer

  function Alice(t: string): ServerUser {
    ServerUser("alice", true, t, [General], "s1")
  }

  function Bob(t: string): ServerUser {
    ServerUser("bob", true, t, [General], "s2")
  }

  /** A fresh server with one connected socket, `s1`, and nobody logged in. */
  method FirstConnection() returns (server: Server)
    ensures server.Valid() && fresh(server) && fresh(server.users) && fresh(server.store)
    ensures server.users.users == [] && server.users.typingUsers == []
    ensures server.store.messages == [] && server.store.privateMessages == []
    ensures server.socketRooms == map["s1" := {"s1"}]
  {
    server := new Server();
    server.Connect("s1");
  }

  /** Alice logs in on a fresh server: she is in `general`, with no history yet. */
  method AliceLogsIn(t0: string) returns (server: Server)
    ensures server.Valid() && fresh(server) && fresh(server.users) && fresh(server.store)
    ensures server.users.users == [("s1", Alice(t0))]
    ensures server.store.messages == [] && server.store.privateMessages == []
    ensures server.socketRooms.Keys == {"s1"} && server.socketRooms["s1"] == {"s1", General}
  {
    server := FirstConnection();
    assert server.users.GetUserByUsername("alice") == None;
    var response, _ := server.Login("s1", Text("alice"), t0);
    assert response == LoginOk(LoginUser("alice", [General]), []);
    assert {"s1"} + {General} == {"s1", General};
  }

  /** A second `alice` is refused while the first is connected, and no user changes. */
  method SecondAliceRefused(server: Server, t0: string, t1: string, t2: string)
    requires server.Valid() && server.socketRooms.Keys == {"s1", "s2"}
    requires server.users.users == [("s1", Alice(t0)), ("s2", Bob(t1))]
    modifies server, server.users
    ensures server.Valid() && server.users.users == [("s1", Alice(t0)), ("s2", Bob(t1))]
    ensures server.socketRooms == old(server.socketRooms)["s3" := {"s3"}]
  {
    server.Connect("s3");
    var response, events := server.Login("s3", Text("alice"), t2);
    assert response == Failure(Taken) && events == [];
  }

  /**
   * Alice's private message to Bob is announced to Bob's socket, which has not
   * joined the room named by Alice's socket id, and filed under the pair.
   */
  method AliceWritesToBob(server: Server, t0: string, t1: string, t2: string)
    requires server.Valid() && server.store.privateMessages == []
    requires server.users.users == [("s1", Alice(t0)), ("s2", Bob(t1))]
    requires "s2" in server.socketRooms && "s1" !in server.socketRooms["s2"]
    modifies server.store
    ensures server.Valid()
    ensures server.store.GetPrivateMessages("bob", "alice", DefaultLimit) == [Message("m1", "alice", "psst", t2, "private-bob")]
  {
    var response, events := server.SendMessage("s1", "private-bob", "psst", "m1", t2);
    assert StartsWith("private-bob", PrivatePrefix);
    assert Partner("private-bob") == "bob";
    assert server.users.GetUserByUsername("bob") == Some(Bob(t1));
    assert "s2" in server.Audience(events[0].target);
    PairKeySymmetric("alice", "bob");
  }

  /** Bob disconnects twice: only the first time is a departure announced. */
  method BobLeavesOnce(server: Server, t0: string, t1: string, t3: string)
    requires server.Valid()
    requires server.users.users == [("s1", Alice(t0)), ("s2", Bob(t1))]
    modifies server, server.users
    ensures server.Valid() && server.users.users == [("s1", Alice(t0))]
  {
    var left := server.Disconnect("s2", t3);
    assert |left| == 2 && left[1].payload == Notice("user:left", "bob", t3);
    var again := server.Disconnect("s2", t3);
    assert again == [];
  }

  /** With both users connected, the last three steps in order, each starting where the previous one ends. */
  method BothConnected(server: Server, t0: string, t1: string, t2: string, t3: string)
    requires server.Valid() && server.socketRooms.Keys == {"s1", "s2"} && server.store.privateMessages == []
    requires "s1" !in server.socketRooms["s2"]
    requires server.users.users == [("s1", Alice(t0)), ("s2", Bob(t1))]
    modifies server, server.users, server.store
    ensures server.Valid() && server.users.users == [("s1", Alice(t0))]
  {
    SecondAliceRefused(server, t0, t1, t2);
    AliceWritesToBob(server, t0, t1, t2);
    BobLeavesOnce(server, t0, t1, t3);
  }
}
