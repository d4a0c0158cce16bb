/**
 * The connection handlers of `server/server.js` as one coordinator over the user
 * manager, the message store and the transport's room table. Each handler changes
 * the state and returns the acknowledgement it hands to the client's callback and
 * the events it emits, each with its target, name and payload.
 */
module ChatServer {
  import opened Wrappers
  import opened JsMap
  import opened JsText
  import opened Sockets
  import opened Sessions
  import opened Messages

  /** Rooms named `private-<name>` are private conversations with `<name>`. */
  const PrivatePrefix := "private-"

  /** A value sent by a client: a string, or any other JSON value. */
  datatype Arg = Text(s: string) | NotText

  /** The `user` part of a successful login acknowledgement. */
  datatype LoginUser = LoginUser(username: string, rooms: seq<string>)

  /** What a handler passes to the client's callback. */
  datatype Response =
    | LoginOk(user: LoginUser, messages: seq<Message>)
    | Sent(message: Message)
    | Joined(room: string, messages: seq<Message>)
    | Failure(error: string)

  /**
   * `io.emit` (every socket), `io.to(room)` (the room), `socket.to(room)` (the room
   * but every socket in the room named by the sender's id, as socket.io excludes it).
   */
  datatype Target = Everyone | RoomOf(room: string) | RoomExcept(room: string, except: SocketId)

  datatype Payload =
    | UserList(users: seq<UserView>)
    | Notice(kind: string, username: string, timestamp: string)
    | NewMessage(message: Message)
    | TypingUpdate(typers: seq<string>)

  datatype Event = Event(target: Target, name: string, payload: Payload)

  const TooShort := "Username must be at least 3 characters"
  const Taken := "Username already taken"
  const Unauthorized := "Unauthorized"

  /** `!username || typeof username !== 'string' || username.length < 3` fails. */
  predicate AcceptableName(username: Arg): (ok: bool)
    ensures username == NotText ==> !ok
    ensures username.Text? ==> (ok <==> |username.s| >= 3)
    ensures username == Text("") ==> !ok
  {
    username.Text? && |username.s| >= 3
  }

  /** The private partner named by a `private-` room: `room.replace('private-', '')` removes the leading prefix. */
  function Partner(room: string): (name: string)
    requires StartsWith(room, PrivatePrefix)
    ensures PrivatePrefix + name == room
  {
    room[|PrivatePrefix|..]
  }

  /** No two connected users share a name. */
  ghost predicate UniqueNames(users: seq<(SocketId, ServerUser)>) {
    forall e1, e2 :: e1 in users && e2 in users && e1.1.username == e2.1.username ==> e1.0 == e2.0
  }

  /** Every connected user is in `general` and has a live socket. */
  ghost predicate Placed(users: seq<(SocketId, ServerUser)>, socketRooms: map<SocketId, set<string>>) {
    forall e :: e in users ==> General in e.1.rooms && e.0 in socketRooms
  }

  /** Storing a user whose name no other socket holds keeps names unique and users placed. */
  lemma SetKeepsInvariant(users: seq<(SocketId, ServerUser)>, socketRooms: map<SocketId, set<string>>,
                          socketRooms': map<SocketId, set<string>>, k: SocketId, u: ServerUser)
    requires DistinctKeys(users) && UniqueNames(users) && Placed(users, socketRooms)
    requires forall e :: e in users && e.1.username == u.username ==> e.0 == k
    requires General in u.rooms && k in socketRooms' && socketRooms.Keys <= socketRooms'.Keys
    ensures UniqueNames(Set(users, k, u)) && Placed(Set(users, k, u), socketRooms')
  {
    SetEntries(users, k, u);
  }

  /** The user a name finds is in the room named by its own socket, and that socket is live. */
  lemma NamedUserReachable(users: seq<(SocketId, ServerUser)>, socketRooms: map<SocketId, set<string>>, name: string)
    requires forall e :: e in users ==> e.1.socketId == e.0
    requires Placed(users, socketRooms) && forall s :: s in socketRooms ==> s in socketRooms[s]
    requires FirstNamed(users, name).Some?
    ensures var id := FirstNamed(users, name).value.socketId; id in socketRooms && id in socketRooms[id]
  {
    var i :| 0 <= i < |users| && users[i].1 == FirstNamed(users, name).value;
    assert users[i] in users;
  }

  class Server {
    const users: UserManager
    const store: MessageStore
    /** The transport's room table: the rooms each connected socket is in. */
    var socketRooms: map<SocketId, set<string>>

    ghost predicate Valid()
      reads this, users, store
    {
      && users.Valid()
      && store.Valid()
      && UniqueNames(users.users)
      && Placed(users.users, socketRooms)
      && (forall s :: s in socketRooms ==> s in socketRooms[s])
    }

    constructor ()
      ensures Valid() && fresh(users) && fresh(store)
      ensures users.users == [] && users.typingUsers == []
      ensures store.messages == [] && store.privateMessages == []
      ensures socketRooms == map[]
    {
      users := new UserManager();
      store := new MessageStore();
      socketRooms := map[];
    }

    /**
     * The sockets an event with target `t` reaches: every live socket, or the live
     * sockets in the room; `socket.to` leaves out every socket in the room named by
     * the sender's id, which holds the sender itself (removed explicitly too, so the
     * sender is left out even in a state where it has left its own room).
     */
    function Audience(t: Target): (reached: set<SocketId>)
      reads this
      ensures reached <= socketRooms.Keys
      ensures t.Everyone? ==> reached == socketRooms.Keys
      ensures t.RoomExcept? ==> t.except !in reached
      ensures !t.Everyone? ==> forall s :: s in reached ==> t.room in socketRooms[s]
      ensures t.RoomOf? ==> forall s :: s in socketRooms && t.room in socketRooms[s] ==> s in reached
      ensures t.RoomExcept? ==> forall s :: s in reached ==> t.except !in socketRooms[s]
      ensures t.RoomExcept? ==> forall s :: s in socketRooms && s != t.except && t.room in socketRooms[s] &&
                                           t.except !in socketRooms[s]
                                           ==> s in reached
    {
      match t
      case Everyone => socketRooms.Keys
      case RoomOf(r) => set s | s in socketRooms && r in socketRooms[s]
      case RoomExcept(r, x) => (set s | s in socketRooms && r in socketRooms[s] && x !in socketRooms[s]) - {x}
    }

    /** A new connection: the transport puts the socket in the room named by its id. */
    method Connect(socketId: SocketId)
      requires Valid() && socketId !in socketRooms
      modifies this
      ensures Valid()
      ensures socketRooms == old(socketRooms)[socketId := {socketId}]
    {
      socketRooms := socketRooms[socketId := {socketId}];
    }

    /** The `login` handler. */
    method Login(socketId: SocketId, username: Arg, now: string) returns (response: Response, events: seq<Event>)
      requires Valid() && socketId in socketRooms
      modifies this, users
      ensures Valid()
      ensures !AcceptableName(username) ==>
                response == Failure(TooShort) && events == [] && unchanged(this, users)
      ensures AcceptableName(username) && old(users.GetUserByUsername(username.s)).Some? ==>
                response == Failure(Taken) && events == [] && unchanged(this, users)
      ensures AcceptableName(username) && old(users.GetUserByUsername(username.s)).None? ==>
                var user := ServerUser(username.s, true, now, [General], socketId);
                && users.users == Set(old(users.users), socketId, user)
                && users.GetUser(socketId) == Some(user)
                && (forall id :: id != socketId ==> users.GetUser(id) == old(users.GetUser(id)))
                && users.typingUsers == old(users.typingUsers)
                && socketRooms == old(socketRooms)[socketId := old(socketRooms)[socketId] + {General}]
                && response == LoginOk(LoginUser(username.s, [General]), store.GetMessages(General, DefaultLimit))
                && events == [Event(Everyone, "user:list", UserList(users.GetAllUsers())),
                              Event(Everyone, "notification", Notice("user:joined", username.s, now))]
    {
      if !AcceptableName(username) {
        return Failure(TooShort), [];
      }
      var name := username.s;
      if users.GetUserByUsername(name).Some? {
        return Failure(Taken), [];
      }
      NoneNamed(users.users, name);
      SetKeepsInvariant(users.users, socketRooms, socketRooms[socketId := socketRooms[socketId] + {General}],
                        socketId, ServerUser(name, true, now, [General], socketId));
      var user := users.AddUser(socketId, name, now);
      socketRooms := socketRooms[socketId := socketRooms[socketId] + {General}];
      events := [Event(Everyone, "user:list", UserList(users.GetAllUsers())),
                 Event(Everyone, "notification", Notice("user:joined", user.username, now))];
      response := LoginOk(LoginUser(user.username, user.rooms), store.GetMessages(General, DefaultLimit));
    }

    /** The `message:send` handler; `id` and `now` stand for the generated id and timestamp. */
    method SendMessage(socketId: SocketId, room: string, text: string, id: string, now: string)
      returns (response: Response, events: seq<Event>)
      requires Valid()
      modifies store
      ensures Valid()
      ensures old(users.GetUser(socketId)).None? ==>
                response == Failure(Unauthorized) && events == [] && unchanged(store)
      ensures old(users.GetUser(socketId)).Some? && StartsWith(room, PrivatePrefix) ==>
                var sender := old(users.GetUser(socketId)).value;
                var m := Message(id, sender.username, text, now, room);
                var key := PairKey(sender.username, Partner(room));
                && response == Sent(m)
                && store.messages == old(store.messages)
                && store.privateMessages == Set(old(store.privateMessages), key, Thread(old(store.privateMessages), key) + [m])
                && events == match users.GetUserByUsername(Partner(room))
                             case None => []
                             case Some(r) => [Event(RoomExcept(r.socketId, socketId), "message:new", NewMessage(m))]
      ensures old(users.GetUser(socketId)).Some? && !StartsWith(room, PrivatePrefix) ==>
                var sender := old(users.GetUser(socketId)).value;
                var m := Message(id, sender.username, text, now, room);
                && response == Sent(m)
                && store.messages == Set(old(store.messages), room, Thread(old(store.messages), room) + [m])
                && store.privateMessages == old(store.privateMessages)
                && events == [Event(RoomOf(room), "message:new", NewMessage(m))]
      ensures old(users.GetUser(socketId)).Some? && StartsWith(room, PrivatePrefix) ==>
                match users.GetUserByUsername(Partner(room))
                case None => events == []
                case Some(r) => |events| == 1 && socketId !in Audience(events[0].target) && r.socketId in socketRooms &&
                                (r.socketId in Audience(events[0].target) <==>
                                   r.socketId != socketId && socketId !in socketRooms[r.socketId])
    {
      var sender := users.GetUser(socketId);
      if sender.None? {
        return Failure(Unauthorized), [];
      }
      var m := Message(id, sender.value.username, text, now, room);
      if StartsWith(room, PrivatePrefix) {
        events := SendPrivate(socketId, sender.value, m);
      } else {
        store.AddMessage(room, m);
        events := [Event(RoomOf(room), "message:new", NewMessage(m))];
      }
      response := Sent(m);
    }

    /** The private branch of `message:send`: file the message under the pair, notify the partner if online. */
    method SendPrivate(socketId: SocketId, sender: ServerUser, m: Message) returns (events: seq<Event>)
      requires Valid() && users.GetUser(socketId) == Some(sender)
      requires StartsWith(m.room, PrivatePrefix) && m.from == sender.username
      modifies store
      ensures Valid()
      ensures var key := PairKey(sender.username, Partner(m.room));
              && store.messages == old(store.messages)
              && store.privateMessages == Set(old(store.privateMessages), key, Thread(old(store.privateMessages), key) + [m])
      ensures events == match users.GetUserByUsername(Partner(m.room))
                        case None => []
                        case Some(r) => [Event(RoomExcept(r.socketId, socketId), "message:new", NewMessage(m))]
      ensures match users.GetUserByUsername(Partner(m.room))
              case None => true
              case Some(r) => socketId !in Audience(events[0].target) && r.socketId in socketRooms &&
                              (r.socketId in Audience(events[0].target) <==>
                                 r.socketId != socketId && socketId !in socketRooms[r.socketId])
    {
      var recipient := Partner(m.room);
      var r := users.GetUserByUsername(recipient);
      events := [];
      if r.Some? {
        NamedUserReachable(users.users, socketRooms, recipient);
        var target := RoomExcept(r.value.socketId, socketId);
        assert socketId !in Audience(target);
        assert r.value.socketId != socketId && socketId !in socketRooms[r.value.socketId] ==>
                 r.value.socketId in Audience(target);
        events := [Event(target, "message:new", NewMessage(m))];
      }
      store.AddPrivateMessage(sender.username, recipient, m);
    }

    /** The `room:join` handler. */
    method JoinRoom(socketId: SocketId, room: string) returns (response: Response, events: seq<Event>)
      requires Valid()
      modifies this, users
      ensures Valid()
      ensures old(users.GetUser(socketId)).None? ==>
                response == Failure(Unauthorized) && events == [] && unchanged(this, users)
      ensures old(users.GetUser(socketId)).Some? ==>
                var user := old(users.GetUser(socketId)).value;
                var joins := room != General && room !in user.rooms;
                && users.users == (if joins then Set(old(users.users), socketId, user.(rooms := user.rooms + [room])) else old(users.users))
                && users.GetUser(socketId) == Some(if joins then user.(rooms := user.rooms + [room]) else user)
                && (forall id :: id != socketId ==> users.GetUser(id) == old(users.GetUser(id)))
                && users.typingUsers == old(users.typingUsers)
                && socketRooms == (if joins then old(socketRooms)[socketId := old(socketRooms)[socketId] + {room}] else old(socketRooms))
                && response == Joined(room, if StartsWith(room, PrivatePrefix)
                                            then store.GetPrivateMessages(user.username, Partner(room), DefaultLimit)
                                            else store.GetMessages(room, DefaultLimit))
      ensures old(users.GetUser(socketId)).Some? ==>
                events == [Event(Everyone, "user:list", UserList(users.GetAllUsers()))]
    {
      var found := users.GetUser(socketId);
      if found.None? {
        return Failure(Unauthorized), [];
      }
      var user := found.value;
      if room != General && room !in user.rooms {
        RecordJoin(socketId, user, room);
      }
      var history := if StartsWith(room, PrivatePrefix)
                     then store.GetPrivateMessages(user.username, Partner(room), DefaultLimit)
                     else store.GetMessages(room, DefaultLimit);
      response := Joined(room, history);
      events := [Event(Everyone, "user:list", UserList(users.GetAllUsers()))];
    }

    /** `socket.join(room)` and `user.rooms.add(room)`: the user record is updated where it is stored. */
    method RecordJoin(socketId: SocketId, user: ServerUser, room: string)
      requires Valid() && users.GetUser(socketId) == Some(user)
      modifies this, users`users
      ensures Valid()
      ensures users.users == Set(old(users.users), socketId, user.(rooms := user.rooms + [room]))
      ensures users.GetUser(socketId) == Some(user.(rooms := user.rooms + [room]))
      ensures forall id :: id != socketId ==> users.GetUser(id) == old(users.GetUser(id))
      ensures socketRooms == old(socketRooms)[socketId := old(socketRooms)[socketId] + {room}]
    {
      var updated := user.(rooms := user.rooms + [room]);
      assert (socketId, user) in users.users;
      SetKeepsInvariant(users.users, socketRooms, socketRooms[socketId := socketRooms[socketId] + {room}],
                        socketId, updated);
      socketRooms := socketRooms[socketId := socketRooms[socketId] + {room}];
      SetShape(users.users, socketId, updated);
      SetEntries(users.users, socketId, updated);
      users.users := Set(users.users, socketId, updated);
      forall id ensures users.GetUser(id) == if id == socketId then Some(updated) else old(users.GetUser(id)) {
        GetSet(old(users.users), socketId, updated, id);
      }
      assert users.Valid();
      assert store.Valid();
      assert UniqueNames(users.users);
      assert Placed(users.users, socketRooms);
      assert forall s :: s in socketRooms ==> s in socketRooms[s];
    }

    /** The `typing:start` handler. */
    method TypingStart(socketId: SocketId, room: string) returns (events: seq<Event>)
      requires Valid()
      modifies users`typingUsers
      ensures Valid()
      ensures users.GetUser(socketId).None? ==> events == [] && users.typingUsers == old(users.typingUsers)
      ensures users.GetUser(socketId).Some? ==>
                var name := users.GetUser(socketId).value.username;
                && users.typingUsers == Set(old(users.typingUsers), TypingKey(name, room), TypingEntry(name, room))
                && events == [Event(RoomOf(room), "typing:update", TypingUpdate(users.GetTypingUsers(room)))]
                && name in users.GetTypingUsers(room)
    {
      var user := users.GetUser(socketId);
      events := [];
      if user.Some? {
        var typers := users.AddTypingUser(user.value.username, room);
        events := [Event(RoomOf(room), "typing:update", TypingUpdate(typers))];
      }
    }

    /** The `typing:stop` handler. */
    method TypingStop(socketId: SocketId, room: string) returns (events: seq<Event>)
      requires Valid()
      modifies users`typingUsers
      ensures Valid()
      ensures users.GetUser(socketId).None? ==> events == [] && users.typingUsers == old(users.typingUsers)
      ensures users.GetUser(socketId).Some? ==>
                var name := users.GetUser(socketId).value.username;
                && users.typingUsers == Remove(old(users.typingUsers), TypingKey(name, room))
                && events == [Event(RoomOf(room), "typing:update", TypingUpdate(users.GetTypingUsers(room)))]
                && name !in users.GetTypingUsers(room)
    {
      var user := users.GetUser(socketId);
      events := [];
      if user.Some? {
        var typers := users.RemoveTypingUser(user.value.username, room);
        events := [Event(RoomOf(room), "typing:update", TypingUpdate(typers))];
      }
    }

    /**
     * The `disconnect` handler. The transport has already taken the socket out of
     * every room; departure is announced only when a user was actually removed.
     */
    method Disconnect(socketId: SocketId, now: string) returns (events: seq<Event>)
      requires Valid()
      modifies this, users
      ensures Valid()
      ensures socketRooms == old(socketRooms) - {socketId}
      ensures users.GetUser(socketId) == None
      ensures forall id :: id != socketId ==> users.GetUser(id) == old(users.GetUser(id))
      ensures old(users.GetUser(socketId)).None? ==>
                events == [] && users.users == old(users.users) && users.typingUsers == old(users.typingUsers)
      ensures old(users.GetUser(socketId)).Some? ==>
                var name := old(users.GetUser(socketId)).value.username;
                && users.users == Remove(old(users.users), socketId)
                && users.typingUsers == WithoutPrefixed(old(users.typingUsers), name)
                && events == [Event(Everyone, "user:list", UserList(users.GetAllUsers())),
                              Event(Everyone, "notification", Notice("user:left", name, now))]
    {
      socketRooms := socketRooms - {socketId};
      RemoveEntries(users.users, socketId);
      var user := users.RemoveUser(socketId);
      events := [];
      if user.Some? {
        events := [Event(Everyone, "user:list", UserList(users.GetAllUsers())),
                   Event(Everyone, "notification", Notice("user:left", user.value.username, now))];
      }
    }
  }

  /**
   * A private message goes to the room named by the partner's socket id, and
   * `room:join` accepts any room name: a third socket that joined that room gets
   * the message too, while the sender never does.
   */
  lemma PrivateEventReachesRoomMembers(server: Server)
    requires server.socketRooms == map["s1" := {"s1", General}, "s2" := {"s2", General}, "s3" := {"s3", General, "s2"}]
    ensures server.Audience(RoomExcept("s2", "s1")) == {"s2", "s3"}
  {
    assert "s2" in server.Audience(RoomExcept("s2", "s1"));
    assert "s3" in server.Audience(RoomExcept("s2", "s1"));
  }

  /**
   * `socket.to` leaves out every socket in the room named by the sender's id, and
   * `room:join` lets the partner join that room: a partner who joined the sender's
   * id room never receives the sender's private messages.
   */
  lemma PrivateEventMissesSenderRoomMembers(server: Server)
    requires server.socketRooms == map["s1" := {"s1", General}, "s2" := {"s2", General, "s1"}]
    ensures server.Audience(RoomExcept("s2", "s1")) == {}
  {
    assert "s1" in server.socketRooms["s2"];
  }
}
