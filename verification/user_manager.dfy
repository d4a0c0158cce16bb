/**
 * `UserManager` of `server/server.js`: the connected users by socket id, and the
 * typing table keyed by the string `username-room`.
 */
module Sessions {
  import opened Wrappers
  import opened JsMap
  import opened JsText
  import opened Sockets

  /** The broadcast room every user is put in at login. */
  const General := "general"

  /** A connected user; `rooms` is a JavaScript `Set`, kept in insertion order without repeats. */
  datatype ServerUser = ServerUser(username: string, online: bool, lastSeen: string, rooms: seq<string>, socketId: SocketId)

  /** What `getAllUsers` publishes of a user. */
  datatype UserView = UserView(username: string, online: bool, lastSeen: string, rooms: seq<string>)

  function View(u: ServerUser): UserView {
    UserView(u.username, u.online, u.lastSeen, u.rooms)
  }

  datatype TypingEntry = TypingEntry(username: string, room: string)

  /** The typing-table key `${username}-${room}`: it starts with the name, which the disconnect cleanup relies on. */
  function TypingKey(username: string, room: string): (k: string)
    ensures StartsWith(k, username)
    ensures k[|username|..] == "-" + room
  {
    var k := username + "-" + room;
    assert k[..|username|] == username;
    k
  }

  /** `Array.from(users.values()).find(u => u.username === name)`: the first user with that name. */
  function FirstNamed(users: seq<(SocketId, ServerUser)>, name: string): (r: Option<ServerUser>)
    ensures r.Some? ==> r.value.username == name
    ensures r.Some? ==> exists i :: 0 <= i < |users| && users[i].1 == r.value &&
                          forall j :: 0 <= j < i ==> users[j].1.username != name
    ensures r.None? <==> forall i :: 0 <= i < |users| ==> users[i].1.username != name
  {
    if users == [] then None
    else if users[0].1.username == name then Some(users[0].1)
    else
      var r := FirstNamed(users[1..], name);
      assert forall i :: 1 <= i < |users| ==> users[i] == users[1..][i - 1];
      if r.Some? then
        var i :| 0 <= i < |users[1..]| && users[1..][i].1 == r.value &&
                 forall j :: 0 <= j < i ==> users[1..][j].1.username != name;
        assert users[i + 1].1 == r.value && forall j :: 0 <= j < i + 1 ==> users[j].1.username != name;
        r
      else r
  }

  /** When `find` comes back empty, no stored user has that name. */
  lemma NoneNamed(users: seq<(SocketId, ServerUser)>, name: string)
    requires FirstNamed(users, name).None?
    ensures forall e :: e in users ==> e.1.username != name
  {
    forall e | e in users ensures e.1.username != name {
      var i :| 0 <= i < |users| && users[i] == e;
    }
  }

  /** `getTypingUsers(room)`: the names of the entries for `room`, in table order. */
  function TypersIn(t: seq<(string, TypingEntry)>, room: string): (r: seq<string>)
    ensures forall u :: u in r <==> exists i :: 0 <= i < |t| && t[i].1 == TypingEntry(u, room)
  {
    if t == [] then []
    else
      var rest := TypersIn(t[1..], room);
      assert forall i :: 1 <= i < |t| ==> t[i] == t[1..][i - 1];
      (if t[0].1.room == room then [t[0].1.username] else []) + rest
  }

  /** The typing table after deleting every key that starts with `prefix`. */
  function WithoutPrefixed(t: seq<(string, TypingEntry)>, prefix: string): (r: seq<(string, TypingEntry)>)
    ensures forall e :: e in r <==> e in t && !StartsWith(e.0, prefix)
    ensures DistinctKeys(t) ==> DistinctKeys(r)
  {
    if t == [] then []
    else
      var last := t[|t| - 1];
      var rest := WithoutPrefixed(t[..|t| - 1], prefix);
      assert t == t[..|t| - 1] + [last];
      assert DistinctKeys(t) ==> DistinctKeys(t[..|t| - 1]) && forall e :: e in t[..|t| - 1] ==> e.0 != last.0;
      if StartsWith(last.0, prefix) then rest else rest + [last]
  }

  /** One pass over the typing table, keeping the entries whose key does not start with `prefix`. */
  method Unprefixed(t: seq<(string, TypingEntry)>, prefix: string) returns (kept: seq<(string, TypingEntry)>)
    ensures kept == WithoutPrefixed(t, prefix)
  {
    kept := [];
    var i := 0;
    while i < |t|
      invariant 0 <= i <= |t|
      invariant kept == WithoutPrefixed(t[..i], prefix)
    {
      assert t[..i + 1][..i] == t[..i];
      if !StartsWith(t[i].0, prefix) {
        kept := kept + [t[i]];
      }
      i := i + 1;
    }
    assert t[..i] == t;
  }

  /** Every typing entry is stored under the key built from its own name and room. */
  ghost predicate KeyedByEntry(t: seq<(string, TypingEntry)>) {
    forall e :: e in t ==> e.0 == TypingKey(e.1.username, e.1.room)
  }

  class UserManager {
    /** socket id -> user */
    var users: seq<(SocketId, ServerUser)>
    /** `username-room` -> typing entry */
    var typingUsers: seq<(string, TypingEntry)>

    ghost predicate Valid()
      reads this
    {
      && DistinctKeys(users)
      && (forall e :: e in users ==> e.1.socketId == e.0)
      && DistinctKeys(typingUsers)
      && KeyedByEntry(typingUsers)
    }

    constructor ()
      ensures Valid() && users == [] && typingUsers == []
    {
      users, typingUsers := [], [];
    }

    /** `getUser(socketId)`: the user stored under the socket, who carries that socket id. */
    function GetUser(socketId: SocketId): (r: Option<ServerUser>)
      reads this
      ensures r.Some? <==> socketId in KeySet(users)
      ensures r.Some? ==> (socketId, r.value) in users
      ensures Valid() && r.Some? ==> r.value.socketId == socketId
    {
      Get(users, socketId)
    }

    /** `getUserByUsername(username)`: a connected user of that name, found again under its own socket. */
    function GetUserByUsername(username: string): (r: Option<ServerUser>)
      reads this
      ensures r.Some? ==> r.value.username == username
      ensures Valid() && r.Some? ==> GetUser(r.value.socketId) == r
      ensures r.None? ==> forall e :: e in users ==> e.1.username != username
    {
      var r := FirstNamed(users, username);
      if r.Some? then
        var i :| 0 <= i < |users| && users[i].1 == r.value;
        assert users[i] in users;
        assert Valid() ==> GetUser(users[i].0) == Some(users[i].1) by {
          if Valid() { GetAt(users, i); }
        }
        r
      else
        NoneNamed(users, username);
        r
    }

    /** `addUser`: a fresh online user in `general`, stored under (and carrying) the socket id. */
    method AddUser(socketId: SocketId, username: string, now: string) returns (user: ServerUser)
      requires Valid()
      modifies this`users
      ensures Valid()
      ensures user == ServerUser(username, true, now, [General], socketId)
      ensures users == Set(old(users), socketId, user)
      ensures GetUser(socketId) == Some(user)
      ensures forall id :: id != socketId ==> GetUser(id) == old(GetUser(id))
    {
      user := ServerUser(username, true, now, [General], socketId);
      SetShape(users, socketId, user);
      SetEntries(users, socketId, user);
      users := Set(users, socketId, user);
      forall id ensures GetUser(id) == if id == socketId then Some(user) else old(GetUser(id)) {
        GetSet(old(users), socketId, user, id);
      }
    }

    /**
     * `removeUser`: deletes the user and then, walking the typing table once, every
     * entry whose key starts with the user's name. Returns the removed user; on an
     * unknown socket returns nothing and changes nothing.
     */
    method RemoveUser(socketId: SocketId) returns (user: Option<ServerUser>)
      requires Valid()
      modifies this
      ensures Valid()
      ensures user == old(GetUser(socketId))
      ensures GetUser(socketId) == None
      ensures forall id :: id != socketId ==> GetUser(id) == old(GetUser(id))
      ensures user.None? ==> users == old(users) && typingUsers == old(typingUsers)
      ensures user.Some? ==> users == Remove(old(users), socketId)
      ensures user.Some? ==> typingUsers == WithoutPrefixed(old(typingUsers), user.value.username)
    {
      user := GetUser(socketId);
      if user.Some? {
        RemoveShape(users, socketId);
        RemoveEntries(users, socketId);
        users := Remove(users, socketId);
        typingUsers := Unprefixed(typingUsers, user.value.username);
        assert KeyedByEntry(typingUsers);
      }
      forall id ensures GetUser(id) == if id == socketId then None else old(GetUser(id)) {
        GetRemove(old(users), socketId, id);
      }
    }

    /** `getAllUsers`: one view per connected socket, in connection order. */
    function GetAllUsers(): (all: seq<UserView>)
      reads this
      ensures |all| == |users|
      ensures forall e :: e in users ==> View(e.1) in all
    {
      var us := users;
      var all := seq(|us|, i requires 0 <= i < |us| => View(us[i].1));
      assert forall i :: 0 <= i < |us| ==> all[i] == View(us[i].1);
      all
    }

    /** `getTypingUsers(room)`: exactly the names of the entries for `room`. */
    function GetTypingUsers(room: string): (names: seq<string>)
      reads this
      ensures forall u :: u in names <==> exists e :: e in typingUsers && e.1 == TypingEntry(u, room)
    {
      var names := TypersIn(typingUsers, room);
      forall u | u in names ensures exists e :: e in typingUsers && e.1 == TypingEntry(u, room) {
        var i :| 0 <= i < |typingUsers| && typingUsers[i].1 == TypingEntry(u, room);
        assert typingUsers[i] in typingUsers;
      }
      names
    }

    /** `addTypingUser`: sets the entry under `username-room` and answers the room's typers. */
    method AddTypingUser(username: string, room: string) returns (typers: seq<string>)
      requires Valid()
      modifies this`typingUsers
      ensures Valid()
      ensures typingUsers == Set(old(typingUsers), TypingKey(username, room), TypingEntry(username, room))
      ensures typers == GetTypingUsers(room) && username in typers
    {
      var key := TypingKey(username, room);
      SetShape(typingUsers, key, TypingEntry(username, room));
      SetEntries(typingUsers, key, TypingEntry(username, room));
      typingUsers := Set(typingUsers, key, TypingEntry(username, room));
      assert (key, TypingEntry(username, room)) in typingUsers;
      typers := GetTypingUsers(room);
    }

    /** `removeTypingUser`: deletes the entry under `username-room` and answers the room's typers. */
    method RemoveTypingUser(username: string, room: string) returns (typers: seq<string>)
      requires Valid()
      modifies this`typingUsers
      ensures Valid()
      ensures typingUsers == Remove(old(typingUsers), TypingKey(username, room))
      ensures typers == GetTypingUsers(room) && username !in typers
    {
      var key := TypingKey(username, room);
      RemoveShape(typingUsers, key);
      RemoveEntries(typingUsers, key);
      typingUsers := Remove(typingUsers, key);
      typers := GetTypingUsers(room);
    }
  }

  /** `getAllUsers` has one view per socket id, and the i-th is the view of the user stored under the i-th id. */
  lemma AllUsersOnePerSocket(m: UserManager)
    requires m.Valid()
    ensures |m.GetAllUsers()| == |KeySet(m.users)| == |m.users|
    ensures forall i :: 0 <= i < |m.users| ==>
              m.GetUser(m.users[i].0).Some? && m.GetAllUsers()[i] == View(m.GetUser(m.users[i].0).value)
  {
    KeyCount(m.users);
    forall i | 0 <= i < |m.users| ensures m.GetUser(m.users[i].0) == Some(m.users[i].1) {
      GetAt(m.users, i);
    }
  }

  /** Typing keys are plain concatenations, so two different name/room pairs can share one key. */
  lemma TypingKeysCollide()
    ensures TypingKey("a-b", "c") == TypingKey("a", "b-c")
    ensures TypersIn(Set(Set([], TypingKey("a-b", "c"), TypingEntry("a-b", "c")), TypingKey("a", "b-c"), TypingEntry("a", "b-c")), "c") == []
  {
    var key := TypingKey("a-b", "c");
    assert key == TypingKey("a", "b-c");
    var first := Set([], key, TypingEntry("a-b", "c"));
    assert first == [(key, TypingEntry("a-b", "c"))];
    assert IndexOf(first, key) == 0;
    assert Set(first, key, TypingEntry("a", "b-c")) == [(key, TypingEntry("a", "b-c"))];
  }

  /** Disconnecting `bob` also clears the typing entry of `bobby`, whose key starts with `bob`. */
  lemma PrefixCleanupReachesOthers()
    ensures WithoutPrefixed([(TypingKey("bobby", General), TypingEntry("bobby", General))], "bob") == []
  {
    assert StartsWith(TypingKey("bobby", General), "bob");
  }
}
