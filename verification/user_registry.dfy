/**
 * The plain user registry exported by `models/User.js`: a map from socket id to
 * `{username, online}`, shared as a single instance.
 */
module UserRegistry {
  import opened Wrappers
  import opened JsMap
  import opened Sockets

  datatype UserRecord = UserRecord(username: string, online: bool)

  class Registry {
    /** socket id -> user data, in insertion order */
    var users: seq<(SocketId, UserRecord)>

    ghost predicate Valid()
      reads this
    {
      DistinctKeys(users)
    }

    constructor ()
      ensures Valid() && users == []
    {
      users := [];
    }

    /** `getUser(socketId)`: the stored record, or nothing. */
    function GetUser(socketId: SocketId): (r: Option<UserRecord>)
      reads this
      ensures r.Some? <==> socketId in KeySet(users)
      ensures r.Some? ==> (socketId, r.value) in users
    {
      Get(users, socketId)
    }

    /** `addUser`: stores `{username, online: true}` under the socket id, replacing any previous entry. */
    method AddUser(socketId: SocketId, username: string) returns (user: UserRecord)
      requires Valid()
      modifies this
      ensures Valid()
      ensures users == Set(old(users), socketId, UserRecord(username, true))
      ensures user == UserRecord(username, true)
      ensures GetUser(socketId) == Some(user)
      ensures forall id :: id != socketId ==> GetUser(id) == old(GetUser(id))
      ensures |users| == if old(GetUser(socketId)).Some? then |old(users)| else |old(users)| + 1
    {
      SetShape(users, socketId, UserRecord(username, true));
      users := Set(users, socketId, UserRecord(username, true));
      forall id ensures GetUser(id) == if id == socketId then Some(UserRecord(username, true)) else old(GetUser(id)) {
        GetSet(old(users), socketId, UserRecord(username, true), id);
      }
      user := GetUser(socketId).value;
    }

    /** `removeUser`: deletes the entry and returns it; on an absent id returns nothing and changes nothing. */
    method RemoveUser(socketId: SocketId) returns (user: Option<UserRecord>)
      requires Valid()
      modifies this
      ensures Valid()
      ensures user == old(GetUser(socketId))
      ensures GetUser(socketId) == None
      ensures forall id :: id != socketId ==> GetUser(id) == old(GetUser(id))
      ensures user.None? ==> users == old(users)
      ensures user.Some? ==> users == Remove(old(users), socketId) && |users| == |old(users)| - 1
    {
      user := GetUser(socketId);
      if user.Some? {
        RemoveShape(users, socketId);
        users := Remove(users, socketId);
      }
      forall id ensures GetUser(id) == if id == socketId then None else old(GetUser(id)) {
        GetRemove(old(users), socketId, id);
      }
    }

    /** `getAllUsers`: one record per stored socket id, in insertion order. */
    function GetAllUsers(): (all: seq<UserRecord>)
      requires Valid()
      reads this
      ensures |all| == |users| == |KeySet(users)|
      ensures forall i :: 0 <= i < |all| ==> GetUser(users[i].0) == Some(all[i])
    {
      KeyCount(users);
      assert forall i :: 0 <= i < |users| ==> GetUser(users[i].0) == Some(users[i].1) by {
        forall i | 0 <= i < |users| { GetAt(users, i); }
      }
      Values(users)
    }
  }
}
