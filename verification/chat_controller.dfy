/**
 * The operations of `controllers/chatController.js`: a module-wide message history
 * capped at 100 entries, the `getHistory` query over it, a module-wide set of typing
 * usernames with explicit expiry, and the single-room `joinRoom` on a socket.
 */
module ChatController {
  import opened Wrappers
  import opened JsText

  /** `MESSAGE_LIMIT` */
  const MessageLimit: nat := 100
  /** `getHistory` answers with at most this many messages (`slice(-50)`). */
  const HistoryWindow: nat := 50

  /** A stored message; `room` is absent for messages of the global `message` event. */
  datatype HistoryMessage = HistoryMessage(username: string, text: string, time: string, room: Option<string>)

  /** `!m.room`: the message has no room, or an empty one. */
  predicate NoRoom(m: HistoryMessage) {
    m.room.None? || m.room.value == ""
  }

  /** The `getHistory` filter: a given (truthy) room selects that room, otherwise the room-less messages. */
  predicate Selected(m: HistoryMessage, room: Option<string>): (b: bool)
    ensures room.Some? && room.value != "" ==> (b <==> m.room == room)
    ensures room.None? || room == Some("") ==> (b <==> NoRoom(m))
    ensures b && room.Some? && room.value != "" ==> !NoRoom(m)
  {
    if room.Some? && room.value != "" then m.room == room else NoRoom(m)
  }

  /** `history.filter(m => Selected(m, room))`. */
  function Matching(h: seq<HistoryMessage>, room: Option<string>): (r: seq<HistoryMessage>)
    ensures |r| <= |h|
    ensures forall m :: m in r ==> m in h && Selected(m, room)
    ensures forall i :: 0 <= i < |h| && Selected(h[i], room) ==> h[i] in r
  {
    if h == [] then []
    else
      var last := h[|h| - 1];
      Matching(h[..|h| - 1], room) + (if Selected(last, room) then [last] else [])
  }

  /** Filtering a concatenation filters each part and keeps their order. */
  lemma {:induction false} MatchingAppend(a: seq<HistoryMessage>, b: seq<HistoryMessage>, room: Option<string>)
    ensures Matching(a + b, room) == Matching(a, room) + Matching(b, room)
  {
    if b == [] {
      assert a + b == a;
    } else {
      var b' := b[..|b| - 1];
      assert (a + b)[..|a + b| - 1] == a + b';
      MatchingAppend(a, b', room);
    }
  }

  /** `storeMessage` on a history value: push, then shift once when over the limit. */
  function Pushed(h: seq<HistoryMessage>, msg: HistoryMessage): (r: seq<HistoryMessage>)
    ensures |h| <= MessageLimit ==> |r| <= MessageLimit
    ensures r != [] && r[|r| - 1] == msg
  {
    var p := h + [msg];
    if |p| > MessageLimit then p[1..] else p
  }

  /** Storing keeps exactly the last 100 messages ever stored, oldest evicted first. */
  lemma StoreKeepsLatest(all: seq<HistoryMessage>, msg: HistoryMessage)
    ensures Pushed(TakeLast(all, MessageLimit), msg) == TakeLast(all + [msg], MessageLimit)
  {
    var h := TakeLast(all, MessageLimit);
    var all' := all + [msg];
    if |all| < MessageLimit {
      assert h == all;
      assert TakeLast(all', MessageLimit) == all';
    } else {
      assert h + [msg] == all'[|all'| - MessageLimit - 1..];
    }
  }

  /** `getHistory(room)` on a history value. */
  function History(h: seq<HistoryMessage>, room: Option<string>): (r: seq<HistoryMessage>)
    ensures |r| == Min(HistoryWindow, |Matching(h, room)|)
    ensures r == Matching(h, room)[|Matching(h, room)| - |r|..]
    ensures forall m :: m in r ==> m in h && Selected(m, room)
  {
    TakeLast(Matching(h, room), HistoryWindow)
  }

  /** A message just stored in a room is the newest one `getHistory` reports for that room. */
  lemma NewestInHistory(h: seq<HistoryMessage>, msg: HistoryMessage, room: string)
    requires room != "" && msg.room == Some(room)
    ensures var r := History(Pushed(h, msg), Some(room)); r != [] && r[|r| - 1] == msg
  {
    var p := Pushed(h, msg);
    var m := Matching(p, Some(room));
    assert Selected(msg, Some(room));
    assert m == Matching(p[..|p| - 1], Some(room)) + [msg];
    var r := TakeLast(m, HistoryWindow);
    assert r[|r| - 1] == m[|m| - 1];
  }

  /** `typingUsers.add(x)`: a JavaScript `Set` keeps one copy, in insertion order. */
  function SetAdd(s: seq<string>, x: string): (r: seq<string>)
    ensures x in r
    ensures forall y :: y in r <==> y in s || y == x
    ensures NoDuplicates(s) ==> NoDuplicates(r)
  {
    if x in s then s else s + [x]
  }

  /** `typingUsers.delete(x)`. */
  function SetDelete(s: seq<string>, x: string): (r: seq<string>)
    ensures x !in r
    ensures forall y :: y in r <==> y in s && y != x
    ensures NoDuplicates(s) ==> NoDuplicates(r)
  {
    if s == [] then []
    else
      var rest := SetDelete(s[1..], x);
      if s[0] == x then rest
      else
        assert NoDuplicates(s) ==> s[0] !in s[1..] && NoDuplicates(s[1..]);
        var r := [s[0]] + rest;
        assert forall i :: 0 < i < |r| ==> r[i] == rest[i - 1];
        r
  }

  ghost predicate NoDuplicates(s: seq<string>) {
    forall i, j :: 0 <= i < j < |s| ==> s[i] != s[j]
  }

  /** The module-level state: the message history and the typing set. */
  class ChatState {
    var messageHistory: seq<HistoryMessage>
    var typingUsers: seq<string>
    /** every message ever stored, oldest first */
    ghost var stored: seq<HistoryMessage>

    ghost predicate Valid()
      reads this
    {
      messageHistory == TakeLast(stored, MessageLimit) && NoDuplicates(typingUsers)
    }

    constructor ()
      ensures Valid() && messageHistory == [] && typingUsers == [] && stored == []
    {
      messageHistory := [];
      typingUsers := [];
      stored := [];
      new;
      assert messageHistory == TakeLast(stored, MessageLimit);
    }

    /** `storeMessage(msg)`. */
    method StoreMessage(msg: HistoryMessage)
      requires Valid()
      modifies this
      ensures Valid()
      ensures stored == old(stored) + [msg]
      ensures messageHistory == Pushed(old(messageHistory), msg)
      ensures |messageHistory| <= MessageLimit
      ensures typingUsers == old(typingUsers)
    {
      StoreKeepsLatest(stored, msg);
      messageHistory := messageHistory + [msg];
      if |messageHistory| > MessageLimit {
        messageHistory := messageHistory[1..];
      }
      stored := stored + [msg];
    }

    /** `getHistory(room)`: the answer handed to the callback. */
    function GetHistory(room: Option<string>): (r: seq<HistoryMessage>)
      reads this
      ensures |r| <= HistoryWindow
      ensures forall m :: m in r ==> m in messageHistory && Selected(m, room)
    {
      History(messageHistory, room)
    }

    /** The `typing` event: add the name, and broadcast the whole set. */
    method Typing(username: string) returns (broadcast: seq<string>)
      requires Valid()
      modifies this`typingUsers
      ensures Valid()
      ensures typingUsers == SetAdd(old(typingUsers), username)
      ensures broadcast == typingUsers && username in broadcast
    {
      typingUsers := SetAdd(typingUsers, username);
      broadcast := typingUsers;
    }

    /** The 3-second timer of a `typing` event firing: drop the name, and broadcast the set. */
    method ExpireTyping(username: string) returns (broadcast: seq<string>)
      requires Valid()
      modifies this`typingUsers
      ensures Valid()
      ensures typingUsers == SetDelete(old(typingUsers), username)
      ensures broadcast == typingUsers && username !in broadcast
    {
      typingUsers := SetDelete(typingUsers, username);
      broadcast := typingUsers;
    }
  }

  /** The rooms a socket is in; the transport always keeps a socket in the room named by its id. */
  class Socket {
    const id: string
    var rooms: set<string>

    ghost predicate Valid()
      reads this
    {
      id in rooms
    }

    constructor (id: string)
      ensures Valid() && this.id == id && rooms == {id}
    {
      this.id := id;
      rooms := {id};
    }

    /** `joinRoom(room)`: leave every room but the socket's own, then join `room`. */
    method JoinRoom(room: string) returns (reply: string)
      modifies this
      ensures rooms == (old(rooms) * {id}) + {room}
      ensures old(Valid()) ==> Valid() && rooms == {id, room}
      ensures reply == "Joined room: " + room
    {
      var pending := rooms;
      while pending != {}
        invariant pending <= old(rooms)
        invariant rooms == pending + (old(rooms) * {id})
        decreases pending
      {
        var r :| r in pending;
        if r != id {
          rooms := rooms - {r};
        }
        pending := pending - {r};
      }
      rooms := rooms + {room};
      reply := "Joined room: " + room;
    }
  }
}
