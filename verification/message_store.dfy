/**
 * `MessageStore` of `server/server.js`: one message list per room and one per
 * pair of users, both growing by `push` without a cap.
 */
module Messages {
  import opened Wrappers
  import opened JsMap
  import opened JsText

  /** A chat message as `message:send` builds it. */
  datatype Message = Message(id: string, from: string, text: string, timestamp: string, room: string)

  /** `getMessages` and `getPrivateMessages` answer at most this many messages by default. */
  const DefaultLimit := 50

  /** `[a, b].sort().join('-')`: the two names in string order, joined with a dash. */
  function PairKey(a: string, b: string): (k: string)
    ensures (k == a + "-" + b && !Less(b, a)) || (k == b + "-" + a && !Less(a, b))
  {
    LessAsymmetric(a, b);
    if Less(b, a) then b + "-" + a else a + "-" + b
  }

  /** Either participant may come first: both orders name the same list. */
  lemma PairKeySymmetric(a: string, b: string)
    ensures PairKey(a, b) == PairKey(b, a)
  {
    LessAsymmetric(a, b);
    LessTotal(a, b);
  }

  /** The joined key is ambiguous: two different pairs can share one list. */
  lemma PairKeysCollide()
    ensures PairKey("a-b", "c") == PairKey("a", "b-c") == "a-b-c"
  {
  }

  /** The list stored under `key`, or the empty list when there is none. */
  function Thread(lists: seq<(string, seq<Message>)>, key: string): seq<Message> {
    match Get(lists, key)
    case Some(l) => l
    case None => []
  }

  /** `lists.get(key)?.slice(-limit) || []`. */
  function Recent(lists: seq<(string, seq<Message>)>, key: string, limit: int): (r: seq<Message>)
    ensures Get(lists, key).None? ==> r == []
    ensures var t := Thread(lists, key); |r| <= |t| && r == t[|t| - |r|..]
    ensures limit > 0 ==> |r| == Min(limit, |Thread(lists, key)|)
  {
    match Get(lists, key)
    case Some(l) => TakeLast(l, limit)
    case None => []
  }

  /** Appending to one list leaves every other list as it was, and the list grows by exactly that message. */
  lemma AppendToThread(lists: seq<(string, seq<Message>)>, key: string, m: Message, other: string)
    ensures var lists' := Set(lists, key, Thread(lists, key) + [m]);
            Thread(lists', key) == Thread(lists, key) + [m] &&
            (other != key ==> Thread(lists', other) == Thread(lists, other))
  {
    GetSet(lists, key, Thread(lists, key) + [m], key);
    GetSet(lists, key, Thread(lists, key) + [m], other);
  }

  class MessageStore {
    /** room -> messages */
    var messages: seq<(string, seq<Message>)>
    /** pair key -> messages */
    var privateMessages: seq<(string, seq<Message>)>

    ghost predicate Valid()
      reads this
    {
      DistinctKeys(messages) && DistinctKeys(privateMessages)
    }

    constructor ()
      ensures Valid() && messages == [] && privateMessages == []
    {
      messages, privateMessages := [], [];
    }

    /** `addMessage(room, message)`: creates the room's list on first use, then pushes. */
    method AddMessage(room: string, message: Message)
      requires Valid()
      modifies this`messages
      ensures Valid()
      ensures messages == Set(old(messages), room, Thread(old(messages), room) + [message])
      ensures Thread(messages, room) == Thread(old(messages), room) + [message]
      ensures forall r :: r != room ==> Thread(messages, r) == Thread(old(messages), r)
    {
      var list := if Get(messages, room).None? then [] else Get(messages, room).value;
      SetShape(messages, room, list + [message]);
      messages := Set(messages, room, list + [message]);
      forall r ensures r != room ==> Thread(messages, r) == Thread(old(messages), r) {
        AppendToThread(old(messages), room, message, r);
      }
    }

    /** `addPrivateMessage(sender, receiver, message)`: pushes to the pair's list, whichever name comes first. */
    method AddPrivateMessage(sender: string, receiver: string, message: Message)
      requires Valid()
      modifies this`privateMessages
      ensures Valid()
      ensures privateMessages == Set(old(privateMessages), PairKey(sender, receiver), Thread(old(privateMessages), PairKey(sender, receiver)) + [message])
      ensures Thread(privateMessages, PairKey(receiver, sender)) == Thread(old(privateMessages), PairKey(sender, receiver)) + [message]
      ensures forall k :: k != PairKey(sender, receiver) ==> Thread(privateMessages, k) == Thread(old(privateMessages), k)
    {
      var key := PairKey(sender, receiver);
      PairKeySymmetric(sender, receiver);
      var list := if Get(privateMessages, key).None? then [] else Get(privateMessages, key).value;
      SetShape(privateMessages, key, list + [message]);
      privateMessages := Set(privateMessages, key, list + [message]);
      forall k ensures k != key ==> Thread(privateMessages, k) == Thread(old(privateMessages), k) {
        AppendToThread(old(privateMessages), key, message, k);
      }
      AppendToThread(old(privateMessages), key, message, key);
    }

    /** `getMessages(room, limit)`: the room's newest messages, nothing for an unknown room. */
    function GetMessages(room: string, limit: int): (r: seq<Message>)
      reads this
      ensures Get(messages, room).None? ==> r == []
      ensures var t := Thread(messages, room); |r| <= |t| && r == t[|t| - |r|..]
      ensures limit > 0 ==> |r| == Min(limit, |Thread(messages, room)|)
    {
      Recent(messages, room, limit)
    }

    /** `getPrivateMessages(user1, user2, limit)`: the pair's newest messages, whichever name comes first. */
    function GetPrivateMessages(user1: string, user2: string, limit: int): (r: seq<Message>)
      reads this
      ensures var t := Thread(privateMessages, PairKey(user2, user1)); |r| <= |t| && r == t[|t| - |r|..]
      ensures limit > 0 ==> |r| == Min(limit, |Thread(privateMessages, PairKey(user2, user1))|)
    {
      PairKeySymmetric(user1, user2);
      Recent(privateMessages, PairKey(user1, user2), limit)
    }
  }

  /** Private history reads the same whichever participant asks. */
  lemma PrivateHistorySymmetric(store: MessageStore, a: string, b: string, limit: int)
    ensures store.GetPrivateMessages(a, b, limit) == store.GetPrivateMessages(b, a, limit)
  {
    PairKeySymmetric(a, b);
  }

  /** After posting to a room, the room's recent history ends with that message. */
  lemma PostedMessageIsNewest(lists: seq<(string, seq<Message>)>, room: string, m: Message, limit: int)
    requires limit > 0
    ensures var r := Recent(Set(lists, room, Thread(lists, room) + [m]), room, limit);
            r != [] && r[|r| - 1] == m
  {
    AppendToThread(lists, room, m, room);
    GetSet(lists, room, Thread(lists, room) + [m], room);
  }
}
