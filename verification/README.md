# Socket.io chat server: session state, message store and handlers

This project models the in-memory bookkeeping of the Socket.io chat server in
`Socketio-chat/server`:

- the `UserManager`: connected users by socket id, and a typing table keyed by
  `username-room`;
- the `MessageStore`: one message list per room, and one per pair of users under
  the key `[a, b].sort().join('-')`;
- the `login`, `message:send`, `room:join`, `typing:start`, `typing:stop` and
  `disconnect` handlers. They are methods of one coordinator class, `ChatServer.Server`.
  Each handler changes the state and returns the events it emits; the handlers that
  answer a callback also return the acknowledgement handed to it. An event is a
  target (every socket, a room, or a room except every socket in the room named by
  the sender's id), a name and a payload;
- the operations of `controllers/chatController.js`:
  - the history capped at 100 messages;
  - `getHistory` (filter, then the last 50);
  - the typing set, with its timer expiry as an explicit operation;
  - `joinRoom` on a socket's room set;
- the plain user registry of `models/User.js`.

JavaScript `Map`s are modelled as insertion-ordered association lists, in module
`JsMap`:

- `set` on a present key overwrites in place;
- `set` on a new key appends;
- `delete` removes the entry.

So iteration order, which `getAllUsers`, `getUserByUsername`'s `find` and
`getTypingUsers` expose, is the source's own. A JavaScript `Set` that is read back
with `Array.from` is a sequence without repeats. A socket's room set is a Dafny
`set`. String comparison (`sort()`) is lexicographic order on characters, in
`JsText.Less`. `slice(-limit)` is `JsText.TakeLast`, including `limit == 0`, which
returns the whole list.

Timestamps (`new Date()`) and message ids (`Date.now()` and `Math.random()`) are
parameters: `now`, `id`. The transport's room table is a field of the coordinator,
`socketRooms`. It is filled by `Connect`, because socket.io puts every socket in
the room named by its id. `Server.Audience` computes which sockets an event
reaches. For `socket.to(room)` it follows socket.io version 4: the event goes to the
room's sockets except every socket in the room named by the sender's id. The
socket.io library itself is not part of this model.

The server's invariant, `Server.Valid`, holds across every handler:

- every stored user carries its own socket id;
- no two connected users share a name;
- every user is in `general` and has a live socket;
- map keys are distinct;
- every typing entry is stored under the key built from its own name and room.

These source behaviours are reproduced, not fixed. The first five are stated as
lemmas; the last two are stated by the handlers' contracts:

- typing keys collide (`TypingKeysCollide`);
- private pair keys collide (`PairKeysCollide`);
- disconnecting `bob` also clears `bobby`'s typing entries (`PrefixCleanupReachesOthers`);
- a private message goes to the room named by the partner's socket id, and `room:join`
  lets any socket join a room of any name, so a third socket that joined that room
  receives the message too (`PrivateEventReachesRoomMembers`);
- for the same reason, a partner whose socket joined the room named by the sender's
  socket id never receives the sender's private messages
  (`PrivateEventMissesSenderRoomMembers`; the contract of `Server.SendPrivate`
  states when the partner is reached);
- `message:send` does not check that the sender is in the room: the contract of
  `Server.SendMessage` appends and broadcasts for any room that is not `private-`;
- a second login on an already logged-in socket, under a free name, replaces that
  socket's entry: the contract of `Server.Login` gives the new table as `Set` on the
  socket id.

`ChatScenario` calls the handlers on concrete states, relying only on their
contracts. `AliceLogsIn` starts from a fresh server. The other steps start from a
state with Alice and Bob both logged in, given in their `requires`; Bob's own login
is not one of the steps. `BothConnected` calls those steps in order, each from where
the previous one ends. The scenario covers:

- a first login;
- a refused duplicate name;
- a private message reaching the recipient's socket and filed under the pair;
- a repeated disconnect that announces the departure once.

## Model

| member | source | states |
|---|---|---|
| JsMap.IndexOf | Socketio-chat/server/server.js:45 | the position found holds the key, and no earlier entry does; the map length means absent |
| JsMap.Get | Socketio-chat/server/server.js:45 | `Map.get` finds a value exactly when the key is stored, and the pair is an entry of the map |
| JsMap.Set | Socketio-chat/server/server.js:40 | `Map.set` stores the pair, grows the map by at most one entry, and leaves every entry under another key in its place |
| JsMap.Remove | Socketio-chat/server/server.js:55 | `Map.delete` shrinks the map by at most one entry (exactly one when the key is present), keeps only old entries, and keeps the others in order around the removed position |
| JsMap.Values | Socketio-chat/server/models/User.js:24 | `Array.from(map.values())` has one value per entry, every stored value appears, and nothing else does |
| JsMap.GetAt | Socketio-chat/server/server.js:45 | with distinct keys, `get` on an entry's key returns that entry's value |
| JsMap.IndexOfSameKeys | Socketio-chat/server/server.js:40 | two maps with the same keys position by position find every key at the same place |
| JsMap.IndexOfAppend | Socketio-chat/server/server.js:40 | appending an entry leaves the positions of existing keys unchanged; a new key is found at the end |
| JsMap.GetSet | Socketio-chat/server/server.js:40 | after `set(k, v)`, `get(k)` is `v` and every other key reads as before |
| JsMap.SetShape | Socketio-chat/server/models/User.js:7 | `set` grows the map by one entry exactly when the key was absent, appending it at the end; the key set gains `k`; keys stay distinct |
| JsMap.GetRemove | Socketio-chat/server/server.js:55 | after `delete(k)`, `get(k)` is absent and every other key reads as before |
| JsMap.RemoveShape | Socketio-chat/server/models/User.js:18 | `delete` shrinks the map by one entry exactly when the key was present; the key set loses `k`; keys stay distinct |
| JsMap.SetEntries | Socketio-chat/server/server.js:40 | the entries after `set(k, v)` are `(k, v)` and the old entries with other keys |
| JsMap.RemoveEntries | Socketio-chat/server/server.js:55 | the entries after `delete(k)` are exactly the old entries with other keys |
| JsMap.KeySetCons | Socketio-chat/server/models/User.js:24 | the keys of a non-empty map are its first key and the keys of the rest |
| JsMap.KeyCount | Socketio-chat/server/models/User.js:24 | a map with distinct keys has as many keys as entries |
| JsText.StartsWith | Socketio-chat/server/server.js:58 | `startsWith` holds exactly when the string is the prefix followed by something |
| JsText.Less | Socketio-chat/server/server.js:111 | the string order `sort()` uses is irreflexive and puts a proper prefix first |
| JsText.LessAsymmetric | Socketio-chat/server/server.js:111 | string order is asymmetric |
| JsText.LessTotal | Socketio-chat/server/server.js:111 | of two different strings, one sorts before the other |
| JsText.TakeLast | Socketio-chat/server/server.js:119 | `slice(-limit)` is a suffix; for a positive limit it has `min(limit, n)` elements, for 0 the whole list, and for a negative limit it drops that many from the front |
| UserRegistry.Registry.GetUser | Socketio-chat/server/models/User.js:11-13 | `getUser` finds a record exactly when the socket id is stored, and it is the record stored under that id |
| UserRegistry.Registry.AddUser | Socketio-chat/server/models/User.js:6-9 | stores `{username, online: true}` under the socket id and returns it; `getUser` finds it; other ids are unchanged; the size grows only for a new id |
| UserRegistry.Registry.RemoveUser | Socketio-chat/server/models/User.js:15-21 | returns the previous entry; the id is absent afterwards; other ids are unchanged; on an absent id nothing changes |
| UserRegistry.Registry.GetAllUsers | Socketio-chat/server/models/User.js:23-25 | one record per stored socket id, and the i-th is what `getUser` returns for the i-th id |
| Sessions.TypingKey | Socketio-chat/server/server.js:76 | the typing key starts with the user's name and continues with `-` and the room |
| Sessions.FirstNamed | Socketio-chat/server/server.js:48-50 | `find` returns the first stored user with that name; it returns nothing exactly when no stored user has it |
| Sessions.NoneNamed | Socketio-chat/server/server.js:48-50 | when `getUserByUsername` finds nothing, no stored entry has that name |
| Sessions.TypersIn | Socketio-chat/server/server.js:87-91 | `u` is listed for `room` exactly when some typing entry is `(u, room)` |
| Sessions.WithoutPrefixed | Socketio-chat/server/server.js:57-61 | the typing table after cleanup holds exactly the old entries whose key does not start with the name; keys stay distinct |
| Sessions.Unprefixed | Socketio-chat/server/server.js:57-61 | the one-pass loop over the typing table leaves exactly `WithoutPrefixed` |
| Sessions.UserManager.GetUser | Socketio-chat/server/server.js:44-46 | `getUser` finds a user exactly when the socket id is stored; it is the user stored there, who carries that socket id |
| Sessions.UserManager.GetUserByUsername | Socketio-chat/server/server.js:48-50 | a user found by name has that name and is the one stored under its own socket id; finding nothing means no stored user has the name |
| Sessions.UserManager.GetAllUsers | Socketio-chat/server/server.js:66-73 | `getAllUsers` has one view per stored user, and every stored user's view is in it |
| Sessions.UserManager.GetTypingUsers | Socketio-chat/server/server.js:87-91 | `getTypingUsers(room)` lists exactly the names of the table's entries for `room` |
| Sessions.UserManager.AddUser | Socketio-chat/server/server.js:32-42 | the user is online, in `{general}`, carries and is stored under the socket id; other ids are unchanged |
| Sessions.UserManager.RemoveUser | Socketio-chat/server/server.js:52-64 | returns the stored user, leaves no entry for the socket and drops the typing keys that start with the name; on an unknown socket nothing changes |
| Sessions.UserManager.AddTypingUser | Socketio-chat/server/server.js:75-79 | sets the entry under `username-room` and answers the room's typers, which include `username` |
| Sessions.UserManager.RemoveTypingUser | Socketio-chat/server/server.js:81-85 | deletes the entry under `username-room` and answers the room's typers, which exclude `username` |
| Sessions.AllUsersOnePerSocket | Socketio-chat/server/server.js:66-73 | `getAllUsers` has one view per socket id, the view of the user stored under that id |
| Sessions.TypingKeysCollide | Socketio-chat/server/server.js:76-77 | `a-b` typing in `c` and `a` typing in `b-c` share one key, so the second hides the first |
| Sessions.PrefixCleanupReachesOthers | Socketio-chat/server/server.js:58 | removing `bob` also removes `bobby`'s typing entry |
| Messages.PairKey | Socketio-chat/server/server.js:111 | the key is the two names joined by `-`, the one that does not sort after the other first |
| Messages.PairKeySymmetric | Socketio-chat/server/server.js:111 | the pair key is the same for both orders of the two names |
| Messages.PairKeysCollide | Socketio-chat/server/server.js:111 | the pairs (`a-b`, `c`) and (`a`, `b-c`) share the key `a-b-c` |
| Messages.Recent | Socketio-chat/server/server.js:118-125 | the answer is the newest `min(limit, n)` messages of the list, in append order, and empty for an unknown key |
| Messages.AppendToThread | Socketio-chat/server/server.js:103-116 | pushing to one list makes it grow by exactly that message and leaves every other list as it was |
| Messages.MessageStore.AddMessage | Socketio-chat/server/server.js:103-108 | the room's list grows by exactly the message at its end; every other room is unchanged; private lists are untouched |
| Messages.MessageStore.AddPrivateMessage | Socketio-chat/server/server.js:110-116 | the pair's list grows by exactly the message, under the same key in either order; every other list is unchanged |
| Messages.MessageStore.GetMessages | Socketio-chat/server/server.js:118-120 | the newest `min(limit, n)` messages of the room, in append order, and nothing for an unknown room; reading changes nothing |
| Messages.MessageStore.GetPrivateMessages | Socketio-chat/server/server.js:122-125 | the newest `min(limit, n)` messages of the pair's list, read under the key of the names in the other order |
| Messages.PrivateHistorySymmetric | Socketio-chat/server/server.js:122-125 | `getPrivateMessages(a, b)` equals `getPrivateMessages(b, a)` |
| Messages.PostedMessageIsNewest | Socketio-chat/server/server.js:103-108 | after posting to a room, its recent history ends with the posted message |
| ChatServer.AcceptableName | Socketio-chat/server/server.js:137 | a login name is accepted exactly when it is a string of at least 3 characters; a non-string or the empty string is refused |
| ChatServer.Partner | Socketio-chat/server/server.js:186 | the partner's name is what follows the leading `private-` of the room |
| ChatServer.SetKeepsInvariant | Socketio-chat/server/server.js:141-146 | storing a user whose name no other socket holds keeps names unique and every user in `general` on a live socket |
| ChatServer.NamedUserReachable | Socketio-chat/server/server.js:189-191 | the user found by name has a live socket that is in its own room |
| ChatServer.Server.Audience | Socketio-chat/server/server.js:149 | an event reaches only live sockets: all of them for `io.emit`, every socket in the room for `io.to(room)`, and for `socket.to(room)` exactly the room's sockets that are not in the room named by the sender's id, so never the sender |
| ChatServer.PrivateEventReachesRoomMembers | Socketio-chat/server/server.js:191 | a private message also reaches a third socket that joined the room named by the partner's socket id, and never the sender |
| ChatServer.PrivateEventMissesSenderRoomMembers | Socketio-chat/server/server.js:191 | a partner whose socket joined the room named by the sender's socket id is not reached by the sender's private message |
| ChatServer.Server.Connect | Socketio-chat/server/server.js:131 | a new socket is in exactly the room named by its id |
| ChatServer.Server.Login | Socketio-chat/server/server.js:135-169 | a missing, non-string or short name fails with the length error, and a taken name with the taken error, both changing nothing; otherwise the user is stored online in `general` under the socket, the socket joins `general`, the reply carries `general`'s history, and the user list and a joined notice go to everyone |
| ChatServer.Server.SendMessage | Socketio-chat/server/server.js:172-203 | an unknown socket gets `Unauthorized` and nothing changes; a `private-` room files the message under the pair and, when the partner is online, sends it to the room named by the partner's socket, never to the sender, reaching the partner exactly when the partner's socket is not in the room named by the sender's id; any other room is appended and broadcast to the room without a membership check |
| ChatServer.Server.SendPrivate | Socketio-chat/server/server.js:185-192 | the message is filed under the pair key; the sender's socket is never in the event's audience, and an online partner's socket is in it exactly when it is another socket that has not joined the room named by the sender's id |
| ChatServer.Server.JoinRoom | Socketio-chat/server/server.js:206-229 | an unknown socket gets `Unauthorized`; otherwise a room other than `general` that the user has not joined is added to the user, in place in the user table, and to the socket, and any other room leaves the table as it was; the reply carries the room's, or the pair's, history; everyone gets the user list |
| ChatServer.Server.RecordJoin | Socketio-chat/server/server.js:211-214 | the user record gains the room at its own place in the table (`Set` on the socket id) and the socket joins it; other users are unchanged |
| ChatServer.Server.TypingStart | Socketio-chat/server/server.js:232-238 | a logged-in user is recorded as typing in the room and the room gets the typers, who include the user; otherwise nothing happens |
| ChatServer.Server.TypingStop | Socketio-chat/server/server.js:240-246 | a logged-in user's typing entry for the room is deleted and the room gets the typers, who exclude the user; otherwise nothing happens |
| ChatServer.Server.Disconnect | Socketio-chat/server/server.js:249-260 | the socket leaves every room and no user remains under it; departure is announced to everyone only when a user was removed, and that user's typing keys are cleaned up |
| ChatController.Selected | Socketio-chat/server/controllers/chatController.js:67-69 | a truthy room selects exactly the messages of that room; no room, or the empty room, selects exactly the messages without a room |
| ChatController.Matching | Socketio-chat/server/controllers/chatController.js:67-69 | the filter keeps exactly the stored messages selected by the room argument |
| ChatController.MatchingAppend | Socketio-chat/server/controllers/chatController.js:67-69 | filtering a concatenation filters each part, in order |
| ChatController.Pushed | Socketio-chat/server/controllers/chatController.js:75-80 | a history of at most 100 stays at most 100, and ends with the new message |
| ChatController.StoreKeepsLatest | Socketio-chat/server/controllers/chatController.js:75-80 | the history after storing is the last `min(100, n)` messages ever stored, oldest evicted first |
| ChatController.History | Socketio-chat/server/controllers/chatController.js:66-72 | `getHistory` answers the newest `min(50, k)` of the `k` selected messages, in stored order; a truthy room selects that room, otherwise the room-less messages |
| ChatController.NewestInHistory | Socketio-chat/server/controllers/chatController.js:66-80 | a message just stored in a room is the newest that `getHistory` reports for the room |
| ChatController.SetAdd | Socketio-chat/server/controllers/chatController.js:13 | the set then holds exactly its old names plus the new one, without repeats |
| ChatController.SetDelete | Socketio-chat/server/controllers/chatController.js:17 | the set then holds exactly its old names minus the given one, without repeats |
| ChatController.ChatState.StoreMessage | Socketio-chat/server/controllers/chatController.js:75-80 | pushes, then shifts once over 100; the history stays the last 100 messages ever stored |
| ChatController.ChatState.GetHistory | Socketio-chat/server/controllers/chatController.js:66-72 | at most 50 messages, each stored and selected by the room argument |
| ChatController.ChatState.Typing | Socketio-chat/server/controllers/chatController.js:12-14 | the name is added to the typing set and the whole set, which contains it, is broadcast |
| ChatController.ChatState.ExpireTyping | Socketio-chat/server/controllers/chatController.js:16-19 | the name is removed, whatever refreshes came in between, and the set without it is broadcast |
| ChatController.Socket.JoinRoom | Socketio-chat/server/controllers/chatController.js:43-50 | the socket leaves every room but its own and joins `room`, ending in exactly `{id, room}`; the reply is `Joined room: <room>` |
| ChatScenario.FirstConnection | Socketio-chat/server/server.js:131 | a fresh server with one connection has that socket in its own room and nothing stored |
| ChatScenario.AliceLogsIn | Socketio-chat/server/server.js:135-169 | a first login on a fresh server stores exactly one online user in `general`, puts the socket in `general` besides its own room, and answers an empty history |
| ChatScenario.SecondAliceRefused | Socketio-chat/server/server.js:141-143 | a second login with a connected user's name leaves the users as they were |
| ChatScenario.AliceWritesToBob | Socketio-chat/server/server.js:185-192 | a private message to an online user whose socket has not joined the sender's id room reaches that user's socket, and is in the pair's history whichever name asks |
| ChatScenario.BobLeavesOnce | Socketio-chat/server/server.js:249-258 | disconnecting the same socket twice removes the user once; the second call emits nothing |
| ChatScenario.BothConnected | Socketio-chat/server/server.js:135-260 | from Alice and Bob both connected, a refused second `alice`, a private message and Bob's double disconnect leave Alice alone |

## Left out

- The HTTP, Express and CORS bootstrap, `dotenv`, the `unhandledRejection` handler, `listen` and console logging are not modelled. They hold no chat state.
- socket.io delivery is not modelled. Events are values, and `Audience` says which sockets an event would reach. Connection-state recovery is not modelled either.
- The `try`/`catch` paths that answer `Internal server error`, `Failed to send message` or `Failed to join room` are not modelled. They only catch runtime faults. An example is a `room` that is not a string, whose `startsWith` throws. The model types `room` and `text` as strings.
- `new Date()`, `Date.now()` and `Math.random()` are not modelled. The model takes them as `now` and `id` parameters. `lastSeen` is that parameter, not a `Date` object.
- String length and ordering are counted in Unicode characters, not UTF-16 code units. The two differ only outside the Basic Multilingual Plane.
- The 3-second `setTimeout` of the `typing` event is `ExpireTyping`, called explicitly. No clock is modelled.
- chatController.js does not load as written: lines 23-100 refer to `socket` and `io` outside `setupChatSocket`. The model covers its operations, not its wiring.
- The controller's plain broadcasts are not modelled. These are the `message` echo (lines 8-10 and 82-85), `privateMessage` (lines 23-41) and the two `roomMessage` handlers (lines 52-64 and 87-100). Their only state effect is `storeMessage`, which is modelled.
- Sessions.UserManager.RemoveUser: the typing cleanup builds the kept table in one pass and assigns it. It does not delete keys from the live map while iterating, as the source does. The result is the same, because JavaScript `Map` iteration visits every entry still present.
- The client (`client/src`) is not part of this model. It is React rendering and browser APIs.
- The registry of `models/User.js` is a separate value from the `UserManager` of `server.js`. The server never uses it, and the model keeps them apart.
