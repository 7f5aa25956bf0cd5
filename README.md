# Chat-room service: room directory and socket handlers

This project models the core of a small in-memory chat-room server (`server.js`).
Clients create rooms, list or pick public rooms, join a room under a display name,
post messages and disconnect. The model has three modules:

- `Rooms` models the room directory. A room is `Room(id, name, isPublic, createdAt, usersCount)`.
  The JavaScript `Map` of rooms is a `map` plus the key insertion order `order`, because
  `Array.from(rooms.values())` lists rooms in that order. `WellFormed` states that the two agree.
  The create endpoint builds its record with `NewRoom`. The defaults are `"Untitled Room"` and public.
  `isPublic` goes through JavaScript truthiness (`!!isPublic`).
  The two read-only endpoints are pure functions over the directory:
  `ListPublic` filters, sorts newest first and projects; `RandomPublic` indexes the public rooms
  with a draw `k`.
- `Chat` models the socket handlers as a class `Server` with these fields:
  - `rooms` and `order`: the directory;
  - `members`: socket.io's room membership sets, `room id -> set of socket ids`;
  - `sessions`: each joined socket's `socket.data` (`username`, `roomId`);
  - `log`: every emitted `(room, payload)` event, oldest first.

  The methods are `CreateRoom`, `JoinRoom`, `PostMessage` and `OnDisconnect`.
  `DropSocket` is socket.io's own step of taking a closing socket out of every room.
  `Disconnect` runs the two in order.
  `Valid()` is the representation invariant. Two more invariants are tracked:
  - `CountsCurrent()`: every stored count equals the size of the room's membership set;
  - `SingleRoom()`: every socket is a member only of the room it is bound to.
- `Scenarios` drives two event sequences through the handlers:
  - Alice and Bob in one room. Bob sees the message under Alice's name, then
    "Alice left the room." with one user left.
  - A socket that joins room `a` and then room `b`. `socket.join` never leaves `a`, but
    `socket.data.roomId` is overwritten, so the disconnect handler refreshes only `b`.
    Afterwards room `a` says one user while its membership set is empty. `CountsCurrent()`
    is preserved by every handler except across such a re-join. This is why
    `JoinRoom`'s guarantee for `SingleRoom()` requires that the joiner is in no other room.

Inputs that the server takes from its environment are parameters:
- the fresh id from `uuidv4()`;
- the clock reading from `Date.now()`;
- the random index, which `Math.floor(Math.random() * n)` keeps in `[0, n)`.

Every handler runs as one atomic step, as on the JavaScript event loop.

## Model

| member | source | states |
|---|---|---|
| `Rooms.Truthy` | server.js:24 | `!!v`: `undefined` and `null` are false, objects and arrays are true, a boolean is itself, a number is true unless 0, a string is true unless empty |
| `Rooms.Present` | server.js:54 | an optional string field is truthy exactly when it is present and not empty (also the `!roomId` tests at lines 80 and 94) |
| `Wrappers.Option.GetOr` | server.js:19 | the destructuring default: a present field keeps its value, a missing one takes the default |
| `Rooms.NewRoom` | server.js:19-27 | the new record has the given id and clock reading and `usersCount` 0; a missing name becomes "Untitled Room", a missing `isPublic` means public, and any other `isPublic` is taken by JavaScript truthiness |
| `Chat.Server.CreateRoom` | server.js:18-30 | exactly the entry under the fresh id is set to the returned record, a new key goes last in insertion order, the directory grows by one for a fresh id, and the invariants and current counts are kept |
| `Rooms.SetKeepsWellFormed` | server.js:28 | `rooms.set` keeps the Map well formed: an existing key keeps its place, a new key is appended once |
| `Rooms.Snapshot` | server.js:34 | `Array.from(rooms.values())` (also at line 44) lists one room per key, in insertion order: entry `i` is the room stored under the `i`-th key |
| `Rooms.SnapshotHoldsDirectory` | server.js:34 | `Array.from(rooms.values())` holds exactly the directory's rooms, each once |
| `Rooms.PublicOnly` | server.js:35 | the filtered list holds exactly the public rooms of its input |
| `Rooms.PublicOnlyDistinct` | server.js:35 | filtering never makes two entries share an id |
| `Rooms.ConsDistinct` | server.js:35-37 | an entry with a new id can go in front of a list with distinct ids |
| `Rooms.Insert` | server.js:37 | inserting adds exactly the one element (multiset) |
| `Rooms.InsertMembers` | server.js:37 | after insertion the list holds the inserted element and the old ones, nothing else |
| `Rooms.InsertNewestFirst` | server.js:37 | insertion keeps a newest-first list newest first |
| `Rooms.InsertDistinct` | server.js:37 | inserting an entry with a new id keeps ids distinct |
| `Rooms.SortNewestFirst` | server.js:37 | the sorted list is a permutation of its input |
| `Rooms.SortMembers` | server.js:37 | sorting neither adds nor loses a room |
| `Rooms.SortIsNewestFirst` | server.js:36-37 | the sorted list is ordered by `createdAt`, newest first |
| `Rooms.SortDistinct` | server.js:37 | sorting keeps ids distinct |
| `Rooms.Project` | server.js:38 | a listing entry carries the room's id, name and count |
| `Rooms.ProjectAll` | server.js:38 | each output entry is `{id, name, usersCount}` of the input entry at the same position |
| `Rooms.ListingFacts` | server.js:34-37 | the sorted public rooms are directory rooms, public, include every public room, have distinct ids and are newest first |
| `Rooms.ListPublic` | server.js:33-40 | every entry is the projection of a public room of the directory, every public room appears, no id appears twice, and entries are ordered by `createdAt` non-increasing |
| `Rooms.RandomPublic` | server.js:43-48 | fails with "No public rooms available" exactly when no room is public; otherwise returns a room stored in the directory under its id that is public |
| `Rooms.EachPublicRoomHasOneDraw` | server.js:44-47 | the draw is a bijection onto the public rooms: every public room is returned by some draw `k < n`, and two different draws never return the same room, so a uniform draw picks each public room with probability `1/n` |
| `Rooms.OnlyPublicRoomIsPicked` | server.js:44-47 | with exactly one public room there is one admissible draw and it returns that room |
| `Rooms.ImplicitRoom` | server.js:57-58 | the room materialised on first join is private, untitled, empty and stamped with the clock reading |
| `Chat.JoinedText` | server.js:72 | the join announcement is the name followed by " joined the room." |
| `Chat.LeftText` | server.js:102 | the leave announcement is "<name> left the room.", with "A user" for a missing or empty name |
| `Chat.AuthorName` | server.js:78 | a message's author is the socket's name, or "Unknown" when it has none |
| `Chat.MembersOf` | server.js:65 | a room's membership set, or the empty set when socket.io has none for it (also at line 96) |
| `Chat.SessionOf` | server.js:61-62 | a socket's recorded data, as `join-room` sets it and the other handlers read it; a socket that never joined has neither name nor room |
| `Chat.Server.constructor` | server.js:15 | the service starts with no rooms, no members, no joined sockets and no events; all invariants hold |
| `Chat.Server.JoinRoom` | server.js:53-74 | a missing or empty room id or name changes nothing and emits nothing; otherwise an unknown room is first created private and untitled, the socket is added to the room's set, its name and room are recorded, only the room's `usersCount` changes and becomes the set's size (at least 1), and "<name> joined the room." with that count then `room-meta` with the updated room are emitted to the room |
| `Chat.JoinKeepsConsistent` | server.js:56-69 | after a join the directory stays well formed, every membership set belongs to a room, and every joined socket is bound to an existing room under a non-empty name |
| `Chat.RefreshKeepsCounts` | server.js:64-69 | writing one room's count back from its set keeps every room's count equal to its set's size |
| `Chat.JoinKeepsExclusive` | server.js:60-62 | a join by a socket that is in no other room keeps every socket in its bound room only |
| `Chat.Server.PostMessage` | server.js:77-88 | a socket bound to no room emits nothing; otherwise exactly one `chat-message` with the given id, the joined name, the client's text (missing when the client sent none) and the clock reading goes to its room; the `'Unknown'` author fallback never applies, because a bound socket always has its joined name; rooms, members and sockets are unchanged |
| `Chat.Drop` | server.js:96 | a closing socket is removed from every membership set and no set is added or removed |
| `Chat.Server.DropSocket` | server.js:96 | the membership sets become those with the closing socket removed |
| `Chat.DropKeepsOtherRooms` | server.js:93-97 | when every socket is in its bound room only, a closing socket changes only its bound room's set |
| `Chat.DropKeepsCounts` | server.js:93-101 | when every socket is in its bound room only and counts were current, removing a closing socket and refreshing its bound room's count (if it has one) leaves every room's count equal to its set's size |
| `Chat.Server.OnDisconnect` | server.js:91-105 | a socket bound to no room changes nothing and emits nothing; otherwise its room exists, only that room's `usersCount` changes and becomes its set's size, and "<name> left the room." (the `'A user'` fallback never applies, because a bound socket always has its joined name) with that count then `room-meta` are emitted; no room is ever removed |
| `Chat.Server.Disconnect` | server.js:91-105 | a closing socket leaves every set and its bound room is refreshed as above; when counts were current and sockets exclusive, both stay so |
| `Scenarios.AliceJoins` | server.js:53-74 | the first join of an unknown room creates it private and untitled with one user and emits the join message and `room-meta` |
| `Scenarios.BobJoins` | server.js:53-74 | a second socket joining raises the count to 2 and emits "Bob joined the room." with 2 |
| `Scenarios.AliceSaysHi` | server.js:77-88 | a message goes to the room under the sender's joined name and nothing else changes |
| `Scenarios.AliceLeaves` | server.js:91-105 | after the sender disconnects, the room is told "Alice left the room." with one user left |
| `Scenarios.TwoUsersInOneRoom` | server.js:53-105 | the full event log of two joins, one message and one disconnect in one room |
| `Scenarios.JoinTwoRooms` | server.js:60-62 | a socket that joins a second room stays a member of the first |
| `Scenarios.SecondJoinLeavesStaleCount` | server.js:60-101 | after joining two rooms and disconnecting, the first room keeps count 1 over an empty membership set |

## Left out

- Express, HTTP routing, CORS, static files, `res.json` and the 404 status (server.js:1-12, 29, 39, 45, 47, 108-109): transport. The endpoints' results and errors are return values.
- `uuidv4()`, `Date.now()` and `Math.random()`: these become parameters. The floating-point arithmetic of the random draw is not modelled. Only its range `[0, n)` is a precondition of `RandomPublic`.
- socket.io internals: each socket's own private room, emptied rooms being deleted from the adapter, and delivery of `io.to(room).emit` to the sockets in the room. An emission is recorded as `(room, payload)` in `log`. The membership sets are explicit state.
- When socket.io removes a closing socket from its rooms: `OnDisconnect` requires that this has already happened (socket.io does it before firing `disconnect`). `DropSocket` models that step, but the model does not prove it.
- A socket's lifetime: the model does not forbid events from a socket after it disconnected. socket.io never delivers them.
- Non-string JSON values: in the model, `name`, `roomId`, `username` and `text` are strings or missing. A `name`, `roomId`, `username` or `text` of another JSON type (`null`, a number, an object) is not modelled. `isPublic` is any JSON value except a fractional number; objects and arrays are modelled without their contents (`Obj`, `Arr`), which are always truthy. A payload that is not an object, which would make destructuring throw, is not modelled.
- Concurrency: the JavaScript event loop runs each handler to completion, so every handler is one atomic step.
- SortNewestFirst: ECMAScript's `Array.prototype.sort` is stable, and the insertion sort keeps equal `createdAt` values in snapshot order by construction. That stability is not stated as a proved property.
