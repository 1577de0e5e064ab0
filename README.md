# Chat relay: a Dafny model of the WebSocket server of a chat backend

The backend (`index.js`) is an Express application with a WebSocket server
attached to it. This project models the WebSocket part, lines 214 to 309,
and the conversation query `GET /messages/:userId` of lines 98 to 107,
which reads what the relay stores.

- **Connection identity** (lines 244 to 269). A new connection's upgrade
  request may carry a `Cookie` header. The header is split on `;` and each
  piece is trimmed. The first piece that starts with `token=` is taken, and
  the text after its first `=` is the token. A non-empty token is handed to
  the signature verifier. When the verifier accepts it, the connection is
  tagged with the `userId` and `username` claims.
- **Presence** (lines 216 to 225 and 271). One snapshot of every registered
  connection's `(userId, username)` is sent to every registered connection.
  This happens once per new connection and once per eviction. Untagged
  connections are in the snapshot too.
- **Heartbeat** (lines 227 to 242). Every interval tick pings the connection
  and arms a one-second death timer. A pong disarms the timer. When the timer
  fires, the connection is marked dead, its interval stops, it is terminated
  and presence is broadcast.
- **Relay** (lines 273 to 309).
  - If an inbound message carries a file, the file is named
    `<clock>.<extension>` and written. This happens before the message is
    validated.
  - A message with a recipient and a text or a file is stored. Its sender is
    the connection's `userId`.
  - A stored message is then sent to every registered connection whose
    `userId` is the recipient.
- **History** (lines 98 to 107). This returns the stored messages whose
  sender and recipient are both among the two users, oldest first.

Module layout:
- `Optional`: the `Option` type.
- `JsStrings`: the JavaScript string operations the code relies on. These
  are `trim`, one-character `split`, `startsWith`, `indexOf`, one-argument
  `substring`, `String(n)` and truthiness.
- `Cookie`: the token extraction, as a specification function and as the
  loop of the source.
- `Liveness`: the heartbeat of one connection as a pure state machine.
- `Messages`: the values handled, validation, file naming, the data part of
  a data URI and the history query.
- `Relay`: the classes `Connection` and `Server`, whose methods are the
  event handlers. They update the registry, the outbox of sent frames, the
  message store and the written files.

Each `Server` method is proved against specification functions of the
pure modules. For example, `ShowOnlineUsers` extends the outbox by
`Broadcast(clients, Snapshot(clients))`, and `Tick` moves the connection to
`Liveness.Step(old state, Tick).next`. The lemmas about those functions state
what the source promises: exactly-once delivery, at most one eviction, and a
history that is sound, complete and sorted.

Where the code and the system's design intentions differ, the model follows
the code:
- A message is delivered to every registered connection of the recipient,
  not to one of them.
- The presence snapshot lists untagged connections, with no `userId`.
- There is no `close` handler. When a client closes its socket, the `ws`
  library drops it from `wss.clients`, but nothing clears its interval and
  nothing broadcasts presence. The interval keeps pinging, no pong comes
  back, and the eviction of lines 231 to 237 is what broadcasts the
  change. Presence is broadcast only on connect (line 271) and on eviction.
  The model's `clients` keeps closed and terminated connections (see the
  `terminate()` line under "## Left out").
- A message from an untagged connection is stored with no sender, and it
  then appears in no history.

## Model

| member | source | states |
|---|---|---|
| JsStrings.TrimStartSpec | index.js:251 | the leading-white-space strip keeps a suffix, drops only white space, and leaves no white space at the front |
| JsStrings.TrimEndSpec | index.js:251 | the trailing-white-space strip keeps a prefix, drops only white space, and leaves no white space at the back |
| JsStrings.TrimSpec | index.js:251 | `trim` yields a contiguous slice `s[lo..hi]`; everything cut on either side is white space; the slice neither starts nor ends with white space |
| JsStrings.IndexOf | index.js:258 | the result is -1 exactly when the character is absent; otherwise it is the position of the first occurrence |
| JsStrings.Split | index.js:247 | `split` on one character yields at least one piece, and no piece contains the separator |
| JsStrings.JoinSplit | index.js:247 | joining the pieces of a split with the separator gives back the string |
| JsStrings.SplitJoin | index.js:247 | splitting the join of separator-free pieces gives back exactly those pieces |
| JsStrings.JoinLast | index.js:280-281 | a join of two or more pieces is the join of all but the last, the separator, then the last piece (what `pop` removes) |
| JsStrings.SplitNoSeparator | index.js:280-281 | a string without the separator splits into itself alone |
| JsStrings.SplitAround | index.js:280-284 | splitting `a + sep + b` is splitting `a`, then splitting `b` |
| JsStrings.Decimal | index.js:282 | `String(n)` of a clock reading is a non-empty string of decimal digits with no leading zero |
| JsStrings.DecimalRoundTrip | index.js:282 | reading the decimal digits back gives the number |
| JsStrings.DecimalInjective | index.js:282 | different clock readings give different decimal strings |
| Cookie.FirstTokenCookie | index.js:250-256 | what the scan finds starts with `token=` |
| Cookie.FirstTokenCookieIsFirst | index.js:250-256 | when piece `k` is the first whose trim starts with `token=`, the scan yields that trimmed piece |
| Cookie.FirstTokenCookieWitness | index.js:250-256 | whatever the scan finds is the trimmed form of the first matching piece |
| Cookie.FirstTokenCookieNone | index.js:250-257 | the scan finds nothing exactly when no trimmed piece starts with `token=` |
| Cookie.FindTokenCookie | index.js:247-256 | the `for` loop that stops at the first match computes the scan's specification |
| Cookie.AfterFirstEquals | index.js:258 | cutting a token cookie after its first `=` removes exactly the `token=` prefix; later `=` stay in the value |
| Cookie.ReadToken | index.js:245-260 | the token handed to the verifier is `ExtractToken` of the header: none without a header, a match or a non-empty value |
| Cookie.ExtractTokenFirstMatch | index.js:247-260 | the token is the value of the first matching piece, or none when that value is empty, whatever later pieces hold |
| Cookie.ExtractTokenSound | index.js:245-260 | a token is returned only for a non-empty header with a matching piece; it is that first piece's non-empty value |
| Cookie.ExtractTokenUnset | index.js:246-260 | no header, no matching piece, or a bare `token=` in the first matching piece each mean no verification |
| Liveness.Step | index.js:227-242 | one heartbeat event keeps a reachable state reachable and never revives a dead connection |
| Liveness.Run | index.js:227-242 | a run of events yields one effect per event, keeps the state reachable, and aliveness only ever goes from true to false |
| Liveness.DeadIsTerminal | index.js:231-235 | once evicted, every later event leaves the state unchanged and has no effect (no ping, no second eviction) |
| Liveness.EvictedOnce | index.js:231-237 | in any run there is at most one eviction, and exactly one if the connection ends dead after starting alive |
| Liveness.NothingAfterEviction | index.js:231-237 | after an eviction, the connection stays dead and every later event is quiet |
| Liveness.EvictionCause | index.js:229-242 | every eviction follows a ping whose timer no pong cleared, or a timer already armed at the start |
| Messages.ExtensionSpec | index.js:280-281 | the extension has no dot; it is the whole name if the name has no dot, otherwise the part after the last dot |
| Messages.StoredFilenameExtension | index.js:280-282 | the stored file name has the same extension as the upload |
| Messages.StoredFilenameDistinct | index.js:280-282 | two stored names are equal exactly when the clock readings are equal and the extensions are equal |
| Messages.DataPartNone | index.js:284 | `data.split(",")[1]` is undefined exactly when the data has no comma |
| Messages.DataPartOfUri | index.js:284 | for a data URI `header,payload[,rest]`, the written part is `payload` |
| Messages.ConversationCounts | index.js:102-104 | the query filter keeps each matching record as often as it is stored, and nothing else |
| Messages.ConversationSymmetric | index.js:102-104 | the filter does not depend on which of the two users asks |
| Messages.SortedCons | index.js:105 | a sorted list stays sorted behind a record no later than any of its elements |
| Messages.InsertCount | index.js:105 | inserting a record into a list adds exactly that record |
| Messages.InsertSorted | index.js:105 | insertion by `createdAt` keeps a list sorted |
| Messages.SortSorted | index.js:105 | the `createdAt` sort yields a sorted permutation of its input |
| Messages.HistorySpec | index.js:102-105 | the history is sorted by `createdAt`, holds each stored message between the two users as often as stored, and holds nothing else |
| Messages.AcceptedInHistory | index.js:102-105 | a stored message with a sender is in the history between sender and recipient, whichever of them asks |
| Messages.UntaggedNeverInHistory | index.js:102-104 | a message stored without a sender is in no history |
| Messages.HistorySymmetric | index.js:102-105 | both users of a conversation get the same history |
| Relay.SnapshotSpec | index.js:217-220 | the snapshot has one entry per registered connection, in order, holding its `userId` and `username` |
| Relay.BroadcastSpec | index.js:222-224 | the broadcast sends the one snapshot to each registered connection, in order |
| Relay.BroadcastCount | index.js:222-224 | each connection receives the presence frame as many times as it occurs in the registry |
| Relay.BroadcastExactlyOnce | index.js:222-224 | with a registry that is a set, every registered connection gets presence exactly once and any other connection none |
| Relay.DistinctOnce | index.js:214-215 | a connection of a registry that is a set occurs in it exactly once |
| Relay.FanoutSound | index.js:296-307 | every delivery goes to a registered connection whose `userId` equals the recipient and carries the payload |
| Relay.FanoutCount | index.js:296-307 | a connection receives the delivery as often as it is registered if its `userId` is the recipient, and otherwise never |
| Relay.DeliveredExactlyOnce | index.js:296-307 | with a registry that is a set, every registered connection of the recipient (the sender's own included, and evicted ones that are still registered) gets exactly one delivery, and no other connection gets one |
| Relay.CountToSnoc | index.js:296-307 | appending a frame changes a connection's count by one exactly when the frame is addressed to it |
| Relay.FanoutSnocCount | index.js:296-307 | registering one more connection adds to the fan-out count only for that connection, and only if it is the recipient |
| Relay.Connection.constructor | index.js:227-229 | a new connection has no identity, zero pings, and starts alive with its interval running and no death timer |
| Relay.Server.constructor | index.js:214 | the server starts with no clients, no frames sent, an empty store, no files and a valid state |
| Relay.Server.ShowOnlineUsers | index.js:216-225 | the outbox grows by the broadcast of the current snapshot to every client; no connection changes |
| Relay.Server.Tag | index.js:261-266 | the verifier callback sets the connection's `userId` and `username` and leaves its heartbeat unchanged |
| Relay.Server.Admit | index.js:215-229 | a fresh, untagged connection with the initial heartbeat state is appended to the registry |
| Relay.Server.Connect | index.js:215-271 | the new connection is registered and tagged with the verifier's identity for `ExtractToken(cookie)`, or stays untagged; presence is then broadcast to every client, the new one included |
| Relay.Server.Tick | index.js:229-231 | the interval firing moves the connection by `Step(…, Tick)` and pings it once if the interval is still running |
| Relay.Server.Pong | index.js:240-242 | a pong moves the connection by `Step(…, Pong)`: the death timer is disarmed and nothing else changes |
| Relay.Server.DeathFire | index.js:231-237 | an armed death timer evicts by `Step(…, DeathFire)` and broadcasts presence; a disarmed one changes nothing |
| Relay.Server.SaveFile | index.js:279-288 | the file name is `String(now) + "." + extension`; the data part is written exactly when the data has a comma |
| Relay.Server.Deliver | index.js:296-307 | the outbox grows by exactly the fan-out of the payload to the recipient's connections, in registry order |
| Relay.Server.OnMessage | index.js:273-309 | the file is written before validation; a message aborts exactly when its file data has no comma; it is rejected exactly when it fails `recipient && (text \|\| file)`; otherwise the record is appended with the next id and the connection's `userId` as sender, and fanned out to the recipient; nothing else changes |

## Left out

- HTTP routes other than `/messages/:userId` are not part of this model. These are `/api/flash-messages`, `/joke`, `/quote`, `/tarot`, `/people`, `/profile`, `/login`, `/logout`, `/register` and the static files under `/files`.
- The JWT internals are left out. The verifier is a parameter `verify: string -> Option<Identity>`, and it is applied synchronously before the snapshot of line 271. `None` stands for a rejected token. The source's `throw` on a verifier error (line 262) is modelled as leaving the connection untagged. The crash of the process that the throw would cause is not modelled.
- `fetchUserDataFromToken` in the history route (line 100) is left out: `History` takes the requester's `userId` as an argument.
- Real time is left out. The interval and the death timer are events (`Tick`, `DeathFire`), so their periods of 5000 and 1000 ms are not modelled.
- A `Tick` while a death timer is still pending overwrites `deathTimer` in the source and would leave the older timeout running. The 1000 ms and 5000 ms periods rule this out, and the model keeps a single armed flag.
- `connection.ping()` is only counted (`pings`). Ping frames and the `ws` library are not modelled.
- `terminate()` is only recorded (`terminated`). The library removes a closed socket from `wss.clients`, and the model does not: closed and terminated connections stay in `clients`, so later snapshots, broadcasts and fan-outs still include them.
- OnMessage, Aborts: the end of the message handler's error paths is left out. The handler is `async` (line 273), so the `Buffer.from(undefined, "base64")` throw at line 284 and a failed `Message.create` at line 290 become unhandled promise rejections. Depending on the Node version these end the process or only log a warning. The model returns `Aborted` for the first and the server carries on. It has no path where the store fails.
- Interleaving at the `await Message.create` of line 290 is left out. Each handler runs to completion as one step.
- `JSON.parse` and `JSON.stringify` are left out. Of the inbound fields, `recipient` and `text` are modelled as optional strings and `file` as an optional pair of strings (`name`, `data`). So non-string JSON values and a parse error are left out too. Frames are datatype values.
- `Buffer.from` base64 decoding and the `fs.writeFile` of the buffer are left out. A written file is recorded as its name and base64 text. A write that fails is not modelled.
- `file.name` and `file.data` are modelled as always strings. A missing or non-string `name`, which would throw at line 280, is left out. So is a missing or non-string `data`, which would throw at `file.data.split` on line 284.
- `Date.now()` is the parameter `now`. It is used for both the file name and `createdAt`, as one clock reading.
- MongoDB `_id` values are modelled as a counter `nextId`.
- `SortByCreatedAt` keeps equal `createdAt` in store order. MongoDB gives no order for ties.
- `console.log` output is left out.

