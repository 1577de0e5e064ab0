/** The WebSocket side of the server (index.js, lines 214 to 310): the
    registry `wss.clients`, presence broadcasts, the per-connection
    heartbeat and the message handler. Every `send` call is recorded in an
    outbox, every `fs.writeFile` call in a files log, and the message
    collection is an in-memory store with a counter for fresh ids. */
module Relay {
  import opened Optional
  import opened JsStrings
  import opened Cookie
  import opened Messages
  import Liveness

  /** One entry of the presence payload; an untagged client has `None` in
      both places (JavaScript's `undefined`). */
  datatype Presence = Presence(userId: Option<string>, username: Option<string>)

  /** What `client.send` is given, before `JSON.stringify`. */
  datatype Payload =
    | Online(online: seq<Presence>)
    | Delivery(text: Option<string>, sender: Option<string>, recipient: string, file: Option<string>, id: nat)

  /** One `client.send` call. */
  datatype Send = Send(to: Connection, payload: Payload)

  /** How the message handler ended. */
  datatype RelayOutcome = Rejected | Stored(id: nat) | Aborted

  /** A WebSocket connection with the fields the handler puts on it. */
  class Connection {
    var userId: Option<string>
    var username: Option<string>
    var isAlive: bool
    var intervalActive: bool
    var deathArmed: bool
    var terminated: bool
    var pings: nat

    /** Lines 227 to 238: a new connection is alive, its interval runs, no
        death timer is armed and no identity is attached yet. */
    constructor ()
      ensures userId == None && username == None
      ensures State() == Liveness.Initial && pings == 0
    {
      userId, username := None, None;
      isAlive, intervalActive, deathArmed, terminated := true, true, false, false;
      pings := 0;
    }

    /** The heartbeat state of this connection. */
    function State(): Liveness.LiveState
      reads this
    {
      Liveness.LiveState(isAlive, intervalActive, deathArmed, terminated)
    }
  }

  predicate Distinct(cs: seq<Connection>) {
    forall i, j :: 0 <= i < j < |cs| ==> cs[i] != cs[j]
  }

  /** Lines 217 to 220: every client, in iteration order, projected to its
      identity. */
  function Snapshot(cs: seq<Connection>): seq<Presence>
    reads cs
  {
    if cs == [] then [] else [Presence(cs[0].userId, cs[0].username)] + Snapshot(cs[1..])
  }

  /** The sends of lines 222 to 224: the same presence payload to each client,
      in order. */
  function Broadcast(cs: seq<Connection>, snap: seq<Presence>): seq<Send> {
    if cs == [] then [] else Broadcast(cs[..|cs| - 1], snap) + [Send(Last(cs), Online(snap))]
  }

  /** The snapshot has one entry per registered client, in order, tagged or
      not, and each entry is that client's `userId` and `username`. */
  lemma {:induction false} SnapshotSpec(cs: seq<Connection>)
    ensures |Snapshot(cs)| == |cs|
    ensures forall i :: 0 <= i < |cs| ==> Snapshot(cs)[i] == Presence(cs[i].userId, cs[i].username)
  {
    if cs != [] {
      SnapshotSpec(cs[1..]);
      assert forall i :: 1 <= i < |cs| ==> cs[i] == cs[1..][i - 1];
    }
  }

  /** The broadcast sends the identical payload once to each registered
      client, in order. */
  lemma {:induction false} BroadcastSpec(cs: seq<Connection>, snap: seq<Presence>)
    ensures |Broadcast(cs, snap)| == |cs|
    ensures forall i :: 0 <= i < |cs| ==> Broadcast(cs, snap)[i] == Send(cs[i], Online(snap))
  {
    if cs != [] {
      BroadcastSpec(cs[..|cs| - 1], snap);
    }
  }

  /** The sends of the loop of lines 296 to 307: the payload to every client
      whose `userId` is the recipient, in order. */
  function Fanout(cs: seq<Connection>, recipient: string, p: Payload): seq<Send>
    reads cs
  {
    if cs == [] then []
    else
      Fanout(cs[..|cs| - 1], recipient, p)
      + (if Last(cs).userId == Some(recipient) then [Send(Last(cs), p)] else [])
  }

  /** The delivery payload of lines 298 to 304 for a stored record. */
  function DeliveryOf(rec: MessageRecord): Payload {
    Delivery(rec.text, rec.sender, rec.recipient, rec.file, rec.id)
  }

  /** How many of the sends go to `c`. */
  function CountTo(sends: seq<Send>, c: Connection): nat {
    if sends == [] then 0
    else CountTo(sends[..|sends| - 1], c) + (if Last(sends).to == c then 1 else 0)
  }

  /** In a list without repeats every element occurs once. */
  lemma {:induction false} DistinctOnce(cs: seq<Connection>, i: nat)
    requires Distinct(cs) && i < |cs|
    ensures multiset(cs)[cs[i]] == 1
  {
    var front := cs[..|cs| - 1];
    assert cs == front + [Last(cs)];
    if i < |cs| - 1 {
      DistinctOnce(front, i);
    } else {
      assert cs[i] !in front;
    }
  }

  /** Every fan-out send carries the payload to a registered client whose
      `userId` is the recipient. */
  lemma {:induction false} FanoutSound(cs: seq<Connection>, recipient: string, p: Payload)
    ensures forall k :: 0 <= k < |Fanout(cs, recipient, p)| ==>
      var s := Fanout(cs, recipient, p)[k];
      s.payload == p && s.to in cs && s.to.userId == Some(recipient)
  {
    if cs != [] {
      var front: seq<Connection> := cs[..|cs| - 1];
      FanoutSound(front, recipient, p);
      assert forall c :: c in front ==> c in cs;
    }
  }

  /** Appending a send adds one to the count of its addressee only. */
  lemma CountToSnoc(sends: seq<Send>, x: Send, c: Connection)
    ensures CountTo(sends + [x], c) == CountTo(sends, c) + (if x.to == c then 1 else 0)
  {
    assert (sends + [x])[..|sends|] == sends;
  }

  /** Registering one more client adds one to its own multiplicity only. */
  lemma MultisetSnoc(front: seq<Connection>, last: Connection, c: Connection)
    ensures multiset(front + [last])[c] == multiset(front)[c] + (if last == c then 1 else 0)
  {
  }

  /** One more client adds at most one send, to that client. */
  lemma FanoutSnocCount(cs: seq<Connection>, recipient: string, p: Payload, c: Connection)
    requires cs != []
    ensures CountTo(Fanout(cs, recipient, p), c) ==
            CountTo(Fanout(cs[..|cs| - 1], recipient, p), c) + (if Last(cs) == c && c.userId == Some(recipient) then 1 else 0)
  {
    var ff := Fanout(cs[..|cs| - 1], recipient, p);
    if Last(cs).userId == Some(recipient) {
      CountToSnoc(ff, Send(Last(cs), p), c);
    } else {
      assert ff + [] == ff;
    }
  }

  /** Each client gets one fan-out send per time it is registered if its
      `userId` is the recipient, and none otherwise: every match, not the
      first. */
  lemma {:induction false} FanoutCount(cs: seq<Connection>, recipient: string, p: Payload, c: Connection)
    ensures CountTo(Fanout(cs, recipient, p), c) == if c.userId == Some(recipient) then multiset(cs)[c] else 0
  {
    if cs != [] {
      var front: seq<Connection> := cs[..|cs| - 1];
      FanoutCount(front, recipient, p, c);
      FanoutSnocCount(cs, recipient, p, c);
      MultisetSnoc(front, Last(cs), c);
      assert cs == front + [Last(cs)];
    }
  }

  /** Each registered client gets one copy of the presence payload per time it
      is registered. */
  lemma {:induction false} BroadcastCount(cs: seq<Connection>, snap: seq<Presence>, c: Connection)
    ensures CountTo(Broadcast(cs, snap), c) == multiset(cs)[c]
  {
    if cs != [] {
      var front: seq<Connection> := cs[..|cs| - 1];
      BroadcastCount(front, snap, c);
      assert cs == front + [Last(cs)];
      var b := Broadcast(cs, snap);
      assert b[..|b| - 1] == Broadcast(front, snap);
    }
  }

  /** With a registry that is a set, every client whose `userId` is the
      recipient, the sender included, gets exactly one delivery and every
      other client none; a connection outside the registry gets none. */
  lemma DeliveredExactlyOnce(cs: seq<Connection>, recipient: string, p: Payload, c: Connection)
    requires Distinct(cs)
    ensures CountTo(Fanout(cs, recipient, p), c) == if c in cs && c.userId == Some(recipient) then 1 else 0
  {
    FanoutCount(cs, recipient, p, c);
    if c in cs {
      var i :| 0 <= i < |cs| && cs[i] == c;
      DistinctOnce(cs, i);
    }
  }

  /** With a registry that is a set, every registered client gets the
      presence payload exactly once. */
  lemma BroadcastExactlyOnce(cs: seq<Connection>, snap: seq<Presence>, c: Connection)
    requires Distinct(cs)
    ensures CountTo(Broadcast(cs, snap), c) == if c in cs then 1 else 0
  {
    BroadcastCount(cs, snap, c);
    if c in cs {
      var i :| 0 <= i < |cs| && cs[i] == c;
      DistinctOnce(cs, i);
    }
  }

  /** The server: `wss.clients` and the effects of the handlers on the world. */
  class Server {
    var clients: seq<Connection>
    var outbox: seq<Send>
    var store: seq<MessageRecord>
    var files: seq<FileWrite>
    var nextId: nat

    /** The registry is a set, every connection is in a reachable heartbeat
        state, and the store's ids are increasing and below the counter. */
    ghost predicate Valid()
      reads this, clients
    {
      && Distinct(clients)
      && (forall i :: 0 <= i < |clients| ==> Liveness.Valid(clients[i].State()))
      && (forall i :: 0 <= i < |store| ==> store[i].id < nextId)
      && (forall i, j :: 0 <= i < j < |store| ==> store[i].id < store[j].id)
    }

    constructor ()
      ensures Valid()
      ensures clients == [] && outbox == [] && store == [] && files == [] && nextId == 0
    {
      clients, outbox, store, files, nextId := [], [], [], [], 0;
    }

    /** `showOnlineUsers` (lines 216 to 225): one snapshot, sent to every
        client; no client changes. */
    method ShowOnlineUsers()
      requires Valid()
      modifies this`outbox
      ensures Valid()
      ensures outbox == old(outbox) + Broadcast(clients, Snapshot(clients))
    {
      var onlineUsers := Snapshot(clients);
      var i := 0;
      while i < |clients|
        invariant 0 <= i <= |clients|
        invariant outbox == old(outbox) + Broadcast(clients[..i], onlineUsers)
      {
        assert clients[..i + 1][..i] == clients[..i];
        outbox := outbox + [Send(clients[i], Online(onlineUsers))];
        i := i + 1;
      }
      assert clients[..i] == clients;
    }

    /** The verifier's callback (lines 263 to 265): attach the identity. */
    method Tag(connection: Connection, userData: Identity)
      requires Valid() && connection in clients
      modifies connection
      ensures Valid()
      ensures connection.userId == Some(userData.userId) && connection.username == Some(userData.username)
      ensures connection.State() == old(connection.State()) && connection.pings == old(connection.pings)
    {
      connection.userId := Some(userData.userId);
      connection.username := Some(userData.username);
    }

    /** A new connection enters `wss.clients` with its heartbeat started
        (lines 215 and 227 to 238). */
    method Admit() returns (connection: Connection)
      requires Valid()
      modifies this`clients
      ensures Valid() && fresh(connection)
      ensures clients == old(clients) + [connection]
      ensures connection.State() == Liveness.Initial && connection.pings == 0
      ensures connection.userId == None && connection.username == None
    {
      connection := new Connection();
      clients := clients + [connection];
    }

    /** The `connection` handler up to line 271: register the connection,
        start its heartbeat, verify the cookie token if there is one (the
        verifier is `verify`; `None` is a rejected token) and broadcast
        presence. */
    method Connect(cookies: Option<string>, verify: string -> Option<Identity>)
      returns (connection: Connection, token: Option<string>)
      requires Valid()
      modifies this`clients, this`outbox
      ensures Valid() && fresh(connection)
      ensures clients == old(clients) + [connection]
      ensures connection.State() == Liveness.Initial && connection.pings == 0
      ensures token == ExtractToken(cookies)
      ensures var userData := if token.Some? then verify(token.value) else None;
              && connection.userId == (if userData.Some? then Some(userData.value.userId) else None)
              && connection.username == (if userData.Some? then Some(userData.value.username) else None)
      ensures outbox == old(outbox) + Broadcast(clients, Snapshot(clients))
    {
      connection := Admit();
      token := ReadToken(cookies);
      if token.Some? {
        var userData := verify(token.value);
        if userData.Some? {
          Tag(connection, userData.value);
        }
      }
      ShowOnlineUsers();
    }

    /** The interval of line 229 firing: ping and arm the death timer. A
        cleared interval does not fire. */
    method Tick(connection: Connection)
      requires Valid() && connection in clients
      modifies connection
      ensures Valid()
      ensures connection.State() == Liveness.Step(old(connection.State()), Liveness.Tick).next
      ensures connection.pings == old(connection.pings) + (if old(connection.intervalActive) then 1 else 0)
      ensures connection.userId == old(connection.userId) && connection.username == old(connection.username)
    {
      if connection.intervalActive {
        connection.pings := connection.pings + 1;
        connection.deathArmed := true;
      }
    }

    /** Lines 240 to 242: a pong clears the death timer and nothing else. */
    method Pong(connection: Connection)
      requires Valid() && connection in clients
      modifies connection
      ensures Valid()
      ensures connection.State() == Liveness.Step(old(connection.State()), Liveness.Pong).next
      ensures !connection.deathArmed && connection.isAlive == old(connection.isAlive)
      ensures connection.pings == old(connection.pings)
      ensures connection.userId == old(connection.userId) && connection.username == old(connection.username)
    {
      connection.deathArmed := false;
    }

    /** The timeout of lines 231 to 237 firing: mark the connection dead,
        stop its interval, terminate it and broadcast presence. A cleared
        timeout does not fire. */
    method DeathFire(connection: Connection)
      requires Valid() && connection in clients
      modifies connection, this`outbox
      ensures Valid()
      ensures connection.State() == Liveness.Step(old(connection.State()), Liveness.DeathFire).next
      ensures old(connection.deathArmed) ==> !connection.isAlive && !connection.intervalActive && connection.terminated
      ensures connection.pings == old(connection.pings)
      ensures connection.userId == old(connection.userId) && connection.username == old(connection.username)
      ensures outbox == old(outbox) + (if old(connection.deathArmed) then Broadcast(clients, Snapshot(clients)) else [])
    {
      if connection.deathArmed {
        connection.isAlive := false;
        connection.intervalActive := false;
        connection.deathArmed := false;
        connection.terminated := true;
        ShowOnlineUsers();
      }
    }

    /** Lines 279 to 288 for a message with a file: name the file after the
        clock and the upload's extension and write the data part of the URI.
        `ok` is false when the data has no comma and `Buffer.from` throws. */
    method SaveFile(file: FileUpload, now: nat) returns (filename: string, ok: bool)
      modifies this`files
      ensures filename == StoredFilename(now, file.name)
      ensures ok <==> DataPart(file.data).Some?
      ensures files == old(files) + (if ok then [FileWrite(filename, DataPart(file.data).value)] else [])
    {
      var splitFile := Split(file.name, '.');
      var extension := Last(splitFile);
      filename := Decimal(now) + "." + extension;
      var data := DataPart(file.data);
      ok := data.Some?;
      if ok {
        files := files + [FileWrite(filename, data.value)];
      }
    }

    /** The loop of lines 296 to 307: send the payload to every client whose
        `userId` is the recipient. */
    method Deliver(recipient: string, messagePayload: Payload)
      modifies this`outbox
      ensures outbox == old(outbox) + Fanout(clients, recipient, messagePayload)
    {
      var i := 0;
      while i < |clients|
        invariant 0 <= i <= |clients|
        invariant outbox == old(outbox) + Fanout(clients[..i], recipient, messagePayload)
      {
        assert clients[..i + 1][..i] == clients[..i];
        if clients[i].userId == Some(recipient) {
          outbox := outbox + [Send(clients[i], messagePayload)];
        }
        i := i + 1;
      }
      assert clients[..i] == clients;
    }

    /** The `message` handler (lines 273 to 309) for the parsed message `msg`
        from `connection`, with `now` the clock reading. The file is written
        before the message is validated; a valid message is stored whether or
        not anyone receives it, and is then sent to every client whose
        `userId` is the recipient. */
    method OnMessage(connection: Connection, msg: Inbound, now: nat) returns (outcome: RelayOutcome)
      requires Valid()
      modifies this`store, this`files, this`outbox, this`nextId
      ensures Valid()
      ensures files == old(files) + WrittenFiles(msg, now)
      ensures outcome == Aborted <==> Aborts(msg)
      ensures outcome == Rejected <==> !Aborts(msg) && !Accepts(msg)
      ensures outcome.Stored? ==>
        var rec := NewRecord(old(nextId), connection.userId, msg, now);
        && outcome.id == old(nextId) && nextId == old(nextId) + 1
        && store == old(store) + [rec]
        && outbox == old(outbox) + Fanout(clients, rec.recipient, DeliveryOf(rec))
      ensures !outcome.Stored? ==> store == old(store) && outbox == old(outbox) && nextId == old(nextId)
    {
      var filename: Option<string> := None;
      if msg.file.Some? {
        var name, ok := SaveFile(msg.file.value, now);
        if !ok {
          return Aborted;
        }
        filename := Some(name);
      }
      if TruthyOpt(msg.recipient) && (TruthyOpt(msg.text) || msg.file.Some?) {
        var newMessage := MessageRecord(nextId, connection.userId, msg.recipient.value, msg.text, filename, now);
        store := store + [newMessage];
        nextId := nextId + 1;
        Deliver(newMessage.recipient, DeliveryOf(newMessage));
        outcome := Stored(newMessage.id);
      } else {
        outcome := Rejected;
      }
    }
  }
}
