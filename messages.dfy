/** The values the relay handles and the pure parts of the message handler
    and of the history query: validation (index.js, line 289), the stored
    file name (lines 280 to 282), the base64 part of a data URI (line 284) and
    the `/messages/:userId` query (lines 102 to 105). */
module Messages {
  import opened Optional
  import opened JsStrings

  /** What the token verifier yields: the claims `userId` and `username`. */
  datatype Identity = Identity(userId: string, username: string)

  /** The `file` member of an inbound message: a declared name and a data
      URI such as `data:image/png;base64,AAAA`. */
  datatype FileUpload = FileUpload(name: string, data: string)

  /** An inbound message after `JSON.parse`; absent members are `None`. */
  datatype Inbound = Inbound(recipient: Option<string>, text: Option<string>, file: Option<FileUpload>)

  /** A stored message; `sender` is `None` when the sending connection was
      never tagged. */
  datatype MessageRecord = MessageRecord(
    id: nat, sender: Option<string>, recipient: string,
    text: Option<string>, file: Option<string>, createdAt: nat)

  /** One `fs.writeFile` call: the stored name and the base64 text handed to
      `Buffer.from`. */
  datatype FileWrite = FileWrite(filename: string, base64: string)

  /** JavaScript truthiness of an optional string. */
  predicate TruthyOpt(o: Option<string>) {
    o.Some? && Truthy(o.value)
  }

  /** The test of line 289: `recipient && (text || file)`. Any `file` object
      is truthy. */
  predicate Accepts(m: Inbound) {
    TruthyOpt(m.recipient) && (TruthyOpt(m.text) || m.file.Some?)
  }

  /** `name.split(".").pop()`: the text after the last dot, or all of `name`. */
  function Extension(name: string): string {
    Last(Split(name, '.'))
  }

  /** The extension has no dot; it is the whole name when the name has no dot,
      and otherwise the part after the name's last dot. */
  lemma ExtensionSpec(name: string)
    ensures '.' !in Extension(name)
    ensures '.' !in name ==> Extension(name) == name
    ensures '.' in name ==> var ext := Extension(name);
      && |ext| < |name| && name[|name| - |ext| - 1] == '.' && name[|name| - |ext|..] == ext
  {
    var parts := Split(name, '.');
    JoinSplit(name, '.');
    if '.' !in name {
      SplitNoSeparator(name, '.');
    } else {
      assert |parts| >= 2;
      JoinLast(parts, '.');
      var front := Join(parts[..|parts| - 1], '.');
      assert name == front + ['.'] + Last(parts);
    }
  }

  /** Lines 280 to 282: `Date.now() + "." + extension`. */
  function StoredFilename(now: nat, name: string): string {
    Decimal(now) + "." + Extension(name)
  }

  /** The stored name keeps the upload's extension. */
  lemma StoredFilenameExtension(now: nat, name: string)
    ensures Extension(StoredFilename(now, name)) == Extension(name)
  {
    ExtensionSpec(name);
    SplitAround(Decimal(now), Extension(name), '.');
    SplitNoSeparator(Extension(name), '.');
  }

  /** Uploads at different milliseconds get different names; uploads in the
      same millisecond with the same extension get the same name. */
  lemma StoredFilenameDistinct(now1: nat, name1: string, now2: nat, name2: string)
    ensures StoredFilename(now1, name1) == StoredFilename(now2, name2) <==>
            now1 == now2 && Extension(name1) == Extension(name2)
  {
    var d1, d2 := Decimal(now1), Decimal(now2);
    var f1, f2 := StoredFilename(now1, name1), StoredFilename(now2, name2);
    if f1 == f2 {
      assert forall i :: 0 <= i < |d1| ==> f1[i] == d1[i];
      assert forall i :: 0 <= i < |d2| ==> f2[i] == d2[i];
      assert f1[|d1|] == '.' && f2[|d2|] == '.';
      assert |d1| == |d2|;
      assert d1 == f1[..|d1|] && d2 == f2[..|d2|];
      DecimalInjective(now1, now2);
      assert f1[|d1| + 1..] == Extension(name1);
      assert f2[|d2| + 1..] == Extension(name2);
    }
  }

  /** `data.split(",")[1]`: the text between the first and the second comma,
      or `None` (JavaScript's `undefined`) when there is no comma. */
  function DataPart(data: string): Option<string> {
    var parts := Split(data, ',');
    if |parts| >= 2 then Some(parts[1]) else None
  }

  /** There is a data part exactly when the data has a comma. */
  lemma DataPartNone(data: string)
    ensures DataPart(data).None? <==> ',' !in data
  {
    JoinSplit(data, ',');
    if ',' !in data {
      SplitNoSeparator(data, ',');
    }
  }

  /** For `header,payload` the data part is `payload`, and anything after a
      second comma is dropped. */
  lemma DataPartOfUri(header: string, payload: string, rest: Option<string>)
    requires ',' !in header && ',' !in payload
    ensures var uri := header + [','] + payload + (if rest.Some? then [','] + rest.value else "");
            DataPart(uri) == Some(payload)
  {
    SplitNoSeparator(header, ',');
    SplitNoSeparator(payload, ',');
    if rest.Some? {
      SplitAround(payload, rest.value, ',');
      SplitAround(header, payload + [','] + rest.value, ',');
      assert header + [','] + payload + ([','] + rest.value) == header + [','] + (payload + [','] + rest.value);
    } else {
      SplitAround(header, payload, ',');
      assert header + [','] + payload + "" == header + [','] + payload;
    }
  }

  /** The `file` value of the stored record and of the delivery payload:
      the generated name when a file came with the message (line 294). */
  function StoredName(m: Inbound, now: nat): Option<string> {
    if m.file.Some? then Some(StoredFilename(now, m.file.value.name)) else None
  }

  /** A file whose data has no comma makes `Buffer.from(undefined, "base64")`
      throw at line 284: the handler goes no further, so nothing is written,
      stored or sent. What becomes of the rejected promise is not modelled. */
  predicate Aborts(m: Inbound) {
    m.file.Some? && DataPart(m.file.value.data).None?
  }

  /** The `fs.writeFile` call of line 285, if the message makes one. */
  function WrittenFiles(m: Inbound, now: nat): seq<FileWrite> {
    if m.file.Some? && DataPart(m.file.value.data).Some?
    then [FileWrite(StoredFilename(now, m.file.value.name), DataPart(m.file.value.data).value)]
    else []
  }

  /** The record that `Message.create` stores for an accepted message. */
  function NewRecord(id: nat, sender: Option<string>, m: Inbound, now: nat): MessageRecord
    requires Accepts(m)
  {
    MessageRecord(id, sender, m.recipient.value, m.text, StoredName(m, now), now)
  }

  /** The filter of lines 103 and 104: sender and recipient both among the two
      users. */
  predicate InConversation(r: MessageRecord, a: string, b: string) {
    (r.sender == Some(a) || r.sender == Some(b)) && (r.recipient == a || r.recipient == b)
  }

  /** The stored messages that pass the filter, in store order. */
  function Conversation(store: seq<MessageRecord>, a: string, b: string): seq<MessageRecord> {
    if store == [] then []
    else
      var rest := Conversation(store[1..], a, b);
      if InConversation(store[0], a, b) then [store[0]] + rest else rest
  }

  predicate SortedByCreatedAt(s: seq<MessageRecord>) {
    forall i, j :: 0 <= i < j < |s| ==> s[i].createdAt <= s[j].createdAt
  }

  /** Insertion before the first later record. */
  function InsertByCreatedAt(r: MessageRecord, s: seq<MessageRecord>): seq<MessageRecord> {
    if s == [] then [r]
    else if r.createdAt <= s[0].createdAt then [r] + s
    else [s[0]] + InsertByCreatedAt(r, s[1..])
  }

  /** `.sort({ createdAt: 1 })`. */
  function SortByCreatedAt(s: seq<MessageRecord>): seq<MessageRecord> {
    if s == [] then [] else InsertByCreatedAt(s[0], SortByCreatedAt(s[1..]))
  }

  /** The `/messages/:userId` query for the user `currUserId` of the request's
      token. */
  function History(store: seq<MessageRecord>, userId: string, currUserId: string): seq<MessageRecord> {
    SortByCreatedAt(Conversation(store, userId, currUserId))
  }

  /** The filter keeps every matching record as often as it is stored and no
      other record. */
  lemma {:induction false} ConversationCounts(store: seq<MessageRecord>, a: string, b: string)
    ensures forall r :: multiset(Conversation(store, a, b))[r] ==
                        if InConversation(r, a, b) then multiset(store)[r] else 0
  {
    if store != [] {
      ConversationCounts(store[1..], a, b);
      assert store == [store[0]] + store[1..];
    }
  }

  /** The two users play symmetric parts. */
  lemma {:induction false} ConversationSymmetric(store: seq<MessageRecord>, a: string, b: string)
    ensures Conversation(store, a, b) == Conversation(store, b, a)
  {
    if store != [] {
      ConversationSymmetric(store[1..], a, b);
    }
  }

  /** A sorted list stays sorted behind a record no later than any of it. */
  lemma SortedCons(x: MessageRecord, t: seq<MessageRecord>)
    requires SortedByCreatedAt(t)
    requires forall y :: y in t ==> x.createdAt <= y.createdAt
    ensures SortedByCreatedAt([x] + t)
  {
    var u := [x] + t;
    forall i, j | 0 <= i < j < |u| ensures u[i].createdAt <= u[j].createdAt {
      assert u[j] == t[j - 1];
      if i > 0 {
        assert u[i] == t[i - 1];
      }
    }
  }

  /** Insertion adds the record and nothing else. */
  lemma {:induction false} InsertCount(r: MessageRecord, s: seq<MessageRecord>)
    ensures multiset(InsertByCreatedAt(r, s)) == multiset(s) + multiset{r}
  {
    if s != [] && r.createdAt > s[0].createdAt {
      InsertCount(r, s[1..]);
      assert s == [s[0]] + s[1..];
    }
  }

  lemma {:induction false} InsertSorted(r: MessageRecord, s: seq<MessageRecord>)
    requires SortedByCreatedAt(s)
    ensures SortedByCreatedAt(InsertByCreatedAt(r, s))
  {
    if s == [] {
    } else if r.createdAt <= s[0].createdAt {
      forall y | y in s ensures r.createdAt <= y.createdAt {
        var j :| 0 <= j < |s| && s[j] == y;
      }
      SortedCons(r, s);
    } else {
      var tail := s[1..];
      assert SortedByCreatedAt(tail);
      InsertSorted(r, tail);
      InsertCount(r, tail);
      var t := InsertByCreatedAt(r, tail);
      forall y | y in t ensures s[0].createdAt <= y.createdAt {
        assert y in multiset(t);
        if y != r {
          assert y in multiset(tail);
          var j :| 0 <= j < |tail| && tail[j] == y;
          assert s[j + 1] == y;
        }
      }
      SortedCons(s[0], t);
    }
  }

  lemma {:induction false} SortSorted(s: seq<MessageRecord>)
    ensures SortedByCreatedAt(SortByCreatedAt(s))
    ensures multiset(SortByCreatedAt(s)) == multiset(s)
  {
    if s != [] {
      SortSorted(s[1..]);
      InsertSorted(s[0], SortByCreatedAt(s[1..]));
      InsertCount(s[0], SortByCreatedAt(s[1..]));
      assert s == [s[0]] + s[1..];
    }
  }

  /** The history is sound, complete and ordered: it holds exactly the stored
      messages between the two users (self-addressed ones included), each as
      often as stored, from the oldest to the newest. */
  lemma HistorySpec(store: seq<MessageRecord>, userId: string, currUserId: string)
    ensures SortedByCreatedAt(History(store, userId, currUserId))
    ensures forall r :: multiset(History(store, userId, currUserId))[r] ==
                        if InConversation(r, userId, currUserId) then multiset(store)[r] else 0
    ensures forall r :: r in History(store, userId, currUserId) <==>
                        r in store && InConversation(r, userId, currUserId)
  {
    ConversationCounts(store, userId, currUserId);
    SortSorted(Conversation(store, userId, currUserId));
    var h := History(store, userId, currUserId);
    forall r ensures r in h <==> r in store && InConversation(r, userId, currUserId) {
      assert r in h <==> r in multiset(h);
      assert r in store <==> r in multiset(store);
    }
  }

  /** A stored message from a tagged sender shows in the history of the
      conversation between sender and recipient, whichever of them asks. */
  lemma AcceptedInHistory(store: seq<MessageRecord>, rec: MessageRecord)
    requires rec in store && rec.sender.Some?
    ensures rec in History(store, rec.recipient, rec.sender.value)
    ensures rec in History(store, rec.sender.value, rec.recipient)
  {
    HistorySpec(store, rec.recipient, rec.sender.value);
    HistorySpec(store, rec.sender.value, rec.recipient);
  }

  /** A message stored from a connection that was never tagged has no sender
      and so shows in no history at all. */
  lemma UntaggedNeverInHistory(store: seq<MessageRecord>, rec: MessageRecord, a: string, b: string)
    requires rec.sender.None?
    ensures rec !in History(store, a, b)
  {
    HistorySpec(store, a, b);
  }

  /** Either user asking gets the same history. */
  lemma HistorySymmetric(store: seq<MessageRecord>, a: string, b: string)
    ensures History(store, a, b) == History(store, b, a)
  {
    ConversationSymmetric(store, a, b);
  }
}
