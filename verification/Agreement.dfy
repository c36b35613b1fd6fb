// The in-memory store and the database behind the same service: ids come from ShortenURL, and
// every deletion is flushed before the next call.
module Agreement {
  import opened Types
  import opened Base64
  import opened Database
  import opened WriteBehind
  import opened WriteBehindRuns
  import Handlers

  datatype Backends = Backends(mem: Data, db: Db)

  // Both hold the same entries and nothing is queued.
  ghost predicate Agree(s: Backends) {
    && s.mem == s.db.rows && Keyed(s.mem)
    && !s.db.failed && s.db.buf == [] && !s.db.typed
  }

  lemma {:induction false} IdCharCount(q: seq<Sextet>)
    ensures CharCount(Digits(q)) == |q|
  {
    if q == [] {
    } else {
      IdCharCount(q[1..]);
      assert Digits(q)[1..] == Digits(q[1..]);
    }
  }

  // What the database asks of a store beyond the conflict: the URL has at most 75 bytes, the
  // owner's id at most 38 characters, and a new row's owner is a known user.
  predicate Accepts(s: Backends, url: ByteString, userID: string) {
    |url| <= 75 && CharCount(userID) <= 38 && (userID in s.db.users || Encode(url) in s.mem)
  }

  // A clash of ids is a clash of urls.
  lemma IdClashIsUrlClash(data: Data, url: ByteString)
    requires Keyed(data)
    ensures Encode(url) in data <==> HasUrl(data, url)
  {
    if HasUrl(data, url) {
      var k :| k in data && data[k].url == url;
      assert Encode(url) == k;
    }
    if Encode(url) in data {
      var k := Encode(url);
      Injective(data[k].url, url);
      assert data[k].url == url;
    }
  }

  // StoreURL answers alike on both backends exactly when the database accepts the row.
  lemma StoreAgrees(s: Backends, url: ByteString, userID: string)
    requires Agree(s)
    ensures var m := StoreEntry(s.mem, Encode(url), url, userID);
            var d := Insert(s.db.rows, s.db.users, Encode(url), url, userID);
            && (m.1 == d.1 <==> Accepts(s, url, userID))
            && (m.1 == d.1 ==> m.0 == d.0 && Keyed(m.0))
  {
    IdClashIsUrlClash(s.mem, url);
    IdCharCount(Sextets(url));
    FitsColumn(url);
  }

  // A deletion flushed at once is the memory's deletion, and the storages stay in step, exactly
  // when the server answers and runs the statement: for a list of 1 to 32767 ids. Otherwise the
  // writer breaks and the rows stay as they were.
  lemma DeleteAgrees(c: Codec, s: Backends, userID: string, ids: seq<string>, up: bool)
    requires Agree(s)
    ensures var db := Flush(c, Delete(c, s.db, userID, ids, up), up);
            && (Agree(Backends(MarkDeleted(s.mem, userID, ids), db)) <==>
                up && 0 < |ids| <= 32767)
            && (if up && 0 < |ids| <= 32767 then db.rows == MarkDeleted(s.mem, userID, ids)
                else db.failed && db.rows == s.mem)
  {
    MarkItems(s.mem, userID, ids);
    if Room(c, s.db, Items(userID, ids)) <= CAPACITY {
      BufferedDelete(c, s, userID, ids, up);
    } else {
      OverflowEmpty(c, s.db, userID, ids, up);
    }
    DeletedKeyed(s.mem, userID, ids);
  }

  lemma DeletedKeyed(data: Data, userID: string, ids: seq<string>)
    requires Keyed(data)
    ensures Keyed(MarkDeleted(data, userID, ids))
    ensures ids == [] ==> MarkDeleted(data, userID, ids) == data
  {
  }

  lemma BufferedDelete(c: Codec, s: Backends, userID: string, ids: seq<string>, up: bool)
    requires Agree(s) && Room(c, s.db, Items(userID, ids)) <= CAPACITY
    ensures 2 * |ids| <= MAX_PARAMETERS
    ensures var db := Flush(c, Delete(c, s.db, userID, ids, up), up);
            if !up || ids == [] then db.failed && db.rows == s.mem
            else db == s.db.(rows := MarkQueued(s.mem, Items(userID, ids)))
  {
    var its := Items(userID, ids);
    OneBatch(its);
    DeleteQueues(c, s.db, [], userID, ids, up);
    assert [] + [its] == [its];
    FlushOutcome(c, Delete(c, s.db, userID, ids, up), [its], up);
  }

  // makeLong answers alike for every id.
  lemma MakeLongAgrees(s: Backends, id: string)
    requires Agree(s)
    ensures Handlers.MakeLong(LoadEntry(s.mem, id)) == Handlers.MakeLong(Select(s.db.rows, id))
  {
  }

  // ---- Runs ----

  datatype Call =
    | Shorten(url: ByteString, userID: string)
    | Remove(userID: string, ids: seq<string>)
    | Visit(id: string)

  datatype Reply = Stores(result: StoreResult) | Accepted | Answers(response: Handlers.Response)

  function OnMemory(mem: Data, call: Call): (Data, Reply) {
    match call
    case Shorten(url, user) => var r := StoreEntry(mem, Encode(url), url, user); (r.0, Stores(r.1))
    case Remove(user, ids) => (MarkDeleted(mem, user, ids), Accepted)
    case Visit(id) => (mem, Answers(Handlers.MakeLong(LoadEntry(mem, id))))
  }

  function OnDatabase(c: Codec, db: Db, call: Call): (r: (Db, Reply))
    requires |db.buf| <= CAPACITY
    ensures |r.0.buf| <= CAPACITY
  {
    match call
    case Shorten(url, user) =>
      var r := Insert(db.rows, db.users, Encode(url), url, user); (db.(rows := r.0), Stores(r.1))
    case Remove(user, ids) => (Flush(c, Delete(c, db, user, ids, true), true), Accepted)
    case Visit(id) => (db, Answers(Handlers.MakeLong(Select(db.rows, id))))
  }

  // What the database asks of a call, its server being up.
  predicate Usual(s: Backends, call: Call) {
    match call
    case Shorten(url, user) => Accepts(s, url, user)
    case Remove(_, ids) => 0 < |ids| <= 32767
    case Visit(_) => true
  }

  function Next(c: Codec, s: Backends, call: Call): (r: Backends)
    requires |s.db.buf| <= CAPACITY
    ensures |r.db.buf| <= CAPACITY
  {
    Backends(OnMemory(s.mem, call).0, OnDatabase(c, s.db, call).0)
  }

  predicate AllUsual(c: Codec, s: Backends, calls: seq<Call>)
    requires |s.db.buf| <= CAPACITY
    decreases |calls|
  {
    calls == [] || (Usual(s, calls[0]) && AllUsual(c, Next(c, s, calls[0]), calls[1..]))
  }

  function MemoryReplies(mem: Data, calls: seq<Call>): seq<Reply>
    decreases |calls|
  {
    if calls == [] then []
    else var r := OnMemory(mem, calls[0]); [r.1] + MemoryReplies(r.0, calls[1..])
  }

  function DatabaseReplies(c: Codec, db: Db, calls: seq<Call>): seq<Reply>
    requires |db.buf| <= CAPACITY
    decreases |calls|
  {
    if calls == [] then []
    else var r := OnDatabase(c, db, calls[0]); [r.1] + DatabaseReplies(c, r.0, calls[1..])
  }

  // Exactly the usual calls are answered alike and leave the storages in step.
  lemma UsualExact(c: Codec, s: Backends, call: Call)
    requires Agree(s)
    ensures Usual(s, call) <==> OnMemory(s.mem, call).1 == OnDatabase(c, s.db, call).1 && Agree(Next(c, s, call))
  {
    match call
    case Shorten(url, user) => StoreAgrees(s, url, user);
    case Remove(user, ids) => DeleteAgrees(c, s, user, ids, true);
    case Visit(id) => MakeLongAgrees(s, id);
  }

  // Over every run of such calls the two backends give the same replies.
  lemma {:induction false} BackendsAgree(c: Codec, s: Backends, calls: seq<Call>)
    requires Agree(s) && AllUsual(c, s, calls)
    ensures MemoryReplies(s.mem, calls) == DatabaseReplies(c, s.db, calls)
    decreases |calls|
  {
    if calls == [] {
    } else {
      UsualExact(c, s, calls[0]);
      BackendsAgree(c, Next(c, s, calls[0]), calls[1..]);
    }
  }

  lemma OneReply(mem: Data, call: Call, rest: seq<Call>)
    ensures MemoryReplies(mem, [call] + rest) == [OnMemory(mem, call).1] + MemoryReplies(OnMemory(mem, call).0, rest)
  {
    assert ([call] + rest)[1..] == rest;
  }

  lemma FourReplies(mem: Data, a: Call, b: Call, d: Call, e: Call)
    ensures var m1 := OnMemory(mem, a).0; var m2 := OnMemory(m1, b).0; var m3 := OnMemory(m2, d).0;
            MemoryReplies(mem, [a, b, d, e]) ==
            [OnMemory(mem, a).1, OnMemory(m1, b).1, OnMemory(m2, d).1, OnMemory(m3, e).1]
  {
    var m1 := OnMemory(mem, a).0;
    var m2 := OnMemory(m1, b).0;
    var m3 := OnMemory(m2, d).0;
    OneReply(mem, a, [b] + ([d] + ([e] + [])));
    OneReply(m1, b, [d] + ([e] + []));
    OneReply(m2, d, [e] + []);
    OneReply(m3, e, []);
    assert [a] + ([b] + ([d] + ([e] + []))) == [a, b, d, e];
  }

  lemma MemoryAnswers(mem: Data, url: ByteString, userID: string)
    requires url != "" && Encode(url) !in mem
    ensures var id := Encode(url);
            MemoryReplies(mem, [Shorten(url, userID), Visit(id), Call.Remove(userID, [id]), Visit(id)]) ==
            [Stores(Stored), Answers(Handlers.Redirect(url)), Accepted, Answers(Handlers.StatusGone)]
  {
    var id := Encode(url);
    FourReplies(mem, Shorten(url, userID), Visit(id), Call.Remove(userID, [id]), Visit(id));
    assert id in [id];
  }

  lemma FourUsual(c: Codec, s: Backends, url: ByteString, userID: string)
    requires Agree(s) && Accepts(s, url, userID)
    ensures var id := Encode(url);
            AllUsual(c, s, [Shorten(url, userID), Visit(id), Call.Remove(userID, [id]), Visit(id)])
  {
    var id := Encode(url);
    var a, b, d := Shorten(url, userID), Visit(id), Call.Remove(userID, [id]);
    assert [a, b, d, b][1..] == [b, d, b] && [b, d, b][1..] == [d, b] && [d, b][1..] == [b] && [b][1..] == [];
    var s1 := Next(c, s, a);
    var s2 := Next(c, s1, b);
    assert AllUsual(c, Next(c, Next(c, s2, d), b), []);
    assert AllUsual(c, Next(c, s2, d), [b]);
    assert AllUsual(c, s2, [d, b]);
    assert AllUsual(c, s1, [b, d, b]);
  }

  // What the calls mean, on both storages: a URL shortened, visited, deleted by its owner and visited
  // again.
  lemma StoreVisitDelete(c: Codec, s: Backends, url: ByteString, userID: string)
    requires Agree(s) && url != "" && Encode(url) !in s.mem && Accepts(s, url, userID)
    ensures var id := Encode(url);
            var calls := [Shorten(url, userID), Visit(id), Call.Remove(userID, [id]), Visit(id)];
            var replies := [Stores(Stored), Answers(Handlers.Redirect(url)), Accepted, Answers(Handlers.StatusGone)];
            MemoryReplies(s.mem, calls) == replies && DatabaseReplies(c, s.db, calls) == replies
  {
    var id := Encode(url);
    MemoryAnswers(s.mem, url, userID);
    FourUsual(c, s, url, userID);
    BackendsAgree(c, s, [Shorten(url, userID), Visit(id), Call.Remove(userID, [id]), Visit(id)]);
  }
}
