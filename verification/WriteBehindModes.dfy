// Every run of the database storage, admissible or not: which deletions it applies.
module WriteBehindModes {
  import opened Types
  import opened Database
  import opened WriteBehind
  import opened WriteBehindRuns

  // What the delete buffer is: the type and whole batches, or nothing; whole batches without their
  // type; a writer with an error.
  datatype Mode = Holding(batches: seq<seq<Item>>) | Bare(batches: seq<seq<Item>>) | Broken

  ghost predicate InMode(c: Codec, db: Db, mode: Mode) {
    match mode
    case Holding(batches) => Queued(c, db, batches)
    case Bare(batches) => !db.failed && db.typed && |db.buf| <= CAPACITY && db.buf == Body(c, batches)
    case Broken => db.failed && |db.buf| <= CAPACITY
  }

  // The mode after a call, and the items the call has applied to the rows.
  datatype Effect = Effect(mode: Mode, applied: seq<Item>)

  function AfterRemove(c: Codec, mode: Mode, its: seq<Item>, up: bool): Effect {
    match mode
    case Broken => Effect(Broken, [])
    case Bare(batches) =>
      Effect(if |Body(c, batches)| + Size(c, Batch(its)) <= CAPACITY then Bare(batches + [its]) else Broken, [])
    case Holding(batches) =>
      var held := |Stream(c, batches)|;
      if held + |Encoded(c, batches != [], its)| <= CAPACITY then Effect(Holding(batches + [its]), [])
      else if batches == [] then
        if up && Executable(its) then Effect(Bare([]), its) else Effect(Broken, [])
      else if held < CAPACITY || !up || Flatten(batches) == [] then Effect(Broken, [])
      else Effect(if Size(c, Batch(its)) <= CAPACITY then Bare([its]) else Broken, DecodedAll([], batches))
  }

  function AfterWrite(mode: Mode, up: bool): Effect {
    match mode
    case Broken => Effect(Broken, [])
    case Bare(batches) => Effect(if batches == [] then Holding([]) else Broken, [])
    case Holding(batches) =>
      if batches == [] then Effect(Holding([]), [])
      else if up && Flatten(batches) != [] then Effect(Holding([]), DecodedAll([], batches))
      else Effect(Broken, [])
  }

  function Next(c: Codec, mode: Mode, op: Op): Effect {
    match op
    case Remove(userID, ids, up) => AfterRemove(c, mode, Items(userID, ids), up)
    case Write(up) => AfterWrite(mode, up)
    case Store(_, _, _, _) => Effect(mode, [])
  }

  // ---- Each call ----

  lemma {:induction false} BodyUndecodable(c: Codec, batches: seq<seq<Item>>, tail: seq<Byte>)
    requires batches != []
    ensures Decode(c, Body(c, batches) + tail, false, []) == None
  {
    var rest := Body(c, batches[1..]) + tail;
    assert Body(c, batches) + tail == Bytes(c, Batch(batches[0])) + rest;
    DecodeMessage(c, Batch(batches[0]), rest, false, []);
  }

  lemma BareRemove(c: Codec, db: Db, batches: seq<seq<Item>>, its: seq<Item>, up: bool)
    requires InMode(c, db, Bare(batches))
    ensures var r := BufWrite(c, db, Bytes(c, Batch(its)), up);
            && InMode(c, r, AfterRemove(c, Bare(batches), its, up).mode)
            && r.rows == db.rows
  {
    var p := Bytes(c, Batch(its));
    BodyAppends(c, batches, its);
    if |db.buf| + |p| > CAPACITY {
      if batches == [] {
        UntypedFails(c, its);
      } else {
        var k := CAPACITY - |db.buf|;
        BodyUndecodable(c, batches, p[..k]);
      }
    }
  }

  lemma HoldingRemove(c: Codec, db: Db, batches: seq<seq<Item>>, userID: string, ids: seq<string>, up: bool)
    requires Queued(c, db, batches)
    ensures var e := AfterRemove(c, Holding(batches), Items(userID, ids), up);
            && InMode(c, Delete(c, db, userID, ids, up), e.mode)
            && Delete(c, db, userID, ids, up).rows == MarkQueued(db.rows, e.applied)
  {
    assert MarkQueued(db.rows, []) == db.rows;
    if Room(c, db, Items(userID, ids)) <= CAPACITY {
      DeleteQueues(c, db, batches, userID, ids, up);
    } else if batches == [] {
      OverflowEmpty(c, db, userID, ids, up);
    } else if |db.buf| < CAPACITY {
      OverflowPartial(c, db, batches, userID, ids, up);
    } else {
      OverflowFull(c, db, batches, userID, ids, up);
      BareOne(c, Items(userID, ids));
    }
  }

  lemma BareOne(c: Codec, its: seq<Item>)
    ensures Body(c, [its]) == Bytes(c, Batch(its))
  {
    assert [its][1..] == [];
    assert Body(c, [its]) == Bytes(c, Batch(its)) + [];
  }

  lemma WriteExact(c: Codec, db: Db, mode: Mode, up: bool)
    requires InMode(c, db, mode)
    ensures var e := AfterWrite(mode, up);
            && InMode(c, Flush(c, db, up), e.mode)
            && Flush(c, db, up).rows == MarkQueued(db.rows, e.applied)
  {
    assert MarkQueued(db.rows, []) == db.rows;
    match mode
    case Broken =>
    case Holding(batches) => FlushOutcome(c, db, batches, up);
    case Bare(batches) =>
      if batches != [] {
        BodyUndecodable(c, batches, []);
        assert Body(c, batches) + [] == Body(c, batches);
      }
  }

  lemma RemoveExact(c: Codec, db: Db, mode: Mode, userID: string, ids: seq<string>, up: bool)
    requires InMode(c, db, mode)
    ensures var e := AfterRemove(c, mode, Items(userID, ids), up);
            && InMode(c, Delete(c, db, userID, ids, up), e.mode)
            && Delete(c, db, userID, ids, up).rows == MarkQueued(db.rows, e.applied)
  {
    assert MarkQueued(db.rows, []) == db.rows;
    match mode
    case Broken =>
    case Holding(batches) => HoldingRemove(c, db, batches, userID, ids, up);
    case Bare(batches) =>
      assert Encoded(c, true, Items(userID, ids)) == Bytes(c, Batch(Items(userID, ids)));
      assert db.(typed := true) == db;
      BareRemove(c, db, batches, Items(userID, ids), up);
  }

  // Every call takes the buffer from mode to mode, and applies exactly the items computed for it.
  lemma CallExact(c: Codec, db: Db, mode: Mode, op: Op)
    requires InMode(c, db, mode)
    ensures var e := Next(c, mode, op);
            && InMode(c, Exec(c, db, op), e.mode)
            && (!op.Store? ==> Exec(c, db, op).rows == MarkQueued(db.rows, e.applied))
  {
    match op
    case Remove(userID, ids, up) => RemoveExact(c, db, mode, userID, ids, up);
    case Write(up) => WriteExact(c, db, mode, up);
    case Store(_, _, _, _) =>
  }

  // ---- Whole runs ----

  function ModeAfter(c: Codec, mode: Mode, ops: seq<Op>): Mode
    decreases |ops|
  {
    if ops == [] then mode else ModeAfter(c, Next(c, mode, ops[0]).mode, ops[1..])
  }

  function Applied(c: Codec, mode: Mode, ops: seq<Op>): seq<Item>
    decreases |ops|
  {
    if ops == [] then []
    else Next(c, mode, ops[0]).applied + Applied(c, Next(c, mode, ops[0]).mode, ops[1..])
  }

  function Marked(e: Entry, id: string, items: seq<Item>): Entry {
    e.(deleted := e.deleted || Item(id, e.userID) in items)
  }

  lemma EntryAfter(c: Codec, db: Db, mode: Mode, op: Op, k: string)
    requires InMode(c, db, mode) && k in db.rows
    ensures k in Exec(c, db, op).rows && Exec(c, db, op).rows[k] == Marked(db.rows[k], k, Next(c, mode, op).applied)
  {
    CallExact(c, db, mode, op);
  }

  lemma MarkedTwice(e: Entry, id: string, a: seq<Item>, b: seq<Item>)
    ensures Marked(Marked(e, id, a), id, b) == Marked(e, id, a + b)
  {
  }

  // After any run whatever, an entry there was at the start is deleted exactly when it was before or
  // the run applied an item with its id and owner.
  lemma {:induction false} DeletedExactly(c: Codec, db: Db, mode: Mode, ops: seq<Op>, k: string)
    requires InMode(c, db, mode) && k in db.rows
    ensures InMode(c, RunDb(c, db, ops), ModeAfter(c, mode, ops))
    ensures var r := RunDb(c, db, ops);
            k in r.rows && r.rows[k] == Marked(db.rows[k], k, Applied(c, mode, ops))
    decreases |ops|
  {
    if ops == [] {
    } else {
      var e := Next(c, mode, ops[0]);
      var db1 := Exec(c, db, ops[0]);
      CallExact(c, db, mode, ops[0]);
      EntryAfter(c, db, mode, ops[0], k);
      DeletedExactly(c, db1, e.mode, ops[1..], k);
      MarkedTwice(db.rows[k], k, e.applied, Applied(c, e.mode, ops[1..]));
    }
  }

  // A store adds a live row under its id, with its url and owner, exactly when the columns hold them, the
  // url and the id are new and the owner is a known user; otherwise no row changes.
  lemma StoreExact(c: Codec, db: Db, id: string, url: string, userID: string)
    requires |db.buf| <= CAPACITY
    ensures var accepted := CharCount(id) <= 100 && CharCount(url) <= 100 && CharCount(userID) <= 38
                            && id !in db.rows && userID in db.users
                            && forall k :: k in db.rows ==> db.rows[k].url != url;
            Exec(c, db, Store(id, url, userID, true)).rows ==
            if accepted then db.rows[id := Entry(url, userID, false)] else db.rows
    ensures Exec(c, db, Store(id, url, userID, false)).rows == db.rows
  {
  }

  // Whatever runs after it, the row keeps its url and owner.
  lemma StoredRowStays(c: Codec, db: Db, mode: Mode, id: string, url: string, userID: string, ops: seq<Op>)
    requires InMode(c, db, mode) && Insert(db.rows, db.users, id, url, userID).1 == Stored
    ensures var r := RunDb(c, db, [Store(id, url, userID, true)] + ops);
            id in r.rows && r.rows[id].url == url && r.rows[id].userID == userID
  {
    var op := Store(id, url, userID, true);
    assert ([op] + ops)[1..] == ops;
    CallExact(c, db, mode, op);
    StoreExact(c, db, id, url, userID);
    DeletedExactly(c, Exec(c, db, op), Next(c, mode, op).mode, ops, id);
  }

  // A list that fits, and a flush the server answers: exactly the rows of the user that are listed become
  // deleted, and no other row changes.
  lemma RequestedAndFlushed(c: Codec, rows: Data, users: set<string>, userID: string, ids: seq<string>, up: bool)
    requires ids != [] && |Encoded(c, false, Items(userID, ids))| <= CAPACITY
    ensures RunDb(c, Fresh(rows, users).db, [Remove(userID, ids, up), Write(true)]).rows ==
            map k | k in rows :: Entry(rows[k].url, rows[k].userID,
                                       rows[k].deleted || (rows[k].userID == userID && k in ids))
  {
    var db := Fresh(rows, users).db;
    var ops := [Remove(userID, ids, up), Write(true)];
    var its := Items(userID, ids);
    var db1 := Exec(c, db, ops[0]);
    assert ops[1..] == [Write(true)] && [Write(true)][1..] == [];
    RemoveExact(c, db, Holding([]), userID, ids, up);
    assert [] + [its] == [its] && MarkQueued(rows, []) == rows;
    WriteExact(c, db1, Holding([its]), true);
    OneBatch(its);
    MarkItems(rows, userID, ids);
    assert RunDb(c, db, ops) == RunDb(c, db1, [Write(true)]) == RunDb(c, Exec(c, db1, Write(true)), []);
  }

  // An oversized list on an empty buffer loses nothing when the server answers and a flush follows.
  lemma OversizedThenFlush(c: Codec, userID: string, ids: seq<string>, up: bool)
    requires |Encoded(c, false, Items(userID, ids))| > CAPACITY && Executable(Items(userID, ids))
    ensures var ops := [Remove(userID, ids, true), Write(up)];
            ModeAfter(c, Holding([]), ops) == Holding([]) && Applied(c, Holding([]), ops) == Items(userID, ids)
  {
    var ops := [Remove(userID, ids, true), Write(up)];
    assert ops[1..] == [Write(up)] && [Write(up)][1..] == [];
    assert Next(c, Holding([]), ops[0]) == Effect(Bare([]), Items(userID, ids));
    assert Applied(c, Holding([]), []) == [] && [Write(up)][0] == Write(up);
    assert Next(c, Bare([]), Write(up)) == Effect(Holding([]), []);
    assert Applied(c, Bare([]), [Write(up)]) == [] + Applied(c, Holding([]), []);
    assert ModeAfter(c, Bare([]), [Write(up)]) == ModeAfter(c, Holding([]), []);
    assert Items(userID, ids) + [] == Items(userID, ids);
  }

  // Admissible runs are those of the first mode: they apply, at each flush, what was queued.
  lemma AdmissibleHolds(c: Codec, db: Db, batches: seq<seq<Item>>, op: Op)
    requires Good(c, db, batches) && Admissible(c, db, batches, op)
    ensures Next(c, Holding(batches), op) ==
            Effect(Holding(Queue(batches, op)), if op.Write? then Flatten(batches) else [])
  {
    if op.Write? { QueueExact(batches); }
  }
}
