// Whole runs of the database storage: delayed deletion against immediate deletion.
module WriteBehindRuns {
  import opened Types
  import opened Database
  import opened WriteBehind

  // The calls of a serialised run, and whether the SQL server answers during each; LoadURL changes
  // nothing and is left out.
  datatype Op =
    | Remove(userID: string, ids: seq<string>, up: bool)
    | Write(up: bool)
    | Store(id: string, url: string, userID: string, up: bool)

  // The database storage.
  function Exec(c: Codec, db: Db, op: Op): (r: Db)
    requires |db.buf| <= CAPACITY
    ensures |r.buf| <= CAPACITY && r.users == db.users
  {
    match op
    case Remove(user, ids, up) => Delete(c, db, user, ids, up)
    case Write(up) => Flush(c, db, up)
    case Store(id, url, user, up) => if up then db.(rows := Insert(db.rows, db.users, id, url, user).0) else db
  }

  // The same call on a storage that deletes at once.
  function Immediate(rows: Data, users: set<string>, op: Op): Data {
    match op
    case Remove(user, ids, _) => MarkDeleted(rows, user, ids)
    case Write(_) => rows
    case Store(id, url, user, up) => if up then Insert(rows, users, id, url, user).0 else rows
  }

  // What is queued after a call.
  function Queue(batches: seq<seq<Item>>, op: Op): seq<seq<Item>> {
    match op
    case Remove(user, ids, _) => batches + [Items(user, ids)]
    case Write(_) => []
    case Store(_, _, _, _) => batches
  }

  // A deletion fits the buffer and its empty fields, if any, meet empty leftovers; a flush of a queue
  // finds more than empty lists in it, and the server answers.
  predicate Admissible(c: Codec, db: Db, batches: seq<seq<Item>>, op: Op) {
    match op
    case Remove(user, ids, _) =>
      Room(c, db, Items(user, ids)) <= CAPACITY && Compatible(batches, Items(user, ids))
    case Write(up) => batches == [] || (up && Flatten(batches) != [])
    case Store(_, _, _, _) => true
  }

  // The rows with everything queued applied.
  function Abstract(db: Db, batches: seq<seq<Item>>): Data {
    MarkQueued(db.rows, Flatten(batches))
  }

  // The buffer holds the queue, and decodes to it.
  ghost predicate Good(c: Codec, db: Db, batches: seq<seq<Item>>) {
    Queued(c, db, batches) && AllCompatible(batches)
  }

  lemma MarkTwice(rows: Data, a: seq<Item>, b: seq<Item>)
    ensures MarkQueued(MarkQueued(rows, a), b) == MarkQueued(rows, a + b)
  {
  }

  lemma MarkItems(rows: Data, userID: string, ids: seq<string>)
    ensures MarkQueued(rows, Items(userID, ids)) == MarkDeleted(rows, userID, ids)
  {
    forall k | k in rows
      ensures Item(k, rows[k].userID) in Items(userID, ids) <==> rows[k].userID == userID && k in ids
    {
      if rows[k].userID == userID && k in ids {
        var i :| 0 <= i < |ids| && ids[i] == k;
        assert Items(userID, ids)[i] == Item(k, userID);
      }
    }
  }

  // Inserting looks at keys and urls only, so it goes the same way on both sides.
  lemma SameInsert(a: Data, b: Data, users: set<string>, id: string, url: string, userID: string)
    requires a.Keys == b.Keys && forall k :: k in a ==> a[k].url == b[k].url
    ensures Insert(a, users, id, url, userID).1 == Insert(b, users, id, url, userID).1
  {
    assert HasUrl(a, url) <==> HasUrl(b, url) by {
      if HasUrl(a, url) {
        var k :| k in a && a[k].url == url;
        assert k in b && b[k].url == url;
      }
      if HasUrl(b, url) {
        var k :| k in b && b[k].url == url;
        assert k in a && a[k].url == url;
      }
    }
  }

  lemma CompatibleAppends(batches: seq<seq<Item>>, b: seq<Item>)
    requires AllCompatible(batches)
    ensures AllCompatible(batches + [b]) <==> Compatible(batches, b)
  {
    assert (batches + [b])[..|batches|] == batches;
  }

  // Exactly the admissible calls keep the queue good.
  lemma AdmissibleExact(c: Codec, db: Db, batches: seq<seq<Item>>, op: Op)
    requires Good(c, db, batches)
    ensures Admissible(c, db, batches, op) <==> Good(c, Exec(c, db, op), Queue(batches, op))
  {
    match op
    case Remove(user, ids, up) =>
      CompatibleAppends(batches, Items(user, ids));
      KeepsStreamIff(c, db, batches, user, ids, up);
      if Room(c, db, Items(user, ids)) <= CAPACITY { DeleteQueues(c, db, batches, user, ids, up); }
    case Write(up) => FlushOutcome(c, db, batches, up);
    case Store(_, _, _, _) =>
  }

  // Seen through the abstraction, DeleteURLs deletes at once ...
  lemma RemoveRefines(c: Codec, db: Db, batches: seq<seq<Item>>, op: Op)
    requires Good(c, db, batches) && op.Remove? && Admissible(c, db, batches, op)
    ensures Good(c, Exec(c, db, op), Queue(batches, op))
    ensures Abstract(Exec(c, db, op), Queue(batches, op)) == MarkDeleted(Abstract(db, batches), op.userID, op.ids)
  {
    var its := Items(op.userID, op.ids);
    AdmissibleExact(c, db, batches, op);
    DeleteQueues(c, db, batches, op.userID, op.ids, op.up);
    FlattenAppends(batches, its);
    MarkTwice(db.rows, Flatten(batches), its);
    MarkItems(Abstract(db, batches), op.userID, op.ids);
  }

  // ... and a flush changes nothing, but makes the table itself agree.
  lemma FlushRefines(c: Codec, db: Db, batches: seq<seq<Item>>, up: bool)
    requires Good(c, db, batches)
    ensures Admissible(c, db, batches, Write(up)) ==> Good(c, Exec(c, db, Write(up)), [])
    ensures up || batches == [] ==> Abstract(Exec(c, db, Write(up)), []) == Abstract(db, batches)
    ensures up || batches == [] ==> Exec(c, db, Write(up)).rows == Abstract(db, batches)
  {
    FlushOutcome(c, db, batches, up);
    QueueExact(batches);
    assert MarkQueued(db.rows, []) == db.rows;
    assert MarkQueued(Exec(c, db, Write(up)).rows, []) == Exec(c, db, Write(up)).rows;
  }

  // A store under a queued (id, user) pair: the new row is as good as deleted.
  predicate Dooms(rows: Data, users: set<string>, batches: seq<seq<Item>>, op: Op) {
    && op.Store? && op.up && Insert(rows, users, op.id, op.url, op.userID).1 == Stored
    && Item(op.id, op.userID) in Flatten(batches)
  }

  lemma InsertShape(rows: Data, users: set<string>, id: string, url: string, userID: string)
    ensures var (after, r) := Insert(rows, users, id, url, userID);
            if r == Stored then id !in rows && after == rows[id := Entry(url, userID, false)] else after == rows
  {
  }

  lemma MarkStored(rows: Data, items: seq<Item>, id: string, url: string, userID: string)
    requires id !in rows
    ensures MarkQueued(rows[id := Entry(url, userID, false)], items) ==
            MarkQueued(rows, items)[id := Entry(url, userID, Item(id, userID) in items)]
  {
  }

  lemma StoreRefines(c: Codec, db: Db, batches: seq<seq<Item>>, op: Op)
    requires Good(c, db, batches) && op.Store? && op.up
    ensures Good(c, Exec(c, db, op), batches)
    ensures var (after, r) := Insert(Abstract(db, batches), db.users, op.id, op.url, op.userID);
            && r == Insert(db.rows, db.users, op.id, op.url, op.userID).1
            && Abstract(Exec(c, db, op), batches) ==
               if Dooms(db.rows, db.users, batches, op) then after[op.id := Entry(op.url, op.userID, true)] else after
  {
    var now := Abstract(db, batches);
    SameInsert(db.rows, now, db.users, op.id, op.url, op.userID);
    InsertShape(db.rows, db.users, op.id, op.url, op.userID);
    InsertShape(now, db.users, op.id, op.url, op.userID);
    if op.id !in db.rows { MarkStored(db.rows, Flatten(batches), op.id, op.url, op.userID); }
  }

  // ---- Runs ----

  // The storage, its queue, the rows under immediate deletion, and the ids stored while queued.
  datatype Pair = Pair(db: Db, batches: seq<seq<Item>>, now: Data, doomed: set<string>)

  function Both(c: Codec, p: Pair, op: Op): (r: Pair)
    requires |p.db.buf| <= CAPACITY
    ensures |r.db.buf| <= CAPACITY
  {
    Pair(Exec(c, p.db, op), Queue(p.batches, op), Immediate(p.now, p.db.users, op),
         p.doomed + if Dooms(p.db.rows, p.db.users, p.batches, op) then {op.id} else {})
  }

  function RunBoth(c: Codec, p: Pair, ops: seq<Op>): (r: Pair)
    requires |p.db.buf| <= CAPACITY
    ensures |r.db.buf| <= CAPACITY
    decreases |ops|
  {
    if ops == [] then p else RunBoth(c, Both(c, p, ops[0]), ops[1..])
  }

  predicate AllAdmissible(c: Codec, db: Db, batches: seq<seq<Item>>, ops: seq<Op>)
    requires |db.buf| <= CAPACITY
    decreases |ops|
  {
    ops == [] ||
    (Admissible(c, db, batches, ops[0]) && AllAdmissible(c, Exec(c, db, ops[0]), Queue(batches, ops[0]), ops[1..]))
  }

  // The queue is good after every call of the run.
  ghost predicate StaysGood(c: Codec, db: Db, batches: seq<seq<Item>>, ops: seq<Op>)
    requires |db.buf| <= CAPACITY
    decreases |ops|
  {
    Good(c, db, batches) &&
    (ops == [] || StaysGood(c, Exec(c, db, ops[0]), Queue(batches, ops[0]), ops[1..]))
  }

  // Over whole runs: the buffer always decodes to the queue exactly when all calls are admissible.
  lemma {:induction false} StaysGoodIff(c: Codec, db: Db, batches: seq<seq<Item>>, ops: seq<Op>)
    requires Good(c, db, batches)
    ensures StaysGood(c, db, batches, ops) <==> AllAdmissible(c, db, batches, ops)
    decreases |ops|
  {
    if ops == [] {
    } else {
      AdmissibleExact(c, db, batches, ops[0]);
      if Admissible(c, db, batches, ops[0]) {
        StaysGoodIff(c, Exec(c, db, ops[0]), Queue(batches, ops[0]), ops[1..]);
      } else {
        NotGoodNow(c, Exec(c, db, ops[0]), Queue(batches, ops[0]), ops[1..]);
      }
    }
  }

  lemma NotGoodNow(c: Codec, db: Db, batches: seq<seq<Item>>, ops: seq<Op>)
    requires |db.buf| <= CAPACITY && !Good(c, db, batches)
    ensures !StaysGood(c, db, batches, ops)
  {
  }

  function Shade(rows: Data, doomed: set<string>): Data {
    map k | k in rows :: if k in doomed then rows[k].(deleted := true) else rows[k]
  }

  ghost predicate Related(c: Codec, p: Pair) {
    && Good(c, p.db, p.batches)
    && p.doomed <= p.now.Keys
    && Abstract(p.db, p.batches) == Shade(p.now, p.doomed)
  }

  lemma ShadeStored(now: Data, doomed: set<string>, id: string, e: Entry)
    requires id !in now && doomed <= now.Keys
    ensures Shade(now[id := e], doomed) == Shade(now, doomed)[id := e]
    ensures Shade(now[id := e], doomed + {id}) == Shade(now, doomed)[id := e.(deleted := true)]
  {
  }

  // The three tables give the same answer.
  lemma SameAnswers(p: Pair, op: Op)
    requires op.Store? && Abstract(p.db, p.batches) == Shade(p.now, p.doomed)
    ensures var r := Insert(p.now, p.db.users, op.id, op.url, op.userID).1;
            && r == Insert(Shade(p.now, p.doomed), p.db.users, op.id, op.url, op.userID).1
            && r == Insert(p.db.rows, p.db.users, op.id, op.url, op.userID).1
  {
    var shaded := Shade(p.now, p.doomed);
    SameInsert(p.now, shaded, p.db.users, op.id, op.url, op.userID);
    SameInsert(p.db.rows, Abstract(p.db, p.batches), p.db.users, op.id, op.url, op.userID);
  }

  lemma StoreShades(p: Pair, op: Op)
    requires op.Store? && op.up && p.doomed <= p.now.Keys
    requires Abstract(p.db, p.batches) == Shade(p.now, p.doomed)
    ensures var doomed := p.doomed + if Dooms(p.db.rows, p.db.users, p.batches, op) then {op.id} else {};
            var after := Insert(Abstract(p.db, p.batches), p.db.users, op.id, op.url, op.userID).0;
            && doomed <= Immediate(p.now, p.db.users, op).Keys
            && Shade(Immediate(p.now, p.db.users, op), doomed) ==
               if Dooms(p.db.rows, p.db.users, p.batches, op) then after[op.id := Entry(op.url, op.userID, true)]
               else after
  {
    var e := Entry(op.url, op.userID, false);
    SameAnswers(p, op);
    InsertShape(p.now, p.db.users, op.id, op.url, op.userID);
    InsertShape(Shade(p.now, p.doomed), p.db.users, op.id, op.url, op.userID);
    if op.id !in p.now { ShadeStored(p.now, p.doomed, op.id, e); }
    assert p.doomed + {} == p.doomed;
  }

  lemma ShadeCommutes(now: Data, doomed: set<string>, userID: string, ids: seq<string>)
    ensures MarkDeleted(Shade(now, doomed), userID, ids) == Shade(MarkDeleted(now, userID, ids), doomed)
  {
  }

  lemma RemoveRelated(c: Codec, p: Pair, op: Op)
    requires Related(c, p) && op.Remove? && Admissible(c, p.db, p.batches, op)
    ensures Related(c, Both(c, p, op))
  {
    RemoveRefines(c, p.db, p.batches, op);
    ShadeCommutes(p.now, p.doomed, op.userID, op.ids);
  }

  lemma StoreRelated(c: Codec, p: Pair, op: Op)
    requires Related(c, p) && op.Store?
    ensures Related(c, Both(c, p, op))
  {
    if op.up {
      StoreRefines(c, p.db, p.batches, op);
      StoreShades(p, op);
    } else {
      assert p.doomed + {} == p.doomed;
    }
  }

  lemma StepRelated(c: Codec, p: Pair, op: Op)
    requires Related(c, p) && Admissible(c, p.db, p.batches, op)
    ensures Related(c, Both(c, p, op))
  {
    match op
    case Remove(_, _, _) => RemoveRelated(c, p, op);
    case Write(up) => FlushRefines(c, p.db, p.batches, up);
    case Store(_, _, _, _) => StoreRelated(c, p, op);
  }

  lemma {:induction false} RunRelated(c: Codec, p: Pair, ops: seq<Op>)
    requires Related(c, p) && AllAdmissible(c, p.db, p.batches, ops)
    ensures Related(c, RunBoth(c, p, ops))
    decreases |ops|
  {
    if ops == [] {
    } else {
      StepRelated(c, p, ops[0]);
      RunRelated(c, Both(c, p, ops[0]), ops[1..]);
    }
  }

  // Meanwhile StoreURL answers as it would under immediate deletion.
  lemma StoreAnswersSame(c: Codec, p: Pair, id: string, url: string, userID: string)
    requires Related(c, p)
    ensures Insert(p.db.rows, p.db.users, id, url, userID).1 == Insert(p.now, p.db.users, id, url, userID).1
  {
    SameInsert(p.db.rows, Abstract(p.db, p.batches), p.db.users, id, url, userID);
    SameInsert(Shade(p.now, p.doomed), p.now, p.db.users, id, url, userID);
  }

  function Fresh(rows: Data, users: set<string>): Pair {
    Pair(Db(rows, users, [], false, false), [], rows, {})
  }

  // After any run and a last flush the table is what immediate deletion gives, except that the
  // ids stored while their own deletion was queued are deleted as well.
  lemma DeferredIsImmediate(c: Codec, rows: Data, users: set<string>, ops: seq<Op>)
    requires AllAdmissible(c, Fresh(rows, users).db, [], ops)
    ensures var p := RunBoth(c, Fresh(rows, users), ops);
            && p.doomed <= p.now.Keys
            && Exec(c, p.db, Write(true)).rows == Shade(p.now, p.doomed)
            && (Exec(c, p.db, Write(true)).rows == p.now <==> forall k :: k in p.doomed ==> p.now[k].deleted)
  {
    var start := Fresh(rows, users);
    assert MarkQueued(rows, []) == rows && Shade(rows, {}) == rows;
    RunRelated(c, start, ops);
    var p := RunBoth(c, start, ops);
    FlushRefines(c, p.db, p.batches, true);
    forall k | k in p.doomed && Shade(p.now, p.doomed) == p.now ensures p.now[k].deleted {
      assert Shade(p.now, p.doomed)[k].deleted;
    }
    if forall k :: k in p.doomed ==> p.now[k].deleted {
      assert Shade(p.now, p.doomed) == p.now;
    }
  }

  // No flush of the run loses or repeats an item: what it decodes is the queue, in order.
  lemma FlushDecodesQueue(c: Codec, rows: Data, users: set<string>, ops: seq<Op>)
    requires AllAdmissible(c, Fresh(rows, users).db, [], ops)
    ensures var p := RunBoth(c, Fresh(rows, users), ops);
            && p.db.buf == Stream(c, p.batches) && p.db.typed == (p.batches != [])
            && (p.batches != [] ==> Decode(c, p.db.buf, false, []) == Some(Flatten(p.batches)))
  {
    var start := Fresh(rows, users);
    assert MarkQueued(rows, []) == rows && Shade(rows, {}) == rows;
    RunRelated(c, start, ops);
    var p := RunBoth(c, start, ops);
    if p.batches != [] {
      DecodeStream(c, p.batches, []);
      QueueExact(p.batches);
      assert Stream(c, p.batches) + [] == Stream(c, p.batches);
      assert Flatten(p.batches) + [] == Flatten(p.batches);
    }
  }

  // ---- A broken writer ----

  function RunDb(c: Codec, db: Db, ops: seq<Op>): (r: Db)
    requires |db.buf| <= CAPACITY
    ensures |r.buf| <= CAPACITY
    decreases |ops|
  {
    if ops == [] then db else RunDb(c, Exec(c, db, ops[0]), ops[1..])
  }

  // No row of a is marked or lost in b, and no other row of b is marked.
  predicate Unmarked(a: Data, b: Data) {
    && (forall k :: k in a ==> k in b && b[k] == a[k])
    && (forall k :: k in b && k !in a ==> !b[k].deleted)
  }

  lemma BrokenStep(c: Codec, db: Db, op: Op)
    requires |db.buf| <= CAPACITY && db.failed
    ensures Exec(c, db, op).failed && Unmarked(db.rows, Exec(c, db, op).rows)
  {
  }

  // The error of a bufio.Writer stays: from then on no deletion, queued or new, is ever applied.
  lemma {:induction false} BrokenForever(c: Codec, db: Db, ops: seq<Op>)
    requires |db.buf| <= CAPACITY && db.failed
    ensures RunDb(c, db, ops).failed && Unmarked(db.rows, RunDb(c, db, ops).rows)
    decreases |ops|
  {
    if ops == [] {
    } else {
      BrokenStep(c, db, ops[0]);
      BrokenForever(c, Exec(c, db, ops[0]), ops[1..]);
    }
  }

  // A batch that does not fit behind a partly filled buffer loses itself, everything queued and
  // every later deletion: no row of the table is ever marked again.
  lemma OverflowLosesAll(c: Codec, db: Db, batches: seq<seq<Item>>, userID: string, ids: seq<string>, up: bool,
                         ops: seq<Op>)
    requires Queued(c, db, batches) && 0 < |db.buf| < CAPACITY && Room(c, db, Items(userID, ids)) > CAPACITY
    ensures var r := RunDb(c, db, [Remove(userID, ids, up)] + ops);
            Unmarked(db.rows, r.rows)
  {
    OverflowPartial(c, db, batches, userID, ids, up);
    assert ([Remove(userID, ids, up)] + ops)[1..] == ops;
    BrokenForever(c, Delete(c, db, userID, ids, up), ops);
  }
}
