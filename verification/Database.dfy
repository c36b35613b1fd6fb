// internal/storage/database/database.go: deletions are gob-encoded into a bufio.Writer whose
// underlying writer is the database itself; a flush decodes them and runs one UPDATE.
module Database {
  import opened Types

  // One element of deletedItems.
  datatype Item = Item(id: string, userID: string)

  // What the gob encoder sends: the type of deletedItems once, then one message per Encode.
  datatype Message = TypeInfo | Batch(items: seq<Item>)

  // One byte of a message. The byte values of gob are not modelled, only where messages end.
  datatype Byte = Byte(msg: Message, pos: nat)

  // How many bytes messages take beyond their length byte and the byte that ends each item.
  datatype Codec = Codec(typePayload: nat, batchPayload: seq<Item> -> nat)

  // The parameters one statement of PostgreSQL's extended protocol can bind.
  const MAX_PARAMETERS := 65535

  function Size(c: Codec, m: Message): nat {
    1 + match m case TypeInfo => c.typePayload case Batch(items) => |items| + c.batchPayload(items)
  }

  function Bytes(c: Codec, m: Message): (b: seq<Byte>)
    ensures |b| == Size(c, m) > 0
  {
    seq(Size(c, m), i requires 0 <= i => Byte(m, i))
  }

  // The bytes of one Encode: type information first when this encoder has not sent it.
  function Encoded(c: Codec, typed: bool, items: seq<Item>): (b: seq<Byte>)
    ensures |b| > 0
  {
    (if typed then [] else Bytes(c, TypeInfo)) + Bytes(c, Batch(items))
  }

  // ---- Decoding: var d deletedItems is reused by every Decode ----

  // gob does not send zero fields, so those keep what the element of the slice held before.
  function Merge(was: Item, sent: Item): Item {
    Item(if sent.id == "" then was.id else sent.id, if sent.userID == "" then was.userID else sent.userID)
  }

  // The array behind d after decoding items into it: reused when it is long enough.
  function Overlay(d: seq<Item>, items: seq<Item>): (r: seq<Item>)
    ensures |r| >= |items|
  {
    if |items| > |d| then items
    else seq(|d|, i requires 0 <= i < |d| => if i < |items| then Merge(d[i], items[i]) else d[i])
  }

  function Decoded(d: seq<Item>, items: seq<Item>): (r: seq<Item>)
    ensures |r| == |items|
  {
    Overlay(d, items)[..|items|]
  }

  // What the loop over dec.Decode appends to res, or None for a decoding error: a message cut
  // short, bytes that start no message, a type sent twice or a value before its type.
  function Decode(c: Codec, p: seq<Byte>, typed: bool, d: seq<Item>): Option<seq<Item>>
    decreases |p|
  {
    if p == [] then Some([])
    else
      var m := p[0].msg;
      var n := Size(c, m);
      if |p| < n || p[..n] != Bytes(c, m) || m.TypeInfo? == typed then None
      else
        match m
        case TypeInfo => Decode(c, p[n..], true, d)
        case Batch(items) => Prepend(Decoded(d, items), Decode(c, p[n..], typed, Overlay(d, items)))
  }

  function Prepend(a: seq<Item>, r: Option<seq<Item>>): Option<seq<Item>> {
    match r case Some(b) => Some(a + b) case None => None
  }

  lemma Regroup(a: seq<Item>, b: seq<Item>, r: Option<seq<Item>>)
    ensures Prepend(a, Prepend(b, r)) == Prepend(a + b, r)
  {
    if r.Some? { assert a + (b + r.value) == (a + b) + r.value; }
  }

  method DecodeAll(c: Codec, p: seq<Byte>) returns (r: Option<seq<Item>>)
    ensures r == Decode(c, p, false, [])
  {
    var rest, typed := p, false;
    var d: seq<Item>, res: seq<Item> := [], [];
    assert forall r: seq<Item> :: [] + r == r;
    while rest != []
      invariant Decode(c, p, false, []) == Prepend(res, Decode(c, rest, typed, d))
      decreases |rest|
    {
      var m := rest[0].msg;
      var n := Size(c, m);
      if |rest| < n || rest[..n] != Bytes(c, m) || m.TypeInfo? == typed {
        return None;
      }
      if m.TypeInfo? {
        typed := true;
      } else {
        Regroup(res, Decoded(d, m.items), Decode(c, rest[n..], typed, Overlay(d, m.items)));
        res := res + Decoded(d, m.items);
        d := Overlay(d, m.items);
      }
      rest := rest[n..];
    }
    assert res + [] == res;
    return Some(res);
  }

  // ---- The UPDATE statement ----

  // Live rows whose (id, user_id) is queued become deleted.
  function MarkQueued(rows: Data, items: seq<Item>): Data {
    map k | k in rows :: if Item(k, rows[k].userID) in items then rows[k].(deleted := true) else rows[k]
  }

  // The pairs of placeholders ($c, $c+1, TRUE) and the arguments bound to $1, $2, ...
  datatype Update = Update(values: seq<(nat, nat)>, args: seq<string>)

  predicate Bound(u: Update) {
    forall i :: 0 <= i < |u.values| ==> 1 <= u.values[i].0 <= |u.args| && 1 <= u.values[i].1 <= |u.args|
  }

  // UPDATE ... FROM (VALUES ...): a row is set when some tuple matches it. Without a tuple it is
  // not valid SQL, and with too many parameters the server refuses it.
  function Execute(rows: Data, u: Update): Option<Data>
    requires Bound(u)
  {
    if u.values == [] || |u.args| > MAX_PARAMETERS then None
    else Some(map k | k in rows ::
           if !rows[k].deleted && exists i :: 0 <= i < |u.values| && Matches(u, i, k, rows[k].userID)
           then rows[k].(deleted := true) else rows[k])
  }

  predicate Matches(u: Update, i: nat, id: string, userID: string)
    requires i < |u.values| && Bound(u)
  {
    u.args[u.values[i].1 - 1] == userID && u.args[u.values[i].0 - 1] == id
  }

  // The loop that numbers the placeholders two by two and collects the arguments.
  method BuildUpdate(res: seq<Item>) returns (u: Update)
    ensures |u.values| == |res| && |u.args| == 2 * |res| && Bound(u)
    ensures forall i :: 0 <= i < |res| ==> u.values[i] == (2 * i + 1, 2 * i + 2)
    ensures forall i :: 0 <= i < |res| ==> u.args[2 * i] == res[i].id && u.args[2 * i + 1] == res[i].userID
    ensures forall i, id, user :: 0 <= i < |res| ==> (Matches(u, i, id, user) <==> res[i] == Item(id, user))
  {
    var values: seq<(nat, nat)>, args: seq<string> := [], [];
    var c := 1;
    for i := 0 to |res|
      invariant |values| == i && |args| == 2 * i && c == 2 * i + 1
      invariant forall j :: 0 <= j < i ==> values[j] == (2 * j + 1, 2 * j + 2)
      invariant forall j :: 0 <= j < i ==> args[2 * j] == res[j].id && args[2 * j + 1] == res[j].userID
    {
      values := values + [(c, c + 1)];
      args := args + [res[i].id, res[i].userID];
      c := c + 2;
    }
    u := Update(values, args);
  }

  // The items for which the server runs the statement: some, and at most 32767.
  predicate Executable(items: seq<Item>) {
    items != [] && 2 * |items| <= MAX_PARAMETERS
  }

  // The statement, when it runs, marks exactly the queued rows, repeats included.
  lemma ExecuteMarksQueued(rows: Data, u: Update, items: seq<Item>)
    requires |u.values| == |items| && |u.args| == 2 * |items| && Bound(u)
    requires forall i, id, user :: 0 <= i < |items| ==> (Matches(u, i, id, user) <==> items[i] == Item(id, user))
    ensures Execute(rows, u) == if Executable(items) then Some(MarkQueued(rows, items)) else None
  {
    forall k | k in rows
      ensures (exists i :: 0 <= i < |u.values| && Matches(u, i, k, rows[k].userID)) <==>
              Item(k, rows[k].userID) in items
    {
      if Item(k, rows[k].userID) in items {
        var i :| 0 <= i < |items| && items[i] == Item(k, rows[k].userID);
        assert Matches(u, i, k, rows[k].userID);
      }
    }
    if Executable(items) {
      assert Execute(rows, u).value == MarkQueued(rows, items);
    }
  }

  // ---- The state of the database storage ----

  // Table urls, the ids of table users, the bytes in the bufio.Writer, its sticky error, and
  // whether the current encoder has sent the type.
  datatype Db = Db(rows: Data, users: set<string>, buf: seq<Byte>, failed: bool, typed: bool)

  // db.Write on bytes p: the rows afterwards, None for an error. up says whether the server
  // answers; a statement it answers may still be refused.
  function Sink(c: Codec, rows: Data, p: seq<Byte>, up: bool): Option<Data> {
    match Decode(c, p, false, [])
    case None => None
    case Some(items) => if up && Executable(items) then Some(MarkQueued(rows, items)) else None
  }

  // bufio.Writer.Write: bytes that do not fit go straight through an empty buffer, or fill the
  // buffer and flush it; an error of the underlying writer stays.
  function BufWrite(c: Codec, db: Db, p: seq<Byte>, up: bool): (r: Db)
    requires |db.buf| <= CAPACITY
    ensures |r.buf| <= CAPACITY && r.users == db.users && r.typed == db.typed && r.rows.Keys == db.rows.Keys
    decreases |p|, |db.buf|
  {
    if db.failed then db
    else if |p| <= CAPACITY - |db.buf| then db.(buf := db.buf + p)
    else if db.buf == [] then
      match Sink(c, db.rows, p, up)
      case Some(rows) => db.(rows := rows)
      case None => db.(failed := true)
    else
      var k := CAPACITY - |db.buf|;
      match Sink(c, db.rows, db.buf + p[..k], up)
      case Some(rows) => BufWrite(c, db.(rows := rows, buf := []), p[k..], up)
      case None => db.(buf := db.buf + p[..k], failed := true)
  }

  // Flush makes a new encoder, then flushes the buffer.
  function Flush(c: Codec, db: Db, up: bool): (r: Db)
    requires |db.buf| <= CAPACITY
    ensures |r.buf| <= CAPACITY && r.users == db.users && r.rows.Keys == db.rows.Keys
  {
    var reset := db.(typed := false);
    if db.failed || db.buf == [] then reset
    else
      match Sink(c, db.rows, db.buf, up)
      case Some(rows) => reset.(rows := rows, buf := [])
      case None => reset.(failed := true)
  }

  function Items(userID: string, ids: seq<string>): (its: seq<Item>)
    ensures |its| == |ids| && forall i :: 0 <= i < |its| ==> its[i] == Item(ids[i], userID)
  {
    seq(|ids|, i requires 0 <= i < |ids| => Item(ids[i], userID))
  }

  function Delete(c: Codec, db: Db, userID: string, ids: seq<string>, up: bool): (r: Db)
    requires |db.buf| <= CAPACITY
    ensures |r.buf| <= CAPACITY && r.users == db.users && r.typed && r.rows.Keys == db.rows.Keys
  {
    BufWrite(c, db.(typed := true), Encoded(c, db.typed, Items(userID, ids)), up)
  }

  // VARCHAR counts characters: the bytes of UTF-8 that do not continue one.
  function CharCount(s: string): (n: nat)
    ensures n <= |s|
  {
    if s == "" then 0 else (if 0x80 <= s[0] as int < 0xC0 then 0 else 1) + CharCount(s[1..])
  }

  lemma CharVector()
    ensures CharCount([0x75 as char, 0xC3 as char, 0xA9 as char, 0xE2 as char, 0x82 as char, 0xAC as char]) == 3
  {
    var s := [0x75 as char, 0xC3 as char, 0xA9 as char, 0xE2 as char, 0x82 as char, 0xAC as char];
    assert CharCount(s[6..]) == 0;
    assert CharCount(s[5..]) == 0 by { assert s[5..][1..] == s[6..]; }
    assert CharCount(s[4..]) == 0 by { assert s[4..][1..] == s[5..]; }
    assert CharCount(s[3..]) == 1 by { assert s[3..][1..] == s[4..]; }
    assert CharCount(s[2..]) == 1 by { assert s[2..][1..] == s[3..]; }
    assert CharCount(s[1..]) == 2 by { assert s[1..][1..] == s[2..]; }
  }

  predicate FitsColumns(id: string, url: string, userID: string) {
    CharCount(url) <= 100 && CharCount(id) <= 100 && CharCount(userID) <= 38
  }

  predicate HasUrl(rows: Data, url: string) {
    exists k :: k in rows && rows[k].url == url
  }

  // INSERT ... ON CONFLICT (url) DO NOTHING under the constraints of table urls: column widths,
  // unique url, primary key id, user_id references users.
  function Insert(rows: Data, users: set<string>, id: string, url: string, userID: string): (r: (Data, StoreResult)) {
    if !FitsColumns(id, url, userID) then (rows, Failed)
    else if HasUrl(rows, url) then (rows, Conflict)
    else if id in rows || userID !in users then (rows, Failed)
    else (rows[id := Entry(url, userID, false)], Stored)
  }

  // A missing row is an empty url and no error.
  function Select(rows: Data, id: string): LoadResult {
    if id !in rows then Found("") else if rows[id].deleted then Gone else Found(rows[id].url)
  }

  class Database {
    const codec: Codec
    var rows: Data
    var users: set<string>
    var buf: seq<Byte>
    var failed: bool
    var typed: bool

    ghost function State(): Db
      reads this
    {
      Db(rows, users, buf, failed, typed)
    }

    ghost predicate Valid()
      reads this
    {
      |buf| <= CAPACITY
    }

    // initBuffer on existing tables.
    constructor (codec: Codec, rows: Data, users: set<string>)
      ensures Valid() && this.codec == codec && State() == Db(rows, users, [], false, false)
    {
      this.codec := codec;
      this.rows, this.users := rows, users;
      buf, failed, typed := [], false, false;
    }

    // Decode everything in p, build one UPDATE and run it.
    method Write(p: seq<Byte>, up: bool) returns (ok: bool)
      modifies this`rows
      ensures ok == Sink(codec, old(rows), p, up).Some?
      ensures rows == if ok then Sink(codec, old(rows), p, up).value else old(rows)
    {
      var res := DecodeAll(codec, p);
      if res.None? {
        return false;
      }
      var u := BuildUpdate(res.value);
      ExecuteMarksQueued(rows, u, res.value);
      var after := Execute(rows, u);
      if after.None? || !up {
        return false;
      }
      rows := after.value;
      return true;
    }

    // The embedded bufio.Writer's Write.
    method WriteBuffered(p: seq<Byte>, up: bool)
      requires Valid()
      modifies this
      ensures Valid() && State() == BufWrite(codec, old(State()), p, up)
    {
      var rest := p;
      while !failed && |rest| > CAPACITY - |buf|
        invariant Valid()
        invariant BufWrite(codec, State(), rest, up) == BufWrite(codec, old(State()), p, up)
        decreases !failed, |rest|, |buf|
      {
        if buf == [] {
          var ok := Write(rest, up);
          if ok { rest := []; } else { failed := true; }
        } else {
          var k := CAPACITY - |buf|;
          buf := buf + rest[..k];
          rest := rest[k..];
          var ok := Write(buf, up);
          if ok { buf := []; } else { failed := true; }
        }
      }
      if !failed {
        buf := buf + rest;
      }
    }

    method DeleteURLs(userID: string, ids: seq<string>, up: bool)
      requires Valid()
      modifies this
      ensures Valid() && State() == Delete(codec, old(State()), userID, ids, up)
    {
      var its: seq<Item> := [];
      for i := 0 to |ids|
        invariant its == Items(userID, ids)[..i]
      {
        its := its + [Item(ids[i], userID)];
      }
      assert its == Items(userID, ids);
      var b := Encoded(codec, typed, its);
      typed := true;
      WriteBuffered(b, up);
    }

    method FlushBuffer(up: bool)
      requires Valid()
      modifies this
      ensures Valid() && State() == Flush(codec, old(State()), up)
    {
      typed := false;
      if failed || buf == [] {
        return;
      }
      var ok := Write(buf, up);
      if ok { buf := []; } else { failed := true; }
    }

    // The SELECT; Next and Scan tell a missing row from a deleted one.
    method LoadURL(id: string) returns (r: LoadResult)
      ensures r == Select(rows, id)
      ensures id !in rows ==> r == Found("")
      ensures id in rows ==> r == if rows[id].deleted then Gone else Found(rows[id].url)
    {
      if id !in rows {
        return Found("");
      }
      var url, deleted := rows[id].url, rows[id].deleted;
      if deleted {
        return Gone;
      }
      return Found(url);
    }

    // The prepared INSERT; a conflict shows as no row affected.
    method StoreURL(id: string, url: string, userID: string) returns (r: StoreResult)
      modifies this`rows
      ensures (rows, r) == Insert(old(rows), users, id, url, userID)
      ensures r == Conflict <==>
              && CharCount(id) <= 100 && CharCount(url) <= 100 && CharCount(userID) <= 38
              && exists k :: k in old(rows) && old(rows)[k].url == url
      ensures r == Stored <==>
              && CharCount(id) <= 100 && CharCount(url) <= 100 && CharCount(userID) <= 38
              && id !in old(rows) && userID in users
              && forall k :: k in old(rows) ==> old(rows)[k].url != url
      ensures r == Stored ==> rows == old(rows)[id := Entry(url, userID, false)]
      ensures r != Stored ==> rows == old(rows)
    {
      var after := Insert(rows, users, id, url, userID);
      rows, r := after.0, after.1;
    }
  }
}
