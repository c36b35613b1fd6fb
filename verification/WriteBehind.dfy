// The delete buffer of the database storage as a write-behind queue: when it delays deletions
// without changing them, and exactly when it loses them.
module WriteBehind {
  import opened Types
  import opened Database

  // The bytes of batches sent after the type.
  function Body(c: Codec, batches: seq<seq<Item>>): seq<Byte> {
    if batches == [] then [] else Bytes(c, Batch(batches[0])) + Body(c, batches[1..])
  }

  // What the buffer holds when batches are queued.
  function Stream(c: Codec, batches: seq<seq<Item>>): seq<Byte> {
    if batches == [] then [] else Bytes(c, TypeInfo) + Body(c, batches)
  }

  function Flatten(batches: seq<seq<Item>>): seq<Item> {
    if batches == [] then [] else batches[0] + Flatten(batches[1..])
  }

  lemma {:induction false} FlattenAppends(batches: seq<seq<Item>>, b: seq<Item>)
    ensures Flatten(batches + [b]) == Flatten(batches) + b
  {
    if batches == [] {
      assert batches + [b] == [b] && [b][1..] == [];
      assert Flatten([b]) == b + [];
    } else {
      assert (batches + [b])[1..] == batches[1..] + [b];
      FlattenAppends(batches[1..], b);
    }
  }

  // Either the buffer is empty and the encoder fresh, or it holds the type and whole batches.
  ghost predicate Queued(c: Codec, db: Db, batches: seq<seq<Item>>) {
    && !db.failed && |db.buf| <= CAPACITY
    && db.typed == (batches != [])
    && db.buf == Stream(c, batches)
  }

  // An item gob transmits in full.
  predicate Full(items: seq<Item>) {
    forall i :: 0 <= i < |items| ==> items[i].id != "" && items[i].userID != ""
  }

  // ---- Streams decode to what was queued ----

  // The array behind d, and everything appended to res, after decoding all batches.
  function OverlayAll(d: seq<Item>, batches: seq<seq<Item>>): seq<Item>
    decreases |batches|
  {
    if batches == [] then d else OverlayAll(Overlay(d, batches[0]), batches[1..])
  }

  function DecodedAll(d: seq<Item>, batches: seq<seq<Item>>): seq<Item>
    decreases |batches|
  {
    if batches == [] then [] else Decoded(d, batches[0]) + DecodedAll(Overlay(d, batches[0]), batches[1..])
  }

  lemma DecodeMessage(c: Codec, m: Message, tail: seq<Byte>, typed: bool, d: seq<Item>)
    ensures Decode(c, Bytes(c, m) + tail, typed, d) ==
            if m.TypeInfo? == typed then None
            else match m
                 case TypeInfo => Decode(c, tail, true, d)
                 case Batch(items) => Prepend(Decoded(d, items), Decode(c, tail, typed, Overlay(d, items)))
  {
    var p := Bytes(c, m) + tail;
    assert p[0] == Bytes(c, m)[0];
    assert p[..Size(c, m)] == Bytes(c, m) && p[Size(c, m)..] == tail;
  }

  lemma {:induction false} DecodeBody(c: Codec, batches: seq<seq<Item>>, tail: seq<Byte>, d: seq<Item>)
    ensures Decode(c, Body(c, batches) + tail, true, d) ==
            Prepend(DecodedAll(d, batches), Decode(c, tail, true, OverlayAll(d, batches)))
    decreases |batches|
  {
    if batches == [] {
      assert Body(c, batches) + tail == tail;
      assert forall r: seq<Item> :: [] + r == r;
    } else {
      var first, rest := batches[0], batches[1..];
      var d1 := Overlay(d, first);
      assert Body(c, batches) + tail == Bytes(c, Batch(first)) + (Body(c, rest) + tail);
      DecodeMessage(c, Batch(first), Body(c, rest) + tail, true, d);
      DecodeBody(c, rest, tail, d1);
      Regroup(Decoded(d, first), DecodedAll(d1, rest), Decode(c, tail, true, OverlayAll(d1, rest)));
    }
  }

  lemma OneBatch(its: seq<Item>)
    ensures DecodedAll([], [its]) == its && Flatten([its]) == its
  {
    assert [its][1..] == [];
    assert DecodedAll([], [its]) == its + [];
    assert Flatten([its]) == its + [];
  }

  lemma DecodeStream(c: Codec, batches: seq<seq<Item>>, tail: seq<Byte>)
    requires batches != []
    ensures Decode(c, Stream(c, batches) + tail, false, []) ==
            Prepend(DecodedAll([], batches), Decode(c, tail, true, OverlayAll([], batches)))
  {
    assert Stream(c, batches) + tail == Bytes(c, TypeInfo) + (Body(c, batches) + tail);
    DecodeMessage(c, TypeInfo, Body(c, batches) + tail, false, []);
    DecodeBody(c, batches, tail, []);
  }

  lemma DecodeTruncated(c: Codec, m: Message, k: nat, typed: bool, d: seq<Item>)
    requires 0 < k < Size(c, m)
    ensures Decode(c, Bytes(c, m)[..k], typed, d) == None
  {
    assert Bytes(c, m)[..k][0] == Byte(m, 0);
  }

  // A batch decodes to itself whatever was decoded before it exactly when no field is empty.
  lemma BatchExact(items: seq<Item>)
    ensures (forall d :: Decoded(d, items) == items) <==> Full(items)
  {
    if Full(items) {
      forall d ensures Decoded(d, items) == items {
        assert forall i :: 0 <= i < |items| ==> Decoded(d, items)[i] == items[i];
      }
    } else {
      var d := seq(|items|, i => Item("x", "x"));
      var i :| 0 <= i < |items| && !(items[i].id != "" && items[i].userID != "");
      assert Decoded(d, items)[i] == Merge(d[i], items[i]) != items[i];
    }
  }

  lemma {:induction false} DecodedLength(d: seq<Item>, batches: seq<seq<Item>>)
    ensures |DecodedAll(d, batches)| == |Flatten(batches)|
    decreases |batches|
  {
    if batches == [] {
    } else {
      DecodedLength(Overlay(d, batches[0]), batches[1..]);
    }
  }

  lemma {:induction false} DecodedAppends(d: seq<Item>, batches: seq<seq<Item>>, b: seq<Item>)
    ensures OverlayAll(d, batches + [b]) == Overlay(OverlayAll(d, batches), b)
    ensures DecodedAll(d, batches + [b]) == DecodedAll(d, batches) + Decoded(OverlayAll(d, batches), b)
    decreases |batches|
  {
    if batches == [] {
      assert [b][1..] == [] && batches + [b] == [b];
      assert DecodedAll(d, [b]) == Decoded(d, b) + [];
    } else {
      assert (batches + [b])[1..] == batches[1..] + [b];
      DecodedAppends(Overlay(d, batches[0]), batches[1..], b);
    }
  }

  // The length of the longest batch: that of the array behind d.
  function MaxLen(batches: seq<seq<Item>>): (n: nat) {
    if batches == [] then 0
    else
      var n, b := MaxLen(batches[..|batches| - 1]), batches[|batches| - 1];
      if |b| > n then |b| else n
  }

  // The i-th item of the last batch that has one: the leftover a further batch meets there.
  function LastAt(batches: seq<seq<Item>>, i: nat): Item
    requires i < MaxLen(batches)
  {
    var b := batches[|batches| - 1];
    if i < |b| then b[i] else LastAt(batches[..|batches| - 1], i)
  }

  // b is longer than every batch before it, or its empty fields meet empty leftovers.
  predicate Compatible(batches: seq<seq<Item>>, b: seq<Item>) {
    |b| > MaxLen(batches) || forall i :: 0 <= i < |b| ==> FieldsCompatible(LastAt(batches, i), b[i])
  }

  predicate FieldsCompatible(leftover: Item, sent: Item) {
    (sent.id == "" ==> leftover.id == "") && (sent.userID == "" ==> leftover.userID == "")
  }

  predicate AllCompatible(batches: seq<seq<Item>>) {
    batches == [] ||
    (AllCompatible(batches[..|batches| - 1]) && Compatible(batches[..|batches| - 1], batches[|batches| - 1]))
  }

  // What the array behind d holds after batches that decoded exactly.
  ghost predicate HoldsLeftovers(d: seq<Item>, batches: seq<seq<Item>>) {
    |d| == MaxLen(batches) && forall i :: 0 <= i < |d| ==> d[i] == LastAt(batches, i)
  }

  lemma CompatibleDecodes(d: seq<Item>, batches: seq<seq<Item>>, b: seq<Item>)
    requires HoldsLeftovers(d, batches)
    ensures Decoded(d, b) == b <==> Compatible(batches, b)
    ensures Compatible(batches, b) ==> HoldsLeftovers(Overlay(d, b), batches + [b])
  {
    var all := batches + [b];
    assert all[..|all| - 1] == batches;
    if |b| <= |d| {
      forall i | 0 <= i < |b| ensures Decoded(d, b)[i] == b[i] <==> FieldsCompatible(LastAt(batches, i), b[i]) {
        assert Decoded(d, b)[i] == Merge(d[i], b[i]);
      }
    }
  }

  // A queue decodes to what was queued exactly when every empty field is sent where the last
  // batch reaching that far had an empty field too, or in a batch longer than all before it.
  lemma {:induction false} QueueExact(batches: seq<seq<Item>>)
    ensures DecodedAll([], batches) == Flatten(batches) <==> AllCompatible(batches)
    ensures AllCompatible(batches) ==> HoldsLeftovers(OverlayAll([], batches), batches)
    decreases |batches|
  {
    if batches == [] {
    } else {
      var front, b := batches[..|batches| - 1], batches[|batches| - 1];
      assert batches == front + [b];
      QueueExact(front);
      DecodedAppends([], front, b);
      DecodedLength([], front);
      FlattenAppends(front, b);
      SplitEqual(DecodedAll([], front), Decoded(OverlayAll([], front), b), Flatten(front), b);
      if AllCompatible(front) { CompatibleDecodes(OverlayAll([], front), front, b); }
    }
  }

  lemma SplitEqual(a: seq<Item>, b: seq<Item>, c: seq<Item>, d: seq<Item>)
    requires |a| == |c|
    ensures a + b == c + d <==> a == c && b == d
  {
    if a + b == c + d {
      assert (a + b)[..|a|] == a && (c + d)[..|a|] == c;
      assert (a + b)[|a|..] == b && (c + d)[|a|..] == d;
    }
  }

  // With an empty id the reused slice leaks an earlier one: v's request for "" deletes v's URL
  // "a", which only u, not its owner, asked for.
  lemma EmptyIdDeletesAnother(c: Codec)
    ensures var batches := [[Item("a", "u")], [Item("", "v")]];
            var rows := map["a" := Entry("url", "v", false)];
            && Item("a", "v") !in Flatten(batches)
            && Decode(c, Stream(c, batches), false, []) == Some([Item("a", "u"), Item("a", "v")])
            && MarkQueued(rows, [Item("a", "u"), Item("a", "v")])["a"].deleted
  {
    var first, second := [Item("a", "u")], [Item("", "v")];
    var batches := [first, second];
    assert batches[1..] == [second] && [second][1..] == [];
    assert Flatten([second]) == second + [];
    assert Flatten(batches) == first + second;
    assert Overlay([], first) == first;
    assert Decoded(first, second) == [Item("a", "v")];
    assert DecodedAll(first, [second]) == [Item("a", "v")] + DecodedAll(Overlay(first, second), []);
    assert Decoded([], first) == first;
    assert DecodedAll([], batches) == first + DecodedAll(first, [second]);
    DecodeStream(c, batches, []);
    assert Stream(c, batches) + [] == Stream(c, batches);
    assert DecodedAll([], batches) + [] == [Item("a", "u"), Item("a", "v")];
  }

  // ---- Flush ----

  // Every queued item takes a byte of the buffer, so a queue never has too many for one statement.
  lemma {:induction false} BodyHoldsItems(c: Codec, batches: seq<seq<Item>>)
    ensures |Flatten(batches)| <= |Body(c, batches)|
  {
    if batches == [] {
    } else {
      BodyHoldsItems(c, batches[1..]);
    }
  }

  // A flush succeeds exactly when nothing is queued, or something other than empty id lists is
  // and the server answers; it then applies what the queue decodes to.
  lemma FlushOutcome(c: Codec, db: Db, batches: seq<seq<Item>>, up: bool)
    requires Queued(c, db, batches)
    ensures !Flush(c, db, up).failed <==> batches == [] || (up && Flatten(batches) != [])
    ensures !Flush(c, db, up).failed ==>
              && Queued(c, Flush(c, db, up), [])
              && Flush(c, db, up).rows == MarkQueued(db.rows, DecodedAll([], batches))
    ensures Flush(c, db, up).failed ==> Flush(c, db, up).rows == db.rows
  {
    if batches == [] {
      assert MarkQueued(db.rows, []) == db.rows;
    } else {
      SinkOfQueue(c, db, batches, up);
    }
  }

  lemma SinkOfQueue(c: Codec, db: Db, batches: seq<seq<Item>>, up: bool)
    requires Queued(c, db, batches) && batches != []
    ensures Sink(c, db.rows, db.buf, up) ==
            if up && Flatten(batches) != [] then Some(MarkQueued(db.rows, DecodedAll([], batches))) else None
  {
    DecodeStream(c, batches, []);
    assert Stream(c, batches) + [] == Stream(c, batches);
    assert DecodedAll([], batches) + [] == DecodedAll([], batches);
    DecodedLength([], batches);
    BodyHoldsItems(c, batches);
  }

  // ---- DeleteURLs ----

  lemma {:induction false} BodyAppends(c: Codec, batches: seq<seq<Item>>, b: seq<Item>)
    ensures Body(c, batches + [b]) == Body(c, batches) + Bytes(c, Batch(b))
  {
    if batches == [] {
      assert batches + [b] == [b] && [b][1..] == [];
      assert Body(c, [b]) == Bytes(c, Batch(b)) + [];
    } else {
      assert (batches + [b])[1..] == batches[1..] + [b];
      BodyAppends(c, batches[1..], b);
    }
  }

  lemma StreamAppends(c: Codec, batches: seq<seq<Item>>, b: seq<Item>)
    ensures Stream(c, batches + [b]) == Stream(c, batches) + Encoded(c, batches != [], b)
  {
    BodyAppends(c, batches, b);
  }

  // How many bytes of the buffer are taken with the next batch.
  function Room(c: Codec, db: Db, its: seq<Item>): nat {
    |db.buf| + |Encoded(c, db.typed, its)|
  }

  // A batch that fits is queued behind the others.
  lemma DeleteQueues(c: Codec, db: Db, batches: seq<seq<Item>>, userID: string, ids: seq<string>, up: bool)
    requires Queued(c, db, batches) && Room(c, db, Items(userID, ids)) <= CAPACITY
    ensures Queued(c, Delete(c, db, userID, ids, up), batches + [Items(userID, ids)])
    ensures Delete(c, db, userID, ids, up).rows == db.rows
  {
    StreamAppends(c, batches, Items(userID, ids));
  }

  // The bytes of a batch whose type was sent to an earlier decoder.
  ghost predicate Orphaned(c: Codec, db: Db, b: seq<Item>) {
    !db.failed && db.typed && db.buf == Bytes(c, Batch(b)) && |db.buf| <= CAPACITY
  }

  // An empty buffer whose encoder will not send the type again.
  ghost predicate Stale(db: Db) {
    !db.failed && db.buf == [] && db.typed
  }

  // A batch too big for an empty buffer goes straight through. The writer breaks exactly when the
  // server does not run the statement; otherwise the encoder is left stale.
  lemma OverflowEmpty(c: Codec, db: Db, userID: string, ids: seq<string>, up: bool)
    requires Queued(c, db, []) && Room(c, db, Items(userID, ids)) > CAPACITY
    ensures var r, its := Delete(c, db, userID, ids, up), Items(userID, ids);
            if up && Executable(its) then Stale(r) && r.rows == MarkQueued(db.rows, its)
            else r.failed && r.rows == db.rows
  {
    DirectWrite(c, Items(userID, ids));
  }

  // Behind a partly filled buffer it always breaks the writer.
  lemma OverflowPartial(c: Codec, db: Db, batches: seq<seq<Item>>, userID: string, ids: seq<string>, up: bool)
    requires Queued(c, db, batches) && Room(c, db, Items(userID, ids)) > CAPACITY
    requires 0 < |db.buf| < CAPACITY
    ensures Delete(c, db, userID, ids, up).failed && Delete(c, db, userID, ids, up).rows == db.rows
  {
    var its := Items(userID, ids);
    var k := CAPACITY - |db.buf|;
    assert Encoded(c, db.typed, its) == Bytes(c, Batch(its));
    DecodeStream(c, batches, Bytes(c, Batch(its))[..k]);
    DecodeTruncated(c, Batch(its), k, true, OverlayAll([], batches));
  }

  // Behind a full buffer what is queued is applied first, if the server runs the statement; the
  // batch then breaks the writer when it is too big for the buffer, and lies there untyped if not.
  lemma OverflowFull(c: Codec, db: Db, batches: seq<seq<Item>>, userID: string, ids: seq<string>, up: bool)
    requires Queued(c, db, batches) && |db.buf| == CAPACITY
    ensures var r, its := Delete(c, db, userID, ids, up), Items(userID, ids);
            if !(up && Flatten(batches) != []) then r.failed && r.rows == db.rows
            else r.rows == MarkQueued(db.rows, DecodedAll([], batches)) &&
                 if Size(c, Batch(its)) <= CAPACITY then Orphaned(c, r, its) else r.failed
  {
    var p := Bytes(c, Batch(Items(userID, ids)));
    assert Encoded(c, db.typed, Items(userID, ids)) == p;
    SinkOfQueue(c, db, batches, up);
    WriteBehindFull(c, db, p, up);
    UntypedFails(c, Items(userID, ids));
    assert [] + p == p;
  }

  // A write behind a full buffer flushes it and starts again.
  lemma WriteBehindFull(c: Codec, db: Db, p: seq<Byte>, up: bool)
    requires !db.failed && |db.buf| == CAPACITY && p != []
    ensures BufWrite(c, db, p, up) ==
            match Sink(c, db.rows, db.buf, up)
            case Some(rows) => BufWrite(c, db.(rows := rows, buf := []), p, up)
            case None => db.(failed := true)
  {
    assert p[..0] == [] && p[0..] == p && db.buf + p[..0] == db.buf;
  }

  lemma DirectWrite(c: Codec, its: seq<Item>)
    ensures Decode(c, Encoded(c, false, its), false, []) == Some(its)
  {
    assert [its][1..] == [];
    assert Body(c, [its]) == Bytes(c, Batch(its)) + [];
    assert Encoded(c, false, its) == Stream(c, [its]) + [];
    DecodeStream(c, [its], []);
    assert DecodedAll([], [its]) + [] == its;
  }

  lemma UntypedFails(c: Codec, its: seq<Item>)
    ensures Decode(c, Bytes(c, Batch(its)), false, []) == None
  {
    DecodeMessage(c, Batch(its), [], false, []);
    assert Bytes(c, Batch(its)) + [] == Bytes(c, Batch(its));
  }

  // DeleteURLs keeps the stream whole exactly when the batch fits the buffer.
  lemma KeepsStreamIff(c: Codec, db: Db, batches: seq<seq<Item>>, userID: string, ids: seq<string>, up: bool)
    requires Queued(c, db, batches)
    ensures (exists bs :: Queued(c, Delete(c, db, userID, ids, up), bs)) <==>
            |db.buf| + |Encoded(c, db.typed, Items(userID, ids))| <= 4096
  {
    var r := Delete(c, db, userID, ids, up);
    if Room(c, db, Items(userID, ids)) <= CAPACITY {
      DeleteQueues(c, db, batches, userID, ids, up);
    } else {
      OverflowBreaks(c, db, batches, userID, ids, up);
      forall bs ensures !Queued(c, r, bs) {
        NotQueued(c, r, Items(userID, ids), bs);
      }
    }
  }

  lemma OverflowBreaks(c: Codec, db: Db, batches: seq<seq<Item>>, userID: string, ids: seq<string>, up: bool)
    requires Queued(c, db, batches) && Room(c, db, Items(userID, ids)) > CAPACITY
    ensures var r := Delete(c, db, userID, ids, up); r.failed || Stale(r) || Orphaned(c, r, Items(userID, ids))
  {
    if db.buf == [] {
      OverflowEmpty(c, db, userID, ids, up);
    } else if |db.buf| < CAPACITY {
      OverflowPartial(c, db, batches, userID, ids, up);
    } else {
      OverflowFull(c, db, batches, userID, ids, up);
    }
  }

  lemma NotQueued(c: Codec, db: Db, b: seq<Item>, bs: seq<seq<Item>>)
    requires db.failed || Stale(db) || Orphaned(c, db, b)
    ensures !Queued(c, db, bs)
  {
    if bs != [] {
      assert Stream(c, bs)[0] == Byte(TypeInfo, 0);
      assert Bytes(c, Batch(b))[0] == Byte(Batch(b), 0);
    }
  }

  // A batch without its type is never applied: the next flush breaks the writer.
  lemma OrphanIsLost(c: Codec, db: Db, b: seq<Item>, up: bool)
    requires Orphaned(c, db, b)
    ensures Flush(c, db, up).failed && Flush(c, db, up).rows == db.rows
  {
    UntypedFails(c, b);
  }

  // After a batch that went straight through, the next batch is lost, unless a flush comes first.
  lemma StaleLosesNext(c: Codec, db: Db, userID: string, ids: seq<string>, up: bool)
    requires Stale(db)
    ensures var r := Flush(c, Delete(c, db, userID, ids, up), up); r.failed && r.rows == db.rows
    ensures Queued(c, Flush(c, db, up), [])
  {
    var its := Items(userID, ids);
    UntypedFails(c, its);
    assert Encoded(c, true, its) == Bytes(c, Batch(its)) && [] + Bytes(c, Batch(its)) == Bytes(c, Batch(its));
  }
}
