// DeleteURLs of the database storage takes its mutex twice: once to encode, once to write. The
// bytes returned in between still belong to the encoder's scratch buffer, which Reset has freed
// for the next call.
module TwoSections {
  import opened Types
  import opened Database
  import opened WriteBehind

  // A call between its two sections: what it asks, the bytes Encode made for it, and the scratch
  // array in which the slice it is going to write lies.
  datatype Pending = Pending(items: seq<Item>, own: seq<Byte>, slot: nat)

  // The arrays bytes.Buffer has allocated, the last being in use; the bytes last encoded into each;
  // the calls between their sections; and what is queued, call by call, as they asked.
  datatype State = State(db: Db, arrays: seq<seq<Byte>>, last: seq<seq<Byte>>,
                         pending: map<nat, Pending>, asked: seq<seq<Item>>)

  // The two sections of a call; spare is what a newly allocated array holds beyond its bytes.
  datatype Event = Encode(call: nat, items: seq<Item>, spare: seq<Byte>) | Append(call: nat)

  ghost predicate Valid(s: State) {
    && |s.db.buf| <= CAPACITY && !s.db.failed
    && |s.arrays| == |s.last| > 0
    && (forall j :: 0 <= j < |s.arrays| ==> s.last[j] <= s.arrays[j])
    && (forall k :: k in s.pending ==>
          s.pending[k].slot < |s.arrays| && 0 < |s.pending[k].own| <= |s.arrays[s.pending[k].slot]|)
  }

  // The buffer has room for what a call is going to write.
  ghost predicate Enabled(s: State, e: Event) {
    match e
    case Encode(call, _, _) => call !in s.pending
    case Append(call) => call in s.pending && |s.db.buf| + |s.pending[call].own| <= CAPACITY
  }

  // Bytes that fit the scratch array overwrite it from the start, others go into a new one.
  ghost function Encoding(c: Codec, s: State, call: nat, items: seq<Item>, spare: seq<Byte>): (r: State)
    requires Valid(s) && call !in s.pending
    ensures Valid(r)
  {
    var b := Encoded(c, s.db.typed, items);
    var j := |s.arrays| - 1;
    if |b| <= |s.arrays[j]| then
      State(s.db.(typed := true), s.arrays[j := b + s.arrays[j][|b|..]], s.last[j := b],
            s.pending[call := Pending(items, b, j)], s.asked)
    else
      State(s.db.(typed := true), s.arrays + [b + spare], s.last + [b],
            s.pending[call := Pending(items, b, j + 1)], s.asked)
  }

  // What the slice of a call shows by now.
  ghost function Shown(s: State, call: nat): (z: seq<Byte>)
    requires Valid(s) && call in s.pending
    ensures |z| == |s.pending[call].own|
  {
    s.arrays[s.pending[call].slot][..|s.pending[call].own|]
  }

  ghost function Appending(c: Codec, s: State, call: nat): (r: State)
    requires Valid(s) && Enabled(s, Append(call))
    ensures Valid(r) && r.db == s.db.(buf := s.db.buf + Shown(s, call))
  {
    s.(db := BufWrite(c, s.db, Shown(s, call), true),
       pending := s.pending - {call},
       asked := s.asked + [s.pending[call].items])
  }

  ghost function Apply(c: Codec, s: State, e: Event): (r: State)
    requires Valid(s) && Enabled(s, e)
    ensures Valid(r)
  {
    match e
    case Encode(call, items, spare) => Encoding(c, s, call, items, spare)
    case Append(call) => Appending(c, s, call)
  }

  ghost predicate ValidRun(c: Codec, s: State, es: seq<Event>)
    requires Valid(s)
    decreases |es|
  {
    es == [] || (Enabled(s, es[0]) && ValidRun(c, Apply(c, s, es[0]), es[1..]))
  }

  ghost function Run(c: Codec, s: State, es: seq<Event>): (r: State)
    requires Valid(s) && ValidRun(c, s, es)
    ensures Valid(r)
    decreases |es|
  {
    if es == [] then s else Run(c, Apply(c, s, es[0]), es[1..])
  }

  lemma EncodingFirst(c: Codec, s: State, call: nat, items: seq<Item>, spare: seq<Byte>)
    requires Valid(s) && call !in s.pending
    ensures var r := Encoding(c, s, call, items, spare);
            && r.pending[call].slot == |r.arrays| - 1
            && Shown(r, call) == r.pending[call].own == Encoded(c, s.db.typed, items)
  {
  }

  // With nothing in between, the two sections are the atomic DeleteURLs.
  lemma Uninterrupted(c: Codec, s: State, call: nat, userID: string, ids: seq<string>, spare: seq<Byte>)
    requires Valid(s) && call !in s.pending && Room(c, s.db, Items(userID, ids)) <= CAPACITY
    ensures Appending(c, Encoding(c, s, call, Items(userID, ids), spare), call).db ==
            Delete(c, s.db, userID, ids, true)
  {
    var r := Encoding(c, s, call, Items(userID, ids), spare);
    assert Shown(r, call) == Encoded(c, s.db.typed, Items(userID, ids));
  }

  // ---- Any number of calls, in any order ----

  predicate CarriesType(b: seq<Byte>)
    requires b != []
  {
    b[0].msg.TypeInfo?
  }

  // The call will write its own bytes: no other call has encoded into its array since, or only
  // one that asks the same. The first bytes in the buffer have to be those with the type.
  ghost predicate Intact(s: State, call: nat)
    requires Valid(s) && call in s.pending
  {
    && s.last[s.pending[call].slot] == s.pending[call].own
    && (s.asked == [] ==> CarriesType(s.pending[call].own))
  }

  ghost predicate AllIntact(c: Codec, s: State, es: seq<Event>)
    requires Valid(s) && ValidRun(c, s, es)
    decreases |es|
  {
    es == [] ||
    ((es[0].Append? ==> Intact(s, es[0].call)) && AllIntact(c, Apply(c, s, es[0]), es[1..]))
  }

  // What Encode made for a pending call, and what has since been put into its array.
  ghost predicate PendingInv(c: Codec, s: State, p: Pending)
    requires Valid(s) && p.slot < |s.arrays| && p.own != []
  {
    && p.own == Encoded(c, !CarriesType(p.own), p.items)
    && s.last[p.slot] != []
    && (s.last[p.slot] == p.own || s.last[p.slot][0] != p.own[0])
    && (!CarriesType(p.own) ==> !CarriesType(s.last[p.slot]))
  }

  ghost predicate Inv(c: Codec, s: State) {
    && Valid(s)
    && (forall k :: k in s.pending ==> PendingInv(c, s, s.pending[k]))
    && (!s.db.typed ==> s.pending == map[] && s.asked == [])
    && (forall k, l :: k in s.pending && l in s.pending ==>
          CarriesType(s.pending[k].own) && CarriesType(s.pending[l].own) ==> k == l)
  }

  // Nobody is between the sections and the buffer holds the queue.
  ghost predicate Start(c: Codec, s: State) {
    Valid(s) && s.pending == map[] && Queued(c, s.db, s.asked)
  }

  // The buffer holds the queue, and the type is still to come or is in it already.
  ghost predicate Whole(c: Codec, s: State) {
    && s.db.buf == Stream(c, s.asked)
    && (s.asked != [] ==> forall k :: k in s.pending && s.pending[k].own != [] ==> !CarriesType(s.pending[k].own))
  }

  // The buffer and the queue differ for good, for both only grow.
  ghost predicate Broken(c: Codec, s: State) {
    s.asked != [] && Differ(s.db.buf, Stream(c, s.asked))
  }

  ghost predicate Differ(a: seq<Byte>, b: seq<Byte>) {
    exists i :: 0 <= i < |a| && i < |b| && a[i] != b[i]
  }

  lemma DifferGrows(a: seq<Byte>, b: seq<Byte>, x: seq<Byte>, y: seq<Byte>)
    requires Differ(a, b)
    ensures Differ(a + x, b + y)
  {
    var i :| 0 <= i < |a| && i < |b| && a[i] != b[i];
    assert (a + x)[i] == a[i] && (b + y)[i] == b[i];
  }

  lemma EncodedFirst(c: Codec, typed: bool, items: seq<Item>)
    ensures var b := Encoded(c, typed, items);
            && (CarriesType(b) <==> !typed)
            && b[0] == Byte(if typed then Batch(items) else TypeInfo, 0)
  {
    var b := Encoded(c, typed, items);
    assert Bytes(c, TypeInfo)[0] == Byte(TypeInfo, 0) && Bytes(c, Batch(items))[0] == Byte(Batch(items), 0);
  }

  lemma EncodeKeepsPending(c: Codec, s: State, call: nat, items: seq<Item>, spare: seq<Byte>, p: Pending)
    requires Valid(s) && call !in s.pending && s.db.typed
    requires p.slot < |s.arrays| && p.own != [] && PendingInv(c, s, p)
    ensures PendingInv(c, Encoding(c, s, call, items, spare), p)
  {
    EncodedFirst(c, true, items);
    EncodedFirst(c, !CarriesType(p.own), p.items);
  }

  lemma EncodeNew(c: Codec, s: State, call: nat, items: seq<Item>, spare: seq<Byte>)
    requires Valid(s) && call !in s.pending
    ensures var r := Encoding(c, s, call, items, spare);
            && r.pending == s.pending[call := r.pending[call]]
            && r.pending[call].own == Encoded(c, s.db.typed, items)
            && PendingInv(c, r, r.pending[call])
  {
    EncodedFirst(c, s.db.typed, items);
  }

  lemma EncodeInv(c: Codec, s: State, e: Event)
    requires Inv(c, s) && e.Encode? && Enabled(s, e)
    ensures Inv(c, Apply(c, s, e))
  {
    var r := Apply(c, s, e);
    EncodeNew(c, s, e.call, e.items, e.spare);
    EncodedFirst(c, s.db.typed, e.items);
    forall k | k in s.pending ensures PendingInv(c, r, s.pending[k]) {
      EncodeKeepsPending(c, s, e.call, e.items, e.spare, s.pending[k]);
    }
  }

  lemma EncodeKeeps(c: Codec, s: State, e: Event)
    requires Inv(c, s) && e.Encode? && Enabled(s, e)
    ensures Whole(c, s) ==> Whole(c, Apply(c, s, e))
    ensures Broken(c, s) ==> Broken(c, Apply(c, s, e))
  {
    EncodedFirst(c, s.db.typed, e.items);
  }

  // A pending slice shows the call's own bytes exactly when they were the last put into its array,
  // and otherwise differs in its first byte.
  lemma ShownExact(c: Codec, s: State, call: nat)
    requires Inv(c, s) && call in s.pending
    ensures var p := s.pending[call];
            if s.last[p.slot] == p.own then Shown(s, call) == p.own
            else Shown(s, call)[0] == s.last[p.slot][0] != p.own[0]
  {
    var p := s.pending[call];
    assert PendingInv(c, s, p);
    assert s.last[p.slot] <= s.arrays[p.slot];
  }

  lemma AppendInv(c: Codec, s: State, call: nat)
    requires Inv(c, s) && Enabled(s, Append(call))
    ensures Inv(c, Appending(c, s, call))
  {
    var r := Appending(c, s, call);
    forall k | k in r.pending ensures PendingInv(c, r, r.pending[k]) {
      assert PendingInv(c, s, s.pending[k]);
    }
  }

  lemma AppendIntact(c: Codec, s: State, call: nat)
    requires Inv(c, s) && Whole(c, s) && Enabled(s, Append(call)) && Intact(s, call)
    ensures Whole(c, Appending(c, s, call))
  {
    var p := s.pending[call];
    ShownExact(c, s, call);
    assert PendingInv(c, s, p);
    EncodedFirst(c, !CarriesType(p.own), p.items);
    StreamAppends(c, s.asked, p.items);
  }

  lemma AppendNotIntact(c: Codec, s: State, call: nat)
    requires Inv(c, s) && Whole(c, s) && Enabled(s, Append(call)) && !Intact(s, call)
    ensures Broken(c, Appending(c, s, call))
  {
    var p := s.pending[call];
    var r := Appending(c, s, call);
    ShownExact(c, s, call);
    assert PendingInv(c, s, p);
    EncodedFirst(c, s.asked != [], p.items);
    StreamAppends(c, s.asked, p.items);
    var i := |s.db.buf|;
    assert r.db.buf[i] == Shown(s, call)[0];
    assert Stream(c, r.asked)[i] == Encoded(c, s.asked != [], p.items)[0];
  }

  lemma AppendBroken(c: Codec, s: State, call: nat)
    requires Inv(c, s) && Broken(c, s) && Enabled(s, Append(call))
    ensures Broken(c, Appending(c, s, call))
  {
    var items := s.pending[call].items;
    StreamAppends(c, s.asked, items);
    DifferGrows(s.db.buf, Stream(c, s.asked), Shown(s, call), Encoded(c, true, items));
  }

  lemma {:induction false} BrokenStays(c: Codec, s: State, es: seq<Event>)
    requires Inv(c, s) && Broken(c, s) && ValidRun(c, s, es)
    ensures Broken(c, Run(c, s, es))
    decreases |es|
  {
    if es == [] {
    } else {
      if es[0].Encode? {
        EncodeInv(c, s, es[0]);
        EncodeKeeps(c, s, es[0]);
      } else {
        AppendInv(c, s, es[0].call);
        AppendBroken(c, s, es[0].call);
      }
      BrokenStays(c, Apply(c, s, es[0]), es[1..]);
    }
  }

  lemma {:induction false} WholeOrBroken(c: Codec, s: State, es: seq<Event>)
    requires Inv(c, s) && Whole(c, s) && ValidRun(c, s, es)
    ensures if AllIntact(c, s, es) then Whole(c, Run(c, s, es)) else Broken(c, Run(c, s, es))
    decreases |es|
  {
    if es == [] {
    } else {
      var e, r := es[0], Apply(c, s, es[0]);
      if e.Encode? {
        EncodeInv(c, s, e);
        EncodeKeeps(c, s, e);
        WholeOrBroken(c, r, es[1..]);
      } else {
        AppendInv(c, s, e.call);
        if Intact(s, e.call) {
          AppendIntact(c, s, e.call);
          WholeOrBroken(c, r, es[1..]);
        } else {
          AppendNotIntact(c, s, e.call);
          BrokenStays(c, r, es[1..]);
        }
      }
    }
  }

  // However the sections of any number of calls interleave, the buffer holds exactly what was
  // asked, in the order of the second sections, if and only if every call wrote its own bytes and
  // the type came first.
  lemma StreamIntactIff(c: Codec, s: State, es: seq<Event>)
    requires Start(c, s) && ValidRun(c, s, es)
    ensures Run(c, s, es).db.buf == Stream(c, Run(c, s, es).asked) <==> AllIntact(c, s, es)
  {
    WholeOrBroken(c, s, es);
  }

  // ---- Two calls that encode one after the other and only then write ----

  ghost function Crossed(c: Codec, s: State, a: seq<Item>, b: seq<Item>, spareA: seq<Byte>, spareB: seq<Byte>): State
    requires Valid(s) && 0 !in s.pending && 1 !in s.pending && s.db.typed
    requires |s.db.buf| + Size(c, Batch(a)) + Size(c, Batch(b)) <= CAPACITY
  {
    var s1 := Encoding(c, s, 0, a, spareA);
    assert s1.pending[0].own == Bytes(c, Batch(a)) by { EncodingFirst(c, s, 0, a, spareA); }
    var s2 := Encoding(c, s1, 1, b, spareB);
    assert s2.pending[1].own == Bytes(c, Batch(b)) && s2.pending[0] == s1.pending[0];
    Appending(c, Appending(c, s2, 0), 1)
  }

  // The first call's array is big enough for the second call's bytes too.
  ghost predicate Reused(c: Codec, s: State, a: seq<Item>, b: seq<Item>, spareA: seq<Byte>)
    requires Valid(s) && 0 !in s.pending
  {
    var arrays := Encoding(c, s, 0, a, spareA).arrays;
    Size(c, Batch(b)) <= |arrays[|arrays| - 1]|
  }

  // What bytes x of the first call become under bytes y of the second.
  function Overwritten(x: seq<Byte>, y: seq<Byte>): (z: seq<Byte>)
    ensures |z| == |x|
  {
    if |y| <= |x| then y + x[|y|..] else y[..|x|]
  }

  lemma TakeOverwritten(x: seq<Byte>, y: seq<Byte>, n: nat)
    requires n <= |x| && |y| <= |x|
    ensures (y + x[|y|..])[..n] == Overwritten(x[..n], y)
  {
  }

  // Encode overwrites what the pending slices of the array in use show.
  lemma EncodingShows(c: Codec, s: State, call: nat, items: seq<Item>, spare: seq<Byte>, k: nat)
    requires Valid(s) && call !in s.pending && k in s.pending
    ensures var y, j, r := Encoded(c, s.db.typed, items), |s.arrays| - 1, Encoding(c, s, call, items, spare);
            && Shown(r, call) == y
            && Shown(r, k) ==
               if s.pending[k].slot == j && |y| <= |s.arrays[j]| then Overwritten(Shown(s, k), y) else Shown(s, k)
  {
    var y, j := Encoded(c, s.db.typed, items), |s.arrays| - 1;
    EncodingFirst(c, s, call, items, spare);
    if s.pending[k].slot == j && |y| <= |s.arrays[j]| {
      TakeOverwritten(s.arrays[j], y, |s.pending[k].own|);
    }
  }

  lemma CrossedBuffer(c: Codec, s: State, a: seq<Item>, b: seq<Item>, spareA: seq<Byte>, spareB: seq<Byte>)
    requires Valid(s) && 0 !in s.pending && 1 !in s.pending && s.db.typed
    requires |s.db.buf| + Size(c, Batch(a)) + Size(c, Batch(b)) <= CAPACITY
    ensures var x, y := Bytes(c, Batch(a)), Bytes(c, Batch(b));
            var z := if Reused(c, s, a, b, spareA) then Overwritten(x, y) else x;
            Crossed(c, s, a, b, spareA, spareB).db == s.db.(buf := s.db.buf + z + y)
  {
    assert Encoded(c, true, a) == Bytes(c, Batch(a)) && Encoded(c, true, b) == Bytes(c, Batch(b));
    var s1 := Encoding(c, s, 0, a, spareA);
    EncodingFirst(c, s, 0, a, spareA);
    EncodingShows(c, s1, 1, b, spareB, 0);
    var s2 := Encoding(c, s1, 1, b, spareB);
    assert Shown(Appending(c, s2, 0), 1) == Shown(s2, 1);
  }

  lemma OverwrittenExact(c: Codec, a: seq<Item>, b: seq<Item>)
    ensures Overwritten(Bytes(c, Batch(a)), Bytes(c, Batch(b))) == Bytes(c, Batch(a)) <==> a == b
  {
    var x, y := Bytes(c, Batch(a)), Bytes(c, Batch(b));
    assert Overwritten(x, y)[0] == y[0] == Byte(Batch(b), 0) && x[0] == Byte(Batch(a), 0);
  }

  lemma TwoMore(c: Codec, db: Db, batches: seq<seq<Item>>, a: seq<Item>, b: seq<Item>, z: seq<Byte>)
    requires Queued(c, db, batches) && batches != [] && |z| == |Bytes(c, Batch(a))|
    requires |db.buf| + |z| + |Bytes(c, Batch(b))| <= CAPACITY
    ensures Queued(c, db.(buf := db.buf + z + Bytes(c, Batch(b))), batches + [a] + [b]) <==> z == Bytes(c, Batch(a))
  {
    var x, y := Bytes(c, Batch(a)), Bytes(c, Batch(b));
    StreamAppends(c, batches, a);
    StreamAppends(c, batches + [a], b);
    assert Encoded(c, true, a) == x && Encoded(c, true, b) == y;
    assert Stream(c, batches + [a] + [b]) == db.buf + x + y;
    var k := |db.buf|;
    assert (db.buf + z + y)[k..k + |z|] == z && (db.buf + x + y)[k..k + |x|] == x;
  }

  // Both requests are queued exactly when the scratch array was not reused, or both ask the same.
  lemma CrossedCallsQueuedIff(c: Codec, s: State, batches: seq<seq<Item>>, a: seq<Item>, b: seq<Item>,
                              spareA: seq<Byte>, spareB: seq<Byte>)
    requires Valid(s) && 0 !in s.pending && 1 !in s.pending && Queued(c, s.db, batches) && batches != []
    requires |s.db.buf| + Size(c, Batch(a)) + Size(c, Batch(b)) <= CAPACITY
    ensures Queued(c, Crossed(c, s, a, b, spareA, spareB).db, batches + [a] + [b]) <==>
            !Reused(c, s, a, b, spareA) || a == b
  {
    var x, y := Bytes(c, Batch(a)), Bytes(c, Batch(b));
    CrossedBuffer(c, s, a, b, spareA, spareB);
    OverwrittenExact(c, a, b);
    TwoMore(c, s.db, batches, a, b, if Reused(c, s, a, b, spareA) then Overwritten(x, y) else x);
  }

  // When it was reused for as many bytes, the first request is lost and the second queued twice.
  lemma FirstCallLost(c: Codec, s: State, batches: seq<seq<Item>>, a: seq<Item>, b: seq<Item>,
                      spareA: seq<Byte>, spareB: seq<Byte>)
    requires Valid(s) && 0 !in s.pending && 1 !in s.pending && Queued(c, s.db, batches) && batches != []
    requires Size(c, Batch(a)) == Size(c, Batch(b))
    requires |s.db.buf| + Size(c, Batch(a)) + Size(c, Batch(b)) <= CAPACITY
    ensures Queued(c, Crossed(c, s, a, b, spareA, spareB).db, batches + [b] + [b])
  {
    CrossedBuffer(c, s, a, b, spareA, spareB);
    assert Encoded(c, true, a) == Bytes(c, Batch(a)) && Encoded(c, true, b) == Bytes(c, Batch(b));
    assert Reused(c, s, a, b, spareA);
    assert Overwritten(Bytes(c, Batch(a)), Bytes(c, Batch(b))) == Bytes(c, Batch(b));
    TwoMore(c, s.db, batches, b, b, Bytes(c, Batch(b)));
  }

  // For a different number of bytes the stream no longer decodes ...
  lemma OverwrittenFails(c: Codec, a: seq<Item>, b: seq<Item>, d: seq<Item>)
    requires Size(c, Batch(a)) != Size(c, Batch(b))
    ensures var x, y := Bytes(c, Batch(a)), Bytes(c, Batch(b));
            Decode(c, Overwritten(x, y) + y, true, d) == None
  {
    var x, y := Bytes(c, Batch(a)), Bytes(c, Batch(b));
    if |y| < |x| {
      var rest := x[|y|..] + y;
      assert Overwritten(x, y) + y == y + rest;
      DecodeMessage(c, Batch(b), rest, true, d);
      assert rest[0] == Byte(Batch(a), |y|);
      assert Bytes(c, Batch(a))[0] != rest[0];
    } else {
      var p := Overwritten(x, y) + y;
      assert p[0] == Byte(Batch(b), 0);
      assert p[..|y|][|x|] == y[0] != y[|x|];
    }
  }

  lemma UndecodableLost(c: Codec, db: Db, p: seq<Byte>, up: bool)
    requires |db.buf| <= CAPACITY && db.buf == p != [] && Decode(c, p, false, []) == None
    ensures Flush(c, db, up).failed && Flush(c, db, up).rows == db.rows
  {
  }

  lemma OverwrittenStream(c: Codec, batches: seq<seq<Item>>, a: seq<Item>, b: seq<Item>)
    requires batches != [] && Size(c, Batch(a)) != Size(c, Batch(b))
    ensures var x, y := Bytes(c, Batch(a)), Bytes(c, Batch(b));
            Decode(c, Stream(c, batches) + Overwritten(x, y) + y, false, []) == None
  {
    var x, y := Bytes(c, Batch(a)), Bytes(c, Batch(b));
    DecodeStream(c, batches, Overwritten(x, y) + y);
    OverwrittenFails(c, a, b, OverlayAll([], batches));
    assert Stream(c, batches) + Overwritten(x, y) + y == Stream(c, batches) + (Overwritten(x, y) + y);
  }

  // ... and the next flush loses both requests and everything queued before them.
  lemma CrossedLosesAll(c: Codec, s: State, batches: seq<seq<Item>>, a: seq<Item>, b: seq<Item>,
                        spareA: seq<Byte>, spareB: seq<Byte>, up: bool)
    requires Valid(s) && 0 !in s.pending && 1 !in s.pending && Queued(c, s.db, batches) && batches != []
    requires Size(c, Batch(a)) != Size(c, Batch(b)) && Reused(c, s, a, b, spareA)
    requires |s.db.buf| + Size(c, Batch(a)) + Size(c, Batch(b)) <= CAPACITY
    ensures var db := Crossed(c, s, a, b, spareA, spareB).db;
            |db.buf| <= CAPACITY && Flush(c, db, up).failed && Flush(c, db, up).rows == s.db.rows
  {
    CrossedBuffer(c, s, a, b, spareA, spareB);
    OverwrittenStream(c, batches, a, b);
    var db := Crossed(c, s, a, b, spareA, spareB).db;
    UndecodableLost(c, db, db.buf, up);
  }

  // A flush between the two sections leaves no good stream: the bytes land behind a fresh encoder,
  // without their type or with a type the encoder will send again.
  lemma FlushBetweenBreaks(c: Codec, s: State, batches: seq<seq<Item>>, its: seq<Item>, spare: seq<Byte>,
                           bs: seq<seq<Item>>)
    requires Valid(s) && 0 !in s.pending && Queued(c, s.db, batches) && Room(c, s.db, its) <= CAPACITY
    ensures var s1 := Encoding(c, s, 0, its, spare);
            !Queued(c, BufWrite(c, Flush(c, s1.db, true), Shown(s1, 0), true), bs)
  {
    var s1 := Encoding(c, s, 0, its, spare);
    assert Shown(s1, 0) == Encoded(c, s.db.typed, its);
  }

  // What a flush between the two sections leaves in the buffer.
  ghost function FlushedBetween(c: Codec, s: State, its: seq<Item>, spare: seq<Byte>): Db
    requires Valid(s) && 0 !in s.pending && Room(c, s.db, its) <= CAPACITY
  {
    var s1 := Encoding(c, s, 0, its, spare);
    BufWrite(c, Flush(c, s1.db, true), Shown(s1, 0), true)
  }

  // Behind an empty queue the call brought the type, and the next flush applies it.
  lemma FlushBetweenFirst(c: Codec, s: State, its: seq<Item>, spare: seq<Byte>)
    requires Valid(s) && 0 !in s.pending && Queued(c, s.db, []) && Room(c, s.db, its) <= CAPACITY
    ensures var r := FlushedBetween(c, s, its, spare);
            && |r.buf| <= CAPACITY && r.rows == s.db.rows
            && if its == [] then Flush(c, r, true).failed
               else Queued(c, Flush(c, r, true), []) && Flush(c, r, true).rows == MarkQueued(s.db.rows, its)
  {
    var r := FlushedBetween(c, s, its, spare);
    EncodingFirst(c, s, 0, its, spare);
    DirectWrite(c, its);
    assert [] + Encoded(c, false, its) == Encoded(c, false, its);
    assert [its][1..] == [] && Body(c, [its]) == Bytes(c, Batch(its)) + [];
    BodyHoldsItems(c, [its]);
    assert Flatten([its]) == its + [];
    assert Flush(c, s.db.(typed := true), true) == s.db.(typed := false);
    assert r == s.db.(buf := Encoded(c, false, its), typed := false);
  }

  // Unless another call encodes before that flush: its type is the second one, and both are lost.
  lemma FlushBetweenThenCall(c: Codec, s: State, its: seq<Item>, spare: seq<Byte>, userID: string, ids: seq<string>)
    requires Valid(s) && 0 !in s.pending && Queued(c, s.db, []) && Room(c, s.db, its) <= CAPACITY
    requires var r := FlushedBetween(c, s, its, spare); Room(c, r, Items(userID, ids)) <= CAPACITY
    ensures var r := Delete(c, FlushedBetween(c, s, its, spare), userID, ids, true);
            Flush(c, r, true).failed && Flush(c, r, true).rows == s.db.rows
  {
    var more := Encoded(c, false, Items(userID, ids));
    FlushBetweenFirst(c, s, its, spare);
    EncodingFirst(c, s, 0, its, spare);
    assert [] + Encoded(c, false, its) == Encoded(c, false, its);
    var r := FlushedBetween(c, s, its, spare);
    assert r == s.db.(buf := Encoded(c, false, its), typed := false);
    TypeTwice(c, its, Items(userID, ids));
    UndecodableLost(c, Delete(c, r, userID, ids, true), Encoded(c, false, its) + more, true);
  }

  lemma Behind(x: seq<Byte>, y: seq<Byte>, z: seq<Byte>)
    ensures x + y + z == x + (y + z)
  {
  }

  lemma TypeTwice(c: Codec, a: seq<Item>, b: seq<Item>)
    ensures Decode(c, Encoded(c, false, a) + Encoded(c, false, b), false, []) == None
  {
    var x, y := Bytes(c, Batch(a)), Encoded(c, false, b);
    DecodeMessage(c, TypeInfo, x + y, false, []);
    DecodeMessage(c, Batch(a), y, true, []);
    DecodeMessage(c, TypeInfo, Bytes(c, Batch(b)), true, Overlay([], a));
    Behind(Bytes(c, TypeInfo), x, y);
  }

  lemma BehindFlush(c: Codec, s: State, batches: seq<seq<Item>>, its: seq<Item>, spare: seq<Byte>)
    requires Valid(s) && 0 !in s.pending && Queued(c, s.db, batches) && batches != []
    requires Room(c, s.db, its) <= CAPACITY
    ensures var flushed := Flush(c, s.db, true);
            FlushedBetween(c, s, its, spare) ==
            if flushed.failed then flushed else flushed.(buf := Bytes(c, Batch(its)))
  {
    EncodingFirst(c, s, 0, its, spare);
    assert Encoded(c, true, its) == Bytes(c, Batch(its)) && [] + Bytes(c, Batch(its)) == Bytes(c, Batch(its));
    assert s.db.(typed := true) == s.db;
  }

  // Behind a queue the call brought no type: the queue is applied, if it is more than empty lists, and
  // the call is lost.
  lemma FlushBetweenLater(c: Codec, s: State, batches: seq<seq<Item>>, its: seq<Item>, spare: seq<Byte>)
    requires Valid(s) && 0 !in s.pending && Queued(c, s.db, batches) && batches != []
    requires Room(c, s.db, its) <= CAPACITY
    ensures var r := FlushedBetween(c, s, its, spare);
            && |r.buf| <= CAPACITY && Flush(c, r, true).failed && Flush(c, r, true).rows == r.rows
            && r.rows == if Flatten(batches) == [] then s.db.rows
                         else MarkQueued(s.db.rows, DecodedAll([], batches))
  {
    BehindFlush(c, s, batches, its, spare);
    FlushOutcome(c, s.db, batches, true);
    UntypedFails(c, its);
    var r := FlushedBetween(c, s, its, spare);
    if !r.failed { UndecodableLost(c, r, Bytes(c, Batch(its)), true); }
  }
}
