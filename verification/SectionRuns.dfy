// The two sections of any number of DeleteURLs calls among flushes, with writes that overflow the
// buffer and a server that may not answer.
module SectionRuns {
  import opened Types
  import opened Database
  import opened WriteBehind
  import T = TwoSections

  // The arrays bytes.Buffer has allocated, the last being in use; the calls between their sections;
  // and what has been queued since the last flush, call by call, as they asked.
  datatype State = State(db: Db, arrays: seq<seq<Byte>>, pending: map<nat, T.Pending>, asked: seq<seq<Item>>)

  // The type and the batch are written to the scratch buffer one after the other: part is how much of
  // the type got into the array in use before a new one was allocated.
  datatype Event =
    | Encode(call: nat, items: seq<Item>, spare: seq<Byte>, part: nat)
    | Append(call: nat, up: bool)
    | FlushAll(up: bool)

  ghost predicate Valid(c: Codec, s: State) {
    && |s.db.buf| <= CAPACITY && s.arrays != []
    && forall k :: k in s.pending ==> ValidPending(c, s.arrays, s.pending[k])
  }

  ghost predicate ValidPending(c: Codec, arrays: seq<seq<Byte>>, p: T.Pending) {
    && p.slot < |arrays| && 0 < |p.own| <= |arrays[p.slot]|
    && p.own == Encoded(c, !T.CarriesType(p.own), p.items)
  }

  ghost predicate Enabled(c: Codec, s: State, e: Event)
    requires Valid(c, s)
  {
    match e
    case Encode(call, items, _, part) =>
      && call !in s.pending
      && part <= |s.arrays[|s.arrays| - 1]| && part <= if s.db.typed then 0 else Size(c, TypeInfo)
    case Append(call, _) => call in s.pending
    case FlushAll(_) => true
  }

  // x with bytes y written over its beginning.
  function Over(x: seq<Byte>, y: seq<Byte>): (z: seq<Byte>)
    requires |y| <= |x|
    ensures |z| == |x|
  {
    y + x[|y|..]
  }

  ghost function Encoding(c: Codec, s: State, e: Event): (r: State)
    requires Valid(c, s) && e.Encode? && Enabled(c, s, e)
  {
    var b := Encoded(c, s.db.typed, e.items);
    var j := |s.arrays| - 1;
    var typed := s.db.(typed := true);
    if |b| <= |s.arrays[j]| then
      State(typed, s.arrays[j := Over(s.arrays[j], b)], s.pending[e.call := T.Pending(e.items, b, j)], s.asked)
    else
      State(typed, s.arrays[j := Over(s.arrays[j], Bytes(c, TypeInfo)[..e.part])] + [b + e.spare],
            s.pending[e.call := T.Pending(e.items, b, j + 1)], s.asked)
  }

  // What the slice of a call shows by now.
  ghost function Shown(c: Codec, s: State, call: nat): (z: seq<Byte>)
    requires Valid(c, s) && call in s.pending
    ensures |z| == |s.pending[call].own|
  {
    s.arrays[s.pending[call].slot][..|s.pending[call].own|]
  }

  ghost function Apply(c: Codec, s: State, e: Event): (r: State)
    requires Valid(c, s) && Enabled(c, s, e)
    ensures Valid(c, r)
  {
    match e
    case Encode(_, _, _, _) => EncodingValid(c, s, e); Encoding(c, s, e)
    case Append(call, up) =>
      s.(db := BufWrite(c, s.db, Shown(c, s, call), up), pending := s.pending - {call},
         asked := s.asked + [s.pending[call].items])
    case FlushAll(up) => s.(db := Flush(c, s.db, up), asked := [])
  }

  lemma EncodingValid(c: Codec, s: State, e: Event)
    requires Valid(c, s) && e.Encode? && Enabled(c, s, e)
    ensures Valid(c, Encoding(c, s, e))
  {
    T.EncodedFirst(c, s.db.typed, e.items);
  }

  ghost predicate ValidRun(c: Codec, s: State, es: seq<Event>)
    requires Valid(c, s)
    decreases |es|
  {
    es == [] || (Enabled(c, s, es[0]) && ValidRun(c, Apply(c, s, es[0]), es[1..]))
  }

  // The buffer holds what has been asked since the last flush, and the writer has no error.
  ghost predicate Whole(c: Codec, s: State) {
    !s.db.failed && s.db.buf == Stream(c, s.asked)
  }

  // It does so after every event of the run.
  ghost predicate StaysWhole(c: Codec, s: State, es: seq<Event>)
    requires Valid(c, s) && ValidRun(c, s, es)
    decreases |es|
  {
    Whole(c, s) && (es == [] || StaysWhole(c, Apply(c, s, es[0]), es[1..]))
  }

  // A call writes its own bytes, which fit, and brings the type exactly when it is the first since the
  // last flush; a flush of a queue finds more than empty lists in it, and the server answers.
  ghost predicate Intact(c: Codec, s: State, e: Event)
    requires Valid(c, s) && Enabled(c, s, e)
  {
    match e
    case Encode(_, _, _, _) => true
    case Append(call, _) =>
      var own := s.pending[call].own;
      && |s.db.buf| + |own| <= CAPACITY && Shown(c, s, call) == own
      && (T.CarriesType(own) <==> s.asked == [])
    case FlushAll(up) => s.asked == [] || (up && Flatten(s.asked) != [])
  }

  ghost predicate AllIntact(c: Codec, s: State, es: seq<Event>)
    requires Valid(c, s) && ValidRun(c, s, es)
    decreases |es|
  {
    es == [] || (Intact(c, s, es[0]) && AllIntact(c, Apply(c, s, es[0]), es[1..]))
  }

  // ---- Each event ----

  // What does not fit leaves at most itself in the buffer, and nothing when the buffer was empty.
  lemma OverflowLeaves(c: Codec, db: Db, p: seq<Byte>, up: bool)
    requires |db.buf| <= CAPACITY && !db.failed && |db.buf| + |p| > CAPACITY
    ensures var r := BufWrite(c, db, p, up);
            r.failed || (|r.buf| <= |p| && (db.buf == [] ==> r.buf == []))
  {
    if db.buf != [] {
      var k := CAPACITY - |db.buf|;
      match Sink(c, db.rows, db.buf + p[..k], up)
      case None =>
      case Some(rows) =>
        var v := db.(rows := rows, buf := []);
        assert BufWrite(c, db, p, up) == BufWrite(c, v, p[k..], up);
        if |p[k..]| > CAPACITY {
          assert BufWrite(c, v, p[k..], up).failed || BufWrite(c, v, p[k..], up).buf == [];
        }
    }
  }

  lemma StreamGrows(c: Codec, asked: seq<seq<Item>>, items: seq<Item>)
    ensures |Stream(c, asked + [items])| == |Stream(c, asked)| + |Encoded(c, asked != [], items)|
    ensures asked != [] ==> |Stream(c, asked)| > Size(c, TypeInfo)
  {
    StreamAppends(c, asked, items);
  }

  lemma EncodedSize(c: Codec, typed: bool, items: seq<Item>)
    ensures |Encoded(c, typed, items)| == Size(c, Batch(items)) + if typed then 0 else Size(c, TypeInfo)
  {
  }

  // Where the bytes do not fit, or come with a type too many or too few, the lengths tell.
  lemma AppendLengths(c: Codec, s: State, call: nat, up: bool)
    requires Valid(c, s) && call in s.pending && Whole(c, s)
    requires var own := s.pending[call].own;
             |s.db.buf| + |own| > CAPACITY || (T.CarriesType(own) != (s.asked == []))
    ensures !Whole(c, Apply(c, s, Append(call, up)))
  {
    var p, z := s.pending[call], Shown(c, s, call);
    var r := BufWrite(c, s.db, z, up);
    StreamGrows(c, s.asked, p.items);
    EncodedSize(c, s.asked != [], p.items);
    EncodedSize(c, !T.CarriesType(p.own), p.items);
    if |s.db.buf| + |z| > CAPACITY { OverflowLeaves(c, s.db, z, up); }
  }

  lemma AppendExact(c: Codec, s: State, call: nat, up: bool)
    requires Valid(c, s) && call in s.pending && Whole(c, s)
    ensures Whole(c, Apply(c, s, Append(call, up))) <==> Intact(c, s, Append(call, up))
  {
    var p, z := s.pending[call], Shown(c, s, call);
    if |s.db.buf| + |p.own| > CAPACITY || T.CarriesType(p.own) != (s.asked == []) {
      AppendLengths(c, s, call, up);
    } else {
      StreamAppends(c, s.asked, p.items);
      var n := |s.db.buf|;
      assert (s.db.buf + z)[n..] == z && (s.db.buf + p.own)[n..] == p.own;
    }
  }

  lemma FlushExact(c: Codec, s: State, up: bool)
    requires Valid(c, s) && Whole(c, s)
    ensures Whole(c, Apply(c, s, FlushAll(up))) <==> Intact(c, s, FlushAll(up))
  {
    var db := s.db.(typed := s.asked != []);
    assert Flush(c, db, up) == Flush(c, s.db, up);
    FlushOutcome(c, db, s.asked, up);
  }

  lemma EventExact(c: Codec, s: State, e: Event)
    requires Valid(c, s) && Enabled(c, s, e) && Whole(c, s)
    ensures Whole(c, Apply(c, s, e)) <==> Intact(c, s, e)
  {
    match e
    case Encode(_, _, _, _) =>
    case Append(call, up) => AppendExact(c, s, call, up);
    case FlushAll(up) => FlushExact(c, s, up);
  }

  // In every interleaving of sections and flushes the buffer holds, at any time, exactly what was
  // asked since the last flush if and only if every event is intact.
  lemma {:induction false} StaysWholeIff(c: Codec, s: State, es: seq<Event>)
    requires Valid(c, s) && Whole(c, s) && ValidRun(c, s, es)
    ensures StaysWhole(c, s, es) <==> AllIntact(c, s, es)
    decreases |es|
  {
    if es == [] {
    } else {
      EventExact(c, s, es[0]);
      if Intact(c, s, es[0]) { StaysWholeIff(c, Apply(c, s, es[0]), es[1..]); }
    }
  }

  // ---- When a call writes its own bytes ----

  lemma EncodedDiffer(c: Codec, a: seq<Item>, b: seq<Item>, typedA: bool, typedB: bool)
    requires (a, typedA) != (b, typedB)
    ensures var x, y := Encoded(c, typedA, a), Encoded(c, typedB, b);
            exists i :: 0 <= i < |x| && i < |y| && x[i] != y[i]
  {
    var x, y := Encoded(c, typedA, a), Encoded(c, typedB, b);
    T.EncodedFirst(c, typedA, a);
    T.EncodedFirst(c, typedB, b);
    if typedA == typedB {
      var i := if typedA then 0 else Size(c, TypeInfo);
      assert x[i] == Byte(Batch(a), 0) && y[i] == Byte(Batch(b), 0);
    } else {
      assert x[0] != y[0];
    }
  }

  lemma PrefixKept(x: seq<Byte>, y: seq<Byte>, n: nat)
    requires |y| <= |x| && n <= |x|
    ensures Over(x, y)[..n] == x[..n] <==> forall i :: 0 <= i < n && i < |y| ==> y[i] == x[i]
  {
    if Over(x, y)[..n] == x[..n] {
      forall i | 0 <= i < n && i < |y| ensures y[i] == x[i] {
        assert Over(x, y)[..n][i] == x[..n][i];
      }
    }
  }

  lemma BatchSpares(c: Codec, x: seq<Byte>, a: seq<Item>, b: seq<Item>, typedA: bool, typedB: bool)
    requires var own := Encoded(c, typedA, a); |own| <= |x| && x[..|own|] == own
    requires |Encoded(c, typedB, b)| <= |x|
    ensures var own, y := Encoded(c, typedA, a), Encoded(c, typedB, b); Over(x, y)[..|own|] == own <==> y == own
  {
    var own, y := Encoded(c, typedA, a), Encoded(c, typedB, b);
    PrefixKept(x, y, |own|);
    assert forall i :: 0 <= i < |own| ==> own[i] == x[i];
    if y != own { EncodedDiffer(c, a, b, typedA, typedB); }
  }

  lemma TypeSpares(c: Codec, x: seq<Byte>, a: seq<Item>, typed: bool, part: nat)
    requires var own := Encoded(c, typed, a); |own| <= |x| && x[..|own|] == own
    requires part <= Size(c, TypeInfo) && part <= |x|
    ensures var own := Encoded(c, typed, a);
            Over(x, Bytes(c, TypeInfo)[..part])[..|own|] == own <==> part == 0 || !typed
  {
    var own, t := Encoded(c, typed, a), Bytes(c, TypeInfo)[..part];
    T.EncodedFirst(c, typed, a);
    PrefixKept(x, t, |own|);
    assert forall i :: 0 <= i < |own| ==> own[i] == x[i];
    if part > 0 && typed { assert t[0] != own[0]; }
  }

  // Encoding one call spares the bytes of another exactly when they lie in another array, or a new one
  // is allocated before anything but the type they begin with is written, or both are the same.
  lemma EncodeSpares(c: Codec, s: State, e: Event, k: nat)
    requires Valid(c, s) && e.Encode? && Enabled(c, s, e) && k in s.pending
    requires Shown(c, s, k) == s.pending[k].own
    ensures var p, j, b := s.pending[k], |s.arrays| - 1, Encoded(c, s.db.typed, e.items);
            Shown(c, Apply(c, s, e), k) == p.own <==>
              || p.slot != j
              || (|b| > |s.arrays[j]| && (e.part == 0 || T.CarriesType(p.own)))
              || b == p.own
  {
    var p, j, b := s.pending[k], |s.arrays| - 1, Encoded(c, s.db.typed, e.items);
    if p.slot == j {
      if |b| <= |s.arrays[j]| {
        BatchSpares(c, s.arrays[j], p.items, e.items, !T.CarriesType(p.own), s.db.typed);
      } else {
        TypeSpares(c, s.arrays[j], p.items, !T.CarriesType(p.own), e.part);
      }
    }
  }
}
