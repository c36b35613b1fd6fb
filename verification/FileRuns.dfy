// The storage file over any number of flushes, each of which leaves the end of its text behind. The
// program flushes twice in a row when it shuts a gRPC server down.
module FileRuns {
  import opened Types
  import opened Base64
  import opened FileLog
  import opened FileText
  import opened FileTorn
  import opened FileWriter
  import Csv
  import opened CsvTorn

  // ---- Behind a line boundary, or an id cut short ----

  lemma IdUnquoted(id: string)
    requires IsId(id)
    ensures !Csv.HasSpecial(id) && Csv.PrintField(id) == id && !Csv.HasCRLF(id)
  {
    assert forall i :: 0 <= i < |id| ==> DigitValue(id[i]).Some? && !Csv.Special(id[i]);
    if id != "" { assert DigitValue(id[0]).Some?; }
  }

  // What comes behind the id.
  function Tail(r: Record): string {
    "," + Csv.PrintRecord(Fields(r)[1..])
  }

  lemma LineBegins(r: Record)
    requires IsId(r.id)
    ensures Line(r) == r.id + Tail(r)
  {
    IdUnquoted(r.id);
    Csv.Regroup(r.id, ",", Csv.PrintRecord(Fields(r)[1..]));
  }

  // Behind part x of an id, the first of the records that follow gets x in front of its own id.
  function Behind(x: string, recs: seq<Record>): seq<Record> {
    if recs == [] then [] else [recs[0].(id := x + recs[0].id)] + recs[1..]
  }

  lemma LineBehind(x: string, r: Record)
    requires IsId(x) && IsId(r.id)
    ensures Line(r.(id := x + r.id)) == x + Line(r)
  {
    var s := r.(id := x + r.id);
    LineBegins(r);
    LineBegins(s);
    assert Tail(s) == Tail(r) by { assert Fields(s)[1..] == Fields(r)[1..]; }
    Csv.Regroup(x, r.id, Tail(r));
  }

  lemma TextOfBehind(x: string, recs: seq<Record>)
    requires IsId(x) && recs != [] && IsId(recs[0].id)
    ensures Text(Behind(x, recs)) == x + Text(recs)
  {
    LineBehind(x, recs[0]);
    TextBegins(recs);
    TextBegins(Behind(x, recs));
    assert Behind(x, recs)[1..] == recs[1..];
    Csv.Regroup(x, Line(recs[0]), Text(recs[1..]));
  }

  predicate EndsInId(f: File) {
    f.cut <= |f.last.id| && IsId(f.last.id)
  }

  // The file after the first k bytes of the text of recs have been appended to it.
  function After(f: File, recs: seq<Record>, k: nat): File
    requires EndsInId(f) || k == 0
  {
    if k == 0 then f else Extended(f.log, Behind(f.last.id[..f.cut], recs), f.cut + k, f.last)
  }

  ghost predicate Writable(recs: seq<Record>) {
    LogNoCRLF(recs) && forall i :: 0 <= i < |recs| ==> IsId(recs[i].id)
  }

  lemma BehindWritable(x: string, recs: seq<Record>)
    requires IsId(x) && Writable(recs)
    ensures Writable(Behind(x, recs))
  {
    if recs != [] { IdUnquoted(x + recs[0].id); }
  }

  lemma ContentInId(f: File)
    requires Valid(f) && EndsInId(f)
    ensures Content(f) == Text(f.log) + f.last.id[..f.cut]
  {
    LineBegins(f.last);
  }

  lemma BehindTaken(x: string, recs: seq<Record>, k: nat)
    requires IsId(x) && Writable(recs) && 0 < k <= |Text(recs)|
    ensures |x| + k <= |Text(Behind(x, recs))|
    ensures Text(Behind(x, recs))[..|x| + k] == x + Text(recs)[..k]
  {
    TextOfBehind(x, recs);
    TakeBehind(x, Text(recs), |x| + k);
  }

  lemma AppendInId(f: File, recs: seq<Record>, k: nat)
    requires Valid(f) && EndsInId(f) && Writable(recs) && 0 < k <= |Text(recs)|
    ensures Valid(After(f, recs, k))
    ensures Content(After(f, recs, k)) == Text(f.log) + (f.last.id[..f.cut] + Text(recs)[..k])
  {
    var x := f.last.id[..f.cut];
    BehindTaken(x, recs, k);
    BehindWritable(x, recs);
    ExtendedValid(f.log, Behind(x, recs), f.cut + k, f.last);
  }

  // Whatever is appended to a file that ends at a line boundary or within an id, it is such lines
  // again, though the first of them may lie under another id.
  lemma AppendExact(f: File, recs: seq<Record>, k: nat)
    requires Valid(f) && (EndsInId(f) || k == 0) && Writable(recs) && k <= |Text(recs)|
    ensures Valid(After(f, recs, k))
    ensures Content(After(f, recs, k)) == Content(f) + Text(recs)[..k]
  {
    if k == 0 {
      assert Content(f) + Text(recs)[..0] == Content(f);
    } else {
      ContentInId(f);
      AppendInId(f, recs, k);
      Csv.Regroup(Text(f.log), f.last.id[..f.cut], Text(recs)[..k]);
    }
  }

  // ---- What a flush writes ----

  // Every record is a value its key had between the two maps, which differ when calls are served
  // meanwhile.
  ghost predicate FlushedBetween(before: Data, after: Data, recs: seq<Record>) {
    forall i :: 0 <= i < |recs| ==> RecordBetween(before, after, recs[i])
  }

  ghost predicate RecordBetween(before: Data, after: Data, r: Record) {
    && r.id in after && MayBecome(Value(r), after[r.id])
    && (r.id in before ==> MayBecome(before[r.id], Value(r)))
  }

  // No entry of data is older than in the log or newer than in the map.
  ghost predicate Between(log: seq<Record>, data: Data, after: Data) {
    Precedes(Replay(log), data) && Precedes(data, after)
  }

  lemma MergeUpdate(a: Data, b: Data, k: string, e: Entry)
    ensures (a + b)[k := e] == a + b[k := e]
  {
  }

  lemma {:induction false} ReplayConcat(a: seq<Record>, b: seq<Record>)
    ensures Replay(a + b) == Replay(a) + Replay(b)
    decreases |b|
  {
    if b == [] {
      assert a + b == a;
    } else {
      var front, r := b[..|b| - 1], b[|b| - 1];
      ReplayConcat(a, front);
      assert (a + b)[..|a + b| - 1] == a + front;
      MergeUpdate(Replay(a), Replay(front), r.id, Value(r));
    }
  }

  lemma {:induction false} ReplayWrote(recs: seq<Record>)
    ensures forall k :: k in Replay(recs) <==> Wrote(recs, k)
    decreases |recs|
  {
    if recs == [] {
    } else {
      var front, r := recs[..|recs| - 1], recs[|recs| - 1];
      ReplayWrote(front);
      WroteMore(front, r);
      assert front + [r] == recs;
    }
  }

  lemma {:induction false} ReplayOf(recs: seq<Record>, before: Data, after: Data)
    requires FlushedBetween(before, after, recs)
    ensures forall k :: k in Replay(recs) ==> RecordBetween(before, after, RecordOf(k, Replay(recs)[k]))
    decreases |recs|
  {
    if recs == [] {
    } else {
      var front, r := recs[..|recs| - 1], recs[|recs| - 1];
      ReplayOf(front, before, after);
      assert RecordOf(r.id, Value(r)) == r;
    }
  }

  lemma KeptBetween(log: seq<Record>, recs: seq<Record>, before: Data, after: Data)
    requires FlushedBetween(before, after, recs)
    requires Precedes(Replay(log), before) && Precedes(before, after)
    ensures Between(log, Replay(log + recs), after)
  {
    ReplayConcat(log, recs);
    ReplayOf(recs, before, after);
    assert forall k, e :: Value(RecordOf(k, e)) == e;
  }

  lemma WrongIdReplays(log: seq<Record>, wrong: Record, recs: seq<Record>)
    ensures Replay(log + [wrong] + recs) == Replay(log)[wrong.id := Value(wrong)] + Replay(recs)
  {
    ReplayPut(log, wrong);
    ReplayConcat(log + [wrong], recs);
  }

  lemma WrongIdShows(after: Data, id: string, wrong: Record)
    requires Keyed(after) && id in after && after[id].url == wrong.url && id != wrong.id
    ensures !(wrong.id in after && MayBecome(Value(wrong), after[wrong.id]))
  {
  }

  lemma WrongIdReplaced(log: seq<Record>, wrong: Record, recs: seq<Record>)
    requires Wrote(recs, wrong.id)
    ensures Replay(log + [wrong] + recs) == Replay(log + recs)
  {
    WrongIdReplays(log, wrong, recs);
    ReplayConcat(log, recs);
    ReplayWrote(recs);
  }

  lemma WrongIdKept(log: seq<Record>, wrong: Record, recs: seq<Record>)
    requires !Wrote(recs, wrong.id)
    ensures var data := Replay(log + [wrong] + recs); wrong.id in data && data[wrong.id] == Value(wrong)
  {
    WrongIdReplays(log, wrong, recs);
    ReplayWrote(recs);
  }

  // A record under a wrong id does no harm exactly when a right one follows under the same id.
  lemma WrongIdBetween(log: seq<Record>, x: string, r: Record, recs: seq<Record>, before: Data, after: Data)
    requires x != "" && RecordBetween(before, after, r) && FlushedBetween(before, after, recs)
    requires Precedes(Replay(log), before) && Precedes(before, after) && Keyed(after)
    ensures Between(log, Replay(log + [r.(id := x + r.id)] + recs), after) <==> Wrote(recs, x + r.id)
  {
    var wrong := r.(id := x + r.id);
    if Wrote(recs, wrong.id) {
      WrongIdReplaced(log, wrong, recs);
      KeptBetween(log, recs, before, after);
    } else {
      WrongIdKept(log, wrong, recs);
      assert |wrong.id| == |x| + |r.id|;
      WrongIdShows(after, r.id, wrong);
    }
  }

  // ---- What New loads after a flush ----

  // Among the records loaded behind the first one appended, one has the id that one was given.
  ghost predicate Replaced(f: File, recs: seq<Record>, e: File)
    requires f.cut <= |f.last.id|
  {
    && recs != [] && |f.log| + 1 <= |Kept(e)|
    && Wrote(Kept(e)[|f.log| + 1..], f.last.id[..f.cut] + recs[0].id)
  }

  lemma NotLoaded(f: File)
    requires Valid(f) && EndsInId(f) && f.cut > 0
    ensures !Outcome(f).Loaded?
  {
    LineBegins(f.last);
    LineLength(f.last);
    IdUnquoted(f.last.id);
    assert |BeforeFlag(f.last)| > |f.last.id|;
  }

  lemma NothingInFront(recs: seq<Record>)
    ensures Behind("", recs) == recs
  {
    if recs != [] {
      assert "" + recs[0].id == recs[0].id;
      assert recs[0].(id := "" + recs[0].id) == recs[0];
    }
  }

  lemma AtBoundary(f: File, before: Data, after: Data, recs: seq<Record>, k: nat)
    requires f.cut == 0 && IsId(f.last.id)
    requires FlushedBetween(before, after, recs) && Precedes(Replay(f.log), before) && Precedes(before, after)
    ensures var e := After(f, recs, k);
            Between(f.log, Replay(Kept(e)), after) && Between(f.log, Replay(e.log), after)
  {
    if k == 0 {
      KeptBetween(f.log, [], before, after);
      assert f.log + [] == f.log;
    } else {
      NothingInFront(recs);
      assert f.last.id[..f.cut] == "";
      var m, n := KeptPart(f.log, recs, k, f.last);
      KeptBetween(f.log, recs[..m], before, after);
      KeptBetween(f.log, recs[..n], before, after);
    }
  }

  lemma FirstApart(log: seq<Record>, b: seq<Record>, m: nat)
    requires 0 < m <= |b|
    ensures log + b[..m] == log + [b[0]] + b[1..m] && (log + b[..m])[|log| + 1..] == b[1..m]
  {
  }

  lemma InIdKept(f: File, recs: seq<Record>, k: nat) returns (m: nat)
    requires EndsInId(f) && f.cut > 0 && k > 0 && recs != []
    ensures 0 < m <= |recs|
    ensures var e, wrong := After(f, recs, k), recs[0].(id := f.last.id[..f.cut] + recs[0].id);
            && Kept(e) == f.log + [wrong] + recs[1..m]
            && Kept(e)[|f.log| + 1..] == recs[1..m]
  {
    var b := Behind(f.last.id[..f.cut], recs);
    var n;
    m, n := KeptPart(f.log, b, f.cut + k, f.last);
    FirstApart(f.log, b, m);
    assert b[1..m] == recs[1..m];
  }

  lemma InId(f: File, before: Data, after: Data, recs: seq<Record>, k: nat)
    requires EndsInId(f) && f.cut > 0 && k > 0 && recs != []
    requires FlushedBetween(before, after, recs) && Precedes(Replay(f.log), before) && Precedes(before, after)
    requires Keyed(after)
    ensures var e := After(f, recs, k); Between(f.log, Replay(Kept(e)), after) <==> Replaced(f, recs, e)
  {
    var m := InIdKept(f, recs, k);
    WrongIdBetween(f.log, f.last.id[..f.cut], recs[0], recs[1..m], before, after);
  }

  lemma OutcomeBetween(f: File, before: Data, after: Data, recs: seq<Record>, k: nat)
    requires Valid(f) && EndsInId(f) && k <= |Text(recs)|
    requires FlushedBetween(before, after, recs) && Precedes(Replay(f.log), before) && Precedes(before, after)
    requires Keyed(after)
    ensures var e := After(f, recs, k);
            Outcome(e).Loaded? ==>
              (Between(f.log, Outcome(e).data, after) <==> f.cut == 0 || Replaced(f, recs, e))
  {
    if f.cut == 0 {
      AtBoundary(f, before, after, recs, k);
    } else if k == 0 {
      NotLoaded(f);
    } else {
      assert recs != [] by { assert Text([]) == ""; }
      InId(f, before, after, recs, k);
    }
  }

  // What a flush appends is loaded unharmed exactly when the file ended at a line boundary. Behind an
  // id that was cut short the first record is loaded under the wrong id, which only a right record
  // under the same id can make good again.
  lemma NewAfterFlush(f: File, before: Data, after: Data, recs: seq<Record>, pieces: seq<string>, forwards: bool)
    requires Valid(f) && EndsInId(f) && Writable(recs) && PiecesOf(pieces, recs)
    requires FlushedBetween(before, after, recs) && Precedes(Replay(f.log), before) && Precedes(before, after)
    requires Keyed(after)
    ensures var e := After(f, recs, |Received(pieces, forwards)|);
            && Reading(Csv.Parse(Content(f) + Received(pieces, forwards))) == Outcome(e)
            && (Outcome(e).Loaded? ==>
                  (Between(f.log, Outcome(e).data, after) <==> f.cut == 0 || Replaced(f, recs, e)))
  {
    var k := |Received(pieces, forwards)|;
    FlushIncomplete(recs, pieces, forwards);
    assert Received(pieces, forwards) == Text(recs)[..k];
    AppendExact(f, recs, k);
    FileReads(After(f, recs, k));
    OutcomeBetween(f, before, after, recs, k);
  }

  // ---- Any number of flushes ----

  // A flush made between two maps, and the strings its csv writer hands on.
  datatype Flush = Flush(before: Data, after: Data, recs: seq<Record>, pieces: seq<string>, forwards: bool)

  function Bytes(fl: Flush): string {
    Received(fl.pieces, fl.forwards)
  }

  ghost predicate Possible(mem: Data, fl: Flush) {
    && Precedes(mem, fl.before) && Precedes(fl.before, fl.after)
    && FlushedBetween(fl.before, fl.after, fl.recs)
    && Writable(fl.recs) && PiecesOf(fl.pieces, fl.recs)
  }

  ghost predicate ValidFlushes(mem: Data, fls: seq<Flush>)
    decreases |fls|
  {
    fls == [] || (Possible(mem, fls[0]) && ValidFlushes(fls[0].after, fls[1..]))
  }

  // The map after the last flush.
  function MemAfter(mem: Data, fls: seq<Flush>): Data
    decreases |fls|
  {
    if fls == [] then mem else MemAfter(fls[0].after, fls[1..])
  }

  function Appended(fls: seq<Flush>): string
    decreases |fls|
  {
    if fls == [] then "" else Bytes(fls[0]) + Appended(fls[1..])
  }

  // No flush that writes anything finds the file cut behind an id.
  ghost predicate AllInId(f: File, fls: seq<Flush>)
    decreases |fls|
  {
    fls == [] ||
    ((EndsInId(f) || Bytes(fls[0]) == "") && AllInId(After(f, fls[0].recs, |Bytes(fls[0])|), fls[1..]))
  }

  function FileAfter(f: File, fls: seq<Flush>): File
    requires AllInId(f, fls)
    decreases |fls|
  {
    if fls == [] then f else FileAfter(After(f, fls[0].recs, |Bytes(fls[0])|), fls[1..])
  }

  lemma {:induction false} FlushesExact(f: File, mem: Data, fls: seq<Flush>)
    requires Valid(f) && ValidFlushes(mem, fls) && AllInId(f, fls)
    ensures Valid(FileAfter(f, fls)) && Content(FileAfter(f, fls)) == Content(f) + Appended(fls)
    decreases |fls|
  {
    if fls == [] {
      assert Content(f) + "" == Content(f);
    } else {
      var fl := fls[0];
      FlushIncomplete(fl.recs, fl.pieces, fl.forwards);
      assert Bytes(fl) == Text(fl.recs)[..|Bytes(fl)|];
      AppendExact(f, fl.recs, |Bytes(fl)|);
      FlushesExact(After(f, fl.recs, |Bytes(fl)|), fl.after, fls[1..]);
      Csv.Regroup(Content(f), Bytes(fl), Appended(fls[1..]));
    }
  }

  // What New makes of the file after any number of flushes none of which finds it cut behind an id.
  lemma NewAfterFlushes(f: File, mem: Data, fls: seq<Flush>)
    requires Valid(f) && ValidFlushes(mem, fls) && AllInId(f, fls)
    ensures Reading(Csv.Parse(Content(f) + Appended(fls))) == Outcome(FileAfter(f, fls))
  {
    FlushesExact(f, mem, fls);
    FileReads(FileAfter(f, fls));
  }

  // Every flush that writes anything finds the file ending at a line boundary.
  ghost predicate AllAtBoundary(f: File, fls: seq<Flush>)
    requires AllInId(f, fls)
    decreases |fls|
  {
    fls == [] ||
    ((f.cut == 0 || Bytes(fls[0]) == "") && AllAtBoundary(After(f, fls[0].recs, |Bytes(fls[0])|), fls[1..]))
  }

  lemma BetweenChains(log: seq<Record>, log1: seq<Record>, mem: Data, data: Data, after: Data)
    requires Between(log, Replay(log1), mem) && Between(log1, data, after)
    ensures Between(log, data, after)
  {
    PrecedesTransitive(Replay(log), Replay(log1), data);
  }

  // What the file holds and what New loads of it lie between a log and the map.
  ghost predicate Unharmed(log: seq<Record>, f: File, mem: Data) {
    Between(log, Replay(f.log), mem) && Between(log, Replay(Kept(f)), mem)
  }

  lemma BoundaryStep(f: File, log: seq<Record>, mem: Data, fl: Flush)
    requires Possible(mem, fl) && ((f.cut == 0 && EndsInId(f)) || Bytes(fl) == "") && Unharmed(log, f, mem)
    ensures Unharmed(log, After(f, fl.recs, |Bytes(fl)|), fl.after)
  {
    PrecedesTransitive(mem, fl.before, fl.after);
    if Bytes(fl) != "" {
      var e := After(f, fl.recs, |Bytes(fl)|);
      PrecedesTransitive(Replay(f.log), mem, fl.before);
      AtBoundary(f, fl.before, fl.after, fl.recs, |Bytes(fl)|);
      BetweenChains(log, f.log, mem, Replay(e.log), fl.after);
      BetweenChains(log, f.log, mem, Replay(Kept(e)), fl.after);
    } else {
      PrecedesTransitive(Replay(f.log), mem, fl.after);
      PrecedesTransitive(Replay(Kept(f)), mem, fl.after);
    }
  }

  // Then nothing is harmed.
  lemma {:induction false} BoundariesBetween(f: File, log: seq<Record>, mem: Data, fls: seq<Flush>)
    requires ValidFlushes(mem, fls) && AllInId(f, fls) && AllAtBoundary(f, fls) && Unharmed(log, f, mem)
    ensures Unharmed(log, FileAfter(f, fls), MemAfter(mem, fls))
    decreases |fls|
  {
    if fls == [] {
    } else {
      var fl, rest := fls[0], fls[1..];
      var e := After(f, fl.recs, |Bytes(fl)|);
      BoundaryStep(f, log, mem, fl);
      BoundariesBetween(e, log, fl.after, rest);
      assert FileAfter(f, fls) == FileAfter(e, rest) && MemAfter(mem, fls) == MemAfter(fl.after, rest);
    }
  }
}
