// A store of two URLs that is flushed twice in a row, as at the shutdown of a gRPC server.
module TwoFlushes {
  import opened Types
  import opened Base64
  import opened FileLog
  import opened FileText
  import opened FileTorn
  import opened FileWriter
  import opened FileRuns
  import Csv
  import opened CsvTorn

  // A string given to the buffered writer is a field at most, so here none is longer than the buffer.
  ghost predicate ShortPieces(pieces: seq<string>, recs: seq<Record>) {
    PiecesOf(pieces, recs) && forall i :: 0 <= i < |pieces| ==> |pieces[i]| <= CAPACITY
  }

  lemma FirstBlock(recs: seq<Record>, pieces: seq<string>, forwards: bool)
    requires ShortPieces(pieces, recs) && CAPACITY < |Text(recs)| <= 2 * CAPACITY
    ensures Received(pieces, forwards) == Text(recs)[..CAPACITY]
  {
    assert recs != [] by { assert Text([]) == ""; }
    ReceivedBlocks(recs, pieces, forwards);
  }

  lemma TwoLines(r: Record, s: Record)
    ensures |Text([r, s])| == |Line(r)| + |Line(s)|
  {
    TextBegins([r, s]);
    assert [r, s][1..] == [s];
    OneRecordText(s);
  }

  lemma ExtendedByTwo(log: seq<Record>, a: Record, b: Record, k: nat, any: Record)
    requires |Line(a)| <= k < |Line(a)| + |Line(b)|
    ensures Extended(log, [a, b], k, any) == File(log + [a], b, k - |Line(a)|)
  {
    assert [a, b][1..] == [b] && [a, b][0] == a && [b][0] == b;
    assert Extended(log, [a, b], k, any) == Extended(log + [a], [b], k - |Line(a)|, any);
  }

  lemma FirstFlush(r: Record, s: Record)
    requires IsId(r.id) && |Line(r)| == CAPACITY - 2 && |Line(s)| == CAPACITY
    ensures After(File([], r, 0), [r, s], CAPACITY) == File([r], s, 2)
  {
    NothingInFront([r, s]);
    assert r.id[..0] == "" && [] + [r] == [r];
    ExtendedByTwo([], r, s, CAPACITY, r);
  }

  lemma SecondFlush(r: Record, s: Record)
    requires IsId(s.id) && |s.id| >= 2 && |Line(r)| == CAPACITY - 2 && |Line(s)| == CAPACITY
    ensures var wrong := s.(id := s.id[..2] + s.id);
            After(File([r], s, 2), [s, r], CAPACITY) == File([r, wrong], r, 0)
  {
    var x := s.id[..2];
    var wrong := s.(id := x + s.id);
    LineBehind(x, s);
    assert [s, r][1..] == [r] && Behind(x, [s, r]) == [wrong, r] && [r] + [wrong] == [r, wrong];
    ExtendedByTwo([r], wrong, r, CAPACITY + 2, s);
  }

  // The first flush gets the first line and two bytes of the second to the file, the second flush the
  // second line.
  lemma SecondLineRenamed(r: Record, s: Record)
    requires Writable([r, s]) && Writable([s, r]) && |Line(r)| == CAPACITY - 2 && |Line(s)| == CAPACITY
    requires |s.id| >= 2
    ensures |Text([r, s])| == |Text([s, r])| == 2 * CAPACITY - 2
    ensures Reading(Csv.Parse(Text([r, s])[..CAPACITY] + Text([s, r])[..CAPACITY])) ==
            Loaded(Replay([r, s.(id := s.id[..2] + s.id)]))
  {
    var f, g := File([], r, 0), File([r], s, 2);
    assert [r, s][0] == r && [s, r][0] == s;
    TwoLines(r, s);
    TwoLines(s, r);
    FirstFlush(r, s);
    SecondFlush(r, s);
    AppendExact(f, [r, s], CAPACITY);
    AppendExact(g, [s, r], CAPACITY);
    assert Content(f) == "" && "" + Text([r, s])[..CAPACITY] == Text([r, s])[..CAPACITY];
    FileReads(After(g, [s, r], CAPACITY));
  }

  lemma TwoReplayed(r: Record, s: Record)
    requires r.id != s.id
    ensures Replay([r, s]) == map[r.id := Value(r), s.id := Value(s)]
  {
    assert [r] + [s] == [r, s] && [] + [r] == [r];
    ReplayPut([], r);
    ReplayPut([r], s);
  }

  lemma TwoSnapshot(r: Record, s: Record)
    requires r.id != s.id
    ensures Snapshot(map[r.id := Value(r), s.id := Value(s)], [r, s])
  {
    var recs := [r, s];
    assert recs[0].id == r.id && recs[1].id == s.id;
  }

  // What New loads then: the second record under an id that was never stored, and not under its own.
  lemma RenamedIsLoaded(r: Record, s: Record, first: seq<string>, second: seq<string>, forwards: bool)
    requires Writable([r, s]) && Writable([s, r]) && |Line(r)| == CAPACITY - 2 && |Line(s)| == CAPACITY
    requires |s.id| >= 2 && r.id != s.id[..2] + s.id
    requires ShortPieces(first, [r, s]) && ShortPieces(second, [s, r])
    ensures Reading(Csv.Parse(Received(first, forwards) + Received(second, forwards))) ==
            Loaded(map[r.id := Value(r), s.id[..2] + s.id := Value(s)])
  {
    SecondLineRenamed(r, s);
    FirstBlock([r, s], first, forwards);
    FirstBlock([s, r], second, forwards);
    TwoReplayed(r, s.(id := s.id[..2] + s.id));
  }

  lemma PlainLength(r: Record)
    requires IsId(r.id) && !Csv.NeedsQuotes(r.url) && !Csv.NeedsQuotes(r.userID) && !r.deleted
    ensures |Line(r)| == |r.id| + |r.url| + |r.userID| + 9
  {
    IdUnquoted(r.id);
    LineLength(r);
    var f := [r.id, r.url, r.userID];
    assert f[1..][1..] == f[2..] && f[2..][1..] == [];
    assert |Commas(f[2..])| == |r.userID| + 1;
    assert |Commas(f[1..])| == |r.url| + 1 + |Commas(f[2..])|;
  }

  // The record of a live URL, as the service stores it.
  function Stored(url: ByteString, userID: string): Record {
    Record(Encode(url), url, userID, false)
  }

  lemma StoredLine(url: ByteString, userID: string)
    requires !Csv.NeedsQuotes(url) && !Csv.NeedsQuotes(userID)
    ensures var r := Stored(url, userID);
            && IsId(r.id) && RecordNoCRLF(r)
            && |r.id| == (4 * |url| + 2) / 3 && |Line(r)| == |r.id| + |url| + |userID| + 9
  {
    DigitsAreId(Sextets(url));
    IdUnquoted(Encode(url));
    PlainLength(Stored(url, userID));
    assert forall i :: 0 <= i < |url| ==> !Csv.Special(url[i]);
    assert forall i :: 0 <= i < |userID| ==> !Csv.Special(userID[i]);
  }

  lemma WrongKey(r: Record, s: Record)
    requires |s.id| == |r.id| + 1 && |s.id| >= 2
    ensures var data := map[r.id := Value(r), s.id := Value(s)];
            var loaded := map[r.id := Value(r), s.id[..2] + s.id := Value(s)];
            !Precedes(loaded, data) && s.id !in loaded
  {
    var x := s.id[..2] + s.id;
    assert |x| == |s.id| + 2;
    assert x in map[r.id := Value(r), x := Value(s)];
  }

  lemma RenamedByTwo(r: Record, s: Record, first: seq<string>, second: seq<string>, forwards: bool)
    requires Writable([r, s]) && Writable([s, r]) && |Line(r)| == CAPACITY - 2 && |Line(s)| == CAPACITY
    requires |s.id| == |r.id| + 1 && |s.id| >= 2
    requires ShortPieces(first, [r, s]) && ShortPieces(second, [s, r])
    ensures var data := map[r.id := Value(r), s.id := Value(s)];
            var loaded := map[r.id := Value(r), s.id[..2] + s.id := Value(s)];
            && Snapshot(data, [r, s]) && Snapshot(data, [s, r])
            && Reading(Csv.Parse(Received(first, forwards) + Received(second, forwards))) == Loaded(loaded)
            && !Precedes(loaded, data) && s.id !in loaded
  {
    assert |s.id[..2] + s.id| == |r.id| + 3;
    RenamedIsLoaded(r, s, first, second, forwards);
    TwoSnapshot(r, s);
    TwoSnapshot(s, r);
    assert map[s.id := Value(s), r.id := Value(r)] == map[r.id := Value(r), s.id := Value(s)];
    WrongKey(r, s);
  }

  // A store of two URLs of 1735 and 1736 bytes without commas and quotes, flushed twice, in one order
  // and in the other: New loads the second URL under an id that was never stored, and not under its
  // own.
  lemma TwoFlushesRename(a: ByteString, b: ByteString, userID: string, first: seq<string>, second: seq<string>,
                         forwards: bool)
    requires |a| == 1735 && |b| == 1736 && |userID| == 36
    requires !Csv.NeedsQuotes(a) && !Csv.NeedsQuotes(b) && !Csv.NeedsQuotes(userID)
    requires ShortPieces(first, [Stored(a, userID), Stored(b, userID)])
    requires ShortPieces(second, [Stored(b, userID), Stored(a, userID)])
    ensures |Encode(b)| >= 2
    ensures var r, s := Stored(a, userID), Stored(b, userID);
            var data := map[r.id := Value(r), s.id := Value(s)];
            var loaded := map[r.id := Value(r), s.id[..2] + s.id := Value(s)];
            && Snapshot(data, [r, s]) && Snapshot(data, [s, r])
            && Reading(Csv.Parse(Received(first, forwards) + Received(second, forwards))) == Loaded(loaded)
            && !Precedes(loaded, data) && s.id !in loaded
  {
    StoredLine(a, userID);
    StoredLine(b, userID);
    RenamedByTwo(Stored(a, userID), Stored(b, userID), first, second, forwards);
  }
}
