// What a flush gets to the storage file: the csv writer is never flushed, so the last bytes stay in
// its buffer.
module FileWriter {
  import opened Types
  import opened FileLog
  import opened FileText
  import Csv

  // The bufio.Writer inside the csv writer: bytes passed on to the file and bytes still held.
  datatype Writer = Writer(out: string, held: string)

  // bufio.Writer.WriteString. Newer libraries forward a string too long for an empty buffer to the
  // file as it is, older ones copy it through the buffer. A single byte is written the same way.
  function WriteString(w: Writer, s: string, forwards: bool): (r: Writer)
    requires |w.held| <= CAPACITY
    ensures |r.held| <= CAPACITY
    decreases |s|, |w.held|
  {
    if |s| <= CAPACITY - |w.held| then w.(held := w.held + s)
    else if w.held == "" && forwards then Writer(w.out + s, "")
    else
      var k := CAPACITY - |w.held|;
      WriteString(Writer(w.out + w.held + s[..k], ""), s[k..], forwards)
  }

  function WriteAll(w: Writer, pieces: seq<string>, forwards: bool): (r: Writer)
    requires |w.held| <= CAPACITY
    ensures |r.held| <= CAPACITY
    decreases |pieces|
  {
    if pieces == [] then w else WriteAll(WriteString(w, pieces[0], forwards), pieces[1..], forwards)
  }

  function Concat(pieces: seq<string>): string {
    if pieces == [] then "" else pieces[0] + Concat(pieces[1..])
  }

  // The strings the csv writer may hand on for a log: however it cuts the fields, the line end of a
  // record is a byte of its own.
  ghost predicate PiecesOf(pieces: seq<string>, recs: seq<Record>) {
    && Concat(pieces) == Text(recs)
    && (recs != [] ==> pieces != [] && pieces[|pieces| - 1] == "\n")
  }

  // Flush makes a new csv writer and never flushes it, so this is what the file receives.
  function Received(pieces: seq<string>, forwards: bool): string {
    WriteAll(Writer("", ""), pieces, forwards).out
  }

  lemma TakeDrop(a: string, s: string, k: nat)
    requires k <= |s|
    ensures a + s[..k] + "" + s[k..] == a + s
  {
  }

  // Nothing is lost or reordered, the buffer is passed on only when it is full, and a single byte is
  // held.
  lemma {:induction false} StringWritten(w: Writer, s: string, forwards: bool)
    requires |w.held| <= CAPACITY
    ensures var r := WriteString(w, s, forwards);
            && r.out + r.held == w.out + w.held + s
            && (|w.held| + |s| <= CAPACITY ==> r.out == w.out)
            && (|s| == 1 ==> r.held != "")
    decreases |s|, |w.held|
  {
    if |s| <= CAPACITY - |w.held| {
      Csv.Regroup(w.out, w.held, s);
    } else if w.held == "" && forwards {
      assert w.out + s + "" == w.out + w.held + s;
    } else {
      var k := CAPACITY - |w.held|;
      var v := Writer(w.out + w.held + s[..k], "");
      StringWritten(v, s[k..], forwards);
      TakeDrop(w.out + w.held, s, k);
    }
  }

  lemma {:induction false} PiecesWritten(w: Writer, pieces: seq<string>, forwards: bool)
    requires |w.held| <= CAPACITY
    ensures var r := WriteAll(w, pieces, forwards);
            && r.out + r.held == w.out + w.held + Concat(pieces)
            && (|w.held| + |Concat(pieces)| <= CAPACITY ==> r.out == w.out)
            && (pieces != [] && |pieces[|pieces| - 1]| == 1 ==> r.held != "")
    decreases |pieces|
  {
    if pieces == [] {
      assert w.out + w.held + "" == w.out + w.held;
    } else {
      var v := WriteString(w, pieces[0], forwards);
      StringWritten(w, pieces[0], forwards);
      PiecesWritten(v, pieces[1..], forwards);
      assert v.out + v.held + Concat(pieces[1..]) == w.out + w.held + Concat(pieces);
    }
  }

  // Flush writes the whole snapshot to the file exactly when the store is empty, whichever way the
  // writer deals with long strings: the last bytes, at most 4096 of them, stay in it.
  lemma FlushIncomplete(recs: seq<Record>, pieces: seq<string>, forwards: bool)
    requires PiecesOf(pieces, recs)
    ensures var received := Received(pieces, forwards);
            && received <= Text(recs) && |Text(recs)| - 4096 <= |received|
            && (received == Text(recs) <==> recs == [])
            && (received == "" <==> |Text(recs)| <= 4096)
  {
    var w := WriteAll(Writer("", ""), pieces, forwards);
    PiecesWritten(Writer("", ""), pieces, forwards);
    assert w.out + w.held == Text(recs);
    if recs == [] {
      assert Text(recs) == "";
    } else {
      assert w.held != "";
    }
  }

  // Whole buffers have been passed on, and something is held as soon as anything was written.
  predicate InBlocks(w: Writer) {
    |w.out| % CAPACITY == 0 && (w.held == "" ==> w.out == "")
  }

  lemma StringInBlocks(w: Writer, s: string, forwards: bool)
    requires |w.held| <= CAPACITY && |s| <= CAPACITY && InBlocks(w)
    ensures InBlocks(WriteString(w, s, forwards))
    ensures s != "" ==> WriteString(w, s, forwards).held != ""
  {
    if |s| > CAPACITY - |w.held| {
      var k := CAPACITY - |w.held|;
      var v := Writer(w.out + w.held + s[..k], "");
      assert |v.out| == |w.out| + CAPACITY;
      assert WriteString(v, s[k..], forwards) == v.(held := "" + s[k..]);
    }
  }

  lemma {:induction false} PiecesInBlocks(w: Writer, pieces: seq<string>, forwards: bool)
    requires |w.held| <= CAPACITY && InBlocks(w)
    requires forall i :: 0 <= i < |pieces| ==> |pieces[i]| <= CAPACITY
    ensures InBlocks(WriteAll(w, pieces, forwards))
    decreases |pieces|
  {
    if pieces == [] {
    } else {
      StringInBlocks(w, pieces[0], forwards);
      PiecesInBlocks(WriteString(w, pieces[0], forwards), pieces[1..], forwards);
    }
  }

  // As long as no string is longer than the buffer, the file receives whole buffers, all but the
  // last.
  lemma ReceivedBlocks(recs: seq<Record>, pieces: seq<string>, forwards: bool)
    requires PiecesOf(pieces, recs) && recs != []
    requires forall i :: 0 <= i < |pieces| ==> |pieces[i]| <= CAPACITY
    ensures var n := (|Text(recs)| - 1) / 4096 * 4096;
            0 <= n <= |Text(recs)| && Received(pieces, forwards) == Text(recs)[..n]
  {
    var w := WriteAll(Writer("", ""), pieces, forwards);
    PiecesWritten(Writer("", ""), pieces, forwards);
    PiecesInBlocks(Writer("", ""), pieces, forwards);
    assert "" + "" + Concat(pieces) == Text(recs);
    LastBlock(|Text(recs)|, |w.out|);
  }

  lemma LastBlock(n: nat, out: nat)
    requires out % CAPACITY == 0 && out < n <= out + CAPACITY
    ensures (n - 1) / CAPACITY * CAPACITY == out
  {
  }

  lemma {:induction false} SmallEscape(f: string)
    ensures |Csv.Escape(f)| <= 2 * |f|
  {
    if f == "" {
    } else {
      SmallEscape(f[1..]);
    }
  }

  lemma SmallField(f: string)
    ensures |Csv.PrintField(f)| <= 2 * |f| + 2
  {
    SmallEscape(f);
  }

  lemma SmallRecord(f: seq<string>)
    requires |f| == 4 && forall i :: 0 <= i < 4 ==> |f[i]| <= 6
    ensures |Csv.PrintRecord(f)| <= 100
  {
    SmallField(f[0]);
    SmallField(f[1]);
    SmallField(f[2]);
    SmallField(f[3]);
    assert f[1..][1..] == f[2..] && f[2..][1..] == f[3..];
    assert Csv.PrintRecord(f[3..]) == Csv.PrintField(f[3]) + "\n";
    assert Csv.PrintRecord(f[2..]) == Csv.PrintField(f[2]) + "," + Csv.PrintRecord(f[3..]);
    assert Csv.PrintRecord(f[1..]) == Csv.PrintField(f[1]) + "," + Csv.PrintRecord(f[2..]);
  }

  lemma SmallText(r: Record)
    requires |r.id| <= 6 && |r.url| <= 6 && |r.userID| <= 6
    ensures |Text([r])| <= 100
  {
    OneRecordText(r);
    SmallRecord(Fields(r));
  }

  // Storing one URL and flushing leaves the file as it was; the URL is gone after a restart.
  lemma SmallFlushIsLost(file: string, pieces: seq<string>, forwards: bool)
    requires PiecesOf(pieces, [Record("aHR0cA", "http", "u", false)])
    ensures var recs := [Record("aHR0cA", "http", "u", false)];
            Snapshot(map["aHR0cA" := Entry("http", "u", false)], recs) && file + Received(pieces, forwards) == file
  {
    var r := Record("aHR0cA", "http", "u", false);
    var recs := [r];
    assert recs[0].id == "aHR0cA";
    FlushIncomplete(recs, pieces, forwards);
    SmallText(r);
    assert file + "" == file;
  }
}
