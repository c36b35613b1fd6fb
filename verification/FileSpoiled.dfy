// A flush behind a line that was cut after its id: the first line of the flush runs on in the field
// that was cut, and the row becomes too long.
module FileSpoiled {
  import opened Types
  import opened Base64
  import opened FileLog
  import opened FileText
  import opened FileTorn
  import opened FileRuns
  import Csv
  import opened CsvTorn

  // The line of r up to byte l of its field i.
  function LineTo(r: Record, i: nat, l: nat): string
    requires i < 4 && l <= |Csv.PrintField(Fields(r)[i])|
  {
    Commas(Fields(r)[..i]) + Csv.PrintField(Fields(r)[i])[..l]
  }

  lemma RecordFrom(fields: seq<string>)
    requires fields != []
    ensures Csv.PrintField(fields[0]) < Csv.PrintRecord(fields)
  {
    if |fields| > 1 {
      Csv.Regroup(Csv.PrintField(fields[0]), ",", Csv.PrintRecord(fields[1..]));
    }
  }

  lemma LineToBegins(r: Record, i: nat, l: nat)
    requires i < 4 && l <= |Csv.PrintField(Fields(r)[i])|
    ensures LineTo(r, i, l) < Line(r)
  {
    var front, back := Fields(r)[..i], Fields(r)[i..];
    assert front + back == Fields(r);
    PrintIsCommas(front, back);
    RecordFrom(back);
  }

  // Every cut that leaves the line end out lies in some field, or right behind it.
  lemma EveryCut(r: Record, k: nat) returns (i: nat, l: nat)
    requires k < |Line(r)|
    ensures i < 4 && l <= |Csv.PrintField(Fields(r)[i])| && LineTo(r, i, l) == Line(r)[..k]
  {
    i, l := 0, k;
    assert Commas(Fields(r)[..0]) == "";
    while l > |Csv.PrintField(Fields(r)[i])|
      invariant i < 4 && k == |Commas(Fields(r)[..i])| + l
      invariant k < |Line(r)|
      decreases 4 - i
    {
      NextField(r, i);
      l := l - |Csv.PrintField(Fields(r)[i])| - 1;
      i := i + 1;
    }
    LineToBegins(r, i, l);
  }

  lemma NextField(r: Record, i: nat)
    requires i < 4
    ensures if i < 3 then |Commas(Fields(r)[..i + 1])| == |Commas(Fields(r)[..i])| + |Csv.PrintField(Fields(r)[i])| + 1
            else |Line(r)| == |Commas(Fields(r)[..i])| + |Csv.PrintField(Fields(r)[i])| + 1
  {
    var fields := Fields(r);
    if i < 3 {
      assert fields[..i + 1] == fields[..i] + [fields[i]];
      CommasAppend(fields[..i], fields[i]);
    } else {
      assert fields[..3] + [fields[3]] == fields;
      PrintIsCommas(fields[..3], [fields[3]]);
    }
  }

  lemma {:induction false} CommasAppend(front: seq<string>, f: string)
    ensures Commas(front + [f]) == Commas(front) + (Csv.PrintField(f) + ",")
  {
    if front == [] {
      assert front + [f] == [f] && [f][1..] == [];
      assert Commas([f]) == Csv.PrintField(f) + "," + "";
    } else {
      assert (front + [f])[1..] == front[1..] + [f];
      CommasAppend(front[1..], f);
      Csv.Regroup(Csv.PrintField(front[0]) + ",", Commas(front[1..]), Csv.PrintField(f) + ",");
    }
  }

  // ---- The first line that follows runs on ----

  // The cut lies in an unquoted field.
  predicate InPlain(r: Record, i: nat, l: nat) {
    i < 4 && !Csv.NeedsQuotes(Fields(r)[i]) && l <= |Fields(r)[i]|
  }

  // The row of r, cut in field i, and of the fields g that follow.
  function JoinedRow(r: Record, i: nat, l: nat, g: seq<string>): seq<string>
    requires InPlain(r, i, l) && g != []
  {
    Fields(r)[..i] + [Fields(r)[i][..l] + g[0]] + g[1..]
  }

  lemma PlainPart(r: Record, i: nat, l: nat)
    requires InPlain(r, i, l)
    ensures LineTo(r, i, l) == Commas(Fields(r)[..i]) + Fields(r)[i][..l] && !Csv.HasSpecial(Fields(r)[i][..l])
  {
    var f := Fields(r)[i];
    assert Csv.PrintField(f) == f;
    assert forall j :: 0 <= j < |f| ==> !Csv.Special(f[j]);
  }

  lemma RowRunsOn(r: Record, i: nat, l: nat, t: string, g: seq<string>, rest: string)
    requires InPlain(r, i, l) && t != "" && t[0] != '"'
    requires g != [] && Csv.CutRecord(t) == Some((g, rest))
    ensures Csv.CutRecord(LineTo(r, i, l) + t) == Some((JoinedRow(r, i, l, g), rest))
  {
    var x := Fields(r)[i][..l];
    PlainPart(r, i, l);
    Csv.Regroup(Commas(Fields(r)[..i]), x, t);
    CommasRead(Fields(r)[..i], x + t);
    FieldRunsOn(x, t);
    FieldsPrepended(Fields(r)[..i], Some(([x + g[0]] + g[1..], rest)));
    assert Fields(r)[..i] + ([x + g[0]] + g[1..]) == JoinedRow(r, i, l, g);
  }

  lemma IdFirst(r: Record)
    requires IsId(r.id)
    ensures Line(r) != "" && Line(r)[0] != '"' && Line(r)[0] != '\n'
  {
    LineBegins(r);
    if r.id != "" { assert DigitValue(r.id[0]).Some?; }
  }

  lemma LineToFirst(r: Record, i: nat, l: nat)
    requires 0 < i < 4 && l <= |Csv.PrintField(Fields(r)[i])|
    ensures LineTo(r, i, l) != "" && LineTo(r, i, l)[0] == Line(r)[0] != '\n'
  {
    LineToBegins(r, i, l);
    LineSplit(r);
    assert Fields(r)[..i][0] == r.id;
  }

  // Behind the whole line of rec the row is done, and too long.
  lemma WholeRow(r: Record, i: nat, l: nat, rec: Record, y: string, width: nat)
    requires i > 0 && InPlain(r, i, l) && IsId(rec.id)
    ensures Csv.CutRecords(LineTo(r, i, l) + (Line(rec) + y), width) ==
            if width != 0 && width != i + 4 then None
            else Csv.PrependRecords([JoinedRow(r, i, l, Fields(rec))], Csv.CutRecords(y, i + 4))
  {
    var t := Line(rec) + y;
    IdFirst(rec);
    LineToFirst(r, i, l);
    Csv.RecordReads(Fields(rec), y);
    RowRunsOn(r, i, l, t, Fields(rec), y);
    assert (LineTo(r, i, l) + t)[0] == LineTo(r, i, l)[0];
  }

  lemma LineToNoCRLF(r: Record, i: nat, l: nat)
    requires RecordNoCRLF(r) && i < 4 && l <= |Csv.PrintField(Fields(r)[i])|
    ensures Csv.FoldCRLF(LineTo(r, i, l)) == LineTo(r, i, l)
  {
    LineToBegins(r, i, l);
    LineNoCRLF(r);
    PrefixNoCRLF(Line(r), |LineTo(r, i, l)|);
    assert LineTo(r, i, l) == Line(r)[..|LineTo(r, i, l)|];
  }

  lemma FoldBehind(x: string, t: string)
    requires Csv.FoldCRLF(x) == x && t != "" && t[0] != '\n' && t != "\r"
    ensures Csv.FoldCRLF(Csv.DropLastCR(x + t)) == x + Csv.FoldCRLF(Csv.DropLastCR(t))
  {
    assert Csv.DropLastCR(x + t) == x + Csv.DropLastCR(t);
    Csv.FoldConcat(x, Csv.DropLastCR(t));
  }

  // Behind whole lines, what the reader sees of a line that runs on into t.
  lemma RunOnParse(log: seq<Record>, r: Record, i: nat, l: nat, t: string)
    requires LogNoCRLF(log) && RecordNoCRLF(r) && i < 4 && l <= |Csv.PrintField(Fields(r)[i])|
    requires t != "" && t[0] != '\n' && t != "\r"
    ensures Csv.Parse(Text(log) + (LineTo(r, i, l) + t)) ==
            Csv.PrependRecords(Table(log), Csv.CutRecords(
              LineTo(r, i, l) + Csv.FoldCRLF(Csv.DropLastCR(t)), if log == [] then 0 else 4))
  {
    LineToNoCRLF(r, i, l);
    FoldBehind(LineTo(r, i, l), t);
    Csv.ParseBehind(Table(log), LineTo(r, i, l) + t);
    TextReadsBack(log);
    Csv.PrintThenParse(Table(log));
  }

  lemma LineAndMore(rec: Record, z: string)
    requires RecordNoCRLF(rec)
    ensures Csv.FoldCRLF(Csv.DropLastCR(Line(rec) + z)) == Line(rec) + Csv.FoldCRLF(Csv.DropLastCR(z))
  {
    LineNoCRLF(rec);
    Csv.FoldChanges(Line(rec));
    Csv.RecordEndsInNewline(Fields(rec));
    Csv.DropBehind(Line(rec), z);
    Csv.FoldConcat(Line(rec), Csv.DropLastCR(z));
  }

  // A whole line behind one that was cut after its id, itself behind a whole line, makes the file
  // unreadable for good, whatever later flushes append.
  lemma SpoiledForever(log: seq<Record>, r: Record, i: nat, l: nat, rec: Record, z: string)
    requires LogNoCRLF(log) && log != [] && RecordNoCRLF(r) && RecordNoCRLF(rec) && IsId(rec.id)
    requires i > 0 && InPlain(r, i, l)
    ensures Reading(Csv.Parse(Text(log) + (LineTo(r, i, l) + (Line(rec) + z)))) == BadFile
  {
    PlainPart(r, i, l);
    LineAndMore(rec, z);
    IdFirst(rec);
    assert |Line(rec)| > 1 by { LineLength(rec); }
    RunOnParse(log, r, i, l, Line(rec) + z);
    WholeRow(r, i, l, rec, Csv.FoldCRLF(Csv.DropLastCR(z)), 4);
  }

  // What one more row behind whole lines loads as.
  ghost function RowOutcome(log: seq<Record>, row: seq<string>): ReadResult {
    if log != [] && |row| != 4 then BadFile
    else if |row| < 4 then Panic
    else
      match ParseBool(row[3])
      case None => BadFile
      case Some(deleted) => Loaded(Replay(log + [Record(row[0], row[1], row[2], deleted)]))
  }

  lemma GoodRowReads(log: seq<Record>, row: seq<string>)
    requires LogNoCRLF(log) && GoodRow(row)
    ensures Reading(Some(Table(log) + [row])) == Loaded(Replay(log + [RowRecord(row)]))
  {
    TextReadsBack(log);
    RowsAppend(Table(log), row);
    ReplayPut(log, RowRecord(row));
  }

  lemma BadRowReads(log: seq<Record>, row: seq<string>)
    requires LogNoCRLF(log) && |row| >= 4 && !GoodRow(row)
    ensures Reading(Some(Table(log) + [row])) == BadFile
  {
    var rows := Table(log) + [row];
    TextReadsBack(log);
    assert rows[..|log|] == Table(log);
    BadRow(rows, |log|);
  }

  lemma RowReads(log: seq<Record>, row: seq<string>)
    requires LogNoCRLF(log)
    ensures Reading(if log != [] && |row| != 4 then None else Some(Table(log) + [row])) == RowOutcome(log, row)
  {
    if log != [] && |row| != 4 {
    } else if |row| < 4 {
      assert Table(log) + [row] == [row];
      TooShort([row]);
    } else if GoodRow(row) {
      GoodRowReads(log, row);
    } else {
      BadRowReads(log, row);
    }
  }

  lemma OneRowMore(log: seq<Record>, row: seq<string>)
    ensures Csv.PrependRecords(Table(log), Some([row])) == Some(Table(log) + [row])
  {
  }

  // ---- What New makes of it ----

  // Part of a line is no row of more than four fields.
  lemma PartNotWide(r: Record, k: nat, width: nat)
    requires 0 < k < |Line(r)| && width > 4
    ensures Csv.CutRecords(Line(r)[..k], width) == None
  {
    LineSplit(r);
    LineLength(r);
    var s := Line(r)[..k];
    assert s[0] == Line(r)[0];
    if k < |BeforeFlag(r)| {
      BeforeTaken(r, k);
      CommasTorn([r.id, r.url, r.userID], k);
    } else {
      LineTaken(r, k - |BeforeFlag(r)|);
      FlagCut(r, k - |BeforeFlag(r)|);
    }
  }

  lemma MoreNotWide(recs: seq<Record>, k: nat, width: nat)
    requires LogNoCRLF(recs) && 0 < k <= |Text(recs)| && width > 4
    ensures Csv.CutRecords(Csv.FoldCRLF(Csv.DropLastCR(Text(recs)[..k])), width) == None
  {
    assert recs != [] by { assert Text([]) == ""; }
    TextBegins(recs);
    var r := recs[0];
    if k < |Line(r)| {
      var n := |Csv.DropLastCR(Line(r)[..k])|;
      LineSplit(r);
      assert n > 0 by { assert Line(r)[..k][0] == Line(r)[0]; }
      LineNoCRLF(r);
      PrefixNoCRLF(Line(r), n);
      assert Text(recs)[..k] == Line(r)[..k] && Csv.DropLastCR(Line(r)[..k]) == Line(r)[..n];
      PartNotWide(r, n, width);
    } else {
      var z := Text(recs[1..])[..k - |Line(r)|];
      TakeBehind(Line(r), Text(recs[1..]), k);
      LineAndMore(r, z);
      LineSplit(r);
      var y := Csv.FoldCRLF(Csv.DropLastCR(z));
      Csv.RecordReads(Fields(r), y);
      assert (Line(r) + y)[0] == Line(r)[0];
    }
  }

  lemma SpoiledFirst(r: Record, i: nat, l: nat, rec: Record, rest: seq<Record>, k: nat)
    requires RecordNoCRLF(r) && RecordNoCRLF(rec) && IsId(rec.id) && LogNoCRLF(rest)
    requires i > 0 && InPlain(r, i, l) && k <= |Text(rest)|
    ensures Reading(Csv.Parse(Text([]) + (LineTo(r, i, l) + (Line(rec) + Text(rest)[..k])))) ==
            if k == 0 then RowOutcome([], JoinedRow(r, i, l, Fields(rec))) else BadFile
  {
    var z, row := Text(rest)[..k], JoinedRow(r, i, l, Fields(rec));
    PlainPart(r, i, l);
    LineAndMore(rec, z);
    IdFirst(rec);
    assert |Line(rec)| > 1 by { LineLength(rec); }
    RunOnParse([], r, i, l, Line(rec) + z);
    WholeRow(r, i, l, rec, Csv.FoldCRLF(Csv.DropLastCR(z)), 0);
    if k == 0 {
      assert [row] + [] == [row];
      OneRowMore([], row);
      RowReads([], row);
    } else {
      MoreNotWide(rest, k, i + 4);
    }
  }

  // When a whole line and part of the text of rest follow, the file loads only if the two lines are
  // all there is, and then only if the fourth of their fields reads as a flag.
  lemma SpoiledByLine(log: seq<Record>, r: Record, i: nat, l: nat, rec: Record, rest: seq<Record>, k: nat)
    requires LogNoCRLF(log) && RecordNoCRLF(r) && RecordNoCRLF(rec) && IsId(rec.id) && LogNoCRLF(rest)
    requires i > 0 && InPlain(r, i, l) && k <= |Text(rest)|
    ensures |Csv.PrintField(Fields(r)[i])| >= l
    ensures Reading(Csv.Parse(Text(log) + (LineTo(r, i, l) + (Line(rec) + Text(rest)[..k])))) ==
            if log == [] && k == 0 then RowOutcome([], JoinedRow(r, i, l, Fields(rec))) else BadFile
  {
    if log == [] {
      SpoiledFirst(r, i, l, rec, rest, k);
    } else {
      SpoiledForever(log, r, i, l, rec, Text(rest)[..k]);
    }
  }

  lemma PartRow(rec: Record, i: nat, l: nat)
    requires InPlain(rec, i, l) && LineTo(rec, i, l) != ""
    ensures var t := LineTo(rec, i, l);
            && Csv.CutRecord(t) == Some((Fields(rec)[..i] + [Fields(rec)[i][..l]], ""))
            && Csv.DropLastCR(t) == t
  {
    var f, front := Fields(rec)[i], Fields(rec)[..i];
    PlainPart(rec, i, l);
    PlainEnds(f[..l]);
    assert Csv.CutRecord(f[..l]) == Some(([f[..l]], ""));
    CommasRead(front, f[..l]);
    FieldsPrepended(front, Some(([f[..l]], "")));
    if l > 0 {
      assert !Csv.Special(f[..l][l - 1]);
    } else {
      assert Commas(front) + "" == Commas(front);
      CommasEnd(front);
    }
  }

  // When only part of a line follows, the two parts are one row, which loads if it has four fields,
  // or is the first, and its fourth field reads as a flag.
  lemma SpoiledByPart(log: seq<Record>, r: Record, i: nat, l: nat, rec: Record, i1: nat, l1: nat)
    requires LogNoCRLF(log) && RecordNoCRLF(r) && RecordNoCRLF(rec) && IsId(rec.id)
    requires i > 0 && InPlain(r, i, l) && InPlain(rec, i1, l1) && i1 + l1 > 0
    ensures |Csv.PrintField(Fields(r)[i])| >= l && |Csv.PrintField(Fields(rec)[i1])| >= l1
    ensures Reading(Csv.Parse(Text(log) + (LineTo(r, i, l) + LineTo(rec, i1, l1)))) ==
            RowOutcome(log, JoinedRow(r, i, l, Fields(rec)[..i1] + [Fields(rec)[i1][..l1]]))
  {
    var t, g := LineTo(rec, i1, l1), Fields(rec)[..i1] + [Fields(rec)[i1][..l1]];
    var row, x := JoinedRow(r, i, l, g), LineTo(r, i, l);
    PartBegins(rec, i1, l1);
    PartRow(rec, i1, l1);
    LineToNoCRLF(rec, i1, l1);
    RunOnParse(log, r, i, l, t);
    RowRunsOn(r, i, l, t, g, "");
    LineToFirst(r, i, l);
    assert (x + t)[0] == x[0];
    OneRow(x + t, row, if log == [] then 0 else 4);
    OneRowMore(log, row);
    RowReads(log, row);
  }

  lemma PartBegins(rec: Record, i: nat, l: nat)
    requires InPlain(rec, i, l) && IsId(rec.id) && i + l > 0
    ensures var t := LineTo(rec, i, l); t != "" && t[0] != '"' && t[0] != '\n' && t[0] != '\r'
  {
    PlainPart(rec, i, l);
    IdFirst(rec);
    LineSplit(rec);
    LineToBegins(rec, i, l);
    if i > 0 { LineToFirst(rec, i, l); }
    assert LineTo(rec, i, l)[0] == Line(rec)[0];
  }

  // ---- A line cut inside its quotes ----

  lemma OpenRunsOn(r: Record, i: nat, l: nat, t: string)
    requires i < 4 && l <= |Csv.PrintField(Fields(r)[i])| && Open(LineTo(r, i, l)) && '"' !in t
    ensures Csv.CutRecord(LineTo(r, i, l) + t) == None
  {
    var front, p := Fields(r)[..i], Csv.PrintField(Fields(r)[i])[..l];
    CommasClose(front);
    QuotesAppend(Commas(front), p);
    OpenFieldRunsOn(Fields(r)[i], l, t);
    Csv.Regroup(Commas(front), p, t);
    CommasRead(front, p + t);
    FieldsPrepended(front, None);
  }

  lemma {:induction false} FoldNoQuotes(t: string)
    requires '"' !in t
    ensures '"' !in Csv.FoldCRLF(t)
    decreases |t|
  {
    if Csv.StartsCRLF(t) {
      FoldNoQuotes(t[2..]);
    } else if t != "" {
      FoldNoQuotes(t[1..]);
    }
  }

  // Text without quotes behind a line cut inside its quotes leaves the file unreadable.
  lemma SpoiledInQuotes(log: seq<Record>, r: Record, i: nat, l: nat, t: string)
    requires LogNoCRLF(log) && RecordNoCRLF(r) && 0 < i < 4 && l <= |Csv.PrintField(Fields(r)[i])|
    requires Open(LineTo(r, i, l)) && '"' !in t && t != "" && t[0] != '\n' && t != "\r"
    ensures Reading(Csv.Parse(Text(log) + (LineTo(r, i, l) + t))) == BadFile
  {
    var y := Csv.FoldCRLF(Csv.DropLastCR(t));
    FoldNoQuotes(Csv.DropLastCR(t));
    RunOnParse(log, r, i, l, t);
    OpenRunsOn(r, i, l, y);
    LineToFirst(r, i, l);
    assert (LineTo(r, i, l) + y)[0] == LineTo(r, i, l)[0];
  }
}
