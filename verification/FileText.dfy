// The text of the storage file: what is written for a log of records, and what ReadFile makes of it.
module FileText {
  import opened Types
  import opened FileLog
  import Csv

  // ---- Writing and reading ----

  function FormatBool(b: bool): string {
    if b then "true" else "false"
  }

  function ParseBool(s: string): Option<bool> {
    if s in ["1", "t", "T", "TRUE", "true", "True"] then Some(true)
    else if s in ["0", "f", "F", "FALSE", "false", "False"] then Some(false)
    else None
  }

  function Fields(r: Record): seq<string> {
    [r.id, r.url, r.userID, FormatBool(r.deleted)]
  }

  function Table(log: seq<Record>): (t: Csv.Table)
    ensures |t| == |log| && forall i :: 0 <= i < |t| ==> t[i] == Fields(log[i])
  {
    seq(|log|, i requires 0 <= i < |log| => Fields(log[i]))
  }

  // The text of the file when every record given to the csv writer reaches it.
  function Text(log: seq<Record>): string {
    Csv.Print(Table(log))
  }

  // Appending records appends their text.
  lemma {:induction false} TextAppends(a: seq<Record>, b: seq<Record>)
    ensures Text(a + b) == Text(a) + Text(b)
  {
    if a == [] {
      assert a + b == b;
    } else {
      assert Csv.Rest(Table(a + b)) == Table(a[1..] + b) && Csv.Rest(Table(a)) == Table(a[1..]);
      TextAppends(a[1..], b);
    }
  }

  datatype ReadResult = Loaded(data: Data) | BadFile | Panic

  // A row ReadFile can store; v[3] of a shorter row is out of range.
  predicate GoodRow(v: seq<string>) {
    |v| >= 4 && ParseBool(v[3]).Some?
  }

  function RowRecord(v: seq<string>): Record
    requires GoodRow(v)
  {
    Record(v[0], v[1], v[2], ParseBool(v[3]).value)
  }

  predicate GoodRows(rows: seq<seq<string>>) {
    forall i :: 0 <= i < |rows| ==> GoodRow(rows[i])
  }

  function RowRecords(rows: seq<seq<string>>): (log: seq<Record>)
    requires GoodRows(rows)
    ensures |log| == |rows| && forall i :: 0 <= i < |log| ==> log[i] == RowRecord(rows[i])
  {
    seq(|rows|, i requires 0 <= i < |rows| => RowRecord(rows[i]))
  }

  // The first row that is no good is too short.
  predicate ShortRow(rows: seq<seq<string>>, i: int) {
    0 <= i < |rows| && |rows[i]| < 4 && GoodRows(rows[..i])
  }

  lemma BadRow(rows: seq<seq<string>>, n: nat)
    requires n < |rows| && !GoodRow(rows[n]) && |rows[n]| >= 4 && GoodRows(rows[..n])
    ensures !GoodRows(rows) && forall i :: !ShortRow(rows, i)
  {
    forall i | n < i < |rows| ensures !GoodRows(rows[..i]) {
      assert rows[..i][n] == rows[n];
    }
    forall i | 0 <= i < n ensures |rows[i]| >= 4 {
      assert rows[..n][i] == rows[i];
    }
  }

  lemma RowsAppend(rows: seq<seq<string>>, row: seq<string>)
    requires GoodRows(rows) && GoodRow(row)
    ensures GoodRows(rows + [row]) && RowRecords(rows + [row]) == RowRecords(rows) + [RowRecord(row)]
    ensures Replay(RowRecords(rows + [row])) == Replay(RowRecords(rows))[row[0] := Value(RowRecord(row))]
  {
    ReplayPut(RowRecords(rows), RowRecord(row));
  }

  // What the rows of a file load as.
  ghost function Reading(rows: Option<seq<seq<string>>>): ReadResult {
    if rows.None? then BadFile
    else if GoodRows(rows.value) then Loaded(Replay(RowRecords(rows.value)))
    else if exists i :: ShortRow(rows.value, i) then Panic
    else BadFile
  }

  method ReadFile(text: string) returns (r: ReadResult)
    ensures r == Reading(Csv.Parse(text))
  {
    var parsed := Csv.Parse(text);
    if parsed.None? {
      return BadFile;
    }
    var rows := parsed.value;
    var data: Data := map[];
    for n := 0 to |rows|
      invariant GoodRows(rows[..n])
      invariant data == Replay(RowRecords(rows[..n]))
    {
      var v := rows[n];
      if |v| < 4 {
        assert ShortRow(rows, n);
        return Panic;
      }
      var deleted := ParseBool(v[3]);
      if deleted.None? {
        BadRow(rows, n);
        return BadFile;
      }
      data := data[v[0] := Entry(v[1], v[2], deleted.value)];
      RowsAppend(rows[..n], v);
      assert rows[..n + 1] == rows[..n] + [v];
    }
    assert rows[..|rows|] == rows;
    return Loaded(data);
  }

  predicate RecordNoCRLF(r: Record) {
    !Csv.HasCRLF(r.id) && !Csv.HasCRLF(r.url) && !Csv.HasCRLF(r.userID)
  }

  predicate LogNoCRLF(log: seq<Record>) {
    forall i :: 0 <= i < |log| ==> RecordNoCRLF(log[i])
  }

  lemma FieldsReadBack(r: Record)
    ensures GoodRow(Fields(r)) && RowRecord(Fields(r)) == r
    ensures RecordNoCRLF(r) ==> Csv.NoCRLF(Fields(r))
  {
  }

  // The text of a log reads back to the same records, deleted flags included.
  lemma TextReadsBack(log: seq<Record>)
    requires LogNoCRLF(log)
    ensures Csv.Parse(Text(log)) == Some(Table(log))
    ensures GoodRows(Table(log)) && RowRecords(Table(log)) == log
  {
    forall i | 0 <= i < |log|
      ensures Csv.NoCRLF(Table(log)[i]) && GoodRow(Table(log)[i]) && RowRecord(Table(log)[i]) == log[i]
    {
      FieldsReadBack(log[i]);
    }
    Csv.RoundTrip(Table(log));
  }

  // Memory, flush, restart: what New loads from the text of the file is the replay of its records.
  method Reload(log: seq<Record>) returns (r: ReadResult)
    requires LogNoCRLF(log)
    ensures r == Loaded(Replay(log))
  {
    TextReadsBack(log);
    r := ReadFile(Text(log));
  }

  function Line(r: Record): string {
    Csv.PrintRecord(Fields(r))
  }

  lemma OneRecordText(r: Record)
    ensures Text([r]) == Line(r)
  {
    var t := Table([r]);
    assert t[0] == Fields(r);
    assert Csv.Rest(t) == [];
    assert Csv.Print(t) == Csv.PrintRecord(t[0]) + Csv.Print(Csv.Rest(t));
  }

  lemma TextBegins(recs: seq<Record>)
    requires recs != []
    ensures Text(recs) == Line(recs[0]) + Text(recs[1..])
  {
    assert recs == [recs[0]] + recs[1..];
    TextAppends([recs[0]], recs[1..]);
    OneRecordText(recs[0]);
  }

  // ---- Some text written out ----

  lemma PlainField(f: string)
    requires forall i :: 0 <= i < |f| ==> 'A' <= f[i] <= 'Z' || 'a' <= f[i] <= 'z' || '0' <= f[i] <= '9'
    ensures Csv.PrintField(f) == f
  {
  }

  // Letters and numerals are written as they are, in this order, with commas between and the flag last.
  lemma PlainLine(r: Record)
    requires Csv.PrintField(r.id) == r.id && Csv.PrintField(r.url) == r.url && Csv.PrintField(r.userID) == r.userID
    ensures Line(r) == r.id + "," + r.url + "," + r.userID + "," + (if r.deleted then "true" else "false") + "\n"
  {
    var flag := FormatBool(r.deleted);
    PlainField(flag);
    var f := Fields(r);
    assert f[1..][1..] == f[2..] && f[2..][1..] == f[3..];
    assert Csv.PrintRecord(f[3..]) == flag + "\n";
    assert Csv.PrintRecord(f[2..]) == r.userID + "," + Csv.PrintRecord(f[3..]);
    assert Csv.PrintRecord(f[1..]) == r.url + "," + Csv.PrintRecord(f[2..]);
    assert Csv.PrintRecord(f) == r.id + "," + Csv.PrintRecord(f[1..]);
  }

  // The line of an ordinary record.
  lemma LineVector(r: Record)
    requires r == Record("aHR0cA", "http", "u", false)
    ensures Text([r]) == "aHR0cA,http,u,false\n"
  {
    PlainField(r.id);
    PlainField(r.url);
    PlainField(r.userID);
    PlainLine(r);
    OneRecordText(r);
    Written(r.id, r.url, r.userID);
  }

  lemma Written(id: string, url: string, userID: string)
    requires id == "aHR0cA" && url == "http" && userID == "u"
    ensures id + "," + url + "," + userID + "," + "false" + "\n" == "aHR0cA,http,u,false\n"
  {
  }

  // The spellings of strconv.ParseBool.
  lemma FlagSpellings(s: string)
    ensures ParseBool(s) == Some(true) <==>
            s == "1" || s == "t" || s == "T" || s == "TRUE" || s == "true" || s == "True"
    ensures ParseBool(s) == Some(false) <==>
            s == "0" || s == "f" || s == "F" || s == "FALSE" || s == "false" || s == "False"
  {
  }

  // One line is read back as one entry, field by field.
  lemma OneLineReads(r: Record)
    requires RecordNoCRLF(r)
    ensures Reading(Csv.Parse(Text([r]))) == Loaded(map[r.id := Entry(r.url, r.userID, r.deleted)])
  {
    TextReadsBack([r]);
    ReplayPut([], r);
    assert [] + [r] == [r];
  }
}
