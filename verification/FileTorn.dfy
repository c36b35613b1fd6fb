// A storage file whose text ends too early.
module FileTorn {
  import opened Types
  import opened FileLog
  import opened FileText
  import Csv
  import opened CsvTorn

  lemma FlagPrinted(r: Record)
    ensures Csv.PrintField(FormatBool(r.deleted)) == FormatBool(r.deleted)
  {
    var f := FormatBool(r.deleted);
    assert forall i :: 0 <= i < |f| ==> !Csv.Special(f[i]);
  }

  function BeforeFlag(r: Record): string {
    Commas([r.id, r.url, r.userID])
  }

  lemma LineSplit(r: Record)
    ensures Line(r) == BeforeFlag(r) + FormatBool(r.deleted) + "\n"
    ensures Line(r) != "" && Line(r)[0] != '\n' && Line(r)[0] != '\r'
    ensures BeforeFlag(r) != "" && BeforeFlag(r)[|BeforeFlag(r)| - 1] == ','
  {
    FlagPrinted(r);
    assert Fields(r) == [r.id, r.url, r.userID] + [FormatBool(r.deleted)];
    PrintIsCommas([r.id, r.url, r.userID], [FormatBool(r.deleted)]);
    Csv.Regroup(BeforeFlag(r), FormatBool(r.deleted), "\n");
    Csv.RecordNotBlank(Fields(r));
    CommasEnd([r.id, r.url, r.userID]);
  }

  lemma LineLength(r: Record)
    ensures |Line(r)| == |BeforeFlag(r)| + |FormatBool(r.deleted)| + 1
  {
    LineSplit(r);
  }

  lemma {:induction false} CommasEnd(fields: seq<string>)
    requires fields != []
    ensures Commas(fields) != "" && Commas(fields)[|Commas(fields)| - 1] == ','
  {
    if |fields| > 1 { CommasEnd(fields[1..]); }
  }

  lemma PrefixNoCRLF(f: string, k: nat)
    requires k <= |f| && !Csv.HasCRLF(f)
    ensures Csv.FoldCRLF(f[..k]) == f[..k]
  {
    Csv.FoldChanges(f[..k]);
  }

  lemma LineNoCRLF(r: Record)
    requires RecordNoCRLF(r)
    ensures !Csv.HasCRLF(Line(r))
  {
    FieldsReadBack(r);
    Csv.FoldFieldsChanges(Fields(r));
    Csv.FoldRecord(Fields(r));
    Csv.FoldChanges(Line(r));
  }

  // The rows of a file that ends in part of the line of r.
  function TornRows(log: seq<Record>, r: Record, k: nat): Option<seq<seq<string>>>
    requires k <= |Line(r)|
  {
    Csv.Parse(Text(log) + Line(r)[..k])
  }

  lemma TornParse(log: seq<Record>, r: Record, k: nat)
    requires LogNoCRLF(log) && RecordNoCRLF(r) && 0 < k < |Line(r)|
    ensures TornRows(log, r, k) ==
            Csv.PrependRecords(Table(log), Csv.CutRecords(Csv.DropLastCR(Line(r)[..k]), if log == [] then 0 else 4))
  {
    var t := Csv.DropLastCR(Line(r)[..k]);
    LineNoCRLF(r);
    PrefixNoCRLF(Line(r), |t|);
    assert t == Line(r)[..|t|];
    TextReadsBack(log);
    Csv.ParseBehind(Table(log), Line(r)[..k]);
    Csv.PrintThenParse(Table(log));
  }

  function FlagRow(r: Record, j: nat): seq<string>
    requires j <= |FormatBool(r.deleted)|
  {
    [r.id, r.url, r.userID, FormatBool(r.deleted)[..j]]
  }

  lemma FlagCut(r: Record, j: nat)
    requires j <= |FormatBool(r.deleted)|
    ensures Csv.CutRecord(BeforeFlag(r) + FormatBool(r.deleted)[..j]) == Some((FlagRow(r, j), ""))
  {
    var flag := FormatBool(r.deleted)[..j];
    assert forall i :: 0 <= i < |flag| ==> !Csv.Special(flag[i]);
    PlainEnds(flag);
    assert Csv.CutRecord(flag) == Some(([flag], ""));
    CommasRead([r.id, r.url, r.userID], flag);
    FieldsPrepended([r.id, r.url, r.userID], Some(([flag], "")));
    assert [r.id, r.url, r.userID] + [flag] == FlagRow(r, j);
  }

  lemma OneRow(s: string, row: seq<string>, width: nat)
    requires s != "" && s[0] != '\n' && Csv.CutRecord(s) == Some((row, ""))
    ensures Csv.CutRecords(s, width) == if width != 0 && |row| != width then None else Some([row])
  {
    assert Csv.CutRecords("", |row|) == Some([]) && [row] + [] == [row];
  }

  lemma FlagEnds(r: Record, j: nat)
    requires j <= |FormatBool(r.deleted)|
    ensures var s := BeforeFlag(r) + FormatBool(r.deleted)[..j];
            s != "" && s[0] != '\n' && Csv.DropLastCR(s) == s
  {
    var flag := FormatBool(r.deleted)[..j];
    var s := BeforeFlag(r) + flag;
    LineSplit(r);
    assert s[0] == Line(r)[0];
    assert s[|s| - 1] == if j == 0 then ',' else flag[j - 1];
  }

  // Cut within the flag, the line reads as a row with part of the flag.
  lemma TornFlag(r: Record, j: nat, width: nat)
    requires j <= |FormatBool(r.deleted)| && (width == 0 || width == 4)
    ensures var s := BeforeFlag(r) + FormatBool(r.deleted)[..j];
            Csv.DropLastCR(s) == s && Csv.CutRecords(s, width) == Some([FlagRow(r, j)])
  {
    FlagEnds(r, j);
    FlagCut(r, j);
    OneRow(BeforeFlag(r) + FormatBool(r.deleted)[..j], FlagRow(r, j), width);
  }

  // Cut before the flag, the line is an error or a row that is too short.
  lemma TornBefore(r: Record, n: nat, width: nat)
    requires 0 < n < |BeforeFlag(r)| && (width == 0 || width == 4)
    ensures var rows := Csv.CutRecords(BeforeFlag(r)[..n], width);
            && (width == 4 ==> rows == None)
            && (rows.Some? ==> |rows.value| == 1 && |rows.value[0]| < 4)
            && (width == 0 ==> (rows.Some? <==> !Open(BeforeFlag(r)[..n])))
  {
    var s := BeforeFlag(r)[..n];
    LineSplit(r);
    assert s[0] == Line(r)[0];
    CommasTorn([r.id, r.url, r.userID], n);
  }

  lemma FlagPrefix(deleted: bool, j: nat)
    requires j <= |FormatBool(deleted)|
    ensures ParseBool(FormatBool(deleted)[..j]) ==
            if j == 1 || j == |FormatBool(deleted)| then Some(deleted) else None
  {
    var p := FormatBool(deleted)[..j];
    if deleted {
      assert p == if j == 0 then "" else if j == 1 then "t" else if j == 2 then "tr" else if j == 3 then "tru"
                  else "true";
    } else {
      assert p == if j == 0 then "" else if j == 1 then "f" else if j == 2 then "fa" else if j == 3 then "fal"
                  else if j == 4 then "fals" else "false";
    }
  }

  lemma TooShort(rows: seq<seq<string>>)
    requires |rows| == 1 && |rows[0]| < 4
    ensures Reading(Some(rows)) == Panic
  {
    assert ShortRow(rows, 0) && !GoodRow(rows[0]);
  }

  lemma FlagRowLoads(log: seq<Record>, r: Record, j: nat)
    requires LogNoCRLF(log) && j <= |FormatBool(r.deleted)|
    ensures var p := ParseBool(FormatBool(r.deleted)[..j]);
            Reading(Some(Table(log) + [FlagRow(r, j)])) ==
            if p == None then BadFile
            else Loaded(Replay(log)[r.id := Entry(r.url, r.userID, p.value)])
  {
    var rows := Table(log);
    TextReadsBack(log);
    if ParseBool(FormatBool(r.deleted)[..j]).Some? {
      RowsAppend(rows, FlagRow(r, j));
    } else {
      assert (rows + [FlagRow(r, j)])[..|rows|] == rows;
      BadRow(rows + [FlagRow(r, j)], |rows|);
    }
  }

  lemma BeforeTaken(r: Record, k: nat)
    requires 0 < k < |BeforeFlag(r)|
    ensures k < |Line(r)| && Line(r)[..k] == BeforeFlag(r)[..k] && Line(r)[..k][0] != '\r'
  {
    LineSplit(r);
    assert Line(r)[..k][0] == Line(r)[0];
  }

  lemma EarlyRows(log: seq<Record>, r: Record, k: nat)
    requires LogNoCRLF(log) && RecordNoCRLF(r) && 0 < k < |BeforeFlag(r)|
    ensures |BeforeFlag(r)| < |Line(r)|
    ensures var t := Csv.DropLastCR(Line(r)[..k]);
            && 0 < |t| < |BeforeFlag(r)| && t == BeforeFlag(r)[..|t|]
            && TornRows(log, r, k) == Csv.PrependRecords(Table(log), Csv.CutRecords(t, if log == [] then 0 else 4))
  {
    LineLength(r);
    BeforeTaken(r, k);
    TornParse(log, r, k);
  }

  // A carriage return the reader drops at the end is no quote.
  lemma DropKeepsOpen(s: string)
    ensures Open(Csv.DropLastCR(s)) <==> Open(s)
  {
    var t := Csv.DropLastCR(s);
    if t != s {
      assert s == t + "\r";
      QuotesAppend(t, "\r");
      NoQuotes("\r");
    }
  }

  // A line cut before its flag is lost together with the whole file: New fails, or panics when the
  // line is the first one and the cut lies outside quotes.
  lemma CutBeforeFlag(log: seq<Record>, r: Record, k: nat)
    requires LogNoCRLF(log) && RecordNoCRLF(r) && 0 < k < |BeforeFlag(r)|
    ensures |BeforeFlag(r)| < |Line(r)|
    ensures Reading(TornRows(log, r, k)) == if log == [] && !Open(Line(r)[..k]) then Panic else BadFile
  {
    EarlyRows(log, r, k);
    var t := Csv.DropLastCR(Line(r)[..k]);
    DropKeepsOpen(Line(r)[..k]);
    TornBefore(r, |t|, if log == [] then 0 else 4);
    if log == [] && !Open(t) {
      var rows := Csv.CutRecords(t, 0).value;
      assert Table(log) + rows == rows;
      TooShort(rows);
    }
  }

  lemma LineTaken(r: Record, j: nat)
    requires j <= |FormatBool(r.deleted)|
    ensures |BeforeFlag(r)| + j < |Line(r)|
    ensures Line(r)[..|BeforeFlag(r)| + j] == BeforeFlag(r) + FormatBool(r.deleted)[..j]
  {
    var b, flag := BeforeFlag(r), FormatBool(r.deleted);
    LineSplit(r);
    assert Line(r)[..|b| + j] == (b + flag)[..|b| + j];
    TakeBehind(b, flag, |b| + j);
  }

  lemma LateRows(log: seq<Record>, r: Record, j: nat)
    requires LogNoCRLF(log) && RecordNoCRLF(r) && j <= |FormatBool(r.deleted)|
    ensures 0 < |BeforeFlag(r)| + j < |Line(r)|
    ensures TornRows(log, r, |BeforeFlag(r)| + j) == Some(Table(log) + [FlagRow(r, j)])
  {
    LineSplit(r);
    TornParse(log, r, |BeforeFlag(r)| + j);
    LineTaken(r, j);
    TornFlag(r, j, if log == [] then 0 else 4);
  }

  // So is a line cut at its flag, unless the cut spared the first letter of the flag or all but the
  // line end: then the file loads as if the line were whole.
  lemma CutAtFlag(log: seq<Record>, r: Record, j: nat)
    requires LogNoCRLF(log) && RecordNoCRLF(r) && j <= |FormatBool(r.deleted)|
    ensures |BeforeFlag(r)| + j < |Line(r)|
    ensures Reading(TornRows(log, r, |BeforeFlag(r)| + j)) ==
            if j == 1 || j == |FormatBool(r.deleted)| then Loaded(Replay(log + [r])) else BadFile
  {
    LateRows(log, r, j);
    FlagPrefix(r.deleted, j);
    FlagRowLoads(log, r, j);
    ReplayPut(log, r);
  }

  // ---- Any file ----

  // A file as it is after any flush that hands on part of its text: whole lines, and the first cut
  // bytes of one more.
  datatype File = File(log: seq<Record>, last: Record, cut: nat)

  ghost predicate Valid(f: File) {
    f.cut < |Line(f.last)| && LogNoCRLF(f.log) && RecordNoCRLF(f.last)
  }

  // What there is of the last line.
  function Begun(f: File): string {
    if f.cut <= |Line(f.last)| then Line(f.last)[..f.cut] else Line(f.last)
  }

  function Content(f: File): string {
    Text(f.log) + Begun(f)
  }

  // The cut spared the first letter of the flag, or all but the line end.
  predicate FlagLeft(f: File) {
    f.cut == |BeforeFlag(f.last)| + 1 || f.cut == |Line(f.last)| - 1
  }

  // The records New loads if it loads the file.
  function Kept(f: File): seq<Record> {
    if f.cut == 0 then f.log else f.log + [f.last]
  }

  ghost function Outcome(f: File): ReadResult {
    if f.cut == 0 || FlagLeft(f) then Loaded(Replay(Kept(f)))
    else if f.log == [] && f.cut < |BeforeFlag(f.last)| && !Open(Begun(f)) then Panic
    else BadFile
  }

  lemma NothingCut(f: File)
    requires Valid(f) && f.cut == 0
    ensures Reading(Csv.Parse(Content(f))) == Outcome(f)
  {
    TextReadsBack(f.log);
    assert Content(f) == Text(f.log);
  }

  lemma EarlyOutcome(f: File)
    requires Valid(f) && 0 < f.cut < |BeforeFlag(f.last)|
    ensures Reading(TornRows(f.log, f.last, f.cut)) == Outcome(f)
  {
    LineLength(f.last);
    CutBeforeFlag(f.log, f.last, f.cut);
  }

  lemma LateOutcome(f: File, j: nat)
    requires Valid(f) && j <= |FormatBool(f.last.deleted)| && 0 < f.cut == |BeforeFlag(f.last)| + j
    ensures Reading(TornRows(f.log, f.last, f.cut)) == Outcome(f)
  {
    LineLength(f.last);
    CutAtFlag(f.log, f.last, j);
  }

  // What New makes of a file, wherever it ends.
  lemma FileReads(f: File)
    requires Valid(f)
    ensures Reading(Csv.Parse(Content(f))) == Outcome(f)
  {
    if f.cut == 0 {
      NothingCut(f);
    } else if f.cut < |BeforeFlag(f.last)| {
      EarlyOutcome(f);
    } else {
      LineLength(f.last);
      LateOutcome(f, f.cut - |BeforeFlag(f.last)|);
    }
  }

  // The file after the first k bytes of the text of recs have been appended behind whole lines; any
  // stands for the record of which there is nothing yet.
  function Extended(log: seq<Record>, recs: seq<Record>, k: nat, any: Record): File
    decreases |recs|
  {
    if recs == [] then File(log, any, 0)
    else if k < |Line(recs[0])| then File(log, recs[0], k)
    else Extended(log + [recs[0]], recs[1..], k - |Line(recs[0])|, any)
  }

  lemma TextTaken(log: seq<Record>, recs: seq<Record>, k: nat)
    requires recs != [] && |Line(recs[0])| <= k <= |Text(recs)|
    ensures |Text(recs)| == |Line(recs[0])| + |Text(recs[1..])|
    ensures Text(log) + Text(recs)[..k] == Text(log + [recs[0]]) + Text(recs[1..])[..k - |Line(recs[0])|]
  {
    var x, y := Line(recs[0]), Text(recs[1..]);
    TextBegins(recs);
    TextAppends(log, [recs[0]]);
    OneRecordText(recs[0]);
    TakeBehind(x, y, k);
    Csv.Regroup(Text(log), x, y[..k - |x|]);
  }

  // Wherever the text of recs is cut, what is kept of it is whole lines and the beginning of one more.
  lemma {:induction false} TornFile(log: seq<Record>, recs: seq<Record>, k: nat, any: Record)
    requires k <= |Text(recs)|
    ensures var f := Extended(log, recs, k, any);
            f.cut < |Line(f.last)| && Content(f) == Text(log) + Text(recs)[..k]
    decreases |recs|
  {
    if recs == [] {
      LineSplit(any);
      assert Line(any)[..0] == Text(recs)[..k];
    } else if k < |Line(recs[0])| {
      TextBegins(recs);
      assert Text(recs)[..k] == Line(recs[0])[..k];
    } else {
      TextTaken(log, recs, k);
      TornFile(log + [recs[0]], recs[1..], k - |Line(recs[0])|, any);
    }
  }

  // The file then holds the first n records whole, and New loads the first m of them if any.
  lemma {:induction false} KeptPart(log: seq<Record>, recs: seq<Record>, k: nat, any: Record)
    returns (m: nat, n: nat)
    ensures m <= |recs| && Kept(Extended(log, recs, k, any)) == log + recs[..m]
    ensures n <= |recs| && Extended(log, recs, k, any).log == log + recs[..n]
    ensures recs != [] && k > 0 ==> m > 0
    decreases |recs|
  {
    if recs == [] {
      m, n := 0, 0;
    } else if k < |Line(recs[0])| {
      m, n := if k == 0 then 0 else 1, 0;
    } else {
      m, n := KeptPart(log + [recs[0]], recs[1..], k - |Line(recs[0])|, any);
      OneMore(log, recs, m);
      OneMore(log, recs, n);
      m, n := m + 1, n + 1;
    }
  }

  lemma OneMore(log: seq<Record>, recs: seq<Record>, m: nat)
    requires m < |recs|
    ensures log + [recs[0]] + recs[1..][..m] == log + recs[..m + 1]
  {
  }

  lemma {:induction false} ExtendedNoCRLF(log: seq<Record>, recs: seq<Record>, k: nat, any: Record)
    requires LogNoCRLF(log) && LogNoCRLF(recs) && RecordNoCRLF(any)
    ensures var f := Extended(log, recs, k, any); LogNoCRLF(f.log) && RecordNoCRLF(f.last)
    decreases |recs|
  {
    if recs == [] {
    } else if k >= |Line(recs[0])| {
      ExtendedNoCRLF(log + [recs[0]], recs[1..], k - |Line(recs[0])|, any);
    }
  }

  lemma ExtendedValid(log: seq<Record>, recs: seq<Record>, k: nat, any: Record)
    requires LogNoCRLF(log) && LogNoCRLF(recs) && RecordNoCRLF(any) && k <= |Text(recs)|
    ensures Valid(Extended(log, recs, k, any))
    ensures Content(Extended(log, recs, k, any)) == Text(log) + Text(recs)[..k]
  {
    TornFile(log, recs, k, any);
    ExtendedNoCRLF(log, recs, k, any);
  }
}
