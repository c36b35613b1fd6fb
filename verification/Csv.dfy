// The text the storage file holds: records as encoding/csv writes and reads them
// (section 2 of RFC 4180, with Go's folding of CRLF to LF on input).
module Csv {
  import opened Types

  // ---- Writing ----

  predicate Special(c: char) {
    c == ',' || c == '"' || c == '\r' || c == '\n'
  }

  predicate HasSpecial(f: string) {
    exists i :: 0 <= i < |f| && Special(f[i])
  }

  // The first character, as bytes of UTF-8, is a white space.
  predicate StartsWithSpace(f: string) {
    || (|f| >= 1 && (9 <= f[0] as int <= 13 || f[0] == ' '))
    || (|f| >= 2 && f[0] as int == 0xC2 && f[1] as int in {0x85, 0xA0})
    || (|f| >= 3 && MultiByteSpace(f[0] as int, f[1] as int, f[2] as int))
  }

  predicate MultiByteSpace(a: int, b: int, c: int) {
    || (a == 0xE1 && b == 0x9A && c == 0x80)
    || (a == 0xE2 && b == 0x80 && (0x80 <= c <= 0x8A || c == 0xA8 || c == 0xA9 || c == 0xAF))
    || (a == 0xE2 && b == 0x81 && c == 0x9F)
    || (a == 0xE3 && b == 0x80 && c == 0x80)
  }

  predicate NeedsQuotes(f: string) {
    f != "" && (f == "\\." || HasSpecial(f) || StartsWithSpace(f))
  }

  // Quotes are doubled, everything else is copied.
  function Escape(f: string): string {
    if f == "" then ""
    else (if f[0] == '"' then "\"\"" else [f[0]]) + Escape(f[1..])
  }

  function PrintField(f: string): string {
    if NeedsQuotes(f) then "\"" + Escape(f) + "\"" else f
  }

  function PrintRecord(fields: seq<string>): string
    requires |fields| > 0
  {
    if |fields| == 1 then PrintField(fields[0]) + "\n"
    else PrintField(fields[0]) + "," + PrintRecord(fields[1..])
  }

  // Records of the same number of fields, at least two.
  type Table = rs: seq<seq<string>> | forall i :: 0 <= i < |rs| ==> |rs[i]| == |rs[0]| && |rs[i]| >= 2

  function Print(rs: Table): string {
    if rs == [] then "" else PrintRecord(rs[0]) + Print(Rest(rs))
  }

  function Rest(rs: Table): Table
    requires rs != []
  {
    assert forall i :: 0 <= i < |rs[1..]| ==> rs[1..][i] == rs[i + 1];
    rs[1..]
  }

  // ---- Reading ----

  // A field, whether it was the last of its record, and the text after its separator.
  datatype Cut = Cut(field: string, last: bool, rest: string)

  function Prepend(c: char, cut: Option<Cut>): Option<Cut> {
    match cut
    case Some(x) => Some(x.(field := [c] + x.field))
    case None => None
  }

  function Unquoted(s: string): (r: Option<Cut>)
    ensures r.Some? && s != "" ==> |r.value.rest| < |s|
    ensures r.Some? && s == "" ==> r.value.last && r.value.rest == ""
  {
    if s == "" then Some(Cut("", true, ""))
    else if s[0] == ',' then Some(Cut("", false, s[1..]))
    else if s[0] == '\n' then Some(Cut("", true, s[1..]))
    else if s[0] == '"' then None
    else Prepend(s[0], Unquoted(s[1..]))
  }

  // s follows an opening quote.
  function Quoted(s: string): (r: Option<Cut>)
    ensures r.Some? ==> |r.value.rest| < |s|
  {
    if s == "" then None
    else if s[0] != '"' then Prepend(s[0], Quoted(s[1..]))
    else if |s| == 1 then Some(Cut("", true, ""))
    else if s[1] == '"' then Prepend('"', Quoted(s[2..]))
    else if s[1] == ',' then Some(Cut("", false, s[2..]))
    else if s[1] == '\n' then Some(Cut("", true, s[2..]))
    else None
  }

  function CutField(s: string): (r: Option<Cut>)
    ensures r.Some? && s != "" ==> |r.value.rest| < |s|
    ensures r.Some? && s == "" ==> r.value.last && r.value.rest == ""
  {
    if s != "" && s[0] == '"' then Quoted(s[1..]) else Unquoted(s)
  }

  // The fields of the first record of s, and the text after it.
  function CutRecord(s: string): (r: Option<(seq<string>, string)>)
    ensures r.Some? && s != "" ==> |r.value.1| < |s|
    ensures r.Some? ==> |r.value.0| > 0
    decreases |s|
  {
    match CutField(s)
    case None => None
    case Some(cut) =>
      if cut.last then Some(([cut.field], cut.rest))
      else
        match CutRecord(cut.rest)
        case None => None
        case Some((fields, rest)) => Some(([cut.field] + fields, rest))
  }

  // Blank lines are skipped and all records must have as many fields as the first; width 0
  // means that none has been read yet.
  function CutRecords(s: string, width: nat): Option<seq<seq<string>>>
    decreases |s|
  {
    if s == "" then Some([])
    else if s[0] == '\n' then CutRecords(s[1..], width)
    else
      match CutRecord(s)
      case None => None
      case Some((fields, rest)) =>
        if width != 0 && |fields| != width then None
        else
          match CutRecords(rest, |fields|)
          case None => None
          case Some(more) => Some([fields] + more)
  }

  predicate StartsCRLF(s: string) {
    |s| >= 2 && s[0] == '\r' && s[1] == '\n'
  }

  // Every line that ends in CRLF is read as if it ended in LF.
  function FoldCRLF(s: string): string {
    if StartsCRLF(s) then "\n" + FoldCRLF(s[2..])
    else if s == "" then ""
    else [s[0]] + FoldCRLF(s[1..])
  }

  // A carriage return before the end of the file is dropped.
  function DropLastCR(s: string): string {
    if s != "" && s[|s| - 1] == '\r' then s[..|s| - 1] else s
  }

  function Parse(text: string): Option<seq<seq<string>>> {
    CutRecords(FoldCRLF(DropLastCR(text)), 0)
  }

  // ---- What was printed is read back ----

  lemma {:induction false} UnquotedReads(f: string, t: char, rest: string)
    requires !HasSpecial(f) && (t == ',' || t == '\n')
    ensures Unquoted(f + [t] + rest) == Some(Cut(f, t == '\n', rest))
  {
    var s := f + [t] + rest;
    if f == "" {
      assert s[1..] == rest;
    } else {
      assert forall i :: 0 <= i < |f[1..]| ==> f[1..][i] == f[i + 1];
      assert !Special(f[0]);
      assert s[1..] == f[1..] + [t] + rest;
      UnquotedReads(f[1..], t, rest);
      assert [f[0]] + f[1..] == f;
    }
  }

  lemma Regroup(x: string, y: string, z: string)
    ensures x + y + z == x + (y + z)
  {
  }

  // Inside quotes, a doubled quote is one and any other character is itself.
  lemma QuotedStep(c: char, tail: string)
    ensures Quoted(Escape([c]) + tail) == Prepend(c, Quoted(tail))
  {
    assert Escape([c]) == if c == '"' then "\"\"" else [c];
    assert (Escape([c]) + tail)[|Escape([c])|..] == tail;
  }

  lemma OneEscaped(c: char)
    ensures Escape([c]) == if c == '"' then "\"\"" else [c]
  {
    assert [c][1..] == "";
  }

  lemma EscapeSplit(f: string, tail: string)
    requires f != ""
    ensures Escape(f) + tail == Escape([f[0]]) + (Escape(f[1..]) + tail)
  {
    OneEscaped(f[0]);
    assert Escape(f) == Escape([f[0]]) + Escape(f[1..]);
    Regroup(Escape([f[0]]), Escape(f[1..]), tail);
  }

  function PrependAll(f: string, r: Option<Cut>): Option<Cut> {
    match r
    case Some(x) => Some(x.(field := f + x.field))
    case None => None
  }

  lemma PrependMore(f: string, r: Option<Cut>)
    requires f != ""
    ensures Prepend(f[0], PrependAll(f[1..], r)) == PrependAll(f, r)
  {
    if r.Some? { assert [f[0]] + (f[1..] + r.value.field) == f + r.value.field; }
  }

  lemma {:induction false} EscapeReads(f: string, tail: string)
    ensures Quoted(Escape(f) + tail) == PrependAll(f, Quoted(tail))
  {
    if f == "" {
      assert Escape(f) + tail == tail;
      if Quoted(tail).Some? { assert "" + Quoted(tail).value.field == Quoted(tail).value.field; }
    } else {
      EscapeReads(f[1..], tail);
      EscapeSplit(f, tail);
      QuotedStep(f[0], Escape(f[1..]) + tail);
      PrependMore(f, Quoted(tail));
    }
  }

  lemma QuotedReads(f: string, t: char, rest: string)
    requires t == ',' || t == '\n'
    ensures Quoted(Escape(f) + ("\"" + [t] + rest)) == Some(Cut(f, t == '\n', rest))
  {
    var tail := "\"" + [t] + rest;
    assert tail[2..] == rest;
    EscapeReads(f, tail);
    assert f + "" == f;
  }

  lemma FieldReads(f: string, t: char, rest: string)
    requires t == ',' || t == '\n'
    ensures CutField(PrintField(f) + [t] + rest) == Some(Cut(f, t == '\n', rest))
  {
    if NeedsQuotes(f) {
      QuotedFieldReads(f, t, rest);
    } else {
      assert !HasSpecial(f);
      PlainFieldReads(f, t, rest);
    }
  }

  lemma QuotedFieldReads(f: string, t: char, rest: string)
    requires t == ',' || t == '\n'
    ensures CutField("\"" + Escape(f) + "\"" + [t] + rest) == Some(Cut(f, t == '\n', rest))
  {
    var x, y := Escape(f), "\"" + [t] + rest;
    QuotedReads(f, t, rest);
    Regroup("\"" + x, "\"", [t]);
    Regroup("\"" + x, "\"" + [t], rest);
    Regroup("\"", x, y);
    assert ("\"" + (x + y))[1..] == x + y;
  }

  lemma PlainFieldReads(f: string, t: char, rest: string)
    requires !HasSpecial(f) && (t == ',' || t == '\n')
    ensures CutField(f + [t] + rest) == Some(Cut(f, t == '\n', rest))
  {
    UnquotedReads(f, t, rest);
    if f != "" { assert !Special(f[0]); }
  }

  function PrependField(f: string, r: Option<(seq<string>, string)>): Option<(seq<string>, string)> {
    match r
    case Some((fields, rest)) => Some(([f] + fields, rest))
    case None => None
  }

  lemma LastFieldReads(f: string, rest: string)
    ensures CutRecord(PrintField(f) + "\n" + rest) == Some(([f], rest))
  {
    FieldReads(f, '\n', rest);
  }

  lemma FirstFieldReads(f: string, tail: string)
    ensures CutRecord(PrintField(f) + "," + tail) == PrependField(f, CutRecord(tail))
  {
    FieldReads(f, ',', tail);
  }

  lemma {:induction false} RecordReads(fields: seq<string>, rest: string)
    requires |fields| > 0
    ensures CutRecord(PrintRecord(fields) + rest) == Some((fields, rest))
  {
    if |fields| == 1 {
      LastFieldReads(fields[0], rest);
      assert fields == [fields[0]];
    } else {
      RecordReads(fields[1..], rest);
      FirstFieldReads(fields[0], PrintRecord(fields[1..]) + rest);
      assert PrintRecord(fields) + rest == PrintField(fields[0]) + "," + (PrintRecord(fields[1..]) + rest);
      assert fields == [fields[0]] + fields[1..];
    }
  }

  lemma RecordNotBlank(fields: seq<string>)
    requires |fields| >= 2
    ensures PrintRecord(fields) != "" && PrintRecord(fields)[0] != '\n' && PrintRecord(fields)[0] != '\r'
  {
    var f := fields[0];
    assert PrintRecord(fields) == PrintField(f) + "," + PrintRecord(fields[1..]);
    if f != "" && !NeedsQuotes(f) { assert !Special(f[0]); }
  }

  function PrependRecords(rs: seq<seq<string>>, r: Option<seq<seq<string>>>): Option<seq<seq<string>>> {
    match r
    case Some(more) => Some(rs + more)
    case None => None
  }

  lemma FirstRecordReads(fields: seq<string>, rest: string, width: nat)
    requires |fields| >= 2 && (width == 0 || width == |fields|)
    ensures CutRecords(PrintRecord(fields) + rest, width) == PrependRecords([fields], CutRecords(rest, |fields|))
  {
    RecordNotBlank(fields);
    RecordReads(fields, rest);
    assert (PrintRecord(fields) + rest)[0] == PrintRecord(fields)[0];
  }

  // The width the rest of a file must have.
  function Width(rs: Table): nat {
    if rs == [] then 0 else |rs[0]|
  }

  lemma {:induction false} RecordsRead(rs: Table, rest: string, width: nat)
    requires rs != [] && width != 0 ==> width == |rs[0]|
    ensures CutRecords(Print(rs) + rest, width) ==
            PrependRecords(rs, CutRecords(rest, if rs == [] then width else |rs[0]|))
  {
    if rs == [] {
      assert Print(rs) + rest == rest;
      assert forall more: seq<seq<string>> :: [] + more == more;
    } else {
      var tail := Print(Rest(rs)) + rest;
      Regroup(PrintRecord(rs[0]), Print(Rest(rs)), rest);
      FirstRecordReads(rs[0], tail, width);
      if |rs| > 1 { assert |rs[1]| == |rs[0]|; }
      RecordsRead(Rest(rs), rest, |rs[0]|);
      RecordsRegroup(rs, CutRecords(rest, |rs[0]|));
    }
  }

  lemma RecordsRegroup(rs: Table, r: Option<seq<seq<string>>>)
    requires rs != []
    ensures PrependRecords([rs[0]], PrependRecords(Rest(rs), r)) == PrependRecords(rs, r)
  {
    assert rs == [rs[0]] + Rest(rs);
    assert forall more: seq<seq<string>> :: rs + more == [rs[0]] + (Rest(rs) + more);
  }

  // ---- Folding line ends acts on the fields ----

  lemma FoldPair(a: string, b: string)
    requires StartsCRLF(a) && FoldCRLF(a[2..] + b) == FoldCRLF(a[2..]) + FoldCRLF(b)
    ensures FoldCRLF(a + b) == FoldCRLF(a) + FoldCRLF(b)
  {
    assert (a + b)[2..] == a[2..] + b;
    Regroup("\n", FoldCRLF(a[2..]), FoldCRLF(b));
  }

  lemma FoldOne(a: string, b: string)
    requires a != "" && !StartsCRLF(a + b) && FoldCRLF(a[1..] + b) == FoldCRLF(a[1..]) + FoldCRLF(b)
    ensures FoldCRLF(a + b) == FoldCRLF(a) + FoldCRLF(b)
  {
    var s := a + b;
    assert s[1..] == a[1..] + b && s[0] == a[0];
    assert FoldCRLF(s) == [s[0]] + FoldCRLF(s[1..]);
    assert !StartsCRLF(a) by { if |a| >= 2 { assert s[1] == a[1]; } }
    assert FoldCRLF(a) == [a[0]] + FoldCRLF(a[1..]);
    Regroup([a[0]], FoldCRLF(a[1..]), FoldCRLF(b));
  }

  lemma {:induction false} FoldConcat(a: string, b: string)
    requires a != "" && b != "" ==> !(a[|a| - 1] == '\r' && b[0] == '\n')
    ensures FoldCRLF(a + b) == FoldCRLF(a) + FoldCRLF(b)
    decreases |a|
  {
    if a == "" {
      assert a + b == b;
    } else if StartsCRLF(a) {
      FoldConcat(a[2..], b);
      FoldPair(a, b);
    } else {
      FoldConcat(a[1..], b);
      FoldOne(a, b);
    }
  }

  lemma {:induction false} FoldWithoutCR(f: string)
    requires '\r' !in f
    ensures FoldCRLF(f) == f
  {
    if f == "" {
    } else {
      FoldWithoutCR(f[1..]);
      assert f == [f[0]] + f[1..];
    }
  }

  lemma FoldEscapePair(f: string)
    requires StartsCRLF(f) && FoldCRLF(Escape(f[2..])) == Escape(FoldCRLF(f[2..]))
    ensures FoldCRLF(Escape(f)) == Escape(FoldCRLF(f))
  {
    assert Escape(f) == "\r\n" + Escape(f[2..]) by { assert f[1..][1..] == f[2..]; }
    assert Escape(f)[2..] == Escape(f[2..]);
    assert ("\n" + FoldCRLF(f[2..]))[1..] == FoldCRLF(f[2..]);
  }

  lemma FoldEscapeOne(f: string)
    requires f != "" && !StartsCRLF(f) && FoldCRLF(Escape(f[1..])) == Escape(FoldCRLF(f[1..]))
    ensures FoldCRLF(Escape(f)) == Escape(FoldCRLF(f))
  {
    var head := if f[0] == '"' then "\"\"" else [f[0]];
    FoldConcat(head, Escape(f[1..]));
    assert FoldCRLF(head) == head by { if f[0] == '"' { FoldWithoutCR(head); } }
    assert ([f[0]] + FoldCRLF(f[1..]))[1..] == FoldCRLF(f[1..]);
  }

  lemma {:induction false} FoldEscape(f: string)
    ensures FoldCRLF(Escape(f)) == Escape(FoldCRLF(f))
    decreases |f|
  {
    if StartsCRLF(f) {
      FoldEscape(f[2..]);
      FoldEscapePair(f);
    } else if f != "" {
      FoldEscape(f[1..]);
      FoldEscapeOne(f);
    }
  }

  lemma {:induction false} FoldKeepsSpecial(f: string)
    requires '\r' in f
    ensures HasSpecial(f) && HasSpecial(FoldCRLF(f))
    decreases |f|
  {
    var i :| 0 <= i < |f| && f[i] == '\r';
    assert Special(f[i]);
    var g := FoldCRLF(f);
    if f[0] == '\r' {
      assert Special(g[0]);
    } else {
      assert f[1..][i - 1] == '\r';
      FoldKeepsSpecial(f[1..]);
      var j :| 0 <= j < |FoldCRLF(f[1..])| && Special(FoldCRLF(f[1..])[j]);
      assert g[j + 1] == FoldCRLF(f[1..])[j];
    }
  }

  lemma FoldField(f: string)
    ensures FoldCRLF(PrintField(f)) == PrintField(FoldCRLF(f))
    ensures PrintField(f) != "" ==> PrintField(f)[|PrintField(f)| - 1] != '\r'
  {
    if '\r' in f {
      FoldKeepsSpecial(f);
      FoldEscape(f);
      FoldConcat("\"", Escape(f));
      FoldConcat("\"" + Escape(f), "\"");
      FoldWithoutCR("\"");
    } else {
      FoldWithoutCR(f);
      EscapeKeepsCR(f);
      FoldWithoutCR(PrintField(f));
    }
  }

  lemma {:induction false} EscapeKeepsCR(f: string)
    requires '\r' !in f
    ensures '\r' !in Escape(f)
  {
    if f == "" {
    } else {
      EscapeKeepsCR(f[1..]);
    }
  }

  function FoldFields(fields: seq<string>): (r: seq<string>)
    ensures |r| == |fields|
    ensures forall i :: 0 <= i < |r| ==> r[i] == FoldCRLF(fields[i])
  {
    seq(|fields|, i requires 0 <= i < |fields| => FoldCRLF(fields[i]))
  }

  function FoldTable(rs: Table): (t: Table)
    ensures |t| == |rs|
    ensures forall i :: 0 <= i < |t| ==> t[i] == FoldFields(rs[i])
  {
    seq(|rs|, i requires 0 <= i < |rs| => FoldFields(rs[i]))
  }

  lemma {:induction false} FoldRecord(fields: seq<string>)
    requires |fields| > 0
    ensures FoldCRLF(PrintRecord(fields)) == PrintRecord(FoldFields(fields))
  {
    FoldField(fields[0]);
    var p := PrintField(fields[0]);
    if |fields| == 1 {
      FoldConcat(p, "\n");
      FoldWithoutCR("\n");
    } else {
      FoldRecord(fields[1..]);
      assert FoldFields(fields)[1..] == FoldFields(fields[1..]);
      FoldConcat(p, ",");
      FoldConcat(p + ",", PrintRecord(fields[1..]));
      FoldWithoutCR(",");
    }
  }

  lemma {:induction false} RecordEndsInNewline(fields: seq<string>)
    requires |fields| > 0
    ensures PrintRecord(fields) != "" && PrintRecord(fields)[|PrintRecord(fields)| - 1] == '\n'
  {
    if |fields| > 1 { RecordEndsInNewline(fields[1..]); }
  }

  lemma {:induction false} FoldPrint(rs: Table)
    ensures FoldCRLF(Print(rs)) == Print(FoldTable(rs))
  {
    if rs == [] {
    } else {
      FoldRecord(rs[0]);
      FoldPrint(Rest(rs));
      RecordEndsInNewline(rs[0]);
      FoldConcat(PrintRecord(rs[0]), Print(Rest(rs)));
      FoldRest(rs);
    }
  }

  lemma FoldRest(rs: Table)
    requires rs != []
    ensures Rest(FoldTable(rs)) == FoldTable(Rest(rs))
  {
  }

  lemma {:induction false} PrintEndsInNewline(rs: Table)
    requires rs != []
    ensures Print(rs) != "" && Print(rs)[|Print(rs)| - 1] == '\n'
  {
    RecordEndsInNewline(rs[0]);
    if |rs| > 1 { PrintEndsInNewline(Rest(rs)); }
  }

  lemma DropBehind(a: string, tail: string)
    requires a != "" ==> a[|a| - 1] == '\n'
    ensures DropLastCR(a + tail) == a + DropLastCR(tail)
  {
    if tail == "" { assert a + tail == a; }
  }

  // Whatever follows a printed table is read by itself, but for the width it must have.
  lemma ParseBehind(rs: Table, tail: string)
    ensures Parse(Print(rs) + tail) ==
            PrependRecords(FoldTable(rs), CutRecords(FoldCRLF(DropLastCR(tail)), Width(rs)))
  {
    FoldPrint(rs);
    if rs != [] { PrintEndsInNewline(rs); }
    DropBehind(Print(rs), tail);
    FoldConcat(Print(rs), DropLastCR(tail));
    RecordsRead(FoldTable(rs), FoldCRLF(DropLastCR(tail)), 0);
  }

  // Reading a printed table gives the records back with CRLF folded to LF inside their fields,
  // whatever commas, quotes and line breaks the fields hold.
  lemma PrintThenParse(rs: Table)
    ensures Parse(Print(rs)) == Some(FoldTable(rs))
  {
    ParseBehind(rs, "");
    assert Print(rs) + "" == Print(rs);
    assert FoldTable(rs) + [] == FoldTable(rs);
  }

  predicate HasCRLF(f: string) {
    exists i :: 0 < i < |f| && f[i - 1] == '\r' && f[i] == '\n'
  }

  lemma {:induction false} FoldChanges(f: string)
    ensures |FoldCRLF(f)| <= |f|
    ensures FoldCRLF(f) == f <==> !HasCRLF(f)
    decreases |f|
  {
    if StartsCRLF(f) {
      FoldChanges(f[2..]);
      assert f[1 - 1] == '\r' && f[1] == '\n';
    } else if f != "" {
      FoldChanges(f[1..]);
      assert f == [f[0]] + f[1..];
      if HasCRLF(f) {
        var i :| 0 < i < |f| && f[i - 1] == '\r' && f[i] == '\n';
        assert f[1..][i - 2] == '\r' && f[1..][i - 1] == '\n';
      }
      if HasCRLF(f[1..]) {
        var i :| 0 < i < |f[1..]| && f[1..][i - 1] == '\r' && f[1..][i] == '\n';
        assert f[i] == '\r' && f[i + 1] == '\n';
      }
    }
  }

  predicate NoCRLF(fields: seq<string>) {
    forall j :: 0 <= j < |fields| ==> !HasCRLF(fields[j])
  }

  lemma FoldFieldsChanges(fields: seq<string>)
    ensures FoldFields(fields) == fields <==> NoCRLF(fields)
  {
    forall j | 0 <= j < |fields| ensures FoldFields(fields)[j] == fields[j] <==> !HasCRLF(fields[j]) {
      FoldChanges(fields[j]);
    }
  }

  predicate TableNoCRLF(rs: Table) {
    forall i :: 0 <= i < |rs| ==> NoCRLF(rs[i])
  }

  lemma FoldTableChanges(rs: Table)
    ensures FoldTable(rs) == rs <==> TableNoCRLF(rs)
  {
    var t := FoldTable(rs);
    if t == rs {
      forall i | 0 <= i < |rs| ensures NoCRLF(rs[i]) {
        assert t[i] == FoldFields(rs[i]);
        FoldFieldsChanges(rs[i]);
      }
    }
    if TableNoCRLF(rs) {
      forall i | 0 <= i < |rs| ensures t[i] == rs[i] {
        FoldFieldsChanges(rs[i]);
      }
    }
  }

  // A table survives printing and reading exactly when no field holds a CRLF.
  lemma RoundTrip(rs: Table)
    ensures Parse(Print(rs)) == Some(rs) <==> TableNoCRLF(rs)
  {
    PrintThenParse(rs);
    FoldTableChanges(rs);
  }

  // ---- When quotes are written, and what is no CSV ----

  lemma SpecialsIn(f: string)
    ensures HasSpecial(f) <==> ',' in f || '"' in f || '\r' in f || '\n' in f
  {
    if HasSpecial(f) {
      var i :| 0 <= i < |f| && Special(f[i]);
      assert f[i] in f;
    }
    if c :| c in f && Special(c) {
      var i :| 0 <= i < |f| && f[i] == c;
      assert Special(f[i]);
    }
  }

  // A field of ASCII characters is quoted exactly when it holds a comma, a quote or a line break, begins
  // with a white space, or is the two characters that end a PostgreSQL COPY.
  lemma QuotedExactly(f: string)
    requires forall i :: 0 <= i < |f| ==> f[i] as int < 128
    ensures PrintField(f) ==
            if ',' in f || '"' in f || '\r' in f || '\n' in f || f == "\\."
               || (f != "" && (f[0] == ' ' || 9 <= f[0] as int <= 13))
            then "\"" + Escape(f) + "\"" else f
  {
    SpecialsIn(f);
    if f != "" { assert StartsWithSpace(f) <==> f[0] == ' ' || 9 <= f[0] as int <= 13; }
  }

  // A quote is written twice.
  lemma QuoteVector()
    ensures PrintField("a\"b") == "\"a\"\"b\"" && PrintField("a,b") == "\"a,b\"" && PrintField("") == ""
  {
    var f, g := "a\"b", "a,b";
    assert Special(f[1]) && Special(g[1]);
    assert f[1..] == "\"b" && f[1..][1..] == "b" && "b"[1..] == "";
    assert Escape("b") == "b" && Escape("\"b") == "\"\"" + "b" && Escape(f) == "a" + "\"\"b";
    assert g[1..] == ",b" && g[1..][1..] == "b";
    assert Escape(",b") == ",b" && Escape(g) == "a,b";
  }

  // A quote inside an unquoted field, text behind a closing quote, a quote that is never closed and a
  // record of another width are errors; blank lines are not.
  lemma BareQuote(a: string, b: string)
    requires a != "" && '"' !in a && ',' !in a && '\n' !in a
    ensures CutRecord(a + "\"" + b) == None
  {
    BareQuoteField(a, "\"" + b);
    assert a + "\"" + b == a + ("\"" + b);
  }

  lemma {:induction false} BareQuoteField(a: string, t: string)
    requires t != "" && t[0] == '"' && '"' !in a && ',' !in a && '\n' !in a
    ensures Unquoted(a + t) == None
  {
    if a == "" {
      assert a + t == t;
    } else {
      BareQuoteField(a[1..], t);
      assert (a + t)[1..] == a[1..] + t;
    }
  }

  lemma BehindQuote(f: string, c: char, b: string)
    requires c != ',' && c != '\n' && c != '"'
    ensures CutRecord("\"" + (Escape(f) + ("\"" + [c] + b))) == None
  {
    var t := "\"" + [c] + b;
    EscapeReads(f, t);
    assert t[1] == c && Quoted(t) == None;
    assert ("\"" + (Escape(f) + t))[1..] == Escape(f) + t;
  }

  lemma OtherWidth(fields: seq<string>, rest: string, width: nat)
    requires |fields| >= 2 && width != 0
    ensures CutRecords(PrintRecord(fields) + rest, width) == None <==>
            |fields| != width || CutRecords(rest, width) == None
  {
    RecordNotBlank(fields);
    RecordReads(fields, rest);
    assert (PrintRecord(fields) + rest)[0] == PrintRecord(fields)[0];
  }

  lemma BlankLine(s: string, width: nat)
    ensures CutRecords("\n" + s, width) == CutRecords(s, width)
  {
    assert ("\n" + s)[1..] == s;
  }
}
