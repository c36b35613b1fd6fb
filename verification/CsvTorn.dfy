// CSV records that end too early, and what follows them then.
module CsvTorn {
  import opened Types
  import opened Csv

  // The text of fields that more fields follow.
  function Commas(fields: seq<string>): string {
    if fields == [] then "" else PrintField(fields[0]) + "," + Commas(fields[1..])
  }

  lemma {:induction false} PrintIsCommas(front: seq<string>, back: seq<string>)
    requires back != []
    ensures PrintRecord(front + back) == Commas(front) + PrintRecord(back)
  {
    if front == [] {
      assert front + back == back;
    } else {
      assert (front + back)[1..] == front[1..] + back;
      PrintIsCommas(front[1..], back);
      Regroup(PrintField(front[0]) + ",", Commas(front[1..]), PrintRecord(back));
    }
  }

  function PrependFields(fields: seq<string>, r: Option<(seq<string>, string)>): Option<(seq<string>, string)> {
    if fields == [] then r else PrependField(fields[0], PrependFields(fields[1..], r))
  }

  lemma {:induction false} CommasRead(fields: seq<string>, tail: string)
    ensures CutRecord(Commas(fields) + tail) == PrependFields(fields, CutRecord(tail))
  {
    if fields == [] {
      assert Commas(fields) + tail == tail;
    } else {
      CommasRead(fields[1..], tail);
      FirstFieldReads(fields[0], Commas(fields[1..]) + tail);
      assert Commas(fields) + tail == PrintField(fields[0]) + "," + (Commas(fields[1..]) + tail);
    }
  }

  lemma {:induction false} FieldsPrepended(fields: seq<string>, r: Option<(seq<string>, string)>)
    ensures PrependFields(fields, r) ==
            match r
            case Some((more, rest)) => Some((fields + more, rest))
            case None => None
  {
    if fields == [] {
      if r.Some? { assert fields + r.value.0 == r.value.0; }
    } else {
      FieldsPrepended(fields[1..], r);
      if r.Some? { assert fields + r.value.0 == [fields[0]] + (fields[1..] + r.value.0); }
    }
  }

  // ---- Records the end of the file cuts ----

  // The number of quotes tells whether the text ends inside a quoted field.
  function Quotes(s: string): nat {
    if s == "" then 0 else (if s[0] == '"' then 1 else 0) + Quotes(s[1..])
  }

  predicate Open(s: string) {
    Quotes(s) % 2 == 1
  }

  lemma {:induction false} QuotesAppend(a: string, b: string)
    ensures Quotes(a + b) == Quotes(a) + Quotes(b)
  {
    if a == "" {
      assert a + b == b;
    } else {
      assert (a + b)[1..] == a[1..] + b;
      QuotesAppend(a[1..], b);
    }
  }

  lemma {:induction false} NoQuotes(s: string)
    requires '"' !in s
    ensures Quotes(s) == 0 && Quoted(s) == None
  {
    if s == "" {
    } else {
      NoQuotes(s[1..]);
    }
  }

  lemma {:induction false} EscapeCloses(f: string)
    ensures !Open(Escape(f))
  {
    if f == "" {
    } else {
      EscapeCloses(f[1..]);
      EscapeSplit(f, "");
      assert Escape(f) + "" == Escape(f) && Escape(f[1..]) + "" == Escape(f[1..]);
      QuotesAppend(Escape([f[0]]), Escape(f[1..]));
      QuotesEscaped(f[0]);
    }
  }

  lemma QuotesEscaped(c: char)
    ensures Quotes(Escape([c])) == if c == '"' then 2 else 0
  {
    OneEscaped(c);
    assert "\"\""[1..] == "\"" && "\""[1..] == "" && [c][1..] == "";
  }

  lemma PlainCloses(f: string)
    requires !HasSpecial(f)
    ensures Quotes(f) == 0
  {
    assert forall i :: 0 <= i < |f| ==> !Special(f[i]);
    NoQuotes(f);
  }

  lemma FieldCloses(f: string)
    ensures !Open(PrintField(f))
  {
    if NeedsQuotes(f) {
      EscapeCloses(f);
      QuotesAppend("\"", Escape(f));
      QuotesAppend("\"" + Escape(f), "\"");
    } else {
      PlainCloses(f);
    }
  }

  // A field that the end of the file cuts is an error or the last of its record.
  predicate EndsFile(r: Option<Cut>) {
    r.Some? ==> r.value.last && r.value.rest == ""
  }

  lemma {:induction false} PlainEnds(f: string)
    requires !HasSpecial(f)
    ensures Unquoted(f) == CutField(f) == Some(Cut(f, true, ""))
  {
    if f == "" {
    } else {
      assert !Special(f[0]);
      assert forall i :: 0 <= i < |f[1..]| ==> f[1..][i] == f[i + 1];
      PlainEnds(f[1..]);
      assert [f[0]] + f[1..] == f;
    }
  }

  lemma TakeBehind(x: string, y: string, k: nat)
    requires |x| <= k <= |x| + |y|
    ensures (x + y)[..k] == x + y[..k - |x|]
  {
  }

  // Of a quoted field nothing is read before the quote that closes it, or half of a doubled one.
  lemma {:induction false} QuotedTorn(f: string, k: nat)
    requires k <= |Escape(f)| + 1
    ensures var s := (Escape(f) + "\"")[..k]; EndsFile(Quoted(s)) && (Quoted(s).Some? <==> Open(s))
  {
    if f == "" {
      assert (Escape(f) + "\"")[..k] == if k == 0 then "" else "\"";
    } else {
      var x, y := Escape([f[0]]), Escape(f[1..]) + "\"";
      EscapeSplit(f, "\"");
      OneEscaped(f[0]);
      QuotesEscaped(f[0]);
      if k < |x| {
        assert (x + y)[..k] == if k == 0 then "" else "\"";
      } else {
        QuotedTorn(f[1..], k - |x|);
        TakeBehind(x, y, k);
        QuotedStep(f[0], y[..k - |x|]);
        QuotesAppend(x, y[..k - |x|]);
      }
    }
  }

  lemma PlainTorn(f: string, k: nat)
    requires k <= |f| && !HasSpecial(f)
    ensures CutField(f[..k]) == Some(Cut(f[..k], true, "")) && Quotes(f[..k]) == 0
  {
    assert forall i :: 0 <= i < k ==> !Special(f[..k][i]);
    PlainEnds(f[..k]);
    PlainCloses(f[..k]);
  }

  lemma FieldTorn(f: string, k: nat)
    requires k <= |PrintField(f)|
    ensures var s := PrintField(f)[..k]; EndsFile(CutField(s)) && (CutField(s).Some? <==> !Open(s))
  {
    if k == 0 {
      assert PrintField(f)[..k] == "";
    } else if NeedsQuotes(f) {
      var s := (Escape(f) + "\"")[..k - 1];
      QuotedTorn(f, k - 1);
      assert PrintField(f)[..k] == "\"" + s;
      QuotesAppend("\"", s);
      assert ("\"" + s)[1..] == s;
    } else {
      PlainTorn(f, k);
    }
  }

  // Cut before its last field begins, a record is an error inside quotes, and too short otherwise.
  lemma {:induction false} CommasTorn(fields: seq<string>, k: nat)
    requires k < |Commas(fields)|
    ensures var s := Commas(fields)[..k]; var r := CutRecord(s);
            && (r.Some? <==> !Open(s))
            && (r.Some? ==> |r.value.0| <= |fields| && r.value.1 == "")
  {
    var p, s := PrintField(fields[0]), Commas(fields)[..k];
    if k <= |p| {
      assert s == p[..k];
      FieldTorn(fields[0], k);
    } else {
      var rest := Commas(fields[1..])[..k - |p| - 1];
      CommasTorn(fields[1..], k - |p| - 1);
      FirstFieldReads(fields[0], rest);
      assert s == p + "," + rest;
      CommaCloses(fields[0], rest);
    }
  }

  lemma CommaCloses(f: string, rest: string)
    ensures Open(PrintField(f) + "," + rest) <==> Open(rest)
  {
    FieldCloses(f);
    NoQuotes(",");
    QuotesAppend(PrintField(f), ",");
    QuotesAppend(PrintField(f) + ",", rest);
  }

  lemma {:induction false} CommasClose(fields: seq<string>)
    ensures !Open(Commas(fields))
  {
    if fields == [] {
    } else {
      CommasClose(fields[1..]);
      CommaCloses(fields[0], Commas(fields[1..]));
    }
  }

  // ---- Records that run on into what follows ----

  function MergeFirst(x: string, r: Option<(seq<string>, string)>): Option<(seq<string>, string)>
    requires r.Some? ==> r.value.0 != []
  {
    match r
    case Some((fields, rest)) => Some(([x + fields[0]] + fields[1..], rest))
    case None => None
  }

  lemma {:induction false} PlainContinues(x: string, t: string)
    requires !HasSpecial(x)
    ensures Unquoted(x + t) == PrependAll(x, Unquoted(t))
  {
    if x == "" {
      assert x + t == t;
      if Unquoted(t).Some? { assert "" + Unquoted(t).value.field == Unquoted(t).value.field; }
    } else {
      assert !Special(x[0]);
      assert forall i :: 0 <= i < |x[1..]| ==> x[1..][i] == x[i + 1];
      PlainContinues(x[1..], t);
      assert (x + t)[1..] == x[1..] + t;
      PrependMore(x, Unquoted(t));
    }
  }

  lemma FirstMerges(x: string, field: string, fields: seq<string>, rest: string)
    ensures MergeFirst(x, Some(([field] + fields, rest))) == Some(([x + field] + fields, rest))
    ensures MergeFirst(x, Some(([field], rest))) == Some(([x + field], rest))
  {
    assert ([field] + fields)[1..] == fields && [field][1..] == [] && [x + field] + [] == [x + field];
  }

  lemma RecordRunsOn(x: string, t: string)
    requires CutField(x + t) == PrependAll(x, CutField(t))
    ensures CutRecord(x + t) == MergeFirst(x, CutRecord(t))
  {
    if CutField(t).Some? {
      var cut := CutField(t).value;
      if cut.last {
        FirstMerges(x, cut.field, [], cut.rest);
      } else if CutRecord(cut.rest).Some? {
        FirstMerges(x, cut.field, CutRecord(cut.rest).value.0, CutRecord(cut.rest).value.1);
      }
    }
  }

  // What follows an unquoted field that was cut short runs on in the same field.
  lemma FieldRunsOn(x: string, t: string)
    requires !HasSpecial(x) && (t != "" ==> t[0] != '"')
    ensures CutRecord(x + t) == MergeFirst(x, CutRecord(t))
  {
    PlainContinues(x, t);
    assert x != "" ==> !Special(x[0]) && (x + t)[0] == x[0];
    assert x == "" ==> x + t == t;
    RecordRunsOn(x, t);
  }

  // A quoted field that was cut inside its quotes swallows everything up to the next quote.
  lemma {:induction false} QuotedRunsOn(f: string, k: nat, t: string)
    requires k <= |Escape(f)| + 1 && !Open((Escape(f) + "\"")[..k]) && '"' !in t
    ensures Quoted((Escape(f) + "\"")[..k] + t) == None
  {
    if f == "" {
      assert (Escape(f) + "\"")[..k] == if k == 0 then "" else "\"";
      assert "" + t == t;
      NoQuotes(t);
    } else {
      var x, y := Escape([f[0]]), Escape(f[1..]) + "\"";
      EscapeSplit(f, "\"");
      OneEscaped(f[0]);
      QuotesEscaped(f[0]);
      if k < |x| {
        assert (x + y)[..k] == if k == 0 then "" else "\"";
        assert "" + t == t;
        NoQuotes(t);
      } else {
        var rest := y[..k - |x|];
        TakeBehind(x, y, k);
        QuotesAppend(x, rest);
        QuotedRunsOn(f[1..], k - |x|, t);
        QuotedStep(f[0], rest + t);
        Regroup(x, rest, t);
      }
    }
  }

  lemma OnlyQuotedOpen(f: string, k: nat)
    requires k <= |PrintField(f)|
    ensures Open(PrintField(f)[..k]) ==> NeedsQuotes(f) && k > 0
  {
    if !NeedsQuotes(f) && f != "" { PlainTorn(f, k); }
  }

  lemma BehindOpening(s: string)
    ensures CutField("\"" + s) == Quoted(s)
  {
    assert ("\"" + s)[1..] == s;
  }

  lemma OpenFieldRunsOn(f: string, k: nat, t: string)
    requires k <= |PrintField(f)| && Open(PrintField(f)[..k]) && '"' !in t
    ensures CutRecord(PrintField(f)[..k] + t) == None
  {
    OnlyQuotedOpen(f, k);
    var s := (Escape(f) + "\"")[..k - 1];
    assert PrintField(f)[..k] == "\"" + s;
    QuotesAppend("\"", s);
    assert Quotes("\"") == 1 by { assert "\""[1..] == ""; }
    QuotedRunsOn(f, k - 1, t);
    BehindOpening(s + t);
    Regroup("\"", s, t);
  }
}
