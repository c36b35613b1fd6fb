// The id scheme of internal/shortener/shortener.go: base64url without padding
// (section 5 of RFC 4648, padding left out as section 3.2 allows).
module Base64 {
  import opened Types

  type Byte = c: char | c as int < 256

  // A Go string: a sequence of bytes.
  type ByteString = seq<Byte>

  type Sextet = n: nat | n < 64

  // The 64-character alphabet of section 5 of RFC 4648.
  function Digit(v: Sextet): (c: char)
    ensures c as int < 128 && c != '/' && c != '=' && c != '+'
    ensures DigitValue(c) == Some(v)
  {
    if v < 26 then ('A' as int + v) as char
    else if v < 52 then ('a' as int + (v - 26)) as char
    else if v < 62 then ('0' as int + (v - 52)) as char
    else if v == 62 then '-'
    else '_'
  }

  function DigitValue(c: char): Option<Sextet> {
    if 'A' <= c <= 'Z' then Some(c as int - 'A' as int)
    else if 'a' <= c <= 'z' then Some(c as int - 'a' as int + 26)
    else if '0' <= c <= '9' then Some(c as int - '0' as int + 52)
    else if c == '-' then Some(62)
    else if c == '_' then Some(63)
    else None
  }

  lemma DigitOfValue(c: char)
    requires DigitValue(c).Some?
    ensures Digit(DigitValue(c).value) == c
  {
  }

  // The alphabet written out.
  const UPPER := "ABCDEFGHIJKLMNOPQRSTUVWXYZ"
  const LOWER := "abcdefghijklmnopqrstuvwxyz"
  const ALPHABET := UPPER + LOWER + "0123456789" + "-_"

  lemma UpperLetters(v: nat)
    requires v < 26
    ensures |UPPER| == 26 && UPPER[v] as int == 'A' as int + v
  {
  }

  lemma LowerLetters(v: nat)
    requires v < 26
    ensures |LOWER| == 26 && LOWER[v] as int == 'a' as int + v
  {
  }

  lemma Numerals(v: nat)
    requires v < 10
    ensures "0123456789"[v] as int == '0' as int + v
  {
  }

  // Digit v is the character at position v of the alphabet, and DigitValue finds it there.
  lemma DigitIsLetter(v: Sextet, c: char)
    ensures |ALPHABET| == 64 && Digit(v) == ALPHABET[v]
    ensures DigitValue(c) == Some(v) <==> c == ALPHABET[v]
  {
    LetterAt(v);
    if DigitValue(c) == Some(v) { DigitOfValue(c); }
  }

  lemma LetterAt(v: Sextet)
    ensures |ALPHABET| == 64 && Digit(v) == ALPHABET[v]
  {
    assert |UPPER| == 26 && |LOWER| == 26 && |ALPHABET| == 64;
    if v < 26 {
      UpperLetters(v);
      assert ALPHABET[v] == UPPER[v];
    } else if v < 52 {
      LowerLetters(v - 26);
      assert ALPHABET[v] == LOWER[v - 26];
    } else if v < 62 {
      Numerals(v - 52);
      assert ALPHABET[v] == "0123456789"[v - 52];
    }
  }

  function Digits(q: seq<Sextet>): (s: string)
    ensures |s| == |q| && '/' !in s
  {
    if q == [] then "" else [Digit(q[0])] + Digits(q[1..])
  }

  function DigitValues(s: string): (q: Option<seq<Sextet>>)
    ensures q.Some? ==> |q.value| == |s|
  {
    if s == "" then Some([])
    else
      match (DigitValue(s[0]), DigitValues(s[1..]))
      case (Some(v), Some(rest)) => Some([v] + rest)
      case _ => None
  }

  // The four sextets of three bytes.
  function Group(x: int, y: int, z: int): (q: seq<Sextet>)
    requires 0 <= x < 256 && 0 <= y < 256 && 0 <= z < 256
    ensures |q| == 4
  {
    [x / 4, x % 4 * 16 + y / 16, y % 16 * 4 + z / 64, z % 64]
  }

  // The three bytes of four sextets.
  function Triple(p: Sextet, q: Sextet, r: Sextet, t: Sextet): (b: ByteString)
    ensures |b| == 3
  {
    [(p as int * 4 + q as int / 16) as char,
     (q as int % 16 * 16 + r as int / 4) as char,
     (r as int % 4 * 64 + t as int) as char]
  }

  // Three bytes at a time; one or two last bytes give two or three sextets, padded with zero bits.
  function Sextets(b: ByteString): (q: seq<Sextet>)
    ensures |q| == (4 * |b| + 2) / 3
  {
    if |b| == 0 then []
    else if |b| == 1 then Group(b[0] as int, 0, 0)[..2]
    else if |b| == 2 then Group(b[0] as int, b[1] as int, 0)[..3]
    else Group(b[0] as int, b[1] as int, b[2] as int) + Sextets(b[3..])
  }

  // Section 3.5 of RFC 4648 lets a decoder reject non-zero trailing bits, and this one does.
  function Bytes(q: seq<Sextet>): (b: Option<ByteString>) {
    if |q| == 0 then Some([])
    else if |q| == 1 then None
    else if |q| == 2 then
      if q[1] % 16 == 0 then Some(Triple(q[0], q[1], 0, 0)[..1]) else None
    else if |q| == 3 then
      if q[2] % 4 == 0 then Some(Triple(q[0], q[1], q[2], 0)[..2]) else None
    else
      match Bytes(q[4..])
      case Some(rest) => Some(Triple(q[0], q[1], q[2], q[3]) + rest)
      case None => None
  }

  function Encode(b: ByteString): (id: string)
    ensures |id| == (4 * |b| + 2) / 3
    ensures '/' !in id
  {
    Digits(Sextets(b))
  }

  function Decode(id: string): (b: Option<ByteString>) {
    match DigitValues(id)
    case Some(q) => Bytes(q)
    case None => None
  }

  lemma {:induction false} DigitsThenValues(q: seq<Sextet>)
    ensures DigitValues(Digits(q)) == Some(q)
  {
    if q == [] {
    } else {
      DigitsThenValues(q[1..]);
      var s := Digits(q);
      assert s[0] == Digit(q[0]) && s[1..] == Digits(q[1..]);
      assert DigitValues(s) == Some([q[0]] + q[1..]);
      assert q == [q[0]] + q[1..];
    }
  }

  lemma {:induction false} ValuesThenDigits(s: string)
    requires DigitValues(s).Some?
    ensures Digits(DigitValues(s).value) == s
  {
    if s == "" {
    } else {
      DigitOfValue(s[0]);
      ValuesThenDigits(s[1..]);
      var q := DigitValues(s).value;
      assert q[1..] == DigitValues(s[1..]).value;
      assert s == [s[0]] + s[1..];
    }
  }

  // The arithmetic of one group, both ways.
  lemma GroupThenTriple(x: Byte, y: Byte, z: Byte)
    ensures var g := Group(x as int, y as int, z as int); Triple(g[0], g[1], g[2], g[3]) == [x, y, z]
  {
  }

  lemma TripleThenGroup(p: Sextet, q: Sextet, r: Sextet, t: Sextet)
    ensures var b := Triple(p, q, r, t); Group(b[0] as int, b[1] as int, b[2] as int) == [p, q, r, t]
  {
    TripleBits(p, q, r, t);
  }

  lemma TripleBits(p: int, q: int, r: int, t: int)
    requires 0 <= p < 64 && 0 <= q < 64 && 0 <= r < 64 && 0 <= t < 64
    ensures var x, y, z := p * 4 + q / 16, q % 16 * 16 + r / 4, r % 4 * 64 + t;
            && 0 <= x < 256 && 0 <= y < 256 && 0 <= z < 256
            && x / 4 == p && x % 4 * 16 + y / 16 == q && y % 16 * 4 + z / 64 == r && z % 64 == t
  {
  }

  lemma {:induction false} SextetsThenBytes(b: ByteString)
    ensures Bytes(Sextets(b)) == Some(b)
  {
    var zero := 0 as char;
    if |b| == 1 {
      GroupThenTriple(b[0], zero, zero);
      var g := Group(b[0] as int, 0, 0);
      assert g[1] % 16 == 0 && g[2] == 0 && g[3] == 0;
      assert Bytes(g[..2]) == Some([b[0], zero, zero][..1]);
      assert b == [b[0], zero, zero][..1];
    } else if |b| == 2 {
      GroupThenTriple(b[0], b[1], zero);
      var g := Group(b[0] as int, b[1] as int, 0);
      assert g[2] % 4 == 0 && g[3] == 0;
      assert Bytes(g[..3]) == Some([b[0], b[1], zero][..2]);
      assert b == [b[0], b[1], zero][..2];
    } else if |b| >= 3 {
      GroupThenTriple(b[0], b[1], b[2]);
      assert Sextets(b)[4..] == Sextets(b[3..]);
      SextetsThenBytes(b[3..]);
      assert b == [b[0], b[1], b[2]] + b[3..];
    }
  }

  lemma {:induction false} BytesThenSextets(q: seq<Sextet>)
    requires Bytes(q).Some?
    ensures Sextets(Bytes(q).value) == q
  {
    if |q| == 2 {
      TripleThenGroup(q[0], q[1], 0, 0);
      assert q == [q[0], q[1]];
    } else if |q| == 3 {
      TripleThenGroup(q[0], q[1], q[2], 0);
      assert q == [q[0], q[1], q[2]];
    } else if |q| >= 4 {
      TripleThenGroup(q[0], q[1], q[2], q[3]);
      BytesThenSextets(q[4..]);
      assert Bytes(q).value[3..] == Bytes(q[4..]).value;
      assert q == [q[0], q[1], q[2], q[3]] + q[4..];
    }
  }

  // Decode recovers the bytes Encode was given, and accepts no other ids.
  lemma RoundTrip(b: ByteString, id: string)
    ensures Decode(id) == Some(b) <==> id == Encode(b)
  {
    SextetsThenBytes(b);
    DigitsThenValues(Sextets(b));
    if Decode(id) == Some(b) {
      ValuesThenDigits(id);
      BytesThenSextets(DigitValues(id).value);
    }
  }

  // Two URLs get the same id only when they are the same URL.
  lemma Injective(b: ByteString, c: ByteString)
    requires Encode(b) == Encode(c)
    ensures b == c
  {
    RoundTrip(b, Encode(b));
    RoundTrip(c, Encode(c));
  }

  // The digits an id may consist of.
  predicate IsId(s: string) {
    forall i :: 0 <= i < |s| ==> DigitValue(s[i]).Some?
  }

  lemma {:induction false} DigitsAreId(q: seq<Sextet>)
    ensures IsId(Digits(q))
  {
    if q == [] {
    } else {
      DigitsAreId(q[1..]);
      var s := Digits(q);
      forall i | 0 <= i < |s| ensures DigitValue(s[i]).Some? {
        if i > 0 { assert s[i] == Digits(q[1..])[i - 1]; }
      }
    }
  }

  predicate IsBytes(s: string) {
    forall i :: 0 <= i < |s| ==> s[i] as int < 256
  }

  // Every entry lies under the id of its url, so two entries never share a url.
  ghost predicate Keyed(data: Data) {
    forall k :: k in data ==> IsBytes(data[k].url) && Encode(data[k].url) == k
  }

  // The id fits column id VARCHAR(100) exactly when the URL has at most 75 bytes.
  lemma FitsColumn(b: ByteString)
    ensures |Encode(b)| <= 100 <==> |b| <= 75
  {
  }

  lemma {:induction false} SpelledOut(q: seq<Sextet>, s: string)
    requires |s| == |q| && forall i :: 0 <= i < |q| ==> Digit(q[i]) == s[i]
    ensures Digits(q) == s
  {
    if q == [] {
    } else {
      SpelledOut(q[1..], s[1..]);
      assert s == [s[0]] + s[1..];
    }
  }

  // ---- The bits of an id ----

  // The number whose digits to base 64 are q.
  function SextetNumber(q: seq<Sextet>): nat {
    if q == [] then 0 else 64 * SextetNumber(q[..|q| - 1]) + q[|q| - 1]
  }

  // The number whose digits to base 256 are b.
  function ByteNumber(b: ByteString): nat {
    if b == [] then 0 else 256 * ByteNumber(b[..|b| - 1]) + b[|b| - 1] as int
  }

  // The letters of id, as positions in the alphabet.
  ghost predicate SpelledBy(id: string, q: seq<Sextet>) {
    |id| == |q| && forall i :: 0 <= i < |q| ==> i < |id| && q[i] < |ALPHABET| && id[i] == ALPHABET[q[i]]
  }

  lemma {:induction false} DigitsSpell(q: seq<Sextet>)
    ensures SpelledBy(Digits(q), q)
  {
    if q == [] {
    } else {
      DigitsSpell(q[1..]);
      DigitIsLetter(q[0], 'A');
      var s := Digits(q);
      forall i | 0 <= i < |q| ensures q[i] < |ALPHABET| && s[i] == ALPHABET[q[i]] {
        if i > 0 { assert s[i] == Digits(q[1..])[i - 1] && q[i] == q[1..][i - 1]; }
      }
    }
  }

  lemma {:induction false} DigitsConcat(a: seq<Sextet>, b: seq<Sextet>)
    ensures Digits(a + b) == Digits(a) + Digits(b)
  {
    if a == [] {
      assert a + b == b;
    } else {
      assert (a + b)[1..] == a[1..] + b;
      DigitsConcat(a[1..], b);
    }
  }

  lemma FourDigits(p: Sextet, q: Sextet, r: Sextet, t: Sextet)
    ensures SextetNumber([p, q]) == 64 * p + q
    ensures SextetNumber([p, q, r]) == 64 * (64 * p + q) + r
    ensures SextetNumber([p, q, r, t]) == 64 * (64 * (64 * p + q) + r) + t
  {
    assert [p][..0] == [] && [p, q][..1] == [p] && [p, q, r][..2] == [p, q] && [p, q, r, t][..3] == [p, q, r];
    assert SextetNumber([p]) == p;
  }

  lemma ThreeBytes(x: Byte, y: Byte, z: Byte)
    ensures ByteNumber([x]) == x as int
    ensures ByteNumber([x, y]) == 256 * x as int + y as int
    ensures ByteNumber([x, y, z]) == 256 * (256 * x as int + y as int) + z as int
  {
    assert [x][..0] == [] && [x, y][..1] == [x] && [x, y, z][..2] == [x, y];
  }

  // id spells the number n in so many letters.
  ghost predicate Spells(id: string, n: nat) {
    exists q: seq<Sextet> :: SpelledBy(id, q) && SextetNumber(q) == n
  }

  lemma EncodesSextets(b: ByteString)
    ensures Spells(Encode(b), SextetNumber(Sextets(b)))
  {
    DigitsSpell(Sextets(b));
  }

  // One byte is spelled by two letters, its bits and four zeros; two bytes by three letters, their bits
  // and two zeros; three bytes by four letters ...
  lemma EncodesOne(x: Byte)
    ensures |Encode([x])| == 2 && Spells(Encode([x]), 16 * ByteNumber([x]))
  {
    var zero := 0 as char;
    var g := Group(x as int, 0, 0);
    EncodesSextets([x]);
    ThreeBytes(x, zero, zero);
    FourDigits(g[0], g[1], g[2], g[3]);
    assert Sextets([x]) == [g[0], g[1]];
  }

  lemma EncodesTwo(x: Byte, y: Byte)
    ensures |Encode([x, y])| == 3 && Spells(Encode([x, y]), 4 * ByteNumber([x, y]))
  {
    var g := Group(x as int, y as int, 0);
    EncodesSextets([x, y]);
    ThreeBytes(x, y, 0 as char);
    FourDigits(g[0], g[1], g[2], g[3]);
    assert Sextets([x, y]) == [g[0], g[1], g[2]];
  }

  lemma EncodesThree(x: Byte, y: Byte, z: Byte)
    ensures |Encode([x, y, z])| == 4 && Spells(Encode([x, y, z]), ByteNumber([x, y, z]))
  {
    var g := Group(x as int, y as int, z as int);
    EncodesSextets([x, y, z]);
    ThreeBytes(x, y, z);
    FourDigits(g[0], g[1], g[2], g[3]);
    assert [x, y, z][3..] == [] && Sextets([x, y, z]) == [g[0], g[1], g[2], g[3]];
  }

  // ... and a longer string three bytes at a time.
  lemma EncodesInThrees(b: ByteString)
    requires |b| > 3
    ensures Encode(b) == Encode(b[..3]) + Encode(b[3..])
  {
    assert b[..3][3..] == [];
    assert Sextets(b[..3]) == Group(b[0] as int, b[1] as int, b[2] as int) + [];
    assert Sextets(b) == Sextets(b[..3]) + Sextets(b[3..]);
    DigitsConcat(Sextets(b[..3]), Sextets(b[3..]));
  }

  // Test vectors of section 10 of RFC 4648 without their padding ...
  lemma OneByteVector()
    ensures Encode("f") == "Zg"
  {
    SpelledOut([25, 32], "Zg");
    assert Sextets("f") == [25, 32];
  }

  lemma ThreeByteVector()
    ensures Encode("foo") == "Zm9v"
  {
    SpelledOut([25, 38, 61, 47], "Zm9v");
    assert Sextets("foo"[3..]) == [];
    assert Sextets("foo") == [25, 38, 61, 47];
  }

  // ... and the two digits in which base64url differs from base64.
  lemma UrlDigitsVector()
    ensures Encode([0xFB as char, 0xFF as char]) == "-_8"
  {
    SpelledOut([62, 63, 60], "-_8");
    assert Sextets([0xFB as char, 0xFF as char]) == [62, 63, 60];
  }

  // The id of an ordinary URL.
  lemma UrlVector()
    ensures Encode("http") == "aHR0cA"
  {
    var htt: ByteString, p: ByteString := "htt", "p";
    GroupVector(htt, [26, 7, 17, 52], "aHR0");
    TailVector(p[0]);
    EncodesInThrees(htt + p);
    assert (htt + p)[..3] == htt && (htt + p)[3..] == p && p == [p[0]];
    assert htt + p == "http" && "aHR0" + "cA" == "aHR0cA";
  }

  lemma TailVector(c: Byte)
    requires c == 'p'
    ensures Encode([c]) == "cA"
  {
    SpelledOut([28, 0], "cA");
    assert Sextets([c]) == [28, 0];
  }

  lemma GroupVector(b: ByteString, q: seq<Sextet>, s: string)
    requires |b| == 3 && Group(b[0] as int, b[1] as int, b[2] as int) == q
    requires |s| == |q| && forall i :: 0 <= i < |q| ==> Digit(q[i]) == s[i]
    ensures Encode(b) == s
  {
    assert b[3..] == [] && q + [] == q;
    SpelledOut(q, s);
  }
}
