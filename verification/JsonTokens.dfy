/** How strings and numbers may be spelled (RFC 8259, sections 6 and 7), what the
    spellings mean, and that the grammar reads exactly these; UTF-8 by a reader
    of its own. */
module JsonTokens {
  import opened Bytes
  import opened JsonGrammar

  // -------------------------------------------------------------------- UTF-8

  predicate Tail(c: Byte) { 0x80 <= c <= 0xBF }

  predicate CodePoint(cp: int) { 0 <= cp <= 0x10_FFFF && !(0xD800 <= cp <= 0xDFFF) }

  /** The code point that these bytes are in UTF-8 (RFC 3629, section 3): the lead
      byte tells how many follow, each of these carries six bits, and no longer
      form than needed is taken. */
  function ReadUtf8(b: seq<Byte>): (cp: Option<nat>)
    ensures cp.Some? ==> CodePoint(cp.value)
  {
    if |b| == 1 && b[0] <= 0x7F then Some(b[0])
    else if |b| == 2 && 0xC2 <= b[0] <= 0xDF && Tail(b[1]) then
      var x: int, y: int := b[0], b[1];
      Some(64 * (x - 0xC0) + (y - 0x80))
    else if |b| == 3 && 0xE0 <= b[0] <= 0xEF && Tail(b[1]) && Tail(b[2]) then
      var x: int, y: int, z: int := b[0], b[1], b[2];
      var cp := 4096 * (x - 0xE0) + 64 * (y - 0x80) + (z - 0x80);
      if cp >= 0x800 && CodePoint(cp) then Some(cp) else None
    else if |b| == 4 && 0xF0 <= b[0] <= 0xF4 && Tail(b[1]) && Tail(b[2]) && Tail(b[3]) then
      var x: int, y: int, z: int, w: int := b[0], b[1], b[2], b[3];
      var cp := 262144 * (x - 0xF0) + 4096 * (y - 0x80) + 64 * (z - 0x80) + (w - 0x80);
      if cp >= 0x1_0000 && CodePoint(cp) then Some(cp) else None
    else None
  }

  /** What is written for a code point is read back, and nothing else is. */
  lemma {:induction false} Utf8Reads(cp: nat, b: seq<Byte>)
    requires CodePoint(cp)
    ensures ReadUtf8(b) == Some(cp) <==> b == Utf8(cp)
  {
    if cp < 0x80 {
    } else if cp < 0x800 {
      TwoBytes(cp, b);
    } else if cp < 0x1_0000 {
      ThreeBytes(cp, b);
    } else {
      FourBytes(cp, b);
    }
  }

  lemma SixBits(n: nat, r: nat)
    requires r < 64
    ensures (64 * n + r) / 64 == n && (64 * n + r) % 64 == r
  {}

  lemma {:induction false} TwoBytes(cp: nat, b: seq<Byte>)
    requires 0x80 <= cp < 0x800
    ensures ReadUtf8(b) == Some(cp) <==> b == [0xC0 + cp / 64, 0x80 + cp % 64]
  {
    if ReadUtf8(b) == Some(cp) {
      assert |b| == 2;
      var x: int, y: int := b[0], b[1];
      SixBits(x - 0xC0, y - 0x80);
    }
  }

  lemma {:induction false} ThreeBytes(cp: nat, b: seq<Byte>)
    requires CodePoint(cp) && 0x800 <= cp < 0x1_0000
    ensures ReadUtf8(b) == Some(cp) <==> b == [0xE0 + cp / 4096, 0x80 + cp / 64 % 64, 0x80 + cp % 64]
  {
    assert cp == 64 * (cp / 64) + cp % 64 && cp / 64 == 64 * (cp / 4096) + cp / 64 % 64;
    if ReadUtf8(b) == Some(cp) {
      assert |b| == 3;
      var x: int, y: int, z: int := b[0], b[1], b[2];
      SixBits(64 * (x - 0xE0) + (y - 0x80), z - 0x80);
      SixBits(x - 0xE0, y - 0x80);
    }
  }

  lemma {:induction false} FourBytes(cp: nat, b: seq<Byte>)
    requires 0x1_0000 <= cp <= 0x10_FFFF
    ensures ReadUtf8(b) == Some(cp) <==>
            b == [0xF0 + cp / 262144, 0x80 + cp / 4096 % 64, 0x80 + cp / 64 % 64, 0x80 + cp % 64]
  {
    assert cp == 64 * (cp / 64) + cp % 64 && cp / 64 == 64 * (cp / 4096) + cp / 64 % 64;
    assert cp / 4096 == 64 * (cp / 262144) + cp / 4096 % 64;
    if ReadUtf8(b) == Some(cp) {
      assert |b| == 4;
      var x: int, y: int, z: int, w: int := b[0], b[1], b[2], b[3];
      SixBits(4096 * (x - 0xF0) + 64 * (y - 0x80) + (z - 0x80), w - 0x80);
      SixBits(64 * (x - 0xF0) + (y - 0x80), z - 0x80);
      SixBits(x - 0xF0, y - 0x80);
    }
  }

  // ------------------------------------------------------------------ strings

  /** One character: a byte as it is, a letter for one behind a backslash, four
      digits, or a pair of such. */
  datatype Char = Raw(c: Byte) | Short(k: nat) | Unicode(d: seq<Byte>) | Surrogates(hi: seq<Byte>, lo: seq<Byte>)

  const LETTERS: string := "\"\\/bfnrt"
  const MEANINGS: seq<Byte> := [0x22, 0x5C, 0x2F, 0x08, 0x0C, 0x0A, 0x0D, 0x09]

  predicate IsQuad(d: seq<Byte>) { |d| == 4 && forall k :: 0 <= k < 4 ==> HexNibble(d[k]) >= 0 }

  function Quad(d: seq<Byte>): (n: nat)
    requires IsQuad(d)
    ensures n < 0x1_0000
  {
    HexNibble(d[3]) + 16 * HexNibble(d[2]) + 256 * HexNibble(d[1]) + 4096 * HexNibble(d[0])
  }

  predicate LegalChar(c: Char) {
    match c
    case Raw(c) => c >= 0x20 && c != 0x22 && c != 0x5C
    case Short(k) => k < 8
    case Unicode(d) => IsQuad(d) && CodePoint(Quad(d))
    case Surrogates(hi, lo) => IsQuad(hi) && IsQuad(lo) && 0xD800 <= Quad(hi) <= 0xDBFF && 0xDC00 <= Quad(lo) <= 0xDFFF
  }

  function SpellChar(c: Char): seq<Byte>
    requires LegalChar(c)
  {
    match c
    case Raw(c) => [c]
    case Short(k) => [0x5C, LETTERS[k] as int]
    case Unicode(d) => Ascii("\\u") + d
    case Surrogates(hi, lo) => Ascii("\\u") + hi + Ascii("\\u") + lo
  }

  /** The code point of a pair: ten bits of each half. */
  function Joint(hi: nat, lo: nat): nat { 0x1_0000 + 1024 * (hi % 1024) + lo % 1024 }

  function MeanChar(c: Char): seq<Byte>
    requires LegalChar(c)
  {
    match c
    case Raw(c) => [c]
    case Short(k) => [MEANINGS[k]]
    case Unicode(d) => Utf8(Quad(d))
    case Surrogates(hi, lo) => Utf8(Joint(Quad(hi), Quad(lo)))
  }

  ghost predicate LegalChars(cs: seq<Char>) { forall k :: 0 <= k < |cs| ==> LegalChar(cs[k]) }

  function SpellChars(cs: seq<Char>): seq<Byte>
    requires LegalChars(cs)
  {
    if cs == [] then [] else SpellChar(cs[0]) + SpellChars(cs[1..])
  }

  function MeanChars(cs: seq<Char>): seq<Byte>
    requires LegalChars(cs)
  {
    if cs == [] then [] else MeanChar(cs[0]) + MeanChars(cs[1..])
  }

  lemma {:induction false} QuadRead(s: seq<Byte>, i: nat, d: seq<Byte>)
    requires IsQuad(d) && At(s, i, d)
    ensures Hex4(s, i) == Some(Quad(d))
  {
    assert s[i] == d[0] && s[i + 1] == d[1] && s[i + 2] == d[2] && s[i + 3] == d[3];
  }

  /** A spelled character is read. */
  lemma {:induction false} CharRead(s: seq<Byte>, i: nat, c: Char)
    requires LegalChar(c) && At(s, i, SpellChar(c))
    ensures i < |s| && s[i] != QUOTE && CharAt(s, i) == Some((MeanChar(c), i + |SpellChar(c)|))
  {
    match c
    case Raw(_) => assert s[i] == SpellChar(c)[0];
    case Short(k) => ShortRead(s, i, k);
    case Unicode(d) =>
      assert SpellChar(c) == Ascii("\\u") + d + [];
      EscapeAt(s, i, d, []);
    case Surrogates(hi, lo) => PairRead(s, i, hi, lo);
  }

  lemma {:induction false} ShortRead(s: seq<Byte>, i: nat, k: nat)
    requires k < 8 && At(s, i, SpellChar(Short(k)))
    ensures i < |s| && s[i] != QUOTE && CharAt(s, i) == Some(([MEANINGS[k]], i + 2))
  {
    var t := SpellChar(Short(k));
    assert s[i] == t[0] == 0x5C && s[i + 1] == t[1] == LETTERS[k] as int;
  }

  lemma {:induction false} PairRead(s: seq<Byte>, i: nat, hi: seq<Byte>, lo: seq<Byte>)
    requires LegalChar(Surrogates(hi, lo)) && At(s, i, Ascii("\\u") + hi + Ascii("\\u") + lo)
    ensures i < |s| && s[i] != QUOTE && CharAt(s, i) == Some((MeanChar(Surrogates(hi, lo)), i + 12))
  {
    var u := Ascii("\\u");
    Associative(u + hi, u, lo);
    EscapeAt(s, i, hi, u + lo);
    assert u + lo == u + lo + [];
    EscapeAt(s, i + 6, lo, []);
    JointIs(Quad(hi), Quad(lo));
  }

  lemma JointIs(hi: nat, lo: nat)
    requires HighSurrogate(hi) && LowSurrogate(lo)
    ensures Joint(hi, lo) == 0x1_0000 + 0x400 * (hi - 0xD800) + (lo - 0xDC00)
  {}

  lemma {:induction false} EscapeAt(s: seq<Byte>, i: nat, d: seq<Byte>, rest: seq<Byte>)
    requires IsQuad(d) && At(s, i, Ascii("\\u") + d + rest)
    ensures Looks(s, i, BACKSLASH) && Looks(s, i + 1, 0x75) && Hex4(s, i + 2) == Some(Quad(d)) && At(s, i + 6, rest)
  {
    AtSplit(s, i, Ascii("\\u") + d, rest);
    AtSplit(s, i, Ascii("\\u"), d);
    assert s[i] == Ascii("\\u")[0] && s[i + 1] == Ascii("\\u")[1];
    QuadRead(s, i + 2, d);
  }

  /** A character that is read has a spelling. */
  lemma {:induction false} CharSpelled(s: seq<Byte>, i: nat) returns (c: Char)
    requires i < |s| && s[i] != QUOTE && CharAt(s, i).Some?
    ensures LegalChar(c) && CharAt(s, i).value == (MeanChar(c), i + |SpellChar(c)|)
    ensures s[i..CharAt(s, i).value.1] == SpellChar(c)
  {
    if s[i] != BACKSLASH {
      c := Raw(s[i]);
    } else if s[i + 1] == 0x75 {
      c := EscapeSpelled(s, i);
    } else {
      var k := LetterOf(s[i + 1]);
      c := Short(k);
    }
  }

  lemma {:induction false} EscapeSpelled(s: seq<Byte>, i: nat) returns (c: Char)
    requires i + 1 < |s| && s[i] == BACKSLASH && s[i + 1] == 0x75 && UnicodeEscape(s, i + 2).Some?
    ensures LegalChar(c) && MeanChar(c) == Utf8(UnicodeEscape(s, i + 2).value.0)
    ensures UnicodeEscape(s, i + 2).value.1 == i + |SpellChar(c)| && s[i..i + |SpellChar(c)|] == SpellChar(c)
  {
    var hi := QuadSpelled(s, i);
    if HighSurrogate(Quad(hi)) {
      var lo := QuadSpelled(s, i + 6);
      JointIs(Quad(hi), Quad(lo));
      c := Surrogates(hi, lo);
      assert s[i..i + 12] == s[i..i + 6] + s[i + 6..i + 12];
      Associative(Ascii("\\u") + hi, Ascii("\\u"), lo);
    } else {
      c := Unicode(hi);
    }
  }

  lemma {:induction false} QuadSpelled(s: seq<Byte>, i: nat) returns (d: seq<Byte>)
    requires i + 6 <= |s| && s[i] == BACKSLASH && s[i + 1] == 0x75 && Hex4(s, i + 2).Some?
    ensures IsQuad(d) && Quad(d) == Hex4(s, i + 2).value && s[i..i + 6] == Ascii("\\u") + d
  {
    d := s[i + 2..i + 6];
  }

  lemma LetterOf(c: Byte) returns (k: nat)
    requires ShortEscape(c).Some?
    ensures k < 8 && LETTERS[k] as int == c && ShortEscape(c) == Some(MEANINGS[k])
  {
    k := if c == 0x22 then 0 else if c == 0x5C then 1 else if c == 0x2F then 2 else if c == 0x62 then 3
         else if c == 0x66 then 4 else if c == 0x6E then 5 else if c == 0x72 then 6 else 7;
  }

  /** The rest of a string, up to its closing quote, is `t`. */
  ghost predicate BodyAt(s: seq<Byte>, i: nat, t: seq<Byte>, e: nat) { i <= |s| && StringBody(s, i) == Some((t, e)) }

  lemma {:induction false} CharsRead(s: seq<Byte>, i: nat, cs: seq<Char>, t: seq<Byte>, e: nat)
    requires LegalChars(cs) && At(s, i, SpellChars(cs) + [0x22]) && t == MeanChars(cs) && e == i + |SpellChars(cs)| + 1
    ensures BodyAt(s, i, t, e)
    decreases |cs|
  {
    if cs == [] {
      assert s[i] == (SpellChars(cs) + [0x22])[0];
    } else {
      var j := FirstRead(s, i, cs);
      CharsRead(s, j, cs[1..], MeanChars(cs[1..]), e);
      BodyStep(s, i, MeanChar(cs[0]), j, MeanChars(cs[1..]), t, e);
    }
  }

  lemma {:induction false} FirstRead(s: seq<Byte>, i: nat, cs: seq<Char>) returns (j: nat)
    requires cs != [] && LegalChars(cs) && At(s, i, SpellChars(cs) + [0x22])
    ensures i < |s| && s[i] != QUOTE && CharAt(s, i) == Some((MeanChar(cs[0]), j))
    ensures LegalChars(cs[1..]) && At(s, j, SpellChars(cs[1..]) + [0x22])
    ensures j + |SpellChars(cs[1..])| == i + |SpellChars(cs)|
  {
    var h, t := SpellChar(cs[0]), SpellChars(cs[1..]);
    Associative(h, t, [0x22]);
    AtSplit(s, i, h, t + [0x22]);
    CharRead(s, i, cs[0]);
    j := i + |h|;
  }

  lemma BodyStep(s: seq<Byte>, i: nat, b: seq<Byte>, j: nat, rest: seq<Byte>, t: seq<Byte>, e: nat)
    requires i < |s| && s[i] != QUOTE && CharAt(s, i) == Some((b, j)) && BodyAt(s, j, rest, e) && t == b + rest
    ensures BodyAt(s, i, t, e)
  {}

  lemma {:induction false} CharsSpelled(s: seq<Byte>, i: nat, t: seq<Byte>, e: nat) returns (cs: seq<Char>)
    requires BodyAt(s, i, t, e)
    ensures LegalChars(cs) && MeanChars(cs) == t && i < e <= |s| && s[i..e] == SpellChars(cs) + [0x22]
    decreases |s| - i
  {
    if s[i] == QUOTE {
      cs := [];
    } else {
      var c := CharSpelled(s, i);
      var j, more := BodyStepBack(s, i, t, e);
      var rest := CharsSpelled(s, j, more, e);
      cs := [c] + rest;
      assert cs[1..] == rest;
      OneMore(s, i, j, e, SpellChar(c), SpellChars(rest));
    }
  }

  lemma BodyStepBack(s: seq<Byte>, i: nat, t: seq<Byte>, e: nat) returns (j: nat, more: seq<Byte>)
    requires BodyAt(s, i, t, e) && i < |s| && s[i] != QUOTE
    ensures CharAt(s, i).Some? && CharAt(s, i).value.1 == j && BodyAt(s, j, more, e)
    ensures t == CharAt(s, i).value.0 + more
  {
    j := CharAt(s, i).value.1;
    more := StringBody(s, j).value.0;
  }

  lemma OneMore(s: seq<Byte>, i: nat, j: nat, e: nat, h: seq<Byte>, t: seq<Byte>)
    requires i <= j <= e <= |s| && s[i..j] == h && s[j..e] == t + [0x22]
    ensures s[i..e] == (h + t) + [0x22]
  {
    assert s[i..e] == s[i..j] + s[j..e];
  }

  /** Four digits behind a backslash and a `u` become the bytes that are that code
      point in UTF-8, and so do two halves; the whole text is read so. */
  lemma {:induction false} EscapeMeans(d: seq<Byte>)
    requires IsQuad(d) && CodePoint(Quad(d))
    ensures var r := Document(Ascii("\"\\u") + d + Ascii("\""));
            r.Some? && r.value.Str? && ReadUtf8(r.value.s) == Some(Quad(d))
  {
    var c := Unicode(d);
    assert Ascii("\"\\u") == [0x22] + Ascii("\\u");
    QuotedRead(Ascii("\"\\u") + d + Ascii("\""), c);
    assert MeanChar(c) == Utf8(Quad(d));
    Utf8Reads(Quad(d), MeanChar(c));
  }

  lemma {:induction false} PairMeans(hi: seq<Byte>, lo: seq<Byte>)
    requires IsQuad(hi) && IsQuad(lo) && 0xD800 <= Quad(hi) <= 0xDBFF && 0xDC00 <= Quad(lo) <= 0xDFFF
    ensures var r := Document(Ascii("\"\\u") + hi + Ascii("\\u") + lo + Ascii("\""));
            r.Some? && r.value.Str? && ReadUtf8(r.value.s) == Some(Joint(Quad(hi), Quad(lo)))
  {
    var c := Surrogates(hi, lo);
    assert Ascii("\"\\u") == [0x22] + Ascii("\\u");
    QuotedRead(Ascii("\"\\u") + hi + Ascii("\\u") + lo + Ascii("\""), c);
    Utf8Reads(Joint(Quad(hi), Quad(lo)), MeanChar(c));
  }

  lemma {:induction false} QuotedRead(s: seq<Byte>, c: Char)
    requires LegalChar(c) && s == [0x22] + SpellChar(c) + [0x22]
    ensures Document(s) == Some(Str(MeanChar(c)))
  {
    assert [c][1..] == [] && SpellChars([c]) == SpellChar(c) + [] && MeanChars([c]) == MeanChar(c) + [];
    assert At(s, 1, SpellChars([c]) + [0x22]);
    CharsRead(s, 1, [c], MeanChars([c]), |s|);
    assert MeanChar(c) + [] == MeanChar(c);
    StringRead(s, 0, MeanChar(c), |s|);
    WholeText(s, Str(MeanChar(c)), |s|);
  }

  lemma {:induction false} StringRead(s: seq<Byte>, i: nat, t: seq<Byte>, e: nat)
    requires Looks(s, i, QUOTE) && BodyAt(s, i + 1, t, e)
    ensures ValueAt(s, i, Str(t), e)
  {
    assert SkipSpace(s, i) == i;
    NoWord(s, i);
  }

  lemma {:induction false} NoWord(s: seq<Byte>, i: nat)
    requires i < |s| && s[i] != 0x6E && s[i] != 0x74 && s[i] != 0x66
    ensures !LiteralAt(s, i, NULL_TEXT) && !LiteralAt(s, i, TRUE_TEXT) && !LiteralAt(s, i, FALSE_TEXT)
  {
    assert NULL_TEXT[0] == 0x6E && TRUE_TEXT[0] == 0x74 && FALSE_TEXT[0] == 0x66;
    assert forall k :: i <= k <= |s| && k > i ==> s[i..k][0] == s[i];
  }

  ghost predicate ValueAt(s: seq<Byte>, i: nat, v: Json, e: nat) { i <= |s| && Value(s, i) == Some((v, e)) }

  lemma WholeText(s: seq<Byte>, v: Json, e: nat)
    requires ValueAt(s, 0, v, e) && SkipSpace(s, e) == |s|
    ensures Document(s) == Some(v)
  {}

  // ------------------------------------------------------------------ numbers

  predicate IsDigits(d: seq<Byte>) { forall k :: 0 <= k < |d| ==> 0x30 <= d[k] <= 0x39 }

  /** A mark `e` or `E`, a sign or none, digits. */
  datatype Exponent = Exponent(mark: Byte, sign: seq<Byte>, digits: seq<Byte>)

  datatype Numeral = Numeral(negative: bool, digits: seq<Byte>, fraction: seq<Byte>, exponent: Option<Exponent>)

  predicate IsInteger(n: Numeral) { n.fraction == [] && n.exponent.None? }

  function IntegerOf(n: Numeral): int { if n.negative then -Decimal(n.digits) else Decimal(n.digits) }

  predicate LegalExponent(x: Exponent) {
    && x.mark in Ascii("eE") && (x.sign == [] || x.sign == Ascii("+") || x.sign == Ascii("-"))
    && x.digits != [] && IsDigits(x.digits)
  }

  /** No zero leads other digits, and an integer is one of 64 bits. */
  predicate LegalNumeral(n: Numeral) {
    && n.digits != [] && IsDigits(n.digits) && (n.digits[0] == 0x30 ==> |n.digits| == 1)
    && IsDigits(n.fraction) && (n.exponent.Some? ==> LegalExponent(n.exponent.value))
    && (IsInteger(n) ==> InInt64(IntegerOf(n)))
  }

  function SpellExponent(x: Option<Exponent>): seq<Byte> {
    if x.None? then [] else [x.value.mark] + x.value.sign + x.value.digits
  }

  function SpellFraction(d: seq<Byte>): seq<Byte> { if d == [] then [] else Ascii(".") + d }

  function SpellNumeral(n: Numeral): seq<Byte> {
    (if n.negative then Ascii("-") else []) + n.digits + SpellFraction(n.fraction) + SpellExponent(n.exponent)
  }

  function MeanNumeral(n: Numeral): Json { if IsInteger(n) then Int(IntegerOf(n)) else Real(SpellNumeral(n)) }

  /** Not the middle of a number. */
  ghost predicate Ends(s: seq<Byte>, e: nat) {
    e <= |s| && (e < |s| ==> !IsDigit(s[e])) && !FractionOrExponent(s, e)
  }

  lemma {:induction false} DigitsEndAt(s: seq<Byte>, i: nat, d: seq<Byte>)
    requires At(s, i, d) && IsDigits(d) && (i + |d| < |s| ==> !IsDigit(s[i + |d|]))
    ensures DigitsEnd(s, i) == i + |d|
    decreases |d|
  {
    if d != [] {
      assert s[i] == d[0];
      AtSplit(s, i, [d[0]], d[1..]);
      assert d == [d[0]] + d[1..];
      DigitsEndAt(s, i + 1, d[1..]);
    }
  }

  lemma {:induction false} ExponentRead(s: seq<Byte>, i: nat, x: Option<Exponent>)
    requires x.Some? ==> LegalExponent(x.value)
    requires At(s, i, SpellExponent(x)) && Ends(s, i + |SpellExponent(x)|)
    ensures ExponentEnd(s, i) == Some(i + |SpellExponent(x)|)
    ensures x.Some? ==> i < |s| && !IsDigit(s[i]) && s[i] != 0x2E && FractionOrExponent(s, i)
  {
    if x.Some? {
      var Exponent(mark, sign, d) := x.value;
      AtSplit(s, i, [mark] + sign, d);
      AtSplit(s, i, [mark], sign);
      assert s[i] == [mark][0] && s[i + 1 + |sign|] == d[0];
      if sign != [] { assert s[i + 1] == sign[0]; }
      DigitsEndAt(s, i + 1 + |sign|, d);
    }
  }

  lemma {:induction false} FractionRead(s: seq<Byte>, i: nat, d: seq<Byte>, x: Option<Exponent>)
    requires IsDigits(d) && (x.Some? ==> LegalExponent(x.value))
    requires At(s, i, SpellFraction(d) + SpellExponent(x)) && Ends(s, i + |SpellFraction(d) + SpellExponent(x)|)
    ensures NumberEnd(s, i) == Some(i + |SpellFraction(d) + SpellExponent(x)|)
    ensures i < |s| ==> !IsDigit(s[i])
    ensures FractionOrExponent(s, i) <==> d != [] || x.Some?
  {
    var f := SpellFraction(d);
    AtSplit(s, i, f, SpellExponent(x));
    ExponentRead(s, i + |f|, x);
    if d != [] {
      AtSplit(s, i, Ascii("."), d);
      assert s[i] == Ascii(".")[0] == 0x2E;
      DigitsEndAt(s, i + 1, d);
    }
  }

  lemma {:induction false} NumeralRead(s: seq<Byte>, i: nat, n: Numeral, e: nat)
    requires LegalNumeral(n) && At(s, i, SpellNumeral(n)) && e == i + |SpellNumeral(n)| && Ends(s, e)
    ensures i < |s| && (s[i] == MINUS || IsDigit(s[i])) && Number(s, i) == Some((MeanNumeral(n), e))
  {
    var p, q := NumeralPlaces(s, i, n, e);
    NumberIs(s, i, p, q, e);
    AtSlice(s, i, SpellNumeral(n));
  }

  lemma {:induction false} NumeralPlaces(s: seq<Byte>, i: nat, n: Numeral, e: nat) returns (p: nat, q: nat)
    requires LegalNumeral(n) && At(s, i, SpellNumeral(n)) && e == i + |SpellNumeral(n)| && Ends(s, e)
    ensures i < |s| && (s[i] == MINUS <==> n.negative) && p == (if n.negative then i + 1 else i) && p < |s|
    ensures IsDigit(s[p]) && DigitsEnd(s, p) == q > p && (s[p] == ZERO ==> q == p + 1) && s[p..q] == n.digits
    ensures NumberEnd(s, q) == Some(e) && (FractionOrExponent(s, q) <==> !IsInteger(n))
  {
    p, q := NumeralLayout(s, i, n);
    FractionRead(s, q, n.fraction, n.exponent);
    DigitsEndAt(s, p, n.digits);
    AtSlice(s, p, n.digits);
  }

  lemma {:induction false} NumeralLayout(s: seq<Byte>, i: nat, n: Numeral) returns (p: nat, q: nat)
    requires LegalNumeral(n) && At(s, i, SpellNumeral(n))
    ensures p == (if n.negative then i + 1 else i) && q == p + |n.digits| && i < |s|
    ensures (s[i] == MINUS <==> n.negative) && At(s, p, n.digits) && s[p] == n.digits[0]
    ensures At(s, q, SpellFraction(n.fraction) + SpellExponent(n.exponent))
    ensures q + |SpellFraction(n.fraction) + SpellExponent(n.exponent)| == i + |SpellNumeral(n)|
  {
    var m, rest := if n.negative then Ascii("-") else [], SpellFraction(n.fraction) + SpellExponent(n.exponent);
    assert SpellNumeral(n) == m + (n.digits + rest);
    p := i + |m|;
    q := p + |n.digits|;
    AtSplit(s, i, m, n.digits + rest);
    AtSplit(s, p, n.digits, rest);
    assert s[p] == n.digits[0] && (n.negative ==> s[i] == m[0] == 0x2D);
  }

  /** A number by its places: digits from `p` to `q`, its end at `e`. */
  lemma NumberIs(s: seq<Byte>, i: nat, p: nat, q: nat, e: nat)
    requires i < |s| && p == (if s[i] == MINUS then i + 1 else i) && p < |s|
    requires DigitsEnd(s, p) == q > p && (s[p] == ZERO ==> q == p + 1) && NumberEnd(s, q) == Some(e)
    ensures FractionOrExponent(s, q) ==> Number(s, i) == Some((Real(s[i..e]), e))
    ensures !FractionOrExponent(s, q) ==>
      var v := if s[i] == MINUS then -Decimal(s[p..q]) else Decimal(s[p..q]);
      e == q && Number(s, i) == if InInt64(v) then Some((Int(v), q)) else None
  {}

  lemma {:induction false} DigitsSpelled(s: seq<Byte>, i: nat)
    requires i <= |s|
    ensures IsDigits(s[i..DigitsEnd(s, i)])
  {}

  lemma {:induction false} ExponentSpelled(s: seq<Byte>, i: nat, e: nat) returns (x: Option<Exponent>)
    requires i <= |s| && ExponentEnd(s, i) == Some(e)
    ensures (x.Some? ==> LegalExponent(x.value)) && s[i..e] == SpellExponent(x)
    ensures x.Some? <==> Looks(s, i, 0x65) || Looks(s, i, 0x45)
  {
    if !Looks(s, i, 0x65) && !Looks(s, i, 0x45) {
      x := None;
    } else {
      var p := if Looks(s, i + 1, 0x2B) || Looks(s, i + 1, MINUS) then i + 2 else i + 1;
      DigitsSpelled(s, p);
      x := Some(Exponent(s[i], s[i + 1..p], s[p..e]));
      assert s[i] in Ascii("eE") by { assert Ascii("eE") == [0x65, 0x45]; }
      assert s[i..e] == [s[i]] + s[i + 1..p] + s[p..e];
    }
  }

  lemma {:induction false} NumeralSpelled(s: seq<Byte>, i: nat) returns (n: Numeral)
    requires i < |s| && Number(s, i).Some?
    ensures LegalNumeral(n) && MeanNumeral(n) == Number(s, i).value.0
    ensures s[i..Number(s, i).value.1] == SpellNumeral(n)
  {
    var p := if s[i] == MINUS then i + 1 else i;
    var q := DigitsEnd(s, p);
    var e := NumberEnd(s, q).value;
    NumberIs(s, i, p, q, e);
    DigitsSpelled(s, p);
    var fraction, x := EndSpelled(s, q, e);
    n := Numeral(s[i] == MINUS, s[p..q], fraction, x);
    PartsSpelled(s, i, p, q, e, n);
  }

  lemma {:induction false} PartsSpelled(s: seq<Byte>, i: nat, p: nat, q: nat, e: nat, n: Numeral)
    requires i < |s| && p == (if n.negative then i + 1 else i) && p <= q <= e <= |s|
    requires (n.negative <==> s[i] == MINUS) && s[p..q] == n.digits
    requires s[q..e] == SpellFraction(n.fraction) + SpellExponent(n.exponent)
    ensures s[i..e] == SpellNumeral(n)
  {
    assert s[i..p] == if n.negative then Ascii("-") else [];
    assert s[i..e] == s[i..p] + s[p..q] + s[q..e];
    Associative(s[i..p] + s[p..q], SpellFraction(n.fraction), SpellExponent(n.exponent));
  }

  lemma {:induction false} EndSpelled(s: seq<Byte>, q: nat, e: nat) returns (fraction: seq<Byte>, x: Option<Exponent>)
    requires q <= |s| && NumberEnd(s, q) == Some(e)
    ensures IsDigits(fraction) && (x.Some? ==> LegalExponent(x.value))
    ensures q <= e <= |s| && s[q..e] == SpellFraction(fraction) + SpellExponent(x)
    ensures FractionOrExponent(s, q) <==> fraction != [] || x.Some?
  {
    var f := FractionEnd(s, q).value;
    x := ExponentSpelled(s, f, e);
    if f == q {
      fraction := [];
    } else {
      fraction := s[q + 1..f];
      DigitsSpelled(s, q + 1);
      assert s[q..f] == Ascii(".") + fraction;
    }
    assert s[q..e] == s[q..f] + s[f..e];
  }
}
