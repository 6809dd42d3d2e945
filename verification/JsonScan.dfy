/** The parser's token readers: strings (`json__parse_string`) and integers
    (`json__parse_number`), against the grammar. */
module JsonScan {
  import opened Bytes
  import opened JsonGrammar

  datatype Error =
    | OutOfMemory | InvalidJson | UnexpectedEof | DepthExceeded | InvalidString
    | InvalidNumber | Overflow | NodeLimit

  datatype Result<+T> = Ok(value: T) | Err(error: Error)

  /** The arena: it hands out memory any number of times, then fails. */
  class Arena {
    var left: nat

    constructor (grants: nat)
      ensures left == grants
    {
      left := grants;
    }

    method Allocate() returns (ok: bool)
      modifies this
      ensures ok == (old(left) > 0)
      ensures left == if ok then old(left) - 1 else 0
    {
      ok := left > 0;
      if ok { left := left - 1; }
    }
  }

  method SkipSpaces(s: seq<Byte>, i: nat) returns (r: nat)
    requires i <= |s|
    ensures r == SkipSpace(s, i)
  {
    r := i;
    while r < |s|
      invariant i <= r <= |s| && SkipSpace(s, r) == SkipSpace(s, i)
    {
      if !IsSpace(s[r]) { break; }
      r := r + 1;
    }
  }

  // ---------------------------------------------------------------- strings

  lemma {:induction false} LiftLift<T>(a: seq<T>, b: seq<T>, r: Parsed<seq<T>>)
    ensures Lift(a, Lift(b, r)) == Lift(a + b, r)
  {
    if r.Some? { Associative(a, b, r.value.0); }
  }

  /** Everything up to `p` has been read as `seen`. */
  ghost predicate Seen(s: seq<Byte>, start: nat, p: nat, seen: seq<Byte>)
    requires start <= |s|
  {
    p <= |s| && StringBody(s, start) == Lift(seen, StringBody(s, p))
  }

  lemma {:induction false} SeenNothing(s: seq<Byte>, start: nat)
    requires start <= |s|
    ensures Seen(s, start, start, [])
  {
    var r := StringBody(s, start);
    if r.Some? { assert [] + r.value.0 == r.value.0; }
  }

  lemma {:induction false} SeenNext(s: seq<Byte>, start: nat, p: nat, seen: seq<Byte>)
    requires start <= |s| && Seen(s, start, p, seen) && p < |s| && s[p] != QUOTE
    ensures match CharAt(s, p)
            case None => StringBody(s, start) == None
            case Some((b, j)) => Seen(s, start, j, seen + b)
  {
    match CharAt(s, p)
    case None =>
    case Some((b, j)) => LiftLift(seen, b, StringBody(s, j));
  }

  method MeasureUnicode(s: seq<Byte>, i: nat) returns (ok: bool, len: nat, next: nat)
    requires i <= |s|
    ensures ok == UnicodeEscape(s, i).Some?
    ensures ok ==> next == UnicodeEscape(s, i).value.1 && len == |Utf8(UnicodeEscape(s, i).value.0)|
  {
    ok, len, next := false, 0, i;
    var hi := Hex4(s, next);
    if hi == None { return; }
    next := next + 4;
    if 0xD800 <= hi.value <= 0xDBFF {
      if next + 1 >= |s| || s[next] != BACKSLASH || s[next + 1] != 0x75 { return; }
      next := next + 2;
      var lo := Hex4(s, next);
      if lo == None { return; }
      next := next + 4;
      if lo.value < 0xDC00 || lo.value > 0xDFFF { return; }
      len := 4;
    } else if 0xDC00 <= hi.value <= 0xDFFF {
      return;
    } else {
      len := if hi.value < 0x80 then 1 else if hi.value < 0x800 then 2 else 3;
    }
    ok := true;
  }

  /** One character of the measuring pass. */
  method MeasureChar(s: seq<Byte>, i: nat) returns (error: Option<Error>, len: nat, next: nat)
    requires i < |s| && s[i] != QUOTE
    ensures error.None? <==> CharAt(s, i).Some?
    ensures error.Some? ==> error.value == InvalidString || error.value == UnexpectedEof
    ensures error.None? ==> next == CharAt(s, i).value.1 && len == |CharAt(s, i).value.0|
  {
    error, len, next := None, 0, i;
    if s[i] == BACKSLASH {
      next := i + 1;
      if next >= |s| { return Some(UnexpectedEof), len, next; }
      if s[next] == 0x75 {
        var ok;
        ok, len, next := MeasureUnicode(s, next + 1);
        if !ok { return Some(InvalidString), len, next; }
      } else if s[next] == QUOTE || s[next] == BACKSLASH || s[next] == 0x2F || s[next] == 0x62
             || s[next] == 0x66 || s[next] == 0x6E || s[next] == 0x72 || s[next] == 0x74 {
        len, next := 1, next + 1;
      } else {
        return Some(InvalidString), len, next;
      }
    } else if s[i] < 0x20 {
      return Some(InvalidString), len, next;
    } else {
      len, next := 1, i + 1;
    }
  }

  /** Pass one: the decoded length and the closing quote. */
  method Measure(s: seq<Byte>, start: nat, from: nat, ghost seen: seq<Byte>)
    returns (error: Option<Error>, len: nat, quote: nat)
    requires start <= |s| && Seen(s, start, from, seen)
    ensures error.None? <==> StringBody(s, start).Some?
    ensures error.Some? ==> error.value == InvalidString || error.value == UnexpectedEof
    ensures error.None? ==> StringBody(s, start).value.1 == quote + 1 && |StringBody(s, start).value.0| == |seen| + len
  {
    error, len, quote := None, 0, from;
    ghost var all := seen;
    while quote < |s|
      invariant error == None && quote <= |s| && Seen(s, start, quote, all) && |all| == |seen| + len
      decreases |s| - quote
    {
      if s[quote] == QUOTE { break; }
      SeenNext(s, start, quote, all);
      var n, next;
      error, n, next := MeasureChar(s, quote);
      if error.Some? { return; }
      all := all + CharAt(s, quote).value.0;
      len, quote := len + n, next;
    }
    if quote >= |s| { error := Some(UnexpectedEof); }
  }

  /** One character of the decoding pass, which checks nothing again. */
  method DecodeChar(s: seq<Byte>, i: nat) returns (b: seq<Byte>, next: nat)
    requires i < |s| && s[i] != QUOTE && CharAt(s, i).Some?
    ensures (b, next) == CharAt(s, i).value
  {
    next := i;
    if s[i] == BACKSLASH {
      next := i + 1;
      if s[next] == 0x75 {
        next := next + 1;
        var cp := Hex4(s, next).value;
        next := next + 4;
        if 0xD800 <= cp <= 0xDBFF {
          next := next + 2;
          var lo := Hex4(s, next).value;
          next := next + 4;
          cp := 0x1_0000 + (cp - 0xD800) * 0x400 + (lo - 0xDC00);
        }
        b := Utf8(cp);
      } else {
        b, next := [ShortEscape(s[next]).value], next + 1;
      }
    } else {
      b, next := [s[i]], i + 1;
    }
  }

  /** Pass two: every byte lands inside the measured buffer and fills it. */
  method DecodeInto(s: seq<Byte>, start: nat, buf: array<Byte>) returns (pos: nat)
    requires start <= |s| && StringBody(s, start).Some? && buf.Length == |StringBody(s, start).value.0|
    modifies buf
    ensures buf[..] == StringBody(s, start).value.0 && pos + 1 == StringBody(s, start).value.1 && Looks(s, pos, QUOTE)
  {
    pos := start;
    var w := 0;
    ghost var goal, seen: seq<Byte> := StringBody(s, start).value.0, [];
    SeenNothing(s, start);
    while pos < |s| && s[pos] != QUOTE
      invariant pos <= |s| && w == |seen| <= buf.Length && buf[..w] == seen && Seen(s, start, pos, seen)
      decreases |s| - pos
    {
      SeenNext(s, start, pos, seen);
      var b, next := DecodeChar(s, pos);
      seen := seen + b;
      assert seen <= goal;
      Store(buf, w, b);
      w, pos := w + |b|, next;
    }
    assert seen + [] == seen;
  }

  method Store(buf: array<Byte>, w: nat, b: seq<Byte>)
    requires w + |b| <= buf.Length
    modifies buf
    ensures buf[..w + |b|] == old(buf[..w]) + b
  {
    forall k | 0 <= k < |b| { buf[w + k] := b[k]; }
  }

  /** A string is read exactly when the grammar reads it within the length
      limit; only an arena with nothing left can interfere. */
  ghost predicate StringRead(r: Result<seq<Byte>>, next: nat, s: seq<Byte>, start: nat, maxLen: nat, left: nat)
    requires start <= |s|
  {
    match r
    case Ok(t) => StringBody(s, start) == Some((t, next)) && |t| <= maxLen
    case Err(e) => || (e == OutOfMemory && left == 0)
                   || ((e == InvalidString || e == UnexpectedEof) && StringBody(s, start) == None)
                   || (e == Overflow && StringBody(s, start).Some? && |StringBody(s, start).value.0| > maxLen)
  }

  /** A string, `start` being just past the opening quote, on the fast path
      without escapes or in two passes. */
  method ParseString(s: seq<Byte>, start: nat, maxLen: nat, arena: Arena) returns (r: Result<seq<Byte>>, next: nat)
    requires start <= |s|
    modifies arena
    ensures StringRead(r, next, s, start, maxLen, arena.left)
  {
    next := start;
    var scan, escaped := start, false;
    SeenNothing(s, start);
    assert s[start..start] == [];
    while scan < |s|
      invariant start <= scan <= |s| && Seen(s, start, scan, s[start..scan])
    {
      var c := s[scan];
      if c == QUOTE { break; }
      SeenNext(s, start, scan, s[start..scan]);
      if c == BACKSLASH { escaped := true; break; }
      if c < 0x20 { return Err(InvalidString), next; }
      assert s[start..scan] + [c] == s[start..scan + 1];
      scan := scan + 1;
    }
    if scan >= |s| { return Err(UnexpectedEof), next; }
    var outLen := scan - start;
    if !escaped {
      assert s[start..scan] + [] == s[start..scan];
      if outLen > maxLen { return Err(Overflow), next; }
      if outLen > 0 {
        var ok := arena.Allocate();
        if !ok { return Err(OutOfMemory), next; }
      }
      return Ok(s[start..scan]), scan + 1;
    }
    r, next := ParseEscaped(s, start, scan, maxLen, arena);
  }

  /** A string with an escape at `scan`: measured, then decoded. */
  method ParseEscaped(s: seq<Byte>, start: nat, scan: nat, maxLen: nat, arena: Arena)
    returns (r: Result<seq<Byte>>, next: nat)
    requires start <= scan <= |s| && Seen(s, start, scan, s[start..scan])
    modifies arena
    ensures StringRead(r, next, s, start, maxLen, arena.left)
  {
    next := start;
    var error, more, quote := Measure(s, start, scan, s[start..scan]);
    if error.Some? { return Err(error.value), next; }
    var outLen := scan - start + more;
    if outLen > maxLen { return Err(Overflow), next; }
    if outLen > 0 {
      var ok := arena.Allocate();
      if !ok { return Err(OutOfMemory), next; }
    }
    var buf := new Byte[outLen](_ => 0);
    var end := DecodeInto(s, start, buf);
    return Ok(buf[..]), end + 1;
  }

  // ---------------------------------------------------------------- integers

  const MAX_SIGNIFICANT := 19

  function Pow10(k: nat): (r: nat)
    ensures r >= 1
  {
    if k == 0 then 1 else 10 * Pow10(k - 1)
  }

  ghost predicate AllDigits(d: seq<Byte>) { forall k :: 0 <= k < |d| ==> IsDigit(d[k]) }

  lemma {:induction false} DigitsSlice(s: seq<Byte>, i: nat, e: nat)
    requires i < e <= |s| && forall k :: i <= k < e ==> IsDigit(s[k])
    ensures AllDigits(s[i..e]) && s[i..e][0] == s[i]
  {
    forall k | 0 <= k < e - i ensures IsDigit(s[i..e][k]) { assert s[i..e][k] == s[i + k]; }
  }

  /** The first of the digits weighs most. */
  lemma {:induction false} DecimalFront(d: seq<Byte>)
    requires d != []
    ensures Decimal(d) == (d[0] as int - 48) * Pow10(|d| - 1) + Decimal(d[1..])
    decreases |d|
  {
    var n := |d| - 1;
    if n == 0 {
      assert d[..0] == [] && d[1..] == [];
    } else {
      DecimalFront(d[..n]);
      assert d[1..][..n - 1] == d[..n][1..] && d[1..][n - 1] == d[n];
      TenFold(d[0] as int - 48, Pow10(n - 1));
    }
  }

  lemma TenFold(a: int, p: int)
    ensures 10 * (a * p) == a * (10 * p)
  {}

  /** `n` digits, the first not zero, denote a number from 10^(n-1) up to 10^n. */
  lemma {:induction false} DecimalRange(d: seq<Byte>)
    requires d != [] && d[0] != ZERO && AllDigits(d)
    ensures Pow10(|d| - 1) <= Decimal(d) < Pow10(|d|)
  {
    if |d| > 1 { DecimalRange(d[..|d| - 1]); } else { assert Decimal(d[..0]) == 0; }
  }

  lemma {:induction false} Pow10Monotone(a: nat, b: nat)
    requires a <= b
    ensures Pow10(a) <= Pow10(b)
  {
    if a == b {
    } else {
      Pow10Monotone(a, b - 1);
    }
  }

  lemma {:induction false} Pow10Values()
    ensures Pow10(19) == 10000000000000000000
  {
    assert Pow10(4) == 10000;
    assert Pow10(8) == 100000000;
    assert Pow10(12) == 1000000000000;
    assert Pow10(16) == 10000000000000000;
  }

  lemma {:induction false} DecimalNext(s: seq<Byte>, i: nat, e: nat)
    requires i <= e < |s|
    ensures Decimal(s[i..e + 1]) == 10 * Decimal(s[i..e]) + DigitValue(s[e])
  {
    var d := s[i..e + 1];
    assert d[..|d| - 1] == s[i..e] && d[|d| - 1] == s[e];
  }

  /** The digit loop: up to 19 significant digits are accumulated, more only
      clear the flag. */
  method ReadDigits(s: seq<Byte>, i: nat) returns (mantissa: nat, exact: bool, e: nat)
    requires i < |s| && IsDigit(s[i]) && s[i] != ZERO
    ensures e == DigitsEnd(s, i) && e > i
    ensures exact <==> e - i <= MAX_SIGNIFICANT
    ensures exact ==> mantissa == Decimal(s[i..e]) && mantissa < TWO64
  {
    mantissa, exact, e := 0, true, i;
    var significant := 0;
    assert s[i..i] == [];
    while e < |s| && IsDigit(s[e])
      invariant i <= e <= |s| && DigitsEnd(s, e) == DigitsEnd(s, i)
      invariant forall k :: i <= k < e ==> IsDigit(s[k])
      invariant exact <==> e - i <= MAX_SIGNIFICANT
      invariant significant == Min(e - i, MAX_SIGNIFICANT)
      invariant exact ==> mantissa == Decimal(s[i..e])
    {
      var d := s[e] - ZERO;
      if significant != 0 || d != 0 {
        if significant >= MAX_SIGNIFICANT {
          exact := false;
        } else {
          DecimalNext(s, i, e);
          mantissa, significant := mantissa * 10 + d, significant + 1;
        }
      }
      e := e + 1;
    }
    if exact {
      DigitsSlice(s, i, e);
      DecimalRange(s[i..e]);
      Pow10Monotone(e - i, 19);
      Pow10Values();
    }
  }

  method SkipDigits(s: seq<Byte>, i: nat) returns (e: nat)
    requires i <= |s|
    ensures e == DigitsEnd(s, i)
  {
    e := i;
    while e < |s| && IsDigit(s[e])
      invariant i <= e <= |s| && DigitsEnd(s, e) == DigitsEnd(s, i)
    {
      e := e + 1;
    }
  }

  /** The parts of a number behind its integer part. */
  method SkipFraction(s: seq<Byte>, i: nat) returns (r: Option<nat>)
    requires i <= |s|
    ensures r == NumberEnd(s, i)
  {
    var e := i;
    if e < |s| && s[e] == 0x2E {
      if e + 1 >= |s| || !IsDigit(s[e + 1]) { return None; }
      e := SkipDigits(s, e + 1);
    }
    if e < |s| && (s[e] == 0x65 || s[e] == 0x45) {
      e := e + 1;
      if e < |s| && (s[e] == 0x2B || s[e] == MINUS) { e := e + 1; }
      if e >= |s| || !IsDigit(s[e]) { return None; }
      e := SkipDigits(s, e);
    }
    return Some(e);
  }

  /** Converts a number with a fraction or an exponent, which takes memory if its
      text is long and the short cut fails.  The short cut yields only finite
      numbers. */
  method ConvertReal(text: seq<Byte>, finite: seq<Byte> -> bool, arena: Arena) returns (error: Option<Error>)
    modifies arena
    ensures error == None ==> finite(text)
    ensures error.Some? ==>
      if error.value == OutOfMemory then arena.left == 0 else error.value == InvalidNumber && !finite(text)
  {
    var short: bool := *;
    if short && finite(text) { return None; }
    if |text| >= 64 {
      var ok := arena.Allocate();
      if !ok { return Some(OutOfMemory); }
    }
    return if finite(text) then None else Some(InvalidNumber);
  }

  /** The integer part of a number, from its first digit on. */
  method ReadInteger(s: seq<Byte>, begin: nat) returns (ok: bool, mantissa: nat, exact: bool, e: nat)
    requires begin < |s|
    ensures ok <==> DigitsEnd(s, begin) != begin && !(s[begin] == ZERO && DigitsEnd(s, begin) > begin + 1)
    ensures ok ==> e == DigitsEnd(s, begin) && (exact ==> mantissa == Decimal(s[begin..e]))
    ensures ok && !exact ==> Decimal(s[begin..e]) > 0x8000_0000_0000_0000
  {
    ok, mantissa, exact, e := true, 0, true, begin;
    if s[begin] == ZERO {
      e := e + 1;
      if e < |s| && IsDigit(s[e]) { return false, 0, true, e; }
      assert s[begin..begin + 1] == [ZERO] && Decimal([ZERO]) == 0;
    } else if IsDigit(s[begin]) {
      mantissa, exact, e := ReadDigits(s, begin);
      TooManyDigits(s, begin, e);
    } else {
      return false, 0, true, e;
    }
  }

  /** A number is read exactly when the grammar reads one and, if it is no
      integer, the C library makes it a finite one; only the arena can
      interfere. */
  method ParseNumber(s: seq<Byte>, start: nat, finite: seq<Byte> -> bool, arena: Arena)
    returns (r: Result<Json>, next: nat)
    requires start < |s|
    modifies arena
    ensures match r
            case Ok(v) => Number(s, start) == Some((v, next)) && (v.Int? || (v.Real? && finite(v.text)))
            case Err(e) => if e == OutOfMemory then arena.left == 0
                           else match Number(s, start)
                             case None => e == UnexpectedEof || e == InvalidNumber || e == Overflow
                             case Some((v, _)) => e == InvalidNumber && v.Real? && !finite(v.text)
  {
    next := start;
    var negative := s[start] == MINUS;
    if negative { next := next + 1; }
    if next >= |s| { return Err(UnexpectedEof), next; }
    var begin := next;
    var ok, mantissa, exact, e := ReadInteger(s, begin);
    next := e;
    if !ok { return Err(InvalidNumber), next; }
    var end := SkipFraction(s, e);
    if end == None { return Err(InvalidNumber), next; }
    if end.value > e {
      next := end.value;
      var error := ConvertReal(s[start..next], finite, arena);
      if error.Some? { return Err(error.value), next; }
      return Ok(Real(s[start..next])), next;
    }
    var limit := if negative then 9223372036854775808 else 9223372036854775807;
    if !exact || mantissa > limit { return Err(Overflow), next; }
    var v: int := mantissa;
    if negative { v := -v; }
    return Ok(Int(v)), next;
  }

  lemma {:induction false} TooManyDigits(s: seq<Byte>, i: nat, e: nat)
    requires i < e <= |s| && forall k :: i <= k < e ==> IsDigit(s[k])
    ensures s[i] != ZERO && e - i > MAX_SIGNIFICANT ==> Decimal(s[i..e]) > 0x8000_0000_0000_0000
  {
    if s[i] != ZERO && e - i > MAX_SIGNIFICANT {
      DigitsSlice(s, i, e);
      DecimalRange(s[i..e]);
      Pow10Monotone(19, e - i - 1);
      Pow10Values();
    }
  }
}
