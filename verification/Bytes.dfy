/** Bytes, machine words and exclusive-or, shared by every component.  A machine
    word is the natural number its bytes denote in little-endian order. */
module Bytes {
  type Byte = x: int | 0 <= x < 0x100
  type U32 = x: int | 0 <= x < 0x1_0000_0000

  const TWO32: nat := 0x1_0000_0000
  const TWO64: nat := 0x1_0000_0000_0000_0000

  datatype Option<+T> = None | Some(value: T)

  function Min(a: int, b: int): int { if a < b then a else b }

  /** Counting on after a 32-bit wrap. */
  lemma ModuloAdd(x: nat, y: nat)
    ensures (x % TWO32 + y) % TWO32 == (x + y) % TWO32
  {}

  function Zeros(n: nat): (z: seq<Byte>)
    ensures |z| == n && forall k :: 0 <= k < n ==> z[k] == 0
  {
    seq(n, _ => 0)
  }

  /** The value a memcpy of these bytes into an unsigned integer produces. */
  function LittleEndian(s: seq<Byte>): nat {
    if s == [] then 0 else s[0] + 256 * LittleEndian(s[1..])
  }

  lemma {:induction false} LittleEndianInjective(a: seq<Byte>, b: seq<Byte>)
    requires |a| == |b|
    ensures LittleEndian(a) == LittleEndian(b) <==> a == b
  {
    if a == [] {
    } else {
      LittleEndianInjective(a[1..], b[1..]);
      assert a == [a[0]] + a[1..] && b == [b[0]] + b[1..];
    }
  }

  /** Bitwise exclusive-or of two naturals. */
  function Xor(a: nat, b: nat): nat {
    if a == 0 && b == 0 then 0
    else 2 * Xor(a / 2, b / 2) + if a % 2 == b % 2 then 0 else 1
  }

  lemma XorHalf(a: nat, b: nat)
    ensures Xor(a, b) / 2 == Xor(a / 2, b / 2)
    ensures Xor(a, b) % 2 == 0 <==> a % 2 == b % 2
  {}

  lemma {:induction false} XorQuarter(a: nat, b: nat)
    ensures Xor(a, b) / 4 == Xor(a / 4, b / 4)
    ensures Xor(a, b) % 4 == 0 <==> a % 4 == b % 4
  {
    XorHalf(a, b);
    XorHalf(a / 2, b / 2);
    assert a / 2 / 2 == a / 4 && b / 2 / 2 == b / 4;
  }

  lemma {:induction false} XorNibble(a: nat, b: nat)
    ensures Xor(a, b) / 16 == Xor(a / 16, b / 16)
    ensures Xor(a, b) % 16 == 0 <==> a % 16 == b % 16
  {
    XorQuarter(a, b);
    XorQuarter(a / 4, b / 4);
    assert a / 4 / 4 == a / 16 && b / 4 / 4 == b / 16;
  }

  lemma {:induction false} XorByte(a: nat, b: nat)
    ensures Xor(a, b) / 256 == Xor(a / 256, b / 256)
    ensures Xor(a, b) % 256 == 0 <==> a % 256 == b % 256
  {
    XorNibble(a, b);
    XorNibble(a / 16, b / 16);
    assert a / 16 / 16 == a / 256 && b / 16 / 16 == b / 256;
  }

  lemma {:induction false} XorZero(a: nat, b: nat)
    ensures Xor(a, b) == 0 <==> a == b
    decreases a + b
  {
    if a == 0 && b == 0 {
    } else {
      XorHalf(a, b);
      XorZero(a / 2, b / 2);
    }
  }

  lemma {:induction false} XorNothing(m: nat)
    ensures Xor(m, 0) == m
  {
    if m == 0 {
    } else {
      XorNothing(m / 2);
    }
  }

  lemma {:induction false} XorOne(m: nat)
    ensures Xor(m, 1) == if m % 2 == 0 then m + 1 else m - 1
  {
    XorNothing(m / 2);
  }

  function Pow2(k: nat): (r: nat)
    ensures r >= 1
  {
    if k == 0 then 1 else 2 * Pow2(k - 1)
  }

  /** Number of trailing zero bits (the compiler's ctz). */
  function TrailingZeros(d: nat): nat
    requires d > 0
  {
    if d % 2 == 1 then 0 else 1 + TrailingZeros(d / 2)
  }

  lemma {:induction false} TrailingZerosNibble(d: nat)
    requires d > 0
    ensures d % 16 != 0 ==> TrailingZeros(d) < 4
    ensures d % 16 == 0 ==> TrailingZeros(d) == 4 + TrailingZeros(d / 16)
  {
    if d % 2 == 0 {
      assert TrailingZeros(d) == 1 + TrailingZeros(d / 2);
      if d % 4 == 0 {
        assert d / 2 / 2 == d / 4 && TrailingZeros(d / 2) == 1 + TrailingZeros(d / 4);
        if d % 8 == 0 {
          assert d / 4 / 2 == d / 8 && TrailingZeros(d / 4) == 1 + TrailingZeros(d / 8);
          assert d / 8 / 2 == d / 16;
        }
      }
    }
  }

  lemma {:induction false} TrailingZerosByte(d: nat)
    requires d > 0
    ensures d % 256 != 0 ==> TrailingZeros(d) < 8
    ensures d % 256 == 0 ==> TrailingZeros(d) == 8 + TrailingZeros(d / 256)
  {
    var e, r := d / 16, d % 16;
    assert d == 16 * e + r && d / 256 == e / 16 && d % 256 == 16 * (e % 16) + r;
    TrailingZerosNibble(d);
    if r == 0 { TrailingZerosNibble(e); }
  }

  function DiffIndex(v: nat, w: nat): nat
    requires Xor(v, w) > 0
  {
    TrailingZeros(Xor(v, w)) / 8
  }

  lemma {:induction false} DiffIndexStep(v: nat, w: nat)
    requires v != w
    ensures Xor(v, w) > 0
    ensures v % 256 != w % 256 ==> DiffIndex(v, w) == 0
    ensures v % 256 == w % 256 ==> Xor(v / 256, w / 256) > 0 && DiffIndex(v, w) == 1 + DiffIndex(v / 256, w / 256)
  {
    XorByte(v, w);
    XorZero(v, w);
    XorZero(v / 256, w / 256);
    TrailingZerosByte(Xor(v, w));
  }

  /** Trailing zeros of the exclusive-or of two words, divided by eight, is the
      index of the first byte in which the words differ. */
  lemma {:induction false} FirstDifference(a: seq<Byte>, b: seq<Byte>)
    requires |a| == |b| && a != b
    ensures Xor(LittleEndian(a), LittleEndian(b)) > 0
    ensures var k := DiffIndex(LittleEndian(a), LittleEndian(b));
            k < |a| && a[..k] == b[..k] && a[k] != b[k]
  {
    var v, w := LittleEndian(a), LittleEndian(b);
    LittleEndianInjective(a, b);
    DiffIndexStep(v, w);
    assert v % 256 == a[0] && v / 256 == LittleEndian(a[1..]);
    assert w % 256 == b[0] && w / 256 == LittleEndian(b[1..]);
    if a[0] != b[0] {
    } else {
      assert a == [a[0]] + a[1..] && b == [b[0]] + b[1..];
      FirstDifference(a[1..], b[1..]);
      var k := DiffIndex(v, w);
      assert a[..k] == [a[0]] + a[1..][..k - 1];
      assert b[..k] == [b[0]] + b[1..][..k - 1];
    }
  }

  /** The portable loop the source falls back to when ctz is unavailable. */
  method FirstDiffByte(diff: nat) returns (index: nat)
    requires diff > 0
    ensures index == TrailingZeros(diff) / 8
  {
    index := 0;
    var d := diff;
    while d % 256 == 0
      invariant d > 0
      invariant TrailingZeros(diff) == 8 * index + TrailingZeros(d)
      decreases d
    {
      TrailingZerosByte(d);
      d, index := d / 256, index + 1;
    }
    TrailingZerosByte(d);
  }

  /** The bytes of ASCII text. */
  function Ascii(t: string): (s: seq<Byte>)
    requires forall k :: 0 <= k < |t| ==> t[k] < 128 as char
    ensures |s| == |t| && forall k :: 0 <= k < |s| ==> s[k] == t[k] as int
  {
    seq(|t|, k requires 0 <= k < |t| => t[k] as int)
  }

  /** The character of a hexadecimal digit, in lower case. */
  function HexDigit(n: nat): Byte
    requires n < 16
  {
    if n < 10 then 0x30 + n else 0x61 + (n - 10)
  }

  /** The value of a hexadecimal digit in either case, or -1. */
  function HexNibble(c: Byte): (n: int)
    ensures -1 <= n < 16
  {
    if 0x30 <= c <= 0x39 then c - 0x30
    else if 0x61 <= c <= 0x66 then c - 0x61 + 10
    else if 0x41 <= c <= 0x46 then c - 0x41 + 10
    else -1
  }

  /** Digits are the sixteen characters in order, read in either case, and no
      other byte is one. */
  lemma {:induction false} HexDigits(c: Byte)
    ensures forall n :: 0 <= n < 16 ==> HexDigit(n) == Ascii("0123456789abcdef")[n]
    ensures forall n :: 0 <= n < 16 ==>
      (HexNibble(c) == n <==> c == Ascii("0123456789abcdef")[n] || c == Ascii("0123456789ABCDEF")[n])
  {
    var lower, upper := Ascii("0123456789abcdef"), Ascii("0123456789ABCDEF");
    forall n | 0 <= n < 16 ensures HexNibble(c) == n <==> c == lower[n] || c == upper[n] {
      HexDigitsAt(c, n);
    }
    forall n | 0 <= n < 16 ensures HexDigit(n) == lower[n] { HexDigitsAt(c, n); }
  }

  lemma HexDigitsAt(c: Byte, n: nat)
    requires n < 16
    ensures HexDigit(n) == Ascii("0123456789abcdef")[n]
    ensures HexNibble(c) == n <==> c == Ascii("0123456789abcdef")[n] || c == Ascii("0123456789ABCDEF")[n]
  {
    var lower, upper := "0123456789abcdef", "0123456789ABCDEF";
    assert Ascii(lower)[n] == lower[n] as int && Ascii(upper)[n] == upper[n] as int;
  }

  /** The bytes `t` stand in `c` at position `i`. */
  ghost predicate At(c: seq<Byte>, i: nat, t: seq<Byte>) {
    i + |t| <= |c| && forall k {:trigger t[k]} :: 0 <= k < |t| ==> c[i + k] == t[k]
  }

  lemma {:induction false} AtSplit(c: seq<Byte>, i: nat, a: seq<Byte>, b: seq<Byte>)
    requires At(c, i, a + b)
    ensures At(c, i, a) && At(c, i + |a|, b)
  {
    forall k | 0 <= k < |a| ensures c[i + k] == a[k] { assert (a + b)[k] == a[k]; }
    forall k | 0 <= k < |b| ensures c[i + |a| + k] == b[k] { assert (a + b)[|a| + k] == b[k]; }
  }

  lemma AtSlice(c: seq<Byte>, i: nat, t: seq<Byte>)
    requires At(c, i, t)
    ensures c[i..i + |t|] == t
  {}

  lemma Associative<T>(a: seq<T>, b: seq<T>, c: seq<T>)
    ensures (a + b) + c == a + (b + c)
  {}

  function Flatten(parts: seq<seq<Byte>>): seq<Byte> {
    if parts == [] then [] else parts[0] + Flatten(parts[1..])
  }

  lemma {:induction false} FlattenSnoc(parts: seq<seq<Byte>>, p: seq<Byte>)
    ensures Flatten(parts + [p]) == Flatten(parts) + p
  {
    if parts == [] {
      assert parts + [p] == [p] && Flatten([p][1..]) == [];
    } else {
      assert (parts + [p])[1..] == parts[1..] + [p];
      FlattenSnoc(parts[1..], p);
    }
  }
}
