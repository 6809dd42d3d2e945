/** A recursive-descent reading of RFC 8259, sections 2 to 7, over bytes.
    Integers are those of the signed 64-bit range; a number with a fraction or
    an exponent is kept as its text, as its value is the C library's. */
module JsonGrammar {
  import opened Bytes

  datatype Json =
    | Null
    | Bool(b: bool)
    | Int(i: int)
    | Real(text: seq<Byte>)
    | Str(s: seq<Byte>)
    | Arr(items: seq<Json>)
    | Obj(pairs: seq<Pair>)
  datatype Pair = Pair(key: seq<Byte>, value: Json)

  const QUOTE: Byte := 0x22
  const BACKSLASH: Byte := 0x5C
  const COMMA: Byte := 0x2C
  const COLON: Byte := 0x3A
  const MINUS: Byte := 0x2D
  const ZERO: Byte := 0x30
  const NINE: Byte := 0x39
  const LBRACKET: Byte := 0x5B
  const RBRACKET: Byte := 0x5D
  const LBRACE: Byte := 0x7B
  const RBRACE: Byte := 0x7D
  const NULL_TEXT: seq<Byte> := [0x6E, 0x75, 0x6C, 0x6C]
  const TRUE_TEXT: seq<Byte> := [0x74, 0x72, 0x75, 0x65]
  const FALSE_TEXT: seq<Byte> := [0x66, 0x61, 0x6C, 0x73, 0x65]

  /** A production's value and the position after it. */
  type Parsed<T> = Option<(T, nat)>

  // ------------------------------------------------------- section 2: spacing

  predicate IsSpace(c: Byte) { c == 0x20 || c == 0x0A || c == 0x0D || c == 0x09 }

  function SkipSpace(s: seq<Byte>, i: nat): (r: nat)
    requires i <= |s|
    ensures i <= r <= |s| && (r < |s| ==> !IsSpace(s[r]))
    decreases |s| - i
  {
    if i < |s| && IsSpace(s[i]) then SkipSpace(s, i + 1) else i
  }

  predicate Looks(s: seq<Byte>, i: nat, c: Byte) { i < |s| && s[i] == c }

  predicate LiteralAt(s: seq<Byte>, i: nat, t: seq<Byte>) { i + |t| <= |s| && s[i..i + |t|] == t }

  // ------------------------------------------------------- section 7: strings

  function Hex4(s: seq<Byte>, i: nat): (r: Option<nat>)
    ensures r.Some? ==> r.value < 0x1_0000 && i + 4 <= |s|
  {
    if i + 4 > |s| || HexNibble(s[i]) < 0 || HexNibble(s[i + 1]) < 0 || HexNibble(s[i + 2]) < 0
      || HexNibble(s[i + 3]) < 0
    then None
    else Some(0x1000 * HexNibble(s[i]) + 0x100 * HexNibble(s[i + 1]) + 0x10 * HexNibble(s[i + 2]) + HexNibble(s[i + 3]))
  }

  function Utf8(cp: nat): (r: seq<Byte>)
    requires cp <= 0x10_FFFF
    ensures |r| == if cp < 0x80 then 1 else if cp < 0x800 then 2 else if cp < 0x1_0000 then 3 else 4
  {
    if cp < 0x80 then [cp]
    else if cp < 0x800 then [0xC0 + cp / 0x40, 0x80 + cp % 0x40]
    else if cp < 0x1_0000 then [0xE0 + cp / 0x1000, 0x80 + cp / 0x40 % 0x40, 0x80 + cp % 0x40]
    else [0xF0 + cp / 0x4_0000, 0x80 + cp / 0x1000 % 0x40, 0x80 + cp / 0x40 % 0x40, 0x80 + cp % 0x40]
  }

  predicate HighSurrogate(u: nat) { 0xD800 <= u <= 0xDBFF }
  predicate LowSurrogate(u: nat) { 0xDC00 <= u <= 0xDFFF }

  /** The two-character escapes. */
  function ShortEscape(c: Byte): Option<Byte> {
    if c == QUOTE || c == BACKSLASH || c == 0x2F then Some(c)
    else if c == 0x62 then Some(0x08)
    else if c == 0x66 then Some(0x0C)
    else if c == 0x6E then Some(0x0A)
    else if c == 0x72 then Some(0x0D)
    else if c == 0x74 then Some(0x09)
    else None
  }

  /** The code point of `\uXXXX`, `i` being the first digit; a high surrogate
      needs its low half right behind it, a lone low one is rejected. */
  function UnicodeEscape(s: seq<Byte>, i: nat): (r: Parsed<nat>)
    ensures r.Some? ==> i < r.value.1 <= |s| && r.value.0 <= 0x10_FFFF
  {
    match Hex4(s, i)
    case None => None
    case Some(hi) =>
      if HighSurrogate(hi) then
        if !Looks(s, i + 4, BACKSLASH) || !Looks(s, i + 5, 0x75) then None
        else match Hex4(s, i + 6)
          case None => None
          case Some(lo) =>
            if LowSurrogate(lo) then Some((0x1_0000 + 0x400 * (hi - 0xD800) + (lo - 0xDC00), i + 10)) else None
      else if LowSurrogate(hi) then None
      else Some((hi, i + 4))
  }

  /** One character of a string: its bytes and the position after it. */
  function CharAt(s: seq<Byte>, i: nat): (r: Parsed<seq<Byte>>)
    requires i < |s| && s[i] != QUOTE
    ensures r.Some? ==> i < r.value.1 <= |s| && |r.value.0| >= 1
  {
    if s[i] < 0x20 then None
    else if s[i] != BACKSLASH then Some(([s[i]], i + 1))
    else if i + 1 >= |s| then None
    else if s[i + 1] == 0x75 then
      match UnicodeEscape(s, i + 2)
      case None => None
      case Some((cp, j)) => Some((Utf8(cp), j))
    else
      match ShortEscape(s[i + 1])
      case None => None
      case Some(b) => Some(([b], i + 2))
  }

  function Lift<T>(prefix: seq<T>, r: Parsed<seq<T>>): Parsed<seq<T>> {
    match r
    case None => None
    case Some((t, j)) => Some((prefix + t, j))
  }

  /** The characters up to the closing quote, which is consumed. */
  function StringBody(s: seq<Byte>, i: nat): (r: Parsed<seq<Byte>>)
    requires i <= |s|
    ensures r.Some? ==> i < r.value.1 <= |s|
    decreases |s| - i
  {
    if i == |s| then None
    else if s[i] == QUOTE then Some(([], i + 1))
    else match CharAt(s, i)
      case None => None
      case Some((b, j)) => Lift(b, StringBody(s, j))
  }

  // ------------------------------------------------------- section 6: numbers

  predicate IsDigit(c: Byte) { ZERO <= c <= NINE }

  function DigitsEnd(s: seq<Byte>, i: nat): (r: nat)
    requires i <= |s|
    ensures i <= r <= |s| && (r < |s| ==> !IsDigit(s[r]))
    ensures forall k :: i <= k < r ==> IsDigit(s[k])
    decreases |s| - i
  {
    if i < |s| && IsDigit(s[i]) then DigitsEnd(s, i + 1) else i
  }

  function DigitValue(c: int): int { c - ZERO }

  /** Decimal value, most significant digit first. */
  function Decimal(d: seq<Byte>): int {
    if d == [] then 0 else 10 * Decimal(d[..|d| - 1]) + DigitValue(d[|d| - 1])
  }

  predicate InInt64(v: int) { -0x8000_0000_0000_0000 <= v < 0x8000_0000_0000_0000 }

  predicate FractionOrExponent(s: seq<Byte>, i: nat) { Looks(s, i, 0x2E) || Looks(s, i, 0x65) || Looks(s, i, 0x45) }

  /** Past a fraction, if there is one. */
  function FractionEnd(s: seq<Byte>, i: nat): (r: Option<nat>)
    requires i <= |s|
    ensures r.Some? ==> i <= r.value <= |s|
  {
    if !Looks(s, i, 0x2E) then Some(i)
    else
      var e := DigitsEnd(s, i + 1);
      if e == i + 1 then None else Some(e)
  }

  /** Past an exponent, if there is one. */
  function ExponentEnd(s: seq<Byte>, i: nat): (r: Option<nat>)
    requires i <= |s|
    ensures r.Some? ==> i <= r.value <= |s|
  {
    if !Looks(s, i, 0x65) && !Looks(s, i, 0x45) then Some(i)
    else
      var p := if Looks(s, i + 1, 0x2B) || Looks(s, i + 1, MINUS) then i + 2 else i + 1;
      var e := DigitsEnd(s, p);
      if e == p then None else Some(e)
  }

  function NumberEnd(s: seq<Byte>, i: nat): (r: Option<nat>)
    requires i <= |s|
    ensures r.Some? ==> i <= r.value <= |s|
  {
    match FractionEnd(s, i) case None => None case Some(f) => ExponentEnd(s, f)
  }

  function Number(s: seq<Byte>, i: nat): (r: Parsed<Json>)
    requires i < |s|
    ensures r.Some? ==> i < r.value.1 <= |s|
  {
    var p := if s[i] == MINUS then i + 1 else i;
    var e := DigitsEnd(s, p);
    if e == p || (s[p] == ZERO && e > p + 1) then None
    else match NumberEnd(s, e)
      case None => None
      case Some(x) =>
        if FractionOrExponent(s, e) then Some((Real(s[i..x]), x))
        else
          var v: int := if s[i] == MINUS then -Decimal(s[p..e]) else Decimal(s[p..e]);
          if InInt64(v) then Some((Int(v), e)) else None
  }

  // ------------------------------------- sections 3 to 5: values, objects, arrays

  /** Literal names, strings and numbers. */
  function Scalar(s: seq<Byte>, p: nat): (r: Parsed<Json>)
    requires p < |s|
    ensures r.Some? ==> p < r.value.1 <= |s|
  {
    if LiteralAt(s, p, NULL_TEXT) then Some((Null, p + 4))
    else if LiteralAt(s, p, TRUE_TEXT) then Some((Bool(true), p + 4))
    else if LiteralAt(s, p, FALSE_TEXT) then Some((Bool(false), p + 5))
    else if s[p] == QUOTE then
      match StringBody(s, p + 1) case None => None case Some((t, j)) => Some((Str(t), j))
    else if s[p] == MINUS || IsDigit(s[p]) then
      Number(s, p)
    else None
  }

  function Value(s: seq<Byte>, i: nat): (r: Parsed<Json>)
    requires i <= |s|
    ensures r.Some? ==> i < r.value.1 <= |s|
    decreases |s| - i, 3
  {
    var p := SkipSpace(s, i);
    if p == |s| then None
    else if s[p] == LBRACKET then ArrayBody(s, SkipSpace(s, p + 1))
    else if s[p] == LBRACE then ObjectBody(s, SkipSpace(s, p + 1))
    else Scalar(s, p)
  }

  function AsArray(items: seq<Json>, r: Parsed<seq<Json>>): Parsed<Json> {
    match r case None => None case Some((t, j)) => Some((Arr(items + t), j))
  }

  function AsObject(pairs: seq<Pair>, r: Parsed<seq<Pair>>): Parsed<Json> {
    match r case None => None case Some((t, j)) => Some((Obj(pairs + t), j))
  }

  function ArrayBody(s: seq<Byte>, q: nat): (r: Parsed<Json>)
    requires q <= |s|
    ensures r.Some? ==> q < r.value.1 <= |s|
    decreases |s| - q, 5
  {
    if Looks(s, q, RBRACKET) then Some((Arr([]), q + 1)) else AsArray([], Elements(s, q))
  }

  function ObjectBody(s: seq<Byte>, q: nat): (r: Parsed<Json>)
    requires q <= |s|
    ensures r.Some? ==> q < r.value.1 <= |s|
    decreases |s| - q, 5
  {
    if Looks(s, q, RBRACE) then Some((Obj([]), q + 1)) else AsObject([], Members(s, q))
  }

  function Elements(s: seq<Byte>, i: nat): (r: Parsed<seq<Json>>)
    requires i <= |s|
    ensures r.Some? ==> i < r.value.1 <= |s|
    decreases |s| - i, 4
  {
    match Value(s, i)
    case None => None
    case Some((v, j)) => Lift([v], MoreElements(s, j))
  }

  function MoreElements(s: seq<Byte>, i: nat): (r: Parsed<seq<Json>>)
    requires i <= |s|
    ensures r.Some? ==> i < r.value.1 <= |s|
    decreases |s| - i, 2
  {
    var p := SkipSpace(s, i);
    if Looks(s, p, RBRACKET) then Some(([], p + 1))
    else if Looks(s, p, COMMA) then Elements(s, p + 1)
    else None
  }

  function Members(s: seq<Byte>, i: nat): (r: Parsed<seq<Pair>>)
    requires i <= |s|
    ensures r.Some? ==> i < r.value.1 <= |s|
    decreases |s| - i, 4
  {
    var p := SkipSpace(s, i);
    if !Looks(s, p, QUOTE) then None
    else match StringBody(s, p + 1)
      case None => None
      case Some((key, j)) => MemberValue(s, j, key)
  }

  function MemberValue(s: seq<Byte>, i: nat, key: seq<Byte>): (r: Parsed<seq<Pair>>)
    requires i <= |s|
    ensures r.Some? ==> i < r.value.1 <= |s|
    decreases |s| - i, 2
  {
    var p := SkipSpace(s, i);
    if !Looks(s, p, COLON) then None
    else match Value(s, p + 1)
      case None => None
      case Some((v, j)) => Lift([Pair(key, v)], MoreMembers(s, j))
  }

  function MoreMembers(s: seq<Byte>, i: nat): (r: Parsed<seq<Pair>>)
    requires i <= |s|
    ensures r.Some? ==> i < r.value.1 <= |s|
    decreases |s| - i, 2
  {
    var p := SkipSpace(s, i);
    if Looks(s, p, RBRACE) then Some(([], p + 1))
    else if Looks(s, p, COMMA) then Members(s, p + 1)
    else None
  }

  /** A whole text: one value with nothing but space around it. */
  function Document(s: seq<Byte>): Option<Json> {
    match Value(s, 0)
    case None => None
    case Some((v, j)) => if SkipSpace(s, j) == |s| then Some(v) else None
  }

  // ------------------------------------------------------------------- limits

  /** The limits of a parser; `finite` tells which numbers with a fraction or an
      exponent the C library reads as a finite double. */
  datatype Limits = Limits(maxDepth: nat, maxString: nat, maxNodes: nat, maxArray: nat, finite: seq<Byte> -> bool)

  /** Capacity of an array or object of `n` entries grown by doubling from
      eight: nothing when empty, else the least eight times a power of two that
      holds them. */
  function Capacity(n: nat): (c: nat) { if n == 0 then 0 else Doubled(n) }

  function Doubled(n: nat): (c: nat)
    ensures c >= n && c >= 8
  {
    if n <= 8 then 8 else 2 * Doubled((n + 1) / 2)
  }

  function One(b: bool): nat { if b then 1 else 0 }

  /** Values in a tree, each of which takes one node of the arena. */
  function Nodes(v: Json): (n: nat)
    ensures n >= 1
    decreases v, 1
  {
    match v
    case Arr(items) => 1 + ItemNodes(items)
    case Obj(pairs) => 1 + PairNodes(pairs)
    case _ => 1
  }

  function ItemNodes(items: seq<Json>): nat
    decreases items, 0
  {
    if items == [] then 0 else ItemNodes(items[..|items| - 1]) + Nodes(items[|items| - 1])
  }

  function PairNodes(pairs: seq<Pair>): nat
    decreases pairs, 0
  {
    if pairs == [] then 0 else PairNodes(pairs[..|pairs| - 1]) + Nodes(pairs[|pairs| - 1].value)
  }

  predicate LongString(t: seq<Byte>, lim: Limits) { |t| > lim.maxString }
  predicate LongArray(n: nat, lim: Limits) { Capacity(n) > lim.maxArray }

  /** Limits a tree breaks where `depth` more containers may be nested: strings
      and arrays that are too long, numbers that are too large, containers that
      are too deep. */
  function Excess(v: Json, lim: Limits, depth: int): nat
    decreases v, 1
  {
    match v
    case Str(t) => One(LongString(t, lim))
    case Real(t) => One(!lim.finite(t))
    case Arr(items) => One(depth <= 0) + One(LongArray(|items|, lim)) + ItemExcess(items, lim, depth - 1)
    case Obj(pairs) => One(depth <= 0) + PairExcess(pairs, lim, depth - 1)
    case _ => 0
  }

  function ItemExcess(items: seq<Json>, lim: Limits, depth: int): nat
    decreases items, 0
  {
    if items == [] then 0 else ItemExcess(items[..|items| - 1], lim, depth) + Excess(items[|items| - 1], lim, depth)
  }

  function PairExcess(pairs: seq<Pair>, lim: Limits, depth: int): nat
    decreases pairs, 0
  {
    if pairs == [] then 0
    else PairExcess(pairs[..|pairs| - 1], lim, depth)
         + One(LongString(pairs[|pairs| - 1].key, lim)) + Excess(pairs[|pairs| - 1].value, lim, depth)
  }

  /** Within every limit, `used` nodes of the arena being taken already; one
      frame of the stack is needed beside those of the containers. */
  predicate Fits(v: Json, lim: Limits, used: nat) {
    Excess(v, lim, lim.maxDepth - 1) == 0 && used + Nodes(v) <= lim.maxNodes
  }

  /** The tree a parser with these limits must build, if any. */
  function Accepted(s: seq<Byte>, lim: Limits, used: nat): Option<Json> {
    match Document(s)
    case None => None
    case Some(v) => if Fits(v, lim, used) then Some(v) else None
  }
}
