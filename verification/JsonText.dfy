/** The text `json_write` produces for a tree: one of its spellings, so that
    reading it gives the tree back. */
module JsonText {
  import opened Bytes
  import opened JsonGrammar
  import opened JsonTokens
  import opened JsonSyntax

  /** Write options; key sorting and ASCII-only output are not part of this. */
  datatype Options = Options(pretty: bool, indent: U32)

  // ------------------------------------------------------------------- text

  function EscapeByte(c: Byte): (r: seq<Byte>)
    ensures |r| >= 1
  {
    if c == QUOTE || c == BACKSLASH then [BACKSLASH, c]
    else if c == 0x0A then [BACKSLASH, 0x6E]
    else if c == 0x0D then [BACKSLASH, 0x72]
    else if c == 0x09 then [BACKSLASH, 0x74]
    else if c == 0x08 then [BACKSLASH, 0x62]
    else if c == 0x0C then [BACKSLASH, 0x66]
    else if c < 0x20 then [BACKSLASH, 0x75, 0x30, 0x30, HexDigit(c / 16), HexDigit(c % 16)]
    else [c]
  }

  function Escaped(t: seq<Byte>): seq<Byte> {
    if t == [] then [] else Escaped(t[..|t| - 1]) + EscapeByte(t[|t| - 1])
  }

  function Quoted(t: seq<Byte>): seq<Byte> { [QUOTE] + Escaped(t) + [QUOTE] }

  function Digits(n: nat): (d: seq<Byte>)
    ensures |d| >= 1
  {
    if n < 10 then [ZERO + n] else Digits(n / 10) + [ZERO + n % 10]
  }

  function IntText(v: int): seq<Byte> { if v < 0 then [MINUS] + Digits(-v) else Digits(v) }

  function Spaces(n: nat): (r: seq<Byte>)
    ensures |r| == n && forall k :: 0 <= k < n ==> r[k] == 0x20
  {
    seq(n, _ => 0x20)
  }

  /** `depth` times `indent`, in 32 bits. */
  function Width(depth: nat, indent: U32): (w: U32) {
    if depth == 0 then 0 else (Width(depth - 1, indent) + indent) % TWO32
  }

  /** The indentation width is the product, taken in 32 bits. */
  lemma {:induction false} WidthIsProduct(depth: nat, indent: U32)
    ensures Width(depth, indent) == depth * indent % TWO32
  {
    if depth == 0 {
    } else {
      WidthIsProduct(depth - 1, indent);
      ModuloAdd((depth - 1) * indent, indent);
      assert (depth - 1) * indent + indent == depth * indent;
    }
  }

  /** The line break and indentation of pretty output. */
  function Break(depth: nat, o: Options): seq<Byte> {
    if o.pretty then [0x0A] + Spaces(Width(depth, o.indent)) else []
  }

  function Gap(o: Options): seq<Byte> { if o.pretty then [0x20] else [] }

  function KeyText(key: seq<Byte>, o: Options): seq<Byte> { Quoted(key) + [COLON] + Gap(o) }

  function Separator(n: nat): seq<Byte> { if n == 0 then [] else [COMMA] }

  /** Entries with a comma between them and a break before each. */
  function Joined(ts: seq<seq<Byte>>, brk: seq<Byte>): seq<Byte> {
    if ts == [] then []
    else Joined(ts[..|ts| - 1], brk) + Separator(|ts| - 1) + brk + ts[|ts| - 1]
  }

  /** A container: its entries one level in, its end on its own level. */
  function Container(open: Byte, ts: seq<seq<Byte>>, depth: nat, o: Options, close: Byte): seq<Byte> {
    [open] + Joined(ts, Break(depth + 1, o)) + (if ts == [] then [] else Break(depth, o)) + [close]
  }

  function Text(v: Json, depth: nat, o: Options): seq<Byte>
    decreases v, 1
  {
    match v
    case Null => NULL_TEXT
    case Bool(b) => if b then TRUE_TEXT else FALSE_TEXT
    case Int(i) => IntText(i)
    case Real(t) => t
    case Str(t) => Quoted(t)
    case Arr(items) => Container(LBRACKET, ItemTexts(items, depth + 1, o), depth, o, RBRACKET)
    case Obj(pairs) => Container(LBRACE, PairTexts(pairs, depth + 1, o), depth, o, RBRACE)
  }

  function ItemTexts(items: seq<Json>, depth: nat, o: Options): (ts: seq<seq<Byte>>)
    ensures |ts| == |items| && forall k :: 0 <= k < |ts| ==> ts[k] == Text(items[k], depth, o)
    decreases items, 0
  {
    seq(|items|, k requires 0 <= k < |items| => Text(items[k], depth, o))
  }

  function PairTexts(pairs: seq<Pair>, depth: nat, o: Options): (ts: seq<seq<Byte>>)
    ensures |ts| == |pairs|
    ensures forall k :: 0 <= k < |ts| ==> ts[k] == KeyText(pairs[k].key, o) + Text(pairs[k].value, depth, o)
    decreases pairs, 0
  {
    seq(|pairs|, k requires 0 <= k < |pairs| => KeyText(pairs[k].key, o) + Text(pairs[k].value, depth, o))
  }

  // ---------------------------------------------------------------- strings

  lemma {:induction false} EscapedSnoc(t: seq<Byte>, c: Byte)
    ensures Escaped(t + [c]) == Escaped(t) + EscapeByte(c)
  {
    assert (t + [c])[..|t|] == t;
  }

  lemma {:induction false} EscapedFront(t: seq<Byte>)
    requires t != []
    ensures Escaped(t) == EscapeByte(t[0]) + Escaped(t[1..])
  {
    var n := |t| - 1;
    if n == 0 {
      assert t[..0] == [] && t[1..] == [];
    } else {
      EscapedFront(t[..n]);
      assert t[1..][..n - 1] == t[..n][1..];
      Associative(EscapeByte(t[0]), Escaped(t[..n][1..]), EscapeByte(t[n]));
    }
  }

  /** The form in which a byte is written. */
  function CharOf(c: Byte): (r: Char)
    ensures LegalChar(r) && SpellChar(r) == EscapeByte(c) && MeanChar(r) == [c]
  {
    if c == QUOTE then Short(0)
    else if c == BACKSLASH then Short(1)
    else if c == 0x08 then Short(3)
    else if c == 0x0C then Short(4)
    else if c == 0x0A then Short(5)
    else if c == 0x0D then Short(6)
    else if c == 0x09 then Short(7)
    else if c < 0x20 then ControlSpelled(c); Unicode([0x30, 0x30, HexDigit(c / 16), HexDigit(c % 16)])
    else Raw(c)
  }

  lemma ControlSpelled(c: Byte)
    requires c < 0x20
    ensures var d := [0x30, 0x30, HexDigit(c / 16), HexDigit(c % 16)];
            && IsQuad(d) && Quad(d) == c && MeanChar(Unicode(d)) == [c]
            && SpellChar(Unicode(d)) == [BACKSLASH, 0x75, 0x30, 0x30, HexDigit(c / 16), HexDigit(c % 16)]
  {
    assert HexNibble(HexDigit(c / 16)) == c / 16 && HexNibble(HexDigit(c % 16)) == c % 16;
  }

  function CharsOf(t: seq<Byte>): seq<Char> { if t == [] then [] else [CharOf(t[0])] + CharsOf(t[1..]) }

  ghost predicate Escapes(cs: seq<Char>, t: seq<Byte>) {
    LegalChars(cs) && SpellChars(cs) == Escaped(t) && MeanChars(cs) == t
  }

  /** Every byte string is spelled by its escaped text. */
  lemma {:induction false} EscapedSpells(t: seq<Byte>)
    ensures Escapes(CharsOf(t), t)
    decreases |t|
  {
    if t != [] {
      EscapedSpells(t[1..]);
      EscapesFront(CharOf(t[0]), CharsOf(t[1..]), t);
    }
  }

  lemma {:induction false} EscapesFront(c: Char, cs: seq<Char>, t: seq<Byte>)
    requires t != [] && LegalChar(c) && SpellChar(c) == EscapeByte(t[0]) && MeanChar(c) == [t[0]]
    requires Escapes(cs, t[1..])
    ensures Escapes([c] + cs, t)
  {
    EscapedFront(t);
    assert ([c] + cs)[1..] == cs && t == [t[0]] + t[1..];
  }

  // ---------------------------------------------------------------- numbers

  lemma {:induction false} DigitsRead(n: nat)
    ensures Decimal(Digits(n)) == n && IsDigits(Digits(n))
    ensures n > 0 ==> Digits(n)[0] != ZERO
    ensures n == 0 ==> Digits(n) == [ZERO]
  {
    var d := Digits(n);
    if n >= 10 {
      DigitsRead(n / 10);
      assert d[..|d| - 1] == Digits(n / 10);
    } else {
      assert d[..|d| - 1] == [];
    }
  }

  function NumeralOf(v: int): Numeral { Numeral(v < 0, Digits(if v < 0 then -v else v), [], None) }

  /** Every signed 64-bit integer is spelled by its text. */
  lemma {:induction false} IntSpells(v: int)
    requires InInt64(v)
    ensures LegalNumeral(NumeralOf(v)) && SpellNumeral(NumeralOf(v)) == IntText(v)
    ensures MeanNumeral(NumeralOf(v)) == Int(v)
  {
    DigitsRead(if v < 0 then -v else v);
    assert Ascii("-") == [MINUS];
  }

  // ----------------------------------------------------------------- values

  /** No numbers in the tree but signed 64-bit integers. */
  predicate FloatFree(v: Json)
    decreases v
  {
    match v
    case Int(i) => InInt64(i)
    case Real(_) => false
    case Arr(items) => forall k :: 0 <= k < |items| ==> FloatFree(items[k])
    case Obj(pairs) => forall k :: 0 <= k < |pairs| ==> FloatFree(pairs[k].value)
    case _ => true
  }

  /** The syntax of the text of a tree: a break before each entry and before the
      closing byte. */
  function SyntaxOf(v: Json, depth: nat, o: Options): Syntax
    requires FloatFree(v)
    decreases v, 1
  {
    match v
    case Null => Nil
    case Bool(b) => Truth(b)
    case Int(i) => Count(NumeralOf(i))
    case Str(t) => Phrase(CharsOf(t))
    case Arr(items) => List([], ItemsOf(items, depth + 1, o, Break(depth, o)))
    case Obj(pairs) => Record([], MembersOf(pairs, depth + 1, o, Break(depth, o)))
  }

  function ItemsOf(items: seq<Json>, depth: nat, o: Options, end: seq<Byte>): seq<Item>
    requires forall k :: 0 <= k < |items| ==> FloatFree(items[k])
    decreases items, 0
  {
    if items == [] then []
    else
      [Item(Break(depth, o), SyntaxOf(items[0], depth, o), if |items| == 1 then end else [])]
      + ItemsOf(items[1..], depth, o, end)
  }

  function MembersOf(pairs: seq<Pair>, depth: nat, o: Options, end: seq<Byte>): seq<Member>
    requires forall k :: 0 <= k < |pairs| ==> FloatFree(pairs[k].value)
    decreases pairs, 0
  {
    if pairs == [] then []
    else
      var it := Item(Gap(o), SyntaxOf(pairs[0].value, depth, o), if |pairs| == 1 then end else []);
      [Member(Break(depth, o), CharsOf(pairs[0].key), [], it)] + MembersOf(pairs[1..], depth, o, end)
  }

  lemma BreakIsWs(depth: nat, o: Options)
    ensures AllWs(Break(depth, o)) && AllWs(Gap(o))
  {}

  lemma {:induction false} JoinedFront(ts: seq<seq<Byte>>, brk: seq<Byte>)
    requires ts != []
    ensures Joined(ts, brk) == brk + ts[0] + if |ts| == 1 then [] else [COMMA] + Joined(ts[1..], brk)
  {
    var n := |ts| - 1;
    if n > 0 {
      var init, last := ts[..n], Separator(n) + brk + ts[n];
      JoinedFront(init, brk);
      assert Joined(ts, brk) == Joined(init, brk) + last;
      assert ts[1..][..n - 1] == init[1..] && ts[1..][n - 1] == ts[n];
      assert Joined(ts[1..], brk) == Joined(init[1..], brk) + (Separator(n - 1) + brk + ts[n]);
    }
  }

  /** The text of a tree is a spelling of the tree. */
  lemma {:induction false} TextSpells(v: Json, depth: nat, o: Options)
    requires FloatFree(v)
    ensures Legal(SyntaxOf(v, depth, o)) && Mean(SyntaxOf(v, depth, o)) == v
    ensures Spell(SyntaxOf(v, depth, o)) == Text(v, depth, o)
    decreases v, 1
  {
    WordsAre();
    match v
    case Null =>
    case Bool(b) =>
    case Int(i) => IntSpells(i);
    case Str(t) => QuotedSpells(t);
    case Arr(items) =>
      BreakIsWs(depth, o);
      ItemsSpell(items, depth + 1, o, Break(depth, o));
      ArraySpells(items, depth, o);
    case Obj(pairs) =>
      BreakIsWs(depth, o);
      MembersSpell(pairs, depth + 1, o, Break(depth, o));
      ObjectSpells(pairs, depth, o);
  }

  lemma {:induction false} QuotedSpells(t: seq<Byte>)
    ensures LegalChars(CharsOf(t)) && SpellText(CharsOf(t)) == Quoted(t) && MeanChars(CharsOf(t)) == t
  {
    EscapedSpells(t);
    assert Ascii("\"") == [QUOTE];
  }

  /** Entries that mean `vs` and are spelled by `ts`, joined, and `end`. */
  ghost predicate Itemize(xs: seq<Item>, vs: seq<Json>, ts: seq<seq<Byte>>, brk: seq<Byte>, end: seq<Byte>) {
    && |vs| == |ts| && LegalItems(xs) && MeanItems(xs) == vs
    && SpellItems(xs) == Joined(ts, brk) + if vs == [] then [] else end
  }

  ghost predicate ItemsMatch(items: seq<Json>, depth: nat, o: Options, end: seq<Byte>)
    requires forall k :: 0 <= k < |items| ==> FloatFree(items[k])
  {
    Itemize(ItemsOf(items, depth, o, end), items, ItemTexts(items, depth, o), Break(depth, o), end)
  }

  lemma {:induction false} ArraySpells(items: seq<Json>, depth: nat, o: Options)
    requires FloatFree(Arr(items)) && ItemsMatch(items, depth + 1, o, Break(depth, o))
    ensures var x := SyntaxOf(Arr(items), depth, o);
            Legal(x) && Mean(x) == Arr(items) && Spell(x) == Text(Arr(items), depth, o)
  {
    var ts, brk := ItemTexts(items, depth + 1, o), Break(depth + 1, o);
    Around(LBRACKET, '[', Joined(ts, brk), if ts == [] then [] else Break(depth, o), RBRACKET, ']');
  }

  lemma Around(open: Byte, c: char, body: seq<Byte>, end: seq<Byte>, close: Byte, d: char)
    requires c < 128 as char && d < 128 as char && open == c as int && close == d as int
    ensures Ascii([c]) + [] + (body + end) + Ascii([d]) == [open] + body + end + [close]
  {
    assert Ascii([c]) == [open] && Ascii([d]) == [close];
  }

  lemma {:induction false} ItemsSpell(items: seq<Json>, depth: nat, o: Options, end: seq<Byte>)
    requires (forall k :: 0 <= k < |items| ==> FloatFree(items[k])) && AllWs(end)
    ensures ItemsMatch(items, depth, o, end)
    decreases items, 0
  {
    if items != [] {
      TextSpells(items[0], depth, o);
      ItemsSpell(items[1..], depth, o, end);
      BreakIsWs(depth, o);
      FirstItemSpells(items, depth, o, end);
    }
  }

  lemma {:induction false} FirstItemSpells(items: seq<Json>, depth: nat, o: Options, end: seq<Byte>)
    requires items != [] && (forall k :: 0 <= k < |items| ==> FloatFree(items[k])) && AllWs(end)
    requires ItemsMatch(items[1..], depth, o, end) && AllWs(Break(depth, o))
    requires Legal(SyntaxOf(items[0], depth, o)) && Mean(SyntaxOf(items[0], depth, o)) == items[0]
    requires Spell(SyntaxOf(items[0], depth, o)) == Text(items[0], depth, o)
    ensures ItemsMatch(items, depth, o, end)
  {
    var ts, rest := ItemTexts(items, depth, o), ItemsOf(items[1..], depth, o, end);
    var it := Item(Break(depth, o), SyntaxOf(items[0], depth, o), if |items| == 1 then end else []);
    assert ts[1..] == ItemTexts(items[1..], depth, o);
    ItemInFront(it, rest, items, ts, Break(depth, o), end);
  }

  lemma {:induction false} ItemInFront(it: Item, rest: seq<Item>, vs: seq<Json>, ts: seq<seq<Byte>>, brk: seq<Byte>,
                                       end: seq<Byte>)
    requires |vs| == |ts| > 0 && LegalItem(it) && MeanItem(it) == vs[0]
    requires SpellItem(it) == brk + ts[0] + if |ts| == 1 then end else []
    requires Itemize(rest, vs[1..], ts[1..], brk, end)
    ensures Itemize([it] + rest, vs, ts, brk, end)
  {
    ItemsFront(it, rest);
    assert [vs[0]] + vs[1..] == vs;
    if rest != [] { ItemsSpelled(rest); }
    Together(SpellItem(it), SpellItems(rest), ts, brk, end);
  }

  /** The end comes behind the last entry. */
  lemma {:induction false} Together(first: seq<Byte>, rest: seq<Byte>, ts: seq<seq<Byte>>, brk: seq<Byte>,
                                    end: seq<Byte>)
    requires ts != [] && first == brk + ts[0] + if |ts| == 1 then end else []
    requires if |ts| == 1 then rest == [] else rest != [] && rest == Joined(ts[1..], brk) + end
    ensures first + More(rest) == Joined(ts, brk) + end
  {
    JoinedFront(ts, brk);
    if |ts| == 1 {
      assert More(rest) == [] && first + [] == first && brk + ts[0] + [] == brk + ts[0];
    } else {
      CommaBetween(brk, ts[0], Joined(ts[1..], brk), end);
    }
  }

  lemma CommaBetween(brk: seq<Byte>, t: seq<Byte>, more: seq<Byte>, end: seq<Byte>)
    ensures brk + t + [] + (Ascii(",") + (more + end)) == brk + t + ([COMMA] + more) + end
  {
    assert Ascii(",") == [COMMA];
  }

  ghost predicate Listing(xs: seq<Member>, ps: seq<Pair>, ts: seq<seq<Byte>>, brk: seq<Byte>, end: seq<Byte>) {
    && |ps| == |ts| && LegalMembers(xs) && MeanMembers(xs) == ps
    && SpellMembers(xs) == Joined(ts, brk) + if ps == [] then [] else end
  }

  ghost predicate MembersMatch(pairs: seq<Pair>, depth: nat, o: Options, end: seq<Byte>)
    requires forall k :: 0 <= k < |pairs| ==> FloatFree(pairs[k].value)
  {
    Listing(MembersOf(pairs, depth, o, end), pairs, PairTexts(pairs, depth, o), Break(depth, o), end)
  }

  lemma {:induction false} ObjectSpells(pairs: seq<Pair>, depth: nat, o: Options)
    requires FloatFree(Obj(pairs)) && MembersMatch(pairs, depth + 1, o, Break(depth, o))
    ensures var x := SyntaxOf(Obj(pairs), depth, o);
            Legal(x) && Mean(x) == Obj(pairs) && Spell(x) == Text(Obj(pairs), depth, o)
  {
    var ts, brk := PairTexts(pairs, depth + 1, o), Break(depth + 1, o);
    Around(LBRACE, '{', Joined(ts, brk), if ts == [] then [] else Break(depth, o), RBRACE, '}');
  }

  lemma {:induction false} MembersSpell(pairs: seq<Pair>, depth: nat, o: Options, end: seq<Byte>)
    requires (forall k :: 0 <= k < |pairs| ==> FloatFree(pairs[k].value)) && AllWs(end)
    ensures MembersMatch(pairs, depth, o, end)
    decreases pairs, 0
  {
    if pairs != [] {
      TextSpells(pairs[0].value, depth, o);
      MembersSpell(pairs[1..], depth, o, end);
      BreakIsWs(depth, o);
      FirstMemberSpells(pairs, depth, o, end);
    }
  }

  lemma {:induction false} FirstMemberSpells(pairs: seq<Pair>, depth: nat, o: Options, end: seq<Byte>)
    requires pairs != [] && (forall k :: 0 <= k < |pairs| ==> FloatFree(pairs[k].value)) && AllWs(end)
    requires MembersMatch(pairs[1..], depth, o, end) && AllWs(Break(depth, o)) && AllWs(Gap(o))
    requires var x := SyntaxOf(pairs[0].value, depth, o);
             Legal(x) && Mean(x) == pairs[0].value && Spell(x) == Text(pairs[0].value, depth, o)
    ensures MembersMatch(pairs, depth, o, end)
  {
    var ts, rest := PairTexts(pairs, depth, o), MembersOf(pairs[1..], depth, o, end);
    var m := FirstMember(pairs, depth, o, end);
    assert ts[1..] == PairTexts(pairs[1..], depth, o);
    MemberInFront(m, rest, pairs, ts, Break(depth, o), end);
  }

  lemma {:induction false} MemberInFront(m: Member, rest: seq<Member>, ps: seq<Pair>, ts: seq<seq<Byte>>,
                                         brk: seq<Byte>, end: seq<Byte>)
    requires |ps| == |ts| > 0 && LegalMember(m) && MeanMember(m) == ps[0]
    requires SpellMember(m) == brk + ts[0] + if |ts| == 1 then end else []
    requires Listing(rest, ps[1..], ts[1..], brk, end)
    ensures Listing([m] + rest, ps, ts, brk, end)
  {
    MembersFront(m, rest);
    assert [ps[0]] + ps[1..] == ps;
    if rest != [] { MembersSpelled(rest); }
    Together(SpellMember(m), SpellMembers(rest), ts, brk, end);
  }

  lemma {:induction false} FirstMember(pairs: seq<Pair>, depth: nat, o: Options, end: seq<Byte>) returns (m: Member)
    requires pairs != [] && (forall k :: 0 <= k < |pairs| ==> FloatFree(pairs[k].value)) && AllWs(end)
    requires AllWs(Break(depth, o)) && AllWs(Gap(o))
    requires var x := SyntaxOf(pairs[0].value, depth, o);
             Legal(x) && Mean(x) == pairs[0].value && Spell(x) == Text(pairs[0].value, depth, o)
    ensures MembersOf(pairs, depth, o, end) == [m] + MembersOf(pairs[1..], depth, o, end)
    ensures LegalMember(m) && MeanMember(m) == pairs[0]
    ensures SpellMember(m) ==
      Break(depth, o) + PairTexts(pairs, depth, o)[0] + if |pairs| == 1 then end else []
  {
    var p, x, last := pairs[0], SyntaxOf(pairs[0].value, depth, o), if |pairs| == 1 then end else [];
    m := Member(Break(depth, o), CharsOf(p.key), [], Item(Gap(o), x, last));
    QuotedSpells(p.key);
    assert Ascii(":") == [COLON];
    MemberParts(Break(depth, o), Quoted(p.key), Gap(o), Text(p.value, depth, o), last);
  }

  lemma MemberParts(brk: seq<Byte>, key: seq<Byte>, gap: seq<Byte>, t: seq<Byte>, last: seq<Byte>)
    ensures brk + key + [] + [COLON] + (gap + t + last) == brk + (key + [COLON] + gap + t) + last
  {}

  // -------------------------------------------------------------- round trip

  /** The text of a tree reads back as the tree, wherever it stands. */
  lemma {:induction false} TextReads(s: seq<Byte>, p: nat, v: Json, depth: nat, o: Options)
    requires FloatFree(v) && At(s, p, Text(v, depth, o)) && Ends(s, p + |Text(v, depth, o)|)
    ensures Value(s, p) == Some((v, p + |Text(v, depth, o)|))
  {
    TextSpells(v, depth, o);
    ValueRead(s, p, SyntaxOf(v, depth, o), v, p + |Text(v, depth, o)|);
  }

  /** What is written reads back: for every float-free tree, compact or pretty,
      with or without a trailing newline. */
  lemma {:induction false} RoundTrip(v: Json, o: Options, newline: bool)
    requires FloatFree(v)
    ensures Document(Text(v, 0, o) + if newline then [0x0A] else []) == Some(v)
  {
    var s, post := Text(v, 0, o) + (if newline then [0x0A] else []), if newline then [0x0A] else [];
    TextSpells(v, 0, o);
    assert IsSpelling(s, v, [], SyntaxOf(v, 0, o), post) by { assert [] + Text(v, 0, o) + post == s; }
    ReadsExactlySpellings(s, v);
  }

  /** So a parser with limits that admit the tree gets it back. */
  lemma {:induction false} LimitedRoundTrip(v: Json, o: Options, newline: bool, lim: Limits, used: nat)
    requires FloatFree(v) && Fits(v, lim, used)
    ensures Accepted(Text(v, 0, o) + if newline then [0x0A] else [], lim, used) == Some(v)
  {
    RoundTrip(v, o, newline);
  }
}
