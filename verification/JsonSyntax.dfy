/** RFC 8259 the other way round: every JSON text is spelled from a tree of
    syntax, in which white space, escapes and the forms of numbers are chosen
    freely, and the grammar reads exactly these spellings. */
module JsonSyntax {
  import opened Bytes
  import opened JsonGrammar
  import opened JsonTokens

  // ------------------------------------------------------------------- values

  predicate IsWs(c: Byte) { c == 0x20 || c == 0x09 || c == 0x0A || c == 0x0D }

  ghost predicate AllWs(w: seq<Byte>) { forall k :: 0 <= k < |w| ==> IsWs(w[k]) }

  /** A text with all that is free in it; `gap` is what an empty container
      encloses. */
  datatype Syntax =
    | Nil
    | Truth(b: bool)
    | Count(n: Numeral)
    | Phrase(chars: seq<Char>)
    | List(gap: seq<Byte>, items: seq<Item>)
    | Record(gap: seq<Byte>, members: seq<Member>)
  datatype Item = Item(before: seq<Byte>, value: Syntax, after: seq<Byte>)
  datatype Member = Member(before: seq<Byte>, key: seq<Char>, middle: seq<Byte>, item: Item)

  ghost predicate Legal(x: Syntax)
    decreases x
  {
    match x
    case Nil => true
    case Truth(_) => true
    case Count(n) => LegalNumeral(n)
    case Phrase(cs) => LegalChars(cs)
    case List(gap, items) => AllWs(gap) && (items != [] ==> gap == []) && LegalItems(items)
    case Record(gap, members) => AllWs(gap) && (members != [] ==> gap == []) && LegalMembers(members)
  }

  ghost predicate LegalItem(it: Item)
    decreases it
  {
    AllWs(it.before) && Legal(it.value) && AllWs(it.after)
  }

  ghost predicate LegalItems(items: seq<Item>)
    decreases items
  {
    items == [] || (LegalItem(items[0]) && LegalItems(items[1..]))
  }

  ghost predicate LegalMember(m: Member)
    decreases m
  {
    AllWs(m.before) && LegalChars(m.key) && AllWs(m.middle) && LegalItem(m.item)
  }

  ghost predicate LegalMembers(members: seq<Member>)
    decreases members
  {
    members == [] || (LegalMember(members[0]) && LegalMembers(members[1..]))
  }

  /** What more entries there are goes behind a comma. */
  function More(rest: seq<Byte>): seq<Byte> { if rest == [] then [] else Ascii(",") + rest }

  ghost function Spell(x: Syntax): seq<Byte>
    requires Legal(x)
    decreases x
  {
    match x
    case Nil => Ascii("null")
    case Truth(b) => if b then Ascii("true") else Ascii("false")
    case Count(n) => SpellNumeral(n)
    case Phrase(cs) => SpellText(cs)
    case List(gap, items) => Ascii("[") + gap + SpellItems(items) + Ascii("]")
    case Record(gap, members) => Ascii("{") + gap + SpellMembers(members) + Ascii("}")
  }

  ghost function SpellText(cs: seq<Char>): seq<Byte>
    requires LegalChars(cs)
  {
    Ascii("\"") + SpellChars(cs) + Ascii("\"")
  }

  ghost function SpellItem(it: Item): seq<Byte>
    requires LegalItem(it)
    decreases it
  {
    it.before + Spell(it.value) + it.after
  }

  ghost function SpellItems(items: seq<Item>): seq<Byte>
    requires LegalItems(items)
    decreases items
  {
    if items == [] then [] else SpellItem(items[0]) + More(SpellItems(items[1..]))
  }

  ghost function SpellMember(m: Member): seq<Byte>
    requires LegalMember(m)
    decreases m
  {
    m.before + SpellText(m.key) + m.middle + Ascii(":") + SpellItem(m.item)
  }

  ghost function SpellMembers(members: seq<Member>): seq<Byte>
    requires LegalMembers(members)
    decreases members
  {
    if members == [] then [] else SpellMember(members[0]) + More(SpellMembers(members[1..]))
  }

  ghost function Mean(x: Syntax): Json
    requires Legal(x)
    decreases x
  {
    match x
    case Nil => Null
    case Truth(b) => Bool(b)
    case Count(n) => MeanNumeral(n)
    case Phrase(cs) => Str(MeanChars(cs))
    case List(_, items) => Arr(MeanItems(items))
    case Record(_, members) => Obj(MeanMembers(members))
  }

  ghost function MeanItems(items: seq<Item>): seq<Json>
    requires LegalItems(items)
    decreases items
  {
    if items == [] then [] else [MeanItem(items[0])] + MeanItems(items[1..])
  }

  ghost function MeanItem(it: Item): Json
    requires LegalItem(it)
    decreases it
  {
    Mean(it.value)
  }

  ghost function MeanMember(m: Member): Pair
    requires LegalMember(m)
    decreases m
  {
    Pair(MeanChars(m.key), MeanItem(m.item))
  }

  ghost function MeanMembers(members: seq<Member>): seq<Pair>
    requires LegalMembers(members)
    decreases members
  {
    if members == [] then [] else [MeanMember(members[0])] + MeanMembers(members[1..])
  }

  // ------------------------------------------------------ what is spelled is read

  ghost predicate ElementsAt(s: seq<Byte>, i: nat, vs: seq<Json>, e: nat) {
    i <= |s| && Elements(s, i) == Some((vs, e))
  }

  ghost predicate MoreElementsAt(s: seq<Byte>, i: nat, vs: seq<Json>, e: nat) {
    i <= |s| && MoreElements(s, i) == Some((vs, e))
  }

  ghost predicate MembersAt(s: seq<Byte>, i: nat, ps: seq<Pair>, e: nat) { i <= |s| && Members(s, i) == Some((ps, e)) }

  ghost predicate MemberValueAt(s: seq<Byte>, i: nat, key: seq<Byte>, ps: seq<Pair>, e: nat) {
    i <= |s| && MemberValue(s, i, key) == Some((ps, e))
  }

  ghost predicate MoreMembersAt(s: seq<Byte>, i: nat, ps: seq<Pair>, e: nat) {
    i <= |s| && MoreMembers(s, i) == Some((ps, e))
  }

  ghost predicate SkipsTo(s: seq<Byte>, i: nat, p: nat) { i <= |s| && SkipSpace(s, i) == p }

  lemma {:induction false} WsSkipped(s: seq<Byte>, i: nat, w: seq<Byte>, p: nat)
    requires At(s, i, w) && AllWs(w) && p == i + |w| && (p < |s| ==> !IsWs(s[p]))
    ensures SkipsTo(s, i, p)
    decreases |w|
  {
    if w != [] {
      assert s[i] == w[0] && w == [w[0]] + w[1..];
      AtSplit(s, i, [w[0]], w[1..]);
      WsSkipped(s, i + 1, w[1..], p);
    }
  }

  lemma {:induction false} WsThenValue(s: seq<Byte>, i: nat, p: nat, v: Json, e: nat)
    requires SkipsTo(s, i, p) && ValueAt(s, p, v, e)
    ensures ValueAt(s, i, v, e)
  {
    assert SkipSpace(s, p) == p;
  }

  /** Bytes that may stand behind a value. */
  predicate Closes(c: Byte) { c == COMMA || c == RBRACKET || c == RBRACE }

  lemma {:induction false} FirstByte(x: Syntax)
    requires Legal(x)
    ensures Spell(x) != [] && !IsWs(Spell(x)[0]) && !Closes(Spell(x)[0])
  {
    match x
    case Nil => assert Ascii("null")[0] == 0x6E;
    case Truth(b) => assert Ascii("true")[0] == 0x74 && Ascii("false")[0] == 0x66;
    case Count(n) => NumeralStarts(n);
    case Phrase(cs) => assert SpellText(cs)[0] == Ascii("\"")[0];
    case List(gap, items) => assert Spell(x)[0] == Ascii("[")[0];
    case Record(gap, members) => assert Spell(x)[0] == Ascii("{")[0];
  }

  lemma NumeralStarts(n: Numeral)
    requires LegalNumeral(n)
    ensures SpellNumeral(n) != [] && (SpellNumeral(n)[0] == 0x2D || 0x30 <= SpellNumeral(n)[0] <= 0x39)
  {}

  lemma {:induction false} WordsAre()
    ensures Ascii("null") == NULL_TEXT && Ascii("true") == TRUE_TEXT && Ascii("false") == FALSE_TEXT
  {}

  /** A spelled value is read, wherever it stands. */
  lemma {:induction false} ValueRead(s: seq<Byte>, i: nat, x: Syntax, v: Json, e: nat)
    requires Legal(x) && At(s, i, Spell(x)) && v == Mean(x) && e == i + |Spell(x)| && Ends(s, e)
    ensures ValueAt(s, i, v, e)
    decreases x, 1
  {
    FirstByte(x);
    assert s[i] == Spell(x)[0];
    assert SkipSpace(s, i) == i;
    match x
    case Nil =>
      WordsAre();
      NullRead(s, i);
    case Truth(b) =>
      WordsAre();
      TruthRead(s, i, b);
    case Count(n) => CountRead(s, i, n, e);
    case Phrase(cs) => TextRead(s, i, cs, e);
    case List(gap, items) => ListRead(s, i, gap, items, e);
    case Record(gap, members) => RecordRead(s, i, gap, members, e);
  }

  lemma {:induction false} NullRead(s: seq<Byte>, i: nat)
    requires At(s, i, NULL_TEXT) && SkipsTo(s, i, i)
    ensures ValueAt(s, i, Null, i + |NULL_TEXT|)
  {
    AtSlice(s, i, NULL_TEXT);
    assert s[i] == NULL_TEXT[0];
  }

  lemma {:induction false} CountRead(s: seq<Byte>, i: nat, n: Numeral, e: nat)
    requires LegalNumeral(n) && At(s, i, SpellNumeral(n)) && e == i + |SpellNumeral(n)| && Ends(s, e)
    requires SkipsTo(s, i, i)
    ensures ValueAt(s, i, MeanNumeral(n), e)
  {
    NumeralRead(s, i, n, e);
    NoWord(s, i);
  }

  lemma {:induction false} TruthRead(s: seq<Byte>, i: nat, b: bool)
    requires At(s, i, if b then TRUE_TEXT else FALSE_TEXT) && SkipsTo(s, i, i)
    ensures ValueAt(s, i, Bool(b), i + |if b then TRUE_TEXT else FALSE_TEXT|)
  {
    var t := if b then TRUE_TEXT else FALSE_TEXT;
    AtSlice(s, i, t);
    OtherWord(s, i, NULL_TEXT, t);
    if !b { OtherWord(s, i, TRUE_TEXT, t); }
  }

  lemma OtherWord(s: seq<Byte>, i: nat, t: seq<Byte>, u: seq<Byte>)
    requires LiteralAt(s, i, u) && t != [] && u != [] && t[0] != u[0]
    ensures !LiteralAt(s, i, t)
  {
    assert s[i..i + |u|][0] == s[i];
    if i + |t| <= |s| { assert s[i..i + |t|][0] == s[i]; }
  }

  lemma {:induction false} TextRead(s: seq<Byte>, i: nat, cs: seq<Char>, e: nat)
    requires LegalChars(cs) && At(s, i, SpellText(cs)) && e == i + |SpellText(cs)|
    ensures ValueAt(s, i, Str(MeanChars(cs)), e)
    ensures Looks(s, i, QUOTE) && BodyAt(s, i + 1, MeanChars(cs), e)
  {
    Associative(Ascii("\""), SpellChars(cs), Ascii("\""));
    AtSplit(s, i, Ascii("\""), SpellChars(cs) + Ascii("\""));
    assert s[i] == Ascii("\"")[0] && Ascii("\"") == [0x22];
    CharsRead(s, i + 1, cs, MeanChars(cs), e);
    StringRead(s, i, MeanChars(cs), e);
  }

  /** An entry in front of a comma or a bracket: its value is read up to `c`, and
      from there only white space comes before `rest`. */
  lemma {:induction false} ItemRead(s: seq<Byte>, i: nat, it: Item, rest: seq<Byte>) returns (c: nat, d: nat)
    requires LegalItem(it) && At(s, i, SpellItem(it) + rest) && rest != [] && Closes(rest[0])
    ensures ValueAt(s, i, MeanItem(it), c) && d == i + |SpellItem(it)| && SkipsTo(s, c, d) && At(s, d, rest)
    ensures SkipSpace(s, i) < |s| && !Closes(s[SkipSpace(s, i)])
    decreases it, 0
  {
    var b := i + |it.before|;
    c, d := b + |Spell(it.value)|, i + |SpellItem(it)|;
    AtSplit(s, i, SpellItem(it), rest);
    AtSplit(s, i, it.before + Spell(it.value), it.after);
    AtSplit(s, i, it.before, Spell(it.value));
    FirstByte(it.value);
    assert s[b] == Spell(it.value)[0] && s[d] == rest[0];
    if it.after != [] { assert s[c] == it.after[0]; }
    WsSkipped(s, i, it.before, b);
    WsSkipped(s, c, it.after, d);
    ValueRead(s, b, it.value, MeanItem(it), c);
    WsThenValue(s, i, b, MeanItem(it), c);
  }

  lemma {:induction false} ListRead(s: seq<Byte>, i: nat, gap: seq<Byte>, items: seq<Item>, e: nat)
    requires Legal(List(gap, items)) && At(s, i, Spell(List(gap, items))) && e == i + |Spell(List(gap, items))|
    ensures ValueAt(s, i, Mean(List(gap, items)), e)
    decreases items, 2
  {
    Bracketed(s, i, '[', gap, SpellItems(items), ']');
    if items == [] {
      WsSkipped(s, i + 1, gap, e - 1);
      EmptyList(s, i, e - 1);
    } else {
      ItemsSpelled(items);
      ItemsRead(s, i + 1, items, MeanItems(items), e);
      FullList(s, i, MeanItems(items), e);
    }
  }

  lemma {:induction false} Bracketed(s: seq<Byte>, i: nat, open: char, gap: seq<Byte>, t: seq<Byte>, close: char)
    requires open < 128 as char && close < 128 as char && (t == [] || gap == [])
    requires At(s, i, Ascii([open]) + gap + t + Ascii([close]))
    ensures Looks(s, i, open as int) && Looks(s, i + 1 + |gap| + |t|, close as int)
    ensures At(s, i + 1, gap) && (t != [] ==> At(s, i + 1, t + Ascii([close])))
  {
    var o, c := Ascii([open]), Ascii([close]);
    AtSplit(s, i, o + gap + t, c);
    AtSplit(s, i, o + gap, t);
    AtSplit(s, i, o, gap);
    assert s[i] == o[0] && s[i + 1 + |gap| + |t|] == c[0];
    if t != [] {
      assert o + gap == o;
      Associative(o, t, c);
      AtSplit(s, i, o, t + c);
    }
  }

  lemma EmptyList(s: seq<Byte>, i: nat, q: nat)
    requires Looks(s, i, LBRACKET) && SkipsTo(s, i + 1, q) && Looks(s, q, RBRACKET)
    ensures ValueAt(s, i, Arr([]), q + 1)
  {
    assert SkipSpace(s, i) == i;
  }

  lemma {:induction false} FullList(s: seq<Byte>, i: nat, vs: seq<Json>, e: nat)
    requires Looks(s, i, LBRACKET) && ElementsAt(s, i + 1, vs, e) && !Looks(s, SkipSpace(s, i + 1), RBRACKET)
    ensures ValueAt(s, i, Arr(vs), e)
  {
    var q := SkipSpace(s, i + 1);
    ElementsSkip(s, i + 1, q);
    assert SkipSpace(s, i) == i && Value(s, i) == ArrayBody(s, q) == AsArray([], Elements(s, q));
    assert [] + vs == vs;
  }

  lemma {:induction false} ItemsRead(s: seq<Byte>, i: nat, items: seq<Item>, vs: seq<Json>, e: nat)
    requires items != [] && LegalItems(items) && At(s, i, SpellItems(items) + Ascii("]"))
    requires vs == MeanItems(items) && e == i + |SpellItems(items)| + 1
    ensures ElementsAt(s, i, vs, e) && !Looks(s, SkipSpace(s, i), RBRACKET)
    decreases items, 1
  {
    var tail := SpellItems(items[1..]);
    var rest := More(tail) + Ascii("]");
    Associative(SpellItem(items[0]), More(tail), Ascii("]"));
    assert rest != [] && Closes(rest[0]) by { assert Ascii("]") == [RBRACKET] && Ascii(",") == [COMMA]; }
    var c, d := ItemRead(s, i, items[0], rest);
    ItemsTailRead(s, c, d, items[1..], MeanItems(items[1..]), e);
    ElementsAre(s, i, MeanItem(items[0]), c, MeanItems(items[1..]), e);
  }

  lemma {:induction false} ItemsTailRead(s: seq<Byte>, c: nat, d: nat, items: seq<Item>, vs: seq<Json>, e: nat)
    requires SkipsTo(s, c, d) && LegalItems(items) && At(s, d, More(SpellItems(items)) + Ascii("]"))
    requires vs == MeanItems(items) && e == d + |More(SpellItems(items))| + 1
    ensures MoreElementsAt(s, c, vs, e)
    decreases items, 2
  {
    if items == [] {
      NoMore(s, d, ']');
    } else {
      MoreItemsRead(s, d, items);
      ItemsRead(s, d + 1, items, vs, e);
    }
    MoreElementsAre(s, c, d, vs, e);
  }

  lemma NoMore(s: seq<Byte>, d: nat, close: char)
    requires close < 128 as char && At(s, d, More([]) + Ascii([close]))
    ensures Looks(s, d, close as int)
  {
    var t := More([]) + Ascii([close]);
    assert s[d] == t[0];
  }

  lemma {:induction false} MoreItemsRead(s: seq<Byte>, d: nat, items: seq<Item>)
    requires items != [] && LegalItems(items) && At(s, d, More(SpellItems(items)) + Ascii("]"))
    ensures Looks(s, d, COMMA) && At(s, d + 1, SpellItems(items) + Ascii("]"))
    ensures |More(SpellItems(items))| == 1 + |SpellItems(items)|
  {
    ItemsSpelled(items);
    Associative(Ascii(","), SpellItems(items), Ascii("]"));
    AtSplit(s, d, Ascii(","), SpellItems(items) + Ascii("]"));
    assert s[d] == Ascii(",")[0];
  }

  lemma ItemsSpelled(items: seq<Item>)
    requires items != [] && LegalItems(items)
    ensures SpellItems(items) != []
  {
    FirstByte(items[0].value);
  }

  lemma ElementsAre(s: seq<Byte>, i: nat, v: Json, c: nat, vs: seq<Json>, e: nat)
    requires ValueAt(s, i, v, c) && MoreElementsAt(s, c, vs, e)
    ensures ElementsAt(s, i, [v] + vs, e)
  {}

  lemma MoreElementsAre(s: seq<Byte>, c: nat, d: nat, vs: seq<Json>, e: nat)
    requires SkipsTo(s, c, d)
    requires if Looks(s, d, RBRACKET) then vs == [] && e == d + 1 else Looks(s, d, COMMA) && ElementsAt(s, d + 1, vs, e)
    ensures MoreElementsAt(s, c, vs, e)
  {}

  lemma {:induction false} RecordRead(s: seq<Byte>, i: nat, gap: seq<Byte>, members: seq<Member>, e: nat)
    requires Legal(Record(gap, members)) && At(s, i, Spell(Record(gap, members)))
    requires e == i + |Spell(Record(gap, members))|
    ensures ValueAt(s, i, Mean(Record(gap, members)), e)
    decreases members, 2
  {
    Bracketed(s, i, '{', gap, SpellMembers(members), '}');
    if members == [] {
      WsSkipped(s, i + 1, gap, e - 1);
      EmptyRecord(s, i, e - 1);
    } else {
      MembersSpelled(members);
      MembersRead(s, i + 1, members, MeanMembers(members), e);
      FullRecord(s, i, MeanMembers(members), e);
    }
  }

  lemma EmptyRecord(s: seq<Byte>, i: nat, q: nat)
    requires Looks(s, i, LBRACE) && SkipsTo(s, i + 1, q) && Looks(s, q, RBRACE)
    ensures ValueAt(s, i, Obj([]), q + 1)
  {
    assert SkipSpace(s, i) == i;
  }

  lemma {:induction false} FullRecord(s: seq<Byte>, i: nat, ps: seq<Pair>, e: nat)
    requires Looks(s, i, LBRACE) && MembersAt(s, i + 1, ps, e) && !Looks(s, SkipSpace(s, i + 1), RBRACE)
    ensures ValueAt(s, i, Obj(ps), e)
  {
    var q := SkipSpace(s, i + 1);
    MembersSkip(s, i + 1, q);
    assert SkipSpace(s, i) == i && Value(s, i) == ObjectBody(s, q) == AsObject([], Members(s, q));
    assert [] + ps == ps;
  }

  lemma {:induction false} MembersRead(s: seq<Byte>, i: nat, members: seq<Member>, ps: seq<Pair>, e: nat)
    requires members != [] && LegalMembers(members) && At(s, i, SpellMembers(members) + Ascii("}"))
    requires ps == MeanMembers(members) && e == i + |SpellMembers(members)| + 1
    ensures MembersAt(s, i, ps, e) && !Looks(s, SkipSpace(s, i), RBRACE)
    decreases members, 1
  {
    var m, tail := members[0], SpellMembers(members[1..]);
    var rest := More(tail) + Ascii("}");
    Associative(SpellMember(m), More(tail), Ascii("}"));
    assert rest != [] && Closes(rest[0]) by { assert Ascii("}") == [RBRACE] && Ascii(",") == [COMMA]; }
    var j, k, c, d := MemberRead(s, i, m, rest);
    var more := MeanMembers(members[1..]);
    TailRead(s, c, d, members[1..], more, e);
    MemberValueIs(s, j, MeanChars(m.key), k, MeanItem(m.item), c, more, e);
    KeyThen(s, i, MeanChars(m.key), j, [Pair(MeanChars(m.key), MeanItem(m.item))] + more, e);
  }

  /** What stands behind a member's value: the end, or a comma and more. */
  lemma {:induction false} TailRead(s: seq<Byte>, c: nat, d: nat, members: seq<Member>, ps: seq<Pair>, e: nat)
    requires SkipsTo(s, c, d) && LegalMembers(members) && At(s, d, More(SpellMembers(members)) + Ascii("}"))
    requires ps == MeanMembers(members) && e == d + |More(SpellMembers(members))| + 1
    ensures MoreMembersAt(s, c, ps, e)
    decreases members, 2
  {
    if members == [] {
      NoMore(s, d, '}');
    } else {
      MoreMembersRead(s, d, members);
      MembersRead(s, d + 1, members, ps, e);
    }
    MoreMembersIs(s, c, d, ps, e);
  }

  lemma {:induction false} MoreMembersRead(s: seq<Byte>, d: nat, members: seq<Member>)
    requires members != [] && LegalMembers(members) && At(s, d, More(SpellMembers(members)) + Ascii("}"))
    ensures Looks(s, d, COMMA) && At(s, d + 1, SpellMembers(members) + Ascii("}"))
    ensures |More(SpellMembers(members))| == 1 + |SpellMembers(members)|
  {
    MembersSpelled(members);
    Associative(Ascii(","), SpellMembers(members), Ascii("}"));
    AtSplit(s, d, Ascii(","), SpellMembers(members) + Ascii("}"));
    assert s[d] == Ascii(",")[0];
  }

  lemma MembersSpelled(members: seq<Member>)
    requires members != [] && LegalMembers(members)
    ensures SpellMembers(members) != []
  {}

  /** The key ends at `j`, the colon stands at `k`, the value ends at `c`. */
  lemma {:induction false} MemberRead(s: seq<Byte>, i: nat, m: Member, rest: seq<Byte>)
    returns (j: nat, k: nat, c: nat, d: nat)
    requires LegalMember(m) && At(s, i, SpellMember(m) + rest) && rest != [] && Closes(rest[0])
    ensures KeyAt(s, i, MeanChars(m.key), j) && SkipsTo(s, j, k) && Looks(s, k, COLON)
    ensures ValueAt(s, k + 1, MeanItem(m.item), c) && SkipsTo(s, c, d) && At(s, d, rest)
    ensures d == i + |SpellMember(m)|
    decreases m, 0
  {
    var front := m.before + SpellText(m.key) + m.middle + Ascii(":");
    Associative(front, SpellItem(m.item), rest);
    AtSplit(s, i, front, SpellItem(m.item) + rest);
    j, k := KeyRead(s, i, m);
    c, d := ItemRead(s, k + 1, m.item, rest);
  }

  ghost predicate KeyAt(s: seq<Byte>, i: nat, key: seq<Byte>, j: nat) {
    i <= |s| && Looks(s, SkipSpace(s, i), QUOTE) && BodyAt(s, SkipSpace(s, i) + 1, key, j)
  }

  lemma {:induction false} KeyRead(s: seq<Byte>, i: nat, m: Member) returns (j: nat, k: nat)
    requires LegalMember(m) && At(s, i, m.before + SpellText(m.key) + m.middle + Ascii(":"))
    ensures KeyAt(s, i, MeanChars(m.key), j) && SkipsTo(s, j, k) && Looks(s, k, COLON)
    ensures k + 1 == i + |m.before + SpellText(m.key) + m.middle + Ascii(":")|
  {
    var p := i + |m.before|;
    j := p + |SpellText(m.key)|;
    k := j + |m.middle|;
    AtSplit(s, i, m.before + SpellText(m.key) + m.middle, Ascii(":"));
    AtSplit(s, i, m.before + SpellText(m.key), m.middle);
    AtSplit(s, i, m.before, SpellText(m.key));
    TextRead(s, p, m.key, j);
    assert s[k] == Ascii(":")[0];
    WsSkipped(s, i, m.before, p);
    WsSkipped(s, j, m.middle, k);
  }

  lemma MemberValueIs(s: seq<Byte>, j: nat, key: seq<Byte>, k: nat, v: Json, c: nat, ps: seq<Pair>, e: nat)
    requires SkipsTo(s, j, k) && Looks(s, k, COLON) && ValueAt(s, k + 1, v, c) && MoreMembersAt(s, c, ps, e)
    ensures MemberValueAt(s, j, key, [Pair(key, v)] + ps, e)
  {
    assert MemberValue(s, j, key) == Lift([Pair(key, v)], MoreMembers(s, c));
  }

  lemma MoreMembersIs(s: seq<Byte>, c: nat, d: nat, ps: seq<Pair>, e: nat)
    requires SkipsTo(s, c, d)
    requires if Looks(s, d, RBRACE) then ps == [] && e == d + 1 else Looks(s, d, COMMA) && MembersAt(s, d + 1, ps, e)
    ensures MoreMembersAt(s, c, ps, e)
  {}

  lemma KeyThen(s: seq<Byte>, i: nat, key: seq<Byte>, j: nat, ps: seq<Pair>, e: nat)
    requires KeyAt(s, i, key, j) && MemberValueAt(s, j, key, ps, e)
    ensures MembersAt(s, i, ps, e) && !Looks(s, SkipSpace(s, i), RBRACE)
  {}

  // --------------------------------------------------------- what is read is spelled

  lemma {:induction false} WsSpelled(s: seq<Byte>, i: nat, p: nat)
    requires SkipsTo(s, i, p)
    ensures AllWs(s[i..p])
    decreases |s| - i
  {
    if i < p {
      WsSpelled(s, i + 1, p);
      assert s[i..p] == [s[i]] + s[i + 1..p];
    }
  }

  /** White space and a value up to `e`. */
  ghost predicate IsValue(s: seq<Byte>, i: nat, w: seq<Byte>, x: Syntax, v: Json, e: nat) {
    i <= e <= |s| && AllWs(w) && Legal(x) && Mean(x) == v && s[i..e] == w + Spell(x)
  }

  lemma {:induction false} ValueSpelled(s: seq<Byte>, i: nat, v: Json, e: nat) returns (w: seq<Byte>, x: Syntax)
    requires ValueAt(s, i, v, e)
    ensures IsValue(s, i, w, x, v, e)
    decreases |s| - i, 3
  {
    var p := SkipSpace(s, i);
    w := s[i..p];
    WsSpelled(s, i, p);
    assert SkipSpace(s, p) == p;
    if s[p] == LBRACKET {
      x := ListSpelled(s, p, v, e);
    } else if s[p] == LBRACE {
      x := RecordSpelled(s, p, v, e);
    } else {
      x := ScalarSpelled(s, p, v, e);
    }
    Spelled(s, i, p, e, x, v);
  }

  lemma Spelled(s: seq<Byte>, i: nat, p: nat, e: nat, x: Syntax, v: Json)
    requires i <= p <= e <= |s| && AllWs(s[i..p]) && Legal(x) && Mean(x) == v && s[p..e] == Spell(x)
    ensures IsValue(s, i, s[i..p], x, v, e)
  {
    assert s[i..e] == s[i..p] + s[p..e];
  }

  lemma {:induction false} ScalarSpelled(s: seq<Byte>, p: nat, v: Json, e: nat) returns (x: Syntax)
    requires p < |s| && Scalar(s, p) == Some((v, e))
    ensures Legal(x) && Mean(x) == v && p <= e <= |s| && s[p..e] == Spell(x)
  {
    WordsAre();
    if LiteralAt(s, p, NULL_TEXT) {
      x := Nil;
    } else if LiteralAt(s, p, TRUE_TEXT) {
      x := Truth(true);
    } else if LiteralAt(s, p, FALSE_TEXT) {
      x := Truth(false);
    } else if s[p] == QUOTE {
      var cs := TextSpelled(s, p, v.s, e);
      x := Phrase(cs);
    } else {
      var n := NumeralSpelled(s, p);
      x := Count(n);
    }
  }

  lemma {:induction false} TextSpelled(s: seq<Byte>, p: nat, t: seq<Byte>, e: nat) returns (cs: seq<Char>)
    requires Looks(s, p, QUOTE) && BodyAt(s, p + 1, t, e)
    ensures LegalChars(cs) && MeanChars(cs) == t && p < e <= |s| && s[p..e] == SpellText(cs)
  {
    cs := CharsSpelled(s, p + 1, t, e);
    assert s[p..e] == [s[p]] + s[p + 1..e] && Ascii("\"") == [0x22];
  }

  lemma {:induction false} ListSpelled(s: seq<Byte>, p: nat, v: Json, e: nat) returns (x: Syntax)
    requires Looks(s, p, LBRACKET) && ValueAt(s, p, v, e)
    ensures Legal(x) && Mean(x) == v && p <= e <= |s| && s[p..e] == Spell(x)
    decreases |s| - p, 2
  {
    var q := SkipSpace(s, p + 1);
    ListOpens(s, p, v, e, q);
    if Looks(s, q, RBRACKET) {
      x := EmptyListSpelled(s, p, q);
    } else {
      var items := ElementsSpelled(s, p + 1, v.items, e);
      x := List([], items);
      FullListSpelled(s, p, items, e);
    }
  }

  lemma {:induction false} EmptyListSpelled(s: seq<Byte>, p: nat, q: nat) returns (x: Syntax)
    requires Looks(s, p, LBRACKET) && SkipsTo(s, p + 1, q) && Looks(s, q, RBRACKET)
    ensures x == List(s[p + 1..q], []) && Legal(x) && s[p..q + 1] == Spell(x)
  {
    WsSpelled(s, p + 1, q);
    x := List(s[p + 1..q], []);
    assert s[p..q + 1] == [s[p]] + s[p + 1..q] + [] + [s[q]];
    assert Ascii("[") == [s[p]] && Ascii("]") == [s[q]];
  }

  lemma {:induction false} FullListSpelled(s: seq<Byte>, p: nat, items: seq<Item>, e: nat)
    requires Looks(s, p, LBRACKET) && LegalItems(items) && p < e <= |s| && s[p + 1..e] == SpellItems(items) + Ascii("]")
    ensures s[p..e] == Spell(List([], items))
  {
    assert s[p..e] == [s[p]] + s[p + 1..e] && Ascii("[") == [s[p]] && Ascii("[") + [] == [s[p]];
    Associative(Ascii("[") + [], SpellItems(items), Ascii("]"));
  }

  lemma {:induction false} ListOpens(s: seq<Byte>, p: nat, v: Json, e: nat, q: nat)
    requires Looks(s, p, LBRACKET) && ValueAt(s, p, v, e) && SkipsTo(s, p + 1, q)
    ensures Looks(s, q, RBRACKET) ==> v == Arr([]) && e == q + 1
    ensures !Looks(s, q, RBRACKET) ==> v.Arr? && ElementsAt(s, p + 1, v.items, e)
  {
    assert SkipSpace(s, p) == p && SkipSpace(s, q) == q;
    assert Value(s, p) == ArrayBody(s, q);
    if !Looks(s, q, RBRACKET) {
      assert Value(s, p) == AsArray([], Elements(s, q));
      var r := Elements(s, q);
      assert r.Some? && [] + r.value.0 == r.value.0;
      ElementsSkip(s, p + 1, q);
    }
  }

  lemma ElementsSkip(s: seq<Byte>, i: nat, q: nat)
    requires SkipsTo(s, i, q)
    ensures Elements(s, i) == Elements(s, q)
  {
    assert SkipSpace(s, q) == q && Value(s, i) == Value(s, q);
  }

  lemma {:induction false} ElementsSpelled(s: seq<Byte>, i: nat, vs: seq<Json>, e: nat) returns (items: seq<Item>)
    requires ElementsAt(s, i, vs, e)
    ensures items != [] && LegalItems(items) && MeanItems(items) == vs
    ensures i <= e <= |s| && s[i..e] == SpellItems(items) + Ascii("]")
    decreases |s| - i, 5
  {
    var v, c, p, more := ElementsStep(s, i, vs, e);
    var it := ItemFound(s, i, v, c, p);
    var rest := RestSpelled(s, p, more, e);
    items := [it] + rest;
    ItemsCons(s, i, p, e, it, rest, RBRACKET);
  }

  lemma Glue(s: seq<Byte>, i: nat, p: nat, e: nat, a: seq<Byte>, b: seq<Byte>, close: Byte)
    requires i <= p <= e <= |s| && s[i..p] == a && s[p..e] == b + [close]
    ensures s[i..e] == (a + b) + [close]
  {
    assert s[i..e] == s[i..p] + s[p..e];
  }

  lemma MoreSpelled(s: seq<Byte>, p: nat, e: nat, t: seq<Byte>, close: Byte)
    requires p < e <= |s|
    requires if t == [] then s[p..e] == [close] else s[p] == COMMA && s[p + 1..e] == t + [close]
    ensures s[p..e] == More(t) + [close]
  {
    assert Ascii(",") == [COMMA] && s[p..e] == [s[p]] + s[p + 1..e];
  }

  lemma {:induction false} RestSpelled(s: seq<Byte>, p: nat, vs: seq<Json>, e: nat) returns (rest: seq<Item>)
    requires p < |s|
    requires (s[p] == RBRACKET && vs == [] && e == p + 1) || (s[p] == COMMA && ElementsAt(s, p + 1, vs, e))
    ensures p < e <= |s| && LegalItems(rest) && MeanItems(rest) == vs
    ensures if rest == [] then s[p..e] == [RBRACKET] else s[p] == COMMA && s[p + 1..e] == SpellItems(rest) + [RBRACKET]
    decreases |s| - p, 0
  {
    rest := [];
    if s[p] == COMMA { rest := ElementsSpelled(s, p + 1, vs, e); }
    assert Ascii("]") == [RBRACKET];
  }

  lemma {:induction false} ElementsStep(s: seq<Byte>, i: nat, vs: seq<Json>, e: nat)
    returns (v: Json, c: nat, p: nat, more: seq<Json>)
    requires ElementsAt(s, i, vs, e)
    ensures ValueAt(s, i, v, c) && i < c <= p < |s| && SkipsTo(s, c, p) && vs == [v] + more
    ensures (s[p] == RBRACKET && more == [] && e == p + 1) || (s[p] == COMMA && ElementsAt(s, p + 1, more, e))
  {
    v, c := Value(s, i).value.0, Value(s, i).value.1;
    p, more := SkipSpace(s, c), MoreElements(s, c).value.0;
  }

  lemma {:induction false} ItemsCons(s: seq<Byte>, i: nat, p: nat, e: nat, it: Item, rest: seq<Item>, close: Byte)
    requires i <= p < e <= |s| && LegalItem(it) && LegalItems(rest) && s[i..p] == SpellItem(it)
    requires if rest == [] then s[p..e] == [close] else s[p] == COMMA && s[p + 1..e] == SpellItems(rest) + [close]
    ensures LegalItems([it] + rest) && SpellItems([it] + rest) + [close] == s[i..e]
    ensures MeanItems([it] + rest) == [MeanItem(it)] + MeanItems(rest)
  {
    if rest != [] { ItemsSpelled(rest); }
    ItemsFront(it, rest);
    MoreSpelled(s, p, e, SpellItems(rest), close);
    Glue(s, i, p, e, SpellItem(it), More(SpellItems(rest)), close);
  }

  lemma ItemsFront(it: Item, rest: seq<Item>)
    requires LegalItem(it) && LegalItems(rest)
    ensures LegalItems([it] + rest) && SpellItems([it] + rest) == SpellItem(it) + More(SpellItems(rest))
    ensures MeanItems([it] + rest) == [MeanItem(it)] + MeanItems(rest)
  {
    assert ([it] + rest)[1..] == rest;
  }

  lemma {:induction false} RecordSpelled(s: seq<Byte>, p: nat, v: Json, e: nat) returns (x: Syntax)
    requires Looks(s, p, LBRACE) && ValueAt(s, p, v, e)
    ensures Legal(x) && Mean(x) == v && p <= e <= |s| && s[p..e] == Spell(x)
    decreases |s| - p, 2
  {
    var q := SkipSpace(s, p + 1);
    RecordOpens(s, p, v, e, q);
    if Looks(s, q, RBRACE) {
      x := EmptyRecordSpelled(s, p, q);
    } else {
      var members := MembersFound(s, p + 1, v.pairs, e);
      x := Record([], members);
      FullRecordSpelled(s, p, members, e);
    }
  }

  lemma {:induction false} EmptyRecordSpelled(s: seq<Byte>, p: nat, q: nat) returns (x: Syntax)
    requires Looks(s, p, LBRACE) && SkipsTo(s, p + 1, q) && Looks(s, q, RBRACE)
    ensures x == Record(s[p + 1..q], []) && Legal(x) && s[p..q + 1] == Spell(x)
  {
    WsSpelled(s, p + 1, q);
    x := Record(s[p + 1..q], []);
    assert s[p..q + 1] == [s[p]] + s[p + 1..q] + [] + [s[q]];
    assert Ascii("{") == [s[p]] && Ascii("}") == [s[q]];
  }

  lemma {:induction false} FullRecordSpelled(s: seq<Byte>, p: nat, members: seq<Member>, e: nat)
    requires Looks(s, p, LBRACE) && LegalMembers(members) && p < e <= |s|
    requires s[p + 1..e] == SpellMembers(members) + Ascii("}")
    ensures s[p..e] == Spell(Record([], members))
  {
    assert s[p..e] == [s[p]] + s[p + 1..e] && Ascii("{") == [s[p]] && Ascii("{") + [] == [s[p]];
    Associative(Ascii("{") + [], SpellMembers(members), Ascii("}"));
  }

  lemma {:induction false} RecordOpens(s: seq<Byte>, p: nat, v: Json, e: nat, q: nat)
    requires Looks(s, p, LBRACE) && ValueAt(s, p, v, e) && SkipsTo(s, p + 1, q)
    ensures Looks(s, q, RBRACE) ==> v == Obj([]) && e == q + 1
    ensures !Looks(s, q, RBRACE) ==> v.Obj? && MembersAt(s, p + 1, v.pairs, e)
  {
    assert SkipSpace(s, p) == p && SkipSpace(s, q) == q;
    assert Value(s, p) == ObjectBody(s, q);
    if !Looks(s, q, RBRACE) {
      assert Value(s, p) == AsObject([], Members(s, q));
      var r := Members(s, q);
      assert r.Some? && [] + r.value.0 == r.value.0;
      MembersSkip(s, p + 1, q);
    }
  }

  lemma MembersSkip(s: seq<Byte>, i: nat, q: nat)
    requires SkipsTo(s, i, q)
    ensures Members(s, i) == Members(s, q)
  {
    assert SkipSpace(s, q) == q;
  }

  lemma {:induction false} MembersFound(s: seq<Byte>, i: nat, ps: seq<Pair>, e: nat) returns (members: seq<Member>)
    requires MembersAt(s, i, ps, e)
    ensures members != [] && LegalMembers(members) && MeanMembers(members) == ps
    ensures i <= e <= |s| && s[i..e] == SpellMembers(members) + Ascii("}")
    decreases |s| - i, 5
  {
    var key, j, v, k, c, p, more := MembersStep(s, i, ps, e);
    var m := MemberFound(s, i, key, j, k, v, c, p);
    var rest: seq<Member> := [];
    if s[p] == COMMA { rest := MembersFound(s, p + 1, more, e); }
    members := [m] + rest;
    MembersCons(s, i, p, e, m, rest, RBRACE);
  }

  lemma {:induction false} MemberFound(s: seq<Byte>, i: nat, key: seq<Byte>, j: nat, k: nat, v: Json, c: nat, p: nat)
    returns (m: Member)
    requires KeyAt(s, i, key, j) && i < j <= k < c <= p <= |s| && SkipsTo(s, j, k) && Looks(s, k, COLON)
    requires ValueAt(s, k + 1, v, c) && SkipsTo(s, c, p)
    ensures LegalMember(m) && MeanMember(m) == Pair(key, v) && s[i..p] == SpellMember(m)
    decreases |s| - i, 4
  {
    var q := SkipSpace(s, i);
    var cs := TextSpelled(s, q, key, j);
    WsSpelled(s, i, q);
    WsSpelled(s, j, k);
    var it := ItemFound(s, k + 1, v, c, p);
    m := Member(s[i..q], cs, s[j..k], it);
    assert [s[k]] == Ascii(":");
    FiveParts(s, i, q, j, k, p);
  }

  lemma {:induction false} ItemFound(s: seq<Byte>, i: nat, v: Json, c: nat, p: nat) returns (it: Item)
    requires ValueAt(s, i, v, c) && c <= p <= |s| && SkipsTo(s, c, p)
    ensures i <= p && LegalItem(it) && MeanItem(it) == v && s[i..p] == SpellItem(it)
    decreases |s| - i, 4
  {
    var w, x := ValueSpelled(s, i, v, c);
    WsSpelled(s, c, p);
    it := Item(w, x, s[c..p]);
    assert s[i..p] == s[i..c] + s[c..p];
  }

  lemma FiveParts(s: seq<Byte>, i: nat, q: nat, j: nat, k: nat, p: nat)
    requires i <= q <= j <= k < p <= |s|
    ensures s[i..p] == s[i..q] + s[q..j] + s[j..k] + [s[k]] + s[k + 1..p]
  {
    assert s[i..j] == s[i..q] + s[q..j];
    assert s[i..k] == s[i..j] + s[j..k];
    assert s[i..k + 1] == s[i..k] + [s[k]];
    assert s[i..p] == s[i..k + 1] + s[k + 1..p];
  }

  lemma {:induction false} MembersStep(s: seq<Byte>, i: nat, ps: seq<Pair>, e: nat)
    returns (key: seq<Byte>, j: nat, v: Json, k: nat, c: nat, p: nat, more: seq<Pair>)
    requires MembersAt(s, i, ps, e)
    ensures KeyAt(s, i, key, j) && i < j <= k < c <= p < |s| && SkipsTo(s, j, k) && Looks(s, k, COLON)
    ensures ValueAt(s, k + 1, v, c) && SkipsTo(s, c, p) && ps == [Pair(key, v)] + more
    ensures (s[p] == RBRACE && more == [] && e == p + 1) || (s[p] == COMMA && MembersAt(s, p + 1, more, e))
  {
    key, j := KeyStep(s, i, ps, e);
    v, k, c := ColonStep(s, j, key, ps, e);
    p := SkipSpace(s, c);
    more := MoreMembers(s, c).value.0;
  }

  lemma {:induction false} KeyStep(s: seq<Byte>, i: nat, ps: seq<Pair>, e: nat) returns (key: seq<Byte>, j: nat)
    requires MembersAt(s, i, ps, e)
    ensures KeyAt(s, i, key, j) && i < j && MemberValueAt(s, j, key, ps, e)
  {
    var q := SkipSpace(s, i);
    key, j := StringBody(s, q + 1).value.0, StringBody(s, q + 1).value.1;
  }

  lemma {:induction false} ColonStep(s: seq<Byte>, j: nat, key: seq<Byte>, ps: seq<Pair>, e: nat)
    returns (v: Json, k: nat, c: nat)
    requires MemberValueAt(s, j, key, ps, e)
    ensures j <= k < c <= |s| && SkipsTo(s, j, k) && Looks(s, k, COLON) && ValueAt(s, k + 1, v, c)
    ensures MoreMembers(s, c).Some? && ps == [Pair(key, v)] + MoreMembers(s, c).value.0
    ensures MoreMembers(s, c).value.1 == e
  {
    k := SkipSpace(s, j);
    v, c := Value(s, k + 1).value.0, Value(s, k + 1).value.1;
  }

  lemma {:induction false} MembersCons(s: seq<Byte>, i: nat, p: nat, e: nat, m: Member, rest: seq<Member>, close: Byte)
    requires i <= p < e <= |s| && LegalMember(m) && LegalMembers(rest) && s[i..p] == SpellMember(m)
    requires if rest == [] then s[p..e] == [close] else s[p] == COMMA && s[p + 1..e] == SpellMembers(rest) + [close]
    ensures LegalMembers([m] + rest) && SpellMembers([m] + rest) + [close] == s[i..e]
    ensures MeanMembers([m] + rest) == [MeanMember(m)] + MeanMembers(rest)
  {
    if rest != [] { MembersSpelled(rest); }
    MembersFront(m, rest);
    MoreSpelled(s, p, e, SpellMembers(rest), close);
    Glue(s, i, p, e, SpellMember(m), More(SpellMembers(rest)), close);
  }

  lemma MembersFront(m: Member, rest: seq<Member>)
    requires LegalMember(m) && LegalMembers(rest)
    ensures LegalMembers([m] + rest) && SpellMembers([m] + rest) == SpellMember(m) + More(SpellMembers(rest))
    ensures MeanMembers([m] + rest) == [MeanMember(m)] + MeanMembers(rest)
  {
    assert ([m] + rest)[1..] == rest;
  }

  // ------------------------------------------------------------------ the theorem

  /** `s` spells `v`, with white space around it. */
  ghost predicate Spells(s: seq<Byte>, v: Json) { exists pre, x, post :: IsSpelling(s, v, pre, x, post) }

  ghost predicate IsSpelling(s: seq<Byte>, v: Json, pre: seq<Byte>, x: Syntax, post: seq<Byte>) {
    AllWs(pre) && Legal(x) && AllWs(post) && Mean(x) == v && s == pre + Spell(x) + post
  }

  /** The grammar reads a text as a value exactly if the text spells it. */
  lemma {:induction false} ReadsExactlySpellings(s: seq<Byte>, v: Json)
    ensures Document(s) == Some(v) <==> Spells(s, v)
  {
    if Spells(s, v) {
      var pre, x, post :| IsSpelling(s, v, pre, x, post);
      SpellingRead(s, pre, x, post, 0);
    }
    if Document(s) == Some(v) { TextFound(s, v, 0, Value(s, 0).value.1); }
  }

  lemma {:induction false} TextFound(s: seq<Byte>, v: Json, i: nat, e: nat)
    requires i == 0 && ValueAt(s, i, v, e) && e <= |s| && SkipsTo(s, e, |s|)
    ensures Spells(s, v)
  {
    var pre, x := ValueSpelled(s, i, v, e);
    WsSpelled(s, e, |s|);
    Whole(s, e, pre + Spell(x));
    assert IsSpelling(s, v, pre, x, s[e..|s|]);
  }

  lemma Whole(s: seq<Byte>, e: nat, t: seq<Byte>)
    requires e <= |s| && s[0..e] == t
    ensures s == t + s[e..|s|]
  {}

  lemma {:induction false} SpellingRead(s: seq<Byte>, pre: seq<Byte>, x: Syntax, post: seq<Byte>, i: nat)
    requires AllWs(pre) && Legal(x) && AllWs(post) && s == pre + Spell(x) + post && i == 0
    ensures Document(s) == Some(Mean(x))
  {
    var b, e := |pre|, |pre + Spell(x)|;
    assert At(s, b, Spell(x)) && At(s, i, pre) && At(s, e, post);
    FirstByte(x);
    assert s[b] == Spell(x)[0];
    if post != [] { assert s[e] == post[0]; }
    WsSkipped(s, i, pre, b);
    WsSkipped(s, e, post, |s|);
    ValueRead(s, b, x, Mean(x), e);
    WsThenValue(s, i, b, Mean(x), e);
    WholeText(s, Mean(x), e);
  }
}
