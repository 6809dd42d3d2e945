/** How written text looks: compact output is the shortest text for its tree, and
    pretty output is compact output with white space put in by one pass over its
    bytes. */
module JsonLayout {
  import opened Bytes
  import opened JsonGrammar
  import opened JsonTokens
  import opened JsonSyntax
  import opened JsonText

  // ------------------------------------------------------------ no shorter text

  lemma {:induction false} EscapedJoin(a: seq<Byte>, b: seq<Byte>)
    ensures Escaped(a + b) == Escaped(a) + Escaped(b)
    decreases |b|
  {
    if b == [] {
      assert a + b == a;
    } else {
      var n := |b| - 1;
      EscapedJoin(a, b[..n]);
      EscapedSnoc(a + b[..n], b[n]);
      assert a + b == (a + b[..n]) + [b[n]];
      Associative(Escaped(a), Escaped(b[..n]), EscapeByte(b[n]));
    }
  }

  /** Bytes from 0x80 on need no escape. */
  lemma {:induction false} HighBytes(t: seq<Byte>)
    requires forall k :: 0 <= k < |t| ==> t[k] >= 0x80
    ensures |Escaped(t)| == |t|
    decreases |t|
  {
    if t != [] { HighBytes(t[..|t| - 1]); }
  }

  lemma {:induction false} CharShort(c: Char)
    requires LegalChar(c)
    ensures |Escaped(MeanChar(c))| <= |SpellChar(c)|
  {
    var m := MeanChar(c);
    if |m| == 1 {
      assert m[..0] == [] && Escaped(m) == EscapeByte(m[0]);
    } else {
      HighBytes(m);
    }
  }

  lemma {:induction false} CharsShort(cs: seq<Char>)
    requires LegalChars(cs)
    ensures |Escaped(MeanChars(cs))| <= |SpellChars(cs)|
    decreases |cs|
  {
    if cs != [] {
      CharShort(cs[0]);
      CharsShort(cs[1..]);
      EscapedJoin(MeanChar(cs[0]), MeanChars(cs[1..]));
    }
  }

  /** There is one way to write a number without leading zeros. */
  lemma {:induction false} DigitsAre(d: seq<Byte>)
    requires d != [] && IsDigits(d) && (d[0] == 0x30 ==> |d| == 1)
    ensures Decimal(d) >= 0 && Digits(Decimal(d)) == d && (d[0] != 0x30 ==> Decimal(d) > 0)
    decreases |d|
  {
    var n := |d| - 1;
    if n == 0 {
      assert d[..0] == [] && Decimal([]) == 0;
    } else {
      DigitsAre(d[..n]);
      var r := d[n] - 0x30;
      assert Decimal(d) == 10 * Decimal(d[..n]) + r;
      TenTimes(Decimal(d[..n]), r);
    }
  }

  lemma TenTimes(n: nat, r: nat)
    requires r < 10
    ensures (10 * n + r) / 10 == n && (10 * n + r) % 10 == r
  {}

  lemma {:induction false} NumeralShort(n: Numeral, depth: nat, o: Options)
    requires LegalNumeral(n)
    ensures |Text(MeanNumeral(n), depth, o)| <= |SpellNumeral(n)|
  {
    DigitsAre(n.digits);
  }

  lemma {:induction false} ValueShort(x: Syntax, depth: nat, o: Options)
    requires Legal(x) && !o.pretty
    ensures |Text(Mean(x), depth, o)| <= |Spell(x)|
    decreases x
  {
    WordsAre();
    match x
    case Nil =>
    case Truth(_) =>
    case Count(n) => NumeralShort(n, depth, o);
    case Phrase(cs) => CharsShort(cs);
    case List(gap, items) => ListShort(gap, items, depth, o);
    case Record(gap, members) => RecordShort(gap, members, depth, o);
  }

  lemma {:induction false} ListShort(gap: seq<Byte>, items: seq<Item>, depth: nat, o: Options)
    requires Legal(List(gap, items)) && !o.pretty
    ensures |Text(Arr(MeanItems(items)), depth, o)| <= |Spell(List(gap, items))|
    decreases items, 1
  {
    ItemsShort(items, depth + 1, o);
    ContainerSize(LBRACKET, ItemTexts(MeanItems(items), depth + 1, o), depth, o, RBRACKET);
  }

  lemma {:induction false} RecordShort(gap: seq<Byte>, members: seq<Member>, depth: nat, o: Options)
    requires Legal(Record(gap, members)) && !o.pretty
    ensures |Text(Obj(MeanMembers(members)), depth, o)| <= |Spell(Record(gap, members))|
    decreases members, 1
  {
    MembersShort(members, depth + 1, o);
    ObjectSize(MeanMembers(members), depth, o);
    RecordSize(gap, members);
  }

  lemma ObjectSize(pairs: seq<Pair>, depth: nat, o: Options)
    requires !o.pretty
    ensures |Text(Obj(pairs), depth, o)| == 2 + |Joined(PairTexts(pairs, depth + 1, o), [])|
  {
    ContainerSize(LBRACE, PairTexts(pairs, depth + 1, o), depth, o, RBRACE);
  }

  lemma RecordSize(gap: seq<Byte>, members: seq<Member>)
    requires Legal(Record(gap, members))
    ensures |Spell(Record(gap, members))| == 2 + |gap| + |SpellMembers(members)|
  {}

  lemma ContainerSize(open: Byte, ts: seq<seq<Byte>>, depth: nat, o: Options, close: Byte)
    requires !o.pretty
    ensures |Container(open, ts, depth, o, close)| == 2 + |Joined(ts, [])|
  {}

  lemma {:induction false} ItemShort(it: Item, depth: nat, o: Options)
    requires LegalItem(it) && !o.pretty
    ensures |Text(MeanItem(it), depth, o)| <= |SpellItem(it)|
    decreases it
  {
    ValueShort(it.value, depth, o);
  }

  lemma {:induction false} ItemsShort(items: seq<Item>, depth: nat, o: Options)
    requires LegalItems(items) && !o.pretty
    ensures |Joined(ItemTexts(MeanItems(items), depth, o), [])| <= |SpellItems(items)|
    decreases items, 0
  {
    if items != [] {
      var ts := ItemTexts(MeanItems(items), depth, o);
      ItemShort(items[0], depth, o);
      ItemsShort(items[1..], depth, o);
      ItemsMeaning(items, ts, depth, o);
      JoinedShort(ts, SpellItem(items[0]), SpellItems(items[1..]));
    }
  }

  lemma {:induction false} ItemsMeaning(items: seq<Item>, ts: seq<seq<Byte>>, depth: nat, o: Options)
    requires LegalItems(items) && items != [] && ts == ItemTexts(MeanItems(items), depth, o)
    ensures |ts| > 0 && ts[0] == Text(MeanItem(items[0]), depth, o)
    ensures ts[1..] == ItemTexts(MeanItems(items[1..]), depth, o)
    ensures |ts| > 1 ==> SpellItems(items[1..]) != []
  {
    var vs := MeanItems(items);
    assert vs[0] == MeanItem(items[0]) && vs[1..] == MeanItems(items[1..]);
    if |ts| > 1 { ItemsSpelled(items[1..]); }
  }

  lemma {:induction false} MembersMeaning(members: seq<Member>, ts: seq<seq<Byte>>, depth: nat, o: Options)
    requires LegalMembers(members) && members != [] && ts == PairTexts(MeanMembers(members), depth, o)
    ensures |ts| > 0 && ts[1..] == PairTexts(MeanMembers(members[1..]), depth, o)
    ensures var p := MeanMember(members[0]); ts[0] == KeyText(p.key, o) + Text(p.value, depth, o)
    ensures |ts| > 1 ==> SpellMembers(members[1..]) != []
  {
    var ps := MeanMembers(members);
    assert ps[0] == MeanMember(members[0]) && ps[1..] == MeanMembers(members[1..]);
    if |ts| > 1 { MembersSpelled(members[1..]); }
  }

  lemma {:induction false} JoinedShort(ts: seq<seq<Byte>>, first: seq<Byte>, rest: seq<Byte>)
    requires ts != [] && |ts[0]| <= |first| && |Joined(ts[1..], [])| <= |rest| && (|ts| > 1 ==> rest != [])
    ensures |Joined(ts, [])| <= |first + More(rest)|
  {
    JoinedFront(ts, []);
  }

  lemma {:induction false} MembersShort(members: seq<Member>, depth: nat, o: Options)
    requires LegalMembers(members) && !o.pretty
    ensures |Joined(PairTexts(MeanMembers(members), depth, o), [])| <= |SpellMembers(members)|
    decreases members, 0
  {
    if members != [] {
      var ts := PairTexts(MeanMembers(members), depth, o);
      MemberShort(members[0], depth, o);
      MembersShort(members[1..], depth, o);
      MembersMeaning(members, ts, depth, o);
      JoinedShort(ts, SpellMember(members[0]), SpellMembers(members[1..]));
    }
  }

  lemma {:induction false} MemberShort(m: Member, depth: nat, o: Options)
    requires LegalMember(m) && !o.pretty
    ensures |KeyText(MeanMember(m).key, o) + Text(MeanMember(m).value, depth, o)| <= |SpellMember(m)|
    decreases m
  {
    CharsShort(m.key);
    ItemShort(m.item, depth, o);
  }

  /** No text that reads as the tree is shorter than its compact text. */
  lemma {:induction false} CompactIsShortest(s: seq<Byte>, v: Json, o: Options)
    requires Document(s) == Some(v) && !o.pretty
    ensures |Text(v, 0, o)| <= |s|
  {
    ReadsExactlySpellings(s, v);
    var pre, x, post :| IsSpelling(s, v, pre, x, post);
    ValueShort(x, 0, o);
  }

  // ------------------------------------------------------- white space put in

  datatype Mode = Outside | Inside | Behind

  /** Where a pass over a text stands: how many containers are open, whether it is
      outside strings, inside one, or behind a backslash, whether the last byte
      opened a container, and how much white space it met outside strings. */
  datatype State = State(depth: nat, mode: Mode, entered: bool, blanks: nat)

  /** A line break and the indentation of a depth. */
  function Line(depth: nat, indent: U32): seq<Byte> { [0x0A] + Spaces(depth * indent % TWO32) }

  predicate IsOpen(c: Byte) { c == 0x5B || c == 0x7B }
  predicate IsClose(c: Byte) { c == 0x5D || c == 0x7D }

  /** What becomes of one byte.  Inside strings nothing is put in.  Outside, a new
      line comes behind an opening byte, unless the closing one follows, behind a
      comma, and before a closing byte; and a space behind a colon. */
  function Step(st: State, c: Byte, indent: U32): (State, seq<Byte>) {
    match st.mode
    case Behind => (st.(mode := Inside), [c])
    case Inside => (st.(mode := if c == 0x5C then Behind else if c == 0x22 then Outside else Inside), [c])
    case Outside =>
      var before := if st.entered && !IsClose(c) then Line(st.depth, indent) else [];
      var next := st.(entered := false);
      if IsClose(c) then
        var up := if st.depth > 0 then st.depth - 1 else 0;
        (next.(depth := up), (if st.entered then [] else Line(up, indent)) + [c])
      else if IsOpen(c) then (next.(depth := st.depth + 1, entered := true), before + [c])
      else if c == 0x22 then (next.(mode := Inside), before + [c])
      else if c == 0x2C then (next, before + [c] + Line(st.depth, indent))
      else if c == 0x3A then (next, before + [c] + [0x20])
      else (next.(blanks := st.blanks + if IsWs(c) then 1 else 0), before + [c])
  }

  /** The whole pass. */
  function Spread(st: State, t: seq<Byte>, indent: U32): (State, seq<Byte>)
    decreases |t|
  {
    if t == [] then (st, [])
    else
      var (next, out) := Step(st, t[0], indent);
      var (last, rest) := Spread(next, t[1..], indent);
      (last, out + rest)
  }

  ghost predicate Spreads(st: State, t: seq<Byte>, indent: U32, last: State, out: seq<Byte>) {
    Spread(st, t, indent) == (last, out)
  }

  lemma {:induction false} SpreadJoin(a: State, s: seq<Byte>, b: State, t: seq<Byte>, c: State, indent: U32,
                                      out: seq<Byte>, more: seq<Byte>)
    requires Spreads(a, s, indent, b, out) && Spreads(b, t, indent, c, more)
    ensures Spreads(a, s + t, indent, c, out + more)
    decreases |s|
  {
    if s == [] {
      assert s + t == t && out + more == more;
    } else {
      var (next, o) := Step(a, s[0], indent);
      var (_, rest) := Spread(next, s[1..], indent);
      SpreadJoin(next, s[1..], b, t, c, indent, rest, more);
      assert (s + t)[0] == s[0] && (s + t)[1..] == s[1..] + t;
      Associative(o, rest, more);
    }
  }

  lemma SpreadOne(st: State, c: Byte, indent: U32)
    ensures Spreads(st, [c], indent, Step(st, c, indent).0, Step(st, c, indent).1)
  {
    var (next, out) := Step(st, c, indent);
    assert [c][1..] == [] && Spread(next, [], indent) == (next, []) && out + [] == out;
  }

  // ------------------------------------------------------------------ strings

  lemma {:induction false} EscapeSpread(st: State, c: Byte, indent: U32)
    requires st.mode == Inside
    ensures Spreads(st, EscapeByte(c), indent, st, EscapeByte(c))
  {
    var e, b := EscapeByte(c), st.(mode := Behind);
    SpreadOne(st, e[0], indent);
    if |e| == 1 {
      assert e == [e[0]];
    } else {
      SpreadOne(b, e[1], indent);
      SpreadJoin(st, [e[0]], b, [e[1]], st, indent, [e[0]], [e[1]]);
      assert [e[0]] + [e[1]] == e[..2];
      if |e| == 6 {
        PlainInside(st, e[2..], indent);
        SpreadJoin(st, e[..2], st, e[2..], st, indent, e[..2], e[2..]);
        assert e[..2] + e[2..] == e;
      } else {
        assert e[..2] == e;
      }
    }
  }

  lemma {:induction false} PlainInside(st: State, t: seq<Byte>, indent: U32)
    requires st.mode == Inside && forall k :: 0 <= k < |t| ==> t[k] != 0x22 && t[k] != 0x5C
    ensures Spreads(st, t, indent, st, t)
    decreases |t|
  {
    if t != [] {
      SpreadOne(st, t[0], indent);
      PlainInside(st, t[1..], indent);
      SpreadJoin(st, [t[0]], st, t[1..], st, indent, [t[0]], t[1..]);
      assert [t[0]] + t[1..] == t;
    }
  }

  lemma {:induction false} EscapedSpread(st: State, t: seq<Byte>, indent: U32)
    requires st.mode == Inside
    ensures Spreads(st, Escaped(t), indent, st, Escaped(t))
    decreases |t|
  {
    if t != [] {
      var n := |t| - 1;
      EscapedSpread(st, t[..n], indent);
      EscapeSpread(st, t[n], indent);
      SpreadJoin(st, Escaped(t[..n]), st, EscapeByte(t[n]), st, indent, Escaped(t[..n]), EscapeByte(t[n]));
    }
  }

  /** What comes before the first byte of a value. */
  function Before(st: State, indent: U32): seq<Byte> { if st.entered then Line(st.depth, indent) else [] }

  /** Read outside strings, `t` becomes `u` and changes nothing else. */
  ghost predicate Becomes(st: State, t: seq<Byte>, u: seq<Byte>, indent: U32) {
    Spreads(st, t, indent, st.(entered := false), Before(st, indent) + u)
  }

  lemma {:induction false} QuotedSpread(st: State, t: seq<Byte>, indent: U32)
    requires st.mode == Outside
    ensures Becomes(st, Quoted(t), Quoted(t), indent)
  {
    var a, b, pre, e := st.(entered := false, mode := Inside), st.(entered := false), Before(st, indent), Escaped(t);
    SpreadOne(st, 0x22, indent);
    EscapedSpread(a, t, indent);
    SpreadOne(a, 0x22, indent);
    SpreadJoin(st, [0x22], a, e, a, indent, pre + [0x22], e);
    SpreadJoin(st, [0x22] + e, a, [0x22], b, indent, pre + [0x22] + e, [0x22]);
    Grouped(pre, [0x22], e, [0x22]);
  }

  lemma Grouped(a: seq<Byte>, b: seq<Byte>, c: seq<Byte>, d: seq<Byte>)
    ensures a + b + c + d == a + (b + c + d)
  {}

  // ------------------------------------------------------------------ scalars

  predicate Ordinary(c: Byte) { !IsOpen(c) && !IsClose(c) && c != 0x22 && c != 0x2C && c != 0x3A && !IsWs(c) }

  lemma {:induction false} OrdinarySpread(st: State, t: seq<Byte>, indent: U32)
    requires st.mode == Outside && t != [] && forall k :: 0 <= k < |t| ==> Ordinary(t[k])
    ensures Becomes(st, t, t, indent)
    decreases |t|
  {
    SpreadOne(st, t[0], indent);
    if |t| == 1 {
      assert t == [t[0]];
    } else {
      OrdinarySpread(st.(entered := false), t[1..], indent);
      PlainJoin(st, [t[0]], t[1..], indent);
      assert [t[0]] + t[1..] == t;
    }
  }

  lemma {:induction false} PlainJoin(st: State, s: seq<Byte>, t: seq<Byte>, indent: U32)
    requires st.mode == Outside && Becomes(st, s, s, indent) && Becomes(st.(entered := false), t, t, indent)
    ensures Becomes(st, s + t, s + t, indent)
  {
    var b, pre := st.(entered := false), Before(st, indent);
    assert [] + t == t;
    SpreadJoin(st, s, b, t, b, indent, pre + s, t);
    Associative(pre, s, t);
  }

  lemma {:induction false} DigitsOrdinary(n: nat)
    ensures forall k :: 0 <= k < |Digits(n)| ==> Ordinary(Digits(n)[k])
  {
    DigitsRead(n);
  }

  lemma {:induction false} ScalarOrdinary(v: Json, depth: nat, o: Options)
    requires v.Null? || v.Bool? || v.Int?
    ensures var t := Text(v, depth, o); t != [] && forall k :: 0 <= k < |t| ==> Ordinary(t[k])
  {
    if v.Int? { DigitsOrdinary(if v.i < 0 then -v.i else v.i); }
  }

  // ---------------------------------------------------------------- containers

  /** Wherever it is read at this depth, `t` becomes `u`. */
  ghost predicate Turns(t: seq<Byte>, u: seq<Byte>, depth: nat, indent: U32) {
    forall st: State :: st.mode == Outside && st.depth == depth ==> Becomes(st, t, u, indent)
  }

  /** Entries, a comma and a new line between them. */
  function Linked(us: seq<seq<Byte>>, line: seq<Byte>): seq<Byte>
    requires us != []
  {
    us[0] + if |us| == 1 then [] else [0x2C] + line + Linked(us[1..], line)
  }

  lemma {:induction false} LinkedIsJoined(us: seq<seq<Byte>>, line: seq<Byte>)
    requires us != []
    ensures Joined(us, line) == line + Linked(us, line)
    decreases |us|
  {
    JoinedFront(us, line);
    if |us| == 1 {
      Associative(line, us[0], []);
    } else {
      LinkedIsJoined(us[1..], line);
      Reassociate(line, us[0], Linked(us[1..], line));
    }
  }

  lemma Reassociate(line: seq<Byte>, u: seq<Byte>, rest: seq<Byte>)
    ensures line + u + ([COMMA] + (line + rest)) == line + (u + ([0x2C] + line + rest))
  {}

  ghost predicate EachTurns(ts: seq<seq<Byte>>, us: seq<seq<Byte>>, depth: nat, indent: U32)
    decreases |ts|
  {
    && |ts| == |us|
    && (ts == [] || (Turns(ts[0], us[0], depth, indent) && EachTurns(ts[1..], us[1..], depth, indent)))
  }

  lemma {:induction false} EachOf(ts: seq<seq<Byte>>, us: seq<seq<Byte>>, depth: nat, indent: U32)
    requires |ts| == |us| && forall k :: 0 <= k < |ts| ==> Turns(ts[k], us[k], depth, indent)
    ensures EachTurns(ts, us, depth, indent)
    decreases |ts|
  {
    if ts != [] {
      forall k | 0 <= k < |ts| - 1 ensures Turns(ts[1..][k], us[1..][k], depth, indent) {
        assert Turns(ts[k + 1], us[k + 1], depth, indent);
      }
      EachOf(ts[1..], us[1..], depth, indent);
    }
  }

  lemma {:induction false} JoinedSpread(st: State, ts: seq<seq<Byte>>, us: seq<seq<Byte>>, indent: U32)
    requires st.mode == Outside && ts != [] && EachTurns(ts, us, st.depth, indent)
    ensures Becomes(st, Joined(ts, []), Linked(us, Line(st.depth, indent)), indent)
    decreases |ts|
  {
    FirstTurns(st, ts, us, indent);
    CompactFront(ts);
    if |ts| == 1 {
      assert us[0] + [] == us[0];
    } else {
      var b, line := st.(entered := false), Line(st.depth, indent);
      JoinedSpread(b, ts[1..], us[1..], indent);
      CommaSpread(st, ts[0], us[0], Joined(ts[1..], []), Linked(us[1..], line), indent);
    }
  }

  lemma FirstTurns(st: State, ts: seq<seq<Byte>>, us: seq<seq<Byte>>, indent: U32)
    requires st.mode == Outside && ts != [] && EachTurns(ts, us, st.depth, indent)
    ensures |ts| == |us| && Becomes(st, ts[0], us[0], indent) && EachTurns(ts[1..], us[1..], st.depth, indent)
  {}

  lemma {:induction false} CompactFront(ts: seq<seq<Byte>>)
    requires ts != []
    ensures |ts| == 1 ==> Joined(ts, []) == ts[0]
    ensures |ts| > 1 ==> Joined(ts, []) == ts[0] + ([COMMA] + Joined(ts[1..], []))
  {
    JoinedFront(ts, []);
  }

  lemma {:induction false} CommaSpread(st: State, t: seq<Byte>, u: seq<Byte>, more: seq<Byte>, out: seq<Byte>,
                                       indent: U32)
    requires st.mode == Outside && Becomes(st, t, u, indent) && Becomes(st.(entered := false), more, out, indent)
    ensures Becomes(st, t + ([COMMA] + more), u + ([0x2C] + Line(st.depth, indent) + out), indent)
  {
    var b, pre, line := st.(entered := false), Before(st, indent), Line(st.depth, indent);
    SpreadOne(b, 0x2C, indent);
    assert [] + out == out && [] + [0x2C] + line == [0x2C] + line;
    SpreadJoin(b, [0x2C], b, more, b, indent, [0x2C] + line, out);
    SpreadJoin(st, t, b, [0x2C] + more, b, indent, pre + u, [0x2C] + line + out);
    Associative(pre, u, [0x2C] + line + out);
  }

  lemma {:induction false} ContainerSpread(st: State, open: Byte, ts: seq<seq<Byte>>, us: seq<seq<Byte>>, close: Byte,
                                           indent: U32, end: seq<Byte>, t: seq<Byte>, u: seq<Byte>)
    requires st.mode == Outside && IsOpen(open) && IsClose(close) && EachTurns(ts, us, st.depth + 1, indent)
    requires end == (if us == [] then [] else Line(st.depth, indent)) && t == [open] + Joined(ts, []) + [] + [close]
    requires u == [open] + Joined(us, Line(st.depth + 1, indent)) + end + [close]
    ensures Becomes(st, t, u, indent)
  {
    var a, b, pre := st.(depth := st.depth + 1, entered := true), st.(entered := false), Before(st, indent);
    SpreadOne(st, open, indent);
    if ts == [] {
      SpreadOne(a, close, indent);
      assert [] + [close] == [close];
      SpreadJoin(st, [open], a, [close], b, indent, pre + [open], [close]);
      assert [open] + [] + [] + [close] == [open] + [close] && pre + [open] + [close] == pre + ([open] + [close]);
    } else {
      var c, body, line := a.(entered := false), Joined(us, Line(a.depth, indent)), Line(st.depth, indent);
      JoinedSpread(a, ts, us, indent);
      LinkedIsJoined(us, Line(a.depth, indent));
      SpreadOne(c, close, indent);
      SpreadJoin(a, Joined(ts, []), c, [close], b, indent, body, line + [close]);
      SpreadJoin(st, [open], a, Joined(ts, []) + [close], b, indent, pre + [open], body + (line + [close]));
      Surrounded(pre, open, Joined(ts, []), body, line, close);
    }
  }

  lemma Surrounded(pre: seq<Byte>, open: Byte, t: seq<Byte>, body: seq<Byte>, line: seq<Byte>, close: Byte)
    ensures [open] + (t + [close]) == [open] + t + [] + [close]
    ensures pre + [open] + (body + (line + [close])) == pre + ([open] + body + line + [close])
  {}

  lemma {:induction false} MemberSpread(key: seq<Byte>, t: seq<Byte>, u: seq<Byte>, depth: nat, o: Options, p: Options)
    requires !o.pretty && p.pretty && Turns(t, u, depth, p.indent)
    ensures Turns(KeyText(key, o) + t, KeyText(key, p) + u, depth, p.indent)
  {
    forall st: State | st.mode == Outside && st.depth == depth
      ensures Becomes(st, KeyText(key, o) + t, KeyText(key, p) + u, p.indent)
    {
      MemberSpreads(st, Quoted(key), t, u, p.indent) by { QuotedSpread(st, key, p.indent); }
      assert Quoted(key) + [COLON] + [] + t == Quoted(key) + ([COLON] + t);
      assert Quoted(key) + [COLON] + [0x20] + u == Quoted(key) + ([0x3A, 0x20] + u);
    }
  }

  lemma {:induction false} MemberSpreads(st: State, q: seq<Byte>, t: seq<Byte>, u: seq<Byte>, indent: U32)
    requires st.mode == Outside && Becomes(st, q, q, indent) && Turns(t, u, st.depth, indent)
    ensures Becomes(st, q + ([COLON] + t), q + ([0x3A, 0x20] + u), indent)
  {
    var b, pre := st.(entered := false), Before(st, indent);
    SpreadOne(b, 0x3A, indent);
    assert [] + [0x3A] + [0x20] == [0x3A, 0x20];
    assert Becomes(b, t, u, indent) && [] + u == u;
    SpreadJoin(b, [0x3A], b, t, b, indent, [0x3A, 0x20], u);
    SpreadJoin(st, q, b, [0x3A] + t, b, indent, pre + q, [0x3A, 0x20] + u);
    Associative(pre, q, [0x3A, 0x20] + u);
  }

  /** Compact text becomes pretty text, at every depth. */
  lemma {:induction false} TextSpread(v: Json, depth: nat, o: Options, p: Options)
    requires FloatFree(v) && !o.pretty && p.pretty
    ensures Turns(Text(v, depth, o), Text(v, depth, p), depth, p.indent)
    decreases v
  {
    match v
    case Str(t) =>
      forall st: State | st.mode == Outside ensures Becomes(st, Quoted(t), Quoted(t), p.indent) {
        QuotedSpread(st, t, p.indent);
      }
    case Arr(items) =>
      var ts, us := ItemTexts(items, depth + 1, o), ItemTexts(items, depth + 1, p);
      forall k | 0 <= k < |items| ensures Turns(ts[k], us[k], depth + 1, p.indent) {
        TextSpread(items[k], depth + 1, o, p);
      }
      ContainerTurns(LBRACKET, ts, us, depth, o, p, RBRACKET);
    case Obj(pairs) =>
      var ts, us := PairTexts(pairs, depth + 1, o), PairTexts(pairs, depth + 1, p);
      forall k | 0 <= k < |pairs| ensures Turns(ts[k], us[k], depth + 1, p.indent) {
        var x := pairs[k].value;
        TextSpread(x, depth + 1, o, p);
        MemberSpread(pairs[k].key, Text(x, depth + 1, o), Text(x, depth + 1, p), depth + 1, o, p);
      }
      ContainerTurns(LBRACE, ts, us, depth, o, p, RBRACE);
    case Null => ScalarTurns(v, depth, o, p);
    case Bool(_) => ScalarTurns(v, depth, o, p);
    case Int(_) => ScalarTurns(v, depth, o, p);
    case Real(_) =>
  }

  lemma {:induction false} ScalarTurns(v: Json, depth: nat, o: Options, p: Options)
    requires v.Null? || v.Bool? || v.Int?
    ensures Turns(Text(v, depth, o), Text(v, depth, p), depth, p.indent)
  {
    var t := Text(v, depth, o);
    ScalarOrdinary(v, depth, o);
    forall st: State | st.mode == Outside && st.depth == depth ensures Becomes(st, t, t, p.indent) {
      OrdinarySpread(st, t, p.indent);
    }
  }

  lemma {:induction false} ContainerTurns(open: Byte, ts: seq<seq<Byte>>, us: seq<seq<Byte>>, depth: nat, o: Options,
                                          p: Options, close: Byte)
    requires !o.pretty && p.pretty && |ts| == |us| && IsOpen(open) && IsClose(close)
    requires forall k :: 0 <= k < |ts| ==> Turns(ts[k], us[k], depth + 1, p.indent)
    ensures Turns(Container(open, ts, depth, o, close), Container(open, us, depth, p, close), depth, p.indent)
  {
    EachOf(ts, us, depth + 1, p.indent);
    BreakIsLine(depth, p);
    BreakIsLine(depth + 1, p);
    BracketsTurn(open, ts, us, depth, p.indent, close, if us == [] then [] else Line(depth, p.indent));
  }

  lemma {:induction false} BracketsTurn(open: Byte, ts: seq<seq<Byte>>, us: seq<seq<Byte>>, depth: nat, indent: U32,
                                        close: Byte, end: seq<Byte>)
    requires IsOpen(open) && IsClose(close) && EachTurns(ts, us, depth + 1, indent)
    requires end == if us == [] then [] else Line(depth, indent)
    ensures Turns([open] + Joined(ts, []) + [] + [close],
                  [open] + Joined(us, Line(depth + 1, indent)) + end + [close], depth, indent)
  {
    var t, u := [open] + Joined(ts, []) + [] + [close], [open] + Joined(us, Line(depth + 1, indent)) + end + [close];
    forall st: State | st.mode == Outside && st.depth == depth ensures Becomes(st, t, u, indent) {
      ContainerSpread(st, open, ts, us, close, indent, end, t, u);
    }
  }

  lemma {:induction false} BreakIsLine(depth: nat, p: Options)
    requires p.pretty
    ensures Break(depth, p) == Line(depth, p.indent)
  {
    WidthIsProduct(depth, p.indent);
  }

  /** The pass over compact text puts out the pretty text, comes back to where it
      began, and meets no white space outside strings. */
  lemma {:induction false} PrettyIsSpread(v: Json, o: Options, indent: U32)
    requires FloatFree(v) && !o.pretty
    ensures Spread(State(0, Outside, false, 0), Text(v, 0, o), indent)
         == (State(0, Outside, false, 0), Text(v, 0, Options(true, indent)))
  {
    TextSpread(v, 0, o, Options(true, indent));
    var st := State(0, Outside, false, 0);
    var out := Text(v, 0, Options(true, indent));
    assert Becomes(st, Text(v, 0, o), out, indent) && [] + out == out;
  }
}
