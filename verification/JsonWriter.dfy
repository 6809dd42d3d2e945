/** `json_write` and its put functions, measuring or into a bounded buffer,
    against the reference text. */
module JsonWriter {
  import opened Bytes
  import opened JsonGrammar
  import opened JsonText
  import opened JsonScan

  // ------------------------------------------------------------- arithmetic

  lemma {:induction false} DigitsBound(n: nat, k: nat)
    requires n < Pow10(k) && k >= 1
    ensures |Digits(n)| <= k
  {
    assert Pow10(k) == 10 * Pow10(k - 1);
    if n < 10 {
    } else {
      DigitsBound(n / 10, k - 1);
    }
  }

  function Reversed(d: seq<Byte>): (r: seq<Byte>)
    ensures |r| == |d| && forall k :: 0 <= k < |d| ==> r[k] == d[|d| - 1 - k]
  {
    if d == [] then [] else [d[|d| - 1]] + Reversed(d[..|d| - 1])
  }

  /** The digits of `n`, of which zero has none. */
  function Leading(n: nat): seq<Byte> { if n == 0 then [] else Digits(n) }

  lemma {:induction false} TakeDigit(n: nat, tail: seq<Byte>)
    requires n > 0
    ensures Leading(n) + tail == Leading(n / 10) + ([ZERO + n % 10] + tail)
  {
    Associative(Leading(n / 10), [ZERO + n % 10], tail);
  }

  // ----------------------------------------------------------------- joining

  function Comma(due: bool): seq<Byte> { if due then [COMMA] else [] }

  lemma {:induction false} JoinedNext(ts: seq<seq<Byte>>, i: nat, brk: seq<Byte>)
    requires i < |ts|
    ensures Joined(ts[..i + 1], brk) == Joined(ts[..i], brk) + Comma(i > 0) + brk + ts[i]
  {
    assert ts[..i + 1][..i] == ts[..i];
  }

  lemma {:induction false} JoinedPrefix(ts: seq<seq<Byte>>, i: nat, brk: seq<Byte>)
    requires i <= |ts|
    ensures Joined(ts[..i], brk) <= Joined(ts, brk)
    decreases |ts| - i
  {
    if i == |ts| {
      assert ts[..i] == ts;
    } else {
      JoinedNext(ts, i, brk);
      JoinedPrefix(ts, i + 1, brk);
    }
  }

  /** Behind `base` the first `i` entries stand, and a comma if more follow. */
  ghost predicate Spelled(asked: seq<Byte>, base: seq<Byte>, ts: seq<seq<Byte>>, i: nat, brk: seq<Byte>) {
    i <= |ts| && asked == base + Joined(ts[..i], brk) + Comma(0 < i < |ts|)
  }

  lemma {:induction false} EntryAppended(asked: seq<Byte>, base: seq<Byte>, ts: seq<seq<Byte>>, i: nat, brk: seq<Byte>)
    requires i < |ts| && Spelled(asked, base, ts, i, brk)
    ensures Spelled(asked + (brk + ts[i]) + Comma(i + 1 < |ts|), base, ts, i + 1, brk)
    ensures asked + (brk + ts[i]) <= base + Joined(ts, brk)
  {
    Regroup(base, Joined(ts[..i], brk), Comma(i > 0), brk, ts[i]);
    JoinedNext(ts, i, brk);
    JoinedPrefix(ts, i + 1, brk);
  }

  lemma {:induction false} AllSpelled(asked: seq<Byte>, base: seq<Byte>, ts: seq<seq<Byte>>, brk: seq<Byte>)
    requires Spelled(asked, base, ts, |ts|, brk)
    ensures asked == base + Joined(ts, brk)
  {
    assert ts[..|ts|] == ts;
  }

  lemma Regroup(base: seq<Byte>, joined: seq<Byte>, comma: seq<Byte>, brk: seq<Byte>, t: seq<Byte>)
    ensures base + joined + comma + (brk + t) == base + (joined + comma + brk + t)
  {}

  lemma KeyAppended(base: seq<Byte>, content: seq<Byte>, gap: seq<Byte>)
    ensures base + [QUOTE] + content + [QUOTE] + [COLON] + gap == base + ([QUOTE] + content + [QUOTE] + [COLON] + gap)
    ensures base + [QUOTE] + content + [QUOTE] == base + ([QUOTE] + content + [QUOTE])
    ensures base + [QUOTE] <= base + ([QUOTE] + content + [QUOTE])
    ensures base + [QUOTE] + content <= base + ([QUOTE] + content + [QUOTE])
  {}

  function Ending(empty: bool, depth: nat, o: Options): seq<Byte> { if empty then [] else Break(depth, o) }

  lemma ContainerAppended(base: seq<Byte>, open: seq<Byte>, joined: seq<Byte>, end: seq<Byte>, close: seq<Byte>)
    ensures base + open + joined + (end + close) == base + (open + joined + end + close)
    ensures base + open <= base + (open + joined + end + close)
    ensures base + open + joined <= base + (open + joined + end + close)
  {}

  /** Texts of array entries, and of the members of an object. */
  ghost predicate SpellsItems(ts: seq<seq<Byte>>, items: seq<Json>, depth: nat, o: Options)
    decreases |ts|
  {
    && |ts| == |items|
    && (ts == [] ||
        var n := |ts| - 1;
        && SpellsItems(ts[..n], items[..n], depth, o)
        && FloatFree(items[n]) && ts[n] == Text(items[n], depth, o))
  }

  ghost predicate SpellsMembers(ts: seq<seq<Byte>>, pairs: seq<Pair>, depth: nat, o: Options)
    decreases |ts|
  {
    && |ts| == |pairs|
    && (ts == [] ||
        var n := |ts| - 1;
        && SpellsMembers(ts[..n], pairs[..n], depth, o)
        && FloatFree(pairs[n].value) && ts[n] == KeyText(pairs[n].key, o) + Text(pairs[n].value, depth, o))
  }

  lemma {:induction false} ItemsSpelled(ts: seq<seq<Byte>>, items: seq<Json>, depth: nat, o: Options)
    requires |ts| == |items|
    requires forall k :: 0 <= k < |items| ==> FloatFree(items[k]) && ts[k] == Text(items[k], depth, o)
    ensures SpellsItems(ts, items, depth, o)
    decreases |ts|
  {
    if ts == [] {
    } else {
      ItemsSpelled(ts[..|ts| - 1], items[..|ts| - 1], depth, o);
    }
  }

  lemma {:induction false} MembersSpelled(ts: seq<seq<Byte>>, pairs: seq<Pair>, depth: nat, o: Options)
    requires |ts| == |pairs|
    requires forall k :: 0 <= k < |pairs| ==>
      FloatFree(pairs[k].value) && ts[k] == KeyText(pairs[k].key, o) + Text(pairs[k].value, depth, o)
    ensures SpellsMembers(ts, pairs, depth, o)
    decreases |ts|
  {
    if ts == [] {
    } else {
      MembersSpelled(ts[..|ts| - 1], pairs[..|ts| - 1], depth, o);
    }
  }

  lemma {:induction false} ItemSpelled(ts: seq<seq<Byte>>, items: seq<Json>, depth: nat, o: Options, k: nat)
    requires SpellsItems(ts, items, depth, o) && k < |ts|
    ensures FloatFree(items[k]) && ts[k] == Text(items[k], depth, o)
    decreases |ts|
  {
    if k == |ts| - 1 {
    } else {
      ItemSpelled(ts[..|ts| - 1], items[..|ts| - 1], depth, o, k);
    }
  }

  lemma {:induction false} MemberSpelled(ts: seq<seq<Byte>>, pairs: seq<Pair>, depth: nat, o: Options, k: nat)
    requires SpellsMembers(ts, pairs, depth, o) && k < |ts|
    ensures FloatFree(pairs[k].value) && ts[k] == KeyText(pairs[k].key, o) + Text(pairs[k].value, depth, o)
    decreases |ts|
  {
    if k == |ts| - 1 {
    } else {
      MemberSpelled(ts[..|ts| - 1], pairs[..|ts| - 1], depth, o, k);
    }
  }

  // ------------------------------------------------------------------ writer

  class Writer {
    /** Null when measuring. */
    const buf: array?<Byte>
    var used: nat
    var failed: bool
    /** Everything asked to be written so far, whether it found room or not. */
    ghost var asked: seq<Byte>

    /** The buffer holds what was asked for, as far as it goes; one byte is kept
        for the terminator; and a failure, once recorded, stays. */
    ghost predicate Valid()
      reads this, buf
    {
      && failed == !Room()
      && if buf == null then used == |asked|
         else buf.Length >= 1 && used == Min(|asked|, buf.Length - 1) && buf[..used] == asked[..used]
    }

    ghost predicate Room()
      reads this
    {
      buf == null || |asked| < buf.Length
    }

    constructor (buf: array?<Byte>)
      requires buf != null ==> buf.Length >= 1
      ensures Valid() && asked == [] && this.buf == buf
    {
      this.buf, used, failed, asked := buf, 0, false, [];
    }

    /** Once there is no room, text counts as asked for without being offered:
        nothing more would be stored. */
    ghost method SkipTo(goal: seq<Byte>)
      requires Valid() && !Room() && asked <= goal
      modifies this`asked
      ensures Valid() && !Room() && asked == goal
    {
      asked := goal;
    }

    method Put(c: Byte) returns (ok: bool)
      requires Valid()
      modifies this, buf
      ensures Valid() && asked == old(asked) + [c] && ok == Room()
    {
      asked := asked + [c];
      if buf == null {
        used := used + 1;
        return true;
      }
      if used >= buf.Length - 1 {
        failed := true;
        return false;
      }
      buf[used] := c;
      used := used + 1;
      return true;
    }

    method Puts(t: seq<Byte>) returns (ok: bool)
      requires Valid() && t != []
      modifies this, buf
      ensures Valid() && asked == old(asked) + t && ok == Room()
    {
      if buf == null {
        used, asked := used + |t|, asked + t;
        return true;
      }
      ghost var goal := asked + t;
      var i := 0;
      while i < |t|
        invariant i <= |t| && Valid() && asked == old(asked) + t[..i] && (i > 0 ==> Room())
      {
        ok := Put(t[i]);
        i := i + 1;
        if !ok {
          SkipTo(goal);
          return;
        }
      }
      return true;
    }

    method Indent(depth: nat, indent: U32)
      requires Valid()
      modifies this, buf
      ensures Valid() && asked == old(asked) + Spaces(Width(depth, indent))
    {
      WidthIsProduct(depth, indent);
      ghost var goal := asked + Spaces(Width(depth, indent));
      var i, n := 0, depth * indent % TWO32;
      while i < n
        invariant i <= n && Valid() && asked == old(asked) + Spaces(i)
      {
        var ok := Put(0x20);
        i := i + 1;
        assert Spaces(i) == Spaces(i - 1) + [0x20];
        if !ok {
          SkipTo(goal);
          return;
        }
      }
    }

    method Break(depth: nat, o: Options)
      requires Valid()
      modifies this, buf
      ensures Valid() && asked == old(asked) + JsonText.Break(depth, o)
    {
      if o.pretty {
        var _ := Put(0x0A);
        Indent(depth, o.indent);
      }
    }

    method Int64(v: int) returns (ok: bool)
      requires Valid() && InInt64(v)
      modifies this, buf
      ensures Valid() && asked == old(asked) + IntText(v) && ok == Room()
    {
      var n: nat := if v < 0 then -v else v;
      ghost var goal := asked + IntText(v);
      if v < 0 {
        ok := Put(MINUS);
        if !ok {
          SkipTo(goal);
          return;
        }
      }
      assert asked + Digits(n) == goal;
      ok := Natural(n);
    }

    method Natural(n: nat) returns (ok: bool)
      requires Valid() && n <= 0x8000_0000_0000_0000
      modifies this, buf
      ensures Valid() && asked == old(asked) + Digits(n) && ok == Room()
    {
      if n == 0 {
        ok := Put(ZERO);
        return;
      }
      var tmp, len := DivideOut(n);
      ok := PutBackward(tmp, len);
    }

    method StringContent(t: seq<Byte>) returns (ok: bool)
      requires Valid()
      modifies this, buf
      ensures Valid() && asked == old(asked) + Escaped(t) && ok == Room()
    {
      var i := 0;
      while i < |t|
        invariant i <= |t| && Valid() && asked == old(asked) + Escaped(t[..i])
      {
        var c := t[i];
        assert t[..i + 1] == t[..i] + [c];
        EscapedSnoc(t[..i], c);
        Associative(old(asked), Escaped(t[..i]), EscapeByte(c));
        var _ := Character(c);
        i := i + 1;
      }
      assert t[..i] == t;
      ok := !failed;
    }

    method Character(c: Byte) returns (ok: bool)
      requires Valid()
      modifies this, buf
      ensures Valid() && asked == old(asked) + EscapeByte(c)
    {
      if c < 0x20 || c == QUOTE || c == BACKSLASH {
        if c == QUOTE { ok := Puts([BACKSLASH, QUOTE]); }
        else if c == BACKSLASH { ok := Puts([BACKSLASH, BACKSLASH]); }
        else if c == 0x0A { ok := Puts([BACKSLASH, 0x6E]); }
        else if c == 0x0D { ok := Puts([BACKSLASH, 0x72]); }
        else if c == 0x09 { ok := Puts([BACKSLASH, 0x74]); }
        else if c == 0x08 { ok := Puts([BACKSLASH, 0x62]); }
        else if c == 0x0C { ok := Puts([BACKSLASH, 0x66]); }
        else { ok := Puts([BACKSLASH, 0x75, 0x30, 0x30, HexDigit(c / 16), HexDigit(c % 16)]); }
      } else {
        ok := Put(c);
      }
    }

    method Quote(t: seq<Byte>) returns (ok: bool)
      requires Valid()
      modifies this, buf
      ensures Valid() && asked == old(asked) + Quoted(t) && ok == Room()
    {
      ghost var goal := asked + Quoted(t);
      KeyAppended(asked, Escaped(t), []);
      ok := Put(QUOTE);
      if !ok {
        SkipTo(goal);
        return;
      }
      ok := StringContent(t);
      if !ok {
        SkipTo(goal);
        return;
      }
      ok := Put(QUOTE);
    }

    /** A member's key; the results of the single puts are not looked at. */
    method Key(key: seq<Byte>, o: Options)
      requires Valid()
      modifies this, buf
      ensures Valid() && asked == old(asked) + KeyText(key, o)
    {
      KeyAppended(asked, Escaped(key), Gap(o));
      var _ := Put(QUOTE);
      var _ := StringContent(key);
      var _ := Put(QUOTE);
      var _ := Put(COLON);
      if o.pretty { var _ := Put(0x20); }
    }

    method Value(v: Json, depth: nat, o: Options) returns (ok: bool)
      requires Valid() && FloatFree(v)
      modifies this, buf
      ensures Valid() && asked == old(asked) + Text(v, depth, o) && ok == Room()
      decreases v, 2
    {
      match v
      case Null => ok := Puts(NULL_TEXT);
      case Bool(b) => if b { ok := Puts(TRUE_TEXT); } else { ok := Puts(FALSE_TEXT); }
      case Int(i) => ok := Int64(i);
      case Str(t) => ok := Quote(t);
      case Arr(items) => ok := Array(items, depth, o);
      case Obj(pairs) => ok := Object(pairs, depth, o);
    }

    /** Entry `k` of an array: its break, then its value. */
    method Item(items: seq<Json>, k: nat, ghost ts: seq<seq<Byte>>, depth: nat, o: Options) returns (ok: bool)
      requires Valid() && SpellsItems(ts, items, depth, o) && k < |items|
      modifies this, buf
      ensures Valid() && ok == Room()
      ensures asked == old(asked) + (JsonText.Break(depth, o) + ts[k])
      decreases items[k], 3
    {
      ItemSpelled(ts, items, depth, o, k);
      Associative(asked, JsonText.Break(depth, o), ts[k]);
      Break(depth, o);
      ok := Value(items[k], depth, o);
    }

    /** Entry `k` of an object: its break, then its key and value. */
    method Member(pairs: seq<Pair>, k: nat, ghost ts: seq<seq<Byte>>, depth: nat, o: Options) returns (ok: bool)
      requires Valid() && SpellsMembers(ts, pairs, depth, o) && k < |pairs|
      modifies this, buf
      ensures Valid() && ok == Room()
      ensures asked == old(asked) + (JsonText.Break(depth, o) + ts[k])
      decreases pairs[k], 3
    {
      var p := pairs[k];
      MemberSpelled(ts, pairs, depth, o, k);
      Associative(asked, JsonText.Break(depth, o), ts[k]);
      Associative(asked + JsonText.Break(depth, o), KeyText(p.key, o), Text(p.value, depth, o));
      Break(depth, o);
      Key(p.key, o);
      ok := Value(p.value, depth, o);
    }

    /** The end of a container, on a line of its own unless it is empty. */
    method Close(empty: bool, depth: nat, o: Options, c: Byte) returns (ok: bool)
      requires Valid()
      modifies this, buf
      ensures Valid() && asked == old(asked) + (Ending(empty, depth, o) + [c]) && ok == Room()
    {
      Associative(asked, Ending(empty, depth, o), [c]);
      if !empty { Break(depth, o); }
      ok := Put(c);
    }

    /** An array; once an entry found no room nothing more is offered. */
    method Array(items: seq<Json>, depth: nat, o: Options) returns (ok: bool)
      requires Valid() && forall k :: 0 <= k < |items| ==> FloatFree(items[k])
      modifies this, buf
      ensures Valid() && ok == Room()
      ensures asked == old(asked) + Container(LBRACKET, ItemTexts(items, depth + 1, o), depth, o, RBRACKET)
      decreases items, 1
    {
      ghost var ts := ItemTexts(items, depth + 1, o);
      ghost var goal := asked + Container(LBRACKET, ts, depth, o, RBRACKET);
      ContainerAppended(asked, [LBRACKET], Joined(ts, JsonText.Break(depth + 1, o)), Ending(ts == [], depth, o),
                        [RBRACKET]);
      ItemsSpelled(ts, items, depth + 1, o);
      ok := Put(LBRACKET);
      if ok { ok := Items(items, ts, depth + 1, o); }
      if !ok {
        SkipTo(goal);
        return;
      }
      ok := Close(|items| == 0, depth, o, RBRACKET);
    }

    method Items(items: seq<Json>, ghost ts: seq<seq<Byte>>, depth: nat, o: Options) returns (ok: bool)
      requires Valid() && SpellsItems(ts, items, depth, o)
      modifies this, buf
      ensures Valid() && ok == (Room() || items == [])
      ensures asked == old(asked) + Joined(ts, JsonText.Break(depth, o))
      decreases items, 0
    {
      ghost var base, brk := asked, JsonText.Break(depth, o);
      var i := 0;
      assert Spelled(asked, base, ts, 0, brk);
      while i < |items|
        invariant i <= |items| && Valid() && (i == |items| > 0 ==> Room())
        invariant Spelled(asked, base, ts, i, brk)
      {
        EntryAppended(asked, base, ts, i, brk);
        ghost var next := asked + (brk + ts[i]);
        ok := Item(items, i, ts, depth, o);
        i := i + 1;
        if !ok {
          SkipTo(base + Joined(ts, brk));
          return;
        }
        if i < |items| { var _ := Put(COMMA); }
        assert asked == next + Comma(i < |ts|);
      }
      AllSpelled(asked, base, ts, brk);
      ok := true;
    }

    /** An object; once an entry found no room nothing more is offered. */
    method Object(pairs: seq<Pair>, depth: nat, o: Options) returns (ok: bool)
      requires Valid() && forall k :: 0 <= k < |pairs| ==> FloatFree(pairs[k].value)
      modifies this, buf
      ensures Valid() && ok == Room()
      ensures asked == old(asked) + Container(LBRACE, PairTexts(pairs, depth + 1, o), depth, o, RBRACE)
      decreases pairs, 1
    {
      ghost var ts := PairTexts(pairs, depth + 1, o);
      ghost var goal := asked + Container(LBRACE, ts, depth, o, RBRACE);
      ContainerAppended(asked, [LBRACE], Joined(ts, JsonText.Break(depth + 1, o)), Ending(ts == [], depth, o),
                        [RBRACE]);
      MembersSpelled(ts, pairs, depth + 1, o);
      ok := Put(LBRACE);
      if ok { ok := Members(pairs, ts, depth + 1, o); }
      if !ok {
        SkipTo(goal);
        return;
      }
      ok := Close(|pairs| == 0, depth, o, RBRACE);
    }

    method Members(pairs: seq<Pair>, ghost ts: seq<seq<Byte>>, depth: nat, o: Options) returns (ok: bool)
      requires Valid() && SpellsMembers(ts, pairs, depth, o)
      modifies this, buf
      ensures Valid() && ok == (Room() || pairs == [])
      ensures asked == old(asked) + Joined(ts, JsonText.Break(depth, o))
      decreases pairs, 0
    {
      ghost var base, brk := asked, JsonText.Break(depth, o);
      var i := 0;
      assert Spelled(asked, base, ts, 0, brk);
      while i < |pairs|
        invariant i <= |pairs| && Valid() && (i == |pairs| > 0 ==> Room())
        invariant Spelled(asked, base, ts, i, brk)
      {
        EntryAppended(asked, base, ts, i, brk);
        ghost var next := asked + (brk + ts[i]);
        ok := Member(pairs, i, ts, depth, o);
        i := i + 1;
        if !ok {
          SkipTo(base + Joined(ts, brk));
          return;
        }
        if i < |pairs| { var _ := Put(COMMA); }
        assert asked == next + Comma(i < |ts|);
      }
      AllSpelled(asked, base, ts, brk);
      ok := true;
    }

    /** The digits come last first, so they are written from the back. */
    method PutBackward(tmp: array<Byte>, len: nat) returns (ok: bool)
      requires Valid() && tmp != buf && 0 < len <= tmp.Length
      modifies this, buf
      ensures Valid() && asked == old(asked) + Reversed(old(tmp[..len])) && ok == Room()
    {
      ghost var d := Reversed(tmp[..len]);
      ghost var goal := asked + d;
      var i := 0;
      ok := true;
      while i < len
        invariant i <= len && Valid() && asked == old(asked) + d[..i] && (i > 0 ==> Room())
      {
        ok := Put(tmp[len - 1 - i]);
        i := i + 1;
        assert d[..i] == d[..i - 1] + [d[i - 1]];
        if !ok {
          SkipTo(goal);
          return;
        }
      }
    }
  }

  /** Digits by repeated division, into a buffer of fixed size. */
  method DivideOut(n: nat) returns (tmp: array<Byte>, len: nat)
    requires 0 < n <= 0x8000_0000_0000_0000
    ensures fresh(tmp) && 0 < len <= tmp.Length && Reversed(tmp[..len]) == Digits(n)
  {
    tmp := new Byte[22];
    len := 0;
    var rest: nat := n;
    Pow10Values();
    DigitsBound(n, 19);
    while rest > 0
      invariant len <= tmp.Length && |Leading(rest)| + len <= 19 && (rest < n ==> len > 0)
      invariant Digits(n) == Leading(rest) + Reversed(tmp[..len])
      decreases rest
    {
      TakeDigit(rest, Reversed(tmp[..len]));
      tmp[len] := ZERO + rest % 10;
      len, rest := len + 1, rest / 10;
      assert tmp[..len][..len - 1] == tmp[..len - 1];
    }
  }

  // --------------------------------------------------------------- json_write

  /** Without a buffer the text is measured.  With one of at least a byte the
      call succeeds exactly when text and terminator fit, and then the buffer
      starts with the text, the newline if asked for and if it fits too, and
      the terminator. */
  method Write(v: Json, buf: array?<Byte>, o: Options, newline: bool) returns (ok: bool, written: nat)
    requires FloatFree(v) && (buf != null ==> buf.Length >= 1)
    modifies buf
    ensures buf == null ==> ok && written == |Text(v, 0, o)|
    ensures buf != null ==> ok == (|Text(v, 0, o)| < buf.Length)
    ensures buf != null && ok ==>
      && written == |Text(v, 0, o)| + (if newline && |Text(v, 0, o)| + 1 < buf.Length then 1 else 0)
      && buf[..written + 1] == Text(v, 0, o) + (if written == |Text(v, 0, o)| then [] else [0x0A]) + [0]
  {
    ghost var t := Text(v, 0, o);
    var w := new Writer(buf);
    ok := w.Value(v, 0, o);
    assert w.asked == t;
    written := w.used;
    if ok && buf != null {
      assert buf[..written] == t;
      buf[written] := 0;
      assert buf[..written + 1] == t + [] + [0];
      if newline && written + 1 < buf.Length {
        buf[written] := 0x0A;
        written := written + 1;
        buf[written] := 0;
        assert buf[..written + 1] == t + [0x0A] + [0];
      }
    }
  }

  /** Measuring first, then writing into a fresh buffer two bytes longer: the
      only failure is running out of memory. */
  method WriteArena(v: Json, arena: Arena, o: Options, newline: bool) returns (r: Result<seq<Byte>>)
    requires FloatFree(v)
    modifies arena
    ensures r.Err? ==> arena.left == 0
    ensures r == if old(arena.left) == 0 then Err(OutOfMemory)
                 else Ok(Text(v, 0, o) + if newline then [0x0A] else [])
  {
    var ok, needed := Write(v, null, o, newline);
    var granted := arena.Allocate();
    if !granted { return Err(OutOfMemory); }
    var buf := new Byte[needed + 2];
    var length;
    ok, length := Write(v, buf, o, newline);
    ghost var t := Text(v, 0, o) + if newline then [0x0A] else [];
    assert buf[..length + 1] == t + [0];
    assert buf[..length] == (t + [0])[..length] == t;
    r := Ok(buf[..length]);
  }
}
