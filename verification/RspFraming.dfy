/** Packets of the GDB Remote Serial Protocol on a byte stream: checksums,
    escaping, run lengths, and what `recv_packet` makes of a damaged stream. */
module RspFraming {
  import opened Bytes
  import opened Hex

  const DOLLAR: Byte := 0x24
  const HASH: Byte := 0x23
  const BRACE: Byte := 0x7D
  const STAR: Byte := 0x2A
  const INTERRUPT: Byte := 0x03
  const ACK: Byte := 0x2B
  const NAK: Byte := 0x2D
  const MAX_PACKET: nat := 0x20_0000

  // ---------------------------------------------------------------- checksum

  function Checksum(s: seq<Byte>): Byte {
    if s == [] then 0 else (Checksum(s[..|s| - 1]) + s[|s| - 1]) % 256
  }

  /** The plain sum of the bytes. */
  function Sum(s: seq<Byte>): nat {
    if s == [] then 0 else s[0] + Sum(s[1..])
  }

  lemma {:induction false} SumSnoc(s: seq<Byte>, c: Byte)
    ensures Sum(s + [c]) == Sum(s) + c
  {
    if s == [] {
      assert Sum([c]) == c + Sum([c][1..]);
    } else {
      assert (s + [c])[1..] == s[1..] + [c];
      SumSnoc(s[1..], c);
    }
  }

  /** The checksum is the sum modulo 256. */
  lemma {:induction false} ChecksumIsSum(s: seq<Byte>)
    ensures Checksum(s) == Sum(s) % 256
  {
    if s != [] {
      var front, c := s[..|s| - 1], s[|s| - 1];
      assert s == front + [c];
      SumSnoc(front, c);
      ChecksumIsSum(front);
    }
  }

  method ComputeChecksum(s: seq<Byte>) returns (sum: Byte)
    ensures sum == Checksum(s) == Sum(s) % 256
  {
    ChecksumIsSum(s);
    sum := 0;
    var i := 0;
    while i < |s|
      invariant i <= |s| && sum == Checksum(s[..i])
    {
      assert s[..i + 1][..i] == s[..i];
      sum := (sum + s[i]) % 256;
      i := i + 1;
    }
    assert s[..i] == s;
  }

  // ---------------------------------------------------------------- escaping

  /** Exclusive-or with 0x20. */
  function Flip(c: Byte): (r: Byte)
    ensures c == if r / 32 % 2 == 0 then r + 32 else r - 32
  {
    if c / 32 % 2 == 0 then c + 32 else c - 32
  }

  lemma XorEven(c: nat, b: nat)
    ensures Xor(c, 2 * b) == 2 * Xor(c / 2, b) + c % 2
  {}

  lemma {:induction false} FlipIsXor(c: Byte)
    ensures Flip(c) == Xor(c, 0x20)
  {
    var h, q, e, s, m := c / 2, c / 4, c / 8, c / 16, c / 32;
    assert h / 2 == q && q / 2 == e && e / 2 == s && s / 2 == m;
    XorEven(c, 16);
    XorEven(h, 8);
    XorEven(q, 4);
    XorEven(e, 2);
    XorEven(s, 1);
    XorOne(m);
  }

  predicate Special(c: Byte) { c == DOLLAR || c == HASH || c == BRACE || c == STAR }

  function EscapeByte(c: Byte): seq<Byte> { if Special(c) then [BRACE, Flip(c)] else [c] }

  function Escaped(p: seq<Byte>): seq<Byte> {
    if p == [] then [] else EscapeByte(p[0]) + Escaped(p[1..])
  }

  method Escape(p: seq<Byte>) returns (out: seq<Byte>)
    ensures out == Escaped(p)
  {
    out := [];
    var i := 0;
    while i < |p|
      invariant i <= |p| && out + Escaped(p[i..]) == Escaped(p)
    {
      Associative(out, EscapeByte(p[i]), Escaped(p[i + 1..]));
      var c := p[i];
      if c == DOLLAR || c == HASH || c == BRACE || c == STAR {
        out := out + [BRACE, Flip(c)];
      } else {
        out := out + [c];
      }
      i := i + 1;
    }
  }

  /** Escaped text holds nothing a receiver takes for framing or for a run, and
      what needs no escape goes out as it is. */
  lemma {:induction false} EscapedIsClean(p: seq<Byte>)
    ensures DOLLAR !in Escaped(p) && HASH !in Escaped(p) && STAR !in Escaped(p)
    ensures |p| <= |Escaped(p)|
    ensures Escaped(p) == p <==> forall c :: c in p ==> !(c in Ascii("$#}*"))
  {
    if p == [] {
    } else {
      EscapedIsClean(p[1..]);
      var h, t, c := EscapeByte(p[0]), Escaped(p[1..]), p[0];
      assert p == [c] + p[1..];
      assert Special(c) <==> c in Ascii("$#}*") by {
        assert Ascii("$#}*") == [0x24, 0x23, 0x7D, 0x2A];
      }
      if Special(c) {
        assert Escaped(p) != p;
      } else {
        assert Escaped(p)[1..] == t && (Escaped(p) == p <==> t == p[1..]);
      }
    }
  }

  // ---------------------------------------------------------------- decoding

  function Repeated(c: Byte, n: nat): (r: seq<Byte>)
    ensures |r| == n && forall k :: 0 <= k < n ==> r[k] == c
  {
    seq(n, _ => c)
  }

  /** Decoding with `out` decoded already.  Room is counted in 64 bits, as the
      limit is not applied to an escaped byte. */
  function DecodeFrom(e: seq<Byte>, i: nat, out: seq<Byte>): Option<seq<Byte>>
    requires i <= |e|
    decreases |e| - i
  {
    if i == |e| then Some(out)
    else if e[i] == BRACE then
      if i + 1 >= |e| then None else DecodeFrom(e, i + 2, out + [Flip(e[i + 1])])
    else if e[i] == STAR then
      if out == [] || i + 1 >= |e| then None
      else if e[i + 1] < 32 || e[i + 1] > 126 then None
      else if e[i + 1] - 29 > (MAX_PACKET - |out|) % TWO64 then None
      else DecodeFrom(e, i + 2, out + Repeated(out[|out| - 1], e[i + 1] - 29))
    else if |out| + 1 > MAX_PACKET then None
    else DecodeFrom(e, i + 1, out + [e[i]])
  }

  method Decode(e: seq<Byte>) returns (r: Option<seq<Byte>>)
    ensures r == DecodeFrom(e, 0, [])
  {
    var out: seq<Byte> := [];
    var i := 0;
    while i < |e|
      invariant i <= |e| && DecodeFrom(e, i, out) == DecodeFrom(e, 0, [])
    {
      var c := e[i];
      if c == BRACE {
        if i + 1 >= |e| { return None; }
        out := out + [Flip(e[i + 1])];
        i := i + 2;
        continue;
      }
      if c == STAR {
        if out == [] || i + 1 >= |e| { return None; }
        var count := e[i + 1];
        if count < 32 || count > 126 { return None; }
        var repeat := count - 29;
        if repeat > (MAX_PACKET - |out|) % TWO64 { return None; }
        out := out + Repeated(out[|out| - 1], repeat);
        i := i + 2;
        continue;
      }
      out := out + [c];
      if |out| > MAX_PACKET { return None; }
      i := i + 1;
    }
    return Some(out);
  }

  // ------------------------------------------------- what a sender may encode

  /** A byte as it is, an escaped byte, or the byte before it `n` times more. */
  datatype Token = Plain(c: Byte) | Quoted(c: Byte) | Run(n: nat)

  predicate WellFormed(t: Token) {
    match t
    case Plain(c) => c != BRACE && c != STAR
    case Quoted(_) => true
    case Run(n) => 3 <= n <= 97
  }

  function EncodeToken(t: Token): seq<Byte>
    requires WellFormed(t)
  {
    match t
    case Plain(c) => [c]
    case Quoted(c) => [BRACE, Flip(c)]
    case Run(n) => [STAR, n + 29]
  }

  function Encode(ts: seq<Token>): seq<Byte>
    requires AllWellFormed(ts)
  {
    if ts == [] then [] else EncodeToken(ts[0]) + Encode(ts[1..])
  }

  /** What the tokens stand for behind `out`; nothing if a run comes first. */
  function Expand(ts: seq<Token>, out: seq<Byte>): Option<seq<Byte>> {
    if ts == [] then Some(out)
    else match ts[0]
      case Plain(c) => Expand(ts[1..], out + [c])
      case Quoted(c) => Expand(ts[1..], out + [c])
      case Run(n) => if out == [] then None else Expand(ts[1..], out + Repeated(out[|out| - 1], n))
  }

  lemma {:induction false} ExpandGrows(ts: seq<Token>, out: seq<Byte>)
    requires Expand(ts, out).Some?
    ensures |out| <= |Expand(ts, out).value|
  {
    if ts == [] {
    } else {
      match ts[0]
      case Plain(c) => ExpandGrows(ts[1..], out + [c]);
      case Quoted(c) => ExpandGrows(ts[1..], out + [c]);
      case Run(n) => ExpandGrows(ts[1..], out + Repeated(out[|out| - 1], n));
    }
  }

  predicate AllWellFormed(ts: seq<Token>) { forall k :: 0 <= k < |ts| ==> WellFormed(ts[k]) }

  /** Whatever mixture of plain bytes, escapes and runs a sender chooses, its
      encoding decodes to what it stands for, up to the size limit. */
  lemma {:induction false} DecodeEncode(ts: seq<Token>, pre: seq<Byte>, post: seq<Byte>, out: seq<Byte>)
    requires AllWellFormed(ts) && Expand(ts, out).Some? && |Expand(ts, out).value| <= MAX_PACKET
    ensures var e := pre + (Encode(ts) + post);
            DecodeFrom(e, |pre|, out) == DecodeFrom(e, |pre| + |Encode(ts)|, Expand(ts, out).value)
    decreases |ts|
  {
    if ts == [] {
    } else {
      var t, rest := ts[0], Encode(ts[1..]);
      var h, next := EncodeToken(t), Append(t, out);
      assert Expand(ts, out) == Expand(ts[1..], next);
      ExpandGrows(ts[1..], next);
      Associative(h, rest, post);
      TokenDecodes(pre, t, rest + post, out);
      DecodeEncode(ts[1..], pre + h, post, next);
    }
  }

  /** What a token adds. */
  function Append(t: Token, out: seq<Byte>): seq<Byte>
    requires t.Run? ==> out != []
  {
    match t
    case Plain(c) => out + [c]
    case Quoted(c) => out + [c]
    case Run(n) => out + Repeated(out[|out| - 1], n)
  }

  lemma {:induction false} TokenDecodes(pre: seq<Byte>, t: Token, rest: seq<Byte>, out: seq<Byte>)
    requires WellFormed(t) && (t.Run? ==> out != []) && |Append(t, out)| <= MAX_PACKET
    ensures var e := pre + (EncodeToken(t) + rest);
            && pre + EncodeToken(t) + rest == e
            && DecodeFrom(e, |pre|, out) == DecodeFrom(e, |pre| + |EncodeToken(t)|, Append(t, out))
  {
    var h := EncodeToken(t);
    Associative(pre, h, rest);
    var e := pre + (h + rest);
    assert e[|pre|] == h[0] && (|h| == 2 ==> e[|pre| + 1] == h[1]);
  }

  /** And nothing else decodes. */
  lemma {:induction false} DecodesOnlyEncodings(e: seq<Byte>, i: nat, out: seq<Byte>) returns (ts: seq<Token>)
    requires i <= |e| && DecodeFrom(e, i, out).Some?
    ensures AllWellFormed(ts)
    ensures e[i..] == Encode(ts) && DecodeFrom(e, i, out) == Expand(ts, out)
    decreases |e| - i
  {
    if i == |e| {
      ts := [];
    } else {
      var t, n, next := Plain(e[i]), 1, out + [e[i]];
      if e[i] == BRACE {
        t, n, next := Quoted(Flip(e[i + 1])), 2, out + [Flip(e[i + 1])];
      } else if e[i] == STAR {
        t, n, next := Run(e[i + 1] - 29), 2, out + Repeated(out[|out| - 1], e[i + 1] - 29);
      }
      ts := DecodesOnlyEncodings(e, i + n, next);
      assert e[i..] == EncodeToken(t) + e[i + n..];
      ts := [t] + ts;
    }
  }

  function EscapeTokens(p: seq<Byte>): seq<Token> {
    if p == [] then [] else [if Special(p[0]) then Quoted(p[0]) else Plain(p[0])] + EscapeTokens(p[1..])
  }

  lemma {:induction false} EscapeIsEncoding(p: seq<Byte>, out: seq<Byte>)
    ensures AllWellFormed(EscapeTokens(p))
    ensures Encode(EscapeTokens(p)) == Escaped(p) && Expand(EscapeTokens(p), out) == Some(out + p)
  {
    if p == [] {
      assert out + p == out;
    } else {
      EscapeIsEncoding(p[1..], out + [p[0]]);
      assert out + [p[0]] + p[1..] == out + p;
      assert EscapeTokens(p)[1..] == EscapeTokens(p[1..]);
    }
  }

  /** Escaping is undone by decoding. */
  lemma {:induction false} DecodeEscaped(p: seq<Byte>)
    requires |p| <= MAX_PACKET
    ensures DecodeFrom(Escaped(p), 0, []) == Some(p)
  {
    EscapeIsEncoding(p, []);
    DecodeEncode(EscapeTokens(p), [], [], []);
    assert [] + (Escaped(p) + []) == Escaped(p) && [] + p == p;
  }

  // ------------------------------------------------------ how long a packet gets

  /** Somewhere an escape comes when the limit is reached; the source does not
      look there, and the room it counts for the next run is then huge. */
  predicate EscapesWhenFull(e: seq<Byte>, i: nat, n: nat)
    requires i <= |e|
    decreases |e| - i
  {
    if i == |e| then false
    else if e[i] == BRACE then i + 1 < |e| && (n >= MAX_PACKET || EscapesWhenFull(e, i + 2, n + 1))
    else if e[i] == STAR then i + 1 < |e| && 32 <= e[i + 1] && EscapesWhenFull(e, i + 2, n + e[i + 1] - 29)
    else EscapesWhenFull(e, i + 1, n + 1)
  }

  lemma {:induction false} DecodeGrows(e: seq<Byte>, i: nat, out: seq<Byte>)
    requires i <= |e| && DecodeFrom(e, i, out).Some?
    ensures |out| <= |DecodeFrom(e, i, out).value|
    decreases |e| - i
  {
    if i == |e| {
    } else if e[i] == BRACE {
      DecodeGrows(e, i + 2, out + [Flip(e[i + 1])]);
    } else if e[i] == STAR {
      DecodeGrows(e, i + 2, out + Repeated(out[|out| - 1], e[i + 1] - 29));
    } else {
      DecodeGrows(e, i + 1, out + [e[i]]);
    }
  }

  /** What is decoded stays within the limit exactly when no escape comes at it. */
  lemma {:induction false} WithinLimit(e: seq<Byte>, i: nat, out: seq<Byte>)
    requires i <= |e| && |out| <= MAX_PACKET && DecodeFrom(e, i, out).Some?
    ensures |DecodeFrom(e, i, out).value| <= MAX_PACKET <==> !EscapesWhenFull(e, i, |out|)
    decreases |e| - i
  {
    if i == |e| {
    } else if e[i] == BRACE {
      var next := out + [Flip(e[i + 1])];
      if |out| == MAX_PACKET { DecodeGrows(e, i + 2, next); } else { WithinLimit(e, i + 2, next); }
    } else if e[i] == STAR {
      WithinLimit(e, i + 2, out + Repeated(out[|out| - 1], e[i + 1] - 29));
    } else {
      WithinLimit(e, i + 1, out + [e[i]]);
    }
  }

  /** Tokens for `n` more of a letter, no longer than the letters. */
  function Letters(n: nat): (ts: seq<Token>)
    ensures AllWellFormed(ts)
  {
    if n == 0 then [] else if n < 97 then [Plain(0x61)] + Letters(n - 1) else [Run(97)] + Letters(n - 97)
  }

  lemma {:induction false} LettersExpand(n: nat, out: seq<Byte>)
    requires out != []
    ensures Expand(Letters(n), out).Some? && |Expand(Letters(n), out).value| == |out| + n
    ensures |Encode(Letters(n))| <= (if n < 97 then n else n - 95) && HASH !in Encode(Letters(n))
    decreases n
  {
    if n == 0 {
    } else if n < 97 {
      LettersExpand(n - 1, out + [0x61]);
    } else {
      LettersExpand(n - 97, out + Repeated(out[|out| - 1], 97));
    }
  }

  /** At the limit one escape is taken, and then a run of any length. */
  lemma {:induction false} RunBehindEscape(pre: seq<Byte>, out: seq<Byte>)
    requires |out| == MAX_PACKET
    ensures var r := DecodeFrom(pre + [BRACE, 0x41, STAR, 126], |pre|, out); r.Some? && |r.value| == MAX_PACKET + 98
  {
    var e, next := pre + [BRACE, 0x41, STAR, 126], out + [Flip(0x41)];
    assert e[|pre|] == BRACE && e[|pre| + 1] == 0x41 && e[|pre| + 2] == STAR && e[|pre| + 3] == 126;
    assert DecodeFrom(e, |pre|, out) == DecodeFrom(e, |pre| + 2, next);
    assert DecodeFrom(e, |pre| + 2, next) == DecodeFrom(e, |pre| + 4, next + Repeated(next[|next| - 1], 97));
  }

  /** A body short enough to be received that decodes to more than the limit: it
      fills the limit by runs, then comes one escape and one run. */
  lemma {:induction false} BeyondLimit() returns (e: seq<Byte>)
    ensures |e| <= MAX_PACKET && HASH !in e
    ensures DecodeFrom(e, 0, []).Some? && |DecodeFrom(e, 0, []).value| == MAX_PACKET + 98
  {
    e := FilledAndMore(MAX_PACKET - 1);
    assert Outgrows(e);
  }

  ghost predicate Outgrows(e: seq<Byte>) {
    var r := DecodeFrom(e, 0, []);
    |e| <= MAX_PACKET && HASH !in e && r.Some? && |r.value| == MAX_PACKET + 98
  }

  lemma {:induction false} FilledAndMore(n: nat) returns (e: seq<Byte>)
    requires n + 1 == MAX_PACKET
    ensures Outgrows(e)
  {
    var post := [BRACE, 0x41, STAR, 126];
    var ts := Filled(n);
    DecodeEncode(ts, [], post, []);
    RunBehindEscape(Encode(ts), Expand(ts, []).value);
    e := Encode(ts) + post;
    assert [] + e == e;
  }

  lemma {:induction false} Filled(n: nat) returns (ts: seq<Token>)
    requires n >= 97
    ensures AllWellFormed(ts) && Expand(ts, []).Some? && |Expand(ts, []).value| == n + 1
    ensures |Encode(ts)| + 4 <= n && HASH !in Encode(ts)
  {
    ts := [Plain(0x61)] + Letters(n);
    LettersExpand(n, [0x61]);
    assert ts[1..] == Letters(n) && [] + [0x61] == [0x61];
  }

  // -------------------------------------------------------- receiving packets

  datatype Packet = Payload(payload: seq<Byte>) | Interrupt | TimedOut | Nothing

  /** What a receive does to the stream: the packet it returns, what it leaves
      unread, and the acknowledgements it sends. */
  datatype Receipt = Receipt(packet: Packet, rest: seq<Byte>, acks: seq<Byte>)

  function HashAt(s: seq<Byte>, i: nat): (j: nat)
    requires i <= |s|
    ensures i <= j <= |s| && (j < |s| ==> s[j] == HASH) && HASH !in s[i..j]
    decreases |s| - i
  {
    if i == |s| || s[i] == HASH then i else HashAt(s, i + 1)
  }

  /** Whether a body and its two checksum characters make a packet. */
  function Accepts(body: seq<Byte>, c1: Byte, c2: Byte): Option<seq<Byte>> {
    if HexNibble(c1) < 0 || HexNibble(c2) < 0 then None
    else if HexNibble(c1) * 16 + HexNibble(c2) != Checksum(body) then None
    else DecodeFrom(body, 0, [])
  }

  /** The digits must denote the sum of the body modulo 256, in either case, and
      the body must decode; nothing else is looked at. */
  lemma {:induction false} AcceptsBySum(body: seq<Byte>, c1: Byte, c2: Byte)
    ensures Accepts(body, c1, c2) ==
            if HexNibble(c1) >= 0 && HexNibble(c2) >= 0 && 16 * HexNibble(c1) + HexNibble(c2) == Sum(body) % 256
            then DecodeFrom(body, 0, []) else None
  {
    ChecksumIsSum(body);
  }

  function Answer(positive: bool, noAck: bool): seq<Byte> {
    if noAck then [] else if positive then [ACK] else [NAK]
  }

  /** `s` is what will ever arrive; behind it the link is idle or closed. */
  function Receive(s: seq<Byte>, idle: bool, noAck: bool): Receipt
    decreases |s|, 1
  {
    if s == [] then Receipt(if idle then TimedOut else Nothing, [], [])
    else if s[0] == INTERRUPT then Receipt(Interrupt, s[1..], [])
    else if s[0] != DOLLAR then Receive(s[1..], idle, noAck)
    else
      var e := HashAt(s, 1);
      if e - 1 > MAX_PACKET then Receipt(Nothing, s[MAX_PACKET + 2..], [])
      else if e + 2 >= |s| then Receipt(Nothing, [], [])
      else Framed(s, e, idle, noAck)
  }

  /** A complete packet up to `e`: taken, or refused and read past. */
  function Framed(s: seq<Byte>, e: nat, idle: bool, noAck: bool): Receipt
    requires 1 <= e && e + 2 < |s|
    decreases |s|, 0
  {
    match Accepts(s[1..e], s[e + 1], s[e + 2])
    case Some(p) => Receipt(Payload(p), s[e + 3..], Answer(true, noAck))
    case None =>
      var r := Receive(s[e + 3..], idle, noAck);
      r.(acks := Answer(false, noAck) + r.acks)
  }

  /** The three checks a packet must pass. */
  method Judge(body: seq<Byte>, c1: Byte, c2: Byte) returns (payload: Option<seq<Byte>>)
    ensures payload == Accepts(body, c1, c2)
  {
    var hi, lo := HexNibble(c1), HexNibble(c2);
    if hi < 0 || lo < 0 { return None; }
    var sum := ComputeChecksum(body);
    if hi * 16 + lo != sum { return None; }
    payload := Decode(body);
  }

  class Connection {
    /** What has been pushed back and what will arrive. */
    var rx: seq<Byte>
    const idle: bool
    var noAck: bool
    var sent: seq<Byte>

    constructor (rx: seq<Byte>, idle: bool)
      ensures this.rx == rx && this.idle == idle && !noAck && sent == []
    {
      this.rx, this.idle, noAck, sent := rx, idle, false, [];
    }

    method ReadByte() returns (c: int, timedOut: bool)
      modifies this`rx
      ensures old(rx) == [] ==> c < 0 && timedOut == idle && rx == []
      ensures old(rx) != [] ==> c == old(rx[0]) && !timedOut && rx == old(rx[1..])
    {
      if rx == [] { return -1, idle; }
      c, timedOut := rx[0], false;
      rx := rx[1..];
    }

    method SendAck(positive: bool)
      modifies this`sent
      ensures sent == old(sent) + [if positive then ACK else NAK]
    {
      sent := sent + [if positive then ACK else NAK];
    }

    /** The body of a packet up to the hash mark. */
    method ReadBody() returns (body: Option<seq<Byte>>)
      modifies this`rx
      ensures var e := HashAt(old(rx), 0);
              if e > MAX_PACKET then body == None && rx == old(rx)[MAX_PACKET + 1..]
              else if e == |old(rx)| then body == None && rx == []
              else body == Some(old(rx)[..e]) && rx == old(rx)[e + 1..]
    {
      ghost var s, i := rx, 0;
      var b: seq<Byte> := [];
      while true
        invariant i <= |s| && rx == s[i..] && b == s[..i] && i <= MAX_PACKET && HashAt(s, i) == HashAt(s, 0)
        decreases |s| - i
      {
        var c, _ := ReadByte();
        if c < 0 { return None; }
        if c == HASH { return Some(b); }
        b, i := b + [c], i + 1;
        if |b| > MAX_PACKET { return None; }
      }
    }

    /** What follows the dollar sign: the body and two checksum characters. */
    method ReadFrame() returns (frame: Option<(seq<Byte>, Byte, Byte)>)
      modifies this`rx
      ensures var s := old(rx); var e := HashAt(s, 0);
              if e > MAX_PACKET then frame == None && rx == s[MAX_PACKET + 1..]
              else if e + 2 >= |s| then frame == None && rx == []
              else frame == Some((s[..e], s[e + 1], s[e + 2])) && rx == s[e + 3..]
    {
      var body := ReadBody();
      if body == None { return None; }
      var c1, _ := ReadByte();
      var c2, _ := ReadByte();
      if c1 < 0 || c2 < 0 { return None; }
      return Some((body.value, c1, c2));
    }

    /** Reads on until there is a packet to return. */
    method ReceivePacket() returns (packet: Packet)
      modifies this`rx, this`sent
      ensures var r := Receive(old(rx), idle, noAck);
              packet == r.packet && rx == r.rest && sent == old(sent) + r.acks
    {
      ghost var goal := Receive(rx, idle, noAck);
      while true
        invariant var r := Receive(rx, idle, noAck);
                  goal.packet == r.packet && goal.rest == r.rest && old(sent) + goal.acks == sent + r.acks
        decreases |rx|
      {
        ghost var s := rx;
        var b, timedOut := ReadByte();
        if timedOut { return TimedOut; }
        if b < 0 { return Nothing; }
        if b == INTERRUPT { return Interrupt; }
        if b != DOLLAR { continue; }
        BehindDollar(s, idle, noAck);
        var frame := ReadFrame();
        if frame == None { return Nothing; }
        var (body, c1, c2) := frame.value;
        var payload := Judge(body, c1, c2);
        Associative(sent, Answer(false, noAck), Receive(rx, idle, noAck).acks);
        if payload == None {
          if !noAck { SendAck(false); }
          continue;
        }
        if !noAck { SendAck(true); }
        return Payload(payload.value);
      }
    }

    /** An interrupt waiting is taken; any other byte goes back in front. */
    method PollInterrupt() returns (yes: bool)
      modifies this`rx
      ensures yes <==> old(rx) != [] && old(rx[0]) == INTERRUPT
      ensures rx == if yes then old(rx[1..]) else old(rx)
    {
      var b, _ := ReadByte();
      if b == INTERRUPT { return true; }
      if b >= 0 { rx := [b] + rx; }
      return false;
    }

    /** Writes all of the data, or some of it and fails. */
    method WriteAll(data: seq<Byte>) returns (ok: bool)
      modifies this`sent
      ensures old(sent) <= sent <= old(sent) + data && (ok ==> sent == old(sent) + data)
    {
      var n: int := *;
      ok := n < 0 || n >= |data|;
      sent := sent + if ok then data else data[..n];
    }

    /** Sends a packet and, unless told not to, takes the byte that follows for
        its acknowledgement.  A failed write ends it with part of the packet
        sent. */
    method SendPacket(payload: seq<Byte>) returns (ok: bool, ghost written: bool)
      modifies this`rx, this`sent
      ensures old(sent) <= sent <= old(sent) + Frame(payload)
      ensures !written ==> !ok && rx == old(rx)
      ensures written ==> sent == old(sent) + Frame(payload)
      ensures written && noAck ==> ok && rx == old(rx)
      ensures written && !noAck && old(rx) == [] ==> ok == idle && rx == []
      ensures written && !noAck && old(rx) != [] ==> ok == (old(rx[0]) == ACK) && rx == old(rx[1..])
    {
      var escaped := Escape(payload);
      var sum := ComputeChecksum(escaped);
      var trailer := [HASH, HexDigit(sum / 16), HexDigit(sum % 16)];
      ghost var goal := sent + Frame(payload);
      assert goal == sent + [DOLLAR] + escaped + trailer;
      written := false;
      ok := WriteAll([DOLLAR]);
      if !ok { return; }
      ok := WriteAll(escaped);
      if !ok { return; }
      ok := WriteAll(trailer);
      if !ok { return; }
      written := true;
      if noAck { return; }
      var ack, timedOut := ReadByte();
      ok := ack == ACK || timedOut;
    }
  }

  // ------------------------------------------------------ surviving a bad line

  /** A payload on the wire. */
  function Frame(payload: seq<Byte>): seq<Byte> {
    var e := Escaped(payload);
    [DOLLAR] + e + [HASH, HexDigit(Checksum(e) / 16), HexDigit(Checksum(e) % 16)]
  }

  /** Bytes a receiver passes over: no start of a packet, no interrupt. */
  predicate Junk(s: seq<Byte>) { forall k :: 0 <= k < |s| ==> s[k] != DOLLAR && s[k] != INTERRUPT }

  /** A packet that arrived damaged: of admissible length, but refused. */
  datatype Damaged = Damaged(before: seq<Byte>, body: seq<Byte>, c1: Byte, c2: Byte)

  ghost predicate Refused(d: Damaged) {
    Junk(d.before) && HASH !in d.body && |d.body| <= MAX_PACKET && Accepts(d.body, d.c1, d.c2) == None
  }

  function Wire(d: Damaged): seq<Byte> { d.before + ([DOLLAR] + d.body + [HASH, d.c1, d.c2]) }

  function Wires(ds: seq<Damaged>): seq<Byte> {
    if ds == [] then [] else Wire(ds[0]) + Wires(ds[1..])
  }

  function Naks(n: nat, noAck: bool): seq<Byte> {
    if noAck then [] else seq(n, _ => NAK)
  }

  lemma {:induction false} JunkIsSkipped(j: seq<Byte>, s: seq<Byte>, idle: bool, noAck: bool)
    requires Junk(j)
    ensures Receive(j + s, idle, noAck) == Receive(s, idle, noAck)
  {
    if j == [] {
      assert j + s == s;
    } else {
      JunkIsSkipped(j[1..], s, idle, noAck);
      assert (j + s)[1..] == j[1..] + s;
    }
  }

  lemma {:induction false} HashFound(s: seq<Byte>, i: nat, e: nat)
    requires i <= e < |s| && s[e] == HASH && forall k :: i <= k < e ==> s[k] != HASH
    ensures HashAt(s, i) == e
    decreases e - i
  {
    if i == e {
    } else {
      HashFound(s, i + 1, e);
    }
  }

  /** A packet on the wire is framed where its sender ended it. */
  lemma {:induction false} FrameIsFound(body: seq<Byte>, c1: Byte, c2: Byte, s: seq<Byte>, idle: bool, noAck: bool)
    requires HASH !in body && |body| <= MAX_PACKET
    ensures var w := [DOLLAR] + body + [HASH, c1, c2] + s;
            Receive(w, idle, noAck) == match Accepts(body, c1, c2)
              case Some(p) => Receipt(Payload(p), s, Answer(true, noAck))
              case None => var r := Receive(s, idle, noAck); r.(acks := Answer(false, noAck) + r.acks)
  {
    var w, e := [DOLLAR] + body + [HASH, c1, c2] + s, 1 + |body|;
    assert forall k :: 1 <= k < e ==> w[k] == body[k - 1];
    assert w[e] == HASH && w[e + 1] == c1 && w[e + 2] == c2;
    HashFound(w, 1, e);
    assert w[1..e] == body && w[e + 3..] == s;
  }

  /** A packet on the wire is received exactly when its digits denote the sum of
      its body modulo 256 and the body decodes; otherwise it is answered by a
      minus and the receiver reads on. */
  lemma {:induction false} SumDecides(body: seq<Byte>, c1: Byte, c2: Byte, rest: seq<Byte>, idle: bool, noAck: bool)
    requires HASH !in body && |body| <= MAX_PACKET
    ensures var r := Receive([DOLLAR] + body + [HASH, c1, c2] + rest, idle, noAck);
            var sum, payload := 16 * HexNibble(c1) + HexNibble(c2), DecodeFrom(body, 0, []);
            if HexNibble(c1) >= 0 && HexNibble(c2) >= 0 && sum == Sum(body) % 256 && payload.Some?
            then r == Receipt(Payload(payload.value), rest, if noAck then [] else Ascii("+"))
            else var q := Receive(rest, idle, noAck); r == q.(acks := (if noAck then [] else Ascii("-")) + q.acks)
  {
    AcceptsBySum(body, c1, c2);
    FrameIsFound(body, c1, c2, rest, idle, noAck);
    assert Ascii("+") == [ACK] && Ascii("-") == [NAK];
  }

  /** A packet of the protocol, byte for byte. */
  lemma {:induction false} KnownPacket(p: seq<Byte>, wire: seq<Byte>, idle: bool)
    requires p == Ascii("qSupported") && wire == Ascii("$qSupported#37")
    ensures Frame(p) == wire && Receive(wire, idle, false) == Receipt(Payload(p), [], Ascii("+"))
  {
    EscapedIsClean(p);
    KnownSum(p);
    ChecksumIsSum(p);
    assert Escaped(p) == p && Frame(p) == wire;
    GoodFrame(p, [], idle, false);
    assert wire + [] == wire && Ascii("+") == [ACK];
  }

  lemma {:induction false} SumFrom(p: seq<Byte>, k: nat)
    requires k < |p|
    ensures Sum(p[k..]) == p[k] + Sum(p[k + 1..])
  {
    assert p[k..][1..] == p[k + 1..];
  }

  lemma {:induction false} SumOfFive(p: seq<Byte>, k: nat)
    requires k + 5 <= |p|
    ensures Sum(p[k..]) == p[k] + p[k + 1] + p[k + 2] + p[k + 3] + p[k + 4] + Sum(p[k + 5..])
  {
    SumFrom(p, k);
    SumFrom(p, k + 1);
    SumFrom(p, k + 2);
    SumFrom(p, k + 3);
    SumFrom(p, k + 4);
  }

  lemma {:induction false} KnownSum(p: seq<Byte>)
    requires p == Ascii("qSupported")
    ensures Sum(p) % 256 == 0x37
  {
    SumOfFive(p, 0);
    SumOfFive(p, 5);
    assert p[0..] == p && p[10..] == [];
    assert p == [0x71, 0x53, 0x75, 0x70, 0x70, 0x6F, 0x72, 0x74, 0x65, 0x64];
  }

  lemma NibblesReadBack(b: Byte)
    ensures HexNibble(HexDigit(b / 16)) * 16 + HexNibble(HexDigit(b % 16)) == b
    ensures HexNibble(HexDigit(b / 16)) >= 0 && HexNibble(HexDigit(b % 16)) >= 0
  {}

  /** After any junk and any number of damaged packets, the packet sent next is
      received: everything through its checksum is consumed, each damaged one is
      answered by a minus and it by a plus. */
  lemma {:induction false} PacketSurvives(ds: seq<Damaged>, junk: seq<Byte>, payload: seq<Byte>, rest: seq<Byte>,
                                          idle: bool, noAck: bool)
    requires (forall k :: 0 <= k < |ds| ==> Refused(ds[k])) && Junk(junk) && |Escaped(payload)| <= MAX_PACKET
    ensures Receive(Wires(ds) + (junk + (Frame(payload) + rest)), idle, noAck)
         == Receipt(Payload(payload), rest, Naks(|ds|, noAck) + Answer(true, noAck))
    decreases |ds|
  {
    var tail := junk + (Frame(payload) + rest);
    if ds == [] {
      assert Wires(ds) + tail == tail;
      JunkIsSkipped(junk, Frame(payload) + rest, idle, noAck);
      GoodFrame(payload, rest, idle, noAck);
      assert Naks(0, noAck) + Answer(true, noAck) == Answer(true, noAck);
    } else {
      var d, more := ds[0], Wires(ds[1..]) + tail;
      PacketSurvives(ds[1..], junk, payload, rest, idle, noAck);
      var packet := [DOLLAR] + d.body + [HASH, d.c1, d.c2];
      Associative(Wire(d), Wires(ds[1..]), tail);
      Associative(d.before, packet, more);
      JunkIsSkipped(d.before, packet + more, idle, noAck);
      FrameIsFound(d.body, d.c1, d.c2, more, idle, noAck);
      assert Answer(false, noAck) + (Naks(|ds| - 1, noAck) + Answer(true, noAck)) ==
        Naks(|ds|, noAck) + Answer(true, noAck);
    }
  }

  lemma {:induction false} GoodFrame(payload: seq<Byte>, rest: seq<Byte>, idle: bool, noAck: bool)
    requires |Escaped(payload)| <= MAX_PACKET
    ensures Receive(Frame(payload) + rest, idle, noAck) == Receipt(Payload(payload), rest, Answer(true, noAck))
  {
    var e := Escaped(payload);
    EscapedIsClean(payload);
    DecodeEscaped(payload);
    NibblesReadBack(Checksum(e));
    FrameIsFound(e, HexDigit(Checksum(e) / 16), HexDigit(Checksum(e) % 16), rest, idle, noAck);
  }

  /** Receiving, told from behind the dollar sign. */
  lemma {:induction false} BehindDollar(s: seq<Byte>, idle: bool, noAck: bool)
    requires s != [] && s[0] == DOLLAR
    ensures var t := s[1..];
            var e := HashAt(t, 0);
            Receive(s, idle, noAck) ==
            if e > MAX_PACKET then Receipt(Nothing, t[MAX_PACKET + 1..], [])
            else if e + 2 >= |t| then Receipt(Nothing, [], [])
            else match Accepts(t[..e], t[e + 1], t[e + 2])
              case Some(p) => Receipt(Payload(p), t[e + 3..], Answer(true, noAck))
              case None => var r := Receive(t[e + 3..], idle, noAck); r.(acks := Answer(false, noAck) + r.acks)
  {
    HashShift(s, 1, 0);
    var t := s[1..];
    var e := HashAt(t, 0);
    if e > MAX_PACKET {
      Shifted(s, MAX_PACKET + 1);
    } else if e + 2 < |t| {
      Shifted(s, e);
      Shifted(s, e + 3);
    }
  }

  lemma Shifted(s: seq<Byte>, n: nat)
    requires n < |s|
    ensures s[1..][..n] == s[1..n + 1] && s[1..][n..] == s[n + 1..]
  {}

  lemma {:induction false} HashShift(s: seq<Byte>, d: nat, i: nat)
    requires d + i <= |s|
    ensures HashAt(s, d + i) == d + HashAt(s[d..], i)
    decreases |s| - i
  {
    if d + i == |s| || s[d + i] == HASH {
    } else {
      HashShift(s, d, i + 1);
    }
  }
}
