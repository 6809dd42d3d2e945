/** `lz4_compress_default` with the generation-stamped table it keeps between
    calls. */
module Lz4Encoder {
  import opened Bytes
  import opened Lz4Format
  import opened Lz4Greedy
  import opened Lz4Parse

  const GENERATIONS: nat := 4096
  const RESET: U32 := 0xFFFF_FFFF
  const MIN_INPUT := 32

  function CompressBound(n: int): int {
    if n < 0 || n > 0x7E00_0000 then 0 else n + n / 255 + 16
  }

  class Compressor {
    const table: array<U32>
    var gen: nat

    ghost predicate Valid()
      reads this
    {
      table.Length == BUCKETS && gen < GENERATIONS
    }

    /** What every call leaves behind: no entry carries a later generation than
        the current one, except the reset value. */
    ghost predicate Clean()
      reads this, table
    {
      Valid() && forall h :: 0 <= h < BUCKETS ==> table[h] == RESET || table[h] / POSITIONS <= gen
    }

    /** Seen through `Get` and the distance test, the table is `d`: buckets
        outside `d` read as absent or as a position past the source. */
    ghost predicate Shows(d: Dict, n: nat)
      reads this, table
      requires Valid()
    {
      forall h :: 0 <= h < BUCKETS ==>
        if h in d then d[h] < POSITIONS && table[h] == gen * POSITIONS + d[h]
        else table[h] / POSITIONS == gen ==> table[h] % POSITIONS >= n
    }

    /** Thread-local storage starts zeroed. */
    constructor ()
      ensures Clean() && fresh(table)
    {
      table := new U32[BUCKETS](_ => 0);
      gen := 0;
    }

    method Put(h: nat, pos: nat)
      requires Valid() && h < BUCKETS
      modifies table
      ensures table[h] == gen * POSITIONS + pos % POSITIONS
      ensures forall k :: 0 <= k < BUCKETS && k != h ==> table[k] == old(table[k])
    {
      table[h] := gen * POSITIONS + pos % POSITIONS;
    }

    method Get(h: nat) returns (pos: int)
      requires Valid() && h < BUCKETS
      ensures pos == if table[h] / POSITIONS != gen then -1 else table[h] % POSITIONS
    {
      if table[h] / POSITIONS != gen { return -1; }
      return table[h] % POSITIONS;
    }

    /** Entering a position keeps the table clean and enters it in what it shows. */
    method PutAt(src: seq<Byte>, p: nat, ghost d: Dict)
      requires Valid() && p + 4 <= |src|
      modifies table
      ensures old(Clean()) ==> Clean()
      ensures old(Shows(d, |src|)) ==> Shows(Enter(d, src, p), |src|)
    {
      Put(Hash(src, p), p);
    }

    method Reset()
      requires Valid()
      modifies table
      ensures forall h :: 0 <= h < BUCKETS ==> table[h] == RESET
    {
      forall h | 0 <= h < BUCKETS { table[h] := RESET; }
    }

    /** The start of a call.  Whatever earlier calls left, a clean table shows
        nothing afterwards - although at generation 4095 the reset value itself
        looks current, its position lies past every source this short. */
    method NextGeneration(n: nat)
      requires Valid()
      modifies this, table
      ensures Valid()
      ensures old(Clean()) ==> Clean() && Shows(map[], n)
    {
      gen := (gen + 1) % GENERATIONS;
      if gen == 0 { Reset(); }
      if n > POSITIONS - 1 {
        Reset();
        gen := 0;
      }
    }

    /** One probe: look the position up, enter it, test what was found. */
    method Probe(src: seq<Byte>, p: nat, ghost d: Dict) returns (m: int)
      requires Valid() && p + 4 <= |src|
      modifies table
      ensures m >= 0 ==> Usable(src, m, p)
      ensures old(Clean()) ==> Clean()
      ensures old(Shows(d, |src|)) ==>
                Shows(Enter(d, src, p), |src|) && m == Lookup(d, src, p)
    {
      m := Get(Hash(src, p));
      PutAt(src, p, d);
      if m >= 0 {
        var distance := p - m;
        if distance > 0 && distance <= MAX_OFFSET {
          if Word(src, m) == Word(src, p) { return m; }
        }
      }
      return -1;
    }

    /** The match search.  With any table it finds only usable matches; with a
        table that shows `d` it finds what the search over `d` finds. */
    method FindMatch(src: seq<Byte>, ip: nat, ghost d: Dict)
      returns (found: bool, m: nat, at: nat, ghost d': Dict)
      requires Valid() && ip + MF_LIMIT <= |src|
      modifies table
      ensures found ==> ip <= at && at + MF_LIMIT <= |src| && Usable(src, m, at)
      ensures old(Clean()) ==> Clean()
      ensures old(Shows(d, |src|)) ==>
                Shows(d', |src|) && Finds(src, d, ip, 1, 256, if found then Match(m, at, d') else Nothing(d'))
    {
      ghost var shows := Shows(d, |src|);
      var step, count := 1, 256;
      at, d' := ip, d;
      ghost var goal := Find(src, d, ip, 1, 256);
      while true
        invariant ip <= at && at + MF_LIMIT <= |src| && step >= 1 && count >= 256
        invariant old(Clean()) ==> Clean()
        invariant shows ==> Shows(d', |src|)
        invariant Finds(src, d', at, step, count, goal) || !shows
        decreases |src| - at
      {
        if shows { FindStep(src, d', at, step, count, goal); }
        var hit := Probe(src, at, d');
        d' := Enter(d', src, at);
        if hit >= 0 { return true, hit, at, d'; }
        at := at + step;
        step, count := count / 256, count + 1;
        if at > |src| - MF_LIMIT { return false, 0, at, d'; }
      }
    }

    /** The positions skipped by the search are entered once a match is found. */
    method PutRange(src: seq<Byte>, lo: nat, hi: nat, ghost d: Dict)
      requires Valid() && lo <= hi && hi + MF_LIMIT <= |src|
      modifies table
      ensures old(Clean()) ==> Clean()
      ensures old(Shows(d, |src|)) ==> Shows(EnterRange(d, src, lo, hi), |src|)
    {
      ghost var shows, d' := Shows(d, |src|), d;
      var p := lo;
      while p < hi && p <= |src| - MF_LIMIT
        invariant lo <= p <= hi
        invariant old(Clean()) ==> Clean()
        invariant shows ==> Shows(d', |src|) && EnterRange(d, src, lo, hi) == EnterRange(d', src, p, hi)
      {
        PutAt(src, p, d');
        d', p := Enter(d', src, p), p + 1;
      }
    }

    /** Find a match, enter the skipped positions, extend the match. */
    method FindSequence(src: seq<Byte>, ip: nat, ghost anchor: nat, ghost d: Dict)
      returns (found: bool, m: nat, at: nat, e: nat, ghost d': Dict)
      requires Valid() && anchor <= ip && ip + MF_LIMIT <= |src|
      modifies table
      ensures old(Clean()) ==> Clean()
      ensures found ==>
                && ip <= at && at + MF_LIMIT <= |src| && Usable(src, m, at)
                && e == MatchEnd(src, at + MIN_MATCH, m + MIN_MATCH)
      ensures old(Shows(d, |src|)) ==>
                && Shows(d', |src|)
                && GreedyFrom(src, d, ip, anchor) ==
                   if found then Prepend([SequenceAt(src, anchor, m, at, e)], Pending(src, d', e, e))
                   else Block([], src[anchor..])
    {
      e := 0;
      found, m, at, d' := FindMatch(src, ip, d);
      ghost var shows, r := old(Shows(d, |src|)), if found then Match(m, at, d') else Nothing(d');
      if shows { AfterFinds(src, d, ip, anchor, r); }
      if found {
        PutRange(src, ip, at, d');
        d' := EnterRange(d', src, ip, at);
        e := ExtendMatch(src, m, at);
      }
    }

    /** One turn of the compressor's loop: find, extend and emit a match. */
    method NextSequence(src: seq<Byte>, ip: nat, anchor: nat, dst: array<Byte>, op: nat, capacity: nat,
                        ghost seqs: seq<Sequence>, ghost d: Dict)
      returns (turn: Turn, e: nat, end: nat, ghost q: Sequence, ghost d': Dict)
      requires Valid() && anchor <= ip && ip + MF_LIMIT <= |src| < 0x8000_0000
      requires op <= capacity <= dst.Length && dst as object != table
      requires Parsed(src, seqs, anchor)
      modifies table, dst
      ensures old(Clean()) ==> Clean()
      ensures forall k :: capacity <= k < dst.Length ==> dst[k] == old(dst[k])
      ensures turn == NoMatch ==> dst[..op] == old(dst[..op])
      ensures turn != NoMatch ==>
                && ip < e && e + LAST_LITERALS <= |src| && WellFormedSequence(q)
                && Parsed(src, seqs + [q], e)
                && (turn == Full <==> op + |EncodeSequence(q)| > capacity)
                && (turn == Emitted ==>
                    end == op + |EncodeSequence(q)| && dst[..end] == old(dst[..op]) + EncodeSequence(q))
      ensures old(Shows(d, |src|)) ==>
                && Shows(d', |src|)
                && GreedyFrom(src, d, ip, anchor) ==
                   if turn == NoMatch then Block([], src[anchor..]) else Prepend([q], Pending(src, d', e, e))
    {
      q, end := Sequence([], 0, 0), op;
      var found, m, at;
      found, m, at, e, d' := FindSequence(src, ip, anchor, d);
      if !found { return NoMatch, e, end, q, d'; }
      Extend(src, seqs, anchor, m, at, e);
      q := SequenceAt(src, anchor, m, at, e);
      var ok;
      ok, end := EmitSequence(src, anchor, m, at, e, dst, op, capacity);
      turn := if ok then Emitted else Full;
    }

    /** The compressor's loop: emits matches until none is left or one does not
        fit. */
    method EmitMatches(src: seq<Byte>, dst: array<Byte>, capacity: nat, ghost d0: Dict)
      returns (full: bool, anchor: nat, op: nat, ghost seqs: seq<Sequence>)
      requires Valid() && MIN_INPUT <= |src| < 0x8000_0000 && capacity <= dst.Length && dst as object != table
      modifies table, dst
      ensures old(Clean()) ==> Clean()
      ensures forall k :: capacity <= k < dst.Length ==> dst[k] == old(dst[k])
      ensures anchor + LAST_LITERALS <= |src| && Parsed(src, seqs, anchor)
      ensures if full then |EncodeSequences(seqs)| > capacity
              else op <= capacity && dst[..op] == EncodeSequences(seqs)
      ensures old(Shows(d0, |src|)) ==>
                if full then |Encode(GreedyFrom(src, d0, 1, 0))| > capacity
                else GreedyFrom(src, d0, 1, 0) == Block(seqs, src[anchor..])
    {
      ghost var shows, goal, d, code: seq<Byte> := Shows(d0, |src|), GreedyFrom(src, d0, 1, 0), d0, [];
      var ip := 1;
      full, anchor, op, seqs := false, 0, 0, [];
      assert Prepend([], GreedyFrom(src, d, ip, anchor)) == goal;
      while ip + MF_LIMIT <= |src|
        invariant anchor <= ip && anchor + LAST_LITERALS <= |src| && (ip + MF_LIMIT <= |src| || anchor == ip)
        invariant op <= capacity && Parsed(src, seqs, anchor)
        invariant code == EncodeSequences(seqs) && |code| == op && dst[..op] == code
        invariant old(Clean()) ==> Clean()
        invariant shows ==> Shows(d, |src|) && Prepend(seqs, Pending(src, d, ip, anchor)) == goal
        invariant forall k :: capacity <= k < dst.Length ==> dst[k] == old(dst[k])
        decreases |src| - ip
      {
        var turn, e, end;
        ghost var q, d';
        turn, e, end, q, d' := NextSequence(src, ip, anchor, dst, op, capacity, seqs, d);
        if turn == NoMatch { break; }
        ghost var rest := Pending(src, d', e, e);
        EncodeSnoc(seqs, q);
        PrependSnoc(seqs, q, rest);
        seqs, code, anchor := seqs + [q], code + EncodeSequence(q), e;
        if turn == Full {
          EncodePrependLonger(seqs, rest);
          full := true;
          return;
        }
        d, ip, op := d', e, end;
      }
      assert seqs + [] == seqs;
    }

    /** Compresses all of `src`.  Whatever the table holds, the output encodes a
        block that stands for `src`; from a clean table it is the greedy block,
        so nothing of earlier calls shows in it. */
    method Compress(src: seq<Byte>, dst: array<Byte>, capacity: nat) returns (r: nat, ghost b: Block)
      requires Valid() && MIN_INPUT <= |src| < 0x8000_0000 && 0 < capacity <= dst.Length && dst as object != table
      modifies this, table, dst
      ensures Valid() && (old(Clean()) ==> Clean())
      ensures forall k :: capacity <= k < dst.Length ==> dst[k] == old(dst[k])
      ensures StandsFor(b, src)
      ensures if |Encode(b)| <= capacity then r == |Encode(b)| && dst[..r] == Encode(b) else r == 0
      ensures old(Clean()) ==>
                if |Encode(Greedy(src))| <= capacity then b == Greedy(src) else r == 0
      ensures old(Clean()) && r > 0 ==> IsParse(src, b)
    {
      GreedyIsParse(src);
      NextGeneration(|src|);
      PutAt(src, 0, map[]);
      var full, anchor, op;
      ghost var seqs;
      full, anchor, op, seqs := EmitMatches(src, dst, capacity, Enter(map[], src, 0));
      b := Block(seqs, src[anchor..]);
      ParsedStandsFor(src, seqs, anchor);
      if full { return 0, b; }
      var ok, end := EmitLast(src, anchor, dst, op, capacity);
      r := if ok then end else 0;
    }

    /** `lz4_compress_default`: the argument checks, the work, and the promise
        that a buffer of `CompressBound` bytes is always enough. */
    method CompressDefault(src: seq<Byte>, dst: array<Byte>, srcSize: int, capacity: int)
      returns (r: int, ghost b: Block)
      requires Valid() && srcSize <= |src| && srcSize < 0x8000_0000 && capacity <= dst.Length && dst as object != table
      modifies this, table, dst
      ensures Valid() && (old(Clean()) ==> Clean())
      ensures srcSize < MIN_INPUT || capacity <= 0 ==> r == 0 && dst[..] == old(dst[..])
      ensures srcSize >= MIN_INPUT && capacity > 0 ==>
                && StandsFor(b, src[..srcSize])
                && (forall k :: capacity <= k < dst.Length ==> dst[k] == old(dst[k]))
                && (if |Encode(b)| <= capacity then r == |Encode(b)| && dst[..r] == Encode(b) else r == 0)
                && (old(Clean()) ==>
                      if |Encode(Greedy(src[..srcSize]))| <= capacity then b == Greedy(src[..srcSize]) else r == 0)
                && (old(Clean()) && r > 0 ==> IsParse(src[..srcSize], b))
      ensures srcSize >= MIN_INPUT && 0 < CompressBound(srcSize) <= capacity ==> r > 0
    {
      if srcSize < MIN_INPUT || capacity <= 0 { return 0, Block([], []); }
      var s := src[..srcSize];
      r, b := Compress(s, dst, capacity);
      BlockSize(b, s);
    }
  }

  datatype Turn = NoMatch | Full | Emitted

  lemma {:induction false} PrependSnoc(seqs: seq<Sequence>, q: Sequence, rest: Block)
    ensures Prepend(seqs, Prepend([q], rest)) == Prepend(seqs + [q], rest)
  {
    assert seqs + ([q] + rest.seqs) == seqs + [q] + rest.seqs;
  }

  /** Match extension, eight bytes at a time, then byte by byte. */
  method ExtendMatch(src: seq<Byte>, m: nat, at: nat) returns (e: nat)
    requires m < at && at + MF_LIMIT <= |src|
    ensures e == MatchEnd(src, at + MIN_MATCH, m + MIN_MATCH)
  {
    var cursor := m + MIN_MATCH;
    e := at + MIN_MATCH;
    var limit := |src| - LAST_LITERALS;
    ghost var goal := MatchEnd(src, e, cursor);
    while limit - e >= 8
      invariant e - cursor == at - m && e <= limit
      invariant EndsAt(src, e, cursor, goal)
      decreases limit - e
    {
      var a, b := Word8(src, e), Word8(src, cursor);
      ExtendWord(src, e, cursor, goal);
      if a != b { return e + TrailingZeros(Xor(a, b)) / 8; }
      e, cursor := e + 8, cursor + 8;
    }
    while e < limit && src[e] == src[cursor]
      invariant e - cursor == at - m && e <= limit
      invariant EndsAt(src, e, cursor, goal)
      decreases limit - e
    {
      ExtendByte(src, e, cursor, goal);
      e, cursor := e + 1, cursor + 1;
    }
    ExtendByte(src, e, cursor, goal);
  }

  /** One byte of output. */
  method PutByte(dst: array<Byte>, op: nat, b: Byte)
    requires op < dst.Length
    modifies dst
    ensures dst[..op + 1] == old(dst[..op]) + [b]
    ensures forall k :: op < k < dst.Length ==> dst[k] == old(dst[k])
  {
    dst[op] := b;
  }

  method WriteLen(dst: array<Byte>, op: nat, length: nat, base: nat) returns (end: nat)
    requires base <= length && op + |LenRun(length - base)| <= dst.Length
    modifies dst
    ensures end == op + |LenRun(length - base)| && dst[..end] == old(dst[..op]) + LenRun(length - base)
    ensures forall k :: end <= k < dst.Length ==> dst[k] == old(dst[k])
  {
    var rem := length - base;
    end := op;
    ghost var written: seq<Byte> := [];
    ghost var pre, run := dst[..op], LenRun(length - base);
    while rem >= 255
      invariant 0 <= rem && end == op + |written|
      invariant written + LenRun(rem) == run
      invariant dst[..end] == pre + written
      invariant forall k :: end <= k < dst.Length ==> dst[k] == old(dst[k])
    {
      Associative(written, [255], LenRun(rem - 255));
      PutByte(dst, end, 255);
      Associative(pre, written, [255]);
      written, end, rem := written + [255], end + 1, rem - 255;
    }
    PutByte(dst, end, rem);
    Associative(pre, written, [rem]);
    end := end + 1;
  }

  function LenCount(n: nat): (r: nat)
    ensures r == |LenBytes(n)|
  {
    if n >= 15 then 1 + (n - 15) / 255 else 0
  }

  /** A token carrying the literal length only, and that length's extension. */
  method EmitLength(dst: array<Byte>, op: nat, length: nat) returns (end: nat)
    requires op + 1 + |LenBytes(length)| <= dst.Length
    modifies dst
    ensures end == op + 1 + |LenBytes(length)|
    ensures dst[..end] == old(dst[..op]) + [16 * Nibble(length)] + LenBytes(length)
    ensures forall k :: end <= k < dst.Length ==> dst[k] == old(dst[k])
  {
    if length >= 15 {
      PutByte(dst, op, 0xF0);
      end := WriteLen(dst, op + 1, length, 15);
    } else {
      PutByte(dst, op, 16 * length);
      end := op + 1;
    }
  }

  /** Literals; short ones by one eight-byte store that may run past them, but
      never past `capacity`. */
  method EmitLiterals(src: seq<Byte>, anchor: nat, length: nat, dst: array<Byte>, op: nat, capacity: nat, wild: bool)
    requires anchor + length <= |src| && op + length <= capacity <= dst.Length
    requires wild ==> anchor + 8 <= |src|
    modifies dst
    ensures dst[..op + length] == old(dst[..op]) + src[anchor..anchor + length]
    ensures forall k :: capacity <= k < dst.Length ==> dst[k] == old(dst[k])
  {
    if length == 0 { return; }
    if wild && length <= 8 && capacity - op >= 8 {
      forall k | 0 <= k < 8 { dst[op + k] := src[anchor + k]; }
    } else {
      forall k | 0 <= k < length { dst[op + k] := src[anchor + k]; }
    }
  }

  /** `*token |= low` for a byte whose low nibble is still zero. */
  method PatchToken(dst: array<Byte>, op: nat, end: nat, low: nat, ghost pre: seq<Byte>, ghost hi: Byte,
                    ghost rest: seq<Byte>)
    requires op < end <= dst.Length && low < 16 && hi <= 0xF0 && hi % 16 == 0
    requires |pre| == op && dst[..end] == pre + [hi] + rest
    modifies dst
    ensures dst[..end] == pre + [hi + low] + rest
    ensures forall k :: end <= k < dst.Length ==> dst[k] == old(dst[k])
  {
    assert dst[op] == dst[..end][op] == hi;
    dst[op] := dst[op] + low;
    assert forall k :: 0 <= k < end && k != op ==> dst[k] == old(dst[..end])[k];
  }

  /** One sequence, or nothing at all when it does not fit. */
  method EmitSequence(src: seq<Byte>, anchor: nat, m: nat, at: nat, e: nat, dst: array<Byte>, op: nat, capacity: nat)
    returns (ok: bool, end: nat)
    requires m < at && at - m <= MAX_OFFSET && anchor <= at && at + MF_LIMIT <= |src| < 0x8000_0000
    requires at + MIN_MATCH <= e <= |src| && op <= capacity <= dst.Length
    modifies dst
    ensures forall k :: capacity <= k < dst.Length ==> dst[k] == old(dst[k])
    ensures var code := EncodeSequence(SequenceAt(src, anchor, m, at, e));
            && ok == (op + |code| <= capacity)
            && (ok ==> end == op + |code| && dst[..end] == old(dst[..op]) + code)
  {
    var literalLen, matchToken := at - anchor, e - at - MIN_MATCH;
    var needed := 1 + literalLen + 2 + LenCount(literalLen) + LenCount(matchToken);
    ghost var pre, code := dst[..op], EncodeSequence(SequenceAt(src, anchor, m, at, e));
    SequenceCount(SequenceAt(src, anchor, m, at, e));
    end := op;
    if capacity - op < needed { return false, end; }
    SequenceBytes(pre, src, anchor, m, at, e);
    end := EmitBody(src, anchor, at, at - m, matchToken, dst, op, capacity);
    assert dst[..end] == pre + code;
    return true, end;
  }

  /** What comes between the token and the match length. */
  ghost function Middle(src: seq<Byte>, anchor: nat, at: nat, offset: nat): (m: seq<Byte>)
    requires anchor <= at <= |src|
    ensures |m| == |LenBytes(at - anchor)| + (at - anchor) + 2
  {
    LenBytes(at - anchor) + src[anchor..at] + OffsetBytes(offset)
  }

  method EmitBody(src: seq<Byte>, anchor: nat, at: nat, offset: nat, matchToken: nat, dst: array<Byte>, op: nat,
                  capacity: nat)
    returns (end: nat)
    requires anchor <= at && at + MF_LIMIT <= |src|
    requires op + 1 + |Middle(src, anchor, at, offset)| + |LenBytes(matchToken)| <= capacity <= dst.Length
    modifies dst
    ensures end == op + 1 + |Middle(src, anchor, at, offset)| + |LenBytes(matchToken)|
    ensures dst[..end] ==
      old(dst[..op]) + [Token(at - anchor, matchToken)] + Middle(src, anchor, at, offset) + LenBytes(matchToken)
    ensures forall k :: capacity <= k < dst.Length ==> dst[k] == old(dst[k])
  {
    ghost var pre, middle := dst[..op], Middle(src, anchor, at, offset);
    end := EmitHead(src, anchor, at, offset, dst, op, capacity);
    PatchToken(dst, op, end, Nibble(matchToken), pre, 16 * Nibble(at - anchor), middle);
    assert dst[..end] == pre + [Token(at - anchor, matchToken)] + middle;
    end := EmitMatchLength(dst, end, matchToken);
  }

  method EmitMatchLength(dst: array<Byte>, op: nat, matchToken: nat) returns (end: nat)
    requires op + |LenBytes(matchToken)| <= dst.Length
    modifies dst
    ensures end == op + |LenBytes(matchToken)| && dst[..end] == old(dst[..op]) + LenBytes(matchToken)
    ensures forall k :: end <= k < dst.Length ==> dst[k] == old(dst[k])
  {
    end := op;
    if matchToken >= 15 { end := WriteLen(dst, end, matchToken, 15); }
  }

  /** Token, literals and offset; the match length's nibble is still missing. */
  method EmitHead(src: seq<Byte>, anchor: nat, at: nat, offset: nat, dst: array<Byte>, op: nat, capacity: nat)
    returns (end: nat)
    requires anchor <= at && at + MF_LIMIT <= |src|
    requires op + 1 + |Middle(src, anchor, at, offset)| <= capacity <= dst.Length
    modifies dst
    ensures end == op + 1 + |Middle(src, anchor, at, offset)|
    ensures dst[..end] == old(dst[..op]) + [16 * Nibble(at - anchor)] + Middle(src, anchor, at, offset)
    ensures forall k :: capacity <= k < dst.Length ==> dst[k] == old(dst[k])
  {
    ghost var pre, hi, lens, lits := dst[..op], [16 * Nibble(at - anchor)], LenBytes(at - anchor), src[anchor..at];
    end := EmitLength(dst, op, at - anchor);
    EmitLiterals(src, anchor, at - anchor, dst, end, capacity, true);
    end := end + (at - anchor);
    PutByte(dst, end, offset % 256);
    PutByte(dst, end + 1, offset / 256 % 256);
    end := end + 2;
    HeadBytes(pre, hi, lens, lits, offset % 256, offset / 256 % 256);
  }

  lemma HeadBytes(pre: seq<Byte>, hi: seq<Byte>, lens: seq<Byte>, lits: seq<Byte>, x: Byte, y: Byte)
    ensures pre + hi + lens + lits + [x] + [y] == pre + hi + (lens + lits + [x, y])
  {}

  /** The space test counts exactly the bytes written, and in 32 bits. */
  lemma SequenceCount(q: Sequence)
    requires WellFormedSequence(q) && |q.lits| + q.matchLen < 0x8000_0000
    ensures 1 + |q.lits| + 2 + LenCount(|q.lits|) + LenCount(q.matchLen - MIN_MATCH) == |EncodeSequence(q)| < TWO32
  {}

  lemma {:induction false} SequenceBytes(pre: seq<Byte>, src: seq<Byte>, anchor: nat, m: nat, at: nat, e: nat)
    requires anchor <= at <= e <= |src| && m <= at && WellFormedSequence(SequenceAt(src, anchor, m, at, e))
    ensures var code := EncodeSequence(SequenceAt(src, anchor, m, at, e));
            && pre + [Token(at - anchor, e - at - MIN_MATCH)] + Middle(src, anchor, at, at - m)
               + LenBytes(e - at - MIN_MATCH) == pre + code
            && |code| == 1 + |Middle(src, anchor, at, at - m)| + |LenBytes(e - at - MIN_MATCH)|
  {
    SixParts(pre, [Token(at - anchor, e - at - MIN_MATCH)], LenBytes(at - anchor), src[anchor..at],
             OffsetBytes(at - m), LenBytes(e - at - MIN_MATCH));
  }

  lemma SixParts<T>(a: seq<T>, b: seq<T>, c: seq<T>, d: seq<T>, e: seq<T>, f: seq<T>)
    ensures a + b + (c + d + e) + f == a + (b + c + d + e + f)
  {}

  /** The closing literals, or nothing at all when they do not fit. */
  method EmitLast(src: seq<Byte>, anchor: nat, dst: array<Byte>, op: nat, capacity: nat) returns (ok: bool, end: nat)
    requires anchor <= |src| < 0x8000_0000 && op <= capacity <= dst.Length
    modifies dst
    ensures forall k :: capacity <= k < dst.Length ==> dst[k] == old(dst[k])
    ensures var code := EncodeLast(src[anchor..]);
            && ok == (op + |code| <= capacity)
            && (ok ==> end == op + |code| && dst[..end] == old(dst[..op]) + code)
  {
    var last := |src| - anchor;
    var needed := 1 + last + LenCount(last);
    end := op;
    if capacity - op < needed { return false, end; }
    assert src[anchor..anchor + last] == src[anchor..];
    end := EmitLength(dst, op, last);
    EmitLiterals(src, anchor, last, dst, end, capacity, false);
    end := end + last;
    LastBytes(old(dst[..op]), src[anchor..]);
    return true, end;
  }

  lemma LastBytes(pre: seq<Byte>, last: seq<Byte>)
    ensures pre + [16 * Nibble(|last|)] + LenBytes(|last|) + last == pre + EncodeLast(last)
  {}
}
