/** `lz4_decompress_safe`: the in-place decoder computes what the reference
    decoder computes, on every byte string, valid or not. */
module Lz4Decoder {
  import opened Bytes
  import opened Lz4Format

  /** The do-while that accumulates a length run in an unsigned 32-bit counter. */
  method ReadExtension(c: seq<Byte>, ip: nat, start: nat) returns (ok: bool, len: nat, next: nat)
    requires start < TWO32 && ip <= |c|
    ensures ok <==> ReadRun(c, ip).Some?
    ensures ok ==> len == (start + ReadRun(c, ip).value.0) % TWO32 && next == ReadRun(c, ip).value.1
  {
    next, len := ip, start;
    while true
      invariant ip <= next <= |c|
      invariant len == (start + 255 * (next - ip)) % TWO32
      invariant match ReadRun(c, next)
                case None => ReadRun(c, ip) == None
                case Some((n, j)) => ReadRun(c, ip) == Some((255 * (next - ip) + n, j))
      decreases |c| - next
    {
      if next >= |c| { return false, 0, next; }
      var s := c[next];
      ModuloAdd(start + 255 * (next - ip), s);
      next, len := next + 1, (len + s) % TWO32;
      if s != 255 { return true, len, next; }
    }
  }

  /** A token nibble and its extension: the narrow reading of `ReadLen`. */
  method ReadCount(c: seq<Byte>, ip: nat, nibble: nat, base: nat) returns (ok: bool, len: nat, next: nat)
    requires nibble <= 15 && base <= MIN_MATCH && ip <= |c|
    ensures ok <==> ReadLen(c, ip, nibble).Some?
    ensures ok ==> len == Length(ReadLen(c, ip, nibble).value.0 + base, true)
                   && next == ReadLen(c, ip, nibble).value.1
  {
    if nibble == 15 {
      ok, len, next := ReadExtension(c, ip, nibble + base);
    } else {
      ok, len, next := true, nibble + base, ip;
    }
  }

  /** memcpy of literals from the input. */
  method CopyLiterals(c: seq<Byte>, ip: nat, n: nat, dst: array<Byte>, op: nat)
    requires ip + n <= |c| && op + n <= dst.Length
    modifies dst
    ensures dst[..op + n] == old(dst[..op]) + c[ip..ip + n]
    ensures forall k :: op + n <= k < dst.Length ==> dst[k] == old(dst[k])
  {
    forall k | 0 <= k < n { dst[op + k] := c[ip + k]; }
  }

  /** The match copy: eight bytes at a time when the source lies at least eight
      behind, one fill for a single repeated byte, byte by byte otherwise. */
  method CopyBack(dst: array<Byte>, start: nat, offset: nat, len: nat)
    requires 1 <= offset <= start && start + len <= dst.Length
    modifies dst
    ensures dst[..start + len] == CopyMatch(old(dst[..start]), offset, len)
    ensures forall k :: start + len <= k < dst.Length ==> dst[k] == old(dst[k])
  {
    if offset == 1 {
      FillByte(dst, start, len);
      return;
    }
    ghost var out := dst[..start];
    var op, left := start, len;
    if offset >= 8 { op, left := CopyWords(dst, out, offset, op, left); }
    while left != 0
      invariant 0 <= left && start <= op == start + len - left && Copied(dst[..op], out, offset, op - start)
      invariant forall k :: start + len <= k < dst.Length ==> dst[k] == old(dst[k])
    {
      op := CopyBlock(dst, out, offset, op, 1);
      left := left - 1;
    }
  }

  /** As many whole words as there are. */
  method CopyWords(dst: array<Byte>, ghost out: seq<Byte>, offset: nat, start: nat, len: nat)
    returns (op: nat, left: nat)
    requires 8 <= offset <= |out| == start && start + len <= dst.Length && dst[..start] == out
    modifies dst
    ensures left < 8 && left <= len && op == start + len - left && Copied(dst[..op], out, offset, op - start)
    ensures forall k :: start + len <= k < dst.Length ==> dst[k] == old(dst[k])
  {
    op, left := start, len;
    while left >= 8
      invariant start <= op == start + len - left && Copied(dst[..op], out, offset, op - start)
      invariant forall k :: start + len <= k < dst.Length ==> dst[k] == old(dst[k])
    {
      op := CopyBlock(dst, out, offset, op, 8);
      left := left - 8;
    }
  }

  /** One byte repeated. */
  method FillByte(dst: array<Byte>, start: nat, len: nat)
    requires 1 <= start && start + len <= dst.Length
    modifies dst
    ensures dst[..start + len] == CopyMatch(old(dst[..start]), 1, len)
    ensures forall k :: start + len <= k < dst.Length ==> dst[k] == old(dst[k])
  {
    ghost var out := dst[..start];
    var v := dst[start - 1];
    forall k | 0 <= k < len { dst[start + k] := v; }
    CopyMatchUnique(out, 1, len, dst[..start + len]);
  }

  ghost predicate Copied(s: seq<Byte>, out: seq<Byte>, offset: nat, n: nat)
    requires 1 <= offset <= |out|
  {
    s == CopyMatch(out, offset, n)
  }

  /** Load `n` bytes from `offset` behind, then store them: the eight-byte word
      copy and, for one byte, the plain assignment. */
  method CopyBlock(dst: array<Byte>, ghost out: seq<Byte>, offset: nat, op: nat, n: nat) returns (end: nat)
    requires 1 <= offset <= |out| <= op && n <= offset && op + n <= dst.Length
    requires Copied(dst[..op], out, offset, op - |out|)
    modifies dst
    ensures end == op + n && Copied(dst[..end], out, offset, end - |out|)
    ensures forall k :: end <= k < dst.Length ==> dst[k] == old(dst[k])
  {
    ghost var before := dst[..op];
    CopyMatchBlock(out, offset, op - |out|, n);
    var v := dst[..op][op - offset..op - offset + n];
    forall k | 0 <= k < n { dst[op + k] := v[k]; }
    assert dst[..op + n] == before + v;
    end := op + n;
  }

  /** Nothing at or past `capacity` differs from `before`. */
  ghost predicate Untouched(before: seq<Byte>, dst: array<Byte>, capacity: nat)
    reads dst
  {
    |before| == dst.Length && forall k :: capacity <= k < dst.Length ==> dst[k] == before[k]
  }

  datatype Outcome = Rejected | Finished | Continue

  /** One turn of the decoder's loop. */
  method DecodeOne(c: seq<Byte>, ip: nat, dst: array<Byte>, op: nat, capacity: nat)
    returns (outcome: Outcome, next: nat, end: nat)
    requires ip < |c| && op <= capacity <= dst.Length
    modifies dst
    ensures Untouched(old(dst[..]), dst, capacity)
    ensures match ReadItem(c, ip, true)
            case Malformed => outcome == Rejected
            case Closing(lits) =>
              if op + |lits| > capacity then outcome == Rejected
              else outcome == Finished && end == op + |lits| && dst[..end] == old(dst[..op]) + lits
            case Item(q, n) =>
              match Step(q, old(dst[..op]), capacity)
              case None => outcome == Rejected
              case Some(o) => outcome == Continue && next == n && end == |o| && dst[..end] == o
  {
    var token := c[ip];
    var ok, litLen;
    ok, litLen, next := ReadCount(c, ip + 1, token / 16, 0);
    end := op;
    if !ok || |c| - next < litLen || capacity - op < litLen { return Rejected, next, end; }
    CopyLiterals(c, next, litLen, dst, op);
    ghost var lits := c[next..next + litLen];
    next, end := next + litLen, op + litLen;
    assert dst[..op] == old(dst[..op]) by { assert dst[..op] == dst[..end][..op]; }
    assert dst[op..end] == lits by { assert dst[op..end] == dst[..end][op..]; }
    if next >= |c| { return Finished, next, end; }
    if |c| - next < 2 { return Rejected, next, end; }
    assert ReadItem(c, ip, true) == ReadMatch(c, token % 16, lits, next, true);
    outcome, next, end := DecodeMatch(c, token % 16, next, dst, end, capacity, lits);
  }

  /** The second half of the turn: offset, match length and match copy. */
  method DecodeMatch(c: seq<Byte>, nibble: nat, k: nat, dst: array<Byte>, op: nat, capacity: nat, ghost lits: seq<Byte>)
    returns (outcome: Outcome, next: nat, end: nat)
    requires nibble <= 15 && k + 2 <= |c| && |lits| <= op <= capacity <= dst.Length
    requires dst[op - |lits|..op] == lits
    modifies dst
    ensures Untouched(old(dst[..]), dst, capacity)
    ensures match ReadMatch(c, nibble, lits, k, true)
            case Malformed => outcome == Rejected
            case Closing(_) => false
            case Item(q, n) =>
              match Step(q, old(dst[..op - |lits|]), capacity)
              case None => outcome == Rejected
              case Some(o) => outcome == Continue && next == n && end == |o| && dst[..end] == o
  {
    var offset := Offset(c[k], c[k + 1]);
    next, end := k + 2, op;
    if offset == 0 || op < offset { return Rejected, next, end; }
    var ok, matchLen;
    ok, matchLen, next := ReadCount(c, next, nibble, MIN_MATCH);
    if !ok || capacity - op < matchLen { return Rejected, next, end; }
    assert dst[..op] == dst[..op - |lits|] + lits;
    CopyBack(dst, op, offset, matchLen);
    return Continue, next, op + matchLen;
  }

  /** Returns -1 exactly when the reference decoder rejects, and otherwise the
      length of what it produces, which then stands in `dst`; nothing at or past
      `capacity` is ever written. */
  method DecompressSafe(src: seq<Byte>, dst: array<Byte>, compressedSize: int, capacity: int) returns (r: int)
    requires compressedSize <= |src| && capacity <= dst.Length
    modifies dst
    ensures compressedSize < 0 || capacity < 0 ==> r == -1 && dst[..] == old(dst[..])
    ensures compressedSize >= 0 && capacity >= 0 ==>
      && Untouched(old(dst[..]), dst, capacity)
      && match DecodeFrom(src[..compressedSize], 0, [], capacity, true)
         case None => r == -1
         case Some(out) => 0 <= r <= capacity && r == |out| && dst[..r] == out
  {
    if compressedSize < 0 || capacity < 0 { return -1; }
    var c := src[..compressedSize];
    var ip, op := 0, 0;
    ghost var goal := DecodeFrom(c, 0, [], capacity, true);
    while ip < |c|
      invariant 0 <= ip <= |c| && 0 <= op <= capacity
      invariant DecodeFrom(c, ip, dst[..op], capacity, true) == goal
      invariant Untouched(old(dst[..]), dst, capacity)
      decreases |c| - ip
    {
      DecodeItem(c, ip, dst[..op], capacity);
      var outcome, next, end := DecodeOne(c, ip, dst, op, capacity);
      if outcome == Rejected { return -1; }
      if outcome == Finished { return end; }
      ip, op := next, end;
    }
    return op;
  }

  /** One iteration of the decoder, read off the reference decoder. */
  lemma {:induction false} DecodeItem(c: seq<Byte>, i: nat, out: seq<Byte>, cap: nat)
    requires i < |c|
    ensures DecodeFrom(c, i, out, cap, true) ==
            match ReadItem(c, i, true)
            case Malformed => None
            case Closing(lits) => if |out| + |lits| > cap then None else Some(out + lits)
            case Item(q, next) => (match Step(q, out, cap)
                                   case None => None
                                   case Some(o) => DecodeFrom(c, next, o, cap, true))
  {
    match ReadItem(c, i, true)
    case Malformed =>
    case Closing(lits) =>
    case Item(q, next) =>
      match Parse(c, next, true)
      case None =>
      case Some(b) => assert ([q] + b.seqs)[1..] == b.seqs;
  }

  /** Up to 16 MiB of compressed input the 32-bit counters cannot wrap, so the
      decoder is the reference decoder of the format. */
  lemma {:induction false} NarrowDecodeIsDecode(c: seq<Byte>, cap: nat)
    requires |c| <= 0x100_0000
    ensures DecodeFrom(c, 0, [], cap, true) == Decode(c, cap)
  {
    NarrowLengthsSuffice(c, 0);
  }
}
