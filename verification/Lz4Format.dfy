/** The LZ4 Block Format: what a block says (`Parse`), what it produces
    (`Execute`), how sequences are written (`EncodeSequences`), and the laws
    joining the three. */
module Lz4Format {
  import opened Bytes

  const MIN_MATCH := 4
  const MF_LIMIT := 12
  const LAST_LITERALS := 5
  const MAX_OFFSET := 65535

  /** Literals followed by a back-reference; a block ends in bare literals. */
  datatype Sequence = Sequence(lits: seq<Byte>, offset: nat, matchLen: nat)
  datatype Block = Block(seqs: seq<Sequence>, last: seq<Byte>)

  predicate WellFormedSequence(q: Sequence) {
    1 <= q.offset <= MAX_OFFSET && q.matchLen >= MIN_MATCH
  }

  ghost predicate WellFormed(seqs: seq<Sequence>) {
    forall k :: 0 <= k < |seqs| ==> WellFormedSequence(seqs[k])
  }

  // ---------------------------------------------------------------- writing

  function Nibble(n: nat): Byte { if n < 15 then n else 15 }

  function LenRun(n: nat): (r: seq<Byte>)
    ensures |r| == 1 + n / 255
  {
    if n < 255 then [n] else [255] + LenRun(n - 255)
  }

  function LenBytes(n: nat): seq<Byte> { if n < 15 then [] else LenRun(n - 15) }

  function Token(lits: nat, matchToken: nat): Byte { 16 * Nibble(lits) + Nibble(matchToken) }

  function OffsetBytes(offset: nat): seq<Byte> { [offset % 256, offset / 256 % 256] }

  function EncodeSequence(q: Sequence): seq<Byte>
    requires WellFormedSequence(q)
  {
    [Token(|q.lits|, q.matchLen - MIN_MATCH)] + LenBytes(|q.lits|) + q.lits
    + OffsetBytes(q.offset) + LenBytes(q.matchLen - MIN_MATCH)
  }

  function EncodeLast(last: seq<Byte>): seq<Byte> {
    [Token(|last|, 0)] + LenBytes(|last|) + last
  }

  function EncodeEach(seqs: seq<Sequence>): (r: seq<seq<Byte>>)
    requires WellFormed(seqs)
    ensures |r| == |seqs|
  {
    seq(|seqs|, i requires 0 <= i < |seqs| => EncodeSequence(seqs[i]))
  }

  function EncodeSequences(seqs: seq<Sequence>): seq<Byte>
    requires WellFormed(seqs)
  {
    Flatten(EncodeEach(seqs))
  }

  lemma {:induction false} EncodeSnoc(seqs: seq<Sequence>, q: Sequence)
    requires WellFormed(seqs) && WellFormedSequence(q)
    ensures EncodeSequences(seqs + [q]) == EncodeSequences(seqs) + EncodeSequence(q)
  {
    FlattenSnoc(EncodeEach(seqs), EncodeSequence(q));
    assert EncodeEach(seqs + [q]) == EncodeEach(seqs) + [EncodeSequence(q)];
  }

  function Encode(b: Block): seq<Byte>
    requires WellFormed(b.seqs)
  {
    EncodeSequences(b.seqs) + EncodeLast(b.last)
  }

  // ---------------------------------------------------------------- reading

  /** A length run: bytes of 255 continue it, any other byte ends it. */
  function ReadRun(c: seq<Byte>, i: nat): (r: Option<(nat, nat)>)
    ensures r.Some? ==> i < r.value.1 <= |c| && r.value.0 <= 255 * (r.value.1 - i)
    decreases |c| - i
  {
    if i >= |c| then None
    else if c[i] != 255 then Some((c[i], i + 1))
    else match ReadRun(c, i + 1)
      case None => None
      case Some((n, j)) => Some((255 + n, j))
  }

  function ReadLen(c: seq<Byte>, i: nat, nibble: nat): (r: Option<(nat, nat)>)
    requires i <= |c| && nibble <= 15
    ensures r.Some? ==> i <= r.value.1 <= |c| && r.value.0 <= 15 + 255 * (r.value.1 - i)
  {
    if nibble < 15 then Some((nibble, i))
    else match ReadRun(c, i)
      case None => None
      case Some((n, j)) => Some((15 + n, j))
  }

  /** `narrow` keeps lengths in 32 bits, as the decoder's unsigned counters do;
      without it lengths are the unbounded ones the format speaks of. */
  function Length(n: nat, narrow: bool): (r: nat)
    ensures r <= n
  {
    if narrow then n % TWO32 else n
  }

  /** What stands at one position: a sequence and where the next one starts,
      the closing literals, or neither. */
  datatype Item = Malformed | Closing(lits: seq<Byte>) | Item(q: Sequence, next: nat)

  function Offset(lo: int, hi: int): int { lo + 256 * hi }

  function ReadItem(c: seq<Byte>, i: nat, narrow: bool): (r: Item)
    requires i < |c|
    ensures r.Item? ==> i < r.next <= |c|
  {
    match ReadLen(c, i + 1, c[i] / 16)
    case None => Malformed
    case Some((l, j)) =>
      var lits := Length(l, narrow);
      if |c| - j < lits then Malformed
      else if j + lits == |c| then Closing(c[j..])
      else if |c| - j - lits < 2 then Malformed
      else ReadMatch(c, c[i] % 16, c[j..j + lits], j + lits, narrow)
  }

  function ReadMatch(c: seq<Byte>, nibble: nat, lits: seq<Byte>, k: nat, narrow: bool): (r: Item)
    requires k + 2 <= |c| && nibble <= 15
    ensures r.Item? ==> k + 2 <= r.next <= |c|
    ensures !r.Closing?
  {
    match ReadLen(c, k + 2, nibble)
    case None => Malformed
    case Some((m, e)) => Item(Sequence(lits, Offset(c[k], c[k + 1]), Length(m + MIN_MATCH, narrow)), e)
  }

  function Cons(q: Sequence, rest: Option<Block>): Option<Block> {
    match rest
    case None => None
    case Some(b) => Some(Block([q] + b.seqs, b.last))
  }

  function Parse(c: seq<Byte>, i: nat, narrow: bool): Option<Block>
    requires i <= |c|
    decreases |c| - i
  {
    if i == |c| then Some(Block([], []))
    else match ReadItem(c, i, narrow)
      case Malformed => None
      case Closing(lits) => Some(Block([], lits))
      case Item(q, next) => Cons(q, Parse(c, next, narrow))
  }

  // -------------------------------------------------------------- executing

  /** The byte-at-a-time overlapping copy. */
  function CopyMatch(out: seq<Byte>, offset: nat, n: nat): (r: seq<Byte>)
    requires 1 <= offset <= |out|
    ensures |r| == |out| + n && out <= r
    decreases n
  {
    if n == 0 then out else CopyMatch(out + [out[|out| - offset]], offset, n - 1)
  }

  /** Nothing else is an overlapping copy. */
  lemma {:induction false} CopyMatchUnique(out: seq<Byte>, offset: nat, n: nat, r: seq<Byte>)
    requires 1 <= offset <= |out|
    requires |r| == |out| + n && out <= r
    requires forall k :: |out| <= k < |r| ==> r[k] == r[k - offset]
    ensures r == CopyMatch(out, offset, n)
    decreases n
  {
    if n == 0 {
    } else {
      var out' := out + [out[|out| - offset]];
      assert r[|out|] == r[|out| - offset] == out[|out| - offset];
      CopyMatchUnique(out', offset, n - 1, r);
    }
  }

  lemma {:induction false} CopyMatchSplit(out: seq<Byte>, offset: nat, n: nat, k: nat)
    requires 1 <= offset <= |out|
    ensures CopyMatch(out, offset, n + k) == CopyMatch(CopyMatch(out, offset, n), offset, k)
    decreases n
  {
    if n == 0 {
    } else {
      CopyMatchSplit(out + [out[|out| - offset]], offset, n - 1, k);
    }
  }

  /** Up to `offset` bytes can be copied in one block. */
  lemma {:induction false} CopyMatchBlock(out: seq<Byte>, offset: nat, n: nat, k: nat)
    requires 1 <= offset <= |out| && k <= offset
    ensures var r := CopyMatch(out, offset, n); var from := |r| - offset;
            CopyMatch(out, offset, n + k) == r + r[from..from + k]
  {
    CopyMatchSplit(out, offset, n, k);
    var r := CopyMatch(out, offset, n);
    CopyMatchUnique(r, offset, k, r + r[|r| - offset..|r| - offset + k]);
  }

  function Step(q: Sequence, out: seq<Byte>, cap: nat): (r: Option<seq<Byte>>)
    ensures r.Some? ==> |r.value| == |out| + |q.lits| + q.matchLen <= cap
  {
    if |out| + |q.lits| > cap || q.offset == 0 || q.offset > |out| + |q.lits|
       || |out| + |q.lits| + q.matchLen > cap
    then None
    else Some(CopyMatch(out + q.lits, q.offset, q.matchLen))
  }

  function Run(seqs: seq<Sequence>, out: seq<Byte>, cap: nat): Option<seq<Byte>> {
    if seqs == [] then Some(out)
    else match Step(seqs[0], out, cap)
      case None => None
      case Some(o) => Run(seqs[1..], o, cap)
  }

  function Execute(b: Block, out: seq<Byte>, cap: nat): Option<seq<Byte>> {
    match Run(b.seqs, out, cap)
    case None => None
    case Some(o) => if |o| + |b.last| > cap then None else Some(o + b.last)
  }

  /** The reference decoder, from position `i` with `out` already produced. */
  function DecodeFrom(c: seq<Byte>, i: nat, out: seq<Byte>, cap: nat, narrow: bool): Option<seq<Byte>>
    requires i <= |c|
  {
    match Parse(c, i, narrow)
    case None => None
    case Some(b) => Execute(b, out, cap)
  }

  function Decode(c: seq<Byte>, cap: nat): Option<seq<Byte>> { DecodeFrom(c, 0, [], cap, false) }

  // ------------------------------------------------------------------- laws

  lemma {:induction false} RunSnoc(seqs: seq<Sequence>, q: Sequence, out: seq<Byte>, cap: nat)
    ensures Run(seqs + [q], out, cap) ==
            (match Run(seqs, out, cap) case None => None case Some(o) => Step(q, o, cap))
  {
    if seqs == [] {
      assert seqs + [q] == [q];
    } else {
      assert (seqs + [q])[1..] == seqs[1..] + [q];
      match Step(seqs[0], out, cap)
      case None =>
      case Some(o) => RunSnoc(seqs[1..], q, o, cap);
    }
  }

  lemma {:induction false} EncodeAppend(a: seq<Sequence>, b: seq<Sequence>)
    requires WellFormed(a) && WellFormed(b)
    ensures EncodeSequences(a + b) == EncodeSequences(a) + EncodeSequences(b)
    decreases |b|
  {
    if b == [] {
      assert a + b == a;
    } else {
      var init, q := b[..|b| - 1], b[|b| - 1];
      EncodeAppend(a, init);
      EncodeSnoc(a + init, q);
      EncodeSnoc(init, q);
      assert (a + init) + [q] == a + b && init + [q] == b;
      Associative(EncodeSequences(a), EncodeSequences(init), EncodeSequence(q));
    }
  }

  lemma {:induction false} ReadRunInverse(c: seq<Byte>, i: nat, n: nat)
    requires At(c, i, LenRun(n))
    ensures ReadRun(c, i) == Some((n, i + |LenRun(n)|))
    decreases n
  {
    assert c[i] == LenRun(n)[0];
    if n < 255 {
    } else {
      AtSplit(c, i, [255], LenRun(n - 255));
      ReadRunInverse(c, i + 1, n - 255);
    }
  }

  lemma {:induction false} ReadLenInverse(c: seq<Byte>, i: nat, n: nat)
    requires At(c, i, LenBytes(n))
    ensures ReadLen(c, i, Nibble(n)) == Some((n, i + |LenBytes(n)|))
  {
    if n >= 15 { ReadRunInverse(c, i, n - 15); }
  }

  /** Lengths the chosen reading does not clip. */
  ghost predicate Exact(b: Block, narrow: bool) {
    narrow ==>
      |b.last| < TWO32 && forall k :: 0 <= k < |b.seqs| ==> |b.seqs[k].lits| < TWO32 && b.seqs[k].matchLen < TWO32
  }

  lemma LengthExact(n: nat, narrow: bool)
    requires narrow ==> n < TWO32
    ensures Length(n, narrow) == n
  {}

  lemma {:induction false} ClosingLayout(c: seq<Byte>, i: nat, last: seq<Byte>)
    requires At(c, i, EncodeLast(last))
    ensures i < |c| && c[i] / 16 == Nibble(|last|) && At(c, i + 1, LenBytes(|last|))
    ensures At(c, i + 1 + |LenBytes(|last|)|, last)
  {
    var tok, lb := Token(|last|, 0), LenBytes(|last|);
    AtSplit(c, i, [tok] + lb, last);
    AtSplit(c, i, [tok], lb);
    assert c[i] == [tok][0];
  }

  lemma {:induction false} ReadClosing(c: seq<Byte>, i: nat, last: seq<Byte>, narrow: bool)
    requires At(c, i, EncodeLast(last)) && i + |EncodeLast(last)| == |c|
    requires narrow ==> |last| < TWO32
    ensures i < |c| && ReadItem(c, i, narrow) == Closing(last)
  {
    ClosingLayout(c, i, last);
    ReadLenInverse(c, i + 1, |last|);
    LengthExact(|last|, narrow);
    AtSlice(c, i + 1 + |LenBytes(|last|)|, last);
  }

  lemma {:induction false} ReadMatchInverse(c: seq<Byte>, k: nat, q: Sequence, narrow: bool)
    requires WellFormedSequence(q) && (narrow ==> q.matchLen < TWO32)
    requires At(c, k, OffsetBytes(q.offset)) && At(c, k + 2, LenBytes(q.matchLen - MIN_MATCH))
    ensures ReadMatch(c, Nibble(q.matchLen - MIN_MATCH), q.lits, k, narrow)
            == Item(q, k + 2 + |LenBytes(q.matchLen - MIN_MATCH)|)
  {
    assert c[k] == OffsetBytes(q.offset)[0] && c[k + 1] == OffsetBytes(q.offset)[1];
    ReadLenInverse(c, k + 2, q.matchLen - MIN_MATCH);
    LengthExact(q.matchLen, narrow);
  }

  lemma {:induction false} SequenceLayout(c: seq<Byte>, i: nat, q: Sequence)
    requires WellFormedSequence(q) && At(c, i, EncodeSequence(q))
    ensures i < |c| && c[i] / 16 == Nibble(|q.lits|) && c[i] % 16 == Nibble(q.matchLen - MIN_MATCH)
    ensures At(c, i + 1, LenBytes(|q.lits|))
    ensures var j := i + 1 + |LenBytes(|q.lits|)|; var k := j + |q.lits|;
            At(c, j, q.lits) && At(c, k, OffsetBytes(q.offset)) && At(c, k + 2, LenBytes(q.matchLen - MIN_MATCH))
  {
    var tok, lb := Token(|q.lits|, q.matchLen - MIN_MATCH), LenBytes(|q.lits|);
    var ob, mb := OffsetBytes(q.offset), LenBytes(q.matchLen - MIN_MATCH);
    AtSplit(c, i, [tok] + lb + q.lits + ob, mb);
    AtSplit(c, i, [tok] + lb + q.lits, ob);
    AtSplit(c, i, [tok] + lb, q.lits);
    AtSplit(c, i, [tok], lb);
    assert c[i] == [tok][0];
  }

  /** Reading back one encoded sequence. */
  lemma {:induction false} ReadSequence(c: seq<Byte>, i: nat, q: Sequence, narrow: bool)
    requires WellFormedSequence(q) && (narrow ==> |q.lits| < TWO32 && q.matchLen < TWO32)
    requires At(c, i, EncodeSequence(q))
    ensures ReadItem(c, i, narrow) == Item(q, i + |EncodeSequence(q)|)
  {
    SequenceLayout(c, i, q);
    SequenceLength(q);
    var j := i + 1 + |LenBytes(|q.lits|)|;
    var k := j + |q.lits|;
    ReadLiterals(c, i, j, k, q.lits, narrow);
    ReadMatchInverse(c, k, q, narrow);
  }

  /** Behind its literals an item is a sequence. */
  lemma {:induction false} ReadLiterals(c: seq<Byte>, i: nat, j: nat, k: nat, lits: seq<Byte>, narrow: bool)
    requires i < |c| && c[i] / 16 == Nibble(|lits|) && At(c, i + 1, LenBytes(|lits|)) && At(c, j, lits)
    requires j == i + 1 + |LenBytes(|lits|)| && k == j + |lits| && k + 2 <= |c| && (narrow ==> |lits| < TWO32)
    ensures ReadItem(c, i, narrow) == ReadMatch(c, c[i] % 16, lits, k, narrow)
  {
    ReadLenInverse(c, i + 1, |lits|);
    LengthExact(|lits|, narrow);
    AtSlice(c, j, lits);
  }

  lemma {:induction false} SequenceLength(q: Sequence)
    requires WellFormedSequence(q)
    ensures |EncodeSequence(q)| == 1 + |LenBytes(|q.lits|)| + |q.lits| + 2 + |LenBytes(q.matchLen - MIN_MATCH)|
  {
    assert |OffsetBytes(q.offset)| == 2;
  }

  lemma {:induction false} EncodeLayout(c: seq<Byte>, i: nat, b: Block)
    requires WellFormed(b.seqs) && b.seqs != [] && At(c, i, Encode(b))
    ensures var next, rest := i + |EncodeSequence(b.seqs[0])|, Block(b.seqs[1..], b.last);
            && At(c, i, EncodeSequence(b.seqs[0])) && At(c, next, Encode(rest))
            && next + |Encode(rest)| == i + |Encode(b)|
  {
    EncodeFront(b);
    AtSplit(c, i, EncodeSequence(b.seqs[0]), Encode(Block(b.seqs[1..], b.last)));
  }

  lemma ParseCons(c: seq<Byte>, i: nat, q: Sequence, next: nat, rest: Block, narrow: bool)
    requires i < |c| && ReadItem(c, i, narrow) == Item(q, next) && Parse(c, next, narrow) == Some(rest)
    ensures Parse(c, i, narrow) == Some(Block([q] + rest.seqs, rest.last))
  {}

  lemma {:induction false} ParseEncodeFrom(c: seq<Byte>, i: nat, b: Block, narrow: bool)
    requires WellFormed(b.seqs) && Exact(b, narrow)
    requires At(c, i, Encode(b)) && i + |Encode(b)| == |c|
    ensures Parse(c, i, narrow) == Some(b)
    decreases |b.seqs|
  {
    if b.seqs == [] {
      AtSplit(c, i, [], EncodeLast(b.last));
      ReadClosing(c, i, b.last, narrow);
    } else {
      var q, rest := b.seqs[0], Block(b.seqs[1..], b.last);
      var next := i + |EncodeSequence(q)|;
      EncodeLayout(c, i, b);
      ReadSequence(c, i, q, narrow);
      ParseEncodeFrom(c, next, rest, narrow);
      ParseCons(c, i, q, next, rest, narrow);
      assert [q] + rest.seqs == b.seqs;
    }
  }

  lemma {:induction false} EncodeFront(b: Block)
    requires WellFormed(b.seqs) && b.seqs != []
    ensures Encode(b) == EncodeSequence(b.seqs[0]) + Encode(Block(b.seqs[1..], b.last))
  {
    assert EncodeEach(b.seqs)[1..] == EncodeEach(b.seqs[1..]);
    Associative(EncodeSequence(b.seqs[0]), EncodeSequences(b.seqs[1..]), EncodeLast(b.last));
  }

  /** Reading a written block gives the block back. */
  lemma {:induction false} ParseEncode(b: Block, narrow: bool)
    requires WellFormed(b.seqs) && Exact(b, narrow)
    ensures Parse(Encode(b), 0, narrow) == Some(b)
  {
    ParseEncodeFrom(Encode(b), 0, b, narrow);
  }

  // ----------------------------------------------- blocks that stand for a source

  /** Bytes the sequences produce when they run. */
  function Produced(seqs: seq<Sequence>): nat {
    if seqs == [] then 0
    else Produced(seqs[..|seqs| - 1]) + |seqs[|seqs| - 1].lits| + seqs[|seqs| - 1].matchLen
  }

  /** Every match starts at least twelve bytes before position `end`. */
  ghost predicate MatchesEndBefore(seqs: seq<Sequence>, end: int) {
    forall k :: 0 <= k < |seqs| ==> Produced(seqs[..k]) + |seqs[k].lits| + MF_LIMIT <= end
  }

  /** `b` is a legal LZ4 block, "End of block conditions" included, and it
      stands for exactly `src`. */
  ghost predicate StandsFor(b: Block, src: seq<Byte>) {
    && WellFormed(b.seqs)
    && Execute(b, [], |src|) == Some(src)
    && |b.last| >= LAST_LITERALS
    && MatchesEndBefore(b.seqs, |src|)
  }

  lemma {:induction false} RunLength(seqs: seq<Sequence>, cap: nat)
    requires Run(seqs, [], cap).Some?
    ensures |Run(seqs, [], cap).value| == Produced(seqs)
    ensures forall k :: 0 <= k < |seqs| ==> |seqs[k].lits| + seqs[k].matchLen <= Produced(seqs)
  {
    if seqs == [] {
    } else {
      var init, q := seqs[..|seqs| - 1], seqs[|seqs| - 1];
      assert seqs == init + [q];
      RunSnoc(init, q, [], cap);
      RunLength(init, cap);
    }
  }

  lemma {:induction false} RunMoreRoom(seqs: seq<Sequence>, out: seq<Byte>, cap: nat, cap': nat)
    requires cap <= cap' && Run(seqs, out, cap).Some?
    ensures Run(seqs, out, cap') == Run(seqs, out, cap)
  {
    if seqs == [] {
    } else {
      RunMoreRoom(seqs[1..], Step(seqs[0], out, cap).value, cap, cap');
    }
  }

  function Prepend(seqs: seq<Sequence>, b: Block): Block { Block(seqs + b.seqs, b.last) }

  lemma {:induction false} EncodePrependLonger(seqs: seq<Sequence>, b: Block)
    requires WellFormed(seqs) && WellFormed(b.seqs)
    ensures |Encode(Prepend(seqs, b))| > |EncodeSequences(seqs)|
  {
    EncodeAppend(seqs, b.seqs);
  }

  /** The round trip: an encoded block that stands for `src` decodes to `src`,
      under either reading of lengths, into any buffer that is long enough. */
  lemma {:induction false} RoundTrip(b: Block, src: seq<Byte>, cap: nat, narrow: bool)
    requires StandsFor(b, src) && |src| <= cap && (narrow ==> |src| < TWO32)
    ensures DecodeFrom(Encode(b), 0, [], cap, narrow) == Some(src)
  {
    RunLength(b.seqs, |src|);
    RunMoreRoom(b.seqs, [], |src|, cap);
    ParseEncode(b, narrow);
  }

  lemma {:induction false} SequencesSize(seqs: seq<Sequence>)
    requires WellFormed(seqs)
    ensures 255 * |EncodeSequences(seqs)| <= 256 * Produced(seqs)
  {
    if seqs == [] {
    } else {
      var init, q := seqs[..|seqs| - 1], seqs[|seqs| - 1];
      assert seqs == init + [q];
      EncodeSnoc(init, q);
      SequencesSize(init);
      SequenceSize(q);
    }
  }

  lemma {:induction false} SequenceSize(q: Sequence)
    requires WellFormedSequence(q)
    ensures 255 * |EncodeSequence(q)| <= 256 * (|q.lits| + q.matchLen)
  {
    LenBytesSize(|q.lits|);
    LenBytesSize(q.matchLen - MIN_MATCH);
  }

  lemma LenBytesSize(n: nat)
    ensures n < 15 ==> |LenBytes(n)| == 0
    ensures 255 * |LenBytes(n)| <= 240 + n
  {}

  /** No block is longer than its source by more than one byte in 255, plus two. */
  lemma {:induction false} BlockSize(b: Block, src: seq<Byte>)
    requires StandsFor(b, src)
    ensures |Encode(b)| <= |src| + |src| / 255 + 2
  {
    RunLength(b.seqs, |src|);
    SequencesSize(b.seqs);
    LenBytesSize(|b.last|);
  }

  /** Up to 16 MiB of input the 32-bit counters cannot wrap. */
  lemma {:induction false} NarrowLengthsSuffice(c: seq<Byte>, i: nat)
    requires i <= |c| <= 0x100_0000
    ensures Parse(c, i, true) == Parse(c, i, false)
    decreases |c| - i
  {
    if i == |c| {
    } else {
      NarrowItem(c, i);
      match ReadItem(c, i, false)
      case Malformed =>
      case Closing(_) =>
      case Item(_, next) => NarrowLengthsSuffice(c, next);
    }
  }

  lemma {:induction false} NarrowItem(c: seq<Byte>, i: nat)
    requires i < |c| <= 0x100_0000
    ensures ReadItem(c, i, true) == ReadItem(c, i, false)
  {
    match ReadLen(c, i + 1, c[i] / 16)
    case None =>
    case Some((l, j)) =>
      assert Length(l, true) == l;
      if |c| - j >= l + 2 {
        match ReadLen(c, j + l + 2, c[i] % 16)
        case None =>
        case Some((m, e)) => assert Length(m + MIN_MATCH, true) == m + MIN_MATCH;
      }
  }
}
