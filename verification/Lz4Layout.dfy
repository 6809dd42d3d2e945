/** The bytes of the block format one by one, and that nothing but written blocks
    is read. */
module Lz4Layout {
  import opened Bytes
  import opened Lz4Format
  import opened Lz4Greedy

  // ------------------------------------------------------------------- layout

  function Sum(s: seq<Byte>): nat { if s == [] then 0 else s[0] + Sum(s[1..]) }

  /** Extension bytes: as many of 255 as fit, and one less than that; they add up
      to the length less fifteen. */
  lemma {:induction false} ExtensionBytes(n: nat)
    ensures n < 15 ==> LenBytes(n) == []
    ensures n >= 15 ==>
      && |LenBytes(n)| == 1 + (n - 15) / 255 && 15 + Sum(LenBytes(n)) == n
      && LenBytes(n)[|LenBytes(n)| - 1] < 255
      && forall k :: 0 <= k < |LenBytes(n)| - 1 ==> LenBytes(n)[k] == 255
  {
    if n >= 15 { RunBytes(n - 15); }
  }

  lemma {:induction false} RunBytes(n: nat)
    ensures Sum(LenRun(n)) == n && LenRun(n)[|LenRun(n)| - 1] < 255
    ensures forall k :: 0 <= k < |LenRun(n)| - 1 ==> LenRun(n)[k] == 255
  {
    var r := LenRun(n);
    if n < 255 {
      assert r == [n] && Sum([n]) == n + Sum([n][1..]);
    } else {
      RunBytes(n - 255);
      assert r[1..] == LenRun(n - 255);
    }
  }

  /** A sequence: the literal length in the high half of the token and the match
      length less four in the low half, literals, the offset with its low byte
      first, and what is left of both lengths. */
  lemma {:induction false} SequenceBytes(q: Sequence, j: nat, k: nat)
    requires WellFormedSequence(q) && j == 1 + |LenBytes(|q.lits|)| && k == j + |q.lits|
    ensures var c := EncodeSequence(q);
            && k + 2 + |LenBytes(q.matchLen - 4)| == |c|
            && c[0] == 16 * Min(|q.lits|, 15) + Min(q.matchLen - 4, 15)
            && c[1..j] == LenBytes(|q.lits|) && c[j..k] == q.lits
            && LittleEndian(c[k..k + 2]) == q.offset && c[k + 2..] == LenBytes(q.matchLen - 4)
  {
    SequenceLength(q);
    FiveParts(Token(|q.lits|, q.matchLen - 4), LenBytes(|q.lits|), q.lits, OffsetBytes(q.offset),
              LenBytes(q.matchLen - 4), EncodeSequence(q));
    TwoBytes(q.offset);
  }

  lemma FiveParts(t: Byte, a: seq<Byte>, b: seq<Byte>, o: seq<Byte>, m: seq<Byte>, c: seq<Byte>)
    requires c == [t] + a + b + o + m
    ensures var j := 1 + |a|; var k := j + |b|; var e := k + |o|;
            c[0] == t && c[1..j] == a && c[j..k] == b && c[k..e] == o && c[e..] == m && |c| == e + |m|
  {}

  lemma {:induction false} TwoBytes(offset: nat)
    requires offset <= 65535
    ensures LittleEndian(OffsetBytes(offset)) == offset
  {
    var o := OffsetBytes(offset);
    assert o[1..] == [o[1]] && LittleEndian([o[1]]) == o[1] + 256 * LittleEndian([o[1]][1..]);
  }

  /** The bucket of four bytes: the top twelve bits of a 32-bit product. */
  lemma {:induction false} HashBits(src: seq<Byte>, p: nat)
    requires p + 4 <= |src|
    ensures var x := LittleEndian(src[p..p + 4]) * 2654435761 % TWO32;
            Hash(src, p) * 0x10_0000 <= x < (Hash(src, p) + 1) * 0x10_0000
  {
    var x := Word(src, p) * 2654435761 % TWO32;
    assert x == x / POSITIONS * POSITIONS + x % POSITIONS;
  }

  // ---------------------------------------------------- only what has been written

  lemma {:induction false} RunRead(c: seq<Byte>, i: nat)
    requires ReadRun(c, i).Some?
    ensures var (n, j) := ReadRun(c, i).value; c[i..j] == LenRun(n)
    decreases |c| - i
  {
    var (n, j) := ReadRun(c, i).value;
    if c[i] == 255 {
      RunRead(c, i + 1);
      assert c[i..j] == [c[i]] + c[i + 1..j];
    } else {
      assert c[i..j] == [c[i]];
    }
  }

  lemma {:induction false} LengthRead(c: seq<Byte>, i: nat, nibble: nat)
    requires i <= |c| && nibble <= 15 && ReadLen(c, i, nibble).Some?
    ensures var (n, j) := ReadLen(c, i, nibble).value; nibble == Nibble(n) && c[i..j] == LenBytes(n)
  {
    if nibble == 15 { RunRead(c, i); }
  }

  /** A sequence that is read with a proper offset has been written so. */
  lemma {:induction false} SequenceRead(c: seq<Byte>, i: nat)
    requires i < |c| && ReadItem(c, i, false).Item? && ReadItem(c, i, false).q.offset > 0
    ensures var r := ReadItem(c, i, false);
            WellFormedSequence(r.q) && c[i..r.next] == EncodeSequence(r.q)
  {
    var j, k := ItemParts(c, i);
    var Item(q, next) := ReadItem(c, i, false);
    MatchRead(c, c[i] % 16, c[j..k], k);
    Together(c, i, j, k, next, q);
  }

  /** The literals of a sequence stand from `j` to `k`. */
  lemma {:induction false} ItemParts(c: seq<Byte>, i: nat) returns (j: nat, k: nat)
    requires i < |c| && ReadItem(c, i, false).Item?
    ensures i < j <= k && k + 2 <= |c| && c[i] / 16 == Nibble(k - j) && c[i + 1..j] == LenBytes(k - j)
    ensures ReadItem(c, i, false) == ReadMatch(c, c[i] % 16, c[j..k], k, false)
  {
    var (n, e) := ReadLen(c, i + 1, c[i] / 16).value;
    LengthRead(c, i + 1, c[i] / 16);
    j, k := e, e + n;
  }

  lemma {:induction false} Together(c: seq<Byte>, i: nat, j: nat, k: nat, e: nat, q: Sequence)
    requires i < j <= k && k + 2 <= e <= |c| && WellFormedSequence(q) && q.lits == c[j..k]
    requires c[i] / 16 == Nibble(k - j) && c[i] % 16 == Nibble(q.matchLen - 4)
    requires c[i + 1..j] == LenBytes(k - j) && c[k..k + 2] == OffsetBytes(q.offset)
    requires c[k + 2..e] == LenBytes(q.matchLen - 4)
    ensures c[i..e] == EncodeSequence(q)
  {
    Joined(c, i, j, k, e);
    assert c[i] == Token(k - j, q.matchLen - 4);
  }

  lemma {:induction false} MatchRead(c: seq<Byte>, nibble: nat, lits: seq<Byte>, k: nat)
    requires k + 2 <= |c| && nibble <= 15 && ReadMatch(c, nibble, lits, k, false).Item?
    ensures var Item(q, next) := ReadMatch(c, nibble, lits, k, false);
            && q.lits == lits && q.offset <= MAX_OFFSET && q.matchLen >= 4 && nibble == Nibble(q.matchLen - 4)
            && c[k..k + 2] == OffsetBytes(q.offset) && c[k + 2..next] == LenBytes(q.matchLen - 4)
  {
    LengthRead(c, k + 2, nibble);
    OffsetRead(c[k], c[k + 1]);
  }

  lemma OffsetRead(lo: Byte, hi: Byte)
    ensures OffsetBytes(Offset(lo, hi)) == [lo, hi]
  {}

  lemma Joined(c: seq<Byte>, i: nat, j: nat, k: nat, e: nat)
    requires i < j <= k && k + 2 <= e <= |c|
    ensures c[i..e] == [c[i]] + c[i + 1..j] + c[j..k] + c[k..k + 2] + c[k + 2..e]
  {}

  /** The end of a block: nothing, or a token whose low half is free, and the last
      literals. */
  ghost predicate EndsWith(t: seq<Byte>, last: seq<Byte>) {
    if t == [] then last == [] else t[0] / 16 == Nibble(|last|) && t[1..] == LenBytes(|last|) + last
  }

  lemma {:induction false} ClosingRead(c: seq<Byte>, i: nat)
    requires i < |c| && ReadItem(c, i, false).Closing?
    ensures EndsWith(c[i..], ReadItem(c, i, false).lits)
  {
    var (n, j) := ReadLen(c, i + 1, c[i] / 16).value;
    LengthRead(c, i + 1, c[i] / 16);
    assert c[i..][1..] == c[i + 1..j] + c[j..];
  }

  ghost predicate ProperOffsets(b: Block) { forall k :: 0 <= k < |b.seqs| ==> b.seqs[k].offset > 0 }

  /** Whatever parses, with offsets that are not zero, has been written so, except
      for the low half of the last token. */
  lemma {:induction false} ParsesOnlyEncodings(c: seq<Byte>, i: nat, b: Block)
    requires i <= |c| && Parse(c, i, false) == Some(b) && ProperOffsets(b)
    ensures WellFormed(b.seqs) && EncodeSequences(b.seqs) <= c[i..]
    ensures EndsWith(c[i + |EncodeSequences(b.seqs)|..], b.last)
    decreases |c| - i
  {
    if i < |c| && ReadItem(c, i, false).Item? {
      var Item(q, next) := ReadItem(c, i, false);
      var rest := Block(b.seqs[1..], b.last);
      assert Parse(c, next, false) == Some(rest) by { assert ([q] + rest.seqs)[1..] == rest.seqs; }
      assert q == b.seqs[0];
      SequenceRead(c, i);
      ParsesOnlyEncodings(c, next, rest);
      FrontRead(c, i, next, b);
    } else if i < |c| {
      ClosingRead(c, i);
      assert EncodeSequences([]) == [];
    } else {
      assert EncodeSequences([]) == [];
    }
  }

  lemma {:induction false} FrontRead(c: seq<Byte>, i: nat, next: nat, b: Block)
    requires i <= next <= |c| && b.seqs != [] && WellFormedSequence(b.seqs[0]) && WellFormed(b.seqs[1..])
    requires c[i..next] == EncodeSequence(b.seqs[0]) && EncodeSequences(b.seqs[1..]) <= c[next..]
    ensures WellFormed(b.seqs) && EncodeSequences(b.seqs) <= c[i..]
    ensures i + |EncodeSequences(b.seqs)| == next + |EncodeSequences(b.seqs[1..])|
  {
    assert b.seqs == [b.seqs[0]] + b.seqs[1..];
    assert EncodeEach(b.seqs)[1..] == EncodeEach(b.seqs[1..]);
    assert EncodeSequences(b.seqs) == EncodeSequence(b.seqs[0]) + EncodeSequences(b.seqs[1..]);
    assert c[i..] == c[i..next] + c[next..];
  }

  lemma {:induction false} RunOffsets(seqs: seq<Sequence>, out: seq<Byte>, cap: nat)
    requires Run(seqs, out, cap).Some?
    ensures forall k :: 0 <= k < |seqs| ==> seqs[k].offset > 0
  {
    if seqs != [] {
      RunOffsets(seqs[1..], Step(seqs[0], out, cap).value, cap);
      assert forall k :: 1 <= k < |seqs| ==> seqs[k] == seqs[1..][k - 1];
    }
  }

  /** What decodes is the writing of a block that stands for the output. */
  lemma {:induction false} DecodesOnlyBlocks(c: seq<Byte>, cap: nat) returns (b: Block)
    requires Decode(c, cap).Some?
    ensures WellFormed(b.seqs) && Execute(b, [], cap) == Decode(c, cap)
    ensures EncodeSequences(b.seqs) <= c && EndsWith(c[|EncodeSequences(b.seqs)|..], b.last)
  {
    b := Parse(c, 0, false).value;
    RunOffsets(b.seqs, [], cap);
    ParsesOnlyEncodings(c, 0, b);
    assert c[0..] == c;
  }
}
