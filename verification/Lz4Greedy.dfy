/** What the compressor computes, said without its hash table: the greedy parse
    over a dictionary that starts empty on every call. */
module Lz4Greedy {
  import opened Bytes
  import opened Lz4Format

  const BUCKETS: nat := 4096
  const POSITIONS: nat := 0x10_0000

  function Word(src: seq<Byte>, p: nat): nat
    requires p + 4 <= |src|
  {
    LittleEndian(src[p..p + 4])
  }

  /** The top twelve bits of a 32-bit product. */
  function Bucket(h: nat): (r: nat)
    ensures r < BUCKETS
  {
    h * 2654435761 % TWO32 / POSITIONS
  }

  function Hash(src: seq<Byte>, p: nat): (h: nat)
    requires p + 4 <= |src|
    ensures h < BUCKETS
  {
    Bucket(Word(src, p))
  }

  /** Bucket to the low 20 bits of the last position entered in it. */
  type Dict = map<nat, nat>

  function Enter(d: Dict, src: seq<Byte>, p: nat): Dict
    requires p + 4 <= |src|
  {
    d[Hash(src, p) := p % POSITIONS]
  }

  function EnterRange(d: Dict, src: seq<Byte>, lo: nat, hi: nat): Dict
    requires lo <= hi && hi + 3 <= |src|
    decreases hi - lo
  {
    if lo == hi then d else EnterRange(Enter(d, src, lo), src, lo + 1, hi)
  }

  /** A usable earlier occurrence of the four bytes at `p`. */
  predicate Usable(src: seq<Byte>, m: int, p: nat)
    requires p + 4 <= |src|
  {
    0 <= m && 0 < p - m <= MAX_OFFSET && Word(src, m) == Word(src, p)
  }

  /** The usable occurrence the dictionary offers for `p`, or -1. */
  function Lookup(d: Dict, src: seq<Byte>, p: nat): (m: int)
    requires p + 4 <= |src|
    ensures m >= 0 ==> Usable(src, m, p)
  {
    var h := Hash(src, p);
    if h in d && Usable(src, d[h], p) then d[h] else -1
  }

  datatype Search = Nothing(d: Dict) | Match(m: nat, at: nat, d: Dict)

  /** The accelerating probe: `step` is the distance to the next probe and
      `count` the counter whose upper bits become the following step. */
  function Find(src: seq<Byte>, d: Dict, p: nat, step: nat, count: nat): (r: Search)
    requires p + MF_LIMIT <= |src| && step >= 1 && count >= 256
    ensures r.Match? ==> p <= r.at && r.at + MF_LIMIT <= |src| && Usable(src, r.m, r.at)
    decreases |src| - p
  {
    var d' := Enter(d, src, p);
    var m := Lookup(d, src, p);
    if m >= 0 then Match(m, p, d')
    else if p + step + MF_LIMIT <= |src| then Find(src, d', p + step, count / 256, count + 1)
    else Nothing(d')
  }

  ghost predicate Finds(src: seq<Byte>, d: Dict, p: nat, step: nat, count: nat, goal: Search)
    requires p + MF_LIMIT <= |src| && step >= 1 && count >= 256
  {
    Find(src, d, p, step, count) == goal
  }

  /** One step of a search that will find `goal`. */
  lemma FindStep(src: seq<Byte>, d: Dict, p: nat, step: nat, count: nat, goal: Search)
    requires p + MF_LIMIT <= |src| && step >= 1 && count >= 256 && Finds(src, d, p, step, count, goal)
    ensures var d' := Enter(d, src, p);
            if Lookup(d, src, p) >= 0 then goal == Match(Lookup(d, src, p), p, d')
            else if p + step + MF_LIMIT <= |src| then Finds(src, d', p + step, count / 256, count + 1, goal)
            else goal == Nothing(d')
  {}

  /** Where the common run of `e` and `m` ends, short of the last five bytes. */
  function MatchEnd(src: seq<Byte>, e: nat, m: nat): (r: nat)
    requires m < e && e + LAST_LITERALS <= |src|
    ensures e <= r && r + LAST_LITERALS <= |src|
    decreases |src| - e
  {
    if e + LAST_LITERALS < |src| && src[e] == src[m] then MatchEnd(src, e + 1, m + 1) else e
  }

  lemma {:induction false} MatchEndRun(src: seq<Byte>, e: nat, m: nat, k: nat)
    requires m < e && e + LAST_LITERALS <= |src| && e <= k < MatchEnd(src, e, m)
    ensures src[k] == src[k - (e - m)]
    decreases |src| - e
  {
    if k == e {
    } else {
      MatchEndRun(src, e + 1, m + 1, k);
    }
  }

  lemma {:induction false} MatchEndSkip(src: seq<Byte>, e: nat, m: nat, k: nat)
    requires m < e && e + k + LAST_LITERALS <= |src| && src[e..e + k] == src[m..m + k]
    ensures MatchEnd(src, e, m) == MatchEnd(src, e + k, m + k)
    decreases k
  {
    if k == 0 {
    } else {
      assert src[e] == src[e..e + k][0] && src[m] == src[m..m + k][0];
      assert src[e + 1..e + k] == src[e..e + k][1..] && src[m + 1..m + k] == src[m..m + k][1..];
      MatchEndSkip(src, e + 1, m + 1, k - 1);
    }
  }

  function Word8(src: seq<Byte>, p: nat): nat
    requires p + 8 <= |src|
  {
    LittleEndian(src[p..p + 8])
  }

  /** Equal words extend the run by eight bytes; different words end it at the
      first byte in which they differ. */
  lemma {:induction false} MatchEndWord(src: seq<Byte>, e: nat, m: nat)
    requires m < e && e + 8 + LAST_LITERALS <= |src|
    ensures var a, b := Word8(src, e), Word8(src, m);
            if a == b then MatchEnd(src, e, m) == MatchEnd(src, e + 8, m + 8)
            else Xor(a, b) > 0 && MatchEnd(src, e, m) == e + DiffIndex(a, b)
  {
    var a, b := src[e..e + 8], src[m..m + 8];
    LittleEndianInjective(a, b);
    if a == b {
      MatchEndSkip(src, e, m, 8);
    } else {
      FirstDifference(a, b);
      var k := DiffIndex(LittleEndian(a), LittleEndian(b));
      assert src[e..e + k] == a[..k] && src[m..m + k] == b[..k];
      MatchEndSkip(src, e, m, k);
      assert src[e + k] == a[k] && src[m + k] == b[k];
    }
  }

  ghost predicate EndsAt(src: seq<Byte>, e: nat, m: nat, goal: nat)
    requires m < e && e + LAST_LITERALS <= |src|
  {
    MatchEnd(src, e, m) == goal
  }

  /** One word of an extension that will end at `goal`, and one byte. */
  lemma {:induction false} ExtendWord(src: seq<Byte>, e: nat, m: nat, goal: nat)
    requires m < e && e + 8 + LAST_LITERALS <= |src| && EndsAt(src, e, m, goal)
    ensures var a, b := Word8(src, e), Word8(src, m);
            if a == b then EndsAt(src, e + 8, m + 8, goal) else Xor(a, b) > 0 && goal == e + DiffIndex(a, b)
  {
    MatchEndWord(src, e, m);
  }

  lemma ExtendByte(src: seq<Byte>, e: nat, m: nat, goal: nat)
    requires m < e && e + LAST_LITERALS <= |src| && EndsAt(src, e, m, goal)
    ensures if e + LAST_LITERALS < |src| && src[e] == src[m] then EndsAt(src, e + 1, m + 1, goal) else goal == e
  {}

  function SequenceAt(src: seq<Byte>, anchor: nat, m: nat, at: nat, e: nat): Sequence
    requires anchor <= at <= e <= |src| && m <= at
  {
    Sequence(src[anchor..at], at - m, e - at)
  }

  /** The rest of the parse: searching from `ip`, literals pending since `anchor`. */
  function GreedyFrom(src: seq<Byte>, d: Dict, ip: nat, anchor: nat): (b: Block)
    requires anchor <= ip && ip + MF_LIMIT <= |src|
    ensures WellFormed(b.seqs)
    decreases |src| - ip, 1
  {
    AfterSearch(src, ip, anchor, Find(src, d, ip, 1, 256))
  }

  /** What a search found decides how the parse goes on. */
  function AfterSearch(src: seq<Byte>, ip: nat, anchor: nat, r: Search): (b: Block)
    requires anchor <= ip && ip + MF_LIMIT <= |src|
    requires r.Match? ==> ip <= r.at && r.at + MF_LIMIT <= |src| && Usable(src, r.m, r.at)
    ensures WellFormed(b.seqs)
    decreases |src| - ip, 0
  {
    match r
    case Nothing(_) => Block([], src[anchor..])
    case Match(m, at, d') =>
      var e := MatchEnd(src, at + MIN_MATCH, m + MIN_MATCH);
      Prepend([SequenceAt(src, anchor, m, at, e)], Pending(src, EnterRange(d', src, ip, at), e, e))
  }

  lemma AfterFinds(src: seq<Byte>, d: Dict, ip: nat, anchor: nat, r: Search)
    requires anchor <= ip && ip + MF_LIMIT <= |src| && Finds(src, d, ip, 1, 256, r)
    ensures r.Match? ==> ip <= r.at && r.at + MF_LIMIT <= |src| && Usable(src, r.m, r.at)
    ensures GreedyFrom(src, d, ip, anchor) == AfterSearch(src, ip, anchor, r)
  {}

  /** The same once the end of the search area may have been passed. */
  function Pending(src: seq<Byte>, d: Dict, ip: nat, anchor: nat): (b: Block)
    requires anchor <= ip && anchor <= |src|
    ensures WellFormed(b.seqs)
    decreases |src| - ip, 2
  {
    if ip + MF_LIMIT > |src| then Block([], src[anchor..]) else GreedyFrom(src, d, ip, anchor)
  }

  function Greedy(src: seq<Byte>): (b: Block)
    requires |src| >= 32
    ensures WellFormed(b.seqs)
  {
    GreedyFrom(src, Enter(map[], src, 0), 1, 0)
  }

  /** Four equal bytes and the run behind them are an overlapping copy. */
  lemma {:induction false} MatchRepeats(src: seq<Byte>, m: nat, at: nat)
    requires at + MF_LIMIT <= |src| && Usable(src, m, at)
    ensures var e := MatchEnd(src, at + MIN_MATCH, m + MIN_MATCH);
            forall k :: at <= k < e ==> src[k] == src[k - (at - m)]
  {
    LittleEndianInjective(src[m..m + 4], src[at..at + 4]);
    var e := MatchEnd(src, at + MIN_MATCH, m + MIN_MATCH);
    forall k | at <= k < e ensures src[k] == src[k - (at - m)] {
      if k < at + 4 {
        assert src[at..at + 4][k - at] == src[m..m + 4][k - at];
      } else {
        MatchEndRun(src, at + MIN_MATCH, m + MIN_MATCH, k);
      }
    }
  }

  /** Appending the sequence found at `at` extends what the block stands for. */
  lemma {:induction false} Extend(src: seq<Byte>, seqs: seq<Sequence>, anchor: nat, m: nat, at: nat, e: nat)
    requires anchor <= at && at + MF_LIMIT <= |src| && Usable(src, m, at)
    requires e == MatchEnd(src, at + MIN_MATCH, m + MIN_MATCH)
    requires Parsed(src, seqs, anchor)
    ensures Parsed(src, seqs + [SequenceAt(src, anchor, m, at, e)], e)
  {
    var q := SequenceAt(src, anchor, m, at, e);
    RunSnoc(seqs, q, [], |src|);
    RunLength(seqs, |src|);
    MatchRepeats(src, m, at);
    assert src[..anchor] + q.lits == src[..at];
    CopyMatchUnique(src[..at], q.offset, q.matchLen, src[..e]);
    var all := seqs + [q];
    assert all[..|seqs|] == seqs;
    forall k | 0 <= k < |all| ensures Produced(all[..k]) + |all[k].lits| + MF_LIMIT <= |src| {
      if k < |seqs| { assert all[..k] == seqs[..k] && all[k] == seqs[k]; }
    }
  }

  /** The sequences so far stand for `src[..anchor]` and respect its end. */
  ghost predicate Parsed(src: seq<Byte>, seqs: seq<Sequence>, anchor: nat) {
    && anchor <= |src|
    && WellFormed(seqs)
    && Run(seqs, [], |src|) == Some(src[..anchor])
    && MatchesEndBefore(seqs, |src|)
  }

  lemma {:induction false} ParsedStandsFor(src: seq<Byte>, seqs: seq<Sequence>, anchor: nat)
    requires Parsed(src, seqs, anchor) && anchor + LAST_LITERALS <= |src|
    ensures StandsFor(Block(seqs, src[anchor..]), src)
  {
    assert src[..anchor] + src[anchor..] == src;
  }
}
