/** What the compressor makes of a source, said of the block alone: which
    positions are looked at, which earlier occurrence each is offered, and that
    the first offer is taken and extended as far as it goes. */
module Lz4Parse {
  import opened Bytes
  import opened Lz4Format
  import opened Lz4Greedy

  // ------------------------------------------------------------- the positions

  /** The distance from the `k`-th position a search looks at to the next: one
      for the first 257, and then one more after every 256. */
  function Stride(k: nat): (d: nat)
    ensures d >= 1
  {
    if k == 0 then 1 else (255 + k) / 256
  }

  function ProbeAt(ip: nat, k: nat): (p: nat)
    ensures p >= ip
  {
    if k == 0 then ip else ProbeAt(ip, k - 1) + Stride(k - 1)
  }

  lemma {:induction false} ProbesAscend(ip: nat, i: nat, j: nat)
    requires i <= j
    ensures ProbeAt(ip, i) + (j - i) <= ProbeAt(ip, j)
  {
    if i < j { ProbesAscend(ip, i, j - 1); }
  }

  /** A search looks at each of its first 257 positions. */
  lemma {:induction false} EachAtFirst(ip: nat, k: nat)
    requires k <= 257
    ensures ProbeAt(ip, k) == ip + k
  {
    if k > 0 { EachAtFirst(ip, k - 1); }
  }

  /** The first `k` positions a search looks at. */
  function Probes(ip: nat, k: nat): (ps: seq<nat>)
    ensures |ps| == k && forall i :: 0 <= i < k ==> ps[i] == ProbeAt(ip, i)
  {
    seq(k, i requires 0 <= i < k => ProbeAt(ip, i))
  }

  function Range(lo: nat, hi: nat): (ps: seq<nat>)
    requires lo <= hi
    ensures |ps| == hi - lo && forall i :: 0 <= i < |ps| ==> ps[i] == lo + i
  {
    seq(hi - lo, i requires 0 <= i < hi - lo => lo + i)
  }

  // -------------------------------------------------------------- what is offered

  /** Positions before `end`. */
  ghost predicate AllBefore(log: seq<nat>, end: nat) { forall i :: 0 <= i < |log| ==> log[i] < end }

  /** `log` lists the positions entered so far.  Offered at `p` is the one of its
      bucket that was entered last, if it is among the first 2^20, not too far
      back, and the same four bytes stand there. */
  ghost predicate Offers(src: seq<Byte>, log: seq<nat>, m: nat, p: nat)
    requires AllBefore(log, p) && p + MIN_MATCH <= |src|
  {
    && m < p <= m + 65535 && m < 0x10_0000 && src[m..m + 4] == src[p..p + 4]
    && exists j {:trigger IsLast(src, log, j, p)} :: 0 <= j < |log| && log[j] == m && IsLast(src, log, j, p)
  }

  ghost predicate IsLast(src: seq<Byte>, log: seq<nat>, j: nat, p: nat)
    requires AllBefore(log, p) && p + MIN_MATCH <= |src|
  {
    forall i :: j < i < |log| ==> Hash(src, log[i]) != Hash(src, p)
  }

  /** Nothing is offered at the `k`-th position of a search, or it is past the end
      of the search area. */
  ghost predicate Barren(src: seq<Byte>, log: seq<nat>, ip: nat, k: nat)
    requires AllBefore(log, ip)
  {
    ProbesBefore(log, ip, k);
    ProbeAt(ip, k) + MF_LIMIT <= |src| ==>
      forall m: nat :: !Offers(src, log + Probes(ip, k), m, ProbeAt(ip, k))
  }

  lemma {:induction false} ProbesBefore(log: seq<nat>, ip: nat, k: nat)
    requires AllBefore(log, ip)
    ensures AllBefore(log + Probes(ip, k), ProbeAt(ip, k))
  {
    forall i | 0 <= i < k ensures ProbeAt(ip, i) < ProbeAt(ip, k) { ProbesAscend(ip, i, k); }
    ProbesAscend(ip, 0, k);
  }

  /** The search that starts at `ip` is offered `m` at its `k`-th position, and
      nothing before. */
  ghost predicate FindsAt(src: seq<Byte>, log: seq<nat>, ip: nat, k: nat, m: nat)
    requires AllBefore(log, ip)
  {
    && ProbeAt(ip, k) + MF_LIMIT <= |src|
    && (ProbesBefore(log, ip, k); Offers(src, log + Probes(ip, k), m, ProbeAt(ip, k)))
    && BarrenTo(src, log, ip, k)
  }

  ghost predicate BarrenTo(src: seq<Byte>, log: seq<nat>, ip: nat, k: nat)
    requires AllBefore(log, ip)
  {
    forall j :: 0 <= j < k ==> Barren(src, log, ip, j)
  }

  /** It is offered nothing up to the end of the search area. */
  ghost predicate FindsNothing(src: seq<Byte>, log: seq<nat>, ip: nat)
    requires AllBefore(log, ip)
  {
    forall j: nat :: Barren(src, log, ip, j)
  }

  /** The run at `at` that repeats with `offset` has length `n`: it ends at the
      first difference or at the last five bytes. */
  ghost predicate Longest(src: seq<Byte>, at: nat, offset: nat, n: nat) {
    && offset <= at && at + n + 5 <= |src|
    && src[at..at + n] == src[at - offset..at + n - offset]
    && (at + n + 5 < |src| ==> src[at + n] != src[at + n - offset])
  }

  // ---------------------------------------------------------------- the parse

  /** `q` is what a search from `ip` takes at its `k`-th position. */
  ghost predicate Takes(src: seq<Byte>, log: seq<nat>, ip: nat, anchor: nat, q: Sequence, k: nat)
    requires AllBefore(log, ip) && anchor <= ip
  {
    var at := ProbeAt(ip, k);
    && at <= |src| && q.lits == src[anchor..at] && q.offset <= at
    && FindsAt(src, log, ip, k, at - q.offset) && Longest(src, at, q.offset, q.matchLen)
  }

  /** Once a match is taken, what the search passed over is entered too. */
  function LogAfter(log: seq<nat>, ip: nat, k: nat): seq<nat> {
    log + Probes(ip, k + 1) + Range(ip, ProbeAt(ip, k))
  }

  lemma {:induction false} LogAfterBefore(log: seq<nat>, ip: nat, k: nat, n: nat)
    requires AllBefore(log, ip) && n > 0
    ensures AllBefore(LogAfter(log, ip, k), ProbeAt(ip, k) + n)
  {
    var s, at := LogAfter(log, ip, k), ProbeAt(ip, k);
    forall i | 0 <= i < |s| ensures s[i] < at + n {
      if |log| <= i < |log| + k + 1 { ProbesAscend(ip, i - |log|, k); }
    }
  }

  /** The block for `src[anchor..]` when the search resumes at `ip` and `log` has
      been entered. */
  ghost predicate Parses(src: seq<Byte>, log: seq<nat>, ip: nat, anchor: nat, b: Block)
    requires AllBefore(log, ip) && anchor <= ip && anchor <= |src|
    decreases |b.seqs|, 1
  {
    if b.seqs == [] then b.last == src[anchor..] && FindsNothing(src, log, ip)
    else exists k :: ParsesBy(src, log, ip, anchor, b, k)
  }

  ghost predicate ParsesBy(src: seq<Byte>, log: seq<nat>, ip: nat, anchor: nat, b: Block, k: nat)
    requires AllBefore(log, ip) && anchor <= ip && anchor <= |src| && b.seqs != []
    decreases |b.seqs|, 0
  {
    var q := b.seqs[0];
    && q.matchLen > 0 && Takes(src, log, ip, anchor, q, k)
    && ParsesOn(src, LogAfter(log, ip, k), ProbeAt(ip, k) + q.matchLen, Block(b.seqs[1..], b.last))
  }

  /** Behind a match the search resumes with nothing pending. */
  ghost predicate ParsesOn(src: seq<Byte>, log: seq<nat>, e: nat, b: Block)
    decreases |b.seqs|, 2
  {
    e <= |src| && AllBefore(log, e) && Parses(src, log, e, e, b)
  }

  /** The block of a whole source. */
  ghost predicate IsParse(src: seq<Byte>, b: Block) { Parses(src, [0], 1, 0, b) }

  // --------------------------------------------------- the dictionary as a log

  /** The last position of the log in a bucket. */
  function Last(src: seq<Byte>, log: seq<nat>, h: nat): (j: Option<nat>)
    requires forall i :: 0 <= i < |log| ==> log[i] + MIN_MATCH <= |src|
    ensures j.Some? ==> j.value < |log| && Hash(src, log[j.value]) == h
    ensures forall i :: (if j.Some? then j.value else -1) < i < |log| ==> Hash(src, log[i]) != h
  {
    if log == [] then None
    else if Hash(src, log[|log| - 1]) == h then Some(|log| - 1)
    else Last(src, log[..|log| - 1], h)
  }

  ghost predicate Inside(src: seq<Byte>, log: seq<nat>) { forall i :: 0 <= i < |log| ==> log[i] + MIN_MATCH <= |src| }

  /** The dictionary holds, cut to 20 bits, what was entered last. */
  ghost predicate Holds(d: Dict, src: seq<Byte>, log: seq<nat>)
    requires Inside(src, log)
  {
    forall h: nat :: match Last(src, log, h)
                     case None => h !in d
                     case Some(j) => h in d && d[h] == log[j] % POSITIONS
  }

  lemma {:induction false} EnterHolds(d: Dict, src: seq<Byte>, log: seq<nat>, p: nat)
    requires Inside(src, log) && Holds(d, src, log) && p + MIN_MATCH <= |src|
    ensures Inside(src, log + [p]) && Holds(Enter(d, src, p), src, log + [p])
  {
    var more := log + [p];
    assert more[..|more| - 1] == log;
  }

  lemma {:induction false} RangeHolds(d: Dict, src: seq<Byte>, log: seq<nat>, lo: nat, hi: nat)
    requires Inside(src, log) && Holds(d, src, log) && lo <= hi && hi + 3 <= |src|
    ensures Inside(src, log + Range(lo, hi)) && Holds(EnterRange(d, src, lo, hi), src, log + Range(lo, hi))
    decreases hi - lo
  {
    if lo == hi {
      assert log + Range(lo, hi) == log;
    } else {
      EnterHolds(d, src, log, lo);
      RangeHolds(Enter(d, src, lo), src, log + [lo], lo + 1, hi);
      assert log + [lo] + Range(lo + 1, hi) == log + Range(lo, hi);
    }
  }

  lemma {:induction false} SameWord(src: seq<Byte>, m: nat, p: nat)
    requires m + 4 <= |src| && p + 4 <= |src|
    ensures Word(src, m) == Word(src, p) <==> src[m..m + 4] == src[p..p + 4]
  {
    LittleEndianInjective(src[m..m + 4], src[p..p + 4]);
  }

  /** Position `j` of the log is the last in the bucket of `p`. */
  ghost predicate LastIs(src: seq<Byte>, log: seq<nat>, j: nat, p: nat)
    requires Inside(src, log) && p + MIN_MATCH <= |src|
  {
    Last(src, log, Hash(src, p)) == Some(j)
  }

  lemma {:induction false} OfferedIsLast(src: seq<Byte>, log: seq<nat>, m: nat, p: nat) returns (j: nat)
    requires Inside(src, log) && AllBefore(log, p) && p + MIN_MATCH <= |src| && Offers(src, log, m, p)
    ensures j < |log| && log[j] == m && LastIs(src, log, j, p)
  {
    j :| 0 <= j < |log| && log[j] == m && IsLast(src, log, j, p);
    SameWord(src, m, p);
    var last := Last(src, log, Hash(src, p));
    if last.Some? { assert !(last.value < j) && !(j < last.value); }
  }

  lemma {:induction false} LastIsOffered(src: seq<Byte>, log: seq<nat>, j: nat, p: nat)
    requires Inside(src, log) && AllBefore(log, p) && p + MIN_MATCH <= |src| && LastIs(src, log, j, p)
    requires Usable(src, log[j], p) && log[j] < POSITIONS
    ensures Offers(src, log, log[j], p)
  {
    SameWord(src, log[j], p);
    assert IsLast(src, log, j, p);
  }

  lemma {:induction false} HeldIsLast(d: Dict, src: seq<Byte>, log: seq<nat>, p: nat) returns (j: nat)
    requires Inside(src, log) && Holds(d, src, log) && p + MIN_MATCH <= |src| && Hash(src, p) in d
    ensures j < |log| && LastIs(src, log, j, p) && d[Hash(src, p)] == log[j] % POSITIONS
  {
    j := Last(src, log, Hash(src, p)).value;
  }

  /** A position cut to 20 bits that is near has not been cut. */
  lemma LowPosition(q: nat, m: nat, p: nat)
    requires m == q % POSITIONS && q < p <= m + MAX_OFFSET
    ensures q == m
  {}

  /** A lookup gives what is offered: positions from 2^20 on are cut to some that
      are too far back. */
  lemma {:induction false} LookupIsOffered(d: Dict, src: seq<Byte>, log: seq<nat>, p: nat)
    requires Inside(src, log) && Holds(d, src, log) && AllBefore(log, p) && p + MIN_MATCH <= |src|
    ensures Lookup(d, src, p) >= 0 ==> Offers(src, log, Lookup(d, src, p), p)
  {
    var m := Lookup(d, src, p);
    if m >= 0 {
      var j := HeldIsLast(d, src, log, p);
      LowPosition(log[j], m, p);
      LastIsOffered(src, log, j, p);
    }
  }

  /** ... and fails where nothing is. */
  lemma {:induction false} OfferIsLookup(d: Dict, src: seq<Byte>, log: seq<nat>, p: nat)
    requires Inside(src, log) && Holds(d, src, log) && AllBefore(log, p) && p + MIN_MATCH <= |src|
    ensures forall m: nat :: Offers(src, log, m, p) ==> Lookup(d, src, p) == m
  {
    forall m: nat | Offers(src, log, m, p) ensures Lookup(d, src, p) == m {
      var j := OfferedIsLast(src, log, m, p);
      LastIsFound(d, src, log, j, p);
    }
  }

  lemma {:induction false} LastIsFound(d: Dict, src: seq<Byte>, log: seq<nat>, j: nat, p: nat)
    requires Inside(src, log) && Holds(d, src, log) && p + MIN_MATCH <= |src| && LastIs(src, log, j, p)
    requires log[j] < p <= log[j] + MAX_OFFSET && log[j] < POSITIONS && src[log[j]..log[j] + 4] == src[p..p + 4]
    ensures Lookup(d, src, p) == log[j]
  {
    SameWord(src, log[j], p);
    FoundInDict(d, src, log[j], p);
  }

  lemma FoundInDict(d: Dict, src: seq<Byte>, m: nat, p: nat)
    requires p + MIN_MATCH <= |src| && Hash(src, p) in d && d[Hash(src, p)] == m && Usable(src, m, p)
    ensures Lookup(d, src, p) == m
  {}

  // ------------------------------------------------------------- the search

  lemma {:induction false} ProbesInside(src: seq<Byte>, log: seq<nat>, ip: nat, k: nat)
    requires Inside(src, log) && AllBefore(log, ip) && ProbeAt(ip, k) + MIN_MATCH <= |src|
    ensures Inside(src, log + Probes(ip, k)) && AllBefore(log + Probes(ip, k), ProbeAt(ip, k))
  {
    ProbesBefore(log, ip, k);
  }

  /** What a search of the compressor amounts to. */
  ghost predicate Amounts(src: seq<Byte>, log: seq<nat>, ip: nat, k: nat, r: Search)
    requires AllBefore(log, ip)
  {
    match r
    case Match(m, at, d') => at == ProbeAt(ip, k) && FindsAt(src, log, ip, k, m) && HoldsTo(d', src, log, ip, k + 1)
    case Nothing(d') => FindsNothing(src, log, ip)
  }

  ghost predicate HoldsTo(d: Dict, src: seq<Byte>, log: seq<nat>, ip: nat, k: nat) {
    Inside(src, log + Probes(ip, k)) && Holds(d, src, log + Probes(ip, k))
  }

  /** The search has come to its `k`-th position in vain. */
  ghost predicate Searched(src: seq<Byte>, d: Dict, log: seq<nat>, ip: nat, k: nat) {
    && Inside(src, log) && AllBefore(log, ip) && ProbeAt(ip, k) + MF_LIMIT <= |src|
    && HoldsTo(d, src, log, ip, k) && BarrenTo(src, log, ip, k)
  }

  /** The search of the compressor, from its `k`-th position on. */
  lemma {:induction false} SearchAmounts(src: seq<Byte>, d: Dict, log: seq<nat>, ip: nat, k: nat, p: nat, step: nat,
                                         count: nat, goal: Search)
    returns (hit: nat)
    requires AllBefore(log, ip) && p == ProbeAt(ip, k) && step == Stride(k) && count == 256 + k
    requires Searched(src, d, log, ip, k) && Finds(src, d, p, step, count, goal)
    ensures Amounts(src, log, ip, hit, goal)
    decreases |src| - p
  {
    hit := k;
    if Lookup(d, src, p) >= 0 {
      HitAmounts(src, d, log, ip, k, p, step, count, goal);
    } else if p + step + MF_LIMIT <= |src| {
      var d', p', step', count' := NextProbe(src, d, p, step, count, goal);
      Miss(src, d, log, ip, k);
      hit := SearchAmounts(src, d', log, ip, k + 1, p', step', count', goal);
    } else {
      EndAmounts(src, d, log, ip, k, p, step, count, goal);
    }
  }

  lemma {:induction false} HitAmounts(src: seq<Byte>, d: Dict, log: seq<nat>, ip: nat, k: nat, p: nat, step: nat,
                                      count: nat, goal: Search)
    requires AllBefore(log, ip) && p == ProbeAt(ip, k) && step >= 1 && count >= 256 && Searched(src, d, log, ip, k)
    requires Finds(src, d, p, step, count, goal) && Lookup(d, src, p) >= 0
    ensures Amounts(src, log, ip, k, goal)
  {
    FindStep(src, d, p, step, count, goal);
    Hit(src, d, log, ip, k, Lookup(d, src, p));
  }

  lemma {:induction false} EndAmounts(src: seq<Byte>, d: Dict, log: seq<nat>, ip: nat, k: nat, p: nat, step: nat,
                                      count: nat, goal: Search)
    requires AllBefore(log, ip) && p == ProbeAt(ip, k) && step == Stride(k) && count >= 256
    requires Searched(src, d, log, ip, k) && Finds(src, d, p, step, count, goal)
    requires Lookup(d, src, p) < 0 && p + step + MF_LIMIT > |src|
    ensures Amounts(src, log, ip, k, goal)
  {
    FindStep(src, d, p, step, count, goal);
    Exhausted(src, d, log, ip, k);
  }

  lemma {:induction false} NextProbe(src: seq<Byte>, d: Dict, p: nat, step: nat, count: nat, goal: Search)
    returns (d': Dict, p': nat, step': nat, count': nat)
    requires p + step + MF_LIMIT <= |src| && step >= 1 && count >= 256
    requires Finds(src, d, p, step, count, goal) && Lookup(d, src, p) < 0
    ensures d' == Enter(d, src, p) && p' == p + step && step' == count / 256 && count' == count + 1
    ensures Finds(src, d', p', step', count', goal)
  {
    d', p', step', count' := Enter(d, src, p), p + step, count / 256, count + 1;
  }

  lemma {:induction false} Hit(src: seq<Byte>, d: Dict, log: seq<nat>, ip: nat, k: nat, m: nat)
    requires AllBefore(log, ip) && Searched(src, d, log, ip, k) && Lookup(d, src, ProbeAt(ip, k)) == m
    ensures Amounts(src, log, ip, k, Match(m, ProbeAt(ip, k), Enter(d, src, ProbeAt(ip, k))))
  {
    ProbesBefore(log, ip, k);
    OneMore(d, src, log, ip, k);
    LookupIsOffered(d, src, log + Probes(ip, k), ProbeAt(ip, k));
  }

  lemma {:induction false} Miss(src: seq<Byte>, d: Dict, log: seq<nat>, ip: nat, k: nat)
    requires Searched(src, d, log, ip, k) && Lookup(d, src, ProbeAt(ip, k)) < 0
    requires ProbeAt(ip, k + 1) + MF_LIMIT <= |src|
    ensures Searched(src, Enter(d, src, ProbeAt(ip, k)), log, ip, k + 1)
  {
    ProbesBefore(log, ip, k);
    OneMore(d, src, log, ip, k);
    OfferIsLookup(d, src, log + Probes(ip, k), ProbeAt(ip, k));
    assert Barren(src, log, ip, k);
  }

  lemma {:induction false} Exhausted(src: seq<Byte>, d: Dict, log: seq<nat>, ip: nat, k: nat)
    requires AllBefore(log, ip) && Searched(src, d, log, ip, k) && Lookup(d, src, ProbeAt(ip, k)) < 0
    requires ProbeAt(ip, k + 1) + MF_LIMIT > |src|
    ensures FindsNothing(src, log, ip)
  {
    ProbesBefore(log, ip, k);
    OfferIsLookup(d, src, log + Probes(ip, k), ProbeAt(ip, k));
    assert Barren(src, log, ip, k);
    NothingMore(src, log, ip, k + 1);
  }

  lemma {:induction false} OneMore(d: Dict, src: seq<Byte>, log: seq<nat>, ip: nat, k: nat)
    requires HoldsTo(d, src, log, ip, k) && ProbeAt(ip, k) + MIN_MATCH <= |src|
    ensures HoldsTo(Enter(d, src, ProbeAt(ip, k)), src, log, ip, k + 1)
  {
    EnterHolds(d, src, log + Probes(ip, k), ProbeAt(ip, k));
    assert log + Probes(ip, k) + [ProbeAt(ip, k)] == log + Probes(ip, k + 1);
  }

  lemma {:induction false} NothingMore(src: seq<Byte>, log: seq<nat>, ip: nat, k: nat)
    requires AllBefore(log, ip) && BarrenTo(src, log, ip, k) && ProbeAt(ip, k) + MF_LIMIT > |src|
    ensures FindsNothing(src, log, ip)
  {
    forall j: nat ensures Barren(src, log, ip, j) {
      if j >= k { ProbesAscend(ip, k, j); }
    }
  }

  // -------------------------------------------------------------- the extension

  lemma {:induction false} MatchEndStops(src: seq<Byte>, e: nat, m: nat)
    requires m < e && e + LAST_LITERALS <= |src|
    ensures var r := MatchEnd(src, e, m); r + LAST_LITERALS < |src| ==> src[r] != src[r - (e - m)]
    decreases |src| - e
  {
    if e + LAST_LITERALS < |src| && src[e] == src[m] { MatchEndStops(src, e + 1, m + 1); }
  }

  lemma {:induction false} MatchIsLongest(src: seq<Byte>, m: nat, at: nat)
    requires at + MF_LIMIT <= |src| && Usable(src, m, at)
    ensures Longest(src, at, at - m, MatchEnd(src, at + MIN_MATCH, m + MIN_MATCH) - at)
  {
    MatchRepeats(src, m, at);
    MatchEndStops(src, at + MIN_MATCH, m + MIN_MATCH);
    var n := MatchEnd(src, at + MIN_MATCH, m + MIN_MATCH) - at;
    var s, t := src[at..at + n], src[m..m + n];
    forall i | 0 <= i < n ensures s[i] == t[i] { assert src[at + i] == src[at + i - (at - m)]; }
  }

  // ------------------------------------------------------------------ the block

  /** The greedy parse over the dictionary is this parse. */
  lemma {:induction false} GreedyParses(src: seq<Byte>, d: Dict, log: seq<nat>, ip: nat, anchor: nat)
    requires Inside(src, log) && AllBefore(log, ip) && Holds(d, src, log) && anchor <= ip && anchor <= |src|
    ensures Parses(src, log, ip, anchor, Pending(src, d, ip, anchor))
    decreases |src| - ip, 1
  {
    if ip + MF_LIMIT <= |src| {
      assert log + Probes(ip, 0) == log;
      var r := Find(src, d, ip, 1, 256);
      var k := SearchAmounts(src, d, log, ip, 0, ip, 1, 256, r);
      SearchParses(src, log, ip, anchor, k, r);
    }
  }

  lemma {:induction false} SearchParses(src: seq<Byte>, log: seq<nat>, ip: nat, anchor: nat, k: nat, r: Search)
    requires AllBefore(log, ip) && anchor <= ip && ip + MF_LIMIT <= |src| && Amounts(src, log, ip, k, r)
    requires r.Match? ==> ip <= r.at && r.at + MF_LIMIT <= |src| && Usable(src, r.m, r.at)
    ensures Parses(src, log, ip, anchor, AfterSearch(src, ip, anchor, r))
    decreases |src| - ip, 0
  {
    if r.Match? {
      var e := MatchEnd(src, r.at + MIN_MATCH, r.m + MIN_MATCH);
      RangeHolds(r.d, src, log + Probes(ip, k + 1), ip, r.at);
      LogAfterBefore(log, ip, k, e - r.at);
      var rest := Pending(src, EnterRange(r.d, src, ip, r.at), e, e);
      GreedyParses(src, EnterRange(r.d, src, ip, r.at), LogAfter(log, ip, k), e, e);
      MatchTaken(src, log, ip, anchor, k, r.m, e, rest);
    }
  }

  lemma {:induction false} MatchTaken(src: seq<Byte>, log: seq<nat>, ip: nat, anchor: nat, k: nat, m: nat, e: nat,
                                      rest: Block)
    requires AllBefore(log, ip) && anchor <= ip && FindsAt(src, log, ip, k, m) && Usable(src, m, ProbeAt(ip, k))
    requires e == MatchEnd(src, ProbeAt(ip, k) + MIN_MATCH, m + MIN_MATCH)
    requires ParsesOn(src, LogAfter(log, ip, k), e, rest)
    ensures Parses(src, log, ip, anchor, Prepend([SequenceAt(src, anchor, m, ProbeAt(ip, k), e)], rest))
  {
    var q := SequenceAt(src, anchor, m, ProbeAt(ip, k), e);
    var b := Prepend([q], rest);
    MatchTakes(src, log, ip, anchor, k, m, e, q);
    assert b.seqs[0] == q && Block(b.seqs[1..], b.last) == rest;
    ParsedBy(src, log, ip, anchor, b, k);
  }

  lemma {:induction false} MatchTakes(src: seq<Byte>, log: seq<nat>, ip: nat, anchor: nat, k: nat, m: nat, e: nat,
                                      q: Sequence)
    requires AllBefore(log, ip) && anchor <= ip && FindsAt(src, log, ip, k, m) && Usable(src, m, ProbeAt(ip, k))
    requires e == MatchEnd(src, ProbeAt(ip, k) + MIN_MATCH, m + MIN_MATCH)
    requires q == SequenceAt(src, anchor, m, ProbeAt(ip, k), e)
    ensures Takes(src, log, ip, anchor, q, k)
  {
    MatchIsLongest(src, m, ProbeAt(ip, k));
  }

  lemma ParsedBy(src: seq<Byte>, log: seq<nat>, ip: nat, anchor: nat, b: Block, k: nat)
    requires AllBefore(log, ip) && anchor <= ip && anchor <= |src| && b.seqs != []
    requires ParsesBy(src, log, ip, anchor, b, k)
    ensures Parses(src, log, ip, anchor, b)
  {}

  /** What is offered is one position. */
  lemma {:induction false} OneOffer(src: seq<Byte>, log: seq<nat>, p: nat, m: nat, n: nat)
    requires Inside(src, log) && AllBefore(log, p) && p + MIN_MATCH <= |src|
    requires Offers(src, log, m, p) && Offers(src, log, n, p)
    ensures m == n
  {
    var i := OfferedIsLast(src, log, m, p);
    var j := OfferedIsLast(src, log, n, p);
  }

  lemma {:induction false} OneFind(src: seq<Byte>, log: seq<nat>, ip: nat, k: nat, m: nat, j: nat, n: nat)
    requires Inside(src, log) && AllBefore(log, ip) && FindsAt(src, log, ip, k, m) && FindsAt(src, log, ip, j, n)
    ensures k == j && m == n
  {
    ProbesBefore(log, ip, k);
    ProbesBefore(log, ip, j);
    if k < j { NotBarren(src, log, ip, k, m); }
    if j < k { NotBarren(src, log, ip, j, n); }
    ProbesInside(src, log, ip, k);
    OneOffer(src, log + Probes(ip, k), ProbeAt(ip, k), m, n);
  }

  lemma {:induction false} OneLength(src: seq<Byte>, at: nat, offset: nat, m: nat, n: nat)
    requires Longest(src, at, offset, m) && Longest(src, at, offset, n)
    ensures m == n
  {
    if m < n { NoLonger(src, at, offset, m, n); }
    if n < m { NoLonger(src, at, offset, n, m); }
  }

  lemma {:induction false} NoLonger(src: seq<Byte>, at: nat, offset: nat, m: nat, n: nat)
    requires m < n && Longest(src, at, offset, n)
    ensures !Longest(src, at, offset, m)
  {
    assert src[at..at + n][m] == src[at - offset..at + n - offset][m];
  }

  lemma {:induction false} OneTake(src: seq<Byte>, log: seq<nat>, ip: nat, anchor: nat, q: Sequence, k: nat,
                                   t: Sequence, j: nat)
    requires Inside(src, log) && AllBefore(log, ip) && anchor <= ip
    requires Takes(src, log, ip, anchor, q, k) && Takes(src, log, ip, anchor, t, j)
    ensures q == t && k == j
  {
    OneFind(src, log, ip, k, ProbeAt(ip, k) - q.offset, j, ProbeAt(ip, j) - t.offset);
    OneLength(src, ProbeAt(ip, k), q.offset, q.matchLen, t.matchLen);
  }

  /** There is only one parse. */
  lemma {:induction false} OneParse(src: seq<Byte>, log: seq<nat>, ip: nat, anchor: nat, b: Block, c: Block)
    requires Inside(src, log) && AllBefore(log, ip) && anchor <= ip && anchor <= |src|
    requires Parses(src, log, ip, anchor, b) && Parses(src, log, ip, anchor, c)
    ensures b == c
    decreases |b.seqs|, 2
  {
    SameEmptiness(src, log, ip, anchor, b, c);
    SameEmptiness(src, log, ip, anchor, c, b);
    if b.seqs != [] {
      var k := FirstMatch(src, log, ip, anchor, b);
      var j := FirstMatch(src, log, ip, anchor, c);
      OneParseBy(src, log, ip, anchor, b, k, c, j);
    }
  }

  lemma {:induction false} OneParseBy(src: seq<Byte>, log: seq<nat>, ip: nat, anchor: nat, b: Block, k: nat,
                                      c: Block, j: nat)
    requires Inside(src, log) && AllBefore(log, ip) && anchor <= ip && anchor <= |src| && b.seqs != [] && c.seqs != []
    requires ParsesBy(src, log, ip, anchor, b, k) && ParsesBy(src, log, ip, anchor, c, j)
    ensures b == c
    decreases |b.seqs|, 1
  {
    OneTake(src, log, ip, anchor, b.seqs[0], k, c.seqs[0], j);
    LogInside(src, log, ip, k);
    OneRest(src, LogAfter(log, ip, k), ProbeAt(ip, k) + b.seqs[0].matchLen, b, c);
  }

  lemma {:induction false} SameEmptiness(src: seq<Byte>, log: seq<nat>, ip: nat, anchor: nat, b: Block, c: Block)
    requires AllBefore(log, ip) && anchor <= ip && anchor <= |src|
    requires Parses(src, log, ip, anchor, b) && Parses(src, log, ip, anchor, c)
    ensures b.seqs == [] ==> c == b
  {
    if c.seqs != [] { SomethingFound(src, log, ip, anchor, c); }
  }

  lemma {:induction false} SomethingFound(src: seq<Byte>, log: seq<nat>, ip: nat, anchor: nat, b: Block)
    requires AllBefore(log, ip) && anchor <= ip && anchor <= |src| && Parses(src, log, ip, anchor, b) && b.seqs != []
    ensures !FindsNothing(src, log, ip)
  {
    var k := FirstMatch(src, log, ip, anchor, b);
    ProbesBefore(log, ip, k);
    NotBarren(src, log, ip, k, ProbeAt(ip, k) - b.seqs[0].offset);
  }

  lemma {:induction false} OneRest(src: seq<Byte>, log: seq<nat>, e: nat, b: Block, c: Block)
    requires Inside(src, log) && b.seqs != [] && c.seqs != [] && b.seqs[0] == c.seqs[0]
    requires ParsesOn(src, log, e, Block(b.seqs[1..], b.last)) && ParsesOn(src, log, e, Block(c.seqs[1..], c.last))
    ensures b == c
    decreases |b.seqs|, 0
  {
    OneParse(src, log, e, e, Block(b.seqs[1..], b.last), Block(c.seqs[1..], c.last));
    assert b.seqs == [b.seqs[0]] + b.seqs[1..] && c.seqs == [c.seqs[0]] + c.seqs[1..];
  }

  lemma {:induction false} LogInside(src: seq<Byte>, log: seq<nat>, ip: nat, k: nat)
    requires Inside(src, log) && AllBefore(log, ip) && ProbeAt(ip, k) + MIN_MATCH <= |src|
    ensures Inside(src, LogAfter(log, ip, k))
  {
    LogAfterBefore(log, ip, k, 1);
  }

  lemma {:induction false} GreedyIsParse(src: seq<Byte>)
    requires |src| >= 32
    ensures IsParse(src, Greedy(src))
  {
    EnterHolds(map[], src, [], 0);
    GreedyParses(src, Enter(map[], src, 0), [0], 1, 0);
  }

  lemma {:induction false} IsOnlyParse(src: seq<Byte>, b: Block, c: Block)
    requires |src| >= 32 && IsParse(src, b) && IsParse(src, c)
    ensures b == c
  {
    OneParse(src, [0], 1, 0, b, c);
  }

  // ---------------------------------------------------------- what is never missed

  /** The position right before `p`, entered last, is offered if the same four
      bytes stand there. */
  lemma {:induction false} NeighbourOffers(src: seq<Byte>, log: seq<nat>, p: nat)
    requires AllBefore(log, p) && log != [] && log[|log| - 1] == p - 1 < 0x10_0000 && p + MIN_MATCH <= |src|
    requires src[p - 1..p + 3] == src[p..p + 4]
    ensures Offers(src, log, p - 1, p)
  {
    assert IsLast(src, log, |log| - 1, p);
  }

  lemma {:induction false} NotBarren(src: seq<Byte>, log: seq<nat>, ip: nat, k: nat, m: nat)
    requires AllBefore(log, ip) && AllBefore(log + Probes(ip, k), ProbeAt(ip, k))
    requires ProbeAt(ip, k) + MF_LIMIT <= |src| && Offers(src, log + Probes(ip, k), m, ProbeAt(ip, k))
    ensures !Barren(src, log, ip, k)
  {}

  lemma {:induction false} FirstMatch(src: seq<Byte>, log: seq<nat>, ip: nat, anchor: nat, b: Block) returns (k: nat)
    requires AllBefore(log, ip) && anchor <= ip && anchor <= |src| && Parses(src, log, ip, anchor, b) && b.seqs != []
    ensures ParsesBy(src, log, ip, anchor, b, k)
  {
    k :| ParsesBy(src, log, ip, anchor, b, k);
  }

  /** If the four bytes at the start stand at position one as well, the first
      match is there, at distance one and as long as it can be. */
  lemma {:induction false} FirstRun(src: seq<Byte>, b: Block)
    requires |src| >= 32 && IsParse(src, b) && src[..4] == src[1..5]
    ensures b.seqs != [] && b.seqs[0].lits == src[..1] && b.seqs[0].offset == 1
    ensures Longest(src, 1, 1, b.seqs[0].matchLen)
  {
    var _ := RunTaken(src, [0], 1, 0, b);
  }

  lemma {:induction false} RunTaken(src: seq<Byte>, log: seq<nat>, ip: nat, anchor: nat, b: Block)
    returns (more: seq<nat>)
    requires log == [0] && ip == 1 && anchor == 0
    requires |src| >= 32 && Parses(src, log, ip, anchor, b) && src[..4] == src[1..5]
    ensures b.seqs != [] && b.seqs[0].lits == src[..1] && b.seqs[0].offset == 1
    ensures Longest(src, 1, 1, b.seqs[0].matchLen)
    ensures ParsesOn(src, more, 1 + b.seqs[0].matchLen, Block(b.seqs[1..], b.last))
  {
    NeighbourOffers(src, log, ip);
    assert log + Probes(ip, 0) == log && ProbeAt(ip, 0) == 1;
    NotBarren(src, log, ip, 0, 0);
    var k := FirstMatch(src, log, ip, anchor, b);
    OneOfOne(src, log, ip, k, ProbeAt(ip, k) - b.seqs[0].offset);
    more := LogAfter(log, ip, k);
  }

  lemma OneOfOne(src: seq<Byte>, log: seq<nat>, ip: nat, k: nat, m: nat)
    requires AllBefore(log, ip) && log == [0] && FindsAt(src, log, ip, k, m) && (k > 0 ==> !Barren(src, log, ip, 0))
    ensures k == 0 && m == 0
  {
    assert log + Probes(ip, 0) == log;
  }

  /** No run of five equal bytes stays among the literals that the first search
      looks at one by one: if nothing is matched at all there is none. */
  lemma {:induction false} RunsAreTaken(src: seq<Byte>, b: Block, p: nat)
    requires |src| >= 32 && IsParse(src, b) && b.seqs == [] && 1 <= p <= 257 && p + MF_LIMIT <= |src|
    ensures src[p - 1..p + 3] != src[p..p + 4]
  {
    if src[p - 1..p + 3] == src[p..p + 4] { NeighbourTaken(src, [0], 1, p - 1); }
  }

  lemma {:induction false} NeighbourTaken(src: seq<Byte>, log: seq<nat>, ip: nat, k: nat)
    requires log == [0] && ip == 1 && k < 257 && ip + k + MF_LIMIT <= |src|
    requires src[k..k + 4] == src[ip + k..ip + k + 4]
    ensures !Barren(src, log, ip, k)
  {
    EachAtFirst(ip, k);
    ProbesBefore(log, ip, k);
    if k > 0 { EachAtFirst(ip, k - 1); }
    NeighbourOffers(src, log + Probes(ip, k), ip + k);
    NotBarren(src, log, ip, k, k);
  }

  /** Equal bytes make one literal, one match and the five last literals. */
  lemma {:induction false} EqualBytes(src: seq<Byte>, c: Byte, b: Block)
    requires |src| >= 32 && IsParse(src, b) && forall i :: 0 <= i < |src| ==> src[i] == c
    ensures b == Block([Sequence([c], 1, |src| - 6)], [c, c, c, c, c])
    ensures |Encode(b)| == 11 + (|src| - 25) / 255
  {
    EqualParts(src, c);
    var q := OneMatch(src, c, [0], 1, 0, b);
    EncodedSize(q, b.last);
  }

  lemma {:induction false} EqualParts(src: seq<Byte>, c: Byte)
    requires |src| >= 32 && forall i :: 0 <= i < |src| ==> src[i] == c
    ensures src[..4] == src[1..5] && src[..1] == [c] && src[|src| - 5..] == [c, c, c, c, c]
    ensures forall n: nat :: Longest(src, 1, 1, n) ==> n + 6 == |src|
  {
    forall n: nat | Longest(src, 1, 1, n) ensures n + 6 == |src| { RunToTheEnd(src, c, n); }
  }

  lemma {:induction false} OneMatch(src: seq<Byte>, c: Byte, log: seq<nat>, ip: nat, anchor: nat, b: Block)
    returns (q: Sequence)
    requires log == [0] && ip == 1 && anchor == 0 && |src| >= 32 && Parses(src, log, ip, anchor, b)
    requires src[..4] == src[1..5] && src[..1] == [c] && src[|src| - 5..] == [c, c, c, c, c]
    requires forall n: nat :: Longest(src, 1, 1, n) ==> n + 6 == |src|
    ensures q == Sequence([c], 1, |src| - 6) && b == Block([q], [c, c, c, c, c])
  {
    var more := RunTaken(src, log, ip, anchor, b);
    q := b.seqs[0];
    NothingBehind(src, more, |src| - 5, Block(b.seqs[1..], b.last));
    assert b.seqs == [q] + b.seqs[1..];
  }

  lemma RunToTheEnd(src: seq<Byte>, c: Byte, n: nat)
    requires Longest(src, 1, 1, n) && forall i :: 0 <= i < |src| ==> src[i] == c
    ensures n + 6 == |src|
  {}

  lemma {:induction false} NothingBehind(src: seq<Byte>, log: seq<nat>, e: nat, b: Block)
    requires ParsesOn(src, log, e, b) && e + 5 == |src|
    ensures b.seqs == [] && b.last == src[e..]
  {
    if b.seqs != [] {
      var j := FirstMatch(src, log, e, e, b);
    }
  }

  lemma {:induction false} EncodedSize(q: Sequence, last: seq<Byte>)
    requires WellFormedSequence(q) && |q.lits| == 1 && q.matchLen >= 19 && |last| == 5
    ensures |Encode(Block([q], last))| == 11 + (q.matchLen - 19) / 255
  {
    var b := Block([q], last);
    EncodeSnoc([], q);
    assert [] + [q] == [q] && EncodeEach([]) == [];
  }
}
