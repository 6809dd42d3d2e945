/** Numbers, ranges and memory in packets: hexadecimal arguments, the test that
    a range is mapped, chunked reads with breakpoints masked out, and the
    chunked pattern search. */
module RspMemory {
  import opened Bytes
  import opened Hex
  import opened RspBackend

  const MAX64: nat := 0xFFFF_FFFF_FFFF_FFFF
  const CHUNK: nat := 0x1_0000
  const MAX_READ: nat := 0x10_0000
  const MAX_SEARCH: nat := 0x400_0000
  const MAX_PATTERN: nat := 0x1000

  // ------------------------------------------------------------ hexadecimal

  /** The number hexadecimal digits denote, of any size. */
  function HexNumber(d: seq<Byte>): (v: nat)
    requires AllHex(d)
  {
    if d == [] then 0 else 16 * HexNumber(d[..|d| - 1]) + HexNibble(d[|d| - 1])
  }

  lemma {:induction false} LongerIsLarger(d: seq<Byte>, i: nat)
    requires i <= |d| && AllHex(d)
    ensures AllHex(d[..i]) && HexNumber(d[..i]) <= HexNumber(d)
    decreases |d| - i
  {
    if i == |d| {
      assert d[..i] == d;
    } else {
      LongerIsLarger(d, i + 1);
      assert d[..i + 1][..i] == d[..i];
    }
  }

  /** A number is read exactly when there are digits, all hexadecimal, and what
      they denote fits 64 bits. */
  method ParseHex(s: seq<Byte>, begin: nat, end: nat) returns (r: Option<nat>)
    ensures r.Some? <==> begin < end <= |s| && AllHex(s[begin..end]) && HexNumber(s[begin..end]) <= MAX64
    ensures r.Some? ==> r.value == HexNumber(s[begin..end])
  {
    if begin >= end || end > |s| { return None; }
    ghost var d := s[begin..end];
    var value, i := 0, begin;
    while i < end
      invariant begin <= i <= end && AllHex(d[..i - begin]) && value == HexNumber(d[..i - begin]) <= MAX64
    {
      var n := HexNibble(s[i]);
      assert s[i] == d[i - begin];
      if n < 0 { return None; }
      assert d[..i + 1 - begin][..i - begin] == d[..i - begin];
      if value > (MAX64 - n) / 16 {
        if AllHex(d) { LongerIsLarger(d, i + 1 - begin); }
        return None;
      }
      value, i := value * 16 + n, i + 1;
    }
    assert d[..i - begin] == d;
    return Some(value);
  }

  // ------------------------------------------------------------------ ranges

  predicate Covers(maps: seq<Region>, a: nat) {
    exists k :: 0 <= k < |maps| && maps[k].start <= a < maps[k].end
  }

  /** A range passes exactly when it lies within 64 bits and every byte of it in
      the union of the maps, in whatever order they come and however they
      overlap. */
  method RangeMapped(maps: seq<Region>, address: nat, length: nat) returns (ok: bool)
    ensures ok <==>
      length == 0 || (address + length <= MAX64 && forall a :: address <= a < address + length ==> Covers(maps, a))
  {
    if length == 0 { return true; }
    if address > MAX64 - length { return false; }
    var end, cursor := address + length, address;
    while cursor < end
      invariant address <= cursor <= end
      invariant forall a :: address <= a < cursor ==> Covers(maps, a)
    {
      var covered := Furthest(maps, cursor, end);
      if covered == cursor { return false; }
      cursor := covered;
    }
    return true;
  }

  /** How far the maps that hold `cursor` reach. */
  method Furthest(maps: seq<Region>, cursor: nat, end: nat) returns (covered: nat)
    requires cursor < end
    ensures cursor <= covered <= end && (covered == cursor <==> !Covers(maps, cursor))
    ensures forall a :: cursor <= a < covered ==> Covers(maps, a)
  {
    covered := cursor;
    var i := 0;
    while i < |maps|
      invariant i <= |maps| && cursor <= covered <= end
      invariant covered == cursor <==> forall k :: 0 <= k < i ==> !(maps[k].start <= cursor < maps[k].end)
      invariant forall a :: cursor <= a < covered ==> Covers(maps, a)
    {
      var m := maps[i];
      if m.start <= cursor && cursor < m.end && m.end > covered {
        covered := if m.end < end then m.end else end;
        forall a | cursor <= a < covered ensures Covers(maps, a) { assert maps[i].start <= a < maps[i].end; }
      }
      i := i + 1;
    }
  }

  /** Maps that hold something. */
  function Proper(maps: seq<Region>): seq<Region> {
    if maps == [] then []
    else
      var front, m := Proper(maps[..|maps| - 1]), maps[|maps| - 1];
      if m.start < m.end then front + [m] else front
  }

  method ListMaps(maps: seq<Region>) returns (list: seq<Region>)
    ensures list == Proper(maps)
  {
    list := [];
    var i := 0;
    while i < |maps|
      invariant i <= |maps| && list == Proper(maps[..i])
    {
      assert maps[..i + 1][..i] == maps[..i];
      if maps[i].end > maps[i].start { list := list + [maps[i]]; }
      i := i + 1;
    }
    assert maps[..i] == maps;
  }

  /** The maps listed cover what the maps known cover. */
  lemma {:induction false} ProperCovers(maps: seq<Region>, a: nat)
    ensures Covers(Proper(maps), a) <==> Covers(maps, a)
  {
    if maps == [] {
    } else {
      var front, m := maps[..|maps| - 1], maps[|maps| - 1];
      ProperCovers(front, a);
      CoversSnoc(front, m, a);
      CoversSnoc(Proper(front), m, a);
      assert maps == front + [m];
    }
  }

  lemma {:induction false} CoversSnoc(maps: seq<Region>, m: Region, a: nat)
    ensures Covers(maps + [m], a) <==> Covers(maps, a) || m.start <= a < m.end
  {
    var all := maps + [m];
    assert all[|maps|] == m;
    if Covers(maps, a) {
      var k :| 0 <= k < |maps| && maps[k].start <= a < maps[k].end;
      assert all[k] == maps[k];
    }
    if Covers(all, a) {
      var k :| 0 <= k < |all| && all[k].start <= a < all[k].end;
      if k < |maps| { assert maps[k] == all[k]; }
    }
  }

  // ----------------------------------------------------------------- replies

  datatype Reply =
    | Okay
    | Empty
    | Error(code: Byte)
    | HexReply(text: seq<Byte>)
    | Found(address: nat)
    | Absent
    | Stopped(signal: int, lwp: int)
    | Gone
    | Listing(regions: seq<Region>)
    | Tasks(lwps: seq<int>)

  ghost predicate Mapped(maps: seq<Region>, known: bool, address: nat, length: nat) {
    known ==> forall a :: address <= a < address + length ==> Covers(maps, a)
  }

  // ------------------------------------------------------------ memory reads

  /** Memory with the bytes under breakpoints put back. */
  function Shown(mem: map<nat, Byte>, breakpoints: map<nat, Byte>, address: nat, n: nat): (s: seq<Byte>)
    ensures |s| == n
    ensures forall k :: 0 <= k < n ==>
      s[k] == if address + k in breakpoints then breakpoints[address + k] else ByteAt(mem, address + k)
  {
    if n == 0 then []
    else var a := address + n - 1;
      Shown(mem, breakpoints, address, n - 1) + [if a in breakpoints then breakpoints[a] else ByteAt(mem, a)]
  }

  lemma ShownJoin(mem: map<nat, Byte>, breakpoints: map<nat, Byte>, address: nat, m: nat, n: nat)
    ensures Shown(mem, breakpoints, address, m) + Shown(mem, breakpoints, address + m, n) ==
      Shown(mem, breakpoints, address, m + n)
  {}

  lemma {:induction false} ChunkJoin(mem: map<nat, Byte>, breakpoints: map<nat, Byte>, address: nat, m: nat, n: nat)
    ensures HexText(Shown(mem, breakpoints, address, m)) + HexText(Shown(mem, breakpoints, address + m, n))
         == HexText(Shown(mem, breakpoints, address, m + n))
  {
    HexJoin(Shown(mem, breakpoints, address, m), Shown(mem, breakpoints, address + m, n));
    ShownJoin(mem, breakpoints, address, m, n);
  }

  /** Puts the original bytes back over the traps, in whatever order the table
      yields them. */
  method Mask(data: seq<Byte>, begin: nat, breakpoints: map<nat, Byte>, ghost mem: map<nat, Byte>)
    returns (masked: seq<Byte>)
    requires data == Contents(mem, begin, |data|)
    ensures masked == Shown(mem, breakpoints, begin, |data|)
  {
    masked := data;
    var todo := breakpoints.Keys;
    while todo != {}
      invariant todo <= breakpoints.Keys && |masked| == |data|
      invariant forall k :: 0 <= k < |data| ==>
        masked[k] ==
          if begin + k in breakpoints && begin + k !in todo then breakpoints[begin + k] else ByteAt(mem, begin + k)
      decreases |todo|
    {
      var a :| a in todo;
      todo := todo - {a};
      if begin <= a < begin + |data| { masked := masked[a - begin := breakpoints[a]]; }
    }
  }

  /** What a read of memory is answered with when no call fails. */
  ghost function ReadReply(mem: map<nat, Byte>, breakpoints: map<nat, Byte>, address: nat, length: nat,
                           maps: seq<Region>, known: bool): Reply
  {
    if length == 0 then Empty
    else if length > MAX_READ || address + length > MAX64 then Error(0x22)
    else if !Mapped(maps, known, address, length) then Error(1)
    else HexReply(HexText(Shown(mem, breakpoints, address, length)))
  }

  /** A read is tried exactly when it is not empty, not too long, and, as far as
      maps are known, mapped.  It answers with the memory as it is without the
      traps, all chunks joined; it answers with an error exactly when refused or
      when a call fails. */
  method ReadMemory(backend: Backend, pid: int, address: nat, length: nat, breakpoints: map<nat, Byte>,
                    maps: seq<Region>, known: bool) returns (r: Reply)
    modifies backend`history, backend`faults
    ensures OnlyUsed(old(backend.history), backend.history, pid) && backend.faults >= old(backend.faults)
    ensures backend.history.Length() > old(backend.history.Length())
       <==> 0 < length <= MAX_READ && address + length <= MAX64 && Mapped(maps, known, address, length)
    ensures r == if Quiet(backend) then ReadReply(backend.mem, breakpoints, address, length, maps, known) else Error(1)
  {
    if length == 0 { return Empty; }
    if length > MAX_READ || address > MAX64 - length { return Error(0x22); }
    if known {
      var mapped := RangeMapped(maps, address, length);
      if !mapped { return Error(1); }
    }
    r := ReadChunks(backend, pid, address, length, breakpoints);
  }

  /** The text of the first `done` bytes. */
  ghost predicate Spelled(hex: seq<Byte>, mem: map<nat, Byte>, breakpoints: map<nat, Byte>, address: nat, done: nat) {
    hex == HexText(Shown(mem, breakpoints, address, done))
  }

  method ReadChunks(backend: Backend, pid: int, address: nat, length: nat, breakpoints: map<nat, Byte>)
    returns (r: Reply)
    requires length > 0
    modifies backend`history, backend`faults
    ensures OnlyUsed(old(backend.history), backend.history, pid) && backend.faults >= old(backend.faults)
    ensures backend.history.Length() > old(backend.history.Length())
    ensures r ==
      if Quiet(backend) then HexReply(HexText(Shown(backend.mem, breakpoints, address, length))) else Error(1)
  {
    var hex: seq<Byte> := [];
    var done: nat := 0;
    ghost var mem := backend.mem;
    while done < length
      invariant done <= length && OnlyUsed(old(backend.history), backend.history, pid) && Quiet(backend)
      invariant done > 0 ==> backend.history.Length() > old(backend.history.Length())
      invariant Spelled(hex, mem, breakpoints, address, done)
    {
      var chunk := if length - done > CHUNK then CHUNK else length - done;
      UseIsUse(backend.history, pid);
      var data := backend.Read(pid, address + done, chunk);
      if data.None? || |data.value| != chunk { return Error(1); }
      var text := MaskedText(data.value, address, done, breakpoints, mem, hex);
      hex, done := hex + text, done + chunk;
    }
    return HexReply(hex);
  }

  /** One chunk as text, the breakpoints in it masked. */
  method MaskedText(data: seq<Byte>, address: nat, done: nat, breakpoints: map<nat, Byte>, ghost mem: map<nat, Byte>,
                    ghost hex: seq<Byte>) returns (text: seq<Byte>)
    requires Spelled(hex, mem, breakpoints, address, done) && data == Contents(mem, address + done, |data|)
    ensures Spelled(hex + text, mem, breakpoints, address, done + |data|)
  {
    var masked := Mask(data, address + done, breakpoints, mem);
    text := BytesToHex(masked);
    ChunkJoin(mem, breakpoints, address, done, |data|);
  }

  // ----------------------------------------------------------- pattern search

  ghost predicate MatchAt(mem: map<nat, Byte>, a: nat, pattern: seq<Byte>) {
    Contents(mem, a, |pattern|) == pattern
  }

  /** No match begins at `from` or later that ends by `to`. */
  ghost predicate NoMatch(mem: map<nat, Byte>, from: nat, to: nat, pattern: seq<Byte>) {
    forall a: nat :: from <= a && a + |pattern| <= to ==> !MatchAt(mem, a, pattern)
  }

  ghost predicate LowestMatch(mem: map<nat, Byte>, address: nat, length: nat, pattern: seq<Byte>, a: nat) {
    && address <= a && a + |pattern| <= address + length && MatchAt(mem, a, pattern)
    && forall b: nat :: address <= b < a ==> !MatchAt(mem, b, pattern)
  }

  /** What a plain scan of the range says. */
  ghost predicate Answers(r: Reply, mem: map<nat, Byte>, address: nat, length: nat, pattern: seq<Byte>) {
    match r
    case Found(a) => LowestMatch(mem, address, length, pattern, a)
    case Absent => NoMatch(mem, address, address + length, pattern)
    case _ => false
  }

  /** What a search is answered with when no call fails; the limits are looked at
      in the order of the source. */
  ghost predicate SearchReply(r: Reply, mem: map<nat, Byte>, address: nat, length: nat, pattern: seq<Byte>,
                              maps: seq<Region>, known: bool)
  {
    if length > MAX_SEARCH || address + length > MAX64 then r == Error(0x22)
    else if |pattern| > length then r == Absent
    else if pattern == [] || |pattern| > MAX_PATTERN || !Mapped(maps, known, address, length) then r == Error(1)
    else Answers(r, mem, address, length, pattern)
  }

  /** There is only one such answer. */
  lemma {:induction false} OneAnswer(r: Reply, q: Reply, mem: map<nat, Byte>, address: nat, length: nat,
                                     pattern: seq<Byte>)
    requires Answers(r, mem, address, length, pattern) && Answers(q, mem, address, length, pattern)
    ensures r == q
  {
    if r.Found? && q.Found? {
      assert !(r.address < q.address) && !(q.address < r.address);
    }
  }

  predicate Occurs(window: seq<Byte>, i: nat, pattern: seq<Byte>) {
    i + |pattern| <= |window| && window[i..i + |pattern|] == pattern
  }

  ghost predicate IsFirst(window: seq<Byte>, pattern: seq<Byte>, hit: nat) {
    && hit <= |window| && (hit < |window| ==> Occurs(window, hit, pattern))
    && forall i: nat :: i < hit ==> !Occurs(window, i, pattern)
  }

  /** First occurrence of the pattern in a window, or the window's length. */
  method FirstOccurrence(window: seq<Byte>, pattern: seq<Byte>) returns (hit: nat)
    requires 0 < |pattern|
    ensures IsFirst(window, pattern, hit)
  {
    hit := 0;
    while hit + |pattern| <= |window|
      invariant forall i: nat :: i < hit ==> !Occurs(window, i, pattern)
    {
      if Occurs(window, hit, pattern) { return; }
      hit := hit + 1;
    }
    hit := |window|;
  }

  /** A window over memory matches where memory does. */
  lemma {:induction false} WindowMatch(mem: map<nat, Byte>, base: nat, window: seq<Byte>, pattern: seq<Byte>, i: nat)
    requires window == Contents(mem, base, |window|) && i + |pattern| <= |window|
    ensures Occurs(window, i, pattern) <==> MatchAt(mem, base + i, pattern)
  {
    var w, c := window[i..i + |pattern|], Contents(mem, base + i, |pattern|);
    assert forall k :: 0 <= k < |pattern| ==> w[k] == ByteAt(mem, base + i + k) && c[k] == ByteAt(mem, base + i + k);
  }

  lemma ContentsJoin(mem: map<nat, Byte>, a: nat, m: nat, n: nat)
    ensures Contents(mem, a, m) + Contents(mem, a + m, n) == Contents(mem, a, m + n)
  {}

  lemma ContentsTail(mem: map<nat, Byte>, a: nat, n: nat, keep: nat)
    requires keep <= n
    ensures Contents(mem, a, n)[n - keep..] == Contents(mem, a + n - keep, keep)
  {}

  /** The search answers as a plain scan of the range would: the lowest match,
      or that there is none; it fails exactly when refused or when a call fails. */
  method SearchMemory(backend: Backend, pid: int, address: nat, length: nat, pattern: seq<Byte>,
                      maps: seq<Region>, known: bool) returns (r: Reply)
    modifies backend`history, backend`faults
    ensures OnlyUsed(old(backend.history), backend.history, pid) && backend.faults >= old(backend.faults)
    ensures if Quiet(backend) then SearchReply(r, backend.mem, address, length, pattern, maps, known) else r == Error(1)
    ensures backend.history.Length() > old(backend.history.Length())
       <==> length <= MAX_SEARCH && address + length <= MAX64 && 0 < |pattern| <= MAX_PATTERN && |pattern| <= length
            && Mapped(maps, known, address, length)
  {
    if length > MAX_SEARCH || address > MAX64 - length { return Error(0x22); }
    var mapped := true;
    if known { mapped := RangeMapped(maps, address, length); }
    if pattern == [] || |pattern| > MAX_PATTERN || |pattern| > length || !mapped {
      return if |pattern| > length then Absent else Error(1);
    }
    r := SearchChunks(backend, pid, address, length, pattern);
  }

  method SearchChunks(backend: Backend, pid: int, address: nat, length: nat, pattern: seq<Byte>) returns (r: Reply)
    requires 0 < |pattern| <= length
    modifies backend`history, backend`faults
    ensures OnlyUsed(old(backend.history), backend.history, pid) && backend.faults >= old(backend.faults)
    ensures backend.history.Length() > old(backend.history.Length())
    ensures if Quiet(backend) then Answers(r, backend.mem, address, length, pattern) else r == Error(1)
  {
    var cursor := address;
    var carry: seq<Byte> := [];
    ghost var mem := backend.mem;
    while cursor < address + length
      invariant address <= cursor <= address + length && Quiet(backend)
      invariant OnlyUsed(old(backend.history), backend.history, pid)
      invariant cursor > address ==> backend.history.Length() > old(backend.history.Length())
      invariant Carried(mem, address, cursor, |pattern| - 1, carry) && NoMatch(mem, address, cursor, pattern)
    {
      var amount := Min(CHUNK, address + length - cursor);
      UseIsUse(backend.history, pid);
      var data := backend.Read(pid, cursor, amount);
      if data.None? || |data.value| != amount { return Error(1); }
      var hit, rest := ScanWindow(carry, data.value, pattern, mem, address, cursor);
      if hit.Some? { return Found(cursor - |carry| + hit.value); }
      carry, cursor := rest, cursor + amount;
    }
    return Absent;
  }

  /** Looks for the pattern in the carry and the chunk behind it, and keeps what
      a match at the next border may need. */
  method ScanWindow(carry: seq<Byte>, data: seq<Byte>, pattern: seq<Byte>, ghost mem: map<nat, Byte>,
                    ghost address: nat, ghost cursor: nat)
    returns (hit: Option<nat>, rest: seq<Byte>)
    requires 0 < |pattern| && Carried(mem, address, cursor, |pattern| - 1, carry)
    requires NoMatch(mem, address, cursor, pattern)
    requires data == Contents(mem, cursor, |data|)
    ensures hit.Some? ==> LowestMatch(mem, address, cursor + |data| - address, pattern, cursor - |carry| + hit.value)
    ensures hit.None? ==>
      NoMatch(mem, address, cursor + |data|, pattern) && Carried(mem, address, cursor + |data|, |pattern| - 1, rest)
  {
    var window := carry + data;
    ghost var base := cursor - |carry|;
    ContentsJoin(mem, base, |carry|, |data|);
    var first := FirstOccurrence(window, pattern);
    ScanStep(mem, address, cursor, base, window, pattern, first);
    if first < |window| { return Some(first), carry; }
    return None, window[|window| - Min(|pattern| - 1, |window|)..];
  }

  /** The carry is the end of what has been read, one byte short of a pattern. */
  ghost predicate Carried(mem: map<nat, Byte>, address: nat, cursor: nat, overlap: nat, carry: seq<Byte>) {
    && address <= cursor && |carry| == Min(overlap, cursor - address)
    && carry == Contents(mem, cursor - |carry|, |carry|)
  }

  /** One chunk: a hit is the lowest match, and without one the search goes on
      with nothing missed. */
  lemma {:induction false} ScanStep(mem: map<nat, Byte>, address: nat, cursor: nat, base: nat, window: seq<Byte>,
                                    pattern: seq<Byte>, hit: nat)
    requires address <= base <= cursor <= base + |window| && window == Contents(mem, base, |window|) && 0 < |pattern|
    requires (base == address || base + |pattern| - 1 == cursor) && NoMatch(mem, address, cursor, pattern)
    requires IsFirst(window, pattern, hit)
    ensures hit < |window| ==> LowestMatch(mem, address, base + |window| - address, pattern, base + hit)
    ensures hit == |window| ==>
      && NoMatch(mem, address, base + |window|, pattern)
      && Carried(mem, address, base + |window|, |pattern| - 1, window[|window| - Min(|pattern| - 1, |window|)..])
  {
    NothingBefore(mem, address, base, cursor, window, pattern, hit);
    if hit < |window| {
      WindowMatch(mem, base, window, pattern, hit);
    } else {
      CarryOn(mem, address, base, window, |pattern| - 1);
    }
  }

  /** The end of the window is the next carry. */
  lemma {:induction false} CarryOn(mem: map<nat, Byte>, address: nat, base: nat, window: seq<Byte>, overlap: nat)
    requires address <= base && window == Contents(mem, base, |window|) && (base == address || |window| >= overlap)
    ensures Carried(mem, address, base + |window|, overlap, window[|window| - Min(overlap, |window|)..])
  {
    ContentsTail(mem, base, |window|, Min(overlap, |window|));
  }

  /** What the window did not show before `hit` is nowhere before it. */
  lemma {:induction false} NothingBefore(mem: map<nat, Byte>, address: nat, base: nat, cursor: nat, window: seq<Byte>,
                                         pattern: seq<Byte>, hit: nat)
    requires address <= base <= cursor <= base + |window| && window == Contents(mem, base, |window|) && 0 < |pattern|
    requires (base == address || base + |pattern| - 1 == cursor) && NoMatch(mem, address, cursor, pattern)
    requires IsFirst(window, pattern, hit)
    ensures forall a: nat :: address <= a < base + hit && a + |pattern| <= base + |window| ==> !MatchAt(mem, a, pattern)
  {
    forall a: nat | address <= a < base + hit && a + |pattern| <= base + |window| ensures !MatchAt(mem, a, pattern) {
      if a + |pattern| > cursor { WindowMatch(mem, base, window, pattern, a - base); }
    }
  }
}
