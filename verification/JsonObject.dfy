/** Objects: insertion-ordered pairs with hashes computed when first needed and
    an index that `json_obj_finalize` sorts.  Whatever the state of hashes and
    index, an object is a finite map from keys to values. */
module JsonObject {
  import opened Bytes
  import opened JsonGrammar
  import opened JsonScan
  import opened JsonSort

  // ------------------------------------------------------------------ hashing

  const FNV_PRIME: nat := 0x0100_0193
  const FNV_OFFSET: U32 := 0x811C_9DC5

  function Fnv(data: seq<Byte>): U32 {
    if data == [] then FNV_OFFSET
    else Xor(Fnv(data[..|data| - 1]), data[|data| - 1]) * FNV_PRIME % TWO32
  }

  /** The hash of a key of an object.  A key that the parser read as empty has no
      data, and only the parser makes such keys. */
  function KeyHash(key: seq<Byte>): U32 { if key == [] then 0 else Fnv(key) }

  method Hash(data: seq<Byte>, absent: bool) returns (hash: U32)
    ensures hash == if absent then 0 else Fnv(data)
  {
    if absent { return 0; }
    hash := FNV_OFFSET;
    var i := 0;
    while i < |data|
      invariant i <= |data| && hash == Fnv(data[..i])
    {
      assert data[..i + 1][..i] == data[..i];
      hash := Xor(hash, data[i]) * FNV_PRIME % TWO32;
      i := i + 1;
    }
    assert data[..i] == data;
  }

  /** The hash takes a byte in by its bits and then multiplies: a zero leaves the
      bits alone, a one turns the lowest. */
  lemma {:induction false} FnvNext(key: seq<Byte>)
    ensures Fnv([]) == 2166136261
    ensures Fnv(key + [0]) == Fnv(key) * 16777619 % TWO32
    ensures Fnv(key + [1]) == (if Fnv(key) % 2 == 0 then Fnv(key) + 1 else Fnv(key) - 1) * 16777619 % TWO32
  {
    XorNothing(Fnv(key));
    XorOne(Fnv(key));
    assert (key + [0])[..|key|] == key && (key + [1])[..|key|] == key;
  }

  // ------------------------------------------------- pairs as a finite map

  /** No two pairs share a key. */
  ghost predicate Keyed(ps: seq<Pair>) { forall i, j :: 0 <= i < j < |ps| ==> ps[i].key != ps[j].key }

  function Find(ps: seq<Pair>, key: seq<Byte>): (r: Option<nat>)
    ensures r.Some? ==> r.value < |ps| && ps[r.value].key == key
    ensures r.None? ==> forall i :: 0 <= i < |ps| ==> ps[i].key != key
  {
    if ps == [] then None
    else if ps[|ps| - 1].key == key then Some(|ps| - 1)
    else Find(ps[..|ps| - 1], key)
  }

  /** Where a lookup finds a key; it never finds the empty one. */
  function Lookup(ps: seq<Pair>, key: seq<Byte>): Option<nat> { if key == [] then None else Find(ps, key) }

  function MapOf(ps: seq<Pair>): map<seq<Byte>, Json> {
    if ps == [] then map[] else MapOf(ps[..|ps| - 1])[ps[|ps| - 1].key := ps[|ps| - 1].value]
  }

  /** The pairs after a set: in place, or one more at the end. */
  function Put(ps: seq<Pair>, key: seq<Byte>, v: Json): seq<Pair> {
    match Find(ps, key)
    case Some(i) => ps[i := Pair(key, v)]
    case None => ps + [Pair(key, v)]
  }

  /** With distinct keys, each pair is an entry of the map and each entry a pair. */
  lemma {:induction false} MapHolds(ps: seq<Pair>, key: seq<Byte>)
    requires Keyed(ps)
    ensures match Find(ps, key)
            case Some(i) => key in MapOf(ps) && MapOf(ps)[key] == ps[i].value
            case None => key !in MapOf(ps)
  {
    if ps == [] {
    } else {
      MapHolds(ps[..|ps| - 1], key);
    }
  }

  lemma PutKeyed(ps: seq<Pair>, key: seq<Byte>, v: Json)
    requires Keyed(ps)
    ensures Keyed(Put(ps, key, v))
  {}

  lemma {:induction false} FindAfterPut(ps: seq<Pair>, key: seq<Byte>, v: Json, other: seq<Byte>)
    requires Keyed(ps)
    ensures Find(Put(ps, key, v), other) == if other == key && Find(ps, key).None? then Some(|ps|) else Find(ps, other)
  {
    var qs := Put(ps, key, v);
    var f, g := Find(ps, other), Find(qs, other);
    if Find(ps, key).Some? && f.Some? { assert qs[f.value].key == other; }
    if f.Some? { assert qs[f.value].key == other; }
    if g.Some? && g.value < |ps| { assert ps[g.value].key == other; }
  }

  lemma FoundAt(ps: seq<Pair>, key: seq<Byte>, i: nat)
    requires Keyed(ps) && i <= |ps| && (i < |ps| ==> ps[i].key == key)
    requires i == |ps| ==> forall k :: 0 <= k < |ps| ==> ps[k].key != key
    ensures Find(ps, key) == if i < |ps| then Some(i) else None
  {}

  /** A set is a map update. */
  lemma {:induction false} PutUpdatesMap(ps: seq<Pair>, key: seq<Byte>, v: Json)
    requires Keyed(ps)
    ensures MapOf(Put(ps, key, v)) == MapOf(ps)[key := v]
  {
    var qs := Put(ps, key, v);
    PutKeyed(ps, key, v);
    forall k
      ensures k in MapOf(qs) <==> k in MapOf(ps)[key := v]
      ensures k in MapOf(qs) ==> MapOf(qs)[k] == MapOf(ps)[key := v][k]
    {
      MapHolds(ps, k);
      MapHolds(qs, k);
      FindAfterPut(ps, key, v, k);
    }
  }

  // ------------------------------------------------------------------ entries

  /** A pair as stored: a hash of zero has not been computed yet. */
  datatype Entry = Entry(key: seq<Byte>, hash: U32, value: Json)

  function KeyOf(e: Entry): Key { Key(e.hash, e.key) }

  ghost function PairsOf(es: seq<Entry>): (ps: seq<Pair>)
    ensures |ps| == |es| && forall i :: 0 <= i < |es| ==> ps[i] == Pair(es[i].key, es[i].value)
  {
    seq(|es|, i requires 0 <= i < |es| => Pair(es[i].key, es[i].value))
  }

  function KeysOf(es: seq<Entry>): (ks: seq<Key>)
    ensures |ks| == |es| && forall i :: 0 <= i < |es| ==> ks[i] == KeyOf(es[i])
  {
    seq(|es|, i requires 0 <= i < |es| => KeyOf(es[i]))
  }

  ghost predicate Hashed(e: Entry) { e.hash == KeyHash(e.key) }

  ghost predicate SoundHashes(es: seq<Entry>) { forall i :: 0 <= i < |es| ==> es[i].hash == 0 || Hashed(es[i]) }

  ghost predicate AllHashed(es: seq<Entry>) { forall i :: 0 <= i < |es| ==> Hashed(es[i]) }

  /** The index lists every entry, in the order of the keys. */
  ghost predicate Indexed(es: seq<Entry>, idx: seq<nat>) {
    && |idx| == |es| && AllHashed(es)
    && (forall p :: 0 <= p < |idx| ==> idx[p] < |es|)
    && (forall k :: 0 <= k < |es| ==> k in idx)
    && forall p, q :: 0 <= p <= q < |idx| ==> Compare(KeyOf(es[idx[p]]), KeyOf(es[idx[q]])) <= 0
  }

  /** Only values and uncomputed hashes differ. */
  ghost predicate SameKeys(es: seq<Entry>, was: seq<Entry>) {
    && |es| == |was|
    && forall i :: 0 <= i < |es| ==> es[i].key == was[i].key && (Hashed(was[i]) ==> es[i].hash == was[i].hash)
  }

  /** An index outlives changes of values. */
  lemma {:induction false} StaysIndexed(es: seq<Entry>, was: seq<Entry>, idx: seq<nat>)
    requires Indexed(was, idx) && SameKeys(es, was)
    ensures Indexed(es, idx)
  {
    forall i | 0 <= i < |es| ensures KeyOf(es[i]) == KeyOf(was[i]) && Hashed(es[i]) { assert Hashed(was[i]); }
  }

  // -------------------------------------------------------------- index order

  function ILog2(n: nat): nat { if n <= 1 then 0 else 1 + ILog2(n / 2) }

  method FloorLog2(n: nat) returns (r: nat)
    ensures r == ILog2(n) && (n >= 1 ==> Pow2(r) <= n < Pow2(r + 1))
  {
    r := 0;
    var m := n;
    while m > 1
      invariant 0 <= m && r + ILog2(m) == ILog2(n) && (n >= 1 ==> m >= 1)
      invariant m * Pow2(r) <= n && (n >= 1 ==> n < (m + 1) * Pow2(r))
    {
      HalveTwice(m, Pow2(r));
      m, r := m / 2, r + 1;
    }
  }

  lemma {:induction false} HalveTwice(m: nat, p: nat)
    ensures (m / 2) * (2 * p) <= m * p && (m + 1) * p <= (m / 2 + 1) * (2 * p)
  {
    var h := m / 2;
    if m % 2 == 0 {
      assert m == 2 * h && m * p == h * (2 * p);
    } else {
      assert m == 2 * h + 1 && m * p == h * (2 * p) + p;
    }
    assert (h + 1) * (2 * p) == h * (2 * p) + 2 * p;
    assert (m + 1) * p == m * p + p;
  }

  /** What a sort may cost in comparisons. */
  ghost function SortBound(n: nat): nat { n * (9 * ILog2(n) + 19) }

  lemma {:induction false} SortBudget(cost: nat, n: nat, log: nat)
    requires log == ILog2(n) && Affords(cost, n, 2 * log, log + 1)
    ensures cost <= SortBound(n)
  {
    BudgetIs(n, 2 * log, log + 1);
  }

  lemma {:induction false} Extremes(rank: seq<int>) returns (low: int, high: int)
    ensures forall k :: 0 <= k < |rank| ==> low <= rank[k] <= high
  {
    if rank == [] {
      low, high := 0, 0;
    } else {
      low, high := Extremes(rank[..|rank| - 1]);
      var x := rank[|rank| - 1];
      low, high := Min(low, x), -Min(-high, -x);
      assert forall k :: 0 <= k < |rank| - 1 ==> rank[k] == rank[..|rank| - 1][k];
    }
  }

  lemma {:induction false} PrefixPermuted(a: seq<nat>, b: seq<nat>, n: nat)
    requires n <= |a| && Rearranged(a, b, 0, n - 1)
    ensures multiset(a[..n]) == multiset(b[..n])
  {
    assert a[n..] == b[n..];
    assert a == a[..n] + a[n..] && b == b[..n] + b[n..];
    assert multiset(a[..n]) == multiset(a) - multiset(a[n..]);
    assert multiset(b[..n]) == multiset(b) - multiset(b[n..]);
  }

  /** What the sort makes of the identity is an index of the entries. */
  lemma {:induction false} SortedIsIndexed(es: seq<Entry>, a: seq<nat>, b: seq<nat>, rank: seq<int>)
    requires 0 < |es| <= |a| && AllHashed(es) && Ranked(KeysOf(es), rank)
    requires Rearranged(a, b, 0, |es| - 1) && Ordered(a, rank, 0, |es| - 1)
    requires forall k :: 0 <= k < |es| ==> b[k] == k
    ensures Indexed(es, a[..|es|])
  {
    var n := |es|;
    PrefixPermuted(a, b, n);
    forall p | 0 <= p < n ensures a[..n][p] < n {
      assert a[..n][p] in multiset(b[..n]);
    }
    forall k | 0 <= k < n ensures k in a[..n] {
      assert b[..n][k] == k;
      assert k in multiset(a[..n]);
    }
    forall p, q | 0 <= p <= q < n ensures Compare(KeyOf(es[a[..n][p]]), KeyOf(es[a[..n][q]])) <= 0 {
      assert Rank(rank, a[p]) <= Rank(rank, a[q]) && a[..n][p] == a[p] && a[..n][q] == a[q];
      assert Compare(KeysOf(es)[a[p]], KeysOf(es)[a[q]]) <= 0;
    }
  }

  // -------------------------------------------------------------- interleavings

  datatype Op = SetKey(key: seq<Byte>, v: Json) | Finish | GetKey(key: seq<Byte>)
  datatype Answer = Done(ok: bool) | Value(v: Option<Json>)

  /** What an operation answers and does to the map. */
  ghost predicate Does(op: Op, answer: Answer, m: map<seq<Byte>, Json>, m': map<seq<Byte>, Json>) {
    match op
    case SetKey(key, v) => answer.Done? && m' == if answer.ok then m[key := v] else m
    case Finish => answer.Done? && m' == m
    case GetKey(key) => answer == Value(if key != [] && key in m then Some(m[key]) else None) && m' == m
  }

  /** A set of a key or a finalize that failed. */
  predicate Fails(op: Op, answer: Answer) { answer == Done(false) && !(op.SetKey? && op.key == []) }

  ghost predicate NoneFails(ops: seq<Op>, answers: seq<Answer>) {
    |answers| == |ops| && forall i :: 0 <= i < |ops| ==> !Fails(ops[i], answers[i])
  }

  ghost predicate Follows(ops: seq<Op>, answers: seq<Answer>, maps: seq<map<seq<Byte>, Json>>) {
    && |answers| == |ops| && |maps| == |ops| + 1
    && forall i :: 0 <= i < |ops| ==> Does(ops[i], answers[i], maps[i], maps[i + 1])
  }

  lemma {:induction false} FollowsNext(ops: seq<Op>, answers: seq<Answer>, maps: seq<map<seq<Byte>, Json>>, i: nat,
                                       answer: Answer, m: map<seq<Byte>, Json>)
    requires i < |ops| && Follows(ops[..i], answers, maps) && Does(ops[i], answer, maps[i], m)
    ensures Follows(ops[..i + 1], answers + [answer], maps + [m])
    ensures NoneFails(ops[..i], answers) && !Fails(ops[i], answer) ==> NoneFails(ops[..i + 1], answers + [answer])
  {
    assert forall k :: 0 <= k < i ==> ops[..i][k] == ops[k];
  }

  /** The last value set before operation `n`, or what there was at first. */
  ghost function LastSet(ops: seq<Op>, answers: seq<Answer>, start: map<seq<Byte>, Json>, n: nat,
                         key: seq<Byte>): Option<Json>
    requires n <= |ops| == |answers|
  {
    if n == 0 then (if key in start then Some(start[key]) else None)
    else if ops[n - 1].SetKey? && ops[n - 1].key == key && answers[n - 1] == Done(true) then Some(ops[n - 1].v)
    else LastSet(ops, answers, start, n - 1, key)
  }

  /** In any interleaving a get answers with the last value set. */
  lemma {:induction false} LastSetIsRead(ops: seq<Op>, answers: seq<Answer>, maps: seq<map<seq<Byte>, Json>>, n: nat,
                                         key: seq<Byte>)
    requires Follows(ops, answers, maps) && n <= |ops|
    ensures LastSet(ops, answers, maps[0], n, key) == if key in maps[n] then Some(maps[n][key]) else None
    ensures n < |ops| && ops[n] == GetKey(key) && key != [] ==>
      answers[n] == Value(LastSet(ops, answers, maps[0], n, key))
  {
    if n == 0 {
    } else {
      LastSetIsRead(ops, answers, maps, n - 1, key);
      assert Does(ops[n - 1], answers[n - 1], maps[n - 1], maps[n]);
    }
    if n < |ops| { assert Does(ops[n], answers[n], maps[n], maps[n + 1]); }
  }

  // ------------------------------------------------------------------ objects

  class Object {
    var pairs: array<Entry>
    var len: nat
    var index: array?<nat>
    var isSorted: bool

    ghost function Entries(): seq<Entry>
      reads this, pairs
      requires len <= pairs.Length
    {
      pairs[..len]
    }

    /** The object as its users see it. */
    ghost function Pairs(): seq<Pair>
      reads this, pairs
      requires len <= pairs.Length
    {
      PairsOf(pairs[..len])
    }

    ghost function Map(): map<seq<Byte>, Json>
      reads this, pairs
      requires len <= pairs.Length
    {
      MapOf(Pairs())
    }

    ghost predicate Valid()
      reads this, pairs, index
    {
      && len <= pairs.Length < TWO32
      && SoundHashes(pairs[..len]) && Keyed(Pairs())
      && (index != null ==> index.Length == pairs.Length)
      && (isSorted ==> index != null && Indexed(pairs[..len], index[..len]))
    }

    /** An object as the parser leaves it: no hash computed, no index. */
    constructor (ps: seq<Pair>)
      requires Keyed(ps) && |ps| < TWO32
      ensures Valid() && Pairs() == ps && fresh(pairs) && index == null && !isSorted
    {
      var a := new Entry[|ps|](i requires 0 <= i < |ps| => Entry(ps[i].key, 0, ps[i].value));
      pairs, len, index, isSorted := a, |ps|, null, false;
      new;
      assert PairsOf(pairs[..len]) == ps;
    }

    /** Computes the hash of a pair if that has been put off. */
    method EnsureHash(i: nat)
      requires Valid() && i < len
      modifies pairs
      ensures Valid() && SameKeys(Entries(), old(Entries())) && Pairs() == old(Pairs()) && Hashed(pairs[i])
      ensures forall k :: 0 <= k < len && old(Hashed(pairs[k])) ==> Hashed(pairs[k])
    {
      ghost var was := pairs[..len];
      if pairs[i].hash == 0 {
        var h := Hash(pairs[i].key, pairs[i].key == []);
        pairs[i] := pairs[i].(hash := h);
      }
      assert PairsOf(pairs[..len]) == PairsOf(was);
      if isSorted { StaysIndexed(pairs[..len], was, index[..len]); }
    }

    /** The linear scan, which computes the hashes it meets for the first time. */
    method Scan(key: seq<Byte>) returns (i: nat)
      requires Valid()
      modifies pairs
      ensures Valid() && SameKeys(Entries(), old(Entries())) && Pairs() == old(Pairs())
      ensures i <= len && Lookup(Pairs(), key) == if i < len then Some(i) else None
    {
      ghost var ps, es := Pairs(), Entries();
      var hash := Hash(key, false);
      i := 0;
      while i < len
        invariant i <= len && Valid() && SameKeys(Entries(), es) && Pairs() == ps
        invariant forall k :: 0 <= k < i && key != [] ==> ps[k].key != key
      {
        EnsureHash(i);
        assert ps[i].key == pairs[i].key;
        if pairs[i].hash == hash && |pairs[i].key| == |key| && pairs[i].key == key { break; }
        i := i + 1;
      }
      if key != [] { FoundAt(ps, key, i); }
    }

    /** Doubles the capacity; the index does not survive. */
    method Grow(arena: Arena) returns (r: Result<()>)
      requires Valid() && len == pairs.Length
      modifies this, arena
      ensures Valid() && len == old(len) && Entries() == old(Entries())
      ensures r == if len >= TWO32 / 2 then Err(Overflow) else if old(arena.left) > 0 then Ok(()) else Err(OutOfMemory)
      ensures r.Ok? ==> arena.left == old(arena.left) - 1
      ensures r.Ok? ==> fresh(pairs) && index == null && !isSorted && len < pairs.Length
      ensures r.Err? ==>
        pairs == old(pairs) && arena.left == old(arena.left) && index == old(index) && isSorted == old(isSorted)
    {
      var newCap: nat := if pairs.Length == 0 then 8 else pairs.Length * 2 % TWO32;
      if newCap < pairs.Length { return Err(Overflow); }
      var ok := arena.Allocate();
      if !ok { return Err(OutOfMemory); }
      var bigger := new Entry[newCap];
      CopyTo(bigger);
      pairs, index, isSorted := bigger, null, false;
      return Ok(());
    }

    method CopyTo(bigger: array<Entry>)
      requires len <= pairs.Length && len <= bigger.Length && bigger != pairs
      modifies bigger
      ensures bigger[..len] == pairs[..len]
    {
      var i := 0;
      while i < len
        invariant i <= len && bigger[..i] == pairs[..i]
      {
        bigger[i] := pairs[i];
        i := i + 1;
      }
    }

    /** Sets a key: in place when it is there, else as a new last pair.  A set
        that fails leaves the pairs as they were; it fails for the empty key, for
        which no memory is to be had, and for want of memory or of capacity. */
    method Set(arena: Arena, key: seq<Byte>, v: Json) returns (r: Result<()>)
      requires Valid()
      modifies this, pairs, arena
      ensures Valid() && Pairs() == if r.Ok? then Put(old(Pairs()), key, v) else old(Pairs())
      ensures Map() == if r.Ok? then old(Map())[key := v] else old(Map())
      ensures key == [] ==> r.Err?
      ensures key != [] && (key in old(Map()) || (old(arena.left) >= 2 && old(len) < TWO32 / 2)) ==> r.Ok?
      ensures r.Ok? || r == Err(OutOfMemory) || (r == Err(Overflow) && old(len) >= TWO32 / 2)
      ensures (pairs == old(pairs) || fresh(pairs)) && (index == old(index) || index == null) && len <= old(len) + 1
      ensures old(arena.left) - 2 <= arena.left <= old(arena.left) && len >= old(len)
    {
      ghost var was := Pairs();
      MapHolds(was, key);
      PutUpdatesMap(was, key, v);
      PutKeyed(was, key, v);
      var i := Scan(key);
      if i < len {
        Overwrite(i, v);
        return Ok(());
      }
      r := Add(arena, key, v);
    }

    /** The pair of a key that is not there yet. */
    method Add(arena: Arena, key: seq<Byte>, v: Json) returns (r: Result<()>)
      requires Valid() && (key != [] ==> Keyed(Pairs() + [Pair(key, v)]))
      modifies this, pairs, arena
      ensures Valid() && Pairs() == if r.Ok? then old(Pairs()) + [Pair(key, v)] else old(Pairs())
      ensures key == [] ==> r.Err?
      ensures key != [] && old(arena.left) >= 2 && old(len) < TWO32 / 2 ==> r.Ok?
      ensures r.Ok? || r == Err(OutOfMemory) || (r == Err(Overflow) && old(len) >= TWO32 / 2)
      ensures (pairs == old(pairs) || fresh(pairs)) && (index == old(index) || index == null) && len <= old(len) + 1
      ensures old(arena.left) - 2 <= arena.left <= old(arena.left) && len >= old(len)
    {
      if len >= pairs.Length {
        r := Grow(arena);
        if r.Err? { return; }
      }
      if key == [] { return Err(OutOfMemory); }
      var ok := arena.Allocate();
      if !ok { return Err(OutOfMemory); }
      Append(key, v);
      return Ok(());
    }

    method Overwrite(i: nat, v: Json)
      requires Valid() && i < len
      modifies pairs
      ensures Valid() && Pairs() == old(Pairs())[i := Pair(old(pairs[i].key), v)]
    {
      ghost var was := pairs[..len];
      pairs[i] := pairs[i].(value := v);
      assert PairsOf(pairs[..len]) == PairsOf(was)[i := Pair(was[i].key, v)];
      if isSorted { StaysIndexed(pairs[..len], was, index[..len]); }
    }

    method Append(key: seq<Byte>, v: Json)
      requires Valid() && key != [] && len < pairs.Length && Keyed(Pairs() + [Pair(key, v)])
      modifies this`len, this`isSorted, pairs
      ensures Valid() && Pairs() == old(Pairs()) + [Pair(key, v)] && len == old(len) + 1
    {
      ghost var was := pairs[..len];
      var h := Hash(key, false);
      pairs[len] := Entry(key, h, v);
      len, isSorted := len + 1, false;
      assert pairs[..len] == was + [Entry(key, h, v)];
      assert PairsOf(pairs[..len]) == PairsOf(was) + [Pair(key, v)];
    }

    /** Builds the index; the pairs do not change. */
    method Finalize(arena: Arena) returns (r: Result<()>)
      requires Valid() && len <= TWO32 / 2
      modifies this, pairs, index, arena
      ensures Valid() && Pairs() == old(Pairs()) && (r.Ok? || r == Err(OutOfMemory))
      ensures r.Ok? ==> isSorted || len == 0
      ensures pairs == old(pairs) && len == old(len) && (index == old(index) || fresh(index))
      ensures old(arena.left) - 1 <= arena.left <= old(arena.left) && (old(arena.left) > 0 ==> r.Ok?)
    {
      if isSorted || len == 0 { return Ok(()); }
      if index == null {
        var ok := arena.Allocate();
        if !ok { return Err(OutOfMemory); }
        index := new nat[pairs.Length];
      }
      ComputeHashes();
      ghost var _ := SortIndex();
      return Ok(());
    }

    method ComputeHashes()
      requires Valid() && index != null && !isSorted
      modifies pairs, index
      ensures Valid() && Pairs() == old(Pairs()) && AllHashed(pairs[..len])
      ensures forall k :: 0 <= k < len ==> index[k] == k
    {
      ghost var ps := Pairs();
      var i := 0;
      while i < len
        invariant i <= len && Valid() && Pairs() == ps && forall k :: 0 <= k < i ==> Hashed(pairs[k])
        invariant forall k :: 0 <= k < i ==> index[k] == k
      {
        index[i] := i;
        EnsureHash(i);
        i := i + 1;
      }
    }

    /** Sorts in at most n (9 log n + 19) comparisons, whatever the keys. */
    method SortIndex() returns (ghost cost: nat)
      requires Valid() && index != null && 0 < len <= TWO32 / 2 && AllHashed(pairs[..len])
      requires forall k :: 0 <= k < len ==> index[k] == k
      modifies this`isSorted, index
      ensures Valid() && isSorted && cost <= SortBound(len)
    {
      ghost var was := index[..];
      cost := 0;
      var keys := KeysOf(pairs[..len]);
      ghost var rank := RanksExist(keys);
      if len > 1 {
        ghost var low, high := Extremes(rank);
        var log := FloorLog2(len);
        ghost var levels;
        levels, cost := IntroSort(keys, index, 0, len - 1, 2 * log, rank, low, high, len, log + 1);
        SortBudget(cost, len, log);
      }
      SortedIsIndexed(pairs[..len], index[..], was, rank);
      assert index[..len] == index[..][..len];
      isSorted := true;
    }

    /** Looks a key up, by scanning or by binary search: the answer is what the
        map holds either way. */
    method Get(key: seq<Byte>) returns (r: Option<Json>)
      requires Valid() && (isSorted ==> len < TWO32 / 2)
      modifies pairs
      ensures Valid() && Pairs() == old(Pairs()) && isSorted == old(isSorted)
      ensures r == if key != [] && key in Map() then Some(Map()[key]) else None
    {
      ghost var was := Pairs();
      MapHolds(was, key);
      if len == 0 { return None; }
      if !isSorted || index == null {
        var i := Scan(key);
        r := if i < len then Some(pairs[i].value) else None;
      } else {
        r := Search(key);
      }
    }

    method Search(key: seq<Byte>) returns (r: Option<Json>)
      requires Valid() && isSorted && 0 < len < TWO32 / 2
      ensures match Lookup(Pairs(), key)
              case Some(i) => r == Some(pairs[i].value)
              case None => r == None
    {
      var hash := Hash(key, false);
      ghost var x, es, idx := Key(hash, key), pairs[..len], index[..len];
      var lo, hi := 0, len - 1;
      while lo <= hi
        invariant 0 <= lo <= hi + 1 <= len
        invariant forall p :: 0 <= p < lo ==> Compare(KeyOf(es[idx[p]]), x) < 0
        invariant forall p :: hi < p < len ==> Compare(KeyOf(es[idx[p]]), x) > 0
      {
        var mid := lo + (hi - lo) / 2;
        assert index[mid] == idx[mid];
        var i := index[mid];
        var k := pairs[i];
        assert k == es[i];
        var c := if k.hash < hash then -1 else if k.hash > hash then 1 else DataCompare(k.key, key);
        assert c == Compare(KeyOf(k), x);
        if c < 0 {
          AllBefore(es, idx, mid, x);
          lo := mid + 1;
        } else if c > 0 {
          AllAfter(es, idx, mid, x);
          hi := mid - 1;
        } else {
          CompareTotal(KeyOf(k), x);
          FoundAt(Pairs(), key, i);
          return Some(k.value);
        }
      }
      NowhereEqual(es, idx, x);
      return None;
    }

    /** Every interleaving of sets, finalizes and gets: `maps` is the map before
        the first operation and after each. */
    method Replay(ops: seq<Op>, arena: Arena) returns (answers: seq<Answer>, ghost maps: seq<map<seq<Byte>, Json>>)
      requires Valid() && len + |ops| < TWO32 / 2
      modifies this, pairs, index, arena
      ensures Valid() && |answers| == |ops| && maps != [] && maps[0] == old(Map())
      ensures Follows(ops, answers, maps) && Map() == maps[|ops|]
      ensures old(arena.left) >= 2 * |ops| ==> NoneFails(ops, answers)
    {
      answers, maps := [], [Map()];
      var i := 0;
      while i < |ops|
        invariant i <= |ops| && Valid() && len + |ops| - i < TWO32 / 2
        invariant (pairs == old(pairs) || fresh(pairs)) && (index == null || index == old(index) || fresh(index))
        invariant |answers| == i && |maps| == i + 1 && maps[0] == old(Map()) && maps[i] == Map()
        invariant Follows(ops[..i], answers, maps) && old(arena.left) - 2 * i <= arena.left <= old(arena.left)
        invariant old(arena.left) >= 2 * |ops| ==> NoneFails(ops[..i], answers)
      {
        var answer := Perform(ops[i], arena);
        FollowsNext(ops, answers, maps, i, answer, Map());
        answers, maps, i := answers + [answer], maps + [Map()], i + 1;
      }
      assert ops[..i] == ops;
    }

    method Perform(op: Op, arena: Arena) returns (answer: Answer)
      requires Valid() && len < TWO32 / 2
      modifies this, pairs, index, arena
      ensures Valid() && old(len) <= len <= old(len) + 1
      ensures (pairs == old(pairs) || fresh(pairs)) && (index == null || index == old(index) || fresh(index))
      ensures Does(op, answer, old(Map()), Map())
      ensures old(arena.left) - 2 <= arena.left <= old(arena.left) && (old(arena.left) >= 2 ==> !Fails(op, answer))
    {
      match op
      case SetKey(key, v) =>
        var r := Set(arena, key, v);
        return Done(r.Ok?);
      case Finish =>
        var r := Finalize(arena);
        return Done(r.Ok?);
      case GetKey(key) =>
        var v := Get(key);
        return Value(v);
    }
  }

  lemma {:induction false} ChainBefore(y: Key, z: Key, x: Key)
    requires Compare(y, z) <= 0 && Compare(z, x) < 0
    ensures Compare(y, x) < 0
  {
    CompareTotal(y, z);
    if Compare(y, z) < 0 { CompareTransitive(y, z, x); }
  }

  lemma {:induction false} BeforeChain(x: Key, z: Key, y: Key)
    requires Compare(x, z) < 0 && Compare(z, y) <= 0
    ensures Compare(x, y) < 0
  {
    CompareTotal(z, y);
    if Compare(z, y) < 0 { CompareTransitive(x, z, y); }
  }

  lemma {:induction false} AllBefore(es: seq<Entry>, idx: seq<nat>, mid: nat, x: Key)
    requires Indexed(es, idx) && mid < |idx| && Compare(KeyOf(es[idx[mid]]), x) < 0
    ensures forall p :: 0 <= p <= mid ==> Compare(KeyOf(es[idx[p]]), x) < 0
  {
    forall p | 0 <= p <= mid ensures Compare(KeyOf(es[idx[p]]), x) < 0 {
      var y, z := KeyOf(es[idx[p]]), KeyOf(es[idx[mid]]);
      ChainBefore(y, z, x);
    }
  }

  lemma {:induction false} NowhereEqual(es: seq<Entry>, idx: seq<nat>, x: Key)
    requires Indexed(es, idx) && x.hash == Fnv(x.data)
    requires forall p :: 0 <= p < |idx| ==> Compare(KeyOf(es[idx[p]]), x) != 0
    ensures Lookup(PairsOf(es), x.data) == None
  {
    forall i | 0 <= i < |es| && x.data != [] ensures es[i].key != x.data {
      assert i in idx;
      CompareTotal(KeyOf(es[i]), x);
      assert Hashed(es[i]);
    }
  }

  lemma {:induction false} AllAfter(es: seq<Entry>, idx: seq<nat>, mid: nat, x: Key)
    requires Indexed(es, idx) && mid < |idx| && Compare(KeyOf(es[idx[mid]]), x) > 0
    ensures forall p :: mid <= p < |idx| ==> Compare(KeyOf(es[idx[p]]), x) > 0
  {
    forall p | mid <= p < |idx| ensures Compare(KeyOf(es[idx[p]]), x) > 0 {
      var y, z := KeyOf(es[idx[p]]), KeyOf(es[idx[mid]]);
      CompareTotal(x, z);
      CompareTotal(x, y);
      BeforeChain(x, z, y);
    }
  }
}
