/** The order of object keys and `json__introsort`, which sorts an index array
    by it. */
module JsonSort {
  import opened Bytes

  const THRESHOLD := 16

  /** A key with its hash. */
  datatype Key = Key(hash: U32, data: seq<Byte>)

  // ------------------------------------------------------------------- order

  /** The sign of memcmp over blocks of one length. */
  function BlockCompare(x: seq<Byte>, y: seq<Byte>): int
    requires |x| == |y|
  {
    if x == [] then 0
    else if x[0] != y[0] then (if x[0] < y[0] then -1 else 1)
    else BlockCompare(x[1..], y[1..])
  }

  /** The common part first, then the lengths. */
  function DataCompare(x: seq<Byte>, y: seq<Byte>): int {
    var n := Min(|x|, |y|);
    var c := BlockCompare(x[..n], y[..n]);
    if c != 0 then c
    else if |x| < |y| then -1
    else if |x| > |y| then 1
    else 0
  }

  function Compare(x: Key, y: Key): int {
    if x.hash != y.hash then (if x.hash < y.hash then -1 else 1)
    else DataCompare(x.data, y.data)
  }

  lemma {:induction false} DataCompareStep(x: seq<Byte>, y: seq<Byte>)
    ensures x == [] || y == [] ==> DataCompare(x, y) == if x == y then 0 else if x == [] then -1 else 1
    ensures x != [] && y != [] && x[0] != y[0] ==> DataCompare(x, y) == if x[0] < y[0] then -1 else 1
    ensures x != [] && y != [] && x[0] == y[0] ==> DataCompare(x, y) == DataCompare(x[1..], y[1..])
  {
    var n := Min(|x|, |y|);
    if n > 0 {
      assert x[..n][1..] == x[1..][..n - 1] && y[..n][1..] == y[1..][..n - 1];
    }
  }

  /** A total order: antisymmetric, and equal only on equal strings. */
  lemma {:induction false} DataCompareTotal(x: seq<Byte>, y: seq<Byte>)
    ensures DataCompare(x, y) == -DataCompare(y, x)
    ensures DataCompare(x, y) == 0 <==> x == y
  {
    DataCompareStep(x, y);
    DataCompareStep(y, x);
    if x == [] || y == [] || x[0] != y[0] {
    } else {
      DataCompareTotal(x[1..], y[1..]);
      assert x == [x[0]] + x[1..] && y == [y[0]] + y[1..];
    }
  }

  lemma {:induction false} DataCompareTransitive(x: seq<Byte>, y: seq<Byte>, z: seq<Byte>)
    requires DataCompare(x, y) < 0 && DataCompare(y, z) < 0
    ensures DataCompare(x, z) < 0
  {
    DataCompareStep(x, y);
    DataCompareStep(y, z);
    DataCompareStep(x, z);
    if x == [] || y == [] || z == [] || x[0] != y[0] || y[0] != z[0] {
    } else {
      DataCompareTransitive(x[1..], y[1..], z[1..]);
    }
  }

  /** Byte strings in dictionary order: a prefix first, else by the first byte in
      which they differ. */
  ghost predicate DataLess(x: seq<Byte>, y: seq<Byte>) {
    x < y || exists k: nat :: k < |x| && k < |y| && x[..k] == y[..k] && x[k] < y[k]
  }

  lemma {:induction false} DataLessStep(x: seq<Byte>, y: seq<Byte>)
    requires x != [] && y != [] && x[0] == y[0]
    ensures DataLess(x, y) <==> DataLess(x[1..], y[1..])
  {
    var s, t := x[1..], y[1..];
    assert x == [x[0]] + s && y == [y[0]] + t;
    assert x < y <==> s < t;
    if k: nat :| k < |x| && k < |y| && x[..k] == y[..k] && x[k] < y[k] {
      assert s[..k - 1] == x[..k][1..] && t[..k - 1] == y[..k][1..] && s[k - 1] < t[k - 1];
    }
    if k: nat :| k < |s| && k < |t| && s[..k] == t[..k] && s[k] < t[k] {
      assert x[..k + 1] == [x[0]] + s[..k] && y[..k + 1] == [y[0]] + t[..k] && x[k + 1] < y[k + 1];
    }
  }

  lemma {:induction false} DataCompareIsLess(x: seq<Byte>, y: seq<Byte>)
    ensures DataCompare(x, y) < 0 <==> DataLess(x, y)
  {
    DataCompareStep(x, y);
    if x == [] || y == [] {
    } else if x[0] != y[0] {
      assert x[..0] == y[..0];
      if k: nat :| k < |x| && k < |y| && x[..k] == y[..k] && x[k] < y[k] {
        if k > 0 { assert x[..k][0] == y[..k][0]; }
      }
    } else {
      DataCompareIsLess(x[1..], y[1..]);
      DataLessStep(x, y);
    }
  }

  /** Keys in order of their hashes, and in dictionary order where these agree. */
  lemma {:induction false} CompareIsLess(x: Key, y: Key)
    ensures Compare(x, y) < 0 <==> x.hash < y.hash || (x.hash == y.hash && DataLess(x.data, y.data))
  {
    DataCompareIsLess(x.data, y.data);
  }

  lemma {:induction false} CompareTotal(x: Key, y: Key)
    ensures Compare(x, y) < 0 <==> Compare(y, x) > 0
    ensures Compare(x, y) == 0 <==> x == y
  {
    DataCompareTotal(x.data, y.data);
  }

  lemma {:induction false} CompareTransitive(x: Key, y: Key, z: Key)
    requires Compare(x, y) < 0 && Compare(y, z) < 0
    ensures Compare(x, z) < 0
  {
    if x.hash == y.hash == z.hash { DataCompareTransitive(x.data, y.data, z.data); }
  }

  // ------------------------------------------------------------------- ranks

  /** The entries that come before `x`. */
  function Before(keys: seq<Key>, x: Key): set<int> {
    set k | 0 <= k < |keys| && Compare(keys[k], x) < 0
  }

  lemma {:induction false} BeforeGrows(keys: seq<Key>, a: nat, b: nat)
    requires a < |keys| && b < |keys| && Compare(keys[a], keys[b]) < 0
    ensures |Before(keys, keys[a])| < |Before(keys, keys[b])|
  {
    var s, t := Before(keys, keys[a]), Before(keys, keys[b]);
    forall k | k in s ensures k in t { CompareTransitive(keys[k], keys[a], keys[b]); }
    CompareTotal(keys[a], keys[a]);
    assert a in t && a !in s && s <= t - {a};
    Subset(s, t - {a});
  }

  lemma {:induction false} Subset(s: set<int>, t: set<int>)
    requires s <= t
    ensures |s| <= |t|
  {
    assert t == s + (t - s);
  }

  /** Numbers that order as the keys do. */
  ghost predicate Ranked(keys: seq<Key>, rank: seq<int>) {
    && |rank| == |keys|
    && forall a, b {:trigger Compare(keys[a], keys[b])} :: 0 <= a < |keys| && 0 <= b < |keys| ==>
         && (Compare(keys[a], keys[b]) < 0 <==> rank[a] < rank[b])
         && (Compare(keys[a], keys[b]) > 0 <==> rank[a] > rank[b])
  }

  /** There are such numbers for every list of keys. */
  lemma {:induction false} RanksExist(keys: seq<Key>) returns (rank: seq<int>)
    ensures Ranked(keys, rank)
  {
    rank := seq(|keys|, k requires 0 <= k < |keys| => |Before(keys, keys[k])|);
    forall a, b | 0 <= a < |keys| && 0 <= b < |keys|
      ensures Compare(keys[a], keys[b]) < 0 <==> rank[a] < rank[b]
      ensures Compare(keys[a], keys[b]) > 0 <==> rank[a] > rank[b]
    {
      CompareTotal(keys[a], keys[b]);
      CompareTotal(keys[b], keys[a]);
      if Compare(keys[a], keys[b]) < 0 { BeforeGrows(keys, a, b); }
      if Compare(keys[b], keys[a]) < 0 { BeforeGrows(keys, b, a); }
    }
  }

  // ------------------------------------------------------------- index arrays

  /** The rank of an index; anything for what is none. */
  ghost function Rank(rank: seq<int>, x: nat): int { if x < |rank| then rank[x] else 0 }

  /** Indices of keys whose ranks lie between two bounds. */
  ghost predicate Within(a: seq<nat>, rank: seq<int>, lo: nat, hi: nat, low: int, high: int)
    requires hi < |a|
  {
    forall k :: lo <= k <= hi ==> a[k] < |rank| && low <= Rank(rank, a[k]) <= high
  }

  ghost predicate Ordered(a: seq<nat>, rank: seq<int>, lo: nat, hi: int)
    requires hi < |a|
  {
    forall p, q :: lo <= p <= q <= hi ==> Rank(rank, a[p]) <= Rank(rank, a[q])
  }

  /** The same entries, and nothing moved outside `lo..hi`. */
  ghost predicate Rearranged(a: seq<nat>, b: seq<nat>, lo: int, hi: int) {
    && |a| == |b| && multiset(a) == multiset(b)
    && forall k :: 0 <= k < |a| && !(lo <= k <= hi) ==> a[k] == b[k]
  }

  function Swapped(a: seq<nat>, i: nat, j: nat): (b: seq<nat>)
    requires i < |a| && j < |a|
    ensures |b| == |a|
  {
    a[i := a[j]][j := a[i]]
  }

  lemma {:induction false} SwapRearranges(a: seq<nat>, i: nat, j: nat)
    requires i < |a| && j < |a|
    ensures multiset(Swapped(a, i, j)) == multiset(a)
  {
    UpdateMultiset(a, i, a[j]);
    UpdateMultiset(a[i := a[j]], j, a[i]);
  }

  lemma {:induction false} UpdateMultiset(a: seq<nat>, i: nat, x: nat)
    requires i < |a|
    ensures multiset(a[i := x]) + multiset{a[i]} == multiset(a) + multiset{x}
  {
    assert a == a[..i] + [a[i]] + a[i + 1..];
    assert a[i := x] == a[..i] + [x] + a[i + 1..];
  }

  method Swap(a: array<nat>, i: nat, j: nat)
    requires i < a.Length && j < a.Length
    modifies a
    ensures a[..] == Swapped(old(a[..]), i, j) && multiset(a[..]) == multiset(old(a[..]))
  {
    SwapRearranges(a[..], i, j);
    a[i], a[j] := a[j], a[i];
    assert a[..] == Swapped(old(a[..]), i, j);
  }

  // ----------------------------------------------------------- insertion sort

  ghost function InsertionCost(n: nat): nat { if n == 0 then 0 else (n - 1) * (n - 1) }

  /** `cost` counts comparisons, here and below. */
  method InsertionSort(keys: seq<Key>, a: array<nat>, lo: nat, hi: nat, ghost rank: seq<int>, ghost low: int,
                       ghost high: int, ghost n: nat)
    returns (ghost cost: nat)
    requires n == hi - lo + 1
    requires Ranked(keys, rank) && lo <= hi < a.Length && Within(a[..], rank, lo, hi, low, high)
    modifies a
    ensures Rearranged(a[..], old(a[..]), lo, hi)
    ensures Within(a[..], rank, lo, hi, low, high) && Ordered(a[..], rank, lo, hi)
    ensures cost <= InsertionCost(n)
  {
    var i := lo + 1;
    cost := 0;
    while i <= hi
      invariant cost <= (i - 1 - lo) * (n - 1)
      invariant lo < i <= hi + 1
      invariant Rearranged(a[..], old(a[..]), lo, hi)
      invariant Within(a[..], rank, lo, hi, low, high) && Ordered(a[..], rank, lo, i - 1)
    {
      ghost var more := Insert(keys, a, lo, i, rank, low, high);
      cost, i := AddTimes(cost, i - 1 - lo, more, n - 1), i + 1;
    }
  }

  /** Ordered but for the entry at `j`, which all entries after it exceed. */
  ghost predicate Sinking(s: seq<nat>, rank: seq<int>, lo: nat, i: nat, j: nat)
    requires lo <= j <= i < |s|
  {
    && (forall p, q :: lo <= p <= q <= i && p != j && q != j ==> Rank(rank, s[p]) <= Rank(rank, s[q]))
    && (forall q :: j < q <= i ==> Rank(rank, s[j]) < Rank(rank, s[q]))
  }

  lemma SinkDone(s: seq<nat>, rank: seq<int>, lo: nat, i: nat, j: nat)
    requires lo <= j <= i < |s| && Sinking(s, rank, lo, i, j)
    requires j == lo || Rank(rank, s[j - 1]) <= Rank(rank, s[j])
    ensures Ordered(s, rank, lo, i)
  {}

  /** Exchanging two entries of the range keeps what holds of all of it. */
  lemma {:induction false} SwapInside(s: seq<nat>, t: seq<nat>, was: seq<nat>, rank: seq<int>, lo: nat, hi: nat,
                                      x: nat, y: nat, low: int, high: int)
    requires lo <= x <= hi && lo <= y <= hi < |s| && t == Swapped(s, x, y)
    requires Rearranged(s, was, lo, hi) && Within(s, rank, lo, hi, low, high)
    ensures Rearranged(t, was, lo, hi) && Within(t, rank, lo, hi, low, high)
  {
    SwapRearranges(s, x, y);
  }

  lemma {:induction false} SinkStep(s: seq<nat>, t: seq<nat>, was: seq<nat>, rank: seq<int>, lo: nat, i: nat, j: nat,
                                    low: int, high: int)
    requires lo < j <= i < |s| && Sinking(s, rank, lo, i, j) && Rank(rank, s[j - 1]) > Rank(rank, s[j])
    requires Rearranged(s, was, lo, i) && Within(s, rank, lo, i, low, high) && t == Swapped(s, j - 1, j)
    ensures Rearranged(t, was, lo, i) && Within(t, rank, lo, i, low, high) && Sinking(t, rank, lo, i, j - 1)
  {
    SwapInside(s, t, was, rank, lo, i, j - 1, j, low, high);
  }

  /** Shifting an entry up is half of an exchange: the place it came from is to
      be filled. */
  lemma {:induction false} Shifted(s: seq<nat>, t: seq<nat>, u: seq<nat>, j: nat)
    requires 0 < j < |s| && |u| == |s| && u == s[j := u[j]] && t == Swapped(s, j - 1, j)
    ensures u[j := u[j - 1]] == t[j - 1 := u[j - 1]]
  {
    assert u[j - 1] == s[j - 1];
  }

  /** Moves entry `i` down into the ordered part before it. */
  method Insert(keys: seq<Key>, a: array<nat>, lo: nat, i: nat, ghost rank: seq<int>, ghost low: int, ghost high: int)
    returns (ghost cost: nat)
    requires Ranked(keys, rank) && lo < i < a.Length && Within(a[..], rank, lo, i, low, high)
    requires Ordered(a[..], rank, lo, i - 1)
    modifies a
    ensures Rearranged(a[..], old(a[..]), lo, i)
    ensures Within(a[..], rank, lo, i, low, high) && Ordered(a[..], rank, lo, i)
    ensures cost <= i - lo
  {
    var key, j := a[i], i;
    cost := 0;
    ghost var was := a[..];
    ghost var s := was;
    while j > lo
      invariant lo <= j <= i && |s| == a.Length && s[j] == key && a[..] == s[j := a[j]] && cost == i - j
      invariant Rearranged(s, was, lo, i) && Within(s, rank, lo, i, low, high) && Sinking(s, rank, lo, i, j)
    {
      assert a[j - 1] == s[j - 1];
      cost := cost + 1;
      if Compare(keys[a[j - 1]], keys[key]) <= 0 { break; }
      ghost var t := Swapped(s, j - 1, j);
      SinkStep(s, t, was, rank, lo, i, j, low, high);
      Shifted(s, t, a[..], j);
      a[j] := a[j - 1];
      s, j := t, j - 1;
    }
    SinkDone(s, rank, lo, i, j);
    a[j] := key;
    assert a[..] == s;
  }

  // ---------------------------------------------------------------- heap sort

  /** The entry at `p` of the heap that starts at `lo` exceeds neither child. */
  ghost predicate Dominates(s: seq<nat>, rank: seq<int>, lo: nat, p: nat, end: nat)
    requires lo + end < |s|
  {
    && (2 * p + 1 <= end ==> Rank(rank, s[lo + p]) >= Rank(rank, s[lo + (2 * p + 1)]))
    && (2 * p + 2 <= end ==> Rank(rank, s[lo + p]) >= Rank(rank, s[lo + (2 * p + 2)]))
  }

  ghost predicate Heap(s: seq<nat>, rank: seq<int>, lo: nat, root: nat, end: nat)
    requires lo + end < |s|
  {
    forall p: nat :: root <= p ==> Dominates(s, rank, lo, p, end)
  }

  /** A heap but for `hole`, whose children its own parent dominates. */
  ghost predicate Sifting(s: seq<nat>, rank: seq<int>, lo: nat, root: nat, hole: nat, end: nat)
    requires lo + end < |s|
  {
    && root <= hole <= end
    && (forall p: nat :: root <= p && p != hole ==> Dominates(s, rank, lo, p, end))
    && (forall p: nat :: root <= p < hole && (2 * p + 1 == hole || 2 * p + 2 == hole) ==>
          && (2 * hole + 1 <= end ==> Rank(rank, s[lo + p]) >= Rank(rank, s[lo + (2 * hole + 1)]))
          && (2 * hole + 2 <= end ==> Rank(rank, s[lo + p]) >= Rank(rank, s[lo + (2 * hole + 2)])))
  }

  ghost predicate Larger(s: seq<nat>, rank: seq<int>, lo: nat, hole: nat, child: nat, end: nat)
    requires lo + end < |s|
  {
    && 2 * hole + 1 <= child <= 2 * hole + 2 && child <= end
    && Rank(rank, s[lo + child]) >= Rank(rank, s[lo + (2 * hole + 1)])
    && (2 * hole + 2 <= end ==> Rank(rank, s[lo + child]) >= Rank(rank, s[lo + (2 * hole + 2)]))
  }

  lemma {:induction false} SiftStep(s: seq<nat>, t: seq<nat>, was: seq<nat>, rank: seq<int>, lo: nat, root: nat,
                                    hole: nat, end: nat, child: nat, low: int, high: int)
    requires lo + end < |s| && Sifting(s, rank, lo, root, hole, end) && Larger(s, rank, lo, hole, child, end)
    requires Rank(rank, s[lo + hole]) < Rank(rank, s[lo + child]) && t == Swapped(s, lo + hole, lo + child)
    requires Rearranged(s, was, lo, lo + end) && Within(s, rank, lo, lo + end, low, high)
    ensures Rearranged(t, was, lo, lo + end) && Within(t, rank, lo, lo + end, low, high)
    ensures Sifting(t, rank, lo, root, child, end)
  {
    SwapInside(s, t, was, rank, lo, lo + end, lo + hole, lo + child, low, high);
    assert Dominates(s, rank, lo, child, end);
    forall p: nat | root <= p && p != child ensures Dominates(t, rank, lo, p, end) {
      assert p != hole ==> Dominates(s, rank, lo, p, end);
    }
  }

  /** A heap of fewer than 2^`height` entries takes two comparisons a level. */
  method SiftDown(keys: seq<Key>, a: array<nat>, lo: nat, root: nat, end: nat, ghost rank: seq<int>, ghost low: int,
                  ghost high: int, ghost height: nat)
    returns (ghost cost: nat)
    requires Ranked(keys, rank) && root <= end && lo + end < a.Length && end < TWO32 / 2
    requires Within(a[..], rank, lo, lo + end, low, high) && Heap(a[..], rank, lo, root + 1, end)
    requires end + 1 < Pow2(height)
    modifies a
    ensures Rearranged(a[..], old(a[..]), lo, lo + end)
    ensures Within(a[..], rank, lo, lo + end, low, high) && Heap(a[..], rank, lo, root, end) && cost <= 2 * height
  {
    var parent: nat := root;
    var sifting := true;
    ghost var was, level: nat := a[..], 0;
    cost := 0;
    while sifting
      invariant Scanned(a[..], was, rank, lo, lo + end, low, high)
      invariant if sifting then Sifting(a[..], rank, lo, root, parent, end) else Heap(a[..], rank, lo, root, end)
      invariant level < height && Pow2(level) <= parent + 1 && cost <= 2 * (if sifting then level else height)
      decreases sifting, end - parent
    {
      var child;
      ghost var more;
      sifting, child, more := SiftOnce(keys, a, lo, root, parent, end, rank, low, high, was);
      cost := cost + more;
      if sifting {
        level := NextLevel(level, height, parent, child, end);
        parent := child;
      }
    }
  }

  /** One level: the larger child goes up, or the heap is in order. */
  method SiftOnce(keys: seq<Key>, a: array<nat>, lo: nat, ghost root: nat, parent: nat, end: nat,
                  ghost rank: seq<int>, ghost low: int, ghost high: int, ghost was: seq<nat>)
    returns (down: bool, child: nat, ghost cost: nat)
    requires Ranked(keys, rank) && lo + end < a.Length && end < TWO32 / 2
    requires Scanned(a[..], was, rank, lo, lo + end, low, high) && Sifting(a[..], rank, lo, root, parent, end)
    modifies a
    ensures Scanned(a[..], was, rank, lo, lo + end, low, high)
    ensures if down then Sifting(a[..], rank, lo, root, child, end) && 2 * parent + 1 <= child <= end
            else Heap(a[..], rank, lo, root, end)
    ensures cost <= 2
  {
    ghost var s := a[..];
    cost, child := 0, (2 * parent + 1) % TWO32;
    if child > end {
      SiftDone(s, rank, lo, root, parent, end);
      return false, child, cost;
    }
    if child + 1 <= end {
      cost := cost + 1;
      if Compare(keys[a[lo + child]], keys[a[lo + child + 1]]) < 0 { child := child + 1; }
    }
    assert Larger(s, rank, lo, parent, child, end);
    cost := cost + 1;
    if Compare(keys[a[lo + parent]], keys[a[lo + child]]) >= 0 {
      SiftDone(s, rank, lo, root, parent, end);
      return false, child, cost;
    }
    assert Rank(rank, s[lo + parent]) < Rank(rank, s[lo + child]);
    Swap(a, lo + parent, lo + child);
    SiftStep(s, a[..], was, rank, lo, root, parent, end, child, low, high);
    return true, child, cost;
  }

  /** A child lies one level lower, still within the height. */
  ghost function NextLevel(level: nat, height: nat, parent: nat, child: nat, end: nat): (next: nat)
    requires Pow2(level) <= parent + 1 && 2 * parent + 1 <= child <= end && end + 1 < Pow2(height)
    ensures next == level + 1 < height && Pow2(next) <= child + 1
  {
    assert Pow2(level + 1) <= child + 1 < Pow2(height);
    Pow2Less(level + 1, height);
    level + 1
  }

  lemma {:induction false} Pow2Less(m: nat, n: nat)
    requires Pow2(m) < Pow2(n)
    ensures m < n
  {
    if m >= n { Pow2Monotone(n, m); }
  }

  lemma {:induction false} Pow2Monotone(m: nat, n: nat)
    requires m <= n
    ensures Pow2(m) <= Pow2(n)
  {
    if m == n {
    } else {
      Pow2Monotone(m, n - 1);
    }
  }

  lemma {:induction false} SiftDone(s: seq<nat>, rank: seq<int>, lo: nat, root: nat, hole: nat, end: nat)
    requires lo + end < |s| && Sifting(s, rank, lo, root, hole, end)
    requires 2 * hole + 1 <= end ==> Rank(rank, s[lo + hole]) >= Rank(rank, s[lo + (2 * hole + 1)])
    requires 2 * hole + 2 <= end ==> Rank(rank, s[lo + hole]) >= Rank(rank, s[lo + (2 * hole + 2)])
    ensures Heap(s, rank, lo, root, end)
  {
    assert Dominates(s, rank, lo, hole, end);
  }

  /** The first entry of a heap exceeds every other. */
  lemma {:induction false} RootIsMaximum(s: seq<nat>, rank: seq<int>, lo: nat, end: nat, p: nat)
    requires lo + end < |s| && Heap(s, rank, lo, 0, end) && p <= end
    ensures Rank(rank, s[lo + p]) <= Rank(rank, s[lo])
  {
    if p == 0 {
    } else {
      RootIsMaximum(s, rank, lo, end, (p - 1) / 2);
      assert Dominates(s, rank, lo, (p - 1) / 2, end);
    }
  }

  ghost function HeapCost(n: nat, height: nat): nat { 3 * height * n }

  method HeapSort(keys: seq<Key>, a: array<nat>, lo: nat, hi: nat, ghost rank: seq<int>, ghost low: int,
                  ghost high: int, ghost size: nat, ghost height: nat)
    returns (ghost cost: nat)
    requires Ranked(keys, rank) && lo <= hi < a.Length && hi - lo < TWO32 / 2
    requires Within(a[..], rank, lo, hi, low, high) && size == hi - lo + 1 < Pow2(height)
    modifies a
    ensures Rearranged(a[..], old(a[..]), lo, hi)
    ensures Within(a[..], rank, lo, hi, low, high) && Ordered(a[..], rank, lo, hi)
    ensures cost <= HeapCost(size, height)
  {
    cost := 0;
    if hi == lo { return; }
    cost := BuildHeap(keys, a, lo, hi, rank, low, high, size, height);
    cost := EmptyHeap(keys, a, lo, hi, rank, low, high, size, height, cost);
    ThreeHalves(cost, size / 2 + hi - lo, size, height);
  }

  method EmptyHeap(keys: seq<Key>, a: array<nat>, lo: nat, hi: nat, ghost rank: seq<int>, ghost low: int,
                   ghost high: int, ghost size: nat, ghost height: nat, ghost spent: nat)
    returns (ghost cost: nat)
    requires Ranked(keys, rank) && lo < hi < a.Length && hi - lo < TWO32 / 2
    requires Within(a[..], rank, lo, hi, low, high) && Heap(a[..], rank, lo, 0, hi - lo)
    requires size == hi - lo + 1 < Pow2(height) && Sifted(spent, size / 2, height)
    modifies a
    ensures Scanned(a[..], old(a[..]), rank, lo, hi, low, high) && Ordered(a[..], rank, lo, hi)
    ensures Sifted(cost, size / 2 + hi - lo, height)
  {
    cost := spent;
    ghost var sifts: nat := size / 2;
    var i := hi - lo;
    while i > 0
      invariant Sifted(cost, sifts, height) && sifts == size / 2 + hi - lo - i
      invariant 0 <= i <= hi - lo && Scanned(a[..], old(a[..]), rank, lo, hi, low, high)
      invariant Heap(a[..], rank, lo, 0, i) && Extracted(a[..], rank, lo, i, hi)
    {
      ghost var more := ExtractMaximum(keys, a, lo, i, hi, rank, low, high, height);
      cost, sifts := AddSift(cost, sifts, more, height), sifts + 1;
      i := i - 1;
    }
  }

  method BuildHeap(keys: seq<Key>, a: array<nat>, lo: nat, hi: nat, ghost rank: seq<int>, ghost low: int,
                   ghost high: int, ghost size: nat, ghost height: nat)
    returns (ghost cost: nat)
    requires Ranked(keys, rank) && lo < hi < a.Length && hi - lo < TWO32 / 2
    requires Within(a[..], rank, lo, hi, low, high) && size == hi - lo + 1 < Pow2(height)
    modifies a
    ensures Scanned(a[..], old(a[..]), rank, lo, hi, low, high) && Heap(a[..], rank, lo, 0, hi - lo)
    ensures Sifted(cost, size / 2, height)
  {
    var n := hi - lo + 1;
    var i := lo + n / 2;
    ghost var sifts: nat := 0;
    cost := 0;
    while i > lo
      invariant Sifted(cost, sifts, height) && sifts == lo + n / 2 - i && lo <= i <= lo + n / 2
      invariant Scanned(a[..], old(a[..]), rank, lo, hi, low, high) && Heap(a[..], rank, lo, i - lo, n - 1)
    {
      i := i - 1;
      ghost var more := SiftDown(keys, a, lo, i - lo, n - 1, rank, low, high, height);
      cost, sifts := AddSift(cost, sifts, more, height), sifts + 1;
    }
  }

  ghost predicate Sifted(cost: nat, sifts: nat, height: nat) { cost <= sifts * (2 * height) }

  ghost function AddSift(total: nat, sifts: nat, more: nat, height: nat): (r: nat)
    requires Sifted(total, sifts, height) && more <= 2 * height
    ensures r == total + more && Sifted(r, sifts + 1, height)
  {
    AddTimes(total, sifts, more, 2 * height)
  }

  /** One more of at most `each`. */
  ghost function AddTimes(total: nat, n: nat, more: nat, each: nat): (r: nat)
    requires total <= n * each && more <= each
    ensures r == total + more && r <= (n + 1) * each
  {
    assert (n + 1) * each == n * each + each;
    total + more
  }

  lemma {:induction false} ThreeHalves(cost: nat, sifts: nat, n: nat, height: nat)
    requires 2 * sifts <= 3 * n && Sifted(cost, sifts, height)
    ensures cost <= HeapCost(n, height)
  {
    assert sifts * (2 * height) == (2 * sifts) * height;
    assert 3 * height * n == (3 * n) * height;
    MulMonotone(2 * sifts, 3 * n, height);
  }

  lemma {:induction false} MulMonotone(x: nat, y: nat, z: nat)
    requires x <= y
    ensures x * z <= y * z
  {
    assert y * z == x * z + (y - x) * z;
  }

  /** Entries behind the heap are ordered and no entry of the heap exceeds them. */
  ghost predicate Extracted(s: seq<nat>, rank: seq<int>, lo: nat, i: nat, hi: nat)
    requires lo + i <= hi < |s|
  {
    && Ordered(s, rank, lo + i + 1, hi)
    && forall p, q :: lo <= p <= lo + i < q <= hi ==> Rank(rank, s[p]) <= Rank(rank, s[q])
  }

  /** Exchanges the maximum with the last entry of the heap and sifts. */
  method ExtractMaximum(keys: seq<Key>, a: array<nat>, lo: nat, i: nat, hi: nat, ghost rank: seq<int>, ghost low: int,
                        ghost high: int, ghost height: nat)
    returns (ghost cost: nat)
    requires hi - lo + 1 < Pow2(height)
    requires Ranked(keys, rank) && 0 < i && lo + i <= hi < a.Length && hi - lo < TWO32 / 2
    requires Within(a[..], rank, lo, hi, low, high) && Heap(a[..], rank, lo, 0, i) && Extracted(a[..], rank, lo, i, hi)
    modifies a
    ensures Rearranged(a[..], old(a[..]), lo, hi)
    ensures Within(a[..], rank, lo, hi, low, high) && Heap(a[..], rank, lo, 0, i - 1)
    ensures Extracted(a[..], rank, lo, i - 1, hi)
    ensures cost <= 2 * height
  {
    ghost var s, top := a[..], Rank(rank, a[lo]);
    Swap(a, lo, lo + i);
    ghost var t := a[..];
    MaximumBehind(s, t, rank, lo, i, hi, low, high);
    SwapInside(s, t, s, rank, lo, hi, lo, lo + i, low, high);
    cost := SiftDown(keys, a, lo, 0, i - 1, rank, low, top, height);
    MaximumStays(t, a[..], rank, lo, i, hi, low, high, top);
  }

  /** The exchange leaves a heap below its root, and everything in it within
      the maximum now behind it. */
  lemma {:induction false} MaximumBehind(s: seq<nat>, t: seq<nat>, rank: seq<int>, lo: nat, i: nat, hi: nat, low: int,
                                         high: int)
    requires 0 < i && lo + i <= hi < |s| && Within(s, rank, lo, hi, low, high)
    requires Heap(s, rank, lo, 0, i) && Extracted(s, rank, lo, i, hi)
    requires t == Swapped(s, lo, lo + i)
    ensures Heap(t, rank, lo, 1, i - 1) && Within(t, rank, lo, lo + (i - 1), low, Rank(rank, s[lo]))
    ensures Rank(rank, t[lo + i]) == Rank(rank, s[lo]) && Ordered(t, rank, lo + i, hi)
  {
    HeapAfterSwap(s, t, rank, lo, i);
    forall p | lo <= p <= lo + i
      ensures Rank(rank, s[p]) <= Rank(rank, s[lo])
    {
      RootIsMaximum(s, rank, lo, i, p - lo);
    }
  }

  lemma {:induction false} MaximumStays(t: seq<nat>, u: seq<nat>, rank: seq<int>, lo: nat, i: nat, hi: nat, low: int,
                                        high: int, top: int)
    requires 0 < i && lo + i <= hi < |t| && |u| == |t|
    requires Rearranged(u, t, lo, lo + (i - 1)) && Within(t, rank, lo, hi, low, high)
    requires Within(u, rank, lo, lo + (i - 1), low, top) && Rank(rank, t[lo + i]) == top && Ordered(t, rank, lo + i, hi)
    ensures Within(u, rank, lo, hi, low, high) && Extracted(u, rank, lo, i - 1, hi)
  {
    forall k | lo <= k <= hi ensures u[k] < |rank| && low <= Rank(rank, u[k]) <= high {
      if k >= lo + i { assert u[k] == t[k]; } else { assert Rank(rank, u[k]) <= top == Rank(rank, t[lo + i]); }
    }
    forall p, q | lo <= p <= lo + (i - 1) < q <= hi ensures Rank(rank, u[p]) <= Rank(rank, u[q]) {
      assert Rank(rank, u[p]) <= top && u[q] == t[q] && Rank(rank, t[lo + i]) <= Rank(rank, t[q]);
    }
  }

  lemma {:induction false} HeapAfterSwap(s: seq<nat>, t: seq<nat>, rank: seq<int>, lo: nat, i: nat)
    requires 0 < i && lo + i < |s| && Heap(s, rank, lo, 0, i)
    requires t == Swapped(s, lo, lo + i)
    ensures Heap(t, rank, lo, 1, i - 1)
  {
    forall p: nat {:trigger Dominates(t, rank, lo, p, i - 1)} | 1 <= p
      ensures Dominates(t, rank, lo, p, i - 1)
    {
      assert Dominates(s, rank, lo, p, i);
    }
  }

  // --------------------------------------------------------------- introsort

  /** Everything up to `i` within the pivot's rank. */
  ghost predicate NoneAbove(s: seq<nat>, rank: seq<int>, lo: nat, i: int, p: int)
    requires i < |s|
  {
    forall k :: lo <= k <= i ==> Rank(rank, s[k]) <= p
  }

  ghost predicate NoneBelow(s: seq<nat>, rank: seq<int>, j: int, hi: nat, p: int)
    requires 0 <= j && hi < |s|
  {
    forall k :: j <= k <= hi ==> Rank(rank, s[k]) >= p
  }

  /** Puts two entries of the range in order. */
  method OrderTwo(keys: seq<Key>, a: array<nat>, lo: nat, hi: nat, x: nat, y: nat,
                  ghost rank: seq<int>, ghost low: int, ghost high: int) returns (ghost cost: nat)
    requires Ranked(keys, rank) && lo <= x <= hi && lo <= y <= hi < a.Length && Within(a[..], rank, lo, hi, low, high)
    modifies a
    ensures Rearranged(a[..], old(a[..]), lo, hi) && Within(a[..], rank, lo, hi, low, high)
    ensures Rank(rank, a[x]) == Min(old(Rank(rank, a[x])), old(Rank(rank, a[y])))
    ensures Rank(rank, a[x]) <= Rank(rank, a[y])
    ensures forall k :: 0 <= k < a.Length && k != x && k != y ==> a[k] == old(a[k])
    ensures cost == 1
  {
    cost := 1;
    if Compare(keys[a[x]], keys[a[y]]) > 0 {
      ghost var s := a[..];
      Swap(a, x, y);
      SwapInside(s, a[..], s, rank, lo, hi, x, y, low, high);
    }
  }

  /** Median of three to the last place but one, with the least in front and
      the greatest at the end. */
  method ChoosePivot(keys: seq<Key>, a: array<nat>, lo: nat, hi: nat,
                     ghost rank: seq<int>, ghost low: int, ghost high: int) returns (ghost cost: nat)
    requires Ranked(keys, rank) && lo + 2 <= hi < a.Length && Within(a[..], rank, lo, hi, low, high)
    modifies a
    ensures Rearranged(a[..], old(a[..]), lo, hi) && Within(a[..], rank, lo, hi, low, high)
    ensures Rank(rank, a[lo]) <= Rank(rank, a[hi - 1]) <= Rank(rank, a[hi]) && cost == 3
  {
    var mid := lo + (hi - lo + 1) / 2;
    ghost var one := OrderTwo(keys, a, lo, hi, lo, mid, rank, low, high);
    ghost var two := OrderTwo(keys, a, lo, hi, lo, hi, rank, low, high);
    ghost var three := OrderTwo(keys, a, lo, hi, mid, hi, rank, low, high);
    cost := one + two + three;
    ghost var s := a[..];
    Swap(a, mid, hi - 1);
    SwapInside(s, a[..], s, rank, lo, hi, mid, hi - 1, low, high);
  }

  /** The partition loop.  The pivot itself stops the upward scan and the least
      of the three stops the downward one. */
  method Split(keys: seq<Key>, a: array<nat>, lo: nat, hi: nat, ghost rank: seq<int>, ghost low: int, ghost high: int)
    returns (i: nat, ghost cost: nat)
    requires Ranked(keys, rank) && lo + 2 <= hi < a.Length && Within(a[..], rank, lo, hi, low, high)
    requires Rank(rank, a[lo]) <= Rank(rank, a[hi - 1]) <= Rank(rank, a[hi])
    modifies a
    ensures Rearranged(a[..], old(a[..]), lo, hi) && Within(a[..], rank, lo, hi, low, high)
    ensures lo < i < hi && a[hi - 1] == old(a[hi - 1]) && cost <= 2 * (hi - lo)
    ensures NoneAbove(a[..], rank, lo, i - 1, Rank(rank, a[hi - 1]))
    ensures NoneBelow(a[..], rank, i, hi, Rank(rank, a[hi - 1]))
  {
    var pivot := a[hi - 1];
    ghost var s, p := a[..], Rank(rank, pivot);
    ghost var was := s;
    i, cost := lo, 0;
    var j := hi - 1;
    while true
      invariant a[..] == s && Scanned(s, was, rank, lo, hi, low, high)
      invariant lo <= i < j < hi && s[hi - 1] == pivot && cost == (i - lo) + (hi - 1 - j)
      invariant NoneAbove(s, rank, lo, i, p) && NoneBelow(s, rank, j, hi, p)
      decreases j - i
    {
      ghost var up, down := i, j;
      i, cost := i + 1, cost + 1;
      while Compare(keys[a[i]], keys[pivot]) < 0 && i < hi
        invariant a[..] == s && up < i <= j && NoneAbove(s, rank, lo, i - 1, p) && cost == (i - lo) + (hi - 1 - j)
        decreases hi - i
      {
        assert Rank(rank, s[i]) < p;
        i, cost := i + 1, cost + 1;
      }
      assert Rank(rank, s[i]) >= p;
      j, cost := j - 1, cost + 1;
      while Compare(keys[a[j]], keys[pivot]) > 0 && j > lo
        invariant a[..] == s && lo <= j < down && NoneBelow(s, rank, j + 1, hi, p) && cost == (i - lo) + (hi - 1 - j)
        decreases j
      {
        assert Rank(rank, s[j]) > p;
        j, cost := j - 1, cost + 1;
      }
      if i >= j {
        BetweenScans(s, rank, lo, hi, i, j, p);
        break;
      }
      assert Rank(rank, s[j]) <= p;
      Swap(a, i, j);
      ScanSwapped(s, a[..], was, rank, lo, hi, i, j, p, low, high);
      s := a[..];
    }
  }

  ghost predicate Scanned(s: seq<nat>, was: seq<nat>, rank: seq<int>, lo: nat, hi: nat, low: int, high: int)
    requires hi < |s|
  {
    Rearranged(s, was, lo, hi) && Within(s, rank, lo, hi, low, high)
  }

  /** An exchange leaves both scans where they were, one step further. */
  lemma {:induction false} ScanSwapped(s: seq<nat>, t: seq<nat>, was: seq<nat>, rank: seq<int>, lo: nat, hi: nat,
                                       i: nat, j: nat, p: int, low: int, high: int)
    requires lo < i < j < hi - 1 && hi < |s| && t == Swapped(s, i, j) && Scanned(s, was, rank, lo, hi, low, high)
    requires NoneAbove(s, rank, lo, i - 1, p) && NoneBelow(s, rank, j + 1, hi, p)
    requires Rank(rank, s[i]) >= p >= Rank(rank, s[j])
    ensures Scanned(t, was, rank, lo, hi, low, high) && t[hi - 1] == s[hi - 1]
    ensures NoneAbove(t, rank, lo, i, p) && NoneBelow(t, rank, j, hi, p)
  {
    SwapInside(s, t, was, rank, lo, hi, i, j, low, high);
  }

  /** When the scans have met, everything from the upward one on is at least the
      pivot. */
  lemma {:induction false} BetweenScans(s: seq<nat>, rank: seq<int>, lo: nat, hi: nat, i: nat, j: nat, p: int)
    requires lo <= j <= i <= hi < |s| && NoneBelow(s, rank, j + 1, hi, p) && Rank(rank, s[i]) >= p
    ensures NoneBelow(s, rank, i, hi, p)
  {}

  /** One partition step: the pivot in its place, nothing above it in front,
      nothing below it behind. */
  method Partition(keys: seq<Key>, a: array<nat>, lo: nat, hi: nat, ghost rank: seq<int>, ghost low: int,
                   ghost high: int)
    returns (i: nat, ghost cost: nat)
    requires Ranked(keys, rank) && lo + 2 <= hi < a.Length && Within(a[..], rank, lo, hi, low, high)
    modifies a
    ensures Rearranged(a[..], old(a[..]), lo, hi) && lo < i < hi && cost <= 3 * (hi - lo + 1)
    ensures Parted(a[..], rank, lo, hi, i, low, high)
  {
    ghost var choice := ChoosePivot(keys, a, lo, hi, rank, low, high);
    i, cost := Split(keys, a, lo, hi, rank, low, high);
    cost := cost + choice;
    ghost var s := a[..];
    Swap(a, i, hi - 1);
    PivotInPlace(s, a[..], rank, lo, hi, i, low, high);
  }

  lemma {:induction false} PivotInPlace(s: seq<nat>, t: seq<nat>, rank: seq<int>, lo: nat, hi: nat, i: nat, low: int,
                                        high: int)
    requires lo < i < hi < |s| && t == Swapped(s, i, hi - 1) && Within(s, rank, lo, hi, low, high)
    requires NoneAbove(s, rank, lo, i - 1, Rank(rank, s[hi - 1]))
    requires NoneBelow(s, rank, i, hi, Rank(rank, s[hi - 1]))
    ensures Rearranged(t, s, lo, hi) && Parted(t, rank, lo, hi, i, low, high)
  {
    SwapInside(s, t, s, rank, lo, hi, i, hi - 1, low, high);
  }

  ghost predicate Parted(s: seq<nat>, rank: seq<int>, lo: nat, hi: nat, i: nat, low: int, high: int)
    requires lo < i < hi < |s|
  {
    && Within(s, rank, i, i, low, high)
    && Within(s, rank, lo, i - 1, low, Rank(rank, s[i])) && Within(s, rank, i + 1, hi, Rank(rank, s[i]), high)
  }

  /** What is left to sort lies between the ordered parts around it. */
  ghost predicate Pending(s: seq<nat>, rank: seq<int>, lo: nat, hi: nat, l: nat, h: nat, low: int, high: int)
    requires lo <= l <= h <= hi < |s|
  {
    && Within(s, rank, l, h, low, high)
    && Ordered(s, rank, lo, l - 1) && NoneAbove(s, rank, lo, l - 1, low)
    && Ordered(s, rank, h + 1, hi) && NoneBelow(s, rank, h + 1, hi, high)
  }

  lemma {:induction false} Finished(s: seq<nat>, t: seq<nat>, rank: seq<int>, lo: nat, hi: nat, l: nat, h: nat,
                                    low: int, high: int)
    requires lo <= l <= h <= hi < |s| && Pending(s, rank, lo, hi, l, h, low, high)
    requires Rearranged(t, s, l, h) && Within(t, rank, l, h, low, high) && Ordered(t, rank, l, h)
    ensures Ordered(t, rank, lo, hi)
  {
    assert low <= Rank(rank, t[l]) <= high;
    forall p, q | lo <= p <= q <= hi ensures Rank(rank, t[p]) <= Rank(rank, t[q]) {
      if p < l { assert t[p] == s[p]; }
      if q > h { assert t[q] == s[q]; }
      if q < l { assert t[q] == s[q]; }
      if p > h { assert t[p] == s[p]; }
    }
  }

  lemma {:induction false} StillWithin(was: seq<nat>, s: seq<nat>, u: seq<nat>, rank: seq<int>, lo: nat, hi: nat,
                                       l: nat, h: nat, from: int, to: int, low: int, high: int)
    requires lo <= l <= h <= hi < |s| && low <= from && to <= high
    requires Rearranged(s, was, lo, hi) && Rearranged(u, s, l, h)
    requires Within(s, rank, lo, hi, low, high) && Within(u, rank, l, h, from, to)
    ensures Rearranged(u, was, lo, hi) && Within(u, rank, lo, hi, low, high)
  {
    forall k | lo <= k <= hi ensures u[k] < |rank| && low <= Rank(rank, u[k]) <= high {
      if k < l || k > h { assert u[k] == s[k]; }
    }
  }

  lemma TwiceThePart(levels: nat, m: nat, n: nat)
    requires Pow2(levels) <= m && 2 * m <= n
    ensures Pow2(levels + 1) <= n
  {}

  /** With the part in front of the pivot sorted, the rest is pending. */
  lemma {:induction false} FrontSorted(s: seq<nat>, t: seq<nat>, u: seq<nat>, rank: seq<int>, lo: nat, hi: nat,
                                       l: nat, h: nat, i: nat, low: int, high: int)
    requires lo <= l < i < h <= hi < |s| && Pending(s, rank, lo, hi, l, h, low, high)
    requires Rearranged(t, s, l, h) && Parted(t, rank, l, h, i, low, high)
    requires Rearranged(u, t, l, i - 1) && Within(u, rank, l, i - 1, low, Rank(rank, t[i]))
    requires Ordered(u, rank, l, i - 1)
    ensures Pending(u, rank, lo, hi, i + 1, h, Rank(rank, t[i]), high) && Rearranged(u, s, l, h)
    ensures Within(u, rank, l, h, low, high)
  {
    var p := Rank(rank, t[i]);
    forall k | lo <= k <= i ensures Rank(rank, u[k]) <= p { if k < l { assert u[k] == s[k]; } }
    forall x, y | lo <= x <= y <= i ensures Rank(rank, u[x]) <= Rank(rank, u[y]) {
      if x < l { assert u[x] == s[x]; }
      if y < l { assert u[y] == s[y]; }
    }
    forall k | h + 1 <= k <= hi ensures u[k] == s[k] {}
  }

  lemma {:induction false} BackSorted(s: seq<nat>, t: seq<nat>, u: seq<nat>, rank: seq<int>, lo: nat, hi: nat, l: nat,
                                      h: nat, i: nat, low: int, high: int)
    requires lo <= l < i < h <= hi < |s| && Pending(s, rank, lo, hi, l, h, low, high)
    requires Rearranged(t, s, l, h) && Parted(t, rank, l, h, i, low, high)
    requires Rearranged(u, t, i + 1, h) && Within(u, rank, i + 1, h, Rank(rank, t[i]), high)
    requires Ordered(u, rank, i + 1, h)
    ensures Pending(u, rank, lo, hi, l, i - 1, low, Rank(rank, t[i])) && Rearranged(u, s, l, h)
    ensures Within(u, rank, l, h, low, high)
  {
    var p := Rank(rank, t[i]);
    forall k | i <= k <= hi ensures Rank(rank, u[k]) >= p { if k > h { assert u[k] == s[k]; } }
    forall x, y | i <= x <= y <= hi ensures Rank(rank, u[x]) <= Rank(rank, u[y]) {
      if x > h { assert u[x] == s[x]; }
      if y > h { assert u[y] == s[y]; }
    }
    forall k | lo <= k <= l - 1 ensures u[k] == s[k] {}
  }

  /** Comparisons that suffice for `n` entries without a partition: by heap sort,
      heaps being of fewer than 2^`height` entries, or by insertion sort. */
  ghost function Leaf(n: nat, height: nat): nat { if n == 0 then 0 else Leaf(n - 1, height) + 3 * height + THRESHOLD }

  /** And with `depth` partitions left. */
  ghost function Budget(n: nat, depth: nat, height: nat): nat {
    if depth == 0 then Leaf(n, height) else 3 * n + Budget(n, depth - 1, height)
  }

  ghost predicate Affords(cost: nat, n: nat, depth: nat, height: nat) { cost <= Budget(n, depth, height) }

  lemma {:induction false} LeafIs(n: nat, height: nat)
    ensures Leaf(n, height) == n * (3 * height + THRESHOLD)
  {
    if n == 0 {
    } else {
      LeafIs(n - 1, height);
      assert n * (3 * height + THRESHOLD) == (n - 1) * (3 * height + THRESHOLD) + 3 * height + THRESHOLD;
    }
  }

  /** So the budget is of the order of n log n, depth and height being
      logarithms. */
  lemma {:induction false} BudgetIs(n: nat, depth: nat, height: nat)
    ensures Budget(n, depth, height) == n * (3 * depth + 3 * height + THRESHOLD)
  {
    if depth == 0 {
      LeafIs(n, height);
    } else {
      BudgetIs(n, depth - 1, height);
      assert n * (3 * depth + 3 * height + THRESHOLD) == n * (3 * (depth - 1) + 3 * height + THRESHOLD) + 3 * n;
    }
  }

  /** A partition and its two parts stay within the budget of the whole. */
  lemma {:induction false} BudgetSplits(m: nat, k: nat, n: nat, depth: nat, height: nat)
    requires m + k <= n && depth > 0
    ensures 3 * n + Budget(m, depth - 1, height) + Budget(k, depth - 1, height) <= Budget(n, depth, height)
  {
    var c := 3 * (depth - 1) + 3 * height + THRESHOLD;
    BudgetIs(m, depth - 1, height);
    BudgetIs(k, depth - 1, height);
    BudgetIs(n, depth - 1, height);
    assert m * c + k * c == (m + k) * c;
    MulMonotone(m + k, n, c);
  }

  /** Both ways to end a range stay within its budget. */
  lemma {:induction false} HeapAffordable(n: nat, depth: nat, height: nat)
    ensures HeapCost(n, height) <= Budget(n, depth, height)
  {
    BudgetIs(n, depth, height);
    MulMonotone(3 * height, 3 * depth + 3 * height + THRESHOLD, n);
  }

  lemma {:induction false} InsertionAffordable(n: nat, depth: nat, height: nat)
    requires 0 < n <= THRESHOLD
    ensures InsertionCost(n) <= Budget(n, depth, height)
  {
    var c := 3 * depth + 3 * height + THRESHOLD;
    BudgetIs(n, depth, height);
    SquareBelow(n - 1, n, c);
  }

  lemma {:induction false} SquareBelow(m: nat, n: nat, c: nat)
    requires m <= n && m <= c
    ensures m * m <= n * c
  {
    MulMonotone(m, n, m);
    MulMonotone(m, c, n);
  }

  /** Sorts a range, given that its ranks lie between `low` and `high`.  The
      recursion goes no deeper than the budget, and, as only the smaller part
      is recursed into, no deeper than the logarithm of the length. */
  method IntroSort(keys: seq<Key>, a: array<nat>, lo: nat, hi: nat, depth: nat, ghost rank: seq<int>, ghost low: int,
                   ghost high: int, ghost n: nat, ghost height: nat)
    returns (ghost levels: nat, ghost cost: nat)
    requires Ranked(keys, rank) && lo <= hi < a.Length && hi - lo < TWO32 / 2 && Within(a[..], rank, lo, hi, low, high)
    requires n == hi - lo + 1 < Pow2(height)
    modifies a
    ensures Rearranged(a[..], old(a[..]), lo, hi) && Within(a[..], rank, lo, hi, low, high)
    ensures Ordered(a[..], rank, lo, hi)
    ensures levels <= depth && Pow2(levels) <= n && Affords(cost, n, depth, height)
    decreases depth, 3
  {
    var l: nat, h: nat, d: nat, done := lo, hi, depth, false;
    ghost var was, from, to, left, deeper := a[..], low, high, n, 0;
    levels, cost := 0, 0;
    while l < h && !done
      invariant lo <= l <= h <= hi && d <= depth && low <= from && to <= high
      invariant Scanned(a[..], was, rank, lo, hi, low, high)
      invariant levels <= depth && Pow2(levels) <= n && left == h - l + 1 <= n
      invariant if done then Ordered(a[..], rank, lo, hi) && Affords(cost, n, depth, height)
                else Pending(a[..], rank, lo, hi, l, h, from, to) && Spent(cost, left, d, n, depth, height)
      decreases !done, h - l
    {
      done, l, h, from, to, deeper, left, cost :=
        SortStep(keys, a, lo, hi, l, h, d, rank, from, to, was, low, high, left, cost, n, depth, height);
      if deeper > levels { levels := deeper; }
      if !done { d := d - 1; }
    }
    if !done { Finished(a[..], a[..], rank, lo, hi, l, h, from, to); }
  }

  /** One turn of the loop: the range is brought to its end, or partitioned with
      its smaller part sorted. */
  method SortStep(keys: seq<Key>, a: array<nat>, ghost lo: nat, ghost hi: nat, l: nat, h: nat, d: nat,
                  ghost rank: seq<int>, ghost from: int, ghost to: int, ghost was: seq<nat>, ghost low: int,
                  ghost high: int, ghost left: nat, ghost cost: nat, ghost n: nat, ghost depth: nat, ghost height: nat)
    returns (done: bool, l': nat, h': nat, ghost from': int, ghost to': int, ghost deeper: nat, ghost left': nat,
             ghost cost': nat)
    requires Ranked(keys, rank) && lo <= l < h <= hi < a.Length && h - l < TWO32 / 2 && low <= from && to <= high
    requires Scanned(a[..], was, rank, lo, hi, low, high) && Pending(a[..], rank, lo, hi, l, h, from, to)
    requires left == h - l + 1 < Pow2(height) && Spent(cost, left, d, n, depth, height)
    modifies a
    ensures Scanned(a[..], was, rank, lo, hi, low, high)
    ensures lo <= l' <= h' <= hi && low <= from' && to' <= high && left' == h' - l' + 1 <= left
    ensures deeper <= d && Pow2(deeper) <= left
    ensures if done then Ordered(a[..], rank, lo, hi) && Affords(cost', n, depth, height)
            else && d > 0 && h' - l' < h - l && Pending(a[..], rank, lo, hi, l', h', from', to')
                 && Spent(cost', left', d - 1, n, depth, height)
    decreases d, 2
  {
    ghost var s := a[..];
    if h - l + 1 <= THRESHOLD || d == 0 {
      ghost var more := SortLeaf(keys, a, lo, hi, l, h, d, rank, from, to, left, height);
      StillWithin(was, s, a[..], rank, lo, hi, l, h, from, to, low, high);
      return true, l, h, from, to, 0, left, LeafSpent(cost, more, left, d, n, depth, height);
    }
    done := false;
    ghost var part, scan, more;
    l', h', from', to', deeper, part, scan, more :=
      PartitionAndRecurse(keys, a, lo, hi, l, h, d, rank, from, to, height);
    StillWithin(was, s, a[..], rank, lo, hi, l, h, from, to, low, high);
    left' := h' - l' + 1;
    cost' := PartSpent(cost, scan, more, part, left', left, d, n, depth, height);
  }

  /** What is spent and what is still to be sorted stay within the budget. */
  ghost predicate Spent(cost: nat, left: nat, d: nat, n: nat, depth: nat, height: nat) {
    cost + Budget(left, d, height) <= Budget(n, depth, height)
  }

  ghost function LeafSpent(cost: nat, more: nat, left: nat, d: nat, n: nat, depth: nat, height: nat): (total: nat)
    requires Spent(cost, left, d, n, depth, height) && Affords(more, left, d, height)
    ensures Affords(total, n, depth, height) && total == cost + more
  {
    cost + more
  }

  ghost function PartSpent(cost: nat, scan: nat, more: nat, part: nat, rest: nat, left: nat, d: nat, n: nat,
                           depth: nat, height: nat): (total: nat)
    requires Spent(cost, left, d, n, depth, height) && d > 0 && part + rest <= left
    requires scan <= 3 * left && Affords(more, part, d - 1, height)
    ensures Spent(total, rest, d - 1, n, depth, height) && total == cost + scan + more
  {
    BudgetSplits(part, rest, left, d, height);
    cost + scan + more
  }

  /** The end of a range: insertion sort if it is short, heap sort if there have
      been too many partitions. */
  method SortLeaf(keys: seq<Key>, a: array<nat>, ghost lo: nat, ghost hi: nat, l: nat, h: nat, d: nat,
                  ghost rank: seq<int>, ghost from: int, ghost to: int, ghost left: nat, ghost height: nat)
    returns (ghost more: nat)
    requires Ranked(keys, rank) && lo <= l < h <= hi < a.Length && h - l < TWO32 / 2
    requires Pending(a[..], rank, lo, hi, l, h, from, to)
    requires left == h - l + 1 < Pow2(height) && (left <= THRESHOLD || d == 0)
    modifies a
    ensures Rearranged(a[..], old(a[..]), l, h) && Within(a[..], rank, l, h, from, to) && Ordered(a[..], rank, lo, hi)
    ensures Affords(more, left, d, height)
  {
    ghost var s := a[..];
    HeapAffordable(left, d, height);
    if h - l + 1 <= THRESHOLD {
      InsertionAffordable(left, d, height);
      more := InsertionSort(keys, a, l, h, rank, from, to, left);
    } else {
      more := HeapSort(keys, a, l, h, rank, from, to, left, height);
    }
    Finished(s, a[..], rank, lo, hi, l, h, from, to);
  }

  /** Sorts the smaller part recursively and leaves the larger one. */
  method PartitionAndRecurse(keys: seq<Key>, a: array<nat>, ghost lo: nat, ghost hi: nat, l: nat, h: nat, d: nat,
                             ghost rank: seq<int>, ghost from: int, ghost to: int, ghost height: nat)
    returns (l': nat, h': nat, ghost from': int, ghost to': int, ghost deeper: nat, ghost part: nat, ghost scan: nat,
             ghost more: nat)
    requires Ranked(keys, rank) && lo <= l && l + 2 <= h <= hi < a.Length && h - l < TWO32 / 2 && d > 0
    requires Pending(a[..], rank, lo, hi, l, h, from, to) && h - l + 1 < Pow2(height)
    modifies a
    ensures Rearranged(a[..], old(a[..]), l, h) && Within(a[..], rank, l, h, from, to)
    ensures l <= l' <= h' <= h && h' - l' < h - l && from <= from' && to' <= to
    ensures Pending(a[..], rank, lo, hi, l', h', from', to')
    ensures 1 <= deeper <= d && Pow2(deeper) <= h - l + 1
    ensures part + (h' - l' + 1) == h - l && scan <= 3 * (h - l + 1) && Affords(more, part, d - 1, height)
    decreases d, 1
  {
    ghost var s := a[..];
    var i;
    i, scan := Partition(keys, a, l, h, rank, from, to);
    ghost var p := Rank(rank, a[i]);
    if i - l < h - i {
      l', h', from', to', part := i + 1, h, p, to, i - l;
      deeper, more := SortFront(keys, a, lo, hi, l, h, i, d, rank, from, to, s, part, height);
    } else {
      l', h', from', to', part := l, i - 1, from, p, h - i;
      deeper, more := SortBack(keys, a, lo, hi, l, h, i, d, rank, from, to, s, part, height);
    }
  }

  method SortFront(keys: seq<Key>, a: array<nat>, ghost lo: nat, ghost hi: nat, l: nat, h: nat, i: nat, d: nat,
                   ghost rank: seq<int>, ghost from: int, ghost to: int, ghost s: seq<nat>, ghost part: nat,
                   ghost height: nat)
    returns (ghost deeper: nat, ghost more: nat)
    requires Ranked(keys, rank) && lo <= l < i < h <= hi < a.Length == |s| && h - l < TWO32 / 2 && d > 0
    requires Pending(s, rank, lo, hi, l, h, from, to) && Rearranged(a[..], s, l, h)
    requires Parted(a[..], rank, l, h, i, from, to)
    requires part == i - l < h - i && h - l + 1 < Pow2(height)
    modifies a
    ensures Rearranged(a[..], s, l, h) && Within(a[..], rank, l, h, from, to)
    ensures Pending(a[..], rank, lo, hi, i + 1, h, old(Rank(rank, a[i])), to)
    ensures 1 <= deeper <= d && Pow2(deeper) <= h - l + 1 && Affords(more, part, d - 1, height)
    decreases d, 0
  {
    ghost var t := a[..];
    deeper, more := IntroSort(keys, a, l, i - 1, d - 1, rank, from, Rank(rank, a[i]), part, height);
    FrontSorted(s, t, a[..], rank, lo, hi, l, h, i, from, to);
    TwiceThePart(deeper, part, h - l + 1);
    deeper := deeper + 1;
  }

  method SortBack(keys: seq<Key>, a: array<nat>, ghost lo: nat, ghost hi: nat, l: nat, h: nat, i: nat, d: nat,
                  ghost rank: seq<int>, ghost from: int, ghost to: int, ghost s: seq<nat>, ghost part: nat,
                  ghost height: nat)
    returns (ghost deeper: nat, ghost more: nat)
    requires Ranked(keys, rank) && lo <= l < i < h <= hi < a.Length == |s| && h - l < TWO32 / 2 && d > 0
    requires Pending(s, rank, lo, hi, l, h, from, to) && Rearranged(a[..], s, l, h)
    requires Parted(a[..], rank, l, h, i, from, to)
    requires part == h - i <= i - l && h - l + 1 < Pow2(height)
    modifies a
    ensures Rearranged(a[..], s, l, h) && Within(a[..], rank, l, h, from, to)
    ensures Pending(a[..], rank, lo, hi, l, i - 1, from, old(Rank(rank, a[i])))
    ensures 1 <= deeper <= d && Pow2(deeper) <= h - l + 1 && Affords(more, part, d - 1, height)
    decreases d, 0
  {
    ghost var t := a[..];
    deeper, more := IntroSort(keys, a, i + 1, h, d - 1, rank, Rank(rank, a[i]), to, part, height);
    BackSorted(s, t, a[..], rank, lo, hi, l, h, i, from, to);
    TwiceThePart(deeper, part, h - l + 1);
    deeper := deeper + 1;
  }
}
