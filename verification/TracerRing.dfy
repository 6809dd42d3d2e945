/** The tracer's ring: a queue that drops its oldest entries when full, over
    indices that wrap at 32 bits. */
module TracerRing {
  import opened Bytes
  import opened Bits

  const DEFAULT_SIZE: nat := 4096

  // ---------------------------------------------------------------- capacity

  lemma {:induction false} SmallPower(k: nat)
    ensures Pow2(31) == TWO32 / 2
    ensures Pow2(k) < TWO32 ==> k <= 31 && Pow2(k) <= TWO32 / 2
  {
    Word();
    assert Pow2(32) == 2 * Pow2(31);
    if k > 31 { PowGrows(31, k); }
    if k < 31 { PowGrows(k, 31); }
  }

  /** Rounding up to a power of two, by smearing the top bit downwards. */
  method RoundUp(size: U32) returns (cap: U32, ghost k: nat)
    requires size > 0
    ensures size <= TWO32 / 2 ==> k <= 31 && cap == Pow2(k) && cap >= size && (size > 1 ==> cap / 2 < size)
    ensures size > TWO32 / 2 ==> cap == 0
    ensures And(size, size - 1) == 0 ==> cap == size
  {
    cap := size;
    Word();
    if And(cap, cap - 1) == 0 {
      k := PowerWitness(size);
      SmallPower(k);
      return;
    }
    ghost var w := TopBit(size - 1);
    SmallWidth(size - 1, w);
    cap := SmearDown(cap - 1, w);
    cap, k := (cap + 1) % TWO32, w;
  }

  lemma {:induction false} SmallWidth(x: U32, w: nat)
    requires w >= 1 && Pow2(w - 1) <= x < Pow2(w)
    ensures w <= 32 && Pow2(w) <= TWO32 && (x < TWO32 / 2 ==> w <= 31 && Pow2(w) < TWO32)
    ensures x >= TWO32 / 2 ==> Pow2(w) == TWO32
    ensures Pow2(w) / 2 <= x
  {
    Word();
    SmallPower(31);
    if w > 32 { PowGrows(32, w); }
    if w < 32 { PowGrows(w, 32); }
    assert Pow2(w) == 2 * Pow2(w - 1);
    SmallPower(w - 1);
  }

  /** Sets every bit below the top one. */
  method SmearDown(x: U32, ghost w: nat) returns (c: U32)
    requires 1 <= w <= 32 && x < Pow2(w) && Bit(x, w - 1)
    ensures c == Pow2(w) - 1
  {
    Word();
    if w < 32 { PowGrows(w, 32); }
    c := x;
    SmearStep(c, w, 1);
    c := Or(c, Shift(c, 1));
    SmearStep(c, w, 2);
    c := Or(c, Shift(c, 2));
    SmearStep(c, w, 4);
    c := Or(c, Shift(c, 4));
    SmearStep(c, w, 8);
    c := Or(c, Shift(c, 8));
    SmearStep(c, w, 16);
    c := Or(c, Shift(c, 16));
    AllOnes(c, w);
  }

  // ------------------------------------------------------- wrapped positions

  /** A 32-bit index shows the count `n` after so many laps. */
  ghost predicate Shows(index: U32, laps: int, n: nat) { index + TWO32 * laps == n }

  lemma ShowsIsMod(index: U32, laps: int, n: nat)
    requires Shows(index, laps, n)
    ensures index == n % TWO32
  {}

  lemma Forward(index: U32, laps: int, n: nat, m: nat)
    requires Shows(index, laps, n) && m <= TWO32
    ensures Shows((index + m) % TWO32, if index + m < TWO32 then laps else laps + 1, n + m)
  {}

  lemma Backward(index: U32, laps: int, n: nat, m: nat)
    requires Shows(index, laps, n) && m <= n && m <= TWO32
    ensures Shows((index - m) % TWO32, if index >= m then laps else laps - 1, n - m)
  {}

  /** Wrapped indices less than a lap apart tell their distance. */
  lemma LapDistance(head: U32, headLaps: int, n: nat, tail: U32, tailLaps: int, gone: nat)
    requires Shows(head, headLaps, n) && Shows(tail, tailLaps, gone) && gone <= n < gone + TWO32
    ensures (head - tail) % TWO32 == n - gone
  {}

  /** The slot of a position among `cap`. */
  function Place(n: nat, cap: nat): (p: nat)
    requires cap >= 1
    ensures p < cap
  {
    if n < cap then n else Place(n - cap, cap)
  }

  lemma {:induction false} PlaceIsMod(n: nat, cap: nat)
    requires cap >= 1
    ensures Place(n, cap) == n % cap
  {
    if n < cap {
      DivModUnique(n, cap, 0, n);
    } else {
      PlaceIsMod(n - cap, cap);
      var q, r := (n - cap) / cap, (n - cap) % cap;
      Distribute(cap, q, 1);
      DivModUnique(n, cap, q + 1, r);
    }
  }

  /** The masked index is the slot of the position. */
  method Mask(index: U32, mask: nat, ghost laps: int, ghost n: nat, ghost k: nat) returns (p: nat)
    requires Shows(index, laps, n) && IsPower(mask + 1, k)
    ensures p == Place(n, mask + 1)
  {
    ShowsIsMod(index, laps, n);
    PlaceIsMod(n, mask + 1);
    AndMask(index, k);
    WrapMod(n, k);
    p := And(index, mask);
  }

  /** How much has left once at most `cap` of `n` are kept. */
  function Left(n: nat, gone: nat, cap: nat): (l: nat)
    requires gone <= n
    ensures gone <= l <= n <= l + cap
  {
    if n > gone + cap then n - cap else gone
  }

  /** Positions less than a capacity apart use different slots. */
  lemma {:induction false} Apart(i: nat, j: nat, cap: nat)
    requires cap >= 1 && i < j < i + cap
    ensures Place(i, cap) != Place(j, cap)
  {
    if i < cap {
    } else {
      Apart(i - cap, j - cap, cap);
    }
  }

  // --------------------------------------------------------------------- ring

  /** What a queue of `cap` places holds after one more entry. */
  function Kept<T>(entries: seq<T>, cap: nat): seq<T> {
    if |entries| > cap then entries[|entries| - cap..] else entries
  }

  ghost predicate IsPower(n: nat, k: nat) { k <= 31 && n == Pow2(k) }

  /** The slots hold the entries from `gone` on, each at its place. */
  ghost predicate Stored<T>(slots: seq<T>, pushed: seq<T>, gone: nat)
    requires |slots| > 0
  {
    forall j :: gone <= j < |pushed| ==> slots[Place(j, |slots|)] == pushed[j]
  }

  lemma {:induction false} StoredNext<T>(slots: seq<T>, after: seq<T>, pushed: seq<T>, gone: nat, left: nat, ev: T)
    requires |slots| > 0 && gone <= |pushed| <= gone + |slots| && Stored(slots, pushed, gone)
    requires after == slots[Place(|pushed|, |slots|) := ev] && left >= gone && left + |slots| > |pushed|
    ensures Stored(after, pushed + [ev], left)
  {
    forall j | left <= j < |pushed| + 1 ensures after[Place(j, |slots|)] == (pushed + [ev])[j] {
      if j < |pushed| { Apart(j, |pushed|, |slots|); }
    }
  }

  lemma KeptNext<T>(pushed: seq<T>, gone: nat, left: nat, cap: nat, ev: T)
    requires cap >= 1 && gone <= |pushed| <= gone + cap
    requires left == Left(|pushed| + 1, gone, cap)
    ensures (pushed + [ev])[left..] == Kept(pushed[gone..] + [ev], cap)
  {}

  class Ring<T(0)> {
    const slots: array<T>
    const mask: nat
    var head: U32
    var tail: U32
    /** Everything ever pushed, how much of it has left, how often the indices
        wrapped, and the capacity's exponent. */
    ghost var pushed: seq<T>
    ghost var gone: nat
    ghost var headLaps: int
    ghost var tailLaps: int
    ghost const k: nat

    ghost predicate Valid()
      reads this, slots
    {
      && 2 <= slots.Length <= TWO32 / 2 && IsPower(slots.Length, k) && mask == slots.Length - 1
      && gone <= |pushed| <= gone + slots.Length
      && Shows(head, headLaps, |pushed|) && Shows(tail, tailLaps, gone)
      && Stored(slots[..], pushed, gone)
    }

    /** The entries in the ring, oldest first. */
    ghost function Contents(): seq<T>
      reads this
      requires gone <= |pushed|
    {
      pushed[gone..]
    }

    constructor (capacity: nat, ghost k: nat)
      requires 2 <= capacity <= TWO32 / 2 && IsPower(capacity, k)
      ensures Valid() && Contents() == [] && slots.Length == capacity && fresh(slots) && this.k == k
    {
      slots, mask, head, tail := new T[capacity], capacity - 1, 0, 0;
      pushed, gone, headLaps, tailLaps, this.k := [], 0, 0, 0, k;
    }

    /** The new entry goes last; if there is no place the oldest goes. */
    method Push(ev: T)
      requires Valid()
      modifies this, slots
      ensures Valid() && Contents() == Kept(old(Contents()) + [ev], slots.Length)
    {
      var h := head;
      var at := Mask(h, mask, headLaps, |pushed|, k);
      ghost var was, left := slots[..], Left(|pushed| + 1, gone, slots.Length);
      slots[at] := ev;
      StoredNext(was, slots[..], pushed, gone, left, ev);
      KeptNext(pushed, gone, left, slots.Length, ev);
      Advance(h);
      pushed, gone := pushed + [ev], left;
    }

    /** Moves the head on, and the tail with it if the ring was full. */
    method Advance(h: U32)
      requires 2 <= slots.Length <= TWO32 / 2 && mask == slots.Length - 1 && h == head
      requires gone <= |pushed| <= gone + slots.Length
      requires Shows(head, headLaps, |pushed|) && Shows(tail, tailLaps, gone)
      modifies this`head, this`tail, this`headLaps, this`tailLaps
      ensures Shows(head, headLaps, |pushed| + 1) && Shows(tail, tailLaps, Left(|pushed| + 1, gone, slots.Length))
    {
      ghost var n := |pushed|;
      Forward(h, headLaps, n, 1);
      head, headLaps := (h + 1) % TWO32, if h + 1 < TWO32 then headLaps else headLaps + 1;
      FollowHead(n + 1);
    }

    /** The tail keeps within the capacity of the head, which shows `n`. */
    method FollowHead(ghost n: nat)
      requires 2 <= slots.Length <= TWO32 / 2 && mask == slots.Length - 1 && gone <= n <= gone + slots.Length + 1
      requires Shows(head, headLaps, n) && Shows(tail, tailLaps, gone)
      modifies this`tail, this`tailLaps
      ensures Shows(tail, tailLaps, Left(n, gone, slots.Length))
    {
      LapDistance(head, headLaps, n, tail, tailLaps, gone);
      if (head - tail) % TWO32 > mask + 1 {
        Backward(head, headLaps, n, mask + 1);
        tail, tailLaps := (head - (mask + 1)) % TWO32, if head >= mask + 1 then headLaps else headLaps - 1;
      }
    }

    method Pop(maxCount: nat) returns (out: seq<T>)
      requires Valid()
      modifies this
      ensures Valid() && out == old(Contents())[..Min(maxCount, |old(Contents())|)]
      ensures Contents() == old(Contents())[|out|..]
    {
      var avail := (head - tail) % TWO32;
      assert avail == |pushed| - gone by { LapDistance(head, headLaps, |pushed|, tail, tailLaps, gone); }
      if avail == 0 || maxCount == 0 { return []; }
      var count := if avail < maxCount then avail else maxCount;
      out := Copy(count);
      Forward(tail, tailLaps, gone, count);
      tailLaps := if tail + count < TWO32 then tailLaps else tailLaps + 1;
      tail, gone := (tail + count) % TWO32, gone + count;
    }

    method Copy(count: nat) returns (out: seq<T>)
      requires Valid() && gone + count <= |pushed|
      ensures out == pushed[gone..gone + count]
    {
      out := [];
      var i := 0;
      while i < count
        invariant i <= count && out == pushed[gone..gone + i]
      {
        Forward(tail, tailLaps, gone, i);
        ghost var laps := if tail + i < TWO32 then tailLaps else tailLaps + 1;
        var at := Mask((tail + i) % TWO32, mask, laps, gone + i, k);
        out := out + [slots[at]];
        i := i + 1;
      }
    }
  }

  lemma {:induction false} PowerOf4096()
    ensures And(DEFAULT_SIZE, DEFAULT_SIZE - 1) == 0
  {
    assert Pow2(6) == 64 && Pow2(12) == DEFAULT_SIZE;
    PowerPasses(12);
  }

  /** A tracer's ring: none for a size of one or beyond half the index range,
      else one of the least power of two that holds as many as asked for.
      `granted` allocations succeed; the tracer, its slots and its list of
      threads take one each. */
  method Create<T(0)>(pid: int, ringSize: U32, granted: nat) returns (r: Option<Ring<T>>)
    ensures r.Some? <==> pid > 0 && granted >= 3 && (ringSize == 0 || 2 <= ringSize <= TWO32 / 2)
    ensures r.Some? ==> fresh(r.value) && fresh(r.value.slots) && r.value.Valid() && r.value.Contents() == []
    ensures r.Some? && ringSize > 0 ==> r.value.slots.Length >= ringSize && r.value.slots.Length / 2 < ringSize
    ensures r.Some? && ringSize == 0 ==> r.value.slots.Length == DEFAULT_SIZE
  {
    if pid <= 0 || granted < 1 { return None; }
    var size := if ringSize == 0 then DEFAULT_SIZE else ringSize;
    var cap: U32;
    ghost var k: nat;
    cap, k := RoundUp(size);
    SmallPower(k);
    PowerOf4096();
    PowerPasses(k);
    if cap < 2 || And(cap, cap - 1) != 0 || granted < 2 { return None; }
    var ring := new Ring<T>(cap, k);
    if granted < 3 { return None; }
    return Some(ring);
  }
}
