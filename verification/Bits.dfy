/** Bitwise and, or and shifts of naturals, for ring capacities and masks. */
module Bits {
  import opened Bytes

  function And(a: nat, b: nat): nat {
    if a == 0 || b == 0 then 0 else 2 * And(a / 2, b / 2) + if a % 2 == 1 && b % 2 == 1 then 1 else 0
  }

  function Or(a: nat, b: nat): nat
    decreases a + b
  {
    if a == 0 && b == 0 then 0 else 2 * Or(a / 2, b / 2) + if a % 2 == 1 || b % 2 == 1 then 1 else 0
  }

  function Shift(a: nat, t: nat): nat
    decreases t
  {
    if t == 0 then a else Shift(a / 2, t - 1)
  }

  predicate Bit(a: nat, i: nat)
    decreases i
  {
    if i == 0 then a % 2 == 1 else Bit(a / 2, i - 1)
  }

  // -------------------------------------------------------------------- masks

  lemma {:induction false} AndMask(a: nat, k: nat)
    ensures And(a, Pow2(k) - 1) == a % Pow2(k)
    decreases k
  {
    if k > 0 {
      var p := Pow2(k - 1);
      AndMask(a / 2, k - 1);
      assert (2 * p - 1) / 2 == p - 1;
      HalfMod(a, p);
      if a == 0 { assert a % Pow2(k) == 0; }
      if p == 1 { assert And(a / 2, 0) == 0; }
    } else {
      assert a % 1 == 0;
    }
  }

  lemma {:induction false} HalfMod(a: nat, p: nat)
    requires p >= 1
    ensures a % (2 * p) == 2 * (a / 2 % p) + a % 2
  {
    var h := a / 2;
    var q, r := h / p, h % p;
    assert h == p * q + r;
    assert a == 2 * h + a % 2 == (2 * p) * q + (2 * r + a % 2);
    DivModUnique(a, 2 * p, q, 2 * r + a % 2);
  }

  lemma {:induction false} DivModUnique(x: nat, d: nat, q: nat, r: nat)
    requires d >= 1 && x == d * q + r && r < d
    ensures x / d == q && x % d == r
  {
    var e := x / d - q;
    assert x == d * (x / d) + x % d;
    assert d * e == r - x % d by { assert d * (x / d) - d * q == d * (x / d - q); }
    assert e >= 1 ==> d * e >= d;
    assert e <= -1 ==> d * e + d <= 0;
  }

  lemma Distribute(m: nat, a: nat, b: nat)
    ensures m * (a + b) == m * a + m * b
  {}

  lemma Regroup(m: nat, q: nat, t: nat)
    ensures m * (q * t) == (m * q) * t
  {}

  lemma {:induction false} ModOfMod(x: nat, d: nat, m: nat, q: nat)
    requires m >= 1 && d >= 1 && d == m * q
    ensures (x % d) % m == x % m
  {
    var t, r := x / d, x % d;
    var s, e := r / m, r % m;
    assert x == d * t + r && r == m * s + e;
    Regroup(m, q, t);
    Distribute(m, q * t, s);
    DivModUnique(x, m, q * t + s, e);
  }

  lemma {:induction false} Word()
    ensures Pow2(32) == TWO32
  {
    assert Pow2(8) == 0x100 && Pow2(16) == 0x1_0000 && Pow2(24) == 0x100_0000;
  }

  lemma {:induction false} PowGrows(a: nat, b: nat)
    requires a < b
    ensures 2 * Pow2(a) <= Pow2(b)
    decreases b
  {
    if a + 1 == b {
    } else {
      PowGrows(a, b - 1);
    }
  }

  /** A value wrapped to 32 bits has the same remainder by a power of two. */
  lemma {:induction false} WrapMod(x: nat, k: nat)
    requires k <= 32
    ensures (x % TWO32) % Pow2(k) == x % Pow2(k)
  {
    Word();
    PowDivides(k, 32);
    ModOfMod(x, TWO32, Pow2(k), Pow2(32 - k));
  }

  lemma {:induction false} PowDivides(k: nat, n: nat)
    requires k <= n
    ensures Pow2(k) * Pow2(n - k) == Pow2(n)
    decreases n - k
  {
    if k == n {
    } else {
      PowDivides(k, n - 1);
    }
  }

  // ---------------------------------------------------------- powers of two

  lemma {:induction false} SelfAnd(m: nat)
    ensures And(m, m) == m
  {
    if m == 0 {
    } else {
      SelfAnd(m / 2);
    }
  }

  /** What passes the test for a power of two is one. */
  lemma {:induction false} PowerWitness(c: nat) returns (k: nat)
    requires c > 0 && And(c, c - 1) == 0
    ensures c == Pow2(k)
  {
    if c % 2 == 1 {
      SelfAnd(c / 2);
      k := 0;
    } else {
      assert (c - 1) / 2 == c / 2 - 1;
      k := PowerWitness(c / 2);
      k := k + 1;
    }
  }

  /** Every power of two passes it. */
  lemma {:induction false} PowerPasses(k: nat)
    ensures And(Pow2(k), Pow2(k) - 1) == 0
  {
    var p := Pow2(k);
    AndMask(p, k);
    DivModUnique(p, p, 1, 0);
  }

  lemma {:induction false} OrBit(a: nat, b: nat, i: nat)
    ensures Bit(Or(a, b), i) <==> Bit(a, i) || Bit(b, i)
    decreases i
  {
    OrHalf(a, b);
    if i == 0 {
    } else {
      OrBit(a / 2, b / 2, i - 1);
      assert Bit(Or(a, b), i) == Bit(Or(a, b) / 2, i - 1);
    }
  }

  lemma {:induction false} OrHalf(a: nat, b: nat)
    ensures Or(a, b) / 2 == Or(a / 2, b / 2) && (Or(a, b) % 2 == 1 <==> a % 2 == 1 || b % 2 == 1)
  {
    if a == 0 && b == 0 { assert Or(0, 0) == 0; }
  }

  lemma {:induction false} OrBound(a: nat, b: nat, w: nat)
    requires a < Pow2(w) && b < Pow2(w)
    ensures Or(a, b) < Pow2(w)
    decreases w
  {
    if w == 0 {
    } else {
      OrBound(a / 2, b / 2, w - 1);
    }
  }

  lemma {:induction false} ShiftBit(a: nat, t: nat, i: nat)
    ensures Bit(Shift(a, t), i) <==> Bit(a, i + t)
    decreases t
  {
    if t == 0 {
    } else {
      ShiftBit(a / 2, t - 1, i);
    }
  }

  lemma {:induction false} ShiftBound(a: nat, t: nat)
    ensures Shift(a, t) <= a
    decreases t
  {
    if t == 0 {
    } else {
      ShiftBound(a / 2, t - 1);
    }
  }

  lemma {:induction false} AllOnes(x: nat, w: nat)
    requires x < Pow2(w) && forall i :: 0 <= i < w ==> Bit(x, i)
    ensures x == Pow2(w) - 1
    decreases w
  {
    if w == 0 {
    } else {
      assert Bit(x, 0);
      forall i | 0 <= i < w - 1 ensures Bit(x / 2, i) { assert Bit(x, i + 1); }
      AllOnes(x / 2, w - 1);
    }
  }

  /** A width with its top bit set. */
  lemma {:induction false} TopBit(x: nat) returns (w: nat)
    requires x > 0
    ensures w >= 1 && Pow2(w - 1) <= x < Pow2(w) && Bit(x, w - 1)
  {
    if x == 1 {
      w := 1;
    } else {
      w := TopBit(x / 2);
      w := w + 1;
    }
  }

  /** The bits from `w - t` up to `w` are ones. */
  ghost predicate Ones(x: nat, w: nat, t: nat) { forall i: nat :: w <= i + t && i < w ==> Bit(x, i) }

  lemma {:induction false} SmearStep(x: nat, w: nat, t: nat)
    requires x < Pow2(w) && Ones(x, w, t)
    ensures Or(x, Shift(x, t)) < Pow2(w) && Ones(Or(x, Shift(x, t)), w, 2 * t)
  {
    ShiftBound(x, t);
    OrBound(x, Shift(x, t), w);
    forall i: nat | w <= i + 2 * t && i < w ensures Bit(Or(x, Shift(x, t)), i) {
      OrBit(x, Shift(x, t), i);
      ShiftBit(x, t, i);
      if w > i + t { assert Bit(x, i + t); }
    }
  }
}
