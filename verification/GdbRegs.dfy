/** The register file of the GDB bridge: 24 core registers in a ptrace record,
    33 more laid over an FXSAVE image, and the `g` packet that lists all 57. */
module GdbRegs {
  import opened Bytes
  import opened Hex

  type U64 = x: int | 0 <= x < 0x1_0000_0000_0000_0000
  type U16 = x: int | 0 <= x < 0x1_0000

  const CORE_COUNT: nat := 24
  const ST0: nat := 24
  const FCTRL: nat := 32
  const XMM0: nat := 40
  const MXCSR: nat := 56
  const REG_MAX: nat := 57
  const FXSAVE_MIN: nat := 512
  const FPREGS_MAX: nat := 1024
  const CORE_HEX_SIZE: nat := 328
  const PACKET_HEX_SIZE: nat := 1072

  // ----------------------------------------------------------- core registers

  /** The ptrace record; its 64-bit fields as bit patterns. */
  datatype Regs = Regs(
    r15: U64, r14: U64, r13: U64, r12: U64, r11: U64, r10: U64, r9: U64, r8: U64,
    rdi: U64, rsi: U64, rbp: U64, rbx: U64, rdx: U64, rcx: U64, rax: U64,
    trapno: U32, fs: U16, gs: U16, err: U32, es: U16, ds: U16,
    rip: U64, cs: U64, rflags: U64, rsp: U64, ss: U64)

  const ZeroRegs: Regs := Regs(0, 0, 0, 0, 0, 0, 0, 0, 0, 0, 0, 0, 0, 0, 0, 0, 0, 0, 0, 0, 0, 0, 0, 0, 0, 0)

  function GetReg(r: Regs, n: nat): U64 {
    match n
    case 0 => r.rax
    case 1 => r.rbx
    case 2 => r.rcx
    case 3 => r.rdx
    case 4 => r.rsi
    case 5 => r.rdi
    case 6 => r.rbp
    case 7 => r.rsp
    case 8 => r.r8
    case 9 => r.r9
    case 10 => r.r10
    case 11 => r.r11
    case 12 => r.r12
    case 13 => r.r13
    case 14 => r.r14
    case 15 => r.r15
    case 16 => r.rip
    case 17 => r.rflags % TWO32
    case 18 => r.cs % TWO32
    case 19 => r.ss % TWO32
    case 20 => r.ds
    case 21 => r.es
    case 22 => r.fs
    case 23 => r.gs
    case _ => 0
  }

  function SetReg(r: Regs, n: nat, v: U64): Regs {
    match n
    case 0 => r.(rax := v)
    case 1 => r.(rbx := v)
    case 2 => r.(rcx := v)
    case 3 => r.(rdx := v)
    case 4 => r.(rsi := v)
    case 5 => r.(rdi := v)
    case 6 => r.(rbp := v)
    case 7 => r.(rsp := v)
    case 8 => r.(r8 := v)
    case 9 => r.(r9 := v)
    case 10 => r.(r10 := v)
    case 11 => r.(r11 := v)
    case 12 => r.(r12 := v)
    case 13 => r.(r13 := v)
    case 14 => r.(r14 := v)
    case 15 => r.(r15 := v)
    case 16 => r.(rip := v)
    case 17 => r.(rflags := r.rflags / TWO32 * TWO32 + v % TWO32)
    case 18 => r.(cs := v % TWO32)
    case 19 => r.(ss := v % TWO32)
    case 20 => r.(ds := v % 0x1_0000)
    case 21 => r.(es := v % 0x1_0000)
    case 22 => r.(fs := v % 0x1_0000)
    case 23 => r.(gs := v % 0x1_0000)
    case _ => r
  }

  /** What a core register can hold of a value. */
  function Fitted(n: nat, v: U64): U64 {
    if n <= 16 then v else if n <= 19 then v % TWO32 else v % 0x1_0000
  }

  /** A register set is read back, and nothing else reads differently. */
  lemma SetThenGet(r: Regs, i: nat, v: U64, j: nat)
    requires i < CORE_COUNT && j < CORE_COUNT
    ensures GetReg(SetReg(r, i, v), j) == if i == j then Fitted(i, v) else GetReg(r, j)
    ensures SetReg(r, i, v).trapno == r.trapno && SetReg(r, i, v).err == r.err
  {}

  /** Writing back what was read changes nothing, with selectors of 32 bits. */
  lemma SetWhatWasGot(r: Regs, i: nat)
    requires i < CORE_COUNT && r.cs < TWO32 && r.ss < TWO32
    ensures SetReg(r, i, GetReg(r, i)) == r
  {}

  // -------------------------------------------------------- FXSAVE registers

  predicate IsX87(n: int) { ST0 <= n < XMM0 }
  predicate IsSse(n: int) { XMM0 <= n <= MXCSR }

  /** Bytes of a register in a packet. */
  function RegSize(n: int): nat {
    if n < 0 then 0
    else if n <= 16 then 8
    else if n < ST0 then 4
    else if n < FCTRL then 10
    else if n < XMM0 then 4
    else if n < MXCSR then 16
    else if n == MXCSR then 4
    else 0
  }

  /** Where the image holds a register; the two segment registers are not there. */
  function Offset(n: nat): nat
    requires ST0 <= n < REG_MAX
  {
    if n < FCTRL then 32 + 16 * (n - ST0)
    else if n == 32 then 0
    else if n == 33 then 2
    else if n == 34 then 4
    else if n == 36 then 8
    else if n == 38 then 16
    else if n == 39 then 6
    else if n == MXCSR then 24
    else if n >= XMM0 then 160 + 16 * (n - XMM0)
    else 0
  }

  /** How many of a register's bytes the image holds. */
  function Held(n: nat): nat {
    if n < FCTRL then 10
    else if n == 32 || n == 33 || n == 39 then 2
    else if n == 34 then 1
    else if n == 35 || n == 37 then 0
    else if n == 36 || n == 38 || n == MXCSR then 4
    else 16
  }

  /** Registers lie within the image and apart from each other. */
  lemma Disjoint(i: nat, j: nat)
    requires ST0 <= i < REG_MAX && ST0 <= j < REG_MAX
    ensures Offset(i) + Held(i) <= FXSAVE_MIN && Held(i) <= RegSize(i)
    ensures i != j ==> Offset(i) + Held(i) <= Offset(j) || Offset(j) + Held(j) <= Offset(i)
  {}

  function FpBytes(fx: seq<Byte>, n: nat): (b: seq<Byte>)
    requires ST0 <= n < REG_MAX && |fx| >= FXSAVE_MIN
    ensures |b| == RegSize(n)
  {
    fx[Offset(n)..Offset(n) + Held(n)] + Zeros(RegSize(n) - Held(n))
  }

  function Overwritten(fx: seq<Byte>, at: nat, b: seq<Byte>): (r: seq<Byte>)
    requires at + |b| <= |fx|
    ensures |r| == |fx|
  {
    fx[..at] + b + fx[at + |b|..]
  }

  lemma {:induction false} OverwrittenNext(fx: seq<Byte>, at: nat, b: seq<Byte>, i: nat)
    requires at + |b| <= |fx| && i < |b|
    ensures Overwritten(fx, at, b[..i])[at + i := b[i]] == Overwritten(fx, at, b[..i + 1])
  {
    assert b[..i + 1] == b[..i] + [b[i]];
  }

  lemma {:induction false} AllZero(n: nat)
    requires ST0 <= n < REG_MAX
    ensures FpBytes(Zeros(FPREGS_MAX), n) == Zeros(RegSize(n))
  {
    Disjoint(n, n);
    assert Zeros(FPREGS_MAX)[Offset(n)..Offset(n) + Held(n)] == Zeros(Held(n));
  }

  function FpStore(fx: seq<Byte>, n: nat, b: seq<Byte>): (r: seq<Byte>)
    requires ST0 <= n < REG_MAX && |fx| >= FXSAVE_MIN && |b| == RegSize(n)
    ensures |r| == |fx|
  {
    Overwritten(fx, Offset(n), b[..Held(n)])
  }

  lemma {:induction false} FpStoreThenBytes(fx: seq<Byte>, i: nat, b: seq<Byte>, j: nat)
    requires ST0 <= i < REG_MAX && ST0 <= j < REG_MAX && |fx| >= FXSAVE_MIN && |b| == RegSize(i)
    ensures FpBytes(FpStore(fx, i, b), j) ==
      if i == j then b[..Held(i)] + Zeros(RegSize(i) - Held(i)) else FpBytes(fx, j)
  {
    Disjoint(i, j);
    var r := FpStore(fx, i, b);
    if i == j {
      assert r[Offset(i)..Offset(i) + Held(i)] == b[..Held(i)];
    } else {
      forall k | Offset(j) <= k < Offset(j) + Held(j) ensures r[k] == fx[k] {}
      assert r[Offset(j)..Offset(j) + Held(j)] == fx[Offset(j)..Offset(j) + Held(j)];
    }
  }

  lemma {:induction false} FpStoreWhatWasHeld(fx: seq<Byte>, i: nat)
    requires ST0 <= i < REG_MAX && |fx| >= FXSAVE_MIN
    ensures FpStore(fx, i, FpBytes(fx, i)) == fx
  {
    Disjoint(i, i);
    var at, n := Offset(i), Held(i);
    assert FpBytes(fx, i)[..n] == fx[at..at + n];
    assert fx == fx[..at] + fx[at..at + n] + fx[at + n..];
  }

  // -------------------------------------------------------------- all 57 of them

  function LeBytes(v: nat, n: nat): (b: seq<Byte>)
    ensures |b| == n
    decreases n
  {
    if n == 0 then [] else [v % 256] + LeBytes(v / 256, n - 1)
  }

  function Pow256(n: nat): (p: nat)
    ensures p >= 1
  {
    if n == 0 then 1 else 256 * Pow256(n - 1)
  }

  lemma {:induction false} LittleEndianBound(b: seq<Byte>)
    ensures LittleEndian(b) < Pow256(|b|)
  {
    if b == [] {
    } else {
      LittleEndianBound(b[1..]);
    }
  }

  lemma {:induction false} LeReads(v: nat, n: nat)
    requires v < Pow256(n)
    ensures LittleEndian(LeBytes(v, n)) == v
    decreases n
  {
    if n == 0 {
    } else {
      LeReads(v / 256, n - 1);
      assert LeBytes(v, n)[1..] == LeBytes(v / 256, n - 1);
    }
  }

  lemma {:induction false} LeWrites(b: seq<Byte>)
    ensures LeBytes(LittleEndian(b), |b|) == b
  {
    if b == [] {
    } else {
      LeWrites(b[1..]);
      assert b == [b[0]] + b[1..];
      LowByte(b[0], LittleEndian(b[1..]));
    }
  }

  lemma LowByte(low: Byte, high: nat)
    ensures (low + 256 * high) / 256 == high && (low + 256 * high) % 256 == low
  {}

  lemma Widths()
    ensures Pow256(2) == 0x1_0000 && Pow256(4) == TWO32 && Pow256(8) == TWO64
  {}

  /** Everything the packet transfers. */
  datatype Snapshot = Snapshot(regs: Regs, fx: seq<Byte>)

  function RegBytes(s: Snapshot, n: nat): (b: seq<Byte>)
    requires n < REG_MAX && |s.fx| >= FXSAVE_MIN
    ensures |b| == RegSize(n)
  {
    if n < CORE_COUNT then LeBytes(GetReg(s.regs, n), RegSize(n)) else FpBytes(s.fx, n)
  }

  function StoreReg(s: Snapshot, n: nat, b: seq<Byte>): (r: Snapshot)
    requires n < REG_MAX && |s.fx| >= FXSAVE_MIN && |b| == RegSize(n)
    ensures |r.fx| == |s.fx|
  {
    if n < CORE_COUNT then
      LittleEndianBound(b);
      Widths();
      s.(regs := SetReg(s.regs, n, LittleEndian(b)))
    else s.(fx := FpStore(s.fx, n, b))
  }

  /** The bytes a register keeps of what is written to it. */
  function Represented(n: nat, b: seq<Byte>): seq<Byte>
    requires n < REG_MAX && |b| == RegSize(n)
  {
    if n < 20 then b
    else if n < CORE_COUNT then b[..2] + Zeros(2)
    else Disjoint(n, n); b[..Held(n)] + Zeros(RegSize(n) - Held(n))
  }

  lemma {:induction false} LowHalf(b: seq<Byte>)
    requires |b| == 4
    ensures LittleEndian(b) < TWO32 && LeBytes(LittleEndian(b) % 0x1_0000, 4) == b[..2] + Zeros(2)
  {
    LittleEndianBound(b);
    Widths();
    var low := b[..2] + Zeros(2);
    var x: int, y: int := b[0], b[1];
    LittleEndianTwo(b);
    LittleEndianTwo(low);
    assert low[2..] == Zeros(2);
    LittleEndianTwo(Zeros(2));
    assert LittleEndian(low) == x + 256 * y == LittleEndian(b) % 0x1_0000;
    LeWrites(low);
  }

  lemma {:induction false} LittleEndianTwo(b: seq<Byte>)
    requires |b| >= 2
    ensures var x: int, y: int := b[0], b[1]; LittleEndian(b) == x + 256 * y + 65536 * LittleEndian(b[2..])
  {
    assert b[1..][1..] == b[2..];
  }

  lemma {:induction false} KeptOfCore(i: nat, b: seq<Byte>)
    requires i < CORE_COUNT && |b| == RegSize(i)
    ensures LittleEndian(b) < TWO64 && LeBytes(Fitted(i, LittleEndian(b)), RegSize(i)) == Represented(i, b)
  {
    CoreWidth(i, b);
    var v := LittleEndian(b);
    if i < 20 {
      assert Fitted(i, v) == v;
      LeWrites(b);
    } else {
      LowHalf(b);
    }
  }

  lemma {:induction false} CoreWidth(i: nat, b: seq<Byte>)
    requires i < CORE_COUNT && |b| == RegSize(i)
    ensures LittleEndian(b) < if i <= 16 then TWO64 else TWO32
  {
    LittleEndianBound(b);
    Widths();
  }

  /** Any register written is read back in the bytes it keeps, and every other
      register reads as before. */
  lemma {:induction false} StoreThenRead(s: Snapshot, i: nat, b: seq<Byte>, j: nat)
    requires i < REG_MAX && j < REG_MAX && |s.fx| >= FXSAVE_MIN && |b| == RegSize(i)
    ensures RegBytes(StoreReg(s, i, b), j) == if i == j then Represented(i, b) else RegBytes(s, j)
  {
    if i < CORE_COUNT {
      LittleEndianBound(b);
      Widths();
      if j < CORE_COUNT {
        SetThenGet(s.regs, i, LittleEndian(b), j);
        KeptOfCore(i, b);
      }
    } else if j >= CORE_COUNT {
      FpStoreThenBytes(s.fx, i, b, j);
    }
  }

  lemma {:induction false} StoreWhatWasRead(s: Snapshot, i: nat)
    requires i < REG_MAX && |s.fx| >= FXSAVE_MIN && s.regs.cs < TWO32 && s.regs.ss < TWO32
    ensures StoreReg(s, i, RegBytes(s, i)) == s
  {
    if i < CORE_COUNT {
      Widths();
      LeReads(GetReg(s.regs, i), RegSize(i));
      SetWhatWasGot(s.regs, i);
    } else {
      FpStoreWhatWasHeld(s.fx, i);
    }
  }

  // ------------------------------------------------------------------ packets

  /** Where register `n` begins in a packet. */
  function Start(n: nat): nat { if n == 0 then 0 else Start(n - 1) + RegSize(n - 1) }

  lemma {:induction false} StartMonotone(m: nat, n: nat)
    requires m <= n
    ensures Start(m) <= Start(n)
  {
    if m == n {
    } else {
      StartMonotone(m, n - 1);
    }
  }

  lemma {:induction false} StartValues()
    ensures Start(CORE_COUNT) == 164 && Start(REG_MAX) == 536
  {
    assert Start(8) == 64;
    assert Start(16) == 128;
    assert Start(24) == 164;
    assert Start(32) == 244;
    assert Start(40) == 276;
    assert Start(48) == 404;
    assert Start(57) == 536;
  }

  /** Parts one after the other. */
  function Laid(parts: seq<seq<Byte>>): seq<Byte> {
    if parts == [] then [] else Laid(parts[..|parts| - 1]) + parts[|parts| - 1]
  }

  /** The registers, of which a packet is made. */
  function Parts(s: Snapshot): (parts: seq<seq<Byte>>)
    requires |s.fx| >= FXSAVE_MIN
    ensures |parts| == REG_MAX && forall k :: 0 <= k < REG_MAX ==> parts[k] == RegBytes(s, k)
  {
    seq(REG_MAX, k requires 0 <= k < REG_MAX => RegBytes(s, k))
  }

  ghost predicate Sized(parts: seq<seq<Byte>>) { forall k :: 0 <= k < |parts| ==> |parts[k]| == RegSize(k) }

  lemma {:induction false} LaidNext(parts: seq<seq<Byte>>, n: nat)
    requires n < |parts|
    ensures Laid(parts[..n + 1]) == Laid(parts[..n]) + parts[n]
  {
    assert parts[..n + 1][..n] == parts[..n];
  }

  lemma {:induction false} LaidLength(parts: seq<seq<Byte>>, n: nat)
    requires n <= |parts| && Sized(parts)
    ensures |Laid(parts[..n])| == Start(n)
  {
    if n == 0 {
    } else {
      LaidLength(parts, n - 1);
      LaidNext(parts, n - 1);
    }
  }

  lemma SliceOfFront(p: seq<Byte>, q: seq<Byte>, a: nat, b: nat)
    requires a <= b <= |p|
    ensures (p + q)[a..b] == p[a..b]
  {}

  lemma SliceOfBack(p: seq<Byte>, q: seq<Byte>)
    ensures (p + q)[|p|..|p| + |q|] == q
  {}

  lemma {:induction false} LaidField(parts: seq<seq<Byte>>, k: nat, n: nat)
    requires k < n <= |parts| && Sized(parts)
    ensures Start(k) <= Start(k + 1) <= |Laid(parts[..n])| && Laid(parts[..n])[Start(k)..Start(k + 1)] == parts[k]
    decreases n
  {
    LaidLength(parts, n - 1);
    LaidNext(parts, n - 1);
    if k < n - 1 {
      LaidField(parts, k, n - 1);
      SliceOfFront(Laid(parts[..n - 1]), parts[n - 1], Start(k), Start(k + 1));
    } else {
      SliceOfBack(Laid(parts[..k]), parts[k]);
    }
  }

  function Packet(s: Snapshot): seq<Byte>
    requires |s.fx| >= FXSAVE_MIN
  {
    Laid(Parts(s))
  }

  /** A packet has 536 bytes and holds each register at its place. */
  lemma {:induction false} PacketField(s: Snapshot, k: nat)
    requires k < REG_MAX && |s.fx| >= FXSAVE_MIN
    ensures |Packet(s)| == 536 && Start(k + 1) <= 536 && Field(Packet(s), k) == RegBytes(s, k)
  {
    var parts := Parts(s);
    assert parts[..REG_MAX] == parts && Sized(parts);
    LaidLength(parts, REG_MAX);
    StartValues();
    LaidField(parts, k, REG_MAX);
  }

  lemma {:induction false} StartAt(n: nat)
    requires n <= REG_MAX
    ensures Start(n) == if n <= 17 then 8 * n
                        else if n <= ST0 then 136 + 4 * (n - 17)
                        else if n <= FCTRL then 164 + 10 * (n - ST0)
                        else if n <= XMM0 then 244 + 4 * (n - FCTRL)
                        else if n <= MXCSR then 276 + 16 * (n - XMM0)
                        else 536
  {
    if n > 0 { StartAt(n - 1); }
  }

  /** The core registers in the order of the target description. */
  function CoreValues(r: Regs): (v: seq<int>)
    ensures |v| == CORE_COUNT
  {
    [r.rax, r.rbx, r.rcx, r.rdx, r.rsi, r.rdi, r.rbp, r.rsp,
     r.r8, r.r9, r.r10, r.r11, r.r12, r.r13, r.r14, r.r15, r.rip,
     r.rflags % TWO32, r.cs % TWO32, r.ss % TWO32, r.ds, r.es, r.fs, r.gs]
  }

  lemma CoreValueAt(r: Regs, k: nat)
    requires k < CORE_COUNT
    ensures GetReg(r, k) == CoreValues(r)[k]
  {}

  /** The places of the core registers in a packet: seventeen of eight bytes, then
      seven of four. */
  lemma {:induction false} CoreLayout(s: Snapshot, k: nat)
    requires |s.fx| >= FXSAVE_MIN && k < CORE_COUNT
    ensures |Packet(s)| == 536
    ensures if k < 17 then LittleEndian(Packet(s)[8 * k..8 * k + 8]) == CoreValues(s.regs)[k]
            else LittleEndian(Packet(s)[4 * k + 68..4 * k + 72]) == CoreValues(s.regs)[k]
  {
    PacketField(s, k);
    CoreValueAt(s.regs, k);
    CoreField(s, k, if k < 17 then 8 * k else 4 * k + 68);
  }

  lemma {:induction false} CoreField(s: Snapshot, k: nat, at: nat)
    requires |s.fx| >= FXSAVE_MIN && k < CORE_COUNT && |Packet(s)| == 536
    requires at == if k < 17 then 8 * k else 4 * k + 68
    ensures at + RegSize(k) <= 536 && LittleEndian(Packet(s)[at..at + RegSize(k)]) == GetReg(s.regs, k)
  {
    Widths();
    PlaceOf(s, k, at);
    LeReads(GetReg(s.regs, k), RegSize(k));
  }

  /** The control words of the FXSAVE image, in packet order. */
  function ControlWords(fx: seq<Byte>): (w: seq<seq<Byte>>)
    requires |fx| >= FXSAVE_MIN
    ensures |w| == 8
  {
    [fx[0..2] + [0, 0], fx[2..4] + [0, 0], fx[4..5] + [0, 0, 0], [0, 0, 0, 0],
     fx[8..12], [0, 0, 0, 0], fx[16..20], fx[6..8] + [0, 0]]
  }

  lemma ControlWordAt(fx: seq<Byte>, k: nat)
    requires |fx| >= FXSAVE_MIN && k < 8
    ensures FpBytes(fx, FCTRL + k) == ControlWords(fx)[k]
  {}

  /** The other registers, and where the image has them: eight of ten bytes, the
      control words, sixteen of sixteen bytes, and mxcsr. */
  lemma {:induction false} FxsaveLayout(s: Snapshot, k: nat)
    requires |s.fx| >= FXSAVE_MIN && k < 16
    ensures |Packet(s)| == 536
    ensures k < 8 ==> Packet(s)[164 + 10 * k..174 + 10 * k] == s.fx[32 + 16 * k..42 + 16 * k]
    ensures k < 8 ==> Packet(s)[244 + 4 * k..248 + 4 * k] == ControlWords(s.fx)[k]
    ensures Packet(s)[276 + 16 * k..292 + 16 * k] == s.fx[160 + 16 * k..176 + 16 * k]
    ensures Packet(s)[532..536] == s.fx[24..28]
  {
    PacketField(s, MXCSR);
    if k < 8 {
      StackAt(s, k);
      PlaceOf(s, FCTRL + k, 244 + 4 * k);
      ControlWordAt(s.fx, k);
    }
    VectorAt(s, k);
    PlaceOf(s, MXCSR, 532);
    assert FpBytes(s.fx, MXCSR) == s.fx[24..28];
  }

  lemma {:induction false} StackAt(s: Snapshot, k: nat)
    requires |s.fx| >= FXSAVE_MIN && k < 8 && |Packet(s)| == 536
    ensures Packet(s)[164 + 10 * k..174 + 10 * k] == s.fx[32 + 16 * k..42 + 16 * k]
  {
    PlaceOf(s, ST0 + k, 164 + 10 * k);
    assert FpBytes(s.fx, ST0 + k) == s.fx[32 + 16 * k..42 + 16 * k];
  }

  lemma {:induction false} VectorAt(s: Snapshot, k: nat)
    requires |s.fx| >= FXSAVE_MIN && k < 16 && |Packet(s)| == 536
    ensures Packet(s)[276 + 16 * k..292 + 16 * k] == s.fx[160 + 16 * k..176 + 16 * k]
  {
    PlaceOf(s, XMM0 + k, 276 + 16 * k);
    assert FpBytes(s.fx, XMM0 + k) == s.fx[160 + 16 * k..176 + 16 * k];
  }

  lemma {:induction false} PlaceOf(s: Snapshot, n: nat, at: nat)
    requires |s.fx| >= FXSAVE_MIN && n < REG_MAX && |Packet(s)| == 536
    requires at == if n <= 17 then 8 * n
                   else if n < ST0 then 136 + 4 * (n - 17)
                   else if n < FCTRL then 164 + 10 * (n - ST0)
                   else if n < XMM0 then 244 + 4 * (n - FCTRL)
                   else 276 + 16 * (n - XMM0)
    ensures at + RegSize(n) <= 536 && Packet(s)[at..at + RegSize(n)] == RegBytes(s, n)
  {
    PacketField(s, n);
    StartAt(n);
    StartAt(n + 1);
  }

  function Field(b: seq<Byte>, n: nat): (f: seq<Byte>)
    requires n < REG_MAX && Start(n + 1) <= |b|
    ensures |f| == RegSize(n)
  {
    b[Start(n)..Start(n + 1)]
  }

  /** The first `n` registers of a packet written over a snapshot. */
  function Apply(s: Snapshot, b: seq<Byte>, n: nat): (r: Snapshot)
    requires n <= REG_MAX && |s.fx| >= FXSAVE_MIN && Start(n) <= |b|
    ensures |r.fx| == |s.fx|
  {
    if n == 0 then s else StoreReg(Apply(s, b, n - 1), n - 1, Field(b, n - 1))
  }

  /** After any packet has been decoded, each register reads as its field of it,
      and those the packet did not reach as before. */
  lemma {:induction false} AppliedIsRead(s: Snapshot, b: seq<Byte>, n: nat, k: nat)
    requires n <= REG_MAX && k < REG_MAX && |s.fx| >= FXSAVE_MIN && Start(n) <= |b|
    ensures k < n ==> Start(k + 1) <= |b|
    ensures RegBytes(Apply(s, b, n), k) == if k < n then Represented(k, Field(b, k)) else RegBytes(s, k)
  {
    if n == 0 {
    } else {
      StoreThenRead(Apply(s, b, n - 1), n - 1, Field(b, n - 1), k);
      AppliedIsRead(s, b, n - 1, k);
    }
  }

  lemma {:induction false} AppliedWhatWasRead(s: Snapshot, p: seq<Byte>, n: nat)
    requires n <= REG_MAX && |s.fx| >= FXSAVE_MIN && s.regs.cs < TWO32 && s.regs.ss < TWO32 && p == Packet(s)
    ensures Start(n) <= |p| == 536 && Apply(s, p, n) == s
  {
    if n == 0 {
      PacketField(s, 0);
    } else {
      AppliedWhatWasRead(s, p, n - 1);
      PacketField(s, n - 1);
      StoreWhatWasRead(s, n - 1);
      assert Field(p, n - 1) == RegBytes(s, n - 1);
    }
  }

  /** The selectors are cut to 32 bits by a packet that reaches them. */
  lemma {:induction false} SelectorsCut(s: Snapshot, b: seq<Byte>, n: nat)
    requires n <= REG_MAX && |s.fx| >= FXSAVE_MIN && Start(n) <= |b|
    ensures n > 18 ==> Apply(s, b, n).regs.cs < TWO32
    ensures n > 19 ==> Apply(s, b, n).regs.ss < TWO32
  {
    if n == 0 {
    } else {
      SelectorsCut(s, b, n - 1);
    }
  }

  /** Decoding a packet onto the state it was encoded from changes nothing,
      exactly when both selectors have 32 bits. */
  lemma {:induction false} PacketRoundTrip(s: Snapshot)
    requires |s.fx| >= FXSAVE_MIN
    ensures |Packet(s)| == 536 == Start(REG_MAX)
    ensures Apply(s, Packet(s), REG_MAX) == s <==> s.regs.cs < TWO32 && s.regs.ss < TWO32
  {
    PacketField(s, 0);
    StartValues();
    SelectorsCut(s, Packet(s), REG_MAX);
    if s.regs.cs < TWO32 && s.regs.ss < TWO32 { AppliedWhatWasRead(s, Packet(s), REG_MAX); }
  }

  /** The bytes read from a register are bytes it keeps. */
  lemma {:induction false} ReadIsRepresented(s: Snapshot, k: nat)
    requires k < REG_MAX && |s.fx| >= FXSAVE_MIN
    ensures Represented(k, RegBytes(s, k)) == RegBytes(s, k)
  {
    if k < CORE_COUNT {
      if k >= 20 { SmallSelector(GetReg(s.regs, k)); }
    } else {
      Disjoint(k, k);
    }
  }

  lemma {:induction false} SmallSelector(v: U16)
    ensures LeBytes(v, 4)[..2] + Zeros(2) == LeBytes(v, 4)
  {
    assert v / 256 / 256 == 0;
    assert LeBytes(v, 4) == [v % 256, v / 256 % 256, 0, 0];
  }

  /** The first `n` fields of hexadecimal text, decoded over `s`, give `now`. */
  ghost predicate Decoded(now: Snapshot, s: Snapshot, hex: seq<Byte>, offset: nat, n: nat) {
    && n <= REG_MAX && |s.fx| >= FXSAVE_MIN && offset == 2 * Start(n) <= |hex| && AllHex(hex[..offset])
    && now == Apply(s, Unhexed(hex[..offset]), n)
  }

  /** One more field. */
  lemma {:induction false} NextField(now: Snapshot, s: Snapshot, hex: seq<Byte>, offset: nat, n: nat, end: nat)
    requires n < REG_MAX && Decoded(now, s, hex, offset, n) && end == offset + 2 * RegSize(n) <= |hex|
    requires AllHex(hex[offset..end])
    ensures Decoded(StoreReg(now, n, Unhexed(hex[offset..end])), s, hex, end, n + 1)
  {
    var b, c := Unhexed(hex[..offset]), Unhexed(hex[offset..end]);
    assert hex[..end] == hex[..offset] + hex[offset..end];
    UnhexJoin(hex[..offset], hex[offset..end]);
    ApplyField(s, b, c, n);
  }

  lemma {:induction false} ApplyField(s: Snapshot, b: seq<Byte>, c: seq<Byte>, n: nat)
    requires n < REG_MAX && |s.fx| >= FXSAVE_MIN && |b| == Start(n) && |c| == RegSize(n)
    ensures Start(n + 1) == |b + c| && Apply(s, b + c, n + 1) == StoreReg(Apply(s, b, n), n, c)
  {
    ApplyFront(s, b, c, n);
    SliceOfBack(b, c);
    assert Field(b + c, n) == c;
  }

  /** Registers depend only on their part of a packet. */
  lemma {:induction false} ApplyFront(s: Snapshot, b: seq<Byte>, c: seq<Byte>, n: nat)
    requires n <= REG_MAX && |s.fx| >= FXSAVE_MIN && Start(n) <= |b|
    ensures Apply(s, b + c, n) == Apply(s, b, n)
  {
    if n == 0 {
    } else {
      ApplyFront(s, b, c, n - 1);
      SliceOfFront(b, c, Start(n - 1), Start(n));
    }
  }

  /** The text of the first `n` parts. */
  ghost predicate Encoded(hex: seq<Byte>, parts: seq<seq<Byte>>, n: nat) {
    n <= |parts| && hex == HexText(Laid(parts[..n]))
  }

  lemma {:induction false} EncodedNext(hex: seq<Byte>, parts: seq<seq<Byte>>, n: nat)
    requires n < |parts| && Encoded(hex, parts, n)
    ensures Encoded(hex + HexText(parts[n]), parts, n + 1)
  {
    LaidNext(parts, n);
    HexJoin(Laid(parts[..n]), parts[n]);
  }

  // ----------------------------------------------------- floating-point record

  type Image = s: seq<Byte> | |s| == FPREGS_MAX witness seq(FPREGS_MAX, _ => 0)

  /** The FXSAVE image and how much of it the kernel filled in. */
  datatype Fpregs = Fpregs(data: Image, length: nat)

  const NoFpregs: Fpregs := Fpregs(Zeros(FPREGS_MAX), 0)

  /** What registers read from: all zeros when the record is short, or when the
      target has none. */
  function Visible(f: Fpregs, present: bool): Image {
    if present && f.length >= FXSAVE_MIN then f.data else Zeros(FPREGS_MAX)
  }

  /** A short record made complete. */
  function Completed(f: Fpregs): (r: Fpregs)
    ensures r.length >= FXSAVE_MIN
  {
    if f.length >= FXSAVE_MIN then f
    else Fpregs(f.data[..f.length] + Zeros(FXSAVE_MIN - f.length) + f.data[FXSAVE_MIN..], FXSAVE_MIN)
  }

  function FpStored(f: Fpregs, n: nat, b: seq<Byte>): Fpregs
    requires ST0 <= n < REG_MAX && |b| == RegSize(n)
  {
    Fpregs(FpStore(Completed(f).data, n, b), Completed(f).length)
  }

  /** All registers as they read. */
  function Seen(regs: Regs, f: Fpregs, present: bool): (s: Snapshot)
    ensures |s.fx| == FPREGS_MAX
  {
    Snapshot(regs, Visible(f, present))
  }

  /** Both records after a packet of 536 bytes, or of the core registers alone. */
  function AfterPacket(regs: Regs, f: Fpregs, present: bool, b: seq<Byte>): (r: (Regs, Fpregs))
    requires |b| == 164 || |b| == 536
  {
    StartValues();
    if |b| == 536 && present then
      var s := Apply(Snapshot(regs, Completed(f).data), b, REG_MAX);
      (s.regs, Fpregs(s.fx, Completed(f).length))
    else (Apply(Snapshot(regs, f.data), b, CORE_COUNT).regs, f)
  }

  /** Both records after one register has been written. */
  function WithRegister(regs: Regs, f: Fpregs, present: bool, n: nat, b: seq<Byte>): (Regs, Fpregs)
    requires n < REG_MAX && |b| == RegSize(n)
  {
    if n < CORE_COUNT then (StoreReg(Snapshot(regs, f.data), n, b).regs, f)
    else if present then (regs, FpStored(f, n, b))
    else (regs, f)
  }

  /** The register written reads as the bytes it keeps. */
  lemma {:induction false} WithRegisterReads(regs: Regs, f: Fpregs, present: bool, n: nat, b: seq<Byte>)
    requires n < REG_MAX && |b| == RegSize(n)
    ensures var (regs', f') := WithRegister(regs, f, present, n, b);
            RegBytes(Seen(regs', f', present), n) ==
              if n < CORE_COUNT || present then Represented(n, b) else Zeros(RegSize(n))
  {
    StoreThenRead(Snapshot(regs, if n < CORE_COUNT then f.data else Completed(f).data), n, b, n);
    if n >= CORE_COUNT { AllZero(n); }
  }

  /** Every other register reads as before, unless completing a short record
      brings to light what was in it. */
  lemma {:induction false} WithRegisterKeeps(regs: Regs, f: Fpregs, present: bool, n: nat, b: seq<Byte>, k: nat)
    requires n < REG_MAX && |b| == RegSize(n) && k < REG_MAX && k != n
    ensures var (regs', f') := WithRegister(regs, f, present, n, b);
            RegBytes(Seen(regs', f', present), k) == RegBytes(Seen(regs, f, present), k) <==>
            (present && n >= CORE_COUNT && k >= CORE_COUNT && f.length < FXSAVE_MIN ==> Blank(f, k))
  {
    StoreThenRead(Snapshot(regs, if n < CORE_COUNT then f.data else Completed(f).data), n, b, k);
    if k >= CORE_COUNT && f.length < FXSAVE_MIN { BlankReadsZero(f, k); }
  }

  /** What a short record has of a register is zero. */
  ghost predicate Blank(f: Fpregs, k: nat)
    requires CORE_COUNT <= k < REG_MAX
  {
    forall x :: Offset(k) <= x < Offset(k) + Held(k) && x < f.length && x < FPREGS_MAX ==> f.data[x] == 0
  }

  lemma {:induction false} BlankReadsZero(f: Fpregs, k: nat)
    requires CORE_COUNT <= k < REG_MAX && f.length < FXSAVE_MIN
    ensures FpBytes(Completed(f).data, k) == FpBytes(Zeros(FPREGS_MAX), k) <==> Blank(f, k)
  {
    Disjoint(k, k);
    AllZero(k);
    var d, at := Completed(f).data, Offset(k);
    assert forall x :: 0 <= x < FXSAVE_MIN ==> d[x] == if x < f.length then f.data[x] else 0;
    if FpBytes(d, k) == Zeros(RegSize(k)) {
      forall x | at <= x < at + Held(k) && x < f.length ensures f.data[x] == 0 { assert FpBytes(d, k)[x - at] == d[x]; }
    }
    if Blank(f, k) { assert FpBytes(d, k) == Zeros(RegSize(k)); }
  }

  /** A record of one byte, not zero: after a write to a vector register the
      control word reads differently. */
  lemma {:induction false} ShortRecordShows(regs: Regs, b: seq<Byte>)
    requires |b| == 16
    ensures var f := Fpregs([1] + Zeros(FPREGS_MAX - 1), 1);
            var (regs', f') := WithRegister(regs, f, true, XMM0, b);
            RegBytes(Seen(regs', f', true), FCTRL) != RegBytes(Seen(regs, f, true), FCTRL)
  {
    var f := Fpregs([1] + Zeros(FPREGS_MAX - 1), 1);
    WithRegisterKeeps(regs, f, true, XMM0, b, FCTRL);
    assert f.data[0] != 0;
  }

  /** Core registers live in one record, the others in the other. */
  lemma {:induction false} CoreAlone(s: Snapshot, t: Snapshot, b: seq<Byte>, n: nat)
    requires n <= CORE_COUNT && s.regs == t.regs && |s.fx| >= FXSAVE_MIN && |t.fx| >= FXSAVE_MIN && Start(n) <= |b|
    ensures Apply(s, b, n).fx == s.fx && Apply(s, b, n).regs == Apply(t, b, n).regs
  {
    if n == 0 {
    } else {
      CoreAlone(s, t, b, n - 1);
    }
  }

  /** Whatever the records hold, sending back the packet that was read leaves
      every register reading as it did. */
  lemma {:induction false} ReadsTheSame(regs: Regs, f: Fpregs, present: bool, k: nat)
    requires k < REG_MAX
    ensures var s := Seen(regs, f, present);
            && |Packet(s)| == 536
            && var (regs', f') := AfterPacket(regs, f, present, Packet(s));
               RegBytes(Seen(regs', f', present), k) == RegBytes(s, k)
  {
    var s := Seen(regs, f, present);
    PacketField(s, k);
    ReadIsRepresented(s, k);
    StartValues();
    if present {
      AppliedIsRead(Snapshot(regs, Completed(f).data), Packet(s), REG_MAX, k);
    } else {
      CoreAlone(Snapshot(regs, f.data), s, Packet(s), CORE_COUNT);
      AppliedIsRead(s, Packet(s), CORE_COUNT, k);
    }
  }

  /** And both records are as they were exactly when nothing had to be cut or
      filled up. */
  lemma {:induction false} SentBack(regs: Regs, f: Fpregs, present: bool)
    ensures |Packet(Seen(regs, f, present))| == 536
    ensures AfterPacket(regs, f, present, Packet(Seen(regs, f, present))) == (regs, f) <==>
      regs.cs < TWO32 && regs.ss < TWO32 && (present ==> f.length >= FXSAVE_MIN)
  {
    var s := Seen(regs, f, present);
    PacketRoundTrip(s);
    StartValues();
    if present {
      SelectorsCut(Snapshot(regs, Completed(f).data), Packet(s), REG_MAX);
    } else {
      var t := Snapshot(regs, f.data);
      CoreAlone(t, s, Packet(s), CORE_COUNT);
      SelectorsCut(t, Packet(s), CORE_COUNT);
      if regs.cs < TWO32 && regs.ss < TWO32 { AppliedWhatWasRead(s, Packet(s), CORE_COUNT); }
    }
  }

  // -------------------------------------------------------------- the machine

  class Machine {
    var regs: Regs
    const data: array<Byte>
    var length: nat

    ghost predicate Valid()
      reads this
    {
      data.Length == FPREGS_MAX
    }

    ghost function Fp(): Fpregs
      requires Valid()
      reads this, data
    {
      Fpregs(data[..], length)
    }

    constructor (regs: Regs, f: Fpregs)
      ensures Valid() && fresh(data) && this.regs == regs && Fp() == f
    {
      this.regs, length := regs, f.length;
      data := new Byte[FPREGS_MAX](k requires 0 <= k < FPREGS_MAX => f.data[k]);
      new;
      assert data[..] == f.data;
    }

    /** Fills a short image up with zeros. */
    method EnsureFxsave()
      requires Valid()
      modifies this`length, data
      ensures Valid() && Fp() == Completed(old(Fp()))
    {
      if length < FXSAVE_MIN {
        var i := length;
        while i < FXSAVE_MIN
          modifies data
          invariant length <= i <= FXSAVE_MIN
          invariant forall k :: 0 <= k < FPREGS_MAX ==> data[k] == if length <= k < i then 0 else old(data[k])
        {
          data[i] := 0;
          i := i + 1;
        }
        assert data[..] == Completed(old(Fp())).data;
        length := FXSAVE_MIN;
      }
    }

    method CopyIn(at: nat, b: seq<Byte>)
      requires Valid() && at + |b| <= FPREGS_MAX
      modifies data
      ensures data[..] == Overwritten(old(data[..]), at, b)
    {
      var i := 0;
      ghost var was := data[..];
      while i < |b|
        invariant i <= |b| && data[..] == Overwritten(was, at, b[..i])
      {
        OverwrittenNext(was, at, b, i);
        data[at + i] := b[i];
        i := i + 1;
      }
      assert b[..i] == b;
    }

    method GetX87(n: nat) returns (r: Option<seq<Byte>>)
      requires Valid()
      ensures r == if IsX87(n) then Some(FpBytes(Visible(Fp(), true), n)) else None
    {
      if !IsX87(n) { return None; }
      if length < FXSAVE_MIN {
        AllZero(n);
        return Some(Zeros(RegSize(n)));
      }
      if n < FCTRL {
        var at := 32 + 16 * (n - ST0);
        return Some(data[at..at + 10] + Zeros(0));
      }
      match n
      case 32 => r := Some(data[0..2] + Zeros(2));
      case 33 => r := Some(data[2..4] + Zeros(2));
      case 34 => r := Some(data[4..5] + Zeros(3));
      case 35 => r := Some(data[0..0] + Zeros(4));
      case 36 => r := Some(data[8..12] + Zeros(0));
      case 37 => r := Some(data[0..0] + Zeros(4));
      case 38 => r := Some(data[16..20] + Zeros(0));
      case 39 => r := Some(data[6..8] + Zeros(2));
    }

    method SetX87(n: nat, b: seq<Byte>) returns (ok: bool)
      requires Valid()
      modifies this`length, data
      ensures Valid() && ok == (IsX87(n) && |b| == RegSize(n))
      ensures Fp() == if ok then FpStored(old(Fp()), n, b) else old(Fp())
    {
      if !IsX87(n) || |b| != RegSize(n) { return false; }
      EnsureFxsave();
      if n < FCTRL {
        CopyIn(32 + 16 * (n - ST0), b[..10]);
        return true;
      }
      match n {
        case 32 => CopyIn(0, b[..2]);
        case 33 => CopyIn(2, b[..2]);
        case 34 => CopyIn(4, b[..1]);
        case 35 => CopyIn(0, b[..0]);
        case 36 => CopyIn(8, b[..4]);
        case 37 => CopyIn(0, b[..0]);
        case 38 => CopyIn(16, b[..4]);
        case 39 => CopyIn(6, b[..2]);
      }
      return true;
    }

    method GetSse(n: nat) returns (r: Option<seq<Byte>>)
      requires Valid()
      ensures r == if IsSse(n) then Some(FpBytes(Visible(Fp(), true), n)) else None
    {
      if !IsSse(n) { return None; }
      if length < FXSAVE_MIN {
        AllZero(n);
        return Some(Zeros(RegSize(n)));
      }
      var at, size := 160 + 16 * (n - XMM0), 16;
      if n == MXCSR { at, size := 24, 4; }
      r := Some(data[at..at + size] + Zeros(0));
    }

    method SetSse(n: nat, b: seq<Byte>) returns (ok: bool)
      requires Valid()
      modifies this`length, data
      ensures Valid() && ok == (IsSse(n) && |b| == RegSize(n))
      ensures Fp() == if ok then FpStored(old(Fp()), n, b) else old(Fp())
    {
      if !IsSse(n) || |b| != RegSize(n) { return false; }
      EnsureFxsave();
      if n == MXCSR { CopyIn(24, b[..4]); } else { CopyIn(160 + 16 * (n - XMM0), b[..16]); }
      return true;
    }

    /** One register, as zeros if the target has no floating-point registers. */
    method ReadReg(n: nat, present: bool) returns (b: seq<Byte>)
      requires Valid() && n < REG_MAX
      ensures b == RegBytes(Seen(regs, Fp(), present), n)
    {
      if n < CORE_COUNT {
        b := LeBytes(GetReg(regs, n), RegSize(n));
      } else if !present {
        AllZero(n);
        b := Zeros(RegSize(n));
      } else {
        var r;
        if IsX87(n) { r := GetX87(n); } else { r := GetSse(n); }
        b := r.value;
      }
    }

    method WriteCore(n: nat, b: seq<Byte>)
      requires Valid() && n < CORE_COUNT && |b| == RegSize(n)
      modifies this`regs
      ensures Snapshot(regs, data[..]) == StoreReg(Snapshot(old(regs), data[..]), n, b)
    {
      LittleEndianBound(b);
      Widths();
      regs := SetReg(regs, n, LittleEndian(b));
    }

    /** One core register from its text. */
    method CoreField(hex: seq<Byte>, offset: nat, n: nat, end: nat, ghost s: Snapshot) returns (ok: bool)
      requires Valid() && n < CORE_COUNT && end == offset + RegSize(n) * 2 <= |hex|
      requires Decoded(Snapshot(regs, data[..]), s, hex, offset, n)
      modifies this`regs
      ensures ok == AllHex(hex[offset..end]) && (ok ==> Decoded(Snapshot(regs, data[..]), s, hex, end, n + 1))
    {
      var field := HexToBytes(hex[offset..end], RegSize(n));
      if field == None { return false; }
      NextField(Snapshot(regs, data[..]), s, hex, offset, n, end);
      WriteCore(n, field.value);
      return true;
    }

    method WriteFp(n: nat, b: seq<Byte>)
      requires Valid() && CORE_COUNT <= n < REG_MAX && |b| == RegSize(n)
      modifies this`length, data
      ensures Valid() && Fp() == FpStored(old(Fp()), n, b)
    {
      var ok;
      if IsX87(n) { ok := SetX87(n, b); } else { ok := SetSse(n, b); }
    }

    /** The `g` packet. */
    method EncodePacket(present: bool) returns (hex: seq<Byte>)
      requires Valid()
      ensures hex == HexText(Packet(Seen(regs, Fp(), present))) && |hex| == PACKET_HEX_SIZE
    {
      ghost var s := Seen(regs, Fp(), present);
      ghost var parts := Parts(s);
      hex := [];
      var n := 0;
      while n < REG_MAX
        invariant n <= REG_MAX && Encoded(hex, parts, n)
      {
        var b := ReadReg(n, present);
        var text := BytesToHex(b);
        EncodedNext(hex, parts, n);
        hex, n := hex + text, n + 1;
      }
      assert parts[..n] == parts;
      PacketField(s, 0);
    }

    /** The core registers at the front of a packet. */
    method DecodeCore(hex: seq<Byte>) returns (ok: bool)
      requires Valid()
      modifies this`regs
      ensures ok == (|hex| >= CORE_HEX_SIZE && AllHex(hex[..CORE_HEX_SIZE]))
      ensures ok ==> Decoded(Snapshot(regs, data[..]), Snapshot(old(regs), data[..]), hex, CORE_HEX_SIZE, CORE_COUNT)
    {
      StartValues();
      ok := DecodeFields(hex, CORE_COUNT);
    }

    /** The first `count` of them. */
    method DecodeFields(hex: seq<Byte>, count: nat) returns (ok: bool)
      requires Valid() && count <= CORE_COUNT
      modifies this`regs
      ensures ok == (|hex| >= 2 * Start(count) && AllHex(hex[..2 * Start(count)]))
      ensures ok ==> Decoded(Snapshot(regs, data[..]), Snapshot(old(regs), data[..]), hex, 2 * Start(count), count)
    {
      var offset: nat, n: nat := 0, 0;
      ghost var s, limit := Snapshot(regs, data[..]), 2 * Start(count);
      ghost var now := s;
      while n < count
        invariant n <= count && now == Snapshot(regs, data[..]) && Decoded(now, s, hex, offset, n)
      {
        var end := offset + RegSize(n) * 2;
        StartMonotone(n + 1, count);
        if end > |hex| { return false; }
        ok := CoreField(hex, offset, n, end, s);
        if !ok {
          if |hex| >= limit { HexSlice(hex, offset, end, limit); }
          return;
        }
        now := Snapshot(regs, data[..]);
        offset, n := end, n + 1;
      }
      return true;
    }

    /** The floating-point registers behind them. */
    method DecodeFp(hex: seq<Byte>, ghost s: Snapshot) returns (ok: bool)
      requires Valid() && length >= FXSAVE_MIN && |s.fx| == FPREGS_MAX
      requires |hex| == PACKET_HEX_SIZE && Decoded(Snapshot(regs, data[..]), s, hex, CORE_HEX_SIZE, CORE_COUNT)
      modifies this`length, data
      ensures Valid() && ok == AllHex(hex) && length == old(length)
      ensures ok ==> Start(REG_MAX) == 536 && Snapshot(regs, data[..]) == Apply(s, Unhexed(hex), REG_MAX)
    {
      StartValues();
      var offset: nat, n := CORE_HEX_SIZE, CORE_COUNT;
      ghost var now := Snapshot(regs, data[..]);
      while n < REG_MAX
        invariant CORE_COUNT <= n <= REG_MAX && length == old(length)
        invariant now == Snapshot(regs, data[..]) && Decoded(now, s, hex, offset, n)
      {
        StartMonotone(n + 1, REG_MAX);
        var end := offset + RegSize(n) * 2;
        var field := HexToBytes(hex[offset..end], RegSize(n));
        if field == None {
          HexSlice(hex, offset, end, |hex|);
          return false;
        }
        NextField(now, s, hex, offset, n, end);
        now := StoreReg(now, n, field.value);
        WriteFp(n, field.value);
        offset, n := end, n + 1;
      }
      assert hex[..offset] == hex;
      return true;
    }

    /** The `G` packet: refused unless it has the right length and is hexadecimal
        throughout; else every register takes its field. */
    method DecodePacket(hex: seq<Byte>, present: bool) returns (ok: bool)
      requires Valid()
      modifies this, data
      ensures Valid() && ok == (|hex| == PACKET_HEX_SIZE && AllHex(hex))
      ensures ok ==> (regs, Fp()) == AfterPacket(old(regs), old(Fp()), present, Unhexed(hex))
    {
      if |hex| != PACKET_HEX_SIZE { return false; }
      ghost var s := Snapshot(regs, Completed(Fp()).data);
      ghost var front := hex[..CORE_HEX_SIZE];
      if AllHex(hex) { HexSlice(hex, 0, CORE_HEX_SIZE, |hex|); }
      ok := DecodeCore(hex);
      if !ok { return; }
      CoreAlone(s, Snapshot(old(regs), data[..]), Unhexed(front), CORE_COUNT);
      if present {
        EnsureFxsave();
        ok := DecodeFp(hex, s);
      } else {
        ok := RestIsHex(hex);
        if ok {
          assert hex == front + hex[CORE_HEX_SIZE..];
          UnhexJoin(front, hex[CORE_HEX_SIZE..]);
          ApplyFront(Snapshot(old(regs), data[..]), Unhexed(front), Unhexed(hex[CORE_HEX_SIZE..]), CORE_COUNT);
        }
      }
    }
  }

  /** Text for registers the target does not have is checked and ignored. */
  method RestIsHex(hex: seq<Byte>) returns (ok: bool)
    requires |hex| == PACKET_HEX_SIZE && AllHex(hex[..CORE_HEX_SIZE])
    ensures ok == AllHex(hex)
  {
    var offset := CORE_HEX_SIZE;
    while offset < |hex|
      invariant CORE_HEX_SIZE <= offset <= |hex| && offset % 2 == 0 && AllHex(hex[..offset])
    {
      var ignored := HexToBytes(hex[offset..offset + 2], 1);
      if ignored == None {
        HexSlice(hex, offset, offset + 2, |hex|);
        return false;
      }
      assert hex[..offset + 2] == hex[..offset] + hex[offset..offset + 2];
      UnhexJoin(hex[..offset], hex[offset..offset + 2]);
      offset := offset + 2;
    }
    assert hex[..offset] == hex;
    return true;
  }

  /** Reading all registers and sending them back leaves every register reading
      as it did, and both records as they were exactly when the selectors have
      32 bits and the floating-point record, if there is one, is complete. */
  method ReadThenWrite(m: Machine, present: bool) returns (ok: bool)
    requires m.Valid()
    modifies m, m.data
    ensures ok && m.Valid()
    ensures forall k :: 0 <= k < REG_MAX ==>
      RegBytes(Seen(m.regs, m.Fp(), present), k) == RegBytes(Seen(old(m.regs), old(m.Fp()), present), k)
    ensures m.regs == old(m.regs) && m.Fp() == old(m.Fp()) <==>
      old(m.regs).cs < TWO32 && old(m.regs).ss < TWO32 && (present ==> old(m.length) >= FXSAVE_MIN)
  {
    ghost var regs, f := m.regs, m.Fp();
    var hex := m.EncodePacket(present);
    UnhexHex(Packet(Seen(regs, f, present)));
    forall k | 0 <= k < REG_MAX
      ensures var (r, g) := AfterPacket(regs, f, present, Packet(Seen(regs, f, present)));
              RegBytes(Seen(r, g, present), k) == RegBytes(Seen(regs, f, present), k)
    {
      ReadsTheSame(regs, f, present, k);
    }
    SentBack(regs, f, present);
    ok := m.DecodePacket(hex, present);
  }
}
