/** Register packets: the current thread's records are fetched, changed and sent
    back through the backend, any of whose calls may fail. */
module RspRegisters {
  import opened Bytes
  import opened Hex
  import opened GdbRegs
  import opened RspBackend
  import opened RspMemory

  /** Hexadecimal text for all registers, or for the core ones. */
  predicate IsPacket(text: seq<Byte>) { (|text| == CORE_HEX_SIZE || |text| == PACKET_HEX_SIZE) && AllHex(text) }

  /** The registers of every other thread are as they were. */
  twostate predicate OthersKept(backend: Backend, lwp: int)
    reads backend
  {
    backend.cpu - {lwp} == old(backend.cpu) - {lwp} && backend.fpu - {lwp} == old(backend.fpu) - {lwp}
  }

  method FetchFpregs(backend: Backend, pid: int, lwp: int) returns (r: Option<Fpregs>)
    modifies backend`history, backend`faults
    ensures OnlyUsed(old(backend.history), backend.history, pid)
    ensures backend.faults == Counted(old(backend.faults), r.Some?)
    ensures r.Some? ==> r.value == backend.FpOf(lwp)
  {
    if !backend.present { return Some(NoFpregs); }
    UseIsUse(backend.history, pid);
    r := backend.GetFpregs(pid, lwp);
  }

  /** `g`: the packet of all registers, those that cannot be had as zeros; an
      error exactly when a call fails. */
  method ReadAll(backend: Backend, pid: int, lwp: int) returns (r: Reply)
    modifies backend`history, backend`faults
    ensures OnlyUsed(old(backend.history), backend.history, pid) && backend.faults >= old(backend.faults)
    ensures Quiet(backend) ==> lwp in backend.cpu
    ensures r == if Quiet(backend) then HexReply(HexText(Packet(backend.Seen(lwp)))) else Error(1)
  {
    UseIsUse(backend.history, pid);
    var regs := backend.GetRegs(pid, lwp);
    if regs.None? { return Error(1); }
    var fp := FetchFpregs(backend, pid, lwp);
    if fp.None? { return Error(1); }
    var m := new Machine(regs.value, fp.value);
    var hex := m.EncodePacket(backend.present);
    return HexReply(hex);
  }

  /** Sends both records back; the second may fail after the first was taken. */
  method Store(backend: Backend, pid: int, lwp: int, regs: Regs, fp: Option<Fpregs>) returns (r: Reply)
    modifies backend`history, backend`faults, backend`cpu, backend`fpu
    ensures OnlyUsed(old(backend.history), backend.history, pid) && OthersKept(backend, lwp)
    ensures backend.faults >= old(backend.faults) && r == if Quiet(backend) then Okay else Error(1)
    ensures r == Okay ==> backend.cpu == old(backend.cpu)[lwp := regs]
    ensures r == Okay ==> backend.fpu == if fp.Some? then old(backend.fpu)[lwp := fp.value] else old(backend.fpu)
  {
    UseIsUse(backend.history, pid);
    var ok := backend.SetRegs(pid, lwp, regs);
    if !ok { return Error(1); }
    if fp.Some? {
      UseIsUse(backend.history, pid);
      ok := backend.SetFpregs(pid, lwp, fp.value);
      if !ok { return Error(1); }
    }
    return Okay;
  }

  /** `G`: every register takes its field, or the core ones alone in the short
      form; a text of another form changes nothing.  It succeeds exactly for text
      of the right form when no call fails. */
  method WriteAll(backend: Backend, pid: int, lwp: int, text: seq<Byte>) returns (r: Reply)
    modifies backend`history, backend`faults, backend`cpu, backend`fpu
    ensures OnlyUsed(old(backend.history), backend.history, pid) && OthersKept(backend, lwp)
    ensures backend.faults >= old(backend.faults) && r == if Quiet(backend) && IsPacket(text) then Okay else Error(1)
    ensures !IsPacket(text) ==> backend.cpu == old(backend.cpu) && backend.fpu == old(backend.fpu)
    ensures r == Okay ==>
      && lwp in old(backend.cpu) && lwp in backend.cpu
      && AfterPacket(old(backend.cpu)[lwp], old(backend.FpOf(lwp)), backend.present, Unhexed(text))
         == (backend.cpu[lwp], backend.FpOf(lwp))
  {
    UseIsUse(backend.history, pid);
    var regs := backend.GetRegs(pid, lwp);
    if regs.None? { return Error(1); }
    if |text| == CORE_HEX_SIZE {
      var core := DecodeShort(regs.value, text, backend.FpOf(lwp), backend.present);
      if core.None? { return Error(1); }
      r := Store(backend, pid, lwp, core.value, None);
      return;
    }
    var fp := FetchFpregs(backend, pid, lwp);
    if fp.None? { return Error(1); }
    var decoded := DecodeLong(regs.value, text, fp.value, backend.present);
    if decoded.None? { return Error(1); }
    r := Store(backend, pid, lwp, decoded.value.0, if backend.present then Some(decoded.value.1) else None);
  }

  method DecodeShort(regs: Regs, text: seq<Byte>, ghost f: Fpregs, ghost present: bool) returns (r: Option<Regs>)
    requires |text| == CORE_HEX_SIZE
    ensures r.Some? <==> AllHex(text)
    ensures r.Some? ==> AfterPacket(regs, f, present, Unhexed(text)) == (r.value, f)
  {
    var m := new Machine(regs, NoFpregs);
    var ok := m.DecodeCore(text);
    assert text[..CORE_HEX_SIZE] == text;
    if !ok { return None; }
    CoreAlone(Snapshot(regs, f.data), Snapshot(regs, NoFpregs.data), Unhexed(text), CORE_COUNT);
    return Some(m.regs);
  }

  method DecodeLong(regs: Regs, text: seq<Byte>, f: Fpregs, present: bool) returns (r: Option<(Regs, Fpregs)>)
    ensures r.Some? <==> |text| == PACKET_HEX_SIZE && AllHex(text)
    ensures r.Some? ==> AfterPacket(regs, f, present, Unhexed(text)) == r.value
  {
    var m := new Machine(regs, f);
    var ok := m.DecodePacket(text, present);
    if !ok { return None; }
    return Some((m.regs, Fpregs(m.data[..], m.length)));
  }

  /** The register a packet names: its number is cut to 32 bits. */
  function Named(number: Option<nat>): (n: Option<nat>)
    ensures n.Some? ==> n.value < REG_MAX
  {
    if number.Some? && number.value % TWO32 < REG_MAX then Some(number.value % TWO32) else None
  }

  /** `p`: one register, as zeros if it cannot be had; an error exactly when there
      is no such register or a call fails. */
  method ReadOne(backend: Backend, pid: int, lwp: int, number: Option<nat>) returns (r: Reply)
    modifies backend`history, backend`faults
    ensures OnlyUsed(old(backend.history), backend.history, pid) && backend.faults >= old(backend.faults)
    ensures if Quiet(backend) && Named(number).Some? then r.HexReply? else r == Error(1)
    ensures r.HexReply? && lwp in backend.cpu ==> r.text == HexText(RegBytes(backend.Seen(lwp), Named(number).value))
  {
    var name := Named(number);
    if name.None? { return Error(1); }
    var n, regs, fp := name.value, ZeroRegs, NoFpregs;
    if n >= CORE_COUNT {
      var answer := FetchFpregs(backend, pid, lwp);
      if answer.None? { return Error(1); }
      fp := answer.value;
    } else {
      UseIsUse(backend.history, pid);
      var answer := backend.GetRegs(pid, lwp);
      if answer.None? { return Error(1); }
      regs := answer.value;
    }
    var m := new Machine(regs, fp);
    var b := m.ReadReg(n, backend.present);
    var hex := BytesToHex(b);
    return HexReply(hex);
  }

  /** The text is right for the register a packet names. */
  predicate IsValue(number: Option<nat>, text: seq<Byte>) {
    Named(number).Some? && |text| == 2 * RegSize(Named(number).value) && AllHex(text)
  }

  /** `P`: one register takes its bytes; one that cannot be had is left alone.  It
      succeeds exactly for text of the right form when no call fails. */
  method WriteOne(backend: Backend, pid: int, lwp: int, number: Option<nat>, text: seq<Byte>) returns (r: Reply)
    modifies backend`history, backend`faults, backend`cpu, backend`fpu
    ensures OnlyUsed(old(backend.history), backend.history, pid) && OthersKept(backend, lwp)
    ensures backend.faults >= old(backend.faults)
    ensures r == if Quiet(backend) && IsValue(number, text) then Okay else Error(1)
    ensures r == Error(1) ==> backend.cpu == old(backend.cpu) && backend.fpu == old(backend.fpu)
    ensures r == Okay && lwp in old(backend.cpu) ==>
      && lwp in backend.cpu
      && WithRegister(old(backend.cpu)[lwp], old(backend.FpOf(lwp)), backend.present, Named(number).value,
                      Unhexed(text))
         == (backend.cpu[lwp], backend.FpOf(lwp))
  {
    var name := Named(number);
    if name.None? { return Error(1); }
    var n := name.value;
    var b := HexToBytes(text, RegSize(n));
    if b.None? { return Error(1); }
    if n >= CORE_COUNT {
      r := WriteFpRegister(backend, pid, lwp, n, b.value);
    } else {
      r := WriteCoreRegister(backend, pid, lwp, n, b.value);
    }
  }

  method WriteCoreRegister(backend: Backend, pid: int, lwp: int, n: nat, b: seq<Byte>) returns (r: Reply)
    requires n < CORE_COUNT && |b| == RegSize(n)
    modifies backend`history, backend`faults, backend`cpu
    ensures OnlyUsed(old(backend.history), backend.history, pid) && backend.faults >= old(backend.faults)
    ensures r == (if Quiet(backend) then Okay else Error(1)) && (r == Okay ==> lwp in old(backend.cpu))
    ensures r == Okay ==>
      backend.cpu == old(backend.cpu)[lwp := WithRegister(old(backend.cpu)[lwp], NoFpregs, false, n, b).0]
    ensures r == Error(1) ==> backend.cpu == old(backend.cpu)
  {
    UseIsUse(backend.history, pid);
    var regs := backend.GetRegs(pid, lwp);
    if regs.None? { return Error(1); }
    LittleEndianBound(b);
    Widths();
    UseIsUse(backend.history, pid);
    var ok := backend.SetRegs(pid, lwp, SetReg(regs.value, n, LittleEndian(b)));
    return if ok then Okay else Error(1);
  }

  method WriteFpRegister(backend: Backend, pid: int, lwp: int, n: nat, b: seq<Byte>) returns (r: Reply)
    requires CORE_COUNT <= n < REG_MAX && |b| == RegSize(n)
    modifies backend`history, backend`faults, backend`fpu
    ensures OnlyUsed(old(backend.history), backend.history, pid) && backend.faults >= old(backend.faults)
    ensures r == if Quiet(backend) then Okay else Error(1)
    ensures r == Okay && backend.present ==>
      backend.fpu == old(backend.fpu)[lwp := FpStored(old(backend.FpOf(lwp)), n, b)]
    ensures r == Error(1) || !backend.present ==> backend.fpu == old(backend.fpu)
  {
    if !backend.present { return Okay; }
    UseIsUse(backend.history, pid);
    var fp := backend.GetFpregs(pid, lwp);
    if fp.None? { return Error(1); }
    var m := new Machine(ZeroRegs, fp.value);
    m.WriteFp(n, b);
    UseIsUse(backend.history, pid);
    var ok := backend.SetFpregs(pid, lwp, Fpregs(m.data[..], m.length));
    return if ok then Okay else Error(1);
  }

  /** `P` then `p`: the bytes the register keeps come back; zeros from one that
      cannot be had.  Both are answered unless the text is wrong or a call fails. */
  method WriteThenRead(backend: Backend, pid: int, lwp: int, number: Option<nat>, text: seq<Byte>)
    returns (done: bool, r: Reply)
    requires lwp in backend.cpu
    modifies backend`history, backend`faults, backend`cpu, backend`fpu
    ensures Quiet(backend) && IsValue(number, text) ==> done && r.HexReply?
    ensures done && r.HexReply? ==>
      && IsValue(number, text)
      && var n := Named(number).value;
         r.text == HexText(if n < CORE_COUNT || backend.present then Represented(n, Unhexed(text))
                           else Zeros(RegSize(n)))
  {
    r := WriteOne(backend, pid, lwp, number, text);
    if r != Okay { return false, r; }
    WithRegisterReads(old(backend.cpu)[lwp], old(backend.FpOf(lwp)), backend.present, Named(number).value,
                      Unhexed(text));
    r := ReadOne(backend, pid, lwp, number);
    return true, r;
  }

  /** `g`, then `G` with the reply: it succeeds unless a call fails, and then every
      register reads as it did. */
  method SendBack(backend: Backend, pid: int, lwp: int) returns (r: Reply)
    requires lwp in backend.cpu
    modifies backend`history, backend`faults, backend`cpu, backend`fpu
    ensures r == if Quiet(backend) then Okay else Error(1)
    ensures r == Okay ==> lwp in backend.cpu
    ensures r == Okay ==> forall k :: 0 <= k < REG_MAX ==>
      RegBytes(backend.Seen(lwp), k) == RegBytes(old(backend.Seen(lwp)), k)
  {
    ghost var s := backend.Seen(lwp);
    r := ReadAll(backend, pid, lwp);
    if !r.HexReply? { return; }
    UnhexHex(Packet(s));
    PacketField(s, 0);
    forall k | 0 <= k < REG_MAX
      ensures var (regs, f) := AfterPacket(backend.cpu[lwp], backend.FpOf(lwp), backend.present, Packet(s));
              RegBytes(GdbRegs.Seen(regs, f, backend.present), k) == RegBytes(s, k)
    {
      ReadsTheSame(backend.cpu[lwp], backend.FpOf(lwp), backend.present, k);
    }
    r := WriteAll(backend, pid, lwp, r.text);
  }

  method SetProgramCounter(backend: Backend, pid: int, lwp: int, address: U64) returns (ok: bool)
    modifies backend`history, backend`faults, backend`cpu
    ensures OnlyUsed(old(backend.history), backend.history, pid) && (ok ==> lwp in old(backend.cpu))
    ensures backend.faults >= old(backend.faults) && ok == Quiet(backend)
    ensures backend.cpu ==
      if ok then old(backend.cpu)[lwp := old(backend.cpu)[lwp].(rip := address)] else old(backend.cpu)
  {
    UseIsUse(backend.history, pid);
    var regs := backend.GetRegs(pid, lwp);
    if regs.None? { return false; }
    UseIsUse(backend.history, pid);
    ok := backend.SetRegs(pid, lwp, regs.value.(rip := address));
  }
}
