/** The backend the bridge drives, as an abstract target: any call may fail, and
    a history of calls says what a debugger did to it. */
module RspBackend {
  import opened Bytes
  import opened GdbRegs

  /** Successful attaches and detaches, placed and removed software
      breakpoints, and every attempt to use the debugged process or to halt it. */
  datatype Event = Attach(pid: int) | Detach | Place(address: nat) | Remove(address: nat) | Use(pid: int) | Halt

  /** What the backend has been made to do: let the process run or one thread of
      it step, set and clear traps in memory, hardware breakpoints and
      watchpoints, kill. */
  datatype Order =
    | Ran
    | Stepped(lwp: int)
    | Trapped(address: nat)
    | Guarded(address: nat)
    | Cleared(address: nat)
    | Watched(address: nat, length: nat, access: nat)
    | Unwatched(address: nat)
    | Killed(pid: int)

  function Done(orders: seq<Order>, ok: bool, order: Order): seq<Order> { if ok then orders + [order] else orders }

  datatype History = Begin | After(earlier: History, last: Event)
  {
    function Then(e: Event): History { After(this, e) }

    function Events(): seq<Event> { if Begin? then [] else earlier.Events() + [last] }

    function Length(): nat { if Begin? then 0 else earlier.Length() + 1 }

    /** The process a debugger is attached to. */
    function Session(): Option<int> {
      if Begin? then None
      else match last
        case Attach(pid) => Some(pid)
        case Detach => None
        case _ => earlier.Session()
    }

    /** Where software breakpoints have been placed since the attach. */
    function Placed(): set<nat> {
      if Begin? then {}
      else match last
        case Attach(_) => {}
        case Detach => {}
        case Place(a) => earlier.Placed() + {a}
        case _ => earlier.Placed()
    }

    /** Attaches and detaches alternate, the process is used only while attached
        to it, and it is halted right before it is left. */
    predicate Orderly() {
      Begin? ||
      (earlier.Orderly() &&
       match last
       case Attach(_) => earlier.Session() == None
       case Use(pid) => earlier.Session() == Some(pid)
       case Detach => earlier.Session().Some? && earlier.last.Halt?
       case _ => earlier.Session().Some?)
    }
  }

  /** From `h0` to `h` the process was only used. */
  ghost predicate OnlyUsed(h0: History, h: History, pid: int) {
    && h.Session() == h0.Session() && h.Placed() == h0.Placed() && h0.Length() <= h.Length()
    && (h0.Orderly() && h0.Session() == Some(pid) ==> h.Orderly())
  }

  lemma UseIsUse(h: History, pid: int)
    ensures OnlyUsed(h, h.Then(Use(pid)), pid) && h.Then(Use(pid)).Length() == h.Length() + 1
  {}

  // ------------------------------------------------ what an orderly history is

  /** No attach or detach after event `i`. */
  ghost predicate Undisturbed(events: seq<Event>, i: nat) {
    forall k :: i < k < |events| ==> !events[k].Attach? && !events[k].Detach?
  }

  /** A session goes back to its attach. */
  lemma {:induction false} SessionSince(h: History) returns (i: nat)
    requires h.Session().Some?
    ensures i < |h.Events()| && h.Events()[i] == Attach(h.Session().value) && Undisturbed(h.Events(), i)
  {
    if h.last.Attach? { i := |h.earlier.Events()|; } else { i := SessionSince(h.earlier); }
  }

  lemma {:induction false} NoSessionSince(h: History, i: nat) returns (k: nat)
    requires h.Session() == None && i < |h.Events()| && h.Events()[i].Attach?
    ensures i < k < |h.Events()| && h.Events()[k].Detach?
  {
    if h.last.Detach? { k := |h.earlier.Events()|; } else { k := NoSessionSince(h.earlier, i); }
  }

  /** Between two attaches there is a detach. */
  lemma {:induction false} AttachesAlternate(h: History, i: nat, j: nat) returns (k: nat)
    requires h.Orderly() && i < j < |h.Events()| && h.Events()[i].Attach? && h.Events()[j].Attach?
    ensures i < k < j && h.Events()[k].Detach?
  {
    if j == |h.earlier.Events()| {
      k := NoSessionSince(h.earlier, i);
    } else {
      k := AttachesAlternate(h.earlier, i, j);
    }
  }

  /** Between two detaches there is an attach. */
  lemma {:induction false} DetachesAlternate(h: History, i: nat, j: nat) returns (k: nat)
    requires h.Orderly() && i < j < |h.Events()| && h.Events()[i].Detach? && h.Events()[j].Detach?
    ensures i < k < j && h.Events()[k].Attach?
  {
    if j == |h.earlier.Events()| {
      k := SessionSince(h.earlier);
      assert h.earlier.Events()[i].Detach?;
    } else {
      k := DetachesAlternate(h.earlier, i, j);
    }
  }

  /** Every use of a process comes after an attach to it, with nothing between
      that ends the session. */
  lemma {:induction false} UsesAreInSession(h: History, j: nat) returns (i: nat)
    requires h.Orderly() && j < |h.Events()| && h.Events()[j].Use?
    ensures i < j && h.Events()[i] == Attach(h.Events()[j].pid) && Undisturbed(h.Events()[..j], i)
  {
    if j == |h.earlier.Events()| {
      i := SessionSince(h.earlier);
      assert h.Events()[..j] == h.earlier.Events();
    } else {
      i := UsesAreInSession(h.earlier, j);
      assert h.Events()[..j] == h.earlier.Events()[..j];
    }
  }

  /** A process is halted right before it is left, so that no thread runs into a
      trap being taken out. */
  lemma {:induction false} HaltedBeforeDetach(h: History, j: nat)
    requires h.Orderly() && j < |h.Events()| && h.Events()[j].Detach?
    ensures 0 < j && h.Events()[j - 1].Halt?
  {
    if j == |h.earlier.Events()| {
      assert h.earlier.Events() == h.earlier.earlier.Events() + [h.earlier.last];
    } else {
      HaltedBeforeDetach(h.earlier, j);
    }
  }

  /** A breakpoint counted as placed was placed in the current session. */
  lemma {:induction false} PlacedSince(h: History, a: nat) returns (i: nat)
    requires a in h.Placed()
    ensures i < |h.Events()| && h.Events()[i] == Place(a) && Undisturbed(h.Events(), i)
  {
    if h.last == Place(a) { i := |h.earlier.Events()|; } else { i := PlacedSince(h.earlier, a); }
  }

  lemma AttachBegins(h: History, pid: int)
    ensures h.Then(Attach(pid)).Session() == Some(pid) && h.Then(Attach(pid)).Placed() == {}
    ensures h.Orderly() && h.Session() == None ==> h.Then(Attach(pid)).Orderly()
  {}

  /** Read as zero where nothing is mapped. */
  function ByteAt(mem: map<nat, Byte>, a: nat): Byte { if a in mem then mem[a] else 0 }

  function Contents(mem: map<nat, Byte>, a: nat, n: nat): (s: seq<Byte>)
    ensures |s| == n && forall k :: 0 <= k < n ==> s[k] == ByteAt(mem, a + k)
  {
    if n == 0 then [] else Contents(mem, a, n - 1) + [ByteAt(mem, a + n - 1)]
  }

  /** Memory as it is without breakpoints. */
  function Overlay(mem: map<nat, Byte>, under: map<nat, Byte>, a: nat): Byte {
    if a in under then under[a] else ByteAt(mem, a)
  }

  function Stored(mem: map<nat, Byte>, a: nat, data: seq<Byte>): (m: map<nat, Byte>)
    ensures forall x: nat :: ByteAt(m, x) == if a <= x < a + |data| then data[x - a] else ByteAt(mem, x)
    decreases |data|
  {
    if data == [] then mem else Stored(mem[a := data[0]], a + 1, data[1..])
  }

  datatype Region = Region(start: nat, end: nat)
  datatype Thread = Thread(lwp: int, signal: int)

  const INT3: Byte := 0xCC

  /** Failed calls, one more if this one failed. */
  function Counted(faults: nat, ok: bool): nat { if ok then faults else faults + 1 }

  class Backend {
    ghost var history: History
    /** Memory as a read shows it, traps included. */
    var mem: map<nat, Byte>
    /** What the traps replaced. */
    var under: map<nat, Byte>
    /** The registers of each thread, and whether those beyond the core ones can
        be had. */
    var cpu: map<int, Regs>
    var fpu: map<int, Fpregs>
    const present: bool
    /** The threads and the memory map of the process. */
    var tasks: seq<Thread>
    var regions: seq<Region>
    /** Whether a breakpoint is refused where a trap stands, as the payload does. */
    const strict: bool
    /** How many calls have failed or fallen short. */
    ghost var faults: nat
    /** The registers with which the process was last let run. */
    ghost var launched: map<int, Regs>
    /** What it has carried out. */
    ghost var orders: seq<Order>
    /** How often it has been told to halt, and the threads it said had stopped. */
    ghost var halts: nat
    ghost var stops: seq<int>

    constructor (present: bool, strict: bool)
      ensures history == Begin && under == map[] && this.present == present && this.strict == strict
    {
      history, mem, under, cpu, fpu := Begin, map[], map[], map[], map[];
      tasks, regions, faults, launched, orders, halts, stops := [], [], 0, map[], [], 0, [];
      this.present, this.strict := present, strict;
    }

    /** The floating-point record of a thread, empty if there is none to be had. */
    ghost function FpOf(lwp: int): Fpregs
      reads this
    {
      if present && lwp in fpu then fpu[lwp] else NoFpregs
    }

    /** All registers of a thread as they read. */
    ghost function Seen(lwp: int): (s: Snapshot)
      reads this
      requires lwp in cpu
      ensures |s.fx| == FPREGS_MAX
    {
      GdbRegs.Seen(cpu[lwp], FpOf(lwp), present)
    }

    method Attach(pid: int) returns (ok: bool)
      modifies this
      ensures launched == old(launched) && orders == old(orders) && stops == old(stops) && halts >= old(halts)
      ensures faults == Counted(old(faults), ok)
      ensures ok ==> history == old(history).Then(Event.Attach(pid)) && under == map[]
      ensures !ok ==> history == old(history) && under == old(under) && mem == old(mem)
    {
      ok := *;
      faults := Counted(faults, ok);
      if ok {
        history, under := history.Then(Event.Attach(pid)), map[];
        mem, cpu, fpu, tasks, regions := *, *, *, *, *;
      }
    }

    /** Detaching takes the traps out. */
    method Detach() returns (ok: bool)
      modifies this
      ensures launched == old(launched) && orders == old(orders) && stops == old(stops) && halts >= old(halts)
      ensures faults == Counted(old(faults), ok)
      ensures ok ==> history == old(history).Then(Event.Detach) && under == map[]
      ensures !ok ==> history == old(history) && under == old(under) && mem == old(mem)
    {
      ok := *;
      faults := Counted(faults, ok);
      if ok {
        history, mem, under := history.Then(Event.Detach), mem + under, map[];
      }
    }

    /** Asking what stopped the process. */
    method Inspect(ghost pid: int) returns (ok: bool)
      modifies this`history, this`faults
      ensures history == old(history).Then(Use(pid)) && faults == Counted(old(faults), ok)
    {
      history := history.Then(Use(pid));
      ok := *;
      faults := Counted(faults, ok);
    }

    /** Letting the process run: memory, registers, threads and maps change. */
    method Run(ghost pid: int) returns (ok: bool)
      modifies this`history, this`faults, this`launched, this`orders
      modifies this`mem, this`cpu, this`fpu, this`tasks, this`regions
      ensures history == old(history).Then(Use(pid)) && faults == Counted(old(faults), ok) && launched == old(cpu)
      ensures orders == Done(old(orders), ok, Ran)
    {
      history := history.Then(Use(pid));
      ok := *;
      faults, launched, orders := Counted(faults, ok), cpu, Done(orders, ok, Ran);
      mem, cpu, fpu, tasks, regions := *, *, *, *, *;
    }

    /** One step of one thread. */
    method Step(ghost pid: int, lwp: int) returns (ok: bool)
      modifies this`history, this`faults, this`launched, this`orders
      modifies this`mem, this`cpu, this`fpu, this`tasks, this`regions
      ensures history == old(history).Then(Use(pid)) && faults == Counted(old(faults), ok) && launched == old(cpu)
      ensures orders == Done(old(orders), ok, Stepped(lwp))
    {
      history := history.Then(Use(pid));
      ok := *;
      faults, launched, orders := Counted(faults, ok), cpu, Done(orders, ok, Stepped(lwp));
      mem, cpu, fpu, tasks, regions := *, *, *, *, *;
    }

    /** Stopping it, which takes a while. */
    method Stop(ghost pid: int) returns (ok: bool)
      modifies this`history, this`faults, this`halts, this`mem, this`cpu, this`fpu, this`tasks, this`regions
      ensures history == old(history).Then(Use(pid)).Then(Halt) && faults == Counted(old(faults), ok)
      ensures halts == old(halts) + 1
    {
      history, halts := history.Then(Use(pid)).Then(Halt), halts + 1;
      ok := *;
      faults := Counted(faults, ok);
      mem, cpu, fpu, tasks, regions := *, *, *, *, *;
    }

    /** A read may fail or fall short. */
    method Read(pid: int, address: nat, length: nat) returns (data: Option<seq<Byte>>)
      modifies this`history, this`faults
      ensures history == old(history).Then(Use(pid))
      ensures faults == Counted(old(faults), data.Some? && |data.value| == length)
      ensures data.Some? ==> |data.value| <= length && data.value == Contents(mem, address, |data.value|)
    {
      history := history.Then(Use(pid));
      var ok: bool := *;
      var n: int := *;
      ok := ok && 0 <= n <= length;
      faults := Counted(faults, ok && n == length);
      return if ok then Some(Contents(mem, address, n)) else None;
    }

    /** A write may fail or fall short. */
    method Write(pid: int, address: nat, data: seq<Byte>) returns (written: Option<nat>)
      modifies this`history, this`faults, this`mem
      ensures history == old(history).Then(Use(pid)) && faults == Counted(old(faults), written == Some(|data|))
      ensures written.Some? ==> written.value <= |data| && mem == Stored(old(mem), address, data[..written.value])
      ensures written.None? ==> mem == old(mem)
    {
      history := history.Then(Use(pid));
      var n: int := *;
      faults := Counted(faults, n == |data|);
      if n < 0 || n > |data| { return None; }
      mem := Stored(mem, address, data[..n]);
      return Some(n);
    }

    /** Puts a trap in place of a byte, unless there is one already. */
    method SetBreakpoint(ghost pid: int, address: nat) returns (ok: bool)
      modifies this`history, this`faults, this`orders, this`mem, this`under
      ensures history == (if ok then old(history).Then(Use(pid)).Then(Place(address)) else old(history).Then(Use(pid)))
      ensures faults == Counted(old(faults), ok) && (strict && address in old(under) ==> !ok)
      ensures orders == Done(old(orders), ok, Trapped(address))
      ensures !ok || address in old(under) ==> mem == old(mem) && under == old(under)
      ensures ok && address !in old(under) ==>
        mem == old(mem)[address := INT3] && under == old(under)[address := ByteAt(old(mem), address)]
    {
      history := history.Then(Use(pid));
      ok := *;
      if strict && address in under { ok := false; }
      faults, orders := Counted(faults, ok), Done(orders, ok, Trapped(address));
      if ok {
        if address !in under {
          mem, under := mem[address := INT3], under[address := ByteAt(mem, address)];
        }
        history := history.Then(Place(address));
      }
    }

    /** Takes a trap out again, or a hardware breakpoint. */
    method ClearBreakpoint(ghost pid: int, address: nat) returns (ok: bool)
      modifies this`history, this`faults, this`orders, this`mem, this`under
      ensures history == (if ok then old(history).Then(Use(pid)).Then(Remove(address)) else old(history).Then(Use(pid)))
      ensures faults == Counted(old(faults), ok) && orders == Done(old(orders), ok, Cleared(address))
      ensures !ok || address !in old(under) ==> mem == old(mem) && under == old(under)
      ensures ok && address in old(under) ==>
        mem == old(mem)[address := old(under)[address]] && under == old(under) - {address}
    {
      history := history.Then(Use(pid));
      ok := *;
      faults, orders := Counted(faults, ok), Done(orders, ok, Cleared(address));
      if ok {
        if address in under {
          mem, under := mem[address := under[address]], under - {address};
        }
        history := history.Then(Remove(address));
      }
    }

    /** Hardware breakpoints and watchpoints leave memory alone. */
    method SetHardware(ghost pid: int, address: nat) returns (ok: bool)
      modifies this`history, this`faults, this`orders
      ensures history == old(history).Then(Use(pid)) && faults == Counted(old(faults), ok)
      ensures orders == Done(old(orders), ok, Guarded(address))
    {
      history := history.Then(Use(pid));
      ok := *;
      faults, orders := Counted(faults, ok), Done(orders, ok, Guarded(address));
    }

    method SetWatchpoint(ghost pid: int, address: nat, length: nat, access: nat) returns (ok: bool)
      modifies this`history, this`faults, this`orders
      ensures history == old(history).Then(Use(pid)) && faults == Counted(old(faults), ok)
      ensures orders == Done(old(orders), ok, Watched(address, length, access))
    {
      history := history.Then(Use(pid));
      ok := *;
      faults, orders := Counted(faults, ok), Done(orders, ok, Watched(address, length, access));
    }

    method ClearWatchpoint(ghost pid: int, address: nat) returns (ok: bool)
      modifies this`history, this`faults, this`orders
      ensures history == old(history).Then(Use(pid)) && faults == Counted(old(faults), ok)
      ensures orders == Done(old(orders), ok, Unwatched(address))
    {
      history := history.Then(Use(pid));
      ok := *;
      faults, orders := Counted(faults, ok), Done(orders, ok, Unwatched(address));
    }

    method GetRegs(ghost pid: int, lwp: int) returns (r: Option<Regs>)
      modifies this`history, this`faults
      ensures history == old(history).Then(Use(pid)) && faults == Counted(old(faults), r.Some?)
      ensures r.Some? ==> lwp in cpu && r.value == cpu[lwp]
    {
      history := history.Then(Use(pid));
      var ok: bool := *;
      ok := ok && lwp in cpu;
      faults := Counted(faults, ok);
      return if ok then Some(cpu[lwp]) else None;
    }

    method SetRegs(ghost pid: int, lwp: int, regs: Regs) returns (ok: bool)
      modifies this`history, this`faults, this`cpu
      ensures history == old(history).Then(Use(pid)) && faults == Counted(old(faults), ok)
      ensures cpu == if ok then old(cpu)[lwp := regs] else old(cpu)
    {
      history := history.Then(Use(pid));
      ok := *;
      faults := Counted(faults, ok);
      if ok { cpu := cpu[lwp := regs]; }
    }

    method GetFpregs(ghost pid: int, lwp: int) returns (r: Option<Fpregs>)
      modifies this`history, this`faults
      ensures history == old(history).Then(Use(pid)) && faults == Counted(old(faults), r.Some?)
      ensures r.Some? ==> lwp in fpu && r.value == fpu[lwp]
    {
      history := history.Then(Use(pid));
      var ok: bool := *;
      ok := ok && lwp in fpu;
      faults := Counted(faults, ok);
      return if ok then Some(fpu[lwp]) else None;
    }

    method SetFpregs(ghost pid: int, lwp: int, fpregs: Fpregs) returns (ok: bool)
      modifies this`history, this`faults, this`fpu
      ensures history == old(history).Then(Use(pid)) && faults == Counted(old(faults), ok)
      ensures fpu == if ok then old(fpu)[lwp := fpregs] else old(fpu)
    {
      history := history.Then(Use(pid));
      ok := *;
      faults := Counted(faults, ok);
      if ok { fpu := fpu[lwp := fpregs]; }
    }

    /** A failed call may leave any list. */
    method Threads(ghost pid: int) returns (ok: bool, threads: seq<Thread>)
      modifies this`history, this`faults
      ensures history == old(history).Then(Use(pid)) && faults == Counted(old(faults), ok) && (ok ==> threads == tasks)
    {
      history := history.Then(Use(pid));
      ok, threads := *, *;
      faults := Counted(faults, ok);
      if ok { threads := tasks; }
    }

    method Poll(ghost pid: int) returns (ok: bool, stopped: bool, lwp: int)
      modifies this`history, this`faults, this`stops, this`mem, this`cpu, this`fpu, this`tasks, this`regions
      ensures history == old(history).Then(Use(pid)) && faults == Counted(old(faults), ok)
      ensures stops == if ok && stopped then old(stops) + [lwp] else old(stops)
    {
      history := history.Then(Use(pid));
      ok, stopped, lwp := *, *, *;
      faults, stops := Counted(faults, ok), if ok && stopped then stops + [lwp] else stops;
      mem, cpu, fpu, tasks, regions := *, *, *, *, *;
    }

    /** Maps, process lists and kills need no session. */
    method Maps(pid: int) returns (maps: Option<seq<Region>>)
      modifies this`faults
      ensures faults == Counted(old(faults), maps.Some?) && (maps.Some? ==> maps.value == regions)
    {
      var ok: bool := *;
      faults := Counted(faults, ok);
      return if ok then Some(regions) else None;
    }

    method Info(pid: int) returns (ok: bool)
      modifies this`faults
      ensures faults == Counted(old(faults), ok)
    {
      ok := *;
      faults := Counted(faults, ok);
    }

    method Kill(pid: int) returns (ok: bool)
      modifies this`faults, this`orders
      ensures faults == Counted(old(faults), ok) && orders == Done(old(orders), ok, Killed(pid))
    {
      ok := *;
      faults, orders := Counted(faults, ok), Done(orders, ok, Killed(pid));
    }
  }

  /** No call has failed. */
  twostate predicate Quiet(backend: Backend)
    reads backend
  {
    backend.faults == old(backend.faults)
  }
}
