/** The debug session: what every packet keeps, whatever the backend does. */
module RspSession {
  import opened Bytes
  import opened Hex
  import opened RspBackend
  import opened RspMemory
  import opened RspRegisters
  import GdbRegs

  /** Packets with their arguments read; None where the text is malformed. */
  datatype Command =
    | Status
    | SelectThread(which: char, target: Option<(int, int)>)
    | ThreadAlive(target: Option<(int, int)>)
    | ReadRegisters
    | WriteRegisters(text: seq<Byte>)
    | ReadRegister(number: Option<nat>)
    | WriteRegister(number: Option<nat>, text: seq<Byte>)
    | ReadMem(range: Option<(nat, nat)>)
    | WriteMem(range: Option<(nat, nat)>, data: Option<seq<Byte>>)
    | Search(separated: bool, range: Option<(nat, nat)>, pattern: seq<Byte>)
    | Resume(step: bool, wellFormed: bool, address: Option<GdbRegs.U64>)
    | Continue(action: Option<(bool, int)>)
    | Breakpoint(enable: bool, kind: char, place: Option<(nat, nat)>)
    | DetachFrom(matches: bool)
    | KillCurrent
    | AttachTo(target: Option<(int, int)>)
    | KillProcess(victim: Option<int>)
    | FetchMaps(again: bool)
    | FetchThreads(again: bool)
    | FetchPath
    | ThreadInfo(target: Option<(int, int)>)
    | ThreadStop(target: Option<(int, int)>)
    | Other

  /** What the handler's table says, what memory shows, and what the traps
      replaced; the members say what a packet that succeeds does to them. */
  datatype View = View(table: map<nat, Byte>, mem: map<nat, Byte>, under: map<nat, Byte>)
  {
    predicate Truthful() { table == under }

    /** `Z0`: the byte is read before the trap goes in. */
    function Insert(a: nat): View {
      var v := this.(table := table[a := ByteAt(mem, a)]);
      if a in under then v else v.(mem := mem[a := INT3], under := under[a := ByteAt(mem, a)])
    }

    /** `z1`: one backend call clears either kind, and the table is left alone. */
    function Clear(a: nat): View {
      if a in under then this.(mem := mem[a := under[a]], under := under - {a}) else this
    }

    /** `z0`. */
    function Remove(a: nat): View { Clear(a).(table := table - {a}) }

    /** `M` and `X`. */
    function Write(a: nat, data: seq<Byte>): View { this.(mem := Stored(mem, a, data)) }

    /** What a read answers. */
    function Reads(a: nat, n: nat): seq<Byte> { Shown(mem, table, a, n) }

    /** Memory without breakpoints. */
    function Plain(a: nat, n: nat): seq<Byte> { Shown(mem, under, a, n) }

    /** Memory without breakpoints, as a map. */
    function Bare(): map<nat, Byte> { mem + under }

    ghost predicate Shows(plain: map<nat, Byte>) { forall a: nat :: Overlay(mem, under, a) == ByteAt(plain, a) }

    /** Every table entry of the range is the byte without breakpoints, and a
        trap the table misses shows that byte already. */
    ghost predicate Accurate(a: nat, n: nat) {
      forall x :: a <= x < a + n ==>
        && (x in table ==> table[x] == Overlay(mem, under, x))
        && (x in under && x !in table ==> under[x] == ByteAt(mem, x))
    }
  }

  /** A read shows memory without breakpoints exactly when the table is accurate
      in its range. */
  lemma {:induction false} ReadIsRight(v: View, a: nat, n: nat)
    ensures HexText(v.Reads(a, n)) == HexText(v.Plain(a, n)) <==> v.Accurate(a, n)
  {
    var s, t := v.Reads(a, n), v.Plain(a, n);
    if HexText(s) == HexText(t) {
      UnhexHex(s);
      UnhexHex(t);
      forall x | a <= x < a + n
        ensures x in v.table ==> v.table[x] == Overlay(v.mem, v.under, x)
        ensures x in v.under && x !in v.table ==> v.under[x] == ByteAt(v.mem, x)
      {
        assert s[x - a] == t[x - a];
      }
    }
    if v.Accurate(a, n) {
      forall k | 0 <= k < n ensures s[k] == t[k] { assert a <= a + k < a + n; }
    }
  }

  /** Inserting where the table lists a breakpoint keeps it truthful only if
      the trap reads as the byte it replaced. */
  lemma {:induction false} InsertTruthful(v: View, a: nat)
    requires v.Truthful()
    ensures v.Insert(a).Truthful() <==> a !in v.table || v.table[a] == ByteAt(v.mem, a)
  {
    if v.Insert(a).Truthful() && a in v.table { assert v.Insert(a).table[a] == v.under[a]; }
  }

  /** `z1` keeps the table truthful exactly where it lists nothing. */
  lemma {:induction false} ClearTruthful(v: View, a: nat)
    requires v.Truthful()
    ensures v.Clear(a).Truthful() <==> a !in v.table
  {
    assert a !in v.Clear(a).under;
  }

  /** The failing run: `Z0` and `z1` at one address leave a stale entry, which a
      read cannot tell until the byte changes; then it shows the old byte. */
  lemma {:induction false} StaleEntry(v: View, a: nat, b: Byte)
    requires v.Truthful() && a !in v.table
    ensures var w := v.Insert(a).Clear(a);
            && !w.Truthful() && (forall x, n :: w.Accurate(x, n))
            && w.Write(a, [b]).Plain(a, 1) == [b] && w.Write(a, [b]).Reads(a, 1) == [ByteAt(v.mem, a)]
            && (w.Write(a, [b]).Accurate(a, 1) <==> b == ByteAt(v.mem, a))
  {
    var w := v.Insert(a).Clear(a);
    assert a in w.table && a !in w.under;
    var u := w.Write(a, [b]);
    assert u.Plain(a, 1)[0] == ByteAt(u.mem, a) == [b][0];
    assert u.Reads(a, 1)[0] == u.table[a];
  }

  /** With nothing in memory but 0x90 at address zero, and 0xC3 written. */
  lemma {:induction false} StaleReadDiffers()
    ensures var w := View(map[], map[0 := 0x90], map[]).Insert(0).Clear(0).Write(0, [0xC3]);
            HexText(w.Reads(0, 1)) != HexText(w.Plain(0, 1))
  {
    var v := View(map[], map[0 := 0x90], map[]);
    StaleEntry(v, 0, 0xC3);
    ReadIsRight(v.Insert(0).Clear(0).Write(0, [0xC3]), 0, 1);
  }

  /** Inserting twice makes the table take the trap for the byte it replaced. */
  lemma {:induction false} InsertTwice(v: View, a: nat)
    requires v.Truthful() && a !in v.table
    ensures var w := v.Insert(a).Insert(a);
            w.Reads(a, 1) == [INT3] && w.Plain(a, 1) == [ByteAt(v.mem, a)]
              && (w.Truthful() <==> ByteAt(v.mem, a) == INT3)
  {
    var w := v.Insert(a);
    InsertTruthful(v, a);
    InsertTruthful(w, a);
    assert w.Insert(a).Reads(a, 1)[0] == w.Insert(a).table[a];
    assert w.Insert(a).Plain(a, 1)[0] == w.under[a];
  }

  class Handler {
    const backend: Backend
    var pid: int
    var attached: bool
    var generalThread: int
    var continueThread: int
    var stopLwp: int
    var stopSignal: int
    var threads: seq<Thread>
    var maps: seq<Region>
    var mapsKnown: bool
    var breakpoints: map<nat, Byte>

    /** The history is orderly, the handler knows where it is attached, and its
        table holds only breakpoints placed since that attach. */
    ghost predicate Valid()
      reads this, backend
    {
      && backend.history.Orderly()
      && backend.history.Session() == (if attached then Some(pid) else None)
      && breakpoints.Keys <= backend.history.Placed()
      && (!attached ==> breakpoints == map[])
    }

    /** The table tells what the traps replaced. */
    ghost predicate Transparent()
      reads this, backend
    {
      breakpoints == backend.under
    }

    ghost function Look(): View
      reads this, backend
    {
      View(breakpoints, backend.mem, backend.under)
    }

    constructor (pid: int, present: bool, strict: bool)
      ensures Valid() && Transparent() && fresh(backend)
    {
      backend := new Backend(present, strict);
      this.pid, attached, generalThread, continueThread, stopLwp, stopSignal := pid, false, 0, 0, 0, 5;
      threads, maps, mapsKnown, breakpoints := [], [], false, map[];
    }

    // --------------------------------------------------------------- answers

    /** An error that has its reason outside the packet: a call failed, or there
        is no process to attach to. */
    twostate predicate Excused(r: Reply)
      reads this, backend
    {
      r == Error(1) && (!Quiet(backend) || (!old(attached) && pid <= 0))
    }

    /** Each packet is answered as it asks, or with an error that is excused. */
    twostate predicate Answered(cmd: Command, r: Reply)
      reads this, backend
    {
      Excused(r) ||
      match cmd
      case Status => r == if attached then StopReply() else Gone
      case SelectThread(which, target) => r == SelectReply(which, target, pid, attached, threads)
      case ThreadAlive(target) => r == AliveReply(target, pid, attached, threads)
      case ReadRegisters => RegistersReply(cmd, r, backend, CurrentThread())
      case WriteRegisters(_) => RegistersReply(cmd, r, backend, CurrentThread())
      case ReadRegister(_) => RegistersReply(cmd, r, backend, CurrentThread())
      case WriteRegister(_, _) => RegistersReply(cmd, r, backend, CurrentThread())
      case ReadMem(range) => r == ReadPacket(range, Look(), maps, mapsKnown)
      case WriteMem(range, data) => r == WritePacket(range, data, maps, mapsKnown)
      case Search(separated, range, pattern) => SearchPacket(r, separated, range, pattern, backend.mem, maps, mapsKnown)
      case Resume(_, wellFormed, _) => r == if wellFormed then StopReply() else Error(1)
      case Continue(action) => r == if action.Some? then StopReply() else Error(1)
      case Breakpoint(_, kind, place) => r == BreakpointPacket(kind, place)
      case DetachFrom(matches) => r == if matches then Okay else Error(1)
      case KillCurrent => r == if old(attached && pid > 1) then Okay else Error(1)
      case AttachTo(target) =>
        if Goal(target) > 1 then r == StopReply() && attached && pid == Goal(target) else r == Error(1)
      case KillProcess(victim) =>
        r == if victim.Some? && victim.value > 1 && !(old(attached) && victim.value != old(pid)) then Okay else Error(1)
      case FetchMaps(again) => mapsKnown && r == Listing(Proper(maps)) && (again ==> maps == backend.regions)
      case FetchThreads(again) =>
        r == Tasks(Lwps(threads, pid)) && (again && Quiet(backend) ==> threads == backend.tasks)
      case FetchPath => r == Okay
      case ThreadInfo(target) => r == if target.Some? then Okay else Error(1)
      case ThreadStop(target) => ThreadStopReply(r, target, pid, threads, stopSignal)
      case Other => r == Empty
    }

    /** The backend has carried nothing out since. */
    twostate predicate Unmoved()
      reads this, backend
    {
      backend.orders == old(backend.orders) && backend.launched == old(backend.launched)
    }

    /** Of a resume: one thread has been made to step, the one named or else the
        current one, or the process has been let run; nothing only if that is
        answered by an error. */
    twostate predicate Started(step: bool, lwp: int, r: Reply)
      reads this, backend
    {
      if backend.orders == old(backend.orders) then r == Error(1)
      else
        && (r != Error(1) ==> Ended())
        && |backend.orders| == |old(backend.orders)| + 1 && old(backend.orders) <= backend.orders
        && var order := backend.orders[|old(backend.orders)|];
           if !step then order == Ran
           else order.Stepped? && (lwp != 0 ==> order.lwp == lwp)
                && (lwp == 0 && old(attached) ==> order.lwp == old(CurrentThread()))
    }

    /** How a wait ended while the session lasts: by an interrupt, for which the
        process was told to halt, or because a thread was said to have stopped,
        which is then the current one and reports its signal.  Unless a call
        fails, threads and maps are those of now. */
    twostate predicate Ended()
      reads this, backend
    {
      attached ==>
        || !Quiet(backend)
        || (stopSignal == 2 && backend.halts > old(backend.halts) && mapsKnown && maps == backend.regions)
        || (&& |backend.stops| == |old(backend.stops)| + 1
            && AtStop(backend.stops[|old(backend.stops)|])
            && threads == backend.tasks && mapsKnown && maps == backend.regions)
    }

    ghost predicate AtStop(lwp: int)
      reads this
    {
      generalThread == stopLwp && (lwp != 0 ==> stopLwp == lwp) && IsReported(stopSignal, threads, stopLwp)
    }

    /** What a packet makes the backend do: what it says if it succeeds, and
        nothing else. */
    twostate predicate Obeyed(cmd: Command, r: Reply)
      reads this, backend
    {
      match cmd
      case Resume(step, _, _) => Started(step, old(continueThread), r)
      case Continue(Some((step, lwp))) => Started(step, lwp, r)
      case Breakpoint(enable, kind, Some((a, n))) =>
        backend.orders == old(backend.orders) + if r == Okay then [OrderOf(enable, kind, a, n)] else []
      case DetachFrom(_) => backend.orders == old(backend.orders) && (r == Okay ==> !attached)
      case KillCurrent =>
        && backend.orders == Done(old(backend.orders), r == Okay, Killed(old(pid))) && (r == Okay ==> !attached)
      case KillProcess(Some(victim)) =>
        && backend.orders == Done(old(backend.orders), r == Okay, Killed(victim)) && (r == Okay ==> !attached)
      case _ => backend.orders == old(backend.orders)
    }

    /** What every packet is sure of. */
    twostate predicate Served(cmd: Command, r: Reply)
      reads this, backend
    {
      backend.faults >= old(backend.faults) && Answered(cmd, r) && Obeyed(cmd, r)
    }

    // ------------------------------------------------------------ attachment

    /** Unless the call fails, the threads are those of the process. */
    method RefreshThreads()
      requires Valid()
      modifies this`threads, backend`history, backend`faults
      ensures Valid() && backend.faults >= old(backend.faults)
      ensures Quiet(backend) ==> threads == if attached then backend.tasks else []
    {
      threads := [];
      if !attached { return; }
      UseIsUse(backend.history, pid);
      var _, list := backend.Threads(pid);
      threads := list;
    }

    method RefreshMaps() returns (ok: bool)
      modifies this`maps, this`mapsKnown, backend`faults
      ensures ok == mapsKnown && maps == if ok then backend.regions else []
      ensures backend.faults == Counted(old(backend.faults), ok)
    {
      var answer := backend.Maps(pid);
      if answer.None? {
        maps, mapsKnown := [], false;
        return false;
      }
      maps, mapsKnown := answer.value, true;
      return true;
    }

    /** Threads and maps are those of the process now. */
    ghost predicate Fresh()
      reads this, backend
    {
      threads == backend.tasks && mapsKnown && maps == backend.regions
    }

    /** Takes up a session that has just been attached. */
    method Arrive()
      requires Valid() && attached
      modifies this`threads, this`stopLwp, this`generalThread, this`maps, this`mapsKnown, backend`history,
               backend`faults
      ensures backend.faults >= old(backend.faults)
      ensures Valid() && (threads != [] ==> generalThread == stopLwp == threads[0].lwp)
      ensures threads == [] ==> generalThread == old(generalThread) && stopLwp == old(stopLwp)
      ensures Quiet(backend) ==> Fresh()
    {
      RefreshThreads();
      if threads != [] {
        stopLwp := threads[0].lwp;
        generalThread := stopLwp;
      }
      var _ := RefreshMaps();
    }

    method EnsureAttached() returns (ok: bool)
      requires Valid()
      modifies this, backend
      ensures Valid() && ok == attached && pid == old(pid) && continueThread == old(continueThread) && Unmoved()
      ensures backend.faults >= old(backend.faults) && (!ok ==> Excused(Error(1)))
      ensures old(attached) ==> attached && backend.history == old(backend.history) && Quiet(backend)
      ensures old(attached) ==>
        mapsKnown == old(mapsKnown) && maps == old(maps) && CurrentThread() == old(CurrentThread())
      ensures old(attached) ==> backend.cpu == old(backend.cpu) && backend.fpu == old(backend.fpu)
      ensures old(attached) ==> backend.mem == old(backend.mem) && backend.under == old(backend.under)
      ensures breakpoints == old(breakpoints) && (old(Transparent()) ==> Transparent())
      ensures !old(attached) && attached && threads != [] ==> generalThread == stopLwp == threads[0].lwp
      ensures !old(attached) && attached && Quiet(backend) ==> Fresh()
      ensures backend.stops == old(backend.stops) && backend.halts >= old(backend.halts)
    {
      if attached { return true; }
      if pid <= 0 { return false; }
      ok := AttachNow();
    }

    method AttachNow() returns (ok: bool)
      requires Valid() && !attached
      modifies this, backend
      ensures Valid() && ok == attached && pid == old(pid) && continueThread == old(continueThread) && Unmoved()
      ensures backend.faults >= old(backend.faults) && (!ok ==> !Quiet(backend))
      ensures breakpoints == old(breakpoints) && (old(Transparent()) ==> Transparent())
      ensures attached && threads != [] ==> generalThread == stopLwp == threads[0].lwp
      ensures attached && Quiet(backend) ==> Fresh()
      ensures backend.stops == old(backend.stops) && backend.halts >= old(backend.halts)
    {
      ghost var h := backend.history;
      AttachBegins(h, pid);
      ok := backend.Attach(pid);
      if !ok { return; }
      attached := true;
      assert Valid();
      Arrive();
    }

    /** Stops the process and detaches; a failed detach changes nothing. */
    method SafeDetach() returns (ok: bool)
      requires Valid()
      modifies this, backend
      ensures Valid() && ok == !attached && pid == old(pid) && Unmoved()
      ensures backend.faults >= old(backend.faults) && (!ok ==> !Quiet(backend))
      ensures old(Transparent()) ==> Transparent()
      ensures !ok ==>
        breakpoints == old(breakpoints) && threads == old(threads) && maps == old(maps) && mapsKnown == old(mapsKnown)
      ensures ok && old(attached) ==>
        && stopLwp == 0 && stopSignal == 5 && generalThread == 0 && continueThread == 0
        && threads == [] && maps == [] && !mapsKnown && breakpoints == map[]
    {
      if !attached { return true; }
      UseIsUse(backend.history, pid);
      var _ := backend.Stop(pid);
      ok := Depart();
    }

    /** The end of a session, the process being halted. */
    method Depart() returns (ok: bool)
      requires Valid() && attached && backend.history.last == Halt
      modifies this, backend
      ensures Valid() && ok == !attached && pid == old(pid) && Unmoved()
      ensures backend.faults == Counted(old(backend.faults), ok) && (old(Transparent()) ==> Transparent())
      ensures !ok ==>
        breakpoints == old(breakpoints) && threads == old(threads) && maps == old(maps) && mapsKnown == old(mapsKnown)
      ensures ok ==>
        && stopLwp == 0 && stopSignal == 5 && generalThread == 0 && continueThread == 0
        && threads == [] && maps == [] && !mapsKnown && breakpoints == map[]
    {
      ok := backend.Detach();
      if !ok { return; }
      attached, stopLwp, stopSignal, generalThread, continueThread := false, 0, 5, 0, 0;
      threads, maps, mapsKnown, breakpoints := [], [], false, map[];
    }

    function CurrentThread(): int
      reads this
    {
      if generalThread > 0 then generalThread
      else if stopLwp > 0 then stopLwp
      else if threads != [] && threads[0].lwp > 0 then threads[0].lwp
      else if pid > 0 then pid
      else 0
    }

    function StopReply(): Reply
      reads this
    {
      Stopped(stopSignal, if stopLwp > 0 then stopLwp else CurrentThread())
    }

    // ------------------------------------------------------------ run control

    /** Asks the backend for the watchpoint or breakpoint that stopped it. */
    method CaptureStopReason(lwp: int)
      requires Valid() && attached
      modifies backend`history, backend`faults
      ensures Valid() && backend.faults >= old(backend.faults)
    {
      if lwp <= 0 { return; }
      UseIsUse(backend.history, pid);
      var ok := backend.Inspect(pid);
      if ok {
        UseIsUse(backend.history, pid);
        ok := backend.Inspect(pid);
      }
      UseIsUse(backend.history, pid);
      ok := backend.Inspect(pid);
    }

    /** The signal the stopped thread reports, if it is one. */
    method ReportedSignal() returns (signal: int)
      ensures IsReported(signal, threads, stopLwp)
    {
      var i := 0;
      while i < |threads|
        invariant i <= |threads| && forall j :: 0 <= j < i ==> !Reports(threads[j], stopLwp)
      {
        if threads[i].lwp == stopLwp && 0 < threads[i].signal <= 0xFF { return threads[i].signal; }
        i := i + 1;
      }
      return 5;
    }

    method AfterStop(lwp: int) returns (r: Reply)
      requires Valid() && attached
      modifies this`stopLwp, this`stopSignal, this`threads, this`generalThread, this`maps, this`mapsKnown
      modifies backend`history, backend`faults
      ensures backend.faults >= old(backend.faults)
      ensures Valid() && r == StopReply() && generalThread == stopLwp == (if lwp != 0 then lwp else old(stopLwp))
      ensures stopLwp > 0 ==> CurrentThread() == stopLwp && r == Stopped(stopSignal, stopLwp)
      ensures IsReported(stopSignal, threads, stopLwp)
      ensures Quiet(backend) ==> threads == backend.tasks && mapsKnown && maps == backend.regions
    {
      if lwp != 0 { stopLwp := lwp; }
      RefreshThreads();
      stopSignal := ReportedSignal();
      CaptureStopReason(stopLwp);
      generalThread := stopLwp;
      var _ := RefreshMaps();
      return StopReply();
    }

    method AfterInterrupt() returns (r: Reply)
      requires Valid() && attached
      modifies this`stopLwp, this`stopSignal, this`maps, this`mapsKnown, backend`history, backend`faults
      modifies backend`halts, backend`stops, backend`mem, backend`cpu, backend`fpu, backend`tasks, backend`regions
      ensures Valid() && r == StopReply() && stopSignal == 2 && backend.faults >= old(backend.faults)
      ensures backend.halts > old(backend.halts) && (Quiet(backend) ==> mapsKnown && maps == backend.regions)
    {
      UseIsUse(backend.history, pid);
      var _ := backend.Stop(pid);
      UseIsUse(backend.history, pid);
      var _, _, lwp := backend.Poll(pid);
      if lwp != 0 { stopLwp := lwp; }
      stopSignal := 2;
      var _ := RefreshMaps();
      return StopReply();
    }

    /** Resumes and waits. */
    method ContinueOrStep(step: bool, lwp: int) returns (r: Reply)
      requires Valid()
      modifies this, backend
      ensures Valid() && pid == old(pid) && (old(Transparent()) ==> Transparent())
      ensures backend.faults >= old(backend.faults) && (r == StopReply() || Excused(r))
      ensures r != Error(1) && old(attached) ==> backend.launched == old(backend.cpu)
      ensures Started(step, lwp, r)
    {
      var ok := EnsureAttached();
      if !ok { return Error(1); }
      UseIsUse(backend.history, pid);
      if step { ok := backend.Step(pid, if lwp != 0 then lwp else CurrentThread()); } else { ok := backend.Run(pid); }
      if !ok { return Error(1); }
      r := AwaitStop();
    }

    /** Waits for a stop, an interrupt, an error, or the bridge's own end, which
        comes after some number of rounds. */
    method AwaitStop() returns (r: Reply)
      requires Valid() && attached
      modifies this, backend
      ensures Valid() && pid == old(pid) && (old(Transparent()) ==> Transparent())
      ensures backend.faults >= old(backend.faults) && Unmoved()
      ensures r == StopReply() || (r == Error(1) && !Quiet(backend))
      ensures r != Error(1) ==> Ended()
    {
      var rounds: int := *;
      while true
        invariant Valid() && attached && pid == old(pid) && (old(Transparent()) ==> Transparent())
        invariant backend.faults >= old(backend.faults) && Unmoved()
        invariant backend.stops == old(backend.stops) && backend.halts >= old(backend.halts)
        decreases rounds
      {
        var shutdown: bool := *;
        if shutdown || rounds <= 0 {
          var _ := SafeDetach();
          return StopReply();
        }
        var interrupt: bool := *;
        if interrupt {
          r := AfterInterrupt();
          return;
        }
        UseIsUse(backend.history, pid);
        var polled, stopped, thread := backend.Poll(pid);
        if !polled { return Error(1); }
        if stopped {
          r := AfterStop(thread);
          return;
        }
        rounds := rounds - 1;
      }
    }

    method ResumeAt(step: bool, wellFormed: bool, address: Option<GdbRegs.U64>) returns (r: Reply)
      requires Valid()
      modifies this, backend
      ensures Valid() && (old(Transparent()) ==> Transparent())
      ensures Served(Resume(step, wellFormed, address), r)
      ensures r != Error(1) && old(attached) ==>
        LaunchedAt(address, backend.launched, old(backend.cpu), old(CurrentThread()))
    {
      if !wellFormed { return Error(1); }
      if address.Some? {
        var ok := EnsureAttached();
        if !ok { return Error(1); }
        ok := SetProgramCounter(backend, pid, CurrentThread(), address.value);
        if !ok { return Error(1); }
      }
      r := ContinueOrStep(step, continueThread);
    }

    // ------------------------------------------------------ attach and kill

    method VAttach(target: Option<(int, int)>) returns (r: Reply)
      requires Valid()
      modifies this, backend
      ensures Valid() && (old(Transparent()) ==> Transparent())
      ensures Served(AttachTo(target), r)
      ensures old(attached && pid == Goal(target)) ==> backend.history == old(backend.history)
    {
      if target.None? { return Error(1); }
      var (reqPid, reqTid) := target.value;
      var goal := if reqPid > 0 then reqPid else reqTid;
      if goal <= 1 { return Error(1); }
      if attached && pid == goal { return StopReply(); }
      if attached {
        var gone := SafeDetach();
        if !gone { return Error(1); }
      }
      pid := goal;
      var ok := AttachNow();
      if !ok { return Error(1); }
      return StopReply();
    }

    /** Kills a process, after leaving it if it is the one being debugged. */
    method Kill(target: int) returns (ok: bool)
      requires Valid()
      modifies this, backend
      ensures Valid() && (old(Transparent()) ==> Transparent())
      ensures ok ==> !attached && target > 1
      ensures backend.orders == Done(old(backend.orders), ok, Killed(target))
      ensures backend.faults >= old(backend.faults)
      ensures ok || !Quiet(backend) || target <= 1 || old(attached && target != pid)
      ensures target <= 1 || old(attached && target != pid) ==> !ok
    {
      if target <= 1 { return false; }
      if attached {
        if target != pid { return false; }
        var gone := SafeDetach();
        if !gone { return false; }
      }
      ok := backend.Kill(target);
    }

    // ---------------------------------------------------------- breakpoints

    /** A software breakpoint: the byte is read before the trap goes in. */
    method SoftwareBreakpoint(enable: bool, address: nat, kind: nat) returns (r: Reply)
      requires Valid() && attached
      modifies this`breakpoints, backend`history, backend`faults, backend`orders, backend`mem, backend`under
      ensures Valid()
      ensures backend.orders == old(backend.orders) + if r == Okay then [OrderOf(enable, '0', address, kind)] else []
      ensures Look() ==
        if r != Okay then old(Look()) else if enable then old(Look().Insert(address)) else old(Look().Remove(address))
      ensures old(Transparent()) ==> (Transparent() <==>
        r == Okay && enable && address in old(breakpoints) ==>
          old(breakpoints)[address] == ByteAt(old(backend.mem), address))
      ensures backend.faults >= old(backend.faults)
      ensures r == if Quiet(backend) then (if kind == 1 then Okay else Error(0x22)) else Error(1)
      ensures backend.strict && enable && address in old(backend.under) ==> r != Okay
    {
      if old(Transparent()) { InsertTruthful(old(Look()), address); }
      if kind != 1 { return Error(0x22); }
      UseIsUse(backend.history, pid);
      if enable {
        var original := backend.Read(pid, address, 1);
        if original.None? || |original.value| != 1 { return Error(1); }
        UseIsUse(backend.history, pid);
        var ok := backend.SetBreakpoint(pid, address);
        if !ok { return Error(1); }
        breakpoints := breakpoints[address := original.value[0]];
      } else {
        var ok := backend.ClearBreakpoint(pid, address);
        if !ok { return Error(1); }
        breakpoints := breakpoints - {address};
      }
      return Okay;
    }

    /** Hardware breakpoints and watchpoints leave the table alone, and memory
        too unless `z1` meets a trap. */
    method HardwareBreakpoint(enable: bool, kind: char, address: nat, length: nat) returns (r: Reply)
      requires Valid() && attached && kind != '0'
      modifies backend`history, backend`faults, backend`orders, backend`mem, backend`under
      ensures Valid()
      ensures backend.orders == old(backend.orders) + if r == Okay then [OrderOf(enable, kind, address, length)] else []
      ensures Look() == if r == Okay && kind == '1' && !enable then old(Look().Clear(address)) else old(Look())
      ensures old(Transparent()) ==>
        (Transparent() <==> !(r == Okay && kind == '1' && !enable && address in breakpoints))
      ensures backend.faults >= old(backend.faults)
      ensures r == if Quiet(backend) then BreakpointPacket(kind, Some((address, length))) else Error(1)
    {
      if kind == '1' {
        if length != 1 { return Error(0x22); }
        UseIsUse(backend.history, pid);
        var ok;
        if enable { ok := backend.SetHardware(pid, address); } else { ok := ClearHardware(address); }
        return if ok then Okay else Error(1);
      }
      if kind != '2' && kind != '3' && kind != '4' { return Empty; }
      if length >= TWO32 { return Error(0x22); }
      var bytes := if length == 0 then 1 else length;
      if bytes != 1 && bytes != 2 && bytes != 4 && bytes != 8 { return Error(0x22); }
      var access := if kind == '2' then 1 else if kind == '3' then 2 else 3;
      UseIsUse(backend.history, pid);
      var ok;
      if enable {
        ok := backend.SetWatchpoint(pid, address, bytes, access);
      } else {
        ok := backend.ClearWatchpoint(pid, address);
      }
      return if ok then Okay else Error(1);
    }

    /** Clearing is one call for both kinds, so a software trap at the address
        goes as well; the table then still lists it. */
    method ClearHardware(address: nat) returns (ok: bool)
      requires Valid() && attached
      modifies backend`history, backend`faults, backend`orders, backend`mem, backend`under
      ensures backend.orders == Done(old(backend.orders), ok, Cleared(address))
      ensures backend.faults == Counted(old(backend.faults), ok)
      ensures Valid() && Look() == if ok then old(Look().Clear(address)) else old(Look())
      ensures old(Transparent()) ==> (Transparent() <==> !ok || address !in breakpoints)
    {
      UseIsUse(backend.history, pid);
      ok := backend.ClearBreakpoint(pid, address);
      if old(Transparent()) { ClearTruthful(old(Look()), address); }
    }

    method HandleBreakpoint(enable: bool, kind: char, place: Option<(nat, nat)>) returns (r: Reply)
      requires Valid()
      modifies this, backend
      ensures Valid()
      ensures Served(Breakpoint(enable, kind, place), r)
      ensures old(attached) ==> r == if Quiet(backend) then BreakpointPacket(kind, place) else Error(1)
      ensures old(attached) ==> maps == old(maps) && mapsKnown == old(mapsKnown)
      ensures old(Transparent()) && backend.strict ==>
        (Transparent() <==> !(r == Okay && ClearsListed(Breakpoint(enable, kind, place), old(breakpoints))))
      ensures old(Transparent()) ==>
        (Transparent() <==> r != Okay || Keeps(Breakpoint(enable, kind, place), old(breakpoints), old(backend.mem)))
      ensures old(attached) ==> attached
      ensures old(attached) ==>
        Look() == if r == Okay then Applied(Breakpoint(enable, kind, place), old(Look())) else old(Look())
    {
      var ok := EnsureAttached();
      if !ok || place.None? { return Error(1); }
      var (address, length) := place.value;
      ghost var v := Look();
      if kind == '0' {
        r := SoftwareBreakpoint(enable, address, length);
      } else {
        r := HardwareBreakpoint(enable, kind, address, length);
      }
      if v.Truthful() { AppliedTruthful(Breakpoint(enable, kind, place), v); }
    }

    // --------------------------------------------------- memory and registers

    /** A reply shows memory without breakpoints exactly when the table is
        accurate in the range, as a truthful one always is. */
    method HandleRead(range: Option<(nat, nat)>) returns (r: Reply)
      requires Valid()
      modifies this, backend
      ensures Valid() && (old(Transparent()) ==> Transparent())
      ensures old(attached) ==> attached && Look() == old(Look()) && maps == old(maps) && mapsKnown == old(mapsKnown)
      ensures Served(ReadMem(range), r)
      ensures old(attached) ==> r == if Quiet(backend) then ReadPacket(range, Look(), maps, mapsKnown) else Error(1)
      ensures r.HexReply? ==> range.Some? && r.text == HexText(Look().Reads(range.value.0, range.value.1))
      ensures r.HexReply? ==>
        (r.text == HexText(Look().Plain(range.value.0, range.value.1)) <==>
         Look().Accurate(range.value.0, range.value.1))
    {
      var ok := EnsureAttached();
      if !ok || range.None? { return Error(1); }
      var (address, length) := range.value;
      r := ReadMemory(backend, pid, address, length, breakpoints, maps, mapsKnown);
      ReadIsRight(Look(), address, length);
    }

    method HandleWrite(range: Option<(nat, nat)>, data: Option<seq<Byte>>) returns (r: Reply)
      requires Valid()
      modifies this, backend
      ensures Valid() && (old(Transparent()) ==> Transparent())
      ensures old(attached) ==> attached && breakpoints == old(breakpoints) && backend.under == old(backend.under)
      ensures old(attached) ==> maps == old(maps) && mapsKnown == old(mapsKnown)
      ensures Served(WriteMem(range, data), r)
      ensures old(attached) ==> r == if Quiet(backend) then WritePacket(range, data, maps, mapsKnown) else Error(1)
      ensures r == Okay ==>
        && range.Some? && data.Some? && range.value.1 == |data.value|
        && forall k :: 0 <= k < |data.value| ==> ByteAt(backend.mem, range.value.0 + k) == data.value[k]
      ensures r == Okay && old(attached) ==> Look() == old(Look()).Write(range.value.0, data.value)
    {
      var ok := EnsureAttached();
      if !ok || range.None? { return Error(1); }
      var (address, length) := range.value;
      if length > MAX_READ || address > MAX64 - length { return Error(0x22); }
      if mapsKnown {
        var mapped := RangeMapped(maps, address, length);
        if !mapped { return Error(1); }
      }
      if data.None? || |data.value| != length { return Error(1); }
      UseIsUse(backend.history, pid);
      var written := backend.Write(pid, address, data.value);
      if written != Some(length) { return Error(1); }
      assert data.value[..length] == data.value;
      return Okay;
    }

    method HandleSearch(separated: bool, range: Option<(nat, nat)>, pattern: seq<Byte>) returns (r: Reply)
      requires Valid()
      modifies this, backend
      ensures Valid() && (old(Transparent()) ==> Transparent())
      ensures Served(Search(separated, range, pattern), r)
      ensures old(attached) ==>
        && attached && backend.mem == old(backend.mem) && maps == old(maps) && mapsKnown == old(mapsKnown)
        && if Quiet(backend) then SearchPacket(r, separated, range, pattern, backend.mem, maps, mapsKnown)
           else r == Error(1)
    {
      var ok := EnsureAttached();
      if !ok || !separated { return Error(1); }
      if range.None? { return Error(0x22); }
      r := SearchMemory(backend, pid, range.value.0, range.value.1, pattern, maps, mapsKnown);
    }

    /** Register packets concern the current thread and nothing else. */
    method HandleRegisters(cmd: Command) returns (r: Reply)
      requires Valid() && IsRegisters(cmd)
      modifies this, backend
      ensures Valid() && (old(Transparent()) ==> Transparent())
      ensures old(attached) ==>
        attached && Look() == old(Look()) && CurrentThread() == old(CurrentThread())
          && OthersKept(backend, CurrentThread())
      ensures Served(cmd, r)
      ensures old(attached) ==>
        if Quiet(backend) then RegistersReply(cmd, r, backend, CurrentThread()) else r == Error(1)
      ensures cmd.WriteRegisters? && r == Okay && old(attached) ==>
        && CurrentThread() in old(backend.cpu) && CurrentThread() in backend.cpu
        && GdbRegs.AfterPacket(old(backend.cpu)[CurrentThread()], old(backend.FpOf(CurrentThread())), backend.present,
                               Unhexed(cmd.text))
           == (backend.cpu[CurrentThread()], backend.FpOf(CurrentThread()))
      ensures cmd.WriteRegister? && r == Okay && old(attached) && CurrentThread() in old(backend.cpu) ==>
        && CurrentThread() in backend.cpu && IsValue(cmd.number, cmd.text)
        && GdbRegs.WithRegister(old(backend.cpu)[CurrentThread()], old(backend.FpOf(CurrentThread())), backend.present,
                                Named(cmd.number).value, Unhexed(cmd.text))
           == (backend.cpu[CurrentThread()], backend.FpOf(CurrentThread()))
    {
      var ok := EnsureAttached();
      if !ok { return Error(1); }
      r := RegistersOf(cmd, CurrentThread());
    }

    method RegistersOf(cmd: Command, t: int) returns (r: Reply)
      requires Valid() && attached && IsRegisters(cmd)
      modifies backend`history, backend`faults, backend`cpu, backend`fpu
      ensures Valid() && OthersKept(backend, t) && backend.faults >= old(backend.faults)
      ensures if Quiet(backend) then RegistersReply(cmd, r, backend, t) else r == Error(1)
      ensures cmd.WriteRegisters? && r == Okay ==>
        && t in old(backend.cpu) && t in backend.cpu
        && GdbRegs.AfterPacket(old(backend.cpu)[t], old(backend.FpOf(t)), backend.present, Unhexed(cmd.text))
           == (backend.cpu[t], backend.FpOf(t))
      ensures cmd.WriteRegister? && r == Okay && t in old(backend.cpu) ==>
        && t in backend.cpu && IsValue(cmd.number, cmd.text)
        && GdbRegs.WithRegister(old(backend.cpu)[t], old(backend.FpOf(t)), backend.present, Named(cmd.number).value,
                                Unhexed(cmd.text))
           == (backend.cpu[t], backend.FpOf(t))
    {
      match cmd
      case ReadRegisters => r := ReadAll(backend, pid, t);
      case WriteRegisters(text) => r := WriteAll(backend, pid, t, text);
      case ReadRegister(number) => r := ReadOne(backend, pid, t, number);
      case WriteRegister(number, text) => r := WriteOne(backend, pid, t, number, text);
    }

    // --------------------------------------------------------------- threads

    method HandleSelect(which: char, target: Option<(int, int)>) returns (r: Reply)
      requires Valid()
      modifies this, backend`history, backend`faults
      ensures Valid() && breakpoints == old(breakpoints) && attached == old(attached) && pid == old(pid)
      ensures Served(SelectThread(which, target), r)
      ensures Quiet(backend) ==> r == SelectReply(which, target, pid, attached, backend.tasks)
      ensures r == Okay ==> target.Some? && (which == 'g' || which == 'c')
      ensures generalThread == if r == Okay && which == 'g' then target.value.1 else old(generalThread)
      ensures continueThread == if r == Okay && which == 'c' then target.value.1 else old(continueThread)
      ensures r == Okay && attached && target.value.1 > 0 ==> target.value.1 == pid || Among(target.value.1, threads)
      ensures r == Okay && which == 'g' && target.value.1 > 0 ==> CurrentThread() == target.value.1
    {
      if target.None? { return Error(1); }
      var (reqPid, reqTid) := target.value;
      if reqPid > 0 && pid > 0 && reqPid != pid { return Error(1); }
      if attached && reqTid > 0 {
        RefreshThreads();
        if !(reqTid == pid || Among(reqTid, threads)) { return Error(1); }
      }
      if which == 'g' {
        generalThread := reqTid;
        return Okay;
      }
      if which == 'c' {
        continueThread := reqTid;
        return Okay;
      }
      return Empty;
    }

    method HandleAlive(target: Option<(int, int)>) returns (r: Reply)
      requires Valid()
      modifies this`threads, backend`history, backend`faults
      ensures Valid() && backend.faults >= old(backend.faults) && r == AliveReply(target, pid, attached, threads)
      ensures Quiet(backend) ==> r == AliveReply(target, pid, attached, if attached then backend.tasks else [])
    {
      RefreshThreads();
      if target.None? { return Error(1); }
      var (reqPid, reqTid) := target.value;
      if reqPid > 0 && reqPid != pid { return Error(1); }
      if reqTid <= 0 && attached { return Okay; }
      return if Among(reqTid, threads) then Okay else Error(1);
    }

    /** A stop reply for the thread asked for, if there is such a thread. */
    method HandleThreadStop(target: Option<(int, int)>) returns (r: Reply)
      requires Valid()
      modifies this, backend
      ensures Valid() && (old(Transparent()) ==> Transparent())
      ensures Served(ThreadStop(target), r)
      ensures attached && Quiet(backend) ==> ThreadStopReply(r, target, pid, backend.tasks, stopSignal)
    {
      var ok := EnsureAttached();
      if !ok || target.None? { return Error(1); }
      var (reqPid, reqTid) := target.value;
      if reqPid > 0 && reqPid != pid { return Error(1); }
      RefreshThreads();
      if reqTid != pid && !Among(reqTid, threads) { return Error(1); }
      var saved := stopLwp;
      stopLwp := reqTid;
      r := StopReply();
      stopLwp := saved;
    }

    method HandleFetchMaps(again: bool) returns (r: Reply)
      requires Valid()
      modifies this, backend
      ensures Valid() && (old(Transparent()) ==> Transparent())
      ensures Served(FetchMaps(again), r)
      ensures r.Listing? ==> forall a: nat :: Covers(r.regions, a) <==> Covers(maps, a)
    {
      var ok := EnsureAttached();
      if !ok { return Error(1); }
      if again || !mapsKnown {
        ok := RefreshMaps();
        if !ok { return Error(1); }
      }
      var list := ListMaps(maps);
      forall a: nat ensures Covers(list, a) <==> Covers(maps, a) { ProperCovers(maps, a); }
      return Listing(list);
    }

    /** The threads, from the start or as they were listed before. */
    method HandleFetchThreads(again: bool) returns (r: Reply)
      requires Valid()
      modifies this, backend
      ensures Valid() && (old(Transparent()) ==> Transparent())
      ensures Served(FetchThreads(again), r)
    {
      var ok := EnsureAttached();
      if !ok { return Error(1); }
      if again { RefreshThreads(); }
      if threads == [] && pid > 0 { return Tasks([pid]); }
      var i, lwps: seq<int> := 0, [];
      while i < |threads|
        invariant i <= |threads| && lwps == Positive(threads[..i])
      {
        assert threads[..i + 1][..i] == threads[..i];
        if threads[i].lwp > 0 { lwps := lwps + [threads[i].lwp]; }
        i := i + 1;
      }
      assert threads[..i] == threads;
      return Tasks(lwps);
    }

    // -------------------------------------------------------------- dispatch

    /** One packet.  Whatever it is and whichever backend calls fail, the session
        stays valid, and the packet is answered as it asks unless a call fails or
        there is no process. */
    method Handle(cmd: Command) returns (r: Reply)
      requires Valid()
      modifies this, backend
      ensures Valid() && Served(cmd, r)
      ensures old(Transparent()) && backend.strict ==>
        (Transparent() <==> !(r == Okay && ClearsListed(cmd, old(breakpoints))))
      ensures old(Transparent()) ==> (Transparent() <==> r != Okay || Keeps(cmd, old(breakpoints), old(backend.mem)))
    {
      if IsQuery(cmd) {
        r := HandleQuery(cmd);
      } else if IsV(cmd) {
        r := HandleV(cmd);
      } else if cmd.Status? {
        if !attached && pid > 0 { var _ := EnsureAttached(); }
        r := if attached then StopReply() else Gone;
      } else if cmd.SelectThread? {
        r := HandleSelect(cmd.which, cmd.target);
      } else if IsRegisters(cmd) {
        r := HandleRegisters(cmd);
      } else if cmd.ReadMem? {
        r := HandleRead(cmd.range);
      } else if cmd.WriteMem? {
        r := HandleWrite(cmd.range, cmd.data);
      } else if cmd.Resume? {
        r := ResumeAt(cmd.step, cmd.wellFormed, cmd.address);
      } else if cmd.Breakpoint? {
        r := HandleBreakpoint(cmd.enable, cmd.kind, cmd.place);
      } else if cmd.DetachFrom? || cmd.KillCurrent? {
        r := HandleLeave(cmd);
      } else if cmd.ThreadAlive? {
        r := HandleAlive(cmd.target);
      } else {
        r := Empty;
      }
    }

    /** `D` and `k`. */
    method HandleLeave(cmd: Command) returns (r: Reply)
      requires Valid() && (cmd.DetachFrom? || cmd.KillCurrent?)
      modifies this, backend
      ensures Valid() && Served(cmd, r)
      ensures old(Transparent()) ==> Transparent()
    {
      match cmd
      case DetachFrom(matches) =>
        if !matches { return Error(1); }
        var ok := SafeDetach();
        r := if ok then Okay else Error(1);
      case KillCurrent =>
        if !attached { return Error(1); }
        var ok := Kill(pid);
        r := if ok then Okay else Error(1);
    }

    predicate IsV(cmd: Command) { cmd.AttachTo? || cmd.KillProcess? || cmd.Continue? }

    /** Packets that begin with `v`. */
    method HandleV(cmd: Command) returns (r: Reply)
      requires Valid() && IsV(cmd)
      modifies this, backend
      ensures Valid() && Served(cmd, r)
      ensures old(Transparent()) ==> Transparent()
    {
      match cmd
      case AttachTo(target) => r := VAttach(target);
      case KillProcess(victim) =>
        if victim.None? { return Error(1); }
        var ok := Kill(victim.value);
        r := if ok then Okay else Error(1);
      case Continue(action) =>
        if action.None? { return Error(1); }
        r := ContinueOrStep(action.value.0, action.value.1);
    }

    predicate IsQuery(cmd: Command) {
      cmd.Search? || cmd.FetchMaps? || cmd.FetchThreads? || cmd.FetchPath? || cmd.ThreadInfo? || cmd.ThreadStop?
    }

    /** Packets that begin with `q`. */
    method HandleQuery(cmd: Command) returns (r: Reply)
      requires Valid() && IsQuery(cmd)
      modifies this, backend
      ensures Valid() && Served(cmd, r)
      ensures old(Transparent()) ==> Transparent()
    {
      match cmd
      case Search(separated, range, pattern) => r := HandleSearch(separated, range, pattern);
      case FetchMaps(again) => r := HandleFetchMaps(again);
      case FetchThreads(again) => r := HandleFetchThreads(again);
      case FetchPath =>
        var ok := EnsureAttached();
        if !ok { return Error(1); }
        ok := backend.Info(pid);
        r := if ok then Okay else Error(1);
      case ThreadInfo(target) =>
        if target.None? { return Error(1); }
        RefreshThreads();
        r := Okay;
      case ThreadStop(target) => r := HandleThreadStop(target);
    }

    /** The run that shows a stale entry: when all four packets succeed, the
        reply is the byte from before the insertion, whatever was written. */
    method ReadStaleEntry(address: nat, b: Byte) returns (done: bool, r: Reply)
      requires Valid() && attached && Transparent() && address !in breakpoints
      modifies this, backend
      ensures Valid()
      ensures Quiet(backend) && CanRead(address, 1, old(maps), old(mapsKnown)) ==> done && r.HexReply?
      ensures done && r.HexReply? ==>
        && r.text == HexText([ByteAt(old(backend.mem), address)])
        && HexText(Look().Plain(address, 1)) == HexText([b])
        && (r.text == HexText(Look().Plain(address, 1)) <==> b == ByteAt(old(backend.mem), address))
    {
      ghost var v := Look();
      done, r := LeaveStaleEntry(address, b);
      if !done { return; }
      StaleEntry(v, address, b);
      r := HandleRead(Some((address, 1)));
    }

    /** Its first three packets: `Z0`, `z1` and `M`. */
    method LeaveStaleEntry(address: nat, b: Byte) returns (done: bool, r: Reply)
      requires Valid() && attached
      modifies this, backend
      ensures Valid() && attached && maps == old(maps) && mapsKnown == old(mapsKnown)
      ensures backend.faults >= old(backend.faults)
      ensures Quiet(backend) && CanRead(address, 1, maps, mapsKnown) ==> done
      ensures done ==> Look() == old(Look()).Insert(address).Clear(address).Write(address, [b])
    {
      done := false;
      r := HandleBreakpoint(true, '0', Some((address, 1)));
      if r != Okay { return; }
      r := HandleBreakpoint(false, '1', Some((address, 1)));
      if r != Okay { return; }
      r := HandleWrite(Some((address, 1)), Some([b]));
      done := r == Okay;
    }

    /** A write is read back exactly when the table lists no other byte in its
        range. */
    method WriteThenRead(address: nat, data: seq<Byte>) returns (done: bool, r: Reply)
      requires Valid() && attached
      modifies this, backend
      ensures Valid()
      ensures Quiet(backend) && CanRead(address, |data|, old(maps), old(mapsKnown)) ==> done && r.HexReply?
      ensures done && r.HexReply? ==>
        (r.text == HexText(data) <==>
          forall k :: 0 <= k < |data| && address + k in breakpoints ==> breakpoints[address + k] == data[k])
    {
      r := HandleWrite(Some((address, |data|)), Some(data));
      if r != Okay { return false, r; }
      r := HandleRead(Some((address, |data|)));
      WrittenReads(Look(), address, data);
      return true, r;
    }

    /** `Hg` and `g`: the registers are those of the thread selected. */
    method SelectThenRead(t: int) returns (done: bool, r: Reply)
      requires Valid() && attached && t > 0
      modifies this, backend
      ensures Valid()
      ensures done && r.HexReply? ==> t in backend.cpu && r.text == HexText(GdbRegs.Packet(backend.Seen(t)))
      ensures Quiet(backend) && (t == pid || Among(t, old(backend.tasks))) ==> done && r.HexReply?
    {
      r := HandleSelect('g', Some((0, t)));
      if r != Okay { return false, r; }
      r := HandleRegisters(ReadRegisters);
      done := true;
    }

    /** `Hc` and `s`: the thread selected is the one that steps. */
    method SelectThenStep(t: int) returns (done: bool, r: Reply)
      requires Valid() && attached && t > 0
      modifies this, backend
      ensures Valid()
      ensures done && r != Error(1) ==> backend.orders == old(backend.orders) + [Stepped(t)]
      ensures Quiet(backend) && (old(t == pid) || Among(t, old(backend.tasks))) ==> done && r.Stopped?
    {
      r := HandleSelect('c', Some((0, t)));
      if r != Okay { return false, r; }
      ghost var was := backend.orders;
      r := ResumeAt(true, true, None);
      done := true;
      if r != Error(1) { OnePrefix(was, backend.orders); }
    }

    /** One packet of such a run; `plain` is memory without breakpoints. */
    method HandleHarmless(cmd: Command, ghost plain: map<nat, Byte>) returns (r: Reply)
      requires Valid() && attached && Transparent() && Look().Shows(plain)
      requires Harmless(cmd, Look()) && (cmd.ReadMem? || cmd.WriteMem? || cmd.Breakpoint?)
      modifies this, backend
      ensures Valid() && attached && Transparent() && maps == old(maps) && mapsKnown == old(mapsKnown)
      ensures !cmd.WriteMem? || r == Okay ==> Look().Shows(AfterWrite(plain, cmd))
      ensures backend.faults >= old(backend.faults)
      ensures r == if Quiet(backend) then Told(cmd, plain, maps, mapsKnown) else Error(1)
    {
      if cmd.ReadMem? {
        r := HandleRead(cmd.range);
        if cmd.range.Some? { ShowsContents(Look(), plain, cmd.range.value.0, cmd.range.value.1); }
      } else if cmd.WriteMem? {
        r := HandleWrite(cmd.range, cmd.data);
      } else {
        AppliedShows(cmd, Look(), plain);
        r := HandleBreakpoint(cmd.enable, cmd.kind, cmd.place);
      }
    }

    /** A run of reads, writes and breakpoint packets, up to the first that
        would spoil the table or write over a listed breakpoint: every read
        shows memory without breakpoints, as it was when the run began and as
        the writes since have changed it.  Every packet is answered so, unless
        with an error; in a run in which no call fails, every one is. */
    method ReadAmongBreakpoints(cmds: seq<Command>) returns (replies: seq<Reply>, ghost plains: seq<map<nat, Byte>>)
      requires Valid() && attached && Transparent()
      requires forall i :: 0 <= i < |cmds| ==> cmds[i].ReadMem? || cmds[i].WriteMem? || cmds[i].Breakpoint?
      modifies this, backend
      ensures Valid() && |replies| <= |cmds|
      ensures |replies| < |cmds| ==> !Harmless(cmds[|replies|], Look()) || FailedWrite(cmds, replies)
      ensures plains != [] && plains[0] == old(Look()).Bare()
      ensures Replied(cmds, replies, plains, old(maps), old(mapsKnown), Quiet(backend))
    {
      replies, plains := [], [Look().Bare()];
      ghost var start, plain := Look().Bare(), Look().Bare();
      while |replies| < |cmds|
        invariant |replies| <= |cmds| && Valid() && attached && Transparent()
        invariant |plains| == |replies| + 1 && plains[0] == start && plain == plains[|replies|] && Look().Shows(plain)
        invariant maps == old(maps) && mapsKnown == old(mapsKnown) && backend.faults >= old(backend.faults)
        invariant Replied(cmds, replies, plains, maps, mapsKnown, Quiet(backend))
      {
        var cmd := cmds[|replies|];
        if !Harmless(cmd, View(breakpoints, backend.mem, backend.under)) { return; }
        ghost var before := Quiet(backend);
        var r := HandleHarmless(cmd, plain);
        MoreReplies(cmds, replies, plains, maps, mapsKnown, before, r, Quiet(backend));
        plain := AfterWrite(plain, cmd);
        replies, plains := replies + [r], plains + [plain];
        if cmd.WriteMem? && r != Okay { return; }
      }
    }

    /** Every run: any packets in any order, then the disconnect.  With a strict
        backend only `z1` can spoil the table. */
    method Serve(cmds: seq<Command>) returns (replies: seq<Reply>)
      requires Valid()
      modifies this, backend
      ensures Valid() && |replies| == |cmds|
      ensures old(Transparent()) && backend.strict && (forall c <- cmds :: !ClearsHardware(c)) ==> Transparent()
    {
      replies := [];
      var i := 0;
      while i < |cmds|
        invariant i <= |cmds| && |replies| == i && Valid()
        invariant old(Transparent()) && backend.strict && (forall c <- cmds :: !ClearsHardware(c)) ==> Transparent()
      {
        var r := Handle(cmds[i]);
        replies, i := replies + [r], i + 1;
      }
      var _ := SafeDetach();
    }
  }

  lemma OnePrefix(was: seq<Order>, now: seq<Order>)
    requires was <= now && |now| == |was| + 1
    ensures now == was + [now[|was|]]
  {}

  /** Each packet of a run is answered as it asks; if not `quiet`, perhaps with an
      error.  `plains` is memory without breakpoints, before the first packet and
      after each. */
  ghost predicate Replied(cmds: seq<Command>, replies: seq<Reply>, plains: seq<map<nat, Byte>>,
                          maps: seq<Region>, known: bool, quiet: bool)
  {
    && |replies| <= |cmds| && |plains| == |replies| + 1
    && forall i :: 0 <= i < |replies| ==>
         && plains[i + 1] == AfterWrite(plains[i], cmds[i])
         && (replies[i] == Told(cmds[i], plains[i], maps, known) || (replies[i] == Error(1) && !quiet))
  }

  lemma {:induction false} MoreReplies(cmds: seq<Command>, replies: seq<Reply>, plains: seq<map<nat, Byte>>,
                                       maps: seq<Region>, known: bool, before: bool, r: Reply, quiet: bool)
    requires |replies| < |cmds| && Replied(cmds, replies, plains, maps, known, before) && (quiet ==> before)
    requires r == Told(cmds[|replies|], plains[|replies|], maps, known) || (r == Error(1) && !quiet)
    ensures var longer := plains + [AfterWrite(plains[|replies|], cmds[|replies|])];
            Replied(cmds, replies + [r], longer, maps, known, quiet)
  {}

  function AfterWrite(mem: map<nat, Byte>, cmd: Command): map<nat, Byte> {
    match cmd
    case WriteMem(Some((a, _)), Some(data)) => Stored(mem, a, data)
    case _ => mem
  }

  /** What a packet of such a run is answered with when no call fails, `plain`
      being memory without breakpoints. */
  ghost function Told(cmd: Command, plain: map<nat, Byte>, maps: seq<Region>, known: bool): Reply {
    match cmd
    case ReadMem(Some((a, n))) => ReadReply(plain, map[], a, n, maps, known)
    case WriteMem(range, data) => WritePacket(range, data, maps, known)
    case Breakpoint(_, kind, place) => BreakpointPacket(kind, place)
    case _ => Error(1)
  }

  /** The last packet answered was a write that failed. */
  predicate FailedWrite(cmds: seq<Command>, replies: seq<Reply>) {
    0 < |replies| <= |cmds| && cmds[|replies| - 1].WriteMem? && replies[|replies| - 1] != Okay
  }

  /** A packet that keeps the table truthful and writes over no breakpoint. */
  predicate Harmless(cmd: Command, v: View) {
    && Keeps(cmd, v.table, v.mem)
    && (cmd.WriteMem? && cmd.range.Some? ==>
        forall a <- v.table :: !(cmd.range.value.0 <= a < cmd.range.value.0 + cmd.range.value.1))
  }

  lemma {:induction false} ShowsContents(v: View, plain: map<nat, Byte>, a: nat, n: nat)
    requires v.Truthful() && v.Shows(plain)
    ensures v.Reads(a, n) == Shown(plain, map[], a, n)
  {
    var s, t := v.Reads(a, n), Shown(plain, map[], a, n);
    forall k | 0 <= k < n ensures s[k] == t[k] { assert Overlay(v.mem, v.under, a + k) == ByteAt(plain, a + k); }
  }

  /** No breakpoint packet changes memory without breakpoints. */
  lemma {:induction false} AppliedShows(cmd: Command, v: View, plain: map<nat, Byte>)
    requires cmd.Breakpoint? && v.Shows(plain)
    ensures Applied(cmd, v).Shows(plain)
  {
    var w := Applied(cmd, v);
    forall a: nat ensures Overlay(w.mem, w.under, a) == ByteAt(plain, a) {
      assert Overlay(v.mem, v.under, a) == ByteAt(plain, a);
    }
  }

  lemma {:induction false} WrittenReads(v: View, a: nat, data: seq<Byte>)
    requires forall k :: 0 <= k < |data| ==> ByteAt(v.mem, a + k) == data[k]
    ensures HexText(v.Reads(a, |data|)) == HexText(data) <==>
            forall k :: 0 <= k < |data| && a + k in v.table ==> v.table[a + k] == data[k]
  {
    var s := v.Reads(a, |data|);
    if HexText(s) == HexText(data) {
      UnhexHex(s);
      UnhexHex(data);
    }
  }

  // -------------------------------------------- what packets are answered with

  ghost function ReadPacket(range: Option<(nat, nat)>, v: View, maps: seq<Region>, known: bool): Reply {
    if range.None? then Error(1) else ReadReply(v.mem, v.table, range.value.0, range.value.1, maps, known)
  }

  /** A read that is neither empty nor refused. */
  ghost predicate CanRead(address: nat, length: nat, maps: seq<Region>, known: bool) {
    0 < length <= MAX_READ && address + length <= MAX64 && Mapped(maps, known, address, length)
  }

  ghost function WritePacket(range: Option<(nat, nat)>, data: Option<seq<Byte>>, maps: seq<Region>,
                             known: bool): Reply {
    match range
    case None => Error(1)
    case Some((a, n)) =>
      if n > MAX_READ || a + n > MAX64 then Error(0x22)
      else if !Mapped(maps, known, a, n) || data.None? || |data.value| != n then Error(1)
      else Okay
  }

  ghost predicate SearchPacket(r: Reply, separated: bool, range: Option<(nat, nat)>, pattern: seq<Byte>,
                               mem: map<nat, Byte>, maps: seq<Region>, known: bool)
  {
    if !separated then r == Error(1)
    else match range
      case None => r == Error(0x22)
      case Some((a, n)) => SearchReply(r, mem, a, n, pattern, maps, known)
  }

  predicate IsRegisters(cmd: Command) {
    cmd.ReadRegisters? || cmd.WriteRegisters? || cmd.ReadRegister? || cmd.WriteRegister?
  }

  ghost predicate RegistersReply(cmd: Command, r: Reply, backend: Backend, t: int)
    reads backend
  {
    match cmd
    case ReadRegisters => t in backend.cpu && r == HexReply(HexText(GdbRegs.Packet(backend.Seen(t))))
    case WriteRegisters(text) => r == if IsPacket(text) then Okay else Error(1)
    case ReadRegister(number) =>
      if Named(number).None? then r == Error(1)
      else r.HexReply? && (t in backend.cpu ==>
             r.text == HexText(GdbRegs.RegBytes(backend.Seen(t), Named(number).value)))
    case WriteRegister(number, text) => r == if IsValue(number, text) then Okay else Error(1)
    case _ => false
  }

  function BreakpointPacket(kind: char, place: Option<(nat, nat)>): Reply {
    match place
    case None => Error(1)
    case Some((_, length)) =>
      if kind == '0' then (if length == 1 then Okay else Error(0x22))
      else if Watchable(kind, length) then Okay
      else if '1' <= kind <= '4' then Error(0x22)
      else Empty
  }

  /** What a breakpoint packet that succeeds makes the backend do: `Z2` watches
      writes, `Z3` reads, `Z4` both, one byte if no length is given. */
  function OrderOf(enable: bool, kind: char, address: nat, length: nat): Order {
    if kind == '0' then (if enable then Trapped(address) else Cleared(address))
    else if kind == '1' then (if enable then Guarded(address) else Cleared(address))
    else if enable then
      Watched(address, if length == 0 then 1 else length, if kind == '2' then 1 else if kind == '3' then 2 else 3)
    else Unwatched(address)
  }

  function SelectReply(which: char, target: Option<(int, int)>, pid: int, attached: bool, threads: seq<Thread>): Reply {
    match target
    case None => Error(1)
    case Some((p, t)) =>
      if p > 0 && pid > 0 && p != pid then Error(1)
      else if attached && t > 0 && t != pid && !Among(t, threads) then Error(1)
      else if which == 'g' || which == 'c' then Okay
      else Empty
  }

  function AliveReply(target: Option<(int, int)>, pid: int, attached: bool, threads: seq<Thread>): Reply {
    match target
    case None => Error(1)
    case Some((p, t)) =>
      if p > 0 && p != pid then Error(1)
      else if (t <= 0 && attached) || Among(t, threads) then Okay
      else Error(1)
  }

  predicate ThreadStopReply(r: Reply, target: Option<(int, int)>, pid: int, threads: seq<Thread>, signal: int) {
    match target
    case None => r == Error(1)
    case Some((p, t)) =>
      if (p > 0 && p != pid) || (t != pid && !Among(t, threads)) then r == Error(1)
      else r.Stopped? && r.signal == signal && (t > 0 ==> r.lwp == t)
  }

  /** The process an attach asks for; zero if none. */
  function Goal(target: Option<(int, int)>): int {
    match target
    case None => 0
    case Some((p, t)) => if p > 0 then p else t
  }

  /** The process was let run with the program counter asked for. */
  ghost predicate LaunchedAt(address: Option<GdbRegs.U64>, launched: map<int, GdbRegs.Regs>,
                             cpu: map<int, GdbRegs.Regs>, t: int) {
    match address
    case None => launched == cpu
    case Some(a) => t in cpu && launched == cpu[t := cpu[t].(rip := a)]
  }

  /** `z1` where the table lists a breakpoint. */
  predicate ClearsListed(cmd: Command, table: map<nat, Byte>) {
    ClearsHardware(cmd) && cmd.place.Some? && cmd.place.value.0 in table
  }

  /** `z1`. */
  predicate ClearsHardware(cmd: Command) { cmd.Breakpoint? && cmd.kind == '1' && !cmd.enable }

  /** A thread that says by which signal it stopped. */
  predicate Reports(t: Thread, lwp: int) { t.lwp == lwp && 0 < t.signal <= 0xFF }

  /** The signal of the first thread listed that reports one, else a trap. */
  predicate IsReported(signal: int, threads: seq<Thread>, lwp: int) {
    if forall k :: 0 <= k < |threads| ==> !Reports(threads[k], lwp) then signal == 5
    else exists k :: 0 <= k < |threads| && Reports(threads[k], lwp) && signal == threads[k].signal
                     && forall j :: 0 <= j < k ==> !Reports(threads[j], lwp)
  }

  function Positive(threads: seq<Thread>): (lwps: seq<int>)
    ensures forall t: int :: t in lwps <==> t > 0 && Among(t, threads)
    ensures |lwps| <= |threads|
  {
    if threads == [] then []
    else
      var n := |threads| - 1;
      assert forall t :: Among(t, threads) <==> Among(t, threads[..n]) || t == threads[n].lwp by {
        assert threads == threads[..n] + [threads[n]];
      }
      Positive(threads[..n]) + if threads[n].lwp > 0 then [threads[n].lwp] else []
  }

  /** The threads a debugger is told of; the process itself if none is known. */
  function Lwps(threads: seq<Thread>, pid: int): seq<int> {
    if threads == [] && pid > 0 then [pid] else Positive(threads)
  }

  predicate Among(lwp: int, threads: seq<Thread>) { exists k :: 0 <= k < |threads| && threads[k].lwp == lwp }

  /** What the source admits as a hardware breakpoint or watchpoint. */
  predicate Watchable(kind: char, length: nat) {
    if kind == '1' then length == 1
    else '2' <= kind <= '4' && (length == 0 || length == 1 || length == 2 || length == 4 || length == 8)
  }

  /** What a breakpoint packet that succeeds does. */
  function Applied(cmd: Command, v: View): View
    requires cmd.Breakpoint?
  {
    match cmd
    case Breakpoint(enable, kind, Some((a, _))) =>
      if kind == '0' then (if enable then v.Insert(a) else v.Remove(a))
      else if kind == '1' && !enable then v.Clear(a)
      else v
    case _ => v
  }

  lemma {:induction false} AppliedTruthful(cmd: Command, v: View)
    requires cmd.Breakpoint? && v.Truthful()
    ensures Applied(cmd, v).Truthful() <==> Keeps(cmd, v.table, v.mem)
  {
    match cmd
    case Breakpoint(_, _, Some((a, _))) =>
      InsertTruthful(v, a);
      ClearTruthful(v, a);
    case _ =>
  }

  /** A packet after which, if it succeeds, the table still tells what the traps
      replaced: none that places a software breakpoint where the table lists
      one whose trap shows another byte, or clears a hardware one there. */
  predicate Keeps(cmd: Command, table: map<nat, Byte>, mem: map<nat, Byte>) {
    match cmd
    case Breakpoint(enable, kind, Some((a, _))) =>
      a !in table || (if kind == '0' then enable ==> table[a] == ByteAt(mem, a) else kind == '1' ==> enable)
    case _ => true
  }
}
