/** The daemon's ring between two threads: each atomic load, store and slot
    access of `ring_push` and `ring_pop` is a step, and steps interleave freely. */
module DaemonRing {
  import opened Bytes
  import opened Bits

  const SIZE: nat := 8192
  const MASK: nat := 8191

  /** Where the producer is in a push.  `seen` records how many events had been
      popped when it loaded the tail. */
  datatype Producer<T> =
    | Idle
    | HeadLoaded(h: U32, ev: T)
    | Written(h: U32, ev: T)
    | Published
    | TailLoaded(t: U32, seen: nat)
    | Reloaded(t: U32, newHead: U32, seen: nat)

  /** Where the consumer is in a pop. */
  datatype Consumer<T> =
    | Waiting
    | TailRead(t: U32, max: nat)
    | Copying(t: U32, n: nat, out: seq<T>)

  /** Shared memory, both threads, and what has been pushed and popped so far. */
  datatype State<T> = State(
    ring: seq<T>, head: U32, tail: U32,
    producer: Producer<T>, consumer: Consumer<T>,
    pushed: seq<T>, popped: seq<T>)

  function Slot(index: U32): (p: nat)
    ensures p < SIZE
  {
    AndMask(index, 13);
    assert Pow2(13) == SIZE by { assert Pow2(8) == 256; }
    And(index, MASK)
  }

  // --------------------------------------------------------------------- steps

  ghost predicate Initial<T>(s: State<T>) {
    |s.ring| == SIZE && s.head == s.tail == 0 && s.producer.Idle? && s.consumer.Waiting? && s.pushed == s.popped == []
  }

  ghost predicate ProducerStep<T(!new)>(s: State<T>, s': State<T>) {
    && |s.ring| == SIZE
    && match s.producer
       case Idle => exists ev :: s' == s.(producer := HeadLoaded(s.head, ev))
       case HeadLoaded(h, ev) => s' == s.(ring := s.ring[Slot(h) := ev], producer := Written(h, ev))
       case Written(h, ev) => s' == s.(head := (h + 1) % TWO32, pushed := s.pushed + [ev], producer := Published)
       case Published => s' == s.(producer := TailLoaded(s.tail, |s.popped|))
       case TailLoaded(t, seen) => s' == s.(producer := Reloaded(t, s.head, seen))
       case Reloaded(t, newHead, _) =>
         s' == s.(tail := if (newHead - t) % TWO32 > SIZE then (newHead - SIZE) % TWO32 else s.tail, producer := Idle)
  }

  ghost predicate ConsumerStep<T(!new)>(s: State<T>, s': State<T>) {
    && |s.ring| == SIZE
    && match s.consumer
       case Waiting => exists max :: s' == s.(consumer := TailRead(s.tail, max))
       case TailRead(t, max) =>
         var avail := (s.head - t) % TWO32;
         s' == s.(consumer := if avail == 0 || max == 0 then Waiting else Copying(t, Min(avail, max), []))
       case Copying(t, n, out) =>
         if |out| < n then s' == s.(consumer := Copying(t, n, out + [s.ring[Slot((t + |out|) % TWO32)]]))
         else s' == s.(tail := (t + n) % TWO32, popped := s.popped + out, consumer := Waiting)
  }

  ghost predicate Next<T(!new)>(s: State<T>, s': State<T>) { ProducerStep(s, s') || ConsumerStep(s, s') }

  // ----------------------------------------------------------------- invariant

  /** How many events have left their slots: those popped and those of a pop
      under way that are copied already. */
  function Taken<T>(s: State<T>): nat { |s.popped| + if s.consumer.Copying? then |s.consumer.out| else 0 }

  /** The slots hold what is pushed and not yet taken. */
  ghost predicate Stored<T>(ring: seq<T>, pushed: seq<T>, taken: nat)
    requires |ring| == SIZE
  {
    forall j :: taken <= j < |pushed| ==> ring[j % SIZE] == pushed[j]
  }

  ghost predicate ProducerKnows<T>(s: State<T>)
    requires |s.ring| == SIZE
  {
    match s.producer
    case HeadLoaded(h, _) => h == s.head
    case Written(h, ev) => h == s.head && s.ring[|s.pushed| % SIZE] == ev
    case TailLoaded(t, seen) => t == seen % TWO32 && seen <= |s.popped| && |s.pushed| <= seen + SIZE
    case Reloaded(t, newHead, seen) =>
      t == seen % TWO32 && seen <= |s.popped| && |s.pushed| <= seen + SIZE && newHead == s.head
    case _ => true
  }

  ghost predicate ConsumerKnows<T>(s: State<T>) {
    match s.consumer
    case Waiting => true
    case TailRead(t, _) => t == s.tail
    case Copying(t, n, out) =>
      && t == s.tail && 1 <= n && |out| <= n && |s.popped| + n <= |s.pushed|
      && out == s.pushed[|s.popped|..|s.popped| + |out|]
  }

  ghost predicate Inv<T>(s: State<T>) {
    && |s.ring| == SIZE && |s.pushed| <= |s.popped| + SIZE
    && s.head == |s.pushed| % TWO32 && s.tail == |s.popped| % TWO32
    && s.popped <= s.pushed && Stored(s.ring, s.pushed, Taken(s))
    && ProducerKnows(s) && ConsumerKnows(s)
  }

  /** The published indices never differ by more than the size. */
  ghost predicate NeverAhead<T>(s: State<T>) { (s.head - s.tail) % TWO32 <= SIZE }

  /** A slot about to be written holds an event that has been taken, or just the
      event to be written. */
  ghost predicate Harmless<T>(s: State<T>) {
    s.producer.HeadLoaded? ==>
      |s.pushed| < Taken(s) + SIZE || (Taken(s) < |s.pushed| && s.producer.ev == s.pushed[Taken(s)])
  }

  lemma {:induction false} SlotOf(n: nat)
    ensures Slot(n % TWO32) == n % SIZE
  {
    AndMask(n % TWO32, 13);
    assert Pow2(13) == SIZE by { assert Pow2(8) == 256; }
    WrapMod(n, 13);
  }

  lemma OneLap(n: nat)
    ensures (n + SIZE) % SIZE == n % SIZE
  {}

  lemma Distance(n: nat, m: nat)
    requires m <= n < m + TWO32
    ensures (n % TWO32 - m % TWO32) % TWO32 == n - m
  {}

  /** A write keeps the events not taken exactly when the ring is not full, or
      when it happens to write what the oldest slot holds. */
  lemma {:induction false} WriteKeeps<T>(ring: seq<T>, pushed: seq<T>, taken: nat, ev: T)
    requires |ring| == SIZE && taken <= |pushed| <= taken + SIZE && Stored(ring, pushed, taken)
    ensures Stored(ring[|pushed| % SIZE := ev], pushed, taken) <==> |pushed| < taken + SIZE || ev == pushed[taken]
  {
    var after := ring[|pushed| % SIZE := ev];
    if |pushed| == taken + SIZE {
      OneLap(taken);
      if ev == pushed[taken] { assert after == ring; }
    }
  }

  /** Every step of a push keeps the invariant, if its write is harmless and its
      head is never more than the size ahead. */
  lemma {:induction false} ProducerKeeps<T(!new)>(s: State<T>, s': State<T>)
    requires Inv(s) && ProducerStep(s, s') && Harmless(s) && NeverAhead(s')
    ensures Inv(s')
  {
    match s.producer
    case Idle =>
    case HeadLoaded(h, ev) =>
      SlotOf(|s.pushed|);
      WriteKeeps(s.ring, s.pushed, Taken(s), ev);
    case Written(h, ev) =>
      PublishKeeps(s, s');
    case Published =>
    case TailLoaded(t, seen) =>
    case Reloaded(t, newHead, seen) =>
      Distance(|s.pushed|, seen);
  }

  lemma {:induction false} PublishKeeps<T(!new)>(s: State<T>, s': State<T>)
    requires Inv(s) && ProducerStep(s, s') && s.producer.Written? && NeverAhead(s')
    ensures Inv(s')
  {
    ModuloAdd(|s.pushed|, 1);
    Distance(|s.pushed| + 1, |s.popped|);
    assert forall j :: 0 <= j < |s.pushed| ==> s'.pushed[j] == s.pushed[j];
  }

  lemma {:induction false} ConsumerKeeps<T(!new)>(s: State<T>, s': State<T>)
    requires Inv(s) && ConsumerStep(s, s')
    ensures Inv(s')
  {
    match s.consumer
    case Waiting =>
    case TailRead(t, max) =>
      Distance(|s.pushed|, |s.popped|);
    case Copying(t, n, out) =>
      if |out| < n {
        CopyKeeps(s, s');
      } else {
        ModuloAdd(|s.popped|, n);
      }
  }

  lemma {:induction false} CopyKeeps<T(!new)>(s: State<T>, s': State<T>)
    requires Inv(s) && ConsumerStep(s, s') && s.consumer.Copying? && |s.consumer.out| < s.consumer.n
    ensures Inv(s')
  {
    var j := Taken(s);
    ModuloAdd(|s.popped|, |s.consumer.out|);
    SlotOf(j);
    assert s'.consumer.out == s.consumer.out + [s.pushed[j]];
  }

  // ---------------------------------------------------------------------- runs

  ghost predicate Run<T(!new)>(run: seq<State<T>>) {
    && run != [] && (forall k :: 0 <= k < |run| ==> NeverAhead(run[k]))
    && forall k :: 0 <= k < |run| - 1 ==> Next(run[k], run[k + 1])
  }

  /** In every interleaving whose published head is never more than 8192 ahead of
      the tail, and whose slot writes are harmless, what has been popped is a
      prefix of what has been pushed. */
  lemma {:induction false} PoppedIsPrefix<T(!new)>(run: seq<State<T>>, i: nat)
    requires Run(run) && i < |run| && Initial(run[0])
    requires forall k :: 0 <= k < |run| - 1 && ProducerStep(run[k], run[k + 1]) ==> Harmless(run[k])
    ensures Inv(run[i]) && run[i].popped <= run[i].pushed
  {
    if i == 0 {
    } else {
      PoppedIsPrefix(run, i - 1);
      var s, s' := run[i - 1], run[i];
      assert Next(s, s');
      if ConsumerStep(s, s') { ConsumerKeeps(s, s'); } else { ProducerKeeps(s, s'); }
    }
  }

  /** The producer has room, as the indices show it. */
  ghost predicate Roomy<T>(s: State<T>) { s.producer.HeadLoaded? ==> (s.head - s.tail) % TWO32 < SIZE }

  /** Such a producer stays within the size until it publishes. */
  ghost predicate Behind<T>(s: State<T>) { s.producer.Written? ==> |s.pushed| < |s.popped| + SIZE }

  lemma {:induction false} RoomyStep<T(!new)>(s: State<T>, s': State<T>)
    requires Inv(s) && Behind(s) && ProducerStep(s, s') && Roomy(s)
    ensures Harmless(s) && NeverAhead(s') && Behind(s')
  {
    Distance(|s.pushed|, |s.popped|);
    if s.producer.Written? {
      ModuloAdd(|s.pushed|, 1);
      Distance(|s.pushed| + 1, |s.popped|);
    }
    if s.producer.Reloaded? { Distance(|s.pushed|, s.producer.seen); }
  }

  /** A producer that writes no slot while the indices are 8192 apart is harmless
      and never ahead, so the prefix holds for it. */
  lemma {:induction false} RoomyIsPrefix<T(!new)>(run: seq<State<T>>, i: nat)
    requires i < |run| && Initial(run[0])
    requires forall k :: 0 <= k < |run| - 1 ==>
      ConsumerStep(run[k], run[k + 1]) || (ProducerStep(run[k], run[k + 1]) && Roomy(run[k]))
    ensures Inv(run[i]) && Behind(run[i]) && run[i].popped <= run[i].pushed
  {
    if i == 0 {
    } else {
      RoomyIsPrefix(run, i - 1);
      var s, s' := run[i - 1], run[i];
      if ConsumerStep(s, s') {
        ConsumerKeeps(s, s');
      } else {
        RoomyStep(s, s');
        ProducerKeeps(s, s');
      }
    }
  }

  // ------------------------------------------- what a write that does harm does

  /** The consumer runs alone. */
  ghost predicate Drains<T(!new)>(run: seq<State<T>>) {
    && run != [] && (forall k :: 0 <= k < |run| ==> NeverAhead(run[k]))
    && forall k :: 0 <= k < |run| - 1 ==> ConsumerStep(run[k], run[k + 1])
  }

  lemma DrainFirst<T(!new)>(s: State<T>, run: seq<State<T>>)
    requires Drains(run) && ConsumerStep(s, run[0]) && NeverAhead(s)
    ensures Drains([s] + run)
  {}

  /** What is left when an event not taken has been overwritten: all but the
      slots are in order, and the oldest slot is wrong. */
  ghost predicate Spoiled<T>(s: State<T>) {
    && |s.ring| == SIZE && |s.pushed| == |s.popped| + SIZE
    && s.head == |s.pushed| % TWO32 && s.tail == |s.popped| % TWO32
    && s.ring[|s.popped| % SIZE] != s.pushed[|s.popped|]
    && match s.consumer
       case Waiting => true
       case TailRead(t, _) => t == s.tail
       case Copying(t, n, out) =>
         && t == s.tail && 1 <= n <= SIZE && |out| <= n
         && (out != [] ==> out[0] != s.pushed[|s.popped|])
  }

  ghost predicate Lost<T>(s: State<T>) { !(s.popped <= s.pushed) }

  /** A pop under way comes to its end. */
  lemma {:induction false} FinishPop<T(!new)>(s: State<T>) returns (run: seq<State<T>>)
    requires Spoiled(s) && s.consumer.Copying?
    ensures Drains(run) && run[0] == s && Lost(run[|run| - 1])
    decreases s.consumer.n - |s.consumer.out|
  {
    var t, n, out := s.consumer.t, s.consumer.n, s.consumer.out;
    Distance(|s.pushed|, |s.popped|);
    var next;
    if |out| < n {
      ModuloAdd(|s.popped|, |out|);
      SlotOf(|s.popped| + |out|);
      next := s.(consumer := Copying(t, n, out + [s.ring[Slot((t + |out|) % TWO32)]]));
      run := FinishPop(next);
    } else {
      ModuloAdd(|s.popped|, n);
      Distance(|s.pushed|, |s.popped| + n);
      next := s.(tail := (t + n) % TWO32, popped := s.popped + out, consumer := Waiting);
      assert next.popped[|s.popped|] == out[0];
      run := [next];
    }
    assert ConsumerStep(s, next);
    DrainFirst(s, run);
    run := [s] + run;
  }

  lemma {:induction false} StartPop<T(!new)>(s: State<T>) returns (run: seq<State<T>>)
    requires Spoiled(s) && s.consumer.TailRead? && s.consumer.max > 0
    ensures Drains(run) && run[0] == s && Lost(run[|run| - 1])
  {
    Distance(|s.pushed|, |s.popped|);
    var next := s.(consumer := Copying(s.tail, Min(SIZE, s.consumer.max), []));
    assert ConsumerStep(s, next);
    run := FinishPop(next);
    DrainFirst(s, run);
    run := [s] + run;
  }

  lemma {:induction false} BeginPop<T(!new)>(s: State<T>) returns (run: seq<State<T>>)
    requires Spoiled(s) && s.consumer.Waiting?
    ensures Drains(run) && run[0] == s && Lost(run[|run| - 1])
  {
    Distance(|s.pushed|, |s.popped|);
    var next := s.(consumer := TailRead(s.tail, 1));
    assert ConsumerStep(s, next);
    run := StartPop(next);
    DrainFirst(s, run);
    run := [s] + run;
  }

  /** Wherever the consumer is, it can then pop a wrong event by itself. */
  lemma {:induction false} SpoiledLoses<T(!new)>(s: State<T>) returns (run: seq<State<T>>)
    requires Spoiled(s)
    ensures Drains(run) && run[0] == s && Lost(run[|run| - 1])
  {
    match s.consumer
    case Waiting => run := BeginPop(s);
    case Copying(_, _, _) => run := FinishPop(s);
    case TailRead(t, max) =>
      if max > 0 {
        run := StartPop(s);
      } else {
        Distance(|s.pushed|, |s.popped|);
        var next := s.(consumer := Waiting);
        assert ConsumerStep(s, next);
        run := BeginPop(next);
        DrainFirst(s, run);
        run := [s] + run;
      }
  }

  lemma {:induction false} DrainKeeps<T(!new)>(run: seq<State<T>>, i: nat)
    requires Drains(run) && i < |run| && Inv(run[0])
    ensures Inv(run[i])
  {
    if i == 0 {
    } else {
      DrainKeeps(run, i - 1);
      ConsumerKeeps(run[i - 1], run[i]);
    }
  }

  lemma {:induction false} HarmlessWrite<T(!new)>(s: State<T>, s': State<T>, run: seq<State<T>>)
    requires Inv(s) && s.producer.HeadLoaded? && ProducerStep(s, s') && Harmless(s) && Drains(run) && run[0] == s'
    ensures !Lost(run[|run| - 1])
  {
    Distance(|s.pushed|, |s.popped|);
    ProducerKeeps(s, s');
    DrainKeeps(run, |run| - 1);
  }

  lemma {:induction false} HarmfulWrite<T(!new)>(s: State<T>, s': State<T>)
    requires Inv(s) && s.producer.HeadLoaded? && ProducerStep(s, s') && !Harmless(s)
    ensures Spoiled(s')
  {
    var h, ev, oldest := s.producer.h, s.producer.ev, |s.popped|;
    assert |s.pushed| == oldest + SIZE && Taken(s) == oldest;
    SlotOf(|s.pushed|);
    OneLap(oldest);
    assert s'.ring == s.ring[oldest % SIZE := ev];
    assert s'.ring[oldest % SIZE] == ev != s.pushed[oldest];
  }

  /** From every state the protocol can be in, a slot write is harmless exactly
      when no run of the consumer that follows it loses the prefix. */
  lemma {:induction false} WriteIsSafe<T(!new)>(s: State<T>, s': State<T>)
    requires Inv(s) && s.producer.HeadLoaded? && ProducerStep(s, s')
    ensures Harmless(s) <==> forall run :: Drains(run) && run[0] == s' ==> !Lost(run[|run| - 1])
  {
    if Harmless(s) {
      forall run | Drains(run) && run[0] == s' ensures !Lost(run[|run| - 1]) { HarmlessWrite(s, s', run); }
    } else {
      HarmfulWrite(s, s');
      var run := SpoiledLoses(s');
      assert Drains(run) && Lost(run[|run| - 1]);
    }
  }

  // -------------------------------------------------------- a run from the start

  lemma {:induction false} Join<T(!new)>(run: seq<State<T>>, more: seq<State<T>>)
    requires Run(run) && Run(more) && Next(run[|run| - 1], more[0])
    ensures Run(run + more)
  {
    var all := run + more;
    forall k | 0 <= k < |all| - 1 ensures Next(all[k], all[k + 1]) {
      if k < |run| - 1 { assert Next(run[k], run[k + 1]); }
      if k >= |run| { assert Next(more[k - |run|], more[k - |run| + 1]); }
    }
  }

  /** Both threads at rest after `n` pushes of zero. */
  function Filled(n: nat): State<Byte>
    requires n <= SIZE
  {
    State(Zeros(SIZE), n, 0, Idle, Waiting, Zeros(n), [])
  }

  lemma {:induction false} Fill(n: nat) returns (run: seq<State<Byte>>)
    requires n <= SIZE
    ensures Run(run) && run[0] == Filled(0) && run[|run| - 1] == Filled(n)
  {
    if n == 0 {
      run := [Filled(0)];
    } else {
      run := Fill(n - 1);
      var more := PushZero(n - 1);
      Join(run, more);
      run := run + more;
    }
  }

  function Halfway(n: nat): State<Byte>
    requires n < SIZE
  {
    Filled(n).(head := n + 1, pushed := Zeros(n + 1), producer := Published)
  }

  lemma {:induction false} PublishZero(n: nat) returns (run: seq<State<Byte>>)
    requires n < SIZE
    ensures Run(run) && Next(Filled(n), run[0]) && run[|run| - 1] == Halfway(n)
  {
    var s := Filled(n);
    var a, b := s.(producer := HeadLoaded(n, 0)), s.(producer := Written(n, 0));
    assert ProducerStep(s, a);
    assert b.ring == s.ring[Slot(n) := 0] && ProducerStep(a, b);
    assert Zeros(n + 1) == Zeros(n) + [0] && ProducerStep(b, Halfway(n));
    run := [a, b, Halfway(n)];
  }

  lemma {:induction false} PushZero(n: nat) returns (run: seq<State<Byte>>)
    requires n < SIZE
    ensures Run(run) && Next(Filled(n), run[0]) && run[|run| - 1] == Filled(n + 1)
  {
    var c := Halfway(n);
    var d, e := c.(producer := TailLoaded(0, 0)), c.(producer := Reloaded(0, n + 1, 0));
    assert ProducerStep(c, d) && ProducerStep(d, e);
    assert ProducerStep(e, Filled(n + 1));
    run := PublishZero(n);
    Join(run, [d, e, Filled(n + 1)]);
    run := run + [d, e, Filled(n + 1)];
  }

  /** That the published indices stay within the size is not enough: the slot is
      written before the index is published, so with 8192 events unread the
      consumer can pop the newest in place of the oldest. */
  lemma {:induction false} FullRingLosesOldest() returns (run: seq<State<Byte>>)
    ensures Run(run) && Initial(run[0]) && Lost(run[|run| - 1])
  {
    run := Fill(SIZE);
    var s := Filled(SIZE);
    var a := s.(producer := HeadLoaded(SIZE, 1));
    var b := a.(ring := a.ring[Slot(SIZE) := 1], producer := Written(SIZE, 1));
    assert ProducerStep(s, a) && ProducerStep(a, b);
    SlotOf(SIZE);
    var more := SpoiledLoses(b);
    assert Run(more) by {
      forall k | 0 <= k < |more| - 1 ensures Next(more[k], more[k + 1]) { assert ConsumerStep(more[k], more[k + 1]); }
    }
    Join(run, [a]);
    Join(run + [a], more);
    run := run + [a] + more;
  }
}
