/** What a stack of parse frames still has to read, and what it promises.  The
    parser keeps `Resume` unchanged from its first step to its last. */
module JsonMachine {
  import opened Bytes
  import opened JsonGrammar

  datatype State = ExpectValue | ArrItem | ArrCont | ObjKey | ObjColon | ObjVal | ObjCont

  /** A frame of the explicit stack: the container being built and the key
      waiting for its value. */
  datatype Frame = Frame(state: State, container: Json, key: seq<Byte>)

  const VALUE_FRAME := Frame(ExpectValue, Null, [])

  /** Entries in the frame's container. */
  function Entries(f: Frame): nat {
    match f.container case Arr(items) => |items| case Obj(pairs) => |pairs| case _ => 0
  }

  /** A frame below the top waits for the value the frame above it is reading. */
  predicate Waiting(f: Frame) {
    (f.state == ArrItem && f.container.Arr?) || (f.state == ObjVal && f.container.Obj?)
  }

  predicate Active(f: Frame) {
    || f == VALUE_FRAME
    || (f.state == ArrCont && f.container.Arr?)
    || ((f.state == ObjKey || f.state == ObjColon || f.state == ObjCont) && f.container.Obj?)
  }

  ghost predicate AllWaiting(frames: seq<Frame>) { forall k :: 0 <= k < |frames| ==> Waiting(frames[k]) }

  ghost predicate WellStacked(frames: seq<Frame>) {
    && frames != [] && Active(frames[|frames| - 1])
    && AllWaiting(frames[..|frames| - 1])
  }

  /** The frame after its value has arrived. */
  function Deliver(f: Frame, v: Json): (g: Frame)
    requires Waiting(f)
    ensures Active(g)
  {
    if f.state == ArrItem then
      f.(state := ArrCont, container := Arr(f.container.items + [v]))
    else
      f.(state := ObjCont, container := Obj(f.container.pairs + [Pair(f.key, v)]))
  }

  /** What the active frame itself still reads. */
  function Rest(s: seq<Byte>, f: Frame, pos: nat): (r: Parsed<Json>)
    requires pos <= |s| && Active(f)
    ensures r.Some? ==> pos < r.value.1 <= |s|
  {
    match f.state
    case ExpectValue => Value(s, pos)
    case ArrCont => AsArray(f.container.items, MoreElements(s, pos))
    case ObjKey => AsObject(f.container.pairs, Members(s, pos))
    case ObjColon => AsObject(f.container.pairs, MemberValue(s, pos, f.key))
    case _ => AsObject(f.container.pairs, MoreMembers(s, pos))
  }

  /** What the whole stack still reads. */
  ghost function Resume(s: seq<Byte>, frames: seq<Frame>, pos: nat): Parsed<Json>
    requires pos <= |s| && WellStacked(frames)
    decreases |frames|, 0
  {
    match Rest(s, frames[|frames| - 1], pos)
    case None => None
    case Some((v, j)) => Complete(s, frames[..|frames| - 1], v, j)
  }

  /** The same once the value above these frames is known. */
  ghost function Complete(s: seq<Byte>, frames: seq<Frame>, v: Json, pos: nat): Parsed<Json>
    requires pos <= |s| && AllWaiting(frames)
    decreases |frames|, 1
  {
    if frames == [] then Some((v, pos))
    else
      var below := frames[..|frames| - 1];
      var delivered := below + [Deliver(frames[|frames| - 1], v)];
      assert delivered[..|frames| - 1] == below;
      Resume(s, delivered, pos)
  }

  // ------------------------------------------------------------- three moves

  ghost function After(s: seq<Byte>, below: seq<Frame>, r: Parsed<Json>): Parsed<Json>
    requires AllWaiting(below) && (r.Some? ==> r.value.1 <= |s|)
  {
    match r case None => None case Some((v, j)) => Complete(s, below, v, j)
  }

  lemma {:induction false} ResumeSnoc(s: seq<Byte>, below: seq<Frame>, f: Frame, pos: nat)
    requires pos <= |s| && AllWaiting(below) && Active(f)
    ensures WellStacked(below + [f]) && Resume(s, below + [f], pos) == After(s, below, Rest(s, f, pos))
  {
    assert (below + [f])[..|below|] == below;
  }

  lemma {:induction false} CompleteSnoc(s: seq<Byte>, below: seq<Frame>, g: Frame, v: Json, pos: nat)
    requires pos <= |s| && AllWaiting(below) && Waiting(g)
    ensures AllWaiting(below + [g]) && WellStacked(below + [Deliver(g, v)])
    ensures Complete(s, below + [g], v, pos) == Resume(s, below + [Deliver(g, v)], pos)
  {
    assert (below + [g])[..|below|] == below && (below + [Deliver(g, v)])[..|below|] == below;
  }

  function Then(s: seq<Byte>, r: Parsed<Json>, g: Frame): Parsed<Json>
    requires Waiting(g) && (r.Some? ==> r.value.1 <= |s|)
  {
    match r case None => None case Some((v, j)) => Rest(s, Deliver(g, v), j)
  }

  // ------------------------------------------------------------------ limits

  function FrameNodes(f: Frame): nat { if f.state == ExpectValue then 0 else Nodes(f.container) }

  function StackNodes(frames: seq<Frame>): nat {
    if frames == [] then 0 else StackNodes(frames[..|frames| - 1]) + FrameNodes(frames[|frames| - 1])
  }

  /** Limits broken by what a frame holds, the key it has read included. */
  function FrameExcess(f: Frame, lim: Limits, depth: int): nat {
    if f.state == ExpectValue then 0
    else Excess(f.container, lim, depth) + One((f.state == ObjColon || f.state == ObjVal) && LongString(f.key, lim))
  }

  /** Limits broken by what a stack holds, frame `k` lying inside `k` containers. */
  function StackExcess(frames: seq<Frame>, lim: Limits): nat {
    if frames == [] then 0
    else StackExcess(frames[..|frames| - 1], lim)
         + FrameExcess(frames[|frames| - 1], lim, lim.maxDepth - |frames|)
  }

  lemma {:induction false} StackSnoc(frames: seq<Frame>, f: Frame, lim: Limits)
    ensures StackNodes(frames + [f]) == StackNodes(frames) + FrameNodes(f)
    ensures StackExcess(frames + [f], lim) ==
      StackExcess(frames, lim) + FrameExcess(f, lim, lim.maxDepth - 1 - |frames|)
  {
    var g := frames + [f];
    assert g[..|g| - 1] == frames && g[|g| - 1] == f && lim.maxDepth - |g| == lim.maxDepth - 1 - |frames|;
  }

  lemma {:induction false} ItemsGrow(a: seq<Json>, b: seq<Json>, lim: Limits, depth: int)
    ensures ItemNodes(a + b) >= ItemNodes(a) && ItemExcess(a + b, lim, depth) >= ItemExcess(a, lim, depth)
    decreases |b|
  {
    if b == [] {
      assert a + b == a;
    } else {
      assert (a + b)[..|a + b| - 1] == a + b[..|b| - 1];
      ItemsGrow(a, b[..|b| - 1], lim, depth);
    }
  }

  lemma {:induction false} PairsGrow(a: seq<Pair>, b: seq<Pair>, lim: Limits, depth: int)
    ensures PairNodes(a + b) >= PairNodes(a) && PairExcess(a + b, lim, depth) >= PairExcess(a, lim, depth)
    decreases |b|
  {
    if b == [] {
      assert a + b == a;
    } else {
      assert (a + b)[..|a + b| - 1] == a + b[..|b| - 1];
      PairsGrow(a, b[..|b| - 1], lim, depth);
    }
  }

  lemma {:induction false} DoubledMonotone(m: nat, n: nat)
    requires m <= n
    ensures Doubled(m) <= Doubled(n)
  {
    if n <= 8 || m <= 8 {
    } else {
      DoubledMonotone((m + 1) / 2, (n + 1) / 2);
    }
  }

  lemma {:induction false} LongArrayGrows(m: nat, n: nat, lim: Limits)
    requires m <= n
    ensures LongArray(m, lim) ==> LongArray(n, lim)
  {
    DoubledMonotone(m, n);
  }

  lemma {:induction false} DoubledStep(n: nat)
    requires n >= 1
    ensures Doubled(n + 1) == if n >= Doubled(n) then 2 * Doubled(n) else Doubled(n)
  {
    if n <= 8 || n % 2 == 1 {
    } else {
      DoubledStep(n / 2);
    }
  }

  /** Appending to a full array doubles it, starting from eight. */
  lemma {:induction false} CapacityStep(n: nat)
    ensures Capacity(n + 1) ==
            if n >= Capacity(n) then (if Capacity(n) == 0 then 8 else 2 * Capacity(n)) else Capacity(n)
  {
    if n > 0 { DoubledStep(n); }
  }

  lemma {:induction false} DoubledBound(n: nat)
    ensures Doubled(n) == 8 || Doubled(n) <= 2 * n - 2
  {
    if n <= 8 {
    } else {
      DoubledBound((n + 1) / 2);
    }
  }

  lemma {:induction false} ItemsAreNodes(items: seq<Json>)
    ensures |items| <= ItemNodes(items)
  {
    if items == [] {
    } else {
      ItemsAreNodes(items[..|items| - 1]);
    }
  }

  lemma {:induction false} PairsAreNodes(pairs: seq<Pair>)
    ensures |pairs| <= PairNodes(pairs)
  {
    if pairs == [] {
    } else {
      PairsAreNodes(pairs[..|pairs| - 1]);
    }
  }

  /** The node limit keeps every capacity far from wrapping. */
  lemma {:induction false} CapacityBelowNodes(f: Frame)
    requires Waiting(f)
    ensures Capacity(Entries(f)) <= 8 + 2 * FrameNodes(f)
  {
    DoubledBound(Entries(f));
    if f.container.Arr? { ItemsAreNodes(f.container.items); } else { PairsAreNodes(f.container.pairs); }
  }

  /** The frame's array cannot take one more entry. */
  predicate NoRoom(f: Frame, lim: Limits) { f.container.Arr? && LongArray(Entries(f) + 1, lim) }

  lemma {:induction false} ItemsSnoc(items: seq<Json>, v: Json, lim: Limits, depth: int)
    ensures ItemNodes(items + [v]) == ItemNodes(items) + Nodes(v)
    ensures ItemExcess(items + [v], lim, depth) == ItemExcess(items, lim, depth) + Excess(v, lim, depth)
  {
    assert (items + [v])[..|items|] == items;
  }

  lemma {:induction false} PairsSnoc(pairs: seq<Pair>, p: Pair, lim: Limits, depth: int)
    ensures PairNodes(pairs + [p]) == PairNodes(pairs) + Nodes(p.value)
    ensures PairExcess(pairs + [p], lim, depth) ==
            PairExcess(pairs, lim, depth) + One(LongString(p.key, lim)) + Excess(p.value, lim, depth)
  {
    assert (pairs + [p])[..|pairs|] == pairs && (pairs + [p])[|pairs|] == p;
  }

  /** A frame that receives a value holds just that much more, and breaks no
      limit of its own unless there was no room. */
  lemma {:induction false} DeliverExcess(f: Frame, v: Json, lim: Limits, depth: int)
    requires Waiting(f)
    ensures FrameNodes(Deliver(f, v)) == FrameNodes(f) + Nodes(v)
    ensures var n := FrameExcess(Deliver(f, v), lim, depth);
            && n >= FrameExcess(f, lim, depth) + Excess(v, lim, depth - 1)
            && (if NoRoom(f, lim) then n > 0 else n == FrameExcess(f, lim, depth) + Excess(v, lim, depth - 1))
  {
    if f.state == ArrItem {
      ItemExcessAdds(f.container.items, v, lim, depth);
    } else {
      PairExcessAdds(f.container.pairs, Pair(f.key, v), lim, depth);
    }
  }

  lemma {:induction false} ItemExcessAdds(items: seq<Json>, v: Json, lim: Limits, depth: int)
    ensures Nodes(Arr(items + [v])) == Nodes(Arr(items)) + Nodes(v)
    ensures Excess(Arr(items + [v]), lim, depth) + One(LongArray(|items|, lim))
         == Excess(Arr(items), lim, depth) + Excess(v, lim, depth - 1) + One(LongArray(|items| + 1, lim))
    ensures LongArray(|items|, lim) ==> LongArray(|items| + 1, lim)
  {
    ItemsSnoc(items, v, lim, depth - 1);
    LongArrayGrows(|items|, |items| + 1, lim);
  }

  lemma {:induction false} PairExcessAdds(pairs: seq<Pair>, p: Pair, lim: Limits, depth: int)
    ensures Nodes(Obj(pairs + [p])) == Nodes(Obj(pairs)) + Nodes(p.value)
    ensures Excess(Obj(pairs + [p]), lim, depth)
         == Excess(Obj(pairs), lim, depth) + One(LongString(p.key, lim)) + Excess(p.value, lim, depth - 1)
  {
    PairsSnoc(pairs, p, lim, depth - 1);
  }

  lemma {:induction false} ArrayGrows(items: seq<Json>, t: seq<Json>, lim: Limits, depth: int)
    ensures Nodes(Arr(items + t)) >= Nodes(Arr(items))
    ensures Excess(Arr(items + t), lim, depth) >= Excess(Arr(items), lim, depth)
  {
    ItemsGrow(items, t, lim, depth - 1);
    LongArrayGrows(|items|, |items + t|, lim);
  }

  lemma {:induction false} ObjectGrows(pairs: seq<Pair>, t: seq<Pair>, lim: Limits, depth: int)
    ensures Nodes(Obj(pairs + t)) >= Nodes(Obj(pairs))
    ensures Excess(Obj(pairs + t), lim, depth) >= Excess(Obj(pairs), lim, depth)
  {
    PairsGrow(pairs, t, lim, depth - 1);
  }

  /** The container `c` holds what the frame holds, then `v`, then perhaps more. */
  ghost predicate Takes(f: Frame, v: Json, c: Json) {
    || (f.state == ArrItem && f.container.Arr? && c.Arr? && f.container.items + [v] <= c.items)
    || (f.state == ObjVal && f.container.Obj? && c.Obj? && f.container.pairs + [Pair(f.key, v)] <= c.pairs)
  }

  /** What the frames hold and the value above them is part of `whole`. */
  ghost predicate PartOf(frames: seq<Frame>, v: Json, whole: Json)
    decreases |frames|
  {
    if frames == [] then v == whole
    else
      var below, f := frames[..|frames| - 1], frames[|frames| - 1];
      exists c :: Takes(f, v, c) && PartOf(below, c, whole)
  }

  lemma {:induction false} RestTakes(s: seq<Byte>, f: Frame, v: Json, pos: nat, c: Json, e: nat)
    requires pos <= |s| && Waiting(f) && Rest(s, Deliver(f, v), pos) == Some((c, e))
    ensures Takes(f, v, c)
  {
    var g := Deliver(f, v);
    if f.state == ArrItem {
      assert c == Arr(g.container.items + MoreElements(s, pos).value.0);
    } else {
      assert c == Obj(g.container.pairs + MoreMembers(s, pos).value.0);
    }
  }

  /** The value completes the frames to `whole`, as the text goes on. */
  ghost predicate Completes(s: seq<Byte>, frames: seq<Frame>, v: Json, pos: nat, whole: (Json, nat)) {
    pos <= |s| && AllWaiting(frames) && Complete(s, frames, v, pos) == Some(whole)
  }

  lemma {:induction false} CompleteStep(s: seq<Byte>, below: seq<Frame>, f: Frame, v: Json, pos: nat,
                                        whole: (Json, nat))
    returns (c: Json, e: nat)
    requires Completes(s, below + [f], v, pos, whole)
    ensures Waiting(f) && Rest(s, Deliver(f, v), pos) == Some((c, e)) && Completes(s, below, c, e, whole)
  {
    var all := below + [f];
    assert all[|below|] == f && forall k :: 0 <= k < |below| ==> all[k] == below[k];
    CompleteSnoc(s, below, f, v, pos);
    ResumeSnoc(s, below, Deliver(f, v), pos);
    c, e := Rest(s, Deliver(f, v), pos).value.0, Rest(s, Deliver(f, v), pos).value.1;
  }

  /** Whatever the frames hold ends up in the final tree ... */
  lemma {:induction false} CompletesIsPart(s: seq<Byte>, frames: seq<Frame>, v: Json, pos: nat, whole: (Json, nat))
    requires Completes(s, frames, v, pos, whole)
    ensures PartOf(frames, v, whole.0)
    decreases |frames|
  {
    if frames == [] {
      assert whole == (v, pos);
    } else {
      var below, f := frames[..|frames| - 1], frames[|frames| - 1];
      assert frames == below + [f];
      var c, e := CompleteStep(s, below, f, v, pos, whole);
      RestTakes(s, f, v, pos, c, e);
      CompletesIsPart(s, below, c, e, whole);
    }
  }

  /** The value has at least so many nodes and breaks at least so many limits. */
  ghost predicate Weighs(v: Json, lim: Limits, depth: int, nodes: nat, excess: nat) {
    Nodes(v) >= nodes && Excess(v, lim, depth) >= excess
  }

  lemma {:induction false} TakenWeighs(f: Frame, v: Json, c: Json, lim: Limits, depth: int, nodes: nat, excess: nat)
    requires Takes(f, v, c) && Weighs(v, lim, depth - 1, nodes, excess)
    ensures Weighs(c, lim, depth, FrameNodes(f) + nodes, FrameExcess(f, lim, depth) + excess)
    ensures NoRoom(f, lim) ==> Weighs(c, lim, depth, 0, 1)
  {
    DeliverExcess(f, v, lim, depth);
    var g := Deliver(f, v);
    if f.state == ArrItem {
      var items := g.container.items;
      assert c.items == items + c.items[|items|..];
      ArrayGrows(items, c.items[|items|..], lim, depth);
    } else {
      var pairs := g.container.pairs;
      assert c.pairs == pairs + c.pairs[|pairs|..];
      ObjectGrows(pairs, c.pairs[|pairs|..], lim, depth);
    }
  }

  /** ... so a limit broken by a part is broken by the whole. */
  lemma {:induction false} PartsOfWhole(frames: seq<Frame>, v: Json, whole: Json, lim: Limits, depth: int, nodes: nat,
                                        excess: nat)
    requires depth == lim.maxDepth - 1 - |frames| && PartOf(frames, v, whole) && Weighs(v, lim, depth, nodes, excess)
    ensures Weighs(whole, lim, lim.maxDepth - 1, StackNodes(frames) + nodes, StackExcess(frames, lim) + excess)
    decreases |frames|
  {
    if frames == [] {
      assert v == whole;
    } else {
      var below, f := frames[..|frames| - 1], frames[|frames| - 1];
      var c :| Takes(f, v, c) && PartOf(below, c, whole);
      var d := lim.maxDepth - |frames|;
      var n, x := FrameNodes(f) + nodes, FrameExcess(f, lim, d) + excess;
      TakenWeighs(f, v, c, lim, d, nodes, excess);
      PartsOfWhole(below, c, whole, lim, d, n, x);
      StackTop(frames, lim);
      WeighsAsMuch(whole, lim, StackNodes(below) + n, StackExcess(below, lim) + x, StackNodes(frames) + nodes,
                   StackExcess(frames, lim) + excess);
    }
  }

  lemma {:induction false} StackTop(frames: seq<Frame>, lim: Limits)
    requires frames != []
    ensures var below, f := frames[..|frames| - 1], frames[|frames| - 1];
            && StackNodes(frames) == StackNodes(below) + FrameNodes(f)
            && StackExcess(frames, lim) == StackExcess(below, lim) + FrameExcess(f, lim, lim.maxDepth - |frames|)
  {}

  lemma WeighsAsMuch(v: Json, lim: Limits, nodes: nat, excess: nat, n: nat, x: nat)
    requires Weighs(v, lim, lim.maxDepth - 1, nodes, excess) && n <= nodes && x <= excess
    ensures Weighs(v, lim, lim.maxDepth - 1, n, x)
  {}

  /** So is the limit on the array that takes the value. */
  lemma {:induction false} FullArrayOfWhole(s: seq<Byte>, below: seq<Frame>, f: Frame, v: Json, pos: nat, lim: Limits,
                                            whole: (Json, nat))
    requires Completes(s, below + [f], v, pos, whole) && NoRoom(f, lim)
    ensures Weighs(whole.0, lim, lim.maxDepth - 1, 0, 1)
  {
    var c, e := CompleteStep(s, below, f, v, pos, whole);
    RestTakes(s, f, v, pos, c, e);
    TakenWeighs(f, v, c, lim, lim.maxDepth - 1 - |below|, 0, 0);
    CompletesIsPart(s, below, c, e, whole);
    PartsOfWhole(below, c, whole.0, lim, lim.maxDepth - 1 - |below|, 0, 1);
  }

  // ------------------------------------------- what each character does to `Rest`

  lemma SkipSpaceTwice(s: seq<Byte>, i: nat)
    requires i <= |s|
    ensures SkipSpace(s, SkipSpace(s, i)) == SkipSpace(s, i)
  {}

  lemma {:induction false} RestAfterSpace(s: seq<Byte>, f: Frame, pos: nat)
    requires pos <= |s| && Active(f)
    ensures Rest(s, f, pos) == Rest(s, f, SkipSpace(s, pos))
  {
    SkipSpaceTwice(s, pos);
  }

  lemma RestAtEnd(s: seq<Byte>, f: Frame)
    requires Active(f)
    ensures Rest(s, f, |s|) == None
  {}

  ghost predicate AtToken(s: seq<Byte>, pos: nat) { pos < |s| && !IsSpace(s[pos]) }

  lemma {:induction false} OpenArray(s: seq<Byte>, pos: nat)
    requires AtToken(s, pos) && s[pos] == LBRACKET
    ensures var q := SkipSpace(s, pos + 1); var g := Frame(ArrItem, Arr([]), []);
            if Looks(s, q, RBRACKET) then Rest(s, VALUE_FRAME, pos) == Some((Arr([]), q + 1))
            else Rest(s, VALUE_FRAME, pos) == Then(s, Rest(s, VALUE_FRAME, q), g)
  {
    var q := SkipSpace(s, pos + 1);
    assert Value(s, pos) == ArrayBody(s, q);
    if !Looks(s, q, RBRACKET) {
      assert ArrayBody(s, q) == AsArray([], Elements(s, q));
      match Value(s, q)
      case None => assert Elements(s, q) == None;
      case Some((v, j)) =>
        assert Elements(s, q) == Lift([v], MoreElements(s, j));
        if MoreElements(s, j).Some? { Associative([], [v], MoreElements(s, j).value.0); }
    }
  }

  lemma {:induction false} OpenObject(s: seq<Byte>, pos: nat)
    requires AtToken(s, pos) && s[pos] == LBRACE
    ensures var q := SkipSpace(s, pos + 1);
            if Looks(s, q, RBRACE) then Rest(s, VALUE_FRAME, pos) == Some((Obj([]), q + 1))
            else Rest(s, VALUE_FRAME, pos) == Rest(s, Frame(ObjKey, Obj([]), []), q)
  {
    var q := SkipSpace(s, pos + 1);
    assert Value(s, pos) == ObjectBody(s, q);
    if !Looks(s, q, RBRACE) { assert ObjectBody(s, q) == AsObject([], Members(s, q)); }
  }

  /** A bracket or a brace opens a container. */
  lemma {:induction false} OpensContainer(s: seq<Byte>, pos: nat)
    requires AtToken(s, pos) && (s[pos] == LBRACKET || s[pos] == LBRACE)
    ensures var r := Rest(s, VALUE_FRAME, pos); r.Some? ==> r.value.0.Arr? || r.value.0.Obj?
  {
    var q := SkipSpace(s, pos + 1);
    assert Value(s, pos) == if s[pos] == LBRACKET then ArrayBody(s, q) else ObjectBody(s, q);
  }

  lemma ContainerNeedsDepth(v: Json, lim: Limits, depth: int)
    requires (v.Arr? || v.Obj?) && depth <= 0
    ensures Excess(v, lim, depth) > 0
  {}

  lemma EmptyContainers(items: seq<Json>, pairs: seq<Pair>, lim: Limits, depth: int)
    requires items == [] && pairs == [] && depth > 0
    ensures Nodes(Arr(items)) == 1 && Excess(Arr(items), lim, depth) == 0
    ensures Nodes(Obj(pairs)) == 1 && Excess(Obj(pairs), lim, depth) == 0
  {}

  lemma {:induction false} ArrayContinues(s: seq<Byte>, f: Frame, pos: nat)
    requires AtToken(s, pos) && Active(f) && f.state == ArrCont
    ensures if s[pos] == RBRACKET then Rest(s, f, pos) == Some((f.container, pos + 1))
            else if s[pos] == COMMA then Rest(s, f, pos) == Then(s, Rest(s, VALUE_FRAME, pos + 1), f.(state := ArrItem))
            else Rest(s, f, pos) == None
  {
    var items := f.container.items;
    if s[pos] == RBRACKET {
      assert items + [] == items;
    } else if s[pos] == COMMA {
      match Value(s, pos + 1)
      case None => assert Elements(s, pos + 1) == None;
      case Some((v, j)) =>
        assert Elements(s, pos + 1) == Lift([v], MoreElements(s, j));
        if MoreElements(s, j).Some? { Associative(items, [v], MoreElements(s, j).value.0); }
    }
  }

  lemma KeyRead(s: seq<Byte>, f: Frame, pos: nat)
    requires AtToken(s, pos) && Active(f) && f.state == ObjKey
    ensures if s[pos] != QUOTE then Rest(s, f, pos) == None
            else match StringBody(s, pos + 1)
              case None => Rest(s, f, pos) == None
              case Some((key, j)) => Rest(s, f, pos) == Rest(s, f.(state := ObjColon, key := key), j)
  {}

  /** A key that is too long makes the object break a limit. */
  lemma {:induction false} LongKey(s: seq<Byte>, f: Frame, pos: nat, lim: Limits, depth: int)
    requires pos <= |s| && Active(f) && f.state == ObjColon && LongString(f.key, lim)
    ensures var r := Rest(s, f, pos); r.Some? ==> Excess(r.value.0, lim, depth) > 0
  {
    var m := MemberValue(s, pos, f.key);
    if m.Some? {
      var p := m.value.0[0];
      assert p.key == f.key && m.value.0 == [p] + m.value.0[1..];
      Associative(f.container.pairs, [p], m.value.0[1..]);
      PairsSnoc(f.container.pairs, p, lim, depth - 1);
      PairsGrow(f.container.pairs + [p], m.value.0[1..], lim, depth - 1);
    }
  }

  lemma {:induction false} ColonRead(s: seq<Byte>, f: Frame, pos: nat)
    requires AtToken(s, pos) && Active(f) && f.state == ObjColon
    ensures if s[pos] != COLON then Rest(s, f, pos) == None
            else Rest(s, f, pos) == Then(s, Rest(s, VALUE_FRAME, pos + 1), f.(state := ObjVal))
  {
    if s[pos] == COLON {
      match Value(s, pos + 1)
      case None =>
      case Some((v, j)) =>
        if MoreMembers(s, j).Some? { Associative(f.container.pairs, [Pair(f.key, v)], MoreMembers(s, j).value.0); }
    }
  }

  lemma {:induction false} ObjectContinues(s: seq<Byte>, f: Frame, pos: nat)
    requires AtToken(s, pos) && Active(f) && f.state == ObjCont
    ensures if s[pos] == RBRACE then Rest(s, f, pos) == Some((f.container, pos + 1))
            else if s[pos] == COMMA then Rest(s, f, pos) == Rest(s, f.(state := ObjKey), pos + 1)
            else Rest(s, f, pos) == None
  {
    if s[pos] == RBRACE { assert f.container.pairs + [] == f.container.pairs; }
  }

  lemma {:induction false} LiteralTail(s: seq<Byte>, p: nat, t: seq<Byte>)
    requires p < |s| && t != []
    ensures LiteralAt(s, p, t) <==> s[p] == t[0] && LiteralAt(s, p + 1, t[1..])
  {
    if p + |t| <= |s| {
      assert s[p..p + |t|] == [s[p]] + s[p + 1..p + 1 + |t[1..]|];
      assert t == [t[0]] + t[1..];
    }
  }

  lemma {:induction false} LiteralStart(s: seq<Byte>, p: nat, t: seq<Byte>)
    requires LiteralAt(s, p, t) && t != []
    ensures s[p] == t[0]
  {
    assert s[p] == s[p..p + |t|][0];
  }

  function Literal(s: seq<Byte>, p: nat, t: seq<Byte>, v: Json): Parsed<Json> {
    if LiteralAt(s, p, t) then Some((v, p + |t|)) else None
  }

  /** The first character decides what a scalar is. */
  lemma {:induction false} ScalarByStart(s: seq<Byte>, p: nat)
    requires p < |s|
    ensures s[p] == NULL_TEXT[0] ==> Scalar(s, p) == Literal(s, p, NULL_TEXT, Null)
    ensures s[p] == TRUE_TEXT[0] ==> Scalar(s, p) == Literal(s, p, TRUE_TEXT, Bool(true))
    ensures s[p] == FALSE_TEXT[0] ==> Scalar(s, p) == Literal(s, p, FALSE_TEXT, Bool(false))
    ensures s[p] !in {NULL_TEXT[0], TRUE_TEXT[0], FALSE_TEXT[0]} ==>
              Scalar(s, p) == if s[p] == QUOTE then StringValue(StringBody(s, p + 1))
                              else if s[p] == MINUS || IsDigit(s[p]) then Number(s, p) else None
  {
    if LiteralAt(s, p, NULL_TEXT) { LiteralStart(s, p, NULL_TEXT); }
    if LiteralAt(s, p, TRUE_TEXT) { LiteralStart(s, p, TRUE_TEXT); }
    if LiteralAt(s, p, FALSE_TEXT) { LiteralStart(s, p, FALSE_TEXT); }
  }

  function StringValue(r: Parsed<seq<Byte>>): Parsed<Json> {
    match r case None => None case Some((t, j)) => Some((Str(t), j))
  }
}
