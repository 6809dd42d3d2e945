/** The moves of the parser on its stack, one lemma each: from a stack that means
    what the text means to another that does, or to the finding that the text is
    to be refused. */
module JsonMoves {
  import opened Bytes
  import opened JsonGrammar
  import opened JsonMachine

  /** A text to be parsed within limits, and what the grammar makes of it. */
  datatype Job = Job(s: seq<Byte>, lim: Limits, used: nat, goal: Parsed<Json>)

  ghost predicate Refused(j: Job) { j.goal.Some? ==> !Fits(j.goal.value.0, j.lim, j.used) }

  /** Why a text is to be refused: there is no tree, or it breaks a limit on
      strings, arrays, numbers or depth, or it is too deep whatever the other
      limits are, or it has too many nodes. */
  ghost predicate NoTree(j: Job) { j.goal.None? }

  ghost predicate Exceeds(j: Job, lim: Limits) {
    j.goal.Some? ==> Excess(j.goal.value.0, lim, lim.maxDepth - 1) > 0
  }

  ghost predicate TooDeep(j: Job) { forall m: Limits :: m.maxDepth == j.lim.maxDepth ==> Exceeds(j, m) }

  ghost predicate TooMany(j: Job) { j.goal.Some? ==> j.used + Nodes(j.goal.value.0) > j.lim.maxNodes }

  /** What `top` reads from `pos` on, handed to `below`, is the goal. */
  ghost predicate Means(s: seq<Byte>, below: seq<Frame>, top: Frame, pos: nat, goal: Parsed<Json>)
    requires pos <= |s| && AllWaiting(below) && Active(top)
  {
    After(s, below, Rest(s, top, pos)) == goal
  }

  /** The frames `below` wait for values, `top` is active, together they read the
      goal from `pos` on, and what they hold is within the limits and takes
      `nodes`; only an arena that was full to begin with may be past its limit. */
  ghost predicate Good(j: Job, below: seq<Frame>, top: Frame, pos: nat, nodes: nat) {
    && pos <= |j.s| && AllWaiting(below) && Active(top)
    && Means(j.s, below, top, pos, j.goal)
    && StackExcess(below, j.lim) == 0 && FrameExcess(top, j.lim, j.lim.maxDepth - 1 - |below|) == 0
    && nodes == j.used + StackNodes(below) + FrameNodes(top)
    && (nodes == j.used || nodes <= j.lim.maxNodes)
  }

  /** The same when the value above `below` is complete. */
  ghost predicate Ready(j: Job, below: seq<Frame>, v: Json, pos: nat, nodes: nat) {
    && pos <= |j.s| && AllWaiting(below)
    && Complete(j.s, below, v, pos) == j.goal
    && StackExcess(below, j.lim) == 0 && Excess(v, j.lim, j.lim.maxDepth - 1 - |below|) == 0
    && nodes == j.used + StackNodes(below) + Nodes(v) <= j.lim.maxNodes
  }

  // ---------------------------------------------------------- start and finish

  lemma {:induction false} Start(s: seq<Byte>, lim: Limits, used: nat)
    ensures Good(Job(s, lim, used, Value(s, 0)), [], VALUE_FRAME, 0, used)
  {
    if Value(s, 0).Some? { assert Complete(s, [], Value(s, 0).value.0, Value(s, 0).value.1) == Value(s, 0); }
  }

  lemma {:induction false} Finish(j: Job, v: Json, pos: nat, nodes: nat)
    requires Ready(j, [], v, pos, nodes)
    ensures j.goal == Some((v, pos)) && !Refused(j)
  {}

  lemma {:induction false} SpaceKeeps(j: Job, below: seq<Frame>, f: Frame, pos: nat, nodes: nat)
    requires Good(j, below, f, pos, nodes)
    ensures Good(j, below, f, SkipSpace(j.s, pos), nodes)
  {
    RestAfterSpace(j.s, f, pos);
  }

  lemma {:induction false} EndRefuses(j: Job, below: seq<Frame>, f: Frame, nodes: nat)
    requires Good(j, below, f, |j.s|, nodes)
    ensures NoTree(j)
  {
    RestAtEnd(j.s, f);
  }

  /** The active frame reads the value `r`, or none: a limit broken by that is
      broken by the whole. */
  lemma {:induction false} PartExceeds(j: Job, below: seq<Frame>, r: Parsed<Json>, lim: Limits)
    requires AllWaiting(below) && (r.Some? ==> r.value.1 <= |j.s|) && After(j.s, below, r) == j.goal
    requires r.Some? ==> Excess(r.value.0, lim, lim.maxDepth - 1 - |below|) > 0
    ensures Exceeds(j, lim)
  {
    if j.goal.Some? {
      CompletesIsPart(j.s, below, r.value.0, r.value.1, j.goal.value);
      PartsOfWhole(below, r.value.0, j.goal.value.0, lim, lim.maxDepth - 1 - |below|, 0, 1);
    }
  }

  // ------------------------------------------------------- nesting and delivery

  /** A value frame over a waiting one reads what the waiting one reads with it. */
  lemma {:induction false} PushMeans(s: seq<Byte>, below: seq<Frame>, g: Frame, pos: nat)
    requires pos <= |s| && AllWaiting(below) && Waiting(g)
    ensures AllWaiting(below + [g])
    ensures After(s, below + [g], Rest(s, VALUE_FRAME, pos)) == After(s, below, Then(s, Rest(s, VALUE_FRAME, pos), g))
  {
    var r := Rest(s, VALUE_FRAME, pos);
    if r.Some? {
      CompleteSnoc(s, below, g, r.value.0, r.value.1);
      ResumeSnoc(s, below, Deliver(g, r.value.0), r.value.1);
    }
  }

  /** There is room for a frame above a container within the limits. */
  lemma {:induction false} RoomAbove(j: Job, below: seq<Frame>, g: Frame)
    requires Waiting(g) && FrameExcess(g, j.lim, j.lim.maxDepth - 1 - |below|) == 0
    ensures |below| + 1 < j.lim.maxDepth
  {
    if |below| + 1 >= j.lim.maxDepth { ContainerNeedsDepth(g.container, j.lim, j.lim.maxDepth - 1 - |below|); }
  }

  lemma {:induction false} PushGood(j: Job, below: seq<Frame>, g: Frame, pos: nat, nodes: nat)
    requires pos <= |j.s| && AllWaiting(below) && Waiting(g)
    requires After(j.s, below, Then(j.s, Rest(j.s, VALUE_FRAME, pos), g)) == j.goal
    requires StackExcess(below, j.lim) == 0 && FrameExcess(g, j.lim, j.lim.maxDepth - 1 - |below|) == 0
    requires nodes == j.used + StackNodes(below) + FrameNodes(g) && (nodes == j.used || nodes <= j.lim.maxNodes)
    ensures |below| + 1 < j.lim.maxDepth && Good(j, below + [g], VALUE_FRAME, pos, nodes)
  {
    RoomAbove(j, below, g);
    PushMeans(j.s, below, g, pos);
    StackSnoc(below, g, j.lim);
  }

  /** The frame that takes the value: what it holds is within the limits. */
  lemma {:induction false} ParentHolds(j: Job, below: seq<Frame>, f: Frame, v: Json, pos: nat, nodes: nat)
    requires Ready(j, below + [f], v, pos, nodes)
    ensures AllWaiting(below) && Waiting(f) && FrameNodes(f) <= j.lim.maxNodes
    ensures f.container.Arr? ==> !LongArray(Entries(f), j.lim)
    ensures StackExcess(below, j.lim) == 0 && FrameExcess(f, j.lim, j.lim.maxDepth - 1 - |below|) == 0
    ensures nodes == j.used + StackNodes(below) + FrameNodes(f) + Nodes(v)
  {
    StackSnoc(below, f, j.lim);
    var all := below + [f];
    assert all[|below|] == f && forall k :: 0 <= k < |below| ==> all[k] == below[k];
  }

  lemma {:induction false} DeliverMeans(s: seq<Byte>, below: seq<Frame>, f: Frame, v: Json, pos: nat)
    requires pos <= |s| && AllWaiting(below) && Waiting(f)
    ensures AllWaiting(below + [f]) && Complete(s, below + [f], v, pos) == After(s, below, Rest(s, Deliver(f, v), pos))
  {
    CompleteSnoc(s, below, f, v, pos);
    ResumeSnoc(s, below, Deliver(f, v), pos);
  }

  /** A complete value is delivered to the frame that waits for it ... */
  lemma {:induction false} HandDown(j: Job, below: seq<Frame>, f: Frame, v: Json, pos: nat, nodes: nat)
    requires Ready(j, below + [f], v, pos, nodes) && !NoRoom(f, j.lim)
    ensures Waiting(f) && Good(j, below, Deliver(f, v), pos, nodes)
  {
    ParentHolds(j, below, f, v, pos, nodes);
    DeliverMeans(j.s, below, f, v, pos);
    DeliverExcess(f, v, j.lim, j.lim.maxDepth - 1 - |below|);
  }

  /** ... unless that frame has no room. */
  lemma {:induction false} NoRoomRefuses(j: Job, below: seq<Frame>, f: Frame, v: Json, pos: nat, nodes: nat)
    requires Ready(j, below + [f], v, pos, nodes) && NoRoom(f, j.lim)
    ensures Exceeds(j, j.lim)
  {
    if j.goal.Some? { FullArrayOfWhole(j.s, below, f, v, pos, j.lim, j.goal.value); }
  }

  // -------------------------------------------------------------------- values

  /** Another value when no node is left. */
  lemma {:induction false} NodesRefuse(j: Job, below: seq<Frame>, pos: nat, nodes: nat)
    requires Good(j, below, VALUE_FRAME, pos, nodes) && nodes >= j.lim.maxNodes
    ensures TooMany(j)
  {
    var r := Rest(j.s, VALUE_FRAME, pos);
    if j.goal.Some? {
      CompletesIsPart(j.s, below, r.value.0, r.value.1, j.goal.value);
      PartsOfWhole(below, r.value.0, j.goal.value.0, j.lim, j.lim.maxDepth - 1 - |below|, 1, 0);
    }
  }

  lemma {:induction false} ScalarMove(j: Job, below: seq<Frame>, pos: nat, nodes: nat)
    requires Good(j, below, VALUE_FRAME, pos, nodes) && AtToken(j.s, pos) && j.s[pos] != LBRACKET && j.s[pos] != LBRACE
    requires nodes < j.lim.maxNodes
    ensures match Scalar(j.s, pos)
            case None => NoTree(j)
            case Some((v, e)) =>
              if Excess(v, j.lim, j.lim.maxDepth - 1 - |below|) > 0 then Exceeds(j, j.lim)
              else Nodes(v) == 1 ==> Ready(j, below, v, e, nodes + 1)
  {
    var r := Rest(j.s, VALUE_FRAME, pos);
    assert r == Scalar(j.s, pos);
    if r.Some? && Excess(r.value.0, j.lim, j.lim.maxDepth - 1 - |below|) > 0 { PartExceeds(j, below, r, j.lim); }
  }

  /** A container that opens at the greatest depth breaks the depth limit. */
  lemma {:induction false} DepthRefuses(j: Job, below: seq<Frame>, pos: nat, nodes: nat)
    requires Good(j, below, VALUE_FRAME, pos, nodes) && AtToken(j.s, pos)
    requires j.s[pos] == LBRACKET || j.s[pos] == LBRACE
    requires |below| + 1 >= j.lim.maxDepth
    ensures TooDeep(j)
  {
    var r := Rest(j.s, VALUE_FRAME, pos);
    OpensContainer(j.s, pos);
    forall m: Limits | m.maxDepth == j.lim.maxDepth ensures Exceeds(j, m) {
      if r.Some? { ContainerNeedsDepth(r.value.0, m, m.maxDepth - 1 - |below|); }
      PartExceeds(j, below, r, m);
    }
  }

  /** What is to follow behind an opening bracket and white space. */
  ghost predicate InArray(j: Job, below: seq<Frame>, items: seq<Json>, q: nat, nodes: nat) {
    if Looks(j.s, q, RBRACKET) then Ready(j, below, Arr(items), q + 1, nodes)
    else Good(j, below + [Frame(ArrItem, Arr(items), [])], VALUE_FRAME, q, nodes)
  }

  ghost predicate InObject(j: Job, below: seq<Frame>, pairs: seq<Pair>, q: nat, nodes: nat) {
    if Looks(j.s, q, RBRACE) then Ready(j, below, Obj(pairs), q + 1, nodes)
    else Good(j, below, Frame(ObjKey, Obj(pairs), []), q, nodes)
  }

  lemma {:induction false} ArrayOpens(j: Job, below: seq<Frame>, pos: nat, nodes: nat, items: seq<Json>)
    requires Good(j, below, VALUE_FRAME, pos, nodes) && AtToken(j.s, pos) && j.s[pos] == LBRACKET && items == []
    requires nodes < j.lim.maxNodes && |below| + 1 < j.lim.maxDepth
    ensures InArray(j, below, items, SkipSpace(j.s, pos + 1), nodes + 1)
  {
    EmptyContainers(items, [], j.lim, j.lim.maxDepth - 1 - |below|);
    OpenArray(j.s, pos);
    var q := SkipSpace(j.s, pos + 1);
    if !Looks(j.s, q, RBRACKET) { PushGood(j, below, Frame(ArrItem, Arr(items), []), q, nodes + 1); }
  }

  lemma {:induction false} ObjectOpens(j: Job, below: seq<Frame>, pos: nat, nodes: nat, pairs: seq<Pair>)
    requires Good(j, below, VALUE_FRAME, pos, nodes) && AtToken(j.s, pos) && j.s[pos] == LBRACE && pairs == []
    requires nodes < j.lim.maxNodes && |below| + 1 < j.lim.maxDepth
    ensures InObject(j, below, pairs, SkipSpace(j.s, pos + 1), nodes + 1)
  {
    EmptyContainers([], pairs, j.lim, j.lim.maxDepth - 1 - |below|);
    OpenObject(j.s, pos);
  }

  // ------------------------------------------------------- inside a container

  lemma {:induction false} ArrayMove(j: Job, below: seq<Frame>, f: Frame, pos: nat, nodes: nat)
    requires Good(j, below, f, pos, nodes) && AtToken(j.s, pos) && f.state == ArrCont
    ensures if j.s[pos] == RBRACKET then Ready(j, below, f.container, pos + 1, nodes)
            else if j.s[pos] == COMMA then
              |below| + 1 < j.lim.maxDepth && Good(j, below + [f.(state := ArrItem)], VALUE_FRAME, pos + 1, nodes)
            else NoTree(j)
  {
    ArrayContinues(j.s, f, pos);
    if j.s[pos] == RBRACKET {
      CloseReady(j, below, f, pos, nodes, pos + 1);
    } else if j.s[pos] == COMMA {
      NextEntry(j, below, f, f.(state := ArrItem), pos, nodes, pos + 1);
    }
  }

  /** A container that goes on waits for its next value. */
  lemma {:induction false} NextEntry(j: Job, below: seq<Frame>, f: Frame, g: Frame, pos: nat, nodes: nat, next: nat)
    requires Good(j, below, f, pos, nodes) && f.state == ArrCont && g == f.(state := ArrItem) && next <= |j.s|
    requires Rest(j.s, f, pos) == Then(j.s, Rest(j.s, VALUE_FRAME, next), g)
    ensures |below| + 1 < j.lim.maxDepth && Good(j, below + [g], VALUE_FRAME, next, nodes)
  {
    assert FrameNodes(g) == FrameNodes(f);
    PushGood(j, below, g, next, nodes);
  }

  /** A container that ends is complete. */
  lemma {:induction false} CloseReady(j: Job, below: seq<Frame>, f: Frame, pos: nat, nodes: nat, e: nat)
    requires Good(j, below, f, pos, nodes) && (f.state == ArrCont || f.state == ObjCont)
    requires Rest(j.s, f, pos) == Some((f.container, e)) && e <= |j.s|
    ensures Ready(j, below, f.container, e, nodes)
  {}

  /** What a key, read or not, leads to. */
  ghost predicate WithKey(j: Job, below: seq<Frame>, f: Frame, body: Parsed<seq<Byte>>, nodes: nat) {
    match body
    case None => NoTree(j)
    case Some((key, e)) =>
      if LongString(key, j.lim) then Exceeds(j, j.lim) else Good(j, below, f.(state := ObjColon, key := key), e, nodes)
  }

  lemma {:induction false} NoKey(j: Job, below: seq<Frame>, f: Frame, pos: nat, nodes: nat)
    requires Good(j, below, f, pos, nodes) && AtToken(j.s, pos) && f.state == ObjKey && j.s[pos] != QUOTE
    ensures NoTree(j)
  {
    KeyRead(j.s, f, pos);
  }

  lemma {:induction false} KeyMove(j: Job, below: seq<Frame>, f: Frame, pos: nat, nodes: nat)
    requires Good(j, below, f, pos, nodes) && AtToken(j.s, pos) && f.state == ObjKey && j.s[pos] == QUOTE
    ensures WithKey(j, below, f, StringBody(j.s, pos + 1), nodes)
  {
    KeyRead(j.s, f, pos);
    if StringBody(j.s, pos + 1).Some? {
      var (key, e) := StringBody(j.s, pos + 1).value;
      if LongString(key, j.lim) {
        LongKey(j.s, f.(state := ObjColon, key := key), e, j.lim, j.lim.maxDepth - 1 - |below|);
        PartExceeds(j, below, Rest(j.s, f, pos), j.lim);
      }
    }
  }

  lemma {:induction false} ColonMove(j: Job, below: seq<Frame>, f: Frame, pos: nat, nodes: nat)
    requires Good(j, below, f, pos, nodes) && AtToken(j.s, pos) && f.state == ObjColon
    ensures if j.s[pos] == COLON then
              |below| + 1 < j.lim.maxDepth && Good(j, below + [f.(state := ObjVal)], VALUE_FRAME, pos + 1, nodes)
            else NoTree(j)
  {
    ColonRead(j.s, f, pos);
    if j.s[pos] == COLON { PushGood(j, below, f.(state := ObjVal), pos + 1, nodes); }
  }

  lemma {:induction false} ObjectMove(j: Job, below: seq<Frame>, f: Frame, pos: nat, nodes: nat)
    requires Good(j, below, f, pos, nodes) && AtToken(j.s, pos) && f.state == ObjCont
    ensures if j.s[pos] == RBRACE then Ready(j, below, f.container, pos + 1, nodes)
            else if j.s[pos] == COMMA then Good(j, below, f.(state := ObjKey), pos + 1, nodes)
            else NoTree(j)
  {
    ObjectContinues(j.s, f, pos);
    if j.s[pos] == RBRACE { CloseReady(j, below, f, pos, nodes, pos + 1); }
  }
}
