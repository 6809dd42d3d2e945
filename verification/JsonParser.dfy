/** `json_parse`: the explicit-stack machine accepts exactly the texts the
    grammar accepts within the limits, and builds the same tree. */
module JsonParser {
  import opened Bytes
  import opened JsonGrammar
  import opened JsonScan
  import opened JsonMachine
  import opened JsonMoves

  /** Limits under which 32-bit capacities cannot wrap. */
  predicate Sound(lim: Limits) { lim.maxDepth >= 1 && lim.maxNodes < 0x2000_0000 && lim.maxArray < 0x8000_0000 }

  datatype Outcome = Running | Finished(v: Json) | Failed(e: Error)

  class Parser {
    const s: seq<Byte>
    const lim: Limits
    const stack: array<Frame>
    const arena: Arena
    var depth: nat
    var pos: nat
    var nodes: nat
    ghost const job: Job
    ghost var below: seq<Frame>

    ghost predicate Shape()
      reads this
    {
      && Sound(lim) && job.s == s && job.lim == lim
      && stack.Length == lim.maxDepth && 1 <= depth <= lim.maxDepth && pos <= |s|
    }

    /** `depth` stays in 1..maxDepth, every frame below the top is waiting for a
        value, the stack reads what the text means, and the parts held so far
        are within the limits. */
    ghost predicate Valid()
      reads this, stack
    {
      Shape() && stack[..depth - 1] == below && Good(job, below, stack[depth - 1], pos, nodes)
    }

    /** The node for the value at the cursor has been taken. */
    ghost predicate Counted()
      reads this, stack
    {
      && Shape() && AtToken(s, pos) && 0 < nodes <= lim.maxNodes && stack[depth - 1] == VALUE_FRAME
      && stack[..depth - 1] == below && Good(job, below, VALUE_FRAME, pos, nodes - 1)
    }

    /** What a step may end in: the grammar's tree within the limits, or an error
        where there is none; only the arena can interfere. */
    ghost predicate Fair(o: Outcome)
      reads this, stack, arena
    {
      match o
      case Running => Valid()
      case Finished(v) => pos <= |s| && job.goal == Some((v, pos)) && !Refused(job)
      case Failed(e) => if e == OutOfMemory then arena.left == 0 else Blames(e, job)
    }

    constructor (s: seq<Byte>, lim: Limits, used: nat, arena: Arena)
      requires Sound(lim)
      ensures Valid() && this.s == s && this.lim == lim && this.arena == arena && fresh(stack)
      ensures job == Job(s, lim, used, Value(s, 0)) && pos == 0
    {
      this.s, this.lim, this.arena := s, lim, arena;
      stack := new Frame[lim.maxDepth](_ => VALUE_FRAME);
      depth, pos, nodes, job, below := 1, 0, used, Job(s, lim, used, Value(s, 0)), [];
      Start(s, lim, used);
    }

    // ----------------------------------------------------------------- frames

    /** Replaces the active frame; everything below stays. */
    method SetTop(f: Frame)
      requires Shape() && stack[..depth - 1] == below && Good(job, below, f, pos, nodes)
      modifies stack
      ensures Valid()
    {
      stack[depth - 1] := f;
      assert stack[..depth - 1] == below;
    }

    /** Makes the active frame wait in state `f` and pushes one for its value. */
    method Nest(f: Frame)
      requires Shape() && stack[..depth - 1] == below && depth < lim.maxDepth
      requires Good(job, below + [f], VALUE_FRAME, pos, nodes)
      modifies this`depth, this`below, stack
      ensures Valid()
    {
      stack[depth - 1] := f;
      stack[depth] := VALUE_FRAME;
      depth, below := depth + 1, below + [f];
      assert stack[..depth - 1] == below;
    }

    /** Pops the finished frame and hands its value to the one below, or finishes.
        The branch for a frame below in any other state cannot be reached. */
    method Deliver(v: Json) returns (o: Outcome)
      requires Shape() && stack[..depth - 1] == below && Ready(job, below, v, pos, nodes)
      modifies this`depth, this`below, stack, arena
      ensures Fair(o)
    {
      if depth == 1 {
        Finish(job, v, pos, nodes);
        return Finished(v);
      }
      depth := depth - 1;
      var parent := stack[depth - 1];
      ghost var all := below;
      below := stack[..depth - 1];
      assert all == below + [parent];
      ParentHolds(job, below, parent, v, pos, nodes);
      var error := MakeRoom(parent);
      if error.Some? {
        if error.value != OutOfMemory { NoRoomRefuses(job, below, parent, v, pos, nodes); }
        return Failed(error.value);
      }
      HandDown(job, below, parent, v, pos, nodes);
      Receive(parent, v);
      return Running;
    }

    /** Appends the value to the waiting container. */
    method Receive(parent: Frame, v: Json)
      requires Shape() && stack[..depth - 1] == below && Waiting(parent)
      requires Good(job, below, JsonMachine.Deliver(parent, v), pos, nodes)
      modifies stack
      ensures Valid()
    {
      if parent.state == ArrItem || parent.state == ArrCont {
        SetTop(parent.(state := ArrCont, container := Arr(parent.container.items + [v])));
      } else if parent.state == ObjVal {
        SetTop(parent.(state := ObjCont, container := Obj(parent.container.pairs + [Pair(parent.key, v)])));
      } else {
        assert false;
      }
    }

    /** `json__arr_grow` and `json__obj_grow`: double when full, starting from
        eight; arrays stop at their limit, and neither capacity can wrap. */
    method MakeRoom(f: Frame) returns (error: Option<Error>)
      modifies arena
      requires Sound(lim) && Waiting(f) && FrameNodes(f) <= lim.maxNodes
      requires f.container.Arr? ==> !LongArray(Entries(f), lim)
      ensures error == None ==> !NoRoom(f, lim)
      ensures error.Some? ==>
        if error.value == OutOfMemory then arena.left == 0 else error.value == Overflow && NoRoom(f, lim)
    {
      CapacityStep(Entries(f));
      CapacityBelowNodes(f);
      var cap := Capacity(Entries(f));
      if Entries(f) >= cap {
        var grown := if cap == 0 then 8 else cap * 2 % TWO32;
        if grown < cap { return Some(Overflow); }
        if f.container.Arr? && grown > lim.maxArray { return Some(Overflow); }
        var ok := arena.Allocate();
        if !ok { return Some(OutOfMemory); }
      }
      return None;
    }

    // ----------------------------------------------------------------- values

    /** `PS_VALUE`: any value. */
    method StepValue() returns (o: Outcome)
      requires Valid() && AtToken(s, pos) && stack[depth - 1] == VALUE_FRAME
      modifies this, stack, arena
      ensures Fair(o) && (o.Running? ==> pos > old(pos))
    {
      if nodes >= lim.maxNodes {
        NodesRefuse(job, below, pos, nodes);
        return Failed(NodeLimit);
      }
      var ok := arena.Allocate();
      if !ok { return Failed(OutOfMemory); }
      nodes := nodes + 1;
      if s[pos] == LBRACKET {
        o := BeginArray();
      } else if s[pos] == LBRACE {
        o := BeginObject();
      } else {
        o := TakeScalar();
      }
    }

    method TakeScalar() returns (o: Outcome)
      requires Counted() && s[pos] != LBRACKET && s[pos] != LBRACE
      modifies this, stack, arena
      ensures Fair(o) && (o.Running? ==> pos > old(pos))
    {
      ScalarMove(job, below, pos, nodes - 1);
      var r := ReadScalar(lim.maxDepth - 1 - |below|);
      if r.Err? { return Failed(r.error); }
      o := Deliver(r.value);
    }

    /** A scalar value. */
    method ReadScalar(ghost d: int) returns (r: Result<Json>)
      requires Shape() && AtToken(s, pos) && s[pos] != LBRACKET && s[pos] != LBRACE
      modifies this`pos, arena
      ensures pos <= |s|
      ensures match r
              case Ok(v) =>
                Scalar(s, old(pos)) == Some((v, pos)) && old(pos) < pos && Nodes(v) == 1 && Excess(v, lim, d) == 0
              case Err(e) => if e == OutOfMemory then arena.left == 0
                             else match Scalar(s, old(pos))
                               case None => OfScalar(e)
                               case Some((v, _)) => (e == Overflow || e == InvalidNumber) && Excess(v, lim, d) > 0
    {
      ScalarByStart(s, pos);
      var c := s[pos];
      if c == 0x6E {
        r := ReadLiteral(NULL_TEXT, Null);
      } else if c == 0x74 {
        r := ReadLiteral(TRUE_TEXT, Bool(true));
      } else if c == 0x66 {
        r := ReadLiteral(FALSE_TEXT, Bool(false));
      } else if c == QUOTE {
        var t, next := ParseString(s, pos + 1, lim.maxString, arena);
        if t.Err? { return Err(t.error); }
        pos := next;
        return Ok(Str(t.value));
      } else if c == MINUS || IsDigit(c) {
        var n, next := ParseNumber(s, pos, lim.finite, arena);
        if n.Err? { return Err(n.error); }
        pos := next;
        return n;
      } else {
        return Err(InvalidJson);
      }
    }

    /** The rest of a literal name whose first letter has been seen. */
    method ReadLiteral(text: seq<Byte>, v: Json) returns (r: Result<Json>)
      requires Shape() && pos < |s| && |text| >= 1 && s[pos] == text[0]
      modifies this`pos
      ensures r == if LiteralAt(s, old(pos), text) then Ok(v) else Err(InvalidJson)
      ensures r.Ok? ==> pos == old(pos) + |text| <= |s|
      ensures r.Err? ==> pos <= |s|
    {
      LiteralTail(s, pos, text);
      pos := pos + 1;
      if !LiteralAt(s, pos, text[1..]) { return Err(InvalidJson); }
      pos := pos + |text| - 1;
      return Ok(v);
    }

    lemma TooDeepHere()
      requires Counted() && (s[pos] == LBRACKET || s[pos] == LBRACE) && depth >= lim.maxDepth
      ensures TooDeep(job)
    {
      DepthRefuses(job, below, pos, nodes - 1);
    }

    method BeginArray() returns (o: Outcome)
      requires Counted() && s[pos] == LBRACKET
      modifies this, stack, arena
      ensures Fair(o) && (o.Running? ==> pos > old(pos))
    {
      if depth >= lim.maxDepth {
        TooDeepHere();
        return Failed(DepthExceeded);
      }
      var items: seq<Json> := [];
      ArrayOpens(job, below, pos, nodes - 1, items);
      pos := pos + 1;
      o := InArray(items);
    }

    method InArray(items: seq<Json>) returns (o: Outcome)
      requires Shape() && stack[..depth - 1] == below && depth < lim.maxDepth
      requires JsonMoves.InArray(job, below, items, SkipSpace(s, pos), nodes)
      modifies this, stack, arena
      ensures Fair(o) && pos >= old(pos)
    {
      pos := SkipSpaces(s, pos);
      if pos < |s| && s[pos] == RBRACKET {
        pos := pos + 1;
        o := Deliver(Arr(items));
        return;
      }
      Nest(Frame(ArrItem, Arr(items), []));
      return Running;
    }

    method BeginObject() returns (o: Outcome)
      requires Counted() && s[pos] == LBRACE
      modifies this, stack, arena
      ensures Fair(o) && (o.Running? ==> pos > old(pos))
    {
      if depth >= lim.maxDepth {
        TooDeepHere();
        return Failed(DepthExceeded);
      }
      var pairs: seq<Pair> := [];
      ObjectOpens(job, below, pos, nodes - 1, pairs);
      pos := pos + 1;
      o := InObject(pairs);
    }

    method InObject(pairs: seq<Pair>) returns (o: Outcome)
      requires Shape() && stack[..depth - 1] == below
      requires JsonMoves.InObject(job, below, pairs, SkipSpace(s, pos), nodes)
      modifies this, stack, arena
      ensures Fair(o) && pos >= old(pos)
    {
      pos := SkipSpaces(s, pos);
      if pos < |s| && s[pos] == RBRACE {
        pos := pos + 1;
        o := Deliver(Obj(pairs));
        return;
      }
      SetTop(Frame(ObjKey, Obj(pairs), []));
      return Running;
    }

    // ------------------------------------------------------ inside a container

    /** `PS_ARR_CONT`: a comma or the closing bracket.  The depth test never fires,
        here and below: a container open at this depth left room. */
    method StepArray() returns (o: Outcome)
      requires Valid() && AtToken(s, pos) && stack[depth - 1].state == ArrCont
      modifies this, stack, arena
      ensures Fair(o) && (o.Running? ==> pos > old(pos))
    {
      var f := stack[depth - 1];
      ArrayMove(job, below, f, pos, nodes);
      if s[pos] == RBRACKET {
        pos := pos + 1;
        o := Deliver(f.container);
      } else if s[pos] == COMMA {
        pos := pos + 1;
        if depth >= lim.maxDepth {
          assert false;
          return Failed(DepthExceeded);
        }
        Nest(f.(state := ArrItem));
        return Running;
      } else {
        return Failed(InvalidJson);
      }
    }

    /** `PS_OBJ_KEY`: a key. */
    method StepKey() returns (o: Outcome)
      requires Valid() && AtToken(s, pos) && stack[depth - 1].state == ObjKey
      modifies this, stack, arena
      ensures Fair(o) && (o.Running? ==> pos > old(pos))
    {
      var f := stack[depth - 1];
      if s[pos] != QUOTE {
        NoKey(job, below, f, pos, nodes);
        return Failed(InvalidJson);
      }
      KeyMove(job, below, f, pos, nodes);
      var key, next := ParseString(s, pos + 1, lim.maxString, arena);
      o := TakeKey(f, key, next);
    }

    method TakeKey(f: Frame, key: Result<seq<Byte>>, next: nat) returns (o: Outcome)
      requires Shape() && stack[..depth - 1] == below && pos < |s|
      requires StringRead(key, next, s, pos + 1, lim.maxString, arena.left)
      requires WithKey(job, below, f, StringBody(s, pos + 1), nodes)
      modifies this`pos, stack
      ensures Fair(o) && (o.Running? ==> pos > old(pos))
    {
      if key.Err? { return Failed(key.error); }
      pos := next;
      SetTop(f.(state := ObjColon, key := key.value));
      return Running;
    }

    /** `PS_OBJ_COLON`: the colon, then a value. */
    method StepColon() returns (o: Outcome)
      requires Valid() && AtToken(s, pos) && stack[depth - 1].state == ObjColon
      modifies this, stack, arena
      ensures Fair(o) && (o.Running? ==> pos > old(pos))
    {
      var f := stack[depth - 1];
      ColonMove(job, below, f, pos, nodes);
      if s[pos] != COLON { return Failed(InvalidJson); }
      pos := pos + 1;
      if depth >= lim.maxDepth {
        assert false;
        return Failed(DepthExceeded);
      }
      Nest(f.(state := ObjVal));
      return Running;
    }

    /** `PS_OBJ_CONT`: a comma or the closing brace. */
    method StepObject() returns (o: Outcome)
      requires Valid() && AtToken(s, pos) && stack[depth - 1].state == ObjCont
      modifies this, stack, arena
      ensures Fair(o) && (o.Running? ==> pos > old(pos))
    {
      var f := stack[depth - 1];
      ObjectMove(job, below, f, pos, nodes);
      if s[pos] == RBRACE {
        pos := pos + 1;
        o := Deliver(f.container);
      } else if s[pos] == COMMA {
        pos := pos + 1;
        SetTop(f.(state := ObjKey));
        return Running;
      } else {
        return Failed(InvalidJson);
      }
    }

    // ------------------------------------------------------------------- turns

    /** One turn of the loop, the cursor standing at a token.  The states of
        waiting frames cannot be on top. */
    method Step() returns (o: Outcome)
      requires Valid() && AtToken(s, pos)
      modifies this, stack, arena
      ensures Fair(o) && (o.Running? ==> pos > old(pos))
    {
      var f := stack[depth - 1];
      match f.state
      case ExpectValue => o := StepValue();
      case ArrCont => o := StepArray();
      case ObjKey => o := StepKey();
      case ObjColon => o := StepColon();
      case ObjCont => o := StepObject();
      case _ =>
        assert false;
        return Failed(InvalidJson);
    }

    /** Space, the end-of-text test, and a turn. */
    method Turn() returns (o: Outcome)
      requires Valid()
      modifies this, stack, arena
      ensures Fair(o) && (o.Running? ==> pos > old(pos))
    {
      ghost var f := stack[depth - 1];
      SpaceKeeps(job, below, f, pos, nodes);
      pos := SkipSpaces(s, pos);
      if pos >= |s| {
        EndRefuses(job, below, f, nodes);
        return Failed(UnexpectedEof);
      }
      o := Step();
    }
  }

  /** What each error says of the text. */
  ghost predicate Blames(e: Error, j: Job) {
    match e
    case OutOfMemory => false
    case InvalidJson => NoTree(j)
    case UnexpectedEof => NoTree(j)
    case InvalidString => NoTree(j)
    case NodeLimit => TooMany(j)
    case DepthExceeded => TooDeep(j)
    case Overflow => Exceeds(j, j.lim)
    case InvalidNumber => Exceeds(j, j.lim)
  }

  /** Errors of a string or number that the grammar does not read. */
  predicate OfScalar(e: Error) { e != OutOfMemory && e != NodeLimit && e != DepthExceeded }

  /** The same of a whole text, which may also be followed by something else. */
  ghost predicate Told(e: Error, s: seq<Byte>, j: Job) { Blames(e, j) || (e == InvalidJson && Document(s) == None) }

  lemma BlamedIsRefused(e: Error, j: Job)
    requires Blames(e, j)
    ensures Refused(j)
  {
    if e == DepthExceeded { assert Exceeds(j, j.lim); }
  }

  /** `json_parse`: skip space, take a turn, until the value is complete and
      nothing but space follows.  The result is the grammar's, limits included;
      only the arena can interfere. */
  method Parse(s: seq<Byte>, lim: Limits, used: nat, arena: Arena) returns (r: Result<Json>)
    requires Sound(lim)
    modifies arena
    ensures match r
            case Ok(v) => Accepted(s, lim, used) == Some(v)
            case Err(e) => if e == OutOfMemory then arena.left == 0
                           else Accepted(s, lim, used) == None && Told(e, s, Job(s, lim, used, Value(s, 0)))
  {
    var p := new Parser(s, lim, used, arena);
    while true
      invariant p.s == s && p.arena == arena && p.job == Job(s, lim, used, Value(s, 0)) && p.Valid()
      invariant fresh(p) && fresh(p.stack)
      decreases |s| - p.pos
    {
      var o := p.Turn();
      if o.Failed? {
        if o.e != OutOfMemory { BlamedIsRefused(o.e, p.job); }
        return Err(o.e);
      }
      if o.Finished? {
        var end := SkipSpaces(s, p.pos);
        if end < |s| { return Err(InvalidJson); }
        return Ok(o.v);
      }
    }
  }
}
