/** What runs of the permit protocol come to: chunks and closing, cancellation, and operations left alone. */
module PermitRuns {
  import opened Prelude
  import opened Permits

  // ----- chunks and closing -----

  predicate Returned(op: Op) { if op.Read? then op.read.ReadDone? else op.close.CloseDone? }

  /** An operation stays what it is, a chunk once taken is kept, and a call returns once. */
  predicate Continues(op: Op, next: Op)
  {
    && next.response == op.response && next.Read? == op.Read?
    && (HasChunk(op) ==> HasChunk(next)) && (Returned(op) ==> next == op)
  }

  lemma StepContinues(op: Op, x: Response, signal: Signal, item: Item, o: nat)
    ensures op.Read? && ReadStep(op, x, signal, o).Some? ==> Continues(op, ReadStep(op, x, signal, o).value.op)
    ensures op.Close? && CloseStep(op, x, o).Some? ==> Continues(op, CloseStep(op, x, o).value.op)
    ensures PollStep(op, x, item).Some? ==> Continues(op, PollStep(op, x, item).value.op)
    ensures WakeStep(op, x).Some? ==> Continues(op, WakeStep(op, x).value.op)
  {
  }

  /** Only its own steps move an operation. */
  predicate Moves(a: Action, o: nat) { (a.Advance? || a.Poll? || a.StreamWakes?) && a.op == o }

  lemma OtherOpsStay(s: State, a: Action, h: nat)
    requires h < |s.ops| && Next(s, a).Some? && !Moves(a, h)
    ensures h < |Next(s, a).value.ops| && Next(s, a).value.ops[h] == s.ops[h]
  {
    hide StepOf;
  }

  lemma OwnStepOf(s: State, a: Action, o: nat)
    requires Next(s, a).Some? && Moves(a, o)
    ensures o < |s.ops| && s.ops[o].response < |s.responses| && StepOf(s, a, o).Some?
    ensures Next(s, a) == Some(Put(s, o, StepOf(s, a, o).value)) && |Next(s, a).value.ops| == |s.ops|
    ensures Next(s, a).value.ops[o] == StepOf(s, a, o).value.op
  {
    hide StepOf;
  }

  lemma OpContinues(s: State, a: Action, o: nat)
    requires o < |s.ops| && Next(s, a).Some?
    ensures o < |Next(s, a).value.ops| && Continues(s.ops[o], Next(s, a).value.ops[o])
  {
    hide Next, ReadStep, CloseStep, PollStep, WakeStep, Continues;
    if Moves(a, o) {
      OwnStepOf(s, a, o);
      var x := s.responses[s.ops[o].response];
      StepContinues(s.ops[o], x, SignalOf(s, x.latch), if a.Poll? then a.item else End, o);
    } else {
      OtherOpsStay(s, a, o);
      SameContinues(s.ops[o]);
    }
  }

  lemma SameContinues(op: Op)
    ensures Continues(op, op)
  {
  }

  lemma {:induction false} ExecContinues(s: State, run: seq<Action>, o: nat)
    requires o < |s.ops| && Exec(s, run).Some?
    ensures o < |Exec(s, run).value.ops| && Continues(s.ops[o], Exec(s, run).value.ops[o])
    decreases |run|
  {
    hide Next;
    if run != [] {
      OpContinues(s, run[0], o);
      ExecContinues(Next(s, run[0]).value, run[1..], o);
    }
  }

  /** A closer of the response has taken the mutex. */
  predicate Barred(s: State, c: nat, r: nat)
  {
    && c < |s.ops| && s.ops[c].Close? && s.ops[c].response == r
    && !s.ops[c].close.CloseCalled? && !s.ops[c].close.CloseWants?
  }

  lemma BarredStep(op: Op, x: Response, o: nat)
    requires op.Close? && CloseStep(op, x, o).Some? && !op.close.CloseCalled? && !op.close.CloseWants?
    ensures var next := CloseStep(op, x, o).value.op;
            next.Close? && next.response == op.response && !next.close.CloseCalled? && !next.close.CloseWants?
  {
  }

  lemma StaysBarred(s: State, a: Action, c: nat, r: nat)
    requires Barred(s, c, r) && Next(s, a).Some?
    ensures Barred(Next(s, a).value, c, r)
  {
    hide Next, CloseStep, ReadStep;
    if Moves(a, c) {
      OwnStepOf(s, a, c);
      BarredStep(s.ops[c], s.responses[s.ops[c].response], c);
    } else {
      OtherOpsStay(s, a, c);
    }
  }

  /** The only step that takes a chunk is the poll of a reader that holds the mutex of a full slot. */
  lemma TakenByPoll(op: Op, x: Response, signal: Signal, item: Item, o: nat)
    requires !HasChunk(op)
    ensures op.Read? && ReadStep(op, x, signal, o).Some? && HasChunk(ReadStep(op, x, signal, o).value.op) ==>
              op.read == ReadReleased(GotChunk)
    ensures op.Close? && CloseStep(op, x, o).Some? ==> !HasChunk(CloseStep(op, x, o).value.op)
    ensures PollStep(op, x, item).Some? ==> op.Read? && op.read.AtStream?
    ensures WakeStep(op, x).Some? ==> !HasChunk(WakeStep(op, x).value.op)
  {
  }

  /** So no chunk is taken once a closer has taken the mutex. */
  lemma NoneTaken(s: State, a: Action, c: nat, r: nat, o: nat)
    requires Inv(s) && Barred(s, c, r) && Next(s, a).Some?
    requires o < |Next(s, a).value.ops| && Next(s, a).value.ops[o].response == r && HasChunk(Next(s, a).value.ops[o])
    ensures o < |s.ops| && s.ops[o].response == r && HasChunk(s.ops[o])
  {
    hide Conserved, ReadStep, CloseStep, PollStep, WakeStep, SignalsOk;
    assert OpOk(s, c);
    if Moves(a, o) {
      hide Next;
      OwnStepOf(s, a, o);
      OpContinues(s, a, o);
      assert OpOk(s, o);
      if !HasChunk(s.ops[o]) {
        var x := s.responses[s.ops[o].response];
        TakenByPoll(s.ops[o], x, SignalOf(s, x.latch), if a.Poll? then a.item else End, o);
        assert false;
      }
    } else if o < |s.ops| {
      hide Next;
      OtherOpsStay(s, a, o);
    } else {
      NewOpsBegin(s, a, o);
    }
  }

  lemma NewOpsBegin(s: State, a: Action, o: nat)
    requires Next(s, a).Some? && |s.ops| <= o < |Next(s, a).value.ops|
    ensures !HasChunk(Next(s, a).value.ops[o])
  {
    hide StepOf;
  }

  lemma {:induction false} TakenBefore(s: State, run: seq<Action>, c: nat, r: nat, o: nat)
    requires Inv(s) && Barred(s, c, r) && Exec(s, run).Some?
    requires var t := Exec(s, run).value; o < |t.ops| && t.ops[o].response == r && HasChunk(t.ops[o])
    ensures o < |s.ops| && s.ops[o].response == r && HasChunk(s.ops[o])
    decreases |run|
  {
    hide Inv, Next;
    if run != [] {
      var t := Next(s, run[0]).value;
      StaysBarred(s, run[0], c, r);
      NextKeeps(s, run[0]);
      TakenBefore(t, run[1..], c, r, o);
      NoneTaken(s, run[0], c, r, o);
    }
  }

  lemma MutexTaken(s: State, t: State, c: nat)
    requires Inv(s) && c < |s.ops| && s.ops[c].Close? && s.ops[c].close.CloseWants?
    requires Next(s, Advance(c)) == Some(t)
    ensures Barred(t, c, s.ops[c].response)
    ensures forall o | 0 <= o < |s.ops| && s.ops[o].response == s.ops[c].response :: !HoldsLock(s.ops[o])
    ensures forall o | 0 <= o < |s.ops| && o != c :: o < |t.ops| && t.ops[o] == s.ops[o]
  {
    hide Conserved, SignalsOk;
    forall o | 0 <= o < |s.ops| && s.ops[o].response == s.ops[c].response
      ensures !HoldsLock(s.ops[o])
    {
      assert OpOk(s, o);
    }
  }

  /** A read that returns after some close of its response has returned gives a chunk exactly when it had taken
      the chunk off the stream, and let go of the mutex, before that closer took the mutex.
      In `s0` the closer is about to take it, in `s2` it has returned, in `s3` the read has. */
  lemma ChunkAfterClose(limit: Option<nat>, before: seq<Action>, during: seq<Action>, after: seq<Action>,
                        c: nat, o: nat, s0: State, s1: State, s2: State, s3: State)
    requires Exec(Init(limit), before) == Some(s0)
    requires c < |s0.ops| && s0.ops[c].Close? && s0.ops[c].close.CloseWants? && Next(s0, Advance(c)) == Some(s1)
    requires Exec(s1, during) == Some(s2) && c < |s2.ops| && s2.ops[c].Close? && s2.ops[c].close.CloseDone?
    requires Exec(s2, after) == Some(s3)
    requires o < |s3.ops| && s3.ops[o].Read? && s3.ops[o].read.ReadDone? && s3.ops[o].response == s0.ops[c].response
    requires o < |s2.ops| ==> !Returned(s2.ops[o])
    ensures s3.ops[o].read == ReadDone(GotChunk) <==>
            o < |s0.ops| && s0.ops[o].Read? && s0.ops[o].read == ReadReturns(GotChunk)
  {
    hide Inv, Next, Init;
    var r := s0.ops[c].response;
    ReachableInv(limit, before);
    MutexTaken(s0, s1, c);
    NextKeeps(s0, Advance(c));
    ExecSplit(s1, during, after);
    if o < |s0.ops| {
      OpContinues(s0, Advance(c), o);
      ExecContinues(s1, during, o);
      ExecContinues(s2, after, o);
    }
    if s3.ops[o].read == ReadDone(GotChunk) {
      TakenBefore(s1, during + after, c, r, o);
      AdvanceAddsNone(s0, c);
    }
  }

  lemma AdvanceAddsNone(s: State, o: nat)
    requires Next(s, Advance(o)).Some?
    ensures |Next(s, Advance(o)).value.ops| == |s.ops|
  {
    hide StepOf;
  }

  /** After a close has returned nothing is taken off the stream any more. */
  lemma NoChunkAfterClose(limit: Option<nat>, before: seq<Action>, c: nat, after: seq<Action>, o: nat)
    requires Exec(Init(limit), before).Some?
    requires var s := Exec(Init(limit), before).value; c < |s.ops| && s.ops[c].Close? && s.ops[c].close.CloseDone?
    requires var s := Exec(Init(limit), before).value;
             Exec(s, after).Some? && Next(Exec(s, after).value, Poll(o, Chunk)).Some?
    ensures var s := Exec(Init(limit), before).value;
            Exec(s, after).value.ops[o].response != s.ops[c].response
  {
    hide Inv, Init, Next;
    var s := Exec(Init(limit), before).value;
    var t := Exec(s, after).value;
    ReachableInv(limit, before);
    ReachableInv(limit, before + after) by {
      ExecSplit(Init(limit), before, after);
    }
    ExecSplit(Init(limit), before, after);
    ClosedIsEmpty(s, c);
    ExecMonotone(s, after, s.ops[c].response);
    PolledIsFull(t, o);
  }

  lemma ClosedIsEmpty(s: State, c: nat)
    requires Inv(s) && c < |s.ops| && s.ops[c].Close? && s.ops[c].close.CloseDone?
    ensures s.ops[c].response < |s.responses| && !s.responses[s.ops[c].response].stream
  {
    hide Conserved;
    assert OpOk(s, c);
  }

  lemma PolledIsFull(s: State, o: nat)
    requires Inv(s) && Next(s, Poll(o, Chunk)).Some?
    ensures o < |s.ops| && s.ops[o].response < |s.responses| && s.responses[s.ops[o].response].stream
  {
    hide Conserved;
    OwnStepOf(s, Poll(o, Chunk), o);
    assert OpOk(s, o);
  }

  /** A read called after the latch was set never yields a chunk. */
  lemma LateReadGetsNoChunk(limit: Option<nat>, run: seq<Action>, o: nat)
    requires Exec(Init(limit), run).Some?
    requires var s := Exec(Init(limit), run).value; o < |s.ops| && s.ops[o].Read? && s.ops[o].late
    ensures !HasChunk(Exec(Init(limit), run).value.ops[o])
  {
    ReachableInv(limit, run);
    assert OpOk(Exec(Init(limit), run).value, o);
  }

  // ----- what a read returns -----

  /** What a read will return, once that is settled. */
  function ResultOf(op: Op): Option<ReadResult>
  {
    match op
    case Close(_, _) => None
    case Read(_, p, _) =>
      match p
      case ReadTook => Some(GotChunk)
      case ReadCleared(r) => Some(r)
      case ReadReleased(r) => Some(r)
      case ReadReturns(r) => Some(r)
      case ReadDone(r) => Some(r)
      case _ => None
  }

  /** What settles it: the item its stream branch finds, its latch being set when it looks, or an empty stream slot
      when it gets the mutex. */
  predicate Settles(s: State, a: Action, o: nat, result: ReadResult)
  {
    && o < |s.ops| && s.ops[o].Read? && s.ops[o].response < |s.responses|
    && var read, x := s.ops[o].read, s.responses[s.ops[o].response];
       match result
       case GotChunk => read.AtStream? && a == Poll(o, Chunk)
       case Failed =>
         || (read.AtStream? && a == Poll(o, StreamError))
         || (read.Looking? && a == Advance(o) && IsSet(s, x.latch))
       case GotNone =>
         || (read.AtStream? && a == Poll(o, End))
         || (read.ReadWants? && a == Advance(o) && x.lock.None? && !x.stream)
  }

  /** Some step of a run does. */
  predicate SettledIn(s: State, run: seq<Action>, o: nat, result: ReadResult)
    decreases |run|
  {
    run != [] && (Settles(s, run[0], o, result)
                  || (Next(s, run[0]).Some? && SettledIn(Next(s, run[0]).value, run[1..], o, result)))
  }

  lemma ReadStepResult(op: Op, x: Response, signal: Signal, o: nat, result: ReadResult)
    requires op.Read? && ReadStep(op, x, signal, o).Some?
    ensures ResultOf(ReadStep(op, x, signal, o).value.op) == Some(result) <==>
            || ResultOf(op) == Some(result)
            || (result.Failed? && op.read.Looking? && signal.value)
            || (result.GotNone? && op.read.ReadWants? && x.lock.None? && !x.stream)
  {
  }

  lemma OtherStepResult(op: Op, x: Response, item: Item, o: nat, result: ReadResult)
    ensures op.Close? && CloseStep(op, x, o).Some? ==> ResultOf(CloseStep(op, x, o).value.op) == None == ResultOf(op)
    ensures PollStep(op, x, item).Some? ==> op.Read? && op.read.AtStream? && ResultOf(op).None?
    ensures PollStep(op, x, item).Some? ==>
              (ResultOf(PollStep(op, x, item).value.op) == Some(result) <==>
               result == match item case Chunk => GotChunk case StreamError => Failed case End => GotNone)
    ensures WakeStep(op, x).Some? ==> ResultOf(WakeStep(op, x).value.op) == None == ResultOf(op)
  {
  }

  lemma StepResult(s: State, a: Action, o: nat, result: ReadResult)
    requires o < |s.ops| && Next(s, a).Some?
    ensures o < |Next(s, a).value.ops|
    ensures ResultOf(Next(s, a).value.ops[o]) == Some(result) <==>
            ResultOf(s.ops[o]) == Some(result) || Settles(s, a, o, result)
  {
    hide Next, ReadStep, CloseStep, PollStep, WakeStep, ResultOf;
    if Moves(a, o) {
      OwnStepOf(s, a, o);
      var op, x := s.ops[o], s.responses[s.ops[o].response];
      OtherStepResult(op, x, if a.Poll? then a.item else End, o, result);
      if a.Advance? && op.Read? {
        ReadStepResult(op, x, SignalOf(s, x.latch), o, result);
      }
    } else {
      OtherOpsStay(s, a, o);
    }
  }

  lemma NothingSettled(s: State, a: Action, o: nat, result: ReadResult)
    requires Next(s, a).Some? && |s.ops| <= o
    ensures o < |Next(s, a).value.ops| ==> ResultOf(Next(s, a).value.ops[o]).None?
    ensures !Settles(s, a, o, result)
  {
    hide StepOf;
  }

  /** In any run a read comes to a result exactly if some step settled it so: a chunk, an error or the end found on
      the stream, the latch found set, or the slot found empty. */
  lemma {:induction false} ReadResultFrom(s: State, run: seq<Action>, o: nat, result: ReadResult)
    requires Exec(s, run).Some? && o < |Exec(s, run).value.ops|
    ensures ResultOf(Exec(s, run).value.ops[o]) == Some(result) <==>
            (o < |s.ops| && ResultOf(s.ops[o]) == Some(result)) || SettledIn(s, run, o, result)
    decreases |run|
  {
    hide Next, ResultOf, Settles;
    if run != [] {
      ReadResultFrom(Next(s, run[0]).value, run[1..], o, result);
      if o < |s.ops| {
        StepResult(s, run[0], o, result);
      } else {
        NothingSettled(s, run[0], o, result);
      }
    }
  }

  lemma ReadResultOf(limit: Option<nat>, run: seq<Action>, o: nat, result: ReadResult)
    requires Exec(Init(limit), run).Some? && o < |Exec(Init(limit), run).value.ops|
    ensures ResultOf(Exec(Init(limit), run).value.ops[o]) == Some(result) <==> SettledIn(Init(limit), run, o, result)
  {
    ReadResultFrom(Init(limit), run, o, result);
  }

  // ----- a run in which a chunk follows a close -----

  /** One response, one reader and one closer. */
  function Scene(read: ReadPoint, close: ClosePoint, x: Response, free: nat, signals: map<LatchId, Signal>): State
  {
    State(Some(1), free, true, false, signals, [Send(0, Over)], [x], [Read(0, read, false), Close(0, close)])
  }

  lemma SceneStep(read: ReadPoint, close: ClosePoint, x: Response, free: nat, signals: map<LatchId, Signal>,
                  a: Action, o: nat, l: Local)
    requires Moves(a, o) && o < 2 && (o == 1 ==> !close.CloseCalled?)
    requires StepOf(Scene(read, close, x, free, signals), a, o) == Some(l)
    requires if o == 0 then l.op.Read? && l.op.response == 0 && !l.op.late else l.op.Close? && l.op.response == 0
    ensures Next(Scene(read, close, x, free, signals), a)
              == Some(Scene(if o == 0 then l.op.read else read, if o == 1 then l.op.close else close, l.response,
                            if x.permit && !l.response.permit then free + 1 else free, signals))
  {
    hide StepOf;
    assert [x][0 := l.response] == [l.response];
    var ops := [Read(0, read, false), Close(0, close)];
    assert ops[0 := l.op] == [l.op, Close(0, close)] && ops[1 := l.op] == [Read(0, read, false), l.op];
  }

  lemma ReaderMoves(read: ReadPoint, close: ClosePoint, x: Response, free: nat, next: ReadPoint, y: Response)
    requires y.permit == x.permit && x.latch == 0
    requires ReadStep(Read(0, read, false), x, Signal(false, 0), 0) == Some(Local(Read(0, next, false), y))
    ensures Next(Scene(read, close, x, free, map[]), Advance(0)) == Some(Scene(next, close, y, free, map[]))
  {
    hide ReadStep, CloseStep;
    SceneStep(read, close, x, free, map[], Advance(0), 0, Local(Read(0, next, false), y));
  }

  lemma CloserMoves(read: ReadPoint, close: ClosePoint, x: Response, free: nat, signals: map<LatchId, Signal>,
                    next: ClosePoint, y: Response)
    requires !close.CloseCalled? && CloseStep(Close(0, close), x, 1) == Some(Local(Close(0, next), y))
    ensures Next(Scene(read, close, x, free, signals), Advance(1))
              == Some(Scene(read, next, y, if x.permit && !y.permit then free + 1 else free, signals))
  {
    hide ReadStep, CloseStep;
    SceneStep(read, close, x, free, signals, Advance(1), 1, Local(Close(0, next), y));
  }

  const OPENED := [StartSend(0), Acquire(0), SendReturns(0), StartRead(0), StartClose(0)]
  const TAKEN := [Advance(0), Advance(0), Advance(0), Advance(0), Poll(0, Chunk), Advance(0), Advance(1)]
  const CLOSED := [Advance(1), Advance(1), Advance(1), Advance(1), Advance(1)]

  /** A run by the states it goes through. */
  predicate Path(states: seq<State>, run: seq<Action>)
  {
    |states| == |run| + 1 && forall i | 0 <= i < |run| :: Next(states[i], run[i]) == Some(states[i + 1])
  }

  lemma {:induction false} ExecPath(states: seq<State>, run: seq<Action>)
    requires Path(states, run)
    ensures Exec(states[0], run) == Some(states[|run|])
    decreases |run|
  {
    hide Next;
    if run != [] {
      assert Next(states[0], run[0]) == Some(states[1]);
      ExecPath(states[1..], run[1..]);
    }
  }

  /** The response sent for, before anybody reads or closes it. */
  function Sending(free: nat, sends: seq<Send>, responses: seq<Response>, ops: seq<Op>): State
  {
    State(Some(1), free, true, false, map[], sends, responses, ops)
  }

  lemma SendingSteps(x: Response)
    requires x == Response(0, true, true, None, 0)
    ensures Init(Some(1)) == Sending(1, [], [], [])
    ensures Next(Sending(1, [], [], []), StartSend(0)) == Some(Sending(1, [Send(0, Waiting)], [], []))
    ensures Next(Sending(1, [Send(0, Waiting)], [], []), Acquire(0)) == Some(Sending(0, [Send(0, InFlight)], [], []))
    ensures Next(Sending(0, [Send(0, InFlight)], [], []), SendReturns(0)) == Some(Sending(0, [Send(0, Over)], [x], []))
  {
    assert [] + [Send(0, Waiting)] == [Send(0, Waiting)] && [] + [x] == [x];
    assert [Send(0, Waiting)][0 := Send(0, InFlight)] == [Send(0, InFlight)];
    assert [Send(0, InFlight)][0 := Send(0, Over)] == [Send(0, Over)];
    hide OpNext;
  }

  lemma CallingSteps(x: Response)
    requires x == Response(0, true, true, None, 0)
    ensures Next(Sending(0, [Send(0, Over)], [x], []), StartRead(0))
            == Some(Sending(0, [Send(0, Over)], [x], [Read(0, ReadWants, false)]))
    ensures Next(Sending(0, [Send(0, Over)], [x], [Read(0, ReadWants, false)]), StartClose(0))
            == Some(Taking(ReadWants, x))
  {
    assert [] + [Read(0, ReadWants, false)] == [Read(0, ReadWants, false)];
    assert [Read(0, ReadWants, false)] + [Close(0, CloseCalled)] == [Read(0, ReadWants, false), Close(0, CloseCalled)];
    hide OpNext;
  }

  /** The reader at some point, the closer called; the closer at some point, the reader with a chunk in hand. */
  function Taking(read: ReadPoint, x: Response): State { Scene(read, CloseCalled, x, 0, map[]) }

  function Closing(close: ClosePoint, x: Response, free: nat): State
  {
    Scene(ReadReturns(GotChunk), close, x, free, map[0 := Signal(true, 1)])
  }

  lemma OpenedScene(x: Response)
    requires x == Response(0, true, true, None, 0)
    ensures Exec(Init(Some(1)), OPENED) == Some(Taking(ReadWants, x))
  {
    SendingSteps(x);
    CallingSteps(x);
    hide Next, Init, Scene, Sending;
    ExecPath([Sending(1, [], [], []), Sending(1, [Send(0, Waiting)], [], []), Sending(0, [Send(0, InFlight)], [], []),
              Sending(0, [Send(0, Over)], [x], []), Sending(0, [Send(0, Over)], [x], [Read(0, ReadWants, false)]),
              Taking(ReadWants, x)], OPENED);
  }

  lemma TakingSteps(x: Response, held: Response)
    requires x == Response(0, true, true, None, 0) && held == x.(lock := Some(0))
    ensures Next(Taking(ReadWants, x), Advance(0)) == Some(Taking(Subscribing, held))
    ensures Next(Taking(Subscribing, held), Advance(0)) == Some(Taking(Looking, held))
    ensures Next(Taking(Looking, held), Advance(0)) == Some(Taking(InChanged(0), held))
    ensures Next(Taking(InChanged(0), held), Advance(0)) == Some(Taking(AtStream(0), held))
    ensures Next(Taking(AtStream(0), held), Poll(0, Chunk)) == Some(Taking(ReadTook, held))
    ensures Next(Taking(ReadTook, held), Advance(0)) == Some(Taking(ReadReturns(GotChunk), x))
  {
    hide Next, Scene, SignalOf, CloseStep;
    ReaderMoves(ReadWants, CloseCalled, x, 0, Subscribing, held);
    ReaderMoves(Subscribing, CloseCalled, held, 0, Looking, held);
    ReaderMoves(Looking, CloseCalled, held, 0, InChanged(0), held);
    ReaderMoves(InChanged(0), CloseCalled, held, 0, AtStream(0), held);
    ReaderPolls(CloseCalled, held);
    ReaderMoves(ReadTook, CloseCalled, held, 0, ReadReturns(GotChunk), x);
  }

  lemma ReaderPolls(close: ClosePoint, x: Response)
    ensures Next(Scene(AtStream(0), close, x, 0, map[]), Poll(0, Chunk)) == Some(Scene(ReadTook, close, x, 0, map[]))
  {
    hide ReadStep, CloseStep;
    SceneStep(AtStream(0), close, x, 0, map[], Poll(0, Chunk), 0, Local(Read(0, ReadTook, false), x));
  }

  lemma CloseCalls(read: ReadPoint, x: Response)
    requires x.latch == 0
    ensures Next(Taking(read, x), Advance(1)) == Some(Scene(read, CloseWants, x, 0, map[0 := Signal(true, 1)]))
  {
    var ops := [Read(0, read, false), Close(0, CloseCalled)];
    assert [x][0 := x] == [x] && ops[1 := Close(0, CloseWants)] == [ops[0], Close(0, CloseWants)];
  }

  lemma TakenScene(x: Response)
    requires x == Response(0, true, true, None, 0)
    ensures Exec(Taking(ReadWants, x), TAKEN) == Some(Closing(CloseWants, x, 0))
  {
    var held := x.(lock := Some(0));
    TakingSteps(x, held);
    CloseCalls(ReadReturns(GotChunk), x);
    hide Next, Scene;
    ExecPath([Taking(ReadWants, x), Taking(Subscribing, held), Taking(Looking, held), Taking(InChanged(0), held),
              Taking(AtStream(0), held), Taking(ReadTook, held), Taking(ReadReturns(GotChunk), x),
              Closing(CloseWants, x, 0)], TAKEN);
  }

  lemma ClosingSteps(x: Response, held: Response, released: Response)
    requires x == Response(0, true, true, None, 0) && held == x.(lock := Some(1))
    requires released == Response(0, false, false, Some(1), 1)
    ensures Next(Closing(CloseWants, x, 0), Advance(1)) == Some(Closing(CloseHolds, held, 0))
    ensures Next(Closing(CloseHolds, held, 0), Advance(1)) == Some(Closing(CloseCleared, held.(stream := false), 0))
    ensures Next(Closing(CloseCleared, held.(stream := false), 0), Advance(1))
            == Some(Closing(CloseReleased, released, 1))
    ensures Next(Closing(CloseReleased, released, 1), Advance(1))
            == Some(Closing(CloseReturns, released.(lock := None), 1))
    ensures Next(Closing(CloseReturns, released.(lock := None), 1), Advance(1))
            == Some(Closing(CloseDone, released.(lock := None), 1))
  {
    hide Next, Scene;
    var got, signals := ReadReturns(GotChunk), map[0 := Signal(true, 1)];
    CloserMoves(got, CloseWants, x, 0, signals, CloseHolds, held);
    CloserMoves(got, CloseHolds, held, 0, signals, CloseCleared, held.(stream := false));
    CloserMoves(got, CloseCleared, held.(stream := false), 0, signals, CloseReleased, released);
    CloserMoves(got, CloseReleased, released, 1, signals, CloseReturns, released.(lock := None));
    CloserMoves(got, CloseReturns, released.(lock := None), 1, signals, CloseDone, released.(lock := None));
  }

  lemma ClosedScene(x: Response)
    requires x == Response(0, true, true, None, 0)
    ensures Exec(Closing(CloseWants, x, 0), CLOSED) == Some(Closing(CloseDone, Response(0, false, false, None, 1), 1))
  {
    var held, released := x.(lock := Some(1)), Response(0, false, false, Some(1), 1);
    ClosingSteps(x, held, released);
    hide Next, Closing;
    ExecPath([Closing(CloseWants, x, 0), Closing(CloseHolds, held, 0), Closing(CloseCleared, held.(stream := false), 0),
              Closing(CloseReleased, released, 1), Closing(CloseReturns, released.(lock := None), 1),
              Closing(CloseDone, released.(lock := None), 1)], CLOSED);
  }

  lemma ReadReturnsLast(x: Response)
    ensures Next(Closing(CloseDone, x, 1), Advance(0))
            == Some(Scene(ReadDone(GotChunk), CloseDone, x, 1, map[0 := Signal(true, 1)]))
  {
    SceneStep(ReadReturns(GotChunk), CloseDone, x, 1, map[0 := Signal(true, 1)], Advance(0), 0,
              Local(Read(0, ReadDone(GotChunk), false), x));
  }

  /** The reader takes a chunk and lets go of the mutex, the closer runs to its end, and then the read returns
      the chunk. */
  lemma ChunkReturnedAfterClose()
    ensures var s := Exec(Init(Some(1)), OPENED + TAKEN + CLOSED);
            && s.Some? && s.value.ops == [Read(0, ReadReturns(GotChunk), false), Close(0, CloseDone)]
            && var t := Next(s.value, Advance(0));
               t.Some? && t.value.ops == [Read(0, ReadDone(GotChunk), false), Close(0, CloseDone)]
  {
    hide Next, Exec, Init;
    var x := Response(0, true, true, None, 0);
    OpenedScene(x);
    TakenScene(x);
    ClosedScene(x);
    ReadReturnsLast(Response(0, false, false, None, 1));
    ExecSplit(Init(Some(1)), OPENED, TAKEN);
    ExecSplit(Init(Some(1)), OPENED + TAKEN, CLOSED);
  }

  // ----- cancellation -----

  /** A reader asleep can go on exactly when its latch is set: no cancel sent between looking at the signal and
      falling asleep is lost. */
  lemma AsleepWakesIffSet(s: State, o: nat)
    requires Inv(s) && o < |s.ops| && s.ops[o].Read? && s.ops[o].read.Asleep?
    ensures s.ops[o].response < |s.responses|
    ensures Next(s, Advance(o)).Some? <==> IsSet(s, s.responses[s.ops[o].response].latch)
  {
    hide Conserved;
    assert OpOk(s, o);
  }

  /** Steps an operation past the mutex has left once the latch is set. It holds the mutex while there are two or
      more. */
  function StepsLeft(op: Op): nat
  {
    match op
    case Read(_, p, _) =>
      (match p
       case AtStream(_) => 7
       case Asleep(_) => 6
       case InChanged(_) => 5
       case Subscribing => 5
       case Looking => 4
       case ReadCleared(_) => 3
       case ReadReleased(_) => 2
       case ReadTook => 2
       case ReadReturns(_) => 1
       case _ => 0)
    case Close(_, p) =>
      match p
      case CloseHolds => 4
      case CloseCleared => 3
      case CloseReleased => 2
      case CloseReturns => 1
      case _ => 0
  }

  /** Holding the mutex, or past it. */
  predicate Entered(op: Op)
  {
    HoldsLock(op) || Returned(op) || (if op.Read? then op.read.ReadReturns? else op.close.CloseReturns?)
  }

  lemma StepNearer(op: Op, x: Response, signal: Signal, limited: bool, item: Item, o: nat)
    requires OpFits(op, x, signal, limited, o) && Entered(op) && signal.value
    ensures op.Read? && ReadStep(op, x, signal, o).Some? ==> Nearer(op, ReadStep(op, x, signal, o).value.op)
    ensures op.Close? && CloseStep(op, x, o).Some? ==> Nearer(op, CloseStep(op, x, o).value.op)
    ensures PollStep(op, x, item).Some? ==> Nearer(op, PollStep(op, x, item).value.op)
    ensures WakeStep(op, x).Some? ==> Nearer(op, WakeStep(op, x).value.op)
    ensures HoldsLock(op) ==> if op.Read? then ReadStep(op, x, signal, o).Some? else CloseStep(op, x, o).Some?
  {
  }

  predicate Nearer(op: Op, next: Op)
  {
    Entered(next) && next.response == op.response && StepsLeft(next) < StepsLeft(op)
  }

  /** A closer waiting for the mutex can take it, or its holder can take a step towards giving it up: it is not
      asleep, or the latch the closer has set wakes it. */
  lemma CloserNotStuck(s: State, c: nat)
    requires Inv(s) && c < |s.ops| && s.ops[c].Close? && s.ops[c].close.CloseWants?
    ensures s.ops[c].response < |s.responses|
    ensures var x := s.responses[s.ops[c].response];
            && IsSet(s, x.latch)
            && if x.lock.None? then Next(s, Advance(c)).Some?
               else
                 var h := x.lock.value;
                 && h < |s.ops| && HoldsLock(s.ops[h]) && Next(s, Advance(h)).Some?
                 && StepsLeft(Next(s, Advance(h)).value.ops[h]) < StepsLeft(s.ops[h])
  {
    hide Conserved, SignalsOk, StepsLeft, ReadStep, OpFits, HoldsLock;
    assert OpOk(s, c);
    var r := s.ops[c].response;
    var x := s.responses[r];
    WantingIsSet(s.ops[c], x, SignalOf(s, x.latch), s.limit.Some?, c);
    assert ResponseOk(s, r);
    if x.lock.Some? {
      var h := x.lock.value;
      assert OpOk(s, h);
      StepNearer(s.ops[h], x, SignalOf(s, x.latch), s.limit.Some?, End, h);
    }
  }

  lemma WantingIsSet(op: Op, x: Response, signal: Signal, limited: bool, o: nat)
    requires OpFits(op, x, signal, limited, o) && op.Close? && op.close.CloseWants?
    ensures signal.value
  {
  }

  /** Only its own steps move the holder, and each of them, whatever the stream does, brings it nearer to the end. */
  lemma HolderStep(s: State, a: Action, h: nat)
    requires Inv(s) && h < |s.ops| && s.ops[h].response < |s.responses| && Entered(s.ops[h]) && Next(s, a).Some?
    requires IsSet(s, s.responses[s.ops[h].response].latch)
    ensures var t := Next(s, a).value;
            && h < |t.ops| && Entered(t.ops[h]) && t.ops[h].response == s.ops[h].response
            && StepsLeft(t.ops[h]) + (if Moves(a, h) then 1 else 0) <= StepsLeft(s.ops[h])
  {
    hide Next, Conserved, SignalsOk, ReadStep, CloseStep, PollStep, WakeStep, OpFits, Entered, StepsLeft;
    if Moves(a, h) {
      OwnStepOf(s, a, h);
      assert OpOk(s, h);
      var x := s.responses[s.ops[h].response];
      StepNearer(s.ops[h], x, SignalOf(s, x.latch), s.limit.Some?, if a.Poll? then a.item else End, h);
    } else {
      OtherOpsStay(s, a, h);
    }
  }

  function Steps(run: seq<Action>, o: nat): nat
  {
    if run == [] then 0 else (if Moves(run[0], o) then 1 else 0) + Steps(run[1..], o)
  }

  /** So after the latch is set a holder takes at most seven more steps in any run, and at the last but one of
      them the mutex is free of it. */
  lemma {:induction false} HolderLeaves(s: State, run: seq<Action>, h: nat)
    requires Inv(s) && h < |s.ops| && s.ops[h].response < |s.responses| && Entered(s.ops[h]) && Exec(s, run).Some?
    requires IsSet(s, s.responses[s.ops[h].response].latch)
    ensures var t := Exec(s, run).value;
            && h < |t.ops| && StepsLeft(t.ops[h]) + Steps(run, h) <= StepsLeft(s.ops[h]) <= 7
            && (StepsLeft(t.ops[h]) <= 1 ==> !HoldsLock(t.ops[h]))
    decreases |run|
  {
    hide Inv, Next;
    if run != [] {
      HolderStep(s, run[0], h);
      NextKeeps(s, run[0]);
      NextMonotone(s, run[0], s.ops[h].response);
      HolderLeaves(Next(s, run[0]).value, run[1..], h);
    }
  }

  // ----- what undisturbed operations do -----

  /** Reader `o` stands at `p`, its response reads `y`, and `free` permits are free. */
  function At(s: State, o: nat, p: ReadPoint, y: Response, free: nat): State
    requires o < |s.ops| && s.ops[o].Read? && s.ops[o].response < |s.responses|
  {
    s.(ops := s.ops[o := s.ops[o].(read := p)], responses := s.responses[s.ops[o].response := y], free := free)
  }

  lemma AtStep(s: State, o: nat, p: ReadPoint, y: Response, free: nat, a: Action, l: Local)
    requires o < |s.ops| && s.ops[o].Read? && s.ops[o].response < |s.responses| && Moves(a, o)
    requires StepOf(At(s, o, p, y, free), a, o) == Some(l) && l.op.Read? && l.op == s.ops[o].(read := l.op.read)
    ensures Next(At(s, o, p, y, free), a)
            == Some(At(s, o, l.op.read, l.response, if y.permit && !l.response.permit then free + 1 else free))
  {
    hide StepOf;
    var r, op := s.ops[o].response, s.ops[o];
    assert s.ops[o := op.(read := p)][o := l.op] == s.ops[o := l.op];
    assert s.responses[r := y][r := l.response] == s.responses[r := l.response];
  }

  /** A reader that starts on a full slot whose mutex is free. */
  predicate Starts(s: State, o: nat)
  {
    && o < |s.ops| && s.ops[o].response < |s.responses| && s.ops[o].Read? && s.ops[o].read.ReadWants?
    && s.responses[s.ops[o].response].lock.None? && s.responses[s.ops[o].response].stream
  }

  lemma SelectSteps(s: State, o: nat, x: Response, held: Response)
    requires Starts(s, o) && x == s.responses[s.ops[o].response] && held == x.(lock := Some(o))
    ensures Next(At(s, o, ReadWants, x, s.free), Advance(o)) == Some(At(s, o, Subscribing, held, s.free))
    ensures Next(At(s, o, Subscribing, held, s.free), Advance(o)) == Some(At(s, o, Looking, held, s.free))
    ensures IsSet(s, x.latch) ==>
              Next(At(s, o, Looking, held, s.free), Advance(o))
              == Some(At(s, o, ReadCleared(Failed), held.(stream := false), s.free))
  {
    hide Next, CloseStep, WakeStep;
    var a, op := Advance(o), s.ops[o];
    AtStep(s, o, ReadWants, x, s.free, a, Local(op.(read := Subscribing), held));
    AtStep(s, o, Subscribing, held, s.free, a, Local(op.(read := Looking), held));
    if IsSet(s, x.latch) {
      AtStep(s, o, Looking, held, s.free, a, Local(op.(read := ReadCleared(Failed)), held.(stream := false)));
    }
  }

  lemma PollSteps(s: State, o: nat, held: Response, v: nat, item: Item)
    requires Starts(s, o) && held == s.responses[s.ops[o].response].(lock := Some(o))
    requires SignalOf(s, held.latch) == Signal(false, v)
    ensures Next(At(s, o, Looking, held, s.free), Advance(o)) == Some(At(s, o, InChanged(v), held, s.free))
    ensures Next(At(s, o, InChanged(v), held, s.free), Advance(o)) == Some(At(s, o, AtStream(v), held, s.free))
    ensures Next(At(s, o, AtStream(v), held, s.free), Poll(o, item))
            == Some(match item
                    case Chunk => At(s, o, ReadTook, held, s.free)
                    case StreamError => At(s, o, ReadCleared(Failed), held.(stream := false), s.free)
                    case End => At(s, o, ReadCleared(GotNone), held.(stream := false), s.free))
  {
    hide Next, CloseStep, WakeStep;
    var a, op := Advance(o), s.ops[o];
    AtStep(s, o, Looking, held, s.free, a, Local(op.(read := InChanged(v)), held));
    AtStep(s, o, InChanged(v), held, s.free, a, Local(op.(read := AtStream(v)), held));
    match item
    case Chunk => AtStep(s, o, AtStream(v), held, s.free, Poll(o, item), Local(op.(read := ReadTook), held));
    case StreamError =>
      AtStep(s, o, AtStream(v), held, s.free, Poll(o, item),
             Local(op.(read := ReadCleared(Failed)), held.(stream := false)));
    case End =>
      AtStep(s, o, AtStream(v), held, s.free, Poll(o, item),
             Local(op.(read := ReadCleared(GotNone)), held.(stream := false)));
  }

  lemma TookSteps(s: State, o: nat, x: Response, held: Response)
    requires Starts(s, o) && x == s.responses[s.ops[o].response] && held == x.(lock := Some(o))
    ensures Next(At(s, o, ReadTook, held, s.free), Advance(o)) == Some(At(s, o, ReadReturns(GotChunk), x, s.free))
    ensures Next(At(s, o, ReadReturns(GotChunk), x, s.free), Advance(o))
            == Some(At(s, o, ReadDone(GotChunk), x, s.free))
  {
    hide Next, CloseStep, WakeStep;
    var a, op := Advance(o), s.ops[o];
    AtStep(s, o, ReadTook, held, s.free, a, Local(op.(read := ReadReturns(GotChunk)), x));
    AtStep(s, o, ReadReturns(GotChunk), x, s.free, a, Local(op.(read := ReadDone(GotChunk)), x));
  }

  lemma ClearedSteps(s: State, o: nat, cleared: Response, result: ReadResult)
    requires Starts(s, o) && cleared == s.responses[s.ops[o].response].(lock := Some(o), stream := false)
    ensures var free := if cleared.permit then s.free + 1 else s.free;
            && Next(At(s, o, ReadCleared(result), cleared, s.free), Advance(o))
               == Some(At(s, o, ReadReleased(result), Released(cleared), free))
            && Next(At(s, o, ReadReleased(result), Released(cleared), free), Advance(o))
               == Some(At(s, o, ReadReturns(result), Released(cleared).(lock := None), free))
            && Next(At(s, o, ReadReturns(result), Released(cleared).(lock := None), free), Advance(o))
               == Some(At(s, o, ReadDone(result), Released(cleared).(lock := None), free))
  {
    hide Next, CloseStep, WakeStep;
    var a, op, released := Advance(o), s.ops[o], Released(cleared);
    var free := if cleared.permit then s.free + 1 else s.free;
    AtStep(s, o, ReadCleared(result), cleared, s.free, a, Local(op.(read := ReadReleased(result)), released));
    AtStep(s, o, ReadReleased(result), released, free, a,
           Local(op.(read := ReadReturns(result)), released.(lock := None)));
    AtStep(s, o, ReadReturns(result), released.(lock := None), free, a,
           Local(op.(read := ReadDone(result)), released.(lock := None)));
  }

  /** What a read leaves that has emptied the slot: no stream, no permit, the mutex free, and a permit it held free. */
  function Ended(s: State, o: nat, result: ReadResult): State
    requires o < |s.ops| && s.ops[o].Read? && s.ops[o].response < |s.responses|
  {
    var x := s.responses[s.ops[o].response];
    var given := if x.permit then 1 else 0;
    At(s, o, ReadDone(result), Response(x.latch, false, false, None, x.releases + given), s.free + given)
  }

  lemma ClearedRun(s: State, o: nat, cleared: Response, result: ReadResult)
    requires Starts(s, o) && cleared == s.responses[s.ops[o].response].(lock := Some(o), stream := false)
    ensures Exec(At(s, o, ReadCleared(result), cleared, s.free), [Advance(o), Advance(o), Advance(o)])
            == Some(Ended(s, o, result))
  {
    var free := if cleared.permit then s.free + 1 else s.free;
    ClearedSteps(s, o, cleared, result);
    hide Next, At;
    ExecPath([At(s, o, ReadCleared(result), cleared, s.free), At(s, o, ReadReleased(result), Released(cleared), free),
              At(s, o, ReadReturns(result), Released(cleared).(lock := None), free), Ended(s, o, result)],
             [Advance(o), Advance(o), Advance(o)]);
  }

  lemma AtStart(s: State, o: nat)
    requires Starts(s, o)
    ensures At(s, o, ReadWants, s.responses[s.ops[o].response], s.free) == s
  {
  }

  /** A read of an open response that nobody cancels delivers the chunk that comes, and keeps stream and permit. */
  lemma ReadDelivers(s: State, o: nat)
    requires Starts(s, o) && !IsSet(s, s.responses[s.ops[o].response].latch)
    ensures var a := Advance(o);
            Exec(s, [a, a, a, a, Poll(o, Chunk), a, a])
              == Some(s.(ops := s.ops[o := s.ops[o].(read := ReadDone(GotChunk))]))
  {
    var a, x := Advance(o), s.responses[s.ops[o].response];
    var held, v := x.(lock := Some(o)), SignalOf(s, x.latch).version;
    SelectSteps(s, o, x, held);
    PollSteps(s, o, held, v, Chunk);
    TookSteps(s, o, x, held);
    AtStart(s, o);
    assert At(s, o, ReadDone(GotChunk), x, s.free) == s.(ops := s.ops[o := s.ops[o].(read := ReadDone(GotChunk))]);
    hide Next, At;
    ExecPath([At(s, o, ReadWants, x, s.free), At(s, o, Subscribing, held, s.free), At(s, o, Looking, held, s.free),
              At(s, o, InChanged(v), held, s.free), At(s, o, AtStream(v), held, s.free),
              At(s, o, ReadTook, held, s.free), At(s, o, ReadReturns(GotChunk), x, s.free),
              At(s, o, ReadDone(GotChunk), x, s.free)],
             [a, a, a, a, Poll(o, Chunk), a, a]);
  }

  /** One whose stream breaks raises, and one whose stream ends returns nothing; both empty the slot and give the
      permit back. */
  lemma ReadEnds(s: State, o: nat, item: Item)
    requires Starts(s, o) && !IsSet(s, s.responses[s.ops[o].response].latch) && !item.Chunk?
    ensures var a := Advance(o);
            Exec(s, [a, a, a, a, Poll(o, item), a, a, a])
              == Some(Ended(s, o, if item.StreamError? then Failed else GotNone))
  {
    var a, x := Advance(o), s.responses[s.ops[o].response];
    var held, v := x.(lock := Some(o)), SignalOf(s, x.latch).version;
    var cleared, result := held.(stream := false), if item.StreamError? then Failed else GotNone;
    SelectSteps(s, o, x, held);
    PollSteps(s, o, held, v, item);
    AtStart(s, o);
    ClearedRun(s, o, cleared, result);
    hide Next, At, Ended;
    ExecPath([At(s, o, ReadWants, x, s.free), At(s, o, Subscribing, held, s.free), At(s, o, Looking, held, s.free),
              At(s, o, InChanged(v), held, s.free), At(s, o, AtStream(v), held, s.free),
              At(s, o, ReadCleared(result), cleared, s.free)],
             [a, a, a, a, Poll(o, item)]);
    assert [a, a, a, a, Poll(o, item), a, a, a] == [a, a, a, a, Poll(o, item)] + [a, a, a];
    ExecSplit(s, [a, a, a, a, Poll(o, item)], [a, a, a]);
  }

  /** One whose latch is set raises without looking at the stream, with the same effect. */
  lemma ReadCancelled(s: State, o: nat)
    requires Starts(s, o) && IsSet(s, s.responses[s.ops[o].response].latch)
    ensures var a := Advance(o); Exec(s, [a, a, a, a, a, a]) == Some(Ended(s, o, Failed))
  {
    var a, x := Advance(o), s.responses[s.ops[o].response];
    var held := x.(lock := Some(o));
    var cleared := held.(stream := false);
    SelectSteps(s, o, x, held);
    AtStart(s, o);
    ClearedRun(s, o, cleared, Failed);
    hide Next, At, Ended;
    ExecPath([At(s, o, ReadWants, x, s.free), At(s, o, Subscribing, held, s.free), At(s, o, Looking, held, s.free),
              At(s, o, ReadCleared(Failed), cleared, s.free)],
             [a, a, a]);
    assert [a, a, a, a, a, a] == [a, a, a] + [a, a, a];
    ExecSplit(s, [a, a, a], [a, a, a]);
  }

  /** A send that returns hands its own latch, a full stream and its permit, if there are permits, to the response. */
  lemma SendHandsOver(s: State, i: nat)
    requires i < |s.sends| && s.sends[i].phase.InFlight?
    ensures var t := Next(s, SendReturns(i));
            && t.Some? && t.value.free == s.free && t.value.sends[i].phase.Over?
            && t.value.responses == s.responses + [Response(s.sends[i].latch, true, s.limit.Some?, None, 0)]
  {
    hide OpNext;
  }

  /** Cancelling a latch sets that latch and no other; closing a response sets the latch of that response. */
  lemma CancelSetsOne(s: State, latch: LatchId, other: LatchId)
    ensures IsSet(Next(s, Cancel(latch)).value, other) <==> other == latch || IsSet(s, other)
    ensures forall o | 0 <= o < |s.ops| && s.ops[o].response < |s.responses|
                       && s.ops[o] == Close(s.ops[o].response, CloseCalled) ::
              Next(s, Advance(o)).Some?
              && (IsSet(Next(s, Advance(o)).value, other) <==>
                  other == s.responses[s.ops[o].response].latch || IsSet(s, other))
  {
  }

  /** Closer `c` of response `r` stands at `p`, and the response reads `x`. */
  predicate CloserAt(s: State, c: nat, r: nat, p: ClosePoint, x: Response)
  {
    c < |s.ops| && s.ops[c] == Close(r, p) && r < |s.responses| && s.responses[r] == x
  }

  lemma CloserSteps(s: State, c: nat, r: nat, p: ClosePoint, x: Response)
    requires CloserAt(s, c, r, p, x) && !p.CloseCalled? && CloseStep(Close(r, p), x, c).Some?
    ensures var l := CloseStep(Close(r, p), x, c).value;
            var t := Next(s, Advance(c));
            && t.Some? && l.op.Close? && CloserAt(t.value, c, r, l.op.close, l.response)
            && t.value.free == s.free + (if x.permit && !l.response.permit then 1 else 0)
  {
  }

  /** A close of a response nobody holds runs to its end: the stream slot is empty, and a permit still held
      is free again. */
  lemma CloseReturnsPermit(s: State, c: nat, r: nat, x: Response)
    requires CloserAt(s, c, r, CloseWants, x) && x.lock.None?
    ensures var given := if x.permit then 1 else 0;
            var t := Exec(s, [Advance(c), Advance(c), Advance(c), Advance(c), Advance(c)]);
            && t.Some? && t.value.free == s.free + given
            && CloserAt(t.value, c, r, CloseDone, Response(x.latch, false, false, None, x.releases + given))
  {
    hide Next, CloserAt;
    var a := Advance(c);
    var run := [a, a, a, a, a];
    var held, cleared := x.(lock := Some(c)), x.(lock := Some(c), stream := false);
    var released := Released(cleared);
    CloserSteps(s, c, r, CloseWants, x);
    var t1 := Next(s, a).value;
    CloserSteps(t1, c, r, CloseHolds, held);
    var t2 := Next(t1, a).value;
    CloserSteps(t2, c, r, CloseCleared, cleared);
    var t3 := Next(t2, a).value;
    CloserSteps(t3, c, r, CloseReleased, released);
    var t4 := Next(t3, a).value;
    CloserSteps(t4, c, r, CloseReturns, released.(lock := None));
    var t5 := Next(t4, a).value;
    ExecPath([s, t1, t2, t3, t4, t5], run);
  }
}
