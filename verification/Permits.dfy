/** The connection permits of src/lib.rs and the cancellation latch of src/cancel.rs, as interleaved steps
    of any number of sends, readers and closers. */
module Permits {
  import opened Prelude

  type LatchId = nat

  /** `NativeClient.send`: waiting for a permit, sending with one, or over. */
  datatype SendPhase = Waiting | InFlight | Over

  datatype Send = Send(latch: LatchId, phase: SendPhase)

  /** `NativeResponse`: the stream slot and the permit slot (true for Some), and who holds the stream mutex.
      `releases` counts the permits this response has given back. */
  datatype Response = Response(latch: LatchId, stream: bool, permit: bool, lock: Option<nat>, releases: nat)

  datatype ReadResult = GotChunk | GotNone | Failed

  /** The `watch` channel of a latch: its value, and how often it was sent to. */
  datatype Signal = Signal(value: bool, version: nat)

  /** `read_chunk`. It wants the mutex, and holds it until it has a result:
      - in the biased select, at the loop of `cancelled`: about to subscribe; about to look at the signal; in
        `changed`, having seen a version; with that branch pending, at the stream branch; with both pending, asleep;
      - with a chunk taken off the stream;
      - with the stream slot emptied, then with the permit released.
      The mutex is free again while the result is handed back, and the call returns. */
  datatype ReadPoint =
    | ReadWants
    | Subscribing | Looking | InChanged(seen: nat) | AtStream(seen: nat) | Asleep(seen: nat)
    | ReadTook
    | ReadCleared(outcome: ReadResult) | ReadReleased(outcome: ReadResult)
    | ReadReturns(outcome: ReadResult)
    | ReadDone(result: ReadResult)
  {
    predicate InSelect() { Subscribing? || Looking? || Pending() }

    /** Relying on a version it has seen. */
    predicate Pending() { InChanged? || AtStream? || Asleep? }
  }

  /** `close`: called; cancelled and wanting the mutex; holding it; stream slot emptied; permit released; mutex
      free again; returned. */
  datatype ClosePoint = CloseCalled | CloseWants | CloseHolds | CloseCleared | CloseReleased | CloseReturns | CloseDone

  /** `late` marks a read that was called when its latch was already set. */
  datatype Op = Read(response: nat, read: ReadPoint, late: bool) | Close(response: nat, close: ClosePoint)

  datatype State = State(
    limit: Option<nat>, free: nat, clientOpen: bool, semaphoreClosed: bool, signals: map<LatchId, Signal>,
    sends: seq<Send>, responses: seq<Response>, ops: seq<Op>)

  /** A latch nobody has sent to holds its initial value. */
  function SignalOf(s: State, latch: LatchId): Signal
  {
    if latch in s.signals then s.signals[latch] else Signal(false, 0)
  }

  predicate IsSet(s: State, latch: LatchId) { SignalOf(s, latch).value }

  /** `send_replace(true)` */
  function SendTrue(s: State, latch: LatchId): State
  {
    s.(signals := s.signals[latch := Signal(true, SignalOf(s, latch).version + 1)])
  }

  /** What a poll of the body stream finds. */
  datatype Item = Chunk | StreamError | End

  datatype Action =
    | StartSend(latch: LatchId)      // the client is still there
    | GiveUp(send: nat)              // cancelled, timed out or refused while waiting for a permit
    | Acquire(send: nat)
    | SendFails(send: nat)           // any error after the permit was taken
    | SendReturns(send: nat)         // the permit moves into the response
    | Cancel(latch: LatchId)
    | CloseSemaphore
    | DropClient
    | StartRead(response: nat)
    | StartClose(response: nat)
    | Advance(op: nat)               // the one step of an operation that only depends on the state
    | Poll(op: nat, item: Item)      // the stream branch is ready
    | StreamWakes(op: nat)           // the stream has something for a reader asleep

  predicate HoldsLock(op: Op)
  {
    match op
    case Read(_, p, _) => p.InSelect() || p.ReadTook? || p.ReadCleared? || p.ReadReleased?
    case Close(_, p) => p.CloseHolds? || p.CloseCleared? || p.CloseReleased?
  }

  function Init(limit: Option<nat>): State
  {
    State(limit, if limit.None? then 0 else limit.value, true, false, map[], [], [], [])
  }

  /** `release_permit` */
  function Released(x: Response): Response
  {
    if x.permit then x.(permit := false, releases := x.releases + 1) else x
  }

  /** What a step of an operation leaves of it and of its response. */
  datatype Local = Local(op: Op, response: Response)

  /** The next step of reader `o`, if it has one that needs nothing from the stream. Both `subscribe` and
      `borrow_and_update` mark the current version as seen, the latter in one step with reading the value. */
  function ReadStep(op: Op, x: Response, signal: Signal, o: nat): Option<Local>
    requires op.Read?
  {
    match op.read
    case ReadWants =>
      if x.lock.Some? then None
      else if !x.stream then Some(Local(op.(read := ReadReturns(GotNone)), x))
      else Some(Local(op.(read := Subscribing), x.(lock := Some(o))))
    case Subscribing => Some(Local(op.(read := Looking), x))
    case Looking =>
      if signal.value then Some(Local(op.(read := ReadCleared(Failed)), x.(stream := false)))
      else Some(Local(op.(read := InChanged(signal.version)), x))
    case InChanged(seen) =>
      Some(Local(op.(read := if signal.version != seen then Looking else AtStream(seen)), x))
    case AtStream(seen) => Some(Local(op.(read := Asleep(seen)), x))
    case Asleep(seen) => if signal.version != seen then Some(Local(op.(read := InChanged(seen)), x)) else None
    case ReadTook => Some(Local(op.(read := ReadReturns(GotChunk)), x.(lock := None)))
    case ReadCleared(r) => Some(Local(op.(read := ReadReleased(r)), Released(x)))
    case ReadReleased(r) => Some(Local(op.(read := ReadReturns(r)), x.(lock := None)))
    case ReadReturns(r) => Some(Local(op.(read := ReadDone(r)), x))
    case ReadDone(_) => None
  }

  function CloseStep(op: Op, x: Response, o: nat): Option<Local>
    requires op.Close?
  {
    match op.close
    case CloseCalled => Some(Local(op.(close := CloseWants), x))
    case CloseWants => if x.lock.Some? then None else Some(Local(op.(close := CloseHolds), x.(lock := Some(o))))
    case CloseHolds => Some(Local(op.(close := CloseCleared), x.(stream := false)))
    case CloseCleared => Some(Local(op.(close := CloseReleased), Released(x)))
    case CloseReleased => Some(Local(op.(close := CloseReturns), x.(lock := None)))
    case CloseReturns => Some(Local(op.(close := CloseDone), x))
    case CloseDone => None
  }

  /** The stream branch is ready. */
  function PollStep(op: Op, x: Response, item: Item): Option<Local>
  {
    if !op.Read? || !op.read.AtStream? then None
    else
      match item
      case Chunk => Some(Local(op.(read := ReadTook), x))
      case StreamError => Some(Local(op.(read := ReadCleared(Failed)), x.(stream := false)))
      case End => Some(Local(op.(read := ReadCleared(GotNone)), x.(stream := false)))
  }

  /** A reader asleep polls its select again from the first branch. */
  function WakeStep(op: Op, x: Response): Option<Local>
  {
    if op.Read? && op.read.Asleep? then Some(Local(op.(read := InChanged(op.read.seen)), x)) else None
  }

  /** The step that an action makes operation `o` take. */
  function StepOf(s: State, a: Action, o: nat): Option<Local>
    requires o < |s.ops| && s.ops[o].response < |s.responses|
  {
    var op, x := s.ops[o], s.responses[s.ops[o].response];
    match a
    case Advance(_) => if op.Read? then ReadStep(op, x, SignalOf(s, x.latch), o) else CloseStep(op, x, o)
    case Poll(_, item) => PollStep(op, x, item)
    case StreamWakes(_) => WakeStep(op, x)
    case _ => None
  }

  /** The state after such a step: a permit taken out of its slot is free. */
  function Put(s: State, o: nat, l: Local): State
    requires o < |s.ops| && s.ops[o].response < |s.responses|
  {
    var r := s.ops[o].response;
    s.(ops := s.ops[o := l.op], responses := s.responses[r := l.response],
       free := if s.responses[r].permit && !l.response.permit then s.free + 1 else s.free,
       signals := if s.ops[o] == Close(r, CloseCalled) then SendTrue(s, s.responses[r].latch).signals else s.signals)
  }

  /** An operation moves. */
  function OpNext(s: State, a: Action, o: nat): Option<State>
  {
    if !(o < |s.ops| && s.ops[o].response < |s.responses|) then None
    else
      match StepOf(s, a, o)
      case None => None
      case Some(l) => Some(Put(s, o, l))
  }

  function SetPhase(s: State, i: nat, phase: SendPhase): State
    requires i < |s.sends|
  {
    s.(sends := s.sends[i := s.sends[i].(phase := phase)])
  }

  /** The state after an action, None where it is not enabled. */
  function Next(s: State, a: Action): Option<State>
  {
    match a
    case StartSend(latch) =>
      if s.clientOpen then Some(s.(sends := s.sends + [Send(latch, Waiting)])) else None
    case GiveUp(i) =>
      if i < |s.sends| && s.sends[i].phase.Waiting? then Some(SetPhase(s, i, Over)) else None
    case Acquire(i) =>
      if !(i < |s.sends| && s.sends[i].phase.Waiting?) then None
      else if s.limit.None? then Some(SetPhase(s, i, InFlight))
      else if s.semaphoreClosed || s.free == 0 then None
      else Some(SetPhase(s, i, InFlight).(free := s.free - 1))
    case SendFails(i) =>
      if !(i < |s.sends| && s.sends[i].phase.InFlight?) then None
      else Some(SetPhase(s, i, Over).(free := if s.limit.None? then s.free else s.free + 1))
    case SendReturns(i) =>
      if !(i < |s.sends| && s.sends[i].phase.InFlight?) then None
      else Some(SetPhase(s, i, Over).(
                  responses := s.responses + [Response(s.sends[i].latch, true, s.limit.Some?, None, 0)]))
    case Cancel(latch) => Some(SendTrue(s, latch))
    case CloseSemaphore => Some(s.(semaphoreClosed := true))
    case DropClient => Some(s.(clientOpen := false))
    case StartRead(r) =>
      if r < |s.responses|
      then Some(s.(ops := s.ops + [Read(r, ReadWants, IsSet(s, s.responses[r].latch))])) else None
    case StartClose(r) =>
      if r < |s.responses| then Some(s.(ops := s.ops + [Close(r, CloseCalled)])) else None
    case Advance(o) => OpNext(s, a, o)
    case Poll(o, _) => OpNext(s, a, o)
    case StreamWakes(o) => OpNext(s, a, o)
  }

  // ----- the invariant -----

  function Count(flags: seq<bool>): nat
  {
    if flags == [] then 0 else (if flags[0] then 1 else 0) + Count(flags[1..])
  }

  function InFlights(s: State): seq<bool>
  {
    seq(|s.sends|, i requires 0 <= i < |s.sends| => s.sends[i].phase.InFlight?)
  }

  function Holdings(s: State): seq<bool>
  {
    seq(|s.responses|, r requires 0 <= r < |s.responses| => s.responses[r].permit)
  }

  /** Free permits, sends holding one and responses holding one make up the limit. */
  predicate Conserved(s: State)
  {
    s.limit.Some? ==> s.free + Count(InFlights(s)) + Count(Holdings(s)) == s.limit.value
  }

  /** With the mutex free the stream slot is full exactly when the permit slot is, if there are permits. */
  predicate ResponseFits(x: Response, limited: bool)
  {
    && (x.lock.None? && limited ==> x.stream == x.permit)
    && (if limited then x.releases + (if x.permit then 1 else 0) == 1 else x.releases == 0 && !x.permit)
  }

  predicate OpFits(op: Op, x: Response, signal: Signal, limited: bool, o: nat)
  {
    && (HoldsLock(op) <==> x.lock == Some(o))
    && match op
       case Read(_, p, late) =>
         && (p.InSelect() || p.ReadTook? ==> x.stream && (limited ==> x.permit))
         && (p.Pending() ==> Sees(signal, p.seen))
         && (p.ReadCleared? || p.ReadReleased? ==> !x.stream)
         && (p.ReadReleased? ==> !x.permit)
         && (p.ReadCleared? ==> p.outcome != GotChunk) && (p.ReadReleased? ==> p.outcome != GotChunk)
         && (late ==> signal.value && !p.Pending() && !HasChunk(op))
       case Close(_, p) =>
         && (p.CloseHolds? && limited ==> x.stream == x.permit)
         && (p.CloseCleared? || p.CloseReleased? || p.CloseReturns? || p.CloseDone? ==> !x.stream)
         && (p.CloseReleased? ==> !x.permit)
         && (!p.CloseCalled? ==> signal.value)
  }

  predicate ResponseOk(s: State, r: nat)
    requires r < |s.responses|
  {
    var x := s.responses[r];
    && ResponseFits(x, s.limit.Some?)
    && (x.lock.Some? ==> x.lock.value < |s.ops| && s.ops[x.lock.value].response == r && HoldsLock(s.ops[x.lock.value]))
  }

  predicate OpOk(s: State, o: nat)
    requires o < |s.ops|
  {
    && s.ops[o].response < |s.responses|
    && var x := s.responses[s.ops[o].response]; OpFits(s.ops[o], x, SignalOf(s, x.latch), s.limit.Some?, o)
  }

  /** A set signal is newer than the version seen: the wake-up is still to come. */
  predicate Sees(signal: Signal, seen: nat) { seen <= signal.version && (signal.value ==> seen < signal.version) }

  /** A read that has taken a chunk off the stream, or has returned it. */
  predicate HasChunk(op: Op)
  {
    op.Read? && (op.read == ReadTook || op.read == ReadReturns(GotChunk) || op.read == ReadDone(GotChunk))
  }

  /** Latches are only ever sent true. */
  predicate SignalsOk(s: State)
  {
    forall latch | latch in s.signals :: s.signals[latch].value && s.signals[latch].version > 0
  }

  predicate Inv(s: State)
  {
    && Conserved(s) && SignalsOk(s)
    && (forall r | 0 <= r < |s.responses| :: ResponseOk(s, r))
    && (forall o | 0 <= o < |s.ops| :: OpOk(s, o))
  }

  lemma {:induction false} CountUpdate(flags: seq<bool>, i: nat, b: bool)
    requires i < |flags|
    ensures Count(flags[i := b]) + (if flags[i] then 1 else 0) == Count(flags) + (if b then 1 else 0)
  {
    if i > 0 {
      CountUpdate(flags[1..], i - 1, b);
      assert flags[i := b][1..] == flags[1..][i - 1 := b];
    } else {
      assert flags[i := b][1..] == flags[1..];
    }
  }

  lemma {:induction false} CountSnoc(flags: seq<bool>, b: bool)
    ensures Count(flags + [b]) == Count(flags) + (if b then 1 else 0)
  {
    if flags == [] {
      assert flags + [b] == [b] && [b][1..] == [];
    } else {
      CountSnoc(flags[1..], b);
      assert (flags + [b])[1..] == flags[1..] + [b];
    }
  }

  // ----- every action keeps the invariant -----

  /** A signal is not changed without a new version, and a set one stays set. */
  predicate Newer(a: Signal, b: Signal) { a == b || (a.version < b.version && b.value) }

  ghost predicate Forward(s: State, t: State)
  {
    SignalsOk(t) && forall latch :: Newer(SignalOf(s, latch), SignalOf(t, latch))
  }

  lemma FitsForward(op: Op, x: Response, a: Signal, b: Signal, limited: bool, o: nat)
    requires OpFits(op, x, a, limited, o) && Newer(a, b)
    ensures OpFits(op, x, b, limited, o)
  {
  }

  predicate Free(lock: Option<nat>, o: nat) { lock.None? || lock == Some(o) }

  /** What the step of an operation may do to its response. */
  predicate Moved(op: Op, x: Response, l: Local, o: nat)
  {
    && l.op.response == op.response && l.response.latch == x.latch
    && (l.response.stream ==> x.stream) && (l.response.permit ==> x.permit)
    && (l.response == x || (Free(x.lock, o) && Free(l.response.lock, o)))
  }

  lemma ReadStepFits(op: Op, x: Response, signal: Signal, limited: bool, o: nat)
    requires op.Read? && OpFits(op, x, signal, limited, o) && ResponseFits(x, limited)
    requires ReadStep(op, x, signal, o).Some?
    ensures var l := ReadStep(op, x, signal, o).value;
            Moved(op, x, l, o) && OpFits(l.op, l.response, signal, limited, o) && ResponseFits(l.response, limited)
  {
  }

  lemma CloseStepFits(op: Op, x: Response, signal: Signal, limited: bool, o: nat)
    requires op.Close? && OpFits(op, x, signal, limited, o) && ResponseFits(x, limited) && CloseStep(op, x, o).Some?
    requires op.close.CloseCalled? ==> signal.value
    ensures var l := CloseStep(op, x, o).value;
            Moved(op, x, l, o) && OpFits(l.op, l.response, signal, limited, o) && ResponseFits(l.response, limited)
  {
  }

  lemma StreamStepFits(op: Op, x: Response, item: Item, signal: Signal, limited: bool, o: nat)
    requires OpFits(op, x, signal, limited, o) && ResponseFits(x, limited)
    ensures PollStep(op, x, item).Some? ==>
              var l := PollStep(op, x, item).value;
              Moved(op, x, l, o) && OpFits(l.op, l.response, signal, limited, o) && ResponseFits(l.response, limited)
    ensures WakeStep(op, x).Some? ==>
              var l := WakeStep(op, x).value;
              Moved(op, x, l, o) && OpFits(l.op, l.response, signal, limited, o) && ResponseFits(l.response, limited)
  {
  }

  lemma SendTrueForward(s: State, t: State, latch: LatchId)
    requires SignalsOk(s) && (t.signals == s.signals || t.signals == SendTrue(s, latch).signals)
    ensures Forward(s, t)
  {
  }

  lemma PutConserves(s: State, o: nat, l: Local)
    requires Conserved(s) && o < |s.ops| && s.ops[o].response < |s.responses|
    requires l.response.permit ==> s.responses[s.ops[o].response].permit
    ensures Conserved(Put(s, o, l))
  {
    var r, t := s.ops[o].response, Put(s, o, l);
    assert InFlights(t) == InFlights(s);
    assert Holdings(t) == Holdings(s)[r := l.response.permit];
    CountUpdate(Holdings(s), r, l.response.permit);
  }

  /** The step of one operation keeps everything else as it was. */
  lemma PutKeeps(s: State, o: nat, l: Local)
    requires Inv(s) && o < |s.ops| && s.ops[o].response < |s.responses|
    requires var r, t := s.ops[o].response, Put(s, o, l);
             && Moved(s.ops[o], s.responses[r], l, o) && Forward(s, t)
             && OpFits(l.op, l.response, SignalOf(t, l.response.latch), s.limit.Some?, o)
             && ResponseFits(l.response, s.limit.Some?)
    ensures Inv(Put(s, o, l))
  {
    hide Conserved, OpFits, ResponseFits, SignalOf, Newer, SignalsOk;
    var r, t := s.ops[o].response, Put(s, o, l);
    FitsLock(l.op, l.response, SignalOf(t, l.response.latch), s.limit.Some?, o);
    PutConserves(s, o, l);
    assert OpOk(s, o) && ResponseOk(s, r);
    forall q | 0 <= q < |t.responses|
      ensures ResponseOk(t, q)
    {
      assert ResponseOk(s, q);
      LockFits(s, o, l, q);
    }
    forall p | 0 <= p < |t.ops|
      ensures OpOk(t, p)
    {
      assert OpOk(s, p);
      if p != o {
        OthersFit(s, o, l, p);
      }
    }
  }

  lemma FitsLock(op: Op, x: Response, signal: Signal, limited: bool, o: nat)
    requires OpFits(op, x, signal, limited, o)
    ensures HoldsLock(op) <==> x.lock == Some(o)
  {
  }

  lemma LockFits(s: State, o: nat, l: Local, q: nat)
    requires o < |s.ops| && s.ops[o].response < |s.responses| && q < |s.responses|
    requires ResponseOk(s, q) && OpOk(s, o) && Moved(s.ops[o], s.responses[s.ops[o].response], l, o)
    requires HoldsLock(l.op) <==> l.response.lock == Some(o)
    requires ResponseFits(l.response, s.limit.Some?)
    ensures ResponseOk(Put(s, o, l), q)
  {
    hide ResponseFits;
    var r := s.ops[o].response;
    if q == r && l.response == s.responses[r] {
      assert HoldsLock(s.ops[o]) <==> HoldsLock(l.op);
    }
  }

  lemma OthersFit(s: State, o: nat, l: Local, p: nat)
    requires o < |s.ops| && s.ops[o].response < |s.responses| && p < |s.ops| && p != o
    requires OpOk(s, p) && OpOk(s, o) && Moved(s.ops[o], s.responses[s.ops[o].response], l, o)
    requires Forward(s, Put(s, o, l))
    ensures OpOk(Put(s, o, l), p)
  {
    hide SignalOf, Newer, SignalsOk;
    var r, q, t := s.ops[o].response, s.ops[p].response, Put(s, o, l);
    var x := s.responses[q];
    assert Newer(SignalOf(s, x.latch), SignalOf(t, x.latch));
    FitsForward(s.ops[p], x, SignalOf(s, x.latch), SignalOf(t, x.latch), s.limit.Some?, p);
    if q == r {
      BesideFits(s.ops[p], s.responses[r], l.response, SignalOf(t, x.latch), s.limit.Some?, p, o);
    }
  }

  /** Another operation of the same response does not hold its mutex, so all it needs is an empty slot to stay empty. */
  lemma BesideFits(op: Op, x: Response, y: Response, signal: Signal, limited: bool, p: nat, o: nat)
    requires OpFits(op, x, signal, limited, p) && p != o && (y.stream ==> x.stream)
    requires y == x || (Free(x.lock, o) && Free(y.lock, o))
    ensures OpFits(op, y, signal, limited, p)
  {
  }

  /** Every step of an operation keeps the invariant. */
  lemma OpKeeps(s: State, a: Action, o: nat)
    requires Inv(s) && OpNext(s, a, o).Some?
    ensures Inv(OpNext(s, a, o).value)
  {
    hide Conserved, OpFits, ResponseFits, Moved, ReadStep, CloseStep, PollStep, WakeStep;
    hide SendTrue, Newer, SignalOf, HoldsLock;
    var r := s.ops[o].response;
    var op, x, l := s.ops[o], s.responses[r], StepOf(s, a, o).value;
    var t := Put(s, o, l);
    assert OpOk(s, o) && ResponseOk(s, r);
    SendTrueForward(s, t, x.latch);
    var signal := SignalOf(t, x.latch);
    FitsForward(op, x, SignalOf(s, x.latch), signal, s.limit.Some?, o);
    StepFits(s, a, o);
    PutKeeps(s, o, l);
  }

  lemma StepFits(s: State, a: Action, o: nat)
    requires OpNext(s, a, o).Some? && OpOk(s, o) && ResponseOk(s, s.ops[o].response)
    ensures var l := StepOf(s, a, o).value;
            && Moved(s.ops[o], s.responses[s.ops[o].response], l, o)
            && OpFits(l.op, l.response, SignalOf(Put(s, o, l), l.response.latch), s.limit.Some?, o)
            && ResponseFits(l.response, s.limit.Some?)
  {
    hide ReadStep, CloseStep, PollStep, WakeStep, OpFits, ResponseFits;
    var op, x, l := s.ops[o], s.responses[s.ops[o].response], StepOf(s, a, o).value;
    var signal, limited := SignalOf(Put(s, o, l), x.latch), s.limit.Some?;
    FitsForward(op, x, SignalOf(s, x.latch), signal, limited, o);
    if a.Advance? && op.Read? {
      ReadStepFits(op, x, signal, limited, o);
    } else if a.Advance? {
      CloseStepFits(op, x, signal, limited, o);
    } else if a.Poll? {
      StreamStepFits(op, x, a.item, signal, limited, o);
    } else {
      StreamStepFits(op, x, End, signal, limited, o);
    }
  }

  lemma PhaseCount(s: State, i: nat, phase: SendPhase)
    requires i < |s.sends|
    ensures Count(InFlights(SetPhase(s, i, phase))) + (if s.sends[i].phase.InFlight? then 1 else 0)
            == Count(InFlights(s)) + (if phase.InFlight? then 1 else 0)
  {
    assert InFlights(SetPhase(s, i, phase)) == InFlights(s)[i := phase.InFlight?];
    CountUpdate(InFlights(s), i, phase.InFlight?);
  }

  lemma GrownKeeps(s: State, t: State)
    requires Inv(s) && t.limit == s.limit && s.responses <= t.responses && s.ops <= t.ops && Forward(s, t)
    requires Conserved(t)
    requires forall r | |s.responses| <= r < |t.responses| :: ResponseOk(t, r)
    requires forall o | |s.ops| <= o < |t.ops| :: OpOk(t, o)
    ensures Inv(t)
  {
    forall r | 0 <= r < |s.responses|
      ensures ResponseOk(t, r)
    {
      assert ResponseOk(s, r);
    }
    forall o | 0 <= o < |s.ops|
      ensures OpOk(t, o)
    {
      assert OpOk(s, o);
    }
  }

  lemma SendKeeps(s: State, a: Action)
    requires Inv(s) && Next(s, a).Some?
    requires a.StartSend? || a.GiveUp? || a.Acquire? || a.SendFails? || a.SendReturns?
    ensures Inv(Next(s, a).value)
  {
    hide Count;
    var t := Next(s, a).value;
    match a
    case StartSend(latch) =>
      assert InFlights(t) == InFlights(s) + [false];
      CountSnoc(InFlights(s), false);
      assert Holdings(t) == Holdings(s);
      GrownKeeps(s, t);
    case GiveUp(i) =>
      PhaseCount(s, i, Over);
      assert Holdings(t) == Holdings(s);
      GrownKeeps(s, t);
    case Acquire(i) =>
      PhaseCount(s, i, InFlight);
      assert InFlights(t) == InFlights(SetPhase(s, i, InFlight)) && Holdings(t) == Holdings(s);
      GrownKeeps(s, t);
    case SendFails(i) =>
      PhaseCount(s, i, Over);
      assert InFlights(t) == InFlights(SetPhase(s, i, Over)) && Holdings(t) == Holdings(s);
      GrownKeeps(s, t);
    case SendReturns(i) =>
      PhaseCount(s, i, Over);
      assert InFlights(t) == InFlights(SetPhase(s, i, Over));
      assert Holdings(t) == Holdings(s) + [s.limit.Some?];
      CountSnoc(Holdings(s), s.limit.Some?);
      GrownKeeps(s, t);
    case _ =>
  }

  /** Every enabled action keeps the invariant. */
  lemma NextKeeps(s: State, a: Action)
    requires Inv(s) && Next(s, a).Some?
    ensures Inv(Next(s, a).value)
  {
    hide Count;
    var t := Next(s, a).value;
    if a.Advance? || a.Poll? || a.StreamWakes? {
      OpKeeps(s, a, a.op);
    } else if a.StartSend? || a.GiveUp? || a.Acquire? || a.SendFails? || a.SendReturns? {
      SendKeeps(s, a);
    } else {
      assert InFlights(t) == InFlights(s) && Holdings(t) == Holdings(s);
      if a.StartRead? || a.StartClose? {
        assert ResponseOk(s, a.response);
      }
      GrownKeeps(s, t);
    }
  }

  // ----- whole runs -----

  /** The state after a run, None if some action was not enabled in its turn. */
  function Exec(s: State, run: seq<Action>): Option<State>
    decreases |run|
  {
    if run == [] then Some(s)
    else
      match Next(s, run[0])
      case None => None
      case Some(t) => Exec(t, run[1..])
  }

  lemma {:induction false} ExecKeeps(s: State, run: seq<Action>)
    requires Inv(s) && Exec(s, run).Some?
    ensures Inv(Exec(s, run).value)
    decreases |run|
  {
    hide Inv;
    if run != [] {
      NextKeeps(s, run[0]);
      ExecKeeps(Next(s, run[0]).value, run[1..]);
    }
  }

  lemma ReachableInv(limit: Option<nat>, run: seq<Action>)
    requires Exec(Init(limit), run).Some?
    ensures Inv(Exec(Init(limit), run).value)
  {
    var s := Init(limit);
    assert InFlights(s) == [] && Holdings(s) == [];
    ExecKeeps(s, run);
  }

  /** In every reachable state the permits add up to the limit; a response whose mutex is free has an empty
      stream slot exactly when its permit is released; none is released twice. */
  lemma PermitsAddUp(n: nat, run: seq<Action>)
    requires Exec(Init(Some(n)), run).Some?
    ensures var s := Exec(Init(Some(n)), run).value;
            && s.free + Count(InFlights(s)) + Count(Holdings(s)) == n
            && forall r | 0 <= r < |s.responses| ::
                 var x := s.responses[r];
                 && x.releases <= 1 && (x.permit <==> x.releases == 0)
                 && (x.lock.None? ==> (!x.stream <==> x.releases == 1))
  {
    ReachableInv(Some(n), run);
    var s := Exec(Init(Some(n)), run).value;
    ExecLimit(Init(Some(n)), run);
    forall r | 0 <= r < |s.responses|
      ensures var x := s.responses[r];
              && x.releases <= 1 && (x.permit <==> x.releases == 0)
              && (x.lock.None? ==> (!x.stream <==> x.releases == 1))
    {
      assert ResponseOk(s, r);
    }
  }

  /** A waiting send can go on exactly while fewer than the limit of permits are held by others, unless the client has
      been closed; it takes one. It can always give up, and without a limit it can always go on. */
  lemma AcquireIff(limit: Option<nat>, run: seq<Action>, i: nat)
    requires Exec(Init(limit), run).Some?
    requires var s := Exec(Init(limit), run).value; i < |s.sends| && s.sends[i].phase.Waiting?
    ensures var s := Exec(Init(limit), run).value;
            && (Next(s, Acquire(i)).Some? <==>
                limit.None? || (!s.semaphoreClosed && Count(InFlights(s)) + Count(Holdings(s)) < limit.value))
            && (Next(s, Acquire(i)).Some? ==>
                  var t := Next(s, Acquire(i)).value;
                  t.sends[i].phase.InFlight? && t.free == if limit.None? then s.free else s.free - 1)
            && Next(s, GiveUp(i)).Some? && Next(s, GiveUp(i)).value.free == s.free
  {
    hide OpNext, Count;
    ReachableInv(limit, run);
    ExecLimit(Init(limit), run);
  }

  lemma NextLimit(s: State, a: Action)
    requires Next(s, a).Some?
    ensures Next(s, a).value.limit == s.limit
  {
  }

  lemma {:induction false} ExecLimit(s: State, run: seq<Action>)
    requires Exec(s, run).Some?
    ensures Exec(s, run).value.limit == s.limit
    decreases |run|
  {
    if run != [] {
      hide Next;
      NextLimit(s, run[0]);
      ExecLimit(Next(s, run[0]).value, run[1..]);
    }
  }

  /** An emptied stream slot stays empty, and a set latch stays set. */
  predicate Grows(s: State, t: State, r: nat)
    requires r < |s.responses|
  {
    && r < |t.responses| && t.responses[r].latch == s.responses[r].latch
    && (t.responses[r].stream ==> s.responses[r].stream) && t.limit == s.limit
    && (IsSet(s, s.responses[r].latch) ==> IsSet(t, s.responses[r].latch))
  }

  lemma StepMoves(op: Op, x: Response, signal: Signal, item: Item, o: nat)
    ensures op.Read? && ReadStep(op, x, signal, o).Some? ==> Empties(x, ReadStep(op, x, signal, o).value.response)
    ensures op.Close? && CloseStep(op, x, o).Some? ==> Empties(x, CloseStep(op, x, o).value.response)
    ensures PollStep(op, x, item).Some? ==> Empties(x, PollStep(op, x, item).value.response)
    ensures WakeStep(op, x).Some? ==> Empties(x, WakeStep(op, x).value.response)
  {
  }

  predicate Empties(x: Response, y: Response) { y.latch == x.latch && (y.stream ==> x.stream) }

  lemma OpMonotone(s: State, a: Action, o: nat, r: nat)
    requires OpNext(s, a, o).Some? && r < |s.responses|
    ensures Grows(s, OpNext(s, a, o).value, r)
  {
    hide ReadStep, CloseStep, PollStep, WakeStep;
    var op, x := s.ops[o], s.responses[s.ops[o].response];
    StepMoves(op, x, SignalOf(s, x.latch), if a.Poll? then a.item else End, o);
  }

  lemma NextMonotone(s: State, a: Action, r: nat)
    requires Next(s, a).Some? && r < |s.responses|
    ensures Grows(s, Next(s, a).value, r)
  {
    hide OpNext;
    if a.Advance? || a.Poll? || a.StreamWakes? {
      OpMonotone(s, a, a.op, r);
    }
  }

  lemma {:induction false} ExecMonotone(s: State, run: seq<Action>, r: nat)
    requires Exec(s, run).Some? && r < |s.responses|
    ensures var t := Exec(s, run).value;
            r < |t.responses| && (t.responses[r].stream ==> s.responses[r].stream)
    decreases |run|
  {
    hide Next;
    if run != [] {
      NextMonotone(s, run[0], r);
      ExecMonotone(Next(s, run[0]).value, run[1..], r);
    }
  }

  lemma {:induction false} ExecSplit(s: State, a: seq<Action>, b: seq<Action>)
    requires Exec(s, a).Some?
    ensures Exec(s, a + b) == Exec(Exec(s, a).value, b)
    decreases |a|
  {
    hide Next;
    if a == [] {
      assert a + b == b;
    } else {
      assert (a + b)[1..] == a[1..] + b;
      ExecSplit(Next(s, a[0]).value, a[1..], b);
    }
  }

  /** `NativeClient.close` has run: the semaphore is closed, then the client is gone. */
  predicate Shut(s: State) { s.limit.Some? && s.semaphoreClosed && !s.clientOpen }

  /** No send is added, and none that was not sending is sending now. */
  predicate AdmitsNone(s: State, t: State)
  {
    && |t.sends| == |s.sends|
    && forall i | 0 <= i < |s.sends| :: t.sends[i].phase.InFlight? ==> s.sends[i].phase.InFlight?
  }

  lemma ShutStep(s: State, a: Action)
    requires Shut(s) && Next(s, a).Some?
    ensures Shut(Next(s, a).value) && AdmitsNone(s, Next(s, a).value)
  {
  }

  /** After the client is closed no send starts and none that waits gets a connection, however the run goes on. */
  lemma {:induction false} ClosedClientAdmitsNone(s: State, run: seq<Action>)
    requires Shut(s) && Exec(s, run).Some?
    ensures Shut(Exec(s, run).value) && AdmitsNone(s, Exec(s, run).value)
    decreases |run|
  {
    hide Next, Shut;
    if run != [] {
      ShutStep(s, run[0]);
      ClosedClientAdmitsNone(Next(s, run[0]).value, run[1..]);
    }
  }
}
