/** What a send asks of its environment, in which order, and what it makes of the answers. */
module SendTrace {
  import opened Prelude

  datatype Request = Request(tag: int)

  datatype Redirect = NotRedirect | BuildFails | RedirectTo(next: Request)

  /** What a single request comes to: the transport raises, or a response arrives. */
  datatype Exchange = TransportError | Arrives(hookRaises: bool, redirect: Redirect)

  datatype AuthStep = Stop | Raise | Yield(next: Request)

  type ResponseId = nat

  /** Everything the client does not decide, by the number of the step that asks: server, hooks, body reads and the
      authentication generator, which is made for a request, is given responses, may read their bodies and may never
      stop yielding. */
  datatype Environment = Environment(
    requestHookRaises: (nat, Request) -> bool,
    exchange: (nat, Request) -> Exchange,
    readFails: (nat, ResponseId) -> bool,
    flowReads: (nat, ResponseId) -> bool,
    flow: (nat, Request, Option<ResponseId>) -> AuthStep)

  /** One question and its answer. */
  datatype Event =
    | Hooked(request: Request, raises: bool)
    | Sent(request: Request, exchange: Exchange)
    | BodyRead(response: ResponseId, fails: bool)
    | Resumed(given: ResponseId, wantsBody: bool)
    | Answered(origin: Request, after: Option<ResponseId>, step: AuthStep)

  predicate Agrees(env: Environment, t: nat, e: Event)
  {
    match e
    case Hooked(request, raises) => raises == env.requestHookRaises(t, request)
    case Sent(request, exchange) => exchange == env.exchange(t, request)
    case BodyRead(response, fails) => fails == env.readFails(t, response)
    case Resumed(given, wantsBody) => wantsBody == env.flowReads(t, given)
    case Answered(origin, after, step) => step == env.flow(t, origin, after)
  }

  /** Every answer in the log is the one the environment gave at that step. */
  predicate Faithful(env: Environment, log: seq<Event>)
  {
    forall t | 0 <= t < |log| :: Agrees(env, t, log[t])
  }

  lemma FaithfulSnoc(env: Environment, log: seq<Event>, e: Event)
    requires Faithful(env, log) && Agrees(env, |log|, e)
    ensures Faithful(env, log + [e])
  {
  }

  /** An answer that makes the client give up. */
  predicate Fails(e: Event)
  {
    match e
    case Hooked(_, raises) => raises
    case Sent(_, exchange) => exchange.TransportError? || exchange.hookRaises || exchange.redirect.BuildFails?
    case BodyRead(_, fails) => fails
    case Resumed(_, _) => false
    case Answered(_, _, step) => step.Raise?
  }

  type Trace = seq<Event>

  // ----- a leg of redirects -----

  /** One round: the hooks, the request, and the body of a redirect that is followed. It stops at the first failure. */
  predicate IsRound(events: Trace, request: Request, follow: bool, response: ResponseId)
  {
    && events != [] && events[0] == Hooked(request, events[0].Hooked? && events[0].raises)
    && if Fails(events[0]) then |events| == 1
       else
         && |events| > 1 && events[1].Sent? && events[1].request == request
         && if Fails(events[1]) || events[1].exchange.redirect.NotRedirect? || !follow then |events| == 2
            else |events| == 3 && events[2].BodyRead? && events[2].response == response
  }

  /** The request the next round is for, if the redirect of this one was followed. */
  function NextOf(events: Trace): Option<Request>
  {
    if |events| == 3 && events[1].Sent? && events[1].exchange.Arrives? && events[1].exchange.redirect.RedirectTo?
       && !Fails(events[2]) then Some(events[1].exchange.redirect.next)
    else None
  }

  function AskedIn(rounds: seq<Trace>, request: Request, i: nat): Request
    requires i <= |rounds|
  {
    if i == 0 || NextOf(rounds[i - 1]).None? then request else NextOf(rounds[i - 1]).value
  }

  /** A leg of rounds: the first for `request`, each other for the redirect the one before followed, and no round more
      than there is room for. Only for want of room does a leg end while there is a redirect left to follow. */
  predicate IsLeg(rounds: seq<Trace>, request: Request, follow: bool, room: int, first: ResponseId)
  {
    && (forall i | 0 <= i < |rounds| :: IsRound(rounds[i], AskedIn(rounds, request, i), follow, first + i))
    && (forall i | 0 <= i < |rounds| - 1 :: NextOf(rounds[i]).Some?)
    && (rounds != [] ==> |rounds| <= room)
    && (rounds == [] || NextOf(rounds[|rounds| - 1]).Some? ==> |rounds| >= room)
  }

  datatype Failure = TooManyRedirects | Other

  /** How a leg ends: None if it returns the response of its last round. */
  function LegFailure(rounds: seq<Trace>): Option<Failure>
  {
    if rounds == [] || NextOf(rounds[|rounds| - 1]).Some? then Some(TooManyRedirects)
    else
      var last := rounds[|rounds| - 1];
      if last != [] && Fails(last[|last| - 1]) then Some(Other) else None
  }

  // ----- a turn of the authentication flow -----

  /** The flow is given the response, reads its body if it wants to, and answers. If it goes on the body is read
      unless it has been. */
  predicate IsTurn(events: Trace, origin: Request, response: ResponseId)
  {
    && events != [] && events[0].Resumed? && events[0].given == response
    && if events[0].wantsBody then
         && |events| > 1 && events[1].BodyRead? && events[1].response == response
         && if events[1].fails then |events| == 2
            else |events| == 3 && events[2].Answered? && events[2].origin == origin && events[2].after == Some(response)
       else
         && |events| > 1 && events[1].Answered? && events[1].origin == origin && events[1].after == Some(response)
         && if !events[1].step.Yield? then |events| == 2
            else |events| == 3 && events[2].BodyRead? && events[2].response == response
  }

  function AnswerOf(events: Trace): Option<AuthStep>
  {
    if |events| > 1 && events[1].Answered? then Some(events[1].step)
    else if |events| > 2 && events[2].Answered? then Some(events[2].step)
    else None
  }

  /** The request of the next leg, if there is one. */
  function Continued(events: Trace): Option<Request>
  {
    if AnswerOf(events).Some? && AnswerOf(events).value.Yield? && !Fails(events[|events| - 1])
    then Some(AnswerOf(events).value.next) else None
  }

  /** The flow has read the body of the response. */
  predicate ReadByFlow(events: Trace) { |events| > 1 && events[1].BodyRead? && !events[1].fails }

  // ----- a whole send -----

  /** A leg, from its first response on, and what the flow said to the response it returned. */
  datatype Visit = Visit(request: Request, first: ResponseId, rounds: seq<Trace>, turn: Trace)
  {
    function Last(): int { first + |rounds| - 1 }
  }

  predicate IsVisit(v: Visit, origin: Request, follow: bool, room: int)
  {
    && IsLeg(v.rounds, v.request, follow, room, v.first)
    && if LegFailure(v.rounds).Some? then v.turn == [] else v.rounds != [] && IsTurn(v.turn, origin, v.Last())
  }

  /** One leg per request the flow yields, each with room for one round less, until a leg fails or the flow does
      not go on. */
  predicate AreVisits(visits: seq<Visit>, origin: Request, answer: AuthStep, follow: bool, room: int, first: ResponseId)
  {
    && (visits == [] <==> !answer.Yield?)
    && (visits != [] ==> visits[0].request == answer.next && visits[0].first == first)
    && (forall i | 0 <= i < |visits| :: IsVisit(visits[i], origin, follow, room - i))
    && (forall i | 0 <= i < |visits| - 1 :: Succeeds(visits[i], visits[i + 1]))
    && (visits != [] ==> Continued(visits[|visits| - 1].turn).None?)
  }

  predicate Succeeds(v: Visit, next: Visit)
  {
    Continued(v.turn) == Some(next.request) && next.first == v.first + |v.rounds|
  }

  function EventsOf(v: Visit): Trace { Concat(v.rounds) + v.turn }

  function AllEvents(visits: seq<Visit>): Trace
  {
    if visits == [] then [] else AllEvents(visits[..|visits| - 1]) + EventsOf(visits[|visits| - 1])
  }

  /** How it ends: None if the last response is returned, which takes a flow that stops. A flow that stops before it
      has yielded anything is an error. */
  function AuthFailure(visits: seq<Visit>): Option<Failure>
  {
    if visits == [] then Some(Other)
    else
      var last := visits[|visits| - 1];
      if LegFailure(last.rounds).Some? then LegFailure(last.rounds)
      else if AnswerOf(last.turn) == Some(Stop) then None
      else Some(Other)
  }

  /** Response numbers, in order. */
  function Ids(from: nat, to: nat): seq<ResponseId>
    requires from <= to
  {
    seq(to - from, i requires 0 <= i < to - from => from + i)
  }

  /** The response each leg returned. */
  function Lasts(visits: seq<Visit>): seq<ResponseId>
  {
    seq(|visits|, i requires 0 <= i < |visits| => visits[i].first + if visits[i].rounds == [] then 0
                                                                    else |visits[i].rounds| - 1)
  }

  /** The history of a returned response: what the legs before the last returned, and what the last was redirected
      by. */
  function HistoryOf(visits: seq<Visit>): seq<ResponseId>
  {
    if visits == [] || visits[|visits| - 1].rounds == [] then []
    else Lasts(visits[..|visits| - 1]) + Ids(visits[|visits| - 1].first, visits[|visits| - 1].Last())
  }

  // ----- growing a trace -----

  lemma LegGrows(rounds: seq<Trace>, round: Trace, request: Request, follow: bool, room: int, first: ResponseId)
    requires OpenLeg(rounds, request, follow, room, first) && |rounds| < room
    requires IsRound(round, AskedIn(rounds, request, |rounds|), follow, first + |rounds|)
    ensures NextOf(round).Some? ==> OpenLeg(rounds + [round], request, follow, room, first)
    ensures NextOf(round).None? ==> IsLeg(rounds + [round], request, follow, room, first)
    ensures NextOf(round).Some? ==> AskedIn(rounds + [round], request, |rounds| + 1) == NextOf(round).value
  {
    hide IsRound, NextOf, Fails;
    var more := rounds + [round];
    forall i | 0 <= i < |more|
      ensures IsRound(more[i], AskedIn(more, request, i), follow, first + i)
    {
      assert AskedIn(more, request, i) == AskedIn(rounds, request, i);
    }
  }

  /** A leg that may go on. */
  predicate OpenLeg(rounds: seq<Trace>, request: Request, follow: bool, room: int, first: ResponseId)
  {
    && (forall i | 0 <= i < |rounds| :: IsRound(rounds[i], AskedIn(rounds, request, i), follow, first + i))
    && (forall i | 0 <= i < |rounds| :: NextOf(rounds[i]).Some?)
    && (rounds != [] ==> |rounds| <= room)
  }

  lemma LegFull(rounds: seq<Trace>, request: Request, follow: bool, room: int, first: ResponseId)
    requires OpenLeg(rounds, request, follow, room, first) && |rounds| >= room
    ensures IsLeg(rounds, request, follow, room, first) && LegFailure(rounds) == Some(TooManyRedirects)
  {
  }

  lemma LegDone(rounds: seq<Trace>, round: Trace)
    requires NextOf(round).None? && round != []
    ensures LegFailure(rounds + [round]) == if Fails(round[|round| - 1]) then Some(Other) else None
  {
    hide NextOf, Fails;
    assert (rounds + [round])[|rounds|] == round;
  }

  /** Visits that all go on. */
  predicate OpenVisits(visits: seq<Visit>, origin: Request, answer: AuthStep, follow: bool, room: int,
                       first: ResponseId)
  {
    && answer.Yield?
    && (visits != [] ==> visits[0].request == answer.next && visits[0].first == first)
    && (forall i | 0 <= i < |visits| :: IsVisit(visits[i], origin, follow, room - i))
    && (forall i | 0 <= i < |visits| - 1 :: Succeeds(visits[i], visits[i + 1]))
  }

  /** The next visit of a send that goes on. */
  predicate ComesNext(visits: seq<Visit>, v: Visit, answer: AuthStep, first: ResponseId)
  {
    if visits == [] then answer.Yield? && v.request == answer.next && v.first == first
    else Succeeds(visits[|visits| - 1], v)
  }

  lemma VisitsGrow(visits: seq<Visit>, v: Visit, origin: Request, answer: AuthStep, follow: bool, room: int,
                   first: ResponseId)
    requires OpenVisits(visits, origin, answer, follow, room, first) && ComesNext(visits, v, answer, first)
    requires IsVisit(v, origin, follow, room - |visits|)
    ensures OpenVisits(visits + [v], origin, answer, follow, room, first)
    ensures Continued(v.turn).None? ==> AreVisits(visits + [v], origin, answer, follow, room, first)
    ensures AllEvents(visits + [v]) == AllEvents(visits) + EventsOf(v)
  {
    hide IsVisit, Continued, EventsOf;
    var more := visits + [v];
    assert more[..|visits|] == visits;
    forall i | 0 <= i < |more| - 1
      ensures Succeeds(more[i], more[i + 1])
    {
      assert i < |visits| - 1 ==> more[i] == visits[i] && more[i + 1] == visits[i + 1];
    }
  }

  lemma NoVisits(origin: Request, answer: AuthStep, follow: bool, room: int, first: ResponseId)
    ensures answer.Yield? ==> OpenVisits([], origin, answer, follow, room, first)
    ensures !answer.Yield? ==> AreVisits([], origin, answer, follow, room, first)
    ensures AllEvents([]) == [] && AuthFailure([]) == Some(Other)
    ensures Continued([]).None? && AnswerOf([]).None?
  {
  }

  lemma VisitDone(visits: seq<Visit>, v: Visit)
    ensures AuthFailure(visits + [v]) ==
            if LegFailure(v.rounds).Some? then LegFailure(v.rounds)
            else if AnswerOf(v.turn) == Some(Stop) then None
            else Some(Other)
  {
    hide LegFailure, AnswerOf;
    assert (visits + [v])[|visits|] == v;
  }

  // ----- what a trace says -----

  /** Only the last event of a round or of a turn can be a failure, so the client asks nothing after one. */
  lemma NothingAfterFailure(events: Trace, request: Request, follow: bool, response: ResponseId, i: nat)
    requires IsRound(events, request, follow, response) || IsTurn(events, request, response)
    requires i < |events| - 1
    ensures !Fails(events[i])
  {
  }

  /** Between two legs the flow answered with the request of the second one, and before a send returns it said Stop. */
  lemma AnswersOfVisits(visits: seq<Visit>, origin: Request, answer: AuthStep, follow: bool, room: int,
                        first: ResponseId)
    requires AreVisits(visits, origin, answer, follow, room, first)
    ensures forall i | 0 <= i < |visits| - 1 ::
              LegFailure(visits[i].rounds).None? && AnswerOf(visits[i].turn) == Some(Yield(visits[i + 1].request))
    ensures AuthFailure(visits).None? ==>
              visits != [] && LegFailure(visits[|visits| - 1].rounds).None?
              && AnswerOf(visits[|visits| - 1].turn) == Some(Stop)
    ensures AuthFailure(visits) == Some(Other) ==>
              || visits == []
              || LegFailure(visits[|visits| - 1].rounds) == Some(Other)
              || (visits[|visits| - 1].turn != [] && Fails(visits[|visits| - 1].turn[|visits[|visits| - 1].turn| - 1]))
  {
    hide IsLeg, LegFailure;
    forall i | 0 <= i < |visits| - 1
      ensures LegFailure(visits[i].rounds).None? && AnswerOf(visits[i].turn) == Some(Yield(visits[i + 1].request))
    {
      assert IsVisit(visits[i], origin, follow, room - i) && Succeeds(visits[i], visits[i + 1]);
    }
    if visits != [] {
      assert IsVisit(visits[|visits| - 1], origin, follow, room - (|visits| - 1));
    }
  }
}
