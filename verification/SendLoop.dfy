/** The send loops of `Client` in httpxp/_client.py: authentication outside, redirects inside.
    Lists and responses are objects of the client's heap, named by their index, so that a list that is
    copied and a list that is appended to in place are told apart. */
module SendLoop {
  import opened Prelude
  import opened SendTrace

  type ListId = nat

  /** A response: the request it answers and what the server made of it, its history list, and its state. */
  datatype Response = Response(
    request: Request, redirect: Redirect, history: ListId, nextRequest: Option<Request>, isClosed: bool, isRead: bool)

  datatype Outcome = Returned(response: ResponseId) | Raised(failure: Failure)

  /** How one round of the redirect loop ends. */
  datatype Round = Done(outcome: Outcome) | Follow(next: Request, history: ListId)

  /** How the authentication flow goes on after a leg. */
  datatype Turn = Finish(outcome: Outcome) | Again(next: Request)

  // ----- histories -----

  /** Each response in the list was given the ones before it as its history. */
  predicate Chain(lists: seq<seq<ResponseId>>, responses: seq<Response>, items: seq<ResponseId>)
  {
    forall i | 0 <= i < |items| ::
      && items[i] < |responses| && responses[items[i]].history < |lists|
      && lists[responses[items[i]].history] == items[..i]
  }

  /** The history of response `r` is a chain of earlier responses. */
  predicate LinkedAt(lists: seq<seq<ResponseId>>, responses: seq<Response>, r: ResponseId)
    requires r < |responses|
  {
    && responses[r].history < |lists|
    && (var items := lists[responses[r].history]; forall i | 0 <= i < |items| :: items[i] < r)
    && Chain(lists, responses, lists[responses[r].history])
  }

  predicate Linked(lists: seq<seq<ResponseId>>, responses: seq<Response>)
  {
    forall r | 0 <= r < |responses| :: LinkedAt(lists, responses, r)
  }

  predicate AllClosed(responses: seq<Response>)
  {
    forall r | 0 <= r < |responses| :: responses[r].isClosed
  }

  /** No response but possibly the latest one is open, and that one has not been read. */
  predicate OnlyLastOpen(responses: seq<Response>)
  {
    forall r | 0 <= r < |responses| :: responses[r].isClosed || (r == |responses| - 1 && !responses[r].isRead)
  }

  /** A response a leg may end with: no redirect, or one that is offered instead of followed. */
  predicate Final(r: Response, follow: bool)
  {
    match r.redirect
    case NotRedirect => r.nextRequest.None?
    case BuildFails => false
    case RedirectTo(next) => !follow && r.nextRequest == Some(next)
  }

  /** From position `from` on, each response answers the request the one before it redirected to, and the
      first answers `request`. */
  predicate Leg(responses: seq<Response>, items: seq<ResponseId>, from: nat, request: Request)
  {
    forall i | from <= i < |items| ::
      && items[i] < |responses| && responses[items[i]].redirect.RedirectTo?
      && responses[items[i]].request == Asked(responses, items, from, request, i)
  }

  /** The request the response at position `i` has to answer. */
  function Asked(responses: seq<Response>, items: seq<ResponseId>, from: nat, request: Request, i: nat): Request
  {
    if from < i <= |items| && items[i - 1] < |responses| && responses[items[i - 1]].redirect.RedirectTo?
    then responses[items[i - 1]].redirect.next else request
  }

  /** From position `from` on, each response answers the request the one before it redirected to, and the
      first answers `request`. */
  predicate LedTo(responses: seq<Response>, from: nat, request: Request)
  {
    forall k | from <= k < |responses| :: LedAt(responses, from, request, k)
  }

  predicate LedAt(responses: seq<Response>, from: nat, request: Request, k: nat)
    requires from <= k < |responses|
  {
    if k == from then responses[k].request == request else responses[k - 1].redirect == RedirectTo(responses[k].request)
  }

  /** The request a response answers was yielded by the authentication flow, or the response before it
      redirected to it. */
  ghost predicate Called(env: Environment, origin: Request, responses: seq<Response>, from: nat, k: nat)
    requires k < |responses|
  {
    || Yielded(env, origin, responses[k].request)
    || (k > from && responses[k - 1].redirect == RedirectTo(responses[k].request))
  }

  ghost predicate Yielded(env: Environment, origin: Request, request: Request)
  {
    exists t, after :: Yields(env, t, origin, after, request)
  }

  predicate Yields(env: Environment, t: nat, origin: Request, after: Option<ResponseId>, request: Request)
  {
    env.flow(t, origin, after) == Yield(request)
  }

  ghost predicate AllCalled(env: Environment, origin: Request, responses: seq<Response>, from: nat)
  {
    forall k | from <= k < |responses| :: Called(env, origin, responses, from, k)
  }

  /** Response `first + j` answers what round `j` sent, as far as one arrived. */
  predicate Answers(responses: seq<Response>, rounds: seq<Trace>, first: nat)
  {
    forall j | 0 <= j < |rounds| :: AnswersRound(responses, rounds[j], first + j)
  }

  predicate AnswersRound(responses: seq<Response>, round: Trace, r: nat)
  {
    |round| > 1 && round[1].Sent? && round[1].exchange.Arrives? ==>
      && r < |responses| && responses[r].request == round[1].request
      && responses[r].redirect == round[1].exchange.redirect
  }

  predicate AllAnswer(responses: seq<Response>, visits: seq<Visit>)
  {
    forall i | 0 <= i < |visits| :: Answers(responses, visits[i].rounds, visits[i].first)
  }

  /** Only states and histories of responses differ. */
  predicate SameExchanges(responses: seq<Response>, responses': seq<Response>)
  {
    && |responses'| == |responses|
    && forall r | 0 <= r < |responses| ::
         responses'[r].request == responses[r].request && responses'[r].redirect == responses[r].redirect
  }

  /** A list a leg may start from: a chain, and no response's own history object. */
  predicate Usable(lists: seq<seq<ResponseId>>, responses: seq<Response>, list: ListId)
  {
    && list < |lists|
    && Chain(lists, responses, lists[list])
    && forall r | 0 <= r < |responses| :: responses[r].history != list
  }

  /** New lists and responses leave the old chains alone. */
  lemma ChainExtends(lists: seq<seq<ResponseId>>, responses: seq<Response>, items: seq<ResponseId>,
                     lists': seq<seq<ResponseId>>, responses': seq<Response>)
    requires Chain(lists, responses, items)
    requires lists <= lists' && |responses| <= |responses'|
    requires forall r | 0 <= r < |responses| :: responses'[r].history == responses[r].history
    ensures Chain(lists', responses', items)
  {
  }

  class Client {
    const env: Environment
    const maxRedirects: int
    var clock: nat
    var sent: nat
    var lists: seq<seq<ResponseId>>
    var responses: seq<Response>
    ghost var log: Trace   // what has been asked, and the answers

    ghost predicate Logged()
      reads this
    {
      clock == |log| && Faithful(env, log)
    }

    constructor (env: Environment, maxRedirects: int)
      ensures this.env == env && this.maxRedirects == maxRedirects
      ensures sent == 0 && lists == [] && responses == [] && log == [] && Logged()
    {
      this.env, this.maxRedirects := env, maxRedirects;
      clock, sent, lists, responses, log := 0, 0, [], [], [];
    }

    /** One more question and its answer. */
    method Tick(ghost e: Event)
      requires Logged() && Agrees(env, clock, e)
      modifies this`clock, this`log
      ensures Logged() && log == old(log) + [e]
    {
      FaithfulSnoc(env, log, e);
      clock := clock + 1;
      log := log + [e];
    }

    /** `list(items)`: a list object of its own. */
    method NewList(items: seq<ResponseId>) returns (list: ListId)
      modifies this`lists
      ensures lists == old(lists) + [items] && list == |old(lists)|
    {
      list := |lists|;
      lists := lists + [items];
    }

    method Close(r: ResponseId)
      requires r < |responses|
      modifies this`responses
      ensures responses == old(responses)[r := old(responses)[r].(isClosed := true)]
    {
      responses := responses[r := responses[r].(isClosed := true)];
    }

    /** `response.read()`: a body already read is at hand; reading to the end closes the response. */
    method Read(r: ResponseId) returns (ok: bool)
      requires r < |responses| && Logged() && (responses[r].isClosed ==> responses[r].isRead)
      modifies this`responses, this`clock, this`log
      ensures Logged()
      ensures old(responses)[r].isRead ==> ok && responses == old(responses) && log == old(log)
      ensures !old(responses)[r].isRead ==> log == old(log) + [BodyRead(r, !ok)]
      ensures ok && !old(responses)[r].isRead ==>
                responses == old(responses)[r := old(responses)[r].(isClosed := true, isRead := true)]
      ensures !ok ==> responses == old(responses)
    {
      if responses[r].isRead {
        return true;
      }
      var fails := env.readFails(clock, r);
      Tick(BodyRead(r, fails));
      if fails {
        return false;
      }
      responses := responses[r := responses[r].(isClosed := true, isRead := true)];
      ok := true;
    }

    /** `_send_single_request`: called only when no response is open, so at most one ever is. */
    method SendSingle(request: Request) returns (exchange: Exchange)
      requires AllClosed(responses) && Logged()
      modifies this
      ensures Logged() && log == old(log) + [Sent(request, exchange)] && sent == old(sent) + 1
      ensures exchange.TransportError? ==> responses == old(responses) && lists == old(lists)
      ensures exchange.Arrives? ==>
                && lists == old(lists) + [[]]
                && responses == old(responses)
                                + [Response(request, exchange.redirect, |old(lists)|, None, false, false)]
    {
      exchange := env.exchange(clock, request);
      Tick(Sent(request, exchange));
      sent := sent + 1;
      if exchange.Arrives? {
        var list := NewList([]);
        responses := responses + [Response(request, exchange.redirect, list, None, false, false)];
      }
    }

    /** One round of `_send_handling_redirects`, after the limit has been checked. */
    method RedirectRound(request: Request, follow: bool, history: ListId) returns (out: Round, ghost events: Trace)
      requires history < |lists| && AllClosed(responses) && Logged()
      modifies this
      ensures Logged() && log == old(log) + events && IsRound(events, request, follow, |old(responses)|)
      ensures AnswersRound(responses, events, |old(responses)|)
      ensures out.Follow? <==> NextOf(events).Some?
      ensures out.Done? ==> (out.outcome.Raised? <==> Fails(events[|events| - 1]))
      ensures old(lists) <= lists && old(sent) <= sent <= old(sent) + 1
      ensures |responses| <= |old(responses)| + 1 && old(responses) <= responses
      ensures |responses| == |old(responses)| + 1 ==>
                var r := responses[|old(responses)|];
                && r.request == request && |old(lists)| <= r.history < |lists|
                && (lists[r.history] == old(lists)[history]
                    || (lists[r.history] == [] && out.Done? && out.outcome.Raised?))
      ensures out.Done? && out.outcome.Raised? ==> AllClosed(responses) && out.outcome.failure == Other
      ensures out.Done? && out.outcome.Returned? ==>
                && out.outcome.response == |old(responses)| == |responses| - 1 && sent == old(sent) + 1
                && var r := responses[|old(responses)|];
                   !r.isRead && !r.isClosed && Final(r, follow)
      ensures out.Follow? ==>
                && follow && |old(responses)| < |responses|
                && responses[|old(responses)|].redirect == RedirectTo(out.next) && NextOf(events) == Some(out.next)
                && AllClosed(responses) && |responses| == |old(responses)| + 1 && sent == old(sent) + 1
                && |old(lists)| <= out.history < |lists|
                && out.history != responses[|old(responses)|].history
                && lists[out.history] == old(lists)[history] + [|old(responses)|]
    {
      hide Faithful;
      var raises := env.requestHookRaises(clock, request);
      Tick(Hooked(request, raises));
      if raises {
        return Done(Raised(Other)), [Hooked(request, true)];
      }
      var exchange := SendSingle(request);
      events := [Hooked(request, false), Sent(request, exchange)];
      if exchange.TransportError? {
        return Done(Raised(Other)), events;
      }
      var r := |responses| - 1;
      if exchange.hookRaises {
        Close(r);
        return Done(Raised(Other)), events;
      }
      var copy := NewList(lists[history]);
      responses := responses[r := responses[r].(history := copy)];
      match exchange.redirect
      case NotRedirect => out := Done(Returned(r));
      case BuildFails =>
        Close(r);
        out := Done(Raised(Other));
      case RedirectTo(next) =>
        var longer := NewList(lists[history] + [r]);
        if follow {
          var ok := Read(r);
          events := events + [BodyRead(r, !ok)];
          if !ok {
            Close(r);
            return Done(Raised(Other)), events;
          }
          out := Follow(next, longer);
        } else {
          responses := responses[r := responses[r].(nextRequest := Some(next))];
          out := Done(Returned(r));
        }
    }

    /** How many single requests a leg may still make from a history of `n` responses. */
    function LegBound(n: nat): nat { if n > maxRedirects then 0 else maxRedirects + 1 - n }

    /** `_send_handling_redirects`: the caller's list is only read; each response gets its own copy. */
    method HandleRedirects(request: Request, follow: bool, list: ListId)
      returns (out: Outcome, ghost rounds: seq<Trace>)
      requires AllClosed(responses) && Linked(lists, responses) && Usable(lists, responses, list) && Logged()
      modifies this
      ensures Logged() && log == old(log) + Concat(rounds)
      ensures IsLeg(rounds, request, follow, maxRedirects + 1 - |old(lists)[list]|, |old(responses)|)
      ensures Answers(responses, rounds, |old(responses)|)
      ensures LegFailure(rounds).None? ==> rounds != [] && |responses| == |old(responses)| + |rounds|
      ensures out == if LegFailure(rounds).Some? then Raised(LegFailure(rounds).value) else Returned(|responses| - 1)
      ensures Linked(lists, responses) && Usable(lists, responses, list)
      ensures old(lists) <= lists && old(responses) <= responses
      ensures LedTo(responses, |old(responses)|, request)
      ensures out.Raised? ==> AllClosed(responses)
      ensures out.Returned? ==>
                && OnlyLastOpen(responses)
                && |old(responses)| <= out.response == |responses| - 1 && !responses[out.response].isClosed
                && responses[out.response].history < |lists|
                && lists[responses[out.response].history] == lists[list] + Ids(|old(responses)|, |responses| - 1)
                && |lists[responses[out.response].history]| <= maxRedirects
                && sent == old(sent) + |lists[responses[out.response].history]| - |lists[list]| + 1
                && Final(responses[out.response], follow)
                && var items := lists[responses[out.response].history];
                   && Leg(responses, items, |lists[list]|, request)
                   && responses[out.response].request == Asked(responses, items, |lists[list]|, request, |items|)
      ensures !follow ==> sent <= old(sent) + 1
      ensures out == Raised(TooManyRedirects) ==> sent == old(sent) + LegBound(|lists[list]|)
      ensures old(sent) <= sent <= old(sent) + LegBound(|lists[list]|)
    {
      hide Chain, LinkedAt, Linked, Leg, Asked, Final, LedTo, Faithful, IsLeg, OpenLeg, IsRound, NextOf, LegFailure;
      hide AskedIn, Answers, AnswersRound, Concat, Fails;
      assert lists[list] + Ids(|responses|, |responses|) == lists[list];
      rounds := [];
      NoRounds(responses, request, follow, maxRedirects + 1 - |lists[list]|);
      LegStarts(responses, lists[list], request);
      var history := list;
      var current := request;
      while true
        invariant old(lists) <= lists && old(responses) <= responses
        invariant AllClosed(responses) && Linked(lists, responses)
        invariant Usable(lists, responses, list) && Usable(lists, responses, history)
        invariant lists[history] == lists[list] + Ids(|old(responses)|, |responses|)
        invariant |lists[history]| <= maxRedirects + 1 || lists[history] == lists[list]
        invariant sent == old(sent) + |lists[history]| - |lists[list]|
        invariant Leg(responses, lists[history], |lists[list]|, request)
        invariant current == Asked(responses, lists[history], |lists[list]|, request, |lists[history]|)
        invariant LedTo(responses, |old(responses)|, request)
        invariant if |responses| == |old(responses)| then current == request
                  else responses[|responses| - 1].redirect == RedirectTo(current)
        invariant !follow ==> sent == old(sent)
        invariant Logged() && log == old(log) + Concat(rounds)
        invariant OpenLeg(rounds, request, follow, maxRedirects + 1 - |lists[list]|, |old(responses)|)
        invariant current == AskedIn(rounds, request, |rounds|)
        invariant Answers(responses, rounds, |old(responses)|)
        invariant |rounds| == |lists[history]| - |lists[list]| == |responses| - |old(responses)|
        decreases maxRedirects + 1 - |lists[history]|
      {
        if |lists[history]| > maxRedirects {
          LegFull(rounds, request, follow, maxRedirects + 1 - |lists[list]|, |old(responses)|);
          return Raised(TooManyRedirects), rounds;
        }
        ghost var lists0, responses0 := lists, responses;
        ghost var events;
        var round;
        round, events := RedirectRound(current, follow, history);
        LegGrows(rounds, events, request, follow, maxRedirects + 1 - |lists[list]|, |old(responses)|);
        RoundNonempty(events, current, follow, |responses0|);
        AnswersMore(responses0, responses, rounds, events, |old(responses)|);
        ConcatSnoc(rounds, events);
        assert old(log) + Concat(rounds) + events == old(log) + (Concat(rounds) + events);
        RoundKeeps(lists0, responses0, lists, responses, list, history);
        LedFurther(responses0, responses, |old(responses)|, request, current);
        LegExtends(responses0, responses, lists0[history], |lists[list]|, request);
        match round
        case Done(outcome) =>
          LegDone(rounds, events);
          return outcome, rounds + [events];
        case Follow(next, longer) =>
          rounds := rounds + [events];
          OldLists(lists0, responses0);
          LongerChain(lists, responses, lists0[history], longer);
          assert lists[longer] == lists[list] + (Ids(|old(responses)|, |responses0|) + [|responses0|]);
          ListGrows(responses, lists0[history], |lists[list]|, request);
          current, history := next, longer;
      }
    }

    /** One turn of `_send_handling_auth` after a leg returned the latest response: it is given to the flow,
        and if the flow goes on, the response is kept. */
    method AuthTurn(origin: Request, list: ListId) returns (turn: Turn, ghost events: Trace)
      requires responses != [] && OnlyLastOpen(responses) && !responses[|responses| - 1].isClosed && Logged()
      requires Linked(lists, responses) && Usable(lists, responses, list)
      requires forall i | 0 <= i < |lists[list]| :: lists[list][i] < |responses| - 1
      modifies this`clock, this`lists, this`responses, this`log
      ensures SameExchanges(old(responses), responses)
      ensures Logged() && log == old(log) + events && IsTurn(events, origin, |responses| - 1)
      ensures turn.Again? <==> Continued(events).Some?
      ensures turn.Again? ==> Continued(events) == Some(turn.next) && Yielded(env, origin, turn.next)
      ensures turn.Finish? ==>
                turn.outcome == if AnswerOf(events) == Some(Stop) then Returned(|responses| - 1) else Raised(Other)
      ensures Linked(lists, responses) && Usable(lists, responses, list)
      ensures turn.Finish? && turn.outcome.Raised? ==> AllClosed(responses)
      ensures turn.Finish? && turn.outcome.Returned? ==>
                && OnlyLastOpen(responses) && turn.outcome.response == |responses| - 1 && lists == old(lists)
                && responses[|responses| - 1].history == old(responses)[|responses| - 1].history
                && responses[|responses| - 1].isClosed == responses[|responses| - 1].isRead == ReadByFlow(events)
      ensures turn.Again? ==>
                && AllClosed(responses) && lists[list] == old(lists)[list] + [|responses| - 1]
                && responses[|responses| - 1].history < |lists|
                && lists[responses[|responses| - 1].history] == old(lists)[list]
    {
      hide Chain, LinkedAt, Linked, Faithful, Yielded;
      var r := |responses| - 1;
      ghost var before := responses;
      var step;
      step, events := Resume(origin);
      SameHistories(lists, before, responses, list);
      ghost var open := responses;
      match step
      case None =>
        Close(r);
        SameHistories(lists, open, responses, list);
        turn := Finish(Raised(Other));
      case Some(Stop) =>
        turn := Finish(Returned(r));
      case Some(Raise) =>
        Close(r);
        SameHistories(lists, open, responses, list);
        turn := Finish(Raised(Other));
      case Some(Yield(next)) =>
        var ok := Keep(list);
        events := events + if ReadByFlow(events) then [] else [BodyRead(r, !ok)];
        turn := if ok then Again(next) else Finish(Raised(Other));
    }

    /** `auth_flow.send(response)` on the latest response; None if the flow reads its body and that fails. */
    method Resume(origin: Request) returns (step: Option<AuthStep>, ghost events: Trace)
      requires responses != [] && Logged()
      requires !responses[|responses| - 1].isClosed && !responses[|responses| - 1].isRead
      modifies this`clock, this`responses, this`log
      ensures Logged() && log == old(log) + events && |responses| == |old(responses)|
      ensures var r := |responses| - 1;
              match step
              case None => events == [Resumed(r, true), BodyRead(r, true)] && responses == old(responses)
              case Some(s) =>
                || (events == [Resumed(r, false), Answered(origin, Some(r), s)] && responses == old(responses))
                || (events == [Resumed(r, true), BodyRead(r, false), Answered(origin, Some(r), s)]
                    && responses == old(responses)[r := old(responses)[r].(isClosed := true, isRead := true)])
      ensures step.Some? && step.value.Yield? ==> Yielded(env, origin, step.value.next)
    {
      hide Faithful;
      var r := |responses| - 1;
      var wantsBody := env.flowReads(clock, r);
      Tick(Resumed(r, wantsBody));
      events := [Resumed(r, wantsBody)];
      if wantsBody {
        var ok := Read(r);
        events := events + [BodyRead(r, !ok)];
        if !ok {
          return None, events;
        }
      }
      var answer := env.flow(clock, origin, Some(r));
      if answer.Yield? {
        assert Yields(env, clock, origin, Some(r), answer.next);
      }
      Tick(Answered(origin, Some(r), answer));
      events := events + [Answered(origin, Some(r), answer)];
      step := Some(answer);
    }

    /** The latest response gets a copy of the history so far, is read, and is appended to that history in
        place; it is closed either way. */
    method Keep(list: ListId) returns (ok: bool)
      requires responses != [] && OnlyLastOpen(responses) && Logged()
      requires responses[|responses| - 1].isClosed ==> responses[|responses| - 1].isRead
      requires Linked(lists, responses) && Usable(lists, responses, list)
      requires forall i | 0 <= i < |lists[list]| :: lists[list][i] < |responses| - 1
      modifies this`clock, this`lists, this`responses, this`log
      ensures SameExchanges(old(responses), responses)
      ensures Logged()
      ensures log == old(log) + if old(responses)[|responses| - 1].isRead then [] else [BodyRead(|responses| - 1, !ok)]
      ensures old(responses)[|old(responses)| - 1].isRead ==> ok
      ensures Linked(lists, responses) && Usable(lists, responses, list)
      ensures AllClosed(responses)
      ensures ok ==>
                && lists[list] == old(lists)[list] + [|responses| - 1]
                && responses[|responses| - 1].history < |lists|
                && lists[responses[|responses| - 1].history] == old(lists)[list]
    {
      hide Chain, LinkedAt, Linked, Faithful;
      var r := |responses| - 1;
      CopyKeeps(lists, responses, list);
      var copy := NewList(lists[list]);
      responses := responses[r := responses[r].(history := copy)];
      ghost var copied := responses;
      ok := Read(r);
      if !ok {
        Close(r);
        SameHistories(lists, copied, responses, list);
        return;
      }
      SameHistories(lists, copied, responses, list);
      AppendKeeps(lists, responses, list);
      lists := lists[list := lists[list] + [r]];
    }

    /** One round of the authentication loop: a leg, and the turn after it if it returned a response. */
    method VisitOnce(origin: Request, request: Request, follow: bool, list: ListId, ghost from: nat)
      returns (turn: Turn, ghost v: Visit)
      requires AllClosed(responses) && Linked(lists, responses) && Usable(lists, responses, list) && Logged()
      requires from <= |responses| && AllCalled(env, origin, responses, from) && Yielded(env, origin, request)
      modifies this
      ensures SameStart(old(responses), responses)
      ensures Logged() && log == old(log) + EventsOf(v)
      ensures v.request == request && v.first == |old(responses)|
      ensures IsVisit(v, origin, follow, maxRedirects + 1 - |old(lists)[list]|)
      ensures Answers(responses, v.rounds, v.first) && AllCalled(env, origin, responses, from)
      ensures LegFailure(v.rounds).None? ==> v.rounds != [] && |responses| == v.first + |v.rounds|
      ensures Linked(lists, responses) && Usable(lists, responses, list)
      ensures turn.Again? <==> Continued(v.turn).Some?
      ensures turn.Again? ==>
                && Continued(v.turn) == Some(turn.next) && Yielded(env, origin, turn.next) && AllClosed(responses)
                && |responses| == v.first + |v.rounds| && lists[list] == old(lists)[list] + [|responses| - 1]
                && |lists[list]| <= maxRedirects + 1
      ensures turn.Finish? ==>
                turn.outcome == if LegFailure(v.rounds).Some? then Raised(LegFailure(v.rounds).value)
                                else if AnswerOf(v.turn) == Some(Stop) then Returned(|responses| - 1)
                                else Raised(Other)
      ensures turn.Finish? && turn.outcome.Raised? ==> AllClosed(responses)
      ensures turn.Finish? && turn.outcome.Returned? ==>
                && OnlyLastOpen(responses) && responses[|responses| - 1].history < |lists|
                && lists[responses[|responses| - 1].history] == old(lists)[list] + Ids(v.first, |responses| - 1)
                && responses[|responses| - 1].isClosed == responses[|responses| - 1].isRead == ReadByFlow(v.turn)
      ensures old(sent) <= sent <= old(sent) + LegBound(|old(lists)[list]|)
    {
      hide LinkedAt, Linked, AllCalled, LedTo, Yielded, Faithful, IsLeg, IsTurn, LegFailure, AnswerOf, Continued;
      hide Concat, Answers, ReadByFlow, Ids;
      NoTurn();
      assert forall i | 0 <= i < |lists[list]| :: lists[list][i] < |responses|;
      hide Chain;
      ghost var before := responses;
      var out;
      ghost var rounds;
      out, rounds := HandleRedirects(request, follow, list);
      LegCalled(env, origin, before, responses, from, request);
      if out.Raised? {
        return Finish(out), Visit(request, |before|, rounds, []);
      }
      ghost var left := responses;
      ghost var events;
      turn, events := AuthTurn(origin, list);
      StillCalled(env, origin, left, responses, from);
      StillAnswers(left, responses, rounds, |before|);
      v := Visit(request, |before|, rounds, events);
      assert old(log) + Concat(rounds) + events == old(log) + (Concat(rounds) + events);
    }

    /** `_send_handling_auth`, from an empty history: the flow is asked, and asked again after each leg. */
    method HandleAuth(request: Request, follow: bool, list: ListId)
      returns (out: Outcome, ghost answer: AuthStep, ghost visits: seq<Visit>)
      requires AllClosed(responses) && Linked(lists, responses) && Usable(lists, responses, list) && Logged()
      requires lists[list] == []
      modifies this
      ensures Logged() && log == old(log) + [Answered(request, None, answer)] + AllEvents(visits)
      ensures AreVisits(visits, request, answer, follow, maxRedirects + 1, |old(responses)|)
      ensures AllAnswer(responses, visits)
      ensures out == match AuthFailure(visits)
                     case Some(failure) => Raised(failure)
                     case None => Returned(|responses| - 1)
      ensures Linked(lists, responses) && |old(responses)| <= |responses|
      ensures AllCalled(env, request, responses, |old(responses)|)
      ensures out.Raised? ==> AllClosed(responses)
      ensures out.Returned? ==>
                && OnlyLastOpen(responses) && |old(responses)| <= out.response == |responses| - 1
                && responses[out.response].isClosed == responses[out.response].isRead
                && visits != [] && responses[out.response].isRead == ReadByFlow(visits[|visits| - 1].turn)
                && out.response == visits[|visits| - 1].Last() && responses[out.response].history < |lists|
                && lists[responses[out.response].history] == HistoryOf(visits)
      ensures old(sent) <= sent && 2 * (sent - old(sent)) <= RunBound(maxRedirects)
    {
      hide LinkedAt, Linked, RunBound, LegsBound, AllClosed, OnlyLastOpen, AllCalled, LedTo, Yielded;
      hide Faithful, IsLeg, IsTurn, LegFailure, AnswerOf, Continued, AreVisits, OpenVisits, AllEvents, AuthFailure;
      hide Concat, Answers, AllAnswer, ReadByFlow, ComesNext, Succeeds, Lasts, HistoryOf, Ids;
      visits := [];
      var step := env.flow(clock, request, None);
      ghost var start := clock;
      answer := step;
      Tick(Answered(request, None, answer));
      ghost var log0 := log;
      RunBoundAt(maxRedirects, 0);
      NothingCalled(env, request, responses);
      NoVisits(request, answer, follow, maxRedirects + 1, |responses|);
      NoAnswers(responses);
      NoLasts();
      assert log == log0 + AllEvents(visits);
      if !step.Yield? {
        return Raised(Other), answer, [];
      }
      var current := step.next;
      FirstYield(env, start, request, current);
      FirstVisit(current, answer, |responses|);
      while true
        invariant |old(responses)| <= |responses|
        invariant Logged() && log == log0 + AllEvents(visits)
        invariant OpenVisits(visits, request, answer, follow, maxRedirects + 1, |old(responses)|)
        invariant ComesNext(visits, Visit(current, |responses|, [], []), answer, |old(responses)|)
        invariant AllCalled(env, request, responses, |old(responses)|) && Yielded(env, request, current)
        invariant AllClosed(responses) && Linked(lists, responses) && Usable(lists, responses, list)
        invariant AllAnswer(responses, visits) && lists[list] == Lasts(visits)
        invariant |lists[list]| <= maxRedirects + 1 || lists[list] == []
        invariant old(sent) <= sent && 2 * (sent - old(sent)) <= LegsBound(maxRedirects, |lists[list]|)
        decreases maxRedirects + 1 - |lists[list]|
      {
        RunBoundAt(maxRedirects, |lists[list]|);
        ghost var before, log1 := responses, log;
        var turn;
        ghost var v;
        turn, v := VisitOnce(request, current, follow, list, |old(responses)|);
        MoreAnswer(before, responses, visits);
        LastsGrow(visits, v);
        VisitEnds(visits, v, request, answer, follow, maxRedirects + 1, |old(responses)|, responses, log0, log1, log);
        match turn
        case Finish(outcome) =>
          return outcome, answer, visits + [v];
        case Again(next) =>
          NextVisit(visits, v, next, answer, |old(responses)|);
          visits := visits + [v];
          current := next;
      }
    }

    /** `send`: unless the caller streams, the returned response has been read, and so closed. */
    method Send(request: Request, follow: bool, stream: bool)
      returns (out: Outcome, ghost answer: AuthStep, ghost visits: seq<Visit>, ghost last: Trace)
      requires AllClosed(responses) && Linked(lists, responses) && Logged()
      modifies this
      ensures Logged() && log == old(log) + [Answered(request, None, answer)] + AllEvents(visits) + last
      ensures AreVisits(visits, request, answer, follow, maxRedirects + 1, |old(responses)|)
      ensures AllAnswer(responses, visits)
      ensures if AuthFailure(visits).Some? then out == Raised(AuthFailure(visits).value) && last == []
              else
                && visits != [] && |responses| > 0
                && if stream || ReadByFlow(visits[|visits| - 1].turn)
                   then out == Returned(|responses| - 1) && last == []
                   else
                     && out == (if |last| == 1 && Fails(last[0]) then Raised(Other) else Returned(|responses| - 1))
                     && (last == [BodyRead(|responses| - 1, true)] || last == [BodyRead(|responses| - 1, false)])
      ensures Linked(lists, responses)
      ensures |old(responses)| <= |responses| && AllCalled(env, request, responses, |old(responses)|)
      ensures out.Raised? ==> AllClosed(responses)
      ensures out.Returned? ==>
                && |old(responses)| <= out.response == |responses| - 1 && OnlyLastOpen(responses)
                && responses[out.response].history < |lists|
                && lists[responses[out.response].history] == HistoryOf(visits)
                && responses[out.response].isClosed == responses[out.response].isRead
                && (!stream ==> responses[out.response].isRead)
      ensures old(sent) <= sent && 2 * (sent - old(sent)) <= RunBound(maxRedirects)
    {
      hide LinkedAt, Linked, Chain, RunBound, AllCalled, Faithful, AreVisits, AllEvents, AuthFailure, AllAnswer;
      hide ReadByFlow;
      OldLists(lists, responses);
      NoChain(lists, responses);
      FreshList(lists, responses, []);
      var list := NewList([]);
      out, answer, visits := HandleAuth(request, follow, list);
      last := [];
      ghost var before, log1 := responses, log;
      if out.Returned? && !stream {
        var ok := Read(out.response);
        last := if before[out.response].isRead then [] else [BodyRead(out.response, !ok)];
        if !ok {
          Close(out.response);
        }
        SameHistories(lists, before, responses, list);
        StillCalled(env, request, before, responses, |old(responses)|);
        MoreAnswer(before, responses, visits);
        if !ok {
          out := Raised(Other);
        }
      }
      assert log == log1 + last;
    }
  }

  lemma LastsGrow(visits: seq<Visit>, v: Visit)
    ensures |Lasts(visits)| == |visits| && |Lasts(visits + [v])| == |visits| + 1
    ensures v.rounds != [] ==> Lasts(visits + [v]) == Lasts(visits) + [v.Last()]
    ensures v.rounds != [] ==> HistoryOf(visits + [v]) == Lasts(visits) + Ids(v.first, v.Last())
    ensures (visits + [v])[|visits|] == v
  {
    assert (visits + [v])[..|visits|] == visits;
  }

  lemma NoLasts()
    ensures Lasts([]) == []
  {
  }

  lemma NoChain(lists: seq<seq<ResponseId>>, responses: seq<Response>)
    ensures Chain(lists, responses, [])
  {
  }

  lemma NoRounds(responses: seq<Response>, request: Request, follow: bool, room: int)
    ensures OpenLeg([], request, follow, room, |responses|) && AskedIn([], request, 0) == request
    ensures Answers(responses, [], |responses|) && Concat<Event>([]) == []
  {
  }

  lemma RoundNonempty(events: Trace, request: Request, follow: bool, response: ResponseId)
    requires IsRound(events, request, follow, response)
    ensures events != []
  {
  }

  lemma AnswersMore(responses: seq<Response>, responses': seq<Response>, rounds: seq<Trace>, events: Trace, first: nat)
    requires Answers(responses, rounds, first) && responses <= responses'
    requires AnswersRound(responses', events, first + |rounds|)
    ensures Answers(responses', rounds + [events], first)
  {
    forall j | 0 <= j < |rounds| + 1
      ensures AnswersRound(responses', (rounds + [events])[j], first + j)
    {
      if j < |rounds| {
        assert AnswersRound(responses, rounds[j], first + j);
      }
    }
  }

  lemma NoAnswers(responses: seq<Response>)
    ensures AllAnswer(responses, [])
  {
  }

  /** The responses there were are there still, but for their states and histories. */
  predicate SameStart(responses: seq<Response>, responses': seq<Response>)
  {
    && |responses| <= |responses'|
    && forall r | 0 <= r < |responses| ::
         responses'[r].request == responses[r].request && responses'[r].redirect == responses[r].redirect
  }

  lemma StillAnswers(responses: seq<Response>, responses': seq<Response>, rounds: seq<Trace>, first: nat)
    requires Answers(responses, rounds, first) && SameStart(responses, responses')
    ensures Answers(responses', rounds, first)
  {
    forall j | 0 <= j < |rounds|
      ensures AnswersRound(responses', rounds[j], first + j)
    {
      assert AnswersRound(responses, rounds[j], first + j);
    }
  }

  lemma MoreAnswer(responses: seq<Response>, responses': seq<Response>, visits: seq<Visit>)
    requires AllAnswer(responses, visits) && SameStart(responses, responses')
    ensures AllAnswer(responses', visits)
  {
    hide Answers;
    forall i | 0 <= i < |visits|
      ensures Answers(responses', visits[i].rounds, visits[i].first)
    {
      StillAnswers(responses, responses', visits[i].rounds, visits[i].first);
    }
  }

  lemma NoTurn()
    ensures Continued([]).None? && AnswerOf([]).None?
  {
  }

  lemma FirstYield(env: Environment, t: nat, origin: Request, request: Request)
    requires env.flow(t, origin, None) == Yield(request)
    ensures Yielded(env, origin, request)
  {
    assert Yields(env, t, origin, None, request);
  }

  lemma FirstVisit(request: Request, answer: AuthStep, first: nat)
    requires answer == Yield(request)
    ensures ComesNext([], Visit(request, first, [], []), answer, first)
  {
  }

  lemma NextVisit(visits: seq<Visit>, v: Visit, request: Request, answer: AuthStep, first: nat)
    requires Continued(v.turn) == Some(request)
    ensures ComesNext(visits + [v], Visit(request, v.first + |v.rounds|, [], []), answer, first)
  {
    hide Continued;
    assert (visits + [v])[|visits|] == v;
  }

  /** A visit more, and what it does to the log. */
  lemma VisitEnds(visits: seq<Visit>, v: Visit, origin: Request, answer: AuthStep, follow: bool, room: int, first: nat,
                  responses: seq<Response>, log0: Trace, log1: Trace, log: Trace)
    requires OpenVisits(visits, origin, answer, follow, room, first)
    requires ComesNext(visits, v.(rounds := [], turn := []), answer, first)
    requires IsLeg(v.rounds, v.request, follow, room - |visits|, v.first)
    requires if LegFailure(v.rounds).Some? then v.turn == []
             else v.rounds != [] && |responses| == v.first + |v.rounds| && IsTurn(v.turn, origin, |responses| - 1)
    requires AllAnswer(responses, visits) && Answers(responses, v.rounds, v.first)
    requires log1 == log0 + AllEvents(visits) && log == log1 + Concat(v.rounds) + v.turn
    ensures log == log0 + AllEvents(visits + [v]) && AllAnswer(responses, visits + [v])
    ensures OpenVisits(visits + [v], origin, answer, follow, room, first)
    ensures Continued(v.turn).None? ==> AreVisits(visits + [v], origin, answer, follow, room, first)
    ensures AuthFailure(visits + [v]) ==
            if LegFailure(v.rounds).Some? then LegFailure(v.rounds)
            else if AnswerOf(v.turn) == Some(Stop) then None
            else Some(Other)
  {
    hide IsLeg, LegFailure, IsTurn, AnswerOf, Continued, OpenVisits, AreVisits, AuthFailure, Answers, Concat, AllEvents;
    assert ComesNext(visits, v, answer, first) && IsVisit(v, origin, follow, room - |visits|);
    hide IsVisit, Succeeds, AllAnswer;
    VisitsGrow(visits, v, origin, answer, follow, room, first);
    VisitDone(visits, v);
    LogGrows(log0, AllEvents(visits), Concat(v.rounds), v.turn);
    AnswerGrows(responses, visits, v);
  }

  lemma LogGrows(log0: Trace, all: Trace, rounds: Trace, turn: Trace)
    ensures log0 + all + rounds + turn == log0 + (all + (rounds + turn))
  {
  }

  lemma AnswerGrows(responses: seq<Response>, visits: seq<Visit>, v: Visit)
    requires AllAnswer(responses, visits) && Answers(responses, v.rounds, v.first)
    ensures AllAnswer(responses, visits + [v])
  {
    hide Answers;
  }

  /** Twice the most single requests one send makes. */
  function RunBound(m: int): nat { if m < 0 then 0 else (m + 1) * (m + 2) }

  /** Twice the most single requests made by the first `k` legs. */
  function LegsBound(m: int, k: nat): (r: int)
    ensures k == 0 ==> r == 0
  {
    k * (2 * m + 3 - k)
  }

  lemma RunBoundAt(m: int, k: nat)
    requires k <= m + 1 || k == 0
    ensures LegsBound(m, k + 1) == LegsBound(m, k) + 2 * (m + 1 - k)
    ensures LegsBound(m, k) + (if k > m then 0 else 2 * (m + 1 - k)) <= RunBound(m)
  {
    OneMoreLeg(k, m + 1 - k);
    if m >= 0 {
      AllLegs(k, m + 1 - k);
      if k <= m {
        AllLegs(k + 1, m - k);
      }
    }
  }

  lemma OneMoreLeg(k: int, j: int)
    ensures (k + 1) * (2 * j + k) == k * (2 * j + k + 1) + 2 * j
  {
  }

  lemma AllLegs(k: nat, j: nat)
    ensures (k + j) * (k + j + 1) == k * (2 * j + k + 1) + j * (j + 1)
    ensures (k + j) * (k + j + 1) >= k * (2 * j + k + 1)
  {
  }

  /** Closing, reading and other flags change no history. */
  lemma SameHistories(lists: seq<seq<ResponseId>>, responses: seq<Response>, responses': seq<Response>, list: ListId)
    requires |responses| == |responses'| && Linked(lists, responses)
    requires forall r | 0 <= r < |responses| :: responses'[r].history == responses[r].history
    ensures Linked(lists, responses')
    ensures Usable(lists, responses, list) ==> Usable(lists, responses', list)
  {
    forall r | 0 <= r < |responses|
      ensures LinkedAt(lists, responses', r)
    {
      assert LinkedAt(lists, responses, r);
    }
  }

  /** A new list changes no history. */
  lemma FreshList(lists: seq<seq<ResponseId>>, responses: seq<Response>, items: seq<ResponseId>)
    requires Linked(lists, responses) && Chain(lists, responses, items)
    ensures Linked(lists + [items], responses) && Usable(lists + [items], responses, |lists|)
  {
    OldLists(lists, responses);
    forall r | 0 <= r < |responses|
      ensures LinkedAt(lists + [items], responses, r)
    {
      assert LinkedAt(lists, responses, r);
      ChainExtends(lists, responses, lists[responses[r].history], lists + [items], responses);
    }
    ChainExtends(lists, responses, items, lists + [items], responses);
  }

  /** Replacing the history of the latest response by a copy of the authentication list. */
  lemma CopyKeeps(lists: seq<seq<ResponseId>>, responses: seq<Response>, list: ListId)
    requires responses != [] && Linked(lists, responses) && Usable(lists, responses, list)
    requires forall i | 0 <= i < |lists[list]| :: lists[list][i] < |responses| - 1
    ensures var r := |responses| - 1;
            var lists' := lists + [lists[list]];
            var responses' := responses[r := responses[r].(history := |lists|)];
            Linked(lists', responses') && Usable(lists', responses', list)
  {
    var last := |responses| - 1;
    var lists' := lists + [lists[list]];
    var responses' := responses[last := responses[last].(history := |lists|)];
    forall r | 0 <= r < |responses|
      ensures LinkedAt(lists', responses', r)
    {
      assert LinkedAt(lists, responses, r);
    }
  }

  /** Appending to the authentication list in place alters no stored history. */
  lemma AppendKeeps(lists: seq<seq<ResponseId>>, responses: seq<Response>, list: ListId)
    requires responses != [] && Linked(lists, responses) && Usable(lists, responses, list)
    requires var r := |responses| - 1; responses[r].history < |lists| && lists[responses[r].history] == lists[list]
    ensures var lists' := lists[list := lists[list] + [|responses| - 1]];
            Linked(lists', responses) && Usable(lists', responses, list)
  {
    var last := |responses| - 1;
    var lists' := lists[list := lists[list] + [last]];
    forall r | 0 <= r < |responses|
      ensures LinkedAt(lists', responses, r)
    {
      assert LinkedAt(lists, responses, r);
    }
    assert LinkedAt(lists, responses, last);
    assert lists'[list][..|lists[list]|] == lists[list];
    assert forall i | 0 <= i < |lists[list]| :: lists'[list][..i] == lists[list][..i];
  }

  /** What one round adds keeps every history a chain. */
  lemma RoundKeeps(lists: seq<seq<ResponseId>>, responses: seq<Response>,
                   lists': seq<seq<ResponseId>>, responses': seq<Response>, list: ListId, history: ListId)
    requires Linked(lists, responses) && Usable(lists, responses, list) && Usable(lists, responses, history)
    requires lists <= lists' && responses <= responses' && |responses'| <= |responses| + 1
    requires |responses'| == |responses| + 1 ==>
               var r := responses'[|responses|];
               |lists| <= r.history < |lists'| && (lists'[r.history] == lists[history] || lists'[r.history] == [])
    ensures Linked(lists', responses') && Usable(lists', responses', list) && Usable(lists', responses', history)
  {
    forall r | 0 <= r < |responses'|
      ensures LinkedAt(lists', responses', r)
    {
      if r < |responses| {
        assert LinkedAt(lists, responses, r);
        ChainExtends(lists, responses, lists[responses[r].history], lists', responses');
      } else {
        ChainExtends(lists, responses, lists[history], lists', responses');
      }
    }
    ChainExtends(lists, responses, lists[list], lists', responses');
    ChainExtends(lists, responses, lists[history], lists', responses');
  }

  lemma LedFurther(responses: seq<Response>, responses': seq<Response>, from: nat, request: Request, current: Request)
    requires from <= |responses| && LedTo(responses, from, request)
    requires responses <= responses' && |responses'| <= |responses| + 1
    requires |responses'| > |responses| ==> responses'[|responses|].request == current
    requires if |responses| == from then current == request
             else responses[|responses| - 1].redirect == RedirectTo(current)
    ensures LedTo(responses', from, request)
  {
    forall k | from <= k < |responses'|
      ensures LedAt(responses', from, request, k)
    {
      if k < |responses| {
        assert LedAt(responses, from, request, k) && responses'[k] == responses[k];
      }
      if k > from {
        assert responses'[k - 1] == responses[k - 1];
      }
    }
  }

  /** A leg for a request the flow yielded. */
  lemma LegCalled(env: Environment, origin: Request, before: seq<Response>, after: seq<Response>,
                  from: nat, request: Request)
    requires from <= |before| && before <= after && AllCalled(env, origin, before, from)
    requires Yielded(env, origin, request) && LedTo(after, |before|, request)
    ensures AllCalled(env, origin, after, from)
  {
    forall k | from <= k < |after|
      ensures Called(env, origin, after, from, k)
    {
      if k < |before| {
        assert Called(env, origin, before, from, k) && after[k] == before[k];
        assert k > from ==> after[k - 1] == before[k - 1];
      } else {
        assert LedAt(after, |before|, request, k);
      }
    }
  }

  lemma NothingCalled(env: Environment, origin: Request, responses: seq<Response>)
    ensures AllCalled(env, origin, responses, |responses|)
  {
  }

  lemma StillCalled(env: Environment, origin: Request, before: seq<Response>, after: seq<Response>, from: nat)
    requires AllCalled(env, origin, before, from) && SameExchanges(before, after)
    ensures AllCalled(env, origin, after, from)
  {
    forall k | from <= k < |after|
      ensures Called(env, origin, after, from, k)
    {
      assert Called(env, origin, before, from, k);
    }
  }

  lemma LegStarts(responses: seq<Response>, items: seq<ResponseId>, request: Request)
    ensures Leg(responses, items, |items|, request) && Asked(responses, items, |items|, request, |items|) == request
    ensures LedTo(responses, |responses|, request)
  {
  }

  lemma LegExtends(responses: seq<Response>, responses': seq<Response>, items: seq<ResponseId>,
                   from: nat, request: Request)
    requires responses <= responses' && Leg(responses, items, from, request) && from <= |items|
    ensures Leg(responses', items, from, request)
    ensures Asked(responses', items, from, request, |items|) == Asked(responses, items, from, request, |items|)
  {
    forall i | from <= i < |items|
      ensures responses'[items[i]].request == Asked(responses', items, from, request, i)
    {
      assert from < i ==> responses[items[i - 1]].redirect.RedirectTo?;
    }
    assert from < |items| ==> responses[items[|items| - 1]].redirect.RedirectTo?;
  }

  lemma ListGrows(responses: seq<Response>, items: seq<ResponseId>, from: nat, request: Request)
    requires responses != [] && from <= |items| && Leg(responses, items, from, request)
    requires var r := responses[|responses| - 1];
             r.redirect.RedirectTo? && r.request == Asked(responses, items, from, request, |items|)
    ensures Leg(responses, items + [|responses| - 1], from, request)
    ensures Asked(responses, items + [|responses| - 1], from, request, |items| + 1)
            == responses[|responses| - 1].redirect.next
  {
    var longer := items + [|responses| - 1];
    forall i | from <= i < |longer|
      ensures responses[longer[i]].request == Asked(responses, longer, from, request, i)
    {
      if i < |items| {
        assert responses[items[i]].request == Asked(responses, items, from, request, i);
      }
    }
  }

  lemma OldLists(lists: seq<seq<ResponseId>>, responses: seq<Response>)
    requires Linked(lists, responses)
    ensures forall r | 0 <= r < |responses| :: responses[r].history < |lists|
  {
    forall r | 0 <= r < |responses|
      ensures responses[r].history < |lists|
    {
      assert LinkedAt(lists, responses, r);
    }
  }

  lemma LongerChain(lists: seq<seq<ResponseId>>, responses: seq<Response>, items: seq<ResponseId>, longer: ListId)
    requires responses != [] && longer < |lists| && Chain(lists, responses, items)
    requires forall r | 0 <= r < |responses| :: responses[r].history != longer
    requires var r := |responses| - 1;
             && responses[r].history < |lists| && lists[responses[r].history] == items
             && lists[longer] == items + [r]
    ensures Usable(lists, responses, longer)
  {
    var r := |responses| - 1;
    forall i | 0 <= i <= |items|
      ensures lists[longer][i] < |responses| && responses[lists[longer][i]].history < |lists|
      ensures lists[responses[lists[longer][i]].history] == lists[longer][..i]
    {
      assert lists[longer][..i] == items[..i];
    }
  }
}
