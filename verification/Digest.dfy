/** Nonce counting of `DigestAuth` in httpxp/_auth.py, over flows that interleave between their yields. */
module Digest {
  import opened Prelude

  /** What `_resolve_qop` makes of a challenge: it names no qop, offers `auth`, or offers nothing usable. */
  datatype Qop = NoQop | Auth | Unusable

  /** What matters in a parsed challenge. */
  datatype Challenge = Challenge(nonce: string, algorithmKnown: bool, qop: Qop)
  {
    /** A header can be built from it. */
    predicate Answerable() { algorithmKnown && !qop.Unusable? }

    /** And that header carries a nonce count. */
    predicate Counted() { algorithmKnown && qop.Auth? }
  }

  /** The response a flow is resumed with: nothing to answer, a malformed challenge, or a challenge. */
  datatype Reply = NoChallenge | Malformed | Challenged(challenge: Challenge)

  datatype Point = AfterFirst | AfterSecond | Ended

  /** One authentication flow: where it stands, and how many requests it has dispatched. */
  datatype Flow = Flow(point: Point, dispatched: nat)

  /** One nonce count sent out in a header: the installation of the challenge it was taken under, and the count. */
  datatype Use = Use(installation: nat, nc: nat)

  /** Uses follow each other in order: counting on under one installation, from 1 under a new one. */
  predicate InOrder(log: seq<Use>)
  {
    && (log != [] ==> log[0].nc == 1)
    && forall k | 0 <= k < |log| - 1 :: Follows(log[k], log[k + 1])
  }

  predicate Follows(a: Use, b: Use)
  {
    || (b.installation == a.installation && b.nc == a.nc + 1)
    || (b.installation > a.installation && b.nc == 1)
  }

  lemma InOrderSnoc(log: seq<Use>, u: Use)
    requires InOrder(log) && if log == [] then u.nc == 1 else Follows(log[|log| - 1], u)
    ensures InOrder(log + [u])
  {
  }

  /** A flow dispatches its first request before it can be challenged, and at most one more. */
  predicate FlowOk(flow: Flow)
  {
    flow.dispatched <= if flow.point.AfterFirst? then 1 else 2
  }

  /** A `DigestAuth` and its flows; `nonces` are those of the challenges installed so far, and `log` holds the
      counts sent out. */
  datatype Account = Account(
    lastChallenge: Option<Challenge>, nonceCount: nat, flows: seq<Flow>, nonces: seq<string>, log: seq<Use>)

  const NEW_ACCOUNT := Account(None, 1, [], [], [])

  /** The count is taken before the qop is looked at, and printed only with one. */
  function Built(a: Account): Account
    requires a.lastChallenge.Some?
  {
    var c := a.lastChallenge.value;
    if !c.algorithmKnown then a
    else a.(nonceCount := a.nonceCount + 1,
            log := if c.Counted() then a.log + [Use(|a.nonces|, a.nonceCount)] else a.log)
  }

  /** A new flow up to its first yield. */
  function Begun(a: Account): Account
  {
    if a.lastChallenge.None? then a.(flows := a.flows + [Flow(AfterFirst, 1)])
    else
      var flow := if a.lastChallenge.value.Answerable() then Flow(AfterFirst, 1) else Flow(Ended, 0);
      Built(a).(flows := a.flows + [flow])
  }

  /** A flow from one yield to the next, given the response to what it dispatched. */
  function Gone(a: Account, f: nat, reply: Reply): Account
    requires f < |a.flows|
  {
    var flow := a.flows[f];
    if !flow.point.AfterFirst? || !reply.Challenged? then a.(flows := a.flows[f := flow.(point := Ended)])
    else
      var c := reply.challenge;
      var next := if c.Answerable() then Flow(AfterSecond, flow.dispatched + 1) else flow.(point := Ended);
      Built(a.(lastChallenge := Some(c), nonceCount := 1, nonces := a.nonces + [c.nonce])).(flows := a.flows[f := next])
  }

  /** A step of a schedule: a flow starts, or one that exists goes on. */
  datatype Step = Begin | Go(flow: nat, reply: Reply)

  function Stepped(a: Account, step: Step): Account
  {
    match step
    case Begin => Begun(a)
    case Go(f, reply) => if f < |a.flows| then Gone(a, f, reply) else a
  }

  /** What any number of flows, interleaved between their yields, leave behind. */
  function Played(schedule: seq<Step>): Account
  {
    if schedule == [] then NEW_ACCOUNT else Stepped(Played(schedule[..|schedule| - 1]), schedule[|schedule| - 1])
  }

  // ----- the object -----

  class DigestAuth {
    var lastChallenge: Option<Challenge>
    var nonceCount: nat
    var flows: seq<Flow>
    ghost var nonces: seq<string>
    ghost var log: seq<Use>

    ghost function State(): Account
      reads this
    {
      Account(lastChallenge, nonceCount, flows, nonces, log)
    }

    constructor ()
      ensures State() == NEW_ACCOUNT
    {
      lastChallenge, nonceCount, flows, nonces, log := None, 1, [], [], [];
    }

    /** `_build_auth_header`; false if it raises. */
    method BuildHeader() returns (ok: bool)
      requires lastChallenge.Some?
      modifies this`nonceCount, this`log
      ensures State() == Built(old(State()))
      ensures ok == lastChallenge.value.Answerable()
    {
      var challenge := lastChallenge.value;
      if !challenge.algorithmKnown {
        return false;
      }
      var count := nonceCount;
      nonceCount := nonceCount + 1;
      match challenge.qop
      case Unusable => return false;
      case NoQop => return true;
      case Auth =>
        log := log + [Use(|nonces|, count)];
        return true;
    }

    method Start()
      modifies this`nonceCount, this`log, this`flows
      ensures State() == Begun(old(State()))
    {
      if lastChallenge.Some? {
        var ok := BuildHeader();
        if !ok {
          flows := flows + [Flow(Ended, 0)];
          return;
        }
      }
      flows := flows + [Flow(AfterFirst, 1)];
    }

    method Resume(f: nat, reply: Reply)
      requires f < |flows|
      modifies this
      ensures State() == Gone(old(State()), f, reply)
    {
      var flow := flows[f];
      var next := flow.(point := Ended);
      if flow.point.AfterFirst? && reply.Challenged? {
        lastChallenge := Some(reply.challenge);
        nonceCount := 1;
        nonces := nonces + [reply.challenge.nonce];
        var ok := BuildHeader();
        if ok {
          next := Flow(AfterSecond, flow.dispatched + 1);
        }
      }
      flows := flows[f := next];
    }
  }

  /** The object does what the account says, whatever the schedule. */
  method Interleave(schedule: seq<Step>) returns (auth: DigestAuth)
    ensures auth.State() == Played(schedule)
  {
    auth := new DigestAuth();
    assert schedule[..0] == [];
    for i := 0 to |schedule|
      invariant fresh(auth) && auth.State() == Played(schedule[..i])
    {
      assert schedule[..i + 1][..i] == schedule[..i];
      match schedule[i]
      case Begin => auth.Start();
      case Go(f, reply) =>
        if f < |auth.flows| {
          auth.Resume(f, reply);
        }
    }
    assert schedule[..|schedule|] == schedule;
  }

  // ----- every schedule -----

  predicate AccountOk(a: Account)
  {
    && a.nonceCount >= 1
    && (a.lastChallenge.None? <==> a.nonces == [])
    && (a.lastChallenge.Some? ==> a.nonces[|a.nonces| - 1] == a.lastChallenge.value.nonce)
    && InOrder(a.log)
    && (forall k | 0 <= k < |a.log| :: 1 <= a.log[k].installation <= |a.nonces|)
    && (a.lastChallenge.Some? && a.lastChallenge.value.Counted() ==> a.nonceCount == NextCount(a))
    && (forall f | 0 <= f < |a.flows| :: FlowOk(a.flows[f]))
  }

  /** One more than the last count sent under the installed challenge, or 1. */
  function NextCount(a: Account): nat
  {
    if a.log != [] && a.log[|a.log| - 1].installation == |a.nonces| then a.log[|a.log| - 1].nc + 1 else 1
  }

  lemma BuiltOk(a: Account)
    requires a.lastChallenge.Some? && AccountOk(a)
    ensures AccountOk(Built(a))
  {
    if a.lastChallenge.value.Counted() {
      InOrderSnoc(a.log, Use(|a.nonces|, a.nonceCount));
    }
    hide InOrder;
  }

  lemma InstalledOk(a: Account, c: Challenge)
    requires AccountOk(a)
    ensures AccountOk(a.(lastChallenge := Some(c), nonceCount := 1, nonces := a.nonces + [c.nonce]))
  {
    hide InOrder;
  }

  lemma FlowsOk(a: Account, flows: seq<Flow>)
    requires AccountOk(a) && forall f | 0 <= f < |flows| :: FlowOk(flows[f])
    ensures AccountOk(a.(flows := flows))
  {
    hide InOrder;
  }

  lemma SteppedOk(a: Account, step: Step)
    requires AccountOk(a)
    ensures AccountOk(Stepped(a, step))
  {
    assert forall f | 0 <= f < |a.flows| :: FlowOk(a.flows[f]);
    hide Built, AccountOk;
    match step
    case Begin =>
      if a.lastChallenge.Some? {
        BuiltOk(a);
        FlowsOk(Built(a), Begun(a).flows);
      } else {
        FlowsOk(a, Begun(a).flows);
      }
    case Go(f, reply) =>
      if f < |a.flows| {
        if a.flows[f].point.AfterFirst? && reply.Challenged? {
          var c := reply.challenge;
          InstalledOk(a, c);
          var b := a.(lastChallenge := Some(c), nonceCount := 1, nonces := a.nonces + [c.nonce]);
          BuiltOk(b);
          FlowsOk(Built(b), Gone(a, f, reply).flows);
        } else {
          FlowsOk(a, Gone(a, f, reply).flows);
        }
      }
  }

  /** However any number of flows interleave, the counts are sent out in order, under installations that exist, and
      no flow dispatches more than two requests. */
  lemma {:induction false} PlayedOk(schedule: seq<Step>)
    ensures var a := Played(schedule);
            && InOrder(a.log) && (forall k | 0 <= k < |a.log| :: 1 <= a.log[k].installation <= |a.nonces|)
            && (forall f | 0 <= f < |a.flows| :: a.flows[f].dispatched <= 2)
    ensures AccountOk(Played(schedule))
  {
    if schedule != [] {
      var front := schedule[..|schedule| - 1];
      PlayedOk(front);
      SteppedOk(Played(front), schedule[|schedule| - 1]);
    }
    assert forall f | 0 <= f < |Played(schedule).flows| :: FlowOk(Played(schedule).flows[f]);
  }

  /** A server that repeats its challenge: a flow is challenged, a second one starts with the installed challenge
      and is challenged again. The first count goes out twice under the one nonce. */
  function Repeating(c: Challenge): seq<Step>
  {
    [Begin, Go(0, Challenged(c)), Begin, Go(1, Challenged(c))]
  }

  lemma RepeatedCount(c: Challenge)
    requires c.Counted()
    ensures var a := Played(Repeating(c));
            && a.log == [Use(1, 1), Use(1, 2), Use(2, 1)] && a.nonces == [c.nonce, c.nonce]
            && Repeats(a.nonces, a.log, 0, 2)
  {
    var s := Repeating(c);
    assert s[..3] == [s[0], s[1], s[2]] && s[..3][..2] == [s[0], s[1]] && s[..3][..2][..1] == [s[0]];
    var a1 := NEW_ACCOUNT.(flows := [Flow(AfterFirst, 1)]);
    var a2 := Account(Some(c), 2, [Flow(AfterSecond, 2)], [c.nonce], [Use(1, 1)]);
    var a3 := a2.(nonceCount := 3, flows := [Flow(AfterSecond, 2), Flow(AfterFirst, 1)], log := [Use(1, 1), Use(1, 2)]);
    assert Played([s[0]]) == Stepped(Played([]), s[0]) == a1;
    assert Played([s[0], s[1]]) == Stepped(a1, s[1]) == a2 by {
      assert [s[0], s[1]][..1] == [s[0]];
    }
    assert Played(s[..3]) == Stepped(a2, s[2]) == a3;
    assert Played(s) == Stepped(a3, s[3]);
  }

  // ----- what the order means -----

  /** Later uses come after earlier ones: a later installation, or a higher count under the same one. */
  lemma {:induction false} UsesIncrease(log: seq<Use>, i: nat, j: nat)
    requires InOrder(log) && i < j < |log|
    ensures log[i].installation < log[j].installation
            || (log[i].installation == log[j].installation && log[i].nc < log[j].nc)
    decreases j
  {
    assert Follows(log[j - 1], log[j]);
    if i < j - 1 {
      UsesIncrease(log, i, j - 1);
    }
  }

  /** Under one installation the counts run from 1 without gaps. */
  lemma {:induction false} CountsFromOne(log: seq<Use>, j: nat, n: nat)
    requires InOrder(log) && j < |log| && 1 <= n <= log[j].nc
    ensures exists i :: 0 <= i <= j && log[i] == Use(log[j].installation, n)
    decreases j
  {
    if n < log[j].nc {
      assert Follows(log[j - 1], log[j]);
      CountsFromOne(log, j - 1, n);
    } else {
      assert log[j] == Use(log[j].installation, n);
    }
  }

  /** No (installation, count) pair is sent out twice. */
  lemma UsesDistinct(log: seq<Use>, i: nat, j: nat)
    requires InOrder(log) && i < j < |log|
    ensures log[i] != log[j]
  {
    UsesIncrease(log, i, j);
  }

  /** The nonce a use was made under. */
  function NonceOf(nonces: seq<string>, u: Use): string
    requires 1 <= u.installation <= |nonces|
  {
    nonces[u.installation - 1]
  }

  predicate Repeats(nonces: seq<string>, log: seq<Use>, i: nat, j: nat)
    requires forall k | 0 <= k < |log| :: 1 <= log[k].installation <= |nonces|
  {
    i < j < |log| && NonceOf(nonces, log[i]) == NonceOf(nonces, log[j]) && log[i].nc == log[j].nc
  }

  /** Section 3.4 of RFC 7616 counts requests per nonce. The count restarts with every installation, so a
      (nonce, count) pair is sent out again exactly when two installations that counts were sent out under share
      their nonce. */
  lemma NonceCountRepeats(nonces: seq<string>, log: seq<Use>)
    requires InOrder(log)
    requires forall k | 0 <= k < |log| :: 1 <= log[k].installation <= |nonces|
    ensures (exists i, j :: Repeats(nonces, log, i, j)) <==>
            exists i, j :: 0 <= i < j < |log| && log[i].installation != log[j].installation
                           && NonceOf(nonces, log[i]) == NonceOf(nonces, log[j])
  {
    if i: nat, j: nat :| Repeats(nonces, log, i, j) {
      UsesIncrease(log, i, j);
      assert 0 <= i < j < |log| && log[i].installation != log[j].installation;
    }
    if i, j :| 0 <= i < j < |log| && log[i].installation != log[j].installation
               && NonceOf(nonces, log[i]) == NonceOf(nonces, log[j]) {
      CountPositive(log, i);
      CountPositive(log, j);
      CountsFromOne(log, i, 1);
      CountsFromOne(log, j, 1);
      var a :| 0 <= a <= i && log[a] == Use(log[i].installation, 1);
      var b :| 0 <= b <= j && log[b] == Use(log[j].installation, 1);
      UsesIncrease(log, i, j);
      if b < a {
        UsesIncrease(log, b, a);
      }
      assert Repeats(nonces, log, a, b);
    }
  }

  lemma CountPositive(log: seq<Use>, j: nat)
    requires InOrder(log) && j < |log|
    ensures log[j].nc >= 1
  {
    if j > 0 {
      assert Follows(log[j - 1], log[j]);
    }
  }

  // ----- the printed count -----

  function HexChar(d: int): char
    requires 0 <= d < 16
  {
    if d < 10 then ('0' as int + d) as char else ('a' as int + d - 10) as char
  }

  function HexDigitValue(c: char): int { if c <= '9' then c as int - '0' as int else c as int - 'a' as int + 10 }

  function HexText(n: nat): string
  {
    (if n < 16 then "" else HexText(n / 16)) + [HexChar(n % 16)]
  }

  function Zeros(n: nat): (s: string)
    ensures |s| == n
  {
    seq(n, _ => '0')
  }

  /** `b"%08x" % n` */
  function NcText(n: nat): string
  {
    var s := HexText(n);
    if |s| < 8 then Zeros(8 - |s|) + s else s
  }

  function TextValue(s: string): int
  {
    if s == "" then 0 else 16 * TextValue(s[..|s| - 1]) + HexDigitValue(s[|s| - 1])
  }

  function Power16(k: nat): nat { if k == 0 then 1 else 16 * Power16(k - 1) }

  lemma HexCharValue(d: int)
    requires 0 <= d < 16
    ensures HexDigitValue(HexChar(d)) == d
  {
  }

  lemma TextValueSnoc(s: string, c: char)
    ensures TextValue(s + [c]) == 16 * TextValue(s) + HexDigitValue(c)
    ensures TextValue("") == 0
  {
    assert (s + [c])[..|s|] == s;
  }

  lemma {:induction false} HexTextValue(n: nat)
    ensures TextValue(HexText(n)) == n && HexText(n) != ""
  {
    var high := if n < 16 then "" else HexText(n / 16);
    HexCharValue(n % 16);
    hide HexChar, HexDigitValue;
    if n >= 16 {
      HexTextValue(n / 16);
    }
    TextValueSnoc(high, HexChar(n % 16));
  }

  lemma {:induction false} HexTextLength(n: nat, k: nat)
    requires k >= 1
    ensures |HexText(n)| <= k <==> n < Power16(k)
    decreases n, k
  {
    assert Power16(k) == 16 * Power16(k - 1) && Power16(0) == 1;
    Power16Grows(k);
    if n >= 16 {
      assert |HexText(n)| == |HexText(n / 16)| + 1;
      if k > 1 {
        HexTextLength(n / 16, k - 1);
        SixteenTimes(n, Power16(k - 1));
      } else {
        HexTextValue(n / 16);
      }
    }
  }

  lemma SixteenTimes(n: nat, p: nat)
    ensures n / 16 < p <==> n < 16 * p
  {
  }

  lemma {:induction false} Power16Grows(k: nat)
    requires k >= 1
    ensures Power16(k) >= 16
  {
    if k > 1 {
      Power16Grows(k - 1);
    }
  }

  lemma {:induction false} PaddedValue(z: nat, s: string)
    requires s != ""
    ensures TextValue(Zeros(z) + s) == TextValue(s)
    decreases |s| + z
  {
    var t := Zeros(z) + s;
    if |s| > 1 {
      PaddedValue(z, s[..|s| - 1]);
      assert t[..|t| - 1] == Zeros(z) + s[..|s| - 1];
    } else {
      assert t[..|t| - 1] == Zeros(z) && s[..0] == "";
      ZerosValue(z);
      assert TextValue("") == 0;
    }
  }

  lemma {:induction false} ZerosValue(z: nat)
    ensures TextValue(Zeros(z)) == 0
  {
    if z > 0 {
      ZerosValue(z - 1);
      assert Zeros(z)[..z - 1] == Zeros(z - 1);
    }
  }

  lemma EightDigits()
    ensures Power16(8) == 0x1_0000_0000
  {
    assert Power16(2) == 256 && Power16(4) == 65536;
  }

  /** The count is printed as eight digits exactly while it is below 2^32, and can be read back. */
  lemma NcTextShape(n: nat)
    ensures |NcText(n)| == 8 <==> n < 0x1_0000_0000
    ensures TextValue(NcText(n)) == n
  {
    hide Power16, TextValue, HexText;
    HexTextValue(n);
    HexTextLength(n, 8);
    EightDigits();
    var s := HexText(n);
    if |s| < 8 {
      PaddedValue(8 - |s|, s);
    }
  }
}
