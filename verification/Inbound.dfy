/** Message PDUs from the wire: admission, dispatch, the response and its counter. */
module Inbound {
  import opened Text
  import opened RateLimiting

  type Status = nat
  const ESME_ROK: Status := 0x00
  const ESME_RSYSERR: Status := 0x08
  const ESME_RCANCELFAIL: Status := 0x11
  const ESME_RREPLACEFAIL: Status := 0x13
  const ESME_RTHROTTLED: Status := 0x58
  const ESME_RQUERYFAIL: Status := 0x67

  /** The inbound requests; `DeliverSm` and `BindDataSm` arrive on our outbound binds. */
  datatype Command =
    | SubmitSm | DataSm | CancelSm | QuerySm | ReplaceSm | SubmitSmMulti | DeliverSm | BindDataSm

  /** Only message PDUs from an ESME are rate limited. */
  predicate Gated(c: Command) {
    c.SubmitSm? || c.DataSm? || c.SubmitSmMulti?
  }

  /** What the script's handler came to. */
  datatype Handled = NoHandler | Raised | Replied(status: Status, messageId: Option<string>)

  datatype Response = Response(status: Status, messageId: Option<string>)

  datatype Label = Accepted | Rejected

  /** The status answered for a failed handler, and for a missing one on the opt-in paths. */
  function FailureStatus(c: Command): (s: Status)
    ensures s == 0x11 <==> c.CancelSm?
    ensures s == 0x67 <==> c.QuerySm?
    ensures s == 0x13 <==> c.ReplaceSm?
    ensures s == 0x08 <==> c.SubmitSm? || c.DataSm? || c.SubmitSmMulti? || c.DeliverSm? || c.BindDataSm?
  {
    match c
    case CancelSm => ESME_RCANCELFAIL
    case QuerySm => ESME_RQUERYFAIL
    case ReplaceSm => ESME_RREPLACEFAIL
    case _ => ESME_RSYSERR
  }

  /** An accepting response. The message id is mandatory where the command has one. */
  function Accept(c: Command, messageId: Option<string>): Response {
    if c.CancelSm? || c.ReplaceSm? || c.DeliverSm? then Response(ESME_ROK, None)
    else Response(ESME_ROK, Some(if messageId.Some? then messageId.value else ""))
  }

  /** The reply's status alone decides; a message id beside a reject status is dropped. */
  function FromReply(c: Command, status: Status, messageId: Option<string>): Response {
    if status == ESME_ROK then Accept(c, messageId) else Response(status, None)
  }

  /** The response a handler's outcome leads to. Without a handler `submit_sm` and
      `deliver_sm` are accepted, everything else is refused. */
  function Verdict(c: Command, h: Handled): Response {
    match h
    case Replied(status, id) => FromReply(c, status, id)
    case Raised => Response(FailureStatus(c), None)
    case NoHandler =>
      if c.SubmitSm? || c.DeliverSm? then FromReply(c, ESME_ROK, None) else Response(FailureStatus(c), None)
  }

  /** The counter label. Some paths look at the response they built, the others at the status
      the handler replied. */
  function LabelOf(c: Command, h: Handled, resp: Response): Label {
    if c.SubmitSm? || c.DataSm? || c.BindDataSm? then
      if (h.NoHandler? && !c.SubmitSm?) || h.Raised? then Rejected
      else if resp.status == ESME_ROK then Accepted else Rejected
    else match h
      case NoHandler => if c.DeliverSm? then Accepted else Rejected
      case Raised => Rejected
      case Replied(status, _) => if status == ESME_ROK then Accepted else Rejected
  }

  // ---- The listener -------------------------------------------------------------------

  datatype Action = Pace | Reject

  /** A PDU. `serial` tells equal ones apart; `handled` is what its handler would come to. */
  datatype Pdu = Pdu(serial: nat, session: string, command: Command, handled: Handled)

  /** The limiter is asked for a token for `pdu`; where there is none to ask, the PDU is just
      let through. A pacing PDU asks again and again until it gets a token. Some time after a
      PDU was let through its handler starts, and its answer goes out. */
  datatype Event = Ask(pdu: Pdu, now: real) | Serve(pdu: Pdu, now: real)

  /** A PDU that was let through, and when. */
  datatype Passage = Passage(pdu: Pdu, token: real)

  /** A handler call, and when it started. */
  datatype Dispatch = Dispatch(pdu: Pdu, start: real)

  /** Limiters by session, and what happened, in order: the PDUs let through, the handler
      calls, the PDUs answered and their responses. `denied` are the PDUs some ask of which
      found no token; `throttled` is the throttle counter. */
  datatype State = State(
    limiters: map<string, Bucket>, passed: seq<Passage>, dispatched: seq<Dispatch>,
    answered: seq<Pdu>, responses: seq<Response>,
    denied: set<Pdu>, accepted: nat, rejected: nat, throttled: nat)

  predicate Limited(s: State, p: Pdu) {
    Gated(p.command) && p.session in s.limiters
  }

  /** The limiter has no token for this ask. */
  predicate Denied(s: State, p: Pdu, now: real) {
    Limited(s, p) && !Admits(s.limiters[p.session], now)
  }

  ghost predicate HasPassed(s: State, p: Pdu) {
    exists x :: x in s.passed && x.pdu == p
  }

  /** Nobody asks for a PDU that was let through or answered, and the clock is read under the
      limiter's mutex. A handler starts once, no earlier than its PDU was let through. */
  ghost predicate Enabled(s: State, e: Event) {
    match e
    case Ask(p, now) => p !in s.answered && !HasPassed(s, p) && (Limited(s, p) ==> s.limiters[p.session].last <= now)
    case Serve(p, now) => p !in s.answered && exists x :: x in s.passed && x.pdu == p && x.token <= now
  }

  /** The limiter's own part of an ask. */
  ghost function AskLimiter(s: State, p: Pdu, now: real): State {
    if Limited(s, p) then s.(limiters := s.limiters[p.session := Call(s.limiters[p.session], now)]) else s
  }

  /** A PDU that leaves: one response and one increment. */
  ghost function Answer(s: State, p: Pdu, resp: Response, counted: Label): State {
    var next := s.(answered := s.answered + [p], responses := s.responses + [resp]);
    if counted.Accepted? then next.(accepted := s.accepted + 1) else next.(rejected := s.rejected + 1)
  }

  ghost function Step(action: Action, s: State, e: Event): State {
    match e
    case Ask(p, now) =>
      var asked := AskLimiter(s, p, now);
      if !Denied(s, p, now) then
        asked.(passed := s.passed + [Passage(p, now)], throttled := s.throttled + if p in s.denied then 1 else 0)
      else
        var denied := asked.(denied := s.denied + {p});
        if action.Pace? then denied
        else Answer(denied.(throttled := s.throttled + 1), p, Response(ESME_RTHROTTLED, None), Rejected)
    case Serve(p, now) =>
      var resp := Verdict(p.command, p.handled);
      Answer(s.(dispatched := s.dispatched + [Dispatch(p, now)]), p, resp, LabelOf(p.command, p.handled, resp))
  }

  /** What one ask comes to. */
  datatype Admission = Proceed | MustWait | Throttled

  /** The listener as an object. */
  class Listener {
    const action: Action
    var limiters: map<string, Bucket>
    var passed: seq<Passage>
    var dispatched: seq<Dispatch>
    var answered: seq<Pdu>
    var responses: seq<Response>
    var denied: set<Pdu>
    var accepted: nat
    var rejected: nat
    var throttled: nat

    ghost function Value(): State
      reads this
    {
      State(limiters, passed, dispatched, answered, responses, denied, accepted, rejected, throttled)
    }

    constructor (action: Action, limiters: map<string, Bucket>)
      ensures this.action == action && Value() == QUIET.(limiters := limiters)
    {
      this.action, this.limiters := action, limiters;
      passed, dispatched, answered, responses, denied := [], [], [], [], {};
      accepted, rejected, throttled := 0, 0, 0;
    }

    /** `admit_inbound`, one critical section of the limiter at a time. Without a limiter a PDU
        proceeds; a token lets it proceed; without one it waits or is throttled. A wait counts
        as a throttle event once, when it is over. */
    method Admit(p: Pdu, now: real) returns (r: Admission)
      modifies this`limiters, this`passed, this`denied, this`throttled
      ensures r == if !Denied(old(Value()), p, now) then Proceed else if action.Pace? then MustWait else Throttled
      ensures !r.Proceed? <==>
        p.session in old(limiters) && Mine(p, p.session) && Refilled(old(limiters)[p.session], now).tokens < 1.0
      ensures limiters == AskLimiter(old(Value()), p, now).limiters
      ensures passed == old(passed) + if r.Proceed? then [Passage(p, now)] else []
      ensures denied == old(denied) + if r.Proceed? then {} else {p}
      ensures throttled - old(throttled) == if r.Throttled? || (r.Proceed? && p in old(denied)) then 1 else 0
    {
      r := Proceed;
      if Gated(p.command) && p.session in limiters {
        if !Admits(limiters[p.session], now) {
          r := if action.Pace? then MustWait else Throttled;
        }
        limiters := limiters[p.session := Call(limiters[p.session], now)];
      }
      if r.Throttled? || (r.Proceed? && p in denied) {
        throttled := throttled + 1;
      }
      if r.Proceed? {
        passed := passed + [Passage(p, now)];
      } else {
        denied := denied + {p};
      }
    }

    /** Every `on_*` hook up to its handler: a throttled PDU is answered here. */
    method Arrive(p: Pdu, now: real) returns (resp: Option<Response>)
      modifies this
      ensures Value() == Step(action, old(Value()), Ask(p, now))
      ensures responses == old(responses) + if resp.Some? then [resp.value] else []
    {
      var admission := Admit(p, now);
      resp := None;
      if admission.Throttled? {
        resp := Some(Response(ESME_RTHROTTLED, None));
        rejected := rejected + 1;
        answered, responses := answered + [p], responses + [resp.value];
      }
    }

    /** Every `on_*` hook from its handler on: dispatch, answer, count. */
    method Handle(p: Pdu, now: real) returns (resp: Response)
      modifies this
      ensures Value() == Step(action, old(Value()), Serve(p, now))
      ensures responses == old(responses) + [resp]
    {
      dispatched := dispatched + [Dispatch(p, now)];
      resp := Verdict(p.command, p.handled);
      if LabelOf(p.command, p.handled, resp).Accepted? {
        accepted := accepted + 1;
      } else {
        rejected := rejected + 1;
      }
      answered, responses := answered + [p], responses + [resp];
    }
  }

  // ---- Whole runs ---------------------------------------------------------------------

  const QUIET := State(map[], [], [], [], [], {}, 0, 0, 0)

  ghost function Run(action: Action, s: State, es: seq<Event>): State {
    if es == [] then s else Step(action, Run(action, s, es[..|es| - 1]), es[|es| - 1])
  }

  ghost predicate IsRun(action: Action, s: State, es: seq<Event>) {
    es == [] || (IsRun(action, s, es[..|es| - 1]) && Enabled(Run(action, s, es[..|es| - 1]), es[|es| - 1]))
  }

  ghost function CountOk(rs: seq<Response>): nat {
    if rs == [] then 0 else CountOk(rs[..|rs| - 1]) + if rs[|rs| - 1].status == ESME_ROK then 1 else 0
  }

  /** The label says accepted exactly when the wire does; an accepting response always comes
      from an accepting reply or the soft default; a reply's status reaches the wire as it is,
      and its message id only beside ESME_ROK. */
  lemma {:induction false} LabelMatchesWire(c: Command, h: Handled)
    ensures LabelOf(c, h, Verdict(c, h)).Accepted? <==> Verdict(c, h).status == 0
    ensures Verdict(c, h).status == 0 <==>
      (h.Replied? && h.status == 0) || (h.NoHandler? && (c.SubmitSm? || c.DeliverSm?))
    ensures h.Replied? ==> Verdict(c, h).status == h.status
    ensures h.Raised? || (h.NoHandler? && !c.SubmitSm? && !c.DeliverSm?) ==> Verdict(c, h).status == FailureStatus(c)
    ensures Verdict(c, h).messageId.Some? <==>
      Verdict(c, h).status == 0 && !c.CancelSm? && !c.ReplaceSm? && !c.DeliverSm?
    ensures Verdict(c, h).messageId.Some? ==>
      Verdict(c, h).messageId.value == if h.Replied? && h.messageId.Some? then h.messageId.value else ""
  {
    hide FailureStatus;
  }

  // ---- What becomes of each PDU -------------------------------------------------------

  /** Rejecting refuses exactly the PDUs that found no token; pacing refuses none. */
  ghost function Refused(action: Action, s: State): set<Pdu> {
    if action.Reject? then s.denied else {}
  }

  /** The one response a PDU can get. */
  ghost function Deserved(refused: set<Pdu>, p: Pdu): Response {
    if p in refused then Response(ESME_RTHROTTLED, None) else Verdict(p.command, p.handled)
  }

  /** Those that were not refused, in order. */
  ghost function Without(ps: seq<Pdu>, refused: set<Pdu>): seq<Pdu> {
    if ps == [] then []
    else Without(ps[..|ps| - 1], refused) + if ps[|ps| - 1] in refused then [] else [ps[|ps| - 1]]
  }

  ghost function Called(ds: seq<Dispatch>): seq<Pdu> {
    seq(|ds|, i requires 0 <= i < |ds| => ds[i].pdu)
  }

  ghost function Through(xs: seq<Passage>): seq<Pdu> {
    seq(|xs|, i requires 0 <= i < |xs| => xs[i].pdu)
  }

  ghost predicate Distinct(ps: seq<Pdu>) {
    forall i, j :: 0 <= i < j < |ps| ==> ps[i] != ps[j]
  }

  ghost function CountIn(ps: seq<Pdu>, marked: set<Pdu>): nat {
    if ps == [] then 0 else CountIn(ps[..|ps| - 1], marked) + if ps[|ps| - 1] in marked then 1 else 0
  }

  ghost predicate PassedBy(s: State, p: Pdu, now: real) {
    exists x :: x in s.passed && x.pdu == p && x.token <= now
  }

  /** Each PDU is let through at most once and answered at most once, and gets the response it
      deserves: the throttle status if and only if it was refused, else what its own handler
      came to. */
  ghost predicate AnsweredFairly(action: Action, s: State) {
    && Distinct(s.answered) && Distinct(Through(s.passed)) && |s.responses| == |s.answered|
    && forall i :: 0 <= i < |s.answered| ==> s.responses[i] == Deserved(Refused(action, s), s.answered[i])
  }

  /** The handler calls are those of the answered PDUs that were not refused, one each and in
      that order, none before its PDU was let through; and a refused PDU is answered and never
      let through. */
  ghost predicate DispatchedFairly(action: Action, s: State) {
    && Called(s.dispatched) == Without(s.answered, Refused(action, s))
    && (forall d :: d in s.dispatched ==> PassedBy(s, d.pdu, d.start))
    && (forall x :: x in s.passed ==> x.pdu !in Refused(action, s))
    && (forall p :: p in Refused(action, s) ==> p in s.answered)
  }

  /** Every answer is one increment, on the accepted side exactly when the wire says ESME_ROK;
      the throttle counter counts each PDU that was denied a token once, when it is refused or
      at last let through. */
  ghost predicate Counted(action: Action, s: State) {
    && s.accepted + s.rejected == |s.responses| && s.accepted == CountOk(s.responses)
    && s.throttled == CountIn(if action.Reject? then s.answered else Through(s.passed), s.denied)
  }

  ghost predicate Consistent(action: Action, s: State) {
    AnsweredFairly(action, s) && DispatchedFairly(action, s) && Counted(action, s)
  }

  lemma {:induction false} WithoutIgnores(ps: seq<Pdu>, refused: set<Pdu>, p: Pdu)
    requires p !in ps
    ensures Without(ps, refused + {p}) == Without(ps, refused)
    ensures CountIn(ps, refused + {p}) == CountIn(ps, refused)
  {
    if ps != [] { WithoutIgnores(ps[..|ps| - 1], refused, p); }
  }

  lemma {:induction false} OneMore(ps: seq<Pdu>, p: Pdu, marked: set<Pdu>)
    ensures Without(ps + [p], marked) == Without(ps, marked) + if p in marked then [] else [p]
    ensures CountIn(ps + [p], marked) == CountIn(ps, marked) + if p in marked then 1 else 0
    ensures Distinct(ps) && p !in ps ==> Distinct(ps + [p])
  {
    assert (ps + [p])[..|ps|] == ps;
  }

  lemma {:induction false} OneMoreResponse(rs: seq<Response>, r: Response)
    ensures CountOk(rs + [r]) == CountOk(rs) + if r.status == ESME_ROK then 1 else 0
  {
    assert (rs + [r])[..|rs|] == rs;
  }

  lemma {:induction false} OneMoreCalled(ds: seq<Dispatch>, d: Dispatch)
    ensures Called(ds + [d]) == Called(ds) + [d.pdu]
  {
  }

  lemma {:induction false} OneMoreThrough(xs: seq<Passage>, x: Passage)
    ensures Through(xs + [x]) == Through(xs) + [x.pdu]
  {
  }

  lemma {:induction false} NotThrough(s: State, p: Pdu)
    requires !HasPassed(s, p)
    ensures p !in Through(s.passed)
  {
    assert forall i :: 0 <= i < |s.passed| ==> s.passed[i] in s.passed;
  }

  lemma {:induction false} PassedByKept(s: State, t: State, p: Pdu, now: real)
    requires PassedBy(s, p, now) && s.passed <= t.passed
    ensures PassedBy(t, p, now)
  {
    var x :| x in s.passed && x.pdu == p && x.token <= now;
    assert x in t.passed;
  }

  /** An ask that finds a token, or needs none. */
  lemma {:induction false} PassKeeps(action: Action, s: State, p: Pdu, now: real)
    requires Consistent(action, s) && Enabled(s, Ask(p, now)) && !Denied(s, p, now)
    ensures Consistent(action, Step(action, s, Ask(p, now)))
  {
    hide Denied, Limited, Call, Admits, CountOk, CountIn, Without, Called, Through, Distinct, Deserved, PassedBy;
    var t := Step(action, s, Ask(p, now));
    NotThrough(s, p);
    OneMoreThrough(s.passed, Passage(p, now));
    OneMore(Through(s.passed), p, s.denied);
    forall d | d in t.dispatched ensures PassedBy(t, d.pdu, d.start) { PassedByKept(s, t, d.pdu, d.start); }
  }

  /** An ask that finds none. */
  lemma {:induction false} DenialKeeps(action: Action, s: State, p: Pdu, now: real)
    requires Consistent(action, s) && Enabled(s, Ask(p, now)) && Denied(s, p, now)
    ensures Consistent(action, Step(action, s, Ask(p, now)))
  {
    hide Denied, Limited, Call, Admits, CountOk, CountIn, Without, Called, Through, Distinct, Verdict, PassedBy;
    var t := Step(action, s, Ask(p, now));
    NotThrough(s, p);
    WithoutIgnores(s.answered, s.denied, p);
    WithoutIgnores(Through(s.passed), s.denied, p);
    OneMore(s.answered, p, s.denied + {p});
    OneMoreResponse(s.responses, Response(ESME_RTHROTTLED, None));
    forall d | d in t.dispatched ensures PassedBy(t, d.pdu, d.start) { PassedByKept(s, t, d.pdu, d.start); }
  }

  /** A handler call and its answer. */
  lemma {:induction false} ServeKeeps(action: Action, s: State, p: Pdu, now: real)
    requires Consistent(action, s) && Enabled(s, Serve(p, now))
    ensures Consistent(action, Step(action, s, Serve(p, now)))
  {
    hide Denied, Limited, Call, Admits, CountOk, CountIn, Without, Called, Through, Distinct, Verdict, LabelOf, PassedBy;
    var t := Step(action, s, Serve(p, now));
    LabelMatchesWire(p.command, p.handled);
    OneMore(s.answered, p, s.denied);
    OneMore(s.answered, p, {});
    OneMoreResponse(s.responses, Verdict(p.command, p.handled));
    OneMoreCalled(s.dispatched, Dispatch(p, now));
    assert PassedBy(s, p, now) by { ServedWasPassed(s, p, now); }
    forall d | d in t.dispatched ensures PassedBy(t, d.pdu, d.start) { PassedByKept(s, t, d.pdu, d.start); }
  }

  lemma {:induction false} ServedWasPassed(s: State, p: Pdu, now: real)
    requires Enabled(s, Serve(p, now))
    ensures PassedBy(s, p, now)
  {
  }

  lemma {:induction false} StepCounts(action: Action, s: State, e: Event)
    requires Consistent(action, s) && Enabled(s, e)
    ensures Consistent(action, Step(action, s, e))
  {
    hide Consistent, Step, Enabled;
    match e
    case Ask(p, now) => if Denied(s, p, now) { DenialKeeps(action, s, p, now); } else { PassKeeps(action, s, p, now); }
    case Serve(p, now) => ServeKeeps(action, s, p, now);
  }

  lemma {:induction false} QuietIsConsistent(action: Action, limiters: map<string, Bucket>)
    ensures Consistent(action, QUIET.(limiters := limiters))
  {
  }

  /** Over every run, whatever sessions do and however often pacing PDUs had to ask: responses,
      handler calls and counters are as they should be for every PDU, and none is lost: one
      that asked was answered, was let through to its handler, or waits under pacing because
      it was denied. */
  lemma {:induction false} CountersMatchTheWire(action: Action, limiters: map<string, Bucket>, es: seq<Event>)
    requires IsRun(action, QUIET.(limiters := limiters), es)
    ensures var s := Run(action, QUIET.(limiters := limiters), es);
      && Consistent(action, s)
      && forall i :: 0 <= i < |es| ==> Accounted(action, s, es[i].pdu)
  {
    hide Step, Enabled, Consistent, Accounted;
    if es == [] {
      QuietIsConsistent(action, limiters);
    } else {
      var n := |es| - 1;
      var s := Run(action, QUIET.(limiters := limiters), es[..n]);
      CountersMatchTheWire(action, limiters, es[..n]);
      StepCounts(action, s, es[n]);
      StepAccounts(action, s, es[n]);
      forall i | 0 <= i < |es| ensures Accounted(action, Step(action, s, es[n]), es[i].pdu) {
        if i < n {
          assert es[i] == es[..n][i];
          AccountedKept(action, s, es[n], es[i].pdu);
        }
      }
    }
  }

  ghost predicate Accounted(action: Action, s: State, p: Pdu) {
    p in s.answered || HasPassed(s, p) || (action.Pace? && p in s.denied)
  }

  lemma {:induction false} StepAccounts(action: Action, s: State, e: Event)
    ensures Accounted(action, Step(action, s, e), e.pdu)
  {
    hide Verdict, LabelOf, Denied, Limited, Call;
    var t := Step(action, s, e);
    if e.Ask? && !Denied(s, e.pdu, e.now) { assert Passage(e.pdu, e.now) in t.passed; }
  }

  lemma {:induction false} AccountedKept(action: Action, s: State, e: Event, p: Pdu)
    requires Accounted(action, s, p)
    ensures Accounted(action, Step(action, s, e), p)
  {
    hide Verdict, LabelOf, Denied, Limited, Call;
    var t := Step(action, s, e);
    if HasPassed(s, p) {
      var x :| x in s.passed && x.pdu == p;
      assert x in t.passed;
    }
  }

  // ---- The cap ------------------------------------------------------------------------

  /** Which commands are held back. Without a token a `submit_sm`, `data_sm` or
      `submit_sm_multi` of a limited session is not let through: rejecting answers it with
      ESME_RTHROTTLED, 0x58, and pacing lets it wait. The other five commands always pass. */
  lemma {:induction false} ThrottleIsPerCommand(action: Action, s: State, p: Pdu, now: real)
    ensures var t, c := Step(action, s, Ask(p, now)), p.command;
      && ((c.SubmitSm? || c.DataSm? || c.SubmitSmMulti?) && p.session in s.limiters
          && Refilled(s.limiters[p.session], now).tokens < 1.0 ==>
            && t.passed == s.passed && p in t.denied
            && (if action.Reject? then t.answered == s.answered + [p] && t.responses == s.responses + [Response(0x58, None)]
                else t.answered == s.answered && t.responses == s.responses))
      && (c.CancelSm? || c.QuerySm? || c.ReplaceSm? || c.DeliverSm? || c.BindDataSm? ==>
            t.passed == s.passed + [Passage(p, now)] && t.answered == s.answered && t.limiters == s.limiters)
  {
    hide Call;
  }

  /** A message PDU of that session: the three commands that submit messages. */
  ghost predicate Mine(p: Pdu, session: string) {
    p.session == session && (p.command.SubmitSm? || p.command.DataSm? || p.command.SubmitSmMulti?)
  }

  /** The instants at which a token was asked for a session's gated PDUs. */
  ghost function Asked(es: seq<Event>, session: string): seq<real> {
    if es == [] then []
    else Asked(es[..|es| - 1], session)
         + if es[|es| - 1].Ask? && Mine(es[|es| - 1].pdu, session) then [es[|es| - 1].now] else []
  }

  /** The instants at which a session's gated PDUs were let through. */
  ghost function Tokens(xs: seq<Passage>, session: string): seq<real> {
    if xs == [] then []
    else Tokens(xs[..|xs| - 1], session) + if Mine(xs[|xs| - 1].pdu, session) then [xs[|xs| - 1].token] else []
  }

  lemma {:induction false} StepLimiter(action: Action, s: State, e: Event, session: string)
    requires session in s.limiters
    ensures var t, mine := Step(action, s, e), e.Ask? && Mine(e.pdu, session);
      && t.limiters.Keys == s.limiters.Keys
      && t.limiters[session] == (if mine then Call(s.limiters[session], e.now) else s.limiters[session])
      && Tokens(t.passed, session) == Tokens(s.passed, session)
         + (if mine && Admits(s.limiters[session], e.now) then [e.now] else [])
  {
    hide Verdict, LabelOf, Admits, Call;
    var t := Step(action, s, e);
    if e.Ask? && !Denied(s, e.pdu, e.now) {
      assert t.passed[..|t.passed| - 1] == s.passed;
    }
  }

  /** A session's limiter sees exactly that session's asks, whatever the others do, and exactly
      the asks it admits let a PDU through. */
  lemma {:induction false} LimiterGovernsDispatch(action: Action, limiters: map<string, Bucket>, es: seq<Event>, session: string)
    requires session in limiters
    ensures var s := Run(action, QUIET.(limiters := limiters), es);
      && s.limiters.Keys == limiters.Keys
      && s.limiters[session] == RateLimiting.Run(limiters[session], Asked(es, session))
      && Tokens(s.passed, session) == Admissions(limiters[session], Asked(es, session))
  {
    hide Step, Admits, Call, Mine;
    if es != [] {
      var n, e := |es| - 1, es[|es| - 1];
      LimiterGovernsDispatch(action, limiters, es[..n], session);
      StepLimiter(action, Run(action, QUIET.(limiters := limiters), es[..n]), e, session);
      var asked := Asked(es[..n], session);
      if e.Ask? && Mine(e.pdu, session) {
        assert Asked(es, session) == asked + [e.now];
        assert (asked + [e.now])[..|asked|] == asked;
      } else {
        assert Asked(es, session) == asked;
      }
    }
  }

  lemma {:induction false} AskedIsOrdered(action: Action, limiters: map<string, Bucket>, es: seq<Event>, session: string)
    requires session in limiters && IsRun(action, QUIET.(limiters := limiters), es) && Valid(limiters[session])
    ensures Ordered(Asked(es, session), limiters[session].last)
  {
    hide Step, Admits, Call, Valid, Admissions, Tokens, HasPassed, RateLimiting.Run, Ordered;
    if es == [] {
      NothingIsOrdered(limiters[session].last);
    } else {
      var n, e := |es| - 1, es[|es| - 1];
      AskedIsOrdered(action, limiters, es[..n], session);
      LimiterGovernsDispatch(action, limiters, es[..n], session);
      var asked := Asked(es[..n], session);
      RunKeepsValid(limiters[session], asked);
      if e.Ask? && Mine(e.pdu, session) {
        assert Limited(Run(action, QUIET.(limiters := limiters), es[..n]), e.pdu);
        OrderedAppend(asked, limiters[session].last, e.now);
      } else {
        assert Asked(es, session) == asked;
      }
    }
  }

  lemma {:induction false} NothingIsOrdered(from: real)
    ensures Ordered([], from)
  {
  }

  lemma {:induction false} OrderedAppend(ts: seq<real>, from: real, t: real)
    requires Ordered(ts, from) && (if ts == [] then from else ts[|ts| - 1]) <= t
    ensures Ordered(ts + [t], from)
  {
    assert forall i :: 0 <= i < |ts| ==> ts[i] <= ts[|ts| - 1];
  }

  /** The session's message PDUs that were let through within a window. */
  ghost function PassedWithin(xs: seq<Passage>, session: string, from: real, to: real): set<Pdu> {
    set x | x in xs && Mine(x.pdu, session) && from <= x.token <= to :: x.pdu
  }

  /** The session's message PDUs whose handlers started within a window. */
  ghost function StartedWithin(ds: seq<Dispatch>, session: string, from: real, to: real): set<Pdu> {
    set d | d in ds && Mine(d.pdu, session) && from <= d.start <= to :: d.pdu
  }

  lemma {:induction false} PassedWithinCount(xs: seq<Passage>, session: string, from: real, to: real)
    ensures |PassedWithin(xs, session, from, to)| <= CountWithin(Tokens(xs, session), from, to)
  {
    hide Mine;
    if xs != [] {
      var ys, x := xs[..|xs| - 1], xs[|xs| - 1];
      PassedWithinCount(ys, session, from, to);
      assert xs == ys + [x];
      var all, most := PassedWithin(xs, session, from, to), PassedWithin(ys, session, from, to);
      if Mine(x.pdu, session) {
        var tokens := Tokens(ys, session);
        assert (tokens + [x.token])[..|tokens|] == tokens;
        assert all <= most + {x.pdu};
        SubsetSize(all, most + {x.pdu});
        if !(from <= x.token <= to) { assert all == most; }
      } else {
        assert all == most && Tokens(xs, session) == Tokens(ys, session);
      }
    }
  }

  lemma {:induction false} SubsetSize<T>(a: set<T>, b: set<T>)
    requires a <= b
    ensures |a| <= |b|
  {
    assert b == a + (b - a);
  }

  lemma {:induction false} TokensStayUnderTheCap(action: Action, limiters: map<string, Bucket>, es: seq<Event>,
                                    session: string, rate: nat, start: real, from: real, to: real)
    requires session in limiters && limiters[session] == New(rate, start)
    requires IsRun(action, QUIET.(limiters := limiters), es) && from <= to
    ensures var s := Run(action, QUIET.(limiters := limiters), es);
      var r := if rate == 0 then 1.0 else rate as real;
      && CountWithin(Tokens(s.passed, session), from, to) as real <= r * (1.0 + (to - from))
      && Ordered(Tokens(s.passed, session), start)
  {
    hide Step, Enabled, Admits, Call, Gain, Mine, Run, IsRun, Admissions, CountWithin, RateLimiting.Run, Ordered;
    var b := New(rate, start);
    hide New;
    AskedIsOrdered(action, limiters, es, session);
    LimiterGovernsDispatch(action, limiters, es, session);
    RateCap(rate, start, Asked(es, session), from, to);
    AdmissionsAreOrdered(b, Asked(es, session));
  }

  /** The cap on what is let through: whichever throttle action is configured, whatever other
      sessions send and however often pacing PDUs had to ask, no window sees more of a
      session's message PDUs let through than `rate` for each second of it and one second's
      worth more. */
  lemma {:induction false} AdmissionsStayUnderTheCap(action: Action, limiters: map<string, Bucket>, es: seq<Event>,
                                    session: string, rate: nat, start: real, from: real, to: real)
    requires session in limiters && limiters[session] == New(rate, start)
    requires IsRun(action, QUIET.(limiters := limiters), es) && from <= to
    ensures var s := Run(action, QUIET.(limiters := limiters), es);
      var r := if rate == 0 then 1.0 else rate as real;
      && |PassedWithin(s.passed, session, from, to)| as real <= r * (1.0 + (to - from))
      && forall x :: x in s.passed && Mine(x.pdu, session) ==> start <= x.token
  {
    hide Step, Enabled, New, Mine, PassedWithin, Run, IsRun, Tokens, CountWithin, Ordered;
    TokensStayUnderTheCap(action, limiters, es, session, rate, start, from, to);
    var s := Run(action, QUIET.(limiters := limiters), es);
    PassedWithinCount(s.passed, session, from, to);
    TokensAreNoEarlier(s.passed, session, start);
  }

  lemma {:induction false} TokensAreNoEarlier(xs: seq<Passage>, session: string, start: real)
    requires Ordered(Tokens(xs, session), start)
    ensures forall x :: x in xs && Mine(x.pdu, session) ==> start <= x.token
  {
    hide Mine;
    if xs != [] {
      var ys, x := xs[..|xs| - 1], xs[|xs| - 1];
      assert xs == ys + [x];
      var all, tokens := Tokens(xs, session), Tokens(ys, session);
      assert all == tokens + if Mine(x.pdu, session) then [x.token] else [];
      assert Ordered(tokens, start) by {
        assert forall i :: 0 <= i < |tokens| ==> tokens[i] == all[i];
      }
      TokensAreNoEarlier(ys, session, start);
      if Mine(x.pdu, session) { assert all[|tokens|] == x.token; }
    }
  }

  /** The cap end to end. A handler starts some time after its PDU was let through. If that is
      never more than `delay`, no window sees more of a session's handlers start than `rate` for
      each second of the window and the delay and one second's worth more; and however long it
      is, from the moment the limiter was made no more have started at any time than `rate` for
      each second until then and one second's worth more. */
  lemma {:induction false} HandlersStayUnderTheCap(action: Action, limiters: map<string, Bucket>, es: seq<Event>,
                                    session: string, rate: nat, start: real, from: real, to: real, delay: real)
    requires session in limiters && limiters[session] == New(rate, start)
    requires IsRun(action, QUIET.(limiters := limiters), es) && from <= to && start <= to && 0.0 <= delay
    ensures var s := Run(action, QUIET.(limiters := limiters), es);
      var started, r := |StartedWithin(s.dispatched, session, from, to)| as real, if rate == 0 then 1.0 else rate as real;
      && (Prompt(s, delay) ==> started <= r * (1.0 + (to - from + delay)))
      && started <= r * (1.0 + (to - start))
  {
    hide Step, Enabled, New, Mine, PassedWithin, StartedWithin, Prompt, AnsweredFairly, Counted, Run, IsRun;
    var s := Run(action, QUIET.(limiters := limiters), es);
    CountersMatchTheWire(action, limiters, es);
    AdmissionsStayUnderTheCap(action, limiters, es, session, rate, start, start, to);
    StartedHadPassed(action, s, session, from, to, start);
    SubsetSize(StartedWithin(s.dispatched, session, from, to), PassedWithin(s.passed, session, start, to));
    if Prompt(s, delay) {
      AdmissionsStayUnderTheCap(action, limiters, es, session, rate, start, from - delay, to);
      PromptHadPassed(action, s, session, from, to, delay);
      SubsetSize(StartedWithin(s.dispatched, session, from, to), PassedWithin(s.passed, session, from - delay, to));
      var r := if rate == 0 then 1.0 else rate as real;
      SameProduct(r, 1.0 + (to - (from - delay)), 1.0 + (to - from + delay));
    }
  }

  lemma {:induction false} SameProduct(r: real, x: real, y: real)
    requires x == y
    ensures r * x == r * y
  {
  }

  /** Every handler started within `delay` of its PDU being let through. */
  ghost predicate Prompt(s: State, delay: real) {
    forall d, x :: d in s.dispatched && x in s.passed && x.pdu == d.pdu ==> d.start <= x.token + delay
  }

  lemma {:induction false} StartedHadPassed(action: Action, s: State, session: string, from: real, to: real, start: real)
    requires DispatchedFairly(action, s)
    requires forall x :: x in s.passed && Mine(x.pdu, session) ==> start <= x.token
    ensures StartedWithin(s.dispatched, session, from, to) <= PassedWithin(s.passed, session, start, to)
  {
    hide Mine, Called, Without;
    forall p | p in StartedWithin(s.dispatched, session, from, to)
      ensures p in PassedWithin(s.passed, session, start, to)
    {
      var d :| d in s.dispatched && Mine(d.pdu, session) && from <= d.start <= to && d.pdu == p;
      assert PassedBy(s, d.pdu, d.start);
    }
  }

  lemma {:induction false} PromptHadPassed(action: Action, s: State, session: string, from: real, to: real, delay: real)
    requires DispatchedFairly(action, s) && Prompt(s, delay)
    ensures StartedWithin(s.dispatched, session, from, to) <= PassedWithin(s.passed, session, from - delay, to)
  {
    hide Mine, Called, Without;
    forall p | p in StartedWithin(s.dispatched, session, from, to)
      ensures p in PassedWithin(s.passed, session, from - delay, to)
    {
      var d :| d in s.dispatched && Mine(d.pdu, session) && from <= d.start <= to && d.pdu == p;
      assert PassedBy(s, d.pdu, d.start);
      var x :| x in s.passed && x.pdu == d.pdu && x.token <= d.start;
      assert d.start <= x.token + delay;
    }
  }

  lemma {:induction false} RunStep(action: Action, s: State, es: seq<Event>, e: Event)
    requires IsRun(action, s, es) && Enabled(Run(action, s, es), e)
    ensures IsRun(action, s, es + [e]) && Run(action, s, es + [e]) == Step(action, Run(action, s, es), e)
  {
    hide Step, Enabled;
    assert (es + [e])[..|es|] == es;
  }

  lemma {:induction false} UnitGain()
    ensures Gain(1.0, 0.0) == 0.0 && Gain(1.0, 1.0) == 1.0
  {
  }

  lemma {:induction false} OneASecond()
    ensures New(1, 0.0) == Bucket(1.0, 1.0, 1.0, 0.0) && Gain(1.0, 0.0) == 0.0
    ensures Admits(New(1, 0.0), 0.0) && Call(New(1, 0.0), 0.0) == Bucket(0.0, 1.0, 1.0, 0.0)
    ensures Admits(Bucket(0.0, 1.0, 1.0, 0.0), 1.0)
  {
    hide Gain;
    UnitGain();
    var full, empty := Bucket(1.0, 1.0, 1.0, 0.0), Bucket(0.0, 1.0, 1.0, 0.0);
    assert New(1, 0.0) == full;
    assert Refilled(full, 0.0) == full;
    assert Refilled(empty, 1.0).tokens == 1.0;
  }

  /** Two PDUs are let through, one second apart. */
  lemma {:induction false} TwoPass(action: Action, p: Pdu, q: Pdu) returns (es: seq<Event>)
    requires p != q && p.session == q.session && p.command.SubmitSm? && q.command.SubmitSm?
    ensures var quiet := QUIET.(limiters := map[p.session := New(1, 0.0)]);
      && IsRun(action, quiet, es)
      && var s := Run(action, quiet, es);
         s.passed == [Passage(p, 0.0), Passage(q, 1.0)] && s.answered == [] && s.dispatched == []
  {
    hide Admits, Call, New, Verdict, LabelOf;
    OneASecond();
    var s0 := QUIET.(limiters := map[p.session := New(1, 0.0)]);
    RunStep(action, s0, [], Ask(p, 0.0));
    es := [] + [Ask(p, 0.0)];
    var s1 := Run(action, s0, es);
    assert s1.passed == [Passage(p, 0.0)] && s1.limiters[p.session] == Bucket(0.0, 1.0, 1.0, 0.0);
    RunStep(action, s0, es, Ask(q, 1.0));
    es := es + [Ask(q, 1.0)];
  }

  lemma {:induction false} ServeStep(action: Action, s: State, p: Pdu, token: real, now: real)
    requires p !in s.answered && Passage(p, token) in s.passed && token <= now
    ensures Enabled(s, Serve(p, now))
    ensures var t := Step(action, s, Serve(p, now));
      t.passed == s.passed && t.answered == s.answered + [p] && t.dispatched == s.dispatched + [Dispatch(p, now)]
  {
    hide Verdict, LabelOf;
  }

  /** The delay matters. At one message a second, two handlers can start at the same instant:
      one PDU let through at 0 s whose handler is late, and one let through at 1 s. */
  lemma {:induction false} LateHandlersBunch(action: Action, p: Pdu, q: Pdu) returns (es: seq<Event>)
    requires p != q && p.session == q.session && p.command.SubmitSm? && q.command.SubmitSm?
    ensures var quiet := QUIET.(limiters := map[p.session := New(1, 0.0)]);
      && IsRun(action, quiet, es)
      && |StartedWithin(Run(action, quiet, es).dispatched, p.session, 1.0, 1.0)| as real > 1.0 * (1.0 + (1.0 - 1.0))
  {
    hide Admits, Call, Gain, New, Step, Enabled, Run, IsRun;
    OneASecond();
    var s0 := QUIET.(limiters := map[p.session := New(1, 0.0)]);
    es := TwoPass(action, p, q);
    ServeStep(action, Run(action, s0, es), p, 0.0, 1.0);
    RunStep(action, s0, es, Serve(p, 1.0));
    es := es + [Serve(p, 1.0)];
    ServeStep(action, Run(action, s0, es), q, 1.0, 1.0);
    RunStep(action, s0, es, Serve(q, 1.0));
    es := es + [Serve(q, 1.0)];
    var ds := Run(action, s0, es).dispatched;
    assert ds == [Dispatch(p, 1.0), Dispatch(q, 1.0)];
    assert Dispatch(p, 1.0) in ds && Dispatch(q, 1.0) in ds;
    assert StartedWithin(ds, p.session, 1.0, 1.0) == {p, q};
  }
}
