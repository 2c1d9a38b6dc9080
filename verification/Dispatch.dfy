/** Running `@smpp.on_session` handlers, and the exactly-once completion of a coroutine. */
module Dispatch {
  import opened Text

  datatype Result = Ok | Error(message: string)

  /** What calling a handler leads to: a result at once, or a coroutine that settles later.
      A handler that raises, cannot be given its arguments or times out ends in an error. */
  datatype Behaviour = Returns(result: Result) | Suspends(settles: Result)

  datatype Handler = Handler(id: nat, key: Option<string>, behaviour: Behaviour)

  /** What can be seen from outside: handlers starting and settling, in order. */
  datatype Seen = Started(id: nat) | Settled(id: nat, result: Result)

  /** Whether an executor job runs to its end, or is shed or panics after some of what it
      would have shown; what it computed is lost then. */
  datatype Fate = Completes | Dies(after: nat)

  // ---- Plain sequential execution -----------------------------------------------------

  ghost function OutcomeOf(h: Handler): Result {
    if h.behaviour.Returns? then h.behaviour.result else h.behaviour.settles
  }

  /** One handler at a time, each settled before the next starts. */
  ghost function Sequential(hs: seq<Handler>): seq<Seen> {
    if hs == [] then []
    else [Started(hs[0].id), Settled(hs[0].id, OutcomeOf(hs[0]))] + Sequential(hs[1..])
  }

  function Matching(hs: seq<Handler>, event: string): seq<Handler> {
    if hs == [] then []
    else (if hs[0].key == Some(event) then [hs[0]] else []) + Matching(hs[1..], event)
  }

  // ---- The runner ---------------------------------------------------------------------

  /** Where a job stopped: done, or suspended on a coroutine with the rest still to run. */
  datatype Step = Finished | Awaiting(pending: Handler, remaining: seq<Handler>)

  /** `run_session`: call handlers in order until one has to wait. */
  method RunSession(hs: seq<Handler>) returns (step: Step, seen: seq<Seen>)
    ensures match step
      case Finished => seen == Sequential(hs)
      case Awaiting(h, rest) =>
        && h.behaviour.Suspends?
        && |rest| < |hs|
        && Sequential(hs) == seen + [Settled(h.id, h.behaviour.settles)] + Sequential(rest)
  {
    var remaining := hs;
    seen := [];
    while remaining != []
      invariant Sequential(hs) == seen + Sequential(remaining) && |remaining| <= |hs|
      decreases |remaining|
    {
      var h := remaining[0];
      ghost var before, rest := seen, Sequential(remaining[1..]);
      remaining := remaining[1..];
      seen := seen + [Started(h.id)];
      match h.behaviour
      case Returns(r) =>
        seen := seen + [Settled(h.id, r)];
        assert before + ([Started(h.id), Settled(h.id, r)] + rest) == seen + rest;
      case Suspends(r) =>
        assert before + ([Started(h.id), Settled(h.id, r)] + rest) == seen + [Settled(h.id, r)] + rest;
        return Awaiting(h, remaining), seen;
    }
    step := Finished;
  }

  /** `session`: one executor job after another, settling each coroutine in between. `fates`
      says what becomes of each job; jobs past its end complete. What is seen is plain
      sequential execution of the matching handlers, cut short only if a job died; `died`
      says whether one did. The remaining handlers are the termination measure. */
  method Session(handlers: seq<Handler>, event: string, fates: seq<Fate>)
    returns (seen: seq<Seen>, died: bool, jobs: nat)
    ensures seen <= Sequential(Matching(handlers, event))
    ensures !died ==> seen == Sequential(Matching(handlers, event))
    ensures 1 <= jobs <= |Matching(handlers, event)| + 1
    ensures died <==> jobs <= |fates| && fates[jobs - 1].Dies?
    ensures forall j :: 0 <= j < jobs - 1 && j < |fates| ==> fates[j].Completes?
  {
    hide Sequential, Matching;
    var remaining := Matching(handlers, event);
    ghost var all := Sequential(remaining);
    seen, died, jobs := [], false, 0;
    while true
      invariant seen + Sequential(remaining) == all
      invariant jobs + |remaining| <= |Matching(handlers, event)|
      invariant !died && forall j :: 0 <= j < jobs && j < |fates| ==> fates[j].Completes?
      decreases |remaining|
    {
      var step, shown := RunSession(remaining);
      var fate := if jobs < |fates| then fates[jobs] else Completes;
      jobs := jobs + 1;
      if fate.Dies? {
        ghost var before := seen;
        seen, died := seen + shown[..if fate.after < |shown| then fate.after else |shown|], true;
        assert before + shown <= all;
        return;
      }
      match step
      case Finished =>
        seen := seen + shown;
        return;
      case Awaiting(h, rest) =>
        ghost var before := seen;
        seen := seen + shown + [Settled(h.id, h.behaviour.settles)];
        remaining := rest;
        assert before + (shown + [Settled(h.id, h.behaviour.settles)] + Sequential(rest)) == seen + Sequential(rest);
    }
  }

  /** A handler starts only when the one before has settled, and settles right after it
      started. */
  ghost predicate OneAtATime(t: seq<Seen>) {
    forall i :: 0 <= i < |t| ==>
      match t[i]
      case Started(_) => i == 0 || t[i - 1].Settled?
      case Settled(id, _) => i > 0 && t[i - 1] == Started(id)
  }

  lemma {:induction false} SequentialIsOneAtATime(hs: seq<Handler>)
    ensures |Sequential(hs)| == 2 * |hs| && OneAtATime(Sequential(hs))
    ensures forall i :: 0 <= i < |hs| ==>
      && Sequential(hs)[2 * i] == Started(hs[i].id)
      && match hs[i].behaviour
         case Returns(r) => Sequential(hs)[2 * i + 1] == Settled(hs[i].id, r)
         case Suspends(r) => Sequential(hs)[2 * i + 1] == Settled(hs[i].id, r)
  {
    if hs != [] {
      SequentialIsOneAtATime(hs[1..]);
      var t, rest := Sequential(hs), Sequential(hs[1..]);
      assert forall i :: 2 <= i < |t| ==> t[i] == rest[i - 2];
      assert t[0].Started? && t[1] == Settled(hs[0].id, OutcomeOf(hs[0]));
      assert rest != [] ==> rest[0].Started?;
      forall i | 0 <= i < |hs|
        ensures t[2 * i] == Started(hs[i].id) && t[2 * i + 1] == Settled(hs[i].id, OutcomeOf(hs[i]))
      {
        if i > 0 { assert t[2 * i] == rest[2 * (i - 1)] && t[2 * i + 1] == rest[2 * (i - 1) + 1]; }
      }
    }
  }

  /** Filtering keeps every match and no more. */
  lemma {:induction false} MatchingIsAFilter(hs: seq<Handler>, event: string, h: Handler)
    ensures h in Matching(hs, event) <==> h in hs && h.key == Some(event)
  {
    if hs != [] {
      MatchingIsAFilter(hs[1..], event, h);
      assert h in hs <==> h == hs[0] || h in hs[1..];
    }
  }

  lemma {:induction false} Reassociate<T>(a: seq<T>, b: seq<T>, c: seq<T>)
    ensures a + (b + c) == (a + b) + c
  {
  }

  /** Filtering keeps registration order. */
  lemma {:induction false} MatchingKeepsOrder(hs: seq<Handler>, gs: seq<Handler>, event: string)
    ensures Matching(hs + gs, event) == Matching(hs, event) + Matching(gs, event)
  {
    if hs == [] {
      assert hs + gs == gs;
    } else {
      MatchingKeepsOrder(hs[1..], gs, event);
      assert (hs + gs)[1..] == hs[1..] + gs && (hs + gs)[0] == hs[0];
      var first := if hs[0].key == Some(event) then [hs[0]] else [];
      assert Matching(hs + gs, event) == first + Matching(hs[1..] + gs, event);
      hide Matching;
      Reassociate(first, Matching(hs[1..], event), Matching(gs, event));
    }
  }

  // ---- Completion ---------------------------------------------------------------------

  datatype Call<T> = Done(value: T) | Fail(error: string)

  /** The one-shot completion: the closure that finishes the request is taken by the first
      call and gone for any later one. `sent` is what the closure put on the channel. */
  class Completion<T> {
    var armed: bool
    var sent: seq<Call<T>>

    constructor ()
      ensures armed && sent == []
    {
      armed, sent := true, [];
    }

    method Take() returns (taken: bool)
      modifies this`armed
      ensures taken == old(armed) && !armed
    {
      taken := armed;
      armed := false;
    }

    /** `done` and `fail` alike. */
    method Report(call: Call<T>)
      modifies this
      ensures !armed && sent == old(sent) + if old(armed) then [call] else []
    {
      var taken := Take();
      if taken {
        sent := sent + [call];
      }
    }

    /** Any sequence of calls delivers exactly the first one, once. */
    method ReportAll(calls: seq<Call<T>>)
      modifies this
      ensures sent == old(sent) + if old(armed) && calls != [] then [calls[0]] else []
    {
      for i := 0 to |calls|
        invariant armed == (old(armed) && i == 0)
        invariant sent == old(sent) + if old(armed) && i > 0 then [calls[0]] else []
      {
        Report(calls[i]);
      }
    }
  }

  /** What can happen to a pending coroutine, in order: a call on its completion, the asyncio
      loop dropping it, or the backstop deadline of the waiting side. */
  datatype Sign<T> = Called(call: Call<T>) | Dropped | Deadline

  datatype Settlement<T> = Unsettled | Value(value: T) | Raised(error: string) | LoopDropped | BackstopPassed

  /** What the channel carries: the first call, unless the completion was dropped before. A
      waiting side that has given up does not stop it. */
  ghost function FirstReport<T>(signs: seq<Sign<T>>): seq<Call<T>> {
    if signs == [] then []
    else match signs[0]
      case Called(c) => [c]
      case Dropped => []
      case Deadline => FirstReport(signs[1..])
  }

  /** The channel's one report is the first call, if nothing but deadlines came before it; it
      carries nothing exactly when every call came after a drop. */
  lemma {:induction false} FirstReportIs<T>(signs: seq<Sign<T>>) returns (i: nat)
    ensures |FirstReport(signs)| <= 1
    ensures i <= |signs| && forall j :: 0 <= j < i ==> signs[j].Deadline?
    ensures FirstReport(signs) != [] ==> i < |signs| && signs[i] == Called(FirstReport(signs)[0])
    ensures FirstReport(signs) == [] ==> i == |signs| || signs[i].Dropped?
  {
    i := 0;
    if signs != [] && signs[0].Deadline? {
      var k := FirstReportIs(signs[1..]);
      i := k + 1;
      assert forall j :: 0 < j < i ==> signs[j] == signs[1..][j - 1];
    }
  }

  /** `Started::settle` against a completion: whatever signs arrive, in whatever order and
      however often, the first alone decides. A value or an error the handler reported first is
      what the caller gets; otherwise it hears that the loop dropped the handler, or that the
      deadline passed. The channel carries at most one report, and the result is that report
      whenever it came first. `first` is the sign that decided about the channel: everything
      before it is a deadline. */
  method Settle<T>(signs: seq<Sign<T>>) returns (r: Settlement<T>, sent: seq<Call<T>>, ghost first: nat)
    ensures signs == [] <==> r.Unsettled?
    ensures signs != [] ==>
      match signs[0]
      case Called(Done(v)) => r == Value(v) && sent == [Done(v)]
      case Called(Fail(e)) => r == Raised(e) && sent == [Fail(e)]
      case Dropped => r == LoopDropped && sent == []
      case Deadline => r == BackstopPassed
    ensures sent == [] ==> !r.Value? && !r.Raised?
    ensures |sent| <= 1 && first <= |signs| && forall j :: 0 <= j < first ==> signs[j].Deadline?
    ensures if sent != [] then first < |signs| && signs[first] == Called(sent[0])
            else first == |signs| || signs[first].Dropped?
  {
    first := FirstReportIs(signs);
    var completion := new Completion<T>();
    r := Unsettled;
    for i := 0 to |signs|
      invariant i == 0 <==> r.Unsettled?
      invariant i > 0 ==>
        match signs[0]
        case Called(Done(v)) => r == Value(v)
        case Called(Fail(e)) => r == Raised(e)
        case Dropped => r == LoopDropped
        case Deadline => r == BackstopPassed
      invariant completion.armed ==> completion.sent == [] && FirstReport(signs) == FirstReport(signs[i..])
      invariant !completion.armed ==> completion.sent == FirstReport(signs)
    {
      assert signs[i..][1..] == signs[i + 1..];
      var settled: Settlement<T>;
      match signs[i] {
        case Called(c) =>
          completion.Report(c);
          settled := match c case Done(v) => Value(v) case Fail(e) => Raised(e);
        case Dropped =>
          var taken := completion.Take();
          settled := LoopDropped;
        case Deadline =>
          settled := BackstopPassed;
      }
      if r.Unsettled? { r := settled; }
    }
    sent := completion.sent;
  }
}
