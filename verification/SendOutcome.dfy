/** What came back for a request: the registry of outbound sessions, the classifier of failed
    sends, and the protocol that ties them to what really happened. Durations are
    milliseconds. */
module SendOutcome {
  import opened Text

  type Status = nat
  const ESME_RSYSERR: Status := 8

  // ---- The registry -------------------------------------------------------------------

  /** A registered session. The codec's session id stands for the shared handle as well: one
      handle is made per session and ids are never reused. */
  datatype BindSession = BindSession(name: string, session: nat, responseTimer: nat)

  /** `retain(session_id != sid)`. */
  function Retain(binds: seq<BindSession>, sid: nat): seq<BindSession> {
    if binds == [] then []
    else if binds[0].session != sid then [binds[0]] + Retain(binds[1..], sid)
    else Retain(binds[1..], sid)
  }

  /** Retaining drops exactly the sessions with that id, and shortens the list exactly when
      there was one. */
  lemma {:induction false} RetainDrops(binds: seq<BindSession>, sid: nat)
    ensures forall b :: b in Retain(binds, sid) <==> b in binds && b.session != sid
    ensures |Retain(binds, sid)| <= |binds|
    ensures |Retain(binds, sid)| < |binds| <==> !Gone(binds, sid)
    ensures Gone(binds, sid) ==> Retain(binds, sid) == binds
  {
    if binds != [] {
      RetainDrops(binds[1..], sid);
      assert forall b :: b in binds <==> b == binds[0] || b in binds[1..];
    }
  }

  /** `b` is the first session of that name. */
  ghost predicate IsFirstNamed(binds: seq<BindSession>, name: string, b: BindSession, i: nat) {
    i < |binds| && binds[i] == b && b.name == name && forall j :: 0 <= j < i ==> binds[j].name != name
  }

  /** `iter().find(name)`. */
  function FindBind(binds: seq<BindSession>, name: string): (r: Option<BindSession>)
    ensures r.None? <==> forall b :: b in binds ==> b.name != name
    ensures r.Some? ==> r.value in binds && exists i :: IsFirstNamed(binds, name, r.value, i)
  {
    FindFrom(binds, name, 0)
  }

  function FindFrom(binds: seq<BindSession>, name: string, i: nat): (r: Option<BindSession>)
    requires i <= |binds| && forall j :: 0 <= j < i ==> binds[j].name != name
    ensures r.None? <==> forall b :: b in binds ==> b.name != name
    ensures r.Some? ==> r.value in binds && exists k :: IsFirstNamed(binds, name, r.value, k)
    decreases |binds| - i
  {
    if i == |binds| then None
    else if binds[i].name == name then
      assert IsFirstNamed(binds, name, binds[i], i);
      Some(binds[i])
    else FindFrom(binds, name, i + 1)
  }

  predicate Gone(binds: seq<BindSession>, sid: nat) {
    forall b :: b in binds ==> b.session != sid
  }

  // ---- The classifier -----------------------------------------------------------------

  datatype Failure = Nack(status: Status) | Timeout(timer: nat) | Closed | Unanswered

  function Classify(error: Status, waited: nat, timer: nat, gone: bool): Failure {
    if error != ESME_RSYSERR then Nack(error)
    else if waited >= timer then Timeout(timer)
    else if gone then Closed
    else Unanswered
  }

  // ---- The protocol -------------------------------------------------------------------

  /** Why the codec let go of a request; only the codec knows. */
  datatype Cause =
    | Answered(status: Status)
    | Nacked(status: Status)
    | TimerFired
    | SessionEnded
    | WriteFailed
    | WrongResponseType

  /** What the codec returns to the sender for that cause: a response, or this error. */
  function ErrorOf(c: Cause): Status {
    if c.Nacked? then c.status else ESME_RSYSERR
  }

  datatype Outcome = Response(status: Status) | Failed(failure: Failure)

  /** A send, step by step: the handle was looked up; the clock started and the codec may
      have armed its response timer; the codec let go; the clock was read; the registry was
      asked and the result reported. */
  datatype Send =
    | Resolved(sid: nat, timer: nat)
    | Waiting(sid: nat, timer: nat, started: nat, armed: Option<nat>)
    | Released(sid: nat, timer: nat, started: nat, cause: Cause)
    | Clocked(sid: nat, timer: nat, cause: Cause, waited: nat)
    | Settled(sid: nat, timer: nat, cause: Cause, waited: nat, gone: bool, outcome: Outcome)

  /** `history` lists every session ever bound, `ended` those whose unbound hook ran,
      `unbound` the session-down dispatches. */
  datatype State = State(
    now: nat, binds: seq<BindSession>, history: seq<BindSession>, ended: set<nat>,
    unbound: seq<nat>, sends: map<nat, Send>)

  const INIT := State(0, [], [], {}, [], map[])

  datatype Event =
    | Tick(ms: nat)
    | Bind(name: string, sid: nat, timer: nat)
    | UnboundHook(sid: nat)
    | Resolve(send: nat, name: string)
    | Start(send: nat)
    | Arm(send: nat)
    | Release(send: nat, cause: Cause)
    | ReadClock(send: nat)
    | AskRegistry(send: nat)

  ghost predicate WasBound(s: State, sid: nat) {
    exists b :: b in s.history && b.session == sid
  }

  /** The two facts taken from the codec: its response timer cannot fire before it has
      elapsed, and a session's end releases its requests only after the unbound hook ran.
      Session ids are unique; the hook may run more than once. */
  ghost predicate Enabled(s: State, e: Event) {
    match e
    case Tick(_) => true
    case Bind(_, sid, _) => !WasBound(s, sid)
    case UnboundHook(sid) => WasBound(s, sid)
    case Resolve(n, name) => n !in s.sends && FindBind(s.binds, name).Some?
    case Start(n) => n in s.sends && s.sends[n].Resolved?
    case Arm(n) => n in s.sends && s.sends[n].Waiting? && s.sends[n].armed.None?
    case Release(n, cause) =>
      && n in s.sends && s.sends[n].Waiting?
      && (cause.TimerFired? ==> s.sends[n].armed.Some? && s.sends[n].armed.value + s.sends[n].timer <= s.now)
      && (cause.SessionEnded? ==> s.sends[n].sid in s.ended)
    case ReadClock(n) => n in s.sends && s.sends[n].Released?
    case AskRegistry(n) => n in s.sends && s.sends[n].Clocked?
  }

  ghost function Step(s: State, e: Event): State
    requires Enabled(s, e)
  {
    match e
    case Tick(ms) => s.(now := s.now + ms)
    case Bind(name, sid, timer) =>
      var b := BindSession(name, sid, timer);
      s.(binds := s.binds + [b], history := s.history + [b])
    case UnboundHook(sid) =>
      s.(binds := Retain(s.binds, sid), ended := s.ended + {sid},
         unbound := s.unbound + if Gone(s.binds, sid) then [] else [sid])
    case Resolve(n, name) =>
      var b := FindBind(s.binds, name).value;
      s.(sends := s.sends[n := Resolved(b.session, b.responseTimer)])
    case Start(n) =>
      var r := s.sends[n];
      s.(sends := s.sends[n := Waiting(r.sid, r.timer, s.now, None)])
    case Arm(n) => s.(sends := s.sends[n := s.sends[n].(armed := Some(s.now))])
    case Release(n, cause) =>
      var r := s.sends[n];
      s.(sends := s.sends[n := Released(r.sid, r.timer, r.started, cause)])
    case ReadClock(n) =>
      var r := s.sends[n];
      s.(sends := s.sends[n := Clocked(r.sid, r.timer, r.cause, if s.now >= r.started then s.now - r.started else 0)])
    case AskRegistry(n) =>
      var r := s.sends[n];
      var gone := Gone(s.binds, r.sid);
      var outcome := if r.cause.Answered? then Response(r.cause.status)
                     else Failed(Classify(ErrorOf(r.cause), r.waited, r.timer, gone));
      s.(sends := s.sends[n := Settled(r.sid, r.timer, r.cause, r.waited, gone, outcome)])
  }

  // ---- Invariants ---------------------------------------------------------------------

  /** The sessions of a history that are not in `ended`, in bind order. */
  ghost function Live(history: seq<BindSession>, ended: set<nat>): seq<BindSession> {
    if history == [] then []
    else Live(history[..|history| - 1], ended)
         + if history[|history| - 1].session in ended then [] else [history[|history| - 1]]
  }

  ghost predicate UniqueIds(history: seq<BindSession>) {
    forall i, j :: 0 <= i < j < |history| ==> history[i].session != history[j].session
  }

  ghost predicate RegistryInv(s: State) {
    && UniqueIds(s.history)
    && s.binds == Live(s.history, s.ended)
    && (forall sid :: sid in s.ended ==> WasBound(s, sid))
    && (forall sid :: multiset(s.unbound)[sid] == if sid in s.ended then 1 else 0)
  }

  /** What the codec knew when it let go, still true of the send. */
  ghost predicate SendInv(s: State, r: Send) {
    && (r.Waiting? ==> r.started <= s.now && (r.armed.Some? ==> r.started <= r.armed.value))
    && (r.Released? ==>
          && r.started <= s.now
          && (r.cause.TimerFired? ==> r.started + r.timer <= s.now)
          && (r.cause.SessionEnded? ==> r.sid in s.ended))
    && (r.Clocked? ==>
          && (r.cause.TimerFired? ==> r.timer <= r.waited)
          && (r.cause.SessionEnded? ==> r.sid in s.ended))
    && WasBound(s, r.sid)
    && (r.Settled? ==> Sound(s, r))
  }

  /** The report agrees with what happened; 8 is ESME_RSYSERR. */
  ghost predicate Sound(s: State, r: Send)
    requires r.Settled?
  {
    && (r.cause.Answered? ==> r.outcome == Response(r.cause.status))
    && (r.cause.TimerFired? ==> r.outcome == Failed(Timeout(r.timer)))
    && (r.cause.SessionEnded? ==>
          r.outcome == Failed(if r.waited >= r.timer then Timeout(r.timer) else Closed))
    && (r.cause.Nacked? && r.cause.status != 8 ==> r.outcome == Failed(Nack(r.cause.status)))
    && (forall st :: r.outcome == Response(st) ==> r.cause == Answered(st))
    && (forall st :: r.outcome == Failed(Nack(st)) ==> r.cause == Nacked(st) && st != 8)
    && (forall t :: r.outcome == Failed(Timeout(t)) ==> t == r.timer <= r.waited)
    && (r.outcome == Failed(Closed) ==> r.sid in s.ended && r.waited < r.timer)
    && (r.outcome == Failed(Unanswered) ==>
          && r.waited < r.timer
          && (r.cause == Nacked(8) || r.cause.WriteFailed? || r.cause.WrongResponseType?))
  }

  ghost predicate Inv(s: State) {
    RegistryInv(s) && forall n :: n in s.sends ==> SendInv(s, s.sends[n])
  }

  // ---- The registry over whole runs ---------------------------------------------------

  lemma {:induction false} LiveMembers(history: seq<BindSession>, ended: set<nat>)
    ensures forall b :: b in Live(history, ended) <==> b in history && b.session !in ended
  {
    if history != [] {
      var h := history[..|history| - 1];
      LiveMembers(h, ended);
      assert history == h + [history[|history| - 1]];
    }
  }

  lemma {:induction false} RetainAppend(xs: seq<BindSession>, ys: seq<BindSession>, sid: nat)
    ensures Retain(xs + ys, sid) == Retain(xs, sid) + Retain(ys, sid)
  {
    if xs == [] {
      assert xs + ys == ys;
    } else {
      RetainAppend(xs[1..], ys, sid);
      assert (xs + ys)[1..] == xs[1..] + ys && (xs + ys)[0] == xs[0];
      assert [xs[0]] + (Retain(xs[1..], sid) + Retain(ys, sid)) == [xs[0]] + Retain(xs[1..], sid) + Retain(ys, sid);
    }
  }

  lemma {:induction false} RetainOne(b: BindSession, sid: nat)
    ensures Retain([b], sid) == (if b.session == sid then [] else [b]) && Retain([], sid) == []
  {
    assert [b][1..] == [];
  }

  lemma {:induction false} RetainIsLive(history: seq<BindSession>, ended: set<nat>, sid: nat)
    ensures Retain(Live(history, ended), sid) == Live(history, ended + {sid})
  {
    assert Retain([], sid) == [];
    hide Retain;
    if history != [] {
      var h, b := history[..|history| - 1], history[|history| - 1];
      RetainOne(b, sid);
      RetainIsLive(h, ended, sid);
      RetainAppend(Live(h, ended), if b.session in ended then [] else [b], sid);
    }
  }

  lemma {:induction false} BindStep(s: State, e: Event)
    requires RegistryInv(s) && Enabled(s, e) && e.Bind?
    ensures RegistryInv(Step(s, e))
  {
    hide Retain, FindBind;
    var t := Step(s, e);
    assert t.history[..|t.history| - 1] == s.history;
    assert e.sid !in s.ended;
    forall x | x in s.ended ensures WasBound(t, x) {
      var c :| c in s.history && c.session == x;
      assert c in t.history;
    }
  }

  lemma {:induction false} HookStep(s: State, e: Event)
    requires RegistryInv(s) && Enabled(s, e) && e.UnboundHook?
    ensures RegistryInv(Step(s, e))
  {
    hide Retain, FindBind, Live, UniqueIds;
    RetainIsLive(s.history, s.ended, e.sid);
    LiveMembers(s.history, s.ended);
    var c :| c in s.history && c.session == e.sid;
    assert c in s.binds <==> e.sid !in s.ended;
    assert Gone(s.binds, e.sid) <==> e.sid in s.ended;
  }

  lemma {:induction false} RegistryStep(s: State, e: Event)
    requires RegistryInv(s) && Enabled(s, e)
    ensures RegistryInv(Step(s, e))
  {
    hide Retain, FindBind, Live, UniqueIds;
    match e
    case Bind(_, _, _) => BindStep(s, e);
    case UnboundHook(_) => HookStep(s, e);
    case _ =>
  }

  /** Nothing that happens elsewhere spoils what is known about a send. */
  lemma {:induction false} SendFrame(s: State, t: State, r: Send)
    requires SendInv(s, r) && s.now <= t.now && s.ended <= t.ended
    requires forall b :: b in s.history ==> b in t.history
    ensures SendInv(t, r)
  {
    var b :| b in s.history && b.session == r.sid;
    assert b in t.history;
  }

  lemma {:induction false} OwnStep(s: State, e: Event, n: nat)
    requires Inv(s) && Enabled(s, e) && n in s.sends
    requires e == Start(n) || e == Arm(n) || e == ReadClock(n) || (e.Release? && e.send == n)
    ensures SendInv(Step(s, e), Step(s, e).sends[n])
  {
    hide Retain, FindBind, UniqueIds, Live, RegistryInv;
    assert SendInv(s, s.sends[n]);
  }

  lemma {:induction false} ReportStep(s: State, n: nat)
    requires Inv(s) && Enabled(s, AskRegistry(n))
    ensures SendInv(Step(s, AskRegistry(n)), Step(s, AskRegistry(n)).sends[n])
  {
    hide Retain, FindBind, UniqueIds, Live;
    var r := s.sends[n];
    assert SendInv(s, r);
    LiveMembers(s.history, s.ended);
    var b :| b in s.history && b.session == r.sid;
    assert b in s.binds <==> r.sid !in s.ended;
    assert Gone(s.binds, r.sid) <==> r.sid in s.ended;
  }

  lemma {:induction false} SendStep(s: State, e: Event, n: nat)
    requires Inv(s) && Enabled(s, e) && n in Step(s, e).sends
    ensures SendInv(Step(s, e), Step(s, e).sends[n])
  {
    var t := Step(s, e);
    if e.Resolve? && e.send == n {
      LiveMembers(s.history, s.ended);
      assert FindBind(s.binds, e.name).value in s.history;
    } else if e == AskRegistry(n) {
      ReportStep(s, n);
    } else if e == Start(n) || e == Arm(n) || e == ReadClock(n) || (e.Release? && e.send == n) {
      OwnStep(s, e, n);
    } else {
      hide SendInv, Retain, FindBind, RegistryInv;
      SendFrame(s, t, s.sends[n]);
    }
  }

  // ---- Whole runs ---------------------------------------------------------------------

  ghost predicate IsRun(s: State, es: seq<Event>)
    decreases |es|
  {
    es == [] || (Enabled(s, es[0]) && IsRun(Step(s, es[0]), es[1..]))
  }

  ghost function Exec(s: State, es: seq<Event>): State
    requires IsRun(s, es)
    decreases |es|
  {
    if es == [] then s else Exec(Step(s, es[0]), es[1..])
  }

  lemma {:induction false} RunKeepsInv(s: State, es: seq<Event>)
    requires Inv(s) && IsRun(s, es)
    ensures Inv(Exec(s, es))
    decreases |es|
  {
    hide RegistryInv, SendInv, Step, Enabled;
    if es != [] {
      var t := Step(s, es[0]);
      RegistryStep(s, es[0]);
      forall n | n in t.sends ensures SendInv(t, t.sends[n]) { SendStep(s, es[0], n); }
      RunKeepsInv(t, es[1..]);
    }
  }

  lemma {:induction false} InitInv()
    ensures Inv(INIT)
  {
  }

  /** Every failed send is reported for what it was, over every run, rebinds under the same
      name included. */
  lemma {:induction false} ReportsAreSound(es: seq<Event>, n: nat)
    requires IsRun(INIT, es) && n in Exec(INIT, es).sends && Exec(INIT, es).sends[n].Settled?
    ensures Sound(Exec(INIT, es), Exec(INIT, es).sends[n])
  {
    hide RegistryInv, Sound, Step, Enabled;
    InitInv();
    RunKeepsInv(INIT, es);
    assert SendInv(Exec(INIT, es), Exec(INIT, es).sends[n]);
  }

  lemma {:induction false} FirstLiveIsEarliest(history: seq<BindSession>, ended: set<nat>, name: string, b: BindSession, k: nat)
    returns (i: nat)
    requires IsFirstNamed(Live(history, ended), name, b, k)
    ensures i < |history| && history[i] == b && b.session !in ended
    ensures forall j :: 0 <= j < i && history[j].name == name ==> history[j].session in ended
  {
    var h, last := history[..|history| - 1], history[|history| - 1];
    assert forall j :: 0 <= j < |Live(h, ended)| ==> Live(history, ended)[j] == Live(h, ended)[j];
    if k < |Live(h, ended)| {
      assert IsFirstNamed(Live(h, ended), name, b, k);
      i := FirstLiveIsEarliest(h, ended, name, b, k);
    } else {
      i := |history| - 1;
      LiveMembers(h, ended);
      forall j | 0 <= j < i && history[j].name == name ensures history[j].session in ended {
        assert h[j] in h;
        assert h[j] in Live(h, ended) <==> h[j].session !in ended;
      }
    }
  }

  /** `b` is live, and whatever was bound before it under that name has ended. */
  ghost predicate IsEarliestLive(s: State, name: string, b: BindSession, i: nat) {
    && i < |s.history| && s.history[i] == b && b.name == name
    && forall j :: 0 <= j < i && s.history[j].name == name ==> s.history[j].session in s.ended
  }

  lemma {:induction false} LookupIsExact(s: State, name: string)
    requires RegistryInv(s)
    ensures match FindBind(s.binds, name)
      case None => forall b :: b in s.history && b.name == name ==> b.session in s.ended
      case Some(b) => b.session !in s.ended && exists i :: IsEarliestLive(s, name, b, i)
  {
    LiveMembers(s.history, s.ended);
    if FindBind(s.binds, name).Some? {
      var b := FindBind(s.binds, name).value;
      var k :| IsFirstNamed(s.binds, name, b, k);
      var i := FirstLiveIsEarliest(s.history, s.ended, name, b, k);
      assert IsEarliestLive(s, name, b, i);
    }
  }

  /** In every run the registry holds exactly the sessions bound and not yet unbound, in bind
      order; each ended session was announced exactly once, however often its hook ran; and a
      name resolves to the earliest live session that carries it, if there is one. */
  lemma {:induction false} RegistryIsExact(es: seq<Event>, name: string)
    requires IsRun(INIT, es)
    ensures var s := Exec(INIT, es);
      && s.binds == Live(s.history, s.ended)
      && (forall sid :: multiset(s.unbound)[sid] == if sid in s.ended then 1 else 0)
      && match FindBind(s.binds, name)
         case None => forall b :: b in s.history && b.name == name ==> b.session in s.ended
         case Some(b) => b.session !in s.ended && exists i :: IsEarliestLive(s, name, b, i)
  {
    hide SendInv, Step, Enabled;
    InitInv();
    RunKeepsInv(INIT, es);
    LookupIsExact(Exec(INIT, es), name);
  }

  lemma {:induction false} GoneStep(s: State, e: Event, sid: nat)
    requires Enabled(s, e) && WasBound(s, sid) && Gone(s.binds, sid)
    ensures WasBound(Step(s, e), sid) && Gone(Step(s, e).binds, sid)
  {
    hide FindBind, Retain;
    var b :| b in s.history && b.session == sid;
    assert b in Step(s, e).history;
    if e.UnboundHook? { RetainDrops(s.binds, e.sid); }
  }

  /** A handle that is gone never becomes present again. */
  lemma {:induction false} GoneStaysGone(s: State, es: seq<Event>, sid: nat)
    requires IsRun(s, es) && WasBound(s, sid) && Gone(s.binds, sid)
    ensures Gone(Exec(s, es).binds, sid)
    decreases |es|
  {
    hide Step, Enabled, WasBound, Gone;
    if es != [] {
      GoneStep(s, es[0], sid);
      GoneStaysGone(Step(s, es[0]), es[1..], sid);
    }
  }

  // ---- Everything reported does happen ------------------------------------------------

  lemma {:induction false} Extend(s: State, es: seq<Event>, e: Event)
    requires IsRun(s, es) && Enabled(Exec(s, es), e)
    ensures IsRun(s, es + [e]) && Exec(s, es + [e]) == Step(Exec(s, es), e)
    decreases |es|
  {
    hide Step, Enabled;
    if es == [] {
      assert es + [e] == [e] && [e][1..] == [];
    } else {
      assert (es + [e])[1..] == es[1..] + [e] && (es + [e])[0] == es[0];
      Extend(Step(s, es[0]), es[1..], e);
    }
  }

  /** A send on the only session, waiting since the start for `waited`. */
  lemma {:induction false} SendWaits(timer: nat, waited: nat) returns (es: seq<Event>)
    ensures IsRun(INIT, es)
    ensures var b := BindSession("a", 0, timer);
      Exec(INIT, es) == State(waited, [b], [b], {}, [], map[0 := Waiting(0, timer, 0, Some(0))])
  {
    hide Exec, IsRun;
    var b := BindSession("a", 0, timer);
    es := [];
    assert IsRun(INIT, es) && Exec(INIT, es) == INIT by { EmptyRun(); }
    Extend(INIT, es, Bind("a", 0, timer));
    es := es + [Bind("a", 0, timer)];
    assert Exec(INIT, es) == State(0, [b], [b], {}, [], map[]);
    assert b in Exec(INIT, es).binds;
    Extend(INIT, es, Resolve(0, "a"));
    es := es + [Resolve(0, "a")];
    assert Exec(INIT, es) == State(0, [b], [b], {}, [], map[0 := Resolved(0, timer)]);
    Extend(INIT, es, Start(0));
    es := es + [Start(0)];
    assert Exec(INIT, es) == State(0, [b], [b], {}, [], map[0 := Waiting(0, timer, 0, None)]);
    Extend(INIT, es, Arm(0));
    es := es + [Arm(0)];
    assert Exec(INIT, es) == State(0, [b], [b], {}, [], map[0 := Waiting(0, timer, 0, Some(0))]);
    Extend(INIT, es, Tick(waited));
    es := es + [Tick(waited)];
  }

  lemma {:induction false} EmptyRun()
    ensures IsRun(INIT, []) && Exec(INIT, []) == INIT
  {
  }

  /** The session may end meanwhile, and another come up under the same name. */
  lemma {:induction false} MeanwhileEnds(timer: nat, waited: nat, ended: bool, rebound: bool) returns (es: seq<Event>)
    ensures IsRun(INIT, es)
    ensures var s := Exec(INIT, es);
      && s.now == waited && s.sends == map[0 := Waiting(0, timer, 0, Some(0))]
      && (0 in s.ended <==> ended) && (Gone(s.binds, 0) <==> ended)
      && (rebound ==> BindSession("a", 1, timer) in s.binds)
  {
    hide Exec, IsRun;
    es := SendWaits(timer, waited);
    if ended {
      var s := Exec(INIT, es);
      assert WasBound(s, 0) by { assert s.history[0] in s.history; }
      Extend(INIT, es, UnboundHook(0));
      es := es + [UnboundHook(0)];
      RetainDrops(s.binds, 0);
    } else {
      assert Exec(INIT, es).binds[0] in Exec(INIT, es).binds;
    }
    if rebound {
      var s := Exec(INIT, es);
      Extend(INIT, es, Bind("a", 1, timer));
      es := es + [Bind("a", 1, timer)];
    }
  }

  /** Every cause meets every clock reading the codec's facts allow, with and without the
      session having ended and another having come up under its name; and each is reported the
      same way whether or not the name was bound again. */
  lemma {:induction false} CausesHappen(cause: Cause, timer: nat, waited: nat, ended: bool, rebound: bool) returns (es: seq<Event>)
    requires cause.TimerFired? ==> timer <= waited
    requires cause.SessionEnded? ==> ended
    ensures IsRun(INIT, es) && 0 in Exec(INIT, es).sends
    ensures var r := Exec(INIT, es).sends[0];
      && r.Settled? && r.cause == cause && r.waited == waited && r.timer == timer && r.gone == ended
      && r.outcome == if cause.Answered? then Response(cause.status)
                      else if cause.Nacked? && cause.status != 8 then Failed(Nack(cause.status))
                      else if waited >= timer then Failed(Timeout(timer))
                      else if ended then Failed(Closed)
                      else Failed(Unanswered)
  {
    hide Exec, IsRun, Gone;
    es := MeanwhileEnds(timer, waited, ended, rebound);
    Extend(INIT, es, Release(0, cause));
    es := es + [Release(0, cause)];
    assert Exec(INIT, es).sends[0] == Released(0, timer, 0, cause);
    Extend(INIT, es, ReadClock(0));
    es := es + [ReadClock(0)];
    assert Exec(INIT, es).sends[0] == Clocked(0, timer, cause, waited);
    Extend(INIT, es, AskRegistry(0));
    es := es + [AskRegistry(0)];
  }

  // ---- The registry object ------------------------------------------------------------

  /** The registry and its hooks. `unbound` records the session-down dispatches. The object is
      one part of the protocol: `model` is the whole of it, and every hook takes the protocol
      step it stands for. */
  class Registry {
    var binds: seq<BindSession>
    var unbound: seq<nat>
    ghost var model: State

    ghost predicate Valid()
      reads this
    {
      RegistryInv(model) && binds == model.binds && unbound == model.unbound
    }

    constructor ()
      ensures Valid() && model == INIT
    {
      binds, unbound, model := [], [], INIT;
      new;
      InitInv();
    }

    /** Session ids are the codec's and unique. */
    method OnSmscBound(name: string, sid: nat, timer: nat)
      requires Valid() && !WasBound(model, sid)
      modifies this
      ensures Valid() && model == Step(old(model), Bind(name, sid, timer))
      ensures binds == old(binds) + [BindSession(name, sid, timer)] && unbound == old(unbound)
    {
      RegistryStep(model, Bind(name, sid, timer));
      binds := binds + [BindSession(name, sid, timer)];
      model := Step(model, Bind(name, sid, timer));
    }

    /** Scripts hear of the end of a session only when something was removed; a session that
        never was registered changes nothing. */
    method OnSmscUnbound(sid: nat)
      requires Valid()
      modifies this
      ensures Valid()
      ensures model == if WasBound(old(model), sid) then Step(old(model), UnboundHook(sid)) else old(model)
      ensures forall b :: b in binds <==> b in old(binds) && b.session != sid
      ensures unbound == old(unbound) + if exists b :: b in old(binds) && b.session == sid then [sid] else []
    {
      hide Retain, Live, UniqueIds;
      RetainDrops(binds, sid);
      LiveMembers(model.history, model.ended);
      if WasBound(model, sid) {
        RegistryStep(model, UnboundHook(sid));
        model := Step(model, UnboundHook(sid));
      }
      var before := |binds|;
      binds := Retain(binds, sid);
      if before > |binds| {
        unbound := unbound + [sid];
      }
    }

    /** A name resolves to the session bound earliest under it that has not ended, and to
        nothing exactly when all of them have; and it is what the protocol's lookup finds in any
        state with this registry. */
    method BindHandle(name: string) returns (target: Option<BindSession>)
      requires Valid()
      ensures target.None? <==> forall b :: b in model.history && b.name == name ==> b.session in model.ended
      ensures target.Some? ==> target.value.session !in model.ended
                               && exists i :: IsEarliestLive(model, name, target.value, i)
      ensures forall s: State, n: nat :: s.binds == binds && n !in s.sends ==>
        && (target.Some? <==> Enabled(s, Resolve(n, name)))
        && (target.Some? ==>
              Step(s, Resolve(n, name)).sends[n] == Resolved(target.value.session, target.value.responseTimer))
    {
      hide Live, UniqueIds;
      target := FindBind(binds, name);
      LookupIsExact(model, name);
    }

    /** A handle is gone exactly when its session has ended, or never was; that is what the
        protocol finds when it asks on behalf of any send, in any state with this registry. */
    method BindGone(sid: nat) returns (gone: bool)
      requires Valid()
      ensures gone <==> (WasBound(model, sid) ==> sid in model.ended)
      ensures forall s: State, n: nat :: s.binds == binds && Enabled(s, AskRegistry(n)) && s.sends[n].sid == sid ==>
        Step(s, AskRegistry(n)).sends[n].gone == gone
    {
      hide Live, UniqueIds;
      gone := forall b :: b in binds ==> b.session != sid;
      LiveMembers(model.history, model.ended);
      if WasBound(model, sid) && sid !in model.ended {
        ghost var b :| b in model.history && b.session == sid;
        assert b in binds;
      }
    }
  }
}
