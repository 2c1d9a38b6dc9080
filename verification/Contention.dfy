/** Any number of pacing `acquire` callers and non-blocking `try_acquire` callers on one
    limiter, interleaved at the granularity of its mutex. */
module Contention {
  import opened RateLimiting

  /** A pacing caller. An `Asleep` one remembers when it may poll again and how many
      admissions there had been when it fell asleep. */
  datatype Caller = Fresh | Asleep(wake: real, seen: nat) | Served

  /** `admitted` counts every admission, `tries` those of `try_acquire`, `sleeps` every sleep. */
  datatype State = State(bucket: Bucket, callers: seq<Caller>, admitted: nat, tries: nat, sleeps: nat)

  datatype Event = Poll(who: nat, now: real) | Try(now: real)

  /** `n` callers arrive at a bucket in whatever condition it is. */
  function StartAt(b: Bucket, n: nat): State {
    State(b, seq(n, i => Fresh), 0, 0, 0)
  }

  /** The clock is read under the mutex, and a sleeper polls only once its sleep is over. */
  ghost predicate Enabled(s: State, e: Event) {
    && s.bucket.last <= e.now
    && (e.Poll? ==>
          && e.who < |s.callers|
          && !s.callers[e.who].Served?
          && (s.callers[e.who].Asleep? ==> s.callers[e.who].wake <= e.now))
  }

  ghost function Step(s: State, e: Event): State
    requires Enabled(s, e) && s.bucket.refill != 0.0
  {
    var next := s.(bucket := Call(s.bucket, e.now));
    if e.Try? then
      if Admits(s.bucket, e.now) then next.(admitted := s.admitted + 1, tries := s.tries + 1) else next
    else if Admits(s.bucket, e.now) then
      next.(admitted := s.admitted + 1, callers := s.callers[e.who := Served])
    else
      var wake := e.now + Wait(next.bucket.tokens, next.bucket.refill);
      next.(sleeps := s.sleeps + 1, callers := s.callers[e.who := Asleep(wake, s.admitted)])
  }

  /** Callers not yet served, and those among them that may still sleep before the next
      admission: a caller spends this credit when it falls asleep and only an admission by
      somebody else renews it. */
  ghost function Unserved(cs: seq<Caller>): nat {
    if cs == [] then 0 else Unserved(cs[1..]) + if cs[0].Served? then 0 else 1
  }

  ghost predicate HasCredit(c: Caller, admitted: nat) {
    c.Fresh? || (c.Asleep? && c.seen < admitted)
  }

  ghost function Credits(cs: seq<Caller>, admitted: nat): nat {
    if cs == [] then 0 else Credits(cs[1..], admitted) + if HasCredit(cs[0], admitted) then 1 else 0
  }

  ghost function Max(a: real, b: real): real { if a <= b then b else a }

  /** A sleeper nobody has overtaken finds its token as soon as its sleep is over. */
  ghost predicate Ripe(b: Bucket, c: Caller, admitted: nat) {
    c.Asleep? ==> c.seen <= admitted && (c.seen == admitted ==> Admits(b, Max(c.wake, b.last)))
  }

  ghost function Triangle(n: nat): nat { n * (n + 1) / 2 }

  /** What every step keeps. */
  ghost predicate Inv(s: State) {
    Valid(s.bucket) && forall i :: 0 <= i < |s.callers| ==> Ripe(s.bucket, s.callers[i], s.admitted)
  }

  /** Sleeps the remaining callers may still need if no `try_acquire` succeeds any more. */
  ghost function Budget(s: State): nat {
    var u := Unserved(s.callers);
    Credits(s.callers, s.admitted) + if u == 0 then 0 else Triangle(u - 1)
  }

  // ---- Counting -----------------------------------------------------------------------

  lemma {:induction false} CountsAreBounded(cs: seq<Caller>, admitted: nat)
    ensures Credits(cs, admitted) <= Unserved(cs) <= |cs|
  {
    if cs != [] { CountsAreBounded(cs[1..], admitted); }
  }

  lemma {:induction false} CountsAfterUpdate(cs: seq<Caller>, i: nat, c: Caller, admitted: nat)
    requires i < |cs|
    ensures Unserved(cs[i := c]) == Unserved(cs)
      - (if cs[i].Served? then 0 else 1) + (if c.Served? then 0 else 1)
    ensures Credits(cs[i := c], admitted) == Credits(cs, admitted)
      - (if HasCredit(cs[i], admitted) then 1 else 0) + (if HasCredit(c, admitted) then 1 else 0)
  {
    if i > 0 {
      assert cs[i := c][1..] == cs[1..][i - 1 := c];
      CountsAfterUpdate(cs[1..], i - 1, c, admitted);
    } else {
      assert cs[i := c][1..] == cs[1..];
    }
  }

  lemma {:induction false} AllFresh(cs: seq<Caller>, admitted: nat)
    requires forall i :: 0 <= i < |cs| ==> cs[i] == Fresh
    ensures Unserved(cs) == |cs| == Credits(cs, admitted)
  {
    if cs != [] { AllFresh(cs[1..], admitted); }
  }

  lemma {:induction false} TriangleStep(n: nat)
    ensures Triangle(n + 1) == Triangle(n) + n + 1
  {
    assert (n + 1) * (n + 2) == n * (n + 1) + 2 * (n + 1);
  }

  // ---- One step -----------------------------------------------------------------------

  /** Whoever wakes after its sleep and still finds less than one token was overtaken: some
      admission happened since it fell asleep. */
  lemma {:induction false} FailedPollWasOvertaken(s: State, who: nat, now: real)
    requires Inv(s) && Enabled(s, Poll(who, now)) && !Admits(s.bucket, now)
    ensures HasCredit(s.callers[who], s.admitted)
  {
    hide Refilled;
    var c := s.callers[who];
    assert Ripe(s.bucket, c, s.admitted);
    if c.Asleep? && c.seen == s.admitted {
      AdmitsIsMonotone(s.bucket, Max(c.wake, s.bucket.last), now);
    }
  }

  lemma {:induction false} RipenessSurvivesFailure(b: Bucket, c: Caller, admitted: nat, now: real)
    requires Valid(b) && b.last <= now && !Admits(b, now) && Ripe(b, c, admitted)
    ensures Ripe(Call(b, now), c, admitted)
  {
    hide Gain;
    if c.Asleep? && c.seen == admitted {
      var at := Max(c.wake, b.last);
      if at <= now {
        AdmitsIsMonotone(b, at, now);
      } else {
        RefillIsPathIndependent(b, now, at);
      }
    }
  }

  lemma {:induction false} StepKeepsRipeness(s: State, e: Event)
    requires Inv(s) && Enabled(s, e)
    ensures Inv(Step(s, e))
  {
    hide Gain, Wait;
    var t := Step(s, e);
    CallKeepsValid(s.bucket, e.now);
    forall i | 0 <= i < |t.callers| ensures Ripe(t.bucket, t.callers[i], t.admitted) {
      assert Ripe(s.bucket, s.callers[i], s.admitted);
      if !Admits(s.bucket, e.now) {
        RipenessSurvivesFailure(s.bucket, s.callers[i], s.admitted, e.now);
        if e.Poll? && i == e.who {
          WaitIsExact(t.bucket.tokens, t.bucket.refill);
          SleepSuffices(t.bucket, t.callers[i].wake);
        }
      }
    }
  }

  lemma {:induction false} TrySpends(s: State, e: Event)
    requires Enabled(s, e) && e.Try? && s.bucket.refill != 0.0
    ensures var t := Step(s, e);
      && t.callers == s.callers && t.sleeps == s.sleeps
      && (t == s.(bucket := t.bucket) || (t.tries == s.tries + 1 && Budget(t) <= Budget(s) + Unserved(s.callers)))
  {
    hide Admits, Triangle, Call, Unserved, Credits;
    CountsAreBounded(s.callers, s.admitted);
    CountsAreBounded(s.callers, s.admitted + 1);
  }

  lemma {:induction false} PollSpends(s: State, e: Event)
    requires Inv(s) && Enabled(s, e) && e.Poll?
    ensures var t := Step(s, e);
      && |t.callers| == |s.callers| && t.tries == s.tries
      && if Admits(s.bucket, e.now)
         then t.sleeps == s.sleeps && Unserved(t.callers) == Unserved(s.callers) - 1 && Budget(t) <= Budget(s)
         else t.sleeps == s.sleeps + 1 && Unserved(t.callers) == Unserved(s.callers) && Budget(t) == Budget(s) - 1
  {
    hide Ripe, Admits, Triangle, Call, Wait, Unserved, Credits;
    var t := Step(s, e);
    CountsAreBounded(s.callers, s.admitted);
    CountsAreBounded(t.callers, t.admitted);
    CountsAfterUpdate(s.callers, e.who, t.callers[e.who], s.admitted);
    var u := Unserved(s.callers);
    if Admits(s.bucket, e.now) {
      if u >= 2 { TriangleStep((u - 2) as nat); }
    } else {
      FailedPollWasOvertaken(s, e.who, e.now);
    }
  }

  /** One step: a sleep is paid for out of the budget, an admitted `try_acquire` raises it by
      at most one sleep for each caller still waiting, and nothing else raises it. */
  lemma {:induction false} StepSpendsBudget(s: State, e: Event)
    requires Inv(s) && Enabled(s, e)
    ensures var t := Step(s, e);
      && |t.callers| == |s.callers| && Unserved(t.callers) <= Unserved(s.callers)
      && s.sleeps <= t.sleeps && s.tries <= t.tries
      && t.sleeps - s.sleeps + Budget(t) <= Budget(s) + Unserved(s.callers) * (t.tries - s.tries)
      && (e.Poll? ==> t.tries == s.tries
                      && t.sleeps - s.sleeps + Unserved(s.callers) - Unserved(t.callers) == 1)
      && (e.Try? ==> t.sleeps == s.sleeps && t.callers == s.callers)
  {
    hide Step, Admits, Unserved, Credits, Triangle;
    if e.Try? { TrySpends(s, e); } else { PollSpends(s, e); }
    assert Unserved(s.callers) * 0 == 0 && Unserved(s.callers) * 1 == Unserved(s.callers);
  }

  // ---- Whole runs ---------------------------------------------------------------------

  ghost predicate IsRun(s: State, es: seq<Event>)
    decreases |es|
  {
    s.bucket.refill != 0.0 && (es == [] || (Enabled(s, es[0]) && IsRun(Step(s, es[0]), es[1..])))
  }

  ghost function Exec(s: State, es: seq<Event>): State
    requires IsRun(s, es)
    decreases |es|
  {
    if es == [] then s else Exec(Step(s, es[0]), es[1..])
  }

  ghost function Polls(es: seq<Event>): nat {
    if es == [] then 0 else Polls(es[1..]) + if es[0].Poll? then 1 else 0
  }

  /** Progress under contention. Take any state in which pacing callers wait, whatever is left
      in the bucket, and any run from there in which `m` `try_acquire` callers get through.
      The sleeps that happen, and those still outstanding, are covered by the budget plus `m`
      for each waiting caller, and every poll either sleeps or serves its caller. */
  lemma {:induction false} SleepsAreBounded(s: State, es: seq<Event>)
    requires Inv(s) && IsRun(s, es)
    ensures var t := Exec(s, es);
      && Inv(t) && |t.callers| == |s.callers| && Unserved(t.callers) <= Unserved(s.callers)
      && s.sleeps <= t.sleeps && s.tries <= t.tries
      && t.sleeps - s.sleeps + Budget(t) <= Budget(s) + Unserved(s.callers) * (t.tries - s.tries)
      && Polls(es) == t.sleeps - s.sleeps + Unserved(s.callers) - Unserved(t.callers)
    decreases |es|
  {
    hide Inv, Step, Enabled, Budget, Unserved;
    if es != [] {
      var r := Step(s, es[0]);
      StepKeepsRipeness(s, es[0]);
      StepSpendsBudget(s, es[0]);
      SleepsAreBounded(r, es[1..]);
      var t := Exec(s, es);
      SplitTries(Unserved(s.callers), Unserved(r.callers), r.tries - s.tries, t.tries - r.tries);
    }
  }

  lemma {:induction false} SplitTries(u: nat, v: nat, a: nat, b: nat)
    requires v <= u
    ensures u * a + v * b <= u * (a + b)
  {
    assert v * b <= u * b;
  }

  lemma {:induction false} StartInv(b: Bucket, n: nat)
    requires Valid(b)
    ensures Inv(StartAt(b, n)) && Unserved(StartAt(b, n).callers) == n && Budget(StartAt(b, n)) == Triangle(n)
  {
    AllFresh(StartAt(b, n).callers, 0);
    if n > 0 { TriangleStep((n - 1) as nat); }
  }

  /** `n` pacing callers that meet any bucket, empty or full, beside `m` `try_acquire` callers
      that get through, sleep at most `n(n+1)/2 + nm` times in all. While one of them is not
      served, they have polled less than `n` times more than that. */
  lemma {:induction false} CallersSleepThisOften(b: Bucket, n: nat, es: seq<Event>)
    requires Valid(b) && IsRun(StartAt(b, n), es)
    ensures var t := Exec(StartAt(b, n), es);
      && t.sleeps <= Triangle(n) + n * t.tries
      && Polls(es) <= n + Triangle(n) + n * t.tries
      && (Unserved(t.callers) > 0 ==> Polls(es) < n + Triangle(n) + n * t.tries)
  {
    hide Triangle, Inv;
    StartInv(b, n);
    SleepsAreBounded(StartAt(b, n), es);
  }

  /** Nothing blocks an unserved caller but the clock. */
  lemma {:induction false} UnservedCallerCanPoll(s: State, who: nat) returns (now: real)
    requires who < |s.callers| && !s.callers[who].Served?
    ensures Enabled(s, Poll(who, now))
  {
    var c := s.callers[who];
    now := if c.Asleep? then Max(c.wake, s.bucket.last) else s.bucket.last;
  }

  lemma {:induction false} SomeoneWaits(cs: seq<Caller>) returns (who: nat)
    requires Unserved(cs) > 0
    ensures who < |cs| && !cs[who].Served?
  {
    who := 0;
    if cs[0].Served? {
      var i := SomeoneWaits(cs[1..]);
      who := i + 1;
    }
  }

  ghost predicate OnlyPolls(es: seq<Event>) {
    forall i :: 0 <= i < |es| ==> es[i].Poll?
  }

  /** From when on caller `i` may poll. */
  ghost function ReadyAt(s: State, i: nat): real
    requires i < |s.callers|
  {
    if s.callers[i].Asleep? then Max(s.callers[i].wake, s.bucket.last) else s.bucket.last
  }

  /** A poll that keeps nobody waiting: it comes no later than any waiting caller is ready. */
  ghost predicate Prompt(s: State, e: Event) {
    e.Poll? && forall i :: 0 <= i < |s.callers| && !s.callers[i].Served? ==> e.now <= ReadyAt(s, i)
  }

  ghost predicate PromptRun(s: State, es: seq<Event>)
    requires IsRun(s, es)
    decreases |es|
  {
    es == [] || (Prompt(s, es[0]) && PromptRun(Step(s, es[0]), es[1..]))
  }

  lemma {:induction false} Earliest(s: State, n: nat) returns (who: nat)
    requires n <= |s.callers| && exists i :: 0 <= i < n && !s.callers[i].Served?
    ensures who < n && !s.callers[who].Served?
    ensures forall i :: 0 <= i < n && !s.callers[i].Served? ==> ReadyAt(s, who) <= ReadyAt(s, i)
  {
    hide ReadyAt;
    var m := n - 1;
    if exists i :: 0 <= i < m && !s.callers[i].Served? {
      who := Earliest(s, m);
      if !s.callers[m].Served? && ReadyAt(s, m) < ReadyAt(s, who) { who := m; }
    } else {
      who := m;
    }
  }

  /** Everybody is served in the end. From any state, keeping on polling whoever is ready first
      serves all callers, within one poll for each budgeted sleep and one for each caller. */
  lemma {:induction false} AllCallersFinish(s: State) returns (es: seq<Event>)
    requires Inv(s)
    ensures IsRun(s, es) && PromptRun(s, es) && Unserved(Exec(s, es).callers) == 0
    ensures |es| <= Budget(s) + Unserved(s.callers)
    decreases Budget(s) + Unserved(s.callers)
  {
    hide Budget, Step, Unserved, Ripe;
    es := [];
    if Unserved(s.callers) > 0 {
      var some := SomeoneWaits(s.callers);
      var who := Earliest(s, |s.callers|);
      var e := Poll(who, ReadyAt(s, who));
      StepKeepsRipeness(s, e);
      StepSpendsBudget(s, e);
      var rest := AllCallersFinish(Step(s, e));
      es := [e] + rest;
      assert es[1..] == rest;
    }
  }

  /** A caller nobody competes with, at any bucket: it sleeps once if the bucket has no token
      for its first poll and not at all otherwise, and the next poll serves it. */
  lemma {:induction false} UncontestedSleepsOnce(b: Bucket, es: seq<Event>)
    requires Valid(b) && IsRun(StartAt(b, 1), es) && OnlyPolls(es) && es != []
    ensures var t, slept := Exec(StartAt(b, 1), es), if Admits(b, es[0].now) then 0 else 1;
      && t.sleeps == slept
      && |es| <= 1 + slept
      && (t.callers == [Served] <==> |es| == 1 + slept)
  {
    hide Admits, Call, Wait;
    var s := StartAt(b, 1);
    StartInv(b, 1);
    StepKeepsRipeness(s, es[0]);
    var t, rest := Step(s, es[0]), es[1..];
    assert IsRun(t, rest) && Exec(s, es) == Exec(t, rest);
    assert if Admits(b, es[0].now) then t.callers == [Served] else t.callers[0].Asleep?;
    if rest != [] {
      if !Admits(t.bucket, rest[0].now) { FailedPollWasOvertaken(t, rest[0].who, rest[0].now); }
      var u := Step(t, rest[0]);
      assert u.callers == [Served] && u.sleeps == 1;
      assert IsRun(u, rest[1..]) && Exec(t, rest) == Exec(u, rest[1..]);
    }
  }

  // ---- How long it takes --------------------------------------------------------------

  /** A sleeper wakes no later than the bucket could next hold a whole token. */
  ghost predicate NotLate(b: Bucket, c: Caller) {
    c.Asleep? ==> b.tokens + Gain(b.refill, c.wake - b.last) <= 1.0
  }

  lemma {:induction false} CallKeepsNotLate(b: Bucket, c: Caller, now: real)
    requires NotLate(b, c)
    ensures NotLate(Call(b, now), c)
  {
    hide Gain;
    if c.Asleep? {
      GainAdds(b.refill, now - b.last, c.wake - now);
      assert now - b.last + (c.wake - now) == c.wake - b.last;
    }
  }

  lemma {:induction false} SleeperIsNotLate(b: Bucket, seen: nat)
    requires Valid(b) && b.tokens < 1.0
    ensures NotLate(b, Asleep(b.last + Wait(b.tokens, b.refill), seen))
  {
    hide Gain, Wait;
    WaitIsExact(b.tokens, b.refill);
    assert b.last + Wait(b.tokens, b.refill) - b.last == Wait(b.tokens, b.refill);
  }

  /** Until a prompt poll nothing is lost to the cap, and if time passed at all the bucket has
      at most the one token the poller waited for. */
  lemma {:induction false} PromptLosesNothing(s: State, e: Event)
    requires Valid(s.bucket) && Enabled(s, e) && Prompt(s, e)
    requires forall i :: 0 <= i < |s.callers| ==> NotLate(s.bucket, s.callers[i])
    ensures var level := s.bucket.tokens + Gain(s.bucket.refill, e.now - s.bucket.last);
      Refilled(s.bucket, e.now).tokens == level && (s.bucket.last < e.now ==> level <= 1.0)
  {
    hide Gain;
    var b, c := s.bucket, s.callers[e.who];
    GainGrows(b.refill, 0.0, 0.0);
    assert e.now <= ReadyAt(s, e.who);
    if b.last < e.now {
      assert NotLate(b, c);
      GainGrows(b.refill, e.now - b.last, c.wake - b.last);
    } else {
      assert e.now - b.last == 0.0;
    }
  }

  /** Where `n` prompt callers stand that met bucket `b`: every token that came was handed out
      or is there, and once time has passed there is less than one. */
  ghost predicate OnTime(s: State, b: Bucket, n: nat) {
    && Valid(s.bucket) && s.bucket.refill == b.refill && b.last <= s.bucket.last
    && |s.callers| == n && s.admitted + Unserved(s.callers) == n
    && (forall i :: 0 <= i < n ==> NotLate(s.bucket, s.callers[i]))
    && s.bucket.tokens + s.admitted as real == b.tokens + Gain(b.refill, s.bucket.last - b.last)
    && (b.last < s.bucket.last ==> s.bucket.tokens < 1.0 && (Unserved(s.callers) == 0 ==> s.bucket.tokens == 0.0))
  }

  lemma {:induction false} StepKeepsSleepers(s: State, e: Event)
    requires Valid(s.bucket) && Enabled(s, e)
    requires forall i :: 0 <= i < |s.callers| ==> NotLate(s.bucket, s.callers[i])
    ensures var t := Step(s, e);
      Valid(t.bucket) && forall i :: 0 <= i < |t.callers| ==> NotLate(t.bucket, t.callers[i])
  {
    hide Gain, Wait, NotLate, Refilled;
    var t := Step(s, e);
    CallKeepsValid(s.bucket, e.now);
    forall i | 0 <= i < |t.callers| ensures NotLate(t.bucket, t.callers[i]) {
      CallKeepsNotLate(s.bucket, s.callers[i], e.now);
      if e.Poll? && i == e.who {
        if Admits(s.bucket, e.now) { ServedIsNotLate(t.bucket); } else { SleeperIsNotLate(t.bucket, s.admitted); }
      }
    }
  }

  lemma {:induction false} ServedIsNotLate(b: Bucket)
    ensures NotLate(b, Served)
  {
  }

  lemma {:induction false} StepStaysOnTime(s: State, e: Event, b: Bucket, n: nat)
    requires OnTime(s, b, n) && Enabled(s, e) && Prompt(s, e)
    ensures OnTime(Step(s, e), b, n)
  {
    hide Gain, Wait, NotLate, Unserved, ReadyAt;
    var t := Step(s, e);
    StepKeepsSleepers(s, e);
    PromptLosesNothing(s, e);
    CountsAfterUpdate(s.callers, e.who, t.callers[e.who], s.admitted);
    CountsAfterUpdate(s.callers, e.who, Served, s.admitted);
    GainAdds(b.refill, s.bucket.last - b.last, e.now - s.bucket.last);
    GainGrows(b.refill, 0.0, 0.0);
    assert s.bucket.last - b.last + (e.now - s.bucket.last) == e.now - b.last;
    assert s.bucket.last == e.now ==> e.now - s.bucket.last == 0.0;
  }

  lemma {:induction false} RunStaysOnTime(s: State, es: seq<Event>, b: Bucket, n: nat)
    requires OnTime(s, b, n) && IsRun(s, es) && PromptRun(s, es)
    ensures OnTime(Exec(s, es), b, n)
    decreases |es|
  {
    hide OnTime, Step, Enabled, Prompt;
    if es != [] {
      StepStaysOnTime(s, es[0], b, n);
      RunStaysOnTime(Step(s, es[0]), es[1..], b, n);
    }
  }

  /** Whatever the schedule, and whoever else calls, nobody is served out of tokens that were
      not there and have not come. */
  lemma {:induction false} NoScheduleIsFaster(s: State, es: seq<Event>)
    requires Valid(s.bucket) && IsRun(s, es)
    ensures var t := Exec(s, es);
      && Valid(t.bucket) && t.bucket.refill == s.bucket.refill && s.bucket.last <= t.bucket.last
      && t.bucket.tokens + (t.admitted - s.admitted) as real
         <= s.bucket.tokens + Gain(s.bucket.refill, t.bucket.last - s.bucket.last)
    decreases |es|
  {
    hide Gain, Wait;
    GainGrows(s.bucket.refill, 0.0, 0.0);
    if es != [] {
      var r, e := Step(s, es[0]), es[0];
      CallKeepsValid(s.bucket, e.now);
      NoScheduleIsFaster(r, es[1..]);
      var t := Exec(s, es);
      GainAdds(s.bucket.refill, e.now - s.bucket.last, t.bucket.last - e.now);
      assert e.now - s.bucket.last + (t.bucket.last - e.now) == t.bucket.last - s.bucket.last;
    }
  }

  /** The time it takes. `n` callers that meet any bucket and poll promptly are all served the
      moment the bucket has had `n` tokens, counting what it held: at once if it held them. No
      schedule can do better, and while one is unserved that moment is still to come. */
  lemma {:induction false} ServedOnTime(b: Bucket, n: nat, es: seq<Event>)
    requires Valid(b) && IsRun(StartAt(b, n), es) && PromptRun(StartAt(b, n), es)
    ensures var t := Exec(StartAt(b, n), es);
      var gained, missing := Gain(b.refill, t.bucket.last - b.last), n as real - b.tokens;
      && (Unserved(t.callers) == 0 ==> gained == if missing <= 0.0 then 0.0 else missing)
      && (Unserved(t.callers) > 0 ==> gained == 0.0 || gained < missing)
  {
    hide Gain, Step, Enabled, NotLate, Prompt, Unserved;
    var s := StartAt(b, n);
    AllFresh(s.callers, 0);
    GainGrows(b.refill, 0.0, 0.0);
    assert OnTime(s, b, n) by { FreshIsNotLate(b); }
    RunStaysOnTime(s, es, b, n);
    var t := Exec(s, es);
    GainGrows(b.refill, 0.0, t.bucket.last - b.last);
  }

  lemma {:induction false} FreshIsNotLate(b: Bucket)
    ensures NotLate(b, Fresh)
  {
  }

  // ---- The bound is attained ----------------------------------------------------------

  lemma {:induction false} RunAppend(s: State, xs: seq<Event>, ys: seq<Event>)
    requires IsRun(s, xs) && IsRun(Exec(s, xs), ys)
    ensures IsRun(s, xs + ys) && Exec(s, xs + ys) == Exec(Exec(s, xs), ys)
    decreases |xs|
  {
    hide Step, Enabled;
    if xs == [] {
      assert xs + ys == ys;
    } else {
      assert (xs + ys)[1..] == xs[1..] + ys && (xs + ys)[0] == xs[0];
      RunAppend(Step(s, xs[0]), xs[1..], ys);
    }
  }

  /** The bucket is empty and every caller from `k` on may poll. */
  ghost predicate Drained(s: State, k: nat) {
    && Valid(s.bucket) && s.bucket.tokens == 0.0 && k <= |s.callers|
    && (forall i :: k <= i < |s.callers| ==>
          !s.callers[i].Served? && (s.callers[i].Asleep? ==> s.callers[i].wake <= s.bucket.last))
  }

  lemma {:induction false} EmptyStaysEmpty(b: Bucket)
    requires Valid(b) && b.tokens == 0.0
    ensures !Admits(b, b.last) && Call(b, b.last) == b
  {
    hide Gain;
    GainGrows(b.refill, 0.0, 0.0);
  }

  lemma {:induction false} OneTokenLater(b: Bucket)
    requires Valid(b) && b.tokens == 0.0
    ensures var w := b.last + Wait(0.0, b.refill);
      Admits(b, w) && Call(b, w) == b.(last := w) && b.last <= w
  {
    hide Gain, Wait;
    WaitIsExact(b.tokens, b.refill);
    var w := b.last + Wait(0.0, b.refill);
    assert w - b.last == Wait(0.0, b.refill);
  }

  /** Everybody from caller `j` on polls in vain and goes to sleep. */
  lemma {:induction false} Sweep(s: State, j: nat) returns (es: seq<Event>)
    requires Drained(s, j)
    ensures IsRun(s, es)
    ensures var t := Exec(s, es);
      && t.bucket == s.bucket && t.tries == s.tries && t.sleeps == s.sleeps + |s.callers| - j
      && |t.callers| == |s.callers| && t.callers[..j] == s.callers[..j]
      && forall i :: j <= i < |t.callers| ==>
           t.callers[i].Asleep? && t.callers[i].wake == s.bucket.last + Wait(0.0, s.bucket.refill)
    decreases |s.callers| - j
  {
    hide Admits, Call, Wait;
    es := [];
    if j < |s.callers| {
      var e := Poll(j, s.bucket.last);
      EmptyStaysEmpty(s.bucket);
      var r := Step(s, e);
      var rest := Sweep(r, j + 1);
      es := [e] + rest;
      assert es[1..] == rest;
      var t := Exec(s, es);
      assert t.callers[j] == t.callers[..j + 1][j] == r.callers[j];
      assert t.callers[..j] == t.callers[..j + 1][..j] == r.callers[..j] == s.callers[..j];
    }
  }

  /** The next token after everybody fell asleep goes to `e`. */
  lemma {:induction false} OneGetsThrough(s: State, k: nat, e: Event)
    requires Valid(s.bucket) && s.bucket.tokens == 0.0 && k <= |s.callers|
    requires e.now == s.bucket.last + Wait(0.0, s.bucket.refill)
    requires forall i :: k <= i < |s.callers| ==> s.callers[i].Asleep? && s.callers[i].wake == e.now
    requires e.Poll? ==> e.who == k < |s.callers|
    ensures Enabled(s, e) && Step(s, e).sleeps == s.sleeps
    ensures if e.Try?
      then Step(s, e).callers == s.callers && Step(s, e).tries == s.tries + 1 && Drained(Step(s, e), k)
      else Step(s, e).callers == s.callers[k := Served] && Step(s, e).tries == s.tries && Drained(Step(s, e), k + 1)
  {
    hide Admits, Call, Wait;
    OneTokenLater(s.bucket);
  }

  lemma {:induction false} AllServed(cs: seq<Caller>)
    requires forall i :: 0 <= i < |cs| ==> cs[i].Served?
    ensures Unserved(cs) == 0
  {
    if cs != [] { AllServed(cs[1..]); }
  }

  /** The worst schedule: everybody polls in vain, then one caller, a `try_acquire` while some
      are left, takes the next token. */
  lemma {:induction false} Worst(s: State, k: nat, m: nat) returns (es: seq<Event>)
    requires Drained(s, k) && forall i :: 0 <= i < k ==> s.callers[i].Served?
    ensures IsRun(s, es)
    ensures var t := Exec(s, es);
      && t.tries == s.tries + m && Unserved(t.callers) == 0
      && t.sleeps == s.sleeps + Triangle(|s.callers| - k) + (|s.callers| - k) * m
    decreases |s.callers| - k, m
  {
    hide Triangle, Step, Enabled, Wait;
    var left: nat := |s.callers| - k;
    if left == 0 && m == 0 {
      AllServed(s.callers);
      es := [];
      assert Triangle(0) == 0 by { TriangleOfZero(); }
    } else {
      var sweep := Sweep(s, k);
      var r := Exec(s, sweep);
      assert forall i :: 0 <= i < k ==> r.callers[i] == r.callers[..k][i] == s.callers[i];
      var at := s.bucket.last + Wait(0.0, s.bucket.refill);
      var e := if m > 0 then Try(at) else Poll(k, at);
      OneGetsThrough(r, k, e);
      var rest: seq<Event>;
      if m > 0 {
        rest := Worst(Step(r, e), k, m - 1);
        assert left * m == left * (m - 1) + left;
      } else {
        rest := Worst(Step(r, e), k + 1, 0);
        TriangleStep(left - 1);
      }
      assert ([e] + rest)[1..] == rest;
      RunAppend(s, sweep, [e] + rest);
      es := sweep + ([e] + rest);
    }
  }

  lemma {:induction false} TriangleOfZero()
    ensures Triangle(0) == 0
  {
  }

  /** The bound of `CallersSleepThisOften` is the best possible: for any numbers of callers and
      of successful `try_acquire` calls, some run on an empty bucket sleeps exactly so often. */
  lemma {:induction false} BoundIsAttained(b: Bucket, n: nat, m: nat) returns (es: seq<Event>)
    requires Valid(b) && b.tokens == 0.0
    ensures IsRun(StartAt(b, n), es)
    ensures var t := Exec(StartAt(b, n), es);
      && t.tries == m && Unserved(t.callers) == 0
      && t.sleeps == Triangle(n) + n * m && Polls(es) == n + Triangle(n) + n * m
  {
    hide Triangle, Step, Enabled, Polls;
    es := Worst(StartAt(b, n), 0, m);
    StartInv(b, n);
    SleepsAreBounded(StartAt(b, n), es);
  }
}
