/** The per-bind reconnect supervisor. Times are milliseconds. */
module BindSupervisor {
  import opened Text

  const BIND_DEADLINE: nat := 15000
  const HEALTHY_THRESHOLD: nat := 30000
  const POLL_INTERVAL: nat := 1000
  const FIRST_BACKOFF: nat := 1000
  const MAX_BACKOFF: nat := 60000

  /** What became of the session of an attempt: it never came up, or it was up from one instant
      until another. Instants count from the start of the attempt. */
  datatype Life = NeverUp | Up(from: nat, to: nat)

  /** One attempt: its session, when the connect was refused if it was, and the instants at
      which the supervisor looks, as far as they are described; after that it goes on looking
      once per poll interval. */
  datatype Attempt = Attempt(life: Life, refused: Option<nat>, looks: seq<nat>)

  /** The instant of look `i`. */
  function At(a: Attempt, i: nat): nat {
    if i < |a.looks| then a.looks[i]
    else (if a.looks == [] then 0 else a.looks[|a.looks| - 1]) + (i - |a.looks| + 1) * POLL_INTERVAL
  }

  /** What `is_alive` answers at look `i`. */
  predicate Alive(a: Attempt, i: nat) {
    a.life.Up? && a.life.from <= At(a, i) < a.life.to
  }

  predicate Refused(a: Attempt, i: nat) {
    a.refused.Some? && a.refused.value <= At(a, i)
  }

  predicate AwaitingBind(a: Attempt, i: nat) {
    !Alive(a, i) && !Refused(a, i) && At(a, i) < BIND_DEADLINE
  }

  /** The attempt resolves at look `r`: the session is up, the connect was refused or the
      deadline ran out, and not before. */
  ghost predicate ResolvesAt(a: Attempt, r: nat) {
    !AwaitingBind(a, r) && forall i :: 0 <= i < r ==> AwaitingBind(a, i)
  }

  /** The session seen at look `b` is first found dead at look `d`. */
  ghost predicate DiesAt(a: Attempt, b: nat, d: nat) {
    b < d && !Alive(a, d) && forall i :: b < i < d ==> Alive(a, i)
  }

  /** The looks past the described ones run on for ever. */
  lemma {:induction false} LooksRunOn(a: Attempt, i: nat)
    requires |a.looks| <= i
    ensures At(a, i) >= i - |a.looks|
    ensures i >= |a.looks| + BIND_DEADLINE / POLL_INTERVAL ==> At(a, i) >= BIND_DEADLINE
  {
  }

  /** The look at which an attempt resolves, searching from `i`. */
  ghost function Resolution(a: Attempt, i: nat): (r: nat)
    requires forall j :: 0 <= j < i ==> AwaitingBind(a, j)
    ensures i <= r && ResolvesAt(a, r)
    decreases |a.looks| + BIND_DEADLINE - i
  {
    if !AwaitingBind(a, i) then i
    else
      assert i < |a.looks| + BIND_DEADLINE by { if |a.looks| <= i { LooksRunOn(a, i); } }
      Resolution(a, i + 1)
  }

  /** The look at which a session seen at `b` is found dead, searching from `i`. */
  ghost function Death(a: Attempt, b: nat, i: nat): (d: nat)
    requires b < i && forall j :: b < j < i ==> Alive(a, j)
    ensures i <= d && DiesAt(a, b, d)
    decreases if a.life.Up? then |a.looks| + a.life.to - i else 0
  {
    if !Alive(a, i) then i
    else
      assert i < |a.looks| + a.life.to by { if |a.looks| <= i { LooksRunOn(a, i); } }
      Death(a, b, i + 1)
  }

  /** How one cycle ended: never bound, or a session held for some time. */
  datatype Cycle = NeverBound | Held(ms: int)

  /** Whether a cycle counts as bound is decided by the look after the one that ended the
      wait, and its length by the look that found it dead. */
  ghost function CycleOf(a: Attempt): Cycle {
    var b := Resolution(a, 0) + 1;
    if Alive(a, b) then Held(At(a, Death(a, b, b + 1)) - At(a, b)) else NeverBound
  }

  /** The two polling phases of one cycle. */
  method RunAttempt(a: Attempt) returns (c: Cycle)
    ensures c == CycleOf(a)
  {
    var i := 0;
    while AwaitingBind(a, i)
      invariant forall j :: 0 <= j < i ==> AwaitingBind(a, j)
      invariant Resolution(a, 0) == Resolution(a, i)
      decreases |a.looks| + BIND_DEADLINE - i
    {
      if |a.looks| <= i { LooksRunOn(a, i); }
      i := i + 1;
    }
    var b := i + 1;
    if !Alive(a, b) {
      return NeverBound;
    }
    var d := b + 1;
    while Alive(a, d)
      invariant b < d && forall j :: b < j < d ==> Alive(a, j)
      invariant Death(a, b, b + 1) == Death(a, b, d)
      decreases |a.looks| + a.life.to - d
    {
      if |a.looks| <= d { LooksRunOn(a, d); }
      d := d + 1;
    }
    c := Held(At(a, d) - At(a, b));
  }

  /** A refused connect, or a session that is up, ends the wait at the look that sees it. */
  lemma {:induction false} WaitEndsAtOnce(a: Attempt, i: nat)
    requires (a.refused.Some? && a.refused.value <= At(a, i)) || (a.life.Up? && a.life.from <= At(a, i) < a.life.to)
    ensures Resolution(a, 0) <= i
  {
    assert i < Resolution(a, 0) ==> AwaitingBind(a, i);
  }

  /** The wait is given up after fifteen seconds, and not before: an attempt whose session is
      not up and that was not refused is looked at again while less than 15 s have passed. */
  lemma {:induction false} WaitsFifteenSeconds(a: Attempt, i: nat)
    ensures At(a, i) >= 15000 ==> Resolution(a, 0) <= i
    ensures (forall j :: 0 <= j <= i ==>
               && At(a, j) < 15000
               && !(a.refused.Some? && a.refused.value <= At(a, j))
               && !(a.life.Up? && a.life.from <= At(a, j) < a.life.to)) ==> Resolution(a, 0) > i
  {
    var r := Resolution(a, 0);
    assert ResolvesAt(a, r);
    assert i < r ==> AwaitingBind(a, i);
  }

  /** With a second slept between looks, no attempt is polled more than fifteen times before it
      resolves. */
  lemma {:induction false} WaitIsBounded(a: Attempt)
    requires forall i :: 0 <= i < Resolution(a, 0) ==> At(a, i) + 1000 <= At(a, i + 1)
    ensures Resolution(a, 0) <= 15
  {
    var r := Resolution(a, 0);
    if r > 0 { ElapsedAt(a, r, r - 1); assert AwaitingBind(a, r - 1); }
  }

  lemma {:induction false} ElapsedAt(a: Attempt, r: nat, i: nat)
    requires i <= r && forall j :: 0 <= j < r ==> At(a, j) + POLL_INTERVAL <= At(a, j + 1)
    ensures i * POLL_INTERVAL <= At(a, i)
  {
    if i > 0 { ElapsedAt(a, r, i - 1); }
  }

  // ---- Which sessions the reconnect counter counts ------------------------------------

  /** The clock does not run backwards between looks. */
  ghost predicate Ordered(a: Attempt) {
    forall i, j :: 0 <= i < j < |a.looks| ==> a.looks[i] <= a.looks[j]
  }

  lemma {:induction false} LooksAreOrdered(a: Attempt, i: nat, j: nat)
    requires Ordered(a) && i <= j
    ensures At(a, i) <= At(a, j)
  {
  }

  /** The first look, from `i` on, at or after the instant the session came up. */
  ghost function FirstLook(a: Attempt, i: nat): (k: nat)
    requires a.life.Up? && forall j :: 0 <= j < i ==> At(a, j) < a.life.from
    ensures At(a, k) >= a.life.from && forall j :: 0 <= j < k ==> At(a, j) < a.life.from
    decreases |a.looks| + a.life.from - i
  {
    if At(a, i) >= a.life.from then i
    else
      assert i < |a.looks| + a.life.from by { if |a.looks| <= i { LooksRunOn(a, i); } }
      FirstLook(a, i + 1)
  }

  ghost predicate CameUp(a: Attempt) { a.life.Up? }

  ghost predicate Counted(a: Attempt) { CycleOf(a).Held? }

  /** At look `i` the supervisor would stop waiting for a session it does not see. */
  ghost predicate GivesUp(a: Attempt, i: nat) {
    Refused(a, i) || At(a, i) >= BIND_DEADLINE
  }

  ghost predicate PatientBefore(a: Attempt, k: int) {
    forall i :: 0 <= i < k ==> !GivesUp(a, i)
  }

  /** The session came up and was down again before the next look. */
  ghost predicate FellBetweenLooks(a: Attempt) {
    a.life.Up? && a.life.to <= At(a, FirstLook(a, 0))
  }

  /** The first look that could see the session ended the wait, and by the next it was down. */
  ghost predicate GoneByTheNextLook(a: Attempt) {
    a.life.Up? && PatientBefore(a, FirstLook(a, 0)) && a.life.to <= At(a, FirstLook(a, 0) + 1)
  }

  /** The supervisor had given up, and looked once more, before the session came up. */
  ghost predicate CameUpTooLate(a: Attempt) {
    a.life.Up? && !PatientBefore(a, FirstLook(a, 0) - 1)
  }

  /** The reconnect counter is meant to count the attempts whose session came up. It does for
      an attempt if and only if none of three things happened to its session. */
  lemma {:induction false} CounterIsExact(a: Attempt)
    requires Ordered(a)
    ensures Counted(a) ==> CameUp(a)
    ensures (Counted(a) <==> CameUp(a)) <==> !FellBetweenLooks(a) && !GoneByTheNextLook(a) && !CameUpTooLate(a)
  {
    hide At;
    if CameUp(a) {
      var k, r := FirstLook(a, 0), Resolution(a, 0);
      assert ResolvesAt(a, r);
      forall i | 0 <= i < r ensures !GivesUp(a, i) && !Alive(a, i) { assert AwaitingBind(a, i); }
      if r + 1 < k {
        assert GivesUp(a, r);
        assert At(a, r + 1) < a.life.from;
      } else if r + 1 == k {
        assert GivesUp(a, r);
      } else {
        LooksAreOrdered(a, k, r);
        LooksAreOrdered(a, k, r + 1);
        LooksAreOrdered(a, k + 1, r + 1);
        assert PatientBefore(a, k);
        assert k < r ==> !Alive(a, k);
      }
    }
  }

  /** A session that came up before the wait was given up and stayed up for two gaps between
      looks is always counted. */
  lemma {:induction false} LongSessionsAreCounted(a: Attempt, gap: nat)
    requires Ordered(a) && a.life.Up? && a.life.from <= 15000 && a.life.from + 2 * gap <= a.life.to
    requires a.refused.None? || a.life.from <= a.refused.value
    requires At(a, 0) < gap && forall i: nat :: At(a, i + 1) <= At(a, i) + gap
    ensures Counted(a)
  {
    hide At;
    var k := FirstLook(a, 0);
    if k > 0 { assert At(a, (k - 1) + 1) <= At(a, k - 1) + gap; }
    assert At(a, k) < a.life.from + gap;
    assert PatientBefore(a, k);
    CounterIsExact(a);
  }

  /** The last time the supervisor looks before it drops the client. */
  ghost function LastLook(a: Attempt): nat {
    var b := Resolution(a, 0) + 1;
    if Alive(a, b) then Death(a, b, b + 1) else b
  }

  /** Dropping the client, some time after the last look, ends whatever is left of it. */
  ghost predicate EndsAtTheDrop(a: Attempt, drop: nat) {
    At(a, LastLook(a)) <= drop && (a.life.Up? ==> a.life.from < a.life.to <= drop)
  }

  /** Coming up too late is a race: it means that the whole life of the session lies between
      the last look and the drop. */
  lemma {:induction false} TooLateIsARace(a: Attempt, drop: nat)
    requires Ordered(a) && CameUp(a) && EndsAtTheDrop(a, drop)
    ensures CameUpTooLate(a) <==> At(a, LastLook(a)) < a.life.from < a.life.to <= drop
  {
    hide At;
    var k, r := FirstLook(a, 0), Resolution(a, 0);
    assert ResolvesAt(a, r);
    if CameUpTooLate(a) {
      var i :| 0 <= i < k - 1 && GivesUp(a, i);
      assert r <= i by { assert i < r ==> AwaitingBind(a, i); }
      assert At(a, r + 1) < a.life.from;
    }
    LooksAreOrdered(a, r, r + 1);
    if Alive(a, r + 1) { LooksAreOrdered(a, r + 1, LastLook(a)); }
    if At(a, LastLook(a)) < a.life.from {
      if k <= r + 1 { LooksAreOrdered(a, k, r + 1); }
      assert GivesUp(a, r);
    }
  }

  /** One way each: up from 1.2 to 1.8 s with looks at 1 and 2 s; seen at once and gone at the
      next look; and up for a moment between the last look, at the deadline, and the drop. */
  lemma {:induction false} SessionsAreMissed()
    ensures var a := Attempt(Up(1200, 1800), None, [0]);
      Ordered(a) && FellBetweenLooks(a) && CameUp(a) && !Counted(a)
    ensures var a := Attempt(Up(0, 1), None, [0, 1]);
      Ordered(a) && GoneByTheNextLook(a) && !FellBetweenLooks(a) && CameUp(a) && !Counted(a)
    ensures var a := Attempt(Up(15001, 15003), None, [15000, 15000, 15002]);
      Ordered(a) && CameUpTooLate(a) && EndsAtTheDrop(a, 15003) && CameUp(a) && !Counted(a)
  {
    var a, b := Attempt(Up(1200, 1800), None, [0]), Attempt(Up(0, 1), None, [0, 1]);
    FirstLookIs(a, 2);
    FirstLookIs(b, 0);
    CounterIsExact(a);
    CounterIsExact(b);
    var c := Attempt(Up(15001, 15003), None, [15000, 15000, 15002]);
    FirstLookIs(c, 2);
    assert GivesUp(c, 0);
    assert !AwaitingBind(c, 0);
    CounterIsExact(c);
  }

  lemma {:induction false} FirstLookIs(a: Attempt, k: nat)
    requires a.life.Up? && At(a, k) >= a.life.from && forall j :: 0 <= j < k ==> At(a, j) < a.life.from
    ensures FirstLook(a, 0) == k
  {
    var q := FirstLook(a, 0);
  }

  /** The measured length of a held session covers what was left of its life when it was found
      up, and no more than the gap before the look that found it dead beyond that. */
  lemma {:induction false} HeldLength(a: Attempt, gap: nat)
    requires Ordered(a) && Counted(a) && forall i: nat :: At(a, i + 1) <= At(a, i) + gap
    ensures var left := a.life.to - At(a, Resolution(a, 0) + 1);
      left <= CycleOf(a).ms <= left + gap
  {
    hide At;
    var b := Resolution(a, 0) + 1;
    var d := Death(a, b, b + 1);
    LooksAreOrdered(a, b, d);
    assert Alive(a, d - 1);
    assert At(a, (d - 1) + 1) <= At(a, d - 1) + gap;
  }

  // ---- Backoff ------------------------------------------------------------------------

  ghost predicate Healthy(c: Cycle) {
    c.Held? && c.ms >= HEALTHY_THRESHOLD
  }

  /** Healthy is a session held for thirty seconds. */
  lemma {:induction false} HealthyIsThirtySeconds(c: Cycle)
    ensures Healthy(c) <==> c.Held? && c.ms >= 30000
  {
  }

  /** The sleeps in numbers. */
  lemma {:induction false} SleepsInSeconds(j: nat)
    ensures Capped(0) == 1000 && Capped(1) == 2000 && Capped(2) == 4000 && Capped(3) == 8000
    ensures Capped(4) == 16000 && Capped(5) == 32000 && (j >= 6 ==> Capped(j) == 60000)
  {
    assert Pow2(1) == 2 && Pow2(2) == 4 && Pow2(3) == 8;
    assert Pow2(4) == 2 * Pow2(3) && Pow2(5) == 2 * Pow2(4);
    if j >= 6 { Pow2Grows(j); }
  }

  ghost function Pow2(j: nat): nat { if j == 0 then 1 else 2 * Pow2(j - 1) }

  /** One second doubled `j` times, capped at a minute. */
  ghost function Capped(j: nat): nat {
    if FIRST_BACKOFF * Pow2(j) <= MAX_BACKOFF then FIRST_BACKOFF * Pow2(j) else MAX_BACKOFF
  }

  /** Cycles since the last healthy one, which is itself at distance zero; without one, since
      the first cycle. */
  ghost function Since(run: seq<Attempt>, i: nat): nat
    requires i < |run|
  {
    if Healthy(CycleOf(run[i])) || i == 0 then 0 else Since(run, i - 1) + 1
  }

  ghost function BoundCycles(run: seq<Attempt>): nat {
    if run == [] then 0
    else BoundCycles(run[..|run| - 1]) + if CycleOf(run[|run| - 1]).Held? then 1 else 0
  }

  /** That is: the last `Since` cycles were not healthy, and the one before them was, or they
      are all there were but the first. */
  lemma {:induction false} SinceIs(run: seq<Attempt>, i: nat)
    requires i < |run|
    ensures var j := Since(run, i);
      && j <= i && (i == j || Healthy(CycleOf(run[i - j])))
      && forall k :: i - j < k <= i ==> !Healthy(CycleOf(run[k]))
  {
    hide CycleOf;
    if !(Healthy(CycleOf(run[i])) || i == 0) { SinceIs(run, i - 1); }
  }

  /** The counter is the number of attempts counted. */
  lemma {:induction false} BoundCyclesAre(run: seq<Attempt>)
    ensures BoundCycles(run) == |set i | 0 <= i < |run| && Counted(run[i])|
  {
    hide CycleOf;
    var n := |run| - 1;
    if run != [] {
      BoundCyclesAre(run[..n]);
      var all, most := set i | 0 <= i < |run| && Counted(run[i]), set i | 0 <= i < n && Counted(run[..n][i]);
      assert forall i :: 0 <= i < n ==> run[..n][i] == run[i];
      assert all == most + if Counted(run[n]) then {n} else {};
    }
  }

  lemma {:induction false} CappedDoubles(j: nat)
    ensures Capped(j + 1) == if 2 * Capped(j) <= MAX_BACKOFF then 2 * Capped(j) else MAX_BACKOFF
    ensures FIRST_BACKOFF <= Capped(j) <= MAX_BACKOFF
  {
    Pow2Grows(j);
  }

  lemma {:induction false} Pow2Grows(j: nat)
    ensures Pow2(j) >= 1 && Pow2(j) >= j
    ensures j >= 6 ==> Pow2(j) >= 64
  {
    if j > 0 { Pow2Grows(j - 1); }
    if j == 6 { assert Pow2(6) == 2 * Pow2(5) && Pow2(5) == 2 * Pow2(4) && Pow2(4) == 2 * Pow2(3) && Pow2(3) == 8; }
  }

  lemma {:induction false} Small(j: nat)
    requires j < 6
    ensures Capped(j) < Capped(j + 1)
  {
    assert Pow2(1) == 2 && Pow2(2) == 4 && Pow2(3) == 8;
    assert Pow2(4) == 2 * Pow2(3) && Pow2(5) == 2 * Pow2(4) && Pow2(6) == 2 * Pow2(5);
  }

  lemma {:induction false} CappedZero()
    ensures Capped(0) == FIRST_BACKOFF
  {
  }

  /** `run_bind_loop` over any number of cycles: the sleep after each one in closed form, and
      the reconnect counter. */
  method RunBindLoop(attempts: seq<Attempt>) returns (sleeps: seq<nat>, reconnects: nat)
    ensures |sleeps| == |attempts|
    ensures forall i :: 0 <= i < |sleeps| ==> sleeps[i] == Capped(Since(attempts, i))
    ensures forall i :: 0 <= i < |sleeps| ==> 1000 <= sleeps[i] <= 60000
    ensures reconnects == BoundCycles(attempts)
  {
    hide CycleOf, Capped, At;
    CappedZero();
    var backoff := FIRST_BACKOFF;
    sleeps, reconnects := [], 0;
    for i := 0 to |attempts|
      invariant |sleeps| == i && reconnects == BoundCycles(attempts[..i])
      invariant forall k :: 0 <= k < i ==> sleeps[k] == Capped(Since(attempts, k))
      invariant backoff == if i == 0 then Capped(0) else Capped(Since(attempts, i - 1) + 1)
    {
      var c := RunAttempt(attempts[i]);
      if c.Held? && c.ms >= HEALTHY_THRESHOLD {
        backoff := FIRST_BACKOFF;
      }
      if c.Held? {
        reconnects := reconnects + 1;
      }
      assert attempts[..i + 1][..i] == attempts[..i];
      assert backoff == Capped(Since(attempts, i));
      sleeps := sleeps + [backoff];
      CappedDoubles(Since(attempts, i));
      backoff := if backoff * 2 <= MAX_BACKOFF then backoff * 2 else MAX_BACKOFF;
    }
    assert attempts[..|attempts|] == attempts;
    forall i | 0 <= i < |sleeps| ensures FIRST_BACKOFF <= sleeps[i] <= MAX_BACKOFF {
      CappedDoubles(Since(attempts, i));
    }
  }

  /** Unhealthy cycles immediately before cycle `i`. */
  ghost function Streak(run: seq<Attempt>, i: nat): nat
    requires i < |run|
  {
    if i == 0 || Healthy(CycleOf(run[i - 1])) then 0 else Streak(run, i - 1) + 1
  }

  ghost predicate HadHealthy(run: seq<Attempt>, i: nat)
    requires i <= |run|
  {
    exists k :: 0 <= k < i && Healthy(CycleOf(run[k]))
  }

  lemma {:induction false} SinceAndStreak(run: seq<Attempt>, i: nat)
    requires i < |run| && !Healthy(CycleOf(run[i]))
    ensures Since(run, i) == Streak(run, i) + if HadHealthy(run, i) then 1 else 0
  {
    if i > 0 && !Healthy(CycleOf(run[i - 1])) {
      SinceAndStreak(run, i - 1);
    }
  }

  /** The tempting reading, that the sleep restarts at one second with each new streak of
      unhealthy cycles, is wrong after a healthy one: that cycle already used the first
      second. It is right exactly when there was no healthy cycle before, or the streak is
      long enough for the cap to hide the difference. */
  lemma {:induction false} StreakReading(run: seq<Attempt>, i: nat)
    requires i < |run| && !Healthy(CycleOf(run[i]))
    ensures Capped(Since(run, i)) == Capped(Streak(run, i)) <==> !HadHealthy(run, i) || Streak(run, i) >= 6
  {
    SinceAndStreak(run, i);
    var j := Streak(run, i);
    if j < 6 { Small(j); } else { Pow2Grows(j); Pow2Grows(j + 1); }
  }

  /** The first cycle after a healthy one sleeps two seconds. */
  lemma {:induction false} TwoSecondsAfterHealthy(up: Attempt, down: Attempt)
    requires Healthy(CycleOf(up)) && CycleOf(down) == NeverBound
    ensures Capped(Since([up, down], 0)) == 1000 && Capped(Since([up, down], 1)) == 2000
    ensures Capped(Streak([up, down], 1)) == 1000
  {
  }
}
