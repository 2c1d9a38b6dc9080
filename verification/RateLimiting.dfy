/** The token bucket behind `max_msg_per_sec`, in both directions.
    Token counts and instants are exact reals; `Instant` never runs backwards. */
module RateLimiting {

  /** What the mutex protects. */
  datatype Bucket = Bucket(tokens: real, max: real, refill: real, last: real)

  ghost predicate Valid(b: Bucket) {
    0.0 <= b.tokens <= b.max && 1.0 <= b.max && 0.0 < b.refill
  }

  function Min(a: real, b: real): (m: real)
    ensures m <= a && m <= b && (m == a || m == b)
  {
    if a <= b then a else b
  }

  /** Tokens refilled over a span of seconds. */
  function Gain(rate: real, span: real): real {
    rate * span
  }

  /** A new limiter starts full: it holds one second's worth and refills at the rate. A rate of
      zero is raised to one. */
  function New(rate: nat, now: real): (b: Bucket)
    ensures Valid(b) && b.tokens == b.max && b.last == now
    ensures 1 <= rate ==> b.max == rate as real && b.refill == rate as real
    ensures rate == 0 ==> b.max == 1.0 && b.refill == 1.0
  {
    var r := (if rate < 1 then 1 else rate) as real;
    Bucket(r, r, r, now)
  }

  /** The lazy refill every caller performs first. */
  function Refilled(b: Bucket, now: real): Bucket {
    b.(tokens := Min(b.tokens + Gain(b.refill, now - b.last), b.max), last := now)
  }

  predicate Admits(b: Bucket, now: real) {
    Refilled(b, now).tokens >= 1.0
  }

  /** One critical section: refill, then take a token if there is one. `try_acquire` is
      exactly this; `acquire` repeats it, sleeping after each failure. */
  function Call(b: Bucket, now: real): Bucket {
    var f := Refilled(b, now);
    if f.tokens >= 1.0 then f.(tokens := f.tokens - 1.0) else f
  }

  /** The limiter object. */
  class RateLimiter {
    var tokens: real
    const max: real
    const refillPerSec: real
    var last: real

    ghost function Value(): Bucket
      reads this
    {
      Bucket(tokens, max, refillPerSec, last)
    }

    constructor (rate: nat, now: real)
      ensures Value() == New(rate, now)
      ensures tokens == max == refillPerSec && (1 <= rate ==> max == rate as real) && (rate == 0 ==> max == 1.0)
    {
      var r := (if rate < 1 then 1 else rate) as real;
      tokens, max, refillPerSec, last := r, r, r, now;
    }

    method Refill(now: real)
      modifies this
      ensures Value() == Refilled(old(Value()), now)
    {
      tokens := Min(tokens + refillPerSec * (now - last), max);
      last := now;
    }

    /** The non-blocking gate of the `reject` throttle action. */
    method TryAcquire(now: real) returns (admitted: bool)
      modifies this
      ensures Value() == Call(old(Value()), now)
      ensures admitted == Admits(old(Value()), now)
    {
      Refill(now);
      admitted := tokens >= 1.0;
      if admitted {
        tokens := tokens - 1.0;
      }
    }

    /** The pacing loop, for a caller nobody competes with. `overslept` is how far past the
        requested duration each sleep runs. The loop sleeps at most once, for exactly the
        time the missing fraction of a token takes to refill, and leaves the bucket as a
        single call at the moment of admission would. */
    method Acquire(now: real, overslept: real) returns (waited: bool, admittedAt: real, sleeps: nat)
      requires Valid(Value()) && last <= now && 0.0 <= overslept
      modifies this
      ensures sleeps <= 1 && (waited <==> sleeps == 1)
      ensures waited <==> !Admits(old(Value()), now)
      ensures admittedAt == if !waited then now
        else now + Wait(Refilled(old(Value()), now).tokens, refillPerSec) + overslept
      ensures Admits(old(Value()), admittedAt)
      ensures Value() == Call(old(Value()), admittedAt)
    {
      hide Gain, Wait;
      ghost var b := Value();
      admittedAt, waited, sleeps := now, false, 0;
      while true
        invariant !waited ==> sleeps == 0 && admittedAt == now && Value() == b
        invariant waited ==> sleeps == 1 && !Admits(b, now) && Value() == Refilled(b, now)
        invariant waited ==> admittedAt == now + Wait(tokens, refillPerSec) + overslept && now <= admittedAt
        decreases 1 - sleeps
      {
        if waited {
          CallKeepsValid(b, now);
          SleepSuffices(Value(), admittedAt);
          RefillIsPathIndependent(b, now, admittedAt);
        }
        Refill(admittedAt);
        if tokens >= 1.0 {
          tokens := tokens - 1.0;
          return;
        }
        waited, sleeps := true, sleeps + 1;
        WaitIsExact(tokens, refillPerSec);
        admittedAt := admittedAt + Wait(tokens, refillPerSec) + overslept;
      }
    }
  }

  /** The sleep a caller computes from the missing fraction of a token. */
  function Wait(tokens: real, refill: real): real
    requires refill != 0.0
  {
    (1.0 - tokens) / refill
  }

  lemma {:induction false} WaitIsExact(tokens: real, refill: real)
    requires tokens < 1.0 && 0.0 < refill
    ensures 0.0 < Wait(tokens, refill) && Gain(refill, Wait(tokens, refill)) == 1.0 - tokens
  {
  }

  lemma {:induction false} GainAdds(r: real, x: real, y: real)
    ensures Gain(r, x + y) == Gain(r, x) + Gain(r, y)
  {
  }

  lemma {:induction false} GainGrows(r: real, x: real, y: real)
    requires x <= y && 0.0 < r
    ensures Gain(r, x) <= Gain(r, y) && Gain(r, 0.0) == 0.0
  {
    assert r * (y - x) >= 0.0;
  }

  /** Sleeping for the computed duration is enough when nobody else takes the token. */
  lemma {:induction false} SleepSuffices(b: Bucket, later: real)
    requires Valid(b) && b.tokens < 1.0 && b.last + Wait(b.tokens, b.refill) <= later
    ensures Admits(b, later)
  {
    hide Gain, Wait;
    WaitIsExact(b.tokens, b.refill);
    GainGrows(b.refill, Wait(b.tokens, b.refill), later - b.last);
  }

  /** Refilling in two steps is refilling once: a failed call leaves no trace. */
  lemma {:induction false} RefillIsPathIndependent(b: Bucket, u: real, t: real)
    requires Valid(b) && b.last <= u <= t
    ensures Refilled(Refilled(b, u), t) == Refilled(b, t)
  {
    hide Gain;
    GainGrows(b.refill, 0.0, t - u);
    GainAdds(b.refill, u - b.last, t - u);
    assert u - b.last + (t - u) == t - b.last;
  }

  lemma {:induction false} AdmitsIsMonotone(b: Bucket, u: real, t: real)
    requires Valid(b) && u <= t && Admits(b, u)
    ensures Admits(b, t)
  {
    hide Gain;
    GainGrows(b.refill, u - b.last, t - b.last);
  }

  lemma {:induction false} CallKeepsValid(b: Bucket, now: real)
    requires Valid(b) && b.last <= now
    ensures Valid(Refilled(b, now)) && Valid(Call(b, now)) && Call(b, now).last == now
    ensures b.tokens == b.max ==> Refilled(b, now).tokens == b.max
  {
    hide Gain;
    GainGrows(b.refill, 0.0, now - b.last);
  }

  // ---- Whole traces of calls ----------------------------------------------------------

  /** Call instants, in the order the mutex admitted the callers. */
  ghost predicate Ordered(ts: seq<real>, from: real) {
    && (forall i :: 0 <= i < |ts| ==> from <= ts[i])
    && (forall i, j :: 0 <= i < j < |ts| ==> ts[i] <= ts[j])
  }

  function Run(b: Bucket, ts: seq<real>): Bucket {
    if ts == [] then b else Call(Run(b, ts[..|ts| - 1]), ts[|ts| - 1])
  }

  /** The instants at which the trace admitted a caller. */
  function Admissions(b: Bucket, ts: seq<real>): seq<real> {
    if ts == [] then []
    else
      var before := ts[..|ts| - 1];
      var t := ts[|ts| - 1];
      Admissions(b, before) + if Admits(Run(b, before), t) then [t] else []
  }

  /** The allowance left by the admissions from number `i` on, at instant `t`. */
  ghost function Allowance(b: Bucket, adm: seq<real>, i: nat, t: real): real
    requires i < |adm|
  {
    b.max - (|adm| - i) as real + Gain(b.refill, t - adm[i])
  }

  /** `x` is the least of the capacity and every allowance. */
  ghost predicate IsLevel(x: real, b: Bucket, adm: seq<real>, t: real) {
    && x <= b.max
    && (forall i :: 0 <= i < |adm| ==> x <= Allowance(b, adm, i, t))
    && (x == b.max || exists i :: 0 <= i < |adm| && x == Allowance(b, adm, i, t))
  }

  lemma {:induction false} RunKeepsValid(b: Bucket, ts: seq<real>)
    requires Valid(b) && Ordered(ts, b.last)
    ensures Valid(Run(b, ts)) && Run(b, ts).max == b.max && Run(b, ts).refill == b.refill
    ensures Run(b, ts).last == if ts == [] then b.last else ts[|ts| - 1]
  {
    hide Gain;
    if ts != [] {
      var before := ts[..|ts| - 1];
      RunKeepsValid(b, before);
      CallKeepsValid(Run(b, before), ts[|ts| - 1]);
    }
  }

  lemma {:induction false} AdmissionsAreOrdered(b: Bucket, ts: seq<real>)
    requires Ordered(ts, b.last)
    ensures Ordered(Admissions(b, ts), b.last)
    ensures forall x :: x in Admissions(b, ts) ==> x in ts
  {
    hide Gain, Admits;
    if ts != [] {
      AdmissionsAreOrdered(b, ts[..|ts| - 1]);
      var adm := Admissions(b, ts[..|ts| - 1]);
      forall i | 0 <= i < |adm| ensures adm[i] <= ts[|ts| - 1] {
        assert adm[i] in ts[..|ts| - 1];
      }
    }
  }

  lemma {:induction false} OrderedPrefix(ts: seq<real>, t: real, from: real)
    requires Ordered(ts + [t], from)
    ensures Ordered(ts, from) && from <= t && forall i :: 0 <= i < |ts| ==> ts[i] <= t
  {
    var all := ts + [t];
    assert all[|ts|] == t;
    assert forall i :: 0 <= i < |ts| ==> all[i] == ts[i];
  }

  /** The closed form of the bucket: whatever calls were made, failed ones included, the
      level any later call finds depends on the admission instants alone. */
  lemma {:induction false} LevelIsExact(b: Bucket, ts: seq<real>, t: real)
    requires Valid(b) && b.tokens == b.max && Ordered(ts, b.last) && b.last <= t
    requires forall i :: 0 <= i < |ts| ==> ts[i] <= t
    ensures IsLevel(Refilled(Run(b, ts), t).tokens, b, Admissions(b, ts), t)
  {
    hide Gain, Valid;
    if ts == [] {
      CallKeepsValid(b, t);
    } else {
      var before := ts[..|ts| - 1];
      var u := ts[|ts| - 1];
      RunKeepsValid(b, before);
      if Admits(Run(b, before), u) {
        LevelIsExact(b, before, u);
        LevelAfterAdmission(b, Run(b, before), Admissions(b, before), u, t);
      } else {
        RefillIsPathIndependent(Run(b, before), u, t);
        LevelIsExact(b, before, t);
        assert Admissions(b, ts) == Admissions(b, before);
      }
    }
  }

  lemma {:induction false} LevelAfterAdmission(b: Bucket, p: Bucket, adm: seq<real>, u: real, t: real)
    requires Valid(p) && p.max == b.max && p.refill == b.refill && u <= t
    requires Admits(p, u) && IsLevel(Refilled(p, u).tokens, b, adm, u)
    ensures IsLevel(Refilled(Call(p, u), t).tokens, b, adm + [u], t)
  {
    hide Gain;
    var x := Refilled(p, u).tokens;
    var all := adm + [u];
    var gain := Gain(b.refill, t - u);
    forall i | 0 <= i < |adm|
      ensures Allowance(b, all, i, t) == Allowance(b, adm, i, u) - 1.0 + gain
    {
      GainAdds(b.refill, u - adm[i], t - u);
      assert u - adm[i] + (t - u) == t - adm[i];
    }
    assert Allowance(b, all, |adm|, t) == b.max - 1.0 + gain;
    assert Refilled(Call(p, u), t).tokens == Min(x - 1.0 + gain, b.max);
  }

  /** Counting from every earlier admission through one more at `t`, the total stays within
      one bucket plus what refilled since that admission. */
  ghost predicate WithinCap(b: Bucket, adm: seq<real>, t: real) {
    forall i :: 0 <= i < |adm| ==> (|adm| - i + 1) as real <= b.max + Gain(b.refill, t - adm[i])
  }

  lemma {:induction false} LevelDecides(x: real, b: Bucket, adm: seq<real>, t: real)
    requires IsLevel(x, b, adm, t) && 1.0 <= b.max
    ensures x >= 1.0 <==> WithinCap(b, adm, t)
  {
    hide Gain;
    forall i | 0 <= i < |adm|
      ensures Allowance(b, adm, i, t) >= 1.0
        <==> (|adm| - i + 1) as real <= b.max + Gain(b.refill, t - adm[i])
    {
    }
  }

  /** The exact admission rule of a limiter that started full, over every trace of calls. */
  lemma {:induction false} AdmissionIsExact(b: Bucket, ts: seq<real>, t: real)
    requires Valid(b) && b.tokens == b.max && Ordered(ts + [t], b.last)
    ensures Admits(Run(b, ts), t) <==> WithinCap(b, Admissions(b, ts), t)
  {
    hide Gain;
    OrderedPrefix(ts, t, b.last);
    LevelIsExact(b, ts, t);
    LevelDecides(Refilled(Run(b, ts), t).tokens, b, Admissions(b, ts), t);
  }

  /** Dropping the failed calls from a trace changes neither who is admitted nor what any
      later call finds. */
  lemma {:induction false} FailedCallsLeaveNoTrace(b: Bucket, ts: seq<real>, t: real)
    requires Valid(b) && Ordered(ts, b.last) && b.last <= t
    requires forall i :: 0 <= i < |ts| ==> ts[i] <= t
    ensures Admissions(b, Admissions(b, ts)) == Admissions(b, ts)
    ensures Refilled(Run(b, Admissions(b, ts)), t) == Refilled(Run(b, ts), t)
  {
    hide Gain, Valid;
    if ts != [] {
      var before := ts[..|ts| - 1];
      var u := ts[|ts| - 1];
      var kept := Admissions(b, before);
      if Admits(Run(b, before), u) {
        FailedCallsLeaveNoTrace(b, before, u);
        assert Admissions(b, ts) == kept + [u];
        assert (kept + [u])[..|kept|] == kept;
        assert Call(Run(b, kept), u) == Call(Run(b, before), u);
      } else {
        FailedCallsLeaveNoTrace(b, before, t);
        RunKeepsValid(b, before);
        RefillIsPathIndependent(Run(b, before), u, t);
        assert Admissions(b, ts) == kept;
      }
    }
  }

  /** Any run of consecutive admissions fits one bucket plus the refill over its span. */
  lemma {:induction false} BurstBound(b: Bucket, ts: seq<real>, i: nat, j: nat)
    requires Valid(b) && b.tokens == b.max && Ordered(ts, b.last)
    requires i <= j < |Admissions(b, ts)|
    ensures var adm := Admissions(b, ts);
      (j - i + 1) as real <= b.max + Gain(b.refill, adm[j] - adm[i])
  {
    hide Gain, Admits, Ordered;
    var before := ts[..|ts| - 1];
    var u := ts[|ts| - 1];
    var adm := Admissions(b, before);
    assert before + [u] == ts;
    OrderedPrefix(before, u, b.last);
    if j < |adm| {
      BurstBound(b, before, i, j);
    } else {
      GainGrows(b.refill, 0.0, 0.0);
      AdmissionIsExact(b, before, u);
      assert Admissions(b, ts) == adm + [u];
      assert i < j ==> (|adm| - i + 1) as real <= b.max + Gain(b.refill, u - adm[i]);
    }
  }

  /** Admissions within `[s, t]`. */
  ghost function CountWithin(adm: seq<real>, s: real, t: real): nat {
    if adm == [] then 0
    else CountWithin(adm[..|adm| - 1], s, t) + if s <= adm[|adm| - 1] <= t then 1 else 0
  }

  ghost predicate Sorted(adm: seq<real>) {
    forall i, j :: 0 <= i < j < |adm| ==> adm[i] <= adm[j]
  }

  /** The admissions within a window are consecutive. */
  lemma {:induction false} WindowIsABurst(adm: seq<real>, s: real, t: real) returns (i: nat, n: nat)
    requires Sorted(adm) && s <= t
    ensures n == CountWithin(adm, s, t) && i + n <= |adm|
    ensures forall k :: 0 <= k < |adm| ==> (s <= adm[k] <= t <==> i <= k < i + n)
    ensures forall k :: 0 <= k < |adm| ==> (s <= adm[k] <==> i <= k)
  {
    i, n := 0, 0;
    if adm != [] {
      var m := |adm| - 1;
      i, n := WindowIsABurst(adm[..m], s, t);
      assert forall k :: 0 <= k < m ==> adm[..m][k] == adm[k];
      if adm[m] < s {
        i := m + 1;
      } else if adm[m] <= t {
        n := n + 1;
      }
    }
  }

  /** The throughput cap: for any interleaving of any number of callers, no window of length
      `t - s` holds more admissions than one bucket plus the refill over the window, and the
      level never leaves `[0, max]`. */
  lemma {:induction false} WindowBound(b: Bucket, ts: seq<real>, s: real, t: real)
    requires Valid(b) && b.tokens == b.max && Ordered(ts, b.last) && s <= t
    ensures CountWithin(Admissions(b, ts), s, t) as real <= b.max + Gain(b.refill, t - s)
    ensures 0.0 <= Run(b, ts).tokens <= b.max
  {
    hide Gain;
    var adm := Admissions(b, ts);
    RunKeepsValid(b, ts);
    AdmissionsAreOrdered(b, ts);
    GainGrows(b.refill, 0.0, t - s);
    var i, n := WindowIsABurst(adm, s, t);
    if n > 0 {
      assert s <= adm[i] && adm[i + n - 1] <= t;
      BurstBound(b, ts, i, i + n - 1);
      GainGrows(b.refill, adm[i + n - 1] - adm[i], t - s);
    }
  }

  // ---- What the configured rate means -------------------------------------------------

  /** The cap in the configured unit: a limiter of `rate` messages a second admits, in any
      window, at most `rate` for each second of it and one second's worth more. */
  lemma {:induction false} RateCap(rate: nat, now: real, ts: seq<real>, s: real, t: real)
    requires Ordered(ts, now) && s <= t
    ensures var r := if rate == 0 then 1.0 else rate as real;
      CountWithin(Admissions(New(rate, now), ts), s, t) as real <= r * (1.0 + (t - s))
  {
    hide Admissions, CountWithin, Ordered;
    WindowBound(New(rate, now), ts, s, t);
    CapInTheRate(rate, now, t - s);
  }

  lemma {:induction false} CapInTheRate(rate: nat, now: real, span: real)
    ensures var b, r := New(rate, now), if rate == 0 then 1.0 else rate as real;
      b.max + Gain(b.refill, span) == r * (1.0 + span)
  {
    var r := if rate == 0 then 1.0 else rate as real;
    assert r * (1.0 + span) == r + r * span;
  }

  /** An empty limiter has its next token exactly `1/rate` seconds later, and not before. */
  lemma {:induction false} NextToken(rate: nat, b: Bucket, t: real)
    requires 1 <= rate && b == New(rate, b.last).(tokens := 0.0) && b.last <= t
    ensures Admits(b, t) <==> b.last + 1.0 / rate as real <= t
  {
    var r, x := rate as real, t - b.last;
    assert r * (1.0 / r) == 1.0;
    if 1.0 / r <= x {
      assert r * (x - 1.0 / r) >= 0.0;
    } else {
      assert r * (1.0 / r - x) > 0.0;
    }
  }

  function Repeat(t: real, n: nat): seq<real> { seq(n, i => t) }

  lemma {:induction false} BurstLevel(rate: nat, now: real, n: nat)
    requires 1 <= rate && n <= rate
    ensures Admissions(New(rate, now), Repeat(now, n)) == Repeat(now, n)
    ensures Run(New(rate, now), Repeat(now, n)) == New(rate, now).(tokens := (rate - n) as real)
  {
    hide Gain;
    var b, ts := New(rate, now), Repeat(now, n);
    GainGrows(b.refill, 0.0, 0.0);
    assert now - now == 0.0;
    if n > 0 {
      BurstLevel(rate, now, n - 1);
      assert ts[..n - 1] == Repeat(now, n - 1);
      assert ts == Repeat(now, n - 1) + [now];
    }
  }

  /** A burst of exactly `rate` messages is let through at once, and no more. */
  lemma {:induction false} BurstIsTheRate(rate: nat, now: real)
    requires 1 <= rate
    ensures Admissions(New(rate, now), Repeat(now, rate)) == Repeat(now, rate)
    ensures !Admits(Run(New(rate, now), Repeat(now, rate)), now)
  {
    hide Gain;
    BurstLevel(rate, now, rate);
    GainGrows(New(rate, now).refill, 0.0, 0.0);
    assert now - now == 0.0;
  }

  /** One message every `1/rate` seconds. */
  function Paced(rate: nat, now: real, n: nat): seq<real>
    requires 1 <= rate
  {
    seq(n, i => now + i as real / rate as real)
  }

  /** The rate is sustained: messages `1/rate` seconds apart are never held up, even once the
      bucket is empty. */
  lemma {:induction false} RateIsSustained(rate: nat, b: Bucket, n: nat)
    requires 1 <= rate && b == New(rate, b.last).(tokens := 0.0)
    ensures var next := b.last + 1.0 / rate as real;
      Admissions(b, Paced(rate, next, n)) == Paced(rate, next, n)
    ensures Run(b, Paced(rate, b.last + 1.0 / rate as real, n)) == b.(last := b.last + n as real / rate as real)
  {
    var r, next := rate as real, b.last + 1.0 / rate as real;
    var ts := Paced(rate, next, n);
    if n > 0 {
      RateIsSustained(rate, b, n - 1);
      assert ts[..n - 1] == Paced(rate, next, n - 1);
      PacedStep(rate, b, n);
      hide Gain, Refilled, Paced;
      assert ts == ts[..n - 1] + [ts[n - 1]];
    }
  }

  lemma {:induction false} PacedStep(rate: nat, b: Bucket, n: nat)
    requires 1 <= rate && 1 <= n && b == New(rate, b.last).(tokens := 0.0)
    ensures var before, t := b.(last := b.last + (n - 1) as real / rate as real), b.last + n as real / rate as real;
      && Admits(before, t) && Call(before, t) == b.(last := t)
      && t == b.last + 1.0 / rate as real + (n - 1) as real / rate as real
  {
    var r := rate as real;
    assert n as real / r == (n - 1) as real / r + 1.0 / r;
    assert r * (1.0 / r) == 1.0;
  }
}
