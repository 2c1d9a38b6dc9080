/** Choosing an outbound bind for a destination. */
module Routing {
  import opened Text

  datatype Rule = Rule(prefix: string, chain: seq<string>)

  const BIND_STEP := "bind:"

  predicate StartsWith(s: string, p: string) {
    |p| <= |s| && s[..|p|] == p
  }

  /** The first step that names a bind decides, even if the name is empty. */
  function BindFromChain(chain: seq<string>): Option<string> {
    if chain == [] then None
    else if StartsWith(chain[0], BIND_STEP) then Some(chain[0][|BIND_STEP|..])
    else BindFromChain(chain[1..])
  }

  /** A prefix is what a text continues. */
  lemma {:induction false} StartsWithIs(s: string, p: string)
    ensures StartsWith(s, p) <==> exists t :: s == p + t
  {
    if StartsWith(s, p) { assert s == p + s[|p|..]; }
    if t :| s == p + t { assert s[..|p|] == p; }
  }

  /** Step `i` names the bind `n`, and no earlier step names one. */
  ghost predicate FirstToName(chain: seq<string>, i: int, n: string) {
    0 <= i < |chain| && chain[i] == "bind:" + n && forall j, m :: 0 <= j < i ==> chain[j] != "bind:" + m
  }

  /** A chain gives the name after `bind:` of its first step of that form, and nothing exactly
      when it has none. */
  lemma {:induction false} FirstStepNames(chain: seq<string>)
    ensures forall i, n :: FirstToName(chain, i, n) ==> BindFromChain(chain) == Some(n)
    ensures BindFromChain(chain).Some? ==> exists i :: FirstToName(chain, i, BindFromChain(chain).value)
    ensures BindFromChain(chain).None? <==> forall i, m :: 0 <= i < |chain| ==> chain[i] != "bind:" + m
  {
    if chain != [] {
      StepNames(chain[0]);
      var rest := chain[1..];
      FirstStepNames(rest);
      hide StartsWith;
      if StartsWith(chain[0], BIND_STEP) {
        var n := chain[0][|BIND_STEP|..];
        assert FirstToName(chain, 0, n);
        forall i, m | FirstToName(chain, i, m) ensures m == n { SameName(m, n); }
      } else {
        forall i, n | FirstToName(chain, i, n) ensures BindFromChain(chain) == Some(n) {
          assert FirstToName(rest, i - 1, n);
        }
        if BindFromChain(rest).Some? {
          var i :| FirstToName(rest, i, BindFromChain(rest).value);
          assert FirstToName(chain, i + 1, BindFromChain(rest).value);
        } else {
          assert forall i :: 0 < i < |chain| ==> chain[i] == rest[i - 1];
        }
      }
    }
  }

  lemma {:induction false} StepNames(step: string)
    ensures StartsWith(step, BIND_STEP) ==> |step| >= 5 && step == "bind:" + step[5..] && |BIND_STEP| == 5
    ensures !StartsWith(step, BIND_STEP) ==> forall m :: step != "bind:" + m
  {
    forall m | step == "bind:" + m ensures StartsWith(step, BIND_STEP) { assert ("bind:" + m)[..5] == "bind:"; }
  }

  lemma {:induction false} SameName(m: string, n: string)
    ensures "bind:" + m == "bind:" + n ==> m == n
  {
    assert ("bind:" + m)[5..] == m && ("bind:" + n)[5..] == n;
  }

  /** A chain is usable when it names a non-empty bind. */
  predicate Usable(chain: seq<string>) {
    BindFromChain(chain).Some? && BindFromChain(chain).value != ""
  }

  /** A rule that matches the destination and can be used. */
  predicate Applies(dest: string, r: Rule) {
    StartsWith(dest, r.prefix) && Usable(r.chain)
  }

  /** Rule `i` wins: it applies, none that applies has a longer prefix, and none earlier has
      one as long. */
  ghost predicate Wins(dest: string, rules: seq<Rule>, i: nat) {
    && i < |rules| && Applies(dest, rules[i])
    && (forall j :: 0 <= j < |rules| && Applies(dest, rules[j]) ==> |rules[j].prefix| <= |rules[i].prefix|)
    && (forall j :: 0 <= j < i && Applies(dest, rules[j]) ==> |rules[j].prefix| < |rules[i].prefix|)
  }

  lemma {:induction false} WinnerIsUnique(dest: string, rules: seq<Rule>, i: nat, j: nat)
    requires Wins(dest, rules, i) && Wins(dest, rules, j)
    ensures i == j
  {
  }

  /** The bind to use: that of the winning rule, else of the default chain, else the first
      configured one, else none. */
  ghost function Choice(dest: string, rules: seq<Rule>, defaultChain: seq<string>, configured: seq<string>): Option<string> {
    if exists i: nat :: Wins(dest, rules, i) then
      var i: nat :| Wins(dest, rules, i);
      BindFromChain(rules[i].chain)
    else Fallback(defaultChain, configured)
  }

  function FirstConfigured(configured: seq<string>): Option<string> {
    if configured != [] then Some(configured[0]) else None
  }

  function Fallback(defaultChain: seq<string>, configured: seq<string>): Option<string> {
    if Usable(defaultChain) then BindFromChain(defaultChain) else FirstConfigured(configured)
  }

  /** `_pick_bind`. The loop finds the winning rule whenever some rule applies. */
  method PickBind(dest: string, rules: seq<Rule>, defaultChain: seq<string>, configured: seq<string>)
    returns (bind: Option<string>)
    ensures bind == Choice(dest, rules, defaultChain, configured)
    ensures (exists i: nat :: Wins(dest, rules, i)) <==> exists i :: 0 <= i < |rules| && Applies(dest, rules[i])
    ensures forall i: nat :: Wins(dest, rules, i) ==> bind == BindFromChain(rules[i].chain)
    ensures (forall i :: 0 <= i < |rules| ==> !Applies(dest, rules[i])) ==>
      if BindFromChain(defaultChain) != None && BindFromChain(defaultChain) != Some("") then bind == BindFromChain(defaultChain)
      else if configured == [] then bind == None
      else bind == Some(configured[0])
  {
    var best: Option<nat> := None;
    for i := 0 to |rules|
      invariant best.Some? ==> Wins(dest, rules[..i], best.value)
      invariant best.None? ==> forall j :: 0 <= j < i ==> !Applies(dest, rules[j])
    {
      assert rules[..i + 1] == rules[..i] + [rules[i]];
      if Applies(dest, rules[i]) && (best.None? || |rules[i].prefix| > |rules[best.value].prefix|) {
        best := Some(i);
      }
    }
    assert rules[..|rules|] == rules;
    if best.Some? {
      assert Wins(dest, rules, best.value);
      forall i: nat | Wins(dest, rules, i) ensures i == best.value { WinnerIsUnique(dest, rules, i, best.value); }
      return BindFromChain(rules[best.value].chain);
    }
    return Fallback(defaultChain, configured);
  }

  /** Two matching rules are nested: the longer prefix extends the shorter, so the winner is
      the most specific usable rule. */
  lemma {:induction false} MatchesAreNested(dest: string, a: Rule, b: Rule)
    requires StartsWith(dest, a.prefix) && StartsWith(dest, b.prefix) && |a.prefix| <= |b.prefix|
    ensures StartsWith(b.prefix, a.prefix)
  {
    assert b.prefix[..|a.prefix|] == dest[..|b.prefix|][..|a.prefix|] == dest[..|a.prefix|];
  }

  /** Rule `i` matches and none that matches has a longer prefix. */
  ghost predicate Longest(dest: string, rules: seq<Rule>, i: nat) {
    && i < |rules| && StartsWith(dest, rules[i].prefix)
    && forall j :: 0 <= j < |rules| && StartsWith(dest, rules[j].prefix) ==> |rules[j].prefix| <= |rules[i].prefix|
  }

  /** The documented promise: the bind is the one a rule with the longest matching prefix
      names, or none if it names none. */
  ghost predicate LongestDecides(dest: string, rules: seq<Rule>, bind: Option<string>) {
    exists i: nat :: Longest(dest, rules, i) && bind == BindFromChain(rules[i].chain)
  }

  ghost predicate LongestIsUsable(dest: string, rules: seq<Rule>) {
    exists i: nat :: Longest(dest, rules, i) && Usable(rules[i].chain)
  }

  /** Nothing else is usable, and the last resort happens to be what the longest rule says,
      such as no bind at all. */
  ghost predicate NothingElse(dest: string, rules: seq<Rule>, defaultChain: seq<string>, configured: seq<string>) {
    && (forall i :: 0 <= i < |rules| ==> !Applies(dest, rules[i]))
    && !Usable(defaultChain)
    && LongestDecides(dest, rules, FirstConfigured(configured))
  }

  lemma {:induction false} SomeoneWins(dest: string, rules: seq<Rule>, i: nat) returns (w: nat)
    requires i < |rules| && Applies(dest, rules[i])
    ensures Wins(dest, rules, w)
  {
    hide StartsWith, Usable;
    var n := |rules| - 1;
    var front := rules[..n];
    if exists j :: 0 <= j < n && Applies(dest, front[j]) {
      var j :| 0 <= j < n && Applies(dest, front[j]);
      w := SomeoneWins(dest, front, j);
      if Applies(dest, rules[n]) && |rules[n].prefix| > |rules[w].prefix| { w := n; }
      assert forall k :: 0 <= k < n ==> front[k] == rules[k];
    } else {
      w := i;
      assert forall k :: 0 <= k < n ==> front[k] == rules[k];
    }
  }

  /** The longest matching prefix decides if and only if some rule with that prefix names a
      bind, or nothing else does either and the last resort agrees with it. */
  lemma {:induction false} LongestDecidesIfUsable(dest: string, rules: seq<Rule>, defaultChain: seq<string>, configured: seq<string>)
    ensures LongestDecides(dest, rules, Choice(dest, rules, defaultChain, configured))
      <==> LongestIsUsable(dest, rules) || NothingElse(dest, rules, defaultChain, configured)
  {
    hide StartsWith;
    var bind := Choice(dest, rules, defaultChain, configured);
    if LongestIsUsable(dest, rules) {
      var i: nat :| Longest(dest, rules, i) && Usable(rules[i].chain);
      var w := SomeoneWins(dest, rules, i);
      var v: nat :| Wins(dest, rules, v) && bind == BindFromChain(rules[v].chain);
      assert Longest(dest, rules, v);
    } else if exists i :: 0 <= i < |rules| && Applies(dest, rules[i]) {
      var i :| 0 <= i < |rules| && Applies(dest, rules[i]);
      var w := SomeoneWins(dest, rules, i);
      assert bind.Some? && bind.value != "";
    }
  }

  /** Two rules match `441`; the longer names no bind, so the shorter decides. */
  lemma {:induction false} ShorterPrefixCanDecide()
    ensures var rules := [Rule("4", ["bind:a"]), Rule("44", ["drop"])];
      && Longest("441", rules, 1) && Choice("441", rules, [], []) == Some("a")
      && !LongestDecides("441", rules, Some("a"))
  {
    var rules := [Rule("4", ["bind:a"]), Rule("44", ["drop"])];
    assert BindFromChain(["bind:a"]) == Some("a");
    assert BindFromChain(["drop"]) == None;
    assert Applies("441", rules[0]) && !Applies("441", rules[1]);
    assert Wins("441", rules, 0);
    forall i: nat | Wins("441", rules, i) ensures i == 0 { WinnerIsUnique("441", rules, i, 0); }
  }
}
