/** `${VAR}` and `${VAR:-default}` expansion in the configuration text. */
module EnvExpansion {
  import opened Text

  type Env = map<string, string>

  const OPEN := "${"
  const CLOSE := "}"

  /** The value of a reference: the variable, else the default after the first `:-`, else
      nothing. */
  function ValueOf(env: Env, spec: string): string {
    match Find(spec, ":-")
    case Some(p) => if spec[..p] in env then env[spec[..p]] else spec[p + 2..]
    case None => if spec in env then env[spec] else ""
  }

  /** The text as literal pieces and references; an unclosed `${` starts no reference. */
  datatype Piece = Literal(text: string) | Reference(spec: string)

  /** The recursive reading of a text. */
  function Lex(s: string): seq<Piece>
    decreases |s|
  {
    match Find(s, OPEN)
    case None => [Literal(s)]
    case Some(p) =>
      var after := s[p + 2..];
      match Find(after, CLOSE)
      case None => [Literal(s)]
      case Some(e) => [Literal(s[..p]), Reference(after[..e])] + Lex(after[e + 1..])
  }

  function Written(p: Piece): string {
    match p case Literal(t) => t case Reference(n) => OPEN + n + CLOSE
  }

  function Print(ps: seq<Piece>): string {
    if ps == [] then "" else Written(ps[0]) + Print(ps[1..])
  }

  function Meaning(env: Env, p: Piece): string {
    match p case Literal(t) => t case Reference(n) => ValueOf(env, n)
  }

  function Eval(env: Env, ps: seq<Piece>): string {
    if ps == [] then "" else Meaning(env, ps[0]) + Eval(env, ps[1..])
  }

  lemma {:induction false} OnePiece(env: Env, t: string)
    ensures Print([Literal(t)]) == t == Eval(env, [Literal(t)])
  {
    assert [Literal(t)][1..] == [];
    assert t + "" == t;
  }

  lemma {:induction false} TwoMore(env: Env, a: Piece, b: Piece, ps: seq<Piece>)
    ensures Print([a, b] + ps) == Written(a) + Written(b) + Print(ps)
    ensures Eval(env, [a, b] + ps) == Meaning(env, a) + Meaning(env, b) + Eval(env, ps)
  {
    hide Written, Meaning;
    var all := [a, b] + ps;
    assert all[1..] == [b] + ps && all[1..][1..] == ps;
    assert Written(a) + (Written(b) + Print(ps)) == Written(a) + Written(b) + Print(ps);
    assert Meaning(env, a) + (Meaning(env, b) + Eval(env, ps)) == Meaning(env, a) + Meaning(env, b) + Eval(env, ps);
  }

  /** What expansion means: each reference replaced by its value, which is never looked at
      again. */
  function Expand(env: Env, s: string): string { Eval(env, Lex(s)) }

  /** Where the text is first cut. */
  lemma {:induction false} Cut(s: string, p: nat, e: nat)
    requires p + 2 <= |s| && s[p..p + 2] == OPEN && e + 1 <= |s[p + 2..]| && s[p + 2..][e..e + 1] == CLOSE
    ensures var after := s[p + 2..]; s == s[..p] + (OPEN + after[..e] + CLOSE) + after[e + 1..]
  {
    var after := s[p + 2..];
    assert s == s[..p] + s[p..p + 2] + after;
    assert after == after[..e] + after[e..e + 1] + after[e + 1..];
  }

  /** Reading loses nothing: the pieces print back to the text. */
  lemma {:induction false} LexIsLossless(s: string)
    ensures Print(Lex(s)) == s
    decreases |s|
  {
    hide Print, Find, FindFrom;
    OnePiece(map[], s);
    match Find(s, OPEN)
    case None =>
    case Some(p) =>
      var after := s[p + 2..];
      match Find(after, CLOSE)
      case None =>
      case Some(e) =>
        var rest := Lex(after[e + 1..]);
        LexIsLossless(after[e + 1..]);
        TwoMore(map[], Literal(s[..p]), Reference(after[..e]), rest);
        Cut(s, p, e);
  }

  /** A `${` with a closing brace somewhere after it. */
  ghost predicate HoldsReference(t: string) {
    exists p, q :: At(t, OPEN, p) && p + 2 <= q && At(t, CLOSE, q)
  }

  /** Literals and references alternate; a literal before a reference contains no `${`, a
      reference no closing brace, and the last literal holds no reference. */
  ghost predicate Maximal(ps: seq<Piece>)
    decreases |ps|
  {
    && ps != [] && ps[0].Literal?
    && if |ps| == 1 then !HoldsReference(ps[0].text)
       else
         && ps[1].Reference? && Find(ps[0].text, OPEN).None? && Find(ps[1].spec, CLOSE).None?
         && Maximal(ps[2..])
  }

  lemma {:induction false} NoReference(s: string)
    ensures HoldsReference(s) <==>
      Find(s, OPEN).Some? && Find(s[Find(s, OPEN).value + 2..], CLOSE).Some?
  {
    hide FindFrom, At;
    if Find(s, OPEN).Some? {
      var k := Find(s, OPEN).value + 2;
      assert s[k..|s|] == s[k..];
      if HoldsReference(s) {
        var p, q :| At(s, OPEN, p) && p + 2 <= q && At(s, CLOSE, q);
        assert At(s, CLOSE, k + (q - k));
        AtSlice(s, CLOSE, k, |s|, q - k);
        InBounds(s, q);
      }
      if Find(s[k..], CLOSE).Some? {
        var e := Find(s[k..], CLOSE).value;
        AtSlice(s, CLOSE, k, |s|, e);
        assert At(s, OPEN, k - 2) && At(s, CLOSE, k + e);
      }
    }
  }

  lemma {:induction false} InBounds(s: string, q: int)
    requires At(s, CLOSE, q)
    ensures q + 1 <= |s|
  {
  }

  /** Reading finds every reference there is. */
  lemma {:induction false} PiecesAreMaximal(s: string)
    ensures Maximal(Lex(s))
    decreases |s|
  {
    hide Find, FindFrom, At, HoldsReference;
    NoReference(s);
    match Find(s, OPEN)
    case None =>
    case Some(p) =>
      var after := s[p + 2..];
      match Find(after, CLOSE)
      case None =>
      case Some(e) =>
        PrefixHasNone(s, OPEN, p);
        PrefixHasNone(after, CLOSE, e);
        PiecesAreMaximal(after[e + 1..]);
        var all := Lex(s);
        assert all[2..] == Lex(after[e + 1..]);
  }

  lemma {:induction false} LexCutsThere(t: string, n: string, rest: string)
    requires Find(t, OPEN).None? && Find(n, CLOSE).None?
    ensures Lex(t + OPEN + (n + CLOSE + rest)) == [Literal(t), Reference(n)] + Lex(rest)
  {
    hide Find, FindFrom;
    CutsThere(t, n, rest);
  }

  lemma {:induction false} PrintOfCut(t: string, n: string, ps: seq<Piece>)
    ensures Print([Literal(t), Reference(n)] + ps) == t + OPEN + (n + CLOSE + Print(ps))
  {
    hide Print;
    TwoMore(map[], Literal(t), Reference(n), ps);
    Regroup(t, OPEN, n, CLOSE, Print(ps));
  }

  lemma {:induction false} Regroup(t: string, open: string, n: string, close: string, rest: string)
    ensures t + (open + n + close) + rest == t + open + (n + close + rest)
  {
  }

  /** There is no other such reading: whatever alternation of literals and references prints
      to a text and misses no reference is what reading the text gives. */
  lemma {:induction false} ReadingIsUnique(ps: seq<Piece>)
    requires Maximal(ps)
    ensures Lex(Print(ps)) == ps
    decreases |ps|
  {
    if |ps| == 1 {
      OneLiteral(ps[0].text);
      assert ps == [Literal(ps[0].text)];
    } else {
      hide Find, FindFrom, Lex, Print;
      var t, n := ps[0].text, ps[1].spec;
      assert ps == [Literal(t), Reference(n)] + ps[2..];
      PrintOfCut(t, n, ps[2..]);
      ReadingIsUnique(ps[2..]);
      LexCutsThere(t, n, Print(ps[2..]));
    }
  }

  lemma {:induction false} OneLiteral(t: string)
    requires !HoldsReference(t)
    ensures Lex(Print([Literal(t)])) == [Literal(t)]
  {
    hide Find, FindFrom, HoldsReference, Print;
    OnePiece(map[], t);
    NoReference(t);
  }

  lemma {:induction false} CutsThere(t: string, n: string, rest: string)
    requires Find(t, OPEN).None? && Find(n, CLOSE).None?
    ensures var s := t + OPEN + (n + CLOSE + rest);
      && Find(s, OPEN) == Some(|t|) && s[|t| + 2..] == n + CLOSE + rest && s[..|t|] == t
      && Find(n + CLOSE + rest, CLOSE) == Some(|n|)
      && (n + CLOSE + rest)[..|n|] == n && (n + CLOSE + rest)[|n| + 1..] == rest
  {
    hide Find, FindFrom;
    FirstAfter(t, OPEN, n + CLOSE + rest, '{');
    FirstAfter(n, CLOSE, rest, '}');
  }

  lemma {:induction false} PrefixHasNone(s: string, p: string, k: nat)
    requires Find(s, p) == Some(k) && p != ""
    ensures Find(s[..k], p).None?
  {
    assert s[..k] == s[0..k];
    if Occurs(s[..k], p) {
      var i :| At(s[..k], p, i);
      AtSlice(s, p, 0, k, i);
      assert false;
    }
  }

  /** The expansion loop computes exactly that meaning; the remaining text is the
      termination measure. */
  method ExpandEnvVars(env: Env, input: string) returns (out: string)
    ensures out == Expand(env, input)
  {
    hide Expand, ValueOf, FindFrom;
    var rest := input;
    out := "";
    var found := Find(rest, OPEN);
    while found.Some?
      invariant found == Find(rest, OPEN)
      invariant out + Expand(env, rest) == Expand(env, input)
      decreases |rest|
    {
      var pos := found.value;
      ghost var was, before := out, rest;
      out := out + rest[..pos];
      var after := rest[pos + 2..];
      match Find(after, CLOSE) {
        case None =>
          out := out + OPEN;
          rest := after;
          UnclosedIsVerbatim(env, before, pos);
          assert before == before[..pos] + OPEN + after;
          assert was + before == out + after;
        case Some(end) =>
          var value := ValueOf(env, after[..end]);
          out := out + value;
          rest := after[end + 1..];
          ExpandStep(env, before, pos, end);
          assert was + (before[..pos] + value + Expand(env, rest)) == out + Expand(env, rest);
      }
      found := Find(rest, OPEN);
    }
    NothingToExpand(env, rest);
    out := out + rest;
  }

  lemma {:induction false} ExpandStep(env: Env, s: string, p: nat, e: nat)
    requires Find(s, OPEN) == Some(p) && Find(s[p + 2..], CLOSE) == Some(e)
    ensures var after := s[p + 2..];
      Expand(env, s) == s[..p] + ValueOf(env, after[..e]) + Expand(env, after[e + 1..])
  {
    hide Find, FindFrom, Eval, ValueOf;
    var after := s[p + 2..];
    TwoMore(env, Literal(s[..p]), Reference(after[..e]), Lex(after[e + 1..]));
  }

  /** Text without a reference is a fixed point. */
  lemma {:induction false} NothingToExpand(env: Env, s: string)
    requires Find(s, OPEN).None?
    ensures Expand(env, s) == s
  {
    hide Find, FindFrom, Eval;
    OnePiece(env, s);
  }

  /** From an unclosed `${` on, text is copied verbatim, whatever further `${` it holds. */
  lemma {:induction false} UnclosedIsVerbatim(env: Env, s: string, p: nat)
    requires Find(s, OPEN) == Some(p) && Find(s[p + 2..], CLOSE).None?
    ensures Expand(env, s) == s && Expand(env, s[p + 2..]) == s[p + 2..]
  {
    hide Find, FindFrom, Eval;
    var after := s[p + 2..];
    OnePiece(env, s);
    OnePiece(env, after);
    if Find(after, OPEN).Some? {
      StillUnclosed(after, Find(after, OPEN).value + 2);
    }
  }

  lemma {:induction false} StillUnclosed(s: string, k: nat)
    requires Find(s, CLOSE).None? && k <= |s|
    ensures Find(s[k..], CLOSE).None?
  {
    hide Find, FindFrom, At;
    assert s[k..|s|] == s[k..];
    if Occurs(s[k..], CLOSE) {
      var i :| At(s[k..], CLOSE, i);
      AtSlice(s, CLOSE, k, |s|, i);
      assert false;
    }
  }

  /** Expansion goes left to right, one reference at a time: the value comes out whole and
      the rest is expanded on its own. */
  lemma {:induction false} ExpandReference(env: Env, p: string, n: string, q: string)
    requires Find(p, OPEN).None? && Find(n, CLOSE).None?
    ensures Expand(env, p + OPEN + n + CLOSE + q) == p + ValueOf(env, n) + Expand(env, q)
  {
    hide Find, FindFrom, Expand, ValueOf;
    var s := p + OPEN + n + CLOSE + q;
    FirstAfter(p, OPEN, n + CLOSE + q, '{');
    assert s == p + OPEN + (n + CLOSE + q);
    var after := s[|p| + 2..];
    assert after == n + CLOSE + q;
    FirstAfter(n, CLOSE, q, '}');
    ExpandStep(env, s, |p|, |n|);
    assert after[|n| + 1..] == q && after[..|n|] == n && s[..|p|] == p;
  }

  /** A short marker whose last character is not its first is first found right after a text
      that does not contain it. */
  lemma {:induction false} FirstAfter(a: string, m: string, b: string, last: char)
    requires Find(a, m).None? && (m == [last] || (|m| == 2 && m[1] == last && m[0] != last))
    ensures Find(a + m + b, m) == Some(|a|)
  {
    var s := a + m + b;
    assert s[|a|..|a| + |m|] == m;
    assert At(s, m, |a|);
    assert s[0..|a|] == a && s[|a|] == m[0];
    forall i | 0 <= i < |a| ensures !At(s, m, i) {
      AtSlice(s, m, 0, |a|, i);
      AtChars(s, m, i);
    }
  }

  // ---- What a reference stands for ----------------------------------------------------

  lemma {:induction false} ValueWithoutDefault(env: Env, n: string)
    requires !Occurs(n, ":-")
    ensures ValueOf(env, n) == if n in env then env[n] else ""
  {
    hide FindFrom;
  }

  lemma {:induction false} ValueWithDefault(env: Env, n: string, d: string)
    requires !Occurs(n, ":-")
    ensures ValueOf(env, n + ":-" + d) == if n in env then env[n] else d
  {
    hide FindFrom;
    FirstAfter(n, ":-", d, '-');
    var spec := n + ":-" + d;
    assert spec[..|n|] == n && spec[|n| + 2..] == d;
  }

  lemma {:induction false} NoClose(n: string, d: string)
    requires '}' !in n && '}' !in d
    ensures Find(n, CLOSE).None? && Find(n + ":-" + d, CLOSE).None?
  {
    ClosesAtABrace(n);
    ClosesAtABrace(n + ":-" + d);
  }

  lemma {:induction false} ClosesAtABrace(s: string)
    ensures Find(s, CLOSE).Some? <==> '}' in s
  {
    hide FindFrom;
    if Find(s, CLOSE).Some? {
      AtChars(s, CLOSE, Find(s, CLOSE).value);
      assert CLOSE[0] == '}';
    }
    if '}' in s {
      var i :| 0 <= i < |s| && s[i] == '}';
      assert s[i..i + 1] == CLOSE;
      assert At(s, CLOSE, i);
    }
  }

  /** The two forms of a reference in a text: `${n}` gives the variable's value or nothing, and
      `${n:-d}` its value or the default; what follows is expanded on its own. */
  lemma {:induction false} VariableExpands(env: Env, p: string, n: string, d: string, q: string)
    requires !Occurs(p, "${") && '}' !in n && '}' !in d && !Occurs(n, ":-")
    ensures Expand(env, p + "${" + n + "}" + q) == p + (if n in env then env[n] else "") + Expand(env, q)
    ensures Expand(env, p + "${" + (n + ":-" + d) + "}" + q) == p + (if n in env then env[n] else d) + Expand(env, q)
  {
    hide Find, FindFrom, Expand, ValueOf;
    NoClose(n, d);
    ValueWithoutDefault(env, n);
    ValueWithDefault(env, n, d);
    ExpandReference(env, p, n, q);
    ExpandReference(env, p, n + ":-" + d, q);
  }
}
