/** The string operations the parsers rely on: first occurrence, ASCII lower-casing and
    whitespace trimming. Offsets count characters. */
module Text {

  datatype Option<+T> = None | Some(value: T)

  // ---- Occurrences --------------------------------------------------------------------

  /** `p` occurs in `s` at offset `i`. */
  predicate At(s: string, p: string, i: int) {
    0 <= i && i + |p| <= |s| && s[i..i + |p|] == p
  }

  ghost predicate Occurs(s: string, p: string) {
    exists i :: At(s, p, i)
  }

  /** Rust's `str::find`: the first occurrence. */
  function Find(s: string, p: string): (r: Option<nat>)
    ensures r.Some? <==> Occurs(s, p)
    ensures r.Some? ==> At(s, p, r.value) && forall i :: i < r.value ==> !At(s, p, i)
    ensures r.Some? ==> r.value + |p| <= |s|
  {
    FindFrom(s, p, 0)
  }

  function FindFrom(s: string, p: string, from: nat): (r: Option<nat>)
    requires forall i :: i < from ==> !At(s, p, i)
    ensures r.Some? <==> Occurs(s, p)
    ensures r.Some? ==> At(s, p, r.value) && forall i :: i < r.value ==> !At(s, p, i)
    decreases |s| + 1 - from
  {
    if from + |p| > |s| then None
    else if At(s, p, from) then Some(from)
    else FindFrom(s, p, from + 1)
  }

  /** The characters of an occurrence. */
  lemma {:induction false} AtChars(s: string, p: string, i: int)
    ensures At(s, p, i) <==>
      0 <= i && i + |p| <= |s| && forall k {:trigger p[k]} :: 0 <= k < |p| ==> s[i + k] == p[k]
  {
    if 0 <= i && i + |p| <= |s| {
      var w := s[i..i + |p|];
      assert forall k :: 0 <= k < |w| ==> w[k] == s[i + k];
    }
  }

  /** Occurrences inside a slice are occurrences of the whole, and the other way round. */
  lemma {:induction false} AtSlice(s: string, p: string, a: nat, b: nat, i: int)
    requires a <= b <= |s|
    ensures At(s[a..b], p, i) <==> a <= a + i && a + i + |p| <= b && At(s, p, a + i)
  {
    AtChars(s[a..b], p, i);
    AtChars(s, p, a + i);
  }

  // ---- ASCII case ---------------------------------------------------------------------

  function LowerChar(c: char): char {
    if 'A' <= c <= 'Z' then (c as int + 32) as char else c
  }

  function Lower(s: string): (r: string)
    ensures |r| == |s| && forall i :: 0 <= i < |s| ==> r[i] == LowerChar(s[i])
  {
    seq(|s|, i requires 0 <= i < |s| => LowerChar(s[i]))
  }

  lemma {:induction false} LowerSlice(s: string, a: nat, b: nat)
    requires a <= b <= |s|
    ensures Lower(s[a..b]) == Lower(s)[a..b]
  {
  }

  /** The same letter, in whatever case. */
  predicate SameLetter(a: char, b: char) {
    a == b || ('a' <= a <= 'z' && b as int == a as int - 32) || ('a' <= b <= 'z' && a as int == b as int - 32)
  }

  ghost predicate SameSpelling(s: string, t: string) {
    |s| == |t| && forall i :: 0 <= i < |s| ==> SameLetter(s[i], t[i])
  }

  /** `key` stands at offset `p`, each of its letters in either case. */
  ghost predicate Spelled(s: string, key: string, p: int) {
    0 <= p && p + |key| <= |s| && SameSpelling(s[p..p + |key|], key)
  }

  lemma {:induction false} LowerIgnoresCase(s: string, t: string)
    ensures Lower(s) == Lower(t) <==> SameSpelling(s, t)
  {
    if Lower(s) == Lower(t) {
      forall i | 0 <= i < |s| ensures SameLetter(s[i], t[i]) {
        assert Lower(s)[i] == LowerChar(s[i]) && Lower(t)[i] == LowerChar(t[i]);
      }
    }
  }

  /** Searching the lower-cased text for a lower-case key finds every spelling of it. */
  lemma {:induction false} FindsEverySpelling(s: string, key: string, p: int)
    requires Lower(key) == key
    ensures At(Lower(s), key, p) <==> Spelled(s, key, p)
  {
    hide LowerChar, SameLetter;
    if 0 <= p && p + |key| <= |s| {
      LowerSlice(s, p, p + |key|);
      LowerIgnoresCase(s[p..p + |key|], key);
    }
  }

  // ---- Trimming -----------------------------------------------------------------------

  /** Unicode White_Space, which is what `str::trim` strips. */
  predicate IsSpace(c: char) {
    var u := c as int;
    || 0x09 <= u <= 0x0D || u == 0x20 || u == 0x85 || u == 0xA0 || u == 0x1680
    || 0x2000 <= u <= 0x200A || u == 0x2028 || u == 0x2029 || u == 0x202F || u == 0x205F || u == 0x3000
  }

  /** The 25 code points of that Unicode property, one by one. */
  const WHITE_SPACE: set<int> := {
    9, 10, 11, 12, 13, 32, 133, 160, 5760, 8192, 8193, 8194, 8195, 8196, 8197, 8198, 8199, 8200, 8201, 8202,
    8232, 8233, 8239, 8287, 12288}

  lemma {:induction false} BlanksAreWhiteSpace(c: char)
    ensures IsSpace(c) <==> c as int in WHITE_SPACE
  {
  }

  /** Every character of `s[a..b]` is a blank. */
  predicate Blank(s: string, a: nat, b: nat)
    requires b <= |s|
  {
    forall i :: a <= i < b ==> IsSpace(s[i])
  }

  predicate Trimmed(s: string) {
    s == "" || (!IsSpace(s[0]) && !IsSpace(s[|s| - 1]))
  }

  /** Leading blanks, from `i` on. */
  function Lead(s: string, i: nat): (n: nat)
    requires i <= |s|
    ensures i <= n <= |s| && Blank(s, i, n) && (n < |s| ==> !IsSpace(s[n]))
    decreases |s| - i
  {
    if i == |s| || !IsSpace(s[i]) then i else Lead(s, i + 1)
  }

  /** What is left of `s[..n]` before its trailing blanks. */
  function Stem(s: string, n: nat): (m: nat)
    requires n <= |s|
    ensures m <= n && Blank(s, m, n) && (m > 0 ==> !IsSpace(s[m - 1]))
  {
    if n == 0 || !IsSpace(s[n - 1]) then n else Stem(s, n - 1)
  }

  /** `str::trim`. */
  function Trim(s: string): (r: string)
    ensures Trimmed(r) && |r| <= |s|
  {
    var a := Lead(s, 0);
    if a == |s| then "" else s[a..Stem(s, |s|)]
  }

  /** Trimming is the only way to write a string as blanks, a trimmed core and blanks. */
  lemma {:induction false} TrimIsUnique(s: string, a: nat, b: nat)
    requires a <= b <= |s| && Blank(s, 0, a) && Blank(s, b, |s|) && Trimmed(s[a..b])
    ensures Trim(s) == s[a..b]
  {
    if a < b {
      assert s[a] == s[a..b][0] && s[b - 1] == s[a..b][b - a - 1];
      assert Lead(s, 0) == a;
      assert Stem(s, |s|) == b;
    }
  }

  /** Where the trimmed core sits. */
  lemma {:induction false} TrimIsASlice(s: string) returns (a: nat, b: nat)
    ensures a <= b <= |s| && Trim(s) == s[a..b] && Blank(s, 0, a) && Blank(s, b, |s|)
  {
    a := Lead(s, 0);
    b := if a == |s| then a else Stem(s, |s|);
  }
}
