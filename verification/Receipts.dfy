/** The delivery-receipt parser: first-occurrence key search, claimed-span check, sort by
    position, and slicing between hits. */
module Receipts {
  import opened Text

  /** The canonical keys; `submit date` and `done date` are two words. */
  datatype Key = SubmitDate | DoneDate | Dlvrd | Stat | TextKey | Sub | Err | Id

  /** The search order of the parser. */
  const KEYS: seq<Key> := [SubmitDate, DoneDate, Dlvrd, Stat, TextKey, Sub, Err, Id]

  /** What the parser looks for: the key and its colon. */
  function Needle(k: Key): string {
    match k
    case SubmitDate => "submit date:"
    case DoneDate => "done date:"
    case Dlvrd => "dlvrd:"
    case Stat => "stat:"
    case TextKey => "text:"
    case Sub => "sub:"
    case Err => "err:"
    case Id => "id:"
  }

  datatype Receipt = Receipt(
    id: Option<string>, sub: Option<string>, dlvrd: Option<string>, submitDate: Option<string>,
    doneDate: Option<string>, stat: Option<string>, err: Option<string>, text: Option<string>,
    raw: string)
  {
    function Get(k: Key): Option<string> {
      match k
      case SubmitDate => submitDate
      case DoneDate => doneDate
      case Dlvrd => dlvrd
      case Stat => stat
      case TextKey => text
      case Sub => sub
      case Err => err
      case Id => id
    }

    function Set(k: Key, v: string): (r: Receipt)
      ensures r.raw == raw && forall j :: r.Get(j) == if j == k then Some(v) else Get(j)
    {
      match k
      case SubmitDate => this.(submitDate := Some(v))
      case DoneDate => this.(doneDate := Some(v))
      case Dlvrd => this.(dlvrd := Some(v))
      case Stat => this.(stat := Some(v))
      case TextKey => this.(text := Some(v))
      case Sub => this.(sub := Some(v))
      case Err => this.(err := Some(v))
      case Id => this.(id := Some(v))
    }
  }

  const EMPTY := Receipt(None, None, None, None, None, None, None, None, "")

  // ---- The combinatorial core: how needles can overlap --------------------------------

  /** Every needle has exactly one colon, at its end. */
  lemma {:induction false} OneColon(k: Key, i: nat)
    requires i < |Needle(k)|
    ensures Needle(k)[i] == ':' <==> i == |Needle(k)| - 1
  {
  }

  lemma {:induction false} NeedlesAreLowerCase(k: Key)
    ensures Lower(Needle(k)) == Needle(k) && |Needle(k)| >= 3
  {
  }

  /** The two letters before a needle's colon, and the one six before it where that exists.
      They tell the keys apart, so no needle is a suffix of another. */
  function Ending(k: Key): (char, char, char) {
    match k
    case SubmitDate => ('e', 't', 't')
    case DoneDate => ('e', 't', 'e')
    case Dlvrd => ('d', 'r', ' ')
    case Stat => ('t', 'a', ' ')
    case TextKey => ('t', 'x', ' ')
    case Sub => ('b', 'u', ' ')
    case Err => ('r', 'r', ' ')
    case Id => ('d', 'i', ' ')
  }

  lemma {:induction false} NeedleEnding(k: Key)
    ensures var n := Needle(k);
      && |n| >= 3 && n[|n| - 2] == Ending(k).0 && n[|n| - 3] == Ending(k).1
      && (|n| >= 7 <==> k.SubmitDate? || k.DoneDate?)
      && (|n| >= 7 ==> n[|n| - 7] == Ending(k).2)
  {
  }

  lemma {:induction false} EndingDecides(j: Key, k: Key)
    requires Ending(j).0 == Ending(k).0 && Ending(j).1 == Ending(k).1
    requires k.SubmitDate? || k.DoneDate? ==> Ending(j).2 == Ending(k).2
    ensures j == k
  {
  }

  /** The letters an ending speaks of agree between a string and its suffix. */
  lemma {:induction false} SuffixLetters(n: string, m: string)
    requires 3 <= |m| <= |n| && n[|n| - |m|..] == m
    ensures n[|n| - 2] == m[|m| - 2] && n[|n| - 3] == m[|m| - 3]
    ensures |m| >= 7 ==> n[|n| - 7] == m[|m| - 7]
  {
    var d := |n| - |m|;
    assert m[|m| - 2] == n[d + (|m| - 2)] && m[|m| - 3] == n[d + (|m| - 3)];
    assert |m| >= 7 ==> m[|m| - 7] == n[d + (|m| - 7)];
  }

  /** `m`, the needle of `k`, ends like the needle of `j`. */
  lemma {:induction false} SameLetters(j: Key, k: Key, n: string, m: string)
    requires n == Needle(j) && m == Needle(k) && 3 <= |m| <= |n|
    requires n[|n| - 2] == m[|m| - 2] && n[|n| - 3] == m[|m| - 3]
    requires |m| >= 7 ==> n[|n| - 7] == m[|m| - 7]
    ensures j == k
  {
    hide Needle, Ending;
    NeedleEnding(j);
    NeedleEnding(k);
    EndingDecides(j, k);
  }

  lemma {:induction false} SuffixFree(j: Key, k: Key)
    requires |Needle(k)| <= |Needle(j)| && Needle(j)[|Needle(j)| - |Needle(k)|..] == Needle(k)
    ensures j == k
  {
    hide Needle;
    NeedleLength(k);
    SuffixLetters(Needle(j), Needle(k));
    SameLetters(j, k, Needle(j), Needle(k));
  }

  lemma {:induction false} NeedleLength(k: Key)
    ensures |Needle(k)| >= 3
  {
  }

  /** Two occurrences that end together are the same occurrence of the same key. */
  lemma {:induction false} SameEnd(h: string, j: Key, p: int, k: Key, q: int)
    requires At(h, Needle(j), p) && At(h, Needle(k), q)
    requires p + |Needle(j)| == q + |Needle(k)|
    ensures j == k && p == q
  {
    hide Needle;
    if p <= q {
      assert Needle(j)[q - p..] == h[p..p + |Needle(j)|][q - p..] == Needle(k);
      SuffixFree(j, k);
    } else {
      assert Needle(k)[p - q..] == h[q..q + |Needle(k)|][p - q..] == Needle(j);
      SuffixFree(k, j);
    }
  }

  /** Where the colon of one occurrence can fall relative to another occurrence. */
  lemma {:induction false} ColonOutside(h: string, j: Key, p: int, c: int)
    requires At(h, Needle(j), p) && 0 <= c < |h| && h[c] == ':' && p <= c < p + |Needle(j)|
    ensures c == p + |Needle(j)| - 1
  {
    hide Needle;
    assert h[p..p + |Needle(j)|][c - p] == h[c];
    OneColon(j, c - p);
  }

  lemma {:induction false} EndsInColon(h: string, j: Key, p: int)
    requires At(h, Needle(j), p)
    ensures |Needle(j)| >= 3 && h[p + |Needle(j)| - 1] == ':'
  {
    hide Needle;
    NeedlesAreLowerCase(j);
    assert h[p..p + |Needle(j)|][|Needle(j)| - 1] == h[p + |Needle(j)| - 1];
    OneColon(j, |Needle(j)| - 1);
  }

  /** Occurrences of different keys never overlap. */
  lemma {:induction false} Disjoint(h: string, j: Key, p: int, k: Key, q: int)
    requires At(h, Needle(j), p) && At(h, Needle(k), q) && j != k
    ensures p + |Needle(j)| <= q || q + |Needle(k)| <= p
  {
    hide Needle;
    var e, f := p + |Needle(j)|, q + |Needle(k)|;
    EndsInColon(h, j, p);
    EndsInColon(h, k, q);
    if e == f {
      SameEnd(h, j, p, k, q);
    } else if e < f && q < e {
      ColonOutside(h, k, q, e - 1);
    } else if f < e && p < f {
      ColonOutside(h, j, p, f - 1);
    }
  }

  // ---- What a parse should be ---------------------------------------------------------

  /** Where a key first occurs, whatever the case of its letters. */
  function First(raw: string, k: Key): (r: Option<nat>)
    ensures r.Some? ==> r.value + |Needle(k)| <= |raw|
  {
    Find(Lower(raw), Needle(k))
  }

  /** `e` is where the value of a key at `p` ends: at the next first occurrence of any key,
      or at the end of the body. */
  ghost predicate IsEnd(raw: string, p: nat, e: nat) {
    && (e == |raw| || exists j :: First(raw, j) == Some(e))
    && p < e <= |raw|
    && forall j :: First(raw, j).Some? ==> First(raw, j).value <= p || e <= First(raw, j).value
  }

  lemma {:induction false} EndIsUnique(raw: string, p: nat, e: nat, f: nat)
    requires IsEnd(raw, p, e) && IsEnd(raw, p, f)
    ensures e == f
  {
    hide First;
  }

  /** The field value of a key: absent when the key does not occur, else the trimmed text
      between the key and the end of its value. */
  ghost predicate IsField(raw: string, k: Key, v: Option<string>) {
    match First(raw, k)
    case None => v == None
    case Some(p) => exists e: nat :: IsEnd(raw, p, e) && p + |Needle(k)| <= e
                                && v == Some(Trim(raw[p + |Needle(k)|..e]))
  }

  lemma {:induction false} FieldIsUnique(raw: string, k: Key, v: Option<string>, w: Option<string>)
    requires IsField(raw, k, v) && IsField(raw, k, w)
    ensures v == w
  {
    hide First;
    if First(raw, k).Some? {
      var p := First(raw, k).value;
      var e: nat :| IsEnd(raw, p, e) && p + |Needle(k)| <= e && v == Some(Trim(raw[p + |Needle(k)|..e]));
      var f: nat :| IsEnd(raw, p, f) && p + |Needle(k)| <= f && w == Some(Trim(raw[p + |Needle(k)|..f]));
      EndIsUnique(raw, p, e, f);
    }
  }

  // ---- The parser ---------------------------------------------------------------------

  datatype Hit = Hit(pos: nat, len: nat, key: Key)

  /** The hits the search must find: each key that occurs, where it first occurs. */
  ghost predicate AreHits(raw: string, ks: seq<Key>, hits: seq<Hit>) {
    && (forall h :: h in hits ==> IsHit(raw, h) && h.key in ks)
    && (forall k :: k in ks && First(raw, k).Some? ==> Hit(First(raw, k).value, |Needle(k)|, k) in hits)
  }

  ghost predicate IsHit(raw: string, h: Hit) {
    First(raw, h.key) == Some(h.pos) && h.len == |Needle(h.key)|
  }

  predicate Before(a: Hit, b: Hit) { a.pos + a.len <= b.pos }

  ghost predicate Apart(hits: seq<Hit>) {
    forall i, j :: 0 <= i < j < |hits| ==> Before(hits[i], hits[j]) || Before(hits[j], hits[i])
  }

  ghost predicate InOrder(hits: seq<Hit>) {
    forall i, j :: 0 <= i < j < |hits| ==> Before(hits[i], hits[j])
  }

  /** `sort_by_key` on the position. */
  function SortByPos(hits: seq<Hit>): (r: seq<Hit>)
    ensures |r| == |hits| && forall h :: h in r <==> h in hits
  {
    if hits == [] then []
    else
      assert forall h :: h in hits <==> h == hits[0] || h in hits[1..];
      Insert(hits[0], SortByPos(hits[1..]))
  }

  function Insert(h: Hit, hits: seq<Hit>): (r: seq<Hit>)
    ensures |r| == |hits| + 1 && forall x :: x in r <==> x == h || x in hits
  {
    if hits == [] then [h]
    else if h.pos <= hits[0].pos then [h] + hits
    else
      assert forall x :: x in hits <==> x == hits[0] || x in hits[1..];
      [hits[0]] + Insert(h, hits[1..])
  }

  lemma {:induction false} InsertSorts(h: Hit, hits: seq<Hit>)
    requires InOrder(hits) && h.len > 0
    requires forall x :: x in hits ==> x.len > 0 && (Before(h, x) || Before(x, h))
    ensures InOrder(Insert(h, hits))
  {
    if hits != [] {
      assert forall i :: 0 < i < |hits| ==> Before(hits[0], hits[i]);
      if h.pos > hits[0].pos {
        InsertSorts(h, hits[1..]);
        var rest := Insert(h, hits[1..]);
        forall i | 0 <= i < |rest| ensures Before(hits[0], rest[i]) {
          assert rest[i] in rest;
        }
      } else {
        forall i | 0 <= i < |hits| ensures Before(h, hits[i]) {
          assert hits[i] in hits && hits[0] in hits;
        }
      }
    }
  }

  lemma {:induction false} SortSorts(hits: seq<Hit>)
    requires Apart(hits) && forall h :: h in hits ==> h.len > 0
    ensures InOrder(SortByPos(hits))
  {
    if hits != [] {
      SortSorts(hits[1..]);
      forall x | x in SortByPos(hits[1..])
        ensures x.len > 0 && (Before(hits[0], x) || Before(x, hits[0]))
      {
        assert x in hits[1..];
      }
      InsertSorts(hits[0], SortByPos(hits[1..]));
    }
  }

  /** First occurrences of different keys lie apart, so the parser's skip never fires. */
  lemma {:induction false} HitsLieApart(raw: string, a: Hit, b: Hit)
    requires IsHit(raw, a) && IsHit(raw, b) && a.key != b.key
    ensures Before(a, b) || Before(b, a)
    ensures a.len > 0
  {
    hide Needle;
    NeedlesAreLowerCase(a.key);
    Disjoint(Lower(raw), a.key, a.pos, b.key, b.pos);
  }

  lemma {:induction false} NeverClaimed(raw: string, k: Key, pos: nat, hits: seq<Hit>)
    requires First(raw, k) == Some(pos)
    requires forall h :: h in hits ==> IsHit(raw, h) && h.key != k
    ensures forall h :: h in hits ==> !(h.pos <= pos < h.pos + h.len)
    ensures Apart(hits) ==> Apart(hits + [Hit(pos, |Needle(k)|, k)])
  {
    hide First, Needle;
    var added := Hit(pos, |Needle(k)|, k);
    forall h | h in hits
      ensures !(h.pos <= pos < h.pos + h.len) && (Before(h, added) || Before(added, h))
    {
      HitsLieApart(raw, h, added);
      HitsLieApart(raw, added, h);
    }
  }

  /** The search loop finds the first occurrence of every key that occurs, apart from each
      other; the check for a span already claimed discards nothing. */
  method FindHits(raw: string) returns (hits: seq<Hit>)
    ensures AreHits(raw, KEYS, hits) && Apart(hits)
  {
    hide Needle, Find;
    var hay := Lower(raw);
    hits := [];
    for i := 0 to |KEYS|
      invariant AreHits(raw, KEYS[..i], hits) && Apart(hits)
    {
      var needle := Needle(KEYS[i]);
      assert KEYS[..i + 1] == KEYS[..i] + [KEYS[i]] && KEYS[i] !in KEYS[..i];
      match Find(hay, needle)
      case None =>
      case Some(pos) =>
        assert First(raw, KEYS[i]) == Some(pos);
        NeverClaimed(raw, KEYS[i], pos, hits);
        if !exists h :: h in hits && h.pos <= pos < h.pos + h.len {
          hits := hits + [Hit(pos, |needle|, KEYS[i])];
        }
    }
    assert KEYS[..|KEYS|] == KEYS;
  }

  lemma {:induction false} AllKeys(k: Key)
    ensures k in KEYS
  {
    assert KEYS[0] == SubmitDate && KEYS[1] == DoneDate && KEYS[2] == Dlvrd && KEYS[3] == Stat;
    assert KEYS[4] == TextKey && KEYS[5] == Sub && KEYS[6] == Err && KEYS[7] == Id;
  }

  /** Hits in body order, together with everything the search promised. */
  ghost predicate IsLayout(raw: string, hits: seq<Hit>) {
    AreHits(raw, KEYS, hits) && InOrder(hits) && forall h :: h in hits ==> h.len > 0
  }

  /** Where the value after hit `i` stops. */
  function ValueEnd(raw: string, hits: seq<Hit>, i: nat): nat {
    if i + 1 < |hits| then hits[i + 1].pos else |raw|
  }

  lemma {:induction false} LayoutGivesEnds(raw: string, hits: seq<Hit>, i: nat)
    requires IsLayout(raw, hits) && i < |hits|
    ensures IsEnd(raw, hits[i].pos, ValueEnd(raw, hits, i))
    ensures hits[i].pos + hits[i].len <= ValueEnd(raw, hits, i) <= |raw|
    ensures hits[i].len == |Needle(hits[i].key)| && First(raw, hits[i].key) == Some(hits[i].pos)
  {
    hide Needle, Find;
    var e := ValueEnd(raw, hits, i);
    assert hits[i] in hits;
    if i + 1 < |hits| {
      assert Before(hits[i], hits[i + 1]) && hits[i + 1] in hits;
      assert First(raw, hits[i + 1].key) == Some(e);
    }
    forall j | First(raw, j).Some?
      ensures First(raw, j).value <= hits[i].pos || e <= First(raw, j).value
    {
      AllKeys(j);
      var h := Hit(First(raw, j).value, |Needle(j)|, j);
      assert h in hits;
      var m :| 0 <= m < |hits| && hits[m] == h;
      if m < i { assert Before(hits[m], hits[i]); }
      if i + 1 < m { assert Before(hits[i + 1], hits[m]); }
    }
  }

  /** The slicing loop: each hit's value runs to the next hit. */
  method FillFields(raw: string, hits: seq<Hit>) returns (out: Receipt)
    requires IsLayout(raw, hits)
    ensures out.raw == raw && forall k :: IsField(raw, k, out.Get(k))
  {
    hide First, IsEnd, Needle, Trim;
    out := EMPTY.(raw := raw);
    for i := 0 to |hits|
      invariant out.raw == raw
      invariant forall k :: out.Get(k).Some? ==> IsField(raw, k, out.Get(k))
      invariant forall m :: 0 <= m < i ==> out.Get(hits[m].key).Some?
    {
      LayoutGivesEnds(raw, hits, i);
      var start := hits[i].pos + hits[i].len;
      var end := if i + 1 < |hits| then hits[i + 1].pos else |raw|;
      var value := Trim(raw[start..end]);
      assert IsField(raw, hits[i].key, Some(value));
      out := out.Set(hits[i].key, value);
    }
    forall k ensures IsField(raw, k, out.Get(k)) {
      AllKeys(k);
      if First(raw, k).Some? {
        var m :| 0 <= m < |hits| && hits[m] == Hit(First(raw, k).value, |Needle(k)|, k);
        assert out.Get(hits[m].key).Some?;
      }
    }
  }

  lemma {:induction false} FieldPresence(raw: string, k: Key, v: Option<string>)
    requires IsField(raw, k, v)
    ensures v.Some? <==> Occurs(Lower(raw), Needle(k))
  {
    hide Needle, At, IsEnd, Trim;
  }

  lemma {:induction false} NoHitsNoKeys(raw: string, hits: seq<Hit>, k: Key)
    requires AreHits(raw, KEYS, hits)
    ensures hits == [] ==> !Occurs(Lower(raw), Needle(k))
    ensures hits != [] ==> Occurs(Lower(raw), Needle(hits[0].key))
  {
    hide Needle, At;
    AllKeys(k);
    assert hits != [] ==> hits[0] in hits;
  }

  // ---- What every parse satisfies -----------------------------------------------------

  /** Each hit's span followed by its untrimmed value, from hit `i` on. */
  ghost function Pieces(raw: string, hits: seq<Hit>, i: nat): string
    requires IsLayout(raw, hits)
    decreases |hits| - i
  {
    if i >= |hits| then ""
    else
      LayoutGivesEnds(raw, hits, i);
      var h := hits[i];
      raw[h.pos..h.pos + h.len] + raw[h.pos + h.len..ValueEnd(raw, hits, i)] + Pieces(raw, hits, i + 1)
  }

  lemma {:induction false} Rejoin(s: string, p: nat, q: nat, e: nat)
    requires p <= q <= e <= |s|
    ensures s[p..q] + s[q..e] + s[e..] == s[p..] && (e == |s| ==> s[p..q] + s[q..e] + "" == s[p..])
  {
  }

  lemma {:induction false} PiecesStep(raw: string, hits: seq<Hit>, i: nat)
    requires IsLayout(raw, hits) && i < |hits|
    ensures var h, e := hits[i], ValueEnd(raw, hits, i);
      && h.pos <= h.pos + h.len <= e <= |raw|
      && Pieces(raw, hits, i) == raw[h.pos..h.pos + h.len] + raw[h.pos + h.len..e] + Pieces(raw, hits, i + 1)
    ensures Pieces(raw, hits, |hits|) == ""
  {
    hide IsLayout, First, IsEnd, Needle;
    LayoutGivesEnds(raw, hits, i);
  }

  lemma {:induction false} PiecesAreASuffix(raw: string, hits: seq<Hit>, i: nat)
    requires IsLayout(raw, hits) && i < |hits|
    ensures hits[i].pos <= |raw| && Pieces(raw, hits, i) == raw[hits[i].pos..]
    decreases |hits| - i
  {
    hide IsLayout, Pieces;
    PiecesStep(raw, hits, i);
    if i + 1 < |hits| {
      PiecesAreASuffix(raw, hits, i + 1);
    }
    Rejoin(raw, hits[i].pos, hits[i].pos + hits[i].len, ValueEnd(raw, hits, i));
  }

  lemma {:induction false} SpanSpellsKey(raw: string, k: Key)
    requires First(raw, k).Some?
    ensures var p := First(raw, k).value; Lower(raw[p..p + |Needle(k)|]) == Needle(k)
  {
    hide Needle;
    LowerSlice(raw, First(raw, k).value, First(raw, k).value + |Needle(k)|);
  }

  /** Hit `i` spells its key in some case, and its field is the trim of its own segment. */
  ghost predicate IsCut(raw: string, hits: seq<Hit>, i: nat, r: Receipt)
    requires i < |hits|
  {
    var h := hits[i];
    && h.pos + h.len <= ValueEnd(raw, hits, i) <= |raw|
    && Lower(raw[h.pos..h.pos + h.len]) == Needle(h.key)
    && r.Get(h.key) == Some(Trim(raw[h.pos + h.len..ValueEnd(raw, hits, i)]))
  }

  /** The text before the first hit, then each key span and its untrimmed value in order, is
      the body. */
  ghost predicate IsPartition(raw: string, hits: seq<Hit>, r: Receipt)
    requires IsLayout(raw, hits) && hits != []
  {
    && hits[0].pos <= |raw| && raw == raw[..hits[0].pos] + Pieces(raw, hits, 0)
    && forall i :: 0 <= i < |hits| ==> IsCut(raw, hits, i, r)
  }

  lemma {:induction false} HitIsCut(raw: string, hits: seq<Hit>, i: nat, r: Receipt)
    requires IsLayout(raw, hits) && i < |hits| && IsField(raw, hits[i].key, r.Get(hits[i].key))
    ensures IsCut(raw, hits, i, r)
  {
    hide Needle, Trim, IsEnd, First, IsLayout, IsField;
    var h := hits[i];
    LayoutGivesEnds(raw, hits, i);
    SpanSpellsKey(raw, h.key);
    SegmentIsField(raw, h.key, h.pos, ValueEnd(raw, hits, i));
    FieldIsUnique(raw, h.key, r.Get(h.key), Some(Trim(raw[h.pos + h.len..ValueEnd(raw, hits, i)])));
  }

  /** A parse is a partition of the body. */
  lemma {:induction false} ParseIsAPartition(raw: string, hits: seq<Hit>, r: Receipt)
    requires IsLayout(raw, hits) && hits != [] && forall k :: IsField(raw, k, r.Get(k))
    ensures IsPartition(raw, hits, r)
  {
    hide IsLayout, IsField, Pieces, IsCut;
    PiecesAreASuffix(raw, hits, 0);
    assert raw == raw[..hits[0].pos] + raw[hits[0].pos..];
    forall i | 0 <= i < |hits| ensures IsCut(raw, hits, i, r) { HitIsCut(raw, hits, i, r); }
  }

  lemma {:induction false} SegmentIsField(raw: string, k: Key, p: nat, e: nat)
    requires First(raw, k) == Some(p) && IsEnd(raw, p, e) && p + |Needle(k)| <= e
    ensures IsField(raw, k, Some(Trim(raw[p + |Needle(k)|..e])))
  {
    hide First, IsEnd, Needle, Trim;
  }

  /** A key occurs, each of its letters in either case. */
  ghost predicate Names(raw: string, key: string) {
    exists p :: Spelled(raw, key, p)
  }

  /** Each field is set exactly when its own key occurs. */
  ghost predicate SetWhereNamed(raw: string, r: Receipt) {
    && (r.id.Some? <==> Names(raw, "id:"))
    && (r.sub.Some? <==> Names(raw, "sub:"))
    && (r.dlvrd.Some? <==> Names(raw, "dlvrd:"))
    && (r.submitDate.Some? <==> Names(raw, "submit date:"))
    && (r.doneDate.Some? <==> Names(raw, "done date:"))
    && (r.stat.Some? <==> Names(raw, "stat:"))
    && (r.err.Some? <==> Names(raw, "err:"))
    && (r.text.Some? <==> Names(raw, "text:"))
  }

  ghost predicate NamesNothing(raw: string) {
    && !Names(raw, "id:") && !Names(raw, "sub:") && !Names(raw, "dlvrd:") && !Names(raw, "submit date:")
    && !Names(raw, "done date:") && !Names(raw, "stat:") && !Names(raw, "err:") && !Names(raw, "text:")
  }

  lemma {:induction false} OccursIsNames(raw: string, k: Key)
    ensures Occurs(Lower(raw), Needle(k)) <==> Names(raw, Needle(k))
  {
    hide Needle, At, Spelled;
    NeedlesAreLowerCase(k);
    if Occurs(Lower(raw), Needle(k)) {
      var p :| At(Lower(raw), Needle(k), p);
      FindsEverySpelling(raw, Needle(k), p);
    }
    if Names(raw, Needle(k)) {
      var p :| Spelled(raw, Needle(k), p);
      FindsEverySpelling(raw, Needle(k), p);
    }
  }

  /** The keys as they are written. */
  lemma {:induction false} KeysAreWritten()
    ensures Needle(Id) == "id:" && Needle(Sub) == "sub:" && Needle(Dlvrd) == "dlvrd:"
    ensures Needle(SubmitDate) == "submit date:" && Needle(DoneDate) == "done date:"
    ensures Needle(Stat) == "stat:" && Needle(Err) == "err:" && Needle(TextKey) == "text:"
  {
  }

  lemma {:induction false} FieldsAreNamed(raw: string, r: Receipt)
    requires forall k :: r.Get(k).Some? <==> Occurs(Lower(raw), Needle(k))
    ensures SetWhereNamed(raw, r)
  {
    KeysAreWritten();
    hide Needle, Occurs, Names;
    forall k ensures r.Get(k).Some? <==> Names(raw, Needle(k)) { OccursIsNames(raw, k); }
    assert r.Get(Id) == r.id && r.Get(Sub) == r.sub && r.Get(Dlvrd) == r.dlvrd && r.Get(SubmitDate) == r.submitDate;
    assert r.Get(DoneDate) == r.doneDate && r.Get(Stat) == r.stat && r.Get(Err) == r.err && r.Get(TextKey) == r.text;
  }

  lemma {:induction false} NothingIsNamed(raw: string)
    ensures NamesNothing(raw) <==> forall k :: !Occurs(Lower(raw), Needle(k))
  {
    KeysAreWritten();
    hide Needle, Occurs, Names;
    forall k ensures Occurs(Lower(raw), Needle(k)) <==> Names(raw, Needle(k)) { OccursIsNames(raw, k); }
    if NamesNothing(raw) {
      forall k ensures !Names(raw, Needle(k)) {
        match k
        case SubmitDate => case DoneDate => case Dlvrd => case Stat =>
        case TextKey => case Sub => case Err => case Id =>
      }
    }
  }

  /** Case does not matter: bodies that differ only in the case of letters have the same keys at
      the same places, and values between the same offsets. */
  lemma {:induction false} CaseDoesNotMatter(raw: string, other: string, k: Key, p: nat, e: nat)
    requires SameSpelling(raw, other)
    ensures First(raw, k) == First(other, k)
    ensures IsEnd(raw, p, e) <==> IsEnd(other, p, e)
  {
    hide Find, Needle, SameLetter;
    LowerIgnoresCase(raw, other);
    assert forall j :: First(raw, j) == First(other, j);
    if IsEnd(raw, p, e) && e != |raw| {
      var j :| First(raw, j) == Some(e);
      assert First(other, j) == Some(e);
    }
    if IsEnd(other, p, e) && e != |raw| {
      var j :| First(other, j) == Some(e);
      assert First(raw, j) == Some(e);
    }
  }

  /** `Receipt::parse`. The body is not a receipt exactly when no `key:` occurs in it, in any
      case; otherwise a field is set exactly when its key occurs, every field is what the
      specification says, and the raw body is kept. The hits it worked from, in body order,
      cut the body into the text before the first of them, the key spans and the values. */
  method Parse(raw: string) returns (r: Option<Receipt>, ghost hits: seq<Hit>)
    ensures r.None? <==> NamesNothing(raw)
    ensures r.Some? ==> r.value.raw == raw && SetWhereNamed(raw, r.value)
    ensures r.Some? ==> forall k :: IsField(raw, k, r.value.Get(k))
    ensures r.Some? ==> IsLayout(raw, hits) && hits != [] && IsPartition(raw, hits, r.value)
  {
    hide First, Needle, Occurs, IsField, IsPartition, NamesNothing, SetWhereNamed;
    NothingIsNamed(raw);
    var found := FindHits(raw);
    hits := found;
    forall k ensures found == [] ==> !Occurs(Lower(raw), Needle(k)) { NoHitsNoKeys(raw, found, k); }
    if found == [] {
      return None, hits;
    }
    NoHitsNoKeys(raw, found, found[0].key);
    forall h | h in found ensures h.len > 0 { NeedlesAreLowerCase(h.key); }
    SortSorts(found);
    found := SortByPos(found);
    var out := FillFields(raw, found);
    forall k ensures out.Get(k).Some? <==> Occurs(Lower(raw), Needle(k)) {
      FieldPresence(raw, k, out.Get(k));
    }
    FieldsAreNamed(raw, out);
    ParseIsAPartition(raw, found, out);
    hits := found;
    r := Some(out);
  }

  /** Documentation says the text runs to the end of the body. It does exactly when every
      other key that occurs at all occurs before `text:`. */
  lemma {:induction false} TextRunsToTheEnd(raw: string, v: string)
    requires First(raw, TextKey).Some? && IsField(raw, TextKey, Some(v))
    ensures var p := First(raw, TextKey).value;
      v == Trim(raw[p + |Needle(TextKey)|..]) <==> forall k :: First(raw, k).Some? ==> First(raw, k).value <= p
  {
    hide Needle, First, Trim, Find;
    var p := First(raw, TextKey).value;
    var start := p + |Needle(TextKey)|;
    var e: nat :| IsEnd(raw, p, e) && start <= e && v == Trim(raw[start..e]);
    if e == |raw| {
      assert raw[start..e] == raw[start..];
      forall k | First(raw, k).Some? ensures First(raw, k).value <= p {
        NeedlesAreLowerCase(k);
      }
    } else {
      var j :| First(raw, j) == Some(e);
      LaterKeyCutsText(raw, start, j);
    }
  }

  lemma {:induction false} LaterKeyCutsText(raw: string, start: nat, j: Key)
    requires First(raw, j).Some? && start <= First(raw, j).value
    ensures Trim(raw[start..First(raw, j).value]) != Trim(raw[start..])
  {
    hide Needle, Trim;
    var e := First(raw, j).value;
    EndsInColon(Lower(raw), j, e);
    var c := e + |Needle(j)| - 1;
    assert raw[c] == ':';
    LongerTrim(raw[start..], e - start, c - start);
    assert raw[start..][..e - start] == raw[start..e];
  }

  /** Cutting a string before a visible character changes its trim. */
  lemma {:induction false} LongerTrim(s: string, cut: nat, c: nat)
    requires cut <= c < |s| && !IsSpace(s[c])
    ensures Trim(s[..cut]) != Trim(s)
  {
    var a, b := TrimIsASlice(s);
    assert a <= c < b by { assert Blank(s, 0, a) && Blank(s, b, |s|); }
    var x, y := TrimIsASlice(s[..cut]);
    assert x < y && a < b ==> s[..cut][x..y][0] == s[x] && s[a..b][0] == s[a];
  }

  /** A family of bodies that break the documented promise, `text:id:` among them: the text
      reads as empty although something visible follows it. */
  lemma {:induction false} TextCanBeCutShort(k: Key)
    requires k != TextKey
    ensures var s := Needle(TextKey) + Needle(k);
      IsField(s, TextKey, Some("")) && Trim(s[|Needle(TextKey)|..]) != ""
  {
    hide Needle, IsField, Trim;
    FirstsOfTheTwo(k);
    AdjacentKeysCut(Needle(TextKey) + Needle(k), |Needle(TextKey)|, k);
  }

  lemma {:induction false} AdjacentKeysCut(s: string, n: nat, k: Key)
    requires n == |Needle(TextKey)| && n <= |s|
    requires First(s, TextKey) == Some(0) && First(s, k) == Some(n)
    requires forall j :: First(s, j).Some? ==> First(s, j).value == 0 || First(s, j).value == n
    ensures IsField(s, TextKey, Some("")) && Trim(s[n..]) != ""
  {
    hide Needle, First, Trim;
    LaterKeyCutsText(s, n, k);
    NothingBetween(s, n);
    NeedlesAreLowerCase(TextKey);
    assert IsEnd(s, 0, n);
  }

  lemma {:induction false} FirstsOfTheTwo(k: Key)
    requires k != TextKey
    ensures var s, n := Needle(TextKey) + Needle(k), |Needle(TextKey)|;
      && First(s, TextKey) == Some(0) && First(s, k) == Some(n)
      && forall j :: First(s, j).Some? ==> First(s, j).value == 0 || First(s, j).value == n
  {
    hide Needle, At, FindFrom;
    var s, n := Needle(TextKey) + Needle(k), |Needle(TextKey)|;
    NeedlesAreLowerCase(TextKey);
    NeedlesAreLowerCase(k);
    assert Lower(s) == Lower(Needle(TextKey)) + Lower(Needle(k)) == s;
    hide Lower;
    OnlyTheTwo(k);
  }

  lemma {:induction false} NothingBetween(s: string, n: nat)
    requires n <= |s|
    ensures Trim(s[n..n]) == ""
  {
  }

  lemma {:induction false} OnlyTheTwo(k: Key)
    requires k != TextKey
    ensures var s, n := Needle(TextKey) + Needle(k), |Needle(TextKey)|;
      && At(s, Needle(TextKey), 0) && At(s, Needle(k), n)
      && forall j, q :: At(s, Needle(j), q) ==> (j == TextKey && q == 0) || (j == k && q == n)
  {
    hide Needle;
    var s, n := Needle(TextKey) + Needle(k), |Needle(TextKey)|;
    assert At(s, Needle(TextKey), 0) && At(s, Needle(k), n);
    hide At;
    forall j, q | At(s, Needle(j), q) ensures (j == TextKey && q == 0) || (j == k && q == n) {
      InTheTwo(s, k, n, j, q);
    }
  }

  lemma {:induction false} InTheTwo(s: string, k: Key, n: nat, j: Key, q: int)
    requires At(s, Needle(TextKey), 0) && At(s, Needle(k), n) && At(s, Needle(j), q)
    requires n == |Needle(TextKey)| && |s| == n + |Needle(k)|
    ensures (j == TextKey && q == 0) || (j == k && q == n)
  {
    hide Needle;
    EndsInColon(s, j, q);
    var c := q + |Needle(j)| - 1;
    if c < n {
      ColonOutside(s, TextKey, 0, c);
      SameEnd(s, j, q, TextKey, 0);
    } else {
      ColonOutside(s, k, n, c);
      SameEnd(s, j, q, k, n);
    }
  }
}
