/** The receipt body the gateway rebuilds for its own ESME, and what the parser makes of it. */
module ReceiptRewrite {
  import opened Text
  import opened Receipts

  const FIELDS: nat := 8

  /** The order in which the gateway prints the fields. */
  function Printed(i: nat): Key
    requires i < FIELDS
  {
    if i == 0 then Id else if i == 1 then Sub else if i == 2 then Dlvrd else if i == 3 then SubmitDate
    else if i == 4 then DoneDate else if i == 5 then Stat else if i == 6 then Err else TextKey
  }

  type Values = vs: seq<string> | |vs| == FIELDS witness ["", "", "", "", "", "", "", ""]

  /** `key:value` pairs from number `i` on, separated by single spaces. */
  function RenderFrom(vs: Values, i: nat): string
    requires i < FIELDS
    decreases FIELDS - i
  {
    Needle(Printed(i)) + vs[i] + if i + 1 < FIELDS then " " + RenderFrom(vs, i + 1) else ""
  }

  function Render(vs: Values): string { RenderFrom(vs, 0) }

  // ---- Where everything is printed ----------------------------------------------------

  ghost function KeyAt(vs: Values, i: nat): nat
    requires i < FIELDS
    decreases i, 0
  {
    if i == 0 then 0 else ValueAt(vs, i - 1) + |vs[i - 1]| + 1
  }

  ghost function ValueAt(vs: Values, i: nat): nat
    requires i < FIELDS
    decreases i, 1
  {
    KeyAt(vs, i) + |Needle(Printed(i))|
  }

  ghost function EndAt(vs: Values, i: nat): nat
    requires i < FIELDS
  {
    if i + 1 < FIELDS then KeyAt(vs, i + 1) else |Render(vs)|
  }

  lemma {:induction false} RenderStep(vs: Values, i: nat)
    requires i + 1 < FIELDS
    ensures RenderFrom(vs, i) == (Needle(Printed(i)) + vs[i] + " ") + RenderFrom(vs, i + 1)
    ensures KeyAt(vs, i + 1) == KeyAt(vs, i) + |Needle(Printed(i)) + vs[i] + " "|
  {
    hide Needle, Printed;
  }

  lemma {:induction false} RenderStart(vs: Values)
    ensures KeyAt(vs, 0) == 0 && Render(vs)[0..] == Render(vs) == RenderFrom(vs, 0)
  {
    hide Needle, Printed;
  }

  lemma {:induction false} RenderSuffix(vs: Values, i: nat)
    requires i < FIELDS
    ensures KeyAt(vs, i) <= |Render(vs)| && Render(vs)[KeyAt(vs, i)..] == RenderFrom(vs, i)
  {
    hide Needle, Printed, Render, RenderFrom, KeyAt;
    if i == 0 {
      RenderStart(vs);
    } else {
      RenderSuffix(vs, i - 1);
      RenderStep(vs, i - 1);
      DropFrom(Render(vs), KeyAt(vs, i - 1), Needle(Printed(i - 1)) + vs[i - 1] + " ", RenderFrom(vs, i));
    }
  }

  lemma {:induction false} DropFrom(s: string, k: nat, a: string, b: string)
    requires k <= |s| && s[k..] == a + b
    ensures k + |a| <= |s| && s[k + |a|..] == b
  {
    assert |s| == k + |a + b|;
    assert s[k..][|a|..] == s[k + |a|..];
  }

  /** Field `i` as it sits in the body. */
  lemma {:induction false} FieldLayout(vs: Values, i: nat)
    requires i < FIELDS
    ensures ValueAt(vs, i) == KeyAt(vs, i) + |Needle(Printed(i))|
    ensures EndAt(vs, i) == ValueAt(vs, i) + |vs[i]| + (if i + 1 < FIELDS then 1 else 0)
    ensures EndAt(vs, i) == if i + 1 < FIELDS then KeyAt(vs, i + 1) else |Render(vs)|
    ensures ValueAt(vs, i) + |vs[i]| <= EndAt(vs, i) <= |Render(vs)|
    ensures At(Lower(Render(vs)), Needle(Printed(i)), KeyAt(vs, i))
    ensures Render(vs)[ValueAt(vs, i)..ValueAt(vs, i) + |vs[i]|] == vs[i]
    ensures i + 1 < FIELDS ==> Render(vs)[EndAt(vs, i) - 1] == ' '
  {
    hide Needle, Printed, LowerChar, Render;
    RenderSuffix(vs, i);
    if i + 1 < FIELDS { RenderSuffix(vs, i + 1); }
    var raw, k, n := Render(vs), KeyAt(vs, i), Needle(Printed(i));
    var rest := RenderFrom(vs, i);
    assert |raw| == k + |rest|;
    NeedlesAreLowerCase(Printed(i));
    SliceOfSuffix(raw, k, n, vs[i], rest[|n| + |vs[i]|..]);
  }

  lemma {:induction false} SliceOfSuffix(raw: string, k: nat, n: string, v: string, tail: string)
    requires k <= |raw| && raw[k..] == n + v + tail && Lower(n) == n
    ensures At(Lower(raw), n, k) && k + |n| + |v| <= |raw| && raw[k + |n|..k + |n| + |v|] == v
    ensures tail != "" ==> raw[k + |n| + |v|] == tail[0]
  {
    hide LowerChar;
    var rest := n + v + tail;
    assert |raw| == k + |rest|;
    assert raw[k..k + |n|] == rest[..|n|] == n;
    assert raw[k + |n|..k + |n| + |v|] == rest[|n|..|n| + |v|] == v;
    LowerSlice(raw, k, k + |n|);
    if tail != "" { assert raw[k..][|n| + |v|] == raw[k + |n| + |v|]; }
  }

  /** Every offset belongs to exactly one printed field. */
  lemma {:induction false} Locate(vs: Values, c: nat, from: nat) returns (i: nat)
    requires from < FIELDS && KeyAt(vs, from) <= c < |Render(vs)|
    ensures i < FIELDS && KeyAt(vs, i) <= c < EndAt(vs, i)
    decreases FIELDS - from
  {
    hide Needle, Printed, Render, KeyAt, ValueAt, EndAt;
    FieldLayout(vs, from);
    if c < EndAt(vs, from) { i := from; } else { i := Locate(vs, c, from + 1); }
  }

  lemma {:induction false} KeysAreOrdered(vs: Values, i: nat, j: nat)
    requires i < j < FIELDS
    ensures EndAt(vs, i) <= KeyAt(vs, j)
  {
    hide Needle, Printed, Render, KeyAt, ValueAt, EndAt;
    if i + 1 < j { KeysAreOrdered(vs, i, j - 1); FieldLayout(vs, j - 1); } else { FieldLayout(vs, i); }
  }

  /** An occurrence of any key is either where the gateway printed that key or lies wholly
      inside some printed value. */
  lemma {:induction false} Occurrence(vs: Values, k: Key, q: int) returns (i: nat)
    requires At(Lower(Render(vs)), Needle(k), q)
    ensures i < FIELDS
    ensures (k == Printed(i) && q == KeyAt(vs, i))
      || (ValueAt(vs, i) <= q < EndAt(vs, i) && At(Lower(vs[i]), Needle(k), q - ValueAt(vs, i)))
  {
    hide Needle, Printed, Render, KeyAt, ValueAt, EndAt, LowerChar;
    var raw := Render(vs);
    var h := Lower(raw);
    EndsInColon(h, k, q);
    var c := q + |Needle(k)| - 1;
    assert KeyAt(vs, 0) == 0 by { RenderStart(vs); }
    i := Locate(vs, c, 0);
    FieldLayout(vs, i);
    var v := ValueAt(vs, i);
    var key := Printed(i);
    EndsInColon(h, key, KeyAt(vs, i));
    if c < v {
      ColonOutside(h, key, KeyAt(vs, i), c);
      SameEnd(h, k, q, key, KeyAt(vs, i));
    } else {
      assert c < v + |vs[i]| by { SpaceIsNoColon(); }
      InsideValue(raw, vs[i], v, k, q);
    }
  }

  /** An occurrence whose colon lies in a value that follows a colon lies in it entirely. */
  lemma {:induction false} InsideValue(raw: string, val: string, v: nat, k: Key, q: int)
    requires 0 < v && v + |val| <= |raw| && raw[v..v + |val|] == val && Lower(raw)[v - 1] == ':'
    requires At(Lower(raw), Needle(k), q) && v <= q + |Needle(k)| - 1 < v + |val|
    ensures v <= q && At(Lower(val), Needle(k), q - v)
  {
    hide Needle, LowerChar;
    if q < v { ColonOutside(Lower(raw), k, q, v - 1); }
    LowerSlice(raw, v, v + |val|);
    AtSlice(Lower(raw), Needle(k), v, v + |val|, q - v);
  }

  lemma {:induction false} SpaceIsNoColon()
    ensures LowerChar(' ') != ':'
  {
  }

  // ---- When the parser reads back what was printed ------------------------------------

  /** Value `i` is trimmed and hides no key that is printed after it. */
  ghost predicate Clean(vs: Values, i: nat)
    requires i < FIELDS
  {
    Trimmed(vs[i]) && forall j :: i < j < FIELDS ==> !Occurs(Lower(vs[i]), Needle(Printed(j)))
  }

  /** The parser finds field `i` of the printed body unchanged. */
  ghost predicate ReadsBack(vs: Values, i: nat)
    requires i < FIELDS
  {
    IsField(Render(vs), Printed(i), Some(vs[i]))
  }

  /** If the values before `i` are clean, key `i` is first seen where it was printed. */
  lemma {:induction false} FirstIsPrinted(vs: Values, i: nat)
    requires i < FIELDS && forall m :: 0 <= m < i ==> Clean(vs, m)
    ensures First(Render(vs), Printed(i)) == Some(KeyAt(vs, i))
  {
    hide Needle, Printed, Render, KeyAt, ValueAt, EndAt, Trimmed, At, Find;
    FieldLayout(vs, i);
    var k := Printed(i);
    var q := First(Render(vs), k).value;
    var m := Occurrence(vs, k, q);
    PrintedOnce(i, m);
    FieldLayout(vs, m);
    if i < m { KeysAreOrdered(vs, i, m); }
    assert m < i ==> Clean(vs, m) && !Occurs(Lower(vs[m]), Needle(k));
  }

  lemma {:induction false} PrintedOnce(i: nat, m: nat)
    requires i < FIELDS && m < FIELDS
    ensures Printed(i) == Printed(m) <==> i == m
  {
  }

  lemma {:induction false} PrintedPosition(k: Key) returns (j: nat)
    ensures j < FIELDS && Printed(j) == k
  {
    j := match k case Id => 0 case Sub => 1 case Dlvrd => 2 case SubmitDate => 3
                 case DoneDate => 4 case Stat => 5 case Err => 6 case TextKey => 7;
  }

  /** If the values up to and including `i` are clean, value `i` ends where it was printed. */
  lemma {:induction false} EndIsPrinted(vs: Values, i: nat)
    requires i < FIELDS && forall m :: 0 <= m <= i ==> Clean(vs, m)
    ensures IsEnd(Render(vs), KeyAt(vs, i), EndAt(vs, i))
  {
    hide Needle, Printed, Render, KeyAt, ValueAt, EndAt, Trimmed, At, Find;
    var raw := Render(vs);
    FieldLayout(vs, i);
    EndsInColon(Lower(raw), Printed(i), KeyAt(vs, i));
    if i + 1 < FIELDS { FirstIsPrinted(vs, i + 1); }
    forall k | First(raw, k).Some?
      ensures First(raw, k).value <= KeyAt(vs, i) || EndAt(vs, i) <= First(raw, k).value
    {
      var q := First(raw, k).value;
      var j := PrintedPosition(k);
      FieldLayout(vs, j);
      var m := Occurrence(vs, k, q);
      PrintedOnce(j, m);
      FieldLayout(vs, m);
      if j < i { KeysAreOrdered(vs, j, i); }
      if m < i { KeysAreOrdered(vs, m, i); }
      if i < m { KeysAreOrdered(vs, i, m); }
      assert m < j && m <= i ==> Clean(vs, m) && !Occurs(Lower(vs[m]), Needle(k));
    }
  }

  /** A trimmed value is what is left of it and one space, trimmed. */
  lemma {:induction false} TrimOfPrinted(raw: string, a: nat, val: string, e: nat)
    requires a + |val| <= e <= a + |val| + 1 && e <= |raw| && raw[a..a + |val|] == val && Trimmed(val)
    requires e == a + |val| + 1 ==> raw[e - 1] == ' '
    ensures Trim(raw[a..e]) == val
  {
    hide Trim;
    var s := raw[a..e];
    assert s[0..|val|] == val;
    TrimIsUnique(s, 0, |val|);
  }

  /** Clean prefixes survive: if values `0..i` are clean, field `i` reads back unchanged,
      whatever the later values contain. */
  lemma {:induction false} CleanReadsBack(vs: Values, i: nat)
    requires i < FIELDS && forall m :: 0 <= m <= i ==> Clean(vs, m)
    ensures ReadsBack(vs, i)
  {
    hide Needle, Printed, Render, KeyAt, ValueAt, EndAt, Trimmed, Trim, First, IsEnd, IsField, At;
    FirstIsPrinted(vs, i);
    EndIsPrinted(vs, i);
    FieldLayout(vs, i);
    assert Clean(vs, i);
    TrimOfPrinted(Render(vs), ValueAt(vs, i), vs[i], EndAt(vs, i));
    SegmentIsField(Render(vs), Printed(i), KeyAt(vs, i), EndAt(vs, i));
  }

  /** A field that reads back, behind clean ones, was itself clean. */
  lemma {:induction false} ReadsBackIsClean(vs: Values, i: nat)
    requires i < FIELDS && (forall m :: 0 <= m < i ==> Clean(vs, m)) && ReadsBack(vs, i)
    ensures Clean(vs, i)
  {
    hide Needle, Printed, Render, KeyAt, ValueAt, EndAt, Trim;
    var raw, v := Render(vs), ValueAt(vs, i);
    FirstIsPrinted(vs, i);
    FieldLayout(vs, i);
    var e: nat :| IsEnd(raw, KeyAt(vs, i), e) && v <= e && vs[i] == Trim(raw[v..e]);
    forall j | i < j < FIELDS ensures !Occurs(Lower(vs[i]), Needle(Printed(j))) {
      if Occurs(Lower(vs[i]), Needle(Printed(j))) {
        HiddenKeyCuts(vs, i, j, e);
      }
    }
  }

  lemma {:induction false} HiddenKeyCuts(vs: Values, i: nat, j: nat, e: nat)
    requires i < j < FIELDS && (forall m :: 0 <= m < i ==> Clean(vs, m))
    requires Occurs(Lower(vs[i]), Needle(Printed(j)))
    requires IsEnd(Render(vs), KeyAt(vs, i), e) && ValueAt(vs, i) <= e
    ensures e - ValueAt(vs, i) < |vs[i]|
  {
    hide Needle, Printed, Render, KeyAt, ValueAt, EndAt, Trimmed, At, Find;
    var raw, v, k := Render(vs), ValueAt(vs, i), Printed(j);
    var o :| At(Lower(vs[i]), Needle(k), o);
    FieldLayout(vs, i);
    LowerSlice(raw, v, v + |vs[i]|);
    AtSlice(Lower(raw), Needle(k), v, v + |vs[i]|, o);
    var q := First(raw, k).value;
    var m := Occurrence(vs, k, q);
    FieldLayout(vs, m);
    PrintedOnce(j, m);
    NeedlesAreLowerCase(k);
    NeedlesAreLowerCase(Printed(i));
    assert m < i ==> Clean(vs, m) && !Occurs(Lower(vs[m]), Needle(k));
    if i < m { KeysAreOrdered(vs, i, m); }
  }

  /** The exact round trip. Parsing a printed receipt returns every field unchanged if and
      only if every value is trimmed and none hides a key printed after it. The text is
      printed last, so it may contain anything. */
  lemma {:induction false} RoundTrip(vs: Values)
    ensures (forall i :: 0 <= i < FIELDS ==> ReadsBack(vs, i))
      <==> (forall i :: 0 <= i < FIELDS ==> Clean(vs, i))
  {
    hide Clean, ReadsBack, Render;
    if forall i :: 0 <= i < FIELDS ==> Clean(vs, i) {
      forall i | 0 <= i < FIELDS ensures ReadsBack(vs, i) { CleanReadsBack(vs, i); }
    }
    if forall i :: 0 <= i < FIELDS ==> ReadsBack(vs, i) {
      forall i | 0 <= i < FIELDS ensures Clean(vs, i) { AllClean(vs, i); }
    }
  }

  lemma {:induction false} AllClean(vs: Values, i: nat)
    requires i < FIELDS && forall m :: 0 <= m <= i ==> ReadsBack(vs, m)
    ensures forall m :: 0 <= m <= i ==> Clean(vs, m)
  {
    hide Clean, ReadsBack, Render;
    if i > 0 { AllClean(vs, i - 1); }
    ReadsBackIsClean(vs, i);
  }

  ghost predicate ColonFree(s: string) { ':' !in s }

  /** Trimmed, colon-free values are clean wherever they are printed. */
  lemma {:induction false} ColonFreeIsClean(vs: Values, i: nat)
    requires i < FIELDS && Trimmed(vs[i]) && (ColonFree(vs[i]) || i == FIELDS - 1)
    ensures Clean(vs, i)
  {
    hide Needle, Printed;
    forall j | i < j < FIELDS ensures !Occurs(Lower(vs[i]), Needle(Printed(j))) {
      if Occurs(Lower(vs[i]), Needle(Printed(j))) {
        var q :| At(Lower(vs[i]), Needle(Printed(j)), q);
        EndsInColon(Lower(vs[i]), Printed(j), q);
        assert false;
      }
    }
  }

  // ---- The gateway's rewrite ----------------------------------------------------------

  function GetOr(v: Option<string>, default: string): string {
    if v.Some? then v.value else default
  }

  /** The values the gateway prints: its own id, one of one delivered, and whatever the
      upstream receipt said, with defaults for what it did not say. */
  function Rewritten(ourId: string, r: Receipt): Values {
    [ourId, "001", "001", GetOr(r.submitDate, ""), GetOr(r.doneDate, ""),
     GetOr(r.stat, "UNKNOWN"), GetOr(r.err, "000"), GetOr(r.text, "")]
  }

  /** The body in full. */
  ghost predicate IsBody(body: string, ourId: string, r: Receipt) {
    body == "id:" + ourId + " " + "sub:" + "001" + " " + "dlvrd:" + "001" + " "
      + "submit date:" + (if r.submitDate.Some? then r.submitDate.value else "") + " "
      + "done date:" + (if r.doneDate.Some? then r.doneDate.value else "") + " "
      + "stat:" + (if r.stat.Some? then r.stat.value else "UNKNOWN") + " "
      + "err:" + (if r.err.Some? then r.err.value else "000") + " "
      + "text:" + (if r.text.Some? then r.text.value else "")
  }

  lemma {:induction false} Regroup(p: string, k: string, v: string, rest: string)
    ensures p + (k + v + " " + rest) == p + k + v + " " + rest
  {
  }

  /** Field `i`, spelled `k` and holding `v`, after what is printed already. */
  lemma {:induction false} RenderOne(vs: Values, i: nat, p: string, k: string, v: string)
    requires i + 1 < FIELDS && Needle(Printed(i)) == k && vs[i] == v
    ensures p + RenderFrom(vs, i) == p + k + v + " " + RenderFrom(vs, i + 1)
  {
    hide Needle, Printed, RenderFrom;
    RenderStep(vs, i);
    Regroup(p, k, v, RenderFrom(vs, i + 1));
  }

  lemma {:induction false} RenderLast(vs: Values)
    ensures RenderFrom(vs, 7) == "text:" + vs[7]
  {
    KeysAreWritten();
    assert "text:" + vs[7] + "" == "text:" + vs[7];
  }

  lemma {:induction false} PrintedKeys()
    ensures Printed(0) == Id && Printed(1) == Sub && Printed(2) == Dlvrd && Printed(3) == SubmitDate
    ensures Printed(4) == DoneDate && Printed(5) == Stat && Printed(6) == Err && Printed(7) == TextKey
  {
  }

  lemma {:induction false} RenderIs(vs: Values)
    ensures Render(vs) == "id:" + vs[0] + " " + "sub:" + vs[1] + " " + "dlvrd:" + vs[2] + " "
      + "submit date:" + vs[3] + " " + "done date:" + vs[4] + " " + "stat:" + vs[5] + " "
      + "err:" + vs[6] + " " + "text:" + vs[7]
  {
    KeysAreWritten();
    PrintedKeys();
    hide Needle, Printed, RenderFrom;
    assert "" + RenderFrom(vs, 0) == RenderFrom(vs, 0) && "" + "id:" == "id:";
    RenderOne(vs, 0, "", "id:", vs[0]);
    var p := "id:" + vs[0] + " ";
    RenderOne(vs, 1, p, "sub:", vs[1]);
    p := p + "sub:" + vs[1] + " ";
    RenderOne(vs, 2, p, "dlvrd:", vs[2]);
    p := p + "dlvrd:" + vs[2] + " ";
    RenderOne(vs, 3, p, "submit date:", vs[3]);
    p := p + "submit date:" + vs[3] + " ";
    RenderOne(vs, 4, p, "done date:", vs[4]);
    p := p + "done date:" + vs[4] + " ";
    RenderOne(vs, 5, p, "stat:", vs[5]);
    p := p + "stat:" + vs[5] + " ";
    RenderOne(vs, 6, p, "err:", vs[6]);
    p := p + "err:" + vs[6] + " ";
    RenderLast(vs);
    assert p + ("text:" + vs[7]) == p + "text:" + vs[7];
  }

  /** What the gateway prints, letter for letter. */
  lemma {:induction false} RewriteIsPrinted(ourId: string, r: Receipt)
    ensures IsBody(Render(Rewritten(ourId, r)), ourId, r)
  {
    hide Render;
    RenderIs(Rewritten(ourId, r));
  }

  /** However odd the upstream fields, the ESME reads our id and the fixed counts. */
  lemma {:induction false} RewriteCarriesOurId(ourId: string, r: Receipt)
    requires Trimmed(ourId) && ColonFree(ourId)
    ensures var raw := Render(Rewritten(ourId, r));
      IsField(raw, Id, Some(ourId)) && IsField(raw, Sub, Some("001")) && IsField(raw, Dlvrd, Some("001"))
  {
    hide Needle, Render, IsField;
    var vs := Rewritten(ourId, r);
    ColonFreeIsClean(vs, 0);
    ColonFreeIsClean(vs, 1);
    ColonFreeIsClean(vs, 2);
    CleanReadsBack(vs, 0);
    CleanReadsBack(vs, 1);
    CleanReadsBack(vs, 2);
  }

  /** Printing and then parsing, as a program: every field comes back as it was printed if and
      only if every value is clean. */
  method PrintAndParse(vs: Values) returns (r: Receipt)
    ensures (forall i :: 0 <= i < FIELDS ==> r.Get(Printed(i)) == Some(vs[i]))
      <==> (forall i :: 0 <= i < FIELDS ==> Clean(vs, i))
    ensures forall i :: 0 <= i < FIELDS ==> (r.Get(Printed(i)) == Some(vs[i]) <==> ReadsBack(vs, i))
  {
    hide Needle, Printed, Render, Clean, IsField, IsLayout, IsPartition, NamesNothing, SetWhereNamed;
    var raw := Render(vs);
    var parsed, hits := Parse(raw);
    assert parsed.Some? by {
      FieldLayout(vs, 0);
      NothingIsNamed(raw);
      assert Occurs(Lower(raw), Needle(Printed(0)));
    }
    r := parsed.value;
    RoundTrip(vs);
    forall i | 0 <= i < FIELDS ensures r.Get(Printed(i)) == Some(vs[i]) <==> ReadsBack(vs, i) {
      if ReadsBack(vs, i) { FieldIsUnique(raw, Printed(i), r.Get(Printed(i)), Some(vs[i])); }
    }
  }

  /** The gateway's rewrite, printed and parsed: our id and the fixed counts, for every upstream
      receipt. */
  method RewriteAndParse(ourId: string, upstream: Receipt) returns (r: Receipt)
    requires Trimmed(ourId) && ColonFree(ourId)
    ensures r.id == Some(ourId) && r.sub == Some("001") && r.dlvrd == Some("001")
  {
    hide Needle, Render, Clean, IsField;
    var vs := Rewritten(ourId, upstream);
    r := PrintAndParse(vs);
    RewriteCarriesOurId(ourId, upstream);
    assert ReadsBack(vs, 0) && ReadsBack(vs, 1) && ReadsBack(vs, 2);
    assert r.Get(Printed(0)) == Some(vs[0]) && r.Get(Printed(1)) == Some(vs[1]) && r.Get(Printed(2)) == Some(vs[2]);
  }

  /** With trimmed, colon-free dates, state and error code and a trimmed but otherwise
      arbitrary text, every printed field reads back. */
  lemma {:induction false} PlainFieldsRoundTrip(vs: Values)
    requires forall i :: 0 <= i < FIELDS ==> Trimmed(vs[i]) && (i < FIELDS - 1 ==> ColonFree(vs[i]))
    ensures forall i :: 0 <= i < FIELDS ==> ReadsBack(vs, i)
  {
    hide Clean, ReadsBack;
    forall i | 0 <= i < FIELDS ensures Clean(vs, i) { ColonFreeIsClean(vs, i); }
    RoundTrip(vs);
  }

  /** The keys of an upstream body, as far as they occur, first occur in printing order. */
  ghost predicate Canonical(raw: string) {
    forall i, j :: 0 <= i < j < FIELDS && First(raw, Printed(i)).Some? && First(raw, Printed(j)).Some?
      ==> First(raw, Printed(i)).value < First(raw, Printed(j)).value
  }

  lemma {:induction false} SliceOfSlice(s: string, p: nat, e: nat, a: nat, b: nat)
    requires p <= e <= |s| && a <= b <= e - p
    ensures s[p..e][a..b] == s[p + a..p + b]
  {
    forall k | 0 <= k < b - a ensures s[p..e][a..b][k] == s[p + a..p + b][k] {
      assert s[p..e][a..b][k] == s[p..e][a + k];
    }
  }

  /** A key inside a slice of the body first occurs before the slice ends. */
  lemma {:induction false} KeyInSlice(raw: string, a: nat, b: nat, k: Key)
    requires a <= b <= |raw| && Occurs(Lower(raw[a..b]), Needle(k))
    ensures First(raw, k).Some? && First(raw, k).value < b
  {
    hide Needle, At, LowerChar;
    var o :| At(Lower(raw[a..b]), Needle(k), o);
    LowerSlice(raw, a, b);
    AtSlice(Lower(raw), Needle(k), a, b, o);
    NeedlesAreLowerCase(k);
  }

  /** A parsed value is a slice of the body that ends before any key that first occurs later. */
  lemma {:induction false} FieldIsASlice(raw: string, k: Key, v: string) returns (a: nat, b: nat)
    requires IsField(raw, k, Some(v))
    ensures First(raw, k).Some? && a <= b <= |raw| && v == raw[a..b]
    ensures forall j :: First(raw, j).Some? ==> First(raw, j).value <= First(raw, k).value || b <= First(raw, j).value
  {
    hide Needle, Trim, First;
    var p := First(raw, k).value;
    var start := p + |Needle(k)|;
    var e: nat :| IsEnd(raw, p, e) && start <= e && v == Trim(raw[start..e]);
    var x, y := TrimIsASlice(raw[start..e]);
    SliceOfSlice(raw, start, e, x, y);
    a, b := start + x, start + y;
  }

  /** A value parsed out of a canonical body hides no later key. */
  lemma {:induction false} ParsedValueHidesNothing(raw: string, i: nat, j: nat, v: string)
    requires Canonical(raw) && i < j < FIELDS && IsField(raw, Printed(i), Some(v))
    ensures !Occurs(Lower(v), Needle(Printed(j)))
  {
    hide Needle, Printed, First, Occurs, IsField;
    var a, b := FieldIsASlice(raw, Printed(i), v);
    if Occurs(Lower(v), Needle(Printed(j))) {
      KeyInSlice(raw, a, b, Printed(j));
      assert false;
    }
  }

  // ---- The optional parameters --------------------------------------------------------

  /** A delivery receipt as it arrives: its body, and the two receipt parameters if present. */
  datatype Dlr = Dlr(raw: string, tlvId: Option<string>, tlvState: Option<nat>)

  /** The text form wins; the receipt optional parameters only fill what it left out. */
  function Merge(parsed: Option<Receipt>, dlr: Dlr): (r: Option<Receipt>)
    ensures r.Some? <==> parsed.Some? || dlr.tlvId.Some? || dlr.tlvState.Some?
  {
    if parsed.None? && dlr.tlvId.None? && dlr.tlvState.None? then None
    else
      var r := if parsed.Some? then parsed.value else EMPTY.(raw := dlr.raw);
      var r := if r.id.None? then r.(id := dlr.tlvId) else r;
      Some(if r.stat.None? && dlr.tlvState.Some? then r.(stat := MessageStateName(dlr.tlvState.value)) else r)
  }

  /** What the text says is never overridden; the parameters fill in nothing but a missing id
      and a missing state. */
  lemma {:induction false} TextWins(r: Receipt, dlr: Dlr, k: Key)
    ensures var m := Merge(Some(r), dlr).value;
      && (r.Get(k).Some? ==> m.Get(k) == r.Get(k))
      && (r.Get(k).None? && k != Id && k != Stat ==> m.Get(k).None?)
      && (r.id.None? ==> m.id == dlr.tlvId)
      && (r.stat.None? ==> IsStateText(dlr.tlvState, m.stat))
      && m.raw == r.raw
  {
    if dlr.tlvState.Some? { StateNamesAreWritten(dlr.tlvState.value); }
    hide MessageStateName, IsStateName;
  }

  /** The state names of Appendix B of SMPP 3.4, with their codes from section 5.2.28. */
  ghost predicate IsStateName(n: nat, s: string) {
    || (n == 1 && s == "ENROUTE") || (n == 2 && s == "DELIVRD") || (n == 3 && s == "EXPIRED")
    || (n == 4 && s == "DELETED") || (n == 5 && s == "UNDELIV") || (n == 6 && s == "ACCEPTD")
    || (n == 7 && s == "UNKNOWN") || (n == 8 && s == "REJECTD")
  }

  function MessageStateName(state: nat): (r: Option<string>)
    ensures r.Some? <==> 1 <= state <= 8
    ensures r.Some? ==> IsStateName(state, r.value)
  {
    if state == 1 then Some("ENROUTE") else if state == 2 then Some("DELIVRD")
    else if state == 3 then Some("EXPIRED") else if state == 4 then Some("DELETED")
    else if state == 5 then Some("UNDELIV") else if state == 6 then Some("ACCEPTD")
    else if state == 7 then Some("UNKNOWN") else if state == 8 then Some("REJECTD")
    else None
  }

  lemma {:induction false} StateNamesAreWritten(n: nat)
    ensures forall s :: MessageStateName(n) == Some(s) <==> IsStateName(n, s)
  {
  }

  /** `v` is the name of the state, if there is a state and it has one. */
  ghost predicate IsStateText(state: Option<nat>, v: Option<string>) {
    match state
    case None => v == None
    case Some(n) => forall s :: v == Some(s) <==> IsStateName(n, s)
  }

  const STATES: nat := 8

  function UpperChar(c: char): char {
    if 'a' <= c <= 'z' then (c as int - 32) as char else c
  }

  function Upper(s: string): (r: string)
    ensures |r| == |s| && forall i :: 0 <= i < |s| ==> r[i] == UpperChar(s[i])
  {
    seq(|s|, i requires 0 <= i < |s| => UpperChar(s[i]))
  }

  /** The gateway's way back: the code for a state name in any case, or none. */
  function MessageState(stat: Option<string>): Option<nat> {
    StateNamed(Upper(Trim(GetOr(stat, ""))), 1)
  }

  function StateNamed(name: string, n: nat): (r: Option<nat>)
    requires 1 <= n <= STATES + 1
    ensures r.Some? ==> n <= r.value <= STATES && MessageStateName(r.value) == Some(name)
    ensures r.None? ==> forall m :: n <= m <= STATES ==> MessageStateName(m) != Some(name)
    decreases STATES + 1 - n
  {
    if n > STATES then None
    else if MessageStateName(n) == Some(name) then Some(n)
    else StateNamed(name, n + 1)
  }

  /** The names tell the states apart; they are seven upper-case letters each. */
  lemma {:induction false} StateNamesDiffer(m: nat, n: nat, s: string)
    requires IsStateName(m, s) && IsStateName(n, s)
    ensures m == n
  {
    assert s[0] == s[0] && s[2] == s[2] && s[3] == s[3];
  }

  lemma {:induction false} StateNamesArePlain(n: nat, s: string)
    requires IsStateName(n, s)
    ensures 1 <= n <= STATES && |s| == 7 && Trimmed(s) && ColonFree(s) && Upper(s) == s
  {
  }

  lemma {:induction false} UpperIsASpelling(s: string, name: string)
    requires Upper(name) == name
    ensures SameSpelling(s, Upper(s)) && (SameSpelling(s, name) ==> Upper(s) == name)
  {
    if SameSpelling(s, name) {
      forall i | 0 <= i < |s| ensures Upper(s)[i] == name[i] {
        assert name[i] == UpperChar(name[i]) && SameLetter(s[i], name[i]);
      }
    }
  }

  /** The state sent beside the text: a code exactly when the text's state, trimmed and in
      whatever case, is the name of that code. */
  ghost predicate StateSays(state: Option<nat>, stat: Option<string>) {
    forall n: nat :: state == Some(n) <==> stat.Some? && exists s :: IsStateName(n, s) && SameSpelling(Trim(stat.value), s)
  }

  lemma {:induction false} StateAgreesWithText(stat: Option<string>)
    ensures StateSays(MessageState(stat), stat)
  {
    hide IsStateName, Trim, MessageStateName, Upper, SameSpelling;
    forall n: nat ensures MessageState(stat) == Some(n) <==>
      stat.Some? && exists s :: IsStateName(n, s) && SameSpelling(Trim(stat.value), s)
    {
      StateIsTheNamed(stat, n);
    }
  }

  lemma {:induction false} NoStatNoState()
    ensures MessageState(None) == None
  {
    var name := Upper(Trim(GetOr(None, "")));
    assert name == "";
    if MessageState(None).Some? { StateNamesArePlain(MessageState(None).value, name); }
  }

  lemma {:induction false} StateIsTheNamed(stat: Option<string>, n: nat)
    ensures MessageState(stat) == Some(n) <==>
      stat.Some? && exists s :: IsStateName(n, s) && SameSpelling(Trim(stat.value), s)
  {
    hide IsStateName, Trim, MessageStateName, Upper, SameSpelling;
    if stat.None? {
      NoStatNoState();
    } else {
      var x := Trim(stat.value);
      var m := MessageState(stat);
      if m == Some(n) {
        StateNamesAreWritten(n);
        StateNamesArePlain(n, Upper(x));
        UpperIsASpelling(x, Upper(x));
      }
      if s :| IsStateName(n, s) && SameSpelling(x, s) {
        StateNamesArePlain(n, s);
        UpperIsASpelling(x, s);
        StateNamesAreWritten(n);
        StateNamesAreWritten(m.value);
        StateNamesDiffer(m.value, n, s);
      }
    }
  }

  /** Every state the parser can name comes back as the same code. */
  lemma {:induction false} StatesComeBack(n: nat)
    ensures MessageStateName(n).Some? ==> MessageState(MessageStateName(n)) == Some(n)
  {
    hide Trim, Upper;
    if MessageStateName(n).Some? {
      var s := MessageStateName(n).value;
      StateNamesArePlain(n, s);
      hide MessageStateName, IsStateName;
      assert s[0..|s|] == s;
      TrimIsUnique(s, 0, |s|);
      UpperIsASpelling(s, s);
      SameAsItself(s);
      StateIsTheNamed(Some(s), n);
    }
  }

  lemma {:induction false} SameAsItself(s: string)
    ensures SameSpelling(s, s)
  {
  }

  // ---- What the gateway reads, and what it passes on ----------------------------------

  /** What a delivery receipt says: each field is what the text gives for its key; the id and
      the state come from the parameters where the text has no such key. */
  ghost predicate Reads(dlr: Dlr, r: Receipt) {
    && IsField(dlr.raw, Sub, r.sub) && IsField(dlr.raw, Dlvrd, r.dlvrd)
    && IsField(dlr.raw, SubmitDate, r.submitDate) && IsField(dlr.raw, DoneDate, r.doneDate)
    && IsField(dlr.raw, Err, r.err) && IsField(dlr.raw, TextKey, r.text)
    && (if Names(dlr.raw, "id:") then IsField(dlr.raw, Id, r.id) else r.id == dlr.tlvId)
    && (if Names(dlr.raw, "stat:") then IsField(dlr.raw, Stat, r.stat) else IsStateText(dlr.tlvState, r.stat))
  }

  lemma {:induction false} NothingNamedNothingRead(raw: string, k: Key)
    requires NamesNothing(raw)
    ensures IsField(raw, k, None)
  {
    NothingIsNamed(raw);
    hide Needle, At, Lower, NamesNothing;
  }

  lemma {:induction false} NameIsStateText(state: Option<nat>)
    ensures IsStateText(state, if state.Some? then MessageStateName(state.value) else None)
  {
    if state.Some? { StateNamesAreWritten(state.value); }
    hide MessageStateName, IsStateName;
  }

  lemma {:induction false} ParametersRead(dlr: Dlr)
    requires NamesNothing(dlr.raw)
    ensures var m := Merge(None, dlr); Reads(dlr, if m.Some? then m.value else EMPTY)
  {
    forall k ensures IsField(dlr.raw, k, None) { NothingNamedNothingRead(dlr.raw, k); }
    NameIsStateText(dlr.tlvState);
    hide IsField, Names, MessageStateName, IsStateText;
  }

  lemma {:induction false} TextReads(r: Receipt, dlr: Dlr)
    requires SetWhereNamed(dlr.raw, r) && forall k :: IsField(dlr.raw, k, r.Get(k))
    ensures Reads(dlr, Merge(Some(r), dlr).value)
  {
    NameIsStateText(dlr.tlvState);
    hide IsField, Names, MessageStateName, IsStateText;
    assert r.Get(Id) == r.id && r.Get(Sub) == r.sub && r.Get(Dlvrd) == r.dlvrd && r.Get(SubmitDate) == r.submitDate;
    assert r.Get(DoneDate) == r.doneDate && r.Get(Stat) == r.stat && r.Get(Err) == r.err && r.Get(TextKey) == r.text;
  }

  /** `pdu.receipt`, or an empty dictionary. */
  method ReadReceipt(dlr: Dlr) returns (r: Receipt)
    ensures Reads(dlr, r)
  {
    hide IsField, NamesNothing, SetWhereNamed, Reads, IsLayout, IsPartition;
    var parsed, hits := Parse(dlr.raw);
    if parsed.Some? { TextReads(parsed.value, dlr); } else { ParametersRead(dlr); }
    var merged := Merge(parsed, dlr);
    r := if merged.Some? then merged.value else EMPTY;
  }

  /** What the ESME reads of the rewritten body: the dates, the state, the error code and the
      text of the upstream receipt, or the defaults. */
  ghost predicate PassesOn(body: string, r: Receipt) {
    && IsField(body, SubmitDate, Some(if r.submitDate.Some? then r.submitDate.value else ""))
    && IsField(body, DoneDate, Some(if r.doneDate.Some? then r.doneDate.value else ""))
    && IsField(body, Stat, Some(if r.stat.Some? then r.stat.value else "UNKNOWN"))
    && IsField(body, Err, Some(if r.err.Some? then r.err.value else "000"))
    && IsField(body, TextKey, Some(if r.text.Some? then r.text.value else ""))
  }

  /** The rewrite loses nothing. Whether the upstream receipt came as a text with its keys in
      canonical order, as optional parameters alone or as both, the ESME that parses the
      rewritten body reads exactly what the gateway read, with our id in place of theirs. */
  lemma {:induction false} RewriteKeepsCanonicalFields(dlr: Dlr, r: Receipt, ourId: string)
    requires Reads(dlr, r) && Canonical(dlr.raw) && Trimmed(ourId) && ColonFree(ourId)
    ensures PassesOn(Render(Rewritten(ourId, r)), r)
    ensures IsField(Render(Rewritten(ourId, r)), Id, Some(ourId))
  {
    hide Clean, Canonical, IsField, Render, Reads;
    var vs := Rewritten(ourId, r);
    forall i | 0 <= i < FIELDS ensures Clean(vs, i) { RewrittenIsClean(dlr, r, ourId, i); }
    RoundTrip(vs);
    PrintedKeys();
    assert ReadsBack(vs, 0) && ReadsBack(vs, 3) && ReadsBack(vs, 4) && ReadsBack(vs, 5) && ReadsBack(vs, 6) && ReadsBack(vs, 7);
  }

  /** Each printed value was parsed out of a canonical body, or is a plain default. */
  lemma {:induction false} RewrittenIsClean(dlr: Dlr, r: Receipt, ourId: string, i: nat)
    requires i < FIELDS && Reads(dlr, r) && Canonical(dlr.raw) && Trimmed(ourId) && ColonFree(ourId)
    ensures Clean(Rewritten(ourId, r), i)
  {
    hide Clean, Canonical, IsField, IsStateName, IsSpace, Names;
    var vs := Rewritten(ourId, r);
    PrintedKeys();
    if i == 3 && r.submitDate.Some? {
      ParsedValueIsClean(dlr.raw, vs, i);
    } else if i == 4 && r.doneDate.Some? {
      ParsedValueIsClean(dlr.raw, vs, i);
    } else if i == 5 && Names(dlr.raw, "stat:") && r.stat.Some? {
      ParsedValueIsClean(dlr.raw, vs, i);
    } else if i == 6 && r.err.Some? {
      ParsedValueIsClean(dlr.raw, vs, i);
    } else if i == 7 && r.text.Some? {
      ParsedValueIsClean(dlr.raw, vs, i);
    } else {
      if i == 5 && r.stat.Some? { StateNamesArePlain(dlr.tlvState.value, r.stat.value); }
      PlainDefaults();
      ColonFreeIsClean(vs, i);
    }
  }

  lemma {:induction false} PlainDefaults()
    ensures Trimmed("UNKNOWN") && Trimmed("001") && Trimmed("000") && Trimmed("")
    ensures ColonFree("UNKNOWN") && ColonFree("001") && ColonFree("000") && ColonFree("")
  {
  }

  lemma {:induction false} ParsedValueIsClean(raw: string, vs: Values, i: nat)
    requires Canonical(raw) && i < FIELDS && IsField(raw, Printed(i), Some(vs[i]))
    ensures Clean(vs, i)
  {
    hide Needle, Printed, Trim;
    assert Trimmed(vs[i]);
    forall j | i < j < FIELDS ensures !Occurs(Lower(vs[i]), Needle(Printed(j))) {
      ParsedValueHidesNothing(raw, i, j, vs[i]);
    }
  }
}
