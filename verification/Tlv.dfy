/** Optional parameters: converting a script's dictionary to the codec's list and back. */
module Tlv {
  import opened Text

  type Octet = n: int | 0 <= n < 256
  type Tag = n: int | 0 <= n < 0x10000

  datatype Tlv = Tlv(tag: Tag, value: seq<Octet>)

  /** A dictionary key. A name carries the tag the codec's table gives it, if any, so two
      spellings of one name are two entries with the same tag. */
  datatype Key = Name(tag: Option<Tag>) | RawTag(n: int) | OtherKey

  /** A dictionary value; `Str` is already UTF-8 and `Int` includes booleans. */
  datatype Value = Octets(octets: seq<Octet>) | Str(utf8: seq<Octet>) | Int(n: int) | OtherValue

  type Dict = seq<(Key, Value)>

  datatype Error =
    | UnknownName | TagOutOfRange | BadKeyType
    | NotU64 | NotAnInteger | TooWide | BadValueType | GivenTwice | BothBodies | BodyTooLong

  datatype Result<+T> = Ok(value: T) | Err(error: Error)

  // ---- Integers at spec width ---------------------------------------------------------

  /** The integer-typed parameters of section 5.3.2 of SMPP 3.4, by width. */
  const ONE_OCTET: set<Tag> := {
    0x0005, 0x0006, 0x0007, 0x000D, 0x000E, 0x000F, 0x0010, 0x0019, 0x0030, 0x0201, 0x0205, 0x020D, 0x020E, 0x020F,
    0x0210, 0x0302, 0x0304, 0x0420, 0x0421, 0x0422, 0x0425, 0x0426, 0x0427, 0x0501, 0x1201, 0x1204, 0x1380}
  const TWO_OCTETS: set<Tag> := {0x0008, 0x0204, 0x020A, 0x020B, 0x020C, 0x1203}
  const FOUR_OCTETS: set<Tag> := {0x0017}

  /** The width of a parameter in octets. */
  function IntWidth(tag: Tag): (w: Option<nat>)
    ensures w.Some? ==> w.value in {1, 2, 4}
  {
    if tag in ONE_OCTET then Some(1)
    else if tag in TWO_OCTETS then Some(2)
    else if tag in FOUR_OCTETS then Some(4)
    else None
  }

  /** The widths by tag; no parameter has two, so the order of the search does not matter. */
  lemma {:induction false} WidthIsExact(tag: Tag)
    ensures IntWidth(tag) == Some(4) <==> tag == 0x0017
    ensures IntWidth(tag) == Some(2) <==> tag in {0x0008, 0x0204, 0x020A, 0x020B, 0x020C, 0x1203}
    ensures IntWidth(tag) == Some(1) <==>
      || 0x0005 <= tag <= 0x0007 || 0x000D <= tag <= 0x0010 || tag == 0x0019 || tag == 0x0030 || tag == 0x0201
      || tag == 0x0205 || 0x020D <= tag <= 0x0210 || tag == 0x0302 || tag == 0x0304 || 0x0420 <= tag <= 0x0422
      || 0x0425 <= tag <= 0x0427 || tag == 0x0501 || tag == 0x1201 || tag == 0x1204 || tag == 0x1380
  {
  }

  function Pow256(w: nat): nat { if w == 0 then 1 else 256 * Pow256(w - 1) }

  /** The low `w` octets of `n`, most significant first. */
  function ToBe(n: nat, w: nat): (r: seq<Octet>)
    ensures |r| == w
  {
    if w == 0 then [] else ToBe(n / 256, w - 1) + [n % 256]
  }

  function FromBe(s: seq<Octet>): nat {
    if s == [] then 0 else FromBe(s[..|s| - 1]) * 256 + s[|s| - 1]
  }

  /** Dropping leading octets of a wide encoding is encoding narrowly. */
  lemma {:induction false} NarrowIsSuffix(n: nat, w: nat, wide: nat)
    requires w <= wide
    ensures ToBe(n, wide)[wide - w..] == ToBe(n, w)
  {
    if w > 0 {
      NarrowIsSuffix(n / 256, w - 1, wide - 1);
      assert ToBe(n, wide)[wide - w..] == ToBe(n / 256, wide - 1)[wide - w..] + [n % 256];
    }
  }

  lemma {:induction false} BigEndianRoundTrip(n: nat, w: nat)
    requires n < Pow256(w)
    ensures FromBe(ToBe(n, w)) == n
  {
    if w > 0 {
      assert n / 256 < Pow256(w - 1);
      BigEndianRoundTrip(n / 256, w - 1);
      assert ToBe(n, w)[..w - 1] == ToBe(n / 256, w - 1);
    }
  }

  /** Octets go out verbatim, a string NUL-terminated, an integer at its spec width: eight
      big-endian octets with the leading ones dropped. */
  function ValueToBytes(tag: Tag, v: Value): Result<seq<Octet>> {
    match v
    case Octets(b) => Ok(b)
    case Str(s) => Ok(s + [0])
    case Int(n) =>
      if n < 0 || n >= 0x1_0000_0000_0000_0000 then Err(NotU64)
      else if IntWidth(tag).None? then Err(NotAnInteger)
      else
        var w := IntWidth(tag).value;
        if n > Pow256(w) - 1 then Err(TooWide) else Ok(ToBe(n, 8)[8 - w..])
    case OtherValue => Err(BadValueType)
  }

  /** An integer is accepted exactly when the parameter is integer-typed and the number fits
      its spec width; its octets then have that width and decode to the number. */
  lemma {:induction false} IntegersKeepTheirValue(tag: Tag, n: int)
    ensures ValueToBytes(tag, Int(n)).Ok? <==> IntWidth(tag).Some? && 0 <= n < Pow256(IntWidth(tag).value)
    ensures var r := ValueToBytes(tag, Int(n));
      r.Ok? ==> |r.value| == IntWidth(tag).value && FromBe(r.value) == n
  {
    hide IntWidth;
    assert Pow256(1) == 256 && Pow256(2) == 65536 && Pow256(3) == 16777216;
    assert Pow256(4) == 256 * Pow256(3) == 4294967296;
    if IntWidth(tag).Some? && 0 <= n < Pow256(IntWidth(tag).value) {
      NarrowIsSuffix(n, IntWidth(tag).value, 8);
      BigEndianRoundTrip(n, IntWidth(tag).value);
    }
  }

  /** A C-octet string as a reader takes it: what comes before the first NUL. */
  function UpToNul(b: seq<Octet>): seq<Octet> {
    if b == [] || b[0] == 0 then [] else [b[0]] + UpToNul(b[1..])
  }

  lemma {:induction false} NulEndsIt(s: seq<Octet>)
    requires 0 !in s
    ensures UpToNul(s + [0]) == s
  {
    if s != [] {
      NulEndsIt(s[1..]);
      assert (s + [0])[1..] == s[1..] + [0];
    }
  }

  /** Octets go out as they are. A string goes out as itself and one NUL, so that a reader of
      C-octet strings gets it back; anything else that is not an integer is refused. */
  lemma {:induction false} StringsAreTerminated(tag: Tag, s: seq<Octet>)
    ensures ValueToBytes(tag, Octets(s)) == Ok(s)
    ensures ValueToBytes(tag, Str(s)) == Ok(s + [0])
    ensures 0 !in s ==> UpToNul(ValueToBytes(tag, Str(s)).value) == s
    ensures ValueToBytes(tag, OtherValue).Err?
  {
    if 0 !in s { NulEndsIt(s); }
  }

  /** A key is a known name or a 16-bit tag. */
  lemma {:induction false} KeysAreTags(k: Key)
    ensures TagFromKey(k).Ok? <==> (k.Name? && k.tag.Some?) || (k.RawTag? && 0 <= k.n <= 65535)
    ensures TagFromKey(k).Ok? ==> TagFromKey(k).value == if k.Name? then k.tag.value else k.n
  {
  }

  function TagFromKey(k: Key): Result<Tag> {
    match k
    case Name(Some(t)) => Ok(t)
    case Name(None) => Err(UnknownName)
    case RawTag(n) => if 0 <= n < 0x10000 then Ok(n) else Err(TagOutOfRange)
    case OtherKey => Err(BadKeyType)
  }

  // ---- Whole dictionaries -------------------------------------------------------------

  ghost predicate EntryOk(e: (Key, Value)) {
    TagFromKey(e.0).Ok? && ValueToBytes(TagFromKey(e.0).value, e.1).Ok?
  }

  ghost function Encoded(e: (Key, Value)): Tlv
    requires EntryOk(e)
  {
    Tlv(TagFromKey(e.0).value, ValueToBytes(TagFromKey(e.0).value, e.1).value)
  }

  /** Every entry converts and no two name the same tag. */
  ghost predicate Accepted(d: Dict) {
    && (forall i :: 0 <= i < |d| ==> EntryOk(d[i]))
    && (forall i, j :: 0 <= i < j < |d| ==> Encoded(d[i]).tag != Encoded(d[j]).tag)
  }

  /** `tlvs_from_py`. */
  method FromDict(d: Dict) returns (r: Result<seq<Tlv>>)
    ensures r.Ok? <==> Accepted(d)
    ensures r.Ok? ==> |r.value| == |d| && forall i :: 0 <= i < |d| ==> r.value[i] == Encoded(d[i])
  {
    hide TagFromKey, ValueToBytes;
    var out: seq<Tlv> := [];
    for i := 0 to |d|
      invariant |out| == i && Accepted(d[..i]) && forall j :: 0 <= j < i ==> out[j] == Encoded(d[j])
    {
      var tag := TagFromKey(d[i].0);
      if tag.Err? {
        return Err(tag.error);
      }
      if exists t :: t in out && t.tag == tag.value {
        ghost var t :| t in out && t.tag == tag.value;
        ghost var j :| 0 <= j < i && out[j] == t;
        assert EntryOk(d[i]) ==> Encoded(d[j]).tag == Encoded(d[i]).tag;
        return Err(GivenTwice);
      }
      var bytes := ValueToBytes(tag.value, d[i].1);
      if bytes.Err? {
        return Err(bytes.error);
      }
      assert forall j :: 0 <= j < i ==> out[j] in out;
      assert d[..i + 1] == d[..i] + [d[i]];
      out := out + [Tlv(tag.value, bytes.value)];
    }
    assert d[..|d|] == d;
    r := Ok(out);
  }

  ghost predicate LastOfItsTag(tlvs: seq<Tlv>, i: nat) {
    i < |tlvs| && forall j :: i < j < |tlvs| ==> tlvs[j].tag != tlvs[i].tag
  }

  ghost function AsDict(tlvs: seq<Tlv>): map<Tag, seq<Octet>> {
    if tlvs == [] then map[]
    else AsDict(tlvs[..|tlvs| - 1])[tlvs[|tlvs| - 1].tag := tlvs[|tlvs| - 1].value]
  }

  /** `tlvs_to_py`. */
  method ToDict(tlvs: seq<Tlv>) returns (m: map<Tag, seq<Octet>>)
    ensures m == AsDict(tlvs)
  {
    m := map[];
    for k := 0 to |tlvs|
      invariant m == AsDict(tlvs[..k])
    {
      assert tlvs[..k + 1][..k] == tlvs[..k];
      m := m[tlvs[k].tag := tlvs[k].value];
    }
    assert tlvs[..|tlvs|] == tlvs;
  }

  /** The dictionary has one entry per tag, and a later duplicate overwrites an earlier one. */
  lemma {:induction false} DictHoldsTheLast(tlvs: seq<Tlv>, i: nat)
    requires LastOfItsTag(tlvs, i)
    ensures tlvs[i].tag in AsDict(tlvs) && AsDict(tlvs)[tlvs[i].tag] == tlvs[i].value
  {
    var n := |tlvs| - 1;
    if i < n {
      assert LastOfItsTag(tlvs[..n], i);
      DictHoldsTheLast(tlvs[..n], i);
    }
  }

  lemma {:induction false} DictKey(tlvs: seq<Tlv>, tag: Tag) returns (i: nat)
    requires tag in AsDict(tlvs)
    ensures i < |tlvs| && tlvs[i].tag == tag
  {
    i := |tlvs| - 1;
    if tlvs[i].tag != tag { i := DictKey(tlvs[..i], tag); }
  }

  lemma {:induction false} DictSize(tlvs: seq<Tlv>)
    requires forall i, j :: 0 <= i < j < |tlvs| ==> tlvs[i].tag != tlvs[j].tag
    ensures |AsDict(tlvs)| == |tlvs|
  {
    if tlvs != [] {
      var n := |tlvs| - 1;
      DictSize(tlvs[..n]);
      var d, last := AsDict(tlvs[..n]), tlvs[n];
      if last.tag in d { var i := DictKey(tlvs[..n], last.tag); }
      assert d[last.tag := last.value].Keys == d.Keys + {last.tag};
    }
  }

  /** Reading an accepted dictionary back gives one entry per input key, holding the octets
      its value was encoded to. */
  method ReadBack(d: Dict) returns (m: map<Tag, seq<Octet>>)
    requires Accepted(d)
    ensures |m| == |d|
    ensures forall i :: 0 <= i < |d| ==> Encoded(d[i]).tag in m && m[Encoded(d[i]).tag] == Encoded(d[i]).value
  {
    hide EntryOk, Encoded, TagFromKey, ValueToBytes, AsDict;
    var r := FromDict(d);
    m := ToDict(r.value);
    DictSize(r.value);
    forall i | 0 <= i < |d| ensures Encoded(d[i]).tag in m && m[Encoded(d[i]).tag] == Encoded(d[i]).value {
      assert LastOfItsTag(r.value, i);
      DictHoldsTheLast(r.value, i);
    }
  }
}
