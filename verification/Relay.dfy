/** Relaying a message one hop: the gateway's keyword arguments, the checks of the send
    helpers, and what the next hop reads. */
module Relay {
  import opened Text
  import opened Tlv

  const SHORT_MESSAGE_MAX: nat := 254
  const MESSAGE_PAYLOAD: Tag := 0x0424

  /** Parameters worth carrying across a hop: the `sar_*` trio, more_messages_to_send,
      user_message_reference, the two ports, privacy_indicator and payload_type. */
  const RELAYED: seq<Tag> := [0x020C, 0x020E, 0x020F, 0x0426, 0x0204, 0x020A, 0x020B, 0x0201, 0x0019]

  /** The parts of a PDU a relay reads. A `data_sm` has no short message. */
  datatype Pdu = Pdu(shortMessage: seq<Octet>, tlvs: seq<Tlv>)

  /** The first parameter with that tag. */
  function Lookup(tlvs: seq<Tlv>, tag: Tag): (r: Option<seq<Octet>>)
    ensures r.None? <==> forall t :: t in tlvs ==> t.tag != tag
    ensures r.Some? ==> Tlv(tag, r.value) in tlvs
  {
    if tlvs == [] then None
    else if tlvs[0].tag == tag then Some(tlvs[0].value)
    else
      assert forall t :: t in tlvs <==> t == tlvs[0] || t in tlvs[1..];
      Lookup(tlvs[1..], tag)
  }

  /** `message_payload` when present, else the short message. */
  function Body(p: Pdu): seq<Octet> {
    var payload := Lookup(p.tlvs, MESSAGE_PAYLOAD);
    if payload.Some? then payload.value else p.shortMessage
  }

  /** Entry `e` carries the parameter of `p` with that tag. */
  ghost predicate Carries(e: (Key, Value), p: Pdu, tag: Tag) {
    e.0 == Name(Some(tag)) && Lookup(p.tlvs, tag).Some? && e.1 == Octets(Lookup(p.tlvs, tag).value)
  }

  lemma {:induction false} EmptyIsAccepted()
    ensures Accepted([])
  {
  }

  lemma {:induction false} AcceptedAppend(d: Dict, e: (Key, Value))
    requires Accepted(d) && EntryOk(e)
    requires forall x :: x in d ==> EntryOk(x) && Encoded(x).tag != Encoded(e).tag
    ensures Accepted(d + [e]) && forall x :: x in d + [e] <==> x in d || x == e
  {
    hide EntryOk, Encoded;
    assert forall i :: 0 <= i < |d| ==> d[i] in d;
  }

  /** `_relay_kwargs`: the relayed parameters that are present, and the body as the short
      message, or as `message_payload` when the short message cannot hold it. */
  method RelayArguments(p: Pdu) returns (shortMessage: seq<Octet>, tlvs: Dict)
    ensures |shortMessage| <= SHORT_MESSAGE_MAX && Accepted(tlvs)
    ensures forall e :: e in tlvs ==>
      e == (Name(Some(MESSAGE_PAYLOAD)), Octets(Body(p))) || exists i :: 0 <= i < |RELAYED| && Carries(e, p, RELAYED[i])
    ensures forall i :: 0 <= i < |RELAYED| && Lookup(p.tlvs, RELAYED[i]).Some? ==>
      (Name(Some(RELAYED[i])), Octets(Lookup(p.tlvs, RELAYED[i]).value)) in tlvs
    ensures if |Body(p)| > SHORT_MESSAGE_MAX
      then shortMessage == [] && (Name(Some(MESSAGE_PAYLOAD)), Octets(Body(p))) in tlvs
      else shortMessage == Body(p) && (Name(Some(MESSAGE_PAYLOAD)), Octets(Body(p))) !in tlvs
  {
    hide Lookup, Accepted;
    EmptyIsAccepted();
    tlvs := [];
    for i := 0 to |RELAYED|
      invariant Accepted(tlvs)
      invariant forall e :: e in tlvs ==> exists j :: 0 <= j < i && Carries(e, p, RELAYED[j])
      invariant forall j :: 0 <= j < i && Lookup(p.tlvs, RELAYED[j]).Some? ==>
        (Name(Some(RELAYED[j])), Octets(Lookup(p.tlvs, RELAYED[j]).value)) in tlvs
    {
      var value := Lookup(p.tlvs, RELAYED[i]);
      if value.Some? {
        var entry := (Name(Some(RELAYED[i])), Octets(value.value));
        assert Carries(entry, p, RELAYED[i]);
        forall e | e in tlvs ensures EntryOk(e) && Encoded(e).tag != RELAYED[i] {
          var j :| 0 <= j < i && Carries(e, p, RELAYED[j]);
        }
        AcceptedAppend(tlvs, entry);
        tlvs := tlvs + [entry];
      }
    }
    shortMessage := Body(p);
    forall e | e in tlvs ensures EntryOk(e) && Encoded(e).tag != MESSAGE_PAYLOAD {
      var j :| 0 <= j < |RELAYED| && Carries(e, p, RELAYED[j]);
    }
    if |shortMessage| > SHORT_MESSAGE_MAX {
      var entry := (Name(Some(MESSAGE_PAYLOAD)), Octets(shortMessage));
      AcceptedAppend(tlvs, entry);
      tlvs := tlvs + [entry];
      shortMessage := [];
    }
  }

  // ---- The send helpers ---------------------------------------------------------------

  function CheckShortMessage(len: nat): Result<()> {
    if len <= SHORT_MESSAGE_MAX then Ok(()) else Err(BodyTooLong)
  }

  /** `fold_message_payload`: a `data_sm` carries its body only as a parameter. Passing a body
      both ways is refused. */
  method FoldMessagePayload(shortMessage: seq<Octet>, tlvs: seq<Tlv>) returns (r: Result<seq<Tlv>>)
    ensures r.Err? <==> shortMessage != [] && Lookup(tlvs, MESSAGE_PAYLOAD).Some?
    ensures r.Ok? ==> Body(Pdu([], r.value)) == Body(Pdu(shortMessage, tlvs))
    ensures r.Ok? ==> forall tag :: tag != MESSAGE_PAYLOAD ==> Lookup(r.value, tag) == Lookup(tlvs, tag)
  {
    if shortMessage == [] {
      return Ok(tlvs);
    }
    if Lookup(tlvs, MESSAGE_PAYLOAD).Some? {
      return Err(BothBodies);
    }
    forall tag ensures Lookup(tlvs + [Tlv(MESSAGE_PAYLOAD, shortMessage)], tag)
      == if Lookup(tlvs, tag).Some? then Lookup(tlvs, tag)
         else if tag == MESSAGE_PAYLOAD then Some(shortMessage) else None
    {
      LookupAppend(tlvs, Tlv(MESSAGE_PAYLOAD, shortMessage), tag);
    }
    r := Ok(tlvs + [Tlv(MESSAGE_PAYLOAD, shortMessage)]);
  }

  lemma {:induction false} LookupAppend(tlvs: seq<Tlv>, t: Tlv, tag: Tag)
    ensures Lookup(tlvs + [t], tag) == if Lookup(tlvs, tag).Some? then Lookup(tlvs, tag)
      else if tag == t.tag then Some(t.value) else None
  {
    if tlvs != [] {
      assert (tlvs + [t])[1..] == tlvs[1..] + [t];
      LookupAppend(tlvs[1..], t, tag);
    }
  }

  /** With distinct tags, membership decides the lookup. */
  lemma {:induction false} LookupDistinct(tlvs: seq<Tlv>, t: Tlv)
    requires t in tlvs && forall i, j :: 0 <= i < j < |tlvs| ==> tlvs[i].tag != tlvs[j].tag
    ensures Lookup(tlvs, t.tag) == Some(t.value)
  {
    if tlvs[0] != t {
      assert t in tlvs[1..];
      var i :| 0 < i < |tlvs| && tlvs[i] == t;
      LookupDistinct(tlvs[1..], t);
    }
  }

  /** `b` is what a reader of the PDU gets: the first 0x0424 parameter, whatever the short
      message holds, and the short message only where there is no such parameter. */
  ghost predicate IsBodyOf(p: Pdu, b: seq<Octet>) {
    || (exists i :: IsFirst(p.tlvs, i, 0x0424) && p.tlvs[i].value == b)
    || ((forall t :: t in p.tlvs ==> t.tag != 0x0424) && b == p.shortMessage)
  }

  ghost predicate IsFirst(tlvs: seq<Tlv>, i: int, tag: Tag) {
    0 <= i < |tlvs| && tlvs[i].tag == tag && forall j :: 0 <= j < i ==> tlvs[j].tag != tag
  }

  lemma {:induction false} LookupIsFirst(tlvs: seq<Tlv>, tag: Tag)
    ensures Lookup(tlvs, tag).Some? ==> exists i :: IsFirst(tlvs, i, tag) && tlvs[i].value == Lookup(tlvs, tag).value
    ensures forall i :: IsFirst(tlvs, i, tag) ==> Lookup(tlvs, tag) == Some(tlvs[i].value)
  {
    if tlvs != [] && tlvs[0].tag != tag {
      var rest := tlvs[1..];
      LookupIsFirst(rest, tag);
      if Lookup(rest, tag).Some? {
        var i :| IsFirst(rest, i, tag) && rest[i].value == Lookup(rest, tag).value;
        assert IsFirst(tlvs, i + 1, tag);
      }
      forall i | IsFirst(tlvs, i, tag) ensures Lookup(tlvs, tag) == Some(tlvs[i].value) {
        assert IsFirst(rest, i - 1, tag);
      }
    } else if tlvs != [] {
      assert IsFirst(tlvs, 0, tag);
    }
  }

  lemma {:induction false} BodyIs(p: Pdu, b: seq<Octet>)
    ensures IsBodyOf(p, b) <==> b == Body(p)
  {
    hide Lookup;
    LookupIsFirst(p.tlvs, 0x0424);
    if exists i :: IsFirst(p.tlvs, i, 0x0424) && p.tlvs[i].value == b {
      var i :| IsFirst(p.tlvs, i, 0x0424) && p.tlvs[i].value == b;
      assert p.tlvs[i] in p.tlvs;
    }
  }

  /** The parameters a relay passes on, by tag: sar_msg_ref_num, sar_total_segments,
      sar_segment_seqnum, more_messages_to_send, user_message_reference, source_port,
      destination_port, privacy_indicator and payload_type. */
  ghost predicate IsRelayed(tag: Tag) {
    || tag == 0x020C || tag == 0x020E || tag == 0x020F || tag == 0x0426 || tag == 0x0204
    || tag == 0x020A || tag == 0x020B || tag == 0x0201 || tag == 0x0019
  }

  lemma {:induction false} RelayedTags(tag: Tag)
    ensures tag in RELAYED <==> IsRelayed(tag)
  {
    assert RELAYED[0] == 0x020C && RELAYED[1] == 0x020E && RELAYED[2] == 0x020F && RELAYED[3] == 0x0426;
    assert RELAYED[4] == 0x0204 && RELAYED[5] == 0x020A && RELAYED[6] == 0x020B && RELAYED[7] == 0x0201;
    assert RELAYED[8] == 0x0019;
  }

  /** What the next hop must read: the same body and the same relayed parameters, and no
      parameter the gateway does not relay. */
  ghost predicate Preserves(p: Pdu, next: Pdu) {
    && Body(next) == Body(p)
    && (forall i :: 0 <= i < |RELAYED| ==> Lookup(next.tlvs, RELAYED[i]) == Lookup(p.tlvs, RELAYED[i]))
    && (forall tag :: Lookup(next.tlvs, tag).Some? ==> tag == MESSAGE_PAYLOAD || tag in RELAYED)
  }

  /** The same, spelled out. */
  ghost predicate ArrivesWhole(p: Pdu, next: Pdu) {
    && (forall b :: IsBodyOf(p, b) <==> IsBodyOf(next, b))
    && (forall tag :: IsRelayed(tag) ==> Lookup(next.tlvs, tag) == Lookup(p.tlvs, tag))
    && (forall t :: t in next.tlvs ==> t.tag == 0x0424 || IsRelayed(t.tag))
  }

  lemma {:induction false} PreservedArrivesWhole(p: Pdu, next: Pdu)
    requires Preserves(p, next)
    ensures ArrivesWhole(p, next)
  {
    hide Lookup, Body, IsBodyOf;
    forall b ensures IsBodyOf(p, b) <==> IsBodyOf(next, b) { BodyIs(p, b); BodyIs(next, b); }
    forall tag | IsRelayed(tag) ensures Lookup(next.tlvs, tag) == Lookup(p.tlvs, tag) {
      RelayedTags(tag);
      var i :| 0 <= i < |RELAYED| && RELAYED[i] == tag;
    }
    forall t | t in next.tlvs ensures t.tag == 0x0424 || IsRelayed(t.tag) {
      RelayedTags(t.tag);
      assert Lookup(next.tlvs, t.tag).Some?;
    }
  }

  /** What the converted dictionary of `RelayArguments` holds. */
  lemma {:induction false} ConvertedArguments(p: Pdu, shortMessage: seq<Octet>, d: Dict, tlvs: seq<Tlv>)
    requires Accepted(d) && |tlvs| == |d| && forall i :: 0 <= i < |d| ==> tlvs[i] == Encoded(d[i])
    requires forall e :: e in d ==>
      e == (Name(Some(MESSAGE_PAYLOAD)), Octets(Body(p))) || exists i :: 0 <= i < |RELAYED| && Carries(e, p, RELAYED[i])
    requires forall i :: 0 <= i < |RELAYED| && Lookup(p.tlvs, RELAYED[i]).Some? ==>
      (Name(Some(RELAYED[i])), Octets(Lookup(p.tlvs, RELAYED[i]).value)) in d
    requires if |Body(p)| > SHORT_MESSAGE_MAX
      then shortMessage == [] && (Name(Some(MESSAGE_PAYLOAD)), Octets(Body(p))) in d
      else shortMessage == Body(p) && (Name(Some(MESSAGE_PAYLOAD)), Octets(Body(p))) !in d
    ensures Preserves(p, Pdu(shortMessage, tlvs))
    ensures shortMessage != [] ==> Lookup(tlvs, MESSAGE_PAYLOAD).None?
  {
    hide Lookup;
    forall e | e in d ensures EntryOk(e) && Encoded(e) in tlvs {
      var i :| 0 <= i < |d| && d[i] == e;
      assert tlvs[i] in tlvs;
    }
    forall tag | Lookup(tlvs, tag).Some? ensures exists e :: e in d && Encoded(e) == Tlv(tag, Lookup(tlvs, tag).value) {
      var i :| 0 <= i < |tlvs| && tlvs[i] == Tlv(tag, Lookup(tlvs, tag).value);
      assert d[i] in d;
    }
    forall i | 0 <= i < |RELAYED| ensures Lookup(tlvs, RELAYED[i]) == Lookup(p.tlvs, RELAYED[i]) {
      if Lookup(p.tlvs, RELAYED[i]).Some? {
        var e := (Name(Some(RELAYED[i])), Octets(Lookup(p.tlvs, RELAYED[i]).value));
        assert e in d;
        LookupDistinct(tlvs, Encoded(e));
      }
    }
    if |Body(p)| > SHORT_MESSAGE_MAX {
      LookupDistinct(tlvs, Tlv(MESSAGE_PAYLOAD, Body(p)));
    }
  }

  /** One hop over `submit_sm` or `deliver_sm`: the arguments pass the length check and the
      conversion, the next hop reads what this one read, and the body travels in the short
      message if its 254 octets can hold it and in the 0x0424 parameter otherwise. */
  method SubmitHop(p: Pdu) returns (next: Result<Pdu>)
    ensures next.Ok? && ArrivesWhole(p, next.value) && |next.value.shortMessage| <= 254
    ensures forall b :: IsBodyOf(p, b) ==>
      if |b| <= 254 then next.value.shortMessage == b && forall t :: t in next.value.tlvs ==> t.tag != 0x0424
      else next.value.shortMessage == [] && Tlv(0x0424, b) in next.value.tlvs
  {
    hide Lookup, Accepted, EntryOk, Encoded, Body, IsBodyOf, ArrivesWhole;
    var shortMessage, d := RelayArguments(p);
    var checked := CheckShortMessage(|shortMessage|);
    var tlvs := FromDict(d);
    ConvertedArguments(p, shortMessage, d, tlvs.value);
    PayloadOnlyIfLong(p, shortMessage, d, tlvs.value);
    next := if checked.Ok? then Ok(Pdu(shortMessage, tlvs.value)) else Err(BodyTooLong);
    PreservedArrivesWhole(p, next.value);
    forall b | IsBodyOf(p, b) ensures b == Body(p) { BodyIs(p, b); }
  }

  /** One hop over `data_sm`: folding the body never meets a second one, and the next hop
      reads what this one read, out of the parameters alone. */
  method DataHop(p: Pdu) returns (next: Result<Pdu>)
    ensures next.Ok? && ArrivesWhole(p, next.value) && next.value.shortMessage == []
  {
    hide Lookup, Accepted, EntryOk, Encoded, ArrivesWhole;
    var shortMessage, d := RelayArguments(p);
    var tlvs := FromDict(d);
    ConvertedArguments(p, shortMessage, d, tlvs.value);
    var folded := FoldMessagePayload(shortMessage, tlvs.value);
    assert MESSAGE_PAYLOAD !in RELAYED;
    next := if folded.Ok? then Ok(Pdu([], folded.value)) else Err(BothBodies);
    PreservedArrivesWhole(p, next.value);
  }

  lemma {:induction false} PayloadOnlyIfLong(p: Pdu, shortMessage: seq<Octet>, d: Dict, tlvs: seq<Tlv>)
    requires Accepted(d) && |tlvs| == |d| && forall i :: 0 <= i < |d| ==> tlvs[i] == Encoded(d[i])
    requires forall e :: e in d ==>
      e == (Name(Some(MESSAGE_PAYLOAD)), Octets(Body(p))) || exists i :: 0 <= i < |RELAYED| && Carries(e, p, RELAYED[i])
    requires if |Body(p)| > SHORT_MESSAGE_MAX
      then shortMessage == [] && (Name(Some(MESSAGE_PAYLOAD)), Octets(Body(p))) in d
      else shortMessage == Body(p) && (Name(Some(MESSAGE_PAYLOAD)), Octets(Body(p))) !in d
    ensures if |Body(p)| <= 254 then shortMessage == Body(p) && forall t :: t in tlvs ==> t.tag != 0x0424
            else shortMessage == [] && Tlv(0x0424, Body(p)) in tlvs
  {
    hide Lookup, Body;
    if |Body(p)| <= 254 {
      forall t | t in tlvs ensures t.tag != 0x0424 {
        var i :| 0 <= i < |tlvs| && tlvs[i] == t;
        assert d[i] in d;
        var j :| 0 <= j < |RELAYED| && Carries(d[i], p, RELAYED[j]);
      }
    } else {
      var e := (Name(Some(MESSAGE_PAYLOAD)), Octets(Body(p)));
      var i :| 0 <= i < |d| && d[i] == e;
      assert tlvs[i] in tlvs;
    }
  }

  /** The limit of section 5.2.21 of SMPP 3.4. */
  lemma {:induction false} LimitIs254(len: nat)
    ensures CheckShortMessage(len).Ok? <==> len <= 254
  {
  }
}
