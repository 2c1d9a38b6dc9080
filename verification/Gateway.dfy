/** Routing delivery receipts back: the correlation the gateway stores when it relays a
    message, and the receipt it rebuilds when the upstream one arrives. */
module Gateway {
  import opened Text
  import opened Receipts
  import opened ReceiptRewrite

  datatype Correlation = Correlation(session: string, ourId: string)

  /** A relayed message: where it went, the id it got there, and what the ESME was told. */
  datatype Told = Told(bind: string, upstreamId: string, session: string, ourId: string)

  /** A receipt sent for the upstream receipt `dlr` on `bind`, which named `upstreamId`: to which
      session and under which of our ids, the text body, the two optional parameters, and
      whether the ESME answered. */
  datatype Delivery = Delivery(
    bind: string, dlr: Dlr, upstreamId: string, to: Correlation, body: string,
    receiptedId: string, state: Option<nat>, answered: bool)

  function DlrKey(bind: string, upstreamId: string): string {
    "dlr:" + bind + ":" + upstreamId
  }

  /** The ids the gateway hands out are hexadecimal. */
  ghost predicate IsHex(s: string) {
    forall i :: 0 <= i < |s| ==> '0' <= s[i] <= '9' || 'a' <= s[i] <= 'f'
  }

  lemma {:induction false} HexIsPlain(s: string)
    requires IsHex(s)
    ensures Trimmed(s) && ColonFree(s)
  {
  }

  // ---- Counting -----------------------------------------------------------------------

  /** How often a correlation was stored under a key. */
  ghost function Stores(ts: seq<Told>, k: string, c: Correlation): nat {
    if ts == [] then 0 else Stores(ts[..|ts| - 1], k, c) + if Backs(ts[|ts| - 1], k, c) then 1 else 0
  }

  ghost predicate SentFor(d: Delivery, k: string, c: Correlation) {
    DlrKey(d.bind, d.upstreamId) == k && d.to == c
  }

  /** How often a receipt was sent for it. */
  ghost function Sends(ds: seq<Delivery>, k: string, c: Correlation): nat {
    if ds == [] then 0 else Sends(ds[..|ds| - 1], k, c) + if SentFor(ds[|ds| - 1], k, c) then 1 else 0
  }

  lemma {:induction false} StoresAppend(ts: seq<Told>, t: Told)
    ensures forall k, c :: Stores(ts + [t], k, c) == Stores(ts, k, c) + if Backs(t, k, c) then 1 else 0
  {
    assert (ts + [t])[..|ts|] == ts;
  }

  lemma {:induction false} SendsAppend(ds: seq<Delivery>, d: Delivery)
    ensures forall k, c :: Sends(ds + [d], k, c) == Sends(ds, k, c) + if SentFor(d, k, c) then 1 else 0
  {
    assert (ds + [d])[..|ds|] == ds;
  }

  /** A correlation is spent by the receipt sent for it: sends and what is still in the cache
      never exceed what was stored. */
  ghost predicate Spent(ds: seq<Delivery>, cache: map<string, Correlation>, ts: seq<Told>) {
    forall k, c :: Sends(ds, k, c) + (if k in cache && cache[k] == c then 1 else 0) <= Stores(ts, k, c)
  }

  lemma {:induction false} StoreKeepsSpent(ds: seq<Delivery>, cache: map<string, Correlation>, ts: seq<Told>, t: Told)
    requires Spent(ds, cache, ts)
    ensures Spent(ds, cache[DlrKey(t.bind, t.upstreamId) := Correlation(t.session, t.ourId)], ts + [t])
  {
    hide DlrKey, Sends, Stores;
    StoresAppend(ts, t);
  }

  lemma {:induction false} SendKeepsSpent(ds: seq<Delivery>, cache: map<string, Correlation>, ts: seq<Told>, d: Delivery, k: string)
    requires Spent(ds, cache, ts) && k in cache && SentFor(d, k, cache[k])
    ensures Spent(ds + [d], cache - {k}, ts)
  {
    hide DlrKey, Sends, Stores;
    SendsAppend(ds, d);
  }

  // ---- The gateway --------------------------------------------------------------------

  /** The shared cache and the two handlers that use it. `told`, `stored` and `sent` record what
      ESMEs were answered, which of those messages were remembered, and the receipts sent. */
  class Gateway {
    var cache: map<string, Correlation>
    var told: seq<Told>
    var stored: seq<Told>
    var sent: seq<Delivery>

    /** Every stored correlation belongs to a message some ESME was told about, and so does
        every receipt ever sent; each receipt sent says what the upstream one said; and no
        correlation is used twice. */
    ghost predicate Valid()
      reads this
    {
      && (forall k :: k in cache ==> exists t :: t in told && Backs(t, k, cache[k]))
      && (forall t :: t in told ==> IsHex(t.ourId))
      && (forall d :: d in sent ==> exists t :: t in told && Answers(t, d))
      && (forall d :: d in sent ==> Conveys(d))
      && Spent(sent, cache, stored)
    }

    constructor ()
      ensures Valid() && cache == map[] && told == [] && stored == [] && sent == []
    {
      cache, told, stored, sent := map[], [], [], [];
    }

    /** After an accepted relay: remember how to route the receipt, if one was asked for and
        the upstream gave an id. */
    method OnSubmitAccepted(t: Told, registered: bool)
      requires Valid() && IsHex(t.ourId)
      modifies this
      ensures Valid() && told == old(told) + [t] && sent == old(sent)
      ensures var keep := registered && t.upstreamId != "";
        && stored == old(stored) + (if keep then [t] else [])
        && cache == if keep then old(cache)[DlrKey(t.bind, t.upstreamId) := Correlation(t.session, t.ourId)]
                    else old(cache)
    {
      hide Spent, IsHex, Answers, DlrKey, Conveys;
      if registered && t.upstreamId != "" {
        StoreKeepsSpent(sent, cache, stored, t);
        cache := cache[DlrKey(t.bind, t.upstreamId) := Correlation(t.session, t.ourId)];
        stored := stored + [t];
      }
      told := told + [t];
      forall k | k in cache ensures exists u :: u in told && Backs(u, k, cache[k]) {
        if cache[k] == Correlation(t.session, t.ourId) && k == DlrKey(t.bind, t.upstreamId) {
          assert t in told && Backs(t, k, cache[k]);
        } else {
          var u :| u in old(told) && Backs(u, k, cache[k]);
          assert u in told;
        }
      }
    }

    /** `_route_dlr`: an unknown id is dropped; a known one is rebuilt with our id, sent to the
        session that submitted the message and forgotten, whether or not the ESME answers. `r`
        is what the upstream receipt says. */
    method RouteDlr(bind: string, dlr: Dlr, answered: bool) returns (r: Receipt)
      requires Valid()
      modifies this
      ensures Valid() && told == old(told) && stored == old(stored) && Reads(dlr, r)
      ensures var k := DlrKey(bind, if r.id.Some? then r.id.value else "");
        if k !in old(cache) then cache == old(cache) && sent == old(sent)
        else
          && cache == old(cache) - {k}
          && |sent| == |old(sent)| + 1 && sent[..|old(sent)|] == old(sent)
          && var d := sent[|old(sent)|];
             && d.bind == bind && d.dlr == dlr && k == DlrKey(bind, d.upstreamId) && d.to == old(cache)[k] && d.answered == answered
             && IsBody(d.body, d.to.ourId, r) && StateSays(d.state, r.stat) && d.receiptedId == d.to.ourId
    {
      hide DlrKey, IsHex, Answers, Spent, Render, Rewritten, MessageState, Conveys, Reads, StateSays, IsBody;
      r := ReadReceipt(dlr);
      var k := DlrKey(bind, GetOr(r.id, ""));
      if k !in cache {
        return;
      }
      var c := cache[k];
      ghost var t :| t in told && Backs(t, k, c);
      var d := Rebuilt(bind, dlr, r, c, answered);
      RebuiltAnswers(bind, dlr, r, c, answered, t);
      RebuiltConveys(bind, dlr, r, c, answered);
      SendKeepsSpent(sent, cache, stored, d, k);
      cache := cache - {k};
      sent := sent + [d];
    }
  }

  /** What is sent for an upstream receipt with a known correlation. */
  function Rebuilt(bind: string, dlr: Dlr, r: Receipt, c: Correlation, answered: bool): Delivery {
    Delivery(bind, dlr, GetOr(r.id, ""), c, Render(Rewritten(c.ourId, r)), c.ourId, MessageState(r.stat), answered)
  }

  lemma {:induction false} RebuiltAnswers(bind: string, dlr: Dlr, r: Receipt, c: Correlation, answered: bool, t: Told)
    requires Backs(t, DlrKey(bind, GetOr(r.id, "")), c) && IsHex(t.ourId)
    ensures Answers(t, Rebuilt(bind, dlr, r, c, answered)) && Trimmed(c.ourId) && ColonFree(c.ourId)
  {
    hide DlrKey, IsHex, Render, Rewritten, IsField, MessageState;
    HexIsPlain(c.ourId);
    RewriteCarriesOurId(c.ourId, r);
  }

  /** The receipt says what the upstream one said: its body is the printed form of exactly those
      fields, its state parameter the code of exactly that state; and an ESME that parses the
      body reads those fields again if the upstream keys came in canonical order. */
  ghost predicate Conveys(d: Delivery) {
    exists r :: Reads(d.dlr, r)
      && IsBody(d.body, d.to.ourId, r) && StateSays(d.state, r.stat)
      && (Canonical(d.dlr.raw) ==> PassesOn(d.body, r))
  }

  lemma {:induction false} RebuiltConveys(bind: string, dlr: Dlr, r: Receipt, c: Correlation, answered: bool)
    requires Reads(dlr, r) && Trimmed(c.ourId) && ColonFree(c.ourId)
    ensures var d := Rebuilt(bind, dlr, r, c, answered);
      Conveys(d) && IsBody(d.body, c.ourId, r) && StateSays(d.state, r.stat)
  {
    hide Reads, IsBody, StateSays, PassesOn, Canonical, Render, Rewritten, MessageState;
    RewriteIsPrinted(c.ourId, r);
    StateAgreesWithText(r.stat);
    if Canonical(dlr.raw) { RewriteKeepsCanonicalFields(dlr, r, c.ourId); }
  }

  ghost predicate Backs(t: Told, k: string, c: Correlation) {
    DlrKey(t.bind, t.upstreamId) == k && c == Correlation(t.session, t.ourId)
  }

  /** The receipt was looked up under the message's own cache key, goes to the session that
      was told of it, and both its text and its optional parameter name the id that session
      knows. */
  ghost predicate Answers(t: Told, d: Delivery) {
    && DlrKey(t.bind, t.upstreamId) == DlrKey(d.bind, d.upstreamId)
    && t.session == d.to.session
    && IsField(d.body, Id, Some(t.ourId)) && d.receiptedId == t.ourId
  }

  // ---- When the cache key tells messages apart ----------------------------------------

  ghost predicate Shadows(a: string, b: string) {
    |a| < |b| && b[..|a|] == a && b[|a|] == ':'
  }

  /** Two binds can share a cache key exactly when one name is the other followed by a colon
      and more, and then under upstream ids that are not empty. */
  lemma {:induction false} KeyCollision(a: string, b: string)
    requires a != b
    ensures (exists i, j :: i != "" && j != "" && DlrKey(a, i) == DlrKey(b, j)) <==> Shadows(a, b) || Shadows(b, a)
  {
    if Shadows(a, b) {
      Collide(a, b, "1");
    } else if Shadows(b, a) {
      Collide(b, a, "1");
    } else if exists i, j :: i != "" && j != "" && DlrKey(a, i) == DlrKey(b, j) {
      var i, j :| i != "" && j != "" && DlrKey(a, i) == DlrKey(b, j);
      KeysDiffer(a, i, b, j);
    }
  }

  /** The id under which bind `a` finds what was stored for id `j` on bind `b`. */
  function Alias(a: string, b: string, j: string): string
    requires |a| < |b|
  {
    b[|a| + 1..] + ":" + j
  }

  lemma {:induction false} Collide(a: string, b: string, j: string)
    requires Shadows(a, b)
    ensures Alias(a, b, j) != "" && DlrKey(a, Alias(a, b, j)) == DlrKey(b, j)
  {
    var i := b[|a| + 1..] + ":" + j;
    assert b == a + ":" + b[|a| + 1..];
    assert a + ":" + i == b + ":" + j;
    assert DlrKey(a, i) == "dlr:" + (a + ":" + i) == "dlr:" + (b + ":" + j) == DlrKey(b, j);
  }

  /** With such names receipts do go astray. A message goes out on `b` alone; a receipt on `a`
      for a message never relayed there is sent to the session that submitted on `b`, as the
      receipt of its message. */
  method Misroute(a: string, b: string, upstreamId: string, session: string, ourId: string) returns (g: Gateway)
    requires Shadows(a, b) && upstreamId != "" && IsHex(ourId)
    ensures g.Valid() && g.told == [Told(b, upstreamId, session, ourId)] && a != b
    ensures |g.sent| == 1 && g.sent[0].bind == a && g.sent[0].to == Correlation(session, ourId) && g.cache == map[]
  {
    hide DlrKey, IsHex, IsBody, StateSays, Spent, Conveys;
    var id := Alias(a, b, upstreamId);
    Collide(a, b, upstreamId);
    g := new Gateway();
    g.OnSubmitAccepted(Told(b, upstreamId, session, ourId), true);
    var r := g.RouteDlr(a, Dlr("", Some(id), None), true);
    assert r.id == Some(id) by { IdFromParameter(Dlr("", Some(id), None), r); }
    assert g.cache == map[];
  }

  lemma {:induction false} IdFromParameter(dlr: Dlr, r: Receipt)
    requires Reads(dlr, r) && dlr.raw == ""
    ensures r.id == dlr.tlvId
  {
    hide IsField, IsStateText;
    assert !Names("", "id:");
  }

  lemma {:induction false} ShorterShadows(a: string, i: string, b: string, j: string)
    requires a + ":" + i == b + ":" + j && |a| < |b|
    ensures Shadows(a, b)
  {
    var x, y := a + ":" + i, b + ":" + j;
    assert x[..|a|] == a && x[|a|] == ':' && y[..|b|] == b;
    assert b[..|a|] == y[..|a|] && b[|a|] == y[|a|];
  }

  lemma {:induction false} KeysDiffer(a: string, i: string, b: string, j: string)
    requires !Shadows(a, b) && !Shadows(b, a) && DlrKey(a, i) == DlrKey(b, j)
    ensures a == b && i == j
  {
    hide Shadows;
    var x, y := a + ":" + i, b + ":" + j;
    assert DlrKey(a, i) == "dlr:" + x && DlrKey(b, j) == "dlr:" + y;
    assert x == ("dlr:" + x)[4..] && y == ("dlr:" + y)[4..];
    if |a| < |b| {
      ShorterShadows(a, i, b, j);
    } else if |b| < |a| {
      ShorterShadows(b, j, a, i);
    } else {
      assert a == x[..|a|] && b == y[..|b|];
      assert i == x[|a| + 1..] && j == y[|b| + 1..];
    }
  }

  /** With bind names that do not shadow each other, every receipt ever sent answers for the
      very message it names: same bind, same upstream id, the submitting session, and an id
      that session was told. */
  lemma {:induction false} ReceiptsReachTheirSenders(g: Gateway, d: Delivery)
    requires g.Valid() && d in g.sent
    requires forall t :: t in g.told ==> !Shadows(t.bind, d.bind) && !Shadows(d.bind, t.bind)
    ensures exists t :: t in g.told && t.bind == d.bind && t.upstreamId == d.upstreamId
                        && t.session == d.to.session && IsField(d.body, Id, Some(t.ourId)) && d.receiptedId == t.ourId
  {
    hide DlrKey, Shadows, IsField, IsHex, Spent, Conveys;
    var t :| t in g.told && Answers(t, d);
    KeysDiffer(t.bind, t.upstreamId, d.bind, d.upstreamId);
  }

  // ---- At most one receipt for each message -------------------------------------------

  ghost predicate DistinctIds(ts: seq<Told>) {
    forall i, j :: 0 <= i < j < |ts| ==> ts[i].ourId != ts[j].ourId
  }

  lemma {:induction false} StoredOnce(ts: seq<Told>, k: string, c: Correlation)
    requires DistinctIds(ts)
    ensures Stores(ts, k, c) <= 1
    ensures Stores(ts, k, c) == 1 ==> exists i :: 0 <= i < |ts| && Backs(ts[i], k, c)
  {
    hide DlrKey;
    if ts != [] {
      var n := |ts| - 1;
      StoredOnce(ts[..n], k, c);
      if Stores(ts[..n], k, c) == 1 {
        var i :| 0 <= i < n && Backs(ts[..n][i], k, c);
        assert Backs(ts[i], k, c);
      }
    }
  }

  lemma {:induction false} SendsCount(ds: seq<Delivery>, i: nat, j: nat, k: string, c: Correlation)
    requires i <= j < |ds| && SentFor(ds[i], k, c) && SentFor(ds[j], k, c)
    ensures Sends(ds, k, c) >= if i < j then 2 else 1
  {
    hide SentFor;
    var n := |ds| - 1;
    if j < n {
      SendsCount(ds[..n], i, j, k, c);
    } else if i < j {
      SendsCount(ds[..n], i, i, k, c);
    }
  }

  /** The ids we hand out are fresh, so no two receipts are ever sent for one message, in
      whatever order submits and upstream receipts come and however often the latter repeat. */
  lemma {:induction false} OneReceiptPerMessage(g: Gateway, i: nat, j: nat)
    requires g.Valid() && DistinctIds(g.stored) && i < j < |g.sent|
    ensures g.sent[i].to.ourId != g.sent[j].to.ourId
  {
    hide DlrKey, Sends, Stores, IsHex, Answers, Conveys;
    var d, e := g.sent[i], g.sent[j];
    var k, l := DlrKey(d.bind, d.upstreamId), DlrKey(e.bind, e.upstreamId);
    SendsCount(g.sent, i, i, k, d.to);
    SendsCount(g.sent, j, j, l, e.to);
    StoredOnce(g.stored, k, d.to);
    StoredOnce(g.stored, l, e.to);
    if d.to.ourId == e.to.ourId {
      var x :| 0 <= x < |g.stored| && Backs(g.stored[x], k, d.to);
      var y :| 0 <= y < |g.stored| && Backs(g.stored[y], l, e.to);
      assert x == y;
      SendsCount(g.sent, i, j, k, d.to);
      assert false;
    }
  }
}
