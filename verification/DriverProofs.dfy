/** Phase 1 end to end: two drivers over a connection that keeps packets in
    order agree on the session key, whatever other connections do to the buffers
    they share. */
module DriverProofs {
  import opened Basics
  import opened Messages
  import opened Fragment
  import opened Reassembly
  import opened ReassemblySafety
  import opened Receivers
  import opened FifoDelivery
  import opened Crypto
  import opened Handshake
  import opened HandshakeProofs
  import opened Driver

  /** A driver's end of the connection: its inbox, the buffer it found, the turns
      taken on that buffer by any receivers, and what its own calls returned. */
  datatype Side = Side(conn: nat, f: Fragments, inbox: seq<Arrival>, trace: seq<Event>, heard: seq<Hearing>)

  ghost predicate Listens(x: Side) {
    Attends(x.conn, x.f, x.inbox, x.trace, x.heard)
  }

  /** Until this side has read the two packets of the agree, nobody else stores
      anything under this id on its buffer, and no purge removes what is stored. */
  ghost predicate Reserved(x: Side, id: U32) {
    id !in x.f && Undisturbed(x.conn, id, x.f, x.trace, 2)
  }

  // ---------- Messages over the connection ----------

  /** What a driver sends for one message. */
  function Sealing(flag: Byte, data: Bytes, id: U32): Parcel {
    Parcel(id, Sending(0, flag, data, MAX_FRAGMENT))
  }

  lemma WrapSize(flag: Byte, data: Bytes, id: U32)
    ensures |data| <= MAX_FRAGMENT ==> |Wrap(flag, data, id)| == 1 && Countable(|data|, MAX_FRAGMENT)
    ensures MAX_FRAGMENT < |data| <= 2 * MAX_FRAGMENT ==>
      |Wrap(flag, data, id)| == 2 && Countable(|data|, MAX_FRAGMENT)
  {
    CeilDivLeast(|data|, MAX_FRAGMENT, 1);
    CeilDivLeast(|data|, MAX_FRAGMENT, 2);
  }

  lemma WrapFrames(flag: Byte, data: Bytes, id: U32)
    requires |data| <= 2 * MAX_FRAGMENT
    ensures var o := Sealing(flag, data, id).message;
      && WellCut(o) && FramesOf(o, id) == Wrap(flag, data, id) && Parts(o) == |Wrap(flag, data, id)|
      && o.flag == flag && o.data == data
      && (if |data| <= MAX_FRAGMENT then Parts(o) == 1 else Parts(o) == 2)
  {
    WrapSize(flag, data, id);
    SendingIsWellCut(0, flag, data, MAX_FRAGMENT);
  }

  /** The first message of a connection is the first one heard. */
  lemma HearsFirst(x: Side, flag: Byte, data: Bytes, id: U32)
    requires Listens(x) && x.heard != [] && |data| <= 2 * MAX_FRAGMENT
    requires |data| <= MAX_FRAGMENT || Reserved(x, id)
    requires Wrap(flag, data, id) <= PacketsIn(x.inbox)
    ensures x.heard[0] == Ok((flag, data))
  {
    var p := Sealing(flag, data, id);
    WrapFrames(flag, data, id);
    OneParcel(p);
    OneLineup(x.conn, x.f, x.trace, p);
    HearsInOrder(x.conn, x.f, x.inbox, x.trace, x.heard, [p]);
  }

  lemma TwoParcels(a: Parcel, b: Parcel)
    requires WellCut(a.message) && WellCut(b.message)
    ensures Sendable([a, b]) && Stream([a, b]) == FramesOf(a.message, a.id) + FramesOf(b.message, b.id)
    ensures Contents([a, b]) == [Ok((a.message.flag, a.message.data)), Ok((b.message.flag, b.message.data))]
  {
    OneParcel(a);
    assert [a, b][..1] == [a];
  }

  /** Two short messages: no condition on the buffer at all. */
  lemma ShortLineup(x: Side, a: Parcel, b: Parcel)
    requires WellCut(a.message) && WellCut(b.message) && Parts(a.message) == 1 && Parts(b.message) == 1
    ensures Lineup(x.conn, x.f, x.trace, [a, b])
  {
    forall j: nat | j < 2 ensures HasItsWay(x.conn, x.f, x.trace, [a, b], j) {
    }
  }

  lemma HearsSecond(x: Side, flag1: Byte, data1: Bytes, id1: U32, flag2: Byte, data2: Bytes, id2: U32)
    requires Listens(x) && 2 <= |x.heard| && |data1| <= MAX_FRAGMENT && |data2| <= MAX_FRAGMENT
    requires Wrap(flag1, data1, id1) + Wrap(flag2, data2, id2) <= PacketsIn(x.inbox)
    ensures x.heard[0] == Ok((flag1, data1)) && x.heard[1] == Ok((flag2, data2))
  {
    var a, b := Sealing(flag1, data1, id1), Sealing(flag2, data2, id2);
    WrapFrames(flag1, data1, id1);
    WrapFrames(flag2, data2, id2);
    TwoParcels(a, b);
    ShortLineup(x, a, b);
    HearsInOrder(x.conn, x.f, x.inbox, x.trace, x.heard, [a, b]);
  }

  // ---------- The handshake played through ----------

  /** The four handshake calls of an undisturbed phase 1. */
  ghost predicate Script(c: Suite, ra: Randomness, rb: Randomness, a1: Hs, a2: Hs, b1: Hs, b2: Hs,
                         request: Bytes, agree: Bytes, finish: Bytes, key: Bytes) {
    && Initiate(c, FRESH, ra.seed) == (a1, Out(request))
    && HandleRequest(c, FRESH, request, rb.seed, rb.coins) == (b1, Out(agree))
    && HandleAgree(c, a1, agree, ra.coins) == (a2, Out(finish))
    && HandleFinish(c, b1, finish) == (b2, Done)
    && DeriveSessionKey(c, a2) == Out(key) && DeriveSessionKey(c, b2) == Out(key)
  }

  /** The three messages, and then the key, from what the two sides draw: the
      responder encapsulates to the key in the request, the initiator to the key in
      the agree, and both derive from the two secrets in this order. */
  ghost predicate Exchanged(c: Suite, ra: Randomness, rb: Randomness, request: Bytes, agree: Bytes, finish: Bytes)
    requires ra.seed.Some? && rb.seed.Some?
  {
    var pubA, pubB, suite := c.kemPublic(ra.seed.value), c.kemPublic(rb.seed.value), Ascii("ML-KEM-768_AES-GCM");
    var e1, e2 := c.encap(pubA, rb.coins), c.encap(pubB, ra.coins);
    && e1.Some? && e2.Some?
    && request == Encode(HandshakeRequest(pubA, suite))
    && agree == Encode(HandshakeAgree(pubB, e1.value.0, suite))
    && finish == Encode(HandshakeFinish(e2.value.0))
  }

  ghost predicate KeyOfBoth(c: Suite, ra: Randomness, rb: Randomness, key: Bytes)
    requires ra.seed.Some? && rb.seed.Some?
  {
    var e1, e2 := c.encap(c.kemPublic(ra.seed.value), rb.coins), c.encap(c.kemPublic(rb.seed.value), ra.coins);
    && e1.Some? && e2.Some?
    && key == c.hkdf(e1.value.1 + e2.value.1, Zeros(32), Ascii("ML-KEM-768-session-key-v1"), 32)
  }

  lemma PlayScript(c: Suite, ra: Randomness, rb: Randomness)
    returns (a1: Hs, a2: Hs, b1: Hs, b2: Hs, request: Bytes, agree: Bytes, finish: Bytes, key: Bytes)
    requires IdealKem(c) && IdealHashes(c) && ra.seed.Some? && rb.seed.Some?
    ensures Script(c, ra, rb, a1, a2, b1, b2, request, agree, finish, key)
    ensures a2.state == Established && b2.state == Established
    ensures a2.peer == c.kemPublic(rb.seed.value) && b2.peer == c.kemPublic(ra.seed.value)
    ensures a2.keypair == ra.seed && b2.keypair == None
    ensures |request| == 1207 && |agree| == 2297 && |finish| == 1091 && |key| == 32
    ensures Exchanged(c, ra, rb, request, agree, finish) && KeyOfBoth(c, ra, rb, key)
  {
    var pubA, pubB := c.kemPublic(ra.seed.value), c.kemPublic(rb.seed.value);
    assert Decapsulates(c, ra.seed.value, rb.coins) && Decapsulates(c, rb.seed.value, ra.coins);
    var ct1, ct2 := c.encap(pubA, rb.coins).value.0, c.encap(pubB, ra.coins).value.0;
    var m1, m2, m3 := HandshakeRequest(pubA, SUITE_NAME), HandshakeAgree(pubB, ct1, SUITE_NAME), HandshakeFinish(ct2);
    request, agree, finish := Encode(m1), Encode(m2), Encode(m3);
    DecodesBack(m1);
    DecodesBack(m2);
    DecodesBack(m3);
    EncodeLength(m1);
    EncodeLength(m2);
    EncodeLength(m3);
    a1 := Initiate(c, FRESH, ra.seed).0;
    b1 := HandleRequest(c, FRESH, request, rb.seed, rb.coins).0;
    a2 := HandleAgree(c, a1, agree, ra.coins).0;
    b2 := HandleFinish(c, b1, finish).0;
    key := SessionKey(c, a2.secrets[SsB2A], a2.secrets[SsA2B]);
  }

  // ---------- End to end ----------

  /** The request is sent before anything is heard. */
  lemma AsksFirst(c: Suite, ra: Randomness, budget: nat, first: Hearing, a1: Hs, request: Bytes)
    requires Initiate(c, FRESH, ra.seed) == (a1, Out(request))
    requires |Wrap(FLAG_REQUEST, request, ra.id1)| <= budget
    ensures var p := InitiatorOne(c, ra, budget, first);
      Wrap(FLAG_REQUEST, request, ra.id1) <= p.sent && p.receives == 1
  {
  }

  /** The initiator, once it has heard the agree. */
  lemma InitiatorEnds(c: Suite, ra: Randomness, budget: nat, a1: Hs, request: Bytes, agree: Bytes, a2: Hs,
                      finish: Bytes)
    requires Initiate(c, FRESH, ra.seed) == (a1, Out(request))
    requires HandleAgree(c, a1, agree, ra.coins) == (a2, Out(finish))
    requires |Wrap(FLAG_REQUEST, request, ra.id1)| + |Wrap(FLAG_FINISH, finish, ra.id2)| <= budget
    ensures InitiatorOne(c, ra, budget, Ok((FLAG_AGREE, agree)))
      == PhaseOne(a2, Wrap(FLAG_REQUEST, request, ra.id1) + Wrap(FLAG_FINISH, finish, ra.id2), 1,
                  ReplyOf(DeriveSessionKey(c, a2)))
  {
    ThroughAll(Wrap(FLAG_FINISH, finish, ra.id2), budget - |Wrap(FLAG_REQUEST, request, ra.id1)|);
  }

  /** The responder answers the request before it hears the finish. */
  lemma ResponderAnswers(c: Suite, rb: Randomness, budget: nat, request: Bytes, b1: Hs, agree: Bytes, second: Hearing)
    requires HandleRequest(c, FRESH, request, rb.seed, rb.coins) == (b1, Out(agree))
    requires |Wrap(FLAG_AGREE, agree, rb.id1)| <= budget
    ensures var p := ResponderOne(c, rb, budget, Ok((FLAG_REQUEST, request)), second);
      p.sent == Wrap(FLAG_AGREE, agree, rb.id1) && p.receives == 2
  {
  }

  lemma ResponderEnds(c: Suite, rb: Randomness, budget: nat, request: Bytes, b1: Hs, agree: Bytes, finish: Bytes,
                      b2: Hs)
    requires HandleRequest(c, FRESH, request, rb.seed, rb.coins) == (b1, Out(agree))
    requires |Wrap(FLAG_AGREE, agree, rb.id1)| <= budget
    requires HandleFinish(c, b1, finish) == (b2, Done)
    ensures ResponderOne(c, rb, budget, Ok((FLAG_REQUEST, request)), Ok((FLAG_FINISH, finish)))
      == PhaseOne(b2, Wrap(FLAG_AGREE, agree, rb.id1), 2, ReplyOf(DeriveSessionKey(c, b2)))
  {
  }

  function First(c: Suite, r: Randomness, budget: nat, x: Side): PhaseOne {
    InitiatorOne(c, r, budget, Nth(x.heard, 0))
  }

  function Second(c: Suite, r: Randomness, budget: nat, x: Side): PhaseOne {
    ResponderOne(c, r, budget, Nth(x.heard, 0), Nth(x.heard, 1))
  }

  /** Both drivers have made the receives of their phase 1, each on a connection
      that begins with what the other has sent in its phase 1, in order. */
  ghost predicate Connected(c: Suite, ra: Randomness, rb: Randomness, budgetA: nat, budgetB: nat, xA: Side, xB: Side) {
    var a, b := First(c, ra, budgetA, xA), Second(c, rb, budgetB, xB);
    && Listens(xA) && a.receives <= |xA.heard| && b.sent <= PacketsIn(xA.inbox)
    && Listens(xB) && b.receives <= |xB.heard| && a.sent <= PacketsIn(xB.inbox)
  }

  /** The four calls of the handshake, and the phase 1 each driver makes of them. */
  lemma PhaseOnePlays(c: Suite, ra: Randomness, rb: Randomness, budgetA: nat, budgetB: nat, xA: Side, xB: Side)
    returns (a1: Hs, a2: Hs, b1: Hs, b2: Hs, request: Bytes, agree: Bytes, finish: Bytes, key: Bytes)
    requires IdealKem(c) && IdealHashes(c) && ra.seed.Some? && rb.seed.Some? && 2 <= budgetA && 2 <= budgetB
    requires Connected(c, ra, rb, budgetA, budgetB, xA, xB) && Reserved(xA, rb.id1)
    ensures Script(c, ra, rb, a1, a2, b1, b2, request, agree, finish, key)
    ensures a2.state == Established && b2.state == Established
    ensures a2.peer == c.kemPublic(rb.seed.value) && b2.peer == c.kemPublic(ra.seed.value)
    ensures a2.keypair == ra.seed && b2.keypair == None
    ensures |request| == 1207 && |agree| == 2297 && |finish| == 1091 && |key| == 32
    ensures Exchanged(c, ra, rb, request, agree, finish) && KeyOfBoth(c, ra, rb, key)
    ensures First(c, ra, budgetA, xA)
      == PhaseOne(a2, Wrap(FLAG_REQUEST, request, ra.id1) + Wrap(FLAG_FINISH, finish, ra.id2), 1, Ok(key))
    ensures Second(c, rb, budgetB, xB) == PhaseOne(b2, Wrap(FLAG_AGREE, agree, rb.id1), 2, Ok(key))
    ensures Nth(xA.heard, 0) == Ok((FLAG_AGREE, agree))
    ensures Nth(xB.heard, 0) == Ok((FLAG_REQUEST, request)) && Nth(xB.heard, 1) == Ok((FLAG_FINISH, finish))
  {
    a1, a2, b1, b2, request, agree, finish, key := PlayScript(c, ra, rb);
    WrapSize(FLAG_REQUEST, request, ra.id1);
    WrapSize(FLAG_FINISH, finish, ra.id2);
    WrapSize(FLAG_AGREE, agree, rb.id1);
    AsksFirst(c, ra, budgetA, Nth(xA.heard, 0), a1, request);
    HeardFirst(c, ra, budgetA, rb, budgetB, xA, xB, request);
    ResponderAnswers(c, rb, budgetB, request, b1, agree, Nth(xB.heard, 1));
    HearsFirst(xA, FLAG_AGREE, agree, rb.id1);
    InitiatorEnds(c, ra, budgetA, a1, request, agree, a2, finish);
    HearsSecond(xB, FLAG_REQUEST, request, ra.id1, FLAG_FINISH, finish, ra.id2);
    ResponderEnds(c, rb, budgetB, request, b1, agree, finish, b2);
  }

  lemma HeardFirst(c: Suite, ra: Randomness, budgetA: nat, rb: Randomness, budgetB: nat, xA: Side, xB: Side,
                   request: Bytes)
    requires Connected(c, ra, rb, budgetA, budgetB, xA, xB) && |request| <= MAX_FRAGMENT
    requires Wrap(FLAG_REQUEST, request, ra.id1) <= First(c, ra, budgetA, xA).sent
    ensures Nth(xB.heard, 0) == Ok((FLAG_REQUEST, request))
  {
    HearsSomething(c, rb, budgetB, xB);
    HearsFirst(xB, FLAG_REQUEST, request, ra.id1);
  }

  lemma HearsSomething(c: Suite, r: Randomness, budget: nat, x: Side)
    ensures 1 <= Second(c, r, budget, x).receives
  {
  }

  /** Phase 1 end to end. Whatever else follows on the two directions of the
      connection, and whatever other connections do to the buffers, if each side
      finds there first what the other has sent, in order, both end established
      with each other's public key and the same 32-byte session key, derived from
      the responder's secret and then the initiator's. The agree
      takes two fragments, so its id must be the initiator's own for a while;
      the responder needs nothing of its buffer. */
  lemma PhaseOneAgreement(c: Suite, ra: Randomness, rb: Randomness, budgetA: nat, budgetB: nat, xA: Side, xB: Side)
    requires IdealKem(c) && IdealHashes(c) && ra.seed.Some? && rb.seed.Some? && 2 <= budgetA && 2 <= budgetB
    requires Connected(c, ra, rb, budgetA, budgetB, xA, xB) && Reserved(xA, rb.id1)
    ensures var a, b := First(c, ra, budgetA, xA), Second(c, rb, budgetB, xB);
      && a.hs.state == Established && b.hs.state == Established
      && a.key.Ok? && a.key == b.key && |a.key.value| == 32
      && KeyOfBoth(c, ra, rb, a.key.value)
      && a.hs.peer == c.kemPublic(rb.seed.value) && b.hs.peer == c.kemPublic(ra.seed.value)
      && |a.sent| == 2 && |b.sent| == 2
  {
    var a1, a2, b1, b2, request, agree, finish, key := PhaseOnePlays(c, ra, rb, budgetA, budgetB, xA, xB);
    WrapSize(FLAG_REQUEST, request, ra.id1);
    WrapSize(FLAG_FINISH, finish, ra.id2);
    WrapSize(FLAG_AGREE, agree, rb.id1);
  }

  /** An initiator that is alone on a buffer with at most 99 entries has the id
      of the agree to itself for as long as it needs it. */
  lemma AloneIsReserved(x: Side, flag: Byte, data: Bytes, id: U32)
    requires Listens(x) && AllOf(x.conn, x.trace) && |x.f| <= 99 && id !in x.f
    requires MAX_FRAGMENT < |data| <= 2 * MAX_FRAGMENT && Wrap(flag, data, id) <= PacketsIn(x.inbox)
    ensures Reserved(x, id)
  {
    var o, n := Sealing(flag, data, id).message, Min(2, |x.trace|);
    WrapFrames(flag, data, id);
    FirstTurnsReadFrames(x, o, id, n);
    AloneIsUndisturbed(x.conn, o, id, x.f, x.trace[..n]);
    forall k | 0 <= k < |x.trace| && |OwnPackets(x.conn, x.trace[..k])| < 2
      ensures Leaves(x.conn, id, x.f, x.trace, k)
    {
      AloneReadsAll(x.conn, x.trace[..k]);
      assert Leaves(x.conn, id, x.f, x.trace[..n], k);
      LeavesInit(x.conn, id, x.f, x.trace, n, k);
    }
  }

  lemma FirstTurnsReadFrames(x: Side, o: Outgoing, id: U32, n: nat)
    requires Listens(x) && AllOf(x.conn, x.trace) && WellCut(o) && FramesOf(o, id) <= PacketsIn(x.inbox)
    requires n <= Parts(o) && n <= |x.trace|
    ensures ReadsFrames(x.conn, o, id, x.trace[..n]) && PurgesOnlyCrowds(x.f, x.trace[..n])
  {
    var t := x.trace[..n];
    AloneReadsAll(x.conn, x.trace);
    forall k | 0 <= k < n ensures t[k].packet == FramesOf(o, id)[k] && PurgeFine(x.f, t, k) {
      assert PacketsOf(x.trace)[k] == PacketsIn(x.inbox)[k] && PurgeFine(x.f, x.trace, k) && t[..k] == x.trace[..k];
    }
  }
}
