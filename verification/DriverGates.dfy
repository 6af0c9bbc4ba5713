/** When a driver gets through, and how it ends when it does not, from the
    messages it hears and the primitives alone (cmd/pqc-chart-tool/main.go). */
module DriverGates {
  import opened Basics
  import opened Messages
  import opened Fragment
  import opened Receivers
  import opened Crypto
  import opened HashExpansion
  import opened Driver
  import opened FullDriver
  import opened HandshakeProofs
  import Handshake
  import Identity

  // ---------- The packets of one message ----------

  /** A message of up to 1400 bytes goes out in one packet, one of up to 2800 in
      two. */
  lemma WrapExactly(flag: Byte, data: Bytes, id: U32)
    ensures |data| <= 1400 ==> Wrap(flag, data, id) == [Marshal(Header(flag, 0, 1, |data|, id)) + data]
    ensures 1400 < |data| <= 2800 ==>
      Wrap(flag, data, id) == [Marshal(Header(flag, 0, 2, |data|, id)) + data[..1400],
                               Marshal(Header(flag, 1, 2, |data|, id)) + data[1400..]]
  {
    if |data| <= 1400 {
      WholePacket(flag, data, 1400, id);
    } else if |data| <= 2800 {
      TwoPackets(flag, data, id);
    }
  }

  lemma TwoPackets(flag: Byte, data: Bytes, id: U32)
    requires 1400 < |data| <= 2800
    ensures Packets(flag, data, 1400, id) == [Marshal(Header(flag, 0, 2, |data|, id)) + data[..1400],
                                              Marshal(Header(flag, 1, 2, |data|, id)) + data[1400..]]
  {
    FirstOfTwo(flag, data, id);
    SecondOfTwo(flag, data, id);
    var ps := Packets(flag, data, 1400, id);
    assert ps == [ps[0], ps[1]];
  }

  lemma FirstOfTwo(flag: Byte, data: Bytes, id: U32)
    requires 1400 < |data| <= 2800
    ensures var ps := Packets(flag, data, 1400, id);
      |ps| == 2 && ps[0] == Marshal(Header(flag, 0, 2, |data|, id)) + data[..1400]
  {
    CeilDivLeast(|data|, 1400, 1);
    CeilDivLeast(|data|, 1400, 2);
    PacketParts(flag, data, 1400, id, 0);
    assert data[0..1400] == data[..1400];
  }

  lemma SecondOfTwo(flag: Byte, data: Bytes, id: U32)
    requires 1400 < |data| <= 2800
    ensures var ps := Packets(flag, data, 1400, id);
      |ps| == 2 && ps[1] == Marshal(Header(flag, 1, 2, |data|, id)) + data[1400..]
  {
    CeilDivLeast(|data|, 1400, 1);
    CeilDivLeast(|data|, 1400, 2);
    PacketParts(flag, data, 1400, id, 1);
    assert data[1400..|data|] == data[1400..];
  }

  // ---------- Phase 1 ----------

  function RequestOf(c: Suite, seed: Handshake.Seed): Bytes {
    Encode(HandshakeRequest(c.kemPublic(seed), Ascii("ML-KEM-768_AES-GCM")))
  }

  /** The initiator derives this key: an agree arrives that decodes, its ciphertext
      decapsulates with the keypair of the request, its key can be encapsulated to,
      and request and finish get out. */
  predicate InitiatorDerives(c: Suite, rnd: Randomness, budget: nat, first: Hearing, key: Bytes) {
    && rnd.seed.Some? && first.Ok? && first.value.0 == 0x02
    && var agr := DecodeAgree(first.value.1);
    && agr.Ok?
    && var ss, e := c.decap(rnd.seed.value, agr.value.peerCiphertext), c.encap(agr.value.kemPublicKey, rnd.coins);
    && ss.Some? && e.Some?
    && |InitiatorOpening(c, rnd, e.value.0)| <= budget
    && key == c.hkdf(ss.value + e.value.1, Zeros(32), Ascii("ML-KEM-768-session-key-v1"), 32)
  }

  function InitiatorOpening(c: Suite, rnd: Randomness, ct: Bytes): seq<Bytes>
    requires rnd.seed.Some?
  {
    Wrap(0x01, RequestOf(c, rnd.seed.value), rnd.id1) + Wrap(0x03, Encode(HandshakeFinish(ct)), rnd.id2)
  }

  lemma InitiatorOneExactly(c: Suite, rnd: Randomness, budget: nat, first: Hearing, key: Bytes)
    ensures var p := InitiatorOne(c, rnd, budget, first);
      && (p.key == Ok(key) <==> InitiatorDerives(c, rnd, budget, first, key))
      && (p.key == Ok(key) ==>
            var agr := DecodeAgree(first.value.1).value;
            && p.sent == InitiatorOpening(c, rnd, c.encap(agr.kemPublicKey, rnd.coins).value.0)
            && Binding(c, p.hs) == c.kemPublic(rnd.seed.value) + agr.kemPublicKey)
  {
  }

  /** How phase 1 of the initiator ends otherwise. */
  lemma InitiatorOneFails(c: Suite, rnd: Randomness, budget: nat, first: Hearing)
    ensures var p := InitiatorOne(c, rnd, budget, first);
      && (rnd.seed == None ==> p == PhaseOne(p.hs, [], 0, Err(HandshakeFailed(Handshake.KeyGenerationFailed))))
      && (rnd.seed.Some? ==>
            var asked := Wrap(0x01, RequestOf(c, rnd.seed.value), rnd.id1);
            && (budget < |asked| ==> p == PhaseOne(p.hs, asked[..budget], 0, Err(SendingFailed)))
            && (|asked| <= budget ==>
                  && p.receives == 1 && asked <= p.sent
                  && (first.Err? ==> p.sent == asked && p.key == Err(ReceivingFailed(first.error)))
                  && (first.Ok? && first.value.0 != 0x02 ==> p.sent == asked && p.key == Err(UnexpectedMessageType))))
  {
    if rnd.seed.Some? {
      var asked := Wrap(0x01, RequestOf(c, rnd.seed.value), rnd.id1);
      assert first.Err? || first.value.0 != 0x02 ==> asked + [] == asked;
    }
  }

  /** How it ends when an agree does arrive: the error names the first thing that
      goes wrong, and the finish goes out as far as it gets. */
  lemma InitiatorRefuses(c: Suite, rnd: Randomness, budget: nat, agree: Bytes)
    requires rnd.seed.Some? && |Wrap(0x01, RequestOf(c, rnd.seed.value), rnd.id1)| <= budget
    ensures var asked := Wrap(0x01, RequestOf(c, rnd.seed.value), rnd.id1);
      var p := InitiatorOne(c, rnd, budget, Ok((0x02, agree)));
      match DecodeAgree(agree)
      case Err(e) => p.sent == asked && p.key == Err(HandshakeFailed(Handshake.BadMessage(e)))
      case Ok(agr) =>
        match c.decap(rnd.seed.value, agr.peerCiphertext)
        case None => p.sent == asked && p.key == Err(HandshakeFailed(Handshake.DecapsulationFailed))
        case Some(ss) =>
          match c.encap(agr.kemPublicKey, rnd.coins)
          case None => p.sent == asked && p.key == Err(HandshakeFailed(Handshake.EncapsulationFailed))
          case Some((ct, _)) =>
            var all := InitiatorOpening(c, rnd, ct);
            |all| <= budget || (p.sent == all[..budget] && p.key == Err(SendingFailed))
  {
    var asked := Wrap(0x01, RequestOf(c, rnd.seed.value), rnd.id1);
    assert asked + [] == asked;
    var agr := DecodeAgree(agree);
    if agr.Ok? && c.encap(agr.value.kemPublicKey, rnd.coins).Some? {
      var finish := Wrap(0x03, Encode(HandshakeFinish(c.encap(agr.value.kemPublicKey, rnd.coins).value.0)), rnd.id2);
      assert budget <= |asked + finish| ==> (asked + finish)[..budget] == asked + finish[..budget - |asked|];
    }
  }

  /** The responder derives this key: a request arrives that decodes and whose key
      can be encapsulated to, the agree gets out, and a finish arrives whose
      ciphertext decapsulates with the keypair of the agree. */
  predicate ResponderDerives(c: Suite, rnd: Randomness, budget: nat, first: Hearing, second: Hearing, key: Bytes) {
    && rnd.seed.Some? && first.Ok? && first.value.0 == 0x01
    && var req := DecodeRequest(first.value.1);
    && req.Ok?
    && var e := c.encap(req.value.kemPublicKey, rnd.coins);
    && e.Some? && |AgreePackets(c, rnd, e.value.0)| <= budget
    && second.Ok? && second.value.0 == 0x03
    && var fin := DecodeFinish(second.value.1);
    && fin.Ok?
    && var ss := c.decap(rnd.seed.value, fin.value.ciphertext);
    && ss.Some?
    && key == c.hkdf(e.value.1 + ss.value, Zeros(32), Ascii("ML-KEM-768-session-key-v1"), 32)
  }

  function AgreePackets(c: Suite, rnd: Randomness, ct: Bytes): seq<Bytes>
    requires rnd.seed.Some?
  {
    var agree := HandshakeAgree(c.kemPublic(rnd.seed.value), ct, Ascii("ML-KEM-768_AES-GCM"));
    Wrap(0x02, Encode(agree), rnd.id1)
  }

  lemma ResponderOneExactly(c: Suite, rnd: Randomness, budget: nat, first: Hearing, second: Hearing, key: Bytes)
    ensures var p := ResponderOne(c, rnd, budget, first, second);
      && (p.key == Ok(key) <==> ResponderDerives(c, rnd, budget, first, second, key))
      && (p.key == Ok(key) ==>
            var req := DecodeRequest(first.value.1).value;
            && p.sent == AgreePackets(c, rnd, c.encap(req.kemPublicKey, rnd.coins).value.0)
            && Binding(c, p.hs) == req.kemPublicKey)
  {
  }

  /** How phase 1 of the responder ends when a receive fails or brings another
      message: nothing is sent before the request, only the agree before the
      finish. */
  lemma ResponderOneFails(c: Suite, rnd: Randomness, budget: nat, first: Hearing, second: Hearing)
    ensures var p := ResponderOne(c, rnd, budget, first, second);
      && (first.Err? ==> p.sent == [] && p.receives == 1 && p.key == Err(ReceivingFailed(first.error)))
      && (first.Ok? && first.value.0 != 0x01 ==>
            p.sent == [] && p.receives == 1 && p.key == Err(UnexpectedMessageType))
      && (p.receives == 2 && second.Err? ==> p.key == Err(ReceivingFailed(second.error)))
      && (p.receives == 2 && second.Ok? && second.value.0 != 0x03 ==> p.key == Err(UnexpectedMessageType))
      && (p.receives == 2 <==>
            && first.Ok? && first.value.0 == 0x01
            && var req := DecodeRequest(first.value.1);
            && req.Ok? && rnd.seed.Some? && c.encap(req.value.kemPublicKey, rnd.coins).Some?
            && |AgreePackets(c, rnd, c.encap(req.value.kemPublicKey, rnd.coins).value.0)| <= budget)
  {
  }

  /** How it ends when a request does arrive that cannot be answered, or whose
      answer does not get out. */
  lemma ResponderRefuses(c: Suite, rnd: Randomness, budget: nat, request: Bytes, second: Hearing)
    ensures var p := ResponderOne(c, rnd, budget, Ok((0x01, request)), second);
      match DecodeRequest(request)
      case Err(e) => p.sent == [] && p.key == Err(HandshakeFailed(Handshake.BadMessage(e)))
      case Ok(req) =>
        var e := c.encap(req.kemPublicKey, rnd.coins);
        if rnd.seed == None then p.sent == [] && p.key == Err(HandshakeFailed(Handshake.KeyGenerationFailed))
        else if e == None then p.sent == [] && p.key == Err(HandshakeFailed(Handshake.EncapsulationFailed))
        else
          var ps := AgreePackets(c, rnd, e.value.0);
          |ps| <= budget || (p.sent == ps[..budget] && p.key == Err(SendingFailed))
  {
  }

  /** And when, after the agree, a finish arrives that it refuses. */
  lemma ResponderRefusesFinish(c: Suite, rnd: Randomness, budget: nat, first: Hearing, finish: Bytes)
    ensures var p := ResponderOne(c, rnd, budget, first, Ok((0x03, finish)));
      p.receives == 2 ==>
        match DecodeFinish(finish)
        case Err(e) => p.key == Err(HandshakeFailed(Handshake.BadMessage(e)))
        case Ok(fin) => c.decap(rnd.seed.value, fin.ciphertext).Some?
                        || p.key == Err(HandshakeFailed(Handshake.DecapsulationFailed))
  {
  }

  // ---------- Phase 2 ----------

  /** How a leg ends that fails to receive what is due: nothing is sent. */
  predicate EndsOn(l: Leg, heard: Hearing, flag: Byte) {
    && (heard.Err? ==> l.sent == [] && l.receives == 1 && l.result == Err(ReceivingFailed(heard.error)))
    && (heard.Ok? && heard.value.0 != flag ==>
          l.sent == [] && l.receives == 1 && l.result == Err(UnexpectedMessageType))
  }

  /** Each leg that receives: another message than the one due ends it, and so do
      a message that does not open, a wrong hash, an invalid signature and a send
      that fails, each with its own error. */
  lemma LegsFail(c: Suite, e: Identity.Exchange, binding: Bytes, text: Bytes, nonce: Identity.Nonce, id: U32,
                 budget: nat, heard: Hearing)
    requires IsHash(c.sha256)
    ensures EndsOn(Answering(c, e, binding, nonce, id, budget, heard), heard, 0x11)
    ensures EndsOn(Challenging(c, e, text, nonce, id, budget, heard), heard, 0x10)
    ensures EndsOn(Checking(c, e, text, binding, heard), heard, 0x12)
    ensures heard.Ok? ==>
      var opens := Identity.AesGcmDecrypt(c, e.sessionKey, heard.value.1);
      && (heard.value.0 == 0x11 && opens.Err? ==>
            Answering(c, e, binding, nonce, id, budget, heard).result == Err(IdentityFailed(opens.error)))
      && (heard.value.0 == 0x10 && opens.Err? ==>
            Challenging(c, e, text, nonce, id, budget, heard).result == Err(IdentityFailed(opens.error)))
      && (heard.value.0 == 0x10 && opens.Ok? && c.sha256(opens.value) != e.peerIDHash ==>
            Challenging(c, e, text, nonce, id, budget, heard).result == Err(IdentityFailed(Identity.PeerHashMismatch)))
      && (heard.value.0 == 0x12 && opens.Err? ==>
            Checking(c, e, text, binding, heard).result == Err(IdentityFailed(opens.error)))
  {
  }

  /** What is answered to a signature that opens: sizes are refused in the source's
      order, before the signature is looked at; a peer that has shown no key fails
      on the key's size. */
  lemma CheckingFails(c: Suite, e: Identity.Exchange, sealed: Bytes, binding: Bytes, data: Bytes, sig: Bytes)
    requires Identity.AesGcmDecrypt(c, e.sessionKey, data) == Ok(sig)
    ensures var pub := if e.peerKey.Some? then e.peerKey.value else [];
      var result := Checking(c, e, sealed, binding, Ok((0x12, data))).result;
      && (result == Err(IdentityFailed(Identity.InvalidPublicKeySize)) <==> |pub| < 32)
      && (result == Err(IdentityFailed(Identity.InvalidSignatureSize)) <==> 32 <= |pub| && |sig| < 64)
      && (result == Err(IdentityFailed(Identity.Ed25519Panic)) <==> 32 < |pub| && 64 <= |sig|)
      && (result == Err(VerificationFailed) <==>
            |pub| == 32 && 64 <= |sig| && (64 < |sig| || !c.verify(pub, sealed + binding + e.sessionKey, sig)))
  {
  }

  /** A challenge that opens is refused exactly if the private key has not its size. */
  lemma AnsweringFails(c: Suite, e: Identity.Exchange, binding: Bytes, nonce: Identity.Nonce, id: U32, budget: nat,
                       data: Bytes)
    requires Identity.AesGcmDecrypt(c, e.sessionKey, data).Ok?
    ensures var result := Answering(c, e, binding, nonce, id, budget, Ok((0x11, data))).result;
      && (result == Err(IdentityFailed(Identity.InvalidPrivateKeySize)) <==> |e.privateKey| < 64)
      && (result == Err(IdentityFailed(Identity.Ed25519Panic)) <==> 64 < |e.privateKey|)
  {
  }

  lemma LegsRunOut(c: Suite, e: Identity.Exchange, binding: Bytes, text: Bytes, nonce: Identity.Nonce, id: U32,
                   budget: nat, heard: Hearing)
    requires IsHash(c.sha256)
    ensures Answerable(c, e.sessionKey, e.privateKey, heard) ==>
      var ps, l := AnswerPackets(c, e.sessionKey, e.privateKey, heard, binding, nonce, id),
                   Answering(c, e, binding, nonce, id, budget, heard);
      budget < |ps| ==> l.sent == ps[..budget] && l.result == Err(SendingFailed)
    ensures |e.sessionKey| == 32 ==> Showing(c, e, nonce, 0) == Leg(e, [], 0, Err(SendingFailed))
    ensures heard.Ok? && heard.value.0 == 0x10 ==>
      var pub := Identity.AesGcmDecrypt(c, e.sessionKey, heard.value.1);
      pub.Ok? && c.sha256(pub.value) == e.peerIDHash ==>
        var ps, l := Wrap(0x11, nonce + c.seal(e.sessionKey, nonce, text), id),
                     Challenging(c, e, text, nonce, id, budget, heard);
        budget < |ps| ==> l.sent == ps[..budget] && l.result == Err(SendingFailed)
  {
  }

  // ---------- The whole drivers ----------

  function SealedWith(c: Suite, key: Bytes, nonce: Identity.Nonce, text: Bytes): Bytes {
    nonce + c.seal(key, nonce, text)
  }

  /** What the initiator sends in phase 2: its public key without a fragment
      header, the signature over what the challenge opens to, its own challenge. */
  function InitiatorProofs(c: Suite, who: Party, rnd: Randomness, key: Bytes, binding: Bytes, text: Bytes): seq<Bytes> {
    [Encode(IdentityMsg(SealedWith(c, key, rnd.nonce1, who.publicKey)))]
    + (Wrap(0x12, SealedWith(c, key, rnd.nonce2, c.sign(who.privateKey, text + binding + key)), rnd.id3)
       + Wrap(0x11, SealedWith(c, key, rnd.nonce3, rnd.challenge), rnd.id4))
  }

  function ResponderProofs(c: Suite, who: Party, rnd: Randomness, key: Bytes, binding: Bytes, text: Bytes): seq<Bytes> {
    Wrap(0x11, SealedWith(c, key, rnd.nonce1, rnd.challenge), rnd.id2)
    + ([Encode(IdentityMsg(SealedWith(c, key, rnd.nonce2, who.publicKey)))]
       + Wrap(0x12, SealedWith(c, key, rnd.nonce3, c.sign(who.privateKey, text + binding + key)), rnd.id3))
  }

  /** A challenge that the private key can answer, and what it opens to. */
  predicate Asks(c: Suite, key: Bytes, priv: Bytes, heard: Hearing, text: Bytes) {
    && heard.Ok? && heard.value.0 == 0x11 && |priv| == 64
    && Identity.AesGcmDecrypt(c, key, heard.value.1) == Ok(text)
  }

  function Opened(c: Suite, key: Bytes, heard: Hearing): Bytes {
    if heard.Err? then []
    else match Identity.AesGcmDecrypt(c, key, heard.value.1) case Ok(text) => text case Err(_) => []
  }

  /** Phase 2 of the initiator succeeds exactly on a challenge it can answer and the
      target's identity and signature, if its three messages get out. */
  predicate InitiatorProves(c: Suite, who: Party, rnd: Randomness, key: Bytes, binding: Bytes, budget: int,
                            heard: seq<Hearing>)
    requires IsHash(c.sha256)
  {
    var text := Opened(c, key, Nth(heard, 1));
    && Asks(c, key, who.privateKey, Nth(heard, 1), text)
    && PeerProved(c, key, who.target, Nth(heard, 2), Nth(heard, 3), SealedWith(c, key, rnd.nonce3, rnd.challenge),
                  binding)
    && |InitiatorProofs(c, who, rnd, key, binding, text)| <= budget
  }

  predicate ResponderProves(c: Suite, who: Party, rnd: Randomness, key: Bytes, binding: Bytes, budget: int,
                            heard: seq<Hearing>)
    requires IsHash(c.sha256)
  {
    var text := Opened(c, key, Nth(heard, 4));
    && PeerProved(c, key, who.target, Nth(heard, 2), Nth(heard, 3), SealedWith(c, key, rnd.nonce1, rnd.challenge),
                  binding)
    && Asks(c, key, who.privateKey, Nth(heard, 4), text)
    && |ResponderProofs(c, who, rnd, key, binding, text)| <= budget
  }

  lemma InitiatorProvesIs(c: Suite, who: Party, rnd: Randomness, key: Bytes, binding: Bytes, left: nat,
                          heard: seq<Hearing>)
    requires IsHash(c.sha256)
    ensures var st := Setting(Begin(key, who), binding, left);
      && (InitiatorReady(c, rnd, st, heard) <==> InitiatorProves(c, who, rnd, key, binding, left, heard))
      && (InitiatorReady(c, rnd, st, heard) ==>
            InitiatorPackets(c, st.e, binding, rnd, Nth(heard, 1))
            == InitiatorProofs(c, who, rnd, key, binding, Opened(c, key, Nth(heard, 1))))
  {
  }

  lemma ResponderProvesIs(c: Suite, who: Party, rnd: Randomness, key: Bytes, binding: Bytes, left: nat,
                          heard: seq<Hearing>)
    requires IsHash(c.sha256)
    ensures var st := Setting(Begin(key, who), binding, left);
      && (ResponderReady(c, rnd, st, heard) <==> ResponderProves(c, who, rnd, key, binding, left, heard))
      && (ResponderReady(c, rnd, st, heard) ==>
            ResponderPackets(c, st.e, binding, rnd, Nth(heard, 4))
            == ResponderProofs(c, who, rnd, key, binding, Opened(c, key, Nth(heard, 4))))
  {
  }

  /** What the initiator has sent and learnt by the end of phase 1. */
  predicate InitiatorOpened(c: Suite, rnd: Randomness, budget: nat, first: Hearing, key: Bytes, opening: seq<Bytes>,
                            binding: Bytes) {
    && InitiatorDerives(c, rnd, budget, first, key)
    && var agr := DecodeAgree(first.value.1).value;
    && opening == InitiatorOpening(c, rnd, c.encap(agr.kemPublicKey, rnd.coins).value.0)
    && binding == c.kemPublic(rnd.seed.value) + agr.kemPublicKey
  }

  predicate ResponderOpened(c: Suite, rnd: Randomness, budget: nat, first: Hearing, second: Hearing, key: Bytes,
                            opening: seq<Bytes>, binding: Bytes) {
    && ResponderDerives(c, rnd, budget, first, second, key)
    && var req := DecodeRequest(first.value.1).value;
    && opening == AgreePackets(c, rnd, c.encap(req.kemPublicKey, rnd.coins).value.0)
    && binding == req.kemPublicKey
  }

  /** The initiator's phase 2 before a challenge has come. */
  lemma AnswerThenVerifyStops(c: Suite, e: Identity.Exchange, binding: Bytes, rnd: Randomness, budget: nat,
                              heard: seq<Hearing>)
    requires IsHash(c.sha256)
    ensures var l := AnswerThenVerify(c, e, binding, rnd, budget, Nth(heard, 1), Nth(heard, 2), Nth(heard, 3));
      && (Nth(heard, 1).Err? ==> l == Leg(e, [], 1, Err(ReceivingFailed(Nth(heard, 1).error))))
      && (Nth(heard, 1).Ok? && Nth(heard, 1).value.0 != 0x11 ==> l == Leg(e, [], 1, Err(UnexpectedMessageType)))
  {
  }

  lemma InitiatorRestStops(c: Suite, rnd: Randomness, st: Setting, heard: seq<Hearing>)
    requires IsHash(c.sha256) && |st.e.sessionKey| == 32
    ensures var l := InitiatorRest(c, rnd, st, heard);
      var shown := Encode(IdentityMsg(SealedWith(c, st.e.sessionKey, rnd.nonce1, st.e.publicKey)));
      && (st.left == 0 ==> l == Leg(st.e, [], 0, Err(SendingFailed)))
      && (st.left > 0 && Nth(heard, 1).Err? ==>
            l == Leg(st.e, [shown], 1, Err(ReceivingFailed(Nth(heard, 1).error))))
      && (st.left > 0 && Nth(heard, 1).Ok? && Nth(heard, 1).value.0 != 0x11 ==>
            l == Leg(st.e, [shown], 1, Err(UnexpectedMessageType)))
  {
    if st.left > 0 {
      AnswerThenVerifyStops(c, st.e, st.binding, rnd, st.left - 1, heard);
    }
  }

  /** The initiator stops at the first thing that fails: with phase 1; before its
      identity if no send is left; after it if no challenge comes. */
  lemma InitiatorStops(c: Suite, who: Party, rnd: Randomness, budget: nat, heard: seq<Hearing>)
    requires IsHash(c.sha256)
    ensures var run, p := InitiatorRun(c, who, rnd, budget, heard), InitiatorOne(c, rnd, budget, Nth(heard, 0));
      match p.key
      case Err(error) => run == Run(p.sent, p.receives, Err(error))
      case Ok(key) =>
        var shown := Encode(IdentityMsg(SealedWith(c, key, rnd.nonce1, who.publicKey)));
        |key| == 32 ==>
          && (budget == |p.sent| ==> run == Run(p.sent, 1, Err(SendingFailed)))
          && (budget > |p.sent| && Nth(heard, 1).Err? ==>
                run == Run(p.sent + [shown], 2, Err(ReceivingFailed(Nth(heard, 1).error))))
          && (budget > |p.sent| && Nth(heard, 1).Ok? && Nth(heard, 1).value.0 != 0x11 ==>
                run == Run(p.sent + [shown], 2, Err(UnexpectedMessageType)))
  {
    var p := InitiatorOne(c, rnd, budget, Nth(heard, 0));
    if p.key.Ok? && |p.key.value| == 32 {
      assert p.sent + [] == p.sent;
      OneReceive(c, rnd, budget, Nth(heard, 0));
      InitiatorRestStops(c, rnd, SettingOf(c, who, budget, p), heard);
    }
  }

  /** A peer that does not prove its key has been sent no more than the challenge. */
  lemma UnprovedPeer(c: Suite, e: Identity.Exchange, binding: Bytes, text: Bytes, nonce: Identity.Nonce, id: U32,
                     budget: nat, first: Hearing, second: Hearing)
    requires IsHash(c.sha256)
    ensures var sealed := SealedWith(c, e.sessionKey, nonce, text);
      var l := Verifying(c, e, binding, text, nonce, id, budget, first, second);
      && l.sent <= Wrap(0x11, sealed, id)
      && (!PeerProved(c, e.sessionKey, e.peerIDHash, first, second, sealed, binding) ==> l.result.Err?)
  {
    VerifyingExactly(c, e, binding, text, nonce, id, budget, first, second);
  }

  lemma FirstFailureEnds(c: Suite, rnd: Randomness, st: Setting, heard: seq<Hearing>)
    requires IsHash(c.sha256)
    ensures var first := Verifying(c, st.e, st.binding, rnd.challenge, rnd.nonce1, rnd.id2, st.left, Nth(heard, 2),
                                   Nth(heard, 3));
      first.result.Err? ==> ResponderRest(c, rnd, st, heard) == first
  {
  }

  /** The responder likewise: it shows nothing of its own before the peer's
      signature has been accepted. */
  lemma ResponderStops(c: Suite, who: Party, rnd: Randomness, budget: nat, heard: seq<Hearing>)
    requires IsHash(c.sha256)
    ensures var run := ResponderRun(c, who, rnd, budget, heard);
      var p := ResponderOne(c, rnd, budget, Nth(heard, 0), Nth(heard, 1));
      match p.key
      case Err(error) => run == Run(p.sent, p.receives, Err(error))
      case Ok(key) =>
        var asked := Wrap(0x11, SealedWith(c, key, rnd.nonce1, rnd.challenge), rnd.id2);
        && (Nth(heard, 2).Err? ==> run == Run(p.sent, 3, Err(ReceivingFailed(Nth(heard, 2).error))))
        && (Nth(heard, 2).Ok? && Nth(heard, 2).value.0 != 0x10 ==> run == Run(p.sent, 3, Err(UnexpectedMessageType)))
        && (!PeerProved(c, key, who.target, Nth(heard, 2), Nth(heard, 3), SealedWith(c, key, rnd.nonce1, rnd.challenge),
                        FullDriver.Binding(c, p.hs)) ==>
              run.result.Err? && p.sent <= run.sent <= p.sent + asked)
  {
    var p := ResponderOne(c, rnd, budget, Nth(heard, 0), Nth(heard, 1));
    if p.key.Ok? {
      var st := SettingOf(c, who, budget, p);
      assert p.sent + [] == p.sent;
      UnprovedPeer(c, st.e, st.binding, rnd.challenge, rnd.nonce1, rnd.id2, st.left, Nth(heard, 2), Nth(heard, 3));
      FirstFailureEnds(c, rnd, st, heard);
    }
  }

  /** The initiator ends with a channel under this key exactly when phase 1 derives
      it and then, under it, a challenge opens, the target's identity arrives, and
      a signature of that identity over the challenge as sent, both public keys in
      order and the key; and everything gets out, which is then exactly this. */
  lemma InitiatorChannel(c: Suite, who: Party, rnd: Randomness, budget: nat, heard: seq<Hearing>, key: Bytes,
                         opening: seq<Bytes>, binding: Bytes)
    requires IsHash(c.sha256)
    requires InitiatorDerives(c, rnd, budget, Nth(heard, 0), key) ==>
      InitiatorOpened(c, rnd, budget, Nth(heard, 0), key, opening, binding)
    ensures var run := InitiatorRun(c, who, rnd, budget, heard);
      && (run.result == Ok(SecureChannel(key)) <==>
            && InitiatorDerives(c, rnd, budget, Nth(heard, 0), key)
            && InitiatorProves(c, who, rnd, key, binding, budget - |opening|, heard))
      && (run.result == Ok(SecureChannel(key)) ==>
            run.sent == opening + InitiatorProofs(c, who, rnd, key, binding, Opened(c, key, Nth(heard, 1))))
  {
    InitiatorGate(c, who, rnd, budget, heard);
    InitiatorOneExactly(c, rnd, budget, Nth(heard, 0), key);
    if InitiatorDerives(c, rnd, budget, Nth(heard, 0), key) {
      InitiatorProvesIs(c, who, rnd, key, binding, budget - |opening|, heard);
    }
  }

  /** The responder likewise, with the initiator's public key alone as binding. */
  lemma ResponderChannel(c: Suite, who: Party, rnd: Randomness, budget: nat, heard: seq<Hearing>, key: Bytes,
                         opening: seq<Bytes>, binding: Bytes)
    requires IsHash(c.sha256)
    requires ResponderDerives(c, rnd, budget, Nth(heard, 0), Nth(heard, 1), key) ==>
      ResponderOpened(c, rnd, budget, Nth(heard, 0), Nth(heard, 1), key, opening, binding)
    ensures var run := ResponderRun(c, who, rnd, budget, heard);
      && (run.result == Ok(SecureChannel(key)) <==>
            && ResponderDerives(c, rnd, budget, Nth(heard, 0), Nth(heard, 1), key)
            && ResponderProves(c, who, rnd, key, binding, budget - |opening|, heard))
      && (run.result == Ok(SecureChannel(key)) ==>
            run.sent == opening + ResponderProofs(c, who, rnd, key, binding, Opened(c, key, Nth(heard, 4))))
  {
    ResponderGate(c, who, rnd, budget, heard);
    ResponderOneExactly(c, rnd, budget, Nth(heard, 0), Nth(heard, 1), key);
    if ResponderDerives(c, rnd, budget, Nth(heard, 0), Nth(heard, 1), key) {
      ResponderProvesIs(c, who, rnd, key, binding, budget - |opening|, heard);
    }
  }
}
