/** Phase 2, the proof of identities, and the two whole drivers
    (cmd/pqc-chart-tool/main.go). Every method is tied, on all its paths, to a
    step sequence over what it hears; when such a sequence ends in a channel is
    then an equivalence. */
module FullDriver {
  import opened Basics
  import opened Messages
  import opened MessageWriter
  import opened Receivers
  import opened Crypto
  import opened HashExpansion
  import opened Driver
  import Handshake
  import Identity

  // ---------- Step sequences ----------

  /** A stretch of phase 2: the exchange after it, the packets it sent, the number
      of receives it attempted, and how it ended. */
  datatype Leg = Leg(e: Identity.Exchange, sent: seq<Bytes>, receives: nat, result: Result<Bytes, DriverError>)

  function Both(a: Leg, b: Leg): Leg {
    Leg(b.e, a.sent + b.sent, a.receives + b.receives, b.result)
  }

  /** The second only if the first succeeds. */
  function Then(a: Leg, b: Leg): Leg {
    if a.result.Err? then a else Both(a, b)
  }

  /** A wrapped message on its way out; if it gets out, the result is `done`. */
  function Saying(e: Identity.Exchange, receives: nat, flag: Byte, data: Bytes, id: U32, budget: nat,
                  done: Bytes): (l: Leg)
    ensures |l.sent| <= budget
  {
    var ps := Wrap(flag, data, id);
    Leg(e, Through(ps, budget), receives, if |ps| <= budget then Ok(done) else Err(SendingFailed))
  }

  /** The encrypted public key goes out as a bare message, without a fragment header. */
  function Showing(c: Suite, e: Identity.Exchange, nonce: Identity.Nonce, budget: nat): (l: Leg)
    ensures |l.sent| <= budget
    ensures l.receives == 0
    ensures l.e == e
  {
    match Identity.AesGcmEncrypt(c, e.sessionKey, e.publicKey, nonce)
    case Err(error) => Leg(e, [], 0, Err(IdentityFailed(error)))
    case Ok(sealed) =>
      if budget == 0 then Leg(e, [], 0, Err(SendingFailed)) else Leg(e, [Encode(IdentityMsg(sealed))], 0, Ok([]))
  }

  /** Waits for a challenge and sends the signature that answers it. */
  function Answering(c: Suite, e: Identity.Exchange, binding: Bytes, nonce: Identity.Nonce, id: U32, budget: nat,
                     heard: Hearing): (l: Leg)
    ensures |l.sent| <= budget
    ensures l.receives == 1
    ensures l.e == e
  {
    match Expect(FLAG_CHALLENGE, heard)
    case Err(error) => Leg(e, [], 1, Err(error))
    case Ok(challenge) =>
      match Identity.HandleChallenge(c, e, challenge, binding, e.sessionKey, nonce)
      case Sealed(bytes) => Saying(e, 1, FLAG_SIGNATURE, bytes, id, budget, [])
      case Rejected(error) => Leg(e, [], 1, Err(IdentityFailed(error)))
      case Verdict(_) => Leg(e, [], 1, Err(VerificationFailed))
  }

  /** Waits for the peer's identity and, if its hash is right, sends a challenge. */
  function Challenging(c: Suite, e: Identity.Exchange, challenge: Bytes, nonce: Identity.Nonce, id: U32, budget: nat,
                       heard: Hearing): (l: Leg)
    requires IsHash(c.sha256)
    ensures |l.sent| <= budget
    ensures l.receives == 1
  {
    match Expect(FLAG_IDENTITY, heard)
    case Err(error) => Leg(e, [], 1, Err(error))
    case Ok(identity) =>
      var (e', asked) := Identity.HandlePeerIdentity(c, e, identity, challenge, nonce);
      match asked
      case Sealed(bytes) => Saying(e', 1, FLAG_CHALLENGE, bytes, id, budget, bytes)
      case Rejected(error) => Leg(e', [], 1, Err(IdentityFailed(error)))
      case Verdict(_) => Leg(e', [], 1, Err(VerificationFailed))
  }

  /** Waits for the peer's signature and checks it against the key it has shown. */
  function Checking(c: Suite, e: Identity.Exchange, sealed: Bytes, binding: Bytes, heard: Hearing): (l: Leg)
    ensures l.sent == []
    ensures l.receives == 1
  {
    match Expect(FLAG_SIGNATURE, heard)
    case Err(error) => Leg(e, [], 1, Err(error))
    case Ok(response) =>
      var (e', verdict) := Identity.VerifyResponse(c, e, response, sealed, binding, e.sessionKey);
      match verdict
      case Verdict(valid) => Leg(e', [], 1, if valid then Ok([]) else Err(VerificationFailed))
      case Rejected(error) => Leg(e', [], 1, Err(IdentityFailed(error)))
      case Sealed(_) => Leg(e', [], 1, Err(VerificationFailed))
  }

  function Verifying(c: Suite, e: Identity.Exchange, binding: Bytes, challenge: Bytes, nonce: Identity.Nonce, id: U32,
                     budget: nat, first: Hearing, second: Hearing): (l: Leg)
    requires IsHash(c.sha256)
    ensures |l.sent| <= budget
    ensures l.receives <= 2 && (l.result.Ok? ==> l.receives == 2)
  {
    var a := Challenging(c, e, challenge, nonce, id, budget, first);
    if a.result.Err? then a else Both(a, Checking(c, a.e, a.result.value, binding, second))
  }

  /** The initiator answers first, then challenges. */
  function InitiatorTwo(c: Suite, e: Identity.Exchange, binding: Bytes, rnd: Randomness, budget: nat,
                        first: Hearing, second: Hearing, third: Hearing): (l: Leg)
    requires IsHash(c.sha256)
    ensures |l.sent| <= budget
  {
    var a := Showing(c, e, rnd.nonce1, budget);
    Then(a, AnswerThenVerify(c, e, binding, rnd, budget - |a.sent|, first, second, third))
  }

  function AnswerThenVerify(c: Suite, e: Identity.Exchange, binding: Bytes, rnd: Randomness, budget: nat,
                            first: Hearing, second: Hearing, third: Hearing): (l: Leg)
    requires IsHash(c.sha256)
    ensures |l.sent| <= budget
  {
    var a := Answering(c, e, binding, rnd.nonce2, rnd.id3, budget, first);
    Then(a, Verifying(c, e, binding, rnd.challenge, rnd.nonce3, rnd.id4, budget - |a.sent|, second, third))
  }

  /** The responder challenges first, then answers. */
  function ResponderTwo(c: Suite, e: Identity.Exchange, binding: Bytes, rnd: Randomness, budget: nat,
                        first: Hearing, second: Hearing, third: Hearing): (l: Leg)
    requires IsHash(c.sha256)
    ensures |l.sent| <= budget
  {
    var a := Verifying(c, e, binding, rnd.challenge, rnd.nonce1, rnd.id2, budget, first, second);
    Then(a, ShowThenAnswer(c, a.e, binding, rnd, budget - |a.sent|, third))
  }

  function ShowThenAnswer(c: Suite, e: Identity.Exchange, binding: Bytes, rnd: Randomness, budget: nat,
                          heard: Hearing): (l: Leg)
    ensures |l.sent| <= budget
  {
    var a := Showing(c, e, rnd.nonce2, budget);
    Then(a, Answering(c, e, binding, rnd.nonce3, rnd.id3, budget - |a.sent|, heard))
  }

  function Binding(c: Suite, h: Handshake.Hs): Bytes {
    Handshake.MyKEMPublicKey(c, h) + h.peer
  }

  /** How a driver ends: the packets sent, the number of receives attempted, and
      the channel. */
  datatype Run = Run(sent: seq<Bytes>, receives: nat, result: Result<SecureChannel, DriverError>)

  /** Who the driver is and whom it wants to meet. */
  datatype Party = Party(publicKey: Bytes, privateKey: Bytes, target: Bytes)

  function Begin(key: Bytes, who: Party): Identity.Exchange {
    Identity.Begin(key, who.publicKey, who.privateKey, who.target)
  }

  function Channel(key: Bytes, verified: Result<Bytes, DriverError>): Result<SecureChannel, DriverError> {
    match verified case Ok(_) => Ok(SecureChannel(key)) case Err(error) => Err(error)
  }

  function KeyOf(p: PhaseOne): Bytes {
    match p.key case Ok(key) => key case Err(_) => []
  }

  /** Phase 2 on top of a phase 1. */
  function Conclude(p: PhaseOne, l: Leg): Run {
    match p.key
    case Err(error) => Run(p.sent, p.receives, Err(error))
    case Ok(key) => Run(p.sent + l.sent, p.receives + l.receives, Channel(key, l.result))
  }

  /** What phase 2 starts from: a new exchange under the session key, the channel
      binding, and how many more sends will succeed. */
  datatype Setting = Setting(e: Identity.Exchange, binding: Bytes, left: nat)

  function SettingOf(c: Suite, who: Party, budget: nat, p: PhaseOne): Setting
    requires |p.sent| <= budget
  {
    Setting(Begin(KeyOf(p), who), Binding(c, p.hs), budget - |p.sent|)
  }

  function InitiatorRest(c: Suite, rnd: Randomness, st: Setting, heard: seq<Hearing>): Leg
    requires IsHash(c.sha256)
  {
    InitiatorTwo(c, st.e, st.binding, rnd, st.left, Nth(heard, 1), Nth(heard, 2), Nth(heard, 3))
  }

  function ResponderRest(c: Suite, rnd: Randomness, st: Setting, heard: seq<Hearing>): Leg
    requires IsHash(c.sha256)
  {
    ResponderTwo(c, st.e, st.binding, rnd, st.left, Nth(heard, 2), Nth(heard, 3), Nth(heard, 4))
  }

  function InitiatorRun(c: Suite, who: Party, rnd: Randomness, budget: nat, heard: seq<Hearing>): Run
    requires IsHash(c.sha256)
  {
    var p := InitiatorOne(c, rnd, budget, Nth(heard, 0));
    Conclude(p, InitiatorRest(c, rnd, SettingOf(c, who, budget, p), heard))
  }

  function ResponderRun(c: Suite, who: Party, rnd: Randomness, budget: nat, heard: seq<Hearing>): Run
    requires IsHash(c.sha256)
  {
    var p := ResponderOne(c, rnd, budget, Nth(heard, 0), Nth(heard, 1));
    Conclude(p, ResponderRest(c, rnd, SettingOf(c, who, budget, p), heard))
  }

  lemma AnswerThenVerifyIs(c: Suite, e: Identity.Exchange, binding: Bytes, rnd: Randomness, budget: nat,
                           first: Hearing, second: Hearing, third: Hearing, a: Leg, left: nat,
                           b: Leg)
    requires IsHash(c.sha256)
    requires a == Answering(c, e, binding, rnd.nonce2, rnd.id3, budget, first) && a.result.Ok?
    requires left == budget - |a.sent|
    requires b == Verifying(c, e, binding, rnd.challenge, rnd.nonce3, rnd.id4, left, second, third)
    ensures AnswerThenVerify(c, e, binding, rnd, budget, first, second, third) == Both(a, b)
  {
  }

  lemma InitiatorTwoIs(c: Suite, e: Identity.Exchange, binding: Bytes, rnd: Randomness, budget: nat,
                       first: Hearing, second: Hearing, third: Hearing, a: Leg, left: nat, b: Leg)
    requires IsHash(c.sha256)
    requires a == Showing(c, e, rnd.nonce1, budget) && a.result.Ok?
    requires left == budget - |a.sent|
    requires b == AnswerThenVerify(c, e, binding, rnd, left, first, second, third)
    ensures InitiatorTwo(c, e, binding, rnd, budget, first, second, third) == Both(a, b)
  {
  }

  lemma ShowThenAnswerIs(c: Suite, e: Identity.Exchange, binding: Bytes, rnd: Randomness, budget: nat,
                         heard: Hearing, a: Leg, left: nat, b: Leg)
    requires a == Showing(c, e, rnd.nonce2, budget) && a.result.Ok?
    requires left == budget - |a.sent|
    requires b == Answering(c, e, binding, rnd.nonce3, rnd.id3, left, heard)
    ensures ShowThenAnswer(c, e, binding, rnd, budget, heard) == Both(a, b)
  {
  }

  lemma ResponderTwoIs(c: Suite, e: Identity.Exchange, binding: Bytes, rnd: Randomness, budget: nat,
                       first: Hearing, second: Hearing, third: Hearing, a: Leg, left: nat, b: Leg)
    requires IsHash(c.sha256)
    requires a == Verifying(c, e, binding, rnd.challenge, rnd.nonce1, rnd.id2, budget, first, second) && a.result.Ok?
    requires left == budget - |a.sent|
    requires b == ShowThenAnswer(c, a.e, binding, rnd, left, third)
    ensures ResponderTwo(c, e, binding, rnd, budget, first, second, third) == Both(a, b)
  {
  }

  lemma InitiatorRestIs(c: Suite, rnd: Randomness, st: Setting, heard: seq<Hearing>, e: Identity.Exchange)
    requires IsHash(c.sha256) && e == st.e
    ensures InitiatorRest(c, rnd, st, heard)
      == InitiatorTwo(c, e, st.binding, rnd, st.left, Nth(heard, 1), Nth(heard, 2), Nth(heard, 3))
  {
  }

  lemma ResponderRestIs(c: Suite, rnd: Randomness, st: Setting, heard: seq<Hearing>, e: Identity.Exchange)
    requires IsHash(c.sha256) && e == st.e
    ensures ResponderRest(c, rnd, st, heard)
      == ResponderTwo(c, e, st.binding, rnd, st.left, Nth(heard, 2), Nth(heard, 3), Nth(heard, 4))
  {
  }

  // ---------- The methods ----------

  /** What a leg can change. */
  datatype Snapshot = Snapshot(e: Identity.Exchange, sent: seq<Bytes>, left: nat, heard: seq<Hearing>)

  ghost function Now(s: Session, e: Identity.IdentityExchange): Snapshot
    reads s, s.conn, e
  {
    Snapshot(e.View(), s.conn.sent, s.conn.sendsLeft, s.heard)
  }

  ghost predicate Takes(before: Snapshot, l: Leg, after: Snapshot) {
    && after.e == l.e
    && after.sent == before.sent + l.sent
    && after.left == before.left - |l.sent|
    && |after.heard| == |before.heard| + l.receives && before.heard <= after.heard
  }

  lemma TakesBoth(s0: Snapshot, a: Leg, s1: Snapshot, b: Leg, s2: Snapshot)
    requires Takes(s0, a, s1) && Takes(s1, b, s2)
    ensures Takes(s0, Both(a, b), s2)
  {
  }

  lemma HeardStays(before: seq<Hearing>, after: seq<Hearing>)
    requires before <= after
    ensures forall k :: 0 <= k < |before| ==> Nth(after, k) == Nth(before, k)
  {
  }

  method SendIdentity(s: Session, e: Identity.IdentityExchange, nonce: Identity.Nonce)
    returns (r: Result<Bytes, DriverError>)
    requires s.Valid()
    modifies s.conn`sent, s.conn`sendsLeft
    ensures s.Valid()
    ensures var l := Showing(e.c, e.View(), nonce, old(s.conn.sendsLeft));
      Takes(old(Now(s, e)), l, Now(s, e)) && r == l.result
  {
    var sealed := Identity.AesGcmEncrypt(e.c, e.sessionKey, e.publicKey, nonce);
    if sealed.Err? {
      return Err(IdentityFailed(sealed.error));
    }
    var packet := Serialize(IdentityMsg(sealed.value));
    var sent := s.conn.Send(packet);
    return if sent.Ok? then Ok([]) else Err(SendingFailed);
  }

  method AnswerChallenge(s: Session, e: Identity.IdentityExchange, binding: Bytes, nonce: Identity.Nonce, id: U32)
    returns (r: Result<Bytes, DriverError>)
    requires s.Valid()
    modifies s`arrivals, s`trace, s`heard, s.conn, s.buffer
    ensures s.Valid()
    ensures var l := Answering(e.c, e.View(), binding, nonce, id, old(s.conn.sendsLeft), Nth(s.heard, |old(s.heard)|));
      Takes(old(Now(s, e)), l, Now(s, e)) && r == l.result
  {
    var challenge := s.Receive(FLAG_CHALLENGE);
    if challenge.Err? {
      return Err(challenge.error);
    }
    var answer := e.OnChallenge(challenge.value, binding, e.sessionKey, nonce);
    match answer {
      case Sealed(bytes) =>
        var said := s.Say(FLAG_SIGNATURE, bytes, id);
        return if said.Ok? then Ok([]) else Err(SendingFailed);
      case Rejected(error) => return Err(IdentityFailed(error));
      case Verdict(_) => return Err(VerificationFailed);
    }
  }

  method ChallengePeer(s: Session, e: Identity.IdentityExchange, challenge: Bytes, nonce: Identity.Nonce, id: U32)
    returns (r: Result<Bytes, DriverError>)
    requires s.Valid() && IsHash(e.c.sha256)
    modifies s`arrivals, s`trace, s`heard, s.conn, s.buffer, e
    ensures s.Valid()
    ensures var l := Challenging(e.c, old(e.View()), challenge, nonce, id, old(s.conn.sendsLeft),
                                 Nth(s.heard, |old(s.heard)|));
      Takes(old(Now(s, e)), l, Now(s, e)) && r == l.result
  {
    var identity := s.Receive(FLAG_IDENTITY);
    if identity.Err? {
      return Err(identity.error);
    }
    var asked := e.OnPeerIdentity(identity.value, challenge, nonce);
    match asked {
      case Sealed(bytes) =>
        var said := s.Say(FLAG_CHALLENGE, bytes, id);
        return if said.Ok? then Ok(bytes) else Err(SendingFailed);
      case Rejected(error) => return Err(IdentityFailed(error));
      case Verdict(_) => return Err(VerificationFailed);
    }
  }

  method CheckResponse(s: Session, e: Identity.IdentityExchange, sealed: Bytes, binding: Bytes)
    returns (r: Result<Bytes, DriverError>)
    requires s.Valid()
    modifies s`arrivals, s`trace, s`heard, s.conn`inbox, s.buffer, e`isVerified
    ensures s.Valid()
    ensures var l := Checking(e.c, old(e.View()), sealed, binding, Nth(s.heard, |old(s.heard)|));
      Takes(old(Now(s, e)), l, Now(s, e)) && r == l.result
  {
    var response := s.Receive(FLAG_SIGNATURE);
    if response.Err? {
      return Err(response.error);
    }
    var verdict := e.OnResponse(response.value, sealed, binding, e.sessionKey);
    match verdict {
      case Verdict(valid) => return if valid then Ok([]) else Err(VerificationFailed);
      case Rejected(error) => return Err(IdentityFailed(error));
      case Sealed(_) => return Err(VerificationFailed);
    }
  }

  method VerifyPeer(s: Session, e: Identity.IdentityExchange, binding: Bytes, challenge: Bytes, nonce: Identity.Nonce,
                    id: U32)
    returns (r: Result<Bytes, DriverError>)
    requires s.Valid() && IsHash(e.c.sha256)
    modifies s`arrivals, s`trace, s`heard, s.conn, s.buffer, e
    ensures s.Valid()
    ensures var n := |old(s.heard)|;
      var l := Verifying(e.c, old(e.View()), binding, challenge, nonce, id, old(s.conn.sendsLeft), Nth(s.heard, n),
                         Nth(s.heard, n + 1));
      Takes(old(Now(s, e)), l, Now(s, e)) && r == l.result
  {
    ghost var s0 := Now(s, e);
    var sealed := ChallengePeer(s, e, challenge, nonce, id);
    ghost var s1, a := Now(s, e), Challenging(e.c, s0.e, challenge, nonce, id, s0.left, Nth(s.heard, |s0.heard|));
    if sealed.Err? {
      return Err(sealed.error);
    }
    r := CheckResponse(s, e, sealed.value, binding);
    ghost var b := Checking(e.c, s1.e, sealed.value, binding, Nth(s.heard, |s1.heard|));
    TakesBoth(s0, a, s1, b, Now(s, e));
  }

  method AnswerAndVerify(s: Session, e: Identity.IdentityExchange, binding: Bytes, rnd: Randomness)
    returns (r: Result<Bytes, DriverError>)
    requires s.Valid() && IsHash(e.c.sha256)
    modifies s`arrivals, s`trace, s`heard, s.conn, s.buffer, e
    ensures s.Valid()
    ensures var n := |old(s.heard)|;
      var l := AnswerThenVerify(e.c, old(e.View()), binding, rnd, old(s.conn.sendsLeft),
                                Nth(s.heard, n), Nth(s.heard, n + 1), Nth(s.heard, n + 2));
      Takes(old(Now(s, e)), l, Now(s, e)) && r == l.result
  {
    ghost var s0 := Now(s, e);
    r := AnswerChallenge(s, e, binding, rnd.nonce2, rnd.id3);
    ghost var s1, a := Now(s, e), Answering(e.c, s0.e, binding, rnd.nonce2, rnd.id3, s0.left, Nth(s.heard, |s0.heard|));
    if r.Err? {
      return;
    }
    r := VerifyPeer(s, e, binding, rnd.challenge, rnd.nonce3, rnd.id4);
    HeardStays(s1.heard, s.heard);
    ghost var b := Verifying(e.c, s1.e, binding, rnd.challenge, rnd.nonce3, rnd.id4, s1.left, Nth(s.heard, |s1.heard|),
                             Nth(s.heard, |s1.heard| + 1));
    AnswerThenVerifyIs(e.c, s0.e, binding, rnd, s0.left, Nth(s.heard, |s0.heard|), Nth(s.heard, |s1.heard|),
                       Nth(s.heard, |s1.heard| + 1), a, s1.left, b);
    TakesBoth(s0, a, s1, b, Now(s, e));
  }

  method InitiatorPhaseTwo(s: Session, e: Identity.IdentityExchange, binding: Bytes, rnd: Randomness)
    returns (r: Result<Bytes, DriverError>)
    requires s.Valid() && IsHash(e.c.sha256) && |s.heard| == 1
    modifies s`arrivals, s`trace, s`heard, s.conn, s.buffer, e
    ensures s.Valid()
    ensures var l := InitiatorTwo(e.c, old(e.View()), binding, rnd, old(s.conn.sendsLeft), Nth(s.heard, 1),
                                  Nth(s.heard, 2), Nth(s.heard, 3));
      Takes(old(Now(s, e)), l, Now(s, e)) && r == l.result
  {
    ghost var s0 := Now(s, e);
    r := SendIdentity(s, e, rnd.nonce1);
    ghost var s1, a := Now(s, e), Showing(e.c, s0.e, rnd.nonce1, s0.left);
    if r.Err? {
      return;
    }
    r := AnswerAndVerify(s, e, binding, rnd);
    ghost var b := AnswerThenVerify(e.c, s1.e, binding, rnd, s1.left, Nth(s.heard, 1), Nth(s.heard, 2),
                                    Nth(s.heard, 3));
    InitiatorTwoIs(e.c, s0.e, binding, rnd, s0.left, Nth(s.heard, 1), Nth(s.heard, 2), Nth(s.heard, 3), a, s1.left, b);
    TakesBoth(s0, a, s1, b, Now(s, e));
  }

  method ShowAndAnswer(s: Session, e: Identity.IdentityExchange, binding: Bytes, rnd: Randomness)
    returns (r: Result<Bytes, DriverError>)
    requires s.Valid()
    modifies s`arrivals, s`trace, s`heard, s.conn, s.buffer
    ensures s.Valid()
    ensures var l := ShowThenAnswer(e.c, e.View(), binding, rnd, old(s.conn.sendsLeft), Nth(s.heard, |old(s.heard)|));
      Takes(old(Now(s, e)), l, Now(s, e)) && r == l.result
  {
    ghost var s0 := Now(s, e);
    r := SendIdentity(s, e, rnd.nonce2);
    ghost var s1, a := Now(s, e), Showing(e.c, s0.e, rnd.nonce2, s0.left);
    if r.Err? {
      return;
    }
    r := AnswerChallenge(s, e, binding, rnd.nonce3, rnd.id3);
    ghost var b := Answering(e.c, s1.e, binding, rnd.nonce3, rnd.id3, s1.left, Nth(s.heard, |s1.heard|));
    ShowThenAnswerIs(e.c, s0.e, binding, rnd, s0.left, Nth(s.heard, |s1.heard|), a, s1.left, b);
    TakesBoth(s0, a, s1, b, Now(s, e));
  }

  method ResponderPhaseTwo(s: Session, e: Identity.IdentityExchange, binding: Bytes, rnd: Randomness)
    returns (r: Result<Bytes, DriverError>)
    requires s.Valid() && IsHash(e.c.sha256) && |s.heard| == 2
    modifies s`arrivals, s`trace, s`heard, s.conn, s.buffer, e
    ensures s.Valid()
    ensures var l := ResponderTwo(e.c, old(e.View()), binding, rnd, old(s.conn.sendsLeft), Nth(s.heard, 2),
                                  Nth(s.heard, 3), Nth(s.heard, 4));
      Takes(old(Now(s, e)), l, Now(s, e)) && r == l.result
  {
    ghost var s0 := Now(s, e);
    r := VerifyPeer(s, e, binding, rnd.challenge, rnd.nonce1, rnd.id2);
    ghost var s1, a := Now(s, e), Verifying(e.c, s0.e, binding, rnd.challenge, rnd.nonce1, rnd.id2, s0.left,
                                            Nth(s.heard, |s0.heard|), Nth(s.heard, |s0.heard| + 1));
    if r.Err? {
      return;
    }
    r := ShowAndAnswer(s, e, binding, rnd);
    HeardStays(s1.heard, s.heard);
    ghost var b := ShowThenAnswer(e.c, s1.e, binding, rnd, s1.left, Nth(s.heard, |s1.heard|));
    ResponderTwoIs(e.c, s0.e, binding, rnd, s0.left, Nth(s.heard, |s0.heard|), Nth(s.heard, |s0.heard| + 1),
                   Nth(s.heard, |s1.heard|), a, s1.left, b);
    TakesBoth(s0, a, s1, b, Now(s, e));
  }

  /** The initiator's phase 2, with an exchange of its own. */
  method InitiatorProvesAndVerifies(c: Suite, s: Session, who: Party, rnd: Randomness, key: Bytes, binding: Bytes,
                                    ghost st: Setting)
    returns (r: Result<SecureChannel, DriverError>)
    requires s.Valid() && IsHash(c.sha256) && |s.heard| == 1
    requires st == Setting(Begin(key, who), binding, s.conn.sendsLeft)
    modifies s`arrivals, s`trace, s`heard, s.conn, s.buffer
    ensures s.Valid() && old(s.heard) <= s.heard
    ensures var l := InitiatorRest(c, rnd, st, s.heard);
      s.conn.sent == old(s.conn.sent) + l.sent && |s.heard| == 1 + l.receives && r == Channel(key, l.result)
  {
    var e := new Identity.IdentityExchange(c, key, who.publicKey, who.privateKey, who.target);
    ghost var view := e.View();
    var verified := InitiatorPhaseTwo(s, e, binding, rnd);
    InitiatorRestIs(c, rnd, st, s.heard, view);
    return Channel(key, verified);
  }

  /** performHandshake, on every path: what it sends, how much it receives and how
      it ends are those of the step sequence over what it hears. */
  method PerformHandshake(c: Suite, s: Session, who: Party, rnd: Randomness)
    returns (r: Result<SecureChannel, DriverError>)
    requires s.Valid() && s.heard == [] && IsHash(c.sha256)
    modifies s`arrivals, s`trace, s`heard, s.conn, s.buffer
    ensures s.Valid()
    ensures var run := InitiatorRun(c, who, rnd, old(s.conn.sendsLeft), s.heard);
      s.conn.sent == old(s.conn.sent) + run.sent && |s.heard| == run.receives && r == run.result
  {
    ghost var sent, budget := s.conn.sent, s.conn.sendsLeft;
    var hs := new Handshake.KEMHandshake(c, true);
    var derived := InitiatorPhaseOne(s, hs, rnd);
    if derived.Err? {
      return Err(derived.error);
    }
    ghost var h1, p := s.heard, InitiatorOne(c, rnd, budget, Nth(s.heard, 0));
    OneReceive(c, rnd, budget, Nth(s.heard, 0));
    ghost var st := SettingOf(c, who, budget, p);
    r := InitiatorProvesAndVerifies(c, s, who, rnd, derived.value, Binding(c, hs.View()), st);
    HeardStays(h1, s.heard);
    ConcludesWith(p, InitiatorRest(c, rnd, st, s.heard), sent);
  }

  /** The responder's phase 2, with an exchange of its own. */
  method ResponderProvesAndVerifies(c: Suite, s: Session, who: Party, rnd: Randomness, key: Bytes, binding: Bytes,
                                    ghost st: Setting)
    returns (r: Result<SecureChannel, DriverError>)
    requires s.Valid() && IsHash(c.sha256) && |s.heard| == 2
    requires st == Setting(Begin(key, who), binding, s.conn.sendsLeft)
    modifies s`arrivals, s`trace, s`heard, s.conn, s.buffer
    ensures s.Valid() && old(s.heard) <= s.heard
    ensures var l := ResponderRest(c, rnd, st, s.heard);
      s.conn.sent == old(s.conn.sent) + l.sent && |s.heard| == 2 + l.receives && r == Channel(key, l.result)
  {
    var e := new Identity.IdentityExchange(c, key, who.publicKey, who.privateKey, who.target);
    ghost var view := e.View();
    var verified := ResponderPhaseTwo(s, e, binding, rnd);
    ResponderRestIs(c, rnd, st, s.heard, view);
    return Channel(key, verified);
  }

  /** performHandshakeResponder, likewise. */
  method PerformHandshakeResponder(c: Suite, s: Session, who: Party, rnd: Randomness)
    returns (r: Result<SecureChannel, DriverError>)
    requires s.Valid() && s.heard == [] && IsHash(c.sha256)
    modifies s`arrivals, s`trace, s`heard, s.conn, s.buffer
    ensures s.Valid()
    ensures var run := ResponderRun(c, who, rnd, old(s.conn.sendsLeft), s.heard);
      s.conn.sent == old(s.conn.sent) + run.sent && |s.heard| == run.receives && r == run.result
  {
    ghost var sent, budget := s.conn.sent, s.conn.sendsLeft;
    var hs := new Handshake.KEMHandshake(c, false);
    var derived := ResponderPhaseOne(s, hs, rnd);
    if derived.Err? {
      return Err(derived.error);
    }
    ghost var h1, p := s.heard, ResponderOne(c, rnd, budget, Nth(s.heard, 0), Nth(s.heard, 1));
    TwoReceives(c, rnd, budget, Nth(s.heard, 0), Nth(s.heard, 1));
    ghost var st := SettingOf(c, who, budget, p);
    r := ResponderProvesAndVerifies(c, s, who, rnd, derived.value, Binding(c, hs.View()), st);
    HeardStays(h1, s.heard);
    ConcludesWith(p, ResponderRest(c, rnd, st, s.heard), sent);
  }

  lemma ConcludesWith(p: PhaseOne, l: Leg, before: seq<Bytes>)
    requires p.key.Ok?
    ensures var run := Conclude(p, l);
      && before + run.sent == (before + p.sent) + l.sent
      && run.receives == p.receives + l.receives && run.result == Channel(p.key.value, l.result)
  {
  }

  lemma OneReceive(c: Suite, rnd: Randomness, budget: nat, first: Hearing)
    ensures var p := InitiatorOne(c, rnd, budget, first);
      p.key.Ok? ==> p.receives == 1
  {
  }

  lemma TwoReceives(c: Suite, rnd: Randomness, budget: nat, first: Hearing, second: Hearing)
    ensures var p := ResponderOne(c, rnd, budget, first, second);
      p.key.Ok? ==> p.receives == 2
  {
  }

  // ---------- When a channel is returned ----------

  /** What a peer has to show: an identity message that opens to a key with the
      expected hash, then a signature message that opens to that key's signature
      over the challenge as it was sent, the channel binding and the session id. */
  predicate PeerProved(c: Suite, key: Bytes, target: Bytes, identity: Hearing, response: Hearing, sealed: Bytes,
                       binding: Bytes)
    requires IsHash(c.sha256)
  {
    && identity.Ok? && identity.value.0 == 0x10 && response.Ok? && response.value.0 == 0x12
    && var pub := Identity.AesGcmDecrypt(c, key, identity.value.1);
    && pub.Ok? && c.sha256(pub.value) == target && |pub.value| == 32
    && var sig := Identity.AesGcmDecrypt(c, key, response.value.1);
    && sig.Ok? && |sig.value| == 64
    && c.verify(pub.value, sealed + binding + key, sig.value)
  }

  /** A text as it is sent, under the session key. */
  function SealedText(c: Suite, key: Bytes, text: Bytes, nonce: Identity.Nonce): Bytes {
    match Identity.AesGcmEncrypt(c, key, text, nonce) case Ok(b) => b case Err(_) => []
  }

  /** A challenge that can be answered: it opens, and the private key is usable. */
  predicate Answerable(c: Suite, key: Bytes, priv: Bytes, challenge: Hearing) {
    && challenge.Ok? && challenge.value.0 == 0x11
    && Identity.AesGcmDecrypt(c, key, challenge.value.1).Ok? && |priv| == 64
  }

  /** The signature over the opened challenge, the binding and the session id. */
  function AnswerTo(c: Suite, key: Bytes, priv: Bytes, challenge: Hearing, binding: Bytes, nonce: Identity.Nonce): Bytes
    requires Answerable(c, key, priv, challenge)
  {
    var text := Identity.AesGcmDecrypt(c, key, challenge.value.1).value;
    nonce + c.seal(key, nonce, c.sign(priv, text + binding + key))
  }

  function AnswerPackets(c: Suite, key: Bytes, priv: Bytes, challenge: Hearing, binding: Bytes, nonce: Identity.Nonce,
                         id: U32): seq<Bytes>
    requires Answerable(c, key, priv, challenge)
  {
    Wrap(0x12, AnswerTo(c, key, priv, challenge, binding, nonce), id)
  }

  lemma VerifyingExactly(c: Suite, e: Identity.Exchange, binding: Bytes, challenge: Bytes, nonce: Identity.Nonce,
                         id: U32, budget: nat, first: Hearing, second: Hearing)
    requires IsHash(c.sha256)
    ensures var l := Verifying(c, e, binding, challenge, nonce, id, budget, first, second);
      var sealed := SealedText(c, e.sessionKey, challenge, nonce);
      && (l.result.Ok? <==> PeerProved(c, e.sessionKey, e.peerIDHash, first, second, sealed, binding)
                            && |Wrap(FLAG_CHALLENGE, sealed, id)| <= budget)
      && (l.result.Ok? ==> l.e.isVerified && l.sent == Wrap(FLAG_CHALLENGE, sealed, id)
                           && l.e.(peerKey := e.peerKey, isVerified := e.isVerified) == e)
  {
  }

  lemma AnsweringExactly(c: Suite, e: Identity.Exchange, binding: Bytes, nonce: Identity.Nonce,
                         id: U32, budget: nat, heard: Hearing)
    ensures var l := Answering(c, e, binding, nonce, id, budget, heard);
      && (l.result.Ok? <==> Answerable(c, e.sessionKey, e.privateKey, heard)
                            && |AnswerPackets(c, e.sessionKey, e.privateKey, heard, binding, nonce, id)| <= budget)
      && (l.result.Ok? ==> l.e == e)
      && (l.result.Ok? ==> l.sent == AnswerPackets(c, e.sessionKey, e.privateKey, heard, binding, nonce, id))
  {
  }

  /** The bare identity message on the wire. */
  function IdentityPacket(c: Suite, key: Bytes, pub: Bytes, nonce: Identity.Nonce): Bytes {
    match Identity.AesGcmEncrypt(c, key, pub, nonce)
    case Ok(sealed) => Encode(IdentityMsg(sealed))
    case Err(_) => []
  }

  lemma ShowingExactly(c: Suite, e: Identity.Exchange, nonce: Identity.Nonce, budget: nat)
    ensures var l := Showing(c, e, nonce, budget);
      && (l.result.Ok? <==> |e.sessionKey| == 32 && 1 <= budget)
      && (l.result.Ok? ==> l.sent == [IdentityPacket(c, e.sessionKey, e.publicKey, nonce)])
  {
  }

  /** Everything a completed phase 2 has sent, in each driver's order. */
  function InitiatorPackets(c: Suite, e: Identity.Exchange, binding: Bytes, rnd: Randomness,
                            challenge: Hearing): seq<Bytes>
    requires Answerable(c, e.sessionKey, e.privateKey, challenge)
  {
    [IdentityPacket(c, e.sessionKey, e.publicKey, rnd.nonce1)]
    + (AnswerPackets(c, e.sessionKey, e.privateKey, challenge, binding, rnd.nonce2, rnd.id3)
       + Wrap(0x11, SealedText(c, e.sessionKey, rnd.challenge, rnd.nonce3), rnd.id4))
  }

  function ResponderPackets(c: Suite, e: Identity.Exchange, binding: Bytes, rnd: Randomness,
                            challenge: Hearing): seq<Bytes>
    requires Answerable(c, e.sessionKey, e.privateKey, challenge)
  {
    Wrap(0x11, SealedText(c, e.sessionKey, rnd.challenge, rnd.nonce1), rnd.id2)
    + ([IdentityPacket(c, e.sessionKey, e.publicKey, rnd.nonce2)]
       + AnswerPackets(c, e.sessionKey, e.privateKey, challenge, binding, rnd.nonce3, rnd.id3))
  }

  /** What the initiator must hear: a challenge it can answer, and a proof of the
      identity it expects. */
  predicate InitiatorHeard(c: Suite, e: Identity.Exchange, binding: Bytes, rnd: Randomness,
                           first: Hearing, second: Hearing, third: Hearing)
    requires IsHash(c.sha256)
  {
    && Answerable(c, e.sessionKey, e.privateKey, first)
    && PeerProved(c, e.sessionKey, e.peerIDHash, second, third,
                  SealedText(c, e.sessionKey, rnd.challenge, rnd.nonce3), binding)
  }

  /** The responder must hear the same, the other way round. */
  predicate ResponderHeard(c: Suite, e: Identity.Exchange, binding: Bytes, rnd: Randomness,
                           first: Hearing, second: Hearing, third: Hearing)
    requires IsHash(c.sha256)
  {
    && PeerProved(c, e.sessionKey, e.peerIDHash, first, second,
                  SealedText(c, e.sessionKey, rnd.challenge, rnd.nonce1), binding)
    && Answerable(c, e.sessionKey, e.privateKey, third)
  }

  lemma AnswerThenVerifyExactly(c: Suite, e: Identity.Exchange, binding: Bytes, rnd: Randomness, budget: nat,
                                first: Hearing, second: Hearing, third: Hearing)
    requires IsHash(c.sha256)
    ensures var l, heard := AnswerThenVerify(c, e, binding, rnd, budget, first, second, third),
                            InitiatorHeard(c, e, binding, rnd, first, second, third);
      && (l.result.Ok? <==> heard && 1 + budget >= |InitiatorPackets(c, e, binding, rnd, first)|)
      && (l.result.Ok? ==> l.sent == InitiatorPackets(c, e, binding, rnd, first)[1..] && l.e.isVerified)
  {
    AnsweringExactly(c, e, binding, rnd.nonce2, rnd.id3, budget, first);
    var a := Answering(c, e, binding, rnd.nonce2, rnd.id3, budget, first);
    VerifyingExactly(c, e, binding, rnd.challenge, rnd.nonce3, rnd.id4, budget - |a.sent|, second, third);
  }

  lemma InitiatorTwoExactly(c: Suite, e: Identity.Exchange, binding: Bytes, rnd: Randomness, budget: nat,
                            first: Hearing, second: Hearing, third: Hearing)
    requires IsHash(c.sha256)
    ensures var l, heard := InitiatorTwo(c, e, binding, rnd, budget, first, second, third),
                            InitiatorHeard(c, e, binding, rnd, first, second, third);
      && (l.result.Ok? <==> heard && |InitiatorPackets(c, e, binding, rnd, first)| <= budget)
      && (l.result.Ok? ==> l.sent == InitiatorPackets(c, e, binding, rnd, first) && l.e.isVerified)
  {
    ShowingExactly(c, e, rnd.nonce1, budget);
    if Showing(c, e, rnd.nonce1, budget).result.Ok? {
      AnswerThenVerifyExactly(c, e, binding, rnd, budget - 1, first, second, third);
    }
  }

  lemma ResponderTwoExactly(c: Suite, e: Identity.Exchange, binding: Bytes, rnd: Randomness, budget: nat,
                            first: Hearing, second: Hearing, third: Hearing)
    requires IsHash(c.sha256)
    ensures var l, heard := ResponderTwo(c, e, binding, rnd, budget, first, second, third),
                            ResponderHeard(c, e, binding, rnd, first, second, third);
      && (l.result.Ok? <==> heard && |ResponderPackets(c, e, binding, rnd, third)| <= budget)
      && (l.result.Ok? ==> l.sent == ResponderPackets(c, e, binding, rnd, third) && l.e.isVerified)
  {
    VerifyingExactly(c, e, binding, rnd.challenge, rnd.nonce1, rnd.id2, budget, first, second);
    var a := Verifying(c, e, binding, rnd.challenge, rnd.nonce1, rnd.id2, budget, first, second);
    if a.result.Ok? {
      var left := budget - |a.sent|;
      ShowingExactly(c, a.e, rnd.nonce2, left);
      if left != 0 {
        AnsweringExactly(c, a.e, binding, rnd.nonce3, rnd.id3, left - 1, third);
      }
    }
  }

  predicate InitiatorReady(c: Suite, rnd: Randomness, st: Setting, heard: seq<Hearing>)
    requires IsHash(c.sha256)
  {
    && InitiatorHeard(c, st.e, st.binding, rnd, Nth(heard, 1), Nth(heard, 2), Nth(heard, 3))
    && |InitiatorPackets(c, st.e, st.binding, rnd, Nth(heard, 1))| <= st.left
  }

  /** After any phase 1. */
  lemma InitiatorConcludes(c: Suite, rnd: Randomness, p: PhaseOne, st: Setting, heard: seq<Hearing>)
    requires IsHash(c.sha256)
    ensures var run := Conclude(p, InitiatorRest(c, rnd, st, heard));
      && (run.result.Ok? <==> p.key.Ok? && InitiatorReady(c, rnd, st, heard))
      && (run.result.Ok? ==> run.result.value.sessionKey == p.key.value)
      && (run.result.Ok? ==> run.sent == p.sent + InitiatorPackets(c, st.e, st.binding, rnd, Nth(heard, 1)))
  {
    InitiatorTwoExactly(c, st.e, st.binding, rnd, st.left, Nth(heard, 1), Nth(heard, 2), Nth(heard, 3));
  }

  /** The initiator returns a channel exactly when phase 1 derives its key, it hears
      in this order a challenge it can answer, the identity it expects and the
      signature that proves it, and everything it has to send gets out; the channel
      has that key. */
  lemma InitiatorGate(c: Suite, who: Party, rnd: Randomness, budget: nat, heard: seq<Hearing>)
    requires IsHash(c.sha256)
    ensures var run, p := InitiatorRun(c, who, rnd, budget, heard), InitiatorOne(c, rnd, budget, Nth(heard, 0));
      var st := SettingOf(c, who, budget, p);
      && (run.result.Ok? <==> p.key.Ok? && InitiatorReady(c, rnd, st, heard))
      && (run.result.Ok? ==> run.result.value.sessionKey == p.key.value)
      && (run.result.Ok? ==> run.sent == p.sent + InitiatorPackets(c, st.e, st.binding, rnd, Nth(heard, 1)))
  {
    var p := InitiatorOne(c, rnd, budget, Nth(heard, 0));
    InitiatorConcludes(c, rnd, p, SettingOf(c, who, budget, p), heard);
  }

  predicate ResponderReady(c: Suite, rnd: Randomness, st: Setting, heard: seq<Hearing>)
    requires IsHash(c.sha256)
  {
    && ResponderHeard(c, st.e, st.binding, rnd, Nth(heard, 2), Nth(heard, 3), Nth(heard, 4))
    && |ResponderPackets(c, st.e, st.binding, rnd, Nth(heard, 4))| <= st.left
  }

  /** After any phase 1. */
  lemma ResponderConcludes(c: Suite, rnd: Randomness, p: PhaseOne, st: Setting, heard: seq<Hearing>)
    requires IsHash(c.sha256)
    ensures var run := Conclude(p, ResponderRest(c, rnd, st, heard));
      && (run.result.Ok? <==> p.key.Ok? && ResponderReady(c, rnd, st, heard))
      && (run.result.Ok? ==> run.result.value.sessionKey == p.key.value)
      && (run.result.Ok? ==> run.sent == p.sent + ResponderPackets(c, st.e, st.binding, rnd, Nth(heard, 4)))
  {
    ResponderTwoExactly(c, st.e, st.binding, rnd, st.left, Nth(heard, 2), Nth(heard, 3), Nth(heard, 4));
  }

  /** The same for the responder, who is shown the identity and the signature first
      and the challenge last. */
  lemma ResponderGate(c: Suite, who: Party, rnd: Randomness, budget: nat, heard: seq<Hearing>)
    requires IsHash(c.sha256)
    ensures var run, p := ResponderRun(c, who, rnd, budget, heard),
                          ResponderOne(c, rnd, budget, Nth(heard, 0), Nth(heard, 1));
      var st := SettingOf(c, who, budget, p);
      && (run.result.Ok? <==> p.key.Ok? && ResponderReady(c, rnd, st, heard))
      && (run.result.Ok? ==> run.result.value.sessionKey == p.key.value)
      && (run.result.Ok? ==> run.sent == p.sent + ResponderPackets(c, st.e, st.binding, rnd, Nth(heard, 4)))
  {
    var p := ResponderOne(c, rnd, budget, Nth(heard, 0), Nth(heard, 1));
    ResponderConcludes(c, rnd, p, SettingOf(c, who, budget, p), heard);
  }
}
