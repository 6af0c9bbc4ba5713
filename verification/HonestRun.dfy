/** Two honest drivers against each other: why phase 2 never completes. */
module HonestRun {
  import opened Basics
  import opened Messages
  import opened Fragment
  import opened Reassembly
  import opened SharedBuffer
  import opened ReassemblySafety
  import opened Receivers
  import opened FifoDelivery
  import opened Crypto
  import HashExpansion
  import opened Driver
  import opened FullDriver
  import opened DriverProofs
  import Handshake
  import Identity

  /** The laws used here; nothing is assumed of which signatures verify. */
  ghost predicate Laws(c: Suite) {
    IdealKem(c) && IdealHashes(c) && IdealAead(c) && SignatureSizes(c) && HashExpansion.IsHash(c.sha256)
  }

  // ---------- The identity packet ----------

  /** The identity message goes out without a fragment header, so its own first
      bytes are read as one: the index is the length of the ciphertext, the total
      the first two bytes of a random nonce, the id four more of them. */
  lemma IdentityPacketParses(c: Suite, key: Bytes, pub: Bytes, nonce: Identity.Nonce)
    requires IdealAead(c) && |key| == 32 && |pub| == SIGN_PUBLIC_SIZE
    ensures var sealed, packet := SealedText(c, key, pub, nonce), IdentityPacket(c, key, pub, nonce);
      ReadsBare(packet, nonce, sealed) && Identity.AesGcmDecrypt(c, key, sealed) == Ok(pub)
  {
    Identity.DecryptEncrypt(c, key, pub, nonce);
    IdentityPacketIs(c, key, pub, nonce);
    BareParses(SealedText(c, key, pub, nonce), nonce);
  }

  /** Flag, length and ciphertext, whose front is the nonce. */
  lemma IdentityPacketIs(c: Suite, key: Bytes, pub: Bytes, nonce: Identity.Nonce)
    requires IdealAead(c) && |key| == 32 && |pub| == SIGN_PUBLIC_SIZE
    ensures var sealed := SealedText(c, key, pub, nonce);
      && |sealed| == 60 && sealed[..NONCE_SIZE] == nonce
      && IdentityPacket(c, key, pub, nonce) == [FLAG_IDENTITY] + PutU16(60) + sealed
  {
    BareIdentity(SealedText(c, key, pub, nonce));
  }

  lemma BareIdentity(sealed: Bytes)
    requires |sealed| == 60
    ensures Encode(IdentityMsg(sealed)) == [FLAG_IDENTITY] + PutU16(60) + sealed
  {
    Unfold(IdentityMsg(sealed));
    FitsU16(|sealed|);
  }

  function MisreadId(nonce: Identity.Nonce): U32 {
    GetU32(nonce[6..10])
  }

  function MisreadHeader(nonce: Identity.Nonce): Header {
    Header(FLAG_IDENTITY, 60, GetU16(nonce[..2]), GetU32(nonce[2..6]), MisreadId(nonce))
  }

  predicate ReadsBare(packet: Bytes, nonce: Identity.Nonce, sealed: Bytes) {
    |sealed| == 60 && Unmarshal(packet) == Some(MisreadHeader(nonce)) && packet[HEADER_SIZE..] == sealed[10..]
  }

  /** A field of 60 bytes behind its flag and length, read as a packet. */
  lemma BareParses(sealed: Bytes, nonce: Identity.Nonce)
    requires |sealed| == 60 && sealed[..NONCE_SIZE] == nonce
    ensures ReadsBare([FLAG_IDENTITY] + PutU16(60) + sealed, nonce, sealed)
  {
    var packet := [FLAG_IDENTITY] + PutU16(60) + sealed;
    assert packet[1..3] == PutU16(60) && packet[3..5] == nonce[..2];
    assert packet[5..9] == nonce[2..6] && packet[9..13] == nonce[6..10];
    U16RoundTrip(60, PutU16(60));
  }

  /** What the receiver makes of it, from what it has under that id: a message of
      50 bytes if the nonce begins with the number 1; otherwise one more fragment,
      which completes whatever is there if its size becomes the random total. */
  function Misread(nonce: Identity.Nonce, sealed: Bytes, kept: Slot): Outcome
    requires |sealed| == 60
  {
    var total, m := GetU16(nonce[..2]), kept[60 := sealed[10..]];
    if total == 1 then Delivered(FLAG_IDENTITY, sealed[10..])
    else if |m| % U16_LIMIT == total then Delivered(FLAG_IDENTITY, Join(m, total))
    else Stored
  }

  lemma BareIsMisread(packet: Bytes, nonce: Identity.Nonce, sealed: Bytes, f: Fragments, ev: Event)
    requires ReadsBare(packet, nonce, sealed) && ev.packet == packet
    ensures Process(f, ev).1 == Misread(nonce, sealed, Entry(f - ev.evicted, MisreadId(nonce)))
  {
  }

  /** On any buffer, whatever purge comes first. */
  lemma IdentityPacketIsMisread(c: Suite, key: Bytes, pub: Bytes, nonce: Identity.Nonce, f: Fragments, ev: Event)
    requires IdealAead(c) && |key| == 32 && |pub| == SIGN_PUBLIC_SIZE
    requires ev.packet == IdentityPacket(c, key, pub, nonce)
    ensures var sealed := SealedText(c, key, pub, nonce);
      |sealed| == 60
      && Process(f, ev).1 == Misread(nonce, sealed, Entry(f - ev.evicted, MisreadId(nonce)))
  {
    IdentityPacketParses(c, key, pub, nonce);
    BareIsMisread(ev.packet, nonce, SealedText(c, key, pub, nonce), f, ev);
  }

  /** What it is read as when nothing else is stored under that id. */
  function ReadAs(nonce: Identity.Nonce, sealed: Bytes): Outcome
    requires |sealed| == 60
  {
    if GetU16(nonce[..2]) == 1 then Delivered(FLAG_IDENTITY, sealed[10..]) else Stored
  }

  lemma MisreadOnEmpty(nonce: Identity.Nonce, sealed: Bytes)
    requires |sealed| == 60
    ensures Misread(nonce, sealed, map[]) == ReadAs(nonce, sealed)
  {
    var m: Slot := map[];
    assert m[60 := sealed[10..]].Keys == {60};
    assert |m[60 := sealed[10..]]| == |m[60 := sealed[10..]].Keys| == 1;
    FitsU16(1);
  }

  /** Until this side reads its third packet, nobody else stores anything under
      this id on its buffer. */
  ghost predicate Unshared(x: Side, id: U32) {
    id !in x.f
    && forall k :: 0 <= k < |x.trace| && |OwnPackets(x.conn, x.trace[..k])| < 3 && Concerns(id, x.trace[k]) ==>
         Own(x.conn, x.trace[k])
  }

  lemma {:induction false} NoEntryYet(id: U32, f: Fragments, trace: seq<Event>)
    requires id !in f && forall k :: 0 <= k < |trace| ==> !Concerns(id, trace[k])
    ensures Entry(StateAfter(f, trace), id) == map[]
  {
    if trace != [] {
      NoEntryYet(id, f, trace[..|trace| - 1]);
      ProcessEntry(id, StateAfter(f, trace[..|trace| - 1]), trace[|trace| - 1]);
    }
  }

  // ---------- What the responder hears after phase 1 ----------

  /** After the identity packet the initiator sends nothing, or a signature first. */
  predicate OnlySignatureNext(rest: seq<Bytes>, data: Bytes, id: U32) {
    rest == [] || (|data| <= MAX_FRAGMENT && [rest[0]] == Wrap(FLAG_SIGNATURE, data, id))
  }

  /** What it hears as the third message. */
  function ThirdHearing(nonce: Identity.Nonce, sealed: Bytes, rest: seq<Bytes>, data: Bytes): Hearing
    requires |sealed| == 60
  {
    if GetU16(nonce[..2]) == 1 then Ok((FLAG_IDENTITY, sealed[10..]))
    else if rest == [] then Err(TransportClosed)
    else Ok((FLAG_SIGNATURE, data))
  }

  /** The inbox holds two short messages, one more packet, and the rest. */
  ghost predicate Incoming(x: Side, a: Parcel, b: Parcel, packet: Bytes, rest: seq<Bytes>) {
    && WellCut(a.message) && WellCut(b.message) && Parts(a.message) == 1 && Parts(b.message) == 1
    && PacketsIn(x.inbox) == Stream([a, b]) + [packet] + rest
  }

  lemma StreamOfTwo(a: Parcel, b: Parcel)
    requires WellCut(a.message) && WellCut(b.message) && Parts(a.message) == 1 && Parts(b.message) == 1
    ensures |Stream([a, b])| == 2
    ensures Expected([a, b]) == [Delivered(a.message.flag, a.message.data), Delivered(b.message.flag, b.message.data)]
  {
    TwoParcels(a, b);
    assert [a, b][..1] == [a] && [a][..0] == [];
    assert Expected([a, b]) == Expected([a]) + Replies(b.message) && Expected([a]) == Replies(a.message);
    assert Replies(a.message) == [Reply(a.message, 0)] && Replies(b.message) == [Reply(b.message, 0)];
  }

  lemma InOrder(x: Side, a: Parcel, b: Parcel, packet: Bytes, rest: seq<Bytes>)
    requires Incoming(x, a, b, packet, rest)
    ensures var ps := PacketsIn(x.inbox);
      && |ps| == 3 + |rest| && ps[..2] == Stream([a, b])
      && ps[2] == packet && (rest != [] ==> ps[3] == rest[0])
  {
    StreamOfTwo(a, b);
  }

  lemma ShortPacketsSkipTheLock(a: Parcel, b: Parcel, ev: Event)
    requires WellCut(a.message) && WellCut(b.message) && Parts(a.message) == 1 && Parts(b.message) == 1
    requires ev.packet in Stream([a, b])
    ensures !ReachesLock(ev.packet)
  {
    StreamOfTwo(a, b);
    TwoParcels(a, b);
    FrameHeader(a.message, a.id, 0);
    FrameHeader(b.message, b.id, 0);
  }

  /** The two short messages do not touch the buffer, so the identity packet finds
      no entry under its id. */
  lemma ThirdAnswer(x: Side, a: Parcel, b: Parcel, packet: Bytes, nonce: Identity.Nonce, sealed: Bytes,
                    rest: seq<Bytes>)
    requires ReadsBare(packet, nonce, sealed) && Unshared(x, MisreadId(nonce))
    requires Listens(x) && Incoming(x, a, b, packet, rest) && 3 <= |OwnPackets(x.conn, x.trace)|
    ensures 3 <= |Answers(x.conn, x.f, x.trace)|
    ensures Answers(x.conn, x.f, x.trace)[2] == ReadAs(nonce, sealed)
  {
    var id := MisreadId(nonce);
    var at := TurnOf(x.conn, x.f, x.trace, 2);
    InOrder(x, a, b, packet, rest);
    assert OwnPackets(x.conn, x.trace[..at]) == PacketsIn(x.inbox)[..2];
    NoneStores(x, a, b, id, at);
    NoEntryYet(id, x.f, x.trace[..at]);
    BareIsMisread(packet, nonce, sealed, StateAfter(x.f, x.trace[..at]), x.trace[at]);
    MisreadOnEmpty(nonce, sealed);
  }

  lemma NoneStores(x: Side, a: Parcel, b: Parcel, id: U32, at: nat)
    requires WellCut(a.message) && WellCut(b.message) && Parts(a.message) == 1 && Parts(b.message) == 1
    requires Unshared(x, id) && at <= |x.trace| && OwnPackets(x.conn, x.trace[..at]) == Stream([a, b])
    ensures forall k :: 0 <= k < at ==> !Concerns(id, x.trace[..at][k])
  {
    StreamOfTwo(a, b);
    forall k | 0 <= k < at ensures !Concerns(id, x.trace[..at][k]) {
      OwnPacketsGrow(x.conn, x.trace[..at], k);
      assert x.trace[..at][..k] == x.trace[..k];
      if Own(x.conn, x.trace[k]) {
        OwnPacketAmong(x.conn, x.trace[..at], k);
        ShortPacketsSkipTheLock(a, b, x.trace[k]);
      }
    }
  }

  lemma {:induction false} OwnPacketAmong(conn: nat, trace: seq<Event>, k: nat)
    requires k < |trace| && Own(conn, trace[k])
    ensures trace[k].packet in OwnPackets(conn, trace)
  {
    if k < |trace| - 1 {
      OwnPacketAmong(conn, trace[..|trace| - 1], k);
    }
  }

  lemma FourthAnswer(x: Side, a: Parcel, b: Parcel, packet: Bytes, rest: seq<Bytes>, data: Bytes, id: U32)
    requires Listens(x) && Incoming(x, a, b, packet, rest) && OnlySignatureNext(rest, data, id)
    requires 4 <= |OwnPackets(x.conn, x.trace)|
    ensures 4 <= |Answers(x.conn, x.f, x.trace)|
    ensures Answers(x.conn, x.f, x.trace)[3] == Delivered(FLAG_SIGNATURE, data)
  {
    var at := TurnOf(x.conn, x.f, x.trace, 3);
    InOrder(x, a, b, packet, rest);
    WrapFrames(FLAG_SIGNATURE, data, id);
    assert x.trace[at].packet == rest[0];
    SinglePacketAdvances(Sealing(FLAG_SIGNATURE, data, id).message, id, StateAfter(x.f, x.trace[..at]), x.trace[at]);
  }

  lemma ReturnedOfTwo(answers: seq<Outcome>)
    requires 2 <= |answers| && answers[0].Delivered? && answers[1].Delivered?
    ensures |Returned(answers[..2])| == 2
  {
    ReturnedAll(answers);
    ReturnedNext(answers, 0);
    ReturnedNext(answers, 1);
  }

  /** What the third call returns: the third answer if it ends a call, else the
      fourth, else nothing yet. */
  lemma ReturnedOfFour(answers: seq<Outcome>)
    requires 2 <= |answers| && answers[0].Delivered? && answers[1].Delivered?
    ensures |answers| == 2 || (|answers| == 3 && answers[2] == Stored) ==> |Returned(answers)| == 2
    ensures 3 <= |answers| && answers[2] != Stored ==>
      3 <= |Returned(answers)| && Returned(answers)[2] == ResultOf(answers[2])
    ensures 4 <= |answers| && answers[2] == Stored && answers[3] != Stored ==>
      3 <= |Returned(answers)| && Returned(answers)[2] == ResultOf(answers[3])
  {
    ReturnedOfTwo(answers);
    ReturnedAll(answers);
    if 3 <= |answers| {
      ReturnedNext(answers, 2);
    }
    if 4 <= |answers| {
      ReturnedNext(answers, 3);
    }
  }

  /** With the identity packet where the third message should be. */
  lemma HearsThird(x: Side, a: Parcel, b: Parcel, packet: Bytes, nonce: Identity.Nonce, sealed: Bytes,
                   rest: seq<Bytes>, data: Bytes, id: U32)
    requires ReadsBare(packet, nonce, sealed) && Unshared(x, MisreadId(nonce))
    requires Listens(x) && Incoming(x, a, b, packet, rest)
    requires OnlySignatureNext(rest, data, id) && 3 <= |x.heard|
    ensures x.heard[2] == ThirdHearing(nonce, sealed, rest, data)
  {
    var answers, own := Answers(x.conn, x.f, x.trace), OwnPackets(x.conn, x.trace);
    OnePerPacket(x.conn, x.f, x.trace);
    StreamOfTwo(a, b);
    ShortLineup(x, a, b);
    AnswersInOrder(x.conn, x.f, x.trace, [a, b]);
    if 3 <= |own| {
      ThirdAnswer(x, a, b, packet, nonce, sealed, rest);
    }
    if 4 <= |own| {
      FourthAnswer(x, a, b, packet, rest, data, id);
    }
    if 2 <= |own| {
      ReturnedOfFour(answers);
    } else {
      FewReturned(answers);
    }
  }

  lemma {:induction false} FewReturned(answers: seq<Outcome>)
    ensures |Returned(answers)| <= |answers|
  {
    if answers != [] {
      FewReturned(answers[..|answers| - 1]);
    }
  }

  // ---------- What follows from it ----------

  /** What opens of the last 50 of the 60 bytes is too short to be a key. */
  lemma TailIsNoKey(c: Suite, key: Bytes, sealed: Bytes)
    requires IdealAead(c) && |sealed| == 60
    ensures var tail := Identity.AesGcmDecrypt(c, key, sealed[10..]);
      tail.Ok? ==> |tail.value| == 22
  {
  }

  /** The identity step lets the packet pass: it was delivered, its tail opens, and
      the hash of what comes out is the expected one. */
  predicate Passes(c: Suite, e: Identity.Exchange, nonce: Identity.Nonce, sealed: Bytes)
    requires HashExpansion.IsHash(c.sha256) && |sealed| == 60
  {
    var tail := Identity.AesGcmDecrypt(c, e.sessionKey, sealed[10..]);
    GetU16(nonce[..2]) == 1 && tail.Ok? && c.sha256(tail.value) == e.peerIDHash
  }

  /** Otherwise the responder ends with this error. */
  function Refusal(c: Suite, e: Identity.Exchange, nonce: Identity.Nonce, sealed: Bytes, rest: seq<Bytes>): DriverError
    requires |sealed| == 60
  {
    if GetU16(nonce[..2]) == 1 then
      match Identity.AesGcmDecrypt(c, e.sessionKey, sealed[10..])
      case Err(error) => IdentityFailed(error)
      case Ok(_) => IdentityFailed(Identity.PeerHashMismatch)
    else if rest == [] then ReceivingFailed(TransportClosed)
    else UnexpectedMessageType
  }

  lemma ChallengeIsShort(c: Suite, e: Identity.Exchange, rnd: Randomness)
    requires IdealAead(c) && |e.sessionKey| == 32
    ensures |Wrap(FLAG_CHALLENGE, SealedText(c, e.sessionKey, rnd.challenge, rnd.nonce1), rnd.id2)| == 1
    ensures |SealedText(c, e.sessionKey, rnd.challenge, rnd.nonce1)| == 60
  {
    Identity.DecryptEncrypt(c, e.sessionKey, rnd.challenge, rnd.nonce1);
    WrapSize(FLAG_CHALLENGE, SealedText(c, e.sessionKey, rnd.challenge, rnd.nonce1), rnd.id2);
  }

  /** The identity step on what the responder hears. */
  lemma IdentityStep(c: Suite, e: Identity.Exchange, rnd: Randomness, left: nat, nonce: Identity.Nonce,
                     sealed: Bytes, rest: seq<Bytes>, data: Bytes)
    requires IdealAead(c) && HashExpansion.IsHash(c.sha256) && |e.sessionKey| == 32 && |sealed| == 60
    ensures var l := Challenging(c, e, rnd.challenge, rnd.nonce1, rnd.id2, left,
                                 ThirdHearing(nonce, sealed, rest, data));
      var challenge := SealedText(c, e.sessionKey, rnd.challenge, rnd.nonce1);
      && (l.result.Ok? <==> Passes(c, e, nonce, sealed) && 1 <= left)
      && l.sent == (if l.result.Ok? then Wrap(FLAG_CHALLENGE, challenge, rnd.id2) else [])
      && (!Passes(c, e, nonce, sealed) ==> l == Leg(e, [], 1, Err(Refusal(c, e, nonce, sealed, rest))))
  {
    ChallengeIsShort(c, e, rnd);
    Identity.DecryptEncrypt(c, e.sessionKey, rnd.challenge, rnd.nonce1);
  }

  /** The responder never gets past the signature, and whether it sends its
      challenge is decided by the identity step. */
  lemma ResponderFails(c: Suite, e: Identity.Exchange, binding: Bytes, rnd: Randomness, left: nat,
                       nonce: Identity.Nonce, sealed: Bytes, rest: seq<Bytes>, data: Bytes,
                       second: Hearing, third: Hearing)
    requires IdealAead(c) && HashExpansion.IsHash(c.sha256) && |e.sessionKey| == 32 && |sealed| == 60
    ensures var l := ResponderTwo(c, e, binding, rnd, left, ThirdHearing(nonce, sealed, rest, data), second, third);
      var challenge := SealedText(c, e.sessionKey, rnd.challenge, rnd.nonce1);
      && l.result.Err? && 1 <= l.receives
      && l.sent == (if Passes(c, e, nonce, sealed) && 1 <= left then Wrap(FLAG_CHALLENGE, challenge, rnd.id2) else [])
      && (!Passes(c, e, nonce, sealed) ==> l.result == Err(Refusal(c, e, nonce, sealed, rest)))
  {
    var first := ThirdHearing(nonce, sealed, rest, data);
    TailIsNoKey(c, e.sessionKey, sealed);
    IdentityStep(c, e, rnd, left, nonce, sealed, rest, data);
    VerifyingExactly(c, e, binding, rnd.challenge, rnd.nonce1, rnd.id2, left, first, second);
    VerifyingSends(c, e, binding, rnd, left, first, second);
  }

  lemma VerifyingSends(c: Suite, e: Identity.Exchange, binding: Bytes, rnd: Randomness, left: nat, first: Hearing,
                       second: Hearing)
    requires HashExpansion.IsHash(c.sha256)
    ensures var a := Challenging(c, e, rnd.challenge, rnd.nonce1, rnd.id2, left, first);
      var l := Verifying(c, e, binding, rnd.challenge, rnd.nonce1, rnd.id2, left, first, second);
      l.sent == a.sent && 1 <= l.receives && (a.result.Err? ==> l == a)
  {
  }

  /** The signature the initiator would send. */
  function SignatureFor(c: Suite, e: Identity.Exchange, binding: Bytes, nonce: Identity.Nonce, heard: Hearing): Bytes {
    if Answerable(c, e.sessionKey, e.privateKey, heard)
    then AnswerTo(c, e.sessionKey, e.privateKey, heard, binding, nonce)
    else []
  }

  /** A phase 2 that begins with the bare identity packet; what follows begins with
      the signature, if there is room; and nothing follows unless a challenge
      arrived. */
  predicate BeginsBare(l: Leg, packet: Bytes, data: Bytes, id: U32, challenge: Hearing) {
    && l.sent != [] && l.sent[0] == packet && OnlySignatureNext(l.sent[1..], data, id) && 1 <= l.receives
    && (Expect(FLAG_CHALLENGE, challenge).Err? ==>
          l.sent[1..] == [] && l.result == Err(Expect(FLAG_CHALLENGE, challenge).error))
  }

  lemma InitiatorSends(c: Suite, e: Identity.Exchange, binding: Bytes, rnd: Randomness, left: nat,
                       first: Hearing, second: Hearing, third: Hearing) returns (l: Leg)
    requires IdealAead(c) && SignatureSizes(c) && HashExpansion.IsHash(c.sha256)
    requires |e.sessionKey| == 32 && 1 <= left
    ensures l == InitiatorTwo(c, e, binding, rnd, left, first, second, third)
    ensures BeginsBare(l, IdentityPacket(c, e.sessionKey, e.publicKey, rnd.nonce1),
                       SignatureFor(c, e, binding, rnd.nonce2, first), rnd.id3, first)
  {
    var b, data := AnswerThenVerify(c, e, binding, rnd, left - 1, first, second, third),
                   SignatureFor(c, e, binding, rnd.nonce2, first);
    AnswerSends(c, e, binding, rnd, left - 1, first, second, third);
    l := BareThen(c, e, binding, rnd, left, first, second, third, b, data);
  }

  lemma BareThen(c: Suite, e: Identity.Exchange, binding: Bytes, rnd: Randomness, left: nat,
                 first: Hearing, second: Hearing, third: Hearing, b: Leg,
                 data: Bytes) returns (l: Leg)
    requires HashExpansion.IsHash(c.sha256) && |e.sessionKey| == 32 && 1 <= left
    requires b == AnswerThenVerify(c, e, binding, rnd, left - 1, first, second, third)
    requires OnlySignatureNext(b.sent, data, rnd.id3) && 1 <= b.receives
    requires Expect(FLAG_CHALLENGE, first).Err? ==> b.sent == [] && b.result == Err(Expect(FLAG_CHALLENGE, first).error)
    ensures l == InitiatorTwo(c, e, binding, rnd, left, first, second, third)
    ensures BeginsBare(l, IdentityPacket(c, e.sessionKey, e.publicKey, rnd.nonce1), data, rnd.id3, first)
  {
    var a := Showing(c, e, rnd.nonce1, left);
    ShowingExactly(c, e, rnd.nonce1, left);
    BareFirst(a, b, IdentityPacket(c, e.sessionKey, e.publicKey, rnd.nonce1), data, rnd.id3, first);
    InitiatorTwoIs(c, e, binding, rnd, left, first, second, third, a, left - 1, b);
    l := Both(a, b);
  }

  lemma BareFirst(a: Leg, b: Leg, packet: Bytes, data: Bytes, id: U32, challenge: Hearing)
    requires a.sent == [packet] && OnlySignatureNext(b.sent, data, id) && 1 <= b.receives
    requires Expect(FLAG_CHALLENGE, challenge).Err? ==>
      b.sent == [] && b.result == Err(Expect(FLAG_CHALLENGE, challenge).error)
    ensures BeginsBare(Both(a, b), packet, data, id, challenge)
  {
    assert Both(a, b).sent[1..] == b.sent;
  }

  lemma AnswerSends(c: Suite, e: Identity.Exchange, binding: Bytes, rnd: Randomness, left: nat,
                    first: Hearing, second: Hearing, third: Hearing)
    requires IdealAead(c) && SignatureSizes(c) && HashExpansion.IsHash(c.sha256)
    requires |e.sessionKey| == 32
    ensures var l := AnswerThenVerify(c, e, binding, rnd, left, first, second, third);
      && OnlySignatureNext(l.sent, SignatureFor(c, e, binding, rnd.nonce2, first), rnd.id3)
      && (Expect(FLAG_CHALLENGE, first).Err? ==> l == Leg(e, [], 1, Err(Expect(FLAG_CHALLENGE, first).error)))
      && 1 <= l.receives
  {
    var a := Answering(c, e, binding, rnd.nonce2, rnd.id3, left, first);
    AnsweringExactly(c, e, binding, rnd.nonce2, rnd.id3, left, first);
    var data := SignatureFor(c, e, binding, rnd.nonce2, first);
    if Answerable(c, e.sessionKey, e.privateKey, first) {
      assert |data| == 92;
      WrapSize(FLAG_SIGNATURE, data, rnd.id3);
    }
  }

  // ---------- The two drivers against each other ----------

  /** Two drivers joined by a connection that delivers everything, in order, and
      then closes: each has received what the other sent, and has made all the
      receives it attempts. */
  ghost predicate Joined(a: Run, b: Run, xA: Side, xB: Side) {
    && Listens(xA) && a.receives <= |xA.heard| && PacketsIn(xA.inbox) == b.sent
    && Listens(xB) && b.receives <= |xB.heard| && PacketsIn(xB.inbox) == a.sent
  }

  lemma ConcludeExtends(p: PhaseOne, l: Leg)
    ensures p.sent <= Conclude(p, l).sent && p.receives <= Conclude(p, l).receives
    ensures p.key.Ok? ==> Conclude(p, l).receives == p.receives + l.receives && Conclude(p, l).sent == p.sent + l.sent
    ensures p.key.Ok? ==> Conclude(p, l).result == Channel(p.key.value, l.result)
  {
  }

  /** What an initiator in phase 2 hears of a responder that has sent its agree and
      at most its challenge: never an identity. */
  lemma HearsNoIdentity(x: Side, agree: Bytes, id1: U32, more: seq<Bytes>, challenge: Bytes, id2: U32)
    requires Listens(x) && Reserved(x, id1) && |agree| <= 2 * MAX_FRAGMENT && |challenge| <= MAX_FRAGMENT
    requires PacketsIn(x.inbox) == Wrap(FLAG_AGREE, agree, id1) + more
    requires more == [] || more == Wrap(FLAG_CHALLENGE, challenge, id2)
    ensures Nth(x.heard, 2) == Err(TransportClosed)
    ensures more == [] ==> Nth(x.heard, 1) == Err(TransportClosed)
  {
    var a, b := Sealing(FLAG_AGREE, agree, id1), Sealing(FLAG_CHALLENGE, challenge, id2);
    WrapFrames(FLAG_AGREE, agree, id1);
    WrapFrames(FLAG_CHALLENGE, challenge, id2);
    OneParcel(a);
    OneLineup(x.conn, x.f, x.trace, a);
    if more == [] {
      HearsNoMore(x.conn, x.f, x.inbox, x.trace, x.heard, [a]);
    } else {
      TwoParcels(a, b);
      assert [a, b][..1] == [a];
      assert HasItsWay(x.conn, x.f, x.trace, [a], 0);
      assert HasItsWay(x.conn, x.f, x.trace, [a, b], 0);
      HearsNoMore(x.conn, x.f, x.inbox, x.trace, x.heard, [a, b]);
    }
  }

  /** The responder's phase 2 on a connection on which request and finish are
      followed by what an honest initiator sends. */
  lemma ResponderSide(c: Suite, x: Side, request: Bytes, id1: U32, finish: Bytes, id2: U32,
                      pub: Bytes, nonce: Identity.Nonce, rest: seq<Bytes>, data: Bytes, id3: U32,
                      rnd: Randomness, st: Setting)
    requires IdealAead(c) && HashExpansion.IsHash(c.sha256) && |st.e.sessionKey| == 32 && |pub| == SIGN_PUBLIC_SIZE
    requires Listens(x) && |request| <= MAX_FRAGMENT && |finish| <= MAX_FRAGMENT && OnlySignatureNext(rest, data, id3)
    requires PacketsIn(x.inbox) == (Wrap(FLAG_REQUEST, request, id1) + Wrap(FLAG_FINISH, finish, id2))
                                   + ([IdentityPacket(c, st.e.sessionKey, pub, nonce)] + rest)
    requires Unshared(x, MisreadId(nonce)) && 2 + ResponderRest(c, rnd, st, x.heard).receives <= |x.heard|
    ensures var l, sealed := ResponderRest(c, rnd, st, x.heard), SealedText(c, st.e.sessionKey, pub, nonce);
      var challenge := SealedText(c, st.e.sessionKey, rnd.challenge, rnd.nonce1);
      && |sealed| == 60 && l.result.Err?
      && l.sent == (if Passes(c, st.e, nonce, sealed) && 1 <= st.left
                    then Wrap(FLAG_CHALLENGE, challenge, rnd.id2) else [])
      && (!Passes(c, st.e, nonce, sealed) ==> l.result == Err(Refusal(c, st.e, nonce, sealed, rest)))
  {
    var key := st.e.sessionKey;
    var packet, sealed := IdentityPacket(c, key, pub, nonce), SealedText(c, key, pub, nonce);
    IdentityPacketParses(c, key, pub, nonce);
    AlwaysReceives(c, rnd, st, x.heard);
    HearsBareThird(x, request, id1, finish, id2, packet, nonce, sealed, rest, data, id3);
    ResponderFails(c, st.e, st.binding, rnd, st.left, nonce, sealed, rest, data, Nth(x.heard, 3), Nth(x.heard, 4));
  }

  lemma HearsBareThird(x: Side, request: Bytes, id1: U32, finish: Bytes, id2: U32, packet: Bytes, nonce: Identity.Nonce,
                       sealed: Bytes, rest: seq<Bytes>, data: Bytes, id3: U32)
    requires ReadsBare(packet, nonce, sealed) && Unshared(x, MisreadId(nonce)) && OnlySignatureNext(rest, data, id3)
    requires Listens(x) && 3 <= |x.heard| && |request| <= MAX_FRAGMENT && |finish| <= MAX_FRAGMENT
    requires PacketsIn(x.inbox)
      == (Wrap(FLAG_REQUEST, request, id1) + Wrap(FLAG_FINISH, finish, id2)) + ([packet] + rest)
    ensures Nth(x.heard, 2) == ThirdHearing(nonce, sealed, rest, data)
  {
    var a, b := Sealing(FLAG_REQUEST, request, id1), Sealing(FLAG_FINISH, finish, id2);
    WrapFrames(FLAG_REQUEST, request, id1);
    WrapFrames(FLAG_FINISH, finish, id2);
    TwoParcels(a, b);
    assert Stream([a, b]) + [packet] + rest == Stream([a, b]) + ([packet] + rest);
    HearsThird(x, a, b, packet, nonce, sealed, rest, data, id3);
  }

  lemma AlwaysReceives(c: Suite, rnd: Randomness, st: Setting, heard: seq<Hearing>)
    requires HashExpansion.IsHash(c.sha256)
    ensures 1 <= ResponderRest(c, rnd, st, heard).receives
  {
    VerifyingSends(c, st.e, st.binding, rnd, st.left, Nth(heard, 2), Nth(heard, 3));
  }

  /** The initiator's phase 2 on a connection on which the agree is followed by at
      most a challenge. */
  lemma InitiatorSide(c: Suite, x: Side, agree: Bytes, id1: U32, more: seq<Bytes>, challenge: Bytes, id2: U32,
                      rnd: Randomness, st: Setting)
    requires IdealAead(c) && SignatureSizes(c) && HashExpansion.IsHash(c.sha256)
    requires |st.e.sessionKey| == 32 && 1 <= st.left
    requires Listens(x) && Reserved(x, id1) && |agree| <= 2 * MAX_FRAGMENT && |challenge| <= MAX_FRAGMENT
    requires PacketsIn(x.inbox) == Wrap(FLAG_AGREE, agree, id1) + more
    requires more == [] || more == Wrap(FLAG_CHALLENGE, challenge, id2)
    ensures var l := InitiatorRest(c, rnd, st, x.heard);
      && l.result.Err?
      && (more == [] ==> l.result == Err(ReceivingFailed(TransportClosed))
                         && l.sent == [IdentityPacket(c, st.e.sessionKey, st.e.publicKey, rnd.nonce1)])
  {
    var h1, h2, h3 := Nth(x.heard, 1), Nth(x.heard, 2), Nth(x.heard, 3);
    HearsNoIdentity(x, agree, id1, more, challenge, id2);
    var l := InitiatorSends(c, st.e, st.binding, rnd, st.left, h1, h2, h3);
    InitiatorTwoExactly(c, st.e, st.binding, rnd, st.left, h1, h2, h3);
  }

  /** Two honest drivers and everything that is assumed about the world around
      them: room to send, and buffers in which others do not use their ids. */
  ghost predicate Honest(c: Suite, whoA: Party, whoB: Party, ra: Randomness, rb: Randomness, budgetA: nat, budgetB: nat,
                         xA: Side, xB: Side) {
    && Laws(c) && ra.seed.Some? && rb.seed.Some? && |whoA.publicKey| == SIGN_PUBLIC_SIZE
    && 3 <= budgetA && 2 <= budgetB
    && Joined(InitiatorRun(c, whoA, ra, budgetA, xA.heard), ResponderRun(c, whoB, rb, budgetB, xB.heard), xA, xB)
    && Reserved(xA, rb.id1) && Unshared(xB, MisreadId(ra.nonce1))
  }

  lemma HonestConnected(c: Suite, whoA: Party, whoB: Party, ra: Randomness, rb: Randomness,
                        budgetA: nat, budgetB: nat, xA: Side, xB: Side)
    requires Honest(c, whoA, whoB, ra, rb, budgetA, budgetB, xA, xB)
    ensures Connected(c, ra, rb, budgetA, budgetB, xA, xB)
  {
    var p, q := First(c, ra, budgetA, xA), Second(c, rb, budgetB, xB);
    ConcludeExtends(p, InitiatorRest(c, ra, SettingOf(c, whoA, budgetA, p), xA.heard));
    ConcludeExtends(q, ResponderRest(c, rb, SettingOf(c, whoB, budgetB, q), xB.heard));
  }

  /** Phase 2 of two drivers that have played through phase 1. */
  ghost predicate SecondHalf(c: Suite, ra: Randomness, rb: Randomness, p: PhaseOne, q: PhaseOne, stA: Setting,
                             stB: Setting, xA: Side, xB: Side)
    requires HashExpansion.IsHash(c.sha256)
  {
    var lA, lB := InitiatorRest(c, ra, stA, xA.heard), ResponderRest(c, rb, stB, xB.heard);
    && Listens(xA) && 1 + lA.receives <= |xA.heard| && PacketsIn(xA.inbox) == q.sent + lB.sent
    && Listens(xB) && 2 + lB.receives <= |xB.heard| && PacketsIn(xB.inbox) == p.sent + lA.sent
  }

  lemma SecondHalfFails(c: Suite, ra: Randomness, rb: Randomness, p: PhaseOne, q: PhaseOne, stA: Setting, stB: Setting,
                        xA: Side, xB: Side,
                        request: Bytes, agree: Bytes, finish: Bytes)
    requires Laws(c) && SecondHalf(c, ra, rb, p, q, stA, stB, xA, xB)
    requires |request| <= MAX_FRAGMENT && |finish| <= MAX_FRAGMENT && |agree| <= 2 * MAX_FRAGMENT
    requires p.sent == Wrap(FLAG_REQUEST, request, ra.id1) + Wrap(FLAG_FINISH, finish, ra.id2)
    requires q.sent == Wrap(FLAG_AGREE, agree, rb.id1)
    requires stA.e.sessionKey == stB.e.sessionKey && |stA.e.sessionKey| == 32 && |stA.e.publicKey| == SIGN_PUBLIC_SIZE
    requires 1 <= stA.left
    requires Reserved(xA, rb.id1) && Unshared(xB, MisreadId(ra.nonce1))
    ensures var lA, lB := InitiatorRest(c, ra, stA, xA.heard), ResponderRest(c, rb, stB, xB.heard);
      var sealed := SealedText(c, stA.e.sessionKey, stA.e.publicKey, ra.nonce1);
      && |sealed| == 60 && lA.result.Err? && lB.result.Err?
      && (lB.sent != [] <==> Passes(c, stB.e, ra.nonce1, sealed) && 1 <= stB.left)
      && (!Passes(c, stB.e, ra.nonce1, sealed) ==>
            && lA.result == Err(ReceivingFailed(TransportClosed))
            && lB.result == Err(Refusal(c, stB.e, ra.nonce1, sealed, [])))
      && (!Passes(c, stB.e, ra.nonce1, sealed) ==>
            lA.sent == [IdentityPacket(c, stA.e.sessionKey, stA.e.publicKey, ra.nonce1)] && lB.sent == [])
  {
    var lA := InitiatorRest(c, ra, stA, xA.heard);
    var rest, data := lA.sent[1..], SignatureFor(c, stA.e, stA.binding, ra.nonce2, Nth(xA.heard, 1));
    var challenge := SealedText(c, stB.e.sessionKey, rb.challenge, rb.nonce1);
    var l := InitiatorSends(c, stA.e, stA.binding, ra, stA.left, Nth(xA.heard, 1), Nth(xA.heard, 2), Nth(xA.heard, 3));
    assert lA.sent == [lA.sent[0]] + rest;
    ResponderSide(c, xB, request, ra.id1, finish, ra.id2, stA.e.publicKey, ra.nonce1, rest, data, ra.id3, rb, stB);
    ChallengeIsShort(c, stB.e, rb);
    InitiatorSide(c, xA, agree, rb.id1, ResponderRest(c, rb, stB, xB.heard).sent, challenge, rb.id2, ra, stA);
  }

  /** How an honest run ends, from what phase 1 has left: e is the responder's
      exchange, `sealed` the initiator's public key under the session key. Both
      fail; the responder sends a challenge if and only if the identity packet
      passes and there is room; if it does not pass, the responder sends nothing
      more and ends with the given error, and the initiator ends because the
      connection closes while it waits for a challenge. */
  predicate EndsBadly(c: Suite, e: Identity.Exchange, nonce: Identity.Nonce, sealed: Bytes, packet: Bytes, room: bool,
                      p: PhaseOne, q: PhaseOne, a: Run, b: Run)
    requires HashExpansion.IsHash(c.sha256) && |sealed| == 60
  {
    && a.result.Err? && b.result.Err?
    && (b.sent != q.sent <==> Passes(c, e, nonce, sealed) && room)
    && (!Passes(c, e, nonce, sealed) ==>
          && a.result == Err(ReceivingFailed(TransportClosed)) && a.sent == p.sent + [packet]
          && b.result == Err(Refusal(c, e, nonce, sealed, [])) && b.sent == q.sent)
  }

  /** The README promises that two peers verify each other. Two honest drivers
      never do, whatever they draw at random: phase 1 gives both the same key, and
      then both end with an error. */
  lemma HonestDriversFail(c: Suite, whoA: Party, whoB: Party, ra: Randomness, rb: Randomness,
                          budgetA: nat, budgetB: nat, xA: Side, xB: Side)
    requires Honest(c, whoA, whoB, ra, rb, budgetA, budgetB, xA, xB)
    ensures var a, b := InitiatorRun(c, whoA, ra, budgetA, xA.heard), ResponderRun(c, whoB, rb, budgetB, xB.heard);
      var p, q := First(c, ra, budgetA, xA), Second(c, rb, budgetB, xB);
      var sealed, packet := SealedText(c, KeyOf(p), whoA.publicKey, ra.nonce1),
                            IdentityPacket(c, KeyOf(p), whoA.publicKey, ra.nonce1);
      && p.key.Ok? && p.key == q.key && |sealed| == 60
      && EndsBadly(c, Begin(KeyOf(q), whoB), ra.nonce1, sealed, packet, 3 <= budgetB, p, q, a, b)
  {
    HonestConnected(c, whoA, whoB, ra, rb, budgetA, budgetB, xA, xB);
    var a1, a2, b1, b2, request, agree, finish, key := PhaseOnePlays(c, ra, rb, budgetA, budgetB, xA, xB);
    var p, q := First(c, ra, budgetA, xA), Second(c, rb, budgetB, xB);
    var stA, stB := SettingOf(c, whoA, budgetA, p), SettingOf(c, whoB, budgetB, q);
    WrapSize(FLAG_REQUEST, request, ra.id1);
    WrapSize(FLAG_FINISH, finish, ra.id2);
    WrapSize(FLAG_AGREE, agree, rb.id1);
    RunsFail(c, ra, rb, p, q, stA, stB, xA, xB, request, agree, finish, key);
  }

  lemma RunsFail(c: Suite, ra: Randomness, rb: Randomness, p: PhaseOne, q: PhaseOne, stA: Setting, stB: Setting,
                 xA: Side, xB: Side,
                 request: Bytes, agree: Bytes, finish: Bytes, key: Bytes)
    requires Laws(c)
    requires var lA, lB := InitiatorRest(c, ra, stA, xA.heard), ResponderRest(c, rb, stB, xB.heard);
      Joined(Conclude(p, lA), Conclude(q, lB), xA, xB)
    requires |request| <= MAX_FRAGMENT && |finish| <= MAX_FRAGMENT && |agree| <= 2 * MAX_FRAGMENT
    requires p.sent == Wrap(FLAG_REQUEST, request, ra.id1) + Wrap(FLAG_FINISH, finish, ra.id2) && p.receives == 1
    requires p.key == Ok(key)
    requires q.sent == Wrap(FLAG_AGREE, agree, rb.id1) && q.receives == 2 && q.key == Ok(key)
    requires stA.e.sessionKey == stB.e.sessionKey == key && |key| == 32 && |stA.e.publicKey| == SIGN_PUBLIC_SIZE
    requires 1 <= stA.left
    requires Reserved(xA, rb.id1) && Unshared(xB, MisreadId(ra.nonce1))
    ensures var lA, lB := InitiatorRest(c, ra, stA, xA.heard), ResponderRest(c, rb, stB, xB.heard);
      var sealed, packet := SealedText(c, key, stA.e.publicKey, ra.nonce1),
                            IdentityPacket(c, key, stA.e.publicKey, ra.nonce1);
      && |sealed| == 60
      && EndsBadly(c, stB.e, ra.nonce1, sealed, packet, 1 <= stB.left, p, q, Conclude(p, lA), Conclude(q, lB))
  {
    var lA, lB := InitiatorRest(c, ra, stA, xA.heard), ResponderRest(c, rb, stB, xB.heard);
    ConcludeExtends(p, lA);
    ConcludeExtends(q, lB);
    SecondHalfFails(c, ra, rb, p, q, stA, stB, xA, xB, request, agree, finish);
    NothingMore(q.sent, lB.sent);
  }

  lemma NothingMore(a: seq<Bytes>, b: seq<Bytes>)
    ensures a + b == a <==> b == []
  {
    assert |a + b| == |a| + |b|;
  }

  // ---------- Such runs exist ----------

  /** A receiver alone on an empty buffer that has read its whole inbox and found
      the connection closed five times. */
  function Reader(conn: nat, packets: seq<Bytes>): Side {
    var inbox := seq(|packets|, k requires 0 <= k < |packets| => Arrival(packets[k], 0, 0));
    var trace := seq(|packets|, k requires 0 <= k < |packets| => Event(conn, packets[k], {}));
    Side(conn, map[], inbox, trace, Returned(Answers(conn, map[], trace)) + seq(5, _ => Err(TransportClosed)))
  }

  lemma ReaderListens(conn: nat, packets: seq<Bytes>)
    ensures var x := Reader(conn, packets);
      && Listens(x) && PacketsIn(x.inbox) == packets && 5 <= |x.heard|
      && (forall id :: Reserved(x, id) && Unshared(x, id))
  {
    var x := Reader(conn, packets);
    AloneReadsAll(conn, x.trace);
    assert PacketsOf(x.trace) == packets && PacketsIn(x.inbox) == packets;
    forall k | 0 <= k < |x.trace| ensures PurgeFine(x.f, x.trace, k) {
      assert x.trace[k].evicted == {};
    }
    forall id, k: nat | k < |x.trace| ensures Leaves(conn, id, x.f, x.trace, k) {
      assert x.trace[k].evicted == {};
    }
  }

  /** Readers of what the other side sends up to the identity packet. */
  lemma ReadersHear(ra: Randomness, rb: Randomness, request: Bytes, agree: Bytes, finish: Bytes, packet: Bytes)
    returns (xA: Side, xB: Side)
    requires |request| <= MAX_FRAGMENT && |finish| <= MAX_FRAGMENT && |agree| <= 2 * MAX_FRAGMENT
    ensures Listens(xA) && 5 <= |xA.heard| && Reserved(xA, rb.id1)
    ensures Listens(xB) && 5 <= |xB.heard| && Unshared(xB, MisreadId(ra.nonce1))
    ensures xA.heard[0] == Ok((FLAG_AGREE, agree))
    ensures xB.heard[0] == Ok((FLAG_REQUEST, request)) && xB.heard[1] == Ok((FLAG_FINISH, finish))
    ensures PacketsIn(xA.inbox) == Wrap(FLAG_AGREE, agree, rb.id1)
    ensures PacketsIn(xB.inbox) == (Wrap(FLAG_REQUEST, request, ra.id1) + Wrap(FLAG_FINISH, finish, ra.id2)) + [packet]
  {
    var asked, answered := Wrap(FLAG_REQUEST, request, ra.id1) + Wrap(FLAG_FINISH, finish, ra.id2),
                           Wrap(FLAG_AGREE, agree, rb.id1);
    xA, xB := Reader(0, answered), Reader(1, asked + [packet]);
    ReaderListens(0, answered);
    ReaderListens(1, asked + [packet]);
    HearsFirst(xA, FLAG_AGREE, agree, rb.id1);
    HearsSecond(xB, FLAG_REQUEST, request, ra.id1, FLAG_FINISH, finish, ra.id2);
  }

  lemma ReadersAgree(c: Suite, ra: Randomness, rb: Randomness, budgetA: nat, budgetB: nat, pub: Bytes)
    returns (xA: Side, xB: Side, request: Bytes, agree: Bytes, finish: Bytes, key: Bytes)
    requires Laws(c) && ra.seed.Some? && rb.seed.Some? && 3 <= budgetA && 2 <= budgetB
    ensures Listens(xA) && 5 <= |xA.heard| && Reserved(xA, rb.id1)
    ensures Listens(xB) && 5 <= |xB.heard| && Unshared(xB, MisreadId(ra.nonce1))
    ensures |request| <= MAX_FRAGMENT && |finish| <= MAX_FRAGMENT && |agree| <= 2 * MAX_FRAGMENT && |key| == 32
    ensures var p, q := First(c, ra, budgetA, xA), Second(c, rb, budgetB, xB);
      && p.sent == Wrap(FLAG_REQUEST, request, ra.id1) + Wrap(FLAG_FINISH, finish, ra.id2)
      && p.receives == 1 && p.key == Ok(key)
      && q.sent == Wrap(FLAG_AGREE, agree, rb.id1) && q.receives == 2 && q.key == Ok(key)
      && |p.sent| == 2 && |q.sent| == 2
      && PacketsIn(xA.inbox) == q.sent && PacketsIn(xB.inbox) == p.sent + [IdentityPacket(c, key, pub, ra.nonce1)]
  {
    var a1, a2, b1, b2, r, g, n, k := PlayScript(c, ra, rb);
    request, agree, finish, key := r, g, n, k;
    WrapSize(FLAG_REQUEST, request, ra.id1);
    WrapSize(FLAG_FINISH, finish, ra.id2);
    WrapSize(FLAG_AGREE, agree, rb.id1);
    xA, xB := ReadersHear(ra, rb, request, agree, finish, IdentityPacket(c, key, pub, ra.nonce1));
    InitiatorEnds(c, ra, budgetA, a1, request, agree, a2, finish);
    ResponderEnds(c, rb, budgetB, request, b1, agree, finish, b2);
  }

  /** With the responder waiting in vain, both phase 2 come to their end. */
  lemma ReadersEnd(c: Suite, ra: Randomness, rb: Randomness, stA: Setting, stB: Setting, xA: Side, xB: Side,
                   request: Bytes, agree: Bytes, finish: Bytes)
    requires Laws(c)
    requires stA.e.sessionKey == stB.e.sessionKey && |stA.e.sessionKey| == 32 && |stA.e.publicKey| == SIGN_PUBLIC_SIZE
    requires 1 <= stA.left
    requires Listens(xA) && 5 <= |xA.heard| && Reserved(xA, rb.id1)
    requires Listens(xB) && 5 <= |xB.heard| && Unshared(xB, MisreadId(ra.nonce1))
    requires |request| <= MAX_FRAGMENT && |finish| <= MAX_FRAGMENT && |agree| <= 2 * MAX_FRAGMENT
    requires PacketsIn(xA.inbox) == Wrap(FLAG_AGREE, agree, rb.id1)
    requires PacketsIn(xB.inbox) == (Wrap(FLAG_REQUEST, request, ra.id1) + Wrap(FLAG_FINISH, finish, ra.id2))
                                    + [IdentityPacket(c, stA.e.sessionKey, stA.e.publicKey, ra.nonce1)]
    ensures var lA, lB := InitiatorRest(c, ra, stA, xA.heard), ResponderRest(c, rb, stB, xB.heard);
      var sealed := SealedText(c, stA.e.sessionKey, stA.e.publicKey, ra.nonce1);
      && lA.sent == [IdentityPacket(c, stA.e.sessionKey, stA.e.publicKey, ra.nonce1)]
      && |sealed| == 60 && (!Passes(c, stB.e, ra.nonce1, sealed) ==> lB.sent == [])
      && lA.receives <= 3 && lB.receives <= 3
  {
    var packet, answered := IdentityPacket(c, stA.e.sessionKey, stA.e.publicKey, ra.nonce1),
                            Wrap(FLAG_AGREE, agree, rb.id1);
    assert answered + [] == answered && [packet] + [] == [packet];
    FewReceives(c, ra, rb, stA, stB, xA.heard, xB.heard);
    ResponderSide(c, xB, request, ra.id1, finish, ra.id2, stA.e.publicKey, ra.nonce1, [], [], 0, rb, stB);
    InitiatorSide(c, xA, agree, rb.id1, [], [], 0, ra, stA);
  }

  /** Unless the identity packet happens to pass, an honest run is what happens on
      a connection that delivers exactly what the two drivers send: the theorems
      above are not about nothing. */
  lemma HonestRunExists(c: Suite, whoA: Party, whoB: Party, ra: Randomness, rb: Randomness, budgetA: nat, budgetB: nat)
    returns (xA: Side, xB: Side)
    requires Laws(c) && ra.seed.Some? && rb.seed.Some? && |whoA.publicKey| == SIGN_PUBLIC_SIZE
    requires 3 <= budgetA && 2 <= budgetB
    ensures var p, q := First(c, ra, budgetA, xA), Second(c, rb, budgetB, xB);
      var sealed := SealedText(c, KeyOf(p), whoA.publicKey, ra.nonce1);
      && |sealed| == 60
      && (Passes(c, Begin(KeyOf(q), whoB), ra.nonce1, sealed)
          || Honest(c, whoA, whoB, ra, rb, budgetA, budgetB, xA, xB))
  {
    var request, agree, finish, key;
    xA, xB, request, agree, finish, key := ReadersAgree(c, ra, rb, budgetA, budgetB, whoA.publicKey);
    var p, q := First(c, ra, budgetA, xA), Second(c, rb, budgetB, xB);
    var stA, stB := SettingOf(c, whoA, budgetA, p), SettingOf(c, whoB, budgetB, q);
    ReadersEnd(c, ra, rb, stA, stB, xA, xB, request, agree, finish);
    if !Passes(c, stB.e, ra.nonce1, SealedText(c, key, whoA.publicKey, ra.nonce1)) {
      ReadersJoin(p, q, InitiatorRest(c, ra, stA, xA.heard), ResponderRest(c, rb, stB, xB.heard), xA, xB);
    }
  }

  lemma ReadersJoin(p: PhaseOne, q: PhaseOne, lA: Leg, lB: Leg, xA: Side, xB: Side)
    requires p.key.Ok? && q.key.Ok? && Listens(xA) && Listens(xB)
    requires p.receives + lA.receives <= |xA.heard| && q.receives + lB.receives <= |xB.heard|
    requires PacketsIn(xA.inbox) == q.sent && lB.sent == [] && PacketsIn(xB.inbox) == p.sent + lA.sent
    ensures Joined(Conclude(p, lA), Conclude(q, lB), xA, xB)
  {
    ConcludeExtends(p, lA);
    ConcludeExtends(q, lB);
    assert q.sent + [] == q.sent;
  }

  lemma FewReceives(c: Suite, ra: Randomness, rb: Randomness, stA: Setting, stB: Setting, heardA: seq<Hearing>,
                    heardB: seq<Hearing>)
    requires HashExpansion.IsHash(c.sha256)
    ensures InitiatorRest(c, ra, stA, heardA).receives <= 3 && ResponderRest(c, rb, stB, heardB).receives <= 3
  {
  }

  // ---------- The signatures ----------

  /** A challenge, answered honestly and checked: the verdict is that of a
      signature over the opened challenge and the prover's binding, checked
      against the challenge as it was sent and the verifier's binding. */
  lemma HonestAnswerVerdict(c: Suite, key: Bytes, challenge: Bytes, n1: Identity.Nonce, n2: Identity.Nonce,
                            prover: Identity.Exchange, verifier: Identity.Exchange, pub: Bytes,
                            pBinding: Bytes, vBinding: Bytes)
    requires IdealAead(c) && SignatureSizes(c) && |key| == 32 && prover.sessionKey == key && verifier.sessionKey == key
    requires |prover.privateKey| == SIGN_PRIVATE_SIZE && |pub| == SIGN_PUBLIC_SIZE && verifier.peerKey == Some(pub)
    ensures var sealed := SealedText(c, key, challenge, n1);
      var answer := Identity.HandleChallenge(c, prover, sealed, pBinding, key, n2);
      && answer.Sealed?
      && var valid := c.verify(pub, sealed + vBinding + key, c.sign(prover.privateKey, challenge + pBinding + key));
      && Identity.VerifyResponse(c, verifier, answer.bytes, sealed, vBinding, key).1 == Identity.Verdict(valid)
      && Checking(c, verifier, sealed, vBinding, Ok((FLAG_SIGNATURE, answer.bytes))).result
         == if valid then Ok([]) else Err(VerificationFailed)
  {
    Identity.DecryptEncrypt(c, key, challenge, n1);
    Identity.DecryptEncrypt(c, key, c.sign(prover.privateKey, challenge + pBinding + key), n2);
  }

  /** The channel bindings after an undisturbed phase 1: the initiator's public key
      and then the responder's on the one side, the initiator's alone on the other,
      because the responder has dropped its keypair by then. */
  lemma BindingsByKeys(c: Suite, ra: Randomness, rb: Randomness, a2: Handshake.Hs, b2: Handshake.Hs)
    requires ra.seed.Some? && rb.seed.Some?
    requires a2.keypair == ra.seed && a2.peer == c.kemPublic(rb.seed.value)
    requires b2.keypair == None && b2.peer == c.kemPublic(ra.seed.value)
    ensures Binding(c, a2) == c.kemPublic(ra.seed.value) + c.kemPublic(rb.seed.value)
    ensures Binding(c, b2) == c.kemPublic(ra.seed.value)
  {
  }

  /** After an undisturbed phase 1 the message signed and the message checked are
      never the same, in neither direction and whatever the challenges: the
      challenge is signed as opened and checked as sent, and the two bindings
      differ. */
  lemma SignedIsNotChecked(c: Suite, ra: Randomness, rb: Randomness, a1: Handshake.Hs, a2: Handshake.Hs,
                           b1: Handshake.Hs, b2: Handshake.Hs,
                           request: Bytes, agree: Bytes, finish: Bytes, key: Bytes)
    requires Laws(c) && ra.seed.Some? && rb.seed.Some?
    requires Script(c, ra, rb, a1, a2, b1, b2, request, agree, finish, key)
    ensures var pubA, pubB := c.kemPublic(ra.seed.value), c.kemPublic(rb.seed.value);
      && Binding(c, a2) == pubA + pubB && Binding(c, b2) == pubA
      && rb.challenge + (pubA + pubB) + key != SealedText(c, key, rb.challenge, rb.nonce1) + pubA + key
      && ra.challenge + pubA + key != SealedText(c, key, ra.challenge, ra.nonce3) + (pubA + pubB) + key
  {
    var a1', a2', b1', b2', request', agree', finish', key' := PlayScript(c, ra, rb);
    var pubA, pubB := c.kemPublic(ra.seed.value), c.kemPublic(rb.seed.value);
    BindingsByKeys(c, ra, rb, a2, b2);
    Identity.DecryptEncrypt(c, key, rb.challenge, rb.nonce1);
    Identity.DecryptEncrypt(c, key, ra.challenge, ra.nonce3);
    assert |pubA| == |pubB| == KEM_PUBLIC_SIZE;
    LongerDiffer(rb.challenge + (pubA + pubB) + key, SealedText(c, key, rb.challenge, rb.nonce1) + pubA + key);
    LongerDiffer(ra.challenge + pubA + key, SealedText(c, key, ra.challenge, ra.nonce3) + (pubA + pubB) + key);
  }

  lemma LongerDiffer(a: Bytes, b: Bytes)
    ensures |a| != |b| ==> a != b
  {
  }
}
