/** The two drivers as step sequences over the transport, the fragment buffer,
    the handshake and the identity exchange (cmd/pqc-chart-tool/main.go). */
module Driver {
  import opened Basics
  import opened Messages
  import opened Fragment
  import opened Reassembly
  import opened Receivers
  import opened Crypto
  import Handshake
  import Identity

  const MAX_FRAGMENT := 1400

  datatype DriverError =
    | HandshakeFailed(handshake: Handshake.HandshakeError)
    | SendingFailed
    | ReceivingFailed(receive: ReceiveError)
    | UnexpectedMessageType
    | IdentityFailed(identity: Identity.IdentityError)
    | VerificationFailed

  datatype SecureChannel = SecureChannel(sessionKey: Bytes)

  /** Everything a driver draws at random. */
  datatype Randomness = Randomness(
    seed: Option<Handshake.Seed>,
    coins: Bytes,
    id1: U32, id2: U32, id3: U32, id4: U32,
    challenge: Identity.Challenge,
    nonce1: Identity.Nonce, nonce2: Identity.Nonce, nonce3: Identity.Nonce)

  // ---------- What a driver hears ----------

  /** The k-th message a driver has received; before that, nothing. */
  function Nth(heard: seq<Hearing>, k: nat): Hearing {
    if k < |heard| then heard[k] else Err(TransportClosed)
  }

  function Expect(flag: Byte, heard: Hearing): Result<Bytes, DriverError> {
    match heard
    case Err(e) => Err(ReceivingFailed(e))
    case Ok((got, data)) => if got != flag then Err(UnexpectedMessageType) else Ok(data)
  }

  /** A message is accepted exactly if it was heard with the flag that is due; any
      other flag is an unexpected message, and a failing receive stays what it is. */
  lemma ExpectExactly(flag: Byte, heard: Hearing, data: Bytes)
    ensures Expect(flag, heard) == Ok(data) <==> heard == Ok((flag, data))
    ensures Expect(flag, heard) == Err(UnexpectedMessageType) <==> heard.Ok? && heard.value.0 != flag
    ensures heard.Err? ==> Expect(flag, heard) == Err(ReceivingFailed(heard.error))
  {
  }

  /** A connection and the buffer its messages are reassembled in, with the turns
      taken and the messages heard so far. */
  class Session {
    const conn: Transport
    const buffer: FragmentBuffer
    const connID: nat
    ghost const inbox: seq<Arrival>
    ghost const f: Fragments
    ghost const start: int
    ghost var arrivals: seq<Arrival>
    ghost var trace: seq<Event>
    ghost var heard: seq<Hearing>

    /** The buffer has got where the turns lead that this receiver and any others
        have taken, and this receiver's calls have returned what was heard. */
    ghost predicate Valid()
      reads this, conn`inbox, buffer`fragments, buffer`lastClean
    {
      && Keeps(connID, buffer.timeout, start, f, inbox, arrivals, trace, heard)
      && Reached(buffer.timeout, start, f, arrivals, trace, buffer.fragments, buffer.lastClean)
      && TakenFrom(inbox, OwnArrivals(connID, arrivals, trace), conn.inbox)
    }

    constructor (conn: Transport, buffer: FragmentBuffer, connID: nat)
      ensures Valid() && heard == [] && this.conn == conn && this.buffer == buffer
      ensures inbox == conn.inbox && f == buffer.fragments && start == buffer.lastClean
    {
      this.conn, this.buffer, this.connID := conn, buffer, connID;
      inbox, f, start := conn.inbox, buffer.fragments, buffer.lastClean;
      arrivals, trace, heard := [], [], [];
    }

    method Receive(flag: Byte) returns (r: Result<Bytes, DriverError>)
      requires Valid()
      modifies this`arrivals, this`trace, this`heard, conn`inbox, buffer
      ensures Valid()
      ensures |heard| == |old(heard)| + 1 && old(heard) <= heard
      ensures var got := heard[|old(heard)|];
        && r == Expect(flag, got)
        && (r.Ok? <==> got.Ok? && got.value.0 == flag) && (r.Ok? ==> got == Ok((flag, r.value)))
        && (got.Ok? && got.value.0 != flag ==> r == Err(UnexpectedMessageType))
    {
      var got, more, evs := buffer.ReceiveFragmented(conn, connID);
      KeepsOneMore(connID, buffer.timeout, start, f, inbox, arrivals, trace, heard, more, evs, conn.inbox);
      ReachedOneMore(buffer.timeout, start, f, arrivals, trace, more, evs);
      arrivals, trace, heard := arrivals + more, trace + evs, heard + [got];
      if got.Err? {
        return Err(ReceivingFailed(got.error));
      }
      var (gotFlag, data) := got.value;
      if gotFlag != flag {
        return Err(UnexpectedMessageType);
      }
      return Ok(data);
    }

    method Say(flag: Byte, data: Bytes, id: U32) returns (r: Result<(), DriverError>)
      modifies conn`sent, conn`sendsLeft
      ensures var ps := Wrap(flag, data, id);
        && r == (if |ps| <= old(conn.sendsLeft) then Ok(()) else Err(SendingFailed))
        && conn.sent == old(conn.sent) + Through(ps, old(conn.sendsLeft))
        && conn.sendsLeft == old(conn.sendsLeft) - |Through(ps, old(conn.sendsLeft))|
    {
      var sent := SendFragmented(conn, data, flag, MAX_FRAGMENT, id);
      return if sent.Ok? then Ok(()) else Err(SendingFailed);
    }
  }

  /** The packets of which at most `budget` get through. */
  function Through(packets: seq<Bytes>, budget: nat): seq<Bytes> {
    packets[..Min(|packets|, budget)]
  }

  lemma ThroughAll(packets: seq<Bytes>, budget: nat)
    ensures |packets| <= budget ==> Through(packets, budget) == packets
  {
  }

  lemma Assoc(a: seq<Bytes>, b: seq<Bytes>, c: seq<Bytes>)
    ensures (a + b) + c == a + (b + c)
  {
  }

  function Wrap(flag: Byte, data: Bytes, id: U32): seq<Bytes> {
    Packets(flag, data, MAX_FRAGMENT, id)
  }

  // ---------- Phase 1 ----------

  /** How phase 1 ends: the handshake object, the packets sent, the number of
      receives attempted, and the session key. */
  datatype PhaseOne = PhaseOne(hs: Handshake.Hs, sent: seq<Bytes>, receives: nat, key: Result<Bytes, DriverError>)

  function ReplyOf(r: Handshake.Reply): Result<Bytes, DriverError> {
    match r
    case Out(bytes) => Ok(bytes)
    case Done => Ok([])
    case Failed(e) => Err(HandshakeFailed(e))
  }

  function InitiatorOne(c: Suite, rnd: Randomness, budget: nat, first: Hearing): (p: PhaseOne)
    ensures |p.sent| <= budget
  {
    var (h1, asked) := Handshake.Initiate(c, Handshake.FRESH, rnd.seed);
    match ReplyOf(asked)
    case Err(e) => PhaseOne(h1, [], 0, Err(e))
    case Ok(request) =>
      var p1 := Wrap(FLAG_REQUEST, request, rnd.id1);
      if budget < |p1| then PhaseOne(h1, Through(p1, budget), 0, Err(SendingFailed))
      else
        var rest := InitiatorHears(c, rnd, budget - |p1|, h1, Expect(FLAG_AGREE, first));
        rest.(sent := p1 + rest.sent)
  }

  function InitiatorHears(c: Suite, rnd: Randomness, budget: nat, h1: Handshake.Hs,
                          agree: Result<Bytes, DriverError>): (p: PhaseOne)
    ensures |p.sent| <= budget
  {
    match agree
    case Err(e) => PhaseOne(h1, [], 1, Err(e))
    case Ok(data) => InitiatorFinishes(c, rnd, budget, h1, data)
  }

  function InitiatorFinishes(c: Suite, rnd: Randomness, budget: nat, h1: Handshake.Hs, agree: Bytes): (p: PhaseOne)
    ensures |p.sent| <= budget
  {
    var (h2, answer) := Handshake.HandleAgree(c, h1, agree, rnd.coins);
    match ReplyOf(answer)
    case Err(e) => PhaseOne(h2, [], 1, Err(e))
    case Ok(finish) =>
      var p2 := Wrap(FLAG_FINISH, finish, rnd.id2);
      PhaseOne(h2, Through(p2, budget), 1,
               if budget < |p2| then Err(SendingFailed) else ReplyOf(Handshake.DeriveSessionKey(c, h2)))
  }

  function ResponderOne(c: Suite, rnd: Randomness, budget: nat, first: Hearing, second: Hearing): (p: PhaseOne)
    ensures |p.sent| <= budget
  {
    match Expect(FLAG_REQUEST, first)
    case Err(e) => PhaseOne(Handshake.FRESH, [], 1, Err(e))
    case Ok(request) =>
      var (h1, answer) := Handshake.HandleRequest(c, Handshake.FRESH, request, rnd.seed, rnd.coins);
      match ReplyOf(answer)
      case Err(e) => PhaseOne(h1, [], 1, Err(e))
      case Ok(agree) =>
        var p1 := Wrap(FLAG_AGREE, agree, rnd.id1);
        if budget < |p1| then PhaseOne(h1, Through(p1, budget), 1, Err(SendingFailed))
        else
          ResponderHears(c, h1, Expect(FLAG_FINISH, second)).(sent := p1)
  }

  function ResponderHears(c: Suite, h1: Handshake.Hs, finish: Result<Bytes, DriverError>): PhaseOne {
    match finish
    case Err(e) => PhaseOne(h1, [], 2, Err(e))
    case Ok(data) => ResponderFinishes(c, h1, data)
  }

  function ResponderFinishes(c: Suite, h1: Handshake.Hs, finish: Bytes): PhaseOne {
    var (h2, done) := Handshake.HandleFinish(c, h1, finish);
    match ReplyOf(done)
    case Err(e) => PhaseOne(h2, [], 2, Err(e))
    case Ok(_) => PhaseOne(h2, [], 2, ReplyOf(Handshake.DeriveSessionKey(c, h2)))
  }

  /** The initiator's part of phase 1 from the agree on. */
  method FinishAsInitiator(s: Session, hs: Handshake.KEMHandshake, rnd: Randomness, agree: Bytes)
    returns (key: Result<Bytes, DriverError>)
    modifies s.conn`sent, s.conn`sendsLeft, hs
    ensures var p := InitiatorFinishes(hs.c, rnd, old(s.conn.sendsLeft), old(hs.View()), agree);
      && p == PhaseOne(hs.View(), p.sent, 1, key)
      && s.conn.sent == old(s.conn.sent) + p.sent
      && s.conn.sendsLeft == old(s.conn.sendsLeft) - |p.sent|
  {
    var answer := hs.OnAgree(agree, rnd.coins);
    var finish := ReplyOf(answer);
    if finish.Err? {
      return Err(finish.error);
    }
    var sent := s.Say(FLAG_FINISH, finish.value, rnd.id2);
    if sent.Err? {
      return Err(SendingFailed);
    }
    var derived := hs.Derive();
    return ReplyOf(derived);
  }

  /** The responder's part of phase 1 from the finish on. */
  method FinishAsResponder(hs: Handshake.KEMHandshake, finish: Bytes) returns (key: Result<Bytes, DriverError>)
    modifies hs
    ensures ResponderFinishes(hs.c, old(hs.View()), finish) == PhaseOne(hs.View(), [], 2, key)
  {
    var answer := hs.OnFinish(finish);
    var done := ReplyOf(answer);
    if done.Err? {
      return Err(done.error);
    }
    var derived := hs.Derive();
    return ReplyOf(derived);
  }

  /** The initiator's wait for the agree and what follows it. */
  method HearAsInitiator(s: Session, hs: Handshake.KEMHandshake, rnd: Randomness)
    returns (key: Result<Bytes, DriverError>)
    requires s.Valid() && s.heard == []
    modifies s`arrivals, s`trace, s`heard, s.conn, s.buffer, hs
    ensures s.Valid() && |s.heard| == 1
    ensures var p := InitiatorHears(hs.c, rnd, old(s.conn.sendsLeft), old(hs.View()),
                                    Expect(FLAG_AGREE, Nth(s.heard, 0)));
      && p == PhaseOne(hs.View(), p.sent, 1, key)
      && s.conn.sent == old(s.conn.sent) + p.sent
      && s.conn.sendsLeft == old(s.conn.sendsLeft) - |p.sent|
  {
    var agree := s.Receive(FLAG_AGREE);
    if agree.Err? {
      return Err(agree.error);
    }
    key := FinishAsInitiator(s, hs, rnd, agree.value);
  }

  method InitiatorPhaseOne(s: Session, hs: Handshake.KEMHandshake, rnd: Randomness)
    returns (key: Result<Bytes, DriverError>)
    requires s.Valid() && s.heard == [] && hs.View() == Handshake.FRESH
    modifies s`arrivals, s`trace, s`heard, s.conn, s.buffer, hs
    ensures s.Valid()
    ensures var p := InitiatorOne(hs.c, rnd, old(s.conn.sendsLeft), Nth(s.heard, 0));
      && p == PhaseOne(hs.View(), p.sent, |s.heard|, key)
      && s.conn.sent == old(s.conn.sent) + p.sent
      && s.conn.sendsLeft == old(s.conn.sendsLeft) - |p.sent|
  {
    var asked := hs.Start(rnd.seed);
    var request := ReplyOf(asked);
    if request.Err? {
      return Err(request.error);
    }
    ghost var before, p1 := s.conn.sent, Wrap(FLAG_REQUEST, request.value, rnd.id1);
    ThroughAll(p1, s.conn.sendsLeft);
    var sent := s.Say(FLAG_REQUEST, request.value, rnd.id1);
    if sent.Err? {
      return Err(SendingFailed);
    }
    ghost var left, h1 := s.conn.sendsLeft, hs.View();
    key := HearAsInitiator(s, hs, rnd);
    ghost var rest := InitiatorHears(hs.c, rnd, left, h1, Expect(FLAG_AGREE, Nth(s.heard, 0)));
    Assoc(before, p1, rest.sent);
  }

  /** The responder's wait for the finish and what follows it. */
  method HearAsResponder(s: Session, hs: Handshake.KEMHandshake) returns (key: Result<Bytes, DriverError>)
    requires s.Valid() && |s.heard| == 1
    modifies s`arrivals, s`trace, s`heard, s.conn`inbox, s.buffer, hs
    ensures s.Valid() && |s.heard| == 2 && Nth(s.heard, 0) == old(Nth(s.heard, 0))
    ensures ResponderHears(hs.c, old(hs.View()), Expect(FLAG_FINISH, Nth(s.heard, 1)))
      == PhaseOne(hs.View(), [], 2, key)
  {
    var finish := s.Receive(FLAG_FINISH);
    if finish.Err? {
      return Err(finish.error);
    }
    key := FinishAsResponder(hs, finish.value);
  }

  method ResponderPhaseOne(s: Session, hs: Handshake.KEMHandshake, rnd: Randomness)
    returns (key: Result<Bytes, DriverError>)
    requires s.Valid() && s.heard == [] && hs.View() == Handshake.FRESH
    modifies s`arrivals, s`trace, s`heard, s.conn, s.buffer, hs
    ensures s.Valid()
    ensures var p := ResponderOne(hs.c, rnd, old(s.conn.sendsLeft), Nth(s.heard, 0), Nth(s.heard, 1));
      && p == PhaseOne(hs.View(), p.sent, |s.heard|, key)
      && s.conn.sent == old(s.conn.sent) + p.sent
      && s.conn.sendsLeft == old(s.conn.sendsLeft) - |p.sent|
  {
    var request := s.Receive(FLAG_REQUEST);
    if request.Err? {
      return Err(request.error);
    }
    var answer := hs.OnRequest(request.value, rnd.seed, rnd.coins);
    var agree := ReplyOf(answer);
    if agree.Err? {
      return Err(agree.error);
    }
    ThroughAll(Wrap(FLAG_AGREE, agree.value, rnd.id1), s.conn.sendsLeft);
    var sent := s.Say(FLAG_AGREE, agree.value, rnd.id1);
    if sent.Err? {
      return Err(SendingFailed);
    }
    key := HearAsResponder(s, hs);
  }

}
