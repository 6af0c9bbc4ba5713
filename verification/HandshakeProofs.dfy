/** What the handshake object keeps over every sequence of calls, and why two
    parties with the same conversation hold the same key. */
module HandshakeProofs {
  import opened Basics
  import opened Messages
  import opened Crypto
  import opened Runs
  import opened Handshake

  datatype Call =
    | CallInitiate(seed: Option<Seed>)
    | CallRequest(request: Bytes, seed: Option<Seed>, coins: Bytes)
    | CallAgree(agree: Bytes, coins: Bytes)
    | CallFinish(finish: Bytes)
    | CallDerive

  function Step(c: Suite, h: Hs, call: Call): (Hs, Reply) {
    match call
    case CallInitiate(seed) => Initiate(c, h, seed)
    case CallRequest(request, seed, coins) => HandleRequest(c, h, request, seed, coins)
    case CallAgree(agree, coins) => HandleAgree(c, h, agree, coins)
    case CallFinish(finish) => HandleFinish(c, h, finish)
    case CallDerive => (h, DeriveSessionKey(c, h))
  }

  /** The object as a machine over its calls. */
  function Machine(c: Suite): (Hs, Call) -> (Hs, Reply) {
    (h, call) => Step(c, h, call)
  }

  // ---------- The invariant ----------

  predicate Inv(h: Hs) {
    && (h.state == WaitAgree || h.state == WaitFinish ==> h.keypair.Some?)
    && (h.state == WaitFinish || h.state == Established ==> SsB2A in h.secrets)
    && (h.state == Established ==> SsA2B in h.secrets)
    && h.state != StateFailed
  }

  predicate KeyGenerationSucceeds(call: Call) {
    match call
    case CallInitiate(seed) => seed.Some?
    case CallRequest(_, seed, _) => seed.Some?
    case _ => true
  }

  ghost predicate AllKeysGenerated(calls: seq<Call>) {
    forall k :: 0 <= k < |calls| ==> KeyGenerationSucceeds(calls[k])
  }

  lemma StepKeepsInv(c: Suite, h: Hs, call: Call)
    requires Inv(h) && KeyGenerationSucceeds(call)
    ensures Inv(Step(c, h, call).0)
  {
  }

  /** The invariant holds after every sequence of calls, whatever they are given
      and however often they fail. */
  lemma {:induction false} InvOverRuns(c: Suite, calls: seq<Call>)
    requires AllKeysGenerated(calls)
    ensures Inv(After(Machine(c), FRESH, calls))
  {
    if calls == [] {
    } else {
      var init := calls[..|calls| - 1];
      InvOverRuns(c, init);
      StepKeepsInv(c, After(Machine(c), FRESH, init), calls[|calls| - 1]);
    }
  }

  /** Hence, at every point of every such sequence: no call dereferences a missing
      keypair, and deriving succeeds exactly in the established state, so that
      "shared secrets not available" is never the answer. */
  lemma ReachableAnswers(c: Suite, calls: seq<Call>, k: nat)
    requires AllKeysGenerated(calls) && k < |calls|
    ensures var h, r := After(Machine(c), FRESH, calls[..k]), Answer(Machine(c), FRESH, calls, k);
      && h.state != StateFailed
      && r != Failed(NilKeypair) && r != Failed(SecretsNotAvailable)
      && (calls[k].CallDerive? ==> (r.Out? <==> h.state == Established))
  {
    InvOverRuns(c, calls[..k]);
  }

  /** When key generation fails the keypair is gone: the invariant survives
      exactly if no reply that needs it was awaited. */
  lemma FailedKeyGeneration(c: Suite, h: Hs, call: Call)
    requires Inv(h) && !KeyGenerationSucceeds(call)
    requires call.CallRequest? ==> DecodeRequest(call.request).Ok?
    ensures Step(c, h, call).1 == Failed(KeyGenerationFailed)
    ensures Inv(Step(c, h, call).0) <==> h.state != WaitAgree && h.state != WaitFinish
  {
  }

  // ---------- Failing calls ----------

  /** No failing call changes the state, whatever fields it has overwritten. */
  lemma FailureKeepsState(c: Suite, h: Hs, call: Call)
    ensures Step(c, h, call).1.Failed? ==> Step(c, h, call).0.state == h.state
    ensures Step(c, h, call).1.Failed? && h.state == Established ==> Step(c, h, call).0.secrets == h.secrets
  {
  }

  /** Why a request is refused, and what has been overwritten by then. */
  lemma RequestRefused(c: Suite, h: Hs, request: Bytes, seed: Option<Seed>, coins: Bytes)
    ensures var (h', r) := HandleRequest(c, h, request, seed, coins);
      match DecodeRequest(request)
      case Err(e) => h' == h && r == Failed(BadMessage(e))
      case Ok(req) =>
        && (r == Failed(KeyGenerationFailed) <==> seed == None)
        && (r == Failed(EncapsulationFailed) <==> seed.Some? && c.encap(req.kemPublicKey, coins) == None)
        && (seed == None ==> h' == h.(keypair := None))
        && (r == Failed(EncapsulationFailed) ==> h' == h.(keypair := seed, peer := req.kemPublicKey))
  {
  }

  /** Why an agree is refused by a waiting initiator: one whose ciphertext opens
      leaves its secret and its key behind even if encapsulating to it fails. */
  lemma AgreeRefused(c: Suite, h: Hs, agree: Bytes, coins: Bytes)
    requires h.state == WaitAgree && h.keypair.Some?
    ensures var (h', r) := HandleAgree(c, h, agree, coins);
      match DecodeAgree(agree)
      case Err(e) => h' == h && r == Failed(BadMessage(e))
      case Ok(agr) =>
        var secret := c.decap(h.keypair.value, agr.peerCiphertext);
        && (r == Failed(DecapsulationFailed) <==> secret == None)
        && (r == Failed(DecapsulationFailed) ==> h' == h)
        && (r == Failed(EncapsulationFailed) <==> secret.Some? && c.encap(agr.kemPublicKey, coins) == None)
        && (r == Failed(EncapsulationFailed) ==>
              h' == h.(secrets := h.secrets[SsB2A := secret.value], peer := agr.kemPublicKey))
  {
  }

  /** Why a finish is refused by a waiting responder; nothing is overwritten. */
  lemma FinishRefused(c: Suite, h: Hs, finish: Bytes)
    requires h.state == WaitFinish && h.keypair.Some?
    ensures var (h', r) := HandleFinish(c, h, finish);
      && (r.Failed? ==> h' == h)
      && match DecodeFinish(finish)
         case Err(e) => r == Failed(BadMessage(e))
         case Ok(fin) => r == Failed(DecapsulationFailed) <==> c.decap(h.keypair.value, fin.ciphertext) == None
  {
  }

  /** A call that comes in the wrong state, or without the keypair it needs,
      changes nothing. */
  lemma OutOfTurn(c: Suite, h: Hs, call: Call)
    ensures var (h', r) := Step(c, h, call);
      r == Failed(InvalidState) || r == Failed(NilKeypair) ==> h' == h
    ensures call.CallAgree? && h.state == WaitAgree && DecodeAgree(call.agree).Ok? ==>
              (Step(c, h, call).1 == Failed(NilKeypair) <==> h.keypair == None)
    ensures call.CallFinish? && h.state == WaitFinish && DecodeFinish(call.finish).Ok? ==>
              (Step(c, h, call).1 == Failed(NilKeypair) <==> h.keypair == None)
  {
  }

  ghost predicate OnlyFailuresAndDerivations(c: Suite, h: Hs, calls: seq<Call>) {
    forall k :: 0 <= k < |calls| ==> calls[k].CallDerive? || Answer(Machine(c), h, calls, k).Failed?
  }

  /** Once established, the derived key outlives any run of failing calls and
      derivations. */
  lemma {:induction false} EstablishedKeyIsStable(c: Suite, h: Hs, calls: seq<Call>)
    requires h.state == Established && OnlyFailuresAndDerivations(c, h, calls)
    ensures After(Machine(c), h, calls).state == Established
    ensures After(Machine(c), h, calls).secrets == h.secrets
    ensures DeriveSessionKey(c, After(Machine(c), h, calls)) == DeriveSessionKey(c, h)
  {
    if calls == [] {
    } else {
      var n := |calls| - 1;
      var init := calls[..n];
      forall k | 0 <= k < n ensures init[k].CallDerive? || Answer(Machine(c), h, init, k).Failed? {
        AnswerInPrefix(Machine(c), h, calls, n, k);
      }
      EstablishedKeyIsStable(c, h, init);
      assert calls[n].CallDerive? || Answer(Machine(c), h, calls, n).Failed?;
      FailureKeepsState(c, After(Machine(c), h, init), calls[n]);
    }
  }

  /** Which calls are accepted in which state, where each leads, and what it
      says. */
  lemma Transitions(c: Suite, h: Hs, call: Call)
    ensures var (h', r) := Step(c, h, call);
      match call
      case CallInitiate(seed) =>
        && (r.Out? <==> seed.Some?)
        && (r.Out? ==> h'.state == WaitAgree && h'.keypair == seed)
        && (r.Out? ==> r.bytes == Encode(HandshakeRequest(c.kemPublic(seed.value), Ascii("ML-KEM-768_AES-GCM"))))
      case CallRequest(request, seed, coins) =>
        var req := DecodeRequest(request);
        && (r.Out? <==> req.Ok? && seed.Some? && c.encap(req.value.kemPublicKey, coins).Some?)
        && (r.Out? ==> h'.state == WaitFinish && h'.keypair == seed && h'.peer == req.value.kemPublicKey)
        && (r.Out? ==> h'.secrets == h.secrets[SsB2A := c.encap(req.value.kemPublicKey, coins).value.1])
      case CallAgree(agree, coins) =>
        && (r == Failed(InvalidState) <==> h.state != WaitAgree)
        && (r.Out? ==> h'.state == Established && h'.keypair == h.keypair)
        && (r.Out? ==> h'.secrets.Keys == h.secrets.Keys + {SsB2A, SsA2B})
      case CallFinish(finish) =>
        && (r == Failed(InvalidState) <==> h.state != WaitFinish)
        && (r.Done? ==> h'.state == Established && h'.keypair == None && h'.peer == h.peer)
        && (r.Done? ==> h'.secrets.Keys == h.secrets.Keys + {SsA2B})
      case CallDerive => h' == h
  {
  }

  // ---------- Conversations ----------

  datatype Role = Initiator | Responder

  /** An object together with the conversation its current keypair belongs to.
      A call that generates a keypair starts a new one, and starts none when it
      then fails; the keypair's seed and the coins are kept beside. */
  datatype Conversation = Conversation(
    hs: Hs,
    role: Role,
    request: Option<Bytes>,
    agree: Option<Bytes>,
    finish: Option<Bytes>,
    seed: Bytes,
    coins: Bytes)

  const NO_CONVERSATION := Conversation(FRESH, Initiator, None, None, None, [], [])

  function SeedBytes(seed: Option<Seed>): Bytes {
    match seed case Some(s) => s case None => []
  }

  function Record(c: Suite, v: Conversation, call: Call, h: Hs, r: Reply): Conversation {
    match call
    case CallInitiate(seed) =>
      if r.Out? && seed.Some? then Conversation(h, Initiator, Some(r.bytes), None, None, seed.value, [])
      else NO_CONVERSATION.(hs := h, seed := SeedBytes(seed))
    case CallRequest(request, seed, coins) =>
      if DecodeRequest(request).Err? then v.(hs := h)
      else if r.Out? && seed.Some? then
        Conversation(h, Responder, Some(request), Some(r.bytes), None, seed.value, coins)
      else NO_CONVERSATION.(hs := h, seed := SeedBytes(seed))
    case CallAgree(agree, coins) =>
      if r.Out? then v.(hs := h, agree := Some(agree), finish := Some(r.bytes), coins := coins)
      else v.(hs := h)
    case CallFinish(finish) =>
      if r.Done? then v.(hs := h, finish := Some(finish)) else v.(hs := h)
    case CallDerive => v.(hs := h)
  }

  function Converse(c: Suite, v: Conversation, call: Call): (Conversation, Reply) {
    var (h, r) := Step(c, v.hs, call);
    (Record(c, v, call, h, r), r)
  }

  function Conversations(c: Suite): (Conversation, Call) -> (Conversation, Reply) {
    (v, call) => Converse(c, v, call)
  }

  predicate IsSeed(b: Bytes) {
    |b| == KEM_SEED_SIZE
  }

  /** The initiator has sent its request and waits. */
  predicate Asked(c: Suite, v: Conversation) {
    && IsSeed(v.seed)
    && v.request == Some(Encode(HandshakeRequest(c.kemPublic(v.seed), SUITE_NAME)))
    && (v.finish == None ==> v.hs.state == WaitAgree && v.hs.keypair == Some(v.seed))
  }

  /** The initiator has accepted an agree and answered it. */
  predicate InitiatorHolds(c: Suite, v: Conversation) {
    && v.hs.state == Established && v.agree.Some? && v.finish.Some?
    && var agr := DecodeAgree(v.agree.value);
    && agr.Ok? && v.hs.peer == agr.value.kemPublicKey
    && var ssB2A, e := c.decap(v.seed, agr.value.peerCiphertext), c.encap(agr.value.kemPublicKey, v.coins);
    && ssB2A.Some? && e.Some?
    && v.finish.value == Encode(HandshakeFinish(e.value.0))
    && SsB2A in v.hs.secrets && v.hs.secrets[SsB2A] == ssB2A.value
    && SsA2B in v.hs.secrets && v.hs.secrets[SsA2B] == e.value.1
  }

  /** The responder has answered a request and waits, or is through. */
  predicate Answered(c: Suite, v: Conversation) {
    && IsSeed(v.seed) && v.request.Some? && v.agree.Some?
    && var req := DecodeRequest(v.request.value);
    && req.Ok? && v.hs.peer == req.value.kemPublicKey
    && var e := c.encap(req.value.kemPublicKey, v.coins);
    && e.Some?
    && v.agree.value == Encode(HandshakeAgree(c.kemPublic(v.seed), e.value.0, SUITE_NAME))
    && SsB2A in v.hs.secrets && v.hs.secrets[SsB2A] == e.value.1
    && (v.finish == None ==> v.hs.state == WaitFinish && v.hs.keypair == Some(v.seed))
  }

  predicate ResponderHolds(c: Suite, v: Conversation) {
    && v.hs.state == Established && v.finish.Some?
    && var fin := DecodeFinish(v.finish.value);
    && fin.Ok?
    && var ssA2B := c.decap(v.seed, fin.value.ciphertext);
    && ssA2B.Some?
    && SsA2B in v.hs.secrets && v.hs.secrets[SsA2B] == ssA2B.value
  }

  /** Broken conversations included, the seed kept is that of the current keypair. */
  predicate ConversationInv(c: Suite, v: Conversation) {
    && (v.hs.keypair.Some? ==> v.hs.keypair.value == v.seed)
    && (v.request.Some? ==>
          match v.role
          case Initiator => Asked(c, v) && (v.finish.Some? ==> InitiatorHolds(c, v))
          case Responder => Answered(c, v) && (v.finish.Some? ==> ResponderHolds(c, v)))
  }

  lemma RequestKeepsInv(c: Suite, v: Conversation, call: Call)
    requires ConversationInv(c, v) && (call.CallInitiate? || call.CallRequest?)
    ensures ConversationInv(c, Converse(c, v, call).0)
  {
  }

  lemma AgreeKeepsInv(c: Suite, v: Conversation, agree: Bytes, coins: Bytes)
    requires ConversationInv(c, v)
    ensures ConversationInv(c, Converse(c, v, CallAgree(agree, coins)).0)
  {
  }

  lemma FinishKeepsInv(c: Suite, v: Conversation, finish: Bytes)
    requires ConversationInv(c, v)
    ensures ConversationInv(c, Converse(c, v, CallFinish(finish)).0)
  {
  }

  lemma ConverseKeepsInv(c: Suite, v: Conversation, call: Call)
    requires ConversationInv(c, v)
    ensures ConversationInv(c, Converse(c, v, call).0)
  {
    match call {
      case CallInitiate(_) => RequestKeepsInv(c, v, call);
      case CallRequest(_, _, _) => RequestKeepsInv(c, v, call);
      case CallAgree(agree, coins) => AgreeKeepsInv(c, v, agree, coins);
      case CallFinish(finish) => FinishKeepsInv(c, v, finish);
      case CallDerive =>
    }
  }

  lemma {:induction false} ConversationInvOverRuns(c: Suite, calls: seq<Call>)
    ensures ConversationInv(c, After(Conversations(c), NO_CONVERSATION, calls))
  {
    if calls == [] {
    } else {
      var init := calls[..|calls| - 1];
      ConversationInvOverRuns(c, init);
      ConverseKeepsInv(c, After(Conversations(c), NO_CONVERSATION, init), calls[|calls| - 1]);
    }
  }

  /** Recording the conversation does not change what the object does. */
  lemma {:induction false} RecordingIsTransparent(c: Suite, calls: seq<Call>)
    ensures After(Conversations(c), NO_CONVERSATION, calls).hs == After(Machine(c), FRESH, calls)
  {
    if calls != [] {
      RecordingIsTransparent(c, calls[..|calls| - 1]);
    }
  }

  predicate Matching(a: Conversation, b: Conversation) {
    && a.role == Initiator && b.role == Responder
    && a.request.Some? && a.agree.Some? && a.finish.Some?
    && a.request == b.request && a.agree == b.agree && a.finish == b.finish
  }

  /** HKDF over the responder's secret and then the initiator's, without a salt,
      for the session key of this protocol. */
  function KeyFrom(c: Suite, ssB2A: Bytes, ssA2B: Bytes): Bytes {
    c.hkdf(ssB2A + ssA2B, Zeros(32), Ascii("ML-KEM-768-session-key-v1"), 32)
  }

  /** Deriving succeeds exactly in an established object that has both secrets. */
  lemma DerivesExactly(c: Suite, h: Hs, key: Bytes)
    ensures DeriveSessionKey(c, h) == Out(key)
            <==> h.state == Established && SsB2A in h.secrets && SsA2B in h.secrets
                 && key == KeyFrom(c, h.secrets[SsB2A], h.secrets[SsA2B])
    ensures DeriveSessionKey(c, h) == Failed(NotEstablished) <==> h.state != Established
  {
  }

  /** Matching conversations give matching keys: over every two sequences of
      calls, an initiator and a responder whose three messages are the same are
      both established, hold each other's public key, and derive the same key,
      from the secret the responder encapsulated and then the initiator's. */
  lemma MatchingConversations(c: Suite, callsA: seq<Call>, callsB: seq<Call>)
    requires IdealKem(c)
    requires Matching(After(Conversations(c), NO_CONVERSATION, callsA),
                      After(Conversations(c), NO_CONVERSATION, callsB))
    ensures var a, b := After(Conversations(c), NO_CONVERSATION, callsA),
                        After(Conversations(c), NO_CONVERSATION, callsB);
      && a.hs.state == Established && b.hs.state == Established
      && a.hs.peer == c.kemPublic(b.seed) && b.hs.peer == c.kemPublic(a.seed)
      && var e1, e2 := c.encap(c.kemPublic(a.seed), b.coins), c.encap(c.kemPublic(b.seed), a.coins);
      && e1.Some? && e2.Some?
      && DeriveSessionKey(c, a.hs) == DeriveSessionKey(c, b.hs) == Out(KeyFrom(c, e1.value.1, e2.value.1))
  {
    ConversationInvOverRuns(c, callsA);
    ConversationInvOverRuns(c, callsB);
    SameKeys(c, After(Conversations(c), NO_CONVERSATION, callsA), After(Conversations(c), NO_CONVERSATION, callsB));
  }

  lemma SameKeys(c: Suite, a: Conversation, b: Conversation)
    requires IdealKem(c) && Matching(a, b)
    requires ConversationInv(c, a) && ConversationInv(c, b)
    ensures a.hs.state == Established && b.hs.state == Established
    ensures a.hs.peer == c.kemPublic(b.seed) && b.hs.peer == c.kemPublic(a.seed)
    ensures var e1, e2 := c.encap(c.kemPublic(a.seed), b.coins), c.encap(c.kemPublic(b.seed), a.coins);
      && e1.Some? && e2.Some?
      && DeriveSessionKey(c, a.hs) == DeriveSessionKey(c, b.hs) == Out(KeyFrom(c, e1.value.1, e2.value.1))
  {
    var pubA, pubB := c.kemPublic(a.seed), c.kemPublic(b.seed);
    assert |pubA| == KEM_PUBLIC_SIZE && |pubB| == KEM_PUBLIC_SIZE;
    DecodesBack(HandshakeRequest(pubA, SUITE_NAME));
    assert Decapsulates(c, a.seed, b.coins);
    var ct1 := c.encap(pubA, b.coins).value.0;
    DecodesBack(HandshakeAgree(pubB, ct1, SUITE_NAME));
    assert Decapsulates(c, b.seed, a.coins);
    var ct2 := c.encap(pubB, a.coins).value.0;
    DecodesBack(HandshakeFinish(ct2));
  }

  /** Handshake messages survive the wire. */
  lemma DecodesBack(m: Message)
    requires Fits(m)
    ensures m.HandshakeRequest? ==> DecodeRequest(Encode(m)) == Ok(m)
    ensures m.HandshakeAgree? ==> DecodeAgree(Encode(m)) == Ok(m)
    ensures m.HandshakeFinish? ==> DecodeFinish(Encode(m)) == Ok(m)
  {
    RoundTripExact(m, []);
    assert Encode(m) + [] == Encode(m);
  }

  // ---------- Which keypair a responder decapsulates with ----------

  /** The keypair generated last: an initiation generates one, and so does every
      request that parses, whether or not it is then answered. */
  function LastGenerated(h: Hs, calls: seq<Call>): Option<Seed> {
    if calls == [] then h.keypair
    else
      match calls[|calls| - 1]
      case CallInitiate(seed) => seed
      case CallRequest(request, seed, _) =>
        if DecodeRequest(request).Ok? then seed else LastGenerated(h, calls[..|calls| - 1])
      case _ => LastGenerated(h, calls[..|calls| - 1])
  }

  lemma {:induction false} KeypairIsLastGenerated(c: Suite, h: Hs, calls: seq<Call>)
    ensures var now := After(Machine(c), h, calls).keypair;
      now.Some? ==> now == LastGenerated(h, calls)
  {
    if calls != [] {
      KeypairIsLastGenerated(c, h, calls[..|calls| - 1]);
    }
  }

  /** The call completes a handshake: an agree that is answered, or a finish. */
  predicate Completes(c: Suite, h: Hs, calls: seq<Call>, k: nat)
    requires k < |calls|
  {
    var r := Answer(Machine(c), h, calls, k);
    (calls[k].CallAgree? && r.Out?) || (calls[k].CallFinish? && r.Done?)
  }

  /** The second secret of a handshake completed by this finish. */
  predicate SecondSecretOf(c: Suite, keypair: Option<Seed>, finish: Bytes, secret: Bytes) {
    var fin := DecodeFinish(finish);
    fin.Ok? && keypair.Some? && c.decap(keypair.value, fin.value.ciphertext) == Some(secret)
  }

  lemma FinishStep(c: Suite, h: Hs, finish: Bytes)
    requires HandleFinish(c, h, finish).1.Done?
    ensures var h' := HandleFinish(c, h, finish).0;
      SsA2B in h'.secrets && SecondSecretOf(c, h.keypair, finish, h'.secrets[SsA2B])
  {
  }

  lemma OnlyCompletingEstablishes(c: Suite, h: Hs, call: Call)
    requires Step(c, h, call).0.state == Established
    ensures var (h', r) := Step(c, h, call);
      (call.CallAgree? && r.Out?) || (call.CallFinish? && r.Done?)
      || (h.state == Established && h'.secrets == h.secrets)
    ensures (call.CallAgree? && Step(c, h, call).1.Out?) ==> SsA2B in Step(c, h, call).0.secrets
  {
  }

  lemma LastCallEstablishes(c: Suite, h: Hs, calls: seq<Call>)
    requires calls != [] && After(Machine(c), h, calls).state == Established
    ensures var n, now := |calls| - 1, After(Machine(c), h, calls);
      if Completes(c, h, calls, n) then
        && SsA2B in now.secrets
        && (calls[n].CallFinish? ==>
              SecondSecretOf(c, LastGenerated(h, calls[..n]), calls[n].finish, now.secrets[SsA2B]))
      else
        var before := After(Machine(c), h, calls[..n]);
        before.state == Established && now.secrets == before.secrets
  {
    var n := |calls| - 1;
    var before, call := After(Machine(c), h, calls[..n]), calls[n];
    OnlyCompletingEstablishes(c, before, call);
    KeypairIsLastGenerated(c, h, calls[..n]);
    if call.CallFinish? && Completes(c, h, calls, n) {
      FinishStep(c, before, call.finish);
    }
  }

  /** The last completing call of a run. */
  function LastCompletion(c: Suite, h: Hs, calls: seq<Call>): (k: Option<nat>)
    ensures k.Some? ==> k.value < |calls|
  {
    if calls == [] then None
    else if Completes(c, h, calls, |calls| - 1) then Some(|calls| - 1)
    else LastCompletion(c, h, calls[..|calls| - 1])
  }

  /** What a completing call after `before` leaves: these secrets; and if it was a
      finish, the second one is what the keypair generated last decapsulates. */
  predicate LeavesSecrets(c: Suite, h: Hs, before: seq<Call>, call: Call, secrets: map<SecretName, Bytes>) {
    && SsA2B in secrets
    && (call.CallFinish? ==> SecondSecretOf(c, LastGenerated(h, before), call.finish, secrets[SsA2B]))
  }

  lemma PrefixOfPrefix(calls: seq<Call>, n: nat, k: nat)
    requires k <= n <= |calls|
    ensures calls[..n][..k] == calls[..k]
  {
  }

  lemma CompletesInPrefix(c: Suite, h: Hs, calls: seq<Call>, n: nat, k: nat)
    requires k < n <= |calls|
    ensures Completes(c, h, calls[..n], k) == Completes(c, h, calls, k)
  {
    AnswerInPrefix(Machine(c), h, calls, n, k);
  }

  /** Over every run from any unestablished state, rejected requests and all: an
      established object has had a completing call, its secrets are still those
      the last such call left, and if that call was a finish, the second secret is
      what the keypair generated last before it decapsulates. */
  lemma {:induction false} EstablishedSecret(c: Suite, h: Hs, calls: seq<Call>) returns (k: nat)
    requires h.state != Established && After(Machine(c), h, calls).state == Established
    ensures LastCompletion(c, h, calls) == Some(k) && Completes(c, h, calls, k)
    ensures After(Machine(c), h, calls).secrets == After(Machine(c), h, calls[..k + 1]).secrets
    ensures LeavesSecrets(c, h, calls[..k], calls[k], After(Machine(c), h, calls).secrets)
  {
    var n := |calls| - 1;
    LastCallEstablishes(c, h, calls);
    if Completes(c, h, calls, n) {
      k := n;
      assert calls[..n + 1] == calls;
    } else {
      k := EstablishedSecret(c, h, calls[..n]);
      CompletesInPrefix(c, h, calls, n, k);
      PrefixOfPrefix(calls, n, k);
      PrefixOfPrefix(calls, n, k + 1);
    }
  }

  // ---------- Where agreement stops ----------

  /** Everything drawn at random in the run below. */
  datatype Draws = Draws(seedA: Seed, seedB: Seed, seedC: Seed, coinsA: Bytes, coinsB: Bytes, coinsC: Bytes)

  /** The responder answers the initiator's request, then is given another one,
      then the initiator's finish. Both may have any past. */
  ghost predicate BrokenRun(c: Suite, a0: Hs, b0: Hs, d: Draws, other: Bytes, a: Hs, b: Hs) {
    var (a1, request) := Initiate(c, a0, Some(d.seedA));
    var (b1, agree) := HandleRequest(c, b0, Wire(request), Some(d.seedB), d.coinsB);
    var (b2, rejected) := HandleRequest(c, b1, other, Some(d.seedC), d.coinsC);
    var (a2, finish) := HandleAgree(c, a1, Wire(agree), d.coinsA);
    var (b3, done) := HandleFinish(c, b2, Wire(finish));
    && rejected == Failed(EncapsulationFailed) && done == Done
    && a == a2 && b == b3
  }

  function Wire(r: Reply): Bytes {
    if r.Out? then r.bytes else []
  }

  /** A request that parses but carries a key the KEM rejects. */
  predicate Poisonous(c: Suite, other: Bytes, coins: Bytes) {
    var req := DecodeRequest(other);
    req.Ok? && c.encap(req.value.kemPublicKey, coins) == None
  }

  lemma PoisonKeepsAllButKeypair(c: Suite, h: Hs, other: Bytes, seed: Seed, coins: Bytes)
    requires Poisonous(c, other, coins)
    ensures HandleRequest(c, h, other, Some(seed), coins)
      == (h.(keypair := Some(seed), peer := DecodeRequest(other).value.kemPublicKey), Failed(EncapsulationFailed))
  {
  }

  /** Such a request fails, and yet replaces the keypair the awaited finish is
      meant for: every message is delivered unchanged and both sides end
      established, but the responder has decapsulated with the keypair of the
      rejected request. Both keys, exactly: */
  lemma RejectedRequestSwapsKeypair(c: Suite, a0: Hs, b0: Hs, d: Draws, other: Bytes) returns (a: Hs, b: Hs)
    requires IdealKem(c) && Poisonous(c, other, d.coinsC)
    ensures BrokenRun(c, a0, b0, d, other, a, b)
    ensures a.state == Established && b.state == Established
    ensures
      var e1, e2 := c.encap(c.kemPublic(d.seedA), d.coinsB), c.encap(c.kemPublic(d.seedB), d.coinsA);
      && e1.Some? && e2.Some? && c.decap(d.seedC, e2.value.0).Some?
      && DeriveSessionKey(c, a) == Out(SessionKey(c, e1.value.1, e2.value.1))
      && DeriveSessionKey(c, b) == Out(SessionKey(c, e1.value.1, c.decap(d.seedC, e2.value.0).value))
  {
    var a1, b1, request, agree := OpeningExchange(c, a0, b0, d);
    PoisonKeepsAllButKeypair(c, b1, other, d.seedC, d.coinsC);
    var b2 := HandleRequest(c, b1, other, Some(d.seedC), d.coinsC).0;
    var finish;
    a, b, finish := ClosingExchange(c, a1, b2, d, agree);
  }

  /** Agree and finish, the responder now holding another keypair. */
  lemma ClosingExchange(c: Suite, a1: Hs, b2: Hs, d: Draws, agree: Bytes) returns (a: Hs, b: Hs, finish: Bytes)
    requires IdealKem(c) && a1.state == WaitAgree && a1.keypair == Some(d.seedA) && Decapsulates(c, d.seedA, d.coinsB)
    requires b2.state == WaitFinish && b2.keypair == Some(d.seedC)
    requires DecodeAgree(agree)
      == Ok(HandshakeAgree(c.kemPublic(d.seedB), c.encap(c.kemPublic(d.seedA), d.coinsB).value.0, SUITE_NAME))
    ensures HandleAgree(c, a1, agree, d.coinsA) == (a, Out(finish)) && HandleFinish(c, b2, finish) == (b, Done)
    ensures a.state == Established && b.state == Established
    ensures var e1, e2 := c.encap(c.kemPublic(d.seedA), d.coinsB), c.encap(c.kemPublic(d.seedB), d.coinsA);
      && e2.Some? && c.decap(d.seedC, e2.value.0).Some?
      && a.secrets == a1.secrets[SsB2A := e1.value.1][SsA2B := e2.value.1]
      && b.secrets == b2.secrets[SsA2B := c.decap(d.seedC, e2.value.0).value]
  {
    assert Decapsulates(c, d.seedB, d.coinsA);
    var ct2 := c.encap(c.kemPublic(d.seedB), d.coinsA).value.0;
    finish := Encode(HandshakeFinish(ct2));
    DecodesBack(HandshakeFinish(ct2));
    a, b := HandleAgree(c, a1, agree, d.coinsA).0, HandleFinish(c, b2, finish).0;
  }

  /** Request and agree, from any two states. */
  lemma OpeningExchange(c: Suite, a0: Hs, b0: Hs, d: Draws) returns (a1: Hs, b1: Hs, request: Bytes, agree: Bytes)
    requires IdealKem(c)
    ensures Initiate(c, a0, Some(d.seedA)) == (a1, Out(request))
    ensures HandleRequest(c, b0, request, Some(d.seedB), d.coinsB) == (b1, Out(agree))
    ensures a1 == a0.(keypair := Some(d.seedA), state := WaitAgree)
    ensures var e := c.encap(c.kemPublic(d.seedA), d.coinsB);
      && e.Some? && Decapsulates(c, d.seedA, d.coinsB)
      && b1 == Hs(WaitFinish, Some(d.seedB), c.kemPublic(d.seedA), b0.secrets[SsB2A := e.value.1])
      && DecodeAgree(agree) == Ok(HandshakeAgree(c.kemPublic(d.seedB), e.value.0, SUITE_NAME))
  {
    var pubA, pubB := c.kemPublic(d.seedA), c.kemPublic(d.seedB);
    assert Decapsulates(c, d.seedA, d.coinsB);
    var ct1 := c.encap(pubA, d.coinsB).value.0;
    assert |pubA| == |pubB| == KEM_PUBLIC_SIZE;
    DecodesBack(HandshakeRequest(pubA, SUITE_NAME));
    DecodesBack(HandshakeAgree(pubB, ct1, SUITE_NAME));
    request, agree := Encode(HandshakeRequest(pubA, SUITE_NAME)), Encode(HandshakeAgree(pubB, ct1, SUITE_NAME));
    a1 := Initiate(c, a0, Some(d.seedA)).0;
    b1 := HandleRequest(c, b0, request, Some(d.seedB), d.coinsB).0;
  }

  /** Every suite rejects the empty key, so there is such a request in every suite. */
  lemma PoisonExists(c: Suite, coins: Bytes)
    requires IdealKem(c)
    ensures Poisonous(c, Encode(HandshakeRequest([], [])), coins)
  {
    DecodesBack(HandshakeRequest([], []));
  }

  /** So in every suite, from any two states, there is a run with all messages
      delivered unchanged, both sides established, and these two keys. */
  lemma BrokenRunExists(c: Suite, a0: Hs, b0: Hs, d: Draws) returns (other: Bytes, a: Hs, b: Hs)
    requires IdealKem(c)
    ensures BrokenRun(c, a0, b0, d, other, a, b)
    ensures a.state == Established && b.state == Established
    ensures
      var e1, e2 := c.encap(c.kemPublic(d.seedA), d.coinsB), c.encap(c.kemPublic(d.seedB), d.coinsA);
      && e1.Some? && e2.Some? && c.decap(d.seedB, e2.value.0) == Some(e2.value.1)
      && c.decap(d.seedC, e2.value.0).Some?
      && DeriveSessionKey(c, a) == Out(SessionKey(c, e1.value.1, e2.value.1))
      && DeriveSessionKey(c, b) == Out(SessionKey(c, e1.value.1, c.decap(d.seedC, e2.value.0).value))
  {
    other := Encode(HandshakeRequest([], []));
    PoisonExists(c, d.coinsC);
    assert Decapsulates(c, d.seedB, d.coinsA);
    a, b := RejectedRequestSwapsKeypair(c, a0, b0, d, other);
  }

  /** With a law-abiding suite the two keys can then differ, so agreement does
      need the conversation to be unbroken. */
  lemma BrokenConversationDisagrees() returns (d: Draws, a: Hs, b: Hs)
    ensures Ideal(Toy()) && BrokenRun(Toy(), FRESH, FRESH, d, Encode(HandshakeRequest([], [])), a, b)
    ensures a.state == Established && b.state == Established
    ensures DeriveSessionKey(Toy(), a).Out? && DeriveSessionKey(Toy(), b).Out?
    ensures DeriveSessionKey(Toy(), a) != DeriveSessionKey(Toy(), b)
  {
    ToyIsIdeal();
    var c := Toy();
    var zero: Seed, one: Seed := Zeros(KEM_SEED_SIZE), [1] + Zeros(KEM_SEED_SIZE - 1);
    d := Draws(zero, zero, one, [], [], []);
    PoisonExists(c, []);
    a, b := RejectedRequestSwapsKeypair(c, FRESH, FRESH, d, Encode(HandshakeRequest([], [])));
    var pub := c.kemPublic(zero);
    assert c.encap(pub, []) == Some((Zeros(KEM_CIPHERTEXT_SIZE), pub[..32]));
    assert c.decap(one, Zeros(KEM_CIPHERTEXT_SIZE)) == Some(one[..32]);
    ToyKeyIsSecondSecret(pub[..32], pub[..32]);
    ToyKeyIsSecondSecret(pub[..32], one[..32]);
    assert pub[..32][0] == zero[0] == 0 && one[..32][0] == 1;
  }

  lemma ToyKeyIsSecondSecret(ssB2A: Bytes, ssA2B: Bytes)
    requires |ssB2A| == 32 && |ssA2B| == 32
    ensures SessionKey(Toy(), ssB2A, ssA2B) == ssA2B
  {
    assert (ssB2A + ssA2B)[32..] == ssA2B;
    assert ssA2B[..32] == ssA2B;
    assert SessionKey(Toy(), ssB2A, ssA2B) == Fill((ssB2A + ssA2B)[32..], SESSION_KEY_SIZE);
  }
}
