/** The KEM handshake object and what each of its calls does to it
    (pkg/protocol/handshake.go). */
module Handshake {
  import opened Basics
  import opened Messages
  import opened MessageWriter
  import opened Crypto

  datatype HandshakeState = Init | WaitAgree | WaitFinish | Established | StateFailed

  datatype SecretName = SsB2A | SsA2B

  type Seed = s: Bytes | |s| == KEM_SEED_SIZE witness Zeros(KEM_SEED_SIZE)

  datatype HandshakeError =
    | KeyGenerationFailed
    | BadMessage(cause: DecodeError)
    | EncapsulationFailed
    | DecapsulationFailed
    | InvalidState
    | NotEstablished
    | SecretsNotAvailable
    | NilKeypair

  datatype Reply = Out(bytes: Bytes) | Done | Failed(error: HandshakeError)

  const SUITE_NAME := Ascii("ML-KEM-768_AES-GCM")
  const KEY_INFO := Ascii("ML-KEM-768-session-key-v1")

  /** The fields of a handshake object. A keypair is its seed. */
  datatype Hs = Hs(
    state: HandshakeState,
    keypair: Option<Seed>,
    peer: Bytes,
    secrets: map<SecretName, Bytes>)

  const FRESH := Hs(Init, None, [], map[])

  function SessionKey(c: Suite, ssB2A: Bytes, ssA2B: Bytes): Bytes {
    c.hkdf(ssB2A + ssA2B, Zeros(HASH_SIZE), KEY_INFO, SESSION_KEY_SIZE)
  }

  // ---------- The calls, with their randomness as arguments ----------

  /** `seed` is what key generation yields, if it succeeds. */
  function Initiate(c: Suite, h: Hs, seed: Option<Seed>): (Hs, Reply) {
    match seed
    case None => (h.(keypair := None), Failed(KeyGenerationFailed))
    case Some(s) =>
      (h.(keypair := seed, state := WaitAgree),
       Out(Encode(HandshakeRequest(c.kemPublic(s), SUITE_NAME))))
  }

  /** Accepted in every state. The keypair and the peer key are overwritten
      before the encapsulation can fail. */
  function HandleRequest(c: Suite, h: Hs, request: Bytes, seed: Option<Seed>, coins: Bytes): (Hs, Reply) {
    match DecodeRequest(request)
    case Err(e) => (h, Failed(BadMessage(e)))
    case Ok(req) =>
      match seed
      case None => (h.(keypair := None), Failed(KeyGenerationFailed))
      case Some(s) =>
        var h1 := h.(keypair := seed, peer := req.kemPublicKey);
        match c.encap(req.kemPublicKey, coins)
        case None => (h1, Failed(EncapsulationFailed))
        case Some((ct, ss)) =>
          (h1.(secrets := h1.secrets[SsB2A := ss], state := WaitFinish),
           Out(Encode(HandshakeAgree(c.kemPublic(s), ct, SUITE_NAME))))
  }

  function HandleAgree(c: Suite, h: Hs, agree: Bytes, coins: Bytes): (Hs, Reply) {
    if h.state != WaitAgree then (h, Failed(InvalidState))
    else
      match DecodeAgree(agree)
      case Err(e) => (h, Failed(BadMessage(e)))
      case Ok(agr) =>
        if h.keypair == None then (h, Failed(NilKeypair))
        else
          match c.decap(h.keypair.value, agr.peerCiphertext)
          case None => (h, Failed(DecapsulationFailed))
          case Some(ssB2A) =>
            var h1 := h.(secrets := h.secrets[SsB2A := ssB2A], peer := agr.kemPublicKey);
            match c.encap(agr.kemPublicKey, coins)
            case None => (h1, Failed(EncapsulationFailed))
            case Some((ct, ssA2B)) =>
              (h1.(secrets := h1.secrets[SsA2B := ssA2B], state := Established),
               Out(Encode(HandshakeFinish(ct))))
  }

  function HandleFinish(c: Suite, h: Hs, finish: Bytes): (Hs, Reply) {
    if h.state != WaitFinish then (h, Failed(InvalidState))
    else
      match DecodeFinish(finish)
      case Err(e) => (h, Failed(BadMessage(e)))
      case Ok(fin) =>
        if h.keypair == None then (h, Failed(NilKeypair))
        else
          match c.decap(h.keypair.value, fin.ciphertext)
          case None => (h, Failed(DecapsulationFailed))
          case Some(ssA2B) =>
            (h.(secrets := h.secrets[SsA2B := ssA2B], state := Established, keypair := None), Done)
  }

  function DeriveSessionKey(c: Suite, h: Hs): Reply {
    if h.state != Established then Failed(NotEstablished)
    else if SsB2A !in h.secrets || SsA2B !in h.secrets then Failed(SecretsNotAvailable)
    else Out(SessionKey(c, h.secrets[SsB2A], h.secrets[SsA2B]))
  }

  function MyKEMPublicKey(c: Suite, h: Hs): Bytes {
    match h.keypair case Some(seed) => c.kemPublic(seed) case None => []
  }

  // ---------- The object ----------

  class KEMHandshake {
    const c: Suite
    const isInitiator: bool
    var state: HandshakeState
    var myKEMKeypair: Option<Seed>
    var peerPubkey: Bytes
    var sharedSecrets: map<SecretName, Bytes>

    function View(): Hs
      reads this
    {
      Hs(state, myKEMKeypair, peerPubkey, sharedSecrets)
    }

    constructor (c: Suite, isInitiator: bool)
      ensures this.c == c && this.isInitiator == isInitiator && View() == FRESH
    {
      this.c, this.isInitiator := c, isInitiator;
      state, myKEMKeypair, peerPubkey, sharedSecrets := Init, None, [], map[];
    }

    method Start(seed: Option<Seed>) returns (r: Reply)
      modifies this
      ensures (View(), r) == Initiate(c, old(View()), seed)
    {
      myKEMKeypair := seed;
      if seed == None {
        return Failed(KeyGenerationFailed);
      }
      var msg := SerializeRequest(c.kemPublic(seed.value), SUITE_NAME);
      state := WaitAgree;
      return Out(msg);
    }

    method OnRequest(request: Bytes, seed: Option<Seed>, coins: Bytes) returns (r: Reply)
      modifies this
      ensures (View(), r) == HandleRequest(c, old(View()), request, seed, coins)
    {
      var req := DecodeRequest(request);
      if req.Err? {
        return Failed(BadMessage(req.error));
      }
      myKEMKeypair := seed;
      if seed == None {
        return Failed(KeyGenerationFailed);
      }
      peerPubkey := req.value.kemPublicKey;
      var e := c.encap(req.value.kemPublicKey, coins);
      if e == None {
        return Failed(EncapsulationFailed);
      }
      var (ciphertext, ssB2A) := e.value;
      sharedSecrets := sharedSecrets[SsB2A := ssB2A];
      var msg := SerializeAgree(c.kemPublic(seed.value), ciphertext, SUITE_NAME);
      state := WaitFinish;
      return Out(msg);
    }

    method OnAgree(agree: Bytes, coins: Bytes) returns (r: Reply)
      modifies this
      ensures (View(), r) == HandleAgree(c, old(View()), agree, coins)
    {
      if state != WaitAgree {
        return Failed(InvalidState);
      }
      var agr := DecodeAgree(agree);
      if agr.Err? {
        return Failed(BadMessage(agr.error));
      }
      if myKEMKeypair == None {
        return Failed(NilKeypair);
      }
      var ssB2A := c.decap(myKEMKeypair.value, agr.value.peerCiphertext);
      if ssB2A == None {
        return Failed(DecapsulationFailed);
      }
      sharedSecrets := sharedSecrets[SsB2A := ssB2A.value];
      peerPubkey := agr.value.kemPublicKey;
      var e := c.encap(agr.value.kemPublicKey, coins);
      if e == None {
        return Failed(EncapsulationFailed);
      }
      var (ciphertext, ssA2B) := e.value;
      sharedSecrets := sharedSecrets[SsA2B := ssA2B];
      state := Established;
      var msg := Serialize(HandshakeFinish(ciphertext));
      return Out(msg);
    }

    method OnFinish(finish: Bytes) returns (r: Reply)
      modifies this
      ensures (View(), r) == HandleFinish(c, old(View()), finish)
    {
      if state != WaitFinish {
        return Failed(InvalidState);
      }
      var fin := DecodeFinish(finish);
      if fin.Err? {
        return Failed(BadMessage(fin.error));
      }
      if myKEMKeypair == None {
        return Failed(NilKeypair);
      }
      var ssA2B := c.decap(myKEMKeypair.value, fin.value.ciphertext);
      if ssA2B == None {
        return Failed(DecapsulationFailed);
      }
      sharedSecrets := sharedSecrets[SsA2B := ssA2B.value];
      state := Established;
      myKEMKeypair := None;
      return Done;
    }

    /** DeriveSessionKey changes no field. */
    method Derive() returns (r: Reply)
      ensures r == DeriveSessionKey(c, View())
    {
      if state != Established {
        return Failed(NotEstablished);
      }
      if SsB2A !in sharedSecrets || SsA2B !in sharedSecrets {
        return Failed(SecretsNotAvailable);
      }
      var master := sharedSecrets[SsB2A] + sharedSecrets[SsA2B];
      return Out(c.hkdf(master, Zeros(HASH_SIZE), KEY_INFO, SESSION_KEY_SIZE));
    }
  }
}
