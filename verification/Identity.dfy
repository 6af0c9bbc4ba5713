/** The identity exchange: what each call does, and why a verified peer really
    proved the expected key under any order of calls
    (pkg/identity/verifier.go). */
module Identity {
  import opened Basics
  import opened Crypto
  import opened HashExpansion
  import opened Runs

  type Nonce = b: Bytes | |b| == NONCE_SIZE witness Zeros(NONCE_SIZE)

  const CHALLENGE_SIZE := 32

  /** The random text a peer is challenged with. */
  type Challenge = b: Bytes | |b| == CHALLENGE_SIZE witness Zeros(CHALLENGE_SIZE)

  datatype IdentityError =
    | InvalidKeySize
    | CiphertextTooShort
    | OpenFailed
    | PeerHashMismatch
    | InvalidPrivateKeySize
    | InvalidPublicKeySize
    | InvalidSignatureSize
    | Ed25519Panic

  // ---------- The primitives with their size checks ----------

  function AesGcmEncrypt(c: Suite, key: Bytes, text: Bytes, nonce: Nonce): Result<Bytes, IdentityError> {
    if |key| != 32 then Err(InvalidKeySize) else Ok(nonce + c.seal(key, nonce, text))
  }

  function AesGcmDecrypt(c: Suite, key: Bytes, data: Bytes): Result<Bytes, IdentityError> {
    if |key| != 32 then Err(InvalidKeySize)
    else if |data| < NONCE_SIZE then Err(CiphertextTooShort)
    else
      match c.open(key, data[..NONCE_SIZE], data[NONCE_SIZE..])
      case None => Err(OpenFailed)
      case Some(text) => Ok(text)
  }

  /** The wrapper only refuses short keys; the library panics on long ones. */
  function Sign(c: Suite, priv: Bytes, msg: Bytes): Result<Bytes, IdentityError> {
    if |priv| < SIGN_PRIVATE_SIZE then Err(InvalidPrivateKeySize)
    else if |priv| != SIGN_PRIVATE_SIZE then Err(Ed25519Panic)
    else Ok(c.sign(priv, msg))
  }

  function Verify(c: Suite, pub: Bytes, msg: Bytes, sig: Bytes): Result<bool, IdentityError> {
    if |pub| < SIGN_PUBLIC_SIZE then Err(InvalidPublicKeySize)
    else if |sig| < SIGNATURE_SIZE then Err(InvalidSignatureSize)
    else if |pub| != SIGN_PUBLIC_SIZE then Err(Ed25519Panic)
    else Ok(|sig| == SIGNATURE_SIZE && c.verify(pub, msg, sig))
  }

  /** The id hash is the hash of the whole key. */
  function IdHash(c: Suite, pub: Bytes): (h: Bytes)
    requires IsHash(c.sha256)
    ensures h == c.sha256(pub)
  {
    OutputsExactly(c.sha256, pub, 32);
    FirstBytes(c.sha256, pub, 32)
  }

  lemma DecryptEncrypt(c: Suite, key: Bytes, text: Bytes, nonce: Nonce)
    requires IdealAead(c) && |key| == 32
    ensures var e := AesGcmEncrypt(c, key, text, nonce);
      e.Ok? && |e.value| == |text| + NONCE_SIZE + TAG_SIZE && AesGcmDecrypt(c, key, e.value) == Ok(text)
  {
    var data := nonce + c.seal(key, nonce, text);
    assert data[..NONCE_SIZE] == nonce && data[NONCE_SIZE..] == c.seal(key, nonce, text);
  }

  /** Sealing puts the nonce in front; opening takes 12 bytes of nonce off. Both
      take keys of 32 bytes only. */
  lemma SealedExactly(c: Suite, key: Bytes, text: Bytes, nonce: Nonce, data: Bytes)
    ensures AesGcmEncrypt(c, key, text, nonce)
      == if |key| == 32 then Ok(nonce + c.seal(key, nonce, text)) else Err(InvalidKeySize)
    ensures AesGcmDecrypt(c, key, data) == Ok(text)
            <==> |key| == 32 && 12 <= |data| && c.open(key, data[..12], data[12..]) == Some(text)
    ensures AesGcmDecrypt(c, key, data) == Err(InvalidKeySize) <==> |key| != 32
    ensures AesGcmDecrypt(c, key, data) == Err(CiphertextTooShort) <==> |key| == 32 && |data| < 12
  {
  }

  /** Which sizes of keys and signatures the wrappers refuse, and which they let
      through to a library that panics. */
  lemma SignatureSizesExactly(c: Suite, priv: Bytes, pub: Bytes, msg: Bytes, sig: Bytes)
    ensures Sign(c, priv, msg) == if |priv| == 64 then Ok(c.sign(priv, msg))
                                  else if |priv| < 64 then Err(InvalidPrivateKeySize) else Err(Ed25519Panic)
    ensures Verify(c, pub, msg, sig) == Ok(true) <==> |pub| == 32 && |sig| == 64 && c.verify(pub, msg, sig)
    ensures Verify(c, pub, msg, sig) == Err(InvalidPublicKeySize) <==> |pub| < 32
    ensures Verify(c, pub, msg, sig) == Err(InvalidSignatureSize) <==> 32 <= |pub| && |sig| < 64
    ensures Verify(c, pub, msg, sig) == Err(Ed25519Panic) <==> 32 < |pub| && 64 <= |sig|
  {
  }

  // ---------- The calls, with their randomness as arguments ----------

  datatype Exchange = Exchange(
    sessionKey: Bytes,
    publicKey: Bytes,
    privateKey: Bytes,
    peerIDHash: Bytes,
    peerKey: Option<Bytes>,
    isVerified: bool)

  datatype Reply = Sealed(bytes: Bytes) | Verdict(valid: bool) | Rejected(error: IdentityError)

  function Begin(sessionKey: Bytes, publicKey: Bytes, privateKey: Bytes, peerIDHash: Bytes): Exchange {
    Exchange(sessionKey, publicKey, privateKey, peerIDHash, None, false)
  }

  function Seal(c: Suite, e: Exchange, text: Bytes, nonce: Nonce): Reply {
    match AesGcmEncrypt(c, e.sessionKey, text, nonce)
    case Ok(bytes) => Sealed(bytes)
    case Err(error) => Rejected(error)
  }

  function HandlePeerIdentity(c: Suite, e: Exchange, encryptedPub: Bytes, challenge: Bytes, nonce: Nonce): (Exchange,
                              Reply)
    requires IsHash(c.sha256)
  {
    match AesGcmDecrypt(c, e.sessionKey, encryptedPub)
    case Err(error) => (e, Rejected(error))
    case Ok(pub) =>
      if IdHash(c, pub) != e.peerIDHash then (e, Rejected(PeerHashMismatch))
      else (e.(peerKey := Some(pub)), Seal(c, e, challenge, nonce))
  }

  function HandleChallenge(c: Suite, e: Exchange, encryptedNonce: Bytes, binding: Bytes, sessionID: Bytes,
                           nonce: Nonce): Reply {
    match AesGcmDecrypt(c, e.sessionKey, encryptedNonce)
    case Err(error) => Rejected(error)
    case Ok(challenge) =>
      match Sign(c, e.privateKey, challenge + binding + sessionID)
      case Err(error) => Rejected(error)
      case Ok(sig) => Seal(c, e, sig, nonce)
  }

  function VerifyResponse(c: Suite, e: Exchange, encryptedSig: Bytes, expectedNonce: Bytes, binding: Bytes,
                          sessionID: Bytes): (Exchange, Reply) {
    match AesGcmDecrypt(c, e.sessionKey, encryptedSig)
    case Err(error) => (e, Rejected(error))
    case Ok(sig) =>
      var pub := if e.peerKey.Some? then e.peerKey.value else [];
      match Verify(c, pub, expectedNonce + binding + sessionID, sig)
      case Err(error) => (e, Rejected(error))
      case Ok(valid) => (if valid then e.(isVerified := true) else e, Verdict(valid))
  }

  // ---------- The object ----------

  class IdentityExchange {
    const c: Suite
    const sessionKey: Bytes
    const publicKey: Bytes
    const privateKey: Bytes
    const peerIDHash: Bytes
    var peerDSAPubkey: Option<Bytes>
    var isVerified: bool

    function View(): Exchange
      reads this
    {
      Exchange(sessionKey, publicKey, privateKey, peerIDHash, peerDSAPubkey, isVerified)
    }

    constructor (c: Suite, sessionKey: Bytes, publicKey: Bytes, privateKey: Bytes, peerIDHash: Bytes)
      ensures this.c == c && View() == Begin(sessionKey, publicKey, privateKey, peerIDHash)
    {
      this.c := c;
      this.sessionKey, this.publicKey, this.privateKey := sessionKey, publicKey, privateKey;
      this.peerIDHash := peerIDHash;
      peerDSAPubkey, isVerified := None, false;
    }

    method OnPeerIdentity(encryptedPub: Bytes, challenge: Bytes, nonce: Nonce) returns (r: Reply)
      requires IsHash(c.sha256)
      modifies this
      ensures (View(), r) == HandlePeerIdentity(c, old(View()), encryptedPub, challenge, nonce)
    {
      var pub := AesGcmDecrypt(c, sessionKey, encryptedPub);
      if pub.Err? {
        return Rejected(pub.error);
      }
      var computedHash := Shake256(c.sha256, pub.value, 32);
      if computedHash != peerIDHash {
        return Rejected(PeerHashMismatch);
      }
      peerDSAPubkey := Some(pub.value);
      return Seal(c, View(), challenge, nonce);
    }

    method OnChallenge(encryptedNonce: Bytes, binding: Bytes, sessionID: Bytes, nonce: Nonce) returns (r: Reply)
      ensures r == HandleChallenge(c, View(), encryptedNonce, binding, sessionID, nonce)
    {
      var challenge := AesGcmDecrypt(c, sessionKey, encryptedNonce);
      if challenge.Err? {
        return Rejected(challenge.error);
      }
      var message := challenge.value + binding;
      message := message + sessionID;
      var sig := Sign(c, privateKey, message);
      if sig.Err? {
        return Rejected(sig.error);
      }
      return Seal(c, View(), sig.value, nonce);
    }

    method OnResponse(encryptedSig: Bytes, expectedNonce: Bytes, binding: Bytes, sessionID: Bytes) returns (r: Reply)
      modifies this`isVerified
      ensures (View(), r) == VerifyResponse(c, old(View()), encryptedSig, expectedNonce, binding, sessionID)
    {
      var sig := AesGcmDecrypt(c, sessionKey, encryptedSig);
      if sig.Err? {
        return Rejected(sig.error);
      }
      var message := expectedNonce + binding;
      message := message + sessionID;
      var pub := if peerDSAPubkey.Some? then peerDSAPubkey.value else [];
      var valid := Verify(c, pub, message, sig.value);
      if valid.Err? {
        return Rejected(valid.error);
      }
      if valid.value {
        isVerified := true;
      }
      return Verdict(valid.value);
    }
  }

  // ---------- Any order of calls ----------

  datatype Call =
    | CallPeerIdentity(encryptedPub: Bytes, challenge: Bytes, nonce: Nonce)
    | CallChallenge(encryptedNonce: Bytes, challengeBinding: Bytes, challengeSession: Bytes, nonce: Nonce)
    | CallResponse(encryptedSig: Bytes, expectedNonce: Bytes, binding: Bytes, sessionID: Bytes)

  function Step(c: Suite, e: Exchange, call: Call): (Exchange, Reply)
    requires IsHash(c.sha256)
  {
    match call
    case CallPeerIdentity(pub, challenge, nonce) => HandlePeerIdentity(c, e, pub, challenge, nonce)
    case CallChallenge(encrypted, binding, session, nonce) =>
      (e, HandleChallenge(c, e, encrypted, binding, session, nonce))
    case CallResponse(sig, expected, binding, session) => VerifyResponse(c, e, sig, expected, binding, session)
  }

  function Machine(c: Suite): (Exchange, Call) -> (Exchange, Reply)
    requires IsHash(c.sha256)
  {
    (e, call) => Step(c, e, call)
  }

  /** The call accepts a signature: it opens under the session key, and the key
      it verifies under has the expected hash and the exact sizes. */
  predicate AcceptsSignature(c: Suite, e: Exchange, call: Call)
    requires IsHash(c.sha256)
  {
    && call.CallResponse? && e.peerKey.Some?
    && var pub, sig := e.peerKey.value, AesGcmDecrypt(c, e.sessionKey, call.encryptedSig);
    && c.sha256(pub) == e.peerIDHash && |pub| == 32
    && sig.Ok? && |sig.value| == 64
    && c.verify(pub, call.expectedNonce + call.binding + call.sessionID, sig.value)
  }

  /** What every object keeps: the peer key hashes to the expected hash, and the
      fields it was created with stay. */
  predicate Inv(c: Suite, start: Exchange, e: Exchange)
    requires IsHash(c.sha256)
  {
    && (e.peerKey.Some? ==> c.sha256(e.peerKey.value) == e.peerIDHash)
    && e == start.(peerKey := e.peerKey, isVerified := e.isVerified)
  }

  lemma StepKeepsInv(c: Suite, start: Exchange, e: Exchange, call: Call)
    requires IsHash(c.sha256) && Inv(c, start, e)
    ensures var (e', r) := Step(c, e, call);
      && Inv(c, start, e')
      && (e.peerKey.Some? ==> e'.peerKey.Some?)
      && (e'.isVerified <==> e.isVerified || AcceptsSignature(c, e, call))
      && (AcceptsSignature(c, e, call) <==> r == Verdict(true))
  {
  }

  /** A key is stored exactly if the message opens to it and its hash is the
      expected one; the reply is then the challenge under the session key.
      Otherwise nothing changes, and a key stored before stays. */
  lemma StoresExactly(c: Suite, e: Exchange, encryptedPub: Bytes, challenge: Bytes, nonce: Nonce)
    requires IsHash(c.sha256)
    ensures var pub := AesGcmDecrypt(c, e.sessionKey, encryptedPub);
      var (e', r) := HandlePeerIdentity(c, e, encryptedPub, challenge, nonce);
      && (r.Sealed? <==> pub.Ok? && c.sha256(pub.value) == e.peerIDHash)
      && (r.Sealed? ==>
            && r == Sealed(nonce + c.seal(e.sessionKey, nonce, challenge))
            && e' == e.(peerKey := Some(pub.value)))
      && (!r.Sealed? ==> e' == e && r == Rejected(if pub.Ok? then PeerHashMismatch else pub.error))
  {
  }

  /** A challenge is answered exactly if it opens and the private key has its size,
      by the signature over what it opens to, the binding and the session id. */
  lemma AnswersExactly(c: Suite, e: Exchange, sealed: Bytes, binding: Bytes, sessionID: Bytes, nonce: Nonce)
    ensures var text := AesGcmDecrypt(c, e.sessionKey, sealed);
      var r := HandleChallenge(c, e, sealed, binding, sessionID, nonce);
      && (r.Sealed? <==> text.Ok? && |e.privateKey| == 64)
      && (r.Sealed? ==>
            r.bytes == nonce + c.seal(e.sessionKey, nonce, c.sign(e.privateKey, text.value + binding + sessionID)))
  {
  }

  /** Over every sequence of calls the peer key, once set, stays set and hashes to
      the expected hash. */
  lemma {:induction false} InvOverRuns(c: Suite, start: Exchange, calls: seq<Call>)
    requires IsHash(c.sha256) && start.peerKey == None
    ensures Inv(c, start, After(Machine(c), start, calls))
  {
    if calls == [] {
    } else {
      var init := calls[..|calls| - 1];
      InvOverRuns(c, start, init);
      StepKeepsInv(c, start, After(Machine(c), start, init), calls[|calls| - 1]);
    }
  }

  predicate AcceptsAt(c: Suite, start: Exchange, calls: seq<Call>, k: nat)
    requires IsHash(c.sha256) && k < |calls|
  {
    AcceptsSignature(c, After(Machine(c), start, calls[..k]), calls[k])
  }

  /** Under any order of calls, repeats and failures included, the exchange is
      verified exactly if some call has accepted a valid signature under a key
      with the expected hash. */
  lemma {:induction false} VerifiedExactly(c: Suite, start: Exchange, calls: seq<Call>)
    requires IsHash(c.sha256) && start.peerKey == None && !start.isVerified
    ensures After(Machine(c), start, calls).isVerified
            <==> exists k :: 0 <= k < |calls| && AcceptsAt(c, start, calls, k)
  {
    if calls == [] {
    } else {
      var n := |calls| - 1;
      VerifiedExactly(c, start, calls[..n]);
      FlagAfterLast(c, start, calls);
      AcceptsInPrefix(c, start, calls, n);
    }
  }

  /** In particular for a new exchange, which trusts nobody. */
  lemma NewExchangeVerified(c: Suite, key: Bytes, pub: Bytes, priv: Bytes, target: Bytes, calls: seq<Call>)
    requires IsHash(c.sha256)
    ensures var start := Begin(key, pub, priv, target);
      && start.sessionKey == key && start.privateKey == priv && start.peerIDHash == target
      && (After(Machine(c), start, calls).isVerified <==>
            exists k :: 0 <= k < |calls| && AcceptsAt(c, start, calls, k))
  {
    VerifiedExactly(c, Begin(key, pub, priv, target), calls);
  }

  lemma FlagAfterLast(c: Suite, start: Exchange, calls: seq<Call>)
    requires IsHash(c.sha256) && start.peerKey == None && calls != []
    ensures After(Machine(c), start, calls).isVerified
            <==> After(Machine(c), start, calls[..|calls| - 1]).isVerified || AcceptsAt(c, start, calls, |calls| - 1)
  {
    var n := |calls| - 1;
    InvOverRuns(c, start, calls[..n]);
    StepKeepsInv(c, start, After(Machine(c), start, calls[..n]), calls[n]);
  }

  lemma AcceptsInPrefix(c: Suite, start: Exchange, calls: seq<Call>, n: nat)
    requires IsHash(c.sha256) && n <= |calls|
    ensures forall k :: 0 <= k < n ==> AcceptsAt(c, start, calls[..n], k) == AcceptsAt(c, start, calls, k)
  {
    forall k | 0 <= k < n ensures AcceptsAt(c, start, calls[..n], k) == AcceptsAt(c, start, calls, k) {
      assert calls[..n][..k] == calls[..k];
    }
  }

  /** Verification is never taken back. */
  lemma VerifiedForever(c: Suite, start: Exchange, calls: seq<Call>, n: nat)
    requires IsHash(c.sha256) && start.peerKey == None && !start.isVerified && n <= |calls|
    requires After(Machine(c), start, calls[..n]).isVerified
    ensures After(Machine(c), start, calls).isVerified
  {
    VerifiedExactly(c, start, calls[..n]);
    VerifiedExactly(c, start, calls);
    AcceptsInPrefix(c, start, calls, n);
  }

  /** The exchange works when both sides pass the same plaintext nonce, binding
      and session id: the verifier accepts what a prover with a generated key
      answers. */
  lemma ChallengeResponseAccepted(c: Suite, prover: Exchange, verifier: Exchange, challenge: Bytes, binding: Bytes,
                                  sessionID: Bytes, nonce1: Nonce, nonce2: Nonce)
    requires IdealAead(c) && IdealSignatures(c)
    requires prover.sessionKey == verifier.sessionKey && |prover.sessionKey| == 32
    requires WellFormed(c, prover.privateKey) && verifier.peerKey == Some(prover.privateKey[32..])
    ensures var sent := AesGcmEncrypt(c, verifier.sessionKey, challenge, nonce1);
      && sent.Ok?
      && var answer := HandleChallenge(c, prover, sent.value, binding, sessionID, nonce2);
      && answer.Sealed?
      && var (after, verdict) := VerifyResponse(c, verifier, answer.bytes, challenge, binding, sessionID);
      verdict == Verdict(true) && after.isVerified
  {
    DecryptEncrypt(c, verifier.sessionKey, challenge, nonce1);
    DecryptEncrypt(c, prover.sessionKey, c.sign(prover.privateKey, challenge + binding + sessionID), nonce2);
  }
}
