/** The cryptographic primitives as functions of their inputs, randomness
    included, with the laws the protocol relies on. */
module Crypto {
  import opened Basics

  const KEM_SEED_SIZE := 64
  const KEM_PUBLIC_SIZE := 1184
  const KEM_CIPHERTEXT_SIZE := 1088
  const KEM_SECRET_SIZE := 32
  const SESSION_KEY_SIZE := 32
  const HASH_SIZE := 32
  const NONCE_SIZE := 12
  const TAG_SIZE := 16
  const AEAD_KEY_SIZE := 32
  const SIGN_PUBLIC_SIZE := 32
  const SIGN_PRIVATE_SIZE := 64
  const SIGNATURE_SIZE := 64

  /** encap takes the encapsulation key and the coins and gives the ciphertext
      and the secret, or nothing for a key it rejects; signPublic gives the public
      key of a signing seed. */
  datatype Suite = Suite(
    kemPublic: Bytes -> Bytes,
    encap: (Bytes, Bytes) -> Option<(Bytes, Bytes)>,
    decap: (Bytes, Bytes) -> Option<Bytes>,
    hkdf: (Bytes, Bytes, Bytes, nat) -> Bytes,
    sha256: Bytes -> Bytes,
    seal: (Bytes, Bytes, Bytes) -> Bytes,
    open: (Bytes, Bytes, Bytes) -> Option<Bytes>,
    signPublic: Bytes -> Bytes,
    sign: (Bytes, Bytes) -> Bytes,
    verify: (Bytes, Bytes, Bytes) -> bool)

  /** Sections 7.2 and 7.3 of FIPS 203, idealised as never failing to decapsulate;
      section 7.2 also rejects keys of the wrong size. */
  ghost predicate IdealKem(c: Suite) {
    && (forall seed: Bytes :: |seed| == KEM_SEED_SIZE ==> |c.kemPublic(seed)| == KEM_PUBLIC_SIZE)
    && (forall seed: Bytes, coins: Bytes :: |seed| == KEM_SEED_SIZE ==> Decapsulates(c, seed, coins))
    && (forall key: Bytes, coins: Bytes :: c.encap(key, coins).Some? ==>
          |c.encap(key, coins).value.0| == KEM_CIPHERTEXT_SIZE
          && |c.encap(key, coins).value.1| == KEM_SECRET_SIZE
          && |key| == KEM_PUBLIC_SIZE)
    && (forall seed: Bytes, ct: Bytes :: c.decap(seed, ct).Some?
          <==> |seed| == KEM_SEED_SIZE && |ct| == KEM_CIPHERTEXT_SIZE)
  }

  /** A secret encapsulated to the public key of a seed is what that seed decapsulates. */
  ghost predicate Decapsulates(c: Suite, seed: Bytes, coins: Bytes) {
    var e := c.encap(c.kemPublic(seed), coins);
    e.Some? && c.decap(seed, e.value.0) == Some(e.value.1)
  }

  /** Output lengths of HKDF (section 2.3 of RFC 5869) and of SHA-256. */
  ghost predicate IdealHashes(c: Suite) {
    && (forall secret: Bytes, salt: Bytes, info: Bytes, n: nat :: n <= 255 * HASH_SIZE ==>
          |c.hkdf(secret, salt, info, n)| == n)
    && (forall data: Bytes :: |c.sha256(data)| == HASH_SIZE)
  }

  /** Section 7 of NIST SP 800-38D for 256-bit keys and 96-bit nonces, its bound
      on the length of a text left out: opening inverts sealing, and whatever
      opens is 16 bytes, the tag, longer than its text. */
  ghost predicate IdealAead(c: Suite) {
    && (forall key: Bytes, nonce: Bytes, text: Bytes :: |key| == AEAD_KEY_SIZE && |nonce| == NONCE_SIZE ==>
          c.open(key, nonce, c.seal(key, nonce, text)) == Some(text)
          && |c.seal(key, nonce, text)| == |text| + TAG_SIZE)
    && (forall key: Bytes, nonce: Bytes, sealed: Bytes :: c.open(key, nonce, sealed).Some? ==>
          |sealed| == |c.open(key, nonce, sealed).value| + TAG_SIZE)
  }

  /** A private key as key generation makes it (section 5.1.5 of RFC 8032): the
      seed, and the public key derived from that seed. */
  predicate WellFormed(c: Suite, priv: Bytes) {
    |priv| == SIGN_PRIVATE_SIZE && priv[32..] == c.signPublic(priv[..32])
  }

  ghost predicate SignatureSizes(c: Suite) {
    forall priv: Bytes, msg: Bytes :: |priv| == SIGN_PRIVATE_SIZE ==> |c.sign(priv, msg)| == SIGNATURE_SIZE
  }

  /** Sections 5.1.6 and 5.1.7 of RFC 8032: a signature made with a private key
      verifies under the public key in it, if that is the key of its seed. */
  ghost predicate IdealSignatures(c: Suite) {
    && SignatureSizes(c)
    && forall priv: Bytes, msg: Bytes :: WellFormed(c, priv) ==> c.verify(priv[32..], msg, c.sign(priv, msg))
  }

  ghost predicate Ideal(c: Suite) {
    IdealKem(c) && IdealHashes(c) && IdealAead(c) && IdealSignatures(c)
  }

  // ---------- The laws are consistent ----------

  function Fill(b: Bytes, n: nat): (r: Bytes)
    ensures |r| == n
    ensures |b| >= n ==> r == b[..n]
  {
    if |b| >= n then b[..n] else b + Zeros(n - |b|)
  }

  /** An insecure instance that satisfies every law: the secret is the front of
      the public key, which is the front of the seed. */
  function Toy(): Suite {
    Suite(
      seed => Fill(seed, KEM_PUBLIC_SIZE),
      (key, coins) =>
        if |key| == KEM_PUBLIC_SIZE then Some((Zeros(KEM_CIPHERTEXT_SIZE), key[..KEM_SECRET_SIZE])) else None,
      (seed, ct) =>
        if |seed| == KEM_SEED_SIZE && |ct| == KEM_CIPHERTEXT_SIZE then Some(seed[..KEM_SECRET_SIZE]) else None,
      (secret, salt, info, n) => Fill(if |secret| >= 32 then secret[32..] else secret, n),
      data => Fill(data, HASH_SIZE),
      (key, nonce, text) => text + Zeros(TAG_SIZE),
      (key, nonce, ct) => if |ct| >= TAG_SIZE then Some(ct[..|ct| - TAG_SIZE]) else None,
      seed => seed,
      (priv, msg) => if |priv| == SIGN_PRIVATE_SIZE then priv[..32] + priv[..32] else [],
      (pub, msg, sig) => sig == pub + pub)
  }

  lemma ToyKemIsIdeal()
    ensures IdealKem(Toy())
  {
    var c := Toy();
    forall seed: Bytes, coins: Bytes | |seed| == KEM_SEED_SIZE ensures Decapsulates(c, seed, coins) {
      assert c.kemPublic(seed)[..KEM_SECRET_SIZE] == seed[..KEM_SECRET_SIZE];
    }
  }

  lemma ToyHashesAreIdeal()
    ensures IdealHashes(Toy())
  {
    var c := Toy();
    forall secret: Bytes, salt: Bytes, info: Bytes, n: nat ensures |c.hkdf(secret, salt, info, n)| == n {
      assert c.hkdf(secret, salt, info, n) == Fill(if |secret| >= 32 then secret[32..] else secret, n);
    }
  }

  lemma ToyAeadIsIdeal()
    ensures IdealAead(Toy())
  {
    var c := Toy();
    forall key: Bytes, nonce: Bytes, text: Bytes
      ensures c.open(key, nonce, c.seal(key, nonce, text)) == Some(text)
    {
      assert c.seal(key, nonce, text)[..|text|] == text;
    }
  }

  lemma ToyIsIdeal()
    ensures Ideal(Toy())
  {
    ToyKemIsIdeal();
    ToyHashesAreIdeal();
    ToyAeadIsIdeal();
  }
}
