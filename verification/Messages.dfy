/** The wire codec: six length-prefixed message formats and their decoders
    (pkg/protocol/messages.go). */
module Messages {
  import opened Basics

  const FLAG_REQUEST: Byte := 0x01
  const FLAG_AGREE: Byte := 0x02
  const FLAG_FINISH: Byte := 0x03
  const FLAG_IDENTITY: Byte := 0x10
  const FLAG_CHALLENGE: Byte := 0x11
  const FLAG_SIGNATURE: Byte := 0x12

  datatype Message =
    | HandshakeRequest(kemPublicKey: Bytes, suite: Bytes)
    | HandshakeAgree(kemPublicKey: Bytes, peerCiphertext: Bytes, suite: Bytes)
    | HandshakeFinish(ciphertext: Bytes)
    | IdentityMsg(publicKeyEncrypted: Bytes)
    | Challenge(encryptedNonce: Bytes)
    | SignatureResponse(encryptedSignature: Bytes)

  datatype DecodeError =
    | TooShort
    | InvalidFlag
    | TooShortForPublicKey
    | TooShortForCiphertext
    | TooShortForSuite
    | TooShortForNonce
    | TooShortForSignature

  type Decoded = Result<Message, DecodeError>

  // ---------- The format, stated once for all six messages ----------

  function Flag(m: Message): Byte {
    match m
    case HandshakeRequest(_, _) => FLAG_REQUEST
    case HandshakeAgree(_, _, _) => FLAG_AGREE
    case HandshakeFinish(_) => FLAG_FINISH
    case IdentityMsg(_) => FLAG_IDENTITY
    case Challenge(_) => FLAG_CHALLENGE
    case SignatureResponse(_) => FLAG_SIGNATURE
  }

  function Fields(m: Message): seq<Bytes> {
    match m
    case HandshakeRequest(key, suite) => [key, suite]
    case HandshakeAgree(key, ct, suite) => [key, ct, suite]
    case HandshakeFinish(ct) => [ct]
    case IdentityMsg(pub) => [pub]
    case Challenge(nonce) => [nonce]
    case SignatureResponse(sig) => [sig]
  }

  /** A field behind its length, which is truncated to 16 bits. */
  function Field(f: Bytes): Bytes {
    PutU16(|f| % U16_LIMIT) + f
  }

  function EncodeFields(fs: seq<Bytes>): Bytes {
    if fs == [] then [] else Field(fs[0]) + EncodeFields(fs[1..])
  }

  /** The plain concatenation each encoder is meant to produce. */
  function Encode(m: Message): Bytes {
    [Flag(m)] + EncodeFields(Fields(m))
  }

  /** Every field's length survives the truncation to 16 bits. */
  predicate Fits(m: Message) {
    AllShort(Fields(m))
  }

  predicate AllShort(fs: seq<Bytes>) {
    forall i :: 0 <= i < |fs| ==> |fs[i]| < U16_LIMIT
  }

  // ---------- The decoders, branch by branch ----------

  function DecodeRequest(data: Bytes): (r: Decoded)
    ensures r.Ok? ==> r.value.HandshakeRequest?
  {
    if |data| < 1 + 2 then Err(TooShort)
    else if data[0] != FLAG_REQUEST then Err(InvalidFlag)
    else
      var kemPubLen := GetU16(data[1..3]);
      if |data| < 3 + kemPubLen + 2 then Err(TooShortForPublicKey)
      else
        var kemPub := data[3..3 + kemPubLen];
        var offset := 3 + kemPubLen;
        var suiteLen := GetU16(data[offset..offset + 2]);
        if |data| < offset + 2 + suiteLen then Err(TooShortForSuite)
        else Ok(HandshakeRequest(kemPub, data[offset + 2..offset + 2 + suiteLen]))
  }

  function DecodeAgree(data: Bytes): (r: Decoded)
    ensures r.Ok? ==> r.value.HandshakeAgree?
  {
    if |data| < 1 + 2 then Err(TooShort)
    else if data[0] != FLAG_AGREE then Err(InvalidFlag)
    else
      var kemPubLen := GetU16(data[1..3]);
      if |data| < 3 + kemPubLen + 2 then Err(TooShortForPublicKey)
      else
        var kemPub := data[3..3 + kemPubLen];
        var offset := 3 + kemPubLen;
        var ctLen := GetU16(data[offset..offset + 2]);
        if |data| < offset + 2 + ctLen + 2 then Err(TooShortForCiphertext)
        else
          var ct := data[offset + 2..offset + 2 + ctLen];
          var offset' := offset + 2 + ctLen;
          var suiteLen := GetU16(data[offset'..offset' + 2]);
          if |data| < offset' + 2 + suiteLen then Err(TooShortForSuite)
          else Ok(HandshakeAgree(kemPub, ct, data[offset' + 2..offset' + 2 + suiteLen]))
  }

  /** The body shared by the four decoders of one-field messages. */
  function DecodeOne(data: Bytes, flag: Byte, short: DecodeError): Result<Bytes, DecodeError> {
    if |data| < 1 + 2 then Err(TooShort)
    else if data[0] != flag then Err(InvalidFlag)
    else
      var len := GetU16(data[1..3]);
      if |data| < 3 + len then Err(short) else Ok(data[3..3 + len])
  }

  function DecodeFinish(data: Bytes): (r: Decoded)
    ensures r.Ok? ==> r.value.HandshakeFinish?
  {
    match DecodeOne(data, FLAG_FINISH, TooShortForCiphertext)
    case Ok(ct) => Ok(HandshakeFinish(ct))
    case Err(e) => Err(e)
  }

  function DecodeIdentity(data: Bytes): Decoded {
    match DecodeOne(data, FLAG_IDENTITY, TooShortForPublicKey)
    case Ok(pub) => Ok(IdentityMsg(pub))
    case Err(e) => Err(e)
  }

  function DecodeChallenge(data: Bytes): Decoded {
    match DecodeOne(data, FLAG_CHALLENGE, TooShortForNonce)
    case Ok(nonce) => Ok(Challenge(nonce))
    case Err(e) => Err(e)
  }

  function DecodeSignature(data: Bytes): Decoded {
    match DecodeOne(data, FLAG_SIGNATURE, TooShortForSignature)
    case Ok(sig) => Ok(SignatureResponse(sig))
    case Err(e) => Err(e)
  }

  predicate IsFlag(flag: Byte) {
    flag in {FLAG_REQUEST, FLAG_AGREE, FLAG_FINISH, FLAG_IDENTITY, FLAG_CHALLENGE, FLAG_SIGNATURE}
  }

  /** The decoder that belongs to a message flag. */
  function DecodeAs(flag: Byte, data: Bytes): Decoded
    requires IsFlag(flag)
  {
    if flag == FLAG_REQUEST then DecodeRequest(data)
    else if flag == FLAG_AGREE then DecodeAgree(data)
    else if flag == FLAG_FINISH then DecodeFinish(data)
    else if flag == FLAG_IDENTITY then DecodeIdentity(data)
    else if flag == FLAG_CHALLENGE then DecodeChallenge(data)
    else DecodeSignature(data)
  }

  // ---------- What the decoders accept ----------

  lemma EncodeLength(m: Message)
    ensures m.HandshakeRequest? ==> |Encode(m)| == 5 + |m.kemPublicKey| + |m.suite|
    ensures m.HandshakeAgree? ==>
      |Encode(m)| == 7 + |m.kemPublicKey| + |m.peerCiphertext| + |m.suite|
    ensures |Fields(m)| == 1 ==> |Encode(m)| == 3 + |Fields(m)[0]|
  {
    Unfold(m);
  }

  /** The encoding written out for each number of fields. */
  lemma Unfold(m: Message)
    ensures |Fields(m)| == 1 ==> Encode(m) == [Flag(m)] + Field(Fields(m)[0])
    ensures |Fields(m)| == 2 ==> Encode(m) == [Flag(m)] + Field(Fields(m)[0]) + Field(Fields(m)[1])
    ensures |Fields(m)| == 3 ==>
      Encode(m) == [Flag(m)] + Field(Fields(m)[0]) + Field(Fields(m)[1]) + Field(Fields(m)[2])
  {
    var fs := Fields(m);
    assert EncodeFields(fs) == Field(fs[0]) + EncodeFields(fs[1..]);
    if |fs| >= 2 {
      assert EncodeFields(fs[1..]) == Field(fs[1]) + EncodeFields(fs[2..]);
    }
    if |fs| == 3 {
      assert EncodeFields(fs[2..]) == Field(fs[2]) + EncodeFields(fs[3..]);
    }
  }

  // ---------- The formats, byte by byte ----------

  /** Two bytes of length, the high one first, and then the field itself. */
  predicate LaidOut(data: Bytes, at: nat, f: Bytes) {
    && at + 2 + |f| <= |data|
    && data[at] as int * 256 + data[at + 1] as int == |f| % 65536
    && data[at + 2..at + 2 + |f|] == f
  }

  /** The six formats as they go over the wire. */
  lemma WireFormat(m: Message)
    ensures var e := Encode(m);
      match m
      case HandshakeRequest(key, suite) =>
        e[0] == 0x01 && LaidOut(e, 1, key) && LaidOut(e, 3 + |key|, suite) && |e| == 5 + |key| + |suite|
      case HandshakeAgree(key, ct, suite) =>
        && e[0] == 0x02 && LaidOut(e, 1, key) && LaidOut(e, 3 + |key|, ct) && LaidOut(e, 5 + |key| + |ct|, suite)
        && |e| == 7 + |key| + |ct| + |suite|
      case HandshakeFinish(ct) => e[0] == 0x03 && LaidOut(e, 1, ct) && |e| == 3 + |ct|
      case IdentityMsg(pub) => e[0] == 0x10 && LaidOut(e, 1, pub) && |e| == 3 + |pub|
      case Challenge(nonce) => e[0] == 0x11 && LaidOut(e, 1, nonce) && |e| == 3 + |nonce|
      case SignatureResponse(sig) => e[0] == 0x12 && LaidOut(e, 1, sig) && |e| == 3 + |sig|
  {
    Unfold(m);
    EncodeLength(m);
    match m
    case HandshakeRequest(key, suite) =>
      TwoLaidOut([FLAG_REQUEST], key, suite, []);
      NothingAfter([FLAG_REQUEST] + Field(key) + Field(suite));
    case HandshakeAgree(key, ct, suite) =>
      ThreeLaidOut([FLAG_AGREE], key, ct, suite);
    case _ =>
      FieldLaidOut([Flag(m)], Fields(m)[0], []);
      NothingAfter([Flag(m)] + Field(Fields(m)[0]));
  }

  lemma TwoLaidOut(front: Bytes, f: Bytes, g: Bytes, after: Bytes)
    ensures var e := front + Field(f) + Field(g) + after;
      LaidOut(e, |front|, f) && LaidOut(e, |front| + 2 + |f|, g)
  {
    Regroup(front + Field(f), Field(g), after);
    FieldLaidOut(front, f, Field(g) + after);
    FieldLaidOut(front + Field(f), g, after);
  }

  lemma ThreeLaidOut(front: Bytes, f: Bytes, g: Bytes, h: Bytes)
    ensures var e := front + Field(f) + Field(g) + Field(h);
      LaidOut(e, |front|, f) && LaidOut(e, |front| + 2 + |f|, g) && LaidOut(e, |front| + 4 + |f| + |g|, h)
  {
    TwoLaidOut(front, f, g, Field(h));
    FieldLaidOut(front + Field(f) + Field(g), h, []);
    NothingAfter(front + Field(f) + Field(g) + Field(h));
  }

  lemma Regroup(a: Bytes, b: Bytes, c: Bytes)
    ensures a + b + c == a + (b + c)
  {
  }

  lemma NothingAfter(a: Bytes)
    ensures a + [] == a
  {
  }

  lemma FieldLaidOut(before: Bytes, f: Bytes, after: Bytes)
    ensures LaidOut(before + Field(f) + after, |before|, f)
  {
    var data, n := before + Field(f) + after, |f| % U16_LIMIT;
    assert data[|before|] == PutU16(n)[0] && data[|before| + 1] == PutU16(n)[1];
    assert data[|before| + 2..|before| + 2 + |f|] == f;
  }

  /** How a decoder refuses: data too short to have a flag and a length, another
      flag, or a length that points beyond the end. */
  lemma RefusalsExactly(flag: Byte, data: Bytes)
    requires flag in {0x01, 0x02, 0x03, 0x10, 0x11, 0x12}
    ensures IsFlag(flag)
    ensures DecodeAs(flag, data) == Err(TooShort) <==> |data| < 3
    ensures DecodeAs(flag, data) == Err(InvalidFlag) <==> 3 <= |data| && data[0] != flag
  {
  }

  /** The 16-bit length found at this place. */
  function LengthAt(data: Bytes, at: nat): nat
    requires at + 2 <= |data|
  {
    data[at] as int * 256 + data[at + 1] as int
  }

  /** Which field a request or an agree is too short for. */
  lemma ShortFieldsExactly(data: Bytes)
    requires 3 <= |data|
    ensures var n := LengthAt(data, 1);
      && (DecodeRequest(data) == Err(TooShortForPublicKey) <==> data[0] == 0x01 && |data| < 5 + n)
      && (DecodeRequest(data) == Err(TooShortForSuite) <==>
            data[0] == 0x01 && 5 + n <= |data| && |data| < 5 + n + LengthAt(data, 3 + n))
      && (DecodeAgree(data) == Err(TooShortForPublicKey) <==> data[0] == 0x02 && |data| < 5 + n)
      && (DecodeAgree(data) == Err(TooShortForCiphertext) <==>
            data[0] == 0x02 && 5 + n <= |data| && |data| < 7 + n + LengthAt(data, 3 + n))
      && (DecodeFinish(data) == Err(TooShortForCiphertext) <==> data[0] == 0x03 && |data| < 3 + n)
      && (DecodeIdentity(data) == Err(TooShortForPublicKey) <==> data[0] == 0x10 && |data| < 3 + n)
      && (DecodeChallenge(data) == Err(TooShortForNonce) <==> data[0] == 0x11 && |data| < 3 + n)
      && (DecodeSignature(data) == Err(TooShortForSignature) <==> data[0] == 0x12 && |data| < 3 + n)
  {
    if 5 + LengthAt(data, 1) <= |data| {
      var at := 3 + LengthAt(data, 1);
      assert data[at..at + 2][0] == data[at] && data[at..at + 2][1] == data[at + 1];
    }
  }

  /** The length at `at` and that many bytes after it are in range and are f. */
  predicate FieldIs(data: Bytes, at: nat, f: Bytes) {
    && at + 2 <= |data|
    && var len := GetU16(data[at..at + 2]);
    && at + 2 + len <= |data|
    && data[at + 2..at + 2 + len] == f
  }

  lemma FieldReads(data: Bytes, at: nat, f: Bytes)
    requires FieldIs(data, at, f)
    ensures |f| < U16_LIMIT && Field(f) <= data[at..]
  {
    var lenBytes := data[at..at + 2];
    U16RoundTrip(|f|, lenBytes);
    FitsU16(|f|);
    assert Field(f) == lenBytes + f;
    assert data[at..][..2 + |f|] == lenBytes + f;
  }

  lemma FieldStands(data: Bytes, at: nat, f: Bytes)
    requires at <= |data| && |f| < U16_LIMIT && Field(f) <= data[at..]
    ensures FieldIs(data, at, f)
  {
    FitsU16(|f|);
    var rest := data[at..];
    assert rest[..2 + |f|] == Field(f);
    assert data[at..at + 2] == rest[..2 + |f|][..2] == PutU16(|f|);
    U16RoundTrip(|f|, PutU16(|f|));
    assert data[at + 2..at + 2 + |f|] == rest[..2 + |f|][2..] == f;
  }

  /** Reading one field by its length finds exactly the field whose encoding
      stands there. */
  lemma FieldAt(data: Bytes, at: nat, f: Bytes)
    requires at <= |data|
    ensures FieldIs(data, at, f) <==> |f| < U16_LIMIT && Field(f) <= data[at..]
  {
    if FieldIs(data, at, f) {
      FieldReads(data, at, f);
    }
    if |f| < U16_LIMIT && Field(f) <= data[at..] {
      FieldStands(data, at, f);
    }
  }

  lemma PrefixSplit(a: Bytes, b: Bytes, data: Bytes)
    ensures a + b <= data <==> a <= data && b <= data[|a|..]
  {
    if a + b <= data {
      assert data[..|a|] == (a + b)[..|a|] == a;
      assert data[|a|..][..|b|] == (a + b)[|a|..] == b;
    }
    if a <= data && b <= data[|a|..] {
      assert data[..|a| + |b|] == data[..|a|] + data[|a|..][..|b|];
    }
  }

  /** An encoding stands at the front of the data when its flag does and each
      field stands where the one before it ends. */
  lemma EncodingAt(data: Bytes, m: Message)
    ensures Fits(m) && Encode(m) <= data <==>
      1 <= |data| && data[0] == Flag(m) && FieldsAt(data, 1, Fields(m))
  {
    PrefixSplit([Flag(m)], EncodeFields(Fields(m)), data);
    if 1 <= |data| {
      FieldsAtExact(data, 1, Fields(m));
    }
  }

  predicate FieldsAt(data: Bytes, at: nat, fs: seq<Bytes>)
    decreases |fs|
  {
    fs == [] || (FieldIs(data, at, fs[0]) && FieldsAt(data, at + 2 + |fs[0]|, fs[1..]))
  }

  lemma AllShortTail(fs: seq<Bytes>)
    requires fs != []
    ensures AllShort(fs) <==> |fs[0]| < U16_LIMIT && AllShort(fs[1..])
  {
    assert forall i :: 0 < i < |fs| ==> fs[i] == fs[1..][i - 1];
  }

  lemma {:induction false} FieldsAtExact(data: Bytes, at: nat, fs: seq<Bytes>)
    requires at <= |data|
    ensures FieldsAt(data, at, fs) <==> AllShort(fs) && EncodeFields(fs) <= data[at..]
    decreases |fs|
  {
    if fs != [] {
      var f, next := fs[0], at + 2 + |fs[0]|;
      FieldAt(data, at, f);
      PrefixSplit(Field(f), EncodeFields(fs[1..]), data[at..]);
      AllShortTail(fs);
      if next <= |data| {
        FieldsAtExact(data, next, fs[1..]);
        assert data[at..][2 + |f|..] == data[next..];
      }
    }
  }

  lemma DecodeRequestExact(data: Bytes, m: Message)
    ensures DecodeRequest(data) == Ok(m)
            <==> m.HandshakeRequest? && Fits(m) && Encode(m) <= data
  {
    EncodingAt(data, m);
    if m.HandshakeRequest? {
      var at := 3 + |m.kemPublicKey|;
      assert FieldsAt(data, at, [m.suite]) <==> FieldIs(data, at, m.suite);
      assert FieldsAt(data, 1, Fields(m)) <==>
        FieldIs(data, 1, m.kemPublicKey) && FieldsAt(data, at, [m.suite]);
    }
  }

  lemma ThreeFieldsAt(data: Bytes, at: nat, f: Bytes, g: Bytes, h: Bytes)
    ensures FieldsAt(data, at, [f, g, h]) <==>
      && FieldIs(data, at, f) && FieldIs(data, at + 2 + |f|, g)
      && FieldIs(data, at + 2 + |f| + 2 + |g|, h)
  {
    var at2 := at + 2 + |f|;
    var at3 := at2 + 2 + |g|;
    assert FieldsAt(data, at3, [h]) <==> FieldIs(data, at3, h);
    assert FieldsAt(data, at2, [g, h]) <==> FieldIs(data, at2, g) && FieldsAt(data, at3, [h]);
    assert FieldsAt(data, at, [f, g, h]) <==> FieldIs(data, at, f) && FieldsAt(data, at2, [g, h]);
  }

  lemma DecodeAgreeExact(data: Bytes, m: Message)
    ensures DecodeAgree(data) == Ok(m)
            <==> m.HandshakeAgree? && Fits(m) && Encode(m) <= data
  {
    EncodingAt(data, m);
    if m.HandshakeAgree? {
      ThreeFieldsAt(data, 1, m.kemPublicKey, m.peerCiphertext, m.suite);
    }
  }

  /** The whole codec in one equivalence: the decoder of a flag returns m
      exactly on the inputs that start with the encoding of an m of that kind
      whose fields fit in 16-bit lengths. */
  lemma DecodeExact(flag: Byte, data: Bytes, m: Message)
    requires IsFlag(flag)
    ensures DecodeAs(flag, data) == Ok(m)
            <==> Flag(m) == flag && Fits(m) && Encode(m) <= data
  {
    if flag == FLAG_REQUEST {
      DecodeRequestExact(data, m);
    } else if flag == FLAG_AGREE {
      DecodeAgreeExact(data, m);
    } else {
      EncodingAt(data, m);
      if |Fields(m)| == 1 {
        assert FieldsAt(data, 1, Fields(m)) <==> FieldIs(data, 1, Fields(m)[0]);
      }
    }
  }

  /** Decoding an encoding, whatever follows it, gives the message back exactly
      when its lengths fit; a longer field is cut by the 16-bit length. */
  lemma RoundTripExact(m: Message, rest: Bytes)
    ensures DecodeAs(Flag(m), Encode(m) + rest) == Ok(m) <==> Fits(m)
  {
    DecodeExact(Flag(m), Encode(m) + rest, m);
  }

  /** No valid encoding is a prefix of another one, within or across formats. */
  lemma PrefixFree(m1: Message, m2: Message)
    requires Fits(m1) && Fits(m2)
    requires Encode(m1) <= Encode(m2)
    ensures m1 == m2
  {
    assert Encode(m1)[0] == Encode(m2)[0];
    DecodeExact(Flag(m1), Encode(m2), m1);
    DecodeExact(Flag(m1), Encode(m2), m2);
  }

  /** Whatever a decoder accepts re-encodes to a prefix of the input, and no
      other decoder accepts that input. */
  lemma DecoderSoundness(flag: Byte, other: Byte, data: Bytes)
    requires IsFlag(flag) && IsFlag(other)
    requires DecodeAs(flag, data).Ok?
    ensures var m := DecodeAs(flag, data).value;
      Flag(m) == flag && Fits(m) && Encode(m) <= data
    ensures DecodeAs(other, data).Ok? ==> other == flag
  {
    var m := DecodeAs(flag, data).value;
    DecodeExact(flag, data, m);
    if DecodeAs(other, data).Ok? {
      DecodeExact(other, data, DecodeAs(other, data).value);
    }
  }

  /** A truncated encoding is always rejected as too short, by the check that
      belongs to the part that is missing, never as a wrong flag. */
  lemma TruncationRejected(m: Message, n: nat)
    requires Fits(m) && n < |Encode(m)|
    ensures var r := DecodeAs(Flag(m), Encode(m)[..n]); r.Err? && r.error != InvalidFlag
  {
    var data := Encode(m)[..n];
    var r := DecodeAs(Flag(m), data);
    if r.Ok? {
      DecodeExact(Flag(m), data, r.value);
      assert Encode(r.value) <= Encode(m);
      PrefixFree(r.value, m);
    }
  }
}
