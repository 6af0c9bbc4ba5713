/** The encoders as the program runs them: writes into one preallocated buffer
    whose length trails its capacity (pkg/protocol/messages.go). */
module MessageWriter {
  import opened Basics
  import opened Messages

  /** The bytes with the two at `at` replaced by a 16-bit value. */
  function Patched(b: Bytes, at: nat, x: U16): Bytes
    requires at + 2 <= |b|
  {
    b[..at] + PutU16(x) + b[at + 2..]
  }

  lemma PatchBetween(a: Bytes, mid: Bytes, b: Bytes, x: U16)
    requires |mid| == 2
    ensures Patched(a + mid + b, |a|, x) == a + PutU16(x) + b
  {
    var s := a + mid + b;
    assert s[..|a|] == a;
    assert s[|a| + 2..] == b;
  }

  /** A slice that never outgrows its backing array. */
  class ByteBuffer {
    const data: array<Byte>
    var len: nat

    ghost predicate Valid()
      reads this
    {
      len <= data.Length
    }

    /** The bytes below the length: what a reader of the slice sees. */
    function Contents(): Bytes
      reads this, data
      requires Valid()
    {
      data[..len]
    }

    constructor (capacity: nat)
      ensures Valid() && fresh(data)
      ensures data.Length == capacity && len == 0
    {
      data := new Byte[capacity](_ => 0);
      len := 0;
    }

    /** Appends within the capacity. */
    method Append(bytes: Bytes)
      requires Valid() && len + |bytes| <= data.Length
      modifies this`len, data
      ensures Valid() && len == old(len) + |bytes|
      ensures Contents() == old(Contents()) + bytes
    {
      var i := 0;
      while i < |bytes|
        invariant 0 <= i <= |bytes|
        invariant len == old(len)
        invariant data[..len] == old(data[..len])
        invariant data[len..len + i] == bytes[..i]
      {
        data[len + i] := bytes[i];
        i := i + 1;
      }
      len := len + |bytes|;
    }

    /** Writes two bytes at a position that only has to lie inside the capacity;
        the length does not move. */
    method PutU16At(at: nat, x: U16)
      requires Valid() && at + 2 <= data.Length
      modifies data
      ensures Valid()
      ensures len <= at ==> Contents() == old(Contents())
      ensures at + 2 <= len ==> Contents() == Patched(old(Contents()), at, x)
    {
      data[at] := PutU16(x)[0];
      data[at + 1] := PutU16(x)[1];
    }
  }

  /** The request before its two lengths are patched in. */
  function Unpatched(key: Bytes, suite: Bytes): Bytes {
    [FLAG_REQUEST] + Zeros(2) + key + Zeros(2) + suite
  }

  lemma RequestEncoding(key: Bytes, suite: Bytes)
    ensures [FLAG_REQUEST] + Field(key) + PutU16(|suite| % U16_LIMIT) + suite == Encode(HandshakeRequest(key, suite))
  {
    Unfold(HandshakeRequest(key, suite));
    var front := [FLAG_REQUEST] + Field(key);
    assert front + PutU16(|suite| % U16_LIMIT) + suite == front + Field(suite);
  }

  lemma BothPatches(key: Bytes, suite: Bytes)
    ensures var once := Patched(Unpatched(key, suite), 1, |key| % U16_LIMIT);
      && |once| == 5 + |key| + |suite|
      && Patched(once, 3 + |key|, |suite| % U16_LIMIT) == Encode(HandshakeRequest(key, suite))
  {
    var rest := key + Zeros(2) + suite;
    assert Unpatched(key, suite) == [FLAG_REQUEST] + Zeros(2) + rest;
    PatchBetween([FLAG_REQUEST], Zeros(2), rest, |key| % U16_LIMIT);
    var front := [FLAG_REQUEST] + Field(key);
    assert Patched(Unpatched(key, suite), 1, |key| % U16_LIMIT) == front + Zeros(2) + suite;
    PatchBetween(front, Zeros(2), suite, |suite| % U16_LIMIT);
    RequestEncoding(key, suite);
  }

  /** HandshakeRequest.Serialize: each length is written beyond the current
      length, wiped by the two zero bytes appended over it, and patched in at
      the end. No write leaves the capacity computed up front, and the result
      is the plain concatenation. */
  method SerializeRequest(key: Bytes, suite: Bytes) returns (out: Bytes)
    ensures out == Encode(HandshakeRequest(key, suite))
  {
    var totalLen := 1 + 2 + |key| + 2 + |suite|;
    var buf := new ByteBuffer(totalLen);

    buf.Append([FLAG_REQUEST]);
    assert buf.Contents() == [FLAG_REQUEST];
    buf.PutU16At(buf.len, |key| % U16_LIMIT);
    buf.Append(Zeros(2));
    buf.Append(key);

    buf.PutU16At(buf.len, |suite| % U16_LIMIT);
    buf.Append(Zeros(2));
    buf.Append(suite);

    ghost var unpatched := buf.Contents();
    var offset := 1;
    buf.PutU16At(offset, |key| % U16_LIMIT);
    offset := offset + 2 + |key|;
    buf.PutU16At(offset, |suite| % U16_LIMIT);

    out := buf.Contents();
    assert unpatched == Unpatched(key, suite);
    BothPatches(key, suite);
  }

  /** One field of the other encoders: two zero bytes are appended, the length
      is patched over them, the bytes follow. */
  method AppendField(buf: ByteBuffer, f: Bytes)
    requires buf.Valid() && buf.len + 2 + |f| <= buf.data.Length
    modifies buf`len, buf.data
    ensures buf.Valid() && buf.len == old(buf.len) + 2 + |f|
    ensures buf.Contents() == old(buf.Contents()) + Field(f)
  {
    ghost var start := buf.Contents();
    buf.Append(Zeros(2));
    PatchBetween(start, Zeros(2), [], |f| % U16_LIMIT);
    assert start + Zeros(2) + [] == buf.Contents();
    buf.PutU16At(buf.len - 2, |f| % U16_LIMIT);
    buf.Append(f);
  }

  method SerializeAgree(key: Bytes, ct: Bytes, suite: Bytes) returns (out: Bytes)
    ensures out == Encode(HandshakeAgree(key, ct, suite))
  {
    var buf := new ByteBuffer(1 + 2 + |key| + 2 + |ct| + 2 + |suite|);
    buf.Append([FLAG_AGREE]);
    assert buf.Contents() == [FLAG_AGREE];
    AppendField(buf, key);
    AppendField(buf, ct);
    AppendField(buf, suite);
    out := buf.Contents();
    Unfold(HandshakeAgree(key, ct, suite));
  }

  /** The body shared by the four encoders of one-field messages. */
  method SerializeOne(flag: Byte, f: Bytes) returns (out: Bytes)
    ensures out == [flag] + Field(f)
  {
    var buf := new ByteBuffer(1 + 2 + |f|);
    buf.Append([flag]);
    assert buf.Contents() == [flag];
    AppendField(buf, f);
    out := buf.Contents();
  }

  method Serialize(m: Message) returns (out: Bytes)
    ensures out == Encode(m)
  {
    Unfold(m);
    match m
    case HandshakeRequest(key, suite) => out := SerializeRequest(key, suite);
    case HandshakeAgree(key, ct, suite) => out := SerializeAgree(key, ct, suite);
    case HandshakeFinish(ct) => out := SerializeOne(FLAG_FINISH, ct);
    case IdentityMsg(pub) => out := SerializeOne(FLAG_IDENTITY, pub);
    case Challenge(nonce) => out := SerializeOne(FLAG_CHALLENGE, nonce);
    case SignatureResponse(sig) => out := SerializeOne(FLAG_SIGNATURE, sig);
  }
}
