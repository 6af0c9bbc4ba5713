/** Fragment headers, the cutting of a message into packets, and the sender
    (pkg/protocol/fragment.go, first half). */
module Fragment {
  import opened Basics

  const HEADER_SIZE := 13

  datatype Header = Header(flag: Byte, index: U16, total: U16, msgLen: U32, msgID: U32)

  function Marshal(h: Header): (b: Bytes)
    ensures |b| == HEADER_SIZE
  {
    [h.flag] + PutU16(h.index) + PutU16(h.total) + PutU32(h.msgLen) + PutU32(h.msgID)
  }

  function Unmarshal(data: Bytes): Option<Header> {
    if |data| < HEADER_SIZE then None
    else Some(Header(data[0], GetU16(data[1..3]), GetU16(data[3..5]),
                     GetU32(data[5..9]), GetU32(data[9..13])))
  }

  /** Writes 16 bits where the zeros of a half-filled buffer begin. */
  method PutNext(buf: array<Byte>, ghost written: Bytes, at: nat, x: U16)
    requires at == |written| && at + 2 <= buf.Length
    requires buf[..] == written + Zeros(buf.Length - at)
    modifies buf
    ensures buf[..] == (written + PutU16(x)) + Zeros(buf.Length - at - 2)
  {
    buf[at], buf[at + 1] := PutU16(x)[0], PutU16(x)[1];
  }

  method MarshalBinary(h: Header) returns (out: Bytes)
    ensures out == Marshal(h)
  {
    var buf := new Byte[HEADER_SIZE](_ => 0);
    buf[0] := h.flag;
    ghost var w0 := [h.flag];
    ghost var w1 := w0 + PutU16(h.index);
    ghost var w2 := w1 + PutU16(h.total);
    ghost var w3 := w2 + PutU16(h.msgLen / 0x1_0000);
    ghost var w4 := w3 + PutU16(h.msgLen % 0x1_0000);
    ghost var w5 := w4 + PutU16(h.msgID / 0x1_0000);
    PutNext(buf, w0, 1, h.index);
    PutNext(buf, w1, 3, h.total);
    PutNext(buf, w2, 5, h.msgLen / 0x1_0000);
    PutNext(buf, w3, 7, h.msgLen % 0x1_0000);
    PutNext(buf, w4, 9, h.msgID / 0x1_0000);
    PutNext(buf, w5, 11, h.msgID % 0x1_0000);
    out := buf[..];
    MarshalInOrder(h);
  }

  /** The header on the wire, byte by byte. */
  lemma HeaderLayout(h: Header)
    ensures var b := Marshal(h);
      && |b| == 13 && b[0] == h.flag
      && b[1] as int * 256 + b[2] as int == h.index
      && b[3] as int * 256 + b[4] as int == h.total
      && ((b[5] as int * 256 + b[6] as int) * 256 + b[7] as int) * 256 + b[8] as int == h.msgLen
      && ((b[9] as int * 256 + b[10] as int) * 256 + b[11] as int) * 256 + b[12] as int == h.msgID
  {
    BigEndian(h.msgLen);
    BigEndian(h.msgID);
    var b := Marshal(h);
    assert b[5..9] == PutU32(h.msgLen) && b[9..13] == PutU32(h.msgID);
    assert b[5..9][0] == b[5] && b[5..9][1] == b[6] && b[5..9][2] == b[7] && b[5..9][3] == b[8];
    assert b[9..13][0] == b[9] && b[9..13][1] == b[10] && b[9..13][2] == b[11] && b[9..13][3] == b[12];
  }

  lemma BigEndian(x: U32)
    ensures var b := PutU32(x);
      ((b[0] as int * 256 + b[1] as int) * 256 + b[2] as int) * 256 + b[3] as int == x
  {
  }

  /** What is too short to hold a header has none. */
  lemma HeaderNeeds13(data: Bytes)
    ensures Unmarshal(data) == None <==> |data| < 13
  {
  }

  lemma MarshalInOrder(h: Header)
    ensures Marshal(h) ==
      ((((([h.flag] + PutU16(h.index)) + PutU16(h.total))
      + PutU16(h.msgLen / 0x1_0000)) + PutU16(h.msgLen % 0x1_0000))
      + PutU16(h.msgID / 0x1_0000)) + PutU16(h.msgID % 0x1_0000) + Zeros(0)
  {
  }

  lemma UnmarshalMarshal(h: Header, payload: Bytes)
    ensures Unmarshal(Marshal(h) + payload) == Some(h)
    ensures (Marshal(h) + payload)[HEADER_SIZE..] == payload
  {
    var d := Marshal(h) + payload;
    assert d[1..3] == PutU16(h.index) && d[3..5] == PutU16(h.total);
    assert d[5..9] == PutU32(h.msgLen) && d[9..13] == PutU32(h.msgID);
    U16RoundTrip(h.index, PutU16(0));
    U16RoundTrip(h.total, PutU16(0));
    U32RoundTrip(h.msgLen, PutU32(0));
    U32RoundTrip(h.msgID, PutU32(0));
  }

  /** Headers and 13-byte strings are in bijection. */
  lemma HeaderBijection(h: Header, b: Bytes)
    requires |b| == HEADER_SIZE
    ensures Unmarshal(Marshal(h)) == Some(h)
    ensures Unmarshal(b).Some? && Marshal(Unmarshal(b).value) == b
  {
    UnmarshalMarshal(h, []);
    assert Marshal(h) + [] == Marshal(h);
    U16RoundTrip(0, b[1..3]);
    U16RoundTrip(0, b[3..5]);
    U32RoundTrip(0, b[5..9]);
    U32RoundTrip(0, b[9..13]);
    assert b == [b[0]] + b[1..3] + b[3..5] + b[5..9] + b[9..13];
  }

  // ---------- Cutting ----------

  function CeilDiv(n: nat, max: nat): nat
    requires 0 < max
  {
    (n + max - 1) / max
  }

  /** The number of fragments, in the 16 bits the header has for it. */
  function Count(len: nat, max: nat): U16
    requires 0 < max
  {
    if len <= max then 1 else CeilDiv(len, max) % U16_LIMIT
  }

  /** The count above is the true one. */
  predicate Countable(len: nat, max: nat)
    requires 0 < max
  {
    CeilDiv(len, max) < U16_LIMIT
  }

  function Chunk(data: Bytes, max: nat, i: nat): Bytes {
    var offset := Min(i * max, |data|);
    data[offset..Min(offset + max, |data|)]
  }

  /** The pieces SendFragmented cuts a message into. */
  function Cut(data: Bytes, max: nat): (chunks: seq<Bytes>)
    requires 0 < max
    ensures |chunks| == Count(|data|, max)
  {
    seq(Count(|data|, max), i requires 0 <= i => Chunk(data, max, i))
  }

  /** One packet for each piece: a header that numbers it, then its bytes. */
  function Frames(flag: Byte, msgLen: U32, chunks: seq<Bytes>, msgID: U32): (ps: seq<Bytes>)
    requires |chunks| < U16_LIMIT
    ensures |ps| == |chunks|
  {
    seq(|chunks|, i requires 0 <= i < |chunks| =>
      Marshal(Header(flag, i, |chunks|, msgLen, msgID)) + chunks[i])
  }

  /** Everything SendFragmented puts on the wire for one message. */
  function Packets(flag: Byte, data: Bytes, max: nat, msgID: U32): seq<Bytes>
    requires 0 < max
  {
    Frames(flag, |data| % U32_LIMIT, Cut(data, max), msgID)
  }

  /** CeilDiv(n, max) is the least k with k * max >= n. */
  lemma CeilDivLeast(n: nat, max: nat, k: nat)
    requires 0 < max
    ensures n <= k * max <==> CeilDiv(n, max) <= k
  {
    var q := CeilDiv(n, max);
    var r := (n + max - 1) % max;
    assert n + max - 1 == q * max + r;
    if q <= k {
      assert q * max <= k * max;
    } else {
      assert (k + 1) * max <= q * max;
      assert (k + 1) * max == k * max + max;
    }
  }

  function Concat(chunks: seq<Bytes>): Bytes {
    if chunks == [] then [] else Concat(chunks[..|chunks| - 1]) + chunks[|chunks| - 1]
  }

  lemma ChunkExtends(data: Bytes, max: nat, k: nat)
    ensures data[..Min(k * max, |data|)] + Chunk(data, max, k) == data[..Min((k + 1) * max, |data|)]
  {
    assert (k + 1) * max == k * max + max;
  }

  lemma {:induction false} CutIsPrefix(data: Bytes, max: nat, k: nat)
    requires 0 < max && k <= Count(|data|, max)
    ensures Concat(Cut(data, max)[..k]) == data[..Min(k * max, |data|)]
  {
    if k > 0 {
      var front := Cut(data, max)[..k];
      CutIsPrefix(data, max, k - 1);
      assert front[..k - 1] == Cut(data, max)[..k - 1] && front[k - 1] == Chunk(data, max, k - 1);
      ChunkExtends(data, max, k - 1);
    }
  }

  /** The sizes of the chunks of a message that needs cutting: one that starts
      inside the data is nonempty, and full unless it reaches the end. */
  lemma ChunkSizes(data: Bytes, max: nat, i: nat)
    requires 0 < max < |data| && i < CeilDiv(|data|, max)
    ensures 0 < |Chunk(data, max, i)| <= max
    ensures i + 1 < CeilDiv(|data|, max) ==> |Chunk(data, max, i)| == max
  {
    CeilDivLeast(|data|, max, i);
    CeilDivLeast(|data|, max, i + 1);
    assert (i + 1) * max == i * max + max;
  }

  /** The pieces concatenate to the message exactly when the true number of
      pieces fits in 16 bits; beyond that only a proper prefix is sent. */
  lemma FragmentationExact(data: Bytes, max: nat)
    requires 0 < max
    ensures Concat(Cut(data, max)) == data <==> Countable(|data|, max)
    ensures Countable(|data|, max) && max < |data| ==> |Cut(data, max)| == CeilDiv(|data|, max)
    ensures Countable(|data|, max) ==> 1 <= |Cut(data, max)|
  {
    var n := Count(|data|, max);
    CutIsPrefix(data, max, n);
    assert Cut(data, max)[..n] == Cut(data, max);
    CeilDivLeast(|data|, max, n);
    CeilDivLeast(|data|, max, 1);
  }

  /** With 65536 pieces or more only the remainder is cut, and the rest of the
      message is never sent. */
  lemma OverlongCut(data: Bytes, max: nat, q: nat, r: nat)
    requires 0 < max && CeilDiv(|data|, max) == 65536 * q + r && 0 < q && r < 65536
    ensures |Cut(data, max)| == r && r * max < |data|
    ensures Concat(Cut(data, max)) == data[..r * max]
  {
    CeilDivLeast(|data|, max, 1);
    CeilDivLeast(|data|, max, r);
    CutIsPrefix(data, max, r);
    assert Cut(data, max)[..r] == Cut(data, max);
  }

  // ---------- The transport and the sender ----------

  /** A packet and the two clock readings taken while it is processed. */
  datatype Arrival = Arrival(packet: Bytes, checkedAt: int, cleanedAt: int)

  datatype TransportError = Closed

  /** An in-memory connection: what was sent, how many more sends will succeed,
      and what will still be received before the connection closes. */
  class Transport {
    var sent: seq<Bytes>
    var sendsLeft: nat
    var inbox: seq<Arrival>

    constructor (inbox: seq<Arrival>, sendsLeft: nat)
      ensures sent == [] && this.sendsLeft == sendsLeft && this.inbox == inbox
    {
      this.sent, this.sendsLeft, this.inbox := [], sendsLeft, inbox;
    }

    method Send(packet: Bytes) returns (r: Result<(), TransportError>)
      modifies this`sent, this`sendsLeft
      ensures r.Ok? <==> 0 < old(sendsLeft)
      ensures r.Ok? ==> sent == old(sent) + [packet] && sendsLeft == old(sendsLeft) - 1
      ensures r.Err? ==> sent == old(sent) && sendsLeft == old(sendsLeft)
    {
      if sendsLeft == 0 {
        return Err(Closed);
      }
      sent, sendsLeft := sent + [packet], sendsLeft - 1;
      return Ok(());
    }

    method Recv() returns (r: Result<Arrival, TransportError>)
      modifies this`inbox
      ensures r.Ok? <==> old(inbox) != []
      ensures r.Ok? ==> r.value == old(inbox)[0] && inbox == old(inbox)[1..]
      ensures r.Err? ==> inbox == old(inbox)
    {
      if inbox == [] {
        return Err(Closed);
      }
      r := Ok(inbox[0]);
      inbox := inbox[1..];
    }
  }

  /** A piece that starts inside the data is a plain slice of it. */
  lemma ChunkIsSlice(data: Bytes, max: nat, i: nat)
    requires 0 < max < |data| && i < CeilDiv(|data|, max)
    ensures i * max < |data|
    ensures Chunk(data, max, i) == data[i * max..Min(i * max + max, |data|)]
  {
    CeilDivLeast(|data|, max, i);
  }

  lemma CountAtMostTrue(len: nat, max: nat)
    requires 0 < max < len
    ensures Count(len, max) <= CeilDiv(len, max)
  {
  }

  /** The i-th packet of a message that needs cutting, in terms of plain slices. */
  lemma PacketParts(flag: Byte, data: Bytes, max: nat, msgID: U32, i: nat)
    requires 0 < max < |data| && i < Count(|data|, max)
    ensures i * max < |data|
    ensures Packets(flag, data, max, msgID)[i]
      == Marshal(Header(flag, i, Count(|data|, max), |data| % U32_LIMIT, msgID))
         + data[i * max..Min(i * max + max, |data|)]
  {
    CountAtMostTrue(|data|, max);
    ChunkIsSlice(data, max, i);
    var chunks := Cut(data, max);
    assert chunks[i] == Chunk(data, max, i);
  }

  /** A message that fits one packet goes out whole, numbered 0 of 1. */
  lemma WholePacket(flag: Byte, data: Bytes, max: nat, msgID: U32)
    requires 0 < max && |data| <= max
    ensures Packets(flag, data, max, msgID)
      == [Marshal(Header(flag, 0, 1, |data| % 0x1_0000_0000, msgID)) + data]
  {
    assert Chunk(data, max, 0) == data;
  }

  datatype SendError = MaxFragmentSizeTooSmall | SendFailed

  /** SendFragmented, with the random message id as a parameter. */
  method SendFragmented(transport: Transport, data: Bytes, flag: Byte, max: int, msgID: U32)
    returns (r: Result<(), SendError>)
    modifies transport`sent, transport`sendsLeft
    ensures max < 100 ==> r == Err(MaxFragmentSizeTooSmall) && transport.sent == old(transport.sent)
                          && transport.sendsLeft == old(transport.sendsLeft)
    ensures 100 <= max ==>
      var ps := Packets(flag, data, max, msgID);
      var n := Min(|ps|, old(transport.sendsLeft));
      && transport.sent == old(transport.sent) + ps[..n]
      && transport.sendsLeft == old(transport.sendsLeft) - n
      && r == if n == |ps| then Ok(()) else Err(SendFailed)
  {
    if max < 100 {
      return Err(MaxFragmentSizeTooSmall);
    }
    ghost var ps := Packets(flag, data, max, msgID);

    if |data| <= max {
      var hb := MarshalBinary(Header(flag, 0, 1, |data| % U32_LIMIT, msgID));
      assert ps == [hb + data] by {
        assert Chunk(data, max, 0) == data;
      }
      var sent := transport.Send(hb + data);
      return if sent.Ok? then Ok(()) else Err(SendFailed);
    }

    var total: U16 := ((|data| + max - 1) / max) % U16_LIMIT;
    var i: U16 := 0;
    while i < total
      invariant 0 <= i <= total == |ps|
      invariant transport.sent == old(transport.sent) + ps[..i]
      invariant transport.sendsLeft == old(transport.sendsLeft) - i
    {
      PacketParts(flag, data, max, msgID, i);
      var offset := i * max;
      var end := offset + max;
      if end > |data| {
        end := |data|;
      }
      var chunk := data[offset..end];
      var hb := MarshalBinary(Header(flag, i, total, |data| % U32_LIMIT, msgID));
      var sent := transport.Send(hb + chunk);
      if sent.Err? {
        return Err(SendFailed);
      }
      assert ps[..i + 1] == ps[..i] + [ps[i]];
      i := i + 1;
    }
    return Ok(());
  }
}
