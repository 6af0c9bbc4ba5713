/** Safety of reassembly over every run: packets of known messages, dropped,
    duplicated, reordered, interleaved and purged at will, never make the buffer
    return anything but a message that was sent. */
module ReassemblySafety {
  import opened Basics
  import opened Fragment
  import opened Reassembly
  import opened SharedBuffer
  import Gathering

  /** A message on its way over one connection, the length its headers claim, and
      the pieces it was cut into. */
  datatype Outgoing = Outgoing(conn: nat, flag: Byte, data: Bytes, msgLen: U32, chunks: seq<Bytes>)

  /** The messages in flight. A map, because their ids are distinct. */
  type Messages = map<U32, Outgoing>

  /** What SendFragmented makes of a message. */
  function Sending(conn: nat, flag: Byte, data: Bytes, max: nat): Outgoing
    requires 0 < max
  {
    Outgoing(conn, flag, data, |data| % U32_LIMIT, Cut(data, max))
  }

  /** The pieces make up the message and their number fits in 16 bits. */
  predicate WellCut(o: Outgoing) {
    0 < |o.chunks| < U16_LIMIT && Concat(o.chunks) == o.data
  }

  /** A message is well cut by the sender exactly when its true number of pieces
      fits in 16 bits. */
  lemma SendingIsWellCut(conn: nat, flag: Byte, data: Bytes, max: nat)
    requires 0 < max
    ensures WellCut(Sending(conn, flag, data, max)) <==> Countable(|data|, max)
  {
    FragmentationExact(data, max);
  }

  ghost predicate AllWellCut(sent: Messages) {
    forall id :: id in sent ==> WellCut(sent[id])
  }

  function Parts(o: Outgoing): nat {
    |o.chunks|
  }

  function FramesOf(o: Outgoing, id: U32): seq<Bytes>
    requires WellCut(o)
  {
    Frames(o.flag, o.msgLen, o.chunks, id)
  }

  /** The event delivers the i-th packet of message `id` on its own connection. */
  ghost predicate Carries(sent: Messages, ev: Event, id: U32, i: U16)
    requires AllWellCut(sent)
  {
    && id in sent && sent[id].conn == ev.conn && i < Parts(sent[id])
    && ev.packet == FramesOf(sent[id], id)[i]
  }

  ghost predicate Authentic(sent: Messages, ev: Event)
    requires AllWellCut(sent)
  {
    exists id, i :: Carries(sent, ev, id, i)
  }

  ghost predicate AllAuthentic(sent: Messages, evs: seq<Event>)
    requires AllWellCut(sent)
  {
    forall k :: 0 <= k < |evs| ==> Authentic(sent, evs[k])
  }

  function IdOf(ev: Event): U32 {
    match Unmarshal(ev.packet) case Some(h) => h.msgID case None => 0
  }

  function IndexOf(ev: Event): U16 {
    match Unmarshal(ev.packet) case Some(h) => h.index case None => 0
  }

  /** A packet says which message and which piece of it it is. */
  lemma FrameHeader(o: Outgoing, id: U32, i: U16)
    requires WellCut(o) && i < Parts(o)
    ensures var packet := FramesOf(o, id)[i];
      && Unmarshal(packet) == Some(Header(o.flag, i, Parts(o), o.msgLen, id))
      && packet[HEADER_SIZE..] == o.chunks[i]
  {
    UnmarshalMarshal(Header(o.flag, i, Parts(o), o.msgLen, id), o.chunks[i]);
  }

  lemma CarriesParts(sent: Messages, ev: Event, id: U32, i: U16)
    requires AllWellCut(sent) && Carries(sent, ev, id, i)
    ensures IdOf(ev) == id && IndexOf(ev) == i
  {
    FrameHeader(sent[id], id, i);
  }

  lemma AuthenticCarries(sent: Messages, ev: Event)
    requires AllWellCut(sent) && Authentic(sent, ev)
    ensures Carries(sent, ev, IdOf(ev), IndexOf(ev))
  {
    var id, i :| Carries(sent, ev, id, i);
    CarriesParts(sent, ev, id, i);
  }

  // ---------- One slot ----------

  /** Stored fragments are a proper part of the true ones. */
  ghost predicate Partial(o: Outgoing, m: Slot)
    requires WellCut(o)
  {
    && |m| < Parts(o)
    && forall i :: i in m ==> i < Parts(o) && m[i] == o.chunks[i]
  }

  lemma {:induction false} JoinIsConcat(m: Slot, chunks: seq<Bytes>, n: nat)
    requires n <= |chunks| < U16_LIMIT
    requires forall i: U16 :: i < n ==> i in m && m[i] == chunks[i]
    ensures Join(m, n) == Concat(chunks[..n])
  {
    if n > 0 {
      JoinIsConcat(m, chunks, n - 1);
      assert (n - 1) in m;
      assert chunks[..n][..n - 1] == chunks[..n - 1];
    }
  }

  lemma FullSlotJoins(o: Outgoing, m: Slot)
    requires WellCut(o)
    requires forall i: U16 :: i < Parts(o) ==> i in m && m[i] == o.chunks[i]
    ensures Join(m, Parts(o)) == o.data
  {
    JoinIsConcat(m, o.chunks, Parts(o));
    assert o.chunks[..Parts(o)] == o.chunks;
  }

  /** Inserting a true fragment keeps the slot a proper part, or completes the
      message and delivers exactly its flag and bytes. */
  lemma InsertIsSafe(o: Outgoing, m: Slot, h: Header, i: U16)
    requires WellCut(o) && Partial(o, m)
    requires i < Parts(o) && h.flag == o.flag && h.index == i && h.total == Parts(o)
    ensures var m' := m[i := o.chunks[i]];
      Insert(m, h, o.chunks[i])
      == if |m'| == Parts(o) then (map[], Delivered(o.flag, o.data)) else (m', Stored)
    ensures Partial(o, map[]) && Partial(o, Insert(m, h, o.chunks[i]).0)
  {
    var m': Slot := m[i := o.chunks[i]];
    assert m'.Keys == m.Keys + {i};
    Gathering.Pigeonhole(m'.Keys, Parts(o));
    assert |m'| == |m'.Keys| <= Parts(o);
    FitsU16(|m'|);
    if |m'| == Parts(o) {
      FullSlotJoins(o, m');
    }
  }

  // ---------- One message in the shared buffer ----------

  /** What the i-th piece of message `id` does to a safe buffer: a message of one
      piece is delivered and never stored; a piece of a longer one is added to
      its own entry, and the piece that makes the entry as large as the number of
      parts delivers the message. */
  ghost predicate Advances(o: Outgoing, id: U32, i: U16, f: Fragments, f': Fragments, outcome: Outcome)
    requires WellCut(o)
  {
    && i < Parts(o)
    && if Parts(o) == 1 then f' == f && outcome == Delivered(o.flag, o.data)
       else
         var m := Entry(f, id)[i := o.chunks[i]];
         && Partial(o, Entry(f, id))
         && if |m| == Parts(o) then f' == WithEntry(f, id, map[]) && outcome == Delivered(o.flag, o.data)
            else Partial(o, m) && f' == WithEntry(f, id, m) && outcome == Stored
  }

  /** The buffer a packet of message `o` meets: the purge that may come first
      only runs for packets of messages with several pieces. */
  function Purged(o: Outgoing, f: Fragments, evicted: set<U32>): Fragments {
    if Parts(o) == 1 then f else f - evicted
  }

  lemma SinglePacketAdvances(o: Outgoing, id: U32, f: Fragments, ev: Event)
    requires WellCut(o) && Parts(o) == 1 && ev.packet == FramesOf(o, id)[0]
    ensures Process(f, ev) == (f, Delivered(o.flag, o.data))
  {
    FrameHeader(o, id, 0);
    assert o.chunks[..|o.chunks| - 1] == [];
    assert Concat(o.chunks) == Concat([]) + o.chunks[0] == o.chunks[0];
  }

  lemma PieceAdvances(o: Outgoing, id: U32, i: U16, f: Fragments, ev: Event)
    requires WellCut(o) && i < Parts(o) != 1 && ev.packet == FramesOf(o, id)[i]
    requires Partial(o, Entry(f - ev.evicted, id))
    ensures Advances(o, id, i, f - ev.evicted, Process(f, ev).0, Process(f, ev).1)
  {
    FrameHeader(o, id, i);
    var h := Header(o.flag, i, Parts(o), o.msgLen, id);
    var kept := f - ev.evicted;
    assert Process(f, ev) == InsertInto(kept, h, o.chunks[i]);
    InsertIsSafe(o, Entry(kept, id), h, i);
  }

  lemma FrameAdvances(o: Outgoing, id: U32, i: U16, f: Fragments, ev: Event)
    requires WellCut(o) && i < Parts(o) && ev.packet == FramesOf(o, id)[i]
    requires Parts(o) == 1 || Partial(o, Entry(f - ev.evicted, id))
    ensures Advances(o, id, i, Purged(o, f, ev.evicted), Process(f, ev).0, Process(f, ev).1)
  {
    if Parts(o) == 1 {
      SinglePacketAdvances(o, id, f, ev);
    } else {
      PieceAdvances(o, id, i, f, ev);
    }
  }

  predicate BelongsTo(id: U32, ev: Event) {
    Unmarshal(ev.packet).Some? && IdOf(ev) == id
  }

  /** A packet that claims to be of message `id` is one of its true packets. */
  ghost predicate Genuine(o: Outgoing, id: U32, ev: Event)
    requires WellCut(o)
  {
    BelongsTo(id, ev) ==> IndexOf(ev) < Parts(o) && ev.packet == FramesOf(o, id)[IndexOf(ev)]
  }

  /** Nothing is assumed about the packets of any other message. */
  ghost predicate Unforged(o: Outgoing, id: U32, evs: seq<Event>)
    requires WellCut(o)
  {
    forall k :: 0 <= k < |evs| ==> Genuine(o, id, evs[k])
  }

  lemma OthersKeepEntry(id: U32, f: Fragments, ev: Event)
    requires !BelongsTo(id, ev)
    ensures Entry(Process(f, ev).0, id) == if ReachesLock(ev.packet) && id in ev.evicted then map[] else Entry(f, id)
  {
    ProcessEntry(id, f, ev);
  }

  lemma AdvancesIsPartial(o: Outgoing, id: U32, i: U16, f: Fragments, f': Fragments, outcome: Outcome)
    requires WellCut(o) && Advances(o, id, i, f, f', outcome) && Partial(o, Entry(f, id))
    ensures Partial(o, Entry(f', id))
    ensures outcome == Stored || outcome == Delivered(o.flag, o.data)
  {
  }

  lemma GenuineAdvances(o: Outgoing, id: U32, f: Fragments, ev: Event)
    requires WellCut(o) && Genuine(o, id, ev) && BelongsTo(id, ev) && Partial(o, Entry(f, id))
    ensures Partial(o, Entry(Purged(o, f, ev.evicted), id))
    ensures Advances(o, id, IndexOf(ev), Purged(o, f, ev.evicted), Process(f, ev).0, Process(f, ev).1)
  {
    FrameAdvances(o, id, IndexOf(ev), f, ev);
  }

  /** One event of any receiver: the entry of the message stays a proper part of
      it, and its own packets are only stored or deliver exactly it. */
  lemma EventIsSafe(o: Outgoing, id: U32, f: Fragments, ev: Event)
    requires WellCut(o) && Genuine(o, id, ev) && Partial(o, Entry(f, id))
    ensures Partial(o, Entry(Process(f, ev).0, id))
    ensures BelongsTo(id, ev) ==> Process(f, ev).1 == Stored || Process(f, ev).1 == Delivered(o.flag, o.data)
  {
    if BelongsTo(id, ev) {
      GenuineAdvances(o, id, f, ev);
      AdvancesIsPartial(o, id, IndexOf(ev), Purged(o, f, ev.evicted), Process(f, ev).0, Process(f, ev).1);
    } else {
      OthersKeepEntry(id, f, ev);
    }
  }

  lemma {:induction false} EntryStaysPartial(o: Outgoing, id: U32, f: Fragments, evs: seq<Event>)
    requires WellCut(o) && Unforged(o, id, evs) && Partial(o, Entry(f, id))
    ensures Partial(o, Entry(StateAfter(f, evs), id))
  {
    if evs != [] {
      var init, last := evs[..|evs| - 1], evs[|evs| - 1];
      assert Genuine(o, id, last);
      EntryStaysPartial(o, id, f, init);
      EventIsSafe(o, id, StateAfter(f, init), last);
    }
  }

  /** Safety of one message among any others, forged ones included: every answer
      to its packets is "stored" or its exact flag and bytes. */
  lemma MessageSafety(o: Outgoing, id: U32, f: Fragments, evs: seq<Event>, k: nat)
    requires WellCut(o) && Unforged(o, id, evs) && Partial(o, Entry(f, id))
    requires k < |evs| && BelongsTo(id, evs[k])
    ensures OutcomeAt(f, evs, k) == Stored || OutcomeAt(f, evs, k) == Delivered(o.flag, o.data)
  {
    assert Genuine(o, id, evs[k]);
    EntryStaysPartial(o, id, f, evs[..k]);
    EventIsSafe(o, id, StateAfter(f, evs[..k]), evs[k]);
  }

  // ---------- All messages together ----------

  ghost predicate Safe(sent: Messages, f: Fragments)
    requires AllWellCut(sent)
  {
    forall id :: id in f ==> id in sent && Partial(sent[id], f[id])
  }

  lemma AuthenticIsUnforged(sent: Messages, evs: seq<Event>, id: U32)
    requires AllWellCut(sent) && AllAuthentic(sent, evs) && id in sent
    ensures Unforged(sent[id], id, evs)
  {
    forall k | 0 <= k < |evs| ensures Genuine(sent[id], id, evs[k]) {
      AuthenticCarries(sent, evs[k]);
    }
  }

  lemma OnlyOwnEntryOpens(f: Fragments, ev: Event)
    ensures Process(f, ev).0.Keys <= f.Keys + {IdOf(ev)}
    ensures !ReachesLock(ev.packet) ==> Process(f, ev).0 == f
  {
  }

  /** Only messages whose packets reach the lock have entries. */
  lemma {:induction false} EntriesAreKnown(ids: set<U32>, f: Fragments, evs: seq<Event>)
    requires f.Keys <= ids
    requires forall k :: 0 <= k < |evs| && ReachesLock(evs[k].packet) ==> IdOf(evs[k]) in ids
    ensures StateAfter(f, evs).Keys <= ids
  {
    if evs != [] {
      var init, last := evs[..|evs| - 1], evs[|evs| - 1];
      EntriesAreKnown(ids, f, init);
      OnlyOwnEntryOpens(StateAfter(f, init), last);
    }
  }

  lemma RunIsSafe(sent: Messages, f: Fragments, evs: seq<Event>)
    requires AllWellCut(sent) && Safe(sent, f) && AllAuthentic(sent, evs)
    ensures Safe(sent, StateAfter(f, evs))
  {
    forall k | 0 <= k < |evs| ensures IdOf(evs[k]) in sent {
      AuthenticCarries(sent, evs[k]);
    }
    EntriesAreKnown(sent.Keys, f, evs);
    forall id | id in StateAfter(f, evs) ensures Partial(sent[id], Entry(StateAfter(f, evs), id)) {
      AuthenticIsUnforged(sent, evs, id);
      EntryStaysPartial(sent[id], id, f, evs);
    }
  }

  /** Every answer in every run on a fresh buffer is "stored" or the exact flag
      and bytes of the message the packet belongs to, which was sent on the
      receiver's own connection. */
  lemma ReassemblySafety(sent: Messages, evs: seq<Event>, k: nat)
    requires AllWellCut(sent) && AllAuthentic(sent, evs) && k < |evs|
    ensures var id, outcome := IdOf(evs[k]), OutcomeAt(map[], evs, k);
      && id in sent && sent[id].conn == evs[k].conn
      && (outcome == Stored || outcome == Delivered(sent[id].flag, sent[id].data))
  {
    AuthenticCarries(sent, evs[k]);
    var id := IdOf(evs[k]);
    FrameHeader(sent[id], id, IndexOf(evs[k]));
    AuthenticIsUnforged(sent, evs, id);
    MessageSafety(sent[id], id, map[], evs, k);
  }
}
