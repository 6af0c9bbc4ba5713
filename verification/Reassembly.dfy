/** The shared fragment buffer: one atomic step per packet, and the receiver
    loop and purge that perform such steps (pkg/protocol/fragment.go, second
    half). */
module Reassembly {
  import opened Basics
  import opened Fragment
  import opened Runs
  import Gathering

  type Slot = map<U16, Bytes>
  type Fragments = map<U32, Slot>

  /** One turn of a receiver loop: which connection's receiver ran, the packet it
      read, and the entries a purge removed just before the packet was stored. */
  datatype Event = Event(conn: nat, packet: Bytes, evicted: set<U32>)

  datatype Outcome =
    | Malformed
    | Stored
    | Delivered(flag: Byte, data: Bytes)

  /** Concatenates the payloads at 0, 1, ..., n - 1; an absent one counts as empty. */
  function Join(m: Slot, n: nat): Bytes
    requires n <= U16_LIMIT
  {
    if n == 0 then [] else Join(m, n - 1) + (if n - 1 in m then m[n - 1] else [])
  }

  /** Stores one fragment of a message and delivers the message when the number
      of stored fragments, in 16 bits, reaches the header's total. */
  function Insert(m: Slot, h: Header, payload: Bytes): (Slot, Outcome) {
    var m' := m[h.index := payload];
    if |m'| % U16_LIMIT == h.total then (map[], Delivered(h.flag, Join(m', h.total)))
    else (m', Stored)
  }

  function Entry(f: Fragments, id: U32): Slot {
    if id in f then f[id] else map[]
  }

  /** The buffer with one entry replaced; an empty slot means no entry. */
  function WithEntry(f: Fragments, id: U32, m: Slot): Fragments {
    if m == map[] then f - {id} else f[id := m]
  }

  function Process(f: Fragments, ev: Event): (Fragments, Outcome) {
    match Unmarshal(ev.packet)
    case None => (f, Malformed)
    case Some(h) =>
      var payload := ev.packet[HEADER_SIZE..];
      if h.total == 1 then (f, Delivered(h.flag, payload))
      else InsertInto(f - ev.evicted, h, payload)
  }

  function InsertInto(f: Fragments, h: Header, payload: Bytes): (Fragments, Outcome) {
    var (m, outcome) := Insert(Entry(f, h.msgID), h, payload);
    (WithEntry(f, h.msgID, m), outcome)
  }

  /** The buffer after a run of atomic steps of any receivers. */
  function StateAfter(f: Fragments, evs: seq<Event>): Fragments {
    After(Process, f, evs)
  }

  /** The answer to the k-th packet of a run. */
  function OutcomeAt(f: Fragments, evs: seq<Event>, k: nat): Outcome
    requires k < |evs|
  {
    Answer(Process, f, evs, k)
  }

  // ---------- When purges happen ----------

  /** What one call of cleanup may remove: nothing from 100 entries or fewer,
      otherwise any entries that leave exactly 49. */
  predicate CleanupEvicts(f: Fragments, evicted: set<U32>) {
    && evicted <= f.Keys
    && if |f| <= 100 then evicted == {} else |f| - |evicted| == 49
  }

  predicate ReachesLock(packet: Bytes) {
    var h := Unmarshal(packet);
    h.Some? && h.value.total != 1
  }

  predicate CleanupDue(timeout: int, lastClean: int, a: Arrival) {
    ReachesLock(a.packet) && a.checkedAt - lastClean > timeout
  }

  /** The time of the last purge after these arrivals. */
  function LastClean(timeout: int, start: int, arrivals: seq<Arrival>): int {
    if arrivals == [] then start
    else
      var last := arrivals[|arrivals| - 1];
      var before := LastClean(timeout, start, arrivals[..|arrivals| - 1]);
      if CleanupDue(timeout, before, last) then last.cleanedAt else before
  }

  /** The event is the turn the loop takes on this arrival: the same packet, and
      a purge exactly when the timeout has passed. */
  predicate IsTurn(timeout: int, lastClean: int, f: Fragments, a: Arrival, ev: Event) {
    && ev.packet == a.packet
    && if CleanupDue(timeout, lastClean, a) then CleanupEvicts(f, ev.evicted) else ev.evicted == {}
  }

  /** A run of turns of any receivers, with the arrival each of them took. */
  ghost predicate Turns(timeout: int, start: int, f: Fragments, arrivals: seq<Arrival>, evs: seq<Event>) {
    |evs| == |arrivals| && forall k :: 0 <= k < |evs| ==> TurnFine(timeout, start, f, arrivals, evs, k)
  }

  ghost predicate TurnFine(timeout: int, start: int, f: Fragments, arrivals: seq<Arrival>, evs: seq<Event>, k: nat)
    requires k < |evs| == |arrivals|
  {
    IsTurn(timeout, LastClean(timeout, start, arrivals[..k]), StateAfter(f, evs[..k]), arrivals[k], evs[k])
  }

  // ---------- One receiver among others ----------

  predicate Own(conn: nat, ev: Event) {
    ev.conn == conn
  }

  /** What this connection's receiver has taken from its inbox, in order. */
  function OwnArrivals(conn: nat, arrivals: seq<Arrival>, evs: seq<Event>): seq<Arrival>
    requires |arrivals| == |evs|
  {
    if evs == [] then []
    else
      var n := |evs| - 1;
      OwnArrivals(conn, arrivals[..n], evs[..n]) + if Own(conn, evs[n]) then [arrivals[n]] else []
  }

  /** The packets among them. */
  function OwnPackets(conn: nat, evs: seq<Event>): seq<Bytes> {
    if evs == [] then []
    else
      var last := evs[|evs| - 1];
      OwnPackets(conn, evs[..|evs| - 1]) + if Own(conn, last) then [last.packet] else []
  }

  /** The answers they got. */
  function Answers(conn: nat, f: Fragments, evs: seq<Event>): seq<Outcome> {
    if evs == [] then []
    else
      var init, last := evs[..|evs| - 1], evs[|evs| - 1];
      Answers(conn, f, init) + if Own(conn, last) then [Process(StateAfter(f, init), last).1] else []
  }

  predicate AllStored(answers: seq<Outcome>) {
    forall k :: 0 <= k < |answers| ==> answers[k] == Stored
  }

  /** One call of ReceiveFragmented and whatever others do before it returns: its
      own packets are merely stored, up to one that is not and ends the call; or
      until the transport has nothing more to give. */
  ghost predicate OneReceive(conn: nat, f: Fragments, available: nat, evs: seq<Event>) {
    var answers := Answers(conn, f, evs);
    var n := |answers|;
    if n != 0 && answers[n - 1] != Stored then AllStored(answers[..n - 1]) && Own(conn, evs[|evs| - 1])
    else AllStored(answers) && n == available
  }

  // ---------- The same, with time left out ----------

  /** A purge can only have run on a buffer with more than 100 entries. */
  ghost predicate PurgeNeedsCrowd(f: Fragments, ev: Event) {
    ev.evicted == {} || 100 < |f|
  }

  ghost predicate PurgesOnlyCrowds(f: Fragments, evs: seq<Event>) {
    forall k :: 0 <= k < |evs| ==> PurgeFine(f, evs, k)
  }

  ghost predicate PurgeFine(f: Fragments, evs: seq<Event>, k: nat)
    requires k < |evs|
  {
    PurgeNeedsCrowd(StateAfter(f, evs[..k]), evs[k])
  }

  lemma TurnsPurgeOnlyCrowds(timeout: int, start: int, f: Fragments, arrivals: seq<Arrival>, evs: seq<Event>)
    requires Turns(timeout, start, f, arrivals, evs)
    ensures PurgesOnlyCrowds(f, evs)
  {
    forall k | 0 <= k < |evs| ensures PurgeFine(f, evs, k) {
      assert TurnFine(timeout, start, f, arrivals, evs, k);
    }
  }

  function PacketsIn(inbox: seq<Arrival>): (ps: seq<Bytes>)
    ensures |ps| == |inbox|
  {
    seq(|inbox|, i requires 0 <= i < |inbox| => inbox[i].packet)
  }

  /** The events are those of one call of ReceiveFragmented on this inbox and of
      other receivers, with purges at any moment the size of the buffer permits. */
  ghost predicate Reads(conn: nat, f: Fragments, inbox: seq<Arrival>, evs: seq<Event>) {
    && OwnPackets(conn, evs) <= PacketsIn(inbox)
    && PurgesOnlyCrowds(f, evs)
    && OneReceive(conn, f, |inbox|, evs)
  }

  datatype ReceiveError = TransportClosed | PacketTooShort

  /** What ReceiveFragmented returns for the outcome of its last turn. */
  function ResultOf(outcome: Outcome): Result<(Byte, Bytes), ReceiveError> {
    match outcome
    case Stored => Err(TransportClosed)
    case Malformed => Err(PacketTooShort)
    case Delivered(flag, data) => Ok((flag, data))
  }

  function ReceiveResult(conn: nat, f: Fragments, evs: seq<Event>): Result<(Byte, Bytes), ReceiveError> {
    var answers := Answers(conn, f, evs);
    if answers == [] then Err(TransportClosed) else ResultOf(answers[|answers| - 1])
  }

  /** One stored fragment: the message is delivered exactly when the number of its
      fragments is the total, or all 65536 are there and the total is 0; it is made
      of the fragments at 0, 1, ..., total - 1. */
  lemma InsertExactly(m: Slot, h: Header, payload: Bytes)
    ensures var all := m[h.index := payload];
      && |all| <= 65536
      && Insert(m, h, payload) == if |all| == h.total || (|all| == 65536 && h.total == 0)
                                  then (map[], Delivered(h.flag, Join(all, h.total))) else (all, Stored)
  {
    var all: Slot := m[h.index := payload];
    Gathering.Pigeonhole(all.Keys, 65536);
    assert |all| == |all.Keys|;
  }

  /** The delivered bytes are the fragments at 0, 1, ..., n - 1, and nothing for
      those that are absent. */
  lemma {:induction false} JoinExactly(m: Slot, n: nat)
    requires n <= 65536
    ensures Join(m, n) == Concat(seq(n, i requires 0 <= i < n => if i in m then m[i] else []))
  {
    if n > 0 {
      var parts := seq(n, i requires 0 <= i < n => if i in m then m[i] else []);
      JoinExactly(m, n - 1);
      assert parts[..n - 1] == seq(n - 1, i requires 0 <= i < n - 1 => if i in m then m[i] else []);
    }
  }

  // ---------- Packets that never reach the buffer ----------

  /** A packet is refused exactly when it is too short for a header; it changes
      nothing. */
  lemma ShortPacketRefused(f: Fragments, ev: Event)
    ensures Process(f, ev).1 == Malformed <==> |ev.packet| < 13
    ensures |ev.packet| < 13 ==> Process(f, ev).0 == f
  {
    HeaderNeeds13(ev.packet);
  }

  /** A call says so exactly when such a packet is the one that ended it. */
  lemma ShortPacketEndsCall(conn: nat, f: Fragments, available: nat, evs: seq<Event>)
    requires OneReceive(conn, f, available, evs)
    ensures ReceiveResult(conn, f, evs) == Err(PacketTooShort)
            <==> evs != [] && Own(conn, evs[|evs| - 1]) && |evs[|evs| - 1].packet| < 13
  {
    if evs != [] {
      var n := |evs| - 1;
      ShortPacketRefused(StateAfter(f, evs[..n]), evs[n]);
    }
  }

  /** A packet that is all of its message is returned at once, whatever is stored. */
  lemma WholeMessageReturned(f: Fragments, ev: Event, h: Header, payload: Bytes)
    requires ev.packet == Marshal(h) + payload && h.total == 1
    ensures Process(f, ev) == (f, Delivered(h.flag, payload))
  {
    UnmarshalMarshal(h, payload);
  }

  lemma UpdateThenRemove(f: Fragments, id: U32, m: Slot)
    ensures f[id := map[]][id := m] == f[id := m]
    ensures f[id := m] - {id} == f - {id}
  {
  }

  class FragmentBuffer {
    var fragments: Fragments
    const timeout: int
    var lastClean: int

    constructor (timeout: int, now: int)
      ensures fragments == map[] && this.timeout == timeout && lastClean == now
    {
      this.fragments, this.timeout, this.lastClean := map[], timeout, now;
    }

    /** cleanup: walks the ids in an arbitrary order. */
    method Cleanup() returns (ghost evicted: set<U32>)
      modifies this`fragments
      ensures CleanupEvicts(old(fragments), evicted)
      ensures fragments == old(fragments) - evicted
      ensures |fragments| == if |old(fragments)| <= 100 then |old(fragments)| else 49
    {
      evicted := {};
      assert fragments - evicted == fragments;
      if |fragments| > 100 {
        var ids := fragments.Keys;
        while ids != {}
          invariant ids == fragments.Keys && 50 <= |fragments|
          invariant fragments == old(fragments) - evicted
          invariant evicted <= old(fragments).Keys && |fragments| == |old(fragments)| - |evicted|
          decreases |ids|
        {
          var id :| id in ids;
          ids := ids - {id};
          fragments := fragments - {id};
          evicted := evicted + {id};
          assert fragments == old(fragments) - evicted;
          assert fragments.Keys == ids;
          if |fragments| < 50 {
            break;
          }
        }
      }
    }

    /** Appends the stored fragments in index order. */
    method Reassemble(id: U32, total: U16) returns (result: Bytes)
      requires id in fragments
      ensures result == Join(fragments[id], total)
    {
      result := [];
      var i: U16 := 0;
      while i < total
        invariant 0 <= i <= total
        invariant result == Join(fragments[id], i)
      {
        result := result + (if i in fragments[id] then fragments[id][i] else []);
        i := i + 1;
      }
    }

    /** Stores the payload and, if that completes the message, takes it out. */
    method Store(h: Header, payload: Bytes) returns (outcome: Outcome)
      modifies this`fragments
      ensures (fragments, outcome) == InsertInto(old(fragments), h, payload)
    {
      ghost var f := fragments;
      var id := h.msgID;
      if id !in fragments {
        fragments := fragments[id := map[]];
      }
      var slot: Slot := fragments[id];
      slot := slot[h.index := payload];
      fragments := fragments[id := slot];
      UpdateThenRemove(f, id, slot);
      assert slot == Entry(f, id)[h.index := payload];
      if |slot| % U16_LIMIT == h.total {
        var result := Reassemble(id, h.total);
        fragments := fragments - {id};
        return Delivered(h.flag, result);
      }
      return Stored;
    }

    /** One pass through the receiver loop, once a packet has been read. */
    method Turn(conn: nat, a: Arrival) returns (outcome: Outcome, ghost ev: Event)
      modifies this
      ensures ev.conn == conn && IsTurn(timeout, old(lastClean), old(fragments), a, ev)
      ensures lastClean == if CleanupDue(timeout, old(lastClean), a) then a.cleanedAt else old(lastClean)
      ensures (fragments, outcome) == Process(old(fragments), ev)
    {
      ev := Event(conn, a.packet, {});
      assert fragments - {} == fragments;
      var header := Unmarshal(a.packet);
      if header.None? {
        return Malformed, ev;
      }
      var h, payload := header.value, a.packet[HEADER_SIZE..];
      if h.total == 1 {
        return Delivered(h.flag, payload), ev;
      }
      if a.checkedAt - lastClean > timeout {
        ghost var evicted := Cleanup();
        ev := Event(conn, a.packet, evicted);
        lastClean := a.cleanedAt;
      }
      outcome := Store(h, payload);
    }

    /** Other receivers take any number of turns, on whatever arrives for them. */
    method OtherTurns(conn: nat, ghost start: int, ghost f: Fragments, ghost arrivals0: seq<Arrival>,
                      ghost evs0: seq<Event>)
      returns (ghost arrivals: seq<Arrival>, ghost evs: seq<Event>)
      requires Reached(timeout, start, f, arrivals0, evs0, fragments, lastClean)
      modifies this
      ensures Reached(timeout, start, f, arrivals, evs, fragments, lastClean)
      ensures OwnArrivals(conn, arrivals, evs) == OwnArrivals(conn, arrivals0, evs0)
      ensures Answers(conn, f, evs) == Answers(conn, f, evs0)
    {
      arrivals, evs := arrivals0, evs0;
      var n: nat := *;
      while n != 0
        invariant Reached(timeout, start, f, arrivals, evs, fragments, lastClean)
        invariant OwnArrivals(conn, arrivals, evs) == OwnArrivals(conn, arrivals0, evs0)
        invariant Answers(conn, f, evs) == Answers(conn, f, evs0)
        decreases n
      {
        var other: nat, a: Arrival := *, *;
        if other != conn {
          var _, ev := Turn(other, a);
          OneTurn(conn, timeout, start, f, arrivals, evs, a, ev);
          arrivals, evs := arrivals + [a], evs + [ev];
        }
        n := n - 1;
      }
    }

    /** ReceiveFragmented: between its own turns, others may take theirs. */
    method ReceiveFragmented(transport: Transport, conn: nat)
      returns (r: Result<(Byte, Bytes), ReceiveError>, ghost arrivals: seq<Arrival>, ghost evs: seq<Event>)
      modifies this, transport`inbox
      ensures Reached(timeout, old(lastClean), old(fragments), arrivals, evs, fragments, lastClean)
      ensures TakenFrom(old(transport.inbox), OwnArrivals(conn, arrivals, evs), transport.inbox)
      ensures OneReceive(conn, old(fragments), |old(transport.inbox)|, evs)
      ensures r == ReceiveResult(conn, old(fragments), evs)
    {
      arrivals, evs := [], [];
      ghost var f, inbox := fragments, transport.inbox;
      while true
        invariant Reached(timeout, old(lastClean), f, arrivals, evs, fragments, lastClean)
        invariant Waiting(conn, f, inbox, transport.inbox, arrivals, evs)
        decreases |transport.inbox|
      {
        ghost var rest := transport.inbox;
        var arrival := transport.Recv();
        if arrival.Err? {
          WaitingInVain(conn, f, inbox, transport.inbox, arrivals, evs);
          return Err(TransportClosed), arrivals, evs;
        }
        arrivals, evs := OtherTurns(conn, old(lastClean), f, arrivals, evs);
        var outcome, ev := Turn(conn, arrival.value);
        OneTurn(conn, timeout, old(lastClean), f, arrivals, evs, arrival.value, ev);
        CallGoesOn(conn, f, inbox, rest, arrivals, evs, arrival.value, ev);
        arrivals, evs := arrivals + [arrival.value], evs + [ev];
        if outcome != Stored {
          return ResultOf(outcome), arrivals, evs;
        }
      }
    }
  }

  /** A run of turns, and the buffer and the time of the last purge it leads to. */
  ghost predicate Reached(timeout: int, start: int, f: Fragments, arrivals: seq<Arrival>, evs: seq<Event>,
                          now: Fragments, clean: int) {
    && Turns(timeout, start, f, arrivals, evs)
    && now == StateAfter(f, evs)
    && clean == LastClean(timeout, start, arrivals)
  }

  /** A call whose own packets have all been merely stored so far. */
  ghost predicate Waiting(conn: nat, f: Fragments, inbox: seq<Arrival>, rest: seq<Arrival>, arrivals: seq<Arrival>,
                          evs: seq<Event>)
    requires |arrivals| == |evs|
  {
    && OwnArrivals(conn, arrivals, evs) + rest == inbox
    && AllStored(Answers(conn, f, evs))
  }

  lemma OneAnswerEach(conn: nat, f: Fragments, arrivals: seq<Arrival>, evs: seq<Event>)
    requires |arrivals| == |evs|
    ensures |Answers(conn, f, evs)| == |OwnPackets(conn, evs)| == |OwnArrivals(conn, arrivals, evs)|
  {
    if evs != [] {
      var n := |evs| - 1;
      OneAnswerEach(conn, f, arrivals[..n], evs[..n]);
    }
  }

  lemma WaitingInVain(conn: nat, f: Fragments, inbox: seq<Arrival>, rest: seq<Arrival>, arrivals: seq<Arrival>,
                      evs: seq<Event>)
    requires |arrivals| == |evs| && Waiting(conn, f, inbox, rest, arrivals, evs) && rest == []
    ensures TakenFrom(inbox, OwnArrivals(conn, arrivals, evs), rest)
    ensures OneReceive(conn, f, |inbox|, evs) && ReceiveResult(conn, f, evs) == Err(TransportClosed)
  {
    OneAnswerEach(conn, f, arrivals, evs);
  }

  /** What has been taken from the front of an inbox, and what is left of it. */
  predicate TakenFrom(inbox: seq<Arrival>, own: seq<Arrival>, rest: seq<Arrival>) {
    own <= inbox && rest == inbox[|own|..]
  }

  lemma TakeNext(inbox: seq<Arrival>, own: seq<Arrival>, rest: seq<Arrival>)
    requires own + rest == inbox && rest != []
    ensures (own + [rest[0]]) + rest[1..] == inbox
    ensures TakenFrom(inbox, own + [rest[0]], rest[1..])
  {
    assert rest == [rest[0]] + rest[1..];
  }

  /** One more turn of any receiver. */
  lemma OneTurn(conn: nat, timeout: int, start: int, f: Fragments, arrivals: seq<Arrival>, evs: seq<Event>, a: Arrival,
                ev: Event)
    requires Turns(timeout, start, f, arrivals, evs)
    requires IsTurn(timeout, LastClean(timeout, start, arrivals), StateAfter(f, evs), a, ev)
    ensures var now, clean := Process(StateAfter(f, evs), ev), LastClean(timeout, start, arrivals);
      && Reached(timeout, start, f, arrivals + [a], evs + [ev], now.0,
                 if CleanupDue(timeout, clean, a) then a.cleanedAt else clean)
      && OwnArrivals(conn, arrivals + [a], evs + [ev])
         == OwnArrivals(conn, arrivals, evs) + (if Own(conn, ev) then [a] else [])
      && Answers(conn, f, evs + [ev]) == Answers(conn, f, evs) + (if Own(conn, ev) then [now.1] else [])
  {
    ExtendTurns(timeout, start, f, arrivals, evs, a, ev);
    AfterSnoc(Process, f, evs, ev);
    assert (evs + [ev])[..|evs|] == evs && (arrivals + [a])[..|arrivals|] == arrivals;
  }

  /** Adding one more turn at the end leaves the earlier ones as they were. */
  lemma ExtendTurns(timeout: int, start: int, f: Fragments, arrivals: seq<Arrival>, evs: seq<Event>, a: Arrival,
                    ev: Event)
    requires Turns(timeout, start, f, arrivals, evs)
    requires IsTurn(timeout, LastClean(timeout, start, arrivals), StateAfter(f, evs), a, ev)
    ensures Turns(timeout, start, f, arrivals + [a], evs + [ev])
  {
    var evs', arrivals' := evs + [ev], arrivals + [a];
    assert evs'[..|evs|] == evs && arrivals'[..|evs|] == arrivals;
    forall k | 0 <= k < |evs| ensures TurnFine(timeout, start, f, arrivals', evs', k) {
      assert TurnFine(timeout, start, f, arrivals, evs, k);
      assert evs'[..k] == evs[..k] && arrivals'[..k] == arrivals[..k];
    }
  }

  /** The call goes on waiting, or ends with this turn's outcome. */
  lemma CallGoesOn(conn: nat, f: Fragments, inbox: seq<Arrival>, rest: seq<Arrival>, arrivals: seq<Arrival>,
                   evs: seq<Event>,
                   a: Arrival, ev: Event)
    requires |arrivals| == |evs| && Own(conn, ev) && rest != [] && a == rest[0]
    requires Waiting(conn, f, inbox, rest, arrivals, evs)
    requires OwnArrivals(conn, arrivals + [a], evs + [ev]) == OwnArrivals(conn, arrivals, evs) + [a]
    requires Answers(conn, f, evs + [ev]) == Answers(conn, f, evs) + [Process(StateAfter(f, evs), ev).1]
    ensures var outcome, own, all := Process(StateAfter(f, evs), ev).1, arrivals + [a], evs + [ev];
      && TakenFrom(inbox, OwnArrivals(conn, own, all), rest[1..])
      && ReceiveResult(conn, f, all) == ResultOf(outcome)
      && (outcome == Stored ==> Waiting(conn, f, inbox, rest[1..], own, all))
      && (outcome != Stored ==> OneReceive(conn, f, |inbox|, all))
  {
    var before := Answers(conn, f, evs);
    var answers := before + [Process(StateAfter(f, evs), ev).1];
    assert answers[..|before|] == before;
    TakeNext(inbox, OwnArrivals(conn, arrivals, evs), rest);
  }
}
