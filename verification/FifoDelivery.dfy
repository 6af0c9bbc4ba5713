/** Messages sent one after the other over a connection that keeps packets in
    order: its receiver hears exactly them, one by one, whatever the other
    connections do to the shared buffer in between. */
module FifoDelivery {
  import opened Basics
  import opened Fragment
  import opened Reassembly
  import opened SharedBuffer
  import opened ReassemblySafety
  import opened ExactlyOnce
  import opened Receivers
  import opened Runs
  import Gathering
  import ManyMessages

  /** A message and the id it was sent under. */
  datatype Parcel = Parcel(id: U32, message: Outgoing)

  ghost predicate Sendable(ps: seq<Parcel>) {
    forall j :: 0 <= j < |ps| ==> WellCut(ps[j].message)
  }

  /** All their packets, message after message. */
  function Stream(ps: seq<Parcel>): seq<Bytes>
    requires Sendable(ps)
  {
    if ps == [] then []
    else Stream(ps[..|ps| - 1]) + FramesOf(ps[|ps| - 1].message, ps[|ps| - 1].id)
  }

  /** The answer to the i-th packet of a message. */
  function Reply(o: Outgoing, i: nat): Outcome {
    if i + 1 == Parts(o) then Delivered(o.flag, o.data) else Stored
  }

  function Replies(o: Outgoing): seq<Outcome> {
    seq(Parts(o), i requires 0 <= i < Parts(o) => Reply(o, i))
  }

  /** The answers to the whole stream. */
  function Expected(ps: seq<Parcel>): seq<Outcome> {
    if ps == [] then [] else Expected(ps[..|ps| - 1]) + Replies(ps[|ps| - 1].message)
  }

  function Contents(ps: seq<Parcel>): seq<Hearing> {
    seq(|ps|, j requires 0 <= j < |ps| => Ok((ps[j].message.flag, ps[j].message.data)))
  }

  /** The k-th event leaves message `id` alone: if it stores a fragment under this
      id it is the receiver's own, and no purge removes what is stored under it. */
  predicate Leaves(conn: nat, id: U32, f: Fragments, trace: seq<Event>, k: nat)
    requires k < |trace|
  {
    && (Concerns(id, trace[k]) ==> Own(conn, trace[k]))
    && (Evicts(id, trace[k]) ==> Entry(StateAfter(f, trace[..k]), id) == map[])
  }

  ghost predicate AllLeave(conn: nat, id: U32, f: Fragments, trace: seq<Event>) {
    forall k :: 0 <= k < |trace| ==> Leaves(conn, id, f, trace, k)
  }

  /** Only the events before the receiver has read its n-th packet matter. */
  ghost predicate Undisturbed(conn: nat, id: U32, f: Fragments, trace: seq<Event>, n: nat) {
    forall k :: 0 <= k < |trace| && |OwnPackets(conn, trace[..k])| < n ==> Leaves(conn, id, f, trace, k)
  }

  ghost predicate NewIdAt(ps: seq<Parcel>, j: nat)
    requires j < |ps|
  {
    forall l :: 0 <= l < j ==> ps[l].id != ps[j].id
  }

  /** The j-th message has an id that neither the buffer nor an earlier message
      knows, and is left alone until it is read; but a message of one packet needs
      nothing at all. */
  ghost predicate HasItsWay(conn: nat, f: Fragments, trace: seq<Event>, ps: seq<Parcel>, j: nat)
    requires Sendable(ps) && j < |ps|
  {
    var id := ps[j].id;
    Parts(ps[j].message) == 1
    || (id !in f && Undisturbed(conn, id, f, trace, |Stream(ps[..j + 1])|) && NewIdAt(ps, j))
  }

  ghost predicate Lineup(conn: nat, f: Fragments, trace: seq<Event>, ps: seq<Parcel>) {
    Sendable(ps) && forall j :: 0 <= j < |ps| ==> HasItsWay(conn, f, trace, ps, j)
  }

  lemma LineupInit(conn: nat, f: Fragments, trace: seq<Event>, n: nat, ps: seq<Parcel>, m: nat)
    requires Lineup(conn, f, trace, ps) && n <= |trace| && m <= |ps|
    ensures Lineup(conn, f, trace[..n], ps[..m])
  {
    forall j | 0 <= j < m ensures HasItsWay(conn, f, trace[..n], ps[..m], j) {
      assert HasItsWay(conn, f, trace, ps, j) && ps[..m][..j + 1] == ps[..j + 1];
      UndisturbedInit(conn, ps[j].id, f, trace, n, |Stream(ps[..j + 1])|);
    }
  }

  lemma LeavesInit(conn: nat, id: U32, f: Fragments, trace: seq<Event>, n: nat, k: nat)
    requires k < n <= |trace|
    ensures Leaves(conn, id, f, trace[..n], k) == Leaves(conn, id, f, trace, k)
    ensures trace[..n][..k] == trace[..k]
  {
    assert trace[..n][..k] == trace[..k] && trace[..n][k] == trace[k];
  }

  lemma UndisturbedInit(conn: nat, id: U32, f: Fragments, trace: seq<Event>, n: nat, until: nat)
    requires n <= |trace|
    ensures Undisturbed(conn, id, f, trace, until) ==> Undisturbed(conn, id, f, trace[..n], until)
    ensures AllLeave(conn, id, f, trace) ==> AllLeave(conn, id, f, trace[..n])
  {
    forall k | 0 <= k < n
      ensures Leaves(conn, id, f, trace[..n], k) == Leaves(conn, id, f, trace, k) && trace[..n][..k] == trace[..k]
    {
      LeavesInit(conn, id, f, trace, n, k);
    }
  }

  lemma {:induction false} OwnPacketsGrow(conn: nat, trace: seq<Event>, k: nat)
    requires k <= |trace|
    ensures |OwnPackets(conn, trace[..k])| <= |OwnPackets(conn, trace)|
  {
    if k < |trace| {
      var init := trace[..|trace| - 1];
      OwnPacketsGrow(conn, init, k);
      assert init[..k] == trace[..k];
    } else {
      assert trace[..k] == trace;
    }
  }

  /** While the n-th packet is still to come, every event so far matters. */
  lemma NotYetRead(conn: nat, id: U32, f: Fragments, trace: seq<Event>, n: nat)
    requires Undisturbed(conn, id, f, trace, n) && |OwnPackets(conn, trace)| < n
    ensures AllLeave(conn, id, f, trace)
  {
    forall k | 0 <= k < |trace| ensures Leaves(conn, id, f, trace, k) {
      OwnPacketsGrow(conn, trace, k);
    }
  }

  // ---------- The pieces of one message ----------

  function FirstN(n: nat): set<U16>
    requires n <= U16_LIMIT
  {
    if n == 0 then {} else FirstN(n - 1) + {n - 1}
  }

  lemma {:induction false} FirstNSize(n: nat)
    requires n <= U16_LIMIT
    ensures forall k :: k in FirstN(n) ==> k < n
    ensures |FirstN(n)| == n
  {
    if n != 0 {
      FirstNSize(n - 1);
    }
  }

  /** What is kept once the first n pieces have arrived. */
  function KeptOf(o: Outgoing, n: nat): set<U16>
    requires n <= U16_LIMIT
  {
    if n == Parts(o) then {} else FirstN(n)
  }

  lemma NextPiece(o: Outgoing, id: U32, f: Fragments, ev: Event, i: nat)
    requires WellCut(o) && i < Parts(o) && ev.packet == FramesOf(o, id)[i]
    requires Evicts(id, ev) ==> Entry(f, id) == map[]
    requires Partial(o, Entry(f, id)) && Entry(f, id).Keys == FirstN(i)
    ensures Partial(o, Entry(Process(f, ev).0, id))
    ensures Entry(Process(f, ev).0, id).Keys == KeptOf(o, i + 1)
    ensures Process(f, ev).1 == Reply(o, i)
  {
    FrameHeader(o, id, i);
    EventIsSafe(o, id, f, ev);
    EventTicks(o, id, f, ev);
    FirstNSize(i);
    PieceTicks(o, id, ev, i);
  }

  lemma PieceTicks(o: Outgoing, id: U32, ev: Event, i: nat)
    requires WellCut(o) && i < Parts(o)
    requires SignOf(id, ev).piece == Some(i) && (SignOf(id, ev).evicts ==> FirstN(i) == {})
    ensures Gathering.Tick(Parts(o), FirstN(i), SignOf(id, ev)) == (KeptOf(o, i + 1), i + 1 == Parts(o))
  {
    FirstNSize(i + 1);
  }

  /** The packets carry other ids. */
  ghost predicate Foreign(id: U32, packets: seq<Bytes>) {
    forall k :: 0 <= k < |packets| ==> Unmarshal(packets[k]).Some? && Unmarshal(packets[k]).value.msgID != id
  }

  /** The receiver has read `before` and then the first i packets of a message. */
  ghost predicate HasRead(conn: nat, o: Outgoing, id: U32, trace: seq<Event>, before: seq<Bytes>, i: nat)
    requires WellCut(o)
  {
    i <= Parts(o) && OwnPackets(conn, trace) == before + FramesOf(o, id)[..i] && Foreign(id, before)
  }

  lemma HasReadInit(conn: nat, o: Outgoing, id: U32, trace: seq<Event>, before: seq<Bytes>, i: nat)
    requires WellCut(o) && HasRead(conn, o, id, trace, before, i) && trace != []
    ensures var init, last := trace[..|trace| - 1], trace[|trace| - 1];
      && (!Own(conn, last) ==> HasRead(conn, o, id, init, before, i))
      && (Own(conn, last) && i == 0 ==> before != [] && !BelongsTo(id, last)
                                        && HasRead(conn, o, id, init, before[..|before| - 1], 0))
      && (Own(conn, last) && i != 0 ==> last.packet == FramesOf(o, id)[i - 1]
                                        && HasRead(conn, o, id, init, before, i - 1))
  {
    var init, last, own := trace[..|trace| - 1], trace[|trace| - 1], OwnPackets(conn, trace);
    var packets, frames := OwnPackets(conn, init), FramesOf(o, id);
    if Own(conn, last) {
      if i == 0 {
        assert own == before;
        SameSnoc(packets, last.packet, before[..|before| - 1], before[|before| - 1]);
        assert packets == before[..|before| - 1] + frames[..0];
      } else {
        assert frames[..i] == frames[..i - 1] + [frames[i - 1]];
        SameSnoc(packets, last.packet, before + frames[..i - 1], frames[i - 1]);
      }
    } else {
      assert own == packets;
    }
  }

  lemma SameSnoc(a: seq<Bytes>, x: Bytes, b: seq<Bytes>, y: Bytes)
    requires a + [x] == b + [y]
    ensures a == b && x == y
  {
    assert |a| == |b|;
    assert a == (a + [x])[..|a|] && x == (a + [x])[|a|];
    assert b == (b + [y])[..|b|];
  }

  lemma UnconcernedKeeps(id: U32, f: Fragments, ev: Event)
    requires !Concerns(id, ev) && (Evicts(id, ev) ==> Entry(f, id) == map[])
    ensures Entry(Process(f, ev).0, id) == Entry(f, id)
  {
    ProcessEntry(id, f, ev);
  }

  lemma LastKeepsEntry(conn: nat, id: U32, f: Fragments, trace: seq<Event>)
    requires trace != [] && Leaves(conn, id, f, trace, |trace| - 1) && !Concerns(id, trace[|trace| - 1])
    ensures Entry(StateAfter(f, trace), id) == Entry(StateAfter(f, trace[..|trace| - 1]), id)
  {
    var n := |trace| - 1;
    UnconcernedKeeps(id, StateAfter(f, trace[..n]), trace[n]);
  }

  /** The entry holds exactly the first i pieces. */
  ghost predicate Holds(o: Outgoing, id: U32, f: Fragments, i: nat)
    requires WellCut(o) && i <= Parts(o)
  {
    Partial(o, Entry(f, id)) && Entry(f, id).Keys == KeptOf(o, i)
  }

  lemma LastIsPiece(conn: nat, o: Outgoing, id: U32, f: Fragments, trace: seq<Event>, i: nat)
    requires WellCut(o) && i < Parts(o) && trace != [] && Leaves(conn, id, f, trace, |trace| - 1)
    requires trace[|trace| - 1].packet == FramesOf(o, id)[i] && Holds(o, id, StateAfter(f, trace[..|trace| - 1]), i)
    ensures Holds(o, id, StateAfter(f, trace), i + 1)
  {
    var n := |trace| - 1;
    NextPiece(o, id, StateAfter(f, trace[..n]), trace[n], i);
  }

  /** By then the entry of the message holds exactly those pieces. */
  lemma {:induction false} EntryOfRead(conn: nat, o: Outgoing, id: U32, f: Fragments, trace: seq<Event>,
                                       before: seq<Bytes>, i: nat)
    requires WellCut(o) && id !in f && AllLeave(conn, id, f, trace) && HasRead(conn, o, id, trace, before, i)
    ensures Holds(o, id, StateAfter(f, trace), i)
    decreases |trace|
  {
    if trace == [] {
      assert FirstN(0) == {};
    } else {
      var n := |trace| - 1;
      assert Leaves(conn, id, f, trace, n);
      UndisturbedInit(conn, id, f, trace, n, 0);
      HasReadInit(conn, o, id, trace, before, i);
      if Own(conn, trace[n]) && i != 0 {
        EntryOfRead(conn, o, id, f, trace[..n], before, i - 1);
        LastIsPiece(conn, o, id, f, trace, i - 1);
      } else {
        EntryOfRead(conn, o, id, f, trace[..n], if Own(conn, trace[n]) then before[..|before| - 1] else before, i);
        LastKeepsEntry(conn, id, f, trace);
      }
    }
  }

  // ---------- The whole stream ----------

  lemma {:induction false} OneAnswerPerPacket(ps: seq<Parcel>)
    requires Sendable(ps)
    ensures |Expected(ps)| == |Stream(ps)|
  {
    if ps != [] {
      OneAnswerPerPacket(ps[..|ps| - 1]);
    }
  }

  lemma {:induction false} OtherParcelsForeign(id: U32, ps: seq<Parcel>)
    requires Sendable(ps) && forall l :: 0 <= l < |ps| ==> ps[l].id != id
    ensures Foreign(id, Stream(ps))
  {
    if ps != [] {
      var last := ps[|ps| - 1];
      OtherParcelsForeign(id, ps[..|ps| - 1]);
      forall i: nat | i < Parts(last.message)
        ensures Unmarshal(FramesOf(last.message, last.id)[i]).Some?
                && Unmarshal(FramesOf(last.message, last.id)[i]).value.msgID != id
      {
        FrameHeader(last.message, last.id, i);
      }
    }
  }

  /** The receiver has read a proper part of the stream, and ev is its next turn. */
  ghost predicate ReadsNext(conn: nat, trace: seq<Event>, ps: seq<Parcel>, ev: Event)
    requires Sendable(ps)
  {
    var q := |OwnPackets(conn, trace)|;
    && q < |Stream(ps)| && OwnPackets(conn, trace) == Stream(ps)[..q]
    && Own(conn, ev) && ev.packet == Stream(ps)[q]
  }

  lemma AnswerOfLast(conn: nat, f: Fragments, trace: seq<Event>, ps: seq<Parcel>, ev: Event)
    requires Lineup(conn, f, trace + [ev], ps) && ReadsNext(conn, trace, ps, ev)
    requires ps != [] && |Stream(ps[..|ps| - 1])| <= |OwnPackets(conn, trace)|
    ensures Process(StateAfter(f, trace), ev).1
      == Reply(ps[|ps| - 1].message, |OwnPackets(conn, trace)| - |Stream(ps[..|ps| - 1])|)
  {
    var m := |ps| - 1;
    var o, id, before := ps[m].message, ps[m].id, Stream(ps[..m]);
    var i := |OwnPackets(conn, trace)| - |before|;
    assert HasItsWay(conn, f, trace + [ev], ps, m);
    PlaceInLast(ps, |before| + i);
    if Parts(o) == 1 {
      SinglePacketAdvances(o, id, StateAfter(f, trace), ev);
    } else {
      assert ps[..m + 1] == ps;
      LastLeaves(conn, id, f, trace, ev, |Stream(ps)|);
      OtherParcelsForeign(id, ps[..m]);
      EntryOfRead(conn, o, id, f, trace, before, i);
      NextPiece(o, id, StateAfter(f, trace), ev, i);
    }
  }

  lemma PlaceInLast(ps: seq<Parcel>, q: nat)
    requires Sendable(ps) && ps != []
    requires |Stream(ps[..|ps| - 1])| <= q < |Stream(ps)|
    ensures var m := |ps| - 1;
      var before, frames := Stream(ps[..m]), FramesOf(ps[m].message, ps[m].id);
      var i := q - |before|;
      i < |frames| && Stream(ps)[..q] == before + frames[..i] && Stream(ps)[q] == frames[i]
  {
  }

  lemma LastLeaves(conn: nat, id: U32, f: Fragments, trace: seq<Event>, ev: Event, n: nat)
    requires Undisturbed(conn, id, f, trace + [ev], n) && |OwnPackets(conn, trace)| < n
    ensures AllLeave(conn, id, f, trace)
    ensures Evicts(id, ev) ==> Entry(StateAfter(f, trace), id) == map[]
  {
    var all := trace + [ev];
    assert all[..|trace|] == trace;
    UndisturbedInit(conn, id, f, all, |trace|, n);
    NotYetRead(conn, id, f, trace, n);
    assert Leaves(conn, id, f, all, |trace|);
  }

  lemma {:induction false} AnswerInStream(conn: nat, f: Fragments, trace: seq<Event>, ps: seq<Parcel>, ev: Event)
    requires Lineup(conn, f, trace + [ev], ps) && ReadsNext(conn, trace, ps, ev)
    ensures |Expected(ps)| == |Stream(ps)|
    ensures Process(StateAfter(f, trace), ev).1 == Expected(ps)[|OwnPackets(conn, trace)|]
    decreases |ps|
  {
    OneAnswerPerPacket(ps);
    var m, q := |ps| - 1, |OwnPackets(conn, trace)|;
    var front := ps[..m];
    OneAnswerPerPacket(front);
    if |Stream(front)| <= q {
      AnswerOfLast(conn, f, trace, ps, ev);
    } else {
      LineupInit(conn, f, trace + [ev], |trace| + 1, ps, m);
      assert (trace + [ev])[..|trace| + 1] == trace + [ev];
      assert Stream(ps)[..q] == Stream(front)[..q];
      AnswerInStream(conn, f, trace, front, ev);
    }
  }

  /** They agree as far as both go. */
  predicate Agree<T(==)>(a: seq<T>, b: seq<T>) {
    forall k :: 0 <= k < |a| && k < |b| ==> a[k] == b[k]
  }

  lemma AgreeSnoc<T>(a: seq<T>, x: T, b: seq<T>)
    requires Agree(a, b) && (|a| < |b| ==> x == b[|a|])
    ensures Agree(a + [x], b)
  {
  }

  lemma AgreeInit<T>(a: seq<T>, x: T, b: seq<T>)
    requires Agree(a + [x], b)
    ensures Agree(a, b) && (|a| < |b| ==> a == b[..|a|] && x == b[|a|])
  {
    forall k | 0 <= k < |a| && k < |b| ensures a[k] == b[k] {
      assert (a + [x])[k] == a[k];
    }
    assert |a| < |b| ==> (a + [x])[|a|] == b[|a|];
  }

  /** As long as the packets read are those of the stream, the answers are as
      expected. */
  lemma {:induction false} AnswersInOrder(conn: nat, f: Fragments, trace: seq<Event>, ps: seq<Parcel>)
    requires Lineup(conn, f, trace, ps) && Agree(OwnPackets(conn, trace), Stream(ps))
    ensures Agree(Answers(conn, f, trace), Expected(ps))
  {
    if trace != [] {
      var n := |trace| - 1;
      var init, last := trace[..n], trace[n];
      LineupInit(conn, f, trace, n, ps, |ps|);
      assert ps[..|ps|] == ps;
      if Own(conn, last) {
        AgreeInit(OwnPackets(conn, init), last.packet, Stream(ps));
        AnswersInOrder(conn, f, init, ps);
        NextAnswerInOrder(conn, f, init, last, trace, ps);
      } else {
        SameWithoutOwn(conn, f, trace);
        AnswersInOrder(conn, f, init, ps);
      }
    }
  }

  lemma SameWithoutOwn(conn: nat, f: Fragments, trace: seq<Event>)
    requires trace != [] && !Own(conn, trace[|trace| - 1])
    ensures OwnPackets(conn, trace) == OwnPackets(conn, trace[..|trace| - 1])
    ensures Answers(conn, f, trace) == Answers(conn, f, trace[..|trace| - 1])
  {
  }

  lemma NextAnswerInOrder(conn: nat, f: Fragments, init: seq<Event>, last: Event, trace: seq<Event>, ps: seq<Parcel>)
    requires trace == init + [last] && Own(conn, last) && Lineup(conn, f, trace, ps)
    requires |OwnPackets(conn, init)| < |Stream(ps)| ==> ReadsNext(conn, init, ps, last)
    requires Agree(Answers(conn, f, init), Expected(ps))
    ensures Agree(Answers(conn, f, trace), Expected(ps))
  {
    OneAnswerPerPacket(ps);
    OnePerPacket(conn, f, init);
    AnswersSnoc(conn, f, init, last);
    if |OwnPackets(conn, init)| < |Stream(ps)| {
      AnswerInStream(conn, f, init, ps, last);
    }
    AgreeSnoc(Answers(conn, f, init), Process(StateAfter(f, init), last).1, Expected(ps));
  }

  // ---------- What is heard ----------

  lemma {:induction false} RepliesReturn(o: Outgoing, n: nat)
    requires n <= Parts(o)
    ensures Returned(Replies(o)[..n]) == if n == Parts(o) && n != 0 then [Ok((o.flag, o.data))] else []
  {
    if n != 0 {
      RepliesReturn(o, n - 1);
      assert Replies(o)[n - 1] == Reply(o, n - 1);
      ReturnedNext(Replies(o), n - 1);
    }
  }

  lemma {:induction false} ExpectedReturn(ps: seq<Parcel>)
    requires Sendable(ps)
    ensures Returned(Expected(ps)) == Contents(ps)
  {
    if ps != [] {
      var m := |ps| - 1;
      ExpectedReturn(ps[..m]);
      WholeReplyReturns(ps[m].message);
      ReturnedAppend(Expected(ps[..m]), Replies(ps[m].message));
      ContentsSnoc(ps);
    }
  }

  lemma WholeReplyReturns(o: Outgoing)
    requires WellCut(o)
    ensures Returned(Replies(o)) == [Ok((o.flag, o.data))]
  {
    RepliesReturn(o, Parts(o));
    assert Replies(o)[..Parts(o)] == Replies(o);
  }

  lemma ContentsSnoc(ps: seq<Parcel>)
    requires ps != []
    ensures var m := |ps| - 1;
      Contents(ps) == Contents(ps[..m]) + [Ok((ps[m].message.flag, ps[m].message.data))]
  {
  }

  /** The calls return the messages in order: every call up to their number
      returns the next one, and none is lost, split, repeated or swapped. */
  lemma HearsInOrder(conn: nat, f: Fragments, inbox: seq<Arrival>, trace: seq<Event>, heard: seq<Hearing>,
                     ps: seq<Parcel>)
    requires Attends(conn, f, inbox, trace, heard) && Lineup(conn, f, trace, ps)
    requires Stream(ps) <= PacketsIn(inbox)
    ensures Agree(heard, Contents(ps))
  {
    var answers, expected := Answers(conn, f, trace), Expected(ps);
    AnswersInOrder(conn, f, trace, ps);
    OnePerPacket(conn, f, trace);
    OneAnswerPerPacket(ps);
    ExpectedReturn(ps);
    if |expected| <= |answers| {
      assert answers[..|expected|] == expected;
      ReturnedPrefix(answers, |expected|);
    } else {
      assert expected[..|answers|] == answers;
      ReturnedPrefix(expected, |answers|);
    }
  }

  /** Nothing but the messages of the stream is returned as long as nothing but its
      packets is read. */
  lemma ReturnedWithin(conn: nat, f: Fragments, trace: seq<Event>, ps: seq<Parcel>)
    requires Lineup(conn, f, trace, ps) && OwnPackets(conn, trace) <= Stream(ps)
    ensures |Returned(Answers(conn, f, trace))| <= |ps|
  {
    var answers, expected := Answers(conn, f, trace), Expected(ps);
    AnswersInOrder(conn, f, trace, ps);
    OnePerPacket(conn, f, trace);
    OneAnswerPerPacket(ps);
    ExpectedReturn(ps);
    assert expected[..|answers|] == answers;
    ReturnedPrefix(expected, |answers|);
  }

  /** When nothing else is on the connection, nothing else is heard. */
  lemma HearsNoMore(conn: nat, f: Fragments, inbox: seq<Arrival>, trace: seq<Event>, heard: seq<Hearing>,
                    ps: seq<Parcel>)
    requires Attends(conn, f, inbox, trace, heard) && Lineup(conn, f, trace, ps)
    requires Stream(ps) == PacketsIn(inbox)
    ensures forall k :: |ps| <= k < |heard| ==> heard[k] == Err(TransportClosed)
  {
    ReturnedWithin(conn, f, trace, ps);
  }

  /** With packets of at most 100 messages reaching the lock, other receivers
      included, no purge disturbs a message; only another use of its id could. */
  lemma FewMessagesUndisturbed(conn: nat, id: U32, ids: set<U32>, f: Fragments, trace: seq<Event>, n: nat)
    requires f.Keys <= ids && |ids| <= 100 && PurgesOnlyCrowds(f, trace)
    requires forall k :: 0 <= k < |trace| && ReachesLock(trace[k].packet) ==> IdOf(trace[k]) in ids
    requires forall k :: 0 <= k < |trace| && Concerns(id, trace[k]) ==> Own(conn, trace[k])
    ensures Undisturbed(conn, id, f, trace, n)
  {
    ManyMessages.FewMessagesNeverPurged(ids, f, trace);
    forall k | 0 <= k < |trace| ensures Leaves(conn, id, f, trace, k) {
      assert trace[k].evicted == {};
    }
  }

  lemma OneParcel(p: Parcel)
    requires WellCut(p.message)
    ensures Sendable([p]) && Stream([p]) == FramesOf(p.message, p.id)
    ensures Contents([p]) == [Ok((p.message.flag, p.message.data))]
  {
    assert [p][..0] == [];
  }

  lemma OneLineup(conn: nat, f: Fragments, trace: seq<Event>, p: Parcel)
    requires WellCut(p.message)
    requires Parts(p.message) == 1 || (p.id !in f && Undisturbed(conn, p.id, f, trace, Parts(p.message)))
    ensures Lineup(conn, f, trace, [p])
  {
    OneParcel(p);
    assert [p][..1] == [p];
    assert HasItsWay(conn, f, trace, [p], 0);
  }

  /** One message from the start of the connection, from the sender's side: the
      receiver is returned its flag, and its bytes exactly when the true number of
      pieces fits in 16 bits; when that number is a multiple of 2^16 nothing is
      sent at all. One packet needs no condition on the buffer. */
  lemma SendThenReceive(conn: nat, flag: Byte, data: Bytes, max: nat, id: U32, f: Fragments,
                        inbox: seq<Arrival>, trace: seq<Event>, heard: seq<Hearing>)
    requires 100 <= max && PacketsIn(inbox) == Packets(flag, data, max, id)
    requires |PacketsIn(inbox)| <= 1 || (id !in f && Undisturbed(conn, id, f, trace, |PacketsIn(inbox)|))
    requires Attends(conn, f, inbox, trace, heard) && heard != []
    ensures heard[0] == Ok((flag, data)) <==> Countable(|data|, max)
  {
    var chunks := Cut(data, max);
    FragmentationExact(data, max);
    if chunks == [] {
      assert OwnPackets(conn, trace) == [];
      OnePerPacket(conn, f, trace);
    } else {
      var o := Outgoing(conn, flag, Concat(chunks), |data| % U32_LIMIT, chunks);
      OneParcel(Parcel(id, o));
      OneLineup(conn, f, trace, Parcel(id, o));
      HearsInOrder(conn, f, inbox, trace, heard, [Parcel(id, o)]);
    }
  }

  // ---------- A receiver alone on the buffer ----------

  /** The turns of one call that are spent on one message. */
  ghost predicate ReadsFrames(conn: nat, o: Outgoing, id: U32, evs: seq<Event>)
    requires WellCut(o)
  {
    AllOf(conn, evs) && |evs| <= Parts(o) && forall k :: 0 <= k < |evs| ==> evs[k].packet == FramesOf(o, id)[k]
  }

  lemma FramesInit(conn: nat, o: Outgoing, id: U32, evs: seq<Event>, n: nat)
    requires WellCut(o) && ReadsFrames(conn, o, id, evs) && n <= |evs|
    ensures ReadsFrames(conn, o, id, evs[..n]) && HasRead(conn, o, id, evs[..n], [], n)
  {
    AloneReadsAll(conn, evs[..n]);
    assert PacketsOf(evs[..n]) == [] + FramesOf(o, id)[..n];
  }

  /** With at most 99 other entries no purge comes in between. */
  lemma AloneIsUndisturbed(conn: nat, o: Outgoing, id: U32, f: Fragments, evs: seq<Event>)
    requires WellCut(o) && ReadsFrames(conn, o, id, evs) && |f| <= 99 && PurgesOnlyCrowds(f, evs)
    ensures AllLeave(conn, id, f, evs) && ManyMessages.NoEvictions(evs)
  {
    forall k | 0 <= k < |evs| ensures IdOf(evs[k]) == id {
      FrameHeader(o, id, k);
    }
    assert |f.Keys + {id}| <= |f.Keys| + 1 == |f| + 1;
    ManyMessages.FewMessagesNeverPurged(f.Keys + {id}, f, evs);
    forall k | 0 <= k < |evs| ensures Leaves(conn, id, f, evs, k) {
      assert Own(conn, evs[k]) && evs[k].evicted == {};
    }
  }

  lemma AnswerAlone(conn: nat, o: Outgoing, id: U32, f: Fragments, evs: seq<Event>, k: nat)
    requires WellCut(o) && ReadsFrames(conn, o, id, evs) && k < |evs|
    requires Parts(o) == 1 || (id !in f && AllLeave(conn, id, f, evs))
    ensures OutcomeAt(f, evs, k) == Reply(o, k)
  {
    if Parts(o) == 1 {
      SinglePacketAdvances(o, id, StateAfter(f, evs[..k]), evs[k]);
    } else {
      assert Leaves(conn, id, f, evs, k);
      UndisturbedInit(conn, id, f, evs, k, 0);
      FramesInit(conn, o, id, evs, k);
      EntryOfRead(conn, o, id, f, evs[..k], [], k);
      NextPiece(o, id, StateAfter(f, evs[..k]), evs[k], k);
    }
  }

  /** No entry but that of the message changes, and that one is never empty. */
  lemma {:induction false} RestStays(conn: nat, o: Outgoing, id: U32, f: Fragments, evs: seq<Event>)
    requires WellCut(o) && ReadsFrames(conn, o, id, evs) && id !in f && ManyMessages.NoEvictions(evs)
    ensures StateAfter(f, evs) - {id} == f
    ensures id in StateAfter(f, evs) ==> StateAfter(f, evs)[id] != map[]
  {
    if evs == [] {
      assert f - {id} == f;
    } else {
      var n := |evs| - 1;
      FramesInit(conn, o, id, evs, n);
      RestStays(conn, o, id, f, evs[..n]);
      FrameHeader(o, id, n);
      FrameTouchesOwn(id, StateAfter(f, evs[..n]), evs[n]);
    }
  }

  lemma WithEntryTouchesOwn(id: U32, f: Fragments, m: Slot)
    ensures WithEntry(f, id, m) - {id} == f - {id}
    ensures id in WithEntry(f, id, m) ==> WithEntry(f, id, m)[id] != map[]
  {
  }

  lemma FrameTouchesOwn(id: U32, f: Fragments, ev: Event)
    requires BelongsTo(id, ev) && ev.evicted == {} && (id in f ==> f[id] != map[])
    ensures Process(f, ev).0 - {id} == f - {id}
    ensures id in Process(f, ev).0 ==> Process(f, ev).0[id] != map[]
  {
    assert f - {} == f;
    var h, payload := Unmarshal(ev.packet).value, ev.packet[HEADER_SIZE..];
    WithEntryTouchesOwn(id, f, Insert(Entry(f, id), h, payload).0);
  }

  lemma ReadsFirst(conn: nat, o: Outgoing, id: U32, f: Fragments, inbox: seq<Arrival>, evs: seq<Event>, n: nat)
    requires WellCut(o) && (Parts(o) == 1 || |f| <= 99) && n <= |evs| && n <= Parts(o)
    requires FramesOf(o, id) <= PacketsIn(inbox) && Reads(conn, f, inbox, evs) && AllOf(conn, evs)
    ensures ReadsFrames(conn, o, id, evs[..n]) && Parts(o) <= |inbox|
    ensures Parts(o) != 1 ==> AllLeave(conn, id, f, evs[..n]) && ManyMessages.NoEvictions(evs[..n])
  {
    var t := evs[..n];
    AloneReadsAll(conn, evs);
    forall k | 0 <= k < n ensures t[k].packet == FramesOf(o, id)[k] && PurgeFine(f, t, k) {
      assert PacketsOf(evs)[k] == PacketsIn(inbox)[k] && PurgeFine(f, evs, k) && t[..k] == evs[..k];
    }
    if Parts(o) != 1 {
      AloneIsUndisturbed(conn, o, id, f, t);
    }
  }

  /** The call ends with the packet that completes the message. */
  lemma EndsWithMessage(conn: nat, o: Outgoing, f: Fragments, evs: seq<Event>, available: nat)
    requires 0 < Parts(o) <= available && OneReceive(conn, f, available, evs)
    requires forall k :: 0 <= k < |Answers(conn, f, evs)| && k < Parts(o) ==> Answers(conn, f, evs)[k] == Reply(o, k)
    ensures |Answers(conn, f, evs)| == Parts(o) && ReceiveResult(conn, f, evs) == Ok((o.flag, o.data))
  {
    var answers, last := Answers(conn, f, evs), Parts(o) - 1;
    assert last < |answers| ==> answers[last] == Reply(o, last);
  }

  /** One call on a connection whose next packets are those of one message: it
      consumes them all and no more, returns the message, and leaves the buffer
      as it was. */
  lemma ReceivesMessage(conn: nat, o: Outgoing, id: U32, f: Fragments, inbox: seq<Arrival>, evs: seq<Event>)
    requires WellCut(o) && (Parts(o) == 1 || (id !in f && |f| <= 99))
    requires FramesOf(o, id) <= PacketsIn(inbox) && Reads(conn, f, inbox, evs) && AllOf(conn, evs)
    ensures |evs| == Parts(o)
    ensures ReceiveResult(conn, f, evs) == Ok((o.flag, o.data))
    ensures StateAfter(f, evs) == f
  {
    AnswersAlone(conn, o, id, f, inbox, evs, Min(|evs|, Parts(o)));
    EndsWithMessage(conn, o, f, evs, |inbox|);
    ReadsFirst(conn, o, id, f, inbox, evs, |evs|);
    assert evs[..|evs|] == evs;
    MessageRestores(conn, o, id, f, evs);
  }

  lemma AnswersAlone(conn: nat, o: Outgoing, id: U32, f: Fragments, inbox: seq<Arrival>, evs: seq<Event>, n: nat)
    requires WellCut(o) && (Parts(o) == 1 || (id !in f && |f| <= 99)) && n <= |evs| && n <= Parts(o)
    requires FramesOf(o, id) <= PacketsIn(inbox) && Reads(conn, f, inbox, evs) && AllOf(conn, evs)
    ensures Parts(o) <= |inbox| && |Answers(conn, f, evs)| == |evs|
    ensures forall k :: 0 <= k < n ==> Answers(conn, f, evs)[k] == Reply(o, k)
  {
    ReadsFirst(conn, o, id, f, inbox, evs, n);
    AloneReadsAll(conn, evs);
    OnePerPacket(conn, f, evs);
    forall k | 0 <= k < n ensures Answers(conn, f, evs)[k] == Reply(o, k) {
      AnswerAlone(conn, o, id, f, evs[..n], k);
      AnswerInPrefix(Process, f, evs, n, k);
      AloneAnswers(conn, f, evs, k);
    }
  }

  lemma NothingToRemove(id: U32, f: Fragments)
    requires Entry(f, id).Keys == {} && (id in f ==> f[id] != map[])
    ensures f - {id} == f
  {
    assert id !in f;
  }

  lemma MessageRestores(conn: nat, o: Outgoing, id: U32, f: Fragments, evs: seq<Event>)
    requires WellCut(o) && ReadsFrames(conn, o, id, evs) && |evs| == Parts(o)
    requires Parts(o) == 1 || (id !in f && AllLeave(conn, id, f, evs) && ManyMessages.NoEvictions(evs))
    ensures StateAfter(f, evs) == f
  {
    assert evs[..|evs|] == evs;
    if Parts(o) == 1 {
      SinglePacketAdvances(o, id, f, evs[0]);
      AfterFirst(Process, f, evs);
    } else {
      FramesInit(conn, o, id, evs, |evs|);
      EntryOfRead(conn, o, id, f, evs, [], |evs|);
      RestStays(conn, o, id, f, evs);
      NothingToRemove(id, StateAfter(f, evs));
    }
  }

}
