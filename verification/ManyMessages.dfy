/** All messages of a run together: when every one of them is delivered exactly
    once and the buffer ends empty, when a purge can happen at all, and what a
    repeated run or a badly timed purge does. */
module ManyMessages {
  import opened Basics
  import opened Runs
  import opened Fragment
  import opened Reassembly
  import opened ReassemblySafety
  import opened ExactlyOnce
  import opened Receivers
  import Gathering

  ghost predicate NoEvictions(evs: seq<Event>) {
    forall k :: 0 <= k < |evs| ==> evs[k].evicted == {}
  }

  ghost predicate NoLateDuplicates(sent: Messages, evs: seq<Event>) {
    forall id :: id in sent ==> NoneLate(sent[id], id, evs)
  }

  predicate AllComplete(sent: Messages, evs: seq<Event>) {
    forall id :: id in sent ==> Complete(sent[id], id, evs)
  }

  predicate AllDelivered(sent: Messages, evs: seq<Event>, times: nat) {
    forall id :: id in sent ==> Deliveries(id, map[], evs) == times
  }

  // ---------- The empty buffer ----------

  ghost predicate NoEmptySlots(f: Fragments) {
    forall id :: id in f ==> f[id] != map[]
  }

  lemma StepLeavesNoEmptySlot(f: Fragments, ev: Event)
    requires NoEmptySlots(f)
    ensures NoEmptySlots(Process(f, ev).0)
  {
  }

  lemma {:induction false} NeverEmptySlots(evs: seq<Event>)
    ensures NoEmptySlots(StateAfter(map[], evs))
  {
    if evs != [] {
      NeverEmptySlots(evs[..|evs| - 1]);
      StepLeavesNoEmptySlot(StateAfter(map[], evs[..|evs| - 1]), evs[|evs| - 1]);
    }
  }

  lemma EmptyMeansNoEntries(sent: Messages, evs: seq<Event>)
    requires AllWellCut(sent) && AllAuthentic(sent, evs)
    ensures StateAfter(map[], evs) == map[] <==> forall id :: id in sent ==> Entry(StateAfter(map[], evs), id) == map[]
  {
    var f := StateAfter(map[], evs);
    RunIsSafe(sent, map[], evs);
    NeverEmptySlots(evs);
    if f != map[] {
      var id :| id in f;
      assert id in sent && Entry(f, id) != map[];
    }
  }

  ghost predicate Unpurged(sent: Messages, evs: seq<Event>) {
    AllWellCut(sent) && AllAuthentic(sent, evs) && NoEvictions(evs)
  }

  lemma EachIsFresh(sent: Messages, evs: seq<Event>, id: U32)
    requires Unpurged(sent, evs) && id in sent
    ensures Fresh(sent[id], id, map[], evs) && NeverEvicted(id, evs)
  {
    AuthenticIsUnforged(sent, evs, id);
  }

  // ---------- Exactly once ----------

  /** In any interleaving of any number of messages, with any losses and
      repetitions: every message is delivered exactly once and the buffer ends
      empty if and only if all their pieces arrive and none arrives late. */
  lemma ExactlyOnceExactly(sent: Messages, evs: seq<Event>)
    requires Unpurged(sent, evs)
    ensures AllDelivered(sent, evs, 1) && StateAfter(map[], evs) == map[]
            <==> AllComplete(sent, evs) && NoLateDuplicates(sent, evs)
  {
    EmptyMeansNoEntries(sent, evs);
    forall id | id in sent
      ensures Deliveries(id, map[], evs) == 1 && Entry(StateAfter(map[], evs), id) == map[]
              <==> Complete(sent[id], id, evs) && NoneLate(sent[id], id, evs)
    {
      EachIsFresh(sent, evs, id);
      OnceIffCompleteInTime(sent[id], id, map[], evs);
    }
  }

  /** Without late duplicates, the buffer is empty exactly when every message that
      has begun to arrive is complete. */
  lemma EmptyWhenNothingPending(sent: Messages, evs: seq<Event>)
    requires Unpurged(sent, evs) && NoLateDuplicates(sent, evs)
    ensures StateAfter(map[], evs) == map[]
            <==> forall id :: id in sent ==> Arrived(id, evs) == {} || Complete(sent[id], id, evs)
  {
    EmptyMeansNoEntries(sent, evs);
    var f := StateAfter(map[], evs);
    forall id | id in sent ensures Entry(f, id) == map[] <==> Arrived(id, evs) == {} || Complete(sent[id], id, evs) {
      EachIsFresh(sent, evs, id);
      EntryTracksArrivals(sent[id], id, map[], evs);
      assert Entry(f, id) == map[] <==> Entry(f, id).Keys == {};
    }
  }

  ghost predicate Arrives(sent: Messages, evs: seq<Event>, id: U32, i: U16)
    requires AllWellCut(sent)
  {
    exists k :: 0 <= k < |evs| && Carries(sent, evs[k], id, i)
  }

  ghost predicate AllArrive(sent: Messages, evs: seq<Event>)
    requires AllWellCut(sent)
  {
    forall id, i: U16 :: id in sent && i < Parts(sent[id]) ==> Arrives(sent, evs, id, i)
  }

  /** To be complete is to have every piece arrive. */
  lemma CompleteWhenAllArrive(sent: Messages, evs: seq<Event>, id: U32)
    requires AllWellCut(sent) && AllAuthentic(sent, evs) && id in sent
    ensures Complete(sent[id], id, evs) <==> forall i: U16 :: i < Parts(sent[id]) ==> Arrives(sent, evs, id, i)
  {
    var n, there := Parts(sent[id]), Arrived(id, evs);
    AuthenticIsUnforged(sent, evs, id);
    ArrivedInRange(sent[id], id, evs);
    Gathering.Pigeonhole(there, n);
    forall i: U16 | i < n ensures i in there <==> Arrives(sent, evs, id, i) {
      ArrivesWhenCarried(sent, evs, id, i);
    }
    if forall i: U16 :: i < n ==> Arrives(sent, evs, id, i) {
      Gathering.AllBelow(there, n);
    }
  }

  lemma ArrivesWhenCarried(sent: Messages, evs: seq<Event>, id: U32, i: U16)
    requires AllWellCut(sent) && AllAuthentic(sent, evs) && id in sent && i < Parts(sent[id])
    ensures i in Arrived(id, evs) <==> Arrives(sent, evs, id, i)
  {
    ArrivedExactly(id, evs, i);
    forall k | 0 <= k < |evs|
      ensures BelongsTo(id, evs[k]) && IndexOf(evs[k]) == i <==> Carries(sent, evs[k], id, i)
    {
      AuthenticCarries(sent, evs[k]);
      FrameHeader(sent[IdOf(evs[k])], IdOf(evs[k]), IndexOf(evs[k]));
      if Carries(sent, evs[k], id, i) {
        CarriesParts(sent, evs[k], id, i);
      }
    }
  }

  ghost predicate NothingRepeats(evs: seq<Event>) {
    forall j, k :: 0 <= j < k < |evs| ==> evs[j].packet != evs[k].packet
  }

  /** Every packet of every message arrives exactly once, in any interleaving:
      each message is delivered exactly once and the buffer ends empty. */
  lemma ExactlyOnceDelivery(sent: Messages, evs: seq<Event>)
    requires Unpurged(sent, evs) && NothingRepeats(evs) && AllArrive(sent, evs)
    ensures AllDelivered(sent, evs, 1) && StateAfter(map[], evs) == map[]
  {
    forall id | id in sent ensures Complete(sent[id], id, evs) && NoneLate(sent[id], id, evs) {
      AuthenticIsUnforged(sent, evs, id);
      CompleteWhenAllArrive(sent, evs, id);
      DistinctNeverLate(sent[id], id, evs);
    }
    ExactlyOnceExactly(sent, evs);
  }

  // ---------- When no purge can happen ----------

  /** As long as packets of at most 100 messages reach the lock, no purge removes
      anything: not even forged packets, or those of the messages at hand. */
  lemma FewMessagesNeverPurged(ids: set<U32>, f: Fragments, evs: seq<Event>)
    requires f.Keys <= ids && |ids| <= 100
    requires forall k :: 0 <= k < |evs| && ReachesLock(evs[k].packet) ==> IdOf(evs[k]) in ids
    requires PurgesOnlyCrowds(f, evs)
    ensures NoEvictions(evs)
  {
    forall k | 0 <= k < |evs| ensures evs[k].evicted == {} {
      assert PurgeFine(f, evs, k);
      EntriesAreKnown(ids, f, evs[..k]);
      var now := StateAfter(f, evs[..k]);
      EntriesFit(ids, now);
    }
  }

  lemma EntriesFit(ids: set<U32>, f: Fragments)
    requires f.Keys <= ids
    ensures |f| <= |ids|
  {
    assert |f| == |f.Keys| && ids == f.Keys + (ids - f.Keys);
  }

  /** So with at most 100 messages the exact condition needs no assumption about
      purges beyond what the code itself guarantees. */
  lemma FewMessagesExactlyOnce(sent: Messages, evs: seq<Event>)
    requires AllWellCut(sent) && AllAuthentic(sent, evs)
    requires |sent| <= 100 && PurgesOnlyCrowds(map[], evs)
    ensures NoEvictions(evs)
    ensures AllDelivered(sent, evs, 1) && StateAfter(map[], evs) == map[]
            <==> AllComplete(sent, evs) && NoLateDuplicates(sent, evs)
    ensures NothingRepeats(evs) && AllArrive(sent, evs) ==>
      AllDelivered(sent, evs, 1) && StateAfter(map[], evs) == map[]
  {
    forall k | 0 <= k < |evs| ensures IdOf(evs[k]) in sent.Keys {
      AuthenticCarries(sent, evs[k]);
    }
    assert |sent.Keys| == |sent|;
    FewMessagesNeverPurged(sent.Keys, map[], evs);
    ExactlyOnceExactly(sent, evs);
    if NothingRepeats(evs) && AllArrive(sent, evs) {
      ExactlyOnceDelivery(sent, evs);
    }
  }

  // ---------- Two failing runs ----------

  /** A run that leaves the buffer empty, once more: every answer is repeated, so
      every message is delivered as often again. */
  lemma RepeatedRunDeliversAgain(evs: seq<Event>, id: U32)
    requires StateAfter(map[], evs) == map[]
    ensures StateAfter(map[], evs + evs) == map[]
    ensures forall k :: 0 <= k < |evs| ==> OutcomeAt(map[], evs + evs, |evs| + k) == OutcomeAt(map[], evs, k)
    ensures Deliveries(id, map[], evs + evs) == 2 * Deliveries(id, map[], evs)
  {
    AfterAppend(Process, map[], evs, evs);
    forall k | 0 <= k < |evs| ensures OutcomeAt(map[], evs + evs, |evs| + k) == OutcomeAt(map[], evs, k) {
      AnswerAppend(Process, map[], evs, evs, k);
    }
    DeliveriesAppend(id, map[], evs, evs);
  }

  lemma {:induction false} SubsetOfSize(s: set<U32>, n: nat) returns (part: set<U32>)
    requires n <= |s|
    ensures part <= s && |part| == n
  {
    part := {};
    if n != 0 {
      var x :| x in s;
      var rest := SubsetOfSize(s - {x}, n - 1);
      part := rest + {x};
    }
  }

  /** The packets of one message in order, with a purge before the second. */
  function PurgedRun(o: Outgoing, id: U32, evicted: set<U32>): (evs: seq<Event>)
    requires WellCut(o)
    ensures |evs| == Parts(o)
  {
    seq(Parts(o), k requires 0 <= k < Parts(o) => Event(o.conn, FramesOf(o, id)[k], if k == 1 then evicted else {}))
  }

  /** The second packet is the first to find the timeout passed. */
  function PurgedArrivals(o: Outgoing, id: U32, start: int, due: int): (arrivals: seq<Arrival>)
    requires WellCut(o)
    ensures |arrivals| == Parts(o)
  {
    seq(Parts(o), k requires 0 <= k < Parts(o) => Arrival(FramesOf(o, id)[k], if k == 0 then start else due, due))
  }

  lemma DueOnce(o: Outgoing, id: U32, timeout: nat, start: int, k: nat)
    requires WellCut(o) && 1 < Parts(o) && k < Parts(o)
    ensures var due := start + timeout + 1;
      CleanupDue(timeout, if k <= 1 then start else due, PurgedArrivals(o, id, start, due)[k]) <==> k == 1
  {
    FrameHeader(o, id, k);
  }

  lemma LastCleanNext(timeout: int, start: int, arrivals: seq<Arrival>, k: nat)
    requires k < |arrivals|
    ensures var before := LastClean(timeout, start, arrivals[..k]);
      LastClean(timeout, start, arrivals[..k + 1])
      == if CleanupDue(timeout, before, arrivals[k]) then arrivals[k].cleanedAt else before
  {
    assert arrivals[..k + 1][..k] == arrivals[..k];
  }

  lemma {:induction false} OneCleanOnly(o: Outgoing, id: U32, timeout: nat, start: int, k: nat)
    requires WellCut(o) && 1 < Parts(o) && k <= Parts(o)
    ensures var due := start + timeout + 1;
      LastClean(timeout, start, PurgedArrivals(o, id, start, due)[..k]) == if k <= 1 then start else due
  {
    if k != 0 {
      OneCleanOnly(o, id, timeout, start, k - 1);
      LastCleanNext(timeout, start, PurgedArrivals(o, id, start, start + timeout + 1), k - 1);
      DueOnce(o, id, timeout, start, k - 1);
    }
  }

  lemma RunOfOwnPackets(o: Outgoing, id: U32, evicted: set<U32>)
    requires WellCut(o)
    ensures var evs := PurgedRun(o, id, evicted);
      && Unforged(o, id, evs) && DistinctPackets(id, evs)
      && forall k: nat :: k < |evs| ==> BelongsTo(id, evs[k]) && IndexOf(evs[k]) == k
  {
    var evs := PurgedRun(o, id, evicted);
    forall k: nat | k < |evs|
      ensures BelongsTo(id, evs[k]) && IndexOf(evs[k]) == k && Genuine(o, id, evs[k])
    {
      FrameHeader(o, id, k);
    }
    forall j, k | 0 <= j < k < |evs| ensures evs[j].packet != evs[k].packet {
      assert IndexOf(evs[j]) == j && IndexOf(evs[k]) == k;
    }
  }

  lemma OwnPacketsComplete(o: Outgoing, id: U32, evs: seq<Event>)
    requires WellCut(o) && |evs| == Parts(o)
    requires forall k: nat :: k < |evs| ==> BelongsTo(id, evs[k]) && IndexOf(evs[k]) == k
    ensures Complete(o, id, evs)
    ensures 1 < Parts(o) ==> Arrived(id, evs[..1]) != {} && !Complete(o, id, evs[..1])
  {
    FirstPackets(id, evs, |evs|);
    assert evs[..|evs|] == evs;
    if 1 < Parts(o) {
      FirstPackets(id, evs, 1);
    }
  }

  lemma FirstPackets(id: U32, evs: seq<Event>, n: nat)
    requires n <= |evs| <= U16_LIMIT
    requires forall k: nat :: k < |evs| ==> BelongsTo(id, evs[k]) && IndexOf(evs[k]) == k
    ensures |Arrived(id, evs[..n])| == n
  {
    forall i: U16 ensures i in Arrived(id, evs[..n]) <==> i < n {
      ArrivedExactly(id, evs[..n], i);
      if i < n {
        assert evs[..n][i] == evs[i];
      }
    }
    Gathering.AllBelow(Arrived(id, evs[..n]), n);
  }

  lemma PurgeHurts(o: Outgoing, id: U32, evicted: set<U32>)
    requires WellCut(o) && 1 < Parts(o) && id in evicted
    ensures var evs := PurgedRun(o, id, evicted);
      Complete(o, id, evs) && Hurts(o, id, evs, 1)
  {
    RunOfOwnPackets(o, id, evicted);
    OwnPacketsComplete(o, id, PurgedRun(o, id, evicted));
    FrameHeader(o, id, 1);
  }

  lemma {:induction false} DeliveriesGrow(id: U32, f: Fragments, evs: seq<Event>, n: nat)
    requires n <= |evs|
    ensures Deliveries(id, f, evs[..n]) <= Deliveries(id, f, evs)
    decreases |evs| - n
  {
    if n == |evs| {
      assert evs[..n] == evs;
    } else {
      OneMoreDelivery(id, f, evs, n);
      DeliveriesGrow(id, f, evs, n + 1);
    }
  }

  lemma NeverDeliveredMeansStored(o: Outgoing, id: U32, f: Fragments, evs: seq<Event>, k: nat)
    requires Fresh(o, id, f, evs) && Deliveries(id, f, evs) == 0 && k < |evs| && BelongsTo(id, evs[k])
    ensures Answer(Process, f, evs, k) == Stored
  {
    DeliveriesGrow(id, f, evs, k + 1);
    OneMoreDelivery(id, f, evs, k);
    MessageSafety(o, id, f, evs, k);
  }

  /** The entries a purge may remove once the first packet is stored. */
  lemma PurgePermitted(o: Outgoing, id: U32, f: Fragments, ev: Event) returns (evicted: set<U32>)
    requires WellCut(o) && 1 < Parts(o) && id !in f && 100 <= |f|
    requires ev == Event(o.conn, FramesOf(o, id)[0], {})
    ensures id in evicted && CleanupEvicts(Process(f, ev).0, evicted)
  {
    FrameHeader(o, id, 0);
    LateDuplicateReopensEntry(o, id, f, ev);
    evicted := AllBut49(f, id, Process(f, ev).0);
  }

  lemma AllBut49(f: Fragments, id: U32, now: Fragments) returns (evicted: set<U32>)
    requires id !in f && 100 <= |f| && now.Keys == f.Keys + {id}
    ensures id in evicted && CleanupEvicts(now, evicted)
  {
    assert |now| == |now.Keys| == |f.Keys| + 1 && |f| == |f.Keys|;
    var others := SubsetOfSize(f.Keys, |f| - 49);
    evicted := others + {id};
  }

  /** A message of several pieces on a crowded buffer: with a clock that makes its
      second packet run the purge, and a walk order that picks its entry, the
      receiver consumes all its packets, in order and once each, and never
      returns it. */
  lemma PurgedInFlight(o: Outgoing, id: U32, f: Fragments, timeout: nat, start: int)
    returns (arrivals: seq<Arrival>, evs: seq<Event>)
    requires WellCut(o) && 1 < Parts(o) && id !in f && 100 <= |f|
    ensures PacketsIn(arrivals) == FramesOf(o, id) && |evs| == |arrivals|
    ensures Turns(timeout, start, f, arrivals, evs) && OneReceive(o.conn, f, |arrivals|, evs)
    ensures ReceiveResult(o.conn, f, evs) == Err(TransportClosed) && Deliveries(id, f, evs) == 0
  {
    var evicted := PurgePermitted(o, id, f, Event(o.conn, FramesOf(o, id)[0], {}));
    arrivals, evs := PurgedArrivals(o, id, start, start + timeout + 1), PurgedRun(o, id, evicted);
    PurgedTurns(o, id, f, timeout, start, evicted);
    PurgedOutcomes(o, id, f, evicted);
    PurgedPackets(o, id, start, start + timeout + 1, evicted);
    AloneTakesAll(o.conn, arrivals, evs);
    assert arrivals + [] == arrivals;
    WaitingInVain(o.conn, f, arrivals, [], arrivals, evs);
  }

  lemma PurgedPackets(o: Outgoing, id: U32, start: int, due: int, evicted: set<U32>)
    requires WellCut(o)
    ensures PacketsIn(PurgedArrivals(o, id, start, due)) == FramesOf(o, id)
    ensures AllOf(o.conn, PurgedRun(o, id, evicted))
  {
  }

  lemma PurgedOutcomes(o: Outgoing, id: U32, f: Fragments, evicted: set<U32>)
    requires WellCut(o) && 1 < Parts(o) && id !in f && id in evicted
    ensures Deliveries(id, f, PurgedRun(o, id, evicted)) == 0
    ensures AllStored(Answers(o.conn, f, PurgedRun(o, id, evicted)))
  {
    RunOfOwnPackets(o, id, evicted);
    PurgeHurts(o, id, evicted);
    HurtNeverDelivers(o, id, f, PurgedRun(o, id, evicted), 1);
    NeverDeliveredOnlyStores(o.conn, o, id, f, PurgedRun(o, id, evicted));
  }

  lemma HurtNeverDelivers(o: Outgoing, id: U32, f: Fragments, evs: seq<Event>, k: nat)
    requires Fresh(o, id, f, evs) && DistinctPackets(id, evs) && Complete(o, id, evs)
    requires k < |evs| && Hurts(o, id, evs, k)
    ensures Deliveries(id, f, evs) == 0
  {
    DeliveredUnlessPurged(o, id, f, evs);
    assert !NeverHurt(o, id, evs);
  }

  lemma NeverDeliveredOnlyStores(conn: nat, o: Outgoing, id: U32, f: Fragments, evs: seq<Event>)
    requires Fresh(o, id, f, evs) && Deliveries(id, f, evs) == 0
    requires forall k :: 0 <= k < |evs| ==> BelongsTo(id, evs[k])
    ensures AllStored(Answers(conn, f, evs))
  {
    OnePerPacket(conn, f, evs);
    forall n | 0 <= n < |Answers(conn, f, evs)| ensures Answers(conn, f, evs)[n] == Stored {
      var at := TurnOf(conn, f, evs, n);
      NeverDeliveredMeansStored(o, id, f, evs, at);
    }
  }

  lemma PurgedTurns(o: Outgoing, id: U32, f: Fragments, timeout: nat, start: int, evicted: set<U32>)
    requires WellCut(o) && 1 < Parts(o)
    requires CleanupEvicts(Process(f, Event(o.conn, FramesOf(o, id)[0], {})).0, evicted)
    ensures Turns(timeout, start, f, PurgedArrivals(o, id, start, start + timeout + 1), PurgedRun(o, id, evicted))
  {
    var arrivals, evs := PurgedArrivals(o, id, start, start + timeout + 1), PurgedRun(o, id, evicted);
    AfterFirst(Process, f, evs);
    forall k | 0 <= k < |evs| ensures TurnFine(timeout, start, f, arrivals, evs, k) {
      OneCleanOnly(o, id, timeout, start, k);
      DueOnce(o, id, timeout, start, k);
    }
  }
}
