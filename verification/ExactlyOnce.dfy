/** How often a message is delivered and what it leaves behind. For each message
    the shared buffer does what `Gathering` says of the pieces that arrive and
    the purges that hit them, whatever else passes through it; the exact
    conditions for delivery are read off there. */
module ExactlyOnce {
  import opened Basics
  import opened Runs
  import opened Reassembly
  import opened ReassemblySafety
  import Gathering

  /** What an event means to message `id`. */
  function SignOf(id: U32, ev: Event): Gathering.Sign {
    Gathering.Sign(ReachesLock(ev.packet) && id in ev.evicted,
                   if BelongsTo(id, ev) then Some(IndexOf(ev)) else None)
  }

  function Signs(id: U32, evs: seq<Event>): (gs: seq<Gathering.Sign>)
    ensures |gs| == |evs|
  {
    seq(|evs|, k requires 0 <= k < |evs| => SignOf(id, evs[k]))
  }

  lemma SignsInit(id: U32, evs: seq<Event>, n: nat)
    requires n <= |evs|
    ensures Signs(id, evs[..n]) == Signs(id, evs)[..n]
  {
  }

  /** The pieces of message `id` that have arrived. */
  function Arrived(id: U32, evs: seq<Event>): set<U16> {
    Gathering.Arrived(Signs(id, evs))
  }

  predicate Complete(o: Outgoing, id: U32, evs: seq<Event>) {
    Gathering.Full(Parts(o), Arrived(id, evs))
  }

  /** How often message `id` has been delivered. */
  function Deliveries(id: U32, f: Fragments, evs: seq<Event>): nat {
    if evs == [] then 0
    else
      var n := |evs| - 1;
      Deliveries(id, f, evs[..n]) + if BelongsTo(id, evs[n]) && OutcomeAt(f, evs, n).Delivered? then 1 else 0
  }

  lemma {:induction false} ArrivedExactly(id: U32, evs: seq<Event>, i: U16)
    ensures i in Arrived(id, evs) <==> exists k :: 0 <= k < |evs| && BelongsTo(id, evs[k]) && IndexOf(evs[k]) == i
  {
    var gs := Signs(id, evs);
    Gathering.ArrivedExactly(gs, i);
    forall k | 0 <= k < |evs| ensures gs[k].piece == Some(i) <==> BelongsTo(id, evs[k]) && IndexOf(evs[k]) == i {
    }
  }

  lemma ArrivedInRange(o: Outgoing, id: U32, evs: seq<Event>)
    requires WellCut(o) && Unforged(o, id, evs)
    ensures forall i :: i in Arrived(id, evs) ==> i < Parts(o)
  {
    forall i | i in Arrived(id, evs) ensures i < Parts(o) {
      ArrivedExactly(id, evs, i);
      var k :| 0 <= k < |evs| && BelongsTo(id, evs[k]) && IndexOf(evs[k]) == i;
      assert Genuine(o, id, evs[k]);
    }
  }

  // ---------- The buffer does what Gathering says ----------

  /** The entry after a piece of the message has joined these. */
  predicate Gathers(o: Outgoing, all: set<U16>, after: set<U16>, outcome: Outcome) {
    if Parts(o) <= |all| then after == {} && outcome == Delivered(o.flag, o.data)
    else after == all && outcome == Stored
  }

  lemma PieceJoinsEntry(o: Outgoing, id: U32, i: U16, f: Fragments, f': Fragments, outcome: Outcome)
    requires WellCut(o) && Parts(o) != 1 && Advances(o, id, i, f, f', outcome)
    ensures Gathers(o, Entry(f, id).Keys + {i}, Entry(f', id).Keys, outcome)
  {
    var m: Slot := Entry(f, id);
    var m': Slot := m[i := o.chunks[i]];
    assert m'.Keys == m.Keys + {i} && |m'| == |m'.Keys|;
    Gathering.SubsetSize(m.Keys, m'.Keys);
    Gathering.Pigeonhole(m'.Keys, Parts(o));
  }

  lemma SinglePieceJoins(o: Outgoing, id: U32, i: U16, f: Fragments, f': Fragments, outcome: Outcome)
    requires WellCut(o) && Parts(o) == 1 && Advances(o, id, i, f, f', outcome) && Partial(o, Entry(f, id))
    ensures Gathers(o, Entry(f, id).Keys + {i}, Entry(f', id).Keys, outcome)
  {
    assert Entry(f, id) == map[];
    assert |Entry(f, id).Keys + {i}| == |{i}| == 1;
  }

  /** What one event does to the entry and what it answers are what it means. */
  ghost predicate Ticks(o: Outgoing, id: U32, before: set<U16>, ev: Event, after: set<U16>, outcome: Outcome) {
    var (held, done) := Gathering.Tick(Parts(o), before, SignOf(id, ev));
    && after == held
    && (BelongsTo(id, ev) ==> outcome == if done then Delivered(o.flag, o.data) else Stored)
    && (!BelongsTo(id, ev) ==> !done)
  }

  lemma EventTicks(o: Outgoing, id: U32, f: Fragments, ev: Event)
    requires WellCut(o) && Genuine(o, id, ev) && Partial(o, Entry(f, id))
    ensures Ticks(o, id, Entry(f, id).Keys, ev, Entry(Process(f, ev).0, id).Keys, Process(f, ev).1)
  {
    if BelongsTo(id, ev) {
      GenuineAdvances(o, id, f, ev);
      SinglesSkipTheLock(o, id, ev);
      OwnPacketGathers(o, id, f, ev, Process(f, ev).0, Process(f, ev).1);
      GatheringTicks(o, id, Entry(f, id).Keys, ev, Entry(Process(f, ev).0, id).Keys, Process(f, ev).1);
    } else {
      OthersKeepEntry(id, f, ev);
    }
  }

  lemma GatheringTicks(o: Outgoing, id: U32, before: set<U16>, ev: Event, after: set<U16>, outcome: Outcome)
    requires BelongsTo(id, ev)
    requires var kept := if SignOf(id, ev).evicts then {} else before;
      Gathers(o, kept + {IndexOf(ev)}, after, outcome)
    ensures Ticks(o, id, before, ev, after, outcome)
  {
  }

  /** One of the message's own packets joins what a purge has left of it. */
  lemma OwnPacketGathers(o: Outgoing, id: U32, f: Fragments, ev: Event, f': Fragments, outcome: Outcome)
    requires WellCut(o) && Partial(o, Entry(Purged(o, f, ev.evicted), id))
    requires Advances(o, id, IndexOf(ev), Purged(o, f, ev.evicted), f', outcome)
    requires ReachesLock(ev.packet) <==> Parts(o) != 1
    ensures var kept := if SignOf(id, ev).evicts then {} else Entry(f, id).Keys;
      Gathers(o, kept + {IndexOf(ev)}, Entry(f', id).Keys, outcome)
  {
    if Parts(o) == 1 {
      SinglePieceJoins(o, id, IndexOf(ev), f, f', outcome);
    } else {
      PieceJoinsEntry(o, id, IndexOf(ev), f - ev.evicted, f', outcome);
    }
  }

  lemma SinglesSkipTheLock(o: Outgoing, id: U32, ev: Event)
    requires WellCut(o) && Genuine(o, id, ev) && BelongsTo(id, ev)
    ensures ReachesLock(ev.packet) <==> Parts(o) != 1
  {
    FrameHeader(o, id, IndexOf(ev));
  }

  /** A message that starts with nothing in the buffer. */
  ghost predicate Fresh(o: Outgoing, id: U32, f: Fragments, evs: seq<Event>) {
    WellCut(o) && Unforged(o, id, evs) && Entry(f, id) == map[]
  }

  /** Over every run, the entry holds what the pieces and purges of this one
      message say it holds. */
  lemma {:induction false} EntryFollows(o: Outgoing, id: U32, f: Fragments, evs: seq<Event>)
    requires Fresh(o, id, f, evs)
    ensures Partial(o, Entry(StateAfter(f, evs), id))
    ensures Entry(StateAfter(f, evs), id).Keys == Gathering.Held(Parts(o), Signs(id, evs))
  {
    EntryStaysPartial(o, id, f, evs);
    if evs != [] {
      var n := |evs| - 1;
      assert Genuine(o, id, evs[n]);
      EntryFollows(o, id, f, evs[..n]);
      SignsInit(id, evs, n);
      Gathering.CountStep(Parts(o), Signs(id, evs));
      EventTicks(o, id, StateAfter(f, evs[..n]), evs[n]);
    }
  }

  /** And so do the answers to its packets. */
  lemma AnswersFollow(o: Outgoing, id: U32, f: Fragments, evs: seq<Event>, k: nat)
    requires Fresh(o, id, f, evs) && k < |evs|
    ensures BelongsTo(id, evs[k]) ==>
      OutcomeAt(f, evs, k)
      == if Gathering.DeliversAt(Parts(o), Signs(id, evs), k) then Delivered(o.flag, o.data) else Stored
    ensures !BelongsTo(id, evs[k]) ==> !Gathering.DeliversAt(Parts(o), Signs(id, evs), k)
  {
    assert Genuine(o, id, evs[k]);
    EntryFollows(o, id, f, evs[..k]);
    SignsInit(id, evs, k);
    EventTicks(o, id, StateAfter(f, evs[..k]), evs[k]);
  }

  lemma {:induction false} CountsDeliveries(o: Outgoing, id: U32, f: Fragments, evs: seq<Event>)
    requires Fresh(o, id, f, evs)
    ensures Deliveries(id, f, evs) == Gathering.Count(Parts(o), Signs(id, evs))
  {
    if evs != [] {
      var n := |evs| - 1;
      CountsDeliveries(o, id, f, evs[..n]);
      SignsInit(id, evs, n);
      AnswersFollow(o, id, f, evs, n);
    }
  }

  // ---------- Delivered at all ----------

  /** The pieces of message `id` that arrived after the last purge of it. */
  function ArrivedSincePurge(id: U32, evs: seq<Event>): set<U16> {
    Gathering.Since(Signs(id, evs))
  }

  ghost predicate OnceTogether(o: Outgoing, id: U32, evs: seq<Event>) {
    exists k :: 0 <= k <= |evs| && TogetherAt(o, id, evs, k)
  }

  predicate TogetherAt(o: Outgoing, id: U32, evs: seq<Event>, k: nat)
    requires k <= |evs|
  {
    Gathering.Full(Parts(o), ArrivedSincePurge(id, evs[..k]))
  }

  /** Whatever is lost, repeated, reordered or purged: a message is delivered if
      and only if at some moment all its pieces had arrived since it was last
      purged. */
  lemma DeliveredIffTogether(o: Outgoing, id: U32, f: Fragments, evs: seq<Event>)
    requires Fresh(o, id, f, evs)
    ensures 0 < Deliveries(id, f, evs) <==> OnceTogether(o, id, evs)
  {
    var n, gs := Parts(o), Signs(id, evs);
    CountsDeliveries(o, id, f, evs);
    Gathering.FirstDelivery(n, gs);
    forall k | 0 <= k <= |evs| ensures TogetherAt(o, id, evs, k) == Gathering.FullAt(n, gs, k) {
      SignsInit(id, evs, k);
    }
  }

  // ---------- Without purges: exactly once, exactly when ----------

  predicate Evicts(id: U32, ev: Event) {
    ReachesLock(ev.packet) && id in ev.evicted
  }

  ghost predicate NeverEvicted(id: U32, evs: seq<Event>) {
    forall k :: 0 <= k < |evs| ==> !Evicts(id, evs[k])
  }

  /** No packet of the message arrives once it is complete. Earlier duplicates are
      allowed. */
  ghost predicate NoneLate(o: Outgoing, id: U32, evs: seq<Event>) {
    forall k :: 0 <= k < |evs| ==> InTime(o, id, evs, k)
  }

  predicate InTime(o: Outgoing, id: U32, evs: seq<Event>, k: nat)
    requires k < |evs|
  {
    BelongsTo(id, evs[k]) ==> !Complete(o, id, evs[..k])
  }

  lemma LateSigns(o: Outgoing, id: U32, evs: seq<Event>)
    ensures NoneLate(o, id, evs) <==> Gathering.NoneLate(Parts(o), Signs(id, evs))
    ensures NeverEvicted(id, evs) ==> Gathering.NoneEvicts(Signs(id, evs))
  {
    var gs := Signs(id, evs);
    forall k | 0 <= k < |evs| ensures InTime(o, id, evs, k) == Gathering.InTime(Parts(o), gs, k) {
      SignsInit(id, evs, k);
    }
    if NeverEvicted(id, evs) {
      forall k | 0 <= k < |gs| ensures !gs[k].evicts {
        assert !Evicts(id, evs[k]);
      }
    }
  }

  /** A message that is never purged is delivered exactly once and leaves nothing
      behind if and only if all its pieces arrive and none arrives late. */
  lemma OnceIffCompleteInTime(o: Outgoing, id: U32, f: Fragments, evs: seq<Event>)
    requires Fresh(o, id, f, evs) && NeverEvicted(id, evs)
    ensures Deliveries(id, f, evs) == 1 && Entry(StateAfter(f, evs), id) == map[]
            <==> Complete(o, id, evs) && NoneLate(o, id, evs)
  {
    CountsDeliveries(o, id, f, evs);
    EntryFollows(o, id, f, evs);
    LateSigns(o, id, evs);
    Gathering.ExactlyOnce(Parts(o), Signs(id, evs));
  }

  ghost predicate Schedule(o: Outgoing, id: U32, f: Fragments, evs: seq<Event>) {
    Fresh(o, id, f, evs) && NeverEvicted(id, evs) && NoneLate(o, id, evs)
  }

  /** The entry holds exactly the pieces that have arrived, and nothing once they
      are all there; by then the message has been delivered, once. */
  lemma EntryTracksArrivals(o: Outgoing, id: U32, f: Fragments, evs: seq<Event>)
    requires Schedule(o, id, f, evs)
    ensures Entry(StateAfter(f, evs), id).Keys == if Complete(o, id, evs) then {} else Arrived(id, evs)
    ensures Deliveries(id, f, evs) == if Complete(o, id, evs) then 1 else 0
  {
    CountsDeliveries(o, id, f, evs);
    EntryFollows(o, id, f, evs);
    LateSigns(o, id, evs);
    Gathering.FollowsArrivals(Parts(o), Signs(id, evs));
  }

  lemma SchedulePrefix(o: Outgoing, id: U32, f: Fragments, evs: seq<Event>, n: nat)
    requires Schedule(o, id, f, evs) && n <= |evs|
    ensures Schedule(o, id, f, evs[..n])
  {
    forall k | 0 <= k < n ensures InTime(o, id, evs[..n], k) && Genuine(o, id, evs[k]) && !Evicts(id, evs[k]) {
      assert InTime(o, id, evs, k) && evs[..n][..k] == evs[..k];
    }
  }

  /** A message is delivered by the packet that supplies its last missing piece,
      with its exact flag and bytes, and by no other packet. */
  lemma DeliveredAtLastMissing(o: Outgoing, id: U32, f: Fragments, evs: seq<Event>, k: nat)
    requires Schedule(o, id, f, evs) && k < |evs| && BelongsTo(id, evs[k])
    ensures !Complete(o, id, evs[..k])
    ensures OutcomeAt(f, evs, k) == if Complete(o, id, evs[..k + 1]) then Delivered(o.flag, o.data) else Stored
  {
    assert InTime(o, id, evs, k);
    SchedulePrefix(o, id, f, evs, k);
    SchedulePrefix(o, id, f, evs, k + 1);
    EntryTracksArrivals(o, id, f, evs[..k]);
    EntryTracksArrivals(o, id, f, evs[..k + 1]);
    OneMoreDelivery(id, f, evs, k);
    assert Genuine(o, id, evs[k]);
    MessageSafety(o, id, f, evs, k);
  }

  lemma OneMoreDelivery(id: U32, f: Fragments, evs: seq<Event>, k: nat)
    requires k < |evs|
    ensures Deliveries(id, f, evs[..k + 1])
      == Deliveries(id, f, evs[..k]) + if BelongsTo(id, evs[k]) && OutcomeAt(f, evs, k).Delivered? then 1 else 0
  {
    assert evs[..k + 1][..k] == evs[..k];
    AnswerInPrefix(Process, f, evs, k + 1, k);
  }

  /** A duplicate that arrives before its message is complete changes nothing. */
  lemma EarlyDuplicateIsIdempotent(o: Outgoing, id: U32, f: Fragments, evs: seq<Event>, ev: Event)
    requires Schedule(o, id, f, evs + [ev]) && BelongsTo(id, ev) && IndexOf(ev) in Arrived(id, evs)
    requires ev.evicted == {}
    ensures Process(StateAfter(f, evs), ev) == (StateAfter(f, evs), Stored)
  {
    var all := evs + [ev];
    assert all[..|evs|] == evs && all[|evs|] == ev;
    assert InTime(o, id, all, |evs|) && Genuine(o, id, ev);
    SchedulePrefix(o, id, f, all, |evs|);
    EntryTracksArrivals(o, id, f, evs);
    EntryFollows(o, id, f, evs);
    DuplicateStays(o, id, StateAfter(f, evs), ev);
  }

  lemma DuplicateStays(o: Outgoing, id: U32, f: Fragments, ev: Event)
    requires WellCut(o) && Genuine(o, id, ev) && BelongsTo(id, ev) && Partial(o, Entry(f, id))
    requires ev.evicted == {} && IndexOf(ev) in Entry(f, id)
    ensures Process(f, ev) == (f, Stored)
  {
    GenuineAdvances(o, id, f, ev);
    assert f - {} == f;
    SameEntryStays(o, id, IndexOf(ev), f, Process(f, ev).0, Process(f, ev).1);
  }

  lemma SameEntryStays(o: Outgoing, id: U32, i: U16, f: Fragments, f': Fragments, outcome: Outcome)
    requires WellCut(o) && Advances(o, id, i, f, f', outcome)
    requires i in Entry(f, id).Keys && |Entry(f, id).Keys| < Parts(o)
    ensures f' == f && outcome == Stored
  {
    var m: Slot := f[id];
    assert Parts(o) != 1 by {
      if Parts(o) == 1 {
        assert false;
      }
    }
    assert m[i := o.chunks[i]] == m && |m| == |m.Keys|;
    assert f[id := m] == f;
  }

  // ---------- Late duplicates ----------

  /** A packet that arrives after its message was delivered opens a new entry
      that holds just this fragment. */
  lemma LateDuplicateReopensEntry(o: Outgoing, id: U32, f: Fragments, ev: Event)
    requires WellCut(o) && 1 < Parts(o) && Genuine(o, id, ev) && BelongsTo(id, ev)
    requires id !in f && ev.evicted == {}
    ensures var m: Slot := map[IndexOf(ev) := o.chunks[IndexOf(ev)]];
      Process(f, ev) == (f[id := m], Stored)
  {
    GenuineAdvances(o, id, f, ev);
    assert f - {} == f;
    var m: Slot := map[];
    assert m[IndexOf(ev) := o.chunks[IndexOf(ev)]].Keys == {IndexOf(ev)};
  }

  lemma DeliveriesSnoc(id: U32, f: Fragments, evs: seq<Event>, ev: Event)
    ensures Deliveries(id, f, evs + [ev])
      == Deliveries(id, f, evs) + if BelongsTo(id, ev) && Process(StateAfter(f, evs), ev).1.Delivered? then 1 else 0
  {
    AfterSnoc(Process, f, evs, ev);
    assert (evs + [ev])[..|evs|] == evs;
  }

  lemma {:induction false} DeliveriesAppend(id: U32, f: Fragments, a: seq<Event>, b: seq<Event>)
    ensures Deliveries(id, f, a + b) == Deliveries(id, f, a) + Deliveries(id, StateAfter(f, a), b)
    decreases |b|
  {
    if b == [] {
      assert a + b == a;
    } else {
      var init, last := b[..|b| - 1], b[|b| - 1];
      DeliveriesAppend(id, f, a, init);
      AfterAppend(Process, f, a, init);
      LastAppended(a, b, init, last);
      DeliveriesSnoc(id, f, a + init, last);
      DeliveriesSnoc(id, StateAfter(f, a), init, last);
    }
  }

  /** The buffer remembers nothing of a message once its entry is gone: its
      packets are then counted as if they had never arrived before, so a second
      complete set of them delivers the message again. */
  lemma DeliveredAgain(o: Outgoing, id: U32, f: Fragments, a: seq<Event>, b: seq<Event>)
    requires Fresh(o, id, f, a) && Fresh(o, id, f, b) && Entry(StateAfter(f, a), id) == map[]
    ensures Deliveries(id, f, a + b) == Deliveries(id, f, a) + Deliveries(id, f, b)
    ensures Entry(StateAfter(f, a + b), id).Keys == Entry(StateAfter(f, b), id).Keys
  {
    var later := StateAfter(f, a);
    DeliveriesAppend(id, f, a, b);
    AfterAppend(Process, f, a, b);
    CountsDeliveries(o, id, f, b);
    CountsDeliveries(o, id, later, b);
    EntryFollows(o, id, f, b);
    EntryFollows(o, id, later, b);
  }

  // ---------- Purges: exactly which are harmless ----------

  ghost predicate DistinctPackets(id: U32, evs: seq<Event>) {
    forall j, k :: 0 <= j < k < |evs| && BelongsTo(id, evs[j]) ==> evs[j].packet != evs[k].packet
  }

  /** The k-th event purges a message that has begun to arrive and is not complete. */
  predicate Hurts(o: Outgoing, id: U32, evs: seq<Event>, k: nat)
    requires k < |evs|
  {
    Evicts(id, evs[k]) && Arrived(id, evs[..k]) != {} && !Complete(o, id, evs[..k])
  }

  ghost predicate NeverHurt(o: Outgoing, id: U32, evs: seq<Event>) {
    forall k :: 0 <= k < |evs| ==> !Hurts(o, id, evs, k)
  }

  lemma DistinctSigns(o: Outgoing, id: U32, evs: seq<Event>)
    requires WellCut(o) && Unforged(o, id, evs) && DistinctPackets(id, evs)
    ensures Gathering.DistinctPieces(Signs(id, evs)) && Gathering.PiecesBelow(Parts(o), Signs(id, evs))
  {
    forall k | 0 <= k < |evs| ensures Genuine(o, id, evs[k]) {
    }
    forall j, k | 0 <= j < k < |evs| && BelongsTo(id, evs[j]) && BelongsTo(id, evs[k])
      ensures IndexOf(evs[j]) != IndexOf(evs[k])
    {
      assert Genuine(o, id, evs[j]) && Genuine(o, id, evs[k]);
    }
  }

  lemma HurtSigns(o: Outgoing, id: U32, evs: seq<Event>)
    ensures NeverHurt(o, id, evs) <==> Gathering.NoneHurts(Parts(o), Signs(id, evs))
  {
    forall k | 0 <= k < |evs| ensures Hurts(o, id, evs, k) == Gathering.Hurts(Parts(o), Signs(id, evs), k) {
      SignsInit(id, evs, k);
    }
  }

  /** When each packet of a message arrives exactly once, in any order, it is
      delivered, once, if and only if no purge meets it begun and incomplete;
      otherwise it is never delivered. */
  lemma DeliveredUnlessPurged(o: Outgoing, id: U32, f: Fragments, evs: seq<Event>)
    requires Fresh(o, id, f, evs) && DistinctPackets(id, evs) && Complete(o, id, evs)
    ensures Deliveries(id, f, evs) == 1 <==> NeverHurt(o, id, evs)
    ensures Deliveries(id, f, evs) == 0 <==> !NeverHurt(o, id, evs)
    ensures NeverHurt(o, id, evs) ==> Entry(StateAfter(f, evs), id) == map[]
  {
    CountsDeliveries(o, id, f, evs);
    EntryFollows(o, id, f, evs);
    DistinctSigns(o, id, evs);
    HurtSigns(o, id, evs);
    Gathering.DeliveredUnlessHurt(Parts(o), Signs(id, evs));
  }

  /** Packets that never repeat are never late. */
  lemma DistinctNeverLate(o: Outgoing, id: U32, evs: seq<Event>)
    requires WellCut(o) && Unforged(o, id, evs) && DistinctPackets(id, evs)
    ensures NoneLate(o, id, evs)
  {
    DistinctSigns(o, id, evs);
    LateSigns(o, id, evs);
    Gathering.DistinctAreInTime(Parts(o), Signs(id, evs));
  }
}
