/** Receivers that share one fragment buffer do not disturb each other: the
    shared buffer behaves, for each message id, like a private buffer that only
    ever sees that id's fragments and the purges that hit it. Nothing is assumed
    about the packets, so this covers forged and malformed ones as well. */
module SharedBuffer {
  import opened Basics
  import opened Fragment
  import opened Reassembly
  import opened Runs

  datatype Input = Piece(h: Header, payload: Bytes) | Evict

  function PrivateStep(m: Slot, input: Input): (Slot, Outcome) {
    match input
    case Evict => (map[], Stored)
    case Piece(h, payload) => Insert(m, h, payload)
  }

  function PrivateAfter(m: Slot, inputs: seq<Input>): Slot {
    After(PrivateStep, m, inputs)
  }

  /** What a private buffer answers to the fragments among its inputs. */
  function PrivateOutputs(m: Slot, inputs: seq<Input>): seq<Outcome> {
    if inputs == [] then []
    else
      var init, last := inputs[..|inputs| - 1], inputs[|inputs| - 1];
      PrivateOutputs(m, init)
      + if last == Evict then [] else [PrivateStep(PrivateAfter(m, init), last).1]
  }

  /** The part of one event that concerns message `id`. */
  function InputsOf(id: U32, ev: Event): seq<Input> {
    if !ReachesLock(ev.packet) then []
    else
      var h := Unmarshal(ev.packet).value;
      (if id in ev.evicted then [Evict] else [])
      + (if h.msgID == id then [Piece(h, ev.packet[HEADER_SIZE..])] else [])
  }

  function Project(id: U32, evs: seq<Event>): seq<Input> {
    if evs == [] then []
    else Project(id, evs[..|evs| - 1]) + InputsOf(id, evs[|evs| - 1])
  }

  predicate Concerns(id: U32, ev: Event) {
    ReachesLock(ev.packet) && Unmarshal(ev.packet).value.msgID == id
  }

  /** What the shared buffer answers to the fragments of message `id`. */
  function OutputsFor(id: U32, f: Fragments, evs: seq<Event>): seq<Outcome> {
    if evs == [] then []
    else
      var init, last := evs[..|evs| - 1], evs[|evs| - 1];
      OutputsFor(id, f, init)
      + if Concerns(id, last) then [Process(StateAfter(f, init), last).1] else []
  }

  lemma PrivateAppend(m: Slot, inputs: seq<Input>, last: Input)
    ensures PrivateAfter(m, inputs + [last]) == PrivateStep(PrivateAfter(m, inputs), last).0
    ensures PrivateOutputs(m, inputs + [last]) == PrivateOutputs(m, inputs)
      + if last == Evict then [] else [PrivateStep(PrivateAfter(m, inputs), last).1]
  {
    AfterSnoc(PrivateStep, m, inputs, last);
    assert (inputs + [last])[..|inputs|] == inputs;
  }

  /** One event seen from the slot of message `id`: its new value and the answer
      if the event carried a fragment of that message. */
  function SlotStep(id: U32, m: Slot, ev: Event): (Slot, seq<Outcome>) {
    if !ReachesLock(ev.packet) then (m, [])
    else
      var kept := if id in ev.evicted then map[] else m;
      if Concerns(id, ev) then
        var (m', outcome) := Insert(kept, Unmarshal(ev.packet).value, ev.packet[HEADER_SIZE..]);
        (m', [outcome])
      else (kept, [])
  }

  /** An atomic step touches the entry of `id` only through a purge or through a
      fragment of its own. */
  lemma ProcessEntry(id: U32, f: Fragments, ev: Event)
    ensures Entry(Process(f, ev).0, id) == SlotStep(id, Entry(f, id), ev).0
    ensures SlotStep(id, Entry(f, id), ev).1 == if Concerns(id, ev) then [Process(f, ev).1] else []
  {
    if ReachesLock(ev.packet) {
      var h, payload := Unmarshal(ev.packet).value, ev.packet[HEADER_SIZE..];
      var kept := f - ev.evicted;
      assert Entry(kept, id) == if id in ev.evicted then map[] else Entry(f, id);
      assert Process(f, ev) == InsertInto(kept, h, payload);
    }
  }

  /** A purge of `id` first, if the event brings one. */
  lemma PurgeInput(id: U32, ev: Event, m: Slot, before: seq<Input>) returns (purged: seq<Input>)
    ensures purged == before + if id in ev.evicted then [Evict] else []
    ensures PrivateAfter(m, purged) == if id in ev.evicted then map[] else PrivateAfter(m, before)
    ensures PrivateOutputs(m, purged) == PrivateOutputs(m, before)
  {
    if id in ev.evicted {
      PrivateAppend(m, before, Evict);
      return before + [Evict];
    }
    assert before + [] == before;
    return before;
  }

  lemma InputsInOrder(id: U32, ev: Event, before: seq<Input>, purged: seq<Input>)
    requires purged == before + if id in ev.evicted then [Evict] else []
    ensures !ReachesLock(ev.packet) ==> before + InputsOf(id, ev) == before
    ensures ReachesLock(ev.packet) ==>
      before + InputsOf(id, ev) == if Concerns(id, ev) then purged + [PieceOf(ev)] else purged
  {
  }

  function PieceOf(ev: Event): Input
    requires ReachesLock(ev.packet)
  {
    Piece(Unmarshal(ev.packet).value, ev.packet[HEADER_SIZE..])
  }

  /** A private buffer fed with the event's projection takes the same step. */
  lemma InputsTakeSlotStep(id: U32, ev: Event, m: Slot, before: seq<Input>)
    ensures PrivateAfter(m, before + InputsOf(id, ev)) == SlotStep(id, PrivateAfter(m, before), ev).0
    ensures PrivateOutputs(m, before + InputsOf(id, ev))
      == PrivateOutputs(m, before) + SlotStep(id, PrivateAfter(m, before), ev).1
  {
    var purged := PurgeInput(id, ev, m, before);
    InputsInOrder(id, ev, before, purged);
    if Concerns(id, ev) {
      PrivateAppend(m, purged, PieceOf(ev));
      SlotTakesPiece(id, ev, PrivateAfter(m, before), PrivateAfter(m, purged));
    }
  }

  lemma SlotTakesPiece(id: U32, ev: Event, m: Slot, kept: Slot)
    requires Concerns(id, ev) && kept == if id in ev.evicted then map[] else m
    ensures SlotStep(id, m, ev) == (PrivateStep(kept, PieceOf(ev)).0, [PrivateStep(kept, PieceOf(ev)).1])
  {
  }

  /** Over every run, the shared buffer's entry for a message and its answers to
      that message's fragments are those of a private buffer. */
  lemma {:induction false} SharedRefinesPrivate(id: U32, f: Fragments, evs: seq<Event>)
    ensures Entry(StateAfter(f, evs), id) == PrivateAfter(Entry(f, id), Project(id, evs))
    ensures OutputsFor(id, f, evs) == PrivateOutputs(Entry(f, id), Project(id, evs))
  {
    if evs == [] {
    } else {
      var init, last := evs[..|evs| - 1], evs[|evs| - 1];
      SharedRefinesPrivate(id, f, init);
      ProcessEntry(id, StateAfter(f, init), last);
      InputsTakeSlotStep(id, last, Entry(f, id), Project(id, init));
    }
  }

  /** Whatever the other connections do, a message whose own fragments and
      purges are the same gets the same answers. */
  lemma NonInterference(id: U32, f1: Fragments, evs1: seq<Event>, f2: Fragments, evs2: seq<Event>)
    requires Entry(f1, id) == Entry(f2, id)
    requires Project(id, evs1) == Project(id, evs2)
    ensures OutputsFor(id, f1, evs1) == OutputsFor(id, f2, evs2)
    ensures Entry(StateAfter(f1, evs1), id) == Entry(StateAfter(f2, evs2), id)
  {
    SharedRefinesPrivate(id, f1, evs1);
    SharedRefinesPrivate(id, f2, evs2);
  }
}
