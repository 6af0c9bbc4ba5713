/** When purges run and what they leave, by the clock: from the turns of any
    receivers on one buffer (pkg/protocol/fragment.go). */
module PurgeTiming {
  import opened Basics
  import opened Fragment
  import opened Reassembly

  /** The k-th turn purges something. */
  predicate Removes(evs: seq<Event>, k: nat)
    requires k < |evs|
  {
    evs[k].evicted != {}
  }

  /** No purge ended before this time. */
  ghost predicate NotBefore(time: int, arrivals: seq<Arrival>) {
    forall k :: 0 <= k < |arrivals| ==> time <= arrivals[k].cleanedAt
  }

  /** The clock never goes back, within one turn or from one to the next. */
  ghost predicate Monotone(arrivals: seq<Arrival>) {
    && (forall k :: 0 <= k < |arrivals| ==> arrivals[k].checkedAt <= arrivals[k].cleanedAt)
    && (forall i, k :: 0 <= i < k < |arrivals| ==> arrivals[i].cleanedAt <= arrivals[k].checkedAt)
  }

  lemma {:induction false} LastCleanNotBefore(timeout: int, start: int, arrivals: seq<Arrival>)
    requires NotBefore(start, arrivals)
    ensures start <= LastClean(timeout, start, arrivals)
  {
    if arrivals != [] {
      LastCleanNotBefore(timeout, start, arrivals[..|arrivals| - 1]);
    }
  }

  /** The time of the last purge is the start or the end of some turn. */
  lemma {:induction false} LastCleanIsSome(timeout: int, start: int, arrivals: seq<Arrival>)
    ensures var last := LastClean(timeout, start, arrivals);
      last == start || exists i :: 0 <= i < |arrivals| && last == arrivals[i].cleanedAt
  {
    if arrivals != [] {
      var init := arrivals[..|arrivals| - 1];
      LastCleanIsSome(timeout, start, init);
      assert forall i :: 0 <= i < |init| ==> init[i] == arrivals[i];
    }
  }

  /** After a turn that purges, the last purge is not older than that turn. */
  lemma {:induction false} LastCleanSince(timeout: int, start: int, arrivals: seq<Arrival>, i: nat)
    requires i < |arrivals| && Monotone(arrivals)
    requires CleanupDue(timeout, LastClean(timeout, start, arrivals[..i]), arrivals[i])
    ensures arrivals[i].cleanedAt <= LastClean(timeout, start, arrivals)
  {
    var n := |arrivals| - 1;
    if i < n {
      assert arrivals[..n][..i] == arrivals[..i];
      LastCleanSince(timeout, start, arrivals[..n], i);
    }
  }

  /** A purge that removes anything runs more than the timeout after the buffer
      was made. */
  lemma FirstPurgeWaits(timeout: int, start: int, f: Fragments, arrivals: seq<Arrival>, evs: seq<Event>, k: nat)
    requires Turns(timeout, start, f, arrivals, evs) && k < |evs| && Removes(evs, k)
    requires NotBefore(start, arrivals)
    ensures timeout < arrivals[k].checkedAt - start
  {
    assert TurnFine(timeout, start, f, arrivals, evs, k);
    LastCleanNotBefore(timeout, start, arrivals[..k]);
  }

  /** Two purges that remove something are more than the timeout apart, from the
      end of the one to the check before the other. */
  lemma PurgesFarApart(timeout: int, start: int, f: Fragments, arrivals: seq<Arrival>, evs: seq<Event>, i: nat, k: nat)
    requires Turns(timeout, start, f, arrivals, evs) && i < k < |evs| && Removes(evs, i) && Removes(evs, k)
    requires Monotone(arrivals)
    ensures timeout < arrivals[k].checkedAt - arrivals[i].cleanedAt
  {
    assert TurnFine(timeout, start, f, arrivals, evs, i) && TurnFine(timeout, start, f, arrivals, evs, k);
    assert arrivals[..k][..i] == arrivals[..i];
    LastCleanSince(timeout, start, arrivals[..k], i);
  }

  /** A purge that removes anything is run for a packet of a message of several
      pieces, met more than 100 entries, and leaves 49 of them. */
  lemma PurgeLeaves49(timeout: int, start: int, f: Fragments, arrivals: seq<Arrival>, evs: seq<Event>, k: nat)
    requires Turns(timeout, start, f, arrivals, evs) && k < |evs| && Removes(evs, k)
    ensures var now := StateAfter(f, evs[..k]);
      && 100 < |now| && evs[k].evicted <= now.Keys && |now| - |evs[k].evicted| == 49
      && 13 <= |evs[k].packet| && Unmarshal(evs[k].packet).value.total != 1
  {
    assert TurnFine(timeout, start, f, arrivals, evs, k);
  }

  /** And it does come: with more than 100 entries, for such a packet that is
      checked more than the timeout after the buffer was made and after the end
      of every earlier turn. */
  lemma PurgeComes(timeout: int, start: int, f: Fragments, arrivals: seq<Arrival>, evs: seq<Event>, k: nat)
    requires Turns(timeout, start, f, arrivals, evs) && k < |evs| && 100 < |StateAfter(f, evs[..k])|
    requires 13 <= |arrivals[k].packet| && Unmarshal(arrivals[k].packet).value.total != 1
    requires timeout < arrivals[k].checkedAt - start
    requires forall i :: 0 <= i < k ==> timeout < arrivals[k].checkedAt - arrivals[i].cleanedAt
    ensures Removes(evs, k)
  {
    assert TurnFine(timeout, start, f, arrivals, evs, k);
    LastCleanIsSome(timeout, start, arrivals[..k]);
  }
}
