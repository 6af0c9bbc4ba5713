/** What the receiver of one connection hears while any other receivers take
    their turns on the same buffer. */
module Receivers {
  import opened Basics
  import opened Fragment
  import opened Reassembly
  import opened Runs

  /** What one call of ReceiveFragmented returns. */
  type Hearing = Result<(Byte, Bytes), ReceiveError>

  /** A call goes on while packets are merely stored and returns at the first
      other answer. */
  function Returned(answers: seq<Outcome>): seq<Hearing> {
    if answers == [] then []
    else
      var last := answers[|answers| - 1];
      Returned(answers[..|answers| - 1]) + if last == Stored then [] else [ResultOf(last)]
  }

  /** The calls of one receiver on this inbox have returned `heard`. The trace
      holds its turns and, between them, those of any other receivers. A call
      that does not end with a packet finds the connection closed. */
  ghost predicate Keeps(conn: nat, timeout: int, start: int, f: Fragments, inbox: seq<Arrival>,
                        arrivals: seq<Arrival>, trace: seq<Event>, heard: seq<Hearing>) {
    && Turns(timeout, start, f, arrivals, trace)
    && OwnArrivals(conn, arrivals, trace) <= inbox
    && Accounts(Returned(Answers(conn, f, trace)), OwnArrivals(conn, arrivals, trace) == inbox, heard)
  }

  /** The same without the clock: of the purges only their need of a crowd is left. */
  ghost predicate Attends(conn: nat, f: Fragments, inbox: seq<Arrival>, trace: seq<Event>, heard: seq<Hearing>) {
    && OwnPackets(conn, trace) <= PacketsIn(inbox)
    && PurgesOnlyCrowds(f, trace)
    && Accounts(Returned(Answers(conn, f, trace)), OwnPackets(conn, trace) == PacketsIn(inbox), heard)
  }

  ghost predicate Accounts(returned: seq<Hearing>, exhausted: bool, heard: seq<Hearing>) {
    && returned <= heard
    && (|returned| < |heard| ==> exhausted)
    && forall k :: |returned| <= k < |heard| ==> heard[k] == Err(TransportClosed)
  }

  lemma {:induction false} OwnPacketsArrived(conn: nat, timeout: int, start: int, f: Fragments, arrivals: seq<Arrival>,
                                             trace: seq<Event>)
    requires Turns(timeout, start, f, arrivals, trace)
    ensures OwnPackets(conn, trace) == PacketsIn(OwnArrivals(conn, arrivals, trace))
  {
    if trace != [] {
      var n := |trace| - 1;
      TurnsInit(timeout, start, f, arrivals, trace, n);
      OwnPacketsArrived(conn, timeout, start, f, arrivals[..n], trace[..n]);
      assert TurnFine(timeout, start, f, arrivals, trace, n);
    }
  }

  lemma TurnsInit(timeout: int, start: int, f: Fragments, arrivals: seq<Arrival>, trace: seq<Event>, n: nat)
    requires Turns(timeout, start, f, arrivals, trace) && n <= |trace|
    ensures Turns(timeout, start, f, arrivals[..n], trace[..n])
  {
    forall k | 0 <= k < n ensures TurnFine(timeout, start, f, arrivals[..n], trace[..n], k) {
      assert TurnFine(timeout, start, f, arrivals, trace, k);
      assert arrivals[..n][..k] == arrivals[..k] && trace[..n][..k] == trace[..k];
    }
  }

  lemma KeepsAttends(conn: nat, timeout: int, start: int, f: Fragments, inbox: seq<Arrival>,
                     arrivals: seq<Arrival>, trace: seq<Event>, heard: seq<Hearing>)
    requires Keeps(conn, timeout, start, f, inbox, arrivals, trace, heard)
    ensures Attends(conn, f, inbox, trace, heard)
  {
    OwnPacketsArrived(conn, timeout, start, f, arrivals, trace);
    TurnsPurgeOnlyCrowds(timeout, start, f, arrivals, trace);
  }

  lemma OwnPacketsSnoc(conn: nat, trace: seq<Event>, ev: Event)
    ensures OwnPackets(conn, trace + [ev]) == OwnPackets(conn, trace) + if Own(conn, ev) then [ev.packet] else []
  {
    assert (trace + [ev])[..|trace|] == trace;
  }

  lemma AnswersSnoc(conn: nat, f: Fragments, trace: seq<Event>, ev: Event)
    ensures Answers(conn, f, trace + [ev])
      == Answers(conn, f, trace) + if Own(conn, ev) then [Process(StateAfter(f, trace), ev).1] else []
  {
    assert (trace + [ev])[..|trace|] == trace;
  }

  lemma ReturnedSnoc(answers: seq<Outcome>, last: Outcome)
    ensures Returned(answers + [last]) == Returned(answers) + if last == Stored then [] else [ResultOf(last)]
  {
    assert (answers + [last])[..|answers|] == answers;
  }

  lemma {:induction false} OnePerPacket(conn: nat, f: Fragments, trace: seq<Event>)
    ensures |Answers(conn, f, trace)| == |OwnPackets(conn, trace)|
  {
    if trace != [] {
      OnePerPacket(conn, f, trace[..|trace| - 1]);
    }
  }

  lemma {:induction false} ReturnedPrefix(answers: seq<Outcome>, n: nat)
    requires n <= |answers|
    ensures Returned(answers[..n]) <= Returned(answers)
    decreases |answers|
  {
    if n < |answers| {
      var init := answers[..|answers| - 1];
      ReturnedPrefix(init, n);
      assert init[..n] == answers[..n];
    } else {
      assert answers[..n] == answers;
    }
  }

  /** The part of what is returned that the first n + 1 answers decide. */
  lemma ReturnedNext(answers: seq<Outcome>, n: nat)
    requires n < |answers|
    ensures Returned(answers[..n + 1])
      == Returned(answers[..n]) + if answers[n] == Stored then [] else [ResultOf(answers[n])]
    ensures Returned(answers[..n + 1]) <= Returned(answers)
  {
    assert answers[..n + 1][..n] == answers[..n];
    ReturnedPrefix(answers, n + 1);
  }

  lemma ReturnedAll(answers: seq<Outcome>)
    ensures Returned(answers[..|answers|]) == Returned(answers) && Returned(answers[..0]) == []
  {
    assert answers[..|answers|] == answers;
  }

  /** The turn of the n-th packet. */
  lemma {:induction false} TurnOf(conn: nat, f: Fragments, trace: seq<Event>, n: nat) returns (at: nat)
    requires n < |OwnPackets(conn, trace)|
    ensures at < |trace| && Own(conn, trace[at])
    ensures trace[at].packet == OwnPackets(conn, trace)[n]
    ensures OwnPackets(conn, trace[..at]) == OwnPackets(conn, trace)[..n]
    ensures n < |Answers(conn, f, trace)| && Answers(conn, f, trace)[n] == OutcomeAt(f, trace, at)
  {
    var last := |trace| - 1;
    OnePerPacket(conn, f, trace);
    OnePerPacket(conn, f, trace[..last]);
    if n < |OwnPackets(conn, trace[..last])| {
      at := TurnOf(conn, f, trace[..last], n);
      assert trace[..last][..at] == trace[..at];
      AnswerInPrefix(Process, f, trace, last, at);
    } else {
      at := last;
    }
  }

  // ---------- A receiver alone ----------

  predicate AllOf(conn: nat, evs: seq<Event>) {
    forall k :: 0 <= k < |evs| ==> Own(conn, evs[k])
  }

  function PacketsOf(evs: seq<Event>): seq<Bytes> {
    seq(|evs|, k requires 0 <= k < |evs| => evs[k].packet)
  }

  lemma AllOfInit(conn: nat, evs: seq<Event>, n: nat)
    requires AllOf(conn, evs) && n <= |evs|
    ensures AllOf(conn, evs[..n])
  {
  }

  lemma {:induction false} AloneReadsAll(conn: nat, evs: seq<Event>)
    requires AllOf(conn, evs)
    ensures OwnPackets(conn, evs) == PacketsOf(evs)
  {
    if evs != [] {
      var n := |evs| - 1;
      AllOfInit(conn, evs, n);
      AloneReadsAll(conn, evs[..n]);
      assert Own(conn, evs[n]);
      assert PacketsOf(evs) == PacketsOf(evs[..n]) + [evs[n].packet];
    }
  }

  lemma {:induction false} AloneTakesAll(conn: nat, arrivals: seq<Arrival>, evs: seq<Event>)
    requires |arrivals| == |evs| && AllOf(conn, evs)
    ensures OwnArrivals(conn, arrivals, evs) == arrivals
  {
    if evs != [] {
      var n := |evs| - 1;
      AllOfInit(conn, evs, n);
      AloneTakesAll(conn, arrivals[..n], evs[..n]);
      TakesLast(conn, arrivals, evs);
    }
  }

  lemma TakesLast(conn: nat, arrivals: seq<Arrival>, evs: seq<Event>)
    requires |arrivals| == |evs| != 0 && Own(conn, evs[|evs| - 1])
    requires OwnArrivals(conn, arrivals[..|evs| - 1], evs[..|evs| - 1]) == arrivals[..|evs| - 1]
    ensures OwnArrivals(conn, arrivals, evs) == arrivals
  {
    assert arrivals == arrivals[..|evs| - 1] + [arrivals[|evs| - 1]];
  }

  lemma AloneAnswers(conn: nat, f: Fragments, evs: seq<Event>, k: nat)
    requires AllOf(conn, evs) && k < |evs|
    ensures |Answers(conn, f, evs)| == |evs| && Answers(conn, f, evs)[k] == Answer(Process, f, evs, k)
  {
    AloneReadsAll(conn, evs);
    var at := TurnOf(conn, f, evs, k);
    AloneReadsAll(conn, evs[..at]);
    OnePerPacket(conn, f, evs);
  }

  // ---------- One more call ----------

  lemma {:induction false} OwnPacketsAppend(conn: nat, a: seq<Event>, b: seq<Event>)
    ensures OwnPackets(conn, a + b) == OwnPackets(conn, a) + OwnPackets(conn, b)
    decreases |b|
  {
    if b == [] {
      assert a + b == a;
    } else {
      var init, last := b[..|b| - 1], b[|b| - 1];
      OwnPacketsAppend(conn, a, init);
      LastAppended(a, b, init, last);
      OwnPacketsSnoc(conn, a + init, last);
    }
  }

  lemma {:induction false} AnswersAppend(conn: nat, f: Fragments, a: seq<Event>, b: seq<Event>)
    ensures Answers(conn, f, a + b) == Answers(conn, f, a) + Answers(conn, StateAfter(f, a), b)
    decreases |b|
  {
    if b == [] {
      assert a + b == a;
    } else {
      var init, last := b[..|b| - 1], b[|b| - 1];
      AnswersAppend(conn, f, a, init);
      AfterAppend(Process, f, a, init);
      LastAppended(a, b, init, last);
      AnswersSnoc(conn, f, a + init, last);
    }
  }

  lemma {:induction false} ReturnedAppend(a: seq<Outcome>, b: seq<Outcome>)
    ensures Returned(a + b) == Returned(a) + Returned(b)
    decreases |b|
  {
    if b == [] {
      assert a + b == a;
    } else {
      var init, last := b[..|b| - 1], b[|b| - 1];
      ReturnedAppend(a, init);
      LastAppended(a, b, init, last);
      ReturnedSnoc(a + init, last);
    }
  }

  lemma {:induction false} OwnArrivalsAppend(conn: nat, xs: seq<Arrival>, a: seq<Event>, ys: seq<Arrival>,
                                             b: seq<Event>)
    requires |xs| == |a| && |ys| == |b|
    ensures OwnArrivals(conn, xs + ys, a + b) == OwnArrivals(conn, xs, a) + OwnArrivals(conn, ys, b)
    decreases |b|
  {
    if b == [] {
      assert a + b == a && xs + ys == xs;
    } else {
      var n := |b| - 1;
      OwnArrivalsAppend(conn, xs, a, ys[..n], b[..n]);
      LastAppended(a, b, b[..n], b[n]);
      LastAppended(xs, ys, ys[..n], ys[n]);
      OwnArrivalsSnoc(conn, xs + ys[..n], a + b[..n], ys[n], b[n]);
    }
  }

  lemma OwnArrivalsSnoc(conn: nat, xs: seq<Arrival>, a: seq<Event>, arrival: Arrival, ev: Event)
    requires |xs| == |a|
    ensures OwnArrivals(conn, xs + [arrival], a + [ev])
      == OwnArrivals(conn, xs, a) + if Own(conn, ev) then [arrival] else []
  {
    assert (xs + [arrival])[..|xs|] == xs && (a + [ev])[..|a|] == a;
  }

  lemma {:induction false} LastCleanAppend(timeout: int, start: int, xs: seq<Arrival>, ys: seq<Arrival>)
    ensures LastClean(timeout, start, xs + ys) == LastClean(timeout, LastClean(timeout, start, xs), ys)
    decreases |ys|
  {
    if ys == [] {
      assert xs + ys == xs;
    } else {
      var n := |ys| - 1;
      LastCleanAppend(timeout, start, xs, ys[..n]);
      LastAppended(xs, ys, ys[..n], ys[n]);
      assert (xs + ys)[..|xs| + n] == xs + ys[..n];
    }
  }

  lemma TurnsAppend(timeout: int, start: int, f: Fragments, xs: seq<Arrival>, a: seq<Event>, ys: seq<Arrival>,
                    b: seq<Event>)
    requires Turns(timeout, start, f, xs, a)
    requires Turns(timeout, LastClean(timeout, start, xs), StateAfter(f, a), ys, b)
    ensures Turns(timeout, start, f, xs + ys, a + b)
  {
    forall k | 0 <= k < |a + b| ensures TurnFine(timeout, start, f, xs + ys, a + b, k) {
      if k < |a| {
        EarlierTurn(timeout, start, f, xs, a, ys, b, k);
      } else {
        LaterTurn(timeout, start, f, xs, a, ys, b, k - |a|);
      }
    }
  }

  lemma EarlierTurn(timeout: int, start: int, f: Fragments, xs: seq<Arrival>, a: seq<Event>, ys: seq<Arrival>,
                    b: seq<Event>, k: nat)
    requires |ys| == |b| && k < |a| && Turns(timeout, start, f, xs, a)
    ensures TurnFine(timeout, start, f, xs + ys, a + b, k)
  {
    assert TurnFine(timeout, start, f, xs, a, k);
    assert (xs + ys)[..k] == xs[..k] && (a + b)[..k] == a[..k];
  }

  lemma LaterTurn(timeout: int, start: int, f: Fragments, xs: seq<Arrival>, a: seq<Event>, ys: seq<Arrival>,
                  b: seq<Event>, j: nat)
    requires |xs| == |a| && j < |b|
    requires Turns(timeout, LastClean(timeout, start, xs), StateAfter(f, a), ys, b)
    ensures TurnFine(timeout, start, f, xs + ys, a + b, |a| + j)
  {
    assert TurnFine(timeout, LastClean(timeout, start, xs), StateAfter(f, a), ys, b, j);
    assert (xs + ys)[..|a| + j] == xs + ys[..j] && (a + b)[..|a| + j] == a + b[..j];
    LastCleanAppend(timeout, start, xs, ys[..j]);
    AfterAppend(Process, f, a, b[..j]);
  }

  lemma {:induction false} StoringReturnsNothing(answers: seq<Outcome>)
    requires AllStored(answers)
    ensures Returned(answers) == []
  {
    if answers != [] {
      StoringReturnsNothing(answers[..|answers| - 1]);
    }
  }

  /** What a call returns: the answer that ended it, or nothing but the news that
      the connection is closed. */
  lemma CallReturns(conn: nat, f: Fragments, evs: seq<Event>, available: nat)
    requires OneReceive(conn, f, available, evs)
    ensures var answers, r := Answers(conn, f, evs), ReceiveResult(conn, f, evs);
      Returned(answers) == [r] || (Returned(answers) == [] && r == Err(TransportClosed) && |answers| == available)
  {
    var answers := Answers(conn, f, evs);
    var n := |answers|;
    if n != 0 && answers[n - 1] != Stored {
      StoringReturnsNothing(answers[..n - 1]);
    } else {
      StoringReturnsNothing(answers);
    }
  }

  lemma ReturnsOn(conn: nat, f: Fragments, trace: seq<Event>, evs: seq<Event>, available: nat)
    requires OneReceive(conn, StateAfter(f, trace), available, evs)
    ensures var before, after := Returned(Answers(conn, f, trace)), Returned(Answers(conn, f, trace + evs));
      var now := StateAfter(f, trace);
      var r := ReceiveResult(conn, now, evs);
      after == before + [r]
      || (after == before && r == Err(TransportClosed) && |Answers(conn, now, evs)| == available)
  {
    var now := StateAfter(f, trace);
    CallReturns(conn, now, evs, available);
    AnswersAppend(conn, f, trace, evs);
    ReturnedAppend(Answers(conn, f, trace), Answers(conn, now, evs));
    var before := Returned(Answers(conn, f, trace));
    assert before + [] == before;
  }

  lemma AccountsOneMore(returned: seq<Hearing>, after: seq<Hearing>, exhausted: bool, exhausted': bool,
                        heard: seq<Hearing>, r: Hearing)
    requires Accounts(returned, exhausted, heard) && (exhausted ==> exhausted')
    requires (after == returned + [r] && !exhausted) || (after == returned && r == Err(TransportClosed) && exhausted')
    ensures Accounts(after, exhausted', heard + [r])
  {
    if after == returned + [r] && !exhausted {
      assert heard == returned;
    }
  }

  lemma TakenOn(inbox: seq<Arrival>, own: seq<Arrival>, more: seq<Arrival>, rest: seq<Arrival>)
    requires own <= inbox && TakenFrom(inbox[|own|..], more, rest)
    ensures TakenFrom(inbox, own + more, rest)
    ensures own + more == inbox <==> |more| == |inbox| - |own|
    ensures own == inbox ==> more == []
  {
    assert inbox == own + inbox[|own|..];
  }

  /** One more call, with whatever others do before it returns, on what the earlier
      calls have left. */
  lemma KeepsOneMore(conn: nat, timeout: int, start: int, f: Fragments, inbox: seq<Arrival>,
                     arrivals: seq<Arrival>, trace: seq<Event>, heard: seq<Hearing>,
                     more: seq<Arrival>, evs: seq<Event>, rest: seq<Arrival>)
    requires Keeps(conn, timeout, start, f, inbox, arrivals, trace, heard)
    requires Turns(timeout, LastClean(timeout, start, arrivals), StateAfter(f, trace), more, evs)
    requires var left := inbox[|OwnArrivals(conn, arrivals, trace)|..];
      TakenFrom(left, OwnArrivals(conn, more, evs), rest) && OneReceive(conn, StateAfter(f, trace), |left|, evs)
    ensures Keeps(conn, timeout, start, f, inbox, arrivals + more, trace + evs,
                  heard + [ReceiveResult(conn, StateAfter(f, trace), evs)])
    ensures TakenFrom(inbox, OwnArrivals(conn, arrivals + more, trace + evs), rest)
  {
    var own, now := OwnArrivals(conn, arrivals, trace), StateAfter(f, trace);
    TurnsAppend(timeout, start, f, arrivals, trace, more, evs);
    OwnArrivalsAppend(conn, arrivals, trace, more, evs);
    OneAnswerEach(conn, now, more, evs);
    TakenOn(inbox, own, OwnArrivals(conn, more, evs), rest);
    NothingTakenNothingReturned(conn, f, trace, more, evs);
    ReturnsOn(conn, f, trace, evs, |inbox| - |own|);
    AccountsOneMore(Returned(Answers(conn, f, trace)), Returned(Answers(conn, f, trace + evs)),
                    own == inbox, OwnArrivals(conn, arrivals + more, trace + evs) == inbox,
                    heard, ReceiveResult(conn, now, evs));
  }

  lemma ReachedOneMore(timeout: int, start: int, f: Fragments, arrivals: seq<Arrival>, trace: seq<Event>,
                       more: seq<Arrival>, evs: seq<Event>)
    requires Turns(timeout, start, f, arrivals, trace)
    requires Turns(timeout, LastClean(timeout, start, arrivals), StateAfter(f, trace), more, evs)
    ensures Reached(timeout, start, f, arrivals + more, trace + evs,
                    StateAfter(StateAfter(f, trace), evs),
                    LastClean(timeout, LastClean(timeout, start, arrivals), more))
  {
    TurnsAppend(timeout, start, f, arrivals, trace, more, evs);
    AfterAppend(Process, f, trace, evs);
    LastCleanAppend(timeout, start, arrivals, more);
  }

  lemma NothingTakenNothingReturned(conn: nat, f: Fragments, trace: seq<Event>, more: seq<Arrival>, evs: seq<Event>)
    requires |more| == |evs|
    ensures OwnArrivals(conn, more, evs) == [] ==>
      Returned(Answers(conn, f, trace + evs)) == Returned(Answers(conn, f, trace))
      && ReceiveResult(conn, StateAfter(f, trace), evs) == Err(TransportClosed)
  {
    var now := StateAfter(f, trace);
    OneAnswerEach(conn, now, more, evs);
    AnswersAppend(conn, f, trace, evs);
    assert Answers(conn, f, trace) + [] == Answers(conn, f, trace);
  }
}
