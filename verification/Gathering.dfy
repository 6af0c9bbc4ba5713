/** Gathering the n pieces of one message, with nothing left but sets of indices:
    when it is delivered, how often, and what duplicates and evictions do. */
module Gathering {
  import opened Basics
  import opened Runs

  /** n keys below n are all of them: completion is decided by size alone. */
  lemma {:induction false} Pigeonhole(keys: set<U16>, n: nat)
    requires forall i :: i in keys ==> i < n
    ensures |keys| <= n
    ensures |keys| == n ==> forall i: U16 :: i < n ==> i in keys
  {
    if n == 0 {
      assert keys == {};
    } else if n - 1 < U16_LIMIT && n - 1 in keys {
      Pigeonhole(keys - {n - 1}, n - 1);
    } else {
      assert forall i :: i in keys ==> i < n - 1;
      Pigeonhole(keys, n - 1);
    }
  }

  lemma {:induction false} AllBelow(keys: set<U16>, n: nat)
    requires n <= U16_LIMIT
    requires forall i: U16 :: i in keys <==> i < n
    ensures |keys| == n
  {
    if n == 0 {
      assert keys == {};
    } else {
      var last: U16 := n - 1;
      assert last in keys;
      AllBelow(keys - {last}, n - 1);
    }
  }

  /** What one event means to the message: whether it first evicts what has been
      gathered, and which piece it brings, if any. */
  datatype Sign = Sign(evicts: bool, piece: Option<U16>)

  /** Adds the piece; a full set is delivered and dropped. */
  function Tick(n: nat, held: set<U16>, g: Sign): (set<U16>, bool) {
    var kept := if g.evicts then {} else held;
    match g.piece
    case None => (kept, false)
    case Some(i) => if n <= |kept + {i}| then ({}, true) else (kept + {i}, false)
  }

  function Ticker(n: nat): (set<U16>, Sign) -> (set<U16>, bool) {
    (held, g) => Tick(n, held, g)
  }

  function Held(n: nat, gs: seq<Sign>): set<U16> {
    After(Ticker(n), {}, gs)
  }

  predicate DeliversAt(n: nat, gs: seq<Sign>, k: nat)
    requires k < |gs|
  {
    Answer(Ticker(n), {}, gs, k)
  }

  function Count(n: nat, gs: seq<Sign>): nat {
    if gs == [] then 0
    else
      var last := |gs| - 1;
      Count(n, gs[..last]) + if DeliversAt(n, gs, last) then 1 else 0
  }

  // ---------- The history ----------

  function PieceSet(g: Sign): set<U16> {
    if g.piece.Some? then {g.piece.value} else {}
  }

  /** Every piece that has ever arrived. */
  function Arrived(gs: seq<Sign>): set<U16> {
    if gs == [] then {} else Arrived(gs[..|gs| - 1]) + PieceSet(gs[|gs| - 1])
  }

  /** The pieces that have arrived since the last eviction. */
  function Since(gs: seq<Sign>): set<U16> {
    if gs == [] then {}
    else
      var last := gs[|gs| - 1];
      (if last.evicts then {} else Since(gs[..|gs| - 1])) + PieceSet(last)
  }

  predicate Full(n: nat, s: set<U16>) {
    n <= |s|
  }

  lemma SubsetSize(a: set<U16>, b: set<U16>)
    requires a <= b
    ensures |a| <= |b|
    ensures |a| == |b| ==> a == b
  {
    assert b == a + (b - a);
  }

  lemma {:induction false} ArrivedExactly(gs: seq<Sign>, i: U16)
    ensures i in Arrived(gs) <==> exists k :: 0 <= k < |gs| && gs[k].piece == Some(i)
  {
    if gs != [] {
      var init := gs[..|gs| - 1];
      ArrivedExactly(init, i);
      assert forall k :: 0 <= k < |init| ==> init[k] == gs[k];
    }
  }

  lemma CountStep(n: nat, gs: seq<Sign>)
    requires gs != []
    ensures var last := |gs| - 1;
      && Held(n, gs) == Tick(n, Held(n, gs[..last]), gs[last]).0
      && DeliversAt(n, gs, last) == Tick(n, Held(n, gs[..last]), gs[last]).1
      && Count(n, gs) == Count(n, gs[..last]) + if Tick(n, Held(n, gs[..last]), gs[last]).1 then 1 else 0
  {
  }

  // ---------- Delivered at least once: exactly when ----------

  /** At the k-th moment all pieces have arrived since the last eviction. */
  predicate FullAt(n: nat, gs: seq<Sign>, k: nat)
    requires k <= |gs|
  {
    Full(n, Since(gs[..k]))
  }

  lemma FullAtPrefix(n: nat, gs: seq<Sign>, m: nat, k: nat)
    requires k <= m <= |gs|
    ensures FullAt(n, gs[..m], k) == FullAt(n, gs, k)
  {
    assert gs[..m][..k] == gs[..k];
  }

  /** Until the first delivery the pieces held are those since the last eviction;
      it comes at the first moment they are all there. */
  lemma {:induction false} FirstDelivery(n: nat, gs: seq<Sign>)
    requires 0 < n
    ensures Count(n, gs) == 0 ==> Held(n, gs) == Since(gs) && !Full(n, Since(gs))
    ensures 0 < Count(n, gs) <==> exists k :: 0 <= k <= |gs| && FullAt(n, gs, k)
  {
    if gs == [] {
      assert gs[..0] == [];
    } else {
      var last := |gs| - 1;
      FirstDelivery(n, gs[..last]);
      CountStep(n, gs);
      forall k | 0 <= k <= last ensures FullAt(n, gs[..last], k) == FullAt(n, gs, k) {
        FullAtPrefix(n, gs, last, k);
      }
      assert gs[..|gs|] == gs;
      assert FullAt(n, gs, |gs|) == Full(n, Since(gs));
      if Count(n, gs[..last]) == 0 {
        SinceGrows(n, gs);
      }
    }
  }

  lemma SinceGrows(n: nat, gs: seq<Sign>)
    requires 0 < n && gs != []
    requires !Full(n, Since(gs[..|gs| - 1])) && Held(n, gs[..|gs| - 1]) == Since(gs[..|gs| - 1])
    ensures Tick(n, Since(gs[..|gs| - 1]), gs[|gs| - 1]).1 <==> Full(n, Since(gs))
    ensures !Full(n, Since(gs)) ==> Tick(n, Since(gs[..|gs| - 1]), gs[|gs| - 1]).0 == Since(gs)
  {
    var last := gs[|gs| - 1];
    if last.piece == None {
      assert Since(gs) == if last.evicts then {} else Since(gs[..|gs| - 1]);
    }
  }

  // ---------- No evictions: exactly once, exactly when ----------

  ghost predicate NoneEvicts(gs: seq<Sign>) {
    forall k :: 0 <= k < |gs| ==> !gs[k].evicts
  }

  /** The k-th event does not bring a piece of a message that is complete already. */
  predicate InTime(n: nat, gs: seq<Sign>, k: nat)
    requires k < |gs|
  {
    gs[k].piece.Some? ==> !Full(n, Arrived(gs[..k]))
  }

  ghost predicate NoneLate(n: nat, gs: seq<Sign>) {
    forall k :: 0 <= k < |gs| ==> InTime(n, gs, k)
  }

  lemma NoneLateInit(n: nat, gs: seq<Sign>)
    requires gs != []
    ensures var last := |gs| - 1;
      NoneLate(n, gs) <==> NoneLate(n, gs[..last]) && InTime(n, gs, last)
  {
    var last := |gs| - 1;
    forall k | 0 <= k < last ensures InTime(n, gs[..last], k) == InTime(n, gs, k) {
      assert gs[..last][..k] == gs[..k];
    }
  }

  /** What is kept of a message while nothing is evicted. */
  ghost predicate Ledger(n: nat, held: set<U16>, arrived: set<U16>, count: nat, late: bool) {
    && held <= arrived
    && (count == 0 ==> held == arrived && !Full(n, arrived))
    && (0 < count ==> Full(n, arrived))
    && (!late ==> count <= 1 && (count == 1 ==> held == {}))
    && (late ==> 0 < count && (2 <= count || held != {}))
  }

  lemma LedgerStep(n: nat, held: set<U16>, arrived: set<U16>, count: nat, late: bool, i: U16)
    requires 0 < n && Ledger(n, held, arrived, count, late)
    ensures var (held', done) := Tick(n, held, Sign(false, Some(i)));
      Ledger(n, held', arrived + {i}, if done then count + 1 else count, late || Full(n, arrived))
  {
    SubsetSize(arrived, arrived + {i});
    SubsetSize(held + {i}, arrived + {i});
  }

  lemma {:induction false} LedgerHolds(n: nat, gs: seq<Sign>)
    requires 0 < n && NoneEvicts(gs)
    ensures Ledger(n, Held(n, gs), Arrived(gs), Count(n, gs), !NoneLate(n, gs))
  {
    if gs != [] {
      var last := |gs| - 1;
      LedgerHolds(n, gs[..last]);
      CountStep(n, gs);
      NoneLateInit(n, gs);
      if gs[last].piece.Some? {
        LedgerStep(n, Held(n, gs[..last]), Arrived(gs[..last]), Count(n, gs[..last]), !NoneLate(n, gs[..last]),
                   gs[last].piece.value);
      } else {
        assert Arrived(gs) == Arrived(gs[..last]);
      }
    }
  }

  /** Without evictions a message is delivered exactly once and leaves nothing
      behind if and only if all its pieces arrive and none of them arrives late. */
  lemma ExactlyOnce(n: nat, gs: seq<Sign>)
    requires 0 < n && NoneEvicts(gs)
    ensures Count(n, gs) == 1 && Held(n, gs) == {} <==> Full(n, Arrived(gs)) && NoneLate(n, gs)
  {
    LedgerHolds(n, gs);
  }

  /** Without evictions and late pieces, all of what happens follows from which
      pieces have arrived. */
  lemma FollowsArrivals(n: nat, gs: seq<Sign>)
    requires 0 < n && NoneEvicts(gs) && NoneLate(n, gs)
    ensures Held(n, gs) == if Full(n, Arrived(gs)) then {} else Arrived(gs)
    ensures Count(n, gs) == if Full(n, Arrived(gs)) then 1 else 0
  {
    LedgerHolds(n, gs);
  }

  // ---------- Evictions: exactly which are harmless ----------

  ghost predicate DistinctPieces(gs: seq<Sign>) {
    forall j, k :: 0 <= j < k < |gs| && gs[j].piece.Some? ==> gs[j].piece != gs[k].piece
  }

  ghost predicate PiecesBelow(n: nat, gs: seq<Sign>) {
    forall k :: 0 <= k < |gs| && gs[k].piece.Some? ==> gs[k].piece.value < n
  }

  predicate Hurting(n: nat, arrived: set<U16>, evicts: bool) {
    evicts && arrived != {} && !Full(n, arrived)
  }

  /** The k-th event evicts a message that has begun to arrive and is not complete. */
  predicate Hurts(n: nat, gs: seq<Sign>, k: nat)
    requires k < |gs|
  {
    Hurting(n, Arrived(gs[..k]), gs[k].evicts)
  }

  ghost predicate NoneHurts(n: nat, gs: seq<Sign>) {
    forall k :: 0 <= k < |gs| ==> !Hurts(n, gs, k)
  }

  lemma NoneHurtsInit(n: nat, gs: seq<Sign>)
    requires gs != []
    ensures var last := |gs| - 1;
      NoneHurts(n, gs) <==> NoneHurts(n, gs[..last]) && !Hurts(n, gs, last)
  {
    var last := |gs| - 1;
    forall k | 0 <= k < last ensures Hurts(n, gs[..last], k) == Hurts(n, gs, k) {
      assert gs[..last][..k] == gs[..k];
    }
  }

  /** What is kept of a message whose pieces never repeat: it follows the
      arrivals until an eviction hurts, and lacks some piece for good afterwards. */
  ghost predicate Account(n: nat, held: set<U16>, arrived: set<U16>, count: nat, hurt: bool) {
    && held <= arrived && (forall i :: i in arrived ==> i < n)
    && (!hurt ==> held == (if Full(n, arrived) then {} else arrived) && count == if Full(n, arrived) then 1 else 0)
    && (hurt ==> count == 0 && held != arrived)
  }

  /** A new piece joins what is kept. */
  lemma PieceJoins(n: nat, kept: set<U16>, arrived: set<U16>, i: U16)
    requires kept <= arrived && i !in arrived && i < n && (forall j :: j in arrived ==> j < n)
    ensures |arrived| < n && |arrived + {i}| == |arrived| + 1 <= n
    ensures kept != arrived ==> kept + {i} != arrived + {i} && |kept + {i}| < |arrived + {i}|
  {
    Pigeonhole(arrived + {i}, n);
    SubsetSize(kept + {i}, arrived + {i});
    assert (arrived + {i}) - {i} == arrived && (kept + {i}) - {i} == kept;
  }

  lemma AccountPiece(n: nat, held: set<U16>, arrived: set<U16>, count: nat, hurt: bool, evicts: bool, i: U16)
    requires 0 < n && Account(n, held, arrived, count, hurt) && i !in arrived && i < n
    ensures var (held', done) := Tick(n, held, Sign(evicts, Some(i)));
      Account(n, held', arrived + {i}, if done then count + 1 else count, hurt || Hurting(n, arrived, evicts))
  {
    var kept := if evicts then {} else held;
    PieceJoins(n, kept, arrived, i);
  }

  lemma AccountStep(n: nat, held: set<U16>, arrived: set<U16>, count: nat, hurt: bool, g: Sign)
    requires 0 < n && Account(n, held, arrived, count, hurt)
    requires g.piece.Some? ==> g.piece.value !in arrived && g.piece.value < n
    ensures var (held', done) := Tick(n, held, g);
      Account(n, held', arrived + PieceSet(g), if done then count + 1 else count, hurt || Hurting(n, arrived, g.evicts))
  {
    if g.piece.Some? {
      AccountPiece(n, held, arrived, count, hurt, g.evicts, g.piece.value);
    } else {
      assert arrived + PieceSet(g) == arrived;
    }
  }

  lemma {:induction false} AccountHolds(n: nat, gs: seq<Sign>)
    requires 0 < n && DistinctPieces(gs) && PiecesBelow(n, gs)
    ensures Account(n, Held(n, gs), Arrived(gs), Count(n, gs), !NoneHurts(n, gs))
  {
    if gs != [] {
      var last := |gs| - 1;
      AccountHolds(n, gs[..last]);
      CountStep(n, gs);
      NoneHurtsInit(n, gs);
      if gs[last].piece.Some? {
        ArrivedExactly(gs[..last], gs[last].piece.value);
      }
      AccountStep(n, Held(n, gs[..last]), Arrived(gs[..last]), Count(n, gs[..last]), !NoneHurts(n, gs[..last]),
                  gs[last]);
    }
  }

  /** When every piece arrives exactly once, the message is delivered, once, if
      and only if no eviction meets it begun and incomplete; otherwise it is
      never delivered. */
  lemma DeliveredUnlessHurt(n: nat, gs: seq<Sign>)
    requires 0 < n && DistinctPieces(gs) && PiecesBelow(n, gs) && Full(n, Arrived(gs))
    ensures Count(n, gs) == 1 <==> NoneHurts(n, gs)
    ensures Count(n, gs) == 0 <==> !NoneHurts(n, gs)
    ensures NoneHurts(n, gs) ==> Held(n, gs) == {}
  {
    AccountHolds(n, gs);
  }

  /** Distinct pieces are never late. */
  lemma DistinctAreInTime(n: nat, gs: seq<Sign>)
    requires DistinctPieces(gs) && PiecesBelow(n, gs)
    ensures NoneLate(n, gs)
  {
    forall k | 0 <= k < |gs| && gs[k].piece.Some? ensures InTime(n, gs, k) {
      var i, before := gs[k].piece.value, gs[..k];
      forall j | j in Arrived(before) + {i} ensures j < n {
        ArrivedExactly(before, j);
      }
      ArrivedExactly(before, i);
      Pigeonhole(Arrived(before) + {i}, n);
      assert |Arrived(before) + {i}| == |Arrived(before)| + 1;
    }
  }
}
