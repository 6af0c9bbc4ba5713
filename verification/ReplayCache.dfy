/** The replay cache, purged only when it has grown, and the history it agrees
    with (pkg/identity/verifier.go). */
module ReplayCache {
  import opened Basics
  import opened Runs

  type Cache = map<Bytes, int>

  const PURGE_THRESHOLD := 1000

  /** One call, with the clock reading it takes. */
  datatype Query = Query(key: Bytes, now: int)

  function Unexpired(cache: Cache, ttl: int, now: int): (r: Cache)
    ensures forall k :: k in r <==> k in cache && now - cache[k] <= ttl
    ensures forall k :: k in r ==> r[k] == cache[k]
  {
    map k | k in cache && now - cache[k] <= ttl :: cache[k]
  }

  function Check(ttl: int, cache: Cache, q: Query): (Cache, bool) {
    var kept := if |cache| > PURGE_THRESHOLD then Unexpired(cache, ttl, q.now) else cache;
    if q.key in kept then (kept, false) else (kept[q.key := q.now], true)
  }

  class NonceCache {
    var cache: Cache
    const ttl: int

    constructor (ttl: int)
      ensures this.ttl == ttl && cache == map[]
    {
      this.ttl, this.cache := ttl, map[];
    }

    /** Deletes expired entries while walking over all of them. */
    method Purge(now: int)
      modifies this
      ensures cache == Unexpired(old(cache), ttl, now)
    {
      var keys := cache.Keys;
      while keys != {}
        invariant keys <= cache.Keys <= old(cache).Keys
        invariant forall k :: k in cache ==> cache[k] == old(cache)[k]
        invariant forall k :: k in old(cache) && k !in keys ==> (k in cache <==> now - old(cache)[k] <= ttl)
        decreases |keys|
      {
        var k :| k in keys;
        keys := keys - {k};
        if now - cache[k] > ttl {
          cache := cache - {k};
        }
      }
    }

    method CheckAndAdd(peerIDHash: Bytes, nonce: Bytes, now: int) returns (isNew: bool)
      modifies this
      ensures (cache, isNew) == Check(ttl, old(cache), Query(peerIDHash + nonce, now))
    {
      var key := peerIDHash + nonce;
      if |cache| > PURGE_THRESHOLD {
        Purge(now);
      }
      if key in cache {
        return false;
      }
      cache := cache[key := now];
      return true;
    }
  }

  // ---------- Whole traces ----------

  function Machine(ttl: int): (Cache, Query) -> (Cache, bool) {
    (cache, q) => Check(ttl, cache, q)
  }

  function CacheAfter(ttl: int, qs: seq<Query>): Cache {
    After(Machine(ttl), map[], qs)
  }

  predicate Accepted(ttl: int, qs: seq<Query>, k: nat)
    requires k < |qs|
  {
    Answer(Machine(ttl), map[], qs, k)
  }

  ghost predicate ClockNeverGoesBack(qs: seq<Query>) {
    forall i, j :: InOrder(qs, i, j)
  }

  predicate InOrder(qs: seq<Query>, i: int, j: int) {
    0 <= i <= j < |qs| ==> qs[i].now <= qs[j].now
  }

  /** The last call that accepted a key. */
  function LastAccepted(ttl: int, qs: seq<Query>, key: Bytes): (r: Option<nat>)
    ensures r.Some? ==> r.value < |qs| && qs[r.value].key == key
  {
    if qs == [] then None
    else
      var n := |qs| - 1;
      if qs[n].key == key && Accepted(ttl, qs, n) then Some(n)
      else LastAccepted(ttl, qs[..n], key)
  }

  /** The k-th call finds the cache grown and purges it. */
  predicate Purges(ttl: int, qs: seq<Query>, k: nat)
    requires k < |qs|
  {
    |CacheAfter(ttl, qs[..k])| > 1000
  }

  /** The k-th call purges what the i-th one put in. */
  predicate Expels(ttl: int, qs: seq<Query>, i: nat, k: nat)
    requires i < |qs| && k < |qs|
  {
    Purges(ttl, qs, k) && qs[k].now - qs[i].now > ttl
  }

  /** No purge before the n-th call found what the i-th one put in expired. */
  ghost predicate Kept(ttl: int, qs: seq<Query>, i: nat, n: nat)
    requires i < |qs| && n <= |qs|
  {
    forall p :: i < p < n ==> !Expels(ttl, qs, i, p)
  }

  /** What the history says about a key: the last call that accepted it, unless a
      later purge found it expired. */
  ghost predicate Remembered(ttl: int, qs: seq<Query>, key: Bytes) {
    var last := LastAccepted(ttl, qs, key);
    last.Some? && Kept(ttl, qs, last.value, |qs|)
  }

  lemma KeptOneMore(ttl: int, qs: seq<Query>, i: nat, n: nat)
    requires i < n < |qs|
    ensures Kept(ttl, qs, i, n + 1) <==> Kept(ttl, qs[..n], i, n) && !Expels(ttl, qs, i, n)
    ensures Expels(ttl, qs, i, n)
      <==> |CacheAfter(ttl, qs[..n])| > 1000 && qs[n].now - qs[i].now > ttl
  {
    forall p | i < p < n ensures Expels(ttl, qs[..n], i, p) == Expels(ttl, qs, i, p) {
      assert qs[..n][..p] == qs[..p];
    }
  }

  /** One call, seen from one key. */
  lemma CheckOneKey(ttl: int, cache: Cache, q: Query, key: Bytes)
    ensures var (cache', isNew) := Check(ttl, cache, q);
      var stays := key in cache && !(|cache| > 1000 && q.now - cache[key] > ttl);
      && (key in cache' <==> stays || q.key == key)
      && (q.key == key ==> (isNew <==> !stays))
      && (key in cache' ==> cache'[key] == if stays then cache[key] else q.now)
  {
  }

  /** The cache agrees with the history about one key. */
  ghost predicate Agrees(ttl: int, qs: seq<Query>, key: Bytes) {
    var cache := CacheAfter(ttl, qs);
    && (key in cache <==> Remembered(ttl, qs, key))
    && (key in cache ==> cache[key] == qs[LastAccepted(ttl, qs, key).value].now)
  }

  /** The entry of a key when the n-th call looks it up. */
  predicate Stays(ttl: int, qs: seq<Query>, n: nat, key: Bytes)
    requires n < |qs|
  {
    var cache := CacheAfter(ttl, qs[..n]);
    key in cache && !(|cache| > 1000 && qs[n].now - cache[key] > ttl)
  }

  lemma StaysIsKept(ttl: int, qs: seq<Query>, n: nat, key: Bytes)
    requires n < |qs| && Agrees(ttl, qs[..n], key)
    ensures var last := LastAccepted(ttl, qs[..n], key);
      Stays(ttl, qs, n, key) <==> last.Some? && Kept(ttl, qs, last.value, n + 1)
  {
    var last := LastAccepted(ttl, qs[..n], key);
    if last.Some? {
      KeptOneMore(ttl, qs, last.value, n);
    }
  }

  /** The lazily purged cache is a function of the history: it holds exactly the
      remembered keys, each with the time of its last acceptance. */
  lemma {:induction false} CacheIsHistory(ttl: int, qs: seq<Query>, key: Bytes)
    ensures Agrees(ttl, qs, key)
  {
    if qs == [] {
    } else {
      var n := |qs| - 1;
      CacheIsHistory(ttl, qs[..n], key);
      StaysIsKept(ttl, qs, n, key);
      CheckOneKey(ttl, CacheAfter(ttl, qs[..n]), qs[n], key);
    }
  }

  /** A call is rejected exactly when an earlier call accepted its key and no
      purge since, this call's own included, found that entry expired. */
  lemma RejectedExactly(ttl: int, qs: seq<Query>, k: nat)
    requires k < |qs|
    ensures var last := LastAccepted(ttl, qs[..k], qs[k].key);
      !Accepted(ttl, qs, k) <==> last.Some? && Kept(ttl, qs, last.value, k + 1)
  {
    CacheIsHistory(ttl, qs[..k], qs[k].key);
    StaysIsKept(ttl, qs, k, qs[k].key);
    CheckOneKey(ttl, CacheAfter(ttl, qs[..k]), qs[k], qs[k].key);
  }

  /** The i-th call is an acceptance of the key. */
  predicate Takes(ttl: int, qs: seq<Query>, key: Bytes, i: nat)
    requires i < |qs|
  {
    qs[i].key == key && Accepted(ttl, qs, i)
  }

  lemma LastAcceptedNext(ttl: int, qs: seq<Query>, key: Bytes, n: nat)
    requires n < |qs|
    ensures LastAccepted(ttl, qs[..n + 1], key)
      == if Takes(ttl, qs, key, n) then Some(n) else LastAccepted(ttl, qs[..n], key)
  {
    assert qs[..n + 1][..n] == qs[..n];
    AnswerInPrefix(Machine(ttl), map[], qs, n + 1, n);
  }

  lemma {:induction false} LastAcceptedIsLast(ttl: int, qs: seq<Query>, key: Bytes, n: nat)
    requires n <= |qs|
    ensures var last := LastAccepted(ttl, qs[..n], key);
      && (last.Some? ==> Takes(ttl, qs, key, last.value))
      && forall i :: 0 <= i < n && Takes(ttl, qs, key, i) ==> last.Some? && i <= last.value
  {
    if n > 0 {
      LastAcceptedIsLast(ttl, qs, key, n - 1);
      LastAcceptedNext(ttl, qs, key, n - 1);
    }
  }

  /** The replay window: two acceptances of the same key are more than ttl apart. */
  lemma AcceptancesFarApart(ttl: int, qs: seq<Query>, i: nat, j: nat)
    requires ClockNeverGoesBack(qs) && i < j < |qs|
    requires qs[i].key == qs[j].key && Accepted(ttl, qs, i) && Accepted(ttl, qs, j)
    ensures qs[j].now - qs[i].now > ttl
  {
    RejectedExactly(ttl, qs, j);
    LastAcceptedIsLast(ttl, qs, qs[j].key, j);
    assert Takes(ttl, qs, qs[j].key, i);
    var last := LastAccepted(ttl, qs[..j], qs[j].key).value;
    assert !Kept(ttl, qs, last, j + 1);
    var p :| last < p < j + 1 && Expels(ttl, qs, last, p);
    assert InOrder(qs, i, last) && InOrder(qs, p, j);
  }

  /** Every rejection is justified by an earlier acceptance of the same key. */
  lemma RejectionsJustified(ttl: int, qs: seq<Query>, j: nat)
    requires j < |qs| && !Accepted(ttl, qs, j)
    ensures exists i :: 0 <= i < j && qs[i].key == qs[j].key && Accepted(ttl, qs, i)
  {
    RejectedExactly(ttl, qs, j);
    LastAcceptedIsLast(ttl, qs, qs[j].key, j);
    var i := LastAccepted(ttl, qs[..j], qs[j].key).value;
    assert i < j && qs[i].key == qs[j].key && Accepted(ttl, qs, i);
  }

  // ---------- Size ----------

  /** The calls whose acceptance is no older than ttl at time `now`. */
  function Recent(ttl: int, qs: seq<Query>, now: int): set<nat> {
    set i: nat | i < |qs| && Accepted(ttl, qs, i) && now - qs[i].now <= ttl
  }

  lemma {:induction false} InjectionSize(keys: set<Bytes>, index: map<Bytes, nat>, indices: set<nat>)
    requires keys <= index.Keys && forall k :: k in keys ==> index[k] in indices
    requires forall k, l :: k in keys && l in keys && index[k] == index[l] ==> k == l
    ensures |keys| <= |indices|
  {
    if keys != {} {
      var k :| k in keys;
      InjectionSize(keys - {k}, index, indices - {index[k]});
    }
  }

  /** If every entry is recent there are no more entries than recent acceptances. */
  lemma RecentEntries(ttl: int, qs: seq<Query>, now: int)
    requires forall k :: k in CacheAfter(ttl, qs) ==> now - CacheAfter(ttl, qs)[k] <= ttl
    ensures |CacheAfter(ttl, qs)| <= |Recent(ttl, qs, now)|
  {
    var cache := CacheAfter(ttl, qs);
    assert qs[..|qs|] == qs;
    forall k | k in cache
      ensures var last := LastAccepted(ttl, qs, k);
        last.Some? && last.value in Recent(ttl, qs, now) && qs[last.value].key == k
    {
      CacheIsHistory(ttl, qs, k);
      LastAcceptedIsLast(ttl, qs, k, |qs|);
    }
    var index := map k | k in cache :: LastAccepted(ttl, qs, k).value;
    InjectionSize(cache.Keys, index, Recent(ttl, qs, now));
    assert |cache| == |cache.Keys|;
  }

  /** After every call the cache holds at most 1001 entries, or at most as many
      as there are acceptances no older than ttl. */
  lemma SizeBound(ttl: int, qs: seq<Query>)
    requires ClockNeverGoesBack(qs) && qs != []
    ensures |CacheAfter(ttl, qs)| <= 1001
            || |CacheAfter(ttl, qs)| <= |Recent(ttl, qs, qs[|qs| - 1].now)|
  {
    var n := |qs| - 1;
    var before, now := CacheAfter(ttl, qs[..n]), qs[n].now;
    var cache := CacheAfter(ttl, qs);
    assert cache == Check(ttl, before, qs[n]).0;
    if |before| > 1000 {
      forall k | k in before ensures before[k] <= now {
        CacheIsHistory(ttl, qs[..n], k);
        assert InOrder(qs, LastAccepted(ttl, qs[..n], k).value, n);
      }
      if 0 <= ttl {
        RecentEntries(ttl, qs, now);
      } else {
        assert Unexpired(before, ttl, now) == map[];
        assert cache == map[qs[n].key := now];
      }
    }
  }

  // ---------- Keys ----------

  /** Keys identify the pair of peer and nonce among peer hashes of one length. */
  lemma KeysIdentifyPairs(peer1: Bytes, nonce1: Bytes, peer2: Bytes, nonce2: Bytes)
    requires |peer1| == |peer2|
    ensures peer1 + nonce1 == peer2 + nonce2 <==> peer1 == peer2 && nonce1 == nonce2
  {
    if peer1 + nonce1 == peer2 + nonce2 {
      assert peer1 == (peer1 + nonce1)[..|peer1|] == peer2;
      assert nonce1 == (peer1 + nonce1)[|peer1|..] == nonce2;
    }
  }
}
