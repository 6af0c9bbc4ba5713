/** The chained hash expansion behind id hashes (pkg/crypto/kdf.go). */
module HashExpansion {
  import opened Basics
  import opened Crypto

  type Hash = Bytes -> Bytes

  ghost predicate IsHash(h: Hash) {
    forall data: Bytes :: |h(data)| == HASH_SIZE
  }

  /** The k-th block: h(data), h(h(data)), ... */
  function Block(h: Hash, data: Bytes, k: nat): Bytes {
    if k == 0 then h(data) else h(Block(h, data, k - 1))
  }

  /** The first k blocks in order: a prefix of the one stream of `data`. */
  function Stream(h: Hash, data: Bytes, k: nat): Bytes {
    if k == 0 then [] else Stream(h, data, k - 1) + Block(h, data, k - 1)
  }

  lemma BlockSize(h: Hash, data: Bytes, k: nat)
    requires IsHash(h)
    ensures |Block(h, data, k)| == HASH_SIZE
  {
  }

  lemma {:induction false} StreamSize(h: Hash, data: Bytes, k: nat)
    requires IsHash(h)
    ensures |Stream(h, data, k)| == 32 * k
  {
    if k > 0 {
      StreamSize(h, data, k - 1);
      BlockSize(h, data, k - 1);
    }
  }

  lemma {:induction false} StreamGrows(h: Hash, data: Bytes, j: nat, k: nat)
    requires j <= k
    ensures Stream(h, data, j) <= Stream(h, data, k)
  {
    if j < k {
      StreamGrows(h, data, j, k - 1);
    }
  }

  /** The first n bytes of the stream. */
  function FirstBytes(h: Hash, data: Bytes, n: nat): (r: Bytes)
    requires IsHash(h)
    ensures |r| == n
  {
    StreamSize(h, data, n / 32 + 1);
    Stream(h, data, n / 32 + 1)[..n]
  }

  /** Any stretch of the stream long enough gives the same first bytes. */
  lemma FirstBytesOfAny(h: Hash, data: Bytes, n: nat, k: nat)
    requires IsHash(h) && n <= 32 * k
    ensures |Stream(h, data, k)| == 32 * k && FirstBytes(h, data, n) == Stream(h, data, k)[..n]
  {
    var j := n / 32 + 1;
    StreamSize(h, data, k);
    StreamSize(h, data, j);
    if j <= k {
      StreamGrows(h, data, j, k);
    } else {
      StreamGrows(h, data, k, j);
    }
  }

  /** Shorter outputs are prefixes of longer ones, across the 32-byte branch too. */
  lemma OutputsArePrefixes(h: Hash, data: Bytes, n: nat, m: nat)
    requires IsHash(h) && n <= m
    ensures FirstBytes(h, data, n) == FirstBytes(h, data, m)[..n]
  {
    FirstBytesOfAny(h, data, n, m / 32 + 1);
  }

  /** Every byte of the output, by its place in the chain of blocks. */
  lemma ByteOfStream(h: Hash, data: Bytes, n: nat, i: nat)
    requires IsHash(h) && i < n
    ensures |Block(h, data, i / 32)| == 32
    ensures FirstBytes(h, data, n)[i] == Block(h, data, i / 32)[i % 32]
  {
    var k := i / 32;
    BlockSize(h, data, k);
    StreamSize(h, data, k);
    StreamGrows(h, data, k + 1, n / 32 + 1);
    StreamSize(h, data, k + 1);
    StreamSize(h, data, n / 32 + 1);
    assert Stream(h, data, k + 1) == Stream(h, data, k) + Block(h, data, k);
  }

  lemma {:induction false} StreamFrom(h: Hash, data: Bytes, k: nat)
    ensures Block(h, data, k + 1) == Block(h, h(data), k)
    ensures Stream(h, data, k + 1) == h(data) + Stream(h, h(data), k)
  {
    if k == 0 {
      assert Stream(h, data, 1) == [] + h(data);
    } else {
      StreamFrom(h, data, k - 1);
    }
  }

  /** All outputs, from the hash alone: up to 32 bytes of the hash of the data,
      and beyond that the hash followed by the output for the hash. */
  lemma OutputsExactly(h: Hash, data: Bytes, n: nat)
    requires IsHash(h)
    ensures FirstBytes(h, data, n) == if n <= 32 then h(data)[..n] else h(data) + FirstBytes(h, h(data), n - 32)
  {
    var k := n / 32 + 1;
    StreamFrom(h, data, k);
    StreamSize(h, h(data), k);
    FirstBytesOfAny(h, data, n, k + 1);
    if 32 < n {
      FirstBytesOfAny(h, h(data), n - 32, k);
    }
  }

  /** SHAKE256: a negative length makes the slice expression panic, so callers
      pass none. */
  method Shake256(h: Hash, data: Bytes, n: nat) returns (result: Bytes)
    requires IsHash(h)
    ensures result == FirstBytes(h, data, n)
  {
    if n <= 32 {
      var digest := h(data);
      FirstBytesOfAny(h, data, n, 1);
      assert Stream(h, data, 1) == Stream(h, data, 0) + Block(h, data, 0) == digest;
      return digest[..n];
    }

    result := [];
    var block := Zeros(32);
    var i := 0;
    ghost var k := 0;
    while i < n
      invariant i == 32 * k && k <= (n + 31) / 32
      invariant 0 < k ==> block == Block(h, data, k - 1)
      invariant i <= n ==> result == Stream(h, data, k)
      invariant n <= i ==> result == FirstBytes(h, data, n)
    {
      block := h(if i > 0 then block else data);
      assert block == Block(h, data, k);
      StreamSize(h, data, k);
      FirstBytesOfAny(h, data, n, if n <= i + 32 then k + 1 else n);
      var remaining := n - i;
      if remaining > 32 {
        result := result + block;
      } else {
        assert (result + block)[..n] == result + block[..remaining];
        result := result + block[..remaining];
      }
      i := i + 32;
      k := k + 1;
      assert Stream(h, data, k) == Stream(h, data, k - 1) + block;
    }
  }
}
