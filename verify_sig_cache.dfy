/**
 * PubKeyUtils::verifySig: signature verification memoised in a bounded cache,
 * with hit and miss counters, and the two administrative operations on them.
 *
 * The cache key in the source is the SHA-256 digest of the key bytes, then the
 * signature, then the message. The model keys the cache by that digest's input
 * itself, which is what treating the digest as collision-free amounts to.
 */
module VerifySigCache {
  import opened Bytes
  import opened KeyTypes

  /** The capacity gVerifySigCache is constructed with. */
  const CACHE_CAPACITY: nat := 0xffff

  /** crypto_sign_BYTES */
  const SIGNATURE_BYTES: nat := 64


  /**
   * crypto_sign_verify_detached(signature, message, key) == 0, a pure function
   * of the signature, the message and the key bytes.
   */
  type Verifier = (seq<Byte>, seq<Byte>, Uint256) -> bool

  /** `++counter` on a uint64_t. */
  function Increment(n: nat): (r: nat)
    requires n < UINT64_MODULUS
    ensures r < UINT64_MODULUS
    ensures n + 1 < UINT64_MODULUS ==> r == n + 1
    ensures n + 1 == UINT64_MODULUS ==> r == 0
  {
    (n + 1) % UINT64_MODULUS
  }

  /** verifySigCacheKey: key bytes, then signature, then message. */
  function CacheKey(key: Uint256, signature: seq<Byte>, message: seq<Byte>): seq<Byte>
  {
    key + signature + message
  }

  /** A key made from a 64-byte signature splits back into its three parts. */
  lemma CacheKeySplits(key: Uint256, signature: seq<Byte>, message: seq<Byte>)
    requires |signature| == SIGNATURE_BYTES
    ensures var k := CacheKey(key, signature, message);
      |k| >= 32 + SIGNATURE_BYTES && k[..32] == key && k[32..32 + SIGNATURE_BYTES] == signature
      && k[32 + SIGNATURE_BYTES..] == message
  {
    var k := CacheKey(key, signature, message);
    assert k[..32] == key;
    assert k[32..96] == signature;
    assert k[96..] == message;
  }

  /** Distinct triples with 64-byte signatures have distinct cache keys. */
  lemma CacheKeyInjective(k1: Uint256, s1: seq<Byte>, m1: seq<Byte>, k2: Uint256, s2: seq<Byte>, m2: seq<Byte>)
    requires |s1| == SIGNATURE_BYTES && |s2| == SIGNATURE_BYTES
    ensures CacheKey(k1, s1, m1) == CacheKey(k2, s2, m2) <==> (k1 == k2 && s1 == s2 && m1 == m2)
  {
    CacheKeySplits(k1, s1, m1);
    CacheKeySplits(k2, s2, m2);
  }

  /** The verification that the cache memoises: false for a signature that is not 64 bytes long. */
  function UncachedVerify(verify: Verifier, key: Uint256, signature: seq<Byte>, message: seq<Byte>): bool
  {
    |signature| == SIGNATURE_BYTES && verify(signature, message, key)
  }

  /** Every cached value is the verification result of the triple its key was made from. */
  predicate Consistent(verify: Verifier, cache: map<seq<Byte>, bool>)
  {
    forall k :: k in cache ==>
      |k| >= 32 + SIGNATURE_BYTES && cache[k] == verify(k[32..32 + SIGNATURE_BYTES], k[32 + SIGNATURE_BYTES..], k[..32])
  }

  /** In a consistent cache, a hit returns what uncached verification would. */
  lemma ConsistentHitIsCorrect(verify: Verifier, cache: map<seq<Byte>, bool>,
                               key: Uint256, signature: seq<Byte>, message: seq<Byte>)
    requires Consistent(verify, cache)
    requires |signature| == SIGNATURE_BYTES && CacheKey(key, signature, message) in cache
    ensures cache[CacheKey(key, signature, message)] == UncachedVerify(verify, key, signature, message)
  {
    CacheKeySplits(key, signature, message);
  }

  /** Storing under a key the verification result of the triple it encodes keeps the cache consistent. */
  lemma StoreKeepsConsistent(verify: Verifier, cache: map<seq<Byte>, bool>, k: seq<Byte>, v: bool)
    requires Consistent(verify, cache)
    requires |k| >= 32 + SIGNATURE_BYTES && v == verify(k[32..32 + SIGNATURE_BYTES], k[32 + SIGNATURE_BYTES..], k[..32])
    ensures Consistent(verify, cache[k := v])
  {
  }

  /** Storing the true result of a triple under its key keeps the cache consistent. */
  lemma InsertKeepsConsistent(verify: Verifier, cache: map<seq<Byte>, bool>,
                              key: Uint256, signature: seq<Byte>, message: seq<Byte>)
    requires Consistent(verify, cache)
    requires |signature| == SIGNATURE_BYTES
    ensures Consistent(verify, cache[CacheKey(key, signature, message) := verify(signature, message, key)])
  {
    CacheKeySplits(key, signature, message);
    StoreKeepsConsistent(verify, cache, CacheKey(key, signature, message), verify(signature, message, key));
  }

  /** Evicting entries other than `k` and then storing `k` loses exactly the evicted keys. */
  lemma EvictThenStoreLoses(m: map<seq<Byte>, bool>, victims: set<seq<Byte>>, k: seq<Byte>, v: bool)
    requires victims <= m.Keys && k !in victims
    ensures m.Keys - (m - victims)[k := v].Keys == victims
  {
    assert (m - victims)[k := v].Keys == m.Keys - victims + {k};
  }

  /** Dropping any entries keeps the cache consistent. */
  lemma EvictKeepsConsistent(verify: Verifier, cache: map<seq<Byte>, bool>, evicted: set<seq<Byte>>)
    requires Consistent(verify, cache)
    ensures Consistent(verify, cache - evicted)
  {
  }

  /** gVerifySigCache with gVerifyCacheHit and gVerifyCacheMiss. */
  class SigCache {
    const verify: Verifier
    /** The lru_cache's entries; its recency order is not modelled. */
    var cache: map<seq<Byte>, bool>
    var hits: nat
    var misses: nat

    ghost predicate Valid()
      reads this
    {
      && Consistent(verify, cache)
      && |cache| <= CACHE_CAPACITY
      && hits < UINT64_MODULUS && misses < UINT64_MODULUS
    }

    /** The process starts with an empty cache and zero counters. */
    constructor (verify: Verifier)
      ensures Valid() && this.verify == verify
      ensures cache == map[] && hits == 0 && misses == 0
    {
      this.verify := verify;
      cache := map[];
      hits, misses := 0, 0;
    }

    /**
     * lru_cache::put of a key's true verification result. When the cache is
     * full one entry is evicted first: the least recently used one, of which the
     * model only knows that it is some present entry, returned as `victims`.
     */
    method Put(k: seq<Byte>, v: bool) returns (ghost victims: set<seq<Byte>>)
      requires Valid()
      requires |k| >= 32 + SIGNATURE_BYTES && v == verify(k[32..32 + SIGNATURE_BYTES], k[32 + SIGNATURE_BYTES..], k[..32])
      modifies this`cache
      ensures Valid()
      ensures cache == (old(cache) - victims)[k := v]
      ensures k in old(cache) || |old(cache)| < CACHE_CAPACITY ==> victims == {} && cache == old(cache)[k := v]
      ensures |victims| <= 1 && victims <= old(cache).Keys && k !in victims
    {
      if k !in cache && |cache| == CACHE_CAPACITY {
        assert cache.Keys != {} by { assert |cache.Keys| == |cache|; }
        var victim :| victim in cache.Keys;
        victims := {victim};
        var evicted := cache - {victim};
        assert |evicted| == |cache| - 1 by { assert evicted.Keys == cache.Keys - {victim}; }
        EvictKeepsConsistent(verify, cache, victims);
        StoreKeepsConsistent(verify, evicted, k, v);
        assert |evicted[k := v]| == |evicted| + 1 by { assert k !in evicted; }
        cache := evicted[k := v];
      } else {
        victims := {};
        assert old(cache) - victims == old(cache);
        StoreKeepsConsistent(verify, cache, k, v);
        cache := cache[k := v];
      }
    }

    /**
     * PubKeyUtils::verifySig. Its result is that of uncached verification
     * whatever the cache holds; a hit counts a hit and leaves the entries alone,
     * a miss counts a miss and stores the result under the triple's key, and a
     * signature that is not 64 bytes long touches neither.
     */
    method VerifySig(key: PublicKey, signature: seq<Byte>, message: seq<Byte>) returns (ok: bool)
      requires Valid() && key.keyType == Ed25519
      modifies this`cache, this`hits, this`misses
      ensures Valid()
      ensures ok == UncachedVerify(verify, key.ed25519, signature, message)
      ensures |signature| != SIGNATURE_BYTES ==>
        cache == old(cache) && hits == old(hits) && misses == old(misses)
      ensures |signature| == SIGNATURE_BYTES && CacheKey(key.ed25519, signature, message) in old(cache) ==>
        cache == old(cache) && hits == Increment(old(hits)) && misses == old(misses)
      ensures |signature| == SIGNATURE_BYTES && CacheKey(key.ed25519, signature, message) !in old(cache) ==>
        && hits == old(hits) && misses == Increment(old(misses))
        && CacheKey(key.ed25519, signature, message) in cache
        && cache[CacheKey(key.ed25519, signature, message)] == ok
        && cache.Keys <= old(cache).Keys + {CacheKey(key.ed25519, signature, message)}
        && |old(cache).Keys - cache.Keys| <= 1
        && (forall k :: k in cache && k in old(cache) ==> cache[k] == old(cache)[k])
        && (|old(cache)| < CACHE_CAPACITY ==> cache == old(cache)[CacheKey(key.ed25519, signature, message) := ok])
    {
      if |signature| != SIGNATURE_BYTES {
        return false;
      }
      var cacheKey := CacheKey(key.ed25519, signature, message);
      CacheKeySplits(key.ed25519, signature, message);
      if cacheKey in cache {
        hits := Increment(hits);
        ConsistentHitIsCorrect(verify, cache, key.ed25519, signature, message);
        return cache[cacheKey];
      }
      misses := Increment(misses);
      ok := verify(signature, message, key.ed25519);
      ghost var victims := Put(cacheKey, ok);
      EvictThenStoreLoses(old(cache), victims, cacheKey, ok);
    }

    /** PubKeyUtils::clearVerifySigCache: the entries go, the counters stay. */
    method Clear()
      requires Valid()
      modifies this`cache
      ensures Valid() && cache == map[]
    {
      cache := map[];
    }

    /** PubKeyUtils::flushVerifySigCacheCounts: returns both counters and resets them. */
    method FlushCounts() returns (flushedHits: nat, flushedMisses: nat)
      requires Valid()
      modifies this`hits, this`misses
      ensures Valid()
      ensures flushedHits == old(hits) && flushedMisses == old(misses)
      ensures hits == 0 && misses == 0
    {
      flushedHits, flushedMisses := hits, misses;
      hits, misses := 0, 0;
    }
  }

  /**
   * Verifying the same triple twice on a fresh cache misses once and then hits
   * once, and both calls give the uncached answer.
   */
  method RepeatedVerifyHitsOnce(verify: Verifier, key: PublicKey, signature: seq<Byte>, message: seq<Byte>)
    returns (first: bool, second: bool, flushedHits: nat, flushedMisses: nat)
    requires key.keyType == Ed25519 && |signature| == SIGNATURE_BYTES
    ensures first == second == UncachedVerify(verify, key.ed25519, signature, message)
    ensures flushedHits == 1 && flushedMisses == 1
  {
    var c := new SigCache(verify);
    first := c.VerifySig(key, signature, message);
    second := c.VerifySig(key, signature, message);
    flushedHits, flushedMisses := c.FlushCounts();
  }
}
