# Overlay peer bookkeeping, memoised signature checks and key handling

This project models three parts of a payment-network node and proves properties of them.

- **Overlay peer bookkeeping** (`OverlayManagerImpl`). The overlay manager holds:
  - a list of pending connections;
  - a map of authenticated peers keyed by node id;
  - a shutdown flag.

  Its operations move peers between these collections under capacity rules:
  - `addPendingPeer`, `dropPeer`, `moveToAuthenticated`;
  - `acceptAuthenticatedPeer`, which lets a preferred peer evict a non-preferred one;
  - `getConnectedPeer`, `connectTo` and `connectToMorePeers`, together with the preference ordering of candidates;
  - `shutdown`.
- **Signature verification and secret keys** (`SecretKey.cpp`).
  - Ed25519 verification is memoised in a bounded process-wide cache with hit and miss counters. The cache can be cleared, and the counters can be read and reset at once.
  - Secret keys and seeds are wiped when destroyed. `isZero` scans the key bytes.
  - Secret keys are built from raw seeds and from encoded seed text.
  - The public-key type is mapped to and from its version byte.
  - `logKey` dumps a key string by trying three interpretations in turn.
- **Hash folding** (`HashOfHash.cpp`). A 256-bit value hashes to its first four bytes, read big-endian. A public key hashes as its key bytes do.

Files:

- `wrappers.dfy`: the bytes and fixed-size blobs, plus Option/Result.
- `hash_of_hash.dfy`: `std::hash<uint256>` on a 64-bit `size_t`.
- `keys.dfy`: the key-type/version mapping, `fromSeed` and `fromPsrKeySeed`.
- `public_key_hash.dfy`: `std::hash<PublicKey>`.
- `log_key.dfy`: `logKey`.
- `secret_storage.dfy`: the `SecretKey` and `Seed` byte arrays, the wipe and `isZero`.
- `verify_sig_cache.dfy`: the verification cache as a class.
- `peer_sets.dfy`: the overlay collections as values, with the operations as functions of them.
- `overlay_manager.dfy`: the overlay manager as a class whose methods update its collections. `DropPeer`, `AddPendingPeer`, `MoveToAuthenticated`, `AcceptAuthenticatedPeer` and `ConnectTo` are proved against the functions of `peer_sets.dfy`. `LoadPeers` is proved against `LoadCandidates`, which is defined in the same file. `Shutdown` and `ConnectToMorePeers` state their new state directly.

Notes on the model:

- A peer is an object, and identity of objects stands for pointer identity.
- The node id is a number ordered like the key it stands for. A walk over the authenticated map therefore goes in increasing node-id order.
- `Peer::drop` is modelled as the `dropPeer` call it ends in.
- The count getters are `|pending|` and `|authenticated|`.
- `isPreferred` is `PeerSets.IsPreferred`. A peer is preferred when its address is in the normalised preferred-peer set, or when it is authenticated and its key is among the preferred peer keys.
- The verification cache is keyed by the input of its SHA-256 digest (key bytes, signature, message). That is what treating the digest as collision-free amounts to.

## Model

| member | source | states |
|---|---|---|
| HashOfHash.Hash | src/util/HashOfHash.cpp:6-14 | the definition: `res` starts as byte 0 and bytes 1, 2 and 3 are shifted in on a 64-bit `size_t`, with bits past the top lost; HashIsBigEndianPrefix and the lemmas after it state what this computes |
| HashOfHash.ShiftInIsBase256 | src/util/HashOfHash.cpp:11-13 | while no bits fall off the top of the 64-bit word, one shift-and-or step appends the byte as a base-256 digit |
| HashOfHash.HashIsBigEndianPrefix | src/util/HashOfHash.cpp:9-13 | the hash equals x[0]·2^24 + x[1]·2^16 + x[2]·2^8 + x[3] |
| HashOfHash.HashBelow2To32 | src/util/HashOfHash.cpp:9-13 | the hash is always below 2^32 |
| HashOfHash.HashDependsOnlyOnPrefix | src/util/HashOfHash.cpp:9-13 | two values agreeing on bytes 0..3 hash equal, so bytes 4..31 are ignored |
| HashOfHash.HashPrefixRecoverable | src/util/HashOfHash.cpp:9-13 | each of the first four bytes can be read back from the hash by shifting and masking |
| HashOfHash.HashDistinguishesPrefixes | src/util/HashOfHash.cpp:9-13 | values whose four-byte prefixes differ hash to different results |
| PublicKeyHash.HashPublicKey | src/crypto/SecretKey.cpp:393-399 | an Ed25519 key's hash is the big-endian value of its first four key bytes; the type requirement is the source's assert |
| PublicKeyHash.PublicKeyHashEqualIffPrefixEqual | src/crypto/SecretKey.cpp:393-399 | two Ed25519 keys hash equal if and only if their first four key bytes agree |
| KeyTypes.KeyVersionIsSupported | src/crypto/SecretKey.cpp:221-232 | true exactly for the Ed25519 public-key version byte |
| KeyTypes.ToKeyType | src/crypto/SecretKey.cpp:234-244 | succeeds exactly on a supported version byte; on any other byte it fails with the invalid-public-key-type error |
| KeyTypes.ToKeyVersion | src/crypto/SecretKey.cpp:246-256 | succeeds exactly for the Ed25519 type, giving a supported version byte; otherwise it fails with the invalid-public-key-type error |
| KeyTypes.GetKeyValue | src/crypto/SecretKey.cpp:258-280 | the key bytes for an Ed25519 key, and an error for any other type |
| KeyTypes.KeyTypeVersionInverse | src/crypto/SecretKey.cpp:234-256 | toKeyType maps v to t if and only if toKeyVersion maps t to v |
| KeyTypes.KeyVersionRoundTrip | src/crypto/SecretKey.cpp:221-256 | a version byte survives the trip through its key type and back exactly when it is supported |
| SeedDecoding.FromSeed | src/crypto/SecretKey.cpp:155-172 | a seed that is not 32 bytes long gives the size-mismatch error; otherwise the result is libsodium's keypair, or the keypair-failure error when libsodium fails |
| SeedDecoding.FromPsrKeySeed | src/crypto/SecretKey.cpp:174-196 | text that fails any of the four checks (decodes, seed version byte, 32-byte payload, text length equal to the encoded size of 32 bytes) is an invalid seed; text passing all four is fromSeed of its payload |
| SeedDecoding.FromPsrKeySeedSucceedsIff | src/crypto/SecretKey.cpp:179-195 | fromPsrKeySeed succeeds if and only if all four checks hold and libsodium expands the payload |
| SeedDecoding.EncodedSeedRoundTrip | src/crypto/SecretKey.cpp:174-196 | text that decodes to a seed with the right version and length gives the same key as fromSeed on the raw seed |
| LogKey.LogPublicKey | src/crypto/SecretKey.cpp:322-328 | the definition: one public-key block (its psrKey and hex renderings are left to the codecs) |
| LogKey.LogSecretKey | src/crypto/SecretKey.cpp:330-336 | the definition: the seed block, then the block of the derived public key |
| LogKey.TryHex | src/crypto/SecretKey.cpp:341-356 | the definition of the hex try: nothing when hexToBin256 fails; the public-key block when fromSeed then fails; otherwise the public-key block and the secret-key blocks, and the try returns |
| LogKey.TryPublicKey | src/crypto/SecretKey.cpp:358-367 | the definition of the encoded-public-key try: nothing unless fromPsrKey decodes, and then its block, and the try returns |
| LogKey.TrySeed | src/crypto/SecretKey.cpp:369-378 | the definition of the encoded-seed try: nothing unless fromPsrKeySeed succeeds, and then the secret-key blocks, and the try returns |
| LogKey.LogKey | src/crypto/SecretKey.cpp:338-380 | the definition: the three tries in order, then "Unknown key type"; LogKeyFallbackOrder and LogKeyHexSeed state what it writes |
| LogKey.RunAttempts | src/crypto/SecretKey.cpp:341-379 | the definition of the try/catch fall-through: each try's output in turn, up to the first try that returns, then "Unknown key type" when none does; RunAttemptsUnknownIffAllFail and RunAttemptsStopsAtFirstSuccess state what it writes |
| LogKey.RunAttemptsUnknownIffAllFail | src/crypto/SecretKey.cpp:339-380 | over tries that never print the unknown line themselves, "Unknown key type" is written if and only if no try returns, and it is then the last line |
| LogKey.RunAttemptsStopsAtFirstSuccess | src/crypto/SecretKey.cpp:339-380 | when try k is the first to return, the output is exactly what tries 0..k wrote, in order |
| LogKey.ThreeAttempts | src/crypto/SecretKey.cpp:341-379 | in a run of three tries where the second and third write nothing unless they return, the first try that returns decides the output; "Unknown key type" follows the first try's output exactly when none returns |
| LogKey.LogKeyFallbackOrder | src/crypto/SecretKey.cpp:341-379 | logKey tries hex, then an encoded public key, then an encoded seed, and stops at the first that succeeds; "Unknown key type" appears only when all three fail, after whatever the failed hex try had written |
| LogKey.LogKeyHexSeed | src/crypto/SecretKey.cpp:342-352 | a hex string that libsodium expands as a seed shows the raw public key, then the seed, then the derived public key |
| SecretStorage.SecretKey.constructor | src/crypto/SecretKey.cpp:49-59 | a new secret key has type Ed25519 and a fresh 64-byte array holding the bytes its creator writes |
| SecretStorage.SecretKey.IsZero | src/crypto/SecretKey.cpp:115-126 | the result is true if and only if all 64 secret-key bytes are zero |
| SecretStorage.SecretKey.Wipe | src/crypto/SecretKey.cpp:61-64 | the destructor leaves every secret-key byte zero |
| SecretStorage.Seed.constructor | src/crypto/SecretKey.cpp:91-98 | a new seed has the given key type and a fresh 32-byte array holding the bytes written into it |
| SecretStorage.Seed.Wipe | src/crypto/SecretKey.cpp:66-69 | the destructor leaves every seed byte zero |
| SecretStorage.WipedKeyIsZero | src/crypto/SecretKey.cpp:61-64 | a wiped secret key satisfies isZero |
| VerifySigCache.Increment | src/crypto/SecretKey.cpp:298 | a uint64 counter increment adds one, wrapping to zero past 2^64 - 1 |
| VerifySigCache.CacheKey | src/crypto/SecretKey.cpp:36-47 | the definition: the digest input is the key bytes, then the signature, then the message, and the digest is taken as collision-free; CacheKeySplits and CacheKeyInjective state that the key determines the triple |
| VerifySigCache.CacheKeySplits | src/crypto/SecretKey.cpp:36-47 | a cache key built from a 64-byte signature splits back into key bytes, signature and message |
| VerifySigCache.CacheKeyInjective | src/crypto/SecretKey.cpp:36-47 | triples with 64-byte signatures have equal cache keys if and only if they are equal |
| VerifySigCache.ConsistentHitIsCorrect | src/crypto/SecretKey.cpp:296-300 | in a cache where every entry holds the verification of its own triple, a hit returns exactly the uncached result |
| VerifySigCache.StoreKeepsConsistent | src/crypto/SecretKey.cpp:308 | storing under a key the verification result of the triple that key encodes keeps every entry correct |
| VerifySigCache.InsertKeepsConsistent | src/crypto/SecretKey.cpp:304-308 | storing a triple's true result under its key keeps every entry correct |
| VerifySigCache.EvictKeepsConsistent | src/crypto/SecretKey.cpp:31 | evicting any set of entries keeps every remaining entry correct |
| VerifySigCache.SigCache.constructor | src/crypto/SecretKey.cpp:30-34 | the cache starts empty with both counters at zero |
| VerifySigCache.SigCache.Put | src/crypto/SecretKey.cpp:308 | the key is stored with its value after evicting at most one present entry; nothing is evicted unless the cache is full and the key is new; capacity and correctness are kept |
| VerifySigCache.SigCache.VerifySig | src/crypto/SecretKey.cpp:283-310 | the result equals uncached verification whatever the cache holds. A signature that is not 64 bytes long changes nothing. A hit adds one to the hit counter only. A miss adds one to the miss counter and stores the result under the triple's key, changing no other entry's value and evicting at most the one entry that makes room |
| VerifySigCache.SigCache.Clear | src/crypto/SecretKey.cpp:199-203 | the cache is emptied and the counters are untouched |
| VerifySigCache.SigCache.FlushCounts | src/crypto/SecretKey.cpp:206-213 | both current counts are returned and both counters reset to zero; the entries are untouched |
| VerifySigCache.RepeatedVerifyHitsOnce | src/crypto/SecretKey.cpp:283-310 | verifying one triple twice on a fresh cache gives the uncached answer both times, with one miss followed by one hit |
| PeerSets.IsPreferred | src/overlay/OverlayManagerImpl.cpp:435-462 | the definition of isPreferred: the peer's address is a preferred address, or it is authenticated and its key is a preferred key |
| PeerSets.FindPeer | src/overlay/OverlayManagerImpl.cpp:326-328 | the position of the first pending entry that is the given peer, or none exactly when the peer is not pending |
| PeerSets.RemoveAt | src/overlay/OverlayManagerImpl.cpp:331 | erasing one entry shortens the list by one, removes exactly that entry from its multiset, and keeps every other entry in its order |
| PeerSets.MinKey | src/overlay/OverlayManagerImpl.cpp:387 | the least key of a non-empty key set: the first one a walk of the map reaches |
| PeerSets.FindAtAddress | src/overlay/OverlayManagerImpl.cpp:265-270 | the first pending peer at the address, or none exactly when no pending peer is there |
| PeerSets.ConnectedPeer | src/overlay/OverlayManagerImpl.cpp:262-288 | the definition of getConnectedPeer: the first pending peer at the address, else the authenticated peer at it that a walk in node-id order meets first, else none; ConnectedPeerCases states its cases |
| PeerSets.ConnectedPeerCases | src/overlay/OverlayManagerImpl.cpp:263-288 | the result is at the address and is pending or authenticated. It is a pending peer whenever one is at the address. It is none if and only if no pending and no authenticated peer is at the address |
| PeerSets.FirstNonPreferred | src/overlay/OverlayManagerImpl.cpp:387-398 | the eviction victim is a non-preferred authenticated peer, every peer before it in node-id order is preferred, and there is none exactly when all are preferred |
| PeerSets.DroppedPeer | src/overlay/OverlayManagerImpl.cpp:319-346 | the definition of dropPeer on the two collections; DropPeerEffect and DropKeepsWellFormed state its effect |
| PeerSets.MovedToAuthenticated | src/overlay/OverlayManagerImpl.cpp:348-374 | the definition of moveToAuthenticated on the two collections; MoveToAuthenticatedEffect and MoveKeepsWellFormed state its outcomes |
| PeerSets.Accepted | src/overlay/OverlayManagerImpl.cpp:376-409 | the definition of acceptAuthenticatedPeer on the two collections; AcceptKeepsCapacity and the Accept lemmas after it state its outcomes |
| PeerSets.DropPeerEffect | src/overlay/OverlayManagerImpl.cpp:320-346 | dropPeer erases the first pending entry that is the peer when there is one, keeping the other entries in order, and leaves the map alone; otherwise it removes the peer's node id from the map; a peer in neither leaves both unchanged |
| PeerSets.MoveToAuthenticatedEffect | src/overlay/OverlayManagerImpl.cpp:349-374 | the move fails, changing nothing, exactly when the peer is not pending or its id is already authenticated. Otherwise the first pending entry that is the peer goes, the others keep their order, authenticated[id] becomes the peer, pending shrinks by one and authenticated grows by one |
| PeerSets.MoveKeepsWellFormed | src/overlay/OverlayManagerImpl.cpp:349-374 | the move keeps each authenticated peer under its own id, pending free of repeats, and pending disjoint from authenticated |
| PeerSets.DropKeepsWellFormed | src/overlay/OverlayManagerImpl.cpp:320-346 | dropping keeps each authenticated peer under its own id, pending free of repeats, and pending disjoint from authenticated |
| PeerSets.AcceptKeepsCapacity | src/overlay/OverlayManagerImpl.cpp:377-409 | if pending and authenticated are disjoint and at most MAX_PEER_CONNECTIONS peers are authenticated before acceptAuthenticatedPeer, both still hold after |
| PeerSets.EvictionKeepsCapacity | src/overlay/OverlayManagerImpl.cpp:385-399 | dropping an authenticated victim and then moving the peer in keeps the collections well formed and the authenticated count within MAX_PEER_CONNECTIONS |
| PeerSets.AcceptEvictsOneNonPreferred | src/overlay/OverlayManagerImpl.cpp:379-399 | a preferred peer at capacity removes exactly the first non-preferred authenticated peer, then is moved in as moveToAuthenticated decides |
| PeerSets.AcceptAllPreferredRefuses | src/overlay/OverlayManagerImpl.cpp:385-408 | a peer arriving at capacity when every authenticated peer is preferred evicts no one and is refused |
| PeerSets.AcceptNonPreferred | src/overlay/OverlayManagerImpl.cpp:401-408 | a non-preferred peer is accepted only when PREFERRED_PEERS_ONLY is off and there is room, and then exactly as moveToAuthenticated decides; otherwise nothing changes and the result is false |
| PeerSets.PartitionIsPermutation | src/overlay/OverlayManagerImpl.cpp:239 | the two parts of a partition together hold exactly the input's entries |
| PeerSets.OrderByPreferredPeers | src/overlay/OverlayManagerImpl.cpp:233-240 | the definition: a stable partition of the records by whether their address is preferred; OrderByPreferredPeersIsStablePartition states its properties |
| PeerSets.OrderByPreferredPeersIsStablePartition | src/overlay/OverlayManagerImpl.cpp:234-240 | the ordering is a permutation of its input, with every preferred record before every other record and each group in its original order |
| Overlay.KeepLoading | src/overlay/OverlayManagerImpl.cpp:213 | for a non-negative bound the callback asks for more exactly while fewer than max are kept; because the bound is converted to size_t, a negative bound never stops the loading |
| Overlay.LoadCandidates | src/overlay/OverlayManagerImpl.cpp:204-214 | the definition of the loading callback run over the records: skip a record with a peer connected at its address, keep the others, stop once KeepLoading says no; LoadCandidatesKeepsUnconnected states its properties |
| Overlay.LoadCandidatesKeepsUnconnected | src/overlay/OverlayManagerImpl.cpp:204-214 | the kept records extend the list so far, each is an offered record with no peer connected at its address, and no more than max are kept |
| Overlay.LoadCandidatesKeepsEveryUnconnected | src/overlay/OverlayManagerImpl.cpp:204-214 | for some n, the kept list is the list so far followed by every unconnected record among the first n offered, in their order; the callback answered true after each earlier record and, unless the records ran out, false after the n-th |
| Overlay.StopPointShifts | src/overlay/OverlayManagerImpl.cpp:206-213 | where the run over the records after the first stops, the run over all of them stops one record later, once the first record has been taken in and the callback asked for more |
| Overlay.OverlayManager.constructor | src/overlay/OverlayManagerImpl.cpp:58-82 | a new manager has no pending and no authenticated peers, is not shutting down, and keeps the given configuration |
| Overlay.OverlayManager.DropPeer | src/overlay/OverlayManagerImpl.cpp:320-346 | the new collections are those PeerSets.DroppedPeer gives for the old ones; the shutdown flag is unchanged |
| Overlay.OverlayManager.AddPendingPeer | src/overlay/OverlayManagerImpl.cpp:304-317 | while shutting down, or with MAX_PENDING_CONNECTIONS peers pending, the peer is dropped. Otherwise it is appended to pending and the map is untouched. The pending bound is kept |
| Overlay.OverlayManager.MoveToAuthenticated | src/overlay/OverlayManagerImpl.cpp:349-374 | the new collections and the result are those PeerSets.MovedToAuthenticated gives |
| Overlay.OverlayManager.AcceptAuthenticatedPeer | src/overlay/OverlayManagerImpl.cpp:377-409 | the eviction loop walks the map in node-id order; the new collections and the result are those PeerSets.Accepted gives |
| Overlay.OverlayManager.ConnectTo | src/overlay/OverlayManagerImpl.cpp:120-136 | with a peer already connected at the address nothing changes. Otherwise a new peer at that address, with an unset node id, is appended to pending, or dropped when addPendingPeer refuses it |
| Overlay.OverlayManager.LoadPeers | src/overlay/OverlayManagerImpl.cpp:204-214 | the loading loop keeps exactly the records LoadCandidates describes, and changes nothing |
| Overlay.OverlayManager.ConnectToMorePeers | src/overlay/OverlayManagerImpl.cpp:192-231 | pending only grows, and only when not shutting down. The map only loses entries. The pending bound is kept. Every new pending peer is fresh and was initiated for a due record of the preference-ordered candidates |
| Overlay.OverlayManager.Shutdown | src/overlay/OverlayManagerImpl.cpp:517-536 | a second call changes nothing; the first sets the flag and drops every pending and then every authenticated peer, leaving both collections empty |
| Overlay.ShutdownRefusesNewPeers | src/overlay/OverlayManagerImpl.cpp:306-311 | after shutdown, a new connection is refused and both collections stay empty, and shutting down again changes nothing |

## Left out

- Ed25519 (libsodium), SHA-256 and `randombytes_buf` are foreign primitives. Verification, seed expansion and the secret-key-to-public-key and secret-key-to-seed extractions are parameters of the model. `sign`, `random` and `HashUtils::random` are not modelled.
- The failure branches of `getPublicKey` and `getSeed` are not modelled. The model treats both extractions as total functions that never fail.
- The psrKey text codec, its size function, `hexToBin256` and `KeyUtils::fromPsrKey` are parameters. The numeric values of the version bytes are in `PsrKey.h`, which is not part of this model.
- SeedDecoding.FromPsrKeySeed: the length check compares the number of characters of the text, where the source compares `size()` in bytes (`SecretKey.cpp:182`). The two agree on ASCII text, which is all a psrKey decoder accepts, but the decoder parameter is not restricted to ASCII.
- `logKey`'s text formatting is not modelled. Each printed block is recorded by the key it shows.
- VerifySigCache.SigCache.Put: the least-recently-used choice of victim is not modelled. The `lru_cache` implementation is not part of this model, so the victim is any present entry.
- The mutex around the cache is not modelled, because the model is sequential. In the source the miss counter is incremented outside the lock (`SecretKey.cpp:303`), and concurrent calls can race on it. The shared hasher (`SecretKey.cpp:32`) is also reset, fed and finished outside the lock, in `verifySigCacheKey` (`SecretKey.cpp:36-47`, called at 292). Concurrent calls can therefore compute a wrong cache key and store one triple's result under another's key. `Consistent` and the cache-correctness lemmas hold for sequential use only.
- TCP (`TCPPeer::initiate`, the door), the timers in `start` and `tick`, metrics, logging, `FloodGate`, `PeerAuth`, `LoadManager` and `random_shuffle` in `getRandomAuthenticatedPeers` are I/O, asynchronous or external.
- The peer database is left out: record loading, storing, `backOff`, and the batch size passed to the query. The records the query yields, and the clock's time, are parameters of `ConnectToMorePeers`. The model takes a single clock reading, while the source reads the clock once for the query (`OverlayManagerImpl.cpp:205`) and again for every record it considers (220).
- Overlay.OverlayManager.ConnectToMorePeers: its contract does not list exactly which peers are initiated or in what order. It says only where new pending peers come from, and what they leave unchanged.
- `Peer::drop` is modelled as a synchronous call into `dropPeer`. Its state guard (a peer already closing) and its asynchronous socket shutdown are in `TCPPeer.cpp`, which is not part of this model.
- A newly initiated peer's remote port is taken to be the record's port, and its node id to be unset. `TCPPeer::initiate` is not part of this model.
- Node ids are numbers ordered like the keys they stand for. The model does not encode peer keys as psrKey text for comparison with the configured preferred keys. The configured keys are given as the set of node ids they encode.
- `storeConfigPeers`, `storePeerList`, the address parsing that normalises the preferred peers, `ledgerClosed` and the message flooding functions are outside the modelled core.
