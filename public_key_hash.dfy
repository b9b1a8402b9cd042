/** std::hash<PublicKey>: an Ed25519 public key hashes as its 32 key bytes do. */
module PublicKeyHash {
  import opened KeyTypes
  import opened HashOfHash

  /** hash<PublicKey>::operator(); only Ed25519 keys may be hashed. */
  function HashPublicKey(k: PublicKey): (h: SizeT)
    requires k.keyType == Ed25519
    ensures h as int == k.ed25519[0] as int * 0x100_0000 + k.ed25519[1] as int * 0x1_0000
                        + k.ed25519[2] as int * 0x100 + k.ed25519[3] as int
  {
    HashIsBigEndianPrefix(k.ed25519);
    Hash(k.ed25519)
  }

  /** Two Ed25519 keys hash equal exactly when their first four key bytes agree. */
  lemma PublicKeyHashEqualIffPrefixEqual(a: PublicKey, b: PublicKey)
    requires a.keyType == Ed25519 && b.keyType == Ed25519
    ensures HashPublicKey(a) == HashPublicKey(b) <==> a.ed25519[..4] == b.ed25519[..4]
  {
    if a.ed25519[..4] == b.ed25519[..4] {
      HashDependsOnlyOnPrefix(a.ed25519, b.ed25519);
    } else {
      HashDistinguishesPrefixes(a.ed25519, b.ed25519);
    }
  }
}
