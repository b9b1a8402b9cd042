/**
 * The secret-bearing containers: SecretKey owns the 64 bytes of an expanded
 * Ed25519 secret key and Seed the 32 bytes of a seed; both destructors
 * overwrite their bytes with zero.
 */
module SecretStorage {
  import opened Bytes
  import opened KeyTypes

  /** crypto_sign_SECRETKEYBYTES */
  const SECRET_KEY_BYTES: nat := 64

  class SecretKey {
    const keyType: PublicKeyType
    /** mSecretKey: a uint512 */
    const secretKey: array<Byte>

    ghost predicate Valid()
    {
      secretKey.Length == SECRET_KEY_BYTES
    }

    /** The key that fromSeed or random() filled in with `bytes`. */
    constructor (bytes: Uint512)
      ensures Valid() && fresh(secretKey)
      ensures keyType == Ed25519 && secretKey[..] == bytes
    {
      keyType := Ed25519;
      secretKey := new Byte[SECRET_KEY_BYTES](i requires 0 <= i < SECRET_KEY_BYTES => bytes[i]);
    }

    /** SecretKey::isZero: true iff all 64 key bytes are zero. */
    method IsZero() returns (z: bool)
      requires Valid()
      ensures z <==> AllZero(secretKey[..])
    {
      var i := 0;
      while i < secretKey.Length
        invariant 0 <= i <= secretKey.Length
        invariant forall j :: 0 <= j < i ==> secretKey[j] == 0
      {
        if secretKey[i] != 0 {
          return false;
        }
        i := i + 1;
      }
      return true;
    }

    /** ~SecretKey: memset of the key bytes to zero. */
    method Wipe()
      requires Valid()
      modifies secretKey
      ensures Valid() && AllZero(secretKey[..])
    {
      forall i | 0 <= i < secretKey.Length {
        secretKey[i] := 0;
      }
    }
  }

  class Seed {
    const keyType: PublicKeyType
    /** mSeed: a uint256 */
    const seed: array<Byte>

    ghost predicate Valid()
    {
      seed.Length == 32
    }

    /** The seed that getSeed filled in with `bytes`. */
    constructor (keyType: PublicKeyType, bytes: Uint256)
      ensures Valid() && fresh(seed)
      ensures this.keyType == keyType && seed[..] == bytes
    {
      this.keyType := keyType;
      seed := new Byte[32](i requires 0 <= i < 32 => bytes[i]);
    }

    /** ~Seed: memset of the seed bytes to zero. */
    method Wipe()
      requires Valid()
      modifies seed
      ensures Valid() && AllZero(seed[..])
    {
      forall i | 0 <= i < seed.Length {
        seed[i] := 0;
      }
    }
  }

  /** A secret key read after its destructor's wipe reads as zero. */
  method WipedKeyIsZero(sk: SecretKey) returns (z: bool)
    requires sk.Valid()
    modifies sk.secretKey
    ensures z
  {
    sk.Wipe();
    z := sk.IsZero();
  }
}
