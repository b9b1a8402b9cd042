/**
 * Public keys, the psrKey version bytes and KeyFunctions<PublicKey>: the
 * mapping between a key's type tag and the version byte of its text form.
 */
module KeyTypes {
  import opened Wrappers
  import opened Bytes

  /** PublicKeyType. ED25519 is the only type defined; `OtherKeyType` is what a `default:` branch sees. */
  datatype PublicKeyType = Ed25519 | OtherKeyType(code: int)

  /** A public key: its type tag and its 32 key bytes. */
  datatype PublicKey = PublicKey(keyType: PublicKeyType, ed25519: Uint256)

  /**
   * psrKey::PsrKeyVersionByte. The two versions this file uses are named; any
   * other byte is `OtherVersion`. Their numeric values are in PsrKey.h, which is
   * not part of this model. `OtherVersion(code)` stands only for a `code` that is
   * neither of the named versions: a byte equal to PSRKEY_PUBKEY_ED25519 or
   * PSRKEY_SEED_ED25519 is always written as the named constructor.
   */
  datatype VersionByte = PubkeyEd25519 | SeedEd25519 | OtherVersion(code: Byte)

  /** The exceptions thrown in SecretKey.cpp, one constructor per message. */
  datatype KeyError =
    | InvalidPublicKeyType      // std::invalid_argument("invalid public key type")
    | SeedSizeMismatch          // "seed does not match byte size"
    | InvalidSeed               // "invalid seed"
    | SeedKeypairFailed         // "error generating secret key from seed"

  /** KeyFunctions<PublicKey>::getKeyVersionIsSupported */
  function KeyVersionIsSupported(v: VersionByte): (r: bool)
    ensures r <==> v == PubkeyEd25519
  {
    match v
    case PubkeyEd25519 => true
    case _ => false
  }

  /** KeyFunctions<PublicKey>::toKeyType: only the Ed25519 public-key version has a key type. */
  function ToKeyType(v: VersionByte): (r: Result<PublicKeyType, KeyError>)
    ensures r.Success? <==> KeyVersionIsSupported(v)
    ensures r.Failure? ==> r.error == InvalidPublicKeyType
  {
    match v
    case PubkeyEd25519 => Success(Ed25519)
    case _ => Failure(InvalidPublicKeyType)
  }

  /** KeyFunctions<PublicKey>::toKeyVersion: only Ed25519 has a version byte. */
  function ToKeyVersion(t: PublicKeyType): (r: Result<VersionByte, KeyError>)
    ensures r.Success? <==> t == Ed25519
    ensures r.Success? ==> KeyVersionIsSupported(r.value)
    ensures r.Failure? ==> r.error == InvalidPublicKeyType
  {
    match t
    case Ed25519 => Success(PubkeyEd25519)
    case OtherKeyType(_) => Failure(InvalidPublicKeyType)
  }

  /** KeyFunctions<PublicKey>::getKeyValue: the key bytes, for the Ed25519 type only. */
  function GetKeyValue(k: PublicKey): (r: Result<Uint256, KeyError>)
    ensures r.Success? <==> k.keyType == Ed25519
    ensures r.Success? ==> r.value == k.ed25519
  {
    match k.keyType
    case Ed25519 => Success(k.ed25519)
    case OtherKeyType(_) => Failure(InvalidPublicKeyType)
  }

  /** toKeyType and toKeyVersion are inverse to each other wherever either succeeds. */
  lemma KeyTypeVersionInverse(v: VersionByte, t: PublicKeyType)
    ensures ToKeyType(v) == Success(t) <==> ToKeyVersion(t) == Success(v)
  {
  }

  /** A version byte converts to a key type and back to itself exactly when it is supported. */
  lemma KeyVersionRoundTrip(v: VersionByte)
    ensures KeyVersionIsSupported(v) <==> (ToKeyType(v).Success? && ToKeyVersion(ToKeyType(v).value) == Success(v))
  {
  }
}

/**
 * Construction of secret keys from a raw seed and from the encoded seed text,
 * with libsodium and the psrKey codec as parameters.
 */
module SeedDecoding {
  import opened Wrappers
  import opened Bytes
  import opened KeyTypes

  /** crypto_sign_SEEDBYTES */
  const SEED_BYTES: nat := 32

  /**
   * The libsodium functions the file calls. `seedKeypair` is
   * crypto_sign_seed_keypair, None when it returns non-zero; `skToPk` and
   * `skToSeed` are crypto_sign_ed25519_sk_to_pk and _sk_to_seed.
   */
  datatype Sodium = Sodium(
    seedKeypair: Uint256 -> Option<Uint512>,
    skToPk: Uint512 -> Uint256,
    skToSeed: Uint512 -> Uint256)

  /**
   * The text codecs the file calls: psrKey::fromPsrKey (the version byte and the
   * payload, None when the text does not decode), psrKey::getPsrKeySize (the text
   * length for a payload length), hexToBin256 and KeyUtils::fromPsrKey<PublicKey>.
   */
  datatype Codecs = Codecs(
    fromPsrKey: string -> Option<(VersionByte, seq<Byte>)>,
    psrKeySize: nat -> nat,
    hexToBin256: string -> Option<Uint256>,
    publicKeyFromPsrKey: string -> Option<PublicKey>)

  /** SecretKey::fromSeed: the 64 secret-key bytes, or the exception it throws. */
  function FromSeed(sodium: Sodium, seed: seq<Byte>): (r: Result<Uint512, KeyError>)
    ensures |seed| != SEED_BYTES ==> r == Failure(SeedSizeMismatch)
    ensures r.Success? <==> |seed| == SEED_BYTES && sodium.seedKeypair(seed).Some?
    ensures r.Success? ==> r == Success(sodium.seedKeypair(seed).value)
    ensures r.Failure? && |seed| == SEED_BYTES ==> r.error == SeedKeypairFailed
  {
    if |seed| != SEED_BYTES then Failure(SeedSizeMismatch)
    else
      match sodium.seedKeypair(seed)
      case None => Failure(SeedKeypairFailed)
      case Some(sk) => Success(sk)
  }

  /** The four conditions under which fromPsrKeySeed accepts its text, and the seed they yield. */
  predicate IsEncodedSeed(codecs: Codecs, text: string)
  {
    match codecs.fromPsrKey(text)
    case None => false
    case Some((ver, seed)) =>
      ver == SeedEd25519 && |seed| == SEED_BYTES && |text| == codecs.psrKeySize(SEED_BYTES)
  }

  /** SecretKey::fromPsrKeySeed */
  function FromPsrKeySeed(sodium: Sodium, codecs: Codecs, text: string): (r: Result<Uint512, KeyError>)
    ensures !IsEncodedSeed(codecs, text) ==> r == Failure(InvalidSeed)
    ensures IsEncodedSeed(codecs, text) ==> r == FromSeed(sodium, codecs.fromPsrKey(text).value.1)
  {
    match codecs.fromPsrKey(text)
    case None => Failure(InvalidSeed)
    case Some((ver, seed)) =>
      if ver != SeedEd25519 || |seed| != SEED_BYTES || |text| != codecs.psrKeySize(SEED_BYTES) then
        Failure(InvalidSeed)
      else
        match sodium.seedKeypair(seed)
        case None => Failure(SeedKeypairFailed)
        case Some(sk) => Success(sk)
  }

  /** fromPsrKeySeed succeeds exactly when the text decodes to a valid seed that libsodium expands. */
  lemma FromPsrKeySeedSucceedsIff(sodium: Sodium, codecs: Codecs, text: string)
    ensures FromPsrKeySeed(sodium, codecs, text).Success? <==>
      (codecs.fromPsrKey(text).Some?
       && codecs.fromPsrKey(text).value.0 == SeedEd25519
       && |codecs.fromPsrKey(text).value.1| == SEED_BYTES
       && |text| == codecs.psrKeySize(SEED_BYTES)
       && sodium.seedKeypair(codecs.fromPsrKey(text).value.1).Some?)
  {
  }

  /**
   * If the codec round-trips a seed's encoding and gives it the expected length,
   * decoding the encoding gives the same key as fromSeed on the raw seed.
   */
  lemma EncodedSeedRoundTrip(sodium: Sodium, codecs: Codecs, seed: Uint256, text: string)
    requires codecs.fromPsrKey(text) == Some((SeedEd25519, seed))
    requires |text| == codecs.psrKeySize(SEED_BYTES)
    ensures FromPsrKeySeed(sodium, codecs, text) == FromSeed(sodium, seed)
  {
  }
}
