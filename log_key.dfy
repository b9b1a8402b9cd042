/**
 * PsrKeyUtils::logKey: a diagnostic dump that tries three interpretations of
 * its input in order (hex bytes, an encoded public key, an encoded seed) and
 * stops at the first that succeeds.
 */
module LogKey {
  import opened Wrappers
  import opened Bytes
  import opened KeyTypes
  import opened SeedDecoding

  /**
   * One block of the report. The text formatting (the psrKey and hex renderings)
   * is left to the codecs; a block records which key it shows.
   */
  datatype KeyReport = PublicKeyReport(key: Uint256) | SeedReport(seed: Uint256) | UnknownKeyType

  /** logPublicKey */
  function LogPublicKey(pk: Uint256): seq<KeyReport>
  {
    [PublicKeyReport(pk)]
  }

  /** logSecretKey: the seed, then the public key. */
  function LogSecretKey(sodium: Sodium, sk: Uint512): seq<KeyReport>
  {
    [SeedReport(sodium.skToSeed(sk))] + LogPublicKey(sodium.skToPk(sk))
  }

  /** What one `try` block wrote before it returned or threw, and whether it returned. */
  datatype Attempt = Attempt(written: seq<KeyReport>, done: bool)

  /**
   * The hex attempt. The public-key block is written before fromSeed runs, so a
   * fromSeed failure leaves it in the output and the next attempt follows it.
   */
  function TryHex(sodium: Sodium, codecs: Codecs, key: string): Attempt
  {
    match codecs.hexToBin256(key)
    case None => Attempt([], false)
    case Some(data) =>
      match FromSeed(sodium, data)
      case Success(sk) => Attempt(LogPublicKey(data) + LogSecretKey(sodium, sk), true)
      case Failure(_) => Attempt(LogPublicKey(data), false)
  }

  /** The encoded-public-key attempt. */
  function TryPublicKey(codecs: Codecs, key: string): Attempt
  {
    match codecs.publicKeyFromPsrKey(key)
    case None => Attempt([], false)
    case Some(pk) => Attempt(LogPublicKey(pk.ed25519), true)
  }

  /** The encoded-seed attempt. */
  function TrySeed(sodium: Sodium, codecs: Codecs, key: string): Attempt
  {
    match FromPsrKeySeed(sodium, codecs, key)
    case Success(sk) => Attempt(LogSecretKey(sodium, sk), true)
    case Failure(_) => Attempt([], false)
  }

  /** Runs the attempts in order up to the first that returns; "Unknown key type" if none does. */
  function RunAttempts(attempts: seq<Attempt>): seq<KeyReport>
  {
    if attempts == [] then [UnknownKeyType]
    else attempts[0].written + (if attempts[0].done then [] else RunAttempts(attempts[1..]))
  }

  /** No attempt writes the "Unknown key type" line itself. */
  predicate WritesKeysOnly(attempts: seq<Attempt>)
  {
    forall i :: 0 <= i < |attempts| ==> UnknownKeyType !in attempts[i].written
  }

  /** The written blocks of attempts 0..n-1, in order. */
  function WrittenUpTo(attempts: seq<Attempt>, n: nat): seq<KeyReport>
    requires n <= |attempts|
  {
    if n == 0 then [] else WrittenUpTo(attempts, n - 1) + attempts[n - 1].written
  }

  /** "Unknown key type" appears, and then as the last line, exactly when no attempt returns. */
  lemma {:induction false} RunAttemptsUnknownIffAllFail(attempts: seq<Attempt>)
    requires WritesKeysOnly(attempts)
    ensures var out := RunAttempts(attempts);
      (UnknownKeyType in out <==> forall i :: 0 <= i < |attempts| ==> !attempts[i].done)
      && (UnknownKeyType in out ==> out[|out| - 1] == UnknownKeyType)
  {
    if attempts != [] {
      var out := RunAttempts(attempts);
      var rest := attempts[1..];
      assert WritesKeysOnly(rest) by {
        forall i | 0 <= i < |rest| ensures UnknownKeyType !in rest[i].written {
          assert rest[i] == attempts[i + 1];
        }
      }
      RunAttemptsUnknownIffAllFail(rest);
      assert UnknownKeyType !in attempts[0].written;
      if attempts[0].done {
        assert out == attempts[0].written;
      } else {
        var r := RunAttempts(rest);
        assert out == attempts[0].written + r;
        assert UnknownKeyType in out <==> UnknownKeyType in r;
        if forall i :: 0 <= i < |rest| ==> !rest[i].done {
          forall i | 0 <= i < |attempts| ensures !attempts[i].done {
            if i > 0 {
              assert attempts[i] == rest[i - 1];
            }
          }
          assert out[|out| - 1] == r[|r| - 1];
        } else {
          var j :| 0 <= j < |rest| && rest[j].done;
          assert attempts[j + 1].done;
        }
      }
    }
  }

  /** When attempt `k` is the first to return, the output is what attempts 0..k wrote. */
  lemma {:induction false} RunAttemptsStopsAtFirstSuccess(attempts: seq<Attempt>, k: nat)
    requires k < |attempts| && attempts[k].done
    requires forall i :: 0 <= i < k ==> !attempts[i].done
    ensures RunAttempts(attempts) == WrittenUpTo(attempts, k + 1)
  {
    if k == 0 {
      assert WrittenUpTo(attempts, 1) == attempts[0].written;
    } else {
      var rest := attempts[1..];
      RunAttemptsStopsAtFirstSuccess(rest, k - 1);
      WrittenUpToShift(attempts, k + 1);
    }
  }

  /** The first attempt's blocks followed by those of the rest. */
  lemma {:induction false} WrittenUpToShift(attempts: seq<Attempt>, n: nat)
    requires 1 <= n <= |attempts|
    ensures WrittenUpTo(attempts, n) == attempts[0].written + WrittenUpTo(attempts[1..], n - 1)
  {
    if n == 1 {
      assert WrittenUpTo(attempts[1..], 0) == [];
    } else {
      WrittenUpToShift(attempts, n - 1);
      assert attempts[1..][n - 2] == attempts[n - 1];
    }
  }

  /**
   * Three attempts, the last two writing nothing unless they return: the
   * outcome is decided by the first that returns, and "Unknown key type" ends
   * it when none does.
   */
  lemma ThreeAttempts(first: Attempt, second: Attempt, third: Attempt)
    requires WritesKeysOnly([first, second, third])
    requires !second.done ==> second.written == []
    requires !third.done ==> third.written == []
    ensures var out := RunAttempts([first, second, third]);
      && (UnknownKeyType in out <==> !first.done && !second.done && !third.done)
      && (UnknownKeyType in out ==> out == first.written + [UnknownKeyType])
      && (first.done ==> out == first.written)
      && (!first.done && second.done ==> out == first.written + second.written)
      && (!first.done && !second.done && third.done ==> out == first.written + third.written)
  {
    var out := RunAttempts([first, second, third]);
    assert [first, second, third][1..] == [second, third] && [second, third][1..] == [third] && [third][1..] == [];
    assert UnknownKeyType !in first.written && UnknownKeyType !in second.written && UnknownKeyType !in third.written by {
      assert [first, second, third][0] == first && [first, second, third][1] == second && [first, second, third][2] == third;
    }
    assert RunAttempts([third]) == third.written + (if third.done then [] else [UnknownKeyType]);
    assert RunAttempts([second, third]) == second.written + (if second.done then [] else RunAttempts([third]));
    assert out == first.written + (if first.done then [] else RunAttempts([second, third]));
    if first.done {
      assert out == first.written;
    } else if second.done {
      assert out == first.written + second.written;
    } else if third.done {
      assert out == first.written + third.written;
    } else {
      assert out == first.written + [UnknownKeyType];
    }
  }

  /** PsrKeyUtils::logKey */
  function LogKey(sodium: Sodium, codecs: Codecs, key: string): seq<KeyReport>
  {
    RunAttempts([TryHex(sodium, codecs, key), TryPublicKey(codecs, key), TrySeed(sodium, codecs, key)])
  }

  /**
   * logKey writes "Unknown key type", as its last line, only when all three
   * interpretations fail; otherwise it stops at the first that succeeds.
   */
  lemma LogKeyFallbackOrder(sodium: Sodium, codecs: Codecs, key: string)
    ensures var out := LogKey(sodium, codecs, key);
      var hex, pub, seed := TryHex(sodium, codecs, key), TryPublicKey(codecs, key), TrySeed(sodium, codecs, key);
      && (UnknownKeyType in out <==> !hex.done && !pub.done && !seed.done)
      && (UnknownKeyType in out ==> out == hex.written + [UnknownKeyType])
      && (hex.done ==> out == hex.written)
      && (!hex.done && pub.done ==> out == hex.written + pub.written)
      && (!hex.done && !pub.done && seed.done ==> out == hex.written + seed.written)
  {
    var hex, pub, seed := TryHex(sodium, codecs, key), TryPublicKey(codecs, key), TrySeed(sodium, codecs, key);
    assert WritesKeysOnly([hex, pub, seed]);
    ThreeAttempts(hex, pub, seed);
  }

  /** A hex string of a seed that libsodium expands shows the raw key, then the seed and its public key. */
  lemma LogKeyHexSeed(sodium: Sodium, codecs: Codecs, key: string, data: Uint256, sk: Uint512)
    requires codecs.hexToBin256(key) == Some(data)
    requires sodium.seedKeypair(data) == Some(sk)
    ensures LogKey(sodium, codecs, key) ==
      [PublicKeyReport(data), SeedReport(sodium.skToSeed(sk)), PublicKeyReport(sodium.skToPk(sk))]
  {
  }
}
