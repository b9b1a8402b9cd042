/**
 * std::hash<uint256>: a uint256 is folded into a size_t by shifting its first
 * four bytes in, most significant first.
 */
module HashOfHash {
  import opened Bytes

  /** size_t on the 64-bit platforms the node is built for. */
  newtype SizeT = x: int | 0 <= x < UINT64_MODULUS

  /** `r << 8` on a 64-bit unsigned value: bits shifted past the top are lost. */
  function ShiftLeft8(r: SizeT): SizeT
  {
    ((r as int * 256) % UINT64_MODULUS) as SizeT
  }

  /** `r | b` for a byte `b`: only the low byte of `r` can change, and it is or-ed bitwise. */
  function OrByte(r: SizeT, b: Byte): SizeT
  {
    var low := (r as int % 256) as Byte;
    (r as int - r as int % 256 + (low | b) as int) as SizeT
  }

  /** One `res = (res << 8) | b` step. */
  function ShiftIn(res: SizeT, b: Byte): SizeT
  {
    OrByte(ShiftLeft8(res), b)
  }

  /** hash<uint256>::operator(): `res = x[0]`, then three shift-in steps. */
  function Hash(x: Uint256): SizeT
  {
    ShiftIn(ShiftIn(ShiftIn(x[0] as int as SizeT, x[1]), x[2]), x[3])
  }

  /** While no bits fall off the top, a shift-in step is `res * 256 + b`. */
  lemma ShiftInIsBase256(res: SizeT, b: Byte)
    requires res as int < 0x100_0000
    ensures ShiftIn(res, b) as int == res as int * 256 + b as int
  {
    assert ShiftLeft8(res) as int == res as int * 256;
    assert (res as int * 256) % 256 == 0;
    assert (0 as Byte | b) == b;
  }

  /** The result equals x[0]·2^24 + x[1]·2^16 + x[2]·2^8 + x[3]. */
  lemma HashIsBigEndianPrefix(x: Uint256)
    ensures Hash(x) as int == x[0] as int * 0x100_0000 + x[1] as int * 0x1_0000 + x[2] as int * 0x100 + x[3] as int
  {
    var r1 := ShiftIn(x[0] as int as SizeT, x[1]);
    ShiftInIsBase256(x[0] as int as SizeT, x[1]);
    var r2 := ShiftIn(r1, x[2]);
    ShiftInIsBase256(r1, x[2]);
    ShiftInIsBase256(r2, x[3]);
  }

  /** The result is always below 2^32. */
  lemma HashBelow2To32(x: Uint256)
    ensures Hash(x) as int < 0x1_0000_0000
  {
    HashIsBigEndianPrefix(x);
  }

  /** Two values that agree on bytes 0..3 hash equal: bytes 4..31 are ignored. */
  lemma HashDependsOnlyOnPrefix(x: Uint256, y: Uint256)
    requires x[..4] == y[..4]
    ensures Hash(x) == Hash(y)
  {
    assert x[0] == y[0] && x[1] == y[1] && x[2] == y[2] && x[3] == y[3] by {
      assert x[..4][0] == x[0] && x[..4][1] == x[1] && x[..4][2] == x[2] && x[..4][3] == x[3];
    }
  }

  /** Byte `k` (0 = most significant) of the 32-bit value held in `h`: `(h >> (24 - 8k)) & 0xff`. */
  function PrefixByte(h: SizeT, k: nat): int
    requires k < 4
  {
    var shifted := if k == 3 then h as int else if k == 2 then h as int / 256
                   else if k == 1 then h as int / 256 / 256 else h as int / 256 / 256 / 256;
    shifted % 256
  }

  /** Dividing `q * 256 + r` by 256 splits off the digit `r`. */
  lemma DivideOffDigit(q: int, r: int)
    requires 0 <= q && 0 <= r < 256
    ensures (q * 256 + r) / 256 == q && (q * 256 + r) % 256 == r
  {
  }

  /** The four base-256 digits of a number below 2^32 are recovered by division. */
  lemma Base256Digits(a: int, b: int, c: int, d: int, h: int)
    requires 0 <= a < 256 && 0 <= b < 256 && 0 <= c < 256 && 0 <= d < 256
    requires h == a * 0x100_0000 + b * 0x1_0000 + c * 0x100 + d
    ensures h / 256 / 256 / 256 % 256 == a && h / 256 / 256 % 256 == b
    ensures h / 256 % 256 == c && h % 256 == d
  {
    var q1 := a * 256 + b;
    var q2 := q1 * 256 + c;
    assert h == q2 * 256 + d;
    DivideOffDigit(q2, d);
    DivideOffDigit(q1, c);
    DivideOffDigit(a, b);
    DivideOffDigit(0, a);
  }

  /** Each of bytes 0..3 can be read back from the result. */
  lemma HashPrefixRecoverable(x: Uint256, k: nat)
    requires k < 4
    ensures PrefixByte(Hash(x), k) == x[k] as int
  {
    HashIsBigEndianPrefix(x);
    Base256Digits(x[0] as int, x[1] as int, x[2] as int, x[3] as int, Hash(x) as int);
  }

  /** Values whose four-byte prefixes differ hash to different results. */
  lemma HashDistinguishesPrefixes(x: Uint256, y: Uint256)
    requires x[..4] != y[..4]
    ensures Hash(x) != Hash(y)
  {
    var k :| 0 <= k < 4 && x[k] != y[k];
    HashPrefixRecoverable(x, k);
    HashPrefixRecoverable(y, k);
  }
}
