/**
 * Machine integers of the source, written out over Dafny's unbounded
 * integers: the ranges of `u8`, `u32` and `u64`, the truncating `as`
 * casts, saturating arithmetic and the big-endian bytes of a `u32`.
 */
module Ints {

  const U32_LIMIT: int := 0x1_0000_0000
  const U64_LIMIT: int := 0x1_0000_0000_0000_0000
  const U32_MAX: int := U32_LIMIT - 1
  const U64_MAX: int := U64_LIMIT - 1

  type byte = x: int | 0 <= x < 0x100
  type u32 = x: int | 0 <= x < 0x1_0000_0000
  type u64 = x: int | 0 <= x < 0x1_0000_0000_0000_0000

  /** `n as u32`: keeps the low 32 bits, silently. */
  function AsU32(n: nat): (r: u32)
    ensures n <= U32_MAX ==> r == n
    ensures n > U32_MAX ==> r != n
  {
    n % U32_LIMIT
  }

  /** `n as u64`: keeps the low 64 bits, silently. */
  function AsU64(n: nat): (r: u64)
    ensures n <= U64_MAX ==> r == n
  {
    n % U64_LIMIT
  }

  /** `u64::saturating_add`. */
  function SaturatingAdd(a: u64, b: u64): (r: u64)
    ensures r <= a + b
    ensures r == a + b || r == U64_MAX
  {
    if a + b <= U64_MAX then a + b else U64_MAX
  }

  /** `u64::saturating_sub`. */
  function SaturatingSub(a: u64, b: u64): (r: u64)
    ensures r >= a - b
    ensures r == a - b || r == 0
  {
    if a >= b then a - b else 0
  }

  /** `u64::saturating_mul`. */
  function SaturatingMul(a: u64, b: u64): (r: u64)
    ensures r <= a * b
    ensures r == a * b || r == U64_MAX
  {
    if a * b <= U64_MAX then a * b else U64_MAX
  }

  /** `u32::to_be_bytes`: four bytes, most significant first. */
  function ToBigEndian(x: u32): (r: seq<byte>)
    ensures |r| == 4
  {
    var lo := x / 0x100;
    var mid := lo / 0x100;
    [mid / 0x100, mid % 0x100, lo % 0x100, x % 0x100]
  }

  /** `u32::from_be_bytes`. */
  function FromBigEndian(s: seq<byte>): (r: u32)
    requires |s| == 4
    ensures ToBigEndian(r) == s
  {
    var mid := s[0] as int * 0x100 + s[1] as int;
    var lo := mid * 0x100 + s[2] as int;
    var x := lo * 0x100 + s[3] as int;
    assert x / 0x100 == lo && x % 0x100 == s[3];
    assert lo / 0x100 == mid && lo % 0x100 == s[2];
    assert mid / 0x100 == s[0] && mid % 0x100 == s[1];
    x
  }

  /** The four big-endian bytes of a `u32` read back as the same value. */
  lemma BigEndianRoundTrip(x: u32)
    ensures FromBigEndian(ToBigEndian(x)) == x
  {
    var lo := x / 0x100;
    var mid := lo / 0x100;
    assert x == lo * 0x100 + x % 0x100;
    assert lo == mid * 0x100 + lo % 0x100;
    assert mid == (mid / 0x100) * 0x100 + mid % 0x100;
  }
}
