/**
 * The unsigned variable-length integers of the wire format (the
 * `SerializeVarInt` / `DeserializeVarInt` traits of the models crate).
 * They are unsigned LEB128, the varints of Protocol Buffers: seven bits per
 * byte, least significant group first, the high bit set on every byte but
 * the last. A `u32` read accepts at most five bytes, a value that fits in
 * 32 bits and only the minimal encoding (no trailing zero group).
 */
module VarInt {
  import opened Ints
  import opened Wrappers
  import opened Outcomes

  /** Bytes a `u32` varint may occupy. */
  const U32_MAX_BYTES: nat := 5

  /** `to_varint_bytes`; the same bytes for a `u32` and a `u64` of equal value. */
  function Encode(n: nat): (r: seq<byte>)
    ensures 1 <= |r|
    decreases n
  {
    if n < 0x80 then [n] else [0x80 + n % 0x80] + Encode(n / 0x80)
  }

  /** Reads seven-bit groups from the front of `s`, at most `budget` bytes. */
  function DecodeGroups(s: seq<byte>, leading: bool, budget: nat): (r: Decoded<nat>)
    requires budget >= 1
    ensures r.Success? ==> 1 <= r.value.cursor <= |s| && r.value.cursor <= budget
    ensures r.Failure? ==> r.error in {Truncated, VarIntOverflow, VarIntNotMinimal}
    decreases budget
  {
    if |s| == 0 then Failure(Truncated)
    else if s[0] < 0x80 then
      if s[0] == 0 && !leading then Failure(VarIntNotMinimal)
      else Success(Parsed(s[0], 1))
    else if budget == 1 then Failure(VarIntOverflow)
    else
      var tail :- DecodeGroups(s[1..], false, budget - 1);
      Success(Parsed(s[0] - 0x80 + 0x80 * tail.value, tail.cursor + 1))
  }

  /** `u32::from_varint_bytes`: the value and the number of bytes it took. */
  function DecodeU32(s: seq<byte>): (r: Decoded<u32>)
    ensures r.Success? ==> 1 <= r.value.cursor <= |s| && r.value.cursor <= U32_MAX_BYTES
    ensures |s| > 0 && s[0] < 0x80 ==> r == Success(Parsed(s[0], 1))
    ensures |s| == 0 ==> r == Failure(Truncated)
    ensures r.Failure? ==> r.error in {Truncated, VarIntOverflow, VarIntNotMinimal}
  {
    var g :- DecodeGroups(s, true, U32_MAX_BYTES);
    if g.value > U32_MAX then Failure(VarIntOverflow) else Success(Parsed(g.value, g.cursor))
  }

  /**
   * `u32::from_varint_bytes_bounded`: a value above `max` is refused as
   * soon as it is read, before the caller sizes anything from it.
   */
  function DecodeBoundedU32(s: seq<byte>, max: u32): (r: Decoded<u32>)
    ensures r.Success? <==> DecodeU32(s).Success? && DecodeU32(s).value.value <= max
    ensures r.Success? ==> r == DecodeU32(s)
    ensures DecodeU32(s).Success? && DecodeU32(s).value.value > max ==>
              r == Failure(BoundExceeded(DecodeU32(s).value.value, max))
    ensures DecodeU32(s).Failure? ==> r == DecodeU32(s)
  {
    var p :- DecodeU32(s);
    if p.value > max then Failure(BoundExceeded(p.value, max)) else Success(p)
  }

  /** Number of bytes `Encode` uses for values below `0x80` to the `k`. */
  function Pow128(k: nat): nat {
    if k == 0 then 1 else 0x80 * Pow128(k - 1)
  }

  lemma {:induction false} EncodeLengthBound(n: nat, k: nat)
    requires 1 <= k && n < Pow128(k)
    ensures |Encode(n)| <= k
    decreases k
  {
    if n >= 0x80 {
      EncodeLengthBound(n / 0x80, k - 1);
    }
  }

  /** Every `u32` encodes in at most five bytes. */
  lemma EncodeLengthU32(n: nat)
    requires n <= U32_MAX
    ensures |Encode(n)| <= U32_MAX_BYTES
  {
    assert Pow128(5) == 0x8_0000_0000 by {
      assert Pow128(1) == 0x80;
      assert Pow128(2) == 0x4000;
      assert Pow128(3) == 0x20_0000;
      assert Pow128(4) == 0x1000_0000;
    }
    EncodeLengthBound(n, 5);
  }

  lemma {:induction false} DecodeGroupsEncode(n: nat, rest: seq<byte>, leading: bool, budget: nat)
    requires 1 <= budget && |Encode(n)| <= budget
    requires leading || n > 0
    ensures DecodeGroups(Encode(n) + rest, leading, budget) == Success(Parsed(n, |Encode(n)|))
    decreases n
  {
    var s := Encode(n) + rest;
    if n < 0x80 {
      assert s[0] == n;
    } else {
      var t := Encode(n / 0x80);
      assert s == [0x80 + n % 0x80] + (t + rest);
      assert s[1..] == t + rest;
      DecodeGroupsEncode(n / 0x80, rest, false, budget - 1);
      assert s[0] - 0x80 + 0x80 * (n / 0x80) == n;
    }
  }

  /** Reading back an encoded `u32` gives the value and the encoding's length, whatever follows. */
  lemma DecodeEncode(n: nat, rest: seq<byte>)
    requires n <= U32_MAX
    ensures DecodeU32(Encode(n) + rest) == Success(Parsed(n, |Encode(n)|))
  {
    EncodeLengthU32(n);
    DecodeGroupsEncode(n, rest, true, U32_MAX_BYTES);
  }

  lemma {:induction false} DecodeGroupsPrefix(n: nat, s: seq<byte>, leading: bool, budget: nat)
    requires 1 <= budget && |Encode(n)| <= budget
    requires s < Encode(n)
    ensures DecodeGroups(s, leading, budget) == Failure(Truncated)
    decreases n
  {
    var e := Encode(n);
    if |s| > 0 {
      assert s[0] == e[0];
      var t := Encode(n / 0x80);
      assert e == [0x80 + n % 0x80] + t;
      assert s[1..] < t by {
        assert s[1..] == t[..|s| - 1];
      }
      DecodeGroupsPrefix(n / 0x80, s[1..], false, budget - 1);
    }
  }

  /** A strict prefix of an encoded `u32` is refused as truncated. */
  lemma DecodeStrictPrefix(n: nat, s: seq<byte>)
    requires n <= U32_MAX
    requires s < Encode(n)
    ensures DecodeU32(s) == Failure(Truncated)
  {
    EncodeLengthU32(n);
    DecodeGroupsPrefix(n, s, true, U32_MAX_BYTES);
  }
}
