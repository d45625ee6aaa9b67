/**
 * The domain objects the message codec composes but does not define, and
 * the interface their codecs offer. The objects are opaque; their codecs
 * are values of the records below, and what the message codec relies on
 * is stated as predicates over those records.
 */
module Collaborators {
  import opened Ints
  import opened Wrappers
  import opened Outcomes

  type PublicKey(==, !new)
  type Signature(==, !new)
  type BlockId(==, !new)
  type OperationId(==, !new)
  type Version(==, !new)
  type Block(==, !new)
  type BlockHeader(==, !new)
  type IpAddr(==, !new)
  type Operation(==, !new)
  type Endorsement(==, !new)

  /**
   * A fixed-width value: `to_bytes` gives the bytes with no length prefix,
   * `from_bytes` checks exactly `width` bytes and may refuse them.
   */
  datatype FixedCodec<!T> = FixedCodec(
    width: nat,
    toBytes: T -> seq<byte>,
    fromBytes: seq<byte> -> Option<T>)

  /**
   * A compact codec: `to_bytes_compact` may fail, `from_bytes_compact`
   * reads from the front of a buffer and reports how many bytes it took.
   */
  datatype CompactCodec<!T> = CompactCodec(
    encode: T -> Encoded,
    decode: seq<byte> -> Decoded<T>)

  ghost predicate FixedRoundTrips<T(!new)>(c: FixedCodec<T>) {
    && (forall x :: |c.toBytes(x)| == c.width)
    && (forall x :: c.fromBytes(c.toBytes(x)) == Some(x))
  }

  /** The decoder never claims more bytes than it was given, and never panics. */
  ghost predicate CompactSound<T(!new)>(c: CompactCodec<T>) {
    forall b ::
      && (c.decode(b).Success? ==> c.decode(b).value.cursor <= |b|)
      && c.decode(b) != Failure(SliceOutOfRange)
  }

  /** Whatever follows an encoding, decoding gives back the object and the encoding's length. */
  ghost predicate CompactRoundTrips<T(!new)>(c: CompactCodec<T>) {
    forall x, rest :: c.encode(x).Success? ==>
      c.decode(c.encode(x).value + rest) == Success(Parsed(x, |c.encode(x).value|))
  }

  /** A strict prefix of an encoding is refused as cut short: the encoding carries its own length. */
  ghost predicate CompactRefusesPrefixes<T(!new)>(c: CompactCodec<T>) {
    forall x, k :: c.encode(x).Success? && 0 <= k < |c.encode(x).value| ==> c.decode(c.encode(x).value[..k]) == Failure(Truncated)
  }

  type OperationMap = map<OperationId, Option<Operation>>
  type OperationEntry = (OperationId, Option<Operation>)

  /** The keys a sequence of entries mentions. */
  function EntryKeys(es: seq<OperationEntry>): set<OperationId> {
    set i | 0 <= i < |es| :: es[i].0
  }

  /** The keys of a non-empty entry list: its head's and its tail's. */
  lemma EntryKeysCons(es: seq<OperationEntry>)
    requires |es| > 0
    ensures EntryKeys(es) == {es[0].0} + EntryKeys(es[1..])
  {
    forall k | k in EntryKeys(es) ensures k in {es[0].0} + EntryKeys(es[1..]) {
      var i :| 0 <= i < |es| && es[i].0 == k;
      if i > 0 { assert es[1..][i - 1].0 == k; }
    }
    forall k | k in EntryKeys(es[1..]) ensures k in EntryKeys(es) {
      var i :| 0 <= i < |es[1..]| && es[1..][i].0 == k;
      assert es[i + 1].0 == k;
    }
  }

  /** A list of entries names at most as many keys as it has entries. */
  lemma {:induction false} EntryKeysSize(es: seq<OperationEntry>)
    ensures |EntryKeys(es)| <= |es|
    decreases |es|
  {
    if |es| > 0 {
      EntryKeysCons(es);
      EntryKeysSize(es[1..]);
    }
  }

  /** `es` lists each entry of `m` exactly once, as `HashMap::iter` does. */
  ghost predicate Enumerates(es: seq<OperationEntry>, m: OperationMap) {
    && |es| == |m|
    && EntryKeys(es) == m.Keys
    && (forall i :: 0 <= i < |es| ==> es[i].0 in m && m[es[i].0] == es[i].1)
    && (forall i, j :: 0 <= i < j < |es| ==> es[i].0 != es[j].0)
  }

  /** All collaborator codecs the message codec uses, plus the iteration order of `HashMap`. */
  datatype Codecs = Codecs(
    publicKey: FixedCodec<PublicKey>,
    signature: FixedCodec<Signature>,
    blockId: FixedCodec<BlockId>,
    operationId: FixedCodec<OperationId>,
    version: CompactCodec<Version>,
    block: CompactCodec<Block>,
    header: CompactCodec<BlockHeader>,
    ip: CompactCodec<IpAddr>,
    operation: CompactCodec<Operation>,
    endorsement: CompactCodec<Endorsement>,
    entries: OperationMap -> seq<OperationEntry>)

  /** The compact decoders stay inside their buffers. */
  ghost predicate Sound(cs: Codecs) {
    && CompactSound(cs.version)
    && CompactSound(cs.block)
    && CompactSound(cs.header)
    && CompactSound(cs.ip)
    && CompactSound(cs.operation)
    && CompactSound(cs.endorsement)
  }

  /** Every compact codec refuses its own encodings cut short. */
  ghost predicate RefusesPrefixes(cs: Codecs) {
    && CompactRefusesPrefixes(cs.version)
    && CompactRefusesPrefixes(cs.block)
    && CompactRefusesPrefixes(cs.header)
    && CompactRefusesPrefixes(cs.ip)
    && CompactRefusesPrefixes(cs.operation)
    && CompactRefusesPrefixes(cs.endorsement)
  }

  /** Every collaborator codec gives back what it wrote. */
  ghost predicate RoundTrips(cs: Codecs) {
    && FixedRoundTrips(cs.publicKey)
    && FixedRoundTrips(cs.signature)
    && FixedRoundTrips(cs.blockId)
    && FixedRoundTrips(cs.operationId)
    && CompactRoundTrips(cs.version)
    && CompactRoundTrips(cs.block)
    && CompactRoundTrips(cs.header)
    && CompactRoundTrips(cs.ip)
    && CompactRoundTrips(cs.operation)
    && CompactRoundTrips(cs.endorsement)
  }
}
