/**
 * The message encoder (`to_bytes_compact`, `serialize_operation_ids` and
 * `serialize_operation_opt_map`, massa-network-worker/src/messages.rs).
 * Every encoding is the varint of the message's discriminant followed by
 * the variant's payload.
 */
module Encoder {
  import opened Ints
  import opened Wrappers
  import opened Outcomes
  import opened Collaborators
  import opened Messages
  import MessageTypes
  import VarInt

  /** Fixed-width values side by side, with no separators. */
  function ConcatFixed<T(!new)>(c: FixedCodec<T>, xs: seq<T>): (r: seq<byte>)
    ensures FixedRoundTrips(c) ==> |r| == |xs| * c.width
  {
    if |xs| == 0 then [] else c.toBytes(xs[0]) + ConcatFixed(c, xs[1..])
  }

  /** Every element before the `i`-th encodes: the `i`-th is the first to fail, if it fails. */
  ghost predicate FirstFailure<T>(encode: T -> Encoded, xs: seq<T>, i: nat)
    requires i <= |xs|
  {
    forall j :: 0 <= j < i ==> encode(xs[j]).Success?
  }

  /** Compact encodings side by side; the first failing element's error is returned. */
  function EncodeAll<T>(c: CompactCodec<T>, xs: seq<T>): (r: Encoded)
    ensures r.Success? <==> forall i :: 0 <= i < |xs| ==> c.encode(xs[i]).Success?
    ensures r.Failure? ==> exists i :: 0 <= i < |xs| && c.encode(xs[i]) == Failure(r.error) && FirstFailure(c.encode, xs, i)
  {
    if |xs| == 0 then Success([])
    else
      var head :- c.encode(xs[0]);
      var tail :- EncodeAll(c, xs[1..]);
      Success(head + tail)
  }

  /** The tag written before an optional operation: 4 big-endian bytes, 1 if present, 0 if absent. */
  function PresenceTag(opt: Option<Operation>): (r: seq<byte>)
    ensures |r| == 4
  {
    if opt.Some? then [0, 0, 0, 1] else [0, 0, 0, 0]
  }

  /** The presence tag is `1u32` or `0u32` in big-endian order. */
  lemma PresenceTagBigEndian(opt: Option<Operation>)
    ensures PresenceTag(opt) == ToBigEndian(if opt.Some? then 1 else 0)
    ensures FromBigEndian(PresenceTag(opt)) == if opt.Some? then 1 else 0
  {
  }

  /** One map entry: the id, the presence tag, then the operation if there is one. */
  function EncodeEntry(e: OperationEntry, cs: Codecs): (r: Encoded)
    ensures r.Success? <==> e.1.None? || cs.operation.encode(e.1.value).Success?
  {
    match e.1
    case None => Success(cs.operationId.toBytes(e.0) + PresenceTag(None))
    case Some(op) =>
      var body :- cs.operation.encode(op);
      Success(cs.operationId.toBytes(e.0) + PresenceTag(e.1) + body)
  }

  /** The entries in the order given. */
  function EncodeEntries(es: seq<OperationEntry>, cs: Codecs): (r: Encoded)
    ensures r.Success? <==> forall i :: 0 <= i < |es| ==> EncodeEntry(es[i], cs).Success?
    ensures r.Failure? ==> exists i :: 0 <= i < |es| && EncodeEntry(es[i], cs) == Failure(r.error) && FirstFailure(e => EncodeEntry(e, cs), es, i)
  {
    if |es| == 0 then Success([])
    else
      var head :- EncodeEntry(es[0], cs);
      var tail :- EncodeEntries(es[1..], cs);
      Success(head + tail)
  }

  /** `serialize_operation_opt_map`: the count, truncated by `as u32`, then each entry in iteration order. */
  function SerializeOperationOptMap(ops: OperationMap, cs: Codecs): (r: Encoded)
    ensures r.Success? ==> VarInt.Encode(AsU32(|ops|)) <= r.value
  {
    var body :- EncodeEntries(cs.entries(ops), cs);
    Success(VarInt.Encode(AsU32(|ops|)) + body)
  }

  /** `serialize_operation_ids`: a count that must fit in a `u32`, then the ids. */
  function SerializeOperationIds(ids: seq<OperationId>, cs: Codecs): (r: Encoded)
    ensures r.Failure? <==> |ids| > U32_MAX
    ensures r.Failure? ==> r.error == LengthOverflow
    ensures r.Success? ==> VarInt.Encode(|ids|) <= r.value
    ensures r.Success? && FixedRoundTrips(cs.operationId) ==>
              |r.value| == |VarInt.Encode(|ids|)| + |ids| * cs.operationId.width
  {
    if |ids| > U32_MAX then Failure(LengthOverflow)
    else Success(VarInt.Encode(|ids|) + ConcatFixed(cs.operationId, ids))
  }

  /** The varint of a variant's discriminant: the first bytes of its encoding. */
  function TypeTag(m: Message): seq<byte> {
    VarInt.Encode(MessageTypes.ToU32(TypeOf(m)))
  }

  /** Every discriminant is below `0x80`, so its varint is the single byte of its value. */
  lemma TypeTagByte(m: Message)
    ensures TypeTag(m) == [MessageTypes.ToU32(TypeOf(m))]
  {
    assert MessageTypes.ToU32(TypeOf(m)) < 0x80;
  }

  /**
   * The bytes after the discriminant. Of the three list counts, only
   * `AskForBlocks` refuses a list longer than `u32::MAX`; `Endorsements`
   * and `Operations` write the count `as u32`, and `PeerList` `as u64`.
   */
  function EncodePayload(m: Message, cs: Codecs): (r: Encoded)
    ensures m.AskPeerList? ==> r == Success([])
    ensures m.AskForBlocks? ==> (r.Failure? <==> |m.blockIds| > U32_MAX)
    ensures m.AskForBlocks? && r.Failure? ==> r.error == LengthOverflow
    ensures m.AskForBlocks? && r.Success? ==> VarInt.Encode(|m.blockIds|) <= r.value
    ensures m.AskForBlocks? && r.Success? && FixedRoundTrips(cs.blockId) ==>
              |r.value| == |VarInt.Encode(|m.blockIds|)| + |m.blockIds| * cs.blockId.width
    ensures (m.AskForOperations? || m.OperationsBatch?) ==> (r.Failure? <==> |m.operationIds| > U32_MAX)
    ensures m.PeerList? ==> (r.Success? <==> EncodeAll(cs.ip, m.peers).Success?)
    ensures m.PeerList? && r.Success? ==> VarInt.Encode(AsU64(|m.peers|)) <= r.value
    ensures m.Endorsements? ==> (r.Success? <==> EncodeAll(cs.endorsement, m.endorsements).Success?)
    ensures m.Endorsements? && r.Success? ==> VarInt.Encode(AsU32(|m.endorsements|)) <= r.value
    ensures m.Operations? ==> (r.Success? <==> EncodeEntries(cs.entries(m.operations), cs).Success?)
    ensures m.Operations? && r.Success? ==> VarInt.Encode(AsU32(|m.operations|)) <= r.value
  {
    match m
    case HandshakeInitiation(pk, rb, v) =>
      var vb :- cs.version.encode(v);
      Success(cs.publicKey.toBytes(pk) + rb + vb)
    case HandshakeReply(sig) => Success(cs.signature.toBytes(sig))
    case Block(b) => cs.block.encode(b)
    case BlockHeader(h) => cs.header.encode(h)
    case AskForBlocks(ids) =>
      if |ids| > U32_MAX then Failure(LengthOverflow)
      else Success(VarInt.Encode(|ids|) + ConcatFixed(cs.blockId, ids))
    case AskPeerList => Success([])
    case PeerList(ips) =>
      var body :- EncodeAll(cs.ip, ips);
      Success(VarInt.Encode(AsU64(|ips|)) + body)
    case BlockNotFound(id) => Success(cs.blockId.toBytes(id))
    case AskForOperations(ids) => SerializeOperationIds(ids, cs)
    case OperationsBatch(ids) => SerializeOperationIds(ids, cs)
    case Operations(ops) => SerializeOperationOptMap(ops, cs)
    case Endorsements(es) =>
      var body :- EncodeAll(cs.endorsement, es);
      Success(VarInt.Encode(AsU32(|es|)) + body)
  }

  /** `Message::to_bytes_compact`. */
  function Encode(m: Message, cs: Codecs): (r: Encoded)
    ensures r.Success? ==> TypeTag(m) <= r.value
    ensures r.Success? <==> EncodePayload(m, cs).Success?
    ensures r.Success? ==> r.value[|TypeTag(m)|..] == EncodePayload(m, cs).value
    ensures m.AskPeerList? ==> r == Success([5])
  {
    TypeTagByte(m);
    assert m.AskPeerList? ==> TypeTag(m) + EncodePayload(m, cs).value == [5];
    var payload :- EncodePayload(m, cs);
    Success(TypeTag(m) + payload)
  }

  /** An `AskForBlocks` of up to `u32::MAX` ids is one tag byte, the count, and the ids. */
  lemma AskForBlocksLength(ids: seq<BlockId>, cs: Codecs)
    requires |ids| <= U32_MAX && FixedRoundTrips(cs.blockId)
    ensures Encode(AskForBlocks(ids), cs).Success?
    ensures |Encode(AskForBlocks(ids), cs).value| == 1 + |VarInt.Encode(|ids|)| + |ids| * cs.blockId.width
  {
    TypeTagByte(AskForBlocks(ids));
  }

  /** The discriminant of `Endorsements` is the single byte 9. */
  lemma EndorsementsTag(es: seq<Endorsement>)
    ensures TypeTag(Endorsements(es)) == [9]
  {
    TypeTagByte(Endorsements(es));
  }

  /**
   * More than `u32::MAX` items: `AskForBlocks` refuses them, while
   * `Endorsements` encodes them under a count that is not the list's length.
   */
  lemma OversizedCounts(ids: seq<BlockId>, es: seq<Endorsement>, cs: Codecs)
    requires |ids| > U32_MAX && |es| > U32_MAX
    requires EncodeAll(cs.endorsement, es).Success?
    ensures Encode(AskForBlocks(ids), cs) == Failure(LengthOverflow)
    ensures Encode(Endorsements(es), cs).Success?
    ensures Encode(Endorsements(es), cs).value[0] == 9
    ensures VarInt.Encode(|es| % U32_LIMIT) <= Encode(Endorsements(es), cs).value[1..]
    ensures |es| % U32_LIMIT != |es|
  {
    var m := Endorsements(es);
    EndorsementsTag(es);
    assert TypeTag(m) <= Encode(m, cs).value;
    assert AsU32(|es|) == |es| % U32_LIMIT != |es|;
    var payload := EncodePayload(m, cs).value;
    assert VarInt.Encode(|es| % U32_LIMIT) <= payload;
  }
}
