/**
 * What the message codec promises as a whole: with collaborators that keep
 * their own round trips, decoding an encoding gives the message back and
 * consumes exactly its bytes, whatever follows it.
 */
module CodecProofs {
  import opened Ints
  import opened Wrappers
  import opened Outcomes
  import opened Collaborators
  import opened Messages
  import opened Encoder
  import opened Decoder
  import opened ReaderLemmas
  import MessageTypes
  import VarInt

  lemma ReadNonceEncoded(n: Nonce, rest: seq<byte>)
    ensures ReadNonce(n + rest) == Success(Taken(n, rest))
  {
    DropFront(n, rest);
  }

  lemma HandshakeInitiationRoundTrip(m: Message, ctx: Context, cs: Codecs, rest: seq<byte>)
    requires FixedRoundTrips(cs.publicKey) && CompactRoundTrips(cs.version) && m.HandshakeInitiation? && EncodePayload(m, cs).Success?
    ensures DecodeHandshakeInitiation(EncodePayload(m, cs).value + rest, ctx, cs) == Success(Taken(m, rest))
  {
    var pk := cs.publicKey.toBytes(m.publicKey);
    var vb := cs.version.encode(m.version).value;
    assert EncodePayload(m, cs).value + rest == pk + (m.randomBytes + (vb + rest));
    ReadFixedEncoded(cs.publicKey, m.publicKey, m.randomBytes + (vb + rest));
    ReadNonceEncoded(m.randomBytes, vb + rest);
    ReadCompactEncoded(cs.version, m.version, rest);
  }

  lemma AskForBlocksRoundTrip(m: Message, ctx: Context, cs: Codecs, rest: seq<byte>)
    requires FixedRoundTrips(cs.blockId) && m.AskForBlocks? && WithinContext(m, ctx) && EncodePayload(m, cs).Success?
    ensures DecodeAskForBlocks(EncodePayload(m, cs).value + rest, ctx, cs) == Success(Taken(m, rest))
  {
    var body := ConcatFixed(cs.blockId, m.blockIds);
    assert EncodePayload(m, cs).value + rest == VarInt.Encode(|m.blockIds|) + (body + rest);
    ReadBoundedEncoded(|m.blockIds|, ctx.maxAskBlocks, body + rest);
    ReadFixedListEncoded(cs.blockId, m.blockIds, rest);
  }

  lemma PeerListRoundTrip(m: Message, ctx: Context, cs: Codecs, rest: seq<byte>)
    requires CompactRoundTrips(cs.ip) && m.PeerList? && WithinContext(m, ctx) && EncodePayload(m, cs).Success?
    ensures DecodePeerList(EncodePayload(m, cs).value + rest, ctx, cs) == Success(Taken(m, rest))
  {
    var body := EncodeAll(cs.ip, m.peers).value;
    assert AsU64(|m.peers|) == |m.peers|;
    assert EncodePayload(m, cs).value + rest == VarInt.Encode(|m.peers|) + (body + rest);
    ReadBoundedEncoded(|m.peers|, ctx.maxPeerList, body + rest);
    ReadCompactListEncoded(cs.ip, m.peers, rest);
  }

  lemma OperationIdsRoundTrip(ids: seq<OperationId>, max: u32, cs: Codecs, rest: seq<byte>)
    requires FixedRoundTrips(cs.operationId) && |ids| <= max
    ensures DeserializeOperationIds(SerializeOperationIds(ids, cs).value + rest, max, cs) == Success(Taken(ids, rest))
  {
    var body := ConcatFixed(cs.operationId, ids);
    assert SerializeOperationIds(ids, cs).value + rest == VarInt.Encode(|ids|) + (body + rest);
    ReadBoundedEncoded(|ids|, max, body + rest);
    ReadFixedListEncoded(cs.operationId, ids, rest);
  }

  lemma OperationsRoundTrip(m: Message, ctx: Context, cs: Codecs, rest: seq<byte>)
    requires m.Operations? && FixedRoundTrips(cs.operationId) && CompactRoundTrips(cs.operation)
    requires |cs.entries(m.operations)| == |m.operations| && InsertAll(map[], cs.entries(m.operations)) == m.operations
    requires WithinContext(m, ctx) && EncodePayload(m, cs).Success?
    ensures DecodeOperations(EncodePayload(m, cs).value + rest, ctx, cs, BigEndianTag) == Success(Taken(m, rest))
  {
    var es := cs.entries(m.operations);
    var body := EncodeEntries(es, cs).value;
    assert AsU32(|m.operations|) == |es|;
    assert EncodePayload(m, cs).value + rest == VarInt.Encode(|es|) + (body + rest);
    ReadBoundedEncoded(|es|, ctx.maxOperations, body + rest);
    ReadEntriesEncoded(cs, es, rest);
  }

  lemma EndorsementsRoundTrip(m: Message, ctx: Context, cs: Codecs, rest: seq<byte>)
    requires CompactRoundTrips(cs.endorsement) && m.Endorsements? && WithinContext(m, ctx) && EncodePayload(m, cs).Success?
    ensures DecodeEndorsements(EncodePayload(m, cs).value + rest, ctx, cs) == Success(Taken(m, rest))
  {
    var body := EncodeAll(cs.endorsement, m.endorsements).value;
    assert AsU32(|m.endorsements|) == |m.endorsements|;
    assert EncodePayload(m, cs).value + rest == VarInt.Encode(|m.endorsements|) + (body + rest);
    ReadBoundedEncoded(|m.endorsements|, ctx.maxEndorsements, body + rest);
    ReadCompactListEncoded(cs.endorsement, m.endorsements, rest);
  }

  /** The payload of `m`, followed by anything, reads back as `m` and leaves that anything. */
  ghost predicate PayloadRoundTrips(m: Message, ctx: Context, cs: Codecs, rest: seq<byte>)
    requires EncodePayload(m, cs).Success?
  {
    var r := DecodePayload(EncodePayload(m, cs).value + rest, TypeOf(m), ctx, cs, BigEndianTag);
    r.Success? && r.value.value == m && r.value.rest == rest
  }

  /** Each payload reader undoes the matching payload writer and leaves what follows. */
  lemma PayloadRoundTrip(m: Message, ctx: Context, cs: Codecs, rest: seq<byte>)
    requires RoundTrips(cs) && (m.Operations? ==> Enumerates(cs.entries(m.operations), m.operations))
    requires WithinContext(m, ctx) && EncodePayload(m, cs).Success?
    ensures PayloadRoundTrips(m, ctx, cs, rest)
  {
    var s := EncodePayload(m, cs).value + rest;
    PayloadDispatch(s, TypeOf(m), ctx, cs, BigEndianTag);
    match m
    case HandshakeInitiation(_, _, _) => HandshakeInitiationRoundTrip(m, ctx, cs, rest);
    case HandshakeReply(sig) => ReadFixedEncoded(cs.signature, sig, rest);
    case Block(b) => ReadCompactEncoded(cs.block, b, rest);
    case BlockHeader(h) => ReadCompactEncoded(cs.header, h, rest);
    case AskForBlocks(_) => AskForBlocksRoundTrip(m, ctx, cs, rest);
    case AskPeerList => assert s == rest;
    case PeerList(_) => PeerListRoundTrip(m, ctx, cs, rest);
    case BlockNotFound(id) => ReadFixedEncoded(cs.blockId, id, rest);
    case OperationsBatch(ids) => OperationIdsRoundTrip(ids, ctx.maxOperations, cs, rest);
    case AskForOperations(ids) => OperationIdsRoundTrip(ids, ctx.maxOperations, cs, rest);
    case Operations(ops) =>
      InsertAllEnumeration(cs.entries(ops), ops);
      OperationsRoundTrip(m, ctx, cs, rest);
    case Endorsements(_) => EndorsementsRoundTrip(m, ctx, cs, rest);
  }

  /** A decode is the discriminant's varint, then the payload of the type it names. */
  lemma DecodeWithPayload(buf: seq<byte>, ctx: Context, cs: Codecs, tag: TagFormat, n: u32, t: MessageTypes.MessageTypeId, s: seq<byte>, m: Message, rest: seq<byte>)
    requires ReadVarIntU32(buf) == Success(Taken(n, s))
    requires MessageTypes.FromU32(n) == Some(t)
    requires DecodePayload(s, t, ctx, cs, tag).Success?
    requires DecodePayload(s, t, ctx, cs, tag).value.value == m && DecodePayload(s, t, ctx, cs, tag).value.rest == rest
    ensures DecodeWith(buf, ctx, cs, tag).Success?
    ensures DecodeWith(buf, ctx, cs, tag).value.value == m
    ensures DecodeWith(buf, ctx, cs, tag).value.cursor == |buf| - |rest|
  {
  }

  /**
   * The codec's round trip: a message within the context, encoded and
   * followed by anything, decodes to itself and the returned cursor is the
   * length of its encoding.
   */
  lemma RoundTrip(m: Message, ctx: Context, cs: Codecs, rest: seq<byte>)
    requires RoundTrips(cs) && (m.Operations? ==> Enumerates(cs.entries(m.operations), m.operations))
    requires WithinContext(m, ctx) && Encode(m, cs).Success?
    ensures Decode(Encode(m, cs).value + rest, ctx, cs) == Success(Parsed(m, |Encode(m, cs).value|))
  {
    var payload := EncodePayload(m, cs).value;
    var buf := Encode(m, cs).value + rest;
    assert buf == TypeTag(m) + (payload + rest);
    ReadVarIntEncoded(MessageTypes.ToU32(TypeOf(m)), payload + rest);
    PayloadRoundTrip(m, ctx, cs, rest);
    MessageTypes.TypeIdRoundTrip(TypeOf(m));
    DecodeWithPayload(buf, ctx, cs, BigEndianTag, MessageTypes.ToU32(TypeOf(m)), TypeOf(m), payload + rest, m, rest);
    var r := Decode(buf, ctx, cs);
    assert r.Success? && r.value.value == m && r.value.cursor == |Encode(m, cs).value|;
  }
}
