/**
 * What `from_bytes_compact` refuses (massa-network-worker/src/messages.rs):
 * an empty buffer, a discriminant outside the registry, and a leading
 * count above the maximum the serialization context sets for its field.
 * The count is refused as soon as it is read, whatever follows it.
 */
module DecodeLimits {
  import opened Ints
  import opened Wrappers
  import opened Outcomes
  import opened Collaborators
  import opened Messages
  import opened Decoder
  import opened ReaderLemmas
  import MessageTypes
  import VarInt

  /** The context maximum a type's leading count is checked against; `None` for types without a count. */
  function BoundFor(t: MessageTypes.MessageTypeId, ctx: Context): Option<u32> {
    match t
    case AskForBlocks => Some(ctx.maxAskBlocks)
    case PeerList => Some(ctx.maxPeerList)
    case Operations => Some(ctx.maxOperations)
    case AskForOperation => Some(ctx.maxOperations)
    case OperationsBatch => Some(ctx.maxOperations)
    case Endorsements => Some(ctx.maxEndorsements)
    case _ => None
  }

  /** The size of a message's counted collection, for the types that carry one. */
  function CountOf(m: Message): Option<nat> {
    match m
    case AskForBlocks(ids) => Some(|ids|)
    case PeerList(ips) => Some(|ips|)
    case OperationsBatch(ids) => Some(|ids|)
    case AskForOperations(ids) => Some(|ids|)
    case Operations(ops) => Some(|ops|)
    case Endorsements(es) => Some(|es|)
    case _ => None
  }

  /**
   * The table of bounds agrees with the context predicate: a message is
   * within the context exactly when its count, if it has one, is at most
   * its type's bound.
   */
  lemma BoundsMatchContext(m: Message, ctx: Context)
    ensures CountOf(m).Some? <==> BoundFor(TypeOf(m), ctx).Some?
    ensures WithinContext(m, ctx) <==> (CountOf(m).None? || CountOf(m).value <= BoundFor(TypeOf(m), ctx).value)
  {
    match m
    case AskForBlocks(_) =>
    case PeerList(_) =>
    case OperationsBatch(_) =>
    case AskForOperations(_) =>
    case Operations(_) =>
    case Endorsements(_) =>
    case HandshakeInitiation(_, _, _) =>
    case HandshakeReply(_) =>
    case Block(_) =>
    case BlockHeader(_) =>
    case AskPeerList =>
    case BlockNotFound(_) =>
  }

  /** A decode whose discriminant names a type and whose payload fails, fails with the payload's error. */
  lemma DecodeWithPayloadFailure(buf: seq<byte>, ctx: Context, cs: Codecs, tag: TagFormat, n: u32, t: MessageTypes.MessageTypeId, s: seq<byte>, e: CodecError)
    requires ReadVarIntU32(buf) == Success(Taken(n, s))
    requires MessageTypes.FromU32(n) == Some(t)
    requires DecodePayload(s, t, ctx, cs, tag).Failure? && DecodePayload(s, t, ctx, cs, tag).error == e
    ensures DecodeWith(buf, ctx, cs, tag).Failure?
    ensures DecodeWith(buf, ctx, cs, tag).error == e
  {
  }

  /** Every payload with a leading count fails when that count is refused. */
  lemma PayloadCountRefused(s: seq<byte>, t: MessageTypes.MessageTypeId, ctx: Context, cs: Codecs, tag: TagFormat)
    requires BoundFor(t, ctx).Some?
    requires ReadBoundedU32(s, BoundFor(t, ctx).value).Failure?
    ensures DecodePayload(s, t, ctx, cs, tag).Failure?
    ensures DecodePayload(s, t, ctx, cs, tag).error == ReadBoundedU32(s, BoundFor(t, ctx).value).error
  {
    match t
    case AskForBlocks =>
    case PeerList =>
    case Operations =>
      assert DecodePayload(s, t, ctx, cs, tag) == DecodeOperations(s, ctx, cs, tag);
    case AskForOperation =>
    case OperationsBatch =>
    case Endorsements =>
  }

  /**
   * A count above the type's maximum is refused with `BoundExceeded`,
   * whatever bytes follow it: nothing is allocated or read on its behalf.
   */
  lemma CountAboveBoundRefused(t: MessageTypes.MessageTypeId, ctx: Context, cs: Codecs, tag: TagFormat, n: nat, rest: seq<byte>)
    requires BoundFor(t, ctx).Some? && BoundFor(t, ctx).value < n <= U32_MAX
    ensures DecodeWith(VarInt.Encode(MessageTypes.ToU32(t)) + (VarInt.Encode(n) + rest), ctx, cs, tag).Failure?
    ensures DecodeWith(VarInt.Encode(MessageTypes.ToU32(t)) + (VarInt.Encode(n) + rest), ctx, cs, tag).error
            == BoundExceeded(n, BoundFor(t, ctx).value)
  {
    var s := VarInt.Encode(n) + rest;
    var max := BoundFor(t, ctx).value;
    ReadVarIntEncoded(MessageTypes.ToU32(t), s);
    ReadVarIntEncoded(n, rest);
    assert ReadBoundedU32(s, max) == Failure(BoundExceeded(n, max));
    PayloadCountRefused(s, t, ctx, cs, tag);
    MessageTypes.TypeIdRoundTrip(t);
    DecodeWithPayloadFailure(VarInt.Encode(MessageTypes.ToU32(t)) + s, ctx, cs, tag, MessageTypes.ToU32(t), t, s, BoundExceeded(n, max));
  }

  /** A discriminant outside the registry is refused, whatever follows it. */
  lemma UnknownTypeRefused(n: nat, rest: seq<byte>, ctx: Context, cs: Codecs, tag: TagFormat)
    requires MessageTypes.TYPE_COUNT <= n <= U32_MAX
    ensures DecodeWith(VarInt.Encode(n) + rest, ctx, cs, tag).Failure?
    ensures DecodeWith(VarInt.Encode(n) + rest, ctx, cs, tag).error == UnknownMessageType(n)
  {
    VarInt.DecodeEncode(n, rest);
  }

  /** An empty buffer has no discriminant to read. */
  lemma EmptyRefused(ctx: Context, cs: Codecs, tag: TagFormat)
    ensures DecodeWith([], ctx, cs, tag).Failure?
    ensures DecodeWith([], ctx, cs, tag).error == Truncated
  {
    assert VarInt.DecodeU32([]) == Failure(Truncated);
  }
}
