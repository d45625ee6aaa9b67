/**
 * The message decoder (`from_bytes_compact`, `deserialize_operation_ids`
 * and `derialize_operation_opt_map`, massa-network-worker/src/messages.rs).
 * The source walks a cursor through an untrusted buffer and hands
 * `&buffer[cursor..]` to each field's reader; here each reader is given
 * that remainder and hands back what is left after its field. A reader
 * that reports having consumed more than it was given would make the
 * source's next `&buffer[cursor..]` panic; that is the error
 * `SliceOutOfRange` here.
 */
module Decoder {
  import opened Ints
  import opened Wrappers
  import opened Outcomes
  import opened Collaborators
  import opened Messages
  import MessageTypes
  import VarInt

  /**
   * How the presence tag of an `Operations` entry is read: the source reads
   * a varint, although the encoder writes four big-endian bytes.
   */
  datatype TagFormat = VarIntTag | BigEndianTag

  /** `cursor += delta` followed by the next `&buffer[cursor..]`. */
  function Skip<T>(s: seq<byte>, p: Parsed<T>): (r: Read<T>)
    ensures r.Success? <==> p.cursor <= |s|
    ensures r.Success? ==> r.value.value == p.value && |r.value.rest| == |s| - p.cursor
    ensures r.Failure? ==> r.error == SliceOutOfRange
  {
    if p.cursor > |s| then Failure(SliceOutOfRange) else Success(Taken(p.value, s[p.cursor..]))
  }

  /** `u32::from_varint_bytes(&buffer[cursor..])`. */
  function ReadVarIntU32(s: seq<byte>): (r: Read<u32>)
    ensures r.Success? ==> |r.value.rest| < |s|
    ensures r.Failure? ==> r.error != SliceOutOfRange
  {
    var p :- VarInt.DecodeU32(s);
    Skip(s, p)
  }

  /** `u32::from_varint_bytes_bounded(&buffer[cursor..], max)`. */
  function ReadBoundedU32(s: seq<byte>, max: u32): (r: Read<u32>)
    ensures r.Success? ==> r.value.value <= max && r == ReadVarIntU32(s)
    ensures r.Failure? ==> r.error != SliceOutOfRange
    ensures ReadVarIntU32(s).Success? && ReadVarIntU32(s).value.value > max ==>
              r == Failure(BoundExceeded(ReadVarIntU32(s).value.value, max))
  {
    var p :- VarInt.DecodeBoundedU32(s, max);
    Skip(s, p)
  }

  /** `T::from_bytes(&array_from_slice(&buffer[cursor..])?)`: exactly `width` bytes. */
  function ReadFixed<T>(s: seq<byte>, codec: FixedCodec<T>): (r: Read<T>)
    ensures r.Success? ==> |s| >= codec.width && r.value.rest == s[codec.width..]
    ensures r.Success? ==> codec.fromBytes(s[..codec.width]) == Some(r.value.value)
    ensures |s| < codec.width ==> r.Failure? && r.error == Truncated
    ensures r.Failure? ==> r.error != SliceOutOfRange
  {
    if |s| < codec.width then Failure(Truncated)
    else
      match codec.fromBytes(s[..codec.width])
      case None => Failure(InvalidBytes)
      case Some(x) => Success(Taken(x, s[codec.width..]))
  }

  /** The handshake nonce: `array_from_slice` of 32 bytes. */
  function ReadNonce(s: seq<byte>): (r: Read<Nonce>)
    ensures r.Success? ==> s == r.value.value + r.value.rest
    ensures r.Failure? <==> |s| < HANDSHAKE_RANDOMNESS_SIZE_BYTES
    ensures r.Failure? ==> r.error == Truncated
  {
    if |s| < HANDSHAKE_RANDOMNESS_SIZE_BYTES then Failure(Truncated)
    else
      assert s == s[..HANDSHAKE_RANDOMNESS_SIZE_BYTES] + s[HANDSHAKE_RANDOMNESS_SIZE_BYTES..];
      Success(Taken(s[..HANDSHAKE_RANDOMNESS_SIZE_BYTES], s[HANDSHAKE_RANDOMNESS_SIZE_BYTES..]))
  }

  /** `u32::from_be_bytes(array_from_slice(&buffer[cursor..])?)`. */
  function ReadBigEndianU32(s: seq<byte>): (r: Read<u32>)
    ensures r.Success? ==> |s| >= 4 && r.value.value == FromBigEndian(s[..4]) && |r.value.rest| == |s| - 4
    ensures r.Failure? <==> |s| < 4
    ensures r.Failure? ==> r.error == Truncated
  {
    if |s| < 4 then Failure(Truncated)
    else Success(Taken(FromBigEndian(s[..4]), s[4..]))
  }

  /** `T::from_bytes_compact(&buffer[cursor..])`, skipping what it reports. */
  function ReadCompact<T(!new)>(s: seq<byte>, codec: CompactCodec<T>): (r: Read<T>)
    ensures r.Success? ==> |r.value.rest| <= |s|
    ensures CompactSound(codec) && r.Failure? ==> r.error != SliceOutOfRange
  {
    var p :- codec.decode(s);
    Skip(s, p)
  }

  /** Where the `i`-th of a run of `width`-byte values starts (`i * width`, see `OffsetIsProduct`). */
  function Offset(i: nat, width: nat): nat {
    if i == 0 then 0 else Offset(i - 1, width) + width
  }

  lemma {:induction false} OffsetIsProduct(i: nat, width: nat)
    ensures Offset(i, width) == i * width
  {
    if i > 0 {
      OffsetIsProduct(i - 1, width);
    }
  }

  /** Whether `s` holds the whole `i`-th `width`-byte slice. */
  predicate HasChunk<T>(s: seq<T>, width: nat, i: nat) {
    Offset(i + 1, width) <= |s|
  }

  /** The `i`-th `width`-byte slice of `s`. */
  function Chunk<T>(s: seq<T>, width: nat, i: nat): seq<T>
    requires HasChunk(s, width, i)
  {
    s[Offset(i, width)..Offset(i + 1, width)]
  }

  /** `n` fixed-width values in a row, pushed in wire order: the `i`-th is read from the `i`-th slice. */
  function ReadFixedList<T>(s: seq<byte>, n: nat, codec: FixedCodec<T>): (r: Read<seq<T>>)
    ensures r.Success? ==> |r.value.value| == n && |s| >= Offset(n, codec.width) && r.value.rest == s[Offset(n, codec.width)..]
    ensures r.Success? ==> forall i :: 0 <= i < n ==>
              HasChunk(s, codec.width, i) && codec.fromBytes(Chunk(s, codec.width, i)) == Some(r.value.value[i])
    ensures r.Failure? ==> r.error != SliceOutOfRange
    decreases n
  {
    if n == 0 then Success(Taken([], s))
    else
      var head :- ReadFixed(s, codec);
      var tail :- ReadFixedList(head.rest, n - 1, codec);
      FixedListCons(s, n, codec.width, codec.fromBytes, head.value, tail.value, [head.value] + tail.value, tail.rest);
      Success(Taken([head.value] + tail.value, tail.rest))
  }

  /**
   * A value read from the first `width` bytes, followed by `n - 1` values
   * read from consecutive slices after it, are `n` values read from
   * consecutive slices of `s`.
   */
  lemma FixedListCons<T>(s: seq<byte>, n: nat, width: nat, fromBytes: seq<byte> -> Option<T>, x: T, xs: seq<T>, v: seq<T>, rest: seq<byte>)
    requires 1 <= n && |s| >= width && fromBytes(s[..width]) == Some(x) && v == [x] + xs
    requires |xs| == n - 1 && |s[width..]| >= Offset(n - 1, width) && rest == s[width..][Offset(n - 1, width)..]
    requires forall i :: 0 <= i < n - 1 ==>
               HasChunk(s[width..], width, i) && fromBytes(Chunk(s[width..], width, i)) == Some(xs[i])
    ensures |s| >= Offset(n, width) && rest == s[Offset(n, width)..]
    ensures forall i :: 0 <= i < n ==> HasChunk(s, width, i) && fromBytes(Chunk(s, width, i)) == Some(v[i])
  {
    forall i | 0 <= i < n
      ensures HasChunk(s, width, i) && fromBytes(Chunk(s, width, i)) == Some(v[i])
    {
      if i == 0 {
        assert Chunk(s, width, 0) == s[..width];
      } else {
        ChunkShift(s, width, i);
      }
    }
  }

  /** Dropping the first `width` bytes moves every slice down by one. */
  lemma ChunkShift<T>(s: seq<T>, width: nat, i: nat)
    requires 1 <= i && |s| >= width && HasChunk(s[width..], width, i - 1)
    ensures HasChunk(s, width, i) && Chunk(s, width, i) == Chunk(s[width..], width, i - 1)
  {
  }

  /** `n` compact objects in a row, each followed from where the previous stopped. */
  function ReadCompactList<T(!new)>(s: seq<byte>, n: nat, codec: CompactCodec<T>): (r: Read<seq<T>>)
    ensures r.Success? ==> |r.value.value| == n && |r.value.rest| <= |s|
    ensures CompactSound(codec) && r.Failure? ==> r.error != SliceOutOfRange
    decreases n
  {
    if n == 0 then Success(Taken([], s))
    else
      var head :- ReadCompact(s, codec);
      var tail :- ReadCompactList(head.rest, n - 1, codec);
      Success(Taken([head.value] + tail.value, tail.rest))
  }

  /** The presence tag of an `Operations` entry, in the given format. */
  function ReadTag(s: seq<byte>, tag: TagFormat): (r: Read<u32>)
    ensures r.Success? ==> |r.value.rest| < |s|
    ensures r.Failure? ==> r.error != SliceOutOfRange
  {
    match tag
    case VarIntTag => ReadVarIntU32(s)
    case BigEndianTag => ReadBigEndianU32(s)
  }

  /** The tag, then an operation unless the tag is 0. */
  function ReadOptOperation(s: seq<byte>, cs: Codecs, tag: TagFormat): (r: Read<Option<Operation>>)
    ensures r.Success? ==> |r.value.rest| < |s|
    ensures Sound(cs) && r.Failure? ==> r.error != SliceOutOfRange
  {
    var state :- ReadTag(s, tag);
    if state.value == 0 then Success(Taken(None, state.rest))
    else
      var op :- ReadCompact(state.rest, cs.operation);
      Success(Taken(Some(op.value), op.rest))
  }

  /** One entry of an operation map: the id, then the optional operation. */
  function ReadEntry(s: seq<byte>, cs: Codecs, tag: TagFormat): (r: Read<OperationEntry>)
    ensures r.Success? ==> |r.value.rest| < |s|
    ensures Sound(cs) && r.Failure? ==> r.error != SliceOutOfRange
  {
    var id :- ReadFixed(s, cs.operationId);
    var opt :- ReadOptOperation(id.rest, cs, tag);
    Success(Taken((id.value, opt.value), opt.rest))
  }

  /** `n` entries of an operation map, in wire order. */
  function ReadEntries(s: seq<byte>, n: nat, cs: Codecs, tag: TagFormat): (r: Read<seq<OperationEntry>>)
    ensures r.Success? ==> |r.value.value| == n && |r.value.rest| <= |s|
    ensures Sound(cs) && r.Failure? ==> r.error != SliceOutOfRange
    decreases n
  {
    if n == 0 then Success(Taken([], s))
    else
      var entry :- ReadEntry(s, cs, tag);
      var tail :- ReadEntries(entry.rest, n - 1, cs, tag);
      Success(Taken([entry.value] + tail.value, tail.rest))
  }

  /** `ops.insert(id, value)` for each entry in order: a repeated id keeps the last value. */
  function InsertAll(acc: OperationMap, es: seq<OperationEntry>): OperationMap
    decreases |es|
  {
    if |es| == 0 then acc else InsertAll(acc[es[0].0 := es[0].1], es[1..])
  }

  /** The keys after the inserts are the accumulator's and the entries'. */
  lemma {:induction false} InsertAllKeys(acc: OperationMap, es: seq<OperationEntry>)
    ensures InsertAll(acc, es).Keys == acc.Keys + EntryKeys(es)
    decreases |es|
  {
    if |es| > 0 {
      EntryKeysCons(es);
      InsertAllKeys(acc[es[0].0 := es[0].1], es[1..]);
    }
  }

  /** `deserialize_operation_ids`: a count bounded by `max`, then that many ids. */
  function DeserializeOperationIds(s: seq<byte>, max: u32, cs: Codecs): (r: Read<seq<OperationId>>)
    ensures r.Success? ==> |r.value.value| <= max && |r.value.rest| < |s|
    ensures r.Failure? ==> r.error != SliceOutOfRange
    ensures ReadVarIntU32(s).Success? && ReadVarIntU32(s).value.value > max ==>
              r == Failure(BoundExceeded(ReadVarIntU32(s).value.value, max))
  {
    var count :- ReadBoundedU32(s, max);
    ReadFixedList(count.rest, count.value, cs.operationId)
  }

  /** `derialize_operation_opt_map`: a count bounded by `max`, then that many entries. */
  function DeserializeOperationOptMap(s: seq<byte>, max: u32, cs: Codecs, tag: TagFormat): (r: Read<OperationMap>)
    ensures r.Success? ==> |r.value.value| <= max && |r.value.rest| < |s|
    ensures r.Success? ==> ReadVarIntU32(s).Success? && |r.value.value| <= ReadVarIntU32(s).value.value
    ensures Sound(cs) && r.Failure? ==> r.error != SliceOutOfRange
    ensures ReadVarIntU32(s).Success? && ReadVarIntU32(s).value.value > max ==>
              r == Failure(BoundExceeded(ReadVarIntU32(s).value.value, max))
  {
    var count :- ReadBoundedU32(s, max);
    var es :- ReadEntries(count.rest, count.value, cs, tag);
    EntryKeysSize(es.value);
    InsertAllKeys(map[], es.value);
    Success(Taken(InsertAll(map[], es.value), es.rest))
  }

  /**
   * What every payload reader promises: the message has the expected type
   * and fits the context, what is left is part of what it was given, and
   * with sound collaborators no slice panics.
   */
  ghost predicate PayloadRead(s: seq<byte>, t: MessageTypes.MessageTypeId, ctx: Context, cs: Codecs, r: Read<Message>) {
    && (r.Success? ==> TypeOf(r.value.value) == t && WithinContext(r.value.value, ctx))
    && (r.Success? ==> |r.value.rest| <= |s|)
    && (Sound(cs) && r.Failure? ==> r.error != SliceOutOfRange)
  }

  function DecodeHandshakeInitiation(s: seq<byte>, ctx: Context, cs: Codecs): (r: Read<Message>)
    ensures PayloadRead(s, MessageTypes.HandshakeInitiation, ctx, cs, r)
  {
    var pk :- ReadFixed(s, cs.publicKey);
    var rb :- ReadNonce(pk.rest);
    var v :- ReadCompact(rb.rest, cs.version);
    Success(Taken(HandshakeInitiation(pk.value, rb.value, v.value), v.rest))
  }

  function DecodeHandshakeReply(s: seq<byte>, ctx: Context, cs: Codecs): (r: Read<Message>)
    ensures PayloadRead(s, MessageTypes.HandshakeReply, ctx, cs, r)
  {
    var sig :- ReadFixed(s, cs.signature);
    Success(Taken(HandshakeReply(sig.value), sig.rest))
  }

  function DecodeBlock(s: seq<byte>, ctx: Context, cs: Codecs): (r: Read<Message>)
    ensures PayloadRead(s, MessageTypes.Block, ctx, cs, r)
  {
    var b :- ReadCompact(s, cs.block);
    Success(Taken(Block(b.value), b.rest))
  }

  function DecodeBlockHeader(s: seq<byte>, ctx: Context, cs: Codecs): (r: Read<Message>)
    ensures PayloadRead(s, MessageTypes.BlockHeader, ctx, cs, r)
  {
    var h :- ReadCompact(s, cs.header);
    Success(Taken(BlockHeader(h.value), h.rest))
  }

  function DecodeAskForBlocks(s: seq<byte>, ctx: Context, cs: Codecs): (r: Read<Message>)
    ensures PayloadRead(s, MessageTypes.AskForBlocks, ctx, cs, r)
  {
    var count :- ReadBoundedU32(s, ctx.maxAskBlocks);
    var ids :- ReadFixedList(count.rest, count.value, cs.blockId);
    Success(Taken(AskForBlocks(ids.value), ids.rest))
  }

  function DecodePeerList(s: seq<byte>, ctx: Context, cs: Codecs): (r: Read<Message>)
    ensures PayloadRead(s, MessageTypes.PeerList, ctx, cs, r)
  {
    var count :- ReadBoundedU32(s, ctx.maxPeerList);
    match ReadCompactList(count.rest, count.value, cs.ip)
    case Failure(e) => Failure(e)
    case Success(ips) =>
      var m := PeerList(ips.value);
      assert TypeOf(m) == MessageTypes.PeerList;
      assert WithinContext(m, ctx);
      Success(Taken(m, ips.rest))
  }

  function DecodeBlockNotFound(s: seq<byte>, ctx: Context, cs: Codecs): (r: Read<Message>)
    ensures PayloadRead(s, MessageTypes.BlockNotFound, ctx, cs, r)
  {
    var id :- ReadFixed(s, cs.blockId);
    Success(Taken(BlockNotFound(id.value), id.rest))
  }

  function DecodeOperations(s: seq<byte>, ctx: Context, cs: Codecs, tag: TagFormat): (r: Read<Message>)
    ensures PayloadRead(s, MessageTypes.Operations, ctx, cs, r)
  {
    match DeserializeOperationOptMap(s, ctx.maxOperations, cs, tag)
    case Failure(e) => Failure(e)
    case Success(ops) =>
      var m := Operations(ops.value);
      assert TypeOf(m) == MessageTypes.Operations;
      assert WithinContext(m, ctx);
      Success(Taken(m, ops.rest))
  }

  function DecodeAskForOperations(s: seq<byte>, ctx: Context, cs: Codecs): (r: Read<Message>)
    ensures PayloadRead(s, MessageTypes.AskForOperation, ctx, cs, r)
  {
    var ids :- DeserializeOperationIds(s, ctx.maxOperations, cs);
    Success(Taken(AskForOperations(ids.value), ids.rest))
  }

  function DecodeOperationsBatch(s: seq<byte>, ctx: Context, cs: Codecs): (r: Read<Message>)
    ensures PayloadRead(s, MessageTypes.OperationsBatch, ctx, cs, r)
  {
    var ids :- DeserializeOperationIds(s, ctx.maxOperations, cs);
    Success(Taken(OperationsBatch(ids.value), ids.rest))
  }

  function DecodeEndorsements(s: seq<byte>, ctx: Context, cs: Codecs): (r: Read<Message>)
    ensures PayloadRead(s, MessageTypes.Endorsements, ctx, cs, r)
  {
    var count :- ReadBoundedU32(s, ctx.maxEndorsements);
    match ReadCompactList(count.rest, count.value, cs.endorsement)
    case Failure(e) => Failure(e)
    case Success(es) =>
      var m := Endorsements(es.value);
      assert TypeOf(m) == MessageTypes.Endorsements;
      assert WithinContext(m, ctx);
      Success(Taken(m, es.rest))
  }

  /** The payload of a message of type `t`. */
  function DecodePayload(s: seq<byte>, t: MessageTypes.MessageTypeId, ctx: Context, cs: Codecs, tag: TagFormat): (r: Read<Message>)
    ensures PayloadRead(s, t, ctx, cs, r)
  {
    match t
    case HandshakeInitiation => DecodeHandshakeInitiation(s, ctx, cs)
    case HandshakeReply => DecodeHandshakeReply(s, ctx, cs)
    case Block => DecodeBlock(s, ctx, cs)
    case BlockHeader => DecodeBlockHeader(s, ctx, cs)
    case AskForBlocks => DecodeAskForBlocks(s, ctx, cs)
    case AskPeerList => Success(Taken(AskPeerList, s))
    case PeerList => DecodePeerList(s, ctx, cs)
    case BlockNotFound => DecodeBlockNotFound(s, ctx, cs)
    case Operations => DecodeOperations(s, ctx, cs, tag)
    case AskForOperation => DecodeAskForOperations(s, ctx, cs)
    case OperationsBatch => DecodeOperationsBatch(s, ctx, cs)
    case Endorsements => DecodeEndorsements(s, ctx, cs)
  }

  /** The payload reader `DecodePayload` picks for each type. */
  lemma PayloadDispatch(s: seq<byte>, t: MessageTypes.MessageTypeId, ctx: Context, cs: Codecs, tag: TagFormat)
    ensures t == MessageTypes.HandshakeInitiation ==> DecodePayload(s, t, ctx, cs, tag) == DecodeHandshakeInitiation(s, ctx, cs)
    ensures t == MessageTypes.HandshakeReply ==> DecodePayload(s, t, ctx, cs, tag) == DecodeHandshakeReply(s, ctx, cs)
    ensures t == MessageTypes.Block ==> DecodePayload(s, t, ctx, cs, tag) == DecodeBlock(s, ctx, cs)
    ensures t == MessageTypes.BlockHeader ==> DecodePayload(s, t, ctx, cs, tag) == DecodeBlockHeader(s, ctx, cs)
    ensures t == MessageTypes.AskForBlocks ==> DecodePayload(s, t, ctx, cs, tag) == DecodeAskForBlocks(s, ctx, cs)
    ensures t == MessageTypes.AskPeerList ==> DecodePayload(s, t, ctx, cs, tag) == Success(Taken(AskPeerList, s))
    ensures t == MessageTypes.PeerList ==> DecodePayload(s, t, ctx, cs, tag) == DecodePeerList(s, ctx, cs)
    ensures t == MessageTypes.BlockNotFound ==> DecodePayload(s, t, ctx, cs, tag) == DecodeBlockNotFound(s, ctx, cs)
    ensures t == MessageTypes.OperationsBatch ==> DecodePayload(s, t, ctx, cs, tag) == DecodeOperationsBatch(s, ctx, cs)
    ensures t == MessageTypes.AskForOperation ==> DecodePayload(s, t, ctx, cs, tag) == DecodeAskForOperations(s, ctx, cs)
    ensures t == MessageTypes.Operations ==> DecodePayload(s, t, ctx, cs, tag) == DecodeOperations(s, ctx, cs, tag)
    ensures t == MessageTypes.Endorsements ==> DecodePayload(s, t, ctx, cs, tag) == DecodeEndorsements(s, ctx, cs)
  {
  }

  /**
   * `Message::from_bytes_compact` with the presence-tag reader as a
   * parameter: the leading varint picks the type, the payload follows, and
   * the cursor returned counts every byte consumed.
   */
  function DecodeWith(buf: seq<byte>, ctx: Context, cs: Codecs, tag: TagFormat): (r: Decoded<Message>)
    ensures r.Success? ==> WithinContext(r.value.value, ctx) && r.value.cursor <= |buf|
    ensures r.Success? ==>
              && VarInt.DecodeU32(buf).Success?
              && VarInt.DecodeU32(buf).value.value == MessageTypes.ToU32(TypeOf(r.value.value))
    ensures VarInt.DecodeU32(buf).Success? && VarInt.DecodeU32(buf).value.value >= MessageTypes.TYPE_COUNT ==>
              r == Failure(UnknownMessageType(VarInt.DecodeU32(buf).value.value))
    ensures VarInt.DecodeU32(buf).Failure? ==> r.Failure? && r.error == VarInt.DecodeU32(buf).error
    ensures Sound(cs) && r.Failure? ==> r.error != SliceOutOfRange
  {
    var id :- ReadVarIntU32(buf);
    match MessageTypes.FromU32(id.value)
    case None => Failure(UnknownMessageType(id.value))
    case Some(t) =>
      var m :- DecodePayload(id.rest, t, ctx, cs, tag);
      Success(Parsed(m.value, |buf| - |m.rest|))
  }

  /** The decoder as intended: the presence tag is read as the four big-endian bytes the encoder writes. */
  function Decode(buf: seq<byte>, ctx: Context, cs: Codecs): Decoded<Message> {
    DecodeWith(buf, ctx, cs, BigEndianTag)
  }

  /** The decoder as the source writes it: the presence tag is read as a varint. */
  function DecodeAsWritten(buf: seq<byte>, ctx: Context, cs: Codecs): Decoded<Message> {
    DecodeWith(buf, ctx, cs, VarIntTag)
  }
}
