/**
 * The decoder as the source writes it (`DecodeAsWritten`): the presence
 * tag of an operation-map entry, written as the four big-endian bytes of
 * `1u32` or `0u32`, is read back with `u32::from_varint_bytes`. Every other
 * message type never reads a tag, so those messages round-trip through the
 * decoder as written as well; an `Operations` message does not.
 */
module AsWritten {
  import opened Ints
  import opened Wrappers
  import opened Outcomes
  import opened Collaborators
  import opened Messages
  import opened Encoder
  import opened Decoder
  import opened ReaderLemmas
  import opened CodecProofs
  import opened DecodeLimits
  import MessageTypes
  import VarInt

  /** Only the operation-map reader depends on how the tag is read. */
  lemma PayloadIgnoresTag(s: seq<byte>, t: MessageTypes.MessageTypeId, ctx: Context, cs: Codecs)
    requires t != MessageTypes.Operations
    ensures DecodePayload(s, t, ctx, cs, VarIntTag) == DecodePayload(s, t, ctx, cs, BigEndianTag)
  {
    match t
    case HandshakeInitiation =>
    case HandshakeReply =>
    case Block =>
    case BlockHeader =>
    case AskForBlocks =>
    case AskPeerList =>
    case PeerList =>
    case BlockNotFound =>
    case AskForOperation =>
    case OperationsBatch =>
    case Endorsements =>
  }

  /** Every message other than `Operations` survives the decoder as written. */
  lemma RoundTripAsWritten(m: Message, ctx: Context, cs: Codecs, rest: seq<byte>)
    requires !m.Operations? && RoundTrips(cs)
    requires WithinContext(m, ctx) && Encode(m, cs).Success?
    ensures DecodeAsWritten(Encode(m, cs).value + rest, ctx, cs).Success?
    ensures DecodeAsWritten(Encode(m, cs).value + rest, ctx, cs).value.value == m
    ensures DecodeAsWritten(Encode(m, cs).value + rest, ctx, cs).value.cursor == |Encode(m, cs).value|
  {
    var payload := EncodePayload(m, cs).value;
    var buf := Encode(m, cs).value + rest;
    assert buf == TypeTag(m) + (payload + rest);
    ReadVarIntEncoded(MessageTypes.ToU32(TypeOf(m)), payload + rest);
    PayloadRoundTrip(m, ctx, cs, rest);
    PayloadIgnoresTag(payload + rest, TypeOf(m), ctx, cs);
    MessageTypes.TypeIdRoundTrip(TypeOf(m));
    DecodeWithPayload(buf, ctx, cs, VarIntTag, MessageTypes.ToU32(TypeOf(m)), TypeOf(m), payload + rest, m, rest);
  }

  /** The first tag byte is 0 either way, and a lone 0 is the varint 0: the tag reads as "absent" after one byte. */
  lemma TagReadAsAbsent(opt: Option<Operation>, rest: seq<byte>)
    ensures ReadTag(PresenceTag(opt) + rest, VarIntTag).Success?
    ensures ReadTag(PresenceTag(opt) + rest, VarIntTag).value.value == 0
    ensures ReadTag(PresenceTag(opt) + rest, VarIntTag).value.rest == PresenceTag(opt)[1..] + rest
  {
    var s := PresenceTag(opt) + rest;
    assert s[0] == 0;
    assert VarInt.DecodeU32(s) == Success(Parsed(0, 1));
    assert s[1..] == PresenceTag(opt)[1..] + rest;
  }

  /**
   * The encoding of the one-entry map `{id: Some(op)}` under the decoder
   * as written: the entry comes back as `{id: None}`, and the cursor stops
   * after the first tag byte, leaving three tag bytes and the operation
   * unread.
   */
  lemma PresentOperationLost(ctx: Context, cs: Codecs, id: OperationId, op: Operation)
    requires FixedRoundTrips(cs.operationId) && cs.operation.encode(op).Success?
    requires 1 <= ctx.maxOperations
    requires cs.entries(map[id := Some(op)]) == [(id, Some(op))]
    ensures Encode(Operations(map[id := Some(op)]), cs).Success?
    ensures DecodeAsWritten(Encode(Operations(map[id := Some(op)]), cs).value, ctx, cs).Success?
    ensures DecodeAsWritten(Encode(Operations(map[id := Some(op)]), cs).value, ctx, cs).value.value == Operations(map[id := None])
    ensures DecodeAsWritten(Encode(Operations(map[id := Some(op)]), cs).value, ctx, cs).value.cursor
            == cs.operationId.width + 3
            < |Encode(Operations(map[id := Some(op)]), cs).value|
  {
    var ops: OperationMap := map[id := Some(op)];
    assert |ops| == 1;
    var body := cs.operation.encode(op).value;
    var t := cs.operationId.toBytes(id) + (PresenceTag(Some(op)) + body);
    assert EncodeEntry((id, Some(op)), cs).Success? && EncodeEntry((id, Some(op)), cs).value == t;
    assert EncodeEntries([(id, Some(op))], cs).Success? && EncodeEntries([(id, Some(op))], cs).value == t;
    var buf := Encode(Operations(ops), cs).value;
    assert buf == [8] + ([1] + t);
    EntryMisread(cs, id, Some(op), body);
    OneEntryAsWritten(ctx, cs, buf, t, id, PresenceTag(Some(op))[1..] + body);
  }

  /**
   * The encoding of `{id: None}` under the decoder as written: the map
   * comes back right, but the cursor stops three bytes before the end of
   * the message, so whatever is framed after it starts three bytes early.
   */
  lemma AbsentOperationCursorShort(ctx: Context, cs: Codecs, id: OperationId)
    requires FixedRoundTrips(cs.operationId)
    requires 1 <= ctx.maxOperations
    requires cs.entries(map[id := None]) == [(id, None)]
    ensures Encode(Operations(map[id := None]), cs).Success?
    ensures DecodeAsWritten(Encode(Operations(map[id := None]), cs).value, ctx, cs).Success?
    ensures DecodeAsWritten(Encode(Operations(map[id := None]), cs).value, ctx, cs).value.value == Operations(map[id := None])
    ensures DecodeAsWritten(Encode(Operations(map[id := None]), cs).value, ctx, cs).value.cursor
            == |Encode(Operations(map[id := None]), cs).value| - 3
  {
    var ops: OperationMap := map[id := None];
    assert |ops| == 1;
    var t := cs.operationId.toBytes(id) + (PresenceTag(None) + []);
    assert EncodeEntry((id, None), cs).Success? && EncodeEntry((id, None), cs).value == t;
    assert EncodeEntries([(id, None)], cs).Success? && EncodeEntries([(id, None)], cs).value == t;
    var buf := Encode(Operations(ops), cs).value;
    assert buf == [8] + ([1] + t);
    EntryMisread(cs, id, None, []);
    OneEntryAsWritten(ctx, cs, buf, t, id, PresenceTag(None)[1..] + []);
  }

  /**
   * The encoding of `{id: None}` with its last three bytes cut off: the
   * decoder as written accepts it as the whole message and consumes every
   * byte it was given, where the intended decoder refuses it as truncated.
   */
  lemma TruncatedMessageAccepted(ctx: Context, cs: Codecs, id: OperationId)
    requires FixedRoundTrips(cs.operationId)
    requires 1 <= ctx.maxOperations
    requires cs.entries(map[id := None]) == [(id, None)]
    ensures Encode(Operations(map[id := None]), cs).Success?
    ensures var e := Encode(Operations(map[id := None]), cs).value;
      && |e| >= 3
      && DecodeAsWritten(e[..|e| - 3], ctx, cs).Success?
      && DecodeAsWritten(e[..|e| - 3], ctx, cs).value.value == Operations(map[id := None])
      && DecodeAsWritten(e[..|e| - 3], ctx, cs).value.cursor == |e| - 3
      && Decode(e[..|e| - 3], ctx, cs) == Failure(Truncated)
  {
    var cut := cs.operationId.toBytes(id) + [0];
    var whole := ([8] + ([1] + cut)) + [0, 0, 0];
    assert Encode(Operations(map[id := None]), cs) == Success(whole) by {
      AbsentEntryMessage(cs, id);
      assert [8] + ([1] + (cs.operationId.toBytes(id) + [0, 0, 0, 0])) == whole;
    }
    assert whole[..|whole| - 3] == [8] + ([1] + cut);
    CutEntryAccepted(ctx, cs, id);
    CutEntryRefused(ctx, cs, id);
  }

  /** The encoding of `{id: None}`: the discriminant 8, the count 1, the id and the tag `0u32`. */
  lemma AbsentEntryMessage(cs: Codecs, id: OperationId)
    requires cs.entries(map[id := None]) == [(id, None)]
    ensures Encode(Operations(map[id := None]), cs) == Success([8] + ([1] + (cs.operationId.toBytes(id) + [0, 0, 0, 0])))
  {
    var ops: OperationMap := map[id := None];
    assert |ops| == 1;
    var t := cs.operationId.toBytes(id) + [0, 0, 0, 0];
    var es: seq<OperationEntry> := [(id, None)];
    assert EncodeEntry(es[0], cs) == Success(t);
    assert EncodeEntries(es, cs) == Success(t) by {
      assert es[1..] == [];
      assert t + [] == t;
    }
    assert VarInt.Encode(1) == [1];
    TypeTagByte(Operations(ops));
  }

  /** The id of an entry followed by a single 0: the decoder as written reads a whole `{id: None}` message. */
  lemma CutEntryAccepted(ctx: Context, cs: Codecs, id: OperationId)
    requires FixedRoundTrips(cs.operationId) && 1 <= ctx.maxOperations
    ensures var buf := [8] + ([1] + (cs.operationId.toBytes(id) + [0]));
      && DecodeAsWritten(buf, ctx, cs).Success?
      && DecodeAsWritten(buf, ctx, cs).value.value == Operations(map[id := None])
      && DecodeAsWritten(buf, ctx, cs).value.cursor == |buf|
  {
    var cut := cs.operationId.toBytes(id) + [0];
    ReadFixedEncoded(cs.operationId, id, [0]);
    assert ReadTag([0], VarIntTag) == Success(Taken(0, [])) by {
      assert VarInt.DecodeU32([0]) == Success(Parsed(0, 1));
    }
    SingleEntry(cut, cs, VarIntTag);
    OneEntryAsWritten(ctx, cs, [8] + ([1] + cut), cut, id, []);
  }

  /** The same bytes, refused by the intended decoder: the four-byte tag is cut short. */
  lemma CutEntryRefused(ctx: Context, cs: Codecs, id: OperationId)
    requires FixedRoundTrips(cs.operationId) && 1 <= ctx.maxOperations
    ensures Decode([8] + ([1] + (cs.operationId.toBytes(id) + [0])), ctx, cs) == Failure(Truncated)
  {
    var cut := cs.operationId.toBytes(id) + [0];
    var s := [1] + cut;
    ReadFixedEncoded(cs.operationId, id, [0]);
    assert ReadTag([0], BigEndianTag) == Failure(Truncated);
    assert ReadEntries(cut, 1, cs, BigEndianTag) == Failure(Truncated);
    ReadBoundedEncoded(1, ctx.maxOperations, cut);
    assert VarInt.Encode(1) == [1];
    assert DecodeOperations(s, ctx, cs, BigEndianTag) == Failure(Truncated);
    assert DecodePayload(s, MessageTypes.Operations, ctx, cs, BigEndianTag) == DecodeOperations(s, ctx, cs, BigEndianTag) by {
      PayloadDispatch(s, MessageTypes.Operations, ctx, cs, BigEndianTag);
    }
    ReadVarIntEncoded(8, s);
    assert VarInt.Encode(8) == [8];
    assert MessageTypes.FromU32(8) == Some(MessageTypes.Operations) by {
      MessageTypes.TypeIdRoundTrip(MessageTypes.Operations);
    }
    DecodeWithPayloadFailure([8] + s, ctx, cs, BigEndianTag, 8, MessageTypes.Operations, s, Truncated);
  }

  /** An entry's id is read as written, then its tag as "absent" after one byte. */
  lemma EntryReadAsAbsent(cs: Codecs, id: OperationId, opt: Option<Operation>, rest: seq<byte>)
    requires FixedRoundTrips(cs.operationId)
    ensures ReadEntry(cs.operationId.toBytes(id) + (PresenceTag(opt) + rest), cs, VarIntTag).Success?
    ensures ReadEntry(cs.operationId.toBytes(id) + (PresenceTag(opt) + rest), cs, VarIntTag).value.value == (id, None)
    ensures ReadEntry(cs.operationId.toBytes(id) + (PresenceTag(opt) + rest), cs, VarIntTag).value.rest == PresenceTag(opt)[1..] + rest
  {
    ReadFixedEncoded(cs.operationId, id, PresenceTag(opt) + rest);
    TagReadAsAbsent(opt, rest);
    var o := ReadOptOperation(PresenceTag(opt) + rest, cs, VarIntTag);
    assert o.Success? && o.value.value == None && o.value.rest == PresenceTag(opt)[1..] + rest;
  }

  /** A list of one entry is that entry. */
  lemma SingleEntry(s: seq<byte>, cs: Codecs, tag: TagFormat)
    requires ReadEntry(s, cs, tag).Success?
    ensures ReadEntries(s, 1, cs, tag).Success?
    ensures ReadEntries(s, 1, cs, tag).value.value == [ReadEntry(s, cs, tag).value.value]
    ensures ReadEntries(s, 1, cs, tag).value.rest == ReadEntry(s, cs, tag).value.rest
  {
    var e := ReadEntry(s, cs, tag).value;
    assert ReadEntries(e.rest, 0, cs, tag) == Success(Taken([], e.rest));
    assert [e.value] + [] == [e.value];
  }

  /** The one-entry list `(id, tag)` reads as `[(id, None)]`, stopping after the first tag byte. */
  lemma EntryMisread(cs: Codecs, id: OperationId, opt: Option<Operation>, rest: seq<byte>)
    requires FixedRoundTrips(cs.operationId)
    ensures ReadEntries(cs.operationId.toBytes(id) + (PresenceTag(opt) + rest), 1, cs, VarIntTag).Success?
    ensures ReadEntries(cs.operationId.toBytes(id) + (PresenceTag(opt) + rest), 1, cs, VarIntTag).value.value == [(id, None)]
    ensures ReadEntries(cs.operationId.toBytes(id) + (PresenceTag(opt) + rest), 1, cs, VarIntTag).value.rest
            == PresenceTag(opt)[1..] + rest
  {
    EntryReadAsAbsent(cs, id, opt, rest);
    SingleEntry(cs.operationId.toBytes(id) + (PresenceTag(opt) + rest), cs, VarIntTag);
  }

  /** A one-entry `Operations` message whose single entry reads as `(id, None)`. */
  lemma OneEntryAsWritten(ctx: Context, cs: Codecs, buf: seq<byte>, t: seq<byte>, id: OperationId, tail: seq<byte>)
    requires 1 <= ctx.maxOperations
    requires buf == [8] + ([1] + t)
    requires ReadEntries(t, 1, cs, VarIntTag).Success?
    requires ReadEntries(t, 1, cs, VarIntTag).value.value == [(id, None)]
    requires ReadEntries(t, 1, cs, VarIntTag).value.rest == tail
    ensures DecodeAsWritten(buf, ctx, cs).Success?
    ensures DecodeAsWritten(buf, ctx, cs).value.value == Operations(map[id := None])
    ensures DecodeAsWritten(buf, ctx, cs).value.cursor == |buf| - |tail|
  {
    var s := [1] + t;
    var m := Operations(map[id := None]);
    assert ReadVarIntU32(buf) == Success(Taken(8, s)) by {
      ReadVarIntEncoded(8, s);
      assert VarInt.Encode(8) == [8];
    }
    assert MessageTypes.FromU32(8) == Some(MessageTypes.Operations) by {
      MessageTypes.TypeIdRoundTrip(MessageTypes.Operations);
    }
    assert DecodePayload(s, MessageTypes.Operations, ctx, cs, VarIntTag) == DecodeOperations(s, ctx, cs, VarIntTag) by {
      PayloadDispatch(s, MessageTypes.Operations, ctx, cs, VarIntTag);
    }
    OneEntryMapAsWritten(ctx, cs, t, id, tail);
    DecodeWithPayload(buf, ctx, cs, VarIntTag, 8, MessageTypes.Operations, s, m, tail);
  }

  /** The operation-map reader on a count of 1 followed by an entry that reads as `(id, None)`. */
  lemma OneEntryMapAsWritten(ctx: Context, cs: Codecs, t: seq<byte>, id: OperationId, tail: seq<byte>)
    requires 1 <= ctx.maxOperations
    requires ReadEntries(t, 1, cs, VarIntTag).Success?
    requires ReadEntries(t, 1, cs, VarIntTag).value.value == [(id, None)]
    requires ReadEntries(t, 1, cs, VarIntTag).value.rest == tail
    ensures DecodeOperations([1] + t, ctx, cs, VarIntTag).Success?
    ensures DecodeOperations([1] + t, ctx, cs, VarIntTag).value.value == Operations(map[id := None])
    ensures DecodeOperations([1] + t, ctx, cs, VarIntTag).value.rest == tail
  {
    ReadBoundedEncoded(1, ctx.maxOperations, t);
    assert VarInt.Encode(1) == [1];
    assert InsertAll(map[], [(id, None)]) == map[id := None];
  }
}
