/**
 * Cut-short messages (massa-network-worker/src/messages.rs): every field
 * reader of `from_bytes_compact` checks that its bytes are there, so a
 * strict prefix of an encoding is refused with `Truncated` rather than read
 * as a shorter message. This holds for the intended decoder on every
 * variant, and for the decoder as written on every variant but
 * `Operations` (see `AsWritten.TruncatedMessageAccepted`). Objects with a
 * compact codec carry their own length; that they refuse their own
 * encodings cut short is the assumption `RefusesPrefixes`.
 */
module Truncation {
  import opened Ints
  import opened Wrappers
  import opened Outcomes
  import opened Collaborators
  import opened Messages
  import opened Encoder
  import opened Decoder
  import opened ReaderLemmas
  import opened CodecProofs
  import opened DecodeLimits
  import opened AsWritten
  import MessageTypes
  import VarInt

  /** A strict prefix of `a + b` ends inside `a`, or is `a` followed by a strict prefix of `b`. */
  lemma SplitPrefix(p: seq<byte>, a: seq<byte>, b: seq<byte>)
    requires p < a + b
    ensures |p| < |a| ==> p < a
    ensures |p| >= |a| ==> p == a + p[|a|..] && p[|a|..] < b
  {
    if |p| >= |a| {
      assert p[|a|..] == b[..|p| - |a|];
    }
  }

  /** A count cut inside its varint is refused before any bound is checked. */
  lemma BoundedPrefix(n: nat, max: u32, p: seq<byte>)
    requires n <= U32_MAX && p < VarInt.Encode(n)
    ensures ReadBoundedU32(p, max) == Failure(Truncated)
  {
    VarInt.DecodeStrictPrefix(n, p);
  }

  /** A fixed-width value cut short is refused. */
  lemma FixedPrefix<T(!new)>(codec: FixedCodec<T>, x: T, p: seq<byte>)
    requires FixedRoundTrips(codec) && p < codec.toBytes(x)
    ensures ReadFixed(p, codec) == Failure(Truncated)
  {
  }

  /** A compact object cut short is refused. */
  lemma CompactPrefix<T(!new)>(codec: CompactCodec<T>, x: T, p: seq<byte>)
    requires CompactRefusesPrefixes(codec) && codec.encode(x).Success? && p < codec.encode(x).value
    ensures ReadCompact(p, codec) == Failure(Truncated)
  {
    assert p == codec.encode(x).value[..|p|];
  }

  /** A run of fixed-width values cut short is refused. */
  lemma {:induction false} FixedListPrefix<T(!new)>(codec: FixedCodec<T>, xs: seq<T>, p: seq<byte>)
    requires FixedRoundTrips(codec) && p < ConcatFixed(codec, xs)
    ensures ReadFixedList(p, |xs|, codec) == Failure(Truncated)
    decreases |xs|
  {
    var head := codec.toBytes(xs[0]);
    var tail := ConcatFixed(codec, xs[1..]);
    SplitPrefix(p, head, tail);
    if |p| >= |head| {
      ReadFixedEncoded(codec, xs[0], p[|head|..]);
      FixedListPrefix(codec, xs[1..], p[|head|..]);
    }
  }

  /** A run of compact objects cut short is refused. */
  lemma {:induction false} CompactListPrefix<T(!new)>(codec: CompactCodec<T>, xs: seq<T>, p: seq<byte>)
    requires CompactRoundTrips(codec) && CompactRefusesPrefixes(codec)
    requires EncodeAll(codec, xs).Success? && p < EncodeAll(codec, xs).value
    ensures ReadCompactList(p, |xs|, codec) == Failure(Truncated)
    decreases |xs|
  {
    var head := codec.encode(xs[0]).value;
    var tail := EncodeAll(codec, xs[1..]).value;
    SplitPrefix(p, head, tail);
    if |p| < |head| {
      CompactPrefix(codec, xs[0], p);
      CompactListStops(p, |xs|, codec);
    } else {
      var q := p[|head|..];
      assert ReadCompact(p, codec) == Success(Taken(xs[0], q)) by {
        ReadCompactEncoded(codec, xs[0], q);
      }
      assert ReadCompactList(q, |xs| - 1, codec) == Failure(Truncated) by {
        CompactListPrefix(codec, xs[1..], q);
      }
      CompactListStep(p, xs[0], q, |xs| - 1, codec);
    }
  }

  /** A list whose first object is refused as truncated is refused as truncated. */
  lemma CompactListStops<T(!new)>(p: seq<byte>, n: nat, codec: CompactCodec<T>)
    requires n > 0 && ReadCompact(p, codec) == Failure(Truncated)
    ensures ReadCompactList(p, n, codec) == Failure(Truncated)
  {
  }

  /** A list whose first object reads, and whose tail is refused as truncated, is refused as truncated. */
  lemma CompactListStep<T(!new)>(p: seq<byte>, x: T, q: seq<byte>, n: nat, codec: CompactCodec<T>)
    requires ReadCompact(p, codec) == Success(Taken(x, q)) && ReadCompactList(q, n, codec) == Failure(Truncated)
    ensures ReadCompactList(p, n + 1, codec) == Failure(Truncated)
  {
  }

  /** An operation-map entry cut short is refused: inside the id, the four tag bytes, or the operation. */
  lemma EntryPrefix(cs: Codecs, e: OperationEntry, p: seq<byte>)
    requires FixedRoundTrips(cs.operationId) && CompactRefusesPrefixes(cs.operation)
    requires EncodeEntry(e, cs).Success? && p < EncodeEntry(e, cs).value
    ensures ReadEntry(p, cs, BigEndianTag) == Failure(Truncated)
  {
    var idBytes := cs.operationId.toBytes(e.0);
    var after := if e.1.Some? then PresenceTag(e.1) + cs.operation.encode(e.1.value).value else PresenceTag(None);
    assert EncodeEntry(e, cs).value == idBytes + after;
    SplitPrefix(p, idBytes, after);
    if |p| >= |idBytes| {
      var q := p[|idBytes|..];
      ReadFixedEncoded(cs.operationId, e.0, q);
      if e.1.Some? {
        SplitPrefix(q, PresenceTag(e.1), cs.operation.encode(e.1.value).value);
        if |q| >= 4 {
          ReadPresenceTag(e.1, q[4..]);
          CompactPrefix(cs.operation, e.1.value, q[4..]);
        }
      }
    }
  }

  /** A run of entries cut short is refused. */
  lemma {:induction false} EntriesPrefix(cs: Codecs, es: seq<OperationEntry>, p: seq<byte>)
    requires FixedRoundTrips(cs.operationId) && CompactRoundTrips(cs.operation) && CompactRefusesPrefixes(cs.operation)
    requires EncodeEntries(es, cs).Success? && p < EncodeEntries(es, cs).value
    ensures ReadEntries(p, |es|, cs, BigEndianTag) == Failure(Truncated)
    decreases |es|
  {
    var head := EncodeEntry(es[0], cs).value;
    var tail := EncodeEntries(es[1..], cs).value;
    SplitPrefix(p, head, tail);
    if |p| < |head| {
      EntryPrefix(cs, es[0], p);
    } else {
      ReadEntryEncoded(cs, es[0], p[|head|..]);
      EntriesPrefix(cs, es[1..], p[|head|..]);
    }
  }

  /** A handshake initiation cut inside its key, its nonce or its version is refused. */
  lemma HandshakeInitiationPrefix(m: Message, ctx: Context, cs: Codecs, p: seq<byte>)
    requires m.HandshakeInitiation? && FixedRoundTrips(cs.publicKey) && CompactRefusesPrefixes(cs.version)
    requires EncodePayload(m, cs).Success? && p < EncodePayload(m, cs).value
    ensures DecodeHandshakeInitiation(p, ctx, cs) == Failure(Truncated)
  {
    var pk := cs.publicKey.toBytes(m.publicKey);
    var vb := cs.version.encode(m.version).value;
    assert EncodePayload(m, cs).value == pk + (m.randomBytes + vb);
    SplitPrefix(p, pk, m.randomBytes + vb);
    if |p| >= |pk| {
      var q := p[|pk|..];
      ReadFixedEncoded(cs.publicKey, m.publicKey, q);
      SplitPrefix(q, m.randomBytes, vb);
      if |q| >= |m.randomBytes| {
        ReadNonceEncoded(m.randomBytes, q[|m.randomBytes|..]);
        CompactPrefix(cs.version, m.version, q[|m.randomBytes|..]);
      }
    }
  }

  /** A block request cut inside its count or its ids is refused. */
  lemma AskForBlocksPrefix(m: Message, ctx: Context, cs: Codecs, p: seq<byte>)
    requires m.AskForBlocks? && FixedRoundTrips(cs.blockId) && WithinContext(m, ctx)
    requires EncodePayload(m, cs).Success? && p < EncodePayload(m, cs).value
    ensures DecodeAskForBlocks(p, ctx, cs) == Failure(Truncated)
  {
    var count := VarInt.Encode(|m.blockIds|);
    var body := ConcatFixed(cs.blockId, m.blockIds);
    SplitPrefix(p, count, body);
    if |p| < |count| {
      BoundedPrefix(|m.blockIds|, ctx.maxAskBlocks, p);
    } else {
      ReadBoundedEncoded(|m.blockIds|, ctx.maxAskBlocks, p[|count|..]);
      FixedListPrefix(cs.blockId, m.blockIds, p[|count|..]);
    }
  }

  /** A peer list cut inside its count or its addresses is refused. */
  lemma PeerListPrefix(m: Message, ctx: Context, cs: Codecs, p: seq<byte>)
    requires m.PeerList? && CompactRoundTrips(cs.ip) && CompactRefusesPrefixes(cs.ip) && WithinContext(m, ctx)
    requires EncodePayload(m, cs).Success? && p < EncodePayload(m, cs).value
    ensures DecodePeerList(p, ctx, cs) == Failure(Truncated)
  {
    assert AsU64(|m.peers|) == |m.peers|;
    var count := VarInt.Encode(|m.peers|);
    var body := EncodeAll(cs.ip, m.peers).value;
    SplitPrefix(p, count, body);
    if |p| < |count| {
      BoundedPrefix(|m.peers|, ctx.maxPeerList, p);
    } else {
      ReadBoundedEncoded(|m.peers|, ctx.maxPeerList, p[|count|..]);
      CompactListPrefix(cs.ip, m.peers, p[|count|..]);
    }
  }

  /** An operation-id list cut inside its count or its ids is refused. */
  lemma OperationIdsPrefix(ids: seq<OperationId>, max: u32, cs: Codecs, p: seq<byte>)
    requires FixedRoundTrips(cs.operationId) && |ids| <= max
    requires p < SerializeOperationIds(ids, cs).value
    ensures DeserializeOperationIds(p, max, cs) == Failure(Truncated)
  {
    var count := VarInt.Encode(|ids|);
    var body := ConcatFixed(cs.operationId, ids);
    SplitPrefix(p, count, body);
    if |p| < |count| {
      BoundedPrefix(|ids|, max, p);
    } else {
      ReadBoundedEncoded(|ids|, max, p[|count|..]);
      FixedListPrefix(cs.operationId, ids, p[|count|..]);
    }
  }

  /** An operation map cut inside its count or its entries is refused by the intended tag reader. */
  lemma OperationsPrefix(m: Message, ctx: Context, cs: Codecs, p: seq<byte>)
    requires m.Operations? && FixedRoundTrips(cs.operationId)
    requires CompactRoundTrips(cs.operation) && CompactRefusesPrefixes(cs.operation)
    requires |cs.entries(m.operations)| == |m.operations| && WithinContext(m, ctx)
    requires EncodePayload(m, cs).Success? && p < EncodePayload(m, cs).value
    ensures DecodeOperations(p, ctx, cs, BigEndianTag) == Failure(Truncated)
  {
    var es := cs.entries(m.operations);
    assert AsU32(|m.operations|) == |es|;
    var count := VarInt.Encode(|es|);
    var body := EncodeEntries(es, cs).value;
    SplitPrefix(p, count, body);
    if |p| < |count| {
      BoundedPrefix(|es|, ctx.maxOperations, p);
    } else {
      ReadBoundedEncoded(|es|, ctx.maxOperations, p[|count|..]);
      EntriesPrefix(cs, es, p[|count|..]);
    }
  }

  /** An endorsement list cut inside its count or its endorsements is refused. */
  lemma EndorsementsPrefix(m: Message, ctx: Context, cs: Codecs, p: seq<byte>)
    requires m.Endorsements? && CompactRoundTrips(cs.endorsement) && CompactRefusesPrefixes(cs.endorsement)
    requires WithinContext(m, ctx)
    requires EncodePayload(m, cs).Success? && p < EncodePayload(m, cs).value
    ensures DecodeEndorsements(p, ctx, cs) == Failure(Truncated)
  {
    assert AsU32(|m.endorsements|) == |m.endorsements|;
    var count := VarInt.Encode(|m.endorsements|);
    var body := EncodeAll(cs.endorsement, m.endorsements).value;
    SplitPrefix(p, count, body);
    if |p| < |count| {
      BoundedPrefix(|m.endorsements|, ctx.maxEndorsements, p);
    } else {
      ReadBoundedEncoded(|m.endorsements|, ctx.maxEndorsements, p[|count|..]);
      CompactListPrefix(cs.endorsement, m.endorsements, p[|count|..]);
    }
  }

  /** For every variant, a strict prefix of the payload is refused by the payload reader of its type. */
  lemma PayloadPrefix(m: Message, ctx: Context, cs: Codecs, p: seq<byte>)
    requires RoundTrips(cs) && RefusesPrefixes(cs)
    requires m.Operations? ==> |cs.entries(m.operations)| == |m.operations|
    requires WithinContext(m, ctx) && EncodePayload(m, cs).Success? && p < EncodePayload(m, cs).value
    ensures DecodePayload(p, TypeOf(m), ctx, cs, BigEndianTag) == Failure(Truncated)
  {
    PayloadDispatch(p, TypeOf(m), ctx, cs, BigEndianTag);
    match m
    case HandshakeInitiation(_, _, _) => HandshakeInitiationPrefix(m, ctx, cs, p);
    case HandshakeReply(sig) => FixedPrefix(cs.signature, sig, p);
    case Block(b) => CompactPrefix(cs.block, b, p);
    case BlockHeader(h) => CompactPrefix(cs.header, h, p);
    case AskForBlocks(_) => AskForBlocksPrefix(m, ctx, cs, p);
    case AskPeerList => assert false;
    case PeerList(_) => PeerListPrefix(m, ctx, cs, p);
    case BlockNotFound(id) => FixedPrefix(cs.blockId, id, p);
    case OperationsBatch(ids) => OperationIdsPrefix(ids, ctx.maxOperations, cs, p);
    case AskForOperations(ids) => OperationIdsPrefix(ids, ctx.maxOperations, cs, p);
    case Operations(_) => OperationsPrefix(m, ctx, cs, p);
    case Endorsements(_) => EndorsementsPrefix(m, ctx, cs, p);
  }

  /**
   * A message cut anywhere before its last byte is refused as truncated by
   * the intended decoder, and, unless it is an `Operations` message, by the
   * decoder as written.
   */
  lemma CutShortRefused(m: Message, ctx: Context, cs: Codecs, k: nat)
    requires RoundTrips(cs) && RefusesPrefixes(cs)
    requires m.Operations? ==> |cs.entries(m.operations)| == |m.operations|
    requires WithinContext(m, ctx) && Encode(m, cs).Success? && k < |Encode(m, cs).value|
    ensures Decode(Encode(m, cs).value[..k], ctx, cs) == Failure(Truncated)
    ensures !m.Operations? ==> DecodeAsWritten(Encode(m, cs).value[..k], ctx, cs) == Failure(Truncated)
  {
    var enc := Encode(m, cs).value;
    var buf := enc[..k];
    if k == 0 {
      assert buf == [];
      EmptyRefused(ctx, cs, BigEndianTag);
      EmptyRefused(ctx, cs, VarIntTag);
    } else {
      TypeTagByte(m);
      var payload := EncodePayload(m, cs).value;
      var n := MessageTypes.ToU32(TypeOf(m));
      assert enc == [n] + payload;
      var p := payload[..k - 1];
      assert buf == [n] + p;
      assert p < payload;
      assert ReadVarIntU32(buf) == Success(Taken(n, p)) by {
        assert VarInt.DecodeU32(buf) == Success(Parsed(n, 1));
        assert buf[1..] == p;
      }
      MessageTypes.TypeIdRoundTrip(TypeOf(m));
      PayloadPrefix(m, ctx, cs, p);
      DecodeWithPayloadFailure(buf, ctx, cs, BigEndianTag, n, TypeOf(m), p, Truncated);
      if !m.Operations? {
        PayloadIgnoresTag(p, TypeOf(m), ctx, cs);
        DecodeWithPayloadFailure(buf, ctx, cs, VarIntTag, n, TypeOf(m), p, Truncated);
      }
    }
  }
}
