/**
 * The messages two peers exchange (`Message`,
 * massa-network-worker/src/messages.rs) and the limits a decode is given.
 */
module Messages {
  import opened Ints
  import opened Collaborators
  import MessageTypes

  /** Size of the handshake nonce (`HANDSHAKE_RANDOMNESS_SIZE_BYTES`). */
  const HANDSHAKE_RANDOMNESS_SIZE_BYTES: nat := 32

  type Nonce = s: seq<byte> | |s| == HANDSHAKE_RANDOMNESS_SIZE_BYTES
    witness seq(32, i => 0)

  datatype Message =
    | HandshakeInitiation(publicKey: PublicKey, randomBytes: Nonce, version: Version)
    | HandshakeReply(signature: Signature)
    | Block(block: Collaborators.Block)
    | BlockHeader(header: Collaborators.BlockHeader)
    | AskForBlocks(blockIds: seq<BlockId>)
    | AskPeerList
    | PeerList(peers: seq<IpAddr>)
    | BlockNotFound(blockId: BlockId)
    | OperationsBatch(operationIds: seq<OperationId>)
    | AskForOperations(operationIds: seq<OperationId>)
    | Operations(operations: OperationMap)
    | Endorsements(endorsements: seq<Endorsement>)

  /** The registry entry of each variant. */
  function TypeOf(m: Message): MessageTypes.MessageTypeId {
    match m
    case HandshakeInitiation(_, _, _) => MessageTypes.HandshakeInitiation
    case HandshakeReply(_) => MessageTypes.HandshakeReply
    case Block(_) => MessageTypes.Block
    case BlockHeader(_) => MessageTypes.BlockHeader
    case AskForBlocks(_) => MessageTypes.AskForBlocks
    case AskPeerList => MessageTypes.AskPeerList
    case PeerList(_) => MessageTypes.PeerList
    case BlockNotFound(_) => MessageTypes.BlockNotFound
    case OperationsBatch(_) => MessageTypes.OperationsBatch
    case AskForOperations(_) => MessageTypes.AskForOperation
    case Operations(_) => MessageTypes.Operations
    case Endorsements(_) => MessageTypes.Endorsements
  }

  /**
   * The four maxima a decode reads from the serialization context, passed
   * explicitly instead of through the process-wide global.
   */
  datatype Context = Context(
    maxAskBlocks: u32,
    maxPeerList: u32,
    maxOperations: u32,
    maxEndorsements: u32)

  /** Every collection in `m` is within the maximum the context sets for its field. */
  predicate WithinContext(m: Message, ctx: Context) {
    match m
    case AskForBlocks(ids) => |ids| <= ctx.maxAskBlocks
    case PeerList(ips) => |ips| <= ctx.maxPeerList
    case OperationsBatch(ids) => |ids| <= ctx.maxOperations
    case AskForOperations(ids) => |ids| <= ctx.maxOperations
    case Operations(ops) => |ops| <= ctx.maxOperations
    case Endorsements(es) => |es| <= ctx.maxEndorsements
    case _ => true
  }
}
