/**
 * The registry of message discriminants (`MessageTypeId`,
 * massa-network-worker/src/messages.rs). The table is written out both
 * ways; the contracts prove the two directions inverse.
 */
module MessageTypes {
  import opened Ints
  import opened Wrappers

  datatype MessageTypeId =
    | HandshakeInitiation
    | HandshakeReply
    | Block
    | BlockHeader
    | AskForBlocks
    | AskPeerList
    | PeerList
    | BlockNotFound
    | Operations
    | Endorsements
    | AskForOperation
    | OperationsBatch

  /** Number of message types in the current protocol. */
  const TYPE_COUNT: nat := 12

  /** `u32::from(id)`. */
  function ToU32(t: MessageTypeId): (n: u32)
    ensures n < TYPE_COUNT
  {
    match t
    case HandshakeInitiation => 0
    case HandshakeReply => 1
    case Block => 2
    case BlockHeader => 3
    case AskForBlocks => 4
    case AskPeerList => 5
    case PeerList => 6
    case BlockNotFound => 7
    case Operations => 8
    case Endorsements => 9
    case AskForOperation => 10
    case OperationsBatch => 11
  }

  /** `MessageTypeId::try_from(n)`: `None` exactly for a value outside the table. */
  function FromU32(n: u32): (r: Option<MessageTypeId>)
    ensures r.Some? <==> n < TYPE_COUNT
    ensures r.Some? ==> ToU32(r.value) == n
  {
    if n == 0 then Some(HandshakeInitiation)
    else if n == 1 then Some(HandshakeReply)
    else if n == 2 then Some(Block)
    else if n == 3 then Some(BlockHeader)
    else if n == 4 then Some(AskForBlocks)
    else if n == 5 then Some(AskPeerList)
    else if n == 6 then Some(PeerList)
    else if n == 7 then Some(BlockNotFound)
    else if n == 8 then Some(Operations)
    else if n == 9 then Some(Endorsements)
    else if n == 10 then Some(AskForOperation)
    else if n == 11 then Some(OperationsBatch)
    else None
  }

  /** Each type's discriminant maps back to that type, so no two types share one. */
  lemma TypeIdRoundTrip(t: MessageTypeId)
    ensures FromU32(ToU32(t)) == Some(t)
    ensures forall t' :: ToU32(t') == ToU32(t) ==> t' == t
  {
  }
}
