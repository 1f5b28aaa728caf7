/** The mailbox messages the actors exchange (the chatter and p2p `ingress`
    modules). The reply that travels back on a message's one-shot channel
    is returned by the handler as an `Option`: `None` means the handler
    dropped the channel without answering. */
module Ingress {
  import opened Bytes
  import opened Blocks

  /** Requests handled by the chatter (aggregator) actor. */
  datatype ChatterMessage =
    | GetMiniBlocks(view: View)
    | PutMiniBlocks(view: View, miniBlocks: seq<MiniBlock>)
    | SendMiniBlock(view: View)
    | LoadMiniBlockFromP2P(pubkey: PublicKey, miniBlock: MiniBlock)
    | LoadChat(data: Bytes)

  /** What the chatter sends back on a request's reply channel. */
  datatype ChatterReply =
    | Bundle(miniBlocks: MiniBlocks)
    | Flag(flag: bool)

  /** Requests handled by the p2p (leader relay) actor. */
  datatype P2PMessage =
    | SendMiniBlockToLeader(view: View, miniBlock: MiniBlock)
}
