/** The data carried between the actors (src/application/mini_block.rs):
    one validator's contribution for a view, and a bundle of them. */
module Blocks {
  import opened Bytes

  /** A consensus round number (`u64`). */
  type View = uint64

  /** A validator identity: the raw bytes of its public key. */
  type PublicKey = Bytes

  /** `MiniBlock { view, data, sig }`; `sig` is a placeholder that nothing
      in the system signs or checks. */
  datatype MiniBlock = MiniBlock(view: View, data: Bytes, sig: Bytes)

  /** `MiniBlocks { mini_blocks }`, also called the proto-block: the
      candidate content of a proposal. */
  datatype MiniBlocks = MiniBlocks(miniBlocks: seq<MiniBlock>)
}
