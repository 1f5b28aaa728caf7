/** The application actor (the consensus bridge): it answers the six
    callbacks of the consensus engine by asking the chatter
    (src/application/actor.rs). It keeps no state of its own between
    callbacks, so each callback is a per-call protocol: the requests it
    sends, in order, and the answer it gives the engine, as a function of
    the answers its requests got back. */
module Application {
  import opened Bytes
  import opened Wrappers
  import opened Blocks
  import opened Ingress

  /** `GENESIS`: the bytes of "commonware is neat". */
  const GENESIS: Bytes := [99, 111, 109, 109, 111, 110, 119, 97, 114, 101, 32, 105, 115, 32, 110, 101, 97, 116]

  /** The engine's callbacks. `Verify` carries its payload already decoded
      from JSON into a bundle. */
  datatype Callback =
    | Genesis
    | Propose(view: View)
    | Verify(view: View, proto: MiniBlocks)
    | Nullify(view: View)
    | Prepared(proof: Bytes, payload: Bytes)
    | Finalized(proof: Bytes, payload: Bytes)

  /** A request to the chatter. The sufficiency check has no handler in the
      chatter, so its answer is an outside input. */
  datatype Call =
    | ToChatter(msg: ChatterMessage)
    | CheckSufficientMiniBlocks(view: View, proto: MiniBlocks)

  /** The answers the bridge's requests got back; `None` means the reply
      channel was dropped without an answer. */
  datatype Answers = Answers(protoBlock: Option<MiniBlocks>, sent: Option<bool>, sufficient: Option<bool>)

  /** What the bridge sends back to the engine: the genesis digest, the
      proposal payload (the JSON of a bundle, shown as the bundle), or the
      vote on a proposal. */
  datatype EngineReply =
    | Digest(digest: Bytes)
    | Proposal(proto: MiniBlocks)
    | Vote(valid: bool)

  /** The requests a callback sends, in order, and the engine's answer
      (`None`: the engine gets none). */
  datatype Step = Step(calls: seq<Call>, reply: Option<EngineReply>)

  /** One callback. `hash` is the digest of the configured hasher. */
  function Handle(hash: Bytes -> Bytes, cb: Callback, answers: Answers): (r: Step)
    ensures cb.Genesis? ==> r.calls == [] && r.reply == Some(Digest(hash(GENESIS)))
    ensures cb.Propose? ==> r.calls == [ToChatter(GetMiniBlocks(cb.view))]
    ensures cb.Propose? ==> (r.reply.Some? <==> answers.protoBlock.Some?)
    ensures cb.Propose? && r.reply.Some? ==> r.reply.value == Proposal(answers.protoBlock.value)
    ensures cb.Verify? ==>
              r.calls == [ToChatter(SendMiniBlock(cb.view)), CheckSufficientMiniBlocks(cb.view, cb.proto)]
    ensures cb.Verify? ==> r.reply == Some(Vote(answers.sufficient == Some(true)))
    ensures cb.Nullify? ==> r.calls == [ToChatter(SendMiniBlock(cb.view))] && r.reply.None?
    ensures cb.Prepared? || cb.Finalized? ==> r.calls == [] && r.reply.None?
  {
    match cb
    case Genesis => Step([], Some(Digest(hash(GENESIS))))
    case Propose(view) =>
      var reply := match answers.protoBlock
        case Some(proto) => Some(Proposal(proto))
        case None => None;
      Step([ToChatter(GetMiniBlocks(view))], reply)
    case Verify(view, proto) =>
      var vote := match answers.sufficient
        case Some(ok) => ok
        case None => false;
      Step([ToChatter(SendMiniBlock(view)), CheckSufficientMiniBlocks(view, proto)], Some(Vote(vote)))
    case Nullify(view) => Step([ToChatter(SendMiniBlock(view))], None)
    case Prepared(_, _) => Step([], None)
    case Finalized(_, _) => Step([], None)
  }

  /** The requests a callback sends never depend on the answers, and only
      `Propose`, `Verify` and `Nullify` send any. */
  lemma CallsIgnoreAnswers(hash: Bytes -> Bytes, cb: Callback, a1: Answers, a2: Answers)
    ensures Handle(hash, cb, a1).calls == Handle(hash, cb, a2).calls
    ensures Handle(hash, cb, a1).calls != [] <==> cb.Propose? || cb.Verify? || cb.Nullify?
  {
  }

  /** Genesis is the same for every process: it depends on neither the
      answers nor anything else but the hasher. */
  lemma GenesisIsFixed(hash: Bytes -> Bytes, a1: Answers, a2: Answers)
    ensures Handle(hash, Genesis, a1) == Handle(hash, Genesis, a2)
  {
  }

  /** The vote is the sufficiency answer unchanged, `false` when that
      channel failed, and nothing else sways it: not the outcome of sending
      the mini-block on, not the proposal answer. */
  lemma VoteIsSufficiency(hash: Bytes -> Bytes, view: View, proto: MiniBlocks, a1: Answers, a2: Answers)
    requires a1.sufficient == a2.sufficient
    ensures Handle(hash, Verify(view, proto), a1).reply == Handle(hash, Verify(view, proto), a2).reply
    ensures Handle(hash, Verify(view, proto), a1).reply == Some(Vote(a1.sufficient.GetOr(false)))
  {
  }
}
