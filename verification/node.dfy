/** One validator process wired as src/bin/validator.rs wires it: the
    bridge's requests are served by the chatter, the chatter's by the p2p
    relay, and all three share one supervisor. These functions follow a
    callback across the actors, and the lemmas state what the actors
    achieve together. */
module Node {
  import opened Bytes
  import opened Wrappers
  import opened Blocks
  import opened Ingress
  import Supervisor
  import Chatter
  import P2P
  import Application

  /** The bundle a chatter answer carries, if it carries one. */
  function ProtoBlockOf(reply: Option<ChatterReply>): Option<MiniBlocks> {
    match reply
    case Some(Bundle(proto)) => Some(proto)
    case _ => None
  }

  /** `Propose(view)` with `GetMiniBlocks` served by the chatter in state
      `a`: the engine gets a proposal exactly when the chatter holds a
      quorum for the view counting the local mini-block, or the view is 1;
      the proposal is the local mini-block followed by the cached ones. */
  function ProposeViaChatter(
    hash: Bytes -> Bytes, a: Chatter.Actor, sup: Supervisor.Supervisor, quorum: nat -> nat, view: View)
    : (r: Option<Application.EngineReply>)
    requires Chatter.Valid(a)
    ensures r.Some? <==> 1 + |Chatter.CachedAt(a, view)| >= Chatter.QuorumAt(sup, quorum, view) || view == 1
    ensures r.Some? ==> r.value.Proposal? && r.value.proto == Chatter.BuildBundle(a, view)
    ensures r.Some? ==> r.value.proto.miniBlocks[0] == Chatter.LocalMiniBlock(view)
  {
    var call := Application.Handle(hash, Application.Propose(view), Application.Answers(None, None, None)).calls[0];
    var served := Chatter.Handle(a, sup, quorum, call.msg);
    Application.Handle(hash, Application.Propose(view), Application.Answers(ProtoBlockOf(served.reply), None, None)).reply
  }

  /** `Verify(view, proto)` with `SendMiniBlock` served by the chatter: the
      chatter leaves its state alone and asks the relay to send the
      mini-block for `view + 1`; the vote is the sufficiency answer. */
  function VerifyViaChatter(
    hash: Bytes -> Bytes, a: Chatter.Actor, sup: Supervisor.Supervisor, quorum: nat -> nat,
    view: View, proto: MiniBlocks, sufficient: Option<bool>)
    : (r: (Chatter.Step, Option<Application.EngineReply>))
    requires Chatter.Valid(a) && view + 1 < U64_MODULUS
    ensures r.0.next == a
    ensures r.0.toP2P == [SendMiniBlockToLeader(view, Chatter.RelayMiniBlock(view))]
    ensures r.1 == Some(Application.Vote(sufficient == Some(true)))
  {
    var cb := Application.Verify(view, proto);
    var first := Application.Handle(hash, cb, Application.Answers(None, None, sufficient)).calls[0];
    var served := Chatter.Handle(a, sup, quorum, first.msg);
    var sent := match served.reply
      case Some(Flag(b)) => Some(b)
      case _ => None;
    (served, Application.Handle(hash, cb, Application.Answers(None, sent, sufficient)).reply)
  }

  /** The request `Nullify(view)` makes this validator's chatter, in state
      `mine`, send to its relay: the mini-block for `view + 1`. */
  function NullifyRequest(
    hash: Bytes -> Bytes, sup: Supervisor.Supervisor, quorum: nat -> nat, mine: Chatter.Actor, view: View)
    : (r: P2PMessage)
    requires Chatter.Valid(mine) && view + 1 < U64_MODULUS
    ensures r == SendMiniBlockToLeader(view, Chatter.RelayMiniBlock(view))
  {
    var call := Application.Handle(hash, Application.Nullify(view), Application.Answers(None, None, None)).calls[0];
    Chatter.Handle(mine, sup, quorum, call.msg).toP2P[0]
  }

  /** The relay at `me` sends `request`, and the relay of its recipient
      hands what it receives to its own chatter: the recipient, and the
      message that chatter gets. */
  function Deliver(sup: Supervisor.Supervisor, me: PublicKey, request: P2PMessage)
    : (r: (PublicKey, ChatterMessage))
    requires |sup.participants| > 0 && request.view + 1 < U64_MODULUS
    ensures r.0 == Supervisor.Leader(sup, request.view + 1)
    ensures r.1 == LoadMiniBlockFromP2P(me, request.miniBlock)
  {
    var unicast := P2P.SendToLeader(sup, request.view, request.miniBlock).sent[0];
    P2P.RelayedFrameIsLoaded(sup, request.view, request.miniBlock, me);
    (unicast.recipient, P2P.OnDelivery(P2P.Received(me, unicast.frame)).effects.toChatter[0])
  }

  /** How a mini-block relayed on `Nullify` ends up: who received it, the
      block itself, and the receiving leader's chatter after loading it. */
  datatype Relayed = Relayed(recipient: PublicKey, block: MiniBlock, leaderNext: Chatter.Actor)

  /** `Nullify(view)` at validator `me`: the bridge asks the chatter to send
      its mini-block; the chatter builds it for `view + 1` and passes it to
      the relay; the relay unicasts it to `leader(view + 1)`; that leader's
      relay receives it from `me` and its chatter, in state `leader`, loads
      it under `me`, for the view the leader leads. */
  function NullifyRelay(
    hash: Bytes -> Bytes, sup: Supervisor.Supervisor, quorum: nat -> nat,
    mine: Chatter.Actor, me: PublicKey, leader: Chatter.Actor, view: View)
    : (r: Relayed)
    requires Chatter.Valid(mine) && Chatter.Valid(leader)
    requires |sup.participants| > 0 && view + 1 < U64_MODULUS
    ensures r.recipient == Supervisor.Leader(sup, view + 1)
    ensures r.block == Chatter.RelayMiniBlock(view) && r.block.view == view + 1
    ensures Chatter.Valid(r.leaderNext)
    ensures Chatter.Lookup(r.leaderNext, view + 1, me) == Some(r.block)
    ensures forall v, k :: v != view + 1 || k != me ==> Chatter.Lookup(r.leaderNext, v, k) == Chatter.Lookup(leader, v, k)
  {
    var request := NullifyRequest(hash, sup, quorum, mine, view);
    var (recipient, load) := Deliver(sup, me, request);
    var leaderStep := Chatter.Handle(leader, sup, quorum, load);
    Relayed(recipient, request.miniBlock, leaderStep.next)
  }

  /** After the relay, the leader's proposal for `view + 1` carries the
      relayed mini-block. */
  lemma RelayedBlockReachesProposal(
    hash: Bytes -> Bytes, sup: Supervisor.Supervisor, quorum: nat -> nat,
    mine: Chatter.Actor, me: PublicKey, leader: Chatter.Actor, view: View)
    requires Chatter.Valid(mine) && Chatter.Valid(leader)
    requires |sup.participants| > 0 && view + 1 < U64_MODULUS
    ensures var r := NullifyRelay(hash, sup, quorum, mine, me, leader, view);
            r.block in Chatter.BuildBundle(r.leaderNext, view + 1).miniBlocks[1..]
  {
  }

  /** The boundary the aggregator's quorum check draws with four validators
      and a quorum of three: at view 2 a proposal needs two cached
      mini-blocks besides the local one. */
  lemma QuorumOfThreeAmongFour(
    hash: Bytes -> Bytes, a: Chatter.Actor, sup: Supervisor.Supervisor, quorum: nat -> nat)
    requires Chatter.Valid(a) && |sup.participants| == 4 && quorum(4) == 3
    ensures ProposeViaChatter(hash, a, sup, quorum, 2).Some? <==> |Chatter.CachedAt(a, 2)| >= 2
  {
  }
}
