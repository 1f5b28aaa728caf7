/** The p2p actor (the leader relay): it unicasts this validator's
    mini-block to the leader of the next view, and hands mini-blocks that
    peers send to it over to the chatter (src/application/p2p/actor.rs).
    Its only state is the supervisor, which it never changes. */
module P2P {
  import opened Bytes
  import opened Wrappers
  import opened Blocks
  import opened Ingress
  import Supervisor

  /** `wire::inbound::Payload`; the JSON in `PutMiniBlock.data` is shown
      already decoded. */
  datatype InboundPayload = PutMiniBlock(miniBlock: MiniBlock)

  /** `wire::Inbound`: the protobuf envelope, whose payload is optional. */
  datatype Inbound = Inbound(payload: Option<InboundPayload>)

  /** The bytes of a transport message, seen through `wire::Inbound::decode`:
      either they do not decode, or they decode to an envelope. */
  datatype Frame = Undecodable | Decoded(inbound: Inbound)

  /** One result of `receiver.recv()`. */
  datatype Delivery = RecvError | Received(sender: PublicKey, frame: Frame)

  /** What the `select!` of the loop picked: a mailbox command or a
      delivery from the network. */
  datatype Event = Command(msg: P2PMessage) | Network(delivery: Delivery)

  /** `sender.send(Recipients::One(recipient), frame, false)`. */
  datatype Unicast = Unicast(recipient: PublicKey, frame: Frame)

  /** The effects of one turn: unicasts sent, requests to the chatter, and
      the answer on the command's reply channel. */
  datatype Effects = Effects(sent: seq<Unicast>, toChatter: seq<ChatterMessage>, reply: Option<bool>)

  /** A turn either leaves the loop or continues it. */
  datatype Outcome = Break | Continue(effects: Effects)

  /** The frame carrying `mb`: the `Inbound` envelope with a
      `PutMiniBlock` payload holding the block's JSON. */
  function Encode(mb: MiniBlock): Frame {
    Decoded(Inbound(Some(PutMiniBlock(mb))))
  }

  /** `SendMiniBlockToLeader(view, mini_block)`: one unicast of the block to
      the leader of `view + 1`, then `true` on the reply channel. */
  function SendToLeader(sup: Supervisor.Supervisor, view: View, mb: MiniBlock): (r: Effects)
    requires |sup.participants| > 0 && view + 1 < U64_MODULUS
    ensures |r.sent| == 1
    ensures r.sent[0].recipient == Supervisor.Leader(sup, view + 1)
    ensures r.sent[0].frame == Encode(mb)
    ensures r.toChatter == [] && r.reply == Some(true)
  {
    Effects([Unicast(Supervisor.Leader(sup, view + 1), Encode(mb))], [], Some(true))
  }

  /** A delivery from the network: a receive error ends the loop; bytes
      that do not decode, and envelopes without payload, are skipped; a
      `PutMiniBlock` goes to the chatter keyed by the sender the transport
      reports, whatever the block itself contains. */
  function OnDelivery(d: Delivery): (r: Outcome)
    ensures r.Break? <==> d.RecvError?
    ensures r.Continue? ==> r.effects.sent == [] && r.effects.reply.None?
    ensures r.Continue? && r.effects.toChatter == [] <==>
              d.Received? && (d.frame.Undecodable? || d.frame.inbound.payload.None?)
    ensures r.Continue? && r.effects.toChatter != [] ==>
              d.Received? && d.frame.Decoded? && d.frame.inbound.payload.Some?
              && r.effects.toChatter == [LoadMiniBlockFromP2P(d.sender, d.frame.inbound.payload.value.miniBlock)]
  {
    match d
    case RecvError => Break
    case Received(sender, frame) =>
      match frame
      case Undecodable => Continue(Effects([], [], None))
      case Decoded(Inbound(None)) => Continue(Effects([], [], None))
      case Decoded(Inbound(Some(PutMiniBlock(mb)))) =>
        Continue(Effects([], [LoadMiniBlockFromP2P(sender, mb)], None))
  }

  /** An event the handler can take: a command computes `view + 1` as a
      `u64`. */
  predicate Admissible(e: Event) {
    e.Command? ==> e.msg.view + 1 < U64_MODULUS
  }

  /** One turn of the loop (`Actor::run`). */
  function Handle(sup: Supervisor.Supervisor, e: Event): (r: Outcome)
    requires |sup.participants| > 0 && Admissible(e)
    ensures r.Break? <==> e == Network(RecvError)
    ensures e.Command? ==> r.Continue? && |r.effects.sent| == 1 && r.effects.reply == Some(true)
    ensures e.Network? ==> r == OnDelivery(e.delivery)
  {
    match e
    case Command(SendMiniBlockToLeader(view, mb)) => Continue(SendToLeader(sup, view, mb))
    case Network(d) => OnDelivery(d)
  }

  /** What the loop has produced: one `Effects` per handled event, and
      whether it has left the loop. */
  datatype RunResult = RunResult(effects: seq<Effects>, stopped: bool)

  /** Every event of `events` is admissible. */
  predicate AllAdmissible(events: seq<Event>) {
    forall i :: 0 <= i < |events| ==> Admissible(events[i])
  }

  /** The loop over `events`, in the order `select!` picked them; it stops
      at the first `Break`. */
  function Run(sup: Supervisor.Supervisor, events: seq<Event>): (r: RunResult)
    requires |sup.participants| > 0 && AllAdmissible(events)
    ensures |r.effects| <= |events|
    ensures !r.stopped ==> |r.effects| == |events|
    ensures r.stopped <==> Network(RecvError) in events
  {
    if |events| == 0 then RunResult([], false)
    else
      match Handle(sup, events[0])
      case Break => RunResult([], true)
      case Continue(e) =>
        var rest := Run(sup, events[1..]);
        RunResult([e] + rest.effects, rest.stopped)
  }

  /** Each effect set of a run is what `Handle` gives for the event at the
      same position: the loop handles the events in order and skips none. */
  lemma {:induction false} RunEffects(sup: Supervisor.Supervisor, events: seq<Event>, i: nat)
    requires |sup.participants| > 0 && AllAdmissible(events)
    requires i < |Run(sup, events).effects|
    ensures Handle(sup, events[i]) == Continue(Run(sup, events).effects[i])
  {
    if i > 0 {
      assert forall j :: 0 <= j < |events| - 1 ==> events[1..][j] == events[j + 1];
      RunEffects(sup, events[1..], i - 1);
    }
  }

  /** A receive error ends the loop: nothing after it is handled, whatever
      came before it. */
  lemma {:induction false} RecvErrorEndsLoop(sup: Supervisor.Supervisor, before: seq<Event>, after: seq<Event>)
    requires |sup.participants| > 0
    requires AllAdmissible(before) && AllAdmissible(after)
    ensures AllAdmissible(before + [Network(RecvError)] + after)
    ensures Run(sup, before + [Network(RecvError)] + after).effects == Run(sup, before).effects
    ensures Run(sup, before + [Network(RecvError)] + after).stopped
  {
    var all := before + [Network(RecvError)] + after;
    assert forall i :: 0 <= i < |all| ==> Admissible(all[i]) by {
      forall i | 0 <= i < |all|
        ensures Admissible(all[i])
      {
        if i < |before| {
          assert all[i] == before[i];
        } else if i > |before| {
          assert all[i] == after[i - |before| - 1];
        }
      }
    }
    if |before| > 0 {
      assert all[1..] == before[1..] + [Network(RecvError)] + after;
      RecvErrorEndsLoop(sup, before[1..], after);
    }
  }

  /** A frame the relay sends, received by the leader from this validator,
      reaches the leader's chatter as a load of the same block keyed by
      this validator. */
  lemma RelayedFrameIsLoaded(sup: Supervisor.Supervisor, view: View, mb: MiniBlock, me: PublicKey)
    requires |sup.participants| > 0 && view + 1 < U64_MODULUS
    ensures OnDelivery(Received(me, SendToLeader(sup, view, mb).sent[0].frame))
            == Continue(Effects([], [LoadMiniBlockFromP2P(me, mb)], None))
  {
  }
}
