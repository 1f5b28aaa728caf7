/** The chatter actor (the aggregator): it owns the per-view cache of
    mini-blocks received from peers and the queue of chat data, and answers
    one mailbox message at a time (src/application/chatter/actor.rs). */
module Chatter {
  import opened Bytes
  import opened Wrappers
  import opened Blocks
  import opened Ingress
  import opened BTree
  import Lex
  import Supervisor

  /** `mini_blocks_cache`: view -> pubkey -> mini-block; `chat_queue`: the
      FIFO of chat data waiting to be packed into a local mini-block. */
  datatype Actor = Actor(cache: map<View, BTreeMap<MiniBlock>>, chatQueue: seq<Bytes>)

  /** Every per-view map is a well-formed `BTreeMap`. */
  ghost predicate Valid(a: Actor) {
    forall v :: v in a.cache ==> BTree.Valid(a.cache[v])
  }

  /** `Actor::new`: nothing cached, nothing queued. */
  function New(): (a: Actor)
    ensures Valid(a)
    ensures forall v, k :: Lookup(a, v, k).None?
    ensures a.chatQueue == []
  {
    Actor(map[], [])
  }

  /** The mini-block cached for `(view, pubkey)`, if any. */
  function Lookup(a: Actor, view: View, pubkey: PublicKey): Option<MiniBlock> {
    if view in a.cache then Get(a.cache[view], pubkey) else None
  }

  /** The per-view map, or an empty one when the view was never seen. */
  function CachedAt(a: Actor, view: View): BTreeMap<MiniBlock> {
    if view in a.cache then a.cache[view] else Empty()
  }

  /** Length of the placeholder data and signature of a local mini-block. */
  const DATA_LEN: nat := 32
  const SIG_LEN: nat := 32

  /** The placeholder payload both handlers build: 32 zero bytes with
      `stamp.to_be_bytes()` copied into bytes 1..9. */
  function ViewStamp(stamp: View): (r: Bytes)
    ensures |r| == DATA_LEN
    ensures FromBigEndian(r[1..9]) == stamp
    ensures forall i :: 0 <= i < DATA_LEN && !(1 <= i < 9) ==> r[i] == 0
  {
    CopyFromSlice(Zeros(DATA_LEN), 1, U64ToBeBytes(stamp))
  }

  /** Distinct views get distinct stamps. */
  lemma ViewStampInjective(v1: View, v2: View)
    requires ViewStamp(v1) == ViewStamp(v2)
    ensures v1 == v2
  {
  }

  /** The mini-block `GetMiniBlocks` builds for the proposal: for `view`,
      stamped with `view`, with a 32-byte zero signature. */
  function LocalMiniBlock(view: View): (r: MiniBlock)
    ensures r.view == view
    ensures |r.data| == DATA_LEN && FromBigEndian(r.data[1..9]) == view
    ensures forall i :: 0 <= i < DATA_LEN && !(1 <= i < 9) ==> r.data[i] == 0
    ensures r.sig == Zeros(SIG_LEN)
  {
    MiniBlock(view, ViewStamp(view), Zeros(SIG_LEN))
  }

  /** The mini-block `SendMiniBlock(view)` relays: it is for the NEXT view
      but stamped with `view`, and its signature is the two bytes `[0, 32]`
      (`vec![0u8, 32]`). `view + 1` must not overflow. */
  function RelayMiniBlock(view: View): (r: MiniBlock)
    requires view + 1 < U64_MODULUS
    ensures r.view == view + 1
    ensures |r.data| == DATA_LEN && FromBigEndian(r.data[1..9]) == view
    ensures forall i :: 0 <= i < DATA_LEN && !(1 <= i < 9) ==> r.data[i] == 0
    ensures r.sig == [0, 32]
  {
    MiniBlock(view + 1, ViewStamp(view), [0, 32])
  }

  /** The quorum for `view`: `quorum(participants(view).len() as u32)`.
      `quorum` is the externally supplied policy. The count it gets is the
      size of the whole validator set, truncated to 32 bits. */
  function QuorumAt(sup: Supervisor.Supervisor, quorum: nat -> nat, view: View): (r: nat)
    ensures r == quorum(|sup.participants| % U32_MODULUS)
    ensures |sup.participants| < U32_MODULUS ==> r == quorum(|sup.participants|)
  {
    quorum(AsU32(|Supervisor.Participants(sup, view)|))
  }

  /** The keys cached for `view`, in the map's iteration order. */
  function KeysAt(a: Actor, view: View): (r: seq<PublicKey>)
    requires Valid(a)
    ensures |r| == |CachedAt(a, view)|
    ensures forall i, j :: 0 <= i < j < |r| ==> Lex.Lt(r[i], r[j])
    ensures forall k :: Lookup(a, view, k).Some? <==> k in r
  {
    var m := CachedAt(a, view);
    KeysMatchGet(m);
    Keys(m)
  }

  /** The bundle `GetMiniBlocks(view)` assembles: the local mini-block
      first, then every cached mini-block of `view`, one per cached key, in
      ascending key order. */
  function BuildBundle(a: Actor, view: View): (r: MiniBlocks)
    requires Valid(a)
    ensures |r.miniBlocks| == 1 + |CachedAt(a, view)|
    ensures r.miniBlocks[0] == LocalMiniBlock(view)
    ensures forall i :: 1 <= i < |r.miniBlocks| ==>
              Lookup(a, view, KeysAt(a, view)[i - 1]) == Some(r.miniBlocks[i])
    ensures forall pk :: Lookup(a, view, pk).Some? ==> Lookup(a, view, pk).value in r.miniBlocks[1..]
  {
    var m := CachedAt(a, view);
    ValuesMatchKeys(m);
    var r := MiniBlocks([LocalMiniBlock(view)] + Values(m));
    assert r.miniBlocks[1..] == Values(m);
    assert forall i :: 1 <= i < |r.miniBlocks| ==> r.miniBlocks[i] == Values(m)[i - 1];
    r
  }

  /** `GetMiniBlocks(view)`: replies with the bundle when it holds at least
      a quorum of mini-blocks, or when `view` is 1; otherwise drops the
      reply channel without answering. Reads the cache, never writes it. */
  function GetMiniBlocks(a: Actor, sup: Supervisor.Supervisor, quorum: nat -> nat, view: View): (r: Option<MiniBlocks>)
    requires Valid(a)
    ensures r.Some? <==> 1 + |CachedAt(a, view)| >= QuorumAt(sup, quorum, view) || view == 1
    ensures r.Some? ==> r.value == BuildBundle(a, view)
  {
    var bundle := BuildBundle(a, view);
    if |bundle.miniBlocks| >= QuorumAt(sup, quorum, view) || view == 1 then Some(bundle) else None
  }

  /** `LoadMiniBlockFromP2P(pubkey, mini_block)`: stores the block under
      `(mini_block.view, pubkey)`, replacing whatever was there, creating
      the view's map if the view is new; answers whether an entry was
      already there. */
  function LoadMiniBlock(a: Actor, pubkey: PublicKey, mb: MiniBlock): (r: (Actor, bool))
    requires Valid(a)
    ensures Valid(r.0)
    ensures Lookup(r.0, mb.view, pubkey) == Some(mb)
    ensures r.1 <==> Lookup(a, mb.view, pubkey).Some?
    ensures forall v, k :: v != mb.view || k != pubkey ==> Lookup(r.0, v, k) == Lookup(a, v, k)
    ensures r.0.cache.Keys == a.cache.Keys + {mb.view}
    ensures |CachedAt(r.0, mb.view)| == |CachedAt(a, mb.view)| + (if r.1 then 0 else 1)
    ensures r.0.chatQueue == a.chatQueue
  {
    var view := mb.view;
    if view in a.cache then
      var m := a.cache[view];
      var alreadyHas := Get(m, pubkey).Some?;
      (a.(cache := a.cache[view := Insert(m, pubkey, mb)]), alreadyHas)
    else
      (a.(cache := a.cache[view := Insert(Empty(), pubkey, mb)]), false)
  }

  /** `LoadChat(data)`: appends `data` to the back of the chat queue. */
  function LoadChat(a: Actor, data: Bytes): (r: Actor)
    ensures |r.chatQueue| == |a.chatQueue| + 1
    ensures r.chatQueue[..|a.chatQueue|] == a.chatQueue
    ensures r.chatQueue[|a.chatQueue|] == data
    ensures r.cache == a.cache
  {
    a.(chatQueue := a.chatQueue + [data])
  }

  /** What handling one message produces: the next state, the answer on the
      reply channel (`None`: dropped unanswered), and the requests sent to
      the p2p actor. */
  datatype Step = Step(next: Actor, reply: Option<ChatterReply>, toP2P: seq<P2PMessage>)

  /** A message the handler can take: `SendMiniBlock` computes `view + 1`
      as a `u64`. */
  predicate Admissible(msg: ChatterMessage) {
    msg.SendMiniBlock? ==> msg.view + 1 < U64_MODULUS
  }

  /** One turn of the actor loop (`Actor::run`). */
  function Handle(a: Actor, sup: Supervisor.Supervisor, quorum: nat -> nat, msg: ChatterMessage): (r: Step)
    requires Valid(a) && Admissible(msg)
    ensures Valid(r.next)
    ensures !msg.LoadMiniBlockFromP2P? && !msg.LoadChat? ==> r.next == a
    ensures !msg.LoadMiniBlockFromP2P? ==> r.next.cache == a.cache
    ensures !msg.LoadChat? ==> r.next.chatQueue == a.chatQueue
    ensures msg.SendMiniBlock? <==> r.toP2P != []
    ensures msg.SendMiniBlock? ==>
              r.toP2P == [SendMiniBlockToLeader(msg.view, RelayMiniBlock(msg.view))]
    ensures msg.PutMiniBlocks? ==> r.reply.None?
    ensures msg.GetMiniBlocks? ==>
              (r.reply.Some? <==> 1 + |CachedAt(a, msg.view)| >= QuorumAt(sup, quorum, msg.view) || msg.view == 1)
    ensures msg.GetMiniBlocks? && r.reply.Some? ==> r.reply.value == Bundle(BuildBundle(a, msg.view))
    ensures msg.SendMiniBlock? || msg.LoadChat? ==> r.reply == Some(Flag(true))
    ensures msg.LoadMiniBlockFromP2P? ==>
              r.reply == Some(Flag(Lookup(a, msg.miniBlock.view, msg.pubkey).Some?))
    ensures msg.LoadMiniBlockFromP2P? ==> r.next == LoadMiniBlock(a, msg.pubkey, msg.miniBlock).0
    ensures msg.LoadChat? ==> r.next == LoadChat(a, msg.data)
  {
    match msg
    case GetMiniBlocks(view) =>
      var bundle := GetMiniBlocks(a, sup, quorum, view);
      Step(a, if bundle.Some? then Some(Bundle(bundle.value)) else None, [])
    case PutMiniBlocks(_, _) =>
      Step(a, None, [])
    case SendMiniBlock(view) =>
      Step(a, Some(Flag(true)), [SendMiniBlockToLeader(view, RelayMiniBlock(view))])
    case LoadMiniBlockFromP2P(pubkey, mb) =>
      var (next, alreadyHas) := LoadMiniBlock(a, pubkey, mb);
      Step(next, Some(Flag(alreadyHas)), [])
    case LoadChat(data) =>
      Step(LoadChat(a, data), Some(Flag(true)), [])
  }

  /** Every message of `msgs` is admissible. */
  predicate AllAdmissible(msgs: seq<ChatterMessage>) {
    forall i :: 0 <= i < |msgs| ==> Admissible(msgs[i])
  }

  /** The result of the loop over a sequence of messages. */
  datatype Trace = Trace(next: Actor, replies: seq<Option<ChatterReply>>, toP2P: seq<P2PMessage>)

  /** The actor loop: handles `msgs` strictly one after another, in arrival
      order. */
  function Run(a: Actor, sup: Supervisor.Supervisor, quorum: nat -> nat, msgs: seq<ChatterMessage>): (r: Trace)
    requires Valid(a) && AllAdmissible(msgs)
    ensures Valid(r.next)
    ensures |r.replies| == |msgs|
  {
    if |msgs| == 0 then Trace(a, [], [])
    else
      var init := msgs[..|msgs| - 1];
      var prev := Run(a, sup, quorum, init);
      var step := Handle(prev.next, sup, quorum, msgs[|msgs| - 1]);
      Trace(step.next, prev.replies + [step.reply], prev.toP2P + step.toP2P)
  }

  /** Every reply of a run is the reply `Handle` gives to that message, in
      the state the messages before it left. */
  lemma {:induction false} RunReplies(
    a: Actor, sup: Supervisor.Supervisor, quorum: nat -> nat, msgs: seq<ChatterMessage>, i: nat)
    requires Valid(a) && AllAdmissible(msgs) && i < |msgs|
    ensures AllAdmissible(msgs[..i])
    ensures Run(a, sup, quorum, msgs).replies[i]
            == Handle(Run(a, sup, quorum, msgs[..i]).next, sup, quorum, msgs[i]).reply
  {
    var init := msgs[..|msgs| - 1];
    assert forall j :: 0 <= j < |init| ==> init[j] == msgs[j];
    if i < |msgs| - 1 {
      assert init[..i] == msgs[..i];
      RunReplies(a, sup, quorum, init, i);
    } else {
      assert msgs[..i] == init;
    }
  }

  /** The requests the `SendMiniBlock` messages of `msgs` make of the
      relay, in order. */
  function RelayRequests(msgs: seq<ChatterMessage>): seq<P2PMessage>
    requires AllAdmissible(msgs)
  {
    if |msgs| == 0 then []
    else
      var last := msgs[|msgs| - 1];
      var init := msgs[..|msgs| - 1];
      assert forall j :: 0 <= j < |init| ==> init[j] == msgs[j];
      RelayRequests(init)
      + (if last.SendMiniBlock? then [SendMiniBlockToLeader(last.view, RelayMiniBlock(last.view))] else [])
  }

  /** A run sends the relay exactly one request per `SendMiniBlock`, for
      that message's view, in arrival order, and nothing else. */
  lemma {:induction false} RunRelayRequests(
    a: Actor, sup: Supervisor.Supervisor, quorum: nat -> nat, msgs: seq<ChatterMessage>)
    requires Valid(a) && AllAdmissible(msgs)
    ensures Run(a, sup, quorum, msgs).toP2P == RelayRequests(msgs)
  {
    if |msgs| > 0 {
      var init := msgs[..|msgs| - 1];
      assert forall j :: 0 <= j < |init| ==> init[j] == msgs[j];
      RunRelayRequests(a, sup, quorum, init);
    }
  }

  /** The chat data carried by the `LoadChat` messages of `msgs`, in order. */
  function Chats(msgs: seq<ChatterMessage>): seq<Bytes> {
    if |msgs| == 0 then []
    else
      var last := msgs[|msgs| - 1];
      Chats(msgs[..|msgs| - 1]) + (if last.LoadChat? then [last.data] else [])
  }

  /** The chat queue is first-in first-out: after a run it is the initial
      queue followed by every `LoadChat` payload, in arrival order. */
  lemma {:induction false} ChatQueueIsFifo(a: Actor, sup: Supervisor.Supervisor, quorum: nat -> nat, msgs: seq<ChatterMessage>)
    requires Valid(a) && AllAdmissible(msgs)
    ensures Run(a, sup, quorum, msgs).next.chatQueue == a.chatQueue + Chats(msgs)
  {
    if |msgs| > 0 {
      ChatQueueIsFifo(a, sup, quorum, msgs[..|msgs| - 1]);
    }
  }

  /** The last mini-block `msgs` loads for `(view, pubkey)`, if any. */
  function LastLoad(msgs: seq<ChatterMessage>, view: View, pubkey: PublicKey): Option<MiniBlock> {
    if |msgs| == 0 then None
    else
      var last := msgs[|msgs| - 1];
      if last.LoadMiniBlockFromP2P? && last.miniBlock.view == view && last.pubkey == pubkey
      then Some(last.miniBlock)
      else LastLoad(msgs[..|msgs| - 1], view, pubkey)
  }

  /** Last write wins across a whole run: each `(view, pubkey)` ends up
      holding the last mini-block loaded for it, or what it held before
      when the run loads none. No other message touches the cache. */
  lemma {:induction false} CacheIsLastWrite(
    a: Actor, sup: Supervisor.Supervisor, quorum: nat -> nat, msgs: seq<ChatterMessage>,
    view: View, pubkey: PublicKey)
    requires Valid(a) && AllAdmissible(msgs)
    ensures Lookup(Run(a, sup, quorum, msgs).next, view, pubkey)
            == if LastLoad(msgs, view, pubkey).Some? then LastLoad(msgs, view, pubkey) else Lookup(a, view, pubkey)
  {
    if |msgs| > 0 {
      CacheIsLastWrite(a, sup, quorum, msgs[..|msgs| - 1], view, pubkey);
    }
  }

  /** Two loads from one key for one view leave the second block, and the
      second load reports that an entry was already there. */
  lemma LastWriteWins(a: Actor, pubkey: PublicKey, first: MiniBlock, second: MiniBlock)
    requires Valid(a) && first.view == second.view
    ensures var (a1, _) := LoadMiniBlock(a, pubkey, first);
            var (a2, alreadyHas) := LoadMiniBlock(a1, pubkey, second);
            Lookup(a2, second.view, pubkey) == Some(second) && alreadyHas
  {
  }
}
