# little-dipper application core, modelled in Dafny

little-dipper is a validator that runs a threshold BFT consensus engine. Its
block payloads are bundles of *mini-blocks* that validators gossip to the
leader of the coming view. Four actors make up the application core, and this
project models each one as a pure step function per mailbox message. A step
takes the actor's state and the message. It returns the next state, the answer
on the message's reply channel, and the requests sent to other actors.

- **Supervisor** (module `Supervisor`). The validator directory: it sorts the
  validator keys, indexes them, and runs a round-robin leader schedule.
- **Chatter** (module `Chatter`), also called the aggregator. It caches
  mini-blocks by view and sender key and queues chat data. It assembles the
  proposal bundle once a quorum of mini-blocks is present, and asks the relay
  to send this validator's own mini-block to the next leader.
- **P2P relay** (module `P2P`). It unicasts a mini-block to `leader(view + 1)`.
  It filters inbound transport frames and hands each mini-block to the chatter,
  keyed by the sender key the transport reports.
- **Application bridge** (module `Application`). It answers the engine's six
  callbacks (Genesis, Propose, Verify, Nullify, Prepared, Finalized) by asking
  the chatter.

Module `Node` chains the actors the way `src/bin/validator.rs` wires them. It
follows a callback across actors, for example a `Nullify` at one validator
until the mini-block lands in the next leader's cache. Supporting modules:

- `Bytes`: fixed-width integers, the `as u32` truncation, `u64::to_be_bytes`
  and `copy_from_slice`.
- `Lex`: Rust's lexicographic order on `Vec<u8>`, and the sort.
- `BTree`: `BTreeMap<Bytes, _>`, modelled as a strictly sorted association list.
- `Blocks`: the mini-block records.
- `Ingress`: the mailbox messages.
- `Wrappers`: `Option`.

Some behaviours are external and the model takes them as parameters:

- The quorum policy is a parameter `quorum: nat -> nat`.
- The configured hasher is a parameter `hash: Bytes -> Bytes`.
- The answer to the chatter's sufficiency check is an input. The chatter has
  no handler for that request, so nothing in the modelled code computes it.

Where the code does something other than what its names, comments or callers
suggest, the model follows the code:

- `GetMiniBlocks` counts the bundle's entries, local block included, against
  the quorum. It checks no signatures and does not count distinct authors.
- The relayed mini-block's signature is the two bytes `[0, 32]`
  (`vec![0u8, 32]`), not 32 zero bytes.
- The message names in `src/application/chatter/ingress.rs` do not match the
  ones the actor handles. The model uses the actor's names.
- The relay asks for `leader(view + 1, seed)` through the threshold
  supervisor interface, whose seeded `leader` is not in the code modelled
  here. The model assumes it is the round-robin `leader(view + 1)` of
  `src/application/supervisor.rs`.
- `Supervisor::new` is called with three arguments but declared with two. The
  model follows the declaration.

## Model

| member | source | states |
|---|---|---|
| Bytes.AsU32 | src/application/supervisor.rs:31 | `as u32` is truncation modulo 2^32: it is the identity on every value below 2^32 |
| Bytes.U64ToBeBytes | src/application/chatter/actor.rs:50 | `to_be_bytes` gives exactly 8 bytes, and reading them back big-endian gives the original `u64` |
| Bytes.FromToBigEndian | src/application/chatter/actor.rs:50 | encoding a value below 256^w in w big-endian bytes and decoding it gives the value back |
| Bytes.ToFromBigEndian | src/application/chatter/actor.rs:50 | decoding any byte string and re-encoding it at its own width gives the same bytes |
| Bytes.U64ToBeBytesInjective | src/application/chatter/actor.rs:50 | distinct `u64` values have distinct big-endian encodings |
| Bytes.CopyFromSlice | src/application/chatter/actor.rs:50 | `dst[lo..lo+n].copy_from_slice(src)` keeps the length, puts `src` in the window and leaves every byte outside the window unchanged |
| Lex.LeTransitive | src/application/supervisor.rs:28 | the byte-vector order the sort uses is transitive |
| Lex.LeTotal | src/application/supervisor.rs:28 | any two keys are comparable, one way or the other |
| Lex.LeAntisymmetric | src/application/supervisor.rs:28 | keys that are each at most the other are equal |
| Lex.Sort | src/application/supervisor.rs:28 | `participants.sort()` returns an ascending permutation of its input: the same multiset of keys |
| Lex.SortedPermutationUnique | src/application/supervisor.rs:28 | two ascending sequences with the same multiset of keys are equal, so the sorted order depends only on the set of keys |
| BTree.Get | src/application/chatter/actor.rs:126 | a lookup finds a value exactly when some entry has the key, and the value found belongs to that key |
| BTree.Insert | src/application/chatter/actor.rs:130-134 | an insert keeps the map well formed and makes the key map to the new value. Every other key maps as before, and the size grows by one exactly when the key was absent |
| BTree.ValuesMatchKeys | src/application/chatter/actor.rs:63-65 | `values()` yields one value per key in ascending key order, and includes every value a lookup can return |
| Supervisor.New | src/application/supervisor.rs:23-40 | the stored participants are a sorted permutation of the given ones. Every participant is in the map, each under the index of its last position in the sorted order, and nothing else is in it |
| Supervisor.Participants | src/application/supervisor.rs:50-52 | the participant list holds exactly the stored validators, as many as there are, in sorted order once built by `new`, whatever the view |
| Supervisor.IsParticipant | src/application/supervisor.rs:54-56 | a key gets an index exactly when it is a participant, and that index points back at the key |
| Supervisor.IsParticipantExact | src/application/supervisor.rs:28-31 | with distinct validators, a key has index i exactly when it sits at position i of the sorted set |
| Supervisor.QueriesIgnoreView | src/application/supervisor.rs:50-56 | the membership queries answer the same at every view |
| Supervisor.Leader | src/application/supervisor.rs:46-48 | the leader of every view is one of the participants |
| Supervisor.LeaderIsParticipant | src/application/supervisor.rs:46-56 | the leader of every view passes the membership query |
| Supervisor.LeaderPeriodic | src/application/supervisor.rs:46-48 | the leader schedule repeats with a period equal to the number of validators |
| Supervisor.LeaderByIndex | src/application/supervisor.rs:46-56 | with distinct validators, a key leads view v exactly when its index is v mod n |
| Supervisor.SameSetSameSchedule | src/application/supervisor.rs:23-40 | supervisors built from the same validators in any order have the same list and map, and so the same leader schedule |
| Chatter.New | src/application/chatter/actor.rs:21-31 | a new chatter is well formed, holds no mini-block for any view or key, and its chat queue is empty |
| Chatter.ViewStamp | src/application/chatter/actor.rs:47-50 | the placeholder data is 32 bytes. Bytes 1..9 read back big-endian as the view, and every other byte is zero |
| Chatter.ViewStampInjective | src/application/chatter/actor.rs:47-50 | distinct views give distinct placeholder data |
| Chatter.LocalMiniBlock | src/application/chatter/actor.rs:47-55 | the local mini-block is for the requested view and has 32 data bytes: bytes 1..9 read back as the view and all others are zero. Its signature is 32 zero bytes |
| Chatter.RelayMiniBlock | src/application/chatter/actor.rs:99-107 | the relayed mini-block is for view + 1 but its data is stamped with view (32 bytes, zero outside bytes 1..9), and its signature is `[0, 32]` |
| Chatter.QuorumAt | src/application/chatter/actor.rs:83 | the threshold is the quorum policy applied to the validator count truncated to `u32`, which is the count itself below 2^32 |
| Chatter.KeysAt | src/application/chatter/actor.rs:58-65 | the keys of a view, one per cached entry, strictly ascending, and exactly the keys a lookup finds a block under |
| Chatter.BuildBundle | src/application/chatter/actor.rs:58-78 | the bundle is the local mini-block followed by one cached block per key, in ascending key order. It contains every block cached for the view |
| Chatter.GetMiniBlocks | src/application/chatter/actor.rs:43-89 | the bundle is sent exactly when its size, counting the local block, reaches the quorum of the participant count, or the view is 1. Otherwise the reply is dropped |
| Chatter.LoadMiniBlock | src/application/chatter/actor.rs:116-139 | the block is stored under (its view, sender key), replacing any earlier one. The answer says whether an entry was already there. No other (view, key) changes, the view's map grows by one exactly on a new key, and the chat queue is untouched |
| Chatter.LoadChat | src/application/chatter/actor.rs:141-145 | chat data is appended at the back of the queue; the cache is untouched |
| Chatter.Handle | src/application/chatter/actor.rs:39-146 | per message: `PutMiniBlocks` does nothing and drops its reply. `SendMiniBlock` asks the relay to send the view + 1 mini-block and answers true. Only the two load messages change the state, and every answer is as listed above |
| Chatter.Run | src/application/chatter/actor.rs:39 | the loop gives one reply slot per message and keeps the cache well formed |
| Chatter.RunReplies | src/application/chatter/actor.rs:39-146 | the i-th reply of a run is what handling the i-th message gives in the state the earlier messages left, so messages are handled strictly in turn |
| Chatter.RunRelayRequests | src/application/chatter/actor.rs:93-114 | a run sends the relay exactly one request per `SendMiniBlock`, carrying that view and its view + 1 mini-block, in arrival order, and nothing else |
| Chatter.ChatQueueIsFifo | src/application/chatter/actor.rs:141-145 | after any run, the chat queue is the initial queue followed by every `LoadChat` payload in arrival order |
| Chatter.CacheIsLastWrite | src/application/chatter/actor.rs:116-139 | after any run, each (view, key) holds the last block loaded for it, or its old content if the run loaded none |
| Chatter.LastWriteWins | src/application/chatter/actor.rs:126-130 | a second load under the same key and view replaces the first and reports that an entry was already there |
| P2P.SendToLeader | src/application/p2p/actor.rs:48-67 | a send command makes exactly one unicast, to `leader(view + 1)`, carrying the block's frame, and answers true |
| P2P.OnDelivery | src/application/p2p/actor.rs:71-93 | a receive error ends the loop. Undecodable frames and empty envelopes are skipped. A mini-block goes to the chatter keyed by the transport's sender and nothing else happens |
| P2P.Handle | src/application/p2p/actor.rs:42-95 | only a receive error breaks the loop, and every command sends exactly one unicast and answers true |
| P2P.Run | src/application/p2p/actor.rs:42-95 | the loop produces one set of effects per event it handles and handles every event unless it stopped; it stops exactly when a receive error is among the events, so skipped frames never end it |
| P2P.RunEffects | src/application/p2p/actor.rs:42-95 | each effect set of a run is what handling the event at the same position gives, so every command in a run sends its one unicast and every mini-block reaches the chatter |
| P2P.RecvErrorEndsLoop | src/application/p2p/actor.rs:73-75 | nothing after a receive error is handled, whatever came before it |
| P2P.RelayedFrameIsLoaded | src/application/p2p/actor.rs:64-91 | a frame the relay sends, received from this validator, reaches the chatter as a load of the same block under this validator's key |
| Application.Handle | src/application/actor.rs:57-168 | Genesis answers the hash of the genesis bytes. Propose asks for the bundle and proposes exactly what it gets. Verify sends the mini-block on, asks for sufficiency and votes the answer. Nullify only sends the mini-block on. Prepared and Finalized do nothing |
| Application.CallsIgnoreAnswers | src/application/actor.rs:57-168 | the requests a callback sends never depend on the answers, and only Propose, Verify and Nullify send any |
| Application.GenesisIsFixed | src/application/actor.rs:57-63 | the genesis digest depends on nothing but the hasher |
| Application.VoteIsSufficiency | src/application/actor.rs:103-116 | the vote is the sufficiency answer, false when that channel fails, and nothing else sways it |
| Node.ProposeViaChatter | src/application/actor.rs:64-88 | the engine gets a proposal exactly when the chatter's quorum condition holds or the view is 1, and the proposal opens with the local mini-block |
| Node.VerifyViaChatter | src/application/actor.rs:89-117 | Verify leaves the chatter's state unchanged, sends the view + 1 mini-block to the relay and votes the sufficiency answer |
| Node.NullifyRequest | src/application/actor.rs:118-132 | Nullify makes the chatter ask the relay to send its view + 1 mini-block |
| Node.Deliver | src/application/p2p/actor.rs:48-91 | a relayed request reaches `leader(view + 1)` as a load of the block under the sender's key |
| Node.NullifyRelay | src/application/actor.rs:118-132 | after a Nullify, the next leader's cache holds the relayed block under this validator's key for the view it leads, and nothing else in that cache changes |
| Node.RelayedBlockReachesProposal | src/application/chatter/actor.rs:58-78 | the relayed block is part of the next leader's bundle for the view it leads |
| Node.QuorumOfThreeAmongFour | src/application/chatter/actor.rs:83-84 | with four validators and a quorum of three, a view-2 proposal needs exactly two cached mini-blocks besides the local one |

## Left out

- Panics from `unwrap`: a closed mailbox, a failed transport send, a `None` quorum, an undecodable JSON payload. The model covers the paths that do not panic.
- A peer can crash the relay: a frame that decodes as protobuf but whose `PutMiniBlock.data` is not a mini-block's JSON panics at `src/application/p2p/actor.rs:88`. The `Frame` type has no case for it, so the model does not show this.
- The chatter waits for the relay inside `SendMiniBlock` (`src/application/chatter/actor.rs:109-111`), while the relay waits for the chatter when it forwards an inbound block (`src/application/p2p/actor.rs:89-90`). The two can deadlock. The step functions answer at once, so the model does not show this either.
- P2P.Encode: the relayed frame is taken to decode back to the same envelope and block. The serde_json and prost round trip between `src/application/p2p/actor.rs:56-62` and `77-88` is assumed, not proved: a frame is represented by its decoding.
- P2P.SendToLeader: the seeded `leader(view + 1, seed)` the relay calls is not in the code modelled here. The model assumes it is the round-robin `Supervisor.Leader` at `view + 1`.
- The `u64` overflow of `view + 1` is excluded by preconditions (`Chatter.Admissible`, `P2P.Admissible`) rather than modelled as a panic or a wrap-around.
- JSON (serde_json) and protobuf (prost) encodings are abstract. A frame is either undecodable or a decoded envelope, and a bundle payload is shown as the bundle itself.
- Signatures, the hasher and the quorum function are external. The hasher and quorum are parameters, and no signature is ever checked by this code.
- `Propose` fills bytes 1..32 of a 32-byte buffer (31 bytes) with randomness that it never uses. The model leaves that out.
- Logging in all actors, and the `report` method of the supervisor, which does nothing.
- Mailbox and `select!` plumbing, channel capacities and async scheduling. Each actor handles one message at a time, in the order the events are given.
- `CheckSufficientMiniBlocks` is sent by the bridge but handled nowhere in the chatter, so its answer is an input of the model.
- The API server, the indexer and the validator binary's setup are outside the core. Only its non-empty participant check is kept, as the precondition of `Supervisor.Leader`.
- Supervisor.IsParticipant: the index is shown to point back at the key only while the validator count fits in `u32`. Beyond that the `as u32` cast truncates and the model promises only membership.
