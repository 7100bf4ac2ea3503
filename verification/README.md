# A Chord node and its message protocols, modelled in Dafny

rings-node is a peer-to-peer network in which the nodes form a Chord ring. This project models what one node
keeps and does, how messages travel over the ring, and how larger messages are cut and put together, and proves
what a network built this way can rely on.

- `Wrappers.dfy`, `Sequences.dfy`: options and results, sequences without repeats.
- `Ring.dfy`: ids modulo 2^160, clockwise distance, biased ids and their order, sorting by distance, powers of two.
- `Finger.dfy`: the finger table, on values and as the class `FingerTable`. After every run it is an exact index:
  slot k holds the nearest known id at distance 2^k or more.
- `Successor.dfy`: the bounded sorted successor list, on values and as the class `SuccessorSeq`.
- `Chord.dfy`: the state of one node (`Peer`) and its operations as functions; invariants over all runs of `join`,
  `remove` and `notify`; join-only runs, whose result depends on the set of joined ids alone.
- `FixFingers.dfy`: periodic finger fixing, and when the nearest finger and the nearest successor agree.
- `PeerRing.dfy`: the node as the class `PeerRing`; every method is proved to do what the function of `Chord.dfy`
  says. Handing stored values over, and what the store keeps over runs.
- `VNode.dfy`: stored values: overwrite, the sliding window of `extend`, the least-recently-used list of `touch`.
- `Relay.dfy`: message relay: loop detection, SEND paths, REPORT paths; the class `MessageRelay`.
- `Chunk.dfy`: splitting bytes and the pool that puts chunks together; the class `ChunkList`.
- `Lookup.dfy`: lookups over a whole ring: who answers, along which path, in how many hops.
- `Messages.dfy`: whole conversations with their relays: a lookup and its report, storing and then fetching.
- `Stabilization.dfy`: the stabilization protocol with messages under way: a measure over the whole network,
  fixpoints, the ideal ring.
- `Rounds.dfy`: runs that deliver a round of notifications, how a joining node is taken in, and exactly which states
  at rest are ideal.
- `Handlers.dfy`: the message handlers as methods on a node and a relay.
- `Bootstrap.dfy`: all of it together, from empty nodes to a ring that answers and stores.

A network is a map from ids to node states. Each public method of a node is one atomic step. In the
stabilization protocol every message ever sent may be delivered at any time, late, repeatedly or never, and a node
told of another one is connected to it (`Handlers.HandleNotifyPredecessorReport` is the case where it is not). Node
state that the code keeps behind locks is a plain field here. Distances are compared by `Dist`;
`Ring.CompareIsDistance` shows that this is the order of biased ids that the code uses.

Where the code departs from its documentation the model follows the code:

- The comment at `rings-core/src/dht/chord.rs:38` says that the nearest successor is the first finger. This holds
  while nothing is removed (`Chord.FirstFingerIsMin`). `FixFingers.RemoveKeepsAgreementIff` says exactly when a
  removal keeps it, and it holds all along a run exactly if every removal is of that kind
  (`FixFingers.AgreementOverRuns`); `FixFingers.AgreementMayBreak` is a run where it fails and the node passes a
  lookup on to itself.
- A lookup of a node's own id that starts at that node answers with its successor, not with itself
  (`Lookup.AnswerOwnsIff`). For the same reason a value whose id is a node's id has two homes
  (`Messages.HoldersAgreeIff`).
- A node without successors writes its own id into its finger table when it fixes fingers
  (`FixFingers.FixWritesKnownValueIff`, `FixFingers.FixOfEmptyNode`).
- One `formalize` pass removes all repetitions exactly if they are adjacent (`Chunks.OnePassIsStrictIff`,
  `Chunks.OnePassMayRepeat`). `is_completed` and `try_withdraw` on a list as it came make one pass
  (`Chunks.RawWithdrawIff`, `Chunks.RawWithdrawMayBeWrong`); the pool makes two, and two are enough
  (`Chunks.TwoPassesAreStrict`).
- Loop detection does not stop every circling message. From the third time round, a lap is noticed exactly if, read
  as a circle, it has one block three times in a row whose last node occurs once in that block, and then before the
  fourth lap is complete (`Relays.LapIsNoticedIff`, for a SEND `Relays.CirclingSendSucceedsIff`). A lap with a node
  that occurs once is such a lap (`Relays.OncePerLapIsThrice`); the lap 1, 2, 1, 3, 2, 3 is not
  (`Relays.EvadingLapIsNeverNoticed`).
- The order of biased ids is antisymmetric exactly as `Ring.CompareAntisymmetricIff` says, and not always
  (`Ring.CompareMayContradictItself`).
- Exchanges between nodes and their successors come to rest in states that need not be one ring
  (`Stabilization.QuiescentMayBeSplit`). `Rounds.RestIsIdealIff` says exactly which of these states without empty
  lists are ideal, and `Rounds.RestKnowsNextIff` what its condition on nearest successors comes to for each node.
- A chunk stamped in the first three seconds of the clock is refused as if it were stamped far ahead
  (`Chunks.AcceptedIff`).
- A node that is not in charge of a key may name itself as the next hop (`Handlers.HandleFindSuccessorSend`).
- `NotifyPredecessorSend` is taken in on a REPORT too, and notifies the predecessor even where its answer fails
  (`Handlers.HandleNotifyPredecessorSend`).

## Model

| member | source | states |
|---|---|---|
| `Ring.SubIsDist` | rings-core/src/dht/did.rs:173-195 | subtraction in the ring, built from negation and addition modulo 2^160, is the clockwise distance, the difference modulo 2^160 |
| `Ring.RingLaws` | rings-core/src/dht/did.rs:173-195 | negation is an inverse and an involution, subtraction is undone by addition, adding x moves distance x |
| `Ring.CompareIsDistance` | rings-core/src/dht/did.rs:53-82 | comparing biased ids of any bases is comparing clockwise distances from the left base |
| `Ring.CompareAntisymmetricIff` | rings-core/src/dht/did.rs:72-82 | the order is antisymmetric exactly for equal ids or when both bases lie on the same arc between the two ids |
| `Ring.CompareMayContradictItself` | rings-core/src/dht/did.rs:72-82 | ids 1 and 3 seen from bases 0 and 2 are each smaller than the other |
| `Ring.SortRingSorts` | rings-core/src/dht/did.rs:116-127 | sorting gives a permutation in order of distance |
| `Ring.SortUnique` | rings-core/src/dht/did.rs:116-127 | any sorting algorithm gives this sequence, since distances tell ids apart |
| `Fingers.JoinKeepsIndex` | rings-core/src/dht/finger.rs:112-139 | joining an id turns the index of a set into the index of the set with that id |
| `Fingers.RemoveKeepsIndex` | rings-core/src/dht/finger.rs:80-109 | removing an id from an exact table leaves an exact table of the remaining ids, none lost |
| `Fingers.IndexUnique` | rings-core/src/dht/finger.rs:112-139 | the table is determined by the set it indexes |
| `Fingers.RunIsIndex` | rings-core/src/dht/finger.rs:80-139 | after every run of new, join and remove, slot k is the nearest table member at distance 2^k or more, or empty if there is none |
| `Fingers.RunShape` | rings-core/src/dht/finger.rs:80-139 | after every run filled slots form a prefix, distances never fall, equal ids are contiguous, the owner is absent |
| `Fingers.FirstIsSlot0` | rings-core/src/dht/finger.rs:38-47 | in an exact table the first filled slot is slot 0 |
| `Fingers.ClosestIsFarthestBefore` | rings-core/src/dht/finger.rs:147-159 | in an exact table the downward scan answers the farthest member strictly before the id, or the owner |
| `Fingers.JoinedSlot` | rings-core/src/dht/finger.rs:112-139 | in any table, exact or not, a join leaves slot k the nearer of its entry and the id if the id is at distance 2^k or more, and else as it was |
| `Fingers.RemovedSpan` | rings-core/src/dht/finger.rs:80-109 | in any table a removal puts the slot behind the last one with the id into all slots from the first to the last one with it, and changes nothing else |
| `Fingers.FirstIsFirstFilled` | rings-core/src/dht/finger.rs:38-47 | in any table the answer is the filled slot with no filled slot before it, or none if all are empty |
| `Fingers.ClosestHighest` | rings-core/src/dht/finger.rs:147-159 | in any table the answer is in the highest slot strictly before the id, or the owner if there is no such slot |
| `Fingers.FingerTable.Join` | rings-core/src/dht/finger.rs:112-139 | the loop over the slots computes the join function, and leaves each slot the nearer of its entry and the id where the id is far enough out |
| `Fingers.FingerTable.Remove` | rings-core/src/dht/finger.rs:80-109 | the loop over the run of the id computes the remove function |
| `Fingers.FingerTable.ClosestPreceding` | rings-core/src/dht/finger.rs:147-159 | the downward scan with early return computes the closest function |
| `Fingers.FingerTable.SetFix` | rings-core/src/dht/finger.rs:66-77 | writes the slot of the fix counter, nothing if it is out of range |
| `Successors.UpdatedElements` | rings-core/src/dht/successor.rs:52-59 | an update only adds the id; what is missing afterwards is farther than everything in a full list |
| `Successors.UpdateKeepsWellFormed` | rings-core/src/dht/successor.rs:52-59 | the list stays ascending in distance, bounded and free of the owner |
| `Successors.UpdateKeepsNearest` | rings-core/src/dht/successor.rs:52-59 | if the list holds the nearest `max` ids of a set, after an update it holds those of the set with the new id |
| `Successors.NearestUnique` | rings-core/src/dht/successor.rs:52-59 | the list of the nearest ids of a set is unique |
| `Successors.RemoveKeepsWellFormed` | rings-core/src/dht/successor.rs:65-67 | removing keeps the list ascending, bounded and free of the owner |
| `Successors.UpdatedIsNearestPart` | rings-core/src/dht/successor.rs:52-59 | any list becomes the first `max` of any sorted arrangement of its entries and the new id |
| `Successors.WithoutOfConcat` | rings-core/src/dht/successor.rs:65-67 | in any list exactly the occurrences of the id go, and all else stays in order, repetitions too |
| `Successors.SuccessorSeq.Update` | rings-core/src/dht/successor.rs:52-59 | pushing, sorting and truncating a list of the nearest ids of any set gives the list of the nearest ids of the set with the new id; ascending, bounded lists stay so |
| `Successors.SuccessorSeq.Remove` | rings-core/src/dht/successor.rs:65-67 | exactly the removed id goes; an ascending, bounded list stays so |
| `Chord.JoinIsUpdate` | rings-core/src/dht/chord.rs:213-228 | the guard in `join` never skips an update that would change the list |
| `Chord.PeerRunInv` | rings-core/src/dht/chord.rs:180-279 | after every run of join, remove and notify: exact fingers, ascending bounded successors, only ids joined and not removed since |
| `Chord.EmptyTogetherIff` | rings-core/src/dht/chord.rs:180-228 | "no successors means no fingers" holds on every run exactly if the successor list may hold anything |
| `Chord.RemoveForgets` | rings-core/src/dht/chord.rs:180-197 | the removed id is gone from fingers, successors and predecessor, and no other id is |
| `Chord.RemoveRefills` | rings-core/src/dht/chord.rs:191-195 | when the last successor is removed the nearest remaining finger becomes the successor |
| `Chord.JoinFrame` | rings-core/src/dht/chord.rs:213-234 | a join touches fingers and successors only, and the own id nothing |
| `Chord.RemoveFrame` | rings-core/src/dht/chord.rs:180-197 | a removal touches predecessor, fingers and successors only; everything stored and cached stays |
| `Chord.RemovedSuccessors` | rings-core/src/dht/chord.rs:189-195 | in any state the other successors stay; if there are none, the first filled slot left becomes the only one, unless it holds the own id or the list may hold nothing |
| `Chord.FindSuccessorInAnyState` | rings-core/src/dht/chord.rs:238-254 | in any state a lookup ends here exactly without a successor or with the nearest one not before the id; else it names what the highest slot strictly before the id holds, or the node itself |
| `Chord.ValuesFollowLookups` | rings-core/src/dht/chord.rs:349-394 | in any state values are looked for and operated on where the lookup of their id ends, and passed on to the node it names; only the entry of that id changes |
| `Chord.JoinAllKnows` | rings-core/src/dht/chord.rs:213-228 | after any joins slot k is the nearest joined id at distance 2^k or more and the successors are the nearest `max` joined ids |
| `Chord.JoinOrderIrrelevant` | rings-core/src/dht/chord.rs:213-228 | joins of the same ids in any order and repetition give the same node |
| `Chord.FirstFingerIsMin` | rings-core/src/dht/chord.rs:36-39 | without removals the first finger is the nearest successor |
| `Chord.RemoveKeepsSound` | rings-core/src/dht/chord.rs:180-197 | in any table, even after fixing wrote to it, removing leaves only ids that are live, or the node itself, and an ascending bounded list |
| `Chord.FixKeepsSound` | rings-core/src/dht/chord.rs:284-330 | a fixing call writes only a live id or the node itself |
| `FixFingers.FixVisitsEverySlotOnce` | rings-core/src/dht/chord.rs:284-291 | among any 159 calls each of the slots 0 to 158 has its turn exactly once |
| `FixFingers.FixWritesKnownValueIff` | rings-core/src/dht/chord.rs:284-308 | in a node that only joined, a call leaves every slot as it was exactly if there is a successor |
| `FixFingers.FixKeepsSlotsIff` | rings-core/src/dht/chord.rs:284-308 | the same after any joins and removals while first finger and nearest successor agree |
| `FixFingers.FixingIsSilent` | rings-core/src/dht/chord.rs:284-316 | joins interleaved with local fixing give the node the joins alone give, except for the counter |
| `FixFingers.FixOfEmptyNode` | rings-core/src/dht/chord.rs:301-308 | without a successor the node's own id is written into the table |
| `FixFingers.FixWritesAnswer` | rings-core/src/dht/chord.rs:284-330 | in any state the slot whose turn it is gets the nearest successor if that is at distance 2^index or more, the own id without a successor, and else stays and a remote action follows; nothing else but the counter changes |
| `FixFingers.RemoveKeepsAgreementIff` | rings-core/src/dht/chord.rs:36-39 | a removal keeps first finger and nearest successor equal exactly if another id goes, there is no second successor, or it is the second finger |
| `FixFingers.StepKeepsAgreementIff` | rings-core/src/dht/chord.rs:180-279 | of all joins, removals and notifications exactly those removals make them differ |
| `FixFingers.AgreementOverRuns` | rings-core/src/dht/chord.rs:36-39 | all along a run first finger and nearest successor agree exactly if no step was such a removal |
| `FixFingers.ForwardLeavesIff` | rings-core/src/dht/chord.rs:246-253 | a lookup is passed on to another node exactly if some finger lies strictly before the key |
| `FixFingers.AgreementForwardsOn` | rings-core/src/dht/chord.rs:246-253 | while first finger and nearest successor agree, a node never passes a lookup on to itself |
| `FixFingers.AgreementMayBreak` | rings-core/src/dht/chord.rs:36-39 | joining distances 4, 5, 6 and removing 4 leaves two successors and no finger, and a lookup of 6 is passed on to the node itself |
| `PeerRings.PeerRing.constructor` | rings-core/src/dht/chord.rs:135-145 | a new node has 160 empty slots, no successors, no predecessor, nothing stored, and meets all invariants |
| `PeerRings.PeerRing.Join` | rings-core/src/dht/chord.rs:213-234 | the invariants stay, the id becomes live, the new state is the join function's, each slot is the nearer of its entry and the id where the id is far enough out; the action asks the joined node for the successor of this one |
| `PeerRings.PeerRing.Remove` | rings-core/src/dht/chord.rs:180-197 | the invariants stay for the remaining live ids, the new state is the remove function's, and everything stored and cached stays |
| `PeerRings.PeerRing.FindSuccessor` | rings-core/src/dht/chord.rs:238-254 | answers the nearest successor or names the closest preceding finger; with exact fingers it names another node exactly if some finger lies strictly before the id |
| `PeerRings.PeerRing.Notify` | rings-core/src/dht/chord.rs:260-279 | the predecessor becomes the nearer one, and the id is answered exactly if it was accepted |
| `PeerRings.PeerRing.FixFingers` | rings-core/src/dht/chord.rs:284-330 | state and action are the fixing function's; the slot whose turn it is gets the own id without a successor, and the nearest successor if it is far enough out; where first finger and nearest successor agree no slot of a node with a successor changes |
| `PeerRings.PeerRing.VNodeLookup` | rings-core/src/dht/chord.rs:349-365 | a stored value, which is data under the id asked for, or nothing, or the node to ask |
| `PeerRings.PeerRing.VNodeOperate` | rings-core/src/dht/chord.rs:370-394 | only the store changes and stays in order; fails exactly for a value that is not data at the node in charge, with the error the stored value calls for |
| `PeerRings.PeerRing.SyncVNodeWithSuccessor` | rings-core/src/dht/chord.rs:399-419 | exactly the entries beyond the new successor leave the store, each is sent once |
| `PeerRings.HandOverIsLossless` | rings-core/src/dht/chord.rs:396-419 | kept entries and values sent together are the old store, without overlap |
| `PeerRings.OperateKeepsStore` | rings-core/src/dht/chord.rs:370-394 | operating keeps every entry a data value under its own id; it fails exactly for another kind at the node in charge, changing nothing |
| `PeerRings.StoreRunKeepsStore` | rings-core/src/dht/chord.rs:370-419 | the same over every run of operations and hand-overs |
| `VNodes.OperateSucceedsIff` | rings-core/src/dht/vnode.rs:164-217 | overwriting, extending and touching succeed exactly between two data values of one id, keep id and kind, overwriting gives the new value, and each failure has its own error |
| `VNodes.ExtendIsWindow` | rings-core/src/dht/vnode.rs:179-203 | extending keeps the suffix of old and new data of length at most 1024, or all new data if longer |
| `VNodes.TouchIsWindow` | rings-core/src/dht/vnode.rs:208-242 | touching several elements puts them last, behind exactly the untouched ones, cut like extending |
| `VNodes.ExtendRun` | rings-core/src/dht/vnode.rs:179-203 | single-element extends keep the last 1024 elements of the whole history |
| `VNodes.TouchRun` | rings-core/src/dht/vnode.rs:208-242 | single-element touches keep the 1024 most recently touched distinct elements in order of last touch |
| `VNodes.TouchedIsDistinct` | rings-core/src/dht/vnode.rs:205-242 | the value after any single-element touches holds no element twice, nothing that was not put in, and at most 1024 elements |
| `VNodes.LastTouchesDistinct` | rings-core/src/dht/vnode.rs:205-208 | the reference list is duplicate-free and has every element of the history |
| `Relays.HasInfiniteLoop` | rings-core/src/message/protocols/relay.rs:209-251 | true exactly if the last three occurrences of the last element are equally spaced and the blocks ending there agree |
| `Relays.LoopIffBlocksAgree` | rings-core/src/message/protocols/relay.rs:221-246 | comparing blocks of the least of the three lengths decides it |
| `Relays.NoRepeatsNoLoop` | rings-core/src/message/protocols/relay.rs:209-251 | a path without repetition is never taken for a loop |
| `Relays.CircleIsNoticed` | rings-core/src/message/protocols/relay.rs:209-251 | a path circling through a node once per lap is noticed when that node is reached in the fourth lap |
| `Relays.LoopIffEndsThrice` | rings-core/src/message/protocols/relay.rs:209-251 | from the end of the third lap on a circling path is taken for a loop exactly if its last lap, read round, ends with one block three times whose last node occurs in it once |
| `Relays.LapIsNoticedIff` | rings-core/src/message/protocols/relay.rs:209-251 | a lap is noticed from there on, and then before the fourth is complete, exactly if read as a circle it has such a block somewhere; so whether it is ever noticed is known from the lap |
| `Relays.OncePerLapIsThrice` | rings-core/src/message/protocols/relay.rs:209-251 | a lap in which some node occurs once has such a block |
| `Relays.EvadingLapIsNeverNoticed` | rings-core/src/message/protocols/relay.rs:209-251 | the lap 1, 2, 1, 3, 2, 3, in which no node occurs once, is never noticed at any length |
| `Relays.CirclingSendIsRefused` | rings-core/src/message/protocols/relay.rs:80-93 | a SEND round a lap with such a block does not get a path longer than lead-in plus four laps, whatever next hops are named |
| `Relays.SendAlongSucceedsIff` | rings-core/src/message/protocols/relay.rs:80-177 | a SEND along any nodes gets through exactly if no path on its way has equal neighbours or is taken for a loop |
| `Relays.CirclingSendSucceedsIff` | rings-core/src/message/protocols/relay.rs:80-177 | a SEND that goes round a lap at least four times, sound up to the third, gets through exactly if the lap has no such block, however far it goes |
| `Relays.SendRunPath` | rings-core/src/message/protocols/relay.rs:80-93 | a SEND run that gets through has pushed exactly its nodes and never had a circling path |
| `Relays.SendAlongSucceeds` | rings-core/src/message/protocols/relay.rs:80-93 | a SEND along nodes that never repeat passes every check |
| `Relays.ReportWalksBack` | rings-core/src/message/protocols/relay.rs:95-145 | a report goes back one place per hop, always has a next hop until it first meets the origin, and ends there |
| `Relays.HomeExists` | rings-core/src/message/protocols/relay.rs:95-121 | the origin is met after at most length minus one hops |
| `Relays.RelayedSucceedsIff` | rings-core/src/message/protocols/relay.rs:80-177 | exactly which hops are accepted: the path is sound, the message is meant for this node, a SEND does not circle, a report can find its way |
| `Relays.RelayedReport` | rings-core/src/message/protocols/relay.rs:95-121 | whatever next hops are named, wherever the cursor is, a report keeps path and destination; at its destination it ends with the cursor at the origin; else the cursor moves to the nearest place of the node on the rest of the way, and the next hop is the named one or one place back |
| `Relays.RelayedError` | rings-core/src/message/protocols/relay.rs:80-177 | which error a refused hop ends with: the first of the five checks that fails |
| `Relays.RelayedSend` | rings-core/src/message/protocols/relay.rs:89-93 | a SEND that goes on has the node pushed, the named next hop, and nothing else changed |
| `Relays.NewSendIsTakenIn` | rings-core/src/message/payload.rs:113-127 | a new message is taken in by exactly the node it is sent to, and then carries origin, that node and its destination |
| `Relays.ReportOfAny` | rings-core/src/message/protocols/relay.rs:126-145 | a report is made exactly from a SEND of two nodes or more; it goes to the origin by the node before the cursor, or fails with its own error |
| `Relays.MessageRelay.RelayMessage` | rings-core/src/message/protocols/relay.rs:80-124 | the new relay is the relay function's; an error leaves it unchanged |
| `Relays.MessageRelay.Check` | rings-core/src/message/protocols/relay.rs:160-177 | computes the validity function, in the order of the checks |
| `Relays.MessageRelay.SetDestination` | rings-core/src/message/protocols/relay.rs:149-156 | only a SEND can change its destination |
| `Chunks.SplitRoundTrip` | rings-core/src/chunk.rs:181-198 | splitting gives numbered parts of one message, none for no bytes, all but the last of full length, whose data together is the input |
| `Chunks.PieceLengths` | rings-core/src/chunk.rs:183-183 | all pieces but the last have the full length, none is empty |
| `Chunks.TwoPassesAreStrict` | rings-core/src/chunk.rs:118-135 | two passes leave every position once, in order, whatever came in |
| `Chunks.TwoPassesKeepFirst` | rings-core/src/chunk.rs:118-135 | of any chunks, fitting one message or not, two passes keep exactly the first that came of each position, in order of position |
| `Chunks.DigestUnique` | rings-core/src/chunk.rs:118-135 | there is only one such list |
| `Chunks.SortIsStable` | rings-core/src/chunk.rs:122-122 | sorting leaves chunks of one position in the order they came in |
| `Chunks.OnePassMayRepeat` | rings-core/src/chunk.rs:118-124 | a repetition that is not adjacent survives one pass |
| `Chunks.OnePassIsStrictIff` | rings-core/src/chunk.rs:117-124 | one pass leaves every position once, in order, exactly if chunks of equal position stand next to each other |
| `Chunks.CompleteIffNoneMissing` | rings-core/src/chunk.rs:138-154 | chunks of one message in any order and repetition give their whole data exactly if no position is missing |
| `Chunks.GetOfAny` | rings-core/src/chunk.rs:242-244 | getting a message from any pool gives the first chunk of each position together, exactly if they are as many as the least of them says |
| `Chunks.WithdrawOfAny` | rings-core/src/chunk.rs:137-154 | withdrawing from any list makes one pass and gives its data exactly if it leaves as many chunks as the first chunk of the least position says |
| `Chunks.RawWithdrawIff` | rings-core/src/chunk.rs:137-154 | withdrawing from a list as it came, with no part missing, gives the data exactly if repetitions are adjacent; with one missing, nothing exactly if dropping adjacent repetitions leaves another number of chunks than parts |
| `Chunks.RawWithdrawMayBeWrong` | rings-core/src/chunk.rs:137-154 | of three parts the first, second and first again are withdrawn as if they were the message |
| `Chunks.HandleOwn` | rings-core/src/chunk.rs:256-273 | a part gives nothing or, if it was the last missing one, everything; then exactly this message leaves the pool |
| `Chunks.HandleOther` | rings-core/src/chunk.rs:242-273 | chunks of other messages do not disturb the parts held |
| `Chunks.HandledFrame` | rings-core/src/chunk.rs:246-273 | a refused chunk changes nothing; an accepted one drives out only expired chunks and its own completed message |
| `Chunks.HandledOfAny` | rings-core/src/chunk.rs:256-273 | any accepted chunk joins the pool at the end; expired ones go; the first chunks of each position of its message decide whether the data comes out and the message goes |
| `Chunks.AcceptedIff` | rings-core/src/chunk.rs:256-263 | a chunk is accepted exactly if it is to live at most 3000000 ms and is stamped at most 3000 ms ahead; stamps below 3000 wrap around |
| `Chunks.AliveIff` | rings-core/src/chunk.rs:250-254 | a chunk is kept exactly while the clock is before its stamp plus its time to live |
| `Chunks.ReassemblyOfTimely` | rings-core/src/chunk.rs:118-273 | the reassembly of any parts each of which is accepted and alive, whatever their stamps |
| `Chunks.Reassembly` | rings-core/src/chunk.rs:118-273 | a message stamped and living as usual, its parts coming in at most 3000 ms before the stamp and handled before stamp plus time to live, in any order, repetition and interleaving: nothing until the last missing place arrives, then exactly the original bytes |
| `Chunks.ChunkList.Handle` | rings-core/src/chunk.rs:256-273 | for any message of which the pool holds some places, a timely part yields the whole data exactly if it was the last one missing; then nothing of the message stays, and unexpired chunks of others do |
| `Lookup.JoinedAllKnows` | rings-core/src/dht/chord.rs:213-228 | a node that joined all others in any order knows them all |
| `Lookup.FullIsStable` | rings-core/src/dht/chord.rs:213-254 | a ring in which everybody knows everybody is stable |
| `Lookup.Hop` | rings-core/src/dht/chord.rs:238-254 | in a stable ring a node answers with the next node, or names one strictly between itself and the key |
| `Lookup.AnswerOwnsIff` | rings-core/src/dht/chord.rs:238-254 | in a stable ring a lookup ends with the first node at or after the key exactly if it does not start at the key, or there is one node |
| `Lookup.AllStartsAgree` | rings-core/src/dht/chord.rs:238-254 | all other starting nodes get the same answer |
| `Lookup.PathDescends` | rings-core/src/message/handlers/connection.rs:187-217 | the distance to the key falls along the path and no node handles the lookup twice |
| `Lookup.HandlersDescend` | rings-core/src/dht/chord.rs:238-254 | in any state of the tables, and while they change between the hops, of nodes that each name the next one, another node, every later one is strictly nearer to the key: none handles the lookup twice |
| `Lookup.HopHalves` | rings-core/src/dht/finger.rs:147-159 | a forward more than halves the distance to the last node before the key |
| `Lookup.AtMost160Hops` | rings-core/src/dht/chord.rs:238-254 | where everybody knows everybody a lookup is forwarded at most 160 times and answered by the key's owner |
| `Messages.RunFindAnswers` | rings-core/src/message/handlers/connection.rs:184-219 | a lookup message on its way is answered at the end of the path with the report of the whole path |
| `Messages.LookupConversation` | rings-core/src/message/handlers/connection.rs:184-230 | every relay check of a lookup succeeds, the owner is answered, the report visits exactly the reverse path |
| `Messages.HoldersAgreeIff` | rings-core/src/dht/chord.rs:349-357 | two nodes reach the same holder of a value exactly if neither or both carry its id |
| `Messages.FirstHopIsOnTheWay` | rings-core/src/message/payload.rs:224-233 | the second look-up of the first hop stays strictly nearer to the key |
| `Messages.FirstHopIsFingerBefore` | rings-core/src/message/payload.rs:224-233 | the node named for a key is sent to straight away exactly where it is the nearest successor; otherwise the first hop is the farthest finger strictly before that node |
| `Messages.FirstHopInAnyState` | rings-core/src/message/payload.rs:224-233 | in any state it is the own id without a successor, the nearest successor if that is not before the destination, and else what the highest slot before the destination holds, or the own id |
| `Messages.StoreReachesHolder` | rings-core/src/message/handlers/storage.rs:67-105 | data stored from any node is stored at the holder and changes nothing else |
| `Messages.OperationReachesHolder` | rings-core/src/message/handlers/storage.rs:67-105 | an operation of any kind started at any node is done, or refused, at the holder and changes nothing else |
| `Messages.StoreSucceedsIff` | rings-core/src/message/handlers/storage.rs:67-105 | it is done exactly for data |
| `Messages.FetchReachesHolder` | rings-core/src/message/handlers/storage.rs:49-64 | a fetch from any node brings the holder's value into that node's cache and changes nothing else |
| `Messages.StoreThenFetch` | rings-core/src/message/handlers/storage.rs:49-176 | what any node stores, extends or touches any node fetches, with all relays and reports on the way, where both or neither of them carry the id of the value |
| `Messages.StoreThenFetchIff` | rings-core/src/message/handlers/storage.rs:49-176 | for a node that has not cached the value yet: it gets the stored value exactly if both or neither carry the id, or its own holder had that very value before |
| `Messages.FoundComesHome` | rings-core/src/message/handlers/storage.rs:141-156 | the report with the value ends at its origin's cache |
| `Stabilization.StepLightens` | rings-core/src/message/handlers/stabilization.rs:27-63 | every step that changes a successor list or predecessor makes one measure of the whole network smaller |
| `Stabilization.UpdateLightens` | rings-core/src/dht/successor.rs:52-59 | a changed list has less weight: a free slot weighs a whole round, an entry its distance |
| `Stabilization.FinitelyManyChanges` | rings-core/src/message/handlers/stabilization.rs:20-78 | over any run, with any delays, losses and repetitions, the number of changes is bounded by the weight at the start |
| `Stabilization.ExchangeIsRun` | rings-core/src/message/handlers/stabilization.rs:27-63 | a notification and its report, handled in turn, are a piece of a run of the protocol |
| `Stabilization.QuiescentIsMutual` | rings-core/src/message/handlers/stabilization.rs:27-63 | where no exchange changes anything, the nearest successor of a node has that node as predecessor |
| `Stabilization.QuiescentIsOneToOne` | rings-core/src/message/handlers/stabilization.rs:27-63 | there, no two nodes share their nearest successor |
| `Stabilization.QuiescenceIsReached` | rings-core/src/dht/stabilization.rs:50-73 | from every ring some exchanges between nodes and their successors, no more than its weight, lead to such a state |
| `Stabilization.IdealIsKept` | rings-core/src/message/handlers/stabilization.rs:27-63 | no step changes a ring with true successors and predecessors, whatever is still under way |
| `Stabilization.QuiescentMayBeSplit` | rings-core/src/message/handlers/stabilization.rs:27-63 | two pairs that only know each other are quiescent and not ideal |
| `Stabilization.NotifiedByAllIsFarthest` | rings-core/src/dht/chord.rs:260-279 | over any run of notifications the id of greatest clockwise distance is kept |
| `Stabilization.NotifyOrderIrrelevant` | rings-core/src/dht/chord.rs:260-279 | order and repetition of notifications do not matter |
| `Rounds.RunGoesOnward` | rings-core/src/message/handlers/stabilization.rs:21-77 | over any run true nearest successors stay, and no predecessor moves back |
| `Rounds.RoundSetsPredecessors` | rings-core/src/dht/stabilization.rs:50-73 | from true nearest successors every run that delivers each node's notification of its next node, with all its reports, delays and repetitions, sets every predecessor right |
| `Rounds.RoundMakesIdeal` | rings-core/src/dht/stabilization.rs:50-73 | from complete successor lists every such run ends in the ideal ring |
| `Rounds.RoundExists` | rings-core/src/dht/stabilization.rs:50-73 | such runs exist |
| `Rounds.RestHasTruePredecessors` | rings-core/src/message/handlers/stabilization.rs:27-63 | at rest, true nearest successors mean true predecessors |
| `Rounds.RestListsAreContiguous` | rings-core/src/message/handlers/stabilization.rs:27-63 | at rest, true nearest successors make every list a contiguous stretch of the ring beginning at its owner |
| `Rounds.RestIsIdealIff` | rings-core/src/message/handlers/stabilization.rs:27-63 | a ring at rest without empty lists is ideal exactly if all nearest successors are true and every list is full or holds all other nodes |
| `Rounds.RestKnowsNextIff` | rings-core/src/message/handlers/stabilization.rs:27-63 | at rest without empty lists all nearest successors are true exactly if every node but the one with the highest id has a nearest successor of higher id than its own |
| `Rounds.JoinerIsTakenIn` | rings-core/src/message/handlers/stabilization.rs:21-77 | a node that knows its next node joins a ring with true nearest successors: every run in which the node before it is told of it ends with true nearest successors everywhere |
| `Rounds.JoinerRunExists` | rings-core/src/message/handlers/stabilization.rs:21-77 | there is such a run from the new node's and its neighbour's stabilization, if that neighbour has a successor |
| `Handlers.HandleJoinDHT` | rings-core/src/message/handlers/connection.rs:41-70 | joins, keeping the invariants, and asks the joined node for this node's successor unless the message came from it |
| `Handlers.HandleFindSuccessorSend` | rings-core/src/message/handlers/connection.rs:184-218 | exactly acceptable SENDs are taken in, with an origin where they are answered; a node in charge answers its nearest successor by a report to the previous hop, any other sends the message on to itself or to a node strictly nearer to the key; with exact fingers to another node exactly if some finger lies strictly before the key |
| `Handlers.HandleVNodeOperation` | rings-core/src/message/handlers/storage.rs:161-176 | a node in charge succeeds exactly for data and then holds the new value; any other exactly for an acceptable SEND, which it passes on to itself or strictly nearer, by the same condition on its fingers, changing nothing; the store stays in order |
| `Handlers.HandleSearchVNode` | rings-core/src/message/handlers/storage.rs:113-136 | silent exactly if in charge without the value; otherwise reports the data stored under that id to the previous hop, or sends the message on to itself or strictly nearer, by the same condition |
| `Handlers.HandleFindFails` | rings-core/src/message/handlers/connection.rs:184-218 | how handling a lookup fails: as the hop does, or because only a SEND with an origin is answered and only a SEND sent elsewhere |
| `Handlers.HandleOperateFails` | rings-core/src/message/handlers/storage.rs:161-176 | how handling an operation fails: as the value is refused, or because only a SEND is sent elsewhere, or as the hop does |
| `Handlers.HandleSearchInAnyState` | rings-core/src/message/handlers/storage.rs:113-136 | a node not in charge passes a search on as it is, a REPORT too; how a search in charge fails |
| `Handlers.HandleFoundVNode` | rings-core/src/message/handlers/storage.rs:142-155 | forwards the report, or caches all its values in order where it ends; with one value it is the handler of the runs |
| `Handlers.CacheAllHolds` | rings-core/src/message/handlers/storage.rs:150-152 | under each id the last value of that id is cached, and nothing else changes |
| `Handlers.NotifyPredecessor` | rings-core/src/dht/stabilization.rs:50-73 | one message to every successor in list order, none if the node is its own nearest successor |
| `Handlers.HandleNotifyPredecessorSend` | rings-core/src/message/handlers/stabilization.rs:21-43 | the predecessor is notified exactly if the relay, SEND or REPORT, can be passed on here, and is then no farther than before or than the notifying node; the old one is reported to the previous hop exactly if it is not the origin, which fails, the predecessor being notified even so, unless the message is a SEND with an origin |
| `Handlers.NotifyHandlerIsStep` | rings-core/src/message/handlers/stabilization.rs:21-43 | on the message a node sends, the handler takes the step of the protocol and its report names the sender as next hop |
| `Handlers.StabilizeIsStep` | rings-core/src/dht/stabilization.rs:50-73 | in the protocol a stabilizing node sends its id to exactly its successors |
| `Handlers.ReportHandlerIsStep` | rings-core/src/message/handlers/stabilization.rs:49-77 | in the protocol a report has exactly its handler's effect on the successor list |
| `Handlers.HandleNotifyPredecessorReport` | rings-core/src/message/handlers/stabilization.rs:49-77 | connects first, or updates the successors and hands values over |
| `Bootstrap.RingWorks` | rings-core/src/dht/chord.rs:205-279 | after joins in any order every run of the protocol that delivers a round ends in a ring that is ideal, fully known and stable |
| `Bootstrap.RingCanWork` | rings-core/src/dht/stabilization.rs:50-73 | there is such a run |
| `Bootstrap.TwoNodesJoined` | rings-core/src/dht/chord.rs:205-234 | any two nodes that joined each other are a network of this kind |
| `Bootstrap.RingAnswers` | rings-core/src/message/handlers/connection.rs:184-218 | in it a lookup of any key from any node that does not carry the key as its id ends at the owner after at most 160 forwards |
| `Bootstrap.RingServes` | rings-core/src/message/handlers/storage.rs:49-176 | in it what any node stores, extends or touches any node fetches, where both or neither of them carry the id of the value |

## Left out

- Transports, connections, sessions, signatures, encryption, compression, JSON-RPC, browser and command line: input, output and foreign calls.
- Locks: each public method is one atomic step; lock failure and lock order are not modelled.
- Persistent storage: a map whose operations succeed; the cache likewise.
- Finger tables of more than 160 slots: the code only makes tables of 160, and positions beyond 2^159 wrap to zero.
- Strict lookups and the report of a remote finger fix: the reply is written to whatever slot is current when it comes in.
- Handling of `ConnectNodeSend`, `ConnectNodeReport`, `AlreadyConnected` and `FindSuccessorReport` beyond the relay: they act on transports.
- Delivery of handed-over values: `handle_message` has no arm for `SyncVNodeWithSuccessor`, so only the sender's split is modelled.
- Subrings, `JoinSubring` and relayed-message values: the stored form of a subring cannot be read back, so there is no round trip.
- `list_completed` and `list_pending` (summaries of the pool by message), `measure.rs` (connection counters), message name tables (string lookups).
- Debug builds: where unsigned time arithmetic underflows, a release build wraps around, and that is what is modelled; a debug build stops.
- Sizes of machine words for positions, lengths and cursors: plain naturals, except the byte the successor count is cast to and the 128-bit clock.
- VNodes.OperateSucceedsIff: does not model the `JoinSubring` arm of `operate`, because subrings are left out.
- Messages.RunFound: the number of report hops is limited by a counter that starts at the length of the path; `Messages.FoundComesHome` shows that it is always enough.
- Lookup.AtMost160Hops: asks for rings with room for at least one successor; with none, every node answers with itself.
- Fingers.FingerTable: `get`, `get_ref`, `contains`, `len`, `list` and indexing only read the slots.
