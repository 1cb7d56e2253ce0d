# BLACKWING in Dafny

BLACKWING is a remote-desktop stack. This project models the six places in it where correctness rests on a
whole run rather than on one call, and proves what each of them promises.

| part | modules | what is proved |
|---|---|---|
| Slot pool | `SlotPool`, `SlotPoolWrap`, `SlotPoolObject` | under every interleaving of any number of threads the free list stays a list and no slot is held twice, exactly as long as no compare-exchange is 65536 head updates late |
| Reliable delivery | `ReplayWindow`, `Reliability`, `ReliabilityObjects`, `SenderWindow`, `SenderRuns`, `ReliableLink` | over a lossy, duplicating, reordering network the receiver delivers a prefix of what was sent; nothing is forgotten; the duplicate filter suits exactly the windows up to 64; exactly when a send is refused and which frames a timeout and a retransmission name |
| Secure channel | `Codec`, `Encryption`, `EncryptionObjects`, `SecureChannel`, `ContextRuns`, `Fragments`, `Session`, `SessionObjects` | against an active network every frame returned is genuine and returned once; no nonce repeats; what a context holds and returns across any rotations; over a byte stream the messages received are those sent, through both fragmentation layers and key rotation |
| Scheduler | `Scheduler`, `SchedulerObject`, `SchedulerFairness` | when `dequeue_next` ends; credit accounting; service in proportion to weights; a bound on how long a front packet waits |
| Relay | `Forwarding`, `ForwardingObject`, `ForwardingRuns`, `ForwardingRates`, `Blocklist`, `Rendezvous`, `RendezvousObject`, `Relay`, `RelayObject`, `Consent`, `SignedConsent`, `RelayRecord`, `RegistryRecord`, `IntentReuse` | the consent behind every forwarded packet and exactly when its signatures are what they are taken for, the session lifecycle, exactly which packets pass, the token index, the blocklist, and what the relay holds and answers by the record of its messages |
| Video pipeline | `Pipeline`, `PipelineObjects`, `ColorConvert` | exactly which frames are delivered; everything delivered can be decoded; the colour conversion writes every cell once, never wraps and follows BT.601 |

`Words` holds machine words as naturals (bits, shifts that lose what passes bit 63, saturating subtraction).

How the models are built:

* Objects that the program changes in place are classes, their loops are loops, and each method is proved equal
  to a function on values. The laws are proved about those functions, over sequences of steps.
* Concurrency and networks are state machines. A step of the slot pool is one atomic load, store or
  compare-exchange of one thread; a step of the link is a send, an arrival, an acknowledgement, a timeout or a
  retransmission, in any order, with any frame ever put on the network.
* Clocks, randomness, spurious compare-exchange failures and the behaviour of the codec library are parameters.
* Cryptography is idealised. The AEAD opens what it sealed and nothing that was not sealed; derived keys of
  different epochs differ; a signature checks out over the digest the relay computes only if the key's device has
  signed a statement with that digest, and the bytes hashed share it with no other signed statement.
* The forwarding table's token bucket is kept in thousandths of a byte instead of a floating-point number, so
  refilling is exact.

Properties that do not hold for every input are stated with their exact condition:

* The pool is safe for generation distances up to 65536 and a run is given that breaks it there
  (`SafeExactlyUpToOneGenerationCycle`, `SlotHandedOutTwice`).
* The duplicate filter fits windows up to 64; beyond, a needed frame is refused and nothing is ever delivered again
  (`FilterFitsWindowExactly`, `LargeWindowRefuses`, `LostForEver`).
* The scheduler loop ends if and only if there is a quantum, nothing to send or a stream already able to send
  (`LoopEndsExactly`, `FreshWithoutQuantum`).
* Whatever was presented before, a frame is returned if and only if it is genuine in the receiver's epoch and no
  counter presented there equals its own or is 64 or more ahead, or it is genuine in the next epoch
  (`ReturnedExactly`, `SurvivesExactly`); the window moves before a frame is authenticated.
* Messages come back if and only if they are at most 4 MiB (`ReassembleExactly`).
* The token index stays the inverse of the contexts if and only if neither intent nor token is reused for something
  else (`AuthorizeInverse`); the registry lets an accepted intent id be reused (`ReusedIntentLeavesAToken`).
* A request and its acceptance that were taken once are taken again as long as their timestamps are in the window, the
  registry has room and they come within 30 s of each other (`RepeatedExactly`). The intent then starts over,
  live, with nothing counted and a full bucket. Rate, byte cap, forward times, bucket and live states are therefore
  stated per authorization, over runs that reuse ids and tokens at will. An intent id stands for one session, and that
  session only moves on, if and only if no step in between authorizes the id again (`SameSessionExactly`,
  `LifecycleExactly`).
* A connect request and an acceptance are signed over the same byte layout, so the relay cannot tell a signature on
  the one from a signature on the other (`LayoutShared`). That behind every packet one end had signed a request and
  the other an acceptance holds if and only if devices never sign two requests, or two acceptances, that name
  each other under one intent at close times (`MutualExactly`); that the request was moreover the initiator's is
  `AsMeantExactly`; `FacingStory` is the run in which two requests carry a packet. Ordinary traffic is always mutual
  but does not meet the latter: a single request and its acceptance meet it only if their timestamps are more than ten
  minutes apart (`OnePairExactly`, `AsMeantIsTenMinutesLate`), because closer signatures could be presented the
  other way round.
* A rotation of a context moves its receiving half along, so frames its peer sealed before rotating too are refused:
  right after it exactly the frames of the new epoch and the one after are returned (`AfterRotationExactly`).
* Accepted and expired intents are never dropped: once they number 2048, no intent is ever registered again
  (`RegisteredExactly`, `FullForEver`).
* An establish request is acknowledged without regard to the address it comes from; it moves the binding there
  whenever its timestamp, session and signature are good (`EstablishExactly`, `RebindExactly`).
* A refresh frame forces an IDR if and only if it is the last of its drain (`IdrExactly`, `DrainedRefreshIsForgotten`).
* The colour conversion stays in bounds for any sides if and only if its last block does; with four bytes a pixel, if
  and only if both sides are even (`InBoundsExactly`, `ExactBufferInBounds`).

Where code and comments differ the code is followed. An intent created at time 0 is never listed by a poll,
because staleness is computed with a saturating subtraction. `round_start` in the scheduler never leaves 0. A
registration drops a pending intent at age exactly 30 s, when an acceptance would still take it.

## Model

| member | source | states |
|---|---|---|
| `SlotPool.PackRoundTrip` | crates/bw-core/src/pool.rs:25-40 | a tagged head gives back the low 16 bits of its generation and its index |
| `SlotPool.UnpackRoundTrip` | crates/bw-core/src/pool.rs:25-40 | packing generation and index of a head gives the head again |
| `SlotPool.NoAba` | crates/bw-core/src/pool.rs:78-112 | a compare-exchange that succeeds in time sees a head unchanged since its load |
| `SlotPool.PopKeeps` | crates/bw-core/src/pool.rs:78-112 | a successful pop moves exactly the top of the free stack to its thread |
| `SlotPool.PushKeeps` | crates/bw-core/src/pool.rs:115-134 | a successful push moves exactly the released slot to the top of the free stack |
| `SlotPool.StepKeeps` | crates/bw-core/src/pool.rs:78-134 | every atomic step of any thread keeps the invariant for some free stack |
| `SlotPool.EveryRunIsSound` | crates/bw-core/src/pool.rs:57-134 | every interleaving in time: the list from the head is acyclic and ends at the pool size, free and owned slots partition the slots |
| `SlotPool.NoSlotHeldTwice` | crates/bw-core/src/pool.rs:57-134 | in every such state no slot has two holders and the next slot to go out is not held |
| `SlotPoolWrap.CheckoutTakesTop` | crates/bw-core/src/pool.rs:78-112 | the steps of an uninterrupted checkout take the top slot |
| `SlotPoolWrap.ReleasePutsTop` | crates/bw-core/src/pool.rs:115-134 | the steps of an uninterrupted release put the slot on top |
| `SlotPoolWrap.WrapBreaksThePool` | crates/bw-core/src/pool.rs:25-40 | a run in which one exchange is exactly 65536 updates late and succeeds on a reused head |
| `SlotPoolWrap.SlotHandedOutTwice` | crates/bw-core/src/pool.rs:78-134 | one checkout later the index of slot 1 is handed out a second time while it is held |
| `SlotPoolWrap.SafeExactlyUpToOneGenerationCycle` | crates/bw-core/src/pool.rs:25-134 | bounding the lateness of exchanges by `bound` makes all runs sound if and only if `bound` is at most 65536 |
| `SlotPoolObject.StaticSlotPool.constructor` | crates/bw-core/src/pool.rs:57-75 | a new pool has every slot free, in index order |
| `SlotPoolObject.StaticSlotPool.CheckOut` | crates/bw-core/src/pool.rs:78-112 | takes the top free slot, fails exactly when none is free, counts either outcome, whatever spurious failures the retry loop meets |
| `SlotPoolObject.StaticSlotPool.Release` | crates/bw-core/src/pool.rs:115-134 | the slot becomes the top of the free stack |
| `SlotPoolObject.StaticSlotPool.DropGuard` | crates/bw-core/src/pool.rs:157-166 | zeroes the slot's bytes, and only those, when the policy says so, then releases it |
| `SlotPoolObject.DropThenCheckOut` | crates/bw-core/src/pool.rs:222-244 | last in first out: the slot just dropped is the next one handed out, zeroed or not as the policy says |
| `ReplayWindow.AdmitRefinesSet` | crates/bw-protocol/src/encryption.rs:109-133 | one step of the 64-bit mask accepts exactly what the set of seen values accepts and still represents it |
| `ReplayWindow.WindowRefinesSet` | crates/bw-protocol/src/reliability.rs:119-143 | over every input the mask represents the set of values seen |
| `ReplayWindow.SeenHoldsAccepted` | crates/bw-protocol/src/reliability.rs:119-143 | that set holds the accepted inputs and nothing else |
| `ReplayWindow.NewestIsMaximum` | crates/bw-protocol/src/reliability.rs:119-143 | its newest value is at least every input and, unless there is none, one of them |
| `ReplayWindow.AcceptedExactly` | crates/bw-protocol/src/encryption.rs:109-133 | an input is accepted if and only if its value was not accepted before and is less than 64 behind every earlier input (the window of section 3.4.3 of RFC 4303) |
| `ReplayWindow.AcceptedIfFirst` | crates/bw-protocol/src/encryption.rs:109-133 | an input is accepted if and only if it is the first of its value and less than 64 behind every earlier input |
| `ReplayWindow.AcceptedOnce` | crates/bw-protocol/src/encryption.rs:109-133 | no value is accepted twice |
| `ReliabilityObjects.DuplicateFilter.CheckAndTrack` | crates/bw-protocol/src/reliability.rs:119-143 | the object takes the steps of the window model |
| `ReliabilityObjects.OrderedAssembler.InsertFrame` | crates/bw-protocol/src/reliability.rs:163-167 | buffers a frame that is not behind what was delivered |
| `ReliabilityObjects.OrderedAssembler.AssembleReady` | crates/bw-protocol/src/reliability.rs:175-182 | the loop drains exactly the contiguous frames, in order |
| `ReliabilityObjects.ReliableReceiver.ReceiveFrame` | crates/bw-protocol/src/reliability.rs:330-337 | a frame the filter admits is buffered and what is then contiguous returned; one it refuses returns nothing and changes nothing |
| `ReliabilityObjects.ReliableSender.SendPayload` | crates/bw-protocol/src/reliability.rs:204-222 | queues the next number with the payload, or refuses with no change when the window is full |
| `ReliabilityObjects.ReliableSender.AcknowledgeFrames` | crates/bw-protocol/src/reliability.rs:225-246 | marks exactly the frames named by number or bit, then slides the base past the acknowledged prefix |
| `ReliabilityObjects.ReliableSender.MarkDelivered` | crates/bw-protocol/src/reliability.rs:249-253 | marks the entry with that number and leaves the others |
| `ReliabilityObjects.ReliableSender.MarkTimeouts` | crates/bw-protocol/src/reliability.rs:256-267 | times out exactly the overdue pending entries and lists them in queue order |
| `ReliabilityObjects.ReliableSender.RetransmitTimedOut` | crates/bw-protocol/src/reliability.rs:270-285 | re-arms the timed-out entries with retries left and returns their frames |
| `SenderWindow.AckNames` | crates/bw-protocol/src/reliability.rs:225-246 | whatever an acknowledgement names, everything below the base was named, the base was not, and marked in the queue is exactly what was named |
| `SenderWindow.NamesExactly` | crates/bw-protocol/src/reliability.rs:225-233 | an acknowledgement names its number and, of the 64 before it counting round in 64 bits, those whose bit is set |
| `SenderWindow.AllNamedReopens` | crates/bw-protocol/src/reliability.rs:225-246 | an acknowledgement that names everything still unnamed empties the queue and reopens the whole window |
| `SenderRuns.SendRefusedExactly` | crates/bw-protocol/src/reliability.rs:204-243 | over every run, against any acknowledgements, the base is the least number not named since it was sent, and a send is refused if and only if a whole window lies between it and the next number |
| `SenderRuns.TimeoutExactly` | crates/bw-protocol/src/reliability.rs:256-267 | over every run a timeout lists, in order, exactly the numbers not named, not listed since their last emission, and emitted at least a timeout ago |
| `SenderRuns.RetransmitExactly` | crates/bw-protocol/src/reliability.rs:270-285 | over every run a retransmission emits, in order and with their payloads, exactly the frames listed since, not named, and with attempts left |
| `SenderRuns.AttemptsBounded` | crates/bw-protocol/src/reliability.rs:256-285 | no number is emitted more often than once plus the policy's retransmissions |
| `SenderRuns.AttemptsSpaced` | crates/bw-protocol/src/reliability.rs:256-285 | any two emissions of a number lie at least a timeout apart |
| `ReliableLink.StepKeeps` | crates/bw-protocol/src/reliability.rs:163-337 | every step of sender, network and receiver keeps the link invariant |
| `ReliableLink.DeliveryIsAPrefix` | crates/bw-protocol/src/reliability.rs:163-182 | in every reachable state the payloads delivered are the first `next_expected` payloads sent |
| `ReliableLink.NothingForgotten` | crates/bw-protocol/src/reliability.rs:225-246 | every payload sent is queued at the sender or was accepted by the receiver |
| `ReliableLink.WindowReopensExactly` | crates/bw-protocol/src/reliability.rs:204-243 | over every run of the link a send is refused if and only if a whole window lies between the least number not named and the next |
| `ReliableLink.AllNamedReopensLink` | crates/bw-protocol/src/reliability.rs:225-246 | and an acknowledgement that names everything left reopens it |
| `ReliableLink.SmallWindowTakesAllQueued` | crates/bw-protocol/src/reliability.rs:119-143 | with a window of at most 64 the filter refuses no queued frame that is still needed |
| `ReliableLink.ArrivalsDeliverEverything` | crates/bw-protocol/src/reliability.rs:330-337 | from any reachable state, once each queued frame arrives, mixed with anything else, everything sent is delivered |
| `ReliableLink.LargeWindowRefuses` | crates/bw-protocol/src/reliability.rs:92-143 | for every window over 64, a reachable state in which a frame the receiver needs is refused |
| `ReliableLink.LostForEver` | crates/bw-protocol/src/reliability.rs:119-182 | from there on, whatever happens, that frame stays queued and refused and nothing is ever delivered |
| `ReliableLink.FilterFitsWindowExactly` | crates/bw-protocol/src/reliability.rs:92-143 | the filter never refuses a needed queued frame if and only if the window is at most 64 |
| `Codec.HeaderRoundTrip` | crates/bw-protocol/src/header.rs:14-69 | the 32 bytes of a header read back as that header |
| `Codec.HeaderReadBack` | crates/bw-protocol/src/header.rs:46-69 | any 32 bytes read as a header are that header's bytes |
| `Codec.DecodeUndoesEncode` | crates/bw-protocol/src/codec.rs:21-63 | an encoded frame decodes to itself if it is well-formed and is refused if not |
| `Codec.EncodeUndoesDecode` | crates/bw-protocol/src/codec.rs:41-63 | whatever decodes is well-formed and encodes to the same bytes |
| `Codec.DecodeExactly` | crates/bw-protocol/src/codec.rs:41-63 | bytes decode if and only if they begin with the magic, hold major version 1 and are exactly as long as their length field says; flags, type and payload are where they stand |
| `Codec.RecvWhatWasSent` | crates/bw-transport/src/adapter.rs:109-161 | a frame on the stream is read back and the reader stands exactly behind it |
| `Codec.RecvExactly` | crates/bw-transport/src/adapter.rs:109-161 | which streams begin with a frame, and what is left of them |
| `Codec.QuicRecvAdapter.ReadExact` | crates/bw-transport/src/adapter.rs:123-161 | all the bytes asked for, or closed and drained |
| `Codec.QuicRecvAdapter.ReceiveFrame` | crates/bw-transport/src/adapter.rs:123-161 | the two reads of the adapter are one step of the stream parser, errors included |
| `Encryption.NonceRoundTrip` | crates/bw-protocol/src/encryption.rs:18-35 | the 12 bytes give back epoch and counter |
| `Encryption.NonceInjective` | crates/bw-protocol/src/encryption.rs:18-35 | different epoch and counter pairs give different nonces |
| `Encryption.KeysDiffer` | crates/bw-protocol/src/encryption.rs:189-197 | no two epochs share a key |
| `Encryption.RoomExactly` | crates/bw-protocol/src/encryption.rs:359-372 | how many frames a policy has room for: what the counter allows with manual rotation, otherwise that many per epoch for every epoch left |
| `EncryptionObjects.ReplayProtection.ProtectReplay` | crates/bw-protocol/src/encryption.rs:109-133 | the object takes the steps of the window model |
| `EncryptionObjects.FrameEncryptor.EncryptFrame` | crates/bw-protocol/src/encryption.rs:164-181 | seals under the current key, epoch and counter and spends the counter |
| `EncryptionObjects.FrameEncryptor.RotateKeys` | crates/bw-protocol/src/encryption.rs:189-197 | derives the next key, counts the epoch up and starts the counter again |
| `EncryptionObjects.FrameDecryptor.DecryptFrame` | crates/bw-protocol/src/encryption.rs:230-291 | current epoch, next epoch or refusal, with exactly the state change each outcome has |
| `EncryptionObjects.FrameDecryptor.RotateKeys` | crates/bw-protocol/src/encryption.rs:315-323 | derives the next key and starts a fresh window |
| `EncryptionObjects.EncryptionContext.EncryptFrame` | crates/bw-protocol/src/encryption.rs:359-372 | rotates both halves after a seal that reaches the policy's limit |
| `EncryptionObjects.EncryptionContext.RotateKeys` | crates/bw-protocol/src/encryption.rs:383-387 | rotates both halves |
| `SecureChannel.OpenedIsLogged` | crates/bw-protocol/src/encryption.rs:230-291 | bytes that open under the key of an epoch were sealed there, under the counter of their nonce |
| `SecureChannel.StepKeeps` | crates/bw-protocol/src/encryption.rs:230-323 | sealing, rotating and any input keep the channel invariant |
| `SecureChannel.ReturnedFramesAreGenuineAndOnce` | crates/bw-protocol/src/encryption.rs:230-291 | for any mix of genuine, repeated, reordered and altered input, every frame returned was sealed by the peer and no seal is returned twice, across all epochs |
| `SecureChannel.KeysAgree` | crates/bw-protocol/src/encryption.rs:189-323 | whenever sender and receiver are in the same epoch, at whatever times, they hold the same key |
| `SecureChannel.EpochAdvancesOnlyAuthenticated` | crates/bw-protocol/src/encryption.rs:230-291 | an input moves the receiver's epoch only by one, and only if the peer sealed a frame there with the presented counter |
| `SecureChannel.EpochNeverFalls` | crates/bw-protocol/src/encryption.rs:230-323 | the receiver's epoch never goes down |
| `SecureChannel.CurrentIsWindow` | crates/bw-protocol/src/encryption.rs:230-291 | after any frames of any epochs, the window is that of the counters presented since the receiver entered its epoch, authenticated or not |
| `SecureChannel.ReturnedExactly` | crates/bw-protocol/src/encryption.rs:230-291 | after any frames of any epochs, forged or genuine, a frame is returned if and only if it is genuine in the receiver's epoch and no counter presented there equals its own or is 64 or more ahead, or it is genuine in the next epoch |
| `SecureChannel.SurvivesExactly` | crates/bw-protocol/src/encryption.rs:230-291 | while no frame takes the receiver on, only the frames of its own epoch, and the counters from before, can keep a genuine frame from being returned |
| `SecureChannel.EnteredInBand` | crates/bw-protocol/src/encryption.rs:256-291 | an epoch entered by an authenticated frame starts with that frame's counter |
| `ContextRuns.UseIsTheContexts` | crates/bw-protocol/src/encryption.rs:359-387 | ties the uses of a run to sealing, opening and rotating |
| `ContextRuns.ContextIsItsHistory` | crates/bw-protocol/src/encryption.rs:359-387 | over every run of seals, opens and rotations both halves hold the keys of their own chains at their epochs, the counter counts from the last rotation, and the window is that of the counters presented in the epoch |
| `ContextRuns.RotatesOnSchedule` | crates/bw-protocol/src/encryption.rs:359-372 | unless asked to, a context rotates after every `limit` frames, and under the manual policy never |
| `ContextRuns.SealsInOrder` | crates/bw-protocol/src/encryption.rs:359-372 | what a context seals is the next numbered frame of its own chain |
| `ContextRuns.ContextReturnsExactly` | crates/bw-protocol/src/encryption.rs:230-291 | over every run a frame is returned if and only if it is genuine in the receiving half's epoch and unspoilt there, or genuine in the next |
| `ContextRuns.PeerFrameReturnedExactly` | crates/bw-protocol/src/encryption.rs:230-387 | of the peer's frames exactly those are returned |
| `ContextRuns.AfterRotationExactly` | crates/bw-protocol/src/encryption.rs:315-387 | right after a rotation every frame of the peer in the new epoch or the next is returned whatever its counter, and every other refused |
| `SecureChannel.NoNonceReuse` | crates/bw-protocol/src/encryption.rs:164-197 | over every run the epoch and counter pairs strictly increase and no nonce is used twice under one key, as section 2.8 of RFC 8439 requires |
| `Fragments.FlagsRoundTrip` | crates/bw-session/src/wire.rs:51-53 | index and continuation bit read back from the flags |
| `Fragments.ReassembleExactly` | crates/bw-session/src/wire.rs:217-298 | the pieces of a message come back as that message if it is at most 4 MiB, and are refused as oversized if not |
| `Fragments.PutTogetherExactly` | crates/bw-session/src/wire.rs:217-298 | whatever pieces come, a message is put together from the first n if and only if they follow one another in number, only the last says that none follows, and none takes them over 4 MiB |
| `Session.PieceOnTheWire` | crates/bw-session/src/wire.rs:112-160 | the bytes of a piece: magic, version, flags, packet type, length, then the piece |
| `Session.WireRoundTrip` | crates/bw-session/src/secure_conn.rs:365-455 | bytes sent as fragments over the frame stream are read back whole, and nothing after them is touched |
| `Session.SealNextIsContextEncrypt` | crates/bw-protocol/src/encryption.rs:359-372 | the sending half used end to end is what the context does |
| `Session.NextFrameDecrypts` | crates/bw-protocol/src/encryption.rs:230-291 | the next sealed frame always decrypts, and the two ends stay in step across in-band rotation |
| `Session.SecureRoundTrip` | crates/bw-session/src/secure_conn.rs:352-422 | one secure frame through sealing, serialisation and the wire |
| `Session.MessageRoundTrip` | crates/bw-session/src/wire.rs:217-298 | one message through both layers, leaving both ends in step |
| `Session.ChannelDeliversEveryMessage` | crates/bw-session/src/wire.rs:217-298 | for any rotation policy and as many frames as it has room for, the messages received are exactly the messages sent, in order |
| `SessionObjects.SecureSender.SendFragments` | crates/bw-session/src/secure_conn.rs:365-381 | writes exactly the pieces of the payload to the stream |
| `SessionObjects.SecureSender.SendOneFragment` | crates/bw-session/src/secure_conn.rs:384-403 | writes one frame carrying the fragment and its flags |
| `SessionObjects.SecureReceiver.ReceiveFragments` | crates/bw-session/src/secure_conn.rs:426-455 | the loop returns what the reassembly model returns, failures included |
| `SessionObjects.MessageSender.SendSecureFrame` | crates/bw-session/src/secure_conn.rs:352-363 | encrypts, serialises and sends one frame |
| `SessionObjects.MessageSender.SendFragmented` | crates/bw-session/src/wire.rs:217-255 | sends exactly the frames of the message's pieces |
| `SessionObjects.MessageReceiver.RecvSecure` | crates/bw-session/src/secure_conn.rs:413-422 | receives, deserialises and decrypts one frame |
| `SessionObjects.MessageReceiver.RecvReassembledMessage` | crates/bw-session/src/wire.rs:272-298 | the loop returns what the reassembly model returns, failures included |
| `SessionObjects.Exchange` | crates/bw-session/src/wire.rs:217-298 | through the objects on both sides, what is received equals what was sent |
| `Scheduler.QuantumFinishes` | crates/bw-protocol/src/scheduler.rs:104-146 | with a quantum of at least 1 the loop ends from every state |
| `Scheduler.StuckForever` | crates/bw-protocol/src/scheduler.rs:104-146 | with no quantum, packets waiting and none that can be sent, it never ends |
| `Scheduler.LoopEndsExactly` | crates/bw-protocol/src/scheduler.rs:104-146 | the loop ends if and only if there is a quantum, the streams are empty or one can already send |
| `Scheduler.FreshWithoutQuantum` | crates/bw-protocol/src/scheduler.rs:71-146 | a fresh scheduler without a quantum, given one packet, ends its loop if and only if the packet is empty |
| `Scheduler.LoopTakesAFront` | crates/bw-protocol/src/scheduler.rs:104-146 | it takes the front packet of one stream and nothing else, and none exactly when all are empty |
| `SchedulerObject.DrrScheduler.constructor` | crates/bw-protocol/src/scheduler.rs:71-82 | seven empty queues, no deficits, nothing credited |
| `SchedulerObject.DrrScheduler.EnqueueData` | crates/bw-protocol/src/scheduler.rs:90-94 | appends to one queue, or refuses an unknown stream |
| `SchedulerObject.DrrScheduler.TakeTurn` | crates/bw-protocol/src/scheduler.rs:110-145 | one iteration: credit once a round, serve, or move on |
| `SchedulerObject.DrrScheduler.DequeueNext` | crates/bw-protocol/src/scheduler.rs:104-146 | stream 0 first; otherwise what the loop takes; nothing exactly when all seven queues are empty; only the front of the queue served goes |
| `SchedulerFairness.RunBalances` | crates/bw-protocol/src/scheduler.rs:90-146 | over every run each stream is first in first out with nothing lost, and credits times weight times quantum equal bytes served plus deficit plus credit forfeited |
| `SchedulerFairness.DequeueIsARun` | crates/bw-protocol/src/scheduler.rs:104-146 | a dequeue is a run of such steps |
| `SchedulerFairness.ServedInProportion` | crates/bw-protocol/src/scheduler.rs:104-146 | a stream backlogged over `m` rounds is served within one maximum packet of `m * w * Q` |
| `SchedulerFairness.WeightedFairness` | crates/bw-protocol/src/scheduler.rs:104-146 | two backlogged streams are served in proportion to their weights to within one maximum packet each |
| `SchedulerFairness.FrontPacketLeavesInTime` | crates/bw-protocol/src/scheduler.rs:104-146 | a front packet of length `L` still waiting means at most `max(1, ceil(L / (w * Q)))` further rounds have begun |
| `ForwardingObject.ForwardingTable.AuthorizePair` | crates/bw-relay/src/forwarding.rs:159-197 | a fresh context and its token |
| `ForwardingObject.ForwardingTable.UpdateBinding` | crates/bw-relay/src/forwarding.rs:204-256 | binds a member's address and moves the state on, or the error with the state change it brings |
| `ForwardingObject.ForwardingTable.RecordFailedLookup` | crates/bw-relay/src/forwarding.rs:259-278 | counts a failure after dropping stale entries from a full table |
| `ForwardingObject.ForwardingTable.LookUp` | crates/bw-relay/src/forwarding.rs:307-388 | blocklist, token, state, expiry, cap, idle time, source, bucket, in that order |
| `ForwardingObject.ForwardingTable.CloseSession` | crates/bw-relay/src/forwarding.rs:391-397 | closes that context and no other |
| `ForwardingObject.ForwardingTable.SweepContexts` | crates/bw-relay/src/forwarding.rs:402-443 | the two loops remove exactly the swept contexts with their tokens, and count them |
| `ForwardingRuns.AuthorizeInverse` | crates/bw-relay/src/forwarding.rs:159-197 | tokens and contexts stay mutually inverse if and only if neither is reused for something else |
| `ForwardingRuns.StepKeeps` | crates/bw-relay/src/forwarding.rs:159-443 | authorize, bind, forward, close and sweep keep the table's invariant |
| `ForwardingRuns.EveryRunIsOrderly` | crates/bw-relay/src/forwarding.rs:159-443 | over every run, ids and tokens reused at will: live states match the addresses bound, bucket within capacity, the byte counter is what the session forwarded, forwards before expiry and within 30 s of the activity before |
| `ForwardingRuns.IndexStaysInverse` | crates/bw-relay/src/forwarding.rs:159-443 | over every run that authorizes no intent id and no token twice, index and contexts are mutually inverse |
| `ForwardingRuns.LifecycleExactly` | crates/bw-relay/src/forwarding.rs:159-256 | over every stretch of every run a session only moves on and a removed one stays removed, if and only if no step authorizes its intent again (while it is merely authorized that changes no rank) |
| `ForwardingRuns.LifecycleAdvances` | crates/bw-relay/src/forwarding.rs:159-256 | from end to end of a stretch that does not authorize the intent, terminal stays terminal and removed stays removed |
| `ForwardingRuns.SameSessionExactly` | crates/bw-relay/src/forwarding.rs:159-197 | an intent id stands for the same session at both ends of a stretch if and only if no step in between authorizes it |
| `ForwardingRuns.SweepExactly` | crates/bw-relay/src/forwarding.rs:402-443 | after a sweep exactly the terminal, idle, exchange-timed-out and expired contexts and their tokens are gone and the count is right |
| `ForwardingRuns.ByteCapHolds` | crates/bw-relay/src/forwarding.rs:346-349 | per authorization: no session ever forwards its cap plus one packet in all, also counting after it is removed or replaced |
| `ForwardingRuns.RateLimitHolds` | crates/bw-relay/src/forwarding.rs:367-385 | per authorization: in any stretch of any run within [t1, t2] a session forwards at most `R + R * (t2 - t1) / 1000` bytes |
| `ForwardingRates.PassedExactly` | crates/bw-relay/src/forwarding.rs:307-388 | over every run and for every packet: it is passed on to a destination if and only if its source is not blocked, its token leads to an active session not expired, idle or capped by the record, source and destination are the two addresses bound, and every stretch since the authorization stays within the rate with it |
| `ForwardingRates.BlockedByLookups` | crates/bw-relay/src/forwarding.rs:259-331 | over every run an address is blocked exactly as its own lookups of unknown tokens say |
| `ForwardingRates.SweepLeavesUsable` | crates/bw-relay/src/forwarding.rs:402-443 | over every run a sweep leaves exactly the sessions that would still take a binding, of those not yet active only the ones authorized at most 10 s ago |
| `ForwardingRates.ClosedForGood` | crates/bw-relay/src/forwarding.rs:391-397 | once closed, no packet passes in an intent's session and no address is bound until it is authorized again |
| `IntentReuse.ReusedIntentLeavesAToken` | crates/bw-relay/src/rendezvous.rs:98-116 | an accepted intent id can be registered and accepted again, and its first token is then left behind in the index |
| `IntentReuse.RepeatedExactly` | crates/bw-relay/src/server.rs:305-436 | a request and its acceptance that were taken once are taken again, and start the session over whatever had become of it, if and only if both timestamps are in the window, the registry has room and at most 30 s lie between them |
| `Blocklist.BlockedExactly` | crates/bw-relay/src/forwarding.rs:259-294 | an address is blocked if and only if its own record shows 20 failures in a window begun at most a minute ago; eviction never changes a verdict |
| `Blocklist.OthersDoNotMatter` | crates/bw-relay/src/forwarding.rs:259-294 | failures of other addresses, however many, never change the verdict on an address |
| `RendezvousObject.RendezvousRegistry.RegisterIntent` | crates/bw-relay/src/rendezvous.rs:73-116 | drops stale pending intents, then capacity, duplicate or insertion |
| `RendezvousObject.RendezvousRegistry.AcceptIntent` | crates/bw-relay/src/rendezvous.rs:122-162 | each outcome with exactly its state change, a failing random generator included |
| `RendezvousObject.RendezvousRegistry.GetTargetCandidates` | crates/bw-relay/src/rendezvous.rs:168-191 | candidates and token for the initiator of an accepted intent only |
| `RendezvousObject.RendezvousRegistry.SweepExpired` | crates/bw-relay/src/rendezvous.rs:196-214 | the loop expires exactly the timed-out pending intents and counts them |
| `RendezvousObject.RendezvousRegistry.PendingFor` | crates/bw-relay/src/rendezvous.rs:234-251 | exactly the recent pending intents of a target, each once |
| `Rendezvous.ListedIsAcceptable` | crates/bw-relay/src/rendezvous.rs:73-251 | a listed intent stays acceptable by its target with the same initiator up to age 30 s, across any registrations, sweeps and failed acceptances |
| `Rendezvous.AcceptedOnce` | crates/bw-relay/src/rendezvous.rs:122-191 | each registration is accepted at most once, and afterwards its initiator, and nobody else, is given that acceptance's candidates and token |
| `Rendezvous.RegisteredExactly` | crates/bw-relay/src/rendezvous.rs:73-116 | a registration lacks room if and only if spent and recent intents make up 2048, and is a duplicate if and only if there is room and its own is recent |
| `Rendezvous.FullForEver` | crates/bw-relay/src/rendezvous.rs:73-214 | once 2048 intents are accepted or expired none is ever registered again |
| `Relay.LayoutShared` | crates/bw-relay/src/server.rs:254-545 | two statements have the same signed bytes if and only if they are the same, or a request and an acceptance of one device with the same fields |
| `Relay.EstablishExactly` | crates/bw-relay/src/server.rs:509-564 | an establish request is acknowledged if and only if it passes checks in which its address plays no part, and it then binds that address |
| `Relay.RebindExactly` | crates/bw-relay/src/server.rs:509-564 | an acknowledged request is acknowledged again from another address, and moves the binding, if and only if its timestamp is in the window, at most 30 s went by and the session has not expired |
| `RelayObject.RelayServer.HandleMessageFrom` | crates/bw-relay/src/server.rs:122-210 | dispatches each message, polls included, to its handler |
| `RelayObject.RelayServer.RegisterDevice` | crates/bw-relay/src/server.rs:221-303 | the checks in order, the session number spent, stale clients evicted at capacity |
| `RelayObject.RelayServer.OpenIntent` | crates/bw-relay/src/server.rs:305-370 | the checks in order, then registration of the intent |
| `RelayObject.RelayServer.AcceptOffer` | crates/bw-relay/src/server.rs:372-436 | the checks in order, then acceptance and authorization of the pair |
| `RelayObject.RelayServer.ReleaseCandidates` | crates/bw-relay/src/server.rs:438-464 | candidates for a registered initiator of an accepted intent only |
| `RelayObject.RelayServer.VerifyKeyFor` | crates/bw-relay/src/server.rs:467-477 | the stored key of a registered device |
| `RelayObject.RelayServer.AnswerPoll` | crates/bw-relay/src/server.rs:489-507 | the reply to a poll names exactly the recent pending intents |
| `RelayObject.RelayServer.PollPendingIntents` | crates/bw-relay/src/server.rs:489-507 | a registered device is given exactly its recent pending intents |
| `RelayObject.RelayServer.EstablishRelay` | crates/bw-relay/src/server.rs:509-564 | the checks in order, then binding of the observed address |
| `Consent.StepKeeps` | crates/bw-relay/src/server.rs:122-564 | every message, packet, close and sweep keeps pending intents and contexts backed by arrivals and statements signed before them |
| `Consent.AcceptShakes` | crates/bw-relay/src/server.rs:372-436 | a successful acceptance closes a handshake with whoever opened the intent at most 30 s before, each side having signed the request or the acceptance it stands for |
| `Consent.MutualConsent` | crates/bw-relay/src/server.rs:305-564 | every packet passed between two addresses has behind it the message that registered the intent and, at most 30 s later, the one that accepted it, each vouched for in time by its device, and for either device a signed establish request after that, the address being that of the latest one acknowledged |
| `RelayRecord.GetExactly` | crates/bw-relay/src/server.rs:438-464 | a get request is answered if and only if the id has 16 bytes and the requester is registered and the initiator of the accepted intent |
| `RelayRecord.ReleasedExactly` | crates/bw-relay/src/server.rs:305-464 | over every run candidates and token are released to a registered device if and only if its message registered the intent last and it was accepted since, and they are that acceptance's |
| `RelayRecord.InvitedIsAsked` | crates/bw-relay/src/server.rs:305-370 | whoever registers an intent has vouched for it |
| `RelayRecord.PollExactly` | crates/bw-relay/src/server.rs:489-507 | over every run a poll lists exactly the intents registered for the device less than 30 s ago and not registered again or accepted since |
| `RelayRecord.InvitedExactly` | crates/bw-relay/src/server.rs:305-370 | over every run a proper request registers its intent if and only if there is room and no message registered that id less than 30 s ago without acceptance since |
| `RelayRecord.SweptExactly` | crates/bw-relay/src/rendezvous.rs:196-214 | over every run a sweep leaves accepted intents alone and tells the others apart by whether they were registered more than 30 s ago |
| `RegistryRecord.RegisteredIsLatest` | crates/bw-relay/src/server.rs:221-303 | over every run a device is held as it registered last, and for five minutes at least |
| `RegistryRecord.DiscoverExactly` | crates/bw-relay/src/server.rs:143-146 | a device is online if and only if it is registered: only if its registration is on record, and surely if it is less than five minutes old |
| `RegistryRecord.SessionsDiffer` | crates/bw-relay/src/server.rs:268-303 | session numbers count the registrations that reached the registry, so no two of 2^64 are alike |
| `RegistryRecord.TurnedAwayExactly` | crates/bw-relay/src/server.rs:221-303 | a proper registration is turned away if and only if 1024 devices registered in the last five minutes |
| `SignedConsent.FacingStory` | crates/bw-relay/src/server.rs:305-564 | any two requests or acceptances that name each other under one intent at close times carry a packet in some run, with no other ever signed |
| `SignedConsent.MutualExactly` | crates/bw-relay/src/server.rs:345-410 | every packet in every run has a request of one end and an acceptance of the other behind it, if and only if statements that face each other are always one of each |
| `SignedConsent.AsMeantExactly` | crates/bw-relay/src/server.rs:345-410 | and the request is the initiator's, if and only if of statements that face each other the one that can open is a request and the one that can close an acceptance |
| `SignedConsent.AsMeantIsTenMinutesLate` | crates/bw-relay/src/server.rs:345-410 | where that holds, every acceptance that can close a handshake is stamped more than ten minutes after the request that opens it |
| `SignedConsent.OnePairExactly` | crates/bw-relay/src/server.rs:345-410 | one request and its acceptance alone: always mutual, and as meant if and only if their timestamps are too far apart for a handshake the other way round |
| `Pipeline.DetectIdr` | crates/bw-encoder/src/h264.rs:107-124 | the scan reports whether an IDR start code occurs |
| `Pipeline.IdrFoundExactly` | crates/bw-encoder/src/h264.rs:107-124 | on any list of well-formed units, behind four-byte or three-byte start codes, it reports an IDR if and only if one of them is one |
| `Pipeline.BareShortTailIsMissed` | crates/bw-encoder/src/h264.rs:109-117 | a bare IDR header behind a three-byte start code at the very end is not reported |
| `Pipeline.IdrExactly` | crates/bw-encoder/src/h264.rs:67-82 | an encoded picture is an IDR if and only if the newest frame is a refresh, the encoder is started for it, fresh or forced, its interval is up, or it makes one of its own accord |
| `Pipeline.DrainedRefreshIsForgotten` | crates/bw-encoder/src/pipeline.rs:34-43 | a refresh behind which another frame was waiting changes nothing |
| `Pipeline.EncodedExactly` | crates/bw-encoder/src/h264.rs:52-106 | a turn encodes its newest frame if and only if there are four bytes a pixel, every access is in bounds, the plane offsets fit 32 bits, and the library starts where needed and encodes |
| `Pipeline.DrawableExactly` | crates/bw-encoder/src/h264.rs:52-106 | for even sides that depends on the number of bytes alone; odd sides with four bytes a pixel and no more never pass |
| `Pipeline.DeliveredExactly` | crates/bw-encoder/src/pipeline.rs:31-63 | over every run the delivered frames are, in order, one for each such turn whose channel took it, with that frame's timestamp and size, marked as an IDR if and only if one was due or made of the library's own accord |
| `Pipeline.TurnKeeps` | crates/bw-encoder/src/pipeline.rs:31-63 | one turn of the loop keeps encoder and delivered frames in step |
| `Pipeline.DeliveredIsPlayable` | crates/bw-encoder/src/pipeline.rs:31-63 | delivered frames are numbered 0, 1, 2, ..., marked as what they are, and each delta frame is predicted from the frame delivered before it; delta runs never exceed the keyframe interval |
| `PipelineObjects.OpenH264Backend.Start` | crates/bw-encoder/src/h264.rs:32-50 | a fresh encoder of the new size, or no change |
| `PipelineObjects.OpenH264Backend.EncodeFrame` | crates/bw-encoder/src/h264.rs:52-148 | restart on a new size, forced IDR when the interval is up, bookkeeping by what the payload holds, and the state each failure leaves, the panic of the conversion or of the plane offsets included |
| `PipelineObjects.OpenH264Backend.ForceIntra` | crates/bw-encoder/src/h264.rs:150-155 | the next picture of a running encoder is an IDR |
| `PipelineObjects.Drain` | crates/bw-encoder/src/pipeline.rs:34-36 | the newest waiting frame |
| `PipelineObjects.RunPipeline` | crates/bw-encoder/src/pipeline.rs:31-65 | the loop delivers what the turns deliver and stops the backend, unless the conversion panicked |
| `PipelineObjects.RunPlayable` | crates/bw-encoder/src/pipeline.rs:31-63 | what the loop puts into the channel is playable |
| `ColorConvert.NeverWraps` | crates/bw-encoder/src/h264.rs:208-223 | luma and chroma of bytes are bytes, so no narrowing wraps |
| `ColorConvert.GreyIsNeutral` | crates/bw-encoder/src/h264.rs:208-223 | a grey keeps its brightness and has neutral chroma |
| `ColorConvert.FollowsBt601` | crates/bw-encoder/src/h264.rs:208-223 | the integer formulas stay within a step of the full-range BT.601 matrix |
| `ColorConvert.PixelFollowsBt601` | crates/bw-encoder/src/h264.rs:191-211 | a pixel's luma is that of its blue, green and red bytes |
| `ColorConvert.BlockFollowsBt601` | crates/bw-encoder/src/h264.rs:213-223 | a block's chroma is that of the mean of its four pixels |
| `ColorConvert.BlockTopAt` | crates/bw-encoder/src/h264.rs:180-189 | chroma cells, counted row by row, belong to the 2x2 blocks at even rows and columns |
| `ColorConvert.BlockValues` | crates/bw-encoder/src/h264.rs:187-223 | the six values of a block are its pixels' luma and its averaged chroma |
| `ColorConvert.InBoundsExactly` | crates/bw-encoder/src/h264.rs:180-228 | for any sides no access is out of bounds if and only if those of the last block are not |
| `ColorConvert.TouchedExactly` | crates/bw-encoder/src/h264.rs:187-228 | a block is in bounds if and only if blue, green and red of its four pixels are read, and its four luma and two chroma values written, inside their buffers |
| `ColorConvert.ExactBufferInBounds` | crates/bw-encoder/src/h264.rs:180-228 | with four bytes a pixel that is so if and only if both sides are even or there are no pixels |
| `ColorConvert.BgraToYuv420p` | crates/bw-encoder/src/h264.rs:169-231 | for even sides every access is in bounds, every cell is written exactly once, and holds its pixel's luma or its block's chroma |

## Left out

- SlotPool: memory orderings and the metric counters of concurrent calls are not modelled; steps are sequentially consistent. The other allocator, `bw-core/src/memory.rs`, which claims slots by scanning an array of flags, is not modelled.
- SlotPool.EveryRunIsSound: holds for exchanges fewer than 65536 head updates after their load, which is the exact bound.
- SlotPoolWrap.SlotHandedOutTwice: shows the index handed out twice; that the second thread then waits on the slot's mutex is not modelled.
- ReliableLink: sequence numbers that wrap at 64 bits; a link carries fewer than 2^64 payloads.
- Codec.QuicRecvAdapter.ReadExact: a read that fails because the connection broke is not told apart from a stream that ended early.
- Codec.QuicRecvAdapter.ReceiveFrame: likewise has no outcome of its own for a broken connection.
- Scheduler: round and deficit counters are unbounded, so their overflow is not modelled; the "never credited" mark is -1.
- SecureChannel: the epoch and counter limits are hypotheses of the steps (32 and 64 bits).
- Session.ChannelDeliversEveryMessage: one direction, without manual rotation. Rotation in both directions at once is not stated.
- Session: the CBOR serialiser is any encoder that can be read back and adds a bounded number of bytes.
- EncryptionObjects.EncryptionContext.EncryptFrame: tag verification without decryption is not modelled.
- ForwardingRuns: assumes a clock that never goes back.
- ForwardingRuns.IndexStaysInverse: assumes that no intent id and no token is authorized twice; `AuthorizeInverse` is the exact condition for one authorization.
- ForwardingRuns.SweepExactly: says which tokens go only for an index that is inverse to the contexts.
- ForwardingRuns.RateLimitHolds: exact arithmetic in thousandths of a byte; floating-point rounding of the bucket is not modelled.
- ForwardingRates.PassedExactly: likewise; that a token leads to a session, and which addresses are bound, is read from the table.
- Relay: lock poisoning and two handlers interleaving between the peek and the acceptance; each message is handled as one step. The order of a poll's answer is not modelled.
- Relay dev mode, which authorizes pairs from the command line, and the test hook that sets the byte counter.
- Blocklist: no bound on the number of entries is claimed, because eviction may free nothing; likewise registration at capacity.
- Pipeline: the codec library is idealised as described above; 32-bit overflow of the frame counter is not modelled.
- ColorConvert.BgraToYuv420p: states the contents for even sides and products of the sides below 2^32; for other sides only whether the conversion stays in bounds.
- QUIC, ICE, UDP, TLS, capture, input injection, audio, the client window, OPAQUE and device-identity text forms.
- The dispatcher's table of handlers, the checks on routing headers, the map of sessions and the masking of capabilities in the handshake.
