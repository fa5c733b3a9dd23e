# DMP client verification

A Dafny model of the parts of the DMP (DNS mesh protocol) client that carry its
guarantees: who is trusted after a key rotation, what a receive call does to the
client's stores, what survives a send that stops half way, how resolvers fail
over, and what the record formats mean. Each part is modelled in the form the
Rust code has (classes for objects with state, loops where the code loops,
functions where it computes), and the methods are proved against functions whose
properties are then proved for all inputs, all runs or all interleavings.

## How the model is laid out

- `RotationGraph`, `RotationChain`, `Custody`: the walk from a pinned key along
  published rotations. The graph module has the declarative meaning (a chain) and
  the theorems, the next one the fetching, partitioning and hop loops, and the last
  says what the answers mean in terms of the TXT strings DNS serves.
- `ReplayCache`, `Prekeys`, `PrekeyPool`, `IntroQueue`, `IntroReview`: the local
  stores, the agreement of the prekey store with what DNS serves, and intro
  review by concurrent callers.
- `MemoryDns`, `DnsReader`: DNS as a table with lifetimes, and as one call sees
  it.
- `Delivery`, `Client`: both receive paths. `Delivery` says what each record does
  to the stores; `Client` has the loops and is proved to do just that. `Admission`
  says who may write to the inbox, in terms of contacts, denylist and DNS, and
  `Walks` what the two paths come across.
- `DeliverySteps`, `DeliveryRuns`, `PrekeySecrets`, `ClientRuns`: conservation over one
  call; at-most-once, one-time prekeys and pool agreement over whole runs, whose
  steps are what the client's methods do.
- `Send`, `Labels`, `EndToEnd`, `Traffic`, `SendCut`, `SendAmongOthers`, `Journey`: the
  send path, the sender address a message claims and shows, when a message decrypts,
  how often a message among any other traffic is surfaced, sends that are cut at any
  write, and the whole way from the sender's plaintext to the receiver's, with a run
  of the receiving client in between.
- `ResolverPool`: failover and the oracle rule.
- `Bootstrap`, `DnsName`: the bootstrap record, its validation in place and its
  byte format.
- `Message`, `Envelope`, `SlotManifest`, `Json`, `TextCodec`, `Addressing`,
  `Text`: frames, envelopes, manifests and names.
- `Library`: the cryptographic and coding primitives as a record of functions,
  with the laws that are assumed of them (signatures verify, decryption inverts
  encryption under equal key and associated data and fails otherwise, base64 and
  the chunk code invert, any k of n blocks decode, JSON objects read back).
  `ToyLibrary`, `Witness`, `ClaimWitness` and `ContactWitness` show that these laws, and the
  hypotheses of the delivery theorems, can be met.

Bytes are written as characters below 256, so that string literals are byte
literals. The clock is a parameter; a receive call uses one instant, and every DNS
write of a sending or refreshing client has an instant of its own.

Five things in the code deserve to be known, and are theorems here:

- The replay guarantee ends at the expiry second itself, when a manifest still
  counts as live and its replay row is already purged (`RedeliveredIff`,
  `TwiceAtExpiry`; `TwiceAtExpiryHappens` has an instance).
- A call does not always return what it records as seen: if a DNS read fails at a
  record after messages for the inbox had been taken in, and only then, the call
  discards them (`ReturnsAllIff`), and no call before their expiry returns them
  (`DiscardedStaysDiscarded`; `DiscardHappens` has an instance).
- The prekey id allocator can hand out 0, which on the wire means "no prekey";
  a message sealed for such a prekey does not open (`ZeroCanBeAllocated`,
  `ZeroPrekeyHeldIff`).
- At a prekey's expiry second a sender still picks it and the receiver's store no
  longer gives it out, so that a message sent then does not open
  (`PickedPrekeyIsHeldIff`).
- Purging on every call is unobservable while the clock does not go back. When it
  does, a pair is forgotten exactly if some reading since its recording had reached
  its expiry (`AnswersAfterRecordIff`, `RunsAgreeIff`).

Where comments and code disagree, the model follows the code:

- `check_and_record` is documented as a combined operation; it takes its lock
  twice, and two callers can both be told that a pair is fresh: exactly if the
  second to check does so before the first has recorded, or when the expiry
  recorded has come (`BothFreshIff`).
- In `send_message` the outer header's `total_chunks: 1` is commented as
  overwritten, but the frame is serialised before the field is assigned, so the
  frame on the wire carries 1.

## Model

| member | source | states |
|---|---|---|
| RotationGraph.ResolveIffChain | crates/dnsmesh-client/src/rotation_chain.rs:125-210 | the walk answers h exactly when some chain of one to four hops leads from the pinned key to h: every key but the last has successors that all agree, least sequence numbers rise strictly, keys are distinct, none is revoked, h has no successor |
| RotationGraph.ChainUnique | crates/dnsmesh-client/src/rotation_chain.rs:125-210 | at most one chain leaves a pinned key |
| RotationGraph.VisitedSetRedundant | crates/dnsmesh-client/src/rotation_chain.rs:149-209 | for every input the walk without the cycle check gives the same answer |
| RotationGraph.ReentryFails | crates/dnsmesh-client/src/rotation_chain.rs:147-209 | coming back to an earlier key always ends the walk without an answer |
| RotationGraph.GrowthNeverDiverts | crates/dnsmesh-client/src/rotation_chain.rs:139-209 | more records can only extend the chain an answer was based on, never lead elsewhere |
| RotationGraph.RevocationOnlyWithdraws | crates/dnsmesh-client/src/rotation_chain.rs:139-209 | more revocations withdraw an answer exactly when they hit a key of its chain, and change nothing otherwise |
| RotationChain.FetchRecords | crates/dnsmesh-client/src/rotation_chain.rs:272-293 | the fail-open fetch collects every readable TXT string once |
| RotationChain.FetchRecordsStrict | crates/dnsmesh-client/src/rotation_chain.rs:302-322 | the fail-closed fetch fails exactly when some name cannot be read, and else collects everything |
| RotationChain.Partition | crates/dnsmesh-client/src/rotation_chain.rs:324-351 | the verified rotations and revocations of the subject in two lists, all fields, in the order of the records, and the graph they amount to; `GraphIsPublished` says what that graph is |
| RotationChain.GraphIsPublished | crates/dnsmesh-client/src/rotation_chain.rs:324-351 | of what DNS serves at the subject's names, the edges are exactly the (old, new, seq) of strings with the rotation prefix that verify for the subject and type, the marked keys exactly those of strings with the revocation prefix that do |
| RotationChain.NamesIff | crates/dnsmesh-client/src/rotation_chain.rs:243-270 | the names of a subject: for user@host, neither empty, one of the zone and one with the hash of the user; for any other subject or type none |
| Custody.ResolveIffCustody | crates/dnsmesh-client/src/rotation_chain.rs:125-210 | in terms of the TXT strings: a pinned key resolves to h exactly if two to five different keys lead from it to h, none with a published revocation, every published rotation of each but the last going to the next, least sequence numbers rising, and no published rotation of h |
| Custody.RevokedLeadsNowhere | crates/dnsmesh-client/src/rotation_chain.rs:143-165 | a key of which a verified revocation is served resolves to nothing, and nothing resolves to it |
| RotationChain.PickCandidate | crates/dnsmesh-client/src/rotation_chain.rs:165-179 | no candidate exactly when the records fork, otherwise the one with the least sequence number |
| RotationChain.WalkRecords | crates/dnsmesh-client/src/rotation_chain.rs:139-209 | the hop loop over record lists computes the graph walk |
| RotationChain.ResolveCurrentSpk | crates/dnsmesh-client/src/rotation_chain.rs:125-210 | fetch, partition and walk together answer what the published records of both names amount to |
| RotationChain.ResolveIgnoresArrangement | crates/dnsmesh-client/src/rotation_chain.rs:125-209 | order, repetition and distribution of the TXT strings over the names do not matter |
| RotationChain.ResolveIgnoresOtherFields | crates/dnsmesh-client/src/rotation_chain.rs:143-209 | only (old, new, seq) triples and revoked keys matter |
| RotationChain.PartialViewNeverDiverts | crates/dnsmesh-client/src/rotation_chain.rs:272-293 | what a partial DNS view trusts lies on the chain that the full view follows |
| RotationChain.RotationManifestAccepted | crates/dnsmesh-client/src/rotation_chain.rs:70-96 | true exactly when some contact with a name and a domain has rotated to the key |
| RotationChain.IsSpkRevoked | crates/dnsmesh-client/src/rotation_chain.rs:225-241 | an error exactly if some name of the subject cannot be read; otherwise true exactly if one of them serves a verified revocation of the key |
| RotationChain.RotationManifestRevoked | crates/dnsmesh-client/src/rotation_chain.rs:104-119 | the first contact in order whose read fails or who revoked the key decides |
| RotationChain.RevocationCheckFailsClosed | crates/dnsmesh-client/src/rotation_chain.rs:104-119 | a key passes exactly when every name of every contact was read and none carries a revocation of it |
| Admission.VerdictIff | crates/dnsmesh-client/src/receive.rs:161-202 | the four verdicts, in terms of contacts, denylist and DNS: inbox exactly if the sender is known (no contacts, a contact's key, or, with the chain on, a chain of custody from a contact's key) and, for a contact's key with the chain on, every contact was readable and none has revoked it; queue exactly if not known and not denied; a failed read exactly if the check ends at an unreadable contact; dropped otherwise |
| ReplayCache.ReplayCache.PurgeLocked | crates/dnsmesh-storage/src/replay_cache.rs:152-158 | drops exactly the rows whose expiry has come and counts them |
| ReplayCache.ReplayCache.HasSeen | crates/dnsmesh-storage/src/replay_cache.rs:68-81 | whether the purged table has the pair; while the clock does not go back, true exactly when the last recording of the pair carried a later expiry |
| ReplayCache.ReplayCache.Record | crates/dnsmesh-storage/src/replay_cache.rs:89-106 | purges and upserts with the given or default expiry, under any clock |
| ReplayCache.ReplayCache.CheckAndRecord | crates/dnsmesh-storage/src/replay_cache.rs:116-127 | fresh exactly when the table purged at the check lacks the pair; recorded, at the later lock, exactly when fresh; while the clock does not go back, fresh means not remembered |
| ReplayCache.ReplayCache.Size | crates/dnsmesh-storage/src/replay_cache.rs:140-150 | counts the rows left by the purge, which while the clock does not go back are exactly the remembered pairs |
| ReplayCache.PurgeRefines | crates/dnsmesh-storage/src/replay_cache.rs:152-158 | after a purge the table holds exactly what the never-purging journal remembers |
| ReplayCache.StepRefines | crates/dnsmesh-storage/src/replay_cache.rs:68-158 | every operation on the purged table replies like the journal and keeps the refinement |
| ReplayCache.PurgingUnobservable | crates/dnsmesh-storage/src/replay_cache.rs:68-158 | along every run under a clock that never goes back, the purged table replies like the map that forgets nothing |
| ReplayCache.AnswersAfterRecordIff | crates/dnsmesh-storage/src/replay_cache.rs:68-158 | with any clock and from any table: after a recording and operations that do not record the pair again, a look-up answers like the map that forgets nothing exactly if the pair counts as expired by then or no clock reading in between had reached its expiry |
| ReplayCache.RemembersUnlessForgotten | crates/dnsmesh-storage/src/replay_cache.rs:152-158 | after any run under any clock, the purged table holds what the map remembers except exactly the pairs that an earlier reading had outlived |
| ReplayCache.RunsAgreeIff | crates/dnsmesh-storage/src/replay_cache.rs:68-158 | a whole run under any clock gets the replies of the map that forgets nothing exactly if no look-up and no count meets such a pair |
| ReplayCache.ClockMustNotGoBack | crates/dnsmesh-storage/src/replay_cache.rs:152-158 | an instance: a pair recorded up to second 20, a purge at second 30, a look-up at second 10 |
| ReplayCache.BothFreshIff | crates/dnsmesh-storage/src/replay_cache.rs:116-127 | two calls about one pair, in every order of their four locked sections, at any times, over any table: both report fresh exactly if the first check found no live row and the second check came before the first recording, or when the expiry recorded had come |
| ReplayCache.CheckAndRecordRaces | crates/dnsmesh-storage/src/replay_cache.rs:116-127 | an instance: both check before either records |
| Prekeys.PrekeyStore.GeneratePool | crates/dnsmesh-storage/src/prekeys.rs:106-157 | all or nothing: new rows under drawn ids that were free and distinct, the i-th with the i-th secret drawn and its public half, the promised expiry; failure only after sixteen taken draws in a row |
| Prekeys.AllocatePrekeyId | crates/dnsmesh-storage/src/prekeys.rs:305-324 | the first free id among sixteen draws |
| Prekeys.PrekeyStore.GetPrivateKey | crates/dnsmesh-storage/src/prekeys.rs:193-221 | the row for the id unless absent or expired |
| Prekeys.PrekeyStore.GetWire | crates/dnsmesh-storage/src/prekeys.rs:175-185 | the recorded TXT string, an empty one counting as none |
| Prekeys.PrekeyStore.RecordWire | crates/dnsmesh-storage/src/prekeys.rs:164-171 | sets the TXT string of one row and changes nothing else |
| Prekeys.PrekeyStore.Consume | crates/dnsmesh-storage/src/prekeys.rs:237-255 | the id is gone, every other row stays, and whether it was there |
| Prekeys.PrekeyStore.CleanupExpired | crates/dnsmesh-storage/src/prekeys.rs:270-278 | exactly the unexpired rows stay |
| Prekeys.InsertedRows | crates/dnsmesh-storage/src/prekeys.rs:106-157 | a pool of distinct ids adds exactly its rows and leaves others alone |
| Prekeys.ZeroCanBeAllocated | crates/dnsmesh-storage/src/prekeys.rs:305-324 | the allocator does not exclude the id that means "no prekey" |
| PrekeyPool.PrekeyPublisher.RefreshPrekeys | crates/dnsmesh-client/src/publish.rs:54-85 | whatever the writer does and answers, every prekey on offer has its private half; full agreement is kept exactly if no write of an unexpired prekey took effect while the client was told otherwise; returns the number accepted |
| PrekeyPool.PrekeyPublisher.PublishPool | crates/dnsmesh-client/src/publish.rs:69-84 | publishes and remembers each accepted prekey, skips declined ones, ends at an error; a declined write or an error may have taken effect |
| PrekeyPool.PrekeyPublisher.ConsumePrekeyWithDns | crates/dnsmesh-client/src/receive.rs:285-342 | the row always goes, the TXT string goes if the writer works |
| PrekeyPool.ServedPrekeysDecrypt | crates/dnsmesh-client/src/publish.rs:54-85 | every unexpired own prekey that DNS serves has its private half in the store |
| PrekeyPool.PublishAgreesIff | crates/dnsmesh-client/src/publish.rs:69-84 | publishing any part of the pool keeps agreement exactly if no write that was made took effect unannounced for an unexpired prekey |
| PrekeyPool.PublishOpenable | crates/dnsmesh-client/src/publish.rs:69-84 | and in any case whatever is on offer can be opened |
| PrekeyPool.PublishCounts | crates/dnsmesh-client/src/publish.rs:69-84 | the number returned is that of the accepted writes, and the loop ends early exactly at an error |
| PrekeyPool.PublishServes | crates/dnsmesh-client/src/publish.rs:69-84 | each prekey whose write landed is served for its lifetime from the second of its write, and its TXT string is in its row exactly if the write was accepted |
| PrekeyPool.PublishPuts | crates/dnsmesh-client/src/publish.rs:69-84 | afterwards DNS lists what it listed before and the prekeys whose writes landed, and nothing else |
| PrekeyPool.InsertAgrees | crates/dnsmesh-client/src/publish.rs:54-62 | inserting a new pool keeps agreement |
| PrekeyPool.ConsumeRemovesOnlyItsOwn | crates/dnsmesh-client/src/receive.rs:285-342 | consuming one prekey removes its own TXT string and no other record |
| PrekeyPool.ConsumeAgrees | crates/dnsmesh-client/src/receive.rs:285-342 | consuming with a working delete keeps agreement |
| PrekeyPool.FailedDeleteDangles | crates/dnsmesh-client/src/receive.rs:305-341 | with a failed delete, agreement survives exactly if the prekey was not on offer |
| PrekeyPool.CleanupAgrees | crates/dnsmesh-storage/src/prekeys.rs:270-278 | cleanup keeps agreement |
| IntroQueue.IntroQueue.Enqueue | crates/dnsmesh-storage/src/intro_queue.rs:101-130 | a new row unless the sender is denied or the pair is pending |
| IntroQueue.IntroQueue.BlockSender | crates/dnsmesh-storage/src/intro_queue.rs:134-145 | the sender is on the denylist with the new note |
| IntroQueue.IntroQueue.UnblockSender | crates/dnsmesh-storage/src/intro_queue.rs:149-156 | the sender is off the denylist, and whether it was on it |
| IntroQueue.IntroQueue.Take | crates/dnsmesh-storage/src/intro_queue.rs:223-238 | reads and deletes one row in one step |
| IntroQueue.IntroQueue.Reject | crates/dnsmesh-storage/src/intro_queue.rs:212-214 | deletes one row and says whether it was there |
| IntroQueue.IntroQueue.CleanupExpired | crates/dnsmesh-storage/src/intro_queue.rs:242-250 | exactly the unexpired rows stay |
| IntroQueue.EnqueueKeepsPairsDistinct | crates/dnsmesh-storage/src/intro_queue.rs:101-130 | pending pairs stay distinct and grow by the new pair exactly when a row is made |
| IntroReview.ReviewIsSafe | crates/dnsmesh-client/src/intro.rs:56-128 | over any interleaving of review steps each row is surfaced at most once, trust surfaces only messages of the key it pinned, pending pairs are distinct |
| IntroReview.DeniedSenderStaysOut | crates/dnsmesh-client/src/intro.rs:122-128 | no new row of a denied sender until it is unblocked |
| IntroReview.BlockTakesHold | crates/dnsmesh-client/src/intro.rs:122-128 | a completed block leaves sender denied and row gone, whatever ran in between |
| IntroReview.TrustStoresContact | crates/dnsmesh-client/src/intro.rs:75-110 | over any interleaving, the contact of every trust call that has pinned, and of every message surfaced by one, had been stored under its name |
| IntroReview.Intros.AcceptIntro | crates/dnsmesh-client/src/intro.rs:56-62 | hands out the row and removes it |
| IntroReview.Intros.TrustIntro | crates/dnsmesh-client/src/intro.rs:75-110 | the uninterrupted call is the run of its four steps; it fails exactly on a key mismatch or unresolved address, and otherwise, if the row is there, stores the identity under its name, hands the row out and removes it |
| IntroReview.Intros.BlockIntro | crates/dnsmesh-client/src/intro.rs:122-128 | the uninterrupted call is the run of its three steps; if the row is there it is gone and its sender denied |
| MemoryDns.InMemoryDnsStore.PublishTxtRecord | crates/dnsmesh-net/src/memory.rs:61-86 | upsert of one value with its lifetime |
| MemoryDns.InMemoryDnsStore.DeleteTxtRecord | crates/dnsmesh-net/src/memory.rs:88-108 | removal of one value or of the whole name, and whether anything went |
| MemoryDns.InMemoryDnsStore.QueryTxtRecord | crates/dnsmesh-net/src/memory.rs:113-129 | the live values at a name, none at all reading as no record |
| MemoryDns.PublishMeaning | crates/dnsmesh-net/src/memory.rs:61-86 | publishing sets one value's lifetime and disturbs no other record |
| MemoryDns.DeleteMeaning | crates/dnsmesh-net/src/memory.rs:88-108 | deleting one value removes that value and nothing else |
| MemoryDns.DeleteAllMeaning | crates/dnsmesh-net/src/memory.rs:88-108 | deleting without a value removes every record at that name and no other |
| MemoryDns.LookupMeaning | crates/dnsmesh-net/src/memory.rs:113-129 | a lookup serves exactly the values whose time has not come |
| MemoryDns.LiveInOrder | crates/dnsmesh-net/src/memory.rs:113-129 | live values are listed in the order in which they are stored |
| Delivery.OpenedIsBound | crates/dnsmesh-client/src/receive.rs:401-452 | reading of `Opened`: a frame opens exactly when it names the manifest's message and recipient, is not expired, and decrypts under the rebuilt associated data |
| Delivery.DecodedIsTheManifests | crates/dnsmesh-client/src/receive.rs:401-473 | reading of `Decoded`: what is surfaced carries the manifest's sender and message id, and its prekey was usable |
| Delivery.BlockIff | crates/dnsmesh-client/src/receive.rs:79-82 | a chunk record is the prefix and the base64 of a block that unwraps |
| Delivery.LabelIsVouched | crates/dnsmesh-client/src/contacts.rs:145-162 | the label is the claimed address in canonical form exactly if DNS has, at the address's own name, an identity record of its user with the signing key, and none otherwise |
| Delivery.LocatedMatches | crates/dnsmesh-client/src/claim.rs:349-379 | the manifest found is for the announced pair and this recipient, and not expired |
| Delivery.AnnouncesIff | crates/dnsmesh-client/src/receive.rs:148-160 | a record announces a pair exactly if it is a live manifest for this account that its sender signed, or a claim for its slot, not expired and at most 60 seconds ahead |
| Delivery.LocateByClaim | crates/dnsmesh-client/src/claim.rs:349-379 | a claim leads to the first manifest for its pair in the slot it points to, if that is live; the lookup fails exactly if that slot cannot be read |
| Delivery.ZonesCover | crates/dnsmesh-client/src/receive.rs:124-137 | the walk covers our own zone and every zone a contact names, each once |
| Delivery.ProcessAppends | crates/dnsmesh-client/src/receive.rs:142-272 | a call is the sequence of its records up to a failed read |
| Client.Client.FetchAndDecrypt | crates/dnsmesh-client/src/receive.rs:358-474 | the chunk loop, reassembly and decryption compute exactly the specified message |
| Client.Client.CheckSender | crates/dnsmesh-client/src/receive.rs:161-202 | the verdict on a sender is the one that `Admission.VerdictIff` describes; its contract has the conditions for inbox, queue and failed read |
| Client.Client.Accept | crates/dnsmesh-client/src/receive.rs:225-267 | record, consume and route leave exactly the specified stores |
| Client.Client.ZonesToPoll | crates/dnsmesh-client/src/receive.rs:124-137 | the zone list with its deduplication |
| Client.Client.ReceiveMessages | crates/dnsmesh-client/src/receive.rs:105-273 | the nested loops over zones, slots and records process exactly the mailbox items and return exactly the inbox messages |
| Client.Client.ReceiveViaClaim | crates/dnsmesh-client/src/claim.rs:237-343 | the loops over claim slots and records process exactly the provider's items |
| Walks.MailboxItemsAre | crates/dnsmesh-client/src/receive.rs:138-147 | a mailbox walk comes across exactly the records served at the ten slot names of the walked zones, and their failed reads |
| Walks.SlotsInOrder | crates/dnsmesh-client/src/receive.rs:138-147 | slots 0 to 9 in this order, on either path |
| Walks.ZonesInOrder | crates/dnsmesh-client/src/receive.rs:138-147 | zones one after the other |
| DeliverySteps.UnsurfacedLeavesNoTrace | crates/dnsmesh-client/src/receive.rs:148-224 | a record that is skipped leaves replay cache, prekeys and queue observably unchanged |
| DeliverySteps.LaterPassUnaffected | crates/dnsmesh-client/src/receive.rs:216-224 | a later pass treats every record as it would have without the skipped ones |
| DeliverySteps.SurfacesIff | crates/dnsmesh-client/src/receive.rs:142-272 | a record is surfaced exactly if it announces a pair that is not remembered, of a sender that is let in, and leads to a manifest whose message decrypts |
| DeliverySteps.SurfacedAccounted | crates/dnsmesh-client/src/receive.rs:216-267 | a surfaced record was not remembered, is recorded with its expiry, consumed its prekey, and went where its sender's standing sends it |
| DeliverySteps.Conservation | crates/dnsmesh-client/src/receive.rs:105-273 | newly remembered pairs are exactly the pairs of decrypted messages, which are exactly inbox messages, new intro rows and pairs already pending; inbox senders are trusted and not revoked |
| DeliverySteps.ProcessRemembers | crates/dnsmesh-client/src/receive.rs:216-229 | no call before its expiry surfaces a recorded pair again |
| DeliverySteps.AbortsIff | crates/dnsmesh-client/src/receive.rs:142-224 | a record ends the call exactly if its name cannot be read, or the revocation check on its sender cannot be made, or it is new, its sender is let in, and the slot behind its claim cannot be read |
| DeliverySteps.CallAbortsIff | crates/dnsmesh-client/src/receive.rs:142-273 | a call fails exactly if it comes to such a record |
| DeliverySteps.ReturnsAllIff | crates/dnsmesh-client/src/receive.rs:142-273 | every inbox message that a call records as seen is returned, except exactly if a read fails at a record after messages for the inbox had been taken in |
| DeliveryRuns.AtMostOnce | crates/dnsmesh-client/src/receive.rs:216-229 | along every run of steps a pair is not surfaced again before the expiry it was recorded with |
| DeliveryRuns.OneTimePrekeys | crates/dnsmesh-storage/src/prekeys.rs:237-255 | no two messages of a run are decrypted with the same generated prekey |
| PrekeySecrets.SecretsOpenOnce | crates/dnsmesh-storage/src/prekeys.rs:237-255 | if generated secrets differ from each other and from the stored ones: along every run no secret opens two messages, and once one has opened a message no row of any later state holds it |
| PrekeySecrets.CallsOpenOnce | crates/dnsmesh-client/src/receive.rs:230-241 | the same over runs of whole calls of both receive paths |
| PrekeySecrets.OpenerOpened | crates/dnsmesh-client/src/receive.rs:438-452 | the secret recorded with a message is the one under which its payload opened; without one it was the long-term secret |
| DeliveryRuns.GoneUntilGenerated | crates/dnsmesh-storage/src/prekeys.rs:193-255 | a consumed id decrypts nothing until a new pool brings it back |
| DeliveryRuns.SurfacedConsumes | crates/dnsmesh-client/src/receive.rs:230-241 | surfacing a message removes the prekey that opened it and no other row |
| DeliveryRuns.PoolAgreesAlongRuns | crates/dnsmesh-client/src/publish.rs:54-85 | while deletes succeed and no publication takes effect unannounced, agreement holds along every run |
| DeliveryRuns.NextAgrees | crates/dnsmesh-client/src/publish.rs:54-85 | one step with working deletes keeps agreement exactly if it hides no publication |
| DeliveryRuns.CallsAreSteps | crates/dnsmesh-client/src/claim.rs:254-342 | runs of whole calls of both paths are runs of their steps |
| ClientRuns.Receive | crates/dnsmesh-client/src/receive.rs:142-272 | one record of a receive call is one step of the run machine, and what it adds to the result is that step's inbox message |
| ClientRuns.Refresh | crates/dnsmesh-client/src/publish.rs:54-85 | a refresh is one legal step of the run machine, with the secrets drawn, or leaves everything as it was |
| ClientRuns.Cleanup | crates/dnsmesh-storage/src/prekeys.rs:270-278 | cleaning up the three stores is one step of the run machine |
| DeliveryRuns.CallsDeliverAtMostOnce | crates/dnsmesh-client/src/receive.rs:105-273 | at most once and one-time prekeys over any interleaving of both receive paths |
| DeliveryRuns.RedeliveredIff | crates/dnsmesh-core/src/manifest.rs:234-241 | a record of either path that leads to a message that still decrypts is surfaced again exactly from the recorded expiry on, which for an unchanged manifest is that second |
| DeliveryRuns.TwiceAtExpiry | crates/dnsmesh-storage/src/replay_cache.rs:152-158 | at that second one call returns a manifest listed twice two times |
| DeliveryRuns.DiscardedStaysDiscarded | crates/dnsmesh-client/src/receive.rs:142-147 | an inbox message taken in by a call that then failed is returned by no later call before its expiry, whatever the client does in between |
| DeliveryRuns.FirstThenFail | crates/dnsmesh-client/src/receive.rs:142-147 | an instance: one message that is surfaced, then a name that cannot be read: the call fails and has recorded the message |
| Send.ReceiverRebuildsAad | crates/dnsmesh-client/src/send.rs:48-70 | the associated data rebuilt from the parsed frame are the sender's bytes |
| Send.AadDeterminesFields | crates/dnsmesh-client/src/receive.rs:428-432 | equal associated data mean equal header fields and prekey id |
| Send.LivePrekeys | crates/dnsmesh-client/src/send.rs:134-149 | exactly the served prekeys that verify and have not expired |
| Send.Publisher.PublishChunks | crates/dnsmesh-client/src/send.rs:103-125 | the chunks up to the first write that is not accepted are in DNS, and that one too if it took effect |
| Send.SendReports | crates/dnsmesh-client/src/send.rs:103-291 | success exactly if the manifest is valid and every write was accepted; otherwise the kind of failure is that of the first write that was not |
| Send.LandedIff | crates/dnsmesh-client/src/send.rs:103-291 | a write of a send takes effect exactly if all before it were accepted and it was accepted or landed all the same |
| Send.Publisher.SendMessage | crates/dnsmesh-client/src/send.rs:165-291 | the table after a send holds exactly the accepted prefix of its writes, and the write that ended it if that took effect; success means all of them |
| Send.FailedYetAnnouncedIff | crates/dnsmesh-client/src/send.rs:243-291 | a send that reports failure has announced its message exactly if the failure is the manifest's own write and that write took effect |
| Delivery.FirstGoodBlock | crates/dnsmesh-client/src/receive.rs:383-392 | of the records at a chunk's name the first that unwraps is taken |
| EndToEnd.GatherStopsAtK | crates/dnsmesh-client/src/receive.rs:375-378 | no more than k chunks are collected |
| EndToEnd.AssembledIff | crates/dnsmesh-client/src/receive.rs:371-400 | reassembly gives back the frame exactly when at least k of n chunks survive |
| EndToEnd.ComposedIsWellMade | crates/dnsmesh-client/src/send.rs:195-275 | what a composed message consists of: sealed payload, frame, blocks, manifest fields, key chosen |
| EndToEnd.ComposedSays | crates/dnsmesh-client/src/send.rs:195-275 | what is composed, field by field: the manifest, the frame's header, and the payload sealed under that header with zero counts and the prekey id |
| EndToEnd.PickedIff | crates/dnsmesh-client/src/send.rs:134-157 | a prekey is picked exactly if one is served that the contact signed and that is not past its expiry, and is one of those |
| Labels.SealedIs | crates/dnsmesh-client/src/send.rs:89-97 | the plaintext goes out as the envelope text with the sender's canonical user@domain exactly if the first identity record with the recipient's key lists version 2 and the address has at most 245 bytes, and bare otherwise |
| Labels.ComposeReports | crates/dnsmesh-client/src/send.rs:195-262 | composing succeeds exactly if the text to seal can be sealed under the bound header, the frame can be split, and neither count needs more than 32 bits; each failure is reported as what it is |
| Labels.LabelShown | crates/dnsmesh-client/src/contacts.rs:145-162 | what the receiver shows as the sender of such a message: that address exactly if an identity record of that user with the sender's key is at it, and nothing otherwise |
| EndToEnd.LetterDecodesIff | crates/dnsmesh-client/src/receive.rs:358-474 | a message decrypts, to what was sealed, exactly when enough chunks survive, it has not expired and the secret half of the sender's choice is held |
| Labels.PlaintextSurvivesIff | crates/dnsmesh-client/src/send.rs:89-97 | the user's bytes come back exactly when they went out in an envelope, or do not read as one |
| EndToEnd.PickedPrekeyIsHeldIff | crates/dnsmesh-client/src/send.rs:134-157 | a prekey picked from a pool whose offers can all be opened, other than id 0, is one the receiver can open with exactly before its expiry second, at which it is still picked |
| EndToEnd.ComposedIsHeldIff | crates/dnsmesh-client/src/send.rs:201-222 | a composed message is sealed for a key its addressee holds, except for a prekey at its expiry second |
| DeliveryRuns.UnusedPrekeyStays | crates/dnsmesh-storage/src/prekeys.rs:193-278 | a prekey that no message of a run uses keeps secret and expiry until that expiry |
| DeliveryRuns.UnseenStays | crates/dnsmesh-client/src/receive.rs:216-229 | a pair that no message of a run carries is not remembered at its end |
| Journey.KeyHeldAfterRun | crates/dnsmesh-client/src/receive.rs:438-452 | the key a message was sealed for is still held after any run that does not use it, until the prekey expires |
| EndToEnd.ZeroPrekeyHeldIff | crates/dnsmesh-core/src/manifest.rs:59-61 | reading of `HoldsSecret`: with id 0 a message opens only if it was sealed for the long-term key |
| EndToEnd.DeliveredAmongOthers | crates/dnsmesh-client/src/receive.rs:142-272 | among any other traffic a call surfaces an announced message exactly once, however often its manifest turns up, unless it was surfaced before or its prekey is used up by another |
| EndToEnd.ClaimFindsSameMessage | crates/dnsmesh-client/src/claim.rs:261-339 | coming to a message through a claim has the same effect on every store as coming to it through the sender's slot |
| SendCut.SendCutAnywhere | crates/dnsmesh-client/src/send.rs:165-291 | in an otherwise empty mailbox: cut a send at any write, lose any chunks, look at any time: the one message with exactly the sealed content, once before its expiry second, or nothing and every store unchanged |
| Traffic.SurfacedAsOften | crates/dnsmesh-client/src/receive.rs:142-273 | among any other items of either path, at any time, a call surfaces a message never if it is remembered or does not open, otherwise once if it is announced at all, and as often as it is announced at its expiry second without a prekey |
| SendAmongOthers.DispatchAmongOthers | crates/dnsmesh-client/src/send.rs:165-291 | the same for a send cut at any write with any chunks lost |
| Journey.PlaintextOrNothing | crates/dnsmesh-client/src/send.rs:165-291 | in an otherwise empty mailbox, from plaintext to plaintext: for a plaintext not mistaken for an envelope, exactly that plaintext under the message id drawn and the sender's address if claimed and vouched for, or nothing and every store unchanged |
| Journey.PlaintextAmongOthers | crates/dnsmesh-client/src/send.rs:165-291 | from plaintext to plaintext among any other traffic, on either path: under the message id drawn exactly the plaintext, under the sender's address if claimed and vouched for, the exact number of times, and nothing else; returned just as often if the sender is known, and not at all otherwise |
| Journey.SentIsReceived | crates/dnsmesh-client/src/receive.rs:105-273 | in an otherwise empty mailbox: after any run of the receiver that neither surfaces the message nor uses its prekey, a completed send with k chunks left is received as its plaintext, once, by a call before both expiries, if the prekey id is not 0 and the sender is let in; it is returned exactly if the sender is known |
| Journey.ReceivedAmongOthers | crates/dnsmesh-client/src/receive.rs:105-273 | the same among any other traffic, for a call of either path that comes across the message |
| Journey.ReceivedFromMailbox | crates/dnsmesh-client/src/receive.rs:105-273 | a mailbox walk over the sender's zone does come across it, whatever else the table lists |
| Journey.ReceivedByClaim | crates/dnsmesh-client/src/claim.rs:237-343 | and so does a walk over a provider that lists a fresh claim for it |
| ResolverPool.ResolverPool.OrderedHosts | crates/dnsmesh-net/src/resolver_pool.rs:250-267 | the two tiers built by the loop, the second one sorted |
| ResolverPool.ResolverPool.QueryTxtRecord | crates/dnsmesh-net/src/resolver_pool.rs:284-331 | which hosts were asked, what is answered, and the health of every host afterwards |
| ResolverPool.OrderSpec | crates/dnsmesh-net/src/resolver_pool.rs:250-267 | every host once: healthy ones as configured, then the cooling ones stably by oldest failure |
| ResolverPool.OrderMeans | crates/dnsmesh-net/src/resolver_pool.rs:250-267 | of two hosts the one that is not cooling is asked first, of two that are not the one configured first, of two cooling ones the one that failed first |
| ResolverPool.FirstAnswerWins | crates/dnsmesh-net/src/resolver_pool.rs:296-330 | reading of `Decisive`: the first real answer in order unless a bad name comes first; nothing only if every host denied or failed |
| ResolverPool.OracleRule | crates/dnsmesh-net/src/resolver_pool.rs:296-330 | reading of `After`: an answer clears its host and counts against every host asked before it; without one, hosts that denied are cleared and hosts that failed are counted; nobody else changes |
| ResolverPool.RunsStayCoherent | crates/dnsmesh-net/src/resolver_pool.rs:125-135 | over every run of queries a host has a failure count exactly if it has a failure time |
| ResolverPool.HealthIsStreak | crates/dnsmesh-net/src/resolver_pool.rs:125-135 | over every interleaving of health updates by concurrent queries, a host's failure count is the number of its failures since it last succeeded, and its failure time that of the last of them |
| ResolverPool.InterleavedStaysCoherent | crates/dnsmesh-net/src/resolver_pool.rs:125-135 | so count and time are present together at every moment |
| DnsName.NameErrorIff | crates/dnsmesh-core/src/cluster.rs:129-170 | the validator accepts exactly lists of labels of 1 to 63 letters, digits and inner hyphens, with or without one final dot |
| DnsName.NameErrorKind | crates/dnsmesh-core/src/cluster.rs:129-170 | what is complained of: an empty name, an empty label if that is the first piece that is no label, or else an invalid label |
| Bootstrap.BootstrapRecord.Validate | crates/dnsmesh-core/src/bootstrap.rs:259-313 | the verdict and the record left behind, also on failure |
| Bootstrap.BootstrapRecord.ToBodyBytes | crates/dnsmesh-core/src/bootstrap.rs:317-334 | validates in place and serialises the canonical record |
| Bootstrap.ValidateEntry | crates/dnsmesh-core/src/bootstrap.rs:152-173 | the verdict on one entry and the entry left behind |
| Bootstrap.EntryErrorKind | crates/dnsmesh-core/src/bootstrap.rs:152-173 | an entry's name is called an invalid base domain exactly if it is empty or a valid name of more than 64 bytes; otherwise the complaint is the name validator's |
| Bootstrap.FromBodyBytes | crates/dnsmesh-core/src/bootstrap.rs:337-430 | the parsing loop computes the parse |
| Bootstrap.ValidatedIff | crates/dnsmesh-core/src/bootstrap.rs:259-313 | validation accepts exactly the acceptable records and makes them canonical |
| Bootstrap.CanonicalStays | crates/dnsmesh-core/src/bootstrap.rs:259-313 | a canonical record validates to itself |
| Bootstrap.PrintThenParse | crates/dnsmesh-core/src/bootstrap.rs:317-430 | serialising succeeds exactly on acceptable records (names valid up to a final dot, one to sixteen entries, no two of equal priority and equal name but for case), and parsing the bytes gives the canonical record |
| Bootstrap.ParseThenPrint | crates/dnsmesh-core/src/bootstrap.rs:317-430 | every accepted body yields a canonical record that serialises and parses to itself |
| Bootstrap.ParseIff | crates/dnsmesh-core/src/bootstrap.rs:337-430 | the bodies that mean a record are exactly those that spell out, field by field, an acceptable record with that canonical form |
| Bootstrap.WritesIff | crates/dnsmesh-core/src/bootstrap.rs:317-334 | a record is written as exactly one body: every field at its place |
| Bootstrap.BestIsLeast | crates/dnsmesh-core/src/bootstrap.rs:541-549 | the best entry has the least priority value and was inserted first among those |
| Bootstrap.SignedRecordVerifies | crates/dnsmesh-core/src/bootstrap.rs:435-538 | a signed record is accepted, in canonical form, exactly for its signer or no pin, until its expiry, under its domain up to case and a final dot |
| Bootstrap.VerifiedIff | crates/dnsmesh-core/src/bootstrap.rs:474-538 | for every string: a record is accepted exactly if the string has the prefix, at most 1200 characters, and behind it the base64 of a body that parses to the record and of 64 bytes that verify as its own signer's signature, and the pin, the expiry and the expected domain allow it |
| StableSort.SortSpec | crates/dnsmesh-core/src/bootstrap.rs:309-311 | sorted, a permutation, and equal keys keep their order |
| StableSort.StableSortUnique | crates/dnsmesh-core/src/bootstrap.rs:309-311 | only one sequence is the stable sort of another |
| Message.HeaderRoundTrip | crates/dnsmesh-core/src/message.rs:188-251 | every header reads back from its JSON bytes |
| Message.HeaderBytesInjective | crates/dnsmesh-core/src/message.rs:188-211 | different headers have different bytes |
| Message.HeaderLength | crates/dnsmesh-core/src/message.rs:302-320 | no header is longer than 308 bytes, so its two-byte length always fits |
| Message.FrameRoundTrip | crates/dnsmesh-core/src/message.rs:302-344 | every frame parses back, with its signature slot brought to 32 bytes |
| Message.FrameIdentity | crates/dnsmesh-core/src/message.rs:302-344 | the round trip is the identity exactly for 32-byte signature slots |
| Envelope.CanonicalizeIdempotent | crates/dnsmesh-core/src/envelope.rs:67-91 | canonicalising a canonical address changes nothing |
| Envelope.ResultIsCanonical | crates/dnsmesh-core/src/envelope.rs:67-136 | what a canonical address looks like |
| Envelope.CanonicalizeIff | crates/dnsmesh-core/src/envelope.rs:67-91 | the addresses that have a canonical form are, up to case, those of that form with whitespace around them and dots behind them |
| Envelope.EnvelopeRoundTrip | crates/dnsmesh-core/src/envelope.rs:147-225 | body and canonical address come back exactly when the address has at most 245 bytes |
| Envelope.EnvelopeText | crates/dnsmesh-core/src/envelope.rs:147-191 | the envelope as text |
| Envelope.DecodeSplits | crates/dnsmesh-core/src/envelope.rs:194-225 | for any input, the whole input without a claim or exactly what follows the first newline |
| Envelope.DecodeIff | crates/dnsmesh-core/src/envelope.rs:194-225 | an input is an envelope exactly if it is the prefix, one line of at most 256 bytes that reads as a JSON object, and the body; the claim is the canonical form of its "from" string |
| Envelope.BodySurvivesIff | crates/dnsmesh-core/src/envelope.rs:147-225 | the body comes back exactly when it was wrapped or does not read as an envelope |
| SlotManifest.BodyCodec | crates/dnsmesh-core/src/manifest.rs:130-192 | valid manifests and accepted 108-byte bodies correspond one to one |
| SlotManifest.SpelledIff | crates/dnsmesh-core/src/manifest.rs:130-192 | each field of a manifest stands at its own place in the 108 bytes |
| SlotManifest.SignedManifestVerifies | crates/dnsmesh-core/src/manifest.rs:199-229 | what is signed with the sender's key is accepted unchanged; signing fails exactly on chunk counts out of range |
| SlotManifest.AcceptedManifestIsSigned | crates/dnsmesh-core/src/manifest.rs:215-229 | an accepted manifest carries its own sender's signature over exactly its fields |
| SlotManifest.VerifiedIff | crates/dnsmesh-core/src/manifest.rs:215-229 | for every string: a manifest is accepted exactly if the string carries its fields, with counts in range, and a 64-byte signature over them by the sender it names |
| Addressing.ChunkNamesDiffer | crates/dnsmesh-client/src/addressing.rs:73-75 | chunks of one message have different names |
| Addressing.ChunkNamesIff | crates/dnsmesh-client/src/addressing.rs:73-75 | under keys of one length, two chunk names are equal only for the same key and chunk in zones equal up to final dots |
| Addressing.SlotIs | crates/dnsmesh-client/src/addressing.rs:95-99 | the slot is the first four bytes of the message id, most significant first, modulo ten |
| Addressing.ChunkNamesAreNoSlots | crates/dnsmesh-client/src/addressing.rs:42-75 | chunk, slot and claim names never coincide |
| SendCut.SlotNamesDiffer | crates/dnsmesh-client/src/addressing.rs:42-49 | slot names of a mailbox coincide only for the same slot in zones equal up to final dots |
| TextCodec.HexRoundTrip | crates/dnsmesh-core/src/message.rs:517-546 | hexadecimal reads back |
| TextCodec.HexDigitsAre | crates/dnsmesh-core/src/message.rs:517-546 | two digits a byte, the high one first |
| TextCodec.FirstByteHighest | crates/dnsmesh-core/src/manifest.rs:130-150 | numbers are written with the most significant byte first |
| TextCodec.DecimalRoundTrip | crates/dnsmesh-core/src/message.rs:188-211 | decimal reads back, without leading zeros |

## Consistency of the assumptions

These members state nothing about the source. They show that what is assumed can
be met.

- `ToyLibrary.LawsCanBeMet`: one library meets all laws of `Library`, and seals and
  splits every input of a realistic size; its erasure code has one parity block
  (`ToyLibrary.Assembles`). `Json.ParseFlatReadsBack`: a JSON reader that reads back
  what this protocol writes.
- `Witness.CircumstancesCanBeMet`: the hypotheses of `SendCutAnywhere` hold, and the
  message is deliverable, for every short plaintext.
- `Witness.JourneyCanBeMade`, `Witness.JourneyWithPrekey`: so do those of
  `SentIsReceived`, without a prekey and with one that the sender finds in DNS.
- `ClaimWitness.ClaimJourneyCanBeMade`: so do those of `ReceivedByClaim`, over a table
  that already lists the claim.
- `ContactWitness.JourneyToContact`: so do those of `SentIsReceived` for a receiver that has
  pinned the sender, with the rotation chain off and on.
- `Witness.TwiceAtExpiryHappens`: so do those of `TwiceAtExpiry`, with a manifest that
  a mailbox walk does come across at its expiry second.
- `Witness.DiscardHappens`: a mailbox walk that records a message and then fails.

## Left out

- Ed25519, X25519, ChaCha20-Poly1305, HKDF, Argon2, SHA-256, base64, Reed-Solomon and erasure coding: functions with laws in `Library`.
- Key-commitment of the AEAD: `Library.AuthenticityLaws` idealises it; only the negative half of `LetterDecodesIff` uses it.
- `claim` record bytes, identity, prekey, rotation, revocation and cluster record bytes: parsers are parameters; their codecs follow the pattern of the bootstrap record. Claim freshness is modelled.
- SQLite, SQLCipher, migrations and statement errors: tables are maps and statements do not fail.
- Publishing claims, `send_message_with_claim`, `publish_identity`, unpublishing, `FanoutWriter`, `CompositeReader`, `UnionReader`, HTTP and DNS UPDATE writers: one-loop or plumbing code.
- `classify_error` and `query_one` of the resolver pool: each upstream's outcome is a parameter.
- CLI, configuration, FFI, heartbeat, logging and wall clocks.
- Concurrency beyond intro review, `check_and_record` and the health updates of the resolver pool: receive calls of one client run one at a time.
- Error texts: errors are kinds, without their messages.
- Client.Client.ReceiveItem: the two receive paths repeat the same checks inline; the model has them once, with the paths as two kinds of item.
- Client.Client.ReceiveMessages: the reader answers alike throughout one call, and the clock is read once per call.
- EndToEnd.DeliveredAmongOthers: assumes that wherever the manifest is listed its chunks, if readable, are the published ones, because the payload alone does not identify its sender.
- SendCut.SendCutAnywhere: the mailbox is otherwise empty; `SendAmongOthers.DispatchAmongOthers` covers any other traffic, without saying what the stores of a call that surfaces nothing look like.
- Journey.PlaintextOrNothing: the mailbox is otherwise empty; `PlaintextAmongOthers` covers any other traffic and both paths.
- Journey.SentIsReceived: the mailbox is otherwise empty; `ReceivedFromMailbox` and `ReceivedByClaim` cover any other traffic and both paths.
- SendAmongOthers.DispatchAmongOthers: nobody else publishes at the letter's chunk names, and no other record passes itself off as the letter, uses its prekey, or needs a read that fails.
- DeliveryRuns.AtMostOnce: along runs under a clock that does not go back; for the replay cache alone, `AnswersAfterRecordIff` and `RunsAgreeIff` cover every clock.
- ClientRuns.Cleanup: the program cleans up each store by a call of its own; the step of a run does all three.
- PrekeySecrets.SecretsOpenOnce: that generated secrets are new is assumed; key generation is a parameter.
- DeliveryRuns.PoolAgreesAlongRuns: for runs whose DNS deletes succeed and whose publications are not hidden; `FailedDeleteDangles` and `NextAgrees` say what one exception does.
- PrekeyPool.PrekeyPublisher.RefreshPrekeys: a writer that accepts a write has made it; a write that is reported as failed may have been made or not.
- Send.Publisher.SendMessage: `wrap_block` cannot fail here, because every erasure block has the chunk size.
- Prekeys.PrekeyStore: rows carry a birth number that the program does not have, to tell prekeys with reused ids apart.
- Bootstrap.ValidatedIff: stated for any rule about names that is lawful; `PrintThenParse`, `ParseThenPrint` and `ParseIff` fix the rule in use.
