# Chitchat gossip, QUIC receive streams, PKCS#12 and licence filtering in Dafny

A model of the parts of the repository that carry state or arithmetic, with proofs of what they promise.
`dafny verify dfyconfig.toml` verifies all of it.

## What is modelled

**Replication by gossip** (`NodeState`, `Dates`, `Replication`, `Reconciliation`, `Runs`, `Anomalies`, `Convergence`, `Rounds`).
Each node owns versioned entries; others copy them by exchanging digests `(last_gc_version, max_version)` and partial deltas;
tombstones are kept for a grace period and then collected locally, and a receiver that is too far behind starts over.  The
owner's writes form a log in which write number v has version v.  A replica is *genuine* when each of its entries is the write
of that version, and *faithful* when, in addition, it holds the latest write to every key as far as its two counters claim.
`Runs` is a cluster of any number of processes and a network that loses, duplicates, delays and reorders deltas.

The code does not keep replicas genuine and faithful in all runs.  The theorems on runs have three hypotheses, each on a single
receipt.  For each the model gives the exact condition, in terms of the numbers at hand, and a complete run from an empty
cluster that misses it and goes wrong (`Anomalies`):

- *no node is set back about itself.*  A process that collected up to the owner's last write, before the owner did, answers an
  old digest of the owner with a whole state; the owner takes it, starts over (state.rs:167), is left short of its last write and
  uses versions a second time (`Runs.SparesOwnerExactly`, `Anomalies.ReuseIsReachable`).  It cannot happen while nobody collects
  further than the owner (`Runs.CollectingBehindSparesOwners`), but each process collects by its own clock and grace period, and
  nothing in the code enforces that;
- *no receiver starts over on a delta that does not start at 0.*  The sender decides to send a whole state with
  `digest_max < last_gc_version` (state.rs:616-617), but the receiver starts over unless `max_version > last_gc_version`
  (state.rs:167).  When the two are equal the code warns that it ignores the delta (state.rs:182-189) but goes on, and entries
  are lost (`Anomalies.LossIsReachable`);
- *no news from a sender that has not seen what the receiver collected.*  A receiver whose `last_gc_version` exceeds its
  `max_version` (as after a reset) takes old values from a sender that has not seen the deletions collected since; such a value
  stays until the key is written again or the receiver starts over (`Anomalies.ResurrectionIsReachable`).

The last two are exact for answers to the receiver's present digest (`Reconciliation.ExchangeSafeExactly`) and for the deltas of
faithful senders that come late (`Reconciliation.ReceiptSafeExactly`).

Exchanges with an owner that are cut short converge, by a known number of them (`Convergence.TruncatedExchangesConverge`), with
two exceptions (`Convergence.CatchUpExactly`): the loss above, and a replica that has collected beyond all that it has seen and
the owner has collected.  Such a replica refuses the owner's tombstones there, and if an answer holds nothing else it asks the
same for ever (`Convergence.Livelock`).  This takes it that the owner holds no tombstone at or below its own `last_gc_version`,
which its writes and collections ensure while its clock does not go back (`Convergence.OwnersHoldNoOldTombstones`).  `Rounds`
joins it to the computation of deltas: an answer carries something of the stalest node exactly if a header and one operation fit.

**The wire** (`Codec`, `Stream`, `Format`, `Delta`, `DeltaWire`, `PartialDelta`, `MessageLimit`).  Codecs and the bytes they
make, the stream of compressed or raw blocks, the length predictor, delta operations and their parser, the computation of a
partial delta within an MTU, and the length of replies.

**One process** (`ClusterState`, `SamplingWindow`, `FailureDetector`, `Suspicion`, `Chitchat`, `Handshake`, `Heartbeats`,
`Quarantine`).  The cluster state, the phi-accrual failure detector and what it makes of a series of heartbeats, the steps of the
protocol, what a whole handshake achieves, that nodes which gossip often enough never die, and the quarantine of dead nodes, by
one process and cluster-wide.

**Elsewhere.**  `Pkcs12`: key derivation against section B.2 (Appendix B) of RFC 7292.  `RecvStream`: reading from received
QUIC buffers and acknowledging them.  `Licences`: the filter for outdated licences.  `Listeners`: range scans by prefix.

Objects that the repository updates in place are classes, specified by functions on their abstract values; the laws are
lemmas about those functions.

## Where code and comments differ

- `process_message` subtracts 1 byte for framing (lib.rs:153, lib.rs:168) where the header has 4 (message.rs:103-115): a
  message exceeds the limit by at most 3 bytes when every operation is at most a block, and by at most 12 in any case
  (`MessageLimits.RepliesNearlyKeepTheLimit`).  Without compression an ACK reaches the 3 bytes for all but three in every 16387
  limits (`Chitchats.AckTooLongExactly`).
- `serialized_len_upperbound_after` is an upper bound only while pending bytes and item make at most two blocks
  (`Streams.BoundHoldsExactly`); an operation that `append` takes exceeds it by at most 9 bytes.
- `append` panics on an operation of 65536 bytes or more (serialize.rs:343), which nothing excludes once the MTU reaches 65543
  (`MessageLimits.AppendPanicsExactly`).  Over UDP the limit is 65507 (lib.rs:58); the QUIC transport sets 10000000
  (transport_layer.rs:27, transport_layer.rs:111), and there a node started with a single entry of that length
  panics on the first SYN-ACK, whatever the compressor (`Chitchats.StartAndCrash`).
- `Delta::serialize` always uses blocks of 16384 bytes and the serializer blocks of at most the MTU; of operations that were
  accepted they make the same payload for every MTU, and the length assertion holds (`DeltaWire.ThresholdsAgree`).
- Starting over forgets the heartbeat of the node (state.rs:223); the next one heard is not news, and no sample
  (`Heartbeats.HeartbeatsArrive`, `Heartbeats.HeartbeatsAreReported`).
- Deleting a key whose tombstone is still there makes another version and starts its grace period again
  (`Dates.DeletingStartsAgain`), where setting what is set already changes nothing.
- The catch-up callback is decided by the header of a delta (lib.rs:123-133), not by whether the receiver starts over.
- `SetMaxVersion` has an effect only on a receiver that starts over (state.rs:225-234).  Convergence is therefore stated for
  the entries, not for `max_version`.
- `max_version` alone can go back, on a reset; the pair `(last_gc_version, max_version)` cannot (`NodeStates.RunsProgress`).
- `trigger_event` slices the first byte off the key and panics when the first character is not ASCII (listener.rs:108-109).
- `read_complete` passes 0 for an empty last buffer if nothing was completed at all, even when earlier data is still held
  by the reader; once something was completed it does so only when everything before the buffer was.

## Model

| member | source | states |
|---|---|---|
| `NodeStates.NodeState.constructor` | chitchat/src/state.rs:82-91 | a new state is empty: no entries, heartbeat and both counters at 0 |
| `NodeStates.NodeState.TrySetHeartbeat` | chitchat/src/state.rs:393-406 | keeps the first or a greater heartbeat; only a greater one, after a first, is news |
| `NodeStates.NodeState.IncHeartbeat` | chitchat/src/state.rs:384-386 | raises the heartbeat by one and changes nothing else |
| `NodeStates.NodeState.SetVersionedValue` | chitchat/src/state.rs:463-492 | takes a value only over an older one, but always raises maxVersion to its version; the listeners are called exactly for a value taken that is no deletion |
| `NodeStates.NodeState.SetWithVersion` | chitchat/src/state.rs:494-500 | stores a set value under a version above every version seen |
| `NodeStates.NodeState.Set` | chitchat/src/state.rs:306-319 | a write with the next version, unless the key already holds that very value, set |
| `NodeStates.NodeState.SetWithTtl` | chitchat/src/state.rs:322-342 | the same for a value that expires |
| `NodeStates.NodeState.Delete` | chitchat/src/state.rs:352-361 | a tombstone with an empty value and the next version, if the key is there |
| `NodeStates.NodeState.DeleteAfterTtlOf` | chitchat/src/state.rs:371-382 | keeps the value under the next version and makes it expire, if the key is there |
| `NodeStates.NodeState.GcKeysMarkedForDeletion` | chitchat/src/state.rs:417-436 | removes exactly the expired entries; lastGcVersion becomes the greatest version removed, if that is greater |
| `NodeStates.NodeState.PrepareApplyDelta` | chitchat/src/state.rs:152-238 | which deltas are applied, which make the state start over, which are refused; what a reset leaves; the "not fresher" branch is never reached |
| `NodeStates.NodeState.ApplyNodeDelta` | chitchat/src/state.rs:240-263 | the whole effect of a delta on a state, equal to the function the laws below are about |
| `NodeStates.ApplyKeepsVersionsDistinct` | chitchat/src/state.rs:240-263 | applying increasing mutations keeps versions pairwise distinct and at most maxVersion, and says which entries are new |
| `NodeStates.WriteKeepsVersionsDistinct` | chitchat/src/state.rs:306-382 | so do the four local writes |
| `NodeStates.CollectionKeepsVersionsDistinct` | chitchat/src/state.rs:417-436 | so does collection |
| `NodeStates.DeltaKeepsVersionsDistinct` | chitchat/src/state.rs:152-263 | so does any delta that parses, whether applied in place or after a reset |
| `NodeStates.VersionsStayDistinct` | chitchat/src/state.rs:152-263 | in every run of writes, collections and deltas that parse, versions are distinct and within 1..maxVersion |
| `NodeStates.ApplyMutationsProgress` | chitchat/src/state.rs:240-263 | mutations leave lastGcVersion alone, never lower maxVersion, and raise it to that of an accepted mutation if anything changes |
| `NodeStates.ApplyDeltaProgress` | chitchat/src/state.rs:152-263 | (lastGcVersion, maxVersion) never goes back under any delta; it advances exactly when the delta resets the state or brings a newer mutation that is no collected tombstone; otherwise nothing changes; a reset strictly raises lastGcVersion |
| `NodeStates.RunsProgress` | chitchat/src/state.rs:152-263 | over any run the pair never goes back, and there are at most as many resets as lastGcVersion has grown |
| `Dates.WritesReadBack` | chitchat/src/state.rs:306-382 | what the owner reads back after each of the four writes: value, status, date and version; which writes are in vain |
| `Dates.SettingIsIdempotent` | chitchat/src/state.rs:306-342 | setting twice is setting once |
| `Dates.DeletingStartsAgain` | chitchat/src/state.rs:352-361 | deleting twice makes two versions, and the grace period counts from the second |
| `Dates.ReceivedIsDatedNow` | chitchat/src/state.rs:240-263 | after a delta every entry is the very one held before, in a state that was not started over, or what a mutation becomes now: same value, version and kind of deletion, a deletion counting from now |
| `Dates.EntriesAreDatedByTheirEvents` | chitchat/src/state.rs:240-382 | in any run of writes, collections and deltas that parse, an entry was taken by some event and held since, and a deletion counts from the time of that event |
| `Dates.CollectionTakesWhatIsDue` | chitchat/src/state.rs:417-436 | a collection removes exactly the entries marked for deletion at least the grace period ago; what is set is never removed; lastGcVersion becomes the greatest version removed, if that is greater |
| `Dates.StartsOverExactly` | chitchat/src/state.rs:152-238 | a delta raises lastGcVersion exactly when it makes the state start over |
| `Dates.EntriesAreLostBy` | chitchat/src/state.rs:152-436 | in any run an entry is lost only by a write to its key, a newer mutation of it, a reset, or a collection when it is due |
| `Dates.KeptForTheGracePeriod` | chitchat/src/state.rs:417-436 | in any run that does not write or send the key anew nor reset the state, an entry is there exactly until the first collection for which it is due; after that lastGcVersion is at least its version |
| `Dates.ProcessesCollectWhatIsDue` | chitchat/src/lib.rs:184-187 | a process collects what is due from every node, and nothing else |
| `Replication.OwnerWriteKeepsFaithful` | chitchat/src/state.rs:306-382 | an owner write extends the log by one write of the next version and keeps the scuttlebutt invariant |
| `Replication.OwnerWriteKeepsGenuine` | chitchat/src/state.rs:306-382 | and keeps every entry the write of its version |
| `Replication.LogGrowthKeepsFaithful` | chitchat/src/state.rs:306-382 | the owner going on leaves every other replica as faithful as it was |
| `Replication.CollectKeepsFaithful` | chitchat/src/state.rs:417-436 | collecting tombstones keeps the invariant, on any replica |
| `Replication.GenuineVersionsDistinct` | chitchat/src/state.rs:463-492 | genuine states have distinct versions |
| `Replication.StaleKeyValuesIsTheSort` | chitchat/src/state.rs:771-778 | the stale entries in version order are the only strictly increasing arrangement of the entries newer than the floor |
| `Replication.SortIsUnique` | chitchat/src/state.rs:771-778 | two strictly increasing arrangements of the same mutations are equal |
| `Replication.DeltaFromIsGenuine` | chitchat/src/state.rs:589-660 | a delta computed from a genuine state carries only writes of the log |
| `Replication.DeltaFromEntries` | chitchat/src/state.rs:589-660 | which entries a delta carries, cut short or not: all of the sender up to the version it covers, and none at or below its start |
| `Replication.DeltaFromIsFaithful` | chitchat/src/state.rs:589-660 | a delta computed from a faithful state transmits every latest write in its range, or what excuses it |
| `Replication.DeltaFromShape` | chitchat/src/state.rs:589-660 | what a computed delta looks like to its receiver: start, lastGcVersion and the version it leads to |
| `Replication.LogGrowthKeepsDelta` | chitchat/src/state.rs:589-660 | a delta in flight stays genuine and faithful while the owner goes on writing |
| `Reconciliation.ApplyMutationsEffect` | chitchat/src/state.rs:240-263 | under each key the result is the accepted mutation, or else what was there |
| `Reconciliation.ApplyKeepsGenuine` | chitchat/src/state.rs:152-263 | applying a genuine delta, whatever it is and however late, keeps a state genuine |
| `Reconciliation.KeyAfterApply` | chitchat/src/state.rs:240-263 | what a delta leaves under a key, compared with the latest write to it |
| `Reconciliation.ApplyKeepsFaithful` | chitchat/src/state.rs:152-263 | applying a delta keeps the scuttlebutt invariant, if a resetting delta starts at 0 and, where the sender was ahead, it had seen as far as the receiver collected |
| `Reconciliation.ExchangeSafeExactly` | chitchat/src/state.rs:614-628 | for which four digest numbers the invariant survives every exchange: exactly unless the receiver stands at the sender's lastGcVersion without having collected as far, or collected further than the sender has seen |
| `Reconciliation.ReceiptSafeExactly` | chitchat/src/state.rs:152-263 | for any delta that a faithful sender emits against any digest, however late it arrives: by its start, its lastGcVersion, the sender's maxVersion and the receiver's digest, exactly when the invariant survives the receipt |
| `Reconciliation.LateReset` | chitchat/src/state.rs:167-189 | such a delta that starts above 0 and resets its receiver loses an entry never deleted, for every choice of the five numbers that allows it |
| `Reconciliation.LateResurrection` | chitchat/src/state.rs:164-176 | such a delta from an older sender brings a deleted entry back, for every choice of the five numbers that allows it |
| `Reconciliation.LossyReset` | chitchat/src/state.rs:167-189 | a delta that starts above 0 resets a receiver and drops an entry never deleted, for every choice of the digest numbers that allows it |
| `Reconciliation.Resurrection` | chitchat/src/state.rs:164-176 | an older sender brings a deleted and collected entry back, for every choice of the digest numbers that allows it |
| `Reconciliation.ResetsFromNonZeroExactly` | chitchat/src/state.rs:614-628 | against an own earlier digest, a delta that starts above 0 resets the state exactly when that digest's maxVersion is still current and equals the sender's lastGcVersion, further than the receiver collected, and the delta says how far it leads |
| `Reconciliation.OneExchangeConverges` | chitchat/src/state.rs:589-660 | one untruncated exchange with the owner makes a faithful replica equal to it on every key not deleted; other entries are at their latest version |
| `Reconciliation.ExchangeSettles` | chitchat/src/state.rs:589-660 | one untruncated exchange with any faithful peer, at safe digests, keeps a replica faithful and tells it the last word on every key that the peer has seen the last word on |
| `Reconciliation.ChainsAgree` | chitchat/src/state.rs:589-660 | along any chain of such exchanges a write that is the last to its key, and no deletion, is passed on, and all replicas agree with the first on every key written last no later |
| `Reconciliation.ChainsConverge` | chitchat/src/state.rs:589-660 | if the owner's last write is no deletion, the end of every chain from the owner agrees with it on everything |
| `Reconciliation.ConvergenceExactly` | chitchat/src/state.rs:589-660 | for which digests such an exchange is certain to converge: exactly unless the receiver stands at the owner's lastGcVersion without having collected as far |
| `Reconciliation.HeldIsWritten` | chitchat/src/state.rs:463-492 | an entry of a genuine state is the owner's write of that version |
| `Runs.OwnGossipIsNoOpExactly` | chitchat/src/state.rs:152-263 | which genuine delta changes the owner's own state: exactly one collected up to its last write, further than the owner itself, that starts no later and says how far it leads |
| `Runs.OwnerStaysLevelExactly` | chitchat/src/state.rs:152-263 | which genuine delta leaves a node short of its own last write: exactly one that makes it start over and does not lead up to that write |
| `Runs.SparesOwnerExactly` | chitchat/src/state.rs:560-567 | in a genuine cluster, the receipt of a delta about the receiver keeps the cluster genuine exactly if it does not set the receiver back: make it start over and leave it short of its last write |
| `Runs.LeavesOwnerAloneExactly` | chitchat/src/state.rs:560-567 | such a receipt changes nothing exactly if the delta does not make the receiver start over |
| `Runs.StepKeepsGenuine` | chitchat/src/state.rs:152-263 | every step of the cluster keeps all entries genuine (join, write, collect, hear, emit, receive, forget), unless it hands a node a delta that sets it back about itself |
| `Runs.RunsAreGenuine` | chitchat/src/state.rs:560-567 | in every run with loss, duplication, delay, reordering, collection and removal in which no node is set back about itself, every entry held or in flight is the owner's write of its version |
| `Runs.OwnGossipIsNoOpInRuns` | chitchat/src/state.rs:560-567 | in runs in which no node is set back about itself, gossip about a node's own state changes nothing exactly if it does not make the node start over |
| `Runs.ReplicasAgree` | chitchat/src/state.rs:560-567 | in runs in which no node is set back about itself, two replicas never disagree on what a version is |
| `Runs.CollectingBehindSparesOwners` | chitchat/src/state.rs:417-436 | if in every state nobody has collected further than the owner, no node ever starts over on gossip about itself |
| `Runs.StepKeepsFaithful` | chitchat/src/state.rs:152-263 | every step whose receipt meets the hypotheses on receipts keeps the scuttlebutt invariant on all replicas and all deltas in flight of a genuine cluster |
| `Runs.RunsAreFaithful` | chitchat/src/state.rs:152-263 | the scuttlebutt invariant over all runs, under the three hypotheses: no node is set back about itself, no reset by a delta that starts above 0, no news from a sender that has not seen what the receiver collected |
| `Runs.RunsConverge` | chitchat/src/state.rs:589-660 | from any state of a run under the three hypotheses, one untruncated exchange with the owner converges, unless the replica stands at the owner's lastGcVersion without having collected as far |
| `Runs.RunsBehindOwnerAreFaithful` | chitchat/src/state.rs:152-263 | both invariants over all runs in which nobody collects further than the owner and every receipt is safe |
| `Anomalies.LossIsReachable` | chitchat/src/state.rs:167-189 | a run from the empty cluster, nobody collecting further than the owner, in which only the last receipt misses a hypothesis (the reset starts above 0), and after which a replica claims the last version but lost an entry never deleted |
| `Anomalies.ResurrectionIsReachable` | chitchat/src/state.rs:164-176 | a run from the empty cluster, nothing cut short, nobody collecting further than the owner, in which one receipt misses a hypothesis (the sender is older), and after which a replica claims the last version but has a deleted and collected entry |
| `Anomalies.ReuseIsReachable` | chitchat/src/state.rs:152-263 | a run from the empty cluster in which one receipt misses a hypothesis (a reader that collected earlier sets the owner back), after which the owner uses a version twice |
| `Convergence.WriteKeepsOwnState` | chitchat/src/state.rs:306-382 | a node holds no tombstone of its own at or below its lastGcVersion, and later tombstones are not dated earlier: its writes keep that |
| `Convergence.CollectionKeepsOwnState` | chitchat/src/state.rs:417-436 | so does collection |
| `Convergence.OwnersHoldNoOldTombstones` | chitchat/src/state.rs:306-436 | so it is after any writes and collections on a clock that does not go back |
| `Convergence.FirstTakenIsProgress` | chitchat/src/state.rs:240-263 | unless the first entry of a delta is a tombstone the receiver collected, less is stale afterwards, if the sender holds no tombstone at or below its lastGcVersion |
| `Convergence.ProgressExactly` | chitchat/src/state.rs:589-660 | for which digests every exchange that carries an entry, with a faithful sender that holds no tombstone at or below its lastGcVersion, makes progress: exactly unless there are versions that the receiver collected and the sender has seen, beyond all that the receiver has seen and the sender collected |
| `Convergence.Livelock` | chitchat/src/state.rs:240-263 | for every other choice of the four numbers: the sender answers with a tombstone, the receiver refuses it and asks the same again, without agreeing if more than one version is left |
| `Convergence.ExchangeProgresses` | chitchat/src/state.rs:589-660 | if a faithful replica can catch up with the owner, which holds no tombstone at or below its lastGcVersion, an exchange that carries an entry, however short it was cut, leaves strictly fewer stale entries, or the replica agrees with the owner and stays as it is; it can still catch up |
| `Convergence.RefusedIsTheLast` | chitchat/src/state.rs:240-263 | a faithful replica that can catch up with the owner and refuses the first entry of its answer has the last word on everything already |
| `Convergence.LastExchange` | chitchat/src/state.rs:589-660 | if a faithful replica can catch up with such an owner, an exchange without entries leaves nothing stale: it agrees with the owner |
| `Convergence.TruncatedExchangesConverge` | chitchat/src/state.rs:589-660 | with an owner that does not write meanwhile and holds no tombstone at or below its lastGcVersion, one exchange more than there are stale entries makes a faithful replica that can catch up agree with it, however short each was cut: one that does not stand at the owner's lastGcVersion without having collected as far, and has not collected beyond all that it has seen and the owner collected, unless at most one version is left there |
| `Convergence.CatchUpExactly` | chitchat/src/state.rs:589-660 | for which digests a faithful replica is certain to agree with such an owner after one exchange more than there are stale entries: exactly if it can catch up in that sense |
| `Convergence.LossIsForGood` | chitchat/src/state.rs:167-189 | what a reset by a delta that starts above 0 dropped does not come back by further exchanges |
| `Codecs.LeRoundTrip` | chitchat/src/serialize.rs:52-100 | integers of any width come back from little-endian bytes, with what follows left over |
| `Codecs.Widths` | chitchat/src/serialize.rs:35-100 | the moduli of two and eight octets are 2^16 and 2^64 |
| `Codecs.TextRoundTripExactly` | chitchat/src/serialize.rs:178-212 | a string comes back exactly when it is shorter than 2^16 bytes: its length is truncated to 16 bits |
| `Codecs.AddrRoundTrip` | chitchat/src/serialize.rs:119-252 | IPv4 and IPv6 socket addresses come back |
| `Codecs.IdRoundTrip` | chitchat/src/serialize.rs:254-275 | node ids come back |
| `Codecs.MutationRoundTrip` | chitchat/src/types.rs:195-256 | mutations come back: key, value, version and status |
| `Codecs.OpRoundTrip` | chitchat/src/delta.rs:88-175 | the three delta operations come back, each by its tag |
| `Codecs.OpLenIsExact` | chitchat/src/delta.rs:134-175 | the predicted length of an operation is the length of its encoding |
| `Streams.StreamSplits` | chitchat/src/serialize.rs:341-391 | what is flushed and what is pending make up the stream |
| `Streams.ItemJoinsPending` | chitchat/src/serialize.rs:341-353 | appending an item flushes exactly the blocks that the whole data would |
| `Streams.CompressedStreamWriter.constructor` | chitchat/src/serialize.rs:312-319 | a new writer has written nothing |
| `Streams.CompressedStreamWriter.Append` | chitchat/src/serialize.rs:341-353 | the item joins what was written; full blocks are flushed while more than the threshold is pending |
| `Streams.CompressedStreamWriter.FlushBlock` | chitchat/src/serialize.rs:356-385 | one block of at most the threshold moves to the output, compressed or raw |
| `Streams.CompressedStreamWriter.Finish` | chitchat/src/serialize.rs:387-391 | the payload is the encoding of everything written, whatever the items it came in |
| `Streams.BlockCountIsCeiling` | chitchat/src/serialize.rs:324-338 | there are ceil(n / threshold) blocks |
| `Streams.StreamLength` | chitchat/src/serialize.rs:324-391 | the finished length is at most data + 3 per block + 1, with equality when nothing compresses |
| `Streams.BoundHoldsExactly` | chitchat/src/serialize.rs:324-338 | the predictor is an upper bound, for all data and compressors, exactly when pending and item are at most two blocks |
| `Streams.BoundIsMonotone` | chitchat/src/serialize.rs:324-338 | the predictor does not shrink with the item |
| `Streams.StreamRoundTrip` | chitchat/src/serialize.rs:341-433 | blocks decode to the data and leave what follows, for any threshold and compressor |
| `Streams.ReadBlocks` | chitchat/src/serialize.rs:394-433 | the block loop of the reader computes the block grammar, failures included |
| `Streams.ReadItems` | chitchat/src/serialize.rs:394-433 | the item loop of the reader computes the item list, failures included |
| `Streams.ItemsRoundTrip` | chitchat/src/serialize.rs:394-433 | concatenated items decode to the items |
| `Streams.DeserializeStream` | chitchat/src/serialize.rs:394-433 | the reader is the block loop followed by the item loop |
| `Streams.ItemStreamRoundTrip` | chitchat/src/serialize.rs:341-433 | any items, also straddling blocks, come back from the stream and leave what follows |
| `Streams.WriteThenRead` | chitchat/src/serialize.rs:341-433 | a writer fed item by item and the reader on its payload return exactly the items |
| `Formats.OpParsesExactly` | chitchat/src/delta.rs:88-175 | exactly the encodings of operations parse: bytes parse to an operation and a rest if and only if they are its encoding followed by that rest |
| `Formats.LittleEndian` | chitchat/src/serialize.rs:52-100 | byte i of an integer counts 256^i |
| `Formats.OperationFormat` | chitchat/src/delta.rs:88-175 | where the fields of the three operations stand, and by which byte each and each kind of deletion is told |
| `Formats.AddressFormat` | chitchat/src/serialize.rs:119-252 | an address is 4 or 6, the octets, and the port |
| `Formats.IdFormat` | chitchat/src/serialize.rs:254-275 | an id is the name with its length, the generation, and the address |
| `Formats.BlockFormat` | chitchat/src/serialize.rs:356-385 | a block is what the compressor made of the chunk, if it made anything, or the chunk, after its mark and length |
| `Formats.EndOfStream` | chitchat/src/serialize.rs:387-391 | a stream ends with 0 |
| `Deltas.DeltaBuilder.Apply` | chitchat/src/delta.rs:310-344 | which operations the builder takes, and what each does; a refused node operation still closes the node before it |
| `Deltas.DeltaBuilder.Finish` | chitchat/src/delta.rs:304-308 | the node deltas built, the open one included |
| `Deltas.BuildIsWellFormed` | chitchat/src/delta.rs:303-355 | whatever operations are accepted: distinct nodes, strictly increasing versions in each |
| `Deltas.OperationsComeBackExactly` | chitchat/src/delta.rs:27-46 | a built delta spells out its own operations exactly when none follows a maxVersion within a node |
| `Deltas.DeltaComesBackExactly` | chitchat/src/delta.rs:27-46 | a delta comes back from its own operations exactly when it is well formed |
| `DeltaWire.DeltaSerializer.TryAddOp` | chitchat/src/delta.rs:387-394 | an operation is taken exactly when the predicted length is within the MTU and it is shorter than 2^16 bytes; if it fits and is longer, `append` panics; a refused one changes nothing |
| `DeltaWire.DeltaSerializer.Finish` | chitchat/src/delta.rs:420-423 | the delta built from the accepted operations, with the length of the finished payload: within the MTU if they are at most a block, and at most 9 bytes over it in any case |
| `DeltaWire.AcceptedStaysWithin` | chitchat/src/delta.rs:387-394 | one accepted operation of at most a block keeps the finished length within its bound |
| `DeltaWire.LongOperationStaysWithin` | chitchat/src/delta.rs:387-394 | one accepted operation below 2^16 bytes exceeds its bound by at most 9 bytes |
| `DeltaWire.StaysWithinMtu` | chitchat/src/delta.rs:371-423 | any sequence of accepted and refused operations finishes within the MTU if each is at most a block, and at most 9 bytes over it in any case; up to an MTU of a block no longer one is accepted |
| `DeltaWire.AcceptedIsOneBlock` | chitchat/src/delta.rs:371-394 | with an MTU of at most a block, all that is accepted fits a single block with its framing |
| `DeltaWire.ThresholdsAgree` | chitchat/src/delta.rs:177-191 | for every MTU, whatever was accepted makes the same payload in blocks of min(16384, MTU) and of 16384 bytes |
| `DeltaWire.SerializeDelta` | chitchat/src/delta.rs:177-191 | serializing a delta writes the stream of its operations |
| `DeltaWire.DeserializeDelta` | chitchat/src/delta.rs:193-204 | parsing computes the delta, the bytes it took and what is left |
| `DeltaWire.DeltaRoundTrip` | chitchat/src/delta.rs:177-204 | for every MTU, serializing a delta built from accepted operations gives the serializer's own bytes, so the length assertion holds, and parsing returns an equal delta, leaving what follows |
| `PartialDeltas.BuilderNeverRefuses` | chitchat/src/delta.rs:387-394 | the assertion that the builder takes an accepted operation never fires while a delta is computed |
| `PartialDeltas.SortedStaleKeyValues` | chitchat/src/state.rs:771-778 | the entries newer than the floor, by version |
| `PartialDeltas.ComputePartialDelta` | chitchat/src/state.rs:589-660 | for every MTU of at least 100 (as asserted): the computed delta is the complete one, by staleness, cut at the first operation that does not fit, gap-free, within the MTU if its operations are at most a block and 9 bytes over it at most; there is none exactly if the first operation that cannot be taken is too long for `append`, which panics |
| `PartialDeltas.StopIsUnique` | chitchat/src/state.rs:589-660 | operations are taken up to one place only, which decides whether `append` panics |
| `PartialDeltas.PartialDeltasAreGapFree` | chitchat/src/state.rs:589-660 | nodes not scheduled for deletion by non-increasing staleness; each node an initial segment by version; only the last can be cut; nothing refused means nothing left out |
| `PartialDeltas.PartialDeltasTakeTheStalest` | chitchat/src/state.rs:662-700 | the nodes of a delta, and these before all with news that are left out: first those sent from the start, by lowest maxVersion; then those with the most entries newer than their start |
| `PartialDeltas.StaleCount` | chitchat/src/state.rs:729-745 | the number of stale entries is the length of their sort |
| `PartialDeltas.PartialDeltaRoundTrip` | chitchat/src/delta.rs:177-204 | a computed delta survives the wire with the announced length, for every MTU |
| `MessageLimits.ReplyDelta` | chitchat/src/lib.rs:153-173 | the delta of a reply, or a panic: where the limit less the digest underflows (with overflow checks; otherwise it wraps around), is below 100, or where an operation is too long for `append` |
| `MessageLimits.RepliesNearlyKeepTheLimit` | chitchat/src/lib.rs:153-173 | a reply exceeds the datagram limit by at most 3 bytes if its operations are at most a block, and by at most 12 in any case |
| `MessageLimits.PlainBoundIsExact` | chitchat/src/serialize.rs:324-338 | where nothing compresses the predictor is exact for an operation of at most a block |
| `MessageLimits.PlainLengths` | chitchat/src/serialize.rs:341-391 | three in every 16387 lengths are those of no stream that does not compress |
| `MessageLimits.LengthIsReached` | chitchat/src/state.rs:589-660 | for every other MTU some cluster state has a delta of exactly that length |
| `MessageLimits.LimitIsExceededExactly` | chitchat/src/lib.rs:153-173 | for which limits and lengths of a digest, taken as given, some delta that does not compress makes a reply exactly 3 bytes too long: all but those three in every 16387 |
| `MessageLimits.AppendPanicsExactly` | chitchat/src/serialize.rs:341-343 | whatever the compressor, some cluster state makes `append` panic in the computation of a delta exactly with an MTU of 65543 or more |
| `MessageLimits.LongValuePanicsExactly` | chitchat/src/serialize.rs:341-343 | for any node with a single entry, of which the peer knows nothing, and a header of at most a block: `append` panics exactly if the operation of the entry has 65536 bytes or more and fits with the header and 7 bytes |
| `ClusterStates.ClusterState.constructor` | chitchat/src/state.rs:531-533 | a new cluster state knows no node |
| `ClusterStates.ClusterState.NodeStateMut` | chitchat/src/state.rs:535-542 | the state of a node, empty if it was unknown; no other changes |
| `ClusterStates.ClusterState.TrySetHeartbeat` | chitchat/src/lib.rs:191-199 | the heartbeat of one node; no other node changes |
| `ClusterStates.ClusterState.IncHeartbeat` | chitchat/src/lib.rs:351-353 | the node's own heartbeat goes up by one |
| `ClusterStates.ClusterState.Write` | chitchat/src/state.rs:306-382 | an owner write to one node state; no other changes |
| `ClusterStates.ClusterState.ApplyNodeDelta` | chitchat/src/state.rs:560-567 | one node delta is applied to its node; no other changes |
| `ClusterStates.ClusterState.Apply` | chitchat/src/state.rs:560-567 | the node deltas are applied in order |
| `ClusterStates.ClusterState.RemoveNode` | chitchat/src/state.rs:556-558 | exactly that node is forgotten |
| `ClusterStates.ClusterState.GcKeysMarkedForDeletion` | chitchat/src/state.rs:580-584 | every node state is collected |
| `ClusterStates.ClusterState.ComputeDigest` | chitchat/src/state.rs:569-578 | the heartbeat, lastGcVersion and maxVersion of exactly the nodes not scheduled for deletion |
| `ClusterStates.EachNodeGetsItsDelta` | chitchat/src/state.rs:560-567 | if the nodes of a delta are distinct each gets its own node delta and no other node changes |
| `ClusterStates.DeltasKeepVersionsOk` | chitchat/src/state.rs:560-567 | no parsed delta breaks what the computation of deltas relies on |
| `SamplingWindows.RingStep` | chitchat/src/failure_detector.rs:276-288 | writing at the index of a ring appends a value and drops the oldest if the ring is full |
| `SamplingWindows.LastNOfAppend` | chitchat/src/failure_detector.rs:276-288 | the last n values after an append |
| `SamplingWindows.BoundedArrayStats.WithCapacity` | chitchat/src/failure_detector.rs:261-268 | a new ring has no history |
| `SamplingWindows.BoundedArrayStats.Append` | chitchat/src/failure_detector.rs:276-288 | the ring holds the last `capacity` values since the last clear, and their exact sum |
| `SamplingWindows.BoundedArrayStats.Clear` | chitchat/src/failure_detector.rs:290-294 | the history starts over |
| `SamplingWindows.BoundedArrayStats.Len` | chitchat/src/failure_detector.rs:296-301 | the length of that window |
| `SamplingWindows.BoundedArrayStats.SumOfValues` | chitchat/src/failure_detector.rs:271-273 | its sum |
| `SamplingWindows.SamplingWindow.constructor` | chitchat/src/failure_detector.rs:201-210 | no samples |
| `SamplingWindows.SamplingWindow.ReportHeartbeat` | chitchat/src/failure_detector.rs:213-227 | an interval no longer than the maximum is recorded; the heartbeat always |
| `SamplingWindows.SamplingWindow.Reset` | chitchat/src/failure_detector.rs:229-231 | the intervals are forgotten, the last heartbeat is kept |
| `SamplingWindows.SamplingWindow.PhiAt` | chitchat/src/failure_detector.rs:235-245 | elapsed time over the smoothed mean; nothing without an interval or a heartbeat; never a division by 0 |
| `SamplingWindows.MeanBounds` | chitchat/src/failure_detector.rs:177-181 | the smoothed mean is positive and between 5·initial/(window+5) and the larger configured interval |
| `SamplingWindows.SilenceIsDetected` | chitchat/src/failure_detector.rs:56-75 | silence longer than threshold × larger interval is found dead |
| `SamplingWindows.RecentHeartbeatIsAlive` | chitchat/src/failure_detector.rs:56-75 | a heartbeat within threshold × 5·initial/(window+5) is found alive |
| `Suspicions.JudgedByIntervals` | chitchat/src/failure_detector.rs:177-181 | if the n intervals in the window lie between lo and hi, a check finds the node dead after a silence above threshold*(n*hi+5*initial)/(n+5), and alive up to threshold*(n*lo+5*initial)/(n+5) |
| `Suspicions.DeadWithoutIntervals` | chitchat/src/failure_detector.rs:235-245 | without an interval or a heartbeat a check finds the node dead |
| `Suspicions.DeadAreDatedAndForgotten` | chitchat/src/failure_detector.rs:56-75 | a check that finds a node dead dates its death, unless it was dead, and forgets its intervals, not its last heartbeat; no other node is concerned |
| `Suspicions.AliveAreRemembered` | chitchat/src/failure_detector.rs:56-75 | a check that finds a node alive leaves all samples as they are |
| `Suspicions.CollectionForgetsExactly` | chitchat/src/failure_detector.rs:78-91 | a collection forgets exactly the nodes that have been dead for the grace period |
| `Suspicions.IntervalsAreGaps` | chitchat/src/failure_detector.rs:213-231 | in any history the intervals are the gaps between the last heartbeats reported since they were last forgotten, as many as the window holds, but for those above the maximum |
| `Suspicions.HeartbeatsDecide` | chitchat/src/failure_detector.rs:56-75 | in any history, after heartbeats with gaps between lo and hi, a check finds the node dead or alive by the length of the silence, with these bounds |
| `Suspicions.SteadyHeartbeatsDecideExactly` | chitchat/src/failure_detector.rs:56-75 | with equal gaps: alive if and only if the silence is at most threshold*(k*gap+5*initial)/(k+5) |
| `Suspicions.OftenHeardStaysAlive` | chitchat/src/failure_detector.rs:50-75 | in any history a live node of which a heartbeat was reported soon enough before each check stays alive |
| `FailureDetectors.FailureDetector.constructor` | chitchat/src/failure_detector.rs:26-33 | no samples, no live and no dead nodes |
| `FailureDetectors.FailureDetector.GetOrCreateSamplingWindow` | chitchat/src/failure_detector.rs:36-47 | the window of a node, empty if it was unknown |
| `FailureDetectors.FailureDetector.ReportHeartbeat` | chitchat/src/failure_detector.rs:50-53 | the heartbeat is sampled for that node only |
| `FailureDetectors.FailureDetector.UpdateNodeLiveness` | chitchat/src/failure_detector.rs:56-75 | alive: live and not dead; otherwise dead since the first time, not live, intervals forgotten |
| `FailureDetectors.FailureDetector.GarbageCollect` | chitchat/src/failure_detector.rs:78-91 | removes and returns, each once, exactly the nodes dead for the whole grace period |
| `FailureDetectors.EventKeepsOrderly` | chitchat/src/failure_detector.rs:50-91 | every event keeps live and dead apart, live nodes sampled and windows within bounds |
| `FailureDetectors.DetectorsAreOrderly` | chitchat/src/failure_detector.rs:50-91 | the same over every history of events |
| `FailureDetectors.EventsMakeAHistory` | chitchat/src/failure_detector.rs:50-91 | events in order of time, from an empty detector, are such a history |
| `FailureDetectors.TimeOfDeathIsFixed` | chitchat/src/failure_detector.rs:56-91 | a dead node keeps its time of death until it comes back to life or is collected |
| `FailureDetectors.SilentNodesDie` | chitchat/src/failure_detector.rs:56-75 | in every history a check of a node silent for longer than the bound leaves it dead |
| `FailureDetectors.RecentNodesStayAlive` | chitchat/src/failure_detector.rs:56-75 | in every history a check soon enough after the last heartbeat keeps a live node alive |
| `FailureDetectors.RemovedNodesWereQuarantined` | chitchat/src/failure_detector.rs:78-116 | in every history a collected node was scheduled for deletion throughout the second half of its grace period, a positive time |
| `Chitchats.Chitchat.constructor` | chitchat/src/lib.rs:72-101 | only the own node is known, with heartbeat 1 and the initial entries |
| `Chitchats.Chitchat.CreateSyn` | chitchat/src/lib.rs:103-107 | a SYN carries the digest of all nodes but those scheduled for deletion |
| `Chitchats.Chitchat.ReportHeartbeat` | chitchat/src/lib.rs:191-199 | nothing about oneself; otherwise the heartbeat is kept, and sampled if it is news |
| `Chitchats.Chitchat.ReportHeartbeatsInDigest` | chitchat/src/lib.rs:111-115 | every heartbeat of a digest is kept; exactly the nodes with news are sampled, each once |
| `Chitchats.Chitchat.ProcessDelta` | chitchat/src/lib.rs:117-133 | the delta is applied; versions stay distinct; the catch-up callback is called exactly for a delta with a node that starts at 0 and was collected |
| `Chitchats.Chitchat.ProcessMessage` | chitchat/src/lib.rs:135-182 | for each of the four messages: the node states after it, what the detector observes, whether the catch-up callback is called, and the answer with its digest and delta, or the panic in its computation |
| `Chitchats.Chitchat.UpdateNodesLiveness` | chitchat/src/lib.rs:203-245 | every other node is checked once; the watchers are sent the live nodes that pass the extra test exactly if a live node came, went or has a new version; then exactly the nodes dead for the whole grace period are removed from detector and cluster state |
| `Chitchats.Chitchat.NotifyWatchers` | chitchat/src/lib.rs:209-239 | the live nodes with their versions are remembered, and sent exactly if they changed |
| `Chitchats.Chitchat.GcKeysMarkedForDeletion` | chitchat/src/lib.rs:184-187 | every node state is collected |
| `Chitchats.Chitchat.WriteSelf` | chitchat/src/lib.rs:255-257 | a write to the own state; no other node changes |
| `Chitchats.AckTooLongExactly` | chitchat/src/lib.rs:163-173 | for which limits some ACK that does not compress is exactly 3 bytes too long, in whatever state the message found the node: all but three in every 16387; for these, a node that has just started with some initial entries |
| `Chitchats.LongValueCrashes` | chitchat/src/lib.rs:163-173 | a node that has one entry for the peer, its operation 65536 bytes or more and fitting, and nothing else, panics on a SYN-ACK, whatever the compressor |
| `Chitchats.AnswersNearlyKeepTheLimit` | chitchat/src/lib.rs:153-173 | the digest of an answer, the limit of its delta and one byte make up the limit on messages, so it exceeds it by at most 3 bytes, or 12 with longer operations |
| `MessageLimits.NoRoomForADelta` | chitchat/src/lib.rs:153 | a digest that leaves no room panics if overflows are checked, and otherwise makes the limit 2^64 too large |
| `Chitchats.CatchesUpExactly` | chitchat/src/lib.rs:123-133 | the catch-up callback is called exactly for a delta with a node delta from the start on which a state that knows nothing would start over |
| `Chitchats.SetAllMakes` | chitchat/src/lib.rs:96-99 | what the initial entries make of the own state of a node: one entry each, in order of versions |
| `Chitchats.StartAndCrash` | chitchat/src/lib.rs:72-173 | a node started with one such initial entry panics on the first SYN-ACK of a peer that knows nothing of it |
| `Handshakes.WholeReplyConverges` | chitchat/src/lib.rs:146-176 | a reply by the owner that leaves nothing out brings its receiver to agree with it |
| `Handshakes.HandshakeConverges` | chitchat/src/lib.rs:135-182 | after SYN, SYN-ACK and ACK that leave nothing out, each node agrees with the other about the other's own entries |
| `Handshakes.RemovedNodesWereNotGossiped` | chitchat/src/state.rs:569-600 | no digest or delta drawn in the second half of the grace period of a removed node mentions it |
| `Rounds.FirstOperationExactly` | chitchat/src/state.rs:589-660 | a computed delta carries an operation of the stalest node exactly if the header of that node and the first of its operations fit |
| `Rounds.RoomSuffices` | chitchat/src/state.rs:589-660 | they fit, whatever the compressor, if header, entry and 7 bytes are within the MTU, the header is at most a block and the entry below 2^16 bytes |
| `Rounds.OnlyNewsIsFirst` | chitchat/src/state.rs:589-610 | if a peer has news of one node only, that node is the stalest |
| `Rounds.RoundIsExchange` | chitchat/src/lib.rs:135-182 | a question and its answer (SYN and SYN-ACK, or SYN-ACK and ACK) exchange at least one operation about the stalest node, if there is one and room for it |
| `Rounds.RoundsConverge` | chitchat/src/lib.rs:135-182 | repeated handshakes: with one round more than it has stale entries, a faithful copy that can catch up agrees with its owner, if that holds no tombstone at or below its lastGcVersion, does not write or collect meanwhile, is the stalest node in each answer, and each answer has room for one operation |
| `Quarantines.NamedIsKnown` | chitchat/src/state.rs:569-600 | a message names only nodes that its sender knows and has not scheduled for deletion |
| `Quarantines.NamedEarly` | chitchat/src/failure_detector.rs:78-116 | before it removes a node, a process names it in the first half of the grace period at most |
| `Quarantines.NobodyLearnsAgain` | chitchat/src/failure_detector.rs:78-116 | if all processes notice the death of a node within half the grace period less the delay of messages, no message that names it arrives after its receiver removed it, in whatever order messages are sent and passed on |
| `Quarantines.TogetherIsNeeded` | chitchat/src/failure_detector.rs:78-116 | for two times of death any further apart there is a cluster in which a process learns of the node again after removing it |
| `Heartbeats.HeartbeatsArrive` | chitchat/src/lib.rs:111-115 | after a SYN or SYN-ACK whose digest was drawn from `views`, the heartbeat of every other node in it is the greater of what it was and that in `views`; or 0, if the delta that came with it made the state of the node start over |
| `Heartbeats.HeartbeatsAreReported` | chitchat/src/lib.rs:191-199 | the detector is told of a node exactly if the heartbeat in `views` is above the one known, and that above 0 |
| `Heartbeats.DigestsAreSampledOnce` | chitchat/src/lib.rs:111-115 | the samples of each node grow by one heartbeat exactly then, and otherwise stay |
| `Heartbeats.OwnHeartbeatGoesUp` | chitchat/src/lib.rs:135-136 | a process raises its own heartbeat by one with every message |
| `Heartbeats.OtherClustersAreRefused` | chitchat/src/lib.rs:139-147 | a SYN of another cluster is answered by BAD-CLUSTER and changes nothing but the own heartbeat |
| `Heartbeats.LooksJudgeEveryone` | chitchat/src/lib.rs:203-245 | every other known node is judged by what was known before, and removed exactly if it is dead then and has been for the grace period |
| `Heartbeats.WatchedExactly` | chitchat/src/lib.rs:209-239 | the watchers' nodes are the node itself and those found alive, with their versions; they are sent those that pass the extra test |
| `Heartbeats.WatchersHearOfChanges` | chitchat/src/lib.rs:219-239 | they hear exactly of nodes that come, go, or have a new version |
| `Heartbeats.OftenGossipedNeverDie` | chitchat/src/lib.rs:103-245 | over any run of messages and liveness checks, a live node of which a digest brought a higher heartbeat soon enough before each check stays alive and known |
| `Pkcs12.CycleIsCopies` | transport-layer/src/msquic/pkcs12.rs:360-362 | cycling an input and taking a multiple of the block size makes the copies of the definition, nothing for an empty input |
| `Pkcs12.CarryStep` | transport-layer/src/msquic/pkcs12.rs:371-383 | one step of the carry loop keeps partial sum and carry exact as numbers |
| `Pkcs12.CompleteBlock` | transport-layer/src/msquic/pkcs12.rs:371-383 | 64 steps, the carry started at 1, make (I_j + B + 1) mod 2^512 |
| `Pkcs12.AddToBlocks` | transport-layer/src/msquic/pkcs12.rs:369-383 | the reversed carry loop over the whole array sets every 64-byte block to (I_j + B + 1) mod 2^512, in place |
| `Pkcs12.ToBeOfFromBe` | transport-layer/src/msquic/pkcs12.rs:371-383 | a big-endian number of a given width is its octets |
| `Pkcs12.Core` | transport-layer/src/msquic/pkcs12.rs:341-348 | the hash applied `iterations` times to D and I; the result is also appended to A |
| `Pkcs12.EnoughRounds` | transport-layer/src/msquic/pkcs12.rs:363-386 | c rounds give at least `size` octets |
| `Pkcs12.HashTimesAdds` | transport-layer/src/msquic/pkcs12.rs:341-348 | applying the hash q + r times is applying it r times, then q times |
| `Pkcs12.KeyOctets` | transport-layer/src/msquic/pkcs12.rs:351-387 | the key octet by octet: which output each comes from, what each round hashes, how the input is filled from salt and password, and that every block of it grows by the repeated output and 1, modulo 2^512 |
| `Pkcs12.DeriveKey` | transport-layer/src/msquic/pkcs12.rs:351-387 | for every password, salt, id, iteration count and size: the key of section B.2 (Appendix B) of RFC 7292, of exactly `size` octets |
| `RecvStreams.StreamRecvBuffer.constructor` | transport-layer/src/msquic/msquic_async/buffer.rs:27-49 | the length is the sum of the parts; nothing is read |
| `RecvStreams.StreamRecvBuffer.Len` | transport-layer/src/msquic/msquic_async/buffer.rs:62-69 | what remains to be read |
| `RecvStreams.StreamRecvBuffer.GetBytesUptoSize` | transport-layer/src/msquic/msquic_async/buffer.rs:89-107 | the rest of the present part, up to the size; what remains follows it; none exactly past the last part |
| `RecvStreams.StreamRecvBuffer.Advance` | transport-layer/src/msquic/msquic_async/buffer.rs:129-145 | what remains loses exactly `count` bytes, across parts of any length |
| `RecvStreams.InsertKeepsCoalesced` | transport-layer/src/msquic/msquic_async/stream.rs:803-805 | the set of completed ranges stays sorted, disjoint and coalesced |
| `RecvStreams.InsertCovers` | transport-layer/src/msquic/msquic_async/stream.rs:803-805 | inserting a range covers exactly its bytes in addition |
| `RecvStreams.PrefixEndIsLongest` | transport-layer/src/msquic/msquic_async/stream.rs:806-817 | the end of the first range, if it starts at 0, is the length of the longest completed prefix |
| `RecvStreams.DropAcknowledges` | transport-layer/src/msquic/msquic_async/stream.rs:793-837 | a dropped buffer acknowledges exactly the growth of that prefix; exactly when 0 is passed for an empty last buffer |
| `RecvStreams.TotalIsTheLongestPrefix` | transport-layer/src/msquic/msquic_async/stream.rs:793-837 | whatever buffers are dropped in whatever order, the total acknowledged is the length of the longest prefix of dropped bytes |
| `RecvStreams.OrderDoesNotMatter` | transport-layer/src/msquic/msquic_async/stream.rs:793-837 | two orders of dropping the same buffers acknowledge the same total |
| `RecvStreams.StreamInstance.constructor` | transport-layer/src/msquic/msquic_async/stream.rs:920-938 | nothing received, nothing acknowledged |
| `RecvStreams.StreamInstance.HandleEventReceive` | transport-layer/src/msquic/msquic_async/stream.rs:978-1005 | what is delivered is queued behind what there is |
| `RecvStreams.StreamInstance.ReadComplete` | transport-layer/src/msquic/msquic_async/stream.rs:793-837 | the update of ranges and cursor, and the number passed to the transport |
| `RecvStreams.StreamInstance.Fill` | transport-layer/src/msquic/msquic_async/stream.rs:400-434 | a read copies the pending bytes in order into the front of the buffer and leaves the rest of it alone; the buffers it emptied are taken off the queue; which of the three statuses it returns |
| `RecvStreams.StreamInstance.PollRead` | transport-layer/src/msquic/msquic_async/stream.rs:400-514 | in each of the five states: nothing to read yet, closed, reset, lost or over; otherwise the bytes copied, the answer and the state after it, with the emptied buffers, and no others, acknowledged |
| `Licences.MaxOfGroupsIsMaximum` | igniter/src/utils.rs:29-41 | the first pass finds the newest timestamp of every licence, and of no other |
| `Licences.FindNewest` | igniter/src/utils.rs:29-41 | the nested loops compute that map |
| `Licences.RetainNewest` | igniter/src/utils.rs:44-58 | a list keeps its newest items, in order, and the others are reported under its key |
| `Licences.RetainFirst` | igniter/src/utils.rs:62-72 | a list keeps the first item of each licence |
| `Licences.RemoveWithOutdatedTimestamps` | igniter/src/utils.rs:25-77 | the passes together; lists left empty are dropped |
| `Licences.ItemsAreConserved` | igniter/src/utils.rs:25-77 | each item is exactly one of kept, outdated, or a repeat within its list, counted with multiplicity |
| `Licences.OutdatedAreReported` | igniter/src/utils.rs:43-58 | the revocations are the outdated items, each once, in order |
| `Licences.RevokedExactly` | igniter/src/utils.rs:43-58 | a revocation is reported exactly for the items below the newest timestamp of their licence, under their list's key |
| `Licences.KeptAreNewest` | igniter/src/utils.rs:43-75 | whatever is kept is newest among all lists and once in its own; no list is empty |
| `Licences.NewestSurvive` | igniter/src/utils.rs:43-75 | every licence survives at its newest timestamp in every list that holds it there |
| `Licences.SecondRunChangesNothing` | igniter/src/utils.rs:25-77 | a second run changes nothing and revokes nothing |
| `Listeners.LeqExactly` | chitchat/src/state.rs:266-276 | the order of keys: a prefix first, otherwise by the first byte that differs |
| `Listeners.PrefixesComeFirst` | chitchat/src/listener.rs:108-110 | a prefix of a key does not come after it in byte order |
| `Listeners.PrefixedKeysAreContiguous` | chitchat/src/state.rs:266-276 | between a prefix and a key that has it there are only keys that have it |
| `Listeners.RangeHasThePrefixes` | chitchat/src/listener.rs:108-110 | every non-empty prefix of a key lies between its first byte and the key |
| `Listeners.InnerListeners.constructor` | chitchat/src/listener.rs:74-80 | no listeners |
| `Listeners.InnerListeners.SubscribeEvent` | chitchat/src/listener.rs:57-93 | the listener is added under a number no other has |
| `Listeners.InnerListeners.RemoveListener` | chitchat/src/listener.rs:122-126 | exactly that listener is removed |
| `Listeners.InnerListeners.TriggerEvent` | chitchat/src/listener.rs:95-120 | each listener is called exactly once if its prefix is a prefix of the key, with the key stripped of it, shorter prefixes first, and not otherwise; a panic exactly for a key whose first character is not ASCII |
| `Listeners.IterPrefix` | chitchat/src/state.rs:266-276 | exactly the entries under the prefix that are not deleted, in order of their keys |

## Left out

- Versions, heartbeats, timestamps and lengths are unbounded numbers; wrap-around of u64 counters is not modelled.  Where the code
  truncates (string and block lengths, operation lengths) the model does.
- Durations, heartbeat intervals and phi are exact reals; rounding of f64 and f32 is not modelled.  Every call takes the present
  time once, as a parameter, where the code may ask the clock several times.
- Strings are sequences of octets; that they are valid UTF-8 is not modelled.
- zstd and SHA-1 are parameters: a compressor may fail, its output is no longer than the input and decompression inverts it (`NO_GAIN`
  shows that this is consistent); the hash yields 20 octets.
- Digests and messages travel as values; their own bytes (digest.rs, message.rs) are left out, and the length of a digest is
  a parameter of `Chitchat`.
- PartialDeltas.ComputePartialDelta: works on the values of the node states, and asks for an MTU of at least 100, as `with_mtu` asserts;
  `MessageLimits.ReplyDelta` makes a smaller one a panic.
- Streams.CompressedStreamWriter.Append: asks for a threshold above 0, as do the other methods; with 0 the flush loop of the code would not end.
- DeltaWire.DeltaSerializer.TryAddOp: that the builder takes an accepted operation, which the code asserts, is asked of the caller;
  `PartialDeltas.BuilderNeverRefuses` shows that the computation of deltas meets it.
- DeltaWire.SerializeDelta: asks for operations below 2^16 bytes, as `append` asserts; computed deltas have no others.
- Chitchats.Chitchat.ProcessMessage: asks that the deltas in messages are well formed, as `Deltas.BuildIsWellFormed` proves of parsed ones.
- Rounds.RoundsConverge: an entry that does not fit the MTU together with its header blocks those after it for good
  (`Rounds.FirstOperationExactly`); nodes that are staler come first.
- FailureDetectors.FailureDetector.UpdateNodeLiveness: asks that the samples are those of a reachable detector, which `DetectorsAreOrderly` proves;
  detectors can be constructed with, but are not used with, a zero window, initial interval or grace period.
- NodeStates.NodeState.SetVersionedValue: announces the call of the listeners; `Listeners` models the call itself.
- `Runs` leaves out heartbeats and `set_last_gc_version`, `set_max_version` and `reset_node_state`, by which a caller can set any version;
  it keeps node states as values, one per process and node.
- RecvStreams.StreamInstance.PollRead: wakers, locks and the changes of state from outside are left out, as is `read_chunk`, which
  hands the front buffer to the caller.
- `rangemap::RangeSet` is modelled by a coalesced sequence of ranges.
- Sockets, tasks, peer selection, configuration, REST routes, signatures and the DER writer of `pkcs12.rs`.
