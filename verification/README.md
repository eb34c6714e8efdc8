# DAGOAT core: a verified model

This project models the deploy spine of the DAGOAT network in Dafny and proves what it is for. The
spine is a sealed, allocation-free protocol: executors are drawn by lottery, disputes between them are
adjudicated, faults are collected per epoch and penalised; gossip travels in signed canonical frames
over an encrypted channel, cut into datagrams and put together again; device classes earn less
sampling by holding their numbers window after window.

Every theorem is for all inputs, all runs or all reachable states. Randomness is a stream of draws that
every statement quantifies over. Hashes, signatures, the cookie MAC and the cipher are function-valued
parameters; a statement that needs one of them to be ideal says so in its precondition. The receipt
slice of the attribution fold is at most 2^64 - 1 long, as a Rust slice is.

`dafny verify dfyconfig.toml` checks everything.

## The modules

| files | what they cover |
|---|---|
| `Isqrt`, `FisherYates`, `FaultMarket`, `ReservoirFairness`, `LateRepeats`, `EpochPenalties`, `FairLaneDraw`, `Lottery`, `Disputes` | the epoch fault market: reservoir and its fairness, stake lane, fair lane and its fairness, accounting; the executor lottery; three-receipt disputes and who pays |
| `Bitset`, `Framing`, `Reassembly`, `RoundTrip`, `FramingMethods` | chunking and the quota-bounded, expiring reassembly table under any arrival schedule |
| `Apportionment`, `AttributionFold` | largest-remainder weights and the verified attribution fold |
| `Endian`, `Wire`, `Records`, `GossipCodec`, `Sink`, `Preimages`, `Layouts` | canonical encoding, its bytes field by field, its inverse decoder, buffer bounds, context-bound signing preimages |
| `Windows`, `NetworkClock`, `CookieEcho`, `CookieRing` | the median clock, single-use cookies and the ring that remembers them |
| `MessageWindow`, `MessageRing`, `GossipGate` | the per-identity duplicate cache and the verify-before-forward gate |
| `SecureChannel` | the lockstep AEAD channel between two endpoints over a network that may deliver anything |
| `Agreement` | token agreement by longest common subsequence |
| `Ratchet`, `Coverage`, `AccumulatorRoot`, `Maturity` | the maturity ratchet, the receipt fold and gate, postings and their verifier |
| `Machine`, `Sorting` | machine integers, sorting and counting used by the others |

Code that updates state in place (the caches, the clock, the market, the reassembly table, the sink, the
channel, the controller) is a class whose methods are proved equal to a step function on values; the
run-level theorems are about that function.

## Where the code and its documentation part ways

- `FaultMarket::insert` looks for repeats only among the retained ids, so `seen` can count a node twice.
  `FaultMarket.CountIsExactIff` gives the exact condition and `FaultMarket.RecountExample` an input. For
  the same reason the equal chance of retention the market promises can be lost. `LateRepeats.FairThroughoutIff`
  says exactly when it holds: if and only if no node is named again after more than 2048 distinct ones.
  `LateRepeats.LateRepeatIsFavoured` says who gains, and `LateRepeats.LateRepeatExample` is an input.
- Largest-remainder weights do not always sum to 10 000: the total saturates at `u64::MAX`.
  `Apportionment.WeightsSumIff` gives the exact condition and `Apportionment.SaturationExample` an input.
- A datagram of at most 1200 bytes is not escaped, so one that starts with the chunk tag is taken for a
  chunk. `RoundTrip.SmallDatagramsArriveIff` gives the exact condition for its delivery from any table:
  not tagged, or the missing chunk 0 of itself, for which `RoundTrip.PeriodicExample` is an input.
- `NetworkClock::offset` is described as a lower median; for even counts it takes the upper one.
  `NetworkClock.MedianAtMostIff` and `NetworkClock.MedianAtLeastIff` say exactly what it takes.
- Adding a cohort merge group can turn a failing gate into a passing one when groups overlap, because the
  last group naming a cluster overrides its representative. `Coverage.NeverLoosensIff` gives the exact
  condition on the group, `Coverage.OverlapExample` an input, and `Coverage.DisjointGroupsTightenGate`
  the case of disjoint groups, where the property always holds.
- `encrypt_frame` calls the cipher before it finds the counter exhausted. Frames that are returned never
  share a nonce (`SecureChannel.NoncesNeverRepeat`); inside the cipher a nonce repeats exactly when one end
  is told twice that its counter is exhausted (`SecureChannel.CipherNoncesDistinctIff`, reached by
  `SecureChannel.ExhaustionRun`), and the frame is then already in the caller's buffer.
- The tolerance in `verify_posting` adds up: an unflagged claim can lie below the sampling floor, by one
  epsilon per window and no more (`Maturity.UndetectedKeepsFloor`, `Maturity.DriftIsReached`).
- An anomaly burst during PROBATION does not stop a promotion: `evaluate_transition` applies a forced snap
  only to RELAX and MATURE. So three held windows can be enough (`Ratchet.BurstExample`);
  `Ratchet.AdvanceIsHeldIff` says when an advance is not held and `Ratchet.MaturityTakesHeldWindows` what
  then remains of the bound.

## Model

| member | source | states |
|---|---|---|
| `Isqrt.ISqrtU64` | src/state.rs:427-444 | the bit-by-bit loop returns the r with r² ≤ n < (r+1)² for every u64, every intermediate value staying within 64 bits |
| `Isqrt.SqrtUnique` | src/state.rs:427-444 | there is only one such r |
| `Isqrt.SqrtMonotone` | src/state.rs:427-444 | a larger stake never has a smaller root, so ranking by root never reverses ranking by stake |
| `FisherYates.ShufflePermutes` | src/state.rs:489-499 | the shuffled slice is a permutation of its input |
| `FisherYates.ShuffleKeepsPrefix` | src/state.rs:489-499 | what lies before the shuffled part is untouched |
| `FisherYates.FrontDeterminesChoice` | src/state.rs:489-499 | on distinct entries two different draw vectors give different ordered fronts |
| `FisherYates.EveryFrontArises` | src/state.rs:489-499 | every ordered choice of k elements is the front of some draw vector |
| `FisherYates.FrontsAndChoicesCorrespond` | src/state.rs:489-499 | so every ordered front arises from exactly one draw vector |
| `FisherYates.DrawsAreChoice` | src/state.rs:414-423 | reducing any stream of 64-bit draws modulo the remaining length makes one of those choices |
| `FisherYates.ChoiceIsDrawn` | src/state.rs:414-423 | and every choice is made by some stream of draws |
| `FisherYates.SampleFirst` | src/state.rs:489-499 | the first place goes to the element drawn first |
| `FisherYates.ShuffleFront` | src/state.rs:489-499 | the in-place loop on an array computes the sample |
| `FaultMarket.ReservoirRetains` | src/state.rs:449-487 | for every fault list, stakes and draws the market retains exactly min(d, 2048) distinct named ids with their stakes, keeps all d and counts exactly d while they fit, and never counts fewer than d |
| `FaultMarket.DrawsBeyondSeenAreUnused` | src/state.rs:468-487 | the market depends only on the draws numbered below its own count |
| `FaultMarket.CanBeShed` | src/state.rs:468-487 | once overflowed, some draws have shed any given node or counted one twice |
| `FaultMarket.CountIsExactIff` | src/state.rs:468-487 | `seen` is the number of distinct faulted nodes for all draws if and only if no id is named again after more than 2048 distinct ones |
| `FaultMarket.RecountExample` | src/state.rs:468-487 | a fault list and draws for which a node is counted twice |
| `FaultMarket.CanBeRetained` | src/state.rs:468-487 | whatever the flood, some draws leave a given named node in the market |
| `ReservoirFairness.VectorsListEachOnce` | src/state.rs:477-486 | the list of draw vectors counted over holds every vector exactly once |
| `ReservoirFairness.DeduplicatesIff` | src/state.rs:465-486 | repeating faults leaves the same market as naming each once, for all draws, if and only if no node is named again after more than 2048 distinct ones |
| `ReservoirFairness.ReservoirIsFair` | src/state.rs:446-487 | with d ≥ 2048 distinct nodes and no such late repeat, the draw vectors that keep a given node, times d, are 2048 times all draw vectors: the same share for every node, whatever its stake or position |
| `LateRepeats.LateRepeatIsFavoured` | src/state.rs:465-486 | for every list of more than 2048 distinct nodes, naming any of them again makes strictly more draw vectors keep it than keep any other node |
| `LateRepeats.FairThroughoutIff` | src/state.rs:446-487 | after every fault of the epoch all named nodes are kept by equally many draw vectors, if and only if no node is named again after more than 2048 distinct ones |
| `LateRepeats.LateRepeatExample` | src/state.rs:465-486 | with 2048 nodes, one newcomer and an immediate repeat, the repeated node is kept by exactly 2049 more draw vectors than another |
| `FaultMarket.FaultMarketState.constructor` | src/state.rs:455-463 | a new market is empty |
| `FaultMarket.FaultMarketState.Insert` | src/state.rs:468-487 | the imperative insert performs the reservoir step |
| `EpochPenalties.PenaltiesAccountForFaults` | src/state.rs:520-592 | exactly min(d, 1024) distinct faulted ids are penalised, all of them when d ≤ 1024; penalties plus dropped faults is at least d, with equality when d ≤ 2048 |
| `EpochPenalties.StakeLaneIsTop` | src/state.rs:549-574 | nothing retained outside the stake lane outranks anything inside it by (root of stake descending, id ascending) |
| `EpochPenalties.StakeLaneIsTopOfFaults` | src/state.rs:549-574 | while d ≤ 2048 the first min(d, 512) penalised outrank every other faulted node |
| `EpochPenalties.StakeLaneIgnoresOrderAndDraws` | src/state.rs:549-574 | while d ≤ 2048 the stake lane depends only on who is faulted and what they stake, not on draws, order or repetition |
| `EpochPenalties.CanBeDrawn` | src/state.rs:570-574 | every ranked candidate is in the stake lane or can be drawn into the fair lane |
| `FairLaneDraw.FairLaneIsChoice` | src/state.rs:489-499 | the fair lane is the front of one choice vector over the ranked entries after the stake lane, and of no other |
| `FairLaneDraw.EveryFairLaneArises` | src/state.rs:570-574 | every ordered list of distinct entries outside the stake lane, as long as the fair lane is, is the fair lane for some draws |
| `FairLaneDraw.ChoicesListEachOnce` | src/state.rs:489-499 | the enumeration the counts are taken over lists every choice vector exactly once and nothing else |
| `FairLaneDraw.FairLaneIsFair` | src/state.rs:489-574 | stake-blind: whatever its rank or stake, an entry outside the stake lane is penalised by the share k/n of the choice vectors, k the fair lane's length and n the number of such entries |
| `EpochPenalties.EveryFaultCanBePenalised` | src/state.rs:520-592 | no amount of stake or flooding makes a faulted node unpenalisable |
| `EpochPenalties.InsertAll` | src/state.rs:526-542 | inserting the nodes of one outcome continues the collected market |
| `EpochPenalties.CollectFaults` | src/state.rs:525-542 | the loop over outcomes collects exactly the faults they name |
| `EpochPenalties.LaneFloor` | src/state.rs:556-568 | the reported floor is the least stake in the stake lane |
| `EpochPenalties.DrawFairLane` | src/state.rs:570-572 | the fair lane is the partial shuffle of the remainder, the stake lane untouched |
| `EpochPenalties.Penalties` | src/state.rs:574-583 | one downgrade and one slash unit per selected entry, in order |
| `EpochPenalties.ApplyEpochPenalties` | src/state.rs:520-592 | the whole ratchet: who is penalised, the lane sizes, the dropped count, the stake lane on top of all faulted nodes while d ≤ 2048, and the advisory floor raised exactly when d > 1024 |
| `Lottery.DeriveAuthorizationSet` | src/state.rs:290-325 | the executors are the first min(16, n) distinct nodes of the draw stream in draw order, or all distinct nodes of the 1024 draws allowed |
| `Lottery.FirstDrawsUnique` | src/state.rs:290-325 | that describes one list only: the lottery is a function of registry and beacon |
| `Disputes.ThreeExecutors` | src/state.rs:188-241 | the results of a decided dispute come from three different nodes, for one work item, each with a signature that verifies over its attestation's preimage under its own key |
| `Disputes.DecidedIff` | src/state.rs:188-241 | a record is decided exactly when its receipts are about one work item of its class, from three nodes, each signed by its own key; otherwise the first failing condition is named |
| `Disputes.FaultedIffAlone` | src/state.rs:188-274 | a decided dispute faults exactly the executors whose commitment nobody else shares; it is unanimous exactly when all three share one, which it names, and has a majority exactly when two and not three do, whose commitment it names |
| `Disputes.FaultedInEpochIff` | src/state.rs:221-274 | over an epoch the faulted nodes are exactly those that stood alone in some decided dispute |
| `Disputes.OnlyTheLonelyPay` | src/state.rs:188-592 | end to end: a node whose result was shared in every decided dispute is never penalised; with at most 1024 nodes at fault, penalised if and only if alone |
| `Bitset.HasSetBit` | src/bin/datagram_framing.rs:227-232 | setting bit i adds exactly i to the received set |
| `Bitset.FullMask` | src/bin/datagram_framing.rs:234-238 | the received set equals the full mask if and only if it has every index below the count |
| `Framing.StoreSlot` | src/bin/datagram_framing.rs:227-232 | storing chunk i fills slot i and leaves every other slot alone |
| `Framing.SlotsDetermine` | src/bin/datagram_framing.rs:68-95 | a message is determined by its slots |
| `Framing.ReadFrame` | src/bin/datagram_framing.rs:68-95 | reading a frame's header gives back the chunk it was made from |
| `Framing.FrameRead` | src/bin/datagram_framing.rs:161-172 | every tagged datagram with a whole header is the frame of what is read from it |
| `Framing.ParseFrame` | src/bin/datagram_framing.rs:161-199 | every frame the fragmenter makes passes the header checks |
| `Framing.AcceptsExactlyFrames` | src/bin/datagram_framing.rs:161-199 | the header checks accept exactly the frames of messages: the parser's domain is the printer's image |
| `Framing.RejectionReasons` | src/bin/datagram_framing.rs:161-199 | the exact condition on the header fields and the payload length for each refusal |
| `Framing.DeadGuards` | src/bin/datagram_framing.rs:178-195 | no fragments, more than 32 fragments and a start beyond the end never occur once the earlier checks passed |
| `Reassembly.ReceiveAddsChunk` | src/bin/datagram_framing.rs:227-232 | a repeated index changes nothing, a new one adds its payload |
| `Reassembly.FullMeansAll` | src/bin/datagram_framing.rs:234-245 | the completion test holds exactly when every index has arrived |
| `Reassembly.GcKeepsValid` | src/bin/datagram_framing.rs:142-147 | collection keeps the table's invariant |
| `Reassembly.GcLookup` | src/bin/datagram_framing.rs:142-147 | collection keeps a partial exactly while less than five seconds have passed since it was opened |
| `Reassembly.GcKeys` | src/bin/datagram_framing.rs:142-147 | collection keeps exactly the identifiers opened less than five seconds ago, and a peer exactly if it has one |
| `Reassembly.RefusedForRoomIff` | src/bin/datagram_framing.rs:201-208 | a chunk is refused for the peer quota exactly when its message is not open and two of the peer's are less than five seconds old, and for the global quota exactly when the peer has none that young and 64 other peers do |
| `Reassembly.AbandonedMakeRoom` | src/bin/datagram_framing.rs:142-235 | in every run a chunk that comes five seconds or more after its message was opened does not find it, and a peer all of whose partials are that old is never refused for room |
| `Reassembly.IngestKeepsValid` | src/bin/datagram_framing.rs:155-246 | any datagram whatever leaves at most 64 peers, at most 2 partials each, buffers of the declared length ≤ 16384, the right fragment count and a non-empty, incomplete received set below 2^count |
| `Reassembly.RunKeepsValid` | src/bin/datagram_framing.rs:142-246 | so does every run |
| `Reassembly.OthersDoNotInterfere` | src/bin/datagram_framing.rs:155-246 | a datagram that is not a chunk of a message, from any peer, leaves that message as collection found it |
| `Reassembly.PartialHoldsFirstArrivals` | src/bin/datagram_framing.rs:155-246 | in every run a partial holds exactly the first-arrived payload of each index since it was opened |
| `Reassembly.CompletedIsFirstArrivals` | src/bin/datagram_framing.rs:155-246 | a message handed up is at every index the payload that arrived there first |
| `RoundTrip.HoldsUntilComplete` | src/bin/datagram_framing.rs:155-246 | until the last index arrives the table holds exactly what has arrived |
| `RoundTrip.ReassemblyInvertsFragmentation` | src/bin/datagram_framing.rs:68-246 | for every schedule of a 1201..16384-byte message's fragments, reordered, duplicated and interleaved with any other traffic, nothing is returned until the last missing index, then exactly the original bytes |
| `RoundTrip.DeliveriesAreExact` | src/bin/datagram_framing.rs:68-246 | over any run of frames and other traffic, duplicates after completion included, the message is delivered exactly each time all its indices have arrived since its last delivery |
| `RoundTrip.LargeDatagramsArrive` | src/bin/goatd.rs:1092-1110 | fragmented and received in order, a large datagram is delivered whole at its last frame and not before |
| `RoundTrip.SmallDatagramsArriveIff` | src/bin/goatd.rs:1092-1110 | from every valid table a datagram of at most 1200 bytes is delivered unchanged if and only if its first byte is not the chunk tag, or it is chunk 0 of itself and the collected table holds just its chunk 1 |
| `RoundTrip.NothingHeldLosesTagged` | src/bin/goatd.rs:1092-1110 | while nothing of the peer is held, delivered if and only if not tagged |
| `RoundTrip.PeriodicExample` | src/bin/goatd.rs:1092-1110 | a tagged 1200-byte datagram, its own header repeated, that the table left by its chunk 1 delivers whole |
| `FramingMethods.FragmentDatagram` | src/bin/datagram_framing.rs:68-95 | the loop builds exactly the frames of the message, none when it exceeds 16384 bytes |
| `FramingMethods.ExpandedFits` | src/bin/datagram_framing.rs:98-111 | no datagram leaving the egress exceeds 1200 bytes |
| `FramingMethods.MessageIdsDiffer` | src/bin/datagram_framing.rs:98-111 | within a batch of at most 2^32 packets no two share a message id, through wrap-around |
| `FramingMethods.ExpandEgressBatch` | src/bin/datagram_framing.rs:98-111 | the loop expands every packet of the batch in order under its own id |
| `FramingMethods.ReassemblyTable.constructor` | src/bin/datagram_framing.rs:134-139 | a new table is empty |
| `FramingMethods.ReassemblyTable.Gc` | src/bin/datagram_framing.rs:142-147 | after the two nested retain loops exactly the partials opened less than five seconds ago are left, and no peer without one |
| `FramingMethods.ReassemblyTable.Retain` | src/bin/datagram_framing.rs:143-145 | the inner loop keeps exactly a peer's partials opened less than five seconds ago |
| `FramingMethods.ReassemblyTable.IngestChunk` | src/bin/datagram_framing.rs:155-246 | the imperative ingest returns and leaves what the table function says |
| `FramingMethods.ReassemblyTable.Admit` | src/bin/datagram_framing.rs:201-216 | admission under the peer and partial quotas |
| `Apportionment.DeficitIsCovered` | src/crypto.rs:641-682 | the deficit never exceeds the number of non-zero remainders |
| `Apportionment.FloorsFit` | src/crypto.rs:641-682 | while the total fits u64 the floors sum to at most 10 000 |
| `Apportionment.QuotaBound` | src/crypto.rs:661-663 | a floored quota is at most 10 000, and reaches it only with remainder zero |
| `Apportionment.WeightsSumIff` | src/crypto.rs:641-682 | the weights sum to exactly 10 000 if and only if the floors do not exceed it, hence for every non-zero count vector whose total fits u64 |
| `Apportionment.SaturationExample` | src/crypto.rs:641-682 | two counts of 2^64−1 sum to 20 000 |
| `Apportionment.WeightIsFloorOrOneMore` | src/crypto.rs:657-682 | each weight is its floor or one more, and a zero remainder is never bumped |
| `Apportionment.RaisedInOrder` | src/crypto.rs:668-681 | a count raised above its quota has a larger remainder than any that is not, or the same one and an earlier place |
| `Apportionment.RaisedAreDeficit` | src/crypto.rs:668-681 | exactly as many counts are raised as the floors fall short of 10 000 |
| `Apportionment.WeightsAreLargestRemainder` | src/crypto.rs:641-682 | for every count vector the weights are the largest-remainder apportionment; all zero when every count is |
| `Apportionment.WeightAtMostFull` | src/crypto.rs:657-682 | no weight exceeds 10 000, so no cast or addition in 32 bits loses anything, even when the total saturates |
| `Apportionment.WeightsFollowCounts` | src/crypto.rs:657-682 | a larger count never gets a smaller weight; among equal counts an earlier one never gets less |
| `Apportionment.TotalCount` | src/crypto.rs:646-649 | the saturating sum of the counts |
| `Apportionment.FloorQuotas` | src/crypto.rs:657-666 | the loop sets each weight to its floored quota and collects the remainders |
| `Apportionment.BumpFirst` | src/crypto.rs:668-681 | the loop raises the first entries of the remainder order by one each |
| `Apportionment.ClearWeights` | src/crypto.rs:650-655 | without any count every weight becomes zero |
| `Apportionment.NormalizeWeights` | src/crypto.rs:641-682 | the in-place method leaves ids and counts alone and sets the weights to the largest-remainder apportionment: floor or one more, raised in the order of the remainders, as many as the deficit |
| `AttributionFold.AccumulateTallies` | src/crypto.rs:693-752 | the fold fails if and only if the accepted receipts name more than 32 clusters; otherwise one entry per cluster with its exact count |
| `AttributionFold.CreditedIff` | src/crypto.rs:704-746 | a cluster is credited exactly when some receipt naming it is of the window, from a registered key, by an executor authorised for its task class, and signed over its preimage |
| `AttributionFold.CountsSumToAccepted` | src/crypto.rs:693-752 | the counts sum to the number of accepted receipts |
| `AttributionFold.OrderDoesNotMatter` | src/crypto.rs:693-752 | reordering receipts changes neither success nor any cluster's count |
| `AttributionFold.FoldVerifiedAttributed` | src/crypto.rs:693-752 | the loop computes that fold, with normalised weights |
| `Endian.LERoundTrip` | src/crypto.rs:192-212 | reading a little-endian integer gives back what was written |
| `Endian.LEReadBack` | src/bin/goatd.rs:555-582 | and writing gives back what was read |
| `Endian.FromBEIsByteOrder` | src/state.rs:549-553 | comparing node ids as big-endian numbers compares their bytes |
| `Endian.BERoundTrip` | src/bin/host_crypto.rs:85-90 | reading a big-endian integer gives back what was written |
| `Wire.ReadWritten` | src/bin/goatd.rs:537-619 | for every record layout, reading what was written returns the values and the rest of the input |
| `Wire.WriteRead` | src/crypto.rs:191-330 | for every layout, whatever reads successfully is what writing the values produces |
| `Wire.WriteConcat` | src/crypto.rs:191-330 | writing two stretches of fields is writing them one after the other |
| `Wire.WriteFits` | src/crypto.rs:310-330 | an encoding never exceeds the layout's maximal length |
| `Wire.FixedWidth` | src/crypto.rs:191-212 | a layout without variable parts has one length |
| `Records.CapabilityOfValues` | src/crypto.rs:405-417 | the fields of a capability record determine it |
| `Records.NdfOfValues` | src/crypto.rs:343-390 | the fields of a density frame determine it |
| `GossipCodec.DecodeEncode` | src/bin/goatd.rs:686-741 | decoding an encoded message returns it |
| `GossipCodec.EncodeDecode` | src/bin/goatd.rs:704-720 | every byte string that decodes re-encodes to itself, so frames and messages are in bijection |
| `GossipCodec.CapabilityMaxLen` | src/crypto.rs:495-498 | the layout's maximal length is exactly the stated 740 bytes |
| `GossipCodec.EncodeFits` | src/bin/goatd.rs:138-144 | no encoded message exceeds the frame buffer |
| `Sink.SliceSink.constructor` | src/crypto.rs:140-149 | a new sink is empty and has not overflowed |
| `Sink.SliceSink.Put` | src/crypto.rs:172-185 | bytes are appended whole or the sink overflows and keeps its contents |
| `Sink.SliceSink.PutRecord` | src/crypto.rs:231-233 | a record is written in canonical form, or the sink overflows |
| `Sink.EncodeGossipFrame` | src/bin/goatd.rs:722-741 | writing through the sink into the fixed buffer never overflows and yields the encoding |
| `Preimages.ContextsDiffer` | src/crypto.rs:58-109 | no two signing contexts are equal |
| `Preimages.HandshakeLengths` | src/transport.rs:192-226 | the two handshake bodies, which share one context, have different fixed lengths |
| `Preimages.PreimageInjective` | src/crypto.rs:284-292 | equal signing preimages have the same chain, context and signed value, across all signable types |
| `Layouts.PreimageLayout` | src/crypto.rs:214-292 | a signing preimage is the context's length and name, the chain id and the canonical body, whose every field is listed in order |
| `Layouts.GossipLayout` | src/bin/goatd.rs:722-741 | a gossip frame is its variant byte, the canonical payload, the public key and the signature |
| `Layouts.CapabilityLayout` | src/crypto.rs:323-417 | the fields of a capability record in the order and at the widths they are written, devices included |
| `Layouts.AttestationLayout` | src/crypto.rs:419-431 | the same for an execution attestation |
| `Layouts.AuthorizationLayout` | src/crypto.rs:455-461 | the same for an authorisation set |
| `Layouts.FrameLayout` | src/crypto.rs:343-390 | the same for a density frame |
| `Layouts.EscalationLayout` | src/crypto.rs:444-479 | the same for an escalation record, each receipt behind its wrapper context |
| `Layouts.InitiationLayout` | src/transport.rs:192-201 | the same for a handshake initiation |
| `Layouts.ResponseLayout` | src/transport.rs:203-212 | the same for a handshake response |
| `Preimages.BodyInjective` | src/crypto.rs:405-480 | equal canonical bodies of one type are of equal values |
| `Preimages.PreimageFits` | src/crypto.rs:488-523 | every stack buffer holds its preimage |
| `Preimages.FingerprintInjective` | src/gossip.rs:248-264 | two gossip messages with the same fingerprint input are equal, and the input fits its buffer |
| `NetworkClock.RecordKeepsValid` | src/transport.rs:425-444 | a reading is filed under its address, at most one sample per address; every other sample survives but the one a new address evicts |
| `NetworkClock.Observe` | src/transport.rs:425-444 | every reachable clock has distinct addresses |
| `NetworkClock.MedianAtMostIff` | src/transport.rs:448-458 | the element taken is at most hi exactly when strictly more than half of the offsets are |
| `NetworkClock.MedianAtLeastIff` | src/transport.rs:448-458 | it is at least lo exactly when at least half of them are |
| `NetworkClock.UpperMedianExample` | src/transport.rs:448-458 | of 0 and 100 it is 100 |
| `NetworkClock.MajorityBoundsOffset` | src/transport.rs:448-458 | if strictly more than half of the stored offsets lie in [lo, hi], the offset lies in that interval clamped to ±300 |
| `NetworkClock.OffsetIsClamped` | src/transport.rs:448-458 | no set of peers moves the clock by more than 300 seconds |
| `NetworkClock.LogicalTimeIsSteady` | src/transport.rs:464-472 | logical time is monotone, non-expansive and never below the genesis floor |
| `NetworkClock.LogicalTimeFollowsMajority` | src/transport.rs:464-472 | where a majority of peers place the network's time, so does the clock |
| `NetworkClock.OnePeerSetsTheClock` | src/transport.rs:425-472 | one peer within the skew limit sets the clock to its own time |
| `NetworkClock.NetworkClockState.constructor` | src/transport.rs:411-420 | a new clock has no samples and its floor |
| `NetworkClock.NetworkClockState.RecordPeerTime` | src/transport.rs:425-444 | the imperative update is the recording step and keeps the invariant |
| `CookieEcho.OwnCookieIsFresh` | src/transport.rs:554-607 | a cookie issued under one clock is fresh under another while corrected time moved by −5 seconds to the age limit |
| `CookieEcho.UnusedCookieIsAccepted` | src/transport.rs:554-618 | with an unchanged clock a cookie echoed from its own address within the age limit is accepted unless it is in the window |
| `CookieEcho.VerdictMeans` | src/transport.rs:584-618 | which verdict each failing condition gives, first failing one named: out of time, wrong MAC, already used; accepted exactly when none fails |
| `CookieEcho.AcceptedIsGenuine` | src/daemon.rs:376-395 | in every run an accepted cookie is the MAC of the address it came from and its timestamp, which from three samples on is at most 5 s ahead of network time and at most 60 s behind |
| `CookieEcho.CookieIsBoundToAddress` | src/daemon.rs:376-395 | in every run a cookie issued to another address is accepted only if the two MACs collide |
| `CookieEcho.StepMeans` | src/daemon.rs:376-403 | the clock learns exactly from signed responses and from signed initiations behind an accepted echo, and the ring grows exactly with accepted echoes |
| `CookieEcho.WindowIsLastAccepted` | src/transport.rs:584-618 | over every run the ring holds the last min(k, N) accepted cookies; rejected echoes change nothing |
| `CookieEcho.ReuseIsFarApart` | src/daemon.rs:376-395 | two acceptances of one cookie are separated by at least N other acceptances |
| `CookieRing.CookieCache.constructor` | src/transport.rs:314-323 | a new ring is empty |
| `CookieRing.CookieCache.Contains` | src/transport.rs:327-329 | membership in the window |
| `CookieRing.CookieCache.Insert` | src/transport.rs:333-342 | writing at the ring position keeps the last N, and nothing for N = 0 |
| `CookieRing.VerifyCookieEcho` | src/transport.rs:584-618 | the verdict, and the ring extended exactly on acceptance |
| `CookieRing.GoatNode.constructor` | src/daemon.rs:296-312 | a new node has an empty clock and ring |
| `CookieRing.GoatNode.Process` | src/daemon.rs:376-403 | the echo and response routes perform the step of the run model; the clock learns only from verified peers |
| `MessageWindow.InsertTakesFromOldest` | src/gossip.rs:190-207 | one insertion costs the others only their oldest entries and no more of them than the inserter gains |
| `MessageWindow.InsertKeepsQuota` | src/gossip.rs:165-207 | no insertion takes any identity over its quota |
| `MessageWindow.InsertMeans` | src/gossip.rs:190-216 | at its quota an identity overwrites the first of its own entries in place; otherwise the entry goes to the end and a full window loses its first |
| `MessageWindow.QuotaCanBeFilled` | src/gossip.rs:163-207 | an identity keeps all of its first entries up to its quota |
| `MessageWindow.QuotaHolds` | src/gossip.rs:165-207 | after any insertions no identity holds more than max(1, N/8) slots |
| `MessageWindow.FloodIsBudgeted` | src/gossip.rs:190-216 | a run by one identity removes at most quota minus its starting count of the others' entries, oldest first |
| `MessageWindow.FloodAtQuotaTakesNothing` | src/gossip.rs:190-216 | and none once it is at its quota |
| `MessageWindow.InsertKeepsDistinct` | src/gossip.rs:190-207 | inserting an unseen digest keeps digests distinct, invents no entry and retains the new one |
| `MessageRing.MessageCache.constructor` | src/gossip.rs:151-161 | a new cache is empty |
| `MessageRing.MessageCache.Contains` | src/gossip.rs:171-173 | scanning the slots in use decides membership in the window |
| `MessageRing.MessageCache.CountFor` | src/gossip.rs:177-182 | counting over slots counts the identity's entries |
| `MessageRing.MessageCache.OldestSlotOf` | src/gossip.rs:210-216 | the scan finds the slot of the identity's oldest entry by ring age |
| `MessageRing.MessageCache.Insert` | src/gossip.rs:190-207 | the two arrays written round robin refine the age-ordered window |
| `GossipGate.ValidateGossipMessage` | src/gossip.rs:299-345 | the outcome, in the order duplicate, origin, signature; only forwarded messages are recorded |
| `GossipGate.OutcomeMeans` | src/gossip.rs:299-345 | which outcome each condition gives; forwarded exactly when unseen, from an authorised key of its origin and signed by it |
| `GossipGate.GateInvariant` | src/gossip.rs:299-345 | in every reachable window digests are distinct, each belongs to a forwarded message, and no identity is over quota |
| `GossipGate.RememberedIsVerified` | src/gossip.rs:299-345 | over every run each remembered digest is that of an earlier message whose origin was authorised and whose signature verified |
| `GossipGate.DuplicatesWereForwarded` | src/gossip.rs:248-345 | unless its digest collides with that of an earlier message of the run, only a message that was itself forwarded before is called a duplicate |
| `SecureChannel.NonceInjective` | src/bin/host_crypto.rs:85-90 | a nonce names one role and one counter |
| `SecureChannel.NonceLayout` | src/bin/host_crypto.rs:85-90 | byte 0 is the role, the next three are zero, and the rest read most significant byte first is the counter |
| `SecureChannel.EncryptMeans` | src/bin/host_crypto.rs:94-117 | which error each failing condition of encryption gives, in order, and when there is a frame |
| `SecureChannel.DecryptMeans` | src/bin/host_crypto.rs:119-138 | the same for decryption, under the nonce of the other role |
| `SecureChannel.AcceptedWasSent` | src/bin/host_crypto.rs:119-138 | what an end accepts is what its peer sent under the expected counter; its own frames are ruled out by the role byte |
| `SecureChannel.SessionKeepsInv` | src/bin/host_crypto.rs:93-138 | the session invariant holds in every run without forgeries |
| `SecureChannel.AcceptedIsPrefixOfSent` | src/bin/host_crypto.rs:93-138 | with an ideal cipher and any network, the accepted plaintexts are a prefix of those the peer sent |
| `SecureChannel.AcceptedIff` | src/bin/host_crypto.rs:119-138 | a frame is accepted exactly when it is the peer's frame for the expected counter |
| `SecureChannel.NoncesNeverRepeat` | src/bin/host_crypto.rs:94-117 | no two returned frames of a session, in either direction, share a nonce |
| `SecureChannel.SidesKeepInv` | src/bin/host_crypto.rs:93-138 | in every run, with no assumption, the counters count what was sent and accepted and the cipher was called once per counter below the last |
| `SecureChannel.CipherNoncesDistinctIff` | src/bin/host_crypto.rs:94-117 | in every run the nonces sealed under, at both ends together, are distinct if and only if neither end was told more than once that its counter is exhausted |
| `SecureChannel.ExhaustedStillSeals` | src/bin/host_crypto.rs:94-117 | at the last counter a call still seals under the same nonce and leaves the counter |
| `SecureChannel.ExhaustionRun` | src/bin/host_crypto.rs:94-117 | under a cipher that never refuses, the run of 2^64 + 1 sends at one end seals twice under one nonce |
| `SecureChannel.Aes256GcmChannel.constructor` | src/bin/host_crypto.rs:70-77 | both counters start at zero |
| `SecureChannel.Aes256GcmChannel.EncryptFrame` | src/bin/host_crypto.rs:94-117 | the result, the counter, and the buffer: the frame when it is returned and also when the counter turns out exhausted, untouched on the other errors |
| `SecureChannel.Aes256GcmChannel.DecryptFrame` | src/bin/host_crypto.rs:119-138 | the result, the counter, and the buffer: the plaintext when it is accepted and also when the counter turns out exhausted, untouched on the other errors |
| `Agreement.LcsIsLongest` | reference/goathal/verification.py:71-83 | the recurrence gives the length of a longest common subsequence: attained by one, exceeded by none |
| `Agreement.LcsBounds` | reference/goathal/verification.py:71-83 | it is at most either length, and equals both exactly for equal sequences |
| `Agreement.ScoreIsAgreement` | reference/goathal/verification.py:71-83 | the score is in [0, 1], symmetric, and 1 exactly for equal sequences |
| `Agreement.FillTable` | reference/goathal/verification.py:77-83 | the nested loops fill the table of the recurrence |
| `Agreement.TokenAgreement` | reference/goathal/verification.py:71-83 | the method returns the score of a longest common subsequence, empty inputs included |
| `Ratchet.EvaluateKeepsReachable` | reference/goathal/maturity.py:189-214 | only six sampling rates are reachable, each in its stages; nobody leaves or enters CANDIDATE by a window |
| `Ratchet.DistanceSteps` | reference/goathal/maturity.py:189-214 | a held window lowers the distance to MATURE by exactly one, a snap raises it by at least one, a hold keeps it |
| `Ratchet.BreachSnapsIff` | reference/goathal/maturity.py:195-214 | a window snaps a registered class exactly when it is past PROBATION and the gate fails or a burst is forced |
| `Ratchet.SnapDoubles` | reference/goathal/maturity.py:189-192 | a snap doubles the rate, capped at 1, and goes to PROBATION exactly when it reaches 1 |
| `Ratchet.BreachesFromMature` | reference/goathal/maturity.py:189-214 | breaches in a row take a MATURE class to 0.30, 0.60 and 1.0, and to PROBATION with the third and not before |
| `Ratchet.OneBreachTakesTwoHeld` | reference/goathal/maturity.py:189-214 | after one breach exactly two held windows restore MATURE |
| `Ratchet.HeldWindowsRelax` | reference/goathal/maturity.py:195-214 | held windows from PROBATION give 0.5, 0.25, 0.15 and then MATURE for good |
| `Ratchet.ProbationNeedsTheGate` | reference/goathal/maturity.py:199-204 | PROBATION is left exactly when the gate passes, for RELAX at 0.5 |
| `Ratchet.RateStaysInRange` | reference/goathal/maturity.py:189-260 | over every run 0.15 ≤ p ≤ 1, PROBATION exactly at p = 1, MATURE only at p = 0.15 |
| `Ratchet.ProgressIsPaidFor` | reference/goathal/maturity.py:189-214 | in every run the advances are at least the distance gained plus the snaps |
| `Ratchet.MaturityTakesFourAdvances` | reference/goathal/maturity.py:189-214 | PROBATION to MATURE takes at least four advances past a passing gate, and one more per snap |
| `Ratchet.AdvanceIsHeldIff` | reference/goathal/maturity.py:195-214 | an advancing window is not held exactly when an anomaly came during PROBATION |
| `Ratchet.HeldCoversAdvances` | reference/goathal/maturity.py:195-214 | in every run the held windows are at least the advances less the promotions during a burst |
| `Ratchet.MaturityTakesHeldWindows` | reference/goathal/maturity.py:189-214 | PROBATION to MATURE takes at least three held windows always, and at least four plus one per snap when no promotion happened during a burst |
| `Ratchet.BurstExample` | reference/goathal/maturity.py:195-204 | a promotion during a burst and three held windows reach MATURE |
| `Ratchet.HeldWindowsMature` | reference/goathal/maturity.py:195-214 | and four held windows in a row suffice from any registered state |
| `Ratchet.SlashInRange` | reference/goathal/maturity.py:149-158 | the slash multiple lies in [15, 20] for every tolerance |
| `Ratchet.SlashIsProportional` | reference/goathal/maturity.py:149-158 | the slash grows in proportion to the tolerance width, from 15 at zero to 20 at the reference width, and is constant outside |
| `Ratchet.CheatingNeverPays` | reference/goathal/maturity.py:149-163 | slash times rate is at least 2.25 at every point of every run |
| `Coverage.OrderDoesNotMatter` | reference/goathal/maturity.py:98-116 | the accumulators do not depend on the order of receipts |
| `Coverage.OneMoreReceipt` | reference/goathal/maturity.py:98-116 | what one more receipt adds to its own class and window: one receipt, its divergence and fault, its cluster's representative and network if new; nothing to any other |
| `Coverage.GateMeans` | reference/goathal/maturity.py:137-145 | the five conditions of the gate without a division, both directions, no receipts included |
| `Coverage.MergingShrinks` | reference/goathal/maturity.py:88-95 | a group that only merges never raises the number of represented clusters |
| `Coverage.MergingTightensGate` | reference/goathal/maturity.py:98-145 | nor turns a failing gate into a passing one |
| `Coverage.SplittingLoosensGate` | reference/goathal/maturity.py:88-145 | where a group splits an earlier merge, receipts and thresholds exist for which it does |
| `Coverage.NeverLoosensIff` | reference/goathal/maturity.py:88-145 | adding a group never loosens the gate if and only if it only merges |
| `Coverage.OverlapExample` | reference/goathal/maturity.py:88-145 | after {0,1,2} the group {2,3} does not only merge: a gate asking for two clusters fails without it and passes with it |
| `Coverage.DisjointGroupsTightenGate` | reference/goathal/maturity.py:88-145 | any list of pairwise disjoint groups only makes the gate stricter |
| `AccumulatorRoot.SerializeInjective` | reference/goathal/maturity.py:75-82 | no two accumulators share their canonical bytes |
| `AccumulatorRoot.SerialSlices` | reference/goathal/maturity.py:75-82 | where the magic, the class id and the six numbers lie |
| `Maturity.ForcedSnapIsConservative` | reference/goathal/maturity.py:195-214 | a forced snap leaves a class no less sampled and no further advanced than its gate would |
| `Maturity.HonestPostingIsNeverFlagged` | reference/goathal/maturity.py:293-330 | an honest posting from a reachable state is never flagged, forced snap or not, in whatever order the receipts are published; it fails to be made only if a number does not fit its field |
| `Maturity.VerdictMeans` | reference/goathal/maturity.py:298-330 | which flag each condition gives, in order: root, prior state, rate, stage; clean exactly when none holds |
| `Maturity.UndetectedKeepsFloor` | reference/goathal/maturity.py:298-330 | over any sequence of unflagged postings, up to the 150 million whose epsilons add up to the floor, the claimed rate stays above 0.15 less one epsilon per window |
| `Maturity.DriftIsReached` | reference/goathal/maturity.py:298-330 | through any windows whose gates pass, some unflagged claims take a mature class to exactly one epsilon per window below the floor |
| `Maturity.UnflaggedPaysOne` | reference/goathal/maturity.py:298-330 | an unflagged claim advances by at most one step, and only if the recomputed gate passed |
| `Maturity.UndetectedMaturityNeedsFourGates` | reference/goathal/maturity.py:298-330 | no sequence of unflagged claims goes from PROBATION to MATURE with fewer than four passing gates |
| `Maturity.RootFixesAccumulator` | reference/goathal/maturity.py:298-312 | unless the hash collides on the two encodings, one posting is clean only against receipts with one accumulator |
| `Maturity.ClusterRepresentatives` | reference/goathal/maturity.py:88-95 | the dictionary gives each cluster the least member of the last group naming it |
| `Maturity.FoldReceipts` | reference/goathal/maturity.py:98-116 | one accumulator per class and window that occurs, with exact counts and coverage |
| `Maturity.SoundMeansSafe` | reference/goathal/maturity.py:149-163 | what the controller's invariant gives: rate range, stage correspondence, margin 2.25 |
| `Maturity.MaturityController.constructor` | reference/goathal/maturity.py:230-233 | no class is registered at first |
| `Maturity.MaturityController.RegisterClass` | reference/goathal/maturity.py:235-245 | PROBATION exactly for a diverse registration set, CANDIDATE otherwise; other classes untouched |
| `Maturity.MaturityController.ProcessWindow` | reference/goathal/maturity.py:247-260 | the transition and accumulator of the window, the new state of that class only, and the invariant kept |

## Left out

- LateRepeats.FairThroughoutIff: the first late repeat is shown to break fairness; how the shares go on after several of them is not counted.
- SHA3-256, HMAC, ML-DSA-65, ML-KEM-768 and AES-GCM internals: functions passed as parameters.
- Statistical quality of the draws and modulo bias: every statement quantifies over draw streams.
- `seen` beyond 2^64 faults: the market's counters are unbounded here.
- The library sorts are a specification sort; for the total orders used, every correct sort gives the same result.
- Timing, including constant-time comparison of cookies.
- `demux`, `parse_initiation` and `parse_response`: fixed-width readers whose round trips would repeat those of the gossip codec.
- `ingest_capability`, `PeerScore`, `effective_profile`, `l_inf`, `pick_disjoint_executor` and `VerificationHarness.verify`: branching without state, easier than what is here.
- Presence frames, signed-record wrappers on the wire and the remaining signing contexts: encoders of the same kind as those modelled.
- Floating-point rounding in the Python reference: rates are exact reals with the same epsilons.
- Cluster identifiers are numbers ordered as the strings are, and a class id is its UTF-8 bytes; `window_root` over several classes.
- An empty merge group, on which the Python code raises IndexError, is excluded by type.
- A class that was never registered: `process_window` raises KeyError; the controller returns no transition.
- The tokio runtime, sockets, bootstrap, configuration, key generation, workers, desktop application and simulations.
