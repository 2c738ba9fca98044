# tight: a verified model

`tight` is a reliable-UDP stack in C++17. This project models its protocol logic in Dafny and proves
what that logic promises. `dafny verify dfyconfig.toml` checks everything.

Code that changes state in the source is a class or a method with loops here, tied by its
postconditions to a function of values; lemmas about those functions, and about runs of them, carry
the results.

| part | files | main results |
|---|---|---|
| erasure code | `Gf2Poly`, `Gf256`, `GfTables`, `GfLinear`, `Vandermonde`, `ErasureCode`, `ReedSolomon`, `ErasureRecovery` | decoding is sound for every input; it succeeds exactly when the coefficient matrix is invertible; for consecutive parities, and for any two, that is exactly a condition on the missing positions; up to 255 fragments consecutive parities always suffice |
| messages | `Message`, `Fragmenter`, `Reassembly`, `Reassembler`, `MessageEntries`, `MessageRuns` | over every order of arrival, with duplicates, losses and purges, each message fares as if it were alone: delivered, with the payload that was sent, exactly when what arrives suffices before its wait is over, and reported once until a purge forgets it |
| retransmission | `SequenceTracking`, `PendingTable`, `ArqInvariants`, `ArqGaps`, `ArqRuns`, `ArqTable`, `ArqResends` | over every run of sender, receiver and an unreliable network, what is pruned early is behind the receiver, nothing is resent more than ten times, a report makes the sender resend exactly the buffered packets it names below that limit, on their own channels, and which sequences a report names, and when the cursor waits at one that no report names, is known exactly |
| X25519 | `Field25519`, `FieldInverse`, `FieldBytes`, `MontgomeryCurve`, `Montgomery`, `CurveLaw`, `X25519` | the limb arithmetic never overflows and computes the function of section 5 of RFC 7748, which is the clamped multiple of the point under the tangent and chord law of the curve |
| SHA-256 | `Sha256`, `Sha256Vector` | every split into updates gives the digest of FIPS 180-4, constants included |
| GCM | `Reflect`, `Ghash`, `Gcm`, `GcmTag` | the shift-and-xor loop multiplies in GF(2^128); decryption accepts exactly what encryption produces; the tag is the sum of all blocks times powers of the hash key |
| datagrams | `Crc32`, `Crc32Vector`, `WireFields`, `PacketCodec`, `SecureDatagram` | the checksum is polynomial division; decoding accepts exactly the encodings; sealed or not, the wire round trip is the identity |
| reports | `ReportCodec`, `LatencyStats` | the report codec loses only what it clamps; the median bin is the bin of the middle sample |
| sending | `TokenBucket`, `TokenRuns`, `TokenFates`, `Bandwidth`, `BandwidthRuns`, `BandwidthSignals` | tokens, loans and packets are conserved over every run, and the rate is the bandwidth; which report moves the estimate, and by how much, is known exactly; it is bounded by its seed and climbs back to it |
| queues | `QueueSpec`, `BlockingQueue`, `CommandChannel`, `CommandRuns` | the recycling list is a bounded queue; commands come out in order, each the first of its sequence |

`Numbers`, `Options`, `DivMod` and `ByteStrings` hold what these share.

## Where the code and its comments disagree

The model follows the code.

- `src/fec.cpp:146` says that every square submatrix of the encoding matrix is invertible. It is not:
  `ErasureRecovery.SingularParities`. `ErasureRecovery.DecodeConsecutive` says when it is, for
  consecutive parities, and `ErasureRecovery.PairRecovered` for any two.
- `src/fragmenter.cpp:71-74` says that a long round trip turns all redundancy off, the channel's and
  the probe's included. Both are added afterwards: `Fragmenter.Sender.FragmentAndSend`.
- `src/reassembler.cpp:311` has late packets of a message that is done dropped. The purge in
  `src/transport.cpp:2249-2256` forgets that it is done, and a copy after that is delivered again:
  `MessageRuns.DeliveredAgain`. `MessageRuns.DeliveredAtMostOnce` says when.
- `src/transport.cpp:2101-2103` says that packets short of tokens stay queued. The one that was short
  has already left the queue: `TokenRuns.ShortPacketIsLost`, and `TokenFates.FateOfRun` for whole runs.
- `src/report.cpp:58-90` can list a sequence that was received (`ArqGaps.FilledGapMayBeListed`);
  `ArqRuns.ReceivedListedInRun` says exactly when.
- `src/report.cpp:74-75` says that giving a gap up leaves the cursor alone because it was skipped before.
  The cursor can wait at a gap that has left the table, and no report names it until a packet above it
  notes it again: `ArqGaps.CursorMayWaitUnlisted`, `ArqGaps.YoungGapIsCutOff`,
  `ArqGaps.CursorStopsAtForgotten`. `ArqGaps.CursorWaitsUnlisted` says exactly when a report leaves it so,
  `ArqTable.CursorUnlistedInRun` when a run does.
- `src/report.cpp:60-62` reports the gaps of reliable channels. The channel of a gap is that of the packet
  that last arrived above it (`src/reassembler.cpp:106`), so a packet lost on a reliable channel may never
  be named: `ArqTable.MislabelledGap`, and `ArqTable.NamedInRun` for when.
- `src/transport.cpp:1879-1882` records the size of an entry that a report may have pruned in the
  meantime; the entry then comes back empty: `ArqRuns.StubComesBack`, and `ArqRuns.OnlyStubsReturn` for when.
- `src/wire_format.hpp:15` marks sealed packets by the top bit of the flags, where data packets carry
  their data count (`src/transport.cpp:1843`). From 0x8000 data fragments on, a packet is taken for a
  sealed one: `SecureDatagram.WireRoundTrip`.
- `docs/tight_overview.md:276` and `docs/api_reference.md:241` take the tag off the payload of sealed
  packets (1286 bytes). Fragments are 48 bytes below the mtu with encryption too
  (`src/fragmenter.cpp:45`), so sealed ones exceed it by 16: `SecureDatagram.FitsMtu`.
- `docs/tight_design.md:104` has the header big-endian throughout. The session id is stored with its low
  word first (`src/wire_format.hpp:39-42`): `PacketCodec.HeaderLayout`.
- `src/transport.cpp:2038-2042` clears a reported loan without telling the application, so the alarm
  can sound twice in a row: `TokenRuns.CancelledAlarmRepeats`, and `TokenRuns.AlternatesExactly` for when.
- `include/tight/bandwidth.hpp` speaks of a floor of 100 kbps and of a seed set by the probe. The
  probe only lowers the estimate, and below the floor too: `BandwidthRuns.FloorBroken`.
- `src/command.hpp` bounds the wait of a held command by 3 RTT. Behind a second gap the wait starts
  again: `CommandRuns.HeldTooLong`, and `CommandRuns.HeldBeyondThreeRtt` for when.

## Assumptions

Clocks, random numbers, the network and the application are arguments or steps of a run. Counters are
unbounded naturals, so nothing here speaks about their 32-bit wrap-around; fields on the wire have
their real widths. Doubles are exact reals. The AES block cipher is an arbitrary function on blocks.

## Model

| member | source | states |
|---|---|---|
| Gf256.AddIsXor | src/fec.cpp:65 | field addition, written as digit-wise exclusive or, is the machine `^` on bytes |
| Gf256.MulAssoc | src/fec.cpp:11 | multiplication modulo 0x11D is associative |
| Gf256.MulAdd | src/fec.cpp:11 | multiplication distributes over exclusive or |
| Gf256.TimesTwoMul | src/fec.cpp:21-22 | the shift-and-reduce step of the table loop is multiplication by 2 in the field, on any product |
| Gf256.GenMul | src/fec.cpp:36 | 2^i times 2^j is 2^(i+j) |
| Gf256.GeneratorOrder | src/fec.cpp:18-24 | 2 has order exactly 255: no smaller power is 1, and 2^255 is |
| GfTables.GenInjective | src/fec.cpp:18-20 | the 255 table entries are pairwise different |
| GfTables.GenSurjective | src/fec.cpp:18-20 | and cover every nonzero byte |
| GfTables.NoZeroDivisors | src/fec.cpp:35 | a product is zero only when a factor is |
| GfTables.BuildTables | src/fec.cpp:16-25 | the constructor loop: `exp` holds the powers of 2 over all 512 entries and `log` inverts them |
| GfTables.GfMul | src/fec.cpp:34-37 | table multiplication is multiplication of polynomials modulo 0x11D |
| GfTables.GfPow | src/fec.cpp:40-44 | table power is the repeated product |
| GfTables.GfInv | src/fec.cpp:47-49 | the product with the table inverse is 1 |
| GfTables.Coef | src/fec.cpp:53-56 | the coefficient is the parity index-th power of the data index plus one, cut to 8 bits |
| GfLinear.StepSolves | src/fec.cpp:151-166 | one column of the elimination keeps exactly the solutions of A x = syn |
| GfLinear.StepReduced | src/fec.cpp:155-166 | and leaves the columns up to it in identity form |
| GfLinear.GaussJordanSucceeds | src/fec.cpp:147-150 | a pivot is found in every column if and only if only the zero vector solves A x = 0 |
| GfLinear.GaussJordanSolution | src/fec.cpp:147-167 | if elimination runs through, syn holds the one solution |
| Vandermonde.ConsecutiveInvertible | src/fec.cpp:53-56 | for consecutive parity indices the matrix is invertible if and only if the points are distinct, and nonzero when the first index is positive |
| ReedSolomon.GfMulAdd | src/fec.cpp:60-76 | all three branches add the coefficient times the source, zero-extended, to the destination |
| ReedSolomon.EncodeInto | src/fec.cpp:95-111 | every parity buffer starts with its parity fragment, whatever it held before |
| ReedSolomon.FindMissing | src/fec.cpp:117-120 | lists the absent positions in order |
| ReedSolomon.ComputeSyndrome | src/fec.cpp:133-140 | the parity minus the share of the fragments that are present |
| ReedSolomon.FindPivot | src/fec.cpp:148-150 | the first row from the column on with a nonzero entry, or the row count |
| ReedSolomon.SwapRows | src/fec.cpp:151-154 | exchanges two rows and nothing else |
| ReedSolomon.ReduceColumn | src/fec.cpp:155-166 | normalises the pivot row and clears the column from all others, in place on both matrices |
| ReedSolomon.Eliminate | src/fec.cpp:147-167 | the in-place elimination computes the Gauss-Jordan function, and fails exactly when it has no pivot |
| ReedSolomon.BuildSystem | src/fec.cpp:130-144 | the coefficient matrix and the syndromes of the missing fragments |
| ReedSolomon.Decode | src/fec.cpp:113-174 | the array afterwards is what the decoding specification says; on false it is unchanged |
| ErasureRecovery.OriginalSolves | src/fec.cpp:126-129 | the original missing bytes solve the system at every byte position |
| ErasureRecovery.DecodeSound | src/fec.cpp:113-174 | when decoding returns true, every missing fragment is the original padded to the width and every present one is untouched |
| ErasureRecovery.DecodeSucceeds | src/fec.cpp:121-150 | decoding succeeds if and only if there are enough parities and only the zero vector solves A x = 0 |
| ErasureRecovery.DecodeConsecutive | src/fec.cpp:53-56 | with consecutive parity indices it succeeds if and only if the missing positions stay apart modulo 256 (and none is 255 modulo 256, when the first index is positive) |
| ErasureRecovery.DecodeComplete | src/fec.cpp:113-174 | up to 255 data fragments and consecutive parity indices in any order: decoding succeeds, and whatever the fragments were, every missing one comes back padded and every present one is untouched |
| ErasureRecovery.PairRecovered | src/fec.cpp:146 | two missing fragments and any two parities, consecutive or not: decoding succeeds if and only if the points differ in the power of the distance of the parity indices and, unless the smaller index is 0, neither point is 0 |
| ErasureRecovery.IndistinguishablePair | src/fec.cpp:146 | so two missing fragments whose coefficients are all 1 cannot be recovered |
| ErasureRecovery.SingularParities | src/fec.cpp:146 | the claim of the comment is false: positions 0 and 9 are never recovered from parities 0 and 5 |
| Message.ReservedRoundTrip | src/wire_format.hpp:24-32 | real size below 4096 and channel below 16 survive packing into `reserved`, the channel in the upper four bits |
| Message.Message.CoversTotal | src/fragmenter.cpp:66-67 | the fragments cover the prefixed stream, and the last one is not empty |
| Message.ConcatStream | src/reassembler.cpp:214-228 | the cut fragments, in order, begin with the length-prefixed stream |
| Message.TrimRecovers | src/reassembler.cpp:229-255 | trimming them gives the payload, or nothing at all when it is over the limit |
| Fragmenter.ParityCountFor | src/fragmenter.cpp:16-38 | at most 100 parities and at most a fifth of the data (rounded up), at least one from stage 1 on, whatever the entropy |
| Fragmenter.CountCovers | src/fragmenter.cpp:25-37 | in the last stage the count is the smallest from one on that covers the late packets and six fifths of the entropy, up to a fifth of the data fragments and up to 100 |
| Fragmenter.FragPayload | src/fragmenter.cpp:45-46 | header and payload of every packet fill the mtu exactly, if and only if the mtu is above 52 |
| Fragmenter.NextStage | src/fragmenter.cpp:80-88 | stages move by one: up exactly above the threshold for rising, down exactly below the one for falling |
| Fragmenter.DrawnId | src/fragmenter.cpp:52-54 | message ids are nonzero and below 2^31 |
| Fragmenter.Sender.DrawMessageId | src/fragmenter.cpp:52-54 | the loop ends after at most two draws and advances the counter past the drawn value |
| Fragmenter.Sender.AdaptiveParities | src/fragmenter.cpp:74-90 | the stage and the parity count after the three branches |
| Fragmenter.Sender.FragmentAndSend | src/fragmenter.cpp:40-148 | the packets sent are exactly the packets of the message, data first, with parities made by the encoder; their number is the adaptive one plus both extras, cut to 16 bits and to the data count; the id counter and the stage afterwards; with redundancy disabled the extras still go out |
| Reassembler.BuildMessage | src/reassembler.cpp:214-256 | the two passes over the fragments compute the trimmed concatenation, with a prefix that may straddle fragments |
| Reassembler.ReadPrefix | src/reassembler.cpp:221-228 | the four prefix bytes, wherever fragment boundaries fall |
| Reassembler.CopyBody | src/reassembler.cpp:241-255 | the bytes after the prefix, up to the stated total |
| Reassembler.TryAssemble | src/reassembler.cpp:199-353 | deliver, wait or report a loss exactly as specified, for every entry |
| Reassembler.Collector.HandleFragment | src/reassembler.cpp:132-196 | one packet changes the collected and completed tables exactly as specified |
| MessageEntries.AssembleDelivers | src/reassembler.cpp:257-352 | an entry built from a message delivers its payload (nothing when over the limit), never anything else |
| MessageEntries.AssembleExactly | src/reassembler.cpp:257-352 | it is delivered if and only if no data fragment is missing or the coefficients of the first parities that arrived form an invertible matrix, and lost if and only if more are missing than parities arrived and its first packet is a wait old; the loss names its channel |
| MessageEntries.RecoverableDecodes | src/reassembler.cpp:331-352 | recovery from its entry succeeds exactly then, whichever parities arrived |
| MessageEntries.RecoverableConsecutive | src/fec.cpp:53-56 | for parities with consecutive indices that can be read off the missing positions |
| MessageEntries.RecoverableSmall | src/fec.cpp:53-56 | and up to 255 data fragments it always holds for them |
| Reassembler.Collector.PurgeStale | src/transport.cpp:2235-2257 | the periodic purge drops exactly the entries of both tables that have reached the dead timeout |
| MessageRuns.StepTracks | src/reassembler.cpp:132-196 | every arrival and every purge does to a message what it does to that message alone |
| MessageRuns.RunTracks | src/reassembler.cpp:132-196 | so over every run, tables and reports are those of the messages taken one by one |
| MessageRuns.OnlySentIsReported | src/reassembler.cpp:132-196 | every report of a run is the payload of a message sent (empty when over the limit) or its loss on its channel |
| MessageRuns.DeliveredAtMostOnce | src/reassembler.cpp:132-196 | over every arrival order with duplicates, losses and purges a message is reported once for each time it was completed: at most once if and only if no purge forgot it, or one did and it was not completed again |
| MessageRuns.DeliveredAgain | src/transport.cpp:2249-2256 | which can happen: any message of one fragment is delivered twice when a copy arrives after the purge |
| MessageRuns.DeliveredExactly | src/reassembler.cpp:132-196 | in every run that purges nothing of the message: delivered if and only if what arrives suffices before its own wait is over, lost if and only if the wait is over first, otherwise not reported; other messages make no difference |
| MessageRuns.ReportedWhenRecoverable | src/reassembler.cpp:190-195 | once what arrived of it is recoverable, the message has been reported exactly once |
| MessageRuns.DeliveredWhenRecoverable | src/reassembler.cpp:190-196 | and if no packet of it found its own wait over, it has been delivered with its payload |
| Reassembler.WaitMatchesGiveUp | src/reassembler.cpp:173-189 | on reliable channels an incomplete message waits as long as report.cpp keeps reporting its gaps |
| Reassembler.LossWait | src/reassembler.cpp:173-189 | twelve report intervals on reliable channels; on the others twice the round trip and at least 250 ms |
| SequenceTracking.PeerSequences.AdvanceCursor | src/reassembler.cpp:110-113 | the cursor moves over the received run and stops at the first hole |
| SequenceTracking.PeerSequences.NoteGapsUpTo | src/reassembler.cpp:103-108 | every unreceived sequence below the packet is noted, with its first notice kept |
| SequenceTracking.PeerSequences.ReceiveSequence | src/reassembler.cpp:97-129 | the four branches of the sequence tracking |
| SequenceTracking.PeerSequences.Scan | src/report.cpp:58-96 | every gap is visited once, in order, while entries are erased, and the table is cut back to 4096 |
| SequenceTracking.PeerSequences.MakeReport | src/report.cpp:35-96 | the acknowledgment and the loss list of a report, and the tracker after it |
| SequenceTracking.ListedCount | src/report.cpp:178-179 | all losses but a multiple of 2^16 are listed, or 256 when that is more |
| PendingTable.PeerPending.AssignSequence | src/transport.cpp:1855-1875 | a fresh sequence, and an entry when it is kept; an existing retry count survives |
| PendingTable.PeerPending.RecordSize | src/transport.cpp:1879-1882 | an entry pruned in the meantime comes back with an empty header |
| PendingTable.PeerPending.SnapshotAndPrune | src/report.cpp:397-422 | the entries to resend and the entries that stay, computed by erasing in place |
| PendingTable.PeerPending.CountResend | src/report.cpp:428-433 | counts a resend of an entry that is still there, up to ten |
| ArqInvariants.ReceiveKeeps | src/reassembler.cpp:97-129 | a packet keeps the cursor invariant: all below it received or skipped, all received from it on stored, the cursor itself not |
| ArqInvariants.HolesAreMissing | src/reassembler.cpp:102-108 | right after a packet at or above the cursor, every unreceived sequence in between is noted missing |
| ArqInvariants.ReportKeeps | src/report.cpp:48-96 | so does a report |
| ArqGaps.ScanLists | src/report.cpp:58-90 | the scan lists exactly the overdue gaps, in ascending order |
| ArqGaps.ReportLists | src/report.cpp:80-88 | a report names a sequence if and only if it is a gap noted on a reliable channel, overdue and not given up, and the smaller ones leave it room within the 256 |
| ArqGaps.AllListed | src/report.cpp:80-88 | with at most 256 overdue gaps, all of them are named |
| ArqInvariants.ReportSkips | src/report.cpp:67-87 | what a report skips was noted missing, had not been received, and was unreliable or overdue |
| ArqGaps.StaysInTable | src/reassembler.cpp:102-113 | a packet leaves its own entry in the gap table if and only if it comes at or above the cursor while noted missing |
| ArqGaps.FilledGapMayBeListed | src/reassembler.cpp:102-113 | so a received sequence can be reported lost |
| ArqGaps.ReceivedIsListed | src/report.cpp:80-88 | which happens if and only if it was filled that way, is overdue and has room in the list |
| ArqGaps.CursorMayWaitUnlisted | src/report.cpp:73-79 | the cursor can wait at a gap that was given up and is no longer noted |
| ArqGaps.YoungGapIsCutOff | src/report.cpp:90-96 | or at a young one, dropped for the table limit |
| ArqGaps.CursorStopsAtForgotten | src/report.cpp:67-96 | or come to rest at one that the same report forgets |
| ArqGaps.ReportTable | src/report.cpp:67-96 | a report leaves in the table exactly the gaps that are reliable, not given up and not cut off by the limit of 4096 |
| ArqGaps.ReportRests | src/report.cpp:48-89 | a report leaves the cursor at the first sequence from it on that is neither received nor a gap that is unreliable or overdue |
| ArqGaps.CursorWaitsUnlisted | src/report.cpp:67-96 | wherever a report leaves the cursor, the sequence it waits at is not noted if and only if it was not noted before, has been given up, or is cut off by the limit |
| ArqGaps.UnlistedForReports | src/report.cpp:58-96 | while it is not noted, a report neither moves the cursor nor names the sequence |
| ArqGaps.NotedAgain | src/reassembler.cpp:102-128 | a packet moves the cursor then if and only if it is the awaited one, and notes the sequence again if and only if it lies above it |
| ArqRuns.NextKeeps | src/reassembler.cpp:92-130 | every step of sender, receiver and network keeps the protocol invariant |
| ArqRuns.RunInvariant | src/report.cpp:283-436 | which therefore holds in every state of every run with loss, duplication and reordering |
| ArqRuns.CursorMonotone | src/reassembler.cpp:109-128 | the cursor never decreases |
| ArqRuns.PruneIsSafe | src/report.cpp:413-422 | a data entry pruned with fewer than ten retries is behind the receiver: received, skipped, or from before its first packet |
| ArqRuns.BehindForever | src/report.cpp:413-422 | and stays so |
| ArqRuns.ResendsAreBounded | src/report.cpp:424-434 | no entry is resent more than ten times in any run |
| ArqRuns.ReceiverInRun | src/reassembler.cpp:97-129 | every sequence below the cursor was received, skipped or precedes the first packet, in every run |
| ArqRuns.GapsInRun | src/report.cpp:58-96 | in every state of a run, an entry of the gap table has been received if and only if its packet filled it at or above the cursor |
| ArqRuns.FilledInRun | src/reassembler.cpp:102-113 | and those are exactly the sequences delivered so by some step of the run |
| ArqRuns.ReceivedListedInRun | src/report.cpp:80-88 | so in every run a report names a received sequence if and only if such a step came before, the gap is overdue, and it has room in the list |
| ArqTable.EntryStep | src/reassembler.cpp:102-119 | a step notes a gap, keeps it with its first time and latest channel, or takes it away, each exactly under its condition |
| ArqTable.TableInRun | src/reassembler.cpp:102-119 | in every run the table holds exactly the sequences noted by some packet and neither fetched nor forgotten since |
| ArqTable.OriginEntry | src/reassembler.cpp:105-107 | an entry carries the time of the packet that noted it anew and the channel of the packet that noted it last |
| ArqTable.NamedInRun | src/report.cpp:63-88 | in every run a report names a sequence if and only if it has an entry, the peer retransmits, the packet that last noted it came on a channel below 8 that is marked reliable, the one that noted it anew came longer ago than the loss threshold and no longer than the give-up time, and there is room |
| ArqResends.HandledInRun | src/report.cpp:397-422 | in every run a report puts aside for resending exactly the buffered packets that it names and that were resent fewer than ten times, and keeps exactly those of them that it names or does not acknowledge, unchanged |
| ArqResends.OneChannel | src/transport.cpp:1832-1864 | every number is sent on one channel |
| ArqResends.ChannelsInRun | src/transport.cpp:1832-1875 | in every state of a run, each buffered packet, each one put aside and each copy in the network carries the channel its number was sent on |
| ArqResends.ResentInRun | src/report.cpp:424-434 | a resend puts a copy of the packet itself, on the channel it was sent on, into the network and counts it |
| ArqTable.MislabelledGap | src/reassembler.cpp:105-107 | a run in which a packet lost on a reliable channel is skipped and not named, because the packet above it was on an unreliable one |
| ArqTable.PassedUnnamed | src/report.cpp:58-88 | and what the cursor has passed without an entry is never named again, in any run |
| ArqTable.CursorUnlistedInRun | src/report.cpp:67-96 | in every run the cursor waits below a received packet at a sequence that is not noted if and only if some report forgot that sequence and no packet has noted it since |
| ArqTable.UnlistedUntilPacket | src/report.cpp:58-96 | until a packet at or above it arrives, the cursor stays there and no report names the sequence, in any run |
| ArqRuns.OnlyStubsReturn | src/transport.cpp:1879-1882 | in every reachable state, a step brings back a pruned sequence if and only if it records its size, and then with an empty header |
| ArqRuns.StubComesBack | src/transport.cpp:1879-1882 | a run in which that happens: sent, received, acknowledged and pruned before the size is recorded |
| Field25519.FeAdd | src/crypto.cpp:249-251 | the sum modulo p, with limbs bounded for the next product |
| Field25519.FeSub | src/crypto.cpp:253-262 | the difference modulo p; adding 2p keeps every limb from underflowing |
| Field25519.Carry | src/crypto.cpp:274-283 | the carry chain keeps the value modulo p and leaves limbs below 2^52 |
| Field25519.FeMul | src/crypto.cpp:264-284 | the product modulo p for limbs below 2^54, with no overflow of 64 or 128 bits |
| Field25519.FeMulScalar | src/crypto.cpp:289-306 | the product with a small scalar, likewise |
| FieldInverse.PowAdd | src/crypto.cpp:313-315 | powers add in the exponent |
| FieldInverse.FeSqN | src/crypto.cpp:308-311 | n squarings raise to 2^n |
| FieldInverse.FeInv | src/crypto.cpp:316-331 | the addition chain raises to the power 2^255 - 21 |
| FieldInverse.ExponentIsPMinusTwo | src/crypto.cpp:313 | which is p - 2 |
| FieldBytes.LoadLe64 | src/crypto.cpp:172-176 | eight bytes as a little-endian number |
| FieldBytes.FeFromBytes | src/crypto.cpp:178-186 | the five limbs hold the 255 low bits of the string |
| FieldBytes.CarryPass | src/crypto.cpp:191-197 | a pass keeps the value modulo p, and three make it smaller than 2p |
| FieldBytes.Canonical | src/crypto.cpp:198-213 | the borrow chain selects the representative below p |
| FieldBytes.PackValue | src/crypto.cpp:215-246 | the 32 packed bytes are that number, little-endian |
| FieldBytes.FeToBytes | src/crypto.cpp:188-247 | the output is the one string whose value is the element, reduced below p |
| X25519.ClampIsMask | src/crypto.cpp:362-364 | the arithmetic form of the clamping is the three bit masks |
| X25519.MaskedByZeros | src/crypto.cpp:333-340 | the masked exchange with swap 0 changes nothing |
| X25519.MaskedByOnes | src/crypto.cpp:333-340 | and with swap 1 exchanges |
| X25519.LadderStep | src/crypto.cpp:381-396 | one rung of the ladder, with all limbs in bounds: the doubled point and the sum of two points on the Montgomery curve with coefficient 486662, in projective coordinates |
| MontgomeryCurve.ClimbOnCurve | src/crypto.cpp:381-396 | the rung of section 5 of RFC 7748, which goes by the constant 121665, doubles and adds by the projective formulas of the curve, which do not, modulo any number |
| CurveLaw.DoubledIsTangent | src/crypto.cpp:381-396 | and doubling is the tangent construction on y^2 = x^3 + 486662 x^2 + x, modulo any number |
| CurveLaw.AddedIsChord | src/crypto.cpp:381-396 | and adding is the chord construction, given the difference of the two points |
| MontgomeryCurve.LadderMultiplies | src/crypto.cpp:367-399 | from any bit on, the ladder holds the two consecutive multiples of the point that the bits of the scalar above it ask for |
| Montgomery.ScalarBits | src/crypto.cpp:360-364 | the clamped scalar is 2^254 plus the bits 3 to 253 of the key, a multiple of 8 from 2^254 up to 2^255 |
| Montgomery.SpecIsMultiple | src/crypto.cpp:357-408 | so the X25519 function is that multiple of the point, divided by its second coordinate |
| X25519.RunLadder | src/crypto.cpp:367-399 | the deferred swap computes the ladder that swaps before and after each rung |
| X25519.SharedSecret | src/crypto.cpp:357-408 | the result is the X25519 function of section 5 of RFC 7748, and so the clamped multiple of the point on the curve; it is refused exactly when it is zero |
| Sha256.ExpandSchedule | src/crypto.cpp:43-54 | the message schedule of section 6.2.2 of FIPS 180-4 |
| Sha256.Sha256Ctx.CompressBlock | src/crypto.cpp:42-69 | the 64 rounds and the final additions of section 6.2.2 of FIPS 180-4 |
| Sha256.Sha256Ctx.Take | src/crypto.cpp:73-84 | a full buffer enters the chaining value; otherwise bytes accumulate |
| Sha256.Sha256Ctx.Update | src/crypto.cpp:71-85 | the context absorbs the data after everything before it |
| Sha256.PadPosition | src/crypto.cpp:89-92 | the padding loop stops at 56 after the smallest number of zero bytes |
| Sha256.Sha256Ctx.Finish | src/crypto.cpp:87-104 | the digest of the whole message, padded by section 5.1.1 of FIPS 180-4 |
| Sha256.PaddedBlocks | src/crypto.cpp:88-97 | the padding ends on a block boundary and is the shortest that does |
| Sha256.PaddedInjective | src/crypto.cpp:88-97 | padded messages differ when messages below 2^61 bytes do |
| Sha256.HashPieces | src/crypto.cpp:71-104 | every split into updates gives the digest of the concatenation |
| Sha256.RotateByShifts | src/crypto.cpp:28-61 | each rotation of the six mixing functions is the pair of shifts the source writes |
| Sha256Vector.AbcDigest | tests/test_crypto.cpp:48-53 | the digest of "abc" is the published one, which takes all 64 round constants and the initial state |
| Ghash.BlockBitIsCoefficient | src/crypto.cpp:542 | bit i of the block, from the top of its first byte, is the coefficient of x^i |
| Ghash.TimesXIsFold | src/crypto.cpp:545-550 | the shift with 0xE1 is multiplication by x modulo x^128 + x^7 + x^2 + x + 1 |
| Ghash.ShiftRight | src/crypto.cpp:545-550 | the in-place shift, from the last byte to the first |
| Ghash.GhashMul | src/crypto.cpp:537-553 | the block becomes the product in GF(2^128) of section 6.3 of NIST SP 800-38D |
| Ghash.GhashUpdate | src/crypto.cpp:555-567 | GHASH over the data in zero-padded blocks |
| Ghash.PolyInjective | src/crypto.cpp:537-553 | blocks with the same polynomial are the same |
| Gcm.Increment | src/crypto.cpp:600-603 | the carry loop adds one to the last four bytes modulo 2^32 and leaves the nonce |
| Gcm.CountersDistinct | src/crypto.cpp:600-603 | counter blocks differ as long as fewer than 2^32 are used |
| Gcm.CryptInto | src/crypto.cpp:594-611 | the data xor-ed with the key stream, with a partial last block |
| GcmTag.KeyStream | src/crypto.cpp:594-625 | byte q of block k is masked by byte q of the cipher at the nonce followed by the counter k + 2 |
| Gcm.CryptTwice | src/crypto.cpp:594-611 | encrypting twice gives the data back |
| Gcm.J0 | src/crypto.cpp:623-625 | the nonce followed by the counter 1 |
| Gcm.LengthsRecorded | src/crypto.cpp:579-586 | the last block of GHASH holds both lengths in bits |
| Gcm.ComputeTag | src/crypto.cpp:569-592 | the tag of section 7.1 of NIST SP 800-38D |
| GcmTag.GhashIsSum | src/crypto.cpp:555-567 | GHASH of any data is the sum of its zero-padded blocks, each times its power of the hash key |
| GcmTag.TagIsSum | src/crypto.cpp:569-592 | a tag fits if and only if it is the mask xor the sum of the blocks of the additional data, of the ciphertext and of their lengths, each times its power of the hash key (section 6.4 of NIST SP 800-38D) |
| GcmTag.TagDifference | src/crypto.cpp:569-592 | for additional data of one length that differ in one block, the tags differ by the difference of the blocks times a power of the hash key |
| GcmTag.ReductionPolynomial | src/crypto.cpp:536-553 | the field is that of x^128 + x^7 + x^2 + x + 1 |
| Gcm.OneTag | src/crypto.cpp:643-646 | exactly one tag fits a ciphertext |
| Gcm.Encrypt | src/crypto.cpp:615-629 | ciphertext and tag of the plaintext |
| Gcm.Decrypt | src/crypto.cpp:631-649 | accepts if and only if some plaintext encrypts to this ciphertext and tag, returns it, and otherwise writes nothing |
| Gcm.SealedOnce | src/crypto.cpp:631-649 | a ciphertext opens to one plaintext only |
| Gcm.FreshKeyStream | src/crypto.cpp:600-603 | below the wrap no counter block repeats, and none masks the tag as well |
| Gcm.SealThenOpen | src/crypto.cpp:615-649 | decryption of an encryption succeeds with the plaintext |
| Gf2Poly.Division | src/crc32.cpp:13-35 | the reference of the checksum: long division gives quotient and remainder of lower degree |
| Gf2Poly.RemUnique | src/crc32.cpp:13-35 | and no other remainder is possible |
| Crc32.InitTable | src/crc32.cpp:13-21 | entry i is eight shifts of i |
| Crc32.ShiftLinear | src/crc32.cpp:17 | the shift register is linear |
| Crc32.TableStep | src/crc32.cpp:28 | the table step is eight single-bit steps |
| Crc32.CrcUpdate | src/crc32.cpp:25-31 | the register after the data |
| Crc32.CrcCompute | src/crc32.cpp:33-35 | the checksum of the data |
| Crc32.UpdateConcat | src/crc32.cpp:25-31 | updating piece by piece is updating with the concatenation |
| Crc32.CrcIsPolynomialDivision | src/crc32.cpp:25-35 | the checksum is the complemented, mirrored remainder of the division in section 3.2.9 of IEEE 802.3 |
| Crc32Vector.XorIsBoth | src/crc32.cpp:28 | the exclusive or of the model is that of 32-bit words |
| Crc32Vector.ShiftIsBvShift | src/crc32.cpp:17 | and the shift register is shift, test and exclusive or on 32-bit words |
| Crc32Vector.CheckValue | tests/test_crc32.cpp:12-18 | the checksum of the digits 1 to 9 is the published check value 0xCBF43926 |
| Crc32.BurstDetected | src/crc32.cpp:25-35 | messages that differ only within at most four consecutive bytes have different checksums |
| PacketCodec.EncodeHeaderTo | src/packet_codec.cpp:12-46 | the 48 bytes read back as the header with a zero checksum; nothing behind them changes |
| PacketCodec.FinalizeCrc | src/packet_codec.cpp:48-55 | the checksum field becomes the checksum of the datagram with that field zero |
| PacketCodec.EncodeTo | src/packet_codec.cpp:57-66 | the buffer becomes the datagram of header and payload |
| PacketCodec.HeaderInjective | src/packet_codec.cpp:28-44 | no byte of the 48 is lost in the layout |
| PacketCodec.HeaderLayout | docs/tight_design.md:104-122 | the fields in the order and widths of the documented table, big-endian, except that the low word of the session id comes first |
| PacketCodec.Decode | src/packet_codec.cpp:74-127 | returns header and payload if and only if the input starts with a datagram of theirs, whatever follows it |
| PacketCodec.CorruptPayloadRejected | src/packet_codec.cpp:118-123 | a change within at most four consecutive payload bytes makes decoding fail |
| PacketCodec.CorruptHeaderRejected | src/packet_codec.cpp:110-123 | and so does one within four consecutive bytes of the first 44 that leaves the payload size |
| SecureDatagram.NonceUnique | src/transport.cpp:1756-1773 | outside the handshake, nonces agree if and only if client, type and the sequence (commands) or message and fragment (the rest) do |
| SecureDatagram.BuildWirePacket | src/transport.cpp:1778-1801 | the datagram carries the payload, sealed with its own first 44 bytes as additional data or plain |
| SecureDatagram.DecryptPayload | src/transport.cpp:1804-1822 | opens if and only if the body was sealed under the nonce and the re-encoded head; restores size and flags |
| SecureDatagram.Receive | src/transport.cpp:1183-1187 | decoding, then opening what is flagged |
| SecureDatagram.WireRoundTrip | src/transport.cpp:1778-1822 | what was built is received as the original header (checksum aside) and payload, sealed or not, with anything behind it, if and only if the original flags leave the bit of sealed packets free |
| SecureDatagram.FitsMtu | src/transport.cpp:1778-1801 | a full fragment fits the mtu on the wire if and only if it is not sealed; sealed, it is 16 bytes too long |
| ReportCodec.BuildPayload | src/report.cpp:178-281 | the payload reads back as what was measured: at most 256 losses, 32-bit rates, bins clamped to 255, at most 48 pairs |
| ReportCodec.ReportedInRange | src/report.cpp:178-281 | what fits its field is reported unchanged, and the median in whole milliseconds |
| ReportCodec.ReportLayout | src/report.cpp:183-241 | the fields of a complete report in their order on the wire, big-endian |
| ReportCodec.FramesLayout | src/report.cpp:243-274 | and those of the frame statistics in both forms |
| ReportCodec.WriteFixed | src/report.cpp:183-195 | acknowledgment, ratio, count and the listed losses |
| ReportCodec.WriteOptional | src/report.cpp:196-241 | the fixed optional fields, written out of order |
| ReportCodec.WriteBins | src/report.cpp:256-263 | the lite frame statistics |
| ReportCodec.WritePairs | src/report.cpp:264-274 | the frame pairs of normal mode |
| ReportCodec.ReadFrames | src/report.cpp:339-372 | the reader of the frame statistics |
| ReportCodec.ReadReport | src/report.cpp:283-395 | the reader takes each field that lies within the payload |
| ReportCodec.TruncatedReport | src/report.cpp:303-333 | cut anywhere within the optional fields, exactly the fields cut off read as zero |
| LatencyStats.Stats.Record | src/reassembler.cpp:72-90 | one sample enters one bin, and the late count follows the line or the threshold |
| LatencyStats.BelowPermuted | src/report.cpp:110-117 | counts by bin do not depend on the order of the samples |
| LatencyStats.SortedCounts | src/report.cpp:110-117 | in sorted order the sample at index k lies below bin b if and only if more than k samples do |
| LatencyStats.Stats.MedianBin | src/report.cpp:110-117 | the bin found holds the sample at index n/2 of every sorted order |
| LatencyStats.MedianError | src/report.cpp:113-117 | the reported median is within 4 ms of the middle sample, unless that took 2.04 s or longer |
| LatencyStats.Stats.OverLine | src/report.cpp:118-128 | the samples above the bin of the line, and of that bin the part of its 8 ms that lies above the line, rounded down |
| LatencyStats.Stats.Evaluate | src/report.cpp:104-169 | the late ratio is at most 10000 in ten-thousandths, so it fits its 16 bits; the interval starts over |
| LatencyStats.Ratio | src/report.cpp:128-152 | part of whole in ten-thousandths, rounded down |
| BlockingQueue.BlockingQueue.constructor | include/tight/blocking_queue.hpp:21-22 | an empty open queue |
| BlockingQueue.BlockingQueue.ObtainNode | include/tight/blocking_queue.hpp:122-131 | a node of neither list, recycled when possible |
| BlockingQueue.BlockingQueue.LinkTail | include/tight/blocking_queue.hpp:146-154 | the node becomes the last of the live list |
| BlockingQueue.BlockingQueue.RecycleNode | include/tight/blocking_queue.hpp:134-143 | the free list grows at its head, up to 64 nodes |
| BlockingQueue.BlockingQueue.UnlinkHead | include/tight/blocking_queue.hpp:157-166 | the first item leaves, and its node changes lists |
| BlockingQueue.BlockingQueue.Push | include/tight/blocking_queue.hpp:35-49 | after the wait: refused if and only if closed |
| BlockingQueue.BlockingQueue.TryPush | include/tight/blocking_queue.hpp:51-59 | refused if and only if closed or full |
| BlockingQueue.BlockingQueue.Take | include/tight/blocking_queue.hpp:61-68 | after the wait: the first item, or nothing when closed and empty |
| BlockingQueue.BlockingQueue.TakeFor | include/tight/blocking_queue.hpp:70-77 | the first item, or nothing at the deadline |
| BlockingQueue.BlockingQueue.Poll | include/tight/blocking_queue.hpp:79-83 | the first item, or nothing |
| BlockingQueue.BlockingQueue.Close | include/tight/blocking_queue.hpp:85-90 | closes and keeps the items |
| QueueSpec.FirstInFirstOut | include/tight/blocking_queue.hpp:35-91 | in every run what went in is what came out followed by what is left, in order; the bound holds |
| QueueSpec.ClosedForGood | include/tight/blocking_queue.hpp:37-43 | after close nothing enters |
| QueueSpec.DrainsAfterClose | include/tight/blocking_queue.hpp:61-84 | and what was left comes out completely and in order |
| QueueSpec.EnoughRemovals | include/tight/blocking_queue.hpp:61-84 | one item for each removal |
| TokenBucket.Sender.RefillTokenBucket | src/transport.cpp:1115-1126 | a refill adds the bytes that the bandwidth carries in the elapsed microseconds, up to four datagrams or a fiftieth of a second, whichever is more |
| TokenBucket.Sender.SendAudio | src/transport.cpp:2049-2064 | audio leaves regardless of the bucket |
| TokenBucket.Sender.SendOrdinary | src/transport.cpp:2066-2108 | the queue up to the first packet that does not get its tokens |
| TokenBucket.Sender.OpenHeartbeat | src/transport.cpp:2033-2048 | refill, evacuation reset and the limited mark |
| TokenBucket.Sender.SettleLoan | src/transport.cpp:2109-2126 | calling in and settling the loan |
| TokenBucket.Sender.RunHeartbeat | src/transport.cpp:2022-2126 | one heartbeat: state, packets on the wire and callbacks |
| TokenRuns.PassSpends | src/transport.cpp:2066-2108 | a pass spends exactly what it sends; video stays within what the bandwidth carries in the seconds of the loan, everything else leaves no debt |
| TokenRuns.ShortPacketIsLost | src/transport.cpp:2101-2105 | a strict packet short of tokens is neither sent nor kept, against the comment |
| TokenFates.PassStops | src/transport.cpp:2066-2108 | a pass takes its packets in order: it sends those it does not pass over, up to the first without its tokens, which leaves the queue unsent |
| TokenFates.FateOfBeat | src/transport.cpp:2033-2126 | every packet of a heartbeat is sent, passed over, dropped, wiped with an exhausted loan or still queued; one strict packet is dropped if and only if the pass is short |
| TokenFates.FateOfRun | src/transport.cpp:2022-2126 | so in every run nothing is lost or counted twice, and as many strict packets are dropped as heartbeats were short |
| TokenRuns.BeatLedger | src/transport.cpp:2022-2126 | a heartbeat sends at most what it had, earned and was forgiven |
| TokenRuns.BeatDiscipline | src/transport.cpp:2075-2100 | no video leaves a heartbeat that starts draining; strict sends leave the bucket non-negative |
| TokenRuns.RunLedger | src/transport.cpp:2022-2126 | conservation over every run with changing bandwidth, evacuations included |
| TokenRuns.SpendingBound | src/transport.cpp:2022-2126 | without evacuations, bytes sent are at most the first bucket and the refills, or these and what the bandwidth at the last send carries in the seconds of the loan |
| TokenRuns.PacedRate | src/transport.cpp:1115-2126 | so without evacuations the rate over every run is the bandwidth: a million times the bytes sent beyond the first bucket are at most the sum of bandwidth times elapsed microseconds, one loan aside |
| TokenRuns.NoVideoInDebt | src/transport.cpp:2075-2126 | in every run, from the heartbeat that calls the loan in on, no video leaves before a heartbeat that ends out of debt or an evacuation |
| TokenRuns.MarksAlternate | src/transport.cpp:2109-2126 | exhausted and recovered alternate in every run, counting reports an evacuation cancels |
| TokenRuns.CallbacksAlternate | src/transport.cpp:2109-2126 | the callbacks themselves are those marks when no evacuation cancels one |
| TokenRuns.AlternatesExactly | src/transport.cpp:2038-2126 | the callbacks alternate in a run if and only if no pass is stopped by the loan limit in or after a heartbeat that cancels a reported loan |
| TokenRuns.CancelledAlarmRepeats | src/transport.cpp:2038-2042 | a run of two heartbeats from a fresh sender whose callbacks are exhausted, exhausted, recovered |
| Bandwidth.BandwidthEstimator.constructor | src/bandwidth.cpp:12-15 | estimate and seed start at the floor or above |
| Bandwidth.BandwidthEstimator.Raise | src/bandwidth.cpp:147-166 | one step up under the seed and the received rate |
| Bandwidth.BandwidthEstimator.Lower | src/bandwidth.cpp:98-126 | the graded step down |
| Bandwidth.BandwidthEstimator.ReceiveReport | src/bandwidth.cpp:30-176 | the whole state after a report |
| Bandwidth.BandwidthEstimator.ReportTimeout | src/bandwidth.cpp:198-211 | the whole state after a timeout |
| Bandwidth.BandwidthEstimator.SetSeedAndClamp | src/bandwidth.cpp:238-250 | the whole state after the probe |
| BandwidthSignals.SmoothedDelay | src/bandwidth.cpp:39-47 | the smoothed delay is seven tenths of itself and three tenths of the excess over the smallest delay seen |
| BandwidthSignals.LowersExactly | src/bandwidth.cpp:68-126 | above the floor, a report lowers the estimate if and only if it comes outside a window under sustained overload with marks above 1 %, or, unless short of tokens, lateness or loss above 2 % or a delay above 20 ms |
| BandwidthSignals.LoweredBy | src/bandwidth.cpp:98-126 | and then to 90, 75, 65 or 50 % of it, as the strongest believed signal reaches 0, 5, 20 or 50 %, but not below the floor |
| BandwidthSignals.RaisedBy | src/bandwidth.cpp:128-174 | by how much a clear report raises it: half of it, up to the seed and 1.2 times the received rate, in two steps of three |
| BandwidthSignals.LeftAlone | src/bandwidth.cpp:68-176 | every other report leaves estimate, step and redundancy alone |
| BandwidthSignals.OtherEvents | src/bandwidth.cpp:198-250 | the first timeout of a stall halves the estimate, and the first probe caps it at its bytes per second |
| BandwidthRuns.ReachableBounds | src/bandwidth.cpp:12-250 | in every reachable state the estimate is at most the seed, and below the floor only after a probe |
| BandwidthRuns.ReportDirection | src/bandwidth.cpp:68-176 | uncongested reports never lower the estimate, congested ones never raise it above the floor, window reports leave it |
| BandwidthRuns.FloorBroken | src/bandwidth.cpp:247-249 | only the first probe, below 100 kbps, takes it below the floor |
| BandwidthRuns.OneHalvingPerStall | src/bandwidth.cpp:198-211 | any number of timeouts in a row halve once |
| BandwidthRuns.LastThreeReports | src/bandwidth.cpp:151-174 | of three recovery reports exactly two raise the estimate, from any phase |
| BandwidthRuns.TwoStepsDouble | src/bandwidth.cpp:151-166 | which doubles it at least, truncation included |
| BandwidthRuns.RecoversToSeed | src/bandwidth.cpp:128-174 | 3 (1 + k) recovery reports reach a seed of at most 2^k floors |
| CommandChannel.Peer.DrainInto | src/command.cpp:56-64 | hands over the contiguous run and moves the cursor past it |
| CommandChannel.Peer.ExpireInto | src/command.cpp:66-80 | skips the gap once the wait is over |
| CommandChannel.Peer.HandleCommand | src/command.cpp:11-37 | the branches of an arrival |
| CommandChannel.Peer.FlushExpired | src/command.cpp:39-45 | the periodic expiry |
| CommandChannel.Peer.Reset | src/command.cpp:47-54 | back to the start |
| CommandRuns.DeliveredInOrder | src/command.cpp:11-80 | in every run delivered sequences strictly increase, held ones are above the cursor, and what was taken in is delivered or held |
| CommandRuns.DeliversFirstArrival | src/command.cpp:33 | each payload is the first that arrived under its sequence |
| CommandRuns.ContiguousWhilePatient | src/command.cpp:25-28 | delivery has no gaps while no wait runs out |
| CommandRuns.ExpiryShrinks | src/command.cpp:73-77 | an expiry delivers at least the smallest held command |
| CommandRuns.ExpiryReleases | src/command.cpp:66-80 | an expiry releases the held commands up to the next gap and no others |
| CommandRuns.SecondGapWaitsAgain | src/command.cpp:73-79 | so everything held leaves if and only if it has no gap in it; otherwise the next expiry takes another 3 RTT |
| CommandRuns.WaitStartsInTime | src/command.cpp:25-31 | in every run, the wait of a held command starts no later than it came, unless the command outlived an expiry |
| CommandRuns.HeldBeyondThreeRtt | src/command.cpp:66-80 | in every run, a check keeps a command held for 3 RTT or longer if and only if a second gap comes before it or the wait was restarted less than 3 RTT ago, which only an expiry that left it behind does |
| CommandRuns.HeldTooLong | src/command.cpp:66-80 | a run in which a command is held longer than 3 RTT |

## Left out

- Sockets, threads, the logger, address and ECN handling, the handshake, heartbeats, file transfer and getters: input and output, or easy members.
- SequenceTracking.PeerSequences.MakeReport: the loss threshold, the give-up time and the reliable channels are arguments, so the results hold for all of them.
- ArqRuns.PruneIsSafe: covers data sequences only; control packets share the keys of the pending table in the source and are not part of this model.
- ArqRuns.ResendsAreBounded: the bound counts resends of entries with their own header; entries re-created empty by `src/transport.cpp:1879-1882` have a count of their own with the same bound.
- MessageRuns.RunTracks: starts where packets leave the codec; from 0x8000 data fragments on they do not get there (`SecureDatagram.WireRoundTrip`). It needs headers made by the fragmenter; a data count above the fragment count is outside the precondition of the source.
- MessageRuns.DeliveredExactly: speaks about runs that purge nothing of the message; `MessageRuns.RunTracks` covers the others step by step.
- Fragmenter.Sender.FragmentAndSend: fragment widths fit the 12-bit size field and counts their 16-bit fields; the log2 entropy is an arbitrary number; redundancy statistics and debug output are omitted.
- ReedSolomon.GfMulAdd: rows and buffers are byte strings that the methods return or assign, so aliasing between them is not captured; the matrix of rows itself is updated in place.
- GfTables.GfPow: the product of logarithm and exponent is not bounded to 32 bits.
- Fragmenter.CountCovers: holds while the covering counts fit 16 bits, to which the source cuts the product before it applies its limits.
- PacketCodec.CorruptHeaderRejected: a change of the payload size makes the checksum cover other bytes, and nothing is said about it.
- Field25519.FeMul: bitwise or of disjoint bits is written as addition, masks as remainders; constant-time execution is not modelled.
- FieldInverse.FeInv: gives the power p - 2; that it inverts needs the primality of 2^255 - 19, which is not proved.
- X25519.SharedSecret: the multiple is the one that doubling and differential addition build up; that the tangent and chord law is associative is not proved.
- Gcm.Encrypt: the block cipher is arbitrary, and input and output buffers are separate.
- HMAC and HKDF, which only chain the hash.
- SecureDatagram.BuildWirePacket: a payload must leave room for the tag in the 16-bit size field; the source does not check it.
- BlockingQueue.BlockingQueue.Push: waiting is the precondition that its condition holds; the fairness of wake-ups is not modelled.
- LatencyStats.Stats.Evaluate: the loss count that enters the ratio is an argument; the tail mean for diagnostics is omitted.
- ReportCodec.BuildPayload: takes the measured values as its argument; resetting their counters is not modelled.
- TokenBucket.Sender.RunHeartbeat: whether a packet's channel is drained, its peer reachable and the estimate at that moment are part of the packet; video capacity and the lite mode path are omitted.
- Bandwidth.BandwidthEstimator.ReceiveReport: the time of the last strong reduction and the RTT average are omitted.
- Any claim that no message is lost in the send queues: a full encode queue gives back a payload that has already been moved out.
