# Verified models of the ASFW timing, framing and ROM tools

ASFW is a FireWire audio driver. Beside the driver its repository keeps executable models of the
timing mathematics, a DV frame assembler, a descriptor-program builder and a configuration-ROM parser.
This project models those parts in Dafny and proves what the scripts only sample: statements about
every cycle, every seed, every schedule, every chunk sequence, every packet list and every ROM.

| file | models |
|---|---|
| `BlockingEngine.dfy`, `CadenceLaws.dfy` | the exact deadline DDA for IEC 61883-6 blocking transmission, and the laws of its runs |
| `AppleNuDcl.dfy` | Apple's wrap-around cadence counter: refinement of the unbounded DDA, drift against the exact engine |
| `ZtsAnchors.dfy` | zero-timestamp anchors: observability, bus cycle, spacing, slope |
| `SytReplay.dfy` | the 16-bit SYT replay chain and its 512-slot ring |
| `TxPreparation.dfy` | the TX preparation protocol over a generation-stamped ring |
| `TimingGeometry.dfy` | the generational frame ring, and interpolated anchors at 48 kHz |
| `DvFrameAssembler.dfy`, `DvFrameLayout.dfy` | reassembly of SD-DV frames from DIF blocks, and the frame in numbers |
| `ItProgram.dfy`, `ItImage.dfy` | the IT DMA program builder, against a descriptor interpreter and against its image byte for byte |
| `Crc16.dfy`, `ConfigRom.dfy`, `RomEncoding.dfy` | the IEEE 1212 CRC and the directory walk, read back against an encoder |
| `RefillPump.dfy`, `TrialCounters.dfy` | the legacy refill pump, and what a trial's counters count |
| `BufferGeometry.dfy` | the geometry solver |
| `Arith.dfy`, `CommonMultiples.dfy`, `GenerationStamps.dfy`, `ByteStrings.dfy`, `Options.dfy` | shared arithmetic, ring stamps, byte strings and the option type |

Conventions. Objects that the source updates in place are classes whose methods are proved against a
specification that does not mention the fields: a timeline of events, a history of blocks, a write
frontier, a list of packets. Loops that update local lists keep them as sequences. Python integers are
unbounded and so are Dafny's; fields that the source masks are reduced with `%`. Masks and shifts over
disjoint bits are written as sums of scaled remainders, except in the CRC, where words are bit
sequences. Floor division and remainder by a positive number agree in both languages, for negative
operands too. Random draws, jitter and host clocks are replaced by an arbitrary seed, delay schedule or
callback schedule. The error paths of the source are kept: a rejected TX geometry, an address that does
not fit 32 bits, a directory past the end of the ROM, and an unreadable leaf, which raises out of the walk.

## Results that differ from the source's own claims

- **Seed independence** (tools/amdtp_blocking_cadence_sim.py:995-1014) draws seeds up to 6144 ticks and
  expects 441 data packets in every 640-cycle window. A window holds 441 exactly when the seed is at most
  4458 ticks past the window's start (`CadenceLaws.Window441`), so all windows of a run do exactly when the
  seed is at most 4458 (`CadenceLaws.EveryWindow441`); with a seed of 4459 the first window holds 440
  (`CadenceLaws.SeedIndependenceCounterexample`).
- **Replay rate lock** (tools/amdtp_blocking_cadence_sim.py:916-918) compares replayed frames with a device
  window whose stop index is `cycles - 256`. In a trial shorter than that the index is negative and counts from
  the end of the list: up to 128 cycles the window is empty, and from 129 to 255 it holds the first
  `2 * cycles - 256` packets although nothing is replayed. The lock holds exactly when the trial has at least
  256 cycles, or packets carry no frames, or the first event lies beyond the window (`SytReplay.RateLockIff`);
  it fails, for instance, in every trial of 129 to 255 cycles with frames in its packets and a seed below one cycle
  (`SytReplay.ShortTrialMismatch`).
- **The geometry solver** (tools/buffer_geometry_verify.py:213-242) accepts negative IO sizes: from -2433 to -1
  its geometry meets all 15 invariants, because the remainder tests and the margins hold and the exposure
  window is not yet negative (`BufferGeometry.Solve`). Among positive sizes the bound is 2336.
- **Smallest profile** (tools/buffer_geometry_verify.py:23 and 214) is what the solver says it finds. The ring is
  the least one, but the slot counts never go below 912 shared and 1024 timeline slots, and it returns the
  smallest profile above those floors. It is the smallest outright exactly from an IO size of 2165 on
  (`BufferGeometry.Solve`); the floors cost shared slots below 1503 and timeline slots below 2165
  (`BufferGeometry.FloorsReached`). At the default of 1024 a ring of 3072 with 876 slots of each kind meets every
  invariant (`BufferGeometry.DefaultIsNotSmallest`), while the solver returns 912 and 1024.

## Model

| member | source | states |
|---|---|---|
| `BlockingEngine.RationalBlockingEngine.constructor` | tools/amdtp_blocking_cadence_sim.py:139-149 | a new engine stands before the first event of its timeline |
| `BlockingEngine.RationalBlockingEngine.NextCycle` | tools/amdtp_blocking_cadence_sim.py:156-169 | the packet of cycle c is data exactly when some event's deadline lies in cycle c, and then carries that event's in-cycle offset, tick and DBC; otherwise no-data holding the DBC |
| `BlockingEngine.RationalBlockingEngine.Run` | tools/amdtp_blocking_cadence_sim.py:171-172 | the same for every cycle of a run of any length |
| `BlockingEngine.CountIsEventsBefore` | tools/amdtp_blocking_cadence_sim.py:156-169 | the closed-form count at cycle c is exactly the number of events whose deadline precedes cycle c |
| `BlockingEngine.EventCycleStep` | tools/amdtp_blocking_cadence_sim.py:141-142 | under the constructor's assertion no two events share a cycle |
| `BlockingEngine.EventWindow` | tools/amdtp_blocking_cadence_sim.py:157-158 | the DDA's comparison decides whether cycle c holds an event, and the only candidate is the next one due |
| `BlockingEngine.OffsetInCycle` | tools/amdtp_blocking_cadence_sim.py:159-161 | the offset of an event is in range: its tick divided by 3072 is its cycle |
| `BlockingEngine.NextEvent` | tools/amdtp_blocking_cadence_sim.py:164-165 | event n + 1 is one step later and its DBC is the interval further modulo 256 |
| `CadenceLaws.RunCarriesEvents` | tools/amdtp_blocking_cadence_sim.py:359-371 | any stretch of any run carries exactly the events with deadlines in it, and the interval times as many frames |
| `CadenceLaws.RunIsDda` | tools/amdtp_blocking_cadence_sim.py:139-172 | every packet of a run from the parameters and the number n of data packets before it: the next deadline is seed + n steps, it is sent in the cycle of 3072 ticks that contains it, and the DBC is dbc0 for n = 0 and n intervals further modulo 256 otherwise |
| `CadenceLaws.EventIsEmittedOnce` | tools/amdtp_blocking_cadence_sim.py:156-169 | event n is emitted in cycle floor(D_n / 3072) and nowhere else, with its offset, tick and DBC |
| `CadenceLaws.WindowCount` | tools/amdtp_blocking_cadence_sim.py:651-675 | every window past startup holds the floor of its ideal count or one more, and the exact count when it is whole |
| `CadenceLaws.PeriodWindowExact` | tools/amdtp_blocking_cadence_sim.py:359-371 | when P cycles are K steps, a P-window holds exactly K packets if and only if it starts past startup |
| `CadenceLaws.EventShift` | tools/amdtp_blocking_cadence_sim.py:359-371 | when P cycles are K steps, event n + K falls P cycles after event n at the same offset |
| `CadenceLaws.DecisionsRepeat` | tools/amdtp_blocking_cadence_sim.py:331-371 | past startup, decisions, offsets and frame counts repeat with period P |
| `CadenceLaws.LongStepsExact` | tools/amdtp_blocking_cadence_sim.py:380-401 | when m steps are a whole number of units, every window of m floor increments has the same number of long ones |
| `CadenceLaws.ScalingKeepsTimeline` | tools/amdtp_blocking_cadence_sim.py:620-644 | multiplying rate and interval by k moves no event's cycle or tick, from any seed |
| `CadenceLaws.FamilyIdentity` | tools/amdtp_blocking_cadence_sim.py:620-644 | the scaled engine makes the same decision with the same offset in every cycle, with k times the frames |
| `CadenceLaws.Window441` | tools/amdtp_blocking_cadence_sim.py:995-1014 | a 640-cycle window of the 44.1 family holds 441 packets if and only if the seed is at most 4458 ticks past its start |
| `CadenceLaws.EveryWindow441` | tools/amdtp_blocking_cadence_sim.py:995-1014 | every 640-cycle window of a run holds 441 packets if and only if the seed is at most 4458 ticks |
| `CadenceLaws.SeedIndependenceCounterexample` | tools/amdtp_blocking_cadence_sim.py:995-1014 | seed 4459 gives 440 packets in the first window |
| `CadenceLaws.Pattern441` | tools/amdtp_blocking_cadence_sim.py:380-410 | for every seed and event: deltas 4458 or 4459 (1386 or 1387 modulo a cycle), 34 long in any 147 summing to 655360; gaps one or two cycles, 199 twos in any 441 spanning 640 |
| `CadenceLaws.OneSecond` | tools/amdtp_blocking_cadence_sim.py:465-511 | at every rate a second past startup holds the floor of rate / interval packets or one more, with the interval times as many frames; exactly the rate in frames when the interval divides it |
| `CadenceLaws.WholeWindow` | tools/amdtp_blocking_cadence_sim.py:513-526 | at every rate, a stretch whose ideal frames are K whole packets (two seconds, any multiple of them) carries exactly K packets, and exactly its ideal frames, if and only if it starts past startup |
| `CadenceLaws.ObservedCounts` | tools/amdtp_blocking_cadence_sim.py:500-511 | exactly which packet counts occur: within one period past startup the windows of any length show the floor of the ideal count, and also one more if and only if the ideal is not whole |
| `CadenceLaws.RateAccounting441` | tools/amdtp_blocking_cadence_sim.py:465-526 | 44.1 family, within one period past startup: six cycles show exactly {4, 5} packets, a second exactly {5512, 5513}, two seconds exactly {11025} |
| `CadenceLaws.RateAccounting48` | tools/amdtp_blocking_cadence_sim.py:651-675 | 48 kHz family: six cycles show exactly {4, 5} packets, a second exactly {6000}, two seconds exactly {12000} |
| `CadenceLaws.RateAccounting32` | tools/amdtp_blocking_cadence_sim.py:651-675 | 32 kHz: six cycles show exactly {3} packets, a second exactly {4000}, two seconds exactly {8000} |
| `CadenceLaws.WholeTickPattern` | tools/amdtp_blocking_cadence_sim.py:431-458 | a rate whose step is a whole number of ticks: every delta is the step, and a window of P cycles worth K steps holds K packets exactly when the seed is less than a step past its start |
| `CadenceLaws.Pattern32` | tools/amdtp_blocking_cadence_sim.py:435 | 32 kHz: constant delta 6144, and one packet in two cycles exactly when the seed is less than a step past the window's start |
| `CadenceLaws.Pattern48` | tools/amdtp_blocking_cadence_sim.py:436-438 | 48 kHz family: constant delta 4096, and three packets in four cycles exactly when the seed is less than a step past the window's start |
| `AppleNuDcl.AppleNuDcl441.constructor` | tools/amdtp_blocking_cadence_sim.py:273-275 | the counter starts in step with the unbounded engine |
| `AppleNuDcl.AppleNuDcl441.NextCycle` | tools/amdtp_blocking_cadence_sim.py:277-284 | in every cycle, forever, the wrapped test gives the unbounded engine's decision, and the reported deadline is the true one modulo 491520000 |
| `AppleNuDcl.LagWithinHalfRing` | tools/amdtp_blocking_cadence_sim.py:279-280 | the unwrapped lag stays within half the ring at startup and ever after |
| `AppleNuDcl.WrappedLag` | tools/amdtp_blocking_cadence_sim.py:278-280 | hence nonzero wrapped lag within half the ring is the same as the deadline preceding the cycle's end |
| `AppleNuDcl.StartupPrefix` | tools/amdtp_blocking_cadence_sim.py:710-713 | the first sixteen decisions are the recovered startup prefix |
| `AppleNuDcl.StartupCounts` | tools/amdtp_blocking_cadence_sim.py:714-722 | 439 packets in the first 640 cycles, 4410 in the next 6400, and 441 or 442 in every window from cycle 3 on |
| `AppleNuDcl.DriftIdentity` | tools/amdtp_blocking_cadence_sim.py:760-783 | on a common scale the two timelines are exactly n deficits apart at event n |
| `AppleNuDcl.WrappedDrift` | tools/amdtp_blocking_cadence_sim.py:766-776 | the same for the wrapped deadline, modulo the ring |
| `AppleNuDcl.AppleNeverBehind` | tools/amdtp_blocking_cadence_sim.py:739-759 | at every cycle Apple has emitted at least as many packets as the exact engine |
| `AppleNuDcl.CrossedIsEarly` | tools/amdtp_blocking_cadence_sim.py:746-752 | an event not crossed falls in the exact cycle; a crossed one within a cycle of drift falls one cycle early |
| `AppleNuDcl.FirstCrossingIsSmall` | tools/amdtp_blocking_cadence_sim.py:746-752 | at the first crossing the drift is still within that cycle |
| `AppleNuDcl.FirstFlip` | tools/amdtp_blocking_cadence_sim.py:739-759 | the streams agree on every cycle before the one preceding the first crossed event's exact cycle, and there Apple alone sends data |
| `AppleNuDcl.FirstFlipCycle` | tools/amdtp_blocking_cadence_sim.py:743-759 | that cycle is 82081 |
| `ZtsAnchors.PublishAnchors` | tools/amdtp_blocking_cadence_sim.py:551-560 | over any run the loop publishes exactly the events whose first frame is on a boundary |
| `ZtsAnchors.ObservedIffLcm` | tools/amdtp_blocking_cadence_sim.py:551-565 | the observed boundaries are exactly the streamed multiples of lcm(period, packet size) |
| `ZtsAnchors.NoneMissedIff` | tools/amdtp_blocking_cadence_sim.py:593-613 | no boundary is ever missed if and only if the packet size divides the period |
| `ZtsAnchors.AnchorAt` | tools/amdtp_blocking_cadence_sim.py:551-565 | with an aligned period, n events publish ceil(n / k) anchors, and anchor m is event m * k at frame m * period |
| `ZtsAnchors.AnchorCycle` | tools/amdtp_blocking_cadence_sim.py:556-560 | from zero seed anchor m falls in cycle floor(8000 m Z / rate) |
| `ZtsAnchors.AnchorSlope` | tools/amdtp_blocking_cadence_sim.py:567-582 | spacing is the floor of the ideal or one more (exact when whole), and slope error between any two anchors stays within one cycle |
| `SytReplay.CycleFieldRoundTrip` | tools/amdtp_blocking_cadence_sim.py:803-808 | the seconds, cycle and offset fields read back modulo 128, 8192 and 4096 |
| `SytReplay.FieldsInNumbers` | tools/amdtp_blocking_cadence_sim.py:811-854 | on every 16-bit field, in numbers: no information for 0xFFFF, else ring distance in cycles of 3072 plus offset less the delay, one horizon of 49152 later when that would be negative; and the extension of a field on the ring |
| `SytReplay.OffsetDecoded` | tools/amdtp_blocking_cadence_sim.py:811-823 | from the 16-bit field of any device cycle the delay-free offset is recovered, one horizon later when it would be negative |
| `SytReplay.OutputCycleField` | tools/amdtp_blocking_cadence_sim.py:837-847 | the timer rebuilt from output ticks carries the cycle within its second |
| `SytReplay.Reanchored` | tools/amdtp_blocking_cadence_sim.py:826-854 | re-anchoring in any cycle and extending on the 16-cycle ring keeps the presentation modulo 49152 |
| `SytReplay.ReplayRoundTrip` | tools/amdtp_blocking_cadence_sim.py:803-854 | the whole chain, for every cycle, lead and delays: relative presentation is (raw - rx + tx) mod 49152 |
| `SytReplay.LagBands` | tools/amdtp_blocking_cadence_sim.py:944-947 | the lag is the plain constant exactly inside the horizon, and gains one horizon exactly in the band below zero |
| `SytReplay.RingStep` | tools/amdtp_blocking_cadence_sim.py:883-908 | a slot of the 512-slot ring is rewritten only after its packet has been read 256 behind |
| `SytReplay.RunReplayTrial` | tools/amdtp_blocking_cadence_sim.py:870-918 | every replayed packet is the device packet of 256 cycles before, delayed by its exact lag; frames out equal the device's frames exactly when the rate locks; guard counts exact; and in numbers: cycles - 256 packets, the records are those of the events due in them |
| `SytReplay.RecordsOnTimeline` | tools/amdtp_blocking_cadence_sim.py:885-911 | record n of a run is event n: device time its tick plus the lead, replayed 786432 + tx - rx ticks later less the horizons of 49152 that its offset fixes |
| `SytReplay.CarriesOnTimeline` | tools/amdtp_blocking_cadence_sim.py:896-899 | guards count exactly the events whose offset and lead fall short of the receive delay |
| `SytReplay.PatternPreserved` | tools/amdtp_blocking_cadence_sim.py:944-952 | when the device's offsets stay in one band, every packet has the same lag and the device's deltas come out unchanged (plain and guard branch) |
| `SytReplay.RateLockIff` | tools/amdtp_blocking_cadence_sim.py:910-918 | for every run of every length: replayed frames equal the device window's if and only if the run has at least 256 cycles, or packets carry no frames, or the seed lies at or beyond the window's end |
| `SytReplay.ShortTrialMismatch` | tools/amdtp_blocking_cadence_sim.py:916-918 | the failing case: with a seed below one cycle, a trial of 129 to 255 cycles replays nothing while its device window counts frames |
| `TxPreparation.SimulateTxPreparation` | tools/asfw_timing_geometry_sim.py:138-231 | rejects exactly when a value is not positive, a size is not a whole number of groups, the lead exceeds the slots less a group, or the delay is negative; otherwise reports the first group whose refill overtakes the frontier, at the first unexposed packet with a stale stamp, or the final cursors |
| `TxPreparation.RunSchedule` | tools/asfw_timing_geometry_sim.py:168-231 | the same for any schedule of wake delays: the stamped ring behaves as a plain frontier |
| `TxPreparation.Refill` | tools/asfw_timing_geometry_sim.py:189-209 | reading a group succeeds exactly when it ends below the frontier; otherwise it stops at the frontier on a smaller generation |
| `TxPreparation.StampStep` | tools/asfw_timing_geometry_sim.py:217-221 | committing the packet at the frontier keeps the stamps of all slots |
| `TxPreparation.FrontierBound` | tools/asfw_timing_geometry_sim.py:159-160 | no write ever evicts a packet of the last completed group or beyond, for every schedule |
| `TxPreparation.RequestsAccounted` | tools/asfw_timing_geometry_sim.py:178-187 | requests issued plus coalesced equal groups elapsed, with at most one pending |
| `TxPreparation.FrontierWhileSafe` | tools/asfw_timing_geometry_sim.py:211-221 | while no refill fails the frontier is the lead beyond the last action, or the prefill |
| `TxPreparation.SafetyThreshold` | tools/asfw_timing_geometry_sim.py:727-778 | safe under every schedule of delays up to D if and only if lead >= hardware ring + (D + 1) groups |
| `TxPreparation.FiniteThreshold` | tools/asfw_timing_geometry_sim.py:168-231 | a run of n groups is safe under every schedule of delays up to D if and only if the prefill covers the run, or lead >= hardware ring + (min(D, n - 1) + 1) groups |
| `TxPreparation.SimulationFailsIff` | tools/asfw_timing_geometry_sim.py:168-231 | the single-delay simulation fails exactly on a condition read off its configuration, prefill included |
| `TxPreparation.FailureReport` | tools/asfw_timing_geometry_sim.py:196-208 | a failing simulation reports the first overtaken group and the packet at the edge of the exposed range |
| `TxPreparation.HardwareFatal` | tools/asfw_timing_geometry_sim.py:727-753 | the recorded failure: packet 5280 needs generation 11 and finds 10; a lead of 256 survives |
| `TimingGeometry.FrameRing.constructor` | tools/asfw_timing_geometry_sim.py:36-38 | a new ring has nothing written |
| `TimingGeometry.FrameRing.Reset` | tools/asfw_timing_geometry_sim.py:40-41 | nothing is written after a reset |
| `TimingGeometry.FrameRing.WriteSpan` | tools/asfw_timing_geometry_sim.py:43-49 | stamps the frames of any span; a span stamped with its first frame's lap, beginning within the last lap, moves the frontier to its end if that is further on, and frames written again keep their stamps |
| `TimingGeometry.WrittenSlot` | tools/asfw_timing_geometry_sim.py:43-49 | after any span with any generation, each slot shows the stamp of the last frame of the span that uses it, or what it showed before |
| `TimingGeometry.FrameRing.CheckReadable` | tools/asfw_timing_geometry_sim.py:51-59 | for every ring, start and count: true exactly when every frame of the span has reached its lap; at a frontier, exactly when the count is not positive or the span ends at or below it |
| `TimingGeometry.RunReadable` | tools/asfw_timing_geometry_sim.py:31-59 | after any run of spans without gaps, for every ring size and number of wraps, a span is readable exactly when it is empty or ends at or below the plain write frontier |
| `GenerationStamps.LapMatches` | tools/asfw_timing_geometry_sim.py:55-58 | a slot has reached an item's lap exactly when the item is below the frontier, and shows just that lap exactly when it is not overwritten |
| `TimingGeometry.AlignedFrames` | tools/asfw_timing_geometry_sim.py:78-83 | any multiple of four packets carries six frames a packet at every cadence phase |
| `TimingGeometry.CadenceOrder` | tools/asfw_timing_geometry_sim.py:26 | the cadence is three data packets of eight frames and one of none, and phase k starts k packets in |
| `TimingGeometry.InterpolationOnLine` | tools/asfw_timing_geometry_sim.py:351-359 | interpolation within a group stays on the 48 kHz line |
| `TimingGeometry.PublishGroup` | tools/asfw_timing_geometry_sim.py:345-361 | the end of a group publishes every boundary it passed, in aligned and in crossed-grid mode |
| `TimingGeometry.PublishAnchors` | tools/asfw_timing_geometry_sim.py:288-364 | over every run each multiple of the period is published exactly once, in order, with host_us * 48000 = frame * 10^6 |
| `DvFrameAssembler.IdentifierInverse` | ASFW/DVFrameAssembler.swift:106-132 | every frame position is named by its identifier |
| `DvFrameAssembler.PositionInverse` | ASFW/DVFrameAssembler.swift:106-132 | every valid identifier names a position inside the frame, and only that identifier names it |
| `DvFrameAssembler.DVFrameAssembler.Ingest` | ASFW/DVFrameAssembler.swift:32-69 | after any chunk the assembler stands for its block history; a frame start closes the old frame with exactly the verdict its history calls for; placed + duplicate + invalid = 6 |
| `DvFrameAssembler.DVFrameAssembler.PlaceBlock` | ASFW/DVFrameAssembler.swift:48-66 | a block is invalid, a duplicate, or placed, exactly by its identifier and the blocks before it |
| `DvFrameAssembler.DVFrameAssembler.BeginFrame` | ASFW/DVFrameAssembler.swift:77-86 | starts an empty history for the announced system |
| `DvFrameAssembler.DVFrameAssembler.FinishCurrentFrame` | ASFW/DVFrameAssembler.swift:88-97 | completes exactly when every position was received, with each cell its first block; otherwise drops; nothing when idle |
| `DvFrameAssembler.DVFrameAssembler.Finish` | ASFW/DVFrameAssembler.swift:71-75 | the same, and forgets the system |
| `DvFrameAssembler.DVFrameAssembler.Reset` | ASFW/DVFrameAssembler.swift:24-30 | back to idle |
| `DvFrameAssembler.CellIsFirstMatch` | ASFW/DVFrameAssembler.swift:56-59 | a cell is empty exactly when no block named it, and otherwise holds the first that did, so a duplicate never hides a gap |
| `DvFrameAssembler.IngestAll` | ASFW/DVFrameAssembler.swift:32-75 | over every chunk sequence each report is the one its history calls for |
| `DvFrameLayout.IndexMeaning` | ASFW/DVFrameAssembler.swift:106-132 | a block names position 150 s + w exactly when its sequence s is below 12 on PAL and 10 otherwise and its section and number stand at w in the sequence |
| `DvFrameLayout.FrameOrder` | ASFW/DVFrameAssembler.swift:115-128 | in frame order: header, two subcode, three auxiliary blocks, then nine groups of one audio and fifteen video blocks, then the next sequence |
| `DvFrameLayout.StartMeaning` | ASFW/DVFrameAssembler.swift:33-39 | a frame start is a 480-byte packet whose first block is section 0, sequence 0, block 0 |
| `DvFrameLayout.OtherSizes` | ASFW/DVFrameAssembler.swift:33-37 | a packet of another size is one invalid block and changes nothing |
| `DvFrameLayout.CompletesIff` | ASFW/DVFrameAssembler.swift:77-97 | a frame completes exactly when all of its 1800 (PAL) or 1500 positions were named, and is dropped otherwise |
| `DvFrameLayout.CompletedFrame` | ASFW/DVFrameAssembler.swift:56-59 | a completed frame has 144000 or 120000 bytes, and from 80 p on those of the first block that named position p |
| `DvFrameLayout.SizeFollowsStart` | ASFW/DVFrameAssembler.swift:39-43 | over any chunk sequence a completed frame has 144000 bytes when the fourth byte of its start packet is at least 128, and 120000 otherwise |
| `DvFrameAssembler.HistorySinceLastStart` | ASFW/DVFrameAssembler.swift:39-43 | the history is exactly the blocks of the well-sized chunks since the last frame start |
| `DvFrameAssembler.OnlyFirstStarts` | ASFW/DVFrameAssembler.swift:99-104 | of a frame's packets only the first is a frame start |
| `DvFrameAssembler.RoundTrip` | ASFW/DVFrameAssembler.swift:32-97 | from any state: the start packet, then packets in any order with any repeats, close to the frame that was cut if and only if every packet was sent; otherwise the frame is dropped |
| `ItProgram.CipQ0RoundTrip` | tools/parse_amdtp.py:103-121 | decoding a built first quadlet gives every field reduced to its width |
| `ItProgram.CipQ1RoundTrip` | tools/parse_amdtp.py:108-129 | the same for the second, with its prefix recognised |
| `ItProgram.CipQ0WordRoundTrip` | tools/parse_amdtp.py:103-121 | rebuilding a decoded word gives it back exactly when its two top bits are clear |
| `ItProgram.CipQ1WordRoundTrip` | tools/parse_amdtp.py:108-129 | rebuilding a decoded word gives it back exactly when the prefix check passes |
| `ItProgram.ControlFields` | tools/parse_amdtp.py:49-71 | every field of a packed control word is read back, the request count modulo 2^16 |
| `ItProgram.DecodeEncode` | tools/parse_amdtp.py:43-99 | decoding the packed block of a packet gives its CIP quadlets, payload range, interrupt flag and branch |
| `ItProgram.ITProgramBuilder.constructor` | tools/parse_amdtp.py:209-213 | a new builder holds no packets |
| `ItProgram.ITProgramBuilder.AddPacket` | tools/parse_amdtp.py:215-228 | appends the packet's block at the next descriptor address with the next 16-aligned payload range, and changes no earlier block |
| `ItProgram.ITProgramBuilder.Finalize` | tools/parse_amdtp.py:230-239 | links block i to block (i + 1) mod n and packs the image; fails exactly when a data address does not fit 32 bits |
| `ItImage.ProgramIsImage` | tools/parse_amdtp.py:43-97 | what finalize returns, byte for byte: every quadlet of every block at its place and value, reserved quadlets zero, payloads from base + 0x10000 on the next multiple of 16 each; nothing exactly when a payload address does not fit 32 bits |
| `ItImage.DataStarts` | tools/parse_amdtp.py:221-223 | the builder's payload addresses follow that recurrence |
| `ItImage.LinkedImage` | tools/parse_amdtp.py:48-82 | one linked block is its written-out bytes |
| `ItProgram.BlockExecutes` | tools/parse_amdtp.py:208-239 | fetching and executing block i of the image emits packet i and branches to the next block of the ring |
| `ItProgram.ProgramEmitsPackets` | tools/parse_amdtp.py:208-239 | executing the program bytes emits exactly the input packets in order, around the ring forever |
| `ItProgram.PayloadsDisjoint` | tools/parse_amdtp.py:222-223 | payload ranges of different packets never overlap |
| `ItProgram.LayoutDisjointIff` | tools/parse_amdtp.py:212 | payload and descriptor bytes are disjoint exactly when the descriptors fit in 0x10000 bytes or there are no payload bytes |
| `Crc16.NibbleIsFourBits` | tools/ieee1212_parser.py:72-74 | one nibble step is four steps of bit-serial division |
| `Crc16.QuadletStep` | tools/ieee1212_parser.py:69-75 | the nibble loop divides the quadlet's 32 bits |
| `Crc16.OverQuadlets` | tools/ieee1212_parser.py:77-81 | for lists of every length the CRC is the remainder of the whole bit stream |
| `Crc16.DivideLinear` | tools/ieee1212_parser.py:69-81 | the CRC of a sum of messages is the sum of their CRCs |
| `Crc16.DivideInjective` | tools/ieee1212_parser.py:69-81 | feeding the same bits never merges two remainders |
| `Crc16.BurstDetected` | tools/ieee1212_parser.py:77-81 | streams of any length that differ only inside 16 consecutive bits and share a CRC are equal |
| `Crc16.QuadletBurstDetected` | tools/ieee1212_parser.py:77-81 | ROM contents that differ only inside 16 bits, even across a quadlet boundary, have different CRCs |
| `ConfigRom.ParseDirectory` | tools/ieee1212_parser.py:174-228 | at every offset, counted from the end when negative, parses exactly the directories whose announced quadlets can be read, with header, CRC and entries; fails otherwise |
| `ConfigRom.ParseLeaf` | tools/ieee1212_parser.py:230-244 | at every offset parses exactly the leaves whose announced quadlets can be read, with header, CRC and payload slice; raises otherwise |
| `RomEncoding.DirectoryRoundTrip` | tools/ieee1212_parser.py:174-228 | a directory written in either byte order is read back: length, CRC field, checksum of its words with bit 31 first, and for every entry raw = type 2^30 + key 2^24 + value, 0xFFFFF0000000 + 4 value for type 1, and the entry-relative target for types 2 and 3 |
| `RomEncoding.LeafRoundTrip` | tools/ieee1212_parser.py:230-244 | a leaf written in either byte order is read back: length, CRC field, checksum and bytes |
| `RomEncoding.ReadableIsWritten` | tools/ieee1212_parser.py:63-67 | and every readable block is one that could have been written |
| `RomEncoding.ReadFromEnd` | tools/ieee1212_parser.py:63-67 | a negative offset reads the bytes it counts back to from the end |
| `RomEncoding.TargetsReadBack` | tools/ieee1212_parser.py:310-317 | the walk follows type 3 entries to directories and type 2 entries to leaves, in bounds |
| `RomEncoding.ChecksumMessage` | tools/ieee1212_parser.py:186-187 | the checksum divides the words as a message, bit 31 of each first |
| `RomEncoding.ChecksumOfOne` | tools/ieee1212_parser.py:69-81 | the remainder starts at zero, and a single one leaves x^12 + x^5 + 1 |
| `ConfigRom.LeafData` | tools/ieee1212_parser.py:242 | the payload of a leaf inside the ROM is exactly the bytes of its announced quadlets |
| `ConfigRom.TargetsMeaning` | tools/ieee1212_parser.py:196-208 | a target is exactly an in-bounds entry offset plus four times the low 24 bits of an entry of that type |
| `ConfigRom.EdgesGoForward` | tools/ieee1212_parser.py:199-208 | every followed edge goes strictly forward from its directory |
| `ConfigRom.PathsGoForward` | tools/ieee1212_parser.py:292-319 | a chain of n edges ends at least n bytes further on |
| `ConfigRom.ScanEntries` | tools/ieee1212_parser.py:310-317 | one directory adds exactly its in-bounds leaves and queues exactly its in-bounds directories, or raises on an unreadable leaf |
| `ConfigRom.WalkTree` | tools/ieee1212_parser.py:292-319 | terminates on every ROM; raises exactly when a reached leaf is unreadable; otherwise returns exactly the readable reachable directories, each listed once, and exactly their in-bounds leaf targets, parsed from their own offsets |
| `RefillPump.ApplyLegacyRefill` | tools/calc_buffer_sizes.py:532-560 | moves exactly the least of shortfall, queue, space and the chunk allowance, and nothing else changes |
| `RefillPump.PumpedWithoutMax` | tools/calc_buffer_sizes.py:532-560 | a maximum no lower than the target, as every accepted configuration has (lines 344 and 369), never stops the pump early |
| `RefillPump.UnlimitedPumpFills` | tools/calc_buffer_sizes.py:532-560 | an unlimited pump leaves the ring at the target, or where it was above it |
| `RefillPump.RunTrial` | tools/calc_buffer_sizes.py:563-652 | over every schedule the cycle loop ends in the state that its callbacks, refills and packets call for, and no frame is lost or made up |
| `TrialCounters.StartState` | tools/calc_buffer_sizes.py:571-576 | the ring starts with the least of start wait, queue capacity, ring capacity and any prime limit, the queue with the rest |
| `TrialCounters.TrialCounts` | tools/calc_buffer_sizes.py:601-662 | over every schedule, levels computed apart from the steps: underrun events are the short cycles, windows their maximal runs among the cycles that need frames, underrun frames what they lack, overrun events the callbacks that do not fit, overrun frames what those lose |
| `TrialCounters.PumpedIsMost` | tools/calc_buffer_sizes.py:532-560 | one refill moves the most frames within shortfall, queue, space, 256 a chunk, and the chunks that reach the maximum |
| `RefillPump.NeededFramesClosed` | tools/calc_buffer_sizes.py:503-505 | needed frames of n cycles: eight for all but every fourth, or six each |
| `RefillPump.Conservation` | tools/calc_buffer_sizes.py:569-640 | over every schedule: prefill + offered - overrun = queue + ring + needed - underrun |
| `RefillPump.UnderrunThreshold` | tools/calc_buffer_sizes.py:563-674 | with an unlimited pump refilled at least every G cycles, no run underruns after its first refill if and only if the target holds the worst demand of G cycles: 8 (G - floor(G / 4)) in blocking mode, 6 G otherwise |
| `BufferGeometry.DefaultIsNotSmallest` | tools/buffer_geometry_verify.py:213-242 | the failing case of the smallest-profile claim at the default arguments |
| `CommonMultiples.CommonMultiple` | tools/buffer_geometry_verify.py:234 | the common multiples of two numbers are exactly the multiples of their least one |
| `BufferGeometry.Solve` | tools/buffer_geometry_verify.py:213-242 | for every nonzero IO size and ZTS period: terminates, the ring is the least common multiple of both and 32, and all 15 invariants hold exactly when the IO size is from -2433 to 2336, that is for the positive sizes up to 2336; ring, shared and timeline slots are the least that meet the invariants above the floors 912 and 1024, and the least of all exactly from an IO size of 2165; 3072, 912 and 1024 at the default arguments; with a zero among them, what it returns when it returns |
| `BufferGeometry.FloorsReached` | tools/buffer_geometry_verify.py:226-231 | the floor of 912 shared slots costs slots exactly below an IO size of 1503, the floor of 1024 timeline slots exactly below 2165 |
| `BufferGeometry.PacketGeometry` | tools/buffer_geometry_verify.py:120-168 | the slot counts meet every packet invariant except the jitter margin, which bounds the IO size from above, and the covered delta, which bounds it from below |
| `BufferGeometry.InvariantsInNumbers` | tools/buffer_geometry_verify.py:120-168 | the 15 invariants in numbers, with the window as the least whole six that covers the frames at 441 in 80 packets |
| `BufferGeometry.RingGeometry` | tools/buffer_geometry_verify.py:120-132 | a least common multiple of IO size, period and alignment meets the four ring invariants, whatever the signs |

## Left out

- ASFWDriver/ASFWDriver.cpp and the DriverConnector files: lifecycle and IOKit calls whose collaborators are not shown.
- Random jitter, Gaussian draws, Monte Carlo statistics and floating-point scheduling: replaced by arbitrary schedules.
- The Q8 nanoseconds-per-sample quantization of the anchor check and the generated C++ golden header: constants and text.
- The client callback scheduler of `simulate` (playback underruns, capture starvations): driven by random wakeups in host time.
- Candidate search and the static geometry error messages of the timing simulator: the anchor model takes their conclusion, a group size that is a multiple of four, as its precondition.
- Text-descriptor decoding in ROM leaves, the bus information block, endianness detection, and key names: heuristics and labels.
- Means, minima and maxima of the trial's fills, and its time-under-target figure: statistics over the modelled state.
- The generated golden prefixes of the 48 kHz family: finite instances of the window laws.
- tools/ir_dma_program.py, the older ROM parsers and the single-formula scripts: duplicates or easy members.
- BufferGeometry.Solve: requires that the search returns; with a zero IO size or period it adds steps of zero, so it loops forever unless the ring already holds the IO size and is a multiple of 32. The invariant list, which divides by both, is stated for nonzero values only.
- RefillPump.RunTrial: keeps the trial's counters as one value with updates instead of separate variables, so the order of the assignments within a step is not modelled.
