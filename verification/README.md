# Verification models for Rustlux

Dafny models, with proofs, of the three parts of Rustlux that carry the hardest promises: the
software ECC of kernel memory, the BORE burst accounting of the scheduler, and the memory
sentinel that watches corrected-error storms. `dafny verify dfyconfig.toml` checks everything.

Machine words are integers with their widths written out (`u8`, `u16`, `u32`, `u64` in
`Bitwise.dfy`); every wrap-around, saturation and truncation of the code is an explicit `%`, `if`
or cast function. The bitwise operators are defined digit by digit, and the theorems hold for all
64-bit words by induction on the digits or on the codeword positions.

## Software ECC

| file | content |
|---|---|
| `SoftEcc.dfy`, `Secded.dfy` | the Hamming(72,64) code: linearity of the syndrome, the decoder theorem, minimum distance, the status of every error pattern |
| `CodecLoops.dfy` | the loops of the crate, of the in-kernel Rust copy and of the C fallback, all proved equal to the same functions |
| `Scrub.dfy`, `ScrubRuns.dfy` | one pass as a function of memory, codes and counters; single passes, repeated passes, runs with bit flips |
| `Layout.dfy` | which region layouts the pass is correct for |
| `Lifecycle.dfy`, `StaleBaseline.dfy` | register, write, seal, reseal and scrub over whole runs; what a stale baseline does to legitimate writes |
| `FaultyRuns.dfy` | both together: runs from boot in which all these events and bit flips interleave |
| `Registration.dfy` | which words a run protects, when the scrubber is on, and from registration to repair |
| `SoftEccKernel.dfy` | the kernel object: arrays overwritten in place, the region list, the delayed work |

A unit is a word together with its code, 72 stored bits. `Flip` inverts one of them and `Distance`
counts the bits in which two units differ; `Verify` is shown to be the bounded-distance decoder
of the code in terms of these two notions only.

Three findings about the texts of the repository:

* The commit text of patch 0012 says that a legitimate write under a stale baseline is reported as
  uncorrectable when it changes an even number of bits, and reverted to the stale value when it
  changes an odd number. Neither holds in general. `StaleBaseline.StaleStatus` and
  `StaleBaseline.StaleWrite` give the exact conditions: the stale value comes back if and only if
  at most one bit was changed. `EvenWriteUnseen` changes data bits 0, 1, 4 and 10 and is accepted
  as clean; `OddWriteKept` changes bits 0, 1 and 2, is counted as corrected and keeps the new value;
  `OddWriteUncorrectable` changes bits 0, 26 and 57 and is reported as uncorrectable.
* The comment that status 1 means exactly one flipped bit (patch 0005, line 249) is true relative to
  the nearest codeword (`Secded.VerifyIsDecoder`), not relative to what was stored:
  `Secded.StatusByError` gives the status for every stored word and every error pattern,
  `Secded.TripleFlipOutcome` says which triples are reported, and `Secded.TripleFlipKept` is a triple
  that is answered with status 1.
* Nothing in `rustlux_softecc_protect` keeps regions from sharing words. `Layout.PassCorrectIffDisjoint`:
  a pass leaves every unit clean for all contents if and only if no word belongs to two regions.
  The run theorems with flips assume that no word does.

## BORE

| file | content |
|---|---|
| `BoreMath.dfy` | fixed-point logarithm, burst penalty, smoothing, effective priority, reciprocal table |
| `BoreTask.dfy`, `BoreContext.dfy` | the Rust context: invariants of every run, independence of tick splitting, convergence; the object updated in place |
| `BoreKernel.dfy` | the C accounting with wrapping burst time, the nested reweight call, and its agreement with the Rust code |
| `BurstCache.dfy` | both layouts of the cache word, expiry |
| `TaskForest.dfy`, `BurstInherit.dfy`, `ForkKernel.dfy` | the task tree: hub and leaf walks, sampling, caches, fork inheritance, bounds over all runs; the C loops |

Tunables lie in the ranges that their sysctl entries enforce (smoothness 0..3, offset 0..63, scale
0..4095). Task pointers are identifiers in a finite map whose roots are their own parents.

Two findings:

* The documentation of the Rust `update_curr` says it returns true if the penalty changed. A change
  is always reported (`BoreTask.ChangeIsReported`), but not every report is a change:
  `BoreTask.ReportWithoutChange` says exactly which are not, and `BoreTask.ReportedForNothing` is such
  a report with the default tunables.
* The Rust burst time saturates and the C burst time wraps. `BoreKernel.TickAgrees`: a tick leaves both
  contexts in agreement if and only if the update is suspended or the sum does not overflow, and
  `BoreKernel.RunsAgreeIff` says the same of whole runs. `BoreKernel.OverflowSplits` is a run of two
  ticks on which they part, for all tunables.

## Memory sentinel

| file | content |
|---|---|
| `Sentinel.dfy` | calls one at a time: which errors warn, how often, which storms are noticed, and a proof that the storm bound is the best possible |
| `SentinelCpus.dfy` | N CPUs, one atomic operation per step, all interleavings |

Two findings:

* "Exactly once per window" holds for calls one at a time (`Sentinel.OneWarningPerWindow`). On any
  number of CPUs a window warns at most once in every run in which no error is added while a reset
  is between its exchange and its store of 0 (`SentinelCpus.UndisturbedWarnsOnce`), hence in every run
  whose calls do not overlap (`SentinelCpus.CallsApartWarnOnce`). Adds that do fall in between are
  erased by the store, and the same window can warn twice (`SentinelCpus.TwoWarnings`); so the guarantee
  holds over all interleavings if and only if there is a single CPU
  (`SentinelCpus.WarnsOnceIffSolo`). What always holds is `SentinelCpus.EveryInterleaving`.
* The C fallback does not clamp the threshold. `Sentinel.FallbackAgreesIff`: it agrees with the Rust entry
  points on all inputs if and only if the threshold is at least 1, which the sysctl enforces.

Fewer than 2^32 errors are assumed between two resets of the counter.

## Model

| member | source | states |
|---|---|---|
| `SoftEcc.ParityPositions` | rust/rustlux_mm/src/soft_ecc.rs:45-47 | the bit trick recognises exactly the powers of two among the positions |
| `SoftEcc.DataPosition` | rust/rustlux_mm/src/soft_ecc.rs:66-74 | on every data position the index loop yields a bit below 64 and inverts the order of the data bits |
| `SoftEcc.PositionIndex` | rust/rustlux_mm/src/soft_ecc.rs:66-74 | the other direction: every data bit has a data position that maps back to it |
| `SoftEcc.SyndromeXor` | rust/rustlux_mm/src/soft_ecc.rs:50-63 | the syndrome loop is linear over exclusive or, from every position on |
| `SoftEcc.SyndromeOfPower` | rust/rustlux_mm/src/soft_ecc.rs:13-14 | the syndrome of a single data bit is its position |
| `SoftEcc.SyndromeFlip` | rust/rustlux_mm/src/soft_ecc.rs:91-96 | flipping any of the 72 stored bits adds its position to the syndrome and inverts the total parity |
| `SoftEcc.EncodeLow` | rust/rustlux_mm/src/soft_ecc.rs:77-80 | the low seven code bits are the data syndrome, which needs no truncation |
| `SoftEcc.EncodeEven` | rust/rustlux_mm/src/soft_ecc.rs:82-87 | word and code together have an even number of ones |
| `Secded.CodewordIff` | rust/rustlux_mm/src/soft_ecc.rs:77-99 | a unit is a codeword iff its syndrome is zero and its parity even |
| `Secded.SingleFlip` | rust/rustlux_mm/src/soft_ecc.rs:91-116 | every one of the 72 single flips of every codeword decodes to the original word |
| `Secded.DoubleFlip` | rust/rustlux_mm/src/soft_ecc.rs:102-103 | any two distinct flips are reported as uncorrectable |
| `Secded.TripleFlip` | rust/rustlux_mm/src/soft_ecc.rs:91-116 | no three flips are accepted as clean |
| `Secded.ErrorSyndrome` | rust/rustlux_mm/src/soft_ecc.rs:91-96 | syndrome and parity depend only on the stored bits that are wrong, not on the word |
| `Secded.StatusByError` | rust/rustlux_mm/src/soft_ecc.rs:98-115 | the status of every unit relative to every stored word, by parity and combined position of the wrong bits |
| `Secded.TripleFlipOutcome` | rust/rustlux_mm/src/soft_ecc.rs:104-113 | three distinct flips never yield the original word, and are reported iff their positions combine to one above 71 |
| `Secded.TripleFlipKept` | patches/0005-rustlux-kernel-module.patch:246-250 | a triple of flips that is answered as a corrected single flip with the wrong word |
| `Secded.CorrectedIff` | rust/rustlux_mm/src/soft_ecc.rs:91-116 | Corrected(w) is answered iff the unit is at distance exactly one from the codeword of w |
| `Secded.CleanIff` | rust/rustlux_mm/src/soft_ecc.rs:98-99 | Clean is answered iff the code is the encoding of the word |
| `Secded.VerifyIsDecoder` | rust/rustlux_mm/src/soft_ecc.rs:91-116 | the three outcomes are exactly distance 0, 1 and at least 2 from the code, for all units |
| `Secded.MinimumDistance` | rust/rustlux_mm/src/soft_ecc.rs:77-88 | codewords of distinct words differ in at least four stored bits |
| `CodecLoops.ComputeSyndrome` | rust/rustlux_mm/src/soft_ecc.rs:50-63 | the loop computes the data syndrome, below 128, with every shift amount below 64 |
| `CodecLoops.ComputeDataBitIndex` | rust/rustlux_mm/src/soft_ecc.rs:66-74 | the loop counts the data positions below the given one |
| `CodecLoops.ComputeEncode` | rust/rustlux_mm/src/soft_ecc.rs:77-88 | encoding by population counts is the encoding of the theory |
| `CodecLoops.CrateVerify` | rust/rustlux_mm/src/soft_ecc.rs:91-116 | the crate's decoder is the decoder of the theory on every input |
| `CodecLoops.CrateFfiVerify` | rust/rustlux_mm/src/soft_ecc.rs:126-132 | the crate's FFI result, status and word |
| `CodecLoops.KernelVerify` | patches/0005-rustlux-kernel-module.patch:252-284 | the in-kernel copy returns the same status and word on every input |
| `CodecLoops.FallbackVerify` | patches/0009-rustlux-soft-ecc.patch:254-295 | the C fallback returns the same status and word on every input |
| `CodecLoops.FfiMeaning` | rust/rustlux_mm/src/soft_ecc.rs:124-132 | statuses 0, 1 and -1 are distance 0, 1 and at least 2 from the code; the word is the nearest codeword's for 1 and unchanged otherwise |
| `Scrub.ScrubUnitClean` | patches/0009-rustlux-soft-ecc.patch:314-342 | whatever a unit held, it verifies clean after its visit |
| `Scrub.ScrubFirstUnit` | patches/0009-rustlux-soft-ecc.patch:348-357 | with disjoint regions a pass treats every unit independently of all others |
| `Scrub.ScrubFirstCounts` | patches/0009-rustlux-soft-ecc.patch:324-331 | the counters grow by the units that were corrupt before the pass |
| `Scrub.ScrubFirstOutside` | patches/0009-rustlux-soft-ecc.patch:310-343 | words outside every region are never written |
| `ScrubRuns.CleanIsFixed` | patches/0009-rustlux-soft-ecc.patch:310-343 | a pass over clean memory changes and counts nothing, whatever the layout |
| `ScrubRuns.PassCleans` | patches/0009-rustlux-soft-ecc.patch:310-343 | one pass from any contents leaves every unit clean; a second one is the identity |
| `ScrubRuns.PassReports` | patches/0009-rustlux-soft-ecc.patch:324-337 | each corrupt unit is counted exactly once, and nothing is left to report |
| `ScrubRuns.DoubleFlipReported` | patches/0009-rustlux-soft-ecc.patch:330-337 | a unit with two flips keeps its word, is resealed and reported by this pass only |
| `ScrubRuns.RoundRestores` | patches/0009-rustlux-soft-ecc.patch:49-56 | after at most one flip per unit a pass restores memory and codes; the corrected counter grows by the flips |
| `ScrubRuns.RunRestores` | patches/0009-rustlux-soft-ecc.patch:49-56 | the same over every run of rounds of flips and passes |
| `Layout.PassCorrectIffDisjoint` | patches/0009-rustlux-soft-ecc.patch:363-393 | a pass cleans all contents of a set of regions iff no word is shared |
| `Layout.OverlapStaysDirty` | patches/0009-rustlux-soft-ecc.patch:354-355 | shared words: contents that a pass leaves corrupt |
| `Lifecycle.SealFirstRegion` | patches/0012-rustlux-softecc-seal-after-ro.patch:85-95 | sealing replaces exactly the visited regions' codes by those of current memory |
| `Lifecycle.StepKeepsClean` | patches/0012-rustlux-softecc-seal-after-ro.patch:18-22 | no event but a write makes an armed, clean system dirty or moves memory or counters |
| `Lifecycle.SealedRunsAreQuiet` | patches/0012-rustlux-softecc-seal-after-ro.patch:54-65 | in every run from boot whose writes stop before seal_all, memory is what the writes alone leave and no event is counted |
| `Lifecycle.StaleWriteReverted` | patches/0012-rustlux-softecc-seal-after-ro.patch:10-16 | with the scrubber armed, every one-bit legitimate write is undone by the next pass and counted |
| `Lifecycle.ResealTouchesOne` | patches/0009-rustlux-soft-ecc.patch:400-408 | resealing recomputes the codes of the first region at the address from memory and changes nothing else |
| `Registration.StepSpans` | patches/0009-rustlux-soft-ecc.patch:373-388 | each event's effect on the registered ranges and on the switch |
| `Registration.RegionsAreTheProtected` | patches/0009-rustlux-soft-ecc.patch:363-393 | in every run from boot the regions are the registered ranges in order, and the switch is as last set |
| `Registration.TraceRegions` | patches/0009-rustlux-soft-ecc.patch:363-393 | the same with bit flips in between |
| `Registration.ProtectedUnit` | patches/0009-rustlux-soft-ecc.patch:374-387 | every word of a registered range is covered by a unit |
| `Registration.ProtectedWordRestored` | patches/0012-rustlux-softecc-seal-after-ro.patch:54-65 | from boot: a one-bit change after sealing in a word of any registered range is undone by the next pass and counted |
| `Lifecycle.ResealKeepsWrite` | patches/0009-rustlux-soft-ecc.patch:395-410 | resealing the region before the next pass keeps any write, with nothing counted |
| `StaleBaseline.StaleStatus` | patches/0012-rustlux-softecc-seal-after-ro.patch:10-16 | the status of every stale unit, by parity and combined position of the written bits |
| `StaleBaseline.StaleWrite` | patches/0012-rustlux-softecc-seal-after-ro.patch:10-16 | the stale value returns iff at most one bit was written; the new one stays iff the bits do not look like one data bit |
| `StaleBaseline.OneBitWriteReverted` | patches/0012-rustlux-softecc-seal-after-ro.patch:13-16 | any one-bit write is reverted to the sealed unit |
| `StaleBaseline.EvenWriteUnseen` | patches/0012-rustlux-softecc-seal-after-ro.patch:10-13 | a four-bit write that is accepted as clean |
| `StaleBaseline.OddWriteKept` | patches/0012-rustlux-softecc-seal-after-ro.patch:13-16 | a three-bit write counted as corrected whose new value stays |
| `StaleBaseline.OddWriteUncorrectable` | patches/0012-rustlux-softecc-seal-after-ro.patch:13-16 | a three-bit write reported as uncorrectable |
| `StaleBaseline.ThreeBitStatus` | patches/0012-rustlux-softecc-seal-after-ro.patch:13-16 | the status of every three-bit write, by the positions of its bits |
| `FaultyRuns.ShadowOf` | patches/0012-rustlux-softecc-seal-after-ro.patch:54-65 | at every moment of a careful run the system is a clean state with the flips since the last pass on top |
| `FaultyRuns.CarefulRunsLoseNothing` | patches/0012-rustlux-softecc-seal-after-ro.patch:18-22 | from boot, with writes only before sealing and at most one flip per unit between passes: without pending flips memory is what the writes left, all codes fit, and the corrected counter is the number of flips |
| `FaultyRuns.PassClearsPending` | patches/0009-rustlux-soft-ecc.patch:348-361 | after an enabled pass no flip is pending |
| `SoftEccKernel.ScrubWord` | patches/0009-rustlux-soft-ecc.patch:314-341 | one word in place: word, code and status after the visit, everything else unchanged |
| `SoftEccKernel.SoftEccScrubber.constructor` | patches/0009-rustlux-soft-ecc.patch:188-194 | no regions, zero counters, enabled, not scheduled |
| `SoftEccKernel.SoftEccScrubber.ScrubWords` | patches/0009-rustlux-soft-ecc.patch:310-343 | the loop over one region leaves the scrubbed memory and codes and counts every status |
| `SoftEccKernel.SoftEccScrubber.ScrubEach` | patches/0009-rustlux-soft-ecc.patch:353-356 | the list loop is the pass of the theory |
| `SoftEccKernel.SoftEccScrubber.ScrubFn` | patches/0009-rustlux-soft-ecc.patch:348-361 | the work function is the scrub event; switched off it changes nothing and stays scheduled |
| `SoftEccKernel.SoftEccScrubber.Protect` | patches/0009-rustlux-soft-ecc.patch:363-393 | appends a region of size / 8 words at the base, with a fresh code array that holds the codes of its contents, and keeps all earlier regions |
| `SoftEccKernel.SoftEccScrubber.SealAll` | patches/0012-rustlux-softecc-seal-after-ro.patch:85-101 | rewrites every region's codes from memory and arms the scrubber |
| `SoftEccKernel.SoftEccScrubber.Reseal` | patches/0009-rustlux-soft-ecc.patch:395-410 | recomputes the codes of the first region at the address, and of no other |
| `BoreMath.LogSpec` | rust/rustlux_sched/src/bore.rs:126-135 | the result is (k + 1) * 2^fp + m with m the fractional part, bounded from both sides |
| `BoreMath.LogMonotone` | rust/rustlux_sched/src/bore.rs:126-135 | the fixed-point logarithm is monotone on all of u64 |
| `BoreMath.PenaltyFormula` | rust/rustlux_sched/src/bore.rs:143-157 | the branch-free code is the documented clamp formula over unbounded integers; no step overflows |
| `BoreMath.PenaltyMonotone` | rust/rustlux_sched/src/bore.rs:143-157 | a longer burst never has a smaller penalty, and none exceeds 10239 |
| `BoreMath.SmoothBounds` | rust/rustlux_sched/src/bore.rs:165-173 | growth makes progress and never overshoots; decreases are immediate |
| `BoreMath.SmoothAgrees` | patches/0002-bore-cachy.patch:290-296 | the masked C form equals the branching Rust form on all 16-bit penalties |
| `BoreMath.EffectivePrioAgrees` | patches/0002-bore-cachy.patch:313-321 | the branch-free C clamp is the clamp to 0..39 and agrees with the Rust function |
| `BoreMath.BuildReciprocalLut` | rust/rustlux_sched/src/bore.rs:264-271 | fills the table of rounded-up reciprocals, truncated to u32; entry 0 stays 0 |
| `BoreMath.ReciprocalEdges` | rust/rustlux_sched/src/bore.rs:261-263 | entry 0 stays 0 and the reciprocal of 1 is truncated to 0 |
| `BoreMath.ReciprocalDivides` | patches/0002-bore-cachy.patch:397-398 | for counts 2..63 and totals below 2^32 / 62 multiply-and-shift is exact division without overflow |
| `BoreMath.AverageExact` | rust/rustlux_sched/src/bore.rs:275-284 | the table average is total / count, with counts above 63 dividing by 63 and count 0 giving 0 |
| `BoreTask.StepKeepsInv` | rust/rustlux_sched/src/bore.rs:207-255 | a tick or sleep keeps the relation between burst, penalties and score |
| `BoreTask.RunKeepsInv` | rust/rustlux_sched/src/bore.rs:74-118 | over every run from a new context: curr is the penalty of the burst, penalty the maximum or 0, score its high byte, at most 39 |
| `BoreTask.RunHistory` | rust/rustlux_sched/src/bore.rs:207-255 | over every run the burst is the saturated running time since the last sleep and the previous penalty the smoothed penalty of the bursts before |
| `BoreTask.ReportedIff` | rust/rustlux_sched/src/bore.rs:217-235 | a tick is reported iff it leaves the current penalty above the previous one |
| `BoreTask.SuspendedTick` | rust/rustlux_sched/src/bore.rs:213-215 | while updates are suspended a tick changes and reports nothing |
| `BoreTask.ChangeIsReported` | rust/rustlux_sched/src/bore.rs:206-236 | if the penalty changed, update_curr returned true |
| `BoreTask.ReportWithoutChange` | rust/rustlux_sched/src/bore.rs:206-236 | a tick that is reported leaves the penalty unchanged iff the task is a kernel thread or the burst's penalty has not moved |
| `BoreTask.ReportedForNothing` | rust/rustlux_sched/src/bore.rs:206-236 | default tunables: a reachable context and a tick that is reported without any change |
| `BoreTask.TwoTicks` | rust/rustlux_sched/src/bore.rs:207-236 | two ticks equal one tick of the saturated sum, and the last report is that tick's report |
| `BoreTask.TickSplit` | rust/rustlux_sched/src/bore.rs:207-236 | however a burst is cut into ticks, the context is that of one tick of the saturated sum |
| `BoreTask.EmptyTick` | rust/rustlux_sched/src/bore.rs:207-236 | in a reachable context a tick of zero changes nothing |
| `BoreTask.CycleStep` | rust/rustlux_sched/src/bore.rs:165-173 | one cycle from below keeps floor((2^s - 1) / 2^s) of the gap |
| `BoreTask.GapLaw` | rust/rustlux_sched/src/bore.rs:165-173 | from below, each cycle keeps exactly floor((2^s - 1) / 2^s) of the gap and never overshoots |
| `BoreTask.GapVanishes` | rust/rustlux_sched/src/bore.rs:165-173 | after m halving times at most the 2^m-th part of any gap is left |
| `BoreTask.SmoothingConverges` | rust/rustlux_sched/src/bore.rs:159-173 | repeated bursts reach exactly their penalty: at once from above, within 14 halving times from below (14 cycles for smoothness 1) |
| `BoreTask.CyclesSettle` | rust/rustlux_sched/src/bore.rs:207-255 | the same for contexts under update_curr and restart_burst |
| `BoreContext.BoreCtx.constructor` | rust/rustlux_sched/src/bore.rs:106-118 | the empty context |
| `BoreContext.BoreCtx.UpdateCurr` | rust/rustlux_sched/src/bore.rs:207-236 | the method in place is the tick of the theory and returns its report |
| `BoreContext.BoreCtx.RestartBurst` | rust/rustlux_sched/src/bore.rs:241-255 | the method in place is the sleep of the theory |
| `BoreKernel.PenaltyIsMax` | patches/0002-bore-cachy.patch:328-331 | the branch-free update is the maximum of both penalties, 0 for kernel threads |
| `BoreKernel.TickAgrees` | patches/0002-bore-cachy.patch:338-347 | Rust and C agree after a tick iff the update is suspended or the burst time does not overflow |
| `BoreKernel.SleepAgrees` | patches/0002-bore-cachy.patch:349-356 | Rust and C agree after every sleep |
| `BoreKernel.RunsAgree` | patches/0002-bore-cachy.patch:323-356 | Rust and C agree on burst, penalties and score over every run without overflow |
| `BoreKernel.RunsAgreeIff` | patches/0002-bore-cachy.patch:338-356 | with updates enabled they agree throughout a run iff no tick overflows |
| `BoreKernel.OverflowSplits` | patches/0002-bore-cachy.patch:342 | for all tunables a new task and two ticks after which the accountings differ |
| `BoreKernel.TaskStruct.constructor` | patches/0002-bore-cachy.patch:532-533 | an empty context, with the load weight of its priority |
| `BoreKernel.TaskStruct.EffectivePrio` | patches/0002-bore-cachy.patch:313-321 | static priority plus, if enabled, the high byte of the penalty, clamped to 0..39, for all 140 static priorities |
| `BoreKernel.TaskStruct.ReweightByPrio` | patches/0002-bore-cachy.patch:298-311 | the weight becomes that of the priority unless the policy is idle; whatever running time is accounted meanwhile, the guard leaves burst and penalties untouched |
| `BoreKernel.TaskStruct.UpdatePenalty` | patches/0002-bore-cachy.patch:323-336 | the penalty update, nested accounting included; the weight stays that of the effective priority |
| `BoreKernel.TaskStruct.UpdateCurr` | patches/0002-bore-cachy.patch:338-347 | the method in place is the wrapping tick, nested calls included; the weight follows the priority |
| `BoreKernel.TaskStruct.RestartBurst` | patches/0002-bore-cachy.patch:349-356 | the method in place is the masked sleep; the weight follows the priority |
| `BurstCache.WordRoundTrip` | rust/rustlux_sched/src/bore.rs:40-60 | packing returns the penalty exactly and the timestamp down to 65536 ns |
| `BurstCache.FieldRoundTrip` | patches/0002-bore-cachy.patch:56-64 | the C bit-field: both round trips between fields and word |
| `BurstCache.LayoutsCoincideIff` | patches/0002-bore-cachy.patch:56-64 | the Rust and the C word of a cache are equal iff the timestamp is the penalty repeated three times |
| `BurstCache.ExpiryWindow` | rust/rustlux_sched/src/bore.rs:64-66 | a cache expires within the last 65536 ns of its lifetime, never later; exact condition |
| `BurstCache.ClockBehindExpires` | patches/0002-bore-cachy.patch:389-393 | a clock behind the stored time reads as expired iff it is less than 2^64 - lifetime behind |
| `TaskForest.HubIsFirst` | patches/0002-bore-cachy.patch:446-449 | the climb ends, within the depth of its start, at the first task that is a root or has more children than allowed (0 or 1 at the start, 1 above) |
| `TaskForest.HubOfFork` | patches/0002-bore-cachy.patch:438-449 | by parent pointers and child counts alone: the hub is the first task on the way up from the parent that is a root or has more than 0 children at the parent and more than 1 above; for CLONE_PARENT the walk starts at the parent's parent and allows 1 throughout |
| `TaskForest.DepthUnique` | patches/0002-bore-cachy.patch:446-449 | the termination measure is determined by the parent pointers |
| `TaskForest.LeafEndsChain` | patches/0002-bore-cachy.patch:460-467 | the descent ends at the first task of the sole-child chain that is not itself a parent of one |
| `TaskForest.SamplesExact` | patches/0002-bore-cachy.patch:456-472 | the samples are the penalties of the eligible tasks among the first 126, in order, cut off after 63 |
| `TaskForest.MeanBound` | patches/0002-bore-cachy.patch:395-405 | the average never exceeds the largest sample |
| `TaskForest.TableMean` | patches/0002-bore-cachy.patch:397-398 | for every sample list the table yields exactly the integer mean, 0 for none |
| `BurstInherit.NewCacheIs` | patches/0002-bore-cachy.patch:395-405 | a refreshed cache holds the larger of the owner's penalty and sum / number of the samples, stamped with now / 65536 |
| `BurstInherit.RefreshedLifetime` | patches/0002-bore-cachy.patch:389-393 | a cache refreshed at t is used up to t + lifetime - 65535 and never after t + lifetime; exact condition |
| `BurstInherit.ThreadInherits` | patches/0002-bore-cachy.patch:481-504 | a new thread reads its leader's group cache, sampled over the leader's threads when stale; no other cache changes |
| `BurstInherit.ParentInherits` | patches/0002-bore-cachy.patch:407-433 | type 1 reads the subtree cache of the parent, or of the parent's parent for CLONE_PARENT, sampled over its children when stale |
| `BurstInherit.HubInherits` | patches/0002-bore-cachy.patch:435-479 | type 2 reads the hub's subtree cache, sampled when stale over the ends of the chains below its children |
| `BurstInherit.NothingInherits` | patches/0002-bore-cachy.patch:519-520 | any other type reads 0 and touches no cache |
| `BurstInherit.CacheBetween` | patches/0002-bore-cachy.patch:395-405 | a refreshed cache lies between its owner's penalty and the largest one in sight |
| `BurstInherit.ForkPenalty` | patches/0002-bore-cachy.patch:522-528 | a fork starts from the larger of copied and inherited penalty and leaves every other task's context alone |
| `BurstInherit.ForkTouches` | patches/0002-bore-cachy.patch:506-530 | a fork changes the consulted cache and the new task's context; disabled or ineligible, nothing |
| `BurstInherit.ForkedContext` | patches/0002-bore-cachy.patch:522-528 | the new task's context in a run, from its creator's and the inherited penalty |
| `BurstInherit.ResetClears` | patches/0002-bore-cachy.patch:532-533 | a reset clears the context and both caches of its task alone |
| `BurstInherit.OwnHistory` | patches/0002-bore-cachy.patch:338-356 | in every run a task's context is that of its own ticks and sleeps, whatever forks, refreshes and other tasks do |
| `BurstInherit.ForkKeepsLinks` | patches/0002-bore-cachy.patch:506-530 | a fork changes contexts and caches only |
| `BurstInherit.CopyKeepsTree` | patches/0002-bore-cachy.patch:506-530 | the copied task joins the tree one level below its parent |
| `BurstInherit.StepKeepsGood` | patches/0002-bore-cachy.patch:323-356 | every event keeps the tree and keeps all penalties and caches at most 10239 |
| `BurstInherit.RunKeepsGood` | patches/0002-bore-cachy.patch:395-530 | the same over every run of forks, ticks, sleeps, resets and relinking, tunables changing freely |
| `ForkKernel.CountChildrenUpTo2` | patches/0002-bore-cachy.patch:382-387 | two pointer reads on a ring yield min(2, number of children) |
| `ForkKernel.Scheduler.FindHub` | patches/0002-bore-cachy.patch:438-449 | the loop terminates and finds the hub |
| `ForkKernel.Scheduler.FindLeaf` | patches/0002-bore-cachy.patch:460-467 | the loop terminates and finds the end of the sole-child chain |
| `ForkKernel.Scheduler.SampleList` | patches/0002-bore-cachy.patch:454-472 | count and total of at most 63 eligible tasks among the first 126 |
| `ForkKernel.Scheduler.TableAverage` | patches/0002-bore-cachy.patch:397-398 | the average read from the table is total / count, 0 for no samples, with the table index in bounds |
| `ForkKernel.Scheduler.MakeCache` | patches/0002-bore-cachy.patch:395-405 | the new cache holds the larger of the owner's penalty and total / count, stamped with now / 65536 |
| `ForkKernel.Scheduler.InheritFromParent` | patches/0002-bore-cachy.patch:407-479 | refreshes exactly the cache of parent or hub, if expired, and returns its penalty |
| `ForkKernel.Scheduler.InheritFromThreadGroup` | patches/0002-bore-cachy.patch:481-504 | refreshes exactly the leader's group cache, if expired, and returns its penalty |
| `ForkKernel.Scheduler.TaskForkBore` | patches/0002-bore-cachy.patch:506-530 | the fork hook in place is the fork of the theory, for all inheritance types and flags |
| `ForkKernel.SamplesArePrefix` | patches/0002-bore-cachy.patch:456-472 | stopping by list end, scan limit or sample limit gives the same samples as truncating twice |
| `Sentinel.MemSentinel.constructor` | rust/rustlux_mm/src/mem_sentinel.rs:47-52 | an empty window that started at 0 |
| `Sentinel.MemSentinel.OnError` | rust/rustlux_mm/src/mem_sentinel.rs:58-81 | one uninterrupted call: an uncorrected error is offlined and leaves the window; a corrected one joins the window up to 60000 ms after its start and opens a new one from 60001 ms on, and warns iff the count is the threshold |
| `Sentinel.MemSentinel.OnErrorFfi` | patches/0005-rustlux-kernel-module.patch:154-180 | the entry point, in numbers: 2 iff uncorrected, 1 iff a corrected error brings the count to the threshold clamped to at least 1; the window as above |
| `Sentinel.MemSentinel.OnErrorFallback` | patches/0008-rustlux-mem-sentinel.patch:146-168 | the C fallback, in numbers: 2 iff uncorrected, 1 iff a corrected error brings the count to the unclamped threshold; the window as above |
| `Sentinel.AnswerToError` | rust/rustlux_mm/src/mem_sentinel.rs:22-37 | the answer to every error and the window it leaves, in numbers, for both implementations |
| `Sentinel.WindowStart` | rust/rustlux_mm/src/mem_sentinel.rs:63-73 | a window starts at the time of the error that opened it, the first one at 0 |
| `Sentinel.FallbackAgreesIff` | patches/0008-rustlux-mem-sentinel.patch:146-168 | C and Rust agree on all windows and errors iff the threshold is at least 1 |
| `Sentinel.WindowHolds` | rust/rustlux_mm/src/mem_sentinel.rs:58-75 | over every run the counter is the number of corrected errors since the window opened, all within 60 s of its start |
| `Sentinel.WarnsAtThreshold` | rust/rustlux_mm/src/mem_sentinel.rs:54-57 | an error warns iff it is the threshold-th corrected error of its window |
| `Sentinel.OneWarningPerWindow` | rust/rustlux_mm/src/mem_sentinel.rs:54-57 | no window warns twice |
| `Sentinel.WarningIsBacked` | rust/rustlux_mm/src/mem_sentinel.rs:58-81 | every warning has threshold corrected errors within 60 s behind it |
| `Sentinel.WarningRate` | rust/rustlux_mm/src/mem_sentinel.rs:58-81 | by time T ms at most 1 + T / 60001 warnings |
| `Sentinel.SpanMeetsTwoWindows` | rust/rustlux_mm/src/mem_sentinel.rs:63-73 | a span of 60 s contains at most one opening of a window |
| `Sentinel.StormWarns` | rust/rustlux_mm/src/mem_sentinel.rs:58-81 | 2 * threshold - 1 corrected errors within 60 s always raise a warning in the windows they meet |
| `Sentinel.StormBoundIsTight` | rust/rustlux_mm/src/mem_sentinel.rs:58-81 | one error less, even within a millisecond, can go unnoticed |
| `SentinelCpus.NextKeepsInv` | rust/rustlux_mm/src/mem_sentinel.rs:63-75 | each atomic step keeps count = adds since the last store of 0, and stores + pending stores = won exchanges |
| `SentinelCpus.EveryInterleaving` | rust/rustlux_mm/src/mem_sentinel.rs:58-81 | in all interleavings of N CPUs: warnings at most 1 + stores of 0, at most 1 + won exchanges |
| `SentinelCpus.EveryCallAddsOnce` | rust/rustlux_mm/src/mem_sentinel.rs:63-80 | in all interleavings the adds performed and the calls under way are together the calls begun; the machine's counters are those of its history |
| `SentinelCpus.OneWinner` | rust/rustlux_mm/src/mem_sentinel.rs:65-72 | of two CPUs that found the same window expired only the first to exchange resets it |
| `SentinelCpus.CallsApartAreSequential` | rust/rustlux_mm/src/mem_sentinel.rs:58-81 | calls that do not overlap leave the window and the warnings of the sequential model |
| `SentinelCpus.UndisturbedWarnsOnce` | rust/rustlux_mm/src/mem_sentinel.rs:54-81 | on any number of CPUs: if no add falls between a won exchange and its store of 0, no window warns twice |
| `SentinelCpus.CallsApartWarnOnce` | rust/rustlux_mm/src/mem_sentinel.rs:54-57 | in particular when calls do not overlap |
| `SentinelCpus.SoloWarnsOnce` | rust/rustlux_mm/src/mem_sentinel.rs:54-57 | on one CPU every window warns at most once in every run |
| `SentinelCpus.TwoWarnings` | rust/rustlux_mm/src/mem_sentinel.rs:64-75 | for any two or more CPUs and any threshold of at least 1, a run in which one window warns twice |
| `SentinelCpus.WarnsOnceIffSolo` | rust/rustlux_mm/src/mem_sentinel.rs:54-57 | at most one warning per window over all interleavings iff there is one CPU |

## Left out

- The counters of scrub events are unbounded; their 64-bit wrap-around is not modelled.
- Concurrent writes during a pass, and the mutex around the region list: a pass is one step of a run.
- Allocation failure in `rustlux_softecc_protect`, page-permission toggling, log messages, kernel taint, work-queue timing and sysctl parsing: calls into kernel code that is not part of this model.
- Lifecycle.ResealKeepsWrite: needs the region to be the first one registered at its address, because the code reseals only that one.
- FaultyRuns.CarefulRunsLoseNothing: says nothing of runs in which a unit is flipped twice between passes or a flipped region is resealed; there data is lost by design.
- Lifecycle.StaleWriteReverted: treats one write between two passes; the exact outcome of arbitrary writes to one unit is `StaleBaseline.StaleWrite`.
- The weight tables: `TaskStruct.weightPrio` is the priority whose weight the entity carries, not the weight.
- BoreMath.LogSpec: fractional widths 1..25; the code only uses 8, and wider fractions do not fit the u32 result.
- BoreMath.AverageExact: totals below 2^32 / 62; 63 samples of 16 bits stay far below that.
- ForkKernel.Scheduler: task pointers are identifiers in a map and the child lists are sequences; races on the lists under RCU are not modelled. The ring of list heads is modelled for `count_children_upto2` only.
- The futex flag is not part of the burst accounting; its scheduler hooks, EEVDF placement, deadline rescaling and the weight tables are not part of this model.
- SentinelCpus.EveryInterleaving: each atomic operation is one step of a global interleaving; weaker memory orders beyond single-variable atomicity are not modelled.
- SentinelCpus: uncorrected errors return before any atomic operation and are no step.
- `rustlux_memsentinel_record`: the filter on machine-check records and the reaction to each action are flat lists of kernel calls.
- `bore_ffi.rs`, `page_cache.rs`, `splice_guard.rs`, `capabilities.rs`, `ro_after_init.rs` and the hardening modules: field copies and flat condition lists.
- The remaining patches, configurations and scripts.
