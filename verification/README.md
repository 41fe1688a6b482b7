# Proved models of SWAN Song's timing, cadence, raster, transaction and parser scripts

The release tooling of the repository contains scripts whose claims are checked there by
enumeration or by a few scenarios: a prefetch FIFO simulation, a sprite streaming schedule, frame
cadence arithmetic, an integer rasteriser, three file transactions that must survive failures, and
a handful of exact parsers and orders.  The modules below model those scripts, with the same
branches, constants and error conditions, and prove their claims for all inputs, all runs or all
reachable states.  `dafny verify dfyconfig.toml` checks everything.

| file | what it models |
|---|---|
| `PrefetchFifo.dfy` | the A0 prefetch FIFO: event loop, closed form, dominance over every legal trace, binary search |
| `SpriteStream.dfy` | the final-144 sprite stream: OAM arrivals, arbiter, current and pending job, for every active set |
| `NumberTheory.dfy`, `Phases.dfy` | gcd with Bezout cofactors, Euclid's lemma, sums over permutations; the phases one superperiod visits |
| `FrameDelivery.dfy`, `LateFrame.dfy`, `BeamRace.dfy` | skip cadence, phase age and beam-race opportunity on top of them |
| `Raster.dfy` | the mutable canvas: plot, rectangle, Bresenham line, fixed-point quadratic curve |
| `QaProtocol.dfy`, `QaRecorder.dfy` | the hardware QA session: a state machine over single file operations, and the commands that drive it |
| `PresetTransaction.dfy`, `PresetGenerate.dfy` | the two-file preset transaction and its rollback |
| `SaveMigration.dfy` | copying saves to a new namespace, and taking the copies back |
| `LexOrder.dfy`, `SourceClosure.dfy` | the Quartus source worklists against reachability along explicit paths |
| `VerilogComments.dfy` | the comment scanner against a token grammar |
| `ReportText.dfy` | UTF-8 (RFC 3629, section 4) and the 0xB0 recovery loop |
| `SemVer.dfy` | the version order (Semantic Versioning 2.0.0, sections 9 and 11) and the release-history gate |

Times of the prefetch model are multiplied by the bridge clock frequency, so periods, services and
margins are integers.  Every file operation of the transactions consults an oracle that says
whether it fails, always before its effect; in the QA session it may also crash the process.
Hashes are replaced by the contents they identify.  Random names come from a token sequence.

## Where the code does less than it says

Each of these is a lemma or a contract below, with the exact condition.

- `quantify_opportunity` accepts any producer frame of at least 144 lines by its own check, but its
  phase assertion fails exactly when 43 or 397 divides the line count; 172 lines is an example.
- `derive` of the frame delivery metrics accepts exactly the line widths 379 to 420.
- The minimum occupancy a prefetch simulation reports is always 0.
- `compare_semver` is not antisymmetric without the leading-zero rejection; the exact condition is
  that the first differing identifiers spell the same number.
- A preset run leaves a temporary file that its rollback does not report when the name opens and
  the `fstat` after it fails.  Told from which operations fail: a rollback reported as complete
  restores an output exactly when that did not happen to it, that is, unless all preflights and all
  earlier allocations go through and this output's open succeeds and its first `fstat` fails.
- A preset run whose rename of an existing preset to its backup name fails, or finds that name
  taken, always reports an incomplete rollback, and that output's temporary file stays although the
  preset was not moved: the rollback tries to rename back from the backup name and raises before it
  removes the temporary file.
- A save migration leaves a temporary file without listing it when a write fails and the removal
  right after it fails too.  A failure without leftovers restores the exact set of files if and only
  if the operations do not fail that way; in particular always if no two operations in a row fail.
  Without an exclusive rename on the platform no published copy is taken back: a run in which no
  operation fails and that stops at a conflicting file restores the card if and only if that file
  comes before any file the card lacks.
- Starting a QA case leaves a sidecar with two names, which no command accepts, if and only if the
  sidecar is linked and its temporary name then stays: the process crashes there, or both removals
  of that name fail.
- If ingesting evidence raises after the sidecar was replaced, where only the temporary name is left
  to remove, its handler removes evidence the sidecar already records.  The session's evidence stays
  complete if and only if that does not happen, and a session that has lost evidence is never
  finished.  Evidence a manifest records is never lost.

## Model

| member | source | states |
|---|---|---|
| `PrefetchTiming.CompletionClosedForm` | scripts/apf_a0_prefetch_service_model.py:125-164 | the k-th refill completes at k * max(service, period) + service; the depth does not occur |
| `PrefetchTiming.SafeIffFormula` | scripts/apf_a0_prefetch_service_model.py:145-172 | for service S, period T, margin M, N words and depth d, all deadlines hold iff d >= N, or S <= T and S <= d*T - M, or S > T and (N-d)*S <= (N-1)*T - M |
| `PrefetchTiming.SafeMonotoneInDepth` | scripts/apf_a0_prefetch_service_model.py:188-194 | a deeper FIFO is never less safe, which the binary search relies on |
| `PrefetchTiming.SafeAntitoneInStress` | scripts/apf_a0_prefetch_service_model.py:120-122 | a larger service bound, a larger margin or a shorter period never makes a depth safe |
| `PrefetchTiming.CompletionDominated` | scripts/apf_a0_prefetch_service_model.py:106-107 | in every legal trace, refill k measured from read k is no later than in the simulated trace |
| `PrefetchTiming.SafeDominates` | scripts/apf_a0_prefetch_service_model.py:106-107 | a depth the simulation finds safe meets every deadline of every work-conserving trace with bounded service and spaced reads |
| `PrefetchTiming.ExtremalTraceDecides` | scripts/apf_a0_prefetch_service_model.py:98-108 | the simulated trace is itself legal, and meeting its deadlines is being safe |
| `PrefetchTiming.AdversarialDominance` | scripts/apf_a0_prefetch_service_model.py:97-172 | a depth is safe if and only if every legal trace meets all its deadlines |
| `PrefetchFifo.ModelConfig.Scaled` | scripts/apf_a0_prefetch_service_model.py:39-79 | a configuration that passes validation and has a service bound gives positive times and a margin below the period; `ScaledMeans` says which times |
| `PrefetchFifo.ValidatesInOrder` | scripts/apf_a0_prefetch_service_model.py:39-57 | a configuration is valid iff it meets each of the seven demands, written out; otherwise the error is that of the first one it does not meet |
| `PrefetchFifo.ScaledMeans` | scripts/apf_a0_prefetch_service_model.py:58-80 | the scaled times are exactly: a quarter of the payload in words, two halfword reads and the overhead as service, and period and margin as configured |
| `PrefetchFifo.SafeIffSuffices` | scripts/apf_a0_prefetch_service_model.py:97-172 | a depth is safe iff the three-case formula holds in the fields of the configuration |
| `PrefetchFifo.OneSlot` | scripts/apf_a0_prefetch_service_model.py:145-172 | one slot is enough iff the payload is one word or (2 * halfword + overhead + margin) * bridge clock is at most bridge period * memory clock |
| `PrefetchFifo.DefaultNeedsTwoSlots` | scripts/apf_a0_prefetch_service_model.py:19-36 | with the default timing and a halfword bound of 64 cycles one slot is unsafe and two are safe |
| `PrefetchFifo.Fifo.constructor` | scripts/apf_a0_prefetch_service_model.py:116-123 | the FIFO starts prefetched to its capacity, and the invariant holds |
| `PrefetchFifo.Fifo.StartIfPossible` | scripts/apf_a0_prefetch_service_model.py:125-132 | a refill starts exactly when none is running, words remain and a slot is free |
| `PrefetchFifo.Fifo.AdvanceCompletions` | scripts/apf_a0_prefetch_service_model.py:134-143 | keeps the invariant (read + occupancy = produced, each refill on the closed-form schedule, a reserved slot for it) and leaves no refill due by the limit |
| `PrefetchFifo.Fifo.ReadWord` | scripts/apf_a0_prefetch_service_model.py:161-164 | one read frees one slot and keeps the invariant |
| `PrefetchFifo.PresentMeansOnTime` | scripts/apf_a0_prefetch_service_model.py:145-157 | a nonempty FIFO at the deadline of word w means the refill that carries w was on time |
| `PrefetchFifo.RunCopy` | scripts/apf_a0_prefetch_service_model.py:145-172 | the event loop reports safe iff every deadline holds, otherwise the first word that misses and its deadline; the minimum occupancy it reports is 0 either way |
| `PrefetchFifo.SimulateDepth` | scripts/apf_a0_prefetch_service_model.py:97-172 | the same with the parameter errors, each in its case; safe iff the formula in the configuration's fields holds |
| `PrefetchFifo.MinimumSafeDepth` | scripts/apf_a0_prefetch_service_model.py:175-196 | terminates with the depth at and above which exactly the depths are safe, by the events and by the formula in the configuration's fields; 1 iff one slot is enough; neither assertion is reachable |
| `SpriteStream.EligibleExact` | scripts/gpu_final144_sprite_stream_model.py:184-188 | the reference list is ascending and holds exactly the active descriptors below the count |
| `SpriteStream.NextSlot` | scripts/gpu_final144_sprite_stream_model.py:58-64 | the result is the least clock at or after (strictly: after) the given one whose residue is a slot |
| `SpriteStream.OamSlot` | scripts/gpu_final144_sprite_stream_model.py:77-84 | an OAM request waits (1 - phase) mod 4 clocks, so it issues before the next request |
| `SpriteStream.DescriptorArrivals` | scripts/gpu_final144_sprite_stream_model.py:67-89 | for any number of descriptors the map is total and descriptor i completes at 8i + 6 + skew; the loop assertions hold |
| `SpriteStream.FirstCeStrictlyAfter` | scripts/gpu_final144_sprite_stream_model.py:92-98 | the least CE of the arithmetic progression strictly after the clock |
| `SpriteStream.ArrivalSlot` | scripts/gpu_final144_sprite_stream_model.py:147-148 | arrivals fall in arbiter phases 3 and 7 for every phase |
| `SpriteStream.PendingIsFree` | scripts/gpu_final144_sprite_stream_model.py:152-160 | at every arrival the pending slot is empty, and a job in progress is the preceding descriptor: no pending overflow |
| `SpriteStream.ArrivalKeepsValid` | scripts/gpu_final144_sprite_stream_model.py:147-160 | the arrival branch keeps the stream invariant |
| `SpriteStream.ResponseKeepsValid` | scripts/gpu_final144_sprite_stream_model.py:162-172 | the response branch keeps it: the outstanding job is the current one, and a second word promotes the pending job |
| `SpriteStream.TileSlotAge` | scripts/gpu_final144_sprite_stream_model.py:174-182 | a tile slot meets the current job exactly 3 and 7 clocks after its arrival, with nothing outstanding |
| `SpriteStream.TileSlotKeepsValid` | scripts/gpu_final144_sprite_stream_model.py:174-182 | the tile request branch keeps the invariant |
| `SpriteStream.ClockKeepsValid` | scripts/gpu_final144_sprite_stream_model.py:142-182 | a whole clock keeps it, with or without an arrival |
| `SpriteStream.ClockTakes` | scripts/gpu_final144_sprite_stream_model.py:147-160 | a clock appends the arriving descriptor to the jobs taken iff fewer than the limit were taken |
| `SpriteStream.FrameAtValid` | scripts/gpu_final144_sprite_stream_model.py:142-182 | the invariant holds at every clock for every phase, count, limit, number of descriptors and active set |
| `SpriteStream.Drained` | scripts/gpu_final144_sprite_stream_model.py:184-195 | after the stop clock nothing is in progress, the accepted list is the first `limit` eligible descriptors in order, and each has its two requests |
| `SpriteStream.StartOffset` | scripts/gpu_final144_sprite_stream_model.py:197-209 | the row-0 start is two CEs late iff the last descriptor was accepted, and on time otherwise |
| `SpriteStream.Streamer.Arrive` | scripts/gpu_final144_sprite_stream_model.py:147-160 | the imperative arrival branch, with its assertions, is the arrival step |
| `SpriteStream.Streamer.Respond` | scripts/gpu_final144_sprite_stream_model.py:162-172 | the imperative response branch, with its assertion, is the response step |
| `SpriteStream.Streamer.Request` | scripts/gpu_final144_sprite_stream_model.py:174-182 | the imperative request branch, with its three assertions, is the request step |
| `SpriteStream.Tick` | scripts/gpu_final144_sprite_stream_model.py:142-182 | the three branches in order are one clock |
| `SpriteStream.StreamFrame` | scripts/gpu_final144_sprite_stream_model.py:133-195 | the clock loop ends drained and complete for every scenario, so no assertion can fail |
| `SpriteStream.RowZeroStart` | scripts/gpu_final144_sprite_stream_model.py:197-209 | the start offset is 2 iff the last descriptor was accepted, else 0 |
| `SpriteStream.RunCase` | scripts/gpu_final144_sprite_stream_model.py:101-220 | the report of a case: accepted list, request clocks at arrival + 3 and + 7, last accept, start offset, two requests per accepted sprite, pending used iff two eligible neighbours were taken |
| `NumberTheory.GcdIsGreatest` | scripts/frame_delivery_metrics.py:55-55 | the divisor of the two periods is divided by every common divisor |
| `NumberTheory.GcdCofactors` | scripts/frame_delivery_metrics.py:55-57 | both periods are the divisor times cofactors, and the cofactors satisfy Bezout's identity |
| `Phases.PhaseForm` | scripts/late_frame_delivery.py:139-142 | phase and frame number of a selection split into the residue and a part that depends on the cofactors only |
| `Phases.Equidistribution` | scripts/late_frame_delivery.py:133-148 | for any P, C and residue r < g = gcd(P, C), one superperiod visits r, r+g, ..., P-g+r exactly once each |
| `Phases.PhaseMembership` | scripts/late_frame_delivery.py:136-148 | a phase is visited from residue r iff it lies below P and leaves r modulo the gcd |
| `Phases.PhaseMean` | scripts/late_frame_delivery.py:145-145 | the sum of the ages is n * (2r + P - g) / 2: the mean is r + (P - g) / 2 |
| `Phases.CadenceIndependentOfResidue` | scripts/frame_delivery_metrics.py:60-64 | every residue below the gcd gives the same producer id at every boundary |
| `SkipSpacing.IncrementForm` | scripts/frame_delivery_metrics.py:65-68 | with K output and F producer frames a superperiod, an increment is 1 plus the advance of a Beatty sequence of slope (F-K)/K |
| `SkipSpacing.AllIncrementsInRange` | scripts/frame_delivery_metrics.py:69-70 | all increments are 1 or 2 iff K <= F <= 2K |
| `SkipSpacing.SkipIndicesForm` | scripts/frame_delivery_metrics.py:72-74 | there are exactly D = F-K skips, the j-th at the closed-form index |
| `SkipSpacing.GapIsFloorOrCeiling` | scripts/frame_delivery_metrics.py:75-80 | every gap between consecutive skips is floor(K/D) or one more |
| `SkipSpacing.SkipWraps` | scripts/frame_delivery_metrics.py:78-79 | the skip after the last one is the first one, K frames later |
| `SkipSpacing.GapCounts` | scripts/frame_delivery_metrics.py:75-81 | the cyclic gaps sum to K; exactly K mod D are the longer one and D - K mod D the shorter |
| `SkipSpacing.GapsAreThreeToFive` | scripts/frame_delivery_metrics.py:82-83 | all gaps are 3, 4 or 5 iff 3D <= K <= 5D |
| `FrameDelivery.IncrementsIndependentOfResidue` | scripts/frame_delivery_metrics.py:59-68 | the increments of every residue are those of the reduced periods |
| `FrameDelivery.SkipGaps` | scripts/frame_delivery_metrics.py:75-80 | the loop computes the cyclic gaps, wrapping at the last skip |
| `FrameDelivery.SignatureForm` | scripts/frame_delivery_metrics.py:84-92 | the five counts recorded for a residue are determined by K and D |
| `FrameDelivery.CheckResidue` | scripts/frame_delivery_metrics.py:60-92 | every residue yields the same signature or the same error |
| `FrameDelivery.Derive` | scripts/frame_delivery_metrics.py:50-108 | succeeds iff the period ratio allows it, with the error in each failing case; the "unproven phase" and coverage assertions are unreachable; counts and phase means are exact |
| `FrameDelivery.AcceptedPeriods` | scripts/frame_delivery_metrics.py:69-83 | acceptance stated on the unreduced periods: C = P, or 3(C-P) <= P <= 5(C-P) |
| `FrameDelivery.AcceptedWidths` | scripts/frame_delivery_metrics.py:50-83 | with the script's constants exactly the widths 379 to 420 are accepted |
| `FrameDelivery.FrameInProportion` | scripts/frame_delivery_metrics.py:54-54 | a consumer frame takes 614556 cycles at 397 pixels a line, and otherwise in proportion |
| `LateFrame.MeanOffsetIsMidpoint` | scripts/late_frame_delivery.py:107-118 | the mean pixel offset is midway between the first and the last active pixel |
| `LateFrame.MeanPhaseForm` | scripts/late_frame_delivery.py:145-145 | the enumerated mean of a residue equals r + (P - g) / 2 |
| `LateFrame.ResidueAges` | scripts/late_frame_delivery.py:138-144 | the inner loop collects the phases of one residue and their sum |
| `LateFrame.EnumeratePhaseAge` | scripts/late_frame_delivery.py:121-164 | the coverage check cannot fail, and the enumerated minimum and maximum means are the closed form of the other script |
| `LateFrame.CountNewerGenerations` | scripts/late_frame_delivery.py:195-204 | the loop counts min(delay, P) phases |
| `BeamRace.EligibleCountForm` | scripts/beam_race_safety.py:127-136 | the count of eligible boundaries of a residue in closed form |
| `BeamRace.OpportunityIndependentIffDividing` | scripts/beam_race_safety.py:137-138 | the counts of all residues agree iff the phase quantum divides the last visible write phase |
| `BeamRace.CountEligible` | scripts/beam_race_safety.py:129-135 | the generator sum is the count over the phases of the residue |
| `BeamRace.QuantumDividesLastWrite` | scripts/beam_race_safety.py:123-124 | with the script's output frame the quantum divides it iff neither 43 nor 397 divides the line count |
| `BeamRace.OpportunityCounterexample` | scripts/beam_race_safety.py:120-138 | 172 lines pass the check on the line count, and two residues have different counts, so the assertion fails |
| `BeamRace.EligibleFraction` | scripts/beam_race_safety.py:139-141 | when the counts agree the eligible fraction is the last write phase over the producer period |
| `BeamRace.QuantifyOpportunity` | scripts/beam_race_safety.py:120-149 | success and each error exactly, and the eligible fraction on success |
| `BeamRace.ProveNominalGeometry` | scripts/beam_race_safety.py:53-84 | the minimum slack over all pixels is 57386 cycles, at the last pixel, and later phases only add to it |
| `BeamRace.OneRaster` | scripts/beam_race_safety.py:9-46 | the producer period, the last visible write phase and the output frame are the write and read times of the geometry, and those of the frame delivery metrics |
| `LineGeometry.RoundedIffNear` | scripts/generate_platform_art.py:94-100 | the minor steps taken are the unique count within half a step of the ideal |
| `LineGeometry.LineEndpoints` | scripts/generate_platform_art.py:84-93 | the reference segment starts and ends exactly on its end points |
| `LineGeometry.LineConnected` | scripts/generate_platform_art.py:94-100 | consecutive points are distinct neighbours |
| `LineGeometry.LineDeviation` | scripts/generate_platform_art.py:79-100 | each point satisfies abs(2(b*abs(dx) - a*abs(dy))) <= max(abs(dx), abs(dy)) |
| `LineGeometry.LoopBody` | scripts/generate_platform_art.py:94-100 | the error-term updates move to the next reference point |
| `LineGeometry.EndOnlyAtSpan` | scripts/generate_platform_art.py:92-93 | the end point is met after exactly max(abs(dx), abs(dy)) steps and not before |
| `LineGeometry.PenCovers` | scripts/generate_platform_art.py:81-90 | a pen of thickness 1 covers its point, one of thickness 2 also the neighbours to the right and below |
| `LineGeometry.BezierEndpoints` | scripts/generate_platform_art.py:117-134 | the rounded curve starts and ends exactly on its end points |
| `LineGeometry.BezierInHull` | scripts/generate_platform_art.py:117-132 | no rounded coordinate leaves the range of the three given ones |
| `LineGeometry.SecondDifference` | scripts/generate_platform_art.py:120-129 | the numerators of the curve have the constant second difference 2 * (start - 2 * control + end) |
| `LineGeometry.CurveUnique` | scripts/generate_platform_art.py:117-129 | the numerators are the only numbers with that second difference and those ends |
| `LineGeometry.NearestToCurve` | scripts/generate_platform_art.py:130-133 | a coordinate is exactly the integer nearest the exact point, the upper one of two |
| `LineGeometry.CurveMiddle` | scripts/generate_platform_art.py:117-133 | half way the coordinate is (start + 2 * control + end + 2) // 4 |
| `Raster.NewCanvas` | scripts/generate_platform_art.py:35-40 | fails iff a dimension is not positive; otherwise a black canvas of its own |
| `Raster.Canvas.Plot` | scripts/generate_platform_art.py:48-51 | max-composites exactly one pixel, ignores outside pixels, rejects non-bytes |
| `Raster.Canvas.Rectangle` | scripts/generate_platform_art.py:53-62 | max-composites exactly the clipped rectangle, with both errors |
| `Raster.Canvas.Line` | scripts/generate_platform_art.py:64-100 | terminates after standing on exactly the max(abs(dx), abs(dy)) + 1 reference points in order, and max-composites exactly the pixels under the pen |
| `Raster.Canvas.Quadratic` | scripts/generate_platform_art.py:102-134 | max-composites exactly the polyline through the rounded curve points, with each error in its case |
| `QaProtocol.ExactlyOneSituation` | scripts/pocket_hardware_qa_session.py:377-489 | sidecar and manifest are in exactly one of: no session, open on the base manifest, prepared on the base, prepared on the final manifest |
| `QaProtocol.NextKeepsInv` | scripts/pocket_hardware_qa_session.py:199-280 | every single file operation, the removal of evidence already recorded included, keeps the invariant, so a crash may fall anywhere |
| `QaProtocol.RunInv` | scripts/pocket_hardware_qa_session.py:323-957 | the invariant holds in every state of every run |
| `QaProtocol.IntactUnlessLost` | scripts/pocket_hardware_qa_session.py:737-762 | an operation keeps the session's evidence complete iff it does not remove evidence the session records |
| `QaProtocol.RunIntact` | scripts/pocket_hardware_qa_session.py:737-762 | over a whole run the session's evidence stays complete iff no operation removes evidence it records |
| `QaProtocol.LostForGood` | scripts/pocket_hardware_qa_session.py:822-828 | once evidence is lost it stays lost, and the manifest never changes again |
| `QaProtocol.RunManifest` | scripts/pocket_hardware_qa_session.py:813-841 | over any run the attestation and inventory never change, and completed cases and recorded artifacts stay |
| `QaProtocol.RecordedEvidenceStays` | scripts/pocket_hardware_qa_session.py:737-762 | evidence a manifest records was published first and stays on disk with its bytes |
| `QaProtocol.PublishedAtMostOnce` | scripts/pocket_hardware_qa_session.py:817-819 | no case is completed twice in a run |
| `QaProtocol.PreparedLeadsOnlyToItsManifest` | scripts/pocket_hardware_qa_session.py:867-892 | once prepared, manifest and sidecar can only become the prepared manifest and then no sidecar |
| `QaProtocol.PreparedOutcome` | scripts/pocket_hardware_qa_session.py:867-957 | however often it is interrupted, the next state without a sidecar has exactly the prepared manifest |
| `QaProtocol.FinishRecords` | scripts/pocket_hardware_qa_session.py:817-841 | the final manifest is the one manifest in which the case has passed iff all its checks are true and carries start, ROMs, controllers and artifact ids of the session and completion, checks and notes of the result, with every other case and artifact as before |
| `QaRecorder.NextArtifactNumber` | scripts/pocket_hardware_qa_session.py:617-629 | the least unused number from 1 to 99, or none |
| `QaRecorder.Recorder.ReplaceSidecar` | scripts/pocket_hardware_qa_session.py:224-261 | replaces exactly the expected sidecar, and exactly when the temporary file is written and the rename done; it can raise after that |
| `QaRecorder.Recorder.ReplaceManifest` | scripts/pocket_hardware_qa_session.py:224-261 | the same for the manifest |
| `QaRecorder.Recorder.RemoveSidecar` | scripts/pocket_hardware_qa_session.py:264-280 | removes exactly the expected sidecar, and exactly when the removal goes through |
| `QaRecorder.Recorder.CreateSidecar` | scripts/pocket_hardware_qa_session.py:199-221 | never overwrites; leaves a sidecar with two names exactly when the link is made and its temporary name is not removed |
| `QaRecorder.Recorder.StartCase` | scripts/pocket_hardware_qa_session.py:323-374 | succeeds only on an untouched known case without an active session, and always then if nothing interferes; the sidecar holds the new session and nothing else changed; an interrupted start leaves a sidecar with two names exactly when its temporary name is not removed |
| `QaRecorder.Recorder.LoadSession` | scripts/pocket_hardware_qa_session.py:377-489 | succeeds iff there is a one-name sidecar on its base manifest, or on its prepared one when allowed |
| `QaRecorder.Recorder.CheckFinish` | scripts/pocket_hardware_qa_session.py:803-874 | passes only finishable results, computes the final manifest (passed iff all checks are true, every field from session or result, nothing else changed) and insists on the result already prepared |
| `QaRecorder.Recorder.PublishPrepared` | scripts/pocket_hardware_qa_session.py:885-892 | manifest first, then the sidecar; an interruption leaves one of the two earlier states |
| `QaRecorder.Recorder.FinishCase` | scripts/pocket_hardware_qa_session.py:796-893 | on success exactly the final manifest, field by field, and no sidecar; from prepared on base only the identical result proceeds; an interruption leaves the session as it was or prepared with this result; never with evidence lost; complete when nothing interferes and the evidence is there |
| `QaRecorder.CompletedCaseIsJudged` | scripts/pocket_hardware_qa_session.py:782-841 | in every run of the recorder a case it completes is the case of the sidecar at that moment, has a result for exactly its checks, and passed iff all of them are true, for the rest of the run |
| `QaRecorder.Recorder.RecoverSession` | scripts/pocket_hardware_qa_session.py:896-957 | acts only on prepared on final, and then only removes the sidecar |
| `QaRecorder.Recorder.RecordOrRetract` | scripts/pocket_hardware_qa_session.py:742-755 | the sidecar records the artifact exactly when its replacement has its effect; the evidence is then taken back exactly when the rest of the replacement raises and the removal goes through |
| `QaRecorder.Recorder.TakeBack` | scripts/pocket_hardware_qa_session.py:752-755 | the handler removes the evidence whether or not it is recorded, and loses it for the session iff it is |
| `QaRecorder.Recorder.CheckIngest` | scripts/pocket_hardware_qa_session.py:642-734 | passes exactly evidence that is in order and whose next deterministic place is free |
| `QaRecorder.Recorder.IngestArtifact` | scripts/pocket_hardware_qa_session.py:632-762 | never touches existing evidence; accepts only evidence in order, under the least unused number, and all such evidence if nothing interferes; the session's evidence stays complete iff recording it does not raise between the rename of the sidecar and the return |
| `QaRecorder.CompleteInterruptedFinish` | scripts/pocket_hardware_qa_session.py:867-957 | rerunning finish or recovering, as the situation demands, reaches the same prepared manifest |
| `QaRecorder.SessionCanBeStuck` | scripts/pocket_hardware_qa_session.py:216-221 | after a start in which only the third operation crashes, starting, finishing and recovering all raise |
| `QaRecorder.EvidenceCanBeLost` | scripts/pocket_hardware_qa_session.py:746-755 | with only the sixth operation of a first ingest failing, recorded evidence is gone and no result finishes the session |
| `PresetOutput.Output.RenameNoReplace` | scripts/pocket_per_game_preset.py:495-536 | renames iff the source exists, the destination does not and the call goes through |
| `PresetOutput.Output.UnlinkOwned` | scripts/pocket_per_game_preset.py:572-577 | removes exactly the named file or nothing |
| `PresetOutput.Output.Preflight` | scripts/pocket_per_game_preset.py:722-750 | remembers what stood at the destination; refuses an existing preset without force |
| `PresetOutput.Output.AllocateTemporary` | scripts/pocket_per_game_preset.py:539-569 | succeeds exactly when open, fstat, write, second fstat and flush go through; the name is left without identity exactly when the open of the first new name succeeds and its fstat fails |
| `PresetOutput.Output.BackUp` | scripts/pocket_per_game_preset.py:755-777 | moves an existing preset, unchanged, to a fresh backup name, exactly when the name is free and rename and read go through; the name is announced without a backup exactly when it is taken or the rename fails |
| `PresetOutput.Output.Install` | scripts/pocket_per_game_preset.py:755-788 | one turn of the publishing loop, with exactly the operations that have to go through, ends installed, or in a phase the rollback handles |
| `PresetOutput.Output.CleanUp` | scripts/pocket_per_game_preset.py:832-847 | the new preset stays in place; at most the backup remains |
| `PresetOutput.Output.FinishWithdrawal` | scripts/pocket_per_game_preset.py:622-624 | restoring the backup and removing the quarantined file gives the directory of the start |
| `PresetOutput.Output.WithdrawInstalled` | scripts/pocket_per_game_preset.py:604-624 | an installed preset is taken back exactly when each of the operations of its phase goes through |
| `PresetOutput.Output.QuietRollsBack` | scripts/pocket_per_game_preset.py:593-636 | from a clock on which nothing fails and every name drawn is new, an output in any phase but an announced backup is taken back |
| `PresetOutput.Output.RollBack` | scripts/pocket_per_game_preset.py:593-636 | a turn reports no failure exactly when each operation of its phase goes through, and then restores the starting directory or leaves the one temporary file never identified; after a failed rename to the backup name it is reported and the temporary file stays; nothing of the user's is lost either way |
| `PresetOutput.UnidentifiedTemporarySurvives` | scripts/pocket_per_game_preset.py:553-554 | whenever the fstat after the successful open fails, the rollback reports success and the file is still there |
| `PresetGenerate.RollbackOutputs` | scripts/pocket_per_game_preset.py:593-636 | every output is tried; the rollback is complete iff each turn's operations go through, and then restores every output, up to unidentified temporaries; it is incomplete, with the temporary file left, wherever a backup was announced and not made |
| `PresetGenerate.AllocateAll` | scripts/pocket_per_game_preset.py:752-753 | every output ends staged, or in a phase the rollback handles; how far it came is told from the failing operations |
| `PresetGenerate.InstallAll` | scripts/pocket_per_game_preset.py:755-788 | every output ends installed, or in a phase the rollback handles; how far it came is told from the failing operations |
| `PresetGenerate.CleanUpAll` | scripts/pocket_per_game_preset.py:832-852 | every preset is in place; success means no backup name remains, and is certain when nothing fails |
| `PresetGenerate.GeneratePresets` | scripts/pocket_per_game_preset.py:717-858 | returned: every destination holds its payload and no other name changed; rolled back: an output is as before iff it is not the one whose open went through and whose fstat failed; a rename to a backup name that fails forces an incomplete rollback that leaves the temporary file; if nothing fails the run returns, and rolls back if the root was replaced; if only one operation fails the rollback is complete unless that is such a rename; all predicted from the state before the call; otherwise nothing is lost |
| `PresetGenerate.GenerateLeavesTemporary` | scripts/pocket_per_game_preset.py:553-554 | a run in which only the fifth operation fails reports a complete rollback and leaves a new name |
| `PresetGenerate.GenerateStuckBackup` | scripts/pocket_per_game_preset.py:757-765 | a run in which only the tenth operation, the rename to the backup name, fails reports an incomplete rollback and leaves its temporary file |
| `SaveMigration.NewNamesExact` | scripts/migrate_cartridge_save_namespace.py:787-817 | the reference list names each planned destination the card lacks, once |
| `SaveMigration.NamesDealOut` | scripts/migrate_cartridge_save_namespace.py:787-817 | the names to copy and the names already there are, in plan order, the destinations that neither the card nor an earlier planned file held, and those that one of them held |
| `SaveMigration.NamesAreDestinations` | scripts/migrate_cartridge_save_namespace.py:787-840 | together they are the destinations of the plan, each as often as there |
| `SaveMigration.NothingToCopy` | scripts/migrate_cartridge_save_namespace.py:794-799 | a plan copies nothing and conflicts with nothing iff the card already holds all of it |
| `SaveMigration.RefusalIsFirst` | scripts/migrate_cartridge_save_namespace.py:787-800 | a run that stops at a conflicting name has published nothing iff that conflict comes before any name the card lacks |
| `SaveMigration.Card.DestinationState` | scripts/migrate_cartridge_save_namespace.py:496-502 | copy, identical or refused, by what stands at the name |
| `SaveMigration.Card.InstallNoReplace` | scripts/migrate_cartridge_save_namespace.py:550-587 | publishes under a free name only, by rename or by a link that keeps the source |
| `SaveMigration.Card.AtomicWriteNew` | scripts/migrate_cartridge_save_namespace.py:600-658 | the name holds all of the payload, exactly when open, write, flush, case check and install go through, or nothing new; a temporary name is left and reported exactly when one of them fails and the removal after it fails too |
| `SaveMigration.Card.VerifyCreated` | scripts/migrate_cartridge_save_namespace.py:680-690 | accepts exactly the inode and bytes this run published |
| `SaveMigration.Card.Quarantine` | scripts/migrate_cartridge_save_namespace.py:696-718 | moves the file to the first free quarantine name of 32, exactly where exclusive rename exists and every look and the rename go through |
| `SaveMigration.Card.RollBackCreated` | scripts/migrate_cartridge_save_namespace.py:693-754 | true exactly when the quarantine, the two looks and the removal go through, and then the file and only it is gone; false: it is still on the card under its own or a quarantine name |
| `SaveMigration.Card.RollBackAll` | scripts/migrate_cartridge_save_namespace.py:822-828 | the leftovers are created files in reverse order; each is still there, and whatever is still there of this run's files is one of them |
| `SaveMigration.Card.ApplyOne` | scripts/migrate_cartridge_save_namespace.py:787-820 | one planned file: copied, already there, or failed, each exactly as the operations predict, with what it leaves behind |
| `SaveMigration.Card.CopyAll` | scripts/migrate_cartridge_save_namespace.py:787-820 | a completed loop holds the whole plan, copied exactly the missing names and reports exactly the others, both in plan order; an undisturbed one stops only on a real conflict |
| `SaveMigration.Card.ApplyMigration` | scripts/migrate_cartridge_save_namespace.py:757-840 | prior files are kept in every outcome; applied: the card holds the plan, and copied and identical deal out its destinations in plan order; leftovers: every new name that is not temporary is one of theirs; failed without leftovers: exactly the prior files iff no write was going to fail twice, predicted from the state before the call; undisturbed: applied iff the plan agrees with the card, and restored otherwise, without an exclusive rename iff the conflict comes before any file the card lacks |
| `SaveMigration.Card.TellsTheRest` | scripts/migrate_cartridge_save_namespace.py:787-828 | the step taken on one file decides whether the run leaves a temporary file, or passes the question on to the rest of the plan |
| `SaveMigration.Card.IsolatedRestores` | scripts/migrate_cartridge_save_namespace.py:649-658 | where no two operations in a row fail, no temporary file is left |
| `SaveMigration.ApplyAgain` | scripts/migrate_cartridge_save_namespace.py:794-799 | a second run after a success copies nothing and changes nothing, and succeeds undisturbed |
| `SaveMigration.TemporaryCanSurvive` | scripts/migrate_cartridge_save_namespace.py:649-658 | if the write of the first file and the removal of its temporary file fail, the migration reports no leftovers and the file stays |
| `SaveMigration.CopyCannotBeTakenBack` | scripts/migrate_cartridge_save_namespace.py:706-718 | a run without an exclusive rename in which no operation fails and the copy of the first file stays when the second is refused |
| `LexOrder.Sorted` | scripts/quartus_connectivity_source_closure.py:825-828 | the ascending list of exactly the given set |
| `LexOrder.AscendingUnique` | scripts/quartus_connectivity_source_closure.py:828-828 | that list is unique |
| `LexOrder.FirstDifferenceDecides` | scripts/quartus_connectivity_source_closure.py:828-828 | the first different characters decide, the smaller one first; a proper prefix comes first |
| `SourceGraph.LoadedIsLeast` | scripts/quartus_connectivity_source_closure.py:767-803 | the files reachable by QIP assignments are contained in every set closed under them |
| `SourceGraph.ConstraintsAreLeast` | scripts/quartus_connectivity_source_closure.py:805-819 | likewise for SDC files and read_sdc |
| `SourceGraph.ConflictingMeans` | scripts/quartus_connectivity_source_closure.py:790-799 | two assignments conflict iff they read one file as VHDL and as a Verilog language |
| `SourceClosure.Absorb` | scripts/quartus_connectivity_source_closure.py:785-803 | one assignment is recorded, or has a forbidden generator or conflicting language |
| `SourceClosure.ScanAssignments` | scripts/quartus_connectivity_source_closure.py:761-803 | terminates on every finite, possibly cyclic file set; succeeds iff all reachable assignments are sound, having found all of them |
| `SourceClosure.ScanConstraints` | scripts/quartus_connectivity_source_closure.py:805-819 | terminates; succeeds iff every reachable SDC file parses, having found all their targets |
| `SourceClosure.DiscoverSourceGraph` | scripts/quartus_connectivity_source_closure.py:757-828 | succeeds iff the project is sound, and then returns the sorted closure and nothing else |
| `SourceClosure.DiscoverSourcePaths` | scripts/quartus_connectivity_source_closure.py:831-837 | the repository's own project: every path found is a tracked file, and a pre-flow script implies that the reviewed generator is among them |
| `VerilogComments.WithoutComments` | scripts/quartus_connectivity_source_closure.py:530-576 | the index loop equals the recursive blanking, and fails iff a block comment is open at the end |
| `VerilogComments.BlankShape` | scripts/quartus_connectivity_source_closure.py:549-572 | length, carriage returns and line feeds are kept; every character is kept or becomes a space |
| `VerilogComments.Idempotent` | scripts/quartus_connectivity_source_closure.py:530-576 | blanking twice is blanking once, and the output never fails |
| `VerilogComments.ScanToken` | scripts/quartus_connectivity_source_closure.py:537-573 | one token of the grammar (plain character, string, line or block comment, open string or block) is scanned as a unit |
| `VerilogComments.ScanTokens` | scripts/quartus_connectivity_source_closure.py:530-576 | on any token sequence code and strings are kept, comments wiped, and only an open block comment fails |
| `VerilogComments.Segment` | scripts/quartus_connectivity_source_closure.py:530-576 | every text has a token sequence, so the agreement covers all inputs |
| `Utf8.EncodeIsFirst` | scripts/quartus_report_text.py:24-24 | the encoding of a scalar value is read back as that value, whatever follows |
| `Utf8.FirstIsEncode` | scripts/quartus_report_text.py:24-24 | every well-formed sequence is the encoding of the value it is read as |
| `Utf8.FirstIffSyntax` | scripts/quartus_report_text.py:24-24 | a sequence is read exactly where the syntax table of RFC 3629, section 4, has one |
| `Utf8.PrefixDecodes` | scripts/quartus_report_text.py:26-30 | the bytes before the reported error decode cleanly, and what follows is malformed |
| `ReportText.StrictThenLenient` | scripts/quartus_report_text.py:22-32 | a strict attempt is a prefix of the single left-to-right pass |
| `ReportText.Restart` | scripts/quartus_report_text.py:26-32 | one turn of the restart loop keeps the meaning of the rest |
| `ReportText.DecodeReport` | scripts/quartus_report_text.py:10-32 | the restart loop terminates and equals the single pass; its inner decode cannot fail |
| `ReportText.LenientAccepts` | scripts/quartus_report_text.py:10-32 | any mix of encoded scalars and lone 0xB0 bytes is decoded to exactly its characters |
| `ReportText.LenientOnlyAccepts` | scripts/quartus_report_text.py:28-29 | whatever is accepted is such a mix |
| `ReportText.LenientFails` | scripts/quartus_report_text.py:27-29 | a failure points at a malformed sequence not starting with 0xB0, after an acceptable prefix |
| `ReportText.PlainOnValidInput` | scripts/quartus_report_text.py:24-25 | on valid UTF-8 the result is plain decoding |
| `SemVer.ValueInjective` | scripts/package_core.py:1539-1547 | without leading zeros a number has one spelling |
| `SemVer.DigitsAreTen` | scripts/package_core.py:1576-1579 | the one-character numeric identifiers are the ten digits, with values 0 to 9 |
| `SemVer.ValueAppend` | scripts/package_core.py:1578-1579 | a further digit counts once and what stands before it ten times as much |
| `SemVer.SectionElevenOrder` | scripts/package_core.py:1556-1585 | the reference precedence orders the example versions of section 11 of Semantic Versioning 2.0.0 as listed there |
| `SemVer.PrecedesTotal` | scripts/package_core.py:1556-1585 | the reference precedence compares any two different accepted versions |
| `SemVer.PrecedesTransitive` | scripts/package_core.py:1556-1585 | and it is transitive |
| `SemVer.CompareSemver` | scripts/package_core.py:1556-1585 | the early-return loops compute the recursive comparison |
| `SemVer.CompareIsOrder` | scripts/package_core.py:1556-1585 | on accepted versions the comparison decides the reference order, is antisymmetric, and is zero only for equal versions |
| `SemVer.LeadingZerosBreakTheOrder` | scripts/package_core.py:1539-1547 | 1 and 01 would each compare below the other |
| `SemVer.AntisymmetricIff` | scripts/package_core.py:1571-1585 | comparing identifiers is antisymmetric iff the first differing ones do not spell the same number |
| `ReleaseHistory.PolicySemver` | scripts/package_core.py:1528-1553 | whatever is accepted has no leading zero in a numeric identifier |
| `ReleaseHistory.PolicySemverMeans` | scripts/package_core.py:1528-1553 | a text is accepted as exactly what it splits into, unless an identifier of two or more digits begins with 0; both errors exactly |
| `ReleaseHistory.ValidateEntries` | scripts/package_core.py:1615-1636 | succeeds iff every entry is acceptable and no version is repeated |
| `ReleaseHistory.ValidateReleaseHistory` | scripts/package_core.py:1588-1651 | on success the folds found the true maximal version, its published text and the maximal date |
| `ReleaseHistory.NewerThanLatest` | scripts/package_core.py:1809-1824 | being newer than the maxima is being newer than every published release |
| `ReleaseHistory.ReleaseGate` | scripts/package_core.py:1796-1824 | accepts exactly the candidates newer, in version and date, than every published release |

## Left out

- JSON schema validators, manifest checkers, release assembly, evidence bundling, argument parsing and rendered text: long lists of single-branch checks or external effects.
- Operating-system detail of the transactions (fsync, open flags, case folding, symbolic links, held directory descriptors, created parent directories): only names, inodes, contents and no-replace renames, links and unlinks are modelled.
- Concurrent writers: the branches of the preset and migration scripts that only another process can reach (changed identities, a destination that appears midway, a file that vanishes, in the migration's rollback also the quarantined file of another writer) are shown unreachable without one, or absent.
- Operations fail before their effect.  What the source does after an effect (flushing a directory, removing a temporary name) is an operation of its own and can fail; an interrupt that lands between an effect and the next operation is modelled only there.
- SHA-256: contents stand for their digests, so collisions are outside the model.
- Quartus assignment and SDC line parsing, and the indirect HDL input checks: parameters of the source-graph model.
- The Semantic Version and date patterns, and the length limit of policy text: parameters of the history model, with what the code needs of them stated there.
- Publisher identity, repository and authorization checks of the release policy: they do not meet the version order.
- Media checks and copying of QA evidence, and the selection and manifest rules of the QA schema: parameters of the recorder.
- QaRecorder.Recorder.LoadSession: the schema checks on the sidecar document are absent; a sidecar is a well-formed session by its type.
- ReportText.DecodeReport: an error carries the offset in the whole report, while the source re-raises the decoder's error for the remaining slice, whose offset counts from there.
- Temporary names of the QA session: they are invisible to every command, so only published names are modelled.
- QaRecorder.Recorder.IngestArtifact: no claim that the place of the next evidence is free after a crash; evidence linked but not recorded keeps it and the next attempt refuses it.
- PresetGenerate.GeneratePresets: with several failures, how the run ends is told by the exact conditions on each rollback turn, not from the state before the call.
- SaveMigration.Card.Quarantine: a quarantine name that appears between the look and the rename, which the source retries, needs another writer and is absent.
- SaveMigration.Card.ApplyMigration: planning and its revalidation are one step that may fail; a temporary hard link left after a successful link is allowed where exclusive rename is missing, as in the source.
- Floating-point metric fields: the exact integers and fractions they are computed from are modelled instead.
- `Canvas.stamp_icon`, the icon rotation, bit reversal and the fixed artwork: finite or direct consequences of the rectangle.
- VHDL comment stripping: it depends on the line separators of Python's `splitlines`.
- `_convert_save` and the fixed save layouts: finite tables.
