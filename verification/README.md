# Verified model of the htsglang operator tools

The repository's scripts plan, measure and document a serving stack that flips between pipeline
parallel (PP) and tensor parallel (TP) layouts. This project models the parts of them that decide
something, as Dafny 4.11 functions, methods and classes, and proves what they are relied on for.
`dafny verify dfyconfig.toml` covers all of it.

- **Wave orders** (`WaveModel`, `WaveOptimum`, `WaveRounding`, `WaveTrace`, `WaveLaws`, `WaveRig`,
  `WaveLayers`; tool
  `scripts/s27_order_optimum.py`). The memoised search over stage orders is a class with its cache.
  Its result is proved to be the minimum, the peak it prices is proved to be the largest balance at
  any instant of a step-by-step simulation of the blocked run, and orders of stage labels are
  proved to lose nothing against orders of single layers.
- **Transport benchmark** (`BenchCells`, `BenchProtocol`, `BenchAgreement`, `BenchRun`,
  `BenchMeasure`, `BenchExchange`; `benchmark/bench_host_transport.py`). All ranks run one program
  and exchange votes. Build results, refusals, check verdicts, latencies and clock readings are
  arbitrary per-rank inputs. The theorems are about every run: who issues which collective, whether
  the run ends, and what the recorded samples are worth.
- **Trace lanes** (`SpanLanes`, `SpanDepth`, `SpanAllocator`; `scripts/convert_otel_2_perfetto.py`).
  The containers and the allocator are classes; they refine a functional layout about which
  soundness and optimality are proved.
- **INT8 requantiser** (`Quantiser`, `Checkpoint`; `tools/requant_vocab_int8.py`). Exact arithmetic
  with an explicit error bound on the stored scale.
- **Environment capture, shell export, replay record** (`Text`, `FileText`, `EnvCapture`,
  `ShellExport`, `ReplayRecord`; `scripts/turnkey_539_export_env.py`, `scripts/seam_scaling_reboot.py`). Parsers,
  printers and the drift check, with round trips. Quoting follows section 2.2 of the POSIX Shell
  Command Language (IEEE Std 1003.1).
- **Timelines** (`TpDuty`, `Windows`, `AlternatingRuns`, `ShotCadence`; `scripts/s22_decode_probe.py`,
  `scripts/s37_c20_proof.py`, `scripts/s21_phase_corridor.py`,
  `scripts/d2_phase_locked_injector.py`). Folds and neighbour searches against declarative
  definitions.

## Where the code does not do what its text says

For each a lemma gives the failing input, and another says exactly when the code does what is wanted.

- The budget exit of the benchmark is decided by each rank on its own clock, against the file's own
  rule (`benchmark/bench_host_transport.py:73-80`, `benchmark/bench_host_transport.py:619-621`). Two
  healthy ranks of which one is late hang: `OneLateClockHangs`. Runs stay in step, and complete, if and
  only if that exit is uniform: `AgreementIffUniform`, `CompletionIffUniform`.
- The two flip directions are mirror images, yet `tp_to_pp` costs more than `pp_to_tp` wherever a head
  share is truncated: `RigTruncatedDisagree`. Their optima are equal if and only if rows are a multiple
  of 16 bytes or there are none, for every block count: `RigAgreeIffAligned`.
- A span that lasted exactly one microsecond has no length once converted, is put on its request's
  line without a test, and hides a running span from the next test: `ZeroLengthHides`. Any other span
  is harmless in every company: `SafeIffLength`.
- The replay record promises that chained reboots compose. A replay header among the baseline
  arguments, followed by an argument, breaks the round trip: `HeaderInBaseline`. The exact condition,
  for all strings, line breaks included: `RoundTripIff`.
- A governed-only export followed by a drift check over all keys reports captured keys as missing:
  `NarrowExportFails`. It does not if and only if they were right before: `ExportThenCheck`, which also
  says that a render is read if and only if the keys it carries are shell names.
- The injector's cadence guard asks for a gap above the run window of 8 s. If no shot fails and no arm
  is logged later than `lag` after its shot's first token, no run mixes two shots if and only if the gap
  is at least 9 s and the lag: `SafeIffSecondOver`; so the guard is too weak even without a lag:
  `GuardTooWeak`. Without those two assumptions no gap is enough: `FailureDefeatsGap`, and
  `LateArmDefeatsGap` for arms that come at any time before the next shot.
- The comment on attribution says a shot may claim a neighbour's arm. Under an accepted gap, and if
  every arm belongs to the latest shot sent, a shot that succeeded claims none; but it misses arms of
  its own, such as one logged in the second of its arrival: `ArrivalSecondMissed`. It is charged all its
  own if and only if they are all stamped between its arrival and its first token: `ChargedToOwner`.

## Model

| member | source | states |
|---|---|---|
| `WaveOptimum.SolveIsOptimal` | scripts/s27_order_optimum.py:70-111 | for any number of stages, any spans and block count, the returned order uses each stage exactly its count of times, has the returned peak, and no complete order has a smaller one |
| `WaveOptimum.BestIsOptimal` | scripts/s27_order_optimum.py:74-107 | the same from every prefix: the best over all completions of what is already placed |
| `WaveOptimum.ScanIsBest` | scripts/s27_order_optimum.py:89-107 | after trying the first n stages the candidate is the best completion that starts with one of them, and is missing exactly when all of them are used up |
| `WaveOptimum.Solver.constructor` | scripts/s27_order_optimum.py:70-75 | a search starts with an empty cache |
| `WaveOptimum.Solver.Balances` | scripts/s27_order_optimum.py:80-88 | the loop computes every rank's balance after the prefix |
| `WaveOptimum.Solver.WavePeak` | scripts/s27_order_optimum.py:93-100 | the loop computes the worst rank's peak within the next wave |
| `WaveOptimum.Solver.Search` | scripts/s27_order_optimum.py:74-107 | the memoised recursion returns what the plain recursion does, and every cache entry stays right |
| `WaveOptimum.Solver.Run` | scripts/s27_order_optimum.py:109-111 | the whole search returns a complete order of minimal peak and clears its cache |
| `WaveTrace.HighWaterIsMaxPrefix` | scripts/s27_order_optimum.py:25-26 | the simulated peak is the maximum of the running balance over all instants, and is reached |
| `WaveTrace.WaveHighWater` | scripts/s27_order_optimum.py:62-67 | the maximum over the B commit-then-release steps of a wave is reached at the first or at the last commit |
| `WaveTrace.InnerIsWaveHighWater` | scripts/s27_order_optimum.py:62-67 | the closed form equals the rounded-up maximum over the block steps, for every block count |
| `WaveTrace.InnerCoversNet` | scripts/s27_order_optimum.py:62-67 | a wave's peak is never below its net growth |
| `WaveTrace.BaseBump` | scripts/s27_order_optimum.py:80-88 | the balance computed from the counts is the one reached by adding up the waves one by one |
| `WaveTrace.PeakByRank` | scripts/s27_order_optimum.py:93-104 | pricing wave by wave over all ranks is the maximum of the ranks' own peaks |
| `WaveTrace.PeakIsSimulated` | scripts/s27_order_optimum.py:80-107 | the objective is the worst rank's largest balance at any instant of the blocked run, rounded up |
| `WaveLaws.InnerSplits` | scripts/s27_order_optimum.py:8-15 | a wave's peak is its net growth, which blocking cannot remove, plus a part that shrinks as 1/B |
| `WaveLaws.BareCommitCostsAll` | scripts/s27_order_optimum.py:8-11 | a wave with nothing to release costs its full commit for every block count |
| `WaveLaws.InnerShrinks` | scripts/s27_order_optimum.py:62-67 | a wave's peak never rises with the block count |
| `WaveLaws.PeakShrinks` | scripts/s27_order_optimum.py:90-107 | nor does the peak of any order from any prefix |
| `WaveLaws.OptimumShrinks` | scripts/s27_order_optimum.py:70-111 | nor does the optimum |
| `WaveLaws.RewindHighWater` | scripts/s27_order_optimum.py:47-49 | a run played backwards peaks exactly its final balance lower |
| `WaveLaws.MirrorRewinds` | scripts/s27_order_optimum.py:43-48 | the opposite direction running the reversed order plays the run backwards, instant by instant |
| `WaveLaws.MirrorRankPeak` | scripts/s27_order_optimum.py:40-67 | a rank's peak drops under mirroring by exactly what it is left holding, so it survives if and only if that is zero |
| `WaveLaws.MirrorPeak` | scripts/s27_order_optimum.py:40-107 | if every rank's commits equal its releases, any order peaks as high as its reverse in the other direction, for every block count |
| `WaveLaws.MirrorOptimum` | scripts/s27_order_optimum.py:40-111 | then both directions have the same optimum and reversing an optimal order gives an optimal one |
| `WaveLaws.MirrorOptimumWithin` | scripts/s27_order_optimum.py:40-111 | otherwise the optima differ by at most the largest imbalance, in the direction of its sign |
| `WaveRig.RigBalanced` | scripts/s27_order_optimum.py:35-59 | the rig is balanced if and only if rows are a multiple of 16 bytes or there are none |
| `WaveRig.RigDirectionsAgree` | scripts/s27_order_optimum.py:35-59 | the two priced directions are mirror images; with aligned rows their optima are equal |
| `WaveRig.RigDirectionsWithin` | scripts/s27_order_optimum.py:35-111 | for every row size tp_to_pp needs at least what pp_to_tp needs and at most 15 bytes a pool row more |
| `WaveRig.FirstWaveCounts` | scripts/s27_order_optimum.py:90-107 | in any flip no order peaks below what its first wave costs the rank that owns it |
| `WaveRig.EvenPeak` | scripts/s27_order_optimum.py:80-107 | with unaligned rows an order that spreads the stages evenly keeps every rank, in every wave, below the cheapest first wave of the other direction |
| `WaveRig.RigTruncatedDisagree` | scripts/s27_order_optimum.py:50-111 | for every row size that is no multiple of 16 bytes, every non-empty pool and every block count, the pp_to_tp optimum is below the cheapest first wave of tp_to_pp, and the tp_to_pp optimum is not |
| `WaveRig.RigAgreeIffAligned` | scripts/s27_order_optimum.py:35-111 | the two directions have the same optimum if and only if rows are a multiple of 16 bytes or there are none |
| `WaveLaws.PeakCoversImbalance` | scripts/s27_order_optimum.py:80-88 | no order peaks below what a rank holds at the end |
| `WaveLayers.LayerPeakByLabel` | scripts/s27_order_optimum.py:17-21 | an order of single layers peaks exactly as its stage labels do |
| `WaveLayers.PermutationLabels` | scripts/s27_order_optimum.py:17-20 | every layer permutation gives a label sequence with the right counts |
| `WaveLayers.LabelsRealised` | scripts/s27_order_optimum.py:17-20 | every label sequence with the right counts comes from a layer permutation |
| `WaveLayers.SolveIsLayerOptimum` | scripts/s27_order_optimum.py:17-26 | the search's peak is the minimum over all permutations of the layers, and is attained |
| `BenchCells.DecimalValue` | benchmark/bench_host_transport.py:145 | a printed size can be read back and holds no separator |
| `BenchCells.CellKeyInjective` | benchmark/bench_host_transport.py:136-145 | two cells with the same key are the same cell |
| `BenchAgreement.BuildErrorSound` | benchmark/bench_host_transport.py:278-294 | a rank reports no error exactly when it holds the transport asked for |
| `BenchAgreement.NeverSkips` | benchmark/bench_host_transport.py:444-450 | no rank ever takes the skip for a missing transport, so all ranks vote on the same cells |
| `BenchAgreement.BuildVoteDecides` | benchmark/bench_host_transport.py:298-310 | a backend is kept if and only if it came up on every rank, and then each rank holds its transport |
| `BenchAgreement.AskVoteDecides` | benchmark/bench_host_transport.py:463-467 | a cell is dropped if and only if some rank's direct path refuses it |
| `BenchAgreement.CheckVoteDecides` | benchmark/bench_host_transport.py:586-597 | a live cell is voted out if and only if some rank failed its check in this round |
| `BenchAgreement.RemoveEachIsKept` | benchmark/bench_host_transport.py:601-602 | removing the dropped cells one by one leaves exactly the others, in order |
| `BenchAgreement.LiveAfterVote` | benchmark/bench_host_transport.py:580-602 | after a vote live are exactly the cells that every rank passed in every round so far |
| `BenchAgreement.ExchangeAgrees` | benchmark/bench_host_transport.py:271-629 | from a state in which all ranks agree, one exchange leads to such a state, unless the clocks decide and differ |
| `BenchRun.ClocksSplit` | benchmark/bench_host_transport.py:619-621 | where they do differ, the ranks head for different collectives |
| `BenchRun.AgreedOrStuck` | benchmark/bench_host_transport.py:271-667 | every reachable state is agreed, or out of step |
| `BenchRun.StuckForever` | benchmark/bench_host_transport.py:73-80 | ranks that are out of step stay where they are |
| `BenchRun.AgreementIffUniform` | benchmark/bench_host_transport.py:271-667 | the ranks issue the same collectives throughout, for all build errors, refusals, check failures and latencies, if and only if the budget exit is uniform |
| `BenchRun.SameTraces` | benchmark/bench_host_transport.py:271-667 | in a uniform run any two ranks have the same trace, phase and live cells at every point |
| `BenchRun.UniformCompletes` | benchmark/bench_host_transport.py:580-669 | a uniform run ends with the same exit code on every rank |
| `BenchRun.SplitHangs` | benchmark/bench_host_transport.py:619-629 | if the clocks decide and differ in some round, no rank ever exits |
| `BenchRun.CompletionIffUniform` | benchmark/bench_host_transport.py:271-669 | all ranks exit with one code if and only if the budget exit is uniform |
| `BenchRun.OneLateClockHangs` | benchmark/bench_host_transport.py:619-621 | two ranks on which everything works, one of them past the budget after the first round, and no rank ever exits |
| `BenchMeasure.RotateIsPermutation` | benchmark/bench_host_transport.py:609 | each round's order is a permutation of the live cells |
| `BenchMeasure.MeasureGrows` | benchmark/bench_host_transport.py:610-615 | a round adds to a cell its planned number of samples per turn, all from that round |
| `BenchMeasure.MeasurementSafe` | benchmark/bench_host_transport.py:580-615 | in every state of every run, uniform or not, each sample of a cell comes from a round in which all ranks passed it, then and before, and their number is surviving rounds times planned iterations |
| `BenchExchange.SplitSizes` | benchmark/bench_host_transport.py:148-166 | the loop deals the rows out exactly, evenly or with the first rank weighted, the remainder to the first |
| `BenchExchange.DealsDetermined` | benchmark/bench_host_transport.py:148-166 | that fixes the split; shares are not negative and the first is the largest, so `max_block` is the maximum over all pairs |
| `BenchExchange.FillBlocks` | benchmark/bench_host_transport.py:370-382 | filling a buffer block by block in place lays out the marked blocks |
| `BenchExchange.KnownAnswerIsDelivered` | benchmark/bench_host_transport.py:364-382 | the expected buffer is exactly what the exchange of the sent buffers delivers, for every world size and split |
| `BenchExchange.MarkedRowsDiffer` | benchmark/bench_host_transport.py:349-354 | rows of different sender and receiver pairs differ |
| `SpanLanes.NeighbourIsFull` | scripts/convert_otel_2_perfetto.py:58-70 | on a lane of positive intervals the two-neighbour test agrees with testing every interval |
| `SpanLanes.NeighbourSound` | scripts/convert_otel_2_perfetto.py:58-70 | on any good lane, what the test lets through overlaps no positive interval |
| `SpanLanes.InsertKeepsLane` | scripts/convert_otel_2_perfetto.py:72-73 | inserting it keeps the lane sorted and its intervals disjoint |
| `SpanLanes.PlaceKeepsLayout` | scripts/convert_otel_2_perfetto.py:278-293 | placing a span of non-zero length keeps lanes good, lines numbered 1..n, one metadata entry each, and adds no overlap |
| `SpanLanes.LayoutIsSound` | scripts/convert_otel_2_perfetto.py:269-309 | so whole layouts have these properties for all requests in any order, provided no converted span has zero length |
| `SpanDepth.LanesAreOptimal` | scripts/convert_otel_2_perfetto.py:295-309 | positive spans in start order get exactly as many lanes as are open at some instant |
| `SpanDepth.AnyLayoutNeeds` | scripts/convert_otel_2_perfetto.py:295-309 | any overlap-free layout has at least as many lines as spans are open at an instant |
| `SpanDepth.GatewayLanesAreMinimal` | scripts/convert_otel_2_perfetto.py:269-309 | the gateway spans, in whatever order they were read, get the fewest lanes possible |
| `SpanDepth.ZeroLengthHides` | scripts/convert_otel_2_perfetto.py:98-99 | with a zero-length span between them two spans are drawn over each other on one line, among gateway spans as well as within a request |
| `SpanDepth.SafeIffLength` | scripts/convert_otel_2_perfetto.py:98-99 | a gateway span, and an engine span, is harmless among any requests and gateway spans if and only if it did not last exactly 1000 ns |
| `SpanAllocator.SpanLayoutContainer.constructor` | scripts/convert_otel_2_perfetto.py:54-56 | a container starts empty |
| `SpanAllocator.SpanLayoutContainer.BisectStart` | scripts/convert_otel_2_perfetto.py:59 | the search finds the first interval that does not start before |
| `SpanAllocator.SpanLayoutContainer.CheckOverlap` | scripts/convert_otel_2_perfetto.py:58-70 | the method is the two-neighbour test of the layout |
| `SpanAllocator.SpanLayoutContainer.InsertSpan` | scripts/convert_otel_2_perfetto.py:72-73 | the interval is inserted at the leftmost sorted place |
| `SpanAllocator.Allocator.FindLine` | scripts/convert_otel_2_perfetto.py:95-120 | the line chosen is the request's own if it fits, else the first that fits, else a new one with a metadata entry; nothing else changes |
| `SpanAllocator.Allocator.PlaceSpan` | scripts/convert_otel_2_perfetto.py:282-293 | one span changes the shared tables as the layout says |
| `SpanAllocator.Allocator.Run` | scripts/convert_otel_2_perfetto.py:269-309 | the two loops over the mutable containers produce exactly the layout proved sound and optimal |
| `Quantiser.QuantizeBlocked` | tools/requant_vocab_int8.py:122-135 | the in-place blocked loop equals the whole-matrix definition for every row count and block size |
| `Quantiser.Quantize` | tools/requant_vocab_int8.py:122-135 | so does the block size chosen by the tool |
| `Quantiser.ClampIsIdle` | tools/requant_vocab_int8.py:131-132 | the clamp never changes a code |
| `Quantiser.RoundTripError` | tools/requant_vocab_int8.py:101-141 | with the scale stored to relative error 1/256 every entry comes back within 255/256 of a step |
| `Quantiser.RailReached` | tools/requant_vocab_int8.py:130-132 | a row uses a code of magnitude 127 if and only if its largest entry exceeds 126.5 steps; every row above the floor does |
| `Quantiser.CodesKeepOrder` | tools/requant_vocab_int8.py:129-132 | codes keep the order of a row's entries |
| `Quantiser.QuantSymmetric` | tools/requant_vocab_int8.py:101-104 | negating a row negates its codes and keeps its scale |
| `Checkpoint.FindTargets` | tools/requant_vocab_int8.py:160-172 | accepted if and only if each target is carried by exactly one tensor, and then it is that one |
| `Checkpoint.CarrierIsNoScale` | tools/requant_vocab_int8.py:165 | no target is itself named like a scale |
| `Checkpoint.RewriteShard` | tools/requant_vocab_int8.py:362-373 | fails exactly on a target that is no matrix; else says what every name of the new shard holds, for any order of the tensors |
| `Checkpoint.RewriteIndex` | tools/requant_vocab_int8.py:375-378 | says what every name of the new index maps to |
| `Checkpoint.Rewrite` | tools/requant_vocab_int8.py:349-380 | untouched shards are linked as they are, touched ones rewritten, missing ones reported |
| `Checkpoint.Requantize` | tools/requant_vocab_int8.py:339-380 | the rewrite is run for exactly the tensors that carry the targets |
| `Checkpoint.AgreementIffScalesFit` | tools/requant_vocab_int8.py:362-380 | given an index that lists exactly its shards, the output's does too if and only if no scale name is taken in another shard |
| `Checkpoint.ShardNames` | tools/requant_vocab_int8.py:362-373 | a written shard holds what it held and the scales of its own targets, nothing else |
| `Checkpoint.RewriteKeepsRest` | tools/requant_vocab_int8.py:349-380 | where no scale name is taken other tensors keep shard and value, and codes and scale sit together |
| `Text.SplitUnlines` | scripts/turnkey_539_export_env.py:88 | printed lines are split into the same lines |
| `Text.SortedNames` | scripts/turnkey_539_export_env.py:130 | every name once, in ascending order |
| `EnvCapture.ParseCapture` | scripts/turnkey_539_export_env.py:78-105 | accepts exactly texts whose lines are proper and set no key twice, returns exactly what they say, else names the first bad line and the reason |
| `EnvCapture.ReadsUnique` | scripts/turnkey_539_export_env.py:78-105 | an accepted text says one thing only |
| `EnvCapture.PrintThenParse` | scripts/turnkey_539_export_env.py:78-105 | for every accepted text, printing what it says as KEY=VALUE lines gives a text that says the same |
| `ShellExport.QuoteThenLex` | scripts/turnkey_539_export_env.py:135 | a quoted value is read back by the shell as itself, whatever it holds |
| `ShellExport.RenderExports` | scripts/turnkey_539_export_env.py:117-136 | the header, then one export line per carried key in order |
| `ShellExport.CapturedKeys` | scripts/turnkey_539_export_env.py:95-96 | a captured key holds no '=' |
| `ShellExport.RenderThenSource` | scripts/turnkey_539_export_env.py:117-136 | sourcing a render over any environment sets exactly the carried keys to their captured values, if they are all shell names; if one is not, the render is not read |
| `ShellExport.DiffEnv` | scripts/turnkey_539_export_env.py:159-183 | reports exactly the divergences in scope, in order of the keys |
| `ShellExport.ExportThenCheck` | scripts/turnkey_539_export_env.py:117-183 | a render is read if and only if every key it carries is a shell name; then only EXTRA entries remain, over any environment, if and only if the export was not narrower than the check or the rest was right already |
| `ShellExport.NarrowExportFails` | scripts/turnkey_539_export_env.py:133-134 | a capture of one ungoverned key, exported governed-only over an empty environment, is reported by a check over all keys |
| `FileText.FileLinesOneLine` | scripts/seam_scaling_reboot.py:148-150 | a line read holds neither a newline nor a carriage return |
| `FileText.FileLinesUnlines` | scripts/seam_scaling_reboot.py:148-150 | a printed file is read as the pieces of each printed line, one after the other |
| `ReplayRecord.ReadReplayRecord` | scripts/seam_scaling_reboot.py:125-165 | the line loop gives what the sections contribute, or the error for the empty part |
| `ReplayRecord.WriteRecord` | scripts/seam_scaling_reboot.py:302-315 | the text written, line by line, with the environments in order of their keys |
| `ReplayRecord.RecordTaken` | scripts/seam_scaling_reboot.py:147-160 | what a reader holds after a whole record, for all strings, headers and line breaks among them included |
| `ReplayRecord.HarmlessIff` | scripts/seam_scaling_reboot.py:149-160 | lines contribute nothing but settings of given keys exactly when each line, under the header in force, does |
| `ReplayRecord.RoundTripIff` | scripts/seam_scaling_reboot.py:125-165 | for every record, reading what was written gives back the replayed boot if and only if its parts are non-empty, its arguments are neither blank nor headers nor broken over lines, its keys hold no '=', its settings are not broken over lines, and what is written before them is harmless |
| `ReplayRecord.HeaderInBaseline` | scripts/seam_scaling_reboot.py:151-157 | a replay header among the baseline arguments breaks it whenever an argument follows before the next header |
| `ReplayRecord.ChainComposes` | scripts/seam_scaling_reboot.py:135-137 | along any chain of records each baseline is the boot replayed before, and reading the last gives the last |
| `TpDuty.KeptRank` | scripts/s22_decode_probe.py:84 | the first rank name in the log |
| `TpDuty.EventsOrdered` | scripts/s22_decode_probe.py:85 | the sorted events are exactly the kept rank's, with their multiplicity, in order of time, then direction |
| `TpDuty.FoldEvents` | scripts/s22_decode_probe.py:86-98 | the fold over all events computes the TP time inside the window; for a window that ends before it starts, its negative length if it starts in TP |
| `TpDuty.TpSeconds` | scripts/s22_decode_probe.py:51-98 | from the parsed lines of all ranks: zero for none, else the fold of the first rank's events, for every window |
| `TpDuty.MeasureUnique` | scripts/s22_decode_probe.py:86-98 | any additive measure that counts stretches in TP fully and others not at all is this one |
| `TpDuty.DutyIsTpTime` | scripts/s22_decode_probe.py:86-98 | it is the length of the part whose latest event is pp_to_tp, splits at any instant, and lies between nothing and the window |
| `Windows.InCutover` | scripts/s37_c20_proof.py:88-101 | true exactly when some mark has the sample in its window, though four neighbours are looked at |
| `Windows.SplitRows` | scripts/s37_c20_proof.py:103-105 | every sample goes to inside or outside, in order, by that criterion |
| `Windows.PhaseAtMeaning` | scripts/s21_phase_corridor.py:100-111 | a phase is returned exactly when one was entered and no transition at all is within the margin, and it is the latest |
| `Windows.Buckets` | scripts/s21_phase_corridor.py:138-151 | each sample of the run lands in exactly one of pp, tp and seam on each card, in order |
| `AlternatingRuns.FindRuns` | scripts/d2_phase_locked_injector.py:333-349 | returns in order exactly the maximal linked segments of two or more arms |
| `AlternatingRuns.HalfCycles` | scripts/d2_phase_locked_injector.py:352-357 | the nested loop lists the gaps run by run |
| `AlternatingRuns.HalfCyclesAreLinkedGaps` | scripts/d2_phase_locked_injector.py:333-357 | these are the gaps of all linked neighbours of the log, in order, each within the limit |
| `AlternatingRuns.FixedIffUnlinked` | scripts/d2_phase_locked_injector.py:415-438 | the fixed arm passes if and only if no two neighbouring arms are linked |
| `AlternatingRuns.ControlIffPingPong` | scripts/d2_phase_locked_injector.py:415-433 | the control arm passes if and only if a chain of linked arms joins a mirrored pair |
| `ShotCadence.SafeIffSecondOver` | scripts/d2_phase_locked_injector.py:462-482 | if no shot fails and every arm is logged between its shot's arrival and `lag` after its first token, no run can mix two shots if and only if the gap is at least the run window, one second and the lag |
| `ShotCadence.GuardTooWeak` | scripts/d2_phase_locked_injector.py:476-482 | every gap accepted by less than a second and the lag can chain two shots |
| `ShotCadence.FailureDefeatsGap` | scripts/d2_phase_locked_injector.py:551-570 | with one failed shot every gap can |
| `ShotCadence.LateArmDefeatsGap` | scripts/d2_phase_locked_injector.py:551-570 | so can every gap if an arm may come at any time between its shot's first token and the next shot |
| `ShotCadence.ChargedToOwner` | scripts/d2_phase_locked_injector.py:485-493 | if every arm belongs to the latest shot sent, a shot that succeeded is charged no other shot's arm under an accepted gap, and all its own if and only if they are stamped between its arrival and its first token |
| `ShotCadence.ArrivalSecondMissed` | scripts/d2_phase_locked_injector.py:485-493 | an arm logged in the second of its shot's arrival is charged to nobody |

## Left out

- The wave lemmas cover any number of stages; the tool has three, and only the `Rig` lemmas fix its sizes.
- Head shares are divided as integers; the tool divides as floats and truncates, which agrees below 2^53.
- The benchmark's ranks are values stepped exchange by exchange, not processes: an exception inside a timed series, a death before a collective is issued, gloo timeouts and the watchdog are not modelled.
- A cell listed twice is checked twice; the model keeps the verdict the round's dictionary ends with.
- Latencies and clocks are arbitrary inputs; nothing is said about their values. The statistics of the report are not modelled.
- BenchExchange.SplitSizes: world size and skew are at least one, as the arguments promise.
- Lines of a process are numbered 1..n, so the dictionary of lines is a sequence; requests come in the order they are processed, and their sorting by first span is left out.
- Child spans, events, links and metadata names of the trace: they only copy fields.
- fp32 and bf16 are exact reals with a relative error of 1/256 on the stored scale.
- A target's scale name already taken in its own shard leaves that entry's value to the order of the tensors.
- `strip_ignore`, `resolve_targets` and the config rewrite of the requantiser: single filters.
- The shell model reads comments and `export NAME=word` lines, the only ones a render of shell names holds; a line with another key is given up on, where a shell would do something else.
- ShellExport.RenderThenSource: the source path in the header is one line; a path with a newline would put its rest on a line of its own.
- ShellExport.ExportThenCheck: the source path in the header is one line, as above.
- The edits of argv and env before a replay record is written, and the reading of a live process, are not modelled.
- ShotCadence.SafeIffSecondOver: assumes that no shot fails and that arms come within a known lag after the first token; the source promises neither, and `FailureDefeatsGap` and `LateArmDefeatsGap` show that no gap is enough without them.
- ShotCadence.ChargedToOwner: assumes that an arm belongs to the latest shot sent before it.
- The gateway results are about the layout function on its own: the conversion before it reads a field that gateway spans do not get (`scripts/convert_otel_2_perfetto.py:226`), so the program stops there on any gateway span.
- Log parsing, HTTP, NVML, `/proc`, process control and GPU operations: inputs of the models are already parsed.
- `PhaseFlipRuntime`, `BarlinkBar1Transport` and the other imported runtime classes are not part of this model.
