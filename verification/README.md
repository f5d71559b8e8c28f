# Exact models of the core's oracles, recovery policy and trace monitors

This project models, in Dafny, the executable Python definitions of intended behaviour in the repository, and proves what
they are relied on for.

- **Floating point** (`Dyadic`, `FpReference`, `RealRounding`, `FpCorrectness`, `FpEncoding`, `FpPacking`, `FpOperations`,
  `FpTheorems`, `FpConversions`, `FpDecisions`, `DoubleRounding`, `WideArithmetic`). The integer oracle of
  `sim/fpu/reference.py` over a symbolic format, instantiated at binary32 and binary64. Its meaning is stated on real
  numbers: rounding as selection over the whole grid (section 4.3 of IEEE 754-2008), with overflow and underflow as in
  sections 7.4 and 7.5.
- **PowerPC results** (`PpcReference`, `PpcRounding`, `PpcExact`, `PpcArithmetic`, `PpcOperation`, `PpcFlags`). The status
  model of `sim/fpu/ppc_reference.py`: tininess before rounding, exponent-adjusted results under enabled overflow and
  underflow, NaN priority, invalid causes and negated fused forms.
- **Recovery** (`Recovery`, `RecoveryInvariant`, `RecoveryChecks`, `RecoveryMachine`, `RecoveryRuns`, `RecoveryPrecision`).
  The reorder queue of `sim/recovery/model.py` as an object whose step is proved equal to a step function, then safety over
  runs of that function.
- **Fetch drain** (`FetchDrain`). The request promise across redirects from the same file.
- **Address translation** (`Bitwise`, `Bat`, `BatEquivalence`, `BatService`). The interval and mask oracles of
  `sim/tools/bat_vectors.py` and the stateful service of `sim/tools/bat_service_vectors.py`.
- **Trace comparison and monitors** (`CompareState`, `StageTiming`, `StageSoundness`, `StageAcceptance`,
  `DispatchTrace`, `DispatchSafety`).

Integers are unbounded as in the source; every 32-bit truncation is written out. Bit operations are arithmetic on naturals,
or the recursive `And`, `Or` and `Xor` of `Bitwise` where masks meet. Exceptions are `Result` or `Option` values. An encoding's
sign is a boolean; encodings wider than the format are outside what the source defines. Rounding modes other than 0, 2 and 3
truncate, as in the source. A symbolic format has at least one fraction bit and two exponent bits.

`dafny verify dfyconfig.toml` verifies the whole project.

## Model

| member | source | states |
|---|---|---|
| FpPacking.PackRatioCorrect | sim/fpu/reference.py:68-94 | for every positive ratio, sign, mode and format the packed result is the IEEE result: the magnitude selected by the mode over every point of the format's grid, overflow exactly when the range-unbounded rounding reaches the first power of two out of range, NX exactly off the grid, UF and increment as promised |
| FpCorrectness.RoundedIsCorrect | sim/fpu/reference.py:76-87 | one rounding at the clamped quantum selects the nearest-even, truncated or directed grid point for the real value |
| FpPacking.PackRatioValueOnly | sim/fpu/reference.py:68-94 | equal rationals pack to equal bits and flags, however they are written as numerator, denominator and exponent |
| RealRounding.PackIsPackRatio | sim/fpu/reference.py:49-65 | the integer packer and the ratio packer with denominator one are the same function |
| FpPacking.PackRatioMonotone | sim/fpu/reference.py:68-94 | for a fixed sign and mode the packed encoding is monotone in the exact magnitude |
| FpPacking.PackDecodeRoundTrip | sim/fpu/reference.py:30-65 | decoding any finite encoding and packing it again in any mode gives the same bits and no flag |
| FpEncoding.DecodeEncode | sim/fpu/reference.py:30-38 | every canonical significand and exponent in range decodes back from its encoding |
| FpEncoding.DecodeCanonical | sim/fpu/reference.py:30-38 | every finite encoding decodes to its canonical pair and is the encoding of that pair |
| FpTheorems.CalculateRounds | sim/fpu/reference.py:145-187 | add, sub, mul and div of finite operands are one rounding of the exact real result, with the IEEE sign of an exact zero |
| FpTheorems.FmaRounds | sim/fpu/reference.py:190-221 | the fused operation is one rounding of the exact real product plus addend, with either negation |
| FpTheorems.FmaByOneIsAdd | sim/fpu/reference.py:190-221 | multiplying by one fused with an addend equals add in bits and flags, for all encodings |
| FpTheorems.Sterbenz | sim/fpu/reference.py:150-162 | operands within a factor of two subtract exactly, with no flag |
| FpTheorems.SumNeverUnderflows | sim/fpu/reference.py:150-162 | no add or sub of any encodings reports UF |
| FpConversions.NarrowOfWiden | sim/fpu/reference.py:135-144 | widening to binary64 and narrowing back returns a binary32 encoding unchanged if and only if it is not a signalling NaN |
| WideArithmetic.InnocuousDoubleRounding | sim/fpu/host_check.py:6-9 | for all non-NaN binary32 operands, every mode and add, sub, mul, div, computing in binary64 and narrowing gives the bits of computing in binary32 and its OF, UF, DZ and invalid; NX is set if either rounding was inexact, and the increment is that of the narrowing when it is inexact, else of the binary64 operation |
| DoubleRounding.RoundedTwice | sim/fpu/host_check.py:6-9 | rounding a value central in binary64 to binary64 and then to binary32 equals rounding it to binary32 once, in every mode; in nearest mode if the value is on its binary32 midpoint or further from it than half a binary64 spacing |
| FpDecisions.CompareCorrect | sim/fpu/reference.py:111-123 | the order code is the order of the extended reals, unordered exactly for NaNs, invalid exactly for a signalling one |
| FpDecisions.RoundIntSelects | sim/fpu/reference.py:41-46 | integer rounding selects the right integer among all integers in each mode |
| FpDecisions.ToIntegerCorrect | sim/fpu/reference.py:124-134 | conversion rounds the operand's value once and is invalid exactly when the rounded value leaves the signed 32-bit range |
| FpDecisions.FromIntegerRounds | sim/fpu/reference.py:107-110 | conversion from a word is one rounding of the signed value, exact and flag-free in binary64 |
| FpDecisions.NanResults | sim/fpu/reference.py:146-149 | a NaN operand comes back quiet, the first one first, with its sign and payload; invalid exactly for a signalling one |
| PpcRounding.UnboundedIsCorrect | sim/fpu/ppc_reference.py:31-45 | the unbounded rounding is the correct rounding in every format of the precision whose range reaches below the value |
| PpcRounding.UnboundedRounds | sim/fpu/ppc_reference.py:31-45 | the integer unbounded rounder returns a normalised mantissa denoting that rounding, with inexact and increment |
| PpcExact.FinitePartsExact | sim/fpu/ppc_reference.py:48-69 | the numerator, denominator, exponent and sign of a finite operation denote its exact real result |
| PpcRounding.FiniteDelivers | sim/fpu/ppc_reference.py:203-240 | value, OX, UX, XX, FR and FI of a nonzero finite result in both delivery paths, every mode and enable |
| PpcRounding.AdjustedExact | sim/fpu/ppc_reference.py:217-221 | the second packing of an exponent-adjusted result is exact |
| PpcExact.EnabledInRange | sim/fpu/ppc_reference.py:217-221 | an enabled overflow or tiny result always lands in the binary64 range: double results of any operands, single results of binary32-exact ones, rounding to single of any |
| PpcArithmetic.FiniteKeepsPromise | sim/fpu/ppc_reference.py:203-240 | every finite operation delivers one rounding of its exact result; enabled exceptions deliver it times the exponent adjustment exactly, classed as binary64; any other result is classed as the encoding rounded in its own format |
| PpcOperation.SignallingCause | sim/fpu/ppc_reference.py:104-106 | the loop finds VXSNAN exactly when a relevant operand is signalling |
| PpcOperation.SearchNan | sim/fpu/ppc_reference.py:127 | the search returns the first NaN among the relevant operands |
| PpcOperation.OracleSpecial | sim/fpu/ppc_reference.py:176-202 | on infinities, zero divisors and invalid combinations the unrounded oracle returns the promised result and flags |
| PpcOperation.FiniteAgrees | sim/fpu/ppc_reference.py:203-240 | with enables and NI clear the finite path gives the oracle's bits, XX, OX, ZX and invalid, sign-flipped for negated forms |
| PpcOperation.Arithmetic | sim/fpu/ppc_reference.py:72-240 | every operation, operand, mode and enable keeps its promise: comparison, integer conversion, NaN selection, masked and enabled invalid, division by zero, infinities, finite results; double-precision forms agree with the unrounded oracle |
| PpcFlags.TininessCompared | sim/fpu/ppc_reference.py:206-213 | UF after rounding implies tiny and inexact before; the two part exactly when a tiny value rounds up to the smallest normal |
| PpcFlags.ClassifyMeaning | sim/fpu/ppc_reference.py:10-21 | each FPRF code names exactly the encodings of one kind, sign and normality |
| PpcFlags.ResultClass | sim/fpu/ppc_reference.py:230-240 | the FPRF class of a finite result not exponent-adjusted compares the delivered value with the thresholds of the format it was rounded for |
| RecoveryMachine.RecoveryModel.Step | sim/recovery/model.py:86-162 | the step on the object's fields is the step function, with its events; a refused input changes nothing |
| RecoveryMachine.RecoveryModel.Create | sim/recovery/model.py:55-71 | a model exists exactly for positive dimensions and starts at reset |
| RecoveryMachine.RecoveryModel.ReadRegister | sim/recovery/model.py:76-84 | an operand read is the youngest in-flight writer's status, else the architectural register; out of range is refused |
| RecoveryInvariant.StepKeepsValid | sim/recovery/model.py:86-162 | the inductive invariant: ring order, serials, renames, mapping, and an active tag is outstanding if and only if its entry is issued and not done |
| RecoveryInvariant.ResetValid | sim/recovery/model.py:62-71 | reset establishes the invariant |
| RecoveryChecks.ValidChecks | sim/recovery/model.py:164-178 | the invariant implies every assertion the model makes of itself |
| RecoveryChecks.MappingIsYoungest | sim/recovery/model.py:159 | the rebuilt mapping names the youngest writer of each register and no other |
| RecoveryRuns.RunsAreSafe | sim/recovery/model.py:86-162 | over any run: the invariant, token tracing, conservation of serials, registers equal to the replay of retired writes, retirement in allocation order |
| RecoveryRuns.ResponseFinishesItsIssuer | sim/recovery/model.py:120-128 | for any generation width a response changes at most the entry, by serial, whose issue created the outstanding token; every other entry keeps its status and value |
| RecoveryRuns.IssueTakesFreeTag | sim/recovery/model.py:137-142 | no token is created while one with the same tag is outstanding |
| RecoveryRuns.IssueMarks | sim/recovery/model.py:136-142 | an issue is taken up exactly when its entry is active, unissued and not finished by the same edge |
| RecoveryRuns.AllocationOutcome | sim/recovery/model.py:143-157 | allocation happens exactly with pre-edge room, a free rename and no response owed to the next tag, and what the new entry holds |
| RecoveryRuns.TracedStep | sim/recovery/model.py:112-151 | every live token stays owned by its issuing entry or by a killed one, across cut, reuse and allocation |
| RecoveryRuns.AccountedStep | sim/recovery/model.py:86-162 | each step keeps retired, active and killed serials a partition of all allotted |
| RecoveryRuns.StepSplits | sim/recovery/model.py:92-135 | one step splits the old queue in order into what retires, what stays and what is killed |
| RecoveryPrecision.RedirectCuts | sim/recovery/model.py:96-119 | an accepted redirect keeps exactly the oldest entries, frees killed renames, drops killed local tokens and puts the tail just past the survivors |
| RecoveryPrecision.RedirectDecided | sim/recovery/model.py:96-109 | a redirect is accepted exactly when its pivot is active and no finished head is cut, and where it cuts |
| RecoveryPrecision.ShadowStep | sim/recovery/model.py:86-162 | a step that spares older entries commutes with never having allocated the younger ones |
| RecoveryPrecision.SpeculationLeavesNoTrace | sim/recovery/model.py:76-119 | a run whose speculation is all killed ends with the queue, registers, mapping, tail and operand reads of the run never given those allocations and redirects |
| RecoveryPrecision.DoneHeadIrrevocable | sim/recovery/model.py:104-106 | a finished head survives every input unchanged and commits its recorded value exactly when retirement is ready |
| RecoveryPrecision.DoneHeadWaits | sim/recovery/model.py:96-135 | the same over runs of any length |
| RecoveryPrecision.DrainEmpties | sim/recovery/model.py:120-142 | serving the head empties the queue within three steps an entry and retires exactly its serials in order |
| FetchDrain.FetchDrainModel.Step | sim/recovery/model.py:208-228 | the step on the object's fields is the fetch step function, with its events |
| FetchDrain.FetchDrainModel.Offer | sim/recovery/model.py:201-206 | making an offer captures the current PC only when nothing is outstanding or redirected |
| FetchDrain.PacketsFollowTarget | sim/recovery/model.py:189-228 | after any run at most one request is offered or outstanding, and a packet carries the latest target plus four per packet since, for a request first offered after that redirect |
| FetchDrain.PacketStream | sim/recovery/model.py:218-225 | the packets since the latest redirect are consecutive words from its target |
| FetchDrain.OfferStands | sim/recovery/model.py:201-206 | an unaccepted offer is unchanged by any step |
| FetchDrain.OfferWaits | sim/recovery/model.py:201-217 | an offer never accepted stands through any run and any redirects |
| FetchDrain.PendingStands | sim/recovery/model.py:215-225 | an accepted request stays outstanding, alone, until its response is consumed |
| FetchDrain.TwoStepsInstall | sim/recovery/model.py:208-228 | from any reachable state two cooperative steps install a redirect target |
| BatService.Expected | sim/tools/bat_vectors.py:8-47 | the validating loop returns the interval oracle's payload, and its own single-match assertion never fails |
| BatService.ExpectedStored | sim/tools/bat_vectors.py:50-79 | the masking loop returns the mask oracle's payload |
| BatEquivalence.OraclesAgreeIffClean | sim/tools/bat_vectors.py:8-79 | the two oracles give the same payload if and only if the request is not valid or no enabled entry is malformed and none overlap |
| BatEquivalence.EntryAgrees | sim/tools/bat_vectors.py:62-65 | on a well-formed entry the mask comparison is interval membership and masking in the offset is adding it |
| BatEquivalence.CoverOnce | sim/tools/bat_vectors.py:38-41 | without overlap no two entries cover one address under one privilege |
| BatEquivalence.ReplyOfCover | sim/tools/bat_vectors.py:34-47 | the covering entry's reply: permission by PP and access, match bit and number, translated address, WIMG and PP in their positions |
| BatEquivalence.ReplyFields | sim/tools/bat_vectors.py:46-47 | a reply's fields lie side by side at their documented positions |
| BatService.Model.Accept | sim/tools/bat_service_vectors.py:22-46 | the service answers from the committed banks, then commits the write, counting each request once |
| BatService.RunCleared | sim/tools/bat_service_vectors.py:40-44 | after any requests every stored half is a word with all reserved fields zero |
| BatService.TranslationIsInterval | sim/tools/bat_service_vectors.py:22-28 | after any requests a translation reply carries the interval oracle's payload if and only if its bank is tidy and free of overlap |
| BatService.WriteReadsBack | sim/tools/bat_service_vectors.py:33-45 | a write is read back with reserved fields cleared and changes no other register |
| BatService.RequestsCounted | sim/tools/bat_service_vectors.py:19-45 | the five counters add up to the requests made |
| Bitwise.AndOnes | sim/tools/bat_vectors.py:63-64 | masking with a block of ones is a remainder |
| Bitwise.OrAdds | sim/tools/bat_vectors.py:77-79 | or of disjoint fields is their sum |
| Bitwise.PowerOfTwo | sim/tools/bat_vectors.py:20 | a number sharing no bit with its predecessor is a power of two |
| CompareState.Compare | sim/cosim/compare_state.py:35-60 | the comparator returns the count skipped or the first place the aligned traces part |
| CompareState.Align | sim/cosim/compare_state.py:39-47 | the skipping loop keeps exactly the rows of the greedy deletion |
| CompareState.AcceptsIffExplained | sim/cosim/compare_state.py:35-60 | on full rows it accepts with k if and only if some deletion of k removable branches, each followed by a kept row at another PC, leaves exactly the actual trace; that deletion is unique |
| CompareState.ExplanationIsGreedy | sim/cosim/compare_state.py:41-46 | every explanation of a trace is the deletion the comparator makes |
| CompareState.RemovableFields | sim/cosim/compare_state.py:28-32 | which opcode, BO, extended opcode and link fields make a branch removable |
| StageTiming.CheckTrace | sim/tools/check_stage_timing.py:52-135 | the loop accepts or rejects exactly as the edge-by-edge step does, with the first complaint and the counters |
| StageTiming.DecodesImmediate | sim/tools/check_stage_timing.py:18-26 | register-immediate words decode to their fields, with sign extension and shifting |
| StageTiming.DecodesRegister | sim/tools/check_stage_timing.py:27-28 | only the plain add decodes among register-register words |
| StageTiming.ComputesByForm | sim/tools/check_stage_timing.py:115-117 | values by form in 32 bits |
| StageSoundness.StepSound | sim/tools/check_stage_timing.py:64-129 | every accepted edge keeps the monitor in step with a sequential machine and with the events seen |
| StageSoundness.AcceptedTraceIsSequential | sim/tools/check_stage_timing.py:52-135 | an accepted trace's packets are exactly its dispatched instructions in order with the values of sequential execution, each dispatched, later issued, finished one edge after and retired no earlier |
| StageAcceptance.AcceptsIffLegal | sim/tools/check_stage_timing.py:52-135 | a trace is accepted if and only if every edge keeps the event-order, producer, value, occupancy and stall relations, read from its own events, all of some work drained, and coverage was met if asked for |
| StageAcceptance.WatchesIffLegal | sim/tools/check_stage_timing.py:64-129 | edge by edge, the monitor goes on exactly while every edge is legal |
| StageSoundness.IssueAfterProducers | sim/tools/check_stage_timing.py:98-99 | no instruction issues before the last earlier writer of each source has finished |
| StageSoundness.EventsOnce | sim/tools/check_stage_timing.py:73-102 | each identity issues once and finishes once |
| StageSoundness.InFlightBounded | sim/tools/check_stage_timing.py:106-129 | at every edge at most five instructions are in flight and packets so far are the sequential prefix |
| StageSoundness.WritersAreLast | sim/tools/check_stage_timing.py:111-121 | the tracked producer of a register is its last writer in program order |
| DispatchTrace.RulesMonitor.Take | sim/tools/check_dispatch_trace.py:298-451 | one event on the object's fields is the event function: retirements, dispatches, occupancy, marks |
| DispatchTrace.RulesMonitor.Retire | sim/tools/check_dispatch_trace.py:332-390 | one retirement skips the wrong path, discards what it may and takes the entry |
| DispatchTrace.RulesMonitor.CheckOccupancy | sim/tools/check_dispatch_trace.py:453-467 | the limits on queue entries and renames, with their maxima |
| DispatchSafety.AcceptedRunConserves | sim/tools/check_dispatch_trace.py:298-467 | after any accepted events the entries dispatched are, in order, those gone followed by those in flight; dispatches balance removed, retired, flushed and in flight; no entry a recovery removed retires; at most five unmarked entries, five GPR and four FPR destinations |
| DispatchSafety.DiscardedWereRemoved | sim/tools/check_dispatch_trace.py:340-357 | without flushing, an entry discarded in an event was removed by the recovery of an earlier one |
| DispatchSafety.RetireOneTakes | sim/tools/check_dispatch_trace.py:340-373 | one retirement takes a prefix of the queue, every part of it accounted for |
| DispatchSafety.RetiresExactlyDue | sim/tools/check_dispatch_trace.py:333-361 | without flushing a first-slot retirement is accepted exactly when the oldest unmarked entry is at that PC, was dispatched earlier and any marked entries ahead are explained, and it takes that entry |
| DispatchSafety.RecoverMarks | sim/tools/check_dispatch_trace.py:444-451 | a recovery marks exactly the youngest entries it counts and names nothing that has left |

## Left out

- Estimate operations (fres, frsqrte): their tables are not part of this model, and the source checks them only by bounds.
- Host cross-checking in `sim/fpu/host_check.py`: the C library side is not modelled; only the double-rounding claim it relies on is proved.
- `PpcOperation.Arithmetic`: the statement that enabled exceptions deliver exactly the adjusted rounding is limited, for single-precision operations, to binary32-exact operands, which the source demands of its callers; agreement with the unrounded oracle is stated for double precision with enables and NI clear.
- Redirect targets in the recovery queue: the PC a redirect carries and its alignment check do not affect the queue; targets are modelled in `FetchDrain`.
- Recovery fault payloads beyond the done-at-allocation rule: the source records none.
- Trace and vector file formats, argument parsing, coverage vector generators and random seeds.
- `BatService.Model.Accept`: response fields are added, as in the source, without stating that oversized request fields do not collide.
- `StageTiming.CheckTrace`: malformed rows (missing keys, non-integer edges) are not representable; the schema and manifest checks beside it are not modelled.
- `DispatchTrace.RulesMonitor.Take`: the manual-specific latency, pairing, serialization, writeback, fetch-stop and redirect-floor rules only reject events and never change the queue, so the model accepts every event the monitor accepts; instruction classes are a parameter. After a violation the object's state is unspecified, since the run ends there.
- `CompareState.Compare`: reading trace files and formatting the mismatch text are not modelled; rows too short to hold a PC and an instruction are an error of their own.
- Processor, bus and cache RTL, build, release and report scripts.
