# Encoder rate control and row copies, verified

A Dafny model of two components of the Media SDK and proofs of what they keep.

**The encoder bit-rate controller** (`_studio/enctools`). An encoder reports the size of every coded frame;
the controller commits the frame or sends it back to be coded again at another QP. Behind it stand a
hypothetical reference decoder, one for H.264 and one for H.265, that models the decoder's coded picture
buffer, and a sliding window that caps the bit rate of consecutive frames.

**The row copies of `fast_copy`** (`_studio/shared`). SSE4 forms that move and shift rows of pixels in blocks,
next to the simple loops they replace.

## How the model is organised

| files | content |
|---|---|
| `Cpb.dfy` | an independent reference: a buffer into which bits arrive at the bit rate and from which frames are removed; underflow and overflow at any instant |
| `HrdInput.dfy`, `H264Hrd.dfy`, `HevcHrd.dfy` | the two decoders as functions on their state, the classes that update that state in place, and what one step keeps |
| `Hrd.dfy`, `HalfTick.dfy`, `LateJoin.dfy`, `HrdSimulation.dfy` | whole runs of either decoder, how sharp the guarantee is, what a decoder sees that joins later, and the simulation between the two decoders |
| `SlidingWindow.dfy` | the circular buffer with its adaptive limit, refined to a history list |
| `QpTable.dfy`, `QpMoves.dfy` | the quantiser-step table search and the QP arithmetic on top of it |
| `RateParams.dfy` | rounding of rates and buffer sizes at initialisation |
| `HrdCodecSpec.dfy`, `RecodeProtocol.dfy`, `Controller.dfy`, `BrcEncTool.dfy` | the commit/recode protocol as a function, its termination, whole runs of the controller, and the object that carries it out |
| `Alignment.dfy`, `WordShift.dfy`, `RowCopy.dfy`, `PlaneCopy.dfy` | the row copies, their SSE4 forms over arrays and registers, and rectangles of pitched planes |

Conventions. Floating-point fields are `real`. A cast of a floating-point value to an unsigned integer is the
floor of the value, and the lemmas named `CastsAreDefined` prove the operand non-negative in every state a run
reaches. `pow` is a parameter; only its order facts are used, and only where direction matters. Frame sizes,
QPs, the number of tries, whether they are counted and the controller's tuning heuristics are chosen freely by the
environment. 32-bit wrap-around is modelled where the code relies on it (the removal delay words of the H.265
decoder); elsewhere integers are unbounded. `hide` statements keep definitions a proof does not need away from
the solver, and `{:induction false}` stands wherever Dafny would add an induction hypothesis of its own: every
induction is written out.

## What turned out to be false of the code, or sharper than expected

- H.264 in CBR: reported delays are rounded to nearest, so that the content of the buffer can exceed the configured
  size by less than the bits of half a clock tick. `HalfTick` has a run that does, and decides for every
  configuration whose buffer lasts two frame intervals whether a run of whole bytes exists that does: the exact
  delays lie on a grid that repeats with the frame rate, and it is enough to look at one period of it.
- The first delay H.264 reports in CBR can be a tick longer than a buffer that holds the initial delay, and its
  offset, stored without a sign, is then negative. It is so exactly if the initial delay, rounded, exceeds the buffer; every later delay fits.
- A plain request to recode always raises the QP, so that recoding terminates even if retries are not counted. The one
  check that would lower it needs the complexity of the frame, which no method of the controller ever records.
- A frame below the decoder's minimum is never sent back with a plain request by the hard limits: it always panics.
  `GetNewQP`, when limited but not strict, never moves down to the minimum from one step above it.
- The buffer size is rounded with a scale derived from the bit rate, so a very high rate can round a small
  buffer to nothing.
- The tails of the shifted SSE4 copies count bytes but copy samples, and the head of the left shift does so
  too; the exact widths and alignments for which the fast forms touch exactly the row are stated as equivalences
  (`Alignment`). After an unaligned head the vector loads of the left shift are unaligned as well.
- The comment on `QStep2QpFloor` promises results up to 51 + offset and an entry not above the step; the search
  stops one entry earlier and returns 0 below the first entry. `Qstep2QP` is nevertheless exact.

## Model

| member | source | states |
|---|---|---|
| Controller.CommittedFramesConform | _studio/enctools/src/mfx_enctools_brc.cpp:444-895 | in every run of `UpdateFrame` calls with the decoder on, for any frame sizes, QP limits, recodes counted or not, panics, errors and refused reports of other frames, the committed frames never underflow the coded picture buffer and never overflow it |
| Controller.ConfiguredHevcRunConforms | _studio/enctools/src/mfx_enctools_brc.cpp:26-62 | the same from the configuration on: rates and buffers rounded by `cBRCParams::Init` still give an H.265 run that stays inside the kilobytes asked for |
| Controller.ConfiguredAvcRunConforms | _studio/enctools/src/mfx_enctools_brc.cpp:26-62 | the H.264 run from the configuration on, up to 720 Mbit/s for every kilobyte of buffer and, in CBR, for every initial delay of at most the buffer |
| Controller.PanicCanBeLeft | _studio/enctools/src/mfx_enctools_brc.cpp:552-557 | after any admissible frames a frame padded to the reported minimum, empty in VBR, is never refused for want of buffer, and from its second retry on it is committed if it is within the size limit |
| Controller.FrameIsFinished | _studio/enctools/src/mfx_enctools_brc.cpp:505-892 | the whole life of a frame that ends in panic: plain requests up to its maximum QP, the panic, and the commit of the padded retry |
| Controller.CommittedFramesRespectWindow | _studio/enctools/src/mfx_enctools_brc.cpp:583-586 | in every run every window of consecutive committed frames stays below the window's maximum plus one bit per frame, because no frame above the reported maximum is committed |
| Controller.RunIsAdmissible | _studio/enctools/src/mfx_enctools_brc.cpp:550-559 | every committed frame passed both decoder queries at its turn, and the decoder ends in the state those frames alone produce: recodes leave no trace |
| Controller.InitialStateMeaning | _studio/enctools/src/mfx_enctools_brc.cpp:361-398 | what the controller starts from: nothing in progress, no QP excluded, a new decoder and a new window |
| Controller.RunRespectsWindow | _studio/enctools/src/mfx_enctools_brc.cpp:727-811 | every committed frame is new to the window and within the maximum reported just before, with the same flags passed to both window operations |
| Controller.CommitRespectsWindow | _studio/enctools/src/mfx_enctools_brc.cpp:808-811 | one commit respects the window's maximum and records the frame under a new order |
| Hrd.ConformantRun | _studio/enctools/src/mfx_enctools_brc.cpp:1238-1449 | from the configuration alone, for both codecs, CBR and VBR: frames within the two queries never underflow the buffer, and its content at every instant is at most the configured size (plus half a tick of bits for H.264 in CBR) |
| Hrd.StartConditions | _studio/enctools/src/mfx_enctools_brc.cpp:1356-1364 | the run may start with any initial delay of at most the buffer, or whose first report fits |
| Hrd.RunStaysInside | _studio/enctools/src/mfx_enctools_brc.cpp:1341-1433 | in every run the delay fits from the second frame on, even if the first one reported did not |
| Hrd.RunNeverUnderflows | _studio/enctools/src/mfx_enctools_brc.cpp:1337-1449 | whole runs: if every frame is at most the maximum query, each final arrival is no later than the removal, and the state invariant survives |
| Hrd.RunNeverOverflows | _studio/enctools/src/mfx_enctools_brc.cpp:1341-1433 | whole runs: frames of at least the minimum query keep the buffer content within capacity at every instant |
| Hrd.RunFits | _studio/enctools/src/mfx_enctools_brc.cpp:1341-1433 | whole runs: arrivals are serial at the bit rate and every frame's stay fits the capacity |
| Hrd.ReachableState | _studio/enctools/src/mfx_enctools_brc.cpp:1220-1449 | after every admissible run from initialisation the invariants of the decoder state hold |
| Hrd.QueriesWithinBuffer | _studio/enctools/src/mfx_enctools_brc.cpp:1292-1449 | after every admissible run no admissible frame exceeds the buffer, and delay and offset add up to the buffer length; the offset is not negative if and only if a frame was recorded or the first delay fits |
| Hrd.FirstDelayCanExceedBuffer | _studio/enctools/src/mfx_enctools_brc.cpp:1392-1424 | a conforming H.264 configuration in CBR whose first delay is a tick longer than the buffer and whose offset is -1 |
| Hrd.RunCanContinue | _studio/enctools/src/mfx_enctools_brc.cpp:1341-1449 | after every admissible run some frame size passes both queries, and a minimum leaves the spare bits asked for, once the buffer exceeds a frame interval by a small explicit slack |
| Hrd.ScheduleIsConserving | _studio/enctools/src/mfx_enctools_brc.cpp:1238-1402 | in CBR arrival conserves bits over a run, in VBR it never runs ahead of them; removal times are one frame interval apart whatever the pattern of buffering periods |
| Hrd.FirstRemoval | _studio/enctools/src/mfx_enctools_brc.cpp:1220-1364 | the first frame is removed when the configured initial bits have arrived, for H.264 to within a tick or, in VBR, after the buffer length if that is less |
| Hrd.CastsAreDefined | _studio/enctools/src/mfx_enctools_brc.cpp:1310-1449 | in every sound state the unsigned casts of the queries yield non-negative values |
| Hrd.UnitMeaning | _studio/enctools/src/mfx_enctools_brc.cpp:1266-1287 | one frame arrives after the previous one, for as long as it has bits, and its stay is within capacity |
| Cpb.FullnessWithinCapacity | _studio/enctools/src/mfx_enctools_brc.cpp:1266-1287 | reference buffer: if each frame's own stay fits, the sum of everything arrived and not removed fits at every instant |
| Cpb.ArrivalIsRateLimited | _studio/enctools/src/mfx_enctools_brc.cpp:1279-1282 | reference buffer: what has arrived by a time is bounded by the time since the first arrival |
| H264Hrd.MaxIsExact | _studio/enctools/src/mfx_enctools_brc.cpp:1434-1449 | a frame arrives before its removal if and only if it is at most `GetMaxFrameSizeInBits`, in CBR and VBR, with and without a buffering period |
| H264Hrd.MinKeepsFitting | _studio/enctools/src/mfx_enctools_brc.cpp:1425-1433 | a frame of at least the minimum leaves room for the bits that follow, whatever the state: the 16 extra bits absorb all rounding |
| H264Hrd.FitsMeaning | _studio/enctools/src/mfx_enctools_brc.cpp:1392-1403 | the reported delay is between 1 and the buffer length exactly when the unrounded delay is less than half a tick above it |
| H264Hrd.DelayIsExact | _studio/enctools/src/mfx_enctools_brc.cpp:1392-1402 | the reported delay is the time from the previous arrival to the removal rounded to nearest, at least a tick, and in VBR the buffer length if that is less: bounds from both sides |
| H264Hrd.MinIsExact | _studio/enctools/src/mfx_enctools_brc.cpp:1425-1433 | the minimum query from both sides: nothing unless the buffer would overrun, else 16 bits more than the whole bits beyond it |
| H264Hrd.InitialStateFits | _studio/enctools/src/mfx_enctools_brc.cpp:1356-1364 | the first delay is within the buffer if and only if the initial delay, rounded to nearest, is; in VBR it always is |
| H264Hrd.FirstDelay | _studio/enctools/src/mfx_enctools_brc.cpp:1356-1364 | in CBR the first delay reported is the initial delay rounded to nearest, at least a tick |
| H264Hrd.QueriesWithinBuffer | _studio/enctools/src/mfx_enctools_brc.cpp:1420-1449 | delay plus offset is the buffer length and the maximum frame fits the configured bytes, in VBR exactly |
| H264Hrd.LegalSizeExists | _studio/enctools/src/mfx_enctools_brc.cpp:1425-1449 | minimum is at most maximum, by the spare bits asked for, once the buffer holds a frame interval, half a tick, 16 bits and the spare ones, and a tick more than the interval |
| H264Hrd.ArrivalMeaning | _studio/enctools/src/mfx_enctools_brc.cpp:1379-1385 | C.1.1: the channel never pauses in CBR; in VBR arrival starts at the earliest time from which the bits wait at most the reported delay or the buffer length |
| H264Hrd.UnitIsSerial | _studio/enctools/src/mfx_enctools_brc.cpp:1383-1388 | arrival starts no earlier than the previous frame ended and lasts as long as the frame has bits |
| H264Hrd.StayIsBounded | _studio/enctools/src/mfx_enctools_brc.cpp:1379-1385 | from first bit to removal a frame spans at most the buffer, half a tick more in CBR |
| H264Hrd.CastsAreDefined | _studio/enctools/src/mfx_enctools_brc.cpp:1392-1449 | with the previous frame in time, every unsigned cast of the queries sees a non-negative operand |
| H264Hrd.H264Hrd.Update | _studio/enctools/src/mfx_enctools_brc.cpp:1374-1390 | records a frame in place exactly as the specification step does |
| H264Hrd.H264Hrd.constructor | _studio/enctools/src/mfx_enctools_brc.cpp:1356-1364 | initialises the two time fields, the second through the rounded delay |
| HalfTick.ExactCondition | _studio/enctools/src/mfx_enctools_brc.cpp:1356-1449 | in CBR, for a frame rate num / den and frames of whole bytes, as the controller commits them, or of any bit count: no admissible run ever holds more than the configured size if, and in a buffer of two frame intervals, a byte and a tick only if, the first delay fits and none of the num frames of a period has a grid point from which the smallest frame allowed overshoots |
| HalfTick.OvershootIsBounded | _studio/enctools/src/mfx_enctools_brc.cpp:1425-1433 | the grid points that can overshoot hold at most the buffer and less than a frame interval short of it: finitely many for each frame |
| HalfTick.RunNeverOverflowsExactly | _studio/enctools/src/mfx_enctools_brc.cpp:1425-1433 | if no grid point overshoots and the first delay fits, the content never exceeds the configured size; in VBR no grid point matters |
| HalfTick.OvershootOverflows | _studio/enctools/src/mfx_enctools_brc.cpp:1425-1449 | from an overshooting grid point, a run of frames of whole bytes that passes both queries from the start and in which the buffer holds more than the configured size |
| HalfTick.LongStartOverflows | _studio/enctools/src/mfx_enctools_brc.cpp:1356-1364 | such a run from a first delay that does not fit |
| HalfTick.Reached | _studio/enctools/src/mfx_enctools_brc.cpp:1356-1449 | a grid point of whole bytes that holds a frame interval, is below the buffer length and comes late enough for the buffer to have filled is the end of an admissible run of frames of whole bytes |
| HalfTick.GridRepeats | _studio/enctools/src/mfx_enctools_brc.cpp:1356-1390 | delays, minimum sizes and overshoots repeat with the period of the frame rate, so finitely many grid points decide |
| HalfTick.HalfTickIsNeeded | _studio/enctools/src/mfx_enctools_brc.cpp:1425-1433 | a configuration and three frames that pass both queries, the last of which the buffer holds whole although it is 64 bits bigger than the buffer: exact containment is false for H.264 in CBR |
| HalfTick.SmoothRunNeverOverflows | _studio/enctools/src/mfx_enctools_brc.cpp:1425-1433 | a closed condition on buffer, rate and frame interval under which the content never exceeds the configured size |
| HalfTick.SmoothConfigurations | _studio/enctools/src/mfx_enctools_brc.cpp:1425-1433 | it holds for every buffer length that rounds up, at any rate and interval, and for whole-tick intervals at up to 2.7 Mbit/s |
| LateJoin.JoinedRun | _studio/enctools/src/mfx_enctools_brc.cpp:897-911 | a decoder that joins at any buffering period with the delay reported there: no frame is late by more than the rounding, none if the delay was not rounded down, as in VBR, and the content grows by at most a tick of bits |
| LateJoin.FirstFrameIsOnTime | _studio/enctools/src/mfx_enctools_brc.cpp:897-911 | its first frame is on time if and only if it is no bigger than what arrives in the reported delay, which the H.265 maximum ensures and the H.264 maximum misses by at most half a tick |
| LateJoin.JoinShiftIsSmall | _studio/enctools/src/mfx_enctools_brc.cpp:1292-1402 | the joining decoder is ahead of the model by at most half a tick (H.264) or a tick (H.265), never in VBR, and behind it by at most a tick |
| LateJoin.ReportedDelayIsConforming | _studio/enctools/src/mfx_enctools_brc.cpp:1392-1402 | the bounds of section C.3 of H.264 on the reported delay hold if and only if the previous frame arrived before the removal |
| HevcHrd.NominalTimeDoesNotDrift | _studio/enctools/src/mfx_enctools_brc.cpp:1240-1305 | for consecutive encode orders the most significant bits stay 0 and `Update` and the queries use the same nominal time, initial delay plus order times the tick |
| HevcHrd.DriftStartsAfterSignedRange | _studio/enctools/src/mfx_enctools_brc.cpp:1248-1253 | the exact reach of that: the most significant bits stay 0 if and only if the frame opens a buffering period or the last one is at most 2^31 frames back |
| HevcHrd.StepStaysOnGrid | _studio/enctools/src/mfx_enctools_brc.cpp:1242-1288 | the state consecutive frames leave behind is preserved by every frame, buffering period or not |
| HevcHrd.DelayMeaning | _studio/enctools/src/mfx_enctools_brc.cpp:1292-1318 | the reported delay is the time until removal rounded down, capped by the buffer in VBR, never negative |
| HevcHrd.DelayIsExact | _studio/enctools/src/mfx_enctools_brc.cpp:1292-1315 | the reported delay is the whole ticks left until removal, and in VBR after the first frame the buffer length if that is less: bounds from both sides |
| HevcHrd.MaxIsExact | _studio/enctools/src/mfx_enctools_brc.cpp:1337-1340 | a frame is within the maximum query if and only if its bits arrive within the reported delay |
| HevcHrd.MinIsExact | _studio/enctools/src/mfx_enctools_brc.cpp:1341-1347 | the minimum query from both sides |
| HevcHrd.MaxKeepsInTime | _studio/enctools/src/mfx_enctools_brc.cpp:1238-1340 | a frame within the maximum has arrived by its nominal removal, in CBR and VBR |
| HevcHrd.MinKeepsFitting | _studio/enctools/src/mfx_enctools_brc.cpp:1341-1347 | a frame of at least the minimum keeps the next delay within the buffer: 16 ticks and 0.99999 absorb both roundings |
| HevcHrd.QueriesWithinBuffer | _studio/enctools/src/mfx_enctools_brc.cpp:1292-1340 | reported delay within the buffer, delay plus offset constant, maximum frame within the configured bytes |
| HevcHrd.LegalSizeExists | _studio/enctools/src/mfx_enctools_brc.cpp:1337-1347 | minimum is at most maximum, by the spare bits asked for, once the buffer holds a frame interval, 16 ticks, a bit and the spare ones |
| HevcHrd.CastsAreDefined | _studio/enctools/src/mfx_enctools_brc.cpp:1310-1346 | every unsigned cast in `Update` and the queries sees a non-negative operand |
| HevcHrd.ArrivalMeaning | _studio/enctools/src/mfx_enctools_brc.cpp:1266-1278 | C.2.2: the channel never pauses in CBR; in VBR arrival starts at the earliest time from which the bits wait at most the reported delay or the buffer length |
| HevcHrd.StayIsBounded | _studio/enctools/src/mfx_enctools_brc.cpp:1266-1282 | from first bit to removal a frame spans at most the buffer or the initial delay |
| HevcHrd.CapacityOfBuffer | _studio/enctools/src/mfx_enctools_brc.cpp:1500-1508 | with the initial fullness inside the buffer the schedule is held to exactly the configured bytes |
| HevcHrd.HevcHrd.Update | _studio/enctools/src/mfx_enctools_brc.cpp:1238-1290 | records a frame in place exactly as the specification step does, including the 32-bit words of the removal delay |
| HevcHrd.HevcHrd.constructor | _studio/enctools/src/mfx_enctools_brc.cpp:1220-1228 | initialises the five fields of the decoder |
| HrdInput.InitMeaning | _studio/enctools/src/mfx_enctools_brc.cpp:1500-1508 | the buffer length is the longest whole number of ticks whose bits fit the buffer; the initial delay is the time the initial bytes take to arrive |
| HrdSimulation.RunsAgree | _studio/enctools/src/mfx_enctools_brc.cpp:1238-1402 | in CBR with an integral initial delay the two decoders stay related over every run within the H.265 maximum: delays differ by at most a tick and the H.264 maximum is never smaller |
| HrdSimulation.StepKeepsRelation | _studio/enctools/src/mfx_enctools_brc.cpp:1279-1388 | one frame of any size keeps the arrival times equal up to the unit and the nominal times equal |
| HrdSimulation.QueriesAgree | _studio/enctools/src/mfx_enctools_brc.cpp:1292-1449 | in related states the reported delays differ by at most one tick (floor against round) |
| SlidingWindow.SlidingWindowCap | _studio/enctools/include/mfx_enctools_brc_defs.h:116-183 | from the configuration alone: in every run that respects the reported maximum each window sums to at most maxBitPerFrame * W + W - 1 bits |
| SlidingWindow.RunIsCapped | _studio/enctools/include/mfx_enctools_brc_defs.h:137-183 | whole runs from any capped window, for every window of the history |
| SlidingWindow.RecordKeepsCap | _studio/enctools/include/mfx_enctools_brc_defs.h:167-183 | one frame of at most the maximum keeps every suffix of the window within its cap |
| SlidingWindow.RecordKeepsLimitInRange | _studio/enctools/include/mfx_enctools_brc_defs.h:149-164 | the adaptive limit stays between its floor and the maximum, so the decrement never wraps |
| SlidingWindow.MaxFrameSizeIsPositive | _studio/enctools/include/mfx_enctools_brc_defs.h:167-183 | no subtraction in the maximum wraps and at least one bit is always allowed |
| SlidingWindow.MaxFrameSizeMeaning | _studio/enctools/include/mfx_enctools_brc_defs.h:178-180 | a frame of the maximum size fills the window to its hard maximum at most, except for the fallback of one bit |
| SlidingWindow.PanicMaxIsExact | _studio/enctools/include/mfx_enctools_brc_defs.h:174-180 | in panic the maximum is exactly what the window still holds |
| SlidingWindow.MaxIsExact | _studio/enctools/include/mfx_enctools_brc_defs.h:167-183 | outside panic: below the limit the first try fills the window to it, a scene start half way to the hard maximum, one retry adds half a step and two a step, up to the hard maximum; beyond it what is left is allowed, at least a bit |
| SlidingWindow.RelaxingNeverShrinks | _studio/enctools/include/mfx_enctools_brc_defs.h:171-180 | panic, a scene start and retries never lower the maximum |
| SlidingWindow.LimitAdaptation | _studio/enctools/include/mfx_enctools_brc_defs.h:149-164 | when the limit falls, rises or stays, and its value: half way to the hard maximum after a panic or at a scene start, half a step above what the window holds after a retry, a step lower exactly while the window allows it otherwise |
| SlidingWindow.RepeatedOrder | _studio/enctools/include/mfx_enctools_brc_defs.h:139-147 | a repeated order corrects the newest entry and leaves the limit alone |
| SlidingWindow.StepMeaning | _studio/enctools/include/mfx_enctools_brc_defs.h:223-230 | the step is half, with look-ahead a quarter, of what a frame may take beyond the average; the lowest limit is a step per frame below the maximum |
| SlidingWindow.CreateMeaning | _studio/enctools/include/mfx_enctools_brc_defs.h:116-132 | what a new window holds and allows |
| SlidingWindow.LastFrameBitsIsSum | _studio/enctools/include/mfx_enctools_brc_defs.h:208-221 | the bits of the last n frames are the sum of the last n sizes of the history |
| SlidingWindow.SumLastRaised | _studio/enctools/include/mfx_enctools_brc_defs.h:208-221 | with the skip check every frame counts as at least the given least size |
| SlidingWindow.AvgBitrate.UpdateSlidingWindow | _studio/enctools/include/mfx_enctools_brc_defs.h:137-165 | the circular buffer refines the history: a new frame is appended, a repeated order overwrites the newest entry, the limit adapts |
| SlidingWindow.AvgBitrate.Store | _studio/enctools/include/mfx_enctools_brc_defs.h:139-147 | after the write every slot still holds its entry of the history |
| SlidingWindow.AvgBitrate.GetLastFrameBits | _studio/enctools/include/mfx_enctools_brc_defs.h:208-221 | the backwards loop over the circular buffer computes the history sum |
| SlidingWindow.AvgBitrate.GetMaxFrameSize | _studio/enctools/include/mfx_enctools_brc_defs.h:167-183 | the query computes the maximum the specification defines, a natural number |
| SlidingWindow.AvgBitrate.constructor | _studio/enctools/include/mfx_enctools_brc_defs.h:116-132 | the padded window and its initial limit |
| RecodeProtocol.RecodingAlwaysTerminates | _studio/enctools/src/mfx_enctools_brc.cpp:505-759 | a frame of any type, re-encoded at the QPs asked for, is sent back plainly at most as often as its first QP is below its maximum, whether its retries are counted or not |
| RecodeProtocol.RecodingTerminates | _studio/enctools/src/mfx_enctools_brc.cpp:595-759 | with counted retries and whatever is known of a frame: first encoded inside its limits and re-encoded at the QP asked for, it is sent back plainly at most max - min times before a commit, a panic or an error |
| RecodeProtocol.SessionRaisesQP | _studio/enctools/src/mfx_enctools_brc.cpp:505-759 | the same from any try on |
| RecodeProtocol.PlainRequestRaisesQP | _studio/enctools/src/mfx_enctools_brc.cpp:635-759 | a plain request always raises the QP, within the limits, whether or not the limits were just reset: for frames of unknown complexity, and even for others once the QP was handed out for a frame in progress |
| RecodeProtocol.RequestNarrows | _studio/enctools/include/mfx_enctools_brc_defs.h:620-663 | every plain request strictly narrows the QP interval, keeps the next QP inside it and leaves the context ready for the retry |
| RecodeProtocol.DirectionCheckNeverFails | _studio/enctools/include/mfx_enctools_brc_defs.h:624-644 | the direction checks of `SetRecodeParams`, whose result is ignored, never fail for any state, report or heuristics |
| RecodeProtocol.EarlyRequestIsSound | _studio/enctools/src/mfx_enctools_brc.cpp:595-726 | each of the four early recode branches passes the direction check and, if plain, narrows the interval |
| RecodeProtocol.ForcedRequestIsSound | _studio/enctools/src/mfx_enctools_brc.cpp:727-759 | the same for the recode that the hard limits force |
| RecodeProtocol.CommitIsChecked | _studio/enctools/src/mfx_enctools_brc.cpp:727-892 | a committed frame passed the decoder check and the frame size limit, and exactly that frame is recorded in decoder and window |
| RecodeProtocol.OnlyCommitsRecord | _studio/enctools/src/mfx_enctools_brc.cpp:499-759 | any other answer leaves decoder and window as they were; of the rest only the QPs excluded and, for a request, the context change |
| RecodeProtocol.AnswerMeaning | _studio/enctools/include/mfx_enctools_brc_defs.h:620-663 | the status reported keeps the direction of the miss, the next QP moves that way, a plain answer excludes the QP just used, and exactly the other answers put the frame into panic |
| RecodeProtocol.WhatStaysAllowed | _studio/enctools/include/mfx_enctools_brc_defs.h:620-663 | exactly which QPs a request leaves: after a plain answer those allowed before that lie beyond the QP used, after any other answer all of them |
| RecodeProtocol.OutcomeMeaning | _studio/enctools/src/mfx_enctools_brc.cpp:499-892 | a call that is not refused is answered by the early checks, if one objects, else by the hard limits, if one is violated, and commits if and only if none is |
| RecodeProtocol.EarlyRequestMeaning | _studio/enctools/src/mfx_enctools_brc.cpp:595-726 | when each of the early checks sends a frame back and with which QP: exactly if the search from the miss asks for another QP or the decoder demands one, half way to the limit at most |
| RecodeProtocol.ForcedRequestMeaning | _studio/enctools/src/mfx_enctools_brc.cpp:727-757 | when the hard limits send a frame back and with which QP: the searched one, at least a step and at most half way, two steps at most downwards |
| RecodeProtocol.EarlyLimits | _studio/enctools/src/mfx_enctools_brc.cpp:607-631 | the early checks allow the QPs of the context that the decoder does not exclude |
| RecodeProtocol.LimitIsExact | _studio/enctools/src/mfx_enctools_brc.cpp:491-590 | a frame is within the size limit if and only if it is within the sliding window and the external limit, where there are any, and below 2^28 bits |
| RecodeProtocol.BeginMeaning | _studio/enctools/src/mfx_enctools_brc.cpp:505-547 | a first try starts from the limits of its frame type with no QP excluded, a retry from what the last try left |
| RecodeProtocol.RequestHasReason | _studio/enctools/src/mfx_enctools_brc.cpp:595-736 | a frame is sent back as too big or too small only if one of the sizes compared justifies it |
| RecodeProtocol.ForcedRequestIsPlain | _studio/enctools/src/mfx_enctools_brc.cpp:727-759 | a hard limit gives a plain retry if and only if the frame is too big and its QP can still rise; a frame below the minimum always panics, moving at most two QP steps |
| RecodeProtocol.HardTargetIsInside | _studio/enctools/src/mfx_enctools_brc.cpp:738-743 | the size steered to leaves a quarter of the maximum free, or is at most a quarter above the minimum, and lies on the other side of the size reported |
| RecodeProtocol.EarlyRequestAgreesWithDecoder | _studio/enctools/include/mfx_enctools_brc_defs.h:817-830 | the bounds a failed decoder check leaves behind exclude the QP just used, so an early retry never asks for the opposite direction |
| RecodeProtocol.ErrorMeaning | _studio/enctools/src/mfx_enctools_brc.cpp:499-555 | both error answers, if and only if: another frame while one must be recoded, and a frame in panic still outside the decoder's bounds |
| RecodeProtocol.PaddingReachesMinimum | _studio/enctools/src/mfx_enctools_brc.cpp:557-557 | a frame padded to the reported minimum passes the lower bound with less than a byte to spare |
| HrdCodecSpec.CheckMeaning | _studio/enctools/include/mfx_enctools_brc_defs.h:817-830 | the check succeeds exactly for frames within both decoder bounds, and calls a frame too big exactly if it is above the maximum |
| HrdCodecSpec.CheckedQuants | _studio/enctools/include/mfx_enctools_brc_defs.h:817-830 | which QPs a failed check excludes, exactly |
| HrdCodecSpec.HrdCodecSpec.CheckHrdAndUpdateQP | _studio/enctools/include/mfx_enctools_brc_defs.h:817-830 | the verdict of the check, and the QP it leaves behind as a bound for the next try |
| HrdCodecSpec.HrdCodecSpec.Update | _studio/enctools/include/mfx_enctools_brc_defs.h:365-388 | dispatches the update to the decoder of the codec and nothing else |
| BrcEncTool.BrcEncTool.UpdateFrame | _studio/enctools/src/mfx_enctools_brc.cpp:444-895 | the imperative update changes the whole controller state and answers as the protocol's specification says, including both error paths |
| BrcEncTool.BrcEncTool.ReportMeaning | _studio/enctools/src/mfx_enctools_brc.cpp:456-463 | coded bytes become bits, a buffering period is every IDR frame and no other, the intra rules apply to IDR and I frames; retries, order, QP and complexity are those of the record, and B frames are told from P frames |
| BrcEncTool.FrameTypeMeaning | _studio/enctools/include/mfx_enctools_brc_defs.h:672-684 | the type of a frame from its type bits, its layer and the GOP |
| BrcEncTool.BrcEncTool.ProcessFrame | _studio/enctools/src/mfx_enctools_brc.cpp:952-1133 | a frame in progress gets the QP the controller asked for, the first frame the QP of the initialisation or the complexity estimate; for intra frames the QP handed out and the least one possible are recorded |
| BrcEncTool.BrcEncTool.NoReportHasComplexity | _studio/enctools/include/mfx_enctools_brc.h:48-64 | while no record holds a complexity, as none does after the constructor and none gains one by any method, the check for intra frames that are too small is never entered |
| BrcEncTool.BrcEncTool.ReportBufferHints | _studio/enctools/src/mfx_enctools_brc.cpp:1177-1194 | a hint is stored in the known record or in a new one, and nothing else changes |
| BrcEncTool.BrcEncTool.ReportGopHints | _studio/enctools/src/mfx_enctools_brc.cpp:1197-1215 | the same for the hints on QP delta and modulation |
| BrcEncTool.BrcEncTool.TryEarlyRecode | _studio/enctools/src/mfx_enctools_brc.cpp:595-726 | the four early checks, in order, with the limits tightened by the decoder's bounds; a frame that is too small only if its complexity is known and the least QP was set |
| BrcEncTool.BrcEncTool.TryForcedRecode | _studio/enctools/src/mfx_enctools_brc.cpp:727-757 | the hard limits, frame size limit first, small frames turned into a panic |
| BrcEncTool.BrcEncTool.SetRecodeParams | _studio/enctools/include/mfx_enctools_brc_defs.h:620-663 | the context after a request and the status reported |
| BrcEncTool.BrcEncTool.CommitFrame | _studio/enctools/src/mfx_enctools_brc.cpp:808-891 | window and decoder each record the frame once |
| BrcEncTool.BrcEncTool.GetFrameSizeLimit | _studio/enctools/src/mfx_enctools_brc.cpp:491-590 | the tightest of ceiling, sliding window and external limit |
| BrcEncTool.BrcEncTool.ReportEncResult | _studio/enctools/src/mfx_enctools_brc.cpp:1140-1151 | the encoder's result is stored for known frames only |
| BrcEncTool.BrcEncTool.SetFrameStruct | _studio/enctools/src/mfx_enctools_brc.cpp:1154-1175 | a new frame record, or the known one with its retry count raised |
| BrcEncTool.BrcEncTool.Init | _studio/enctools/src/mfx_enctools_brc.cpp:361-398 | initialises once, creating decoder and window as configured and the QP of the first frame |
| BrcEncTool.FirstQuantInLimits | _studio/enctools/src/mfx_enctools_brc.cpp:383-386 | that QP is a legal intra QP if and only if a raw frame takes at least the average size or QP 1 is legal |
| BrcEncTool.FirstQuantMeaning | _studio/enctools/src/mfx_enctools_brc.cpp:383-386 | from a raw frame of at least the average size it is the legal QP nearest to the one whose step, squared, exceeds that of QP 1 by the ratio of the sizes |
| QpTable.SearchFindsTheCell | _studio/enctools/include/mfx_enctools_brc_defs.h:486-505 | `Qstep2QP` returns an index exactly when the step lies between the midpoints to its neighbours, although the floor search skips the last usable entry |
| QpTable.SearchFindsNearest | _studio/enctools/include/mfx_enctools_brc_defs.h:498-505 | no usable entry is nearer, and no index leaves the 88-entry table for offsets up to 36 |
| QpTable.SearchIsMonotone | _studio/enctools/include/mfx_enctools_brc_defs.h:498-505 | a larger step never gives a smaller QP |
| QpTable.SearchInvertsTable | _studio/enctools/include/mfx_enctools_brc_defs.h:498-510 | `Qstep2QP` is a left inverse of `QP2Qstep` |
| QpTable.UpperBoundMeaning | _studio/enctools/include/mfx_enctools_brc_defs.h:486-490 | the searched entry is greater than the step and its predecessor is not |
| QpTable.SixEntriesDouble | _studio/enctools/include/mfx_enctools_brc_defs.h:475-483 | every sixth entry doubles the step, to within the rounding of the table |
| QpTable.EntryFourIsOne | _studio/enctools/include/mfx_enctools_brc_defs.h:475-483 | entry 4 is the step one, and the entries around it grow evenly |
| QpTable.TableIncreases | _studio/enctools/include/mfx_enctools_brc_defs.h:475-483 | the table is strictly increasing |
| QpMoves.NewQPIsDirected | _studio/enctools/include/mfx_enctools_brc_defs.h:512-544 | `GetNewQP` stays in limits, never moves the wrong way, moves at least one when strict, and at most half the remaining range when limited |
| QpMoves.NewQPStaysInLimits | _studio/enctools/include/mfx_enctools_brc_defs.h:512-544 | the result is within limits if and only if the QP does not start beyond the limit it would have to cross |
| QpMoves.NewQPIsStrict | _studio/enctools/include/mfx_enctools_brc_defs.h:529-542 | under strict the result never lies on the wrong side, even between crossed limits |
| QpMoves.NewQPIsNearestPermitted | _studio/enctools/include/mfx_enctools_brc_defs.h:512-544 | of all QPs within limits, direction, strictness and half-range, `GetNewQP` takes the one nearest to what the table search asks for; moving down without strict never takes the last step |
| QpMoves.StepScales | _studio/enctools/include/mfx_enctools_brc_defs.h:516-517 | the step scales with the miss at exponent one, its square does at one half, and exponents compose |
| QpMoves.NewQPTotalIsMonotoneAndSlewLimited | _studio/enctools/include/mfx_enctools_brc_defs.h:575-617 | `GetNewQPTotal` is monotone in overshoot, stays in limits, and moves by at most 5, 2 or 3 |
| QpMoves.SlewMovesTowards | _studio/enctools/include/mfx_enctools_brc_defs.h:587-615 | a slew-limited move goes towards the wanted QP and never past it; short ways are gone at once, long ones at full slew |
| QpMoves.QPSettles | _studio/enctools/include/mfx_enctools_brc_defs.h:575-617 | under a steady buffer level the QP reaches the wanted one in at most as many frames as it was steps away, and stays there |
| QpMoves.WantedQPIsMonotone | _studio/enctools/include/mfx_enctools_brc_defs.h:579-584 | more overshoot never lowers the QP wanted before slew limiting |
| QpMoves.WantedQPLaw | _studio/enctools/include/mfx_enctools_brc_defs.h:579-584 | the wanted QP for every overshoot in [-1, 1] and every average in the limits: the reciprocals are mixed, and the QP is rounded to nearest and limited |
| QpMoves.WantedQPClamps | _studio/enctools/include/mfx_enctools_brc_defs.h:579-580 | an overshoot beyond one counts as one, an average beyond the limits as the limit |
| QpMoves.NewQPTotalIsSlew | _studio/enctools/include/mfx_enctools_brc_defs.h:575-617 | from a QP inside the limits the new QP is the slew-limited move to the wanted one; others are brought back |
| QpMoves.OnTargetKeepsAverage | _studio/enctools/include/mfx_enctools_brc_defs.h:579-584 | with the buffer on target the wanted QP is the average QP rounded |
| QpMoves.FullOvershootWantsMaximum | _studio/enctools/include/mfx_enctools_brc_defs.h:579-584 | at full overshoot the wanted QP is the largest allowed |
| QpMoves.SequenceScaleRoundTrip | _studio/enctools/src/mfx_enctools_brc.cpp:313-358 | `GetPicQP` after `GetSeqQP` returns the same QP exactly under stated limit conditions |
| QpMoves.OffsetAPQGrows | _studio/enctools/src/mfx_enctools_brc.cpp:201-246 | a deeper layer, a non-reference frame or a stronger modulation never lowers the pyramid offset; layers below three add one or two steps each |
| QpMoves.OffsetAPQValues | _studio/enctools/src/mfx_enctools_brc.cpp:201-246 | the pyramid offsets of every layer and modulation |
| QpMoves.PicQPOfSequence | _studio/enctools/src/mfx_enctools_brc.cpp:331-358 | where nothing clamps, I frames are coded one below the QP of the sequence, IDR frames lower by the IDR offset as well, P frames above it by their layer, B frames by one and their pyramid offset |
| QpMoves.SetThenGet | _studio/enctools/include/mfx_enctools_brc_defs.h:835-872 | base QPs set from one frame give a frame of any role the same sequence QP plus its own offset |
| QpMoves.BaseQPsMeaning | _studio/enctools/include/mfx_enctools_brc_defs.h:835-872 | base QPs set from a frame are those of its sequence QP, and the QP of a frame is its base QP and layer offset, each brought inside its limits |
| RateParams.HevcBitRateScale | _studio/enctools/include/mfx_enctools_brc_defs.h:445-451 | the loop finds the largest usable scale, capped at 16 |
| RateParams.HevcCbpSizeScale | _studio/enctools/include/mfx_enctools_brc_defs.h:453-459 | the loop finds the largest usable scale from 2 on, capped at 16 |
| RateParams.Init | _studio/enctools/src/mfx_enctools_brc.cpp:26-62 | rejects unknown rate control and zero frame rates; the rate is never raised, loses less than 64 (AVC: 1024) bit/s and is a multiple of 2^(6 + scale); buffer bits are a multiple of 2^(4 + scale) |
| RateParams.AskedBpsMeaning | _studio/enctools/src/mfx_enctools_brc.cpp:35-39 | the rate asked for is the target in CBR, the larger of target and maximum in VBR |
| RateParams.RoundDownMeaning | _studio/enctools/src/mfx_enctools_brc.cpp:47-53 | shifting right and left gives the largest representable value not above the one asked for |
| RateParams.HighRateCanEmptyTheBuffer | _studio/enctools/src/mfx_enctools_brc.cpp:43-53 | the buffer scale is taken from the rate: at 131.072 Mbit/s exactly the buffers of up to 131 kB are rounded to nothing |
| RateParams.BufferIsEmptied | _studio/enctools/src/mfx_enctools_brc.cpp:43-53 | for every configuration: the buffer is rounded to nothing if and only if it is below one unit of its scale |
| RateParams.RoundedSizesKeepOrder | _studio/enctools/src/mfx_enctools_brc.cpp:52-53 | rounding keeps the initial delay within the buffer |
| RateParams.RoundingIsDetermined | _studio/enctools/src/mfx_enctools_brc.cpp:38-53 | what initialisation promises determines every scale, rate and size |
| RateParams.AvcSizesAreExact | _studio/enctools/src/mfx_enctools_brc.cpp:52-53 | for H.264 the sizes in kilobytes are not changed by the rounding |
| RowCopy.CopyVideoToSysSse4 | _studio/shared/src/fast_copy_sse4_impl.cpp:28-78 | for every source alignment head, blocks and tail write exactly the row (the head if the row is shorter) and nothing else; all vector loads are aligned |
| Alignment.CopiesExactlyTheRow | _studio/shared/src/fast_copy_sse4_impl.cpp:32-38 | the fast copy writes exactly the row if and only if the row is at least as long as the unaligned head |
| RowCopy.CopyVideoToSysC | _studio/shared/src/fast_copy_c_impl.cpp:24-27 | the simple copy writes exactly the row |
| RowCopy.CopyVideoToSysShiftSse4 | _studio/shared/src/fast_copy_sse4_impl.cpp:80-135 | for 2-aligned sources the fast right shift writes the simple result over as many samples as it touches; all vector loads are aligned |
| Alignment.ShiftsExactlyTheRow | _studio/shared/src/fast_copy_sse4_impl.cpp:117-133 | it touches exactly the row if and only if the bytes after the head are whole registers: the tail counts bytes but copies samples |
| Alignment.ShiftOverrun | _studio/shared/src/fast_copy_sse4_impl.cpp:117-133 | otherwise it touches half a sample too many for every byte of its tail |
| RowCopy.CopyVideoToSysShiftC | _studio/shared/src/fast_copy_c_impl.cpp:29-33 | the simple right shift, sample by sample |
| RowCopy.CopySysToVideoShiftSse4 | _studio/shared/src/fast_copy_sse4_impl.cpp:137-192 | for every row whose vector loads are aligned or absent, the fast left shift writes single shifts in head and tail and paired shifts in its vector part, over as many samples as it touches |
| RowCopy.FastLeftIsSimpleLeft | _studio/shared/src/fast_copy_sse4_impl.cpp:161-164 | that is the simple result if and only if no even-index sample of the vector part carries bits into its neighbour |
| RowCopy.CopySysToVideoShiftC | _studio/shared/src/fast_copy_c_impl.cpp:35-39 | the simple left shift, sample by sample |
| Alignment.LeftShiftsExactlyTheRow | _studio/shared/src/fast_copy_sse4_impl.cpp:141-190 | the fast left shift touches exactly the row if and only if the row is 16-byte aligned and a multiple of eight samples: its head and its tail count bytes but copy samples |
| Alignment.LeftOverrun | _studio/shared/src/fast_copy_sse4_impl.cpp:141-190 | otherwise it touches half a sample too many for every byte of its head and tail |
| Alignment.LeftLoadsAreAligned | _studio/shared/src/fast_copy_sse4_impl.cpp:141-156 | after that head the vector loads are aligned if and only if the row was |
| WordShift.LaneHighIsShift | _studio/shared/src/fast_copy_sse4_impl.cpp:161-164 | the upper word of a 32-bit lane is shifted as alone exactly if the lower word carries nothing out |
| WordShift.LaneHighValue | _studio/shared/src/fast_copy_sse4_impl.cpp:161-164 | in general the bits that leave the lower word enter the upper one |
| WordShift.ShrHalves | _studio/shared/src/fast_copy_sse4_impl.cpp:133-133 | a right shift halves once for each position |
| WordShift.ShlDoubles | _studio/shared/src/fast_copy_sse4_impl.cpp:190-190 | a left shift doubles once for each position and forgets what leaves the word |
| WordShift.LaneLowIsShift | _studio/shared/src/fast_copy_sse4_impl.cpp:161-164 | the lower word of a 32-bit lane is always shifted as alone |
| RowCopy.CopyRegisters | _studio/shared/src/fast_copy_sse4_impl.cpp:97-127 | blocks of four registers and then single ones apply the operation to every register of the vector part, in order |
| PlaneCopy.MfxCopyRect | _studio/shared/include/fast_copy.h:47-71 | for elements of any size: rejects null planes and negative sizes; otherwise the destination is the source rectangle copied row by row with the row copy the flag selects |
| PlaneCopy.VideoToSysMeaning | _studio/shared/include/fast_copy.h:32-37 | the direction is the second bit of the flag |
| PlaneCopy.CopyAndShift | _studio/shared/include/fast_copy.h:96-123 | the rectangle shifted right towards system memory and left towards video memory, row by row with the row shifts the processor has, or a null error |
| PlaneCopy.FastShiftRectIsSimple | _studio/shared/include/fast_copy.h:104-120 | the fast shift of a rectangle is the simple one if each of its rows meets the condition of its row shift |
| PlaneCopy.SimpleShiftRect | _studio/shared/include/fast_copy.h:104-120 | the simple shifts copy a rectangle sample by sample |
| PlaneCopy.RectPixel | _studio/shared/include/fast_copy.h:53-68 | with rows apart each sample of each row arrives at its place |
| PlaneCopy.OutsideRect | _studio/shared/include/fast_copy.h:53-68 | a position in no row keeps its value |
| PlaneCopy.LastRowWins | _studio/shared/include/fast_copy.h:53-68 | where rows overlap, the last one written wins |
| PlaneCopy.FastRectIsSimple | _studio/shared/include/fast_copy.h:53-68 | with every row at least as long as its head, the fast rectangle copy equals the simple one |
| PlaneCopy.PlaneRoundTrip | _studio/shared/include/fast_copy.h:96-123 | a plane shifted left on the way to video memory and right on the way back shows the original sample if and only if it is below 2^(16 - shift) |

## Left out

- RecodeProtocol.UpdateFrame: the sizes a frame is compared with, the scene-change statistics, the bit-rate averages and the QP suggested after a commit are inputs, because they are empirical tuning built on `pow`, `log` and `sqrt` (BRC_DQF, `UpdateMinQForMaxFrameSize`, `ResetQuantAb`).
- RecodeProtocol.RecodingAlwaysTerminates: counts plain requests only; after a panic the encoder must skip or pad, and `Controller.FrameIsFinished` follows the encoder that pads.
- BrcEncTool.BrcEncTool.ProcessFrame: the complexity estimate, the QP of a new frame and its least QP come from heuristics and are inputs.
- BrcEncTool.BrcEncTool.Init: takes rates and windows already computed; `RateParams.Init` models the rounding, the remaining tuning parameters are left out.
- HalfTick.ExactCondition: the only-if direction is for buffers of two frame intervals, a byte and a tick; in a shorter one not every grid point need be reachable.
- Hrd.ConformantRun: for streams of up to 2^31 frames that open with a buffering period; `DriftStartsAfterSignedRange` shows what happens beyond.
- RateParams.Init: does not model the 32-bit wrap of kilobits times 1000 nor the two byte sizes wrapping.
- SlidingWindow.AvgBitrate.UpdateSlidingWindow: sizes and sums are unbounded integers; a window of zero frames is excluded because the only creator checks for it.
- RowCopy.CopySysToVideoShiftSse4: rows whose vector loads would be unaligned are excluded, because those loads fault.
- RowCopy.CopyVideoToSysShiftSse4: source and destination are different arrays and shifts are 0 to 15; odd addresses are not modelled.
- PlaneCopy.CopyAndShift: the processor dispatch is an input; pitches are even and counted in samples, sizes are not negative.
- PlaneCopy.MfxCopyRect: streaming loads are ordinary loads, and the processor dispatch and the mutex around `FastCopy::Copy` are not modelled.
- H264_HRD::Reset and HEVC_HRD::Reset are never called by the controller and are left out, as are `BRC_EncTool::Reset`, `GetBufferDeviation` and `GetBufferDeviationFactor`, which only feed the heuristics.
- Adaptive-GOP analysis (`AEnc_EncTool`), parameter marshalling, allocators and sessions call code outside these components.
