# A verified model of the low-latency audio receiver

This project models the audio path of a Windows server that takes PCM or Opus packets
over UDP or QUIC, puts them in order, passes the decoded samples through a lock-free ring
buffer and renders them, speeding playback up when too much is buffered. Four machines are
modelled, each in the form of its source, and their whole-run guarantees are proved for
every input.

- **Receiving** (`main.cpp`, `protocol.h`). `Reorder.Receiver` holds the expected number and
  the 256-slot sorting area and processes one datagram per call; `ReorderHistory` gives every
  byte sequence number the unbounded number it stands for and records the whole history, and
  the byte-numbered receiver is shown to be that machine. `ReorderRuns` has the theorems.
  `DirectModes` has the QUIC and discard modes, `Heartbeat` and `ReceiverHeartbeats` the
  delay reports. What the decoder makes of a payload and what the buffer-low flag reads are
  inputs of each step.
- **The ring buffer** (`ring_buffer.h`). `RingBuffer` is the class over its array, mask and
  wrapping 64-bit counters; `Bits` has the capacity computation and the mask. `SpscRing`
  takes `write` and `read` apart into loads, single-sample copies and publishing stores that
  two threads interleave freely.
- **Rendering** (`wasapi_renderer.cpp`). `Renderer` is the class whose methods overwrite the
  sample buffers; `Gain`, `Splice` and `CatchUp` say what fades, splices and speeds are. What
  the producer writes while a callback is under way is an input of the callback.
- **The QUIC bridge** (`quic-bridge/src/lib.rs`). `SessionStats` is the accounting object,
  `SessionRuns` its guarantees, `QuicFrames` and `BigEndian` the wire formats. The jitter
  estimate is that of section 6.4.1 of RFC 3550.

Some long inner loops are methods of their own (`FillFrame`, `SpliceScore`, `PutWord`, ...)
so that each is specified by itself.

What the proofs show beyond the code doing what it says:

- The forced skip gives up exactly one packet per arrival, although the comment at
  `main.cpp:587` says the expected number is set to the received one. The code is followed.
- Perfect reconstruction holds for arrivals from 242 behind to 3 ahead of the first missing
  packet. `ReorderRuns.FaithfulStep` says exactly which arrivals keep the record of accepted
  packets equal to what arrived, and `ReorderRuns.PerfectOutputIff` exactly which runs leave
  the output itself perfect: those whose every arrival was outside the window, or at most 3
  ahead and named a stored packet or its own. One harmful arrival is never repaired.
- A latency that is too much is worked off (`Renderer.WasapiRenderer.LatencyReturns`), but with
  a protected latency of 0 the speed is never raised, whatever the backlog
  (`CatchUp.TargetRaisedIff`).
- A number's missing flag is not cleared when its frame comes in order a round later, and then
  a copy 500 ms or more after that frame is passed on again and counted as recovered
  (`SessionRuns.CopyIsPassedOnIff`).
- Heartbeat replies miss nothing with up to 121 arrivals between two of them
  (`ReceiverHeartbeats.HeartbeatsCoverReceiver`); with 122 a reply can miss 256 numbers
  (`ReceiverHeartbeats.TooManyArrivals`).
- An audio frame with a payload of 65517 to 65535 bytes encodes and parses, but the control
  framing that carries it refuses it (`QuicFrames.AudioDeliveredIff`).
- The capacity computation is right up to 2^63 and gives 0 above (`Bits.NextPowerOf2`).
- The clock-offset midpoint can leave the clock bounds when their sum saturates
  (`SessionRuns.MidpointInBoundsIff`). The latency clamp is exact except for receive times
  within a minute of the lowest 64-bit value (`SessionRuns.SaturationIsHarmlessIff`); every
  frame that is measured comes at least 500 ms after the epoch
  (`SessionRuns.MeasuredAfterEpoch`), so the bracket is sound without condition.
- In `renderPitchPreserved` the early returns at lines 237 and 246 are never taken: the skip
  is at least one frame, and the read always gets what was available when it was looked at.
- Heartbeat replies hold at most 255 entries, not the 256 the comment at `main.cpp:233` allows.
- A safe single-producer ring needs each thread's successive loads of the other counter never
  to go backwards. With that, values as stale as you like are harmless (`SpscRing.FreeIs`);
  without it the free space underflows exactly when more than a capacity was published since
  the value loaded (`SpscRing.FreeUnderflowsIff`), and rings of every size up to 2^62 reach
  such a state (`SpscRing.BackwardLoadUnderflows`).

## Model

| member | source | states |
|---|---|---|
| Protocol.WindowIsFourteenWide | protocol.h:63-66 | the window test accepts the expected number and exactly the 13 after it, across the byte wrap |
| Reorder.Receiver.constructor | main.cpp:365-367 | the receiver starts at number 0 with 256 empty slots |
| Reorder.Receiver.Receive | main.cpp:575-608 | one datagram in place on the slots does exactly one model step: window test, take, forced skip, store, release loop; and when the buffer-low flag is cleared |
| ReorderHistory.DrainSettles | main.cpp:600-607 | the release loop ends after at most 13 releases with every stored packet ahead of the expected one |
| ReorderHistory.StepSettles | main.cpp:576-608 | after every arrival stored packets lie 1 to 12 ahead; at most 13 releases and 14 numbers per arrival |
| ReorderHistory.StepIsSafe | main.cpp:575-608 | one arrival keeps releases strictly increasing, released plus skipped equal to the expected number, and every accepted packet stored or released with its first payload, and rewrites nothing of the past |
| ReorderHistory.NothingInWindowIsDropped | main.cpp:577-596 | a decodable packet in the window is taken or stored, unless an earlier copy was |
| ReorderHistory.StepShows | main.cpp:575-608 | the receiver with byte numbers and 256 slots simulates the unbounded machine step by step |
| ReorderHistory.RunShows | main.cpp:575-608 | the same over any sequence of arrivals |
| ReorderRuns.WholeRunSafety | main.cpp:575-608 | for arbitrary arrivals, decode failures and buffer-low readings the run is safe and settled, and buffers written plus skips equal the unwrapped expected number |
| ReorderRuns.PastIsFinal | main.cpp:575-608 | later arrivals only add to what was released, skipped and accepted |
| ReorderRuns.StoredIsNeverStranded | main.cpp:590-607 | a stored packet is ever after waiting ahead or released with its stored payload, never skipped or overwritten |
| ReorderRuns.SkippedIsGoneForGood | main.cpp:585-589 | a packet given up by a forced skip is in no later output, whatever arrives |
| ReorderRuns.AtMostTwelveStored | main.cpp:576-598 | a settled area holds at most 12 packets |
| ReorderRuns.WindowInvariant | main.cpp:576-608 | one arrival keeps the area settled, writes at most 13 buffers and moves the expected byte by at most 14, one more than was written at most |
| ReorderRuns.ExactAdvance | main.cpp:576-608 | for any arrival, decodable or not, the expected byte moves by exactly the buffers written plus one for a forced skip, which happens 4 to 13 ahead, or 1 to 3 ahead of a starving renderer |
| ReorderRuns.UndecodableArrival | main.cpp:577-598 | an undecodable packet that forces no skip changes nothing; none is ever stored |
| ReorderRuns.LaterCopyIsPlayed | main.cpp:577-583 | a copy of the expected packet that decodes is the next buffer written, even after one that did not |
| ReorderRuns.WindowBoundsAreReached | main.cpp:576-608 | one run reaches 12 stored, then 13 releases and 14 numbers in one arrival |
| ReorderRuns.BurstLossRecovery | main.cpp:584-607 | after losing k of 1 to 13 packets nothing is written until arrival max(4, k); then exactly k skips, everything arrived written in order, area empty |
| ReorderRuns.FaithfulStep | main.cpp:576-608 | exactly which sender indices keep the record of accepted packets equal to what arrived |
| ReorderRuns.PerfectMeansOutput | main.cpp:575-608 | nothing skipped and every accepted packet right, exactly when the payloads of all numbers passed were written in order and the waiting ones are right |
| ReorderRuns.PerfectStepIff | main.cpp:576-608 | exactly which arrival leaves a perfect output perfect |
| ReorderRuns.PerfectRunIff | main.cpp:576-608 | a run is perfect exactly when each arrival was harmless where it came |
| ReorderRuns.PerfectOutputIff | main.cpp:575-608 | the same told of the buffers the receiver wrote, a rejected packet counting as not arrived |
| ReorderRuns.PerfectReconstruction | main.cpp:575-608 | with arrivals 3 ahead to 242 behind the first missing index, duplicates included, the output is the sender's payloads 0 .. m-1 after every arrival, over any number of wraps |
| ReorderRuns.LargeGapResync | main.cpp:576-583 | after a gap k of 14 to 255 a consecutive stream is rejected for exactly 256 - k packets and the next is the expected one |
| DirectModes.Receiver.Receive | main.cpp:546-574 | one packet in QUIC or discard mode does exactly one model step; QUIC alone clears the buffer-low flag |
| DirectModes.Receiver.ConcealLoss | main.cpp:554-557 | the concealment loop writes one buffer per successful call, in order |
| DirectModes.StepMoves | main.cpp:564-573 | an accepted packet moves the expected number past itself, 1 to 14 numbers, decoded or not |
| DirectModes.ExpectedIsMoved | main.cpp:546-574 | over a run the byte counter is the unwrapped count modulo 256 |
| DirectModes.TimelineKeptIff | main.cpp:549-563 | with a decoder that never fails, one buffer is written per number passed exactly when every gap was concealed (up to 3 with Opus on QUIC), fewer otherwise |
| DirectModes.AcceptedWrites | main.cpp:549-563 | what an accepted packet writes and in what order: one concealment buffer for each number of a gap of at most 3 on Opus over QUIC, then its own buffer last |
| DirectModes.SilentPacketPasses | main.cpp:549-573 | a packet of which nothing decodes writes nothing and is passed |
| DirectModes.PlaybackIsAligned | main.cpp:546-574 | over a run with every gap concealed each packet's buffer stands at the place of its own number, the concealment buffers at those of the numbers lost |
| DirectModes.NumberInIsNamed | main.cpp:546-574 | that number is one its byte stands for |
| DirectModes.OutsideIsRejected | main.cpp:567-574 | a late or far-ahead packet changes nothing |
| DirectModes.LargeGapResync | main.cpp:549-574 | after a gap k of 14 to 255 exactly 256 - k packets are rejected, in both modes |
| Heartbeat.Reporter.constructor | main.cpp:57-62 | no arrival times and number 0 at the start |
| Heartbeat.Reporter.Arrived | main.cpp:611-620 | a datagram updates only its own number's time, by the 300 ms rule, and publishes the expected number |
| Heartbeat.Reporter.OnHeartbeat | main.cpp:230-258 | the bytes sent are the length, an entry for each number from the last reply to the expected one, and the time; they fit, and the next reply starts where this one ended |
| Heartbeat.Reporter.PutEntry | main.cpp:240-243 | an entry is the number and its time, written after what was there |
| Heartbeat.Reporter.PutWord | main.cpp:250-251 | the shifting loop stores a 64-bit value big-endian and touches nothing else |
| Heartbeat.Reporter.Finish | main.cpp:247-258 | the time is appended and the length prefix filled in |
| Heartbeat.ByteByShift | main.cpp:242-243 | the shifted and truncated value is the byte of the big-endian form |
| Heartbeat.ReplyDecodes | main.cpp:233-258 | a reply decodes back to exactly its numbers, their times and the server time |
| Heartbeat.ReplyCoversIff | main.cpp:237-245 | a reply covers the whole advance exactly when that is below 256 |
| Heartbeat.RepliesTile | main.cpp:230-258 | at that pace the replies of a session list 0, 1, 2, ... each number once |
| Heartbeat.FirstArrivalKept | main.cpp:613-618 | copies within 300 ms leave the time of the first arrival |
| Heartbeat.StampReplacedIff | main.cpp:615-618 | an arrival replaces the stored time exactly when there was none, more than 300 ms passed, or the clock went back |
| ReceiverHeartbeats.EndsArePaced | main.cpp:600-620 | up to 121 arrivals move the reordering receiver by fewer than 256 numbers, whatever they are |
| ReceiverHeartbeats.HeartbeatsCoverReceiver | main.cpp:575-620 | with at most 121 arrivals between heartbeats the replies list every number the receiver passed exactly once |
| ReceiverHeartbeats.RunAdvance | main.cpp:576-608 | n arrivals move the receiver by at most 2n + 12 numbers |
| ReceiverHeartbeats.TooManyArrivals | main.cpp:230-258 | 122 arrivals between two heartbeats that pass 256 numbers, none of which the reply lists |
| Bits.NextPowerOf2 | ring_buffer.h:99-109 | the least power of two at or above n for 1 <= n <= 2^63, 1 for 0, and 0 above 2^63 |
| Bits.SmearStep | ring_buffer.h:102-107 | one shift-and-or doubles the run of ones at the top of the number |
| Bits.MaskIsRemainder | ring_buffer.h:22-22 | masking with a power of two less one is the remainder |
| RingBuffer.SlotsDiffer | ring_buffer.h:48-50 | fewer than capacity consecutive samples never share a slot |
| RingBuffer.WrapKeepsSlot | ring_buffer.h:48-57 | a counter's wrap at 2^64 does not move its slot |
| RingBuffer.CopyAppends | ring_buffer.h:48-55 | the two-chunk copy in appends to the buffered samples and disturbs none of them |
| RingBuffer.CopyTakes | ring_buffer.h:72-79 | the two-chunk copy out yields the oldest samples in order |
| RingBuffer.RingBuffer.constructor | ring_buffer.h:19-27 | an empty buffer with the least power-of-two capacity |
| RingBuffer.RingBuffer.MaskedIndex | ring_buffer.h:48-48 | the masked wrapped counter is the slot of the unbounded one |
| RingBuffer.RingBuffer.Write | ring_buffer.h:39-59 | appends as many of the samples as fit, even across counter overflow |
| RingBuffer.RingBuffer.Read | ring_buffer.h:63-83 | hands over and removes the oldest samples, at most count, and leaves the rest of the target alone |
| RingBuffer.RingBuffer.AvailableToRead | ring_buffer.h:86-90 | the number of buffered samples |
| SpscRing.FreeIs | ring_buffer.h:40-44 | the free space computed from any not-yet-surpassed value of the other counter never underflows and is at most the true room |
| SpscRing.FilledIs | ring_buffer.h:64-68 | the same for what the consumer may read |
| SpscRing.CopyInKeeps | ring_buffer.h:52-55 | copying one sample in keeps the invariant and changes no unread sample |
| SpscRing.CopyOutKeeps | ring_buffer.h:76-79 | copying one sample out takes the right one |
| SpscRing.PublishHeadKeeps | ring_buffer.h:57-58 | publishing the head adds exactly the copied samples |
| SpscRing.PublishTailKeeps | ring_buffer.h:81-82 | publishing the tail delivers exactly the copied samples |
| SpscRing.StepKeeps | ring_buffer.h:39-83 | every step of either thread keeps the invariant |
| SpscRing.RunKeeps | ring_buffer.h:39-83 | so does every interleaving, and accepted and delivered only grow |
| SpscRing.ConcurrentFifo | ring_buffer.h:39-83 | in every interleaving the samples read are a prefix of those accepted and the occupancy is between 0 and the capacity |
| SpscRing.NoSlotIsShared | ring_buffer.h:48-55 | no slot is written while it may still be read |
| SpscRing.UninterruptedWrite | ring_buffer.h:39-59 | run without interruption the steps of a write do what the class's Write does |
| SpscRing.UninterruptedRead | ring_buffer.h:63-83 | and those of a read what the class's Read does |
| SpscRing.FreeUnderflowsIff | ring_buffer.h:40-44 | with a load going backwards the free space underflows exactly when more than a capacity was published since that value |
| SpscRing.BackwardLoadUnderflows | ring_buffer.h:40-44 | a schedule after which it does, for every capacity up to 2^62 |
| Gain.SmoothStepSlope | wasapi_renderer.cpp:117-121 | the smooth step is monotone and 3/2-Lipschitz on [0, 1] |
| Gain.SmoothStepRange | wasapi_renderer.cpp:117-121 | it runs from 0 to 1 and stays between, for every argument |
| Gain.SmoothStepMonotone | wasapi_renderer.cpp:117-121 | it never falls, for every argument |
| Gain.SmoothStepShape | wasapi_renderer.cpp:117-121 | it is symmetric, halfway in the middle, and flat at both ends |
| Gain.LrintTies | wasapi_renderer.cpp:136-136 | rounding takes a tie to the even neighbour |
| Gain.UnderrunSlew | wasapi_renderer.cpp:153-166 | in an underrun fade no frame is louder than the one before, neighbours differ by at most 1.5 times the start over F plus 1, and the end is exactly 0 |
| Gain.FillFits | wasapi_renderer.cpp:165-165 | the cast of a filled sample to 16 bits loses nothing |
| Gain.FadeInShrinks | wasapi_renderer.cpp:130-137 | fading in enlarges no sample, keeps its sign and its 16-bit range |
| Gain.FadeInRises | wasapi_renderer.cpp:130-137 | a fade-in starts next to silence, rises in bounded steps and lies close to the sound at its end |
| Gain.FadeOutIsFlat | wasapi_renderer.cpp:153-166 | an underrun fade leaves the last sound and reaches silence gently, halfway in the middle |
| Gain.CrossfadeBetween | wasapi_renderer.cpp:272-279 | a crossfaded sample lies between its two sources |
| Gain.CrossfadeSeam | wasapi_renderer.cpp:270-280 | the crossfade leads from the earlier sound to the later one: next to each at its end, and in between towards the later by at most 1.5 times the change over fade + 1, plus 1 |
| Gain.CrossfadeIsFlat | wasapi_renderer.cpp:270-280 | and gently so, halfway in the middle |
| Splice.FewFramesSampled | wasapi_renderer.cpp:192-197 | the score looks at fewer than 64 frames however long the fade |
| Splice.ScoreBound | wasapi_renderer.cpp:196-207 | the score is far below 64 bits, for every channel count and fade |
| Splice.SampledFramesIs | wasapi_renderer.cpp:197-197 | the stepping loop looks at exactly the sampled frames |
| Splice.EnoughFramesSampled | wasapi_renderer.cpp:192-197 | every frame of a fade below 64 is looked at, and at least 32 of a longer one |
| Splice.FrameDifferenceIs | wasapi_renderer.cpp:201-206 | for one or two channels the difference of two frames is the channels' distances added |
| Splice.FrameDifferenceZeroIff | wasapi_renderer.cpp:201-206 | it is zero exactly for equal frames, for any channel count |
| Splice.ScoreZeroIff | wasapi_renderer.cpp:195-207 | a score is zero exactly when the frames looked at repeat after the skip |
| Splice.RepeatIsFound | wasapi_renderer.cpp:184-217 | if the sound repeats after the skip at any legal start, the search finds the first such |
| Splice.TimeCompressionShape | wasapi_renderer.cpp:261-290 | compressed output is the input up to the splice, crossfaded samples between their sources and within one fade step of the sound at both seams, then the input after the skip, with every index inside the input |
| Renderer.PlayedShape | wasapi_renderer.cpp:240-290 | the same three parts and two seams told of the samples the ring offered a callback |
| Splice.SplicedBetween | wasapi_renderer.cpp:264-290 | every output sample lies between the two input samples it can come from |
| CatchUp.SpeedStaysInRange | wasapi_renderer.cpp:384-404 | the speed stays within 1 and the maximum and rises by at most 0.02 a callback |
| CatchUp.RampIsStraight | wasapi_renderer.cpp:401-404 | towards a constant higher target the speed climbs in a straight line of 0.02 and then holds |
| CatchUp.SpeedFollowsTarget | wasapi_renderer.cpp:401-404 | the new speed is the greatest within the target and 0.02 above the old one; a lower target is followed at once |
| CatchUp.TargetAtBacklog | wasapi_renderer.cpp:387-400 | the exact target for a backlog k baselines above the protected latency: exp(k^3 protect / baseline) within its limits |
| CatchUp.TargetRaisedIff | wasapi_renderer.cpp:387-400 | the target is above 1 exactly when there is a baseline, a protected latency, and more than that buffered |
| CatchUp.TargetReaches | wasapi_renderer.cpp:387-400 | from k baselines above the protected latency on the target is at least 1 + g or the limit, with g = k^3 protect / baseline |
| CatchUp.CatchUpStarts | wasapi_renderer.cpp:400-404 | a target of 1.002 or the limit makes the very next speed exceed 1.001 |
| CatchUp.TargetGrowsWithBacklog | wasapi_renderer.cpp:387-400 | more backlog never lowers the target, and within the protected latency it is 1 |
| CatchUp.CompressingConsumesMore | wasapi_renderer.cpp:229-238 | above speed 1.001 with more than a request buffered a callback takes more frames than it plays, at most ceil(maxSpeed * request) |
| CatchUp.ConsumedIs | wasapi_renderer.cpp:229-235 | more than the request is taken exactly at a speed above 1.001 with more than it buffered, and then the request times the speed rounded up, or all there is |
| CatchUp.CatchUpTerminates | wasapi_renderer.cpp:383-419 | while that lasts and the producer adds at most a request per callback the backlog falls every time, so it lasts no more callbacks than there were frames (of the renderer in `RenderLoop`) |
| CatchUp.BacklogIsHeld | wasapi_renderer.cpp:383-419 | a producer that keeps to a request per callback never raises the backlog above what it was or one request |
| CatchUp.BacklogComesDown | wasapi_renderer.cpp:383-419 | if catching up starts from a bound on, a backlog above it is worked off in as many callbacks as it has frames too many, and stays below |
| Renderer.FilledRegionIsSmooth | wasapi_renderer.cpp:153-166 | the slew bound for every sample of a filled region, seam included |
| Renderer.WasapiRenderer.constructor | wasapi_renderer.cpp:25-33 | starts not in silence, at normal speed with a limit of 1.25 |
| Renderer.WasapiRenderer.FadesAre | wasapi_renderer.cpp:151-151 | a fade around silence lasts 5 ms in whole frames, at least one, or all the missing frames if fewer |
| Renderer.WasapiRenderer.SpliceFadeIs | wasapi_renderer.cpp:253-253 | a splice fades over 2 ms in whole frames, at least one, or a quarter of the request if less |
| Renderer.WasapiRenderer.SetMaxSpeed | wasapi_renderer.cpp:109-115 | the limit is the clamped speed to the nearest thousandth, 1 if not finite |
| Renderer.WasapiRenderer.FadeInAfterSilence | wasapi_renderer.cpp:123-141 | after silence every sample is faded in by its frame and the flag cleared; otherwise nothing happens |
| Renderer.WasapiRenderer.FillSmoothSilence | wasapi_renderer.cpp:143-170 | every sample from the first missing frame on is the fade of its channel's last sound, the rest untouched, the flag set |
| Renderer.WasapiRenderer.FillFrame | wasapi_renderer.cpp:156-166 | one frame of the fill |
| Renderer.WasapiRenderer.RememberLastSamples | wasapi_renderer.cpp:172-182 | keeps each channel of the last whole frame |
| Renderer.WasapiRenderer.FindSmoothSkip | wasapi_renderer.cpp:184-217 | the smallest start with the least score over all legal starts, all reads in bounds |
| Renderer.WasapiRenderer.SpliceScore | wasapi_renderer.cpp:196-207 | the score of one start, without overflow |
| Renderer.WasapiRenderer.FramesDiffer | wasapi_renderer.cpp:201-206 | the summed difference of two frames |
| Renderer.WasapiRenderer.PlaySpliced | wasapi_renderer.cpp:262-290 | the three output loops fill the request exactly with the spliced samples |
| Renderer.WasapiRenderer.PlayFrame | wasapi_renderer.cpp:264-268 | one copied frame |
| Renderer.WasapiRenderer.CrossfadeFrame | wasapi_renderer.cpp:270-281 | one crossfaded frame |
| Renderer.WasapiRenderer.RenderPitchPreserved | wasapi_renderer.cpp:219-293 | plays the request or all that is buffered, consumes that plus the skipped frames, in the compressed shape at the best splice, while the producer keeps writing |
| Renderer.WasapiRenderer.CompressFrames | wasapi_renderer.cpp:240-292 | the compressing branch: what it reads, plays and skips |
| Renderer.WasapiRenderer.Reserve | wasapi_renderer.cpp:242-243 | the working copy is long enough afterwards |
| Renderer.WasapiRenderer.RenderCallback | wasapi_renderer.cpp:383-432 | speed, samples read and consumed, where each played sample comes from among those the ring held, fades, flags and remembered frame of one callback; silent after silence when empty, nothing enlarged when sound returns; the silence invariant is kept |
| Renderer.WasapiRenderer.ReadCallback | wasapi_renderer.cpp:383-419 | the part that sets the speed and reads, which in whole frames is one step of the catch-up model |
| Renderer.WasapiRenderer.SetSpeed | wasapi_renderer.cpp:383-404 | moves the speed towards the target for what is buffered |
| Renderer.WasapiRenderer.ReadFrames | wasapi_renderer.cpp:410-419 | reads as it is without latency control and compressed with it |
| Renderer.WasapiRenderer.StepInFrames | wasapi_renderer.cpp:219-293 | what is left in the ring after a read, in whole frames, is what the catch-up model says |
| Renderer.WasapiRenderer.ProducerWithinRequest | wasapi_renderer.cpp:383-419 | a producer that writes at most a request of samples adds at most a request of frames |
| Renderer.WasapiRenderer.RenderLoop | wasapi_renderer.cpp:350-441 | over the render thread's callbacks the backlog and speed follow the catch-up model, so uninterrupted catching up lasts no more callbacks than there were frames of backlog, and a latency that is too much is worked off |
| Renderer.WasapiRenderer.LatencyReturns | wasapi_renderer.cpp:350-441 | from a bound that is k baselines above the protected latency, with k^3 protect >= 0.002 baseline, any backlog falls below the bound within as many callbacks as it has frames too many, while the producer keeps to its share |
| Renderer.WasapiRenderer.Wakeup | wasapi_renderer.cpp:366-434 | one turn of that loop fills the buffer handed out |
| Renderer.WasapiRenderer.FinishCallback | wasapi_renderer.cpp:421-432 | the fade-in, fill and remember part of it |
| Renderer.WasapiRenderer.EndsInSilence | wasapi_renderer.cpp:151-166 | after a fill the last frame is zero in every channel |
| Renderer.WasapiRenderer.SilenceStaysSilent | wasapi_renderer.cpp:158-165 | an empty callback after an underrun emits exact zeros |
| Renderer.WasapiRenderer.FirstSoundFadesIn | wasapi_renderer.cpp:421-422 | the first full read after silence starts next to silence, grows no sample, keeps its sign, and is unchanged from the end of the fade on |
| Renderer.WasapiRenderer.PlayedPartIsKept | wasapi_renderer.cpp:421-432 | what was read before an underrun is played as read, or faded in after silence |
| Renderer.WasapiRenderer.UnderrunIsSmooth | wasapi_renderer.cpp:421-432 | the slew bound for a whole underrun callback, from the previous frame or the previous callback's last |
| BigEndian.FromToBytes | quic-bridge/src/lib.rs:694-712 | reading undoes writing for every value of the width |
| BigEndian.ToFromBytes | quic-bridge/src/lib.rs:662-692 | writing undoes reading for every byte string |
| BigEndian.ReadPushed | quic-bridge/src/lib.rs:662-712 | a pushed word is read back at its offset, whatever surrounds it |
| BigEndian.CastsKeepValue | quic-bridge/src/lib.rs:686-714 | the signed casts keep the number modulo the word and undo one another |
| QuicFrames.ParseEncoded | quic-bridge/src/lib.rs:589-608 | parsing undoes encoding exactly for payloads of 1 to 65535 bytes and refuses any other |
| QuicFrames.EncodedAudioFields | quic-bridge/src/lib.rs:589-608 | where each field of an audio frame lies |
| QuicFrames.OtherSessionRefused | quic-bridge/src/lib.rs:593-595 | another session's frame is refused as such |
| QuicFrames.EncodeParsed | quic-bridge/src/lib.rs:589-608 | an accepted byte string is the encoding of what was parsed |
| QuicFrames.ParserAcceptsExactly | quic-bridge/src/lib.rs:589-608 | the parser accepts exactly the encodings of valid frames |
| QuicFrames.HelloAcceptedIffSupported | quic-bridge/src/lib.rs:565-587 | a handshake is accepted exactly for supported configurations and yields them; which error each other one gets |
| QuicFrames.HelloParsedIsEncoded | quic-bridge/src/lib.rs:565-587 | an accepted handshake is the encoding of its configuration, up to the reserved byte |
| QuicFrames.HelloFields | quic-bridge/src/lib.rs:565-577 | where each field of a handshake lies |
| QuicFrames.ControlFrameFields | quic-bridge/src/lib.rs:620-628 | a control frame is four bytes of length and the message |
| QuicFrames.WrittenFrameIsRead | quic-bridge/src/lib.rs:610-628 | a control frame is read back exactly when it has 1 to 65536 bytes |
| QuicFrames.ControlStreamSplits | quic-bridge/src/lib.rs:610-628 | concatenated control frames split back into the list of messages |
| QuicFrames.ControlStreamIsWritten | quic-bridge/src/lib.rs:610-618 | any stream is the frames read from it followed by something unreadable |
| QuicFrames.AudioDeliveredIff | quic-bridge/src/lib.rs:589-628 | through both layers a frame arrives exactly for payloads of 1 to 65516 bytes |
| SessionStats.SessionStats.constructor | quic-bridge/src/lib.rs:94-110 | empty statistics |
| SessionStats.SessionStats.Accept | quic-bridge/src/lib.rs:112-166 | the new statistics and the verdict on a frame, in place on the flag and time arrays |
| SessionStats.SessionStats.TrackSequence | quic-bridge/src/lib.rs:120-138 | the sequence part of it, with the loop that flags at most 64 missing numbers |
| SessionStats.SessionStats.SetClockBounds | quic-bridge/src/lib.rs:525-529 | only an interval of at most 10 s is taken |
| SessionStats.SessionStats.StatsPayload | quic-bridge/src/lib.rs:168-184 | the report bytes, and the bracket reset |
| SessionRuns.TrackAccounts | quic-bridge/src/lib.rs:120-138 | one tracked frame balances lost, recovered and the advance of the expected number |
| SessionRuns.AcceptedExactly | quic-bridge/src/lib.rs:112-141 | the whole outcome for a frame that is no duplicate: up to 126 ahead it is passed on and exactly the first 64 numbers it jumps over are flagged; behind, it is passed on if and only if flagged, and exactly that flag is cleared |
| SessionRuns.MarkedExactly | quic-bridge/src/lib.rs:127-129 | the flagging loop flags exactly the n numbers from the expected one on |
| SessionRuns.FirstIsAccepted | quic-bridge/src/lib.rs:118-122 | the first frame sets the count going |
| SessionRuns.DuplicateIsCounted | quic-bridge/src/lib.rs:113-117 | a frame within 500 ms of the last of its number is only counted |
| SessionRuns.FlagStays | quic-bridge/src/lib.rs:120-138 | a number stays flagged over any run in which no frame of it is passed on |
| SessionRuns.LateFrameIsRecovered | quic-bridge/src/lib.rs:120-141 | a flagged late frame is passed on once, whatever came in between, and counted recovered |
| SessionRuns.CopyIsPassedOnIff | quic-bridge/src/lib.rs:120-138 | a frame in order is passed on a second time exactly when its flag was left from a round before |
| SessionRuns.LossAccounting | quic-bridge/src/lib.rs:112-141 | over every run received + lost = unwrapped advance + recovered, and flags set plus recovered never exceed lost |
| SessionRuns.NewerAdvance | quic-bridge/src/lib.rs:644-646 | a newer frame moves the expected number by the gap plus one, less than half the ring |
| SessionRuns.SameByteSpacing | quic-bridge/src/lib.rs:112-118 | frames accepted with the same byte are at least 500 ms apart whatever the clock does |
| SessionRuns.BracketIsExact | quic-bridge/src/lib.rs:142-184 | the reported minimum and maximum are -1 or exactly the extremes of the frames measured since the last report, between 0 and 60000 |
| SessionRuns.SyncTakenIff | quic-bridge/src/lib.rs:525-529 | a synchronisation result is taken exactly when it is an interval of at most 10 s |
| SessionRuns.SaturationIsHarmlessIff | quic-bridge/src/lib.rs:143-148 | exactly when saturation leaves the clamped delay exact |
| SessionRuns.MeasuredAfterEpoch | quic-bridge/src/lib.rs:112-118 | every measured frame has a receive time of at least 500 |
| SessionRuns.LatencyBracketSound | quic-bridge/src/lib.rs:142-154 | for any true offset in the bounds in force, every measured frame's exact clamped delay lies in the bracket |
| SessionRuns.MidpointInBoundsIff | quic-bridge/src/lib.rs:156-156 | the assumed offset is within the clock bounds exactly when these are not beyond half the range |
| SessionRuns.MidpointOutOfBounds | quic-bridge/src/lib.rs:156-156 | accepted bounds below which it falls |
| SessionRuns.JitterStaysInRange | quic-bridge/src/lib.rs:157-163 | over a run the estimate is never negative nor above a bound on the differences |
| SessionRuns.JitterMoves | quic-bridge/src/lib.rs:156-163 | only a frame measured after another one moves the estimate |
| SessionRuns.JitterConverges | quic-bridge/src/lib.rs:159-162 | under a constant difference the estimate closes in by a sixteenth a frame |
| SessionRuns.TransitIsMidway | quic-bridge/src/lib.rs:156-158 | the transit time is the middle of the delays for the two clock bounds |
| SessionRuns.OffsetDropsOut | quic-bridge/src/lib.rs:156-160 | the transit difference of two frames does not depend on the offset assumed |
| SessionRuns.ReportReadsBack | quic-bridge/src/lib.rs:168-180 | the 26-byte report reads back to the capped counters, the bracket and the rounded jitter |

## Left out

- Sockets, QUIC endpoint and TLS, tokio tasks, DLL loading, WASAPI and COM calls: input and output; arrivals, callbacks and clock readings are inputs of the model.
- Opus decoding and concealment internals: what a call returns is an arbitrary input.
- Ring overflow on the receiving side: `written` records the buffers handed to the ring's write, which takes what fits (`RingBuffer.RingBuffer.Write`).
- `RingBuffer::reset`: not called on the live path and not part of the two-thread protocol.
- `PacketQueue`: not connected to the main flow.
- A session being initialised again while a heartbeat is under way: the heartbeat theorems are about one initialised session.
- The C++ memory model and IEEE rounding: steps interleave and loads may be stale, arithmetic on `double` is over the reals, and `exp` is any function: (strictly) monotone with exp(0) = 1, or at least 1 + y at every y, where that is used.
- Command line, logging, render and silence counters, sample-rate table, conversion to float, the C handle life cycle, HELLO acknowledgement and clock-sync responses: only easy members.
- The branch of rememberLastSamples that resizes the remembered frame, and the returns at lines 237 and 246 of renderPitchPreserved: never taken.
- Reorder.Receiver.Receive: `written` records the buffers handed to `writePcm`; an empty one, of a PCM datagram holding only its number, is recorded although `writePcm` skips it, which changes no sample of the output.
- DirectModes.Receiver.Receive: the same of its record.
- DirectModes.TimelineKeptIff: counts the buffers handed to `writePcm`, empty ones too.
- Heartbeat.Reporter.OnHeartbeat: reads all times at one instant, whereas the source loads them one after the other beside the receive thread, which may update one in between.
- RingBuffer.RingBuffer.constructor: requires a capacity of at most 2^63 samples, because above it the capacity computation gives 0; sessions ask for at most twice the sample rate per channel.
- Renderer.WasapiRenderer.constructor: requires at least one channel and a sample rate times channels below 2^32, as every accepted configuration has.
- Renderer.WasapiRenderer.RenderCallback: its output buffer is a whole number of frames, as the audio client's always is.
- SessionStats.SessionStats.Accept: counters are unbounded, so a 64-bit overflow after 2^64 frames is not modelled.
