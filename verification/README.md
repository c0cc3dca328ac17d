# Decoded picture buffers of the H.264 and H.265 decoders

The base classes in `lib/codecs` keep decoded pictures in a buffer until they have been output and are no longer
needed as references. This project models that machinery in Dafny and proves what it promises: which pictures stay
references, how full the buffer gets, in which order pictures leave, and how the numbers that identify pictures are
recovered from the few bits a stream carries.

## How it is built

Each codec has two layers.

* A specification on values: `H264DpbSpec`, `H264Machine`, `H265DpbSpec`, `H265Marking`, `H265Machine`. A buffer is a
  sequence of pictures, a decoder state adds what was emitted, finished and discarded, and a step decodes one slice.
  The theorems about whole runs are about these functions (`H264Run`, `H264Capacity`, `H264Reorder`, `H264LongTerm`,
  `H264FrameNum`, `H264Window`, `H264Refill`, `H264Order`, `H264OrderExact`, `H264NormalOrder`, `H264EarlyOrder`,
  `H264OrderLimits`, `H264Flush`, `H264Leaving`, `H264Adaptive`, `H265Run`, `H265Order`).
* The program: classes `Picture`, `Dpb` and `Decoder` (`H264Dpb`, `H264Decoder`, `H265Dpb`, `H265Decoder`), with
  mutable picture objects, a list edited in place, counters, and the loops of the source. Every method is proved to
  take the value of the objects where the specification says. Ghost field `pics` is the value of the list, `Repr` the
  picture objects it may hold.

`H265Nal` puts the H.265 step behind a reader of NAL units, which derives the flags that clear the buffer; `H265Rasl`
says by position in the stream what these flags mean, and `H265Restart` what a restart of the bitstream does.
`H265Lookup` and `H265Plan` lead from an encoder's choice of pictures through the header to the decoder's sets. Order
counts (`H264Poc`, `H265Poc`, `PocLsb`), reference lists (`H264RefLists`, `H264Fields`, `H264Modify`, `H265RefPicSet`,
`H265RefLists`), the reference tables handed to Vulkan (`H265Vulkan`) and frame rate packing (`FrameRate`) stand on
their own. `Seqs`, `Sorting` and `Modulo` hold the vocabulary.

Histories are counted by predicates: a run conserves pictures when, for every predicate on identity and order count,
as many finished pictures satisfy it as emitted, waiting and discarded ones together.

## What the proofs found

* The H.264 buffer can overflow under sliding-window marking, in one situation only. In a buffer of one frame held
  by a long-term IDR frame the window has nothing to evict, its failure is ignored, and the next reference frame is
  stored as a second one. `H264Capacity.SlidingRunFits` says that nothing else overflows a buffer that is at least
  MAX (1, num_ref_frames) large, and `FinishFits` gives the exact condition for any marking.
* The same failing window shows for any buffer size: with num_ref_frames one and a long-term IDR frame, every later
  reference frame is held as a second reference, or dropped if it stands behind a gap (`H264Refill.SingleReference`).
* `prev_ref_frame_num` is not advanced while frames are inferred for a gap in frame_num (section 7.4.3 of H.264
  advances it). If the gap is ended by a non-reference frame, the same gap is filled a second time before the next
  frame (`H264FrameNum.GapFoundAgain`), and the second fill evicts frames that should stay: `H264Refill.SecondFill`
  gives the list for every gap and window, `SecondFillLosesFrame` a run that loses its only decoded reference frame.
  `H264Window.RunKeepsNewest` says that nothing else makes the window lose a frame it should keep.
* Output order: a stream that keeps num_reorder_frames is put in order exactly as far as frames leave covered
  (`H264Order.CoveredIsExact`, `H264Order.SequenceInOrder`, `H264OrderExact.TimelyIsNeeded`). For the limits that means
  (`H264OrderLimits.KeepsOrderIff`): in the normal mode the buffer must hold num_reorder_frames beside
  num_ref_frames. In the low latency modes num_reorder_frames must be zero: a non-reference frame leaves when the
  next frame arrives, at the latest, although the comment beside that rule expects it to be safe. IDR 0,
  non-reference 4, reference 2 leaves as 0, 4, 2 whenever one frame may be reordered.
* The `break` in operations 3 and 6 is right only because long-term indices are unique; `H264LongTerm` proves that
  they are, from conditions on the stream.
* Operation 3 does not set LongTermPicNum, which a frame only gets when the next one is started. A frame that has just
  become long-term therefore bears an old number, 0 if it has never been long-term, and operation 2 behind it in the
  same slice may drop it in place of the long-term frame that was meant (`H264Adaptive.StaleNumberTaken`; four frames
  of a new decoder suffice, `StaleNumberInRun`). `SentAllIsGrantedIff` says that nothing else makes a list of
  operations do what was not wanted.
* Frame rate packing wraps for a numerator or denominator of 2^32 - 1 that is not divided by 3 or 5 first; `Wraps` is
  the exact condition.
* Reference list modification recognises an unfilled place by the number -1, which a short-term reference may bear
  after frame_num has wrapped. Naming such a picture in a list that is not full, when it stands there behind the
  pictures already named, leaves the last picture of the list where it stood, so that it is there twice
  (`H264Modify.UnfilledTakenIff`; `UnfilledTakenForPicture` is such a list). `ModifiedIsWantedIff` says that nothing
  else makes the list wrong.
* The very-low-latency rule subtracts order counts in 32 bits. While no output is remembered the difference wraps,
  and the rule holds for every frame of count zero or above: `H264DpbSpec.NextCountIff`.
* An H.265 IRAP picture that follows an end of bitstream does not clear the buffer, since `new_bitstream` suppresses
  `clear_dpb`. `H265Nal.IrapFindsNothing` gives the exact condition under which it finds nothing stored, and
  `BitstreamsMeet` a stream in which two pictures of one order count meet. Without such a restart the stored order
  counts are distinct whenever those of each sequence are (`H265Restart.StreamKeepsDistinct`), which the exactness of
  marking needs. A restart also lets pictures of the new bitstream out before those of the old one
  (`RestartOvertakes`; `RestartOvertakesIff` says when).
* The index tables for Vulkan are filled for as many entries as there are references. A slice that names a picture
  more than once can have more entries; the indices beyond stay zero (`H265Vulkan.PictureData.ExportReferences`,
  `RepeatedEntryIsLost`).

## Model

| member | source | states |
|---|---|---|
| `H264Dpb.Picture.RestartOrderCounts` | lib/codecs/gsth264picture.c:1130-1155 | Operation 5 on a frame: frame_num and the frame's order count become zero, the distance between its two field counts stays. |
| `H264Dpb.Dpb.Add` | lib/codecs/gsth264picture.c:270-311 | The frame joins the end of the list, waiting unless it was inferred; `num_output_needed` stays the number of waiting frames; order count zero forgets the last output. |
| `H264Dpb.Dpb.DeleteUnused` | lib/codecs/gsth264picture.c:320-341 | Deletion in place leaves exactly the frames that wait or are references, in their order. |
| `H264Dpb.Dpb.NumRefFrames` | lib/codecs/gsth264picture.c:351-372 | The count of reference frames. |
| `H264Dpb.Dpb.MarkAllNonRef` | lib/codecs/gsth264picture.c:380-394 | Every frame loses its mark and nothing else. |
| `H264Dpb.Dpb.GetShortRefByPicNum` | lib/codecs/gsth264picture.c:404-425 | The first short-term reference with that number, or null if there is none. |
| `H264Dpb.Dpb.GetLongRefByLongTermPicNum` | lib/codecs/gsth264picture.c:436-457 | The same for long-term numbers. |
| `H264Dpb.Dpb.GetLowestFrameNumShortRef` | lib/codecs/gsth264picture.c:466-488 | The short-term reference with the least FrameNumWrap, or null. |
| `H264DpbSpec.Lowest` | lib/codecs/gsth264picture.c:658-697 | The waiting frame first in output order, the first of equals, or -1 when nothing waits. |
| `H264Dpb.Dpb.GetLowestOutputNeededPicture` | lib/codecs/gsth264picture.c:658-697 | The search loop finds that frame. |
| `H264Dpb.Dpb.CountWaitingBefore` | lib/codecs/gsth264picture.c:756-764 | How many frames before an index wait. |
| `H264Dpb.Dpb.EarlyBump` | lib/codecs/gsth264picture.c:730-828 | The chain of early rules, with its counting loop and its two exits, is true exactly when one of five reasons holds: enough frames reordered around the first one, the negative counts over, a non-reference frame, a later non-reference newcomer, the next count. |
| `H264DpbSpec.NextCountIff` | lib/codecs/gsth264picture.c:814-828 | The very-low-latency rule with its 32-bit subtraction: true exactly for a count one or two above the last output, or too far above it for 32 bits; so for every count from zero on while no output is remembered. |
| `H264Dpb.Dpb.NeedsBump` | lib/codecs/gsth264picture.c:707-865 | The bumping decision, early rules and C.4.5.3, agrees with its definition on the buffer's value in all three latency modes. |
| `H264Dpb.Dpb.Bump` | lib/codecs/gsth264picture.c:880-933 | The frame first in output order stops waiting and leaves the list unless it is still a reference (or the buffer drains); the others keep their order; null exactly when nothing waits. |
| `H264Dpb.Dpb.FreeLongTermFrameIdx` | lib/codecs/gsth264picture.c:1038-1093 | The search of operations 3 and 6: the first holder of an index, and only it, loses its mark. |
| `H264Dpb.Dpb.AssignLongTermFrameIdx` | lib/codecs/gsth264picture.c:1027-1108 | Operation 3: the short-term frame takes over the index; it fails exactly when no short-term frame has the number. |
| `H264Dpb.Dpb.PerformMemoryManagementControlOperation` | lib/codecs/gsth264picture.c:976-1191 | Each operation changes buffer and current frame as 8.2.5.4 says; one that finds no frame changes nothing. |
| `H264Decoder.Decoder.DrainOutputQueue` | lib/codecs/gsth264decoder.c:1789-1806 | Delivery keeps the order: delivered then queued is unchanged, and at most `num` frames stay queued. |
| `H264Decoder.Decoder.DoOutputPicture` | lib/codecs/gsth264decoder.c:1809-1853 | The frame is emitted; delivered followed by queued is always the emission sequence; the queue never outgrows the delay. |
| `H264Decoder.Decoder.BumpDpb` | lib/codecs/gsth264decoder.c:923-943 | The bumping loop terminates and computes the bumping of the model, with the same emissions. |
| `H264Decoder.Decoder.DrainInternal` | lib/codecs/gsth264decoder.c:1907-1925 | Everything emitted has been delivered, the queue and the buffer are empty. |
| `H264Decoder.Decoder.ClearDpb` | lib/codecs/gsth264decoder.c:462-487 | What waits and what is queued is thrown away, and nothing that was delivered is taken back. |
| `H264Decoder.Decoder.UpdatePicNums` | lib/codecs/gsth264decoder.c:757-794 | Every frame is renumbered for the current frame_num. |
| `H264Decoder.Decoder.SlidingWindowPictureMarking` | lib/codecs/gsth264decoder.c:1970-2029 | The window loop terminates; marks and success are those of `Slide`. |
| `H264Decoder.Decoder.HandleMemoryManagementOpt` | lib/codecs/gsth264decoder.c:1927-1968 | The operations before the end marker are applied in order, failing ones skipped, and the long-term maximum follows them. |
| `H264Decoder.Decoder.ReferencePictureMarking` | lib/codecs/gsth264decoder.c:2036-2075 | IDR, adaptive or sliding-window marking, as the slice asks. |
| `H264Decoder.Decoder.InferFrame` | lib/codecs/gsth264decoder.c:990-1023 | One turn of the gap loop. |
| `H264Decoder.Decoder.HandleFrameNumGap` | lib/codecs/gsth264decoder.c:945-1030 | The modular loop terminates and leaves the state of the model, success or failure alike. |
| `H264Decoder.Decoder.StartPicture` | lib/codecs/gsth264decoder.c:1057-1106 | Gap, flush at an IDR frame with or without output, and renumbering. |
| `H264Decoder.Decoder.MarkAndClean` | lib/codecs/gsth264decoder.c:2116-2156 | Marking, removal and the drain of operation 5. |
| `H264Decoder.Decoder.AddPictureToDpb` | lib/codecs/gsth264decoder.c:901-921 | The frame is stored. |
| `H264Decoder.Decoder.OutputPictureDirectly` | lib/codecs/gsth264decoder.c:839-899 | A frame that is not stored is emitted and remembered as the last output. |
| `H264Decoder.Decoder.InsertPicture` | lib/codecs/gsth264decoder.c:2158-2199 | Bumping, then storage for a reference or a frame that fits, direct output for the rest. |
| `H264Decoder.Decoder.FinishPicture` | lib/codecs/gsth264decoder.c:2108-2212 | The whole of finish_picture for frames moves the decoder from one model state to the next. |
| `H264Machine.CurrentKeeps` | lib/codecs/gsth264decoder.c:2036-2075 | Marking never unmarks or renames the current frame; its frame_num stays or becomes zero. |
| `H264Machine.StepSound` | lib/codecs/gsth264decoder.c:1057-1108 | frame_num state stays in range and the queue stays a part of what was emitted, over every step. |
| `H264Run.RunConserves` | lib/codecs/gsth264decoder.c:2108-2212 | Conservation: over every run, whatever property picks frames out, the finished ones are as many as the emitted, the waiting and the discarded together. |
| `H264Run.InferredNeverOutput` | lib/codecs/gsth264picture.c:270-311 | A frame inferred for a gap is never emitted and never waits. |
| `H264Run.RunKeepsDecodingOrder` | lib/codecs/gsth264picture.c:329-339 | The list holds the decoded frames in decoding order after every run. |
| `H264Run.DrainInOrder` | lib/codecs/gsth264decoder.c:1907-1925 | A drain emits exactly the waiting frames in non-decreasing order count and empties buffer and queue. |
| `H264Run.DirectOutputIsFirst` | lib/codecs/gsth264decoder.c:2158-2199 | A non-reference frame is stored if it fits, else output directly, and then no waiting frame precedes it. |
| `H264Capacity.RoomForReference` | lib/codecs/gsth264picture.c:842-856 | Bumping makes room for a reference frame if and only if the references leave some. |
| `H264Capacity.FinishFits` | lib/codecs/gsth264decoder.c:2108-2212 | A finished frame overflows the buffer if and only if it is a reference frame and the references left after marking fill the buffer; any stream, any latency mode. |
| `H264Capacity.RunFits` | lib/codecs/gsth264picture.c:302-304 | Over every run, whatever the marking: no frame overflows the buffer if and only if no reference frame finds it full of references after marking. |
| `H264Capacity.ConformingRunFits` | lib/codecs/gsth264picture.c:302-304 | So a stream that never leaves num_ref_frames references to meet a further reference frame never overflows. |
| `H264Capacity.GapStepFits` | lib/codecs/gsth264decoder.c:990-1023 | An inferred frame is stored if and only if fewer long-term frames are kept than the window allows, and it always fits. |
| `H264Capacity.SlidingRunFits` | lib/codecs/gsth264picture.c:302-304 | Over sliding-window runs the overflow message is reached if and only if the stream meets one situation: a buffer of one frame, kept by a long-term IDR frame, and a further reference frame without a gap. |
| `H264Capacity.SlidingNeverStuck` | lib/codecs/gsth264picture.c:302-304 | With room for two frames, or no long-term IDR frame, that situation never arises. |
| `H264Capacity.SlidingCanOverflow` | lib/codecs/gsth264decoder.c:1988-2016 | Two concrete frames that overflow a buffer of one: the window fails and the frame is stored anyway. |
| `H264Capacity.SlidingRunLongs` | lib/codecs/gsth264decoder.c:2036-2075 | In such runs exactly the latest IDR frame, if it asked for it, is long-term. |
| `H264Marking.SlideLeaves` | lib/codecs/gsth264decoder.c:1970-2029 | The window takes no long-term frame, succeeds if and only if the long-term frames are fewer than the limit, and leaves exactly the number of references the limit allows. |
| `H264Marking.MarkedStateAlike` | lib/codecs/gsth264decoder.c:2036-2075 | Marking leaves every stored frame's identity, order count and waiting state alone. |
| `H264Reorder.BumpWhileIsBumps` | lib/codecs/gsth264decoder.c:923-943 | A round of bumping is a number of single outputs, each of them wanted, and the next is not. |
| `H264Reorder.EarlyBumpIsSafe` | lib/codecs/gsth264picture.c:753-772 | In every coded video sequence of a run that keeps num_reorder_frames, whichever way it starts (run, IDR frame, operation 5), no frame output by the reorder rule is overtaken by the current frame or any later one of the sequence. |
| `H264Reorder.LiveBumpIsSafe` | lib/codecs/gsth264decoder.c:2208-2211 | The same for the extra round of live streams, after the current frame is stored. |
| `H264Order.CoveredIsExact` | lib/codecs/gsth264picture.c:753-772 | More than num_reorder_frames frames decoded so far end up at an order count or later if and only if no frame that the stream may send next precedes it. |
| `H264Order.SequenceInOrder` | lib/codecs/gsth264decoder.c:2158-2212 | Any coded video sequence of a run, in any mode, with gaps, dropped and directly output frames: if whatever leaves while a frame is decoded is covered in that sense, everything leaves in non-decreasing order count, and when every frame is decoded the counts are exactly those of the frames. |
| `H264Order.OutputOrder` | lib/codecs/gsth264decoder.c:2158-2212 | The same for all a decoder outputs from a stream of one sequence. |
| `H264OrderExact.TimelyIsNeeded` | lib/codecs/gsth264decoder.c:2158-2212 | If one frame leaves uncovered, there is a frame, reference or not, that the stream may send next within num_reorder_frames and that leaves out of order. |
| `H264OrderExact.EmittedIsDecoded` | lib/codecs/gsth264decoder.c:2158-2212 | What a sequence has output by frame k has the order count of one of its frames, k or earlier. |
| `H264NormalOrder.NormalOrder` | lib/codecs/gsth264picture.c:842-856 | Normal mode, a buffer that holds num_reorder_frames beside num_ref_frames: every sequence that keeps num_reorder_frames, in a stream that keeps num_ref_frames, leaves in order. Nothing is assumed about what the buffer does. |
| `H264NormalOrder.SlidingNeverMeets` | lib/codecs/gsth264decoder.c:1988-2016 | The sliding window keeps num_ref_frames by itself, unless a long-term frame fills a window of one. |
| `H264NormalOrder.SlidingOrder` | lib/codecs/gsth264picture.c:842-856 | So streams marked by the sliding window leave in order, from the stream and the limits alone. |
| `H264EarlyOrder.EnoughIsCovered` | lib/codecs/gsth264picture.c:730-828 | In any mode what leaves is covered when more frames wait, with the current one if it does not precede them, than may be reordered. |
| `H264EarlyOrder.RuleIsCovered` | lib/codecs/gsth264picture.c:753-772 | The reorder rule lets out covered frames only. |
| `H264EarlyOrder.SteadyIsTimely` | lib/codecs/gsth264picture.c:730-828 | Low latency, one frame of reordering, counts 0, 4, 2, 8, 6: three frames leave before any drain, all of them covered. |
| `H264OrderLimits.EarlyLeaves` | lib/codecs/gsth264picture.c:783-804 | Low and very low latency, any limits: of IDR 0, non-reference 4, reference 2 the frame 4 is out when 2 has been stored. |
| `H264OrderLimits.FillOverflows` | lib/codecs/gsth264picture.c:842-856 | Any mode and limits: num_ref_frames reference frames followed by others in order fill the buffer, and one frame more drives out a frame that is no reference. |
| `H264OrderLimits.KeepsOrderIff` | lib/codecs/gsth264picture.c:730-856 | The decoder puts every sequence that keeps num_reorder_frames in order, in all streams that keep num_ref_frames or in ordinary ones alone, if and only if nothing may be reordered, or the mode is normal and the buffer holds num_reorder_frames beside num_ref_frames. |
| `H264Leaving.LeavesEarlyIff` | lib/codecs/gsth264picture.c:700-831 | With room in the buffer: exactly when the frame that is first in output order leaves, by its kind, in terms of what is stored, what arrives and what left last. |
| `H264Leaving.LeavesFullIff` | lib/codecs/gsth264picture.c:831-870 | In a full buffer it leaves exactly when a reference frame arrives, or a non-reference frame that follows it. |
| `H264Leaving.RoundOutputsBefore` | lib/codecs/gsth264picture.c:831-870 | In the normal mode a round for a non-reference frame outputs only frames strictly before it. |
| `H264Leaving.RunRemembers` | lib/codecs/gsth264picture.c:936-954 | Over every run: the remembered output is the order count and kind of the frame output last, or nothing. |
| `H264Leaving.StartRemembers` | lib/codecs/gsth264decoder.c:1907-1925 | An IDR frame makes the decoder forget the last output. |
| `H264Leaving.MarkedRemembers` | lib/codecs/gsth264decoder.c:2158-2158 | Operation 5 does too. |
| `H264Leaving.InsertRemembers` | lib/codecs/gsth264picture.c:270-311 | And so does a stored frame of count zero, and no other. |
| `H264Leaving.RunQueues` | lib/codecs/gsth264decoder.c:886-921 | Over every coded video sequence: a frame is delivered exactly when as many frames of the sequence as the delay have been output behind it. |
| `H264Flush.IdrOutputs` | lib/codecs/gsth264decoder.c:1083-1090 | An IDR frame without no_output_of_prior_pics_flag: nothing is discarded or taken back, everything that waited is output in non-decreasing order count, counted by any property, and buffer and queue are empty. |
| `H264Flush.IdrDiscards` | lib/codecs/gsth264decoder.c:1090-1101 | With the flag: what has been delivered stays emitted; what was queued, and then all that waited, is exactly what is discarded. |
| `H264Flush.IdrFindsNoGap` | lib/codecs/gsth264decoder.c:1073-1078 | With frame_num zero an IDR frame finds the state of the run, without a gap, and is decoded. |
| `H264Flush.SequenceUntilNext` | lib/codecs/gsth264decoder.c:1083-1101 | Any coded video sequence whose frames leave covered has left when the next one has begun, with an IDR frame or with operation 5: in non-decreasing order count, and complete unless the IDR frame discards; then exactly what was delivered stays. |
| `H264LongTerm.RunKeepsIndices` | lib/codecs/gsth264decoder.c:1927-1968 | Over every run whose operations 3 and 6 respect the maximum and whose operation 6 comes last, long-term indices are unique and within the maximum. |
| `H264LongTerm.FreeIdxFreesAll` | lib/codecs/gsth264picture.c:1038-1093 | With unique indices, stopping at the first holder frees every holder of an index. |
| `H264LongTerm.FreeIdxNeedsUniqueness` | lib/codecs/gsth264picture.c:1038-1093 | Without them it does not: a second holder keeps index and mark. |
| `H264Adaptive.SentIsGrantedIff` | lib/codecs/gsth264picture.c:954-1130 | One operation, with the numbers an encoder writes for the frame it means, does exactly what was wanted to that frame, to every other one, to the current frame and to the largest index, if and only if it is not a dropped long-term frame that is misread. |
| `H264Adaptive.SentAllIsGrantedIff` | lib/codecs/gsth264decoder.c:1927-1968 | A list of operations does what was wanted after each of them if and only if none is misread. |
| `H264Adaptive.StartNumbers` | lib/codecs/gsth264decoder.c:758-795 | When a frame has been started every long-term frame bears its index as LongTermPicNum. |
| `H264Adaptive.DropsFirstIsRead` | lib/codecs/gsth264picture.c:1010-1090 | Nothing is misread when no long-term frame is dropped after another has become one in the same list. |
| `H264Adaptive.WishesAreGranted` | lib/codecs/gsth264decoder.c:2044-2072 | Over any run of legal operations: the stored frames, the current one and the largest index after marking are the wanted ones, whatever stands behind the end marker. |
| `H264Adaptive.MarkAsWanted` | lib/codecs/gsth264decoder.c:1927-1968 | The loop over the operations does the same to the frame objects. |
| `H264Adaptive.StaleNumberTaken` | lib/codecs/gsth264picture.c:1010-1090 | A frame that operation 3 has just made long-term still bears its old LongTermPicNum: operation 2 behind it, meant for a long-term frame with that number further on in the list, drops the new one instead. |
| `H264Adaptive.StaleNumberInRun` | lib/codecs/gsth264picture.c:1010-1090 | Four reference frames from a new decoder do this. |
| `H264FrameNum.WrapIsExact` | lib/codecs/gsth264decoder.c:779-785 | FrameNumWrap is the true distance behind the current frame if and only if that is less than MaxFrameNum. |
| `H264FrameNum.WrapOrdersByAge` | lib/codecs/gsth264decoder.c:779-785 | So wrapped numbers order short-term references by age. |
| `H264FrameNum.SlideKeepsNewest` | lib/codecs/gsth264decoder.c:1988-2026 | The window evicts the oldest short-term references: the newest that fit beside the long-term ones stay, in order. |
| `H264FrameNum.GapLoopInfers` | lib/codecs/gsth264decoder.c:987-1027 | The loop over wrapping numbers infers exactly the missing frames, one after the other. |
| `H264FrameNum.GapNumsAt` | lib/codecs/gsth264decoder.c:987-1027 | The i-th inferred number and the number of turns, (frame_num - first) mod MaxFrameNum. |
| `H264FrameNum.GapKeepsNewest` | lib/codecs/gsth264decoder.c:945-1030 | After a gap the short-term references are exactly the newest of old and inferred ones that fit beside the long-term ones; the inferred ones are (frame_num - prev - 1) mod MaxFrameNum many. |
| `H264FrameNum.GapFoundAgain` | lib/codecs/gsth264decoder.c:957-1027 | PrevRefFrameNum does not follow inferred frames: behind a gap, the next frame of the same number finds the gap again if and only if the frame that ended it was no reference, or restarted the numbers by operation 5 with frame_num above 1. |
| `H264Window.RunKeepsNewest` | lib/codecs/gsth264decoder.c:1970-2029 | Over whole sliding-window runs, gaps included: the short-term references are always exactly the newest reference frames since the IDR frame, as many as num_ref_frames leaves, and PrevRefFrameNum is the number of the newest, if and only if no gap is ended by a non-reference frame and no reference frame meets a window of one that a long-term IDR frame fills. |
| `H264Refill.GapStepShorts` | lib/codecs/gsth264decoder.c:1001-1023 | One inferred frame: the short-term frame farthest behind by wrapped number leaves, the new one joins at the end. |
| `H264Refill.SecondFill` | lib/codecs/gsth264decoder.c:957-1027 | A gap filled twice: the short-term numbers after the second fill, for every position, gap and window; they equal those after the first fill if and only if the gap is at least as long as the window. |
| `H264Refill.RefilledIsNewestIff` | lib/codecs/gsth264decoder.c:957-1027 | When the list after a second fill is that of the newest frames. |
| `H264Refill.SecondFillLosesFrame` | lib/codecs/gsth264decoder.c:957-1027 | IDR frame 0, non-reference frame 5, frame 5, window of five: 0, 1, 2, 3, 4 becomes 1, 1, 2, 3, 4, and frame 0, the only reference frame decoded, is lost. |
| `H264Refill.SingleReference` | lib/codecs/gsth264decoder.c:1988-2016 | A window of one that a long-term frame fills: every reference frame without a gap is stored as a second reference beside it, behind a gap it is dropped. |
| `H264Refill.SingleReferenceExceeded` | lib/codecs/gsth264decoder.c:1988-2016 | A long-term IDR frame and one reference frame, num_ref_frames one: two references are held. |
| `PocLsb.RecoverIff` | lib/codecs/gsth265decoder.c:1213-1230 | The three-way rule recovers an order count from its low bits if and only if it lies within half a period of the anchor. |
| `H264Poc.CyclesAreThePlainSum` | lib/codecs/gsth264decoder.c:1693-1707 | Type 1: cycles times the cycle sum plus the partial sum is the plain sum of the offsets taken round and round. |
| `H264Poc.ExpectedPoc` | lib/codecs/gsth264decoder.c:1675-1713 | The two loops compute that plain sum, with the non-reference offset. |
| `H264Poc.ExpectedStep` | lib/codecs/gsth264decoder.c:1675-1713 | Each reference frame adds its own offset, taken in turn, to the count of the one before it; a non-reference picture lies the fixed offset beside the reference before it. |
| `H264Poc.PocState.CalculatePoc` | lib/codecs/gsth264decoder.c:1584-1786 | All three order count types and fields, error for any other type. |
| `H264Poc.DecodeType0` | lib/codecs/gsth264decoder.c:1596-1656 | A whole type 0 stream, operation 5 included, is reconstructed from low bits if and only if every picture stays within half a period of its anchor. |
| `H264Poc.UnwrapIff` | lib/codecs/gsth264decoder.c:1664-1676 | frame_num plus the carried offset is the true number if and only if it advanced by less than one period. |
| `H264Poc.DecodeNumbers` | lib/codecs/gsth264decoder.c:1658-1762 | Types 1 and 2 over whole streams: the numbers are right exactly when every step is legal; then every decoded order count, offsets and sent differences included, is the true one, and in a legal type 2 sequence the decoded counts increase. |
| `H264Poc.Type2StepIff` | lib/codecs/gsth264decoder.c:1728-1762 | Type 2: the order count grows from one picture to the next exactly when the number does or a reference follows a non-reference. |
| `H264Poc.Type2Increasing` | lib/codecs/gsth264decoder.c:1728-1762 | In a legal sequence type 2 order counts increase in decoding order across every wrap; any stream of sequences. |
| `H264Modify.ShiftRightAndInsert` | lib/codecs/gsth264decoder.c:3103-3112 | The picture stands at its place, everything before it is untouched, everything behind moves one on. |
| `H264Modify.Compact` | lib/codecs/gsth264decoder.c:3213-3220 | The compaction loop keeps the tail without the named picture, in order. |
| `H264Modify.ModifyRefPicList` | lib/codecs/gsth264decoder.c:3117-3272 | The list that the commands lead to one by one; and, when none is mistaken, the first N of the commanded pictures followed by the initial list, filled up to N, without them. For any commands and lists of any length. |
| `H264Modify.UnfilledTakenIff` | lib/codecs/gsth264decoder.c:3193-3220 | A picture numbered -1, the value that stands for unfilled places, named while places are unfilled: the compacted tail is right if and only if the picture was not in it; otherwise the last picture of the tail is left behind. |
| `H264Modify.ModifiedIsWantedIff` | lib/codecs/gsth264decoder.c:3117-3272 | Over every list of commands: the list is named first, rest in order, after each of them if and only if none names a picture numbered -1 that stands behind those already named while a place is unfilled. |
| `H264Modify.UnfilledTakenForPicture` | lib/codecs/gsth264decoder.c:3117-3272 | A stored frame with the highest frame_num, current frame_num 0, a list of any length with room for more: one command names the frame, and the modification leaves it in the list twice. |
| `H264Modify.DecodedInWindow` | lib/codecs/gsth264decoder.c:3174-3199 | Decoded picture numbers lie in (CurrPicNum - MaxPicNum, CurrPicNum]. |
| `H264Modify.ReadInvertsEncode` | lib/codecs/gsth264decoder.c:3166-3234 | Reading back an encoder's differences names exactly the pictures it meant, for any sequence of them. |
| `H264RefLists.ConstructP` | lib/codecs/gsth264decoder.c:2606-2652 | P list: short-term by falling picture number, then long-term by rising number, and nothing else. |
| `H264RefLists.Rotated` | lib/codecs/gsth264decoder.c:2838-2927 | The short-term part of list 1 is that of list 0 rotated at the split. |
| `H264RefLists.ConstructB` | lib/codecs/gsth264decoder.c:2838-2927 | B lists: order around the current picture, long-term last, both permutations of the references, and two equal lists of more than one entry end up different. |
| `H264Fields.InitPictureRefsFields1` | lib/codecs/gsth264decoder.c:2662-2689 | The two-cursor loop terminates and computes the alternation of the two parities. |
| `H264Fields.AlternateAt` | lib/codecs/gsth264decoder.c:2662-2689 | The k-th field of either parity stands at 2k and 2k + 1 while both last. |
| `H264Fields.AlternateRest` | lib/codecs/gsth264decoder.c:2662-2689 | The leftover run follows unchanged. |
| `H264Fields.AlternateKeepsParities` | lib/codecs/gsth264decoder.c:2662-2689 | Each parity keeps its order. |
| `H264Fields.AlternatePermutes` | lib/codecs/gsth264decoder.c:2662-2689 | Nothing is lost or repeated. |
| `H265Dpb.Dpb.Add` | lib/codecs/gsth265picture.c:205-233 | An output picture ages every waiting one and waits itself; any picture is stored as a short-term reference; the counter stays exact. |
| `H265Dpb.Dpb.DeleteUnused` | lib/codecs/gsth265picture.c:241-262 | Deletion in place leaves exactly the pictures in use, in order, and no reference is lost. |
| `H265Dpb.Dpb.MarkAllNonRef` | lib/codecs/gsth265picture.c:292-306 | Every picture stops being a reference. |
| `H265Dpb.Dpb.GetRefByPoc` | lib/codecs/gsth265picture.c:316-336 | The first reference with that order count, or null. |
| `H265Dpb.Dpb.GetRefByPocLsb` | lib/codecs/gsth265picture.c:345-365 | The first reference with those low bits, or null. |
| `H265Dpb.Dpb.GetShortRefByPoc` | lib/codecs/gsth265picture.c:374-394 | The first short-term reference with that order count, or null. |
| `H265Dpb.Dpb.CheckLatencyCount` | lib/codecs/gsth265picture.c:483-500 | Whether some waiting picture has reached the latency limit. |
| `H265Dpb.Dpb.NeedsBump` | lib/codecs/gsth265picture.c:514-553 | The four guards of C.5.2.2 and C.5.2.3, zero switching one off. |
| `H265Dpb.Dpb.GetLowestOutputNeededPicture` | lib/codecs/gsth265picture.c:555-595 | The waiting picture first in output order, or -1. |
| `H265Dpb.Dpb.Bump` | lib/codecs/gsth265picture.c:604-627 | That picture stops waiting and leaves unless it is still a reference; null exactly when nothing waits; no reference is lost. |
| `H265Decoder.Decoder.DrainOutputQueue` | lib/codecs/gsth265decoder.c:328-346 | Delivery keeps the order and stops at the given queue length. |
| `H265Decoder.Decoder.DoOutputPicture` | lib/codecs/gsth265decoder.c:1583-1626 | Delivered followed by queued is always the emission sequence. |
| `H265Decoder.Decoder.BumpWhileNeeded` | lib/codecs/gsth265decoder.c:1701-1716 | The loop of C.5.2.2 and C.5.2.3 terminates, computes the bumping of the model and loses no reference. |
| `H265Decoder.Decoder.DrainInternal` | lib/codecs/gsth265decoder.c:1653-1669 | Everything waiting is emitted in order, everything emitted is delivered. |
| `H265Decoder.Decoder.ClearDpb` | lib/codecs/gsth265decoder.c:1628-1651 | What waits in the buffer, in output order, and what is still queued is thrown away; nothing that was delivered is taken back. |
| `H265Decoder.Decoder.ClearRefPicSets` | lib/codecs/gsth265decoder.c:1351-1363 | All five set arrays hold nothing. |
| `H265Decoder.Decoder.HasEntryInRps` | lib/codecs/gsth265decoder.c:1335-1349 | Whether a set holds a picture of that order count. |
| `H265Decoder.Decoder.FillRefPicSets` | lib/codecs/gsth265decoder.c:1374-1426 | The five arrays hold the sets of 8.3.2, long-term entries looked up and marked first. |
| `H265Decoder.Decoder.UnmarkUnnamed` | lib/codecs/gsth265decoder.c:1428-1448 | Exactly the pictures that no set names lose their mark. |
| `H265Decoder.Decoder.DeriveAndMarkRps` | lib/codecs/gsth265decoder.c:1365-1451 | Lookup and marking together compute `Mark`. |
| `H265Decoder.Decoder.DpbInit` | lib/codecs/gsth265decoder.c:1672-1720 | C.5.2.2: removal, output or discarding before decoding. |
| `H265Decoder.Decoder.StartPicture` | lib/codecs/gsth265decoder.c:1722-1766 | The state before decoding; the five arrays hold the sets derived from the buffer as it was, and every picture in a set array is still stored and still a reference. |
| `H265Decoder.Decoder.FinishPicture` | lib/codecs/gsth265decoder.c:1769-1813 | C.5.2.3: storage and the additional bumping. |
| `H265Marking.MarkKeepsNamedPocs` | lib/codecs/gsth265decoder.c:1428-1448 | Without assumptions: a picture stays a reference exactly when it was one and a named picture has its order count. |
| `H265Marking.MarkIsExact` | lib/codecs/gsth265decoder.c:1365-1451 | With distinct order counts: a picture is a reference afterwards if and only if it was placed in one of the five sets. |
| `H265Marking.SetsMatchMarks` | lib/codecs/gsth265decoder.c:1365-1451 | No picture is in a long-term and a short-term set, and the marks agree with the sets. |
| `H265Marking.MarkIsOneWay` | lib/codecs/gsth265decoder.c:1365-1451 | Marking never moves a picture back from long-term to short-term or from unused to used. |
| `H265Marking.MarkBoundsReferences` | lib/codecs/gsth265decoder.c:1365-1451 | At most as many references are left as the set has entries. |
| `H265Marking.SetsFoundOnce` | lib/codecs/gsth265decoder.c:1374-1426 | A header that names no picture twice finds no picture twice, when stored pictures keep their low bits. |
| `H265Lookup.LookupIsExact` | lib/codecs/gsth265decoder.c:1374-1411 | With distinct order counts and kept low bits: a picture is in a long-term set if and only if some entry means it, by its full order count when the msb is sent and by the low bits otherwise, and in a short-term set if and only if it is a short-term reference of a listed count that no long-term entry has taken. |
| `H265RefPicSet.PocSets.PrepareRps` | lib/codecs/gsth265decoder.c:1453-1581 | The arrays and counts of order counts, from the slice header, as equation 8-5 gives them. |
| `H265RefPicSet.PreparedShape` | lib/codecs/gsth265decoder.c:1503-1537 | The set has as many entries as the header names, and its current part splits before and after the picture. |
| `H265RefPicSet.EntryIsExact` | lib/codecs/gsth265decoder.c:1539-1564 | A long-term order count is recovered if and only if its accumulated cycle is its distance in whole periods. |
| `H265RefPicSet.LongTermRoundTrip` | lib/codecs/gsth265decoder.c:1539-1564 | An encoder's differential cycles give every long-term order count back. |
| `H265Lookup.ChosenIsExact` | lib/codecs/gsth265decoder.c:1502-1564 | The entries picked by a flag: all of them, each once, in order. |
| `H265Lookup.PreparedIsExact` | lib/codecs/gsth265decoder.c:1502-1564 | Every header entry lands in the set of its kind and its flag, in header order, and nothing else does; all five sets. |
| `H265Lookup.PlanArrives` | lib/codecs/gsth265decoder.c:1364-1411 | What an encoder chooses arrives: the five sets hold exactly the chosen pictures, each in the set of its kind and flag, in the order chosen. |
| `H265Plan.PlanMarks` | lib/codecs/gsth265decoder.c:1412-1438 | Afterwards the references are exactly the chosen pictures, long-term those chosen for long-term entries. |
| `H265Plan.StartFromHeader` | lib/codecs/gsth265decoder.c:1464-1588 | Preparing the header and starting the picture leaves exactly the chosen picture objects in exactly those arrays. |
| `H265RefLists.FillTemp` | lib/codecs/gsth265decoder.c:529-544 | The loop terminates and lays the three sets end to end, round and round, to the length asked for. |
| `H265RefLists.ProcessRefPicLists` | lib/codecs/gsth265decoder.c:493-611 | Lists 0 and 1, with or without modification; both stay empty for I slices and when no current reference exists. |
| `H265RefLists.UnmodifiedList` | lib/codecs/gsth265decoder.c:524-558 | A list long enough names every current reference, in order, and repeats with their number. |
| `H265RefLists.AnyListArrives` | lib/codecs/gsth265decoder.c:560-611 | With modification any list of current references can be sent and is what is built. |
| `H265RefLists.ListsSwapDirections` | lib/codecs/gsth265decoder.c:524-611 | List 1 exchanges the two short-term stretches and keeps the long-term one. |
| `H265Run.RunConserves` | lib/codecs/gsth265decoder.c:1769-1813 | Every finished output picture is emitted, waiting or discarded, over every run. |
| `H265Run.ClearLeavesNothing` | lib/codecs/gsth265decoder.c:1682-1699 | On a picture that clears the buffer nothing is left, so the warning about leftover pictures is unreachable; no assumption, since the flags that clear also unmark. |
| `H265Run.RunKeepsCapacity` | lib/codecs/gsth265decoder.c:1672-1720 | Over every admissible run the buffer holds at most max_dec_pic_buffering_minus1 + 1 pictures with distinct order counts. |
| `H265Run.RunKeepsLowBits` | lib/codecs/gsth265decoder.c:1186-1255 | Every stored picture keeps the low bits of its own order count, over every run. |
| `H265Run.LatencyGuarantee` | lib/codecs/gsth265picture.c:205-233 | A waiting picture's latency count is the number of output pictures after it, it never reaches the limit after a finished picture, and the waiting ones respect the reorder limit. |
| `H265Run.RunIsOneWay` | lib/codecs/gsth265decoder.c:1365-1451 | Between any two moments of a run a stored picture only moves from short-term to long-term to unused. |
| `H265Run.LastIsStored` | lib/codecs/gsth265picture.c:206-240 | After every run the picture decoded last is stored as a short-term reference, for output or not. |
| `H265Order.NoLateArrival` | lib/codecs/gsth265picture.c:531-536 | A picture that respects the reorder bound cannot arrive after a later one was output. |
| `H265Order.OutputOrder` | lib/codecs/gsth265decoder.c:1769-1813 | From any state with an empty buffer through the drain the emitted order counts strictly increase and are exactly those of the output pictures, when only the reorder rule bumps. |
| `H265Order.SequenceInOrder` | lib/codecs/gsth265decoder.c:1682-1699 | For any coded video sequence between two clearing pictures of a run: its pictures leave in strictly increasing order, all of them unless the next picture discards them. |
| `H265Nal.NalReader.ParseSlice` | lib/codecs/gsth265decoder.c:728-790 | NoRaslOutputFlag and the clearing flags of a slice, from its type and what the decoder remembers. |
| `H265Nal.NalReader.ParseNalu` | lib/codecs/gsth265decoder.c:793-868 | One NAL unit: what is remembered afterwards, and the picture it begins unless that is a dropped RASL picture. |
| `H265Nal.NewBitstreamMeaning` | lib/codecs/gsth265decoder.c:850-857 | Over every stream of NAL units: `new_bitstream` is set exactly when nothing but the stream's start or an end of bitstream lies behind the last slice. |
| `H265Rasl.TypeTable` | lib/codecs/gsth265decoder.c:744-768 | Which NAL unit types count as RASL, BLA, IDR, CRA and IRAP, and which are decoded, by number. |
| `H265Rasl.EosMeaning` | lib/codecs/gsth265decoder.c:846-849 | `prev_nal_is_eos` is set exactly when an end of sequence stands behind the last slice. |
| `H265Rasl.StartsSequenceMeaning` | lib/codecs/gsth265decoder.c:753-764 | NoRaslOutputFlag by position: IDR, BLA, CRA at the start of a bitstream, or anything behind an end of sequence. |
| `H265Rasl.LastIrapMeaning` | lib/codecs/gsth265decoder.c:1139-1148 | The flag kept for RASL pictures says whether the last IRAP picture of the stream started a coded video sequence. |
| `H265Rasl.RaslDropped` | lib/codecs/gsth265decoder.c:1734-1743 | Over every stream: a slice that begins a picture yields none if and only if it is RASL and the last IRAP picture started a coded video sequence; otherwise exactly the picture of its header. |
| `H265Rasl.IrapFlushes` | lib/codecs/gsth265decoder.c:1680-1702 | Over every stream, at an IRAP picture that starts a sequence: behind an end of bitstream nothing is discarded; elsewhere the buffer is emptied, and what waited is discarded for a CRA picture or by the header flag, and output otherwise, counted by any property. |
| `H265Nal.IrapFinds` | lib/codecs/gsth265decoder.c:1682-1716 | How many pictures an IRAP picture with NoRaslOutputFlag finds stored: none, unless the bitstream restarted; then the waiting ones, as many as fit beside it. |
| `H265Nal.IrapFindsNothing` | lib/codecs/gsth265decoder.c:1682-1716 | Over every stream: such a picture starts on an empty buffer if and only if the bitstream did not restart before it, or nothing was waiting, or the buffer is for one picture only. |
| `H265Nal.BitstreamsMeet` | lib/codecs/gsth265decoder.c:770-778 | IDR, end of bitstream, IDR: the old picture is still stored beside the new one, and their order counts collide; with an end of sequence instead the buffer is empty. |
| `H265Restart.DistinctIsAdmissible` | lib/codecs/gsth265decoder.c:1672-1720 | A stream whose sequences have distinct order counts, and restart over no waiting pictures, reuses no stored order count: it keeps the capacity. |
| `H265Restart.StreamKeepsDistinct` | lib/codecs/gsth265decoder.c:1672-1720 | Over every stream of NAL units whose sequences have distinct order counts: the stored order counts are distinct, if no bitstream restarts over waiting pictures. |
| `H265Restart.RestartOvertakesIff` | lib/codecs/gsth265decoder.c:1769-1813 | Over every stream of NAL units, at an IRAP picture that restarts the bitstream: when its round outputs anything, it is first, before all that wait from the bitstream that ended, if and only if the waiting pictures of its order count or below are no more than had to make room for it. |
| `H265Restart.BumpingTakesLowest` | lib/codecs/gsth265picture.c:604-625 | A round that outputs waiting pictures takes those of lowest order count: how many up to any given count are left. |
| `H265Restart.RestartOvertakes` | lib/codecs/gsth265decoder.c:770-778 | IDR, a picture, end of bitstream, IDR: the second IDR picture is output while the picture before it waits. |
| `H265Poc.PocState.CalculatePoc` | lib/codecs/gsth265decoder.c:1186-1255 | The order count of one picture and the anchor it leaves. |
| `H265Poc.AnchorIsLast` | lib/codecs/gsth265decoder.c:1249-1254 | The anchor is the last picture of the lowest sub-layer that is neither leading nor a sub-layer non-reference picture, by type numbers, or an IDR picture, which counts zero. |
| `H265Poc.DecodeStream` | lib/codecs/gsth265decoder.c:1186-1255 | A whole stream is reconstructed from low bits if and only if every picture stays within half a period of its anchor. |
| `H265Vulkan.PictureData.FillRefPics` | lib/plugins/gstvkh265dec.cpp:762-785 | The table lists exactly the reference pictures with their data, in buffer order; it fails exactly when they are more than fit. |
| `H265Vulkan.PictureData.FillIndices` | lib/plugins/gstvkh265dec.cpp:787-834 | The i-th index selects exactly the i-th non-null picture of the set, for as many entries as there are references; every other index stays what it was. |
| `H265Vulkan.PictureData.ExportReferences` | lib/plugins/gstvkh265dec.cpp:710-834 | From zeroed tables, for whatever sets are in force: a table agrees with its set if and only if the set fits it and every entry beyond the number of references is the first reference. |
| `H265Vulkan.PictureData.StartAndExport` | lib/plugins/gstvkh265dec.cpp:710-834 | From the slice header alone: if it names no picture twice, at most eight in each current set, all three tables agree with the decoder's sets; at most sixteen entries never fail. |
| `H265Vulkan.PictureData.RepeatedEntryIsLost` | lib/plugins/gstvkh265dec.cpp:820-834 | Three pictures of a new decoder, the third naming the second three times: the third index is never written and selects the other picture. |
| `FrameRate.Reduce` | lib/plugins/videoutils.c:24-34 | One round divides both parts by 2, 3 or 5, rounding up, and makes progress. |
| `FrameRate.PackFrameRate` | lib/plugins/videoutils.c:20-37 | The loop terminates; the parts fit their 18 and 14 bits and are the inputs divided by one number 2^a 3^b 5^c, rounded up, unless the 32-bit addition wraps; then the part at the top of the range is zero. |
| `FrameRate.Unpack` | lib/plugins/videoutils.c:36-36 | Unpacking gives both parts back. |
| `FrameRate.ShiftOrIsSum` | lib/plugins/videoutils.c:36-36 | The shift and or of the packing macro on 32-bit words. |
| `FrameRate.WrappedIsUnfaithful` | lib/plugins/videoutils.c:31-32 | When the addition wraps no divisor explains the result. |
| `FrameRate.RatioError` | lib/plugins/videoutils.c:20-37 | The cross products of input and result differ by less than one input on either side. |

## Left out

- H264Decoder.Decoder.FinishPicture: sequences of frames only; field pairs, `split_frame` and the pairing of fields on output are not modelled.
- H264Capacity.ConformingRunFits: one direction; a stream may exceed num_ref_frames and still fit a larger buffer, and `RunFits` has the exact condition.
- H264FrameNum.GapKeepsNewest: assumes, as the numbering does, that the short-term references stay less than MaxFrameNum behind through the gap; `RunKeepsNewest` and `H264Refill.SecondFill` need no such assumption.
- H264Window.RunKeepsNewest: num_ref_frames below MaxFrameNum and within the buffer, sliding-window marking; which frames stay under adaptive marking is the stream's choice.
- H264OrderLimits.KeepsOrderIff: num_ref_frames within the buffer; which single streams the low latency modes put in order is said by `H264Order.SequenceInOrder` and `TimelyIsNeeded`, frame by frame, and not by a condition on the limits.
- H265Restart.RestartOvertakesIff: identities in the buffer differ from the new picture's, as system frame numbers do.
- H264DpbSpec.NextCountIff: takes the 32-bit subtraction to wrap, as it does in two's complement.
- H264LongTerm.RunKeepsIndices: operation 6 last and indices within the maximum are conditions on the stream, which the decoder does not check.
- H264Adaptive.WishesAreGranted: short-term picture numbers differ, as the numbering of a conforming stream makes them; what an operation does to one of two frames with one number is not stated.
- H264Modify.ModifyRefPicList: a long-term picture named while a place behind it is unfilled is not modelled: the program reads the number of an unfilled place there (`Readable`).
- H264RefLists.ConstructB: short-term references with distinct order counts; how the program's sort orders equal ones is not modelled.
- H264Poc.DecodeType0: order counts as mathematical integers; overflow of 32-bit arithmetic when order counts are computed is not modelled.
- H265Order.OutputOrder: sequences in which neither fullness nor latency forces an output.
- H265RefLists.ProcessRefPicLists: without the screen content extension's current picture reference.
- H265Plan.StartFromHeader: order counts in the buffer are distinct and the slice is no IRAP picture that unmarks everything; `H265Restart.StreamKeepsDistinct` gives the streams.
- H265Vulkan.PictureData.ExportReferences: order counts in the buffer are distinct (`H265Restart.StreamKeepsDistinct`), and no set has more than eight pictures unless there are at most eight references, since an index table has eight places.
- Failing codec frame lookups, `end_picture` failures, flow returns and warnings: the model takes every lookup and every subclass call to succeed. The warning about out-of-order output is not modelled.
- Changes of the sequence parameter set inside a run (`process_sps`), including that the latency limit of H.265 is not reset when a later set leaves it out; the limits are fixed parameters of a run.
- Flushing and seeking, which empty the buffer and the queue from outside.
- Parsing: slice headers, parameter sets and the contents of NAL units are inputs. The order count of an inferred frame is an input too.
- H.264 slice group maps, field lists for B slices beyond the shared interleaving loop, and the H.264 Vulkan table.
- GStreamer objects, reference counts, caps, pads and the codec frame table.
- `lib/demuxeres`, `lib/harness`, `lib/vkvideoparser` and the Vulkan and Std headers.
