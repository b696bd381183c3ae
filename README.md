# Frame transforms of a raw video library, modelled in Dafny

The library processes raw videos. A video file is an 11-byte header followed by its frames:
- The header holds a little-endian signed 64-bit frame count, then one byte each for the number of channels, the height and the width.
- Each frame holds `channels` planes of `height * width` bytes, one plane after the other.

The driver reads the header, copies it to the output file, and calls one transform. The transform gets the two open files, with the input positioned just behind the header.

This project models the transforms themselves:
- reversing the frame order, in three variants;
- exchanging two channels, in three variants;
- clipping one channel to a range, in three variants;
- scaling one channel by a factor, in three variants;
- keeping one frame in N ("speed up");
- cropping every frame to a centred window of a target aspect ratio.

Each variant is modelled as the code is written: its buffers and loops are Dafny arrays and `while` loops, with their invariants. Its reads, writes and seeks go to two small classes:
- `Streams.Reader` is the input file: its bytes and a position.
- `Streams.Writer` is the output file: append-only, with a size limit beyond which an `fwrite` comes up short.

Each transform is proved against a specification function of the input payload:
- `Sequences.MapPayload`: every frame through a per-frame `Kernels.Kernel`.
- `Sequences.ReverseOutput`: the frames in reverse order.
- `FastForward.KeptFrames`: every k-th frame.

The predicate `Streaming.Streamed` states how a transform ends:
- The output file holds the header followed by the longest prefix of that specification that fits.
- The transform ends normally exactly when every frame was there and every byte fit; otherwise it ends with a fatal I/O failure.
- A rejected parameter (a channel index the frames do not have, a speed factor of 1 or less, an aspect ratio that is not positive) leaves both files untouched.

The frame-by-frame loops share two predicates:
- `Streaming.Progress` is their invariant: after `i` frames the input position is behind frame `i` and the output holds the specification for `i` frames.
- `Streaming.Stepped` is what one pass through the loop promises: one frame further, or the end as `Streamed` says. Each pass is its own method (`Channels.ClipFrame` and its siblings).

Properties proved about the specifications:
- Reversing twice gives the input back, and frame `k` of the reversed output is input frame `n - 1 - k`.
- Swapping the same two planes twice gives the input back, and swapping a plane with itself changes nothing.
- The lookup-table variants of clip and scale agree with the direct ones whenever the clip bounds are ordered, and differ as shown when they are not.
- Clipping is idempotent exactly when `lo <= hi`.
- The frames kept by speed up are frames `0, k, 2k, …`, and there are `ceil(n / k)` of them.
- The crop window lies inside the frame, has the target ratio up to truncation, and is centred. Each pixel of the cropped frame is the original pixel at the offset position.

Reading the code closely turned up one defect: speed up records `n / k` in its header, but writes `ceil(n / k)` frames (see "## Findings"). `FastForward.SpeedUp` models the code as written and proves that its file is self-consistent exactly when `k` divides `n`. `FastForward.SpeedUpCorrected` is the same transform with the count rounded up; its file is always self-consistent.

## Model

| member | source | states |
|---|---|---|
| Layout.HeaderRoundTrip | film_library.h:6-13 | decoding the 11-byte encoding of a header (64-bit count, channels, height, width, packed) gives the header back |
| Layout.ConsistentIff | film_library.h:6-13 | a file whose header announces `n >= 0` frames is self-consistent exactly when its payload is exactly `n` frames long |
| Streams.Chunk | film_library.c:30-35 | an `fread` of `n` bytes delivers all `n` exactly when the file holds them past the position, and otherwise what remains |
| Streams.ReadFrame | film_library.c:124-130 | a whole read at frame `i`'s place is frame `i` of the payload; a short one means the payload holds exactly `i` whole frames |
| Streams.ReadBatch | film_library.c:172-177 | a whole read of frames `done .. done+b-1` is those frames; a short one means the payload holds between `done` and `done+b-1` whole frames |
| Streams.Reader.Read | film_library.c:30-35 | `fread` copies what the file holds of the next `n` bytes into the buffer, returns their number and advances past them |
| Streams.Reader.ReadFrames | film_library.c:172-177 | a whole read leaves the requested frames of the payload in the buffer; a short read bounds the number of frames the payload holds |
| Streams.Reader.Seek | film_library.c:124 | `fseek` sets the position |
| Streams.Writer.Write | film_library.c:47-52 | `fwrite` appends the bytes that fit under the file's limit and returns how many; the file never grows beyond the limit |
| Streams.Writer.Rewrite | film_library_plus.c:36-37 | rewinding the output and writing a new header over the copied one replaces it whole |
| Streams.Load | film_library.c:98-101 | `memcpy` out of the memory-mapped input puts the source range into the buffer and changes nothing else |
| Streams.Copy | film_library.c:41-43 | `memcpy` between buffers puts the source range at the destination and changes nothing else |
| Kernels.ClampMaxFirst | film_library.c:346-354 | for `lo <= hi` the clip lies in `[lo, hi]` and keeps in-range bytes; for `hi < lo` it gives `hi` above `hi` and `lo` otherwise |
| Kernels.ClampMinFirst | film_library.c:405-421 | the table's clip tests `< lo` first: it lies in `[lo, hi]` when `lo <= hi`, and for `hi < lo` gives `lo` below `lo` and `hi` otherwise |
| Kernels.ScaleByte | film_library.c:517-527 | a product above 255 gives 255, one below 0 gives 0, and one in range gives its truncation |
| Kernels.FloorByte | film_library.c:525 | the cast of a product in `[0, 255]` to a byte is its floor |
| Kernels.ClampVariantsAgree | film_library.c:405-421 | with ordered bounds the lookup clip and the direct clip give the same byte |
| Kernels.ClampVariantsDisagree | film_library.c:405-421 | with `hi < v < lo` the lookup clip gives `lo` where the direct clip gives `hi` |
| Kernels.ScaleVariantsAgree | film_library.c:571-584 | clamping the product first and then truncating (the table) gives the byte the direct scale gives |
| Kernels.ClampIdempotentIff | film_library.c:346-354 | clipping twice equals clipping once for every byte exactly when `lo <= hi` |
| Kernels.SwapAtEffect | film_library.c:187-191 | after exchanging two blocks, each block holds the other's old bytes and every other byte is unchanged |
| Kernels.SwapAtIsPatches | film_library.c:250-252 | exchanging two blocks byte by byte equals the three `memcpy`s through a temporary block |
| Kernels.SwapAtTwice | film_library.c:187-191 | exchanging the same two blocks twice restores the buffer |
| Kernels.SwapAtSelf | film_library.c:187-191 | exchanging a block with itself changes nothing |
| Kernels.MapAtEffect | film_library.c:346-354 | mapping a block changes each of its bytes by the operation and leaves every other byte unchanged |
| Kernels.MapAtWindow | film_library.c:628-643 | mapping a block in place equals copying it out, mapping the copy and copying it back |
| Kernels.MapAtAgree | film_library.c:405-421 | two per-byte operations that agree on every byte map every block alike |
| Kernels.MapAtClampTwice | film_library.c:346-354 | clipping a block twice with ordered bounds equals clipping it once |
| Kernels.CropPlanePixel | film_library_plus.c:150-156 | pixel `(row, col)` of the cropped plane is pixel `(row + top, col + left)` of the original plane |
| Kernels.CropFramePlane | film_library_plus.c:144-149 | plane `ch` of the cropped frame is the crop of plane `ch` of the original |
| Kernels.CropPixel | film_library_plus.c:144-157 | pixel `(row, col)` of plane `ch` of the cropped frame is pixel `(row + top, col + left)` of plane `ch` of the original |
| Kernels.SwapPlanesEffect | film_library.c:181-192 | after the swap, plane `a` holds the old plane `b`, plane `b` the old plane `a`, and every other byte is unchanged |
| Kernels.SwapPlanesTwice | film_library.c:181-192 | swapping the same two planes twice restores the frame |
| Kernels.SwapPlanesSelf | film_library.c:181-192 | swapping a plane with itself leaves the frame unchanged |
| Kernels.ClipPlaneTwice | film_library.c:346-354 | clipping a plane twice with ordered bounds equals clipping it once |
| Kernels.ClipLookupAgrees | film_library.c:405-421 | with ordered bounds the lookup-table clip of a frame equals the direct clip |
| Kernels.ScaleLookupAgrees | film_library.c:571-584 | the lookup-table scale of a frame equals the direct scale |
| Sequences.MapFramesAppend | film_library.c:164-202 | mapping distributes over the concatenation of frame sequences, so batches can be mapped separately |
| Sequences.MapPayloadStep | film_library.c:337-363 | the output for `n + 1` frames is the output for `n` frames followed by the transform of frame `n` |
| Sequences.MapPayloadLength | film_library.c:337-363 | the output for `n` frames holds `n` frames of the output size |
| Sequences.MapPayloadPrefix | film_library.c:337-363 | the output for fewer frames is a prefix of the output for more |
| Sequences.MappedUpToDone | film_library.c:244-253 | once every frame in the buffer was transformed in place, the buffer holds the mapped frames |
| Sequences.SwapFramesTwice | film_library.c:143-205 | swapping two channels of every frame twice restores the frames |
| Sequences.ClipLookupFramesAgree | film_library.c:368-434 | with ordered bounds the lookup-table clip of a video equals the direct clip |
| Sequences.ScaleLookupFramesAgree | film_library.c:540-595 | the lookup-table scale of a video equals the direct scale |
| Sequences.ClipFramesTwice | film_library.c:319-366 | clipping a video twice with ordered bounds equals clipping it once |
| Sequences.ReverseInvolution | film_library.c:38-44 | reversing twice restores the frame sequence |
| Sequences.ReversedMiddle | film_library.c:38-44 | with an odd number of frames, the middle frame keeps its place |
| Sequences.ReversedPrefix | film_library.c:122-137 | the first `i + 1` reversed frames are the first `i` followed by input frame `n - 1 - i` |
| Sequences.PartlyReversedStep | film_library.c:38-44 | exchange `i + 1` swaps frame `i` with frame `n - 1 - i` of the sequence after `i` exchanges |
| Sequences.PartlyReversedDone | film_library.c:38-44 | after `n / 2` exchanges the sequence is reversed |
| Sequences.ReverseOutputFrame | film_library.c:17-56 | frame `k` of the reversed payload is input frame `n - 1 - k` |
| Sequences.DecimatedStep | film_library_plus.c:47 | frame `i` is kept exactly when `i % k == 0` |
| Sequences.KeptCountIsCeiling | film_library_plus.c:47 | the number of frames `i < n` with `i % k == 0` is `ceil(n / k)` |
| Sequences.DecimatedFrame | film_library_plus.c:47 | kept frame `j` is input frame `j * k` |
| Sequences.DecimatedCountMatchesHeader | film_library_plus.c:24 | the header's count `n / k` equals the number of kept frames exactly when `k` divides `n` |
| Sequences.DecimatedPrefix | film_library_plus.c:39-55 | the frames kept from a prefix of the video are a prefix of those kept from all of it |
| Streaming.Finished | film_library.c:47-52 | a transform that had every frame and wrote every byte ends normally |
| Streaming.ShortRead | film_library.c:30-35 | a transform that reads too few frames ends with an I/O failure |
| Streaming.ShortWrite | film_library.c:47-52 | a transform whose write comes up short ends with an I/O failure, and the file holds what fit |
| Streaming.FrameWritten | film_library.c:356-362 | after frame `i` is written, the file holds the output for `i + 1` frames, or the transform has ended as `Streamed` says |
| Streaming.AllFramesWritten | film_library.c:337-363 | after the last frame is written the transform ends as `Streamed` says |
| Streaming.FrameMissing | film_library.c:337-343 | a short read of frame `i` ends the transform as `Streamed` says, with `i` frames written |
| Streaming.MissingStep | film_library.c:339-343 | a short read ends a step of a transform: the payload holds exactly the frames already written, and the transform ends as `Streamed` says |
| Streaming.ReadNextFrame | film_library.c:338-343 | a whole read leaves frame `i` of the payload in the buffer and the position behind it; a short read means the payload holds exactly `i` whole frames |
| Streaming.WriteNextFrame | film_library.c:357-362 | writing the transformed frame `i` leaves the file holding the output for `i + 1` frames, or ends the transform as `Streamed` says |
| InPlace.SwapPixels | film_library.c:301-305 | exchanging two blocks byte by byte through a temporary byte gives `SwapAt` of the old buffer |
| InPlace.SwapViaTemp | film_library.c:250-252 | exchanging two blocks with three `memcpy`s through a temporary buffer gives `SwapAt` of the old buffer |
| InPlace.ClampPixels | film_library.c:346-354 | the clip loop leaves the block clipped by the direct clip and every other byte unchanged |
| InPlace.ScalePixels | film_library.c:517-527 | the scale loop leaves the block scaled by the direct scale and every other byte unchanged |
| InPlace.ScaleViaCopy | film_library.c:628-643 | copying the plane out, scaling the copy and copying it back leaves the plane scaled in the frame |
| InPlace.LookupTable.constructor | film_library.c:387-389 | a new table has no entry ready |
| InPlace.LookupTable.MapPixels | film_library.c:405-421 | the block is mapped by the table's operation; every ready entry holds the operation's result; an entry is ready exactly when it was ready before or its byte occurred in the block |
| InPlace.CropCopy | film_library_plus.c:150-156 | after the row loops, the cropped plane's buffer holds the crop of the original plane |
| InPlace.CropPlaneInto | film_library_plus.c:150-156 | the row and column loops fill the output plane with the crop of the input plane |
| InPlace.CropInto | film_library_plus.c:144-157 | the channel loop fills the output buffer with the cropped frame |
| Buffers.FramesSwapPlanes | film_library.c:181-192 | exchanging two planes of frame `f` in a buffer of frames transforms that frame and no other |
| Buffers.BatchDone | film_library.c:164-202 | a batch buffer whose frames were all transformed continues the output by the transform of that batch |
| Channels.ClipChannel | film_library.c:319-366 | rejects a missing channel and touches nothing; otherwise the file ends as `Streamed` says, for the direct clip of plane `c` of every frame read |
| Channels.ClipFrame | film_library.c:338-362 | one frame is read, its plane `c` clipped directly and written: the transform is one frame further, or has ended as `Streamed` says |
| Channels.ClipChannelFast | film_library.c:368-434 | rejects a missing channel; otherwise the file ends as `Streamed` says, for the lookup-table clip of plane `c` |
| Channels.ClipFrameFast | film_library.c:393-429 | one frame is read, its plane `c` clipped through the table and written; the table keeps only correct entries, and the transform is one frame further or has ended as `Streamed` says |
| Channels.ScaleChannel | film_library.c:486-538 | rejects a missing channel; otherwise the file ends as `Streamed` says, for the direct scale of plane `c` |
| Channels.ScaleFrame | film_library.c:505-534 | one frame is read, its plane `c` scaled directly and written: the transform is one frame further, or has ended as `Streamed` says |
| Channels.ScaleChannelFast | film_library.c:540-595 | rejects a missing channel; otherwise the file ends as `Streamed` says, for the lookup-table scale of plane `c` |
| Channels.ScaleFrameFast | film_library.c:563-591 | one frame is read, its plane `c` scaled through the table and written; the table keeps only correct entries, and the transform is one frame further or has ended as `Streamed` says |
| Channels.ScaleChannelSmall | film_library.c:597-657 | rejects a missing channel; otherwise the file ends as `Streamed` says, for the direct scale of plane `c`, computed in a plane-sized copy |
| Channels.ScaleFrameSmall | film_library.c:620-652 | one frame is read, its plane `c` scaled in a plane-sized copy and written back: the transform is one frame further, or has ended as `Streamed` says |
| Channels.SwapChannelSmall | film_library.c:270-316 | rejects a missing channel; otherwise the file ends as `Streamed` says, for the exchange of planes `ch1` and `ch2` of every frame read |
| Channels.SwapFrameSmall | film_library.c:290-313 | one frame is read, its planes `ch1` and `ch2` exchanged and written: the transform is one frame further, or has ended as `Streamed` says |
| Channels.SwapChannelFast | film_library.c:207-268 | rejects a missing channel; otherwise, when the payload holds all `n` frames, the file ends with all of them swapped; a short read writes nothing and fails |
| Channels.SwapChannel | film_library.c:143-205 | rejects a missing channel; otherwise the file ends as `Streamed` says, for the swapped frames of the batches read whole |
| Channels.SwapBatch | film_library.c:164-202 | one batch is read, swapped and written; either the file holds the batch behind the earlier frames, or the transform has ended as `swap_channel` does |
| Channels.SwapEachByPixel | film_library.c:180-191 | exchanging planes `ch1` and `ch2` byte by byte in each of the `count` frames of the batch buffer leaves their swap in it, continuing the output after the `done` frames before the batch |
| Channels.SwapEachViaTemp | film_library.c:243-252 | exchanging planes `ch1` and `ch2` with three `memcpy`s through the temporary plane in each of the `count` frames leaves their swap in the buffer, continuing the output after the `done` frames before them |
| Channels.WholeBatches | film_library.c:164-177 | all `n` frames are written when none is missing, and otherwise the whole 1024-frame batches before the missing frame |
| Channels.BatchedOutput | film_library.c:164-202 | what `swap_channel` writes is a prefix of the swap of every frame the payload holds |
| Channels.BatchMissing | film_library.c:172-177 | a short read of a batch ends the transform with the earlier batches written |
| Channels.BatchWritten | film_library.c:194-199 | after writing a batch, the file holds it behind the earlier frames, or the transform has ended as `Streamed` says |
| Reversal.Reverse | film_library.c:17-56 | the file ends as `Streamed` says, for the reversed payload: written whole when the payload held all `n` frames, and nothing after a short read |
| Reversal.ReverseFrames | film_library.c:38-44 | exchanging frames from both ends inward leaves the buffer holding the frames in reverse order |
| Reversal.ExchangeFrames | film_library.c:40-43 | one exchange through a temporary frame takes the buffer from `PartlyReversed(F, i)` to `PartlyReversed(F, i + 1)` |
| Reversal.ReverseFast | film_library.c:58-108 | the file receives the reversed payload up to its limit (the unchecked `fwrite` loses what does not fit) |
| Reversal.GatherBatch | film_library.c:98-101 | the write buffer holds frames `batchStart` down to `batchEnd` of the input, in that order |
| Reversal.WriteBatch | film_library.c:92-105 | after each batch the file holds the reversed frames so far, up to its limit |
| Reversal.ReverseSmall | film_library.c:110-140 | the file ends as `Streamed` says, for the reversed payload, written frame by frame from the last one |
| FastForward.KeptFrame | film_library_plus.c:47 | kept frame `j` is input frame `j * k` |
| FastForward.KeptFramesStep | film_library_plus.c:47-54 | frame `m` adds itself to the output exactly when `m % k == 0` |
| FastForward.SpeedUpHeader | film_library_plus.c:24-35 | the header the code writes keeps the geometry and records `n / k` rounded down, a count between 0 and `n` |
| FastForward.SpeedUp | film_library_plus.c:8-59 | rejects `k <= 1` and touches nothing; otherwise the file ends as `Streamed` says, for the header with count `n / k` followed by frames `0, k, 2k, …`; after a normal end the file is self-consistent exactly when `k` divides `n` |
| FastForward.SpeedUpCorrected | film_library_plus.c:8-59 | the same transform with the header count rounded up: the file ends as `Streamed` says, and a normal end always leaves a self-consistent file |
| FastForward.KeepFrames | film_library_plus.c:39-55 | behind the header, the file ends as `Streamed` says for frames `0, k, 2k, …` of the frames present; a normal end means all `n` frames were there and every kept one was written |
| FastForward.SpeedUpFrame | film_library_plus.c:40-54 | one pass reads frame `i`, and writes it when `i % k == 0`; otherwise reading fails or writing falls short as `Streamed` says |
| FastForward.SpeedUpHeaderMiscounts | film_library_plus.c:24 | the file speed up writes is self-consistent exactly when `k` divides `n` |
| FastForward.SpeedUpFiveByTwo | film_library_plus.c:24 | five frames at factor 2: the header says 2 frames, 3 frames follow, and the file is not self-consistent |
| FastForward.FastForwardCount | film_library_plus.c:47 | the corrected count equals the number of frames kept |
| FastForward.FastForwardHeader | film_library_plus.c:24-35 | the corrected header keeps the geometry and records the number of frames kept |
| FastForward.CorrectedHeaderConsistent | film_library_plus.c:24-37 | with the corrected header the output file is self-consistent for every `n` and `k` |
| Cropping.TargetDimensions | film_library_plus.c:86-94 | a frame wider than the ratio keeps its height and gets the truncated width `height * a / b`; otherwise it keeps its width and gets the truncated height `width * b / a`; neither exceeds the original |
| Cropping.CropOffsets | film_library_plus.c:110-111 | the window lies inside the frame and is centred: the margin before it is half of the spare rows or columns, rounded down |
| Cropping.CropKernel | film_library_plus.c:86-111 | the crop window of the target ratio fits the frame |
| Cropping.OwnRatioKeepsFrame | film_library_plus.c:86-111 | cropping a frame to its own ratio keeps the whole frame |
| Cropping.SixteenByNineToFourByThree | film_library_plus.c:86-111 | a 16x9 frame cropped to 4:3 becomes 12x9 at column offset 2 |
| Cropping.CropAspectRatio | film_library_plus.c:76-174 | rejects a non-positive ratio and touches nothing; otherwise the file ends as `Streamed` says, for the new header (same count, target dimensions) followed by every frame read, cropped to the centred window |
| Cropping.CropFrameStep | film_library_plus.c:132-168 | one pass reads frame `i`, crops it and writes it; the file holds the output so far, or the transform has ended as `Streamed` says |

## Left out

- The driver (`runme.c`) is not modelled. This covers argument parsing, opening the files, and reading and copying the header. Instead, each transform starts with the input positioned behind the header and the output holding what the driver wrote. Speed up and crop further require the output to hold exactly the 11-byte header.
- The string parsing of `parse_aspect_ratio` is not modelled. The ratio arrives as two integers `a:b`, and the check that both are positive is modelled as the rejection.
- Floating point is modelled idealised:
  - Scale factors are exact reals, and products are compared and truncated exactly.
  - The crop ratio comparison `width / height > a / b` is made on exact rationals, by cross-multiplying.
  - The float products `height * ratio` and `width / ratio` are integer divisions.
  - Rounding of float arithmetic is not modelled.
- The OpenMP `parallel for` pragmas are modelled as sequential loops. The frames each iteration touches are disjoint, so the result is the same.
- Allocation failures are not modelled; every buffer is allocated. The emergency exits on `malloc` failure are left out.
- The failure paths of `fileno`, `fstat` and `mmap` in `reverse_fast` are not modelled.
- Reversal.ReverseFast requires the input to hold all `n` frames. The source reads the mapped file past its end in that case, which is undefined behaviour.
- Frame counts are natural numbers. A negative count in a header is not modelled, and neither is overflow of the `size_t` or `int64_t` products of frame counts and frame sizes. The header codec itself is exact over the whole 64-bit range.
- The host is assumed little-endian. The packed header struct is read and written byte for byte.
- Diagnostics (`perror`, `printf`), exit codes and freeing buffers are not modelled. An `exit(1)` after a failed read or write is the I/O failure outcome. The `exit(1)` of `parse_aspect_ratio` on a ratio that is not positive is the rejected-parameter outcome instead, with both files untouched.
- `clip_channel_small` is the same code as `clip_channel`, so Channels.ClipChannel models both.
- The unused SSE include, the OpenMP setup and the Python visualiser tooling are not part of this model.
- The output file is modelled as append-only with a size limit, and a short write is a write that reaches that limit. Other causes of short writes are not distinguished.
- Streams.Writer.Rewrite models rewinding an output that holds exactly the copied header, followed by writing a new header of the same size. That write cannot come up short. So the header-write failure branch of `crop_aspect_ratio` is modelled but unreachable, and the unchecked header write of `speed_up` always succeeds.
- Reversal.ReverseFast does not look at the results of its writes, as the source does not; it ends normally even when bytes were lost.

## Findings

| source | as written | input that shows it | evidently intended | confidence | as-written member | corrected member |
|---|---|---|---|---|---|---|
| film_library_plus.c:24 | the new header records `numFrames / speedFactor` frames, while the loop at line 47 writes every frame whose index is a multiple of the factor, which is `ceil(numFrames / speedFactor)` frames | 5 frames at speed factor 2: the header says 2 frames, and frames 0, 2 and 4 are written | a header count equal to the number of frames written. One fix is the count `(numFrames + speedFactor - 1) / speedFactor`, which the model takes. The other is to keep the count `numFrames / speedFactor` and stop the loop after frame `(numFrames / speedFactor - 1) * speedFactor` | high; not executed | FastForward.SpeedUp | FastForward.SpeedUpCorrected |
