# EtchDroid write-then-verify engine, in Dafny

This project models the core of EtchDroid's flashing engine:

- **Device.** An in-memory block device with an injectable "fail from block k" fault. This is the test double the engine's tests drive.
- **Streams.** The byte streams over the device:
  - `BlockDeviceInputStream`: a prefetching read stream with skip, seek, mark and reset.
  - `BlockDeviceOutputStream`: a write-behind stream with read-modify-write of partial blocks and a "No space left on device" boundary.
- **Passes.** The two passes of `WorkerServiceFlowImpl`:
  - `writeImage` copies the image onto the device from a resume offset, then flushes.
  - `verifyImage` re-reads the device from byte 0 in 1024-byte chunks and compares each chunk with the image.
- **Job logic in `WorkerService`.**
  - The resume-offset arithmetic.
  - The capacity check.
  - The sequence of write pass, then verify pass from byte 0.
  - The throttled progress reports with their ten-sample weighted speed window.
- **`Uri.getDisplayName`.** The name a content provider reports, or else the path segment after the last `/`.

The stream classes and the memory device are not part of this model's sources. Their behaviour is taken from `BlockDeviceStreamTest.kt` and `WorkerServiceFlowTest.kt`, which pin it down. Those tests are replayed as methods in `FlowScenarios` and `StreamScenarios`. Each replay proves, for every image, content and device geometry that fits it, what the test checks for one random draw.

## Modules

| module | file | what it holds |
|---|---|---|
| `Common` | common.dfy | `Option`/`Result`/`IoError`, `Splice` (a sequence with a range overwritten) and its lemmas, block-alignment arithmetic |
| `BlockDevice` | block_device.dfy | `MemoryBlockDevice`: blocks, block size, backing buffer, injected fault |
| `InputStream` | input_stream.dfy | `BlockDeviceInputStream` with one cache window of whole blocks |
| `OutputStream` | output_stream.dfy | `BlockDeviceOutputStream` with one write buffer and a ghost `logical` image of the device as it will be after the pending bytes are written back |
| `ImageSource` | image_source.dfy | `FileSource`: the image file read through `BufferedInputStream` |
| `WorkerConfig` | worker_config.dfy | the constants `PROGRESS_UPDATE_INTERVAL`, `BUFFER_BLOCKS`, `QUEUE_SIZE`, `IO_TIMEOUT` and the verify chunk size |
| `WorkerServiceFlow` | worker_flow.dfy | `writeImage` and `verifyImage`, with their loops and outcomes |
| `WorkerService` | worker_service.dfy | resume offset, capacity check, the job run, `sendProgressUpdate` |
| `DisplayName` | display_name.dfy | `getDisplayName` and its path fallback |
| `FlowScenarios` | flow_scenarios.dfy | the `WorkerServiceFlowTest` scenarios |
| `StreamScenarios` | stream_scenarios.dfy | the `BlockDeviceStreamTest` scenarios |

An exception is modelled as a value:

- **Passes.** A pass returns a `PassOutcome`. `UsbCommunication(cause)` stands for `UsbCommunicationException` wrapping `cause`. The cause is an `IoError` from a stream, or the failed `require(deviceRead >= read)`.
- **Stream and device calls.** These return an `Option<IoError>` or a `Result`.
- **Offsets reported.** The offsets passed to `notifyCurrentOffset` are returned as a sequence.
- **Cancellation.** The verification-cancelled flag is the index of the poll from which it reads true.

Two points where the code decides what the model does:

- **Cancelled verification.** There is no "cancelled" failure. On cancellation the code leaves the verify loop without an exception and then broadcasts "finished" (`WorkerService.kt:441-455`). `RunJob` therefore ends a cancelled verification as `Finished`. Only an uncancelled `Finished` promises that the device holds the image.
- **`close()` on the output stream.** `writeImage` flushes after its copy loop (`WorkerService.kt:634-640`). When a write throws (621-627), that flush is skipped, but `closeAsync()` still runs in the `finally` block (642-645). `Close` here only marks the stream closed. So after a failed write, the model promises only the bytes that had already reached the device before the failure.

## Model

| member | source | states |
|---|---|---|
| WorkerService.KtRem | app/src/main/java/eu/depau/etchdroid/service/WorkerService.kt:366 | Kotlin's `%`: the remainder of the division truncated towards zero. It satisfies `a == b*q + r` and takes the sign of the dividend (`0 <= r < b` for `a >= 0`, `-b < r <= 0` otherwise). |
| WorkerService.ResumeOffset | app/src/main/java/eu/depau/etchdroid/service/WorkerService.kt:366-369 | The resume offset is non-negative and block-aligned. It is 0 exactly when the offset is below `2*BUFFER_BLOCKS+1` blocks. For a non-negative offset, it is exactly the offset rounded down to a block and moved back `2*BUFFER_BLOCKS` blocks, clamped at 0. So a non-zero resume offset lies at least `2*BUFFER_BLOCKS` blocks and less than `2*BUFFER_BLOCKS+1` blocks before the requested offset. |
| WorkerService.ResumedWriteHoldsImage | app/src/main/java/eu/depau/etchdroid/service/WorkerService.kt:366-369 | Suppose a write pass completes from resume offset `r` and the device already held the image below `r`. Then the device holds the whole image: stepping back never loses data. |
| WorkerService.WriteStep | app/src/main/java/eu/depau/etchdroid/service/WorkerService.kt:398-422 | The write step with `BUFFER_BLOCKS`-block read buffers, on an image that fits, either completes or ends in a device failure; "no space" cannot occur. A device failure happens only on a faulty device, and a healthy device always completes. The offset reached lies between the resume offset and the larger of the resume offset and the image size. Suppose the device held the image below the resume offset. Then a completed pass reaches the image size and leaves the whole image on the device. A failed pass still leaves the image on the device up to one write-behind buffer (`BUFFER_BLOCKS / QUEUE_SIZE` blocks) before the offset it reached. |
| WorkerService.VerifyStep | app/src/main/java/eu/depau/etchdroid/service/WorkerService.kt:424-451 | An uncancelled completion means the device holds the image, and the last offset is the image size. A mismatch means the device does not hold the image. A communication failure is a device fault. A healthy device holding the image always verifies. A completed pass read its range without a fault. |
| WorkerService.RunJob | app/src/main/java/eu/depau/etchdroid/service/WorkerService.kt:366-468 | An image larger than the device fails with `NotEnoughSpace(imageSize, devSize)` and the resume offset, and the device is left untouched. Verify-only leaves the device unchanged. `Finished` implies the image fits. An uncancelled `Finished` implies the device holds the image, and a verification failure implies it does not. A fitting image on a healthy device holding the prefix below the resume offset always finishes with the image on the device. When a fitting job fails on the device, the offset it reports is safe to resume from: the device already holds the image below `ResumeOffset` of that offset, given the same prefix at the start. |
| WorkerService.FailedWriteKeepsPrefix | app/src/main/java/eu/depau/etchdroid/service/WorkerService.kt:621-645 | A write pass that failed on the device leaves the image in place below the last reported offset minus one buffer of the output stream, provided the device held the image below the resume offset. |
| WorkerService.ResumeWithinKept | app/src/main/java/eu/depau/etchdroid/service/WorkerService.kt:366-369 | The step back of `2*BUFFER_BLOCKS` blocks covers the write-behind buffer of `BUFFER_BLOCKS / QUEUE_SIZE` blocks. So a disk holding the image up to one buffer before an offset also holds it below that offset's resume offset. |
| WorkerService.TriangleClosedForm | app/src/main/java/eu/depau/etchdroid/service/WorkerService.kt:514-516 | The weights `1..n` of a window of `n` samples add up to `n(n+1)/2`. |
| WorkerService.WeightedSumBounds | app/src/main/java/eu/depau/etchdroid/service/WorkerService.kt:514-516 | If every sample lies in `[lo, hi]`, the sum weighted `1..n` lies between `lo` and `hi` times the sum of the weights. |
| WorkerService.WeightedAverageBounds | app/src/main/java/eu/depau/etchdroid/service/WorkerService.kt:514-516 | The reported speed lies between the slowest and the fastest sample of the window. |
| WorkerService.WeightedAverageConstant | app/src/main/java/eu/depau/etchdroid/service/WorkerService.kt:514-516 | A window of equal samples reports that speed. |
| WorkerService.ProgressTracker.constructor | app/src/main/java/eu/depau/etchdroid/service/WorkerService.kt:493-495 | The progress state starts with no broadcast yet (time -1), no bytes counted and an empty window. |
| WorkerService.ProgressTracker.SendProgressUpdate | app/src/main/java/eu/depau/etchdroid/service/WorkerService.kt:497-529 | A report is sent exactly when at least `PROGRESS_UPDATE_INTERVAL` ms have passed since the last one. Otherwise the bytes only accumulate and nothing else changes. On a report, the speed (bytes over the interval, per second) is appended to the window, dropping the oldest sample once ten are held. The window never exceeds ten samples. The report carries the window's weighted average. The time is recorded and the byte count reset. |
| WorkerService.ProgressTracker.ClearSpeeds | app/src/main/java/eu/depau/etchdroid/service/WorkerService.kt:437 | The speed window is emptied before the verify pass. |
| WorkerServiceFlow.IncreasingAppend | app/src/main/java/eu/depau/etchdroid/service/WorkerService.kt:628-629 | Reporting an offset past the last one keeps the reported offsets strictly increasing and makes it the offset reached. |
| WorkerServiceFlow.CopyChunk | app/src/main/java/eu/depau/etchdroid/service/WorkerService.kt:617-629 | One round of the write loop. It returns -1 exactly when the image is exhausted. Otherwise the next `read > 0` image bytes land at the output cursor, so the logical device holds the image copied so far. A write failure is either "no space", and only past the device capacity, or a device failure, and only on a faulty device. After a device failure, the logical device still holds the image bytes taken so far at the cursor, and the output buffer is intact. |
| WorkerServiceFlow.TakeChunk | app/src/main/java/eu/depau/etchdroid/service/WorkerService.kt:621-627 | Writing one chunk at the output cursor either takes all of it or fails. On success, or on a device failure, the logical device gains exactly the chunk bytes taken after the image copied so far. "No space" means the chunk ran past the capacity. |
| WorkerServiceFlow.CopyLoop | app/src/main/java/eu/depau/etchdroid/service/WorkerService.kt:600-632 | The copy loop. `currentOffset` is always `initialOffset` plus the bytes read. The loop stops at `imageSize` or the end of the image. The image bytes read are exactly what the logical device gained at the cursor. The reported offsets increase, and the last one is the final offset. The two failures occur under the conditions stated for `CopyChunk`. After a device failure, the logical device holds the image taken up to the stream cursor, and the last reported offset is no further from the start than that cursor. |
| WorkerServiceFlow.SettledPrefix | app/src/main/java/eu/depau/etchdroid/service/WorkerService.kt:621-645 | An output stream that stopped after a failed write leaves on the device its old bytes before the seek offset, then the image bytes it took up to the settled offset. The settled offset is at most one buffer behind the cursor. |
| WorkerServiceFlow.StoppedExplained | app/src/main/java/eu/depau/etchdroid/service/WorkerService.kt:621-645 | A write pass that stopped on a device failure is explained by the settled prefix of its output stream: old bytes before the seek offset, then the image, with the last report at most one buffer past the settled offset. |
| WorkerServiceFlow.FlushCopied | app/src/main/java/eu/depau/etchdroid/service/WorkerService.kt:634-640 | The final flush succeeds exactly when nothing is pending or the device is fault-free below the cursor. On success the device becomes the logical image. A failure is a device failure explained as in `StoppedExplained`. |
| WorkerServiceFlow.CopyAndFlush | app/src/main/java/eu/depau/etchdroid/service/WorkerService.kt:613-640 | The copy loop, then the flush when nothing failed. The outcomes are those of `WriteImage`. After a device failure in either the loop or the flush, the device holds its old bytes before the seek offset, then the image up to a settled offset at most one buffer behind the last report. |
| WorkerServiceFlow.OpenOutput | app/src/main/java/eu/depau/etchdroid/service/WorkerService.kt:599-611 | The image is skipped and the fresh output stream seeked to the initial offset, clamped to the image and to the device. The device is unchanged. |
| WorkerServiceFlow.WriteImage | app/src/main/java/eu/depau/etchdroid/service/WorkerService.kt:583-646 | A completed pass has spliced `image[start..pos]` into the device at the initial offset and stopped at `imageSize` or the end of the image. Its last offset is the initial offset plus the bytes copied, and it touched no faulty block. "No space left on device" means the copy ran past the capacity. A device failure means the device is faulty. The reported offsets increase, and none lies past the bytes copied. The output buffer holds `BUFFER_BLOCKS / QUEUE_SIZE` blocks. After a device failure, the device keeps its old bytes before the seek offset and holds the image from there up to a settled offset that is at most one buffer behind the last report. Both streams end up closed whatever the outcome. |
| WorkerServiceFlow.OpenInput | app/src/main/java/eu/depau/etchdroid/service/WorkerService.kt:666-678 | Verification starts with both the image and the device stream at byte 0. |
| WorkerServiceFlow.CompareChunk | app/src/main/java/eu/depau/etchdroid/service/WorkerService.kt:689-714 | One round of the verify loop, entered with equal buffers. The `read == -1` case is the end of the image. A device fault gives a wrapped I/O error. A short device read gives a wrapped `ShortRead` with the exact counts. A byte mismatch in the chunk gives `VerificationFailed`. Otherwise the image and the device agree one chunk further and the two whole buffers are equal again. A healthy device large enough never fails to communicate. |
| WorkerServiceFlow.VerifyMismatch | app/src/main/java/eu/depau/etchdroid/service/WorkerService.kt:704-713 | A verification failure means the device differs from the image below the cursor where the pass stopped, so it does not hold the image. |
| WorkerServiceFlow.CompareLoop | app/src/main/java/eu/depau/etchdroid/service/WorkerService.kt:682-718 | The verify loop. The flag is polled once per chunk. Completion means the image was matched up to the end of the image, or up to the poll where cancelling was seen. Each failure mode is explained as in `CompareChunk`, and a mismatch does not advance the offset. The offsets increase. A healthy device no smaller than the image only completes or mismatches. |
| WorkerServiceFlow.VerifyImage | app/src/main/java/eu/depau/etchdroid/service/WorkerService.kt:649-729 | `verifyImage` from byte 0 with two zeroed 1024-byte buffers has the outcomes of `CompareLoop`, and closes both streams. |
| ImageSource.FileSource.Skip | app/src/main/java/eu/depau/etchdroid/service/WorkerService.kt:610 | Skipping moves past `min(n, remaining)` bytes, or none for `n <= 0`. |
| ImageSource.FileSource.Read | app/src/main/java/eu/depau/etchdroid/service/WorkerService.kt:617 | A read returns -1 exactly at the end of the file. Otherwise it copies `min(buf.size, remaining)` next bytes to the front of the buffer, leaving the rest of the buffer as it was. |
| BlockDevice.MemoryBlockDevice.constructor | app/src/test/java/eu/depau/etchdroid/WorkerServiceFlowTest.kt:36 | A device of `blocks*blockSize` zero bytes, with no fault. |
| BlockDevice.MemoryBlockDevice.SetThrowAtBlockOffset | app/src/test/java/eu/depau/etchdroid/WorkerServiceFlowTest.kt:118-125 | Setting `throwAtBlockOffset = k` makes the device fault from byte `k*blockSize` on. |
| BlockDevice.MemoryBlockDevice.Read | app/src/test/java/eu/depau/etchdroid/WorkerServiceFlowTest.kt:118-125 | A block read succeeds exactly when it stays inside the device and below the fault, and then returns the device bytes. Otherwise it fails with the device error (when it reaches the fault) or out of range. |
| BlockDevice.MemoryBlockDevice.Write | app/src/test/java/eu/depau/etchdroid/WorkerServiceFlowTest.kt:118-125 | A block write succeeds under the same condition as a read and overwrites exactly its range. A failed write changes nothing. |
| InputStream.ReadCount | app/src/test/java/eu/depau/etchdroid/BlockDeviceStreamTest.kt:183-198 | `read(buf, off, len)` returns 0 exactly when `off` is outside the array or `len <= 0`. It returns -1 exactly at the end of the device. Otherwise it returns at most `len`, the room after `off` and what is left. A read short of both `len` and the room happens only at the end of the device. |
| InputStream.SkipTarget | app/src/test/java/eu/depau/etchdroid/BlockDeviceStreamTest.kt:152-161 | A skip moves the cursor by `delta`, clamped to `[0, capacity]`. |
| InputStream.SkipBack | app/src/test/java/eu/depau/etchdroid/BlockDeviceStreamTest.kt:99-104 | Skipping back by the distance a skip reported restores the cursor, even when the skip was clamped. |
| InputStream.SkipMoved | app/src/test/java/eu/depau/etchdroid/BlockDeviceStreamTest.kt:152-154 | A skip reports a distance no larger than the one asked, in the same direction: the true movement, not the request. |
| InputStream.FetchWindow | app/src/test/java/eu/depau/etchdroid/BlockDeviceStreamTest.kt:139-146 | A cache refill for a cursor outside the cache starts at the cursor's block and spans whole blocks inside the device, covering the cursor. |
| InputStream.BlockDeviceInputStream.constructor | app/src/test/java/eu/depau/etchdroid/BlockDeviceStreamTest.kt:81-87 | A fresh stream has its cursor at 0, no mark, and an empty cache. |
| InputStream.BlockDeviceInputStream.Fetch | app/src/test/java/eu/depau/etchdroid/BlockDeviceStreamTest.kt:200-205 | A refill caches the cursor's bytes, or fails with the device error on a faulty device. |
| InputStream.BlockDeviceInputStream.ReadByte | app/src/test/java/eu/depau/etchdroid/BlockDeviceStreamTest.kt:124-128 | `read()` returns the byte at the cursor as 0..255 and advances by one, or -1 at the end without moving. A failure is the device's error. |
| InputStream.BlockDeviceInputStream.Read | app/src/test/java/eu/depau/etchdroid/BlockDeviceStreamTest.kt:93-103 | `read(buf, off, len)` returns `ReadCount` and advances the cursor by it. It puts exactly the device bytes from the old cursor into `buf[off..off+n)` and no other byte of `buf` changes, including when the read crosses the cached window. |
| InputStream.BlockDeviceInputStream.ReadFully | app/src/test/java/eu/depau/etchdroid/BlockDeviceStreamTest.kt:200-221 | Reading `n` bytes across cache refills delivers the device bytes at the cursor into `buf[off..off+n)` and advances by `n`. |
| InputStream.BlockDeviceInputStream.Skip | app/src/test/java/eu/depau/etchdroid/BlockDeviceStreamTest.kt:104-126 | `skip(delta)` moves the cursor to `SkipTarget` and returns the distance actually moved. |
| InputStream.BlockDeviceInputStream.Seek | app/src/test/java/eu/depau/etchdroid/BlockDeviceStreamTest.kt:90 | `seek(p)` moves the cursor to `p` clamped to the device and returns it. |
| InputStream.BlockDeviceInputStream.Mark | app/src/test/java/eu/depau/etchdroid/BlockDeviceStreamTest.kt:148-150 | `mark(readLimit)` remembers the cursor. The limit is ignored. |
| InputStream.BlockDeviceInputStream.Reset | app/src/test/java/eu/depau/etchdroid/BlockDeviceStreamTest.kt:163-168 | `reset()` returns the cursor to the mark and clears the mark. Without a mark it fails and leaves the cursor. |
| OutputStream.WriteRange | app/src/test/java/eu/depau/etchdroid/BlockDeviceStreamTest.kt:382-405 | Read-modify-write of a byte range succeeds exactly when the range is below the fault, and then overwrites exactly that range: the rest of each partly covered block survives. A failure changes nothing. |
| OutputStream.BlockDeviceOutputStream.constructor | app/src/test/java/eu/depau/etchdroid/BlockDeviceStreamTest.kt:355-359 | A fresh stream has its cursor at 0, nothing pending, and a buffer of `bufferBlocks` blocks. |
| OutputStream.BlockDeviceOutputStream.Flush | app/src/test/java/eu/depau/etchdroid/BlockDeviceStreamTest.kt:364-380 | `flush()` succeeds exactly when nothing is pending or the device has no fault below the cursor. On success the device becomes the logical image: earlier contents with every write since applied at its position. On failure the device is unchanged. Success or failure, the logical image and the cursor stay. |
| OutputStream.BlockDeviceOutputStream.Write | app/src/test/java/eu/depau/etchdroid/BlockDeviceStreamTest.kt:437-453 | `write(data)` takes `data` at the cursor. If it ends past the capacity, "No space left on device" is raised with exactly the bytes up to the capacity taken. A write from the capacity fails that way. A device failure means the device is faulty below the cursor. Short of "no space", success or failure, the cursor moves forward by at most `|data|`, and exactly the bytes it passed are taken at the old cursor. A write that fits on a device with no fault up to its end always succeeds. |
| OutputStream.BlockDeviceOutputStream.WriteByte | app/src/test/java/eu/depau/etchdroid/BlockDeviceStreamTest.kt:365-369 | `write(int)` takes the low eight bits at the cursor. It fails with "no space" exactly at the capacity. |
| OutputStream.BlockDeviceOutputStream.Seek | app/src/test/java/eu/depau/etchdroid/BlockDeviceStreamTest.kt:362 | `seek(p)` flushes, then moves the cursor to `p` clamped to the device and returns it. |
| DisplayName.LastIndexOf | app/src/main/java/eu/depau/etchdroid/utils/ktexts/UriGetDisplayName.kt:28 | `lastIndexOf(c)` is -1 exactly when `c` does not occur. Otherwise it is an index holding `c` with no `c` after it. |
| DisplayName.PathFallback | app/src/main/java/eu/depau/etchdroid/utils/ktexts/UriGetDisplayName.kt:26-32 | The fallback name contains no `/` and is a suffix of the path. It is the whole path when the path has no `/`. Otherwise the path is the fallback's prefix, a `/`, then the fallback. |
| DisplayName.GetDisplayName | app/src/main/java/eu/depau/etchdroid/utils/ktexts/UriGetDisplayName.kt:10-35 | A `content` URI whose query gave a name returns that name unchanged. Otherwise the result is exactly the path fallback, a `/`-free suffix of the path. |
| FlowScenarios.NewDevice | app/src/test/java/eu/depau/etchdroid/WorkerServiceFlowTest.kt:118-125 | A test device with the requested geometry and fault. It is healthy exactly when there is no fault, or the fault lies past its last block. |
| FlowScenarios.BasicWriteVerify | app/src/test/java/eu/depau/etchdroid/WorkerServiceFlowTest.kt:29-78 | For every image fitting a healthy device, and any block size: the write from 0 completes with last offset the image size, and the verify that follows completes with last offset the image size. |
| FlowScenarios.NoSpaceLeftOnDevice | app/src/test/java/eu/depau/etchdroid/WorkerServiceFlowTest.kt:81-107 | `writeImage` of any image larger than the device ends in a communication failure caused by "No space left on device". |
| FlowScenarios.UnplugMidWrite | app/src/test/java/eu/depau/etchdroid/WorkerServiceFlowTest.kt:110-145 | A device failing from a block inside the image makes `writeImage` end in a communication failure wrapping the device error. |
| FlowScenarios.UnplugMidVerify | app/src/test/java/eu/depau/etchdroid/WorkerServiceFlowTest.kt:147-198 | A write to a healthy device completes. With a fault then injected inside the image, `verifyImage` ends in a communication failure wrapping the device error. |
| StreamScenarios.ReadInChunks | app/src/test/java/eu/depau/etchdroid/BlockDeviceStreamTest.kt:251-263 | Reading a device to its end with a chunk-sized array returns, on read `i`, `min(chunk, capacity - i*chunk)`: the full chunk each time except the last. The counts add up to the bytes read, and to the capacity when nothing failed. The bytes read are exactly the device content. A healthy device never fails. |
| StreamScenarios.CursorScenario | app/src/test/java/eu/depau/etchdroid/BlockDeviceStreamTest.kt:148-168 | `seek(0)` returns 0. After a mark, an oversized skip moves only to the end. `read()` there is -1, and `skip(-1)` returns -1 and reads the last byte. `reset()` succeeds and reads the marked byte. |
| StreamScenarios.BoundedReads | app/src/test/java/eu/depau/etchdroid/BlockDeviceStreamTest.kt:182-198 | `read(buf, 4, 4)` and `read(buf, 4, 200)` into 8 bytes each return 4 and fill only the back half with the next device bytes. `read(buf, 10, 4)` returns 0 and changes nothing. |
| StreamScenarios.WriteInChunks | app/src/test/java/eu/depau/etchdroid/BlockDeviceStreamTest.kt:481-527 | Writing the whole device content in one call or in chunks of any size, then flushing, leaves the device equal to the content. A healthy device never fails. |
| StreamScenarios.PartialBlockWrites | app/src/test/java/eu/depau/etchdroid/BlockDeviceStreamTest.kt:361-435 | Each step changes only its own bytes: `seek(0)` returns 0, then bytes 0..3 and a flush, then zeros to the end of the first block and a flush, then zeros to 8 bytes short of the buffer end and 16 bytes of 42 crossing it and a flush. All other bytes of the device, including the rest of each partly written block, keep their earlier values. |
| StreamScenarios.FillToCapacity | app/src/test/java/eu/depau/etchdroid/BlockDeviceStreamTest.kt:437-453 | Writing exactly up to the capacity in two calls succeeds, and one more byte fails with "No space left on device". |

## Left out

- Concurrency inside the streams is not modelled. This covers the coroutine prefetch ring (`prefetchBuffers` slots) of the read stream and the write-behind queue (`QUEUE_SIZE` slots) of the write stream. Each stream has one buffer filled or drained in place; `QUEUE_SIZE` only sizes its buffer. The order in which blocks reach the device and the memory bound of the ring are not modelled. After a failed write, the model holds at most one unwritten buffer (`BUFFER_BLOCKS / QUEUE_SIZE` blocks). The real queue may hold `QUEUE_SIZE` of them, `BUFFER_BLOCKS` blocks in all; that is still within the `2*BUFFER_BLOCKS`-block resume step back.
- `timeoutWatchdog` and `watchdog.bump()` are wall-clock timing. `IO_TIMEOUT` is kept as a constant; a stalled device, which would trip the watchdog, is not modelled.
- The wake lock (`grabWakeLock`), notifications, local broadcasts, intent parsing, `contentResolver.openInputStream`, USB device set-up and the telemetry calls are Android plumbing and are left out. The broadcasts of a job appear only as its `JobResult`.
- `sendProgressUpdate` is modelled on its own; the passes do not call it. The current time is a parameter. Speeds are real numbers instead of `Double`/`Float`, so rounding is not modelled.
- `BufferedInputStream` over the image is a `FileSource` whose `read` returns `min(buf.size, remaining)`. A real stream may return fewer bytes per read.
- ImageSource.FileSource.Read: the image read cannot fail here. In the code, `src.read(buffer)` (`WorkerService.kt:617`) and the image read of `verifyImage` lie outside the `try` that wraps stream errors as communication failures. A failing image stream would therefore reach the job's generic handler (457-468) as an unknown failure, with the current offset. `PassOutcome` has no value for that, so this path is not modelled.
- The 64-bit offsets and the `toInt()` conversion of the buffer sizes are unbounded integers here; overflow is not modelled.
- WorkerServiceFlow.VerifyImage: an exception from `dst.closeAsync()` in the `finally` block, which would be wrapped as a communication failure, is not modelled, because closing the model streams cannot fail.
- OutputStream.BlockDeviceOutputStream.Close: only marks the stream closed and drops bytes still buffered. After a failed write, `writeImage` skips the flush but still closes (`WorkerService.kt:621-627`, 634-640, 642-645). Whether the real `closeAsync()` then writes those bytes is not modelled.
- WorkerServiceFlow.WriteImage: an exception from `dst.closeAsync()` in the `finally` block (`WorkerService.kt:642-645`), which could replace the exception of the pass, is not modelled, because closing the model streams cannot fail.
- ImageSource.FileSource.Skip: skips exactly `min(n, remaining)` bytes. A real `BufferedInputStream.skip` may skip fewer, and `writeImage` ignores its result (`WorkerService.kt:610`). A short skip, which would misalign the image and the device, is not modelled.
- WorkerService.RunJob: the image size is the length of the image content. The code asks the content provider through `getFileSize` (`WorkerService.kt:378`); a provider that reports another size is not modelled.
- InputStream.BlockDeviceInputStream.Seek: clamping `p` to `[0, capacity]` is this model's choice. The tests call only `seek(0)` (`BlockDeviceStreamTest.kt:90`), so they do not pin down a seek outside the device.
- OutputStream.BlockDeviceOutputStream.Seek: flushing and then clamping `p` to `[0, capacity]` is this model's choice. The tests call only `seek(0)` (`BlockDeviceStreamTest.kt:362`). `WorkerServiceFlow.OpenOutput` inherits the clamp: where a resume offset past the device starts writing is this model's choice as well.
- InputStream.BlockDeviceInputStream.Reset: without a mark it fails with `InvalidMark`. This choice is not pinned down by the tests.
- The injected fault is the byte offset `throwAtBlockOffset * blockSize`. Every request reaching it fails with one error value; the message of `exceptionToThrow` is not modelled.
- DisplayName.GetDisplayName: the content query, including a `SecurityException` it swallows (`UriGetDisplayName.kt:22-24`), becomes its answer, an optional name. Only `SecurityException` is caught; any other exception from the query propagates out of `getDisplayName`, and that path is not modelled. `path` is required to be non-null, as the code's `!!` demands.
- The sources of `BlockDeviceInputStream`, `BlockDeviceOutputStream` and `MemoryBufferBlockDeviceDriver` are not part of this model. Their behaviour is inferred from the tests cited above.
- The tests' random images and device contents are generalised to all images and contents that fit the same geometry.
