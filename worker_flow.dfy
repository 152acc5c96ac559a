/** The two passes of a flashing job (`WorkerServiceFlowImpl`): the write pass copies the
    image onto the device from a resume offset, the verify pass reads the device back
    from byte 0 and compares it with the image chunk by chunk. */
module WorkerServiceFlow {
  import opened Common
  import opened BlockDevice
  import opened ImageSource
  import opened InputStream
  import opened OutputStream
  import opened WorkerConfig

  /** Why a pass gave up talking to the device. */
  datatype Cause =
    | Io(error: IoError)                          // an IOException from the stream
    | ShortRead(deviceRead: int, fileRead: int)   // the requirement deviceRead >= read failed

  datatype PassOutcome =
    | Completed
    | UsbCommunication(cause: Cause)   // UsbCommunicationException wrapping the cause
    | VerificationFailed               // a chunk of the device differs from the image

  function Last(s: seq<int>): int
    requires s != []
  {
    s[|s| - 1]
  }

  /** The offset a pass has reached: the last one it reported, or where it started. */
  function Reached(offsets: seq<int>, from: int): int
  {
    if offsets == [] then from else Last(offsets)
  }

  /** The offsets reported through notifyCurrentOffset: all past the starting offset, and
      growing with every chunk. */
  ghost predicate Increasing(s: seq<int>, from: int)
  {
    && (forall i | 0 <= i < |s| :: from < s[i])
    && (forall i, j | 0 <= i < j < |s| :: s[i] < s[j])
  }

  /** Reporting an offset past the last one keeps the offsets increasing. */
  lemma IncreasingAppend(s: seq<int>, from: int, x: int)
    requires Increasing(s, from) && Reached(s, from) < x
    ensures Increasing(s + [x], from)
    ensures Reached(s + [x], from) == x
  {
    var t := s + [x];
    assert forall i | 0 <= i < |s| :: t[i] == s[i];
    if s != [] {
      assert forall i | 0 <= i < |s| :: s[i] <= Last(s);
    }
  }

  /** Whether the cancellation flag is seen set at poll number `poll`: the flag, once set
      at poll `cancelAt`, stays set. */
  predicate CanceledAt(cancelAt: Option<nat>, poll: nat)
  {
    cancelAt.Some? && cancelAt.value <= poll
  }

  /** The output stream's logical image holds, from device offset `at` on, the image bytes
      from `p0` up to the source cursor, over the earlier image L0. */
  ghost predicate CopiedSince(src: FileSource, dst: BlockDeviceOutputStream, p0: nat, at: nat, L0: seq<bv8>)
    reads src, dst
  {
    && p0 <= src.pos <= |src.data|
    && dst.Position() == at + (src.pos - p0) <= |L0|
    && dst.logical == Splice(L0, at, src.data[p0..src.pos])
  }

  /** The output stream stopped, after a failed write, with its logical image holding from
      device offset `at` on the image bytes from `p0` that it took, no further than the
      image cursor `limit`, over the earlier image L0. */
  ghost predicate StoppedAt(dst: BlockDeviceOutputStream, image: seq<bv8>, p0: nat, at: nat, L0: seq<bv8>, limit: int)
    reads dst
  {
    && at <= dst.Position() <= |L0| && p0 + (dst.Position() - at) <= limit <= |image|
    && dst.logical == Splice(L0, at, image[p0..p0 + (dst.Position() - at)])
  }

  /** Taking the first k bytes of the chunk data[p..q] at the output cursor extends the
      image bytes copied from p0 by those k bytes. */
  lemma ChunkTaken(L0: seq<bv8>, at: nat, data: seq<bv8>, p0: nat, p: nat, q: nat,
                   before: seq<bv8>, chunk: seq<bv8>, k: nat, after: seq<bv8>, cursor: int)
    requires p0 <= p <= q <= |data| && chunk == data[p..q] && k <= |chunk|
    requires cursor == at + (p - p0) + k <= |L0|
    requires before == Splice(L0, at, data[p0..p])
    requires after == Splice(before, at + (p - p0), chunk[..k])
    ensures at <= cursor && p0 + (cursor - at) <= q
    ensures after == Splice(L0, at, data[p0..p0 + (cursor - at)])
  {
    assert chunk[..k] == data[p..p + k];
    SpliceSegments(L0, at, data, p0, p, p + k);
  }

  /** The write half of a round of the write loop: the chunk data[p..q] of the image
      goes to the output cursor, which stands where the bytes copied from p0 end. */
  method TakeChunk(dst: BlockDeviceOutputStream, chunk: seq<bv8>, ghost data: seq<bv8>,
                   ghost p0: nat, ghost p: nat, ghost q: nat, ghost at: nat, ghost L0: seq<bv8>)
    returns (err: Option<IoError>)
    requires dst.Valid() && p0 <= p <= q <= |data| && chunk == data[p..q]
    requires dst.Position() == at + (p - p0) <= |L0| && dst.logical == Splice(L0, at, data[p0..p])
    modifies dst, dst.buffer, dst.dev.backingBuffer
    ensures dst.Filling() && dst.seekOrigin == old(dst.seekOrigin) && dst.closed == old(dst.closed)
    ensures err.None? ==> dst.Valid() && dst.Position() == at + (q - p0)
    ensures err.None? || err == Some(DeviceFailure) ==>
      && old(dst.Position()) <= dst.Position() && p0 + (dst.Position() - at) <= q
      && dst.logical == Splice(L0, at, data[p0..p0 + (dst.Position() - at)])
    ensures err == Some(NoSpaceLeft) ==> old(dst.Position()) + |chunk| > dst.dev.Capacity()
    ensures err == Some(DeviceFailure) ==> !dst.dev.FaultFreeBelow(dst.dev.Capacity())
    ensures err.Some? ==> err.value == NoSpaceLeft || err.value == DeviceFailure
  {
    err := dst.Write(chunk);
    if err != Some(NoSpaceLeft) {
      ChunkTaken(L0, at, data, p0, p, q, old(dst.logical), chunk,
                 dst.Position() - old(dst.Position()), dst.logical, dst.Position());
    }
  }

  /** One round of the write loop: reads the next chunk of the image into buffer and
      writes it at the output cursor. `read` is -1 once the image is exhausted. */
  method CopyChunk(src: FileSource, dst: BlockDeviceOutputStream, buffer: array<bv8>,
                   ghost p0: nat, ghost at: nat, ghost L0: seq<bv8>)
    returns (read: int, err: Option<IoError>)
    requires src.Valid() && dst.Valid() && 0 < buffer.Length
    requires buffer != dst.buffer && buffer != dst.dev.backingBuffer
    requires CopiedSince(src, dst, p0, at, L0)
    modifies src`pos, buffer, dst, dst.buffer, dst.dev.backingBuffer
    ensures src.Valid() && old(src.pos) <= src.pos
    ensures read == -1 <==> old(src.pos) == |src.data|
    ensures read == -1 ==> err.None?
    ensures read != -1 ==> 0 < read && src.pos == old(src.pos) + read
    ensures err.None? ==> dst.Valid() && CopiedSince(src, dst, p0, at, L0)
    ensures err.None? ==> dst.seekOrigin == old(dst.seekOrigin) && dst.closed == old(dst.closed)
    ensures err == Some(NoSpaceLeft) ==> old(dst.Position()) + read > dst.dev.Capacity()
    ensures err == Some(DeviceFailure) ==> !dst.dev.FaultFreeBelow(dst.dev.Capacity())
    ensures err == Some(DeviceFailure) ==>
      && dst.Filling() && dst.seekOrigin == old(dst.seekOrigin) && old(dst.Position()) <= dst.Position()
      && StoppedAt(dst, src.data, p0, at, L0, src.pos)
    ensures err.Some? ==> err.value == NoSpaceLeft || err.value == DeviceFailure
  {
    ghost var p := src.pos;
    read := src.Read(buffer);
    if read == -1 {
      return read, None;
    }
    assert buffer[..read] == src.data[p..src.pos] by {
      SpliceSlices(old(buffer[..]), 0, src.data[p..src.pos]);
    }
    err := TakeChunk(dst, buffer[..read], src.data, p0, p, src.pos, at, L0);
  }

  /** The copy loop of writeImage: chunks of the image go to the output stream until the
      offset, counted from initialOffset, reaches imageSize or the image is exhausted, or
      a write fails. Returns the offsets reported after each chunk. */
  method CopyLoop(src: FileSource, dst: BlockDeviceOutputStream, buffer: array<bv8>,
                  imageSize: int, initialOffset: int)
    returns (err: Option<IoError>, offsets: seq<int>)
    requires src.Valid() && dst.Valid() && 0 < buffer.Length
    requires buffer != dst.buffer && buffer != dst.dev.backingBuffer
    modifies src`pos, buffer, dst, dst.buffer, dst.dev.backingBuffer
    ensures src.Valid() && old(src.pos) <= src.pos
    ensures err.None? ==>
      && dst.Valid() && dst.seekOrigin == old(dst.seekOrigin) && dst.closed == old(dst.closed)
      && CopiedSince(src, dst, old(src.pos), old(dst.Position()), old(dst.logical))
      && (src.pos == |src.data| || initialOffset + (src.pos - old(src.pos)) >= imageSize)
      && (offsets == [] <==> src.pos == old(src.pos))
      && (offsets != [] ==> Last(offsets) == initialOffset + (src.pos - old(src.pos)))
    ensures err == Some(NoSpaceLeft) ==> old(dst.Position()) + (src.pos - old(src.pos)) > dst.dev.Capacity()
    ensures err == Some(DeviceFailure) ==> !dst.dev.FaultFreeBelow(dst.dev.Capacity())
    ensures err == Some(DeviceFailure) ==>
      && dst.Filling() && dst.seekOrigin == old(dst.seekOrigin)
      && StoppedAt(dst, src.data, old(src.pos), old(dst.Position()), old(dst.logical), src.pos)
      && Reached(offsets, initialOffset) - initialOffset <= dst.Position() - old(dst.Position())
    ensures err.Some? ==> err.value == NoSpaceLeft || err.value == DeviceFailure
    ensures Increasing(offsets, initialOffset)
    ensures Reached(offsets, initialOffset) <= initialOffset + (src.pos - old(src.pos))
  {
    var currentOffset := initialOffset;
    ghost var p0, at, L0 := src.pos, dst.Position(), dst.logical;
    SpliceEmpty(L0, at);
    err, offsets := None, [];
    var done := false;
    while !done
      invariant src.Valid() && p0 <= src.pos
      invariant err.None? ==>
        && dst.Valid() && dst.seekOrigin == old(dst.seekOrigin) && dst.closed == old(dst.closed)
        && CopiedSince(src, dst, p0, at, L0)
        && currentOffset == initialOffset + (src.pos - p0)
        && (offsets == [] <==> src.pos == p0)
        && (offsets != [] ==> Last(offsets) == currentOffset)
        && (done ==> src.pos == |src.data| || currentOffset >= imageSize)
      invariant err == Some(NoSpaceLeft) ==> at + (src.pos - p0) > dst.dev.Capacity()
      invariant err == Some(DeviceFailure) ==> !dst.dev.FaultFreeBelow(dst.dev.Capacity())
      invariant err == Some(DeviceFailure) ==>
        && dst.Filling() && dst.seekOrigin == old(dst.seekOrigin)
        && StoppedAt(dst, src.data, p0, at, L0, src.pos)
        && Reached(offsets, initialOffset) - initialOffset <= dst.Position() - at
      invariant err.Some? ==> done && (err.value == NoSpaceLeft || err.value == DeviceFailure)
      invariant Increasing(offsets, initialOffset)
      invariant Reached(offsets, initialOffset) <= currentOffset
      invariant Reached(offsets, initialOffset) <= initialOffset + (src.pos - p0)
      decreases |src.data| - src.pos, !done
    {
      if currentOffset >= imageSize {
        done := true;
      } else {
        var read;
        read, err := CopyChunk(src, dst, buffer, p0, at, L0);
        if read == -1 || err.Some? {
          done := true;
        } else {
          currentOffset := currentOffset + read;
          IncreasingAppend(offsets, initialOffset, currentOffset);
          offsets := offsets + [currentOffset];
        }
      }
    }
  }

  /** The set-up of writeImage: a fresh output stream on dev, and both streams moved to
      initialOffset (the image by skipping, the device by seeking, clamped to its size). */
  method OpenOutput(src: FileSource, dev: MemoryBlockDevice, initialOffset: nat)
    returns (dst: BlockDeviceOutputStream)
    requires src.Valid() && src.pos == 0 && dev.Valid()
    modifies src`pos, dev.backingBuffer
    ensures fresh(dst) && fresh(dst.buffer) && dst.Valid() && dst.dev == dev && !dst.closed
    ensures src.Valid() && src.pos == Min(initialOffset, |src.data|)
    ensures dst.Position() == Clamp(initialOffset, 0, dev.Capacity()) == dst.seekOrigin
    ensures dst.logical == dev.Contents() == old(dev.Contents())
    ensures dst.buffer.Length == BUFFER_BLOCKS / QUEUE_SIZE * dev.blockSize
  {
    dst := new BlockDeviceOutputStream(dev, BUFFER_BLOCKS / QUEUE_SIZE, QUEUE_SIZE);
    var skipped := src.Skip(initialOffset);
    var seek := dst.Seek(initialOffset);
  }

  /** What the outcome of a write pass from initialOffset tells: the device went from
      `before` to `after`, the image cursor stopped at pos, `healthy` is whether the whole
      device writes without a fault, and `offsets` are the offsets the pass reported. The
      image is copied from start = min(initialOffset, |image|) to the device from
      at = initialOffset clamped to the device. */
  ghost predicate WriteExplained(outcome: PassOutcome, image: seq<bv8>, imageSize: int, initialOffset: nat,
                                 before: seq<bv8>, after: seq<bv8>, healthy: bool, pos: int, offsets: seq<int>)
  {
    var start, at := Min(initialOffset, |image|), Clamp(initialOffset, 0, |before|);
    && start <= pos <= |image| && |after| == |before|
    && (outcome.Completed? || outcome == UsbCommunication(Io(NoSpaceLeft))
        || outcome == UsbCommunication(Io(DeviceFailure)))
    && (outcome.Completed? ==>
        && at + (pos - start) <= |before|
        && after == Splice(before, at, image[start..pos])
        && (pos == |image| || initialOffset + (pos - start) >= imageSize)
        && (offsets == [] <==> pos == start)
        && Reached(offsets, initialOffset) == initialOffset + (pos - start))
    && (outcome == UsbCommunication(Io(NoSpaceLeft)) ==> at + (pos - start) > |before|)
    && (outcome == UsbCommunication(Io(DeviceFailure)) ==> !healthy)
  }

  /** What a write pass from initialOffset that failed on the device leaves behind: the
      device went from `before` to `after`, keeping `before` up to the seek offset at and
      holding the image from start = min(initialOffset, |image|) between at and the
      offset `settled`; the offset the pass last reported is at most one buffer of
      `bufLen` bytes past the settled one. */
  ghost predicate FailureExplained(image: seq<bv8>, initialOffset: nat, before: seq<bv8>, after: seq<bv8>,
                                   settled: int, bufLen: int, offsets: seq<int>)
  {
    var start, at := Min(initialOffset, |image|), Clamp(initialOffset, 0, |before|);
    && at <= settled <= |after| == |before| && start + (settled - at) <= |image|
    && after[..at] == before[..at]
    && after[at..settled] == image[start..start + (settled - at)]
    && Reached(offsets, initialOffset) - initialOffset <= settled - at + bufLen
  }

  /** What a stopped stream leaves on the device: L0 before its seek origin `at`, and the
      image bytes it took from there up to the settled offset, which is at most one
      buffer behind the cursor. */
  lemma SettledPrefix(dst: BlockDeviceOutputStream, image: seq<bv8>, p0: nat, at: nat, L0: seq<bv8>, limit: int)
    requires dst.Filling() && dst.seekOrigin == at && StoppedAt(dst, image, p0, at, L0, limit)
    ensures var s := dst.Settled();
      && at <= s <= dst.Position() <= s + dst.buffer.Length && p0 + (s - at) <= |image|
      && |dst.dev.Contents()| == |L0|
      && dst.dev.Contents()[..at] == L0[..at]
      && dst.dev.Contents()[at..s] == image[p0..p0 + (s - at)]
  {
    var s, k := dst.Settled(), dst.Position() - at;
    var seg := image[p0..p0 + k];
    SpliceSlices(dst.dev.Contents(), s, dst.buffer[dst.lo..dst.hi]);
    SpliceSlices(L0, at, seg);
    assert dst.dev.Contents()[..s] == dst.logical[..s];
    assert dst.logical[at..at + k] == seg;
    assert dst.dev.Contents()[at..s] == dst.logical[at..s] == seg[..s - at];
  }

  /** The settled prefix of a stopped write pass, restated over the pass's parameters. */
  lemma FailureFromStop(image: seq<bv8>, initialOffset: nat, before: seq<bv8>, after: seq<bv8>,
                        settled: int, cursor: int, bufLen: int, offsets: seq<int>)
    requires var p0, at := Min(initialOffset, |image|), Clamp(initialOffset, 0, |before|);
      && at <= settled <= cursor <= settled + bufLen && p0 + (settled - at) <= |image|
      && |after| == |before| && cursor <= |before|
      && after[..at] == before[..at]
      && after[at..settled] == image[p0..p0 + (settled - at)]
      && Reached(offsets, initialOffset) - initialOffset <= cursor - at
    ensures FailureExplained(image, initialOffset, before, after, settled, bufLen, offsets)
  {
  }

  /** A write pass from initialOffset that stopped on a device failure is explained by
      the settled prefix of its output stream. */
  lemma StoppedExplained(dst: BlockDeviceOutputStream, image: seq<bv8>, initialOffset: nat, L0: seq<bv8>,
                         limit: int, offsets: seq<int>)
    requires dst.Filling() && |L0| == dst.dev.Capacity()
    requires dst.seekOrigin == Clamp(initialOffset, 0, |L0|)
    requires StoppedAt(dst, image, Min(initialOffset, |image|), Clamp(initialOffset, 0, |L0|), L0, limit)
    requires Reached(offsets, initialOffset) - initialOffset <= dst.Position() - Clamp(initialOffset, 0, |L0|)
    ensures FailureExplained(image, initialOffset, L0, dst.dev.Contents(), dst.Settled(), dst.buffer.Length, offsets)
  {
    var p0, at := Min(initialOffset, |image|), Clamp(initialOffset, 0, |L0|);
    SettledPrefix(dst, image, p0, at, L0, limit);
    FailureFromStop(image, initialOffset, L0, dst.dev.Contents(), dst.Settled(), dst.Position(),
                    dst.buffer.Length, offsets);
  }

  /** The flush that ends a write pass whose copy loop went through. */
  method FlushCopied(dst: BlockDeviceOutputStream, ghost image: seq<bv8>, ghost initialOffset: nat,
                     ghost L0: seq<bv8>, ghost limit: int, ghost offsets: seq<int>)
    returns (err: Option<IoError>)
    requires dst.Valid() && |L0| == dst.dev.Capacity()
    requires dst.seekOrigin == Clamp(initialOffset, 0, |L0|)
    requires StoppedAt(dst, image, Min(initialOffset, |image|), Clamp(initialOffset, 0, |L0|), L0, limit)
    requires Reached(offsets, initialOffset) - initialOffset <= dst.Position() - Clamp(initialOffset, 0, |L0|)
    modifies dst, dst.dev.backingBuffer
    ensures err.None? <==> (!old(dst.HasPending()) || dst.dev.FaultFreeBelow(old(dst.Position())))
    ensures err.None? ==>
      && dst.Valid() && !dst.HasPending() && dst.Position() == old(dst.Position())
      && dst.seekOrigin == old(dst.seekOrigin) && dst.dev.Contents() == old(dst.logical)
    ensures err.Some? ==>
      && err.value == DeviceFailure
      && FailureExplained(image, initialOffset, L0, dst.dev.Contents(), dst.Settled(), dst.buffer.Length, offsets)
  {
    err := dst.Flush();
    if err.Some? {
      StoppedExplained(dst, image, initialOffset, L0, limit, offsets);
    }
  }

  /** The body of writeImage once both streams stand at initialOffset: the copy loop, then
      the flush when nothing failed. */
  method CopyAndFlush(src: FileSource, dst: BlockDeviceOutputStream, buffer: array<bv8>,
                      imageSize: int, initialOffset: nat)
    returns (outcome: PassOutcome, offsets: seq<int>)
    requires src.Valid() && dst.Valid() && 0 < buffer.Length
    requires buffer != dst.buffer && buffer != dst.dev.backingBuffer
    requires src.pos == Min(initialOffset, |src.data|)
    requires dst.Position() == Clamp(initialOffset, 0, dst.dev.Capacity()) == dst.seekOrigin
    requires dst.logical == dst.dev.Contents()
    modifies src`pos, buffer, dst, dst.buffer, dst.dev.backingBuffer
    ensures src.Valid()
    ensures WriteExplained(outcome, src.data, imageSize, initialOffset, old(dst.dev.Contents()), dst.dev.Contents(),
                           dst.dev.FaultFreeBelow(dst.dev.Capacity()), src.pos, offsets)
    ensures var start := Min(initialOffset, |src.data|);
      outcome.Completed? && start < src.pos ==>
        dst.dev.FaultFreeBelow(Clamp(initialOffset, 0, dst.dev.Capacity()) + (src.pos - start))
    ensures Increasing(offsets, initialOffset)
    ensures Reached(offsets, initialOffset) <= initialOffset + (src.pos - Min(initialOffset, |src.data|))
    ensures outcome == UsbCommunication(Io(DeviceFailure)) ==>
      FailureExplained(src.data, initialOffset, old(dst.dev.Contents()), dst.dev.Contents(), dst.Settled(),
                       dst.buffer.Length, offsets)
  {
    ghost var start, at, L0 := src.pos, dst.Position(), dst.logical;
    var err;
    err, offsets := CopyLoop(src, dst, buffer, imageSize, initialOffset);
    if err == Some(DeviceFailure) {
      StoppedExplained(dst, src.data, initialOffset, L0, src.pos, offsets);
    } else if err.None? {
      assert StoppedAt(dst, src.data, start, at, L0, src.pos);
      err := FlushCopied(dst, src.data, initialOffset, L0, src.pos, offsets);
    }
    outcome := if err.Some? then UsbCommunication(Io(err.value)) else Completed;
  }

  /** writeImage: skips the first initialOffset bytes of the image, seeks the output stream
      to initialOffset, then copies the image chunk by chunk until the offset reaches
      imageSize or the image ends, and flushes. */
  method WriteImage(src: FileSource, dev: MemoryBlockDevice, imageSize: int, bufferSize: nat,
                    initialOffset: nat)
    returns (outcome: PassOutcome, offsets: seq<int>, dst: BlockDeviceOutputStream)
    requires src.Valid() && src.pos == 0 && dev.Valid() && bufferSize > 0
    modifies src, dev.backingBuffer
    ensures fresh(dst) && src.closed && dst.closed && src.Valid()
    ensures WriteExplained(outcome, src.data, imageSize, initialOffset, old(dev.Contents()), dev.Contents(),
                           dev.FaultFreeBelow(dev.Capacity()), src.pos, offsets)
    ensures var start := Min(initialOffset, |src.data|);
      outcome.Completed? && start < src.pos ==>
        dev.FaultFreeBelow(Clamp(initialOffset, 0, dev.Capacity()) + (src.pos - start))
    ensures Increasing(offsets, initialOffset)
    ensures Reached(offsets, initialOffset) <= initialOffset + (src.pos - Min(initialOffset, |src.data|))
    // after a device failure the device keeps its old bytes before the seek offset and the
    // image from there up to the settled offset, at most one buffer behind the last report
    ensures dst.buffer.Length == BUFFER_BLOCKS / QUEUE_SIZE * dev.blockSize
    ensures outcome == UsbCommunication(Io(DeviceFailure)) ==>
      FailureExplained(src.data, initialOffset, old(dev.Contents()), dev.Contents(), dst.Settled(),
                       dst.buffer.Length, offsets)
  {
    var buffer := new bv8[bufferSize];
    dst := OpenOutput(src, dev, initialOffset);
    outcome, offsets := CopyAndFlush(src, dst, buffer, imageSize, initialOffset);
    src.Close();
    dst.Close();
  }

  /** The image and the device agree up to the common cursor of the two streams, and the
      two comparison buffers are equal (both start zeroed, and a pass stops at the first
      chunk where they differ). */
  ghost predicate Matched(src: FileSource, dst: BlockDeviceInputStream,
                          fileBuffer: array<bv8>, deviceBuffer: array<bv8>)
    reads src, dst, dst.dev, dst.dev.backingBuffer, fileBuffer, deviceBuffer
  {
    && src.pos == dst.pos <= dst.dev.Capacity() && src.pos <= |src.data|
    && src.data[..src.pos] == dst.dev.Contents()[..src.pos]
    && (0 < src.pos ==> dst.dev.FaultFreeBelow(src.pos))
    && fileBuffer[..] == deviceBuffer[..]
  }

  /** One round of the verify loop: reads the next chunk of the image into fileBuffer, asks
      the device stream for as many bytes into deviceBuffer, and compares the two buffers.
      `read` is -1 once the image is exhausted; `failure` is how the pass ends otherwise. */
  method CompareChunk(src: FileSource, dst: BlockDeviceInputStream,
                      fileBuffer: array<bv8>, deviceBuffer: array<bv8>)
    returns (read: int, failure: Option<PassOutcome>)
    requires src.Valid() && dst.Valid() && 0 < fileBuffer.Length == deviceBuffer.Length
    requires fileBuffer != deviceBuffer && deviceBuffer != dst.cache
    requires deviceBuffer != dst.dev.backingBuffer && fileBuffer != dst.dev.backingBuffer
    requires fileBuffer != dst.cache
    requires Matched(src, dst, fileBuffer, deviceBuffer)
    modifies src`pos, fileBuffer, dst`cacheBase, dst`cacheLen, dst`pos, dst.cache, deviceBuffer
    ensures src.Valid() && dst.Valid()
    ensures read == -1 <==> old(src.pos) == |src.data|
    ensures read == -1 ==> failure.None? && src.pos == old(src.pos)
    ensures read != -1 ==> 0 < read && src.pos == old(src.pos) + read
    ensures failure.None? ==> Matched(src, dst, fileBuffer, deviceBuffer)
    ensures failure == Some(UsbCommunication(Io(DeviceFailure))) ==>
      !dst.dev.FaultFreeBelow(dst.dev.Capacity())
    ensures failure.Some? && failure.value.UsbCommunication? && failure.value.cause.ShortRead? ==>
      && failure.value.cause.fileRead == read && dst.dev.Capacity() < src.pos
      && failure.value.cause.deviceRead == (if old(src.pos) == dst.dev.Capacity() then -1
                                            else dst.dev.Capacity() - old(src.pos))
    ensures failure == Some(VerificationFailed) ==>
      src.pos <= dst.dev.Capacity() && src.data[old(src.pos)..src.pos] != dst.dev.Contents()[old(src.pos)..src.pos]
    ensures failure.None? || failure == Some(VerificationFailed)
      || failure == Some(UsbCommunication(Io(DeviceFailure)))
      || (failure.value.UsbCommunication? && failure.value.cause.ShortRead?)
    ensures src.pos <= dst.dev.Capacity() && dst.dev.FaultFreeBelow(dst.dev.Capacity()) ==>
      failure.None? || failure == Some(VerificationFailed)
  {
    ghost var p := src.pos;
    read := src.Read(fileBuffer);
    if read == -1 {
      return read, None;
    }
    var r := dst.Read(deviceBuffer, 0, read);
    if r.Err? {
      return read, Some(UsbCommunication(Io(r.error)));
    }
    if r.value < read {
      return read, Some(UsbCommunication(ShortRead(r.value, read)));
    }
    ghost var cap := dst.dev.Capacity();
    SpliceInjective(old(deviceBuffer[..]), 0, src.data[p..src.pos], dst.dev.Contents()[p..src.pos]);
    PrefixExtend(src.data, dst.dev.Contents(), p, src.pos);
    if fileBuffer[..] != deviceBuffer[..] {
      return read, Some(VerificationFailed);
    }
    failure := None;
  }

  /** The set-up of verifyImage: a fresh input stream on dev, both streams at byte 0. */
  method OpenInput(src: FileSource, dev: MemoryBlockDevice) returns (dst: BlockDeviceInputStream)
    requires src.Valid() && src.pos == 0 && dev.Valid()
    modifies src`pos
    ensures fresh(dst) && fresh(dst.cache) && dst.Valid() && dst.dev == dev && !dst.closed
    ensures src.Valid() && src.pos == 0 && dst.pos == 0
  {
    dst := new BlockDeviceInputStream(dev, BUFFER_BLOCKS / QUEUE_SIZE, QUEUE_SIZE);
    var skipped := src.Skip(0);
    var moved := dst.Skip(0);
  }

  /** What the outcome of a verify pass tells about the image and the device contents
      `disk`, when the pass has matched the first m bytes and stopped with the image
      cursor at q; `healthy` is whether the whole device reads without a fault. */
  ghost predicate VerifyExplained(outcome: PassOutcome, image: seq<bv8>, disk: seq<bv8>,
                                  healthy: bool, m: int, q: int)
  {
    && 0 <= m <= |image| && m <= |disk| && image[..m] == disk[..m]
    && (outcome.UsbCommunication? && outcome.cause.Io? ==>
          outcome.cause.error == DeviceFailure && !healthy)
    && (outcome.UsbCommunication? && outcome.cause.ShortRead? ==>
          && 0 < outcome.cause.fileRead && q == m + outcome.cause.fileRead <= |image|
          && |disk| < q
          && outcome.cause.deviceRead == (if m == |disk| then -1 else |disk| - m))
    && (outcome.VerificationFailed? ==>
          m < q <= |disk| && q <= |image| && image[m..q] != disk[m..q])
  }

  /** A failed verification means the device does not hold the image: the two differ
      below the cursor where the pass stopped. */
  lemma VerifyMismatch(outcome: PassOutcome, image: seq<bv8>, disk: seq<bv8>, healthy: bool, m: int, q: int)
    requires VerifyExplained(outcome, image, disk, healthy, m, q) && outcome.VerificationFailed?
    ensures q <= |image| && q <= |disk| && image[..q] != disk[..q]
    ensures |image| <= |disk| ==> disk[..|image|] != image
  {
    PrefixExtend(image, disk, m, q);
  }

  /** The compare loop of verifyImage, polling the cancellation flag before each chunk. */
  method CompareLoop(src: FileSource, dst: BlockDeviceInputStream,
                     fileBuffer: array<bv8>, deviceBuffer: array<bv8>, cancelAt: Option<nat>)
    returns (outcome: PassOutcome, offsets: seq<int>)
    requires src.Valid() && dst.Valid() && 0 < fileBuffer.Length == deviceBuffer.Length
    requires fileBuffer != deviceBuffer && deviceBuffer != dst.cache && fileBuffer != dst.cache
    requires deviceBuffer != dst.dev.backingBuffer && fileBuffer != dst.dev.backingBuffer
    requires Matched(src, dst, fileBuffer, deviceBuffer) && src.pos == 0
    modifies src`pos, fileBuffer, dst`cacheBase, dst`cacheLen, dst`pos, dst.cache, deviceBuffer
    ensures src.Valid() && dst.Valid()
    ensures Increasing(offsets, 0)
    ensures VerifyExplained(outcome, src.data, dst.dev.Contents(), dst.dev.FaultFreeBelow(dst.dev.Capacity()),
                            Reached(offsets, 0), src.pos)
    ensures outcome.Completed? ==> Reached(offsets, 0) == |src.data| || CanceledAt(cancelAt, |offsets|)
    ensures outcome.Completed? && 0 < Reached(offsets, 0) ==> dst.dev.FaultFreeBelow(Reached(offsets, 0))
    ensures |src.data| <= dst.dev.Capacity() && dst.dev.FaultFreeBelow(dst.dev.Capacity()) ==>
      outcome.Completed? || outcome.VerificationFailed?
  {
    ghost var disk, healthy := dst.dev.Contents(), dst.dev.FaultFreeBelow(dst.dev.Capacity());
    var currentOffset := 0;
    outcome, offsets := Completed, [];
    var done := false;
    while !done
      invariant src.Valid() && dst.Valid()
      invariant disk == dst.dev.Contents() && healthy == dst.dev.FaultFreeBelow(dst.dev.Capacity())
      invariant Increasing(offsets, 0)
      invariant VerifyExplained(outcome, src.data, disk, healthy, Reached(offsets, 0), src.pos)
      invariant outcome.Completed? ==>
        && Matched(src, dst, fileBuffer, deviceBuffer) && currentOffset == src.pos == Reached(offsets, 0)
        && (done ==> src.pos == |src.data| || CanceledAt(cancelAt, |offsets|))
      invariant |src.data| <= |disk| && healthy ==> outcome.Completed? || outcome.VerificationFailed?
      invariant !outcome.Completed? ==> done
      decreases |src.data| - src.pos, !done
    {
      if CanceledAt(cancelAt, |offsets|) {
        done := true;
      } else {
        var read, failure := CompareChunk(src, dst, fileBuffer, deviceBuffer);
        if read == -1 {
          done := true;
        } else if failure.Some? {
          outcome, done := failure.value, true;
        } else {
          currentOffset := currentOffset + read;
          IncreasingAppend(offsets, 0, currentOffset);
          offsets := offsets + [currentOffset];
        }
      }
    }
  }

  /** verifyImage: reads the image and the device from byte 0 in chunks of VERIFY_CHUNK
      bytes and compares them, until the image ends, a chunk differs, the device fails or
      comes up short, or the cancellation flag is seen set. */
  method VerifyImage(src: FileSource, dev: MemoryBlockDevice, cancelAt: Option<nat>)
    returns (outcome: PassOutcome, offsets: seq<int>, dst: BlockDeviceInputStream)
    requires src.Valid() && src.pos == 0 && dev.Valid()
    modifies src
    ensures fresh(dst) && src.closed && dst.closed && src.Valid()
    ensures Increasing(offsets, 0)
    ensures VerifyExplained(outcome, src.data, dev.Contents(), dev.FaultFreeBelow(dev.Capacity()),
                            Reached(offsets, 0), src.pos)
    ensures outcome.Completed? ==> Reached(offsets, 0) == |src.data| || CanceledAt(cancelAt, |offsets|)
    ensures outcome.Completed? && 0 < Reached(offsets, 0) ==> dev.FaultFreeBelow(Reached(offsets, 0))
    ensures |src.data| <= dev.Capacity() && dev.FaultFreeBelow(dev.Capacity()) ==>
      outcome.Completed? || outcome.VerificationFailed?
  {
    dst := OpenInput(src, dev);
    var fileBuffer := new bv8[VERIFY_CHUNK](_ => 0);
    var deviceBuffer := new bv8[VERIFY_CHUNK](_ => 0);
    outcome, offsets := CompareLoop(src, dst, fileBuffer, deviceBuffer, cancelAt);
    src.Close();
    dst.Close();
  }
}
