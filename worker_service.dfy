/** The job logic of `WorkerService.onStartCommand` around the two passes: where a resumed
    write restarts, the capacity check, the write pass followed by a verify pass from byte
    0, and the throttled, smoothed progress reports. */
module WorkerService {
  import opened Common
  import opened BlockDevice
  import opened ImageSource
  import opened WorkerServiceFlow
  import opened WorkerConfig

  /** Kotlin's `/` on integers: truncated towards zero (Dafny's own `/` is Euclidean). */
  function KtDiv(a: int, b: int): int
    requires b > 0
  {
    if a >= 0 then a / b else -((-a) / b)
  }

  /** Kotlin's `%` on integers: the remainder of the truncated division, so it takes the
      sign of the dividend. */
  function KtRem(a: int, b: int): (r: int)
    requires b > 0
    ensures a == b * KtDiv(a, b) + r
    ensures a >= 0 ==> 0 <= r < b
    ensures a < 0 ==> -b < r <= 0
  {
    if a >= 0 then a % b else -((-a) % b)
  }

  /** The byte the write pass resumes from when a job is restarted at `offset`: the offset
      rounded down to a block, then moved back 2 * BUFFER_BLOCKS blocks, but not below 0. */
  function ResumeOffset(offset: int, blockSize: int): (r: int)
    requires blockSize > 0
    ensures r >= 0 && Aligned(r, blockSize)
    ensures offset >= 0 ==> r <= offset && offset - r < blockSize * (2 * BUFFER_BLOCKS + 1)
    ensures r == 0 <==> offset < blockSize * (2 * BUFFER_BLOCKS + 1)
    // a resumed write starts at least 2 * BUFFER_BLOCKS blocks before the offset reached
    ensures offset >= 0 && r > 0 ==> offset - r >= 2 * BUFFER_BLOCKS * blockSize
    ensures offset >= 0 ==> r == Max(AlignDown(offset, blockSize) - 2 * BUFFER_BLOCKS * blockSize, 0)
  {
    var aligned := offset - KtRem(offset, blockSize);
    ResumeArithmetic(offset, blockSize, KtDiv(offset, blockSize), KtRem(offset, blockSize));
    Max(aligned - blockSize * BUFFER_BLOCKS * 2, 0)
  }

  /** The arithmetic behind ResumeOffset, with the quotient q and remainder e of offset. */
  lemma ResumeArithmetic(offset: int, b: int, q: int, e: int)
    requires b > 0 && offset == b * q + e
    requires offset >= 0 ==> 0 <= e < b
    requires offset < 0 ==> -b < e <= 0
    ensures var r := Max(offset - e - b * BUFFER_BLOCKS * 2, 0);
      && r >= 0 && Aligned(r, b)
      && (r == 0 <==> offset < b * (2 * BUFFER_BLOCKS + 1))
    ensures offset >= 0 ==> offset - e == AlignDown(offset, b)
  {
    var k := 2 * BUFFER_BLOCKS;
    var bq := b * q;
    MulMonotone(b, q, k);
    MulMonotone(b, q, k + 1);
    if offset >= 0 {
      MulMonotone(b, -1, q);
      MulAligned(q, b);
      assert q * b == bq;
      AlignDownUnique(offset, bq, b);
    }
    if q > k {
      MulAligned(q - k, b);
      assert (q - k) * b == bq - b * k;
    } else {
      MulAligned(0, b);
    }
  }

  /** Why a job ended without the finished broadcast. */
  datatype JobFailure =
    | NotEnoughSpace(sourceSize: int, destSize: int)   // NotEnoughSpaceException
    | PassFailed(outcome: PassOutcome)                 // an exception out of a pass

  /** The final broadcast of a job: finished, or an error carrying the offset a retry
      would resume from (the last one either pass reported). */
  datatype JobResult =
    | Finished
    | Failed(failure: JobFailure, currentOffset: int)

  /** The capacity check: the job is refused when the device is smaller than the image. */
  predicate FitsOnDevice(blocks: nat, blockSize: nat, imageSize: nat)
  {
    imageSize <= blocks * blockSize
  }

  /** A write pass over the whole image that completed from resume offset r leaves the
      whole image on the device, provided the device already held the image below r. */
  lemma ResumedWriteHoldsImage(image: seq<bv8>, r: nat, before: seq<bv8>, after: seq<bv8>,
                               healthy: bool, pos: int, offsets: seq<int>)
    requires WriteExplained(Completed, image, |image|, r, before, after, healthy, pos, offsets)
    requires |image| <= |before| && before[..Min(r, |image|)] == image[..Min(r, |image|)]
    ensures after[..|image|] == image
  {
    var start := Min(r, |image|);
    assert pos == |image|;
    if r <= |image| {
      assert start == r == Clamp(r, 0, |before|) && image[start..pos] == image[r..];
      SpliceSlices(before, r, image[r..]);
      assert after[..r] == image[..r] && after[r..|image|] == image[r..];
      assert after[..|image|] == after[..r] + after[r..|image|];
      assert image == image[..r] + image[r..];
    } else {
      SpliceEmpty(before, Clamp(r, 0, |before|));
      assert image[start..pos] == [];
    }
  }

  /** After a write pass from resume offset r failed on the device, the device still holds
      the image below the offset the pass last reported minus one buffer of bufLen bytes,
      provided it already held the image below r. */
  lemma FailedWriteKeepsPrefix(image: seq<bv8>, r: nat, before: seq<bv8>, after: seq<bv8>,
                               settled: int, bufLen: int, offsets: seq<int>)
    requires FailureExplained(image, r, before, after, settled, bufLen, offsets)
    requires |image| <= |before| && before[..Min(r, |image|)] == image[..Min(r, |image|)]
    ensures var p := Min(Max(Reached(offsets, r) - bufLen, 0), |image|);
      after[..p] == image[..p]
  {
    var p := Min(Max(Reached(offsets, r) - bufLen, 0), |image|);
    var at := Clamp(r, 0, |before|);
    if p <= at {
      assert after[..p] == after[..at][..p] == before[..at][..p] == before[..p];
      assert before[..p] == before[..Min(r, |image|)][..p];
    } else {
      assert at == r == Min(r, |image|) && p <= settled;
      assert after[at..settled] == image[at..settled];
      forall i | 0 <= i < p ensures after[i] == image[i] {
        if i < at {
          assert after[i] == after[..at][i] == before[..at][i] == image[..at][i];
        } else {
          assert after[i] == after[at..settled][i - at] == image[at..settled][i - at];
        }
      }
    }
  }

  /** The resume step back of 2 * BUFFER_BLOCKS blocks covers the write-behind buffer of
      BUFFER_BLOCKS / QUEUE_SIZE blocks: when a disk holds the image up to one buffer
      before `reached`, it holds it below the offset a retry resumes from. */
  lemma ResumeWithinKept(image: seq<bv8>, disk: seq<bv8>, reached: int, bs: int)
    requires bs > 0 && reached >= 0
    requires var kept := Min(Max(reached - BUFFER_BLOCKS / QUEUE_SIZE * bs, 0), |image|);
      kept <= |disk| && disk[..kept] == image[..kept]
    ensures var next := Min(ResumeOffset(reached, bs), |image|);
      next <= |disk| && disk[..next] == image[..next]
  {
    var kept := Min(Max(reached - BUFFER_BLOCKS / QUEUE_SIZE * bs, 0), |image|);
    var next := Min(ResumeOffset(reached, bs), |image|);
    assert next <= kept;
    assert disk[..next] == disk[..kept][..next];
  }

  /** The write step of a job: the image opened afresh and written from the resume offset
      with BUFFER_BLOCKS-block buffers; returns the pass outcome and the offset reached. */
  method WriteStep(image: seq<bv8>, dev: MemoryBlockDevice, resume: nat) returns (outcome: PassOutcome, reached: int)
    requires dev.Valid() && |image| <= dev.Capacity()
    modifies dev.backingBuffer
    ensures outcome.Completed? || outcome == UsbCommunication(Io(DeviceFailure))
    ensures outcome == UsbCommunication(Io(DeviceFailure)) ==> !dev.FaultFreeBelow(dev.Capacity())
    ensures resume <= reached <= Max(resume, |image|)
    ensures outcome.Completed? && resume <= |image| ==> reached == |image|
    ensures dev.FaultFreeBelow(dev.Capacity()) ==> outcome.Completed?
    ensures var held := Min(resume, |image|);
      outcome.Completed? && old(dev.Contents())[..held] == image[..held] ==> dev.Contents()[..|image|] == image
    // a failed pass leaves the image in place up to one write-behind buffer before the
    // offset it last reported
    ensures var held, kept := Min(resume, |image|),
                              Min(Max(reached - BUFFER_BLOCKS / QUEUE_SIZE * dev.blockSize, 0), |image|);
      outcome.UsbCommunication? && old(dev.Contents())[..held] == image[..held] ==>
        dev.Contents()[..kept] == image[..kept]
  {
    var src := new FileSource(image);
    var offsets, dst;
    outcome, offsets, dst := WriteImage(src, dev, |image|, BUFFER_BLOCKS * dev.blockSize, resume);
    ghost var held := Min(resume, |image|);
    if outcome.Completed? && old(dev.Contents())[..held] == image[..held] {
      ResumedWriteHoldsImage(image, resume, old(dev.Contents()), dev.Contents(),
                             dev.FaultFreeBelow(dev.Capacity()), src.pos, offsets);
    }
    if outcome.UsbCommunication? && old(dev.Contents())[..held] == image[..held] {
      FailedWriteKeepsPrefix(image, resume, old(dev.Contents()), dev.Contents(), dst.Settled(),
                             dst.buffer.Length, offsets);
    }
    reached := Reached(offsets, resume);
  }

  /** The verify step of a job: the image opened afresh and compared with the device from
      byte 0; returns the pass outcome and the offset reached. */
  method VerifyStep(image: seq<bv8>, dev: MemoryBlockDevice, cancelAt: Option<nat>)
    returns (outcome: PassOutcome, reached: int)
    requires dev.Valid() && |image| <= dev.Capacity()
    ensures outcome.Completed? && cancelAt.None? ==> dev.Contents()[..|image|] == image
    ensures outcome.Completed? && cancelAt.None? ==> reached == |image|
    ensures outcome.Completed? && 0 < reached ==> dev.FaultFreeBelow(reached)
    ensures outcome.UsbCommunication? ==> outcome.cause == Io(DeviceFailure) && !dev.FaultFreeBelow(dev.Capacity())
    ensures outcome.VerificationFailed? ==> dev.Contents()[..|image|] != image
    ensures dev.FaultFreeBelow(dev.Capacity()) && dev.Contents()[..|image|] == image ==> outcome.Completed?
    ensures 0 <= reached <= |image|
  {
    var src := new FileSource(image);
    var offsets, dst;
    outcome, offsets, dst := VerifyImage(src, dev, cancelAt);
    if outcome.VerificationFailed? {
      VerifyMismatch(outcome, image, dev.Contents(), dev.FaultFreeBelow(dev.Capacity()),
                     Reached(offsets, 0), src.pos);
    }
    reached := Reached(offsets, 0);
  }

  /** The body of a flashing job on `dev` for the image content `image`, restarted at
      `offset`: the capacity check, then (unless verifyOnly) the write pass from the
      resume offset, then the verify pass over the whole image from byte 0. */
  method RunJob(image: seq<bv8>, dev: MemoryBlockDevice, offset: int, verifyOnly: bool,
                cancelAt: Option<nat>)
    returns (result: JobResult)
    requires dev.Valid()
    modifies dev.backingBuffer
    ensures !FitsOnDevice(dev.blocks, dev.blockSize, |image|) ==>
      && result == Failed(NotEnoughSpace(|image|, dev.blocks * dev.blockSize), ResumeOffset(offset, dev.blockSize))
      && dev.Contents() == old(dev.Contents())
    ensures verifyOnly ==> dev.Contents() == old(dev.Contents())
    ensures result.Finished? ==> FitsOnDevice(dev.blocks, dev.blockSize, |image|)
    ensures result.Finished? && cancelAt.None? ==> dev.Contents()[..|image|] == image
    ensures result.Failed? && result.failure == PassFailed(VerificationFailed) ==>
      dev.Contents()[..|image|] != image
    ensures var held := if verifyOnly then |image| else Min(ResumeOffset(offset, dev.blockSize), |image|);
      && FitsOnDevice(dev.blocks, dev.blockSize, |image|) && dev.FaultFreeBelow(dev.Capacity())
      && old(dev.Contents())[..held] == image[..held]
      ==> result.Finished? && dev.Contents()[..|image|] == image
    // a job that gave up on the device reports an offset a retry can resume from: the
    // device already holds the image below its resume offset
    ensures var held := if verifyOnly then |image| else Min(ResumeOffset(offset, dev.blockSize), |image|);
      && result.Failed? && result.failure.PassFailed? && result.failure.outcome.UsbCommunication?
      && FitsOnDevice(dev.blocks, dev.blockSize, |image|) && old(dev.Contents())[..held] == image[..held]
      ==> var next := Min(ResumeOffset(result.currentOffset, dev.blockSize), |image|);
        dev.Contents()[..next] == image[..next]
  {
    var currentOffset := ResumeOffset(offset, dev.blockSize);
    var devSize := dev.blocks * dev.blockSize;
    var imageSize := |image|;
    if devSize < imageSize {
      return Failed(NotEnoughSpace(imageSize, devSize), currentOffset);
    }
    if !verifyOnly {
      var outcome;
      ghost var held := Min(currentOffset, |image|);
      ghost var heldBefore := old(dev.Contents())[..held] == image[..held];
      outcome, currentOffset := WriteStep(image, dev, currentOffset);
      if !outcome.Completed? {
        if heldBefore {
          ResumeWithinKept(image, dev.Contents(), currentOffset, dev.blockSize);
        }
        return Failed(PassFailed(outcome), currentOffset);
      }
    }
    currentOffset := 0;
    var outcome;
    outcome, currentOffset := VerifyStep(image, dev, cancelAt);
    if !outcome.Completed? {
      ghost var next := Min(ResumeOffset(currentOffset, dev.blockSize), |image|);
      assert dev.Contents()[..next] == dev.Contents()[..|image|][..next];
      return Failed(PassFailed(outcome), currentOffset);
    }
    result := Finished;
  }

  // ---------------------------------------------------------------------------
  // Progress reports. Speeds are Kotlin Floats and Doubles in the code; they are real
  // numbers here, so rounding is not modelled.

  /** A progress broadcast: the smoothed speed in bytes per second and the position. */
  datatype ProgressReport = ProgressReport(speed: real, processedBytes: int, imageSize: int, isVerifying: bool)

  /** The sum of s[i] * (i + 1): sample i of the window weighs i + 1, the newest the most. */
  function WeightedSum(s: seq<real>): real
  {
    if s == [] then 0.0 else WeightedSum(s[..|s| - 1]) + s[|s| - 1] * (|s| as real)
  }

  /** (1..n).sum(): the sum of the weights of a window of n samples. */
  function TriangleSum(n: nat): (t: nat)
    ensures n <= t
  {
    if n == 0 then 0 else TriangleSum(n - 1) + n
  }

  /** The weights of a window of n samples add up to n(n + 1)/2. */
  lemma {:induction false} TriangleClosedForm(n: nat)
    ensures 2 * TriangleSum(n) == n * (n + 1)
  {
    if n > 0 {
      TriangleClosedForm(n - 1);
      assert n * (n + 1) == (n - 1) * n + 2 * n;
    }
  }

  /** The reported speed: the weighted sum of the window over the sum of its weights. */
  function WeightedAverage(s: seq<real>): real
    requires s != []
  {
    WeightedSum(s) / (TriangleSum(|s|) as real)
  }

  lemma {:induction false} WeightedSumBounds(s: seq<real>, lo: real, hi: real)
    requires forall i | 0 <= i < |s| :: lo <= s[i] <= hi
    ensures lo * (TriangleSum(|s|) as real) <= WeightedSum(s) <= hi * (TriangleSum(|s|) as real)
  {
    if s != [] {
      var n := |s|;
      var t := s[..n - 1];
      assert forall i | 0 <= i < |t| :: t[i] == s[i];
      WeightedSumBounds(t, lo, hi);
      var w, x := n as real, s[n - 1];
      ScaleMonotone(lo, x, w);
      ScaleMonotone(x, hi, w);
      StepBounds(lo, hi, TriangleSum(n - 1) as real, WeightedSum(t), w, x);
    }
  }

  /** One step of WeightedSumBounds, as arithmetic on reals. */
  lemma StepBounds(lo: real, hi: real, tri: real, sum: real, w: real, x: real)
    requires lo * tri <= sum <= hi * tri && lo * w <= x * w <= hi * w
    ensures lo * (tri + w) <= sum + x * w <= hi * (tri + w)
  {
    assert lo * (tri + w) == lo * tri + lo * w;
    assert hi * (tri + w) == hi * tri + hi * w;
  }

  lemma ScaleMonotone(a: real, b: real, c: real)
    requires a <= b && 0.0 <= c
    ensures a * c <= b * c
  {
  }

  /** A quotient by a positive t lies between the bounds that t times them put on x. */
  lemma QuotientBounds(x: real, t: real, lo: real, hi: real)
    requires 0.0 < t && lo * t <= x <= hi * t
    ensures lo <= x / t <= hi
  {
  }

  /** The reported speed lies between the slowest and the fastest sample of the window. */
  lemma WeightedAverageBounds(s: seq<real>, lo: real, hi: real)
    requires s != [] && forall i | 0 <= i < |s| :: lo <= s[i] <= hi
    ensures lo <= WeightedAverage(s) <= hi
  {
    WeightedSumBounds(s, lo, hi);
    QuotientBounds(WeightedSum(s), TriangleSum(|s|) as real, lo, hi);
  }

  /** A window of equal samples reports that speed. */
  lemma WeightedAverageConstant(s: seq<real>, c: real)
    requires s != [] && forall i | 0 <= i < |s| :: s[i] == c
    ensures WeightedAverage(s) == c
  {
    WeightedAverageBounds(s, c, c);
  }

  /** The progress state of WorkerService: the time of the last broadcast, the bytes moved
      since then, and the window of the last speeds. */
  class ProgressTracker {
    var lastProgressUpdate: int
    var bytesSinceLastUpdate: real
    var lastSpeeds: seq<real>

    ghost predicate Valid()
      reads this
    {
      |lastSpeeds| <= SPEED_WINDOW
    }

    constructor ()
      ensures Valid() && lastProgressUpdate == -1 && bytesSinceLastUpdate == 0.0 && lastSpeeds == []
    {
      lastProgressUpdate := -1;
      bytesSinceLastUpdate := 0.0;
      lastSpeeds := [];
    }

    /** sendProgressUpdate at time `now` (milliseconds): counts the bytes, and unless the
        last broadcast is less than PROGRESS_UPDATE_INTERVAL old, turns them into a speed
        sample, slides the window and reports its weighted average. */
    method SendProgressUpdate(lastWrittenBytes: int, processedBytes: int, imageSize: int,
                              isVerifying: bool, now: int)
      returns (report: Option<ProgressReport>)
      requires Valid()
      modifies this
      ensures Valid()
      ensures report.None? <==> old(lastProgressUpdate) + PROGRESS_UPDATE_INTERVAL > now
      ensures report.None? ==>
        && lastProgressUpdate == old(lastProgressUpdate) && lastSpeeds == old(lastSpeeds)
        && bytesSinceLastUpdate == old(bytesSinceLastUpdate) + lastWrittenBytes as real
      ensures report.Some? ==>
        var interval := now - old(lastProgressUpdate);
        var speed := (old(bytesSinceLastUpdate) + lastWrittenBytes as real) / (interval as real) * 1000.0;
        && PROGRESS_UPDATE_INTERVAL <= interval
        && lastProgressUpdate == now && bytesSinceLastUpdate == 0.0
        && (|old(lastSpeeds)| < SPEED_WINDOW ==> lastSpeeds == old(lastSpeeds) + [speed])
        && (|old(lastSpeeds)| == SPEED_WINDOW ==> lastSpeeds == old(lastSpeeds)[1..] + [speed])
        && report.value == ProgressReport(WeightedAverage(lastSpeeds), processedBytes, imageSize, isVerifying)
    {
      bytesSinceLastUpdate := bytesSinceLastUpdate + lastWrittenBytes as real;
      if lastProgressUpdate + PROGRESS_UPDATE_INTERVAL > now {
        return None;
      }
      var interval := now - lastProgressUpdate;
      var speed := bytesSinceLastUpdate / ((if interval > 0 then interval else PROGRESS_UPDATE_INTERVAL) as real) * 1000.0;
      lastSpeeds := lastSpeeds + [speed];
      if |lastSpeeds| > SPEED_WINDOW {
        lastSpeeds := lastSpeeds[1..];
      }
      var newSpeed := WeightedAverage(lastSpeeds);
      report := Some(ProgressReport(newSpeed, processedBytes, imageSize, isVerifying));
      lastProgressUpdate := now;
      bytesSinceLastUpdate := 0.0;
    }

    /** mLast10Speeds.clear(), done before the verify pass. */
    method ClearSpeeds()
      requires Valid()
      modifies this`lastSpeeds
      ensures Valid() && lastSpeeds == []
    {
      lastSpeeds := [];
    }
  }
}
