/** The end-to-end scenarios of the engine's flow tests, replayed on the model for every
    image and every device geometry that fits them rather than for one random draw. */
module FlowScenarios {
  import opened Common
  import opened BlockDevice
  import opened ImageSource
  import opened WorkerServiceFlow
  import opened WorkerConfig
  import opened WorkerService

  /** A fresh zero-filled device of `blocks` blocks with `throwAtBlockOffset` set to fault. */
  method NewDevice(blocks: nat, blockSize: nat, fault: Option<nat>) returns (dev: MemoryBlockDevice)
    requires blockSize > 0
    ensures fresh(dev) && fresh(dev.backingBuffer) && dev.Valid() && dev.Capacity() == blocks * blockSize
    ensures dev.blockSize == blockSize
    ensures dev.faultStart == (if fault.Some? then Some(fault.value * blockSize) else None)
    ensures dev.FaultFreeBelow(dev.Capacity()) <==> fault.None? || blocks <= fault.value
  {
    dev := new MemoryBlockDevice(blocks, blockSize);
    dev.SetThrowAtBlockOffset(fault);
    if fault.Some? {
      MulMonotone(blockSize, blocks, fault.value);
    }
  }

  /** The basic flow: an image no larger than a healthy device is written from offset 0,
      the last reported offset is the image size, and verifying it right afterwards also
      completes at the image size. The test runs this for block sizes 512, 4096 and 733. */
  method BasicWriteVerify(image: seq<bv8>, blocks: nat, blockSize: nat)
    returns (written: PassOutcome, writeOffset: int, verified: PassOutcome, verifyOffset: int)
    requires blockSize > 0 && |image| <= blocks * blockSize
    ensures written == Completed && writeOffset == |image|
    ensures verified == Completed && verifyOffset == |image|
  {
    var dev := NewDevice(blocks, blockSize, None);
    written, writeOffset := WriteStep(image, dev, 0);
    verified, verifyOffset := VerifyStep(image, dev, None);
  }

  /** writeImage called without the service's capacity check, with an image larger than a
      healthy device: the pass ends with "No space left on device" wrapped as a
      communication failure. */
  method NoSpaceLeftOnDevice(image: seq<bv8>, blocks: nat, blockSize: nat) returns (written: PassOutcome)
    requires blockSize > 0 && blocks * blockSize < |image|
    ensures written == UsbCommunication(Io(NoSpaceLeft))
  {
    var dev := NewDevice(blocks, blockSize, None);
    var src := new FileSource(image);
    var offsets, out;
    written, offsets, out := WriteImage(src, dev, |image|, BUFFER_BLOCKS * blockSize, 0);
  }

  /** A device that fails from block k on, with k inside the image (the test uses
      k = 2 * BUFFER_BLOCKS): the write pass ends with the device's error wrapped. */
  method UnplugMidWrite(image: seq<bv8>, blocks: nat, blockSize: nat, k: nat) returns (written: PassOutcome)
    requires blockSize > 0 && |image| <= blocks * blockSize && k * blockSize < |image|
    ensures written == UsbCommunication(Io(DeviceFailure))
  {
    MulMonotone(blockSize, k, blocks);
    var dev := NewDevice(blocks, blockSize, Some(k));
    var src := new FileSource(image);
    var offsets, out;
    written, offsets, out := WriteImage(src, dev, |image|, BUFFER_BLOCKS * blockSize, 0);
  }

  /** The image is written to a healthy device, then the device starts failing from
      block k, inside the image: the write completes and the verify pass ends with the
      device's error wrapped. */
  method UnplugMidVerify(image: seq<bv8>, blocks: nat, blockSize: nat, k: nat)
    returns (written: PassOutcome, verified: PassOutcome)
    requires blockSize > 0 && |image| <= blocks * blockSize && k * blockSize < |image|
    ensures written == Completed
    ensures verified == UsbCommunication(Io(DeviceFailure))
  {
    var dev := NewDevice(blocks, blockSize, None);
    var reached;
    assert dev.Contents()[..0] == image[..0];
    written, reached := WriteStep(image, dev, 0);
    assert dev.Contents()[..|image|] == image;
    dev.SetThrowAtBlockOffset(Some(k));
    assert !dev.FaultFreeBelow(|image|);
    verified, reached := VerifyStep(image, dev, None);
  }
}
