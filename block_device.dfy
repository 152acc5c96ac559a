/** The in-memory block device the tests drive the engine with: `blocks` blocks of
    `blockSize` bytes held in one backing buffer, and an optional injected fault
    (`throwAtBlockOffset`) that makes every request reaching block k or later fail. */
module BlockDevice {
  import opened Common

  class MemoryBlockDevice {
    const blockSize: nat
    const blocks: nat
    const backingBuffer: array<bv8>
    /** The injected fault (`throwAtBlockOffset`), kept as the byte offset of the first
        faulty block: when Some(f), a request reaching byte f or beyond fails. */
    var faultStart: Option<nat>

    ghost predicate Valid()
      reads this
    {
      && blockSize > 0 && backingBuffer.Length == blocks * blockSize
      && Aligned(backingBuffer.Length, blockSize)
      && (faultStart.Some? ==> Aligned(faultStart.value, blockSize))
    }

    /** The size of the device in bytes. */
    function Capacity(): nat { backingBuffer.Length }

    ghost function Contents(): seq<bv8>
      reads backingBuffer
    {
      backingBuffer[..]
    }

    /** No request that ends at byte `end` or earlier reaches the faulty block. */
    predicate FaultFreeBelow(end: nat)
      reads this
    {
      faultStart.None? || end <= faultStart.value
    }

    /** A device of `blocks` zero-filled blocks, as the test double starts. */
    constructor (blocks: nat, blockSize: nat)
      requires blockSize > 0
      ensures Valid() && this.blocks == blocks && this.blockSize == blockSize
      ensures Capacity() == blocks * blockSize
      ensures Contents() == seq(blocks * blockSize, _ => 0) && faultStart.None?
      ensures fresh(backingBuffer)
    {
      this.blocks := blocks;
      this.blockSize := blockSize;
      backingBuffer := new bv8[blocks * blockSize](_ => 0);
      faultStart := None;
      MulAligned(blocks, blockSize);
    }

    /** Configures the injected fault: every request touching block k or a later one fails. */
    method SetThrowAtBlockOffset(k: Option<nat>)
      requires Valid()
      modifies this
      ensures Valid()
      ensures faultStart == (if k.Some? then Some(k.value * blockSize) else None)
    {
      if k.Some? {
        MulAligned(k.value, blockSize);
        faultStart := Some(k.value * blockSize);
      } else {
        faultStart := None;
      }
    }

    /** The failure, if any, of a request for the `len` bytes starting at `offset`. */
    predicate RequestFails(offset: nat, len: nat)
      reads this
    {
      !FaultFreeBelow(offset + len) || offset + len > Capacity()
    }

    /** Reads the `len` bytes (whole blocks) starting at byte `offset`. */
    method Read(offset: nat, len: nat) returns (err: Option<IoError>, data: seq<bv8>)
      requires Valid() && Aligned(offset, blockSize) && Aligned(len, blockSize)
      ensures err.None? <==> !RequestFails(offset, len)
      ensures err.Some? ==> err.value == (if !FaultFreeBelow(offset + len) then DeviceFailure else OutOfRange)
      ensures err.None? ==> data == Contents()[offset..offset + len]
    {
      if !FaultFreeBelow(offset + len) {
        return Some(DeviceFailure), [];
      }
      if offset + len > Capacity() {
        return Some(OutOfRange), [];
      }
      err, data := None, backingBuffer[offset..offset + len];
    }

    /** Writes `data` (whole blocks) at byte `offset`. */
    method Write(offset: nat, data: seq<bv8>) returns (err: Option<IoError>)
      requires Valid() && Aligned(offset, blockSize) && Aligned(|data|, blockSize)
      modifies backingBuffer
      ensures err.None? <==> !RequestFails(offset, |data|)
      ensures err.Some? ==> err.value == (if !FaultFreeBelow(offset + |data|) then DeviceFailure else OutOfRange)
      ensures err.None? ==> Contents() == Splice(old(Contents()), offset, data)
      ensures err.Some? ==> Contents() == old(Contents())
    {
      if !FaultFreeBelow(offset + |data|) {
        return Some(DeviceFailure);
      }
      if offset + |data| > Capacity() {
        return Some(OutOfRange);
      }
      forall i | 0 <= i < |data| {
        backingBuffer[offset + i] := data[i];
      }
      assert forall i | 0 <= i < backingBuffer.Length ::
        backingBuffer[i] == Splice(old(Contents()), offset, data)[i] by {
        forall i | 0 <= i < backingBuffer.Length
          ensures backingBuffer[i] == Splice(old(Contents()), offset, data)[i] {
          SpliceAt(old(Contents()), offset, data, i);
        }
      }
      err := None;
    }
  }

  /** Fault-freeness is monotone: a fault-free prefix has fault-free prefixes. */
  lemma FaultFreeMonotone(dev: MemoryBlockDevice, a: nat, b: nat)
    requires a <= b && dev.FaultFreeBelow(b)
    ensures dev.FaultFreeBelow(a)
  {
  }

  /** The faulty block starts on a block boundary, so rounding a bound up to whole
      blocks does not change whether the fault is reached. */
  lemma FaultFreeAligned(dev: MemoryBlockDevice, x: nat)
    requires dev.Valid()
    ensures dev.FaultFreeBelow(AlignUp(x, dev.blockSize)) <==> dev.FaultFreeBelow(x)
  {
    if dev.faultStart.Some? && x <= dev.faultStart.value {
      AlignUpBelow(x, dev.faultStart.value, dev.blockSize);
    }
  }
}
