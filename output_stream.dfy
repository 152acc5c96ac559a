/** The write-behind stream over a block device: bytes written at the cursor collect in a
    buffer of `bufferBlocks` blocks and reach the device as whole blocks, when the buffer
    fills or on flush; a partially covered block is read back first so that its other
    bytes survive (read-modify-write). The queue of buffers drained in the background is
    modelled by this single buffer, drained in place. */
module OutputStream {
  import opened Common
  import opened BlockDevice

  /** Reads the block at `blockStart` and keeps its bytes [from, to). */
  method ReadPart(dev: MemoryBlockDevice, blockStart: nat, from: nat, to: nat)
    returns (err: Option<IoError>, part: seq<bv8>)
    requires dev.Valid() && Aligned(blockStart, dev.blockSize)
    requires blockStart <= from <= to <= blockStart + dev.blockSize <= dev.Capacity()
    ensures err.None? <==> dev.FaultFreeBelow(blockStart + dev.blockSize)
    ensures err.Some? ==> err.value == DeviceFailure
    ensures err.None? ==> part == dev.Contents()[from..to]
  {
    var blk;
    err, blk := dev.Read(blockStart, dev.blockSize);
    if err.Some? {
      return err, [];
    }
    part := blk[from - blockStart..to - blockStart];
    BlockPart(dev.Contents(), blk, blockStart, dev.blockSize, from, to);
  }

  /** The bytes [from, to) of the block read at blockStart are the device's. */
  lemma BlockPart(c: seq<bv8>, blk: seq<bv8>, blockStart: nat, bs: nat, from: nat, to: nat)
    requires blockStart <= from <= to <= blockStart + bs <= |c| && blk == c[blockStart..blockStart + bs]
    ensures blk[from - blockStart..to - blockStart] == c[from..to]
  {
    assert blk[..bs] == blk;
    SubSlice(blk, bs, c, blockStart, from - blockStart, to - from);
  }

  /** The parts of the blocks covering [at, end) that lie outside it: `head` before `at`
      in its block, `tail` after `end` up to the end of its block. Only blocks that are
      covered partly are read. */
  method ReadFrame(dev: MemoryBlockDevice, at: nat, end: nat)
    returns (err: Option<IoError>, head: seq<bv8>, tail: seq<bv8>)
    requires dev.Valid() && at < end <= dev.Capacity()
    ensures dev.FaultFreeBelow(end) ==> err.None?
    ensures err.Some? ==> err.value == DeviceFailure
    ensures err.None? ==> AlignUp(end, dev.blockSize) <= dev.Capacity()
    ensures err.None? ==> head == dev.Contents()[AlignDown(at, dev.blockSize)..at]
    ensures err.None? ==> tail == dev.Contents()[end..AlignUp(end, dev.blockSize)]
  {
    var bs := dev.blockSize;
    var first, stop := AlignDown(at, bs), AlignUp(end, bs);
    AlignUpBelow(end, dev.Capacity(), bs);
    AlignedApart(first, stop, bs);
    FaultFreeAligned(dev, end);
    err, head, tail := None, [], [];
    if first < at {
      err, head := ReadPart(dev, first, first, at);
      if err.Some? {
        return;
      }
    }
    if !Aligned(end, bs) {
      err, tail := ReadPart(dev, AlignDown(end, bs), end, stop);
    }
  }

  /** Read-modify-write of an arbitrary byte range: the blocks covering
      [at, at + |data|) are read where data covers them only partly, patched with data
      and written back whole. */
  method WriteRange(dev: MemoryBlockDevice, at: nat, data: seq<bv8>) returns (err: Option<IoError>)
    requires dev.Valid() && |data| > 0 && at + |data| <= dev.Capacity()
    modifies dev.backingBuffer
    ensures err.None? <==> dev.FaultFreeBelow(at + |data|)
    ensures err.None? ==> dev.Contents() == Splice(old(dev.Contents()), at, data)
    ensures err.Some? ==> err.value == DeviceFailure && dev.Contents() == old(dev.Contents())
  {
    var bs, end := dev.blockSize, at + |data|;
    var head, tail;
    err, head, tail := ReadFrame(dev, at, end);
    if err.Some? {
      return;
    }
    var first, stop := AlignDown(at, bs), AlignUp(end, bs);
    SpliceFramed(dev.Contents(), first, at - first, end - first, stop - first, head, data, tail);
    AlignedSum(stop, first, bs);
    FaultFreeAligned(dev, end);
    err := dev.Write(first, head + data + tail);
  }

  class BlockDeviceOutputStream {
    const dev: MemoryBlockDevice
    const bufferBlocks: nat
    const queueSize: nat
    const buffer: array<bv8>
    /** Device byte offset of buffer[0]; always on a block boundary. */
    var bufBase: nat
    /** The bytes written but not yet on the device are buffer[lo..hi]. */
    var lo: nat
    var hi: nat
    var closed: bool
    /** Where the current run of writes started (the last seek). */
    ghost var seekOrigin: nat
    /** The device as it will be once the pending bytes are written back. */
    ghost var logical: seq<bv8>

    /** The layout of the buffer window over the device. */
    ghost predicate Shape()
      reads this, dev
    {
      && dev.Valid() && buffer != dev.backingBuffer
      && buffer.Length > 0 && Aligned(buffer.Length, dev.blockSize)
      && Aligned(bufBase, dev.blockSize)
      && lo < dev.blockSize && lo <= hi <= buffer.Length
      && bufBase + hi <= dev.Capacity()
      && seekOrigin <= bufBase + lo
        // every block written back since the last seek was accepted by the device
      && (seekOrigin < bufBase + lo ==> dev.FaultFreeBelow(bufBase + lo))
    }

    /** The stream invariant, allowing a full buffer that is about to be written back. */
    ghost predicate Filling()
      reads this, dev, dev.backingBuffer, buffer
    {
      Shape() && logical == Splice(dev.Contents(), bufBase + lo, buffer[lo..hi])
    }

    ghost predicate Valid()
      reads this, dev, dev.backingBuffer, buffer
    {
      Filling() && hi < buffer.Length
    }

    /** The cursor: where the next byte goes. */
    function Position(): nat
      reads this
    {
      bufBase + hi
    }

    /** Every byte before this offset has been written back to the device. */
    function Settled(): nat
      reads this
    {
      bufBase + lo
    }

    predicate HasPending()
      reads this
    {
      lo < hi
    }

    constructor (dev: MemoryBlockDevice, bufferBlocks: nat, queueSize: nat)
      requires dev.Valid() && bufferBlocks > 0
      ensures Valid() && this.dev == dev && this.bufferBlocks == bufferBlocks
      ensures Position() == 0 && !HasPending() && seekOrigin == 0 && !closed
      ensures logical == dev.Contents() && fresh(buffer)
      ensures buffer.Length == bufferBlocks * dev.blockSize
    {
      this.dev := dev;
      this.bufferBlocks := bufferBlocks;
      this.queueSize := queueSize;
      MulAligned(bufferBlocks, dev.blockSize);
      assert bufferBlocks * dev.blockSize >= dev.blockSize by {
        assert bufferBlocks * dev.blockSize == (bufferBlocks - 1) * dev.blockSize + dev.blockSize;
      }
      buffer := new bv8[bufferBlocks * dev.blockSize];
      bufBase, lo, hi := 0, 0, 0;
      closed := false;
      seekOrigin := 0;
      logical := dev.Contents();
      SpliceEmpty(dev.Contents(), 0);
    }

    /** Writes the pending bytes back to the device (read-modify-write of their blocks). */
    method WriteBack() returns (err: Option<IoError>)
      requires Filling() && HasPending()
      modifies dev.backingBuffer
      ensures err.None? <==> dev.FaultFreeBelow(Position())
      ensures err.None? ==> dev.Contents() == old(logical)
      ensures err.Some? ==> err.value == DeviceFailure && dev.Contents() == old(dev.Contents())
    {
      err := WriteRange(dev, bufBase + lo, buffer[lo..hi]);
    }

    /** Moves the buffer window to the block holding the cursor, leaving nothing pending. */
    method Realign()
      requires Shape() && logical == dev.Contents()
      requires seekOrigin < Position() ==> dev.FaultFreeBelow(Position())
      modifies this`bufBase, this`lo, this`hi
      ensures Valid() && !HasPending() && Position() == old(Position())
      ensures logical == dev.Contents()
    {
      var bs := dev.blockSize;
      AlignedSum(bufBase, AlignDown(hi, bs), bs);
      bufBase, lo, hi := bufBase + AlignDown(hi, bs), BlockOffset(hi, bs), BlockOffset(hi, bs);
      SpliceEmpty(dev.Contents(), bufBase + lo);
    }

    /** Writes the pending bytes back to the device and realigns the buffer at the cursor. */
    method Flush() returns (err: Option<IoError>)
      requires Filling()
      modifies this, dev.backingBuffer
      ensures Filling() && Position() == old(Position()) && seekOrigin == old(seekOrigin)
      ensures closed == old(closed)
      ensures err.None? <==> (!old(HasPending()) || dev.FaultFreeBelow(old(Position())))
      ensures logical == old(logical)
      ensures err.None? ==> Valid() && !HasPending()
      ensures err.None? ==> dev.Contents() == old(logical)
      ensures err.Some? ==> err.value == DeviceFailure && dev.Contents() == old(dev.Contents())
    {
      if HasPending() {
        err := WriteBack();
        if err.Some? {
          return;
        }
      } else {
        SpliceEmpty(dev.Contents(), bufBase + lo);
      }
      Realign();
      err := None;
    }

    /** Copies d into the buffer at the cursor. */
    method Append(d: seq<bv8>)
      requires Valid() && |d| <= buffer.Length - hi && Position() + |d| <= dev.Capacity()
      modifies this`hi, this`logical, buffer
      ensures Filling() && Position() == old(Position()) + |d|
      ensures logical == Splice(old(logical), old(Position()), d)
    {
      ghost var P := buffer[lo..hi];
      forall k | 0 <= k < |d| {
        buffer[hi + k] := d[k];
      }
      assert buffer[lo..hi + |d|] == P + d;
      hi := hi + |d|;
      SpliceTwice(dev.Contents(), bufBase + lo, P, d);
      logical := Splice(logical, old(Position()), d);
    }

    /** Appends a chunk that fits the buffer and the device, writing the buffer back once
        it is full. */
    method WriteChunk(d: seq<bv8>) returns (err: Option<IoError>)
      requires Valid() && 0 < |d| <= buffer.Length - hi && Position() + |d| <= dev.Capacity()
      modifies this, buffer, dev.backingBuffer
      ensures Filling() && seekOrigin == old(seekOrigin) && closed == old(closed)
      ensures Position() == old(Position()) + |d|
      ensures logical == Splice(old(logical), old(Position()), d)
      ensures err.None? ==> Valid()
      ensures err.Some? ==> err.value == DeviceFailure && !dev.FaultFreeBelow(Position())
    {
      Append(d);
      err := None;
      if hi == buffer.Length {
        err := Flush();
      }
    }

    /** The stream has taken data[..i] at the cursor since it stood at P0 over the
        logical image L0. */
    ghost predicate TakenSince(L0: seq<bv8>, P0: nat, data: seq<bv8>, i: nat)
      reads this
    {
      i <= |data| && Position() == P0 + i && P0 + i <= |L0| && logical == Splice(L0, P0, data[..i])
    }

    /** One round of Write: the next chunk of data that fits both the buffer and the
        device, n bytes long. */
    method WriteNext(data: seq<bv8>, i: nat, ghost L0: seq<bv8>, ghost P0: nat) returns (err: Option<IoError>, n: nat)
      requires Valid() && TakenSince(L0, P0, data, i) && i < |data| && Position() < dev.Capacity()
      modifies this, buffer, dev.backingBuffer
      ensures Filling() && seekOrigin == old(seekOrigin) && closed == old(closed)
      ensures 0 < n <= |data| - i && Position() == old(Position()) + n
      ensures TakenSince(L0, P0, data, i + n)
      ensures err.None? ==> Valid()
      ensures err.Some? ==> err.value == DeviceFailure && !dev.FaultFreeBelow(Position())
    {
      n := Min(|data| - i, Min(buffer.Length - hi, dev.Capacity() - Position()));
      err := WriteChunk(data[i..i + n]);
      SplicePrefix(L0, P0, data, i, i + n);
    }

    /** Writes `data` at the cursor. Bytes up to the device capacity are accepted; the
        first byte past it fails with "No space left on device". */
    method Write(data: seq<bv8>) returns (err: Option<IoError>)
      requires Valid()
      modifies this, buffer, dev.backingBuffer
      ensures Filling() && seekOrigin == old(seekOrigin) && closed == old(closed)
      ensures err.None? ==> Valid() && Position() == old(Position()) + |data|
      ensures err.None? ==> logical == Splice(old(logical), old(Position()), data)
      ensures err.Some? ==> err.value == NoSpaceLeft || err.value == DeviceFailure
      ensures err == Some(NoSpaceLeft) ==>
        && Valid() && old(Position()) + |data| > dev.Capacity() && Position() == dev.Capacity()
        && logical == Splice(old(logical), old(Position()), data[..dev.Capacity() - old(Position())])
      ensures err == Some(DeviceFailure) ==> !dev.FaultFreeBelow(Position())
      ensures err != Some(NoSpaceLeft) ==>
        && old(Position()) <= Position() <= old(Position()) + |data|
        && logical == Splice(old(logical), old(Position()), data[..Position() - old(Position())])
      ensures old(Position()) == dev.Capacity() && |data| > 0 ==> err == Some(NoSpaceLeft)
      ensures old(Position()) + |data| <= dev.Capacity() && dev.FaultFreeBelow(old(Position()) + |data|)
        ==> err.None?
    {
      ghost var L0, P0 := logical, Position();
      SpliceEmpty(L0, P0);
      var i := 0;
      while i < |data|
        invariant Valid() && seekOrigin == old(seekOrigin) && closed == old(closed)
        invariant TakenSince(L0, P0, data, i)
        decreases |data| - i
      {
        if Position() == dev.Capacity() {
          return Some(NoSpaceLeft);
        }
        var n;
        err, n := WriteNext(data, i, L0, P0);
        if err.Some? {
          return;
        }
        i := i + n;
      }
      assert data[..i] == data;
      err := None;
    }

    /** Writes the low eight bits of b, as OutputStream.write(int) does. */
    method WriteByte(b: int) returns (err: Option<IoError>)
      requires Valid()
      modifies this, buffer, dev.backingBuffer
      ensures Filling() && seekOrigin == old(seekOrigin)
      ensures err.None? ==> Valid() && Position() == old(Position()) + 1
      ensures err.None? ==> logical == Splice(old(logical), old(Position()), [(b % 256) as bv8])
      ensures err == Some(NoSpaceLeft) <==> old(Position()) == dev.Capacity()
      ensures old(Position()) < dev.Capacity() && dev.FaultFreeBelow(old(Position()) + 1) ==> err.None?
    {
      err := Write([(b % 256) as bv8]);
    }

    /** Flushes what is pending, then moves the cursor to p, kept within the device. */
    method Seek(p: int) returns (r: Result<nat>)
      requires Valid()
      modifies this, dev.backingBuffer
      ensures Filling() && closed == old(closed)
      ensures r.Ok? <==> (!old(HasPending()) || dev.FaultFreeBelow(old(Position())))
      ensures r.Ok? ==> Valid() && r.value == Clamp(p, 0, dev.Capacity()) && Position() == r.value
      ensures r.Ok? ==> seekOrigin == r.value && !HasPending()
      ensures r.Ok? ==> dev.Contents() == old(logical) && logical == old(logical)
      ensures r.Err? ==> r.error == DeviceFailure && dev.Contents() == old(dev.Contents())
    {
      var e := Flush();
      if e.Some? {
        return Err(e.value);
      }
      var bs := dev.blockSize;
      var q := Clamp(p, 0, dev.Capacity());
      bufBase, lo, hi := AlignDown(q, bs), BlockOffset(q, bs), BlockOffset(q, bs);
      seekOrigin := q;
      SpliceEmpty(dev.Contents(), q);
      r := Ok(q);
    }

    /** Releases the stream. */
    method Close()
      modifies this`closed
      ensures closed
    {
      closed := true;
    }
  }
}
