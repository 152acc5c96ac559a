/** The block-device stream tests replayed on the model: each method drives fresh streams
    over a device through the calls a test makes and states what the test asserts, for
    every device geometry rather than the 10 MiB, 512-byte-block one the tests use. */
module StreamScenarios {
  import opened Common
  import opened BlockDevice
  import opened InputStream
  import opened OutputStream

  /** One round of the read test: read(buf) at the cursor, and the bytes it delivered. */
  method NextChunk(s: BlockDeviceInputStream, buf: array<bv8>) returns (r: Result<seq<bv8>>)
    requires s.Valid() && buf != s.cache && buf != s.dev.backingBuffer
    requires 0 < buf.Length && s.pos < s.dev.Capacity()
    modifies s`cacheBase, s`cacheLen, s`pos, s.cache, buf
    ensures s.Valid()
    ensures r.Ok? ==> |r.value| == Min(buf.Length, s.dev.Capacity() - old(s.pos))
    ensures r.Ok? ==> s.pos == old(s.pos) + |r.value| && r.value == s.dev.Contents()[old(s.pos)..s.pos]
    ensures r.Err? ==> r.error == DeviceFailure && !s.dev.FaultFreeBelow(s.dev.Capacity())
  {
    ghost var before := buf[..];
    var n := s.Read(buf, 0, buf.Length);
    if n.Err? {
      return Err(n.error);
    }
    SpliceSlices(before, 0, s.dev.Contents()[old(s.pos)..s.pos]);
    r := Ok(buf[..n.value]);
  }

  /** The total of a sequence of byte counts. */
  function Sum(s: seq<int>): int
  {
    if s == [] then 0 else Sum(s[..|s| - 1]) + s[|s| - 1]
  }

  /** One more read of Min(chunk, cap - len) bytes keeps the counts in their closed form. */
  lemma CountsExtend(counts: seq<int>, chunk: int, cap: int, len: int)
    requires chunk > 0 && 0 <= len < cap
    requires forall i | 0 <= i < |counts| :: counts[i] == Min(chunk, cap - i * chunk)
    requires forall i | 0 <= i < |counts| :: 0 < counts[i] <= chunk
    requires forall i | 0 <= i < |counts| :: counts[i] == chunk
    requires len == Min(|counts| * chunk, cap) == Sum(counts)
    ensures var c := counts + [Min(chunk, cap - len)];
      && (forall i | 0 <= i < |c| :: c[i] == Min(chunk, cap - i * chunk))
      && (forall i | 0 <= i < |c| :: 0 < c[i] <= chunk)
      && (forall i | 0 <= i < |c| :: c[i] == chunk || (i == |c| - 1 && len + c[i] == cap))
      && len + Min(chunk, cap - len) == Min(|c| * chunk, cap) == Sum(c)
  {
    var c := counts + [Min(chunk, cap - len)];
    assert |c| * chunk == |counts| * chunk + chunk;
    assert c[..|counts|] == counts;
  }

  /** The pseudo-random read test: the whole device read with a chunk-sized buffer until
      nothing remains. Every read but the last returns a full chunk, the last returns
      what remains, and the bytes read are the device's. */
  method ReadInChunks(dev: MemoryBlockDevice, bufferBlocks: nat, prefetchBuffers: nat, chunk: nat)
    returns (data: seq<bv8>, counts: seq<int>, err: Option<IoError>)
    requires dev.Valid() && bufferBlocks > 0 && prefetchBuffers > 0 && chunk > 0
    ensures err.None? ==> data == dev.Contents()
    ensures forall i | 0 <= i < |counts| :: 0 < counts[i] <= chunk
    ensures forall i | 0 <= i < |counts| - 1 :: counts[i] == chunk
    // the i-th read returns a full chunk or what remains of the device after i chunks
    ensures forall i | 0 <= i < |counts| :: counts[i] == Min(chunk, dev.Capacity() - i * chunk)
    ensures Sum(counts) == |data|
    ensures err.None? ==> Sum(counts) == dev.Capacity()
    ensures dev.FaultFreeBelow(dev.Capacity()) ==> err.None?
    ensures err.Some? ==> err.value == DeviceFailure
  {
    var s := new BlockDeviceInputStream(dev, bufferBlocks, prefetchBuffers);
    var moved := s.Seek(0);
    var buf := new bv8[chunk];
    data, counts, err := [], [], None;
    while |data| < dev.Capacity()
      invariant s.Valid() && s.dev == dev && buf != s.cache && buf != dev.backingBuffer
      invariant s.pos == |data| <= dev.Capacity() && data == dev.Contents()[..|data|]
      invariant forall i | 0 <= i < |counts| :: 0 < counts[i] <= chunk
      invariant forall i | 0 <= i < |counts| :: counts[i] == chunk || (i == |counts| - 1 && |data| == dev.Capacity())
      invariant forall i | 0 <= i < |counts| :: counts[i] == Min(chunk, dev.Capacity() - i * chunk)
      invariant |data| == Min(|counts| * chunk, dev.Capacity()) == Sum(counts)
      decreases dev.Capacity() - |data|
    {
      ghost var p := s.pos;
      var r := NextChunk(s, buf);
      if r.Err? {
        return data, counts, Some(r.error);
      }
      assert dev.Contents()[..s.pos] == dev.Contents()[..p] + dev.Contents()[p..s.pos];
      CountsExtend(counts, chunk, dev.Capacity(), |data|);
      data := data + r.value;
      counts := counts + [|r.value|];
    }
  }

  /** From the cursor, a skip of twenty times what remains, a read at the end of the
      device, skip(-1) and a read of the last byte; the mark is left alone. */
  method AroundTheEnd(s: BlockDeviceInputStream) returns (toEnd: int, atEnd: Result<int>, back: int, lastByte: Result<int>)
    requires s.Valid() && 0 < s.dev.Capacity() && s.dev.FaultFreeBelow(s.dev.Capacity())
    modifies s`cacheBase, s`cacheLen, s`pos, s.cache
    ensures s.Valid() && s.mark == old(s.mark) && s.pos == s.dev.Capacity()
    ensures toEnd == s.dev.Capacity() - old(s.pos)
    ensures atEnd == Ok(-1) && back == -1
    ensures lastByte == Ok(s.dev.Contents()[s.dev.Capacity() - 1] as int)
  {
    toEnd := s.Skip(20 * (s.dev.Capacity() - s.pos));
    atEnd := s.ReadByte();
    back := s.Skip(-1);
    lastByte := s.ReadByte();
  }

  /** The cursor part of the read test: after seek(0) and a skip to markAt the stream is
      marked; a skip of twenty times what remains ends at the device's end and moves only
      what remained, a read there gives -1, skip(-1) returns -1 and lands on the last
      byte, and reset returns to the mark. */
  method CursorScenario(dev: MemoryBlockDevice, bufferBlocks: nat, prefetchBuffers: nat, markAt: nat)
    returns (origin: nat, toEnd: int, atEnd: Result<int>, back: int, lastByte: Result<int>,
             reset: Option<IoError>, afterReset: Result<int>)
    requires dev.Valid() && bufferBlocks > 0 && prefetchBuffers > 0
    requires 0 < dev.Capacity() && dev.FaultFreeBelow(dev.Capacity())
    ensures origin == 0
    ensures toEnd == dev.Capacity() - Min(markAt, dev.Capacity())
    ensures atEnd == Ok(-1) && back == -1
    ensures lastByte == Ok(dev.Contents()[dev.Capacity() - 1] as int)
    ensures reset.None?
    ensures markAt < dev.Capacity() ==> afterReset == Ok(dev.Contents()[markAt] as int)
    ensures markAt >= dev.Capacity() ==> afterReset == Ok(-1)
  {
    var s := new BlockDeviceInputStream(dev, bufferBlocks, prefetchBuffers);
    origin := s.Seek(0);
    var moved := s.Skip(markAt);
    s.Mark(0);
    toEnd, atEnd, back, lastByte := AroundTheEnd(s);
    reset := s.Reset();
    afterReset := s.ReadByte();
  }

  /** read(buf, 4, len) into an 8-byte array with at least 4 bytes left on a healthy
      device: 4 bytes, landing in buf[4..8]. */
  method ReadIntoBack(s: BlockDeviceInputStream, buf: array<bv8>, len: int) returns (n: Result<int>)
    requires s.Valid() && buf != s.cache && buf != s.dev.backingBuffer && buf.Length == 8
    requires 4 <= len && s.pos + 4 <= s.dev.Capacity() && s.dev.FaultFreeBelow(s.dev.Capacity())
    modifies s`cacheBase, s`cacheLen, s`pos, s.cache, buf
    ensures s.Valid() && s.pos == old(s.pos) + 4
    ensures n == Ok(4) && buf[..] == old(buf[..4]) + s.dev.Contents()[old(s.pos)..s.pos]
  {
    ghost var before := buf[..];
    n := s.Read(buf, 4, len);
    SpliceSlices(before, 4, s.dev.Contents()[old(s.pos)..s.pos]);
    assert buf[..] == buf[..4] + buf[4..8];
  }

  /** The bounded reads of the read test, from byte 8 of the device: read(buf, 4, 4) into
      a zeroed 8-byte array fills only buf[4..8]; read(buf, 4, 200) is cut to the 4 bytes
      the array has left; read(buf, 10, 4) starts outside the array and returns 0. */
  method BoundedReads(dev: MemoryBlockDevice, bufferBlocks: nat, prefetchBuffers: nat)
    returns (n1: Result<int>, b1: seq<bv8>, n2: Result<int>, b2: seq<bv8>, n3: Result<int>, b3: seq<bv8>)
    requires dev.Valid() && bufferBlocks > 0 && prefetchBuffers > 0
    requires 16 <= dev.Capacity() && dev.FaultFreeBelow(dev.Capacity())
    ensures n1 == Ok(4) && b1 == [0, 0, 0, 0] + dev.Contents()[8..12]
    ensures n2 == Ok(4) && b2 == [0, 0, 0, 0] + dev.Contents()[12..16]
    ensures n3 == Ok(0) && b3 == b2
  {
    var s := new BlockDeviceInputStream(dev, bufferBlocks, prefetchBuffers);
    var at := s.Seek(8);
    var buf := new bv8[8](_ => 0);
    assert buf[..4] == [0, 0, 0, 0];
    n1 := ReadIntoBack(s, buf, 4);
    b1 := buf[..];
    assert buf[..4] == [0, 0, 0, 0];
    n2 := ReadIntoBack(s, buf, 200);
    b2 := buf[..];
    n3 := s.Read(buf, 10, 4);
    b3 := buf[..];
  }

  /** The stream has taken content[..i] at the cursor since it was opened over a device
      holding `start`. */
  ghost predicate Taken(o: BlockDeviceOutputStream, start: seq<bv8>, content: seq<bv8>, i: nat)
    reads o
  {
    o.Position() == i <= |content| == |start| && o.logical == Splice(start, 0, content[..i])
  }

  /** One round of the chunked write test: the next n bytes of the content. */
  method WriteNext(o: BlockDeviceOutputStream, ghost start: seq<bv8>, content: seq<bv8>, i: nat, n: nat)
    returns (err: Option<IoError>)
    requires o.Valid() && Taken(o, start, content, i) && i + n <= |content| == o.dev.Capacity()
    modifies o, o.buffer, o.dev.backingBuffer
    ensures err.None? ==> o.Valid() && Taken(o, start, content, i + n)
    ensures err.Some? ==> err.value == DeviceFailure && !o.dev.FaultFreeBelow(o.dev.Capacity())
  {
    if o.dev.FaultFreeBelow(o.dev.Capacity()) {
      FaultFreeMonotone(o.dev, i + n, o.dev.Capacity());
    }
    err := o.Write(content[i..i + n]);
    if err.None? {
      SplicePrefix(start, 0, content, i, i + n);
    }
  }

  /** The pseudo-random write tests: the whole device content written at the cursor of a
      fresh stream in chunks of `chunk` bytes (the whole content in one call when chunk is
      the device size), then flushed. On a healthy device no write fails and the device
      ends up equal to the content.
      `bufferBlocks` stands for the test's `testBufferBlocks`: the test's ring of
      `queueSlots` slots of `testBufferBlocks / queueSlots` blocks is one buffer here. */
  method WriteInChunks(dev: MemoryBlockDevice, bufferBlocks: nat, content: seq<bv8>, chunk: nat)
    returns (err: Option<IoError>)
    requires dev.Valid() && bufferBlocks > 0 && chunk > 0 && |content| == dev.Capacity()
    modifies dev.backingBuffer
    ensures err.None? ==> dev.Contents() == content
    ensures dev.FaultFreeBelow(dev.Capacity()) ==> err.None?
    ensures err.Some? ==> err.value == DeviceFailure
  {
    var o := new BlockDeviceOutputStream(dev, bufferBlocks, 1);
    ghost var start := dev.Contents();
    SpliceEmpty(start, 0);
    var i := 0;
    while i < |content|
      invariant o.Valid() && o.dev == dev && Taken(o, start, content, i)
      decreases |content| - i
    {
      var n := Min(chunk, |content| - i);
      err := WriteNext(o, start, content, i, n);
      if err.Some? {
        return;
      }
      i := i + n;
    }
    err := o.Flush();
    assert content[..i] == content;
    SpliceSlices(start, 0, content);
  }

  /** write(d) on a healthy device with room for d: d is taken at the cursor. */
  method PutChunk(o: BlockDeviceOutputStream, d: seq<bv8>)
    requires o.Valid() && o.Position() + |d| <= o.dev.Capacity() && o.dev.FaultFreeBelow(o.dev.Capacity())
    modifies o, o.buffer, o.dev.backingBuffer
    ensures o.Valid() && o.Position() == old(o.Position()) + |d|
    ensures o.logical == Splice(old(o.logical), old(o.Position()), d)
  {
    FaultFreeMonotone(o.dev, o.Position() + |d|, o.dev.Capacity());
    var err := o.Write(d);
  }

  /** write(d1), write(d2), flush() on a healthy device with nothing pending: the device
      takes d1 + d2 at the cursor and nothing else changes. */
  method WriteTwiceFlush(o: BlockDeviceOutputStream, d1: seq<bv8>, d2: seq<bv8>) returns (err: Option<IoError>)
    requires o.Valid() && !o.HasPending() && o.logical == o.dev.Contents()
    requires o.Position() + |d1| + |d2| <= o.dev.Capacity() && o.dev.FaultFreeBelow(o.dev.Capacity())
    modifies o, o.buffer, o.dev.backingBuffer
    ensures o.Valid() && !o.HasPending() && o.logical == o.dev.Contents()
    ensures err.None? && o.Position() == old(o.Position()) + |d1| + |d2|
    ensures o.dev.Contents() == Splice(old(o.dev.Contents()), old(o.Position()), d1 + d2)
  {
    PutChunk(o, d1);
    PutChunk(o, d2);
    SpliceTwice(old(o.dev.Contents()), old(o.Position()), d1, d2);
    FaultFreeMonotone(o.dev, o.Position(), o.dev.Capacity());
    err := o.Flush();
  }

  /** write(int) of a byte's value on a healthy device with room left: that byte is
      taken at the cursor. */
  method PutByte(o: BlockDeviceOutputStream, b: bv8)
    requires o.Valid() && o.Position() < o.dev.Capacity() && o.dev.FaultFreeBelow(o.dev.Capacity())
    modifies o, o.buffer, o.dev.backingBuffer
    ensures o.Valid() && o.Position() == old(o.Position()) + 1
    ensures o.logical == Splice(old(o.logical), old(o.Position()), [b])
  {
    FaultFreeMonotone(o.dev, o.Position() + 1, o.dev.Capacity());
    ByteRoundTrip(b);
    var err := o.WriteByte(b as int);
  }

  /** The low eight bits of a byte's value are the byte. */
  lemma ByteRoundTrip(b: bv8)
    ensures (b as int % 256) as bv8 == b
  {
    assert b as int % 256 == b as int;
  }

  /** `bytes` written one at a time with write(int), then flush(). */
  method WriteBytesFlush(o: BlockDeviceOutputStream, bytes: seq<bv8>) returns (err: Option<IoError>)
    requires o.Valid() && !o.HasPending() && o.logical == o.dev.Contents()
    requires o.Position() + |bytes| <= o.dev.Capacity() && o.dev.FaultFreeBelow(o.dev.Capacity())
    modifies o, o.buffer, o.dev.backingBuffer
    ensures o.Valid() && !o.HasPending() && o.logical == o.dev.Contents()
    ensures err.None? && o.Position() == old(o.Position()) + |bytes|
    ensures o.dev.Contents() == Splice(old(o.dev.Contents()), old(o.Position()), bytes)
  {
    ghost var L, p := o.logical, o.Position();
    SpliceEmpty(L, p);
    var k := 0;
    while k < |bytes|
      invariant o.Valid() && o.Position() == p + k && k <= |bytes|
      invariant o.logical == Splice(L, p, bytes[..k])
      decreases |bytes| - k
    {
      PutByte(o, bytes[k]);
      SpliceTwice(L, p, bytes[..k], [bytes[k]]);
      assert bytes[..k] + [bytes[k]] == bytes[..k + 1];
      k := k + 1;
    }
    assert bytes[..k] == bytes;
    FaultFreeMonotone(o.dev, o.Position(), o.dev.Capacity());
    err := o.Flush();
  }

  /** The write test on a device holding `before`: seek(0) returns 0; the bytes 0..3 then
      a flush change only the first four bytes; zeros to the end of the first block then
      a flush change only those; then, written in two calls, zeros up to 8 bytes short of
      the buffer's end and 16 bytes of 42 (the second call crosses the buffer), and a
      flush, change only the bytes written. Every earlier write survives.
      `bufferBlocks` stands for the test's `testBufferBlocks`: the test's ring of
      `queueSlots` slots of `testBufferBlocks / queueSlots` blocks is one buffer here. */
  method PartialBlockWrites(dev: MemoryBlockDevice, bufferBlocks: nat)
    returns (origin: Result<nat>, ghost afterBytes: seq<bv8>, ghost afterBlock: seq<bv8>)
    requires dev.Valid() && bufferBlocks > 0 && dev.FaultFreeBelow(dev.Capacity())
    requires 4 <= dev.blockSize && 8 <= bufferBlocks * dev.blockSize
    requires dev.blockSize + bufferBlocks * dev.blockSize + 8 <= dev.Capacity()
    modifies dev.backingBuffer
    ensures origin == Ok(0)
    ensures afterBytes == Splice(old(dev.Contents()), 0, [0, 1, 2, 3])
    ensures afterBlock == Splice(afterBytes, 4, seq(dev.blockSize - 4, _ => 0))
    ensures dev.Contents() == Splice(afterBlock, dev.blockSize,
      seq(bufferBlocks * dev.blockSize - 8, _ => 0) + seq(16, _ => 42))
  {
    var o := new BlockDeviceOutputStream(dev, bufferBlocks, 1);
    origin := o.Seek(0);
    var err := WriteBytesFlush(o, [0, 1, 2, 3]);
    afterBytes := dev.Contents();
    var rest: seq<bv8> := seq(dev.blockSize - 4, _ => 0);
    assert [] + rest == rest;
    err := WriteTwiceFlush(o, [], rest);
    afterBlock := dev.Contents();
    err := WriteTwiceFlush(o, seq(o.buffer.Length - 8, _ => 0), seq(16, _ => 42));
  }

  /** The end of the write test: from the start of a healthy device, content[..cut] and
      then content[cut..] fill it exactly and are accepted; one more byte fails with "No
      space left on device".
      `bufferBlocks` stands for the test's `testBufferBlocks`: the test's ring of
      `queueSlots` slots of `testBufferBlocks / queueSlots` blocks is one buffer here. */
  method FillToCapacity(dev: MemoryBlockDevice, bufferBlocks: nat, content: seq<bv8>, cut: nat)
    returns (first: Option<IoError>, second: Option<IoError>, overflow: Option<IoError>)
    requires dev.Valid() && bufferBlocks > 0 && dev.FaultFreeBelow(dev.Capacity())
    requires |content| == dev.Capacity() && cut <= |content|
    modifies dev.backingBuffer
    ensures first.None? && second.None?
    ensures overflow == Some(NoSpaceLeft)
  {
    var o := new BlockDeviceOutputStream(dev, bufferBlocks, 1);
    FaultFreeMonotone(dev, cut, dev.Capacity());
    first := o.Write(content[..cut]);
    second := o.Write(content[cut..]);
    overflow := o.WriteByte(0);
  }
}
