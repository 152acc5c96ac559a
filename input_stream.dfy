/** The prefetching read stream over a block device: a byte cursor over the device with
    skip/seek clamped to the device, a single mark, and reads served from a cache of
    whole blocks. The ring of prefetch buffers filled in the background is modelled by
    one cache window of `bufferBlocks * prefetchBuffers` blocks, refilled from the block
    holding the cursor whenever the cursor leaves it. */
module InputStream {
  import opened Common
  import opened BlockDevice

  /** What read(buf, off, len) returns when `remaining` bytes are left before the end of
      the device: 0 when `off` is outside the array or nothing is asked for, -1 at the
      end of the device, otherwise as many bytes as were asked for, the array holds past
      `off` and the device still has. */
  function ReadCount(bufLen: nat, off: int, len: int, remaining: nat): (r: int)
    ensures r == 0 <==> off < 0 || bufLen <= off || len <= 0
    ensures r == -1 <==> 0 <= off < bufLen && 0 < len && remaining == 0
    ensures r >= -1
    ensures r > 0 ==> 0 <= off && off + r <= bufLen && r <= len && r <= remaining
    // a short read happens only at the end of the device
    ensures r > 0 && r < len && off + r < bufLen ==> r == remaining
  {
    if off < 0 || bufLen <= off || len <= 0 then 0
    else if remaining == 0 then -1
    else Min(Min(len, bufLen - off), remaining)
  }

  /** The cursor after skip(delta) from p: moved by delta, kept within the device. */
  function SkipTarget(p: nat, delta: int, capacity: nat): (q: nat)
    requires p <= capacity
    ensures q <= capacity
    ensures 0 <= p + delta <= capacity ==> q == p + delta
    ensures p + delta < 0 ==> q == 0
    ensures capacity < p + delta ==> q == capacity
  {
    Clamp(p + delta, 0, capacity)
  }

  /** Skipping back by the distance a skip reported returns the cursor to where it was. */
  lemma SkipBack(p: nat, delta: int, capacity: nat)
    requires p <= capacity
    ensures SkipTarget(SkipTarget(p, delta, capacity), p - SkipTarget(p, delta, capacity), capacity) == p
  {
  }

  /** A skip never reports moving further than asked, nor in the other direction. */
  lemma SkipMoved(p: nat, delta: int, capacity: nat)
    requires p <= capacity
    ensures var moved := SkipTarget(p, delta, capacity) - p;
      (delta >= 0 ==> 0 <= moved <= delta) && (delta <= 0 ==> delta <= moved <= 0)
  {
  }

  /** The cache refill for p starts at the block holding p and spans whole blocks, as
      many as the cache holds or the device has left; p falls inside it. */
  lemma FetchWindow(p: nat, bs: nat, size: nat, capacity: nat)
    requires bs > 0 && 0 < size && Aligned(size, bs) && Aligned(capacity, bs) && p < capacity
    ensures var base := AlignDown(p, bs); var len := Min(size, capacity - base);
      && Aligned(base, bs) && Aligned(len, bs) && base <= p < base + len <= capacity
  {
    var base := AlignDown(p, bs);
    AlignedApart(base, capacity, bs);
    AlignedApart(0, size, bs);
    AlignedSum(capacity, base, bs);
  }

  class BlockDeviceInputStream {
    const dev: MemoryBlockDevice
    const bufferBlocks: nat
    const prefetchBuffers: nat
    /** The cached blocks: cache[..cacheLen] holds the device bytes from cacheBase. */
    const cache: array<bv8>
    var cacheBase: nat
    var cacheLen: nat
    /** The cursor: the device offset of the next byte read. */
    var pos: nat
    var mark: Option<nat>
    var closed: bool

    ghost predicate Valid()
      reads this, dev, dev.backingBuffer, cache
    {
      && dev.Valid() && cache != dev.backingBuffer
      && cache.Length > 0 && Aligned(cache.Length, dev.blockSize)
      && pos <= dev.Capacity() && (mark.Some? ==> mark.value <= dev.Capacity())
      && Window()
    }

    /** cache[..cacheLen] holds the device bytes from cacheBase, read without a fault. */
    ghost predicate Window()
      reads this`cacheBase, this`cacheLen, dev, dev.backingBuffer, cache
    {
      && cacheBase + cacheLen <= dev.Capacity() && cacheLen <= cache.Length
      && Mirrors(cache[..], cacheLen, dev.Contents(), cacheBase)
      && dev.FaultFreeBelow(cacheBase + cacheLen)
    }

    predicate Cached(p: nat)
      reads this
    {
      cacheBase <= p < cacheBase + cacheLen
    }

    constructor (dev: MemoryBlockDevice, bufferBlocks: nat, prefetchBuffers: nat)
      requires dev.Valid() && bufferBlocks > 0 && prefetchBuffers > 0
      ensures Valid() && this.dev == dev && this.bufferBlocks == bufferBlocks
      ensures this.prefetchBuffers == prefetchBuffers
      ensures pos == 0 && mark.None? && !closed && fresh(cache)
    {
      this.dev := dev;
      this.bufferBlocks := bufferBlocks;
      this.prefetchBuffers := prefetchBuffers;
      var slots := bufferBlocks * prefetchBuffers;
      assert slots >= 1 by {
        assert slots == (bufferBlocks - 1) * prefetchBuffers + prefetchBuffers;
      }
      MulAligned(slots, dev.blockSize);
      assert slots * dev.blockSize >= dev.blockSize by {
        assert slots * dev.blockSize == (slots - 1) * dev.blockSize + dev.blockSize;
      }
      cache := new bv8[slots * dev.blockSize];
      cacheBase, cacheLen := 0, 0;
      pos := 0;
      mark := None;
      closed := false;
    }

    /** Fills the cache with the blocks from the one holding p, as far as the cache or the
        device reaches. */
    method Fetch(p: nat) returns (err: Option<IoError>)
      requires Valid() && p < dev.Capacity()
      modifies this`cacheBase, this`cacheLen, cache
      ensures Valid()
      ensures err.None? ==> Cached(p)
      ensures err.Some? ==> err.value == DeviceFailure && !dev.FaultFreeBelow(dev.Capacity())
    {
      var base, len;
      err, base, len := LoadWindow(dev, cache, p);
      if err.None? {
        cacheBase, cacheLen := base, len;
      }
    }

    /** read(): the byte at the cursor as 0..255, or -1 at the end of the device. */
    method ReadByte() returns (r: Result<int>)
      requires Valid()
      modifies this`cacheBase, this`cacheLen, this`pos, cache
      ensures Valid()
      ensures r.Ok? && old(pos) == dev.Capacity() ==> r.value == -1 && pos == old(pos)
      ensures r.Ok? && old(pos) < dev.Capacity() ==>
        r.value == dev.Contents()[old(pos)] as int && pos == old(pos) + 1
      ensures r.Err? ==> r.error == DeviceFailure && !dev.FaultFreeBelow(dev.Capacity())
      ensures r.Err? ==> pos == old(pos)
    {
      if pos == dev.Capacity() {
        r := Ok(-1);
      } else {
        var err := None;
        if !Cached(pos) {
          err := Fetch(pos);
        }
        if err.Some? {
          r := Err(err.value);
        } else {
          WindowAt(cache[..], cacheLen, dev.Contents(), cacheBase, pos);
          r := Ok(cache[pos - cacheBase] as int);
          pos := pos + 1;
        }
      }
    }

    /** One step of read(buf, off, len): fetches the blocks at the cursor unless they
        are cached and copies up to `want` of the cached bytes into buf at `at`. */
    method ReadStep(buf: array<bv8>, at: nat, want: nat) returns (err: Option<IoError>, k: nat)
      requires Valid() && buf != cache && buf != dev.backingBuffer
      requires 0 < want && at + want <= buf.Length && pos + want <= dev.Capacity()
      modifies this`cacheBase, this`cacheLen, this`pos, cache, buf
      ensures Valid()
      ensures err.None? ==> 0 < k <= want && pos == old(pos) + k && dev.FaultFreeBelow(pos)
      ensures err.None? ==> buf[..] == Splice(old(buf[..]), at, dev.Contents()[old(pos)..pos])
      ensures err.Some? ==> err.value == DeviceFailure && !dev.FaultFreeBelow(dev.Capacity())
    {
      if !Cached(pos) {
        err := Fetch(pos);
        if err.Some? {
          return err, 0;
        }
      }
      k := Min(want, cacheBase + cacheLen - pos);
      CopyWindow(dev, cache, cacheBase, cacheLen, buf, at, pos, k);
      pos := pos + k;
      err := None;
    }

    /** read(buf, off, len): fills buf[off..off + n) with the device bytes at the cursor
        and advances it by n, where n is ReadCount; no other byte of buf changes. */
    method Read(buf: array<bv8>, off: int, len: int) returns (r: Result<int>)
      requires Valid() && buf != cache && buf != dev.backingBuffer
      modifies this`cacheBase, this`cacheLen, this`pos, cache, buf
      ensures Valid()
      ensures r.Ok? ==> r.value == ReadCount(buf.Length, off, len, dev.Capacity() - old(pos))
      ensures r.Ok? ==> pos == old(pos) + Max(r.value, 0)
      ensures r.Ok? && r.value > 0 ==>
        0 <= off && buf[..] == Splice(old(buf[..]), off, dev.Contents()[old(pos)..pos])
      ensures r.Ok? && r.value > 0 ==> dev.FaultFreeBelow(pos)
      ensures r.Ok? && r.value <= 0 ==> buf[..] == old(buf[..])
      ensures r.Err? ==> r.error == DeviceFailure && !dev.FaultFreeBelow(dev.Capacity())
    {
      var n := ReadCount(buf.Length, off, len, dev.Capacity() - pos);
      if n <= 0 {
        return Ok(n);
      }
      var err := ReadFully(buf, off, n);
      r := if err.Some? then Err(err.value) else Ok(n);
    }

    /** Fills buf[off..off + n) with the n device bytes at the cursor and advances it by n;
        no other byte of buf changes. */
    method ReadFully(buf: array<bv8>, off: nat, n: nat) returns (err: Option<IoError>)
      requires Valid() && buf != cache && buf != dev.backingBuffer
      requires off + n <= buf.Length && pos + n <= dev.Capacity()
      modifies this`cacheBase, this`cacheLen, this`pos, cache, buf
      ensures Valid()
      ensures err.None? ==> pos == old(pos) + n
      ensures err.None? ==> buf[..] == Splice(old(buf[..]), off, dev.Contents()[old(pos)..pos])
      ensures err.None? && n > 0 ==> dev.FaultFreeBelow(pos)
      ensures err.Some? ==> err.value == DeviceFailure && !dev.FaultFreeBelow(dev.Capacity())
    {
      ghost var B0, P0 := buf[..], pos;
      SpliceEmpty(B0, off);
      var i := 0;
      while i < n
        invariant Valid() && P0 + n <= dev.Capacity() && |B0| == buf.Length
        invariant i <= n && pos == P0 + i
        invariant buf[..] == Splice(B0, off, dev.Contents()[P0..pos])
        invariant i > 0 ==> dev.FaultFreeBelow(pos)
        decreases n - i
      {
        var k;
        err, k := ReadNext(buf, off, n, i, B0, P0);
        if err.Some? {
          return;
        }
        i := i + k;
      }
      err := None;
    }

    /** One round of ReadFully: the bytes at the cursor after the first i of n. */
    method ReadNext(buf: array<bv8>, off: nat, n: nat, i: nat, ghost B0: seq<bv8>, ghost P0: nat)
      returns (err: Option<IoError>, k: nat)
      requires Valid() && buf != cache && buf != dev.backingBuffer
      requires off + n <= buf.Length == |B0| && P0 + n <= dev.Capacity() && i < n && pos == P0 + i
      requires buf[..] == Splice(B0, off, dev.Contents()[P0..pos])
      modifies this`cacheBase, this`cacheLen, this`pos, cache, buf
      ensures Valid()
      ensures err.None? ==> 0 < k <= n - i && pos == old(pos) + k && dev.FaultFreeBelow(pos)
      ensures err.None? ==> buf[..] == Splice(B0, off, dev.Contents()[P0..pos])
      ensures err.Some? ==> err.value == DeviceFailure && !dev.FaultFreeBelow(dev.Capacity())
    {
      err, k := ReadStep(buf, off + i, n - i);
      if err.None? {
        SpliceSegments(B0, off, dev.Contents(), P0, P0 + i, P0 + i + k);
      }
    }

    /** skip(delta): moves the cursor by delta within the device and returns the distance
        actually moved. */
    method Skip(delta: int) returns (moved: int)
      requires Valid()
      modifies this`pos
      ensures Valid() && pos == SkipTarget(old(pos), delta, dev.Capacity())
      ensures moved == pos - old(pos)
    {
      var q := SkipTarget(pos, delta, dev.Capacity());
      moved := q - pos;
      pos := q;
    }

    /** seek(p): moves the cursor to p, kept within the device, and returns it. */
    method Seek(p: int) returns (q: nat)
      requires Valid()
      modifies this`pos
      ensures Valid() && q == pos && q == Clamp(p, 0, dev.Capacity())
    {
      q := Clamp(p, 0, dev.Capacity());
      pos := q;
    }

    /** mark(readLimit): remembers the cursor; the read limit is ignored. */
    method Mark(readLimit: int)
      requires Valid()
      modifies this`mark
      ensures Valid() && mark == Some(pos)
    {
      mark := Some(pos);
    }

    /** reset(): returns the cursor to the mark and clears it; fails without a mark. */
    method Reset() returns (err: Option<IoError>)
      requires Valid()
      modifies this`pos, this`mark
      ensures Valid() && mark.None?
      ensures err.None? <==> old(mark).Some?
      ensures err.None? ==> pos == old(mark).value
      ensures err.Some? ==> err.value == InvalidMark && pos == old(pos)
    {
      if mark.None? {
        return Some(InvalidMark);
      }
      pos := mark.value;
      mark := None;
      err := None;
    }

    /** Releases the stream. */
    method Close()
      modifies this`closed
      ensures closed
    {
      closed := true;
    }
  }

  /** Reads into `cache` the blocks from the one holding p, as many as the cache holds or
      the device has left, and returns where they start and how many bytes they are. */
  method LoadWindow(dev: MemoryBlockDevice, cache: array<bv8>, p: nat)
      returns (err: Option<IoError>, base: nat, len: nat)
    requires dev.Valid() && cache != dev.backingBuffer
    requires cache.Length > 0 && Aligned(cache.Length, dev.blockSize) && p < dev.Capacity()
    modifies cache
    ensures err.None? ==> base <= p < base + len <= dev.Capacity() && len <= cache.Length
    ensures err.None? ==> Mirrors(cache[..], len, dev.Contents(), base)
    ensures err.None? ==> dev.FaultFreeBelow(base + len)
    ensures err.Some? ==> err.value == DeviceFailure && !dev.FaultFreeBelow(dev.Capacity())
    ensures err.Some? ==> unchanged(cache)
  {
    base := AlignDown(p, dev.blockSize);
    len := Min(cache.Length, dev.Capacity() - base);
    FetchWindow(p, dev.blockSize, cache.Length, dev.Capacity());
    var data;
    err, data := dev.Read(base, len);
    if err.None? {
      CopyInto(cache, 0, data);
      SpliceSlices(old(cache[..]), 0, data);
      MirrorsSlice(cache[..], len, dev.Contents(), base);
    }
  }

  /** Copies the k cached device bytes from p into buf at `at`, where cache[..n] mirrors
      the device from `base`. */
  method CopyWindow(dev: MemoryBlockDevice, cache: array<bv8>, base: nat, n: nat,
                    buf: array<bv8>, at: nat, p: nat, k: nat)
    requires n <= cache.Length && base + n <= dev.Capacity() && buf != dev.backingBuffer
    requires Mirrors(cache[..], n, dev.Contents(), base) && buf != cache
    requires base <= p && p + k <= base + n && at + k <= buf.Length
    modifies buf
    ensures buf[..] == Splice(old(buf[..]), at, dev.Contents()[p..p + k])
  {
    MirrorsSlice(cache[..], n, dev.Contents(), base);
    SubSlice(cache[..], n, dev.Contents(), base, p - base, k);
    CopyInto(buf, at, cache[p - base..p - base + k]);
  }

  /** A window of c that mirrors s from `base` holds the byte of s at every p it covers. */
  lemma WindowAt<T>(c: seq<T>, n: nat, s: seq<T>, base: nat, p: nat)
    requires Mirrors(c, n, s, base) && base <= p < base + n
    ensures c[p - base] == s[p]
  {
    MirrorsSlice(c, n, s, base);
    assert c[..n][p - base] == s[base..base + n][p - base];
  }

  /** The first n elements of c are the n elements of s from `base`. Stated element by
      element from the top so that assuming it unfolds one element at a time. */
  ghost predicate Mirrors<T>(c: seq<T>, n: nat, s: seq<T>, base: nat)
    decreases n
  {
    n <= |c| && base + n <= |s| && (n == 0 || (c[n - 1] == s[base + n - 1] && Mirrors(c, n - 1, s, base)))
  }

  lemma {:induction false} MirrorsSlice<T>(c: seq<T>, n: nat, s: seq<T>, base: nat)
    ensures Mirrors(c, n, s, base) <==> n <= |c| && base + n <= |s| && c[..n] == s[base..base + n]
    decreases n
  {
    if n > 0 {
      MirrorsSlice(c, n - 1, s, base);
      if n <= |c| && base + n <= |s| {
        assert c[..n] == c[..n - 1] + [c[n - 1]];
        assert s[base..base + n] == s[base..base + n - 1] + [s[base + n - 1]];
      }
    }
  }
}
