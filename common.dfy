/** Shared vocabulary of the model: optional values, the I/O errors a block device or a
    stream can raise, byte-range splicing and block-alignment arithmetic. */
module Common {

  datatype Option<T> = None | Some(value: T)

  /** The IOExceptions of the engine, by cause. */
  datatype IoError =
    | NoSpaceLeft      // "No space left on device": a write at or past the device capacity
    | DeviceFailure    // the failure the device reports for a request it cannot serve
    | OutOfRange       // a block request that ends past the last block
    | InvalidMark      // reset() without an outstanding mark

  datatype Result<T> = Ok(value: T) | Err(error: IoError)

  function Min(a: int, b: int): int { if a <= b then a else b }

  function Max(a: int, b: int): int { if a <= b then b else a }

  /** x forced into [lo, hi]. */
  function Clamp(x: int, lo: int, hi: int): (r: int)
    requires lo <= hi
    ensures lo <= r <= hi
    ensures lo <= x <= hi ==> r == x
    ensures x < lo ==> r == lo
    ensures hi < x ==> r == hi
  {
    if x < lo then lo else if hi < x then hi else x
  }

  /** s with the elements at [at, at + |d|) replaced by d. */
  function Splice<T>(s: seq<T>, at: nat, d: seq<T>): (r: seq<T>)
    requires at + |d| <= |s|
    ensures |r| == |s|
    decreases |d|
  {
    if d == [] then s else Splice(s[at := d[0]], at + 1, d[1..])
  }

  lemma {:induction false} SpliceAt<T>(s: seq<T>, at: nat, d: seq<T>, i: nat)
    requires at + |d| <= |s| && i < |s|
    ensures Splice(s, at, d)[i] == if at <= i < at + |d| then d[i - at] else s[i]
    decreases |d|
  {
    if d != [] {
      SpliceAt(s[at := d[0]], at + 1, d[1..], i);
    }
  }

  lemma SpliceSlices<T>(s: seq<T>, at: nat, d: seq<T>)
    requires at + |d| <= |s|
    ensures Splice(s, at, d)[..at] == s[..at]
    ensures Splice(s, at, d)[at..at + |d|] == d
    ensures Splice(s, at, d)[at + |d|..] == s[at + |d|..]
  {
    forall i | 0 <= i < |s| {
      SpliceAt(s, at, d, i);
    }
  }

  /** A window of c that mirrors s from `base` mirrors it in every sub-range too. */
  lemma SubSlice<T>(c: seq<T>, n: nat, s: seq<T>, base: nat, from: nat, k: nat)
    requires n <= |c| && base + n <= |s| && c[..n] == s[base..base + n] && from + k <= n
    ensures c[from..from + k] == s[base + from..base + from + k]
  {
    forall i | from <= i < from + k ensures c[i] == s[base + i] {
      assert c[i] == c[..n][i];
    }
  }

  /** A sequence that holds d at [at, at + |d|) and agrees with s elsewhere is the splice. */
  lemma SpliceExt<T>(s: seq<T>, at: nat, d: seq<T>, r: seq<T>)
    requires at + |d| <= |s| && |r| == |s|
    requires forall k | 0 <= k < |d| :: r[at + k] == d[k]
    requires forall i | 0 <= i < |s| && !(at <= i < at + |d|) :: r[i] == s[i]
    ensures r == Splice(s, at, d)
  {
    forall i | 0 <= i < |s| ensures r[i] == Splice(s, at, d)[i] {
      SpliceAt(s, at, d, i);
      if at <= i < at + |d| {
        assert r[at + (i - at)] == d[i - at];
      }
    }
  }

  /** Two consecutive splices are one splice of the concatenation. */
  lemma SpliceTwice<T>(s: seq<T>, at: nat, d1: seq<T>, d2: seq<T>)
    requires at + |d1| + |d2| <= |s|
    ensures Splice(Splice(s, at, d1), at + |d1|, d2) == Splice(s, at, d1 + d2)
  {
    var l, r := Splice(Splice(s, at, d1), at + |d1|, d2), Splice(s, at, d1 + d2);
    forall i | 0 <= i < |s| ensures l[i] == r[i] {
      SpliceAt(Splice(s, at, d1), at + |d1|, d2, i);
      SpliceAt(s, at, d1, i);
      SpliceAt(s, at, d1 + d2, i);
    }
  }

  /** Splicing in successive pieces of d splices in the prefix they make up. */
  lemma SplicePrefix<T>(s: seq<T>, at: nat, d: seq<T>, i: nat, j: nat)
    requires i <= j <= |d| && at + j <= |s|
    ensures Splice(Splice(s, at, d[..i]), at + i, d[i..j]) == Splice(s, at, d[..j])
  {
    assert d[..i] + d[i..j] == d[..j];
    SpliceTwice(s, at, d[..i], d[i..j]);
  }

  /** Splicing in a range whose head and tail already agree with s only changes the middle. */
  lemma SpliceWithin<T>(s: seq<T>, at: nat, d: seq<T>, k: nat, m: nat)
    requires at + |d| <= |s| && k + m <= |d|
    requires d[..k] == s[at..at + k]
    requires d[k + m..] == s[at + k + m..at + |d|]
    ensures Splice(s, at, d) == Splice(s, at + k, d[k..k + m])
  {
    var l, r := Splice(s, at, d), Splice(s, at + k, d[k..k + m]);
    forall i | 0 <= i < |s| ensures l[i] == r[i] {
      SpliceAt(s, at, d, i);
      SpliceAt(s, at + k, d[k..k + m], i);
      if at <= i < at + k {
        assert d[i - at] == d[..k][i - at];
      } else if at + k + m <= i < at + |d| {
        assert d[i - at] == d[k + m..][i - at - k - m];
      }
    }
  }

  /** Splicing in d[p..p + i) and then the next k elements of d right after it is splicing
      in d[p..p + i + k). */
  lemma SpliceSegments<T>(b0: seq<T>, off: nat, d: seq<T>, p: nat, q: nat, r: nat)
    requires p <= q <= r <= |d| && off + (r - p) <= |b0|
    ensures Splice(Splice(b0, off, d[p..q]), off + (q - p), d[q..r]) == Splice(b0, off, d[p..r])
  {
    var e := d[p..r];
    assert e[..q - p] == d[p..q] && e[q - p..r - p] == d[q..r] && e[..r - p] == e;
    SplicePrefix(b0, off, e, q - p, r - p);
  }

  /** Read-modify-write form: splicing in head + mid + tail, where head and tail repeat
      what s already holds at [at, at + lo) and [at + hi, at + end), is splicing in mid. */
  lemma SpliceFramed<T>(s: seq<T>, at: nat, lo: nat, hi: nat, end: nat, head: seq<T>, mid: seq<T>, tail: seq<T>)
    requires lo <= hi <= end && at + end <= |s| && |mid| == hi - lo
    requires head == s[at..at + lo] && tail == s[at + hi..at + end]
    ensures Splice(s, at, head + mid + tail) == Splice(s, at + lo, mid)
  {
    var d := head + mid + tail;
    assert d[..lo] == head && d[hi..] == tail;
    SpliceWithin(s, at, d, lo, hi - lo);
    assert d[lo..hi] == mid;
  }

  /** Splicing two pieces of the same length into the same sequence gives the same result
      exactly when the pieces are equal. */
  lemma SpliceInjective<T>(s: seq<T>, at: nat, x: seq<T>, y: seq<T>)
    requires at + |x| <= |s| && |x| == |y|
    ensures Splice(s, at, x) == Splice(s, at, y) <==> x == y
  {
    SpliceSlices(s, at, x);
    SpliceSlices(s, at, y);
  }

  lemma SpliceEmpty<T>(s: seq<T>, at: nat)
    requires at <= |s|
    ensures Splice(s, at, []) == s
  {
  }

  /** Two sequences that agree below p agree below q exactly when they agree on [p, q). */
  lemma PrefixExtend<T>(a: seq<T>, b: seq<T>, p: nat, q: nat)
    requires p <= q <= |a| && q <= |b| && a[..p] == b[..p]
    ensures a[..q] == b[..q] <==> a[p..q] == b[p..q]
  {
    assert a[..q] == a[..p] + a[p..q];
    assert b[..q] == b[..p] + b[p..q];
    if a[..q] == b[..q] {
      assert a[p..q] == a[..q][p..] && b[p..q] == b[..q][p..];
    }
  }

  /** Copies d into dst at `at`; no other element of dst changes. */
  method CopyInto(dst: array<bv8>, at: nat, d: seq<bv8>)
    requires at + |d| <= dst.Length
    modifies dst
    ensures dst[..] == Splice(old(dst[..]), at, d)
  {
    forall j | 0 <= j < |d| {
      dst[at + j] := d[j];
    }
    SpliceExt(old(dst[..]), at, d, dst[..]);
  }

  // ---------------------------------------------------------------------------
  // Block alignment. Alignment is defined by repeated subtraction rather than with `%`
  // and `/`, so that the stream proofs never hand the solver nonlinear arithmetic; the
  // link to the operators is AlignDownIsModulo.

  /** x is a whole number of b-byte blocks. */
  predicate Aligned(x: nat, b: nat)
    requires b > 0
    decreases x
  {
    if x < b then x == 0 else Aligned(x - b, b)
  }

  /** The start of the block holding byte x. */
  function AlignDown(x: nat, b: nat): (r: nat)
    requires b > 0
    ensures r <= x < r + b && Aligned(r, b)
    ensures Aligned(x, b) ==> r == x
    decreases x
  {
    if x < b then 0 else b + AlignDown(x - b, b)
  }

  /** The offset of byte x within its block. */
  function BlockOffset(x: nat, b: nat): (r: nat)
    requires b > 0
    ensures r <= x && r < b && Aligned(x - r, b)
    ensures r == 0 <==> Aligned(x, b)
  {
    x - AlignDown(x, b)
  }

  /** The least multiple of b that is at least x. */
  function AlignUp(x: nat, b: nat): (r: nat)
    requires b > 0
    ensures x <= r < x + b && Aligned(r, b)
    ensures Aligned(x, b) ==> r == x
  {
    if Aligned(x, b) then x else AlignDown(x, b) + b
  }

  lemma {:induction false} AlignedSum(x: nat, y: nat, b: nat)
    requires b > 0 && Aligned(x, b) && Aligned(y, b)
    ensures Aligned(x + y, b)
    ensures x >= y ==> Aligned(x - y, b)
    decreases y
  {
    if y >= b {
      AlignedSum(x, y - b, b);
      if x >= y {
        AlignedSum(x - b, y - b, b);
      }
    }
  }

  /** Two distinct multiples of b are at least b apart. */
  lemma {:induction false} AlignedApart(x: nat, y: nat, b: nat)
    requires b > 0 && Aligned(x, b) && Aligned(y, b) && x < y
    ensures x + b <= y
    decreases x
  {
    if x >= b {
      AlignedApart(x - b, y - b, b);
    }
  }

  /** The aligned point below x is the only multiple of b in (x - b, x]. */
  lemma AlignDownUnique(x: nat, a: nat, b: nat)
    requires b > 0 && Aligned(a, b) && a <= x < a + b
    ensures AlignDown(x, b) == a
  {
    var r := AlignDown(x, b);
    if r < a {
      AlignedApart(r, a, b);
    } else if a < r {
      AlignedApart(a, r, b);
    }
  }

  /** Block boundaries are preserved by shifting by a whole number of blocks. */
  lemma AlignShift(base: nat, x: nat, b: nat)
    requires b > 0 && Aligned(base, b)
    ensures Aligned(base + x, b) <==> Aligned(x, b)
    ensures AlignDown(base + x, b) == base + AlignDown(x, b)
    ensures AlignUp(base + x, b) == base + AlignUp(x, b)
  {
    AlignedSum(base, AlignDown(x, b), b);
    AlignDownUnique(base + x, base + AlignDown(x, b), b);
    if Aligned(base + x, b) {
      AlignedSum(base + x, base, b);
    } else if Aligned(x, b) {
      AlignedSum(base, x, b);
    }
  }

  /** A bound that is a multiple of b is also a bound for the block end of x. */
  lemma AlignUpBelow(x: nat, a: nat, b: nat)
    requires b > 0 && Aligned(a, b) && x <= a
    ensures AlignUp(x, b) <= a
  {
    if !Aligned(x, b) {
      AlignedApart(AlignDown(x, b), a, b);
    }
  }

  lemma {:induction false} MulAligned(q: nat, b: nat)
    requires b > 0
    ensures Aligned(q * b, b)
  {
    if q > 0 {
      MulAligned(q - 1, b);
      assert q * b - b == (q - 1) * b;
    }
  }

  /** The alignment functions agree with Euclidean division. */
  lemma AlignDownIsModulo(x: nat, b: nat)
    requires b > 0
    ensures AlignDown(x, b) == x - x % b && BlockOffset(x, b) == x % b
    ensures Aligned(x, b) <==> x % b == 0
  {
    var q, m := x / b, x % b;
    assert x == q * b + m && 0 <= m < b;
    MulAligned(q, b);
    AlignDownUnique(x, q * b, b);
  }

  /** Multiplying by a positive factor keeps the order. */
  lemma MulMonotone(b: int, x: int, y: int)
    requires b > 0
    ensures x <= y <==> b * x <= b * y
  {
    if x <= y {
      MulNonNegative(b, y - x);
      assert b * y - b * x == b * (y - x);
    } else {
      MulNonNegative(b, x - y - 1);
      assert b * x - b * y == b * (x - y - 1) + b;
    }
  }

  lemma {:induction false} MulNonNegative(b: int, d: int)
    requires b > 0 && d >= 0
    ensures b * d >= 0
    decreases d
  {
    if d > 0 {
      MulNonNegative(b, d - 1);
      assert b * d == b * (d - 1) + b;
    }
  }
}
