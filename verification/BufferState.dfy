/**
  The state of the growable byte buffer _BufBuilder (mongo/bson/util/builder.h),
  as a value: what each call does to the written bytes, the capacity and the
  reservation. Class BufBuilder keeps this state in an array.
 */
module BufferState {
  import opened Bytes

  const BUFFER_MAX_SIZE: nat := 64 * 1024 * 1024

  /** `copied` counts the bytes of old capacity handed to realloc so far. */
  datatype Buffer = Buffer(bytes: ByteSeq, size: nat, reserved: nat, copied: nat)
  {
    /** Every byte written or promised has its place in the allocation. */
    predicate Valid()
    {
      |bytes| + reserved <= size
    }
  }

  // ---------------------------------------------------------------- capacities

  lemma {:induction false} Pow2Grows(i: nat, j: nat)
    requires i <= j
    ensures Pow2(i) <= Pow2(j)
    decreases j
  {
    if i < j {
      Pow2Grows(i, j - 1);
    }
  }

  /** The doubling loop of grow_reallocate, entered with `a`. */
  function DoubleUntil(a: nat, minSize: nat): (r: nat)
    requires a > 0
    ensures r >= a && r >= minSize
    decreases minSize - a
  {
    if a < minSize then DoubleUntil(2 * a, minSize) else a
  }

  function Capacity(minSize: nat): (r: nat)
    ensures r >= 64 && r >= minSize
  {
    DoubleUntil(64, minSize)
  }

  /** `r` is 64 * 2^k, and no smaller such number reaches `minSize`. */
  ghost predicate LeastCapacity(k: nat, r: nat, minSize: nat)
  {
    r == 64 * Pow2(k) && minSize <= r && (k > 0 ==> 64 * Pow2(k - 1) < minSize)
  }

  lemma {:induction false} DoublingIsLeast(i: nat, minSize: nat) returns (k: nat)
    requires i > 0 ==> 64 * Pow2(i - 1) < minSize
    ensures LeastCapacity(k, DoubleUntil(64 * Pow2(i), minSize), minSize)
    decreases minSize - 64 * Pow2(i)
  {
    k := i;
    if 64 * Pow2(i) < minSize {
      assert 2 * (64 * Pow2(i)) == 64 * Pow2(i + 1);
      k := DoublingIsLeast(i + 1, minSize);
    }
  }

  /** The loop finds the least capacity of the form 64 * 2^k that fits. */
  lemma CapacityIsLeast(minSize: nat)
    ensures exists k: nat :: LeastCapacity(k, Capacity(minSize), minSize)
    ensures forall j: nat :: minSize <= 64 * Pow2(j) ==> Capacity(minSize) <= 64 * Pow2(j)
  {
    var k := DoublingIsLeast(0, minSize);
    assert LeastCapacity(k, Capacity(minSize), minSize);
    forall j: nat | minSize <= 64 * Pow2(j)
      ensures Capacity(minSize) <= 64 * Pow2(j)
    {
      if j < k { Pow2Grows(j, k - 1); } else { Pow2Grows(k, j); }
    }
  }

  lemma LimitIsCapacity()
    ensures BUFFER_MAX_SIZE == 64 * Pow2(20)
  {
    assert Pow2(10) == 1024;
    assert Pow2(15) == 32 * 1024;
    assert Pow2(20) == 1024 * 1024;
  }

  /** The limit is itself a capacity, so growth fails exactly for requests past it. */
  lemma CapacityPastLimit(minSize: nat)
    ensures Capacity(minSize) > BUFFER_MAX_SIZE <==> minSize > BUFFER_MAX_SIZE
  {
    LimitIsCapacity();
    CapacityIsLeast(minSize);
  }

  /** Outgrowing a capacity at least doubles it. */
  lemma CapacityDoubles(small: nat, large: nat)
    requires Capacity(small) < large
    ensures 2 * Capacity(small) <= Capacity(large)
  {
    var i := DoublingIsLeast(0, small);
    var j := DoublingIsLeast(0, large);
    if j <= i {
      Pow2Grows(j, i);
    } else {
      Pow2Grows(i + 1, j);
    }
  }

  // ---------------------------------------------------------------- operations

  /** Room for `minSize` bytes, or the 64 MB exception. */
  function Ensure(b: Buffer, minSize: nat): Option<Buffer>
  {
    if minSize <= b.size then Some(b)
    else
      var a := Capacity(minSize);
      if a > BUFFER_MAX_SIZE then None
      else Some(b.(size := a, copied := b.copied + b.size))
  }

  /** grow(), followed by a write of the bytes it made room for. */
  function Append(b: Buffer, s: ByteSeq): Option<Buffer>
  {
    match Ensure(b, |b.bytes| + |s| + b.reserved)
    case None => None
    case Some(g) => Some(g.(bytes := b.bytes + s))
  }

  /** Only the length of what is appended decides about room. */
  lemma AppendInPlace(b: Buffer, garbage: ByteSeq, s: ByteSeq)
    requires |garbage| == |s|
    ensures Append(b, s).Some? <==> Append(b, garbage).Some?
    ensures Append(b, s).Some? ==>
              var g := Append(b, garbage).value;
              |s| <= |g.bytes| && Append(b, s).value == g.(bytes := g.bytes[..|g.bytes| - |s|] + s)
  {
    assert (b.bytes + garbage)[..|b.bytes|] == b.bytes;
  }

  function Reserve(b: Buffer, n: nat): Option<Buffer>
  {
    match Ensure(b, |b.bytes| + b.reserved + n)
    case None => None
    case Some(g) => Some(g.(reserved := b.reserved + n))
  }

  function Claim(b: Buffer, n: nat): Buffer
    requires n <= b.reserved
  {
    b.(reserved := b.reserved - n)
  }

  /** Writes made one after the other, up to the first that throws. */
  function AppendAll(b: Buffer, chunks: seq<ByteSeq>): (Buffer, bool)
    decreases |chunks|
  {
    if chunks == [] then (b, true)
    else
      match Append(b, chunks[0])
      case None => (b, false)
      case Some(g) => AppendAll(g, chunks[1..])
  }

  /** The largest total a buffer may come to hold. */
  function Limit(b: Buffer): nat
  {
    if b.size > BUFFER_MAX_SIZE then b.size else BUFFER_MAX_SIZE
  }

  lemma EnsureWorks(b: Buffer, minSize: nat)
    ensures Ensure(b, minSize).Some? <==> minSize <= Limit(b)
    ensures Ensure(b, minSize).Some? ==>
              var g := Ensure(b, minSize).value;
              g.bytes == b.bytes && g.reserved == b.reserved && minSize <= g.size && Limit(g) == Limit(b)
              && b.size <= g.size
  {
    CapacityPastLimit(minSize);
  }

  /**
    A sequence of appends succeeds exactly when all of it fits the limit. Then the
    bytes written before are kept and the chunks follow them; when it fails, what
    was written stays a prefix of the full result.
   */
  lemma {:induction false} AppendAllWorks(b: Buffer, chunks: seq<ByteSeq>)
    requires b.Valid()
    ensures var (g, ok) := AppendAll(b, chunks);
            && g.Valid() && g.reserved == b.reserved && Limit(g) == Limit(b) && b.size <= g.size
            && b.bytes <= g.bytes <= b.bytes + Flatten(chunks)
            && (ok <==> |b.bytes| + |Flatten(chunks)| + b.reserved <= Limit(b))
            && (ok ==> g.bytes == b.bytes + Flatten(chunks))
    decreases |chunks|
  {
    if chunks == [] {
      assert b.bytes + Flatten(chunks) == b.bytes;
    } else {
      EnsureWorks(b, |b.bytes| + |chunks[0]| + b.reserved);
      var first := Append(b, chunks[0]);
      if first.Some? {
        AppendAllWorks(first.value, chunks[1..]);
        AppendMore(b.bytes, chunks);
      }
    }
  }

  lemma AppendMore(s: ByteSeq, chunks: seq<ByteSeq>)
    requires chunks != []
    ensures s + Flatten(chunks) == s + chunks[0] + Flatten(chunks[1..])
  {
  }

  // ------------------------------------------------------------- cost of growth

  /** Either nothing was reallocated yet, or the size is a capacity and the copies are paid for. */
  ghost predicate Amortised(initial: nat, b: Buffer, last: nat)
  {
    || (b.copied == 0 && b.size == initial)
    || (b.size == Capacity(last) && b.copied + 64 <= initial + b.size)
  }

  /** The same, for some request that caused the last reallocation. */
  ghost predicate PaidFor(initial: nat, b: Buffer)
  {
    exists last: nat :: Amortised(initial, b, last)
  }

  /** What is paid for is linear: less was copied than the first and the present size together. */
  lemma PaidForIsLinear(initial: nat, b: Buffer)
    requires PaidFor(initial, b)
    ensures (b.copied == 0 && b.size == initial) || b.copied < initial + b.size
  {
  }

  lemma EnsurePaid(initial: nat, b: Buffer, minSize: nat)
    requires PaidFor(initial, b) && Ensure(b, minSize).Some?
    ensures PaidFor(initial, Ensure(b, minSize).value)
  {
    var last: nat :| Amortised(initial, b, last);
    if minSize <= b.size {
      assert Amortised(initial, Ensure(b, minSize).value, last);
    } else {
      if !(b.copied == 0 && b.size == initial) {
        CapacityDoubles(last, minSize);
      }
      assert Amortised(initial, Ensure(b, minSize).value, minSize);
    }
  }

  /** Bytes and reservations do not matter. */
  lemma SamePaid(initial: nat, b: Buffer, c: Buffer)
    requires PaidFor(initial, b) && c.size == b.size && c.copied == b.copied
    ensures PaidFor(initial, c)
  {
    var last: nat :| Amortised(initial, b, last);
    assert Amortised(initial, c, last);
  }

  lemma {:induction false} AppendAllPaid(initial: nat, b: Buffer, chunks: seq<ByteSeq>)
    requires PaidFor(initial, b)
    ensures PaidFor(initial, AppendAll(b, chunks).0)
    decreases |chunks|
  {
    if chunks != [] && Append(b, chunks[0]).Some? {
      var minSize := |b.bytes| + |chunks[0]| + b.reserved;
      EnsurePaid(initial, b, minSize);
      SamePaid(initial, Ensure(b, minSize).value, Append(b, chunks[0]).value);
      AppendAllPaid(initial, Append(b, chunks[0]).value, chunks[1..]);
    }
  }

  lemma ReservePaid(initial: nat, b: Buffer, n: nat)
    requires PaidFor(initial, b) && Reserve(b, n).Some?
    ensures PaidFor(initial, Reserve(b, n).value)
  {
    EnsurePaid(initial, b, |b.bytes| + b.reserved + n);
    SamePaid(initial, Ensure(b, |b.bytes| + b.reserved + n).value, Reserve(b, n).value);
  }
}
