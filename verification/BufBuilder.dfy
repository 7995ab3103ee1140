/** The buffer class itself: _BufBuilder (mongo/bson/util/builder.h). */
module BufBuilders {
  import opened Bytes
  import opened BufferState

  /** Past this, the doubling loop could overflow a 32-bit int; callers stay below. */
  const MAX_REQUEST: int := 0x4000_0000

  class BufBuilder {
    var data: array?<Byte>
    var l: int32
    var size: int32
    var reservedBytes: int32

    ghost var bytes: ByteSeq  // the bytes written so far: data[..l]
    ghost var copied: nat     // old capacity handed to realloc so far

    ghost predicate Valid()
      reads this, data
    {
      && 0 <= l == |bytes| && 0 <= reservedBytes
      && l + reservedBytes <= size
      && (data == null ==> size == 0)
      && (data != null ==> data.Length == size && data[..l] == bytes)
    }

    /** The state of the buffer as a value. */
    ghost function State(): (b: Buffer)
      requires l >= 0 && size >= 0 && reservedBytes >= 0
      reads this
    {
      Buffer(bytes, size, reservedBytes, copied)
    }

    /** Whether `n` more bytes can be asked for without overflowing an int. */
    ghost predicate CanAsk(n: int)
      reads this
    {
      0 <= n && (l + reservedBytes + n <= size || l + reservedBytes + n <= MAX_REQUEST)
    }

    constructor (initsize: int32 := 512)
      requires initsize >= 0
      ensures Valid() && State() == Buffer([], initsize, 0, 0)
      ensures data == null || fresh(data)
    {
      l, size, reservedBytes := 0, initsize, 0;
      bytes, copied := [], 0;
      data := null;
      new;
      if size > 0 {
        data := new Byte[size];
      }
    }

    /** The slow path of grow(): doubles from 64 until `minSize` fits, then reallocates. */
    method GrowReallocate(minSize: int32) returns (ok: bool)
      requires Valid() && size < minSize <= MAX_REQUEST
      modifies this
      ensures Valid() && l == old(l)
      ensures ok <==> Ensure(old(State()), minSize).Some?
      ensures State() == if ok then Ensure(old(State()), minSize).value else old(State())
      ensures data == old(data) || fresh(data)
      ensures size == old(size) ==> data == old(data)
      ensures ok ==> size == Capacity(minSize)
    {
      var a: int32 := 64;
      ghost var k: nat := 0;
      while a < minSize
        invariant a == 64 * Pow2(k) <= MAX_REQUEST
        invariant DoubleUntil(a, minSize) == Capacity(minSize)
        decreases minSize - a
        modifies {}
      {
        MaxRequestIsCapacity(k);
        a, k := a * 2, k + 1;
      }
      if a > BUFFER_MAX_SIZE {
        return false;
      }
      var bigger := new Byte[a];
      if data != null {
        forall i | 0 <= i < size {
          bigger[i] := data[i];
        }
        assert bigger[..l] == data[..l];
      }
      data, copied, size := bigger, copied + size, a;
      ok := true;
    }

    /** grow(): room for `n` bytes at the end; what they hold is up to the caller. */
    method Grow(n: int32) returns (ok: bool, ghost garbage: ByteSeq)
      requires Valid() && CanAsk(n)
      modifies this
      ensures Valid() && l == if ok then old(l) + n else old(l)
      ensures |garbage| == n
      ensures ok <==> Append(old(State()), garbage).Some?
      ensures State() == if ok then Append(old(State()), garbage).value else old(State())
      ensures data == old(data) || fresh(data)
      ensures size == old(size) ==> data == old(data)
    {
      var newLen: int32 := l + n;
      var minSize: int32 := newLen + reservedBytes;
      ok := true;
      if minSize > size {
        ok := GrowReallocate(minSize);
      }
      assert Ensure(old(State()), minSize) == if ok then Some(State()) else None;
      if ok {
        garbage := if data == null then [] else data[l..newLen];
        l, bytes := newLen, bytes + garbage;
      } else {
        garbage := seq(n, _ => 0);
      }
    }

    /** skip(): leaves bytes to be filled in later, with whatever the memory holds. */
    method Skip(n: int32) returns (ok: bool, ghost garbage: ByteSeq)
      requires Valid() && CanAsk(n)
      modifies this
      ensures Valid() && l == if ok then old(l) + n else old(l)
      ensures |garbage| == n
      ensures ok <==> Append(old(State()), garbage).Some?
      ensures State() == if ok then Append(old(State()), garbage).value else old(State())
      ensures data == old(data) || fresh(data)
      ensures size == old(size) ==> data == old(data)
    {
      ok, garbage := Grow(n);
    }

    /** appendBuf(): grow, then copy. */
    method AppendBuf(src: ByteSeq) returns (ok: bool)
      requires Valid() && CanAsk(|src|)
      modifies this, data
      ensures Valid() && l == if ok then old(l) + |src| else old(l)
      ensures ok <==> Append(old(State()), src).Some?
      ensures State() == if ok then Append(old(State()), src).value else old(State())
      ensures data == old(data) || fresh(data)
      ensures size == old(size) ==> data == old(data)
    {
      ghost var before, garbage := State(), [];
      ok, garbage := Grow(|src|);
      ghost var grown := State();
      AppendInPlace(before, garbage, src);
      if ok {
        WriteLast(src);
        assert State() == grown.(bytes := grown.bytes[..l - |src|] + src);
      }
    }

    /** Puts `src` in place of the last bytes. */
    method WriteLast(src: ByteSeq)
      requires Valid() && |src| <= l
      modifies data, this`bytes
      ensures Valid()
      ensures State() == old(State()).(bytes := old(bytes)[..l - |src|] + src)
    {
      var at := l - |src|;
      Memcpy(at, src);
      bytes := bytes[..at] + src;
      assert data != null ==> data[..l] == data[..at] + data[at..at + |src|];
    }

    /** memcpy into the bytes from `at` on. */
    method Memcpy(at: int32, src: ByteSeq)
      requires data == null ==> src == []
      requires data != null ==> 0 <= at && at + |src| <= data.Length
      modifies data
      ensures data != null ==> data[..at] == old(data[..at]) && data[at..at + |src|] == src
      ensures data != null ==> data[at + |src|..] == old(data[at + |src|..])
    {
      if data != null {
        forall i | 0 <= i < |src| {
          data[at + i] := src[i];
        }
      }
    }

    /** appendStr(): the bytes, then the terminator. */
    method AppendStr(str: ByteSeq, includeEndingNull: bool := true) returns (ok: bool)
      requires Valid() && CanAsk(|str| + 1)
      modifies this, data
      ensures Valid() && l == if ok then old(l) + |str| + (if includeEndingNull then 1 else 0) else old(l)
      ensures ok <==> Append(old(State()), if includeEndingNull then str + [0] else str).Some?
      ensures State() == if ok then Append(old(State()), if includeEndingNull then str + [0] else str).value else old(State())
      ensures data == old(data) || fresh(data)
    {
      ok := AppendBuf(if includeEndingNull then str + [0] else str);
    }

    /** appendNum(char). */
    method AppendChar(c: Byte) returns (ok: bool)
      requires Valid() && CanAsk(1)
      modifies this, data
      ensures Valid() && l == if ok then old(l) + 1 else old(l)
      ensures ok <==> Append(old(State()), [c]).Some?
      ensures State() == if ok then Append(old(State()), [c]).value else old(State())
      ensures data == old(data) || fresh(data)
      ensures size == old(size) ==> data == old(data)
    {
      ok := AppendBuf([c]);
    }

    /** appendNum(int): four bytes, little-endian. */
    method AppendInt(n: int32) returns (ok: bool)
      requires Valid() && CanAsk(4)
      modifies this, data
      ensures Valid() && l == if ok then old(l) + 4 else old(l)
      ensures ok <==> Append(old(State()), Int32LE(n)).Some?
      ensures State() == if ok then Append(old(State()), Int32LE(n)).value else old(State())
      ensures data == old(data) || fresh(data)
    {
      ok := AppendBuf(Int32LE(n));
    }

    /** appendNum(int) of a size. */
    method AppendLength(n: nat) returns (ok: bool)
      requires Valid() && CanAsk(4) && n < TWO_TO_THE_31
      modifies this, data
      ensures Valid() && l == if ok then old(l) + 4 else old(l)
      ensures ok <==> Append(old(State()), LE(4, n)).Some?
      ensures State() == if ok then Append(old(State()), LE(4, n)).value else old(State())
      ensures data == old(data) || fresh(data)
    {
      LengthAsInt32(n);
      ok := AppendInt(n);
    }

    /** setlen(): moves the end, back or on into what the allocation holds beyond it. */
    method SetLen(newLen: int32)
      requires Valid() && 0 <= newLen <= size - reservedBytes
      modifies this`l, this`bytes
      ensures Valid() && l == newLen
      ensures newLen <= old(l) ==> State() == old(State()).(bytes := old(bytes)[..newLen])
      ensures newLen > old(l) ==>
                data != null && State() == old(State()).(bytes := old(bytes) + data[old(l)..newLen])
    {
      if newLen <= l {
        assert data != null ==> data[..newLen] == data[..l][..newLen];
        bytes := bytes[..newLen];
      } else {
        assert data[..newLen] == data[..l] + data[l..newLen];
        bytes := bytes + data[l..newLen];
      }
      l := newLen;
    }

    /** reserveBytes(): when growing throws, nothing has been promised yet. */
    method ReserveBytes(n: int32) returns (ok: bool)
      requires Valid() && CanAsk(n)
      modifies this
      ensures Valid() && l == old(l)
      ensures ok <==> Reserve(old(State()), n).Some?
      ensures State() == if ok then Reserve(old(State()), n).value else old(State())
      ensures data == old(data) || fresh(data)
      ensures size == old(size) ==> data == old(data)
    {
      var minSize: int32 := l + reservedBytes + n;
      if minSize > size {
        ok := GrowReallocate(minSize);
        if !ok {
          return;
        }
      }
      reservedBytes := reservedBytes + n;
      ok := true;
    }

    /** claimReservedBytes(): the source aborts unless so many bytes are reserved. */
    method ClaimReservedBytes(n: int32)
      requires Valid() && 0 <= n <= reservedBytes
      modifies this`reservedBytes
      ensures Valid()
      ensures State() == Claim(old(State()), n)
    {
      reservedBytes := reservedBytes - n;
    }

    /** DataView(buf() + at).writeLE(n): overwrites four bytes in place. */
    method WriteIntAt(at: int32, n: int32)
      requires Valid() && 0 <= at && at + 4 <= l
      modifies data, this`bytes
      ensures Valid()
      ensures State() == old(State()).(bytes := Patch(old(bytes), at, Int32LE(n)))
    {
      Memcpy(at, Int32LE(n));
      if data != null {
        assert data[at + 4..l] == data[at + 4..][..l - at - 4] == old(data[at + 4..])[..l - at - 4] == bytes[at + 4..];
        assert data[..at] == old(data[..at]) == bytes[..at];
        assert data[..l] == data[..at] + data[at..at + 4] + data[at + 4..l];
      }
      bytes := Patch(bytes, at, Int32LE(n));
    }

    /** The bytes from `from` on, as handed to a BSONObj. */
    method View(from: int32) returns (s: ByteSeq)
      requires Valid() && 0 <= from <= l
      ensures s == bytes[from..]
    {
      s := if data == null then [] else data[from..l];
    }
  }

  lemma MaxRequestIsCapacity(k: nat)
    requires 64 * Pow2(k) < MAX_REQUEST
    ensures k < 24 && 64 * Pow2(k + 1) <= MAX_REQUEST
  {
    LimitIsCapacity();
    assert Pow2(24) == 16 * Pow2(20);
    if k >= 24 {
      Pow2Grows(24, k);
    } else {
      Pow2Grows(k + 1, 24);
    }
  }
}
