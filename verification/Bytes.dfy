/**
  Bytes and the little-endian integers stored in them (mongo/base/data_view.h,
  readLE and writeLE). A byte is an integer below 256, so no bit-vector
  reasoning is needed above this module; DataViews.StoredAsLE ties it to bit-vectors.
 */
module Bytes {

  type Byte = b: int | 0 <= b < 256
  type ByteSeq = seq<Byte>

  /** A C string without its terminator. */
  type CStr = s: ByteSeq | 0 !in s

  const TWO_TO_THE_31: int := 0x8000_0000
  const TWO_TO_THE_32: int := 0x1_0000_0000
  const TWO_TO_THE_63: int := 0x8000_0000_0000_0000
  const TWO_TO_THE_64: int := 0x1_0000_0000_0000_0000

  type int32 = x: int | -0x8000_0000 <= x < 0x8000_0000
  type uint32 = x: int | 0 <= x < 0x1_0000_0000
  type int64 = x: int | -0x8000_0000_0000_0000 <= x < 0x8000_0000_0000_0000
  type uint64 = x: int | 0 <= x < 0x1_0000_0000_0000_0000

  datatype Option<+T> = None | Some(value: T)

  lemma Associative<T>(a: seq<T>, b: seq<T>, c: seq<T>)
    ensures a + (b + c) == (a + b) + c
  {
  }

  lemma Associative4<T>(a: seq<T>, b: seq<T>, c: seq<T>, d: seq<T>)
    ensures a + (b + c + d) == a + b + c + d
  {
  }

  /** All the items of all the lists, in order. */
  function Flatten<T>(lists: seq<seq<T>>): seq<T>
  {
    if lists == [] then [] else lists[0] + Flatten(lists[1..])
  }

  lemma {:induction false} FlattenAppend<T>(a: seq<seq<T>>, b: seq<seq<T>>)
    ensures Flatten(a + b) == Flatten(a) + Flatten(b)
  {
    if a == [] {
      assert a + b == b;
    } else {
      FlattenAppend(a[1..], b);
      assert (a + b)[1..] == a[1..] + b;
      Associative(a[0], Flatten(a[1..]), Flatten(b));
    }
  }

  lemma FlattenOne<T>(a: seq<T>)
    ensures Flatten([a]) == a
  {
    assert Flatten([a]) == a + Flatten([a][1..]);
    assert [a][1..] == [];
  }

  lemma FlattenSnoc<T>(p: seq<seq<T>>, i: nat)
    requires i < |p|
    ensures Flatten(p[..i + 1]) == Flatten(p[..i]) + p[i]
    ensures |Flatten(p[..i + 1])| <= |Flatten(p)|
  {
    assert p[..i + 1] == p[..i] + [p[i]];
    FlattenAppend(p[..i], [p[i]]);
    FlattenOne(p[i]);
    assert p == p[..i + 1] + p[i + 1..];
    FlattenAppend(p[..i + 1], p[i + 1..]);
  }

  /** Overwrites what stands at `at`. */
  function Patch<T>(s: seq<T>, at: nat, with: seq<T>): (r: seq<T>)
    requires at + |with| <= |s|
    ensures |r| == |s|
  {
    s[..at] + with + s[at + |with|..]
  }

  function Pow2(k: nat): (r: nat)
    ensures r > 0
  {
    if k == 0 then 1 else 2 * Pow2(k - 1)
  }

  /** 256 to the power of `width`: the number of values `width` bytes can hold. */
  function Range(width: nat): (n: int)
    ensures n > 0
  {
    if width == 0 then 1 else 256 * Range(width - 1)
  }

  /** The low `width` bytes of `v`, least significant first. */
  function LE(width: nat, v: nat): (s: ByteSeq)
    ensures |s| == width
    decreases width, v
  {
    if width == 0 then [] else [v % 256] + LE(width - 1, v / 256)
  }

  /** The number whose little-endian bytes are `s`. */
  function FromLE(s: ByteSeq): (n: nat)
    ensures n < Range(|s|)
  {
    if s == [] then 0 else s[0] + 256 * FromLE(s[1..])
  }

  lemma {:induction false} FromLEInvertsLE(width: nat, v: nat)
    requires v < Range(width)
    ensures FromLE(LE(width, v)) == v
  {
    if width > 0 {
      FromLEInvertsLE(width - 1, v / 256);
      assert LE(width, v)[1..] == LE(width - 1, v / 256);
    }
  }

  lemma LowByte(a: Byte, n: nat)
    ensures (a + 256 * n) % 256 == a && (a + 256 * n) / 256 == n
  {
  }

  lemma {:induction false} LEInvertsFromLE(s: ByteSeq)
    ensures LE(|s|, FromLE(s)) == s
  {
    if s != [] {
      LEInvertsFromLE(s[1..]);
      LowByte(s[0], FromLE(s[1..]));
      assert s == [s[0]] + s[1..];
    }
  }

  lemma RangeOf4()
    ensures Range(4) == TWO_TO_THE_32
  {
    assert Range(1) == 256 && Range(2) == 0x1_0000 && Range(3) == 0x100_0000;
  }

  lemma RangeOf8()
    ensures Range(8) == TWO_TO_THE_64
  {
    RangeOf4();
    assert Range(5) == 0x100_0000_0000 && Range(6) == 0x1_0000_0000_0000 && Range(7) == 0x100_0000_0000_0000;
  }

  /** Reinterprets an unsigned number below `modulus` as two's complement. */
  function ToSigned(modulus: int, u: int): int
  {
    if 2 * u >= modulus then u - modulus else u
  }

  /** writeLE of a 32-bit int: two's complement, four bytes. */
  function Int32LE(v: int32): (s: ByteSeq)
    ensures |s| == 4
  {
    LE(4, v % TWO_TO_THE_32)
  }

  /** A length is written as a signed int; below 2^31 the bytes are the same. */
  lemma LengthAsInt32(n: nat)
    requires n < TWO_TO_THE_31
    ensures Int32LE(n) == LE(4, n)
  {
    assert n % TWO_TO_THE_32 == n;
  }

  function Int64LE(v: int64): (s: ByteSeq)
    ensures |s| == 8
  {
    LE(8, v % TWO_TO_THE_64)
  }

  /** readLE of a 32-bit int at the start of `s`. */
  function ReadInt32(s: ByteSeq): int32
    requires |s| >= 4
  {
    RangeOf4();
    ToSigned(TWO_TO_THE_32, FromLE(s[..4]))
  }

  function ReadInt64(s: ByteSeq): int64
    requires |s| >= 8
  {
    RangeOf8();
    ToSigned(TWO_TO_THE_64, FromLE(s[..8]))
  }

  lemma ReadInt32Back(v: int32, rest: ByteSeq)
    ensures ReadInt32(Int32LE(v) + rest) == v
  {
    RangeOf4();
    FromLEInvertsLE(4, v % TWO_TO_THE_32);
    assert (Int32LE(v) + rest)[..4] == Int32LE(v);
  }

  /** The four bytes of a length read as that length. */
  lemma LengthBytes(n: nat)
    requires n < TWO_TO_THE_31
    ensures ReadInt32(LE(4, n)) == n
  {
    LengthAsInt32(n);
    ReadInt32Back(n, []);
    assert LE(4, n) + [] == LE(4, n);
  }

  /** Only the first four bytes count. */
  lemma ReadInt32Front(front: ByteSeq, s: ByteSeq)
    requires |front| == 4 && front <= s
    ensures ReadInt32(s) == ReadInt32(front)
  {
    assert s[..4] == front == front[..4];
  }

  lemma ReadInt64Back(v: int64, rest: ByteSeq)
    ensures ReadInt64(Int64LE(v) + rest) == v
  {
    RangeOf8();
    FromLEInvertsLE(8, v % TWO_TO_THE_64);
    assert (Int64LE(v) + rest)[..8] == Int64LE(v);
  }

  /** strlen: the index of the first NUL, if there is one. */
  function StrLen(s: ByteSeq): (r: Option<nat>)
    ensures r.Some? ==> r.value < |s| && s[r.value] == 0 && 0 !in s[..r.value]
    ensures r.None? ==> 0 !in s
  {
    if s == [] then None
    else if s[0] == 0 then Some(0)
    else
      var tail := StrLen(s[1..]);
      assert s == [s[0]] + s[1..];
      match tail
      case None => None
      case Some(k) =>
        assert s[..k + 1] == [s[0]] + s[1..][..k];
        Some(k + 1)
  }

  /** A terminated C string is found again, whatever follows it. */
  lemma {:induction false} StrLenOfCStr(s: CStr, rest: ByteSeq)
    ensures StrLen(s + [0] + rest) == Some(|s|)
  {
    if s != [] {
      StrLenOfCStr(s[1..], rest);
      assert (s + [0] + rest)[1..] == s[1..] + [0] + rest;
    }
  }

  /** strlen never looks past a NUL. */
  lemma {:induction false} StrLenAtMost(s: ByteSeq, i: nat)
    requires i < |s| && s[i] == 0
    ensures StrLen(s).Some? && StrLen(s).value <= i
  {
    if s[0] != 0 {
      StrLenAtMost(s[1..], i - 1);
    }
  }
}
