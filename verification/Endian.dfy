/**
  Byte order (mongo/platform/endian.h) and the views that read and write numbers in a
  given order at any offset (mongo/base/data_view.h).
 */
module Endian {
  type Octet = bv8

  // ------------------------------------------------- the mask-and-shift swaps

  function BSwap16(v: bv16): bv16
  {
    ((v & 0x00FF) << 8) | ((v & 0xFF00) >> 8)
  }

  function BSwap32(v: bv32): bv32
  {
    ((v & 0x000000FF) << 24) | ((v & 0x0000FF00) << 8) | ((v & 0x00FF0000) >> 8) | ((v & 0xFF000000) >> 24)
  }

  function BSwap64(v: bv64): bv64
  {
    ((v & 0x00000000000000FF) << 56) | ((v & 0x000000000000FF00) << 40)
    | ((v & 0x0000000000FF0000) << 24) | ((v & 0x00000000FF000000) << 8)
    | ((v & 0x000000FF00000000) >> 8) | ((v & 0x0000FF0000000000) >> 24)
    | ((v & 0x00FF000000000000) >> 40) | ((v & 0xFF00000000000000) >> 56)
  }

  // ------------------------------------------------------- a number's bytes

  /** A number of one of the four widths; a signed one, a float or a double by its bits. */
  datatype Word = W8(b: bv8) | W16(h: bv16) | W32(w: bv32) | W64(q: bv64)

  function Width(w: Word): nat
  {
    match w
    case W8(_) => 1
    case W16(_) => 2
    case W32(_) => 4
    case W64(_) => 8
  }

  /** The bytes of a number, the least significant first. */
  function Digits(w: Word): (s: seq<Octet>)
    ensures |s| == Width(w)
  {
    match w
    case W8(b) => [b]
    case W16(h) => [(h & 0xFF) as Octet, (h >> 8) as Octet]
    case W32(w) => [(w & 0xFF) as Octet, ((w >> 8) & 0xFF) as Octet, ((w >> 16) & 0xFF) as Octet, (w >> 24) as Octet]
    case W64(q) =>
      [(q & 0xFF) as Octet, ((q >> 8) & 0xFF) as Octet, ((q >> 16) & 0xFF) as Octet, ((q >> 24) & 0xFF) as Octet,
       ((q >> 32) & 0xFF) as Octet, ((q >> 40) & 0xFF) as Octet, ((q >> 48) & 0xFF) as Octet, (q >> 56) as Octet]
  }

  function Swap(w: Word): (r: Word)
    ensures Width(r) == Width(w)
  {
    match w
    case W8(b) => W8(b)
    case W16(h) => W16(BSwap16(h))
    case W32(w) => W32(BSwap32(w))
    case W64(q) => W64(BSwap64(q))
  }

  function Reversed<T>(s: seq<T>): (r: seq<T>)
    ensures |r| == |s| && forall i :: 0 <= i < |s| ==> r[i] == s[|s| - 1 - i]
  {
    seq(|s|, i requires 0 <= i < |s| => s[|s| - 1 - i])
  }

  lemma ReversedTwice<T>(s: seq<T>)
    ensures Reversed(Reversed(s)) == s
  {
  }

  lemma Swap16Digits(h: bv16)
    ensures (BSwap16(h) & 0xFF) as Octet == (h >> 8) as Octet
    ensures (BSwap16(h) >> 8) as Octet == (h & 0xFF) as Octet
  {
  }

  lemma Swap32Digits(w: bv32)
    ensures (BSwap32(w) & 0xFF) as Octet == (w >> 24) as Octet
    ensures ((BSwap32(w) >> 8) & 0xFF) as Octet == ((w >> 16) & 0xFF) as Octet
    ensures ((BSwap32(w) >> 16) & 0xFF) as Octet == ((w >> 8) & 0xFF) as Octet
    ensures (BSwap32(w) >> 24) as Octet == (w & 0xFF) as Octet
  {
  }

  lemma Swap64Digits(q: bv64)
    ensures (BSwap64(q) & 0xFF) as Octet == (q >> 56) as Octet
    ensures ((BSwap64(q) >> 8) & 0xFF) as Octet == ((q >> 48) & 0xFF) as Octet
    ensures ((BSwap64(q) >> 16) & 0xFF) as Octet == ((q >> 40) & 0xFF) as Octet
    ensures ((BSwap64(q) >> 24) & 0xFF) as Octet == ((q >> 32) & 0xFF) as Octet
    ensures ((BSwap64(q) >> 32) & 0xFF) as Octet == ((q >> 24) & 0xFF) as Octet
    ensures ((BSwap64(q) >> 40) & 0xFF) as Octet == ((q >> 16) & 0xFF) as Octet
    ensures ((BSwap64(q) >> 48) & 0xFF) as Octet == ((q >> 8) & 0xFF) as Octet
    ensures (BSwap64(q) >> 56) as Octet == (q & 0xFF) as Octet
  {
  }

  lemma ReversedLists<T>(a: T, b: T, c: T, d: T, e: T, f: T, g: T, h: T)
    ensures Reversed([a]) == [a] && Reversed([a, b]) == [b, a] && Reversed([a, b, c, d]) == [d, c, b, a]
    ensures Reversed([a, b, c, d, e, f, g, h]) == [h, g, f, e, d, c, b, a]
  {
  }

  lemma Swap64Reverses(q: bv64)
    ensures Digits(Swap(W64(q))) == Reversed(Digits(W64(q)))
  {
    Swap64Digits(q);
    var d := Digits(W64(q));
    ReversedLists(d[0], d[1], d[2], d[3], d[4], d[5], d[6], d[7]);
    assert d == [d[0], d[1], d[2], d[3], d[4], d[5], d[6], d[7]];
  }

  lemma Swap32Reverses(w: bv32)
    ensures Digits(Swap(W32(w))) == Reversed(Digits(W32(w)))
  {
    Swap32Digits(w);
    var d := Digits(W32(w));
    ReversedLists(d[0], d[1], d[2], d[3], d[0], d[0], d[0], d[0]);
  }

  lemma Swap16Reverses(h: bv16)
    ensures Digits(Swap(W16(h))) == Reversed(Digits(W16(h)))
  {
    Swap16Digits(h);
    var d := Digits(W16(h));
    ReversedLists(d[0], d[1], d[0], d[0], d[0], d[0], d[0], d[0]);
  }

  /** Swapping a number reverses its bytes. */
  lemma SwapReversesBytes(w: Word)
    ensures Digits(Swap(w)) == Reversed(Digits(w))
  {
    match w
    case W8(b) => ReversedLists(b, b, b, b, b, b, b, b);
    case W16(h) => Swap16Reverses(h);
    case W32(w) => Swap32Reverses(w);
    case W64(q) => Swap64Reverses(q);
  }

  lemma Swap16Twice(h: bv16)
    ensures BSwap16(BSwap16(h)) == h
  {
  }

  lemma Swap32Twice(w: bv32)
    ensures BSwap32(BSwap32(w)) == w
  {
  }

  lemma Swap64Twice(q: bv64)
    ensures BSwap64(BSwap64(q)) == q
  {
  }

  /** Every swap is its own inverse. */
  lemma SwapTwice(w: Word)
    ensures Swap(Swap(w)) == w
  {
    match w
    case W8(_) =>
    case W16(h) => Swap16Twice(h);
    case W32(w) => Swap32Twice(w);
    case W64(q) => Swap64Twice(q);
  }
}
