/**
  DataView (mongo/base/data_view.h): numbers written and read in either byte order at
  any offset of a buffer, on a host of either byte order.
 */
module DataViews {
  import opened Bytes
  import opened Endian

  datatype Host = LittleEndian | BigEndian

  predicate IsWidth(n: nat) { n == 1 || n == 2 || n == 4 || n == 8 }

  function Join2(a: Octet, b: Octet): bv16 { (b as bv16 << 8) | a as bv16 }

  function Join4(a: Octet, b: Octet, c: Octet, d: Octet): bv32
  {
    (d as bv32 << 24) | (c as bv32 << 16) | (b as bv32 << 8) | a as bv32
  }

  function Join8(a: Octet, b: Octet, c: Octet, d: Octet, e: Octet, f: Octet, g: Octet, h: Octet): bv64
  {
    (h as bv64 << 56) | (g as bv64 << 48) | (f as bv64 << 40) | (e as bv64 << 32)
    | (d as bv64 << 24) | (c as bv64 << 16) | (b as bv64 << 8) | a as bv64
  }

  /** The number whose bytes, the least significant first, are `s`. */
  function FromDigits(s: seq<Octet>): (w: Word)
    requires IsWidth(|s|)
    ensures Width(w) == |s|
  {
    if |s| == 1 then W8(s[0])
    else if |s| == 2 then W16(Join2(s[0], s[1]))
    else if |s| == 4 then W32(Join4(s[0], s[1], s[2], s[3]))
    else W64(Join8(s[0], s[1], s[2], s[3], s[4], s[5], s[6], s[7]))
  }

  lemma Join2Back(h: bv16)
    ensures Join2((h & 0xFF) as Octet, (h >> 8) as Octet) == h
  {
  }

  lemma Join4Back(w: bv32)
    ensures Join4((w & 0xFF) as Octet, ((w >> 8) & 0xFF) as Octet, ((w >> 16) & 0xFF) as Octet, (w >> 24) as Octet) == w
  {
  }

  lemma Join8Back(q: bv64)
    ensures Join8((q & 0xFF) as Octet, ((q >> 8) & 0xFF) as Octet, ((q >> 16) & 0xFF) as Octet,
                  ((q >> 24) & 0xFF) as Octet, ((q >> 32) & 0xFF) as Octet, ((q >> 40) & 0xFF) as Octet,
                  ((q >> 48) & 0xFF) as Octet, (q >> 56) as Octet) == q
  {
  }

  lemma FromDigitsBack(w: Word)
    ensures IsWidth(Width(w)) && FromDigits(Digits(w)) == w
  {
    match w
    case W8(_) =>
    case W16(h) => Join2Back(h);
    case W32(w) => Join4Back(w);
    case W64(q) => Join8Back(q);
  }

  // ------------------------------------------------------ ByteOrderConverter

  function NativeToLittle(host: Host, w: Word): Word { if host == LittleEndian then w else Swap(w) }

  function NativeToBig(host: Host, w: Word): Word { if host == BigEndian then w else Swap(w) }

  function LittleToNative(host: Host, w: Word): Word { if host == LittleEndian then w else Swap(w) }

  function BigToNative(host: Host, w: Word): Word { if host == BigEndian then w else Swap(w) }

  /** The bytes a host keeps a number in, as memcpy sees them. */
  function InMemory(host: Host, w: Word): (s: seq<Octet>)
    ensures |s| == Width(w)
  {
    if host == LittleEndian then Digits(w) else Reversed(Digits(w))
  }

  function FromMemory(host: Host, s: seq<Octet>): (w: Word)
    requires IsWidth(|s|)
    ensures Width(w) == |s|
  {
    FromDigits(if host == LittleEndian then s else Reversed(s))
  }

  /** The number 0x0102 in the memory of either host, and read from it. */
  lemma HostOrders()
    ensures InMemory(LittleEndian, W16(0x0102)) == [2, 1] && InMemory(BigEndian, W16(0x0102)) == [1, 2]
    ensures FromMemory(LittleEndian, [2, 1]) == W16(0x0102) && FromMemory(BigEndian, [1, 2]) == W16(0x0102)
  {
    assert Digits(W16(0x0102)) == [2, 1];
    assert Reversed([2, 1]) == [1, 2] && Reversed([1, 2]) == [2, 1];
    FromDigitsBack(W16(0x0102));
  }

  /** What is put in the buffer does not depend on the host. */
  lemma StoredInOrder(host: Host, w: Word)
    ensures InMemory(host, NativeToLittle(host, w)) == Digits(w)
    ensures InMemory(host, NativeToBig(host, w)) == Reversed(Digits(w))
  {
    SwapReversesBytes(w);
    ReversedTwice(Digits(w));
  }

  lemma FromDigitsSwapped(s: seq<Octet>)
    requires IsWidth(|s|)
    ensures Swap(FromDigits(s)) == FromDigits(Reversed(s))
  {
    DigitsBack(s);
    SwapReversesBytes(FromDigits(s));
    FromDigitsBack(Swap(FromDigits(s)));
  }

  lemma Split2Back(a: Octet, b: Octet)
    ensures (Join2(a, b) & 0xFF) as Octet == a && (Join2(a, b) >> 8) as Octet == b
  {
  }

  lemma Split4Back(a: Octet, b: Octet, c: Octet, d: Octet)
    ensures var w := Join4(a, b, c, d);
            && (w & 0xFF) as Octet == a && ((w >> 8) & 0xFF) as Octet == b
            && ((w >> 16) & 0xFF) as Octet == c && (w >> 24) as Octet == d
  {
  }

  lemma Split8Back(a: Octet, b: Octet, c: Octet, d: Octet, e: Octet, f: Octet, g: Octet, h: Octet)
    ensures var q := Join8(a, b, c, d, e, f, g, h);
            && (q & 0xFF) as Octet == a && ((q >> 8) & 0xFF) as Octet == b
            && ((q >> 16) & 0xFF) as Octet == c && ((q >> 24) & 0xFF) as Octet == d
            && ((q >> 32) & 0xFF) as Octet == e && ((q >> 40) & 0xFF) as Octet == f
            && ((q >> 48) & 0xFF) as Octet == g && (q >> 56) as Octet == h
  {
  }

  lemma Digits8Back(a: Octet, b: Octet, c: Octet, d: Octet, e: Octet, f: Octet, g: Octet, h: Octet)
    ensures Digits(W64(Join8(a, b, c, d, e, f, g, h))) == [a, b, c, d, e, f, g, h]
  {
    Split8Back(a, b, c, d, e, f, g, h);
  }

  lemma Digits4Back(a: Octet, b: Octet, c: Octet, d: Octet)
    ensures Digits(W32(Join4(a, b, c, d))) == [a, b, c, d]
  {
    Split4Back(a, b, c, d);
  }

  lemma DigitsBack(s: seq<Octet>)
    requires IsWidth(|s|)
    ensures Digits(FromDigits(s)) == s
  {
    if |s| == 2 {
      Split2Back(s[0], s[1]);
    } else if |s| == 4 {
      Digits4Back(s[0], s[1], s[2], s[3]);
    } else if |s| == 8 {
      Digits8Back(s[0], s[1], s[2], s[3], s[4], s[5], s[6], s[7]);
    }
  }

  /** What is read from the buffer does not depend on the host either. */
  lemma ReadInOrder(host: Host, s: seq<Octet>)
    requires IsWidth(|s|)
    ensures LittleToNative(host, FromMemory(host, s)) == FromDigits(s)
    ensures BigToNative(host, FromMemory(host, s)) == FromDigits(Reversed(s))
  {
    FromDigitsSwapped(s);
    FromDigitsSwapped(Reversed(s));
    ReversedTwice(s);
  }

  // ------------------------------------------------------------------- views

  function WrittenLE(s: seq<Octet>, value: Word, offset: nat): (r: seq<Octet>)
    requires offset + Width(value) <= |s|
    ensures |r| == |s|
  {
    Patch(s, offset, Digits(value))
  }

  function WrittenBE(s: seq<Octet>, value: Word, offset: nat): (r: seq<Octet>)
    requires offset + Width(value) <= |s|
    ensures |r| == |s|
  {
    Patch(s, offset, Reversed(Digits(value)))
  }

  function LEAt(s: seq<Octet>, width: nat, offset: nat): Word
    requires IsWidth(width) && offset + width <= |s|
  {
    FromDigits(s[offset..offset + width])
  }

  function BEAt(s: seq<Octet>, width: nat, offset: nat): Word
    requires IsWidth(width) && offset + width <= |s|
  {
    FromDigits(Reversed(s[offset..offset + width]))
  }

  class DataView {
    const host: Host
    const bytes: array<Octet>

    constructor (host: Host, bytes: array<Octet>)
      ensures this.host == host && this.bytes == bytes
    {
      this.host, this.bytes := host, bytes;
    }

    method WriteNative(value: Word, offset: nat)
      requires offset + Width(value) <= bytes.Length
      modifies bytes
      ensures bytes[..] == Patch(old(bytes[..]), offset, InMemory(host, value))
    {
      var memory := InMemory(host, value);
      forall i | 0 <= i < |memory| {
        bytes[offset + i] := memory[i];
      }
    }

    method ReadNative(width: nat, offset: nat) returns (t: Word)
      requires IsWidth(width) && offset + width <= bytes.Length
      ensures t == FromMemory(host, bytes[offset..offset + width])
    {
      t := FromMemory(host, bytes[offset..offset + width]);
    }

    method WriteLE(value: Word, offset: nat)
      requires offset + Width(value) <= bytes.Length
      modifies bytes
      ensures bytes[..] == WrittenLE(old(bytes[..]), value, offset)
    {
      StoredInOrder(host, value);
      WriteNative(NativeToLittle(host, value), offset);
    }

    method WriteBE(value: Word, offset: nat)
      requires offset + Width(value) <= bytes.Length
      modifies bytes
      ensures bytes[..] == WrittenBE(old(bytes[..]), value, offset)
    {
      StoredInOrder(host, value);
      WriteNative(NativeToBig(host, value), offset);
    }

    method ReadLE(width: nat, offset: nat) returns (t: Word)
      requires IsWidth(width) && offset + width <= bytes.Length
      ensures t == LEAt(bytes[..], width, offset)
    {
      ReadInOrder(host, bytes[offset..offset + width]);
      var native := ReadNative(width, offset);
      t := LittleToNative(host, native);
      assert bytes[..][offset..offset + width] == bytes[offset..offset + width];
    }

    method ReadBE(width: nat, offset: nat) returns (t: Word)
      requires IsWidth(width) && offset + width <= bytes.Length
      ensures t == BEAt(bytes[..], width, offset)
    {
      ReadInOrder(host, bytes[offset..offset + width]);
      var native := ReadNative(width, offset);
      t := BigToNative(host, native);
      assert bytes[..][offset..offset + width] == bytes[offset..offset + width];
    }
  }

  /** A number written little-endian reads back little-endian, and swapped as big-endian. */
  lemma WrittenLEReadsBack(s: seq<Octet>, value: Word, offset: nat)
    requires offset + Width(value) <= |s|
    ensures IsWidth(Width(value))
    ensures LEAt(WrittenLE(s, value, offset), Width(value), offset) == value
    ensures BEAt(WrittenLE(s, value, offset), Width(value), offset) == Swap(value)
  {
    FromDigitsBack(value);
    FromDigitsSwapped(Digits(value));
    assert WrittenLE(s, value, offset)[offset..offset + Width(value)] == Digits(value);
  }

  lemma WrittenBEReadsBack(s: seq<Octet>, value: Word, offset: nat)
    requires offset + Width(value) <= |s|
    ensures IsWidth(Width(value))
    ensures BEAt(WrittenBE(s, value, offset), Width(value), offset) == value
    ensures LEAt(WrittenBE(s, value, offset), Width(value), offset) == Swap(value)
  {
    FromDigitsBack(value);
    FromDigitsSwapped(Digits(value));
    ReversedTwice(Digits(value));
    assert WrittenBE(s, value, offset)[offset..offset + Width(value)] == Reversed(Digits(value));
  }

  lemma PatchedElsewhere(s: seq<Octet>, offset: nat, with: seq<Octet>, from: nat, to: nat)
    requires offset + |with| <= |s| && from <= to <= |s|
    requires to <= offset || offset + |with| <= from
    ensures Patch(s, offset, with)[from..to] == s[from..to]
  {
    var r := Patch(s, offset, with);
    forall i | from <= i < to ensures r[i] == s[i] {
      if i >= offset + |with| {
        assert r[i] == s[offset + |with|..][i - (offset + |with|)];
      }
    }
  }

  /** A number at another place is not touched by a write. */
  lemma OthersUnchanged(s: seq<Octet>, offset: nat, with: seq<Octet>, width: nat, at: nat)
    requires offset + |with| <= |s| && IsWidth(width) && at + width <= |s|
    requires at + width <= offset || offset + |with| <= at
    ensures LEAt(Patch(s, offset, with), width, at) == LEAt(s, width, at)
    ensures BEAt(Patch(s, offset, with), width, at) == BEAt(s, width, at)
  {
    PatchedElsewhere(s, offset, with, at, at + width);
  }

  // ------------------------------------- the bytes as numbers from 0 to 255

  function Ints(s: seq<Octet>): (r: ByteSeq)
    ensures |r| == |s|
  {
    seq(|s|, i requires 0 <= i < |s| => s[i] as int)
  }

  /** The octet with the value `x`, found by counting. */
  function OctetOf(x: Byte): (r: Octet)
    ensures r as int == x
  {
    if x == 0 then 0
    else
      CountUp(OctetOf(x - 1));
      OctetOf(x - 1) + 1
  }

  lemma CountUp(b: Octet)
    requires b as int < 255
    ensures (b + 1) as int == b as int + 1
  {
  }

  lemma SameValueSameOctet(a: Octet, b: Octet)
    requires a as int == b as int
    ensures a == b
  {
  }

  function Octets(s: ByteSeq): (r: seq<Octet>)
    ensures |r| == |s|
  {
    seq(|s|, i requires 0 <= i < |s| => OctetOf(s[i]))
  }

  /** The unsigned number a word stands for. */
  function Value(w: Word): nat
  {
    FromLE(Ints(Digits(w)))
  }

  /** The word that stands for `v`. */
  function WordOf(width: nat, v: nat): Word
    requires IsWidth(width)
  {
    FromDigits(Octets(LE(width, v)))
  }

  /** The layout of module Bytes is what writeLE stores: LE of a number is the bytes of its word. */
  lemma StoredAsLE(width: nat, v: nat)
    requires IsWidth(width) && v < Range(width)
    ensures Width(WordOf(width, v)) == width && Value(WordOf(width, v)) == v
    ensures Ints(Digits(WordOf(width, v))) == LE(width, v)
  {
    var bytes := LE(width, v);
    DigitsBack(Octets(bytes));
    assert Ints(Octets(bytes)) == bytes;
    FromLEInvertsLE(width, v);
  }

  /** And every word is the word of its value. */
  lemma WordOfItsValue(w: Word)
    ensures IsWidth(Width(w)) && LE(Width(w), Value(w)) == Ints(Digits(w)) && WordOf(Width(w), Value(w)) == w
  {
    LEInvertsFromLE(Ints(Digits(w)));
    var d := Digits(w);
    forall i | 0 <= i < |d| ensures Octets(Ints(d))[i] == d[i] {
      SameValueSameOctet(Octets(Ints(d))[i], d[i]);
    }
    assert Octets(Ints(d)) == d;
    FromDigitsBack(w);
  }

  lemma SpellTwo(s: ByteSeq)
    requires |s| == 2
    ensures FromLE(s) == 256 * (s[1] as int) + (s[0] as int)
  {
    assert s[1..][1..] == [];
    assert FromLE(s[1..]) == s[1] + 256 * FromLE([]);
  }

  /** For the words of 16 bits the value is the one the bit-vector has. */
  lemma ValueOf16(h: bv16)
    ensures Value(W16(h)) == h as int
  {
    SpellTwo(Ints(Digits(W16(h))));
    HalvesOf16(h);
  }

  lemma HalvesOf16(h: bv16)
    ensures h as int == 256 * ((h >> 8) as Octet as int) + (h & 0xFF) as Octet as int
  {
  }
}
