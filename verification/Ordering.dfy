/**
  Ordering (mongo/bson/ordering.h): the directions of a key pattern such as
  { a : 1, b : -1 }, packed into one 32-bit word.
 */
module Orderings {
  import opened Bytes
  import opened Bson
  import opened BsonReader
  import opened BsonIterator
  import Doubles

  const MAX_KEYS: nat := 32

  // ------------------------------------------------- bits of unsigned words

  /** a & b. */
  function And(a: nat, b: nat): nat
  {
    if a == 0 || b == 0 then 0
    else 2 * And(a / 2, b / 2) + (if a % 2 == 1 && b % 2 == 1 then 1 else 0)
  }

  /** a | b. */
  function Or(a: nat, b: nat): nat
  {
    if a == 0 then b
    else if b == 0 then a
    else 2 * Or(a / 2, b / 2) + (if a % 2 == 1 || b % 2 == 1 then 1 else 0)
  }

  /** Bit `i` of a word, the lowest being bit 0. */
  predicate BitAt(a: nat, i: nat)
  {
    if i == 0 then a % 2 == 1 else BitAt(a / 2, i - 1)
  }

  lemma {:induction false} ZeroHasNoBits(i: nat)
    ensures !BitAt(0, i)
  {
    if i > 0 {
      ZeroHasNoBits(i - 1);
    }
  }

  lemma {:induction false} OrBits(a: nat, b: nat, i: nat)
    ensures BitAt(Or(a, b), i) <==> BitAt(a, i) || BitAt(b, i)
  {
    if a == 0 || b == 0 {
      ZeroHasNoBits(i);
    } else if i > 0 {
      OrBits(a / 2, b / 2, i - 1);
    }
  }

  lemma {:induction false} OrStaysBelow(a: nat, b: nat, k: nat)
    requires a < Pow2(k) && b < Pow2(k)
    ensures Or(a, b) < Pow2(k)
  {
    if a != 0 && b != 0 {
      OrStaysBelow(a / 2, b / 2, k - 1);
    }
  }

  /** 1 << n has bit `n` and no other. */
  lemma {:induction false} ShiftedOne(n: nat, i: nat)
    ensures BitAt(Pow2(n), i) <==> i == n
  {
    if n == 0 && i > 0 {
      ZeroHasNoBits(i - 1);
    } else if n > 0 && i > 0 {
      ShiftedOne(n - 1, i - 1);
    }
  }

  /** Masking with 1 << i looks at bit `i`. */
  lemma {:induction false} MaskedOne(i: nat, b: nat)
    ensures And(Pow2(i), b) != 0 <==> BitAt(b, i)
    ensures And(b, Pow2(i)) != 0 <==> BitAt(b, i)
  {
    if b == 0 {
      ZeroHasNoBits(i);
    } else if i > 0 {
      MaskedOne(i - 1, b / 2);
    }
  }

  // ---------------------------------------------------------------- the sign

  /** number() < 0, for the number the element stands for; what is none counts as 0. */
  predicate Negative(v: Value)
  {
    match v
    case Double(bits) => Doubles.BelowZero(bits)
    case Int(i) => i < 0
    case Long(l) => l < 0
    case _ => false
  }

  /** The same, read off the bytes of an element. */
  predicate NegativeNumber(e: RawElement)
  {
    if e.tag == NUMBER_DOUBLE then |e.value| == 8 && NegativeBits(e.value)
    else if e.tag == NUMBER_INT then |e.value| == 4 && ReadInt32(e.value) < 0
    else if e.tag == NUMBER_LONG then |e.value| == 8 && ReadInt64(e.value) < 0
    else false
  }

  /** The three types of number, by the number they stand for; a NaN and the other types count as 0. */
  lemma NegativeIs(i: int32, l: int64, bits: uint64)
    ensures Negative(Int(i)) <==> i < 0
    ensures Negative(Long(l)) <==> l < 0
    ensures Doubles.IsFinite(bits) ==> (Negative(Double(bits)) <==> Doubles.RealOf(bits) < 0.0)
    ensures Doubles.IsNaN(bits) ==> !Negative(Double(bits))
    ensures Negative(Double(0xFFF0_0000_0000_0000)) && !Negative(Double(0x7FF0_0000_0000_0000))
  {
    Doubles.FieldsOf(1, 2047, 0xFFF0_0000_0000_0000);
    Doubles.FieldsOf(0, 2047, 0x7FF0_0000_0000_0000);
  }

  /** A double below zero: the sign set, but neither minus zero nor a NaN. */
  predicate NegativeBits(s: ByteSeq)
    requires |s| == 8
  {
    RangeOf8();
    0x8000_0000_0000_0000 < FromLE(s) <= 0xFFF0_0000_0000_0000
  }

  lemma NumberReadsBack(e: Element)
    ensures NegativeNumber(Raw(e)) <==> Negative(e.value)
  {
    RangeOf8();
    match e.value
    case Double(bits) =>
      FromLEInvertsLE(8, bits);
      assert LE(8, bits)[..8] == LE(8, bits);
      Doubles.BelowZeroIs(bits);
    case Int(i) =>
      ReadInt32Back(i, []);
      assert Int32LE(i) + [] == Int32LE(i);
    case Long(l) =>
      ReadInt64Back(l, []);
      assert Int64LE(l) + [] == Int64LE(l);
    case _ =>
  }

  // -------------------------------------------------------------- the word

  /** Bit `i` is set exactly if there is a field `i` and it is negative. */
  ghost predicate Describes(bits: nat, d: Doc)
  {
    forall i: nat :: BitAt(bits, i) <==> i < |d| && Negative(d[i].value)
  }

  lemma StepDescribes(b: nat, d: Doc, n: nat)
    requires n < |d| && Describes(b, d[..n])
    ensures Describes(if Negative(d[n].value) then Or(b, Pow2(n)) else b, d[..n + 1])
  {
    forall i: nat ensures BitAt(Or(b, Pow2(n)), i) <==> BitAt(b, i) || i == n {
      OrBits(b, Pow2(n), i);
      ShiftedOne(n, i);
    }
    assert forall i :: 0 <= i < n ==> d[..n + 1][i] == d[..n][i];
  }

  lemma StepMade(b: nat, d: Doc, n: nat)
    requires n < |d| && Describes(b, d[..n])
    ensures Describes(if NegativeNumber(Raw(d[n])) then Or(b, Pow2(n)) else b, d[..n + 1])
  {
    NumberReadsBack(d[n]);
    StepDescribes(b, d, n);
  }

  lemma StaysInWord(b: uint32, n: nat)
    requires n < MAX_KEYS
    ensures Or(b, Pow2(n)) < 0x1_0000_0000
  {
    Pow2Of32();
    Pow2Below(n, MAX_KEYS);
    OrStaysBelow(b, Pow2(n), MAX_KEYS);
  }

  lemma Pow2Of32()
    ensures Pow2(32) == 0x1_0000_0000
  {
    assert Pow2(2) == 4 && Pow2(4) == 0x10 && Pow2(6) == 0x40 && Pow2(8) == 0x100;
    assert Pow2(10) == 0x400 && Pow2(12) == 0x1000 && Pow2(14) == 0x4000 && Pow2(16) == 0x1_0000;
    assert Pow2(18) == 0x4_0000 && Pow2(20) == 0x10_0000 && Pow2(22) == 0x40_0000 && Pow2(24) == 0x100_0000;
    assert Pow2(26) == 0x400_0000 && Pow2(28) == 0x1000_0000 && Pow2(30) == 0x4000_0000;
  }

  lemma {:induction false} Pow2Below(i: nat, j: nat)
    requires i < j
    ensures Pow2(i) < Pow2(j)
  {
    if i < j - 1 {
      Pow2Below(i, j - 1);
    }
  }

  /**
    make(): accepts exactly the objects of at most 32 fields. The bit of a field is set
    exactly if it is negative, and bits without a field stay zero.
   */
  method Make(mem: ByteSeq, ghost d: Doc) returns (r: Option<uint32>)
    requires |mem| >= 4
    ensures Holds(mem, d) ==> (r.Some? <==> |d| <= 32)
    ensures Holds(mem, d) && r.Some? ==> Describes(r.value, d)
  {
    var b: uint32 := 0;
    var k := new BSONObjIterator(mem, d);
    var n: nat := 0;
    forall i: nat ensures !BitAt(0, i) { ZeroHasNoBits(i); }
    assert d[..0] == [];
    while true
      invariant n <= MAX_KEYS && k.mem == mem
      invariant Holds(mem, d) ==> n <= |d| && k.At(d, n) && Describes(b, d[..n])
      decreases |mem| - k.pos
    {
      var e := k.Next(d, n);
      if e.Eoo? {
        break;
      }
      if e.Failed? || n > 31 {
        return None;
      }
      StaysInWord(b, n);
      if Holds(mem, d) {
        StepMade(b, d, n);
      }
      if NegativeNumber(e.raw) {
        b := Or(b, Pow2(n));
      }
      n := n + 1;
    }
    assert Holds(mem, d) ==> d[..n] == d;
    r := Some(b);
  }

  /** get(i). */
  function Get(bits: uint32, i: nat): int
    requires i < MAX_KEYS
  {
    if And(Pow2(i), bits) != 0 then -1 else 1
  }

  /** descending(mask). */
  function Descending(bits: uint32, mask: uint32): nat
  {
    And(bits, mask)
  }

  /** get(i) is -1 exactly for the descending keys, and descending() agrees with it. */
  lemma GetIsDirection(bits: uint32, d: Doc, i: nat)
    requires Describes(bits, d) && i < MAX_KEYS
    ensures Get(bits, i) == if i < |d| && Negative(d[i].value) then -1 else 1
    ensures Pow2(i) < 0x1_0000_0000 && (Descending(bits, Pow2(i)) != 0 <==> Get(bits, i) == -1)
  {
    MaskedOne(i, bits);
    Pow2Of32();
    Pow2Below(i, MAX_KEYS);
  }
}
