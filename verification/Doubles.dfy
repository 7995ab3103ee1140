/**
  What the eight bytes of a double stand for (IEEE 754, binary64): one bit of sign,
  eleven of exponent and fifty-two of fraction.
 */
module Doubles {
  import opened Bytes

  const FRACTIONS: int := 0x10_0000_0000_0000  // 2^52

  function SignBit(bits: uint64): int { bits / 0x8000_0000_0000_0000 }

  function Exponent(bits: uint64): (e: int)
    ensures 0 <= e < 2048
  {
    bits / FRACTIONS % 2048
  }

  function Fraction(bits: uint64): (f: int)
    ensures 0 <= f < FRACTIONS
  {
    bits % FRACTIONS
  }

  predicate IsFinite(bits: uint64) { Exponent(bits) != 2047 }

  predicate IsNaN(bits: uint64) { Exponent(bits) == 2047 && Fraction(bits) != 0 }

  /** Two to the power of `k`. */
  function Scale(k: int): (r: real)
    ensures r > 0.0
    decreases if k < 0 then -k else k
  {
    if k == 0 then 1.0 else if k > 0 then 2.0 * Scale(k - 1) else Scale(k + 1) / 2.0
  }

  /** A normal number has a leading one, the smallest ones have none. */
  function Significand(bits: uint64): (f: int)
    ensures 0 <= f < 2 * FRACTIONS
  {
    if Exponent(bits) == 0 then Fraction(bits) else FRACTIONS + Fraction(bits)
  }

  function Power(bits: uint64): int
  {
    if Exponent(bits) == 0 then -1074 else Exponent(bits) - 1075
  }

  /** The number without its sign. */
  function Magnitude(bits: uint64): real
    requires IsFinite(bits)
  {
    (Significand(bits) as real) * Scale(Power(bits))
  }

  function RealOf(bits: uint64): real
    requires IsFinite(bits)
  {
    if SignBit(bits) == 1 then -Magnitude(bits) else Magnitude(bits)
  }

  /** As the processor compares: a NaN is not below zero, minus infinity is. */
  predicate BelowZero(bits: uint64)
  {
    if IsFinite(bits) then RealOf(bits) < 0.0
    else !IsNaN(bits) && SignBit(bits) == 1
  }

  lemma PositiveProduct(a: real, b: real)
    requires a >= 0.0 && b > 0.0
    ensures a * b >= 0.0 && (a * b > 0.0 <==> a > 0.0)
  {
  }

  lemma MagnitudeIsPositive(bits: uint64)
    requires IsFinite(bits)
    ensures Magnitude(bits) >= 0.0
    ensures Magnitude(bits) > 0.0 <==> Exponent(bits) != 0 || Fraction(bits) != 0
  {
    PositiveProduct(Significand(bits) as real, Scale(Power(bits)));
  }

  lemma Fields(bits: uint64)
    ensures 0 <= SignBit(bits) <= 1
    ensures bits == SignBit(bits) * 0x8000_0000_0000_0000 + Exponent(bits) * FRACTIONS + Fraction(bits)
  {
    var high := bits / FRACTIONS;
    assert bits == high * FRACTIONS + Fraction(bits);
    assert high == high / 2048 * 2048 + Exponent(bits);
    assert high / 2048 == SignBit(bits);
  }

  /** On the bits: above minus zero, up to minus infinity. */
  lemma BelowZeroIs(bits: uint64)
    ensures BelowZero(bits) <==> 0x8000_0000_0000_0000 < bits <= 0xFFF0_0000_0000_0000
  {
    Fields(bits);
    if IsFinite(bits) {
      MagnitudeIsPositive(bits);
    }
  }

  lemma {:induction false} ScaleAdds(j: int)
    requires j >= 0
    ensures Scale(j) * Scale(-j) == 1.0
    decreases j
  {
    if j > 0 {
      ScaleAdds(j - 1);
      var up, down := Scale(j - 1), Scale(1 - j);
      assert Scale(j) == 2.0 * up && Scale(-j) == down / 2.0;
      assert (2.0 * up) * (down / 2.0) == up * down;
    }
  }

  lemma {:induction false} ScaleSum(a: int, b: int)
    requires a >= 0 && b >= 0
    ensures Scale(a + b) == Scale(a) * Scale(b)
    decreases a
  {
    if a > 0 {
      ScaleSum(a - 1, b);
      Doubled(Scale(a - 1), Scale(b));
    }
  }

  lemma Times(a: int, x: real, b: int, y: real)
    requires a >= 0 && b >= 0 && Scale(a) == x && Scale(b) == y
    ensures Scale(a + b) == x * y
  {
    ScaleSum(a, b);
  }

  lemma ScaleOf52()
    ensures Scale(52) == FRACTIONS as real
  {
    assert Scale(10) == 1024.0;
    assert Scale(20) == 1048576.0;
    assert Scale(30) == 1073741824.0;
    assert Scale(40) == 1099511627776.0;
    assert Scale(50) == 1125899906842624.0;
  }

  /** A fraction of zero leaves a power of two. */
  lemma PowerOfTwo(bits: uint64, k: int)
    requires 0 < Exponent(bits) < 2047 && Fraction(bits) == 0 && k == Exponent(bits) - 1075
    ensures Magnitude(bits) == Scale(52) * Scale(k)
  {
    ScaleOf52();
  }

  lemma FieldsOf(sign: int, exponent: int, bits: uint64)
    requires 0 <= sign <= 1 && 0 <= exponent < 2048
    requires bits == sign * 0x8000_0000_0000_0000 + exponent * FRACTIONS
    ensures SignBit(bits) == sign && Exponent(bits) == exponent && Fraction(bits) == 0
  {
  }

  lemma One()
    ensures IsFinite(0x3FF0_0000_0000_0000) && RealOf(0x3FF0_0000_0000_0000) == 1.0
  {
    var bits: uint64 := 0x3FF0_0000_0000_0000;
    FieldsOf(0, 1023, bits);
    PowerOfTwo(bits, -52);
    ScaleAdds(52);
  }

  lemma MinusTwo()
    ensures IsFinite(0xC000_0000_0000_0000) && RealOf(0xC000_0000_0000_0000) == -2.0
  {
    var bits: uint64 := 0xC000_0000_0000_0000;
    FieldsOf(1, 1024, bits);
    PowerOfTwo(bits, -51);
    TwoIs();
    assert Magnitude(bits) == 2.0;
  }

  lemma TwoIs()
    ensures Scale(52) * Scale(-51) == 2.0
  {
    ScaleAdds(51);
    var a, b := Scale(51), Scale(-51);
    assert Scale(52) == 2.0 * a;
    Doubled(a, b);
  }

  lemma Doubled(a: real, b: real)
    ensures (2.0 * a) * b == 2.0 * (a * b)
  {
  }

  /** Both zeros are. */
  lemma Zeros(sign: int, bits: uint64)
    requires 0 <= sign <= 1 && bits == sign * 0x8000_0000_0000_0000
    ensures IsFinite(bits) && RealOf(bits) == 0.0
  {
    FieldsOf(sign, 0, bits);
  }

  // ------------------------------------------------------------ the largest double

  lemma Scale120()
    ensures Scale(120) == 1329227995784915872903807060280344576.0
  {
    assert Scale(15) == 32768.0;
    Times(15, 32768.0, 15, 32768.0);
    Times(30, 1073741824.0, 30, 1073741824.0);
    Times(60, 1152921504606846976.0, 60, 1152921504606846976.0);
  }

  lemma Scale480()
    ensures Scale(480) == 3121748550315992231381597229793166305748598142664971150859156959625371738819765620120306103063491971159826931121406622895447975679288285306290176.0
  {
    Scale120();
    Times(120, 1329227995784915872903807060280344576.0, 120, 1329227995784915872903807060280344576.0);
    Times(240, 1766847064778384329583297500742918515827483896875618958121606201292619776.0, 240, 1766847064778384329583297500742918515827483896875618958121606201292619776.0);
  }

  lemma Scale971()
    ensures Scale(971) == 19958403095347198116563727130368385660674512604354575415025472424372118918689640657849579654926357010893424468441924952439724379883935936607391717982848314203200056729510856765175377214443629871826533567445439239933308104551208703888888552684480441575071209068757560416423584952303440099278848.0
  {
    Scale480();
    assert Scale(11) == 2048.0;
    Times(480, 3121748550315992231381597229793166305748598142664971150859156959625371738819765620120306103063491971159826931121406622895447975679288285306290176.0, 480, 3121748550315992231381597229793166305748598142664971150859156959625371738819765620120306103063491971159826931121406622895447975679288285306290176.0);
    Times(11, 2048.0, 960, 9745314011399999080353382387875188310876226857595007526867906457212948690766426102465615065882010259225304916231408668183459169865203094046577987296312653419531277699956473029870789655490053648352799593479218378873685597925394874945746363615468965612827738803104277547081828589991914110976.0);
  }

  /** The largest exponent of a finite double, and all ones in the fraction. */
  lemma LargestDouble()
    ensures IsFinite(0x7FEF_FFFF_FFFF_FFFF)
    ensures RealOf(0x7FEF_FFFF_FFFF_FFFF) == 179769313486231570814527423731704356798070567525844996598917476803157260780028538760589558632766878171540458953514382464234321326889464182768467546703537516986049910576551282076245490090389328944075868508455133942304583236903222948165808559332123348274797826204144723168738177180919299881250404026184124858368.0
  {
    var bits: uint64 := 0x7FEF_FFFF_FFFF_FFFF;
    assert SignBit(bits) == 0 && Exponent(bits) == 2046;
    assert Fraction(bits) == 0xF_FFFF_FFFF_FFFF;
    Scale971();
  }
}
