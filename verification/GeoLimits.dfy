/** The range of the coordinates (mongo/geo/geometry.h). */
module GeoLimits {
  import opened Bytes
  import opened Doubles
  import opened GeoBoxes

  /** numeric_limits<double>::max(): the greatest exponent of a number, and all ones in the fraction. */
  lemma MaxDoubleIsLargest()
    ensures IsFinite(0x7FEF_FFFF_FFFF_FFFF) && RealOf(0x7FEF_FFFF_FFFF_FFFF) == MAX_DOUBLE
    ensures !IsFinite(0x7FEF_FFFF_FFFF_FFFF + 1)
  {
    LargestDouble();
    FieldsOf(0, 2047, 0x7FF0_0000_0000_0000);
  }
}
