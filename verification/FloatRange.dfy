/** The exponents of every operation stay within the code's 32-bit ones. */
module FloatRange {
  import opened Powers
  import opened FloatFormat
  import opened Packing
  import opened Sums
  import opened FloatOps
  import opened FloatSqrt

  /** No overflow of a signed 32-bit integer. */
  predicate Fits(e: int) { -0x8000_0000 <= e < 0x8000_0000 }

  /** Every exponent round_pack computes on the way from e to the exponent field. */
  predicate PackFitsAt(f: Fmt, m: u128, e: int) {
    var lsb := ResultLsb(f, m, e);
    Fits(e) && Fits(BitLen(m) - 1 + e) && Fits(BitLen(m) - 1 + e - f.Sig()) && Fits(lsb) && Fits(lsb - e) &&
    Fits(e - lsb) &&
    Fits(lsb + 1 + f.Sig()) && Fits(lsb + 1 + f.Sig() + f.Bias())
  }

  /** The same from any significand. */
  predicate PackFits(f: Fmt, e: int) { forall m: u128 :: m > 0 ==> PackFitsAt(f, m, e) }

  /** Every exponent add_raw computes. */
  predicate AddFitsAt(ma: u128, ea: int, mb: u128, eb: int) {
    var base := BaseOf(ma, ea, mb, eb);
    Fits(ea + BitLen(ma)) && Fits(eb + BitLen(mb)) && Fits(base) &&
    Fits(ea - base) && Fits(base - ea) && Fits(eb - base) && Fits(base - eb)
  }

  /** Every exponent of a sum and its rounding, from any significands. */
  predicate SumFitsIn(f: Fmt, ea: int, eb: int) {
    forall ma: u128, mb: u128 :: AddFitsAt(ma, ea, mb, eb) && PackFits(f, BaseOf(ma, ea, mb, eb))
  }

  /** The least and greatest exponent of a normalised operand, over both formats. */
  lemma UnpackExponent(f: Fmt, x: nat)
    ensures var c := Unpack(f, x).1; c.Num? ==> 2 - f.Bias() - 2 * f.Sig() - 1 <= c.e <= f.Bias() - f.Sig()
  {
    hide Pow2, BitLen, Shl, Pack, Fmt.Field, Fmt.Frac, Fmt.Mask, Fmt.Neg, Fmt.Bias, Fmt.MaxField, Fmt.Sig, Fmt.QuietBit;
    FmtFacts(f);
    PackOfFields(f, x);
    if f.Field(x) == 0 && f.Frac(x) != 0 {
      FractionLength(f, f.Frac(x));
      SubnormalFits(f, f.Frac(x));
    }
  }

  lemma FractionLength(f: Fmt, frac: nat)
    requires frac > 0
    ensures BitLen(frac) >= 1
  {
  }

  lemma LengthAtMost(m: u128)
    ensures 0 <= BitLen(m) <= 128
  {
    Pow2Literals();
    hide Pow2, BitLen;
    BitLenLe(m, 128);
  }

  lemma PackReach(f: Fmt, e: int)
    requires -4096 <= e <= 4096
    ensures PackFits(f, e)
  {
    hide Pow2, BitLen;
    FmtFacts(f);
    forall m: u128 | m > 0 ensures PackFitsAt(f, m, e) { LengthAtMost(m); }
  }

  lemma AddReach(ma: u128, ea: int, mb: u128, eb: int)
    requires -3072 <= ea <= 3072 && -3072 <= eb <= 3072
    ensures AddFitsAt(ma, ea, mb, eb) && -4096 <= BaseOf(ma, ea, mb, eb) <= 4096
  {
    hide Pow2, BitLen;
    LengthAtMost(ma);
    LengthAtMost(mb);
  }

  /** Products, quotients, roots, sums and fused sums of any finite operands, and conversions to the
      other format and to integers: no exponent on the way leaves 32 bits. */
  lemma ExponentsFit(f: Fmt, a: nat, b: nat, c: nat, to: Fmt)
    ensures var ca, cb, cc := Unpack(f, a).1, Unpack(f, b).1, Unpack(f, c).1;
            (ca.Num? ==> PackFits(to, ca.e) && PackFits(f, (ca.e - RootShift(ca.e)) / 2) &&
                         Fits(ca.e - RootShift(ca.e)) && Fits(BitLen(ca.m) + ca.e) && Fits(0 - ca.e)) &&
            (ca.Num? && cb.Num? ==>
               PackFits(f, ca.e + cb.e) && Fits(ca.e - cb.e) && PackFits(f, ca.e - cb.e - 64) &&
               SumFitsIn(f, ca.e, cb.e) && (cc.Num? ==> SumFitsIn(f, ca.e + cb.e, cc.e)))
  {
    hide Pow2, BitLen, Unpack, SumFitsIn, PackFits;
    FmtFacts(f);
    UnpackExponent(f, a);
    UnpackExponent(f, b);
    UnpackExponent(f, c);
    var ca, cb, cc := Unpack(f, a).1, Unpack(f, b).1, Unpack(f, c).1;
    if ca.Num? {
      SignificandFits(f, ca.m);
      LengthAtMost(ca.m);
      PackReach(to, ca.e);
      PackReach(f, (ca.e - RootShift(ca.e)) / 2);
      if cb.Num? {
        PackReach(f, ca.e + cb.e);
        PackReach(f, ca.e - cb.e - 64);
        SumReach(f, ca.e, cb.e);
        if cc.Num? { SumReach(f, ca.e + cb.e, cc.e); }
      }
    }
  }

  lemma SumReach(f: Fmt, ea: int, eb: int)
    requires -3072 <= ea <= 3072 && -3072 <= eb <= 3072
    ensures SumFitsIn(f, ea, eb)
  {
    hide Pow2, BitLen, AddFitsAt, PackFits, BaseOf;
    forall ma: u128, mb: u128 ensures AddFitsAt(ma, ea, mb, eb) && PackFits(f, BaseOf(ma, ea, mb, eb)) {
      AddReach(ma, ea, mb, eb);
      PackReach(f, BaseOf(ma, ea, mb, eb));
    }
  }
}
