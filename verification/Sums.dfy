/** Unpacking, and the addition of exact values with a sticky bit. */
module Sums {
  import opened Arithmetic
  import opened Powers
  import opened FloatFormat
  import opened Rounding
  import opened Packing

  /** What a pattern denotes; a finite non-zero is normalised to sig + 1 significant bits. */
  datatype Cls = Zero | Inf | Nan(signalling: bool) | Num(m: nat, e: int)

  function Unpack(f: Fmt, x: nat): (r: (bool, Cls))
    ensures r.0 == f.Neg(x)
    ensures r.1.Num? ==> Pow2(f.Sig()) <= r.1.m < Pow2(f.Sig() + 1)
  {
    var field, frac := f.Field(x), f.Frac(x);
    PackOfFields(f, x);
    (f.Neg(x),
     if field == f.MaxField() then
       if frac == 0 then Inf else Nan(frac < f.QuietBit())
     else if field == 0 then
       if frac == 0 then Zero
       else
         SubnormalFits(f, frac);
         var shift := f.Sig() + 1 - BitLen(frac);
         Num(Shl(frac, shift), f.MinE() - shift)
     else Num(Pow2(f.Sig()) + frac, field - f.Bias() - f.Sig()))
  }

  /** Normalising a subnormal occupies the hidden bit and loses nothing. */
  lemma SubnormalFits(f: Fmt, frac: nat)
    requires 0 < frac < Pow2(f.Sig())
    ensures 0 < f.Sig() + 1 - BitLen(frac) < 128
    ensures var m := frac * Pow2(f.Sig() + 1 - BitLen(frac));
            Pow2(f.Sig()) <= m < Pow2(f.Sig() + 1) <= Pow2(128)
  {
    FmtFacts(f);
    hide Pow2;
    var l := BitLen(frac);
    hide BitLen;
    BitLenLe(frac, f.Sig());
    Pow2Mono(f.Sig() + 1, 128);
    ShlRange(frac, f.Sig() + 1 - l, f.Sig());
    ShiftBound(frac, l, f.Sig() + 1 - l, f.Sig() + 1);
  }

  /** Unpacking preserves the value denoted. */
  lemma UnpackValue(f: Fmt, x: nat)
    ensures var c := Unpack(f, x).1;
            (c.Nan? <==> f.IsNan(x)) && (c.Nan? && c.signalling <==> f.IsSnan(x)) &&
            (c.Inf? <==> f.IsInf(x)) && (c.Zero? || c.Num? <==> f.IsFinite(x)) &&
            (c.Zero? ==> f.Magnitude(x) == 0.0) &&
            (c.Num? ==> f.Magnitude(x) == Dyadic(c.m, c.e) > 0.0)
  {
    PackOfFields(f, x);
    FmtFacts(f);
    hide Pow2, Dyadic;
    var c := Unpack(f, x).1;
    if c.Zero? {
      DyadicSign(0, f.MinE());
    } else if c.Num? {
      if f.Field(x) == 0 {
        SubnormalFits(f, f.Frac(x));
        Rescale(f.Frac(x), f.MinE(), c.e);
      }
      DyadicSign(c.m, c.e);
    }
  }

  // ---------------------------------------------------------------------------------------
  // Addition

  function OrSticky(v: nat, sticky: bool): nat { if sticky && v % 2 == 0 then v + 1 else v }

  /** Moving m to a lower exponent loses nothing at the top. */
  predicate Scales(m: u128, e: int, base: int) { e >= base ==> e - base < 128 && m * Pow2(e - base) < Pow2(128) }

  /** m * 2^e at the exponent base, with a sticky low bit for anything shifted out. */
  function Scale(m: u128, e: int, base: int): nat
    requires Scales(m, e, base)
  {
    if e >= base then Shl(m, e - base)
    else if base - e >= 128 then (if m != 0 then 1 else 0)
    else OrSticky(Shr(m, base - e), Low(m, base - e) != 0)
  }

  lemma ScaleRoundOdd(m: u128, e: int, base: int)
    requires m > 0
    requires Scales(m, e, base)
    ensures RoundOdd(Scale(m, e, base), base, Real(Dyadic(m, e)))
    ensures e >= base ==> Exactly(Scale(m, e, base), base, Real(Dyadic(m, e)))
  {
    hide Pow2, Dyadic, Shr, Low, RoundOdd;
    if e >= base {
      Rescale(m, e, base);
      ExactIsOdd(m * Pow2(e - base), base, m, e);
    } else if base - e >= 128 {
      FarBelow(m, e, base);
    } else {
      Between(m, e, base - e, Shr(m, base - e), Low(m, base - e));
    }
  }

  lemma ExactIsOdd(n: nat, base: int, m: nat, e: int)
    requires Dyadic(n, base) == Dyadic(m, e)
    ensures Exactly(n, base, Real(Dyadic(m, e))) && RoundOdd(n, base, Real(Dyadic(m, e)))
  {
    hide Dyadic;
  }

  /** A positive value 128 and more places down counts as a sticky bit alone. */
  lemma FarBelow(m: u128, e: int, base: int)
    requires m > 0 && base - e >= 128
    ensures RoundOdd(1, base, Real(Dyadic(m, e)))
  {
    hide Pow2, Dyadic;
    Pow2Of128();
    Pow2Mono(128, base - e);
    DyadicSign(m, e);
    DyadicSign(0, base);
    Rescale(2, base, e);
    DyadicOrder(m, 2 * Pow2(base - e), e);
  }

  lemma CompareAt(n: int, e: int, d: nat, m: int)
    ensures n * Pow2(d) < m <==> Dyadic(n, e + d) < Dyadic(m, e)
    ensures n * Pow2(d) == m <==> Dyadic(n, e + d) == Dyadic(m, e)
  {
    Rescale(n, e + d, e);
    hide Pow2, Dyadic;
    DyadicOrder(n * Pow2(d), m, e);
  }

  lemma Between(m: nat, e: int, d: nat, q: nat, low: nat)
    requires m == q * Pow2(d) + low && low < Pow2(d)
    ensures RoundOdd(OrSticky(q, low != 0), e + d, Real(Dyadic(m, e)))
  {
    hide Pow2, Dyadic;
    CompareAt(q, e, d, m);
    if low != 0 {
      CompareAt(q - 1, e, d, m);
      CompareAt(q + 1, e, d, m);
      CompareAt(q + 2, e, d, m);
      assert (q - 1) * Pow2(d) < m;
      assert (q + 1) * Pow2(d) > m;
      assert (q + 2) * Pow2(d) > m;
    }
  }

  /** The exponent that puts the higher of the two leading bits at place 126. */
  function BaseOf(ma: u128, ea: int, mb: u128, eb: int): int {
    Max(ea + BitLen(ma), eb + BitLen(mb)) - 126
  }

  /** Bringing an operand to the base never shifts a bit out at the top. */
  lemma ScaleFits(m: u128, e: int, base: int)
    requires e + BitLen(m) <= base + 126 && m > 0
    ensures e >= base ==> e - base < 126 && m * Pow2(e - base) < Pow2(126) <= Pow2(128)
  {
    hide Pow2;
    var l := BitLen(m);
    hide BitLen;
    Pow2Mono(126, 128);
    if e >= base { ShiftBound(m, l, e - base, 126); }
  }

  /** The operand with the leading bit at the top is not truncated: it is exact, even and has
      126 bits. */
  lemma TopOperand(m: u128, e: int, base: int)
    requires 0 < m < Pow2(106) && e + BitLen(m) == base + 126
    requires Scales(m, e, base)
    ensures e >= base && Pow2(125) <= Scale(m, e, base) && Scale(m, e, base) % 2 == 0
  {
    hide Pow2, BitLen;
    BitLenLe(m, 106);
    EvenShift(m, e - base);
    ShlRange(m, e - base, 125);
  }

  lemma EvenShift(m: nat, k: nat)
    requires k > 0
    ensures (m * Pow2(k)) % 2 == 0
  {
    assert m * Pow2(k) == 2 * (m * Pow2(k - 1));
  }

  /** A truncated operand keeps fewer than 107 bits, and an untruncated one at most 126. */
  lemma ScaledSize(m: u128, e: int, base: int)
    requires 0 < m < Pow2(106) && e + BitLen(m) <= base + 126
    requires Scales(m, e, base)
    ensures Scale(m, e, base) < Pow2(126)
    ensures e < base ==> Scale(m, e, base) <= Pow2(106)
  {
    hide Pow2, BitLen;
    ScaleFits(m, e, base);
    Pow2Strict(106, 126);
    Pow2Mono(0, 106);
    Pow2Mono(0, 0);
    if e < base && base - e < 128 { ShrBelow(m, base - e); }
    hide Shr, Low;
  }

  lemma ShrBelow(m: nat, d: nat)
    ensures Shr(m, d) <= m
  {
    var q := Shr(m, d);
    MulLe(1, Pow2(d), q);
  }

  /** A sum of sign and magnitude. */
  function AddMagnitudes(sa: bool, a: nat, sb: bool, b: nat): (bool, u128)
    requires a + b < 0x1_0000_0000_0000_0000_0000_0000_0000_0000
  {
    if sa == sb then (sa, a + b) else if a >= b then (sa, a - b) else (sb, b - a)
  }

  /** Adds two signed values m * 2^e to 126 bits below the larger one's leading bit. */
  function AddRaw(sa: bool, ma: u128, ea: int, sb: bool, mb: u128, eb: int): (bool, u128, int)
    requires 0 < ma < Pow2(106) && 0 < mb < Pow2(106)
  {
    var base := BaseOf(ma, ea, mb, eb);
    SumFits(ma, ea, mb, eb);
    var a := Scale(ma, ea, base);
    var b := Scale(mb, eb, base);
    var (sign, m) := AddMagnitudes(sa, a, sb, b);
    (sign, m, base)
  }

  lemma SumFits(ma: u128, ea: int, mb: u128, eb: int)
    requires 0 < ma < Pow2(106) && 0 < mb < Pow2(106)
    ensures var base := BaseOf(ma, ea, mb, eb);
            Scales(ma, ea, base) && Scales(mb, eb, base) &&
            Scale(ma, ea, base) + Scale(mb, eb, base) < Pow2(127) < Pow2(128) &&
            Pow2(128) == 0x1_0000_0000_0000_0000_0000_0000_0000_0000
  {
    Pow2Literals();
    hide Pow2, Scale, BitLen;
    var base := BaseOf(ma, ea, mb, eb);
    ScaleFits(ma, ea, base);
    ScaleFits(mb, eb, base);
    ScaledSize(ma, ea, base);
    ScaledSize(mb, eb, base);
    Pow2Strict(126, 127);
    Pow2Strict(127, 128);
  }

  function Signed(neg: bool, x: real): real { if neg then -x else x }

  /** A sum of sticky significands, at most one of them inexact and the other then even, is
      the sticky significand of the sum; so is a difference that cannot cancel. */
  lemma CombineInexact(a: nat, xa: real, b: nat, xb: real, e: int)
    requires Exactly(a, e, Real(xa)) && RoundOdd(b, e, Real(xb)) && (a % 2 == 0 || Exactly(b, e, Real(xb)))
    ensures RoundOdd(a + b, e, Real(xa + xb))
    ensures a > b || (a == b && Exactly(b, e, Real(xb))) ==> RoundOdd(a - b, e, Real(xa - xb))
    ensures b > a ==> RoundOdd(b - a, e, Real(xb - xa))
    ensures Exactly(b, e, Real(xb)) ==>
              Exactly(a + b, e, Real(xa + xb)) && (a >= b ==> Exactly(a - b, e, Real(xa - xb))) &&
              (b >= a ==> Exactly(b - a, e, Real(xb - xa)))
  {
    DyadicAdd(a, b, e);
    DyadicAdd(a, b + 1, e);
    DyadicAdd(a, b - 1, e);
    DyadicAdd(b, a, e);
    DyadicAdd(b + 1, a, e);
    DyadicAdd(b - 1, a, e);
    hide Dyadic;
    assert (a - (b + 1)) == a - b - 1 && (b + 1) - a == b - a + 1;
  }

  /** A sticky significand has the sign of what it stands for, and is zero only for zero. */
  lemma RoundOddSign(m: nat, e: int, x: real)
    requires RoundOdd(m, e, Real(x))
    ensures x >= 0.0 && (m == 0 <==> x == 0.0)
  {
    DyadicSign(m, e);
    DyadicSign(m - 1, e);
  }

  lemma SignedSum(sa: bool, xa: real, sb: bool, xb: real)
    requires xa > 0.0 && xb > 0.0
    ensures var x := Signed(sa, xa) + Signed(sb, xb);
            (sa == sb ==> Abs(x) == xa + xb && (x < 0.0 <==> sa)) &&
            (sa != sb && xa >= xb ==> Abs(x) == xa - xb && (x < 0.0 ==> sa) && (x > 0.0 ==> !sa)) &&
            (sa != sb && xb >= xa ==> Abs(x) == xb - xa && (x < 0.0 ==> sb) && (x > 0.0 ==> !sb))
  {
  }

  /** One operand is inexact at most, and then the other is even and larger. */
  ghost predicate Safe(a: nat, xa: real, b: nat, xb: real, e: int) {
    RoundOdd(a, e, Real(xa)) && RoundOdd(b, e, Real(xb)) &&
    ((Exactly(a, e, Real(xa)) && Exactly(b, e, Real(xb))) ||
     (Exactly(a, e, Real(xa)) && a % 2 == 0 && a > b) || (Exactly(b, e, Real(xb)) && b % 2 == 0 && b > a))
  }

  lemma Combine(sa: bool, a: nat, xa: real, sb: bool, b: nat, xb: real, e: int)
    requires Safe(a, xa, b, xb, e) && xa > 0.0 && xb > 0.0
    ensures var x := Signed(sa, xa) + Signed(sb, xb);
            var m: nat := if sa == sb then a + b else if a >= b then a - b else b - a;
            RoundOdd(m, e, Real(Abs(x))) && (m == 0 <==> x == 0.0) &&
            (x != 0.0 ==> (x < 0.0) == if sa == sb || a >= b then sa else sb) &&
            (Exactly(a, e, Real(xa)) && Exactly(b, e, Real(xb)) ==> Exactly(m, e, Real(Abs(x))))
  {
    if Exactly(a, e, Real(xa)) && (a % 2 == 0 || Exactly(b, e, Real(xb))) {
      CombineInexact(a, xa, b, xb, e);
    } else {
      CombineInexact(b, xb, a, xa, e);
    }
    hide Exactly, RoundOdd;
    SignedSum(sa, xa, sb, xb);
    if sa == sb {
      RoundOddSign(a + b, e, xa + xb);
    } else if a >= b {
      RoundOddSign(a - b, e, xa - xb);
    } else {
      RoundOddSign(b - a, e, xb - xa);
    }
  }

  lemma AlignedSafe(ma: u128, ea: int, mb: u128, eb: int)
    requires 0 < ma < Pow2(106) && 0 < mb < Pow2(106)
    ensures (SumFits(ma, ea, mb, eb);
            var base := BaseOf(ma, ea, mb, eb);
            var a, b := Scale(ma, ea, base), Scale(mb, eb, base);
            Safe(a, Dyadic(ma, ea), b, Dyadic(mb, eb), base) &&
            ((ea >= base && eb >= base && Exactly(a, base, Real(Dyadic(ma, ea))) &&
             Exactly(b, base, Real(Dyadic(mb, eb)))) ||
             a >= b + Pow2(124) || b >= a + Pow2(124)))
  {
    SumFits(ma, ea, mb, eb);
    var base := BaseOf(ma, ea, mb, eb);
    hide Pow2, BitLen, Scale, Dyadic;
    ScaleRoundOdd(ma, ea, base);
    ScaleRoundOdd(mb, eb, base);
    Pow2Strict(124, 125);
    Pow2Strict(106, 124);
    ScaledSize(ma, ea, base);
    ScaledSize(mb, eb, base);
    hide Exactly, RoundOdd;
    if ea + BitLen(ma) == base + 126 {
      TopOperand(ma, ea, base);
    } else {
      TopOperand(mb, eb, base);
    }
  }

  /** Bits are discarded also from an operand that reaches far higher than 126 places below the
      other's leading bit, where only its lowest bit lies so deep: with 2^52 beside 2^53 - 1 at
      exponent -74, the discarded bit belongs to an operand whose leading bit is 74 places down. */
  lemma DiscardsFromAbove()
    ensures var ma: u128, ea, mb: u128, eb := 0x10_0000_0000_0000, 0, 0x1F_FFFF_FFFF_FFFF, -74;
            BaseOf(ma, ea, mb, eb) == -73 && Low(mb, -73 - eb) != 0 &&
            (ea + BitLen(ma) - 1) - (eb + BitLen(mb) - 1) == 74
  {
    hide BitLen, Low;
    DoubleLengths();
    OddLow(0x1F_FFFF_FFFF_FFFF);
  }

  lemma OddLow(m: nat)
    requires m % 2 == 1
    ensures Low(m, 1) == 1
  {
    assert Pow2(1) == 2;
  }

  lemma DoubleLengths()
    ensures BitLen(0x10_0000_0000_0000) == 53 && BitLen(0x1F_FFFF_FFFF_FFFF) == 53
  {
    Powers52();
    hide Pow2, BitLen;
    BitLenIs(0x10_0000_0000_0000, 53);
    BitLenIs(0x1F_FFFF_FFFF_FFFF, 53);
  }

  lemma Powers52()
    ensures Pow2(52) == 0x10_0000_0000_0000 && Pow2(53) == 0x20_0000_0000_0000
  {
    assert Pow2(4) == 16;
    Doubling(4, 16);
    Doubling(8, 0x100);
    hide Pow2;
    Pow2Add(16, 16);
    Pow2Add(32, 16);
    Pow2Add(48, 4);
    Halving(52, 0x10_0000_0000_0000);
  }

  /** add_raw is the round-to-odd of the exact signed sum: the comparison picks the true sign, a
      zero means cancellation, and a sum that lost bits keeps 125 of them, so cancellation never
      exposes a discarded one. */
  lemma AddRawCorrect(sa: bool, ma: u128, ea: int, sb: bool, mb: u128, eb: int)
    requires 0 < ma < Pow2(106) && 0 < mb < Pow2(106)
    ensures var (s, m, e) := AddRaw(sa, ma, ea, sb, mb, eb);
            var x := Signed(sa, Dyadic(ma, ea)) + Signed(sb, Dyadic(mb, eb));
            RoundOdd(m, e, Real(Abs(x))) && m < Pow2(127) &&
            (Exactly(m, e, Real(Abs(x))) || m >= Pow2(124)) &&
            (m == 0 <==> x == 0.0) && (x != 0.0 ==> s == (x < 0.0))
  {
    hide Pow2, BitLen, Scale, Dyadic, Safe, Exactly, RoundOdd, BaseOf, Abs, Signed;
    SumFits(ma, ea, mb, eb);
    AlignedSafe(ma, ea, mb, eb);
    var base := BaseOf(ma, ea, mb, eb);
    DyadicSign(ma, ea);
    DyadicSign(mb, eb);
    Combine(sa, Scale(ma, ea, base), Dyadic(ma, ea), sb, Scale(mb, eb, base), Dyadic(mb, eb), base);
  }
}
