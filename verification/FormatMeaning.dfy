/** The two formats in literal bits, as the binary32 and binary64 interchange formats lay them out
    (section 3.4 of IEEE 754-2019), and the results whose pattern the rounding mode decides. */
module FormatMeaning {
  import opened Arithmetic
  import opened Powers
  import opened FloatFormat
  import opened Rounding
  import opened Packing
  import opened FloatOps
  import opened FloatCorrect
  import FloatSpecial

  lemma SingleWidths()
    ensures Pow2(S.Sig()) == 0x80_0000 && Pow2(S.ExpBits()) == 256 && S.Bias() == 127 && S.MaxField() == 255
    ensures S.QuietBit() == 0x40_0000 && S.SignMask() == 0x8000_0000 && Pow2(S.Bits()) == 0x1_0000_0000
  {
    Pow2Literals();
    hide Pow2;
    Pow2Add(8, 23);
    Pow2Next(22);
  }

  lemma DoubleWidths()
    ensures Pow2(D.Sig()) == 0x10_0000_0000_0000 && Pow2(D.ExpBits()) == 2048 && D.Bias() == 1023
    ensures D.QuietBit() == 0x8_0000_0000_0000 && D.SignMask() == 0x8000_0000_0000_0000 && D.MaxField() == 2047
    ensures Pow2(D.Bits()) == 0x1_0000_0000_0000_0000
  {
    Pow2Literals();
    hide Pow2;
    Pow2Add(11, 52);
    Pow2Next(51);
  }

  /** The patterns without a sign that the operations return by name. */
  lemma NamedPatterns()
    ensures S.Inf(false) == 0x7F80_0000 && S.MaxFinite(false) == 0x7F7F_FFFF && S.Nan() == 0x7FC0_0000
    ensures D.Inf(false) == 0x7FF0_0000_0000_0000 && D.MaxFinite(false) == 0x7FEF_FFFF_FFFF_FFFF
    ensures D.Nan() == 0x7FF8_0000_0000_0000 && S.Zero(false) == 0 == D.Zero(false)
    ensures S.Inf(true) == 0xFF80_0000 && S.MaxFinite(true) == 0xFF7F_FFFF && S.Zero(true) == 0x8000_0000
    ensures D.Inf(true) == 0xFFF0_0000_0000_0000 && D.MaxFinite(true) == 0xFFEF_FFFF_FFFF_FFFF
    ensures D.Zero(true) == 0x8000_0000_0000_0000
  {
    SingleWidths();
    DoubleWidths();
    hide Pow2;
  }

  /** A pattern less its sign is its exponent field above its fraction. */
  lemma BelowSign(f: Fmt, x: nat)
    ensures f.Mask(x) % f.SignMask() == f.Field(x) * Pow2(f.Sig()) + f.Frac(x)
    ensures f.Field(x) <= f.MaxField() && f.Frac(x) < Pow2(f.Sig())
    ensures f.Neg(x) <==> f.Mask(x) >= f.SignMask()
  {
    FmtFacts(f);
    SignMaskProduct(f);
    PackOfFields(f, x);
    hide Pow2;
    FieldsFit(f.Field(x), f.Frac(x), Pow2(f.ExpBits()), Pow2(f.Sig()));
    DivModUnique(f.Mask(x), f.SignMask(), if f.Neg(x) then 1 else 0, f.Field(x) * Pow2(f.Sig()) + f.Frac(x));
  }

  lemma FieldsFit(field: nat, frac: nat, q: nat, p: nat)
    requires field < q && frac < p
    ensures field * p + frac < q * p
  {
    MulLe(field + 1, q, p);
    assert (field + 1) * p == field * p + p;
  }

  /** Single precision: a sign, eight bits of exponent and 23 of fraction. Up to the pattern of the
      infinity a pattern less its sign denotes a number, subnormal below 2^23 and with a hidden bit
      from there on; above it lie the signalling and then the quiet NaNs. */
  lemma SingleMeans(x: nat)
    ensures var n := x % 0x1_0000_0000 % 0x8000_0000;
            (S.Neg(x) <==> x % 0x1_0000_0000 >= 0x8000_0000) &&
            (S.IsFinite(x) <==> n < 0x7F80_0000) && (S.IsInf(x) <==> n == 0x7F80_0000) &&
            (S.IsSnan(x) <==> 0x7F80_0000 < n < 0x7FC0_0000) && (S.IsNan(x) <==> n > 0x7F80_0000) &&
            (S.IsFinite(x) ==>
             S.Magnitude(x) == if n < 0x80_0000 then Dyadic(n, -149)
                               else Dyadic(0x80_0000 + n % 0x80_0000, n / 0x80_0000 - 150))
  {
    hide Dyadic;
    SingleWidths();
    BelowSign(S, x);
    hide Pow2;
    DivModUnique(S.Field(x) * 0x80_0000 + S.Frac(x), 0x80_0000, S.Field(x), S.Frac(x));
  }

  /** Double precision: eleven bits of exponent and 52 of fraction. */
  lemma DoubleMeans(x: nat)
    ensures var n := x % 0x1_0000_0000_0000_0000 % 0x8000_0000_0000_0000;
            (D.Neg(x) <==> x % 0x1_0000_0000_0000_0000 >= 0x8000_0000_0000_0000) &&
            (D.IsFinite(x) <==> n < 0x7FF0_0000_0000_0000) && (D.IsInf(x) <==> n == 0x7FF0_0000_0000_0000) &&
            (D.IsSnan(x) <==> 0x7FF0_0000_0000_0000 < n < 0x7FF8_0000_0000_0000) &&
            (D.IsNan(x) <==> n > 0x7FF0_0000_0000_0000) &&
            (D.IsFinite(x) ==>
             D.Magnitude(x) == if n < 0x10_0000_0000_0000 then Dyadic(n, -1074)
                               else Dyadic(0x10_0000_0000_0000 + n % 0x10_0000_0000_0000,
                                           n / 0x10_0000_0000_0000 - 1075))
  {
    hide Dyadic;
    DoubleWidths();
    BelowSign(D, x);
    hide Pow2;
    DivModUnique(D.Field(x) * 0x10_0000_0000_0000 + D.Frac(x), 0x10_0000_0000_0000, D.Field(x), D.Frac(x));
  }

  // ---------------------------------------------------------------------------------------
  // What the mode decides

  function SignBit(f: Fmt, neg: bool): nat {
    if !neg then 0 else if f.S? then 0x8000_0000 else 0x8000_0000_0000_0000
  }

  /** A sum or difference that is exactly zero: with like signs it keeps them, and otherwise it is the
      positive zero, but the negative one when rounding down. */
  lemma ZeroSum(f: Fmt, a: nat, b: nat, rm: Rm, negateB: bool)
    requires f.IsFinite(a) && f.IsFinite(b)
    requires f.Value(a) + (if negateB then -f.Value(b) else f.Value(b)) == 0.0
    ensures var sb := f.Neg(b) != negateB;
            AddOrSub(f, a, b, rm, negateB) ==
            Fp(SignBit(f, if f.Neg(a) == sb then f.Neg(a) else rm == Rdn), 0)
  {
    hide AddOrSub, Fmt.Value, Delivers, CorrectlyRounded, Fmt.Neg, Fmt.Zero;
    AddOrSubCorrect(f, a, b, rm, negateB);
    NamedPatterns();
  }

  /** The same for a fused sum, where the product's sign is its own. */
  lemma ZeroFusedSum(f: Fmt, a: nat, b: nat, c: nat, negateProduct: bool, negateAddend: bool, rm: Rm)
    requires f.IsFinite(a) && f.IsFinite(b) && f.IsFinite(c)
    requires var p := f.Value(a) * f.Value(b);
             (if negateProduct then -p else p) + (if negateAddend then -f.Value(c) else f.Value(c)) == 0.0
    ensures var sp, sc := (f.Neg(a) != f.Neg(b)) != negateProduct, f.Neg(c) != negateAddend;
            Fma(f, a, b, c, negateProduct, negateAddend, rm) == Fp(SignBit(f, if sp == sc then sp else rm == Rdn), 0)
  {
    hide Fma, Fmt.Value, Delivers, CorrectlyRounded, Fmt.Neg, Fmt.Zero;
    FmaCorrect(f, a, b, c, negateProduct, negateAddend, rm);
    NamedPatterns();
  }

  /** A number other than zero divided by a zero is an infinity with the sign of the quotient, and
      raises divide-by-zero alone. */
  lemma DivideByZero(f: Fmt, a: nat, b: nat, rm: Rm)
    requires f.IsFinite(a) && f.IsFinite(b) && f.Value(a) != 0.0 && f.Value(b) == 0.0
    ensures Div(f, a, b, rm) ==
            Fp(SignBit(f, f.Neg(a) != f.Neg(b)) + if f.S? then 0x7F80_0000 else 0x7FF0_0000_0000_0000, 0x8)
  {
    hide Div, Fmt.Value, Fmt.Neg, Fmt.Inf;
    FloatSpecial.DivNan(f, a, b, rm);
    FloatSpecial.Classes(f, a);
    FloatSpecial.Classes(f, b);
    NamedPatterns();
  }

  /** The flags of a rounded result: none, inexact, inexact and underflow, or inexact and overflow. */
  lemma DeliveredFlags(f: Fmt, rm: Rm, neg: bool, m: Exact, out: Fp)
    requires Delivers(f, rm, neg, m, out)
    ensures out.flags == 0 || out.flags == 0x1 || out.flags == 0x3 || out.flags == 0x5
  {
    hide RoundsMag;
  }

  lemma OverflowDelivers(f: Fmt, rm: Rm, neg: bool, m: Exact, out: Fp)
    requires Delivers(f, rm, neg, m, out) && out.flags == 0x5
    ensures out.bits == if DirOf(rm, neg).Truncate? then f.MaxFinite(neg) else f.Inf(neg)
  {
    hide RoundsMag, Fmt.Inf, Fmt.MaxFinite, Fmt.Magnitude, Fmt.IsFinite, Fmt.Neg, DirOf, TwoTo, Pow2;
  }

  /** The modes that round a number of this sign to its infinity when it overflows. */
  predicate Outwards(rm: Rm, neg: bool) { rm == Rne || rm == Rmm || (rm == Rdn && neg) || (rm == Rup && !neg) }

  lemma OutwardsMeans(rm: Rm, neg: bool)
    ensures Outwards(rm, neg) <==> !DirOf(rm, neg).Truncate?
  {
  }

  lemma LastPatterns(f: Fmt, neg: bool)
    ensures f.Inf(neg) == SignBit(f, neg) + if f.S? then 0x7F80_0000 else 0x7FF0_0000_0000_0000
    ensures f.MaxFinite(neg) == SignBit(f, neg) + if f.S? then 0x7F7F_FFFF else 0x7FEF_FFFF_FFFF_FFFF
  {
    NamedPatterns();
    hide Fmt.Inf, Fmt.MaxFinite, Fmt.Zero;
  }

  /** On overflow the nearest modes and the one that rounds the sign outwards deliver the infinity, the
      others the largest finite number. */
  lemma OverflowPattern(f: Fmt, rm: Rm, neg: bool, m: Exact, out: Fp)
    requires Delivers(f, rm, neg, m, out) && out.flags == 0x5
    ensures out.bits == SignBit(f, neg) +
                        if Outwards(rm, neg) then if f.S? then 0x7F80_0000 else 0x7FF0_0000_0000_0000
                        else if f.S? then 0x7F7F_FFFF else 0x7FEF_FFFF_FFFF_FFFF
  {
    hide Delivers, Fmt.Inf, Fmt.MaxFinite, DirOf, Outwards, SignBit;
    OverflowDelivers(f, rm, neg, m, out);
    OutwardsMeans(rm, neg);
    LastPatterns(f, neg);
  }
}
