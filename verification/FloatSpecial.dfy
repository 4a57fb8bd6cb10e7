/** NaNs, infinities and the invalid flag: exactly which operands produce them. */
module FloatSpecial {
  import opened Powers
  import opened FloatFormat
  import opened Rounding
  import opened Packing
  import opened Sums
  import opened FloatOps
  import opened FloatCorrect
  import opened FloatLaws
  import opened FloatOrder
  import opened FloatSqrt

  ghost predicate IsZero(f: Fmt, x: nat) { f.IsFinite(x) && f.Value(x) == 0.0 }

  /** out is the canonical NaN, and raises nothing but, where the operation is invalid, that flag. */
  predicate NanOut(f: Fmt, invalid: bool, out: Fp) { out == Fp(f.Nan(), if invalid then NV else 0) }

  /** out is a number or an infinity, and not invalid. */
  predicate NumberOut(f: Fmt, out: Fp) { !f.IsNan(out.bits) && out.flags in {0, NX, NX + UF, NX + OF, DZ} }

  lemma CanonicalNan(f: Fmt)
    ensures f.IsNan(f.Nan()) && !f.IsSnan(f.Nan()) && !f.Neg(f.Nan())
  {
    FmtFacts(f);
    NanFraction(f);
    hide Pow2;
    PackFields(f, false, f.MaxField(), f.QuietBit());
    assert f.Nan() == Pack(f, false, f.MaxField(), f.QuietBit());
  }

  lemma NanFraction(f: Fmt)
    ensures 0 < f.QuietBit() < Pow2(f.Sig())
  {
    Pow2Strict(f.Sig() - 1, f.Sig());
  }

  lemma Classes(f: Fmt, x: nat)
    ensures var c := Unpack(f, x).1;
            (c.Nan? <==> f.IsNan(x)) && (Signalling(c) <==> f.IsSnan(x)) && (c.Inf? <==> f.IsInf(x)) &&
            (c.Zero? <==> IsZero(f, x)) && Unpack(f, x).0 == f.Neg(x)
    ensures f.IsFinite(x) <==> !f.IsNan(x) && !f.IsInf(x)
    ensures IsZero(f, x) ==> f.IsFinite(x)
    ensures f.IsSnan(x) ==> f.IsNan(x)
    ensures f.IsInf(x) ==> !f.IsNan(x)
  {
    hide Pow2, Dyadic, Unpack;
    UnpackValue(f, x);
    if f.IsFinite(x) { UnpackFinite(f, x); }
  }

  lemma PrescribedOut(f: Fmt, rm: Rm, x: real, zeroNeg: bool, out: Fp)
    requires Prescribed(f, rm, x, zeroNeg, out)
    ensures NumberOut(f, out) && out.flags != DZ
  {
    hide Pow2, Dyadic, Delivers, CorrectlyRounded;
    DeliveredSign(f, rm, x, zeroNeg, out);
    if x != 0.0 { FlagsMeanInexact(f, rm, x < 0.0, Real(Abs(x)), out); }
  }

  /** fma is a NaN exactly on a NaN operand, a zero times an infinity, or opposing infinities; the
      NaN is then canonical, and invalid is raised exactly for a signalling operand or one of the
      two meaningless cases. A zero times an infinity is invalid even with a quiet NaN addend. */
  lemma FmaNan(f: Fmt, a: nat, b: nat, c: nat, negateProduct: bool, negateAddend: bool, rm: Rm)
    ensures var out := Fma(f, a, b, c, negateProduct, negateAddend, rm);
            var sp, sc := (f.Neg(a) != f.Neg(b)) != negateProduct, f.Neg(c) != negateAddend;
            var product := (f.IsInf(a) && IsZero(f, b)) || (IsZero(f, a) && f.IsInf(b));
            var nan := f.IsNan(a) || f.IsNan(b) || f.IsNan(c);
            var clash := (f.IsInf(a) || f.IsInf(b)) && f.IsInf(c) && sp != sc;
            if product || nan || clash then
              NanOut(f, product || f.IsSnan(a) || f.IsSnan(b) || f.IsSnan(c) || (clash && !nan), out)
            else if f.IsInf(a) || f.IsInf(b) then out == Fp(f.Inf(sp), 0)
            else if f.IsInf(c) then out == Fp(f.Inf(sc), 0)
            else NumberOut(f, out) && out.flags != DZ
  {
    hide Pow2, Dyadic, Unpack, IsZero, NumberOut, RoundPack, RoundSum, WithSign,
         Fmt.IsNan, Fmt.IsSnan, Fmt.IsInf, Fmt.IsFinite, Fmt.Neg, Fmt.Field, Fmt.Frac, Fmt.Mask, Fmt.Nan, Fmt.Inf,
         Fmt.Zero;
    Classes(f, a);
    Classes(f, b);
    Classes(f, c);
    if f.IsFinite(a) && f.IsFinite(b) && f.IsFinite(c) {
      FmaFinite(f, a, b, c, negateProduct, negateAddend, rm);
      hide Fma;
    }
  }

  lemma FmaFinite(f: Fmt, a: nat, b: nat, c: nat, negateProduct: bool, negateAddend: bool, rm: Rm)
    requires f.IsFinite(a) && f.IsFinite(b) && f.IsFinite(c)
    ensures var out := Fma(f, a, b, c, negateProduct, negateAddend, rm); NumberOut(f, out) && out.flags != DZ
  {
    hide Pow2, Dyadic, Fma, Prescribed, NumberOut;
    FmaCorrect(f, a, b, c, negateProduct, negateAddend, rm);
    var sp, sc := (f.Neg(a) != f.Neg(b)) != negateProduct, f.Neg(c) != negateAddend;
    PrescribedOut(f, rm, Signed(negateProduct, f.Value(a) * f.Value(b)) + Signed(negateAddend, f.Value(c)),
                  if sp == sc then sp else ZeroSign(rm), Fma(f, a, b, c, negateProduct, negateAddend, rm));
  }

  /** The same for sums and differences. */
  lemma AddOrSubNan(f: Fmt, a: nat, b: nat, rm: Rm, negateB: bool)
    ensures var out := AddOrSub(f, a, b, rm, negateB);
            var nan := f.IsNan(a) || f.IsNan(b);
            var clash := f.IsInf(a) && f.IsInf(b) && f.Neg(a) != (f.Neg(b) != negateB);
            if nan || clash then NanOut(f, f.IsSnan(a) || f.IsSnan(b) || clash, out)
            else if f.IsInf(a) then out == Fp(f.Inf(f.Neg(a)), 0)
            else if f.IsInf(b) then out == Fp(f.Inf(f.Neg(b) != negateB), 0)
            else NumberOut(f, out) && out.flags != DZ
  {
    hide Pow2, Dyadic, Unpack, IsZero, NumberOut, RoundSum, WithSign,
         Fmt.IsNan, Fmt.IsSnan, Fmt.IsInf, Fmt.IsFinite, Fmt.Neg, Fmt.Field, Fmt.Frac, Fmt.Mask, Fmt.Nan, Fmt.Inf,
         Fmt.Zero;
    Classes(f, a);
    Classes(f, b);
    if f.IsFinite(a) && f.IsFinite(b) { AddOrSubFinite(f, a, b, rm, negateB); }
  }

  lemma AddOrSubFinite(f: Fmt, a: nat, b: nat, rm: Rm, negateB: bool)
    requires f.IsFinite(a) && f.IsFinite(b)
    ensures var out := AddOrSub(f, a, b, rm, negateB); NumberOut(f, out) && out.flags != DZ
  {
    hide Pow2, Dyadic, AddOrSub, Prescribed, NumberOut;
    AddOrSubCorrect(f, a, b, rm, negateB);
    PrescribedOut(f, rm, f.Value(a) + Signed(negateB, f.Value(b)),
                  if f.Neg(a) == (f.Neg(b) != negateB) then f.Neg(a) else ZeroSign(rm), AddOrSub(f, a, b, rm, negateB));
  }

  /** The same for products. */
  lemma MulNan(f: Fmt, a: nat, b: nat, rm: Rm)
    ensures var out, s := Mul(f, a, b, rm), f.Neg(a) != f.Neg(b);
            var nan := f.IsNan(a) || f.IsNan(b);
            var meaningless := (f.IsInf(a) && IsZero(f, b)) || (IsZero(f, a) && f.IsInf(b));
            if nan || meaningless then NanOut(f, f.IsSnan(a) || f.IsSnan(b) || meaningless, out)
            else if f.IsInf(a) || f.IsInf(b) then out == Fp(f.Inf(s), 0)
            else NumberOut(f, out) && out.flags != DZ
  {
    hide Pow2, Dyadic, Unpack, IsZero, NumberOut, RoundPack,
         Fmt.IsNan, Fmt.IsSnan, Fmt.IsInf, Fmt.IsFinite, Fmt.Neg, Fmt.Field, Fmt.Frac, Fmt.Mask, Fmt.Nan, Fmt.Inf,
         Fmt.Zero;
    Classes(f, a);
    Classes(f, b);
    if f.IsFinite(a) && f.IsFinite(b) { MulFinite(f, a, b, rm); }
  }

  lemma MulFinite(f: Fmt, a: nat, b: nat, rm: Rm)
    requires f.IsFinite(a) && f.IsFinite(b)
    ensures var out := Mul(f, a, b, rm); NumberOut(f, out) && out.flags != DZ
  {
    hide Pow2, Dyadic, Mul, Prescribed, NumberOut;
    MulCorrect(f, a, b, rm);
    PrescribedOut(f, rm, f.Value(a) * f.Value(b), f.Neg(a) != f.Neg(b), Mul(f, a, b, rm));
  }

  /** The same for quotients; divide-by-zero is raised exactly for a finite non-zero over a zero. */
  lemma DivNan(f: Fmt, a: nat, b: nat, rm: Rm)
    ensures var out, s := Div(f, a, b, rm), f.Neg(a) != f.Neg(b);
            var nan := f.IsNan(a) || f.IsNan(b);
            var meaningless := (f.IsInf(a) && f.IsInf(b)) || (IsZero(f, a) && IsZero(f, b));
            if nan || meaningless then NanOut(f, f.IsSnan(a) || f.IsSnan(b) || meaningless, out)
            else if f.IsInf(a) then out == Fp(f.Inf(s), 0)
            else if f.IsInf(b) then out == Fp(f.Zero(s), 0)
            else if IsZero(f, b) then out == Fp(f.Inf(s), DZ)
            else NumberOut(f, out) && out.flags != DZ
  {
    hide Pow2, Dyadic, Unpack, IsZero, NumberOut, RoundPack, OrSticky,
         Fmt.IsNan, Fmt.IsSnan, Fmt.IsInf, Fmt.IsFinite, Fmt.Neg, Fmt.Field, Fmt.Frac, Fmt.Mask, Fmt.Nan, Fmt.Inf,
         Fmt.Zero;
    Classes(f, a);
    Classes(f, b);
    if f.IsFinite(a) && f.IsFinite(b) && !IsZero(f, b) { DivFinite(f, a, b, rm); }
  }

  lemma DivFinite(f: Fmt, a: nat, b: nat, rm: Rm)
    requires f.IsFinite(a) && f.IsFinite(b) && !IsZero(f, b)
    ensures var out := Div(f, a, b, rm); NumberOut(f, out) && out.flags != DZ
  {
    hide Pow2, Dyadic, Div, Prescribed, NumberOut;
    DivCorrect(f, a, b, rm);
    PrescribedOut(f, rm, f.Value(a) / f.Value(b), f.Neg(a) != f.Neg(b), Div(f, a, b, rm));
  }

  /** Square root is a NaN exactly on a NaN and on anything negative but a zero; invalid is raised for
      the negative ones and for a signalling NaN. */
  lemma SqrtNan(f: Fmt, a: nat, rm: Rm)
    ensures var out := Sqrt(f, a, rm);
            var negative := !f.IsNan(a) && f.Neg(a) && !IsZero(f, a);
            if f.IsNan(a) || negative then NanOut(f, f.IsSnan(a) || negative, out)
            else if f.IsInf(a) then out == Fp(f.Inf(false), 0)
            else if IsZero(f, a) then out == Fp(f.Zero(f.Neg(a)), 0)
            else NumberOut(f, out) && out.flags != DZ
  {
    hide Pow2, Dyadic, Unpack, IsZero, NumberOut, RoundRoot, FloorSqrt,
         Fmt.IsNan, Fmt.IsSnan, Fmt.IsInf, Fmt.IsFinite, Fmt.Neg, Fmt.Field, Fmt.Frac, Fmt.Mask, Fmt.Nan, Fmt.Inf,
         Fmt.Zero;
    Classes(f, a);
    if f.IsFinite(a) && !f.Neg(a) && !IsZero(f, a) { SqrtFinite(f, a, rm); }
  }

  lemma SqrtFinite(f: Fmt, a: nat, rm: Rm)
    requires f.IsFinite(a) && !f.Neg(a) && !IsZero(f, a)
    ensures var out := Sqrt(f, a, rm); NumberOut(f, out) && out.flags != DZ
  {
    hide Pow2, Dyadic, Sqrt, Delivers;
    assert f.Value(a) > 0.0;
    SqrtCorrect(f, a, rm);
    DeliveredNumber(f, rm, false, Root(f.Value(a)), Sqrt(f, a, rm));
  }

  lemma DeliveredNumber(f: Fmt, rm: Rm, neg: bool, m: Exact, out: Fp)
    requires Delivers(f, rm, neg, m, out)
    ensures NumberOut(f, out) && out.flags != DZ
  {
    FlagsMeanInexact(f, rm, neg, m, out);
    var r :| RoundsMag(Format(f), DirOf(rm, neg), m, r) && Encodes(f, rm, neg, m, r, out);
    hide Pow2, Dyadic, RoundsMag, Encodes;
    EncodedMonotone(f, rm, neg, m, m, r, r, out, out);
  }

  /** A conversion between the formats is a NaN exactly on a NaN, invalid if it was signalling, and
      keeps infinities with their sign. */
  lemma ConvertNan(from: Fmt, to: Fmt, a: nat, rm: Rm)
    ensures var out := Convert(from, to, a, rm);
            if from.IsNan(a) then NanOut(to, from.IsSnan(a), out)
            else if from.IsInf(a) then out == Fp(to.Inf(from.Neg(a)), 0)
            else NumberOut(to, out) && out.flags != DZ
  {
    hide Pow2, Dyadic, Unpack, IsZero, NumberOut, RoundPack,
         Fmt.IsNan, Fmt.IsSnan, Fmt.IsInf, Fmt.IsFinite, Fmt.Neg, Fmt.Field, Fmt.Frac, Fmt.Mask, Fmt.Nan, Fmt.Inf,
         Fmt.Zero;
    Classes(from, a);
    if from.IsFinite(a) { ConvertFinite(from, to, a, rm); }
  }

  lemma ConvertFinite(from: Fmt, to: Fmt, a: nat, rm: Rm)
    requires from.IsFinite(a)
    ensures var out := Convert(from, to, a, rm); NumberOut(to, out) && out.flags != DZ
  {
    hide Pow2, Dyadic, Convert, Prescribed, NumberOut;
    ConvertCorrect(from, to, a, rm);
    PrescribedOut(to, rm, from.Value(a), from.Neg(a), Convert(from, to, a, rm));
  }
}
