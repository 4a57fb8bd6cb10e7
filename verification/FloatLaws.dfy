/** Laws that relate several operations, or one operation at two inputs. */
module FloatLaws {
  import opened Arithmetic
  import opened Powers
  import opened FloatFormat
  import opened Rounding
  import opened Packing
  import opened Sums
  import opened FloatOps
  import opened FloatCorrect

  lemma PrescribedUnique(f: Fmt, rm: Rm, x: real, zeroNeg: bool, a: Fp, b: Fp)
    requires Prescribed(f, rm, x, zeroNeg, a) && Prescribed(f, rm, x, zeroNeg, b)
    ensures a == b
  {
    hide Delivers, CorrectlyRounded;
    if x != 0.0 { DeliversUnique(f, rm, x < 0.0, Real(Abs(x)), a, b); }
  }

  /** The pattern of 1.0. */
  function One(f: Fmt): nat { FmtFacts(f); Pack(f, false, f.Bias(), 0) }

  lemma OneValue(f: Fmt)
    ensures f.IsFinite(One(f)) && !f.Neg(One(f)) && f.Value(One(f)) == 1.0 && Unpack(f, One(f)).1.Num?
  {
    hide Pow2, Dyadic, Unpack, TwoTo;
    FmtFacts(f);
    PackFields(f, false, f.Bias(), 0);
    DyadicPow(f.Sig(), 0 - f.Sig());
    TwoToZero();
    UnpackFinite(f, One(f));
  }

  /** Multiplying by one inside a fused operation is the plain sum or difference, in pattern and
      flags, for all patterns including NaNs and infinities. */
  lemma FmaOneIsAdd(f: Fmt, a: nat, c: nat, negateAddend: bool, rm: Rm)
    ensures Fma(f, a, One(f), c, false, negateAddend, rm) == AddOrSub(f, a, c, rm, negateAddend)
  {
    hide Pow2, Dyadic, Unpack, Prescribed, One;
    OneValue(f);
    UnpackValue(f, a);
    UnpackValue(f, c);
    if f.IsFinite(a) && f.IsFinite(c) {
      hide Fma, AddOrSub;
      FmaCorrect(f, a, One(f), c, false, negateAddend, rm);
      AddOrSubCorrect(f, a, c, rm, negateAddend);
      assert f.Value(a) * 1.0 == f.Value(a);
      PrescribedUnique(f, rm, f.Value(a) + Signed(negateAddend, f.Value(c)),
                       if f.Neg(a) == (f.Neg(c) != negateAddend) then f.Neg(a) else ZeroSign(rm),
                       Fma(f, a, One(f), c, false, negateAddend, rm), AddOrSub(f, a, c, rm, negateAddend));
    } else {
      hide RoundSum, RoundPack, WithSign;
    }
  }

  /** round_pack undoes unpack, without flags, in every mode. */
  lemma PackOfUnpack(f: Fmt, x: nat, rm: Rm)
    requires f.IsFinite(x) && f.Value(x) != 0.0
    ensures var (s, c) := Unpack(f, x);
            c.Num? && 0 < c.m < 0x1_0000_0000_0000_0000_0000_0000_0000_0000 &&
            RoundPack(f, s, c.m, c.e, rm) == Fp(f.Mask(x), 0)
  {
    hide Pow2, Dyadic, Unpack, RoundPack, Prescribed, Exactly;
    UnpackFinite(f, x);
    var (s, c) := Unpack(f, x);
    SignificandFits(f, c.m);
    ExactPrescribed(f, rm, s, c.m, c.e, f.Value(x), s);
    WithSignFields(f, x, false);
    MaskIsWithSign(f, x);
    PatternPrescribed(f, rm, f.Mask(x), f.Value(x), s);
    PrescribedUnique(f, rm, f.Value(x), s, RoundPack(f, s, c.m, c.e, rm), Fp(f.Mask(x), 0));
  }

  // ---------------------------------------------------------------------------------------
  // Conversions

  /** Converting a finite value rounds it correctly into the other format. */
  lemma ConvertCorrect(from: Fmt, to: Fmt, a: nat, rm: Rm)
    requires from.IsFinite(a)
    ensures Prescribed(to, rm, from.Value(a), from.Neg(a), Convert(from, to, a, rm))
  {
    hide Pow2, Dyadic, Unpack, RoundPack, Prescribed;
    UnpackFinite(from, a);
    var (s, c) := Unpack(from, a);
    if c.Num? {
      SignificandFits(from, c.m);
      ExactPrescribed(to, rm, s, c.m, c.e, from.Value(a), s);
    } else {
      PrescribedZero(to, rm, from.Value(a), s);
    }
  }

  /** An exact real is delivered exactly and without flags if the format represents it. */
  lemma DeliversExact(f: Fmt, rm: Rm, neg: bool, r: real, out: Fp)
    requires Delivers(f, rm, neg, Real(r), out) && Rep(Format(f), r) && r < TwoTo(f.Bias() + 1)
    ensures out.flags == 0 && out.bits < Pow2(f.Bits()) && f.IsFinite(out.bits) && f.Neg(out.bits) == neg
    ensures f.Magnitude(out.bits) == r
  {
    var y :| RoundsMag(Format(f), DirOf(rm, neg), Real(r), y) && Encodes(f, rm, neg, Real(r), y, out);
    hide Pow2, TwoTo, RoundsMag, Rep;
    RepRoundsToItself(Format(f), DirOf(rm, neg), r);
    RoundsMagUnique(Format(f), DirOf(rm, neg), Real(r), y, r);
  }

  lemma Biases()
    ensures S.Bias() == 127 && D.Bias() == 1023
  {
    hide Pow2;
    Pow2Literals();
  }

  lemma SingleIsDouble(a: nat)
    requires S.IsFinite(a)
    ensures Rep(Format(D), S.Magnitude(a)) && S.Magnitude(a) < TwoTo(D.Bias() + 1)
  {
    hide Pow2, TwoTo, Dyadic;
    Biases();
    var n, k := MagnitudeCanonical(S, a);
    Pow2Mono(24, 53);
    Witness(Format(D), n, k);
    FiniteMagnitude(S, a);
    TwoToOrder(128, 1024);
  }

  /** Widening is exact: same value, no flags. */
  lemma WidenExact(a: nat, rm: Rm)
    requires S.IsFinite(a)
    ensures var w := Convert(S, D, a, rm);
            w.flags == 0 && w.bits < Pow2(64) && D.IsFinite(w.bits) && D.Neg(w.bits) == S.Neg(a) &&
            D.Value(w.bits) == S.Value(a)
  {
    hide Pow2, Dyadic, Unpack, Convert, Delivers, CorrectlyRounded, Rep, TwoTo;
    ConvertCorrect(S, D, a, rm);
    if S.Value(a) == 0.0 {
      ZeroPattern(D, S.Neg(a));
    } else {
      SingleIsDouble(a);
      DeliversExact(D, rm, S.Neg(a), S.Magnitude(a), Convert(S, D, a, rm));
    }
  }

  /** Widening and narrowing back returns every non-NaN single unchanged, in any two modes. */
  lemma NarrowOfWiden(a: nat, rm: Rm, rm2: Rm)
    requires !S.IsNan(a)
    ensures Convert(D, S, Convert(S, D, a, rm).bits, rm2) == Fp(S.Mask(a), 0)
  {
    if S.IsFinite(a) {
      hide Pow2, Dyadic, Unpack, Convert, Prescribed;
      WidenExact(a, rm);
      var w := Convert(S, D, a, rm).bits;
      ConvertCorrect(D, S, w, rm2);
      if S.Value(a) == 0.0 {
        ZeroPattern(S, S.Neg(a));
        WithSignFields(S, a, false);
        assert S.Magnitude(S.Zero(S.Neg(a))) == S.Magnitude(a);
        PatternUnique(S, S.Zero(S.Neg(a)), a);
        SmallMod(S.Zero(S.Neg(a)), Pow2(S.Bits()));
        PrescribedZero(S, rm2, 0.0, S.Neg(a));
      } else {
        WithSignFields(S, a, false);
        MaskIsWithSign(S, a);
        PatternPrescribed(S, rm2, S.Mask(a), S.Value(a), D.Neg(w));
      }
      PrescribedUnique(S, rm2, S.Value(a), D.Neg(w), Convert(D, S, w, rm2), Fp(S.Mask(a), 0));
    } else {
      InfinityRoundTrip(a, rm, rm2);
    }
  }

  lemma InfinityRoundTrip(a: nat, rm: Rm, rm2: Rm)
    requires S.IsInf(a)
    ensures Convert(D, S, Convert(S, D, a, rm).bits, rm2) == Fp(S.Mask(a), 0)
  {
    FmtFacts(D);
    hide Pow2;
    PackOfFields(S, a);
    PackFields(D, S.Neg(a), D.MaxField(), 0);
    assert D.Inf(S.Neg(a)) == Pack(D, S.Neg(a), D.MaxField(), 0);
    assert S.Inf(S.Neg(a)) == Pack(S, S.Neg(a), S.MaxField(), 0);
  }
}
