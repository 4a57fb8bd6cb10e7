/** How results relate to exact values and to each other: flags, direction and monotonicity. */
module FloatOrder {
  import opened Arithmetic
  import opened Powers
  import opened FloatFormat
  import opened Rounding
  import opened Packing
  import opened FloatCorrect
  import opened FloatSqrt
  import opened FloatCompare

  /** The overflow patterns: infinity above every finite magnitude, the largest finite at their top. */
  lemma OverflowPatterns(f: Fmt, neg: bool)
    ensures f.IsInf(f.Inf(neg)) && f.Neg(f.Inf(neg)) == neg && f.Inf(neg) < Pow2(f.Bits())
    ensures f.IsFinite(f.MaxFinite(neg)) && f.Neg(f.MaxFinite(neg)) == neg && f.MaxFinite(neg) < Pow2(f.Bits())
    ensures forall y: nat :: f.IsFinite(y) ==> MagnitudeKey(f, y) <= MagnitudeKey(f, f.MaxFinite(neg))
  {
    hide Pow2;
    FmtFacts(f);
    PackFields(f, neg, f.MaxField(), 0);
    PackFields(f, neg, f.MaxField() - 1, Pow2(f.Sig()) - 1);
    assert f.Inf(neg) == Pack(f, neg, f.MaxField(), 0);
    assert f.MaxFinite(neg) == Pack(f, neg, f.MaxField() - 1, Pow2(f.Sig()) - 1);
    forall y: nat | f.IsFinite(y) ensures MagnitudeKey(f, y) <= MagnitudeKey(f, f.MaxFinite(neg)) {
      PackOfFields(f, y);
      MulLe(f.Field(y), f.MaxField() - 1, Pow2(f.Sig()));
    }
  }

  /** A delivered result is flagged exactly when it is not the exact value: no flag means the
      exact value came back, underflow means an inexact result below the smallest normal, and
      overflow that the rounded value left the format's range. */
  lemma FlagsMeanInexact(f: Fmt, rm: Rm, neg: bool, m: Exact, out: Fp)
    requires Delivers(f, rm, neg, m, out)
    ensures out.flags in {0, NX, NX + UF, NX + OF}
    ensures out.flags == 0 <==> f.IsFinite(out.bits) && Offset(f.Magnitude(out.bits), m) == 0.0
    ensures out.flags == NX + UF <==>
              f.IsFinite(out.bits) && Offset(f.Magnitude(out.bits), m) != 0.0 &&
              f.Magnitude(out.bits) < TwoTo(1 - f.Bias())
    ensures f.IsInf(out.bits) ==> out.flags == NX + OF
  {
    var r :| RoundsMag(Format(f), DirOf(rm, neg), m, r) && Encodes(f, rm, neg, m, r, out);
    hide Pow2, Dyadic, TwoTo, Rep;
    OverflowPatterns(f, neg);
    if r >= TwoTo(f.Bias() + 1) {
      FiniteMagnitude(f, f.MaxFinite(neg));
      OverflowIsInexact(f, rm, neg, m, r);
      SmallestNormal(f, neg);
    }
  }

  lemma SmallestNormal(f: Fmt, neg: bool)
    ensures f.IsFinite(f.MaxFinite(neg)) && f.Magnitude(f.MaxFinite(neg)) >= TwoTo(1 - f.Bias())
  {
    hide Pow2, Dyadic, TwoTo;
    FmtFacts(f);
    PackFields(f, neg, f.MaxField() - 1, Pow2(f.Sig()) - 1);
    assert f.MaxFinite(neg) == Pack(f, neg, f.MaxField() - 1, Pow2(f.Sig()) - 1);
    var x := f.MaxFinite(neg);
    DyadicPow(f.Sig(), f.Bias() - f.Sig());
    DyadicOrder(Pow2(f.Sig()), Pow2(f.Sig()) + f.Frac(x), f.Bias() - f.Sig());
    TwoToOrder(1 - f.Bias(), f.Bias());
  }

  /** When rounding leaves the range, no finite value of the format is the exact one. */
  lemma OverflowIsInexact(f: Fmt, rm: Rm, neg: bool, m: Exact, r: real)
    requires RoundsMag(Format(f), DirOf(rm, neg), m, r) && r >= TwoTo(f.Bias() + 1)
    ensures f.IsFinite(f.MaxFinite(neg)) && Offset(f.Magnitude(f.MaxFinite(neg)), m) != 0.0
  {
    hide Pow2, Dyadic, TwoTo, RoundsMag, Rep;
    OverflowPatterns(f, neg);
    var y := f.Magnitude(f.MaxFinite(neg));
    FiniteMagnitude(f, f.MaxFinite(neg));
    if Offset(y, m) == 0.0 {
      ExactRoundsToItself(Format(f), DirOf(rm, neg), m, y);
      RoundsMagUnique(Format(f), DirOf(rm, neg), m, r, y);
    }
  }

  lemma ExactRoundsToItself(t: Target, d: Dir, m: Exact, r: real)
    requires Rep(t, r) && Offset(r, m) == 0.0
    ensures RoundsMag(t, d, m, r)
  {
    RepNonNegative(t, r);
    forall z | Rep(t, z) && z != r
      ensures z < r ==> Offset(z, m) < 0.0
      ensures z > r ==> Offset(z, m) > 0.0
      ensures d.Nearest? ==> Closer(t, d.even, m, r, z)
    {
      RepNonNegative(t, z);
      OffsetMonotone(z, r, m);
      OffsetMonotone(r, z, m);
      OffsetMonotone((r + z) / 2.0, r, m);
      OffsetMonotone(r, (r + z) / 2.0, m);
    }
  }

  /** sqrt raises inexact exactly when no value of the format is the root. */
  lemma SqrtInexact(f: Fmt, a: nat, rm: Rm)
    requires f.IsFinite(a) && f.Value(a) > 0.0
    ensures Sqrt(f, a, rm).flags == 0 <==>
            exists y: nat :: f.IsFinite(y) && f.Magnitude(y) * f.Magnitude(y) == f.Value(a)
  {
    hide Pow2, Dyadic, TwoTo, Sqrt, Delivers, Fmt.Magnitude, Fmt.Value, Fmt.IsFinite, Rep, RoundsMag;
    var out := Sqrt(f, a, rm);
    SqrtCorrect(f, a, rm);
    FlagsMeanInexact(f, rm, false, Root(f.Value(a)), out);
    if out.flags == 0 {
      assert f.IsFinite(out.bits) && f.Magnitude(out.bits) * f.Magnitude(out.bits) == f.Value(a);
    }
    if y: nat :| f.IsFinite(y) && f.Magnitude(y) * f.Magnitude(y) == f.Value(a) {
      ExactRoot(f, y, f.Value(a), rm, out);
    }
  }

  lemma ExactRoot(f: Fmt, y: nat, v: real, rm: Rm, out: Fp)
    requires f.IsFinite(y) && f.Magnitude(y) * f.Magnitude(y) == v && Delivers(f, rm, false, Root(v), out)
    ensures out.flags == 0
  {
    hide Pow2, Dyadic, TwoTo, Delivers, Fmt.Magnitude, Rep;
    FiniteMagnitude(f, y);
    ExactDelivered(f, rm, false, Root(v), f.Magnitude(y), out);
  }

  lemma ExactDelivered(f: Fmt, rm: Rm, neg: bool, m: Exact, r: real, out: Fp)
    requires Delivers(f, rm, neg, m, out) && Rep(Format(f), r) && r < TwoTo(f.Bias() + 1) && Offset(r, m) == 0.0
    ensures out.flags == 0
  {
    var y :| RoundsMag(Format(f), DirOf(rm, neg), m, y) && Encodes(f, rm, neg, m, y, out);
    hide Pow2, TwoTo, RoundsMag, Rep, Dyadic;
    ExactRoundsToItself(Format(f), DirOf(rm, neg), m, r);
    RoundsMagUnique(Format(f), DirOf(rm, neg), m, y, r);
  }

  // ---------------------------------------------------------------------------------------

  lemma EncodedMonotone(f: Fmt, rm: Rm, neg: bool, x: Exact, y: Exact, r: real, s: real, a: Fp, b: Fp)
    requires Encodes(f, rm, neg, x, r, a) && Encodes(f, rm, neg, y, s, b) && r <= s
    ensures !f.IsNan(a.bits) && !f.IsNan(b.bits) && f.Neg(a.bits) == neg == f.Neg(b.bits)
    ensures MagnitudeKey(f, a.bits) <= MagnitudeKey(f, b.bits)
  {
    hide Pow2, Dyadic, TwoTo, MagnitudeKey;
    OverflowPatterns(f, neg);
    if s < TwoTo(f.Bias() + 1) {
      MagnitudeOrder(f, a.bits, b.bits);
    } else if r < TwoTo(f.Bias() + 1) {
      InfinityKey(f, f.Inf(neg), a.bits);
    }
  }

  /** Larger exact magnitudes never give smaller results. */
  lemma DeliversMonotone(f: Fmt, rm: Rm, neg: bool, x: real, y: real, a: Fp, b: Fp)
    requires Delivers(f, rm, neg, Real(x), a) && Delivers(f, rm, neg, Real(y), b) && x <= y
    ensures !f.IsNan(a.bits) && !f.IsNan(b.bits) && f.Neg(a.bits) == neg == f.Neg(b.bits)
    ensures MagnitudeKey(f, a.bits) <= MagnitudeKey(f, b.bits)
  {
    hide Pow2, Dyadic, TwoTo, RoundsMag, MagnitudeKey, Encodes;
    var d := DirOf(rm, neg);
    var r :| RoundsMag(Format(f), d, Real(x), r) && Encodes(f, rm, neg, Real(x), r, a);
    var s :| RoundsMag(Format(f), d, Real(y), s) && Encodes(f, rm, neg, Real(y), s, b);
    RoundsMagMonotone(Format(f), d, Real(x), Real(y), r, s);
    EncodedMonotone(f, rm, neg, Real(x), Real(y), r, s, a, b);
  }

  lemma DeliveredSign(f: Fmt, rm: Rm, x: real, zeroNeg: bool, out: Fp)
    requires Prescribed(f, rm, x, zeroNeg, out)
    ensures !f.IsNan(out.bits)
    ensures x < 0.0 ==> Key(f, out.bits) <= 0
    ensures x > 0.0 ==> Key(f, out.bits) >= 0
    ensures x == 0.0 ==> Key(f, out.bits) == 0 && out.flags == 0 && f.IsFinite(out.bits) && f.Value(out.bits) == 0.0
  {
    hide Pow2, Dyadic, Delivers, CorrectlyRounded, Key, MagnitudeKey;
    KeyOfFields(f, out.bits);
    if x == 0.0 {
      ZeroPattern(f, zeroNeg);
      ZeroKey(f, out.bits);
    } else {
      DeliversMonotone(f, rm, x < 0.0, Abs(x), Abs(x), out, out);
    }
  }

  /** Rounded results are monotone in the exact value, across signs, zeros and overflow. */
  lemma PrescribedMonotone(f: Fmt, rm: Rm, x: real, y: real, zx: bool, zy: bool, a: Fp, b: Fp)
    requires Prescribed(f, rm, x, zx, a) && Prescribed(f, rm, y, zy, b) && x <= y
    ensures !f.IsNan(a.bits) && !f.IsNan(b.bits) && Key(f, a.bits) <= Key(f, b.bits)
  {
    hide Pow2, Dyadic, Delivers, Key, MagnitudeKey;
    DeliveredSign(f, rm, x, zx, a);
    DeliveredSign(f, rm, y, zy, b);
    KeyOfFields(f, a.bits);
    KeyOfFields(f, b.bits);
    if x > 0.0 {
      DeliversMonotone(f, rm, false, x, y, a, b);
    } else if y < 0.0 {
      DeliversMonotone(f, rm, true, -y, -x, b, a);
    }
  }

  /** Rounding down never exceeds the exact value and rounding up never falls below it, also
      where the result is an infinity or the largest finite value. */
  lemma DirectedBounds(f: Fmt, x: real, zeroNeg: bool, down: Fp, up: Fp)
    requires Prescribed(f, Rdn, x, zeroNeg, down) && Prescribed(f, Rup, x, zeroNeg, up)
    ensures !f.IsNan(down.bits) && !f.IsNan(up.bits)
    ensures !Below(Fin(x), Denotes(f, down.bits)) && !Below(Denotes(f, up.bits), Fin(x))
  {
    hide Pow2, Dyadic, Delivers, CorrectlyRounded;
    DeliveredSign(f, Rdn, x, zeroNeg, down);
    DeliveredSign(f, Rup, x, zeroNeg, up);
    if x != 0.0 {
      DownBound(f, x, down);
      UpBound(f, x, up);
    }
  }

  lemma DownBound(f: Fmt, x: real, out: Fp)
    requires x != 0.0 && CorrectlyRounded(f, Rdn, x, out) && !f.IsNan(out.bits)
    ensures !Below(Fin(x), Denotes(f, out.bits))
  {
    hide RoundsTo, EncodesSigned, Fmt.IsNan;
    var y :| RoundsTo(Format(f), Rdn, x, y) && EncodesSigned(f, Rdn, x, y, out);
    if Abs(y) >= TwoTo(f.Bias() + 1) { BigDown(f, x, y, out); } else { SmallResult(f, Rdn, x, y, out); }
    RoundedSide(f, x, y);
  }

  lemma RoundedSide(f: Fmt, x: real, y: real)
    ensures RoundsTo(Format(f), Rdn, x, y) ==> y <= x
    ensures RoundsTo(Format(f), Rup, x, y) ==> y >= x
  {
    hide SignedRep;
  }

  /** A result within range denotes what was encoded. */
  lemma SmallResult(f: Fmt, rm: Rm, x: real, y: real, out: Fp)
    requires EncodesSigned(f, rm, x, y, out) && Abs(y) < TwoTo(f.Bias() + 1) && !f.IsNan(out.bits)
    ensures Denotes(f, out.bits) == Fin(y)
  {
    hide Pow2, TwoTo, Fmt.Value, Fmt.Neg, Fmt.Field, Fmt.Frac, Fmt.IsNan;
  }

  lemma BigDown(f: Fmt, x: real, y: real, out: Fp)
    requires x != 0.0 && Abs(y) >= TwoTo(f.Bias() + 1) && RoundsTo(Format(f), Rdn, x, y) &&
             EncodesSigned(f, Rdn, x, y, out)
    requires !f.IsNan(out.bits)
    ensures !Below(Fin(x), Denotes(f, out.bits))
  {
    hide Pow2, TwoTo, Rep, Fmt.Inf, Fmt.MaxFinite, Fmt.Field, Fmt.Frac, Fmt.Neg, Fmt.Magnitude, Fmt.IsNan;
    OverflowPatterns(f, x < 0.0);
    if x > 0.0 {
      ZeroRep(f);
      FiniteMagnitude(f, f.MaxFinite(false));
    }
  }

  lemma ZeroRep(f: Fmt)
    ensures SignedRep(Format(f), 0.0)
  {
    ZeroIsRep(Format(f));
  }

  lemma UpBound(f: Fmt, x: real, out: Fp)
    requires x != 0.0 && CorrectlyRounded(f, Rup, x, out) && !f.IsNan(out.bits)
    ensures !Below(Denotes(f, out.bits), Fin(x))
  {
    hide RoundsTo, EncodesSigned, Fmt.IsNan;
    var y :| RoundsTo(Format(f), Rup, x, y) && EncodesSigned(f, Rup, x, y, out);
    if Abs(y) >= TwoTo(f.Bias() + 1) { BigUp(f, x, y, out); } else { SmallResult(f, Rup, x, y, out); }
    RoundedSide(f, x, y);
  }

  lemma BigUp(f: Fmt, x: real, y: real, out: Fp)
    requires x != 0.0 && Abs(y) >= TwoTo(f.Bias() + 1) && RoundsTo(Format(f), Rup, x, y) &&
             EncodesSigned(f, Rup, x, y, out)
    requires !f.IsNan(out.bits)
    ensures !Below(Denotes(f, out.bits), Fin(x))
  {
    hide Pow2, TwoTo, Rep, Fmt.Inf, Fmt.MaxFinite, Fmt.Field, Fmt.Frac, Fmt.Neg, Fmt.Magnitude, Fmt.IsNan;
    OverflowPatterns(f, x < 0.0);
    if x < 0.0 {
      ZeroRep(f);
      FiniteMagnitude(f, f.MaxFinite(true));
    }
  }
}
