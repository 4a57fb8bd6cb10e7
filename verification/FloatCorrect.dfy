/** Every arithmetic operation returns the correctly rounded exact result, with its flags. */
module FloatCorrect {
  import opened Powers
  import opened FloatFormat
  import opened Rounding
  import opened Packing
  import opened Sums
  import opened FloatOps

  /** out is what IEEE 754 prescribes for the exact result x, whose sign is zeroNeg if it is zero. */
  ghost predicate Prescribed(f: Fmt, rm: Rm, x: real, zeroNeg: bool, out: Fp) {
    if x == 0.0 then out == Fp(f.Zero(zeroNeg), 0)
    else Delivers(f, rm, x < 0.0, Real(Abs(x)), out) && CorrectlyRounded(f, rm, x, out)
  }

  lemma RoundPackPrescribed(f: Fmt, rm: Rm, s: bool, m: u128, e: int, x: real, zeroNeg: bool)
    requires 0 < m < Pow2(127) && RoundOdd(m, e, Real(Abs(x))) && x != 0.0 && s == (x < 0.0)
    requires Exactly(m, e, Real(Abs(x))) || m >= Pow2(f.Sig() + 2)
    ensures Prescribed(f, rm, x, zeroNeg, RoundPack(f, s, m, e, rm))
  {
    hide Pow2, RoundOdd, Exactly, Delivers, CorrectlyRounded, RoundPack, ResultLsb;
    RoundPackCorrect(f, s, m, e, rm, Real(Abs(x)));
    DeliversSigned(f, rm, x, RoundPack(f, s, m, e, rm));
  }

  lemma ExactPrescribed(f: Fmt, rm: Rm, s: bool, m: u128, e: int, x: real, zeroNeg: bool)
    requires 0 < m < Pow2(127) && x == Signed(s, Dyadic(m, e))
    ensures x != 0.0 && Prescribed(f, rm, x, zeroNeg, RoundPack(f, s, m, e, rm))
  {
    hide Pow2, Dyadic, Prescribed, RoundPack;
    DyadicSign(m, e);
    RoundPackPrescribed(f, rm, s, m, e, x, zeroNeg);
  }

  lemma RoundSumPrescribed(f: Fmt, rm: Rm, sa: bool, ma: u128, ea: int, sb: bool, mb: u128, eb: int)
    requires 0 < ma < Pow2(106) && 0 < mb < Pow2(106)
    ensures Prescribed(f, rm, Signed(sa, Dyadic(ma, ea)) + Signed(sb, Dyadic(mb, eb)), ZeroSign(rm),
                       RoundSum(f, rm, sa, ma, ea, sb, mb, eb))
  {
    hide Pow2, Dyadic, Exactly, RoundOdd, Delivers, CorrectlyRounded, RoundPack, AddRaw, Abs, Signed;
    AddRawCorrect(sa, ma, ea, sb, mb, eb);
    FmtFacts(f);
    Pow2Mono(f.Sig() + 2, 124);
    var (s, m, e) := AddRaw(sa, ma, ea, sb, mb, eb);
    var x := Signed(sa, Dyadic(ma, ea)) + Signed(sb, Dyadic(mb, eb));
    if m != 0 {
      RoundPackPrescribed(f, rm, s, m, e, x, ZeroSign(rm));
    }
  }

  // ---------------------------------------------------------------------------------------
  // A representable value rounds to itself.

  lemma RepRoundsToItself(t: Target, d: Dir, r: real)
    requires Rep(t, r)
    ensures RoundsMag(t, d, Real(r), r)
  {
    hide Rep, Even;
    if d.Nearest? {
      forall z | Rep(t, z) && z != r ensures Closer(t, d.even, Real(r), r, z) {
      }
    }
  }

  lemma FiniteMagnitude(f: Fmt, x: nat)
    requires f.IsFinite(x)
    ensures Rep(Format(f), f.Magnitude(x)) && f.Magnitude(x) < TwoTo(f.Bias() + 1)
  {
    hide Pow2, Dyadic, TwoTo, Rep;
    var n, k := MagnitudeCanonical(f, x);
    Witness(Format(f), n, k);
    FmtFacts(f);
    PackOfFields(f, x);
    DyadicOrder(n, Pow2(f.Sig() + 1), k);
    DyadicPow(f.Sig() + 1, k);
    TwoToOrder(f.Bias() + 1, k + f.Sig() + 1);
  }

  lemma PatternDelivers(f: Fmt, rm: Rm, bits: nat)
    requires f.IsFinite(bits) && bits < Pow2(f.Bits())
    ensures Delivers(f, rm, f.Neg(bits), Real(f.Magnitude(bits)), Fp(bits, 0))
  {
    hide Pow2, Dyadic, TwoTo, Rep;
    FiniteMagnitude(f, bits);
    RepRoundsToItself(Format(f), DirOf(rm, f.Neg(bits)), f.Magnitude(bits));
    hide RoundsMag;
    assert Encodes(f, rm, f.Neg(bits), Real(f.Magnitude(bits)), f.Magnitude(bits), Fp(bits, 0));
  }

  lemma PatternPrescribed(f: Fmt, rm: Rm, bits: nat, x: real, zeroNeg: bool)
    requires f.IsFinite(bits) && bits < Pow2(f.Bits()) && x == f.Value(bits) != 0.0
    ensures Prescribed(f, rm, x, zeroNeg, Fp(bits, 0))
  {
    hide Pow2, Delivers, CorrectlyRounded;
    PatternDelivers(f, rm, bits);
    assert f.Magnitude(bits) == Abs(x) && f.Neg(bits) == (x < 0.0);
    DeliversSigned(f, rm, x, Fp(bits, 0));
  }

  /** Trimming keeps every field, and flipping the sign bit changes nothing else. */
  lemma WithSignFields(f: Fmt, x: nat, flip: bool)
    ensures var y := WithSign(f, x, flip);
            y < Pow2(f.Bits()) && f.Field(y) == f.Field(x) && f.Frac(y) == f.Frac(x) &&
            f.Neg(y) == (f.Neg(x) != flip)
    ensures f.IsFinite(x) ==> var y := WithSign(f, x, flip);
            f.IsFinite(y) && f.Magnitude(y) == f.Magnitude(x) &&
            f.Value(y) == Signed(flip, f.Value(x))
  {
    hide Pow2, Dyadic;
    PackOfFields(f, x);
    PackFields(f, f.Neg(x) != flip, f.Field(x), f.Frac(x));
  }

  lemma MaskIsWithSign(f: Fmt, x: nat)
    ensures f.Mask(x) == WithSign(f, x, false)
  {
  }

  // ---------------------------------------------------------------------------------------
  // Sums, products, fused sums

  /** A finite pattern unpacks to a zero or to its value in m * 2^e form. */
  lemma UnpackFinite(f: Fmt, x: nat)
    requires f.IsFinite(x)
    ensures var (s, c) := Unpack(f, x);
            s == f.Neg(x) && (c.Zero? || c.Num?) && (c.Zero? <==> f.Value(x) == 0.0) &&
            (c.Num? ==> f.Value(x) == Signed(s, Dyadic(c.m, c.e)) && Dyadic(c.m, c.e) > 0.0)
  {
    hide Unpack, Dyadic, Pow2;
    UnpackValue(f, x);
  }

  /** add and sub return the correctly rounded sum of any two finite operands. */
  lemma AddOrSubCorrect(f: Fmt, a: nat, b: nat, rm: Rm, negateB: bool)
    requires f.IsFinite(a) && f.IsFinite(b)
    ensures Prescribed(f, rm, f.Value(a) + Signed(negateB, f.Value(b)),
                       if f.Neg(a) == (f.Neg(b) != negateB) then f.Neg(a) else ZeroSign(rm),
                       AddOrSub(f, a, b, rm, negateB))
  {
    hide Unpack, Dyadic, Pow2, Delivers, CorrectlyRounded, RoundSum, WithSign;
    UnpackFinite(f, a);
    UnpackFinite(f, b);
    var (sa, ca) := Unpack(f, a);
    var (sb, cb) := Unpack(f, b);
    var x := f.Value(a) + Signed(negateB, f.Value(b));
    var zero := if sa == (sb != negateB) then sa else ZeroSign(rm);
    if ca.Num? && cb.Num? {
      SignificandFits(f, ca.m);
      SignificandFits(f, cb.m);
      RoundSumPrescribed(f, rm, sa, ca.m, ca.e, sb != negateB, cb.m, cb.e);
    } else if ca.Zero? && cb.Num? {
      WithSignFields(f, b, negateB);
      PatternPrescribed(f, rm, WithSign(f, b, negateB), x, zero);
    } else if ca.Num? {
      WithSignFields(f, a, false);
      MaskIsWithSign(f, a);
      PatternPrescribed(f, rm, f.Mask(a), x, zero);
    }
  }

  lemma SignedProduct(f: Fmt, a: nat, b: nat, ma: int, ea: int, mb: int, eb: int)
    requires f.IsFinite(a) && f.IsFinite(b)
    requires f.Value(a) == Signed(f.Neg(a), Dyadic(ma, ea)) && f.Value(b) == Signed(f.Neg(b), Dyadic(mb, eb))
    ensures f.Value(a) * f.Value(b) == Signed(f.Neg(a) != f.Neg(b), Dyadic(ma * mb, ea + eb))
  {
    hide Pow2, Dyadic;
    DyadicMul(ma, ea, mb, eb);
    SignedMul(f.Neg(a), f.Neg(b), Dyadic(ma, ea), Dyadic(mb, eb));
  }

  lemma SignedMul(s: bool, t: bool, x: real, y: real)
    ensures Signed(s, x) * Signed(t, y) == Signed(s != t, x * y)
  {
  }

  /** mul returns the correctly rounded product of any two finite operands. */
  lemma MulCorrect(f: Fmt, a: nat, b: nat, rm: Rm)
    requires f.IsFinite(a) && f.IsFinite(b)
    ensures Prescribed(f, rm, f.Value(a) * f.Value(b), f.Neg(a) != f.Neg(b), Mul(f, a, b, rm))
  {
    hide Unpack, Dyadic, Pow2, Delivers, CorrectlyRounded, RoundPack, Prescribed;
    UnpackFinite(f, a);
    UnpackFinite(f, b);
    var (sa, ca) := Unpack(f, a);
    var (sb, cb) := Unpack(f, b);
    if ca.Num? && cb.Num? {
      ProductFits(f, ca.m, cb.m);
      SignedProduct(f, a, b, ca.m, ca.e, cb.m, cb.e);
      ExactPrescribed(f, rm, sa != sb, ca.m * cb.m, ca.e + cb.e, f.Value(a) * f.Value(b), sa != sb);
    } else {
      PrescribedZero(f, rm, f.Value(a) * f.Value(b), sa != sb);
    }
  }

  lemma PrescribedZero(f: Fmt, rm: Rm, x: real, neg: bool)
    requires x == 0.0
    ensures Prescribed(f, rm, x, neg, Fp(f.Zero(neg), 0))
  {
  }

  /** fma returns the single correct rounding of the exact +-(a * b) +- c, for all finite
      operands, every sign variant and every mode. */
  lemma FmaCorrect(f: Fmt, a: nat, b: nat, c: nat, negateProduct: bool, negateAddend: bool, rm: Rm)
    requires f.IsFinite(a) && f.IsFinite(b) && f.IsFinite(c)
    ensures var sp, sc := (f.Neg(a) != f.Neg(b)) != negateProduct, f.Neg(c) != negateAddend;
            Prescribed(f, rm, Signed(negateProduct, f.Value(a) * f.Value(b)) + Signed(negateAddend, f.Value(c)),
                       if sp == sc then sp else ZeroSign(rm),
                       Fma(f, a, b, c, negateProduct, negateAddend, rm))
  {
    hide Unpack, Dyadic, Pow2, Prescribed, RoundSum, RoundPack, WithSign;
    UnpackFinite(f, a);
    UnpackFinite(f, b);
    UnpackFinite(f, c);
    var ca, cb, cc := Unpack(f, a).1, Unpack(f, b).1, Unpack(f, c).1;
    if ca.Num? && cb.Num? {
      SignedProduct(f, a, b, ca.m, ca.e, cb.m, cb.e);
      FmaProduct(f, a, b, c, negateProduct, negateAddend, rm, f.Value(a) * f.Value(b));
    } else {
      ZeroProduct(f.Value(a), f.Value(b));
      FmaNoProduct(f, a, b, c, negateProduct, negateAddend, rm);
    }
  }

  lemma ZeroProduct(x: real, y: real)
    requires x == 0.0 || y == 0.0
    ensures x * y == 0.0
  {
  }

  lemma FmaProduct(f: Fmt, a: nat, b: nat, c: nat, negateProduct: bool, negateAddend: bool, rm: Rm, p: real)
    requires f.IsFinite(a) && f.IsFinite(b) && f.IsFinite(c)
    requires Unpack(f, a).1.Num? && Unpack(f, b).1.Num?
    requires var ca, cb := Unpack(f, a).1, Unpack(f, b).1;
             p == Signed(f.Neg(a) != f.Neg(b), Dyadic(ca.m * cb.m, ca.e + cb.e))
    ensures var sp, sc := (f.Neg(a) != f.Neg(b)) != negateProduct, f.Neg(c) != negateAddend;
            Prescribed(f, rm, Signed(negateProduct, p) + Signed(negateAddend, f.Value(c)),
                       if sp == sc then sp else ZeroSign(rm),
                       Fma(f, a, b, c, negateProduct, negateAddend, rm))
  {
    hide Unpack, Dyadic, Pow2, Delivers, CorrectlyRounded, RoundSum, RoundPack;
    UnpackFinite(f, a);
    UnpackFinite(f, b);
    UnpackFinite(f, c);
    var ca, cb, cc := Unpack(f, a).1, Unpack(f, b).1, Unpack(f, c).1;
    var sp, sc := (f.Neg(a) != f.Neg(b)) != negateProduct, f.Neg(c) != negateAddend;
    ProductFits(f, ca.m, cb.m);
    DyadicSign(ca.m * cb.m, ca.e + cb.e);
    if cc.Num? {
      SignificandFits(f, cc.m);
      RoundSumPrescribed(f, rm, sp, ca.m * cb.m, ca.e + cb.e, sc, cc.m, cc.e);
    } else {
      hide Prescribed;
      ExactPrescribed(f, rm, sp, ca.m * cb.m, ca.e + cb.e, Signed(negateProduct, p),
                      if sp == sc then sp else ZeroSign(rm));
    }
  }

  lemma FmaNoProduct(f: Fmt, a: nat, b: nat, c: nat, negateProduct: bool, negateAddend: bool, rm: Rm)
    requires f.IsFinite(a) && f.IsFinite(b) && f.IsFinite(c)
    requires Unpack(f, a).1.Zero? || Unpack(f, b).1.Zero?
    ensures var sp, sc := (f.Neg(a) != f.Neg(b)) != negateProduct, f.Neg(c) != negateAddend;
            Prescribed(f, rm, Signed(negateProduct, 0.0) + Signed(negateAddend, f.Value(c)),
                       if sp == sc then sp else ZeroSign(rm),
                       Fma(f, a, b, c, negateProduct, negateAddend, rm))
  {
    hide Unpack, Dyadic, Pow2, Prescribed, RoundSum, RoundPack, WithSign;
    UnpackFinite(f, a);
    UnpackFinite(f, b);
    UnpackFinite(f, c);
    var sp, sc := (f.Neg(a) != f.Neg(b)) != negateProduct, f.Neg(c) != negateAddend;
    var x := Signed(negateProduct, 0.0) + Signed(negateAddend, f.Value(c));
    var zero := if sp == sc then sp else ZeroSign(rm);
    if Unpack(f, c).1.Num? {
      WithSignFields(f, c, negateAddend);
      PatternPrescribed(f, rm, WithSign(f, c, negateAddend), x, zero);
    } else {
      PrescribedZero(f, rm, x, zero);
    }
  }

  // ---------------------------------------------------------------------------------------
  // Quotients

  lemma QuotientSide(n: int, h: int, d: nat, eb: int, num: nat, x: real)
    requires d > 0 && x * Dyadic(d, eb) == Dyadic(num, h + eb)
    ensures n * d < num <==> Dyadic(n, h) < x
    ensures n * d == num <==> Dyadic(n, h) == x
  {
    hide Dyadic;
    DyadicSign(d, eb);
    DyadicMul(n, h, d, eb);
    DyadicOrder(n * d, num, h + eb);
    CancelFactor(Dyadic(n, h), x, Dyadic(d, eb));
  }

  lemma CancelFactor(x: real, y: real, c: real)
    requires c > 0.0
    ensures x * c < y * c <==> x < y
    ensures x * c == y * c <==> x == y
  {
    if x < y { ScaleReal(x, y, c); }
    if y < x { ScaleReal(y, x, c); }
  }

  /** The truncated quotient with the remainder as its sticky bit is the round-to-odd of the
      exact quotient x. */
  lemma QuotientRoundOdd(d: nat, eb: int, num: nat, h: int, x: real)
    requires d > 0 && x * Dyadic(d, eb) == Dyadic(num, h + eb)
    ensures (DivBounds(num, d); RoundOdd(OrSticky(num / d, num % d != 0), h, Real(x)))
  {
    hide Dyadic;
    DivBounds(num, d);
    var q, r := num / d, num % d;
    assert (q - 1) * d == q * d - d && (q + 1) * d == q * d + d && (q + 2) * d == q * d + 2 * d;
    QuotientSide(q - 1, h, d, eb, num, x);
    QuotientSide(q, h, d, eb, num, x);
    QuotientSide(q + 1, h, d, eb, num, x);
    QuotientSide(q + 2, h, d, eb, num, x);
  }

  lemma SignedQuotient(x: real, y: real, s: bool, t: bool, z: real)
    requires y > 0.0 && z * y == x
    ensures Signed(s, x) / Signed(t, y) == Signed(s != t, z)
  {
    assert Signed(s != t, z) * Signed(t, y) == Signed(s, x);
  }

  /** div returns the correctly rounded quotient of any finite operand by any finite non-zero
      one; a non-zero over zero is an infinity and raises divide-by-zero alone. */
  lemma DivCorrect(f: Fmt, a: nat, b: nat, rm: Rm)
    requires f.IsFinite(a) && f.IsFinite(b)
    ensures f.Value(b) != 0.0 ==>
              Prescribed(f, rm, f.Value(a) / f.Value(b), f.Neg(a) != f.Neg(b), Div(f, a, b, rm))
    ensures f.Value(b) == 0.0 && f.Value(a) != 0.0 ==> Div(f, a, b, rm) == Fp(f.Inf(f.Neg(a) != f.Neg(b)), DZ)
    ensures f.Value(b) == 0.0 == f.Value(a) ==> Div(f, a, b, rm) == Fp(f.Nan(), NV)
  {
    hide Unpack, Dyadic, Pow2, RoundPack, Prescribed, OrSticky;
    UnpackFinite(f, a);
    UnpackFinite(f, b);
    var ca, cb := Unpack(f, a).1, Unpack(f, b).1;
    if ca.Num? && cb.Num? {
      DivNumbers(f, f.Neg(a), ca.m, ca.e, f.Neg(b), cb.m, cb.e, rm);
    } else if cb.Num? {
      PrescribedZero(f, rm, f.Value(a) / f.Value(b), f.Neg(a) != f.Neg(b));
    }
  }

  lemma DivNumbers(f: Fmt, sa: bool, ma: nat, ea: int, sb: bool, mb: nat, eb: int, rm: Rm)
    requires Pow2(f.Sig()) <= ma < Pow2(f.Sig() + 1) && Pow2(f.Sig()) <= mb < Pow2(f.Sig() + 1)
    requires Dyadic(mb, eb) > 0.0
    ensures (QuotientFits(f, ma, mb);
            var num := Shl(ma, 64);
            Prescribed(f, rm, Signed(sa, Dyadic(ma, ea)) / Signed(sb, Dyadic(mb, eb)), sa != sb,
                       RoundPack(f, sa != sb, OrSticky(num / mb, num % mb != 0), ea - eb - 64, rm)))
  {
    hide Dyadic, Pow2, RoundPack, Prescribed, RoundOdd, Exactly;
    QuotientFits(f, ma, mb);
    var num := Shl(ma, 64);
    var x := Dyadic(ma, ea) / Dyadic(mb, eb);
    Rescale(ma, ea, ea - 64);
    QuotientRoundOdd(mb, eb, num, ea - eb - 64, x);
    DyadicSign(ma, ea);
    SignedQuotient(Dyadic(ma, ea), Dyadic(mb, eb), sa, sb, x);
    FmtFacts(f);
    Pow2Mono(f.Sig() + 2, 63);
    RoundPackPrescribed(f, rm, sa != sb, OrSticky(num / mb, num % mb != 0), ea - eb - 64,
                        Signed(sa != sb, x), sa != sb);
  }
}
