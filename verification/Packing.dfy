/** `round_pack`: the one place a floating-point result is rounded and encoded. */
module Packing {
  import opened Arithmetic
  import opened Powers
  import opened FloatFormat
  import opened Rounding

  /** A result: the encoded pattern and the exception flags raised. */
  datatype Fp = Fp(bits: nat, flags: nat)

  /** m * 2^e stands for the exact magnitude x: it equals x, or it is odd and x lies strictly
      between its two even neighbours (round to odd). */
  ghost predicate RoundOdd(m: nat, e: int, x: Exact) {
    Exactly(m, e, x) ||
    (m % 2 == 1 && Offset(Dyadic(m - 1, e), x) < 0.0 < Offset(Dyadic(m + 1, e), x))
  }

  ghost predicate Exactly(m: nat, e: int, x: Exact) { Offset(Dyadic(m, e), x) == 0.0 }

  /** The pattern and flags IEEE 754 prescribes for an operation whose exact result has sign neg
      and magnitude m: round as if the exponent were unbounded above, then overflow or encode.
      Tininess is judged on the delivered value. */
  ghost predicate Delivers(f: Fmt, rm: Rm, neg: bool, m: Exact, out: Fp) {
    exists r: real :: RoundsMag(Format(f), DirOf(rm, neg), m, r) && Encodes(f, rm, neg, m, r, out)
  }

  ghost predicate Encodes(f: Fmt, rm: Rm, neg: bool, m: Exact, r: real, out: Fp) {
    if r >= TwoTo(f.Bias() + 1) then
      out == Fp(if DirOf(rm, neg).Truncate? then f.MaxFinite(neg) else f.Inf(neg), OF + NX)
    else
      out.bits < Pow2(f.Bits()) && f.IsFinite(out.bits) && f.Neg(out.bits) == neg &&
      f.Magnitude(out.bits) == r &&
      out.flags == if Offset(r, m) == 0.0 then 0 else if r < TwoTo(1 - f.Bias()) then NX + UF else NX
  }

  /** The same prescription over signed reals: out is what IEEE 754 delivers for the exact
      non-zero result x. */
  ghost predicate CorrectlyRounded(f: Fmt, rm: Rm, x: real, out: Fp) {
    exists y: real :: RoundsTo(Format(f), rm, x, y) && EncodesSigned(f, rm, x, y, out)
  }

  ghost predicate EncodesSigned(f: Fmt, rm: Rm, x: real, y: real, out: Fp) {
    if Abs(y) >= TwoTo(f.Bias() + 1) then
      out == Fp(if DirOf(rm, x < 0.0).Truncate? then f.MaxFinite(x < 0.0) else f.Inf(x < 0.0), OF + NX)
    else
      out.bits < Pow2(f.Bits()) && f.IsFinite(out.bits) && f.Neg(out.bits) == (x < 0.0) &&
      f.Value(out.bits) == y &&
      out.flags == if y == x then 0 else if Abs(y) < TwoTo(1 - f.Bias()) then NX + UF else NX
  }

  function Max(a: int, b: int): int { if a >= b then a else b }

  /** Drops the low d bits of m: the quotient, the first dropped bit and whether any lower
      dropped bit was set. At 128 or more places the guard bit is not looked at. */
  function Discard(m: u128, d: int): (nat, bool, bool)
    requires d >= 1
  {
    if d >= 128 then (0, false, true)
    else
      var low := Low(m, d);
      (Shr(m, d), Shr(low, d - 1) % 2 != 0, Low(low, d - 1) != 0)
  }

  /** The exponent of the result's least significant bit. */
  function ResultLsb(f: Fmt, m: u128, e: int): int {
    Max(BitLen(m) - 1 + e - f.Sig(), f.MinE())
  }

  /** Which way an overflow goes: to the infinity, or back to the largest finite value. */
  predicate ToInf(rm: Rm, sign: bool) {
    match rm
    case Rne => true
    case Rmm => true
    case Rtz => false
    case Rdn => sign
    case Rup => !sign
  }

  function Encode(f: Fmt, sign: bool, rm: Rm, q: nat, e: int, inexact: bool): Fp
    requires e >= f.MinE()
  {
    if q == 0 then Fp(f.Zero(sign), NX + UF)
    else
      var normal := Shr(q, f.Sig()) != 0;
      var field := if normal then e + f.Sig() + f.Bias() else 0;
      if field >= f.MaxField() then
        Fp(if ToInf(rm, sign) then f.Inf(sign) else f.MaxFinite(sign), OF + NX)
      else
        Fp(Pack(f, sign, field, Low(q, f.Sig())),
           if !inexact then 0 else if normal then NX else NX + UF)
  }

  /** Aligning a significand that loses nothing keeps it below 2^(sig + 1). */
  lemma ShiftFits(f: Fmt, m: u128, e: int)
    requires m > 0 && ResultLsb(f, m, e) <= e
    ensures e - ResultLsb(f, m, e) < 128
    ensures m * Pow2(e - ResultLsb(f, m, e)) < Pow2(f.Sig() + 1) <= Pow2(128)
  {
    FmtFacts(f);
    hide Pow2, BitLen;
    Pow2Mono(f.Sig() + 1, 128);
    ShiftBound(m, BitLen(m), e - ResultLsb(f, m, e), f.Sig() + 1);
  }

  /** m * 2^e at the result's scale: a quotient with its guard and sticky bits. */
  function Align(f: Fmt, m: u128, e: int): (nat, bool, bool)
    requires m > 0
  {
    var discard := ResultLsb(f, m, e) - e;
    if discard <= 0 then (ShiftFits(f, m, e); Shl(m, -discard), false, false) else Discard(m, discard)
  }

  function RoundPack(f: Fmt, sign: bool, m: u128, e: int, rm: Rm): Fp {
    if m == 0 then Fp(f.Zero(sign), 0)
    else
      var lsb := ResultLsb(f, m, e);
      var (q, guard, sticky) := Align(f, m, e);
      var rounded := if RoundUp(rm, sign, q, guard, sticky) then q + 1 else q;
      // A carry makes the significand the power of two above, whose low bit may be dropped.
      if Shr(rounded, f.Sig() + 1) != 0 then
        Encode(f, sign, rm, rounded / 2, lsb + 1, guard || sticky)
      else
        Encode(f, sign, rm, rounded, lsb, guard || sticky)
  }

  // ---------------------------------------------------------------------------------------

  lemma ShrZero(q: nat, k: nat)
    ensures Shr(q, k) != 0 <==> q >= Pow2(k)
    ensures q < Pow2(k) ==> Low(q, k) == q
    ensures Pow2(k) <= q < 2 * Pow2(k) ==> Low(q, k) == q - Pow2(k)
  {
    var p := Pow2(k);
    if q < p {
      DivModUnique(q, p, 0, q);
    } else {
      if q < 2 * p { DivModUnique(q, p, 1, q - p); }
    }
  }

  /** Encode writes down a canonical significand faithfully. */
  lemma EncodeCorrect(f: Fmt, sign: bool, rm: Rm, q: nat, e: int, inexact: bool, x: Exact)
    requires Canonical(Format(f), q, e)
    requires inexact <==> Offset(Dyadic(q, e), x) != 0.0
    requires q == 0 ==> inexact
    ensures Encodes(f, rm, sign, x, Dyadic(q, e), Encode(f, sign, rm, q, e, inexact))
  {
    hide Dyadic, Pow2, Offset, Encodes, Encode;
    if q >= Pow2(f.Sig()) {
      EncodeNormal(f, sign, rm, q, e, inexact, x);
    } else {
      EncodeSubnormal(f, sign, rm, q, e, inexact, x);
    }
  }

  /** A significand with its leading bit in place, past the largest exponent or not. */
  lemma EncodeNormal(f: Fmt, sign: bool, rm: Rm, q: nat, e: int, inexact: bool, x: Exact)
    requires Canonical(Format(f), q, e) && q >= Pow2(f.Sig()) && (inexact <==> Offset(Dyadic(q, e), x) != 0.0)
    ensures Encodes(f, rm, sign, x, Dyadic(q, e), Encode(f, sign, rm, q, e, inexact))
  {
    hide Dyadic, TwoTo, Pow2, Offset, Shr, Low, Pack, Fmt.Bits, Fmt.Neg, Fmt.Field, Fmt.Frac, Fmt.MaxFinite, Fmt.Inf;
    FmtFacts(f);
    ShrZero(q, f.Sig());
    DyadicPow(f.Sig(), e);
    DyadicOrder(q, Pow2(f.Sig()), e);
    DyadicPow(f.Sig() + 1, e);
    DyadicOrder(q, Pow2(f.Sig() + 1), e);
    TwoToOrder(e + f.Sig(), f.Bias() + 1);
    TwoToOrder(e + f.Sig() + 1, f.Bias() + 1);
    TwoToOrder(e + f.Sig(), 1 - f.Bias());
    if e + f.Sig() + f.Bias() < f.MaxField() {
      PackFields(f, sign, e + f.Sig() + f.Bias(), q - Pow2(f.Sig()));
    }
  }

  lemma EncodeSubnormal(f: Fmt, sign: bool, rm: Rm, q: nat, e: int, inexact: bool, x: Exact)
    requires Canonical(Format(f), q, e) && q < Pow2(f.Sig()) && (inexact <==> Offset(Dyadic(q, e), x) != 0.0)
    requires q == 0 ==> inexact
    ensures Encodes(f, rm, sign, x, Dyadic(q, e), Encode(f, sign, rm, q, e, inexact))
  {
    hide Dyadic, TwoTo, Pow2, Offset, Shr, Low, Fmt.Bits, Fmt.Neg, Fmt.Field, Fmt.Frac, Fmt.MaxFinite, Fmt.Inf;
    FmtFacts(f);
    ShrZero(q, f.Sig());
    DyadicPow(f.Sig(), e);
    DyadicOrder(q, Pow2(f.Sig()), e);
    TwoToOrder(1 - f.Bias(), f.Bias() + 1);
    PackFields(f, sign, 0, q);
  }

  // ---------------------------------------------------------------------------------------
  // A significand carrying a sticky bit determines where the exact value lies.

  lemma OddOrder(m: nat, e: int, x: Exact, n: nat)
    requires m > 0 && RoundOdd(m, e, x) && (n != m || Exactly(m, e, x))
    ensures n < m ==> Offset(Dyadic(n, e), x) < 0.0
    ensures n == m ==> Offset(Dyadic(n, e), x) == 0.0
    ensures n > m ==> Offset(Dyadic(n, e), x) > 0.0
  {
    hide Dyadic, Offset;
    DyadicSign(n, e);
    DyadicSign(m - 1, e);
    DyadicSign(m, e);
    DyadicSign(m + 1, e);
    DyadicOrder(n, m - 1, e);
    DyadicOrder(n, m, e);
    DyadicOrder(m + 1, n, e);
    var y := Dyadic(n, e);
    OffsetMonotone(y, Dyadic(m - 1, e), x);
    OffsetMonotone(y, Dyadic(m, e), x);
    OffsetMonotone(Dyadic(m, e), y, x);
    OffsetMonotone(Dyadic(m + 1, e), y, x);
  }

  /** The midpoint and ends of the interval that discarding d bits leaves, at the finer scale. */
  lemma Coarsen(q: nat, e: int, d: nat)
    requires d >= 1
    ensures var p := Pow2(d - 1);
            Dyadic(q, e + d) == Dyadic(q * (2 * p), e) &&
            Dyadic(q + 1, e + d) == Dyadic(q * (2 * p) + 2 * p, e) &&
            (Dyadic(q, e + d) + Dyadic(q + 1, e + d)) / 2.0 == Dyadic(q * (2 * p) + p, e)
  {
    Rescale(q, e + d, e);
    Rescale(q + 1, e + d, e);
    var p := Pow2(d - 1);
    assert Pow2(d) == 2 * p;
    hide Pow2, Dyadic;
    assert (q + 1) * (2 * p) == q * (2 * p) + 2 * p;
    DyadicAdd(q * (2 * p), q * (2 * p) + 2 * p, e);
    DyadicDoubleReal(q * (2 * p) + p, e);
  }

  lemma DyadicDoubleReal(m: int, e: int)
    ensures Dyadic(2 * m, e) == 2.0 * Dyadic(m, e)
  {
    DyadicAdd(m, m, e);
  }

  lemma PowHalves(d: nat)
    requires d >= 1
    ensures Pow2(d) == 2 * Pow2(d - 1)
    ensures d >= 2 ==> Pow2(d - 1) == 2 * Pow2(d - 2)
  {
  }

  lemma Regroup(q: nat, p: nat)
    ensures q * (2 * p) == 2 * (q * p)
  {
  }

  lemma LocateAt(m: nat, e: int, d: nat, q: nat, x: Exact, guard: bool, sticky: bool)
    requires m > 0 && d >= 1 && RoundOdd(m, e, x) && (Exactly(m, e, x) || d >= 2)
    requires var low := m - q * Pow2(d);
             0 <= low < Pow2(d) && (guard <==> low >= Pow2(d - 1)) &&
             (sticky <==> low != if guard then Pow2(d - 1) else 0)
    ensures Located(q, guard, sticky, e + d, x)
  {
    hide Pow2, Dyadic, Offset, Located, RoundOdd, Exactly;
    Coarsen(q, e, d);
    PowHalves(d);
    var p := Pow2(d - 1);
    if !Exactly(m, e, x) {
      InexactIsOdd(m, e, x);
      Regroup(q, p);
    }
    LocateBetween(m, e, q * (2 * p), p, x, guard, sticky, q, e + d);
  }

  lemma InexactIsOdd(m: nat, e: int, x: Exact)
    requires RoundOdd(m, e, x) && !Exactly(m, e, x)
    ensures m % 2 == 1
  {
    hide Dyadic, Offset;
  }

  /** The same with the multiples of the unit at the finer exponent, from a to a + 2p. */
  lemma LocateBetween(m: nat, e: int, a: nat, p: nat, x: Exact, guard: bool, sticky: bool, q: nat, u: int)
    requires m > 0 && RoundOdd(m, e, x) && (Exactly(m, e, x) || (a != m && a + p != m))
    requires a <= m < a + 2 * p && (guard <==> m >= a + p) && (sticky <==> m != if guard then a + p else a)
    requires Dyadic(q, u) == Dyadic(a, e) && Dyadic(q + 1, u) == Dyadic(a + 2 * p, e)
    requires (Dyadic(q, u) + Dyadic(q + 1, u)) / 2.0 == Dyadic(a + p, e)
    ensures Located(q, guard, sticky, u, x)
  {
    hide Dyadic, Offset, RoundOdd, Exactly;
    OddOrder(m, e, x, a);
    OddOrder(m, e, x, a + p);
    OddOrder(m, e, x, a + 2 * p);
  }

  lemma LowHalves(m: nat, d: nat)
    requires d >= 1
    ensures Shr(m, d) * Pow2(d) + Low(m, d) == m && Low(m, d) < Pow2(d)
    ensures Shr(Low(m, d), d - 1) % 2 != 0 <==> Low(m, d) >= Pow2(d - 1)
    ensures Low(Low(m, d), d - 1) ==
            if Low(m, d) >= Pow2(d - 1) then Low(m, d) - Pow2(d - 1) else Low(m, d)
  {
    var low := Low(m, d);
    ShrZero(low, d - 1);
    assert Pow2(d) == 2 * Pow2(d - 1);
    hide Pow2, Low;
    if Shr(low, d - 1) >= 2 { MulLe(2, Shr(low, d - 1), Pow2(d - 1)); }
  }

  /** The quotient, guard and sticky bits of a discard locate the exact value, also when m only
      stands for it, unless 2^127 or more is shifted right by exactly 128. */
  lemma DiscardLocates(m: u128, e: int, d: int, x: Exact)
    requires m > 0 && d >= 1 && RoundOdd(m, e, x) && (Exactly(m, e, x) || d >= 2)
    requires m < Pow2(127) || d != 128
    ensures var (q, guard, sticky) := Discard(m, d); Located(q, guard, sticky, e + d, x)
  {
    hide Pow2, Shr, Low, Located, RoundOdd, Exactly;
    if d < 128 {
      LowHalves(m, d);
      var (q, guard, sticky) := Discard(m, d);
      LocateAt(m, e, d, q, x, guard, sticky);
    } else {
      Pow2Of128();
      Pow2Mono(127, d - 1);
      if d > 128 { Pow2Mono(128, d - 1); }
      Pow2Mono(d - 1, d);
      LocateAt(m, e, d, 0, x, false, true);
    }
  }

  lemma AlignCanonical(f: Fmt, m: u128, e: int)
    requires m > 0
    ensures Canonical(Format(f), Align(f, m, e).0, ResultLsb(f, m, e))
  {
    FmtFacts(f);
    BitLenBound(m);
    var lsb := ResultLsb(f, m, e);
    hide Pow2, BitLen, Low, Shr;
    if lsb <= e {
      ShiftFits(f, m, e);
      hide Shl;
      if lsb != f.MinE() { ShlRange(m, e - lsb, f.Sig()); }
    } else if lsb - e < 128 {
      ShrRange(m, lsb - e, f.Sig());
      hide Shl;
    }
  }

  lemma ShlRange(m: nat, k: nat, s: nat)
    requires m > 0 && k == s + 1 - BitLen(m)
    ensures m * Pow2(k) >= Pow2(s)
  {
    var l := BitLen(m);
    Pow2Add(l - 1, k);
    hide Pow2;
    MulLe(Pow2(l - 1), m, Pow2(k));
  }

  lemma BitLenBound(m: u128)
    ensures BitLen(m) <= 128
  {
    Pow2Literals();
    BitLenLe(m, 128);
  }

  lemma ShrRange(m: nat, d: nat, s: nat)
    requires m > 0 && BitLen(m) - 1 - s <= d
    ensures Shr(m, d) < Pow2(s + 1)
    ensures d == BitLen(m) - 1 - s ==> Shr(m, d) >= Pow2(s)
  {
    var q, l := Shr(m, d), BitLen(m);
    Pow2Mono(l, s + 1 + d);
    Pow2Add(s + 1, d);
    Pow2Add(s, d);
    hide Pow2;
    if q >= Pow2(s + 1) { MulLe(Pow2(s + 1), q, Pow2(d)); }
    if d == l - 1 - s && q < Pow2(s) {
      MulLe(q + 1, Pow2(s), Pow2(d));
    }
  }

  /** A significand two bits too wide loses at least two. */
  lemma WideLosesTwo(f: Fmt, m: u128, e: int)
    requires m >= Pow2(f.Sig() + 2)
    ensures ResultLsb(f, m, e) - e >= 2
  {
    hide Pow2, BitLen, Fmt.MinE;
    if BitLen(m) < f.Sig() + 3 { Pow2Mono(BitLen(m), f.Sig() + 2); }
  }

  lemma AlignLocates(f: Fmt, m: u128, e: int, x: Exact)
    requires m > 0 && RoundOdd(m, e, x) && (Exactly(m, e, x) || m >= Pow2(f.Sig() + 2))
    requires m < Pow2(127) || ResultLsb(f, m, e) - e != 128
    ensures var (q, guard, sticky) := Align(f, m, e); Located(q, guard, sticky, ResultLsb(f, m, e), x)
  {
    hide Pow2, BitLen, ResultLsb, Dyadic, Offset, RoundOdd, Discard;
    var lsb := ResultLsb(f, m, e);
    if m >= Pow2(f.Sig() + 2) { WideLosesTwo(f, m, e); }
    if lsb <= e {
      ShiftFits(f, m, e);
      Rescale(m, e, lsb);
    } else {
      hide Exactly, Located, Shl;
      DiscardLocates(m, e, lsb - e, x);
    }
  }

  /** The main theorem of round_pack: for every significand that is the exact value, or that
      stands for it with at least sig + 3 significant bits, the result is the correct rounding
      in every mode, through the subnormal floor and overflow, with the right flags. */
  lemma RoundPackCorrect(f: Fmt, sign: bool, m: u128, e: int, rm: Rm, x: Exact)
    requires m > 0 && RoundOdd(m, e, x) && (Exactly(m, e, x) || m >= Pow2(f.Sig() + 2))
    requires m < Pow2(127) || ResultLsb(f, m, e) - e != 128
    ensures Delivers(f, rm, sign, x, RoundPack(f, sign, m, e, rm))
  {
    hide Dyadic, Located, RoundOdd, Exactly, Align, ResultLsb, RoundsMag, Delivers, RoundPack, Offset, Pow2, Canonical;
    var lsb := ResultLsb(f, m, e);
    var (q, guard, sticky) := Align(f, m, e);
    AlignCanonical(f, m, e);
    AlignLocates(f, m, e, x);
    LocatedRounds(Format(f), rm, sign, q, guard, sticky, lsb, x);
    RoundedInexact(m, e, rm, sign, q, guard, sticky, lsb, x);
    RoundPackAssembles(f, sign, m, e, rm, x);
  }

  lemma RoundPackAssembles(f: Fmt, sign: bool, m: u128, e: int, rm: Rm, x: Exact)
    requires m > 0
    requires var lsb := ResultLsb(f, m, e);
             var (q, guard, sticky) := Align(f, m, e);
             var r := if RoundUp(rm, sign, q, guard, sticky) then q + 1 else q;
             Canonical(Format(f), q, lsb) && RoundsMag(Format(f), DirOf(rm, sign), x, Dyadic(r, lsb)) &&
             ((guard || sticky) <==> Offset(Dyadic(r, lsb), x) != 0.0) && (r == 0 ==> guard || sticky)
    ensures Delivers(f, rm, sign, x, RoundPack(f, sign, m, e, rm))
  {
    hide Dyadic, Align, ResultLsb, RoundsMag, Encodes, Offset, Pow2, Shr, Encode;
    var lsb := ResultLsb(f, m, e);
    var (q, guard, sticky) := Align(f, m, e);
    var r := if RoundUp(rm, sign, q, guard, sticky) then q + 1 else q;
    PackRounded(f, sign, rm, r, lsb, guard || sticky, x);
  }

  /** The code's inexact bit says whether the rounded value differs from the exact one. */
  lemma RoundedInexact(m: nat, e: int, rm: Rm, sign: bool, q: nat, guard: bool, sticky: bool, u: int, x: Exact)
    requires Located(q, guard, sticky, u, x) && m > 0 && RoundOdd(m, e, x)
    ensures var r := if RoundUp(rm, sign, q, guard, sticky) then q + 1 else q;
            ((guard || sticky) <==> Offset(Dyadic(r, u), x) != 0.0) && (r == 0 ==> guard || sticky)
  {
    Straddle(q, u, x, guard, sticky);
    OddOrder(m, e, x, 0);
    DyadicSign(0, e);
    DyadicSign(0, u);
  }

  lemma PackRounded(f: Fmt, sign: bool, rm: Rm, rounded: nat, lsb: int, inexact: bool, x: Exact)
    requires lsb >= f.MinE() && rounded <= Pow2(f.Sig() + 1)
    requires rounded == Pow2(f.Sig() + 1) || Canonical(Format(f), rounded, lsb)
    requires inexact <==> Offset(Dyadic(rounded, lsb), x) != 0.0
    requires rounded == 0 ==> inexact
    ensures var out := if Shr(rounded, f.Sig() + 1) != 0
                       then Encode(f, sign, rm, rounded / 2, lsb + 1, inexact)
                       else Encode(f, sign, rm, rounded, lsb, inexact);
            Encodes(f, rm, sign, x, Dyadic(rounded, lsb), out)
  {
    FmtFacts(f);
    hide Dyadic, Low, Encodes, Encode, Pow2, Offset, TwoTo;
    ShrZero(rounded, f.Sig() + 1);
    hide Shr;
    if rounded == Pow2(f.Sig() + 1) {
      DyadicDouble(Pow2(f.Sig()), lsb);
      EncodeCorrect(f, sign, rm, Pow2(f.Sig()), lsb + 1, inexact, x);
    } else {
      EncodeCorrect(f, sign, rm, rounded, lsb, inexact, x);
    }
  }

  lemma EncodesBothWays(f: Fmt, rm: Rm, x: real, r: real, out: Fp)
    requires x != 0.0 && r >= 0.0
    ensures Encodes(f, rm, x < 0.0, Real(Abs(x)), r, out) <==>
            EncodesSigned(f, rm, x, if x < 0.0 then -r else r, out)
  {
    hide TwoTo, Pow2;
  }

  lemma DeliversSigned(f: Fmt, rm: Rm, x: real, out: Fp)
    requires x != 0.0 && Delivers(f, rm, x < 0.0, Real(Abs(x)), out)
    ensures CorrectlyRounded(f, rm, x, out)
  {
    var r :| RoundsMag(Format(f), DirOf(rm, x < 0.0), Real(Abs(x)), r) &&
             Encodes(f, rm, x < 0.0, Real(Abs(x)), r, out);
    hide RoundsMag, RoundsTo, Rep, TwoTo, Pow2, Dyadic;
    MagnitudeRoundsTo(Format(f), rm, x, r);
    RepNonNegative(Format(f), r);
    EncodesBothWays(f, rm, x, r, out);
    hide Encodes, EncodesSigned;
  }

  // ---------------------------------------------------------------------------------------
  // The prescription determines the pattern and the flags.

  lemma MagnitudeCanonical(f: Fmt, x: nat) returns (n: nat, k: int)
    requires f.IsFinite(x)
    ensures Canonical(Format(f), n, k) && f.Magnitude(x) == Dyadic(n, k)
    ensures if f.Field(x) == 0 then n == f.Frac(x) && k == f.MinE()
            else n == Pow2(f.Sig()) + f.Frac(x) && k == f.Field(x) - f.Bias() - f.Sig()
    ensures n < Pow2(f.Sig()) <==> f.Field(x) == 0
  {
    FmtFacts(f);
    PackOfFields(f, x);
    hide Pow2, Dyadic;
    if f.Field(x) == 0 {
      n, k := f.Frac(x), f.MinE();
    } else {
      n, k := Pow2(f.Sig()) + f.Frac(x), f.Field(x) - f.Bias() - f.Sig();
    }
  }

  /** A finite pattern is determined by its sign and the magnitude it denotes. */
  lemma PatternUnique(f: Fmt, x: nat, y: nat)
    requires f.IsFinite(x) && f.IsFinite(y) && f.Neg(x) == f.Neg(y) && f.Magnitude(x) == f.Magnitude(y)
    ensures f.Mask(x) == f.Mask(y)
  {
    var n, k := MagnitudeCanonical(f, x);
    var p, l := MagnitudeCanonical(f, y);
    CanonicalUnique(Format(f), n, k, p, l);
    PackOfFields(f, x);
    PackOfFields(f, y);
  }

  lemma DeliversUnique(f: Fmt, rm: Rm, neg: bool, m: Exact, a: Fp, b: Fp)
    requires Delivers(f, rm, neg, m, a) && Delivers(f, rm, neg, m, b)
    ensures a == b
  {
    hide RoundsMag, Encodes;
    var r :| RoundsMag(Format(f), DirOf(rm, neg), m, r) && Encodes(f, rm, neg, m, r, a);
    var s :| RoundsMag(Format(f), DirOf(rm, neg), m, s) && Encodes(f, rm, neg, m, s, b);
    RoundsMagUnique(Format(f), DirOf(rm, neg), m, r, s);
    EncodesUnique(f, rm, neg, m, r, a, b);
  }

  lemma EncodesUnique(f: Fmt, rm: Rm, neg: bool, m: Exact, r: real, a: Fp, b: Fp)
    requires Encodes(f, rm, neg, m, r, a) && Encodes(f, rm, neg, m, r, b)
    ensures a == b
  {
    hide Offset, TwoTo, Pow2, Fmt.Field, Fmt.Frac, Fmt.Neg, Fmt.Magnitude, Fmt.Inf, Fmt.MaxFinite;
    if r < TwoTo(f.Bias() + 1) {
      PatternUnique(f, a.bits, b.bits);
      SmallMod(a.bits, Pow2(f.Bits()));
      SmallMod(b.bits, Pow2(f.Bits()));
    }
  }

  // ---------------------------------------------------------------------------------------
  // Significands of 2^127 and more.

  /** Where the guard bit that a 128-place discard skips would have mattered. */
  predicate SkipsGuard(f: Fmt, m: u128, e: int, rm: Rm) {
    ResultLsb(f, m, e) - e == 128 && m >= Pow2(127) && (rm.Rmm? || (rm.Rne? && m > Pow2(127)))
  }

  /** round_pack on an exact significand is correct if and only if it skips no guard bit it
      needed; every caller stays below 2^127. */
  lemma RoundPackExactly(f: Fmt, sign: bool, m: u128, e: int, rm: Rm)
    requires m > 0
    ensures Delivers(f, rm, sign, Real(Dyadic(m, e)), RoundPack(f, sign, m, e, rm)) <==> !SkipsGuard(f, m, e, rm)
  {
    var x := Real(Dyadic(m, e));
    if m < Pow2(127) || ResultLsb(f, m, e) - e != 128 {
      RoundPackCorrect(f, sign, m, e, rm, x);
    } else {
      WideTie(f, sign, m, e, rm);
    }
  }

  lemma WideLocated(m: u128, e: int)
    requires m >= Pow2(127)
    ensures Located(0, true, m != Pow2(127), e + 128, Real(Dyadic(m, e)))
  {
    Pow2Literals();
    assert 2 * Pow2(127) == Pow2(128);
    hide Pow2, Located;
    assert Exactly(m, e, Real(Dyadic(m, e)));
    hide Exactly;
    LocateAt(m, e, 128, 0, Real(Dyadic(m, e)), true, m != Pow2(127));
  }

  lemma WideLsb(f: Fmt, m: u128, e: int)
    requires ResultLsb(f, m, e) - e == 128
    ensures ResultLsb(f, m, e) == e + 128 == f.MinE()
  {
    hide Pow2, BitLen, Fmt.MinE;
    BitLenBound(m);
    FmtFacts(f);
  }

  lemma WideAlign(f: Fmt, m: u128, e: int)
    requires m > 0 && ResultLsb(f, m, e) - e == 128
    ensures Align(f, m, e) == (0, false, true)
  {
    hide ResultLsb, Pow2;
  }

  lemma NoCarry(f: Fmt, q: nat)
    requires q <= 1
    ensures Shr(q, f.Sig() + 1) == 0
  {
    Pow2Mono(1, f.Sig());
    assert Pow2(1) == 2;
    hide Pow2;
    Pow2Next(f.Sig());
    ShrZero(q, f.Sig() + 1);
  }

  /** What the code returns there: it rounds as if the guard bit were clear. */
  lemma WideResult(f: Fmt, sign: bool, m: u128, e: int, rm: Rm)
    requires m >= Pow2(127) && ResultLsb(f, m, e) - e == 128
    ensures e + 128 == f.MinE()
    ensures RoundPack(f, sign, m, e, rm) ==
            Encode(f, sign, rm, if RoundUp(rm, sign, 0, false, true) then 1 else 0, e + 128, true)
  {
    hide Pow2, Encode, Align, Shr, ResultLsb, Fmt.MinE, Fmt.Sig, RoundUp;
    WideLsb(f, m, e);
    WideAlign(f, m, e);
    NoCarry(f, 0);
    NoCarry(f, 1);
  }

  lemma SkipsMeans(f: Fmt, sign: bool, m: u128, e: int, rm: Rm)
    requires m >= Pow2(127) && ResultLsb(f, m, e) - e == 128
    ensures SkipsGuard(f, m, e, rm) <==> RoundUp(rm, sign, 0, true, m != Pow2(127)) != RoundUp(rm, sign, 0, false, true)
  {
    hide ResultLsb, Pow2;
  }

  lemma ExactlyItself(m: nat, e: int)
    ensures Exactly(m, e, Real(Dyadic(m, e)))
  {
    hide Dyadic;
  }

  lemma WideTie(f: Fmt, sign: bool, m: u128, e: int, rm: Rm)
    requires m >= Pow2(127) && ResultLsb(f, m, e) - e == 128
    ensures Delivers(f, rm, sign, Real(Dyadic(m, e)), RoundPack(f, sign, m, e, rm)) <==> !SkipsGuard(f, m, e, rm)
  {
    hide Dyadic, Located, RoundsMag, Offset, Pow2, Encode, ResultLsb, RoundPack, Delivers, SkipsGuard, Exactly;
    ExactlyItself(m, e);
    SkipsMeans(f, sign, m, e, rm);
    WideLocated(m, e);
    WideResult(f, sign, m, e, rm);
    WideOutcome(f, sign, m, e, rm, Real(Dyadic(m, e)), e + 128, m != Pow2(127));
  }

  lemma WideSame(f: Fmt, sign: bool, m: nat, e: int, rm: Rm, x: Exact, lsb: int, sticky: bool)
    requires m > 0 && RoundOdd(m, e, x) && lsb == f.MinE() && Located(0, true, sticky, lsb, x)
    ensures var up := RoundUp(rm, sign, 0, true, sticky);
            Delivers(f, rm, sign, x, Encode(f, sign, rm, if up then 1 else 0, lsb, true))
  {
    hide Dyadic, Located, RoundsMag, Offset, Pow2, Encode, Canonical, Encodes, RoundOdd, RoundUp;
    WideCanonical(f, lsb);
    LocatedRounds(Format(f), rm, sign, 0, true, sticky, lsb, x);
    RoundedInexact(m, e, rm, sign, 0, true, sticky, lsb, x);
    EncodeCorrect(f, sign, rm, if RoundUp(rm, sign, 0, true, sticky) then 1 else 0, lsb, true, x);
  }

  lemma WideDiffers(f: Fmt, sign: bool, rm: Rm, x: Exact, lsb: int, sticky: bool)
    requires lsb == f.MinE() && Located(0, true, sticky, lsb, x)
    requires RoundUp(rm, sign, 0, true, sticky) && !RoundUp(rm, sign, 0, false, true)
    ensures !Delivers(f, rm, sign, x, Encode(f, sign, rm, 0, lsb, true))
  {
    hide Dyadic, Located, RoundsMag, Offset, Pow2, Encode, Canonical, Delivers, RoundUp;
    WideCanonical(f, lsb);
    LocatedRounds(Format(f), rm, sign, 0, true, sticky, lsb, x);
    ZeroEncoding(f, sign, rm, lsb);
    NotZero(f, rm, sign, x, lsb, Encode(f, sign, rm, 0, lsb, true));
  }

  lemma WideOutcome(f: Fmt, sign: bool, m: nat, e: int, rm: Rm, x: Exact, lsb: int, sticky: bool)
    requires m > 0 && RoundOdd(m, e, x) && lsb == f.MinE() && Located(0, true, sticky, lsb, x)
    ensures var up := RoundUp(rm, sign, 0, false, true);
            Delivers(f, rm, sign, x, Encode(f, sign, rm, if up then 1 else 0, lsb, true)) <==>
            RoundUp(rm, sign, 0, true, sticky) == up
  {
    hide Located, Encode, Delivers, RoundOdd;
    WideSame(f, sign, m, e, rm, x, lsb, sticky);
    if RoundUp(rm, sign, 0, true, sticky) != RoundUp(rm, sign, 0, false, true) {
      WideDiffers(f, sign, rm, x, lsb, sticky);
    }
  }

  lemma ZeroEncoding(f: Fmt, sign: bool, rm: Rm, e: int)
    requires e >= f.MinE()
    ensures Encode(f, sign, rm, 0, e, true) == Fp(f.Zero(sign), NX + UF)
  {
  }

  lemma WideCanonical(f: Fmt, lsb: int)
    requires lsb == f.MinE()
    ensures Canonical(Format(f), 0, lsb) && Canonical(Format(f), 1, lsb)
  {
    Pow2Mono(1, f.Sig() + 1);
  }

  lemma ZeroPattern(f: Fmt, sign: bool)
    ensures f.Zero(sign) < Pow2(f.Bits()) && f.IsFinite(f.Zero(sign)) && f.Neg(f.Zero(sign)) == sign
    ensures f.Magnitude(f.Zero(sign)) == 0.0
  {
    hide Pow2, Dyadic, Fmt.Neg, Fmt.Field, Fmt.Frac;
    FmtFacts(f);
    PackFields(f, sign, 0, 0);
    DyadicSign(0, f.MinE());
  }

  lemma NotZero(f: Fmt, rm: Rm, sign: bool, x: Exact, lsb: int, out: Fp)
    requires lsb >= f.MinE() && RoundsMag(Format(f), DirOf(rm, sign), x, Dyadic(1, lsb))
    requires out == Fp(f.Zero(sign), NX + UF)
    ensures !Delivers(f, rm, sign, x, out)
  {
    if Delivers(f, rm, sign, x, out) {
      var r :| RoundsMag(Format(f), DirOf(rm, sign), x, r) && Encodes(f, rm, sign, x, r, out);
      hide RoundsMag, Pow2, Dyadic, TwoTo, Offset;
      RoundsMagUnique(Format(f), DirOf(rm, sign), x, r, Dyadic(1, lsb));
      DyadicSign(1, lsb);
      ZeroPattern(f, sign);
    }
  }

  /** The last step: the pattern and flags for a significand that has been rounded. */
  method EncodeInPlace(f: Fmt, sign: bool, rm: Rm, q: nat, eOut: int, inexact: bool) returns (bits: nat, flags: nat)
    requires eOut >= f.MinE()
    ensures Fp(bits, flags) == Encode(f, sign, rm, q, eOut, inexact)
  {
    hide Pow2, Shr, Low, ToInf;
    if q == 0 {
      return f.Zero(sign), NX + UF;
    }
    var normal := Shr(q, f.Sig()) != 0;
    var field := if normal then eOut + f.Sig() + f.Bias() else 0;
    if field >= f.MaxField() {
      return if ToInf(rm, sign) then f.Inf(sign) else f.MaxFinite(sign), OF + NX;
    }
    flags := 0;
    if inexact {
      flags := NX;
      if !normal {
        flags := flags + UF;
      }
    }
    bits := Pack(f, sign, field, Low(q, f.Sig()));
  }

  /** The same computation in the code's own imperative form. */
  method RoundPackInPlace(f: Fmt, sign: bool, m: u128, e: int, rm: Rm) returns (bits: nat, flags: nat)
    ensures Fp(bits, flags) == RoundPack(f, sign, m, e, rm)
  {
    hide Pow2, BitLen, Shr, Low, Encode, RoundUp, Discard, Shl;
    if m == 0 {
      return f.Zero(sign), 0;
    }
    var lsb := ResultLsb(f, m, e);
    var q, guard, sticky;
    if lsb - e <= 0 {
      ShiftFits(f, m, e);
      q, guard, sticky := Shl(m, e - lsb), false, false;
    } else {
      var dropped := Discard(m, lsb - e);
      q, guard, sticky := dropped.0, dropped.1, dropped.2;
    }
    assert (q, guard, sticky) == Align(f, m, e);
    hide Align;
    var inexact := guard || sticky;
    if RoundUp(rm, sign, q, guard, sticky) {
      q := q + 1;
    }
    var eOut := lsb;
    if Shr(q, f.Sig() + 1) != 0 {
      q := q / 2;
      eOut := eOut + 1;
    }
    bits, flags := EncodeInPlace(f, sign, rm, q, eOut, inexact);
  }

  /** A significand that does: in single precision, one just above half the least subnormal, which
      rounding to nearest should take up to it, comes back as zero. */
  lemma SkippedGuard()
    ensures var m, e := 0x8000_0000_0000_0000_0000_0000_0000_0001, -277;
            SkipsGuard(S, m, e, Rne) && RoundPack(S, false, m, e, Rne) == Fp(0, NX + UF) &&
            !Delivers(S, Rne, false, Real(Dyadic(m, e)), RoundPack(S, false, m, e, Rne))
  {
    var m: u128, e := 0x8000_0000_0000_0000_0000_0000_0000_0001, -277;
    SingleFacts();
    Top();
    hide Pow2, Dyadic, RoundPack, Delivers, BitLen, Encode;
    BitLenIs(m, 128);
    RoundPackExactly(S, false, m, e, Rne);
    WideResult(S, false, m, e, Rne);
    EncodeNothing();
  }

  lemma SingleFacts()
    ensures S.MinE() == -149
  {
    assert Pow2(7) == 128;
  }

  lemma Top()
    ensures Pow2(127) == 0x8000_0000_0000_0000_0000_0000_0000_0000
    ensures Pow2(128) == 0x1_0000_0000_0000_0000_0000_0000_0000_0000
  {
    Pow2Literals();
  }

  lemma EncodeNothing()
    ensures Encode(S, false, Rne, 0, S.MinE(), true) == Fp(0, NX + UF)
  {
    hide Pow2;
  }
}
