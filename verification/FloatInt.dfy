/** Conversions between floating point and integers. */
module FloatInt {
  import opened Arithmetic
  import opened Powers
  import opened FloatFormat
  import opened Rounding
  import opened Packing
  import opened Sums
  import opened FloatOps
  import opened FloatCorrect
  import opened FloatLaws

  /** The integer magnitude m * 2^e rounds to, and whether anything was lost. */
  function RoundToInt(m: u128, e: int, sign: bool, rm: Rm): (nat, bool)
    requires e >= 0 ==> e < 128 && m * Pow2(e) < Pow2(128)
  {
    if e >= 0 then (Shl(m, e), false)
    else
      var (q, guard, sticky) := Discard(m, -e);
      (if RoundUp(rm, sign, q, guard, sticky) then q + 1 else q, guard || sticky)
  }

  function MaxPos(width: nat, signed: bool): nat
    requires width >= 1
  {
    Pow2(if signed then width - 1 else width) - 1
  }

  /** The least integer of the target, as a negated magnitude. */
  function MinInt(width: nat, signed: bool): int
    requires width >= 1
  {
    if signed then Minus(Pow2(width - 1)) else 0
  }

  function Minus(n: nat): int { 0 - n }

  /** An integer as a 64-bit register pattern in two's complement. */
  function Word(n: int): nat { n % 0x1_0000_0000_0000_0000 }

  /** A rounded magnitude with its sign, or the bound it exceeds. */
  function Saturated(q: nat, inexact: bool, sign: bool, width: nat, signed: bool): Fp
    requires width >= 1
  {
    if sign then
      if Minus(q) < MinInt(width, signed) then Fp(Word(MinInt(width, signed)), NV)
      else Fp(Word(Minus(q)), if inexact then NX else 0)
    else
      if q > MaxPos(width, signed) then Fp(Word(MaxPos(width, signed)), NV)
      else Fp(Word(q), if inexact then NX else 0)
  }

  /** A float as an integer of the given width, saturating when it does not fit. */
  function ToInt(f: Fmt, a: nat, width: nat, signed: bool, rm: Rm): Fp
    requires 1 <= width <= 64
  {
    SmallShifts(f, a);
    var (sign, c) := Unpack(f, a);
    var maxPos, minInt := MaxPos(width, signed), MinInt(width, signed);
    var pos, neg := Fp(Word(maxPos), NV), Fp(Word(minInt), NV);
    match c
    case Nan(_) => pos
    case Inf => if sign then neg else pos
    case Zero => Fp(0, 0)
    case Num(m, e) =>
      if e >= 0 && BitLen(m) + e > 127 then if sign then neg else pos
      else
        var (q, inexact) := RoundToInt(m, e, sign, rm);
        Saturated(q, inexact, sign, width, signed)
  }

  /** A left shift that keeps the result below 2^127 loses nothing. */
  lemma SmallShift(m: u128, e: int)
    requires 0 < m && (e >= 0 ==> BitLen(m) + e <= 127)
    ensures e >= 0 ==> e < 128 && m * Pow2(e) < Pow2(127) < Pow2(128)
  {
    var l := BitLen(m);
    hide Pow2, BitLen;
    Pow2Strict(127, 128);
    if e >= 0 { ShiftBound(m, l, e, 127); }
  }

  lemma SmallShifts(f: Fmt, a: nat)
    ensures var c := Unpack(f, a).1;
            c.Num? ==>
              (0 < c.m < Pow2(127) < Pow2(128) == 0x1_0000_0000_0000_0000_0000_0000_0000_0000 &&
               (c.e >= 0 && BitLen(c.m) + c.e <= 127 ==> c.e < 128 && c.m * Pow2(c.e) < Pow2(127)))
  {
    hide Pow2, BitLen, Unpack;
    var c := Unpack(f, a).1;
    if c.Num? {
      SignificandFits(f, c.m);
      if c.e >= 0 && BitLen(c.m) + c.e <= 127 { SmallShift(c.m, c.e); }
    }
  }

  /** A signed integer, given by sign and magnitude, as a float. */
  function FromInt(f: Fmt, sign: bool, magnitude: u128, rm: Rm): Fp {
    RoundPack(f, sign, magnitude, 0, rm)
  }

  // ---------------------------------------------------------------------------------------

  lemma WholeDyadic(n: int)
    ensures Dyadic(n, 0) == n as real
  {
    TwoToZero();
  }

  /** round_to_int is the correct rounding to an integer, with its inexact bit. */
  lemma RoundToIntCorrect(m: u128, e: int, sign: bool, rm: Rm)
    requires 0 < m < Pow2(127) && (e >= 0 ==> e < 128 && m * Pow2(e) < Pow2(128))
    ensures var (q, inexact) := RoundToInt(m, e, sign, rm);
            RoundsMag(Whole, DirOf(rm, sign), Real(Dyadic(m, e)), q as real) &&
            (inexact <==> q as real != Dyadic(m, e))
  {
    hide Pow2, Dyadic, RoundsMag, Located, Discard;
    var x := Real(Dyadic(m, e));
    assert Exactly(m, e, x);
    if e >= 0 {
      Rescale(m, e, 0);
      WholeDyadic(m * Pow2(e));
      Witness(Whole, m * Pow2(e), 0);
      RepRoundsToItself(Whole, DirOf(rm, sign), Dyadic(m, e));
    } else {
      DiscardLocates(m, e, -e, x);
      var (q, guard, sticky) := Discard(m, -e);
      LocatedRounds(Whole, rm, sign, q, guard, sticky, 0, x);
      RoundedInexact(m, e, rm, sign, q, guard, sticky, 0, x);
      WholeDyadic(if RoundUp(rm, sign, q, guard, sticky) then q + 1 else q);
    }
  }

  /** The integers of a width: 0 up to 2^width, or -2^(width - 1) up to 2^(width - 1). */
  predicate Fits(width: nat, signed: bool, n: int)
    requires width >= 1
  {
    if signed then Minus(Pow2(width - 1)) <= n < Pow2(width - 1) else 0 <= n < Pow2(width)
  }

  /** n, rounded from x, if it fits, with inexact when it differs, and otherwise the nearer end of the
      range with invalid alone. */
  ghost predicate Saturates(width: nat, signed: bool, x: real, n: int, out: Fp)
    requires width >= 1
  {
    if Fits(width, signed, n) then out == Fp(Word(n), if n as real == x then 0 else NX)
    else
      out.flags == NV &&
      exists k: int :: Fits(width, signed, k) && !Fits(width, signed, if x < 0.0 then k - 1 else k + 1) &&
                       out.bits == Word(k)
  }

  /** The two bounds the code computes are the ends of the range. */
  lemma RangeEnds(width: nat, signed: bool, n: int)
    requires width >= 1
    ensures Fits(width, signed, n) <==> MinInt(width, signed) <= n <= MaxPos(width, signed)
    ensures MinInt(width, signed) <= 0 <= MaxPos(width, signed)
  {
  }

  lemma SaturatesAt(width: nat, signed: bool, x: real, n: int, out: Fp)
    requires width >= 1
    ensures Saturates(width, signed, x, n, out) <==>
            out == if MinInt(width, signed) <= n <= MaxPos(width, signed)
                   then Fp(Word(n), if n as real == x then 0 else NX)
                   else Fp(Word(if x < 0.0 then MinInt(width, signed) else MaxPos(width, signed)), NV)
  {
    hide Word, Pow2;
    RangeEnds(width, signed, n);
    var k := if x < 0.0 then MinInt(width, signed) else MaxPos(width, signed);
    RangeEnds(width, signed, k);
    RangeEnds(width, signed, if x < 0.0 then k - 1 else k + 1);
    if Saturates(width, signed, x, n, out) && !Fits(width, signed, n) {
      var j: int :| Fits(width, signed, j) && !Fits(width, signed, if x < 0.0 then j - 1 else j + 1) &&
                    out.bits == Word(j);
      RangeEnds(width, signed, j);
      RangeEnds(width, signed, if x < 0.0 then j - 1 else j + 1);
    }
  }

  /** The integer n is a correct conversion of x. */
  ghost predicate Converts(width: nat, signed: bool, rm: Rm, x: real, n: int, out: Fp)
    requires width >= 1
  {
    RoundsTo(Whole, rm, x, n as real) && Saturates(width, signed, x, n, out)
  }

  /** An integer fits exactly when it is the reading, unsigned or in two's complement, of a pattern of
      that width. */
  lemma FitsIsReading(width: nat, signed: bool, n: int)
    requires width >= 1
    ensures Fits(width, signed, n) <==>
            exists p: nat :: p < Pow2(width) && n == Reading(width, signed, p)
  {
    if Fits(width, signed, n) {
      var p: nat := if n < 0 then n + Pow2(width) else n;
      assert p < Pow2(width) && n == Reading(width, signed, p);
    }
  }

  function Reading(width: nat, signed: bool, p: nat): int
    requires width >= 1
  {
    if signed && p >= Pow2(width - 1) then p - Pow2(width) else p
  }

  lemma MagnitudeConverts(m: nat, e: int, sign: bool, rm: Rm, q: nat)
    requires m > 0 && RoundsMag(Whole, DirOf(rm, sign), Real(Dyadic(m, e)), q as real)
    ensures RoundsTo(Whole, rm, Signed(sign, Dyadic(m, e)), (if sign then Minus(q) else q) as real)
  {
    hide RoundsMag, RoundsTo, Dyadic;
    DyadicSign(m, e);
    MagnitudeRoundsTo(Whole, rm, Signed(sign, Dyadic(m, e)), q as real);
  }

  lemma HugeMagnitude(m: nat, e: int, width: nat, signed: bool)
    requires m > 0 && e >= 0 && BitLen(m) + e > 127 && 1 <= width <= 64
    ensures m * Pow2(e) > MaxPos(width, signed) && Minus(m * Pow2(e)) < MinInt(width, signed)
  {
    hide Pow2;
    var l := BitLen(m);
    hide BitLen;
    Pow2Add(l - 1, e);
    Pow2Mono(127, l - 1 + e);
    MulLe(Pow2(l - 1), m, Pow2(e));
    Pow2Mono(width, 64);
    Pow2Mono(width - 1, 64);
    Pow2Strict(64, 127);
  }

  /** to_int converts every finite value correctly, in every mode, at every width. */
  lemma ToIntCorrect(f: Fmt, a: nat, width: nat, signed: bool, rm: Rm)
    requires f.IsFinite(a) && 1 <= width <= 64
    ensures exists n: int :: Converts(width, signed, rm, f.Value(a), n, ToInt(f, a, width, signed, rm))
  {
    hide Pow2, Dyadic, Unpack, Converts, BitLen, RoundToInt, Saturated, MaxPos, MinInt, Word;
    UnpackFinite(f, a);
    SmallShifts(f, a);
    var (sign, c) := Unpack(f, a);
    if c.Zero? {
      ZeroConverts(width, signed, rm);
      assert Converts(width, signed, rm, f.Value(a), 0, ToInt(f, a, width, signed, rm));
    } else if c.e >= 0 && BitLen(c.m) + c.e > 127 {
      var n := HugeConverts(c.m, c.e, sign, width, signed, rm);
      assert Converts(width, signed, rm, f.Value(a), n, ToInt(f, a, width, signed, rm));
    } else {
      var n := RoundedConverts(c.m, c.e, sign, width, signed, rm);
      assert Converts(width, signed, rm, f.Value(a), n, ToInt(f, a, width, signed, rm));
    }
  }

  /** A magnitude of 2^127 and more is out of range. */
  lemma HugeConverts(m: u128, e: nat, sign: bool, width: nat, signed: bool, rm: Rm) returns (n: int)
    requires m > 0 && BitLen(m) + e > 127 && 1 <= width <= 64
    ensures Converts(width, signed, rm, Signed(sign, Dyadic(m, e)), n,
                     Fp(Word(if sign then MinInt(width, signed) else MaxPos(width, signed)), NV))
  {
    hide Pow2, Dyadic, BitLen, MaxPos, MinInt, Word, RoundsTo, Saturates;
    DyadicSign(m, e);
    HugeMagnitude(m, e, width, signed);
    HugeRounds(m, e, sign, rm);
    BoundsApart(width, signed);
    n := if sign then Minus(m * Pow2(e)) else m * Pow2(e);
    SaturatesAt(width, signed, Signed(sign, Dyadic(m, e)), n,
                Fp(Word(if sign then MinInt(width, signed) else MaxPos(width, signed)), NV));
  }

  lemma RoundedConverts(m: u128, e: int, sign: bool, width: nat, signed: bool, rm: Rm) returns (n: int)
    requires 0 < m < Pow2(127) && (e >= 0 ==> e < 128 && m * Pow2(e) < Pow2(128)) && 1 <= width <= 64
    ensures var (q, inexact) := RoundToInt(m, e, sign, rm);
            Converts(width, signed, rm, Signed(sign, Dyadic(m, e)), n, Saturated(q, inexact, sign, width, signed))
  {
    hide Pow2, Dyadic, RoundToInt, MaxPos, MinInt, Word, RoundsMag, RoundsTo, Saturates;
    DyadicSign(m, e);
    RoundToIntCorrect(m, e, sign, rm);
    var (q, inexact) := RoundToInt(m, e, sign, rm);
    MagnitudeConverts(m, e, sign, rm, q);
    BoundsApart(width, signed);
    n := if sign then Minus(q) else q;
    SaturatesAt(width, signed, Signed(sign, Dyadic(m, e)), n, Saturated(q, inexact, sign, width, signed));
  }

  lemma BoundsApart(width: nat, signed: bool)
    requires width >= 1
    ensures MinInt(width, signed) <= 0 <= MaxPos(width, signed)
  {
  }

  lemma HugeRounds(m: nat, e: nat, sign: bool, rm: Rm)
    requires m > 0
    ensures RoundsTo(Whole, rm, Signed(sign, Dyadic(m, e)), (if sign then Minus(m * Pow2(e)) else m * Pow2(e)) as real)
  {
    hide Pow2, Dyadic, RoundsMag, RoundsTo;
    Rescale(m, e, 0);
    WholeDyadic(m * Pow2(e));
    Witness(Whole, m * Pow2(e), 0);
    RepRoundsToItself(Whole, DirOf(rm, sign), Dyadic(m, e));
    MagnitudeConverts(m, e, sign, rm, m * Pow2(e));
  }

  lemma ZeroConverts(width: nat, signed: bool, rm: Rm)
    requires width >= 1
    ensures Converts(width, signed, rm, 0.0, 0, Fp(0, 0))
  {
    RangeEnds(width, signed, 0);
    WholeDyadic(0);
    Witness(Whole, 0, 0);
    hide Dyadic, Pow2, Rep;
    assert SignedRep(Whole, 0.0);
  }

  /** NaNs and infinities saturate, with invalid alone. */
  lemma ToIntSpecial(f: Fmt, a: nat, width: nat, signed: bool, rm: Rm)
    requires !f.IsFinite(a) && 1 <= width <= 64
    ensures ToInt(f, a, width, signed, rm) ==
            Fp(Word(if f.IsInf(a) && f.Neg(a) then MinInt(width, signed) else MaxPos(width, signed)), NV)
  {
    hide Pow2, Unpack;
    UnpackValue(f, a);
  }

  lemma WordRanges()
    ensures MaxPos(32, true) == 0x7FFF_FFFF && MaxPos(32, false) == 0xFFFF_FFFF
    ensures MaxPos(64, true) == 0x7FFF_FFFF_FFFF_FFFF && MaxPos(64, false) == 0xFFFF_FFFF_FFFF_FFFF
    ensures MinInt(32, true) == -0x8000_0000 && MinInt(64, true) == -0x8000_0000_0000_0000
    ensures MinInt(32, false) == 0 == MinInt(64, false)
  {
    Pow2Literals();
    hide Pow2;
  }

  /** The patterns that NaNs and infinities convert to, at the widths the instructions use: a NaN and
      the positive infinity give the greatest integer, the negative one the least, sign-extended. */
  lemma SaturatedPatterns(f: Fmt, a: nat, rm: Rm)
    requires !f.IsFinite(a)
    ensures var low := f.IsInf(a) && f.Neg(a);
            ToInt(f, a, 32, true, rm) == Fp(if low then 0xFFFF_FFFF_8000_0000 else 0x7FFF_FFFF, 0x10) &&
            ToInt(f, a, 32, false, rm) == Fp(if low then 0 else 0xFFFF_FFFF, 0x10) &&
            ToInt(f, a, 64, true, rm) == Fp(if low then 0x8000_0000_0000_0000 else 0x7FFF_FFFF_FFFF_FFFF, 0x10) &&
            ToInt(f, a, 64, false, rm) == Fp(if low then 0 else 0xFFFF_FFFF_FFFF_FFFF, 0x10)
  {
    hide ToInt, MaxPos, MinInt, Fmt.IsInf, Fmt.IsFinite, Fmt.Neg;
    WordRanges();
    ToIntSpecial(f, a, 32, true, rm);
    ToIntSpecial(f, a, 32, false, rm);
    ToIntSpecial(f, a, 64, true, rm);
    ToIntSpecial(f, a, 64, false, rm);
  }

  /** from_int rounds the integer correctly. */
  lemma FromIntCorrect(f: Fmt, sign: bool, magnitude: u128, rm: Rm)
    requires magnitude < Pow2(64)
    ensures Prescribed(f, rm, Signed(sign, magnitude as real), sign, FromInt(f, sign, magnitude, rm))
  {
    hide Pow2, RoundPack, Delivers, CorrectlyRounded;
    Pow2Strict(64, 127);
    WholeDyadic(magnitude);
    if magnitude > 0 {
      ExactPrescribed(f, rm, sign, magnitude, 0, Signed(sign, magnitude as real), sign);
    } else {
      RoundPackZero(f, sign, rm);
    }
  }

  lemma RoundPackZero(f: Fmt, sign: bool, rm: Rm)
    ensures RoundPack(f, sign, 0, 0, rm) == Fp(f.Zero(sign), 0)
  {
  }

  /** A representable value rounds to itself and to nothing else. */
  lemma RoundsToSelf(t: Target, rm: Rm, x: real, y: real)
    requires RoundsTo(t, rm, x, y) && SignedRep(t, x)
    ensures y == x
  {
    hide Rep, Even;
    assert Abs(x - x) == 0.0;
    assert SignedRep(t, x);
  }

  lemma SmallIntegerRep(f: Fmt, n: nat)
    requires n <= Pow2(f.Sig() + 1)
    ensures Rep(Format(f), n as real) && n as real < TwoTo(f.Bias() + 1)
  {
    hide Pow2, Dyadic, TwoTo, Rep, Even;
    FmtFacts(f);
    WholeDyadic(n);
    if n < Pow2(f.Sig() + 1) { Witness(Format(f), n, 0); } else { CarryOut(f, 0); }
    DyadicPow(f.Sig() + 1, 0);
    DyadicOrder(Pow2(f.Sig() + 1), n, 0);
    TwoToOrder(f.Sig() + 1, f.Bias() + 1);
  }

  /** Any integer of magnitude at most 2^(sig + 1) that fits the target survives the trip to
      floating point and back, without flags, in any two modes. */
  lemma IntegerRoundTrip(f: Fmt, n: int, width: nat, signed: bool, rm: Rm, rm2: Rm)
    requires 1 <= width <= 64 && Fits(width, signed, n)
    requires Minus(Pow2(f.Sig() + 1)) <= n <= Pow2(f.Sig() + 1)
    ensures var m := if n < 0 then -n else n;
            m < 0x1_0000_0000_0000_0000_0000_0000_0000_0000 &&
            FromInt(f, n < 0, m, rm).flags == 0 &&
            ToInt(f, FromInt(f, n < 0, m, rm).bits, width, signed, rm2) == Fp(Word(n), 0)
  {
    hide Pow2, FromInt, ToInt, Prescribed, Rep;
    var m := if n < 0 then -n else n;
    FmtFacts(f);
    Pow2Literals();
    Pow2Mono(f.Sig() + 1, 53);
    Pow2Strict(53, 64);
    Pow2Strict(64, 128);
    SmallIntegerRep(f, m);
    FromIntCorrect(f, n < 0, m, rm);
    var out := FromInt(f, n < 0, m, rm);
    SmallIntegerExact(f, n, m, rm, out);
    IntegerBack(f, n, out.bits, width, signed, rm2);
  }

  /** An integral value that fits converts to that integer without flags. */
  lemma IntegerBack(f: Fmt, n: int, bits: nat, width: nat, signed: bool, rm: Rm)
    requires 1 <= width <= 64 && Fits(width, signed, n)
    requires f.IsFinite(bits) && f.Value(bits) == n as real
    ensures ToInt(f, bits, width, signed, rm) == Fp(Word(n), 0)
  {
    hide Pow2, Dyadic, ToInt, Rep, RoundsTo;
    var m := if n < 0 then -n else n;
    ToIntCorrect(f, bits, width, signed, rm);
    var k :| Converts(width, signed, rm, f.Value(bits), k, ToInt(f, bits, width, signed, rm));
    WholeDyadic(m);
    Witness(Whole, m, 0);
    RoundsToSelf(Whole, rm, n as real, k as real);
  }

  lemma SmallIntegerExact(f: Fmt, n: int, m: nat, rm: Rm, out: Fp)
    requires m == (if n < 0 then -n else n) && Rep(Format(f), m as real) && m as real < TwoTo(f.Bias() + 1)
    requires Prescribed(f, rm, Signed(n < 0, m as real), n < 0, out)
    ensures out.flags == 0 && f.IsFinite(out.bits) && f.Value(out.bits) == n as real
  {
    hide Pow2, TwoTo, Rep, Delivers, CorrectlyRounded;
    if n == 0 {
      ZeroPattern(f, false);
    } else {
      DeliversExact(f, rm, n < 0, m as real, out);
    }
  }
}
