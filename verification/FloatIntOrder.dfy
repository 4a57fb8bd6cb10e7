/** Conversion to integers preserves order, saturation included. */
module FloatIntOrder {
  import opened Powers
  import opened FloatFormat
  import opened Rounding
  import opened FloatCompare
  import opened FloatInt

  /** The integer that a register holds, read as signed or as unsigned. */
  function Held(signed: bool, bits: nat): int {
    if signed && bits >= 0x8000_0000_0000_0000 then bits - 0x1_0000_0000_0000_0000 else bits
  }

  predicate InRange(width: nat, signed: bool, n: int)
    requires width >= 1
  {
    MinInt(width, signed) <= n <= MaxPos(width, signed)
  }

  /** The nearest integer of the target. */
  function Clamp(width: nat, signed: bool, n: int): int
    requires width >= 1
  {
    if n < MinInt(width, signed) then MinInt(width, signed)
    else if n > MaxPos(width, signed) then MaxPos(width, signed)
    else n
  }

  lemma RangeFacts(width: nat, signed: bool)
    requires 1 <= width <= 64
    ensures MinInt(width, signed) <= 0 <= MaxPos(width, signed) < 0x1_0000_0000_0000_0000
    ensures signed ==> -0x8000_0000_0000_0000 <= MinInt(width, signed) && MaxPos(width, signed) < 0x8000_0000_0000_0000
  {
    Pow2Literals();
    hide Pow2;
    Pow2Mono(width, 64);
    Pow2Mono(width - 1, 63);
    Pow2Mono(0, width);
  }

  lemma HeldWord(width: nat, signed: bool, n: int)
    requires 1 <= width <= 64 && InRange(width, signed, n)
    ensures Held(signed, Word(n)) == n
  {
    RangeFacts(width, signed);
    hide MinInt, MaxPos;
  }

  // ---------------------------------------------------------------------------------------
  // Rounding to an integer is monotone

  lemma IntegerIsRep(n: int)
    ensures SignedRep(Whole, n as real)
  {
    var m: nat := if n < 0 then 0 - n else n;
    WholeDyadic(m);
    Witness(Whole, m, 0);
    assert Abs(n as real) == m as real;
  }

  lemma EvenInteger(n: int)
    requires Even(Whole, Abs(n as real))
    ensures n % 2 == 0
  {
    var m: nat, k: int :| Canonical(Whole, m, k) && m % 2 == 0 && Abs(n as real) == Dyadic(m, k);
    WholeDyadic(m);
    assert m == n || m == 0 - n;
  }

  /** Two numbers, each nearest to its point, the wrong way round: the points meet half way. */
  lemma HalfWay(x: real, x2: real, p: real, q: real)
    requires x <= x2 && p > q && Abs(x - p) <= Abs(x - q) && Abs(x2 - q) <= Abs(x2 - p)
    ensures x == x2 && x + x == p + q
  {
  }

  lemma NearestEven(x: real, x2: real, n: int, n2: int)
    requires x <= x2 && RoundsTo(Whole, Rne, x, n as real) && RoundsTo(Whole, Rne, x2, n2 as real)
    ensures n <= n2
  {
    hide Even, Rep;
    IntegerIsRep(n);
    IntegerIsRep(n2);
    IntegerIsRep(n - 1);
    if n > n2 {
      HalfWay(x, x2, n as real, n2 as real);
      assert Abs(x - n as real) <= Abs(x - (n - 1) as real);
      assert n2 == n - 1;
      EvenInteger(n);
      EvenInteger(n2);
    }
  }

  lemma NearestAway(x: real, x2: real, n: int, n2: int)
    requires x <= x2 && RoundsTo(Whole, Rmm, x, n as real) && RoundsTo(Whole, Rmm, x2, n2 as real)
    ensures n <= n2
  {
    hide Rep;
    IntegerIsRep(n);
    IntegerIsRep(n2);
    IntegerIsRep(0);
    if n > n2 { HalfWay(x, x2, n as real, n2 as real); }
  }

  lemma RoundsOrdered(rm: Rm, x: real, x2: real, n: int, n2: int)
    requires x <= x2 && RoundsTo(Whole, rm, x, n as real) && RoundsTo(Whole, rm, x2, n2 as real)
    ensures n <= n2
  {
    if rm.Rne? {
      NearestEven(x, x2, n, n2);
    } else if rm.Rmm? {
      NearestAway(x, x2, n, n2);
    } else {
      hide Rep;
      IntegerIsRep(n);
      IntegerIsRep(n2);
    }
  }

  lemma RoundsSign(rm: Rm, x: real, n: int)
    requires RoundsTo(Whole, rm, x, n as real)
    ensures (x >= 0.0 ==> n >= 0) && (x <= 0.0 ==> n <= 0)
  {
    hide RoundsTo;
    ZeroConverts(1, false, rm);
    if x >= 0.0 { RoundsOrdered(rm, 0.0, x, 0, n); }
    if x <= 0.0 { RoundsOrdered(rm, x, 0.0, n, 0); }
  }

  // ---------------------------------------------------------------------------------------

  /** The register holds the rounded value, or the nearest integer of the target. */
  lemma HeldFinite(f: Fmt, a: nat, width: nat, signed: bool, rm: Rm)
    requires f.IsFinite(a) && 1 <= width <= 64
    ensures exists n: int :: RoundsTo(Whole, rm, f.Value(a), n as real) &&
                             Held(signed, ToInt(f, a, width, signed, rm).bits) == Clamp(width, signed, n)
  {
    hide ToInt, RoundsTo, Held, MinInt, MaxPos, Word, Saturates;
    ToIntCorrect(f, a, width, signed, rm);
    var n :| Converts(width, signed, rm, f.Value(a), n, ToInt(f, a, width, signed, rm));
    SaturatesAt(width, signed, f.Value(a), n, ToInt(f, a, width, signed, rm));
    RoundsSign(rm, f.Value(a), n);
    RangeFacts(width, signed);
    HeldWord(width, signed, Clamp(width, signed, n));
  }

  lemma HeldInfinite(f: Fmt, a: nat, width: nat, signed: bool, rm: Rm)
    requires f.IsInf(a) && 1 <= width <= 64
    ensures Held(signed, ToInt(f, a, width, signed, rm).bits) ==
            if f.Neg(a) then MinInt(width, signed) else MaxPos(width, signed)
  {
    hide ToInt, Held, MinInt, MaxPos, Word;
    ToIntSpecial(f, a, width, signed, rm);
    RangeFacts(width, signed);
    HeldWord(width, signed, if f.Neg(a) then MinInt(width, signed) else MaxPos(width, signed));
  }

  /** Conversion to an integer preserves the order of the extended reals, in every mode and at every
      width: saturated results, those of the infinities among them, never pass those in range. */
  lemma ToIntOrdered(f: Fmt, a: nat, b: nat, width: nat, signed: bool, rm: Rm)
    requires !f.IsNan(a) && !f.IsNan(b) && !Below(Denotes(f, b), Denotes(f, a)) && 1 <= width <= 64
    ensures Held(signed, ToInt(f, a, width, signed, rm).bits) <= Held(signed, ToInt(f, b, width, signed, rm).bits)
  {
    hide ToInt, RoundsTo, Held, MinInt, MaxPos, Pow2, Dyadic, Fmt.Field, Fmt.Frac, Fmt.Neg;
    RangeFacts(width, signed);
    if f.IsFinite(a) { HeldFinite(f, a, width, signed, rm); } else { HeldInfinite(f, a, width, signed, rm); }
    if f.IsFinite(b) { HeldFinite(f, b, width, signed, rm); } else { HeldInfinite(f, b, width, signed, rm); }
    if f.IsFinite(a) && f.IsFinite(b) {
      var n :| RoundsTo(Whole, rm, f.Value(a), n as real) &&
               Held(signed, ToInt(f, a, width, signed, rm).bits) == Clamp(width, signed, n);
      var m :| RoundsTo(Whole, rm, f.Value(b), m as real) &&
               Held(signed, ToInt(f, b, width, signed, rm).bits) == Clamp(width, signed, m);
      RoundsOrdered(rm, f.Value(a), f.Value(b), n, m);
    }
  }
}
