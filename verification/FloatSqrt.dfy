/** Square roots: Newton's integer iteration and the correctly rounded root. */
module FloatSqrt {
  import opened Arithmetic
  import opened Powers
  import opened FloatFormat
  import opened Rounding
  import opened Packing
  import opened Sums
  import opened FloatOps
  import opened FloatCorrect

  /** floor(sqrt(n)), one base-4 digit at a time. */
  function FloorSqrt(n: nat): (r: nat)
    ensures r * r <= n < (r + 1) * (r + 1)
  {
    if n == 0 then 0
    else
      var h := FloorSqrt(n / 4);
      SquareStep(n, h);
      if (2 * h + 1) * (2 * h + 1) <= n then 2 * h + 1 else 2 * h
  }

  lemma SquareStep(n: nat, h: nat)
    requires h * h <= n / 4 < (h + 1) * (h + 1)
    ensures (2 * h) * (2 * h) <= n < (2 * h + 2) * (2 * h + 2)
  {
    assert (2 * h) * (2 * h) == 4 * (h * h);
    assert (2 * h + 2) * (2 * h + 2) == 4 * ((h + 1) * (h + 1));
  }

  lemma SquareOrder(a: nat, b: nat)
    ensures a * a < b * b <==> a < b
  {
    if a < b { MulLe(a + 1, b, a + 1); MulLe(a + 1, b, b); }
    if b <= a { MulLe(b, a, b); MulLe(b, a, a); }
  }

  lemma FloorSqrtUnique(n: nat, r: nat)
    requires r * r <= n < (r + 1) * (r + 1)
    ensures r == FloorSqrt(n)
  {
    SquareOrder(r, FloorSqrt(n) + 1);
    SquareOrder(FloorSqrt(n), r + 1);
  }

  /** x overestimates, or equals, the root of n; x + 1 is past it. */
  predicate Above(n: nat, x: nat) { n < (x + 1) * (x + 1) }

  predicate NotAbove(n: nat, x: nat) { x * x <= n }

  lemma RootFound(n: nat, x: nat)
    requires NotAbove(n, x) && Above(n, x)
    ensures x == FloorSqrt(n)
  {
    hide FloorSqrt;
    FloorSqrtUnique(n, x);
  }

  /** A Newton step from x stays at or above floor(sqrt(n)). */
  lemma NewtonStep(n: nat, x: nat)
    requires x > 0
    ensures (DivBounds(n, x); Above(n, (x + n / x) / 2))
  {
    DivBounds(n, x);
    var k := n / x;
    var next := (x + k) / 2;
    assert (k + 1) * x == k * x + x;
    MeanSquare(k + 1, x, next + 1);
  }

  /** Twice the larger of half a sum bounds the product: a * b <= ((a + b) / 2)^2. */
  lemma MeanSquare(a: nat, b: nat, c: nat)
    requires a + b <= 2 * c
    ensures a * b <= c * c
  {
    var d := a - b;
    assert 4 * (a * b) == (a + b) * (a + b) - d * d;
    assert d * d >= 0;
    SquareLe(a + b, 2 * c);
    assert (2 * c) * (2 * c) == 4 * (c * c);
  }

  lemma SquareLe(a: nat, b: nat)
    requires a <= b
    ensures a * a <= b * b
  {
    MulLe(a, b, a);
    MulLe(a, b, b);
  }

  /** What the loop needs to know of a step. */
  lemma StepFacts(n: nat, x: nat)
    requires n > 0 && 0 < x <= 0x1_0000_0000_0000_0000 && Above(n, x)
    ensures (DivBounds(n, x);
             var sum := x + n / x;
             sum < 0x1_0000_0000_0000_0000_0000_0000_0000_0000 && sum / 2 > 0 && Above(n, sum / 2) &&
             (sum / 2 >= x ==> NotAbove(n, x)))
  {
    hide Above, NotAbove;
    NewtonStep(n, x);
    QuotientSmall(n, x);
    StopsBelow(n, x);
    PositiveRoot(n, (x + n / x) / 2);
  }

  lemma PositiveRoot(n: nat, x: int)
    requires n > 0 && x >= 0 && Above(n, x)
    ensures x > 0
  {
  }

  /** Newton's iteration from an overestimate, stopped the first time it would rise: it
      terminates on every 128-bit input with the integer square root. */
  method Isqrt(n: u128) returns (r: u128)
    ensures r == FloorSqrt(n)
  {
    hide Pow2, BitLen, FloorSqrt, Above, NotAbove;
    if n == 0 {
      FloorSqrtUnique(0, 0);
      return 0;
    }
    Pow2Literals();
    StartAbove(n);
    var x: u128 := Shl(1, (BitLen(n) + 1) / 2);
    while true
      invariant 0 < x <= Pow2(64) == 0x1_0000_0000_0000_0000 && Above(n, x)
      decreases x
    {
      StepFacts(n, x);
      var sum: u128 := x + n / x;
      var next := sum / 2;
      if next >= x {
        RootFound(n, x);
        return x;
      }
      x := next;
    }
  }

  lemma StartAbove(n: u128)
    requires n > 0
    ensures var k := (BitLen(n) + 1) / 2;
            0 <= k <= 64 && 1 * Pow2(k) < Pow2(128) && Pow2(k) <= Pow2(64) && Above(n, Pow2(k))
  {
    BitLenBound(n);
    hide Pow2;
    var l := BitLen(n);
    hide BitLen;
    var k := (l + 1) / 2;
    Pow2Add(k, k);
    Pow2Mono(l, k + k);
    Pow2Mono(k, 64);
    Pow2Strict(64, 128);
    SquareLe(Pow2(k), Pow2(k) + 1);
  }

  lemma QuotientSmall(n: nat, x: nat)
    requires x > 0 && Above(n, x)
    ensures (DivBounds(n, x); n / x <= x + 2)
  {
    DivBounds(n, x);
    assert (x + 3) * x == x * x + 3 * x && (x + 1) * (x + 1) == x * x + 2 * x + 1;
    if n / x > x + 2 { MulLe(x + 3, n / x, x); }
  }

  lemma StopsBelow(n: nat, x: nat)
    requires x > 0
    ensures (DivBounds(n, x); (x + n / x) / 2 >= x ==> NotAbove(n, x))
  {
    DivBounds(n, x);
    if n / x >= x { MulLe(x, n / x, x); }
  }

  // ---------------------------------------------------------------------------------------

  /** The radicand is the operand shifted so that its exponent is even. */
  function RootShift(e: int): int { if (e - 64) % 2 == 0 then 64 else 65 }

  lemma RadicandFits(f: Fmt, m: nat, e: int)
    requires Pow2(f.Sig()) <= m < Pow2(f.Sig() + 1)
    ensures var n := m * Pow2(RootShift(e));
            Pow2(2 * f.Sig() + 4) <= n < Pow2(120) < Pow2(128) == 0x1_0000_0000_0000_0000_0000_0000_0000_0000 &&
            Pow2(f.Sig() + 2) <= FloorSqrt(n) && FloorSqrt(n) + 1 < Pow2(127) < Pow2(128)
  {
    hide Pow2, FloorSqrt;
    FmtFacts(f);
    Pow2Literals();
    var k := RootShift(e);
    ShiftBound(m, f.Sig() + 1, k, 120);
    MulLe(Pow2(f.Sig()), m, Pow2(k));
    Pow2Add(f.Sig(), k);
    Pow2Mono(2 * f.Sig() + 4, f.Sig() + k);
    Pow2Strict(120, 127);
    Pow2Strict(127, 128);
    RootSize(m * Pow2(k), f.Sig() + 2, 120);
  }

  lemma RootSize(n: nat, low: nat, high: nat)
    requires Pow2(2 * low) <= n < Pow2(high) && high > 0
    ensures Pow2(low) <= FloorSqrt(n) && FloorSqrt(n) + 1 <= Pow2(high)
  {
    hide Pow2, FloorSqrt;
    Pow2Add(low, low);
    var r := FloorSqrt(n);
    SquareOrder(Pow2(low), r + 1);
    SquareGrows(r);
  }

  lemma SquareGrows(r: nat)
    ensures r <= r * r
  {
  }

  /** One root, given the integer root of the radicand. */
  function RoundRoot(f: Fmt, m: nat, e: int, rm: Rm, root: u128): Fp
    requires root + 1 < 0x1_0000_0000_0000_0000_0000_0000_0000_0000
  {
    var shift := RootShift(e);
    RoundPack(f, false, OrSticky(root, root * root != m * Pow2(shift)), (e - shift) / 2, rm)
  }

  function Sqrt(f: Fmt, a: nat, rm: Rm): Fp {
    var (sign, c) := Unpack(f, a);
    if c.Nan? then NanResult(f, Signalling(c))
    else if c.Zero? then Fp(f.Zero(sign), 0)
    else if sign then Invalid(f)
    else if c.Inf? then Fp(f.Inf(false), 0)
    else
      RadicandFits(f, c.m, c.e);
      RoundRoot(f, c.m, c.e, rm, FloorSqrt(Shl(c.m, RootShift(c.e))))
  }

  /** sqrt as the code computes it, with Newton's iteration. */
  method SqrtByNewton(f: Fmt, a: nat, rm: Rm) returns (out: Fp)
    ensures out == Sqrt(f, a, rm)
  {
    hide Unpack, Pow2, FloorSqrt, RoundRoot;
    var (sign, c) := Unpack(f, a);
    match c {
      case Nan(signalling) => out := NanResult(f, signalling);
      case Zero => out := Fp(f.Zero(sign), 0);
      case Inf => out := if sign then Invalid(f) else Fp(f.Inf(false), 0);
      case Num(m, e) =>
        if sign {
          out := Invalid(f);
        } else {
          RadicandFits(f, m, e);
          var radicand := Shl(m, RootShift(e));
          var r := Isqrt(radicand);
          out := RoundRoot(f, m, e, rm, r);
        }
    }
  }

  /** The integer root with its sticky bit is the round-to-odd of the exact root. */
  lemma RootRoundOdd(n: nat, h: int, v: real)
    requires v == Dyadic(n, 2 * h)
    ensures var r := FloorSqrt(n);
            RoundOdd(OrSticky(r, r * r != n), h, Root(v)) && (r * r == n ==> Exactly(r, h, Root(v)))
  {
    hide FloorSqrt, Dyadic, Offset;
    var r := FloorSqrt(n);
    RootSide(r, n, h);
    if r * r != n { RootSticky(r, n, h); }
  }

  /** Between two squares the odd one of the two roots is the round-to-odd. */
  lemma RootSticky(r: nat, n: nat, h: int)
    requires r * r < n < (r + 1) * (r + 1)
    ensures RoundOdd(OrSticky(r, true), h, Root(Dyadic(n, 2 * h)))
  {
    hide Dyadic, Offset;
    RootSide(r, n, h);
    RootSide(r + 1, n, h);
    if r % 2 == 1 {
      SquareOrder(r - 1, r);
      RootSide(r - 1, n, h);
    } else {
      SquareOrder(r + 1, r + 2);
      RootSide(r + 2, n, h);
    }
  }

  lemma RootSide(k: nat, n: nat, h: int)
    ensures k * k < n <==> Offset(Dyadic(k, h), Root(Dyadic(n, 2 * h))) < 0.0
    ensures k * k == n <==> Offset(Dyadic(k, h), Root(Dyadic(n, 2 * h))) == 0.0
  {
    hide Dyadic;
    DyadicMul(k, h, k, h);
    DyadicOrder(k * k, n, h + h);
  }

  /** sqrt returns the correctly rounded root of every positive value, the zeros unchanged, and
      is invalid on negative values. Inexact is raised exactly when the root is not the result,
      because that is what Delivers says of its flags. */
  lemma SqrtCorrect(f: Fmt, a: nat, rm: Rm)
    requires f.IsFinite(a)
    ensures f.Value(a) > 0.0 ==> Delivers(f, rm, false, Root(f.Value(a)), Sqrt(f, a, rm))
    ensures f.Value(a) == 0.0 ==> Sqrt(f, a, rm) == Fp(f.Zero(f.Neg(a)), 0)
    ensures f.Value(a) < 0.0 ==> Sqrt(f, a, rm) == Fp(f.Nan(), NV)
  {
    hide Unpack, Dyadic, Pow2, RoundRoot, Delivers, FloorSqrt;
    UnpackFinite(f, a);
    var c := Unpack(f, a).1;
    if c.Num? && !f.Neg(a) { RootDelivers(f, c.m, c.e, rm); }
  }

  lemma RootDelivers(f: Fmt, m: nat, e: int, rm: Rm)
    requires Pow2(f.Sig()) <= m < Pow2(f.Sig() + 1)
    ensures (RadicandFits(f, m, e);
             Delivers(f, rm, false, Root(Dyadic(m, e)), RoundRoot(f, m, e, rm, FloorSqrt(m * Pow2(RootShift(e))))))
  {
    hide Dyadic, Pow2, RoundPack, Delivers, FloorSqrt, RoundOdd, Exactly, ResultLsb;
    RadicandFits(f, m, e);
    var shift := RootShift(e);
    var n := m * Pow2(shift);
    var h := (e - shift) / 2;
    assert 2 * h == e - shift;
    Rescale(m, e, e - shift);
    RootRoundOdd(n, h, Dyadic(m, e));
    var r := FloorSqrt(n);
    RoundPackCorrect(f, false, OrSticky(r, r * r != n), h, rm, Root(Dyadic(m, e)));
  }
}
