/** What correct rounding means, stated over values and independently of any algorithm
    (sections 4.3, 7.4 and 7.6 of IEEE 754-2019), and the one lemma that ties it to a
    quotient with a guard and a sticky bit. */
module Rounding {
  import opened Arithmetic
  import opened Powers
  import opened FloatFormat

  /** Where a value is rounded to: a format with no upper bound on its exponent, or the integers. */
  datatype Target = Format(f: Fmt) | Whole

  predicate Grid(t: Target, n: nat, k: int) {
    if t.Format? then n < Pow2(t.f.Sig() + 1) && k >= t.f.MinE() else k == 0
  }

  /** Non-negative reals the target can represent. */
  ghost predicate Rep(t: Target, y: real) {
    exists n: nat, k: int :: Grid(t, n, k) && y == Dyadic(n, k)
  }

  /** The normalised form, whose parity decides ties. */
  predicate Canonical(t: Target, n: nat, k: int) {
    Grid(t, n, k) && (t.Format? && k != t.f.MinE() ==> n >= Pow2(t.f.Sig()))
  }

  ghost predicate Even(t: Target, y: real) {
    exists n: nat, k: int :: Canonical(t, n, k) && n % 2 == 0 && y == Dyadic(n, k)
  }

  function Abs(x: real): real { if x < 0.0 then -x else x }

  ghost predicate SignedRep(t: Target, y: real) { Rep(t, Abs(y)) }

  /** y is the rounding of the real number x in mode rm. */
  ghost predicate RoundsTo(t: Target, rm: Rm, x: real, y: real) {
    SignedRep(t, y) &&
    match rm
    case Rtz => Abs(y) <= Abs(x) && (y != 0.0 ==> (y < 0.0 <==> x < 0.0)) &&
                (forall z :: SignedRep(t, z) && Abs(z) <= Abs(x) ==> Abs(z) <= Abs(y))
    case Rdn => y <= x && (forall z :: SignedRep(t, z) && z <= x ==> z <= y)
    case Rup => y >= x && (forall z :: SignedRep(t, z) && z >= x ==> z >= y)
    case Rne => forall z :: SignedRep(t, z) ==>
                  Abs(x - y) <= Abs(x - z) && (Abs(x - y) == Abs(x - z) && z != y ==> Even(t, Abs(y)))
    case Rmm => forall z :: SignedRep(t, z) ==>
                  Abs(x - y) <= Abs(x - z) && (Abs(x - y) == Abs(x - z) ==> Abs(z) <= Abs(y))
  }

  /** The exact magnitude an operation rounds: a real, or the square root of one. */
  datatype Exact = Real(x: real) | Root(x: real)

  /** For y >= 0 the sign of Offset says on which side of the exact magnitude y lies. */
  function Offset(y: real, m: Exact): real {
    if m.Real? then y - m.x else y * y - m.x
  }

  lemma ScaleReal(a: real, b: real, c: real)
    requires a < b && c > 0.0
    ensures c * a < c * b && a * c < b * c
  {
  }

  lemma SquareMonotone(y: real, z: real)
    requires 0.0 <= y < z
    ensures y * y < z * z
  {
    var d := z - y;
    assert z == y + d;
    assert z * z == y * y + 2.0 * y * d + d * d;
    assert d * d > 0.0;
    assert y * d >= 0.0;
  }

  lemma OffsetMonotone(y: real, z: real, m: Exact)
    requires 0.0 <= y
    ensures y < z ==> Offset(y, m) < Offset(z, m)
    ensures y <= z ==> Offset(y, m) <= Offset(z, m)
  {
    if y < z {
      SquareMonotone(y, z);
    }
  }

  /** A rounding mode as it acts on a magnitude. */
  datatype Dir = Nearest(even: bool) | Truncate | Away

  function DirOf(rm: Rm, neg: bool): Dir {
    match rm
    case Rne => Nearest(true)
    case Rmm => Nearest(false)
    case Rtz => Truncate
    case Rdn => if neg then Away else Truncate
    case Rup => if neg then Truncate else Away
  }

  /** r is the rounding of the magnitude m in direction d. */
  ghost predicate RoundsMag(t: Target, d: Dir, m: Exact, r: real) {
    Rep(t, r) &&
    match d
    case Truncate => Offset(r, m) <= 0.0 && (forall z :: Rep(t, z) && Offset(z, m) <= 0.0 ==> z <= r)
    case Away => Offset(r, m) >= 0.0 && (forall z :: Rep(t, z) && Offset(z, m) >= 0.0 ==> z >= r)
    case Nearest(even) => forall z :: Rep(t, z) && z != r ==> Closer(t, even, m, r, z)
  }

  /** r is no further from m than z is, and deserves to win if they tie. */
  ghost predicate Closer(t: Target, even: bool, m: Exact, r: real, z: real) {
    var o := Offset((r + z) / 2.0, m);
    (z > r ==> o >= 0.0) && (z < r ==> o <= 0.0) &&
    (o == 0.0 ==> if even then Even(t, r) else z < r)
  }

  /** The rounding decision the code takes from a quotient and its guard and sticky bits. */
  predicate RoundUp(rm: Rm, sign: bool, q: nat, guard: bool, sticky: bool) {
    match rm
    case Rne => guard && (sticky || q % 2 == 1)
    case Rtz => false
    case Rdn => sign && (guard || sticky)
    case Rup => !sign && (guard || sticky)
    case Rmm => guard
  }

  /** q, guard and sticky say exactly where m lies relative to the multiples of 2^u. */
  ghost predicate Located(q: nat, guard: bool, sticky: bool, u: int, m: Exact) {
    var lo, hi := Dyadic(q, u), Dyadic(q + 1, u);
    var mid := (lo + hi) / 2.0;
    if guard then
      if sticky then Offset(mid, m) < 0.0 < Offset(hi, m) else Offset(mid, m) == 0.0
    else
      if sticky then Offset(lo, m) < 0.0 < Offset(mid, m) else Offset(lo, m) == 0.0
  }

  lemma RepNonNegative(t: Target, z: real)
    requires Rep(t, z)
    ensures z >= 0.0
  {
    var n: nat, k: int :| Grid(t, n, k) && z == Dyadic(n, k);
    DyadicSign(n, k);
  }

  /** Nothing is representable strictly between a canonical value and its successor. */
  lemma NoneBetween(t: Target, q: nat, u: int, z: real)
    requires Canonical(t, q, u) && Rep(t, z)
    ensures z <= Dyadic(q, u) || z >= Dyadic(q + 1, u)
  {
    var n: nat, k: int :| Grid(t, n, k) && z == Dyadic(n, k);
    hide Dyadic;
    if k >= u {
      Rescale(n, k, u);
      DyadicOrder(n * Pow2(k - u), q, u);
      DyadicOrder(q + 1, n * Pow2(k - u), u);
    } else {
      var p := Pow2(u - k);
      Pow2Strict(0, u - k);
      assert 2 * Pow2(t.f.Sig()) == Pow2(t.f.Sig() + 1);
      MulLe(Pow2(t.f.Sig()), q, p);
      MulLe(2, p, Pow2(t.f.Sig()));
      Rescale(q, u, k);
      DyadicOrder(n, q * p, k);
    }
  }

  lemma Witness(t: Target, n: nat, k: int)
    requires Grid(t, n, k)
    ensures Rep(t, Dyadic(n, k))
  {
  }

  lemma EvenWitness(t: Target, n: nat, k: int)
    requires Canonical(t, n, k) && n % 2 == 0
    ensures Even(t, Dyadic(n, k))
  {
  }

  /** Carrying out of the significand leaves an even, canonical value. */
  lemma CarryOut(f: Fmt, u: int)
    requires u >= f.MinE()
    ensures Dyadic(Pow2(f.Sig() + 1), u) == Dyadic(Pow2(f.Sig()), u + 1)
    ensures Pow2(f.Sig()) % 2 == 0
    ensures Rep(Format(f), Dyadic(Pow2(f.Sig() + 1), u)) && Even(Format(f), Dyadic(Pow2(f.Sig() + 1), u))
  {
    FmtFacts(f);
    hide Dyadic, Rep, Even, Pow2;
    DyadicDouble(Pow2(f.Sig()), u);
    Witness(Format(f), Pow2(f.Sig()), u + 1);
    EvenWitness(Format(f), Pow2(f.Sig()), u + 1);
  }

  lemma NextRep(t: Target, q: nat, u: int)
    requires Canonical(t, q, u)
    ensures Rep(t, Dyadic(q, u)) && Rep(t, Dyadic(q + 1, u))
    ensures q % 2 == 0 ==> Even(t, Dyadic(q, u))
    ensures q % 2 == 1 ==> Even(t, Dyadic(q + 1, u))
  {
    hide Dyadic, Rep, Even, Pow2;
    Witness(t, q, u);
    if q % 2 == 0 { EvenWitness(t, q, u); }
    if t.Format? && q + 1 == Pow2(t.f.Sig() + 1) {
      CarryOut(t.f, u);
    } else {
      Witness(t, q + 1, u);
      if q % 2 == 1 { EvenWitness(t, q + 1, u); }
    }
  }

  lemma Straddle(q: nat, u: int, m: Exact, guard: bool, sticky: bool)
    requires Located(q, guard, sticky, u, m)
    ensures 0.0 <= Dyadic(q, u) < Dyadic(q + 1, u)
    ensures Offset(Dyadic(q, u), m) <= 0.0 < Offset(Dyadic(q + 1, u), m)
    ensures guard || sticky ==> Offset(Dyadic(q, u), m) < 0.0
    ensures !guard && !sticky ==> Offset(Dyadic(q, u), m) == 0.0
    ensures var mid := Offset((Dyadic(q, u) + Dyadic(q + 1, u)) / 2.0, m);
            (guard ==> mid <= 0.0) && (!guard ==> mid > 0.0) && (guard && sticky ==> mid < 0.0) &&
            (guard && !sticky ==> mid == 0.0)
  {
    hide Dyadic;
    DyadicSign(q, u);
    DyadicOrder(q, q + 1, u);
    var lo, hi := Dyadic(q, u), Dyadic(q + 1, u);
    OffsetMonotone(lo, (lo + hi) / 2.0, m);
    OffsetMonotone((lo + hi) / 2.0, hi, m);
  }

  predicate DirUp(d: Dir, q: nat, guard: bool, sticky: bool) {
    match d
    case Nearest(even) => guard && (!even || sticky || q % 2 == 1)
    case Truncate => false
    case Away => guard || sticky
  }

  lemma LowCloser(t: Target, even: bool, m: Exact, lo: real, hi: real, z: real)
    requires 0.0 <= lo < hi && 0.0 <= z && (z < lo || z >= hi) && Offset(lo, m) <= 0.0
    requires Offset((lo + hi) / 2.0, m) >= 0.0
    requires Offset((lo + hi) / 2.0, m) == 0.0 ==> even && Even(t, lo)
    ensures Closer(t, even, m, lo, z)
  {
    hide Even;
    if z < lo {
      OffsetMonotone((lo + z) / 2.0, lo, m);
    } else {
      OffsetMonotone((lo + hi) / 2.0, (lo + z) / 2.0, m);
    }
    hide Offset;
  }

  lemma HighCloser(t: Target, even: bool, m: Exact, lo: real, hi: real, z: real)
    requires 0.0 <= lo < hi && 0.0 <= z && (z <= lo || z > hi) && Offset(hi, m) > 0.0
    requires Offset((lo + hi) / 2.0, m) <= 0.0
    requires Offset((lo + hi) / 2.0, m) == 0.0 && even ==> Even(t, hi)
    ensures Closer(t, even, m, hi, z)
  {
    hide Even;
    if z > hi {
      OffsetMonotone(hi, (hi + z) / 2.0, m);
    } else {
      OffsetMonotone((hi + z) / 2.0, (lo + hi) / 2.0, m);
    }
    hide Offset;
  }

  lemma LocatedCloser(t: Target, even: bool, q: nat, guard: bool, sticky: bool, u: int, m: Exact, z: real)
    requires Located(q, guard, sticky, u, m) && Canonical(t, q, u) && Rep(t, z)
    requires z != Dyadic(if DirUp(Nearest(even), q, guard, sticky) then q + 1 else q, u)
    ensures Closer(t, even, m, Dyadic(if DirUp(Nearest(even), q, guard, sticky) then q + 1 else q, u), z)
  {
    hide Dyadic, Even, Rep, Canonical, Located, Offset, Closer;
    Straddle(q, u, m, guard, sticky);
    NextRep(t, q, u);
    NoneBetween(t, q, u, z);
    RepNonNegative(t, z);
    if DirUp(Nearest(even), q, guard, sticky) {
      HighCloser(t, even, m, Dyadic(q, u), Dyadic(q + 1, u), z);
    } else {
      LowCloser(t, even, m, Dyadic(q, u), Dyadic(q + 1, u), z);
    }
  }

  /** The decision RoundUp takes on a located quotient yields the correct rounding. */
  lemma LocatedRounds(t: Target, rm: Rm, neg: bool, q: nat, guard: bool, sticky: bool, u: int, m: Exact)
    requires Located(q, guard, sticky, u, m) && Canonical(t, q, u)
    ensures RoundsMag(t, DirOf(rm, neg), m,
                      Dyadic(if RoundUp(rm, neg, q, guard, sticky) then q + 1 else q, u))
  {
    hide Dyadic, Even, Rep, Located, Canonical, Closer, Offset;
    var d := DirOf(rm, neg);
    assert RoundUp(rm, neg, q, guard, sticky) == DirUp(d, q, guard, sticky);
    var r := Dyadic(if DirUp(d, q, guard, sticky) then q + 1 else q, u);
    Straddle(q, u, m, guard, sticky);
    NextRep(t, q, u);
    if d.Nearest? {
      forall z | Rep(t, z) && z != r ensures Closer(t, d.even, m, r, z) {
        LocatedCloser(t, d.even, q, guard, sticky, u, m, z);
      }
    } else {
      forall z | Rep(t, z)
        ensures d.Truncate? && Offset(z, m) <= 0.0 ==> z <= r
        ensures d.Away? && Offset(z, m) >= 0.0 ==> z >= r
      {
        NoneBetween(t, q, u, z);
        RepNonNegative(t, z);
        OffsetMonotone(Dyadic(q + 1, u), z, m);
        OffsetMonotone(z, Dyadic(q, u), m);
      }
    }
  }

  // ---------------------------------------------------------------------------------------
  // The specification determines its result.

  lemma CanonicalUnique(t: Target, n: nat, k: int, p: nat, l: int)
    requires Canonical(t, n, k) && Canonical(t, p, l) && Dyadic(n, k) == Dyadic(p, l)
    ensures n == p && k == l
  {
    hide Dyadic;
    if k > l { HigherIsGreater(t, n, k, p, l); }
    if l > k { HigherIsGreater(t, p, l, n, k); }
    DyadicOrder(n, p, k);
  }

  lemma HigherIsGreater(t: Target, n: nat, k: int, p: nat, l: int)
    requires Canonical(t, n, k) && Canonical(t, p, l) && k > l
    ensures Dyadic(n, k) > Dyadic(p, l)
  {
    hide Dyadic;
    Rescale(n, k, l);
    Pow2Strict(0, k - l);
    MulLe(Pow2(t.f.Sig()), n, Pow2(k - l));
    MulLe(2, Pow2(k - l), Pow2(t.f.Sig()));
    DyadicOrder(p, n * Pow2(k - l), l);
  }

  /** Two even values never tie: the lower one has an odd successor, which would be closer than
      the higher one. */
  lemma EvenNeighbours(t: Target, m: Exact, y: real, z: real)
    requires RoundsMag(t, Nearest(true), m, y) && y < z && Even(t, y) && Even(t, z) && Rep(t, z)
    ensures Offset((y + z) / 2.0, m) != 0.0
  {
    var n: nat, k: int :| Canonical(t, n, k) && n % 2 == 0 && y == Dyadic(n, k);
    SuccessorBetween(t, n, k, z);
    hide Dyadic, Even, Rep, Canonical, Closer;
    SuccessorCloser(t, m, y, z, Dyadic(n + 1, k));
  }

  lemma SuccessorBetween(t: Target, n: nat, k: int, z: real)
    requires Canonical(t, n, k) && n % 2 == 0 && Even(t, z) && Dyadic(n, k) < z && Rep(t, z)
    ensures 0.0 <= Dyadic(n, k) < Dyadic(n + 1, k) < z && Rep(t, Dyadic(n + 1, k))
  {
    hide Dyadic, Rep;
    var p: nat, l: int :| Canonical(t, p, l) && p % 2 == 0 && z == Dyadic(p, l);
    OddSuccessor(t, n, k, p, l);
    NextRep(t, n, k);
    NoneBetween(t, n, k, z);
    DyadicSign(n, k);
    DyadicOrder(n, n + 1, k);
  }

  lemma SuccessorCloser(t: Target, m: Exact, y: real, z: real, w: real)
    requires 0.0 <= y < w < z && Rep(t, w) && RoundsMag(t, Nearest(true), m, y)
    ensures Offset((y + z) / 2.0, m) != 0.0
  {
    assert Closer(t, true, m, y, w);
    OffsetMonotone((y + w) / 2.0, (y + z) / 2.0, m);
  }

  lemma DoubleSig(f: Fmt)
    ensures Pow2(f.Sig() + 1) == 2 * Pow2(f.Sig())
  {
  }

  lemma EvenSuccessor(t: Target, n: nat, k: int)
    requires Canonical(t, n, k) && n % 2 == 0
    ensures Canonical(t, n + 1, k)
  {
    if t.Format? {
      DoubleSig(t.f);
      hide Pow2;
      EvenBelow(n, Pow2(t.f.Sig()));
    }
  }

  lemma EvenBelow(n: nat, p: nat)
    requires n % 2 == 0 && n < 2 * p
    ensures n + 1 < 2 * p
  {
  }

  lemma OddSuccessor(t: Target, n: nat, k: int, p: nat, l: int)
    requires Canonical(t, n, k) && Canonical(t, p, l) && n % 2 == 0 && p % 2 == 0
    ensures Dyadic(n + 1, k) != Dyadic(p, l)
  {
    hide Dyadic, Pow2, Canonical;
    if Dyadic(n + 1, k) == Dyadic(p, l) {
      EvenSuccessor(t, n, k);
      CanonicalUnique(t, n + 1, k, p, l);
    }
  }

  /** Rounding is monotone in the exact magnitude. */
  lemma RoundsMagMonotone(t: Target, d: Dir, m: Exact, n: Exact, y: real, z: real)
    requires RoundsMag(t, d, m, y) && RoundsMag(t, d, n, z)
    requires forall w :: w >= 0.0 ==> Offset(w, m) >= Offset(w, n)
    ensures y <= z
  {
    RepNonNegative(t, y);
    RepNonNegative(t, z);
    var w := (y + z) / 2.0;
    assert (z + y) / 2.0 == w;
    assert Offset(y, m) >= Offset(y, n) && Offset(z, m) >= Offset(z, n) && Offset(w, m) >= Offset(w, n);
    if z < y && d.Nearest? {
      assert Closer(t, d.even, m, y, z) && Closer(t, d.even, n, z, y);
      if d.even { EvenNeighbours(t, n, z, y); }
    }
  }

  /** The specification determines its result. */
  lemma RoundsMagUnique(t: Target, d: Dir, m: Exact, y: real, z: real)
    requires RoundsMag(t, d, m, y) && RoundsMag(t, d, m, z)
    ensures y == z
  {
    RoundsMagMonotone(t, d, m, m, y, z);
    RoundsMagMonotone(t, d, m, m, z, y);
  }

  lemma AbsOpposite(x: real, y: real, r: real)
    requires r >= 0.0 && x != 0.0 && y == (if x < 0.0 then -r else r)
    ensures Abs(y) == r && Abs(x - y) == Abs(Abs(x) - r)
  {
  }

  lemma MagnitudeTruncates(t: Target, rm: Rm, x: real, r: real)
    requires x != 0.0 && RoundsMag(t, DirOf(rm, x < 0.0), Real(Abs(x)), r) && Rep(t, 0.0)
    requires DirOf(rm, x < 0.0).Truncate? && r >= 0.0
    ensures RoundsTo(t, rm, x, if x < 0.0 then -r else r)
  {
    hide Rep, Even;
    AbsOpposite(x, if x < 0.0 then -r else r, r);
  }

  lemma MagnitudeAway(t: Target, rm: Rm, x: real, r: real)
    requires x != 0.0 && RoundsMag(t, DirOf(rm, x < 0.0), Real(Abs(x)), r) && Rep(t, 0.0)
    requires DirOf(rm, x < 0.0).Away? && r >= 0.0
    ensures RoundsTo(t, rm, x, if x < 0.0 then -r else r)
  {
    hide Rep, Even;
    AbsOpposite(x, if x < 0.0 then -r else r, r);
  }

  lemma MagnitudeNearest(t: Target, rm: Rm, x: real, r: real)
    requires x != 0.0 && RoundsMag(t, DirOf(rm, x < 0.0), Real(Abs(x)), r) && Rep(t, 0.0)
    requires (rm.Rne? || rm.Rmm?) && r >= 0.0
    ensures RoundsTo(t, rm, x, if x < 0.0 then -r else r)
  {
    hide Rep, Even;
    var y := if x < 0.0 then -r else r;
    AbsOpposite(x, y, r);
    forall z | SignedRep(t, z)
      ensures Abs(x - y) <= Abs(x - z)
      ensures Abs(x - y) == Abs(x - z) && z != y ==> if rm.Rne? then Even(t, r) else Abs(z) <= r
    {
      NearestSigned(t, rm.Rne?, x, y, r, z);
    }
  }

  /** On a real number the magnitude view and the signed definition agree. */
  lemma MagnitudeRoundsTo(t: Target, rm: Rm, x: real, r: real)
    requires x != 0.0 && RoundsMag(t, DirOf(rm, x < 0.0), Real(Abs(x)), r)
    ensures RoundsTo(t, rm, x, if x < 0.0 then -r else r)
  {
    ZeroIsRep(t);
    RepNonNegative(t, r);
    hide Rep, RoundsTo;
    if DirOf(rm, x < 0.0).Truncate? {
      MagnitudeTruncates(t, rm, x, r);
    } else if DirOf(rm, x < 0.0).Away? {
      MagnitudeAway(t, rm, x, r);
    } else {
      MagnitudeNearest(t, rm, x, r);
    }
  }

  lemma ZeroIsRep(t: Target)
    ensures Rep(t, 0.0)
  {
    Witness(t, 0, if t.Format? then t.f.MinE() else 0);
  }

  lemma NearestSigned(t: Target, even: bool, x: real, y: real, r: real, z: real)
    requires x != 0.0 && RoundsMag(t, Nearest(even), Real(Abs(x)), r) && r >= 0.0
    requires y == (if x < 0.0 then -r else r) && SignedRep(t, z) && Rep(t, 0.0)
    ensures Abs(x - y) <= Abs(x - z)
    ensures Abs(x - y) == Abs(x - z) && z != y ==> if even then Even(t, r) else Abs(z) <= r
  {
    hide Rep, Even;
    if 0.0 != r { assert Closer(t, even, Real(Abs(x)), r, 0.0); }
    if Abs(z) != r { assert Closer(t, even, Real(Abs(x)), r, Abs(z)); }
  }
}
