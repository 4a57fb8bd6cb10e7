/** The two binary formats, the bit patterns they use and the numbers those patterns denote.
    A register value is a natural number, trimmed to the format's width on entry; a mask by 2^k - 1
    is `% Pow2(k)`, a right shift by k is `/ Pow2(k)`, and an OR of disjoint fields is a sum. */
module FloatFormat {
  import opened Arithmetic
  import opened Powers

  type u128 = x: int | 0 <= x < 0x1_0000_0000_0000_0000_0000_0000_0000_0000

  lemma ShiftBound(m: nat, l: nat, k: nat, n: nat)
    requires m < Pow2(l) && l + k <= n
    ensures m * Pow2(k) < Pow2(n)
  {
    Pow2Add(l, k);
    Pow2Mono(l + k, n);
    hide Pow2;
    MulLe(m + 1, Pow2(l), Pow2(k));
    assert (m + 1) * Pow2(k) == m * Pow2(k) + Pow2(k);
  }

  lemma Pow2Of128()
    ensures Pow2(128) == 0x1_0000_0000_0000_0000_0000_0000_0000_0000
  {
    Pow2Literals();
  }

  /** Shifts on 128-bit significands. A left shift must not lose a bit. */
  function Shl(m: nat, k: int): (r: u128)
    requires 0 <= k < 128 && m * Pow2(k) < Pow2(128)
    ensures r == m * Pow2(k)
  {
    Pow2Of128();
    m * Pow2(k)
  }

  function Shr(m: nat, k: nat): (r: nat)
    ensures r * Pow2(k) <= m < (r + 1) * Pow2(k)
  {
    DivBounds(m, Pow2(k));
    m / Pow2(k)
  }

  function Low(m: nat, k: nat): (r: nat)
    ensures r < Pow2(k) && m == Shr(m, k) * Pow2(k) + r
  {
    DivBounds(m, Pow2(k));
    m % Pow2(k)
  }

  lemma DivBounds(m: nat, p: nat)
    requires p > 0
    ensures 0 <= m / p && 0 <= m % p < p && m == (m / p) * p + m % p
  {
    assert m == (m / p) * p + m % p;
    if m / p < 0 { MulLe(m / p, -1, p); }
  }

  /** Accrued exception flags in their `fflags` positions. */
  const NX: nat := 1
  const UF: nat := 2
  const OF: nat := 4
  const DZ: nat := 8
  const NV: nat := 16

  datatype Rm = Rne | Rtz | Rdn | Rup | Rmm

  /** A format is fixed by its total width and its stored significand width. */
  datatype Fmt = S | D {

    function Bits(): nat { if S? then 32 else 64 }

    function Sig(): nat { if S? then 23 else 52 }

    function ExpBits(): nat { Bits() - Sig() - 1 }

    function Bias(): int { Pow2(ExpBits() - 1) - 1 }

    function MaxField(): nat { Pow2(ExpBits()) - 1 }

    function QuietBit(): nat { Pow2(Sig() - 1) }

    function SignMask(): nat { Pow2(Bits() - 1) }

    function Zero(neg: bool): nat { if neg then SignMask() else 0 }

    function Inf(neg: bool): nat { MaxField() * Pow2(Sig()) + Zero(neg) }

    function Nan(): nat { MaxField() * Pow2(Sig()) + QuietBit() }

    function MaxFinite(neg: bool): nat {
      (MaxField() - 1) * Pow2(Sig()) + (Pow2(Sig()) - 1) + Zero(neg)
    }

    /** The exponent of a subnormal's least significant bit. */
    function MinE(): int { 1 - Bias() - Sig() }

    function Mask(x: nat): nat { x % Pow2(Bits()) }

    predicate Neg(x: nat) { Mask(x) / SignMask() == 1 }

    function Field(x: nat): nat { (Mask(x) / Pow2(Sig())) % Pow2(ExpBits()) }

    function Frac(x: nat): nat { Mask(x) % Pow2(Sig()) }

    predicate IsNan(x: nat) { Field(x) == MaxField() && Frac(x) != 0 }

    predicate IsSnan(x: nat) { IsNan(x) && Frac(x) < QuietBit() }

    predicate IsInf(x: nat) { Field(x) == MaxField() && Frac(x) == 0 }

    predicate IsFinite(x: nat) { Field(x) != MaxField() }

    /** The magnitude a finite pattern denotes. */
    ghost function Magnitude(x: nat): (r: real)
      requires IsFinite(x)
      ensures r >= 0.0
    {
      if Field(x) == 0 then
        DyadicSign(Frac(x), MinE()); Dyadic(Frac(x), MinE())
      else
        DyadicSign(Pow2(Sig()) + Frac(x), Field(x) - Bias() - Sig());
        Dyadic(Pow2(Sig()) + Frac(x), Field(x) - Bias() - Sig())
    }

    /** The real number a finite pattern denotes. */
    ghost function Value(x: nat): real
      requires IsFinite(x)
    {
      if Neg(x) then -Magnitude(x) else Magnitude(x)
    }
  }

  lemma Doubling(n: nat, v: nat)
    requires Pow2(n) == v
    ensures Pow2(2 * n) == v * v
  {
    Pow2Add(n, n);
  }

  lemma Halving(n: nat, v: nat)
    requires Pow2(n + 1) == 2 * v
    ensures Pow2(n) == v
  {
  }

  lemma Pow2Literals()
    ensures Pow2(7) == 128 && Pow2(8) == 256 && Pow2(10) == 1024 && Pow2(11) == 2048
    ensures Pow2(31) == 0x8000_0000 && Pow2(32) == 0x1_0000_0000
    ensures Pow2(63) == 0x8000_0000_0000_0000 && Pow2(64) == 0x1_0000_0000_0000_0000
    ensures Pow2(128) == 0x1_0000_0000_0000_0000_0000_0000_0000_0000
  {
    assert Pow2(8) == 256;
    Doubling(8, 256);
    Doubling(16, 0x1_0000);
    Doubling(32, 0x1_0000_0000);
    Doubling(64, 0x1_0000_0000_0000_0000);
    Halving(31, 0x8000_0000);
    Halving(63, 0x8000_0000_0000_0000);
  }

  /** Every derived constant of the two formats that proofs rely on. */
  lemma FmtFacts(f: Fmt)
    ensures f.Bits() == f.Sig() + f.ExpBits() + 1 && 23 <= f.Sig() <= 52 && 8 <= f.ExpBits() <= 11
    ensures f.MaxField() == 2 * f.Bias() + 1 && 127 <= f.Bias() <= 1023
    ensures Pow2(f.ExpBits()) == f.MaxField() + 1
    ensures Pow2(f.Bits()) == 2 * f.SignMask()
    ensures Pow2(f.Sig()) == 2 * f.QuietBit() && Pow2(f.Sig() + 1) == 2 * Pow2(f.Sig())
    ensures Pow2(f.Bits()) <= 0x1_0000_0000_0000_0000
  {
    hide Pow2;
    Pow2Literals();
    Pow2Next(f.Sig() - 1);
    Pow2Next(f.Sig());
  }

  lemma Pow2Next(n: nat)
    ensures Pow2(n + 1) == 2 * Pow2(n)
  {
  }

  lemma SignMaskProduct(f: Fmt)
    ensures f.SignMask() == Pow2(f.ExpBits()) * Pow2(f.Sig())
  {
    Pow2Add(f.ExpBits(), f.Sig());
  }

  /** The pattern with the given sign, exponent field and fraction. */
  function Pack(f: Fmt, neg: bool, field: nat, frac: nat): nat
  {
    f.Zero(neg) + field * Pow2(f.Sig()) + frac
  }

  /** Packing is injective: the three fields come back out. */
  lemma PackFields(f: Fmt, neg: bool, field: nat, frac: nat)
    requires field <= f.MaxField() && frac < Pow2(f.Sig())
    ensures var x := Pack(f, neg, field, frac);
            x < Pow2(f.Bits()) && f.Mask(x) == x &&
            f.Neg(x) == neg && f.Field(x) == field && f.Frac(x) == frac
  {
    FmtFacts(f);
    SignMaskProduct(f);
    hide Pow2;
    PackArithmetic(neg, field, frac, Pow2(f.Sig()), Pow2(f.ExpBits()), f.SignMask());
    SmallMod(Pack(f, neg, field, frac), Pow2(f.Bits()));
  }

  lemma PackArithmetic(neg: bool, field: nat, frac: nat, p: nat, q: nat, m: nat)
    requires p > 0 && q > 0 && field < q && frac < p && m == q * p
    ensures var x := (if neg then m else 0) + field * p + frac;
            x < 2 * m && x / m == (if neg then 1 else 0) &&
            (x / p) % q == field && x % p == frac
  {
    var low := field * p + frac;
    assert low <= (q - 1) * p + frac by { MulLe(field, q - 1, p); }
    assert low < q * p;
    var x := (if neg then q * p else 0) + low;
    var h := if neg then q + field else field;
    assert x == h * p + frac;
    DivModUnique(x, p, h, frac);
    DivModUnique(h, q, if neg then 1 else 0, field);
    DivModUnique(x, q * p, if neg then 1 else 0, low);
  }

  /** A pattern is the packing of its own fields, after trimming to the format's width. */
  lemma PackOfFields(f: Fmt, x: nat)
    ensures f.Field(x) <= f.MaxField() && f.Frac(x) < Pow2(f.Sig())
    ensures f.Mask(x) == Pack(f, f.Neg(x), f.Field(x), f.Frac(x))
  {
    FmtFacts(f);
    SignMaskProduct(f);
    hide Pow2;
    FieldsOf(f.Mask(x), Pow2(f.Sig()), Pow2(f.ExpBits()), f.SignMask());
  }

  lemma QuotientBelow(y: nat, p: nat, n: nat)
    requires p > 0 && y < n * p
    ensures y / p < n
  {
    var h := y / p;
    assert y == h * p + y % p;
    if h >= n { MulLe(n, h, p); }
  }

  lemma FieldsBelow(y: nat, p: nat, q: nat, m: nat)
    requires p > 0 && q > 0 && m == q * p && y < m
    ensures (y / p) % q == y / p && y / m == 0
    ensures y == (y / p) * p + y % p
  {
    QuotientBelow(y, p, q);
    SmallMod(y / p, q);
    QuotientBelow(y, m, 1);
  }

  lemma FieldsOf(y: nat, p: nat, q: nat, m: nat)
    requires p > 0 && q > 0 && m == q * p && y < 2 * m
    ensures (y / p) % q < q && y % p < p && 0 <= y / m <= 1
    ensures y == (if y / m == 1 then m else 0) + ((y / p) % q) * p + y % p
  {
    if y < m {
      FieldsBelow(y, p, q, m);
    } else {
      var z := y - m;
      FieldsBelow(z, p, q, m);
      assert z == (z / p) * p + z % p;
      assert y == (q + z / p) * p + z % p by { assert (q + z / p) * p == q * p + (z / p) * p; }
      DivModUnique(y, p, q + z / p, z % p);
      QuotientBelow(z, p, q);
      DivModUnique(q + z / p, q, 1, z / p);
      DivModUnique(y, m, 1, z);
    }
  }
}
