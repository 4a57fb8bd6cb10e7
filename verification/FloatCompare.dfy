/** Comparisons, minimum and maximum, and laws of the flags and of the order of results. */
module FloatCompare {
  import opened Arithmetic
  import opened Powers
  import opened FloatFormat
  import opened Rounding
  import opened Packing
  import opened Sums
  import opened FloatOps

  /** The sign-and-magnitude key of a pattern. */
  function Key(f: Fmt, x: nat): int {
    var magnitude := f.Mask(x) % f.SignMask();
    if f.Neg(x) then -(magnitude as int) else magnitude
  }

  /** What a non-NaN pattern denotes on the extended real line. */
  datatype Ext = NegInf | Fin(r: real) | PosInf

  ghost function Denotes(f: Fmt, x: nat): Ext
    requires !f.IsNan(x)
  {
    if f.IsFinite(x) then Fin(f.Value(x)) else if f.Neg(x) then NegInf else PosInf
  }

  predicate Below(a: Ext, b: Ext) {
    if a.Fin? && b.Fin? then a.r < b.r else a != b && (a.NegInf? || b.PosInf?)
  }

  function MagnitudeKey(f: Fmt, x: nat): nat { f.Field(x) * Pow2(f.Sig()) + f.Frac(x) }

  lemma KeyOfFields(f: Fmt, x: nat)
    ensures Key(f, x) == if f.Neg(x) then 0 - MagnitudeKey(f, x) else MagnitudeKey(f, x)
  {
    hide Pow2;
    FmtFacts(f);
    SignMaskProduct(f);
    PackOfFields(f, x);
    KeyArithmetic(f.Neg(x), f.Field(x), f.Frac(x), Pow2(f.Sig()), Pow2(f.ExpBits()), f.SignMask());
  }

  lemma KeyArithmetic(neg: bool, field: nat, frac: nat, p: nat, q: nat, m: nat)
    requires field < q && frac < p && m == q * p && m > 0
    ensures ((if neg then m else 0) + field * p + frac) % m == field * p + frac
  {
    MulLe(field + 1, q, p);
    assert (field + 1) * p == field * p + p;
    DivModUnique((if neg then m else 0) + field * p + frac, m, if neg then 1 else 0, field * p + frac);
  }

  lemma KeyLess(n: nat, i: nat, p: nat, j: nat, s: nat)
    requires i < j && n < 2 * s && p >= s
    ensures n + i * s < p + j * s
  {
    MulLe(i + 1, j, s);
    assert (i + 1) * s == i * s + s;
  }

  lemma CanonicalKey(f: Fmt, x: nat, n: nat, k: int)
    requires f.IsFinite(x)
    requires if f.Field(x) == 0 then n == f.Frac(x) && k == f.MinE()
             else n == Pow2(f.Sig()) + f.Frac(x) && k == f.Field(x) - f.Bias() - f.Sig()
    ensures MagnitudeKey(f, x) == n + (k - f.MinE()) * Pow2(f.Sig())
  {
    hide Pow2;
    FmtFacts(f);
  }

  /** The magnitude bits order the finite magnitudes exactly. */
  lemma MagnitudeOrder(f: Fmt, x: nat, y: nat)
    requires f.IsFinite(x) && f.IsFinite(y)
    ensures MagnitudeKey(f, x) < MagnitudeKey(f, y) <==> f.Magnitude(x) < f.Magnitude(y)
    ensures MagnitudeKey(f, x) == MagnitudeKey(f, y) <==> f.Magnitude(x) == f.Magnitude(y)
  {
    hide Pow2, Dyadic, MagnitudeKey;
    var n, k := MagnitudeCanonical(f, x);
    var p, l := MagnitudeCanonical(f, y);
    CanonicalKey(f, x, n, k);
    CanonicalKey(f, y, p, l);
    FmtFacts(f);
    DyadicOrder(n, p, k);
    if k < l {
      HigherIsGreater(Format(f), p, l, n, k);
      KeyLess(n, k - f.MinE(), p, l - f.MinE(), Pow2(f.Sig()));
    } else if l < k {
      HigherIsGreater(Format(f), n, k, p, l);
      KeyLess(p, l - f.MinE(), n, k - f.MinE(), Pow2(f.Sig()));
    }
  }

  lemma KeyBelow(field: nat, frac: nat, top: nat, p: nat)
    requires field < top && frac < p
    ensures field * p + frac < top * p
  {
    MulLe(field + 1, top, p);
    assert (field + 1) * p == field * p + p;
  }

  lemma InfinityKey(f: Fmt, x: nat, y: nat)
    requires f.IsInf(x) && !f.IsNan(y)
    ensures MagnitudeKey(f, y) <= MagnitudeKey(f, x)
    ensures MagnitudeKey(f, y) == MagnitudeKey(f, x) <==> f.IsInf(y)
  {
    hide Pow2;
    FmtFacts(f);
    PackOfFields(f, y);
    if f.IsFinite(y) { KeyBelow(f.Field(y), f.Frac(y), f.MaxField(), Pow2(f.Sig())); }
  }

  /** Keys order all non-NaN patterns exactly as the extended reals they denote; both zeros have
      the same key. */
  lemma KeyOrders(f: Fmt, x: nat, y: nat)
    requires !f.IsNan(x) && !f.IsNan(y)
    ensures Key(f, x) < Key(f, y) <==> Below(Denotes(f, x), Denotes(f, y))
    ensures Key(f, x) == Key(f, y) <==> Denotes(f, x) == Denotes(f, y)
  {
    hide Pow2, Key, MagnitudeKey;
    KeyOfFields(f, x);
    KeyOfFields(f, y);
    ZeroKey(f, x);
    ZeroKey(f, y);
    if f.IsInf(x) { InfinityKey(f, x, y); }
    if f.IsInf(y) { InfinityKey(f, y, x); }
    if f.IsFinite(x) && f.IsFinite(y) { MagnitudeOrder(f, x, y); }
  }

  lemma ZeroKey(f: Fmt, x: nat)
    ensures f.IsFinite(x) ==> (MagnitudeKey(f, x) == 0 <==> f.Magnitude(x) == 0.0)
    ensures f.IsInf(x) ==> MagnitudeKey(f, x) > 0
  {
    hide Pow2, Dyadic, MagnitudeKey;
    if f.IsFinite(x) {
      ZeroPattern(f, false);
      ZeroPatternKey(f);
      MagnitudeOrder(f, x, f.Zero(false));
    } else if f.IsInf(x) {
      ZeroPattern(f, false);
      ZeroPatternKey(f);
      InfinityKey(f, x, f.Zero(false));
    }
  }

  lemma ZeroPatternKey(f: Fmt)
    ensures MagnitudeKey(f, f.Zero(false)) == 0
  {
    PackFields(f, false, 0, 0);
    hide Pow2;
  }

  // ---------------------------------------------------------------------------------------

  function NanFlags(f: Fmt, a: nat, b: nat): nat {
    if Signalling(Unpack(f, a).1) || Signalling(Unpack(f, b).1) then NV else 0
  }

  /** Quiet equality. */
  function Eq(f: Fmt, a: nat, b: nat): (bool, nat) {
    if Unpack(f, a).1.Nan? || Unpack(f, b).1.Nan? then (false, NanFlags(f, a, b))
    else (Key(f, a) == Key(f, b), 0)
  }

  /** Signalling less-than, and less-or-equal. */
  function Lt(f: Fmt, a: nat, b: nat, orEqual: bool): (bool, nat) {
    if Unpack(f, a).1.Nan? || Unpack(f, b).1.Nan? then (false, NV)
    else (if orEqual then Key(f, a) <= Key(f, b) else Key(f, a) < Key(f, b), 0)
  }

  function MinMax(f: Fmt, a: nat, b: nat, wantMax: bool): (nat, nat) {
    var (sa, ca) := Unpack(f, a);
    var cb := Unpack(f, b).1;
    var flags := NanFlags(f, a, b);
    if ca.Nan? && cb.Nan? then (f.Nan(), flags)
    else if ca.Nan? then (f.Mask(b), flags)
    else if cb.Nan? then (f.Mask(a), flags)
    else if ca.Zero? && cb.Zero? then (if sa != wantMax then f.Mask(a) else f.Mask(b), flags)
    else
      var takeA := if wantMax then Key(f, a) > Key(f, b) else Key(f, a) < Key(f, b);
      (if takeA then f.Mask(a) else f.Mask(b), flags)
  }

  /** The three comparisons agree with the order of the extended reals on non-NaN operands, and
      answer false on NaNs: quietly for feq unless signalling, loudly for flt and fle. */
  lemma ComparisonsCorrect(f: Fmt, a: nat, b: nat)
    ensures !f.IsNan(a) && !f.IsNan(b) ==>
              Lt(f, a, b, false) == (Below(Denotes(f, a), Denotes(f, b)), 0) &&
              Eq(f, a, b) == (Denotes(f, a) == Denotes(f, b), 0) &&
              Lt(f, a, b, true) == (Lt(f, a, b, false).0 || Eq(f, a, b).0, 0)
    ensures f.IsNan(a) || f.IsNan(b) ==>
              Lt(f, a, b, false) == (false, NV) && Lt(f, a, b, true) == (false, NV) &&
              Eq(f, a, b) == (false, if f.IsSnan(a) || f.IsSnan(b) then NV else 0)
  {
    hide Pow2, Key, Unpack;
    UnpackValue(f, a);
    UnpackValue(f, b);
    if !f.IsNan(a) && !f.IsNan(b) { KeyOrders(f, a, b); }
  }

  /** fle is a total preorder on non-NaN patterns, with flt its strict part and feq its
      equivalence. */
  lemma OrderIsTotal(f: Fmt, a: nat, b: nat, c: nat)
    requires !f.IsNan(a) && !f.IsNan(b) && !f.IsNan(c)
    ensures Lt(f, a, b, true).0 || Lt(f, b, a, true).0
    ensures Lt(f, a, b, true).0 && Lt(f, b, c, true).0 ==> Lt(f, a, c, true).0
    ensures Lt(f, a, b, false).0 <==> !Lt(f, b, a, true).0
    ensures Eq(f, a, b).0 <==> Lt(f, a, b, true).0 && Lt(f, b, a, true).0
  {
    hide Pow2, Key, Unpack;
    UnpackValue(f, a);
    UnpackValue(f, b);
    UnpackValue(f, c);
  }

  /** x lies on the wanted side of y on the extended real line, and of two zeros it is a negative
      one only where that is the wanted side. */
  ghost predicate Bounds(f: Fmt, x: nat, y: nat, wantMax: bool)
    requires !f.IsNan(x) && !f.IsNan(y)
  {
    var u, v := Denotes(f, x), Denotes(f, y);
    (if wantMax then !Below(u, v) else !Below(v, u)) &&
    (u == Fin(0.0) && v == Fin(0.0) ==> if wantMax then f.Neg(x) ==> f.Neg(y) else f.Neg(y) ==> f.Neg(x))
  }

  /** fmin and fmax return an operand that bounds both, with -0 below +0; a NaN gives way to a
      number and only a signalling one raises invalid. */
  lemma MinMaxCorrect(f: Fmt, a: nat, b: nat, wantMax: bool)
    ensures var (bits, flags) := MinMax(f, a, b, wantMax);
            flags == (if f.IsSnan(a) || f.IsSnan(b) then NV else 0) &&
            (f.IsNan(a) && f.IsNan(b) ==> bits == f.Nan()) &&
            (f.IsNan(a) && !f.IsNan(b) ==> bits == f.Mask(b)) &&
            (f.IsNan(b) && !f.IsNan(a) ==> bits == f.Mask(a)) &&
            (!f.IsNan(a) && !f.IsNan(b) ==>
               (bits == f.Mask(a) || bits == f.Mask(b)) && !f.IsNan(bits) &&
               Bounds(f, bits, a, wantMax) && Bounds(f, bits, b, wantMax))
  {
    hide Pow2, Key, Unpack;
    UnpackValue(f, a);
    UnpackValue(f, b);
    MaskKeeps(f, a);
    MaskKeeps(f, b);
    if !f.IsNan(a) && !f.IsNan(b) {
      KeyOrders(f, a, b);
      KeyOrders(f, b, a);
      ZeroOrders(f, a);
      ZeroOrders(f, b);
    }
  }

  lemma ZeroOrders(f: Fmt, a: nat)
    requires !f.IsNan(a)
    ensures Denotes(f, a) == Fin(0.0) <==> Unpack(f, a).1.Zero?
  {
    hide Pow2, Unpack;
    UnpackValue(f, a);
  }

  lemma MaskKeeps(f: Fmt, a: nat)
    ensures f.Neg(f.Mask(a)) == f.Neg(a) && f.Field(f.Mask(a)) == f.Field(a) && f.Frac(f.Mask(a)) == f.Frac(a)
    ensures Key(f, f.Mask(a)) == Key(f, a)
  {
    hide Pow2;
    FmtFacts(f);
    DivBounds(a, Pow2(f.Bits()));
    SmallMod(f.Mask(a), Pow2(f.Bits()));
  }
}
