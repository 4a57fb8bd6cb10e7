/** The arithmetic operations: unpack, compute exactly or with a sticky bit, round once. */
module FloatOps {
  import opened Arithmetic
  import opened Powers
  import opened FloatFormat
  import opened Packing
  import opened Sums

  /** Exact zero sums are +0 except when rounding towards minus infinity. */
  function ZeroSign(rm: Rm): bool { rm.Rdn? }

  function Invalid(f: Fmt): Fp { Fp(f.Nan(), NV) }

  function NanResult(f: Fmt, signalling: bool): Fp { Fp(f.Nan(), if signalling then NV else 0) }

  predicate Signalling(c: Cls) { c.Nan? && c.signalling }

  /** The pattern trimmed to the format, with its sign bit flipped on request. */
  function WithSign(f: Fmt, x: nat, flip: bool): nat {
    PackOfFields(f, x);
    if !flip then f.Mask(x) else if f.Neg(x) then f.Mask(x) - f.SignMask() else f.Mask(x) + f.SignMask()
  }

  function RoundSum(f: Fmt, rm: Rm, sa: bool, ma: u128, ea: int, sb: bool, mb: u128, eb: int): Fp
    requires 0 < ma < Pow2(106) && 0 < mb < Pow2(106)
  {
    var (sign, m, e) := AddRaw(sa, ma, ea, sb, mb, eb);
    if m == 0 then Fp(f.Zero(ZeroSign(rm)), 0) else RoundPack(f, sign, m, e, rm)
  }

  /** A format's significand is far narrower than 106 bits, and a product just fits. */
  lemma SignificandFits(f: Fmt, m: nat)
    requires Pow2(f.Sig()) <= m < Pow2(f.Sig() + 1)
    ensures 0 < m < Pow2(53) < Pow2(106) < Pow2(127) < Pow2(128)
    ensures Pow2(128) == 0x1_0000_0000_0000_0000_0000_0000_0000_0000
  {
    FmtFacts(f);
    Pow2Literals();
    hide Pow2;
    Pow2Mono(f.Sig() + 1, 53);
    Pow2Strict(53, 106);
    Pow2Strict(106, 127);
    Pow2Strict(127, 128);
  }

  lemma ProductFits(f: Fmt, m: nat, n: nat)
    requires Pow2(f.Sig()) <= m < Pow2(f.Sig() + 1) && Pow2(f.Sig()) <= n < Pow2(f.Sig() + 1)
    ensures 0 < m * n < Pow2(106) < Pow2(127) < Pow2(128)
    ensures Pow2(128) == 0x1_0000_0000_0000_0000_0000_0000_0000_0000
  {
    hide Pow2;
    SignificandFits(f, m);
    SignificandFits(f, n);
    Pow2Add(53, 53);
    ProductBelow(m, n, Pow2(53));
  }

  lemma ProductBelow(m: nat, n: nat, p: nat)
    requires 0 < m < p && 0 < n < p
    ensures 0 < m * n < p * p
  {
    MulLe(m, p, n);
    MulLe(n + 1, p, p);
    MulLe(1, m, n);
  }

  function AddOrSub(f: Fmt, a: nat, b: nat, rm: Rm, negateB: bool): Fp {
    var (sa, ca) := Unpack(f, a);
    var (sb0, cb) := Unpack(f, b);
    var sb := sb0 != negateB;
    if ca.Nan? || cb.Nan? then NanResult(f, Signalling(ca) || Signalling(cb))
    else
      if ca.Inf? then if cb.Inf? && sa != sb then Invalid(f) else Fp(f.Inf(sa), 0)
      else if cb.Inf? then Fp(f.Inf(sb), 0)
      else if ca.Zero? then
        if cb.Zero? then Fp(f.Zero(if sa == sb then sa else ZeroSign(rm)), 0)
        else Fp(WithSign(f, b, negateB), 0)
      else if cb.Zero? then Fp(f.Mask(a), 0)
      else
        SignificandFits(f, ca.m);
        SignificandFits(f, cb.m);
        RoundSum(f, rm, sa, ca.m, ca.e, sb, cb.m, cb.e)
  }

  function Mul(f: Fmt, a: nat, b: nat, rm: Rm): Fp {
    var (sa, ca) := Unpack(f, a);
    var (sb, cb) := Unpack(f, b);
    var sign := sa != sb;
    if ca.Nan? || cb.Nan? then NanResult(f, Signalling(ca) || Signalling(cb))
    else
      if (ca.Inf? && cb.Zero?) || (ca.Zero? && cb.Inf?) then Invalid(f)
      else if ca.Inf? || cb.Inf? then Fp(f.Inf(sign), 0)
      else if ca.Zero? || cb.Zero? then Fp(f.Zero(sign), 0)
      else
        ProductFits(f, ca.m, cb.m);
        RoundPack(f, sign, ca.m * cb.m, ca.e + cb.e, rm)
  }

  /** The quotient of normalised significands has 64 to 65 bits at least and at most
      sig + 66, counting the sticky one. */
  lemma QuotientFits(f: Fmt, ma: nat, mb: nat)
    requires Pow2(f.Sig()) <= ma < Pow2(f.Sig() + 1) && Pow2(f.Sig()) <= mb < Pow2(f.Sig() + 1)
    ensures ma * Pow2(64) < Pow2(128)
    ensures var q := (ma * Pow2(64)) / mb; Pow2(63) <= q && q + 1 < Pow2(127) < Pow2(128)
    ensures Pow2(128) == 0x1_0000_0000_0000_0000_0000_0000_0000_0000
  {
    hide Pow2;
    FmtFacts(f);
    Pow2Literals();
    SignificandFits(f, ma);
    SignificandFits(f, mb);
    ShiftBound(ma, f.Sig() + 1, 64, 126);
    Pow2Strict(126, 127);
    QuotientBounds(ma, mb, ma * Pow2(64) / mb, Pow2(f.Sig()), Pow2(63), Pow2(64), Pow2(126));
  }

  lemma QuotientBounds(ma: nat, mb: nat, q: int, s: nat, h: nat, k: nat, top: nat)
    requires s <= ma && 0 < mb < 2 * s && h > 0 && k == 2 * h && ma * k < top && q == ma * k / mb
    ensures h <= q < top
  {
    DivBounds(ma * k, mb);
    MulLe(s, ma, k);
    QuotientLarge(ma * k, mb, q, s, h, k);
    QuotientSmall(ma * k, mb, q);
  }

  lemma QuotientLarge(num: nat, d: nat, q: nat, s: nat, h: nat, k: nat)
    requires d > 0 && num == q * d + num % d && num % d < d < 2 * s && k == 2 * h && s * k <= num && h > 0
    ensures q >= h
  {
    if q < h { MulLe(q + 1, h, d); MulLe(d, 2 * s, h); }
  }

  lemma QuotientSmall(num: nat, d: nat, q: nat)
    requires d > 0 && q * d <= num
    ensures q <= num
  {
    MulLe(1, d, q);
  }

  /** The quotient to 64 places with the remainder as its sticky bit. */
  function StickyQuotient(f: Fmt, ma: nat, mb: nat): u128
    requires Pow2(f.Sig()) <= ma < Pow2(f.Sig() + 1) && Pow2(f.Sig()) <= mb < Pow2(f.Sig() + 1)
  {
    QuotientFits(f, ma, mb);
    var num := Shl(ma, 64);
    OrSticky(num / mb, num % mb != 0)
  }

  function Div(f: Fmt, a: nat, b: nat, rm: Rm): Fp {
    var (sa, ca) := Unpack(f, a);
    var (sb, cb) := Unpack(f, b);
    var sign := sa != sb;
    if ca.Nan? || cb.Nan? then NanResult(f, Signalling(ca) || Signalling(cb))
    else
      if (ca.Inf? && cb.Inf?) || (ca.Zero? && cb.Zero?) then Invalid(f)
      else if ca.Inf? then Fp(f.Inf(sign), 0)
      else if cb.Inf? then Fp(f.Zero(sign), 0)
      else if cb.Zero? then Fp(f.Inf(sign), DZ)
      else if ca.Zero? then Fp(f.Zero(sign), 0)
      else
        RoundPack(f, sign, StickyQuotient(f, ca.m, cb.m), ca.e - cb.e - 64, rm)
  }

  /** (a * b) + c with one rounding; the product and the addend can each be negated. */
  function Fma(f: Fmt, a: nat, b: nat, c: nat, negateProduct: bool, negateAddend: bool, rm: Rm): Fp {
    var (sa, ca) := Unpack(f, a);
    var (sb, cb) := Unpack(f, b);
    var (sc0, cc) := Unpack(f, c);
    var sc := sc0 != negateAddend;
    var sp := (sa != sb) != negateProduct;
    if (ca.Inf? && cb.Zero?) || (ca.Zero? && cb.Inf?) then Invalid(f)
    else if ca.Nan? || cb.Nan? || cc.Nan? then
      NanResult(f, Signalling(ca) || Signalling(cb) || Signalling(cc))
    else if ca.Inf? || cb.Inf? then
      if cc.Inf? && sc != sp then Invalid(f) else Fp(f.Inf(sp), 0)
    else if cc.Inf? then Fp(f.Inf(sc), 0)
    else if ca.Num? && cb.Num? then
      ProductFits(f, ca.m, cb.m);
      if cc.Zero? then RoundPack(f, sp, ca.m * cb.m, ca.e + cb.e, rm)
      else
        SignificandFits(f, cc.m);
        RoundSum(f, rm, sp, ca.m * cb.m, ca.e + cb.e, sc, cc.m, cc.e)
    else if cc.Zero? then Fp(f.Zero(if sp == sc then sp else ZeroSign(rm)), 0)
    else Fp(WithSign(f, c, negateAddend), 0)
  }

  /** Conversion between the two precisions. */
  function Convert(from: Fmt, to: Fmt, a: nat, rm: Rm): Fp {
    var (sign, c) := Unpack(from, a);
    match c
    case Nan(signalling) => NanResult(to, signalling)
    case Inf => Fp(to.Inf(sign), 0)
    case Zero => Fp(to.Zero(sign), 0)
    case Num(m, e) => SignificandFits(from, m); RoundPack(to, sign, m, e, rm)
  }
}
