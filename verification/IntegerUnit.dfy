/** The integer ALU and the multiply/divide unit, written once at a width of 32 or 64 bits.
    Registers are naturals below 2^64; a wrapping operation is a remainder by 2^64. */
module IntegerUnit {
  import opened Arithmetic
  import opened Basics
  import opened Powers

  const B32: nat := 0x1_0000_0000
  const B64: nat := 0x1_0000_0000_0000_0000

  type u64 = x: int | 0 <= x < B64

  datatype Width = W32 | W64 {

    function Bits(): nat { if W32? then 32 else 64 }

    function Modulus(): nat { if W32? then B32 else B64 }

    function Half(): int { if W32? then 0x8000_0000 else 0x8000_0000_0000_0000 }
  }

  /** The low bits of a register, unsigned. */
  function Trunc(v: u64, w: Width): u64 { v % w.Modulus() }

  /** The low bits of a register, as a signed number. */
  function Signed(v: u64, w: Width): int {
    var t := v % w.Modulus();
    if t < w.Half() then t else t - w.Modulus()
  }

  function Wrap(x: int): u64 { x % B64 }

  /** The low bits of a register sign-extended to 64. */
  function Sext(v: u64, w: Width): u64 { Wrap(Signed(v, w)) }

  // ---------------------------------------------------------------------------------------
  // Operations

  datatype Bitop = Xor | Or | And

  function Bit(op: Bitop, x: nat, y: nat): nat {
    match op
    case Xor => if x != y then 1 else 0
    case Or => if x + y > 0 then 1 else 0
    case And => if x + y > 1 then 1 else 0
  }

  /** The low n bits of a bitwise operation. */
  function Bitwise(op: Bitop, a: nat, b: nat, n: nat): (r: nat)
    ensures r < Pow2(n)
  {
    if n == 0 then 0 else Bit(op, a % 2, b % 2) + 2 * Bitwise(op, a / 2, b / 2, n - 1)
  }

  function Bitwise64(op: Bitop, a: u64, b: u64): u64 {
    Sixty4();
    Bitwise(op, a, b, 64)
  }

  function Alu(f3: nat, f7: nat, a: u64, b: u64, w: Width): Option<u64> {
    var shamt := b % w.Bits();
    var v: Option<u64> :=
      if f3 == 0 && f7 == 0 then Some(Wrap(a + b))
      else if f3 == 0 && f7 == 0x20 then Some(Wrap(a - b))
      else if f3 == 1 && f7 == 0 then Some(Wrap(a * Pow2(shamt)))
      else if f3 == 2 && f7 == 0 then Some(if Signed(a, w) < Signed(b, w) then 1 else 0)
      else if f3 == 3 && f7 == 0 then Some(if Trunc(a, w) < Trunc(b, w) then 1 else 0)
      else if f3 == 4 && f7 == 0 then Some(Bitwise64(Xor, a, b))
      else if f3 == 5 && f7 == 0 then Some(Wrap(Trunc(a, w) / Pow2(shamt)))
      else if f3 == 5 && f7 == 0x20 then Some(Wrap(Signed(a, w) / Pow2(shamt)))
      else if f3 == 6 && f7 == 0 then Some(Bitwise64(Or, a, b))
      else if f3 == 7 && f7 == 0 then Some(Bitwise64(And, a, b))
      else None;
    if v.Some? then Some(Sext(v.value, w)) else None
  }

  /** Division that truncates toward zero. */
  function Quotient(a: int, b: int): int
    requires b != 0
  {
    var q := Magnitude(a) / Magnitude(b);
    if (a < 0) == (b < 0) then q else -q
  }

  /** Its remainder, which takes the sign of the dividend. */
  function Remainder(a: int, b: int): int
    requires b != 0
  {
    var r := Magnitude(a) % Magnitude(b);
    if a < 0 then -r else r
  }

  function Magnitude(x: int): (r: nat)
    ensures x != 0 ==> r > 0
  {
    if x < 0 then -x else x
  }

  function MulDiv(f3: nat, a: u64, b: u64, w: Width): Option<u64> {
    var sa, sb, ua, ub := Signed(a, w), Signed(b, w), Trunc(a, w), Trunc(b, w);
    var v: Option<u64> :=
      if f3 == 0 then Some(Wrap(a * b))
      else if f3 == 1 then Some(Wrap(sa * sb / w.Modulus()))
      else if f3 == 2 then Some(Wrap(sa * ub / w.Modulus()))
      else if f3 == 3 then Some(Wrap(ua * ub / w.Modulus()))
      else if f3 == 4 then Some(if sb == 0 then B64 - 1 else Wrap(Quotient(sa, sb)))
      else if f3 == 5 then Some(if ub == 0 then B64 - 1 else Wrap(ua / ub))
      else if f3 == 6 then Some(if sb == 0 then Wrap(sa) else Wrap(Remainder(sa, sb)))
      else if f3 == 7 then Some(if ub == 0 then ua else Wrap(ua % ub))
      else None;
    if v.Some? then Some(Sext(v.value, w)) else None
  }

  /** The register a multiply or divide writes. */
  function Result(f3: nat, a: u64, b: u64, w: Width): u64
    requires f3 <= 7
  {
    MulDiv(f3, a, b, w).value
  }

  // ---------------------------------------------------------------------------------------
  // Congruences

  lemma Four()
    ensures Pow2(4) == 16
  {
  }

  lemma Sixteen()
    ensures Pow2(16) == 0x1_0000
  {
    hide Pow2;
    Four();
    Pow2Add(4, 4);
    Pow2Add(8, 8);
  }

  lemma Sixty4()
    ensures Pow2(64) == B64 && Pow2(32) == B32
  {
    hide Pow2;
    Sixteen();
    Pow2Add(16, 16);
    Pow2Add(32, 32);
  }

  /** Numbers a multiple of m apart have the same remainder. */
  lemma SameMod(x: int, y: int, k: int, m: int)
    requires m > 0 && x == y + k * m
    ensures x % m == y % m
  {
    assert y == y / m * m + y % m;
    assert x == (y / m + k) * m + y % m by { assert (y / m + k) * m == y / m * m + k * m; }
    DivModUnique(x, m, y / m + k, y % m);
  }

  lemma ModTwice(x: int, m: int, k: int)
    requires m > 0 && k > 0
    ensures x % (k * m) % m == x % m
  {
    var n := k * m;
    MulLe(1, k, m);
    var q := x / n;
    assert x == q * n + x % n;
    assert q * n == (q * k) * m;
    SameMod(x % n, x, -(q * k), m);
  }

  /** Reducing a factor first changes nothing. */
  lemma ModFactor(a: int, b: int, m: int)
    requires m > 0
    ensures a % m * b % m == a * b % m
  {
    var q := a / m;
    assert a == q * m + a % m;
    assert a * b == a % m * b + (q * b) * m by { assert q * m * b == (q * b) * m; }
    SameMod(a * b, a % m * b, q * b, m);
  }

  lemma WrapMod(x: int, w: Width)
    ensures Wrap(x) % w.Modulus() == x % w.Modulus()
  {
    if w.W32? { ModTwice(x, B32, B32); } else { ModTwice(x, B64, 1); }
  }

  lemma SignedMod(v: u64, w: Width)
    ensures Signed(v, w) % w.Modulus() == v % w.Modulus() && -w.Half() <= Signed(v, w) < w.Half()
  {
    var t, m := v % w.Modulus(), w.Modulus();
    SmallMod(t, m);
    SameMod(t - m, t, -1, m);
  }

  /** A signed number is determined by its remainder. */
  lemma SignedUnique(v: u64, x: int, w: Width)
    requires v % w.Modulus() == x % w.Modulus() && -w.Half() <= x < w.Half()
    ensures Signed(v, w) == x
  {
    var m := w.Modulus();
    if x >= 0 {
      SmallMod(x, m);
    } else {
      SameMod(x + m, x, 1, m);
      SmallMod(x + m, m);
    }
  }

  lemma SignedWrap(x: int, w: Width)
    requires -w.Half() <= x < w.Half()
    ensures Signed(Wrap(x), w) == x
  {
    WrapMod(x, w);
    SignedUnique(Wrap(x), x, w);
  }

  /** A sign-extended result keeps its low bits, and is already sign-extended. */
  lemma SextFacts(v: u64, w: Width)
    ensures Trunc(Sext(v, w), w) == Trunc(v, w) && Signed(Sext(v, w), w) == Signed(v, w) &&
            Sext(Sext(v, w), w) == Sext(v, w)
  {
    SignedMod(v, w);
    SignedWrap(Signed(v, w), w);
    WrapMod(Signed(v, w), w);
    hide Signed, Wrap;
  }

  /** Only the low bits of a value reach a result. */
  lemma SextOfMod(x: u64, y: u64, w: Width)
    requires x % w.Modulus() == y % w.Modulus()
    ensures Sext(x, w) == Sext(y, w) && Signed(x, w) == Signed(y, w)
  {
  }

  lemma TruncMod(v: u64, w: Width)
    ensures Trunc(v, w) % w.Modulus() == v % w.Modulus() && Signed(Trunc(v, w), w) == Signed(v, w) &&
            Trunc(Trunc(v, w), w) == Trunc(v, w)
  {
    SmallMod(v % w.Modulus(), w.Modulus());
  }

  // ---------------------------------------------------------------------------------------
  // Multiplication

  lemma ProductMod(a: u64, b: u64, x: int, y: int, w: Width)
    requires x % w.Modulus() == a % w.Modulus() && y % w.Modulus() == b % w.Modulus()
    ensures Wrap(a * b) % w.Modulus() == x * y % w.Modulus()
  {
    var m := w.Modulus();
    WrapMod(a * b, w);
    ModFactor(a, b, m);
    ModFactor(x, b, m);
    ModFactor(b, x, m);
    ModFactor(y, x, m);
  }

  lemma FloorSplit(p: int, m: int)
    requires m > 0
    ensures p == p / m * m + p % m
  {
  }

  lemma FloorRange(p: int, lo: int, hi: int, m: int)
    requires m > 0 && lo * m <= p < hi * m
    ensures lo <= p / m < hi
  {
    var q := p / m;
    FloorSplit(p, m);
    assert (q + 1) * m == q * m + m;
    if q < lo {
      MulLe(q + 1, lo, m);
    } else if q >= hi {
      MulLe(hi, q, m);
    }
  }

  lemma LowOfProduct(a: u64, b: u64, x: int, y: int, w: Width)
    requires x % w.Modulus() == a % w.Modulus() && y % w.Modulus() == b % w.Modulus()
    ensures Trunc(Result(0, a, b, w), w) == x * y % w.Modulus()
  {
    ProductMod(a, b, x, y, w);
    SextFacts(Wrap(a * b), w);
    hide Sext, Signed;
  }

  lemma Rectangle(x: int, y: int, a: int, b: int)
    requires 0 <= x <= a && 0 <= y <= b
    ensures 0 <= x * y <= a * b
  {
    MulLe(x, a, y);
    MulLe(y, b, a);
    MulLe(0, x, y);
  }

  lemma Opposite(x: int, y: int)
    ensures (-x) * y == -(x * y) == x * (-y) && (-x) * (-y) == x * y
  {
  }

  /** The bounds of a product of a signed number with a signed or an unsigned one. */
  lemma ProductBounds(x: int, y: int, h: int)
    requires h > 0 && -h <= x < h && -h <= y < 2 * h
    ensures -h * (2 * h) <= x * y < h * (2 * h)
  {
    Opposite(x, y);
    Rectangle(h, h, h, h);
    var hh := h * h;
    assert h * (2 * h) == 2 * hh && -h * (2 * h) == -(2 * hh) && hh > 0;
    if x >= 0 && y >= 0 {
      Rectangle(x, y, h - 1, 2 * h - 1);
      assert (h - 1) * (2 * h - 1) == 2 * hh - 3 * h + 1;
    } else if x >= 0 {
      Rectangle(x, -y, h, h);
    } else if y >= 0 {
      Rectangle(-x, y, h, 2 * h);
    } else {
      Rectangle(-x, -y, h, h);
    }
  }

  lemma HighSigned(x: int, y: int, w: Width)
    requires -w.Half() <= x < w.Half() && -w.Half() <= y < w.Modulus()
    ensures Signed(Sext(Wrap(x * y / w.Modulus()), w), w) == x * y / w.Modulus()
  {
    ProductBounds(x, y, w.Half());
    FloorRange(x * y, -w.Half(), w.Half(), w.Modulus());
    SignedWrap(x * y / w.Modulus(), w);
    SextFacts(Wrap(x * y / w.Modulus()), w);
    hide Sext, Signed, Wrap;
  }

  lemma HighUnsigned(x: nat, y: nat, w: Width)
    requires x < w.Modulus() && y < w.Modulus()
    ensures Trunc(Sext(Wrap(x * y / w.Modulus()), w), w) == x * y / w.Modulus()
  {
    var m := w.Modulus();
    MulLe(x, m - 1, y);
    MulLe(y, m - 1, m - 1);
    assert (m - 1) * (m - 1) == m * m - 2 * m + 1;
    FloorRange(x * y, 0, m, m);
    SmallMod(x * y / m, m);
    WrapMod(x * y / m, w);
    SextFacts(Wrap(x * y / m), w);
    hide Sext, Signed, Wrap;
  }

  /** The high and low halves rebuild the exact product, signed, mixed and unsigned. */
  lemma HalvesRebuildProduct(a: u64, b: u64, w: Width)
    ensures var m, low := w.Modulus(), Trunc(Result(0, a, b, w), w);
            Signed(Result(1, a, b, w), w) * m + low == Signed(a, w) * Signed(b, w) &&
            Signed(Result(2, a, b, w), w) * m + low == Signed(a, w) * Trunc(b, w) &&
            Trunc(Result(3, a, b, w), w) * m + low == Trunc(a, w) * Trunc(b, w)
  {
    var m, sa, sb, ua, ub := w.Modulus(), Signed(a, w), Signed(b, w), Trunc(a, w), Trunc(b, w);
    SignedMod(a, w);
    SignedMod(b, w);
    TruncMod(a, w);
    TruncMod(b, w);
    LowOfProduct(a, b, sa, sb, w);
    LowOfProduct(a, b, sa, ub, w);
    LowOfProduct(a, b, ua, ub, w);
    HighSigned(sa, sb, w);
    HighSigned(sa, ub, w);
    HighUnsigned(ua, ub, w);
    FloorSplit(sa * sb, m);
    FloorSplit(sa * ub, m);
    FloorSplit(ua * ub, m);
    hide Sext, Signed, Wrap, Trunc;
  }

  // ---------------------------------------------------------------------------------------
  // Division

  lemma SignCases(a: int, b: int, q: int, r: int)
    requires b != 0 && 0 <= r < Magnitude(b) && Magnitude(a) == q * Magnitude(b) + r
    ensures a == (if (a < 0) == (b < 0) then q else -q) * b + (if a < 0 then -r else r)
  {
    Opposite(q, b);
  }

  lemma QuotientRemainder(a: int, b: int)
    requires b != 0
    ensures a == Quotient(a, b) * b + Remainder(a, b)
    ensures Magnitude(Remainder(a, b)) < Magnitude(b) && (Remainder(a, b) == 0 || (Remainder(a, b) < 0 <==> a < 0))
  {
    hide Magnitude;
    DivideMagnitudes(Magnitude(a), Magnitude(b));
    SignCases(a, b, Magnitude(a) / Magnitude(b), Magnitude(a) % Magnitude(b));
    MagnitudeSign(Magnitude(a) % Magnitude(b));
  }

  lemma MagnitudeSign(r: int)
    requires r >= 0
    ensures Magnitude(r) == r == Magnitude(-r)
  {
  }

  lemma DivideMagnitudes(x: nat, y: nat)
    requires y > 0
    ensures 0 <= x / y && 0 <= x % y < y && x == x / y * y + x % y
  {
  }

  lemma QuotientSmall(x: int, y: int, h: int)
    requires y > 0 && 0 <= x <= h && (x == h ==> y > 1)
    ensures 0 <= x / y <= h && (h > 0 ==> x / y < h)
  {
    FloorSplit(x, y);
    if x / y >= h && h > 0 {
      MulLe(h, x / y, y);
      if y > 1 { MulLe(2, y, h); }
    }
  }

  lemma QuotientRange(a: int, b: int, h: int)
    requires h > 0 && b != 0 && -h <= a < h && !(a == -h && b == -1)
    ensures -h <= Quotient(a, b) < h
  {
    var x, y := Magnitude(a), Magnitude(b);
    if a == -h && b == 1 {
      assert x / y == h;
    } else {
      QuotientSmall(x, y, h);
    }
  }

  /** Signed division: the defined results of dividing by zero and of the one overflow, and
      otherwise the quotient toward zero with a remainder that takes the dividend's sign. */
  predicate SignedQuotient(a: int, b: int, q: int, r: int, w: Width) {
    if b == 0 then q == -1 && r == a
    else if a == -w.Half() && b == -1 then q == a && r == 0
    else a == q * b + r && Magnitude(r) < Magnitude(b) && (r == 0 || (r < 0 <==> a < 0))
  }

  lemma DivResults(a: u64, b: u64, w: Width)
    ensures var sa, sb := Signed(a, w), Signed(b, w);
            Result(4, a, b, w) == Sext(if sb == 0 then B64 - 1 else Wrap(Quotient(sa, sb)), w) &&
            Result(6, a, b, w) == Sext(if sb == 0 then Wrap(sa) else Wrap(Remainder(sa, sb)), w)
  {
    hide Sext, Wrap, Quotient, Remainder, Signed;
  }

  lemma DivisionInRange(sa: int, sb: int, w: Width)
    requires -w.Half() <= sa < w.Half() && -w.Half() <= sb < w.Half()
    ensures SignedQuotient(sa, sb, Signed(Sext(if sb == 0 then B64 - 1 else Wrap(Quotient(sa, sb)), w), w),
                           Signed(Sext(if sb == 0 then Wrap(sa) else Wrap(Remainder(sa, sb)), w), w), w)
  {
    hide Sext, Wrap, Quotient, Remainder, Magnitude, Signed;
    if sb == 0 {
      AllOnes(w);
      Passes(sa, w);
    } else {
      QuotientRemainder(sa, sb);
      RemainderRange(sa, sb, w.Half());
      Passes(Remainder(sa, sb), w);
      if sa == -w.Half() && sb == -1 {
        Overflow(w);
      } else {
        QuotientRange(sa, sb, w.Half());
        Passes(Quotient(sa, sb), w);
      }
    }
  }

  lemma SignedDivision(a: u64, b: u64, w: Width)
    ensures SignedQuotient(Signed(a, w), Signed(b, w), Signed(Result(4, a, b, w), w), Signed(Result(6, a, b, w), w), w)
  {
    hide Sext, Wrap, Quotient, Remainder, Signed, SignedQuotient, Result;
    SignedMod(a, w);
    SignedMod(b, w);
    DivResults(a, b, w);
    DivisionInRange(Signed(a, w), Signed(b, w), w);
  }

  lemma RemainderRange(a: int, b: int, h: int)
    requires b != 0 && -h <= a < h && -h <= b < h
    ensures -h <= Remainder(a, b) < h
    ensures b == -1 ==> Remainder(a, b) == 0
  {
    QuotientRemainder(a, b);
  }

  /** A signed value in range passes through the final sign extension. */
  lemma Passes(x: int, w: Width)
    requires -w.Half() <= x < w.Half()
    ensures Signed(Sext(Wrap(x), w), w) == x
  {
    SignedWrap(x, w);
    SextFacts(Wrap(x), w);
  }

  lemma AllOnes(w: Width)
    ensures Signed(Sext(B64 - 1, w), w) == -1 && Trunc(Sext(B64 - 1, w), w) == w.Modulus() - 1
  {
    SextFacts(B64 - 1, w);
    hide Sext;
  }

  /** The most negative number divided by -1 wraps to itself. */
  lemma Overflow(w: Width)
    ensures Signed(Sext(Wrap(Quotient(-w.Half(), -1)), w), w) == -w.Half()
  {
    assert Quotient(-w.Half(), -1) == w.Half();
    SextFacts(Wrap(w.Half()), w);
    WrapMod(w.Half(), w);
    hide Sext, Wrap;
  }

  lemma UnsignedPasses(x: nat, w: Width)
    requires x < w.Modulus()
    ensures Trunc(Sext(Wrap(x), w), w) == x
  {
    SextFacts(Wrap(x), w);
    WrapMod(x, w);
    SmallMod(x, w.Modulus());
    hide Sext, Wrap;
  }

  lemma UnsignedResults(a: u64, b: u64, w: Width)
    ensures var ua, ub := Trunc(a, w), Trunc(b, w);
            Result(5, a, b, w) == Sext(if ub == 0 then B64 - 1 else Wrap(ua / ub), w) &&
            Result(7, a, b, w) == Sext(if ub == 0 then ua else Wrap(ua % ub), w)
  {
    hide Sext, Wrap, Quotient, Remainder, Signed, Trunc;
  }

  /** Unsigned division, with its defined results for a zero divisor. */
  predicate UnsignedQuotient(a: nat, b: nat, q: nat, r: nat, w: Width) {
    if b == 0 then q == w.Modulus() - 1 && r == a else a == q * b + r && r < b
  }

  lemma ZeroDivisorPasses(ua: u64, w: Width)
    requires ua < w.Modulus()
    ensures Trunc(Sext(B64 - 1, w), w) == w.Modulus() - 1 && Trunc(Sext(ua, w), w) == ua
  {
    AllOnes(w);
    SextFacts(ua, w);
    hide Sext, Wrap;
    SmallMod(ua, w.Modulus());
  }

  lemma UnsignedBounds(ua: nat, ub: nat)
    requires ub > 0
    ensures ua == ua / ub * ub + ua % ub && 0 <= ua % ub < ub && 0 <= ua / ub
  {
    FloorSplit(ua, ub);
  }

  /** A quotient and a remainder of numbers within the width come through unchanged. */
  lemma UnsignedInRange(ua: nat, ub: nat, q: nat, r: nat, w: Width)
    requires ua == q * ub + r && r < ub && ua < w.Modulus() && ub < w.Modulus()
    ensures Trunc(Sext(Wrap(q), w), w) == q && Trunc(Sext(Wrap(r), w), w) == r
  {
    hide Sext, Wrap, Trunc;
    MulLe(1, ub, q);
    UnsignedPasses(q, w);
    UnsignedPasses(r, w);
  }

  lemma TruncBound(a: u64, w: Width)
    ensures 0 <= Trunc(a, w) < w.Modulus()
  {
  }

  lemma UnsignedDivision(a: u64, b: u64, w: Width)
    ensures UnsignedQuotient(Trunc(a, w), Trunc(b, w), Trunc(Result(5, a, b, w), w), Trunc(Result(7, a, b, w), w), w)
  {
    hide Sext, Wrap, Signed, Result, Trunc;
    var ua, ub := Trunc(a, w), Trunc(b, w);
    UnsignedResults(a, b, w);
    TruncBound(a, w);
    TruncBound(b, w);
    if ub == 0 {
      ZeroDivisorPasses(ua, w);
    } else {
      UnsignedBounds(ua, ub);
      UnsignedInRange(ua, ub, ua / ub, ua % ub, w);
    }
  }

  lemma CongruentQuotient(a: int, b: int, q: int, r: int, w: Width)
    requires SignedQuotient(a, b, q, r, w)
    ensures (q * b + r) % w.Modulus() == a % w.Modulus()
  {
    if a == -w.Half() && b == -1 { SameMod(w.Half(), -w.Half(), 1, w.Modulus()); }
  }

  lemma CongruentUnsigned(a: nat, b: nat, q: nat, r: nat, w: Width)
    requires UnsignedQuotient(a, b, q, r, w)
    ensures (q * b + r) % w.Modulus() == a % w.Modulus()
  {
    if b == 0 { assert q * b == 0; }
  }

  lemma TruncIsMod(v: u64, w: Width)
    ensures Trunc(v, w) == v % w.Modulus() == Trunc(v, w) % w.Modulus()
  {
    SmallMod(v % w.Modulus(), w.Modulus());
  }

  /** In every case, dividing by zero and overflow included, the quotient times the divisor plus
      the remainder is the dividend modulo the width. */
  lemma DivisionCongruence(a: u64, b: u64, w: Width)
    ensures (Signed(Result(4, a, b, w), w) * Signed(b, w) + Signed(Result(6, a, b, w), w)) % w.Modulus() == Trunc(a, w)
    ensures (Trunc(Result(5, a, b, w), w) * Trunc(b, w) + Trunc(Result(7, a, b, w), w)) % w.Modulus() == Trunc(a, w)
  {
    hide Result, Signed, SignedQuotient, Trunc;
    SignedDivision(a, b, w);
    UnsignedDivision(a, b, w);
    SignedMod(a, w);
    TruncMod(a, w);
    TruncIsMod(a, w);
    CongruentUnsigned(Trunc(a, w), Trunc(b, w), Trunc(Result(5, a, b, w), w), Trunc(Result(7, a, b, w), w), w);
    CongruentQuotient(Signed(a, w), Signed(b, w), Signed(Result(4, a, b, w), w), Signed(Result(6, a, b, w), w), w);
  }

  // ---------------------------------------------------------------------------------------
  // One routine for both widths

  /** Only the low bits of its operands reach a multiply or divide result. */
  lemma MulDivIgnoresUpper(f3: nat, a: u64, b: u64, w: Width)
    ensures MulDiv(f3, a, b, w) == MulDiv(f3, Trunc(a, w), Trunc(b, w), w)
  {
    hide Sext, Signed, Wrap, Quotient, Remainder;
    TruncMod(a, w);
    TruncMod(b, w);
    ProductMod(a, b, Trunc(a, w), Trunc(b, w), w);
    WrapMod(Trunc(a, w) * Trunc(b, w), w);
    SextOfMod(Wrap(a * b), Wrap(Trunc(a, w) * Trunc(b, w)), w);
  }

  lemma {:induction false} BitwiseLow(op: Bitop, a: nat, b: nat, n: nat, k: nat)
    requires k <= n
    ensures Bitwise(op, a, b, n) % Pow2(k) == Bitwise(op, a, b, k)
    ensures Bitwise(op, a % Pow2(k), b % Pow2(k), k) == Bitwise(op, a, b, k)
    decreases k
  {
    if k != 0 {
      BitwiseLow(op, a / 2, b / 2, n - 1, k - 1);
      var p := Pow2(k - 1);
      assert Pow2(k) == 2 * p;
      hide Pow2;
      StepMod(Bit(op, a % 2, b % 2), Bitwise(op, a / 2, b / 2, n - 1), p);
      HalfOfMod(a, p);
      HalfOfMod(b, p);
    }
  }

  lemma StepMod(b: nat, x: nat, p: nat)
    requires b <= 1 && p > 0
    ensures (b + 2 * x) % (2 * p) == b + 2 * (x % p)
  {
    FloorSplit(x, p);
    assert 2 * (x / p * p) == x / p * (2 * p);
    DivModUnique(b + 2 * x, 2 * p, x / p, b + 2 * (x % p));
  }

  lemma HalfOfMod(a: nat, p: nat)
    requires p > 0
    ensures a % (2 * p) % 2 == a % 2 && a % (2 * p) / 2 == a / 2 % p
  {
    FloorSplit(a, 2);
    StepMod(a % 2, a / 2, p);
    DivModUnique(a % (2 * p), 2, a / 2 % p, a % 2);
  }

  lemma BitwiseMod(op: Bitop, a: u64, b: u64, w: Width)
    ensures Bitwise64(op, a, b) % w.Modulus() == Bitwise64(op, Trunc(a, w), Trunc(b, w)) % w.Modulus()
  {
    Sixty4();
    assert w.Modulus() == Pow2(w.Bits());
    hide Pow2, Bitwise;
    BitwiseLow(op, a, b, 64, w.Bits());
    BitwiseLow(op, Trunc(a, w), Trunc(b, w), 64, w.Bits());
    TruncMod(a, w);
    TruncMod(b, w);
  }

  lemma ShiftAmount(b: u64, w: Width)
    ensures Trunc(b, w) % w.Bits() == b % w.Bits()
  {
    if w.W32? { ModTwice(b, 32, B32 / 32); } else { SmallMod(b, B64); }
  }

  lemma SumOfMods(x: int, y: int, m: int)
    requires m > 0
    ensures (x + y) % m == (x % m + y % m) % m && (x - y) % m == (x % m - y % m) % m
  {
    FloorSplit(x, m);
    FloorSplit(y, m);
    SumOfRemainders(x, y, x / m, y / m, x % m, y % m, m);
  }

  lemma SumOfRemainders(x: int, y: int, i: int, j: int, r: int, s: int, m: int)
    requires m > 0 && x == i * m + r && y == j * m + s
    ensures (x + y) % m == (r + s) % m && (x - y) % m == (r - s) % m
  {
    Distribute(i, j, m);
    SameMod(x + y, r + s, i + j, m);
    SameMod(x - y, r - s, i - j, m);
  }

  lemma Distribute(i: int, j: int, m: int)
    ensures (i + j) * m == i * m + j * m && (i - j) * m == i * m - j * m
  {
  }

  lemma SumMod(a: u64, b: u64, w: Width)
    ensures Wrap(a + b) % w.Modulus() == Wrap(Trunc(a, w) + Trunc(b, w)) % w.Modulus()
    ensures Wrap(a - b) % w.Modulus() == Wrap(Trunc(a, w) - Trunc(b, w)) % w.Modulus()
  {
    hide Wrap;
    SumOfMods(a, b, w.Modulus());
    WrapMod(a + b, w);
    WrapMod(a - b, w);
    WrapMod(Trunc(a, w) + Trunc(b, w), w);
    WrapMod(Trunc(a, w) - Trunc(b, w), w);
  }

  lemma ShiftMod(a: u64, p: nat, w: Width)
    ensures Wrap(a * p) % w.Modulus() == Wrap(Trunc(a, w) * p) % w.Modulus()
  {
    WrapMod(a * p, w);
    WrapMod(Trunc(a, w) * p, w);
    ModFactor(a, p, w.Modulus());
  }

  /** Only the low bits of its operands reach an ALU result. */
  lemma AluIgnoresUpper(f3: nat, f7: nat, a: u64, b: u64, w: Width)
    ensures Alu(f3, f7, a, b, w) == Alu(f3, f7, Trunc(a, w), Trunc(b, w), w)
  {
    hide Sext, Signed, Wrap, Bitwise64, Pow2;
    var x: int, y: int, p := Trunc(a, w), Trunc(b, w), Pow2(b % w.Bits());
    TruncMod(a, w);
    TruncMod(b, w);
    ShiftAmount(b, w);
    SumMod(a, b, w);
    ShiftMod(a, p, w);
    BitwiseMod(Xor, a, b, w);
    BitwiseMod(Or, a, b, w);
    BitwiseMod(And, a, b, w);
    hide Trunc;
    SextOfMod(Wrap(a + b), Wrap(x + y), w);
    SextOfMod(Wrap(a - b), Wrap(x - y), w);
    SextOfMod(Wrap(a * p), Wrap(x * p), w);
    SextOfMod(Bitwise64(Xor, a, b), Bitwise64(Xor, x, y), w);
    SextOfMod(Bitwise64(Or, a, b), Bitwise64(Or, x, y), w);
    SextOfMod(Bitwise64(And, a, b), Bitwise64(And, x, y), w);
  }

  lemma Extended(v: u64, w: Width)
    ensures Sext(v, w) == Sext(Trunc(Sext(v, w), w), w)
  {
    SextFacts(v, w);
    TruncMod(v, w);
    SextOfMod(v, Trunc(v, w), w);
  }

  /** RV64's W instructions are RV32's, sign-extended: the 64-bit result is the sign extension of
      what the 32-bit hart computes from, and keeps in, 32-bit registers. */
  lemma WordFormsAreRv32(f3: nat, f7: nat, a: u64, b: u64)
    ensures var r := Alu(f3, f7, Trunc(a, W32), Trunc(b, W32), W32);
            Alu(f3, f7, a, b, W32) == if r.Some? then Some(Sext(Trunc(r.value, W32), W32)) else None
    ensures var r := MulDiv(f3, Trunc(a, W32), Trunc(b, W32), W32);
            MulDiv(f3, a, b, W32) == if r.Some? then Some(Sext(Trunc(r.value, W32), W32)) else None
  {
    AluIgnoresUpper(f3, f7, a, b, W32);
    MulDivIgnoresUpper(f3, a, b, W32);
    AluExtended(f3, f7, Trunc(a, W32), Trunc(b, W32), W32);
    MulDivExtended(f3, Trunc(a, W32), Trunc(b, W32), W32);
    hide Alu, MulDiv, Sext, Trunc;
  }

  lemma AluExtended(f3: nat, f7: nat, a: u64, b: u64, w: Width)
    ensures var r := Alu(f3, f7, a, b, w); r.Some? ==> r.value == Sext(Trunc(r.value, w), w)
  {
    hide Sext, Trunc, Signed, Wrap, Bitwise64, Pow2;
    var r := Alu(f3, f7, a, b, w);
    if r.Some? {
      var v: u64 :| r.value == Sext(v, w);
      Extended(v, w);
    }
  }

  lemma MulDivExtended(f3: nat, a: u64, b: u64, w: Width)
    ensures var r := MulDiv(f3, a, b, w); r.Some? ==> r.value == Sext(Trunc(r.value, w), w)
  {
    hide Sext, Trunc, Signed, Wrap, Quotient, Remainder;
    var r := MulDiv(f3, a, b, w);
    if r.Some? {
      var v: u64 :| r.value == Sext(v, w);
      Extended(v, w);
    }
  }

  /** The register an ALU operation writes. */
  function AluResult(f3: nat, f7: nat, a: u64, b: u64, w: Width): u64 {
    var r := Alu(f3, f7, a, b, w);
    if r.Some? then r.value else 0
  }

  /** Sums and differences are exact modulo the width, as signed numbers too. */
  lemma SumMeaning(a: u64, b: u64, w: Width)
    ensures Trunc(AluResult(0, 0, a, b, w), w) == (Signed(a, w) + Signed(b, w)) % w.Modulus()
    ensures Trunc(AluResult(0, 0x20, a, b, w), w) == (Signed(a, w) - Signed(b, w)) % w.Modulus()
  {
    hide Sext, Wrap, Pow2, Signed;
    SignedSum(a, b, w);
    SextFacts(Wrap(a + b), w);
    SextFacts(Wrap(a - b), w);
  }

  lemma CompareMeaning(a: u64, b: u64, w: Width)
    ensures AluResult(2, 0, a, b, w) == if Signed(a, w) < Signed(b, w) then 1 else 0
    ensures AluResult(3, 0, a, b, w) == if Trunc(a, w) < Trunc(b, w) then 1 else 0
  {
    hide Sext, Wrap, Pow2, Signed;
    Flag(0, w);
    Flag(1, w);
  }

  lemma NearMod(x: int, k: int, m: int)
    requires m > 0 && 0 <= x - k * m < m
    ensures x % m == x - k * m
  {
    SameMod(x, x - k * m, k, m);
  }

  /** Signed and unsigned readings of the low bits. */
  lemma Readings(v: u64, w: Width)
    ensures 0 <= Trunc(v, w) < w.Modulus() == 2 * w.Half()
    ensures Signed(v, w) == if Trunc(v, w) < w.Half() then Trunc(v, w) else Trunc(v, w) - w.Modulus()
  {
  }

  lemma DifferenceLaws(a: u64, b: u64, d: u64, w: Width)
    requires Trunc(d, w) == (Signed(a, w) - Signed(b, w)) % w.Modulus()
    ensures Trunc(d, w) == Trunc(a, w) - Trunc(b, w) + (if Trunc(a, w) < Trunc(b, w) then w.Modulus() else 0)
  {
    hide Trunc, Signed;
    var m, x, y := w.Modulus(), Signed(a, w) - Signed(b, w), Trunc(a, w) - Trunc(b, w);
    Readings(a, w);
    Readings(b, w);
    var k := (if Trunc(b, w) < w.Half() then 0 else 1) - (if Trunc(a, w) < w.Half() then 0 else 1);
    SameMod(x, y, k, m);
    NearMod(y, if y < 0 then -1 else 0, m);
  }

  lemma TotalLaws(a: u64, b: u64, t: u64, w: Width)
    requires Trunc(t, w) == (Signed(a, w) + Signed(b, w)) % w.Modulus()
    ensures Trunc(t, w) == Trunc(a, w) + Trunc(b, w) - (if Trunc(t, w) < Trunc(a, w) then w.Modulus() else 0)
  {
    hide Trunc, Signed;
    var m, x, y := w.Modulus(), Signed(a, w) + Signed(b, w), Trunc(a, w) + Trunc(b, w);
    Readings(a, w);
    Readings(b, w);
    var k := -(if Trunc(b, w) < w.Half() then 0 else 1) - (if Trunc(a, w) < w.Half() then 0 else 1);
    SameMod(x, y, k, m);
    NearMod(y, if y < m then 0 else 1, m);
  }

  /** Signed overflow of a difference, as the signs show it: the operands' signs differ, and the
      result's is not the first operand's. */
  predicate Overflows(a: u64, b: u64, d: u64, w: Width) {
    (Signed(a, w) < 0) != (Signed(b, w) < 0) && (Signed(d, w) < 0) != (Signed(a, w) < 0)
  }

  /** How the comparisons relate to sums and differences, as multi-word arithmetic uses them: sltu is
      the borrow of a difference and, against an operand, the carry of a sum; slt is the sign of the
      difference corrected by its overflow; and a difference is exact as a signed number just when
      it does not overflow. */
  lemma CompareLaws(a: u64, b: u64, w: Width)
    ensures var sum, diff := AluResult(0, 0, a, b, w), AluResult(0, 0x20, a, b, w);
            Trunc(a, w) - Trunc(b, w) == Trunc(diff, w) - AluResult(3, 0, a, b, w) * w.Modulus() &&
            Trunc(a, w) + Trunc(b, w) == Trunc(sum, w) + AluResult(3, 0, sum, a, w) * w.Modulus() &&
            (AluResult(2, 0, a, b, w) == 1 <==> (Signed(diff, w) < 0) != Overflows(a, b, diff, w)) &&
            (Signed(diff, w) == Signed(a, w) - Signed(b, w) <==> !Overflows(a, b, diff, w))
  {
    hide AluResult, Trunc, Signed;
    var sum, diff := AluResult(0, 0, a, b, w), AluResult(0, 0x20, a, b, w);
    SumMeaning(a, b, w);
    CompareMeaning(a, b, w);
    CompareMeaning(sum, a, w);
    DifferenceLaws(a, b, diff, w);
    TotalLaws(a, b, sum, w);
    Readings(a, w);
    Readings(b, w);
    Readings(diff, w);
  }

  lemma ShiftResults(a: u64, b: u64, w: Width)
    ensures AluResult(5, 0x20, a, b, w) == Sext(Wrap(Signed(a, w) / Pow2(b % w.Bits())), w)
    ensures AluResult(5, 0, a, b, w) == Sext(Wrap(Trunc(a, w) / Pow2(b % w.Bits())), w)
  {
    hide Sext, Wrap, Pow2, Signed, Trunc, Bitwise64;
  }

  lemma ShiftInRange(x: int, y: nat, p: nat, w: Width)
    requires p > 0 && -w.Half() <= x < w.Half() && y < w.Modulus()
    ensures Signed(Sext(Wrap(x / p), w), w) == x / p && Trunc(Sext(Wrap(y / p), w), w) == y / p
  {
    hide Sext, Wrap, Signed, Trunc;
    ShrinkSigned(x, p, w.Half());
    Passes(x / p, w);
    ShrinkUnsigned(y, p);
    UnsignedPasses(y / p, w);
  }

  /** Right shifts divide, rounding down: arithmetic ones the signed number, logical ones the
      unsigned. */
  lemma ShiftMeaning(a: u64, b: u64, w: Width)
    ensures Signed(AluResult(5, 0x20, a, b, w), w) == Signed(a, w) / Pow2(b % w.Bits())
    ensures Trunc(AluResult(5, 0, a, b, w), w) == Trunc(a, w) / Pow2(b % w.Bits())
  {
    hide Sext, Wrap, Pow2, Signed, AluResult;
    SignedMod(a, w);
    ShiftResults(a, b, w);
    ShiftInRange(Signed(a, w), Trunc(a, w), Pow2(b % w.Bits()), w);
  }

  lemma SignedSum(a: u64, b: u64, w: Width)
    ensures Wrap(a + b) % w.Modulus() == (Signed(a, w) + Signed(b, w)) % w.Modulus()
    ensures Wrap(a - b) % w.Modulus() == (Signed(a, w) - Signed(b, w)) % w.Modulus()
  {
    hide Wrap, Signed;
    SignedMod(a, w);
    SignedMod(b, w);
    WrapMod(a + b, w);
    WrapMod(a - b, w);
    SumOfMods(a, b, w.Modulus());
    SumOfMods(Signed(a, w), Signed(b, w), w.Modulus());
  }

  lemma Flag(x: nat, w: Width)
    requires x <= 1
    ensures Sext(x, w) == x
  {
  }

  lemma ShrinkSigned(x: int, p: nat, h: int)
    requires p > 0 && h > 0 && -h <= x < h
    ensures -h <= x / p < h
  {
    MulLe(1, p, h);
    FloorRange(x, -h, h, p);
  }

  lemma ShrinkUnsigned(x: nat, p: nat)
    requires p > 0
    ensures x / p <= x
  {
    FloorSplit(x, p);
    MulLe(1, p, x / p);
  }

  // ---------------------------------------------------------------------------------------
  // Bits

  predicate BitOf(v: nat, k: nat) { v / Pow2(k) % 2 == 1 }

  lemma HalfBit(v: nat, k: nat)
    ensures BitOf(v, k + 1) == BitOf(v / 2, k)
  {
    var p := Pow2(k);
    assert Pow2(k + 1) == 2 * p;
    hide Pow2;
    DivideTwice(v, p);
  }

  lemma DivideTwice(v: nat, p: nat)
    requires p > 0
    ensures v / (2 * p) == v / 2 / p
  {
    var q, r := v / 2 / p, v / 2 % p;
    FloorSplit(v / 2, p);
    assert v == q * (2 * p) + (2 * r + v % 2) by { assert 2 * (q * p) == q * (2 * p); }
    DivModUnique(v, 2 * p, q, 2 * r + v % 2);
  }

  lemma BitZeroIs(v: nat)
    ensures BitOf(v, 0) <==> v % 2 == 1
  {
  }

  lemma FirstAndRest(x: nat, y: nat)
    requires x <= 1
    ensures (x + 2 * y) % 2 == x && (x + 2 * y) / 2 == y
  {
  }

  /** Each bit of a bitwise operation comes from the same bits of its operands. */
  lemma {:induction false} BitwiseBit(op: Bitop, a: nat, b: nat, n: nat, k: nat)
    requires k < n
    ensures BitOf(Bitwise(op, a, b, n), k) <==>
            match op
            case Xor => BitOf(a, k) != BitOf(b, k)
            case Or => BitOf(a, k) || BitOf(b, k)
            case And => BitOf(a, k) && BitOf(b, k)
    decreases k
  {
    FirstAndRest(Bit(op, a % 2, b % 2), Bitwise(op, a / 2, b / 2, n - 1));
    if k == 0 {
      BitZeroIs(a);
      BitZeroIs(b);
      BitZeroIs(Bitwise(op, a, b, n));
      hide BitOf;
    } else {
      HalfBit(a, k - 1);
      HalfBit(b, k - 1);
      HalfBit(Bitwise(op, a, b, n), k - 1);
      hide BitOf;
      BitwiseBit(op, a / 2, b / 2, n - 1, k - 1);
    }
  }

  lemma QuotientOfSum(c: nat, p: nat, t: nat)
    requires p > 0
    ensures (c * p + t) / p == c + t / p
  {
    FloorSplit(t, p);
    Distribute(c, t / p, p);
    DivModUnique(c * p + t, p, c + t / p, t % p);
  }

  /** Multiples of an even multiple of p do not reach the bit of weight p. */
  lemma EvenMultiple(q: nat, h: nat, p: nat, t: nat)
    requires p > 0
    ensures (q * (p * (2 * h)) + t) / p % 2 == t / p % 2
  {
    assert q * (p * (2 * h)) == (q * h * 2) * p;
    QuotientOfSum(q * h * 2, p, t);
    SameMod(q * h * 2 + t / p, t / p, q * h, 2);
  }

  lemma LowBit(v: u64, w: Width, k: nat)
    requires k < w.Bits()
    ensures BitOf(v, k) == BitOf(Trunc(v, w), k)
  {
    var n := w.Bits() - k;
    Sixty4();
    Pow2Add(k, n);
    assert Pow2(n) == 2 * Pow2(n - 1);
    hide Pow2;
    EvenMultiple(v / w.Modulus(), Pow2(n - 1), Pow2(k), v % w.Modulus());
    FloorSplit(v, w.Modulus());
  }

  lemma SextBit(v: u64, w: Width, k: nat)
    requires k < w.Bits()
    ensures BitOf(Sext(v, w), k) == BitOf(v, k)
  {
    LowBit(v, w, k);
    LowBit(Sext(v, w), w, k);
    SextFacts(v, w);
    hide Sext, BitOf, Trunc;
  }

  /** xor, or and and, bit by bit. */
  lemma BitwiseMeaning(a: u64, b: u64, w: Width, k: nat)
    requires k < w.Bits()
    ensures BitOf(AluResult(4, 0, a, b, w), k) <==> BitOf(a, k) != BitOf(b, k)
    ensures BitOf(AluResult(6, 0, a, b, w), k) <==> BitOf(a, k) || BitOf(b, k)
    ensures BitOf(AluResult(7, 0, a, b, w), k) <==> BitOf(a, k) && BitOf(b, k)
  {
    BitwiseResults(a, b, w);
    hide AluResult, Bitwise, BitOf, Sext;
    BitwiseBit(Xor, a, b, 64, k);
    BitwiseBit(Or, a, b, 64, k);
    BitwiseBit(And, a, b, 64, k);
    SextBit(Bitwise64(Xor, a, b), w, k);
    SextBit(Bitwise64(Or, a, b), w, k);
    SextBit(Bitwise64(And, a, b), w, k);
  }

  lemma BitwiseResults(a: u64, b: u64, w: Width)
    ensures AluResult(4, 0, a, b, w) == Sext(Bitwise64(Xor, a, b), w)
    ensures AluResult(6, 0, a, b, w) == Sext(Bitwise64(Or, a, b), w)
    ensures AluResult(7, 0, a, b, w) == Sext(Bitwise64(And, a, b), w)
  {
    hide Sext, Wrap, Pow2, Signed, Trunc, Bitwise64;
  }

  /** A left shift multiplies, modulo the width. */
  lemma ShiftLeftMeaning(a: u64, b: u64, w: Width)
    ensures Trunc(AluResult(1, 0, a, b, w), w) == Trunc(a, w) * Pow2(b % w.Bits()) % w.Modulus()
  {
    var p := Pow2(b % w.Bits());
    LeftResult(a, b, w);
    hide AluResult, Sext, Wrap, Pow2, Signed;
    SextFacts(Wrap(a * p), w);
    WrapMod(a * p, w);
    ModFactor(a, p, w.Modulus());
  }

  lemma LeftResult(a: u64, b: u64, w: Width)
    ensures AluResult(1, 0, a, b, w) == Sext(Wrap(a * Pow2(b % w.Bits())), w)
  {
    hide Sext, Wrap, Pow2, Signed, Trunc, Bitwise64;
  }

  /** The function codes that name no operation. */
  lemma Undefined(f3: nat, f7: nat, a: u64, b: u64, w: Width)
    ensures Alu(f3, f7, a, b, w).Some? <==> (f3 <= 7 && f7 == 0) || (f7 == 0x20 && (f3 == 0 || f3 == 5))
    ensures MulDiv(f3, a, b, w).Some? <==> f3 <= 7
  {
    hide Sext, Wrap, Pow2, Signed, Trunc, Bitwise64, Quotient, Remainder;
  }
}
