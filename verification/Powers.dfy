/** Powers of two over the naturals and the reals, and the dyadic numbers `m * 2^e`
    in which the floating-point code carries every value. */
module Powers {

  function Pow2(n: nat): (r: nat)
    ensures r >= 1
  {
    if n == 0 then 1 else 2 * Pow2(n - 1)
  }

  lemma {:induction false} Pow2Add(a: nat, b: nat)
    ensures Pow2(a + b) == Pow2(a) * Pow2(b)
  {
    if a != 0 {
      Pow2Add(a - 1, b);
    }
  }

  lemma {:induction false} Pow2Strict(a: nat, b: nat)
    requires a < b
    ensures 2 * Pow2(a) <= Pow2(b)
    decreases b
  {
    if a < b - 1 {
      Pow2Strict(a, b - 1);
    }
  }

  lemma Pow2Mono(a: nat, b: nat)
    requires a <= b
    ensures Pow2(a) <= Pow2(b)
  {
    if a < b { Pow2Strict(a, b); }
  }

  /** 2^k for any integer k. */
  function TwoTo(k: int): (r: real)
    ensures r > 0.0
    decreases if k < 0 then -k else k
  {
    if k == 0 then 1.0 else if k > 0 then 2.0 * TwoTo(k - 1) else TwoTo(k + 1) / 2.0
  }

  lemma TwoToStep(k: int)
    ensures TwoTo(k + 1) == 2.0 * TwoTo(k)
  {
  }

  lemma MulAssoc(a: real, b: real, c: real)
    ensures (a * b) * c == a * (b * c)
  {
  }

  lemma MulSwap(a: real, b: real, x: real, y: real)
    ensures (a * b) * (x * y) == (a * x) * (b * y)
  {
  }

  lemma CastMul(a: int, b: int)
    ensures (a * b) as real == a as real * b as real
  {
  }

  lemma {:induction false} TwoToUp(k: int, n: nat)
    ensures TwoTo(k + n) == Pow2(n) as real * TwoTo(k)
    decreases n
  {
    if n != 0 {
      hide TwoTo;
      TwoToUp(k, n - 1);
      TwoToStep(k + n - 1);
      assert Pow2(n) as real == 2.0 * Pow2(n - 1) as real;
      MulAssoc(2.0, Pow2(n - 1) as real, TwoTo(k));
    }
  }

  lemma TwoToZero()
    ensures TwoTo(0) == 1.0
  {
  }

  lemma TwoToAddOne(i: int, j: int)
    ensures TwoTo(i + j) == TwoTo(i) * TwoTo(j) <==> TwoTo(i + 1 + j) == TwoTo(i + 1) * TwoTo(j)
  {
    hide TwoTo;
    TwoToStep(i);
    TwoToStep(i + j);
    assert TwoTo(i + 1 + j) == 2.0 * TwoTo(i + j);
    MulAssoc(2.0, TwoTo(i), TwoTo(j));
  }

  lemma {:induction false} TwoToAdd(i: int, j: int)
    ensures TwoTo(i + j) == TwoTo(i) * TwoTo(j)
    decreases if i < 0 then -i else i
  {
    hide TwoTo;
    if i > 0 {
      TwoToAdd(i - 1, j);
      TwoToAddOne(i - 1, j);
    } else if i < 0 {
      TwoToAdd(i + 1, j);
      TwoToAddOne(i, j);
    } else {
      TwoToZero();
    }
  }

  /** The real number m * 2^e. */
  function Dyadic(m: int, e: int): (r: real)
  {
    m as real * TwoTo(e)
  }

  lemma Rescale(m: int, e: int, u: int)
    requires u <= e
    ensures Dyadic(m, e) == Dyadic(m * Pow2(e - u), u)
  {
    hide TwoTo;
    TwoToUp(u, e - u);
    CastMul(m, Pow2(e - u));
    MulAssoc(m as real, Pow2(e - u) as real, TwoTo(u));
  }

  lemma DyadicDouble(m: int, e: int)
    ensures Dyadic(m, e + 1) == Dyadic(2 * m, e)
  {
    TwoToStep(e);
    hide TwoTo;
    assert (2 * m) as real == 2.0 * m as real;
    MulAssoc(m as real, 2.0, TwoTo(e));
  }

  lemma DyadicOrder(m: int, n: int, e: int)
    ensures Dyadic(m, e) < Dyadic(n, e) <==> m < n
    ensures Dyadic(m, e) == Dyadic(n, e) <==> m == n
  {
    var t := TwoTo(e);
    assert Dyadic(n, e) - Dyadic(m, e) == (n - m) as real * t;
    if m < n {
      assert (n - m) as real * t > 0.0;
    } else if m > n {
      assert (m - n) as real * t > 0.0;
    }
  }

  lemma DyadicAdd(m: int, n: int, e: int)
    ensures Dyadic(m + n, e) == Dyadic(m, e) + Dyadic(n, e)
    ensures Dyadic(m - n, e) == Dyadic(m, e) - Dyadic(n, e)
  {
  }

  lemma ProductOfCasts(m: int, n: int, x: real, y: real, z: real)
    requires z == x * y
    ensures (m * n) as real * z == (m as real * x) * (n as real * y)
  {
    CastMul(m, n);
    MulSwap(m as real, n as real, x, y);
  }

  lemma DyadicMul(m: int, i: int, n: int, j: int)
    ensures Dyadic(m * n, i + j) == Dyadic(m, i) * Dyadic(n, j)
  {
    hide TwoTo;
    TwoToAdd(i, j);
    ProductOfCasts(m, n, TwoTo(i), TwoTo(j), TwoTo(i + j));
  }

  lemma DyadicSign(m: int, e: int)
    ensures Dyadic(m, e) > 0.0 <==> m > 0
    ensures Dyadic(m, e) == 0.0 <==> m == 0
    ensures Dyadic(-m, e) == -Dyadic(m, e)
  {
    DyadicOrder(0, m, e);
  }

  lemma DyadicPow(n: nat, k: int)
    ensures Dyadic(Pow2(n), k) == TwoTo(k + n)
  {
    TwoToUp(k, n);
  }

  lemma Scaled(a: real, t: real, y: real)
    requires a > 1.0 && t > 0.0 && y == a * t
    ensures y > t
  {
    assert y - t == (a - 1.0) * t;
  }

  lemma TwoToLess(i: int, n: nat)
    requires n > 0
    ensures TwoTo(i) < TwoTo(i + n)
  {
    hide TwoTo, Pow2;
    TwoToUp(i, n);
    Pow2Strict(0, n);
    Scaled(Pow2(n) as real, TwoTo(i), TwoTo(i + n));
  }

  lemma TwoToOrder(i: int, j: int)
    ensures i < j <==> TwoTo(i) < TwoTo(j)
  {
    hide TwoTo;
    if i < j { TwoToLess(i, j - i); }
    if j < i { TwoToLess(j, i - j); }
  }

  /** The number of significant bits of m. */
  function BitLen(m: nat): (r: nat)
    ensures m == 0 ==> r == 0
    ensures m > 0 ==> r > 0 && Pow2(r - 1) <= m < Pow2(r)
  {
    if m == 0 then 0 else 1 + BitLen(m / 2)
  }

  lemma BitLenLe(m: nat, n: nat)
    requires m < Pow2(n)
    ensures BitLen(m) <= n
  {
    hide Pow2;
    var l := BitLen(m);
    hide BitLen;
    if l > n { Pow2Mono(n, l - 1); }
  }

  /** A number between two powers of two has the length they say. */
  lemma BitLenIs(m: nat, n: nat)
    requires n > 0 && Pow2(n - 1) <= m < Pow2(n)
    ensures BitLen(m) == n
  {
    BitLenLe(m, n);
    hide Pow2;
    var l := BitLen(m);
    hide BitLen;
    if l < n { Pow2Mono(l, n - 1); }
  }
}
