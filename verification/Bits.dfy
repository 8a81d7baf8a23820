/** Machine words of 64 bits (the source's size_t): bitwise operators on naturals,
    defined bit by bit, and the identities that turn masks into arithmetic. */
module Bits {

  function Pow2(n: nat): (r: nat)
    ensures r > 0
  {
    if n == 0 then 1 else 2 * Pow2(n - 1)
  }

  /** x & y */
  function And(x: nat, y: nat): nat {
    if x == 0 || y == 0 then 0
    else (if x % 2 == 1 && y % 2 == 1 then 1 else 0) + 2 * And(x / 2, y / 2)
  }

  /** x | y */
  function Or(x: nat, y: nat): nat {
    if x == 0 then y
    else if y == 0 then x
    else (if x % 2 == 1 || y % 2 == 1 then 1 else 0) + 2 * Or(x / 2, y / 2)
  }

  /** x >> k */
  function Shr(x: nat, k: nat): nat {
    if k == 0 then x else Shr(x / 2, k - 1)
  }

  /** x << k, before truncation to a word */
  function Shl(x: nat, k: nat): nat {
    if k == 0 then x else 2 * Shl(x, k - 1)
  }

  /** Arithmetic on size_t is modulo 2^64. */
  function Wrap(x: int): (r: nat)
    ensures r < Pow2(64)
  {
    x % Pow2(64)
  }

  /** Number of binary digits: 0 has none, 5 has three. */
  function Digits(x: nat): nat {
    if x == 0 then 0 else 1 + Digits(x / 2)
  }

  predicate BitSet(x: nat, k: nat) {
    Shr(x, k) % 2 == 1
  }

  lemma {:induction false} ShrIsDivision(x: nat, k: nat)
    ensures Shr(x, k) == x / Pow2(k)
  {
    if k == 0 {
    } else {
      ShrIsDivision(x / 2, k - 1);
      HalfDiv(x, Pow2(k - 1));
    }
  }

  lemma {:induction false} ShlIsProduct(x: nat, k: nat)
    ensures Shl(x, k) == x * Pow2(k)
  {
    if k == 0 {
    } else {
      ShlIsProduct(x, k - 1);
      MulDouble(x, Pow2(k - 1));
    }
  }

  lemma MulDouble(x: nat, p: nat)
    ensures x * (2 * p) == 2 * (x * p)
  {
  }

  lemma HalfDiv(x: nat, p: nat)
    requires p > 0
    ensures x / (2 * p) == (x / 2) / p
  {
    var h := x / 2;
    var q, r := h / p, h % p;
    assert h == q * p + r;
    MulDouble(q, p);
    DivModUnique(x, 2 * p, q, 2 * r + x % 2);
  }

  lemma DivModUnique(x: int, d: nat, q: int, r: nat)
    requires d > 0 && x == q * d + r && r < d
    ensures x / d == q && x % d == r
  {
    var q', r' := x / d, x % d;
    assert x == q' * d + r';
    assert (q - q') * d == r' - r && (q' - q) * d == r - r';
    if q > q' {
      MulAtLeast(q - q', d);
    } else if q < q' {
      MulAtLeast(q' - q, d);
    }
  }

  lemma MulAtLeast(a: int, d: nat)
    requires a >= 1
    ensures a * d >= d
  {
  }

  // ---------- named products, quotients and remainders ----------

  function Product(a: int, n: int): int {
    a * n
  }

  function Quot(x: int, n: nat): int
    requires n > 0
  {
    x / n
  }

  function Rem(x: int, n: nat): (r: nat)
    requires n > 0
    ensures r < n
  {
    x % n
  }

  lemma QuotRem(x: int, n: nat)
    requires n > 0
    ensures x == Product(Quot(x, n), n) + Rem(x, n)
    ensures x >= 0 ==> Quot(x, n) >= 0
  {
  }

  lemma QuotRemUnique(x: int, n: nat, q: int, r: nat)
    requires n > 0 && x == Product(q, n) + r && r < n
    ensures Quot(x, n) == q && Rem(x, n) == r
  {
    DivModUnique(x, n, q, r);
  }

  lemma ProductAdd(a: int, b: int, n: int)
    ensures Product(a + b, n) == Product(a, n) + Product(b, n)
    ensures Product(a - b, n) == Product(a, n) - Product(b, n)
    ensures Product(0, n) == 0 && Product(1, n) == n && Product(-1, n) == -n
  {
  }

  lemma RemSmall(x: int, n: nat)
    requires 0 <= x + n && x < 2 * n && n > 0
    ensures Rem(x, n) == if x < 0 then x + n else if x < n then x else x - n
  {
    var q := if x < 0 then -1 else if x < n then 0 else 1;
    ProductAdd(0, 0, n);
    hide Product, Quot, Rem;
    QuotRemUnique(x, n, q, if x < 0 then x + n else if x < n then x else x - n);
  }

  lemma RemShift(x: int, y: int, n: nat)
    requires n > 0
    ensures Rem(x - y, n) == Rem(Rem(x, n) - Rem(y, n), n)
    ensures Rem(x + y, n) == Rem(Rem(x, n) + Rem(y, n), n)
  {
    hide Product, Quot, Rem;
    var u, v := Quot(x, n), Quot(y, n);
    var d, s := Rem(x, n) - Rem(y, n), Rem(x, n) + Rem(y, n);
    QuotRem(x, n);
    QuotRem(y, n);
    QuotRem(d, n);
    QuotRem(s, n);
    ProductAdd(u, v, n);
    ProductAdd(u - v, Quot(d, n), n);
    ProductAdd(u + v, Quot(s, n), n);
    QuotRemUnique(x - y, n, u - v + Quot(d, n), Rem(d, n));
    QuotRemUnique(x + y, n, u + v + Quot(s, n), Rem(s, n));
  }

  lemma RemIsMod(x: int, n: nat)
    requires n > 0
    ensures Rem(x, n) == x % n
  {
  }

  /** Integers less than n apart have the same remainder only if they are the same. */
  lemma RemInjective(x: int, y: int, n: nat)
    requires x < y + n && y < x + n
    ensures Rem(x, n) == Rem(y, n) <==> x == y
  {
    hide Rem;
    RemShift(x, y, n);
    RemSmall(x - y, n);
    RemSmall(0, n);
  }

  lemma RemRem(x: int, n: nat)
    requires n > 0
    ensures Rem(Rem(x, n), n) == Rem(x, n)
  {
    hide Rem;
    RemSmall(Rem(x, n), n);
  }

  lemma DoubleRem(x: nat, p: nat)
    requires p > 0
    ensures Rem(x, 2 * p) == x % 2 + 2 * Rem(x / 2, p)
  {
    hide Product, Quot, Rem;
    var q, r := Quot(x / 2, p), Rem(x / 2, p);
    QuotRem(x / 2, p);
    DoubleProduct(q, p);
    QuotRemUnique(x, 2 * p, q, 2 * r + x % 2);
  }

  lemma DoubleProduct(q: int, p: int)
    ensures Product(q, 2 * p) == 2 * Product(q, p)
  {
  }

  lemma Regroup(n: nat, r: nat, c: int, a: nat, o: nat)
    requires a < r && o < n
    ensures 0 <= Product(a, n) && Product(a, n) + o < Product(n, r)
    ensures Product(Product(c, r) + a, n) == Product(c, Product(n, r)) + Product(a, n)
  {
    assert (a + 1) * n <= r * n by {
      MulAtMost(a + 1, r, n);
    }
    assert (c * r + a) * n == (c * r) * n + a * n;
    assert (c * r) * n == c * (n * r);
  }

  lemma MulAtMost(a: nat, b: nat, n: nat)
    requires a <= b
    ensures a * n <= b * n
  {
  }

  /** Quotient and remainder by n, and the quotient's by r, are those by n * r. */
  lemma SplitTwice(i: int, n: nat, r: nat, p: nat)
    requires n > 0 && r > 0 && p > 0 && p == Product(n, r)
    ensures Rem(i, p) == Product(Rem(Quot(i, n), r), n) + Rem(i, n)
    ensures Quot(Rem(i, p), n) == Rem(Quot(i, n), r) && Rem(Rem(i, p), n) == Rem(i, n)
    ensures Quot(i, p) == Quot(Quot(i, n), r)
  {
    hide Product, Quot, Rem;
    var q, o := Quot(i, n), Rem(i, n);
    var c, a := Quot(q, r), Rem(q, r);
    QuotRem(i, n);
    QuotRem(q, r);
    Regroup(n, r, c, a, o);
    QuotRemUnique(i, p, c, Product(a, n) + o);
    QuotRemUnique(Product(a, n) + o, n, a, o);
  }

  // ---------- masks ----------

  lemma AndHalves(x: nat, p: nat)
    requires p > 0
    ensures And(x, 2 * p - 1) == x % 2 + 2 * And(x / 2, p - 1)
  {
    assert (2 * p - 1) / 2 == p - 1 && (2 * p - 1) % 2 == 1;
  }

  /** Masking with 2^k - 1 is the remainder modulo 2^k. */
  lemma {:induction false} LowMaskIsRem(x: nat, k: nat)
    ensures And(x, Pow2(k) - 1) == Rem(x, Pow2(k))
  {
    if k == 0 {
      RemOne(x);
    } else {
      var p := Pow2(k - 1);
      assert Pow2(k) == 2 * p;
      hide Pow2;
      LowMaskIsRem(x / 2, k - 1);
      AndHalves(x, p);
      DoubleRem(x, p);
      hide And, Rem;
    }
  }

  lemma RemOne(x: int)
    ensures Rem(x, 1) == 0
  {
  }

  lemma AndLowMask(x: nat, k: nat)
    ensures And(x, Pow2(k) - 1) == x % Pow2(k)
  {
    LowMaskIsRem(x, k);
    hide And, Pow2;
  }

  /** Masking with the single bit 2^k tests that bit. */
  lemma {:induction false} AndSingleBit(x: nat, k: nat)
    ensures And(x, Pow2(k)) == if BitSet(x, k) then Pow2(k) else 0
  {
    if k == 0 {
    } else {
      AndSingleBit(x / 2, k - 1);
      assert Pow2(k) % 2 == 0 && Pow2(k) / 2 == Pow2(k - 1);
    }
  }

  /** bit | (bit - 1) fills every place below a single bit. */
  lemma {:induction false} OrBelowBit(k: nat)
    ensures Or(Pow2(k), Pow2(k) - 1) == Pow2(k + 1) - 1
  {
    if k == 0 {
    } else {
      var p := Pow2(k - 1);
      OrBelowBit(k - 1);
      assert (2 * p - 1) / 2 == p - 1 && (2 * p - 1) % 2 == 1;
    }
  }

  lemma {:induction false} Pow2Add(a: nat, b: nat)
    ensures Pow2(a + b) == Pow2(a) * Pow2(b)
  {
    if a == 0 {
    } else {
      Pow2Add(a - 1, b);
      MulDouble(Pow2(b), Pow2(a - 1));
    }
  }

  lemma {:induction false} Pow2Monotone(a: nat, b: nat)
    requires a <= b
    ensures Pow2(a) <= Pow2(b)
  {
    if a == b {
    } else {
      Pow2Monotone(a, b - 1);
    }
  }

  /** 2^Digits(x) is the least power of two above x. */
  lemma {:induction false} DigitsIsLeastExponent(x: nat, k: nat)
    ensures x < Pow2(k) <==> Digits(x) <= k
  {
    if x == 0 || k == 0 {
    } else {
      DigitsIsLeastExponent(x / 2, k - 1);
      assert x < 2 * Pow2(k - 1) <==> x / 2 < Pow2(k - 1);
    }
  }

  /** The topmost bit of a positive number is set, and every place above it is clear. */
  lemma {:induction false} TopBit(x: nat, k: nat)
    requires x < Pow2(k + 1)
    ensures BitSet(x, k) <==> Pow2(k) <= x
  {
    if k == 0 {
    } else {
      TopBit(x / 2, k - 1);
    }
  }
}
