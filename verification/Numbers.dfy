/** Powers of two, and bitwise operations of C on unsigned integers. */
module Numbers {
  function Pow2(n: nat): (r: nat)
    ensures r > 0
  {
    if n == 0 then 1 else 2 * Pow2(n - 1)
  }

  lemma {:induction false} Pow2Add(a: nat, b: nat)
    ensures Pow2(a + b) == Pow2(a) * Pow2(b)
  {
    if a > 0 {
      Pow2Add(a - 1, b);
      MulAssoc(2, Pow2(a - 1), Pow2(b));
    } else {
      assert 1 * Pow2(b) == Pow2(b);
    }
  }

  lemma {:induction false} Pow2Mono(a: nat, b: nat)
    requires a <= b
    ensures Pow2(a) <= Pow2(b)
  {
    if a < b { Pow2Mono(a, b - 1); }
  }

  /** Bitwise `&` on unsigned integers. */
  function And(a: nat, b: nat): nat
    decreases a
  {
    if a == 0 || b == 0 then 0
    else 2 * And(a / 2, b / 2) + if a % 2 == 1 && b % 2 == 1 then 1 else 0
  }

  /** Bit `k` of an unsigned integer. */
  predicate Bit(m: nat, k: nat) {
    if k == 0 then m % 2 == 1 else Bit(m / 2, k - 1)
  }

  lemma {:induction false} BitQuotient(m: nat, k: nat)
    ensures Bit(m, k) <==> m / Pow2(k) % 2 == 1
  {
    if k > 0 {
      BitQuotient(m / 2, k - 1);
      QuotientTwice(m, Pow2(k - 1));
    }
  }

  lemma QuotientTwice(m: nat, w: nat)
    requires w > 0
    ensures m / 2 / w == m / (2 * w)
  {
    var h := m / 2;
    var q, r := h / w, h % w;
    DivMod(h, w);
    assert m == q * (2 * w) + (2 * r + m % 2) by { assert q * (2 * w) == 2 * (q * w); }
    QuotientIs(m, 2 * w, q, 2 * r + m % 2);
  }

  /** `m | (1 << k)`. */
  function SetBit(m: nat, k: nat): nat {
    if k == 0 then m - m % 2 + 1 else 2 * SetBit(m / 2, k - 1) + m % 2
  }

  lemma {:induction false} SetBitBits(m: nat, k: nat, j: nat)
    ensures Bit(SetBit(m, k), j) <==> j == k || Bit(m, j)
  {
    if k > 0 && j > 0 {
      SetBitBits(m / 2, k - 1, j - 1);
      assert (2 * SetBit(m / 2, k - 1) + m % 2) / 2 == SetBit(m / 2, k - 1);
    }
  }

  lemma {:induction false} SetBitBound(m: nat, k: nat, width: nat)
    requires m < Pow2(width) && k < width
    ensures SetBit(m, k) < Pow2(width)
  {
    if k > 0 { SetBitBound(m / 2, k - 1, width - 1); }
  }

  lemma {:induction false} NoBits(k: nat)
    ensures !Bit(0, k)
  {
    if k > 0 { NoBits(k - 1); }
  }

  // ---- Division and remainder, in steps small enough for the verifier -------------------------

  lemma DivMod(r: nat, p: nat)
    requires p > 0
    ensures r == r / p * p + r % p && 0 <= r % p < p && 0 <= r / p
  {}

  lemma FactorBelow(q: nat, p: nat, r: nat)
    requires p > 0 && q * p <= r
    ensures q <= r
  {
    assert q * 1 <= q * p;
  }

  function Quotient(r: nat, p: nat): (q: nat)
    requires p > 0
    ensures q <= r && q * p <= r < q * p + p
  {
    DivMod(r, p);
    FactorBelow(r / p, p, r);
    r / p
  }

  lemma FactorsEqual(a: int, b: int, p: nat, u: nat, v: nat)
    requires a * p + u == b * p + v && u < p && v < p
    ensures a == b && u == v
  {
    assert (a - b) * p == v - u;
    FactorSign(a - b, p);
  }

  lemma FactorSign(c: int, p: nat)
    ensures c >= 1 ==> c * p >= p
    ensures c <= -1 ==> c * p <= 0 - p
  {}

  lemma QuotientUnique(x: nat, p: nat, q: nat, v: nat)
    requires x == q * p + v && v < p
    ensures Quotient(x, p) == q
  {
    var u := x - Quotient(x, p) * p;
    FactorsEqual(Quotient(x, p), q, p, u, v);
  }

  lemma QuotientIs(x: nat, p: nat, q: nat, v: nat)
    requires x == q * p + v && v < p
    ensures x / p == q
  {
    DivMod(x, p);
    FactorsEqual(x / p, q, p, x % p, v);
  }

  lemma MulAssoc(m: nat, a: nat, b: nat)
    ensures m * (a * b) == m * a * b
  {}

  lemma QuotientExact(d: nat, m: nat, a: nat, b: nat)
    requires b > 0 && d == m * (a * b)
    ensures Quotient(d, b) * b == d
  {
    MulAssoc(m, a, b);
    QuotientUnique(d, b, m * a, 0);
  }

  /** Masking with a power of two less one is the remainder. */
  lemma {:induction false} MaskIsRemainder(key: nat, power: nat)
    ensures And(key, Pow2(power) - 1) == key % Pow2(power)
    decreases power
  {
    if power > 0 {
      var w := Pow2(power - 1);
      MaskIsRemainder(key / 2, power - 1);
      assert (2 * w - 1) / 2 == w - 1 && (2 * w - 1) % 2 == 1;
      HalvedRemainder(key, w);
    } else {
      assert key % 1 == 0;
    }
  }

  lemma HalvedRemainder(a: nat, w: nat)
    requires w > 0
    ensures a % (2 * w) == 2 * ((a / 2) % w) + a % 2
  {
    var q, r := a / 2 / w, a / 2 % w;
    assert a == 2 * (q * w + r) + a % 2;
    assert a == q * (2 * w) + (2 * r + a % 2);
    assert 0 <= 2 * r + a % 2 < 2 * w;
    RemainderUnique(a, 2 * w, q, 2 * r + a % 2);
  }

  lemma RemainderUnique(a: nat, m: nat, q: nat, r: nat)
    requires r < m && a == q * m + r
    ensures a % m == r
  {
    DivMod(a, m);
    FactorsEqual(a / m, q, m, a % m, r);
  }

  /** Bitwise `|` on unsigned integers. */
  function Or(a: nat, b: nat): nat
    decreases a + b
  {
    if a == 0 then b else if b == 0 then a
    else 2 * Or(a / 2, b / 2) + if a % 2 == 1 || b % 2 == 1 then 1 else 0
  }

  /** Or-ing bits into the low places that are clear adds them. */
  lemma {:induction false} OrIsSum(a: nat, b: nat, k: nat)
    requires b < Pow2(k)
    ensures Or(a * Pow2(k), b) == a * Pow2(k) + b
    decreases k
  {
    if k > 0 && a > 0 && b > 0 {
      var w := Pow2(k - 1);
      MulAssoc(a, 2, w);
      assert a * Pow2(k) == 2 * (a * w);
      OrIsSum(a, b / 2, k - 1);
    }
  }
}
