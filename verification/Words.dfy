/** Shifts of C on 32-bit unsigned words. */
module Words {
  import opened Numbers
  import opened Bytes

  /** `m << e`. C leaves shifts by 32 or more undefined; the machine shifts by `e % 32`. */
  function Shl(m: uint32, e: nat): uint32 {
    Doubled(m, e % 32)
  }

  function Doubled(m: uint32, k: nat): uint32
    decreases k
  {
    if k == 0 then m else Doubled(Wrap32(2 * m), k - 1)
  }

  /** `m >> e`, for `e` below 32. */
  function Shr(m: uint32, e: nat): uint32 {
    Quotient(m, Pow2(e))
  }

  /** Doubling is multiplication modulo 2^32. */
  lemma {:induction false} DoubledIsProduct(m: uint32, k: nat) returns (q: nat)
    ensures m * Pow2(k) == q * 0x1_0000_0000 + Doubled(m, k)
    decreases k
  {
    if k == 0 {
      q := 0;
    } else {
      var p := Pow2(k - 1);
      var w := Wrap32(2 * m);
      var t := DoubledIsProduct(w, k - 1);
      var top := if 2 * m >= 0x1_0000_0000 then 1 else 0;
      if top == 0 { WrapSmall(2 * m); } else { WrapOff(2 * m, 1, 2 * m - 0x1_0000_0000); }
      q := top * p + t;
      MulAssoc(m, 2, p);
      TopTimes(m, top, w, p);
    }
  }

  lemma TopTimes(m: nat, top: nat, w: nat, p: nat)
    requires 2 * m == top * 0x1_0000_0000 + w && top <= 1
    ensures m * 2 * p == top * p * 0x1_0000_0000 + w * p
  {}

  lemma {:induction false} DoubledSmall(m: uint32, k: nat)
    requires m * Pow2(k) < 0x1_0000_0000
    ensures Doubled(m, k) == m * Pow2(k)
  {
    var q := DoubledIsProduct(m, k);
  }

  lemma {:induction false} DoubledSum(m: uint32, a: nat, b: nat)
    ensures Doubled(m, a + b) == Doubled(Doubled(m, a), b)
    decreases a
  {
    if a > 0 { DoubledSum(Wrap32(2 * m), a - 1, b); }
  }

  lemma {:induction false} ShlSmall(m: uint32, e: nat)
    requires e < 32 && m * Pow2(e) < 0x1_0000_0000
    ensures Shl(m, e) == m * Pow2(e)
  {
    assert e % 32 == e;
    DoubledSmall(m, e);
  }

  lemma PowerOfWord()
    ensures Pow2(32) == 0x1_0000_0000
  {
    assert Pow2(4) == 16;
    Pow2Add(4, 4);
    Pow2Add(8, 8);
    Pow2Add(16, 16);
  }

  /** A shift to the left drops what is above the low `low` bits. */
  lemma ShlDrops(m: uint32, a: nat, r: nat, low: nat)
    requires 1 <= low <= 32 && r < Pow2(low) && m == a * Pow2(low) + r
    ensures Shl(m, 32 - low) == r * Pow2(32 - low) < 0x1_0000_0000
  {
    hide Pow2, Doubled;
    var e := 32 - low;
    var q := DoubledIsProduct(m, e);
    assert e % 32 == e;
    PowerOfWord();
    Pow2Add(low, e);
    Distribute(a, Pow2(low), r, Pow2(e));
    ScaledBelow(r, Pow2(low), Pow2(e));
    FactorsEqual(a, q, 0x1_0000_0000, r * Pow2(e), Doubled(m, e));
  }

  lemma Distribute(a: nat, x: nat, r: nat, y: nat)
    ensures (a * x + r) * y == a * (x * y) + r * y
  {}

  lemma ScaledBelow(r: nat, x: nat, y: nat)
    requires r < x && y > 0
    ensures r * y < x * y
  {}

  /** A shift to the right drops the low bits. */
  lemma {:induction false} ShrDrops(m: uint32, x: nat, y: nat, e: nat)
    requires m == x * Pow2(e) + y && y < Pow2(e)
    ensures Shr(m, e) == x
  {
    QuotientUnique(m, Pow2(e), x, y);
  }
}
