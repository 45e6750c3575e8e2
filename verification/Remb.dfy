/** The floating form of a bit rate in a REMB packet: an 18-bit mantissa and a 6-bit exponent
    (`rtcp_enc.cpp:52-69`, `rtcp_dec.cpp:862-880`). */
module Remb {
  import opened Numbers
  import opened Bytes
  import opened Words

  const MANTISSA_MAX := 0x3_FFFF

  /** The largest bit rate that has a mantissa and an exponent: (2^18 - 1) * 2^14. */
  const RATE_MAX := 0xFFFF_C000

  /** The search fails above `RATE_MAX`, and the exponent stays 0. */
  function Exponent(r: uint32): nat {
    if r <= RATE_MAX then Least(r, 0) else 0
  }

  /** The least exponent from `e` on that lets `r` fit. */
  function Least(r: uint32, e: nat): (k: nat)
    requires e <= 14 && r <= RATE_MAX
    ensures e <= k <= 14 && r <= MANTISSA_MAX * Pow2(k)
    ensures forall j :: e <= j < k ==> r > MANTISSA_MAX * Pow2(j)
    decreases 14 - e
  {
    PowersTo14(e);
    if r <= MANTISSA_MAX * Pow2(e) then e else Least(r, e + 1)
  }

  function Mantissa(r: uint32): uint32 {
    Shr(r, Exponent(r))
  }

  /** What a reader makes of the 18 mantissa bits and the exponent written for `r`. */
  function Carried(r: uint32): uint32 {
    Shl(Mantissa(r) % 0x4_0000, Exponent(r))
  }

  lemma {:induction false} PowersTo14(e: nat)
    requires e <= 14
    ensures Pow2(e) <= 0x4000 && (e == 14 ==> Pow2(e) == 0x4000)
  {
    Pow2Mono(e, 14);
    assert Pow2(14) == 0x4000 by { assert Pow2(7) == 0x80; Pow2Add(7, 7); }
  }

  /** Doubling 2^32 - 2^i loses the top bit and leaves 2^32 - 2^(i + 1). */
  lemma {:induction false} DoubledHigh(i: nat, k: nat)
    requires i + k < 32
    ensures Pow2(i) <= Pow2(i + k) < 0x1_0000_0000
    ensures Doubled(0x1_0000_0000 - Pow2(i), k) == 0x1_0000_0000 - Pow2(i + k)
    decreases k
  {
    PowerBelow32(i + k);
    PowerBelow32(i);
    Pow2Mono(i, i + k);
    if k > 0 {
      var m := 0x1_0000_0000 - Pow2(i);
      DoubledHigh(i + 1, k - 1);
      WrapOff(2 * m, 1, 0x1_0000_0000 - Pow2(i + 1));
    }
  }

  lemma MaxAt14()
    ensures Doubled(MANTISSA_MAX, 14) == RATE_MAX == 0x1_0000_0000 - Pow2(14)
  {
    PowersTo14(14);
    assert MANTISSA_MAX * Pow2(14) == RATE_MAX;
    DoubledSmall(MANTISSA_MAX, 14);
  }

  /** Above exponent 14 the shifted mantissa loses its top bits: it is 2^32 - 2^i. */
  lemma {:induction false} ShiftedOut(i: nat)
    requires 14 <= i < 32
    ensures Shl(MANTISSA_MAX, i) == 0x1_0000_0000 - Pow2(i) <= RATE_MAX
  {
    hide Pow2, Doubled;
    MaxAt14();
    DoubledSum(MANTISSA_MAX, 14, i - 14);
    DoubledHigh(14, i - 14);
    assert i % 32 == i;
  }

  lemma {:induction false} PowerBelow32(e: nat)
    requires e < 32
    ensures Pow2(e) < 0x1_0000_0000
  {
    Pow2Mono(e, 31);
    PowersTo14(14);
    Pow2Add(14, 14);
    Pow2Add(28, 3);
    assert Pow2(3) == 8;
  }

  lemma {:induction false} NotShiftedOut(i: nat)
    requires i <= 14
    ensures Shl(MANTISSA_MAX, i) == MANTISSA_MAX * Pow2(i) <= RATE_MAX
  {
    PowersTo14(i);
    ShlSmall(MANTISSA_MAX, i);
  }

  lemma Shifts(i: nat, j: nat)
    requires (i < 32 && j == i) || (32 <= i < 64 && j == i - 32)
    ensures Shl(MANTISSA_MAX, i) == Shl(MANTISSA_MAX, j)
  {
    assert i % 32 == j && j % 32 == j;
  }

  /** The comparison made in round `i` of the search. */
  lemma {:induction false} Round(i: nat)
    requires i < 64
    ensures Shl(MANTISSA_MAX, i) <= RATE_MAX
    ensures i <= 14 ==> Shl(MANTISSA_MAX, i) == MANTISSA_MAX * Pow2(i)
    ensures i == 14 ==> Shl(MANTISSA_MAX, i) == RATE_MAX
  {
    var j := if i < 32 then i else i - 32;
    Shifts(i, j);
    if j < 14 {
      NotShiftedOut(j);
    } else if j == 14 {
      NotShiftedOut(j);
      PowersTo14(14);
    } else {
      ShiftedOut(j);
    }
  }

  /** `ComputeMantissaAnd6bitBase2Exponent` for an 18-bit mantissa. */
  method Compute(rate: uint32) returns (mantissa: uint32, exponent: nat)
    ensures exponent == Exponent(rate) && mantissa == Mantissa(rate)
  {
    exponent := 0;
    var i := 0;
    while i < 64
      invariant 0 <= i <= 64 && exponent == 0
      invariant i <= 14 && rate <= RATE_MAX ==> Exponent(rate) == Least(rate, i)
      invariant i > 14 ==> rate > RATE_MAX
    {
      Round(i);
      if rate <= Shl(MANTISSA_MAX, i) {
        exponent := i;
        break;
      }
      i := i + 1;
    }
    mantissa := Shr(rate, exponent);
  }

  /** Up to `RATE_MAX` the mantissa fits and the value carried is close below the one given. */
  lemma RateCarried(r: uint32)
    requires r <= 0xFFFF_C000
    ensures Mantissa(r) <= 0x3_FFFF && Exponent(r) <= 14
    ensures Exponent(r) > 0 ==> r > 0x3_FFFF * Pow2(Exponent(r) - 1)
    ensures Carried(r) == Mantissa(r) * Pow2(Exponent(r)) <= r
    ensures (r - Carried(r)) * 0x2_0000 <= r
  {
    var e := Exponent(r);
    var p, m := Pow2(e), Mantissa(r);
    PowersTo14(e);
    MantissaFits(m, p, r);
    assert m % 0x4_0000 == m;
    ShlSmall(m, e);
    if e > 0 {
      assert r > 0x3_FFFF * Pow2(e - 1);
      assert r > MANTISSA_MAX * Pow2(e - 1);
      Close(r, m * p, Pow2(e - 1));
    }
  }

  lemma Close(r: nat, d: nat, p: nat)
    requires d <= r && r > MANTISSA_MAX * p && r < d + 2 * p && p <= 0x2000
    ensures (r - d) * 0x2_0000 <= r
  {}

  lemma MantissaFits(m: nat, p: nat, r: nat)
    requires p > 0 && m * p <= r <= MANTISSA_MAX * p
    ensures m <= MANTISSA_MAX
  {
    if m >= MANTISSA_MAX + 1 {
      Scaled(MANTISSA_MAX + 1, m, p);
    }
  }

  lemma Scaled(a: nat, b: nat, p: nat)
    requires a <= b
    ensures a * p <= b * p
  {
  }

  lemma {:induction false} ExponentLeast(d: uint32, e: nat)
    requires d <= RATE_MAX && e <= 14 && d <= MANTISSA_MAX * Pow2(e)
    ensures Exponent(d) <= e
  {}

  /** Encoding a carried value again loses nothing. */
  lemma CarriedTwice(r: uint32)
    requires r <= 0xFFFF_C000
    ensures Carried(r) <= 0xFFFF_C000 && Carried(Carried(r)) == Carried(r)
  {
    var d := Carried(r);
    var e, f := Exponent(r), Exponent(d);
    RateCarried(r);
    RateCarried(d);
    ExponentLeast(d, e);
    MultipleOfLower(d, Mantissa(r), e, f);
  }

  /** A multiple of a power of two is a multiple of any lower one. */
  lemma {:induction false} MultipleOfLower(d: uint32, m: nat, e: nat, f: nat)
    requires d == m * Pow2(e) && f <= e
    ensures Shr(d, f) * Pow2(f) == d
  {
    Pow2Add(e - f, f);
    QuotientExact(d, m, Pow2(e - f), Pow2(f));
  }

  /** The rate survives, to within one part in 2^17, exactly up to `RATE_MAX`. */
  lemma RateCarriedIff(r: uint32)
    ensures Carried(r) <= r && (r - Carried(r)) * 0x2_0000 <= r <==> r <= 0xFFFF_C000
  {
    if r <= RATE_MAX {
      RateCarried(r);
    } else {
      assert Pow2(0) == 1;
      assert Carried(r) == r % 0x4_0000;
    }
  }
}
