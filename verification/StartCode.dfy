/** The start-code search of `h264.cpp:383-425`: four bytes at a time, against the naive search. */
module StartCode {
  import opened Bytes

  /** The bytes 00 00 01 stand at `i`. */
  predicate Code(s: seq<byte>, i: nat) {
    i + 2 < |s| && s[i] == 0 && s[i + 1] == 0 && s[i + 2] == 1
  }

  /** The naive search: the first start code from `p` on with a byte behind it before `e`, or `e`. */
  function FirstCode(s: seq<byte>, p: nat, e: nat): (r: nat)
    requires p <= e <= |s|
    ensures p <= r <= e
    decreases e - p
  {
    if p + 3 >= e then e else if Code(s, p) then p else FirstCode(s, p + 1, e)
  }

  /** It is the least such index. */
  lemma {:induction false} FirstCodeLeast(s: seq<byte>, p: nat, e: nat, r: nat)
    requires p <= e <= |s| && p <= r
    ensures FirstCode(s, p, e) == r <==>
            (forall i :: p <= i < r && i + 3 < e ==> !Code(s, i)) &&
            (r == e || (r + 3 < e && Code(s, r)))
    decreases e - p
  {
    if p + 3 < e && !Code(s, p) {
      if r > p {
        FirstCodeLeast(s, p + 1, e, r);
      } else {
        assert FirstCode(s, p + 1, e) > p;
      }
    }
  }

  /** In octets: 00 00 01 stands there, with a byte behind it, and nowhere before. */
  lemma {:induction false} FirstCodeOctets(s: seq<byte>, p: nat, e: nat)
    requires p <= e <= |s|
    ensures var r := FirstCode(s, p, e);
            && (r < e ==> r + 3 < e && At(s, r, [0, 0, 1]))
            && (forall i :: p <= i < r && i + 3 < e ==> !At(s, i, [0, 0, 1]))
  {
    var r := FirstCode(s, p, e);
    FirstCodeLeast(s, p, e, r);
    forall i | p <= i < r && i + 3 < e ensures !At(s, i, [0, 0, 1]) {
      assert !Code(s, i) && s[i..i + 3] == [s[i], s[i + 1], s[i + 2]];
    }
  }

  /** Indices without a start code are passed over. */
  lemma {:induction false} PassOver(s: seq<byte>, p: nat, q: nat, e: nat)
    requires p <= q <= e <= |s| && forall i :: p <= i < q ==> !Code(s, i)
    requires q + 3 <= e
    ensures FirstCode(s, p, e) == FirstCode(s, q, e)
    decreases q - p
  {
    if p < q { PassOver(s, p + 1, q, e); }
  }

  function Wide(b: byte): (w: bv32)
    ensures w < 0x100 && (w == 0 <==> b == 0)
  {
    b as bv32
  }

  function Packed(a: bv32, b: bv32, c: bv32, d: bv32): bv32 {
    a | (b << 8) | (c << 16) | (d << 24)
  }

  /** Four bytes as the word a little-endian machine loads. */
  function Word(s: seq<byte>, p: nat): bv32
    requires p + 4 <= |s|
  {
    Packed(Wide(s[p]), Wide(s[p + 1]), Wide(s[p + 2]), Wide(s[p + 3]))
  }

  predicate HasZero(x: bv32) {
    (x - 0x0101_0101) & !x & 0x8080_8080 != 0
  }

  lemma HasZeroBytes(a: bv32, b: bv32, c: bv32, d: bv32)
    requires a < 0x100 && b < 0x100 && c < 0x100 && d < 0x100
    ensures HasZero(Packed(a, b, c, d)) <==> a == 0 || b == 0 || c == 0 || d == 0
  {}

  /** The test on a word says whether one of its bytes is zero. */
  lemma WordTest(s: seq<byte>, p: nat)
    requires p + 4 <= |s|
    ensures HasZero(Word(s, p)) <==> s[p] == 0 || s[p + 1] == 0 || s[p + 2] == 0 || s[p + 3] == 0
  {
    hide HasZero, Packed, Wide;
    HasZeroBytes(Wide(s[p]), Wide(s[p + 1]), Wide(s[p + 2]), Wide(s[p + 3]));
  }

  /** Four steps of the naive search. */
  lemma FourSteps(s: seq<byte>, p: nat, e: nat)
    requires p + 6 < e <= |s|
    ensures FirstCode(s, p, e) ==
            if Code(s, p) then p else if Code(s, p + 1) then p + 1
            else if Code(s, p + 2) then p + 2 else if Code(s, p + 3) then p + 3 else FirstCode(s, p + 4, e)
  {
    assert FirstCode(s, p + 2, e) ==
           if Code(s, p + 2) then p + 2 else if Code(s, p + 3) then p + 3 else FirstCode(s, p + 4, e);
  }

  lemma NextAligned(x: nat)
    ensures (x + 4 - x % 4) % 4 == 0
  {}

  lemma WordStep(x: nat)
    requires x % 4 == 0
    ensures (x + 4) % 4 == 0
  {}

  /** The first of the four start codes that can begin in the word at `p`; 4 for none. */
  method FindInWord(s: seq<byte>, p: nat) returns (k: nat)
    requires p + 6 <= |s|
    ensures k == if Code(s, p) then 0 else if Code(s, p + 1) then 1
                 else if Code(s, p + 2) then 2 else if Code(s, p + 3) then 3 else 4
  {
    WordTest(s, p);
    var x := Word(s, p);
    if HasZero(x) {
      if s[p + 1] == 0 {
        if s[p] == 0 && s[p + 2] == 1 { return 0; }
        if s[p + 2] == 0 && s[p + 3] == 1 { return 1; }
      }
      if s[p + 3] == 0 {
        if s[p + 2] == 0 && s[p + 4] == 1 { return 2; }
        if s[p + 4] == 0 && s[p + 5] == 1 { return 3; }
      }
    }
    return 4;
  }

  /** `ff_avc_find_startcode_internal`, from index `from` of a buffer whose first byte is at address
      `base`. The words it loads are aligned. */
  method FindInternal(s: seq<byte>, from: nat, e: nat, base: nat) returns (r: nat)
    requires from <= e <= |s|
    ensures r == FirstCode(s, from, e)
  {
    var p: int := from;
    var a: int := p + 4 - (base + p) % 4;
    var end: int := e;
    NextAligned(base + p);
    end := end - 3;
    while p < a && p < end
      invariant from <= p <= a
      invariant p < end ==> FirstCode(s, from, e) == FirstCode(s, p, e)
      invariant p >= end ==> FirstCode(s, from, e) == e
    {
      if s[p] == 0 && s[p + 1] == 0 && s[p + 2] == 1 {
        return p;
      }
      p := p + 1;
    }
    end := end - 3;
    while p < end
      invariant from <= p
      invariant p < end + 3 ==> FirstCode(s, from, e) == FirstCode(s, p, e)
      invariant p >= end + 3 ==> FirstCode(s, from, e) == e
      invariant p < end ==> (base + p) % 4 == 0
    {
      FourSteps(s, p, e);
      WordStep(base + p);
      var k := FindInWord(s, p);
      if k < 4 { return p + k; }
      p := p + 4;
    }
    end := end + 3;
    while p < end
      invariant from <= p
      invariant p < end ==> FirstCode(s, from, e) == FirstCode(s, p, e)
      invariant p >= end ==> FirstCode(s, from, e) == e
    {
      if s[p] == 0 && s[p + 1] == 0 && s[p + 2] == 1 {
        return p;
      }
      p := p + 1;
    }
    return end + 3;
  }
}
