/** Bytes, and the big-endian integers built from them. */
module Bytes {
  type byte = x: int | 0 <= x < 0x100
  type uint16 = x: int | 0 <= x < 0x1_0000
  type uint32 = x: int | 0 <= x < 0x1_0000_0000

  /** Arithmetic on `uint32_t` keeps the low 32 bits. */
  function Wrap32(x: nat): uint32 {
    x % 0x1_0000_0000
  }

  lemma WrapSmall(x: nat)
    requires x < 0x1_0000_0000
    ensures Wrap32(x) == x
  {}

  lemma WrapOff(x: nat, q: nat, v: nat)
    requires v < 0x1_0000_0000 && x == q * 0x1_0000_0000 + v
    ensures Wrap32(x) == v
  {}

  function Be16(v: uint16): (s: seq<byte>)
    ensures |s| == 2
  {
    [v / 0x100, v % 0x100]
  }

  /** The low 24 bits of `v`. */
  function Be24(v: uint32): (s: seq<byte>)
    ensures |s| == 3
  {
    [v / 0x1_0000 % 0x100, v / 0x100 % 0x100, v % 0x100]
  }

  function Be32(v: uint32): (s: seq<byte>)
    ensures |s| == 4
  {
    [v / 0x100_0000, v / 0x1_0000 % 0x100, v / 0x100 % 0x100, v % 0x100]
  }

  function Get16(s: seq<byte>, p: nat): uint16
    requires p + 2 <= |s|
  {
    s[p] as int * 0x100 + s[p + 1] as int
  }

  function Get24(s: seq<byte>, p: nat): uint32
    requires p + 3 <= |s|
  {
    s[p] as int * 0x1_0000 + s[p + 1] as int * 0x100 + s[p + 2] as int
  }

  function Get32(s: seq<byte>, p: nat): uint32
    requires p + 4 <= |s|
  {
    s[p] as int * 0x100_0000 + s[p + 1] as int * 0x1_0000 + s[p + 2] as int * 0x100 + s[p + 3] as int
  }

  /** The bytes `part` stand at position `p`. */
  predicate At(s: seq<byte>, p: nat, part: seq<byte>) {
    p + |part| <= |s| && s[p..p + |part|] == part
  }

  lemma AtByte(s: seq<byte>, p: nat, part: seq<byte>, k: nat)
    requires At(s, p, part) && k < |part|
    ensures s[p + k] == part[k]
  {
    assert s[p..p + |part|][k] == part[k];
  }

  lemma AtSplit(s: seq<byte>, p: nat, a: seq<byte>, b: seq<byte>)
    requires At(s, p, a + b)
    ensures At(s, p, a) && At(s, p + |a|, b)
  {
    assert s[p..p + |a + b|] == a + b;
    assert s[p..p + |a|] == (a + b)[..|a|];
    assert s[p + |a|..p + |a| + |b|] == (a + b)[|a|..];
  }

  lemma Digits(v: uint32)
    ensures v % 0x1_0000 == v / 0x100 % 0x100 * 0x100 + v % 0x100
    ensures v % 0x100_0000 == v / 0x1_0000 % 0x100 * 0x1_0000 + v % 0x1_0000
    ensures v == v / 0x100_0000 * 0x100_0000 + v % 0x100_0000
  {
    assert v / 0x100 / 0x100 == v / 0x1_0000;
    assert v / 0x1_0000 / 0x100 == v / 0x100_0000;
  }

  /** The most significant byte comes first. */
  lemma BigEndian(v: uint32)
    ensures Be32(v)[0] as int * 0x100_0000 + Be32(v)[1] as int * 0x1_0000 + Be32(v)[2] as int * 0x100 + Be32(v)[3] == v
    ensures v < 0x1_0000 ==> Be16(v)[0] as int * 0x100 + Be16(v)[1] == v
    ensures Be24(v)[0] as int * 0x1_0000 + Be24(v)[1] as int * 0x100 + Be24(v)[2] == v % 0x100_0000
    ensures Get16([1, 2], 0) == 0x102 && Get24([1, 2, 3], 0) == 0x1_0203 && Get32([1, 2, 3, 4], 0) == 0x102_0304
  {
    Digits(v);
  }

  lemma Read16(s: seq<byte>, p: nat, v: uint16)
    requires At(s, p, Be16(v))
    ensures Get16(s, p) == v
  {
    AtByte(s, p, Be16(v), 0);
    AtByte(s, p, Be16(v), 1);
  }

  lemma Read24(s: seq<byte>, p: nat, v: uint32)
    requires At(s, p, Be24(v))
    ensures Get24(s, p) == v % 0x100_0000
  {
    AtByte(s, p, Be24(v), 0);
    AtByte(s, p, Be24(v), 1);
    AtByte(s, p, Be24(v), 2);
    Digits(v);
  }

  lemma Read32(s: seq<byte>, p: nat, v: uint32)
    requires At(s, p, Be32(v))
    ensures Get32(s, p) == v
  {
    AtByte(s, p, Be32(v), 0);
    AtByte(s, p, Be32(v), 1);
    AtByte(s, p, Be32(v), 2);
    AtByte(s, p, Be32(v), 3);
    Digits(v);
  }

  function Zeros(n: nat): (s: seq<byte>)
    ensures |s| == n && forall i :: 0 <= i < n ==> s[i] == 0
  {
    seq(n, _ => 0)
  }

  // ---- Writing one thing after another ---------------------------------------------------------

  function Concat<T>(f: T -> seq<byte>, xs: seq<T>): seq<byte> {
    if xs == [] then [] else f(xs[0]) + Concat(f, xs[1..])
  }

  lemma {:induction false} ConcatSnoc<T>(f: T -> seq<byte>, xs: seq<T>, x: T)
    ensures Concat(f, xs + [x]) == Concat(f, xs) + f(x)
  {
    if xs == [] {
      assert [x][1..] == [];
    } else {
      ConcatSnoc(f, xs[1..], x);
      assert (xs + [x])[1..] == xs[1..] + [x];
    }
  }

  lemma {:induction false} ConcatAppend<T>(f: T -> seq<byte>, a: seq<T>, b: seq<T>)
    ensures Concat(f, a + b) == Concat(f, a) + Concat(f, b)
  {
    if a == [] {
      assert a + b == b;
    } else {
      ConcatAppend(f, a[1..], b);
      assert (a + b)[1..] == a[1..] + b;
    }
  }

  /** The loop over `xs` writes one element more. */
  lemma ConcatStep<T>(f: T -> seq<byte>, xs: seq<T>, i: nat)
    requires i < |xs|
    ensures Concat(f, xs[..i + 1]) == Concat(f, xs[..i]) + f(xs[i])
  {
    ConcatSnoc(f, xs[..i], xs[i]);
    assert xs[..i + 1] == xs[..i] + [xs[i]];
  }

  lemma {:induction false} ConcatLength<T>(f: T -> seq<byte>, xs: seq<T>, w: nat)
    requires forall i :: 0 <= i < |xs| ==> |f(xs[i])| == w
    ensures |Concat(f, xs)| == w * |xs|
  {
    if xs != [] {
      ConcatLength(f, xs[1..], w);
      assert w * |xs| == w + w * |xs[1..]|;
    }
  }

  /** Where one of several pieces of the same length stands. */
  lemma {:induction false} ConcatAt<T>(f: T -> seq<byte>, xs: seq<T>, w: nat, s: seq<byte>, p: nat, i: nat)
    requires At(s, p, Concat(f, xs)) && i < |xs| && forall k :: 0 <= k < |xs| ==> |f(xs[k])| == w
    ensures At(s, p + w * i, f(xs[i]))
    decreases xs
  {
    hide At;
    AtSplit(s, p, f(xs[0]), Concat(f, xs[1..]));
    if i > 0 {
      ConcatAt(f, xs[1..], w, s, p + w, i - 1);
      assert p + w + w * (i - 1) == p + w * i;
    } else {
      assert w * 0 == 0;
    }
  }

  /** `memcpy`. */
  method CopyBytes(buffer: array<byte>, pos: nat, part: seq<byte>) returns (end: nat)
    requires pos + |part| <= buffer.Length
    modifies buffer
    ensures end == pos + |part| && buffer[..end] == old(buffer[..pos]) + part && buffer[end..] == old(buffer[end..])
  {
    var i := 0;
    while i < |part|
      invariant 0 <= i <= |part| && buffer[..pos + i] == old(buffer[..pos]) + part[..i]
      invariant buffer[pos + i..] == old(buffer[pos + i..])
    {
      buffer[pos + i] := part[i];
      i := i + 1;
    }
    end := pos + |part|;
  }
}
