/** The bit reader with two cached words (`bits.c`), against reading the bits of the input extended
    with zeros. */
module Bits {
  import opened Numbers
  import opened Bytes
  import opened Sequences
  import opened Words

  // ---- Bits of the input -----------------------------------------------------------------------------

  /** Bit `i` of the input, the most significant bit of a byte first; zero behind the end. */
  function BitAt(data: seq<byte>, i: nat): nat {
    if i / 8 >= |data| then 0 else data[i / 8] / Pow2(7 - i % 8) % 2
  }

  /** The number formed by the `n` bits from position `p` on. */
  function Value(data: seq<byte>, p: nat, n: nat): (v: nat)
    ensures v < Pow2(n)
  {
    if n == 0 then 0 else 2 * Value(data, p, n - 1) + BitAt(data, p + n - 1)
  }

  lemma DoubleSum(x: nat, w: nat, y: nat)
    ensures 2 * (x * w + y) == x * (2 * w) + 2 * y
  {
    MulAssoc(x, 2, w);
  }

  /** A number is made of those of its parts. */
  lemma {:induction false} ValueSplit(data: seq<byte>, p: nat, a: nat, b: nat)
    ensures Value(data, p, a + b) == Value(data, p, a) * Pow2(b) + Value(data, p + a, b)
  {
    hide BitAt;
    if b > 0 {
      ValueSplit(data, p, a, b - 1);
      var x, w, y := Value(data, p, a), Pow2(b - 1), Value(data, p + a, b - 1);
      MulAssoc(x, 2, w);
      DoubleSum(x, w, y);
      assert p + (a + b) - 1 == p + a + b - 1;
    } else {
      assert Pow2(0) == 1;
    }
  }

  function ByteAt(data: seq<byte>, i: nat): byte {
    if i < |data| then data[i] else 0
  }

  /** The big-endian word `k` of the input (`getdword`, `getdword_n`). */
  function WordAt(data: seq<byte>, k: nat): uint32 {
    ByteAt(data, 4 * k) as int * 0x100_0000 + ByteAt(data, 4 * k + 1) as int * 0x1_0000 +
    ByteAt(data, 4 * k + 2) as int * 0x100 + ByteAt(data, 4 * k + 3) as int
  }

  /** The first `j` bits of a byte. */
  lemma {:induction false} BytePrefix(data: seq<byte>, i: nat, j: nat)
    requires j <= 8
    ensures Value(data, 8 * i, j) == ByteAt(data, i) as int / Pow2(8 - j)
  {
    var b := ByteAt(data, i) as int;
    if j == 0 {
      PowerOfByte();
    } else {
      BytePrefix(data, i, j - 1);
      HalfQuotient(b, Pow2(8 - j));
      BitOf(data, i, j - 1);
      assert Pow2(8 - (j - 1)) == 2 * Pow2(8 - j);
    }
  }

  /** The bits of a byte, the most significant one first, and of a word, the first byte first. */
  lemma {:induction false} WholeValues(data: seq<byte>, i: nat)
    ensures i < |data| ==> Value(data, 8 * i, 8) == data[i] && Value(data, 8 * i, 1) == data[i] as int / 0x80
    ensures i >= |data| ==> Value(data, 8 * i, 8) == 0
    ensures i + 4 <= |data| ==> Value(data, 8 * i, 32) == Get32(data, i)
  {
    hide Value, BitAt, Pow2, Get32;
    OneByte(data, i);
    if i + 4 <= |data| { FourBytes(data, i); }
  }

  lemma {:induction false} OneByte(data: seq<byte>, i: nat)
    ensures Value(data, 8 * i, 8) == ByteAt(data, i) && Value(data, 8 * i, 1) == ByteAt(data, i) as int / 0x80
  {
    hide Value, BitAt;
    BytePrefix(data, i, 8);
    BytePrefix(data, i, 1);
    assert Pow2(0) == 1 && Pow2(7) == 0x80 by { assert Pow2(3) == 8; Pow2Add(3, 4); assert Pow2(4) == 16; }
  }

  lemma {:induction false} FourBytes(data: seq<byte>, i: nat)
    requires i + 4 <= |data|
    ensures Value(data, 8 * i, 32) == Get32(data, i)
  {
    hide Value, BitAt, Pow2;
    OneByte(data, i);
    OneByte(data, i + 1);
    OneByte(data, i + 2);
    OneByte(data, i + 3);
    PowerOfByte();
    ValueSplit(data, 8 * i, 8, 8);
    ValueSplit(data, 8 * i, 16, 8);
    ValueSplit(data, 8 * i, 24, 8);
  }

  lemma PowerOfByte()
    ensures Pow2(8) == 0x100
  {
    assert Pow2(4) == 16;
    Pow2Add(4, 4);
  }

  lemma HalfQuotient(a: nat, w: nat)
    requires w > 0
    ensures a / (2 * w) == a / w / 2
  {
    var q := a / w;
    DivMod(a, w);
    HalfOf(q, q / 2, q % 2, w);
    var r := if q % 2 == 0 then a % w else w + a % w;
    QuotientIs(a, 2 * w, q / 2, r);
  }

  lemma HalfOf(q: nat, h: nat, odd: nat, w: nat)
    requires q == 2 * h + odd && odd < 2
    ensures q * w == h * (2 * w) + if odd == 0 then 0 else w
  {
    MulAssoc(h, 2, w);
    if odd == 1 { Distributes(h * 2, w); }
  }

  lemma Distributes(a: nat, w: nat)
    ensures (a + 1) * w == a * w + w
  {
  }

  lemma BitOf(data: seq<byte>, i: nat, k: nat)
    requires k < 8
    ensures BitAt(data, 8 * i + k) == ByteAt(data, i) as int / Pow2(7 - k) % 2
  {
    assert (8 * i + k) / 8 == i && (8 * i + k) % 8 == k;
    ZeroQuotient(Pow2(7 - k));
  }

  lemma ZeroQuotient(w: nat)
    requires w > 0
    ensures 0 / w == 0
  {
    DivMod(0, w);
    FactorsEqual(0 / w, 0, w, 0 % w, 0);
  }

  /** Eight bits more are a byte more. */
  lemma ByteMore(data: seq<byte>, i: nat, p: nat, a: nat)
    requires p + a == 8 * i
    ensures Value(data, p, a + 8) == Value(data, p, a) * 0x100 + ByteAt(data, i) as int
  {
    ValueSplit(data, p, a, 8);
    PowerOfByte();
    BytePrefix(data, i, 8);
    assert Pow2(0) == 1;
  }

  lemma {:induction false} NoBitsValue(data: seq<byte>, p: nat)
    ensures Value(data, p, 0) == 0
  {
  }

  lemma {:induction false} WordBits(data: seq<byte>, k: nat)
    ensures Value(data, 32 * k, 32) == WordAt(data, k)
  {
    hide ByteAt, Value;
    var p := 32 * k;
    NoBitsValue(data, p);
    ByteMore(data, 4 * k, p, 0);
    ByteMore(data, 4 * k + 1, p, 8);
    ByteMore(data, 4 * k + 2, p, 16);
    ByteMore(data, 4 * k + 3, p, 24);
  }

  // ---- Bits of the cached words ----------------------------------------------------------------------

  /** What is left of a word: the low `left` bits. */
  lemma WordRest(data: seq<byte>, k: nat, left: nat) returns (high: nat)
    requires left <= 32
    ensures WordAt(data, k) == high * Pow2(left) + Value(data, 32 * k + (32 - left), left)
  {
    hide WordAt, Pow2, Value;
    WordBits(data, k);
    ValueSplit(data, 32 * k, 32 - left, left);
    high := Value(data, 32 * k, 32 - left);
  }

  /** `(bufa << (32 - left)) >> (32 - n)`: the first `n` of the bits left. */
  lemma ShownWithin(data: seq<byte>, k: nat, left: nat, n: nat)
    requires 1 <= n <= left <= 32
    ensures Shr(Shl(WordAt(data, k), 32 - left), 32 - n) == Value(data, 32 * k + (32 - left), n)
  {
    hide Value, WordAt, Shl, Shr, Pow2;
    var p, e := 32 * k + (32 - left), left - n;
    var high := WordRest(data, k, left);
    var r := Value(data, p, left);
    ShlDrops(WordAt(data, k), high, r, left);
    ValueSplit(data, p, n, e);
    var x, y := Value(data, p, n), Value(data, p + n, e);
    var s := Pow2(32 - left);
    Pow2Add(e, 32 - left);
    Distribute(x, Pow2(e), y, s);
    ScaledBelow(y, Pow2(e), s);
    ShrDrops(Shl(WordAt(data, k), 32 - left), x, y * s, 32 - n);
  }

  /** `((bufa & ((1 << left) - 1)) << b) | (bufb >> (32 - b))`: all the bits left, and `b` of the
      next word. */
  lemma ShownAcross(data: seq<byte>, k: nat, left: nat, b: nat)
    requires 1 <= b && left + b <= 32 && b < 32
    ensures Value(data, 32 * k + (32 - left), left) * Pow2(b) < 0x1_0000_0000
    ensures And(WordAt(data, k), Pow2(left) - 1) == Value(data, 32 * k + (32 - left), left)
    ensures Or(Shl(Value(data, 32 * k + (32 - left), left), b), Shr(WordAt(data, k + 1), 32 - b)) ==
            Value(data, 32 * k + (32 - left), left + b) < 0x1_0000_0000
  {
    hide Value, WordAt, Shl, Shr, Pow2, And, Or;
    var p := 32 * k + (32 - left);
    var high := WordRest(data, k, left);
    var r := Value(data, p, left);
    MaskIsRemainder(WordAt(data, k), left);
    RemainderUnique(WordAt(data, k), Pow2(left), high, r);
    WordBits(data, k + 1);
    ValueSplit(data, 32 * (k + 1), b, 32 - b);
    var z := Value(data, 32 * (k + 1), b);
    ShrDrops(WordAt(data, k + 1), z, Value(data, 32 * (k + 1) + b, 32 - b), 32 - b);
    ScaledBelow(r, Pow2(left), Pow2(b));
    Pow2Add(left, b);
    PowerOfWord();
    Pow2Mono(left + b, 32);
    ShlSmall(r, b);
    OrIsSum(r, z, b);
    ValueSplit(data, p, left, b);
    assert p + left == 32 * (k + 1);
  }

  // ---- The reader ------------------------------------------------------------------------------------

  class BitReader {
    var buffer: seq<byte>
    var bufa: uint32
    var bufb: uint32
    var bitsLeft: nat
    var bytesLeft: nat
    /** The index of the next word to load; `start` is index 0. */
    var tail: nat
    var error: bool

    /** The two words before the tail are cached, and the bytes behind them are left. */
    ghost predicate Valid()
      reads this
    {
      && !error && tail >= 2 && bitsLeft <= 32
      && bufa == WordAt(buffer, tail - 2) && bufb == WordAt(buffer, tail - 1)
      && bytesLeft == if |buffer| > 4 * tail then |buffer| - 4 * tail else 0
    }

    /** The position in the input, in bits. */
    ghost function Position(): nat
      reads this
      requires Valid()
    {
      32 * (tail - 1) - bitsLeft
    }

    constructor ()
      ensures error
    {
      buffer, bufa, bufb, bitsLeft, bytesLeft, tail, error := [], 0, 0, 0, 0, 0, true;
    }

    /** The word `k`, with the bytes left (`getdword`, or `getdword_n` for fewer than four). */
    method Load(k: nat) returns (word: uint32)
      requires bytesLeft == if |buffer| > 4 * k then |buffer| - 4 * k else 0
      modifies this`bytesLeft
      ensures word == WordAt(buffer, k)
      ensures bytesLeft == if |buffer| > 4 * (k + 1) then |buffer| - 4 * (k + 1) else 0
    {
      if bytesLeft >= 4 {
        word := Get32(buffer, 4 * k);
        bytesLeft := bytesLeft - 4;
      } else {
        var high := if bytesLeft >= 1 then buffer[4 * k] as int * 0x100_0000 else 0;
        var middle := if bytesLeft >= 2 then buffer[4 * k + 1] as int * 0x1_0000 else 0;
        var low := if bytesLeft >= 3 then buffer[4 * k + 2] as int * 0x100 else 0;
        word := high + middle + low;
        bytesLeft := 0;
      }
    }

    /** `bitbuffer_initbits`: an empty buffer is an error. */
    method InitBits(data: seq<byte>)
      modifies this
      ensures |data| == 0 ==> error
      ensures |data| > 0 ==> Valid() && buffer == data && Position() == 0 && bitsLeft > 0
    {
      if |data| == 0 {
        error := true;
        return;
      }
      buffer, bytesLeft := data, |data|;
      bufa := Load(0);
      bufb := Load(1);
      tail, bitsLeft, error := 2, 32, false;
    }

    /** `bitbuffer_get_processed_bits`, a 32-bit count. */
    method GetProcessedBits() returns (count: uint32)
      requires Valid()
      ensures count == Wrap32(Position())
    {
      count := Wrap32(8 * (4 * tail - 4) - bitsLeft);
    }

    method ShowBits(n: nat) returns (value: uint32)
      requires Valid() && 1 <= n <= 32 && (bitsLeft == 0 ==> n <= 31)
      ensures value == Value(buffer, Position(), n)
    {
      hide Value, WordAt, Shl, Shr, Pow2, And, Or;
      assert 32 * (tail - 2) + (32 - bitsLeft) == Position();
      if n <= bitsLeft {
        ShownWithin(buffer, tail - 2, bitsLeft, n);
        return Shr(Shl(bufa, 32 - bitsLeft), 32 - n);
      }
      var bits := n - bitsLeft;
      ShownAcross(buffer, tail - 2, bitsLeft, bits);
      value := Or(Shl(And(bufa, Pow2(bitsLeft) - 1), bits), Shr(bufb, 32 - bits));
    }

    method FlushBits(n: nat)
      requires Valid() && n <= 32
      modifies this`bufa, this`bufb, this`bitsLeft, this`bytesLeft, this`tail
      ensures Valid() && Position() == old(Position()) + n
      ensures bitsLeft == 0 <==> old(bitsLeft) == 0 && n == 32
    {
      if error { return; }
      if n < bitsLeft {
        bitsLeft := bitsLeft - n;
      } else {
        FlushBitsEx(n);
      }
    }

    /** Moves on to the next word. */
    method FlushBitsEx(n: nat)
      requires Valid() && bitsLeft <= n <= 32
      modifies this`bufa, this`bufb, this`bitsLeft, this`bytesLeft, this`tail
      ensures Valid() && Position() == old(Position()) + n
      ensures bitsLeft == old(bitsLeft) + (32 - n)
    {
      bufa := bufb;
      bufb := Load(tail);
      tail := tail + 1;
      bitsLeft := bitsLeft + (32 - n);
    }

    /** `bitbuffer_getbits`: the next `n` bits of the input extended with zeros. */
    method GetBits(n: nat) returns (value: uint32)
      requires Valid() && n <= 32 && (bitsLeft == 0 ==> n <= 31)
      modifies this`bufa, this`bufb, this`bitsLeft, this`bytesLeft, this`tail
      ensures Valid() && Position() == old(Position()) + n
      ensures value == Value(buffer, old(Position()), n)
      ensures bitsLeft == 0 <==> old(bitsLeft) == 0 && n == 0
    {
      if n == 0 { return 0; }
      value := ShowBits(n);
      FlushBits(n);
    }

    /** `bitbuffer_get1bit` takes the last bit of a word without loading the next one. */
    method Get1Bit() returns (bit: uint32)
      requires Valid()
      modifies this`bufa, this`bufb, this`bitsLeft, this`bytesLeft, this`tail
      ensures Valid() && Position() == old(Position()) + 1
      ensures bit == Value(buffer, old(Position()), 1)
      ensures bitsLeft == 0 <==> Position() % 32 == 0
    {
      if bitsLeft > 0 {
        OneBit(buffer, tail - 2, bitsLeft);
        WordEnd(tail - 1, bitsLeft - 1);
        bitsLeft := bitsLeft - 1;
        bit := Shr(bufa, bitsLeft) % 2;
        return;
      }
      WordEnd(tail, 31);
      bit := GetBits(1);
    }

    /** `bitbuffer_byte_align`: on to the next multiple of eight. */
    method ByteAlign() returns (skipped: nat)
      requires Valid()
      modifies this`bufa, this`bufb, this`bitsLeft, this`bytesLeft, this`tail
      ensures Valid() && Position() == old(Position()) + skipped && Position() % 8 == 0 && skipped < 8
      ensures bitsLeft == 0 <==> old(bitsLeft) == 0
    {
      var remainder := (32 - bitsLeft) % 8;
      AlignedPosition(tail, bitsLeft);
      if remainder != 0 {
        FlushBits(8 - remainder);
        return 8 - remainder;
      }
      return 0;
    }

    /** `bitbuffer_resetbits`: to any position up to the end of the buffer. */
    method ResetBits(bits: nat)
      requires Valid() && bits / 32 * 4 <= |buffer|
      modifies this`bufa, this`bufb, this`bitsLeft, this`bytesLeft, this`tail, this`error
      ensures Valid() && Position() == bits && bitsLeft > 0
    {
      var words, remainder := bits / 32, bits % 32;
      bytesLeft := |buffer| - words * 4;
      bufa := Load(words);
      bufb := Load(words + 1);
      bitsLeft := 32 - remainder;
      tail := words + 2;
      error := false;
    }
  }

  lemma WordEnd(words: nat, left: nat)
    requires left < 32 && words >= 1
    ensures (32 * words - left) % 32 == 0 <==> left == 0
  {
    if left > 0 {
      RemainderUnique(32 * words - left, 32, words - 1, 32 - left);
    }
  }

  lemma AlignedPosition(tail: nat, left: nat)
    requires tail >= 2 && left <= 32
    ensures var r := (32 - left) % 8; (32 * (tail - 1) - left + if r == 0 then 0 else 8 - r) % 8 == 0
  {}

  /** `(bufa >> (left - 1)) & 1`. */
  lemma OneBit(data: seq<byte>, k: nat, left: nat)
    requires 1 <= left <= 32
    ensures Shr(WordAt(data, k), left - 1) % 2 == Value(data, 32 * k + (32 - left), 1)
  {
    hide WordAt, Shr, Pow2, BitAt;
    var p := 32 * k;
    WordBits(data, k);
    ValueSplit(data, p, 33 - left, left - 1);
    ShrDrops(WordAt(data, k), Value(data, p, 33 - left), Value(data, p + (33 - left), left - 1), left - 1);
    LastBit(data, p, 33 - left);
  }

  lemma LastBit(data: seq<byte>, p: nat, n: nat)
    requires n >= 1
    ensures Value(data, p, n) % 2 == Value(data, p + n - 1, 1)
  {
    hide BitAt;
    BitIsBit(data, p + n - 1);
    OneValue(data, p + n - 1);
  }

  lemma BitIsBit(data: seq<byte>, i: nat)
    ensures BitAt(data, i) <= 1
  {}

  // ---- Whole runs ------------------------------------------------------------------------------------

  datatype Call = Read(n: nat) | ReadOne | Align | Reset(bits: nat)

  /** The naive reader: where a call at position `p` ends, and what it returns. */
  function Ends(c: Call, p: nat): nat {
    match c
    case Read(n) => p + n
    case ReadOne => p + 1
    case Align => p + (8 - p % 8) % 8
    case Reset(bits) => bits
  }

  function Returns(data: seq<byte>, c: Call, p: nat): nat {
    match c
    case Read(n) => Value(data, p, n)
    case ReadOne => BitAt(data, p)
    case Align => (8 - p % 8) % 8
    case Reset(_) => 0
  }

  /** Whether a call at position `p` leaves the reader drained: at the end of a word, with the next one
      not loaded. Only a single bit taken does. */
  predicate Drains(c: Call, p: nat, drained: bool) {
    match c
    case Read(n) => n == 0 && drained
    case ReadOne => (p + 1) % 32 == 0
    case Align => drained
    case Reset(_) => false
  }

  /** Calls the code defines: up to 32 bits at once, or 31 from a drained reader, where C leaves a shift
      by 32 undefined; and resets inside the buffer. */
  predicate Callable(c: Call, size: nat, drained: bool) {
    (c.Read? ==> c.n <= 32 && (drained ==> c.n <= 31)) && (c.Reset? ==> c.bits / 32 * 4 <= size)
  }

  predicate Runnable(calls: seq<Call>, size: nat, p: nat, drained: bool) {
    calls == [] ||
    (Callable(calls[0], size, drained) &&
     Runnable(calls[1..], size, Ends(calls[0], p), Drains(calls[0], p, drained)))
  }

  function Answers(data: seq<byte>, calls: seq<Call>, p: nat): seq<nat> {
    if calls == [] then [] else [Returns(data, calls[0], p)] + Answers(data, calls[1..], Ends(calls[0], p))
  }

  /** Any calls, in any order, are answered as the naive reader answers them. */
  method Replay(data: seq<byte>, calls: seq<Call>) returns (answers: seq<nat>)
    requires |data| > 0 && Runnable(calls, |data|, 0, false)
    ensures answers == Answers(data, calls, 0)
  {
    var reader := new BitReader();
    reader.InitBits(data);
    answers := [];
    var rest := calls;
    while |rest| > 0
      invariant reader.Valid() && reader.buffer == data && fresh(reader)
      invariant Runnable(rest, |data|, reader.Position(), reader.bitsLeft == 0)
      invariant answers + Answers(data, rest, reader.Position()) == Answers(data, calls, 0)
      decreases |rest|
    {
      ghost var p := reader.Position();
      var answer := Answer(reader, rest[0]);
      Assoc(answers, [Returns(data, rest[0], p)], Answers(data, rest[1..], Ends(rest[0], p)));
      answers, rest := answers + [answer], rest[1..];
    }
    assert answers + [] == answers;
  }

  method Answer(reader: BitReader, c: Call) returns (answer: nat)
    requires reader.Valid() && Callable(c, |reader.buffer|, reader.bitsLeft == 0)
    modifies reader`bufa, reader`bufb, reader`bitsLeft, reader`bytesLeft, reader`tail, reader`error
    ensures reader.Valid()
    ensures answer == Returns(reader.buffer, c, old(reader.Position()))
    ensures reader.Position() == Ends(c, old(reader.Position()))
    ensures reader.bitsLeft == 0 <==> Drains(c, old(reader.Position()), old(reader.bitsLeft) == 0)
  {
    hide Value;
    ghost var p := reader.Position();
    match c {
      case Read(n) => answer := reader.GetBits(n);
      case ReadOne =>
        answer := reader.Get1Bit();
        OneValue(reader.buffer, p);
      case Align =>
        answer := reader.ByteAlign();
        AlignUnique(p, answer);
      case Reset(bits) =>
        reader.ResetBits(bits);
        answer := 0;
    }
  }

  lemma {:induction false} OneValue(data: seq<byte>, p: nat)
    ensures Value(data, p, 1) == BitAt(data, p)
  {
    assert Value(data, p, 1) == 2 * Value(data, p, 0) + BitAt(data, p + 1 - 1);
  }

  lemma AlignUnique(p: nat, k: nat)
    requires (p + k) % 8 == 0 && k < 8
    ensures k == (8 - p % 8) % 8
  {}
}
