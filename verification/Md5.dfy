/** The buffering of MD5 (`md5.c`): messages that come in pieces, against RFC 1321, section 3, on the
    whole message. The compression of one block is a parameter. */
module Md5 {
  import opened Numbers
  import opened Bytes

  datatype State = State(a: uint32, b: uint32, c: uint32, d: uint32)

  type Compression = (State, seq<byte>) -> State

  const INIT: State := State(0x6745_2301, 0xEFCD_AB89, 0x98BA_DCFE, 0x1032_5476)

  // ---- The message as a whole ------------------------------------------------------------------------

  /** The state after the full blocks of a message; a last block that is not full is left out. */
  function Fold(f: Compression, s: State, message: seq<byte>): State
    decreases |message|
  {
    if |message| < 64 then s else Fold(f, f(s, message[..64]), message[64..])
  }

  lemma {:induction false} FoldBlock(f: Compression, s: State, message: seq<byte>)
    requires |message| >= 64
    ensures Fold(f, s, message) == Fold(f, f(s, message[..64]), message[64..])
  {
  }

  lemma {:induction false} FoldNone(f: Compression, s: State, message: seq<byte>)
    requires |message| < 64
    ensures Fold(f, s, message) == s
  {
  }

  lemma {:induction false} FoldAppend(f: Compression, s: State, a: seq<byte>, b: seq<byte>)
    requires |a| % 64 == 0
    ensures Fold(f, s, a + b) == Fold(f, Fold(f, s, a), b)
    decreases |a|
  {
    if |a| == 0 {
      assert a + b == b;
    } else {
      var ab := a + b;
      assert ab[..64] == a[..64] && ab[64..] == a[64..] + b;
      FoldAppend(f, f(s, a[..64]), a[64..], b);
    }
  }

  lemma {:induction false} FoldTail(f: Compression, s: State, a: seq<byte>, t: seq<byte>)
    requires |a| % 64 == 0 && |t| < 64
    ensures Fold(f, s, a + t) == Fold(f, s, a)
  {
    FoldAppend(f, s, a, t);
  }

  /** Four bytes, the low one first. */
  function Le32(v: uint32): (s: seq<byte>)
    ensures |s| == 4
  {
    [v % 0x100, v / 0x100 % 0x100, v / 0x1_0000 % 0x100, v / 0x100_0000]
  }

  /** One to 64 bytes: a one bit, and zeros up to eight bytes before the end of a block. */
  function PadLength(n: nat): nat {
    1 + (119 - n % 64) % 64
  }

  /** The padding of section 3.1 and the length of section 3.2: 64 bits, the low word first. */
  function Padded(message: seq<byte>): seq<byte> {
    var bits := 8 * |message| % 0x1_0000_0000_0000_0000;
    message + ([0x80] + Zeros(PadLength(|message|) - 1)) + (Le32(bits % 0x1_0000_0000) + Le32(bits / 0x1_0000_0000))
  }

  /** The digest of a message. */
  function Digest(f: Compression, message: seq<byte>): seq<byte> {
    Output(Fold(f, INIT, Padded(message)))
  }

  function Output(s: State): seq<byte> {
    Le32(s.a) + Le32(s.b) + Le32(s.c) + Le32(s.d)
  }

  /** The digest is the four words of the state in order, each with its low byte first. */
  lemma DigestOctets(s: State)
    ensures |Output(s)| == 16
    ensures LowWord(Output(s), 0) == s.a && LowWord(Output(s), 4) == s.b
    ensures LowWord(Output(s), 8) == s.c && LowWord(Output(s), 12) == s.d
  {
    LowFirst(s.a);
    LowFirst(s.b);
    LowFirst(s.c);
    LowFirst(s.d);
  }

  /** Four bytes as a number, the low one first. */
  function LowWord(s: seq<byte>, p: nat): nat
    requires p + 4 <= |s|
  {
    s[p] as int + s[p + 1] as int * 0x100 + s[p + 2] as int * 0x1_0000 + s[p + 3] as int * 0x100_0000
  }

  lemma LowFirst(v: uint32)
    ensures LowWord(Le32(v), 0) == v
  {
    Digits(v);
  }

  /** Under a compression that keeps the state, any message has the words RFC 1321 begins with,
      section 3.3, for its digest. */
  lemma {:induction false} InitialDigest(f: Compression, message: seq<byte>)
    requires forall s, block :: f(s, block) == s
    ensures Digest(f, message) == [0x01, 0x23, 0x45, 0x67, 0x89, 0xAB, 0xCD, 0xEF,
                                   0xFE, 0xDC, 0xBA, 0x98, 0x76, 0x54, 0x32, 0x10]
  {
    hide Fold, Padded, Output;
    FoldKept(f, INIT, Padded(message));
    InitialWords();
  }

  lemma InitialWords()
    ensures Output(INIT) == [0x01, 0x23, 0x45, 0x67, 0x89, 0xAB, 0xCD, 0xEF,
                             0xFE, 0xDC, 0xBA, 0x98, 0x76, 0x54, 0x32, 0x10]
  {
    assert Le32(INIT.a) == [0x01, 0x23, 0x45, 0x67] && Le32(INIT.b) == [0x89, 0xAB, 0xCD, 0xEF];
    assert Le32(INIT.c) == [0xFE, 0xDC, 0xBA, 0x98] && Le32(INIT.d) == [0x76, 0x54, 0x32, 0x10];
  }

  lemma {:induction false} FoldKept(f: Compression, s: State, message: seq<byte>)
    requires forall s, block :: f(s, block) == s
    ensures Fold(f, s, message) == s
    decreases |message|
  {
    if |message| >= 64 {
      FoldKept(f, s, message[64..]);
    }
  }

  /** A message of at most 55 bytes is one block: the message, 80, zeros, and the number of its bits,
      low byte first. */
  lemma {:induction false} ShortDigest(f: Compression, message: seq<byte>)
    requires |message| <= 55
    ensures var bits := 8 * |message|;
            var block := message + [0x80] + Zeros(55 - |message|) + [bits % 0x100, bits / 0x100, 0, 0, 0, 0, 0, 0];
            |block| == 64 &&
            Digest(f, message) == Output(f(State(0x6745_2301, 0xEFCD_AB89, 0x98BA_DCFE, 0x1032_5476), block))
  {
    hide Fold, Padded, Output;
    var block := Padded(message);
    ShortPadded(message);
    assert block[..64] == block && block[64..] == [];
    FoldBlock(f, INIT, block);
    FoldNone(f, f(INIT, block), []);
  }

  lemma ShortPadded(message: seq<byte>)
    requires |message| <= 55
    ensures var bits := 8 * |message|;
            |Padded(message)| == 64 && Padded(message) ==
            message + [0x80] + Zeros(55 - |message|) + [bits % 0x100, bits / 0x100, 0, 0, 0, 0, 0, 0]
  {
    hide Le32;
    var bits := 8 * |message|;
    assert bits % 0x1_0000_0000_0000_0000 == bits && bits % 0x1_0000_0000 == bits && bits / 0x1_0000_0000 == 0;
    ShortPad(|message|);
    ShortCount(bits);
    assert message + ([0x80] + Zeros(55 - |message|)) == message + [0x80] + Zeros(55 - |message|);
  }

  lemma ShortPad(n: nat)
    requires n <= 55
    ensures PadLength(n) == 56 - n
  {}

  lemma ShortCount(bits: nat)
    requires bits < 0x1_0000
    ensures Le32(bits) + Le32(0) == [bits % 0x100, bits / 0x100, 0, 0, 0, 0, 0, 0]
  {}

  /** The padding of any message: a one bit, zeros, and 64 bits that say how many bits there are, in
      two words with the low one first, each with its low byte first. */
  lemma PaddedOctets(message: seq<byte>)
    ensures var n, s := |message|, Padded(message);
            && n + 9 <= |s| <= n + 72 && s[..n] == message && s[n] == 0x80
            && (forall k :: n < k < |s| - 8 ==> s[k] == 0)
            && LowWord(s, |s| - 8) + LowWord(s, |s| - 4) * 0x1_0000_0000 == 8 * n % 0x1_0000_0000_0000_0000
  {
    var n := |message|;
    var bits := 8 * n % 0x1_0000_0000_0000_0000;
    var low, high := bits % 0x1_0000_0000, bits / 0x1_0000_0000;
    var front := message + ([0x80] + Zeros(PadLength(n) - 1));
    LowFirst(low);
    LowFirst(high);
    hide Le32;
    WordsBehind(front, Le32(low), Le32(high));
    assert Padded(message) == front + (Le32(low) + Le32(high));
    assert front[n] == 0x80;
  }

  lemma WordsBehind(front: seq<byte>, a: seq<byte>, b: seq<byte>)
    requires |a| == |b| == 4
    ensures var s := front + (a + b); LowWord(s, |s| - 8) == LowWord(a, 0) && LowWord(s, |s| - 4) == LowWord(b, 0)
  {}

  lemma PadFits(r: nat)
    requires r < 64
    ensures r + (1 + (119 - r) % 64) + 8 == if r < 56 then 64 else 128
  {}

  lemma WholeMod(q: nat, r: nat)
    ensures (64 * q + r) % 64 == r % 64
  {
    DivMod(r, 64);
    RemainderUnique(64 * q + r, 64, q + r / 64, r % 64);
  }

  /** The padding makes whole blocks, and it is the shortest that does. */
  lemma PaddedIsWhole(message: seq<byte>, k: nat)
    ensures |Padded(message)| % 64 == 0
    ensures 1 <= k && (|message| + k + 8) % 64 == 0 ==> PadLength(|message|) <= k
  {
    var q, r := |message| / 64, |message| % 64;
    PadFits(r);
    WholeMod(q, r + PadLength(|message|) + 8);
    WholeMod(q, r + k + 8);
  }

  // ---- The bit count in two words --------------------------------------------------------------------

  function Count(low: uint32, high: uint32): nat {
    low + high * 0x1_0000_0000
  }

  /** Adding the bits of `n` bytes, with the carry into the high word. */
  function AddedLow(low: uint32, n: nat): uint32 {
    Wrap32(low + Wrap32(8 * n))
  }

  function AddedHigh(low: uint32, high: uint32, n: nat): uint32 {
    Wrap32(high + (if AddedLow(low, n) < Wrap32(8 * n) then 1 else 0) + n / 0x2000_0000)
  }

  lemma CountAdds(low: uint32, high: uint32, n: nat, total: nat)
    requires n < 0x1_0000_0000 && Count(low, high) == total % 0x1_0000_0000_0000_0000
    ensures Count(AddedLow(low, n), AddedHigh(low, high, n)) == (total + 8 * n) % 0x1_0000_0000_0000_0000
  {
    hide Wrap32, Count;
    var top, rest := n / 0x2000_0000, Wrap32(8 * n);
    WrapOff(8 * n, top, 8 * n - top * 0x1_0000_0000);
    var carry := if low + rest >= 0x1_0000_0000 then 1 else 0;
    var sum := high + carry + top;
    var over := if sum >= 0x1_0000_0000 then 1 else 0;
    WrapOff(low + rest, carry, low + rest - carry * 0x1_0000_0000);
    WrapOff(sum, over, sum - over * 0x1_0000_0000);
    var low', high' := AddedLow(low, n), AddedHigh(low, high, n);
    assert low' == low + rest - carry * 0x1_0000_0000 && high' == sum - over * 0x1_0000_0000;
    CarriesCount(low, high, low', high', n, over, total);
  }

  lemma CarriesCount(low: uint32, high: uint32, low': uint32, high': uint32, n: nat, over: nat, total: nat)
    requires Count(low, high) == total % 0x1_0000_0000_0000_0000
    requires low' + (high' + over * 0x1_0000_0000) * 0x1_0000_0000 == low + high * 0x1_0000_0000 + 8 * n
    ensures Count(low', high') == (total + 8 * n) % 0x1_0000_0000_0000_0000
  {
    DivMod(total, 0x1_0000_0000_0000_0000);
    var q := total / 0x1_0000_0000_0000_0000;
    RemainderUnique(total + 8 * n, 0x1_0000_0000_0000_0000, q + over, Count(low', high'));
  }

  /** The low word says how much of the last block there is. */
  lemma CountIndex(low: uint32, high: uint32, n: nat)
    requires Count(low, high) == 8 * n % 0x1_0000_0000_0000_0000
    ensures low / 8 % 64 == n % 64
  {
    var q := 8 * n / 0x1_0000_0000_0000_0000;
    DivMod(8 * n, 0x1_0000_0000_0000_0000);
    IndexOf(low, high, n, q);
  }

  lemma IndexOf(low: uint32, high: uint32, n: nat, q: nat)
    requires 8 * n == q * 0x1_0000_0000_0000_0000 + high * 0x1_0000_0000 + low
    ensures low / 8 % 64 == n % 64
  {
    var bytes: nat := low / 8;
    DivMod(bytes, 64);
    RemainderUnique(n, 64, q * 0x80_0000_0000_0000 + high * 0x80_0000 + bytes / 64, bytes % 64);
  }

  // ---- The context -----------------------------------------------------------------------------------

  class Context {
    const compress: Compression
    var state: State
    var low: uint32
    var high: uint32
    var buffer: array<byte>
    /** The bytes taken in so far. */
    ghost var message: seq<byte>

    /** Full blocks are in the state, the rest is in the buffer, and the count is that of the bits. */
    ghost predicate Valid()
      reads this, buffer
    {
      && buffer.Length == 64
      && Count(low, high) == 8 * |message| % 0x1_0000_0000_0000_0000
      && Holds(compress, state, buffer[..], message)
    }

    /** `MD5_Init`. */
    constructor (compress: Compression)
      ensures Valid() && fresh(buffer) && message == [] && this.compress == compress
    {
      this.compress := compress;
      state, low, high := INIT, 0, 0;
      buffer := new byte[64];
      message := [];
    }

    /** `MD5_Update`. */
    method Update(input: seq<byte>)
      requires Valid() && |message| % 64 + |input| < 0x1_0000_0000
      modifies this`state, this`low, this`high, this`message, buffer
      ensures Valid() && message == old(message) + input
    {
      hide Holds;
      var index := low / 8 % 64;
      CountIndex(low, high, |message|);
      AddBits(|input|);
      Absorb(input, index);
      message := message + input;
    }

    /** The bits of `n` bytes more, with a carry into the high word. */
    method AddBits(n: uint32)
      requires Count(low, high) == 8 * |message| % 0x1_0000_0000_0000_0000
      modifies this`low, this`high
      ensures Count(low, high) == 8 * (|message| + n) % 0x1_0000_0000_0000_0000
    {
      hide Count, Wrap32;
      CountAdds(low, high, n, 8 * |message|);
      var added := Wrap32(8 * n);
      low := Wrap32(low + added);
      high := Wrap32(high + (if low < added then 1 else 0) + n / 0x2000_0000);
      assert 8 * |message| + 8 * n == 8 * (|message| + n);
    }

    /** Fills the buffer, takes in full blocks, and keeps the rest. */
    method Absorb(input: seq<byte>, index: nat)
      requires buffer.Length == 64 && Holds(compress, state, buffer[..], message)
      requires index == |message| % 64 && index + |input| < 0x1_0000_0000
      modifies this`state, buffer
      ensures Holds(compress, state, buffer[..], message + input)
    {
      hide Holds, Fold, Rest;
      var n := |input|;
      ghost var before := buffer[..];
      if n >= 64 - index {
        var end := CopyBytes(buffer, index, input[..64 - index]);
        assert buffer[..] == buffer[..end];
        state := compress(state, buffer[..]);
        var i := Blocks(input, 64 - index);
        end := CopyBytes(buffer, 0, input[i..]);
        HoldsBlocks(compress, old(state), before, message, input, state, buffer[..]);
      } else {
        var end := CopyBytes(buffer, index, input);
        assert buffer[..end] == before[..index] + input;
        HoldsLess(compress, state, before, message, input, buffer[..]);
      }
    }

    /** `MD5_Final`: the padding, the count saved before it, the digest; then everything is zeroed. */
    method Final() returns (digest: seq<byte>)
      requires Valid()
      modifies this`state, this`low, this`high, this`message, buffer
      ensures digest == Digest(compress, old(message))
      ensures state == State(0, 0, 0, 0) && low == high == 0 && buffer[..] == Zeros(64)
    {
      hide Holds, Fold;
      var bits := Le32(low) + Le32(high);
      CountWords(low, high, 8 * |message| % 0x1_0000_0000_0000_0000);
      var index := low / 8 % 64;
      CountIndex(low, high, |message|);
      var padLength := if index < 56 then 56 - index else 120 - index;
      PadLengthIs(|message|);
      PaddingPart(padLength);
      Update(PADDING[..padLength]);
      Update(bits);
      assert message == Padded(old(message));
      digest := Taken();
      state, low, high := State(0, 0, 0, 0), 0, 0;
      var _ := CopyBytes(buffer, 0, Zeros(64));
      assert buffer[..] == buffer[..64];
    }

    method Taken() returns (digest: seq<byte>)
      requires Valid()
      ensures digest == Output(Fold(compress, INIT, message))
    {
      digest := Le32(state.a) + Le32(state.b) + Le32(state.c) + Le32(state.d);
    }

    /** Takes in full blocks from index `from` on. The bound is computed on 32 bits. */
    method Blocks(input: seq<byte>, from: nat) returns (i: nat)
      requires 1 <= from <= 64 && from <= |input| < 0x1_0000_0000 - (64 - from)
      modifies this`state
      ensures from <= i <= |input| && input[i..] == Rest(input[from..])
      ensures state == Fold(compress, old(state), input[from..])
    {
      hide Fold, Rest;
      i := from;
      ghost var blocks: nat := 0;
      BoundFits(from, blocks, |input|);
      while Wrap32(i + 63) < |input|
        invariant from <= i <= |input| && i - from == blocks * 64 + 0 && Wrap32(i + 63) == i + 63
        invariant Fold(compress, old(state), input[from..]) == Fold(compress, state, input[i..])
      {
        FoldBlock(compress, state, input[i..]);
        assert input[i..][..64] == input[i..i + 64] && input[i..][64..] == input[i + 64..];
        state := compress(state, input[i..i + 64]);
        i, blocks := i + 64, blocks + 1;
        BoundFits(from, blocks, |input|);
      }
      RemainderUnique(i - from, 64, blocks, 0);
      FoldNone(compress, state, input[i..]);
      RestBehind(input[from..i], input[i..]);
      RestOfShort(input[i..]);
      assert input[from..i] + input[i..] == input[from..];
    }
  }

  /** A block end inside the input leaves room for the bound. */
  lemma BoundFits(from: nat, blocks: nat, n: nat)
    requires 1 <= from <= 64 && from + blocks * 64 <= n < 0x1_0000_0000 - (64 - from)
    ensures Wrap32(from + blocks * 64 + 63) == from + blocks * 64 + 63
  {
    assert blocks + 1 < 0x400_0000;
    WrapSmall(from + blocks * 64 + 63);
  }

  /** With `index` bytes buffered and `n` more, the bound stops the loop at the last block end exactly if
      they are fewer than 2^32 together; otherwise it has wrapped around, and the loop goes on. */
  lemma BoundStopsIff(index: nat, n: nat)
    requires index < 64 && 64 - index <= n < 0x1_0000_0000
    ensures var last := n - (index + n) % 64;
            0 <= last && !(Wrap32(last + 63) < n) <==> index + n < 0x1_0000_0000
  {
    hide Wrap32;
    var k, r := (index + n) / 64, (index + n) % 64;
    var last := n - r;
    assert last == 64 * k - index && 0 <= last;
    if index + n < 0x1_0000_0000 {
      assert k < 0x400_0000;
      WrapSmall(last + 63);
    } else {
      assert k >= 0x400_0000;
      WrapOff(last + 63, 1, last + 63 - 0x1_0000_0000);
    }
  }

  const PADDING: seq<byte> := [0x80] + Zeros(63)

  lemma PaddingPart(k: nat)
    requires 1 <= k <= 64
    ensures PADDING[..k] == [0x80] + Zeros(k - 1)
  {}

  lemma PadLengthIs(n: nat)
    ensures PadLength(n) == if n % 64 < 56 then 56 - n % 64 else 120 - n % 64
  {}

  lemma CountWords(low: uint32, high: uint32, bits: nat)
    requires Count(low, high) == bits
    ensures low == bits % 0x1_0000_0000 && high == bits / 0x1_0000_0000
  {}

  /** Any way of cutting a message into pieces gives the digest of the whole message. */
  method Hash(compress: Compression, pieces: seq<seq<byte>>) returns (digest: seq<byte>)
    requires forall i :: 0 <= i < |pieces| ==> |Joined(pieces[..i])| % 64 + |pieces[i]| < 0x1_0000_0000
    ensures digest == Digest(compress, Joined(pieces))
    ensures (forall s, block :: compress(s, block) == s) ==>
              digest == [0x01, 0x23, 0x45, 0x67, 0x89, 0xAB, 0xCD, 0xEF, 0xFE, 0xDC, 0xBA, 0x98, 0x76, 0x54, 0x32, 0x10]
  {
    hide Digest;
    var context := new Context(compress);
    var i := 0;
    while i < |pieces|
      invariant 0 <= i <= |pieces| && context.Valid() && context.compress == compress
      invariant fresh(context) && fresh(context.buffer)
      invariant context.message == Joined(pieces[..i])
    {
      context.Update(pieces[i]);
      assert pieces[..i + 1][..i] == pieces[..i];
      i := i + 1;
    }
    assert pieces[..i] == pieces;
    digest := context.Final();
    KeptDigest(compress, Joined(pieces));
  }

  lemma {:induction false} KeptDigest(f: Compression, message: seq<byte>)
    ensures (forall s, block :: f(s, block) == s) ==>
              Digest(f, message) == [0x01, 0x23, 0x45, 0x67, 0x89, 0xAB, 0xCD, 0xEF,
                                     0xFE, 0xDC, 0xBA, 0x98, 0x76, 0x54, 0x32, 0x10]
  {
    hide Digest;
    if forall s, block :: f(s, block) == s {
      InitialDigest(f, message);
    }
  }

  function Joined(pieces: seq<seq<byte>>): seq<byte> {
    if pieces == [] then [] else Joined(pieces[..|pieces| - 1]) + pieces[|pieces| - 1]
  }

  /** A context that has taken in a message. */
  ghost predicate Holds(f: Compression, s: State, buffer: seq<byte>, message: seq<byte>) {
    |buffer| == 64 && s == Fold(f, INIT, message) && buffer[..|Rest(message)|] == Rest(message)
  }

  /** The bytes behind the last full block. */
  function Rest(message: seq<byte>): (r: seq<byte>)
    ensures |r| == |message| % 64 < 64
  {
    message[|message| - |message| % 64..]
  }

  /** A message is whole blocks and a rest. */
  lemma MessageParts(message: seq<byte>) returns (whole: seq<byte>)
    ensures message == whole + Rest(message) && |whole| % 64 == 0
  {
    var n, r := |message|, |message| % 64;
    whole := message[..n - r];
    DivMod(n, 64);
    RemainderUnique(n - r, 64, n / 64, 0);
  }

  lemma RestBehind(whole: seq<byte>, more: seq<byte>)
    requires |whole| % 64 == 0
    ensures Rest(whole + more) == Rest(more)
  {
    DivMod(|whole|, 64);
    WholeMod(|whole| / 64, |more|);
  }

  lemma RestOfShort(t: seq<byte>)
    requires |t| < 64
    ensures Rest(t) == t
  {}

  lemma HoldsLess(f: Compression, s: State, buffer: seq<byte>, message: seq<byte>, input: seq<byte>, buffer': seq<byte>)
    requires Holds(f, s, buffer, message) && |Rest(message)| + |input| < 64 && |buffer'| == 64
    requires var r := |Rest(message)|; buffer'[..r + |input|] == buffer[..r] + input
    ensures Holds(f, s, buffer', message + input)
  {
    hide Fold, Rest;
    var whole := MessageParts(message);
    var rest := Rest(message);
    assert message + input == whole + (rest + input);
    RestBehind(whole, rest + input);
    RestOfShort(rest + input);
    FoldTail(f, INIT, whole, rest);
    FoldTail(f, INIT, whole, rest + input);
  }

  lemma HoldsBlocks(f: Compression, s: State, buffer: seq<byte>, message: seq<byte>, input: seq<byte>, s': State,
                    buffer': seq<byte>)
    requires Holds(f, s, buffer, message) && |Rest(message)| + |input| >= 64 && |buffer'| == 64
    requires var r := |Rest(message)|; var y := input[64 - r..];
             s' == Fold(f, f(s, buffer[..r] + input[..64 - r]), y) && buffer'[..|Rest(y)|] == Rest(y)
    ensures Holds(f, s', buffer', message + input)
  {
    hide Fold, Rest;
    var whole := MessageParts(message);
    var rest := Rest(message);
    var block, y := rest + input[..64 - |rest|], input[64 - |rest|..];
    assert message + input == whole + (block + y);
    FoldTail(f, INIT, whole, rest);
    FoldAppend(f, INIT, whole, block + y);
    FoldOne(f, s, block, y);
    RestBehind(whole, block + y);
    RestBehind(block, y);
  }

  lemma {:induction false} FoldOne(f: Compression, s: State, block: seq<byte>, y: seq<byte>)
    requires |block| == 64
    ensures Fold(f, s, block + y) == Fold(f, f(s, block), y)
  {
    assert (block + y)[..64] == block && (block + y)[64..] == y;
  }
}
