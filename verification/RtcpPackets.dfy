/** The packets a sender builds (`rtcp.h`, `rtcp_enc.cpp`), the bytes they are written as, and the
    items a reader should get from them. */
module RtcpPackets {
  import opened Bytes
  import opened Rtcp
  import opened Sequences
  import Numbers
  import Remb

  const MAX_REPORT_BLOCKS := 31
  const MAX_CHUNKS := 31
  const MAX_CSRCS := 30
  const MAX_SSRCS := 255

  /** `nullOctets` ends the item list and fills it up to a 32-bit boundary. */
  datatype Chunk = Chunk(ssrc: uint32, name: seq<byte>, nullOctets: nat)

  datatype Body =
    | Empty
    | SenderReport(ssrc: uint32, info: SenderInfo, blocks: seq<ReportBlock>)
    | ReceiverReport(ssrc: uint32, blocks: seq<ReportBlock>)
    | Sdes(chunks: seq<Chunk>)
    | Bye(ssrc: uint32, csrcs: seq<uint32>)
    | App(ssrc: uint32, subType: nat, tag: uint32, data: seq<byte>)
    | Nack(sender: uint32, media: uint32, fields: seq<NackField>)
    | Remb(sender: uint32, bitRate: uint32, ssrcs: seq<uint32>)

  /** What the setters keep. */
  predicate Sound(b: Body) {
    match b
    case Empty => true
    case SenderReport(_, _, blocks) => |blocks| <= MAX_REPORT_BLOCKS
    case ReceiverReport(_, blocks) => |blocks| <= MAX_REPORT_BLOCKS
    case Sdes(chunks) => |chunks| <= MAX_CHUNKS && forall i :: 0 <= i < |chunks| ==> SoundChunk(chunks[i])
    case Bye(_, csrcs) => |csrcs| <= MAX_CSRCS
    case App(_, subType, _, data) => subType <= 31 && |data| <= APP_DATA_SIZE && |data| % 4 == 0
    case Nack(_, _, fields) => true
    case Remb(_, _, ssrcs) => |ssrcs| <= MAX_SSRCS
  }

  predicate SoundChunk(c: Chunk) {
    |c.name| <= 0xFF && c.nullOctets == 4 - (2 + |c.name|) % 4
  }

  /** What `Create` asserts of a packet. */
  predicate Buildable(b: Body) {
    Sound(b) && (b.Sdes? ==> b.chunks != []) && (b.Nack? ==> b.fields != [])
  }

  function BlockLength(b: Body): nat {
    match b
    case Empty => 0
    case SenderReport(_, _, blocks) => 28 + 24 * |blocks|
    case ReceiverReport(_, blocks) => 8 + 24 * |blocks|
    case Sdes(chunks) => 4 + ChunkLengths(chunks)
    case Bye(_, csrcs) => 4 + 4 * (1 + |csrcs|)
    case App(_, _, _, data) => 12 + |data|
    case Nack(_, _, fields) => 12 + 4 * |fields|
    case Remb(_, _, ssrcs) => (|ssrcs| + 5) * 4
  }

  function ChunkLengths(chunks: seq<Chunk>): nat {
    if chunks == [] then 0 else ChunkSize(chunks[0]) + ChunkLengths(chunks[1..])
  }

  function ChunkSize(c: Chunk): nat {
    6 + |c.name| + c.nullOctets
  }

  // ---- Bytes on the wire ---------------------------------------------------------------------

  function HeaderBytes(count: int, kind: byte, words: int): (s: seq<byte>)
    ensures |s| == 4
  {
    [(0x80 + count) % 0x100, kind] + Be16(words % 0x1_0000)
  }

  function InfoBytes(i: SenderInfo): (s: seq<byte>)
    ensures |s| == 20
  {
    Be32(i.ntpSec) + Be32(i.ntpFrac) + Be32(i.rtpTimestamp) + Be32(i.packetCount) + Be32(i.octetCount)
  }

  function ReportBytes(b: ReportBlock): (s: seq<byte>)
    ensures |s| == 24
  {
    Be32(b.ssrc) + ([b.fractionLost] + (Be24(b.cumulativeLost) +
    (Be32(b.highestSeq) + Be32(b.jitter) + Be32(b.lastSr) + Be32(b.delayLastSr))))
  }

  function ChunkBytes(c: Chunk): (s: seq<byte>)
    ensures |s| == ChunkSize(c)
  {
    Be32(c.ssrc) + ([1, |c.name| % 0x100] + (c.name + Zeros(c.nullOctets)))
  }

  function FieldBytes(f: NackField): (s: seq<byte>)
    ensures |s| == 4
  {
    Be16(f.pid) + Be16(f.blp)
  }

  /** Six bits of exponent and 18 of mantissa. */
  function RateBytes(mantissa: uint32, exponent: nat): (s: seq<byte>)
    ensures |s| == 3
  {
    [(exponent * 4 + mantissa / 0x1_0000 % 4) % 0x100, mantissa / 0x100 % 0x100, mantissa % 0x100]
  }

  function RembItemBytes(ssrcs: seq<uint32>, mantissa: uint32, exponent: nat): seq<byte> {
    [|ssrcs| % 0x100] + (RateBytes(mantissa, exponent) + Concat(Be32, ssrcs))
  }

  /** `BlockToHeaderLength`: in words, less one. */
  function HeaderLength(b: Body): int {
    BlockLength(b) / 4 - 1
  }

  function Encode(b: Body): seq<byte> {
    var words := HeaderLength(b);
    match b
    case Empty => []
    case SenderReport(ssrc, info, blocks) =>
      HeaderBytes(|blocks|, PT_SR, words) + (Be32(ssrc) + (InfoBytes(info) + Concat(ReportBytes, blocks)))
    case ReceiverReport(ssrc, blocks) =>
      HeaderBytes(|blocks|, PT_RR, words) + (Be32(ssrc) + Concat(ReportBytes, blocks))
    case Sdes(chunks) =>
      HeaderBytes(|chunks|, PT_SDES, words) + Concat(ChunkBytes, chunks)
    case Bye(ssrc, csrcs) =>
      HeaderBytes(words, PT_BYE, words) + (Be32(ssrc) + Concat(Be32, csrcs))
    case App(ssrc, subType, tag, data) =>
      HeaderBytes(subType, PT_APP, words) + (Be32(ssrc) + (Be32(tag) + data))
    case Nack(sender, media, fields) =>
      HeaderBytes(1, PT_RTPFB, words) + (Be32(sender) + (Be32(media) + Concat(FieldBytes, fields)))
    case Remb(sender, bitRate, ssrcs) =>
      HeaderBytes(15, PT_PSFB, words) + (Be32(sender) + (Be32(0) +
      (REMB_TAG + RembItemBytes(ssrcs, Remb.Mantissa(bitRate), Remb.Exponent(bitRate)))))
  }

  lemma {:induction false} ChunksLength(chunks: seq<Chunk>)
    ensures |Concat(ChunkBytes, chunks)| == ChunkLengths(chunks)
  {
    if chunks != [] { ChunksLength(chunks[1..]); }
  }

  lemma {:induction false} ChunksWhole(chunks: seq<Chunk>)
    requires forall i :: 0 <= i < |chunks| ==> SoundChunk(chunks[i])
    ensures ChunkLengths(chunks) % 4 == 0
  {
    if chunks != [] {
      assert SoundChunk(chunks[0]);
      ChunksWhole(chunks[1..]);
    }
  }

  /** A packet is written as exactly `BlockLength` bytes. */
  lemma EncodeLength(b: Body)
    ensures |Encode(b)| == BlockLength(b)
  {
    match b
    case Empty =>
    case SenderReport(_, _, blocks) => ConcatLength(ReportBytes, blocks, 24);
    case ReceiverReport(_, blocks) => ConcatLength(ReportBytes, blocks, 24);
    case Sdes(chunks) => ChunksLength(chunks);
    case Bye(_, csrcs) => ConcatLength(Be32, csrcs, 4);
    case App(_, _, _, data) =>
    case Nack(_, _, fields) => ConcatLength(FieldBytes, fields, 4);
    case Remb(_, _, ssrcs) => ConcatLength(Be32, ssrcs, 4);
  }

  /** It takes a whole number of words, as the header says it. */
  lemma WholeWords(b: Body)
    requires Sound(b)
    ensures BlockLength(b) % 4 == 0 && (!b.Empty? ==> BlockLength(b) >= 4)
  {
    if b.Sdes? { ChunksWhole(b.chunks); }
    var words: nat := match b
      case Empty => 0
      case SenderReport(_, _, blocks) => 7 + 6 * |blocks|
      case ReceiverReport(_, blocks) => 2 + 6 * |blocks|
      case Sdes(chunks) => 1 + ChunkLengths(chunks) / 4
      case Bye(_, csrcs) => 2 + |csrcs|
      case App(_, _, _, data) => 3 + |data| / 4
      case Nack(_, _, fields) => 3 + |fields|
      case Remb(_, _, ssrcs) => |ssrcs| + 5;
    assert BlockLength(b) == words * 4 + 0;
    Numbers.RemainderUnique(BlockLength(b), 4, words, 0);
  }

  // ---- Compound packets --------------------------------------------------------------------------

  /** The bytes of packets written one after the other. */
  function EncodeAll(bs: seq<Body>): seq<byte> {
    Concat(Encode, bs)
  }

  /** Those of the packets that find room, when each is written only if it fits behind the ones
      written before it. */
  function Fitting(bs: seq<Body>, used: nat, max: nat): seq<Body> {
    if bs == [] then []
    else if used + BlockLength(bs[0]) > max then Fitting(bs[1..], used, max)
    else [bs[0]] + Fitting(bs[1..], used + BlockLength(bs[0]), max)
  }

  /** What is written stays inside the room there is. */
  lemma {:induction false} FittingFits(bs: seq<Body>, used: nat, max: nat)
    requires used <= max
    ensures used + |EncodeAll(Fitting(bs, used, max))| <= max
  {
    if bs != [] {
      if used + BlockLength(bs[0]) > max {
        FittingFits(bs[1..], used, max);
      } else {
        EncodeLength(bs[0]);
        FittingFits(bs[1..], used + BlockLength(bs[0]), max);
      }
    }
  }

  /** Packets that all fit are all written. */
  lemma {:induction false} AllFit(bs: seq<Body>, used: nat, max: nat)
    requires used + |EncodeAll(bs)| <= max
    ensures Fitting(bs, used, max) == bs
  {
    if bs != [] {
      EncodeLength(bs[0]);
      AllFit(bs[1..], used + BlockLength(bs[0]), max);
    }
  }

  /** Only packets given are written, and none longer than the room there is. */
  lemma {:induction false} FittingAmong(bs: seq<Body>, used: nat, max: nat)
    ensures forall b :: b in Fitting(bs, used, max) ==> b in bs && BlockLength(b) <= max
  {
    if bs != [] {
      FittingAmong(bs[1..], used, max);
      FittingAmong(bs[1..], used + BlockLength(bs[0]), max);
    }
  }

  lemma EncodeAllNone()
    ensures EncodeAll([]) == []
  {
  }

  lemma EncodeAllOne(b: Body, bs: seq<Body>)
    ensures |EncodeAll([b] + bs)| == BlockLength(b) + |EncodeAll(bs)|
  {
    EncodeLength(b);
    assert ([b] + bs)[1..] == bs;
  }

  lemma {:induction false} FittingAppend(a: seq<Body>, b: seq<Body>, used: nat, max: nat)
    ensures Fitting(a + b, used, max) ==
            Fitting(a, used, max) + Fitting(b, used + |EncodeAll(Fitting(a, used, max))|, max)
  {
    hide BlockLength, EncodeAll;
    if a == [] {
      assert a + b == b;
      EncodeAllNone();
    } else {
      assert (a + b)[1..] == a[1..] + b;
      if used + BlockLength(a[0]) > max {
        FittingAppend(a[1..], b, used, max);
      } else {
        var used' := used + BlockLength(a[0]);
        FittingAppend(a[1..], b, used', max);
        var x := Fitting(a[1..], used', max);
        EncodeAllOne(a[0], x);
        Assoc([a[0]], x, Fitting(b, used' + |EncodeAll(x)|, max));
      }
    }
  }

  /** The bytes written for packets, when each is written only if it finds room. */
  function Written(bs: seq<Body>, used: nat, max: nat): seq<byte> {
    EncodeAll(Fitting(bs, used, max))
  }

  /** Writing on: what is written for more packets stands behind what is written already. */
  lemma WrittenAppend(a: seq<Body>, b: seq<Body>, used: nat, max: nat)
    ensures Written(a + b, used, max) == Written(a, used, max) + Written(b, used + |Written(a, used, max)|, max)
  {
    FittingAppend(a, b, used, max);
    ConcatAppend(Encode, Fitting(a, used, max), Fitting(b, used + |Written(a, used, max)|, max));
  }

  lemma WrittenOne(b: Body, used: nat, max: nat)
    ensures Written([b], used, max) == if used + BlockLength(b) <= max then Encode(b) else []
  {
    if used + BlockLength(b) <= max {
      assert Fitting([b], used, max) == [b];
      assert EncodeAll([b]) == Encode(b) + EncodeAll([]);
    } else {
      assert Fitting([b], used, max) == [];
    }
  }
}
