/** `rtcp_enc.cpp`: writing packets into a buffer through a moving position, and the packet objects
    (`rtcp.h`) that are built up by setters and appended to one another. */
module RtcpWriter {
  import opened Bytes
  import opened Rtcp
  import opened RtcpOctets
  import opened RtcpPackets
  import opened Sequences
  import NackList
  import Remb

  const IP_PACKET_SIZE := 1500

  // ---- Integers ------------------------------------------------------------------------------------

  method AssignUWord8(buffer: array<byte>, pos: nat, value: byte) returns (end: nat)
    requires pos + 1 <= buffer.Length
    modifies buffer
    ensures end == pos + 1 && buffer[..end] == old(buffer[..pos]) + [value]
  {
    buffer[pos] := value;
    end := pos + 1;
  }

  method AssignUWord16(buffer: array<byte>, pos: nat, value: uint16) returns (end: nat)
    requires pos + 2 <= buffer.Length
    modifies buffer
    ensures end == pos + 2 && buffer[..end] == old(buffer[..pos]) + Be16(value)
  {
    buffer[pos] := value / 0x100;
    buffer[pos + 1] := value % 0x100;
    end := pos + 2;
  }

  method AssignUWord24(buffer: array<byte>, pos: nat, value: uint32) returns (end: nat)
    requires pos + 3 <= buffer.Length
    modifies buffer
    ensures end == pos + 3 && buffer[..end] == old(buffer[..pos]) + Be24(value)
  {
    buffer[pos] := value / 0x1_0000 % 0x100;
    buffer[pos + 1] := value / 0x100 % 0x100;
    buffer[pos + 2] := value % 0x100;
    end := pos + 3;
  }

  method AssignUWord32(buffer: array<byte>, pos: nat, value: uint32) returns (end: nat)
    requires pos + 4 <= buffer.Length
    modifies buffer
    ensures end == pos + 4 && buffer[..end] == old(buffer[..pos]) + Be32(value)
  {
    buffer[pos] := value / 0x100_0000;
    buffer[pos + 1] := value / 0x1_0000 % 0x100;
    buffer[pos + 2] := value / 0x100 % 0x100;
    buffer[pos + 3] := value % 0x100;
    end := pos + 4;
  }

  // ---- Packets -------------------------------------------------------------------------------------

  /** The version, 2, in the top bits; `count` is a byte, too. */
  method CreateHeader(count: nat, kind: byte, words: nat, buffer: array<byte>, pos: nat) returns (end: nat)
    requires words <= 0xFFFF && pos + 4 <= buffer.Length
    modifies buffer
    ensures end == pos + 4 && buffer[..end] == old(buffer[..pos]) + HeaderBytes(count, kind, words)
  {
    end := AssignUWord8(buffer, pos, (0x80 + count) % 0x100);
    end := AssignUWord8(buffer, end, kind);
    end := AssignUWord16(buffer, end, words);
  }

  method CreateReportBlocks(blocks: seq<ReportBlock>, buffer: array<byte>, pos: nat) returns (end: nat)
    requires pos + 24 * |blocks| <= buffer.Length
    modifies buffer
    ensures end == pos + 24 * |blocks| && buffer[..end] == old(buffer[..pos]) + Concat(ReportBytes, blocks)
  {
    hide ReportBytes;
    end := pos;
    var i := 0;
    while i < |blocks|
      invariant 0 <= i <= |blocks| && end == pos + 24 * i
      invariant buffer[..end] == old(buffer[..pos]) + Concat(ReportBytes, blocks[..i])
    {
      end := CreateReportBlock(blocks[i], buffer, end);
      ConcatStep(ReportBytes, blocks, i);
      i := i + 1;
    }
    assert blocks[..i] == blocks;
  }

  method CreateReportBlock(b: ReportBlock, buffer: array<byte>, pos: nat) returns (end: nat)
    requires pos + 24 <= buffer.Length
    modifies buffer
    ensures end == pos + 24 && buffer[..end] == old(buffer[..pos]) + ReportBytes(b)
  {
    end := AssignUWord32(buffer, pos, b.ssrc);
    end := AssignUWord8(buffer, end, b.fractionLost);
    end := AssignUWord24(buffer, end, b.cumulativeLost);
    end := AssignUWord32(buffer, end, b.highestSeq);
    end := AssignUWord32(buffer, end, b.jitter);
    end := AssignUWord32(buffer, end, b.lastSr);
    end := AssignUWord32(buffer, end, b.delayLastSr);
  }

  method AssignWords(words: seq<uint32>, buffer: array<byte>, pos: nat) returns (end: nat)
    requires pos + 4 * |words| <= buffer.Length
    modifies buffer
    ensures end == pos + 4 * |words| && buffer[..end] == old(buffer[..pos]) + Concat(Be32, words)
  {
    end := pos;
    var i := 0;
    while i < |words|
      invariant 0 <= i <= |words| && end == pos + 4 * i
      invariant buffer[..end] == old(buffer[..pos]) + Concat(Be32, words[..i])
    {
      end := AssignUWord32(buffer, end, words[i]);
      ConcatStep(Be32, words, i);
      i := i + 1;
    }
    assert words[..i] == words;
  }

  method CreateSenderReport(ssrc: uint32, info: SenderInfo, count: nat, words: nat, buffer: array<byte>, pos: nat)
    returns (end: nat)
    requires words <= 0xFFFF && pos + 28 <= buffer.Length
    modifies buffer
    ensures end == pos + 28
    ensures buffer[..end] == old(buffer[..pos]) + (HeaderBytes(count, PT_SR, words) + (Be32(ssrc) + InfoBytes(info)))
  {
    end := CreateHeader(count, PT_SR, words, buffer, pos);
    end := AssignUWord32(buffer, end, ssrc);
    end := AssignUWord32(buffer, end, info.ntpSec);
    end := AssignUWord32(buffer, end, info.ntpFrac);
    end := AssignUWord32(buffer, end, info.rtpTimestamp);
    end := AssignUWord32(buffer, end, info.packetCount);
    end := AssignUWord32(buffer, end, info.octetCount);
  }

  method CreateReceiverReport(ssrc: uint32, count: nat, words: nat, buffer: array<byte>, pos: nat) returns (end: nat)
    requires words <= 0xFFFF && pos + 8 <= buffer.Length
    modifies buffer
    ensures end == pos + 8
    ensures buffer[..end] == old(buffer[..pos]) + (HeaderBytes(count, PT_RR, words) + Be32(ssrc))
  {
    end := CreateHeader(count, PT_RR, words, buffer, pos);
    end := AssignUWord32(buffer, end, ssrc);
  }

  method CreateChunk(c: Chunk, buffer: array<byte>, pos: nat) returns (end: nat)
    requires pos + ChunkSize(c) <= buffer.Length
    modifies buffer
    ensures end == pos + ChunkSize(c) && buffer[..end] == old(buffer[..pos]) + ChunkBytes(c)
  {
    end := AssignUWord32(buffer, pos, c.ssrc);
    end := AssignUWord8(buffer, end, 1);
    end := AssignUWord8(buffer, end, |c.name| % 0x100);
    end := CopyBytes(buffer, end, c.name);
    end := CopyBytes(buffer, end, Zeros(c.nullOctets));
  }

  lemma NoChunks()
    ensures ChunkLengths([]) == 0
  {
  }

  lemma ChunkLengthsStep(chunks: seq<Chunk>, i: nat)
    requires i < |chunks|
    ensures ChunkLengths(chunks[i..]) == ChunkSize(chunks[i]) + ChunkLengths(chunks[i + 1..])
  {
    assert chunks[i..][1..] == chunks[i + 1..];
  }

  method CreateChunks(chunks: seq<Chunk>, buffer: array<byte>, pos: nat) returns (end: nat)
    requires pos + ChunkLengths(chunks) <= buffer.Length
    modifies buffer
    ensures end == pos + ChunkLengths(chunks) && buffer[..end] == old(buffer[..pos]) + Concat(ChunkBytes, chunks)
  {
    hide ChunkBytes, ChunkSize, ChunkLengths;
    NoChunks();
    end := pos;
    var i := 0;
    assert chunks[0..] == chunks && chunks[|chunks|..] == [];
    while i < |chunks|
      invariant 0 <= i <= |chunks| && pos <= end
      invariant end + ChunkLengths(chunks[i..]) == pos + ChunkLengths(chunks)
      invariant buffer[..end] == old(buffer[..pos]) + Concat(ChunkBytes, chunks[..i])
    {
      ChunkLengthsStep(chunks, i);
      end := CreateChunk(chunks[i], buffer, end);
      ConcatStep(ChunkBytes, chunks, i);
      i := i + 1;
    }
    assert chunks[..i] == chunks;
  }

  method CreateSdes(chunks: seq<Chunk>, words: nat, buffer: array<byte>, pos: nat) returns (end: nat)
    requires words <= 0xFFFF && pos + 4 + ChunkLengths(chunks) <= buffer.Length
    modifies buffer
    ensures end == pos + 4 + ChunkLengths(chunks)
    ensures buffer[..end] == old(buffer[..pos]) + (HeaderBytes(|chunks|, PT_SDES, words) + Concat(ChunkBytes, chunks))
  {
    end := CreateHeader(|chunks|, PT_SDES, words, buffer, pos);
    end := CreateChunks(chunks, buffer, end);
  }

  /** The count is the length in words: one source, and one more for each CSRC. */
  method CreateBye(ssrc: uint32, csrcs: seq<uint32>, words: nat, buffer: array<byte>, pos: nat) returns (end: nat)
    requires words <= 0xFFFF && pos + 8 + 4 * |csrcs| <= buffer.Length
    modifies buffer
    ensures end == pos + 8 + 4 * |csrcs|
    ensures buffer[..end] ==
            old(buffer[..pos]) + (HeaderBytes(words, PT_BYE, words) + (Be32(ssrc) + Concat(Be32, csrcs)))
  {
    end := CreateHeader(words, PT_BYE, words, buffer, pos);
    end := AssignUWord32(buffer, end, ssrc);
    end := AssignWords(csrcs, buffer, end);
  }

  method CreateApp(ssrc: uint32, subType: nat, tag: uint32, part: seq<byte>, words: nat, buffer: array<byte>, pos: nat)
    returns (end: nat)
    requires words <= 0xFFFF && pos + 12 + |part| <= buffer.Length
    modifies buffer
    ensures end == pos + 12 + |part|
    ensures buffer[..end] ==
            old(buffer[..pos]) + (HeaderBytes(subType, PT_APP, words) + (Be32(ssrc) + (Be32(tag) + part)))
  {
    end := CreateHeader(subType, PT_APP, words, buffer, pos);
    end := AssignUWord32(buffer, end, ssrc);
    end := AssignUWord32(buffer, end, tag);
    end := CopyBytes(buffer, end, part);
  }

  /** What is written behind a nested part belongs to its innermost end. */
  lemma InPlace(a: seq<byte>, h: seq<byte>, s: seq<byte>, i: seq<byte>, b: seq<byte>)
    ensures (a + (h + (s + i))) + b == a + (h + (s + (i + b)))
  {
    Assoc(a, h + (s + i), b);
    Assoc(h, s + i, b);
    Assoc(s, i, b);
  }

  method CreateNack(sender: uint32, media: uint32, fields: seq<NackField>, words: nat, buffer: array<byte>, pos: nat)
    returns (end: nat)
    requires words <= 0xFFFF && pos + 12 + 4 * |fields| <= buffer.Length
    modifies buffer
    ensures end == pos + 12 + 4 * |fields|
    ensures buffer[..end] == old(buffer[..pos]) +
      (HeaderBytes(1, PT_RTPFB, words) + (Be32(sender) + (Be32(media) + Concat(FieldBytes, fields))))
  {
    hide Be32, HeaderBytes, Concat;
    ghost var before := buffer[..pos];
    end := CreateHeader(1, PT_RTPFB, words, buffer, pos);
    end := AssignUWord32(buffer, end, sender);
    end := AssignUWord32(buffer, end, media);
    end := CreateFields(fields, buffer, end);
    AssocFour(before, HeaderBytes(1, PT_RTPFB, words), Be32(sender), Be32(media));
    InPlace(before, HeaderBytes(1, PT_RTPFB, words), Be32(sender), Be32(media), Concat(FieldBytes, fields));
  }

  method CreateField(f: NackField, buffer: array<byte>, pos: nat) returns (end: nat)
    requires pos + 4 <= buffer.Length
    modifies buffer
    ensures end == pos + 4 && buffer[..end] == old(buffer[..pos]) + FieldBytes(f)
  {
    end := AssignUWord16(buffer, pos, f.pid);
    end := AssignUWord16(buffer, end, f.blp);
  }

  method CreateFields(fields: seq<NackField>, buffer: array<byte>, pos: nat) returns (end: nat)
    requires pos + 4 * |fields| <= buffer.Length
    modifies buffer
    ensures end == pos + 4 * |fields| && buffer[..end] == old(buffer[..pos]) + Concat(FieldBytes, fields)
  {
    hide FieldBytes;
    end := pos;
    var i := 0;
    while i < |fields|
      invariant 0 <= i <= |fields| && end == pos + 4 * i
      invariant buffer[..end] == old(buffer[..pos]) + Concat(FieldBytes, fields[..i])
    {
      end := CreateField(fields[i], buffer, end);
      ConcatStep(FieldBytes, fields, i);
      i := i + 1;
    }
    assert fields[..i] == fields;
  }

  method CreateRembItem(bitRate: uint32, ssrcs: seq<uint32>, buffer: array<byte>, pos: nat) returns (end: nat)
    requires |ssrcs| <= MAX_SSRCS && pos + 4 + 4 * |ssrcs| <= buffer.Length
    modifies buffer
    ensures end == pos + 4 + 4 * |ssrcs|
    ensures buffer[..end] == old(buffer[..pos]) + RembItemBytes(ssrcs, Remb.Mantissa(bitRate), Remb.Exponent(bitRate))
  {
    hide Be32, Concat;
    var mantissa, exponent := Remb.Compute(bitRate);
    end := AssignUWord8(buffer, pos, |ssrcs|);
    end := AssignUWord8(buffer, end, (exponent * 4 + mantissa / 0x1_0000 % 4) % 0x100);
    end := AssignUWord8(buffer, end, mantissa / 0x100 % 0x100);
    end := AssignUWord8(buffer, end, mantissa % 0x100);
    ghost var before := buffer[..end];
    assert before == old(buffer[..pos]) + ([|ssrcs| % 0x100] + RateBytes(mantissa, exponent));
    end := AssignWords(ssrcs, buffer, end);
  }

  method CreateRemb(sender: uint32, bitRate: uint32, ssrcs: seq<uint32>, words: nat, buffer: array<byte>, pos: nat)
    returns (end: nat)
    requires |ssrcs| <= MAX_SSRCS && words <= 0xFFFF && pos + 20 + 4 * |ssrcs| <= buffer.Length
    modifies buffer
    ensures end == pos + 20 + 4 * |ssrcs|
    ensures buffer[..end] == old(buffer[..pos]) +
      (HeaderBytes(15, PT_PSFB, words) + (Be32(sender) + (Be32(0) +
      (REMB_TAG + RembItemBytes(ssrcs, Remb.Mantissa(bitRate), Remb.Exponent(bitRate))))))
  {
    end := CreateHeader(15, PT_PSFB, words, buffer, pos);
    end := AssignUWord32(buffer, end, sender);
    end := AssignUWord32(buffer, end, 0);
    end := CopyBytes(buffer, end, REMB_TAG);
    end := CreateRembItem(bitRate, ssrcs, buffer, end);
  }

  method WriteReport(b: Body, words: nat, buffer: array<byte>, pos: nat) returns (end: nat)
    requires (b.SenderReport? || b.ReceiverReport?) && words == HeaderLength(b) <= 0xFFFF
    requires pos + BlockLength(b) <= buffer.Length
    modifies buffer
    ensures end == pos + BlockLength(b) && buffer[..end] == old(buffer[..pos]) + Encode(b)
  {
    ghost var before := buffer[..pos];
    match b
    case SenderReport(ssrc, info, blocks) =>
      end := CreateSenderReport(ssrc, info, |blocks|, words, buffer, pos);
      end := CreateReportBlocks(blocks, buffer, end);
      InPlace(before, HeaderBytes(|blocks|, PT_SR, words), Be32(ssrc), InfoBytes(info), Concat(ReportBytes, blocks));
    case ReceiverReport(ssrc, blocks) =>
      end := CreateReceiverReport(ssrc, |blocks|, words, buffer, pos);
      end := CreateReportBlocks(blocks, buffer, end);
      Assoc(before, HeaderBytes(|blocks|, PT_RR, words) + Be32(ssrc), Concat(ReportBytes, blocks));
      Assoc(HeaderBytes(|blocks|, PT_RR, words), Be32(ssrc), Concat(ReportBytes, blocks));
  }

  method WriteOther(b: Body, words: nat, buffer: array<byte>, pos: nat) returns (end: nat)
    requires !b.Empty? && !b.SenderReport? && !b.ReceiverReport? && words == HeaderLength(b) <= 0xFFFF
    requires (b.Remb? ==> |b.ssrcs| <= MAX_SSRCS) && pos + BlockLength(b) <= buffer.Length
    modifies buffer
    ensures end == pos + BlockLength(b) && buffer[..end] == old(buffer[..pos]) + Encode(b)
  {
    match b
    case Sdes(chunks) => end := CreateSdes(chunks, words, buffer, pos);
    case Bye(ssrc, csrcs) => end := CreateBye(ssrc, csrcs, words, buffer, pos);
    case App(ssrc, subType, tag, part) => end := CreateApp(ssrc, subType, tag, part, words, buffer, pos);
    case Nack(sender, media, fields) => end := CreateNack(sender, media, fields, words, buffer, pos);
    case Remb(sender, bitRate, ssrcs) => end := CreateRemb(sender, bitRate, ssrcs, words, buffer, pos);
  }

  /** `Create` of each kind of packet: exactly `BlockLength` bytes, or nothing. */
  method Create(b: Body, buffer: array<byte>, pos: nat, max: nat) returns (end: nat)
    requires Buildable(b) && pos <= max <= buffer.Length && (pos + BlockLength(b) <= max ==> Headed(b))
    modifies buffer
    ensures end == if pos + BlockLength(b) <= max then pos + BlockLength(b) else pos
    ensures buffer[..end] == old(buffer[..pos]) + if pos + BlockLength(b) <= max then Encode(b) else []
    ensures pos + BlockLength(b) > max ==> buffer[..] == old(buffer[..])
    ensures pos + BlockLength(b) <= max ==> pos <= end && Octets(buffer[pos..end], b)
  {
    hide Octets;
    OctetsOf(b);
    EncodeLength(b);
    if pos + BlockLength(b) > max || b.Empty? { return pos; }
    WholeWords(b);
    var words := BlockLength(b) / 4 - 1;
    if b.SenderReport? || b.ReceiverReport? {
      end := WriteReport(b, words, buffer, pos);
    } else {
      end := WriteOther(b, words, buffer, pos);
    }
    Behind(buffer[..end], old(buffer[..pos]), Encode(b));
    assert buffer[..end][pos..] == buffer[pos..end];
  }

  lemma Behind(now: seq<byte>, before: seq<byte>, part: seq<byte>)
    requires now == before + part
    ensures now[|before|..] == part
  {}

  // ---- Packet objects --------------------------------------------------------------------------------

  /** `RtcpPacket`: its own fields and the packets appended to it. */
  class RtcpPacket {
    var body: Body
    var appended: seq<RtcpPacket>

    constructor (body: Body)
      ensures this.body == body && appended == []
    {
      this.body, appended := body, [];
    }

    method Append(packet: RtcpPacket)
      modifies this`appended
      ensures appended == old(appended) + [packet]
    {
      appended := appended + [packet];
    }

    /** A report takes at most 31 blocks; further ones are dropped. */
    method WithReportBlock(block: ReportBlock)
      requires (body.SenderReport? || body.ReceiverReport?) && Sound(body)
      modifies this`body
      ensures Sound(body)
      ensures body == old(body).(blocks :=
                old(body).blocks + if |old(body).blocks| < 31 then [block] else [])
    {
      if |body.blocks| >= MAX_REPORT_BLOCKS {
        assert body.blocks + [] == body.blocks;
        return;
      }
      body := body.(blocks := body.blocks + [block]);
    }

    /** The null octets end the item list on a 32-bit boundary. */
    method WithCName(ssrc: uint32, name: seq<byte>)
      requires body.Sdes? && Sound(body) && |name| <= 0xFF
      modifies this`body
      ensures Sound(body) && body.Sdes?
      ensures |old(body).chunks| >= 31 ==> body == old(body)
      ensures |old(body).chunks| < 31 ==> exists n :: body.chunks == old(body).chunks + [Chunk(ssrc, name, n)]
    {
      if |body.chunks| >= MAX_CHUNKS { return; }
      var nullOctets := 4 - (2 + |name|) % 4;
      body := body.(chunks := body.chunks + [Chunk(ssrc, name, nullOctets)]);
    }

    method WithCsrc(csrc: uint32)
      requires body.Bye? && Sound(body)
      modifies this`body
      ensures Sound(body)
      ensures body == old(body).(csrcs := old(body).csrcs + if |old(body).csrcs| < 30 then [csrc] else [])
    {
      if |body.csrcs| >= MAX_CSRCS {
        assert body.csrcs + [] == body.csrcs;
        return;
      }
      body := body.(csrcs := body.csrcs + [csrc]);
    }

    method WithData(part: seq<byte>)
      requires body.App? && Sound(body) && |part| <= APP_DATA_SIZE && |part| % 4 == 0
      modifies this`body
      ensures Sound(body) && body == old(body).(data := part)
    {
      body := body.(data := part);
    }

    method WithList(list: seq<uint16>)
      requires body.Nack? && body.fields == []
      modifies this`body
      ensures body == old(body).(fields := NackList.Pack(list))
    {
      var fields := NackList.WithList(list);
      body := body.(fields := fields);
    }

    method AppliesTo(ssrc: uint32)
      requires body.Remb? && Sound(body)
      modifies this`body
      ensures Sound(body)
      ensures body == old(body).(ssrcs := old(body).ssrcs + if |old(body).ssrcs| < 255 then [ssrc] else [])
    {
      if |body.ssrcs| >= MAX_SSRCS {
        assert body.ssrcs + [] == body.ssrcs;
        return;
      }
      body := body.(ssrcs := body.ssrcs + [ssrc]);
    }
  }

  /** `CreateHeader` asserts that the length in words fits 16 bits. */
  predicate Headed(b: Body) {
    BlockLength(b) <= 0x4_0000
  }

  /** So it must of the packets that find room. */
  ghost predicate AllHeaded(bs: seq<Body>, used: nat, max: nat) {
    forall b :: b in Fitting(bs, used, max) ==> Headed(b)
  }

  lemma AllHeadedPart(all: seq<Body>, a: seq<Body>, b: seq<Body>, used: nat, max: nat)
    requires a + b <= all && AllHeaded(all, used, max)
    ensures AllHeaded(b, used + |Written(a, used, max)|, max)
  {
    var rest := all[|a + b|..];
    assert all == (a + b) + rest;
    FittingAppend(a + b, rest, used, max);
    FittingAppend(a, b, used, max);
  }

  /** No packet is appended to itself, directly or indirectly. */
  ghost predicate Ranked(rank: map<RtcpPacket, nat>)
    reads rank.Keys
  {
    forall p :: p in rank ==>
      forall i :: 0 <= i < |p.appended| ==> p.appended[i] in rank && rank[p.appended[i]] < rank[p]
  }

  /** A packet, then the packets appended to it, each with those appended to it in turn. */
  ghost function Laid(p: RtcpPacket, rank: map<RtcpPacket, nat>): seq<Body>
    requires Ranked(rank) && p in rank
    reads rank.Keys
    decreases rank[p], 1, 0
  {
    [p.body] + LaidAll(p, |p.appended|, rank)
  }

  /** The first `n` of the packets appended to `p`. */
  ghost function LaidAll(p: RtcpPacket, n: nat, rank: map<RtcpPacket, nat>): seq<Body>
    requires Ranked(rank) && p in rank && n <= |p.appended|
    reads rank.Keys
    decreases rank[p], 0, n
  {
    if n == 0 then [] else LaidAll(p, n - 1, rank) + Laid(p.appended[n - 1], rank)
  }

  /** For instance two packets appended to a third. */
  lemma {:induction false} LaidInOrder(p: RtcpPacket, a: RtcpPacket, b: RtcpPacket, rank: map<RtcpPacket, nat>)
    requires Ranked(rank) && p in rank && p.appended == [a, b] && a.appended == b.appended == []
    ensures a in rank && b in rank && Laid(p, rank) == [p.body, a.body, b.body]
  {
    assert p.appended[0] == a && p.appended[1] == b;
    assert LaidAll(p, 2, rank) == LaidAll(p, 1, rank) + Laid(b, rank);
    assert LaidAll(p, 1, rank) == LaidAll(p, 0, rank) + Laid(a, rank);
    assert Laid(a, rank) == [a.body] + LaidAll(a, 0, rank) && Laid(b, rank) == [b.body] + LaidAll(b, 0, rank);
  }

  /** What has been written up to `end` are the packets `bs`, as far as each found room. */
  ghost predicate Holds(bytes: seq<byte>, before: seq<byte>, bs: seq<Body>, end: nat, max: nat) {
    end == |bytes| <= max && bytes == before + Written(bs, |before|, max)
  }

  lemma HoldsMore(bytes: seq<byte>, before: seq<byte>, a: seq<Body>, end: nat, max: nat,
                  bytes': seq<byte>, b: seq<Body>, end': nat)
    requires Holds(bytes, before, a, end, max) && Holds(bytes', bytes, b, end', max)
    ensures Holds(bytes', before, a + b, end', max)
  {
    var x, y := Written(a, |before|, max), Written(b, |bytes|, max);
    WrittenAppend(a, b, |before|, max);
    assert |bytes| == |before| + |x|;
    Assoc(before, x, y);
  }

  /** Writes a packet and the packets appended to it, as far as each finds room. */
  method CreateAndAddAppended(packet: RtcpPacket, buffer: array<byte>, pos: nat, max: nat,
                              ghost rank: map<RtcpPacket, nat>, ghost laid: seq<Body>) returns (end: nat)
    requires Ranked(rank) && packet in rank && laid == Laid(packet, rank)
    requires forall p :: p in rank ==> Buildable(p.body)
    requires pos <= max <= buffer.Length && AllHeaded(laid, pos, max)
    modifies buffer
    ensures pos <= end <= buffer.Length && Holds(buffer[..end], old(buffer[..pos]), laid, end, max)
    decreases rank[packet]
  {
    hide Laid, Begun, LaidAll, Written, AllHeaded;
    ghost var before, done := old(buffer[..pos]), [packet.body];
    ghost var todo := Parts(packet, rank, |packet.appended|);
    BegunEnds(packet, rank, todo);
    BegunPrefix(packet.body, todo, 0);
    OwnHeaded(laid, packet.body, pos, max);
    end := CreateOwn(packet.body, buffer, pos, max);
    var i := 0;
    while i < |packet.appended|
      invariant 0 <= i <= |packet.appended| == |todo| && pos <= end <= buffer.Length
      invariant Ranked(rank)
      invariant forall j :: 0 <= j < |todo| ==> todo[j] == Laid(packet.appended[j], rank)
      invariant done == Begun(packet.body, todo, i)
      invariant Holds(buffer[..end], before, done, end, max)
    {
      ghost var bytes, start := buffer[..end], end;
      BegunStep(packet.body, todo, i);
      BegunPrefix(packet.body, todo, i + 1);
      AllHeadedPart(laid, done, todo[i], pos, max);
      end := CreateAndAddAppended(packet.appended[i], buffer, end, max, rank, todo[i]);
      HoldsMore(bytes, before, done, start, max, buffer[..end], todo[i], end);
      done := done + todo[i];
      i := i + 1;
    }
  }

  method CreateOwn(b: Body, buffer: array<byte>, pos: nat, max: nat) returns (end: nat)
    requires Buildable(b) && pos <= max <= buffer.Length && (pos + BlockLength(b) <= max ==> Headed(b))
    modifies buffer
    ensures pos <= end <= buffer.Length && Holds(buffer[..end], old(buffer[..pos]), [b], end, max)
  {
    end := Create(b, buffer, pos, max);
    WrittenOne(b, pos, max);
    EncodeLength(b);
  }

  lemma OwnHeaded(all: seq<Body>, b: Body, used: nat, max: nat)
    requires [b] <= all && AllHeaded(all, used, max)
    ensures used + BlockLength(b) <= max ==> Headed(b)
  {
    if used + BlockLength(b) <= max {
      assert all[0] == b && Fitting(all, used, max)[0] == b;
    }
  }

  ghost function Flat(parts: seq<seq<Body>>): seq<Body> {
    if parts == [] then [] else Flat(parts[..|parts| - 1]) + parts[|parts| - 1]
  }

  /** A packet and the first `i` of those appended to it. */
  ghost function Begun(b: Body, parts: seq<seq<Body>>, i: nat): seq<Body>
    requires i <= |parts|
  {
    [b] + Flat(parts[..i])
  }

  lemma {:induction false} BegunEnds(p: RtcpPacket, rank: map<RtcpPacket, nat>, parts: seq<seq<Body>>)
    requires Ranked(rank) && p in rank && LaidAll(p, |p.appended|, rank) == Flat(parts)
    ensures Begun(p.body, parts, 0) == [p.body] && Begun(p.body, parts, |parts|) == Laid(p, rank)
  {
    assert parts[..|parts|] == parts;
  }

  lemma BegunStep(b: Body, parts: seq<seq<Body>>, i: nat)
    requires i < |parts|
    ensures Begun(b, parts, i + 1) == Begun(b, parts, i) + parts[i]
  {
    assert parts[..i + 1][..i] == parts[..i];
    Assoc([b], Flat(parts[..i]), parts[i]);
  }

  lemma {:induction false} BegunPrefix(b: Body, parts: seq<seq<Body>>, i: nat)
    requires i <= |parts|
    ensures Begun(b, parts, i) <= Begun(b, parts, |parts|)
    decreases |parts| - i
  {
    if i < |parts| {
      BegunStep(b, parts, i);
      BegunPrefix(b, parts, i + 1);
    }
  }

  /** What is laid out for each of the first `n` packets appended. */
  lemma Parts(p: RtcpPacket, rank: map<RtcpPacket, nat>, n: nat) returns (parts: seq<seq<Body>>)
    requires Ranked(rank) && p in rank && n <= |p.appended|
    ensures |parts| == n && LaidAll(p, n, rank) == Flat(parts)
    ensures forall i :: 0 <= i < n ==> parts[i] == Laid(p.appended[i], rank)
  {
    if n == 0 {
      parts := [];
    } else {
      var front := Parts(p, rank, n - 1);
      parts := front + [Laid(p.appended[n - 1], rank)];
      assert parts[..n - 1] == front;
    }
  }

  lemma {:induction false} LaidBuildable(packet: RtcpPacket, rank: map<RtcpPacket, nat>)
    requires Ranked(rank) && packet in rank && forall p :: p in rank ==> Buildable(p.body)
    ensures forall b :: b in Laid(packet, rank) ==> Buildable(b)
    decreases rank[packet], 1, 0
  {
    LaidAllBuildable(packet, |packet.appended|, rank);
  }

  lemma {:induction false} LaidAllBuildable(packet: RtcpPacket, n: nat, rank: map<RtcpPacket, nat>)
    requires Ranked(rank) && packet in rank && n <= |packet.appended|
    requires forall p :: p in rank ==> Buildable(p.body)
    ensures forall b :: b in LaidAll(packet, n, rank) ==> Buildable(b)
    decreases rank[packet], 0, n
  {
    if n > 0 {
      LaidAllBuildable(packet, n - 1, rank);
      LaidBuildable(packet.appended[n - 1], rank);
    }
  }

  /** `Build`: the bytes of the whole compound packet. */
  method Build(packet: RtcpPacket, ghost rank: map<RtcpPacket, nat>) returns (bytes: seq<byte>)
    requires Ranked(rank) && packet in rank && forall p :: p in rank ==> Buildable(p.body)
    ensures bytes == Written(Laid(packet, rank), 0, IP_PACKET_SIZE) && |bytes| <= 1500
    ensures AllOctets(bytes, Fitting(Laid(packet, rank), 0, 1500))
  {
    hide AllOctets;
    var buffer := new byte[IP_PACKET_SIZE];
    ghost var laid := Laid(packet, rank);
    FittingAmong(laid, 0, IP_PACKET_SIZE);
    var length := CreateAndAddAppended(packet, buffer, 0, IP_PACKET_SIZE, rank, laid);
    bytes := buffer[..length];
    LaidBuildable(packet, rank);
    ghost var sent := Fitting(laid, 0, IP_PACKET_SIZE);
    forall b | b in sent ensures Sound(b) { assert b in laid && Buildable(b); }
    AllOctetsOf(sent);
  }
}
