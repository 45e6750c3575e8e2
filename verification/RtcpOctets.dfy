/** The octets of each kind of packet (RFC 3550, section 6; RFC 4585, section 6.2.1; draft-alvestrand-rmcat-remb),
    field by field. */
module RtcpOctets {
  import opened Bytes
  import opened Rtcp
  import opened RtcpPackets
  import Remb

  /** Version 2 without padding, the count, the packet type, and the length in words less one. */
  predicate Head(s: seq<byte>, count: nat, kind: nat) {
    |s| >= 4 && s[0] == 0x80 + count && s[1] == kind && Get16(s, 2) == (|s| / 4 - 1) % 0x1_0000
  }

  predicate ReportOctets(s: seq<byte>, q: nat, b: ReportBlock) {
    && q + 24 <= |s| && Get32(s, q) == b.ssrc && s[q + 4] == b.fractionLost
    && Get24(s, q + 5) == b.cumulativeLost % 0x100_0000 && Get32(s, q + 8) == b.highestSeq
    && Get32(s, q + 12) == b.jitter && Get32(s, q + 16) == b.lastSr && Get32(s, q + 20) == b.delayLastSr
  }

  /** One to four null octets fill a chunk up to a 32-bit boundary. */
  function ChunkEnd(q: nat, c: Chunk): nat {
    q + 8 + (2 + |c.name|) / 4 * 4
  }

  predicate ChunkOctets(s: seq<byte>, q: nat, c: Chunk) {
    && ChunkEnd(q, c) <= |s| && Get32(s, q) == c.ssrc && s[q + 4] == 1 && s[q + 5] == |c.name|
    && s[q + 6..q + 6 + |c.name|] == c.name
    && forall k :: q + 6 + |c.name| <= k < ChunkEnd(q, c) ==> s[k] == 0
  }

  predicate ChunksOctets(s: seq<byte>, q: nat, cs: seq<Chunk>)
    decreases cs
  {
    if cs == [] then q == |s| else ChunkOctets(s, q, cs[0]) && ChunksOctets(s, ChunkEnd(q, cs[0]), cs[1..])
  }

  /** What stands where in a packet. */
  predicate Octets(s: seq<byte>, b: Body) {
    match b
    case Empty => s == []
    case SenderReport(ssrc, i, blocks) =>
      && |s| == 28 + 24 * |blocks| && Head(s, |blocks|, 200) && Get32(s, 4) == ssrc
      && Get32(s, 8) == i.ntpSec && Get32(s, 12) == i.ntpFrac && Get32(s, 16) == i.rtpTimestamp
      && Get32(s, 20) == i.packetCount && Get32(s, 24) == i.octetCount
      && forall k :: 0 <= k < |blocks| ==> ReportOctets(s, 28 + 24 * k, blocks[k])
    case ReceiverReport(ssrc, blocks) =>
      && |s| == 8 + 24 * |blocks| && Head(s, |blocks|, 201) && Get32(s, 4) == ssrc
      && forall k :: 0 <= k < |blocks| ==> ReportOctets(s, 8 + 24 * k, blocks[k])
    case Sdes(chunks) => Head(s, |chunks|, 202) && ChunksOctets(s, 4, chunks)
    case Bye(ssrc, csrcs) =>
      && |s| == 8 + 4 * |csrcs| && Head(s, 1 + |csrcs|, 203) && Get32(s, 4) == ssrc
      && forall k :: 0 <= k < |csrcs| ==> Get32(s, 8 + 4 * k) == csrcs[k]
    case App(ssrc, subType, tag, data) =>
      && |s| == 12 + |data| && Head(s, subType, 204) && Get32(s, 4) == ssrc && Get32(s, 8) == tag && s[12..] == data
    case Nack(sender, media, fields) =>
      && |s| == 12 + 4 * |fields| && Head(s, 1, 205) && Get32(s, 4) == sender && Get32(s, 8) == media
      && forall k :: 0 <= k < |fields| ==>
           Get16(s, 12 + 4 * k) == fields[k].pid && Get16(s, 14 + 4 * k) == fields[k].blp
    case Remb(sender, bitRate, ssrcs) =>
      && |s| == 20 + 4 * |ssrcs| && Head(s, 15, 206) && Get32(s, 4) == sender && Get32(s, 8) == 0
      && s[12..16] == [0x52, 0x45, 0x4D, 0x42] && s[16] == |ssrcs|
      && s[17] as int / 4 == Remb.Exponent(bitRate)
      && s[17] as int % 4 * 0x1_0000 + s[18] as int * 0x100 + s[19] == Remb.Mantissa(bitRate) % 0x4_0000
      && forall k :: 0 <= k < |ssrcs| ==> Get32(s, 20 + 4 * k) == ssrcs[k]
  }

  /** Packets one behind the other. */
  predicate AllOctets(s: seq<byte>, bs: seq<Body>)
    decreases bs
  {
    if bs == [] then s == []
    else
      var n := BlockLength(bs[0]);
      n <= |s| && Octets(s[..n], bs[0]) && AllOctets(s[n..], bs[1..])
  }

  // ---- Fields ----------------------------------------------------------------------------------------

  lemma ReportBack(data: seq<byte>, p: nat, b: ReportBlock)
    requires At(data, p, ReportBytes(b))
    ensures ReadReport(data, p) == b.(cumulativeLost := b.cumulativeLost % 0x100_0000)
  {
    var tail := Be32(b.highestSeq) + Be32(b.jitter) + Be32(b.lastSr) + Be32(b.delayLastSr);
    AtSplit(data, p, Be32(b.ssrc), [b.fractionLost] + (Be24(b.cumulativeLost) + tail));
    AtSplit(data, p + 4, [b.fractionLost], Be24(b.cumulativeLost) + tail);
    AtSplit(data, p + 5, Be24(b.cumulativeLost), tail);
    Read32(data, p, b.ssrc);
    AtByte(data, p + 4, [b.fractionLost], 0);
    Read24(data, p + 5, b.cumulativeLost);
    FourBack(data, p + 8, b.highestSeq, b.jitter, b.lastSr, b.delayLastSr);
  }

  lemma FourBack(data: seq<byte>, p: nat, a: uint32, b: uint32, c: uint32, d: uint32)
    requires At(data, p, Be32(a) + Be32(b) + Be32(c) + Be32(d))
    ensures Get32(data, p) == a && Get32(data, p + 4) == b && Get32(data, p + 8) == c && Get32(data, p + 12) == d
  {
    AtSplit(data, p, Be32(a) + Be32(b) + Be32(c), Be32(d));
    AtSplit(data, p, Be32(a) + Be32(b), Be32(c));
    AtSplit(data, p, Be32(a), Be32(b));
    Read32(data, p, a);
    Read32(data, p + 4, b);
    Read32(data, p + 8, c);
    Read32(data, p + 12, d);
  }

  lemma InfoBack(data: seq<byte>, p: nat, i: SenderInfo)
    requires At(data, p, InfoBytes(i))
    ensures ReadInfo(data, p) == i
  {
    AtSplit(data, p, Be32(i.ntpSec) + Be32(i.ntpFrac) + Be32(i.rtpTimestamp) + Be32(i.packetCount), Be32(i.octetCount));
    FourBack(data, p, i.ntpSec, i.ntpFrac, i.rtpTimestamp, i.packetCount);
    Read32(data, p + 16, i.octetCount);
  }

  /** Where the fields of a written chunk stand. */
  lemma ChunkFields(data: seq<byte>, p: nat, c: Chunk)
    requires At(data, p, ChunkBytes(c)) && |c.name| <= 0xFF && c.nullOctets > 0
    ensures Get32(data, p) == c.ssrc && data[p + 4] == 1 && data[p + 5] == |c.name|
    ensures At(data, p + 6, c.name) && data[p + 6 + |c.name|] == 0
  {
    var head: seq<byte> := [1, |c.name| % 0x100];
    var zeros := Zeros(c.nullOctets);
    AtSplit(data, p, Be32(c.ssrc), head + (c.name + zeros));
    Read32(data, p, c.ssrc);
    AtSplit(data, p + 4, head, c.name + zeros);
    AtByte(data, p + 4, head, 0);
    AtByte(data, p + 4, head, 1);
    AtSplit(data, p + 6, c.name, zeros);
    AtByte(data, p + 6 + |c.name|, zeros, 0);
  }

  lemma RateDigits(m: uint32, e: nat)
    requires e <= 14
    ensures var high := (e * 4 + m / 0x1_0000 % 4) % 0x100;
            high / 4 == e && high % 4 * 0x1_0000 + m / 0x100 % 0x100 * 0x100 + m % 0x100 == m % 0x4_0000
  {
    ExponentOver(e, m / 0x1_0000 % 4);
    Digits(m);
    MantissaParts(m);
  }

  /** The exponent above two bits of the mantissa. */
  lemma ExponentOver(e: nat, top: nat)
    requires e <= 14 && top < 4
    ensures var high := (e * 4 + top) % 0x100; high / 4 == e && high % 4 == top
  {
    assert (e * 4 + top) % 0x100 == e * 4 + top;
  }

  lemma MantissaParts(m: nat)
    ensures m / 0x1_0000 % 4 * 0x1_0000 + m % 0x1_0000 == m % 0x4_0000
  {
    var q := m / 0x1_0000;
    assert m == q / 4 * 0x4_0000 + (q % 4 * 0x1_0000 + m % 0x1_0000);
  }

  lemma HeadOctets(b: Body, count: nat, kind: byte, payload: seq<byte>)
    requires count <= 31 && |Encode(b)| >= 4 && HeaderLength(b) >= 0 && HeaderLength(b) == |Encode(b)| / 4 - 1
    requires Encode(b) == HeaderBytes(count, kind, HeaderLength(b)) + payload
    ensures Head(Encode(b), count, kind) && At(Encode(b), 4, payload)
  {
    hide Encode, Be16, Get16, HeaderLength;
    var s, head := Encode(b), HeaderBytes(count, kind, HeaderLength(b));
    assert At(s, 0, head + payload) by { assert s[0..|s|] == s; }
    AtSplit(s, 0, head, payload);
    HeadParts(s, count, kind, HeaderLength(b));
  }

  lemma HeadParts(s: seq<byte>, count: nat, kind: byte, words: nat)
    requires At(s, 0, HeaderBytes(count, kind, words)) && count <= 31
    ensures s[0] == 0x80 + count && s[1] == kind && Get16(s, 2) == words % 0x1_0000
  {
    hide Be16, Get16;
    var h := HeaderBytes(count, kind, words);
    AtSplit(s, 0, [(0x80 + count) % 0x100, kind], Be16(words % 0x1_0000));
    AtByte(s, 0, h, 0);
    AtByte(s, 0, h, 1);
    Read16(s, 2, words % 0x1_0000);
  }

  lemma ReportAt(s: seq<byte>, q: nat, b: ReportBlock)
    requires At(s, q, ReportBytes(b))
    ensures ReportOctets(s, q, b)
  {
    hide ReportBytes;
    ReportBack(s, q, b);
  }

  lemma {:induction false} ReportsAt(s: seq<byte>, p: nat, blocks: seq<ReportBlock>)
    requires At(s, p, Concat(ReportBytes, blocks))
    ensures forall k :: 0 <= k < |blocks| ==> ReportOctets(s, p + 24 * k, blocks[k])
  {
    hide At, ReportBytes, ReportOctets;
    forall k | 0 <= k < |blocks| ensures ReportOctets(s, p + 24 * k, blocks[k]) {
      ConcatAt(ReportBytes, blocks, 24, s, p, k);
      ReportAt(s, p + 24 * k, blocks[k]);
    }
  }

  lemma {:induction false} WordsAt(s: seq<byte>, p: nat, ws: seq<uint32>)
    requires At(s, p, Concat(Be32, ws)) && p + 4 * |ws| <= |s|
    ensures forall k :: 0 <= k < |ws| ==> Get32(s, p + 4 * k) == ws[k]
  {
    hide At, Be32, Get32;
    forall k | 0 <= k < |ws| ensures Get32(s, p + 4 * k) == ws[k] {
      ConcatAt(Be32, ws, 4, s, p, k);
      Read32(s, p + 4 * k, ws[k]);
    }
  }

  lemma {:induction false} FieldsAt(s: seq<byte>, p: nat, fields: seq<NackField>)
    requires At(s, p, Concat(FieldBytes, fields)) && p + 4 * |fields| <= |s|
    ensures forall k :: 0 <= k < |fields| ==>
              Get16(s, p + 4 * k) == fields[k].pid && Get16(s, p + 2 + 4 * k) == fields[k].blp
  {
    hide At, Be16, Get16;
    forall k | 0 <= k < |fields|
      ensures Get16(s, p + 4 * k) == fields[k].pid && Get16(s, p + 2 + 4 * k) == fields[k].blp
    {
      ConcatAt(FieldBytes, fields, 4, s, p, k);
      AtSplit(s, p + 4 * k, Be16(fields[k].pid), Be16(fields[k].blp));
      Read16(s, p + 4 * k, fields[k].pid);
      Read16(s, p + 4 * k + 2, fields[k].blp);
      assert p + 4 * k + 2 == p + 2 + 4 * k;
    }
  }

  lemma NullOctets(c: Chunk, q: nat)
    requires SoundChunk(c)
    ensures q + ChunkSize(c) == ChunkEnd(q, c) && c.nullOctets > 0
  {}

  lemma ChunkAt(s: seq<byte>, q: nat, c: Chunk)
    requires At(s, q, ChunkBytes(c)) && SoundChunk(c)
    ensures ChunkOctets(s, q, c)
  {
    hide Get32, ChunkEnd;
    NullOctets(c, q);
    ChunkFields(s, q, c);
    var zeros := Zeros(c.nullOctets);
    assert ChunkBytes(c) == Be32(c.ssrc) + [1, |c.name| % 0x100] + c.name + zeros;
    AtSplit(s, q, Be32(c.ssrc) + [1, |c.name| % 0x100] + c.name, zeros);
    var z := q + 6 + |c.name|;
    forall k | z <= k < z + c.nullOctets ensures s[k] == 0 { AtByte(s, z, zeros, k - z); }
  }

  lemma {:induction false} ChunksAt(s: seq<byte>, q: nat, cs: seq<Chunk>)
    requires At(s, q, Concat(ChunkBytes, cs)) && q + |Concat(ChunkBytes, cs)| == |s|
    requires forall i :: 0 <= i < |cs| ==> SoundChunk(cs[i])
    ensures ChunksOctets(s, q, cs)
    decreases cs
  {
    hide At, ChunkBytes, ChunkOctets, SoundChunk, ChunkEnd;
    if cs != [] {
      AtSplit(s, q, ChunkBytes(cs[0]), Concat(ChunkBytes, cs[1..]));
      ChunkAt(s, q, cs[0]);
      NullOctets(cs[0], q);
      ChunksAt(s, ChunkEnd(q, cs[0]), cs[1..]);
    }
  }

  // ---- Packets ---------------------------------------------------------------------------------------

  lemma SenderReportOctets(b: Body)
    requires b.SenderReport? && Sound(b) && |Encode(b)| == BlockLength(b)
    ensures Octets(Encode(b), b)
  {
    hide At, Get32, Get16, ReportOctets, ReportBytes;
    var s, rest := Encode(b), Concat(ReportBytes, b.blocks);
    HeadOctets(b, |b.blocks|, 200, Be32(b.ssrc) + (InfoBytes(b.info) + rest));
    AtSplit(s, 4, Be32(b.ssrc), InfoBytes(b.info) + rest);
    AtSplit(s, 8, InfoBytes(b.info), rest);
    Read32(s, 4, b.ssrc);
    InfoBack(s, 8, b.info);
    ReportsAt(s, 28, b.blocks);
  }

  lemma ReceiverReportOctets(b: Body)
    requires b.ReceiverReport? && Sound(b) && |Encode(b)| == BlockLength(b)
    ensures Octets(Encode(b), b)
  {
    hide At, Get32, Get16, ReportOctets, ReportBytes;
    var s, rest := Encode(b), Concat(ReportBytes, b.blocks);
    HeadOctets(b, |b.blocks|, 201, Be32(b.ssrc) + rest);
    AtSplit(s, 4, Be32(b.ssrc), rest);
    Read32(s, 4, b.ssrc);
    ReportsAt(s, 8, b.blocks);
  }

  lemma SdesOctets(b: Body)
    requires b.Sdes? && Sound(b) && |Encode(b)| == BlockLength(b)
    ensures Octets(Encode(b), b)
  {
    hide At, Get16, ChunkBytes, ChunksOctets;
    WholeWords(b);
    ChunksLength(b.chunks);
    HeadOctets(b, |b.chunks|, 202, Concat(ChunkBytes, b.chunks));
    ChunksAt(Encode(b), 4, b.chunks);
  }

  lemma ByeOctets(b: Body)
    requires b.Bye? && Sound(b) && |Encode(b)| == BlockLength(b)
    ensures Octets(Encode(b), b)
  {
    hide At, Get32, Get16;
    var s, rest := Encode(b), Concat(Be32, b.csrcs);
    HeadOctets(b, 1 + |b.csrcs|, 203, Be32(b.ssrc) + rest);
    AtSplit(s, 4, Be32(b.ssrc), rest);
    Read32(s, 4, b.ssrc);
    WordsAt(s, 8, b.csrcs);
  }

  lemma AppOctets(b: Body)
    requires b.App? && Sound(b) && |Encode(b)| == BlockLength(b)
    ensures Octets(Encode(b), b)
  {
    hide Get32, Get16;
    var s := Encode(b);
    HeadOctets(b, b.subType, 204, Be32(b.ssrc) + (Be32(b.tag) + b.data));
    AtSplit(s, 4, Be32(b.ssrc), Be32(b.tag) + b.data);
    AtSplit(s, 8, Be32(b.tag), b.data);
    Read32(s, 4, b.ssrc);
    Read32(s, 8, b.tag);
  }

  lemma NackOctets(b: Body)
    requires b.Nack? && Sound(b) && |Encode(b)| == BlockLength(b)
    ensures Octets(Encode(b), b)
  {
    hide At, Get32, Get16;
    var s, rest := Encode(b), Concat(FieldBytes, b.fields);
    HeadOctets(b, 1, 205, Be32(b.sender) + (Be32(b.media) + rest));
    AtSplit(s, 4, Be32(b.sender), Be32(b.media) + rest);
    AtSplit(s, 8, Be32(b.media), rest);
    Read32(s, 4, b.sender);
    Read32(s, 8, b.media);
    FieldsAt(s, 12, b.fields);
  }

  lemma RembOctets(b: Body)
    requires b.Remb? && Sound(b) && |Encode(b)| == BlockLength(b)
    ensures Octets(Encode(b), b)
  {
    hide Get32, Get16, Be32;
    var s, m, x := Encode(b), Remb.Mantissa(b.bitRate), Remb.Exponent(b.bitRate);
    var item := RembItemBytes(b.ssrcs, m, x);
    HeadOctets(b, 15, 206, Be32(b.sender) + (Be32(0) + (REMB_TAG + item)));
    AtSplit(s, 4, Be32(b.sender), Be32(0) + (REMB_TAG + item));
    AtSplit(s, 8, Be32(0), REMB_TAG + item);
    AtSplit(s, 12, REMB_TAG, item);
    Read32(s, 4, b.sender);
    Read32(s, 8, 0);
    RembItemOctets(s, b.ssrcs, m, x);
  }

  lemma RembItemOctets(s: seq<byte>, ssrcs: seq<uint32>, m: uint32, x: nat)
    requires At(s, 16, RembItemBytes(ssrcs, m, x)) && |s| == 20 + 4 * |ssrcs| && |ssrcs| <= MAX_SSRCS && x <= 14
    ensures s[16] == |ssrcs| && s[17] as int / 4 == x
    ensures s[17] as int % 4 * 0x1_0000 + s[18] as int * 0x100 + s[19] == m % 0x4_0000
    ensures forall k :: 0 <= k < |ssrcs| ==> Get32(s, 20 + 4 * k) == ssrcs[k]
  {
    hide Get32, Be32, At;
    var rest := Concat(Be32, ssrcs);
    AtSplit(s, 16, [|ssrcs| % 0x100], RateBytes(m, x) + rest);
    AtSplit(s, 17, RateBytes(m, x), rest);
    AtByte(s, 16, [|ssrcs| % 0x100], 0);
    AtByte(s, 17, RateBytes(m, x), 0);
    AtByte(s, 17, RateBytes(m, x), 1);
    AtByte(s, 17, RateBytes(m, x), 2);
    RateDigits(m, x);
    WordsAt(s, 20, ssrcs);
  }

  /** Each field of a packet stands where it should in its bytes. */
  lemma OctetsOf(b: Body)
    requires Sound(b)
    ensures Octets(Encode(b), b)
  {
    hide Octets, Encode, BlockLength;
    EncodeLength(b);
    match b
    case Empty => EmptyOctets();
    case SenderReport(_, _, _) => SenderReportOctets(b);
    case ReceiverReport(_, _) => ReceiverReportOctets(b);
    case Sdes(_) => SdesOctets(b);
    case Bye(_, _) => ByeOctets(b);
    case App(_, _, _, _) => AppOctets(b);
    case Nack(_, _, _) => NackOctets(b);
    case Remb(_, _, _) => RembOctets(b);
  }

  lemma EmptyOctets()
    ensures Octets(Encode(Empty), Empty)
  {}

  lemma {:induction false} AllOctetsOf(bs: seq<Body>)
    requires forall b :: b in bs ==> Sound(b)
    ensures AllOctets(EncodeAll(bs), bs)
  {
    hide Octets, Encode, BlockLength, Sound;
    if bs != [] {
      var s, rest := Encode(bs[0]), EncodeAll(bs[1..]);
      OctetsOf(bs[0]);
      EncodeLength(bs[0]);
      AllOctetsOf(bs[1..]);
      assert (s + rest)[..|s|] == s && (s + rest)[|s|..] == rest;
    }
  }
}
