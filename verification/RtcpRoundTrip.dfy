/** Reading back what was written: the items of a compound packet are those of the packets in it. */
module RtcpRoundTrip {
  import opened Bytes
  import opened Rtcp
  import opened RtcpOctets
  import opened RtcpPackets
  import opened RtcpReader
  import opened RtcpWriter
  import opened Wrappers
  import NackList
  import Remb
  import Words

  // ---- What a reader should get ----------------------------------------------------------------

  /** Of a cumulative loss, 24 bits are sent. */
  function ReportItems(blocks: seq<ReportBlock>): seq<Item> {
    if blocks == [] then []
    else [ReportItem(blocks[0].(cumulativeLost := blocks[0].cumulativeLost % 0x100_0000))] + ReportItems(blocks[1..])
  }

  function ChunkItems(chunks: seq<Chunk>): seq<Item> {
    if chunks == [] then [] else [ChunkItem(chunks[0].ssrc, chunks[0].name)] + ChunkItems(chunks[1..])
  }

  function FieldItems(fields: seq<NackField>): seq<Item> {
    if fields == [] then [] else [NackItem(fields[0])] + FieldItems(fields[1..])
  }

  /** The items of one packet. Only the first source of a BYE is read, and a bit rate comes back as
      its mantissa and exponent carry it. */
  function Items(b: Body): seq<Item> {
    match b
    case Empty => []
    case SenderReport(ssrc, info, blocks) => [SrItem(ssrc, |blocks|, info)] + ReportItems(blocks)
    case ReceiverReport(ssrc, blocks) => [RrItem(ssrc, |blocks|)] + ReportItems(blocks)
    case Sdes(chunks) => [SdesItem] + ChunkItems(chunks)
    case Bye(ssrc, _) => [ByeItem(ssrc)]
    case App(_, subType, tag, data) => [AppHead(subType, tag)] + if data == [] then [] else [AppItem(data)]
    case Nack(sender, media, fields) => [NackHead(sender, media)] + FieldItems(fields)
    case Remb(sender, bitRate, ssrcs) => [PsfbHead(sender, 0), RembHead, RembItem(Remb.Carried(bitRate), ssrcs)]
  }

  function ItemsAll(bs: seq<Body>): seq<Item> {
    if bs == [] then [] else Items(bs[0]) + ItemsAll(bs[1..])
  }

  /** The CNAMEs of the packet are in the reader's alphabet. */
  predicate Speakable(b: Body) {
    Buildable(b) && (b.Sdes? ==> AllLegal(b.chunks))
  }

  /** The reader can take the packet: its length is below 2^16, too. */
  predicate Readable(b: Body) {
    Speakable(b) && BlockLength(b) < 0x1_0000
  }

  // ---- Payloads ------------------------------------------------------------------------------------

  lemma {:induction false} ReportsBack(data: seq<byte>, p: nat, e: nat, blocks: seq<ReportBlock>)
    requires At(data, p, Concat(ReportBytes, blocks)) && e == p + 24 * |blocks| <= |data|
    ensures Reports(data, p, e, |blocks|) == ReportItems(blocks)
    decreases blocks
  {
    if blocks != [] {
      AtSplit(data, p, ReportBytes(blocks[0]), Concat(ReportBytes, blocks[1..]));
      ReportBack(data, p, blocks[0]);
      ReportsBack(data, p + 24, e, blocks[1..]);
    }
  }

  lemma {:induction false} WordsBack(data: seq<byte>, p: nat, ws: seq<uint32>)
    requires At(data, p, Concat(Be32, ws)) && p + 4 * |ws| <= |data|
    ensures ReadWords(data, p, |ws|) == ws
    decreases ws
  {
    if ws != [] {
      AtSplit(data, p, Be32(ws[0]), Concat(Be32, ws[1..]));
      Read32(data, p, ws[0]);
      WordsBack(data, p + 4, ws[1..]);
    }
  }

  lemma {:induction false} FieldsBack(data: seq<byte>, p: nat, e: nat, fields: seq<NackField>)
    requires At(data, p, Concat(FieldBytes, fields)) && e == p + 4 * |fields| <= |data|
    ensures NackItems(data, p, e) == FieldItems(fields)
    decreases fields
  {
    if fields != [] {
      var f := fields[0];
      AtSplit(data, p, FieldBytes(f), Concat(FieldBytes, fields[1..]));
      AtSplit(data, p, Be16(f.pid), Be16(f.blp));
      Read16(data, p, f.pid);
      Read16(data, p + 2, f.blp);
      FieldsBack(data, p + 4, e, fields[1..]);
    }
  }

  lemma {:induction false} ChunkBack(data: seq<byte>, p: nat, e: nat, c: Chunk)
    requires At(data, p, ChunkBytes(c)) && SoundChunk(c) && Legal(c.name)
    requires p + ChunkSize(c) <= e <= |data|
    ensures FindChunk(data, p, e) == Some((ChunkItem(c.ssrc, c.name), p + ChunkSize(c)))
  {
    ChunkFields(data, p, c);
    NameScanned(data, p + 4, e, c.name);
    EndTag(data, p + 6 + |c.name|, e, 2 + |c.name|, c);
    ChunkFound(data, p, e, c.name, p + ChunkSize(c));
  }

  /** A chunk comes back exactly if its name is in the alphabet. */
  lemma {:induction false} ChunkBackIff(data: seq<byte>, p: nat, e: nat, c: Chunk)
    requires At(data, p, ChunkBytes(c)) && SoundChunk(c) && p + ChunkSize(c) <= e <= |data|
    ensures FindChunk(data, p, e) == Some((ChunkItem(c.ssrc, c.name), p + ChunkSize(c))) <==> Legal(c.name)
  {
    if Legal(c.name) {
      ChunkBack(data, p, e, c);
    } else {
      ChunkFields(data, p, c);
      assert Named(data, p + 6, e, |c.name|) == None;
    }
  }

  lemma {:induction false} NameScanned(data: seq<byte>, p: nat, e: nat, name: seq<byte>)
    requires p + 2 + |name| < e <= |data| && data[p] == 1 && data[p + 1] == |name| && At(data, p + 2, name) &&
             Legal(name)
    ensures ScanItems(data, p, e, 0, None) == ScanItems(data, p + 2 + |name|, e, 2 + |name|, Some(name))
  {
    assert Named(data, p + 2, e, |name|) == Some(name);
  }

  lemma {:induction false} ChunkFound(data: seq<byte>, p: nat, e: nat, name: seq<byte>, q: nat)
    requires p + 4 <= e <= |data| && q <= e
    requires ScanItems(data, p + 4, e, 0, None) == Some((Some(name), q))
    ensures FindChunk(data, p, e) == Some((ChunkItem(Get32(data, p), name), q))
  {}

  lemma {:induction false} EndTag(data: seq<byte>, q: nat, e: nat, read: nat, c: Chunk)
    requires q < e <= |data| && data[q] == 0 && read == 2 + |c.name| && SoundChunk(c)
    ensures ScanItems(data, q, e, read, Some(c.name)) == Some((Some(c.name), q + c.nullOctets))
  {}

  lemma {:induction false} ChunksBack(data: seq<byte>, p: nat, e: nat, chunks: seq<Chunk>)
    requires At(data, p, Concat(ChunkBytes, chunks)) && e == p + ChunkLengths(chunks) <= |data|
    requires AllLegal(chunks)
    ensures Chunks(data, p, e, |chunks|) == ChunkItems(chunks)
    decreases chunks
  {
    if chunks != [] {
      var c := chunks[0];
      AtSplit(data, p, ChunkBytes(c), Concat(ChunkBytes, chunks[1..]));
      assert AllLegal(chunks[1..]) && ChunkSize(c) + ChunkLengths(chunks[1..]) == e - p;
      var q := p + ChunkSize(c);
      ChunkBack(data, p, e, c);
      ChunksStep(data, p, e, |chunks|, ChunkItem(c.ssrc, c.name), q);
      ChunksBack(data, q, e, chunks[1..]);
    }
  }

  lemma ChunksStep(data: seq<byte>, p: nat, e: nat, n: nat, item: Item, q: nat)
    requires p <= e <= |data| && n > 0
    requires FindChunk(data, p, e) == Some((item, q))
    ensures Chunks(data, p, e, n) == [item] + Chunks(data, q, e, n - 1)
  {}

  predicate AllLegal(chunks: seq<Chunk>) {
    chunks == [] || (SoundChunk(chunks[0]) && Legal(chunks[0].name) && AllLegal(chunks[1..]))
  }

  /** The rate read is the one carried. */
  lemma RateBack(data: seq<byte>, p: nat, m: uint32, e: nat)
    requires At(data, p, RateBytes(m, e)) && e <= 14
    ensures ReadRate(data, p) == Words.Shl(m % 0x4_0000, e)
  {
    AtByte(data, p, RateBytes(m, e), 0);
    AtByte(data, p, RateBytes(m, e), 1);
    AtByte(data, p, RateBytes(m, e), 2);
    RateDigits(m, e);
  }

  // ---- Headers ---------------------------------------------------------------------------------------

  /** The count and kind in the header of a packet. */
  function HeaderCount(b: Body): nat {
    match b
    case Empty => 0
    case SenderReport(_, _, blocks) => |blocks|
    case ReceiverReport(_, blocks) => |blocks|
    case Sdes(chunks) => |chunks|
    case Bye(_, csrcs) => 1 + |csrcs|
    case App(_, subType, _, _) => subType
    case Nack(_, _, _) => 1
    case Remb(_, _, _) => 15
  }

  function HeaderKind(b: Body): byte {
    match b
    case Empty => 0
    case SenderReport(_, _, _) => PT_SR
    case ReceiverReport(_, _) => PT_RR
    case Sdes(_) => PT_SDES
    case Bye(_, _) => PT_BYE
    case App(_, _, _, _) => PT_APP
    case Nack(_, _, _) => PT_RTPFB
    case Remb(_, _, _) => PT_PSFB
  }

  /** What stands behind the header. */
  function Payload(b: Body): seq<byte> {
    match b
    case Empty => []
    case SenderReport(ssrc, info, blocks) => Be32(ssrc) + (InfoBytes(info) + Concat(ReportBytes, blocks))
    case ReceiverReport(ssrc, blocks) => Be32(ssrc) + Concat(ReportBytes, blocks)
    case Sdes(chunks) => Concat(ChunkBytes, chunks)
    case Bye(ssrc, csrcs) => Be32(ssrc) + Concat(Be32, csrcs)
    case App(ssrc, _, tag, data) => Be32(ssrc) + (Be32(tag) + data)
    case Nack(sender, media, fields) => Be32(sender) + (Be32(media) + Concat(FieldBytes, fields))
    case Remb(sender, bitRate, ssrcs) =>
      Be32(sender) + (Be32(0) + (REMB_TAG + RembItemBytes(ssrcs, Remb.Mantissa(bitRate), Remb.Exponent(bitRate))))
  }

  lemma EncodeParts(b: Body)
    requires !b.Empty?
    ensures Encode(b) == HeaderBytes(HeaderCount(b), HeaderKind(b), HeaderLength(b)) + Payload(b)
    ensures HeaderLength(b) == BlockLength(b) / 4 - 1
  {}

  lemma FieldLength(words: nat, length: nat)
    requires 4 <= length <= 0x4_0000 && length % 4 == 0 && words == length / 4 - 1
    ensures words % 0x1_0000 == words
    ensures (words + 1) % 0x1_0000 * 4 % 0x1_0000 == length <==> length < 0x1_0000
  {
    WordLength(words + 1);
  }

  /** The header read back. The length comes back exactly if it is below 2^16. */
  lemma HeaderBack(data: seq<byte>, p: nat, count: nat, kind: byte, length: nat)
    requires At(data, p, HeaderBytes(count, kind, length / 4 - 1)) && count <= 31
    requires 4 <= length <= 0x4_0000 && length % 4 == 0
    ensures ParseHeader(data, p) == Some(Header(2, false, count, kind, length)) <==> length < 0x1_0000
  {
    hide Be16, Get16;
    var words := length / 4 - 1;
    var hd := HeaderBytes(count, kind, words);
    AtSplit(data, p, [(0x80 + count) % 0x100, kind], Be16(words % 0x1_0000));
    AtByte(data, p, hd, 0);
    AtByte(data, p, hd, 1);
    Read16(data, p + 2, words % 0x1_0000);
    FieldLength(words, length);
  }

  // ---- Blocks ----------------------------------------------------------------------------------------

  lemma SenderReportBack(data: seq<byte>, p: nat, e: nat, ssrc: uint32, info: SenderInfo, blocks: seq<ReportBlock>)
    requires At(data, p, Be32(ssrc) + (InfoBytes(info) + Concat(ReportBytes, blocks)))
    requires e == p + 24 + 24 * |blocks| <= |data|
    ensures Get32(data, p) == ssrc && ReadInfo(data, p + 4) == info
    ensures Reports(data, p + 24, e, |blocks|) == ReportItems(blocks)
  {
    AtSplit(data, p, Be32(ssrc), InfoBytes(info) + Concat(ReportBytes, blocks));
    AtSplit(data, p + 4, InfoBytes(info), Concat(ReportBytes, blocks));
    Read32(data, p, ssrc);
    InfoBack(data, p + 4, info);
    ReportsBack(data, p + 24, e, blocks);
  }

  lemma ReceiverReportBack(data: seq<byte>, p: nat, e: nat, ssrc: uint32, blocks: seq<ReportBlock>)
    requires At(data, p, Be32(ssrc) + Concat(ReportBytes, blocks)) && e == p + 4 + 24 * |blocks| <= |data|
    ensures Get32(data, p) == ssrc && Reports(data, p + 4, e, |blocks|) == ReportItems(blocks)
  {
    AtSplit(data, p, Be32(ssrc), Concat(ReportBytes, blocks));
    Read32(data, p, ssrc);
    ReportsBack(data, p + 4, e, blocks);
  }

  lemma {:induction false} ByeBack(data: seq<byte>, p: nat, e: nat, ssrc: uint32, csrcs: seq<uint32>)
    requires At(data, p, Be32(ssrc) + Concat(Be32, csrcs)) && e == p + 4 + 4 * |csrcs| <= |data|
    ensures Byes(data, p, e, 1 + |csrcs|) == [ByeItem(ssrc)]
  {
    hide Be32, Concat, At;
    AtSplit(data, p, Be32(ssrc), Concat(Be32, csrcs));
    Read32(data, p, ssrc);
  }

  lemma AppBack(data: seq<byte>, p: nat, e: nat, ssrc: uint32, tag: uint32, part: seq<byte>)
    requires At(data, p, Be32(ssrc) + (Be32(tag) + part)) && e == p + 8 + |part|
    requires |part| <= APP_DATA_SIZE && (part == [] || |part| >= 4)
    ensures e <= |data| && Get32(data, p + 4) == tag
    ensures AppItems(data, p + 8, e) == if part == [] then [] else [AppItem(part)]
  {
    AtSplit(data, p, Be32(ssrc), Be32(tag) + part);
    AtSplit(data, p + 4, Be32(tag), part);
    Read32(data, p + 4, tag);
    assert AppItems(data, e, e) == [];
  }

  lemma NackBack(data: seq<byte>, p: nat, e: nat, sender: uint32, media: uint32, fields: seq<NackField>)
    requires At(data, p, Be32(sender) + (Be32(media) + Concat(FieldBytes, fields)))
    requires e == p + 8 + 4 * |fields| <= |data|
    ensures Get32(data, p) == sender && Get32(data, p + 4) == media
    ensures NackItems(data, p + 8, e) == FieldItems(fields)
  {
    AtSplit(data, p, Be32(sender), Be32(media) + Concat(FieldBytes, fields));
    AtSplit(data, p + 4, Be32(media), Concat(FieldBytes, fields));
    Read32(data, p, sender);
    Read32(data, p + 4, media);
    FieldsBack(data, p + 8, e, fields);
  }

  lemma RembBack(data: seq<byte>, p: nat, e: nat, sender: uint32, m: uint32, x: nat, ssrcs: seq<uint32>)
    requires At(data, p, Be32(sender) + (Be32(0) + (REMB_TAG + RembItemBytes(ssrcs, m, x))))
    requires e == p + 16 + 4 * |ssrcs| <= |data| && |ssrcs| <= 0xFF && x <= 14
    ensures Get32(data, p) == sender && Get32(data, p + 4) == 0
    ensures PsfbItems(data, p + 8, e) == [RembHead, RembItem(Words.Shl(m % 0x4_0000, x), ssrcs)]
  {
    var last := RembItemBytes(ssrcs, m, x);
    AtSplit(data, p, Be32(sender), Be32(0) + (REMB_TAG + last));
    AtSplit(data, p + 4, Be32(0), REMB_TAG + last);
    AtSplit(data, p + 8, REMB_TAG, last);
    Read32(data, p, sender);
    Read32(data, p + 4, 0);
    RembItemBack(data, p + 12, e, ssrcs, m, x);
  }

  lemma {:induction false} RembItemBack(data: seq<byte>, p: nat, e: nat, ssrcs: seq<uint32>, m: uint32, x: nat)
    requires At(data, p, RembItemBytes(ssrcs, m, x)) && |ssrcs| <= 0xFF && x <= 14
    requires e == p + 4 + 4 * |ssrcs| <= |data|
    ensures RembItems(data, p, e) == [RembItem(Words.Shl(m % 0x4_0000, x), ssrcs)]
  {
    AtSplit(data, p, [|ssrcs| % 0x100], RateBytes(m, x) + Concat(Be32, ssrcs));
    AtSplit(data, p + 1, RateBytes(m, x), Concat(Be32, ssrcs));
    AtByte(data, p, [|ssrcs| % 0x100], 0);
    RateBack(data, p + 1, m, x);
    WordsBack(data, p + 4, ssrcs);
    RembItemsOf(data, p, e, ssrcs);
  }

  lemma {:induction false} RembItemsOf(data: seq<byte>, p: nat, e: nat, ssrcs: seq<uint32>)
    requires p + 4 <= e == p + 4 + 4 * |ssrcs| <= |data| && data[p] == |ssrcs| &&
             ReadWords(data, p + 4, |ssrcs|) == ssrcs
    ensures RembItems(data, p, e) == [RembItem(ReadRate(data, p + 1), ssrcs)]
  {
    assert RembItems(data, e, e) == [];
  }

  /** The items in the block of a packet whose payload stands behind the header at `p`. */
  lemma BlockBack(data: seq<byte>, p: nat, e: nat, b: Body, h: Header)
    requires !b.Empty? && Sized(b) && At(data, p + 4, Payload(b)) && e == p + BlockLength(b) <= |data|
    requires h == Header(2, false, HeaderCount(b), HeaderKind(b), BlockLength(b))
    ensures p + 4 <= e && (h.kind == PT_SR ==> h.length >= 28) && (h.kind == PT_RR ==> h.length >= 8)
    ensures Block(data, p, e, h) == Items(b)
  {
    if b.SenderReport? || b.ReceiverReport? {
      ReportBlockBack(data, p, e, b, h);
    } else if b.Sdes? {
      SdesBlockBack(data, p, e, b, h);
    } else if b.Bye? || b.App? {
      SourceBlockBack(data, p, e, b, h);
    } else {
      FeedbackBlockBack(data, p, e, b, h);
    }
  }

  predicate Sized(b: Body) {
    match b
    case Sdes(chunks) => chunks != [] && AllLegal(chunks)
    case App(_, _, _, part) => |part| <= APP_DATA_SIZE && (part == [] || |part| >= 4)
    case Remb(_, _, ssrcs) => |ssrcs| <= MAX_SSRCS
    case _ => true
  }

  lemma ReadableIsSized(b: Body)
    requires Readable(b)
    ensures Sized(b) && HeaderCount(b) <= 31
  {}

  lemma ReportBlockBack(data: seq<byte>, p: nat, e: nat, b: Body, h: Header)
    requires (b.SenderReport? || b.ReceiverReport?) && At(data, p + 4, Payload(b)) && e == p + BlockLength(b) <= |data|
    requires h == Header(2, false, HeaderCount(b), HeaderKind(b), BlockLength(b))
    ensures Block(data, p, e, h) == Items(b)
  {
    match b
    case SenderReport(ssrc, info, blocks) => SenderReportBack(data, p + 4, e, ssrc, info, blocks);
    case ReceiverReport(ssrc, blocks) => ReceiverReportBack(data, p + 4, e, ssrc, blocks);
  }

  lemma SdesBlockBack(data: seq<byte>, p: nat, e: nat, b: Body, h: Header)
    requires b.Sdes? && Sized(b) && At(data, p + 4, Payload(b)) && e == p + BlockLength(b) <= |data|
    requires h == Header(2, false, HeaderCount(b), HeaderKind(b), BlockLength(b))
    ensures Block(data, p, e, h) == Items(b)
  {
    ChunksBack(data, p + 4, e, b.chunks);
    assert BlockLength(b) >= 8;
  }

  lemma SourceBlockBack(data: seq<byte>, p: nat, e: nat, b: Body, h: Header)
    requires (b.Bye? || b.App?) && Sized(b) && At(data, p + 4, Payload(b)) && e == p + BlockLength(b) <= |data|
    requires h == Header(2, false, HeaderCount(b), HeaderKind(b), BlockLength(b))
    ensures Block(data, p, e, h) == Items(b)
  {
    match b
    case Bye(ssrc, csrcs) => ByeBack(data, p + 4, e, ssrc, csrcs);
    case App(ssrc, _, tag, part) => AppBack(data, p + 4, e, ssrc, tag, part);
  }

  lemma FeedbackBlockBack(data: seq<byte>, p: nat, e: nat, b: Body, h: Header)
    requires (b.Nack? || b.Remb?) && Sized(b) && At(data, p + 4, Payload(b)) && e == p + BlockLength(b) <= |data|
    requires h == Header(2, false, HeaderCount(b), HeaderKind(b), BlockLength(b))
    ensures Block(data, p, e, h) == Items(b)
  {
    match b
    case Nack(sender, media, fields) => NackBack(data, p + 4, e, sender, media, fields);
    case Remb(sender, r, ssrcs) => RembBack(data, p + 4, e, sender, Remb.Mantissa(r), Remb.Exponent(r), ssrcs);
  }

  // ---- Compound packets ------------------------------------------------------------------------------

  /** One packet read back, with whatever stands behind it. */
  lemma BodyBack(data: seq<byte>, p: nat, e: nat, b: Body) returns (items: seq<Item>, rest: seq<Item>)
    requires Readable(b) && At(data, p, Encode(b)) && e == p + BlockLength(b)
    ensures e <= |data| && Compound(data, p) == items + rest && items == Items(b) && rest == Compound(data, e)
  {
    EncodeLength(b);
    if b.Empty? {
      items, rest := [], Compound(data, p);
    } else {
      WholeWords(b);
      ReadableIsSized(b);
      items, rest := PartsBack(data, p, e, b);
    }
  }

  lemma PartsBack(data: seq<byte>, p: nat, e: nat, b: Body) returns (items: seq<Item>, rest: seq<Item>)
    requires !b.Empty? && Sized(b) && HeaderCount(b) <= 31 && At(data, p, Encode(b))
    requires 4 <= BlockLength(b) < 0x1_0000 && BlockLength(b) % 4 == 0 && e == p + BlockLength(b) <= |data|
    ensures Compound(data, p) == items + rest && items == Items(b) && rest == Compound(data, e)
  {
    var h := Header(2, false, HeaderCount(b), HeaderKind(b), BlockLength(b));
    HeaderOf(data, p, b);
    BlockBack(data, p, e, b, h);
    items, rest := CompoundOf(data, p, e, h);
  }

  lemma HeaderOf(data: seq<byte>, p: nat, b: Body)
    requires !b.Empty? && HeaderCount(b) <= 31 && At(data, p, Encode(b))
    requires 4 <= BlockLength(b) < 0x1_0000 && BlockLength(b) % 4 == 0
    ensures ParseHeader(data, p) == Some(Header(2, false, HeaderCount(b), HeaderKind(b), BlockLength(b)))
    ensures At(data, p + 4, Payload(b))
  {
    hide Encode, Payload, HeaderKind, HeaderCount, BlockLength, HeaderLength, ParseHeader, At, HeaderBytes;
    EncodeParts(b);
    AtSplit(data, p, HeaderBytes(HeaderCount(b), HeaderKind(b), HeaderLength(b)), Payload(b));
    HeaderBack(data, p, HeaderCount(b), HeaderKind(b), BlockLength(b));
  }

  lemma CompoundOf(data: seq<byte>, p: nat, e: nat, h: Header) returns (block: seq<Item>, rest: seq<Item>)
    requires p + 4 <= e == p + h.length <= |data| && ParseHeader(data, p) == Some(h)
    requires (h.kind == PT_SR ==> h.length >= 28) && (h.kind == PT_RR ==> h.length >= 8)
    ensures Compound(data, p) == block + rest && block == Block(data, p, e, h) && rest == Compound(data, e)
  {
    block, rest := Block(data, p, e, h), Compound(data, e);
  }

  lemma {:induction false} CompoundEnds(data: seq<byte>)
    ensures Compound(data, |data|) == []
  {}

  lemma {:induction false} AllStep(bs: seq<Body>)
    ensures bs == [] ==> EncodeAll(bs) == [] && ItemsAll(bs) == []
    ensures bs != [] ==>
              EncodeAll(bs) == Encode(bs[0]) + EncodeAll(bs[1..]) && ItemsAll(bs) == Items(bs[0]) + ItemsAll(bs[1..])
  {
  }

  // ---- What is not read back ---------------------------------------------------------------------------

  /** A NACK with `n` fields or more. */
  predicate NackRun(items: seq<Item>, n: nat) {
    |items| > n && items[0].NackHead? && forall k :: 1 <= k <= n ==> items[k].NackItem?
  }

  lemma {:induction false} NackItemsEach(data: seq<byte>, p: nat, e: nat)
    requires p <= e <= |data|
    ensures 4 * |NackItems(data, p, e)| <= e - p
    decreases e - p
  {
    if e - p >= 4 {
      NackItemsEach(data, p + 4, e);
    }
  }

  /** A block begins with an item of its own, and has at most 16380 fields. */
  lemma BlockHead(data: seq<byte>, p: nat, e: nat, h: Header)
    requires p + 4 <= e <= |data| && e == p + h.length < p + 0x1_0000
    requires (h.kind == PT_SR ==> h.length >= 28) && (h.kind == PT_RR ==> h.length >= 8)
    ensures var s := Block(data, p, e, h);
            s != [] ==> !s[0].NackItem? && !s[0].ChunkItem? && (s[0].NackHead? ==> |s| <= 16381)
  {
    hide ReadInfo, Reports, Chunks, AppItems, NackItems, PsfbItems;
    if h.length >= 12 {
      NackItemsEach(data, p + 12, e);
    }
  }

  /** So does what follows. */
  lemma {:induction false} CompoundHead(data: seq<byte>, p: nat)
    requires p <= |data|
    ensures var s := Compound(data, p); s != [] ==> !s[0].NackItem? && !s[0].ChunkItem?
    decreases |data| - p
  {
    var block, rest, e := FirstBlock(data, p);
    if Compound(data, p) != [] && block == [] {
      CompoundHead(data, e);
    }
  }

  /** The first block, if there is one, and what is behind it. */
  lemma FirstBlock(data: seq<byte>, p: nat) returns (block: seq<Item>, rest: seq<Item>, e: nat)
    requires p <= |data|
    ensures p <= e <= |data| && Compound(data, p) == block + rest
    ensures Compound(data, p) != [] ==> p < e && rest == Compound(data, e)
    ensures block != [] ==> !block[0].NackItem? && !block[0].ChunkItem? && (block[0].NackHead? ==> |block| <= 16381)
  {
    block, rest, e := [], [], p;
    var header := ParseHeader(data, p);
    if header.Some? {
      var h := header.value;
      if p + h.length <= |data| && (h.kind == PT_SR ==> h.length >= 28) && (h.kind == PT_RR ==> h.length >= 8) {
        e := p + h.length;
        block, rest := Block(data, p, e, h), Compound(data, e);
        BlockHead(data, p, e, h);
      }
    }
  }

  /** No NACK of 16381 fields is read, since the 16 bits of a length stay below 2^16. */
  lemma {:induction false} NoLongRun(data: seq<byte>, p: nat)
    requires p <= |data|
    ensures !NackRun(Compound(data, p), 16381)
    decreases |data| - p
  {
    var s := Compound(data, p);
    var block, rest, e := FirstBlock(data, p);
    if s != [] {
      CompoundHead(data, e);
      if block == [] {
        assert s == rest;
        NoLongRun(data, e);
      } else {
        RunEnds(block, rest, 16381);
      }
    }
  }

  lemma RunEnds(block: seq<Item>, rest: seq<Item>, n: nat)
    requires block != [] && (block[0].NackHead? ==> |block| <= n) && (rest != [] ==> !rest[0].NackItem?)
    ensures !NackRun(block + rest, n)
  {
    assert (block + rest)[0] == block[0];
    if rest != [] {
      assert (block + rest)[|block|] == rest[0];
    }
  }

  lemma {:induction false} FieldItemsEach(fields: seq<NackField>)
    ensures |FieldItems(fields)| == |fields| && forall k :: 0 <= k < |fields| ==> FieldItems(fields)[k].NackItem?
  {
    if fields != [] {
      FieldItemsEach(fields[1..]);
    }
  }

  lemma {:induction false} ChunkItemsEach(chunks: seq<Chunk>)
    ensures |ChunkItems(chunks)| == |chunks| && forall k :: 0 <= k < |chunks| ==> ChunkItems(chunks)[k].ChunkItem?
  {
    if chunks != [] {
      ChunkItemsEach(chunks[1..]);
    }
  }

  lemma {:induction false} ChunksBound(chunks: seq<Chunk>)
    requires forall i :: 0 <= i < |chunks| ==> SoundChunk(chunks[i])
    ensures ChunkLengths(chunks) <= 0x109 * |chunks|
  {
    if chunks != [] {
      assert SoundChunk(chunks[0]);
      ChunksBound(chunks[1..]);
    }
  }

  /** Only a NACK can be that long. */
  lemma LongIsNack(b: Body)
    requires Buildable(b) && BlockLength(b) >= 0x1_0000
    ensures b.Nack? && |b.fields| >= 16381
  {
    if b.Sdes? {
      ChunksBound(b.chunks);
    }
  }

  lemma {:induction false} LongLost(data: seq<byte>, p: nat, b: Body)
    requires Buildable(b) && BlockLength(b) >= 0x1_0000 && p <= |data|
    ensures !(Items(b) <= Compound(data, p))
  {
    LongIsNack(b);
    FieldItemsEach(b.fields);
    NoLongRun(data, p);
    assert NackRun(Items(b), 16381);
    RunBehind(Items(b), Compound(data, p), 16381);
  }

  lemma RunBehind(items: seq<Item>, s: seq<Item>, n: nat)
    requires NackRun(items, n)
    ensures items <= s ==> NackRun(s, n)
  {}

  /** With a name outside the alphabet, chunks are missing. */
  lemma {:induction false} ChunksLost(data: seq<byte>, p: nat, e: nat, chunks: seq<Chunk>)
    requires At(data, p, Concat(ChunkBytes, chunks)) && e == p + ChunkLengths(chunks) <= |data|
    requires (forall i :: 0 <= i < |chunks| ==> SoundChunk(chunks[i])) && !AllLegal(chunks)
    ensures |Chunks(data, p, e, |chunks|)| < |chunks|
    decreases chunks
  {
    hide At, SoundChunk, ChunkBytes, ChunkSize, Legal, FindChunk, Chunks;
    var c, rest := chunks[0], chunks[1..];
    assert SoundChunk(c);
    AtSplit(data, p, ChunkBytes(c), Concat(ChunkBytes, rest));
    var q := p + ChunkSize(c);
    if Legal(c.name) {
      ChunkBack(data, p, e, c);
      ChunksStep(data, p, e, |chunks|, ChunkItem(c.ssrc, c.name), q);
      ChunksLost(data, q, e, rest);
    } else {
      ChunkLost(data, p, e, c);
      ChunksEnd(data, p, e, |chunks|);
    }
  }

  lemma {:induction false} ChunksEnd(data: seq<byte>, p: nat, e: nat, n: nat)
    requires p <= e <= |data| && FindChunk(data, p, e) == None
    ensures Chunks(data, p, e, n) == []
  {}

  lemma {:induction false} ChunkLost(data: seq<byte>, p: nat, e: nat, c: Chunk)
    requires At(data, p, ChunkBytes(c)) && SoundChunk(c) && p + ChunkSize(c) <= e <= |data| && !Legal(c.name)
    ensures FindChunk(data, p, e) == None
  {
    ChunkFields(data, p, c);
    assert Named(data, p + 6, e, |c.name|) == None;
  }

  lemma {:induction false} SdesLost(data: seq<byte>, p: nat, e: nat, b: Body)
    requires Buildable(b) && b.Sdes? && !AllLegal(b.chunks) && BlockLength(b) < 0x1_0000
    requires At(data, p, Encode(b)) && e == p + BlockLength(b)
    ensures !(Items(b) <= Compound(data, p))
  {
    EncodeLength(b);
    WholeWords(b);
    HeaderOf(data, p, b);
    var h := Header(2, false, HeaderCount(b), HeaderKind(b), BlockLength(b));
    assert SoundChunk(b.chunks[0]);
    var block, rest := CompoundOf(data, p, e, h);
    ChunksLost(data, p + 4, e, b.chunks);
    ChunkItemsEach(b.chunks);
    CompoundHead(data, e);
    assert |block| <= |b.chunks| && Items(b)[|block|].ChunkItem?;
    NotPrefix(Items(b), block, rest);
  }

  lemma NotPrefix<T>(items: seq<T>, block: seq<T>, rest: seq<T>)
    requires |block| < |items| && (rest != [] ==> rest[0] != items[|block|])
    ensures !(items <= block + rest)
  {
    if rest != [] {
      assert (block + rest)[|block|] == rest[0];
    }
  }

  /** A packet that can be built is read back, whatever follows, exactly if its CNAMEs are in the
      alphabet and its length is below 2^16. */
  lemma {:induction false} BodyBackIff(data: seq<byte>, p: nat, e: nat, b: Body)
    requires Buildable(b) && At(data, p, Encode(b)) && e == p + BlockLength(b)
    ensures e <= |data|
    ensures Items(b) <= Compound(data, p) <==> Readable(b)
    ensures Compound(data, p) == Items(b) + Compound(data, e) <==> Readable(b)
  {
    EncodeLength(b);
    if Readable(b) {
      var items, rest := BodyBack(data, p, e, b);
    } else if BlockLength(b) >= 0x1_0000 {
      LongLost(data, p, b);
    } else {
      SdesLost(data, p, e, b);
    }
  }

  /** A list of 16381 equal sequence numbers makes a NACK of 2^16 octets, of which nothing is read. */
  lemma LongNackLost(sender: uint32, media: uint32, x: uint16)
    ensures var b := Nack(sender, media, NackList.Pack(seq(16381, _ => x)));
            Buildable(b) && BlockLength(b) == 0x1_0000 && Compound(Encode(b), 0) == []
  {
    hide NackList.Pack, Concat, Compound;
    NackList.PackRepeated(seq(16381, _ => x));
    var b := Nack(sender, media, NackList.Pack(seq(16381, _ => x)));
    var data := Encode(b);
    EncodeLength(b);
    assert HeaderLength(b) == 0x3FFF && data[..4] == [0x81, PT_RTPFB] + Be16(0x3FFF);
    assert data[2] == data[..4][2] && data[3] == data[..4][3];
    HeaderAccepted(data, 0);
    NoHeader(data, 0);
  }

  lemma {:induction false} NoHeader(data: seq<byte>, p: nat)
    requires p <= |data| && ParseHeader(data, p) == None
    ensures Compound(data, p) == []
  {}

  /** Packets that can be built are read back, up to the end, exactly if each of them is. */
  lemma {:induction false} CompoundBackIff(data: seq<byte>, p: nat, bs: seq<Body>)
    requires forall b :: b in bs ==> Buildable(b)
    requires At(data, p, EncodeAll(bs)) && p + |EncodeAll(bs)| == |data|
    ensures Compound(data, p) == ItemsAll(bs) <==> forall b :: b in bs ==> Readable(b)
    decreases bs
  {
    hide Compound, BlockLength, Encode, EncodeAll, Readable, Buildable, Items, At;
    AllStep(bs);
    if bs == [] {
      CompoundEnds(data);
    } else {
      var b, rest, e := bs[0], bs[1..], p + BlockLength(bs[0]);
      assert b in bs && forall c :: c in bs <==> c == b || c in rest;
      AtSplit(data, p, Encode(b), EncodeAll(rest));
      EncodeLength(b);
      BodyBackIff(data, p, e, b);
      CompoundBackIff(data, e, rest);
      Cancel(Items(b), Compound(data, e), ItemsAll(rest));
    }
  }

  lemma Cancel<T>(a: seq<T>, b: seq<T>, c: seq<T>)
    ensures a + b == a + c ==> b == c
    ensures a <= a + c
  {
    assert (a + b)[|a|..] == b && (a + c)[|a|..] == c;
  }

  /** What is written for any packets, with any room, is read back as the items of those that found
      room, exactly if each of these can be read. */
  lemma {:induction false} WrittenReadsBack(bs: seq<Body>, max: nat)
    requires forall b :: b in bs ==> Buildable(b)
    ensures Compound(Written(bs, 0, max), 0) == ItemsAll(Fitting(bs, 0, max)) <==>
            forall b :: b in Fitting(bs, 0, max) ==> Readable(b)
  {
    FittingAmong(bs, 0, max);
    CompoundBackIff(Written(bs, 0, max), 0, Fitting(bs, 0, max));
  }

  /** A compound packet that begins with a report is taken, of reduced size or not. */
  lemma ReportAccepted(bs: seq<Body>)
    requires bs != [] && Readable(bs[0]) && (bs[0].SenderReport? || bs[0].ReceiverReport?)
    ensures Accepted(EncodeAll(bs), false)
  {
    var data, b := EncodeAll(bs), bs[0];
    assert data == Encode(b) + Concat(Encode, bs[1..]);
    EncodeLength(b);
    WholeWords(b);
    ReadableIsSized(b);
    HeaderOf(data, 0, b);
  }

  /** Build a compound packet, and read it. */
  method BuildAndRead(packet: RtcpPacket, ghost rank: map<RtcpPacket, nat>) returns (items: seq<Item>)
    requires Ranked(rank) && packet in rank && forall p :: p in rank ==> Buildable(p.body)
    requires packet.body.SenderReport? || packet.body.ReceiverReport?
    requires BlockLength(packet.body) <= IP_PACKET_SIZE
    ensures var sent := Fitting(Laid(packet, rank), 0, IP_PACKET_SIZE);
            items == ItemsAll(sent) <==> forall b :: b in sent ==> Speakable(b)
  {
    var bytes := Build(packet, rank);
    ghost var laid := Laid(packet, rank);
    LaidBuildable(packet, rank);
    WrittenReadsBack(laid, IP_PACKET_SIZE);
    FittingAmong(laid, 0, IP_PACKET_SIZE);
    assert laid[0] == packet.body && Fitting(laid, 0, IP_PACKET_SIZE)[0] == packet.body;
    ReportAccepted(Fitting(laid, 0, IP_PACKET_SIZE));
    items := Run(bytes, false);
  }
}
