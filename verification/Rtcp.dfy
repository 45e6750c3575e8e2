/** RTCP packets: what a sender builds (`rtcp.h`, `rtcp_enc.cpp`), the bytes it writes, and the
    items a reader is meant to get from any bytes (`rtcp_dec.cpp`). */
module Rtcp {
  import opened Bytes
  import opened Wrappers
  import Numbers
  import Words

  const PT_SR: byte := 200
  const PT_RR: byte := 201
  const PT_SDES: byte := 202
  const PT_BYE: byte := 203
  const PT_APP: byte := 204
  const PT_RTPFB: byte := 205
  const PT_PSFB: byte := 206

  const APP_DATA_SIZE := 128

  datatype SenderInfo = SenderInfo(ntpSec: uint32, ntpFrac: uint32, rtpTimestamp: uint32,
                                   packetCount: uint32, octetCount: uint32)

  datatype ReportBlock = ReportBlock(ssrc: uint32, fractionLost: byte, cumulativeLost: uint32,
                                     highestSeq: uint32, jitter: uint32, lastSr: uint32, delayLastSr: uint32)

  /** One FCI entry of a generic NACK: a packet id and the mask of the 16 packets after it. */
  datatype NackField = NackField(pid: uint16, blp: uint16)

  // ---- Reading: the items in a compound packet ---------------------------------------------

  datatype Item =
    | SrItem(ssrc: uint32, count: nat, info: SenderInfo)
    | RrItem(ssrc: uint32, count: nat)
    | ReportItem(block: ReportBlock)
    | SdesItem
    | ChunkItem(ssrc: uint32, name: seq<byte>)
    | ByeItem(ssrc: uint32)
    | NackHead(sender: uint32, media: uint32)
    | NackItem(field: NackField)
    | AppHead(subType: nat, tag: uint32)
    | AppItem(data: seq<byte>)
    | PsfbHead(sender: uint32, media: uint32)
    | RembHead
    | RembItem(bitRate: uint32, ssrcs: seq<uint32>)

  datatype Header = Header(version: nat, padding: bool, count: nat, kind: byte, length: nat)

  /** `RTCPParseCommonHeader`. The length is kept in 16 bits. */
  function ParseHeader(data: seq<byte>, p: nat): (h: Option<Header>)
    ensures h.Some? ==> p + 4 <= |data| && h.value.length >= 4 && h.value.length % 4 == 0 && h.value.count <= 31
  {
    if |data| < p + 4 then None
    else
      var length := (Get16(data, p + 2) + 1) % 0x1_0000 * 4 % 0x1_0000;
      var version := data[p] / 0x40;
      if length == 0 || version != 2 then None
      else Some(Header(version, data[p] / 0x20 % 2 == 1, data[p] % 0x20, data[p + 1], length))
  }

  /** A header is taken exactly if its four octets are there, the version is 2 and the length in words,
      of which 14 bits count, is not 0. The length is then the one on the wire if that is below 2^14
      words. */
  lemma HeaderAccepted(data: seq<byte>, p: nat)
    ensures ParseHeader(data, p).Some? <==>
      p + 4 <= |data| && data[p] / 0x40 == 2 && (Get16(data, p + 2) + 1) % 0x4000 != 0
    ensures ParseHeader(data, p).Some? ==>
      var h := ParseHeader(data, p).value;
      && h.version == 2 && h.length == 4 * ((Get16(data, p + 2) + 1) % 0x4000)
      && (h.length == 4 * (Get16(data, p + 2) + 1) <==> Get16(data, p + 2) < 0x3FFF)
  {
    if p + 4 <= |data| {
      var words: nat := Get16(data, p + 2) + 1;
      WordLength(words);
    }
  }

  lemma WordLength(words: nat)
    requires words <= 0x1_0000
    ensures words % 0x1_0000 * 4 % 0x1_0000 == 4 * (words % 0x4000)
  {
    var q, r := words / 0x4000, words % 0x4000;
    if words < 0x1_0000 {
      Numbers.RemainderUnique(words * 4, 0x1_0000, q, 4 * r);
    }
  }

  /** The items from position `p` on: those of one block, and then those behind it. */
  function Compound(data: seq<byte>, p: nat): seq<Item>
    requires p <= |data|
    decreases |data| - p
  {
    match ParseHeader(data, p)
    case None => []
    case Some(h) =>
      var e := p + h.length;
      if e > |data| || (h.kind == PT_SR && h.length < 28) || (h.kind == PT_RR && h.length < 8) then []
      else Block(data, p, e, h) + Compound(data, e)
  }

  /** The items of the block from `p` to `e`. */
  function Block(data: seq<byte>, p: nat, e: nat, h: Header): seq<Item>
    requires p + 4 <= e <= |data| && e == p + h.length
    requires (h.kind == PT_SR ==> h.length >= 28) && (h.kind == PT_RR ==> h.length >= 8)
  {
    if h.kind == PT_SR then
      [SrItem(Get32(data, p + 4), h.count, ReadInfo(data, p + 8))] + Reports(data, p + 28, e, h.count)
    else if h.kind == PT_RR then
      [RrItem(Get32(data, p + 4), h.count)] + Reports(data, p + 8, e, h.count)
    else if h.kind == PT_SDES then
      if h.length < 8 then [] else [SdesItem] + Chunks(data, p + 4, e, h.count)
    else if h.kind == PT_BYE then
      Byes(data, p + 4, e, h.count)
    else if h.length < 12 then
      []
    else if h.kind == PT_RTPFB && h.count == 1 then
      [NackHead(Get32(data, p + 4), Get32(data, p + 8))] + NackItems(data, p + 12, e)
    else if h.kind == PT_PSFB && h.count == 15 then
      [PsfbHead(Get32(data, p + 4), Get32(data, p + 8))] + PsfbItems(data, p + 12, e)
    else if h.kind == PT_APP then
      [AppHead(h.count, Get32(data, p + 8))] + AppItems(data, p + 12, e)
    else
      []
  }

  function ReadInfo(data: seq<byte>, p: nat): SenderInfo
    requires p + 20 <= |data|
  {
    SenderInfo(Get32(data, p), Get32(data, p + 4), Get32(data, p + 8), Get32(data, p + 12), Get32(data, p + 16))
  }

  function ReadReport(data: seq<byte>, p: nat): ReportBlock
    requires p + 24 <= |data|
  {
    ReportBlock(Get32(data, p), data[p + 4], Get24(data, p + 5),
                Get32(data, p + 8), Get32(data, p + 12), Get32(data, p + 16), Get32(data, p + 20))
  }

  function Reports(data: seq<byte>, p: nat, e: nat, n: nat): seq<Item>
    requires p <= e <= |data|
    decreases n
  {
    if e - p < 24 || n == 0 then [] else [ReportItem(ReadReport(data, p))] + Reports(data, p + 24, e, n - 1)
  }

  /** The items of an SDES block: one for each of the first `n` chunks that have a CNAME. */
  function Chunks(data: seq<byte>, p: nat, e: nat, n: nat): seq<Item>
    requires p <= e <= |data|
    decreases n
  {
    if n == 0 then []
    else match FindChunk(data, p, e)
      case None => []
      case Some((item, q)) => [item] + Chunks(data, q, e, n - 1)
  }

  /** The next chunk with a CNAME, and the position behind it. A chunk without one is passed over
      and not counted. */
  function FindChunk(data: seq<byte>, p: nat, e: nat): (r: Option<(Item, nat)>)
    requires p <= e <= |data|
    ensures r.Some? ==> p + 4 < r.value.1 <= e
    decreases e - p
  {
    if e - p < 4 then None
    else match ScanItems(data, p + 4, e, 0, None)
      case None => None
      case Some((name, q)) =>
        if q > e then None
        else if name == None then FindChunk(data, q, e)
        else Some((ChunkItem(Get32(data, p), name.value), q))
  }

  /** The SDES items of a chunk from `p` on, `read` bytes behind the first, up to its end tag and
      the padding to a multiple of four; `found` is the last CNAME so far. In an aligned block the
      padding stays inside it. */
  function ScanItems(data: seq<byte>, p: nat, e: nat, read: nat, found: Option<seq<byte>>)
    : (r: Option<(Option<seq<byte>>, nat)>)
    requires p <= |data| && e <= |data|
    ensures r.Some? ==> p < r.value.1
    decreases |data| - p
  {
    if p >= e then None
    else if data[p] == 0 then Some((found, p + 1 + Padding(read + 1)))
    else if p + 1 >= e then None
    else
      var len := data[p + 1] as int;
      var name := if data[p] == 1 then Named(data, p + 2, e, len) else found;
      if (data[p] == 1 && name == None) || p + 2 + len > |data| then None
      else ScanItems(data, p + 2 + len, e, read + 2 + len, name)
  }

  /** The name of `len` bytes at `p`, if it passes the sanity checks. */
  function Named(data: seq<byte>, p: nat, e: nat, len: nat): Option<seq<byte>>
    requires e <= |data|
  {
    if p + len >= e || !Legal(data[p..p + len]) then None else Some(data[p..p + len])
  }

  function Padding(read: nat): nat {
    (4 - read % 4) % 4
  }

  /** The characters the reader lets through in a CNAME. */
  predicate Legal(name: seq<byte>) {
    forall i :: 0 <= i < |name| ==> 0x20 <= name[i] <= 0x7B && name[i] != 0x25 && name[i] != 0x5C
  }

  /** Only the first source of a BYE makes an item. */
  function Byes(data: seq<byte>, p: nat, e: nat, n: nat): seq<Item>
    requires p <= e <= |data|
  {
    if e - p < 4 || n == 0 then [] else [ByeItem(Get32(data, p))]
  }

  function NackItems(data: seq<byte>, p: nat, e: nat): seq<Item>
    requires p <= e <= |data|
    decreases e - p
  {
    if e - p < 4 then []
    else [NackItem(NackField(Get16(data, p), Get16(data, p + 2)))] + NackItems(data, p + 4, e)
  }

  /** The data of an APP block, in pieces of at most 128 bytes. */
  function AppItems(data: seq<byte>, p: nat, e: nat): seq<Item>
    requires p <= e <= |data|
    decreases e - p
  {
    if e - p < 4 then []
    else
      var q := if e - p > APP_DATA_SIZE then p + APP_DATA_SIZE else e;
      [AppItem(data[p..q])] + AppItems(data, q, e)
  }

  const REMB_TAG: seq<byte> := [0x52, 0x45, 0x4D, 0x42]

  function PsfbItems(data: seq<byte>, p: nat, e: nat): seq<Item>
    requires p <= e <= |data|
  {
    if e - p < 4 || data[p..p + 4] != REMB_TAG then [] else [RembHead] + RembItems(data, p + 4, e)
  }

  function RembItems(data: seq<byte>, p: nat, e: nat): seq<Item>
    requires p <= e <= |data|
    decreases e - p
  {
    if e - p < 4 || e - p - 4 < 4 * data[p] as int then []
    else [RembItem(ReadRate(data, p + 1), ReadWords(data, p + 4, data[p]))] +
         RembItems(data, p + 4 + 4 * data[p] as int, e)
  }

  /** Six bits of exponent and 18 of mantissa. */
  function ReadRate(data: seq<byte>, p: nat): uint32
    requires p + 3 <= |data|
  {
    Words.Shl(data[p] as int % 4 * 0x1_0000 + data[p + 1] as int * 0x100 + data[p + 2], data[p] / 4)
  }

  function ReadWords(data: seq<byte>, p: nat, n: nat): (ws: seq<uint32>)
    requires p + 4 * n <= |data|
    ensures |ws| == n
    decreases n
  {
    if n == 0 then [] else [Get32(data, p)] + ReadWords(data, p + 4, n - 1)
  }
}
