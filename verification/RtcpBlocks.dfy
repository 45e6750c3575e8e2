/** What a compound RTCP packet means (RFC 3550, section 6; RFC 4585, section 6), block by block and octet by
    octet: which blocks give items, and which octets an item comes from. */
module RtcpBlocks {
  import opened Bytes
  import opened Rtcp
  import opened Sequences
  import opened Wrappers
  import Words

  /** The number of octets a header says its block has, of which the reader keeps 16 bits. */
  function Size(data: seq<byte>, p: nat): nat
    requires p + 4 <= |data|
  {
    (data[p + 2] as int * 0x100 + data[p + 3] as int + 1) % 0x4000 * 4
  }

  /** The format or count in a header. */
  function Format(data: seq<byte>, p: nat): nat
    requires p + 4 <= |data|
  {
    data[p] as int % 0x20
  }

  /** A whole block of version 2 stands at `p`, and it is not a report that is too short. */
  predicate There(data: seq<byte>, p: nat) {
    && p + 4 <= |data| && data[p] as int / 0x40 == 2 && Size(data, p) > 0 && p + Size(data, p) <= |data|
    && !(data[p + 1] == 200 && Size(data, p) < 28) && !(data[p + 1] == 201 && Size(data, p) < 8)
  }

  /** Where the blocks of a packet begin. */
  function Starts(data: seq<byte>, p: nat): seq<nat>
    decreases |data| - p
  {
    if There(data, p) then [p] + Starts(data, p + Size(data, p)) else []
  }

  /** The header as the reader sees it. */
  lemma HeaderThere(data: seq<byte>, p: nat)
    requires p <= |data|
    ensures There(data, p) ==>
              ParseHeader(data, p) ==
              Some(Header(2, data[p] as int / 0x20 % 2 == 1, Format(data, p), data[p + 1], Size(data, p)))
    ensures There(data, p) ==> p + 4 <= p + Size(data, p) <= |data|
    ensures !There(data, p) ==>
              match ParseHeader(data, p)
              case None => true
              case Some(h) =>
                p + h.length > |data| || (h.kind == 200 && h.length < 28) || (h.kind == 201 && h.length < 8)
  {
    if p + 4 <= |data| {
      WordLength(Get16(data, p + 2) + 1);
    }
  }

  /** Where no such block stands the packet is over. */
  lemma {:induction false} NoBlock(data: seq<byte>, p: nat)
    requires p <= |data| && !There(data, p)
    ensures Compound(data, p) == []
  {
    HeaderThere(data, p);
  }

  /** The items of a block, and those behind it. */
  lemma {:induction false} BlockThere(data: seq<byte>, p: nat) returns (h: Header, e: nat)
    requires There(data, p)
    ensures h == Header(2, data[p] as int / 0x20 % 2 == 1, Format(data, p), data[p + 1], Size(data, p))
    ensures p + 4 <= e == p + Size(data, p) <= |data| && (e - p) % 4 == 0
    ensures Compound(data, p) == Block(data, p, e, h) + Compound(data, e)
  {
    HeaderThere(data, p);
    h, e := ParseHeader(data, p).value, p + Size(data, p);
  }

  // ---- Blocks that are passed over ---------------------------------------------------------------------

  /** Types other than 200 to 206, transport feedback other than generic NACK, payload feedback other than
      application layer feedback, and blocks without room for their own fields. */
  predicate PassedOver(data: seq<byte>, p: nat)
    requires There(data, p)
  {
    var kind, format, size := data[p + 1] as int, Format(data, p), Size(data, p);
    || kind < 200 || kind > 206
    || (kind == 202 && size < 8)
    || (kind == 203 && (size < 8 || format == 0))
    || (kind == 204 && size < 12)
    || (kind == 205 && (size < 12 || format != 1))
    || (kind == 206 && (size < 12 || format != 15))
  }

  /** Such a block adds no item, and the run goes on behind it. */
  lemma PassesOver(data: seq<byte>, p: nat)
    requires There(data, p) && PassedOver(data, p)
    ensures Compound(data, p) == Compound(data, p + Size(data, p))
  {
    hide There, Compound;
    var h, e := BlockThere(data, p);
    NothingIn(data, p, e, h);
    assert [] + Compound(data, e) == Compound(data, e);
  }

  lemma NothingIn(data: seq<byte>, p: nat, e: nat, h: Header)
    requires There(data, p) && PassedOver(data, p) && e == p + Size(data, p)
    requires h == Header(2, data[p] as int / 0x20 % 2 == 1, Format(data, p), data[p + 1], Size(data, p))
    ensures p + 4 <= e <= |data| && Block(data, p, e, h) == []
  {}

  // ---- Blocks that give items --------------------------------------------------------------------------

  function ReportIn(data: seq<byte>, q: nat): Item
    requires q + 24 <= |data|
  {
    ReportItem(ReportBlock(Get32(data, q), data[q + 4], Get24(data, q + 5), Get32(data, q + 8),
                           Get32(data, q + 12), Get32(data, q + 16), Get32(data, q + 20)))
  }

  /** Report blocks, as many as announced or as find room. */
  function ReportsIn(data: seq<byte>, q: nat, n: nat): (items: seq<Item>)
    requires q + 24 * n <= |data|
    ensures |items| == n
  {
    seq(n, i requires 0 <= i < n => ReportIn(data, q + 24 * i))
  }

  function Least(a: nat, b: nat): nat {
    if a <= b then a else b
  }

  lemma {:induction false} ReportsAre(data: seq<byte>, q: nat, e: nat, n: nat)
    requires q <= e <= |data|
    ensures var k := Least(n, (e - q) / 24); q + 24 * k <= e && Reports(data, q, e, n) == ReportsIn(data, q, k)
    decreases n
  {
    if e - q >= 24 && n > 0 {
      hide ReportsIn;
      ReportsAre(data, q + 24, e, n - 1);
      assert (e - (q + 24)) / 24 == (e - q) / 24 - 1;
      ReportFirst(data, q, Least(n, (e - q) / 24));
    }
  }

  lemma ReportFirst(data: seq<byte>, q: nat, k: nat)
    requires k > 0 && q + 24 * k <= |data|
    ensures ReportsIn(data, q, k) == [ReportIn(data, q)] + ReportsIn(data, q + 24, k - 1)
  {
    hide ReportIn;
    var rest := ReportsIn(data, q + 24, k - 1);
    forall i | 0 <= i < k - 1 ensures rest[i] == ReportsIn(data, q, k)[i + 1] {
      assert q + 24 + 24 * i == q + 24 * (i + 1);
    }
  }

  lemma SenderReportRead(data: seq<byte>, p: nat)
    requires There(data, p) && data[p + 1] == 200
    ensures var e, n := p + Size(data, p), Format(data, p);
            && p + 28 <= e <= |data| && p + 28 + 24 * Least(n, (e - p - 28) / 24) <= e
            && Compound(data, p) ==
               [SrItem(Get32(data, p + 4), n,
                       SenderInfo(Get32(data, p + 8), Get32(data, p + 12), Get32(data, p + 16),
                                  Get32(data, p + 20), Get32(data, p + 24)))] +
               ReportsIn(data, p + 28, Least(n, (e - p - 28) / 24)) + Compound(data, e)
  {
    hide Compound, Reports, Get32, Block, ReportsIn, Size, Format;
    var h, e := BlockThere(data, p);
    SrBlock(data, p, e, h);
    ReportsAre(data, p + 28, e, h.count);
  }

  lemma {:induction false} SrBlock(data: seq<byte>, p: nat, e: nat, h: Header)
    requires p + 28 <= e <= |data| && e == p + h.length && h.kind == 200
    ensures Block(data, p, e, h) ==
            [SrItem(Get32(data, p + 4), h.count,
                    SenderInfo(Get32(data, p + 8), Get32(data, p + 12), Get32(data, p + 16),
                               Get32(data, p + 20), Get32(data, p + 24)))] + Reports(data, p + 28, e, h.count)
  {
    hide Get32, Reports;
  }

  lemma ReceiverReportRead(data: seq<byte>, p: nat)
    requires There(data, p) && data[p + 1] == 201
    ensures var e, n := p + Size(data, p), Format(data, p);
            && p + 8 <= e <= |data| && p + 8 + 24 * Least(n, (e - p - 8) / 24) <= e
            && Compound(data, p) ==
               [RrItem(Get32(data, p + 4), n)] + ReportsIn(data, p + 8, Least(n, (e - p - 8) / 24)) + Compound(data, e)
  {
    hide Compound, Reports, Get32, Block, ReportsIn, Size, Format;
    var h, e := BlockThere(data, p);
    RrBlock(data, p, e, h);
    ReportsAre(data, p + 8, e, h.count);
  }

  lemma {:induction false} RrBlock(data: seq<byte>, p: nat, e: nat, h: Header)
    requires p + 8 <= e <= |data| && e == p + h.length && h.kind == 201
    ensures Block(data, p, e, h) == [RrItem(Get32(data, p + 4), h.count)] + Reports(data, p + 8, e, h.count)
  {}

  lemma ByeRead(data: seq<byte>, p: nat)
    requires There(data, p) && data[p + 1] == 203 && Size(data, p) >= 8 && Format(data, p) > 0
    ensures Compound(data, p) == [ByeItem(Get32(data, p + 4))] + Compound(data, p + Size(data, p))
  {
    hide Compound, Get32;
    var h, e := BlockThere(data, p);
  }

  /** The packet ids and masks of a generic NACK. */
  function FieldsIn(data: seq<byte>, q: nat, n: nat): (items: seq<Item>)
    requires q + 4 * n <= |data|
    ensures |items| == n
  {
    seq(n, i requires 0 <= i < n => NackItem(NackField(Get16(data, q + 4 * i), Get16(data, q + 4 * i + 2))))
  }

  lemma {:induction false} FieldsAre(data: seq<byte>, q: nat, e: nat)
    requires q <= e <= |data|
    ensures NackItems(data, q, e) == FieldsIn(data, q, (e - q) / 4)
    decreases e - q
  {
    if e - q >= 4 {
      FieldsAre(data, q + 4, e);
      var k := (e - q) / 4;
      assert (e - (q + 4)) / 4 == k - 1;
      var rest := FieldsIn(data, q + 4, k - 1);
      forall i | 0 <= i < k - 1 ensures rest[i] == FieldsIn(data, q, k)[i + 1] {
        assert q + 4 + 4 * i == q + 4 * (i + 1);
      }
      assert FieldsIn(data, q, k) == [FieldsIn(data, q, k)[0]] + rest;
    }
  }

  /** Transport feedback of format 1. */
  lemma NackRead(data: seq<byte>, p: nat)
    requires There(data, p) && data[p + 1] == 205 && Format(data, p) == 1 && Size(data, p) >= 12
    ensures var e := p + Size(data, p);
            && p + 12 + 4 * ((e - p - 12) / 4) <= |data|
            && Compound(data, p) ==
               [NackHead(Get32(data, p + 4), Get32(data, p + 8))] + FieldsIn(data, p + 12, (e - p - 12) / 4) +
               Compound(data, e)
  {
    hide Compound, Get32, NackItems, Block, There, Size, Format;
    var h, e := BlockThere(data, p);
    NackBlock(data, p, e, h);
    FieldsAre(data, p + 12, e);
  }

  lemma {:induction false} NackBlock(data: seq<byte>, p: nat, e: nat, h: Header)
    requires p + 12 <= e <= |data| && e == p + h.length && h.kind == 205 && h.count == 1
    ensures Block(data, p, e, h) == [NackHead(Get32(data, p + 4), Get32(data, p + 8))] + NackItems(data, p + 12, e)
  {}

  /** The data of an application block in pieces of 128 octets, the last one shorter. */
  function PiecesIn(data: seq<byte>, q: nat, e: nat): (items: seq<Item>)
    requires q <= e <= |data|
    ensures |items| == (e - q + 127) / 128
  {
    seq((e - q + 127) / 128, i requires 0 <= i < (e - q + 127) / 128 =>
      AppItem(data[q + 128 * i..Least(q + 128 * i + 128, e)]))
  }

  lemma {:induction false} PiecesAre(data: seq<byte>, q: nat, e: nat)
    requires q <= e <= |data| && (e - q) % 4 == 0
    ensures AppItems(data, q, e) == PiecesIn(data, q, e)
    decreases e - q
  {
    if e - q > 128 {
      PiecesAre(data, q + 128, e);
      PieceFirst(data, q, e);
    } else if e > q {
      assert PiecesIn(data, q, e) == [AppItem(data[q..e])];
      assert AppItems(data, e, e) == [];
    }
  }

  lemma PieceFirst(data: seq<byte>, q: nat, e: nat)
    requires q + 128 < e <= |data|
    ensures PiecesIn(data, q, e) == [AppItem(data[q..q + 128])] + PiecesIn(data, q + 128, e)
  {
    var k, all, rest := (e - q + 127) / 128, PiecesIn(data, q, e), PiecesIn(data, q + 128, e);
    assert (e - (q + 128) + 127) / 128 == k - 1;
    forall i | 0 <= i < k - 1 ensures rest[i] == all[i + 1] {
      assert q + 128 + 128 * i == q + 128 * (i + 1);
    }
    assert all[0] == AppItem(data[q..q + 128]);
  }

  lemma AppRead(data: seq<byte>, p: nat)
    requires There(data, p) && data[p + 1] == 204 && Size(data, p) >= 12
    ensures var e := p + Size(data, p);
            && p + 12 <= e <= |data|
            && Compound(data, p) ==
               [AppHead(Format(data, p), Get32(data, p + 8))] + PiecesIn(data, p + 12, e) + Compound(data, e)
  {
    hide Compound, Get32, AppItems, Block, There, Size, Format;
    var h, e := BlockThere(data, p);
    AppBlock(data, p, e, h);
    PiecesAre(data, p + 12, e);
  }

  lemma {:induction false} AppBlock(data: seq<byte>, p: nat, e: nat, h: Header)
    requires p + 12 <= e <= |data| && e == p + h.length && h.kind == 204
    ensures Block(data, p, e, h) == [AppHead(h.count, Get32(data, p + 8))] + AppItems(data, p + 12, e)
  {}

  /** The octets of R, E, M, B. */
  predicate RembAt(data: seq<byte>, q: nat) {
    q + 4 <= |data| && data[q] == 0x52 && data[q + 1] == 0x45 && data[q + 2] == 0x4D && data[q + 3] == 0x42
  }

  /** Estimated bit rates: a number of sources, six bits of exponent, 18 of mantissa, and the sources. */
  function RatesIn(data: seq<byte>, q: nat, e: nat): seq<Item>
    requires q <= e <= |data|
    decreases e - q
  {
    if q + 4 > e || q + 4 + 4 * data[q] as int > e then []
    else
      var n := data[q] as int;
      var mantissa := data[q + 1] as int % 4 * 0x1_0000 + data[q + 2] as int * 0x100 + data[q + 3] as int;
      [RembItem(Words.Shl(mantissa, data[q + 1] as int / 4),
                seq(n, i requires 0 <= i < n => Get32(data, q + 4 + 4 * i)))] + RatesIn(data, q + 4 + 4 * n, e)
  }

  lemma {:induction false} SourcesAre(data: seq<byte>, q: nat, n: nat)
    requires q + 4 * n <= |data|
    ensures ReadWords(data, q, n) == seq(n, i requires 0 <= i < n => Get32(data, q + 4 * i))
    decreases n
  {
    if n > 0 {
      SourcesAre(data, q + 4, n - 1);
      var rest, all := ReadWords(data, q + 4, n - 1), seq(n, i requires 0 <= i < n => Get32(data, q + 4 * i));
      forall i | 0 <= i < n - 1 ensures rest[i] == all[i + 1] {
        assert q + 4 + 4 * i == q + 4 * (i + 1);
      }
    }
  }

  lemma {:induction false} RatesAre(data: seq<byte>, q: nat, e: nat)
    requires q <= e <= |data|
    ensures RembItems(data, q, e) == RatesIn(data, q, e)
    decreases e - q
  {
    hide Get32, ReadWords, RembItems, RatesIn;
    RateFirst(data, q, e);
    if e - q >= 4 && e - q - 4 >= 4 * data[q] as int {
      RatesAre(data, q + 4 + 4 * data[q] as int, e);
    }
  }

  lemma {:induction false} RateFirst(data: seq<byte>, q: nat, e: nat)
    requires q <= e <= |data|
    ensures if e - q < 4 || e - q - 4 < 4 * data[q] as int then RembItems(data, q, e) == RatesIn(data, q, e) == []
            else
              var next := q + 4 + 4 * data[q] as int;
              var item := RembItem(ReadRate(data, q + 1), ReadWords(data, q + 4, data[q]));
              RembItems(data, q, e) == [item] + RembItems(data, next, e) &&
              RatesIn(data, q, e) == [item] + RatesIn(data, next, e)
  {
    hide Get32, ReadWords;
    if e - q >= 4 && e - q - 4 >= 4 * data[q] as int {
      SourcesAre(data, q + 4, data[q]);
    }
  }

  /** Payload feedback of format 15. */
  lemma PsfbRead(data: seq<byte>, p: nat)
    requires There(data, p) && data[p + 1] == 206 && Format(data, p) == 15 && Size(data, p) >= 12
    ensures var e := p + Size(data, p);
            && p + 12 <= e <= |data| && (RembAt(data, p + 12) && e >= p + 16 ==> p + 16 <= |data|)
            && Compound(data, p) ==
               [PsfbHead(Get32(data, p + 4), Get32(data, p + 8))] +
               (if e >= p + 16 && RembAt(data, p + 12) then [RembHead] + RatesIn(data, p + 16, e) else []) +
               Compound(data, e)
  {
    hide Compound, Get32, RembItems, Block, There, Size, Format, PsfbItems, RembAt;
    var h, e := BlockThere(data, p);
    PsfbBlock(data, p, e, h);
    if e >= p + 16 { RatesAre(data, p + 16, e); }
  }

  lemma {:induction false} PsfbBlock(data: seq<byte>, p: nat, e: nat, h: Header)
    requires p + 12 <= e <= |data| && e == p + h.length && h.kind == 206 && h.count == 15
    ensures Block(data, p, e, h) ==
            [PsfbHead(Get32(data, p + 4), Get32(data, p + 8))] +
            if e >= p + 16 && RembAt(data, p + 12) then [RembHead] + RembItems(data, p + 16, e) else []
  {
    hide RembItems, Get32;
    if e >= p + 16 {
      assert data[p + 12..p + 16] == [data[p + 12], data[p + 13], data[p + 14], data[p + 15]];
    }
  }

  /** A receiver report without blocks, and then transport feedback of a format other than 1: only the
      report is read. */
  lemma {:induction false} FeedbackPassed(data: seq<byte>)
    requires |data| == 28 && data[0] == 0x80 && data[1] == 201 && data[2] == 0 && data[3] == 1
    requires 0x80 <= data[8] < 0xA0 && data[8] != 0x81 && data[9] == 205 && data[10] == 0 && data[11] == 4
    ensures Compound(data, 0) == [RrItem(Get32(data, 4), 0)]
  {
    hide Compound, Get32;
    assert Size(data, 0) == 8 && Size(data, 8) == 20 && Format(data, 0) == 0 && Format(data, 8) != 1;
    ReceiverReportRead(data, 0);
    PassesOver(data, 8);
    NoBlock(data, 28);
    assert ReportsIn(data, 8, 0) == [];
  }

  /** Such as a request for a lower rate (TMMBR, RFC 5104, section 4.2.1). */
  lemma RateRequestPassed()
    ensures var data := [0x80, 0xC9, 0, 1, 0, 0, 0, 1, 0x83, 0xCD, 0, 4, 0, 0, 0, 1,
                         0, 0, 0, 2, 0, 0, 0, 2, 0x12, 0x34, 0x56, 0x78];
            Compound(data, 0) == [RrItem(1, 0)]
  {
    hide Compound;
    FeedbackPassed([0x80, 0xC9, 0, 1, 0, 0, 0, 1, 0x83, 0xCD, 0, 4, 0, 0, 0, 1,
                    0, 0, 0, 2, 0, 0, 0, 2, 0x12, 0x34, 0x56, 0x78]);
  }

  // ---- Source descriptions -----------------------------------------------------------------------------

  /** An item of a chunk: 1 is the CNAME, other types are passed over. */
  datatype SdesEntry = SdesEntry(kind: byte, text: seq<byte>)

  function EntryBytes(x: SdesEntry): seq<byte> {
    [x.kind, |x.text| % 0x100] + x.text
  }

  /** A chunk: its source, its items, and null octets up to a 32-bit boundary. */
  datatype SourceChunk = SourceChunk(ssrc: uint32, entries: seq<SdesEntry>)

  function SourceBytes(c: SourceChunk): seq<byte> {
    var items := Concat(EntryBytes, c.entries);
    Be32(c.ssrc) + items + Zeros(4 - |items| % 4)
  }

  predicate CharOfName(x: byte) {
    ' ' as int <= x as int <= '{' as int && x as int != '%' as int && x as int != '\\' as int
  }

  /** The reader lets through a CNAME of printable characters up to the opening brace, without percent signs
      and backslashes. */
  lemma LegalChars(name: seq<byte>)
    ensures Legal(name) <==> forall i :: 0 <= i < |name| ==> CharOfName(name[i])
  {
    forall i | 0 <= i < |name| && CharOfName(name[i]) ensures 0x20 <= name[i] <= 0x7B { CharCodes(name[i]); }
    forall i | 0 <= i < |name| && 0x20 <= name[i] <= 0x7B && name[i] != 0x25 && name[i] != 0x5C
      ensures CharOfName(name[i])
    {
      CharCodes(name[i]);
    }
  }

  lemma CharCodes(x: byte)
    ensures CharOfName(x) <==> 0x20 <= x <= 0x7B && x != 0x25 && x != 0x5C
  {}

  predicate Fair(x: SdesEntry) {
    x.kind != 0 && |x.text| <= 0xFF && (x.kind == 1 ==> forall i :: 0 <= i < |x.text| ==> CharOfName(x.text[i]))
  }

  predicate AllFair(xs: seq<SdesEntry>) {
    forall i :: 0 <= i < |xs| ==> Fair(xs[i])
  }

  /** The last CNAME counts. */
  function NameIn(xs: seq<SdesEntry>, found: Option<seq<byte>>): Option<seq<byte>> {
    if xs == [] then found else NameIn(xs[1..], if xs[0].kind == 1 then Some(xs[0].text) else found)
  }

  lemma {:induction false} EntriesScanned(data: seq<byte>, p: nat, e: nat, read: nat, found: Option<seq<byte>>,
                                          xs: seq<SdesEntry>)
    requires AllFair(xs) && At(data, p, Concat(EntryBytes, xs)) && p + |Concat(EntryBytes, xs)| < e <= |data|
    ensures var n := |Concat(EntryBytes, xs)|;
            ScanItems(data, p, e, read, found) == ScanItems(data, p + n, e, read + n, NameIn(xs, found))
    decreases xs
  {
    hide At, ScanItems, Fair;
    if xs != [] {
      var x, rest := xs[0], Concat(EntryBytes, xs[1..]);
      assert Fair(x) && AllFair(xs[1..]);
      AtSplit(data, p, EntryBytes(x), rest);
      EntryScanned(data, p, e, read, found, x);
      EntriesScanned(data, p + 2 + |x.text|, e, read + 2 + |x.text|,
                     if x.kind == 1 then Some(x.text) else found, xs[1..]);
    }
  }

  lemma {:induction false} EntryScanned(data: seq<byte>, p: nat, e: nat, read: nat, found: Option<seq<byte>>,
                                        x: SdesEntry)
    requires Fair(x) && At(data, p, EntryBytes(x)) && p + |EntryBytes(x)| < e <= |data|
    ensures ScanItems(data, p, e, read, found) ==
            ScanItems(data, p + 2 + |x.text|, e, read + 2 + |x.text|, if x.kind == 1 then Some(x.text) else found)
  {
    hide ScanItems, At;
    AtSplit(data, p, [x.kind, |x.text| % 0x100], x.text);
    AtByte(data, p, [x.kind, |x.text| % 0x100], 0);
    AtByte(data, p, [x.kind, |x.text| % 0x100], 1);
    if x.kind == 1 { NameThere(data, p + 2, e, x.text); }
    ScanStep(data, p, e, read, found);
  }

  lemma NameThere(data: seq<byte>, p: nat, e: nat, name: seq<byte>)
    requires At(data, p, name) && p + |name| < e <= |data| && forall i :: 0 <= i < |name| ==> CharOfName(name[i])
    ensures Named(data, p, e, |name|) == Some(name)
  {}

  /** One item more of a chunk. */
  lemma {:induction false} ScanStep(data: seq<byte>, p: nat, e: nat, read: nat, found: Option<seq<byte>>)
    requires p + 1 < e <= |data| && data[p] != 0 && p + 2 + data[p + 1] as int <= |data|
    ensures var len := data[p + 1] as int;
            var name := if data[p] == 1 then Named(data, p + 2, e, len) else found;
            ScanItems(data, p, e, read, found) ==
            if data[p] == 1 && name == None then None else ScanItems(data, p + 2 + len, e, read + 2 + len, name)
  {}

  lemma PaddedItems(n: nat, p: nat)
    ensures p + 1 + Padding(n + 1) == p + (4 - n % 4)
  {}

  /** A chunk with items of any kind around its CNAME gives one item, with the last CNAME; one without is
      passed over. */
  lemma {:induction false} SourceRead(data: seq<byte>, p: nat, e: nat, c: SourceChunk)
    requires AllFair(c.entries) && At(data, p, SourceBytes(c)) && p + |SourceBytes(c)| <= e <= |data|
    ensures FindChunk(data, p, e) == match NameIn(c.entries, None)
                                     case Some(name) => Some((ChunkItem(c.ssrc, name), p + |SourceBytes(c)|))
                                     case None => FindChunk(data, p + |SourceBytes(c)|, e)
  {
    hide At, ScanItems, EntryBytes, Concat, Get32, Be32;
    var items := Concat(EntryBytes, c.entries);
    var n, zeros := |items|, Zeros(4 - |items| % 4);
    AtSplit(data, p, Be32(c.ssrc) + items, zeros);
    AtSplit(data, p, Be32(c.ssrc), items);
    Read32(data, p, c.ssrc);
    AtByte(data, p + 4 + n, zeros, 0);
    EntriesScanned(data, p + 4, e, 0, None, c.entries);
    ScanStops(data, p + 4 + n, e, n, NameIn(c.entries, None));
    PaddedItems(n, p + 4 + n);
  }

  lemma {:induction false} ScanStops(data: seq<byte>, p: nat, e: nat, read: nat, found: Option<seq<byte>>)
    requires p < e <= |data| && data[p] == 0
    ensures ScanItems(data, p, e, read, found) == Some((found, p + 1 + Padding(read + 1)))
  {}

  /** The items of chunks, one for each that has a CNAME. */
  function SourcesIn(cs: seq<SourceChunk>): seq<Item> {
    if cs == [] then []
    else match NameIn(cs[0].entries, None)
         case Some(name) => [ChunkItem(cs[0].ssrc, name)] + SourcesIn(cs[1..])
         case None => SourcesIn(cs[1..])
  }

  lemma {:induction false} SourcesRead(data: seq<byte>, p: nat, e: nat, n: nat, cs: seq<SourceChunk>)
    requires At(data, p, Concat(SourceBytes, cs)) && p + |Concat(SourceBytes, cs)| == e <= |data|
    requires (forall c :: c in cs ==> AllFair(c.entries)) && |SourcesIn(cs)| <= n
    ensures Chunks(data, p, e, n) == SourcesIn(cs)
    decreases cs
  {
    hide At, FindChunk, AllFair, SourceBytes, NameIn;
    if cs == [] {
      NoSource(data, p, n);
    } else {
      var c, rest := cs[0], Concat(SourceBytes, cs[1..]);
      AtSplit(data, p, SourceBytes(c), rest);
      SourceRead(data, p, e, c);
      var q := p + |SourceBytes(c)|;
      if NameIn(c.entries, None).Some? {
        SourcesRead(data, q, e, n - 1, cs[1..]);
      } else {
        SourcesRead(data, q, e, n, cs[1..]);
        SameChunks(data, p, q, e, n);
      }
    }
  }

  lemma {:induction false} NoSource(data: seq<byte>, e: nat, n: nat)
    requires e <= |data|
    ensures Chunks(data, e, e, n) == []
  {}

  lemma {:induction false} SameChunks(data: seq<byte>, p: nat, q: nat, e: nat, n: nat)
    requires p <= q <= e <= |data| && FindChunk(data, p, e) == FindChunk(data, q, e)
    ensures Chunks(data, p, e, n) == Chunks(data, q, e, n)
  {}

  /** A block of source descriptions, whatever items its chunks hold. */
  lemma {:induction false} SdesRead(data: seq<byte>, p: nat, cs: seq<SourceChunk>)
    requires There(data, p) && data[p + 1] == 202 && cs != [] && forall c :: c in cs ==> AllFair(c.entries)
    requires At(data, p + 4, Concat(SourceBytes, cs)) && |Concat(SourceBytes, cs)| == Size(data, p) - 4
    requires |SourcesIn(cs)| <= Format(data, p)
    ensures Compound(data, p) == [SdesItem] + SourcesIn(cs) + Compound(data, p + Size(data, p))
  {
    hide Compound, Chunks, AllFair, SourcesIn;
    var h, e := BlockThere(data, p);
    assert |SourceBytes(cs[0])| >= 4;
    SourcesRead(data, p + 4, e, h.count, cs);
  }

  // ---- Where items come from ---------------------------------------------------------------------------

  /** The item comes from the block at `q`. */
  predicate From(data: seq<byte>, q: nat, item: Item)
    requires There(data, q)
  {
    var kind, format, size := data[q + 1] as int, Format(data, q), Size(data, q);
    match item
    case SrItem(ssrc, count, _) => kind == 200 && count == format && q + 8 <= |data| && ssrc == Get32(data, q + 4)
    case RrItem(ssrc, count) => kind == 201 && count == format && q + 8 <= |data| && ssrc == Get32(data, q + 4)
    case ReportItem(_) => kind == 200 || kind == 201
    case SdesItem => kind == 202
    case ChunkItem(_, _) => kind == 202
    case ByeItem(ssrc) => kind == 203 && format > 0 && q + 8 <= |data| && ssrc == Get32(data, q + 4)
    case NackHead(sender, media) =>
      kind == 205 && format == 1 && size >= 12 && sender == Get32(data, q + 4) && media == Get32(data, q + 8)
    case NackItem(_) => kind == 205 && format == 1 && size >= 12
    case AppHead(subType, tag) => kind == 204 && size >= 12 && subType == format && tag == Get32(data, q + 8)
    case AppItem(part) => kind == 204 && size >= 12 && 4 <= |part| <= 128
    case PsfbHead(sender, media) =>
      kind == 206 && format == 15 && size >= 12 && sender == Get32(data, q + 4) && media == Get32(data, q + 8)
    case RembHead => kind == 206 && format == 15 && RembAt(data, q + 12)
    case RembItem(_, ssrcs) => kind == 206 && format == 15 && RembAt(data, q + 12) && |ssrcs| <= 255
  }

  lemma {:induction false} ChunksAll(data: seq<byte>, p: nat, e: nat, n: nat)
    requires p <= e <= |data|
    ensures forall x :: x in Chunks(data, p, e, n) ==> x.ChunkItem?
    decreases n
  {
    hide ScanItems;
    if n > 0 {
      match FindChunk(data, p, e)
      case None =>
      case Some((item, q)) =>
        FoundChunk(data, p, e);
        ChunksAll(data, q, e, n - 1);
    }
  }

  lemma {:induction false} FoundChunk(data: seq<byte>, p: nat, e: nat)
    requires p <= e <= |data|
    ensures FindChunk(data, p, e).Some? ==> FindChunk(data, p, e).value.0.ChunkItem?
    decreases e - p
  {
    hide ScanItems;
    if e - p >= 4 {
      match ScanItems(data, p + 4, e, 0, None)
      case None =>
      case Some((name, q)) => if q <= e && name == None { FoundChunk(data, q, e); }
    }
  }

  lemma {:induction false} RatesAll(data: seq<byte>, q: nat, e: nat)
    requires q <= e <= |data|
    ensures forall x :: x in RatesIn(data, q, e) ==> x.RembItem? && |x.ssrcs| <= 255
    decreases e - q
  {
    if q + 4 <= e && q + 4 + 4 * data[q] as int <= e {
      RatesAll(data, q + 4 + 4 * data[q] as int, e);
    }
  }

  lemma ReportFrom(data: seq<byte>, p: nat, item: Item)
    requires There(data, p) && (data[p + 1] == 200 || data[p + 1] == 201) && item in Compound(data, p)
    requires item !in Compound(data, p + Size(data, p))
    ensures From(data, p, item)
  {
    hide Compound, Get32, Get24;
    if data[p + 1] == 200 { SenderReportRead(data, p); } else { ReceiverReportRead(data, p); }
  }

  lemma {:induction false} SdesFrom(data: seq<byte>, p: nat, item: Item)
    requires There(data, p) && data[p + 1] == 202 && item in Compound(data, p)
    requires item !in Compound(data, p + Size(data, p))
    ensures From(data, p, item)
  {
    hide Compound, Chunks, Size;
    var h, e := BlockThere(data, p);
    ChunksAll(data, p + 4, e, h.count);
  }

  lemma ByeFrom(data: seq<byte>, p: nat, item: Item)
    requires There(data, p) && data[p + 1] == 203 && !PassedOver(data, p) && item in Compound(data, p)
    requires item !in Compound(data, p + Size(data, p))
    ensures From(data, p, item)
  {
    hide Compound, Get32, Size;
    ByeRead(data, p);
  }

  lemma AppFrom(data: seq<byte>, p: nat, item: Item)
    requires There(data, p) && data[p + 1] == 204 && !PassedOver(data, p) && item in Compound(data, p)
    requires item !in Compound(data, p + Size(data, p))
    ensures From(data, p, item)
  {
    hide Compound, Get32, PiecesIn;
    AppRead(data, p);
    PiecesAll(data, p + 12, p + Size(data, p));
  }

  lemma PiecesAll(data: seq<byte>, q: nat, e: nat)
    requires q <= e <= |data| && (e - q) % 4 == 0
    ensures forall x :: x in PiecesIn(data, q, e) ==> x.AppItem? && 4 <= |x.data| <= 128
  {}

  lemma NackFrom(data: seq<byte>, p: nat, item: Item)
    requires There(data, p) && data[p + 1] == 205 && !PassedOver(data, p) && item in Compound(data, p)
    requires item !in Compound(data, p + Size(data, p))
    ensures From(data, p, item)
  {
    hide Compound, Get32, Get16, Size;
    NackRead(data, p);
  }

  lemma PsfbFrom(data: seq<byte>, p: nat, item: Item)
    requires There(data, p) && data[p + 1] == 206 && !PassedOver(data, p) && item in Compound(data, p)
    requires item !in Compound(data, p + Size(data, p))
    ensures From(data, p, item)
  {
    hide Compound, Get32, RatesIn, RembAt, Size;
    PsfbRead(data, p);
    var e := p + Size(data, p);
    if e >= p + 16 { RatesAll(data, p + 16, e); }
  }

  /** All items of a block come from it. */
  lemma AllFrom(data: seq<byte>, p: nat, item: Item)
    requires There(data, p) && item in Compound(data, p) && item !in Compound(data, p + Size(data, p))
    ensures From(data, p, item)
  {
    hide Compound, From, Size, Format;
    if PassedOver(data, p) {
      PassesOver(data, p);
    } else if data[p + 1] == 200 || data[p + 1] == 201 {
      ReportFrom(data, p, item);
    } else if data[p + 1] == 202 {
      SdesFrom(data, p, item);
    } else if data[p + 1] == 203 {
      ByeFrom(data, p, item);
    } else if data[p + 1] == 204 {
      AppFrom(data, p, item);
    } else if data[p + 1] == 205 {
      NackFrom(data, p, item);
    } else {
      PsfbFrom(data, p, item);
    }
  }

  /** Every item of a packet comes from one of its blocks, of the type and format that has such items. */
  lemma {:induction false} Origin(data: seq<byte>, p: nat, item: Item)
    requires p <= |data| && item in Compound(data, p)
    ensures exists q :: q in Starts(data, p) && There(data, q) && From(data, q, item)
    decreases |data| - p
  {
    hide Compound, From, There;
    if There(data, p) {
      StartsThere(data, p);
      var e := p + Size(data, p);
      if item in Compound(data, e) {
        Origin(data, e, item);
        var q :| q in Starts(data, e) && There(data, q) && From(data, q, item);
        assert q in Starts(data, p);
      } else {
        AllFrom(data, p, item);
        assert p in Starts(data, p);
      }
    } else {
      NoBlock(data, p);
    }
  }

  lemma {:induction false} StartsThere(data: seq<byte>, p: nat)
    requires There(data, p)
    ensures p + 4 <= p + Size(data, p) <= |data| && Starts(data, p) == [p] + Starts(data, p + Size(data, p))
  {}
}
