/** `RTCPParserV2` (`rtcp_dec.cpp`): a reader that walks a compound packet with a cursor, one item
    a call. `rest` is the sequence of items it has still to hand out. */
module RtcpReader {
  import opened Bytes
  import opened Guards
  import opened Rtcp
  import opened RtcpBlocks
  import opened Sequences
  import opened Wrappers

  datatype State =
    | TopLevel
    | InReports
    | InSdes
    | InBye
    | InNack
    | InApp
    | InPsfb
    | InRemb

  /** What the reader has to hand out from the inside of a block. */
  ghost function Inside(data: seq<byte>, state: State, p: nat, e: nat, n: nat): seq<Item>
    requires p <= e <= |data|
  {
    match state
    case TopLevel => []
    case InReports => Reports(data, p, e, n)
    case InSdes => Chunks(data, p, e, n)
    case InBye => Byes(data, p, e, n)
    case InNack => NackItems(data, p, e)
    case InApp => AppItems(data, p, e)
    case InPsfb => PsfbItems(data, p, e)
    case InRemb => RembItems(data, p, e)
  }

  class Parser {
    const data: seq<byte>
    const reducedSize: bool
    var validPacket: bool
    var cursor: nat
    var blockEnd: nat
    var state: State
    var numberOfBlocks: nat
    /** `_packetType` and `_packet`: the item last read. */
    var item: Option<Item>

    /** The items still to be handed out. */
    ghost var rest: seq<Item>

    /** The cursor is inside the packet, not behind the block end, and aligned to it. */
    ghost predicate Placed()
      reads this
    {
      && cursor <= |data| && cursor <= blockEnd
      && cursor % 4 == 0 && blockEnd % 4 == 0
      && (state != TopLevel ==> blockEnd <= |data|)
      && numberOfBlocks <= 31
    }

    ghost predicate Valid()
      reads this
    {
      Placed() && if validPacket then Due(rest, data, state, cursor, blockEnd, numberOfBlocks) else rest == []
    }

    constructor (data: seq<byte>, reducedSize: bool)
      ensures Valid() && this.data == data && this.reducedSize == reducedSize
      ensures state == TopLevel && rest == ToRead(data, reducedSize)
      ensures validPacket <==> Accepted(data, reducedSize)
    {
      this.data, this.reducedSize := data, reducedSize;
      validPacket, cursor, blockEnd, state, numberOfBlocks, item := false, 0, 0, TopLevel, 0, None;
      rest := ToRead(data, reducedSize);
      new;
      Validate();
    }

    method Validate()
      modifies this`validPacket
      ensures validPacket <==> old(validPacket) || Accepted(data, reducedSize)
    {
      match ParseHeader(data, 0)
      case None =>
      case Some(h) =>
        if !reducedSize {
          if h.kind != PT_SR && h.kind != PT_RR { return; }
        }
        validPacket := true;
    }

    // ---- Primitive moves ---------------------------------------------------------------------

    method EndCurrentBlock()
      modifies this`cursor
      ensures cursor == blockEnd
    {
      cursor := blockEnd;
    }

    /** Reads four bytes and moves on. */
    method Next32() returns (v: uint32)
      requires cursor + 4 <= |data|
      modifies this`cursor
      ensures v == Get32(data, old(cursor)) && cursor == old(cursor) + 4
    {
      v := data[cursor] as int * 0x100_0000;
      v := v + data[cursor + 1] as int * 0x1_0000;
      v := v + data[cursor + 2] as int * 0x100;
      v := v + data[cursor + 3];
      cursor := cursor + 4;
    }

    method NextWords(n: nat) returns (ws: seq<uint32>)
      requires cursor + 4 * n <= |data|
      modifies this`cursor
      ensures ws == ReadWords(data, old(cursor), n) && cursor == old(cursor) + 4 * n
    {
      ws := [];
      var i := 0;
      while i < n
        invariant 0 <= i <= n && cursor == old(cursor) + 4 * i
        invariant ws + ReadWords(data, cursor, n - i) == ReadWords(data, old(cursor), n)
      {
        var w := Next32();
        ws := ws + [w];
        i := i + 1;
      }
    }

    /** The block ends here: the reader is back at the top level, behind it. */
    method Leave() returns (ok: bool)
      modifies this`cursor, this`state
      ensures !ok && state == TopLevel && cursor == blockEnd
    {
      state := TopLevel;
      EndCurrentBlock();
      ok := false;
    }

    /** The cursor is at an aligned place inside a block. */
    ghost predicate InBlock(s: State)
      reads this
    {
      state == s && cursor <= blockEnd <= |data| && cursor % 4 == 0 && blockEnd % 4 == 0
    }

    /** The item read is the first of `before`, `after` are the others, and the cursor has moved at
        least four bytes. */
    ghost predicate Took(before: seq<Item>, after: seq<Item>, start: nat)
      reads this
    {
      item.Some? && before == [item.value] + after && cursor >= start + 4
    }

    /** The reader is behind the block, of which nothing was left. */
    ghost predicate Left(before: seq<Item>)
      reads this
    {
      state == TopLevel && cursor == blockEnd && before == []
    }

    // ---- Items inside a block ------------------------------------------------------------------

    method ParseReportBlockItem() returns (ok: bool)
      requires InBlock(InReports) && numberOfBlocks <= 31
      modifies this`cursor, this`state, this`numberOfBlocks, this`item
      ensures if ok then InBlock(InReports) &&
              Took(Reports(data, old(cursor), blockEnd, old(numberOfBlocks)),
                   Reports(data, cursor, blockEnd, numberOfBlocks), old(cursor))
              else Left(Reports(data, old(cursor), blockEnd, old(numberOfBlocks)))
      ensures numberOfBlocks <= 31
    {
      hide Get24, Get32;
      if blockEnd - cursor < 24 || numberOfBlocks <= 0 {
        ok := Leave();
        return;
      }
      var ssrc := Next32();
      var fractionLost := data[cursor];
      var cumulativeLost := Get24(data, cursor + 1);
      cursor := cursor + 4;
      var highestSeq := Next32();
      var jitter := Next32();
      var lastSr := Next32();
      var delayLastSr := Next32();
      numberOfBlocks := numberOfBlocks - 1;
      item := Some(ReportItem(
        ReportBlock(ssrc, fractionLost, cumulativeLost, highestSeq, jitter, lastSr, delayLastSr)));
      ok := true;
    }

    method ParseNackItem() returns (ok: bool)
      requires InBlock(InNack)
      modifies this`cursor, this`state, this`item
      ensures if ok then InBlock(InNack) &&
              Took(NackItems(data, old(cursor), blockEnd), NackItems(data, cursor, blockEnd), old(cursor))
              else Left(NackItems(data, old(cursor), blockEnd))
    {
      if blockEnd - cursor < 4 {
        ok := Leave();
        return;
      }
      item := Some(NackItem(NackField(Get16(data, cursor), Get16(data, cursor + 2))));
      cursor := cursor + 4;
      ok := true;
    }

    method ParseAppItem() returns (ok: bool)
      requires InBlock(InApp)
      modifies this`cursor, this`state, this`item
      ensures if ok then InBlock(InApp) &&
              Took(AppItems(data, old(cursor), blockEnd), AppItems(data, cursor, blockEnd), old(cursor))
              else Left(AppItems(data, old(cursor), blockEnd))
    {
      var length := blockEnd - cursor;
      if length < 4 {
        ok := Leave();
        return;
      }
      if length > APP_DATA_SIZE {
        item := Some(AppItem(data[cursor..cursor + APP_DATA_SIZE]));
        cursor := cursor + APP_DATA_SIZE;
      } else {
        item := Some(AppItem(data[cursor..cursor + length]));
        cursor := cursor + length;
      }
      ok := true;
    }

    method ParseByeItem() returns (ok: bool)
      requires InBlock(InBye) && numberOfBlocks <= 31
      modifies this`cursor, this`state, this`numberOfBlocks, this`item
      ensures ok <==> blockEnd - old(cursor) >= 4 && old(numberOfBlocks) > 0
      ensures ok ==> state == InBye && numberOfBlocks == 0 && item == Some(ByeItem(Get32(data, old(cursor))))
      ensures ok ==> cursor == old(cursor) + Sources(blockEnd - old(cursor), old(numberOfBlocks))
      ensures !ok ==> state == TopLevel && cursor == blockEnd && numberOfBlocks <= 31 && item == old(item)
    {
      var length := blockEnd - cursor;
      if length < 4 || numberOfBlocks == 0 {
        ok := Leave();
        return;
      }
      var ssrc := Next32();
      item := Some(ByeItem(ssrc));
      if length >= 4 * numberOfBlocks {
        cursor := cursor + (numberOfBlocks - 1) * 4;
      }
      numberOfBlocks := 0;
      ok := true;
    }

    method ParsePsfbAppItem() returns (ok: bool)
      requires InBlock(InPsfb)
      modifies this`cursor, this`state, this`item
      ensures if ok then InBlock(InRemb) &&
              Took(PsfbItems(data, old(cursor), blockEnd), RembItems(data, cursor, blockEnd), old(cursor))
              else Left(PsfbItems(data, old(cursor), blockEnd))
    {
      if blockEnd - cursor < 4 {
        ok := Leave();
        return;
      }
      ghost var tag := data[cursor..cursor + 4];
      var i := 0;
      while i < 4
        invariant 0 <= i <= 4 && tag[..i] == REMB_TAG[..i]
      {
        if data[cursor + i] != REMB_TAG[i] {
          assert tag[i] != REMB_TAG[i];
          ok := Leave();
          return;
        }
        i := i + 1;
      }
      assert tag == REMB_TAG;
      cursor := cursor + 4;
      item := Some(RembHead);
      state := InRemb;
      ok := true;
    }

    method ParsePsfbRembItem() returns (ok: bool)
      requires InBlock(InRemb)
      modifies this`cursor, this`state, this`item
      ensures if ok then InBlock(InRemb) &&
              Took(RembItems(data, old(cursor), blockEnd), RembItems(data, cursor, blockEnd), old(cursor))
              else Left(RembItems(data, old(cursor), blockEnd))
    {
      RembStep(data, cursor, blockEnd);
      ok := TakeRemb();
    }

    method TakeRemb() returns (ok: bool)
      requires InBlock(InRemb)
      modifies this`cursor, this`state, this`item
      ensures ok <==> RembThere(data, old(cursor), blockEnd)
      ensures ok ==> InBlock(InRemb) && cursor == old(cursor) + 4 + 4 * data[old(cursor)] as int
      ensures ok ==> item == Some(RembItem(ReadRate(data, old(cursor) + 1),
                                           ReadWords(data, old(cursor) + 4, data[old(cursor)])))
      ensures !ok ==> state == TopLevel && cursor == blockEnd
    {
      if blockEnd - cursor < 4 {
        ok := Leave();
        return;
      }
      var n := data[cursor] as int;
      var bitRate := ReadRate(data, cursor + 1);
      if blockEnd - (cursor + 4) < 4 * n {
        ok := Leave();
        return;
      }
      AlignedWords(cursor, 1 + n);
      cursor := cursor + 4;
      var ssrcs := NextWords(n);
      item := Some(RembItem(bitRate, ssrcs));
      ok := true;
    }

    // ---- SDES chunks -----------------------------------------------------------------------------

    /** `ParseSDESItem`: the items of one chunk. A CNAME is handed back if the end tag is reached
        behind it. */
    method ParseSdesItem() returns (found: Option<seq<byte>>, ghost result: Scan)
      requires InBlock(InSdes)
      modifies this`cursor, this`state
      ensures Scanning(result, data, old(cursor), blockEnd, 0, None)
      ensures result == None ==> found == None && state == TopLevel && cursor == blockEnd
      ensures result.Some? ==> found == result.value.0 && state == InSdes && cursor == result.value.1
      ensures result.Some? ==> old(cursor) + 4 <= result.value.1 <= blockEnd && result.value.1 % 4 == 0
    {
      hide Scanning, ScanItems, Named;
      found := None;
      var read := 0;
      ghost var e := blockEnd;
      result := ScanAligned(data, cursor, e);
      while cursor < blockEnd
        invariant blockEnd == e <= |data| && state == InSdes && cursor == old(cursor) + read
        invariant Scanning(result, data, cursor, e, read, found)
      {
        ghost var p, r := cursor, read;
        var tag := data[cursor];
        cursor, read := cursor + 1, read + 1;
        if tag == 0 {
          ScanTag(result, data, p, e, r, found);
          SkipPadding(read);
          return;
        }
        if cursor < blockEnd {
          var len: int := data[cursor];
          cursor, read := cursor + 1, read + 1;
          if tag == 1 {
            ghost var before := found;
            found := TakeName(len);
            ScanName(result, data, p, e, r, before, len, found);
            if found == None { return; }
          } else {
            ScanOther(result, data, p, e, r, found, len);
          }
          cursor, read := cursor + len, read + len;
        } else {
          ScanShort(result, data, p, e, r, found);
        }
      }
      ScanEnd(result, data, cursor, e, read, found);
      var _ := Leave();
      found := None;
    }

    /** Moves over the octets behind an end tag, up to a multiple of four octets read. */
    method SkipPadding(read: nat)
      modifies this`cursor
      ensures cursor == old(cursor) + Padding(read)
    {
      var octets := read;
      while octets % 4 != 0
        invariant octets >= read && cursor == old(cursor) + octets - read
        invariant Padding(read) == octets - read + Padding(octets)
        decreases Padding(octets)
      {
        cursor, octets := cursor + 1, octets + 1;
      }
    }

    /** The sanity checks on a CNAME of `len` bytes; the cursor is left for the caller to move. */
    method TakeName(len: nat) returns (name: Option<seq<byte>>)
      requires cursor <= blockEnd <= |data|
      modifies this`cursor, this`state
      ensures name == Named(data, old(cursor), blockEnd, len)
      ensures name == None ==> state == TopLevel && cursor == blockEnd
      ensures name != None ==> state == old(state) && cursor == old(cursor)
    {
      if cursor + len >= blockEnd {
        var _ := Leave();
        return None;
      }
      var legal := AllLegal(cursor, len);
      if !legal {
        var _ := Leave();
        return None;
      }
      name := Some(data[cursor..cursor + len]);
    }

    method AllLegal(p: nat, len: nat) returns (legal: bool)
      requires p + len <= |data|
      ensures legal <==> Legal(data[p..p + len])
    {
      ghost var name := data[p..p + len];
      var i := 0;
      while i < len
        invariant 0 <= i <= len
        invariant forall j :: 0 <= j < i ==> 0x20 <= name[j] <= 0x7B && name[j] != 0x25 && name[j] != 0x5C
      {
        var c := data[p + i];
        assert c == name[i];
        if c < 0x20 || c > 0x7B || c == 0x25 || c == 0x5C {
          return false;
        }
        i := i + 1;
      }
      return true;
    }

    method ParseSdesChunk() returns (ok: bool)
      requires InBlock(InSdes) && numberOfBlocks <= 31
      modifies this`cursor, this`state, this`numberOfBlocks, this`item
      ensures if ok then InBlock(InSdes) &&
                Took(Chunks(data, old(cursor), blockEnd, old(numberOfBlocks)),
                     Chunks(data, cursor, blockEnd, numberOfBlocks), old(cursor))
              else Left(Chunks(data, old(cursor), blockEnd, old(numberOfBlocks)))
      ensures numberOfBlocks <= 31
    {
      hide FindChunk, Finding, Scanning, ScanItems;
      if numberOfBlocks <= 0 {
        ok := Leave();
        return;
      }
      numberOfBlocks := numberOfBlocks - 1;
      ghost var next := FindChunk(data, cursor, blockEnd);
      FindingStarts(data, cursor, blockEnd);
      while cursor < blockEnd
        invariant numberOfBlocks == old(numberOfBlocks) - 1
        invariant state == TopLevel ==> cursor == blockEnd && next == None
        invariant state != TopLevel ==>
                    InBlock(InSdes) && old(cursor) <= cursor && Finding(next, data, cursor, blockEnd)
        decreases blockEnd - cursor
      {
        ghost var p := cursor;
        ChunkStep(next, data, p, blockEnd);
        if blockEnd - cursor < 4 {
          ok := Leave();
          return;
        }
        var ssrc := Next32();
        var found, result := ParseSdesItem();
        ChunkScanned(next, data, p, blockEnd, result);
        if found.Some? {
          item := Some(ChunkItem(ssrc, found.value));
          return true;
        }
      }
      if state != TopLevel { ChunkStep(next, data, cursor, blockEnd); }
      ok := Leave();
    }

    // ---- Heads of blocks ---------------------------------------------------------------------------

    /** The cursor is at the header of a block of `h.length` bytes. */
    ghost predicate AtHead(h: Header)
      reads this
    {
      && state == TopLevel && blockEnd == cursor + h.length <= |data|
      && cursor % 4 == 0 && blockEnd % 4 == 0 && h.length % 4 == 0 && h.length >= 4 && h.count <= 31
    }

    /** The reader has gone where `Enter` says, or to the block end if there is nothing to enter. */
    ghost predicate Entered(entry: Option<Entry>, ok: bool)
      reads this
    {
      match entry
      case None => !ok && state == TopLevel && cursor == blockEnd
      case Some(n) => ok && item == Some(n.item) && state == n.state && cursor == n.cursor && numberOfBlocks == n.blocks
    }

    method NextInfo() returns (info: SenderInfo)
      requires cursor + 20 <= |data|
      modifies this`cursor
      ensures info == ReadInfo(data, old(cursor)) && cursor == old(cursor) + 20
    {
      var ntpSec := Next32();
      var ntpFrac := Next32();
      var rtpTimestamp := Next32();
      var packetCount := Next32();
      var octetCount := Next32();
      info := SenderInfo(ntpSec, ntpFrac, rtpTimestamp, packetCount, octetCount);
    }

    method ParseSR(ghost h: Header) returns (ok: bool)
      requires AtHead(h) && h.kind == PT_SR && numberOfBlocks == h.count
      modifies this`cursor, this`state, this`item
      ensures ok <==> h.length >= 28
      ensures Entered(Enter(data, old(cursor), blockEnd, h, old(numberOfBlocks)), ok)
      ensures !ok ==> item == old(item)
    {
      var length := blockEnd - cursor;
      if length < 28 {
        EndCurrentBlock();
        return false;
      }
      cursor := cursor + 4;
      var ssrc := Next32();
      var info := NextInfo();
      item := Some(SrItem(ssrc, numberOfBlocks, info));
      if numberOfBlocks != 0 {
        state := InReports;
      } else {
        state := TopLevel;
        EndCurrentBlock();
      }
      ok := true;
    }

    /** A report too short for its sender stops the reader where it is. */
    method ParseRR(ghost h: Header) returns (ok: bool)
      requires AtHead(h) && h.kind == PT_RR && numberOfBlocks == h.count
      modifies this`cursor, this`state, this`item
      ensures ok <==> h.length >= 8
      ensures ok ==> Entered(Enter(data, old(cursor), blockEnd, h, old(numberOfBlocks)), ok)
      ensures !ok ==> state == TopLevel && cursor == old(cursor) && item == old(item)
    {
      var length := blockEnd - cursor;
      if length < 8 {
        return false;
      }
      cursor := cursor + 4;
      var ssrc := Next32();
      item := Some(RrItem(ssrc, numberOfBlocks));
      state := InReports;
      ok := true;
    }

    method ParseSdes(ghost h: Header) returns (ok: bool)
      requires AtHead(h) && h.kind == PT_SDES && numberOfBlocks == h.count
      modifies this`cursor, this`state, this`item
      ensures Entered(Enter(data, old(cursor), blockEnd, h, old(numberOfBlocks)), ok)
      ensures !ok ==> item == old(item)
    {
      var length := blockEnd - cursor;
      if length < 8 {
        ok := Leave();
        return;
      }
      cursor := cursor + 4;
      state := InSdes;
      item := Some(SdesItem);
      ok := true;
    }

    method ParseBye(ghost h: Header) returns (ok: bool)
      requires AtHead(h) && h.kind == PT_BYE && numberOfBlocks == h.count
      modifies this`cursor, this`state, this`numberOfBlocks, this`item
      ensures Entered(Enter(data, old(cursor), blockEnd, h, old(numberOfBlocks)), ok)
      ensures !ok ==> item == old(item)
      ensures numberOfBlocks <= 31
    {
      cursor := cursor + 4;
      state := InBye;
      ok := ParseByeItem();
    }

    method ParseFBCommon(h: Header) returns (ok: bool)
      requires AtHead(h) && (h.kind == PT_RTPFB || h.kind == PT_PSFB) && numberOfBlocks <= 31
      modifies this`cursor, this`state, this`item
      ensures Entered(Enter(data, old(cursor), blockEnd, h, old(numberOfBlocks)), ok)
      ensures !ok ==> item == old(item)
    {
      var length := blockEnd - cursor;
      if length < 12 {
        EndCurrentBlock();
        return false;
      }
      cursor := cursor + 4;
      var sender := Next32();
      var media := Next32();
      if h.kind == PT_RTPFB {
        if h.count == 1 {
          item := Some(NackHead(sender, media));
          state := InNack;
          return true;
        }
      } else if h.count == 15 {
        item := Some(PsfbHead(sender, media));
        state := InPsfb;
        return true;
      }
      EndCurrentBlock();
      ok := false;
    }

    method ParseApp(h: Header) returns (ok: bool)
      requires AtHead(h) && h.kind == PT_APP && numberOfBlocks <= 31
      modifies this`cursor, this`state, this`item
      ensures Entered(Enter(data, old(cursor), blockEnd, h, old(numberOfBlocks)), ok)
      ensures !ok ==> item == old(item)
    {
      var length := blockEnd - cursor;
      if length < 12 {
        EndCurrentBlock();
        return false;
      }
      cursor := cursor + 4;
      var _ := Next32();
      var tag := Next32();
      item := Some(AppHead(h.count, tag));
      state := InApp;
      ok := true;
    }

    // ---- Iteration ------------------------------------------------------------------------------------

    /** What one call of `Iterate` does to `before`, the items there were. */
    ghost predicate Iterated(before: seq<Item>, start: nat)
      reads this
    {
      && Valid() && cursor >= start
      && (item.Some? ==> before == [item.value] + rest && cursor >= start + 4)
      && (item.None? ==> before == [])
    }

    /** The block the cursor is at: it is entered, or skipped, or the reader halts. */
    method ParseBlock(h: Header) returns (outcome: Outcome)
      requires AtHead(h) && numberOfBlocks <= 31
      modifies this`cursor, this`state, this`numberOfBlocks, this`item
      ensures outcome.Halting? <==> Halts(h)
      ensures !outcome.Halting? ==>
              Entered(Enter(data, old(cursor), blockEnd, h, Counted(h, old(numberOfBlocks))), outcome.Taking?)
      ensures outcome.Halting? ==> state == TopLevel && (cursor == old(cursor) || cursor == blockEnd)
      ensures numberOfBlocks <= 31 && (!outcome.Taking? ==> item == old(item))
    {
      var ok;
      if h.kind == PT_SR {
        numberOfBlocks := h.count;
        ok := ParseSR(h);
        return if ok then Taking else Halting;
      } else if h.kind == PT_RR {
        numberOfBlocks := h.count;
        ok := ParseRR(h);
        return if ok then Taking else Halting;
      } else if h.kind == PT_SDES {
        numberOfBlocks := h.count;
        ok := ParseSdes(h);
      } else if h.kind == PT_BYE {
        numberOfBlocks := h.count;
        ok := ParseBye(h);
      } else if h.kind == PT_RTPFB || h.kind == PT_PSFB {
        ok := ParseFBCommon(h);
      } else if h.kind == PT_APP {
        ok := ParseApp(h);
      } else {
        EndCurrentBlock();
        ok := false;
      }
      return if ok then Taking else Skipping;
    }

    /** The same, seen from the whole packet: `before` are the items from the header on. */
    method TakeBlock(h: Header, ghost before: seq<Item>) returns (outcome: Outcome, ghost after: seq<Item>)
      requires AtHead(h) && numberOfBlocks <= 31 && ParseHeader(data, cursor) == Some(h)
      requires Due(before, data, TopLevel, cursor, blockEnd, numberOfBlocks)
      modifies this`cursor, this`state, this`numberOfBlocks, this`item
      ensures Placed() && cursor >= old(cursor)
      ensures outcome.Taking? ==> item.Some? && before == [item.value] + after && cursor >= old(cursor) + 4
      ensures Due(after, data, state, cursor, blockEnd, numberOfBlocks)
      ensures outcome.Skipping? ==> after == before
      ensures outcome.Skipping? ==> state == TopLevel && cursor == blockEnd > old(cursor)
      ensures outcome.Halting? ==> before == [] && state == TopLevel
      ensures !outcome.Taking? ==> item == old(item)
    {
      ghost var p, e := cursor, blockEnd;
      after := DueEntered(before, data, p, e, h, Counted(h, numberOfBlocks));
      EnterAligned(data, p, e, h, Counted(h, numberOfBlocks));
      outcome := ParseBlock(h);
      if outcome.Halting? {
        after := Compound(data, cursor);
      }
    }

    method IterateTopLevel()
      requires Valid() && validPacket && state == TopLevel && item == None
      modifies this`cursor, this`blockEnd, this`state, this`numberOfBlocks, this`item, this`rest
      ensures Iterated(old(rest), old(cursor))
    {
      hide ParseHeader, Due;
      while true
        invariant Valid() && state == TopLevel && item == None && cursor >= old(cursor) && rest == old(rest)
        decreases |data| - cursor
      {
        var header := ParseHeader(data, cursor);
        Unread(rest, data, cursor, blockEnd, numberOfBlocks);
        if header == None { return; }
        var h := header.value;
        HeaderFacts(data, cursor, h);
        AlignedSum(cursor, h.length);
        DueOutside(rest, data, cursor, blockEnd, cursor + h.length, numberOfBlocks);
        blockEnd := cursor + h.length;
        if blockEnd > |data| { return; }
        var outcome, after := TakeBlock(h, rest);
        rest := after;
        if outcome != Skipping { return; }
      }
    }

    /** One step inside a block: an item, or back to the top level behind the block. */
    method ParseInside() returns (ok: bool)
      requires InBlock(state) && state != TopLevel && numberOfBlocks <= 31
      modifies this`cursor, this`state, this`numberOfBlocks, this`item
      ensures var before := old(Inside(data, state, cursor, blockEnd, numberOfBlocks));
              if ok then state != TopLevel && InBlock(state) &&
                Took(before, Inside(data, state, cursor, blockEnd, numberOfBlocks), old(cursor))
              else Left(before)
      ensures numberOfBlocks <= 31
    {
      match state
      case InReports => ok := ParseReportBlockItem();
      case InSdes => ok := ParseSdesChunk();
      case InBye => ok := ParseByeItem();
      case InNack => ok := ParseNackItem();
      case InApp => ok := ParseAppItem();
      case InPsfb => ok := ParsePsfbAppItem();
      case InRemb => ok := ParsePsfbRembItem();
    }

    /** The same, seen from the whole packet. */
    method IterateInside() returns (ok: bool)
      requires Valid() && validPacket && state != TopLevel
      modifies this`cursor, this`state, this`numberOfBlocks, this`item, this`rest
      ensures if ok then item.Some? && Iterated(old(rest), old(cursor))
              else Valid() && state == TopLevel && rest == old(rest) && cursor >= old(cursor)
    {
      ghost var s, p, e, n := state, cursor, blockEnd, numberOfBlocks;
      AlignedGap(e, p);
      ok := ParseInside();
      if ok {
        AlignedGap(e, cursor);
        rest := DueTook(rest, data, s, p, e, n, item.value, state, cursor, numberOfBlocks);
      } else {
        DueLeft(rest, data, s, p, e, n, numberOfBlocks);
      }
    }

    /** The next item, or none: then the run is over. */
    method Iterate()
      requires Valid()
      modifies this`cursor, this`blockEnd, this`state, this`numberOfBlocks, this`item, this`rest
      ensures Iterated(old(rest), old(cursor))
      decreases if state == TopLevel then 0 else 1
    {
      item := None;
      if validPacket {
        if state == TopLevel {
          IterateTopLevel();
        } else {
          var ok := IterateInside();
          if !ok { Iterate(); }
        }
      }
    }

    /** Puts the cursor back at the beginning of the packet. The state stays: inside a block its kind of
        items is looked for from there on, up to the old block end. */
    method Begin()
      requires Valid()
      modifies this`cursor, this`blockEnd, this`state, this`numberOfBlocks, this`item, this`rest
      ensures Iterated(old(Rewound()), 0)
    {
      rest := Rewound();
      cursor := 0;
      Iterate();
    }

    /** What there is to hand out when the cursor alone is put back. */
    ghost function Rewound(): seq<Item>
      reads this
      requires Valid()
    {
      if !validPacket then []
      else if state == TopLevel then Compound(data, 0)
      else Inside(data, state, 0, blockEnd, numberOfBlocks) + Compound(data, blockEnd)
    }
  }

  /** What a reader of the packet should hand out. */
  ghost function ToRead(data: seq<byte>, reducedSize: bool): seq<Item> {
    if Accepted(data, reducedSize) then Compound(data, 0) else []
  }

  /** A run: all items, up to the first call that gives none (`RTCP::parse_rtcp_packet`). Each takes
      at least four bytes. */
  method Run(data: seq<byte>, reducedSize: bool) returns (items: seq<Item>)
    ensures items == ToRead(data, reducedSize)
    ensures 4 * |items| <= |data|
    ensures forall item :: item in items ==> exists q :: q in Starts(data, 0) && There(data, q) && From(data, q, item)
    ensures items != [] ==> |data| >= 4 && (reducedSize || data[1] == 200 || data[1] == 201)
  {
    hide Compound, Due, Inside, Accepted, Starts, There, From;
    var parser := new Parser(data, reducedSize);
    ghost var all := ToRead(data, reducedSize);
    items := [];
    parser.Begin();
    while parser.item.Some?
      invariant parser.Valid() && parser.data == data && fresh(parser)
      invariant parser.item.Some? ==>
        4 * |items| + 4 <= parser.cursor && items + [parser.item.value] + parser.rest == all
      invariant parser.item.None? ==> 4 * |items| <= |data| && items == all
      decreases parser.item.Some?, |data| - parser.cursor
    {
      items := items + [parser.item.value];
      parser.Iterate();
    }
    AllOrigins(data, reducedSize);
  }

  /** Where the items come from, and when there are any. */
  lemma {:induction false} AllOrigins(data: seq<byte>, reducedSize: bool)
    ensures forall item :: item in ToRead(data, reducedSize) ==>
              exists q :: q in Starts(data, 0) && There(data, q) && From(data, q, item)
    ensures ToRead(data, reducedSize) != [] ==> |data| >= 4 && (reducedSize || data[1] == 200 || data[1] == 201)
  {
    hide Compound, Starts, There, From;
    forall item | item in ToRead(data, reducedSize)
      ensures exists q :: q in Starts(data, 0) && There(data, q) && From(data, q, item)
    {
      Origin(data, 0, item);
    }
  }

  datatype Outcome = Taking | Skipping | Halting

  /** `rest` is what a reader in this state has still to hand out. */
  ghost predicate Due(rest: seq<Item>, data: seq<byte>, state: State, p: nat, e: nat, n: nat) {
    forall b :: Look(b) ==>
      p <= |data| &&
      if state == TopLevel then rest == Compound(data, p)
      else p <= e <= |data| && rest == Inside(data, state, p, e, n) + Compound(data, e)
  }

  /** Where the head of a block leaves the reader: the item it gives, and the state, cursor and
      number of blocks for those inside. */
  datatype Entry = Entry(item: Item, state: State, cursor: nat, blocks: nat)

  ghost function Enter(data: seq<byte>, p: nat, e: nat, h: Header, n: nat): Option<Entry>
    requires p + 4 <= e <= |data| && e == p + h.length
  {
    if h.kind == PT_SR && h.length >= 28 then
      var item := SrItem(Get32(data, p + 4), n, ReadInfo(data, p + 8));
      Some(if n == 0 then Entry(item, TopLevel, e, n) else Entry(item, InReports, p + 28, n))
    else if h.kind == PT_RR && h.length >= 8 then
      Some(Entry(RrItem(Get32(data, p + 4), n), InReports, p + 8, n))
    else if h.kind == PT_SDES && h.length >= 8 then
      Some(Entry(SdesItem, InSdes, p + 4, n))
    else if h.kind == PT_BYE && h.length >= 8 && n > 0 then
      Some(Entry(ByeItem(Get32(data, p + 4)), InBye, p + 4 + Sources(h.length - 4, n), 0))
    else if h.kind == PT_RTPFB && h.length >= 12 && h.count == 1 then
      Some(Entry(NackHead(Get32(data, p + 4), Get32(data, p + 8)), InNack, p + 12, n))
    else if h.kind == PT_PSFB && h.length >= 12 && h.count == 15 then
      Some(Entry(PsfbHead(Get32(data, p + 4), Get32(data, p + 8)), InPsfb, p + 12, n))
    else if h.kind == PT_APP && h.length >= 12 then
      Some(Entry(AppHead(h.count, Get32(data, p + 8)), InApp, p + 12, n))
    else None
  }

  /** The sources of a BYE that are passed over: all `n`, if they are there, or the first. */
  ghost function Sources(length: nat, n: nat): nat {
    if length >= 4 * n then 4 * n else 4
  }

  /** The number of blocks is taken from some headers only. */
  ghost function Counted(h: Header, n: nat): nat {
    if h.kind == PT_SR || h.kind == PT_RR || h.kind == PT_SDES || h.kind == PT_BYE then h.count else n
  }

  ghost predicate Halts(h: Header) {
    (h.kind == PT_SR && h.length < 28) || (h.kind == PT_RR && h.length < 8)
  }

  lemma AlignedSum(a: nat, b: nat)
    requires a % 4 == 0 && b % 4 == 0
    ensures (a + b) % 4 == 0
  {}

  lemma AlignedWords(p: nat, n: nat)
    requires p % 4 == 0
    ensures (p + 4 * n) % 4 == 0
  {}

  /** The item at `p` is all there. */
  predicate RembThere(data: seq<byte>, p: nat, e: nat) {
    p < |data| && e - p >= 4 && e - p - 4 >= 4 * data[p] as int
  }

  lemma RembStep(data: seq<byte>, p: nat, e: nat)
    requires p <= e <= |data|
    ensures if RembThere(data, p, e)
            then RembItems(data, p, e) == [RembItem(ReadRate(data, p + 1), ReadWords(data, p + 4, data[p]))] +
                                          RembItems(data, p + 4 + 4 * data[p] as int, e)
            else RembItems(data, p, e) == []
  {}

  lemma AlignedGap(a: nat, b: nat)
    requires a % 4 == 0 && b % 4 == 0 && b <= a
    ensures (a - b) % 4 == 0
  {}

  /** Between packets the block end does not matter. */
  lemma DueOutside(rest: seq<Item>, data: seq<byte>, p: nat, e: nat, e': nat, n: nat)
    requires Due(rest, data, TopLevel, p, e, n)
    ensures Due(rest, data, TopLevel, p, e', n)
  {
    forall b | Look(b) ensures rest == Compound(data, p) && p <= |data| {
      assert Look(true);
    }
  }

  lemma HeaderFacts(data: seq<byte>, p: nat, h: Header)
    requires p <= |data| && ParseHeader(data, p) == Some(h)
    ensures h.length % 4 == 0 && h.length >= 4 && h.count <= 31
  {
  }

  /** Without a header, or with a block that is not all there, there are no items. */
  lemma Unread(rest: seq<Item>, data: seq<byte>, p: nat, e: nat, n: nat)
    requires Due(rest, data, TopLevel, p, e, n) && p <= |data|
    ensures match ParseHeader(data, p)
            case None => rest == []
            case Some(h) => p + h.length > |data| ==> rest == []
  {
    assert Look(true);
  }

  ghost predicate Within(x: Entry, p: nat, e: nat) {
    p + 4 <= x.cursor <= e && (x.state == TopLevel ==> x.cursor == e)
  }

  lemma EnterWithin(data: seq<byte>, p: nat, e: nat, h: Header, n: nat)
    requires p + 4 <= e <= |data| && e == p + h.length && !Halts(h)
    ensures var entry := Enter(data, p, e, h, n); entry.Some? ==> Within(entry.value, p, e)
  {}

  lemma EnterAligned(data: seq<byte>, p: nat, e: nat, h: Header, n: nat)
    requires p + 4 <= e <= |data| && e == p + h.length && p % 4 == 0 && e % 4 == 0
    ensures var entry := Enter(data, p, e, h, n); entry.Some? ==> entry.value.cursor % 4 == 0
  {}

  /** A block is the item at its head and those inside. */
  lemma EnterBlock(data: seq<byte>, p: nat, e: nat, h: Header, n: nat)
    requires p + 4 <= e <= |data| && e == p + h.length && !Halts(h)
    requires n == Counted(h, n)
    ensures match Enter(data, p, e, h, n)
            case None => Block(data, p, e, h) == []
            case Some(x) =>
              Within(x, p, e) && Block(data, p, e, h) == [x.item] + Inside(data, x.state, x.cursor, e, x.blocks)
  {
    hide Enter, Block, Inside, Within, Halts;
    EnterWithin(data, p, e, h, n);
    if h.kind == PT_SR || h.kind == PT_RR {
      EnterReport(data, p, e, h);
    } else if h.kind == PT_SDES || h.kind == PT_BYE {
      EnterSource(data, p, e, h);
    } else {
      EnterOther(data, p, e, h, n);
    }
  }

  lemma EnterOther(data: seq<byte>, p: nat, e: nat, h: Header, n: nat)
    requires p + 4 <= e <= |data| && e == p + h.length
    requires h.kind != PT_SR && h.kind != PT_RR && h.kind != PT_SDES && h.kind != PT_BYE
    ensures match Enter(data, p, e, h, n)
            case None => Block(data, p, e, h) == []
            case Some(x) =>
              Within(x, p, e) && Block(data, p, e, h) == [x.item] + Inside(data, x.state, x.cursor, e, x.blocks)
  {
    hide NackItems, PsfbItems, AppItems, Get32;
  }

  lemma EnterReport(data: seq<byte>, p: nat, e: nat, h: Header)
    requires p + 4 <= e <= |data| && e == p + h.length && !Halts(h) && (h.kind == PT_SR || h.kind == PT_RR)
    ensures match Enter(data, p, e, h, h.count)
            case None => false
            case Some(x) =>
              Within(x, p, e) && Block(data, p, e, h) == [x.item] + Inside(data, x.state, x.cursor, e, x.blocks)
  {}

  lemma EnterSource(data: seq<byte>, p: nat, e: nat, h: Header)
    requires p + 4 <= e <= |data| && e == p + h.length && (h.kind == PT_SDES || h.kind == PT_BYE)
    ensures match Enter(data, p, e, h, h.count)
            case None => Block(data, p, e, h) == []
            case Some(x) =>
              Within(x, p, e) && Block(data, p, e, h) == [x.item] + Inside(data, x.state, x.cursor, e, x.blocks)
  {}

  /** Entering a block: what is due before, and what is due behind the item at its head. */
  lemma DueEntered(before: seq<Item>, data: seq<byte>, p: nat, e: nat, h: Header, n: nat) returns (after: seq<Item>)
    requires Due(before, data, TopLevel, p, e, n) && p + 4 <= e <= |data| && e == p + h.length
    requires ParseHeader(data, p) == Some(h) && n == Counted(h, n)
    ensures if Halts(h) then before == [] else
            match Enter(data, p, e, h, n)
            case None => after == before && Due(after, data, TopLevel, e, e, n)
            case Some(x) => before == [x.item] + after && Due(after, data, x.state, x.cursor, e, x.blocks)
  {
    if Halts(h) {
      CompoundHalts(before, data, p, e, h, n);
      after := [];
    } else {
      var rest := CompoundStep(before, data, p, e, h, n);
      EnterBlock(data, p, e, h, n);
      match Enter(data, p, e, h, n)
      case None =>
        after := rest;
      case Some(x) =>
        after := DueInside(data, x, e, rest);
        Assoc([x.item], Inside(data, x.state, x.cursor, e, x.blocks), rest);
    }
  }

  lemma CompoundHalts(before: seq<Item>, data: seq<byte>, p: nat, e: nat, h: Header, n: nat)
    requires Due(before, data, TopLevel, p, e, n) && p <= |data|
    requires ParseHeader(data, p) == Some(h) && Halts(h)
    ensures before == []
  {
    assert Look(true);
  }

  lemma CompoundStep(before: seq<Item>, data: seq<byte>, p: nat, e: nat, h: Header, n: nat) returns (rest: seq<Item>)
    requires Due(before, data, TopLevel, p, e, n) && p <= |data|
    requires ParseHeader(data, p) == Some(h) && !Halts(h) && e == p + h.length <= |data|
    ensures before == Block(data, p, e, h) + rest && Due(rest, data, TopLevel, e, e, n)
    ensures rest == Compound(data, e)
  {
    assert Look(true);
    rest := Compound(data, e);
  }

  lemma DueInside(data: seq<byte>, x: Entry, e: nat, rest: seq<Item>) returns (after: seq<Item>)
    requires x.cursor <= e <= |data| && (x.state == TopLevel ==> x.cursor == e)
    requires rest == Compound(data, e)
    ensures after == Inside(data, x.state, x.cursor, e, x.blocks) + rest
    ensures Due(after, data, x.state, x.cursor, e, x.blocks)
  {
    after := Inside(data, x.state, x.cursor, e, x.blocks) + rest;
    assert x.state == TopLevel ==> after == rest;
  }

  /** An item read inside a block. */
  lemma DueTook(before: seq<Item>, data: seq<byte>, s: State, p: nat, e: nat, n: nat,
                x: Item, t: State, q: nat, m: nat) returns (after: seq<Item>)
    requires Due(before, data, s, p, e, n) && s != TopLevel && t != TopLevel
    requires p <= e <= |data| && q <= e
    requires Inside(data, s, p, e, n) == [x] + Inside(data, t, q, e, m)
    ensures before == [x] + after && Due(after, data, t, q, e, m)
  {
    assert Look(true);
    var rest := Compound(data, e);
    after := Inside(data, t, q, e, m) + rest;
    Assoc([x], Inside(data, t, q, e, m), rest);
  }

  /** Nothing left inside a block. */
  lemma DueLeft(before: seq<Item>, data: seq<byte>, s: State, p: nat, e: nat, n: nat, m: nat)
    requires Due(before, data, s, p, e, n) && s != TopLevel
    requires p <= e <= |data| && Inside(data, s, p, e, n) == []
    ensures Due(before, data, TopLevel, e, e, m)
  {
    assert Look(true);
  }

  // ---- The scan of an SDES chunk, step by step ------------------------------------------------

  type Scan = Option<(Option<seq<byte>>, nat)>

  /** The scan at `p`, which may have moved past the end, still comes out as `result`. */
  ghost predicate Scanning(result: Scan, data: seq<byte>, p: nat, e: nat, read: nat, found: Option<seq<byte>>) {
    match result
    case None => forall b :: Look(b) ==> e <= |data| && (p <= |data| ==> ScanItems(data, p, e, read, found) == None)
    case Some(_) => forall b :: Look(b) ==> p <= |data| && e <= |data| && ScanItems(data, p, e, read, found) == result
  }

  /** In an aligned block the scan ends inside it, aligned again. */
  lemma ScanAligned(data: seq<byte>, p: nat, e: nat) returns (r: Scan)
    requires p <= e <= |data| && p % 4 == 0 && e % 4 == 0
    ensures Scanning(r, data, p, e, 0, None)
    ensures r.Some? ==> p + 4 <= r.value.1 <= e && r.value.1 % 4 == 0
  {
    r := ScanItems(data, p, e, 0, None);
    ScanStays(data, p, e, 0, None);
  }

  lemma {:induction false} ScanStays(data: seq<byte>, p: nat, e: nat, read: nat, found: Option<seq<byte>>)
    requires p <= |data| && e <= |data| && e % 4 == 0 && (p - read) % 4 == 0
    ensures var r := ScanItems(data, p, e, read, found);
            r.Some? ==> p - read + 4 <= r.value.1 <= e && r.value.1 % 4 == 0
    decreases |data| - p
  {
    if p < e {
      if data[p] == 0 {
        PaddingAligned(p - read, read + 1, e);
      } else if p + 1 < e {
        var len := data[p + 1] as int;
        if p + 2 + len <= |data| {
          ScanStays(data, p + 2 + len, e, read + 2 + len, if data[p] == 1 then Named(data, p + 2, e, len) else found);
        }
      }
    }
  }

  /** `start + read` octets are inside, so their padding is. */
  lemma PaddingAligned(start: int, read: nat, e: nat)
    requires start % 4 == 0 && e % 4 == 0 && start + read <= e && read > 0
    ensures (start + read + Padding(read)) % 4 == 0 && start + 4 <= start + read + Padding(read) <= e
  {
    var k := (read + 3) / 4;
    assert read + Padding(read) == 4 * k && k >= 1;
    assert start == 4 * (start / 4) && e == 4 * (e / 4);
    assert (4 * (start / 4) + 4 * k) % 4 == 0;
  }

  lemma ScanEnd(r: Scan, data: seq<byte>, p: nat, e: nat, read: nat, found: Option<seq<byte>>)
    requires Scanning(r, data, p, e, read, found) && p >= e
    ensures r == None
  {
    assert Look(true);
  }

  lemma ScanTag(r: Scan, data: seq<byte>, p: nat, e: nat, read: nat, found: Option<seq<byte>>)
    requires Scanning(r, data, p, e, read, found) && p < e <= |data| && data[p] == 0
    ensures r == Some((found, p + 1 + Padding(read + 1)))
  {
    assert Look(true);
  }

  lemma ScanShort(r: Scan, data: seq<byte>, p: nat, e: nat, read: nat, found: Option<seq<byte>>)
    requires Scanning(r, data, p, e, read, found) && p < e <= |data| && data[p] != 0 && p + 1 >= e
    ensures Scanning(r, data, p + 1, e, read + 1, found)
  {
    assert Look(true);
  }

  lemma ScanName(r: Scan, data: seq<byte>, p: nat, e: nat, read: nat, found: Option<seq<byte>>, len: nat,
                 name: Option<seq<byte>>)
    requires Scanning(r, data, p, e, read, found) && p + 1 < e <= |data| && data[p] == 1 && len == data[p + 1]
    requires name == Named(data, p + 2, e, len)
    ensures if name == None then r == None else Scanning(r, data, p + 2 + len, e, read + 2 + len, name)
  {
    assert Look(true);
  }

  lemma ScanOther(r: Scan, data: seq<byte>, p: nat, e: nat, read: nat, found: Option<seq<byte>>, len: nat)
    requires Scanning(r, data, p, e, read, found)
    requires p + 1 < e <= |data| && data[p] != 0 && data[p] != 1 && len == data[p + 1]
    ensures Scanning(r, data, p + 2 + len, e, read + 2 + len, found)
  {
    assert Look(true);
  }

  /** The search for a chunk with a CNAME at `p` still comes out as `next`. */
  ghost predicate Finding(next: Option<(Item, nat)>, data: seq<byte>, p: nat, e: nat) {
    forall b :: Look(b) ==> p <= e <= |data| && next == FindChunk(data, p, e)
  }

  lemma {:induction false} FindingStarts(data: seq<byte>, p: nat, e: nat)
    requires p <= e <= |data|
    ensures Finding(FindChunk(data, p, e), data, p, e)
  {
  }

  lemma ChunkStep(next: Option<(Item, nat)>, data: seq<byte>, p: nat, e: nat)
    requires Finding(next, data, p, e)
    ensures e - p < 4 ==> next == None
  {
    assert Look(true);
  }

  lemma ChunkScanned(next: Option<(Item, nat)>, data: seq<byte>, p: nat, e: nat, r: Scan)
    requires Finding(next, data, p, e) && p + 4 <= e <= |data| && Scanning(r, data, p + 4, e, 0, None)
    requires r.Some? ==> r.value.1 <= e
    ensures match r
            case None => next == None
            case Some((None, q)) => Finding(next, data, q, e)
            case Some((Some(name), q)) => next == Some((ChunkItem(Get32(data, p), name), q))
  {
    assert Look(true);
  }

  /** What `Validate` checks: a version 2 header, of a report unless reduced size is allowed. */
  predicate Accepted(data: seq<byte>, reducedSize: bool) {
    match ParseHeader(data, 0)
    case None => false
    case Some(h) => reducedSize || h.kind == PT_SR || h.kind == PT_RR
  }
}
