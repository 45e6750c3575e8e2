/** The packets of the program association table and of the program map table, as the loops of
    `mpegts_write_pat` (`tsmux.c:942-1110`) and `mpegts_write_pmt` (`tsmux.c:1604-1793`) cut them. */
module TsTables {
  import opened Bytes
  import opened Sequences
  import opened TsPacket

  const PAT_PID := 0
  const PMT_PID := 0xFFF

  /** A packet without adaptation field, filled up behind `part`. */
  function Padded(start: bool, pid: nat, counter: nat, part: seq<byte>): (p: Packet)
    requires |part| <= 184 && pid < 0x2000
    ensures Sound(p)
  {
    Packet(start, pid, counter % 16, NoField, part + Filler(184 - |part|))
  }

  /** The packets of a PAT: a pointer field, and the section behind it. */
  function PatPackets(section: seq<byte>, counter: nat): seq<Packet> {
    if section == [] then []
    else if |section| < 183 then [Padded(true, PAT_PID, counter, [0] + section)]
    else [Padded(true, PAT_PID, counter, [0] + section[..183])] + PatRest(section, section[183..], counter + 1)
  }

  /** A full packet behind the first one is copied from the front of the section again. */
  function PatRest(section: seq<byte>, rest: seq<byte>, counter: nat): seq<Packet>
    requires |rest| <= |section|
  {
    if rest == [] then []
    else if |rest| < 184 then [Padded(false, PAT_PID, counter, rest)]
    else [Padded(false, PAT_PID, counter, section[..184])] + PatRest(section, rest[184..], counter + 1)
  }

  /** The packets of a PMT, whose pointer field stands in the same buffer as the section. */
  function PmtPackets(section: seq<byte>, counter: nat): seq<Packet> {
    var buf := [0] + section;
    if |buf| < 184 then [Padded(true, PMT_PID, counter, buf)]
    else [Padded(true, PMT_PID, counter, buf[..184])] + PmtRest(buf[184..], counter + 1)
  }

  /** Behind the first packet a byte is skipped. */
  function PmtRest(buf: seq<byte>, counter: nat): seq<Packet> {
    if buf == [] then []
    else if |buf| < 185 then [Padded(false, PMT_PID, counter, buf[1..])]
    else [Padded(false, PMT_PID, counter, buf[1..185])] + PmtRest(buf[184..], counter + 1)
  }

  // ---- The loops ---------------------------------------------------------------------------------------

  /** What the loop of `mpegts_write_pat` copies, with the pointer field: from the pointer on, or from
      the front of the section again. */
  function PatPart(section: seq<byte>, start: bool, pointer: nat, bytes: nat): (part: seq<byte>)
    requires 0 < bytes == |section| - pointer && (start ==> pointer == 0)
    ensures |part| <= 184
  {
    if start then [0] + if bytes < 183 then section else section[..183]
    else if bytes < 184 then section[pointer..]
    else section[..184]
  }

  lemma PatStep(section: seq<byte>, start: bool, pointer: nat, bytes: nat, counter: nat) returns (rest: seq<Packet>)
    requires 0 < bytes == |section| - pointer && (start ==> pointer == 0)
    ensures var most := if start then 183 else 184;
            rest == if bytes < most then [] else PatRest(section, section[pointer + most..], counter + 1)
    ensures (if start then PatPackets(section, counter) else PatRest(section, section[pointer..], counter)) ==
            [Padded(start, PAT_PID, counter, PatPart(section, start, pointer, bytes))] + rest
  {
    hide Padded;
    var most := if start then 183 else 184;
    if bytes < most {
      rest := [];
    } else {
      assert section[pointer..][most..] == section[pointer + most..];
      rest := PatRest(section, section[pointer + most..], counter + 1);
    }
  }

  /** What the loop of `mpegts_write_pmt` copies: behind the first packet from the second byte on. */
  function PmtPart(buf: seq<byte>, start: bool): (part: seq<byte>)
    requires buf != []
    ensures |part| <= 184
  {
    if start then (if |buf| < 184 then buf else buf[..184])
    else if |buf| < 185 then buf[1..] else buf[1..185]
  }

  lemma PmtStep(section: seq<byte>, start: bool, buf: seq<byte>, counter: nat) returns (rest: seq<Packet>)
    requires buf != [] && (start ==> buf == [0] + section)
    ensures (if start then PmtPackets(section, counter) else PmtRest(buf, counter)) ==
            [Padded(start, PMT_PID, counter, PmtPart(buf, start))] + rest
    ensures rest == if |buf| < (if start then 184 else 185) then [] else PmtRest(buf[184..], counter + 1)
  {
    hide Padded;
    rest := if |buf| < (if start then 184 else 185) then [] else PmtRest(buf[184..], counter + 1);
  }

  lemma {:induction false} PatEnd(section: seq<byte>, counter: nat)
    ensures PatRest(section, [], counter) == [] && PatPackets([], counter) == []
  {}

  lemma {:induction false} PmtEnd(counter: nat)
    ensures PmtRest([], counter) == []
  {}

  // ---- Continuity ------------------------------------------------------------------------------------

  lemma {:induction false} PatRestRuns(section: seq<byte>, rest: seq<byte>, counter: nat)
    requires |rest| <= |section|
    ensures Run(PatRest(section, rest, counter), PAT_PID, counter, false)
    decreases |rest|
  {
    if |rest| >= 184 {
      PatRestRuns(section, rest[184..], counter + 1);
      RunFrom(Padded(false, PAT_PID, counter, section[..184]), PatRest(section, rest[184..], counter + 1),
              PAT_PID, counter, false);
    }
  }

  lemma PatRuns(section: seq<byte>, counter: nat)
    ensures Run(PatPackets(section, counter), 0, counter, true)
  {
    if |section| >= 183 {
      PatRestRuns(section, section[183..], counter + 1);
      RunFrom(Padded(true, PAT_PID, counter, [0] + section[..183]), PatRest(section, section[183..], counter + 1),
              PAT_PID, counter, true);
    }
  }

  lemma {:induction false} PmtRestRuns(buf: seq<byte>, counter: nat)
    ensures Run(PmtRest(buf, counter), PMT_PID, counter, false)
    decreases |buf|
  {
    if |buf| >= 185 {
      PmtRestRuns(buf[184..], counter + 1);
      RunFrom(Padded(false, PMT_PID, counter, buf[1..185]), PmtRest(buf[184..], counter + 1), PMT_PID, counter, false);
    }
  }

  lemma PmtRuns(section: seq<byte>, counter: nat)
    ensures Run(PmtPackets(section, counter), 0xFFF, counter, true)
  {
    var buf := [0] + section;
    if |buf| >= 184 {
      PmtRestRuns(buf[184..], counter + 1);
      RunFrom(Padded(true, PMT_PID, counter, buf[..184]), PmtRest(buf[184..], counter + 1), PMT_PID, counter, true);
    }
  }

  // ---- What a receiver gets ----------------------------------------------------------------------------

  /** Behind a pointer field of 0 stands the whole section. */
  predicate Carried(ps: seq<Packet>, section: seq<byte>) {
    |Payloads(ps)| > |section| && Payloads(ps)[0] == 0 && Payloads(ps)[1..|section| + 1] == section
  }

  /** What the payloads begin with, and the section in it. */
  lemma {:induction false} CarriedFrom(ps: seq<Packet>, section: seq<byte>, got: seq<byte>)
    requires Payloads(ps) == [0] + got
    ensures Carried(ps, section) <==> section <= got
  {
    if |got| >= |section| {
      assert Payloads(ps)[1..|section| + 1] == got[..|section|];
    }
  }

  lemma PayloadsOne(p: Packet)
    ensures Payloads([p]) == p.payload
  {
    assert [p][1..] == [];
  }

  lemma {:induction false} PayloadsFirst(p: Packet, ps: seq<Packet>)
    ensures Payloads([p] + ps) == p.payload + Payloads(ps)
  {
    assert ([p] + ps)[1..] == ps;
  }

  /** The first payload of a PAT, and what follows. */
  lemma PatPayload(section: seq<byte>, counter: nat) returns (got: seq<byte>)
    requires section != []
    ensures Payloads(PatPackets(section, counter)) == [0] + got
    ensures |section| < 183 ==> got == section + Filler(183 - |section|)
    ensures |section| >= 183 ==>
      got == section[..183] + Payloads(PatRest(section, section[183..], counter + 1))
  {
    if |section| < 183 {
      got := section + Filler(183 - |section|);
      PayloadsOne(Padded(true, PAT_PID, counter, [0] + section));
      Assoc([0], section, Filler(183 - |section|));
    } else {
      var rest := PatRest(section, section[183..], counter + 1);
      got := section[..183] + Payloads(rest);
      PayloadsFirst(Padded(true, PAT_PID, counter, [0] + section[..183]), rest);
      assert [0] + section[..183] + [] == [0] + section[..183];
      Assoc([0], section[..183], Payloads(rest));
    }
  }

  /** A PAT of at most 366 bytes is received. */
  lemma PatBack(section: seq<byte>, counter: nat)
    requires 0 < |section| <= 366
    ensures Carried(PatPackets(section, counter), section)
  {
    hide Carried, PatPackets;
    var got := PatPayload(section, counter);
    if |section| >= 183 {
      var rest := section[183..];
      SplitAt(section, 183);
      if rest != [] {
        PayloadsOne(Padded(false, PAT_PID, counter + 1, rest));
        Assoc(section[..183], rest, Filler(184 - |rest|));
      }
    }
    CarriedFrom(PatPackets(section, counter), section, got);
  }

  /** Of a longer one the front comes again, where byte 183 should. */
  lemma PatLost(section: seq<byte>, counter: nat)
    requires |section| > 366 && section[183] != section[0]
    ensures !Carried(PatPackets(section, counter), section)
  {
    hide Carried, PatPackets;
    var got := PatPayload(section, counter);
    var rest := PatRest(section, section[183..][184..], counter + 2);
    PayloadsFirst(Padded(false, PAT_PID, counter + 1, section[..184]), rest);
    assert section[..184] + [] == section[..184];
    assert got[183] == (section[..184] + Payloads(rest))[0] == section[0];
    CarriedFrom(PatPackets(section, counter), section, got);
  }

  /** Sections of a length are all received exactly if they have at most 366 bytes. */
  lemma PatBackIff(n: nat, counter: nat)
    requires n > 0
    ensures (forall section: seq<byte> :: |section| == n ==> Carried(PatPackets(section, counter), section)) <==>
            n <= 366
  {
    if n <= 366 {
      forall section: seq<byte> | |section| == n ensures Carried(PatPackets(section, counter), section) {
        PatBack(section, counter);
      }
    } else {
      var section: seq<byte> := [1] + Zeros(n - 1);
      PatLost(section, counter);
    }
  }

  /** Behind the first packet of a PMT all but one byte follow, and filler. */
  lemma {:induction false} PmtRestPayload(buf: seq<byte>, counter: nat) returns (m: nat)
    requires buf != []
    ensures m >= 1 && Payloads(PmtRest(buf, counter)) == buf[1..] + Filler(m)
    decreases |buf|
  {
    if |buf| < 185 {
      m := 184 - (|buf| - 1);
      PayloadsOne(Padded(false, PMT_PID, counter, buf[1..]));
    } else {
      m := PmtRestPayload(buf[184..], counter + 1);
      PayloadsFirst(Padded(false, PMT_PID, counter, buf[1..185]), PmtRest(buf[184..], counter + 1));
      assert buf[1..185] + [] == buf[1..185] && buf[184..][1..] == buf[185..];
      assert buf[1..] == buf[1..185] + buf[185..];
      Assoc(buf[1..185], buf[185..], Filler(m));
    }
  }

  /** A PMT of more than 183 bytes lacks byte 183. */
  lemma PmtPayload(section: seq<byte>, counter: nat) returns (got: seq<byte>, m: nat)
    ensures Payloads(PmtPackets(section, counter)) == [0] + got
    ensures |section| <= 183 ==> section <= got
    ensures |section| > 183 ==> m >= 1 && got == section[..183] + (section[184..] + Filler(m))
  {
    var buf := [0] + section;
    m := 0;
    if |buf| < 184 {
      got := section + Filler(183 - |section|);
      PayloadsOne(Padded(true, PMT_PID, counter, buf));
      Assoc([0], section, Filler(183 - |section|));
    } else {
      var front, rest := section[..183], PmtRest(buf[184..], counter + 1);
      PayloadsFirst(Padded(true, PMT_PID, counter, buf[..184]), rest);
      assert buf[..184] + [] == [0] + front;
      got := front + Payloads(rest);
      Assoc([0], front, Payloads(rest));
      if |section| > 183 {
        m := PmtRestPayload(buf[184..], counter + 1);
        assert buf[184..][1..] == section[184..];
      }
    }
  }

  /** A PMT is received exactly if all of it behind the first 183 bytes looks like filler. */
  lemma PmtBackIff(section: seq<byte>, counter: nat)
    ensures Carried(PmtPackets(section, counter), section) <==>
            forall k :: 183 <= k < |section| ==> section[k] == 0xFF
  {
    hide Carried, PmtPackets;
    var got, m := PmtPayload(section, counter);
    CarriedFrom(PmtPackets(section, counter), section, got);
    if |section| > 183 {
      SplitAt(section, 183);
      ShiftedIn(section[..183], section[183], section[184..], m);
      assert section[..183] + ([section[183]] + section[184..]) == section;
    }
  }

  /** With its first byte gone, what follows is still there exactly if it all looks like filler. */
  lemma ShiftedIn(front: seq<byte>, b: byte, tail: seq<byte>, m: nat)
    requires m >= 1
    ensures front + ([b] + tail) <= front + (tail + Filler(m)) <==>
            forall k :: |front| <= k < |front| + 1 + |tail| ==> (front + ([b] + tail))[k] == 0xFF
  {
    var x, y := front + ([b] + tail), front + (tail + Filler(m));
    if x <= y {
      forall k | |front| <= k < |x| ensures x[k] == 0xFF { FillerFrom(x, y, |front|, k); }
    }
    if forall k :: |front| <= k < |x| ==> x[k] == 0xFF {
      assert forall j :: 0 <= j < |tail| ==> x[|front| + 1 + j] == tail[j];
      assert forall k :: 0 <= k < |x| ==> x[k] == y[k];
      assert x == y[..|x|];
    }
  }

  /** Each byte is the next one, and the last one is filler. */
  lemma {:induction false} FillerFrom(x: seq<byte>, y: seq<byte>, from: nat, k: nat)
    requires x <= y && from <= k < |x|
    requires forall j :: from <= j < |x| ==> y[j] == if j + 1 < |x| then x[j + 1] else 0xFF
    ensures x[k] == 0xFF
    decreases |x| - k
  {
    assert x[k] == y[k];
    if k + 1 < |x| {
      FillerFrom(x, y, from, k + 1);
    }
  }
}
