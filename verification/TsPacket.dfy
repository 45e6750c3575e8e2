/** MPEG transport stream packets (ISO/IEC 13818-1, sections 2.4.3.2 to 2.4.3.5) and the cutting of
    a PES packet into them, as `tsmux.c` does it. */
module TsPacket {
  import opened Bytes
  import opened Sequences

  const VIDEO_PID := 0x100
  const AUDIO_PID := 0x101

  /** The adaptation field: none, stuffing only, or a program clock reference and stuffing. The
      length does not count the length byte itself. */
  datatype Field = NoField | Stuffing(length: nat) | Clock(base: nat, extension: nat, length: nat)

  datatype Packet = Packet(start: bool, pid: nat, counter: nat, field: Field, payload: seq<byte>)

  predicate Sound(p: Packet) {
    && p.pid < 0x2000 && p.counter < 16
    && match p.field
       case NoField => |p.payload| == 184
       case Stuffing(length) => length + |p.payload| == 183
       case Clock(base, extension, length) =>
         length >= 7 && length + |p.payload| == 183 && base < 0x2_0000_0000 && extension < 0x200
  }

  // ---- Bytes ---------------------------------------------------------------------------------------

  function Header(p: Packet): (s: seq<byte>)
    requires Sound(p)
    ensures |s| == 4
  {
    [0x47, (if p.start then 0x40 else 0) + p.pid / 0x100, p.pid % 0x100,
     (if p.field.NoField? then 0x10 else 0x30) + p.counter]
  }

  /** 33 bits of base, six reserved bits, nine bits of extension. */
  function ClockBytes(base: nat, extension: nat): (s: seq<byte>)
    requires extension < 0x200
    ensures |s| == 6
  {
    [base / 0x200_0000 % 0x100, base / 0x2_0000 % 0x100, base / 0x200 % 0x100, base / 2 % 0x100,
     base % 2 * 0x80 + 0x7E + extension / 0x100, extension % 0x100]
  }

  function Filler(n: nat): (s: seq<byte>)
    ensures |s| == n && forall i :: 0 <= i < n ==> s[i] == 0xFF
  {
    seq(n, _ => 0xFF)
  }

  function FieldBytes(f: Field): (s: seq<byte>)
    requires match f case NoField => true case Stuffing(n) => n <= 183 case Clock(_, x, n) => 7 <= n <= 183 && x < 0x200
    ensures |s| == match f case NoField => 0 case Stuffing(n) => n + 1 case Clock(_, _, n) => n + 1
  {
    match f
    case NoField => []
    case Stuffing(n) => if n == 0 then [0] else [n, 0] + Filler(n - 1)
    case Clock(base, extension, n) => [n, 0x10] + ClockBytes(base, extension) + Filler(n - 7)
  }

  function Raw(p: Packet): (s: seq<byte>)
    requires Sound(p)
    ensures |s| == 188
  {
    Header(p) + FieldBytes(p.field) + p.payload
  }

  // ---- A receiver ------------------------------------------------------------------------------------

  /** What a demultiplexer reads from the 188 bytes of a packet. */
  datatype Received = Received(start: bool, pid: nat, counter: nat, clock: seq<nat>, payload: seq<byte>)

  /** The payload begins behind the adaptation field, if the control bits say there is one. */
  function Receive(s: seq<byte>): Received
    requires |s| == 188
  {
    var adapted := s[3] / 0x20 % 2 == 1;
    var at := if adapted then 5 + s[4] as int else 4;
    var clock := if adapted && s[4] > 0 && s[5] / 0x10 % 2 == 1 then ReadClock(s) else [];
    Received(s[1] / 0x40 % 2 == 1, s[1] as int % 0x20 * 0x100 + s[2], s[3] % 0x10, clock,
             if at <= 188 then s[at..] else [])
  }

  function ReadClock(s: seq<byte>): seq<nat>
    requires |s| == 188
  {
    [s[6] as int * 0x200_0000 + s[7] as int * 0x2_0000 + s[8] as int * 0x200 + s[9] as int * 2 + s[10] as int / 0x80,
     s[10] as int % 2 * 0x100 + s[11] as int]
  }

  /** What should be received of a packet. */
  function Sent(p: Packet): Received {
    Received(p.start, p.pid, p.counter,
             match p.field case Clock(base, extension, _) => [base, extension] case _ => [], p.payload)
  }

  lemma ClockBack(base: nat, extension: nat, s: seq<byte>)
    requires |s| == 188 && base < 0x2_0000_0000 && extension < 0x200 && s[6..12] == ClockBytes(base, extension)
    ensures ReadClock(s) == [base, extension]
  {
    var c := ClockBytes(base, extension);
    assert s[6] == c[0] && s[7] == c[1] && s[8] == c[2] && s[9] == c[3] && s[10] == c[4] && s[11] == c[5];
    ClockDigits(base);
  }

  lemma ClockDigits(base: nat)
    requires base < 0x2_0000_0000
    ensures base == base / 0x200_0000 % 0x100 * 0x200_0000 + base / 0x2_0000 % 0x100 * 0x2_0000 +
                    base / 0x200 % 0x100 * 0x200 + base / 2 % 0x100 * 2 + base % 2
  {
    assert base / 2 / 0x100 == base / 0x200;
    assert base / 0x200 / 0x100 == base / 0x2_0000;
    assert base / 0x2_0000 / 0x100 == base / 0x200_0000;
  }

  lemma HeaderBack(p: Packet, s: seq<byte>)
    requires Sound(p) && |s| == 188 && s[..4] == Header(p)
    ensures (s[1] / 0x40 % 2 == 1) == p.start && s[1] as int % 0x20 * 0x100 + s[2] == p.pid
    ensures (s[3] / 0x20 % 2 == 1) == !p.field.NoField? && s[3] % 0x10 == p.counter
  {
    var h := Header(p);
    assert s[1] == h[1] && s[2] == h[2] && s[3] == h[3];
    HeaderDigits(p.pid / 0x100, p.start);
  }

  lemma HeaderDigits(high: nat, start: bool)
    requires high < 0x20
    ensures var b := (if start then 0x40 else 0) + high; (b / 0x40 % 2 == 1) == start && b % 0x20 == high
  {}

  /** Where the parts of a packet stand. */
  lemma RawParts(p: Packet)
    requires Sound(p)
    ensures var s, f := Raw(p), FieldBytes(p.field);
            s[..4] == Header(p) && s[4..4 + |f|] == f && s[4 + |f|..] == p.payload
  {}

  /** What stands in the adaptation field, and where the payload begins. */
  lemma FieldBack(p: Packet, s: seq<byte>)
    requires Sound(p) && !p.field.NoField? && s == Raw(p)
    ensures s[4] == p.field.length && s[5 + p.field.length..] == p.payload
    ensures p.field.length > 0 ==> (s[5] / 0x10 % 2 == 1 <==> p.field.Clock?)
    ensures p.field.Clock? ==> ReadClock(s) == [p.field.base, p.field.extension]
  {
    hide Raw, Header, ReadClock, ClockBytes;
    RawParts(p);
    var f := FieldBytes(p.field);
    assert s[4..4 + |f|][0] == f[0];
    if p.field.length > 0 { assert s[4..4 + |f|][1] == f[1]; }
    if p.field.Clock? {
      ClockPlace(p.field, s);
      ClockBack(p.field.base, p.field.extension, s);
    }
  }

  lemma ClockPlace(f: Field, s: seq<byte>)
    requires f.Clock? && 7 <= f.length <= 183 && f.extension < 0x200
    requires |s| == 188 && s[4..5 + f.length] == FieldBytes(f)
    ensures s[6..12] == ClockBytes(f.base, f.extension)
  {
    SliceOfSlice(s, 4, 5 + f.length, 2, 8);
    Middle([f.length, 0x10], ClockBytes(f.base, f.extension), Filler(f.length - 7));
  }

  /** The header of a packet in octets: the sync byte, the start flag and 13 bits of PID, the control bits
      and four bits of counter. */
  lemma HeaderOctets(p: Packet)
    requires Sound(p)
    ensures var s := Raw(p);
            && s[0] == 0x47 && s[1] as int / 0x80 == 0 && (s[1] as int / 0x40 % 2 == 1 <==> p.start)
            && s[1] as int / 0x20 % 2 == 0 && s[1] as int % 0x20 * 0x100 + s[2] == p.pid
            && s[3] as int / 0x10 == (if p.field == NoField then 1 else 3) && s[3] as int % 0x10 == p.counter
  {
    HeaderDigits(p.pid / 0x100, p.start);
    hide FieldBytes;
    var s := Raw(p);
    assert s[..4] == Header(p);
    assert s[0] == Header(p)[0] && s[1] == Header(p)[1] && s[2] == Header(p)[2] && s[3] == Header(p)[3];
  }

  /** The adaptation field in octets: its length, the flags, of which only that of the clock is ever set,
      33 bits of base, six reserved bits, nine bits of extension, and stuffing; the payload is what is left. */
  lemma FieldOctets(p: Packet)
    requires Sound(p) && !p.field.NoField?
    ensures var s, n := Raw(p), p.field.length;
            && s[4] == n && 5 + n + |p.payload| == 188 && s[5 + n..] == p.payload
            && (n > 0 ==> s[5] == if p.field.Clock? then 0x10 else 0)
            && (forall k :: (if p.field.Clock? then 12 else 6) <= k < 5 + n ==> s[k] == 0xFF)
    ensures var s := Raw(p);
            p.field.Clock? ==>
              && s[6] as int * 0x200_0000 + s[7] as int * 0x2_0000 + s[8] as int * 0x200 + s[9] as int * 2 +
                 s[10] as int / 0x80 == p.field.base
              && s[10] as int / 2 % 0x40 == 0x3F && s[10] as int % 2 * 0x100 + s[11] == p.field.extension
  {
    hide Raw, Header;
    RawParts(p);
    var s, f := Raw(p), FieldBytes(p.field);
    forall k | 0 <= k < |f| ensures s[4 + k] == f[k] { assert s[4..4 + |f|][k] == f[k]; }
    assert forall k :: 4 <= k < 4 + |f| ==> s[k] == f[k - 4];
    if p.field.Clock? {
      FieldBack(p, s);
      var c := ClockBytes(p.field.base, p.field.extension);
      assert f[6] == c[4];
      ReservedBits(p.field.base % 2, p.field.extension / 0x100);
    }
  }

  lemma ReservedBits(low: nat, high: nat)
    requires low < 2 && high < 2
    ensures (low * 0x80 + 0x7E + high) / 2 % 0x40 == 0x3F
  {}

  /** A receiver gets what was sent: flags, counter, clock, and the payload without the field. */
  lemma RawBack(p: Packet)
    requires Sound(p)
    ensures Receive(Raw(p)) == Sent(p)
  {
    hide Raw, Header, FieldBytes, ReadClock;
    var s := Raw(p);
    RawParts(p);
    HeaderBack(p, s);
    if !p.field.NoField? {
      FieldBack(p, s);
    }
  }

  // ---- Cutting a PES packet --------------------------------------------------------------------------

  /** `mpegts_write_pes`: full packets, and a stuffed one for what is left. */
  function Cut(pes: seq<byte>, pid: nat, counter: nat, first: bool): seq<Packet> {
    if pes == [] then []
    else if |pes| <= 183 then [Packet(first, pid, counter % 16, Stuffing(183 - |pes|), pes)]
    else [Packet(first, pid, counter % 16, NoField, pes[..184])] + Cut(pes[184..], pid, counter + 1, false)
  }

  /** `mpegts_write_pes_with_pcr`: the first packet carries the clock. */
  function CutWithClock(pes: seq<byte>, pid: nat, counter: nat, base: nat, extension: nat): seq<Packet> {
    if pes == [] then []
    else if |pes| <= 176 then [Packet(true, pid, counter % 16, Clock(base, extension, 183 - |pes|), pes)]
    else
      var first := Packet(true, pid, counter % 16, Clock(base, extension, 7), pes[..176]);
      [first] + Cut(pes[176..], pid, counter + 1, false)
  }

  function Payloads(ps: seq<Packet>): seq<byte> {
    if ps == [] then [] else ps[0].payload + Payloads(ps[1..])
  }

  /** Packets of one PID whose counters run on from `counter`, of which at most the first starts a
      unit. */
  ghost predicate Run(ps: seq<Packet>, pid: nat, counter: nat, first: bool) {
    forall i :: 0 <= i < |ps| ==>
      Sound(ps[i]) && ps[i].pid == pid && ps[i].counter == (counter + i) % 16 && ps[i].start == (first && i == 0)
  }

  function CeilDiv(n: nat, d: nat): nat
    requires d > 0
  {
    (n + d - 1) / d
  }

  /** A packet in front of a run. */
  lemma {:induction false} RunFrom(head: Packet, rest: seq<Packet>, pid: nat, counter: nat, first: bool)
    requires Sound(head) && head.pid == pid && head.counter == counter % 16 && head.start == first
    requires Run(rest, pid, counter + 1, false)
    ensures Run([head] + rest, pid, counter, first) && Payloads([head] + rest) == head.payload + Payloads(rest)
  {
    var ps := [head] + rest;
    assert ps[1..] == rest;
    forall i | 0 <= i < |ps|
      ensures Sound(ps[i]) && ps[i].pid == pid && ps[i].counter == (counter + i) % 16 &&
              ps[i].start == (first && i == 0)
    {
      if i > 0 {
        assert ps[i] == rest[i - 1];
        assert counter + 1 + (i - 1) == counter + i;
      }
    }
  }

  lemma CeilStep(n: nat)
    requires n >= 184
    ensures CeilDiv(n, 184) == 1 + CeilDiv(n - 184, 184)
  {}

  /** Nothing is lost: the payloads give back the PES packet; and there are as few packets as hold
      it. */
  lemma {:induction false} CutLossless(pes: seq<byte>, pid: nat, counter: nat, first: bool)
    requires pid < 0x2000
    ensures var ps := Cut(pes, pid, counter, first);
            Payloads(ps) == pes && Run(ps, pid, counter, first) && |ps| == CeilDiv(|pes|, 184)
    decreases |pes|
  {
    if |pes| > 183 {
      CutLossless(pes[184..], pid, counter + 1, false);
      RunFrom(Packet(first, pid, counter % 16, NoField, pes[..184]),
              Cut(pes[184..], pid, counter + 1, false), pid, counter, first);
      SplitAt(pes, 184);
      CeilStep(|pes|);
    } else if pes != [] {
      RunFrom(Packet(first, pid, counter % 16, Stuffing(183 - |pes|), pes), [], pid, counter, first);
    }
  }

  lemma {:induction false} CutNoClock(pes: seq<byte>, pid: nat, counter: nat, first: bool)
    ensures forall p :: p in Cut(pes, pid, counter, first) ==> Sent(p).clock == []
    decreases |pes|
  {
    if |pes| > 183 {
      CutNoClock(pes[184..], pid, counter + 1, false);
    }
  }

  lemma CutWithClockLossless(pes: seq<byte>, pid: nat, counter: nat, base: nat, extension: nat)
    requires pid < 0x2000 && base < 0x2_0000_0000 && extension < 0x200
    ensures var ps := CutWithClock(pes, pid, counter, base, extension);
            Payloads(ps) == pes && Run(ps, pid, counter, true) &&
            |ps| == (if pes == [] then 0 else if |pes| <= 176 then 1 else 1 + CeilDiv(|pes| - 176, 184)) &&
            forall i :: 0 <= i < |ps| ==> Sent(ps[i]).clock == if i == 0 then [base, extension] else []
  {
    if |pes| > 176 {
      CutLossless(pes[176..], pid, counter + 1, false);
      CutNoClock(pes[176..], pid, counter + 1, false);
      RunFrom(Packet(true, pid, counter % 16, Clock(base, extension, 7), pes[..176]),
              Cut(pes[176..], pid, counter + 1, false), pid, counter, true);
      SplitAt(pes, 176);
    } else if pes != [] {
      RunFrom(Packet(true, pid, counter % 16, Clock(base, extension, 183 - |pes|), pes), [], pid, counter, true);
    }
  }
}
