/** The transport stream multiplexer (`tsmux.c`): one packet buffer, a continuity counter for each
    stream, and the output. */
module TsMux {
  import opened Bytes
  import opened Numbers
  import opened Sequences
  import opened TsPacket
  import opened TsTables

  const VIDEO_STREAM_ID := 0xE0
  const AUDIO_STREAM_ID := 0xC0

  predicate Known(streamId: nat) {
    streamId == VIDEO_STREAM_ID || streamId == AUDIO_STREAM_ID
  }

  function PidOf(streamId: nat): nat {
    if streamId == VIDEO_STREAM_ID then VIDEO_PID else AUDIO_PID
  }

  function Wire(p: Packet): seq<byte> {
    if Sound(p) then Raw(p) else []
  }

  // ---- Continuity ------------------------------------------------------------------------------------

  /** The packets of one PID. */
  function OnPid(ps: seq<Packet>, pid: nat): seq<Packet> {
    if ps == [] then [] else (if ps[0].pid == pid then [ps[0]] else []) + OnPid(ps[1..], pid)
  }

  /** There have been `n` packets on the PID, with counters 0, 1, 2, ... mod 16. */
  ghost predicate Steady(ps: seq<Packet>, pid: nat, n: nat) {
    |OnPid(ps, pid)| == n && Counted(OnPid(ps, pid), 0)
  }

  ghost predicate Counted(ps: seq<Packet>, counter: nat) {
    forall i :: 0 <= i < |ps| ==> ps[i].counter == (counter + i) % 16
  }

  lemma {:induction false} OnPidAppend(a: seq<Packet>, b: seq<Packet>, pid: nat)
    ensures OnPid(a + b, pid) == OnPid(a, pid) + OnPid(b, pid)
  {
    if a == [] {
      assert a + b == b;
    } else {
      OnPidAppend(a[1..], b, pid);
      assert (a + b)[1..] == a[1..] + b;
      Assoc(if a[0].pid == pid then [a[0]] else [], OnPid(a[1..], pid), OnPid(b, pid));
    }
  }

  lemma {:induction false} OnPidOfRun(ps: seq<Packet>, pid: nat, counter: nat, first: bool, q: nat)
    requires Run(ps, pid, counter, first)
    ensures OnPid(ps, q) == if q == pid then ps else []
    decreases ps
  {
    if ps != [] {
      assert Run(ps[1..], pid, counter + 1, false) by {
        forall i | 0 <= i < |ps| - 1 ensures ps[1..][i].counter == (counter + 1 + i) % 16 {
          assert counter + 1 + i == counter + (i + 1);
        }
      }
      OnPidOfRun(ps[1..], pid, counter + 1, false, q);
    }
  }

  /** A run that takes up the counter keeps its PID steady, and the others. */
  lemma SteadyMore(ps: seq<Packet>, run: seq<Packet>, pid: nat, n: nat, first: bool, q: nat, m: nat)
    requires Steady(ps, q, m) && Run(run, pid, n, first) && (q == pid ==> m == n)
    ensures Steady(ps + run, q, if q == pid then n + |run| else m)
  {
    hide OnPid;
    OnPidAppend(ps, run, q);
    OnPidOfRun(run, pid, n, first, q);
  }

  lemma CountedJoin(xs: seq<Packet>, ys: seq<Packet>)
    requires Counted(xs, 0) && Counted(ys, 0) && |xs| % 16 == 0
    ensures Counted(xs + ys, 0)
  {
    forall i | 0 <= i < |xs + ys| ensures (xs + ys)[i].counter == (0 + i) % 16 {
      if i < |xs| {
        assert (xs + ys)[i] == xs[i];
      } else {
        assert (xs + ys)[i] == ys[i - |xs|];
        Shifted(i, |xs|);
      }
    }
  }

  /** Two segments that each begin at 0 and end at 15 run on when joined. */
  lemma SegmentsJoin(a: seq<Packet>, b: seq<Packet>, pid: nat, m: nat, n: nat)
    requires Steady(a, pid, m) && Steady(b, pid, n) && m % 16 == 0
    ensures Steady(a + b, pid, m + n)
  {
    hide OnPid;
    OnPidAppend(a, b, pid);
    var xs: seq<Packet>, ys: seq<Packet> := OnPid(a, pid), OnPid(b, pid);
    CountedJoin(xs, ys);
  }

  lemma Shifted(i: nat, m: nat)
    requires m <= i && m % 16 == 0
    ensures (i - m) % 16 == i % 16
  {}

  /** A packet buffer with the payload and the stuffing in place, when the header goes in. */
  lemma Assembled(s: seq<byte>, filled: seq<byte>, p: Packet)
    requires |s| == |filled| == 188 && Sound(p) && p.field.Stuffing?
    requires filled[5 + p.field.length..] == p.payload
    requires forall j :: 6 <= j < 5 + p.field.length ==> filled[j] == 0xFF
    requires s[..4] == Header(p) && s[4] == p.field.length && s[6..] == filled[6..]
    requires s[5] == if p.field.length > 0 then 0 else filled[5]
    ensures s == Raw(p)
  {
    var n := p.field.length;
    forall j | 6 <= j < 188 ensures s[j] == filled[j] { assert s[6..][j - 6] == filled[6..][j - 6]; }
    assert s[5 + n..] == p.payload;
    assert s[4..5 + n] == FieldBytes(p.field);
    assert s == s[..4] + s[4..5 + n] + s[5 + n..];
  }

  lemma FillerSlice(s: seq<byte>, a: nat, b: nat)
    requires a <= b <= |s| && forall j :: a <= j < b ==> s[j] == 0xFF
    ensures s[a..b] == Filler(b - a)
  {
    var x := s[a..b];
    forall k | 0 <= k < b - a ensures x[k] == 0xFF { assert x[k] == s[a + k]; }
  }

  /** The same with a clock behind the flags. */
  lemma AssembledClock(s: seq<byte>, filled: seq<byte>, p: Packet)
    requires |s| == |filled| == 188 && Sound(p) && p.field.Clock?
    requires filled[5 + p.field.length..] == p.payload && filled[6..12] == ClockBytes(p.field.base, p.field.extension)
    requires forall j :: 12 <= j < 5 + p.field.length ==> filled[j] == 0xFF
    requires s[..4] == Header(p) && s[4] == p.field.length && s[5] == 0x10 && s[6..] == filled[6..]
    ensures s == Raw(p)
  {
    var n := p.field.length;
    forall j | 6 <= j < 188 ensures s[j] == filled[j] { assert s[6..][j - 6] == filled[6..][j - 6]; }
    assert s[6..12] == filled[6..12];
    FillerSlice(s, 12, 5 + n);
    assert s[4..5 + n] == [s[4], s[5]] + s[6..12] + s[12..5 + n];
    assert s[5 + n..] == p.payload;
    assert s == s[..4] + s[4..5 + n] + s[5 + n..];
  }

  /** The clock takes the low 33 bits of the base. */
  lemma ClockWraps(base: nat, extension: nat)
    requires extension < 0x200
    ensures ClockBytes(base, extension) == ClockBytes(base % 0x2_0000_0000, extension)
  {
    var q, r := base / 0x2_0000_0000, base % 0x2_0000_0000;
    DigitAt25(q, r);
    DigitAt17(q, r);
    DigitAt9(q, r);
    DigitAt1(q, r);
    LowestBit(q, r);
    assert base == q * 0x2_0000_0000 + r;
  }

  lemma DigitAt25(q: nat, r: nat)
    ensures (q * 0x2_0000_0000 + r) / 0x200_0000 % 0x100 == r / 0x200_0000 % 0x100
  {
    var d := r / 0x200_0000;
    QuotientIs(q * 0x2_0000_0000 + r, 0x200_0000, q * 0x100 + d, r % 0x200_0000);
    RemainderUnique(q * 0x100 + d, 0x100, q * (0x100 / 0x100) + d / 0x100, d % 0x100);
  }

  lemma DigitAt17(q: nat, r: nat)
    ensures (q * 0x2_0000_0000 + r) / 0x2_0000 % 0x100 == r / 0x2_0000 % 0x100
  {
    var d := r / 0x2_0000;
    QuotientIs(q * 0x2_0000_0000 + r, 0x2_0000, q * 0x1_0000 + d, r % 0x2_0000);
    RemainderUnique(q * 0x1_0000 + d, 0x100, q * (0x1_0000 / 0x100) + d / 0x100, d % 0x100);
  }

  lemma DigitAt9(q: nat, r: nat)
    ensures (q * 0x2_0000_0000 + r) / 0x200 % 0x100 == r / 0x200 % 0x100
  {
    var d := r / 0x200;
    QuotientIs(q * 0x2_0000_0000 + r, 0x200, q * 0x100_0000 + d, r % 0x200);
    RemainderUnique(q * 0x100_0000 + d, 0x100, q * (0x100_0000 / 0x100) + d / 0x100, d % 0x100);
  }

  lemma DigitAt1(q: nat, r: nat)
    ensures (q * 0x2_0000_0000 + r) / 2 % 0x100 == r / 2 % 0x100
  {
    var d := r / 2;
    QuotientIs(q * 0x2_0000_0000 + r, 2, q * 0x1_0000_0000 + d, r % 2);
    RemainderUnique(q * 0x1_0000_0000 + d, 0x100, q * (0x1_0000_0000 / 0x100) + d / 0x100, d % 0x100);
  }

  lemma LowestBit(q: nat, r: nat)
    ensures (q * 0x2_0000_0000 + r) % 2 == r % 2
  {
    RemainderUnique(q * 0x2_0000_0000 + r, 2, q * 0x1_0000_0000 + r / 2, r % 2);
  }

  // ---- Whole PES packets ---------------------------------------------------------------------------

  /** The packet for the next `n` bytes of a PES packet: full, or the last one. */
  function Plain(start: bool, pid: nat, counter: nat, part: seq<byte>): Packet
    requires |part| <= 184
  {
    Packet(start, pid, counter % 16, if |part| == 184 then NoField else Stuffing(183 - |part|), part)
  }

  /** A packet more of a cut. */
  lemma CutStep(done: seq<Packet>, pes: seq<byte>, pid: nat, counter: nat, first: bool, n: nat)
      returns (rest: seq<Packet>)
    requires pes != [] && n == if |pes| <= 183 then |pes| else 184
    ensures rest == Cut(pes[n..], pid, counter + 1, false)
    ensures done + Cut(pes, pid, counter, first) == done + [Plain(first, pid, counter, pes[..n])] + rest
  {
    assert n == |pes| ==> pes[..n] == pes;
    rest := Cut(pes[n..], pid, counter + 1, false);
    Assoc(done, [Plain(first, pid, counter, pes[..n])], rest);
  }

  /** The counters and the output. */
  datatype State = State(video: nat, audio: nat, output: seq<byte>)

  function CounterOf(s: State, streamId: nat): nat {
    if streamId == VIDEO_STREAM_ID then s.video else s.audio
  }

  /** After sending packets of a stream: its counter has moved on, and their bytes are behind what
      was there. */
  function After(s: State, streamId: nat, ps: seq<Packet>): State {
    if streamId == VIDEO_STREAM_ID then State(s.video + |ps|, s.audio, s.output + Concat(Wire, ps))
    else State(s.video, s.audio + |ps|, s.output + Concat(Wire, ps))
  }

  lemma AfterNone(s: State, streamId: nat)
    ensures After(s, streamId, []) == s
  {}

  lemma AfterOne(s: State, streamId: nat, p: Packet)
    requires Sound(p)
    ensures After(s, streamId, [p]).output == s.output + Raw(p)
    ensures CounterOf(After(s, streamId, [p]), streamId) == CounterOf(s, streamId) + 1
  {
    assert [p][1..] == [];
    assert Concat(Wire, [p]) == Wire(p) + [];
  }

  lemma AfterMore(s: State, streamId: nat, a: seq<Packet>, b: seq<Packet>)
    ensures After(After(s, streamId, a), streamId, b) == After(s, streamId, a + b)
    ensures CounterOf(After(s, streamId, a), streamId) == CounterOf(s, streamId) + |a|
  {
    ConcatAppend(Wire, a, b);
    Assoc(s.output, Concat(Wire, a), Concat(Wire, b));
  }

  /** The packet with the clock, and the others. */
  lemma ClockFirst(pes: seq<byte>, pid: nat, counter: nat, base: nat, extension: nat, n: nat)
      returns (p: Packet, rest: seq<Packet>)
    requires pes != [] && n == if |pes| <= 176 then |pes| else 176
    requires pid < 0x2000 && base < 0x2_0000_0000 && extension < 0x200
    ensures p == Packet(true, pid, counter % 16, Clock(base, extension, 183 - n), pes[..n]) && Sound(p)
    ensures rest == Cut(pes[n..], pid, counter + 1, false)
    ensures CutWithClock(pes, pid, counter, base, extension) == [p] + rest
    ensures n == |pes| ==> rest == []
  {
    p := Packet(true, pid, counter % 16, Clock(base, extension, 183 - n), pes[..n]);
    rest := Cut(pes[n..], pid, counter + 1, false);
    if n == |pes| { assert pes[..n] == pes; }
  }

  /** `n` packets without payload. */
  function Dummies(pid: nat, counter: nat, n: nat): seq<Packet> {
    if n == 0 then []
    else Dummies(pid, counter, n - 1) + [Packet(false, pid, (counter + n - 1) % 16, Stuffing(183), [])]
  }

  lemma {:induction false} DummiesRun(pid: nat, counter: nat, n: nat)
    requires pid < 0x2000
    ensures var ps := Dummies(pid, counter, n); |ps| == n && Run(ps, pid, counter, false) && Payloads(ps) == []
  {
    if n > 0 {
      DummiesRun(pid, counter, n - 1);
      PayloadsSnoc(Dummies(pid, counter, n - 1), Packet(false, pid, (counter + n - 1) % 16, Stuffing(183), []));
    }
  }

  lemma {:induction false} PayloadsSnoc(ps: seq<Packet>, p: Packet)
    ensures Payloads(ps + [p]) == Payloads(ps) + p.payload
  {
    if ps == [] {
      assert [p][1..] == [];
    } else {
      PayloadsSnoc(ps[1..], p);
      assert (ps + [p])[1..] == ps[1..] + [p];
    }
  }

  lemma {:induction false} PayloadsAppend(a: seq<Packet>, b: seq<Packet>)
    ensures Payloads(a + b) == Payloads(a) + Payloads(b)
  {
    if a == [] {
      assert a + b == b;
    } else {
      PayloadsAppend(a[1..], b);
      assert (a + b)[1..] == a[1..] + b;
      Assoc(a[0].payload, Payloads(a[1..]), Payloads(b));
    }
  }

  /** A packet buffer with the header, the part and the filler in place. */
  lemma PaddedRaw(start: bool, pid: nat, counter: nat, part: seq<byte>, header: seq<byte>)
    requires |part| <= 184 && pid < 0x2000 && header == Lead(start, pid, counter)
    ensures header + part + Filler(184 - |part|) == Raw(Padded(start, pid, counter, part))
  {
    assert header + [] == header;
    Assoc(header, part, Filler(184 - |part|));
  }

  /** The header of a packet without adaptation field. */
  function Lead(start: bool, pid: nat, counter: nat): (s: seq<byte>)
    requires pid < 0x2000
  {
    [0x47, (if start then 0x40 else 0) + pid / 0x100, pid % 0x100, 0x10 + counter % 16]
  }

  lemma WireNone(before: seq<byte>)
    ensures before == before + Concat(Wire, [])
  {}

  /** A packet more in the output. */
  lemma {:induction false} WireMore(before: seq<byte>, ps: seq<Packet>, p: Packet)
    requires Sound(p)
    ensures before + Concat(Wire, ps) + Raw(p) == before + Concat(Wire, ps + [p])
  {
    ConcatSnoc(Wire, ps, p);
    Assoc(before, Concat(Wire, ps), Raw(p));
  }

  // ---- Bits or-ed together ---------------------------------------------------------------------------

  lemma {:induction false} OrFlag(flag: nat, high: nat)
    requires high < 0x20
    ensures Or(flag * 0x40, high) == flag * 0x40 + high
  {
    assert Pow2(6) == 0x40;
    OrIsSum(flag, high, 6);
  }

  lemma {:induction false} OrControl(control: nat, counter: nat)
    requires counter < 0x10
    ensures Or(control * 0x10, counter) == control * 0x10 + counter
  {
    assert Pow2(4) == 0x10;
    OrIsSum(control, counter, 4);
  }

  /** The lowest bit of the base, six reserved bits, the highest bit of the extension. */
  lemma {:induction false} OrReserved(low: nat, high: nat)
    requires low < 2 && high < 2
    ensures Or(Or(low * 0x80, 0x7E), high) == low * 0x80 + 0x7E + high
  {
    assert Pow2(7) == 2 * Pow2(6) == 0x80;
    OrIsSum(low, 0x7E, 7);
    assert Pow2(1) == 2;
    OrIsSum(low * 0x40 + 0x3F, high, 1);
  }

  // ---- The multiplexer -------------------------------------------------------------------------------

  class Muxer {
    const tsbuffer: array<byte>
    var vCounter: nat
    var aCounter: nat
    var patCounter: nat
    var pmtCounter: nat
    /** The output buffer up to `posOfOutBuffer`. */
    var output: seq<byte>

    constructor ()
      ensures tsbuffer.Length == 188 && fresh(tsbuffer) && vCounter == aCounter == patCounter == pmtCounter == 0 &&
              output == []
    {
      tsbuffer := new byte[188];
      vCounter, aCounter, patCounter, pmtCounter, output := 0, 0, 0, 0, [];
    }

    method Reset()
      modifies this`vCounter, this`aCounter, this`patCounter, this`pmtCounter, this`output
      ensures vCounter == aCounter == patCounter == pmtCounter == 0 && output == []
    {
      vCounter, aCounter, patCounter, pmtCounter, output := 0, 0, 0, 0, [];
    }

    ghost function Now(): State
      reads this
    {
      State(vCounter, aCounter, output)
    }

    method TakeCounter(streamId: nat) returns (counter: nat, pid: nat)
      requires Known(streamId)
      modifies this`vCounter, this`aCounter
      ensures counter == CounterOf(old(Now()), streamId) % 16 && pid == PidOf(streamId)
      ensures if streamId == VIDEO_STREAM_ID then vCounter == old(vCounter) + 1 && aCounter == old(aCounter)
              else vCounter == old(vCounter) && aCounter == old(aCounter) + 1
    {
      if VIDEO_STREAM_ID == streamId {
        counter, pid := vCounter % 16, VIDEO_PID;
        vCounter := vCounter + 1;
      } else {
        counter, pid := aCounter % 16, AUDIO_PID;
        aCounter := aCounter + 1;
      }
    }

    /** `mpegts_write_buffer`. */
    method WriteBuffer()
      modifies this`output
      ensures output == old(output) + tsbuffer[..]
    {
      output := output + tsbuffer[..];
    }

    /** `ts_packet_buffer`: the bits that are or-ed together do not overlap. */
    method PutHeader(start: bool, pid: nat, control: nat, counter: nat)
      requires tsbuffer.Length == 188 && pid < 0x2000 && counter < 16 && (control == 1 || control == 3)
      modifies tsbuffer
      ensures tsbuffer[4..] == old(tsbuffer[4..])
      ensures tsbuffer[..4] == [0x47, (if start then 0x40 else 0) + pid / 0x100, pid % 0x100, control * 0x10 + counter]
    {
      OrFlag(if start then 1 else 0, pid / 0x100);
      OrControl(control, counter);
      tsbuffer[0] := 0x47;
      tsbuffer[1] := Or(if start then 0x40 else 0, pid / 0x100);
      tsbuffer[2] := pid % 0x100;
      tsbuffer[3] := Or(control * 0x10, counter);
    }

    /** `ts_packet_extention_buffer`: flags only if the field is not empty. */
    method PutExtension(start: bool, pid: nat, counter: nat, length: byte, clock: bool)
      requires tsbuffer.Length == 188 && pid < 0x2000 && counter < 16
      modifies tsbuffer
      ensures tsbuffer[..4] == [0x47, (if start then 0x40 else 0) + pid / 0x100, pid % 0x100, 0x30 + counter]
      ensures tsbuffer[4] == length && tsbuffer[6..] == old(tsbuffer[6..])
      ensures tsbuffer[5] == if length > 0 then (if clock then 0x10 else 0) else old(tsbuffer[5])
    {
      PutHeader(start, pid, 3, counter);
      tsbuffer[4] := length;
      if length > 0 {
        tsbuffer[5] := if clock then 0x10 else 0;
      }
    }

    /** The header for the next packet of a table. */
    method PutLead(start: bool, pid: nat, counter: nat)
      requires tsbuffer.Length == 188 && pid < 0x2000
      modifies tsbuffer
      ensures tsbuffer[..4] == Lead(start, pid, counter)
    {
      PutHeader(start, pid, 1, counter % 16);
      assert 1 * 0x10 + counter % 16 == 0x10 + counter % 16;
    }

    /** The part behind the header that is in place, filler behind it, and out with the packet. */
    method SendPadded(part: seq<byte>, ghost start: bool, ghost pid: nat, ghost counter: nat)
      requires tsbuffer.Length == 188 && |part| <= 184 && pid < 0x2000 && tsbuffer[..4] == Lead(start, pid, counter)
      modifies this`output, tsbuffer
      ensures output == old(output) + Raw(Padded(start, pid, counter, part))
      ensures tsbuffer[..4] == old(tsbuffer[..4])
    {
      hide Raw, Padded, Lead, Filler;
      ghost var header := tsbuffer[..4];
      var end := CopyBytes(tsbuffer, 4, part);
      end := CopyBytes(tsbuffer, end, Filler(184 - |part|));
      assert tsbuffer[..] == tsbuffer[..end] == header + part + Filler(184 - |part|);
      PaddedRaw(start, pid, counter, part, header);
      WriteBuffer();
    }

    /** The next packet of a table. */
    method SendNext(part: seq<byte>, ghost start: bool, ghost pid: nat, ghost counter: nat,
                    ghost before: seq<byte>, ghost done: seq<Packet>, ghost rest: seq<Packet>)
      returns (ghost done': seq<Packet>)
      requires tsbuffer.Length == 188 && |part| <= 184 && pid < 0x2000 && tsbuffer[..4] == Lead(start, pid, counter)
      requires output == before + Concat(Wire, done)
      modifies this`output, tsbuffer
      ensures output == before + Concat(Wire, done') && |done'| == |done| + 1
      ensures done' + rest == done + ([Padded(start, pid, counter, part)] + rest)
    {
      hide Wire, Padded, Raw, Lead, Concat;
      ghost var p := Padded(start, pid, counter, part);
      WireMore(before, done, p);
      Assoc(done, [p], rest);
      done' := done + [p];
      SendPadded(part, start, pid, counter);
    }

    /** `mpegts_write_pat`. */
    method WritePat(section: seq<byte>) returns (count: nat)
      requires tsbuffer.Length == 188
      modifies this`patCounter, this`output, tsbuffer
      ensures var ps := PatPackets(section, old(patCounter));
              count == |ps| && patCounter == old(patCounter) + |ps| && output == old(output) + Concat(Wire, ps)
    {
      hide Wire, Padded, Lead, Concat, PatPackets, PatRest;
      ghost var before, all, done := output, PatPackets(section, patCounter), [];
      ghost var todo := all;
      var start, pointer, bytes := true, 0, |section|;
      count := 0;
      WireNone(before);
      PutLead(true, PAT_PID, patCounter);
      while bytes > 0
        invariant 0 <= pointer && 0 <= bytes == |section| - pointer && (start ==> pointer == 0)
        invariant count == |done| && patCounter == old(patCounter) + |done|
        invariant output == before + Concat(Wire, done) && done + todo == all
        invariant tsbuffer[..4] == Lead(start, PAT_PID, patCounter)
        invariant todo == if start then PatPackets(section, patCounter)
                          else PatRest(section, section[pointer..], patCounter)
        decreases bytes
      {
        var most := if start then 183 else 184;
        var part := PatPart(section, start, pointer, bytes);
        todo := PatStep(section, start, pointer, bytes, patCounter);
        done := SendNext(part, start, PAT_PID, patCounter, before, done, todo);
        patCounter, count := patCounter + 1, count + 1;
        if bytes < most {
          assert todo == [];
          break;
        }
        bytes, pointer, start := bytes - most, pointer + most, false;
        PutLead(false, PAT_PID, patCounter);
      }
      assert bytes == 0 ==> section[pointer..] == [] && (start ==> section == []);
      PatEnd(section, patCounter);
      assert done + [] == done;
    }

    /** `mpegts_write_pmt`. */
    method WritePmt(section: seq<byte>) returns (count: nat)
      requires tsbuffer.Length == 188
      modifies this`pmtCounter, this`output, tsbuffer
      ensures var ps := PmtPackets(section, old(pmtCounter));
              count == |ps| && pmtCounter == old(pmtCounter) + |ps| && output == old(output) + Concat(Wire, ps)
    {
      hide Wire, Padded, Lead, Concat, PmtPackets, PmtRest;
      ghost var before, all, done := output, PmtPackets(section, pmtCounter), [];
      ghost var todo := all;
      var start, buffer := true, [0] + section;
      count := 0;
      WireNone(before);
      PutLead(true, PMT_PID, pmtCounter);
      while |buffer| > 0
        invariant start ==> buffer == [0] + section
        invariant count == |done| && pmtCounter == old(pmtCounter) + |done|
        invariant output == before + Concat(Wire, done) && done + todo == all
        invariant tsbuffer[..4] == Lead(start, PMT_PID, pmtCounter)
        invariant todo == if start then PmtPackets(section, pmtCounter) else PmtRest(buffer, pmtCounter)
        decreases |buffer|
      {
        var bytes := |buffer|;
        var part := PmtPart(buffer, start);
        todo := PmtStep(section, start, buffer, pmtCounter);
        done := SendNext(part, start, PMT_PID, pmtCounter, before, done, todo);
        pmtCounter, count := pmtCounter + 1, count + 1;
        if bytes < if start then 184 else 185 {
          assert todo == [];
          break;
        }
        buffer, start := buffer[184..], false;
        PutLead(false, PMT_PID, pmtCounter);
      }
      PmtEnd(pmtCounter);
      assert done + [] == done;
    }

    method Stuff(from: nat, end: nat)
      requires tsbuffer.Length == 188 && from <= end <= 188
      modifies tsbuffer
      ensures tsbuffer[..from] == old(tsbuffer[..from]) && forall j :: from <= j < end ==> tsbuffer[j] == 0xFF
    {
      var i := from;
      while i < end
        invariant from <= i <= end && tsbuffer[..from] == old(tsbuffer[..from])
        invariant forall j :: from <= j < i ==> tsbuffer[j] == 0xFF
      {
        tsbuffer[i] := 0xFF;
        i := i + 1;
      }
    }

    /** The stuffing behind the flags, and the payload at the end of the packet. */
    method FillBehindFlags(part: seq<byte>)
      requires tsbuffer.Length == 188 && |part| <= 183
      modifies tsbuffer
      ensures tsbuffer[188 - |part|..] == part
      ensures forall j :: 6 <= j < 188 - |part| ==> tsbuffer[j] == 0xFF
    {
      var n := |part|;
      if n < 182 { Stuff(6, 188 - n); }
      ghost var stuffed := tsbuffer[..];
      var end := CopyBytes(tsbuffer, 188 - n, part);
      ghost var filled := tsbuffer[..];
      assert forall j :: 6 <= j < 188 - n ==> filled[j] == filled[..188 - n][j] == stuffed[..188 - n][j];
    }

    /** A packet with 183 bytes or fewer, behind stuffing. */
    method SendStuffed(start: bool, streamId: nat, part: seq<byte>)
      requires tsbuffer.Length == 188 && Known(streamId) && |part| <= 183
      modifies this`vCounter, this`aCounter, this`output, tsbuffer
      ensures var p := Packet(start, PidOf(streamId), CounterOf(old(Now()), streamId) % 16,
                              Stuffing(183 - |part|), part);
              Sound(p) && Now() == After(old(Now()), streamId, [p])
    {
      hide Wire, Filler;
      var length := 183 - |part|;
      FillBehindFlags(part);
      ghost var filled := tsbuffer[..];
      var counter, pid := TakeCounter(streamId);
      PutExtension(start, pid, counter, length, false);
      ghost var p := Packet(start, pid, counter, Stuffing(length), part);
      Assembled(tsbuffer[..], filled, p);
      WriteBuffer();
      AfterOne(old(Now()), streamId, p);
    }

    /** A packet with 184 bytes and no adaptation field. */
    method SendFull(start: bool, streamId: nat, part: seq<byte>)
      requires tsbuffer.Length == 188 && Known(streamId) && |part| == 184
      modifies this`vCounter, this`aCounter, this`output, tsbuffer
      ensures var p := Packet(start, PidOf(streamId), CounterOf(old(Now()), streamId) % 16, NoField, part);
              Sound(p) && Now() == After(old(Now()), streamId, [p])
    {
      var counter, pid := TakeCounter(streamId);
      PutHeader(start, pid, 1, counter);
      var end := CopyBytes(tsbuffer, 4, part);
      assert tsbuffer[..] == tsbuffer[..end];
      WriteBuffer();
      AfterOne(old(Now()), streamId, Packet(start, pid, counter, NoField, part));
    }
  
    /** The clock bytes, which stay in the packet buffer until the first packet goes out. */
    method PutClock(base: nat, extension: nat)
      requires tsbuffer.Length == 188 && extension < 0x200
      modifies tsbuffer
      ensures tsbuffer[6..12] == ClockBytes(base % 0x2_0000_0000, extension)
    {
      tsbuffer[6] := base / 0x200_0000 % 0x100;
      tsbuffer[7] := base / 0x2_0000 % 0x100;
      tsbuffer[8] := base / 0x200 % 0x100;
      tsbuffer[9] := base / 2 % 0x100;
      OrReserved(base % 2, extension / 0x100);
      tsbuffer[10] := Or(Or(base % 2 * 0x80, 0x7E), extension / 0x100);
      tsbuffer[11] := extension % 0x100;
      assert tsbuffer[6..12] == ClockBytes(base, extension);
      ClockWraps(base, extension);
    }

    /** The stuffing behind the clock, and the payload at the end of the packet. */
    method FillBehindClock(part: seq<byte>)
      requires tsbuffer.Length == 188 && |part| <= 176
      modifies tsbuffer
      ensures tsbuffer[6..12] == old(tsbuffer[6..12]) && tsbuffer[188 - |part|..] == part
      ensures forall j :: 12 <= j < 188 - |part| ==> tsbuffer[j] == 0xFF
    {
      var n := |part|;
      ghost var before := tsbuffer[..];
      Stuff(12, 188 - n);
      ghost var stuffed := tsbuffer[..];
      assert stuffed[6..12] == stuffed[..12][6..12] == before[6..12];
      var end := CopyBytes(tsbuffer, 188 - n, part);
      ghost var filled := tsbuffer[..];
      assert filled[6..12] == filled[..188 - n][6..12] == stuffed[6..12];
      assert forall j :: 12 <= j < 188 - n ==> filled[j] == stuffed[..188 - n][j];
    }

    /** A packet with the clock in the packet buffer, and 176 bytes or fewer. */
    method SendClock(streamId: nat, part: seq<byte>, ghost base: nat, ghost extension: nat)
      requires tsbuffer.Length == 188 && Known(streamId) && |part| <= 176 && base < 0x2_0000_0000 && extension < 0x200
      requires tsbuffer[6..12] == ClockBytes(base, extension)
      modifies this`vCounter, this`aCounter, this`output, tsbuffer
      ensures var p := Packet(true, PidOf(streamId), CounterOf(old(Now()), streamId) % 16,
                              Clock(base, extension, 183 - |part|), part);
              Sound(p) && Now() == After(old(Now()), streamId, [p])
    {
      hide ClockBytes;
      var length := 183 - |part|;
      FillBehindClock(part);
      ghost var filled := tsbuffer[..];
      var counter, pid := TakeCounter(streamId);
      PutExtension(true, pid, counter, length, true);
      ghost var p := Packet(true, pid, counter, Clock(base, extension, length), part);
      AssembledClock(tsbuffer[..], filled, p);
      WriteBuffer();
      AfterOne(old(Now()), streamId, p);
    }
  
    /** The loop over what has no clock in front. */
    method WritePlain(payload: seq<byte>, streamId: nat, first: bool) returns (count: nat)
      requires tsbuffer.Length == 188 && Known(streamId)
      modifies this`vCounter, this`aCounter, this`output, tsbuffer
      ensures var ps := Cut(payload, PidOf(streamId), CounterOf(old(Now()), streamId), first);
              count == |ps| && Now() == After(old(Now()), streamId, ps)
    {
      hide After, CounterOf;
      ghost var s0, pid, c, done := Now(), PidOf(streamId), CounterOf(Now(), streamId), [];
      ghost var all := Cut(payload, pid, c, first);
      ghost var todo := all;
      var rest, start := payload, first;
      count := 0;
      AfterNone(s0, streamId);
      while |rest| > 0
        invariant count == |done| && c == CounterOf(s0, streamId) + |done| && Now() == After(s0, streamId, done)
        invariant todo == Cut(rest, pid, c, start) && done + todo == all
        decreases |rest|
      {
        var n := if |rest| <= 183 then |rest| else 184;
        todo := CutStep(done, rest, pid, c, start, n);
        done := SendPlain(start, streamId, rest[..n], s0, done);
        rest, start, c := rest[n..], false, c + 1;
        count := count + 1;
      }
      assert done + [] == done;
    }

    /** A packet without clock. */
    method SendPlain(start: bool, streamId: nat, part: seq<byte>, ghost s0: State, ghost done: seq<Packet>)
      returns (ghost done': seq<Packet>)
      requires tsbuffer.Length == 188 && Known(streamId) && |part| <= 184
      requires Now() == After(s0, streamId, done)
      modifies this`vCounter, this`aCounter, this`output, tsbuffer
      ensures done' == done + [Plain(start, PidOf(streamId), CounterOf(s0, streamId) + |done|, part)]
      ensures Now() == After(s0, streamId, done')
    {
      hide After, CounterOf, Wire;
      ghost var p := Plain(start, PidOf(streamId), CounterOf(s0, streamId) + |done|, part);
      AfterMore(s0, streamId, done, [p]);
      if |part| == 184 {
        SendFull(start, streamId, part);
      } else {
        SendStuffed(start, streamId, part);
      }
      done' := done + [p];
    }

    /** `mpegts_write_pes`. */
    method WritePes(payload: seq<byte>, streamId: nat) returns (count: nat)
      requires tsbuffer.Length == 188 && Known(streamId)
      modifies this`vCounter, this`aCounter, this`output, tsbuffer
      ensures var ps := Cut(payload, PidOf(streamId), CounterOf(old(Now()), streamId), true);
              count == |ps| && Now() == After(old(Now()), streamId, ps)
    {
      count := WritePlain(payload, streamId, true);
    }

    /** `mpegts_write_pes_with_pcr`. */
    method WritePesWithPcr(payload: seq<byte>, streamId: nat, base: nat, extension: nat) returns (count: nat)
      requires tsbuffer.Length == 188 && Known(streamId) && extension < 0x200
      modifies this`vCounter, this`aCounter, this`output, tsbuffer
      ensures var ps := CutWithClock(payload, PidOf(streamId), CounterOf(old(Now()), streamId),
                                     base % 0x2_0000_0000, extension);
              count == |ps| && Now() == After(old(Now()), streamId, ps)
    {
      PutClock(base, extension);
      count := WriteWithClock(payload, streamId, base % 0x2_0000_0000, extension);
    }

    /** The loop, with the clock already in the packet buffer. */
    method WriteWithClock(payload: seq<byte>, streamId: nat, ghost base: nat, ghost extension: nat) returns (count: nat)
      requires tsbuffer.Length == 188 && Known(streamId) && base < 0x2_0000_0000 && extension < 0x200
      requires tsbuffer[6..12] == ClockBytes(base, extension)
      modifies this`vCounter, this`aCounter, this`output, tsbuffer
      ensures var ps := CutWithClock(payload, PidOf(streamId), CounterOf(old(Now()), streamId), base, extension);
              count == |ps| && Now() == After(old(Now()), streamId, ps)
    {
      hide After, CounterOf;
      ghost var s0 := Now();
      AfterNone(s0, streamId);
      if |payload| == 0 { return 0; }
      var n := if |payload| <= 176 then |payload| else 176;
      ghost var p, rest := ClockFirst(payload, PidOf(streamId), CounterOf(s0, streamId), base, extension, n);
      AfterMore(s0, streamId, [p], rest);
      SendClock(streamId, payload[..n], base, extension);
      count := 1;
      if n < |payload| {
        var more := WritePlain(payload[n..], streamId, false);
        count := count + more;
      } else {
        AfterNone(Now(), streamId);
      }
    }

    /** `mpegts_write_dummy_with_PID`, `n` times. */
    method WriteDummies(streamId: nat, n: nat)
      requires tsbuffer.Length == 188 && Known(streamId)
      modifies this`vCounter, this`aCounter, this`output, tsbuffer
      ensures Now() == After(old(Now()), streamId, Dummies(PidOf(streamId), CounterOf(old(Now()), streamId), n))
    {
      hide After, CounterOf, Wire, Raw;
      ghost var s0, pid, c0 := Now(), PidOf(streamId), CounterOf(Now(), streamId);
      AfterNone(s0, streamId);
      var i := 0;
      while i < n
        invariant 0 <= i <= n && Now() == After(s0, streamId, Dummies(pid, c0, i))
      {
        DummiesRun(pid, c0, i);
        AfterMore(s0, streamId, Dummies(pid, c0, i), [Packet(false, pid, (c0 + i) % 16, Stuffing(183), [])]);
        SendStuffed(false, streamId, []);
        i := i + 1;
      }
    }
  
    /** `mpegts_write_dummy`: both counters go on to a multiple of 16. */
    method WriteDummy() returns (ghost video: nat, ghost audio: nat)
      requires tsbuffer.Length == 188
      modifies this`vCounter, this`aCounter, this`output, tsbuffer
      ensures vCounter % 16 == 0 && aCounter % 16 == 0 && video < 16 && audio < 16
      ensures var s := After(old(Now()), VIDEO_STREAM_ID, Dummies(VIDEO_PID, old(vCounter), video));
              Now() == After(s, AUDIO_STREAM_ID, Dummies(AUDIO_PID, old(aCounter), audio))
    {
      hide Dummies, Wire, Raw;
      var dummyVideo := (0x10 - vCounter % 16) % 16;
      var dummyAudio := (0x10 - aCounter % 16) % 16;
      video, audio := dummyVideo, dummyAudio;
      Rounded(vCounter);
      Rounded(aCounter);
      DummiesRun(VIDEO_PID, vCounter, video);
      DummiesRun(AUDIO_PID, aCounter, audio);
      WriteDummies(VIDEO_STREAM_ID, dummyVideo);
      WriteDummies(AUDIO_STREAM_ID, dummyAudio);
    }
  }

  lemma Rounded(n: nat)
    ensures (n + (0x10 - n % 16) % 16) % 16 == 0
  {}

  // ---- Segments --------------------------------------------------------------------------------------

  /** A PES packet to send, with a clock reference or without. */
  datatype Pes =
    | Pes(streamId: nat, payload: seq<byte>)
    | PesWithClock(streamId: nat, payload: seq<byte>, base: nat, extension: nat)

  predicate Sendable(p: Pes) {
    Known(p.streamId) && (p.PesWithClock? ==> p.extension < 0x200)
  }

  /** The bytes of the PES packets of one stream. */
  function BytesOf(pess: seq<Pes>, streamId: nat): seq<byte> {
    if pess == [] then []
    else (if pess[0].streamId == streamId then pess[0].payload else []) + BytesOf(pess[1..], streamId)
  }

  lemma {:induction false} BytesSnoc(pess: seq<Pes>, p: Pes, streamId: nat)
    ensures BytesOf(pess + [p], streamId) == BytesOf(pess, streamId) + if p.streamId == streamId then p.payload else []
  {
    if pess == [] {
      assert [p][1..] == [];
    } else {
      BytesSnoc(pess[1..], p, streamId);
      assert (pess + [p])[1..] == pess[1..] + [p];
      Assoc(if pess[0].streamId == streamId then pess[0].payload else [], BytesOf(pess[1..], streamId),
            if p.streamId == streamId then p.payload else []);
    }
  }

  ghost predicate AllSound(ps: seq<Packet>) {
    forall i :: 0 <= i < |ps| ==> Sound(ps[i])
  }

  /** What a demultiplexer receives of the output, packet by packet. */
  function ReceiveAll(output: seq<byte>): seq<Received> {
    if |output| < 188 then [] else [Receive(output[..188])] + ReceiveAll(output[188..])
  }

  function SentAll(ps: seq<Packet>): seq<Received> {
    if ps == [] then [] else [Sent(ps[0])] + SentAll(ps[1..])
  }

  /** All packets are received as they were sent. */
  lemma {:induction false} AllReceived(ps: seq<Packet>)
    requires AllSound(ps)
    ensures ReceiveAll(Concat(Wire, ps)) == SentAll(ps)
  {
    if ps != [] {
      var raw, rest := Raw(ps[0]), Concat(Wire, ps[1..]);
      RawBack(ps[0]);
      AllReceived(ps[1..]);
      assert (raw + rest)[..188] == raw && (raw + rest)[188..] == rest;
    }
  }

  /** The packets of a segment so far: their bytes are the output, the counters of each stream run
      from 0 to where the multiplexer is, and they carry the bytes of the stream. */
  ghost predicate Carries(s: State, ps: seq<Packet>, video: seq<byte>, audio: seq<byte>) {
    && s.output == Concat(Wire, ps) && AllSound(ps)
    && Steady(ps, VIDEO_PID, s.video) && Payloads(OnPid(ps, VIDEO_PID)) == video
    && Steady(ps, AUDIO_PID, s.audio) && Payloads(OnPid(ps, AUDIO_PID)) == audio
  }

  /** A run more, of either stream. */
  lemma {:induction false} CarriesMore(s: State, ps: seq<Packet>, video: seq<byte>, audio: seq<byte>, streamId: nat,
                                       run: seq<Packet>, first: bool)
    requires Carries(s, ps, video, audio) && Known(streamId)
    requires Run(run, PidOf(streamId), CounterOf(s, streamId), first)
    ensures Carries(After(s, streamId, run), ps + run,
                    video + (if streamId == VIDEO_STREAM_ID then Payloads(run) else []),
                    audio + (if streamId == VIDEO_STREAM_ID then [] else Payloads(run)))
  {
    var pid, n := PidOf(streamId), CounterOf(s, streamId);
    ConcatAppend(Wire, ps, run);
    PidCarries(ps, run, pid, n, first, VIDEO_PID, s.video);
    PidCarries(ps, run, pid, n, first, AUDIO_PID, s.audio);
  }

  lemma {:induction false} PidCarries(ps: seq<Packet>, run: seq<Packet>, pid: nat, n: nat, first: bool, q: nat, m: nat)
    requires Steady(ps, q, m) && Run(run, pid, n, first) && (q == pid ==> m == n)
    ensures Steady(ps + run, q, if q == pid then n + |run| else m)
    ensures Payloads(OnPid(ps + run, q)) == Payloads(OnPid(ps, q)) + if q == pid then Payloads(run) else []
  {
    SteadyMore(ps, run, pid, n, first, q, m);
    OnPidAppend(ps, run, q);
    OnPidOfRun(run, pid, n, first, q);
    PayloadsAppend(OnPid(ps, q), OnPid(run, q));
  }

  /** The tables stand at the head, and nothing else is on their PIDs. */
  ghost predicate Tabled(ps: seq<Packet>, pat: seq<byte>, pmt: seq<byte>) {
    && PatPackets(pat, 0) + PmtPackets(pmt, 0) <= ps
    && OnPid(ps, PAT_PID) == PatPackets(pat, 0) && OnPid(ps, PMT_PID) == PmtPackets(pmt, 0)
  }

  lemma TabledMore(ps: seq<Packet>, pat: seq<byte>, pmt: seq<byte>, run: seq<Packet>, pid: nat, n: nat, first: bool)
    requires Tabled(ps, pat, pmt) && Run(run, pid, n, first) && (pid == VIDEO_PID || pid == AUDIO_PID)
    ensures Tabled(ps + run, pat, pmt)
  {
    hide OnPid, PatPackets, PmtPackets;
    OnPidAppend(ps, run, PAT_PID);
    OnPidAppend(ps, run, PMT_PID);
    OnPidOfRun(run, pid, n, first, PAT_PID);
    OnPidOfRun(run, pid, n, first, PMT_PID);
  }

  /** Nothing else on their PIDs: their counters run, too. */
  lemma TabledSteady(ps: seq<Packet>, pat: seq<byte>, pmt: seq<byte>)
    requires Tabled(ps, pat, pmt)
    ensures Steady(ps, PAT_PID, |PatPackets(pat, 0)|) && Steady(ps, PMT_PID, |PmtPackets(pmt, 0)|)
  {
    hide OnPid, PatPackets, PmtPackets;
    PatRuns(pat, 0);
    PmtRuns(pmt, 0);
  }

  /** The tables carry no bytes of a stream. */
  lemma HeadCarries(pat: seq<byte>, pmt: seq<byte>)
    ensures var a, b := PatPackets(pat, 0), PmtPackets(pmt, 0);
            Carries(State(0, 0, Concat(Wire, a) + Concat(Wire, b)), a + b, [], []) && Tabled(a + b, pat, pmt)
  {
    hide PatPackets, PmtPackets, Concat, OnPid;
    var a, b := PatPackets(pat, 0), PmtPackets(pmt, 0);
    PatRuns(pat, 0);
    PmtRuns(pmt, 0);
    ConcatAppend(Wire, a, b);
    HeadOnPid(a, b, VIDEO_PID);
    HeadOnPid(a, b, AUDIO_PID);
    HeadOnPid(a, b, PAT_PID);
    HeadOnPid(a, b, PMT_PID);
    assert a + [] == a;
  }

  lemma {:induction false} HeadOnPid(a: seq<Packet>, b: seq<Packet>, pid: nat)
    requires Run(a, PAT_PID, 0, true) && Run(b, PMT_PID, 0, true)
    ensures OnPid(a + b, pid) == (if pid == PAT_PID then a else []) + (if pid == PMT_PID then b else [])
  {
    OnPidAppend(a, b, pid);
    OnPidOfRun(a, PAT_PID, 0, true, pid);
    OnPidOfRun(b, PMT_PID, 0, true, pid);
  }

  /** What a demultiplexer gathers of one PID. */
  function Gathered(rs: seq<Received>, pid: nat): seq<byte> {
    if rs == [] then [] else (if rs[0].pid == pid then rs[0].payload else []) + Gathered(rs[1..], pid)
  }

  lemma {:induction false} GatheredSent(ps: seq<Packet>, pid: nat)
    ensures Gathered(SentAll(ps), pid) == Payloads(OnPid(ps, pid))
  {
    if ps != [] {
      GatheredSent(ps[1..], pid);
      var rest := OnPid(ps[1..], pid);
      assert SentAll(ps) == [Sent(ps[0])] + SentAll(ps[1..]) && SentAll(ps)[1..] == SentAll(ps[1..]);
      if ps[0].pid == pid {
        assert OnPid(ps, pid) == [ps[0]] + rest && ([ps[0]] + rest)[1..] == rest;
      } else {
        assert OnPid(ps, pid) == [] + rest == rest;
        assert [] + Gathered(SentAll(ps[1..]), pid) == Gathered(SentAll(ps[1..]), pid);
      }
    }
  }

  lemma SegmentReceived(s: State, ps: seq<Packet>, video: seq<byte>, audio: seq<byte>)
    requires Carries(s, ps, video, audio)
    ensures Gathered(ReceiveAll(s.output), 0x100) == video && Gathered(ReceiveAll(s.output), 0x101) == audio
  {
    hide ReceiveAll, SentAll, OnPid, Concat, Payloads;
    AllReceived(ps);
    GatheredSent(ps, 0x100);
    GatheredSent(ps, 0x101);
  }

  /** A segment, as `flv2ts` orders the calls: reset, the two tables, the PES packets, the padding. On
      each PID the counters run 0, 1, 2, ... mod 16, those of the streams stop at 15, and nothing of a
      stream is lost. */
  method WriteSegment(mux: Muxer, pat: seq<byte>, pmt: seq<byte>, pess: seq<Pes>) returns (ghost ps: seq<Packet>)
    requires mux.tsbuffer.Length == 188 && forall p :: p in pess ==> Sendable(p)
    modifies mux`vCounter, mux`aCounter, mux`patCounter, mux`pmtCounter, mux`output, mux.tsbuffer
    ensures Carries(mux.Now(), ps, BytesOf(pess, VIDEO_STREAM_ID), BytesOf(pess, AUDIO_STREAM_ID))
    ensures Tabled(ps, pat, pmt) && Steady(ps, PAT_PID, mux.patCounter) && Steady(ps, PMT_PID, mux.pmtCounter)
    ensures mux.vCounter % 16 == 0 && mux.aCounter % 16 == 0
    ensures Gathered(ReceiveAll(mux.output), 0x100) == BytesOf(pess, 0xE0)
    ensures Gathered(ReceiveAll(mux.output), 0x101) == BytesOf(pess, 0xC0)
  {
    hide Carries, Tabled, Steady, PatPackets, PmtPackets, Concat, BytesOf;
    HeadCarries(pat, pmt);
    mux.Reset();
    var _ := mux.WritePat(pat);
    var _ := mux.WritePmt(pmt);
    ps := PatPackets(pat, 0) + PmtPackets(pmt, 0);
    ghost var a, b := Concat(Wire, PatPackets(pat, 0)), Concat(Wire, PmtPackets(pmt, 0));
    assert [] + a + b == a + b;
    var i := 0;
    NothingSent(pess);
    while i < |pess|
      invariant 0 <= i <= |pess| && Tabled(ps, pat, pmt)
      invariant Carries(mux.Now(), ps, BytesOf(pess[..i], VIDEO_STREAM_ID), BytesOf(pess[..i], AUDIO_STREAM_ID))
      invariant mux.patCounter == |PatPackets(pat, 0)| && mux.pmtCounter == |PmtPackets(pmt, 0)|
    {
      ps := SendPes(mux, pess[i], pess[..i], ps, pat, pmt);
      assert pess[..i + 1] == pess[..i] + [pess[i]];
      i := i + 1;
    }
    assert pess[..i] == pess;
    ps := Pad(mux, pess, ps, pat, pmt);
    TabledSteady(ps, pat, pmt);
    SegmentReceived(mux.Now(), ps, BytesOf(pess, VIDEO_STREAM_ID), BytesOf(pess, AUDIO_STREAM_ID));
  }

  lemma NothingSent(pess: seq<Pes>)
    ensures BytesOf(pess[..0], VIDEO_STREAM_ID) == BytesOf(pess[..0], AUDIO_STREAM_ID) == []
  {}

  method SendPes(mux: Muxer, p: Pes, ghost sent: seq<Pes>, ghost ps: seq<Packet>,
                 ghost pat: seq<byte>, ghost pmt: seq<byte>) returns (ghost ps': seq<Packet>)
    requires mux.tsbuffer.Length == 188 && Sendable(p) && Tabled(ps, pat, pmt)
    requires Carries(mux.Now(), ps, BytesOf(sent, VIDEO_STREAM_ID), BytesOf(sent, AUDIO_STREAM_ID))
    modifies mux`vCounter, mux`aCounter, mux`output, mux.tsbuffer
    ensures Carries(mux.Now(), ps', BytesOf(sent + [p], VIDEO_STREAM_ID), BytesOf(sent + [p], AUDIO_STREAM_ID))
    ensures Tabled(ps', pat, pmt)
  {
    hide Tabled;
    ghost var s, pid := mux.Now(), PidOf(p.streamId);
    ghost var run;
    match p {
      case Pes(streamId, payload) =>
        run := Cut(payload, pid, CounterOf(s, streamId), true);
        CutLossless(payload, pid, CounterOf(s, streamId), true);
        var _ := mux.WritePes(payload, streamId);
      case PesWithClock(streamId, payload, base, extension) =>
        run := CutWithClock(payload, pid, CounterOf(s, streamId), base % 0x2_0000_0000, extension);
        CutWithClockLossless(payload, pid, CounterOf(s, streamId), base % 0x2_0000_0000, extension);
        var _ := mux.WritePesWithPcr(payload, streamId, base, extension);
    }
    CarriesMore(s, ps, BytesOf(sent, VIDEO_STREAM_ID), BytesOf(sent, AUDIO_STREAM_ID), p.streamId, run, true);
    TabledMore(ps, pat, pmt, run, pid, CounterOf(s, p.streamId), true);
    BytesSnoc(sent, p, VIDEO_STREAM_ID);
    BytesSnoc(sent, p, AUDIO_STREAM_ID);
    ps' := ps + run;
  }

  method Pad(mux: Muxer, ghost pess: seq<Pes>, ghost ps: seq<Packet>, ghost pat: seq<byte>, ghost pmt: seq<byte>)
    returns (ghost ps': seq<Packet>)
    requires mux.tsbuffer.Length == 188 && Tabled(ps, pat, pmt)
    requires Carries(mux.Now(), ps, BytesOf(pess, VIDEO_STREAM_ID), BytesOf(pess, AUDIO_STREAM_ID))
    modifies mux`vCounter, mux`aCounter, mux`output, mux.tsbuffer
    ensures Carries(mux.Now(), ps', BytesOf(pess, VIDEO_STREAM_ID), BytesOf(pess, AUDIO_STREAM_ID))
    ensures Tabled(ps', pat, pmt) && mux.vCounter % 16 == 0 && mux.aCounter % 16 == 0
  {
    hide Tabled;
    ghost var s, v, a := mux.Now(), BytesOf(pess, VIDEO_STREAM_ID), BytesOf(pess, AUDIO_STREAM_ID);
    ghost var video, audio := mux.WriteDummy();
    ghost var vs, zs := Dummies(VIDEO_PID, s.video, video), Dummies(AUDIO_PID, s.audio, audio);
    DummiesRun(VIDEO_PID, s.video, video);
    DummiesRun(AUDIO_PID, s.audio, audio);
    CarriesMore(s, ps, v, a, VIDEO_STREAM_ID, vs, false);
    CarriesMore(After(s, VIDEO_STREAM_ID, vs), ps + vs, v, a, AUDIO_STREAM_ID, zs, false);
    TabledMore(ps, pat, pmt, vs, VIDEO_PID, s.video, false);
    TabledMore(ps + vs, pat, pmt, zs, AUDIO_PID, s.audio, false);
    ps' := ps + vs + zs;
  }
}
