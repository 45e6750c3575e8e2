/** H.264 access units on their way into an FLV tag and out again: start codes are replaced by
    lengths (`FLV.cpp:502-598`) and lengths, in place, by start codes (`flv2ts.c:222-238`). */
module AnnexB {
  import opened Bytes
  import opened Sequences
  import opened StartCode

  const NAL_SLICE_IDR := 5
  const NAL_SPS := 7
  const NAL_PPS := 8

  /** A NAL unit as the tag writer sees it: the type it reads, and the bytes it copies. */
  datatype Unit = Unit(kind: nat, data: seq<byte>)

  // ---- Cutting a payload into units ------------------------------------------------------------

  /** `ff_avc_find_startcode`: one zero before the start code belongs to it. */
  function NextCode(s: seq<byte>, p: nat, e: nat): (r: nat)
    requires p <= e <= |s|
    ensures p <= r <= e
  {
    var out := FirstCode(s, p, e);
    if p < out < e && s[out - 1] == 0 then out - 1 else out
  }

  /** A start code, with or without one more zero, begins at `r` and ends before `e`. */
  predicate Begins(s: seq<byte>, r: nat, e: nat) {
    (r + 3 < e <= |s| && Code(s, r)) || (r + 4 < e <= |s| && s[r] == 0 && Code(s, r + 1))
  }

  /** The index behind the start code at `r`. */
  function Behind(s: seq<byte>, r: nat): nat {
    if Code(s, r) then r + 3 else r + 4
  }

  lemma NextCodeBegins(s: seq<byte>, p: nat, e: nat)
    requires p <= e <= |s|
    ensures NextCode(s, p, e) == e || Begins(s, NextCode(s, p, e), e)
  {
    FirstCodeLeast(s, p, e, FirstCode(s, p, e));
  }

  /** The units of an Annex B stream from the start code at `r` on. */
  function Split(s: seq<byte>, r: nat, e: nat): seq<Unit>
    requires r <= e <= |s| && (r == e || Begins(s, r, e))
    decreases e - r
  {
    if r == e then []
    else
      var q := Behind(s, r);
      var next := NextCode(s, q, e);
      NextCodeBegins(s, q, e);
      [Unit(s[q] % 0x20, s[q..next])] + Split(s, next, e)
  }

  /** What is read of a length-prefixed payload is there: the four bytes of each length, although it
      may begin less than four bytes before `e`, and the unit it announces, unless it is too large. */
  predicate LengthsThere(s: seq<byte>, r: nat, e: nat)
    decreases e - r
  {
    r < e ==>
      && r + 4 <= |s|
      && (r + Get32(s, r) <= e ==>
            r + 5 <= |s| && r + 4 + Get32(s, r) <= |s| && LengthsThere(s, r + 4 + Get32(s, r), e))
  }

  /** The units of a length-prefixed payload. A length that is too large ends it. */
  function Lengths(s: seq<byte>, r: nat, e: nat): seq<Unit>
    requires LengthsThere(s, r, e)
    decreases e - r
  {
    if r >= e then []
    else
      var n := Get32(s, r);
      if r + n > e then []
      else [Unit(s[r + 4] % 0x20, s[r + 4..r + 4 + n])] + Lengths(s, r + 4 + n, e)
  }

  /** The first four bytes are always read. */
  predicate InReach(s: seq<byte>, e: nat) {
    4 <= |s| && e <= |s| && (s[..4] != [0, 0, 0, 1] ==> LengthsThere(s, 0, e))
  }

  function Units(s: seq<byte>, e: nat): seq<Unit>
    requires InReach(s, e)
  {
    if s[..4] == [0, 0, 0, 1] then
      NextCodeBegins(s, 0, e);
      Split(s, NextCode(s, 0, e), e)
    else Lengths(s, 0, e)
  }

  /** Parameter sets are left out of the frame. */
  predicate Kept(u: Unit) {
    u.kind != NAL_SPS && u.kind != NAL_PPS
  }

  function Keep(us: seq<Unit>): seq<Unit> {
    if us == [] then [] else (if Kept(us[0]) then [us[0]] else []) + Keep(us[1..])
  }

  function Lengthed(u: Unit): seq<byte> {
    Be32(|u.data| % 0x1_0000_0000) + u.data
  }

  /** The units, each behind its length. */
  function Prefixed(us: seq<Unit>): seq<byte> {
    Concat(Lengthed, us)
  }

  /** The five bytes before the units say, by the first of them, whether this is a key frame. */
  function TagHeader(us: seq<Unit>): seq<byte>
    requires us != []
  {
    [if us[0].kind == NAL_SLICE_IDR then 0x17 else 0x27, 1, 0, 0, 0]
  }

  lemma {:induction false} KeepSnoc(us: seq<Unit>, u: Unit)
    ensures Keep(us + [u]) == Keep(us) + if Kept(u) then [u] else []
  {
    if us == [] {
      assert [u][1..] == [];
    } else {
      KeepSnoc(us[1..], u);
      assert (us + [u])[1..] == us[1..] + [u];
      Assoc(if Kept(us[0]) then [us[0]] else [], Keep(us[1..]), if Kept(u) then [u] else []);
    }
  }

  /** The units of type 7 and 8 are left out, and only those; the others stay in their order. */
  lemma {:induction false} KeepKinds(us: seq<Unit>, u: Unit)
    ensures u in Keep(us) <==> u in us && u.kind != 7 && u.kind != 8
    ensures Keep([u]) == if u.kind == 7 || u.kind == 8 then [] else [u]
  {
    assert [u][1..] == [];
    if us != [] {
      KeepKinds(us[1..], u);
    }
  }

  /** The type is in the low five bits of the first byte. */
  predicate Typed(u: Unit) {
    u.data != [] ==> u.kind == u.data[0] as int % 0x20
  }

  lemma {:induction false} SplitTyped(s: seq<byte>, r: nat, e: nat)
    requires r <= e <= |s| && (r == e || Begins(s, r, e))
    ensures forall u :: u in Split(s, r, e) ==> Typed(u)
    decreases e - r
  {
    if r < e {
      var next := NextCode(s, Behind(s, r), e);
      NextCodeBegins(s, Behind(s, r), e);
      SplitTyped(s, next, e);
    }
  }

  lemma {:induction false} LengthsTyped(s: seq<byte>, r: nat, e: nat)
    requires LengthsThere(s, r, e)
    ensures forall u :: u in Lengths(s, r, e) ==> Typed(u)
    decreases e - r
  {
    if r < e && r + Get32(s, r) <= e {
      LengthsTyped(s, r + 4 + Get32(s, r), e);
    }
  }

  lemma {:induction false} UnitsTyped(s: seq<byte>, e: nat)
    requires InReach(s, e)
    ensures forall u :: u in Units(s, e) ==> Typed(u)
  {
    if s[..4] == [0, 0, 0, 1] {
      NextCodeBegins(s, 0, e);
      SplitTyped(s, NextCode(s, 0, e), e);
    } else {
      LengthsTyped(s, 0, e);
    }
  }

  /** A tag with units in it, in octets: 17 before a coded slice of an instantaneous refresh, 27 before any
      other, and 01 00 00 00. */
  lemma TagOctets(kept: seq<Unit>, tag: seq<byte>)
    requires kept != [] && tag == TagHeader(kept) + Prefixed(kept) && Typed(kept[0]) && |kept[0].data| < 0x1_0000_0000
    ensures |tag| >= 9 && Get32(tag, 5) == |kept[0].data| && tag[1..5] == [1, 0, 0, 0]
    ensures tag[0] == if kept[0].kind == 5 then 0x17 else 0x27
    ensures Get32(tag, 5) > 0 ==> |tag| > 9 && tag[0] == if tag[9] as int % 0x20 == 5 then 0x17 else 0x27
  {
    hide Prefixed, Get32;
    FirstPrefixed(kept, tag);
  }

  lemma FirstPrefixed(us: seq<Unit>, tag: seq<byte>)
    requires us != [] && |us[0].data| < 0x1_0000_0000 && |tag| >= 5 && tag[5..] == Prefixed(us)
    ensures |tag| >= 9 && Get32(tag, 5) == |us[0].data|
    ensures us[0].data != [] ==> |tag| > 9 && tag[9] == us[0].data[0]
  {
    hide Concat, Be32, Get32, At;
    var u, rest := us[0], Concat(Lengthed, us[1..]);
    ConcatFirst(Lengthed, us);
    Assoc(Be32(|u.data|), u.data, rest);
    Placed(tag, 5, Be32(|u.data|) + (u.data + rest));
    AtSplit(tag, 5, Be32(|u.data|), u.data + rest);
    AtSplit(tag, 9, u.data, rest);
    Read32(tag, 5, |u.data|);
    if u.data != [] { AtByte(tag, 9, u.data, 0); }
    Reaches(tag, 5, Be32(|u.data|));
    Reaches(tag, 9, u.data);
  }

  lemma Placed(s: seq<byte>, p: nat, part: seq<byte>)
    requires p <= |s| && s[p..] == part
    ensures At(s, p, part)
  {
    assert p + |part| == |s|;
  }

  lemma Reaches(s: seq<byte>, p: nat, part: seq<byte>)
    requires At(s, p, part)
    ensures p + |part| <= |s|
  {}

  lemma {:induction false} UnitsFit(s: seq<byte>, e: nat, u: Unit)
    requires InReach(s, e) && e < 0x1_0000_0000 && u in Units(s, e)
    ensures |u.data| < 0x1_0000_0000
  {
    if s[..4] == [0, 0, 0, 1] {
      NextCodeBegins(s, 0, e);
      SplitFits(s, NextCode(s, 0, e), e, u);
    } else {
      LengthsFit(s, 0, e, u);
    }
  }

  lemma {:induction false} SplitFits(s: seq<byte>, r: nat, e: nat, u: Unit)
    requires r <= e <= |s| && (r == e || Begins(s, r, e)) && u in Split(s, r, e)
    ensures |u.data| <= e
    decreases e - r
  {
    var next := NextCode(s, Behind(s, r), e);
    NextCodeBegins(s, Behind(s, r), e);
    if u in Split(s, next, e) { SplitFits(s, next, e, u); }
  }

  lemma {:induction false} LengthsFit(s: seq<byte>, r: nat, e: nat, u: Unit)
    requires LengthsThere(s, r, e) && u in Lengths(s, r, e)
    ensures |u.data| <= e
    decreases e - r
  {
    var next := r + 4 + Get32(s, r);
    if u in Lengths(s, next, e) { LengthsFit(s, next, e, u); }
  }

  // ---- Writing the tag -----------------------------------------------------------------------------

  method FindStartcode(s: seq<byte>, p: nat, e: nat, base: nat) returns (out: nat)
    requires p <= e <= |s|
    ensures out == NextCode(s, p, e)
  {
    out := FindInternal(s, p, e, base);
    if p < out < e && s[out - 1] == 0 {
      out := out - 1;
    }
  }

  /** The tag so far: the header, if there is one, and the units kept of `us`. */
  ghost predicate Filled(part: seq<byte>, before: seq<byte>, us: seq<Unit>, found: bool) {
    && (found <==> Keep(us) != [])
    && part == (if found then TagHeader(Keep(us)) else before) + Prefixed(Keep(us))
  }

  method PutHeader(tag: array<byte>, kind: nat)
    requires tag.Length >= 5
    modifies tag
    ensures forall data: seq<byte> :: tag[..5] == TagHeader([Unit(kind, data)])
  {
    tag[0] := if kind == NAL_SLICE_IDR then 0x17 else 0x27;
    tag[1] := 0x01;
    tag[2] := 0x00;
    tag[3] := 0x00;
    tag[4] := 0x00;
  }

  /** One unit: the header before the first one kept, then its length and its bytes. */
  method PutUnit(ghost us: seq<Unit>, u: Unit, tag: array<byte>, offset: nat, found: bool, ghost before: seq<byte>)
    returns (offset': nat, found': bool)
    requires 5 <= offset <= tag.Length && |before| == 5 && |u.data| < 0x1_0000_0000
    requires Kept(u) ==> offset + 4 + |u.data| <= tag.Length
    requires Filled(tag[..offset], before, us, found)
    modifies tag
    ensures offset' == (if Kept(u) then offset + 4 + |u.data| else offset) <= tag.Length
    ensures Filled(tag[..offset'], before, us + [u], found')
  {
    if u.kind == NAL_SPS || u.kind == NAL_PPS {
      KeepSnoc(us, u);
      assert Keep(us) + [] == Keep(us);
      return offset, found;
    }
    ghost var part := tag[..offset];
    if !found {
      PutHeader(tag, u.kind);
      assert part == before + [] && tag[..offset] == TagHeader([u]);
    }
    ghost var part' := tag[..offset];
    found' := true;
    offset' := CopyBytes(tag, offset, Be32(|u.data|));
    offset' := CopyBytes(tag, offset', u.data);
    FilledMore(part, before, us, u, found, part');
    assert tag[..offset'] == part' + Be32(|u.data|) + u.data;
  }

  /** A unit more that is kept. */
  lemma FilledMore(part: seq<byte>, before: seq<byte>, us: seq<Unit>, u: Unit, found: bool, part': seq<byte>)
    requires Filled(part, before, us, found) && Kept(u) && |u.data| < 0x1_0000_0000
    requires part' == if found then part else TagHeader([u])
    ensures Filled(part' + Be32(|u.data|) + u.data, before, us + [u], true)
  {
    hide Keep, Prefixed, TagHeader, Be32, Kept;
    var kept, code := Keep(us), Be32(|u.data|);
    KeepSnoc(us, u);
    PrefixedSnoc(kept, u);
    FirstKept(kept, u);
    var head, pre := TagHeader(kept + [u]), Prefixed(kept);
    HeadOf(kept, u, before);
    assert part' == head + pre;
    AssocFour(head, pre, code, u.data);
  }

  lemma PrefixedSnoc(kept: seq<Unit>, u: Unit)
    requires |u.data| < 0x1_0000_0000
    ensures Prefixed(kept + [u]) == Prefixed(kept) + (Be32(|u.data|) + u.data)
  {
    hide Concat, Be32;
    ConcatSnoc(Lengthed, kept, u);
  }

  lemma HeadOf(kept: seq<Unit>, u: Unit, before: seq<byte>)
    ensures kept == [] ==> TagHeader([u]) + Prefixed(kept) == TagHeader([u]) && before + Prefixed(kept) == before
  {
    if kept == [] {
      assert Prefixed(kept) == [];
    }
  }

  lemma FirstKept(kept: seq<Unit>, u: Unit)
    ensures TagHeader(kept + [u]) == if kept == [] then TagHeader([u]) else TagHeader(kept)
  {}

  /** `while (!*(r++));` from the start code at `start`. */
  method SkipCode(s: seq<byte>, start: nat, e: nat) returns (r: nat)
    requires Begins(s, start, e)
    ensures r == Behind(s, start) < e
  {
    r := start;
    var b := s[r];
    r := r + 1;
    while b == 0
      invariant start < r <= Behind(s, start) && b == s[r - 1]
      invariant r == Behind(s, start) ==> b == 1
      decreases e - r
    {
      b := s[r];
      r := r + 1;
    }
  }

  lemma FilledNone(before: seq<byte>)
    ensures Filled(before, before, [], false)
  {
    assert before + [] == before;
  }

  lemma {:induction false} SplitStart(s: seq<byte>, e: nat)
    requires InReach(s, e) && s[..4] == [0, 0, 0, 1]
    ensures var r := NextCode(s, 0, e); (r == e || Begins(s, r, e)) && [] + Split(s, r, e) == Units(s, e)
  {
    NextCodeBegins(s, 0, e);
  }

  lemma {:induction false} SplitEnd(us: seq<Unit>, s: seq<byte>, e: nat)
    requires e <= |s|
    ensures us + Split(s, e, e) == us
  {
  }

  /** A unit more that is kept finds room where all the units do. */
  lemma {:induction false} RoomFor(us: seq<Unit>, u: Unit, rest: seq<Unit>)
    ensures |Prefixed(Keep(us))| + (if Kept(u) then 4 + |u.data| else 0) <= |Prefixed(Keep(us + [u] + rest))|
    ensures |Prefixed(Keep(us + [u]))| == |Prefixed(Keep(us))| + if Kept(u) then 4 + |u.data| else 0
  {
    KeepSnoc(us, u);
    if Kept(u) {
      ConcatSnoc(Lengthed, Keep(us), u);
    } else {
      assert Keep(us) + [] == Keep(us);
    }
    KeepAppend(us + [u], rest);
    ConcatAppend(Lengthed, Keep(us + [u]), Keep(rest));
  }

  lemma {:induction false} KeepAppend(a: seq<Unit>, b: seq<Unit>)
    ensures Keep(a + b) == Keep(a) + Keep(b)
  {
    if a == [] {
      assert a + b == b;
    } else {
      KeepAppend(a[1..], b);
      assert (a + b)[1..] == a[1..] + b;
      Assoc(if Kept(a[0]) then [a[0]] else [], Keep(a[1..]), Keep(b));
    }
  }

  /** The Annex B branch. */
  method FromAnnexB(s: seq<byte>, e: nat, base: nat, tag: array<byte>) returns (dataLen: nat, found: bool)
    requires InReach(s, e) && e < 0x1_0000_0000 && s[..4] == [0, 0, 0, 1]
    requires tag.Length >= 5 + |Prefixed(Keep(Units(s, e)))|
    modifies tag
    ensures dataLen == 5 + |Prefixed(Keep(Units(s, e)))|
    ensures Filled(tag[..dataLen], old(tag[..5]), Units(s, e), found)
  {
    hide Filled, Units, Split, Begins, NextCode, Keep, Prefixed;
    ghost var before, us := tag[..5], [];
    dataLen, found := 5, false;
    FilledNone(tag[..5]);
    SplitStart(s, e);
    var r := FindStartcode(s, 0, e, base);
    NextCodeBegins(s, 0, e);
    while r < e
      invariant r <= e && (r == e || Begins(s, r, e))
      invariant us + Split(s, r, e) == Units(s, e)
      invariant dataLen == 5 + |Prefixed(Keep(us))| <= tag.Length
      invariant Filled(tag[..dataLen], before, us, found)
    {
      ghost var start := r;
      r := SkipCode(s, r, e);
      var r1 := FindStartcode(s, r, e, base);
      NextCodeBegins(s, r, e);
      var u := Unit(s[r] % 0x20, s[r..r1]);
      SplitStep(us, s, start, e, u);
      RoomFor(us, u, Split(s, r1, e));
      dataLen, found := PutUnit(us, u, tag, dataLen, found, before);
      us := us + [u];
      r := r1;
    }
    SplitEnd(us, s, e);
  }

  lemma {:induction false} SplitStep(us: seq<Unit>, s: seq<byte>, r: nat, e: nat, u: Unit)
    requires r < e <= |s| && Begins(s, r, e)
    requires var q := Behind(s, r); u == Unit(s[q] % 0x20, s[q..NextCode(s, q, e)])
    ensures var next := NextCode(s, Behind(s, r), e);
            (next == e || Begins(s, next, e)) && us + Split(s, r, e) == us + [u] + Split(s, next, e)
  {
    NextCodeBegins(s, Behind(s, r), e);
  }

  lemma {:induction false} UnitsAreLengths(s: seq<byte>, e: nat)
    requires InReach(s, e) && s[..4] != [0, 0, 0, 1]
    ensures [] + Lengths(s, 0, e) == Units(s, e)
  {
  }

  lemma {:induction false} LengthsEnd(us: seq<Unit>, s: seq<byte>, r: nat, e: nat)
    requires LengthsThere(s, r, e) && (r < e ==> r + Get32(s, r) > e)
    ensures us + Lengths(s, r, e) == us
  {
  }

  lemma LengthsStep(us: seq<Unit>, s: seq<byte>, r: nat, e: nat, u: Unit)
    requires LengthsThere(s, r, e) && r < e && r + Get32(s, r) <= e
    requires u == Unit(s[r + 4] % 0x20, s[r + 4..r + 4 + Get32(s, r)])
    ensures us + Lengths(s, r, e) == us + [u] + Lengths(s, r + 4 + Get32(s, r), e)
  {
    var rest := Lengths(s, r + 4 + Get32(s, r), e);
    assert Lengths(s, r, e) == [u] + rest;
    Assoc(us, [u], rest);
  }

  /** A length ends the units exactly if it leads past the end from where it stands, not from behind itself. */
  lemma {:induction false} LengthsEndIff(s: seq<byte>, r: nat, e: nat)
    requires LengthsThere(s, r, e) && r < e
    ensures Lengths(s, r, e) == [] <==> r + Get32(s, r) > e
  {}

  /** Units written behind their lengths are cut out again. */
  lemma {:induction false} LengthsBack(s: seq<byte>, r: nat, e: nat, us: seq<Unit>)
    requires At(s, r, Prefixed(us)) && r + |Prefixed(us)| == e && Short(us)
    requires forall i :: 0 <= i < |us| ==> us[i].data != [] && us[i].kind == us[i].data[0] as int % 0x20
    ensures LengthsThere(s, r, e) && Lengths(s, r, e) == us
    decreases us
  {
    hide Prefixed, At, LengthsThere, Lengths, Get32;
    NoneLeft(us);
    if us == [] {
      LengthsNone(s, r);
    } else {
      var u, q := us[0], r + 4 + |us[0].data|;
      UnitThere(s, r, us);
      AtByte(s, r + 4, u.data, 0);
      LengthsBack(s, q, e, us[1..]);
      LengthsFirst(s, r, e, u);
    }
  }

  lemma {:induction false} LengthsNone(s: seq<byte>, e: nat)
    ensures LengthsThere(s, e, e) && Lengths(s, e, e) == []
  {}

  lemma LengthsFirst(s: seq<byte>, r: nat, e: nat, u: Unit)
    requires r + 4 + |u.data| <= e && r + 4 + |u.data| <= |s| && u.data != [] && Get32(s, r) == |u.data|
    requires At(s, r + 4, u.data) && u.kind == u.data[0] as int % 0x20 && LengthsThere(s, r + 4 + |u.data|, e)
    ensures LengthsThere(s, r, e) && Lengths(s, r, e) == [u] + Lengths(s, r + 4 + |u.data|, e)
  {
    hide Get32;
    AtByte(s, r + 4, u.data, 0);
    assert s[r + 4..r + 4 + |u.data|] == u.data;
  }

  /** So they are of a whole payload, unless the first has one byte, whose length looks like a start code. */
  lemma {:induction false} PrefixedBack(s: seq<byte>, e: nat, us: seq<Unit>)
    requires e <= |s| && s[..e] == Prefixed(us) && us != [] && Short(us) && |us[0].data| != 1
    requires forall i :: 0 <= i < |us| ==> us[i].data != [] && us[i].kind == us[i].data[0] as int % 0x20
    ensures InReach(s, e) && Units(s, e) == us
  {
    hide Prefixed, LengthsThere, Lengths, Short;
    assert s[0..e] == s[..e];
    LengthsBack(s, 0, e, us);
    UnitThere(s, 0, us);
    CodeIsOne(s);
  }

  lemma CodeIsOne(s: seq<byte>)
    requires |s| >= 4
    ensures s[..4] == [0, 0, 0, 1] <==> Get32(s, 0) == 1
  {
    assert s[..4] == [s[0], s[1], s[2], s[3]];
  }

  /** The length-prefixed branch. */
  method FromLengths(s: seq<byte>, e: nat, tag: array<byte>) returns (dataLen: nat, found: bool)
    requires InReach(s, e) && e < 0x1_0000_0000 && s[..4] != [0, 0, 0, 1]
    requires tag.Length >= 5 + |Prefixed(Keep(Units(s, e)))|
    modifies tag
    ensures dataLen == 5 + |Prefixed(Keep(Units(s, e)))|
    ensures Filled(tag[..dataLen], old(tag[..5]), Units(s, e), found)
  {
    hide Filled, Units, Lengths, Keep, Prefixed;
    ghost var before, us := tag[..5], [];
    dataLen, found := 5, false;
    FilledNone(tag[..5]);
    UnitsAreLengths(s, e);
    var r := 0;
    while r < e
      invariant LengthsThere(s, r, e) && us + Lengths(s, r, e) == Units(s, e)
      invariant dataLen == 5 + |Prefixed(Keep(us))| <= tag.Length
      invariant Filled(tag[..dataLen], before, us, found)
    {
      var n := Get32(s, r);
      if r + n > e {
        break;
      }
      var u := Unit(s[r + 4] % 0x20, s[r + 4..r + 4 + n]);
      LengthsStep(us, s, r, e, u);
      RoomFor(us, u, Lengths(s, r + 4 + n, e));
      dataLen, found := PutUnit(us, u, tag, dataLen, found, before);
      us, r := us + [u], r + 4 + n;
    }
    LengthsEnd(us, s, r, e);
  }

  /** `generate_video_tag_data`. */
  method GenerateVideoTagData(s: seq<byte>, e: nat, base: nat, tag: array<byte>) returns (dataLen: nat)
    requires InReach(s, e) && e < 0x1_0000_0000 && tag.Length >= 5 + |Prefixed(Keep(Units(s, e)))|
    modifies tag
    ensures dataLen == 5 + |Prefixed(Keep(Units(s, e)))|
    ensures var kept := Keep(Units(s, e));
            tag[..dataLen] == (if kept != [] then TagHeader(kept) else old(tag[..5])) + Prefixed(kept)
    ensures var kept := Keep(Units(s, e));
            kept != [] ==>
              && dataLen >= 9 && tag[1..5] == [1, 0, 0, 0] && tag[0] == (if kept[0].kind == 5 then 0x17 else 0x27)
              && (Get32(tag[..], 5) > 0 ==> dataLen > 9 && tag[0] == if tag[9] as int % 0x20 == 5 then 0x17 else 0x27)
  {
    hide Filled, Units, Keep, Prefixed, TagHeader, Typed, LengthsThere;
    var found: bool;
    if s[0] == 0 && s[1] == 0 && s[2] == 0 && s[3] == 1 {
      dataLen, found := FromAnnexB(s, e, base, tag);
    } else {
      dataLen, found := FromLengths(s, e, tag);
    }
    FilledIs(tag[..dataLen], old(tag[..5]), Units(s, e), found);
    FirstOctets(s, e, tag[..dataLen], tag[..]);
  }

  lemma {:induction false} FilledIs(part: seq<byte>, before: seq<byte>, us: seq<Unit>, found: bool)
    requires Filled(part, before, us, found)
    ensures part == (if Keep(us) != [] then TagHeader(Keep(us)) else before) + Prefixed(Keep(us))
  {}

  lemma {:induction false} FirstOctets(s: seq<byte>, e: nat, part: seq<byte>, tag: seq<byte>)
    requires InReach(s, e) && e < 0x1_0000_0000 && part <= tag
    requires Keep(Units(s, e)) != [] ==> part == TagHeader(Keep(Units(s, e))) + Prefixed(Keep(Units(s, e)))
    ensures var kept := Keep(Units(s, e));
            kept != [] ==>
              && |part| >= 9 && tag[1..5] == [1, 0, 0, 0] && tag[0] == (if kept[0].kind == 5 then 0x17 else 0x27)
              && (Get32(tag, 5) > 0 ==> |part| > 9 && tag[0] == if tag[9] as int % 0x20 == 5 then 0x17 else 0x27)
  {
    hide Units, Keep, Prefixed, TagHeader, InReach;
    var kept := Keep(Units(s, e));
    if kept != [] {
      KeepKinds(Units(s, e), kept[0]);
      UnitsTyped(s, e);
      UnitsFit(s, e, kept[0]);
      TagOctets(kept, part);
      assert forall k :: 0 <= k < |part| ==> tag[k] == part[k];
      assert tag[1..5] == part[1..5];
    }
  }

  // ---- Back to start codes, in place ---------------------------------------------------------------

  const LONG_CODE: seq<byte> := [0, 0, 0, 1]

  function Coded(u: Unit): seq<byte> {
    LONG_CODE + u.data
  }

  predicate Short(us: seq<Unit>) {
    forall i :: 0 <= i < |us| ==> |us[i].data| < 0x1_0000_0000
  }

  /** `skip_sz + frame_sz + 4` on 32 bits. */
  function Behind32(skip: uint32, size: uint32): (r: uint32)
    ensures skip + size + 4 < 0x1_0000_0000 ==> r == skip + size + 4
  {
    if skip + size + 4 < 0x1_0000_0000 then
      WrapSmall(skip + size + 4);
      WrapSmall(skip + size);
      Wrap32(Wrap32(skip + size) + 4)
    else Wrap32(Wrap32(skip + size) + 4)
  }

  /** A start code put at `p`. */
  function Put(f: seq<byte>, p: nat): (g: seq<byte>)
    requires p + 4 <= |f|
    ensures |g| == |f|
  {
    f[..p] + LONG_CODE + f[p + 4..]
  }

  /** The bytes that are not of a start code. */
  function Highs(f: seq<byte>): nat {
    if f == [] then 0 else (if f[0] > 1 then 1 else 0) + Highs(f[1..])
  }

  lemma {:induction false} HighsAppend(a: seq<byte>, b: seq<byte>)
    ensures Highs(a + b) == Highs(a) + Highs(b)
  {
    if a == [] {
      assert a + b == b;
    } else {
      HighsAppend(a[1..], b);
      assert (a + b)[1..] == a[1..] + b;
    }
  }

  lemma {:induction false} HighsParts(a: seq<byte>, b: seq<byte>, c: seq<byte>)
    ensures Highs(a + b + c) == Highs(a) + Highs(b) + Highs(c)
  {
    hide Highs;
    HighsAppend(a + b, c);
    HighsAppend(a, b);
  }

  lemma {:induction false} HighsReplaced(a: seq<byte>, b: seq<byte>, c: seq<byte>)
    requires b != []
    ensures Highs(a + LONG_CODE + c) <= Highs(a + b + c)
    ensures b[0] > 1 ==> Highs(a + LONG_CODE + c) < Highs(a + b + c)
  {
    hide Highs;
    HighsParts(a, b, c);
    HighsParts(a, LONG_CODE, c);
    CodeHighs();
    HighsFirst(b);
  }

  /** A start code leaves fewer of them, if it replaces one. */
  lemma {:induction false} HighsPut(f: seq<byte>, p: nat)
    requires p + 4 <= |f|
    ensures Highs(Put(f, p)) <= Highs(f) && (f[p] > 1 ==> Highs(Put(f, p)) < Highs(f))
  {
    hide Highs;
    HighsReplaced(f[..p], f[p..p + 4], f[p + 4..]);
    ThreeParts(f, p);
  }

  lemma ThreeParts(f: seq<byte>, p: nat)
    requires p + 4 <= |f|
    ensures f[..p] + f[p..p + 4] + f[p + 4..] == f
  {}

  lemma {:induction false} HighsFirst(b: seq<byte>)
    requires b != []
    ensures b[0] > 1 ==> Highs(b) >= 1
  {}

  lemma CodeHighs()
    ensures Highs(LONG_CODE) == 0
  {
    assert LONG_CODE[1..] == [0, 0, 1] && LONG_CODE[1..][1..] == [0, 1] && LONG_CODE[1..][1..][1..] == [1];
  }

  const MAX_FRAME := 0xFE00_0000

  /** The sum is larger than `p`, or it wraps around, which only a large length can make it do. */
  lemma {:induction false} WalkDown(f: seq<byte>, p: nat)
    requires p + 4 <= |f| <= MAX_FRAME
    ensures Highs(Put(f, p)) <= Highs(f)
    ensures Behind32(p, Get32(f, p)) > p || Highs(Put(f, p)) < Highs(f)
  {
    hide Highs, Put, Behind32;
    HighsPut(f, p);
    if p + Get32(f, p) + 4 >= 0x1_0000_0000 {
      assert Get32(f, p) >= 0x200_0000 && f[p] > 1;
    }
  }

  /** Each position the loop comes to, its sum wrapping around or not, has its four bytes inside the
      frame. */
  predicate Walkable(f: seq<byte>, p: nat)
    requires |f| <= MAX_FRAME
    decreases Highs(f), |f| - p
  {
    p + 4 <= |f| &&
    var q := Behind32(p, Get32(f, p));
    WalkDown(f, p);
    q < |f| ==> Walkable(Put(f, p), q)
  }

  /** The frame when the loop has gone on from `p`: a start code is put at each position it comes to,
      and the next length is read after that. */
  function Walked(f: seq<byte>, p: nat): (g: seq<byte>)
    requires |f| <= MAX_FRAME && Walkable(f, p)
    ensures |g| == |f| && forall k :: 0 <= k < |f| ==> g[k] == f[k] || g[k] <= 1
    decreases Highs(f), |f| - p
  {
    var q := Behind32(p, Get32(f, p));
    WalkDown(f, p);
    if q < |f| then Walked(Put(f, p), q) else Put(f, p)
  }

  /** No sum wraps around: the positions are those the lengths of the frame lead to. */
  predicate WalkFits(f: seq<byte>, p: nat)
    decreases |f| - p
  {
    && p + 4 <= |f| && p + Get32(f, p) + 4 < 0x1_0000_0000
    && (p + Get32(f, p) + 4 < |f| ==> WalkFits(f, p + Get32(f, p) + 4))
  }

  /** The frame from `p` on, with a start code at each such position. */
  function Recoded(f: seq<byte>, p: nat): seq<byte>
    requires WalkFits(f, p)
    decreases |f| - p
  {
    var q := p + Get32(f, p) + 4;
    LONG_CODE + if q < |f| then f[p + 4..q] + Recoded(f, q) else f[p + 4..]
  }

  /** Then nothing else is changed. */
  lemma {:induction false} WalkedStraight(f: seq<byte>, g: seq<byte>, p: nat)
    requires WalkFits(f, p) && |g| == |f| <= MAX_FRAME && g[p..] == f[p..]
    ensures Walkable(g, p) && Walked(g, p) == g[..p] + Recoded(f, p)
    decreases |f| - p
  {
    hide Highs, Behind32, Recoded, WalkFits, Put, Get32;
    WalkOpen(f, p);
    SameLength(f, g, p);
    var q := p + Get32(f, p) + 4;
    if q < |f| {
      PutBehind(g, f, p, q);
      WalkedStraight(f, Put(g, p), q);
      AssocFour(g[..p], LONG_CODE, f[p + 4..q], Recoded(f, q));
    } else {
      PutLast(g, f, p);
    }
  }

  lemma {:induction false} WalkOpen(f: seq<byte>, p: nat)
    requires WalkFits(f, p)
    ensures p + 4 <= |f| && p + Get32(f, p) + 4 < 0x1_0000_0000
    ensures var q := p + Get32(f, p) + 4;
            if q < |f| then WalkFits(f, q) && Recoded(f, p) == LONG_CODE + (f[p + 4..q] + Recoded(f, q))
            else Recoded(f, p) == LONG_CODE + f[p + 4..]
  {}

  lemma SameLength(f: seq<byte>, g: seq<byte>, p: nat)
    requires |g| == |f| && p + 4 <= |f| && g[p..] == f[p..]
    ensures Get32(g, p) == Get32(f, p)
  {
    assert forall k :: 0 <= k < 4 ==> g[p..][k] == f[p..][k];
  }

  lemma PutBehind(g: seq<byte>, f: seq<byte>, p: nat, q: nat)
    requires |g| == |f| && p + 4 <= q <= |f| && g[p..] == f[p..]
    ensures Put(g, p)[..q] == g[..p] + LONG_CODE + f[p + 4..q] && Put(g, p)[q..] == f[q..]
  {
    PutLast(g, f, p);
  }

  lemma PutLast(g: seq<byte>, f: seq<byte>, p: nat)
    requires |g| == |f| && p + 4 <= |f| && g[p..] == f[p..]
    ensures Put(g, p) == g[..p] + (LONG_CODE + f[p + 4..])
  {
    assert g[p + 4..] == g[p..][4..] == f[p..][4..] == f[p + 4..];
    Assoc(g[..p], LONG_CODE, f[p + 4..]);
  }

  lemma {:induction false} ConcatFirst<T>(f: T -> seq<byte>, xs: seq<T>)
    ensures Concat(f, xs) == if xs == [] then [] else f(xs[0]) + Concat(f, xs[1..])
  {
  }

  /** Whole units are walked from one to the next. */
  lemma {:induction false} RecodedUnits(f: seq<byte>, p: nat, us: seq<Unit>)
    requires us != [] && Short(us) && At(f, p, Prefixed(us)) && p + |Prefixed(us)| == |f| < 0x1_0000_0000
    ensures WalkFits(f, p) && Recoded(f, p) == Concat(Coded, us)
    decreases us
  {
    hide Concat, Be32, Recoded, WalkFits, Get32, At;
    var u, rest := us[0], us[1..];
    ConcatFirst(Coded, us);
    UnitThere(f, p, us);
    NoneLeft(rest);
    if rest != [] {
      RecodedUnits(f, p + 4 + |u.data|, rest);
    } else {
      ConcatFirst(Coded, rest);
    }
    RecodedFirst(f, p, u.data, Concat(Coded, rest));
  }

  /** The first unit behind its length, and the others behind it. */
  lemma UnitThere(f: seq<byte>, p: nat, us: seq<Unit>)
    requires us != [] && Short(us) && At(f, p, Prefixed(us))
    ensures p + 4 + |us[0].data| <= |f| && Get32(f, p) == |us[0].data| && At(f, p + 4, us[0].data)
    ensures At(f, p + 4 + |us[0].data|, Prefixed(us[1..])) && |Prefixed(us)| == 4 + |us[0].data| + |Prefixed(us[1..])|
  {
    hide Concat, Be32, Get32;
    var u := us[0];
    ConcatFirst(Lengthed, us);
    AtSplit(f, p, Lengthed(u), Prefixed(us[1..]));
    AtSplit(f, p, Be32(|u.data|), u.data);
    Read32(f, p, |u.data|);
  }

  /** A frame of whole units becomes those units, each behind a start code. */
  lemma {:induction false} WalkedUnits(f: seq<byte>, us: seq<Unit>)
    requires us != [] && Short(us) && f == Prefixed(us) && |f| <= MAX_FRAME
    ensures Walkable(f, 0) && Walked(f, 0) == Concat(Coded, us)
  {
    hide Walkable, Walked, Recoded, WalkFits, Concat;
    RecodedUnits(f, 0, us);
    WalkedStraight(f, f, 0);
  }

  /** The unit at `p`, and what comes of those behind it. */
  lemma RecodedFirst(f: seq<byte>, p: nat, data: seq<byte>, rest: seq<byte>)
    requires p + 4 <= |f| < 0x1_0000_0000 && |data| == Get32(f, p) && At(f, p + 4, data)
    requires var q := p + 4 + |data|;
             (q < |f| ==> WalkFits(f, q) && Recoded(f, q) == rest) && (q == |f| ==> rest == [])
    ensures WalkFits(f, p) && Recoded(f, p) == LONG_CODE + data + rest
  {
    var q := p + 4 + |data|;
    assert WalkFits(f, p);
    assert f[p + 4..q] == data;
    Assoc(LONG_CODE, data, rest);
    assert data + [] == data;
  }

  lemma {:induction false} NoneLeft(us: seq<Unit>)
    ensures us == [] <==> |Prefixed(us)| == 0
  {}

  /** `deal_vid_frame`. */
  method DealVidFrame(frame: array<byte>)
    requires frame.Length <= MAX_FRAME && Walkable(frame[..], 0)
    modifies frame
    ensures frame[..] == Walked(old(frame[..]), 0)
  {
    hide Highs, Put;
    ghost var f := frame[..];
    var skip: uint32 := 0;
    var size := Rewrite(frame, skip);
    while Behind32(skip, size) < frame.Length
      invariant skip + 4 <= |f| == frame.Length && size == Get32(f, skip) && frame[..] == Put(f, skip)
      invariant Walkable(f, skip) && Walked(f, skip) == Walked(old(frame[..]), 0)
      decreases Highs(f), |f| - skip
    {
      WalkDown(f, skip);
      f := frame[..];
      skip := Behind32(skip, size);
      size := Rewrite(frame, skip);
    }
  }

  /** Reads the length at `p` and puts a start code there. */
  method Rewrite(frame: array<byte>, p: nat) returns (size: uint32)
    requires p + 4 <= frame.Length
    modifies frame
    ensures size == Get32(old(frame[..]), p)
    ensures frame[..] == Put(old(frame[..]), p)
  {
    size := frame[p] as int * 0x100_0000 + frame[p + 1] as int * 0x1_0000 + frame[p + 2] as int * 0x100 +
      frame[p + 3] as int;
    frame[p], frame[p + 1], frame[p + 2] := 0, 0, 0;
    frame[p + 3] := 1;
  }

  // ---- Round trip ----------------------------------------------------------------------------------

  /** A NAL unit of an Annex B stream, behind a start code of three or four bytes. */
  datatype Nal = Nal(long: bool, data: seq<byte>)

  function NalBytes(n: Nal): seq<byte> {
    (if n.long then LONG_CODE else LONG_CODE[1..]) + n.data
  }

  function Stream(ns: seq<Nal>): seq<byte> {
    Concat(NalBytes, ns)
  }

  predicate NoCode(data: seq<byte>) {
    forall i :: 0 <= i < |data| ==> !Code(data, i)
  }

  /** No unit is empty or contains a start code. */
  ghost predicate Plain(ns: seq<Nal>) {
    forall i :: 0 <= i < |ns| ==> ns[i].data != [] && NoCode(ns[i].data)
  }

  function Last(n: Nal): byte
    requires n.data != []
  {
    n.data[|n.data| - 1]
  }

  /** No unit ends with a zero before a short start code, which would take it for its own. */
  ghost predicate Parted(ns: seq<Nal>)
    requires Plain(ns)
  {
    forall i :: 0 < i < |ns| && !ns[i].long ==> Last(ns[i - 1]) != 0
  }

  /** Units that a reader can tell apart. */
  ghost predicate Readable(ns: seq<Nal>) {
    Plain(ns) && Parted(ns)
  }

  /** The first unit stands behind a long start code. */
  predicate BeginsLong(ns: seq<Nal>) {
    ns != [] && ns[0].long
  }

  function UnitOf(n: Nal): Unit
    requires n.data != []
  {
    Unit(n.data[0] % 0x20, n.data)
  }

  ghost function UnitsOf(ns: seq<Nal>): seq<Unit>
    requires Plain(ns)
  {
    if ns == [] then [] else [UnitOf(ns[0])] + UnitsOf(ns[1..])
  }

  /** A unit ends where the next one begins, or at the end. */
  lemma UnitEnds(s: seq<byte>, q: nat, data: seq<byte>, next: seq<byte>, e: nat)
    requires At(s, q, data + next) && q + |data + next| == e && data != [] && NoCode(data)
    requires next == [] ||
             (|next| > 4 && LONG_CODE <= next) ||
             (|next| > 3 && LONG_CODE[1..] <= next && data[|data| - 1] != 0)
    ensures NextCode(s, q, e) == q + |data|
  {
    var c := q + |data|;
    AtSplit(s, q, data, next);
    var r := if next == [] then e else if next[2] == 0 then c + 1 else c;
    forall k | 0 <= k < |next| ensures s[c + k] == next[k] { AtByte(s, c, next, k); }
    forall k | 0 <= k < |data| ensures s[q + k] == data[k] { AtByte(s, q, data, k); }
    forall i | q <= i < r && i + 3 < e ensures !Code(s, i) {
      if i + 2 < c {
        assert !Code(data, i - q);
        assert s[q + (i - q)] == data[i - q] && s[q + (i - q + 1)] == data[i - q + 1] &&
               s[q + (i - q + 2)] == data[i - q + 2];
      } else {
        assert s[c + (i + 2 - c)] == next[i + 2 - c];
      }
    }
    if next != [] {
      assert s[c] == next[0] && s[c + 1] == next[1] && s[c + 2] == next[2];
      assert next[2] == 0 ==> s[c + 3] == next[3];
    }
    FirstCodeLeast(s, q, e, r);
    assert s[q + (|data| - 1)] == data[|data| - 1];
  }

  /** Before a short start code, the last byte of a unit survives exactly if it is not zero. */
  lemma LastByteIff(s: seq<byte>, q: nat, data: seq<byte>, next: seq<byte>, e: nat)
    requires At(s, q, data + next) && q + |data + next| == e && data != [] && NoCode(data)
    requires |next| > 3 && LONG_CODE[1..] <= next
    ensures NextCode(s, q, e) == q + |data| <==> data[|data| - 1] != 0
  {
    if data[|data| - 1] != 0 {
      UnitEnds(s, q, data, next, e);
    } else {
      var c := q + |data|;
      AtSplit(s, q, data, next);
      forall k | 0 <= k < |next| ensures s[c + k] == next[k] { AtByte(s, c, next, k); }
      forall k | 0 <= k < |data| ensures s[q + k] == data[k] { AtByte(s, q, data, k); }
      forall i | q <= i < c && i + 3 < e ensures !Code(s, i) {
        if i + 2 < c {
          assert !Code(data, i - q);
          assert s[q + (i - q)] == data[i - q] && s[q + (i - q + 1)] == data[i - q + 1] &&
                 s[q + (i - q + 2)] == data[i - q + 2];
        } else {
          assert s[c + (i + 2 - c)] == next[i + 2 - c];
        }
      }
      assert s[c + 0] == next[0] && s[c + 1] == next[1] && s[c + 2] == next[2];
      FirstCodeLeast(s, q, e, c);
      assert s[q + (|data| - 1)] == data[|data| - 1];
    }
  }

  /** What stands behind a unit: nothing, or a start code with bytes behind it. */
  lemma StreamHead(ns: seq<Nal>)
    requires Plain(ns)
    ensures var next := Stream(ns);
            if ns == [] then next == []
            else if ns[0].long then |next| > 4 && LONG_CODE <= next
            else |next| > 3 && LONG_CODE[1..] <= next
  {
    if ns != [] {
      assert Stream(ns) == NalBytes(ns[0]) + Stream(ns[1..]);
    }
  }

  lemma FirstByte(s: seq<byte>, r: nat, n: Nal, e: nat)
    requires At(s, r, NalBytes(n)) && n.data != [] && r + |NalBytes(n)| <= e <= |s|
    ensures Begins(s, r, e) && Behind(s, r) == r + |NalBytes(n)| - |n.data| && s[Behind(s, r)] == n.data[0]
    ensures At(s, Behind(s, r), n.data)
  {
    var code := if n.long then LONG_CODE else LONG_CODE[1..];
    AtSplit(s, r, code, n.data);
    AtByte(s, r, code, 0);
    AtByte(s, r, code, 1);
    AtByte(s, r, code, 2);
    if n.long { AtByte(s, r, code, 3); }
    AtByte(s, r + |code|, n.data, 0);
  }

  /** The first unit of a stream, and where the next one begins. */
  lemma {:induction false} SplitFirst(s: seq<byte>, r: nat, e: nat, n: Nal, next: seq<byte>, mid: nat)
    requires At(s, r, NalBytes(n)) && At(s, mid, next) && mid == r + |NalBytes(n)| && mid + |next| == e
    requires n.data != [] && NoCode(n.data)
    requires next == [] || (|next| > 4 && LONG_CODE <= next) ||
             (|next| > 3 && LONG_CODE[1..] <= next && n.data[|n.data| - 1] != 0)
    ensures Begins(s, r, e) && (mid == e || Begins(s, mid, e))
    ensures Split(s, r, e) == [UnitOf(n)] + Split(s, mid, e)
  {
    hide Begins, NextCode, NoCode, Behind, NalBytes;
    FirstByte(s, r, n, e);
    var q := Behind(s, r);
    Joined(s, q, n.data, next);
    UnitEnds(s, q, n.data, next, e);
    NextCodeBegins(s, q, e);
    assert Unit(s[q] % 0x20, s[q..mid]) == UnitOf(n);
  }

  /** A unit that loses its last byte. */
  lemma {:induction false} SplitShort(s: seq<byte>, r: nat, e: nat, n: Nal, next: seq<byte>, mid: nat)
    requires At(s, r, NalBytes(n)) && At(s, mid, next) && mid == r + |NalBytes(n)| && mid + |next| == e
    requires n.data != [] && NoCode(n.data) && Last(n) == 0 && |next| > 3 && LONG_CODE[1..] <= next
    ensures r < e && Begins(s, r, e) && Split(s, r, e)[0] != UnitOf(n)
  {
    hide Begins, NoCode, Behind, NalBytes;
    FirstByte(s, r, n, e);
    var q := Behind(s, r);
    Joined(s, q, n.data, next);
    LastByteIff(s, q, n.data, next, e);
    NextCodeBegins(s, q, e);
    assert |s[q..NextCode(s, q, e)]| != |n.data|;
  }

  lemma PartedFirst(ns: seq<Nal>)
    requires Plain(ns) && ns != []
    ensures ns[0].data != [] && Plain(ns[1..])
    ensures Parted(ns) <==> Parted(ns[1..]) && (|ns| > 1 && !ns[1].long ==> Last(ns[0]) != 0)
  {
    var rest := ns[1..];
    if Parted(ns) {
      forall i | 0 < i < |rest| && !rest[i].long ensures Last(rest[i - 1]) != 0 { assert ns[i + 1] == rest[i]; }
    }
    if Parted(rest) && (|ns| > 1 && !ns[1].long ==> Last(ns[0]) != 0) {
      forall i | 0 < i < |ns| && !ns[i].long ensures Last(ns[i - 1]) != 0 {
        if i > 1 { assert rest[i - 1] == ns[i] && rest[i - 2] == ns[i - 1]; }
      }
    }
  }

  /** From any place in a stream on, the units cut out are its NAL units exactly if these are parted. */
  lemma {:induction false} SplitBack(s: seq<byte>, r: nat, e: nat, ns: seq<Nal>)
    requires Plain(ns) && At(s, r, Stream(ns)) && r + |Stream(ns)| == e
    ensures r == e || Begins(s, r, e)
    ensures Split(s, r, e) == UnitsOf(ns) <==> Parted(ns)
    decreases ns
  {
    hide Parted, NoCode, Begins, Behind, NextCode, NalBytes;
    if ns == [] {
      NothingToPart();
    } else {
      var n, rest := ns[0], ns[1..];
      StreamFirst(ns);
      AtSplit(s, r, NalBytes(n), Stream(rest));
      PartedFirst(ns);
      StreamHead(rest);
      hide Stream;
      var mid := r + |NalBytes(n)|;
      if rest != [] && !rest[0].long && Last(n) == 0 {
        SplitShort(s, r, e, n, Stream(rest), mid);
        assert UnitsOf(ns)[0] == UnitOf(n);
      } else {
        SplitFirst(s, r, e, n, Stream(rest), mid);
        SplitBack(s, mid, e, rest);
        assert UnitsOf(ns) == [UnitOf(n)] + UnitsOf(rest);
        SameRest(UnitOf(n), Split(s, mid, e), UnitsOf(rest));
      }
    }
  }

  lemma NothingToPart()
    ensures Plain([]) && Parted([])
  {}

  lemma StreamFirst(ns: seq<Nal>)
    requires ns != []
    ensures Stream(ns) == NalBytes(ns[0]) + Stream(ns[1..])
  {}

  lemma SameRest(u: Unit, us: seq<Unit>, vs: seq<Unit>)
    ensures [u] + us == [u] + vs <==> us == vs
  {
    assert ([u] + us)[1..] == us && ([u] + vs)[1..] == vs;
  }

  lemma Joined(s: seq<byte>, p: nat, a: seq<byte>, b: seq<byte>)
    requires At(s, p, a) && At(s, p + |a|, b)
    ensures At(s, p, a + b)
  {}

  /** The units cut out of a stream are its NAL units exactly if none ends with a zero before a short
      start code. */
  lemma {:induction false} UnitsBackIff(s: seq<byte>, e: nat, ns: seq<Nal>)
    requires Plain(ns) && BeginsLong(ns) && e <= |s| && s[..e] == Stream(ns)
    ensures InReach(s, e)
    ensures Units(s, e) == UnitsOf(ns) <==> Readable(ns)
  {
    StreamBegins(s, e, ns);
    hide Units, NextCode, Begins, Stream, Split, Parted;
    SplitStart(s, e);
    SplitBack(s, 0, e, ns);
    var units := Split(s, 0, e);
    assert [] + units == units;
  }

  lemma StreamBegins(s: seq<byte>, e: nat, ns: seq<Nal>)
    requires Plain(ns) && BeginsLong(ns) && e <= |s| && s[..e] == Stream(ns)
    ensures At(s, 0, Stream(ns)) && |Stream(ns)| == e
    ensures 4 <= e && s[..4] == LONG_CODE && NextCode(s, 0, e) == 0
  {
    var n := ns[0];
    assert Stream(ns) == NalBytes(n) + Stream(ns[1..]);
    hide Stream;
    AtSplit(s, 0, NalBytes(n), Stream(ns[1..]));
    AtSplit(s, 0, LONG_CODE, n.data);
    assert s[0..4] == LONG_CODE && !Code(s, 0) && Code(s, 1);
    FirstCodeLeast(s, 0, e, 1);
  }

  /** The NAL units that are not parameter sets, each behind a long start code. */
  ghost function KeptNals(ns: seq<Nal>): (kept: seq<Nal>)
    requires Readable(ns)
    ensures forall n :: n in kept ==> n.data != [] && n.data[0] as int % 0x20 != 7 && n.data[0] as int % 0x20 != 8
  {
    if ns == [] then []
    else (if Kept(UnitOf(ns[0])) then [Nal(true, ns[0].data)] else []) + KeptNals(ns[1..])
  }

  /** Lengths turned into start codes give the stream of the NAL units kept. */
  lemma {:induction false} KeptStream(ns: seq<Nal>)
    requires Readable(ns)
    ensures Concat(Coded, Keep(UnitsOf(ns))) == Stream(KeptNals(ns))
    ensures forall n :: n in KeptNals(ns) ==> n.long && n.data != [] && NoCode(n.data)
    ensures Readable(KeptNals(ns))
  {
    if ns != [] {
      KeptStream(ns[1..]);
      var us, u := UnitsOf(ns[1..]), UnitOf(ns[0]);
      assert ([u] + us)[1..] == us;
      if Kept(u) {
        assert Keep(UnitsOf(ns)) == [u] + Keep(us);
        ConcatOne(Coded, u, Keep(us));
        ConcatOne(NalBytes, Nal(true, ns[0].data), KeptNals(ns[1..]));
      } else {
        assert Keep(UnitsOf(ns)) == Keep(us);
        assert KeptNals(ns) == KeptNals(ns[1..]);
      }
    }
  }

  lemma {:induction false} KeptAlike(ns: seq<Nal>)
    requires Readable(ns)
    ensures Keep(UnitsOf(ns)) == [] <==> KeptNals(ns) == []
    ensures Keep(UnitsOf(ns)) != [] ==>
              KeptNals(ns)[0].data != [] && Keep(UnitsOf(ns))[0] == UnitOf(KeptNals(ns)[0])
  {
    hide Kept, UnitOf, Plain, Parted;
    if ns != [] {
      PartedFirst(ns);
      KeptAlike(ns[1..]);
      UnitOfLong(ns[0]);
      assert ([UnitOf(ns[0])] + UnitsOf(ns[1..]))[1..] == UnitsOf(ns[1..]);
    }
  }

  lemma UnitOfLong(n: Nal)
    requires n.data != []
    ensures UnitOf(Nal(true, n.data)) == UnitOf(n)
  {}

  lemma {:induction false} ConcatOne<T>(f: T -> seq<byte>, x: T, xs: seq<T>)
    ensures Concat(f, [x] + xs) == f(x) + Concat(f, xs)
  {
    assert ([x] + xs)[1..] == xs;
  }

  /** Each unit kept is shorter than the stream. */
  lemma {:induction false} UnitsShort(ns: seq<Nal>, max: nat)
    requires Readable(ns) && |Stream(ns)| <= max < 0x1_0000_0000
    ensures Short(Keep(UnitsOf(ns))) && 4 * |Prefixed(Keep(UnitsOf(ns)))| <= 5 * |Stream(ns)|
  {
    if ns != [] {
      assert Stream(ns) == NalBytes(ns[0]) + Stream(ns[1..]);
      UnitsShort(ns[1..], max);
      var us, u := UnitsOf(ns[1..]), UnitOf(ns[0]);
      assert ([u] + us)[1..] == us;
      if Kept(u) {
        ConcatOne(Lengthed, u, Keep(us));
        assert Keep(UnitsOf(ns)) == [u] + Keep(us);
      } else {
        assert Keep(UnitsOf(ns)) == Keep(us);
      }
    }
  }

  /** From a stream into a tag, and out of it again: the same NAL units in order, without the
      parameter sets, of which there must be others. */
  method Convey(s: seq<byte>, e: nat, base: nat, ghost ns: seq<Nal>) returns (header: seq<byte>, frame: array<byte>)
    requires e <= |s| && e < 0x8000_0000 && s[..e] == Stream(ns)
    requires Readable(ns) && BeginsLong(ns) && KeptNals(ns) != []
    ensures header == [if KeptNals(ns)[0].data[0] as int % 0x20 == 5 then 0x17 else 0x27, 1, 0, 0, 0]
    ensures frame[..] == Stream(KeptNals(ns))
  {
    hide Units, Keep, Prefixed, Stream, Walkable, Walked, Concat, InReach, KeptNals, UnitsOf, Plain, Parted;
    UnitsBackIff(s, e, ns);
    KeptStream(ns);
    KeptAlike(ns);
    UnitsShort(ns, e);
    ghost var kept := Keep(UnitsOf(ns));
    var tag := new byte[2 * e + 5];
    var dataLen := GenerateVideoTagData(s, e, base, tag);
    header := tag[..5];
    frame := CopyOut(tag, 5, dataLen);
    assert frame[..] == tag[..dataLen][5..];
    WalkedUnits(frame[..], kept);
    DealVidFrame(frame);
  }

  method CopyOut(tag: array<byte>, from: nat, end: nat) returns (part: array<byte>)
    requires from <= end <= tag.Length
    ensures fresh(part) && part[..] == tag[from..end]
  {
    part := new byte[end - from];
    var i := 0;
    while i < end - from
      invariant 0 <= i <= end - from && part[..i] == tag[from..from + i]
    {
      part[i] := tag[from + i];
      i := i + 1;
    }
  }
}
