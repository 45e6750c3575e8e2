/** AMF0 values (`AMF.h`, `AMF.cpp`): how they are written, with every check for room, and how they
    are read. */
module Amf {
  import opened Bytes
  import opened Sequences
  import opened Wrappers

  const AMF_NUMBER: byte := 0
  const AMF_BOOLEAN: byte := 1
  const AMF_STRING: byte := 2
  const AMF_OBJECT: byte := 3
  const AMF_NULL: byte := 5
  const AMF_UNDEFINED: byte := 6
  const AMF_ECMA_ARRAY: byte := 8
  const AMF_STRICT_ARRAY: byte := 10
  const AMF_DATE: byte := 11
  const AMF_LONG_STRING: byte := 12
  const AMF_UNSUPPORTED: byte := 13
  const AMF_XML_DOC: byte := 15

  const OBJECT_END: seq<byte> := [0, 0, 9]

  type Double = s: seq<byte> | |s| == 8 witness [0, 0, 0, 0, 0, 0, 0, 0]

  /** A number is the eight bytes of a double as they lie in memory. Dates and XML documents are
      only read. */
  datatype Value =
    | Number(bits: Double)
    | Boolean(flag: bool)
    | String(text: seq<byte>)
    | Null
    | Object(props: seq<Prop>)
    | EcmaArray(props: seq<Prop>)
    | StrictArray(props: seq<Prop>)
    | Date(bits: Double, offset: uint16)
    | XmlDoc(text: seq<byte>)

  /** `AMFObjectProperty`. */
  datatype Prop = Prop(name: seq<byte>, value: Value)

  function Reversed(s: seq<byte>): (r: seq<byte>)
    ensures |r| == |s|
  {
    if s == [] then [] else Reversed(s[1..]) + [s[0]]
  }

  // ---- The wire format -------------------------------------------------------------------------------

  /** The bytes of a value. */
  function Printed(v: Value): seq<byte>
    decreases v, 1, 0
  {
    match v
    case Number(bits) => [AMF_NUMBER] + Reversed(bits)
    case Boolean(flag) => [AMF_BOOLEAN, if flag then 1 else 0]
    case String(text) => TextHead(text) + text
    case Null => [AMF_NULL]
    case Object(_) => [AMF_OBJECT] + Members(v, 0) + OBJECT_END
    case EcmaArray(props) => [AMF_ECMA_ARRAY] + Be32(|props| % 0x1_0000_0000) + Members(v, 0) + OBJECT_END
    case StrictArray(props) => [AMF_STRICT_ARRAY] + Be32(|props| % 0x1_0000_0000) + Members(v, 0)
    case _ => []
  }

  predicate Holds(v: Value) {
    v.Object? || v.EcmaArray? || v.StrictArray?
  }

  /** The bytes of the members from index `i` on. */
  function Members(v: Value, i: nat): seq<byte>
    requires Holds(v) && i <= |v.props|
    decreases v, 0, |v.props| - i
  {
    if i == |v.props| then [] else Named(v.props[i]) + Members(v, i + 1)
  }

  /** A property behind its name, if it has one. A null is written without its name. */
  function Named(p: Prop): seq<byte>
    decreases p, 0, 0
  {
    NameBytes(p) + Printed(p.value)
  }

  function NameBytes(p: Prop): seq<byte> {
    if p.value.Null? || p.name == [] then [] else Be16(|p.name| % 0x1_0000) + p.name
  }

  /** Strings of 2^16 bytes and more have a type of their own. */
  function TextHead(text: seq<byte>): seq<byte> {
    if |text| < 0x1_0000 then [AMF_STRING] + Be16(|text|) else [AMF_LONG_STRING] + Be32(|text| % 0x1_0000_0000)
  }

  // ---- Writing with limited room ---------------------------------------------------------------------

  /** `AMFProp_Encode` with `room` bytes: the bytes written, or none if a check fails. */
  function PrintProp(p: Prop, room: int): Option<seq<byte>>
    decreases p, 0, 0
  {
    if !p.value.Null? && |p.name| + 3 >= room then None
    else match PrintValue(p.value, room - |NameBytes(p)|)
      case None => None
      case Some(bytes) => Some(NameBytes(p) + bytes)
  }

  function PrintValue(v: Value, room: int): Option<seq<byte>>
    decreases v, 1, 0
  {
    match v
    case Number(bits) => if room < 9 then None else Some(Printed(v))
    case Boolean(_) => if room < 2 then None else Some(Printed(v))
    case String(text) =>
      if (|text| < 0x1_0000 && 3 + |text| > room) || 5 + |text| > room then None else Some(Printed(v))
    case Null => if room <= 1 then None else Some(Printed(v))
    case Object(_) =>
      if room <= 4 then None
      else
        var ms := PrintMembers(v, 0, room - 1);
        if room - 1 - |ms| <= 3 then None else Some([AMF_OBJECT] + ms + OBJECT_END)
    case EcmaArray(props) =>
      if room <= 4 then None
      else
        var ms := PrintMembers(v, 0, room - 5);
        if room - 5 - |ms| <= 3 then None
        else Some([AMF_ECMA_ARRAY] + Be32(|props| % 0x1_0000_0000) + ms + OBJECT_END)
    case StrictArray(props) =>
      if room <= 4 then None
      else Some([AMF_STRICT_ARRAY] + Be32(|props| % 0x1_0000_0000) + PrintMembers(v, 0, room - 5))
    case _ => None
  }

  /** Members are written up to the first that finds no room. */
  function PrintMembers(v: Value, i: nat, room: int): seq<byte>
    requires Holds(v) && i <= |v.props|
    decreases v, 0, |v.props| - i
  {
    if i == |v.props| then []
    else match PrintProp(v.props[i], room)
      case None => []
      case Some(bytes) => bytes + PrintMembers(v, i + 1, room - |bytes|)
  }

  /** Values with a wire format. */
  predicate Printable(v: Value)
    decreases v
  {
    match v
    case Object(props) => forall i :: 0 <= i < |props| ==> Printable(props[i].value)
    case EcmaArray(props) => forall i :: 0 <= i < |props| ==> Printable(props[i].value)
    case StrictArray(props) => forall i :: 0 <= i < |props| ==> Printable(props[i].value)
    case Date(_, _) => false
    case XmlDoc(_) => false
    case _ => true
  }

  /** With two bytes to spare every check passes, and the whole value is written. */
  lemma {:induction false} PropFits(p: Prop, room: int)
    requires Printable(p.value) && room >= |Named(p)| + 2
    ensures PrintProp(p, room) == Some(Named(p))
    decreases p, 0, 0
  {
    ValueFits(p.value, room - |NameBytes(p)|);
    ValueSize(p.value);
  }

  lemma {:induction false} ValueSize(v: Value)
    requires Printable(v)
    ensures |Printed(v)| >= if v.Null? then 1 else 2
  {}

  lemma {:induction false} ValueFits(v: Value, room: int)
    requires Printable(v) && room >= |Printed(v)| + 2
    ensures PrintValue(v, room) == Some(Printed(v))
    decreases v, 1, 0
  {
    match v
    case Object(_) => MembersFit(v, 0, room - 1);
    case EcmaArray(_) => MembersFit(v, 0, room - 5);
    case StrictArray(_) => MembersFit(v, 0, room - 5);
    case _ =>
  }

  lemma {:induction false} MembersFit(v: Value, i: nat, room: int)
    requires Holds(v) && i <= |v.props| && Printable(v) && room >= |Members(v, i)| + 2
    ensures PrintMembers(v, i, room) == Members(v, i)
    decreases v, 0, |v.props| - i
  {
    if i < |v.props| {
      PropFits(v.props[i], room);
      MembersFit(v, i + 1, room - |Named(v.props[i])|);
    }
  }

  // ---- The encoder -----------------------------------------------------------------------------------

  /** What an encoder has done: it gives the position behind `bytes`, which stand behind `before`, or
      fails; what was there before is still there. */
  ghost predicate Wrote(now: seq<byte>, before: seq<byte>, end: nat, bytes: Option<seq<byte>>, next: Option<nat>) {
    match bytes
    case None => next == None && |before| <= |now| && now[..|before|] == before
    case Some(b) =>
      next == Some(|before| + |b|) && |before| + |b| <= end <= |now| && now[..|before| + |b|] == before + b
  }

  method EncodeProp(p: Prop, buffer: array<byte>, pos: nat, end: nat) returns (next: Option<nat>)
    requires pos <= end <= buffer.Length
    modifies buffer
    ensures Wrote(buffer[..], old(buffer[..pos]), end, PrintProp(p, end - pos), next)
    decreases p, 0, 0
  {
    hide PrintProp, PrintValue, Wrote, Be16;
    ghost var before := buffer[..pos];
    PrintPropParts(p, end - pos);
    if !p.value.Null? && pos + |p.name| + 3 >= end {
      WroteNothing(buffer[..], before, end);
      return None;
    }
    var at := pos;
    if !p.value.Null? && |p.name| > 0 {
      at := CopyBytes(buffer, at, Be16(|p.name| % 0x1_0000));
      at := CopyBytes(buffer, at, p.name);
    }
    assert buffer[..at] == before + NameBytes(p);
    next := EncodeValue(p.value, buffer, at, end);
    WroteMore(buffer[..], before, NameBytes(p), end, PrintValue(p.value, end - at), next);
  }

  lemma {:induction false} PrintPropParts(p: Prop, room: int)
    ensures PrintProp(p, room) ==
      if !p.value.Null? && |p.name| + 3 >= room then None
      else match PrintValue(p.value, room - |NameBytes(p)|)
        case None => None
        case Some(b) => Some(NameBytes(p) + b)
  {
    hide PrintValue, Be16;
  }

  lemma WroteNothing(now: seq<byte>, before: seq<byte>, end: nat)
    requires |before| <= |now| && now[..|before|] == before
    ensures Wrote(now, before, end, None, None)
  {
  }

  lemma WroteMore(now: seq<byte>, before: seq<byte>, part: seq<byte>, end: nat, bytes: Option<seq<byte>>,
                  next: Option<nat>)
    requires Wrote(now, before + part, end, bytes, next)
    ensures Wrote(now, before, end, match bytes case None => None case Some(b) => Some(part + b), next)
  {
    match bytes
    case None =>
      assert now[..|before|] == now[..|before + part|][..|before|];
    case Some(b) =>
      assert (before + part) + b == before + (part + b);
  }

  method EncodeValue(v: Value, buffer: array<byte>, pos: nat, end: nat) returns (next: Option<nat>)
    requires pos <= end <= buffer.Length
    modifies buffer
    ensures Wrote(buffer[..], old(buffer[..pos]), end, PrintValue(v, end - pos), next)
    decreases v, 1, 0
  {
    match v
    case Number(bits) => next := EncodeNumber(bits, buffer, pos, end);
    case Boolean(flag) => next := EncodeBytes(Printed(v), 2, buffer, pos, end);
    case String(text) => next := EncodeString(text, buffer, pos, end);
    case Null => next := EncodeBytes([AMF_NULL], 2, buffer, pos, end);
    case Object(_) => next := EncodeObject(v, [AMF_OBJECT], buffer, pos, end);
    case EcmaArray(props) =>
      next := EncodeObject(v, [AMF_ECMA_ARRAY] + Be32(|props| % 0x1_0000_0000), buffer, pos, end);
    case StrictArray(_) => next := EncodeArray(v, buffer, pos, end);
    case Date(_, _) => next := None;
    case XmlDoc(_) => next := None;
  }

  /** Bytes for which there must be `need` bytes of room. */
  method EncodeBytes(bytes: seq<byte>, need: nat, buffer: array<byte>, pos: nat, end: nat) returns (next: Option<nat>)
    requires pos <= end <= buffer.Length && |bytes| <= need
    modifies buffer
    ensures Wrote(buffer[..], old(buffer[..pos]), end, if end - pos < need then None else Some(bytes), next)
  {
    if pos + need > end { return None; }
    var at := CopyBytes(buffer, pos, bytes);
    next := Some(at);
  }

  /** The bytes of a double in reverse order. */
  method EncodeNumber(bits: Double, buffer: array<byte>, pos: nat, end: nat) returns (next: Option<nat>)
    requires pos <= end <= buffer.Length
    modifies buffer
    ensures Wrote(buffer[..], old(buffer[..pos]), end,
                  if end - pos < 9 then None else Some([AMF_NUMBER] + Reversed(bits)), next)
  {
    if pos + 9 > end { return None; }
    var at := CopyBytes(buffer, pos, [AMF_NUMBER] + Reversed(bits));
    next := Some(at);
  }

  method EncodeString(text: seq<byte>, buffer: array<byte>, pos: nat, end: nat) returns (next: Option<nat>)
    requires pos <= end <= buffer.Length
    modifies buffer
    ensures Wrote(buffer[..], old(buffer[..pos]), end, PrintValue(String(text), end - pos), next)
  {
    if (|text| < 0x1_0000 && pos + 3 + |text| > end) || pos + 5 + |text| > end { return None; }
    var at;
    if |text| < 0x1_0000 {
      at := CopyBytes(buffer, pos, [AMF_STRING] + Be16(|text|));
    } else {
      at := CopyBytes(buffer, pos, [AMF_LONG_STRING] + Be32(|text| % 0x1_0000_0000));
    }
    at := CopyBytes(buffer, at, text);
    next := Some(at);
    assert old(buffer[..pos]) + TextHead(text) + text == old(buffer[..pos]) + (TextHead(text) + text);
  }

  /** `AMF_Encode` and `AMF_EncodeEcmaArray`: head, members, end marker. */
  method EncodeObject(v: Value, head: seq<byte>, buffer: array<byte>, pos: nat, end: nat) returns (next: Option<nat>)
    requires (v.Object? && head == [AMF_OBJECT]) ||
             (v.EcmaArray? && head == [AMF_ECMA_ARRAY] + Be32(|v.props| % 0x1_0000_0000))
    requires pos <= end <= buffer.Length
    modifies buffer
    ensures Wrote(buffer[..], old(buffer[..pos]), end, PrintValue(v, end - pos), next)
    decreases v, 0, |v.props| + 2
  {
    hide PrintMembers, Be32;
    if pos + 4 >= end { return None; }
    ghost var before := buffer[..pos];
    var at := CopyBytes(buffer, pos, head);
    ghost var ms := PrintMembers(v, 0, end - at);
    at := EncodeMembers(v, buffer, at, end);
    ghost var front := buffer[..at];
    if at + 3 >= end {
      assert front[..pos] == before;
      return None;
    }
    at := CopyBytes(buffer, at, OBJECT_END);
    next := Some(at);
    AssocFour(before, head, ms, OBJECT_END);
  }

  /** `AMF_EncodeArray`: no end marker. */
  method EncodeArray(v: Value, buffer: array<byte>, pos: nat, end: nat) returns (next: Option<nat>)
    requires v.StrictArray? && pos <= end <= buffer.Length
    modifies buffer
    ensures Wrote(buffer[..], old(buffer[..pos]), end, PrintValue(v, end - pos), next)
    decreases v, 0, |v.props| + 2
  {
    if pos + 4 >= end { return None; }
    ghost var before := buffer[..pos];
    var head := [AMF_STRICT_ARRAY] + Be32(|v.props| % 0x1_0000_0000);
    var at := CopyBytes(buffer, pos, head);
    ghost var ms := PrintMembers(v, 0, end - at);
    at := EncodeMembers(v, buffer, at, end);
    next := Some(at);
    Assoc(before, head, ms);
  }

  /** The loop over the members stops at the first that fails. */
  method EncodeMembers(v: Value, buffer: array<byte>, pos: nat, end: nat) returns (next: nat)
    requires Holds(v) && pos <= end <= buffer.Length
    modifies buffer
    ensures var ms := PrintMembers(v, 0, end - pos);
            next == pos + |ms| <= end && buffer[..next] == old(buffer[..pos]) + ms
    decreases v, 0, |v.props| + 1
  {
    hide PrintProp;
    ghost var before, all, done := buffer[..pos], PrintMembers(v, 0, end - pos), [];
    next := pos;
    var i := 0;
    while i < |v.props|
      invariant 0 <= i <= |v.props| && next == pos + |done| <= end
      invariant done + PrintMembers(v, i, end - next) == all
      invariant buffer[..next] == before + done
    {
      ghost var at, rest := next, PrintMembers(v, i, end - next);
      var res := EncodeProp(v.props[i], buffer, next, end);
      if res == None {
        break;
      }
      ghost var bytes := PrintProp(v.props[i], end - at).value;
      next, i := res.value, i + 1;
      assert rest == bytes + PrintMembers(v, i, end - next);
      Assoc(done, bytes, PrintMembers(v, i, end - next));
      Assoc(before, done, bytes);
      done := done + bytes;
    }
    assert done + [] == done;
  }

  // ---- Reading ---------------------------------------------------------------------------------------

  /** The bytes of memory from `p` on. */
  ghost function Left(data: seq<byte>, p: nat): nat {
    if p <= |data| then |data| - p else 0
  }

  /** `AMFProp_Decode` on the `n` bytes at `p` of a memory: the property and the bytes taken, or nothing.
      More bytes than that can be taken: the four bytes of an array length are not checked for, and then
      elements without names are looked for with a negative `n`. Nothing comes of reading behind the
      memory, which C leaves undefined. */
  function ParseProp(data: seq<byte>, p: nat, n: int, named: bool): (r: Option<(Prop, nat)>)
    requires n > 0 ==> p + n <= |data|
    ensures r.Some? ==> r.value.1 >= 1 && p < |data|
    decreases Left(data, p), 2
  {
    if n == 0 || (named && n < 4) then None
    else if !named then
      if p >= |data| then None else ParseValue(data, p, n, [], 0)
    else
      var len := Get16(data, p) as int;
      if len > n - 2 || n - 2 - len == 0 then None
      else ParseValue(data, p + 2 + len, n - 2 - len, data[p + 2..p + 2 + len], 2 + len)
  }

  /** A value that holds no others, and the bytes it takes. */
  function ParsePlain(data: seq<byte>, p: nat, n: int): (r: Option<(Value, nat)>)
    requires n != 0 && p < |data| && (n > 0 ==> p + n <= |data|)
    ensures r.Some? ==> r.value.1 >= 1
  {
    var kind, q, m := data[p], p + 1, n - 1;
    if kind == AMF_NUMBER then
      if m < 8 then None else Some((Number(Reversed(data[q..q + 8])), 9))
    else if kind == AMF_BOOLEAN then
      if m < 1 then None else Some((Boolean(data[q] != 0), 2))
    else if kind == AMF_STRING then
      if m < 2 || m < Get16(data, q) + 2 then None
      else Some((String(data[q + 2..q + 2 + Get16(data, q)]), 3 + Get16(data, q)))
    else if kind == AMF_NULL || kind == AMF_UNDEFINED || kind == AMF_UNSUPPORTED then
      Some((Null, 1))
    else if kind == AMF_DATE then
      if m < 10 then None else Some((Date(Reversed(data[q..q + 8]), Get16(data, q + 8)), 11))
    else if kind == AMF_LONG_STRING || kind == AMF_XML_DOC then
      if m < 4 || m < Get32(data, q) + 4 then None
      else
        var text := data[q + 4..q + 4 + Get32(data, q)];
        Some((if kind == AMF_LONG_STRING then String(text) else XmlDoc(text), 5 + |text|))
    else None
  }

  /** The value behind the `taken` bytes of a name. */
  function ParseValue(data: seq<byte>, p: nat, n: int, name: seq<byte>, taken: nat): (r: Option<(Prop, nat)>)
    requires n != 0 && p < |data| && (n > 0 ==> p + n <= |data|)
    ensures r.Some? ==> r.value.1 >= taken + 1
    decreases Left(data, p), 1
  {
    if data[p] == AMF_OBJECT then
      Whole(name, props => Object(props), taken + 1, ParseObject(data, p + 1, n - 1))
    else if data[p] == AMF_ECMA_ARRAY then
      Whole(name, props => EcmaArray(props), taken + 5, ParseObject(data, p + 5, n - 5))
    else if data[p] == AMF_STRICT_ARRAY then
      if p + 5 > |data| then None
      else
        var count := if Get32(data, p + 1) < 0x8000_0000 then Get32(data, p + 1) else 0;
        Whole(name, props => StrictArray(props), taken + 5, ParseArray(data, p + 5, n - 5, count))
    else
      match ParsePlain(data, p, n)
      case None => None
      case Some((v, k)) => Some((Prop(name, v), taken + k))
  }

  function Whole(name: seq<byte>, make: seq<Prop> -> Value, taken: nat, r: Option<(seq<Prop>, nat)>)
    : Option<(Prop, nat)>
  {
    match r
    case None => None
    case Some((props, k)) => Some((Prop(name, make(props)), taken + k))
  }

  /** `AMF_Decode`: named properties up to the end marker, or to the end. After a failure the bytes up
      to an end marker are passed over. */
  function ParseObject(data: seq<byte>, p: nat, n: int): Option<(seq<Prop>, nat)>
    requires n > 0 ==> p + n <= |data|
    decreases Left(data, p), 3
  {
    if n <= 0 then Some(([], 0))
    else if Ends(data, p, n) then Some(([], 3))
    else
      match ParseProp(data, p, n, true)
      case None => Abandoned(PassOver(data, p, n))
      case Some((prop, k)) => Joined(prop, k, ParseObject(data, p + k, n - k))
  }

  predicate Ends(data: seq<byte>, p: nat, n: int)
    requires n > 0 ==> p + n <= |data|
  {
    n >= 3 && data[p..p + 3] == OBJECT_END
  }

  /** The bytes up to and with the next end marker. */
  function PassOver(data: seq<byte>, p: nat, n: int): Option<nat>
    requires n > 0 ==> p + n <= |data|
    decreases n
  {
    if n <= 0 then None
    else if Ends(data, p, n) then Some(3)
    else match PassOver(data, p + 1, n - 1)
      case None => None
      case Some(k) => Some(k + 1)
  }

  function Abandoned(k: Option<nat>): Option<(seq<Prop>, nat)> {
    if k == None then None else Some(([], k.value))
  }

  function Joined(prop: Prop, k: nat, r: Option<(seq<Prop>, nat)>): Option<(seq<Prop>, nat)> {
    match r
    case None => None
    case Some((props, j)) => Some(([prop] + props, k + j))
  }

  /** `AMF_DecodeArray`: so many properties without names. */
  function ParseArray(data: seq<byte>, p: nat, n: int, count: nat): Option<(seq<Prop>, nat)>
    requires n > 0 ==> p + n <= |data|
    decreases Left(data, p), 3, count
  {
    if count == 0 then Some(([], 0))
    else match ParseProp(data, p, n, false)
      case None => None
      case Some((prop, k)) => Joined(prop, k, ParseArray(data, p + k, n - k, count - 1))
  }

  // ---- The decoder -----------------------------------------------------------------------------------

  /** `AMFProp_Decode`. */
  method DecodeProp(data: seq<byte>, p: nat, n: int, named: bool) returns (r: Option<(Prop, nat)>)
    requires n > 0 ==> p + n <= |data|
    ensures r == ParseProp(data, p, n, named)
    decreases Left(data, p), 2
  {
    var at, size, name := p, n, [];
    if size == 0 { return None; }
    if named && size < 4 { return None; }
    if named {
      var len: int := Get16(data, at);
      if len > size - 2 { return None; }
      name := data[at + 2..at + 2 + len];
      size := size - (2 + len);
      at := at + 2 + len;
    }
    if size == 0 || at >= |data| { return None; }
    r := DecodeValue(data, at, size, name, at - p);
  }

  method DecodeValue(data: seq<byte>, p: nat, n: int, name: seq<byte>, taken: nat) returns (r: Option<(Prop, nat)>)
    requires n != 0 && p < |data| && (n > 0 ==> p + n <= |data|)
    ensures r == ParseValue(data, p, n, name, taken)
    decreases Left(data, p), 1
  {
    hide ParsePlain, ParseObject, ParseArray;
    var kind := data[p];
    if kind == AMF_OBJECT {
      var res := DecodeObject(data, p + 1, n - 1);
      if res == None { return None; }
      r := Some((Prop(name, Object(res.value.0)), taken + 1 + res.value.1));
    } else if kind == AMF_ECMA_ARRAY {
      var res := DecodeObject(data, p + 5, n - 5);
      if res == None { return None; }
      r := Some((Prop(name, EcmaArray(res.value.0)), taken + 5 + res.value.1));
    } else if kind == AMF_STRICT_ARRAY {
      if p + 5 > |data| { return None; }
      var count: int := Get32(data, p + 1);
      if count >= 0x8000_0000 { count := 0; }
      var res := DecodeArray(data, p + 5, n - 5, count);
      if res == None { return None; }
      r := Some((Prop(name, StrictArray(res.value.0)), taken + 5 + res.value.1));
    } else {
      var plain := DecodePlain(data, p, n);
      if plain == None { return None; }
      r := Some((Prop(name, plain.value.0), taken + plain.value.1));
    }
  }

  /** `AMF_DecodeNumber`: the eight bytes in the order of the machine. */
  method DecodeNumber(data: seq<byte>, p: nat) returns (bits: Double)
    requires p + 8 <= |data|
    ensures bits == Reversed(data[p..p + 8])
  {
    bits := [data[p + 7], data[p + 6], data[p + 5], data[p + 4], data[p + 3], data[p + 2], data[p + 1], data[p]];
    ReversedEight(data[p..p + 8]);
  }

  lemma {:induction false} ReversedEight(s: seq<byte>)
    requires |s| == 8
    ensures Reversed(s) == [s[7], s[6], s[5], s[4], s[3], s[2], s[1], s[0]]
  {
    ReversedFour(s[4..]);
    assert s[1..][1..] == s[2..] && s[2..][1..] == s[3..] && s[3..][1..] == s[4..];
    assert Reversed(s[3..]) == Reversed(s[4..]) + [s[3]];
    assert Reversed(s[2..]) == Reversed(s[3..]) + [s[2]];
    assert Reversed(s[1..]) == Reversed(s[2..]) + [s[1]];
  }

  lemma {:induction false} ReversedFour(s: seq<byte>)
    requires |s| == 4
    ensures Reversed(s) == [s[3], s[2], s[1], s[0]]
  {
    assert s[1..][1..] == s[2..] && s[2..][1..] == s[3..] && s[3..][1..] == [];
    assert Reversed(s[3..]) == [s[3]];
    assert Reversed(s[2..]) == [s[3], s[2]];
    assert Reversed(s[1..]) == [s[3], s[2], s[1]];
  }

  /** The kinds of value that hold no others. */
  method DecodePlain(data: seq<byte>, p: nat, n: int) returns (r: Option<(Value, nat)>)
    requires n != 0 && p < |data| && (n > 0 ==> p + n <= |data|)
    ensures r == ParsePlain(data, p, n)
  {
    hide Reversed;
    var kind, at, size := data[p], p + 1, n - 1;
    if kind == 0 {
      if size < 8 { return None; }
      var bits := DecodeNumber(data, at);
      return Some((Number(bits), 9));
    } else if kind == 1 {
      if size < 1 { return None; }
      return Some((Boolean(data[at] != 0), 2));
    } else if kind == 2 {
      if size < 2 { return None; }
      var len: int := Get16(data, at);
      if size < len + 2 { return None; }
      return Some((String(data[at + 2..at + 2 + len]), 3 + len));
    } else if kind == 5 || kind == 6 || kind == 13 {
      return Some((Null, 1));
    } else if kind == 11 {
      if size < 10 { return None; }
      var bits := DecodeNumber(data, at);
      return Some((Date(bits, Get16(data, at + 8)), 11));
    } else if kind == 12 || kind == 15 {
      if size < 4 { return None; }
      var len: int := Get32(data, at);
      if size < len + 4 { return None; }
      var text := data[at + 4..at + 4 + len];
      return Some((if kind == 12 then String(text) else XmlDoc(text), 5 + len));
    }
    return None;
  }

  /** `AMF_Decode`: the properties are added one by one; after a failure bytes are passed over. */
  method DecodeObject(data: seq<byte>, p: nat, n: int) returns (r: Option<(seq<Prop>, nat)>)
    requires n > 0 ==> p + n <= |data|
    ensures r == ParseObject(data, p, n)
    decreases Left(data, p), 4
  {
    hide ParseProp, ParseObject, PassOver;
    var at, size, props := p, n, [];
    var failed := false;
    ghost var all := ParseObject(data, p, n);
    GatherNone(all);
    while size > 0
      invariant (size > 0 ==> at + size <= |data|) && at >= p && n - size == at - p
      invariant !failed ==> all == Gathered(props, at - p, ParseObject(data, at, size))
      invariant failed ==> all == Gathered(props, at - p, Abandoned(PassOver(data, at, size)))
      decreases size, !failed
    {
      EndBytes(data, at, size);
      ObjectStep(data, at, size);
      if size >= 3 && data[at] == 0 && data[at + 1] == 0 && data[at + 2] == 9 {
        assert props + [] == props;
        return Some((props, at - p + 3));
      }
      if failed {
        PassOne(props, at - p, data, at, size);
        at, size := at + 1, size - 1;
        continue;
      }
      var res := DecodeProp(data, at, size, true);
      if res == None {
        failed := true;
      } else {
        GatherOne(props, at - p, res.value.0, res.value.1, ParseObject(data, at + res.value.1, size - res.value.1));
        at, size := at + res.value.1, size - res.value.1;
        props := props + [res.value.0];
      }
    }
    ObjectOver(data, at, size);
    if failed { return None; }
    assert props + [] == props;
    r := Some((props, at - p));
  }

  lemma ObjectStep(data: seq<byte>, p: nat, n: int)
    requires n > 0 && p + n <= |data|
    ensures Ends(data, p, n) ==> ParseObject(data, p, n) == Some(([], 3)) && PassOver(data, p, n) == Some(3)
    ensures !Ends(data, p, n) ==>
      ParseObject(data, p, n) ==
      match ParseProp(data, p, n, true)
      case None => Abandoned(PassOver(data, p, n))
      case Some((prop, k)) => Joined(prop, k, ParseObject(data, p + k, n - k))
  {}

  lemma {:induction false} ObjectOver(data: seq<byte>, p: nat, n: int)
    requires n <= 0
    ensures ParseObject(data, p, n) == Some(([], 0)) && PassOver(data, p, n) == None
  {}

  /** The outcome when the properties `props` have been read already, from `k` bytes. */
  function Gathered(props: seq<Prop>, k: nat, r: Option<(seq<Prop>, nat)>): Option<(seq<Prop>, nat)> {
    match r
    case None => None
    case Some((rest, j)) => Some((props + rest, k + j))
  }

  lemma GatherNone(r: Option<(seq<Prop>, nat)>)
    ensures Gathered([], 0, r) == r
  {
    if r.Some? { assert [] + r.value.0 == r.value.0; }
  }

  lemma GatherOne(props: seq<Prop>, k: nat, q: Prop, j: nat, r: Option<(seq<Prop>, nat)>)
    ensures Gathered(props, k, Joined(q, j, r)) == Gathered(props + [q], k + j, r)
  {
    if r.Some? { assert props + ([q] + r.value.0) == props + [q] + r.value.0; }
  }

  lemma PassOne(props: seq<Prop>, k: nat, data: seq<byte>, p: nat, n: int)
    requires n > 0 && p + n <= |data| && !Ends(data, p, n)
    ensures Gathered(props, k, Abandoned(PassOver(data, p, n))) ==
            Gathered(props, k + 1, Abandoned(PassOver(data, p + 1, n - 1)))
  {}

  lemma EndBytes(data: seq<byte>, p: nat, n: int)
    requires n > 0 && p + n <= |data|
    ensures Ends(data, p, n) <==> n >= 3 && data[p] == 0 && data[p + 1] == 0 && data[p + 2] == 9
  {
    if n >= 3 { assert data[p..p + 3] == [data[p], data[p + 1], data[p + 2]]; }
  }

  /** `AMF_DecodeArray` goes on after a failure, but then fails. */
  method DecodeArray(data: seq<byte>, p: nat, n: int, count: nat) returns (r: Option<(seq<Prop>, nat)>)
    requires n > 0 ==> p + n <= |data|
    ensures r == ParseArray(data, p, n, count)
    decreases Left(data, p), 3
  {
    hide ParseProp;
    var at, size, left, props := p, n, count, [];
    var failed := false;
    ghost var all := ParseArray(data, p, n, count);
    GatherNone(all);
    while left > 0
      invariant (size > 0 ==> at + size <= |data|) && at >= p && n - size == at - p
      invariant failed ==> all == None
      invariant !failed ==> all == Gathered(props, at - p, ParseArray(data, at, size, left))
    {
      var res := DecodeProp(data, at, size, false);
      if res == None {
        failed := true;
      } else {
        if !failed {
          GatherOne(props, at - p, res.value.0, res.value.1,
                    ParseArray(data, at + res.value.1, size - res.value.1, left - 1));
        }
        at, size := at + res.value.1, size - res.value.1;
        props := props + [res.value.0];
      }
      left := left - 1;
    }
    if failed { return None; }
    assert props + [] == props;
    r := Some((props, at - p));
  }

  // ---- Round trip ------------------------------------------------------------------------------------

  /** Values that can be read back: members of an object are named and not null, elements of a
      strict array have no names. */
  predicate Readable(v: Value)
    decreases v
  {
    match v
    case String(text) => |text| < 0x8000_0000
    case Object(props) => forall i :: 0 <= i < |props| ==> Member(props[i]) && Readable(props[i].value)
    case EcmaArray(props) => forall i :: 0 <= i < |props| ==> Member(props[i]) && Readable(props[i].value)
    case StrictArray(props) =>
      |props| < 0x8000_0000 && forall i :: 0 <= i < |props| ==> props[i].name == [] && Readable(props[i].value)
    case Date(_, _) => false
    case XmlDoc(_) => false
    case _ => true
  }

  predicate Member(p: Prop) {
    0 < |p.name| < 0x1_0000 && !p.value.Null?
  }

  lemma {:induction false} ReversedTwice(s: seq<byte>)
    ensures Reversed(Reversed(s)) == s
  {
    if s != [] {
      ReversedTwice(s[1..]);
      ReversedSnoc(Reversed(s[1..]), s[0]);
    }
  }

  lemma {:induction false} ReversedSnoc(s: seq<byte>, b: byte)
    ensures Reversed(s + [b]) == [b] + Reversed(s)
  {
    if s != [] {
      ReversedSnoc(s[1..], b);
      assert (s + [b])[1..] == s[1..] + [b];
    }
  }

  /** Numbers, booleans, strings and nulls. */
  lemma {:induction false} PlainBack(v: Value, data: seq<byte>, p: nat, n: int)
    requires Readable(v) && !Holds(v) && At(data, p, Printed(v)) && n >= |Printed(v)| && p + n <= |data|
    ensures ParsePlain(data, p, n) == Some((v, |Printed(v)|))
    ensures data[p] != AMF_OBJECT && data[p] != AMF_ECMA_ARRAY && data[p] != AMF_STRICT_ARRAY
  {
    match v
    case Number(bits) =>
      AtSplit(data, p, [AMF_NUMBER], Reversed(bits));
      AtByte(data, p, [AMF_NUMBER], 0);
      ReversedTwice(bits);
    case Boolean(flag) =>
      AtByte(data, p, Printed(v), 0);
      AtByte(data, p, Printed(v), 1);
    case String(text) => TextBack(text, data, p, n);
    case Null => AtByte(data, p, Printed(v), 0);
  }

  lemma TextBack(text: seq<byte>, data: seq<byte>, p: nat, n: int)
    requires |text| < 0x8000_0000 && At(data, p, TextHead(text) + text) && n >= |TextHead(text) + text| &&
             p + n <= |data|
    ensures ParsePlain(data, p, n) == Some((String(text), |TextHead(text) + text|))
    ensures data[p] == AMF_STRING || data[p] == AMF_LONG_STRING
  {
    hide Be16, Be32;
    AtSplit(data, p, TextHead(text), text);
    if |text| < 0x1_0000 {
      AtSplit(data, p, [AMF_STRING], Be16(|text|));
      AtByte(data, p, [AMF_STRING], 0);
      Read16(data, p + 1, |text|);
    } else {
      AtSplit(data, p, [AMF_LONG_STRING], Be32(|text|));
      AtByte(data, p, [AMF_LONG_STRING], 0);
      Read32(data, p + 1, |text|);
    }
  }

  /** A value read back, whatever bytes follow it. */
  lemma {:induction false} ValueBack(v: Value, data: seq<byte>, p: nat, n: int, name: seq<byte>, taken: nat)
    requires Readable(v) && At(data, p, Printed(v)) && n >= |Printed(v)| && p + n <= |data|
    ensures ParseValue(data, p, n, name, taken) == Some((Prop(name, v), taken + |Printed(v)|))
    decreases v, 2, 0
  {
    if v.Object? || v.EcmaArray? {
      ObjectBack(v, data, p, n, name, taken);
    } else if v.StrictArray? {
      ArrayBack(v, data, p, n, name, taken);
    } else {
      PlainBack(v, data, p, n);
    }
  }

  lemma {:induction false} ObjectBack(v: Value, data: seq<byte>, p: nat, n: int, name: seq<byte>, taken: nat)
    requires (v.Object? || v.EcmaArray?) && Readable(v) && At(data, p, Printed(v)) && n >= |Printed(v)| &&
             p + n <= |data|
    ensures ParseValue(data, p, n, name, taken) == Some((Prop(name, v), taken + |Printed(v)|))
    decreases v, 1, 0
  {
    hide ParseObject, ParseValue, Printed, Members, Readable;
    var h, k := ObjectParts(v, data, p);
    MembersBack(v, 0, data, p + h, n - h);
    assert v.props[0..] == v.props;
    ObjectWhole(v, data, p, n, name, taken, h, k);
  }

  lemma ObjectParts(v: Value, data: seq<byte>, p: nat) returns (h: nat, k: nat)
    requires (v.Object? || v.EcmaArray?) && At(data, p, Printed(v))
    ensures k == |Members(v, 0)| + 3 && h + k == |Printed(v)| && At(data, p + h, Members(v, 0) + OBJECT_END)
    ensures (v.Object? && h == 1 && data[p] == AMF_OBJECT) || (v.EcmaArray? && h == 5 && data[p] == AMF_ECMA_ARRAY)
  {
    var head := if v.Object? then [AMF_OBJECT] else [AMF_ECMA_ARRAY] + Be32(|v.props| % 0x1_0000_0000);
    var ms := Members(v, 0);
    Assoc(head, ms, OBJECT_END);
    AtSplit(data, p, head, ms + OBJECT_END);
    AtByte(data, p, head, 0);
    h, k := |head|, |ms| + 3;
  }

  lemma ObjectWhole(v: Value, data: seq<byte>, p: nat, n: int, name: seq<byte>, taken: nat, h: nat, k: nat)
    requires n > 0 && p + n <= |data|
    requires (v.Object? && h == 1 && data[p] == AMF_OBJECT) || (v.EcmaArray? && h == 5 && data[p] == AMF_ECMA_ARRAY)
    requires ParseObject(data, p + h, n - h) == Some((v.props, k))
    ensures ParseValue(data, p, n, name, taken) == Some((Prop(name, v), taken + h + k))
  {}

  lemma {:induction false} ArrayBack(v: Value, data: seq<byte>, p: nat, n: int, name: seq<byte>, taken: nat)
    requires v.StrictArray? && Readable(v) && At(data, p, Printed(v)) && n >= |Printed(v)| && p + n <= |data|
    ensures ParseValue(data, p, n, name, taken) == Some((Prop(name, v), taken + |Printed(v)|))
    decreases v, 1, 0
  {
    hide ParseArray, ParseValue, Printed, Members, Readable, At;
    ArraySize(v);
    var k := ArrayParts(v, data, p);
    ElementsBack(v, 0, data, p + 5, n - 5);
    assert v.props[0..] == v.props;
    ArrayWhole(v, data, p, n, name, taken, k);
  }

  lemma {:induction false} ArraySize(v: Value)
    requires v.StrictArray? && Readable(v)
    ensures |v.props| < 0x8000_0000
  {}

  lemma ArrayParts(v: Value, data: seq<byte>, p: nat) returns (k: nat)
    requires v.StrictArray? && |v.props| < 0x8000_0000 && At(data, p, Printed(v))
    ensures k == |Members(v, 0)| && 5 + k == |Printed(v)| && At(data, p + 5, Members(v, 0))
    ensures data[p] == AMF_STRICT_ARRAY && Get32(data, p + 1) == |v.props|
  {
    var head := [AMF_STRICT_ARRAY] + Be32(|v.props|);
    AtSplit(data, p, head, Members(v, 0));
    AtSplit(data, p, [AMF_STRICT_ARRAY], Be32(|v.props|));
    AtByte(data, p, [AMF_STRICT_ARRAY], 0);
    Read32(data, p + 1, |v.props|);
    k := |Members(v, 0)|;
  }

  lemma {:induction false} ArrayWhole(v: Value, data: seq<byte>, p: nat, n: int, name: seq<byte>, taken: nat, k: nat)
    requires v.StrictArray? && n >= 5 && p + n <= |data| && data[p] == AMF_STRICT_ARRAY
    requires Get32(data, p + 1) == |v.props| < 0x8000_0000
    requires ParseArray(data, p + 5, n - 5, |v.props|) == Some((v.props, k))
    ensures ParseValue(data, p, n, name, taken) == Some((Prop(name, v), taken + 5 + k))
  {}

  /** A property with a name read back. */
  lemma {:induction false} PropBack(q: Prop, data: seq<byte>, p: nat, n: int)
    requires Member(q) && Readable(q.value) && At(data, p, Named(q)) && n >= |Named(q)| && p + n <= |data|
    ensures ParseProp(data, p, n, true) == Some((Prop(q.name, q.value), 2 + |q.name| + |Printed(q.value)|))
    decreases q, 0, 0
  {
    hide ParseProp, ParseValue, Printed, Named, Readable;
    var len := |q.name|;
    NameAt(q, data, p);
    ReadableSize(q.value);
    ValueBack(q.value, data, p + 2 + len, n - 2 - len, q.name, 2 + len);
    NamedRead(data, p, n, q.name, q.value, |Printed(q.value)|);
  }

  lemma {:induction false} NamedRead(data: seq<byte>, p: nat, n: int, name: seq<byte>, v: Value, k: nat)
    requires n >= 4 && p + n <= |data| && Get16(data, p) == |name| < n - 2 && At(data, p + 2, name)
    requires ParseValue(data, p + 2 + |name|, n - 2 - |name|, name, 2 + |name|) == Some((Prop(name, v), 2 + |name| + k))
    ensures ParseProp(data, p, n, true) == Some((Prop(name, v), 2 + |name| + k))
  {
    hide ParseValue;
    assert data[p + 2..p + 2 + |name|] == name;
  }

  lemma {:induction false} NamedParts(q: Prop)
    requires Member(q)
    ensures Named(q) == NameBytes(q) + Printed(q.value) && NameBytes(q) == Be16(|q.name|) + q.name
  {
  }

  /** Where the name and the value of a member stand. */
  lemma {:induction false} NameAt(q: Prop, data: seq<byte>, p: nat)
    requires Member(q) && At(data, p, Named(q))
    ensures |Named(q)| == 2 + |q.name| + |Printed(q.value)| && Get16(data, p) == |q.name|
    ensures At(data, p + 2, q.name) && At(data, p + 2 + |q.name|, Printed(q.value))
  {
    hide Named, NameBytes, Printed, Be16, At;
    var len, name, rest := |q.name|, NameBytes(q), Printed(q.value);
    NamedParts(q);
    AtSplit(data, p, name, rest);
    AtSplit(data, p, Be16(len), q.name);
    Read16(data, p, len);
  }

  lemma {:induction false} ReadableSize(v: Value)
    requires Readable(v)
    ensures |Printed(v)| >= if v.Null? then 1 else 2
  {}

  lemma {:induction false} MembersBack(v: Value, i: nat, data: seq<byte>, p: nat, n: int)
    requires (v.Object? || v.EcmaArray?) && Readable(v) && i <= |v.props|
    requires At(data, p, Members(v, i) + OBJECT_END) && n >= |Members(v, i)| + 3 && p + n <= |data|
    ensures ParseObject(data, p, n) == Some((v.props[i..], |Members(v, i)| + 3))
    decreases v, 0, 2 * (|v.props| - i) + 1
  {
    hide ParseObject, ParseProp, Printed, Named, Members, Readable, Ends, At;
    if i < |v.props| {
      var k := MemberBack(v, i, data, p, n);
      MembersBack(v, i + 1, data, p + k, n - k);
      MemberRead(data, p, n, v.props[i], k, v.props[i + 1..], |Members(v, i + 1)| + 3, v.props[i..]);
    } else {
      LastMember(v, data, p, n);
      assert v.props[i..] == [];
    }
  }

  lemma {:induction false} MemberBack(v: Value, i: nat, data: seq<byte>, p: nat, n: int) returns (k: nat)
    requires (v.Object? || v.EcmaArray?) && Readable(v) && i < |v.props|
    requires At(data, p, Members(v, i) + OBJECT_END) && n >= |Members(v, i)| + 3 && p + n <= |data|
    ensures 3 <= k <= n && k + |Members(v, i + 1)| == |Members(v, i)| && At(data, p + k, Members(v, i + 1) + OBJECT_END)
    ensures !Ends(data, p, n) && ParseProp(data, p, n, true) == Some((v.props[i], k))
    decreases v, 0, 2 * (|v.props| - i)
  {
    hide ParseProp, Printed, Named, Members;
    var q := v.props[i];
    assert Member(q) && Readable(q.value);
    k := MemberAt(v, i, data, p);
    NameAt(q, data, p);
    PropBack(q, data, p, n);
    assert q == Prop(q.name, q.value);
    EndsNot(data, p, n);
  }

  lemma EndsNot(data: seq<byte>, p: nat, n: int)
    requires n > 0 && p + n <= |data| && (n >= 3 ==> data[p..p + 3] != OBJECT_END)
    ensures !Ends(data, p, n)
  {}

  /** The member at the front, and what is behind it. */
  lemma MemberAt(v: Value, i: nat, data: seq<byte>, p: nat) returns (k: nat)
    requires Holds(v) && i < |v.props| && Member(v.props[i]) && At(data, p, Members(v, i) + OBJECT_END)
    ensures At(data, p, Named(v.props[i])) && k == |Named(v.props[i])| >= 3 && data[p..p + 3] != OBJECT_END
    ensures At(data, p + k, Members(v, i + 1) + OBJECT_END) && k + |Members(v, i + 1)| == |Members(v, i)|
  {
    var q, rest := v.props[i], Members(v, i + 1);
    Assoc(Named(q), rest, OBJECT_END);
    AtSplit(data, p, Named(q), rest + OBJECT_END);
    NotTheEnd(q, data, p);
    k := |Named(q)|;
  }

  lemma MemberRead(data: seq<byte>, p: nat, n: int, q: Prop, k: nat, rest: seq<Prop>, j: nat, all: seq<Prop>)
    requires n > 0 && p + n <= |data| && k <= n && !Ends(data, p, n)
    requires ParseProp(data, p, n, true) == Some((q, k)) && ParseObject(data, p + k, n - k) == Some((rest, j))
    requires |all| == |rest| + 1 && all[0] == q && all[1..] == rest
    ensures ParseObject(data, p, n) == Some((all, k + j))
  {
    hide ParseProp, Ends, PassOver;
    assert all == [q] + rest;
  }

  lemma {:induction false} LastMember(v: Value, data: seq<byte>, p: nat, n: int)
    requires Holds(v) && At(data, p, Members(v, |v.props|) + OBJECT_END) && n >= 3 && p + n <= |data|
    ensures ParseObject(data, p, n) == Some(([], 3)) && |Members(v, |v.props|)| == 0
  {
    assert [] + OBJECT_END == OBJECT_END;
    EndRead(data, p, n);
  }

  lemma {:induction false} EndRead(data: seq<byte>, p: nat, n: int)
    requires n >= 3 && p + n <= |data| && At(data, p, OBJECT_END)
    ensures ParseObject(data, p, n) == Some(([], 3))
  {}

  /** A member does not look like an end marker: its name is not empty. */
  lemma {:induction false} NotTheEnd(q: Prop, data: seq<byte>, p: nat)
    requires Member(q) && At(data, p, Named(q))
    ensures p + 3 <= |data| && data[p..p + 3] != OBJECT_END
  {
    NameAt(q, data, p);
    assert data[p..p + 3][0] == data[p] && data[p..p + 3][1] == data[p + 1];
  }

  lemma {:induction false} ElementsBack(v: Value, i: nat, data: seq<byte>, p: nat, n: int)
    requires v.StrictArray? && Readable(v) && i <= |v.props|
    requires At(data, p, Members(v, i)) && n >= |Members(v, i)| && p + n <= |data|
    ensures ParseArray(data, p, n, |v.props| - i) == Some((v.props[i..], |Members(v, i)|))
    decreases v, 0, |v.props| - i
  {
    hide ParseArray, ParseProp, Printed, Named, Members, Readable, At;
    if i < |v.props| {
      var q, rest := v.props[i], Members(v, i + 1);
      ElementAt(v, i);
      var k := |Named(q)|;
      AtSplit(data, p, Named(q), rest);
      ElementBack(q, data, p, n);
      ElementsBack(v, i + 1, data, p + k, n - k);
      assert v.props[i..] == [q] + v.props[i + 1..];
      ElementRead(data, p, n, |v.props| - i, q, k, v.props[i + 1..], |rest|);
    } else {
      assert v.props[i..] == [];
      ElementsEnd(v, data, p, n);
    }
  }

  lemma {:induction false} ElementsEnd(v: Value, data: seq<byte>, p: nat, n: int)
    requires v.StrictArray? && n >= 0 && p + n <= |data|
    ensures ParseArray(data, p, n, 0) == Some(([], 0)) && Members(v, |v.props|) == []
  {
  }

  lemma ElementAt(v: Value, i: nat)
    requires v.StrictArray? && Readable(v) && i < |v.props|
    ensures v.props[i].name == [] && Readable(v.props[i].value)
    ensures Members(v, i) == Named(v.props[i]) + Members(v, i + 1) && |Members(v, i)| > 0
  {
  }

  /** A value without a name read back. */
  lemma {:induction false} ElementBack(q: Prop, data: seq<byte>, p: nat, n: int)
    requires q.name == [] && Readable(q.value) && At(data, p, Named(q)) && n >= |Named(q)| && p + n <= |data|
    ensures ParseProp(data, p, n, false) == Some((q, |Named(q)|))
    decreases q, 0, 0
  {
    assert Named(q) == Printed(q.value);
    ReadableSize(q.value);
    ValueBack(q.value, data, p, n, [], 0);
  }

  lemma ElementRead(data: seq<byte>, p: nat, n: int, count: nat, q: Prop, k: nat, rest: seq<Prop>, j: nat)
    requires n > 0 && p + n <= |data| && k <= n && count > 0 && ParseProp(data, p, n, false) == Some((q, k))
    requires ParseArray(data, p + k, n - k, count - 1) == Some((rest, j))
    ensures ParseArray(data, p, n, count) == Some(([q] + rest, k + j))
  {}

  lemma {:induction false} ReadableIsPrintable(v: Value)
    requires Readable(v)
    ensures Printable(v)
    decreases v
  {
    if Holds(v) {
      forall i | 0 <= i < |v.props| ensures Printable(v.props[i].value) { ReadableIsPrintable(v.props[i].value); }
    }
  }

  /** With room to spare a property is written, and reading it back, whatever bytes follow, gives the
      same property and takes exactly what was written. */
  lemma {:induction false} RoundTrip(q: Prop, named: bool, room: int, tail: seq<byte>)
    requires Readable(q.value) && (if named then Member(q) else q.name == []) && room >= |Named(q)| + 2
    ensures PrintProp(q, room) == Some(Named(q))
    ensures ParseProp(Named(q) + tail, 0, |Named(q) + tail|, named) == Some((q, |Named(q)|))
  {
    hide Readable, Printable, Named, PrintProp, ParseProp, Printed;
    var data := Named(q) + tail;
    ReadableIsPrintable(q.value);
    PropFits(q, room);
    assert data[0..|Named(q)|] == Named(q);
    if named {
      NameAt(q, data, 0);
      PropBack(q, data, 0, |data|);
      assert q == Prop(q.name, q.value);
    } else {
      ElementBack(q, data, 0, |data|);
    }
  }

  /** A null with a name is written as a bare null: as a member it cannot be read back. */
  lemma {:induction false} NamedNullLost(name: seq<byte>, room: int)
    requires room >= 2
    ensures PrintProp(Prop(name, Null), room) == Some([AMF_NULL])
    ensures ParseProp([AMF_NULL], 0, 1, true) == None
  {
    assert [] + [AMF_NULL] == [AMF_NULL];
  }

  /** A property with a name comes back as a member exactly if it is not a null. */
  lemma {:induction false} NamedBackIff(q: Prop, tail: seq<byte>)
    requires Readable(q.value) && 0 < |q.name| < 0x1_0000
    ensures ParseProp(Named(q) + tail, 0, |Named(q) + tail|, true) == Some((q, |Named(q)|)) <==> !q.value.Null?
  {
    if q.value.Null? {
      assert |Named(q)| == 1;
      NamedTakesThree(Named(q) + tail);
    } else {
      hide ParseProp, Readable, Printed;
      RoundTrip(q, true, |Named(q)| + 2, tail);
    }
  }

  lemma {:induction false} NamedTakesThree(data: seq<byte>)
    ensures var r := ParseProp(data, 0, |data|, true); r.Some? ==> r.value.1 >= 3
  {
  }

  // ---- Nulls inside nested values --------------------------------------------------------------------

  /** Values that can be written: like `Readable`, but members may be null. */
  predicate Writable(v: Value)
    decreases v
  {
    match v
    case String(text) => |text| < 0x8000_0000
    case Object(props) => forall i :: 0 <= i < |props| ==> 0 < |props[i].name| < 0x1_0000 && Writable(props[i].value)
    case EcmaArray(props) => forall i :: 0 <= i < |props| ==> 0 < |props[i].name| < 0x1_0000 && Writable(props[i].value)
    case StrictArray(props) =>
      |props| < 0x8000_0000 && forall i :: 0 <= i < |props| ==> props[i].name == [] && Writable(props[i].value)
    case Date(_, _) => false
    case XmlDoc(_) => false
    case _ => true
  }

  /** No member of an object, at any depth, is a null. */
  predicate Complete(v: Value)
    decreases v
  {
    match v
    case Object(props) => forall i :: 0 <= i < |props| ==> !props[i].value.Null? && Complete(props[i].value)
    case EcmaArray(props) => forall i :: 0 <= i < |props| ==> !props[i].value.Null? && Complete(props[i].value)
    case StrictArray(props) => forall i :: 0 <= i < |props| ==> Complete(props[i].value)
    case _ => true
  }

  lemma {:induction false} ReadableIs(v: Value)
    ensures Readable(v) <==> Writable(v) && Complete(v)
    decreases v
  {
    if Holds(v) {
      forall i | 0 <= i < |v.props|
        ensures Readable(v.props[i].value) <==> Writable(v.props[i].value) && Complete(v.props[i].value)
      {
        ReadableIs(v.props[i].value);
      }
    }
  }

  /** The bytes a reader takes at least for a value that ends before its input does: each member has a
      name, and each object its end marker. */
  function Need(v: Value): nat
    decreases v, 1, 0
  {
    match v
    case Number(_) => 9
    case Boolean(_) => 2
    case String(text) => |TextHead(text)| + |text|
    case Null => 1
    case Object(_) => 1 + NeedMembers(v, 0) + 3
    case EcmaArray(_) => 5 + NeedMembers(v, 0) + 3
    case StrictArray(_) => 5 + NeedMembers(v, 0)
    case Date(_, _) => 11
    case XmlDoc(text) => 5 + |text|
  }

  function NeedMembers(v: Value, i: nat): nat
    requires Holds(v) && i <= |v.props|
    decreases v, 0, |v.props| - i
  {
    if i == |v.props| then 0
    else (if v.StrictArray? then 0 else 2 + |v.props[i].name|) + Need(v.props[i].value) + NeedMembers(v, i + 1)
  }

  /** What is written of a value is as long as that exactly if the value is complete, and shorter if not. */
  lemma {:induction false} WrittenShort(v: Value)
    requires Writable(v)
    ensures |Printed(v)| <= Need(v) && (|Printed(v)| == Need(v) <==> Complete(v))
    decreases v, 1, 0
  {
    if Holds(v) { MembersShort(v, 0); }
  }

  predicate CompleteFrom(v: Value, i: nat)
    requires Holds(v)
  {
    forall j :: i <= j < |v.props| ==> (v.StrictArray? || !v.props[j].value.Null?) && Complete(v.props[j].value)
  }

  /** The bytes written for one member, and those needed. */
  lemma MembersStep(v: Value, i: nat)
    requires Holds(v) && Writable(v) && i <= |v.props|
    ensures i == |v.props| ==> |Members(v, i)| == NeedMembers(v, i) == 0
    ensures i < |v.props| ==>
      var q, named := v.props[i], !v.StrictArray?;
      && Writable(q.value) && (named ==> q.name != [])
      && |Members(v, i)| == |Members(v, i + 1)| + |Printed(q.value)| +
           (if named && !q.value.Null? then 2 + |q.name| else 0)
      && NeedMembers(v, i) == NeedMembers(v, i + 1) + Need(q.value) + if named then 2 + |q.name| else 0
  {
    hide Printed, Need;
  }

  lemma {:induction false} MembersShort(v: Value, i: nat)
    requires Holds(v) && Writable(v) && i <= |v.props|
    ensures |Members(v, i)| <= NeedMembers(v, i) && (|Members(v, i)| == NeedMembers(v, i) <==> CompleteFrom(v, i))
    ensures CompleteFrom(v, 0) <==> Complete(v)
    decreases v, 0, |v.props| - i
  {
    hide Printed, Named, Members, NeedMembers, Need, TextHead;
    MembersStep(v, i);
    if i < |v.props| {
      MembersShort(v, i + 1);
      WrittenShort(v.props[i].value);
      assert CompleteFrom(v, i) <==>
        (v.StrictArray? || !v.props[i].value.Null?) && Complete(v.props[i].value) && CompleteFrom(v, i + 1);
    }
  }

  // ---- What a reader takes -------------------------------------------------------------------------

  lemma PlainTakes(data: seq<byte>, p: nat, n: int)
    requires n > 0 && p + n <= |data|
    ensures match ParsePlain(data, p, n)
            case None => true
            case Some((v, k)) => k >= Need(v)
  {
  }

  lemma {:induction false} PropTakes(data: seq<byte>, p: nat, n: int, named: bool)
    requires n > 0 ==> p + n <= |data|
    ensures match ParseProp(data, p, n, named)
            case None => true
            case Some((q, k)) => k < n ==> k >= (if named then 2 + |q.name| else 0) + Need(q.value)
    decreases Left(data, p), 2
  {
    if n <= 0 || (named && n < 4) {
    } else if !named {
      ValueTakes(data, p, n, [], 0);
    } else {
      var len := Get16(data, p) as int;
      if len <= n - 2 && n - 2 - len != 0 {
        ValueTakes(data, p + 2 + len, n - 2 - len, data[p + 2..p + 2 + len], 2 + len);
      }
    }
  }

  lemma {:induction false} ValueTakes(data: seq<byte>, p: nat, n: int, name: seq<byte>, taken: nat)
    requires n > 0 && p + n <= |data|
    ensures match ParseValue(data, p, n, name, taken)
            case None => true
            case Some((q, k)) => q.name == name && (k - taken < n ==> k >= taken + Need(q.value))
    decreases Left(data, p), 1
  {
    if data[p] == AMF_OBJECT {
      ObjectTakes(data, p + 1, n - 1);
    } else if data[p] == AMF_ECMA_ARRAY {
      ObjectTakes(data, p + 5, n - 5);
    } else if data[p] == AMF_STRICT_ARRAY {
      if n >= 5 {
        ArrayTakes(data, p + 5, n - 5, if Get32(data, p + 1) < 0x8000_0000 then Get32(data, p + 1) else 0);
      }
    } else {
      PlainTakes(data, p, n);
    }
  }

  lemma {:induction false} ObjectTakes(data: seq<byte>, p: nat, n: int)
    requires n > 0 ==> p + n <= |data|
    ensures match ParseObject(data, p, n)
            case None => true
            case Some((props, k)) =>
              k < n ==> k >= NeedMembers(Object(props), 0) + 3 && k >= NeedMembers(EcmaArray(props), 0) + 3
    decreases Left(data, p), 3
  {
    hide ParseObject, ParseProp, PassOver, Ends, Need, NeedMembers;
    NeedNone();
    if n <= 0 {
      ObjectOver(data, p, n);
    } else {
      ObjectStep(data, p, n);
    }
    if n > 0 && !Ends(data, p, n) {
      PropTakes(data, p, n, true);
      match ParseProp(data, p, n, true) {
        case None => PassTakes(data, p, n);
        case Some((q, j)) =>
          ObjectTakes(data, p + j, n - j);
          match ParseObject(data, p + j, n - j) {
            case None =>
            case Some((rest, _)) => NeedMore(q, rest);
          }
      }
    }
  }

  lemma {:induction false} PassTakes(data: seq<byte>, p: nat, n: int)
    requires n > 0 ==> p + n <= |data|
    ensures match PassOver(data, p, n) case None => true case Some(k) => k >= 3
    decreases n
  {
    if n > 0 && !Ends(data, p, n) { PassTakes(data, p + 1, n - 1); }
  }

  lemma {:induction false} ArrayTakes(data: seq<byte>, p: nat, n: int, count: nat)
    requires n > 0 ==> p + n <= |data|
    ensures match ParseArray(data, p, n, count)
            case None => true
            case Some((props, k)) => k < n ==> k >= NeedMembers(StrictArray(props), 0)
    decreases Left(data, p), 3, count
  {
    hide Need, NeedMembers;
    NeedNone();
    if count > 0 {
      PropTakes(data, p, n, false);
      match ParseProp(data, p, n, false) {
        case None =>
        case Some((q, j)) =>
          ArrayTakes(data, p + j, n - j, count - 1);
          match ParseArray(data, p + j, n - j, count - 1) {
            case None =>
            case Some((rest, _)) => NeedMore(q, rest);
          }
      }
    }
  }

  lemma NeedNone()
    ensures NeedMembers(Object([]), 0) == NeedMembers(EcmaArray([]), 0) == NeedMembers(StrictArray([]), 0) == 0
  {
  }

  /** A member more in front. */
  lemma NeedMore(q: Prop, rest: seq<Prop>)
    ensures NeedMembers(Object([q] + rest), 0) == 2 + |q.name| + Need(q.value) + NeedMembers(Object(rest), 0)
    ensures NeedMembers(EcmaArray([q] + rest), 0) == 2 + |q.name| + Need(q.value) + NeedMembers(EcmaArray(rest), 0)
    ensures NeedMembers(StrictArray([q] + rest), 0) == Need(q.value) + NeedMembers(StrictArray(rest), 0)
  {
    NeedShifted(Object([q] + rest), Object(rest), 0);
    NeedShifted(EcmaArray([q] + rest), EcmaArray(rest), 0);
    NeedShifted(StrictArray([q] + rest), StrictArray(rest), 0);
  }

  lemma {:induction false} NeedShifted(v: Value, w: Value, i: nat)
    requires Holds(v) && Holds(w) && (v.StrictArray? <==> w.StrictArray?)
    requires |v.props| == |w.props| + 1 && v.props[1..] == w.props && i <= |w.props|
    ensures NeedMembers(v, i + 1) == NeedMembers(w, i)
    decreases |w.props| - i
  {
    if i < |w.props| {
      assert w.props[i] == v.props[1..][i];
      NeedShifted(v, w, i + 1);
    }
  }

  // ---- The exact condition -------------------------------------------------------------------------

  /** Written and read again with `tail` behind it, the property is the same and takes its own length. */
  predicate ComesBack(q: Prop, named: bool, tail: seq<byte>) {
    ParseProp(Named(q) + tail, 0, |Named(q) + tail|, named) == Some((q, |Named(q)|))
  }

  /** A null with a name, the property itself or a member at any depth, is never read back once another
      byte follows. */
  lemma NullInsideLost(q: Prop, named: bool, tail: seq<byte>)
    requires Writable(q.value) && (if named then 0 < |q.name| < 0x1_0000 else q.name == []) && tail != []
    requires !Complete(q.value) || (named && q.value.Null?)
    ensures !ComesBack(q, named, tail)
  {
    WrittenShort(q.value);
    PropTakes(Named(q) + tail, 0, |Named(q) + tail|, named);
    assert |Named(q)| < (if named then 2 + |q.name| else 0) + Need(q.value);
  }

  /** A whole nested value comes back, whatever follows, if and only if no named member of it, at any
      depth, is a null. */
  lemma NestedBackIff(q: Prop, named: bool)
    requires Writable(q.value) && (if named then 0 < |q.name| < 0x1_0000 else q.name == [])
    ensures (forall tail :: ComesBack(q, named, tail)) <==> Complete(q.value) && !(named && q.value.Null?)
  {
    ReadableIs(q.value);
    if Complete(q.value) && !(named && q.value.Null?) {
      forall tail ensures ComesBack(q, named, tail) {
        RoundTrip(q, named, |Named(q)| + 2, tail);
      }
    } else {
      NullInsideLost(q, named, [0]);
    }
  }
}
