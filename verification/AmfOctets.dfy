/** AMF0 in octets (Action Message Format AMF0, section 2): what stands where in the bytes written for a
    value, how much room writing takes, and what each first byte means to the reader. */
module AmfOctets {
  import opened Amf
  import opened Bytes
  import opened Sequences
  import opened Wrappers

  // ---- Written ---------------------------------------------------------------------------------------

  /** Values that hold no others: the type, then the number with its bytes reversed, the flag, or the
      length and the text. */
  lemma {:induction false} PlainOctets(v: Value)
    requires !Holds(v) && Printable(v) && (v.String? ==> |v.text| < 0x1_0000_0000)
    ensures var s := Printed(v);
            match v
            case Number(b) => s == [0, b[7], b[6], b[5], b[4], b[3], b[2], b[1], b[0]]
            case Boolean(flag) => s == [1, if flag then 1 else 0]
            case String(t) =>
              s == (if |t| <= 0xFFFF then [2, |t| / 0x100, |t| % 0x100]
                    else [12, |t| / 0x100_0000, |t| / 0x1_0000 % 0x100, |t| / 0x100 % 0x100, |t| % 0x100]) + t
            case Null => s == [5]
  {
    if v.Number? {
      ReversedEight(v.bits);
    }
  }

  /** Values that hold others: the type, the number of elements of an array, the members in order, and the
      end marker but for a strict array. */
  lemma {:induction false} HolderOctets(v: Value)
    requires Holds(v) && |v.props| < 0x1_0000_0000
    ensures var n := |v.props|;
            var count := [n / 0x100_0000, n / 0x1_0000 % 0x100, n / 0x100 % 0x100, n % 0x100];
            Printed(v) == match v
                          case Object(ps) => [3] + Concat(Named, ps) + [0, 0, 9]
                          case EcmaArray(ps) => [8] + count + Concat(Named, ps) + [0, 0, 9]
                          case StrictArray(ps) => [10] + count + Concat(Named, ps)
  {
    hide Concat, Named, Be32, Members;
    MembersAre(v, 0);
    CountOctets(|v.props|);
    assert v.props[0..] == v.props;
  }

  lemma CountOctets(n: nat)
    requires n < 0x1_0000_0000
    ensures Be32(n % 0x1_0000_0000) == [n / 0x100_0000, n / 0x1_0000 % 0x100, n / 0x100 % 0x100, n % 0x100]
  {}

  lemma {:induction false} MembersAre(v: Value, i: nat)
    requires Holds(v) && i <= |v.props|
    ensures Members(v, i) == Concat(Named, v.props[i..])
    decreases |v.props| - i
  {
    if i < |v.props| {
      MembersAre(v, i + 1);
      assert v.props[i..][1..] == v.props[i + 1..];
    }
  }

  /** A name stands behind its length in two bytes, in front of any value but a null. */
  lemma {:induction false} NameOctets(p: Prop)
    requires |p.name| < 0x1_0000
    ensures Named(p) == (if p.name == [] || p.value.Null? then []
                         else [|p.name| / 0x100, |p.name| % 0x100] + p.name) + Printed(p.value)
  {}

  // ---- Room ------------------------------------------------------------------------------------------

  /** The room a property takes that holds no others: what is written, two bytes more for a string whose
      length has two, one more for a null; and, without a name, still more than three. */
  lemma {:induction false} RoomIff(p: Prop, room: int)
    requires !Holds(p.value) && Printable(p.value) && (p.value.String? ==> |p.value.text| < 0x1_0000_0000)
    requires |p.name| < 0x1_0000
    ensures var name := if p.name == [] || p.value.Null? then 0 else 2 + |p.name|;
            PrintProp(p, room).Some? <==>
              match p.value
              case Number(_) => room >= name + 9
              case Boolean(_) => room >= name + 2 && room > |p.name| + 3
              case String(t) => room >= name + 5 + |t|
              case Null => room >= 2
    ensures PrintProp(p, room).Some? ==> PrintProp(p, room).value == Named(p)
  {
    PlainOctets(p.value);
  }

  /** And of one that holds nothing: the end marker needs a byte more than it takes. */
  lemma {:induction false} EmptyRoomIff(v: Value, room: int)
    requires Holds(v) && v.props == []
    ensures PrintValue(v, room).Some? <==>
            room >= match v case Object(_) => 5 case EcmaArray(_) => 9 case StrictArray(_) => 5
  {}

  /** The members from index `i` on fit one by one, each into the room that those before it leave, up to the
      first that does not. */
  predicate Fit(v: Value, i: nat, room: int, parts: seq<seq<byte>>)
    requires Holds(v) && i <= |v.props|
    decreases parts
  {
    if parts == [] then i == |v.props| || PrintProp(v.props[i], room) == None
    else
      && i < |v.props| && PrintProp(v.props[i], room) == Some(parts[0])
      && Fit(v, i + 1, room - |parts[0]|, parts[1..])
  }

  function Itself(s: seq<byte>): seq<byte> {
    s
  }

  /** Those are written, and no others. */
  lemma {:induction false} MembersStop(v: Value, i: nat, room: int) returns (parts: seq<seq<byte>>)
    requires Holds(v) && i <= |v.props|
    ensures PrintMembers(v, i, room) == Concat(Itself, parts) && Fit(v, i, room, parts)
    decreases |v.props| - i
  {
    hide PrintProp;
    parts := [];
    if i < |v.props| && PrintProp(v.props[i], room).Some? {
      var bytes := PrintProp(v.props[i], room).value;
      var rest := MembersStop(v, i + 1, room - |bytes|);
      parts := [bytes] + rest;
      assert parts[1..] == rest;
    }
  }

  // ---- Read ------------------------------------------------------------------------------------------

  /** Four bytes as a number, the most significant one first. */
  function Long(data: seq<byte>, p: nat): nat
    requires p + 4 <= |data|
  {
    data[p] as int * 0x100_0000 + data[p + 1] as int * 0x1_0000 + data[p + 2] as int * 0x100 + data[p + 3] as int
  }

  /** A text behind its length. */
  function Text(data: seq<byte>, p: nat, len: nat): seq<byte> {
    if p + len <= |data| then data[p..p + len] else []
  }

  /** What the `n` bytes at `p` mean that hold no others, by the first of them; `None` for a failure. */
  function Meaning(data: seq<byte>, p: nat, n: nat): Option<(Value, nat)>
    requires 0 < n && p + n <= |data|
  {
    match data[p] as int
    case 0 =>
      if n < 9 then None
      else Some((Number([data[p + 8], data[p + 7], data[p + 6], data[p + 5],
                         data[p + 4], data[p + 3], data[p + 2], data[p + 1]]), 9))
    case 1 => if n < 2 then None else Some((Boolean(data[p + 1] != 0), 2))
    case 2 =>
      if n < 3 then None
      else
        var len := data[p + 1] as int * 0x100 + data[p + 2] as int;
        if n < 3 + len then None else Some((String(Text(data, p + 3, len)), 3 + len))
    case 5 => Some((Null, 1))
    case 6 => Some((Null, 1))
    case 11 =>
      if n < 11 then None
      else Some((Date([data[p + 8], data[p + 7], data[p + 6], data[p + 5],
                       data[p + 4], data[p + 3], data[p + 2], data[p + 1]],
                      data[p + 9] as int * 0x100 + data[p + 10] as int), 11))
    case 12 =>
      if n < 5 then None
      else
        var len := Long(data, p + 1);
        if n < 5 + len then None else Some((String(Text(data, p + 5, len)), 5 + len))
    case 13 => Some((Null, 1))
    case 15 =>
      if n < 5 then None
      else
        var len := Long(data, p + 1);
        if n < 5 + len then None else Some((XmlDoc(Text(data, p + 5, len)), 5 + len))
    case _ => None
  }

  /** A value without a name is read by its first byte: 3, 8 and 10 hold others, and of the rest 0, 1, 2, 5,
      6, 11, 12, 13 and 15 are read and all others fail. */
  lemma {:induction false} ReadByKind(data: seq<byte>, p: nat, n: nat)
    requires 0 < n && p + n <= |data|
    ensures data[p] != 3 && data[p] != 8 && data[p] != 10 ==>
              ParseProp(data, p, n, false) ==
              match Meaning(data, p, n) case None => None case Some((v, k)) => Some((Prop([], v), k))
    ensures data[p] == 3 ==>
              ParseProp(data, p, n, false) ==
              match ParseObject(data, p + 1, n - 1)
              case None => None case Some((ps, k)) => Some((Prop([], Object(ps)), 1 + k))
    ensures data[p] == 8 && n >= 5 ==>
              ParseProp(data, p, n, false) ==
              match ParseObject(data, p + 5, n - 5)
              case None => None case Some((ps, k)) => Some((Prop([], EcmaArray(ps)), 5 + k))
    ensures data[p] == 10 && n >= 5 && data[p + 1] < 0x80 ==>
              ParseProp(data, p, n, false) ==
              match ParseArray(data, p + 5, n - 5, Long(data, p + 1))
              case None => None case Some((ps, k)) => Some((Prop([], StrictArray(ps)), 5 + k))
    ensures data[p] == 10 && n >= 5 && data[p + 1] >= 0x80 ==>
              ParseProp(data, p, n, false) == Some((Prop([], StrictArray([])), 5))
  {
    hide ParseObject, Reversed;
    assert ParseProp(data, p, n, false) == ParseValue(data, p, n, [], 0);
    if data[p] == 0 || data[p] == 11 {
      if n >= 9 { ReversedEight(data[p + 1..p + 9]); }
    }
  }

  /** A name is its length in two bytes and as many bytes; the value behind it is read as without one. */
  lemma {:induction false} ReadName(data: seq<byte>, p: nat, n: nat)
    requires p + n <= |data|
    ensures n < 4 ==> ParseProp(data, p, n, true) == None
    ensures n >= 4 ==>
              var len := data[p] as int * 0x100 + data[p + 1] as int;
              if n < 3 + len then ParseProp(data, p, n, true) == None
              else
                ParseProp(data, p, n, true) ==
                match ParseProp(data, p + 2 + len, n - 2 - len, false)
                case None => None
                case Some((q, k)) => Some((Prop(data[p + 2..p + 2 + len], q.value), 2 + len + k))
  {
    hide ParseObject, ParseArray, ParsePlain;
  }

  /** The octets 00 00 09. */
  predicate EndAt(data: seq<byte>, q: nat) {
    q + 3 <= |data| && data[q] == 0 && data[q + 1] == 0 && data[q + 2] == 9
  }

  /** The place of the first end marker in the `n` bytes at `p`, or `n`. */
  function EndMarker(data: seq<byte>, p: nat, n: nat): (k: nat)
    requires p + n <= |data|
    ensures k <= n && (k < n ==> k + 3 <= n && EndAt(data, p + k))
    ensures forall q :: p <= q < p + k && q + 3 <= p + n ==> !EndAt(data, q)
    decreases n
  {
    if n < 3 then n
    else if EndAt(data, p) then 0
    else
      var k := EndMarker(data, p + 1, n - 1);
      k + 1
  }

  /** A property that cannot be read ends an object: what follows is passed over up to and with the next end
      marker, and without one the object fails, too. */
  lemma {:induction false} Recovers(data: seq<byte>, p: nat, n: nat)
    requires 0 < n && p + n <= |data| && EndMarker(data, p, n) > 0 && ParseProp(data, p, n, true) == None
    ensures var k := EndMarker(data, p, n);
            if k < n then ParseObject(data, p, n) == Some(([], (k + 3) as nat)) else ParseObject(data, p, n) == None
  {
    hide ParseProp;
    NotAtOnce(data, p, n);
    PassedTo(data, p, n);
  }

  lemma {:induction false} NotAtOnce(data: seq<byte>, p: nat, n: nat)
    requires 0 < n && p + n <= |data| && EndMarker(data, p, n) > 0
    ensures !Ends(data, p, n)
  {
    EndBytes(data, p, n);
  }

  lemma {:induction false} PassedTo(data: seq<byte>, p: nat, n: nat)
    requires p + n <= |data|
    ensures var k := EndMarker(data, p, n);
            if k < n then PassOver(data, p, n) == Some((k + 3) as nat) else PassOver(data, p, n) == None
    decreases n
  {
    if n > 0 {
      EndBytes(data, p, n);
      PassedTo(data, p + 1, n - 1);
    }
  }

  /** The bytes 00 00 09 end an object. */
  lemma {:induction false} EndRead(data: seq<byte>, p: nat, n: nat)
    requires 3 <= n && p + n <= |data| && data[p] == 0 && data[p + 1] == 0 && data[p + 2] == 9
    ensures ParseObject(data, p, n) == Some(([], 3))
  {
    assert data[p..p + 3] == [0, 0, 9];
  }
}
