/** Generic NACK lists (`Nack::WithList`, `rtcp_enc.cpp:532-557`): sequence numbers packed into
    packet ids with a mask of the 16 numbers behind each (RFC 4585, section 6.2.1). */
module NackList {
  import opened Numbers
  import opened Bytes
  import opened Rtcp
  import opened Sequences

  /** How far `b` is ahead of `a`: the difference in 16-bit arithmetic. */
  function Gap(a: uint16, b: uint16): uint16 {
    if a <= b then b - a else b - a + 0x1_0000
  }

  /** The sum in 16-bit arithmetic. */
  function Plus(a: uint16, n: uint16): uint16 {
    if a + n < 0x1_0000 then a + n else a + n - 0x1_0000
  }

  /** `IsNewerSequenceNumber`. */
  predicate IsNewer(number: uint16, prev: uint16) {
    number != prev && Gap(prev, number) < 0x8000
  }

  /** The field names the sequence number `x`. */
  predicate Covers(f: NackField, x: uint16) {
    x == f.pid || (1 <= Gap(f.pid, x) <= 16 && Bit(f.blp, Gap(f.pid, x) - 1))
  }

  /** Bit i of the mask, the least significant one first, is the packet i + 1 behind the packet id. */
  lemma CoversBits(f: NackField, x: uint16)
    ensures Covers(f, x) <==>
            x == f.pid || exists i :: 0 <= i < 16 && MaskBit(f.blp, i) && x == (f.pid + i + 1) % 0x1_0000
  {
    if Covers(f, x) && x != f.pid {
      var i := Gap(f.pid, x) - 1;
      BitIsDigit(f.blp, i);
      assert MaskBit(f.blp, i) && x == (f.pid + i + 1) % 0x1_0000;
    }
    forall i | 0 <= i < 16 && MaskBit(f.blp, i) && x == (f.pid + i + 1) % 0x1_0000 ensures Covers(f, x) {
      BitIsDigit(f.blp, i);
    }
  }

  predicate MaskBit(mask: uint16, i: nat)
    requires i < 16
  {
    mask / [1, 2, 4, 8, 0x10, 0x20, 0x40, 0x80, 0x100, 0x200, 0x400, 0x800, 0x1000, 0x2000, 0x4000, 0x8000][i] % 2 == 1
  }

  lemma {:induction false} BitIsDigit(mask: uint16, i: nat)
    requires i < 16
    ensures Bit(mask, i) <==> MaskBit(mask, i)
  {
    PowersTo15(i);
    BitQuotient(mask, i);
  }

  lemma {:induction false} PowersTo15(i: nat)
    requires i < 16
    ensures Pow2(i) ==
            [1, 2, 4, 8, 0x10, 0x20, 0x40, 0x80, 0x100, 0x200, 0x400, 0x800, 0x1000, 0x2000, 0x4000, 0x8000][i]
  {
    assert Pow2(3) == 8 && Pow2(7) == 0x10 * Pow2(3) && Pow2(11) == 0x10 * Pow2(7) && Pow2(15) == 0x10 * Pow2(11);
  }

  ghost predicate NamedBy(x: uint16, fields: seq<NackField>) {
    exists f :: f in fields && Covers(f, x)
  }

  // ---- Packing -------------------------------------------------------------------------------------

  /** The mask and the index reached when the numbers from index `i` on that are at most 16 ahead of
      `pid` are added to the mask. */
  function Follow(pid: uint16, list: seq<uint16>, i: nat, blp: uint16): (r: (uint16, nat))
    requires i <= |list|
    ensures i <= r.1 <= |list|
    decreases |list| - i
  {
    if i < |list| && 1 <= Gap(pid, list[i]) <= 16 then
      Follow(pid, list, i + 1, Added(blp, Gap(pid, list[i]) - 1))
    else (blp, i)
  }

  /** `mask | (1 << k)` on 16 bits. */
  function Added(blp: uint16, k: nat): uint16
    requires k < 16
  {
    assert Pow2(16) == 0x1_0000 by { assert Pow2(8) == 0x100; Pow2Add(8, 8); }
    SetBitBound(blp, k, 16);
    SetBit(blp, k)
  }

  function Pack(list: seq<uint16>): seq<NackField> {
    if list == [] then []
    else
      var (blp, n) := Follow(list[0], list, 1, 0);
      [NackField(list[0], blp)] + Pack(list[n..])
  }

  method WithList(list: seq<uint16>) returns (fields: seq<NackField>)
    ensures fields == Pack(list)
  {
    fields := [];
    var i := 0;
    assert list[0..] == list;
    while i < |list|
      invariant 0 <= i <= |list| && fields + Pack(list[i..]) == Pack(list)
    {
      ghost var start := i;
      var pid := list[i];
      i := i + 1;
      var bitmask: uint16 := 0;
      while i < |list|
        invariant start < i <= |list|
        invariant Follow(pid, list, i, bitmask) == Follow(pid, list, start + 1, 0)
        decreases |list| - i
      {
        var shift := Gap(pid, list[i]) as int - 1;
        if 0 <= shift <= 15 {
          bitmask := Added(bitmask, shift);
          i := i + 1;
        } else {
          break;
        }
      }
      assert Follow(pid, list, i, bitmask) == (bitmask, i);
      PackStep(list, start, bitmask, i);
      Assoc(fields, [NackField(pid, bitmask)], Pack(list[i..]));
      fields := fields + [NackField(pid, bitmask)];
    }
  }

  /** Following in a suffix of the list. */
  lemma {:induction false} FollowTail(pid: uint16, list: seq<uint16>, start: nat, i: nat, blp: uint16)
    requires start + i <= |list|
    ensures var (m, n) := Follow(pid, list[start..], i, blp); Follow(pid, list, start + i, blp) == (m, start + n)
    ensures var (_, n) := Follow(pid, list[start..], i, blp); list[start..][n..] == list[start + n..]
    decreases |list| - i
  {
    var tail := list[start..];
    if start + i < |list| && 1 <= Gap(pid, list[start + i]) <= 16 {
      assert tail[i] == list[start + i];
      FollowTail(pid, list, start, i + 1, Added(blp, Gap(pid, list[start + i]) - 1));
    }
  }

  lemma {:induction false} PackStep(list: seq<uint16>, start: nat, m: uint16, n: nat)
    requires start < |list| && Follow(list[start], list, start + 1, 0) == (m, n)
    ensures n <= |list| && Pack(list[start..]) == [NackField(list[start], m)] + Pack(list[n..])
  {
    var pid, tail := list[start], list[start..];
    FollowTail(pid, list, start, 1, 0);
    var (mask, k) := Follow(pid, tail, 1, 0);
    assert tail[0] == pid && mask == m && start + k == n && tail[k..] == list[n..];
    assert Pack(tail) == [NackField(pid, mask)] + Pack(tail[k..]);
  }

  // ---- Exactness -----------------------------------------------------------------------------------

  lemma GapInjective(p: uint16, x: uint16, y: uint16)
    ensures Gap(p, x) == Gap(p, y) ==> x == y
    ensures Gap(p, x) == 0 <==> x == p
  {}

  /** The mask names what it named before and the numbers passed over. */
  lemma {:induction false} FollowCovers(pid: uint16, list: seq<uint16>, i: nat, blp: uint16, x: uint16)
    requires i <= |list|
    ensures var (m, n) := Follow(pid, list, i, blp);
            Covers(NackField(pid, m), x) <==> Covers(NackField(pid, blp), x) || x in list[i..n]
    decreases |list| - i
  {
    var (m, n) := Follow(pid, list, i, blp);
    if i < |list| && 1 <= Gap(pid, list[i]) <= 16 {
      var y := list[i];
      var next := Added(blp, Gap(pid, y) - 1);
      FollowCovers(pid, list, i + 1, next, x);
      assert list[i..n] == [y] + list[i + 1..n];
      if 1 <= Gap(pid, x) {
        SetBitBits(blp, Gap(pid, y) - 1, Gap(pid, x) - 1);
      }
      GapInjective(pid, x, y);
    } else {
      assert list[i..n] == [];
    }
  }

  /** Whatever the list, the fields name exactly the numbers in it. */
  lemma {:induction false} PackExact(list: seq<uint16>, x: uint16)
    ensures NamedBy(x, Pack(list)) <==> x in list
    decreases list
  {
    if list != [] {
      var (m, n) := Follow(list[0], list, 1, 0);
      var head := NackField(list[0], m);
      FollowCovers(list[0], list, 1, 0, x);
      assert Covers(NackField(list[0], 0), x) <==> x == list[0] by {
        if 1 <= Gap(list[0], x) { NoBits(Gap(list[0], x) - 1); }
      }
      PackExact(list[n..], x);
      assert list == [list[0]] + list[1..n] + list[n..];
      assert Pack(list) == [head] + Pack(list[n..]);
      assert NamedBy(x, Pack(list)) <==> Covers(head, x) || NamedBy(x, Pack(list[n..])) by {
        assert head in Pack(list);
        assert forall f :: f in Pack(list) <==> f == head || f in Pack(list[n..]);
      }
    }
  }

  // ---- Order ---------------------------------------------------------------------------------------

  /** Each number is newer than all before it: increasing in circular order, over less than half
      the circle. */
  ghost predicate Increasing(list: seq<uint16>) {
    forall i, j :: 0 <= i < j < |list| ==> IsNewer(list[j], list[i])
  }

  /** The numbers a field names, in circular order from the packet id. */
  function Expand(f: NackField): seq<uint16> {
    [f.pid] + Ahead(f, 0)
  }

  function Ahead(f: NackField, k: nat): seq<uint16>
    requires k <= 16
    decreases 16 - k
  {
    if k == 16 then []
    else (if Bit(f.blp, k) then [Plus(f.pid, k + 1)] else []) + Ahead(f, k + 1)
  }

  function ExpandAll(fields: seq<NackField>): seq<uint16> {
    if fields == [] then [] else Expand(fields[0]) + ExpandAll(fields[1..])
  }

  /** Bits that are clear name nothing. */
  lemma {:induction false} SkipClear(f: NackField, k: nat, s: nat)
    requires k <= s <= 16 && forall j :: k <= j < s ==> !Bit(f.blp, j)
    ensures Ahead(f, k) == Ahead(f, s)
    decreases s - k
  {
    if k < s { SkipClear(f, k + 1, s); }
  }

  /** The bits set in the end: those set before, and one for each number passed over. */
  lemma {:induction false} FollowBits(pid: uint16, list: seq<uint16>, i: nat, blp: uint16, k: nat)
    requires i <= |list| && k < 16
    ensures var (m, n) := Follow(pid, list, i, blp);
            Bit(m, k) <==> Bit(blp, k) || exists t :: i <= t < n && Gap(pid, list[t]) == k + 1
    decreases |list| - i
  {
    if i < |list| && 1 <= Gap(pid, list[i]) <= 16 {
      SetBitBits(blp, Gap(pid, list[i]) - 1, k);
      FollowBits(pid, list, i + 1, Added(blp, Gap(pid, list[i]) - 1), k);
    }
  }

  lemma GapsAdd(a: uint16, b: uint16, c: uint16)
    requires IsNewer(b, a) && IsNewer(c, b)
    ensures Gap(a, c) == Gap(a, b) + Gap(b, c)
  {}

  lemma GapBack(a: uint16, b: uint16)
    ensures Plus(a, Gap(a, b)) == b
  {}

  /** Above the bit added, the mask stays clear. */
  lemma {:induction false} AddedClear(blp: uint16, s: nat, low: nat)
    requires low <= s < 16 && forall j :: low <= j < 16 ==> !Bit(blp, j)
    ensures forall j :: s + 1 <= j < 16 ==> !Bit(Added(blp, s), j)
  {
    hide Bit, SetBit;
    forall j | s + 1 <= j < 16 ensures !Bit(Added(blp, s), j) { SetBitBits(blp, s, j); }
  }

  /** The mask in the end says nothing between `low` and the first of the numbers, and says that one. */
  lemma {:induction false} FollowedBits(pid: uint16, list: seq<uint16>, i: nat, blp: uint16, low: nat)
    requires i < |list| && low < Gap(pid, list[i]) <= 16
    requires forall j :: low <= j < 16 ==> !Bit(blp, j)
    requires forall t, u :: i <= t < u < |list| ==> Gap(pid, list[t]) < Gap(pid, list[u])
    ensures var (m, n) := Follow(pid, list, i, blp); var s := Gap(pid, list[i]) - 1;
            Bit(m, s) && i < n && forall j :: low <= j < s ==> !Bit(m, j)
  {
    hide Bit, Added, Gap;
    var (m, n) := Follow(pid, list, i, blp);
    var s := Gap(pid, list[i]) - 1;
    forall j | low <= j < s ensures !Bit(m, j) { FollowBits(pid, list, i, blp, j); }
    FollowBits(pid, list, i, blp, s);
  }

  lemma {:induction false} NothingAhead(f: NackField, low: nat)
    requires low <= 16 && forall j :: low <= j < 16 ==> !Bit(f.blp, j)
    ensures Ahead(f, low) == []
  {
    SkipClear(f, low, 16);
  }

  lemma SpelledOut(f: NackField, low: nat, s: nat, list: seq<uint16>, i: nat, n: nat)
    requires low <= s < 16 && Bit(f.blp, s) && forall j :: low <= j < s ==> !Bit(f.blp, j)
    requires i < n <= |list| && Plus(f.pid, s + 1) == list[i] && Ahead(f, s + 1) == list[i + 1..n]
    ensures Ahead(f, low) == list[i..n]
  {
    hide Bit, Plus;
    SkipClear(f, low, s);
    assert Ahead(f, s) == [list[i]] + Ahead(f, s + 1);
    assert list[i..n] == [list[i]] + list[i + 1..n];
  }

  /** In an increasing list the mask, from bit `low` on, spells out the numbers passed over. */
  lemma {:induction false} FollowInOrder(pid: uint16, list: seq<uint16>, i: nat, blp: uint16, low: nat)
    requires i <= |list| && low <= 16
    requires forall j :: low <= j < 16 ==> !Bit(blp, j)
    requires forall t :: i <= t < |list| ==> low < Gap(pid, list[t])
    requires forall t, u :: i <= t < u < |list| ==> Gap(pid, list[t]) < Gap(pid, list[u])
    ensures var (m, n) := Follow(pid, list, i, blp); Ahead(NackField(pid, m), low) == list[i..n]
    decreases |list| - i
  {
    hide Bit, Gap, Plus, Added, Ahead;
    var (m, n) := Follow(pid, list, i, blp);
    var f := NackField(pid, m);
    if i < |list| && Gap(pid, list[i]) <= 16 {
      var s := Gap(pid, list[i]) - 1;
      AddedClear(blp, s, low);
      FollowInOrder(pid, list, i + 1, Added(blp, s), s + 1);
      FollowedBits(pid, list, i, blp, low);
      GapBack(pid, list[i]);
      SpelledOut(f, low, s, list, i, n);
    } else {
      assert (m, n) == (blp, i);
      NothingAhead(f, low);
    }
  }

  lemma GapsGrow(list: seq<uint16>)
    requires Increasing(list) && list != []
    ensures forall t :: 1 <= t < |list| ==> 0 < Gap(list[0], list[t])
    ensures forall t, u :: 1 <= t < u < |list| ==> Gap(list[0], list[t]) < Gap(list[0], list[u])
  {
    forall t, u | 1 <= t < u < |list| ensures Gap(list[0], list[t]) < Gap(list[0], list[u]) {
      GapsAdd(list[0], list[t], list[u]);
    }
  }

  lemma NoBitsAtAll()
    ensures forall j :: 0 <= j < 16 ==> !Bit(0, j)
  {
    hide Bit;
    forall j | 0 <= j < 16 ensures !Bit(0, j) { NoBits(j); }
  }

  lemma {:induction false} FirstExpands(list: seq<uint16>)
    requires Increasing(list) && list != []
    ensures var (m, n) := Follow(list[0], list, 1, 0); Expand(NackField(list[0], m)) == list[..n]
  {
    hide Follow, Bit, Gap, Increasing, Ahead;
    var pid := list[0];
    var (m, n) := Follow(pid, list, 1, 0);
    NoBitsAtAll();
    GapsGrow(list);
    FollowInOrder(pid, list, 1, 0, 0);
    assert list[..n] == [pid] + list[1..n];
  }

  lemma {:induction false} ExpandStep(f: NackField, rest: seq<NackField>)
    ensures ExpandAll([f] + rest) == Expand(f) + ExpandAll(rest)
  {
    assert ([f] + rest)[1..] == rest;
  }

  /** For an increasing list the expansion of the fields is the list itself, in order. */
  lemma {:induction false} PackExpands(list: seq<uint16>)
    requires Increasing(list)
    ensures ExpandAll(Pack(list)) == list
    decreases list
  {
    if list != [] {
      var (m, n) := Follow(list[0], list, 1, 0);
      FirstExpands(list);
      PackExpands(list[n..]);
      ExpandStep(NackField(list[0], m), Pack(list[n..]));
      SplitAt(list, n);
    }
  }

  // ---- Minimality ----------------------------------------------------------------------------------

  /** No field can name both: they are more than 16 apart on either side. */
  ghost predicate Apart(a: uint16, b: uint16) {
    Gap(a, b) > 16 && Gap(b, a) > 16
  }

  ghost predicate AllApart(xs: seq<uint16>) {
    forall i, j :: 0 <= i < j < |xs| ==> Apart(xs[i], xs[j])
  }

  lemma NoFieldForBoth(f: NackField, a: uint16, b: uint16)
    requires Apart(a, b)
    ensures !(Covers(f, a) && Covers(f, b))
  {
    GapInjective(f.pid, a, f.pid);
    GapInjective(f.pid, b, f.pid);
  }

  /** Numbers apart from one another need a field each. */
  lemma {:induction false} FieldEach(xs: seq<uint16>, fields: seq<NackField>)
    requires AllApart(xs) && forall x :: x in xs ==> NamedBy(x, fields)
    ensures |xs| <= |fields|
    decreases xs
  {
    if xs != [] {
      var x, rest := xs[0], xs[1..];
      assert NamedBy(x, fields);
      var f :| f in fields && Covers(f, x);
      var i :| 0 <= i < |fields| && fields[i] == f;
      var others := fields[..i] + fields[i + 1..];
      forall y | y in rest ensures NamedBy(y, others) {
        assert y in xs && NamedBy(y, fields);
        var g :| g in fields && Covers(g, y);
        var j :| 0 <= j < |rest| && rest[j] == y;
        assert Apart(xs[0], xs[j + 1]);
        NoFieldForBoth(f, x, y);
        assert g != f && g in others;
      }
      FieldEach(rest, others);
    }
  }

  function Heads(fields: seq<NackField>): (s: seq<uint16>)
    ensures |s| == |fields|
  {
    if fields == [] then [] else [fields[0].pid] + Heads(fields[1..])
  }

  /** The packet ids of an increasing list are in it, and apart. */
  lemma {:induction false} HeadsApart(list: seq<uint16>)
    requires Increasing(list)
    ensures AllApart(Heads(Pack(list))) && forall x :: x in Heads(Pack(list)) ==> x in list
    decreases list
  {
    if list != [] {
      var pid := list[0];
      var (m, n) := Follow(pid, list, 1, 0);
      HeadsApart(list[n..]);
      FollowStops(pid, list, 1, 0);
      var rest := Heads(Pack(list[n..]));
      assert Heads(Pack(list)) == [pid] + rest;
      forall x | x in rest ensures Apart(pid, x) {
        var t :| n <= t < |list| && list[t] == x;
        BehindStop(pid, list, n, t);
      }
    }
  }

  /** Where the following stops, and behind it, the numbers are more than 16 ahead. */
  lemma BehindStop(pid: uint16, list: seq<uint16>, n: nat, t: nat)
    requires Increasing(list) && 1 <= n <= t < |list| && pid == list[0] && !(1 <= Gap(pid, list[n]) <= 16)
    ensures Apart(pid, list[t])
  {
    assert IsNewer(list[n], list[0]) && IsNewer(list[t], list[0]);
    if n < t {
      assert IsNewer(list[t], list[n]);
      GapsAdd(pid, list[n], list[t]);
    }
    GapInjective(pid, list[n], pid);
    GapsOpposite(pid, list[t]);
  }

  lemma GapsOpposite(a: uint16, b: uint16)
    ensures a != b ==> Gap(a, b) + Gap(b, a) == 0x1_0000
  {}

  lemma {:induction false} FollowStops(pid: uint16, list: seq<uint16>, i: nat, blp: uint16)
    requires i <= |list|
    ensures var (_, n) := Follow(pid, list, i, blp); n < |list| ==> !(1 <= Gap(pid, list[n]) <= 16)
    decreases |list| - i
  {
    if i < |list| && 1 <= Gap(pid, list[i]) <= 16 {
      FollowStops(pid, list, i + 1, Added(blp, Gap(pid, list[i]) - 1));
    }
  }

  /** For an increasing list no family of fields that names all its numbers is smaller. */
  lemma {:induction false} PackMinimal(list: seq<uint16>, fields: seq<NackField>)
    requires Increasing(list) && forall x :: x in list ==> NamedBy(x, fields)
    ensures |Pack(list)| <= |fields|
  {
    HeadsApart(list);
    FieldEach(Heads(Pack(list)), fields);
  }

  /** A number given again and again takes a field each time. */
  lemma {:induction false} PackRepeated(list: seq<uint16>)
    requires forall i :: 0 <= i < |list| ==> list[i] == list[0]
    ensures |Pack(list)| == |list|
  {
    if list != [] {
      assert Follow(list[0], list, 1, 0) == (0, 1);
      PackRepeated(list[1..]);
    }
  }

  /** Out of order, packing can take more fields than it needs. */
  lemma OrderMatters()
    ensures |Pack([5, 3])| == 2 && Covers(NackField(3, 2), 5) && Covers(NackField(3, 2), 3)
  {
    assert Follow(5, [5, 3], 1, 0) == (0, 1);
    assert [5, 3][1..] == [3];
    assert Follow(3, [3], 1, 0) == (0, 1) && [3][1..] == [];
    assert Bit(2 / 2, 0);
  }
}
