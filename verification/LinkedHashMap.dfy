/** The LRU map with locks (`linked_hash_map.h`): a recency list, oldest first, and an index from keys
    to its nodes. */
module LinkedHashMap {
  import opened Sequences
  import opened Wrappers

  /** An entry of the list. */
  datatype Entry<K, V> = Entry(key: K, value: V, locked: bool)

  // ---- Eviction, on sequences ------------------------------------------------------------------------

  /** What is kept of a full map: three quarters, rounded up, or all of a very small one. */
  function RemainSize(max: nat): (r: nat)
    requires max >= 1
    ensures 1 <= r <= max
  {
    if max < 4 then max else max - max / 4
  }

  /** The size left of a map that was over-full: the least that is three quarters of the maximum or more;
      all of a maximum below four. */
  predicate LeftOf(max: nat, size: nat) {
    if max < 4 then size == max else 4 * size >= 3 * max && 4 * (size - 1) < 3 * max
  }

  /** The first round: of the `left` entries in front, a locked one goes to the back and another one is
      evicted, until few enough remain. */
  function Rotate<K, V>(xs: seq<Entry<K, V>>, left: nat, remain: nat): (r: seq<Entry<K, V>>)
    requires left <= |xs|
    ensures |r| <= |xs| && (|xs| >= remain ==> |r| >= remain)
    decreases left
  {
    if |xs| <= remain || left == 0 then xs
    else if xs[0].locked then Rotate(xs[1..] + [xs[0]], left - 1, remain)
    else Rotate(xs[1..], left - 1, remain)
  }

  /** `_cut_head`: the newest entry is not part of the first round, and the second round evicts from
      the front. */
  function Cut<K, V>(xs: seq<Entry<K, V>>, max: nat): seq<Entry<K, V>>
    requires max >= 1
  {
    if |xs| <= max then xs
    else
      var remain := RemainSize(max);
      var ys := Rotate(xs, |xs| - 1, remain);
      ys[|ys| - remain..]
  }

  function Locked<K, V>(xs: seq<Entry<K, V>>): (r: seq<Entry<K, V>>)
    ensures |r| <= |xs|
  {
    if xs == [] then [] else (if xs[0].locked then [xs[0]] else []) + Locked(xs[1..])
  }

  lemma {:induction false} LockedSnoc<K, V>(xs: seq<Entry<K, V>>, x: Entry<K, V>)
    ensures Locked(xs + [x]) == Locked(xs) + if x.locked then [x] else []
  {
    var tail := if x.locked then [x] else [];
    if xs == [] {
      assert [x][1..] == [];
    } else {
      LockedSnoc(xs[1..], x);
      assert (xs + [x])[1..] == xs[1..] + [x];
      Assoc(if xs[0].locked then [xs[0]] else [], Locked(xs[1..]), tail);
    }
  }

  lemma {:induction false} LockedMembers<K, V>(xs: seq<Entry<K, V>>, e: Entry<K, V>)
    ensures e in Locked(xs) <==> e in xs && e.locked
  {
    if xs == [] {
    } else {
      LockedMembers(xs[1..], e);
      assert xs == [xs[0]] + xs[1..];
    }
  }

  lemma {:induction false} LockedSplit<K, V>(xs: seq<Entry<K, V>>, j: nat)
    requires j <= |xs|
    ensures |Locked(xs)| <= |Locked(xs[..j])| + |xs| - j
    decreases |xs| - j
  {
    if j == |xs| {
      assert xs[..j] == xs;
    } else {
      LockedSplit(xs, j + 1);
      LockedSnoc(xs[..j], xs[j]);
      assert xs[..j + 1] == xs[..j] + [xs[j]];
    }
  }

  /** The first round has passed the `j` oldest entries: the ones behind come first, then the newest one,
      then the locked ones of those passed. */
  function Passed<K, V>(front: seq<Entry<K, V>>, j: nat, b: Entry<K, V>): (r: seq<Entry<K, V>>)
    requires j <= |front|
    ensures |r| == |front| - j + 1 + |Locked(front[..j])|
  {
    front[j..] + [b] + Locked(front[..j])
  }

  lemma PassedStep<K, V>(front: seq<Entry<K, V>>, j: nat, b: Entry<K, V>)
    requires j < |front|
    ensures var xs := Passed(front, j, b);
      && xs[0] == front[j]
      && Passed(front, j + 1, b) == if front[j].locked then xs[1..] + [xs[0]] else xs[1..]
  {
    var xs, rest, locked := Passed(front, j, b), front[j + 1..] + [b], Locked(front[..j]);
    LockedSnoc(front[..j], front[j]);
    assert front[..j + 1] == front[..j] + [front[j]];
    hide Locked;
    assert xs == [front[j]] + (rest + locked);
    assert xs[1..] == rest + locked;
    if front[j].locked {
      assert rest + (locked + [front[j]]) == (rest + locked) + [front[j]];
    } else {
      assert locked + [] == locked;
    }
  }

  lemma PassedMembers<K, V>(front: seq<Entry<K, V>>, j: nat, b: Entry<K, V>, e: Entry<K, V>)
    requires j <= |front|
    ensures e in Passed(front, j, b) <==> e in front[j..] || e == b || (e in front[..j] && e.locked)
  {
    LockedMembers(front[..j], e);
    hide Locked;
  }

  /** The first round evicts enough, or passes every entry but the newest. */
  lemma {:induction false} RotateForm<K, V>(front: seq<Entry<K, V>>, i: nat, b: Entry<K, V>, remain: nat)
    returns (j: nat)
    requires i <= |front| && |Passed(front, i, b)| >= remain
    ensures i <= j <= |front| && |Passed(front, j, b)| >= remain
    ensures Rotate(Passed(front, i, b), |front| - i, remain) == Passed(front, j, b)
    ensures j == |front| || |Passed(front, j, b)| == remain
    decreases |front| - i
  {
    j := i;
    if |Passed(front, i, b)| > remain && i < |front| {
      PassedStep(front, i, b);
      hide Passed;
      j := RotateForm(front, i + 1, b, remain);
    }
  }

  // ---- What eviction keeps ---------------------------------------------------------------------------

  ghost predicate DistinctKeys<K, V>(xs: seq<Entry<K, V>>) {
    forall i, j :: 0 <= i < j < |xs| ==> xs[i].key != xs[j].key
  }

  lemma {:induction false} CutIs<K, V>(xs: seq<Entry<K, V>>, max: nat, ys: seq<Entry<K, V>>)
    requires 1 <= max < |xs| && ys == Rotate(xs, |xs| - 1, RemainSize(max))
    ensures |ys| >= RemainSize(max) && Cut(xs, max) == ys[|ys| - RemainSize(max)..]
  {
    hide Rotate, RemainSize;
  }

  /** Nothing passed, and all of the front passed. */
  lemma {:induction false} PassedEnds<K, V>(front: seq<Entry<K, V>>, b: Entry<K, V>)
    ensures Passed(front, 0, b) == front + [b] && Passed(front, |front|, b) == [b] + Locked(front)
  {
    assert front[..|front|] == front && front[|front|..] == [] && front[0..] == front && front[..0] == [];
    var all, none := Locked(front), Locked(front[..0]);
    assert none == [];
    hide Locked;
    assert front + [b] + [] == front + [b];
    assert [] + [b] + all == [b] + all;
  }

  /** An over-full map is cut to exactly the remain size, in one of two ways. Either some prefix of the
      front has been passed, or everything has and only locked entries remain. */
  lemma CutForm<K, V>(front: seq<Entry<K, V>>, b: Entry<K, V>, max: nat) returns (j: nat)
    requires 1 <= max <= |front|
    ensures |Cut(front + [b], max)| == RemainSize(max)
    ensures j <= |front|
    ensures
      || Cut(front + [b], max) == Passed(front, j, b)
      || (j == |front| && RemainSize(max) <= |Locked(front)|
          && Cut(front + [b], max) == Locked(front)[|Locked(front)| - RemainSize(max)..])
  {
    hide Locked, Cut, Rotate, Passed, RemainSize;
    var xs, remain := front + [b], RemainSize(max);
    PassedEnds(front, b);
    j := RotateForm(front, 0, b, remain);
    var ys := Passed(front, j, b);
    CutIs(xs, max, ys);
    if |ys| == remain {
      assert ys[0..] == ys;
    } else {
      assert ys == [b] + Locked(front);
      assert ys[|ys| - remain..] == Locked(front)[|Locked(front)| - remain..];
    }
  }

  /** Which entries stay: every locked one while some unlocked entry of the front does. */
  lemma CutMembers<K, V>(front: seq<Entry<K, V>>, b: Entry<K, V>, max: nat) returns (j: nat, exact: bool)
    requires 1 <= max <= |front|
    ensures j <= |front|
    ensures exact ==> RemainSize(max) == |front| - j + 1 + |Locked(front[..j])|
    ensures exact ==> forall e :: e in Cut(front + [b], max) <==>
      e in front[j..] || e == b || (e in front[..j] && e.locked)
    ensures !exact ==> RemainSize(max) <= |Locked(front)|
    ensures !exact ==> forall e :: e in Cut(front + [b], max) ==> e in front && e.locked
  {
    j := CutForm(front, b, max);
    exact := Cut(front + [b], max) == Passed(front, j, b);
    if exact {
      forall e
        ensures e in Passed(front, j, b) <==> e in front[j..] || e == b || (e in front[..j] && e.locked)
      {
        PassedMembers(front, j, b, e);
      }
    } else {
      hide Cut, RemainSize;
      forall e | e in Cut(front + [b], max)
        ensures e in front && e.locked
      {
        assert e in Locked(front);
        LockedMembers(front, e);
      }
    }
  }

  /** Eviction invents nothing. */
  lemma SurvivorsWereThere<K, V>(front: seq<Entry<K, V>>, b: Entry<K, V>, max: nat, e: Entry<K, V>)
    requires max >= 1 && e in Cut(front + [b], max)
    ensures e in front + [b]
  {
    if |front| >= max {
      var j, exact := CutMembers(front, b, max);
      hide Cut, Locked;
    }
  }

  /** Unlocked entries go oldest first: one that stays protects all younger unlocked ones but the newest. */
  lemma OldestUnlockedFirst<K, V>(front: seq<Entry<K, V>>, b: Entry<K, V>, max: nat, i: nat, k: nat)
    requires max >= 1 && DistinctKeys(front + [b])
    requires i < k < |front| && !front[i].locked && !front[k].locked
    requires front[i] in Cut(front + [b], max)
    ensures front[k] in Cut(front + [b], max)
  {
    if |front| >= max {
      var j, exact := CutMembers(front, b, max);
      hide Cut, Locked;
      assert (front + [b])[i] == front[i] && (front + [b])[|front|] == b;
      var n :| j <= n < |front| && front[n] == front[i];
      assert (front + [b])[n] == front[n];
      assert front[j..][k - j] == front[k];
    } else {
      assert (front + [b])[k] == front[k];
    }
  }

  /** A locked entry other than the newest is evicted only when nothing unlocked is left. */
  lemma LockedLast<K, V>(front: seq<Entry<K, V>>, b: Entry<K, V>, max: nat, i: nat, e: Entry<K, V>)
    requires max >= 1
    requires i < |front| && front[i].locked && front[i] !in Cut(front + [b], max)
    requires e in Cut(front + [b], max)
    ensures e.locked
  {
    assert (front + [b])[i] == front[i];
    var j, exact := CutMembers(front, b, max);
    hide Cut, Locked;
    assert front == front[..j] + front[j..];
  }

  /** The newest entry stays exactly when the locked ones among the others leave room for it. */
  lemma {:induction false} NewestStays<K, V>(front: seq<Entry<K, V>>, b: Entry<K, V>, max: nat)
    requires 1 <= max <= |front| && DistinctKeys(front + [b])
    ensures b in Cut(front + [b], max) <==> |Locked(front)| < RemainSize(max)
  {
    var j, exact := CutMembers(front, b, max);
    LockedSplit(front, j);
    hide Cut, Locked;
    forall i | 0 <= i < |front| ensures front[i] != b {
      assert (front + [b])[i] == front[i] && (front + [b])[|front|] == b;
    }
  }

  /** Setting a new key can fail to store it: with every older entry locked, it is the one evicted. */
  lemma JustSetAndGone()
    ensures
      var full := [Entry(1, 'a', true), Entry(2, 'b', true)];
      Cut(full + [Entry(3, 'c', false)], 2) == full
  {
    var front, b := [Entry(1, 'a', true), Entry(2, 'b', true)], Entry(3, 'c', false);
    assert Locked(front) == front by {
      assert front[1..] == [front[1]];
      assert [front[1]][1..] == [];
    }
    NewestStays(front, b, 2);
    var j := CutForm(front, b, 2);
    PassedMembers(front, j, b, b);
    assert Cut(front + [b], 2) == front[0..];
  }

  // ---- The map as a sequence of entries --------------------------------------------------------------

  /** Where a key is, or the length where it is not. */
  function Position<K(==), V>(xs: seq<Entry<K, V>>, key: K): (p: nat)
    ensures p <= |xs|
    ensures p < |xs| ==> xs[p].key == key
    ensures forall i :: 0 <= i < p ==> xs[i].key != key
  {
    if xs == [] || xs[0].key == key then 0 else 1 + Position(xs[1..], key)
  }

  function Without<K(==), V>(xs: seq<Entry<K, V>>, key: K): seq<Entry<K, V>> {
    var p := Position(xs, key);
    if p < |xs| then xs[..p] + xs[p + 1..] else xs
  }

  /** The entry of a key becomes the newest. */
  function Touch<K(==), V>(xs: seq<Entry<K, V>>, key: K): seq<Entry<K, V>> {
    var p := Position(xs, key);
    if p < |xs| then Without(xs, key) + [xs[p]] else xs
  }

  function Put<K(==), V>(xs: seq<Entry<K, V>>, key: K, value: V, max: nat): seq<Entry<K, V>>
    requires max >= 1
  {
    var p := Position(xs, key);
    if p < |xs| then Without(xs, key) + [xs[p].(value := value)]
    else Cut(xs + [Entry(key, value, false)], max)
  }

  function Marked<K(==), V>(xs: seq<Entry<K, V>>, key: K, locked: bool): seq<Entry<K, V>> {
    var p := Position(xs, key);
    if p < |xs| then xs[p := xs[p].(locked := locked)] else xs
  }

  function Look<K(==), V>(xs: seq<Entry<K, V>>, key: K): Option<V> {
    var p := Position(xs, key);
    if p < |xs| then Some(xs[p].value) else None
  }

  lemma {:induction false} PositionAt<K, V>(xs: seq<Entry<K, V>>, key: K, p: nat)
    requires p < |xs| && xs[p].key == key && forall i :: 0 <= i < p ==> xs[i].key != key
    ensures Position(xs, key) == p
  {
  }

  lemma {:induction false} PositionIs<K, V>(xs: seq<Entry<K, V>>, i: nat)
    requires i < |xs| && DistinctKeys(xs)
    ensures Position(xs, xs[i].key) == i
  {
  }

  // ---- Recency ---------------------------------------------------------------------------------------

  function Has<K(==), V>(xs: seq<Entry<K, V>>, key: K): bool {
    Position(xs, key) < |xs|
  }

  /** The entries after a run of accesses. */
  function Touches<K(==), V>(xs: seq<Entry<K, V>>, run: seq<K>): seq<Entry<K, V>> {
    if run == [] then xs else Touch(Touches(xs, run[..|run| - 1]), run[|run| - 1])
  }

  /** When a run accessed a key last; -1 for never. */
  function LastUse<K(==)>(run: seq<K>, key: K): (i: int)
    ensures -1 <= i < |run|
    ensures i >= 0 ==> run[i] == key
    ensures forall j :: i < j < |run| ==> run[j] != key
  {
    if run == [] then -1
    else if run[|run| - 1] == key then |run| - 1
    else LastUse(run[..|run| - 1], key)
  }

  lemma MovedAt<T>(s: seq<T>, p: nat, k: nat)
    requires p < |s| && k < |s|
    ensures (s[..p] + s[p + 1..] + [s[p]])[k] == s[if k < p then k else if k < |s| - 1 then k + 1 else p]
  {
  }

  lemma {:induction false} TouchAt<K, V>(xs: seq<Entry<K, V>>, key: K)
    ensures var p, ys := Position(xs, key), Touch(xs, key);
      && |ys| == |xs| && (p == |xs| ==> ys == xs)
      && (p < |xs| ==>
            forall k :: 0 <= k < |xs| ==> ys[k] == xs[if k < p then k else if k < |xs| - 1 then k + 1 else p])
  {
    var p, ys := Position(xs, key), Touch(xs, key);
    if p < |xs| {
      forall k | 0 <= k < |xs|
        ensures ys[k] == xs[if k < p then k else if k < |xs| - 1 then k + 1 else p]
      {
        MovedAt(xs, p, k);
      }
    }
  }

  lemma {:induction false} TouchMoves<K, V>(xs: seq<Entry<K, V>>, key: K, other: K)
    requires DistinctKeys(xs) && Has(xs, other)
    ensures DistinctKeys(Touch(xs, key)) && |Touch(xs, key)| == |xs| && Has(Touch(xs, key), other)
    ensures Position(Touch(xs, key), other) ==
      var p, q := Position(xs, key), Position(xs, other);
      if key == other then |xs| - 1 else if p < q then q - 1 else q
  {
    hide Touch, Position;
    var p, q, ys := Position(xs, key), Position(xs, other), Touch(xs, key);
    TouchAt(xs, key);
    if p < |xs| {
      var r := if key == other then |xs| - 1 else if p < q then q - 1 else q;
      assert ys[r] == xs[q];
      assert DistinctKeys(ys);
      PositionIs(ys, r);
    }
  }

  lemma RunStep<K, V>(xs: seq<Entry<K, V>>, run: seq<K>, k: K)
    ensures run == [] ==> Touches(xs, run) == xs && LastUse(run, k) == -1
    ensures run != [] ==>
      var front, key := run[..|run| - 1], run[|run| - 1];
      && Touches(xs, run) == Touch(Touches(xs, front), key)
      && LastUse(run, k) == if key == k then |run| - 1 else LastUse(front, k)
  {
  }

  /** The list is in order of last access, entries never accessed first and in their old order. */
  lemma {:induction false} RecencyOrder<K, V>(xs: seq<Entry<K, V>>, run: seq<K>, a: K, b: K)
    requires DistinctKeys(xs) && a != b && Has(xs, a) && Has(xs, b)
    ensures DistinctKeys(Touches(xs, run)) && |Touches(xs, run)| == |xs|
    ensures Has(Touches(xs, run), a) && Has(Touches(xs, run), b)
    ensures Position(Touches(xs, run), a) < Position(Touches(xs, run), b) <==>
      LastUse(run, a) < LastUse(run, b) || (LastUse(run, a) == LastUse(run, b) && Position(xs, a) < Position(xs, b))
    decreases |run|
  {
    hide Touches, Touch, Position, LastUse, DistinctKeys;
    RunStep(xs, run, a);
    RunStep(xs, run, b);
    if run != [] {
      var front, key := run[..|run| - 1], run[|run| - 1];
      RecencyOrder(xs, front, a, b);
      TouchMoves(Touches(xs, front), key, a);
      TouchMoves(Touches(xs, front), key, b);
    }
  }

  // ---- The map as the program keeps it ---------------------------------------------------------------

  class CacheNode<K(==), V> {
    const key: K
    var value: V
    var locked: bool

    constructor (key: K, value: V)
      ensures this.key == key && this.value == value && !this.locked
    {
      this.key, this.value, this.locked := key, value, false;
    }

    function View(): Entry<K, V>
      reads this
    {
      Entry(key, value, locked)
    }
  }

  function Index<T(==)>(s: seq<T>, x: T): (p: nat)
    requires x in s
    ensures p < |s| && s[p] == x && x !in s[..p]
  {
    if s[0] == x then 0 else 1 + Index(s[1..], x)
  }

  ghost function Entries<K, V>(nodes: seq<CacheNode<K, V>>): (xs: seq<Entry<K, V>>)
    reads nodes
    ensures |xs| == |nodes|
    ensures forall i :: 0 <= i < |nodes| ==> xs[i] == nodes[i].View()
  {
    seq(|nodes|, i requires 0 <= i < |nodes| reads nodes => nodes[i].View())
  }

  lemma EntriesCut<K, V>(nodes: seq<CacheNode<K, V>>, i: nat)
    requires i < |nodes|
    ensures Entries(nodes[..i] + nodes[i + 1..]) == Entries(nodes)[..i] + Entries(nodes)[i + 1..]
  {
  }

  lemma EntriesAt<K, V>(nodes: seq<CacheNode<K, V>>, i: nat)
    requires i < |nodes|
    ensures Entries(nodes)[i] == nodes[i].View()
  {
  }

  lemma EntriesSnoc<K, V>(nodes: seq<CacheNode<K, V>>, node: CacheNode<K, V>)
    ensures Entries(nodes + [node]) == Entries(nodes) + [node.View()]
  {
  }

  /** List and index hold the same nodes, under distinct keys. */
  ghost predicate Agree<K, V>(list: seq<CacheNode<K, V>>, index: map<K, CacheNode<K, V>>) {
    && (forall i, j :: 0 <= i < j < |list| ==> list[i] != list[j])
    && (forall i :: 0 <= i < |list| ==> list[i].key in index && index[list[i].key] == list[i])
    && (forall k :: k in index ==> index[k] in list && index[k].key == k)
  }

  lemma AgreeEntries<K, V>(list: seq<CacheNode<K, V>>, index: map<K, CacheNode<K, V>>)
    requires Agree(list, index)
    ensures DistinctKeys(Entries(list))
    ensures forall k :: k in index <==> Position(Entries(list), k) < |list|
    ensures forall k :: k in index ==> index[k] == list[Position(Entries(list), k)]
  {
    var xs := Entries(list);
    forall k
      ensures k in index <==> Position(xs, k) < |list|
      ensures k in index ==> index[k] == list[Position(xs, k)]
    {
      var p := Position(xs, k);
      assert p < |list| ==> xs[p] == list[p].View();
      if k in index {
        var i :| 0 <= i < |list| && list[i] == index[k];
        assert xs[i] == list[i].View();
        PositionIs(xs, i);
      }
    }
  }

  lemma {:induction false} AgreeAt<K, V>(list: seq<CacheNode<K, V>>, index: map<K, CacheNode<K, V>>, key: K)
    requires Agree(list, index)
    ensures DistinctKeys(Entries(list))
    ensures var p := Position(Entries(list), key);
      && (key in index <==> p < |list|)
      && (key in index ==>
            index[key] in list && Index(list, index[key]) == p && list[p] == index[key] && list[p].key == key)
  {
    AgreeEntries(list, index);
  }

  lemma AgreeErased<K, V>(list: seq<CacheNode<K, V>>, index: map<K, CacheNode<K, V>>, i: nat)
    requires Agree(list, index) && i < |list|
    ensures Agree(list[..i] + list[i + 1..], index - {list[i].key})
  {
    var after := list[..i] + list[i + 1..];
    assert forall k :: 0 <= k < |after| ==> after[k] == list[if k < i then k else k + 1];
    forall k | k in index && k != list[i].key
      ensures index[k] in after
    {
      var n :| 0 <= n < |list| && list[n] == index[k];
      assert after[if n < i then n else n - 1] == list[n];
    }
  }

  /** Taking the node of a key out of both takes its entry out. */
  lemma AgreeWithout<K, V>(list: seq<CacheNode<K, V>>, index: map<K, CacheNode<K, V>>, key: K)
    requires Agree(list, index) && key in index
    ensures index[key] in list
    ensures var i := Index(list, index[key]);
      var after := list[..i] + list[i + 1..];
      && |after| == |list| - 1
      && Agree(after, index - {key}) && Entries(after) == Without(Entries(list), key)
  {
    AgreeAt(list, index, key);
    var i := Index(list, index[key]);
    AgreeErased(list, index, i);
    EntriesCut(list, i);
  }

  /** A key that is not there has no entry. */
  lemma AgreeAbsent<K, V>(list: seq<CacheNode<K, V>>, index: map<K, CacheNode<K, V>>, key: K)
    requires Agree(list, index) && key !in index
    ensures Without(Entries(list), key) == Entries(list) && Look(Entries(list), key) == None
  {
    AgreeAt(list, index, key);
  }

  lemma AgreeAppended<K, V>(list: seq<CacheNode<K, V>>, index: map<K, CacheNode<K, V>>, node: CacheNode<K, V>)
    requires Agree(list, index) && node.key !in index
    ensures Agree(list + [node], index[node.key := node])
  {
    var after := list + [node];
    assert forall k :: 0 <= k < |list| ==> after[k] == list[k];
    assert after[|list|] == node;
    forall k | k in index
      ensures index[k] in after
    {
      var n :| 0 <= n < |list| && list[n] == index[k];
      assert after[n] == list[n];
    }
  }

  lemma AgreeSpliced<K, V>(list: seq<CacheNode<K, V>>, index: map<K, CacheNode<K, V>>, key: K)
    requires Agree(list, index) && key in index
    ensures index[key] in list
    ensures var i := Index(list, index[key]);
      var after := list[..i] + list[i + 1..] + [list[i]];
      && |after| == |list| && after[|list| - 1] == index[key] && index[key := index[key]] == index
      && Agree(after, index) && Entries(after) == Touch(Entries(list), key)
  {
    hide Agree, Entries, Index, Without, Position;
    AgreeAt(list, index, key);
    AgreeWithout(list, index, key);
    var i := Index(list, index[key]);
    var rest := list[..i] + list[i + 1..];
    AgreeAppended(rest, index - {key}, list[i]);
    EntriesSnoc(rest, list[i]);
    EntriesAt(list, i);
    assert (index - {key})[key := list[i]] == index;
  }

  /** A node written to changes its own entry only. */
  lemma OneChanged<K, V>(xs: seq<Entry<K, V>>, ys: seq<Entry<K, V>>, i: nat)
    requires i < |xs| == |ys| && forall k :: 0 <= k < |xs| && k != i ==> ys[k] == xs[k]
    ensures ys == xs[i := ys[i]]
  {
  }

  lemma TouchFirst<K, V>(xs: seq<Entry<K, V>>)
    requires xs != []
    ensures Without(xs, xs[0].key) == xs[1..] && Touch(xs, xs[0].key) == xs[1..] + [xs[0]]
  {
    assert xs[..0] + xs[1..] == xs[1..];
  }

  /** Replacing a value and then touching its key is `Put`. */
  lemma {:induction false} PutPresent<K, V>(xs: seq<Entry<K, V>>, key: K, value: V, max: nat)
    requires max >= 1 && Position(xs, key) < |xs|
    ensures var p := Position(xs, key);
      Touch(xs[p := xs[p].(value := value)], key) == Put(xs, key, value, max)
  {
    hide Position, Cut;
    var p := Position(xs, key);
    var e := xs[p].(value := value);
    var ys := xs[p := e];
    PositionAt(ys, key, p);
    assert ys[..p] == xs[..p] && ys[p + 1..] == xs[p + 1..];
    assert ys[p] == e;
  }

  lemma RotateStep<K, V>(xs: seq<Entry<K, V>>, left: nat, remain: nat)
    requires 0 < left < |xs| && remain < |xs|
    ensures var next := if xs[0].locked then Touch(xs, xs[0].key) else Without(xs, xs[0].key);
      && left - 1 < |next| && next[left - 1] == xs[left]
      && Rotate(xs, left, remain) == Rotate(next, left - 1, remain)
  {
    TouchFirst(xs);
    hide Touch, Without;
    assert xs[1..][left - 1] == xs[left];
  }

  lemma KeyInIndex<K, V>(list: seq<CacheNode<K, V>>, index: map<K, CacheNode<K, V>>, i: nat)
    requires Agree(list, index) && i < |list|
    ensures list[i].key in index && Entries(list)[i] == list[i].View()
  {
  }

  lemma {:induction false} RotateDone<K, V>(list: seq<CacheNode<K, V>>, index: map<K, CacheNode<K, V>>, left: nat,
                                            remain: nat, back: K)
    requires Agree(list, index) && left < |list| && Entries(list)[left].key == back
    requires |list| <= remain || back == list[0].key
    ensures Rotate(Entries(list), left, remain) == Entries(list)
  {
    AgreeEntries(list, index);
    assert Entries(list)[0] == list[0].View();
  }

  lemma CutFits<K, V>(xs: seq<Entry<K, V>>, max: nat)
    requires max >= 1 && |xs| <= max
    ensures Cut(xs, max) == xs
  {
  }

  lemma {:induction false} PutAbsent<K, V>(xs: seq<Entry<K, V>>, key: K, value: V, max: nat)
    requires max >= 1 && Position(xs, key) == |xs|
    ensures Put(xs, key, value, max) == Cut(xs + [Entry(key, value, false)], max)
  {
  }

  class Map<K(==), V> {
    var maxSize: nat
    var accessOrderByGet: bool
    var list: seq<CacheNode<K, V>>
    var index: map<K, CacheNode<K, V>>

    ghost predicate Coherent()
      reads this
    {
      maxSize >= 1 && Agree(list, index)
    }

    ghost predicate Valid()
      reads this
    {
      Coherent() && |list| <= maxSize
    }

    constructor (maxSize: int, accessOrderByGet: bool)
      ensures Valid() && Entries(list) == []
      ensures this.maxSize == (if maxSize < 1 then 1 else maxSize)
      ensures this.accessOrderByGet == accessOrderByGet
    {
      this.maxSize := if maxSize < 1 then 1 else maxSize;
      this.accessOrderByGet := accessOrderByGet;
      list, index := [], map[];
    }

    method Erase(key: K) returns (size: int)
      requires Coherent()
      modifies this`list, this`index
      ensures Coherent()
      ensures Entries(list) == old(Without(Entries(list), key))
      ensures size == if old(key in index) then |list| else -1
      ensures index == old(index) - {key}
      ensures old(key in index) ==> |list| == old(|list|) - 1
    {
      hide Agree, Entries, Index, Without;
      if key in index {
        AgreeWithout(list, index, key);
        var i := Index(list, index[key]);
        list := list[..i] + list[i + 1..];
        index := index - {key};
        size := |list|;
      } else {
        AgreeAbsent(list, index, key);
        size := -1;
      }
    }

    /** `_adjust`: the node of the key is spliced to the end. */
    method Adjust(key: K, changeSeq: bool)
      requires Coherent() && key in index
      modifies this`list, this`index
      ensures Coherent() && |list| == old(|list|)
      ensures Entries(list) == old(if changeSeq then Touch(Entries(list), key) else Entries(list))
      ensures index == old(index)
      ensures changeSeq ==> |list| > 0 && list[|list| - 1] == index[key]
    {
      hide Agree, Entries, Index, Position, Touch;
      if changeSeq {
        AgreeSpliced(list, index, key);
        var i := Index(list, index[key]);
        list := list[..i] + list[i + 1..] + [list[i]];
        index := index[key := list[|list| - 1]];
      }
    }

    /** `_cut_head`'s first loop: locked entries are moved behind the newest one. */
    method PassLocked(remain: nat)
      requires Coherent() && 1 <= remain < |list|
      modifies this`list, this`index
      ensures Coherent() && remain <= |list|
      ensures Entries(list) == old(Rotate(Entries(list), |list| - 1, remain))
    {
      hide Agree, Entries, Rotate, Touch, Without;
      var backKey := list[|list| - 1].key;
      ghost var left: nat := |list| - 1;
      ghost var ys := Rotate(Entries(list), left, remain);
      KeyInIndex(list, index, left);
      while |list| > remain && backKey != list[0].key
        invariant Coherent() && left < |list| && remain <= |list|
        invariant Entries(list)[left].key == backKey
        invariant Rotate(Entries(list), left, remain) == ys
        decreases left
      {
        KeyInIndex(list, index, 0);
        RotateStep(Entries(list), left, remain);
        if list[0].locked {
          Adjust(list[0].key, true);
        } else {
          var _ := Erase(list[0].key);
        }
        left := left - 1;
      }
      RotateDone(list, index, left, remain, backKey);
    }

    /** `_cut_head`'s second loop. */
    method EvictFront(remain: nat)
      requires Coherent() && 1 <= remain <= |list|
      modifies this`list, this`index
      ensures Coherent() && |list| == remain
      ensures Entries(list) == old(Entries(list)[|list| - remain..])
    {
      hide Agree, Entries, Touch, Without;
      ghost var ys := Entries(list);
      while |list| > remain
        invariant Coherent() && remain <= |list| <= |ys|
        invariant Entries(list) == ys[|ys| - |list|..]
      {
        ghost var n := |list|;
        TouchFirst(Entries(list));
        KeyInIndex(list, index, 0);
        var _ := Erase(list[0].key);
        assert ys[|ys| - n..][1..] == ys[|ys| - |list|..];
      }
    }

    /** `_cut_head`. */
    method CutHead() returns (size: nat)
      requires Coherent()
      modifies this`list, this`index
      ensures Valid() && size == |list|
      ensures Entries(list) == old(Cut(Entries(list), maxSize))
      ensures if old(|list|) > maxSize then LeftOf(maxSize, |list|) else |list| == old(|list|)
    {
      hide Agree, Entries, Cut, Rotate;
      ghost var xs := Entries(list);
      if |list| > maxSize {
        var remain := maxSize - maxSize / 4;
        if maxSize < 4 {
          remain := maxSize;
        }
        assert remain == RemainSize(maxSize);
        PassLocked(remain);
        CutIs(xs, maxSize, Entries(list));
        EvictFront(remain);
      } else {
        CutFits(xs, maxSize);
      }
      size := |list|;
    }

    method ResetMaxSize(maxSize: int) returns (size: nat)
      requires Coherent()
      modifies this`maxSize, this`list, this`index
      ensures Valid() && this.maxSize == size == (if maxSize < 1 then 1 else maxSize)
      ensures Entries(list) == Cut(old(Entries(list)), size)
    {
      this.maxSize := if maxSize < 1 then 1 else maxSize;
      var _ := CutHead();
      size := this.maxSize;
    }

    method Store(key: K, value: V)
      requires Valid() && key in index
      modifies list
      ensures Valid()
      ensures var p := Position(old(Entries(list)), key);
        p < |list| && Entries(list) == old(Entries(list))[p := old(Entries(list))[p].(value := value)]
    {
      hide Agree, Index, Position;
      AgreeAt(list, index, key);
      ghost var i := Index(list, index[key]);
      ghost var xs := Entries(list);
      assert forall k :: 0 <= k < |list| && k != i ==> list[k] != index[key];
      index[key].value := value;
      OneChanged(xs, Entries(list), i);
    }

    method Set(key: K, value: V)
      requires Valid()
      modifies this`list, this`index, list
      ensures Valid()
      ensures Entries(list) == old(Put(Entries(list), key, value, maxSize))
      ensures old(key !in index && |list| < maxSize) ==>
                Entries(list) == old(Entries(list)) + [Entry(key, value, false)]
      ensures old(key !in index && |list| == maxSize) ==> LeftOf(maxSize, |list|)
      ensures old(key in index) ==>
                && index == old(index) && |list| == old(|list|) > 0
                && list[|list| - 1] == index[key] && index[key].value == value
    {
      hide Agree, Entries, Index, Position, Touch, Put, Cut;
      if key in index {
        AgreeAt(list, index, key);
        PutPresent(Entries(list), key, value, maxSize);
        Store(key, value);
        Adjust(key, true);
      } else {
        AgreeAt(list, index, key);
        PutAbsent(Entries(list), key, value, maxSize);
        var node := new CacheNode(key, value);
        AgreeAppended(list, index, node);
        EntriesSnoc(list, node);
        list := list + [node];
        index := index[key := list[|list| - 1]];
        if |list| <= maxSize { CutFits(Entries(list), maxSize); }
        var _ := CutHead();
      }
    }

    method Get(key: K) returns (value: Option<V>)
      requires Valid()
      modifies this`list, this`index
      ensures Valid() && value == old(Look(Entries(list), key))
      ensures value == old(if key in index then Some(index[key].value) else None)
      ensures Entries(list) == old(if accessOrderByGet then Touch(Entries(list), key) else Entries(list))
      ensures index == old(index)
    {
      hide Agree, Index, Position, Entries;
      AgreeAt(list, index, key);
      if key in index {
        assert Entries(list)[Position(Entries(list), key)] == index[key].View();
        Adjust(key, accessOrderByGet);
        value := Some(index[key].value);
      } else {
        value := None;
      }
    }

    method Reference(key: K) returns (value: Option<V>)
      requires Valid()
      ensures value == Look(Entries(list), key)
      ensures value == if key in index then Some(index[key].value) else None
    {
      AgreeAt(list, index, key);
      if key in index {
        assert Entries(list)[Position(Entries(list), key)] == index[key].View();
        value := Some(index[key].value);
      } else {
        value := None;
      }
    }

    method Contains(key: K) returns (found: bool)
      requires Valid()
      ensures found <==> Look(Entries(list), key).Some?
    {
      AgreeAt(list, index, key);
      found := key in index;
    }

    method Lock(key: K) returns (found: bool)
      requires Valid()
      modifies list
      ensures Valid() && found == old(Look(Entries(list), key).Some?)
      ensures Entries(list) == old(Marked(Entries(list), key, true))
      ensures found ==> index[key].locked
    {
      hide Agree, Index, Position;
      AgreeAt(list, index, key);
      found := key in index;
      if found {
        ghost var i := Index(list, index[key]);
        ghost var xs := Entries(list);
        assert forall k :: 0 <= k < |list| && k != i ==> list[k] != index[key];
        index[key].locked := true;
        OneChanged(xs, Entries(list), i);
      }
    }

    method Unlock(key: K) returns (found: bool)
      requires Valid()
      modifies list
      ensures Valid() && found == old(Look(Entries(list), key).Some?)
      ensures Entries(list) == old(Marked(Entries(list), key, false))
      ensures found ==> !index[key].locked
    {
      hide Agree, Index, Position;
      AgreeAt(list, index, key);
      found := key in index;
      if found {
        ghost var i := Index(list, index[key]);
        ghost var xs := Entries(list);
        assert forall k :: 0 <= k < |list| && k != i ==> list[k] != index[key];
        index[key].locked := false;
        OneChanged(xs, Entries(list), i);
      }
    }
  }
}
