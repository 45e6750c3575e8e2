/** `server/util/hashtable.c`: a power-of-two table of red-black trees, refining a finite map from
    keys to nodes. */
module HashTable {
  import opened Guards
  import opened Numbers
  import opened RbTreeModel
  import opened RbTree
  import opened Sequences

  // ---- Keys in order -----------------------------------------------------------------------

  type Keys = map<Node, nat>

  ghost predicate Sorted(s: seq<Node>, ks: Keys) {
    && (forall i :: 0 <= i < |s| ==> s[i] in ks)
    && (forall i, j :: 0 <= i < j < |s| ==> ks[s[i]] < ks[s[j]])
  }

  ghost predicate AllBelow(s: seq<Node>, key: nat, ks: Keys) {
    forall i :: 0 <= i < |s| ==> s[i] in ks && ks[s[i]] < key
  }

  ghost predicate AllAbove(s: seq<Node>, key: nat, ks: Keys) {
    forall i :: 0 <= i < |s| ==> s[i] in ks && key < ks[s[i]]
  }

  lemma SortedAround(a: seq<Node>, x: Node, b: seq<Node>, ks: Keys)
    requires x in ks
    ensures Sorted(a + [x] + b, ks) <==> Sorted(a + b, ks) && AllBelow(a, ks[x], ks) && AllAbove(b, ks[x], ks)
  {
    var s, u := a + [x] + b, a + b;
    if Sorted(s, ks) {
      forall i | 0 <= i < |u| ensures u[i] in ks { assert u[i] == s[if i < |a| then i else i + 1]; }
      forall i, j | 0 <= i < j < |u| ensures ks[u[i]] < ks[u[j]] {
        var i', j' := if i < |a| then i else i + 1, if j < |a| then j else j + 1;
        assert u[i] == s[i'] && u[j] == s[j'];
      }
      forall i | 0 <= i < |a| ensures a[i] in ks && ks[a[i]] < ks[x] { assert s[i] == a[i] && s[|a|] == x; }
      forall i | 0 <= i < |b| ensures b[i] in ks && ks[x] < ks[b[i]] { assert s[|a| + 1 + i] == b[i] && s[|a|] == x; }
    }
    if Sorted(u, ks) && AllBelow(a, ks[x], ks) && AllAbove(b, ks[x], ks) {
      forall i, j | 0 <= i < j < |s| ensures ks[s[i]] < ks[s[j]] {
        if i != |a| && j != |a| {
          var i', j' := if i < |a| then i else i - 1, if j < |a| then j else j - 1;
          assert s[i] == u[i'] && s[j] == u[j'];
        }
      }
    }
  }

  /** The keys of the nodes of a tree. */
  ghost predicate KeysOf(nodes: set<Node>, ks: Keys)
    reads nodes`key
  {
    forall n :: n in nodes ==> n in ks && n.key == ks[n]
  }

  // ---- Search (hashtable.c:20-55) ----------------------------------------------------------

  /** Where the search for an absent key falls off the tree. */
  ghost predicate FellOff(t: Tree, c: Ctx, key: nat, ks: Keys) {
    t == Plug(c, Leaf) && AllBelow(Before(c), key, ks) && AllAbove(After(c), key, ks)
  }

  /** `my_rb_search`. The C code passes on the address of the link at which the search fell off the
      tree; `steps` counts the nodes visited. */
  method Search(root: Root, key: nat, ghost ks: Keys)
    returns (ret: int, parent: Node?, link: Link, ghost c: Ctx, ghost steps: nat)
    requires root.Valid() && Sorted(InOrder(root.tree), ks) && KeysOf(Nodes(root.tree), ks)
    ensures ret == 0 || ret == 1
    ensures ret == 0 ==> parent != null && parent in Nodes(root.tree) && parent.key == key
    ensures ret == 1 ==> FellOff(root.tree, c, key, ks) && parent == Parent(c, null) && link == HoleLink(c)
    ensures var n := |InOrder(root.tree)|; Pow2(steps) <= (n + 1) * (n + 1)
  {
    parent, link := null, AtRoot;
    ghost var cur;
    c, cur, steps := Top, root.tree, 0;
    View(root, c, cur);
    var p := root.node;
    ret := 1;
    while p != null
      invariant root.Valid() && KeysOf(Nodes(root.tree), ks)
      invariant root.tree == Plug(c, cur) && p == RootOf(cur)
      invariant parent == Parent(c, null) && link == HoleLink(c)
      invariant AllBelow(Before(c), key, ks) && AllAbove(After(c), key, ks)
      invariant steps + Levels(cur) <= Levels(root.tree)
      decreases cur
    {
      View(root, c, cur);
      SearchStep(root.tree, c, cur, key, ks);
      parent := p;
      steps := steps + 1;
      if key > p.key {
        link, p := AtRight(parent), parent.right;
        c, cur := InR(c, cur.left, parent, cur.color), cur.right;
      } else if key < p.key {
        link, p := AtLeft(parent), parent.left;
        c, cur := InL(c, parent, cur.color, cur.right), cur.left;
      } else {
        ret := 0;
        break;
      }
    }
    SearchCost(root.tree, steps);
  }

  lemma {:induction false} SearchCost(t: Tree, steps: nat)
    requires IsRedBlack(t) && steps <= Levels(t)
    ensures Pow2(steps) <= (|InOrder(t)| + 1) * (|InOrder(t)| + 1)
  {
    LevelBound(t);
    Pow2Mono(steps, Levels(t));
  }

  lemma {:induction false} PlugAround(c: Ctx, cur: Tree)
    requires cur.T?
    ensures cur.node in Nodes(Plug(c, cur))
    ensures InOrder(Plug(c, cur)) == (Before(c) + InOrder(cur.left)) + [cur.node] + (InOrder(cur.right) + After(c))
  {
    NodesPlug(c, cur);
    InOrderPlug(c, cur);
    Around(Before(c), InOrder(cur.left), [cur.node], InOrder(cur.right), After(c));
  }

  lemma SortedMember(a: seq<Node>, x: Node, b: seq<Node>, ks: Keys)
    requires Sorted(a + [x] + b, ks)
    ensures x in ks
  {
    assert (a + [x] + b)[|a|] == x;
  }

  lemma BelowMore(a: seq<Node>, x: Node, key: nat, ks: Keys)
    requires x in ks && ks[x] < key && AllBelow(a, ks[x], ks)
    ensures AllBelow(a + [x], key, ks)
  {}

  lemma AboveMore(x: Node, b: seq<Node>, key: nat, ks: Keys)
    requires x in ks && key < ks[x] && AllAbove(b, ks[x], ks)
    ensures AllAbove([x] + b, key, ks)
  {}

  lemma {:induction false} SearchStep(t: Tree, c: Ctx, cur: Tree, key: nat, ks: Keys)
    requires t == Plug(c, cur) && cur.T? && Sorted(InOrder(t), ks)
    requires AllBelow(Before(c), key, ks) && AllAbove(After(c), key, ks)
    ensures cur.node in Nodes(t) && cur.node in ks
    ensures ks[cur.node] < key ==> AllBelow(Before(InR(c, cur.left, cur.node, cur.color)), key, ks)
    ensures key < ks[cur.node] ==> AllAbove(After(InL(c, cur.node, cur.color, cur.right)), key, ks)
  {
    hide InOrder, Nodes, Plug, Sorted, AllBelow, AllAbove;
    var a, b, x := Before(c) + InOrder(cur.left), InOrder(cur.right) + After(c), cur.node;
    PlugAround(c, cur);
    SortedMember(a, x, b, ks);
    SortedAround(a, x, b, ks);
    if ks[x] < key { BelowMore(a, x, key, ks); }
    if key < ks[x] {
      AboveMore(x, b, key, ks);
      Assoc([x], InOrder(cur.right), After(c));
    }
  }

  lemma {:induction false} Absent(t: Tree, c: Ctx, key: nat, ks: Keys)
    requires FellOff(t, c, key, ks)
    ensures forall n :: n in Nodes(t) ==> n in ks && ks[n] != key
  {
    InOrderPlug(c, Leaf);
    NodesInOrder(t);
  }

  // ---- Buckets against the map -------------------------------------------------------------

  /** The bucket of each key. */
  type Slots = nat -> nat

  /** The buckets, read in order, hold exactly the nodes of the map, each in the bucket of its key,
      in key order. */
  ghost predicate Agrees(buckets: seq<seq<Node>>, ks: Keys, contents: map<nat, Node>, slot: Slots) {
    && (forall i :: 0 <= i < |buckets| ==> Sorted(buckets[i], ks))
    && (forall i, n :: 0 <= i < |buckets| && n in buckets[i] ==> Filed(n, i, ks, contents, slot))
    && (forall n :: n in ks ==> Found(n, buckets, ks, slot) && ks[n] in contents)
    && (forall k :: k in contents ==> contents[k] in ks && ks[contents[k]] == k)
  }

  ghost predicate Filed(n: Node, i: nat, ks: Keys, contents: map<nat, Node>, slot: Slots) {
    n in ks && slot(ks[n]) == i && ks[n] in contents && contents[ks[n]] == n
  }

  ghost predicate Found(n: Node, buckets: seq<seq<Node>>, ks: Keys, slot: Slots) {
    n in ks && slot(ks[n]) < |buckets| && n in buckets[slot(ks[n])]
  }

  lemma SomethingHeld(buckets: seq<seq<Node>>, ks: Keys, contents: map<nat, Node>, slot: Slots)
    requires Agrees(buckets, ks, contents, slot)
    ensures (ks == map[] && contents == map[]) || exists i :: 0 <= i < |buckets| && buckets[i] != []
  {
    if k :| k in contents {
      assert contents[k] in ks;
    }
    if n :| n in ks {
      assert Found(n, buckets, ks, slot);
      assert buckets[slot(ks[n])] != [];
    }
  }

  lemma SortedOther(s: seq<Node>, n: Node, key: nat, ks: Keys)
    requires Sorted(s, ks) && n !in ks
    ensures Sorted(s, ks[n := key])
  {}

  /** Adding a node with a new key to its bucket and to the map. */
  lemma AgreesExtended(buckets: seq<seq<Node>>, ks: Keys, contents: map<nat, Node>, slot: Slots, n: Node, key: nat,
                       a: seq<Node>, b: seq<Node>)
    requires Agrees(buckets, ks, contents, slot) && n !in ks && key !in contents && slot(key) < |buckets|
    requires buckets[slot(key)] == a + b && AllBelow(a, key, ks) && AllAbove(b, key, ks)
    ensures Agrees(buckets[slot(key) := a + [n] + b], ks[n := key], contents[key := n], slot)
  {
    var i := slot(key);
    var buckets', ks', contents' := buckets[i := a + [n] + b], ks[n := key], contents[key := n];
    forall j | 0 <= j < |buckets'| ensures Sorted(buckets'[j], ks') {
      SortedOther(buckets[j], n, key, ks);
      if j == i { SortedAround(a, n, b, ks'); }
    }
    forall j, m | 0 <= j < |buckets'| && m in buckets'[j] ensures Filed(m, j, ks', contents', slot) {
      if m in buckets[j] {
        assert Filed(m, j, ks, contents, slot);
      }
    }
    forall m | m in ks' ensures Found(m, buckets', ks', slot) && ks'[m] in contents' {
      if m != n {
        assert Found(m, buckets, ks, slot);
      }
    }
  }

  lemma {:induction false} SortedWithout(s: seq<Node>, x: Node, ks: Keys)
    requires Sorted(s, ks)
    ensures Sorted(Without(s, x), ks) && (forall n :: n in Without(s, x) <==> n in s && n != x)
  {
    if s != [] {
      assert forall n :: n in s <==> n == s[0] || n in s[1..];
      if s[0] != x {
        SortedWithout(s[1..], x, ks);
        var w := Without(s[1..], x);
        forall i | 0 <= i < |w| ensures ks[s[0]] < ks[w[i]] {
          assert w[i] in s[1..];
        }
      }
    }
  }

  lemma SortedRestricted(s: seq<Node>, x: Node, ks: Keys)
    requires Sorted(s, ks) && x !in s
    ensures Sorted(s, ks - {x})
  {}

  /** Taking a node out of its bucket and its key out of the map. */
  lemma {:induction false} AgreesShrunk(buckets: seq<seq<Node>>, ks: Keys, contents: map<nat, Node>, slot: Slots,
                                        n: Node)
    requires Agrees(buckets, ks, contents, slot) && n in ks && slot(ks[n]) < |buckets|
    ensures Agrees(buckets[slot(ks[n]) := Without(buckets[slot(ks[n])], n)], ks - {n}, contents - {ks[n]}, slot)
  {
    var i := slot(ks[n]);
    SortedWithout(buckets[i], n, ks);
    var buckets', ks', contents' := buckets[i := Without(buckets[i], n)], ks - {n}, contents - {ks[n]};
    forall j, m | 0 <= j < |buckets'| && m in buckets'[j] ensures m != n && Filed(m, j, ks', contents', slot) {
      assert m in buckets[j];
      assert Filed(m, j, ks, contents, slot);
    }
    forall j | 0 <= j < |buckets'| ensures Sorted(buckets'[j], ks') {
      assert n !in buckets'[j];
      SortedRestricted(buckets'[j], n, ks);
    }
    forall m | m in ks' ensures Found(m, buckets', ks', slot) && ks'[m] in contents' {
      assert Found(m, buckets, ks, slot);
    }
  }

  /** Two buckets share no node. */
  lemma BucketsApart(buckets: seq<seq<Node>>, ks: Keys, contents: map<nat, Node>, slot: Slots, i: nat, j: nat, n: Node)
    requires Agrees(buckets, ks, contents, slot) && i < |buckets| && j < |buckets| && i != j
    ensures !(n in buckets[i] && n in buckets[j])
  {
    if n in buckets[i] {
      assert Filed(n, i, ks, contents, slot);
      if n in buckets[j] { NotFiledTwice(n, i, j, ks, contents, slot); }
    }
  }

  lemma NotFiledTwice(n: Node, i: nat, j: nat, ks: Keys, contents: map<nat, Node>, slot: Slots)
    requires i != j && Filed(n, i, ks, contents, slot)
    ensures !Filed(n, j, ks, contents, slot)
  {}

  // ---- The trees in memory -----------------------------------------------------------------

  ghost predicate Separate(entries: seq<Root>, trees: seq<Tree>) {
    && |entries| == |trees|
    && (forall i, j :: 0 <= i < j < |entries| ==> entries[i] != entries[j])
    && (forall i, j :: 0 <= i < |trees| && 0 <= j < |trees| && i != j ==> Nodes(trees[i]) !! Nodes(trees[j]))
  }

  /** Root `i` holds a red-black tree whose nodes are the `i`-th bucket. */
  ghost predicate Planted(root: Root, t: Tree, bucket: seq<Node>, S: set<Node>)
    reads root, S
  {
    Nodes(t) <= S && root.tree == t && root.Valid() && InOrder(t) == bucket
  }

  ghost predicate Standing(entries: seq<Root>, trees: seq<Tree>, buckets: seq<seq<Node>>, S: set<Node>)
    reads entries, S
  {
    && Separate(entries, trees) && |buckets| == |trees|
    && (forall i :: 0 <= i < |entries| ==> Planted(entries[i], trees[i], buckets[i], S))
  }

  /** Each root holds its red-black tree; no two share a node. */
  ghost predicate Forest(entries: seq<Root>, trees: seq<Tree>, buckets: seq<seq<Node>>, S: set<Node>)
    reads entries, S
  {
    forall b :: Look(b) ==> Standing(entries, trees, buckets, S)
  }

  /** Planting a new node in one tree of the forest. */
  method ForestInsert(entries: seq<Root>, i: nat, value: Node, parent: Node?, link: Link,
                      ghost trees: seq<Tree>, ghost S: set<Node>, ghost S': set<Node>,
                      ghost buckets: seq<seq<Node>>, ghost c: Ctx)
    returns (ghost trees': seq<Tree>)
    requires Forest(entries, trees, buckets, S) && i < |entries| && i < |trees| && i < |buckets|
    requires value !in S && S' == S + {value}
    requires trees[i] == Plug(c, Leaf) && parent == Parent(c, null) && link == HoleLink(c)
    modifies {entries[i]}`node, {entries[i]}`tree
    modifies S`left, S`right, S`parent, S`color, value`left, value`right, value`parent, value`color
    ensures |trees'| == |trees|
    ensures Forest(entries, trees', buckets[i := Before(c) + [value] + After(c)], S')
  {
    assert Look(true);
    assert Planted(entries[i], trees[i], buckets[i], S);
    InsertAt(entries[i], value, parent, link, c);
    trees' := trees[i := entries[i].tree];
    assert forall j :: 0 <= j < |entries| && j != i ==> Planted(entries[j], trees[j], buckets[j], S);
  }

  /** Erasing a node from one tree of the forest. */
  method ForestErase(entries: seq<Root>, i: nat, node: Node, ghost trees: seq<Tree>, ghost S: set<Node>,
                     ghost S': set<Node>,
                     ghost buckets: seq<seq<Node>>)
    returns (ghost trees': seq<Tree>)
    requires Forest(entries, trees, buckets, S) && i < |entries| && i < |trees| && i < |buckets|
    requires node in buckets[i] && S' == S - {node}
    modifies {entries[i]}`node, {entries[i]}`tree, S`left, S`right, S`parent, S`color
    ensures |trees'| == |trees|
    ensures Forest(entries, trees', buckets[i := Without(buckets[i], node)], S')
  {
    assert Look(true);
    assert Planted(entries[i], trees[i], buckets[i], S);
    NodesInOrder(trees[i]);
    Erase(node, entries[i]);
    trees' := trees[i := entries[i].tree];
    assert forall j :: 0 <= j < |entries| && j != i ==> Planted(entries[j], trees[j], buckets[j], S);
    forall j | 0 <= j < |entries| && j != i ensures node !in Nodes(trees[j]) {
      assert Nodes(trees[i]) !! Nodes(trees[j]);
    }
  }

  /** The fields of the keys in memory. */
  ghost predicate KeyFields(nodes: set<Node>, ks: Keys)
    reads nodes`key
  {
    forall b :: Look(b) ==> KeysOf(nodes, ks)
  }

  lemma KeyFieldsPlus(ks: Keys, n: Node)
    requires KeyFields(ks.Keys, ks)
    ensures var ks' := ks[n := n.key]; KeyFields(ks'.Keys, ks')
  {
    assert Look(true);
  }

  lemma KeyFieldsMinus(ks: Keys, n: Node)
    requires KeyFields(ks.Keys, ks)
    ensures var ks' := ks - {n}; KeyFields(ks'.Keys, ks')
  {
    assert Look(true);
  }

  // ---- The table (hashtable.c:60-134) ------------------------------------------------------

  /** The buckets read in order, the keys of their nodes, and the finite map the table stands for. */
  datatype Model = Model(buckets: seq<seq<Node>>, ks: Keys, contents: map<nat, Node>) {
    ghost predicate Consistent(slot: Slots) {
      forall b :: Look(b) ==> Agrees(buckets, ks, contents, slot)
    }
  }

  class HashTable {
    const power: nat
    const width: nat
    const hashentry: seq<Root>
    ghost const slot: Slots
    ghost var model: Model
    ghost var trees: seq<Tree>

    /** The number of buckets is a power of two, and keys are masked into it. */
    ghost predicate Masked() {
      width == |hashentry| == Pow2(power) && forall k :: slot(k) == And(k, width - 1)
    }

    ghost predicate Shape()
      reads this
    {
      width == |hashentry| == |model.buckets| == |trees|
    }

    ghost predicate Valid()
      reads this, hashentry, model.ks.Keys
    {
      Shape() && forall b :: Peek(b) ==> Sound()
    }

    ghost predicate Sound()
      reads this, hashentry, model.ks.Keys
    {
      && Masked() && model.Consistent(slot)
      && KeyFields(model.ks.Keys, model.ks) && Forest(hashentry, trees, model.buckets, model.ks.Keys)
    }

    constructor (power: nat, entries: seq<Root>)
      requires |entries| == Pow2(power)
      requires forall i, j :: 0 <= i < j < |entries| ==> entries[i] != entries[j]
      requires forall i :: 0 <= i < |entries| ==> entries[i].Valid() && entries[i].tree == Leaf
      ensures Valid() && hashentry == entries && model.ks == map[] && model.contents == map[]
    {
      this.power := power;
      width := |entries|;
      hashentry := entries;
      trees := seq(|entries|, i => Leaf);
      model := Model(seq(|entries|, i => []), map[], map[]);
      slot := k => And(k, |entries| - 1);
    }

    /** `hash_create`: no table for a power above 31. */
    static method Create(power: nat) returns (h: HashTable?)
      ensures h == null <==> power > 31
      ensures h != null ==> h.Valid() && h.width == Pow2(power) && fresh(h) && fresh(h.hashentry)
      ensures h != null ==> h.model.ks == map[] && h.model.contents == map[]
    {
      if power > 31 {
        return null;
      }
      var entries: seq<Root> := [];
      while |entries| < Pow2(power)
        invariant |entries| <= Pow2(power)
        invariant forall i, j :: 0 <= i < j < |entries| ==> entries[i] != entries[j]
        invariant forall i :: 0 <= i < |entries| ==> fresh(entries[i]) && entries[i].Valid() && entries[i].tree == Leaf
        decreases Pow2(power) - |entries|
      {
        var r := new Root();
        entries := entries + [r];
      }
      h := new HashTable(power, entries);
    }

    lemma Uncover()
      requires Valid()
      ensures Sound()
    {
      assert Peek(true);
    }

    /** The bucket index computed by masking. */
    method Index(key: nat) returns (i: nat)
      requires Valid()
      ensures i == slot(key) < width
    {
      assert Peek(true);
      MaskIsRemainder(key, power);
      i := And(key, width - 1);
    }

    /** The search in the bucket of a key, in terms of the map. */
    method Lookup(key: nat) returns (i: nat, ret: int, parent: Node?, link: Link, ghost c: Ctx)
      requires Valid()
      ensures i == slot(key) < width && (ret == 0 || ret == 1)
      ensures ret == 0 ==> key in model.contents && parent == model.contents[key]
      ensures ret == 1 ==> key !in model.contents
      ensures ret == 1 ==> InOrder(trees[i]) == model.buckets[i]
      ensures ret == 1 ==> FellOff(trees[i], c, key, model.ks) && parent == Parent(c, null) && link == HoleLink(c)
    {
      assert Look(true) && Peek(true);
      i := Index(key);
      assert Planted(hashentry[i], trees[i], model.buckets[i], model.ks.Keys);
      ghost var steps;
      ret, parent, link, c, steps := Search(hashentry[i], key, model.ks);
      if ret == 0 {
        NodesInOrder(trees[i]);
        assert Filed(parent, i, model.ks, model.contents, slot);
      } else {
        Absent(trees[i], c, key, model.ks);
        NodesInOrder(trees[i]);
        assert key in model.contents ==> Found(model.contents[key], model.buckets, model.ks, slot);
      }
    }

    /** `hash_get` is the map's lookup. */
    method Get(key: nat) returns (node: Node?)
      requires Valid()
      ensures node == if key in model.contents then model.contents[key] else null
    {
      var i, ret, parent, link;
      ghost var c;
      i, ret, parent, link, c := Lookup(key);
      if ret != 0 {
        return null;
      }
      return parent;
    }

    /** Assigning the key of a node that is not in the table, or is there under that key. */
    method SetKey(value: Node, key: nat)
      requires Valid() && (value in model.ks ==> model.ks[value] == key)
      modifies value`key
      ensures Valid() && value.key == key
    {
      assert Look(true) && Peek(true);
      value.key := key;
    }

    /** The table now stands for another model. */
    ghost method Commit(trees': seq<Tree>, model': Model)
      requires Masked() && |hashentry| == |model'.buckets| == width && model'.Consistent(slot)
      requires KeyFields(model'.ks.Keys, model'.ks) && |trees'| == width
      requires Forest(hashentry, trees', model'.buckets, model'.ks.Keys)
      modifies this`model, this`trees
      ensures Valid() && model == model'
    {
      hide Masked, Standing, KeysOf, Agrees, Look;
      trees, model := trees', model';
    }

    /** The key of a stored node is in the map. */
    lemma StoredKey(n: Node)
      requires Valid()
      ensures n in model.ks ==> model.ks[n] in model.contents
    {
      assert Look(true) && Peek(true);
    }

    /** The part of `hash_insert` behind a search that fell off the tree of bucket `i`. */
    method InsertAbsent(i: nat, value: Node, parent: Node?, link: Link, ghost c: Ctx, ghost model': Model)
      requires Valid() && value !in model.ks && i < width
      requires trees[i] == Plug(c, Leaf) && parent == Parent(c, null) && link == HoleLink(c)
      requires model'.Consistent(slot)
      requires model'.buckets == model.buckets[i := Before(c) + [value] + After(c)]
      requires model'.ks == model.ks[value := value.key] && model'.ks.Keys == model.ks.Keys + {value}
      modifies this`model, this`trees, hashentry`node, hashentry`tree, value`left, value`right, value`parent,
        value`color
      modifies model.ks.Keys`left, model.ks.Keys`right, model.ks.Keys`parent, model.ks.Keys`color
      ensures Valid() && model == model'
    {
      Uncover();
      KeyFieldsPlus(model.ks, value);
      ghost var trees' := ForestInsert(hashentry, i, value, parent, link, trees, model.ks.Keys, model'.ks.Keys,
        model.buckets, c);
      Commit(trees', model');
    }

    /** `hash_insert` is the map's extension; an existing key fails and changes nothing. */
    method Insert(key: nat, value: Node) returns (ret: int)
      requires Valid() && (value in model.ks ==> model.ks[value] == key)
      modifies this`model, this`trees, hashentry`node, hashentry`tree, value
      modifies model.ks.Keys`left, model.ks.Keys`right, model.ks.Keys`parent, model.ks.Keys`color
      ensures Valid() && value.key == key
      ensures key in old(model).contents ==> ret == -1 && model == old(model)
      ensures key !in old(model).contents ==>
        && ret == 0 && model.contents == old(model).contents[key := value] && model.ks == old(model).ks[value := key]
    {
      SetKey(value, key);
      var i, link, parent;
      ghost var c;
      i, ret, parent, link, c := Lookup(key);
      if ret != 1 {
        return -1;
      }
      StoredKey(value);
      assert Peek(true);
      ghost var model' := Extended(trees[i], model, slot, c, value, key);
      InsertAbsent(i, value, parent, link, c, model');
      ret := 0;
    }

    /** `hash_delete_node`: the bucket of the node's key loses exactly that node. */
    method DeleteNode(node: Node)
      requires Valid() && node in model.ks
      modifies this`model, this`trees, hashentry`node, hashentry`tree
      modifies model.ks.Keys`left, model.ks.Keys`right, model.ks.Keys`parent, model.ks.Keys`color
      ensures Valid() && model.contents == old(model).contents - {node.key} && model.ks == old(model).ks - {node}
    {
      var i := Index(node.key);
      assert node.key == model.ks[node] by { assert Look(true) && Peek(true); }
      DeleteFrom(i, node);
    }

    method DeleteFrom(i: nat, node: Node)
      requires Valid() && i == slot(node.key) < width && node in model.ks && node.key == model.ks[node]
      modifies this`model, this`trees, hashentry`node, hashentry`tree
      modifies model.ks.Keys`left, model.ks.Keys`right, model.ks.Keys`parent, model.ks.Keys`color
      ensures Valid() && model.contents == old(model).contents - {node.key} && model.ks == old(model).ks - {node}
      ensures model.buckets == old(model).buckets[i := Without(old(model).buckets[i], node)]
    {
      Uncover();
      ghost var model' := Reduced(model, slot, node);
      KeyFieldsMinus(model.ks, node);
      ghost var trees' := ForestErase(hashentry, i, node, trees, model.ks.Keys, model'.ks.Keys, model.buckets);
      Commit(trees', model');
    }

    /** `hash_delete` takes the key out of the map and returns its node. */
    method Delete(key: nat) returns (node: Node?)
      requires Valid()
      modifies this`model, this`trees, hashentry`node, hashentry`tree
      modifies model.ks.Keys`left, model.ks.Keys`right, model.ks.Keys`parent, model.ks.Keys`color
      ensures Valid() && model.contents == old(model).contents - {key}
      ensures node == if key in old(model).contents then old(model).contents[key] else null
      ensures model.ks == if node == null then old(model).ks else old(model).ks - {node}
    {
      var i, ret, parent, link;
      ghost var c;
      i, ret, parent, link, c := Lookup(key);
      if ret != 0 {
        return null;
      }
      node := parent;
      assert node in model.ks && model.ks[node] == key == node.key by { assert Look(true) && Peek(true); }
      DeleteFrom(i, node);
    }

    // ---- Draining (hashtable.c:136-151) ----------------------------------------------------

    lemma HasShape()
      requires Valid()
      ensures Shape()
    {}

    /** The inner loop of `hash_destroy`: the successor is read before the node is erased. */
    method DrainBucket(i: nat, handler: bool) returns (handed: seq<Node>)
      requires Valid() && i < width
      modifies this`model, this`trees, hashentry`node, hashentry`tree
      modifies model.ks.Keys`left, model.ks.Keys`right, model.ks.Keys`parent, model.ks.Keys`color
      ensures Valid() && model.buckets == old(model).buckets[i := []] && model.ks.Keys <= old(model).ks.Keys
      ensures handed == if handler then old(model).buckets[i] else []
    {
      hide Valid;
      HasShape();
      ghost var B, S, done, rest := model.buckets, model.ks.Keys, [], model.buckets[i];
      handed := [];
      var pos := BucketFirst(i);
      var n := BucketNext(i, pos, 0);
      while pos != null
        invariant Valid() && Shape() && |B| == width
        invariant model.ks.Keys <= S && model.buckets == B[i := rest] && B[i] == done + rest
        invariant pos == At(rest, 0) && n == At(rest, 1)
        invariant handed == if handler then done else []
        decreases rest
      {
        EraseHead(i, pos);
        HasShape();
        if handler {
          handed := handed + [pos];
        }
        done, rest := done + [pos], rest[1..];
        pos := n;
        n := BucketNext(i, pos, 0);
      }
    }

    /** Erasing the first node of a bucket. */
    method EraseHead(i: nat, pos: Node)
      requires Valid() && i < width && model.buckets[i] != [] && pos == model.buckets[i][0]
      modifies this`model, this`trees, hashentry`node, hashentry`tree
      modifies model.ks.Keys`left, model.ks.Keys`right, model.ks.Keys`parent, model.ks.Keys`color
      ensures Valid() && model.buckets == old(model).buckets[i := old(model).buckets[i][1..]]
      ensures model.ks.Keys <= old(model).ks.Keys
    {
      WithoutHead(model.buckets[i]);
      BucketMember(i, pos);
      DeleteFrom(i, pos);
    }

    /** The element at a position, or null past the end. */
    static ghost function At(s: seq<Node>, k: nat): Node? {
      if k < |s| then s[k] else null
    }

    static lemma {:induction false} WithoutHead(s: seq<Node>)
      requires s != []
      ensures Without(s, s[0]) == s[1..]
    {}

    lemma BucketMember(i: nat, n: Node)
      requires Valid() && i < width && n in model.buckets[i]
      ensures n in model.ks && model.ks[n] == n.key && slot(n.key) == i
    {
      assert Look(true) && Peek(true);
      assert Filed(n, i, model.ks, model.contents, slot);
    }

    method BucketFirst(i: nat) returns (n: Node?)
      requires Valid() && i < width
      ensures n == At(model.buckets[i], 0)
    {
      assert Look(true) && Peek(true);
      assert Planted(hashentry[i], trees[i], model.buckets[i], model.ks.Keys);
      n := First(hashentry[i]);
    }

    /** The node behind the one at position `k`; no node behind none. */
    method BucketNext(i: nat, n: Node?, ghost k: nat) returns (m: Node?)
      requires Valid() && i < width && (n == At(model.buckets[i], k) || n == null)
      ensures m == if n == null then null else At(model.buckets[i], k + 1)
    {
      assert Look(true) && Peek(true);
      assert Planted(hashentry[i], trees[i], model.buckets[i], model.ks.Keys);
      NodesInOrder(trees[i]);
      m := Next(n, hashentry[i]);
      if n != null {
        assert model.buckets[i][k] == n;
      }
    }

    /** The two loops of `hash_destroy`. */
    method DrainAll(handler: bool) returns (handed: seq<Node>)
      requires Valid()
      modifies this`model, this`trees, hashentry`node, hashentry`tree
      modifies model.ks.Keys`left, model.ks.Keys`right, model.ks.Keys`parent, model.ks.Keys`color
      ensures Valid() && forall i :: 0 <= i < width ==> model.buckets[i] == []
      ensures handed == if handler then Flat(old(model).buckets) else []
    {
      hide Flat, Sound;
      ghost var B, S := model.buckets, model.ks.Keys;
      ghost var done := [];
      handed := [];
      var i := 0;
      assert B[0..] == B && B[|B|..] == [];
      FlatNone();
      while i < width
        invariant Valid() && i <= width == |B| && model.ks.Keys <= S
        invariant forall j :: 0 <= j < i ==> model.buckets[j] == []
        invariant forall j :: i <= j < width ==> model.buckets[j] == B[j]
        invariant Flat(B) == done + Flat(B[i..])
        invariant handed == if handler then done else []
      {
        var some := DrainBucket(i, handler);
        handed := handed + some;
        FlatStep(B, i);
        done := done + B[i];
        i := i + 1;
      }
    }

    /** `hash_destroy`: every node goes to the handler once, bucket by bucket in key order, and the
        table is empty although it is erased from while it is walked. */
    method Destroy(handler: bool) returns (handed: seq<Node>)
      requires Valid()
      modifies this`model, this`trees, hashentry`node, hashentry`tree
      modifies model.ks.Keys`left, model.ks.Keys`right, model.ks.Keys`parent, model.ks.Keys`color
      ensures Valid() && model.contents == map[] && model.ks == map[]
      ensures forall i :: 0 <= i < width ==> model.buckets[i] == []
      ensures handed == if handler then Flat(old(model).buckets) else []
      ensures handler ==> NoDup(handed) && (set n | n in handed) == old(model).ks.Keys
    {
      EachOnce();
      handed := DrainAll(handler);
      NothingLeft();
    }

    lemma NothingLeft()
      requires Valid() && forall i :: 0 <= i < width ==> model.buckets[i] == []
      ensures model.contents == map[] && model.ks == map[]
    {
      assert Look(true) && Peek(true);
      SomethingHeld(model.buckets, model.ks, model.contents, slot);
    }

    /** Read bucket by bucket, the table holds each of its nodes exactly once. */
    lemma EachOnce()
      requires Valid()
      ensures NoDup(Flat(model.buckets)) && (set n | n in Flat(model.buckets)) == model.ks.Keys
    {
      assert Look(true) && Peek(true);
      FlatOnce(model.buckets, model.ks, model.contents, slot, 0);
      assert model.buckets[0..] == model.buckets;
      forall n | n in model.ks ensures n in Flat(model.buckets) {
        assert Found(n, model.buckets, model.ks, slot);
      }
    }
  }

  // ---- Iteration (hashtable.c:170-206) -----------------------------------------------------

  /** All the buckets, one after the other. */
  ghost function Flat(bs: seq<seq<Node>>): seq<Node> {
    if bs == [] then [] else bs[0] + Flat(bs[1..])
  }

  lemma FlatNone()
    ensures Flat([]) == []
  {
  }

  lemma FlatStep(bs: seq<seq<Node>>, i: nat)
    requires i < |bs|
    ensures Flat(bs[i..]) == bs[i] + Flat(bs[i + 1..])
  {
    assert bs[i..][1..] == bs[i + 1..];
  }

  /** A node is in some bucket from the `i`-th on. */
  ghost predicate Held(n: Node, bs: seq<seq<Node>>, i: nat) {
    exists j :: i <= j < |bs| && n in bs[j]
  }

  lemma SortedNoDup(s: seq<Node>, ks: Keys)
    requires Sorted(s, ks)
    ensures NoDup(s)
  {}

  lemma {:induction false} FlatOnce(bs: seq<seq<Node>>, ks: Keys, contents: map<nat, Node>, slot: Slots, i: nat)
    requires Agrees(bs, ks, contents, slot) && i <= |bs|
    ensures NoDup(Flat(bs[i..]))
    ensures forall n :: n in Flat(bs[i..]) <==> Held(n, bs, i)
    ensures forall n :: n in Flat(bs[i..]) ==> n in ks
    decreases |bs| - i
  {
    if i < |bs| {
      FlatOnce(bs, ks, contents, slot, i + 1);
      assert bs[i..][1..] == bs[i + 1..];
      SortedNoDup(bs[i], ks);
      forall n | n in bs[i] ensures n in ks && n !in Flat(bs[i + 1..]) {
        assert Filed(n, i, ks, contents, slot);
        forall j | i + 1 <= j < |bs| ensures n !in bs[j] { BucketsApart(bs, ks, contents, slot, i, j, n); }
      }
      NoDupConcat(bs[i], Flat(bs[i + 1..]));
    }
  }

  lemma RestStep(b: seq<Node>, k: nat, tail: seq<Node>)
    requires k < |b|
    ensures (b[k..] + tail)[0] == b[k] && (b[k..] + tail)[1..] == b[k + 1..] + tail
    ensures if k + 1 < |b| then (b[k + 1..] + tail)[0] == b[k + 1] else b[k + 1..] + tail == tail
  {}

  /** `hash_iterator`: the node to hand out next and its bucket. */
  class HashIterator {
    var i: nat
    var next: Node?
    /** What is still to be handed out. */
    ghost var rest: seq<Node>
    ghost var k: nat

    constructor ()
    {
      i, next, rest, k := 0, null, [], 0;
    }

    ghost predicate Valid(h: HashTable)
      reads this, h
    {
      && next == HashTable.At(rest, 0)
      && (next != null ==>
            && i < |h.model.buckets| && k < |h.model.buckets[i]|
            && rest == h.model.buckets[i][k..] + Flat(h.model.buckets[i + 1..]))
    }

    /** The scan for the next bucket that is not empty. */
    method Scan(h: HashTable, from: nat) returns (found: bool)
      requires h.Valid() && from <= h.width
      modifies this
      ensures Valid(h) && rest == Flat(h.model.buckets[from..]) && (found <==> rest != [])
    {
      var j := from;
      ghost var B := h.model.buckets;
      next := null;
      while j < h.width
        invariant from <= j <= h.width && h.Valid() && h.model.buckets == B && next == null
        invariant Flat(B[from..]) == Flat(B[j..])
      {
        next := h.BucketFirst(j);
        assert B[j..][1..] == B[j + 1..];
        if next != null {
          i, k := j, 0;
          rest := Flat(B[j..]);
          assert B[j][0..] == B[j];
          return true;
        }
        j := j + 1;
      }
      rest := [];
      return false;
    }

    /** `hash_iterator_init`: everything is still to be handed out. */
    method Init(h: HashTable)
      requires h.Valid()
      modifies this
      ensures Valid(h) && rest == Flat(h.model.buckets)
    {
      var found := Scan(h, 0);
      assert h.model.buckets[0..] == h.model.buckets;
    }

    /** `hash_iterate`: hands out the next node, if any. */
    method Iterate(h: HashTable) returns (more: bool, node: Node?)
      requires h.Valid() && Valid(h)
      modifies this
      ensures Valid(h) && (more <==> old(rest) != [])
      ensures more ==> node == old(rest)[0] && rest == old(rest)[1..]
      ensures !more ==> rest == []
    {
      if next == null {
        return false, null;
      }
      more, node := true, next;
      ghost var B := h.model.buckets;
      RestStep(B[i], k, Flat(B[i + 1..]));
      next := h.BucketNext(i, next, k);
      if next != null {
        k, rest := k + 1, rest[1..];
        return;
      }
      var found := Scan(h, i + 1);
    }
  }

  /** Iterating to the end hands out every node of the table exactly once, bucket by bucket in key
      order. */
  method HandOut(h: HashTable) returns (out: seq<Node>)
    requires h.Valid()
    ensures out == Flat(h.model.buckets)
    ensures NoDup(out) && (set n | n in out) == h.model.ks.Keys
  {
    hide Flat, NoDup;
    h.EachOnce();
    ghost var all := Flat(h.model.buckets);
    out := [];
    var hi := new HashIterator();
    hi.Init(h);
    var more, node := hi.Iterate(h);
    while more
      invariant h.Valid() && h.model == old(h.model) && hi.Valid(h) && fresh(hi)
      invariant more ==> node != null && out + [node] + hi.rest == all
      invariant !more ==> out == all
      decreases more, |hi.rest|
    {
      ghost var rest := hi.rest;
      out := out + [node];
      more, node := hi.Iterate(h);
      if more {
        assert rest == [rest[0]] + rest[1..];
      }
    }
  }

  /** The model after a node goes out. */
  lemma Reduced(m: Model, slot: Slots, n: Node) returns (m': Model)
    requires m.Consistent(slot) && n in m.ks && slot(m.ks[n]) < |m.buckets|
    ensures n in m.buckets[slot(m.ks[n])]
    ensures m' == Model(m.buckets[slot(m.ks[n]) := Without(m.buckets[slot(m.ks[n])], n)], m.ks - {n},
            m.contents - {m.ks[n]})
    ensures m'.Consistent(slot) && m'.ks.Keys == m.ks.Keys - {n}
  {
    assert Look(true);
    assert Found(n, m.buckets, m.ks, slot);
    AgreesShrunk(m.buckets, m.ks, m.contents, slot, n);
    m' := Model(m.buckets[slot(m.ks[n]) := Without(m.buckets[slot(m.ks[n])], n)], m.ks - {n}, m.contents - {m.ks[n]});
  }

  lemma InOrderLeaf()
    ensures InOrder(Leaf) == []
  {
  }

  /** The model after a node goes in where the search fell off. */
  lemma Extended(t: Tree, m: Model, slot: Slots, c: Ctx, n: Node, key: nat) returns (m': Model)
    requires m.Consistent(slot) && n !in m.ks && key !in m.contents && slot(key) < |m.buckets|
    requires FellOff(t, c, key, m.ks) && InOrder(t) == m.buckets[slot(key)]
    ensures m' == Model(m.buckets[slot(key) := Before(c) + [n] + After(c)],
                        m.ks[n := key], m.contents[key := n])
    ensures m'.Consistent(slot) && m'.ks.Keys == m.ks.Keys + {n}
  {
    hide Plug, Before, After, InOrder, Agrees, AllBelow, AllAbove;
    assert Look(true);
    InOrderPlug(c, Leaf);
    InOrderLeaf();
    assert Before(c) + [] + After(c) == Before(c) + After(c);
    AgreesExtended(m.buckets, m.ks, m.contents, slot, n, key, Before(c), After(c));
    m' := Model(m.buckets[slot(key) := Before(c) + [n] + After(c)], m.ks[n := key], m.contents[key := n]);
  }

  /** A new node linked in where the search fell off the tree, and the tree rebalanced. */
  method InsertAt(root: Root, value: Node, parent: Node?, link: Link, ghost c: Ctx)
    requires root.Valid() && value !in Nodes(root.tree)
    requires root.tree == Plug(c, Leaf) && parent == Parent(c, null) && link == HoleLink(c)
    modifies root`node, root`tree, Nodes(root.tree)`left, Nodes(root.tree)`right, Nodes(root.tree)`parent,
      Nodes(root.tree)`color
    modifies value`left, value`right, value`parent, value`color
    ensures root.Valid() && Nodes(root.tree) == old(Nodes(root.tree)) + {value}
    ensures InOrder(root.tree) == Before(c) + [value] + After(c)
  {
    InOrderPlug(c, T(Leaf, value, Red, Leaf));
    LinkNode(value, parent, link, root, c);
    InsertColor(value, root, c);
  }
}
