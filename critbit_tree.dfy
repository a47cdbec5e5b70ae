/**
 * The copy-on-write critbit trie of critbit/tree.go. Nodes are immutable
 * datatype values, so every write builds a new path from the root and shares
 * the rest; a handle obtained earlier is a value and never changes.
 *
 * The insert tie-break is the corrected one (see SplicesAbove and the module
 * CritbitAsWritten for the comparison as the source writes it).
 */
module CritbitTree {
  import opened Wrappers
  import opened CritbitBits

  /**
   * A trie node (tree.go:12-25): a leaf holds a key and its value, an internal
   * node a critical-bit descriptor and two children. No node holds a count.
   */
  datatype Node<V> =
    | Leaf(key: Key, value: V)
    | Internal(critbyte: nat, critbit: bv8, child0: Node<V>, child1: Node<V>)

  /** The trie handle (tree.go:7-10): the root, if any, and the item count. */
  datatype Trie<V> = Trie(root: Option<Node<V>>, count: int)

  function Child<V>(n: Node<V>, dir: nat): Node<V>
    requires n.Internal?
  {
    if dir == 0 then n.child0 else n.child1
  }

  /** The keys held by the leaves below a node. */
  ghost function Keys<V>(n: Node<V>): set<Key> {
    match n
    case Leaf(k, _) => {k}
    case Internal(_, _, c0, c1) => Keys(c0) + Keys(c1)
  }

  /** The key-value pairs held by the leaves below a node. */
  ghost function Elements<V>(n: Node<V>): (m: map<Key, V>)
    ensures m.Keys == Keys(n)
  {
    match n
    case Leaf(k, v) => map[k := v]
    case Internal(_, _, c0, c1) => Elements(c0) + Elements(c1)
  }

  function LeafCount<V>(n: Node<V>): (c: nat)
    ensures c >= 1
  {
    match n
    case Leaf(_, _) => 1
    case Internal(_, _, c0, c1) => LeafCount(c0) + LeafCount(c1)
  }

  /** Every leaf below `n` takes direction `dir` at the descriptor (b, m). */
  ghost predicate Directed<V>(n: Node<V>, b: nat, m: bv8, dir: nat) {
    forall k :: k in Keys(n) ==> FindDirection(k, b, m) == dir
  }

  /** Any two distinct keys of `keys` have their critical bit at position P or later. */
  ghost predicate Separated(keys: set<Key>, P: nat) {
    forall k, j {:trigger Critbit(k, j)} :: k in keys && j in keys && k != j ==> P <= PosOf(Critbit(k, j))
  }

  /**
   * The structural invariant every write preserves. At an internal node with
   * descriptor d, each leaf of child i takes direction i at d, and any two
   * distinct leaves below the node have their critical bit at d or later.
   */
  ghost predicate WellFormed<V>(n: Node<V>) {
    match n
    case Leaf(_, _) => true
    case Internal(b, m, c0, c1) =>
      && IsCritbit(m)
      && WellFormed(c0)
      && WellFormed(c1)
      && Directed(c0, b, m, 0)
      && Directed(c1, b, m, 1)
      && Separated(Keys(c0) + Keys(c1), Pos(b, m))
  }

  /** A handle is valid when its count is the number of leaves of its root. */
  ghost predicate Valid<V>(t: Trie<V>) {
    match t.root
    case None => t.count == 0
    case Some(n) => WellFormed(n) && t.count == LeafCount(n)
  }

  /** The map a handle stands for. */
  ghost function Contents<V>(t: Trie<V>): map<Key, V> {
    match t.root
    case None => map[]
    case Some(n) => Elements(n)
  }

  function Lookup<K, V>(m: map<K, V>, k: K): Option<V> {
    if k in m then Some(m[k]) else None
  }

  //-- The handle's operations --//

  /** NilTrie (tree.go:27-32): the empty trie. */
  function NilTrie<V>(): (t: Trie<V>)
    ensures Valid(t) && Contents(t) == map[]
  {
    Trie(None, 0)
  }

  /** Trie.Get (tree.go:38-48). */
  function Get<V>(t: Trie<V>, key: Key): Option<V> {
    match t.root
    case None => None
    case Some(root) =>
      var n := FindBestLeaf(root, key);
      if key == n.key then Some(n.value) else None
  }

  /** Trie.Len (tree.go:51-53). */
  function Len<V>(t: Trie<V>): int {
    t.count
  }

  /**
   * Trie.Set (tree.go:58-87): the new handle and the previous value. A nil
   * value panics.
   */
  function Set<V>(t: Trie<V>, key: Key, value: Option<V>): (r: Outcome<(Trie<V>, Option<V>)>)
    ensures r.Panicked? <==> value.None?
  {
    if value.None? then Panicked("value cannot be nil")
    else
      match t.root
      case None => Returned((Trie(Some(Leaf(key, value.value)), 1), None))
      case Some(root) =>
        var n := FindBestLeaf(root, key);
        if key == n.key then
          Returned((Trie(Some(SetLeaf(root, key, value.value)), t.count), Some(n.value)))
        else
          var d := Critbit(key, n.key);
          Returned((Trie(Some(InsertLeaf(root, key, value.value, d.0, d.1)), t.count + 1), None))
  }

  /** Trie.Delete (tree.go:89-103): the new handle and the removed value. */
  function Delete<V>(t: Trie<V>, key: Key): (Trie<V>, Option<V>) {
    match t.root
    case None => (t, None)
    case Some(root) =>
      var n := FindBestLeaf(root, key);
      if key == n.key then (Trie(DeleteLeaf(root, key), t.count - 1), Some(n.value))
      else (t, None)
  }

  //-- The node-level recursions --//

  /**
   * findBestLeaf (tree.go:107-115): the leaf reached by following the key's
   * direction at every internal node, without comparing keys on the way.
   */
  function FindBestLeaf<V>(n: Node<V>, key: Key): (leaf: Node<V>)
    ensures leaf.Leaf? && leaf.key in Keys(n)
    ensures WellFormed(n) ==> Elements(n)[leaf.key] == leaf.value
  {
    match n
    case Leaf(_, _) => n
    case Internal(b, m, c0, c1) =>
      if FindDirection(key, b, m) == 0 then FindBestLeaf(c0, key) else FindBestLeaf(c1, key)
  }

  /** setLeaf (tree.go:117-135): replace the leaf on the key's path. */
  function SetLeaf<V>(n: Node<V>, key: Key, value: V): Node<V> {
    match n
    case Leaf(_, _) => Leaf(key, value)
    case Internal(b, m, c0, c1) =>
      if FindDirection(key, b, m) == 0 then Internal(b, m, SetLeaf(c0, key, value), c1)
      else Internal(b, m, c0, SetLeaf(c1, key, value))
  }

  /**
   * The insert tie-break, corrected: the new internal node goes above `n` when
   * n's critical bit comes later in the key than the new one. Bytes compare by
   * index; within a byte the length sentinel comes first and then the bits from
   * the most significant down, so a smaller genuine mask comes EARLIER. The
   * source's `n.critbit < critbit` (tree.go:140) agrees except for two genuine
   * masks in the same byte (CritbitAsWritten.TieBreaksDiffer).
   */
  predicate SplicesAbove(nbyte: nat, nbit: bv8, critbyte: nat, critbit: bv8) {
    nbyte > critbyte ||
    (nbyte == critbyte &&
     ((critbit == LengthSentinel && nbit != LengthSentinel) ||
      (critbit != LengthSentinel && nbit != LengthSentinel && nbit > critbit)))
  }

  /** insertLeaf (tree.go:137-165), with the corrected tie-break. */
  function InsertLeaf<V>(n: Node<V>, key: Key, value: V, critbyte: nat, critbit: bv8): Node<V> {
    if n.Leaf? || SplicesAbove(n.critbyte, n.critbit, critbyte, critbit) then
      var leaf := Leaf(key, value);
      if FindDirection(key, critbyte, critbit) == 0 then Internal(critbyte, critbit, leaf, n)
      else Internal(critbyte, critbit, n, leaf)
    else if FindDirection(key, n.critbyte, n.critbit) == 0 then
      Internal(n.critbyte, n.critbit, InsertLeaf(n.child0, key, value, critbyte, critbit), n.child1)
    else
      Internal(n.critbyte, n.critbit, n.child0, InsertLeaf(n.child1, key, value, critbyte, critbit))
  }

  /**
   * deleteLeaf (tree.go:167-190): None stands for Go's nil, "this leaf is
   * gone"; the parent of a removed leaf is replaced by the leaf's sibling.
   */
  function DeleteLeaf<V>(n: Node<V>, key: Key): Option<Node<V>> {
    match n
    case Leaf(_, _) => None
    case Internal(b, m, c0, c1) =>
      if FindDirection(key, b, m) == 0 then
        match DeleteLeaf(c0, key)
        case None => Some(c1)
        case Some(r) => Some(Internal(b, m, r, c1))
      else
        match DeleteLeaf(c1, key)
        case None => Some(c0)
        case Some(r) => Some(Internal(b, m, c0, r))
  }

  //-- Lemmas about maps and the invariant's parts --//

  lemma UpdateLeft<K, V>(a: map<K, V>, b: map<K, V>, k: K, v: V)
    requires k !in b
    ensures (a + b)[k := v] == a[k := v] + b
  {
  }

  lemma UpdateRight<K, V>(a: map<K, V>, b: map<K, V>, k: K, v: V)
    ensures (a + b)[k := v] == a + b[k := v]
  {
  }

  lemma RemoveLeft<K, V>(a: map<K, V>, b: map<K, V>, k: K)
    requires k !in b
    ensures (a + b) - {k} == (a - {k}) + b
  {
  }

  lemma RemoveRight<K, V>(a: map<K, V>, b: map<K, V>, k: K)
    requires k !in a
    ensures (a + b) - {k} == a + (b - {k})
  {
  }

  lemma SeparatedSubset(a: set<Key>, b: set<Key>, c: set<Key>, d: set<Key>, P: nat)
    requires Separated(a + b, P) && c <= a && d <= b
    ensures Separated(c + d, P)
  {
  }

  lemma SeparatedShrink(s: set<Key>, t: set<Key>, P: nat)
    requires Separated(s, P) && t <= s
    ensures Separated(t, P)
  {
  }

  lemma SeparatedWeaken(s: set<Key>, P: nat, Q: nat)
    requires Separated(s, P) && Q <= P
    ensures Separated(s, Q)
  {
  }

  /** Adding a key that is far enough from every present key keeps a set separated. */
  lemma SeparatedAdd(s: set<Key>, u: Key, P: nat)
    requires Separated(s, P)
    requires forall w :: w in s ==> P <= PosOf(Critbit(u, w)) && P <= PosOf(Critbit(w, u))
    ensures Separated(s + {u}, P)
  {
  }

  lemma DirectedSubset<V>(n: Node<V>, n': Node<V>, b: nat, m: bv8, dir: nat)
    requires Directed(n, b, m, dir) && Keys(n') <= Keys(n)
    ensures Directed(n', b, m, dir)
  {
  }

  lemma DirectedAdd<V>(n: Node<V>, n': Node<V>, u: Key, b: nat, m: bv8, dir: nat)
    requires Directed(n, b, m, dir) && Keys(n') <= Keys(n) + {u}
    requires FindDirection(u, b, m) == dir
    ensures Directed(n', b, m, dir)
  {
  }

  /** The parts of the invariant at one internal node, put together. */
  lemma MakeInternal<V>(b: nat, m: bv8, c0: Node<V>, c1: Node<V>)
    requires IsCritbit(m) && WellFormed(c0) && WellFormed(c1)
    requires Directed(c0, b, m, 0) && Directed(c1, b, m, 1)
    requires Separated(Keys(c0) + Keys(c1), Pos(b, m))
    ensures WellFormed(Internal(b, m, c0, c1))
  {
  }

  /** The keys of a well-formed node are separated from its own descriptor on. */
  lemma NodeSeparated<V>(n: Node<V>, P: nat)
    requires WellFormed(n)
    requires n.Internal? ==> P <= Pos(n.critbyte, n.critbit)
    ensures Separated(Keys(n), P)
  {
    if n.Internal? {
      SeparatedWeaken(Keys(n), Pos(n.critbyte, n.critbit), P);
    }
  }

  /** The children of a well-formed node hold disjoint keys. */
  lemma ChildrenDisjoint<V>(n: Node<V>)
    requires WellFormed(n) && n.Internal?
    ensures Keys(n.child0) !! Keys(n.child1)
  {
    forall k | k in Keys(n.child0)
      ensures k !in Keys(n.child1)
    {
    }
  }

  //-- Lemmas about nodes --//

  /** In a well-formed node the leaf keys are distinct: the count is the number of keys. */
  lemma {:induction false} LeafCountIsKeys<V>(n: Node<V>)
    requires WellFormed(n)
    ensures LeafCount(n) == |Keys(n)|
  {
    if n.Internal? {
      LeafCountIsKeys(n.child0);
      LeafCountIsKeys(n.child1);
      ChildrenDisjoint(n);
    }
  }

  /** Following a present key's directions reaches that key's leaf. */
  lemma {:induction false} FindBestLeafFindsPresent<V>(n: Node<V>, key: Key)
    requires WellFormed(n) && key in Keys(n)
    ensures FindBestLeaf(n, key).key == key
  {
    if n.Internal? {
      if key in Keys(n.child0) {
        FindBestLeafFindsPresent(n.child0, key);
      } else {
        FindBestLeafFindsPresent(n.child1, key);
      }
    }
  }

  /** setLeaf on a present key changes its value and nothing else. */
  lemma {:induction false} SetLeafCorrect<V>(n: Node<V>, key: Key, value: V)
    requires WellFormed(n) && key in Keys(n)
    ensures WellFormed(SetLeaf(n, key, value))
    ensures Elements(SetLeaf(n, key, value)) == Elements(n)[key := value]
    ensures LeafCount(SetLeaf(n, key, value)) == LeafCount(n)
  {
    if n.Internal? {
      var b, m, c0, c1 := n.critbyte, n.critbit, n.child0, n.child1;
      ChildrenDisjoint(n);
      if key in Keys(c0) {
        assert FindDirection(key, b, m) == 0;
        var c0' := SetLeaf(c0, key, value);
        assert SetLeaf(n, key, value) == Internal(b, m, c0', c1);
        SetLeafCorrect(c0, key, value);
        ShrinkWellFormed(b, m, c0, c1, c0', c1);
        UpdateLeft(Elements(c0), Elements(c1), key, value);
      } else {
        assert FindDirection(key, b, m) == 1;
        var c1' := SetLeaf(c1, key, value);
        assert SetLeaf(n, key, value) == Internal(b, m, c0, c1');
        SetLeafCorrect(c1, key, value);
        ShrinkWellFormed(b, m, c0, c1, c0, c1');
        UpdateRight(Elements(c0), Elements(c1), key, value);
      }
    }
  }

  /** The corrected tie-break is "n's descriptor comes later in the key". */
  lemma SplicesAboveIsLater(nbyte: nat, nbit: bv8, critbyte: nat, critbit: bv8)
    requires IsCritbit(nbit) && IsCritbit(critbit)
    ensures SplicesAbove(nbyte, nbit, critbyte, critbit) <==> Pos(nbyte, nbit) > Pos(critbyte, critbit)
  {
  }

  /** Two distinct keys that agree at a descriptor do not have their critical bit there. */
  lemma CritbitNotAt(u: Key, p: Key, b: nat, m: bv8)
    requires u != p && IsCritbit(m)
    requires FindDirection(u, b, m) == FindDirection(p, b, m)
    ensures Pos(b, m) != PosOf(Critbit(u, p))
  {
    var d := Critbit(u, p);
    if Pos(b, m) == PosOf(d) {
      PosInjective(b, m, d.0, d.1);
      CritbitSeparates(u, p);
    }
  }

  /**
   * A new key u whose critical bit against a present key p is at P or later
   * has its critical bit at P or later against every key of a separated set.
   */
  lemma NewKeyPairs(s: set<Key>, u: Key, p: Key, P: nat)
    requires p in s && u !in s
    requires Separated(s, P)
    requires P <= PosOf(Critbit(u, p))
    ensures Separated(s + {u}, P)
  {
    forall w | w in s
      ensures P <= PosOf(Critbit(u, w)) && P <= PosOf(Critbit(w, u))
    {
      CritbitSymmetric(u, w);
      if w != p {
        CritbitUltrametric(u, p, w);
        assert P <= PosOf(Critbit(p, w));
      }
    }
    SeparatedAdd(s, u, P);
  }

  /**
   * When a node's descriptor comes after the critical bit d of u and p, every
   * key of the node takes p's direction at d, the opposite of u's.
   */
  lemma SpliceDirected<V>(n: Node<V>, u: Key, p: Key)
    requires WellFormed(n) && p in Keys(n) && u != p
    requires n.Internal? ==> Pos(n.critbyte, n.critbit) > PosOf(Critbit(u, p))
    ensures var d := Critbit(u, p);
            Directed(n, d.0, d.1, 1 - FindDirection(u, d.0, d.1))
  {
    var d := Critbit(u, p);
    var D := PosOf(d);
    CritbitSeparates(u, p);
    NodeSeparated(n, D + 1);
    forall z | z in Keys(n)
      ensures FindDirection(z, d.0, d.1) == 1 - FindDirection(u, d.0, d.1)
    {
      if z != p {
        assert D < PosOf(Critbit(p, z));
        AgreeBeforeCritbit(p, z, D);
        DirectionIsKeyBit(p, d.0, d.1);
        DirectionIsKeyBit(z, d.0, d.1);
      }
    }
  }

  lemma AddLeft<K, V>(a: map<K, V>, k: K, v: V)
    requires k !in a
    ensures map[k := v] + a == a[k := v]
  {
  }

  lemma AddRight<K, V>(a: map<K, V>, k: K, v: V)
    ensures a + map[k := v] == a[k := v]
  {
  }

  /** The splice branch of insertLeaf builds a well-formed node holding one more pair. */
  lemma SpliceCorrect<V>(n: Node<V>, u: Key, v: V, p: Key)
    requires WellFormed(n) && p in Keys(n) && u !in Keys(n)
    requires n.Internal? ==> Pos(n.critbyte, n.critbit) > PosOf(Critbit(u, p))
    ensures var d := Critbit(u, p);
            var leaf := Leaf(u, v);
            var r := if FindDirection(u, d.0, d.1) == 0 then Internal(d.0, d.1, leaf, n)
                     else Internal(d.0, d.1, n, leaf);
            WellFormed(r) && Elements(r) == Elements(n)[u := v] && LeafCount(r) == LeafCount(n) + 1
  {
    var d := Critbit(u, p);
    var D := PosOf(d);
    var leaf := Leaf(u, v);
    SpliceDirected(n, u, p);
    NodeSeparated(n, D);
    NewKeyPairs(Keys(n), u, p, D);
    if FindDirection(u, d.0, d.1) == 0 {
      SeparatedShrink(Keys(n) + {u}, Keys(leaf) + Keys(n), D);
      MakeInternal(d.0, d.1, leaf, n);
      AddLeft(Elements(n), u, v);
    } else {
      MakeInternal(d.0, d.1, n, leaf);
      AddRight(Elements(n), u, v);
    }
  }

  /**
   * The descend branch of insertLeaf: replacing the child on u's side with that
   * child plus u gives a well-formed node holding one more pair.
   */
  lemma DescendCorrect<V>(n: Node<V>, u: Key, v: V, p: Key, c': Node<V>)
    requires WellFormed(n) && n.Internal? && u !in Keys(n)
    requires p in Keys(Child(n, FindDirection(u, n.critbyte, n.critbit)))
    requires Pos(n.critbyte, n.critbit) < PosOf(Critbit(u, p))
    requires WellFormed(c')
    requires Elements(c') == Elements(Child(n, FindDirection(u, n.critbyte, n.critbit)))[u := v]
    ensures var b, m, c0, c1 := n.critbyte, n.critbit, n.child0, n.child1;
            var r := if FindDirection(u, b, m) == 0 then Internal(b, m, c', c1) else Internal(b, m, c0, c');
            WellFormed(r) && Elements(r) == Elements(n)[u := v]
  {
    var b, m, c0, c1 := n.critbyte, n.critbit, n.child0, n.child1;
    var dir := FindDirection(u, b, m);
    var c := Child(n, dir);
    assert Keys(c') <= Keys(c) + {u};
    NodeSeparated(n, Pos(b, m));
    NewKeyPairs(Keys(n), u, p, Pos(b, m));
    ChildrenDisjoint(n);
    if dir == 0 {
      DirectedAdd(c0, c', u, b, m, 0);
      SeparatedShrink(Keys(n) + {u}, Keys(c') + Keys(c1), Pos(b, m));
      MakeInternal(b, m, c', c1);
      UpdateLeft(Elements(c0), Elements(c1), u, v);
    } else {
      DirectedAdd(c1, c', u, b, m, 1);
      SeparatedShrink(Keys(n) + {u}, Keys(c0) + Keys(c'), Pos(b, m));
      MakeInternal(b, m, c0, c');
      UpdateRight(Elements(c0), Elements(c1), u, v);
    }
  }

  /**
   * insertLeaf with the descriptor findCritbit computes against the best leaf
   * p of a new key u: the result is well formed and holds one more pair.
   */
  lemma {:induction false} InsertLeafCorrect<V>(n: Node<V>, u: Key, v: V, p: Key)
    requires WellFormed(n)
    requires FindBestLeaf(n, u).key == p && p != u
    ensures var d := Critbit(u, p);
            var r := InsertLeaf(n, u, v, d.0, d.1);
            && WellFormed(r)
            && Elements(r) == Elements(n)[u := v]
            && LeafCount(r) == LeafCount(n) + 1
  {
    var d := Critbit(u, p);
    if u in Keys(n) {
      FindBestLeafFindsPresent(n, u);
    }
    if n.Leaf? || SplicesAbove(n.critbyte, n.critbit, d.0, d.1) {
      if n.Internal? {
        SplicesAboveIsLater(n.critbyte, n.critbit, d.0, d.1);
      }
      var leaf := Leaf(u, v);
      assert InsertLeaf(n, u, v, d.0, d.1) ==
             if FindDirection(u, d.0, d.1) == 0 then Internal(d.0, d.1, leaf, n) else Internal(d.0, d.1, n, leaf);
      SpliceCorrect(n, u, v, p);
    } else {
      var b, m := n.critbyte, n.critbit;
      var dir := FindDirection(u, b, m);
      var c := Child(n, dir);
      assert FindBestLeaf(c, u) == FindBestLeaf(n, u);
      assert FindDirection(p, b, m) == dir;
      SplicesAboveIsLater(b, m, d.0, d.1);
      CritbitNotAt(u, p, b, m);
      InsertLeafCorrect(c, u, v, p);
      var c' := InsertLeaf(c, u, v, d.0, d.1);
      assert InsertLeaf(n, u, v, d.0, d.1) ==
             if dir == 0 then Internal(b, m, c', n.child1) else Internal(b, m, n.child0, c');
      DescendCorrect(n, u, v, p, c');
    }
  }

  /** A well-formed node stays well formed when its children lose keys. */
  lemma ShrinkWellFormed<V>(b: nat, m: bv8, c0: Node<V>, c1: Node<V>, d0: Node<V>, d1: Node<V>)
    requires IsCritbit(m) && Directed(c0, b, m, 0) && Directed(c1, b, m, 1)
    requires Separated(Keys(c0) + Keys(c1), Pos(b, m))
    requires WellFormed(d0) && WellFormed(d1)
    requires Keys(d0) <= Keys(c0) && Keys(d1) <= Keys(c1)
    ensures WellFormed(Internal(b, m, d0, d1))
  {
    SeparatedSubset(Keys(c0), Keys(c1), Keys(d0), Keys(d1), Pos(b, m));
    DirectedSubset(c0, d0, b, m, 0);
    DirectedSubset(c1, d1, b, m, 1);
    MakeInternal(b, m, d0, d1);
  }

  /** What deleteLeaf promises for a present key of a well-formed node. */
  ghost predicate DeletesKey<V>(n: Node<V>, key: Key, d: Option<Node<V>>) {
    && (d.None? <==> n.Leaf?)
    && (d.Some? ==>
          && WellFormed(d.value)
          && Elements(d.value) == Elements(n) - {key}
          && LeafCount(d.value) == LeafCount(n) - 1)
  }

  /** deleteLeaf on a present key removes exactly that pair. */
  lemma {:induction false} DeleteLeafCorrect<V>(n: Node<V>, key: Key)
    requires WellFormed(n) && key in Keys(n)
    ensures DeleteLeaf(n, key).None? <==> n.Leaf?
    ensures DeleteLeaf(n, key).Some? ==>
              var r := DeleteLeaf(n, key).value;
              && WellFormed(r)
              && Elements(r) == Elements(n) - {key}
              && LeafCount(r) == LeafCount(n) - 1
  {
    if n.Internal? {
      ChildrenDisjoint(n);
      if key in Keys(n.child0) {
        DeleteLeafCorrect(n.child0, key);
        DeleteBelowLeft(n, key);
      } else {
        DeleteLeafCorrect(n.child1, key);
        DeleteBelowRight(n, key);
      }
    }
  }

  /** Removing a key of child 0 from an internal node. */
  lemma DeleteBelowLeft<V>(n: Node<V>, key: Key)
    requires WellFormed(n) && n.Internal? && key in Keys(n.child0) && key !in Keys(n.child1)
    requires DeletesKey(n.child0, key, DeleteLeaf(n.child0, key))
    ensures DeletesKey(n, key, DeleteLeaf(n, key))
  {
    var b, m, c0, c1 := n.critbyte, n.critbit, n.child0, n.child1;
    assert FindDirection(key, b, m) == 0;
    RemoveLeft(Elements(c0), Elements(c1), key);
    match DeleteLeaf(c0, key)
    case None =>
      assert Elements(c0) - {key} == map[];
      assert Elements(n) - {key} == Elements(c1);
    case Some(r) =>
      ShrinkWellFormed(b, m, c0, c1, r, c1);
  }

  /** Removing a key of child 1 from an internal node. */
  lemma DeleteBelowRight<V>(n: Node<V>, key: Key)
    requires WellFormed(n) && n.Internal? && key in Keys(n.child1) && key !in Keys(n.child0)
    requires DeletesKey(n.child1, key, DeleteLeaf(n.child1, key))
    ensures DeletesKey(n, key, DeleteLeaf(n, key))
  {
    var b, m, c0, c1 := n.critbyte, n.critbit, n.child0, n.child1;
    assert FindDirection(key, b, m) == 1;
    RemoveRight(Elements(c0), Elements(c1), key);
    match DeleteLeaf(c1, key)
    case None =>
      assert Elements(c1) - {key} == map[];
      assert Elements(n) - {key} == Elements(c0);
    case Some(r) =>
      ShrinkWellFormed(b, m, c0, c1, c0, r);
  }

  //-- Lemmas about handles --//

  /** Get answers from the handle's contents. */
  lemma GetCorrect<V>(t: Trie<V>, key: Key)
    requires Valid(t)
    ensures Get(t, key) == Lookup(Contents(t), key)
  {
    if t.root.Some? && key in Keys(t.root.value) {
      FindBestLeafFindsPresent(t.root.value, key);
    }
  }

  /** Len is the number of pairs. */
  lemma LenIsSize<V>(t: Trie<V>)
    requires Valid(t)
    ensures Len(t) == |Contents(t)|
  {
    if t.root.Some? {
      LeafCountIsKeys(t.root.value);
    }
  }

  /**
   * Set of a non-nil value: the new handle is valid and maps the key to the
   * value, every other key as before; the previous value is returned, and the
   * count grows by one exactly when the key was absent.
   */
  lemma SetCorrect<V>(t: Trie<V>, key: Key, value: V)
    requires Valid(t)
    ensures var (t', prev) := Set(t, key, Some(value)).value;
            && Valid(t')
            && Contents(t') == Contents(t)[key := value]
            && prev == Lookup(Contents(t), key)
            && t'.count == if key in Contents(t) then t.count else t.count + 1
  {
    if t.root.Some? {
      var root := t.root.value;
      var n := FindBestLeaf(root, key);
      if key == n.key {
        SetLeafCorrect(root, key, value);
      } else {
        if key in Keys(root) {
          FindBestLeafFindsPresent(root, key);
        }
        InsertLeafCorrect(root, key, value, n.key);
      }
    }
  }

  /** After Set, Get finds the new value, and every other key reads as before. */
  lemma GetAfterSet<V>(t: Trie<V>, key: Key, value: V, other: Key)
    requires Valid(t) && other != key
    ensures Get(Set(t, key, Some(value)).value.0, key) == Some(value)
    ensures Get(Set(t, key, Some(value)).value.0, other) == Get(t, other)
  {
    SetCorrect(t, key, value);
    var t' := Set(t, key, Some(value)).value.0;
    GetCorrect(t', key);
    GetCorrect(t', other);
    GetCorrect(t, other);
  }

  /**
   * Delete: the new handle is valid and lacks the key; the removed value is
   * returned and the count drops by one. An absent key gives the same handle.
   */
  lemma DeleteCorrect<V>(t: Trie<V>, key: Key)
    requires Valid(t)
    ensures var (t', prev) := Delete(t, key);
            && Valid(t')
            && Contents(t') == Contents(t) - {key}
            && prev == Lookup(Contents(t), key)
            && (key in Contents(t) ==> t'.count == t.count - 1)
            && (key !in Contents(t) ==> t' == t)
  {
    if t.root.Some? {
      var root := t.root.value;
      if key in Keys(root) {
        FindBestLeafFindsPresent(root, key);
        DeleteLeafCorrect(root, key);
      }
    }
  }

  /** Deleting the only key gives the empty trie. */
  lemma DeleteLastKey<V>(t: Trie<V>, key: Key)
    requires Valid(t) && Contents(t).Keys == {key}
    ensures Delete(t, key).0 == NilTrie()
  {
    var root := t.root.value;
    LeafCountIsKeys(root);
    assert root.Leaf?;
  }
}
