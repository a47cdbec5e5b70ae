/**
 * The copy-on-write radix-256 trie of trie/trie.go. Every node carries its
 * full key prefix (keySlice), an optional value, and children indexed by the
 * next key byte. Writes rebuild the path from the root and share the rest.
 *
 * getNode and deleteNode are the corrected forms; RadixTrieAsWritten holds
 * the source's versions and inputs on which they go wrong.
 */
module RadixTrie {
  import opened Wrappers

  /** A key byte. */
  newtype byte = b: int | 0 <= b < 256

  type Key = seq<byte>

  /** A trie node (trie.go:11-18); a value of None is Go's nil. */
  datatype Node<V> = Node(value: Option<V>, keySlice: Key, children: map<byte, Node<V>>)

  /** The trie handle (trie.go:31-35). */
  datatype Trie<V> = Trie(root: Node<V>, count: int)

  /** isLeaf (trie.go:20-22): a node is a leaf when it holds a value. */
  predicate IsLeaf<V>(n: Node<V>) {
    n.value.Some?
  }

  /** `s` starts with `p`. */
  predicate Extends(s: Key, p: Key) {
    |p| <= |s| && s[..|p|] == p
  }

  //-- The abstract view --//

  /** A child stored under byte c of a node with prefix `ks` extends `ks` and has c next. */
  ghost predicate Fits<V>(ks: Key, c: byte, child: Node<V>) {
    |ks| < |child.keySlice| && Extends(child.keySlice, ks) && child.keySlice[|ks|] == c
  }

  /** The structural invariant every write preserves. */
  ghost predicate WellFormed<V>(n: Node<V>) {
    forall c :: c in n.children ==> Fits(n.keySlice, c, n.children[c]) && WellFormed(n.children[c])
  }

  /**
   * The value stored for key k below n: the value of the node whose keySlice
   * is k, reached by following k's bytes.
   */
  ghost function ValueAt<V>(n: Node<V>, k: Key): Option<V> {
    if k == n.keySlice then n.value
    else if |n.keySlice| < |k| && k[|n.keySlice|] in n.children then ValueAt(n.children[k[|n.keySlice|]], k)
    else None
  }

  /** The keys of all nodes below n that hold a value, wherever they sit. */
  ghost function KeySet<V>(n: Node<V>): set<Key> {
    (if n.value.Some? then {n.keySlice} else {}) +
    (set c, k | c in n.children && k in KeySet(n.children[c]) :: k)
  }

  /** A handle is valid when its root has the empty prefix and its count is the number of keys. */
  ghost predicate Valid<V>(t: Trie<V>) {
    t.root.keySlice == [] && WellFormed(t.root) && t.count == |KeySet(t.root)|
  }

  /** The map a handle stands for. */
  ghost function Contents<V>(t: Trie<V>): map<Key, V> {
    map k | k in KeySet(t.root) && ValueAt(t.root, k).Some? :: ValueAt(t.root, k).value
  }

  function Lookup<K, V>(m: map<K, V>, k: K): Option<V> {
    if k in m then Some(m[k]) else None
  }

  //-- Byte-slice helpers --//

  /** The first index at which two keys differ, or the shorter length. */
  function FirstDiff(left: Key, right: Key): (i: nat)
    ensures i <= |left| && i <= |right|
    ensures forall j :: 0 <= j < i ==> left[j] == right[j]
    ensures i < |left| && i < |right| ==> left[i] != right[i]
  {
    if |left| == 0 || |right| == 0 || left[0] != right[0] then 0
    else 1 + FirstDiff(left[1..], right[1..])
  }

  /** FirstDiff is determined by its contract. */
  lemma FirstDiffIs(left: Key, right: Key, i: nat)
    requires i <= |left| && i <= |right|
    requires forall j :: 0 <= j < i ==> left[j] == right[j]
    requires i < |left| && i < |right| ==> left[i] != right[i]
    ensures FirstDiff(left, right) == i
  {
  }

  lemma FirstDiffSymmetric(left: Key, right: Key)
    ensures FirstDiff(left, right) == FirstDiff(right, left)
  {
    FirstDiffIs(right, left, FirstDiff(left, right));
  }

  /** Comparing two keys after a common prefix only shifts the result. */
  lemma FirstDiffAfterPrefix(a: Key, b: Key, p: nat)
    requires p <= |a| && p <= |b| && a[..p] == b[..p]
    ensures FirstDiff(a[p..], b[p..]) + p == FirstDiff(a, b)
  {
    var f := FirstDiff(a[p..], b[p..]);
    forall j | 0 <= j < f + p
      ensures a[j] == b[j]
    {
      if j < p {
        assert a[..p][j] == b[..p][j];
      } else {
        assert a[p..][j - p] == b[p..][j - p];
      }
    }
    if f + p < |a| && f + p < |b| {
      assert a[p..][f] != b[p..][f];
    }
    FirstDiffIs(a, b, f + p);
  }

  /** firstDiffIndex (trie.go:245-261). */
  method FirstDiffIndex(left: Key, right: Key) returns (i: nat)
    ensures i == FirstDiff(left, right)
  {
    var longer, shorter := right, left;
    if |left| > |right| {
      longer, shorter := left, right;
    }
    i := 0;
    while i < |shorter|
      invariant i <= |shorter| <= |longer|
      invariant forall j :: 0 <= j < i ==> longer[j] == shorter[j]
    {
      if longer[i] != shorter[i] {
        FirstDiffIs(left, right, i);
        return;
      }
      i := i + 1;
    }
    FirstDiffIs(left, right, i);
  }

  /** startsWith (trie.go:236-243); the caller guarantees `longer` is long enough. */
  method StartsWith(longer: Key, prefix: Key) returns (b: bool)
    requires |prefix| <= |longer|
    ensures b <==> Extends(longer, prefix)
  {
    var i := 0;
    while i < |prefix|
      invariant i <= |prefix|
      invariant longer[..i] == prefix[..i]
    {
      if longer[i] != prefix[i] {
        assert longer[..|prefix|][i] != prefix[i];
        return false;
      }
      assert longer[..i + 1] == longer[..i] + [longer[i]];
      assert prefix[..i + 1] == prefix[..i] + [prefix[i]];
      i := i + 1;
    }
    assert prefix[..i] == prefix;
    return true;
  }

  /** copyMap (trie.go:228-234): a fresh map with the same entries. */
  method CopyMap<V>(m: map<byte, Node<V>>) returns (r: map<byte, Node<V>>)
    ensures r == m
  {
    r := map[];
    var rest := m.Keys;
    while rest != {}
      invariant rest <= m.Keys
      invariant r.Keys == m.Keys - rest
      invariant forall k :: k in r ==> r[k] == m[k]
      decreases |rest|
    {
      var k :| k in rest;
      r := r[k := m[k]];
      rest := rest - {k};
    }
    assert r.Keys == m.Keys;
  }

  /** The loop of deleteNode that copies every child but one (trie.go:313-319). */
  method RemoveChild<V>(m: map<byte, Node<V>>, key: byte) returns (r: map<byte, Node<V>>)
    ensures r == m - {key}
  {
    r := map[];
    var rest := m.Keys;
    while rest != {}
      invariant rest <= m.Keys
      invariant r.Keys == m.Keys - rest - {key}
      invariant forall k :: k in r ==> r[k] == m[k]
      decreases |rest|
    {
      var k :| k in rest;
      if k != key {
        r := r[k := m[k]];
      }
      rest := rest - {k};
    }
    assert forall k :: k in r <==> k in m && k != key;
  }

  //-- The handle's operations --//

  /** NilTrie (trie.go:37-48): a valueless root with no children. */
  function NilTrie<V>(): (t: Trie<V>)
    ensures Valid(t) && Contents(t) == map[]
  {
    Trie(Node(None, [], map[]), 0)
  }

  /** Trie.Len (trie.go:103-105). */
  function Len<V>(t: Trie<V>): int {
    t.count
  }

  /** Trie.Get (trie.go:90-100): the empty key reads the root. */
  function Get<V>(t: Trie<V>, key: Key): Option<V> {
    if |key| == 0 then t.root.value
    else
      match GetNode(t.root, key)
      case None => None
      case Some(n) => n.value
  }

  /**
   * Set (trie.go:52-86): the new handle and the previous value. A nil value
   * panics; the empty key stores the value at the root.
   */
  function Set<V>(t: Trie<V>, key: Key, value: Option<V>): (r: Outcome<(Trie<V>, Option<V>)>)
    requires t.root.keySlice == [] && WellFormed(t.root)
    ensures r.Panicked? <==> value.None?
  {
    if value.None? then Panicked("value cannot be nil")
    else if |key| == 0 then
      var count := if IsLeaf(t.root) then t.count else t.count + 1;
      Returned((Trie(Node(value, [], t.root.children), count), t.root.value))
    else
      var (newNode, prev) := SetNode(t.root, key, value.value);
      var count := if prev.None? then t.count + 1 else t.count;
      Returned((Trie(newNode, count), prev))
  }

  /**
   * Delete (trie.go:109-133): the new handle and the removed value. Whether
   * deleteNode changed anything is told by the value it returns.
   */
  function Delete<V>(t: Trie<V>, key: Key): (Trie<V>, Option<V>) {
    if |key| == 0 then
      if IsLeaf(t.root) then (Trie(Node(None, [], t.root.children), t.count - 1), t.root.value)
      else (t, None)
    else
      var (newRoot, prev) := DeleteNode(t.root, key);
      if prev.Some? then (Trie(newRoot, t.count - 1), prev) else (t, None)
  }

  //-- The node-level recursions --//

  /**
   * getNode (trie.go:344-361), corrected: a key no longer than the node's
   * prefix is not found below it.
   */
  function GetNode<V>(n: Node<V>, key: Key): (r: Option<Node<V>>)
    ensures r.Some? ==> r.value.keySlice == key
  {
    if |key| <= |n.keySlice| then None
    else
      var c := key[|n.keySlice|];
      if c !in n.children then None
      else
        var child := n.children[c];
        if child.keySlice == key then Some(child) else GetNode(child, key)
  }

  /**
   * setNode (trie.go:136-222): add or replace the value of a key that extends
   * the node's prefix. The two debug panics (trie.go:184-190) cannot fire on a
   * well-formed node and are not modelled.
   */
  function SetNode<V>(t: Node<V>, key: Key, value: V): (r: (Node<V>, Option<V>))
    requires WellFormed(t) && |t.keySlice| < |key| && Extends(key, t.keySlice)
    ensures r.0.keySlice == t.keySlice
    decreases t
  {
    var p := |t.keySlice|;
    var c := key[p];
    if c !in t.children then
      (Node(t.value, t.keySlice, t.children[c := Node(Some(value), key, map[])]), None)
    else
      var child := t.children[c];
      var idx := FirstDiff(child.keySlice[p..], key[p..]) + p;
      if idx == |key| then
        if idx == |child.keySlice| then
          (Node(t.value, t.keySlice, t.children[c := Node(Some(value), key, child.children)]), child.value)
        else
          (Node(t.value, t.keySlice, t.children[c := Node(Some(value), key, map[child.keySlice[idx] := child])]), None)
      else if idx == |child.keySlice| then
        PrefixOfBoth(key, child.keySlice, t.keySlice, idx);
        var (n, prev) := SetNode(child, key, value);
        (Node(t.value, t.keySlice, t.children[c := n]), prev)
      else
        var split := FirstDiff(child.keySlice, key);
        var newChild := Node(None, key[..split],
                             map[child.keySlice[split] := child, key[split] := Node(Some(value), key, map[])]);
        (Node(t.value, t.keySlice, t.children[c := newChild]), None)
  }

  /** Two keys that extend a prefix and agree after it up to idx agree below idx. */
  lemma PrefixOfBoth(key: Key, ks: Key, pre: Key, idx: nat)
    requires Extends(key, pre) && Extends(ks, pre)
    requires |pre| <= idx <= |key| && idx <= |ks|
    requires idx == FirstDiff(ks[|pre|..], key[|pre|..]) + |pre|
    ensures key[..idx] == ks[..idx]
    ensures idx == |ks| ==> Extends(key, ks)
  {
    var p := |pre|;
    forall j | 0 <= j < idx
      ensures key[j] == ks[j]
    {
      if j < p {
        assert key[..p][j] == ks[..p][j];
      } else {
        assert ks[p..][j - p] == key[p..][j - p];
      }
    }
  }

  /** The only child of a node with exactly one child. */
  function OnlyChild<V>(m: map<byte, Node<V>>): (n: Node<V>)
    requires |m| == 1
    ensures exists l :: l in m && m == map[l := n]
  {
    SingleKey(m);
    var l :| l in m && forall l' :: l' in m ==> l' == l;
    assert m == map[l := m[l]];
    m[l]
  }

  lemma SingleKey<V>(m: map<byte, Node<V>>)
    requires |m| == 1
    ensures exists l :: l in m && forall l' :: l' in m ==> l' == l
  {
    var l :| l in m.Keys;
    assert m.Keys == {l} by {
      assert |m.Keys - {l}| == 0;
    }
  }

  /**
   * deleteNode (trie.go:263-341), corrected: the whole key is compared, a
   * merged grandchild keeps its siblings, and a rebuilt ancestor keeps its own
   * value and prefix.
   */
  function DeleteNode<V>(t: Node<V>, key: Key): (r: (Node<V>, Option<V>))
    ensures r.1.None? ==> r.0 == t
    ensures r.0.keySlice == t.keySlice
  {
    var p := |t.keySlice|;
    if |key| <= p then (t, None)
    else
      var c := key[p];
      if c !in t.children then (t, None)
      else
        var child := t.children[c];
        if child.keySlice == key then
          if !IsLeaf(child) then (t, None)
          else if |child.children| > 1 then
            (Node(t.value, t.keySlice, t.children[c := Node(None, child.keySlice, child.children)]), child.value)
          else if |child.children| == 1 then
            (Node(t.value, t.keySlice, t.children[c := OnlyChild(child.children)]), child.value)
          else
            (Node(t.value, t.keySlice, t.children - {c}), child.value)
        else
          var (newChild, prev) := DeleteNode(child, key);
          if prev.None? then (t, None)
          else (Node(t.value, t.keySlice, t.children[c := newChild]), prev)
  }

  //-- Lemmas about the abstract view --//

  /** Only keys that extend a node's prefix are found below it. */
  lemma {:induction false} ValueAtExtends<V>(n: Node<V>, k: Key)
    requires WellFormed(n) && ValueAt(n, k).Some?
    ensures Extends(k, n.keySlice)
  {
    if k != n.keySlice {
      var c := k[|n.keySlice|];
      var child := n.children[c];
      ValueAtExtends(child, k);
      assert k[..|n.keySlice|] == child.keySlice[..|child.keySlice|][..|n.keySlice|];
    }
  }

  /** Following a key's bytes finds exactly the stored keys. */
  lemma {:induction false} KeySetIsFound<V>(n: Node<V>, k: Key)
    requires WellFormed(n)
    ensures k in KeySet(n) <==> ValueAt(n, k).Some?
  {
    if ValueAt(n, k).Some? && k != n.keySlice {
      var c := k[|n.keySlice|];
      KeySetIsFound(n.children[c], k);
    }
    if k in KeySet(n) && !(n.value.Some? && k == n.keySlice) {
      var c :| c in n.children && k in KeySet(n.children[c]);
      var child := n.children[c];
      KeySetIsFound(child, k);
      ValueAtExtends(child, k);
      assert k[|n.keySlice|] == child.keySlice[|n.keySlice|];
    }
  }

  /** Under the invariant the map view answers as ValueAt does. */
  lemma ContentsIsValueAt<V>(t: Trie<V>, k: Key)
    requires WellFormed(t.root)
    ensures Lookup(Contents(t), k) == ValueAt(t.root, k)
  {
    KeySetIsFound(t.root, k);
  }

  /** The map view has exactly the keys of KeySet. */
  lemma ContentsKeys<V>(t: Trie<V>)
    requires WellFormed(t.root)
    ensures Contents(t).Keys == KeySet(t.root)
  {
    forall k | k in KeySet(t.root)
      ensures k in Contents(t)
    {
      KeySetIsFound(t.root, k);
    }
  }

  /** Two handles whose roots answer alike stand for the same map. */
  lemma SameContents<V>(t: Trie<V>, t': Trie<V>, m: map<Key, V>)
    requires WellFormed(t.root) && WellFormed(t'.root)
    requires forall k :: ValueAt(t'.root, k) == Lookup(m, k)
    ensures Contents(t') == m
  {
    forall k
      ensures Lookup(Contents(t'), k) == Lookup(m, k)
    {
      ContentsIsValueAt(t', k);
    }
    assert forall k :: k in Contents(t') <==> k in m by {
      forall k
        ensures k in Contents(t') <==> k in m
      {
        assert Lookup(Contents(t'), k) == Lookup(m, k);
      }
    }
    forall k | k in m
      ensures Contents(t')[k] == m[k]
    {
      assert Lookup(Contents(t'), k) == Lookup(m, k);
    }
  }

  //-- Lemmas about one child replaced --//

  /** r stores newValue for key and agrees with n on every other key. */
  ghost predicate ChangesOneKey<V>(r: Node<V>, n: Node<V>, key: Key, newValue: Option<V>) {
    forall k :: ValueAt(r, k) == if k == key then newValue else ValueAt(n, k)
  }

  /**
   * Replacing the child under byte c changes what is found only for keys that
   * lead through c.
   */
  lemma ReplaceChild<V>(t: Node<V>, c: byte, nc: Node<V>, k: Key)
    ensures ValueAt(Node(t.value, t.keySlice, t.children[c := nc]), k) ==
            if k == t.keySlice then t.value
            else if |t.keySlice| < |k| && k[|t.keySlice|] == c then ValueAt(nc, k)
            else ValueAt(t, k)
  {
  }

  lemma RemoveChildAt<V>(t: Node<V>, c: byte, k: Key)
    ensures ValueAt(Node(t.value, t.keySlice, t.children - {c}), k) ==
            if k == t.keySlice then t.value
            else if |t.keySlice| < |k| && k[|t.keySlice|] == c then None
            else ValueAt(t, k)
  {
  }

  /** What is found below byte `c` of t for keys leading through it, before any change. */
  ghost function Below<V>(t: Node<V>, c: byte, k: Key): Option<V> {
    if c in t.children then ValueAt(t.children[c], k) else None
  }

  /**
   * If the new child under key's next byte changes the value of key alone,
   * the rebuilt node changes the value of key alone.
   */
  lemma ChildChangesOneKey<V>(t: Node<V>, key: Key, newValue: Option<V>, nc: Node<V>, r: Node<V>)
    requires |t.keySlice| < |key|
    requires forall k :: ValueAt(nc, k) == if k == key then newValue else Below(t, key[|t.keySlice|], k)
    requires r == Node(t.value, t.keySlice, t.children[key[|t.keySlice|] := nc])
    ensures ChangesOneKey(r, t, key, newValue)
  {
    forall k
      ensures ValueAt(r, k) == if k == key then newValue else ValueAt(t, k)
    {
      ReplaceChild(t, key[|t.keySlice|], nc, k);
    }
  }

  lemma ChildFitsWellFormed<V>(t: Node<V>, c: byte, nc: Node<V>)
    requires WellFormed(t) && Fits(t.keySlice, c, nc) && WellFormed(nc)
    ensures WellFormed(Node(t.value, t.keySlice, t.children[c := nc]))
  {
  }

  //-- Set --//

  /** A new node with a value above an existing child whose prefix extends the key. */
  lemma LeafAbove<V>(key: Key, value: V, child: Node<V>)
    requires WellFormed(child) && |key| < |child.keySlice| && Extends(child.keySlice, key)
    ensures var n := Node(Some(value), key, map[child.keySlice[|key|] := child]);
            && WellFormed(n)
            && forall k :: ValueAt(n, k) == if k == key then Some(value) else ValueAt(child, k)
  {
    var n := Node(Some(value), key, map[child.keySlice[|key|] := child]);
    forall k
      ensures ValueAt(n, k) == if k == key then Some(value) else ValueAt(child, k)
    {
      if k != key && ValueAt(child, k).Some? {
        ValueAtExtends(child, k);
        assert k[..|key|] == child.keySlice[..|child.keySlice|][..|key|];
      }
    }
  }

  /** A valueless node splitting an existing child from a new leaf at their first difference. */
  lemma SplitNode<V>(key: Key, value: V, child: Node<V>, split: nat)
    requires WellFormed(child)
    requires split < |key| && split < |child.keySlice|
    requires key[..split] == child.keySlice[..split] && key[split] != child.keySlice[split]
    ensures var n := Node(None, key[..split],
                          map[child.keySlice[split] := child, key[split] := Node(Some(value), key, map[])]);
            && WellFormed(n)
            && forall k :: ValueAt(n, k) == if k == key then Some(value) else ValueAt(child, k)
  {
    var leaf := Node(Some(value), key, map[]);
    var n := Node(None, key[..split], map[child.keySlice[split] := child, key[split] := leaf]);
    assert Fits(n.keySlice, key[split], leaf);
    assert Fits(n.keySlice, child.keySlice[split], child);
    forall k
      ensures ValueAt(n, k) == if k == key then Some(value) else ValueAt(child, k)
    {
      if ValueAt(child, k).Some? {
        ValueAtExtends(child, k);
        assert k[split] == child.keySlice[split];
      }
    }
  }

  /**
   * setNode on a well-formed node: the result is well formed, keeps the
   * prefix, returns the previous value of the key and changes that key alone.
   */
  lemma {:induction false} SetNodeCorrect<V>(t: Node<V>, key: Key, value: V)
    requires WellFormed(t) && |t.keySlice| < |key| && Extends(key, t.keySlice)
    ensures var (r, prev) := SetNode(t, key, value);
            && WellFormed(r)
            && prev == ValueAt(t, key)
            && ChangesOneKey(r, t, key, Some(value))
    decreases t
  {
    var p := |t.keySlice|;
    var c := key[p];
    var (r, prev) := SetNode(t, key, value);
    if c !in t.children {
      var leaf := Node(Some(value), key, map[]);
      ChildChangesOneKey(t, key, Some(value), leaf, r);
      ChildFitsWellFormed(t, c, leaf);
    } else {
      var child := t.children[c];
      var idx := FirstDiff(child.keySlice[p..], key[p..]) + p;
      PrefixOfBoth(key, child.keySlice, t.keySlice, idx);
      if idx == |key| {
        if idx == |child.keySlice| {
          assert key == child.keySlice;
          var n := Node(Some(value), key, child.children);
          ChildChangesOneKey(t, key, Some(value), n, r);
          ChildFitsWellFormed(t, c, n);
        } else {
          assert key == child.keySlice[..idx];
          LeafAbove(key, value, child);
          var n := Node(Some(value), key, map[child.keySlice[idx] := child]);
          ChildChangesOneKey(t, key, Some(value), n, r);
          ChildFitsWellFormed(t, c, n);
          if ValueAt(child, key).Some? {
            ValueAtExtends(child, key);
          }
        }
      } else if idx == |child.keySlice| {
        SetNodeCorrect(child, key, value);
        var (n, _) := SetNode(child, key, value);
        ChildChangesOneKey(t, key, Some(value), n, r);
        ChildFitsWellFormed(t, c, n);
      } else {
        SetNodeSplits(t, key, value);
      }
    }
  }

  /** The branch of setNode that splits a child at the first difference (trie.go:197-211). */
  lemma SetNodeSplits<V>(t: Node<V>, key: Key, value: V)
    requires WellFormed(t) && |t.keySlice| < |key| && Extends(key, t.keySlice)
    requires key[|t.keySlice|] in t.children
    requires var child := t.children[key[|t.keySlice|]];
             var idx := FirstDiff(child.keySlice[|t.keySlice|..], key[|t.keySlice|..]) + |t.keySlice|;
             idx != |key| && idx != |child.keySlice|
    ensures var (r, prev) := SetNode(t, key, value);
            && WellFormed(r)
            && prev == ValueAt(t, key)
            && ChangesOneKey(r, t, key, Some(value))
  {
    var p := |t.keySlice|;
    var c := key[p];
    var child := t.children[c];
    var split := FirstDiff(child.keySlice, key);
    SplitPoint(t.keySlice, child.keySlice, key);
    var newChild := Node(None, key[..split],
                         map[child.keySlice[split] := child, key[split] := Node(Some(value), key, map[])]);
    var r := Node(t.value, t.keySlice, t.children[c := newChild]);
    assert SetNode(t, key, value) == (r, None);
    SplitNode(key, value, child, split);
    ChildChangesOneKey(t, key, Some(value), newChild, r);
    ChildFitsWellFormed(t, c, newChild);
    if ValueAt(child, key).Some? {
      ValueAtExtends(child, key);
    }
  }

  /**
   * Two keys that extend a prefix and agree on the byte after it first differ
   * beyond it, where the offset search of setNode finds the same index.
   */
  lemma SplitPoint(pre: Key, ks: Key, key: Key)
    requires Extends(ks, pre) && Extends(key, pre) && |pre| < |ks| && |pre| < |key|
    requires ks[|pre|] == key[|pre|]
    ensures var f := FirstDiff(ks, key);
            && f == FirstDiff(ks[|pre|..], key[|pre|..]) + |pre|
            && |pre| < f
            && key[..f] == ks[..f]
            && Extends(key[..f], pre)
  {
    var p := |pre|;
    assert ks[..p] == key[..p];
    FirstDiffAfterPrefix(ks, key, p);
    assert ks[p..][0] == key[p..][0];
    var f := FirstDiff(ks, key);
    assert key[..f][..p] == key[..p];
  }

  /** The map with key set to newValue, or removed when it is None. */
  ghost function Changed<V>(m: map<Key, V>, key: Key, newValue: Option<V>): (r: map<Key, V>)
    ensures forall k :: Lookup(r, k) == if k == key then newValue else Lookup(m, k)
  {
    if newValue.Some? then m[key := newValue.value] else m - {key}
  }

  /**
   * A root that changes one key's value, all others unchanged, stands for the
   * map with that key changed.
   */
  lemma RootChangesOneKey<V>(t: Trie<V>, root: Node<V>, key: Key, newValue: Option<V>)
    requires Valid(t) && WellFormed(root)
    requires ChangesOneKey(root, t.root, key, newValue)
    ensures Contents(Trie(root, 0)) == Changed(Contents(t), key, newValue)
    ensures |KeySet(root)| == |Changed(Contents(t), key, newValue)|
  {
    var m := Changed(Contents(t), key, newValue);
    forall k
      ensures ValueAt(root, k) == Lookup(m, k)
    {
      ContentsIsValueAt(t, k);
    }
    var t' := Trie(root, 0);
    SameContents(t, t', m);
    ContentsKeys(t');
    assert |KeySet(root)| == |Contents(t').Keys|;
  }

  /** The count a Set or Delete computes is the size of the new map. */
  lemma CountChanges<V>(t: Trie<V>, key: Key, newValue: Option<V>)
    requires Valid(t)
    ensures |Changed(Contents(t), key, newValue)| ==
            if newValue.Some? then (if key in Contents(t) then t.count else t.count + 1)
            else (if key in Contents(t) then t.count - 1 else t.count)
  {
    ContentsKeys(t);
  }

  /**
   * Set of a non-nil value: the new handle is valid and maps the key to the
   * value, every other key as before; the previous value is returned, and the
   * count grows by one exactly when the key was absent. The empty key keeps
   * the root's children.
   */
  lemma SetCorrect<V>(t: Trie<V>, key: Key, value: V)
    requires Valid(t)
    ensures var (t', prev) := Set(t, key, Some(value)).value;
            && Valid(t')
            && Contents(t') == Contents(t)[key := value]
            && prev == Lookup(Contents(t), key)
            && t'.count == (if key in Contents(t) then t.count else t.count + 1)
            && (|key| == 0 ==> t'.root.children == t.root.children)
  {
    var (t', prev) := Set(t, key, Some(value)).value;
    var root := t'.root;
    ContentsIsValueAt(t, key);
    if |key| == 0 {
      assert root == Node(Some(value), [], t.root.children);
      assert ChangesOneKey(root, t.root, key, Some(value));
    } else {
      SetNodeCorrect(t.root, key, value);
    }
    RootChangesOneKey(t, root, key, Some(value));
    CountChanges(t, key, Some(value));
    assert Contents(t') == Contents(Trie(root, 0));
  }

  //-- Get --//

  /** getNode answers as ValueAt for a key other than the node's own prefix. */
  lemma {:induction false} GetNodeCorrect<V>(n: Node<V>, key: Key)
    requires key != n.keySlice
    ensures (match GetNode(n, key) case None => None case Some(m) => m.value) == ValueAt(n, key)
  {
    if |key| > |n.keySlice| && key[|n.keySlice|] in n.children {
      var child := n.children[key[|n.keySlice|]];
      if child.keySlice != key {
        GetNodeCorrect(child, key);
      }
    }
  }

  /** Get answers from the handle's contents. */
  lemma GetCorrect<V>(t: Trie<V>, key: Key)
    requires Valid(t)
    ensures Get(t, key) == Lookup(Contents(t), key)
  {
    ContentsIsValueAt(t, key);
    if |key| != 0 {
      GetNodeCorrect(t.root, key);
    }
  }

  /** After Set, Get finds the new value, and every other key reads as before. */
  lemma GetAfterSet<V>(t: Trie<V>, key: Key, value: V, other: Key)
    requires Valid(t) && other != key
    ensures Get(Set(t, key, Some(value)).value.0, key) == Some(value)
    ensures Get(Set(t, key, Some(value)).value.0, other) == Get(t, other)
  {
    SetCorrect(t, key, value);
    var t' := Set(t, key, Some(value)).value.0;
    GetCorrect(t', key);
    GetCorrect(t', other);
    GetCorrect(t, other);
  }

  /** Len is the number of pairs. */
  lemma LenIsSize<V>(t: Trie<V>)
    requires Valid(t)
    ensures Len(t) == |Contents(t)|
  {
    ContentsKeys(t);
  }

  //-- Delete --//

  /** Merging a leaf with its only child: the grandchild takes its place. */
  lemma MergeOnlyChild<V>(child: Node<V>)
    requires WellFormed(child) && |child.children| == 1
    ensures var g := OnlyChild(child.children);
            && WellFormed(g)
            && |child.keySlice| < |g.keySlice| && Extends(g.keySlice, child.keySlice)
            && forall k :: ValueAt(g, k) == if k == child.keySlice then None else ValueAt(child, k)
  {
    var g := OnlyChild(child.children);
    var l :| l in child.children && child.children == map[l := g];
    assert Fits(child.keySlice, l, g);
    forall k
      ensures ValueAt(g, k) == if k == child.keySlice then None else ValueAt(child, k)
    {
      if ValueAt(g, k).Some? {
        ValueAtExtends(g, k);
        assert k[|child.keySlice|] == g.keySlice[|child.keySlice|];
      }
    }
  }

  /**
   * deleteNode on a well-formed node, for a key other than its own prefix:
   * the result is well formed, returns the key's value and removes that key
   * alone.
   */
  lemma {:induction false} DeleteNodeCorrect<V>(t: Node<V>, key: Key)
    requires WellFormed(t) && key != t.keySlice
    ensures var (r, prev) := DeleteNode(t, key);
            && WellFormed(r)
            && prev == ValueAt(t, key)
            && ChangesOneKey(r, t, key, None)
  {
    var (r, prev) := DeleteNode(t, key);
    var p := |t.keySlice|;
    if |key| > p && key[p] in t.children {
      var c := key[p];
      var child := t.children[c];
      if child.keySlice == key {
        if IsLeaf(child) {
          if |child.children| > 1 {
            var n := Node(None, child.keySlice, child.children);
            ChildChangesOneKey(t, key, None, n, r);
            ChildFitsWellFormed(t, c, n);
          } else if |child.children| == 1 {
            MergeOnlyChild(child);
            var g := OnlyChild(child.children);
            assert Fits(t.keySlice, c, g) by {
              assert g.keySlice[..p] == g.keySlice[..|child.keySlice|][..p];
              assert g.keySlice[p] == g.keySlice[..|child.keySlice|][p];
            }
            ChildChangesOneKey(t, key, None, g, r);
            ChildFitsWellFormed(t, c, g);
          } else {
            forall k
              ensures ValueAt(Node(t.value, t.keySlice, t.children - {c}), k) ==
                      if k == key then None else ValueAt(t, k)
            {
              RemoveChildAt(t, c, k);
            }
          }
        }
      } else {
        DeleteNodeCorrect(child, key);
        var (n, prev) := DeleteNode(child, key);
        if prev.Some? {
          ChildChangesOneKey(t, key, None, n, r);
          ChildFitsWellFormed(t, c, n);
        }
      }
    }
  }

  /**
   * Delete: the new handle is valid and lacks the key; the removed value is
   * returned and the count drops by one. An absent key gives the same handle.
   */
  lemma DeleteCorrect<V>(t: Trie<V>, key: Key)
    requires Valid(t)
    ensures var (t', prev) := Delete(t, key);
            && Valid(t')
            && Contents(t') == Contents(t) - {key}
            && prev == Lookup(Contents(t), key)
            && (key in Contents(t) ==> t'.count == t.count - 1)
            && (key !in Contents(t) ==> t' == t)
  {
    var (t', prev) := Delete(t, key);
    var root := t'.root;
    ContentsIsValueAt(t, key);
    if |key| == 0 {
      if IsLeaf(t.root) {
        assert root == Node(None, [], t.root.children);
        assert ChangesOneKey(root, t.root, key, None);
      }
    } else {
      DeleteNodeCorrect(t.root, key);
    }
    RootChangesOneKey(t, root, key, None);
    CountChanges(t, key, None);
    assert Contents(t') == Contents(Trie(root, 0));
  }

  /** After Delete, Get misses the key, and every other key reads as before. */
  lemma GetAfterDelete<V>(t: Trie<V>, key: Key, other: Key)
    requires Valid(t) && other != key
    ensures Get(Delete(t, key).0, key) == None
    ensures Get(Delete(t, key).0, other) == Get(t, other)
  {
    DeleteCorrect(t, key);
    var t' := Delete(t, key).0;
    GetCorrect(t', key);
    GetCorrect(t', other);
    GetCorrect(t, other);
  }

  /** Delete of an absent key gives back the same handle and no value. */
  lemma DeleteAbsent<V>(t: Trie<V>, key: Key)
    requires Valid(t) && key !in Contents(t)
    ensures Delete(t, key) == (t, None)
  {
    DeleteCorrect(t, key);
  }
}
