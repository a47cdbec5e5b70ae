/**
 * getNode and deleteNode of trie/trie.go as written, with inputs on which
 * they go wrong. RadixTrie uses the corrected forms.
 */
module RadixTrieAsWritten {
  import opened Wrappers
  import opened RadixTrie

  /** getNode (trie.go:344-361) as written: a key as long as the node's prefix is indexed past its end. */
  function GetNodeAsWritten<V>(n: Node<V>, key: Key): (r: Outcome<Option<Node<V>>>)
    ensures r.Returned? ==> r.value == GetNode(n, key)
  {
    if |key| < |n.keySlice| then Returned(None)
    else if |key| == |n.keySlice| then Panicked("index out of range")
    else
      var c := key[|n.keySlice|];
      if c !in n.children then Returned(None)
      else
        var child := n.children[c];
        if child.keySlice == key then Returned(Some(child)) else GetNodeAsWritten(child, key)
  }

  /** Trie.Get (trie.go:90-100) calling the as-written getNode. */
  function GetAsWritten<V>(t: Trie<V>, key: Key): (r: Outcome<Option<V>>)
    ensures r.Returned? ==> r.value == Get(t, key)
  {
    if |key| == 0 then Returned(t.root.value)
    else
      match GetNodeAsWritten(t.root, key)
      case Panicked(msg) => Panicked(msg)
      case Returned(None) => Returned(None)
      case Returned(Some(n)) => Returned(n.value)
  }

  /**
   * deleteNode (trie.go:263-341) as written: it indexes a key as long as the
   * node's prefix, compares only the key's suffix after the node's prefix,
   * keeps only the grandchild when merging a one-child leaf, and gives a
   * rebuilt ancestor no value and an empty prefix.
   */
  function DeleteNodeAsWritten<V>(t: Node<V>, key: Key): (r: Outcome<(Node<V>, Option<V>)>)
    ensures r.Returned? && r.value.1.None? ==> r.value.0 == t
  {
    var p := |t.keySlice|;
    if |key| < p then Returned((t, None))
    else if |key| == p then Panicked("index out of range")
    else
      var c := key[p];
      if c !in t.children then Returned((t, None))
      else
        var child := t.children[c];
        if |child.keySlice| < p then Panicked("slice bounds out of range")
        else if child.keySlice[p..] == key[p..] then
          if !IsLeaf(child) then Returned((t, None))
          else if |child.children| > 1 then
            Returned((Node(t.value, t.keySlice, t.children[c := Node(None, child.keySlice, child.children)]), child.value))
          else if |child.children| == 1 then
            Returned((Node(t.value, t.keySlice, map[c := OnlyChild(child.children)]), child.value))
          else
            Returned((Node(t.value, t.keySlice, t.children - {c}), child.value))
        else
          match DeleteNodeAsWritten(child, key)
          case Panicked(msg) => Panicked(msg)
          case Returned((newChild, prev)) =>
            if prev.None? then Returned((t, None))
            else Returned((Node(None, [], t.children[c := newChild]), prev))
  }

  /** Delete (trie.go:109-133) calling the as-written deleteNode. */
  function DeleteAsWritten<V>(t: Trie<V>, key: Key): (r: Outcome<(Trie<V>, Option<V>)>)
    ensures |key| == 0 ==> r == Returned(Delete(t, key))
  {
    if |key| == 0 then Returned(Delete(t, key))
    else
      match DeleteNodeAsWritten(t.root, key)
      case Panicked(msg) => Panicked(msg)
      case Returned((newRoot, prev)) =>
        if prev.Some? then Returned((Trie(newRoot, t.count - 1), prev)) else Returned((t, None))
  }

  /** Set of a non-nil value on a valid handle, which stays valid. */
  function Put<V>(t: Trie<V>, key: Key, value: V): (r: Trie<V>)
    requires Valid(t)
    ensures Valid(r) && Contents(r) == Contents(t)[key := value]
    ensures r.root == if |key| == 0 then Node(Some(value), [], t.root.children) else SetNode(t.root, key, value).0
  {
    SetCorrect(t, key, value);
    Set(t, key, Some(value)).value.0
  }

  //-- getNode indexing past the key (trie.go:344-361) --//

  lemma StoreXZ()
    ensures SetNode(Node(None, [], map[]), [0x78, 0x7A], 1).0 ==
            Node(None, [], map[0x78 := Node(Some(1), [0x78, 0x7A], map[])])
  {
  }

  /**
   * With "xz" stored, looking up "xy" reaches the node of "xz" with a key of
   * the same length, and getNode as written indexes past the key's end.
   */
  lemma AsWrittenGetPanics()
    ensures var t := Put(NilTrie(), [0x78, 0x7A], 1);
            && GetAsWritten(t, [0x78, 0x79]).Panicked?
            && Get(t, [0x78, 0x79]) == None
  {
    var t := Put(NilTrie(), [0x78, 0x7A], 1);
    StoreXZ();
    assert GetNodeAsWritten(Node(Some(1), [0x78, 0x7A], map[]), [0x78, 0x79]).Panicked?;
    var xy: Key := [0x78, 0x79];
    var xz: Key := [0x78, 0x7A];
    assert xy != xz by { assert xy[1] != xz[1]; }
    assert Contents(t) == map[xz := 1];
    GetCorrect(t, [0x78, 0x79]);
  }

  //-- deleteNode indexing past the key (trie.go:269) --//

  /**
   * With "xz" stored, deleting "xy" recurses into the node of "xz" with a key
   * of the same length, and deleteNode as written indexes past the key's end;
   * the corrected Delete leaves the trie as it is.
   */
  lemma AsWrittenDeletePanics()
    ensures var t := Put(NilTrie(), [0x78, 0x7A], 1);
            && DeleteAsWritten(t, [0x78, 0x79]).Panicked?
            && Delete(t, [0x78, 0x79]) == (t, None)
  {
    var t := Put(NilTrie(), [0x78, 0x7A], 1);
    StoreXZ();
    var xy: Key := [0x78, 0x79];
    var xz: Key := [0x78, 0x7A];
    assert xy[1..] != xz[1..];
    assert DeleteNodeAsWritten(Node(Some(1), xz, map[]), xy).Panicked?;
    assert xy != xz by { assert xy[1] != xz[1]; }
    assert Contents(t) == map[xz := 1];
    DeleteAbsent(t, xy);
  }

  //-- deleteNode merging one child (trie.go:300-310) --//

  lemma StoreAB()
    ensures SetNode(Node(None, [], map[0x61 := Node(Some(1), [0x61], map[])]), [0x61, 0x62], 2).0 ==
            Node(None, [], map[0x61 := Node(Some(1), [0x61], map[0x62 := Node(Some(2), [0x61, 0x62], map[])])])
  {
    var a: Key := [0x61];
    var ab: Key := [0x61, 0x62];
    var n1 := Node(Some(1), a, map[]);
    var n1' := Node(Some(1), a, map[0x62 := Node(Some(2), ab, map[])]);
    assert FirstDiff(a, ab) == 1;
    assert a[0..] == a && ab[0..] == ab;
    assert SetNode(n1, ab, 2) == (n1', None);
    assert map[0x61 := n1][0x61 := n1'] == map[0x61 := n1'];
  }

  lemma StoreB()
    ensures SetNode(Node(None, [], map[0x61 := Node(Some(1), [0x61], map[0x62 := Node(Some(2), [0x61, 0x62], map[])])]), [0x62], 3).0 ==
            Node(None, [], map[0x61 := Node(Some(1), [0x61], map[0x62 := Node(Some(2), [0x61, 0x62], map[])]),
                               0x62 := Node(Some(3), [0x62], map[])])
  {
  }

  /** The trie built from "a", "ab" and "b": "ab" hangs below "a", and "b" beside it. */
  lemma SiblingTrie()
    ensures Put(Put(Put(NilTrie(), [0x61], 1), [0x61, 0x62], 2), [0x62], 3).root ==
            Node(None, [], map[0x61 := Node(Some(1), [0x61], map[0x62 := Node(Some(2), [0x61, 0x62], map[])]),
                               0x62 := Node(Some(3), [0x62], map[])])
  {
    var t1 := Put(NilTrie(), [0x61], 1);
    assert t1.root == Node(None, [], map[0x61 := Node(Some(1), [0x61], map[])]);
    StoreAB();
    StoreB();
  }

  /** Deleting "a" as written from the trie of SiblingTrie. */
  lemma DeleteFromSiblingTrie(t: Trie<int>)
    requires t.root == Node(None, [], map[0x61 := Node(Some(1), [0x61], map[0x62 := Node(Some(2), [0x61, 0x62], map[])]),
                                          0x62 := Node(Some(3), [0x62], map[])])
    ensures DeleteAsWritten(t, [0x61]).Returned?
    ensures Get(DeleteAsWritten(t, [0x61]).value.0, [0x62]) == None
  {
    var n2 := Node(Some(2), [0x61, 0x62], map[]);
    assert OnlyChild(map[0x62 := n2]) == n2;
    var merged := Node(None, [], map[0x61 := n2]);
    assert DeleteNodeAsWritten(t.root, [0x61]) == Returned((merged, Some(1)));
  }

  /**
   * "a" holds "ab" as its only child and "b" is its sibling. Deleting "a" as
   * written replaces the root's children by the merged "ab" alone, so "b" is
   * lost.
   */
  lemma AsWrittenDeleteDropsSibling()
    ensures var t := Put(Put(Put(NilTrie(), [0x61], 1), [0x61, 0x62], 2), [0x62], 3);
            && Get(t, [0x62]) == Some(3)
            && DeleteAsWritten(t, [0x61]).Returned?
            && Get(DeleteAsWritten(t, [0x61]).value.0, [0x62]) == None
            && Get(Delete(t, [0x61]).0, [0x62]) == Some(3)
  {
    var t := Put(Put(Put(NilTrie(), [0x61], 1), [0x61, 0x62], 2), [0x62], 3);
    SiblingTrie();
    DeleteFromSiblingTrie(t);
    assert Lookup(Contents(t), [0x62]) == Some(3);
    GetCorrect(t, [0x62]);
    GetAfterDelete(t, [0x61], [0x62]);
  }

  //-- deleteNode rebuilding an ancestor (trie.go:326-340) --//

  lemma StoreUnderRoot()
    ensures SetNode(Node(Some(1), [], map[]), [0x61, 0x62], 2).0 ==
            Node(Some(1), [], map[0x61 := Node(Some(2), [0x61, 0x62], map[])])
  {
  }

  lemma SplitAB()
    ensures SetNode(Node(Some(1), [], map[0x61 := Node(Some(2), [0x61, 0x62], map[])]), [0x61, 0x63], 3).0 ==
            Node(Some(1), [], map[0x61 := Node(None, [0x61], map[0x62 := Node(Some(2), [0x61, 0x62], map[]),
                                                                 0x63 := Node(Some(3), [0x61, 0x63], map[])])])
  {
    var ab: Key := [0x61, 0x62];
    var ac: Key := [0x61, 0x63];
    var n2 := Node(Some(2), ab, map[]);
    var mid := Node(None, [0x61], map[0x62 := n2, 0x63 := Node(Some(3), ac, map[])]);
    assert FirstDiff(ab, ac) == 1;
    assert ab[0..] == ab && ac[0..] == ac && ac[..1] == [0x61];
    assert map[0x61 := n2][0x61 := mid] == map[0x61 := mid];
  }

  /** The trie built from "", "ab" and "ac": the root holds a value and a valueless node "a" above both. */
  lemma AncestorTrie()
    ensures Put(Put(Put(NilTrie(), [], 1), [0x61, 0x62], 2), [0x61, 0x63], 3).root ==
            Node(Some(1), [], map[0x61 := Node(None, [0x61], map[0x62 := Node(Some(2), [0x61, 0x62], map[]),
                                                                 0x63 := Node(Some(3), [0x61, 0x63], map[])])])
  {
    var t1 := Put(NilTrie(), [], 1);
    assert t1.root == Node(Some(1), [], map[]);
    StoreUnderRoot();
    SplitAB();
  }

  /** Deleting "ab" as written from the trie of AncestorTrie. */
  lemma DeleteFromAncestorTrie(t: Trie<int>)
    requires t.root == Node(Some(1), [], map[0x61 := Node(None, [0x61], map[0x62 := Node(Some(2), [0x61, 0x62], map[]),
                                                                           0x63 := Node(Some(3), [0x61, 0x63], map[])])])
    ensures DeleteAsWritten(t, [0x61, 0x62]).Returned?
    ensures Get(DeleteAsWritten(t, [0x61, 0x62]).value.0, []) == None
  {
    var ab: Key := [0x61, 0x62];
    var mid := t.root.children[0x61];
    var mid' := Node(None, [0x61], mid.children - {0x62});
    assert DeleteNodeAsWritten(mid, ab) == Returned((mid', Some(2)));
    assert DeleteNodeAsWritten(t.root, ab) == Returned((Node(None, [], t.root.children[0x61 := mid']), Some(2)));
  }

  /**
   * With "", "ab" and "ac" stored, deleting "ab" rebuilds the root through
   * the recursive branch, which as written drops the root's value.
   */
  lemma AsWrittenDeleteResetsAncestor()
    ensures var t := Put(Put(Put(NilTrie(), [], 1), [0x61, 0x62], 2), [0x61, 0x63], 3);
            && Get(t, []) == Some(1)
            && DeleteAsWritten(t, [0x61, 0x62]).Returned?
            && Get(DeleteAsWritten(t, [0x61, 0x62]).value.0, []) == None
            && Get(Delete(t, [0x61, 0x62]).0, []) == Some(1)
  {
    var t := Put(Put(Put(NilTrie(), [], 1), [0x61, 0x62], 2), [0x61, 0x63], 3);
    AncestorTrie();
    DeleteFromAncestorTrie(t);
    assert Lookup(Contents(t), []) == Some(1);
    GetCorrect(t, []);
    GetAfterDelete(t, [0x61, 0x62], []);
  }

  //-- deleteNode comparing only a suffix (trie.go:276) --//

  lemma StoreABC()
    ensures SetNode(Node(None, [], map[]), [0x61, 0x62, 0x63], 1).0 ==
            Node(None, [], map[0x61 := Node(Some(1), [0x61, 0x62, 0x63], map[])])
  {
  }

  lemma SplitABC()
    ensures SetNode(Node(None, [], map[0x61 := Node(Some(1), [0x61, 0x62, 0x63], map[])]), [0x61, 0x62, 0x64], 2).0 ==
            Node(None, [], map[0x61 := Node(None, [0x61, 0x62], map[0x63 := Node(Some(1), [0x61, 0x62, 0x63], map[]),
                                                                    0x64 := Node(Some(2), [0x61, 0x62, 0x64], map[])])])
  {
    var abc: Key := [0x61, 0x62, 0x63];
    var abd: Key := [0x61, 0x62, 0x64];
    var n1 := Node(Some(1), abc, map[]);
    var mid := Node(None, [0x61, 0x62], map[0x63 := n1, 0x64 := Node(Some(2), abd, map[])]);
    assert FirstDiff(abc, abd) == 2;
    assert abc[0..] == abc && abd[0..] == abd && abd[..2] == [0x61, 0x62];
    assert map[0x61 := n1][0x61 := mid] == map[0x61 := mid];
  }

  /** The trie built from "abc" and "abd": a valueless node "ab" above both. */
  lemma SuffixTrie()
    ensures Put(Put(NilTrie(), [0x61, 0x62, 0x63], 1), [0x61, 0x62, 0x64], 2).root ==
            Node(None, [], map[0x61 := Node(None, [0x61, 0x62], map[0x63 := Node(Some(1), [0x61, 0x62, 0x63], map[]),
                                                                    0x64 := Node(Some(2), [0x61, 0x62, 0x64], map[])])])
  {
    StoreABC();
    SplitABC();
  }

  /** Deleting "axc" as written from the trie of SuffixTrie. */
  lemma DeleteFromSuffixTrie(t: Trie<int>)
    requires t.root == Node(None, [], map[0x61 := Node(None, [0x61, 0x62], map[0x63 := Node(Some(1), [0x61, 0x62, 0x63], map[]),
                                                                              0x64 := Node(Some(2), [0x61, 0x62, 0x64], map[])])])
    ensures DeleteAsWritten(t, [0x61, 0x78, 0x63]).Returned?
    ensures DeleteAsWritten(t, [0x61, 0x78, 0x63]).value.1 == Some(1)
    ensures Get(DeleteAsWritten(t, [0x61, 0x78, 0x63]).value.0, [0x61, 0x62, 0x63]) == None
  {
    var abc: Key := [0x61, 0x62, 0x63];
    var axc: Key := [0x61, 0x78, 0x63];
    var mid := t.root.children[0x61];
    assert abc[2..] == axc[2..];
    var mid' := Node(None, [0x61, 0x62], mid.children - {0x63});
    assert DeleteNodeAsWritten(mid, axc) == Returned((mid', Some(1)));
    var r' := Node(None, [], t.root.children[0x61 := mid']);
    assert DeleteNodeAsWritten(t.root, axc) == Returned((r', Some(1)));
    assert GetNode(r', abc) == None;
  }

  /**
   * With "abc" and "abd" stored, deleting the absent "axc" compares only the
   * suffix "c" below the node of "ab", and as written removes "abc"; the
   * corrected Delete leaves the trie as it is.
   */
  lemma AsWrittenDeleteMatchesSuffix()
    ensures var t := Put(Put(NilTrie(), [0x61, 0x62, 0x63], 1), [0x61, 0x62, 0x64], 2);
            && Get(t, [0x61, 0x62, 0x63]) == Some(1)
            && DeleteAsWritten(t, [0x61, 0x78, 0x63]).Returned?
            && DeleteAsWritten(t, [0x61, 0x78, 0x63]).value.1 == Some(1)
            && Get(DeleteAsWritten(t, [0x61, 0x78, 0x63]).value.0, [0x61, 0x62, 0x63]) == None
            && Delete(t, [0x61, 0x78, 0x63]) == (t, None)
  {
    var t := Put(Put(NilTrie(), [0x61, 0x62, 0x63], 1), [0x61, 0x62, 0x64], 2);
    SuffixTrie();
    DeleteFromSuffixTrie(t);
    SuffixContents();
    GetCorrect(t, [0x61, 0x62, 0x63]);
  }

  /**
   * The map the trie of SuffixTrie stands for: "axc" is absent from it, so the
   * corrected Delete of "axc" gives back the same trie and no value.
   */
  lemma SuffixContents()
    ensures var t := Put(Put(NilTrie(), [0x61, 0x62, 0x63], 1), [0x61, 0x62, 0x64], 2);
            && Contents(t) == map[[0x61, 0x62, 0x63] := 1, [0x61, 0x62, 0x64] := 2]
            && Delete(t, [0x61, 0x78, 0x63]) == (t, None)
  {
    var t := Put(Put(NilTrie(), [0x61, 0x62, 0x63], 1), [0x61, 0x62, 0x64], 2);
    SuffixMap(t);
    DeleteAbsentFromSuffixMap(t);
  }

  /** A valid trie holding only "abc" and "abd" is left as it is by the corrected Delete of "axc". */
  lemma DeleteAbsentFromSuffixMap(t: Trie<int>)
    requires Valid(t) && Contents(t) == map[[0x61, 0x62, 0x63] := 1, [0x61, 0x62, 0x64] := 2]
    ensures Delete(t, [0x61, 0x78, 0x63]) == (t, None)
  {
    var axc: Key := [0x61, 0x78, 0x63];
    assert axc != [0x61, 0x62, 0x63] && axc != [0x61, 0x62, 0x64] by { assert axc[1] == 0x78; }
    DeleteAbsent(t, axc);
  }

  /** The trie of SuffixTrie holds exactly "abc" and "abd". */
  lemma SuffixMap(t: Trie<int>)
    requires t == Put(Put(NilTrie(), [0x61, 0x62, 0x63], 1), [0x61, 0x62, 0x64], 2)
    ensures Contents(t) == map[[0x61, 0x62, 0x63] := 1, [0x61, 0x62, 0x64] := 2]
  {
  }
}
