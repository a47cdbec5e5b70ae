/**
 * Two places where critbit/tree.go, as written, departs from what the rest of
 * the file evidently intends, each with an input that shows it. The model in
 * CritbitTree uses the corrected forms.
 */
module CritbitAsWritten {
  import opened Wrappers
  import opened CritbitBits
  import opened CritbitTree

  //-- The insert tie-break (tree.go:139-140) --//

  /** The splice test as written: within one byte, a numerically smaller mask splices. */
  predicate SplicesAboveAsWritten(nbyte: nat, nbit: bv8, critbyte: nat, critbit: bv8) {
    nbyte > critbyte || (nbyte == critbyte && nbit < critbit)
  }

  /** The two tests disagree exactly for two different genuine masks in the same byte. */
  lemma TieBreaksDiffer(nbyte: nat, nbit: bv8, critbyte: nat, critbit: bv8)
    requires IsCritbit(nbit) && IsCritbit(critbit)
    ensures SplicesAboveAsWritten(nbyte, nbit, critbyte, critbit) != SplicesAbove(nbyte, nbit, critbyte, critbit)
            <==> nbyte == critbyte && IsBitMask(nbit) && IsBitMask(critbit) && nbit != critbit
  {
  }

  /** insertLeaf (tree.go:137-165) with the tie-break as written. */
  function InsertLeafAsWritten<V>(n: Node<V>, key: Key, value: V, critbyte: nat, critbit: bv8): Node<V> {
    if n.Leaf? || SplicesAboveAsWritten(n.critbyte, n.critbit, critbyte, critbit) then
      var leaf := Leaf(key, value);
      if FindDirection(key, critbyte, critbit) == 0 then Internal(critbyte, critbit, leaf, n)
      else Internal(critbyte, critbit, n, leaf)
    else if FindDirection(key, n.critbyte, n.critbit) == 0 then
      Internal(n.critbyte, n.critbit, InsertLeafAsWritten(n.child0, key, value, critbyte, critbit), n.child1)
    else
      Internal(n.critbyte, n.critbit, n.child0, InsertLeafAsWritten(n.child1, key, value, critbyte, critbit))
  }

  /**
   * Trie.Set (tree.go:58-87) as written: the descent of findBestLeaf panics on
   * a key too short for a byte it tests, and the splice uses the as-written
   * tie-break. setLeaf and insertLeaf walk no further down the key's path than
   * findBestLeaf did, and the new descriptor's byte index is at most the key's
   * length (with the length sentinel when equal), so they read no byte the
   * descent did not and are taken from the model.
   */
  function SetAsWritten<V>(t: Trie<V>, key: Key, value: Option<V>): (r: Outcome<(Trie<V>, Option<V>)>)
    ensures r.Panicked? <==> value.None? || (t.root.Some? && FindBestLeafAsWritten(t.root.value, key).Panicked?)
  {
    if value.None? then Panicked("value cannot be nil")
    else
      match t.root
      case None => Returned((Trie(Some(Leaf(key, value.value)), 1), None))
      case Some(root) =>
        match FindBestLeafAsWritten(root, key)
        case Panicked(msg) => Panicked(msg)
        case Returned(n) =>
          if key == n.key then
            Returned((Trie(Some(SetLeaf(root, key, value.value)), t.count), Some(n.value)))
          else
            var d := Critbit(key, n.key);
            Returned((Trie(Some(InsertLeafAsWritten(root, key, value.value, d.0, d.1)), t.count + 1), None))
  }

  /**
   * Keys [0x01] and [0x80] split at the top bit (mask 0x7F); inserting [0x81]
   * as written puts its lower-bit node (mask 0xFE) above that one, and [0x01]
   * can no longer be found. The corrected Set keeps it.
   */
  lemma AsWrittenSetLosesKey()
    ensures var t := Set(Set(NilTrie(), [0x01], Some(1)).value.0, [0x80], Some(2)).value.0;
            && Get(t, [0x01]) == Some(1)
            && Get(SetAsWritten(t, [0x81], Some(3)).value.0, [0x01]) == None
            && Get(Set(t, [0x81], Some(3)).value.0, [0x01]) == Some(1)
  {
    var t1 := Set(NilTrie(), [0x01], Some(1)).value.0;
    CritbitOfDifferingBytes([0x80], [0x01], 0);
    assert HighBitMask(0x80 ^ 0x01) == 0x7F;
    var t := Set(t1, [0x80], Some(2)).value.0;
    assert t.root == Some(Internal(0, 0x7F, Leaf([0x01], 1), Leaf([0x80], 2)));
    CritbitOfDifferingBytes([0x81], [0x80], 0);
    assert HighBitMask(0x81 ^ 0x80) == 0xFE;
    var w := SetAsWritten(t, [0x81], Some(3)).value.0;
    assert w.root == Some(Internal(0, 0xFE, Internal(0, 0x7F, Leaf([0x01], 1), Leaf([0x80], 2)), Leaf([0x81], 3)));
    SetCorrect(t, [0x81], 3);
    GetCorrect(t, [0x01]);
    GetCorrect(Set(t, [0x81], Some(3)).value.0, [0x01]);
  }

  //-- findDirection past the end of the key (tree.go:192-204) --//

  /** findDirection as written: a genuine mask indexes the key without a bounds check. */
  function FindDirectionAsWritten(key: Key, critbyte: nat, critbit: bv8): (r: Outcome<nat>)
    ensures r.Panicked? <==> critbit != LengthSentinel && critbyte >= |key|
    ensures r.Returned? ==> r.value == FindDirection(key, critbyte, critbit)
  {
    if critbit == LengthSentinel then
      Returned(if critbyte == |key| then 0 else 1)
    else if critbyte < |key| then
      var r := (1 + (critbit | key[critbyte])) >> 7;
      Returned(1 - (r as nat))
    else
      Panicked("index out of range")
  }

  /** findBestLeaf (tree.go:107-115) calling the as-written findDirection. */
  function FindBestLeafAsWritten<V>(n: Node<V>, key: Key): (r: Outcome<Node<V>>)
    ensures r.Returned? ==> r.value == FindBestLeaf(n, key)
  {
    match n
    case Leaf(_, _) => Returned(n)
    case Internal(b, m, c0, c1) =>
      match FindDirectionAsWritten(key, b, m)
      case Panicked(msg) => Panicked(msg)
      case Returned(d) => if d == 0 then FindBestLeafAsWritten(c0, key) else FindBestLeafAsWritten(c1, key)
  }

  /** Trie.Get (tree.go:38-48) calling the as-written findBestLeaf. */
  function GetAsWritten<V>(t: Trie<V>, key: Key): (r: Outcome<Option<V>>)
    ensures r.Returned? ==> r.value == Get(t, key)
  {
    match t.root
    case None => Returned(None)
    case Some(root) =>
      match FindBestLeafAsWritten(root, key)
      case Panicked(msg) => Panicked(msg)
      case Returned(n) => Returned(if key == n.key then Some(n.value) else None)
  }

  /**
   * After "ffffff" and "fffffg" the root tests byte 5, so looking up or
   * inserting the shorter "aaa" indexes past its end as written. The model
   * reads the missing byte as zero, so on this valid trie the insert succeeds
   * and finds the key afterwards (SetCorrect, GetAfterSet).
   */
  lemma AsWrittenShortKeyPanics()
    ensures var t := Set(Set(NilTrie(), [0x66, 0x66, 0x66, 0x66, 0x66, 0x66], Some(1)).value.0,
                         [0x66, 0x66, 0x66, 0x66, 0x66, 0x67], Some(2)).value.0;
            && t.root.Some? && t.root.value.Internal?
            && FindDirectionAsWritten([0x61, 0x61, 0x61], t.root.value.critbyte, t.root.value.critbit).Panicked?
            && GetAsWritten(t, [0x61, 0x61, 0x61]).Panicked?
            && SetAsWritten(t, [0x61, 0x61, 0x61], Some(3)).Panicked?
            && Get(t, [0x61, 0x61, 0x61]) == None
            && Valid(t)
  {
    var k1: Key := [0x66, 0x66, 0x66, 0x66, 0x66, 0x66];
    var k2: Key := [0x66, 0x66, 0x66, 0x66, 0x66, 0x67];
    var t1 := Set(NilTrie(), k1, Some(1)).value.0;
    CritbitOfDifferingBytes(k2, k1, 5);
    assert HighBitMask(0x67 ^ 0x66) == 0xFE;
    var t := Set(t1, k2, Some(2)).value.0;
    assert t.root == Some(Internal(5, 0xFE, Leaf(k1, 1), Leaf(k2, 2)));
    SetCorrect(NilTrie(), k1, 1);
    SetCorrect(t1, k2, 2);
  }
}
