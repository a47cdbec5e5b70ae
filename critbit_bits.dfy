/**
 * The bit arithmetic of the critbit trie (critbit/tree.go:192-244): locating the
 * critical bit of two keys and choosing a child by it.
 *
 * A critical-bit descriptor is the pair (critbyte, critbit) the source stores in
 * each internal node: the index of a byte and a mask whose only zero bit is the
 * critical bit, or the mask 255 for "the keys differ in length at critbyte".
 */
module CritbitBits {

  /** A key: Go's []byte. */
  type Key = seq<bv8>

  /** The critbit value that marks the length (prefix) case. */
  const LengthSentinel: bv8 := 255

  /** The eight masks with exactly one zero bit. */
  predicate IsBitMask(m: bv8) {
    m == 0x7F || m == 0xBF || m == 0xDF || m == 0xEF ||
    m == 0xF7 || m == 0xFB || m == 0xFD || m == 0xFE
  }

  /** The nine critbit values findCritbit can return. */
  predicate IsCritbit(m: bv8) {
    m == LengthSentinel || IsBitMask(m)
  }

  /**
   * The byte of `key` at index `i`, with bytes past the end read as 0. The
   * source indexes `key[critbyte]` unguarded; see CritbitAsWritten for that.
   */
  function ByteAt(key: Key, i: nat): bv8 {
    if i < |key| then key[i] else 0
  }

  /**
   * findDirection (critbit/tree.go:192-204): the child (0 or 1) that `key`
   * belongs to under the descriptor (critbyte, critbit). The shift-and-carry
   * computation is kept in 8-bit arithmetic, as Go's uint8 does it.
   */
  function FindDirection(key: Key, critbyte: nat, critbit: bv8): (dir: nat)
    ensures dir == 0 || dir == 1
    ensures critbit == LengthSentinel ==> (dir == 0 <==> |key| == critbyte)
    ensures IsBitMask(critbit) ==> (dir == 1 <==> ByteAt(key, critbyte) & !critbit != 0)
  {
    if critbit == LengthSentinel then
      if critbyte == |key| then 0 else 1
    else
      var c := ByteAt(key, critbyte);
      var r := (1 + (critbit | c)) >> 7;
      1 - (r as nat)
  }

  /** Length of the longest common prefix of two keys. */
  function CommonPrefixLen(u: Key, p: Key): (n: nat)
    ensures n <= |u| && n <= |p|
    ensures forall i :: 0 <= i < n ==> u[i] == p[i]
    ensures n < |u| && n < |p| ==> u[n] != p[n]
  {
    if |u| == 0 || |p| == 0 || u[0] != p[0] then 0
    else 1 + CommonPrefixLen(u[1..], p[1..])
  }

  /** The mask whose only zero bit is the highest set bit of `x`. */
  function HighBitMask(x: bv8): (m: bv8)
    requires x != 0
    ensures IsBitMask(m)
    ensures x & !m != 0
    ensures x >> 1 < !m
  {
    if x >= 0x80 then 0x7F
    else if x >= 0x40 then 0xBF
    else if x >= 0x20 then 0xDF
    else if x >= 0x10 then 0xEF
    else if x >= 0x08 then 0xF7
    else if x >= 0x04 then 0xFB
    else if x >= 0x02 then 0xFD
    else 0xFE
  }

  /**
   * The descriptor findCritbit computes for a new key `u` against an existing
   * key `p` (critbit/tree.go:206-244): the first byte where they differ with the
   * mask of the highest differing bit, or the sentinel anchored at the length
   * of the shorter key when one is a prefix of the other.
   */
  function Critbit(u: Key, p: Key): (d: (nat, bv8))
    ensures IsCritbit(d.1)
    ensures d.0 <= |u| && d.0 <= |p|
    ensures forall i :: 0 <= i < d.0 ==> u[i] == p[i]
    ensures d.1 == LengthSentinel <==> d.0 == |u| || d.0 == |p|
    ensures d.1 != LengthSentinel ==>
              u[d.0] != p[d.0] && (u[d.0] ^ p[d.0]) & !d.1 != 0 && (u[d.0] ^ p[d.0]) >> 1 < !d.1
  {
    var n := CommonPrefixLen(u, p);
    if n < |u| && n == |p| then (|p|, LengthSentinel)
    else if n == |u| then (|u|, LengthSentinel)
    else (n, HighBitMask(u[n] ^ p[n]))
  }

  lemma CommonPrefixLenIs(u: Key, p: Key, i: nat)
    requires i <= |u| && i <= |p|
    requires forall j :: 0 <= j < i ==> u[j] == p[j]
    requires i < |u| && i < |p| ==> u[i] != p[i]
    ensures CommonPrefixLen(u, p) == i
  {
  }

  /** The or-shift, xor and invert steps of tree.go:231-239 give HighBitMask. */
  lemma SmearIsHighBitMask(x: bv8)
    requires x != 0
    ensures var s0 := x | (x >> 1);
            var s1 := s0 | (s0 >> 2);
            var s2 := s1 | (s1 >> 4);
            !(s2 ^ (s2 >> 1)) == HighBitMask(x)
  {
  }

  /** findCritbit (critbit/tree.go:206-244), with its loop and bit steps. */
  method FindCritbit(u: Key, p: Key) returns (critbyte: nat, critbit: bv8)
    ensures (critbyte, critbit) == Critbit(u, p)
  {
    var found := false;
    var newbyte: nat := 0;
    var newcritbit: bv8 := 0;
    while newbyte < |u|
      invariant newbyte <= |u| && newbyte <= |p|
      invariant forall j :: 0 <= j < newbyte ==> u[j] == p[j]
    {
      if newbyte >= |p| {
        CommonPrefixLenIs(u, p, newbyte);
        return |p|, LengthSentinel;
      }
      if p[newbyte] != u[newbyte] {
        newcritbit := p[newbyte] ^ u[newbyte];
        found := true;
        break;
      }
      newbyte := newbyte + 1;
    }
    CommonPrefixLenIs(u, p, newbyte);
    if !found {
      return |u|, LengthSentinel;
    }
    assert newcritbit == u[newbyte] ^ p[newbyte];
    SmearIsHighBitMask(newcritbit);
    newcritbit := newcritbit | (newcritbit >> 1);
    newcritbit := newcritbit | (newcritbit >> 2);
    newcritbit := newcritbit | (newcritbit >> 4);
    newcritbit := newcritbit ^ (newcritbit >> 1);
    newcritbit := !newcritbit;
    return newbyte, newcritbit;
  }

  /** findCritbit does not depend on the order of its arguments. */
  lemma {:induction false} CritbitSymmetric(u: Key, p: Key)
    ensures Critbit(u, p) == Critbit(p, u)
  {
    var n := CommonPrefixLen(u, p);
    CommonPrefixLenIs(p, u, n);
    if n < |u| && n < |p| {
      assert u[n] ^ p[n] == p[n] ^ u[n];
    }
  }

  /** Two keys that first differ inside their common length (tree.go:219-243). */
  lemma CritbitOfDifferingBytes(u: Key, p: Key, i: nat)
    requires i < |u| && i < |p| && u[i] != p[i]
    requires forall j :: 0 <= j < i ==> u[j] == p[j]
    ensures Critbit(u, p) == (i, HighBitMask(u[i] ^ p[i]))
    ensures Critbit(u, p) == Critbit(p, u)
  {
    CommonPrefixLenIs(u, p, i);
    CritbitSymmetric(u, p);
  }

  /**
   * A strict prefix (tree.go:216-217, 226-227): the descriptor is the sentinel
   * at the shorter key's length, which sends the shorter key to child 0 and the
   * longer key to child 1.
   */
  lemma CritbitOfPrefix(u: Key, p: Key)
    requires |u| < |p| && u == p[..|u|]
    ensures Critbit(u, p) == (|u|, LengthSentinel) == Critbit(p, u)
    ensures FindDirection(u, |u|, LengthSentinel) == 0
    ensures FindDirection(p, |u|, LengthSentinel) == 1
  {
    assert forall j :: 0 <= j < |u| ==> u[j] == p[j];
    CommonPrefixLenIs(u, p, |u|);
    CritbitSymmetric(u, p);
  }

  //-- The significance order of descriptors --//

  /**
   * Rank of a critbit within its byte: the length sentinel first, then the bits
   * from the most significant (mask 0x7F) to the least (mask 0xFE).
   */
  function Rank(m: bv8): (r: nat)
    ensures r <= 8
    ensures IsBitMask(m) ==> 1 <= r
  {
    if m == 0x7F then 1
    else if m == 0xBF then 2
    else if m == 0xDF then 3
    else if m == 0xEF then 4
    else if m == 0xF7 then 5
    else if m == 0xFB then 6
    else if m == 0xFD then 7
    else if m == 0xFE then 8
    else 0
  }

  /** The critbit of a given rank. */
  function MaskOfRank(r: nat): (m: bv8)
    requires r <= 8
    ensures IsCritbit(m) && Rank(m) == r
  {
    if r == 0 then LengthSentinel
    else if r == 1 then 0x7F
    else if r == 2 then 0xBF
    else if r == 3 then 0xDF
    else if r == 4 then 0xEF
    else if r == 5 then 0xF7
    else if r == 6 then 0xFB
    else if r == 7 then 0xFD
    else 0xFE
  }

  /**
   * The position of a descriptor in the order in which a key's bits are
   * examined: nine positions per byte, the length test before the eight bits.
   */
  function Pos(critbyte: nat, critbit: bv8): nat {
    9 * critbyte + Rank(critbit)
  }

  function PosOf(d: (nat, bv8)): nat {
    Pos(d.0, d.1)
  }

  lemma PosInjective(b1: nat, m1: bv8, b2: nat, m2: bv8)
    requires IsCritbit(m1) && IsCritbit(m2)
    requires Pos(b1, m1) == Pos(b2, m2)
    ensures b1 == b2 && m1 == m2
  {
  }

  /** The key's direction at the descriptor that sits at position q. */
  function KeyBit(key: Key, q: nat): nat {
    FindDirection(key, q / 9, MaskOfRank(q % 9))
  }

  lemma DirectionIsKeyBit(key: Key, critbyte: nat, critbit: bv8)
    requires IsCritbit(critbit)
    ensures FindDirection(key, critbyte, critbit) == KeyBit(key, Pos(critbyte, critbit))
  {
    var q := Pos(critbyte, critbit);
    assert q / 9 == critbyte && q % 9 == Rank(critbit);
  }

  /** Within one byte: bits above the highest differing bit agree. */
  lemma HigherBitsAgree(a: bv8, c: bv8, m: bv8, r: nat)
    requires IsBitMask(m) && (a ^ c) >> 1 < !m
    requires 1 <= r < Rank(m)
    ensures (a & !MaskOfRank(r) != 0) == (c & !MaskOfRank(r) != 0)
  {
    var mr := MaskOfRank(r);
    assert !mr > !m;
  }

  /** The two keys take different children at their critical bit. */
  lemma CritbitSeparates(u: Key, p: Key)
    requires u != p
    ensures FindDirection(u, Critbit(u, p).0, Critbit(u, p).1)
            != FindDirection(p, Critbit(u, p).0, Critbit(u, p).1)
  {
    var d := Critbit(u, p);
    if d.1 == LengthSentinel {
      assert d.0 < |u| || d.0 < |p|;
    }
  }

  /** ... and take the same child at every position examined before it. */
  lemma AgreeBeforeCritbit(u: Key, p: Key, q: nat)
    requires u != p
    requires q < PosOf(Critbit(u, p))
    ensures KeyBit(u, q) == KeyBit(p, q)
  {
    var d := Critbit(u, p);
    var b, r := q / 9, q % 9;
    assert q == 9 * b + r;
    assert b <= d.0;
    if r == 0 {
      AgreeAtLengthTest(u, p, b);
    } else if b == d.0 {
      assert d.1 != LengthSentinel;
      AgreeAtHigherBit(u, p, b, r);
    } else {
      AgreeAtEqualByte(u, p, b, MaskOfRank(r));
    }
  }

  lemma AgreeAtLengthTest(u: Key, p: Key, b: nat)
    requires u != p
    requires b < Critbit(u, p).0 || (b == Critbit(u, p).0 && Critbit(u, p).1 != LengthSentinel)
    ensures FindDirection(u, b, LengthSentinel) == FindDirection(p, b, LengthSentinel)
  {
  }

  lemma AgreeAtHigherBit(u: Key, p: Key, b: nat, r: nat)
    requires u != p
    requires b == Critbit(u, p).0 && Critbit(u, p).1 != LengthSentinel
    requires 1 <= r < Rank(Critbit(u, p).1)
    ensures FindDirection(u, b, MaskOfRank(r)) == FindDirection(p, b, MaskOfRank(r))
  {
    HigherBitsAgree(u[b], p[b], Critbit(u, p).1, r);
  }

  lemma AgreeAtEqualByte(u: Key, p: Key, b: nat, m: bv8)
    requires b < |u| && b < |p| && u[b] == p[b]
    ensures FindDirection(u, b, m) == FindDirection(p, b, m)
  {
  }

  /** Keys that take different children at a position differ at or before it. */
  lemma CritbitAtOrBefore(u: Key, p: Key, q: nat)
    requires KeyBit(u, q) != KeyBit(p, q)
    ensures u != p && PosOf(Critbit(u, p)) <= q
  {
    if PosOf(Critbit(u, p)) > q {
      AgreeBeforeCritbit(u, p, q);
    }
  }

  /** The critbit position of two keys, as a position where they differ. */
  lemma CritbitKeyBit(u: Key, p: Key)
    requires u != p
    ensures KeyBit(u, PosOf(Critbit(u, p))) != KeyBit(p, PosOf(Critbit(u, p)))
  {
    var d := Critbit(u, p);
    CritbitSeparates(u, p);
    DirectionIsKeyBit(u, d.0, d.1);
    DirectionIsKeyBit(p, d.0, d.1);
  }

  /**
   * The ultrametric law of critical bits: the critbit of u and z is no earlier
   * than the earlier of (u, p) and (p, z).
   */
  lemma CritbitUltrametric(u: Key, p: Key, z: Key)
    requires u != p && p != z && u != z
    ensures PosOf(Critbit(u, z)) >= PosOf(Critbit(u, p)) || PosOf(Critbit(u, z)) >= PosOf(Critbit(p, z))
  {
    var q := PosOf(Critbit(u, z));
    if q < PosOf(Critbit(u, p)) && q < PosOf(Critbit(p, z)) {
      AgreeBeforeCritbit(u, p, q);
      AgreeBeforeCritbit(p, z, q);
      CritbitKeyBit(u, z);
    }
  }
}
