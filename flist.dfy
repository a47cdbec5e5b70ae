/**
 * The immutable cons-list of flist/flist.go. Every cell caches the number of
 * cells from it to the end; the shared empty list is the single cell with
 * count 0. A list is Valid when every cached count is right, which every
 * constructor below keeps.
 */
module FList {
  import opened Wrappers

  /** A list cell (flist.go:5-10); Nil is the shared nilList value (flist.go:12-15). */
  datatype List<V> = Nil | Cell(count: int, head: V, tail: List<V>)

  //-- The abstract view --//

  /** The items of a list, head first. */
  function Elements<V>(l: List<V>): seq<V> {
    match l
    case Nil => []
    case Cell(_, h, t) => [h] + Elements(t)
  }

  /** Every cached count holds the number of cells from there to the end. */
  predicate Valid<V>(l: List<V>) {
    match l
    case Nil => true
    case Cell(c, _, t) => c == Count(t) + 1 && Valid(t)
  }

  /** The items in order with f applied to each. */
  function MapSeq<V>(f: V -> V, s: seq<V>): (r: seq<V>)
    ensures |r| == |s| && forall i :: 0 <= i < |s| ==> r[i] == f(s[i])
  {
    seq(|s|, i requires 0 <= i < |s| => f(s[i]))
  }

  /** The items for which f holds, in order, defined from the last item back. */
  function FilterSeq<V>(f: V -> bool, s: seq<V>): (r: seq<V>)
    ensures |r| <= |s|
    ensures forall i :: 0 <= i < |r| ==> r[i] in s && f(r[i])
    ensures forall i :: 0 <= i < |s| && f(s[i]) ==> s[i] in r
  {
    if |s| == 0 then []
    else
      var rest := FilterSeq(f, s[..|s| - 1]);
      var x := s[|s| - 1];
      assert s == s[..|s| - 1] + [x];
      if f(x) then rest + [x] else rest
  }

  /** agg folded over the items from the head, starting from init. */
  function FoldLeft<A, V>(agg: (A, V) -> A, init: A, s: seq<V>): A
    decreases |s|
  {
    if |s| == 0 then init else FoldLeft(agg, agg(init, s[0]), s[1..])
  }

  //-- Construction --//

  /** NilList (flist.go:20-22). */
  function NilList<V>(): (r: List<V>)
    ensures Valid(r) && Elements(r) == [] && IsNil(r)
  {
    Nil
  }

  /** Cons (flist.go:35-41): a new cell in front, its count one more than the list's. */
  function Cons<V>(item: V, list: List<V>): List<V> {
    Cell(Count(list) + 1, item, list)
  }

  /** ConsFromSlice (flist.go:26-32): cons the items on from the last one back. */
  method ConsFromSlice<V>(items: seq<V>) returns (l: List<V>)
    ensures Valid(l) && Elements(l) == items && Count(l) == |items|
  {
    l := NilList();
    var i := |items|;
    while i > 0
      invariant 0 <= i <= |items|
      invariant Valid(l) && Elements(l) == items[i..] && Count(l) == |items| - i
    {
      i := i - 1;
      ConsValid(items[i], l);
      l := Cons(items[i], l);
      assert items[i..] == [items[i]] + items[i + 1..];
    }
  }

  /** Prepend (flist.go:45-51): the items of one list consed, in order, onto another. */
  function Prepend<V>(items: List<V>, onto: List<V>): List<V> {
    if IsNil(items) then onto
    else Cons(items.head, Prepend(items.tail, onto))
  }

  //-- Properties --//

  /** Count (flist.go:56-58): the cached count. */
  function Count<V>(l: List<V>): int {
    match l
    case Nil => 0
    case Cell(c, _, _) => c
  }

  /** IsNil (flist.go:61-63). */
  predicate IsNil<V>(l: List<V>) {
    Count(l) == 0
  }

  /** Head (flist.go:66-68): the first item; the empty list gives None. */
  function Head<V>(l: List<V>): (r: Option<V>)
    ensures r.Some? <==> l.Cell?
  {
    match l
    case Nil => None
    case Cell(_, h, _) => Some(h)
  }

  /** Tail (flist.go:75-77): the rest of the list; the empty list has none. */
  function Tail<V>(l: List<V>): (r: Option<List<V>>)
    ensures r.Some? <==> l.Cell?
  {
    match l
    case Nil => None
    case Cell(_, _, t) => Some(t)
  }

  //-- Functions --//

  /** Map (flist.go:83-90). */
  function Map<V>(l: List<V>, f: V -> V): List<V> {
    if IsNil(l) then l
    else Cons(f(l.head), Map(l.tail, f))
  }

  /** Filter (flist.go:94-104). */
  function Filter<V>(l: List<V>, f: V -> bool): List<V> {
    if IsNil(l) then l
    else if f(l.head) then Cons(l.head, Filter(l.tail, f))
    else Filter(l.tail, f)
  }

  /** Reverse (flist.go:107-115): the items consed, head first, onto the empty list. */
  method Reverse<V>(l: List<V>) returns (r: List<V>)
    requires Valid(l)
    ensures Valid(r) && Elements(r) == Reversed(Elements(l)) && Count(r) == Count(l)
  {
    r := NilList();
    var c := l;
    while !IsNil(c)
      invariant Valid(c) && Valid(r)
      invariant Reversed(Elements(c)) + Elements(r) == Reversed(Elements(l))
      invariant Count(c) + Count(r) == Count(l)
      decreases c
    {
      CountIsLength(c);
      ReversedCons(c.head, Elements(c.tail));
      assert Reversed(Elements(c.tail)) + ([c.head] + Elements(r)) == Reversed(Elements(c)) + Elements(r);
      ConsValid(c.head, r);
      r := Cons(c.head, r);
      c := c.tail;
    }
    CountIsLength(c);
  }

  /** Aggregate (flist.go:121-127): agg applied to the running result and each item in turn. */
  method Aggregate<A, V>(l: List<V>, init: A, agg: (A, V) -> A) returns (r: A)
    requires Valid(l)
    ensures r == FoldLeft(agg, init, Elements(l))
  {
    r := init;
    var c := l;
    ghost var done: seq<V> := [];
    while !IsNil(c)
      invariant Valid(c)
      invariant Elements(l) == done + Elements(c)
      invariant r == FoldLeft(agg, init, done)
      decreases c
    {
      CountIsLength(c);
      assert Elements(c) == [c.head] + Elements(c.tail);
      FoldLeftSnoc(agg, init, done, c.head);
      r := agg(r, c.head);
      done := done + [c.head];
      c := c.tail;
    }
    CountIsLength(c);
    assert done == Elements(l);
  }

  /** ToSlice (flist.go:130-141): a fresh array of Count cells filled with the items in order. */
  method ToSlice<V(0)>(l: List<V>) returns (a: array<V>)
    requires Valid(l)
    ensures fresh(a) && a.Length == Count(l) && a[..] == Elements(l)
  {
    CountIsLength(l);
    a := new V[Count(l)];
    var i := 0;
    var c := l;
    while !IsNil(c)
      invariant Valid(c) && 0 <= i <= a.Length
      invariant Elements(l) == Elements(l)[..i] + Elements(c)
      invariant a[..i] == Elements(l)[..i]
      decreases c
    {
      CountIsLength(c);
      a[i] := c.head;
      assert Elements(c) == [c.head] + Elements(c.tail);
      i := i + 1;
      c := c.tail;
    }
    CountIsLength(c);
  }

  //-- Lemmas --//

  /** The cached count of a valid list is its number of items; IsNil holds exactly for no items. */
  lemma {:induction false} CountIsLength<V>(l: List<V>)
    requires Valid(l)
    ensures Count(l) == |Elements(l)|
    ensures IsNil(l) <==> l.Nil?
  {
    if l.Cell? {
      CountIsLength(l.tail);
    }
  }

  /** Cons puts the item in front of a valid list and keeps it valid. */
  lemma ConsValid<V>(item: V, list: List<V>)
    requires Valid(list)
    ensures Valid(Cons(item, list)) && Elements(Cons(item, list)) == [item] + Elements(list)
  {
  }

  /** Head and Tail of a consed list give back the item and the original list. */
  lemma HeadTailOfCons<V>(item: V, list: List<V>)
    ensures Head(Cons(item, list)) == Some(item) && Tail(Cons(item, list)) == Some(list)
    ensures Count(Cons(item, list)) == Count(list) + 1
  {
  }

  /** Prepend gives the items followed by onto, and the empty list prepends to onto itself. */
  lemma {:induction false} PrependCorrect<V>(items: List<V>, onto: List<V>)
    requires Valid(items) && Valid(onto)
    ensures Valid(Prepend(items, onto))
    ensures Elements(Prepend(items, onto)) == Elements(items) + Elements(onto)
    ensures Count(Prepend(items, onto)) == Count(items) + Count(onto)
    ensures Prepend(NilList(), onto) == onto
  {
    CountIsLength(items);
    if items.Cell? {
      PrependCorrect(items.tail, onto);
      assert [items.head] + (Elements(items.tail) + Elements(onto)) == Elements(items) + Elements(onto);
    }
  }

  /** Map applies f to every item, in order, and keeps the count. */
  lemma {:induction false} MapCorrect<V>(l: List<V>, f: V -> V)
    requires Valid(l)
    ensures Valid(Map(l, f)) && Elements(Map(l, f)) == MapSeq(f, Elements(l))
    ensures Count(Map(l, f)) == Count(l)
  {
    CountIsLength(l);
    if l.Cell? {
      MapCorrect(l.tail, f);
      assert MapSeq(f, Elements(l)) == [f(l.head)] + MapSeq(f, Elements(l.tail));
    }
  }

  /** Filtering a longer sequence: the filter of the head followed by the filter of the rest. */
  lemma {:induction false} FilterSeqCons<V>(f: V -> bool, x: V, s: seq<V>)
    ensures FilterSeq(f, [x] + s) == (if f(x) then [x] else []) + FilterSeq(f, s)
    decreases |s|
  {
    if |s| > 0 {
      var y := s[|s| - 1];
      var init := s[..|s| - 1];
      assert ([x] + s)[..|s|] == [x] + init;
      assert ([x] + s)[|s|] == y;
      FilterSeqCons(f, x, init);
    } else {
      assert FilterSeq(f, s) == [];
      assert ([x] + s)[..0] == [];
    }
  }

  /** Filter keeps exactly the items for which f holds, in their order. */
  lemma {:induction false} FilterCorrect<V>(l: List<V>, f: V -> bool)
    requires Valid(l)
    ensures Valid(Filter(l, f)) && Elements(Filter(l, f)) == FilterSeq(f, Elements(l))
    ensures Count(Filter(l, f)) <= Count(l)
  {
    CountIsLength(l);
    if l.Cell? {
      FilterCorrect(l.tail, f);
      FilterSeqCons(f, l.head, Elements(l.tail));
      CountIsLength(Filter(l, f));
    }
  }

  /** A left fold over a longer sequence applies agg once more at the end. */
  lemma {:induction false} FoldLeftSnoc<A, V>(agg: (A, V) -> A, init: A, s: seq<V>, x: V)
    ensures FoldLeft(agg, init, s + [x]) == agg(FoldLeft(agg, init, s), x)
    decreases |s|
  {
    if |s| > 0 {
      assert (s + [x])[1..] == s[1..] + [x];
      FoldLeftSnoc(agg, agg(init, s[0]), s[1..], x);
    } else {
      assert (s + [x])[1..] == [];
    }
  }
}
