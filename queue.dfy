/**
 * The copy-on-write FIFO queue of queue/queue.go: two immutable linked
 * stacks, `popper` holding the front of the queue in order and `pusher`
 * holding the back in reverse, every node numbered by a sequential id, and a
 * generation counter that a resumable PeekIterator uses to find its place
 * again after the popper stack is rebuilt.
 *
 * Pop is the corrected form, which clears the pusher when it moves it onto
 * the popper; PopAsWritten keeps the source's version.
 */
module ImmutableQueue {
  import opened Wrappers

  /** A node of one of the two stacks (queue.go:29-35); Empty is Go's nil. */
  datatype Stack<V> = Empty | Node(value: V, next: Stack<V>, seqId: nat)

  /** The queue handle (queue.go:6-14). */
  datatype Queue<V> = Queue(popper: Stack<V>, pusher: Stack<V>, generation: nat, lastSeqId: nat)

  /** An iterator over the queue's values (queue.go:16-26); a value of None is Go's nil. */
  datatype PeekIterator<V> = PeekIterator(value: Option<V>, hasValue: bool, current: Stack<V>, generation: nat)

  /** The zero iterator, past the end of the queue. */
  function EndIterator<V>(): PeekIterator<V> {
    PeekIterator(None, false, Empty, 0)
  }

  //-- Stacks --//

  /** The values of a stack, top first. */
  function Values<V>(s: Stack<V>): seq<V> {
    match s
    case Empty => []
    case Node(v, next, _) => [v] + Values(next)
  }

  /** The sequential ids of a stack, top first. */
  function Ids<V>(s: Stack<V>): (r: seq<nat>)
    ensures |r| == |Values(s)|
  {
    match s
    case Empty => []
    case Node(_, next, id) => [id] + Ids(next)
  }

  /** s is t or one of the nodes below t. */
  ghost predicate IsTail<V>(s: Stack<V>, t: Stack<V>)
    decreases t
  {
    s == t || (t.Node? && IsTail(s, t.next))
  }

  /** The nodes of s pushed in turn onto acc, so that they end up reversed on top of it. */
  function ReverseOnto<V>(s: Stack<V>, acc: Stack<V>): (r: Stack<V>)
    ensures Values(r) == Reversed(Values(s)) + Values(acc)
    ensures Ids(r) == Reversed(Ids(s)) + Ids(acc)
  {
    match s
    case Empty => acc
    case Node(v, next, id) =>
      var r := ReverseOnto(next, Node(v, acc, id));
      ReversedCons(v, Values(next));
      ReversedCons(id, Ids(next));
      assert Values(r) == Reversed(Values(next)) + ([v] + Values(acc));
      assert Ids(r) == Reversed(Ids(next)) + ([id] + Ids(acc));
      r
  }

  /** A stack in reverse order, each node keeping its id. */
  function ReverseStack<V>(s: Stack<V>): (r: Stack<V>)
    ensures Values(r) == Reversed(Values(s)) && Ids(r) == Reversed(Ids(s))
  {
    ReverseOnto(s, Empty)
  }

  /** node.reverse (queue.go:206-218). */
  method Reverse<V>(n: Stack<V>) returns (r: Stack<V>)
    ensures r == ReverseStack(n)
  {
    r := Empty;
    var t := n;
    while t.Node?
      invariant ReverseOnto(t, r) == ReverseOnto(n, Empty)
      decreases t
    {
      r := Node(t.value, r, t.seqId);
      t := t.next;
    }
  }

  /** rebuildOnto (queue.go:220-231): the nodes of top, copied, on top of bottom. */
  function RebuildOnto<V>(top: Stack<V>, bottom: Stack<V>): (r: Stack<V>)
    ensures Values(r) == Values(top) + Values(bottom)
    ensures Ids(r) == Ids(top) + Ids(bottom)
    ensures IsTail(bottom, r)
  {
    match top
    case Empty => bottom
    case Node(v, next, id) =>
      var r := RebuildOnto(next, bottom);
      var n := Node(v, r, id);
      assert IsTail(bottom, n);
      assert Values(n) == [v] + (Values(next) + Values(bottom)) == ([v] + Values(next)) + Values(bottom);
      assert Ids(n) == [id] + (Ids(next) + Ids(bottom)) == ([id] + Ids(next)) + Ids(bottom);
      n
  }

  /** The first node below s with the given id (the search loop of queue.go:163-170). */
  function FindNode<V>(s: Stack<V>, id: nat): (r: Option<Stack<V>>)
    ensures r.Some? ==> r.value.Node? && r.value.seqId == id && IsTail(r.value, s)
    ensures r.None? <==> id !in Ids(s)
  {
    match s
    case Empty => None
    case Node(_, next, sid) => if sid == id then Some(s) else FindNode(next, id)
  }

  /** A tail of a stack holds a suffix of its values and ids. */
  lemma {:induction false} TailSuffix<V>(s: Stack<V>, t: Stack<V>)
    requires IsTail(s, t)
    ensures |Values(s)| <= |Values(t)|
    ensures Values(s) == Values(t)[|Values(t)| - |Values(s)|..]
    ensures Ids(s) == Ids(t)[|Ids(t)| - |Ids(s)|..]
    decreases t
  {
    if s != t {
      TailSuffix(s, t.next);
      assert Values(t)[1..] == Values(t.next);
      assert Ids(t)[1..] == Ids(t.next);
    }
  }

  //-- The abstract view --//

  /** The queue's values, front first. */
  ghost function Items<V>(q: Queue<V>): seq<V> {
    Values(q.popper) + Reversed(Values(q.pusher))
  }

  /** The queue's ids, front first. */
  ghost function AllIds<V>(q: Queue<V>): seq<nat> {
    Ids(q.popper) + Reversed(Ids(q.pusher))
  }

  /** The id the front of the queue has, or would have. */
  ghost function First<V>(q: Queue<V>): int {
    q.lastSeqId + 1 - |Items(q)|
  }

  /**
   * The invariant every queue built by NewQueue, NewQueueFrom, Push and Pop
   * keeps: the popper is empty only when the queue is, and the ids run
   * consecutively from the front up to lastSeqId.
   */
  ghost predicate Valid<V>(q: Queue<V>) {
    && (q.popper.Empty? ==> q.pusher.Empty?)
    && |Items(q)| <= q.lastSeqId
    && forall i :: 0 <= i < |AllIds(q)| ==> AllIds(q)[i] == First(q) + i
  }

  /** The popper's top is the front of a valid queue. */
  lemma FrontOfQueue<V>(q: Queue<V>)
    requires Valid(q) && q.popper.Node?
    ensures q.popper.seqId == First(q) && Items(q)[0] == q.popper.value
  {
    assert AllIds(q)[0] == q.popper.seqId;
  }

  //-- Operations --//

  /** NewQueue (queue.go:37-39). */
  function NewQueue<V>(): (q: Queue<V>)
    ensures Valid(q) && Items(q) == []
  {
    Queue(Empty, Empty, 0, 0)
  }

  /** NewQueueFrom (queue.go:41-58): the items on the popper, numbered 1 to n. */
  method NewQueueFrom<V>(items: seq<V>) returns (q: Queue<V>)
    ensures Valid(q) && Items(q) == items
    ensures q.pusher == Empty && q.generation == 0 && q.lastSeqId == |items|
    ensures forall i :: 0 <= i < |items| ==> Ids(q.popper)[i] == i + 1
  {
    var popper: Stack<V> := Empty;
    var i := |items|;
    while i > 0
      invariant 0 <= i <= |items|
      invariant Values(popper) == items[i..]
      invariant forall j :: 0 <= j < |items| - i ==> Ids(popper)[j] == i + 1 + j
    {
      i := i - 1;
      popper := Node(items[i], popper, i + 1);
      assert items[i..] == [items[i]] + items[i + 1..];
    }
    q := Queue(popper, Empty, 0, |items|);
    assert Items(q) == items;
  }

  /**
   * Push (queue.go:61-87): the new node goes on the popper of an empty queue
   * and on the pusher otherwise.
   */
  function Push<V>(q: Queue<V>, value: V): Queue<V> {
    if q.popper.Empty? then
      Queue(Node(value, Empty, q.lastSeqId + 1), q.pusher, q.generation, q.lastSeqId + 1)
    else
      Queue(q.popper, Node(value, q.pusher, q.lastSeqId + 1), q.generation, q.lastSeqId + 1)
  }

  /**
   * Pop (queue.go:91-114), corrected: when the popper runs out, the reversed
   * pusher becomes the popper, the pusher is cleared and the generation grows.
   * An empty queue gives no value and the same queue.
   */
  function Pop<V>(q: Queue<V>): (Option<V>, Queue<V>) {
    if q.popper.Empty? then (None, q)
    else if q.popper.next.Empty? then
      (Some(q.popper.value), Queue(ReverseStack(q.pusher), Empty, q.generation + 1, q.lastSeqId))
    else
      (Some(q.popper.value), Queue(q.popper.next, q.pusher, q.generation, q.lastSeqId))
  }

  /** Pop as written (queue.go:91-114): the pusher is kept after it is moved onto the popper. */
  function PopAsWritten<V>(q: Queue<V>): (Option<V>, Queue<V>) {
    if q.popper.Empty? then (None, q)
    else if q.popper.next.Empty? then
      (Some(q.popper.value), Queue(ReverseStack(q.pusher), q.pusher, q.generation + 1, q.lastSeqId))
    else
      (Some(q.popper.value), Queue(q.popper.next, q.pusher, q.generation, q.lastSeqId))
  }

  /** Count (queue.go:116-122). */
  function Count<V>(q: Queue<V>): int {
    if q.popper.Empty? then 0 else q.lastSeqId - q.popper.seqId + 1
  }

  /** Peek (queue.go:124-135): an iterator at the front, or the end iterator when empty. */
  function Peek<V>(q: Queue<V>): (it: PeekIterator<V>)
    ensures it.hasValue <==> q.popper.Node?
    ensures !it.hasValue ==> it == EndIterator()
  {
    if q.popper.Empty? then EndIterator()
    else PeekIterator(Some(q.popper.value), true, q.popper, q.generation)
  }

  //-- Properties of the handle operations --//

  /** Count is the number of queued values. */
  lemma CountIsLength<V>(q: Queue<V>)
    requires Valid(q)
    ensures Count(q) == |Items(q)|
  {
    if q.popper.Node? {
      FrontOfQueue(q);
    }
  }

  /** Push appends the value at the back and keeps the invariant; the count grows by one. */
  lemma PushCorrect<V>(q: Queue<V>, value: V)
    requires Valid(q)
    ensures Valid(Push(q, value))
    ensures Items(Push(q, value)) == Items(q) + [value]
    ensures Count(Push(q, value)) == Count(q) + 1
  {
    var q' := Push(q, value);
    if q.popper.Node? {
      ReversedCons(value, Values(q.pusher));
      ReversedCons(q.lastSeqId + 1, Ids(q.pusher));
      assert AllIds(q') == AllIds(q) + [q.lastSeqId + 1];
    }
    CountIsLength(q);
    CountIsLength(q');
  }

  /**
   * Pop takes the value at the front and keeps the invariant; on a non-empty
   * queue the count drops by one, and an empty queue comes back unchanged.
   */
  lemma PopCorrect<V>(q: Queue<V>)
    requires Valid(q)
    ensures var (v, q') := Pop(q);
            && Valid(q')
            && (Items(q) == [] ==> v == None && q' == q)
            && (Items(q) != [] ==> v == Some(Items(q)[0]) && Items(q') == Items(q)[1..])
            && Count(q') == if Items(q) == [] then 0 else Count(q) - 1
  {
    if q.popper.Node? {
      FrontOfQueue(q);
      PopDropsFront(q);
      CountIsLength(q);
      CountIsLength(Pop(q).1);
    }
  }

  /** Popping a non-empty queue drops the first value and the first id, and keeps the invariant. */
  lemma PopDropsFront<V>(q: Queue<V>)
    requires Valid(q) && q.popper.Node?
    ensures Items(Pop(q).1) == Items(q)[1..]
    ensures AllIds(Pop(q).1) == AllIds(q)[1..]
    ensures Valid(Pop(q).1)
  {
    var q' := Pop(q).1;
    var p := q.popper;
    assert Values(p) == [p.value] + Values(p.next);
    assert Ids(p) == [p.seqId] + Ids(p.next);
    if p.next.Empty? {
      assert Items(q') == Reversed(Values(q.pusher));
      assert AllIds(q') == Reversed(Ids(q.pusher));
    } else {
      assert Items(q') == Values(p.next) + Reversed(Values(q.pusher));
      assert AllIds(q') == Ids(p.next) + Reversed(Ids(q.pusher));
    }
    assert Items(q') == Items(q)[1..];
    assert AllIds(q') == AllIds(q)[1..];
    assert First(q') == First(q) + 1;
    forall i | 0 <= i < |AllIds(q')|
      ensures AllIds(q')[i] == First(q') + i
    {
      assert AllIds(q')[i] == AllIds(q)[i + 1];
    }
  }

  /** Items leave the queue in the order they were pushed. */
  lemma {:induction false} PopsInPushOrder<V>(q: Queue<V>, values: seq<V>)
    requires Valid(q) && Items(q) == []
    ensures PopAll(PushAll(q, values), |values|) == values
    decreases |values|
  {
    PushAllAppends(q, values);
    PopAllTakes(PushAll(q, values), |values|);
  }

  /** The queue after pushing each value in turn. */
  function PushAll<V>(q: Queue<V>, values: seq<V>): Queue<V>
    decreases |values|
  {
    if |values| == 0 then q else PushAll(Push(q, values[0]), values[1..])
  }

  /** The values of n successive pops, where a pop that finds the queue empty contributes nothing. */
  function PopAll<V>(q: Queue<V>, n: nat): seq<V>
    decreases n
  {
    if n == 0 then []
    else
      var (v, q') := Pop(q);
      (if v.Some? then [v.value] else []) + PopAll(q', n - 1)
  }

  /** Taking n > 0 items of s is its head followed by n - 1 items of its tail. */
  lemma TakeCons<T>(s: seq<T>, n: nat)
    requires 0 < n <= |s|
    ensures s[..n] == [s[0]] + s[1..][..n - 1]
  {
  }

  lemma {:induction false} PushAllAppends<V>(q: Queue<V>, values: seq<V>)
    requires Valid(q)
    ensures Valid(PushAll(q, values)) && Items(PushAll(q, values)) == Items(q) + values
    decreases |values|
  {
    if |values| > 0 {
      PushCorrect(q, values[0]);
      PushAllAppends(Push(q, values[0]), values[1..]);
      assert Items(q) + [values[0]] + values[1..] == Items(q) + values;
    }
  }

  lemma {:induction false} PopAllTakes<V>(q: Queue<V>, n: nat)
    requires Valid(q) && n <= |Items(q)|
    ensures PopAll(q, n) == Items(q)[..n]
    decreases n
  {
    if n > 0 {
      var q' := Pop(q).1;
      FrontOfQueue(q);
      PopDropsFront(q);
      PopAllTakes(q', n - 1);
      assert PopAll(q, n) == [Items(q)[0]] + PopAll(q', n - 1);
      TakeCons(Items(q), n);
    }
  }

  /**
   * Pop as written: after pushing 1 and 2, the second pop moves the pusher
   * onto the popper but keeps it, so the third pop returns 2 again. The
   * corrected Pop returns nothing.
   */
  lemma AsWrittenPopRepeats()
    ensures var q := Push(Push(NewQueue(), 1), 2);
            && PopAsWritten(q).0 == Some(1)
            && PopAsWritten(PopAsWritten(q).1).0 == Some(2)
            && PopAsWritten(PopAsWritten(PopAsWritten(q).1).1).0 == Some(2)
            && Pop(Pop(Pop(q).1).1).0 == None
  {
  }

  //-- Peek iteration --//

  /**
   * What PeekNext relies on about an iterator: it points at a node that was
   * popped already, or, in the same generation, at a node of the popper, or,
   * in an earlier generation, at a node whose id is still on the popper.
   */
  ghost predicate Locatable<V>(it: PeekIterator<V>, q: Queue<V>) {
    && it.current.Node?
    && it.generation <= q.generation
    && (|| it.current.seqId < First(q)
        || (it.generation == q.generation && IsTail(it.current, q.popper))
        || (it.generation < q.generation && it.current.seqId in Ids(q.popper)))
  }

  /** An iterator as Peek and PeekNext return it: on a node of the popper, in the queue's generation. */
  ghost predicate Tracks<V>(it: PeekIterator<V>, q: Queue<V>) {
    if it.hasValue then
      && it.current.Node? && it.generation == q.generation && IsTail(it.current, q.popper)
      && it.value == Some(it.current.value)
    else it == EndIterator()
  }

  /** The position in Items of the value after the iterator's. */
  ghost function NextPos<V>(q: Queue<V>, it: PeekIterator<V>): int
    requires it.current.Node?
  {
    if it.current.seqId < First(q) then 0 else it.current.seqId - First(q) + 1
  }

  /**
   * PeekNext's promise: the new iterator holds the next value in queue order,
   * or is the end iterator past the last one; the returned queue has the same
   * values and is the same queue unless it was rebuilt with an empty pusher
   * and the next generation.
   */
  ghost predicate Advances<V>(q: Queue<V>, it: PeekIterator<V>, it': PeekIterator<V>, q': Queue<V>)
    requires it.current.Node?
  {
    && Valid(q') && Items(q') == Items(q) && Tracks(it', q')
    && (it'.hasValue <==> NextPos(q, it) < |Items(q)|)
    && (it'.hasValue ==> it'.value == Some(Items(q)[NextPos(q, it)]))
    && (q' == q || (q'.pusher == Empty && q'.generation == q.generation + 1 && q'.lastSeqId == q.lastSeqId))
  }

  /** Peek returns an iterator at the front value. */
  lemma PeekCorrect<V>(q: Queue<V>)
    requires Valid(q)
    ensures Tracks(Peek(q), q)
    ensures Peek(q).hasValue <==> Items(q) != []
    ensures Peek(q).hasValue ==> Peek(q).value == Some(Items(q)[0])
  {
    if q.popper.Node? {
      FrontOfQueue(q);
    }
  }

  /** An iterator as returned is locatable while it has a value. */
  lemma TracksLocatable<V>(it: PeekIterator<V>, q: Queue<V>)
    requires Tracks(it, q) && it.hasValue
    ensures Locatable(it, q)
  {
  }

  /** A node of the popper sits at the position its id gives. */
  lemma TailPosition<V>(q: Queue<V>, c: Stack<V>)
    requires Valid(q) && c.Node? && IsTail(c, q.popper)
    ensures var k := c.seqId - First(q);
            && 0 <= k < |Values(q.popper)|
            && Values(c) == Values(q.popper)[k..]
            && Items(q)[k] == c.value
  {
    TailSuffix(c, q.popper);
    var k := |Values(q.popper)| - |Values(c)|;
    assert Ids(c)[0] == AllIds(q)[k];
  }

  /** Push keeps an iterator locatable. */
  lemma LocatableAfterPush<V>(it: PeekIterator<V>, q: Queue<V>, value: V)
    requires Valid(q) && Locatable(it, q)
    ensures Locatable(it, Push(q, value))
  {
    PushCorrect(q, value);
  }

  /** Pop keeps an iterator locatable. */
  lemma LocatableAfterPop<V>(it: PeekIterator<V>, q: Queue<V>)
    requires Valid(q) && Locatable(it, q)
    ensures Locatable(it, Pop(q).1)
  {
    PopCorrect(q);
    if q.popper.Node? {
      FrontOfQueue(q);
      var c := it.current;
      if it.generation == q.generation && IsTail(c, q.popper) && c != q.popper {
        TailSuffix(c, q.popper.next);
      }
      if it.generation < q.generation && c.seqId in Ids(q.popper) && c.seqId != q.popper.seqId {
        assert c.seqId in Ids(q.popper.next);
        if q.popper.next.Empty? {
          assert false;
        }
      }
    }
  }

  /**
   * Rebuilding the popper with the reversed pusher beneath it, in a new
   * generation (queue.go:182-194), keeps every locatable iterator locatable:
   * the iterator's node now counts as an older generation's, and its id is
   * still on the popper.
   */
  lemma LocatableAfterRebuild<V>(it: PeekIterator<V>, q: Queue<V>)
    requires Valid(q) && Locatable(it, q)
    ensures Locatable(it, Queue(RebuildOnto(q.popper, ReverseStack(q.pusher)), Empty, q.generation + 1, q.lastSeqId))
  {
    var q' := Queue(RebuildOnto(q.popper, ReverseStack(q.pusher)), Empty, q.generation + 1, q.lastSeqId);
    var c := it.current;
    if q.popper.Node? {
      RebuildKeepsItems(q, ReverseStack(q.pusher));
      assert First(q') == First(q);
      if c.seqId >= First(q) {
        if it.generation == q.generation && IsTail(c, q.popper) {
          TailSuffix(c, q.popper);
          assert c.seqId == Ids(c)[0];
          assert c.seqId in Ids(q.popper);
        }
        assert Ids(q'.popper) == Ids(q.popper) + Ids(ReverseStack(q.pusher));
      }
    } else {
      assert Items(q') == Items(q);
    }
  }

  /** The iterator's node c has a successor: that is the next value, and the queue stays. */
  lemma AdvanceToNext<V>(q: Queue<V>, it: PeekIterator<V>, c: Stack<V>)
    requires Valid(q) && it.current.Node? && c.Node? && c.next.Node? && IsTail(c, q.popper)
    requires c.seqId == it.current.seqId && First(q) <= c.seqId
    ensures Advances(q, it, PeekIterator(Some(c.next.value), true, c.next, q.generation), q)
  {
    NextOnPopper(q, c);
  }

  /** The successor of a popper node c is a popper node too, and holds the value after c's. */
  lemma NextOnPopper<V>(q: Queue<V>, c: Stack<V>)
    requires Valid(q) && c.Node? && c.next.Node? && IsTail(c, q.popper) && First(q) <= c.seqId
    ensures IsTail(c.next, q.popper)
    ensures c.seqId - First(q) + 1 < |Items(q)|
    ensures Items(q)[c.seqId - First(q) + 1] == c.next.value
  {
    TailPosition(q, c);
    TailNext(c, q.popper);
    var k := c.seqId - First(q);
    assert Values(c) == [c.value] + Values(c.next);
    assert Values(c.next) == Values(q.popper)[k + 1..];
    assert Items(q)[k + 1] == Values(q.popper)[k + 1];
  }

  /** The iterator's node c is the popper's last and the pusher is empty: the queue is exhausted. */
  lemma AdvanceToEnd<V>(q: Queue<V>, it: PeekIterator<V>, c: Stack<V>)
    requires Valid(q) && it.current.Node? && c.Node? && c.next.Empty? && q.pusher.Empty? && IsTail(c, q.popper)
    requires c.seqId == it.current.seqId && First(q) <= c.seqId
    ensures Advances(q, it, EndIterator(), q)
  {
    TailPosition(q, c);
    assert Values(c) == [c.value];
  }

  /**
   * The iterator's node c is the popper's last and the pusher holds more: the
   * popper is rebuilt on top of the reversed pusher, whose front is the next value.
   */
  lemma AdvanceByRebuild<V>(q: Queue<V>, it: PeekIterator<V>, c: Stack<V>, bottom: Stack<V>)
    requires Valid(q) && it.current.Node? && c.Node? && c.next.Empty? && q.pusher.Node? && IsTail(c, q.popper)
    requires c.seqId == it.current.seqId && First(q) <= c.seqId
    requires bottom == ReverseStack(q.pusher)
    ensures bottom.Node?
    ensures var q' := Queue(RebuildOnto(q.popper, bottom), Empty, q.generation + 1, q.lastSeqId);
            Advances(q, it, PeekIterator(Some(bottom.value), true, bottom, q'.generation), q')
  {
    var q' := Queue(RebuildOnto(q.popper, bottom), Empty, q.generation + 1, q.lastSeqId);
    TailPosition(q, c);
    assert Values(c) == [c.value];
    assert Values(q.pusher) != [];
    RebuildKeepsItems(q, bottom);
    assert Items(q)[|Values(q.popper)|] == Values(bottom)[0];
    assert NextPos(q, it) == |Values(q.popper)|;
    assert IsTail(bottom, q'.popper);
    assert Tracks(PeekIterator(Some(bottom.value), true, bottom, q'.generation), q');
  }

  /** Rebuilding the popper on top of the reversed pusher keeps the values and ids in order. */
  lemma RebuildKeepsItems<V>(q: Queue<V>, bottom: Stack<V>)
    requires Valid(q) && q.popper.Node? && bottom == ReverseStack(q.pusher)
    ensures var q' := Queue(RebuildOnto(q.popper, bottom), Empty, q.generation + 1, q.lastSeqId);
            Valid(q') && Items(q') == Items(q) && AllIds(q') == AllIds(q)
  {
    var q' := Queue(RebuildOnto(q.popper, bottom), Empty, q.generation + 1, q.lastSeqId);
    assert Items(q') == Items(q);
    assert AllIds(q') == AllIds(q);
  }

  /** The node below a tail is a tail too. */
  lemma {:induction false} TailNext<V>(s: Stack<V>, t: Stack<V>)
    requires IsTail(s, t) && s.Node?
    ensures IsTail(s.next, t)
    decreases t
  {
    if s != t {
      TailNext(s, t.next);
    }
  }

  /**
   * PeekNext (queue.go:137-204): it panics on an iterator from a later
   * generation (and dereferences nil on an iterator with a value but no node),
   * returns the end iterator and the same queue on an empty queue or an
   * exhausted iterator, and restarts at the front when the iterator's node has
   * been popped. Otherwise it advances in queue order, finding the node again
   * by id after a rebuild, and rebuilds the popper from the pusher when it
   * runs off the popper's end.
   */
  method PeekNext<V>(q: Queue<V>, current: PeekIterator<V>) returns (r: Outcome<(PeekIterator<V>, Queue<V>)>)
    ensures r.Panicked? <==>
            current.generation > q.generation || (q.popper.Node? && current.hasValue && current.current.Empty?)
    ensures r.Returned? && (q.popper.Empty? || !current.hasValue) ==> r.value == (EndIterator(), q)
    ensures r.Returned? && Valid(q) && current.hasValue && Locatable(current, q) ==>
              Advances(q, current, r.value.0, r.value.1)
  {
    if current.generation > q.generation {
      return Panicked("Unexpected queue generation");
    }
    if q.popper.Empty? || !current.hasValue {
      return Returned((EndIterator(), q));
    }
    if current.current.Empty? {
      return Panicked("nil pointer dereference");
    }
    var c := current.current;
    if c.seqId < q.popper.seqId {
      if Valid(q) {
        FrontOfQueue(q);
      }
      return Returned((PeekIterator(Some(q.popper.value), true, q.popper, q.generation), q));
    }
    if current.generation < q.generation {
      var n := q.popper;
      while n.Node?
        invariant FindNode(n, current.current.seqId) == FindNode(q.popper, current.current.seqId)
        invariant c == current.current
        decreases n
      {
        if n.seqId == c.seqId {
          c := n;
          break;
        }
        n := n.next;
      }
      assert c == (match FindNode(q.popper, current.current.seqId) case Some(m) => m case None => current.current);
    }
    ghost var located := Valid(q) && Locatable(current, q);
    if located {
      FrontOfQueue(q);
    }
    if c.next.Node? {
      if located {
        AdvanceToNext(q, current, c);
      }
      return Returned((PeekIterator(Some(c.next.value), true, c.next, q.generation), q));
    }
    if q.pusher.Empty? {
      if located {
        AdvanceToEnd(q, current, c);
      }
      return Returned((EndIterator(), q));
    }
    var bottom := Reverse(q.pusher);
    if located {
      AdvanceByRebuild(q, current, c, bottom);
    }
    assert Values(q.pusher) != [];
    assert bottom.Node?;
    var popper := RebuildOnto(q.popper, bottom);
    var q' := Queue(popper, Empty, q.generation + 1, q.lastSeqId);
    return Returned((PeekIterator(Some(bottom.value), true, bottom, q'.generation), q'));
  }
}
