# Immutable collections: a verified Dafny model

This project models the four persistent (copy-on-write) collections of the Go
library `immutable` and proves what they promise:

- **critbit trie** (`critbit/tree.go`): a crit-bit tree over byte-string keys.
  Each internal node holds a critical-bit descriptor: a byte index plus a
  mask with one zero bit, or 255 for "the keys differ in length here". Each
  leaf holds a key and its value. Modules `CritbitBits`, `CritbitTree` and
  `CritbitAsWritten`.
- **radix trie** (`trie/trie.go`): a compressed prefix tree. Each node holds
  its full key (`keySlice`), an optional value, and children indexed by the
  next key byte. Modules `RadixTrie` and `RadixTrieAsWritten`.
- **queue** (`queue/queue.go`): a FIFO made of two immutable stacks. The
  popper holds the front of the queue; the pusher holds the back in reverse
  order. Nodes carry sequential ids. A generation counter lets a resumable
  `PeekIterator` find its place again after the popper is rebuilt. Module
  `ImmutableQueue`.
- **cons list** (`flist/flist.go`): an immutable singly-linked list whose
  cells cache their length. Module `FList`.

Every structure has an abstract view and an invariant:

- critbit trie: `Contents` (a map) and `Valid`;
- radix trie: `Contents` (a map) and `Valid`;
- queue: `Items` (a sequence) and `Valid`;
- cons list: `Elements` (a sequence) and `Valid`.

Every operation is proved to keep its structure's invariant and to act on the
view as the library documents.

Pure path-copying recursions are modelled as functions over datatypes. The
source's loops are methods with loop invariants, each proved against a
specification function:

- `findCritbit`, `firstDiffIndex`, `startsWith` and `copyMap`;
- the child-filtering loop of `deleteNode`;
- `NewQueueFrom`, `node.reverse` and the search loop of `PeekNext`;
- `ConsFromSlice`, `Reverse`, `Aggregate` and `ToSlice`.

Go's `interface{}` values are a type parameter `V`. `nil` is `Option.None`,
and a panic is `Outcome.Panicked`. Both come from the module `Wrappers`,
which also holds `Reversed`, the reversal of a sequence.

Where the code and its documentation or tests disagree, the model follows
the code:

- Prefix keys. `findCritbit` anchors the length sentinel 255 at the shorter
  key's length (critbit/tree.go:217, 227). `findDirection` tests exactly that
  length (critbit/tree.go:195), so the two agree. Two tests expect the length
  minus one (critbit/tree_test.go:465-487). The model uses the code's anchor,
  and `CritbitBits.CritbitOfPrefix` proves it separates the two keys.
- Counts. Critbit nodes carry no subtree count (critbit/tree.go:12-25). Only
  the handle keeps a total `count` (critbit/tree.go:7-10), and `Len` returns
  it. The model's `Valid` ties that count to the number of leaves.
- Descriptor order. In a well-formed critbit trie, any two keys below an
  internal node first differ at that node's descriptor or later. "Later"
  means the order in which a key's bits are read. Byte indexes come first.
  Within a byte, the length test comes before the bits, which go from the
  most significant down. Only the corrected insert tie-break keeps this
  (see "## Findings").

Where the source is wrong, the model keeps an as-written member beside the
corrected one (see "## Findings"). The main modules use the corrected
definitions.

## Model

| member | source | states |
|---|---|---|
| CritbitBits.FindDirection | critbit/tree.go:192-204 | For the length mask 255: direction 0 exactly when the key's length equals critbyte. For a one-zero-bit mask: direction 1 exactly when that bit of the key byte is set. Always 0 or 1. |
| CritbitBits.Critbit | critbit/tree.go:206-244 | The descriptor of two keys. The keys agree below the byte index. The mask is 255 exactly when one key ends at that index. Otherwise the mask's only zero bit is the top bit of the XOR of the differing bytes. |
| CritbitBits.FindCritbit | critbit/tree.go:206-244 | The byte loop and the shift/OR/XOR steps compute exactly `Critbit(u, p)`. |
| CritbitBits.HighBitMask | critbit/tree.go:230-239 | The smear-and-invert steps give a one-zero-bit mask at the highest set bit of x. |
| CritbitBits.CritbitSymmetric | critbit/tree.go:206-244 | findCritbit gives the same descriptor with its arguments swapped. |
| CritbitBits.CritbitOfDifferingBytes | critbit/tree.go:214-239 | For keys first differing at byte i: the descriptor is (i, high-bit mask of the XOR), in both argument orders. |
| CritbitBits.CritbitOfPrefix | critbit/tree.go:192-228 | When one key is a strict prefix of the other, the descriptor is (shorter length, 255) in both orders. At it, the shorter key goes to child 0 and the longer to child 1. |
| CritbitBits.CritbitSeparates | critbit/tree.go:192-244 | Two different keys take different directions at their own critical bit. |
| CritbitBits.CritbitUltrametric | critbit/tree.go:137-165 | Of three different keys, the first differing position of one pair is never earlier than both of the other two. This is the ordering fact insertLeaf relies on. |
| CritbitBits.DirectionIsKeyBit | critbit/tree.go:192-204 | A descriptor's direction is the key's bit at that descriptor's position in the total bit order. |
| CritbitTree.NilTrie | critbit/tree.go:30-32 | The empty trie is valid and holds no keys. |
| CritbitTree.FindBestLeaf | critbit/tree.go:107-115 | The search ends at a leaf of the subtree, and that leaf's value is its key's value. |
| CritbitTree.FindBestLeafFindsPresent | critbit/tree.go:107-115 | On a well-formed tree, a key that is present is the leaf found. |
| CritbitTree.SetLeafCorrect | critbit/tree.go:117-135 | Replacing a present key's leaf changes only that key's value and keeps the shape valid. |
| CritbitTree.InsertLeafCorrect | critbit/tree.go:137-165 | Splicing a new key, at its critical bit against the best leaf, keeps the tree well formed. It adds exactly that key and one leaf. |
| CritbitTree.SplicesAboveIsLater | critbit/tree.go:139-140 | The corrected splice test holds exactly when the node's bit comes later in bit order than the new one. |
| CritbitTree.DeleteLeafCorrect | critbit/tree.go:167-190 | Removing a present key promotes its sibling. The tree stays well formed and only that key is removed. A lone leaf becomes nil. |
| CritbitTree.ShrinkWellFormed | critbit/tree.go:167-190 | An internal node whose children each lose keys stays well formed. This is why the promoted sibling is a valid child. |
| CritbitTree.Set | critbit/tree.go:58-61 | Set panics exactly when the value is nil. |
| CritbitTree.SetCorrect | critbit/tree.go:58-87 | After Set(k, v): the trie is valid and its contents are the old ones with k mapped to v. The previous value is returned. count grows by one exactly when k was absent, including on the empty trie. |
| CritbitTree.GetCorrect | critbit/tree.go:38-48 | Get returns exactly the value stored for the key in the contents, and nil otherwise. |
| CritbitTree.GetAfterSet | critbit/tree.go:38-87 | After Set(k, v), Get(k) is v, and Get of every other key is unchanged. |
| CritbitTree.LenIsSize | critbit/tree.go:51-53 | Len is the number of keys stored. |
| CritbitTree.DeleteCorrect | critbit/tree.go:89-103 | After Delete(k): the trie is valid, k is gone and nothing else changes. The old value is returned. count drops by one when k was present. For an absent key, or on the empty trie, the same trie and nil come back. |
| CritbitTree.DeleteLastKey | critbit/tree.go:94-100 | Deleting the only key gives the empty trie. |
| CritbitAsWritten.TieBreaksDiffer | critbit/tree.go:139-140 | The source's `n.critbit < critbit` and the corrected test disagree exactly for two different one-zero-bit masks in the same byte. |
| CritbitAsWritten.SetAsWritten | critbit/tree.go:58-87 | Set as written panics exactly for a nil value, or when findBestLeaf as written panics on the key's path (a key shorter than a byte index it tests). |
| CritbitAsWritten.AsWrittenSetLosesKey | critbit/tree.go:137-165 | On keys [0x01], [0x80], inserting [0x81] as written makes [0x01] unreachable. The corrected Set keeps it. |
| CritbitAsWritten.FindDirectionAsWritten | critbit/tree.go:192-204 | findDirection as written panics exactly for a one-zero-bit mask whose byte index is at or past the key's end. Otherwise it agrees with the model. |
| CritbitAsWritten.FindBestLeafAsWritten | critbit/tree.go:107-115 | findBestLeaf as written agrees with the model's FindBestLeaf whenever it does not panic. |
| CritbitAsWritten.GetAsWritten | critbit/tree.go:38-48 | Get as written agrees with the model's Get whenever it does not panic. |
| CritbitAsWritten.AsWrittenShortKeyPanics | critbit/tree.go:38-48 | In a valid trie holding "ffffff" and "fffffg", findDirection at the root indexes past the end of "aaa", so Get("aaa") and Set("aaa", 3) as written panic. The model's Get returns no value. |
| RadixTrie.FirstDiff | trie/trie.go:245-261 | The first index below both lengths where the keys differ, or the shorter length. Bytes agree below it. |
| RadixTrie.FirstDiffSymmetric | trie/trie.go:245-261 | firstDiffIndex is symmetric. |
| RadixTrie.FirstDiffAfterPrefix | trie/trie.go:156 | After a common prefix p, the first difference of the suffixes plus p is the first difference of the whole keys. |
| RadixTrie.FirstDiffIndex | trie/trie.go:245-261 | The loop computes exactly FirstDiff. |
| RadixTrie.StartsWith | trie/trie.go:236-243 | Given a prefix no longer than the key, the result is true exactly when the key begins with the prefix. |
| RadixTrie.CopyMap | trie/trie.go:228-234 | The copy has exactly the same entries. |
| RadixTrie.RemoveChild | trie/trie.go:313-319 | The filtered map is the children without the removed byte. |
| RadixTrie.NilTrie | trie/trie.go:38-48 | The empty trie is valid and holds no keys. |
| RadixTrie.Set | trie/trie.go:52-55 | Set panics exactly when the value is nil. |
| RadixTrie.SetCorrect | trie/trie.go:52-86 | After Set(k, v): the trie is valid and its contents are the old ones with k mapped to v. The previous value is returned. count grows exactly when k was absent. The empty key keeps the root's children. |
| RadixTrie.GetNode | trie/trie.go:344-361 | A node found for a key has that key as its keySlice. |
| RadixTrie.GetNodeCorrect | trie/trie.go:344-361 | getNode finds the key's value, or nil when there is none. A valueless internal node counts as none. |
| RadixTrie.GetCorrect | trie/trie.go:90-100 | Get returns exactly the value stored for the key, including the empty key, and nil otherwise. |
| RadixTrie.GetAfterSet | trie/trie.go:52-100 | After Set(k, v), Get(k) is v, and Get of every other key is unchanged. |
| RadixTrie.LenIsSize | trie/trie.go:103-105 | Len is the number of keys with values. |
| RadixTrie.SetNode | trie/trie.go:136-222 | The rebuilt node keeps its keySlice. |
| RadixTrie.SetNodeCorrect | trie/trie.go:136-222 | setNode keeps the subtree well formed and returns the key's previous value. It changes only that key's value. |
| RadixTrie.LeafAbove | trie/trie.go:170-179 | A leaf placed above an existing child is well formed and adds exactly the new key. |
| RadixTrie.SetNodeSplits | trie/trie.go:197-211 | The split branch builds a valueless node at the first difference holding both the old child and the new leaf. Only the new key changes. |
| RadixTrie.SplitNode | trie/trie.go:197-211 | The two-child node made by a split is well formed and adds exactly the new key. |
| RadixTrie.OnlyChild | trie/trie.go:300-310 | The only child of a one-entry map is that entry's node. |
| RadixTrie.MergeOnlyChild | trie/trie.go:300-310 | Replacing a valueless one-child node by its child removes only that node's own key. |
| RadixTrie.DeleteNode | trie/trie.go:263-341 | The node keeps its keySlice. When nothing was removed, it is unchanged. |
| RadixTrie.DeleteNodeCorrect | trie/trie.go:263-341 | deleteNode keeps the subtree well formed and returns the key's old value. It changes only that key, which becomes absent. |
| RadixTrie.DeleteCorrect | trie/trie.go:109-133 | After Delete(k): the trie is valid, k is gone and nothing else changes. The old value is returned and count drops by one when k was present. For an absent key the same trie comes back. |
| RadixTrie.GetAfterDelete | trie/trie.go:109-133 | After Delete(k), Get(k) fails, and every other key keeps its value. |
| RadixTrie.DeleteAbsent | trie/trie.go:109-133 | Deleting an absent key returns the identical trie and nil. |
| RadixTrie.KeySetIsFound | trie/trie.go:20-22 | A key is in the trie exactly when its node is a leaf, i.e. has a value. |
| RadixTrieAsWritten.GetNodeAsWritten | trie/trie.go:344-361 | getNode as written agrees with the model whenever it does not panic. |
| RadixTrieAsWritten.GetAsWritten | trie/trie.go:90-100 | Get as written agrees with the model whenever it does not panic. |
| RadixTrieAsWritten.DeleteNodeAsWritten | trie/trie.go:263-341 | deleteNode as written returns the node unchanged when it removes nothing. |
| RadixTrieAsWritten.DeleteAsWritten | trie/trie.go:109-133 | Delete as written of the empty key agrees with the model. |
| RadixTrieAsWritten.AsWrittenGetPanics | trie/trie.go:346-359 | In a trie holding "xz", Get("xy") indexes past the end of the key as written. The model returns nil. |
| RadixTrieAsWritten.AsWrittenDeletePanics | trie/trie.go:263-274 | In a trie holding "xz", Delete("xy") as written recurses into the node of "xz" and indexes past the end of the key. The model's Delete returns the same trie and no value. |
| RadixTrieAsWritten.AsWrittenDeleteDropsSibling | trie/trie.go:300-310 | In a trie of "a", "ab" and "b", deleting "a" as written loses "b". The corrected Delete keeps it. |
| RadixTrieAsWritten.AsWrittenDeleteResetsAncestor | trie/trie.go:326-340 | In a trie of "", "ab" and "ac", deleting "ab" as written loses the root's value. The corrected Delete keeps it. |
| RadixTrieAsWritten.AsWrittenDeleteMatchesSuffix | trie/trie.go:276 | In a trie of "abc" and "abd", deleting "axc" as written removes "abc" and returns its value. |
| RadixTrieAsWritten.SuffixContents | trie/trie.go:109-133 | That trie holds exactly "abc" and "abd". The corrected Delete of the absent "axc" gives back the same trie and no value. |
| ImmutableQueue.Ids | queue/queue.go:29-35 | A stack has as many ids as values. |
| ImmutableQueue.ReverseStack | queue/queue.go:206-218 | The reversed stack holds the values and ids in reverse order. |
| ImmutableQueue.ReverseOnto | queue/queue.go:209-215 | Pushing the nodes in turn onto an accumulator puts them, reversed, above it. |
| ImmutableQueue.Reverse | queue/queue.go:206-218 | node.reverse's loop builds exactly the reversed stack. |
| ImmutableQueue.RebuildOnto | queue/queue.go:220-231 | The copy holds the values and ids of the top followed by the bottom. The bottom stack is kept as its tail. |
| ImmutableQueue.FindNode | queue/queue.go:163-170 | The node found carries the id and lies on the stack. Nothing is found exactly when the id is absent. |
| ImmutableQueue.TailSuffix | queue/queue.go:29-35 | A node reached along next pointers holds a suffix of the stack's values and ids. |
| ImmutableQueue.NewQueue | queue/queue.go:37-39 | The new queue is valid and empty. |
| ImmutableQueue.NewQueueFrom | queue/queue.go:41-58 | The queue holds the items in order. They are numbered 1 to n on the popper, with lastSeqId n, an empty pusher and generation 0. |
| ImmutableQueue.FrontOfQueue | queue/queue.go:6-14 | The popper's top is the front of a valid queue and has the smallest id. |
| ImmutableQueue.PushCorrect | queue/queue.go:61-87 | Push appends the value at the back, keeps the queue valid and raises Count by one. |
| ImmutableQueue.PopCorrect | queue/queue.go:91-114 | On a non-empty queue, Pop returns the front value and leaves the rest in order, with Count down by one. An empty queue gives nil and the same queue. |
| ImmutableQueue.PopsInPushOrder | queue/queue.go:61-114 | Values pushed onto an empty queue are popped back in the same order. |
| ImmutableQueue.CountIsLength | queue/queue.go:116-122 | Count is the number of queued values. |
| ImmutableQueue.Peek | queue/queue.go:124-135 | The iterator has a value exactly when the queue is non-empty. Otherwise it is the empty iterator. |
| ImmutableQueue.PeekCorrect | queue/queue.go:124-135 | Peek's iterator holds the front value and points at the popper's top in the current generation. |
| ImmutableQueue.TailPosition | queue/queue.go:163-182 | A node of the popper sits at the position its id gives in the queue. |
| ImmutableQueue.TracksLocatable | queue/queue.go:137-170 | An iterator as returned can be resumed. |
| ImmutableQueue.LocatableAfterPush | queue/queue.go:61-87 | Pushing keeps an iterator resumable. |
| ImmutableQueue.LocatableAfterPop | queue/queue.go:150-170 | Popping keeps an iterator resumable. Its node is either popped already, or its id is still on the popper. |
| ImmutableQueue.LocatableAfterRebuild | queue/queue.go:182-194 | Rebuilding the popper onto the reversed pusher in a new generation keeps an iterator resumable. Its node is popped already, or its id is on the new popper. |
| ImmutableQueue.AdvanceToNext | queue/queue.go:173-182 | When the node has a successor, the next iterator holds the next value and the queue is kept. |
| ImmutableQueue.AdvanceToEnd | queue/queue.go:185-188 | At the popper's end with an empty pusher, the iterator is past the last value. |
| ImmutableQueue.AdvanceByRebuild | queue/queue.go:189-202 | Rebuilding the popper onto the reversed pusher keeps the values and the invariant. The next generation starts there, and the new iterator holds the next value. |
| ImmutableQueue.RebuildKeepsItems | queue/queue.go:189-199 | The rebuilt queue has the same values and ids and stays valid. |
| ImmutableQueue.PeekNext | queue/queue.go:137-204 | Panics: exactly for an iterator from a later generation, or one with a value but no node. On an empty queue or an exhausted iterator: the empty iterator and the same queue. Otherwise on a valid queue and a resumable iterator: the next value in queue order (restarting at the front when the node was popped), or the end. The queue is the same, or rebuilt with an empty pusher in the next generation. |
| ImmutableQueue.AsWrittenPopRepeats | queue/queue.go:91-114 | After pushing 1 and 2, Pop as written returns 1, then 2, then 2 again. The corrected Pop returns nothing the third time. |
| FList.NilList | flist/flist.go:20-22 | The empty list is valid, has no items and is nil. |
| FList.ConsValid | flist/flist.go:35-41 | Cons puts the item in front of a valid list and keeps it valid. |
| FList.HeadTailOfCons | flist/flist.go:35-77 | After Cons, Head and Tail give back the item and the original list, and Count is one more. |
| FList.ConsFromSlice | flist/flist.go:26-32 | The list holds the slice's items in the same order, and its Count is their number. |
| FList.PrependCorrect | flist/flist.go:45-51 | Prepend gives the items followed by onto, with the counts added. Prepending the empty list gives onto itself. |
| FList.CountIsLength | flist/flist.go:56-63 | Count is the number of items. IsNil holds exactly for the empty list. |
| FList.Head | flist/flist.go:66-68 | Head has a value exactly for a non-empty list. |
| FList.Tail | flist/flist.go:75-77 | Tail has a list exactly for a non-empty list. |
| FList.MapSeq | flist/flist.go:83-90 | The mapped sequence has the same length, with f applied at every index. |
| FList.MapCorrect | flist/flist.go:83-90 | Map applies f to each item in order and keeps Count. |
| FList.FilterSeq | flist/flist.go:94-104 | The filtered sequence holds only items of the input that satisfy f, and every such item. |
| FList.FilterSeqCons | flist/flist.go:94-104 | Filtering an item followed by more gives the item's own filter followed by the filter of the rest. |
| FList.FilterCorrect | flist/flist.go:94-104 | Filter keeps exactly the items satisfying f, in their original order, and the list stays valid. |
| FList.Reverse | flist/flist.go:107-115 | The result holds the items in reverse order with the same Count. |
| FList.Aggregate | flist/flist.go:121-127 | The running result after each cell is the left fold of agg over the items visited so far, starting at init, so the result is the fold over all items. |
| FList.FoldLeftSnoc | flist/flist.go:121-127 | Folding one more item applies agg once more, to the running result and that item. This is the step of Aggregate's loop. |
| FList.ToSlice | flist/flist.go:130-141 | A fresh array of Count cells holds the items in order. With ConsFromSlice this gives ToSlice(ConsFromSlice(s)) == s. |

## Left out

- I/O, concurrency and formatting. `List.ToChan` (flist/flist.go:145-154) starts a goroutine that feeds a channel. The debug printers (`printDbg`, the test dumpers) and the benchmarks only print or time.
- `VisitAscend`: its implementation is not part of this model. Ascending order is not claimed for the as-written insert tie-break either.
- `map.go`: a thin adapter over the radix trie with no logic of its own.
- Integer widths: the `uint32` counts of the tries and the `uint64` ids and generations of the queue are unbounded integers here, so wrap-around after 2^32 or 2^64 operations is not modelled. The bytes of the critbit trie are `bv8`, and its direction arithmetic keeps Go's 8-bit wrap-around.
- Pointer identity. Where the source or its tests compare pointers (the same trie back after a failed delete, the same queue back from an empty Pop), the model compares values. A queue iterator's node "on the popper" is a node equal to a tail of the popper stack.
- Key cloning and slice aliasing (trie/trie.go:75-76). Keys are immutable sequences, so copying them has no effect to model.
- A nil key and the empty key are the same `[]` here. The critbit trie tells a leaf by `n.key != nil` (critbit/tree.go:108, 118, 139, 169), so as written a leaf stored under a nil key is later read as an internal node with nil children, and the next lookup dereferences nil. The model stores that key as `[]` like any other key.
- Radix children are keyed by an integer subtype `byte` (0..255), not Go's `byte`.
- RadixTrie.Set: requires that the root is the well-formed empty-key node. Every trie built by NilTrie, Set and Delete has such a root. The debug panics of setNode (trie/trie.go:184-190) are then unreachable and are not modelled.
- FList: the shared `nilList` cell is the constructor `Nil`, which always has count 0. A cell with a wrong cached count cannot be built outside the package, so Reverse, Aggregate and ToSlice require `Valid`.
- FList.Map: Go's map function is `interface{} -> interface{}`, so the model's `f` maps `V` to `V`. `f` and the Filter and Aggregate functions are total Dafny functions without side effects.
- ImmutableQueue.PeekNext: an iterator that still carries a value it was built from is assumed to point into the queue it is resumed on, as in the source. With an iterator from another queue, only the panic and empty-queue cases are specified.
- CritbitBits.FindDirection reads a byte past the key's end as 0, where the source panics (see "## Findings").
- CritbitAsWritten.SetAsWritten: the as-written descent of findBestLeaf supplies its short-key panic. setLeaf and insertLeaf (critbit/tree.go:117-165) test the key only at nodes on that same path. insertLeaf also tests it at the new descriptor, whose byte index is at most the key's length, with the sentinel 255 at exactly that length. So SetAsWritten takes their descent from the model. No separate lemma states that they read no byte the descent did not.
- RadixTrie.GetNode compares whole keys and returns nil for an absent key, where the source indexes past the end of a key as long as the child's keySlice (see "## Findings").
- RadixTrie.DeleteNode differs from the source in four ways, each a row of "## Findings". It returns the node unchanged for an absent key, where the source indexes past the end of a key as long as the node's keySlice (trie/trie.go:269). It compares whole keys, where the source compares only the suffixes past the parent's keySlice (trie/trie.go:276). When it merges a child that keeps one grandchild, it replaces only that child's entry, where the source rebuilds the parent with the grandchild as its only child (trie/trie.go:300-310). After a recursive delete it keeps the parent's value and keySlice, where the source resets them to nil and an empty keySlice (trie/trie.go:326-340).
- CritbitBits.Critbit: for a key that is a prefix of the other, it returns the shorter key's length as the byte index, as the code does (3 for a 3-byte prefix of a 4-byte key). Two tests (critbit/tree_test.go:465-487) expect that length minus one (2 and 3).

## Findings

| source | as written | input that shows it | evidently intended | confidence | as-written member | corrected member |
|---|---|---|---|---|---|---|
| critbit/tree.go:139-140 | Within one byte, a node splices the new descriptor above itself when its mask is numerically smaller (`n.critbit < critbit`). A smaller mask is a higher bit, which comes earlier. | Set [0x01], then [0x80], then [0x81]; Get [0x01] then fails. | Descriptors lie in bit order along every path, so a node whose bit comes later is the one spliced below. | not executed | CritbitAsWritten.AsWrittenSetLosesKey | CritbitTree.SetCorrect |
| critbit/tree.go:201 | findDirection indexes `key[critbyte]` even when the key is shorter. | After "ffffff" and "fffffg", Get or Set of "aaa" indexes byte 5 of a 3-byte key and panics. | A key too short to reach the tested byte is sent down one side, here as if the byte were 0. | not executed | CritbitAsWritten.AsWrittenShortKeyPanics | CritbitTree.GetCorrect |
| trie/trie.go:346-350 | getNode indexes `key[len(t.keySlice)]` when the key is exactly as long as the child's keySlice. | In a trie holding "xz", Get("xy") panics. | A key that is not the child's key is absent. | not executed | RadixTrieAsWritten.AsWrittenGetPanics | RadixTrie.GetCorrect |
| trie/trie.go:300-310 | Merging a child that keeps one grandchild replaces the parent's whole child map by that grandchild. | In a trie holding "a", "ab" and "b", Delete("a") also loses "b". | Only the merged child's entry changes; its siblings stay. | not executed | RadixTrieAsWritten.AsWrittenDeleteDropsSibling | RadixTrie.DeleteCorrect |
| trie/trie.go:326-340 | After a recursive delete, the parent is rebuilt with a nil value and an empty keySlice. | In a trie holding "", "ab" and "ac", Delete("ab") loses the value of "". | The parent keeps its own value and keySlice. | not executed | RadixTrieAsWritten.AsWrittenDeleteResetsAncestor | RadixTrie.GetAfterDelete |
| trie/trie.go:269 | deleteNode indexes `key[len(t.keySlice)]` when the key is exactly as long as the node's keySlice, and it recurses into a child whose keySlice differs from the key. | In a trie holding only "xz", Delete("xy") recurses into the node of "xz" and panics. | An absent key leaves the trie unchanged. | not executed | RadixTrieAsWritten.AsWrittenDeletePanics | RadixTrie.DeleteAbsent |
| trie/trie.go:276 | deleteNode compares only the key suffixes past the parent's keySlice. | In a trie holding "abc" and "abd", Delete("axc") removes "abc" and returns its value. | Only the exact key is removed; an absent key leaves the trie unchanged. | not executed | RadixTrieAsWritten.AsWrittenDeleteMatchesSuffix | RadixTrie.DeleteAbsent |
| queue/queue.go:102-113 | When the popper runs out, Pop moves the reversed pusher onto the popper but keeps the pusher. | Push 1, Push 2, then Pop three times: 1, 2, then 2 again (and Count stays wrong). | The pusher is emptied when it moves to the popper, as PeekNext does (queue/queue.go:189-198). | not executed | ImmutableQueue.AsWrittenPopRepeats | ImmutableQueue.PopCorrect |
