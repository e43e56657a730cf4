# Array-backed min-heap and hash-map base, modelled in Dafny

This project models two independent container components of a Python data-structures
repository and proves properties of the model.

- **`ArrayBasedHeap`** (`heap.dfy`, module `ArrayBasedHeap`): a binary min-heap kept in one
  Python list `_array`, read as a complete binary tree (parent `(i-1)//2`, children `2i+1`
  and `2i+2`). It has `push` (append, then bubble up), `pop_min` (swap the root with the
  last element, drop the last, bubble down), `peek_min` and `__len__`. The class `Heap`
  holds the list as a `seq<int>` field, and its methods change it step by step as the
  source does. Each method that changes the list is proved equal to a pure function on
  lists: `Swapped`, `SiftUp`, `SiftDown`, `AfterPush` or `AfterPop`. `Len` and `PeekMin`
  change nothing and state what they return. Lemmas about those functions prove that heap
  order is kept, that the elements are kept as a multiset, and that the popped root is
  the minimum. They also prove that draining a heap gives its elements in sorted order.
- **`BaseHashMap`** and **`Item`** (`base_map.dfy`, module `BaseMap`): `Item` is a
  key/value pair whose comparisons look only at the key. The hash-map base holds the
  bucket array, the size counter, the load-factor threshold and the multiply-add-divide
  (MAD) parameters `prime`, `scale` and `shift`. It provides the MAD compression
  `((hash(key) * scale + shift) % prime) % len(bucket_array)`, `__len__`, `load_factor`
  and `_resize`. `_resize` rebuilds the bucket array and inserts every old pair again
  through the concrete map's `__setitem__`. This base leaves `__setitem__` abstract. The
  model replaces it with its contract (`SetItem`) over `contents`, the key/value mapping
  that the concrete map stores and that `items()` lists.

Behaviour of the code worth noting:

- `_up_heap_bubbling` does not stop at the first parent that is already in order. It walks
  on to the root (`array_based_heap.py:28-32`). `SiftUp` models that walk.
  `SiftUpMatchesEarlyExit` proves that, from any state that bubbling can reach, the walk
  gives the same list as stopping early.
- In `down_heap_bubbling`, equal children send the comparison to the **right** child.
  Only `left < right` picks the left one (`array_based_heap.py:46-49`). `MinChild` and
  `SiftDownTieGoesRight` state this rule.
- The `_hash_func` docstring says the prime is larger than the bucket count. Nothing checks
  this. `MadCompress` proves what happens otherwise: the index never exceeds the
  intermediate value, so buckets from index `prime` upward are never used.

Integer arithmetic: Python's `//` and `%` by a positive divisor round toward minus
infinity. Dafny's `/` and `%` by a positive divisor give the same results, so the parent
index and both MAD reductions are written with Dafny's operators. Integers are unbounded
in both languages.

## Model

| member | source | states |
|---|---|---|
| `ArrayBasedHeap.Parent` | data_structures/trees/array_based_heap.py:15-16 | the parent index `(i-1)//2`, with Python's rounding toward minus infinity |
| `ArrayBasedHeap.ParentBrackets` | data_structures/trees/array_based_heap.py:15-16 | the parent `p` of `i` is the index whose two children bracket `i`: `2p+1 <= i <= 2p+2`, for every integer `i` |
| `ArrayBasedHeap.Left` | data_structures/trees/array_based_heap.py:18-19 | the left-child index `2i+1` |
| `ArrayBasedHeap.Right` | data_structures/trees/array_based_heap.py:21-22 | the right-child index `2i+2` |
| `ArrayBasedHeap.ParentOfChild` | data_structures/trees/array_based_heap.py:15-22 | the parent of the left child and of the right child of `i` is `i`, for every integer `i` |
| `ArrayBasedHeap.ChildOfParent` | data_structures/trees/array_based_heap.py:15-22 | a non-root index has its parent strictly below it, and is that parent's left or right child |
| `ArrayBasedHeap.Swapped` | data_structures/trees/array_based_heap.py:24-25 | positions `i` and `j` are exchanged, every other position is unchanged, and the length and multiset are kept |
| `ArrayBasedHeap.SiftUp` | data_structures/trees/array_based_heap.py:27-32 | bubbling up (walking to the root without an early exit) keeps the length and the multiset |
| `ArrayBasedHeap.UpStep` | data_structures/trees/array_based_heap.py:29-32 | one iteration of the bubble-up loop moves the only possible order violation from a node to its parent |
| `ArrayBasedHeap.SiftUpOrders` | data_structures/trees/array_based_heap.py:27-32 | bubbling up from the only possible violation gives a heap-ordered list |
| `ArrayBasedHeap.SiftUpOnHeap` | data_structures/trees/array_based_heap.py:27-32 | on a heap, bubbling up from any index changes nothing |
| `ArrayBasedHeap.SiftUpMatchesEarlyExit` | data_structures/trees/array_based_heap.py:28-32 | from a state that bubbling can reach, walking on to the root gives the same list as stopping at the first parent already in order |
| `ArrayBasedHeap.PushKeepsHeap` | data_structures/trees/array_based_heap.py:34-36 | pushing onto a heap gives a heap one element longer whose multiset is the old one plus `{v}` |
| `ArrayBasedHeap.AfterPush` | data_structures/trees/array_based_heap.py:34-36 | `push` on a list: append `v`, then bubble it up from the last index; the result is one longer and holds exactly one more `v` |
| `ArrayBasedHeap.MinChild` | data_structures/trees/array_based_heap.py:40-53 | the chosen child is in range and no larger than any child; it is the right child exactly when the right child exists and is not larger than the left (ties go right) |
| `ArrayBasedHeap.SiftDown` | data_structures/trees/array_based_heap.py:38-59 | bubbling down keeps the length and the multiset |
| `ArrayBasedHeap.DownStep` | data_structures/trees/array_based_heap.py:55-59 | swapping a node with the smaller child moves the only possible order violation down to that child |
| `ArrayBasedHeap.DownStop` | data_structures/trees/array_based_heap.py:44-57 | when no child is in range or the node is no larger than the chosen child, the list is heap-ordered |
| `ArrayBasedHeap.SiftDownOrders` | data_structures/trees/array_based_heap.py:38-59 | bubbling down from the only possible violation gives a heap-ordered list |
| `ArrayBasedHeap.SiftDownAtLeaf` | data_structures/trees/array_based_heap.py:39-44 | at an index with no child in range, including any index of the empty list, bubbling down changes nothing |
| `ArrayBasedHeap.SiftDownTieGoesRight` | data_structures/trees/array_based_heap.py:45-49 | with two equal children the right child is compared against: swapped with and recursed into if the node is larger, otherwise nothing changes |
| `ArrayBasedHeap.SiftDownOnHeap` | data_structures/trees/array_based_heap.py:38-59 | on a heap, bubbling down from any index changes nothing |
| `ArrayBasedHeap.AfterPop` | data_structures/trees/array_based_heap.py:66-69 | `pop_min` on a non-empty list: swap the root with the last element, drop the last, bubble the new root down; the result is one shorter and has lost exactly one copy of the root |
| `ArrayBasedHeap.RootIsMinimum` | data_structures/trees/array_based_heap.py:61-71 | the root of a heap-ordered list is no larger than any element |
| `ArrayBasedHeap.PoppedPrefixHole` | data_structures/trees/array_based_heap.py:67-68 | after swapping the root with the last element and dropping the last, only the new root can violate heap order |
| `ArrayBasedHeap.PoppedPrefixElements` | data_structures/trees/array_based_heap.py:67-68 | swapping the root with the last element and dropping the last removes exactly one copy of the root |
| `ArrayBasedHeap.PopKeepsHeap` | data_structures/trees/array_based_heap.py:61-71 | popping a non-empty heap: the old root is the minimum, and the result is a heap one shorter whose multiset has lost exactly one copy of the root |
| `ArrayBasedHeap.PushAllKeepsHeap` | data_structures/trees/array_based_heap.py:34-36 | pushing a list of values onto a heap keeps heap order and adds exactly those values |
| `ArrayBasedHeap.DrainSorted` | data_structures/trees/array_based_heap.py:61-71 | popping a heap until it is empty yields its elements, sorted |
| `ArrayBasedHeap.HeapSort` | data_structures/trees/array_based_heap.py:34-71 | pushing any values onto an empty heap and popping until empty yields a sorted permutation of those values |
| `ArrayBasedHeap.HeapSortGives` | data_structures/trees/array_based_heap.py:34-71 | that drain equals the sorted arrangement of the pushed values |
| `ArrayBasedHeap.ExampleHeapSort` | data_structures/trees/array_based_heap.py:34-71 | pushing 5, 3, 8, 1, 9, 2 and popping six times yields 1, 2, 3, 5, 8, 9 |
| `ArrayBasedHeap.Heap.constructor` | data_structures/trees/array_based_heap.py:9-10 | a new heap has an empty list, which is heap-ordered |
| `ArrayBasedHeap.Heap.Len` | data_structures/trees/array_based_heap.py:12-13 | the number of stored elements |
| `ArrayBasedHeap.Heap.Swap` | data_structures/trees/array_based_heap.py:24-25 | the list becomes `Swapped` of the old list |
| `ArrayBasedHeap.Heap.UpHeapBubbling` | data_structures/trees/array_based_heap.py:27-32 | the `while` loop leaves the list equal to `SiftUp` of the old list |
| `ArrayBasedHeap.Heap.Push` | data_structures/trees/array_based_heap.py:34-36 | heap order is kept; the length grows by one and the multiset gains `value` |
| `ArrayBasedHeap.Heap.DownHeapBubbling` | data_structures/trees/array_based_heap.py:38-59 | the recursion leaves the list equal to `SiftDown` of the old list, and on a heap it leaves the list unchanged |
| `ArrayBasedHeap.Heap.PopMin` | data_structures/trees/array_based_heap.py:61-71 | on an empty heap it reports `HeapIsEmpty` and nothing changes; otherwise it returns the old root, which is no larger than any element, and the list loses exactly that element while staying a heap |
| `ArrayBasedHeap.Heap.PeekMin` | data_structures/trees/array_based_heap.py:73-77 | it reports `HeapIsEmpty` on an empty heap, otherwise returns the root, which is the minimum; it modifies nothing |
| `BaseMap.Item.Eq` | data_structures/hash_maps/base_map.py:12-13 | `__eq__`: the keys are equal, whatever the values |
| `BaseMap.Item.Ne` | data_structures/hash_maps/base_map.py:12-13 | `!=`, which Python 3 derives from `__eq__`: the keys differ |
| `BaseMap.Item.Lt` | data_structures/hash_maps/base_map.py:15-16 | `__lt__`: the first key is smaller |
| `BaseMap.Item.Le` | data_structures/hash_maps/base_map.py:18-19 | `__le__`: the first key is smaller or equal |
| `BaseMap.Item.Gt` | data_structures/hash_maps/base_map.py:21-22 | `__gt__`: the first key is larger |
| `BaseMap.Item.Ge` | data_structures/hash_maps/base_map.py:24-25 | `__ge__`: the first key is larger or equal |
| `BaseMap.ItemEqualityIsKeyEquality` | data_structures/hash_maps/base_map.py:12-13 | two items are equal if and only if their keys are equal, and `!=` is its negation |
| `BaseMap.ItemComparisonsIgnoreValues` | data_structures/hash_maps/base_map.py:12-25 | replacing either item's value changes none of the six comparisons |
| `BaseMap.ItemOrderIsTotal` | data_structures/hash_maps/base_map.py:15-25 | exactly one of `<`, `==`, `>` holds; `<=` and `>=` are the unions with `==`; `>` is `<` reversed |
| `BaseMap.MadMix` | data_structures/hash_maps/base_map.py:73-79 | the intermediate value `(h*scale + shift) % P` lies in `[0, P)` for every hash code, negative ones included |
| `BaseMap.MadCompress` | data_structures/hash_maps/base_map.py:73-79 | the bucket index lies in `[0, N)`, and it is never larger than the intermediate value, which is below `P` |
| `BaseMap.EmptySlots` | data_structures/hash_maps/base_map.py:56 | `[None] * n` has `max(n, 0)` slots, all empty |
| `BaseMap.ToMapKeys` | data_structures/hash_maps/base_map.py:82-87 | a key is in the mapping described by a listing of pairs exactly when some pair has that key |
| `BaseMap.FreshKey` | data_structures/hash_maps/base_map.py:85-87 | in a listing without repeated keys, each pair's key is new when it is inserted again |
| `BaseMap.BaseHashMap.constructor` | data_structures/hash_maps/base_map.py:55-63 | the bucket array has `capacity` slots, all empty; the size is 0 and nothing is stored; `1 <= scale <= P-1` and `0 <= shift <= P-1` |
| `BaseMap.BaseHashMap.Len` | data_structures/hash_maps/base_map.py:65-66 | the number of stored pairs |
| `BaseMap.BaseHashMap.HashFunc` | data_structures/hash_maps/base_map.py:68-79 | the index lies in `[0, len(bucket_array))`, and it depends only on the key's hash code and the table's parameters |
| `BaseMap.BaseHashMap.HashFuncDeterministic` | data_structures/hash_maps/base_map.py:79 | keys with the same hash code land in the same bucket |
| `BaseMap.BaseHashMap.LoadFactor` | data_structures/hash_maps/base_map.py:89-90 | the load factor times the bucket count equals the number of stored pairs (an exact ratio), and it is non-negative |
| `BaseMap.BaseHashMap.SetItem` | data_structures/hash_maps/base_map.py:41-43 | the abstract insertion contract: the pair is stored, the size grows by one exactly when the key is new, and the bucket count and MAD parameters are kept |
| `BaseMap.BaseHashMap.Items` | data_structures/hash_maps/base_map.py:82 | lists every stored pair exactly once: no key repeats, and the listing describes exactly the stored mapping |
| `BaseMap.BaseHashMap.Resize` | data_structures/hash_maps/base_map.py:81-87 | the bucket array gets `new_capacity` slots; the stored pairs are exactly the old ones, the size equals the old size, and the MAD parameters and threshold are kept |

## Left out

- Heap elements are `int` and `Item` keys are `int`. The source accepts any ordered type, and the model uses integers to stand for any total order.
- The `None` sentinel in `down_heap_bubbling` (`array_based_heap.py:42-44`) is not modelled. A child is present when its index is in range. Heaps that store `None` are not modelled.
- The branch that chooses the right child when only the right child is present (`array_based_heap.py:52-53`) is kept in the code but can never run: the right index is the left index plus one.
- Python's negative indices are not modelled. `Swap` and `DownHeapBubbling` take natural numbers, and the source only ever passes such indices.
- The heap methods `Push`, `PopMin` and `PeekMin` assume the class invariant `Valid()` (heap order). The constructor establishes it and every public method keeps it, so every reachable heap satisfies it.
- `random.randrange` (`base_map.py:62-63`) is replaced by two constructor parameters. Their preconditions are the ranges `randrange` draws from.
- Python's built-in `hash()` is the `const` field `hash` of the map, a function from keys to integers. It is given at construction and is not modelled further.
- The abstract `BaseMap` methods `__init__`, `__iter__`, `__getitem__` and `__delitem__`, and the rest of `MutableMapping`, are not modelled; this file has no implementation for them. `__setitem__` appears only as its contract (`SetItem`), and `items()` as `Items` over `contents`.
- SetItem: where the concrete map puts the pair in the bucket array, and what a bucket holds, are left to the concrete map. The contract only keeps the bucket count, so the model does not connect `contents` with the bucket slots.
- SetItem, Resize: the insertion contract keeps the number of buckets, so it excludes a concrete `__setitem__` that itself resizes once the load factor passes the threshold. `Resize` ends with `new_capacity` buckets only under that assumption. With an insertion that resizes, re-inserting more than `new_capacity` times the threshold pairs would resize again, and the final bucket count would differ.
- `load_factor` is an exact real ratio rather than a float. `_load_factor_threshold` is stored and kept but never compared: no resize trigger exists in these files.
- HashFunc and LoadFactor require a non-empty bucket array: with zero buckets the source raises `ZeroDivisionError`.
- Resize: with `new_capacity <= 0` the bucket array is empty, as with Python's list repetition. The abstract insertion contract still succeeds there, whereas any concrete `__setitem__` that hashes would fail.
