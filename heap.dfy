/** An array-backed binary min-heap: one growable list read as a complete binary
    tree through index arithmetic. The pure functions below describe what each
    operation does to the list; the class `Heap` performs the same steps in place
    and is proved to agree with them. */
module ArrayBasedHeap {

  /** The condition `peek_min` and `pop_min` raise on an empty heap ("heap is empty"). */
  datatype Error = HeapIsEmpty

  datatype Result<T> = Ok(value: T) | Err(error: Error)

  // Index arithmetic of the implicit tree. Python's `//` rounds toward minus
  // infinity; Dafny's `/` by a positive divisor does the same.

  /** `_parent`: `(i - 1) // 2`. */
  function Parent(i: int): int {
    (i - 1) / 2
  }

  /** The parent of `i` is the index whose two children bracket `i`. */
  lemma ParentBrackets(i: int)
    ensures 2 * Parent(i) + 1 <= i <= 2 * Parent(i) + 2
  {}

  /** `_left`: `2i + 1`. */
  function Left(i: int): int {
    2 * i + 1
  }

  /** `_right`: `2i + 2`. */
  function Right(i: int): int {
    2 * i + 2
  }

  /** The parent of either child of `i` is `i` again, for every integer `i`. */
  lemma ParentOfChild(i: int)
    ensures Parent(Left(i)) == i && Parent(Right(i)) == i
  {}

  /** Every non-root index is the left or the right child of its parent, and the
      parent lies strictly before it. */
  lemma ChildOfParent(j: int)
    requires j >= 1
    ensures 0 <= Parent(j) < j
    ensures j == Left(Parent(j)) || j == Right(Parent(j))
  {}

  /** Heap order: no element is smaller than its parent. */
  ghost predicate HeapOrdered(s: seq<int>) {
    forall i :: 1 <= i < |s| ==> s[Parent(i)] <= s[i]
  }

  /** `_swap`: the list with positions `i` and `j` exchanged. */
  function Swapped(s: seq<int>, i: int, j: int): (r: seq<int>)
    requires 0 <= i < |s| && 0 <= j < |s|
    ensures |r| == |s| && r[i] == s[j] && r[j] == s[i]
    ensures forall k :: 0 <= k < |s| && k != i && k != j ==> r[k] == s[k]
    ensures multiset(r) == multiset(s)
  {
    s[i := s[j]][j := s[i]]
  }

  // ---------------------------------------------------------------------------
  // Upward bubbling

  /** `_up_heap_bubbling` as written: from `k` it walks all the way to the root,
      swapping a node with its parent whenever the node is strictly smaller, and
      it does not stop at the first parent that is already in order. */
  function SiftUp(s: seq<int>, k: int): (r: seq<int>)
    requires k < |s|
    ensures |r| == |s| && multiset(r) == multiset(s)
    decreases k
  {
    if k < 1 then s
    else
      var p := Parent(k);
      SiftUp(if s[k] < s[p] then Swapped(s, k, p) else s, p)
  }

  /** Heap order holds everywhere except possibly between `k` and its parent, and
      the parent of `k` is no larger than the children of `k`. */
  ghost predicate UpHole(s: seq<int>, k: int)
    requires 0 <= k < |s|
  {
    && (forall i :: 1 <= i < |s| && i != k ==> s[Parent(i)] <= s[i])
    && (k >= 1 ==> forall c :: 1 <= c < |s| && Parent(c) == k ==> s[Parent(k)] <= s[c])
  }

  /** One step of upward bubbling moves the hole from `k` to its parent. */
  lemma UpStep(s: seq<int>, k: int)
    requires 1 <= k < |s| && UpHole(s, k)
    ensures UpHole(if s[k] < s[Parent(k)] then Swapped(s, k, Parent(k)) else s, Parent(k))
  {
    var p := Parent(k);
    ChildOfParent(k);
    if s[k] < s[p] {
      var t := Swapped(s, k, p);
      forall i | 1 <= i < |t| && i != p
        ensures t[Parent(i)] <= t[i]
      {
        ChildOfParent(i);
        if i == k {
        } else if Parent(i) == p {
          assert s[p] <= s[i];
        } else if Parent(i) == k {
          assert t[k] == s[p] <= s[i];
        }
      }
      if p >= 1 {
        ChildOfParent(p);
        forall c | 1 <= c < |t| && Parent(c) == p
          ensures t[Parent(p)] <= t[c]
        {
          ChildOfParent(c);
          assert s[Parent(p)] <= s[p];
          if c != k {
            assert s[p] <= s[c];
          }
        }
      }
    } else {
      assert HeapOrdered(s);
      if p >= 1 {
        ChildOfParent(p);
        forall c | 1 <= c < |s| && Parent(c) == p
          ensures s[Parent(p)] <= s[c]
        {
          ChildOfParent(c);
          assert s[Parent(p)] <= s[p];
        }
      }
    }
  }

  /** Upward bubbling from a hole restores heap order. */
  lemma {:induction false} SiftUpOrders(s: seq<int>, k: int)
    requires 0 <= k < |s| && UpHole(s, k)
    ensures HeapOrdered(SiftUp(s, k))
    decreases k
  {
    if k >= 1 {
      ChildOfParent(k);
      UpStep(s, k);
      var p := Parent(k);
      SiftUpOrders(if s[k] < s[p] then Swapped(s, k, p) else s, p);
    }
  }

  /** On a heap, upward bubbling from any position changes nothing. */
  lemma {:induction false} SiftUpOnHeap(s: seq<int>, k: int)
    requires HeapOrdered(s) && k < |s|
    ensures SiftUp(s, k) == s
    decreases k
  {
    if k >= 1 {
      ChildOfParent(k);
      SiftUpOnHeap(s, Parent(k));
    }
  }

  /** Upward bubbling that stops at the first parent already in order. */
  function SiftUpEarlyExit(s: seq<int>, k: int): seq<int>
    requires k < |s|
    decreases k
  {
    if k < 1 then s
    else
      var p := Parent(k);
      if s[k] < s[p] then SiftUpEarlyExit(Swapped(s, k, p), p) else s
  }

  /** From a hole, walking on to the root after the first parent in order gives
      the same list as stopping there. */
  lemma {:induction false} SiftUpMatchesEarlyExit(s: seq<int>, k: int)
    requires 0 <= k < |s| && UpHole(s, k)
    ensures SiftUp(s, k) == SiftUpEarlyExit(s, k)
    decreases k
  {
    if k >= 1 {
      var p := Parent(k);
      ChildOfParent(k);
      UpStep(s, k);
      if s[k] < s[p] {
        SiftUpMatchesEarlyExit(Swapped(s, k, p), p);
      } else {
        assert HeapOrdered(s);
        SiftUpOnHeap(s, p);
      }
    }
  }

  /** `push`: append, then bubble the new last element up. */
  function AfterPush(s: seq<int>, v: int): (r: seq<int>)
    ensures |r| == |s| + 1
    ensures multiset(r) == multiset(s) + multiset{v}
  {
    SiftUp(s + [v], |s|)
  }

  /** Pushing onto a heap gives a heap one longer, holding one more `v`. */
  lemma PushKeepsHeap(s: seq<int>, v: int)
    requires HeapOrdered(s)
    ensures HeapOrdered(AfterPush(s, v))
    ensures |AfterPush(s, v)| == |s| + 1
    ensures multiset(AfterPush(s, v)) == multiset(s) + multiset{v}
  {
    var t := s + [v];
    forall i | 1 <= i < |t| && i != |s|
      ensures t[Parent(i)] <= t[i]
    {
      ChildOfParent(i);
    }
    ChildOfParentAll(t);
    SiftUpOrders(t, |s|);
  }

  // ---------------------------------------------------------------------------
  // Downward bubbling

  /** The child of `i` that `down_heap_bubbling` compares against: the left child
      only when it is strictly smaller than the right one or there is no right
      child, so equal children send the comparison to the right. */
  function MinChild(s: seq<int>, i: nat): (m: int)
    requires Left(i) < |s|
    ensures m == Left(i) || m == Right(i)
    ensures i < m < |s|
    ensures m == Right(i) <==> Right(i) < |s| && s[Right(i)] <= s[Left(i)]
    ensures forall c :: 1 <= c < |s| && Parent(c) == i ==> s[m] <= s[c]
  {
    ChildOfParentAll(s);
    var left, right := Left(i), Right(i);
    if left < |s| && right < |s| then
      if s[left] < s[right] then left else right
    else if left < |s| then left
    else right
  }

  /** `ChildOfParent` for every non-root index of `s`. */
  lemma ChildOfParentAll(s: seq<int>)
    ensures forall c :: 1 <= c < |s| ==> 0 <= Parent(c) < c
    ensures forall c :: 1 <= c < |s| ==> c == Left(Parent(c)) || c == Right(Parent(c))
  {
    forall c | 1 <= c < |s|
      ensures 0 <= Parent(c) < c
      ensures c == Left(Parent(c)) || c == Right(Parent(c))
    {
      ChildOfParent(c);
    }
  }

  /** `down_heap_bubbling` as written: when `i` has a child in range, compare it
      with `MinChild` and, if it is strictly greater, swap and continue from the
      child; otherwise leave the list alone. */
  function SiftDown(s: seq<int>, i: nat): (r: seq<int>)
    ensures |r| == |s| && multiset(r) == multiset(s)
    decreases |s| - i
  {
    if Left(i) < |s| || Right(i) < |s| then
      var m := MinChild(s, i);
      if s[i] > s[m] then SiftDown(Swapped(s, i, m), m) else s
    else s
  }

  /** Heap order holds everywhere except possibly between `i` and its children,
      and the parent of `i` is no larger than those children. */
  ghost predicate DownHole(s: seq<int>, i: nat) {
    && (forall j :: 1 <= j < |s| && Parent(j) != i ==> s[Parent(j)] <= s[j])
    && (1 <= i < |s| ==> forall c :: 1 <= c < |s| && Parent(c) == i ==> s[Parent(i)] <= s[c])
  }

  /** A swap with the smaller child moves the hole down to that child. */
  lemma DownStep(s: seq<int>, i: nat)
    requires Left(i) < |s| && DownHole(s, i) && s[i] > s[MinChild(s, i)]
    ensures DownHole(Swapped(s, i, MinChild(s, i)), MinChild(s, i))
  {
    var m := MinChild(s, i);
    var t := Swapped(s, i, m);
    ParentOfChild(i);
    forall j | 1 <= j < |t| && Parent(j) != m
      ensures t[Parent(j)] <= t[j]
    {
      ChildOfParent(j);
      if j == m {
      } else if j == i {
        assert s[Parent(i)] <= s[m];
      } else if Parent(j) == i {
        assert s[m] <= s[j];
      }
    }
    forall c | 1 <= c < |t| && Parent(c) == m
      ensures t[Parent(m)] <= t[c]
    {
      ChildOfParent(c);
      assert s[m] <= s[c];
    }
  }

  /** When no swap is made, a hole at `i` was no hole: the list is a heap. */
  lemma DownStop(s: seq<int>, i: nat)
    requires DownHole(s, i)
    requires Left(i) < |s| ==> s[i] <= s[MinChild(s, i)]
    ensures HeapOrdered(s)
  {
    forall j | 1 <= j < |s|
      ensures s[Parent(j)] <= s[j]
    {
      ChildOfParent(j);
      if Parent(j) == i {
        assert Left(i) < |s|;
        assert s[i] <= s[MinChild(s, i)] <= s[j];
      }
    }
  }

  /** Downward bubbling from a hole restores heap order. */
  lemma {:induction false} SiftDownOrders(s: seq<int>, i: nat)
    requires DownHole(s, i)
    ensures HeapOrdered(SiftDown(s, i))
    decreases |s| - i
  {
    if Left(i) < |s| && s[i] > s[MinChild(s, i)] {
      DownStep(s, i);
      SiftDownOrders(Swapped(s, i, MinChild(s, i)), MinChild(s, i));
    } else {
      DownStop(s, i);
    }
  }

  /** At a position with no child in range, including any position of the empty
      list, downward bubbling changes nothing. */
  lemma SiftDownAtLeaf(s: seq<int>, i: nat)
    requires Left(i) >= |s|
    ensures SiftDown(s, i) == s
  {}

  /** When both children are present and equal, the node is compared against,
      and swapped with, the right child. */
  lemma SiftDownTieGoesRight(s: seq<int>, i: nat)
    requires Right(i) < |s| && s[Left(i)] == s[Right(i)]
    ensures MinChild(s, i) == Right(i)
    ensures s[i] > s[Right(i)] ==> SiftDown(s, i) == SiftDown(Swapped(s, i, Right(i)), Right(i))
    ensures s[i] <= s[Right(i)] ==> SiftDown(s, i) == s
  {}

  /** On a heap, downward bubbling from any position changes nothing. */
  lemma SiftDownOnHeap(s: seq<int>, i: nat)
    requires HeapOrdered(s)
    ensures SiftDown(s, i) == s
  {
    if Left(i) < |s| {
      var m := MinChild(s, i);
      ChildOfParent(m);
      assert s[i] <= s[m];
    }
  }

  // ---------------------------------------------------------------------------
  // Removing the minimum

  /** `pop_min` on a non-empty list: swap the root with the last element, drop
      the last element, bubble the new root down. */
  function AfterPop(s: seq<int>): (r: seq<int>)
    requires |s| > 0
    ensures |r| == |s| - 1
    ensures multiset(r) == multiset(s) - multiset{s[0]}
  {
    var n := |s| - 1;
    PoppedPrefixElements(s);
    SiftDown(Swapped(s, 0, n)[..n], 0)
  }

  /** The root of a heap is no larger than any element. */
  lemma {:induction false} RootIsMinimum(s: seq<int>, j: int)
    requires HeapOrdered(s) && 0 <= j < |s|
    ensures s[0] <= s[j]
    decreases j
  {
    if j > 0 {
      ChildOfParent(j);
      RootIsMinimum(s, Parent(j));
    }
  }

  /** Popping a heap gives a heap one shorter that has lost exactly one copy of
      the old root, which was its minimum. */
  lemma PopKeepsHeap(s: seq<int>)
    requires HeapOrdered(s) && |s| > 0
    ensures forall j :: 0 <= j < |s| ==> s[0] <= s[j]
    ensures HeapOrdered(AfterPop(s))
    ensures |AfterPop(s)| == |s| - 1
    ensures multiset(AfterPop(s)) == multiset(s) - multiset{s[0]}
  {
    forall j | 0 <= j < |s|
      ensures s[0] <= s[j]
    {
      RootIsMinimum(s, j);
    }
    var n := |s| - 1;
    PoppedPrefixHole(s);
    PoppedPrefixElements(s);
    var t := Swapped(s, 0, n)[..n];
    SiftDownOrders(t, 0);
  }

  /** After the root of a heap is swapped with the last element and the last
      element is dropped, only the new root can be out of order. */
  lemma PoppedPrefixHole(s: seq<int>)
    requires HeapOrdered(s) && |s| > 0
    ensures DownHole(Swapped(s, 0, |s| - 1)[..|s| - 1], 0)
  {
    var n := |s| - 1;
    var t := Swapped(s, 0, n)[..n];
    forall j | 1 <= j < |t| && Parent(j) != 0
      ensures t[Parent(j)] <= t[j]
    {
      ChildOfParent(j);
      assert t[j] == s[j] && t[Parent(j)] == s[Parent(j)];
    }
  }

  /** Swapping the root with the last element and dropping the last element
      removes exactly one copy of the root. */
  lemma PoppedPrefixElements(s: seq<int>)
    requires |s| > 0
    ensures multiset(Swapped(s, 0, |s| - 1)[..|s| - 1]) == multiset(s) - multiset{s[0]}
  {
    var n := |s| - 1;
    var w := Swapped(s, 0, n);
    assert w == w[..n] + [w[n]];
  }

  // ---------------------------------------------------------------------------
  // Sorted extraction

  ghost predicate Sorted(s: seq<int>) {
    forall i, j :: 0 <= i < j < |s| ==> s[i] <= s[j]
  }

  /** The list after pushing the values of `xs`, in order, onto `s`. */
  function PushAll(s: seq<int>, xs: seq<int>): seq<int>
    decreases |xs|
  {
    if xs == [] then s else PushAll(AfterPush(s, xs[0]), xs[1..])
  }

  /** The values popped, in order, until the list is empty. */
  function Drain(s: seq<int>): seq<int>
    decreases |s|
  {
    if |s| == 0 then []
    else [s[0]] + Drain(AfterPop(s))
  }

  /** Pushing keeps heap order and collects exactly the pushed values. */
  lemma {:induction false} PushAllKeepsHeap(s: seq<int>, xs: seq<int>)
    requires HeapOrdered(s)
    ensures HeapOrdered(PushAll(s, xs))
    ensures multiset(PushAll(s, xs)) == multiset(s) + multiset(xs)
    decreases |xs|
  {
    if xs != [] {
      PushKeepsHeap(s, xs[0]);
      PushAllKeepsHeap(AfterPush(s, xs[0]), xs[1..]);
      assert xs == [xs[0]] + xs[1..];
    }
  }

  /** Popping a heap until it is empty yields its elements in non-decreasing order. */
  lemma {:induction false} DrainSorted(s: seq<int>)
    requires HeapOrdered(s)
    ensures Sorted(Drain(s))
    ensures multiset(Drain(s)) == multiset(s)
    decreases |s|
  {
    if |s| > 0 {
      var rest := AfterPop(s);
      PopKeepsHeap(s);
      DrainSorted(rest);
      var d := Drain(rest);
      forall j | 0 <= j < |d|
        ensures s[0] <= d[j]
      {
        assert d[j] in multiset(d);
        RootBelowPopped(s, d[j]);
      }
      SortedCons(s[0], d);
      ConsBack(s[0], multiset(s), d);
    }
  }

  /** The popped root is no larger than anything left after the pop. */
  lemma RootBelowPopped(s: seq<int>, x: int)
    requires HeapOrdered(s) && |s| > 0 && x in multiset(AfterPop(s))
    ensures s[0] <= x
  {
    PopKeepsHeap(s);
    RootBelowMember(s, x);
  }

  lemma ConsBack(x: int, m: multiset<int>, d: seq<int>)
    requires x in m && multiset(d) == m - multiset{x}
    ensures multiset([x] + d) == m
  {}

  /** The root of a heap is no larger than anything stored in it. */
  lemma RootBelowMember(s: seq<int>, x: int)
    requires HeapOrdered(s) && x in multiset(s)
    ensures |s| > 0 && s[0] <= x
  {
    var k :| 0 <= k < |s| && s[k] == x;
    RootIsMinimum(s, k);
  }

  lemma SortedCons(x: int, d: seq<int>)
    requires Sorted(d)
    requires forall j :: 0 <= j < |d| ==> x <= d[j]
    ensures Sorted([x] + d)
  {}

  /** Pushing any list of values onto an empty heap and popping until empty
      gives back those values sorted. */
  lemma HeapSort(xs: seq<int>)
    ensures Sorted(Drain(PushAll([], xs)))
    ensures multiset(Drain(PushAll([], xs))) == multiset(xs)
  {
    PushAllKeepsHeap([], xs);
    DrainSorted(PushAll([], xs));
  }

  // ---------------------------------------------------------------------------
  // A worked example: push 5, 3, 8, 1, 9, 2 onto an empty heap, then pop six times.

  /** Pushing `xs` onto an empty heap and popping until empty gives `ys`
      whenever `ys` is `xs` sorted. */
  lemma HeapSortGives(xs: seq<int>, ys: seq<int>)
    requires Sorted(ys) && multiset(ys) == multiset(xs)
    ensures Drain(PushAll([], xs)) == ys
  {
    HeapSort(xs);
    SortedUnique(Drain(PushAll([], xs)), ys);
  }

  /** Pushing 5, 3, 8, 1, 9, 2 and popping six times yields 1, 2, 3, 5, 8, 9. */
  lemma ExampleHeapSort()
    ensures Drain(PushAll([], [5, 3, 8, 1, 9, 2])) == [1, 2, 3, 5, 8, 9]
  {
    ExampleIsPermutation();
    HeapSortGives([5, 3, 8, 1, 9, 2], [1, 2, 3, 5, 8, 9]);
  }

  /** The first element of a sorted list is no larger than any of its elements. */
  lemma SortedHeadIsLeast(a: seq<int>, x: int)
    requires Sorted(a) && x in multiset(a)
    ensures a[0] <= x
  {
    var i :| 0 <= i < |a| && a[i] == x;
  }

  lemma ExampleIsPermutation()
    ensures multiset([1, 2, 3, 5, 8, 9]) == multiset([5, 3, 8, 1, 9, 2])
  {}

  /** Two sorted lists with the same elements are equal. */
  lemma {:induction false} SortedUnique(a: seq<int>, b: seq<int>)
    requires Sorted(a) && Sorted(b) && multiset(a) == multiset(b)
    ensures a == b
    decreases |a|
  {
    assert |a| == |multiset(a)| == |multiset(b)| == |b|;
    if |a| > 0 {
      assert a[0] == b[0] by {
        SortedHeadIsLeast(a, b[0]);
        SortedHeadIsLeast(b, a[0]);
      }
      MultisetOfTail(a);
      MultisetOfTail(b);
      SortedTail(a);
      SortedTail(b);
      SortedUnique(a[1..], b[1..]);
      SameHeadSameTail(a, b);
    }
  }

  lemma MultisetOfTail(a: seq<int>)
    requires |a| > 0
    ensures multiset(a[1..]) == multiset(a) - multiset{a[0]}
  {
    assert a == [a[0]] + a[1..];
  }

  lemma SortedTail(a: seq<int>)
    requires Sorted(a) && |a| > 0
    ensures Sorted(a[1..])
  {}

  lemma SameHeadSameTail(a: seq<int>, b: seq<int>)
    requires |a| > 0 && |b| > 0 && a[0] == b[0] && a[1..] == b[1..]
    ensures a == b
  {
    assert a == [a[0]] + a[1..] && b == [b[0]] + b[1..];
  }

  // ---------------------------------------------------------------------------
  // The heap object

  /** `ArrayBasedHeap`: its one field is the list `_array`. */
  class Heap {
    var arr: seq<int>

    /** Heap order, established by the constructor and kept by every public method. */
    ghost predicate Valid()
      reads this
    {
      HeapOrdered(arr)
    }

    constructor ()
      ensures arr == [] && Valid()
    {
      arr := [];
    }

    /** `__len__`: the number of stored elements. */
    method Len() returns (n: nat)
      ensures n == |arr| && n == |multiset(arr)|
    {
      n := |arr|;
    }

    /** `_swap`. */
    method Swap(i: nat, j: nat)
      requires i < |arr| && j < |arr|
      modifies this
      ensures arr == Swapped(old(arr), i, j)
    {
      arr := arr[i := arr[j]][j := arr[i]];
    }

    /** `_up_heap_bubbling`: the loop keeps walking to the root after a parent
        that is already in order. */
    method UpHeapBubbling(index: int)
      requires index < |arr|
      modifies this
      ensures arr == SiftUp(old(arr), index)
    {
      var k := index;
      while k >= 1
        invariant k < |arr|
        invariant SiftUp(arr, k) == SiftUp(old(arr), index)
        decreases k
      {
        var p := Parent(k);
        if arr[k] < arr[p] {
          Swap(k, p);
        }
        k := p;
      }
    }

    /** `push`. */
    method Push(value: int)
      requires Valid()
      modifies this
      ensures Valid()
      ensures arr == AfterPush(old(arr), value)
      ensures |arr| == |old(arr)| + 1
      ensures multiset(arr) == multiset(old(arr)) + multiset{value}
    {
      PushKeepsHeap(arr, value);
      arr := arr + [value];
      UpHeapBubbling(|arr| - 1);
    }

    /** `down_heap_bubbling`: recursive, as in the source. On a heap it changes
        nothing. */
    method DownHeapBubbling(index: nat)
      modifies this
      ensures arr == SiftDown(old(arr), index)
      ensures old(Valid()) ==> arr == old(arr)
      decreases |arr| - index
    {
      if Valid() {
        SiftDownOnHeap(arr, index);
      }
      var length := |arr|;
      var left, right := Left(index), Right(index);
      if left < length || right < length {
        var minChild: int;
        if left < length && right < length {
          if arr[left] < arr[right] {
            minChild := left;
          } else {
            minChild := right;
          }
        } else if left < length {
          minChild := left;
        } else {
          minChild := right;
        }
        if arr[index] > arr[minChild] {
          Swap(index, minChild);
          DownHeapBubbling(minChild);
        }
      }
    }

    /** `pop_min`: on an empty heap reports `HeapIsEmpty` and changes nothing;
        otherwise returns the old root, the minimum. */
    method PopMin() returns (r: Result<int>)
      requires Valid()
      modifies this
      ensures Valid()
      ensures old(arr) == [] ==> r == Err(HeapIsEmpty) && arr == old(arr)
      ensures old(arr) != [] ==> r == Ok(old(arr)[0]) && arr == AfterPop(old(arr))
      ensures r.Ok? ==> forall k :: 0 <= k < |old(arr)| ==> r.value <= old(arr)[k]
      ensures r.Ok? ==> |arr| == |old(arr)| - 1
      ensures r.Ok? ==> multiset(arr) == multiset(old(arr)) - multiset{r.value}
    {
      if |arr| == 0 {
        return Err(HeapIsEmpty);
      }
      ghost var before := arr;
      var popped := arr[0];
      var last := |arr| - 1;
      Swap(0, last);
      arr := arr[..last];
      DownHeapBubbling(0);
      assert arr == AfterPop(before);
      PopKeepsHeap(before);
      r := Ok(popped);
    }

    /** `peek_min`: reads the root, changes nothing. */
    method PeekMin() returns (r: Result<int>)
      requires Valid()
      ensures arr == [] ==> r == Err(HeapIsEmpty)
      ensures arr != [] ==> r == Ok(arr[0])
      ensures r.Ok? ==> forall k :: 0 <= k < |arr| ==> r.value <= arr[k]
    {
      if |arr| == 0 {
        return Err(HeapIsEmpty);
      }
      PopKeepsHeap(arr);
      r := Ok(arr[0]);
    }
  }
}
