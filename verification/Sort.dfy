/** os/sort.h: the in-place heapsort of an index array, for any strict weak order. */
module Sort {

  /** before is a strict weak order: irreflexive, transitive, and "neither before the other" is transitive. */
  ghost predicate StrictWeak(before: (nat, nat) -> bool) {
    && (forall a :: !before(a, a))
    && (forall a, b, c :: before(a, b) && before(b, c) ==> before(a, c))
    && (forall a, b, c :: !before(a, b) && !before(b, c) ==> !before(a, c))
  }

  /** No element is before one that precedes it. */
  ghost predicate Sorted(s: seq<nat>, before: (nat, nat) -> bool) {
    forall i, j | 0 <= i < j < |s| :: !before(s[j], s[i])
  }

  // ----- heaps

  function Parent(i: nat): nat
    requires i > 0
  {
    (i - 1) / 2
  }

  /** The child at i does not come after its parent. */
  predicate Pair(s: seq<nat>, before: (nat, nat) -> bool, i: nat)
    requires 0 < i < |s|
  {
    !before(s[Parent(i)], s[i])
  }

  /** The first n elements are a heap from node lo on. */
  ghost predicate Heap(s: seq<nat>, before: (nat, nat) -> bool, lo: nat, n: nat) {
    n <= |s| && forall i | 0 < i < n && Parent(i) >= lo :: Pair(s, before, i)
  }

  /** The same but for the pairs below `root`, whose grandparent stands in for it. */
  ghost predicate Hole(s: seq<nat>, before: (nat, nat) -> bool, lo: nat, n: nat, root: nat) {
    && lo <= root < n <= |s|
    && (forall i | 0 < i < n && Parent(i) >= lo && Parent(i) != root :: Pair(s, before, i))
    && (root > lo ==> Parent(root) >= lo)
    && (forall i | 0 < i < n && Parent(i) == root && root > lo :: !before(s[Parent(root)], s[i]))
  }

  lemma HeapIsHole(s: seq<nat>, before: (nat, nat) -> bool, lo: nat, n: nat)
    requires Heap(s, before, lo + 1, n) && lo < n
    ensures Hole(s, before, lo, n, lo)
  {
  }

  lemma {:induction false} RootIsLast(s: seq<nat>, before: (nat, nat) -> bool, n: nat, i: nat)
    requires StrictWeak(before) && Heap(s, before, 0, n) && i < n
    ensures !before(s[0], s[i])
  {
    if i > 0 {
      RootIsLast(s, before, n, Parent(i));
      assert Pair(s, before, i);
    }
  }

  predicate Children(root: nat, child: nat, n: nat) {
    child == 2 * root + 1 < n || child == 2 * root + 2 < n
  }

  /** The larger child goes up, the hole goes down. */
  lemma SwapDown(s: seq<nat>, before: (nat, nat) -> bool, lo: nat, n: nat, root: nat, child: nat)
    requires StrictWeak(before) && Hole(s, before, lo, n, root) && Children(root, child, n)
    requires forall i | 0 < i < n && Parent(i) == root :: !before(s[child], s[i])
    requires before(s[root], s[child])
    ensures Hole(s[root := s[child]][child := s[root]], before, lo, n, child)
  {
    var t := s[root := s[child]][child := s[root]];
    assert Parent(child) == root;
    forall i | 0 < i < n && Parent(i) >= lo && Parent(i) != child
      ensures Pair(t, before, i)
    {
      if i == root {
        assert !before(s[Parent(root)], s[child]);
      } else if Parent(i) != root {
        assert Pair(s, before, i);
      }
    }
    forall i | 0 < i < n && Parent(i) == child
      ensures !before(t[Parent(child)], t[i])
    {
      assert Pair(s, before, i);
    }
  }

  lemma NoChild(s: seq<nat>, before: (nat, nat) -> bool, lo: nat, n: nat, root: nat)
    requires Hole(s, before, lo, n, root) && 2 * root + 1 >= n
    ensures Heap(s, before, lo, n)
  {
  }

  lemma Settled(s: seq<nat>, before: (nat, nat) -> bool, lo: nat, n: nat, root: nat, child: nat)
    requires StrictWeak(before) && Hole(s, before, lo, n, root) && child < n
    requires forall i | 0 < i < n && Parent(i) == root :: !before(s[child], s[i])
    requires !before(s[root], s[child])
    ensures Heap(s, before, lo, n)
  {
  }

  // ----- permutations

  predicate Permutation(s: seq<nat>, t: seq<nat>) {
    multiset(s) == multiset(t)
  }

  lemma SwapPermutes(s: seq<nat>, i: nat, j: nat)
    requires i < |s| && j < |s|
    ensures Permutation(s[i := s[j]][j := s[i]], s)
  {
  }

  lemma PermutationIn(s: seq<nat>, t: seq<nat>, x: nat)
    requires Permutation(s, t)
    ensures x in s <==> x in t
  {
    assert x in multiset(s) <==> x in s;
    assert x in multiset(t) <==> x in t;
  }

  method Swap(order: array<nat>, i: nat, j: nat, ghost n: nat)
    requires i < n <= order.Length && j < n
    modifies order
    ensures order[..] == old(order[..])[i := old(order[j])][j := old(order[i])]
    ensures Permutation(order[..n], old(order[..n])) && order[n..] == old(order[n..])
  {
    ghost var s := order[..n];
    order[i], order[j] := order[j], order[i];
    SwapPermutes(s, i, j);
    assert order[..n] == s[i := s[j]][j := s[i]];
  }

  lemma PermutationChain(s: seq<nat>, t: seq<nat>, u: seq<nat>)
    requires Permutation(s, t) && Permutation(t, u)
    ensures Permutation(s, u)
  {
  }

  /** The larger child of a node that has one. */
  method PickChild(order: array<nat>, root: nat, count: nat, before: (nat, nat) -> bool) returns (child: nat)
    requires StrictWeak(before) && root * 2 + 1 < count <= order.Length
    ensures Children(root, child, count)
    ensures forall i | 0 < i < count && Parent(i) == root :: !before(order[..][child], order[..][i])
  {
    child := root * 2 + 1;
    if child + 1 < count && before(order[child], order[child + 1]) {
      child := child + 1;
    }
    LargerChild(order[..], before, root, child, count);
  }

  /** yan_sort_sift_down */
  method SiftDown(order: array<nat>, start: nat, count: nat, before: (nat, nat) -> bool)
    requires StrictWeak(before) && start < count <= order.Length && Heap(order[..], before, start + 1, count)
    modifies order
    ensures Heap(order[..], before, start, count)
    ensures Permutation(order[..count], old(order[..count])) && order[count..] == old(order[count..])
  {
    HeapIsHole(order[..], before, start, count);
    var root := start;
    ghost var was, rest := order[..count], order[count..];
    while true
      invariant start <= root < count && Hole(order[..], before, start, count, root)
      invariant Permutation(order[..count], was) && order[count..] == rest
      decreases count - root
    {
      hide StrictWeak, Hole, Heap, Permutation, Parent;
      if root * 2 + 1 >= count {
        NoChild(order[..], before, start, count, root);
        return;
      }
      var child := PickChild(order, root, count, before);
      if !before(order[root], order[child]) {
        Settled(order[..], before, start, count, root, child);
        return;
      }
      SwapDown(order[..], before, start, count, root, child);
      ghost var s := order[..count];
      Swap(order, root, child, count);
      PermutationChain(order[..count], s, was);
      root := child;
    }
  }

  lemma LargerChild(s: seq<nat>, before: (nat, nat) -> bool, root: nat, child: nat, n: nat)
    requires StrictWeak(before) && n <= |s| && Children(root, child, n)
    requires child == 2 * root + 2 ==> before(s[child - 1], s[child])
    requires child == 2 * root + 1 && child + 1 < n ==> !before(s[child], s[child + 1])
    ensures forall i | 0 < i < n && Parent(i) == root :: !before(s[child], s[i])
  {
    forall i | 0 < i < n && Parent(i) == root
      ensures !before(s[child], s[i])
    {
      assert i == 2 * root + 1 || i == 2 * root + 2;
    }
  }

  /** The tail from `end` on is sorted and nothing before it belongs after one of its elements. */
  ghost predicate Tail(s: seq<nat>, before: (nat, nat) -> bool, end: nat) {
    end <= |s| && forall i, j | 0 <= i < j < |s| && end <= j :: !before(s[j], s[i])
  }

  lemma TailPermuted(s: seq<nat>, t: seq<nat>, before: (nat, nat) -> bool, end: nat)
    requires Tail(s, before, end) && end <= |t| && Permutation(t[..end], s[..end]) && t[end..] == s[end..]
    ensures Tail(t, before, end)
  {
    forall i, j | 0 <= i < j < |t| && end <= j
      ensures !before(t[j], t[i])
    {
      assert t[j] == t[end..][j - end] == s[end..][j - end] == s[j];
      if i < end {
        PermutationIn(t[..end], s[..end], t[i]);
        assert t[..end][i] == t[i];
        var k :| 0 <= k < end && s[..end][k] == t[i];
        assert s[k] == t[i];
      } else {
        assert t[i] == t[end..][i - end] == s[end..][i - end] == s[i];
      }
    }
  }

  /** Moving the root behind the heap lengthens the sorted tail. */
  lemma TailGrows(s: seq<nat>, before: (nat, nat) -> bool, end: nat)
    requires StrictWeak(before) && 1 < end <= |s| && Tail(s, before, end) && Heap(s, before, 0, end)
    ensures Tail(s[0 := s[end - 1]][end - 1 := s[0]], before, end - 1)
    ensures Heap(s[0 := s[end - 1]][end - 1 := s[0]], before, 1, end - 1)
  {
    var t := s[0 := s[end - 1]][end - 1 := s[0]];
    forall i, j | 0 <= i < j < |t| && end - 1 <= j
      ensures !before(t[j], t[i])
    {
      var k := if i == 0 then end - 1 else i;
      if j == end - 1 {
        RootIsLast(s, before, end, k);
      } else if i == end - 1 {
        assert t[j] == s[j] && t[i] == s[0];
      }
    }
    forall i | 0 < i < end - 1 && Parent(i) >= 1
      ensures Pair(t, before, i)
    {
      assert Pair(s, before, i);
    }
  }

  lemma WholePermuted(s: seq<nat>, t: seq<nat>, n: nat)
    requires n <= |s| && n <= |t| && Permutation(s[..n], t[..n]) && s[n..] == t[n..]
    ensures Permutation(s, t)
  {
    assert s == s[..n] + s[n..] && t == t[..n] + t[n..];
  }

  /** The first loop of yan_sort_index. */
  method BuildHeap(order: array<nat>, before: (nat, nat) -> bool)
    requires StrictWeak(before)
    modifies order
    ensures Heap(order[..], before, 0, order.Length) && Permutation(order[..], old(order[..]))
  {
    var count := order.Length;
    var first: nat := count / 2;
    LeavesAreHeap(order[..], before);
    ghost var was := order[..];
    while first > 0
      invariant first <= count / 2 && Heap(order[..], before, first, count) && Permutation(order[..], was)
    {
      hide StrictWeak, Heap, Permutation;
      ghost var s := order[..];
      SiftDown(order, first - 1, count, before);
      assert s[..count] == s && order[..count] == order[..];
      PermutationChain(order[..], s, was);
      first := first - 1;
    }
  }

  /** One turn of the second loop. */
  method Extract(order: array<nat>, end: nat, before: (nat, nat) -> bool)
    requires StrictWeak(before) && 1 < end <= order.Length
    requires Heap(order[..], before, 0, end) && Tail(order[..], before, end)
    modifies order
    ensures Heap(order[..], before, 0, end - 1) && Tail(order[..], before, end - 1)
    ensures Permutation(order[..], old(order[..]))
  {
    hide StrictWeak, Heap, Tail, Permutation;
    ghost var was := order[..];
    TailGrows(order[..], before, end);
    Swap(order, 0, end - 1, order.Length);
    ghost var s := order[..];
    assert was[..order.Length] == was && order[..order.Length] == s;
    SiftDown(order, 0, end - 1, before);
    TailPermuted(s, order[..], before, end - 1);
    WholePermuted(order[..], s, end - 1);
    PermutationChain(order[..], s, was);
  }

  /** yan_sort_index: afterwards the array is a sorted permutation of what it was. */
  method SortIndex(order: array<nat>, before: (nat, nat) -> bool)
    requires StrictWeak(before)
    modifies order
    ensures Sorted(order[..], before) && Permutation(order[..], old(order[..]))
  {
    if order.Length < 2 {
      return;
    }
    ghost var was := order[..];
    BuildHeap(order, before);
    var end: nat := order.Length;
    EmptyTail(order[..], before);
    while end > 1
      invariant 0 < end <= order.Length && Heap(order[..], before, 0, end) && Tail(order[..], before, end)
      invariant Permutation(order[..], was)
    {
      hide StrictWeak, Heap, Tail, Permutation;
      ghost var s := order[..];
      Extract(order, end, before);
      PermutationChain(order[..], s, was);
      end := end - 1;
    }
    TailSorted(order[..], before);
  }

  lemma LeavesAreHeap(s: seq<nat>, before: (nat, nat) -> bool)
    ensures Heap(s, before, |s| / 2, |s|)
  {
  }

  lemma EmptyTail(s: seq<nat>, before: (nat, nat) -> bool)
    ensures Tail(s, before, |s|)
  {
  }

  lemma TailSorted(s: seq<nat>, before: (nat, nat) -> bool)
    requires Tail(s, before, 1)
    ensures Sorted(s, before)
  {
  }

  // ----- index arrays

  /** order lists the indices below n, each once. */
  ghost predicate Arrangement(order: seq<nat>, n: nat) {
    multiset(order) == multiset(seq(n, i => i))
  }

  lemma {:induction false} EveryIndex(n: nat, k: nat)
    ensures k in multiset(seq(n, i => i)) <==> k < n
    ensures k < n ==> multiset(seq(n, i => i))[k] == 1
  {
    if n > 0 {
      EveryIndex(n - 1, k);
      assert seq(n, i => i) == seq(n - 1, i => i) + [n - 1];
    }
  }

  lemma Twice(s: seq<nat>, i: nat, j: nat)
    requires i < j < |s| && s[i] == s[j]
    ensures multiset(s)[s[i]] >= 2
  {
    assert s == s[..i] + [s[i]] + s[i + 1..j] + [s[j]] + s[j + 1..];
  }

  lemma ArrangementMeaning(order: seq<nat>, n: nat)
    requires Arrangement(order, n)
    ensures |order| == n
    ensures forall i | 0 <= i < n :: order[i] < n
    ensures forall i, j | 0 <= i < j < n :: order[i] != order[j]
    ensures forall k: nat | k < n :: k in order
  {
    assert |order| == |multiset(order)| && |seq(n, i => i)| == |multiset(seq(n, i => i))|;
    forall i | 0 <= i < n
      ensures order[i] < n
    {
      EveryIndex(n, order[i]);
      assert order[i] in multiset(order);
    }
    forall i, j | 0 <= i < j < n
      ensures order[i] != order[j]
    {
      EveryIndex(n, order[i]);
      if order[i] == order[j] { Twice(order, i, j); }
    }
    forall k: nat | k < n
      ensures k in order
    {
      EveryIndex(n, k);
      assert k in multiset(order);
    }
  }

  /** The indices below n in a given order. */
  method IndexSorted(n: nat, before: (nat, nat) -> bool) returns (order: array<nat>)
    requires StrictWeak(before)
    ensures fresh(order) && Arrangement(order[..], n) && Sorted(order[..], before)
  {
    order := new nat[n](i => i);
    assert order[..] == seq(n, i => i);
    SortIndex(order, before);
  }
}
