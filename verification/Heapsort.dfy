/** The bottom-up heapsort shared by pickdns-data.c (address_sort) and query.c (packet records). */
module Heapsort {

  /** x may come before y. */
  predicate AtMost<T>(less: (T, T) -> bool, x: T, y: T) {
    !less(y, x)
  }

  /** The comparison is a strict weak order. */
  ghost predicate Orders<T(!new)>(less: (T, T) -> bool) {
    && (forall x, y :: less(x, y) ==> AtMost(less, x, y))
    && (forall x, y, z :: AtMost(less, x, y) && AtMost(less, y, z) ==> AtMost(less, x, z))
  }

  ghost predicate Sorted<T>(less: (T, T) -> bool, s: seq<T>) {
    forall x, y :: 0 <= x < y < |s| ==> AtMost(less, s[x], s[y])
  }

  // The sort numbers the elements from 1, so that the children of k are 2k and 2k + 1.

  /** Element c is no larger than its parent. */
  ghost predicate Below<T>(less: (T, T) -> bool, s: seq<T>, c: nat)
    requires 2 <= c <= |s|
  {
    AtMost(less, s[c - 1], s[c / 2 - 1])
  }

  /** The elements i..j form heaps: everything whose parent is at least i is below it. */
  ghost predicate Heap<T>(less: (T, T) -> bool, s: seq<T>, i: nat, j: nat)
    requires 1 <= i && j <= |s|
  {
    forall c: nat :: 2 * i <= c <= j ==> Below(less, s, c)
  }

  /** Everything in s[..j] is at most everything in s[j..], which is sorted. */
  ghost predicate Tail<T>(less: (T, T) -> bool, s: seq<T>, j: nat)
    requires j <= |s|
  {
    forall x, y :: 0 <= x < y < |s| && j <= y ==> AtMost(less, s[x], s[y])
  }

  /** The root of a heap is its maximum. */
  lemma {:induction false} RootIsMax<T(!new)>(less: (T, T) -> bool, s: seq<T>, j: nat, k: nat)
    requires Orders(less) && j <= |s| && 1 <= k <= j && Heap(less, s, 1, j)
    ensures AtMost(less, s[k - 1], s[0])
    decreases k
  {
    if k > 1 {
      assert Below(less, s, k);
      RootIsMax(less, s, j, k / 2);
    } else {
      Reflexive(less, s[0]);
    }
  }

  lemma Reflexive<T(!new)>(less: (T, T) -> bool, x: T)
    requires Orders(less)
    ensures AtMost(less, x, x)
  {
    assert less(x, x) ==> AtMost(less, x, x);
  }

  /** Moving the hole from q to p, while t waits to be put back, loses and gains nothing. */
  lemma HoleMoves<T>(s: seq<T>, q: nat, p: nat, t: T)
    requires q < |s| && p < |s|
    ensures multiset(s[q := s[p]][p := t]) == multiset(s[q := t])
  {
    if p != q {
      var u := s[q := t];
      assert multiset(u[q := s[p]]) == multiset(u) - multiset{t} + multiset{s[p]};
      assert s[q := s[p]] == u[q := s[p]];
      assert multiset(u[q := s[p]][p := t]) == multiset(u[q := s[p]]) - multiset{s[p]} + multiset{t};
    } else {
      assert s[q := s[p]][p := t] == s[q := t];
    }
  }

  /** With the hole at q: all of i..j is a heap, except perhaps just below a hole at i itself. */
  ghost predicate HeapWithHole<T>(less: (T, T) -> bool, s: seq<T>, i: nat, j: nat, q: nat)
    requires 1 <= i && j <= |s|
  {
    forall c: nat :: 2 * i <= c <= j && !(q == i && c / 2 == i) ==> Below(less, s, c)
  }

  /** No child of q is larger than t. */
  ghost predicate Covers<T>(less: (T, T) -> bool, s: seq<T>, j: nat, q: nat, t: T)
    requires 1 <= q && j <= |s|
  {
    && (2 * q <= j ==> AtMost(less, s[2 * q - 1], t))
    && (2 * q + 1 <= j ==> AtMost(less, s[2 * q], t))
  }

  /** One step down: the larger child p of the hole q moves up. */
  lemma StepDown<T(!new)>(less: (T, T) -> bool, s: seq<T>, i: nat, j: nat, q: nat, p: nat)
    requires Orders(less) && 1 <= i <= q && j <= |s| && HeapWithHole(less, s, i, j, q)
    requires p / 2 == q && p <= j
    requires Covers(less, s, j, q, s[p - 1])
    ensures HeapWithHole(less, s[q - 1 := s[p - 1]], i, j, p)
  {
    var s' := s[q - 1 := s[p - 1]];
    forall c: nat | 2 * i <= c <= j
      ensures Below(less, s', c)
    {
      if c / 2 == q {
      } else if c == q {
        assert Below(less, s, q) && Below(less, s, p);
      } else {
        assert Below(less, s, c);
      }
    }
  }

  /** One step up: the parent p of the hole q is smaller than t and moves down. */
  lemma StepUp<T(!new)>(less: (T, T) -> bool, s: seq<T>, i: nat, j: nat, q: nat, t: T)
    requires Orders(less) && 1 <= i && q <= j <= |s| && 2 * i <= q && Heap(less, s, i, j)
    requires less(s[q / 2 - 1], t) && Covers(less, s, j, q, t)
    ensures Heap(less, s[q - 1 := s[q / 2 - 1]], i, j)
    ensures Covers(less, s[q - 1 := s[q / 2 - 1]], j, q / 2, t)
  {
    var p := q / 2;
    var s' := s[q - 1 := s[p - 1]];
    Reflexive(less, s[p - 1]);
    forall c: nat | 2 * i <= c <= j
      ensures Below(less, s', c)
    {
      assert Below(less, s, c) && Below(less, s, q);
    }
    if 2 * p + 1 <= j {
      assert Below(less, s, 2 * p + 1);
    }
    assert Below(less, s, 2 * p);
  }

  /** The final step: t fills the hole. */
  lemma FillHole<T(!new)>(less: (T, T) -> bool, s: seq<T>, i: nat, j: nat, q: nat, t: T)
    requires Orders(less) && 1 <= i <= q <= j <= |s|
    requires HeapWithHole(less, s, i, j, q) && Covers(less, s, j, q, t)
    requires q >= 2 * i ==> AtMost(less, t, s[q / 2 - 1])
    ensures Heap(less, s[q - 1 := t], i, j)
  {
    var s' := s[q - 1 := t];
    forall c: nat | 2 * i <= c <= j
      ensures Below(less, s', c)
    {
      if c / 2 != q && c != q {
        assert Below(less, s, c);
      }
    }
  }

  // --- the sort -----------------------------------------------------------------------------------

  /** Where the heap i..j, with t waiting for a place, stands among everything: nothing in front exceeds the tail. */
  ghost predicate Ahead<T>(less: (T, T) -> bool, s: seq<T>, j: nat, t: T)
    requires j <= |s|
  {
    Tail(less, s, j) && forall y :: j <= y < |s| ==> AtMost(less, t, s[y])
  }

  /** Copying one element in front over another keeps everything in front at most the tail. */
  lemma CopyAhead<T>(less: (T, T) -> bool, s: seq<T>, j: nat, t: T, q: nat, x: T)
    requires j <= |s| && q < j && Ahead(less, s, j, t)
    requires x == t || x in s[..j]
    ensures Ahead(less, s[q := x], j, t)
  {
  }

  /** The elements there are once t has filled the hole q. */
  function Filled<T(==)>(s: seq<T>, q: nat, t: T): multiset<T>
    requires 1 <= q <= |s|
  {
    multiset(s[q - 1 := t])
  }

  lemma FilledMoves<T>(s: seq<T>, q: nat, p: nat, t: T)
    requires 1 <= q <= |s| && 1 <= p <= |s|
    ensures Filled(s[q - 1 := s[p - 1]], p, t) == Filled(s, q, t)
  {
    HoleMoves(s, q - 1, p - 1, t);
  }

  lemma LargerChild<T(!new)>(less: (T, T) -> bool, s: seq<T>, j: nat, q: nat, p: nat)
    requires Orders(less) && 1 <= q && 2 * q <= j <= |s|
    requires p == if 2 * q < j && !less(s[2 * q], s[2 * q - 1]) then 2 * q + 1 else 2 * q
    ensures p / 2 == q && p <= j && Covers(less, s, j, q, s[p - 1])
  {
    Reflexive(less, s[2 * q - 1]);
    if 2 * q < j {
      Reflexive(less, s[2 * q]);
    }
  }

  /** One step of the way down: the hole moves from q to its larger (or only) child p. */
  lemma DownStep<T(!new)>(less: (T, T) -> bool, s: seq<T>, i: nat, j: nat, q: nat, p: nat, t: T)
    requires Orders(less) && 1 <= i <= q && 2 * q <= j <= |s|
    requires HeapWithHole(less, s, i, j, q) && Ahead(less, s, j, t)
    requires p == if 2 * q < j && !less(s[2 * q], s[2 * q - 1]) then 2 * q + 1 else 2 * q
    ensures p <= j
    ensures var s' := s[q - 1 := s[p - 1]];
            HeapWithHole(less, s', i, j, p) && Ahead(less, s', j, t) && Filled(s', p, t) == Filled(s, q, t)
  {
    hide Below, HeapWithHole, Ahead, Covers, Orders, AtMost, Filled;
    LargerChild(less, s, j, q, p);
    StepDown(less, s, i, j, q, p);
    FilledMoves(s, q, p, t);
    CopyAhead(less, s, j, t, q - 1, s[p - 1]);
  }

  /** One step back up: the hole moves from q to its parent. */
  lemma UpStep<T(!new)>(less: (T, T) -> bool, s: seq<T>, i: nat, j: nat, q: nat, t: T)
    requires Orders(less) && 1 <= i && 2 * i <= q <= j <= |s|
    requires Heap(less, s, i, j) && Ahead(less, s, j, t) && Covers(less, s, j, q, t)
    requires less(s[q / 2 - 1], t)
    ensures var s' := s[q - 1 := s[q / 2 - 1]];
            && Heap(less, s', i, j) && Ahead(less, s', j, t) && Covers(less, s', j, q / 2, t)
            && Filled(s', q / 2, t) == Filled(s, q, t)
  {
    hide Below, Heap, Ahead, Covers, Orders, AtMost, Filled;
    StepUp(less, s, i, j, q, t);
    FilledMoves(s, q, q / 2, t);
    CopyAhead(less, s, j, t, q - 1, s[q / 2 - 1]);
  }

  /** q is i or lies under i. */
  predicate Under(i: nat, q: nat) {
    q == i || (q > i && Under(i, q / 2))
  }

  lemma {:induction false} UnderAtLeast(i: nat, q: nat)
    requires 1 <= i && Under(i, q) && q != i
    ensures q >= 2 * i && Under(i, q / 2)
  {
    if q / 2 != i {
      UnderAtLeast(i, q / 2);
    }
  }

  /** Sifting down: larger children move up until the hole is a leaf. */
  method SiftDown<T(!new)>(a: array<T>, less: (T, T) -> bool, i: nat, j: nat, ghost t: T) returns (q: nat)
    requires Orders(less) && 1 <= i && i <= j <= a.Length
    requires HeapWithHole(less, a[..], i, j, i) && Ahead(less, a[..], j, t)
    modifies a
    ensures i <= q <= j && 2 * q > j && Under(i, q)
    ensures HeapWithHole(less, a[..], i, j, q) && Ahead(less, a[..], j, t)
    ensures Filled(a[..], q, t) == Filled(old(a[..]), i, t)
  {
    hide Ahead, HeapWithHole, AtMost, Filled, Orders;
    q := i;
    var p := 2 * q;
    while p < j
      invariant i <= q <= j && p == 2 * q && Under(i, q)
      invariant HeapWithHole(less, a[..], i, j, q) && Ahead(less, a[..], j, t)
      invariant Filled(a[..], q, t) == Filled(old(a[..]), i, t)
      decreases j - q
    {
      ghost var s := a[..];
      if !less(a[p], a[p - 1]) {
        p := p + 1;
      }
      DownStep(less, s, i, j, q, p, t);
      a[q - 1] := a[p - 1];
      assert a[..] == s[q - 1 := s[p - 1]];
      q := p;
      p := 2 * q;
    }
    if p == j {
      ghost var s := a[..];
      DownStep(less, s, i, j, q, p, t);
      a[q - 1] := a[p - 1];
      assert a[..] == s[q - 1 := s[p - 1]];
      q := p;
    }
  }

  /** Sifting back up: smaller ancestors move down until the place for t is found, and t goes there. */
  method SiftUp<T(!new)>(a: array<T>, less: (T, T) -> bool, i: nat, j: nat, leaf: nat, t: T)
    requires Orders(less) && 1 <= i <= leaf <= j <= a.Length && 2 * leaf > j && Under(i, leaf)
    requires HeapWithHole(less, a[..], i, j, leaf) && Ahead(less, a[..], j, t)
    modifies a
    ensures Heap(less, a[..], i, j) && Tail(less, a[..], j)
    ensures multiset(a[..]) == Filled(old(a[..]), leaf, t)
  {
    hide Ahead, AtMost, Orders, Below;
    var q := leaf;
    if q != i {
      UnderAtLeast(i, q);
    }
    while q > i && less(a[q / 2 - 1], t)
      invariant i <= q <= j && Under(i, q)
      invariant HeapWithHole(less, a[..], i, j, q) && Ahead(less, a[..], j, t) && Covers(less, a[..], j, q, t)
      invariant leaf != i ==> Heap(less, a[..], i, j)
      invariant q != i ==> leaf != i
      invariant Filled(a[..], q, t) == Filled(old(a[..]), leaf, t)
    {
      ghost var s := a[..];
      UnderAtLeast(i, q);
      UpStep(less, s, i, j, q, t);
      a[q - 1] := a[q / 2 - 1];
      assert a[..] == s[q - 1 := s[q / 2 - 1]];
      q := q / 2;
    }
    if q != i {
      UnderAtLeast(i, q);
    }
    ghost var s := a[..];
    NotLess(less, s, i, q, t);
    FillHole(less, s, i, j, q, t);
    FillAhead(less, s, j, q, t);
    a[q - 1] := t;
    assert a[..] == s[q - 1 := t];
  }

  lemma NotLess<T>(less: (T, T) -> bool, s: seq<T>, i: nat, q: nat, t: T)
    requires 1 <= i <= q <= |s| && (q > i ==> q >= 2 && !less(s[q / 2 - 1], t))
    ensures q > i ==> AtMost(less, t, s[q / 2 - 1])
  {
  }

  lemma FillAhead<T>(less: (T, T) -> bool, s: seq<T>, j: nat, q: nat, t: T)
    requires 1 <= q <= j <= |s| && Ahead(less, s, j, t)
    ensures Tail(less, s[q - 1 := t], j)
  {
  }

  lemma NoHeapYet<T>(less: (T, T) -> bool, s: seq<T>, i: nat, j: nat)
    requires 1 <= i < i + 1 && j <= |s| && Heap(less, s, i + 1, j)
    ensures HeapWithHole(less, s, i, j, i)
  {
    forall c: nat | 2 * i <= c <= j && c / 2 != i
      ensures Below(less, s, c)
    {
      assert c >= 2 * (i + 1);
    }
  }

  /** Taking the root of the whole heap to the end leaves its old last element to be sifted in. */
  lemma TakeRoot<T(!new)>(less: (T, T) -> bool, s: seq<T>, j: nat)
    requires Orders(less) && 2 <= j <= |s| && Heap(less, s, 1, j) && Tail(less, s, j)
    ensures var s' := s[j - 1 := s[0]];
            && HeapWithHole(less, s', 1, j - 1, 1) && Ahead(less, s', j - 1, s[j - 1])
            && Filled(s', 1, s[j - 1]) == multiset(s)
  {
    hide Below;
    var s' := s[j - 1 := s[0]];
    forall k | 0 <= k < j
      ensures AtMost(less, s[k], s[0])
    {
      RootIsMax(less, s, j, k + 1);
    }
    forall c: nat | 2 <= c <= j - 1 && c / 2 != 1
      ensures Below(less, s', c)
    {
      assert Below(less, s, c);
      BelowSame(less, s, s', c);
    }
    HoleMoves(s, j - 1, 0, s[j - 1]);
    assert s[j - 1 := s[j - 1]] == s;
    forall x, y | 0 <= x < y < |s'| && j - 1 <= y
      ensures AtMost(less, s'[x], s'[y])
    {
      if y == j - 1 {
        assert AtMost(less, s[x], s[0]);
      }
    }
    assert AtMost(less, s[j - 1], s[0]);
  }

  lemma BelowSame<T>(less: (T, T) -> bool, s: seq<T>, s': seq<T>, c: nat)
    requires 2 <= c <= |s| == |s'| && s[c - 1] == s'[c - 1] && s[c / 2 - 1] == s'[c / 2 - 1]
    requires Below(less, s, c)
    ensures Below(less, s', c)
  {
  }

  /** The sort of address_sort and of query.c's records: any strict weak order, any array. */
  method Sort<T(!new)>(a: array<T>, less: (T, T) -> bool)
    requires Orders(less)
    modifies a
    ensures Sorted(less, a[..])
    ensures multiset(a[..]) == multiset(old(a[..]))
  {
    hide Heap, HeapWithHole, Ahead, Orders, AtMost, Tail, Sorted, Under;
    var i, j := a.Length, a.Length;
    LeavesAreHeap(less, a[..]);
    while j > 1
      invariant 0 <= i <= j <= a.Length && (a.Length > 0 ==> i >= 1) && (i > 1 ==> j == a.Length)
      invariant i >= 1 ==> Heap(less, a[..], i, j)
      invariant Tail(less, a[..], j)
      invariant multiset(a[..]) == multiset(old(a[..]))
      decreases j, i
    {
      ghost var s := a[..];
      var t;
      if i > 1 {
        i := i - 1;
        t := a[i - 1];
        NoHeapYet(less, s, i, j);
        NothingBehind(less, s, t);
        assert s[i - 1 := t] == s;
      } else {
        t := a[j - 1];
        TakeRoot(less, s, j);
        a[j - 1] := a[i - 1];
        assert a[..] == s[j - 1 := s[0]];
        j := j - 1;
      }
      var q := SiftDown(a, less, i, j, t);
      SiftUp(a, less, i, j, q, t);
    }
    AllTailSorted(less, a[..], j);
  }

  lemma AllTailSorted<T>(less: (T, T) -> bool, s: seq<T>, j: nat)
    requires j <= |s| && j <= 1 && Tail(less, s, j)
    ensures Sorted(less, s)
  {
  }

  lemma LeavesAreHeap<T>(less: (T, T) -> bool, s: seq<T>)
    ensures |s| >= 1 ==> Heap(less, s, |s|, |s|)
    ensures Tail(less, s, |s|)
  {
  }

  lemma NothingBehind<T>(less: (T, T) -> bool, s: seq<T>, t: T)
    ensures Ahead(less, s, |s|, t)
  {
  }
}
