/**
 * The A* worker's priority queue: a binary min-heap stored in a growable array. Entries
 * are ordered by a real key (the worker's comparator is `a.f < b.f`); the parent of
 * index i is (i - 1) / 2 and its children are 2i + 1 and 2i + 2.
 */
module Heap {
  import opened Wrappers

  /** Index `p` is the parent of index `c`. */
  predicate IsParent(p: int, c: int) { c == 2 * p + 1 || c == 2 * p + 2 }

  /** `Math.floor((c - 1) / 2)` is the parent of every index but the root, and the only one. */
  lemma ParentIndex(c: int)
    requires c > 0
    ensures IsParent((c - 1) / 2, c)
    ensures forall p :: IsParent(p, c) ==> p == (c - 1) / 2
  {
  }

  /** Every entry below the root has a key no smaller than its parent's. */
  ghost predicate HeapOrdered<T>(s: seq<T>, key: T -> real) {
    forall p, c :: 0 <= p < |s| && 0 <= c < |s| && IsParent(p, c) ==> key(s[p]) <= key(s[c])
  }

  /** The root of a heap-ordered sequence has the least key. */
  lemma {:induction false} RootIsMin<T>(s: seq<T>, key: T -> real, k: nat)
    requires HeapOrdered(s, key) && k < |s|
    ensures key(s[0]) <= key(s[k])
  {
    if k > 0 {
      var p := (k - 1) / 2;
      ParentIndex(k);
      RootIsMin(s, key, p);
    }
  }

  lemma RootIsMinOfAll<T>(s: seq<T>, key: T -> real)
    requires HeapOrdered(s, key) && |s| > 0
    ensures forall x | x in s :: key(s[0]) <= key(x)
  {
    forall x | x in s ensures key(s[0]) <= key(x) {
      var k :| 0 <= k < |s| && s[k] == x;
      RootIsMin(s, key, k);
    }
  }

  /** `s` with the entries at `i` and `j` exchanged. */
  function Swap<T>(s: seq<T>, i: nat, j: nat): (r: seq<T>)
    requires i < |s| && j < |s|
    ensures |r| == |s| && multiset(r) == multiset(s)
    ensures r[i] == s[j] && r[j] == s[i]
    ensures forall k | 0 <= k < |s| && k != i && k != j :: r[k] == s[k]
  {
    s[i := s[j]][j := s[i]]
  }

  /** The entry at `i` may be larger than its children; everything else is in heap order. */
  ghost predicate OrderedBelow<T>(s: seq<T>, key: T -> real, i: int) {
    && (forall p, c :: 0 <= p < |s| && 0 <= c < |s| && IsParent(p, c) && p != i ==> key(s[p]) <= key(s[c]))
    && (forall p, c :: 0 <= p < |s| && 0 <= c < |s| && IsParent(p, i) && IsParent(i, c) ==> key(s[p]) <= key(s[c]))
  }

  /** Swapping a too-large entry with its smaller child moves the fault one level down. */
  lemma SiftDownStep<T>(s: seq<T>, key: T -> real, i: nat, child: nat)
    requires OrderedBelow(s, key, i) && i < |s| && child < |s| && IsParent(i, child)
    requires key(s[child]) < key(s[i])
    requires forall c :: 0 <= c < |s| && IsParent(i, c) ==> key(s[child]) <= key(s[c])
    ensures OrderedBelow(Swap(s, i, child), key, child)
  {
    var r := Swap(s, i, child);
    forall p, c | 0 <= p < |r| && 0 <= c < |r| && IsParent(p, c) && p != child
      ensures key(r[p]) <= key(r[c])
    {
      if p == i {
        assert r[p] == s[child];
      } else if c == i {
        assert r[c] == s[child] && r[p] == s[p];
      } else {
        assert r[p] == s[p] && r[c] == s[c];
      }
    }
    forall p, c | 0 <= p < |r| && 0 <= c < |r| && IsParent(p, child) && IsParent(child, c)
      ensures key(r[p]) <= key(r[c])
    {
      ParentIndex(child);
      assert p == i && r[p] == s[child] && r[c] == s[c];
    }
  }

  /** Sifting down stops where no child is smaller. */
  lemma SiftDownDone<T>(s: seq<T>, key: T -> real, i: nat)
    requires OrderedBelow(s, key, i) && i < |s|
    requires forall c :: 0 <= c < |s| && IsParent(i, c) ==> key(s[i]) <= key(s[c])
    ensures HeapOrdered(s, key)
  {
  }

  /** The entry at `i` may be smaller than its parent; everything else is in heap order. */
  ghost predicate OrderedAbove<T>(s: seq<T>, key: T -> real, i: int) {
    && (forall p, c :: 0 <= p < |s| && 0 <= c < |s| && IsParent(p, c) && c != i ==> key(s[p]) <= key(s[c]))
    && (forall p, c :: 0 <= p < |s| && 0 <= c < |s| && IsParent(p, i) && IsParent(i, c) ==> key(s[p]) <= key(s[c]))
  }

  /** Swapping a too-small entry with its parent moves the fault one level up. */
  lemma SiftUpStep<T>(s: seq<T>, key: T -> real, i: nat)
    requires OrderedAbove(s, key, i) && 0 < i < |s|
    requires key(s[i]) < key(s[(i - 1) / 2])
    ensures OrderedAbove(Swap(s, i, (i - 1) / 2), key, (i - 1) / 2)
  {
    var q := (i - 1) / 2;
    ParentIndex(i);
    var r := Swap(s, i, q);
    forall x, y | 0 <= x < |r| && 0 <= y < |r| && IsParent(x, y) && y != q
      ensures key(r[x]) <= key(r[y])
    {
      if x == q && y == i {
      } else if x == q {
        assert key(s[q]) <= key(s[y]);
      } else if x == i {
        assert key(s[q]) <= key(s[y]);
      } else {
        assert y != i by { ParentIndex(i); }
        assert r[x] == s[x] && r[y] == s[y];
      }
    }
    forall x, y | 0 <= x < |r| && 0 <= y < |r| && IsParent(x, q) && IsParent(q, y)
      ensures key(r[x]) <= key(r[y])
    {
      assert r[x] == s[x] && key(s[x]) <= key(s[q]);
      if y != i {
        assert key(s[q]) <= key(s[y]);
      }
    }
  }

  /** Sifting up stops at the root or under a parent that is no larger. */
  lemma SiftUpDone<T>(s: seq<T>, key: T -> real, i: nat)
    requires OrderedAbove(s, key, i) && i < |s|
    requires i == 0 || key(s[(i - 1) / 2]) <= key(s[i])
    ensures HeapOrdered(s, key)
  {
    if i > 0 {
      ParentIndex(i);
    }
  }

  class PriorityQueue<T(==)> {
    var heap: seq<T>
    const key: T -> real

    ghost predicate Valid()
      reads this
    {
      HeapOrdered(heap, key)
    }

    constructor (key: T -> real)
      ensures Valid() && heap == [] && this.key == key
    {
      heap := [];
      this.key := key;
    }

    function Size(): nat
      reads this
    {
      |heap|
    }

    function IsEmpty(): (b: bool)
      reads this
      ensures b <==> heap == []
    {
      Size() == 0
    }

    /** The entry `pop` would return, without removing it. */
    function Peek(): (r: Option<T>)
      reads this
      requires Valid()
      ensures r.None? <==> heap == []
      ensures r.Some? ==> r.value in heap && forall x | x in heap :: key(r.value) <= key(x)
    {
      if heap == [] then None
      else
        RootIsMinOfAll(heap, key);
        Some(heap[0])
    }

    /** Adds `value` and returns the new size. */
    method Push(value: T) returns (size: nat)
      requires Valid()
      modifies this
      ensures Valid()
      ensures multiset(heap) == old(multiset(heap)) + multiset{value}
      ensures size == |heap| == old(|heap|) + 1
    {
      heap := heap + [value];
      SiftUp();
      size := |heap|;
    }

    /** Moves the last entry up while it is smaller than its parent. */
    method SiftUp()
      requires |heap| > 0
      requires forall p, c :: 0 <= p < |heap| - 1 && 0 <= c < |heap| - 1 && IsParent(p, c) ==> key(heap[p]) <= key(heap[c])
      modifies this
      ensures Valid()
      ensures multiset(heap) == old(multiset(heap)) && |heap| == old(|heap|)
    {
      var i := |heap| - 1;
      while i > 0 && key(heap[i]) < key(heap[(i - 1) / 2])
        invariant 0 <= i < |heap| && |heap| == old(|heap|)
        invariant multiset(heap) == old(multiset(heap))
        invariant OrderedAbove(heap, key, i)
        decreases i
      {
        SiftUpStep(heap, key, i);
        heap := Swap(heap, i, (i - 1) / 2);
        i := (i - 1) / 2;
      }
      SiftUpDone(heap, key, i);
    }

    /**
     * Removes and returns an entry of least key: the root, after the last entry has been
     * moved into its place and sifted down. An empty queue gives `None` (`undefined`).
     */
    method Pop() returns (r: Option<T>)
      requires Valid()
      modifies this
      ensures Valid()
      ensures old(heap) == [] ==> r == None && heap == []
      ensures old(heap) != [] ==> r == Some(old(heap)[0])
      ensures old(heap) != [] ==> multiset(heap) + multiset{r.value} == old(multiset(heap))
      ensures old(heap) != [] ==> |heap| == old(|heap|) - 1
      ensures r.Some? ==> forall x | x in old(heap) :: key(r.value) <= key(x)
    {
      if heap == [] {
        return None;
      }
      RootIsMinOfAll(heap, key);
      if |heap| > 1 {
        heap := Swap(heap, 0, |heap| - 1);
      }
      r := Some(heap[|heap| - 1]);
      assert heap == heap[..|heap| - 1] + [heap[|heap| - 1]];
      heap := heap[..|heap| - 1];
      SiftDown();
    }

    /** Moves the root down, each time swapping it with its smaller child, while a child is smaller. */
    method SiftDown()
      requires forall p, c :: 0 < p < |heap| && 0 <= c < |heap| && IsParent(p, c) ==> key(heap[p]) <= key(heap[c])
      modifies this
      ensures Valid()
      ensures multiset(heap) == old(multiset(heap)) && |heap| == old(|heap|)
    {
      var i := 0;
      var n := |heap|;
      while (2 * i + 1 < n && key(heap[2 * i + 1]) < key(heap[i])) || (2 * i + 2 < n && key(heap[2 * i + 2]) < key(heap[i]))
        invariant 0 <= i && |heap| == n && (n == 0 || i < n)
        invariant multiset(heap) == old(multiset(heap))
        invariant OrderedBelow(heap, key, i)
        decreases n - i
      {
        var left, right := 2 * i + 1, 2 * i + 2;
        var child := if right < n && key(heap[right]) < key(heap[left]) then right else left;
        assert key(heap[child]) < key(heap[i]);
        assert forall c :: 0 <= c < n && IsParent(i, c) ==> key(heap[child]) <= key(heap[c]);
        SiftDownStep(heap, key, i, child);
        heap := Swap(heap, i, child);
        i := child;
      }
      if n > 0 {
        SiftDownDone(heap, key, i);
      }
    }
  }
}
