// Sorting edges by their upper end: quicksort without bounds checks, then
// insertion sort.
module EdgeSort {

  // Only the key matters here; `id` stands for the rest of the edge.
  datatype Edge = Edge(y0: real, id: nat)

  predicate Less(a: Edge, b: Edge) {
    a.y0 < b.y0
  }

  ghost predicate Sorted(s: seq<Edge>) {
    forall i, j :: 0 <= i < j < |s| ==> s[i].y0 <= s[j].y0
  }

  ghost predicate Permuted(s: seq<Edge>, t: seq<Edge>) {
    |s| == |t| && multiset(s) == multiset(t)
  }

  lemma PermutedTransitive(r: seq<Edge>, s: seq<Edge>, t: seq<Edge>)
    requires Permuted(r, s) && Permuted(s, t)
    ensures Permuted(r, t)
  {
  }

  lemma SwapPermutes(s: seq<Edge>, i: nat, j: nat)
    requires i < |s| && j < |s|
    ensures Permuted(s[i := s[j]][j := s[i]], s)
  {
  }

  // Element `i` moved down to place `j`.
  function Moved(s: seq<Edge>, j: nat, i: nat): (r: seq<Edge>)
    requires j <= i < |s|
    ensures |r| == |s|
  {
    s[..j] + [s[i]] + s[j..i] + s[i + 1..]
  }

  lemma MovedPermutes(s: seq<Edge>, j: nat, i: nat)
    requires j <= i < |s|
    ensures Permuted(Moved(s, j, i), s)
  {
    assert s == s[..j] + s[j..i] + [s[i]] + s[i + 1..];
  }

  // A sorted beginning stays sorted when the element is put where it belongs.
  lemma MovedSorted(s: seq<Edge>, j: nat, i: nat)
    requires j <= i < |s| && Sorted(s[..i])
    requires forall k :: 0 <= k < j ==> s[k].y0 <= s[i].y0
    requires forall k :: j <= k < i ==> s[i].y0 <= s[k].y0
    ensures Sorted(Moved(s, j, i)[..i + 1])
  {
    var r, front := Moved(s, j, i)[..i + 1], s[..i];
    forall k | 0 <= k <= i
      ensures r[k] == if k < j then front[k] else if k == j then s[i] else front[k - 1]
    {
    }
    assert forall k :: 0 <= k < i ==> front[k] == s[k];
    forall k, l | 0 <= k < l <= i
      ensures r[k].y0 <= r[l].y0
    {
      var k', l' := if k <= j then k else k - 1, if l <= j then l else l - 1;
      if k != j && l != j {
        assert front[k'].y0 <= front[l'].y0;
      } else if k == j {
        assert s[i].y0 <= s[l'].y0;
      } else {
        assert s[k'].y0 <= s[i].y0;
      }
    }
  }

  // Elements outside [p, p + n) are the same.
  ghost predicate Framed(was: seq<Edge>, now: seq<Edge>, p: nat, n: nat) {
    |was| == |now| && forall k :: 0 <= k < |was| && !(p <= k < p + n) ==> now[k] == was[k]
  }

  method Swap(a: array<Edge>, i: nat, j: nat)
    requires i < a.Length && j < a.Length
    modifies a
    ensures a[..] == old(a[..])[i := old(a[j])][j := old(a[i])]
    ensures Permuted(a[..], old(a[..]))
  {
    SwapPermutes(a[..], i, j);
    var t := a[i];
    a[i] := a[j];
    a[j] := t;
    assert a[..] == old(a[..])[i := old(a[j])][j := old(a[i])];
  }

  // ---- insertion sort ------------------------------------------------------

  method InsertionSort(a: array<Edge>, n: nat)
    requires n <= a.Length
    modifies a
    ensures Sorted(a[..n]) && Permuted(a[..], old(a[..])) && Framed(old(a[..]), a[..], 0, n)
  {
    hide Permuted, Sorted;
    ghost var was := a[..];
    PermutedItself(was);
    SortedShort(was);
    var i := 1;
    while i < n
      invariant 1 <= i && (i <= n || i == 1) && i <= |was| + 1
      invariant i <= |was| ==> Sorted(a[..i])
      invariant Permuted(a[..], was) && Framed(was, a[..], 0, n)
    {
      ghost var before := a[..];
      Insert(a, i);
      PermutedTransitive(a[..], before, was);
      i := i + 1;
    }
    SortedShort(a[..]);
  }

  lemma SortedShort(s: seq<Edge>)
    ensures forall n: nat :: n <= 1 && n <= |s| ==> Sorted(s[..n])
  {
  }

  lemma PermutedItself(s: seq<Edge>)
    ensures Permuted(s, s)
  {
  }

  // Moves element `i` down to its place among the sorted ones before it.
  method Insert(a: array<Edge>, i: nat)
    requires 1 <= i < a.Length && Sorted(a[..i])
    modifies a
    ensures Sorted(a[..i + 1]) && Permuted(a[..], old(a[..])) && Framed(old(a[..]), a[..], 0, i + 1)
  {
    hide Permuted;
    ghost var was := a[..];
    var t := a[i];
    var j := i;
    while j > 0
      invariant 0 <= j <= i
      invariant forall k {:trigger a[k]} :: 0 <= k < a.Length && (k <= j || i < k) ==> a[k] == was[k]
      invariant forall k {:trigger a[k]} :: j < k <= i ==> a[k] == was[k - 1]
      invariant forall k {:trigger was[k]} :: j <= k < i ==> t.y0 < was[k].y0
    {
      var b := a[j - 1];
      assert b == was[j - 1];
      if !Less(t, b) {
        break;
      }
      a[j] := a[j - 1];
      j := j - 1;
    }
    if i != j {
      a[j] := t;
    }
    assert a[..] == Moved(was, j, i);
    MovedPermutes(was, j, i);
    assert j > 0 ==> was[..i][j - 1] == was[j - 1];
    BelowLast(was[..i], j, t);
    assert forall k :: 0 <= k < j ==> was[..i][k] == was[k];
    MovedSorted(was, j, i);
  }

  // In a sorted list nothing is above its last element.
  lemma BelowLast(s: seq<Edge>, j: nat, t: Edge)
    requires Sorted(s) && j <= |s| && (j > 0 ==> s[j - 1].y0 <= t.y0)
    ensures forall k :: 0 <= k < j ==> s[k].y0 <= t.y0
  {
  }

  // ---- quicksort -----------------------------------------------------------

  // Some element of the part from `from` on is not below the pivot: the upward
  // scan needs no bounds check.
  ghost predicate StopsUp(a: seq<Edge>, p: nat, n: nat, from: nat) {
    p + n <= |a| && exists k :: p + from <= k < p + n && a[k].y0 >= a[p].y0
  }

  // Which of three elements goes in front: one of the others is not below it.
  function Front(x: Edge, y: Edge, z: Edge): (r: (Edge, Edge, Edge))
    ensures r.1.y0 >= r.0.y0 || r.2.y0 >= r.0.y0
    ensures r.1.y0 <= r.0.y0 || r.2.y0 <= r.0.y0
  {
    if Less(x, y) == Less(y, z) then (y, x, z)
    else if Less(x, z) == Less(y, z) then (x, y, z)
    else (z, x, y)
  }

  // Puts the median of the first, middle and last element in front.
  method MedianToFront(a: array<Edge>, p: nat, n: nat)
    requires n > 12 && p + n <= a.Length
    modifies a
    ensures Permuted(a[..], old(a[..])) && Framed(old(a[..]), a[..], p, n)
    ensures (a[p], a[p + n / 2], a[p + n - 1]) == old(Front(a[p], a[p + n / 2], a[p + n - 1]))
  {
    hide Permuted, Framed, Front;
    ghost var was := a[..];
    ghost var x, y, z := a[p], a[p + n / 2], a[p + n - 1];
    FramedItself(was, p, n);
    var m := n / 2;
    MedianToMiddle(a, p, p + m, p + n - 1);
    ghost var mid := a[..];
    FramedAt(was, mid, p, n, m);
    Swap(a, p, p + m);
    FramedSwap(was, mid, a[..], p, n, 0, m);
    PermutedTransitive(a[..], mid, was);
  }

  method MedianToMiddle(a: array<Edge>, p: nat, m: nat, l: nat)
    requires p < m < l < a.Length
    modifies a
    ensures Permuted(a[..], old(a[..]))
    ensures forall k :: 0 <= k < a.Length && k != p && k != m && k != l ==> a[k] == old(a[k])
    ensures (a[m], a[p], a[l]) == old(Front(a[p], a[m], a[l]))
  {
    PermutedItself(a[..]);
    hide Permuted;
    var c01 := Less(a[p], a[m]);
    var c12 := Less(a[m], a[l]);
    if c01 != c12 {
      var c := Less(a[p], a[l]);
      var z := if c == c12 then p else l;
      Swap(a, z, m);
    }
  }

  lemma FramedAt(s: seq<Edge>, t: seq<Edge>, p: nat, n: nat, m: nat)
    requires p + n <= |s| == |t| && 0 < m < n - 1
    requires forall k :: 0 <= k < |s| && k != p && k != p + m && k != p + n - 1 ==> t[k] == s[k]
    ensures Framed(s, t, p, n)
  {
  }

  lemma FrontStops(a: seq<Edge>, p: nat, n: nat)
    requires n > 12 && p + n <= |a| && (a[p + n / 2].y0 >= a[p].y0 || a[p + n - 1].y0 >= a[p].y0)
    ensures StopsUp(a, p, n, 1)
  {
    var m := n / 2;
    assert 1 <= m < n;
    assert a[p + m].y0 >= a[p].y0 || a[p + n - 1].y0 >= a[p].y0;
  }

  lemma FramedItself(s: seq<Edge>, p: nat, n: nat)
    ensures Framed(s, s, p, n)
  {
  }

  lemma FramedSwap(r: seq<Edge>, s: seq<Edge>, t: seq<Edge>, p: nat, n: nat, i: nat, j: nat)
    requires Framed(r, s, p, n) && p + n <= |s| && i < n && j < n
    requires t == s[p + i := s[p + j]][p + j := s[p + i]]
    ensures Framed(r, t, p, n)
  {
  }

  // Elements before `i` are not above the pivot, those after `j` not below it.
  ghost predicate Parted(a: seq<Edge>, p: nat, n: nat, i: int, j: int) {
    && p + n <= |a| && 0 < n && 1 <= i <= n && 0 <= j < n
    && (forall k :: p <= k < p + i ==> a[k].y0 <= a[p].y0)
    && (forall k :: p + j < k < p + n ==> a[k].y0 >= a[p].y0)
  }

  // Two elements on the wrong sides change places.
  method Exchange(a: array<Edge>, p: nat, n: nat, i: nat, j: nat, ghost was: seq<Edge>)
    requires p + n <= a.Length && 1 <= i < j < n && Parted(a[..], p, n, i, j)
    requires a[p + i].y0 >= a[p].y0 && a[p + j].y0 <= a[p].y0
    requires Permuted(a[..], was) && Framed(was, a[..], p, n)
    modifies a
    ensures a[..] == old(a[..])[p + i := old(a[p + j])][p + j := old(a[p + i])]
    ensures Permuted(a[..], was) && Framed(was, a[..], p, n)
    ensures Parted(a[..], p, n, i + 1, j - 1) && StopsUp(a[..], p, n, i + 1)
  {
    hide Permuted, Framed, Parted, StopsUp;
    ghost var before := a[..];
    Swap(a, p + i, p + j);
    FramedSwap(was, before, a[..], p, n, i, j);
    PermutedTransitive(a[..], before, was);
    SwapParts(before, a[..], p, n, i, j);
  }

  // Splits the part around its first element.
  method Partition(a: array<Edge>, p: nat, n: nat) returns (i: nat, j: nat)
    requires n > 12 && p + n <= a.Length && StopsUp(a[..], p, n, 1)
    modifies a
    ensures Permuted(a[..], old(a[..])) && Framed(old(a[..]), a[..], p, n)
    ensures 1 <= i < n && j <= i <= j + 1 && Parted(a[..], p, n, i, j)
  {
    hide Permuted, Framed, Parted, StopsUp;
    ghost var was := a[..];
    FramedItself(was, p, n);
    PermutedItself(was);
    i, j := 1, n - 1;
    PartedAtStart(a[..], p, n);
    while true
      invariant 1 <= i <= j + 1 && j < n && StopsUp(a[..], p, n, i) && Parted(a[..], p, n, i, j)
      invariant Permuted(a[..], was) && Framed(was, a[..], p, n)
      decreases j - i + 1
    {
      i := ScanUp(a, p, n, i, j);
      j := ScanDown(a, p, n, i, j);
      if i >= j {
        return;
      }
      Exchange(a, p, n, i, j, was);
      i := i + 1;
      j := j - 1;
    }
  }

  lemma PartedAtStart(s: seq<Edge>, p: nat, n: nat)
    requires n > 1 && p + n <= |s|
    ensures Parted(s, p, n, 1, n - 1)
  {
  }

  // The swap renews the stopper of the upward scan.
  lemma SwapParts(s: seq<Edge>, t: seq<Edge>, p: nat, n: nat, i: nat, j: nat)
    requires Parted(s, p, n, i, j) && i < j && t == s[p + i := s[p + j]][p + j := s[p + i]]
    requires s[p + i].y0 >= s[p].y0 && s[p + j].y0 <= s[p].y0
    ensures Parted(t, p, n, i + 1, j - 1) && StopsUp(t, p, n, i + 1)
  {
    assert t[p + j].y0 >= t[p].y0;
  }

  // From `i` up to the first element not below the pivot.
  method ScanUp(a: array<Edge>, p: nat, n: nat, from: nat, ghost j: nat) returns (i: nat)
    requires p + n <= a.Length && 1 <= from <= j + 1 && StopsUp(a[..], p, n, from) && Parted(a[..], p, n, from, j)
    ensures from <= i <= j + 1 && i < n && a[p + i].y0 >= a[p].y0 && Parted(a[..], p, n, i, j)
    ensures StopsUp(a[..], p, n, i)
  {
    i := from;
    ghost var at :| p + from <= at < p + n && a[..][at].y0 >= a[p].y0;
    ghost var stop := at - p;
    while true
      invariant from <= i <= stop && i <= j + 1 && Parted(a[..], p, n, i, j)
      decreases stop - i
    {
      if !Less(a[p + i], a[p]) {
        break;
      }
      assert a[..][p + i] == a[p + i];
      i := i + 1;
    }
  }

  // From `j` down to the first element not above the pivot, at worst the pivot.
  method ScanDown(a: array<Edge>, p: nat, n: nat, ghost i: nat, from: nat) returns (j: nat)
    requires p + n <= a.Length && 1 <= i <= from + 1 && from < n && Parted(a[..], p, n, i, from)
    ensures i <= j + 1 && j <= from && a[p + j].y0 <= a[p].y0 && Parted(a[..], p, n, i, j)
  {
    j := from;
    while true
      invariant i <= j + 1 && j <= from && Parted(a[..], p, n, i, j)
      decreases j
    {
      if !Less(a[p], a[p + j]) {
        break;
      }
      j := j - 1;
    }
  }

  // Sorts large parts roughly; the one element between the two sides, and the
  // pivot, may stay where they are.
  method QuickSort(a: array<Edge>, from: nat, count: nat)
    requires from + count <= a.Length
    modifies a
    ensures Permuted(a[..], old(a[..])) && Framed(old(a[..]), a[..], from, count)
    decreases count
  {
    hide Permuted, Framed, Parted, StopsUp;
    ghost var was := a[..];
    FramedItself(was, from, count);
    PermutedItself(was);
    var p, n := from, count;
    while n > 12
      invariant from <= p && p + n <= from + count
      invariant Permuted(a[..], was) && Framed(was, a[..], from, count)
      decreases n
    {
      ghost var s := a[..];
      MedianToFront(a, p, n);
      FrontStops(a[..], p, n);
      ghost var t := a[..];
      var i, j := Partition(a, p, n);
      ghost var u := a[..];
      PermutedTransitive(t, s, was);
      PermutedTransitive(u, t, was);
      FramedWithin(was, s, t, from, count, p, n);
      FramedWithin(was, t, u, from, count, p, n);
      if j < n - i {
        QuickSort(a, p, j);
        FramedWithin(was, u, a[..], from, count, p, j);
        p := p + i;
        n := n - i;
      } else {
        QuickSort(a, p + i, n - i);
        FramedWithin(was, u, a[..], from, count, p + i, n - i);
        n := j;
      }
      PermutedTransitive(a[..], u, was);
    }
  }

  lemma FramedWithin(r: seq<Edge>, s: seq<Edge>, t: seq<Edge>, p: nat, n: nat, q: nat, m: nat)
    requires Framed(r, s, p, n) && Framed(s, t, q, m) && p <= q && q + m <= p + n
    ensures Framed(r, t, p, n)
  {
  }

  // The edges sorted by key.
  method SortEdges(a: array<Edge>, n: nat)
    requires n <= a.Length
    modifies a
    ensures Sorted(a[..n]) && Permuted(a[..], old(a[..])) && a[n..] == old(a[n..])
    ensures multiset(a[..n]) == multiset(old(a[..n]))
  {
    ghost var was := a[..];
    QuickSort(a, 0, n);
    ghost var rough := a[..];
    InsertionSort(a, n);
    PermutedTransitive(a[..], rough, was);
    FramedWithin(was, rough, a[..], 0, n, 0, n);
    FrontPermuted(was, a[..], n);
  }

  lemma FrontPermuted(s: seq<Edge>, t: seq<Edge>, n: nat)
    requires Permuted(t, s) && Framed(s, t, 0, n) && n <= |s|
    ensures t[n..] == s[n..] && multiset(t[..n]) == multiset(s[..n])
  {
    assert s == s[..n] + s[n..] && t == t[..n] + t[n..];
    assert t[n..] == s[n..];
    forall e: Edge
      ensures multiset(t[..n])[e] == multiset(s[..n])[e]
    {
      assert multiset(s)[e] == multiset(s[..n])[e] + multiset(s[n..])[e];
      assert multiset(t)[e] == multiset(t[..n])[e] + multiset(t[n..])[e];
    }
  }
}
