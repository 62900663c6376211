// The invariants of the two main loops of qsort, as properties of the elements
// and the forest, and what each branch of the loops does to them.
module BuildTheory {
  import opened Leonardo
  import opened SiftTheory
  import opened ForestTheory
  import opened ForestBits

  // ----- shape of the forest -----

  predicate Gapped(ts: seq<nat>) {
    |ts| <= 1 || (ts[0] + 2 <= ts[1] && Gapped(ts[1..]))
  }

  // Orders rise strictly; only the smallest two may be adjacent.  A tree of
  // order 0 stands only beside one of order 1.
  predicate Shape(ts: seq<nat>, h: int) {
    && ts != [] && Tiles(ts, h) && Rising(ts, ts[0]) && Gapped(ts[1..])
    && (ts[0] == 0 ==> |ts| > 1 && ts[1] == 1)
  }

  predicate AdjacentPair(ts: seq<nat>) {
    |ts| > 1 && ts[1] == ts[0] + 1
  }

  // The forest after one more element: merge the smallest two trees under the
  // new root, or start a tree of order 1, or of order 0 beside one of order 1.
  function Grown(ts: seq<nat>): (r: seq<nat>)
    requires ts != []
    ensures r != []
  {
    if AdjacentPair(ts) then [ts[0] + 2] + ts[2..]
    else if ts[0] == 1 then [0] + ts
    else [1] + ts
  }

  // The forest without its last element.
  function Shrunk(ts: seq<nat>): seq<nat>
    requires ts != []
  {
    if ts[0] <= 1 then ts[1..] else [ts[0] - 2, ts[0] - 1] + ts[1..]
  }

  lemma GrownShape(ts: seq<nat>, h: int)
    requires Shape(ts, h)
    ensures Shape(Grown(ts), h + 1)
  {
    if AdjacentPair(ts) {
      MergedShape(ts, h);
    } else {
      AppendedShape(ts, h);
    }
  }

  lemma MergedShape(ts: seq<nat>, h: int)
    requires Shape(ts, h) && AdjacentPair(ts)
    ensures Shape(Grown(ts), h + 1)
  {
    var k, us, vs := ts[0], ts[1..], ts[2..];
    assert us[0] == k + 1 && us[1..] == vs;
    assert Tiles(us, h - L(k)) && Tiles(vs, h - L(k) - L(k + 1));
    assert L(k + 2) == L(k + 1) + L(k) + 1;
    assert Grown(ts)[1..] == vs;
    assert Rising(us, k + 1) && Rising(vs, k + 2);
    if vs != [] {
      assert vs[0] == us[1] >= k + 3;
      Tighten(vs, k + 2, k + 3);
    }
  }

  lemma AppendedShape(ts: seq<nat>, h: int)
    requires Shape(ts, h) && !AdjacentPair(ts)
    ensures Shape(Grown(ts), h + 1) && Gapped(ts)
  {
    assert Grown(ts)[1..] == ts;
    assert Rising(ts[1..], ts[0] + 1);
    if |ts| > 1 {
      assert ts[1..][0] == ts[1];
    }
  }

  lemma Tighten(ts: seq<nat>, k: nat, k': nat)
    requires Rising(ts, k) && (ts != [] ==> k' <= ts[0])
    ensures Rising(ts, k')
  {
  }

  lemma ShrunkShape(ts: seq<nat>, h: int)
    requires Shape(ts, h) && h > 0
    ensures Shape(Shrunk(ts), h - 1)
  {
    if ts[0] <= 1 {
      PoppedShape(ts, h);
    } else {
      SplitShape(ts, h);
    }
  }

  lemma PoppedShape(ts: seq<nat>, h: int)
    requires Shape(ts, h) && h > 0 && ts[0] <= 1
    ensures Shape(ts[1..], h - 1)
  {
    var k, us := ts[0], ts[1..];
    assert Tiles(us, h - 1) && Rising(us, k + 1) && us != [];
    Tighten(us, k + 1, us[0]);
  }

  lemma SplitShape(ts: seq<nat>, h: int)
    requires Shape(ts, h) && ts[0] >= 2
    ensures Shape(Shrunk(ts), h - 1)
  {
    var k, us := ts[0], ts[1..];
    var vs := [k - 1] + us;
    assert Tiles(us, h - L(k)) && Rising(us, k + 1);
    assert Shrunk(ts)[1..] == vs && vs[1..] == us;
    Tighten(us, k + 1, k);
    SplitTiles(us, h, k);
    if us != [] {
      assert vs[1] == us[0] >= k + 1;
    }
  }

  // Root, right subtree and left subtree of a tree cover what the tree covered.
  lemma SplitTiles(us: seq<nat>, h: int, k: nat)
    requires k >= 2 && L(k) <= h + 1 && Tiles(us, h - L(k))
    ensures Tiles([k - 1] + us, Left(h, k)) && Tiles([k - 2, k - 1] + us, h - 1)
  {
    assert L(k) == L(k - 1) + L(k - 2) + 1;
    assert ([k - 1] + us)[1..] == us;
    assert ([k - 2, k - 1] + us)[1..] == [k - 1] + us;
  }

  // A forest on one position is a single tree of order 1.
  lemma LastTree(ts: seq<nat>, h: int)
    requires Shape(ts, h)
    ensures h == 0 <==> ts == [1]
  {
    assert Tiles(ts[1..], h - L(ts[0]));
  }

  lemma {:induction false} OrdersBounded(ts: seq<nat>, h: int, top: nat)
    requires Tiles(ts, h) && h + 1 < L(top + 1)
    ensures AtMost(ts, top)
  {
    if ts == [] {
    } else {
      if ts[0] > top {
        Monotone(top + 1, ts[0]);
      }
      OrdersBounded(ts[1..], h - L(ts[0]), top);
    }
  }

  lemma {:induction false} CountBounded(ts: seq<nat>, k: nat, top: nat)
    requires Rising(ts, k) && AtMost(ts, top) && k <= top + 1
    ensures |ts| <= top + 1 - k
  {
    if ts == [] {
    } else {
      CountBounded(ts[1..], ts[0] + 1, top);
    }
  }

  // ----- order of the elements in the first loop -----

  // Too few of the n elements remain right of h to merge a tree of order k
  // with its root there.
  predicate NeverMerged(k: nat, h: int, n: nat) {
    k >= 1 && n - 1 - h <= L(k - 1)
  }

  // Roots ascend over trees that will never be merged again.
  ghost predicate FinalRootsAscend<T>(cmp: Comparator<T>, e: seq<T>, ts: seq<nat>, h: int, n: nat)
    requires Tiles(ts, h) && h < |e|
  {
    |ts| > 1 ==>
      && (NeverMerged(ts[0], h, n) ==> cmp(e[h - L(ts[0])], e[h]) <= 0)
      && FinalRootsAscend(cmp, e, ts[1..], h - L(ts[0]), n)
  }

  // The first loop: the tree that ends at h has heaps below its root, the trees
  // left of it are heaps, and their final roots ascend.
  ghost predicate Building<T>(cmp: Comparator<T>, e: seq<T>, ts: seq<nat>, h: int, n: nat)
    requires ts != [] && Tiles(ts, h) && h < |e|
  {
    && Subheaps(cmp, e, h, ts[0])
    && AllHeaps(cmp, e, ts[1..], h - L(ts[0]))
    && FinalRootsAscend(cmp, e, ts[1..], h - L(ts[0]), n)
  }

  lemma {:induction false} AscendIsFinalAscend<T>(cmp: Comparator<T>, e: seq<T>, ts: seq<nat>, h: int, n: nat)
    requires Tiles(ts, h) && h < |e| && RootsAscend(cmp, e, ts, h)
    ensures FinalRootsAscend(cmp, e, ts, h, n)
  {
    if |ts| <= 1 {
    } else {
      AscendIsFinalAscend(cmp, e, ts[1..], h - L(ts[0]), n);
    }
  }

  // If the rightmost of these trees is never merged again, neither are the others.
  lemma {:induction false} AllFinal<T>(cmp: Comparator<T>, e: seq<T>, ts: seq<nat>, h: int, n: nat)
    requires Tiles(ts, h) && h < |e| && Gapped(ts) && FinalRootsAscend(cmp, e, ts, h, n)
    requires ts != [] ==> NeverMerged(ts[0], h, n)
    ensures RootsAscend(cmp, e, ts, h)
  {
    if |ts| <= 1 {
    } else {
      Monotone(ts[0] + 1, ts[1] - 1);
      AllFinal(cmp, e, ts[1..], h - L(ts[0]), n);
    }
  }

  lemma {:induction false} HeapsFrame<T>(cmp: Comparator<T>, e: seq<T>, e': seq<T>, ts: seq<nat>, h: int, n: nat)
    requires Tiles(ts, h) && h < |e| && AllHeaps(cmp, e, ts, h) && FinalRootsAscend(cmp, e, ts, h, n)
    requires SameOn(e, e', 0, h + 1)
    ensures AllHeaps(cmp, e', ts, h) && FinalRootsAscend(cmp, e', ts, h, n)
  {
    if ts == [] {
    } else {
      HeapFrame(cmp, e, e', h, ts[0]);
      HeapsFrame(cmp, e, e', ts[1..], h - L(ts[0]), n);
    }
  }

  // Branch 1: two adjacent trees; sift, then merge them under the next element.
  lemma BuildMerge<T(!new)>(cmp: Comparator<T>, e: seq<T>, ts: seq<nat>, h: int, n: nat)
    requires TotalPreorder(cmp) && Shape(ts, h) && h + 1 < n == |e|
    requires Building(cmp, e, ts, h, n) && AdjacentPair(ts)
    ensures Shape(Grown(ts), h + 1)
    ensures Building(cmp, SiftDown(cmp, e, h, ts[0], e[h]), Grown(ts), h + 1, n)
  {
    hide SiftDown, TotalPreorder, L, Heap, NeverMerged, AllHeaps, FinalRootsAscend, Grown, Gapped;
    GrownShape(ts, h);
    var k := ts[0];
    var r := SiftDown(cmp, e, h, k, e[h]);
    SiftDownHeap(cmp, e, h, k, e[h]);
    SiftDownFrame(cmp, e, h, k, e[h]);
    HeapsFrame(cmp, e, r, ts[1..], h - L(k), n);
    MergeHeaps(cmp, r, ts, h, n);
  }

  lemma MergeHeaps<T>(cmp: Comparator<T>, r: seq<T>, ts: seq<nat>, h: int, n: nat)
    requires Shape(ts, h) && AdjacentPair(ts) && h + 1 < |r| && Tiles(Grown(ts), h + 1)
    requires Heap(cmp, r, h, ts[0])
    requires AllHeaps(cmp, r, ts[1..], h - L(ts[0])) && FinalRootsAscend(cmp, r, ts[1..], h - L(ts[0]), n)
    ensures Building(cmp, r, Grown(ts), h + 1, n)
  {
    hide L, Heap, NeverMerged;
    var k, us := ts[0], ts[1..];
    assert us[0] == k + 1 && Grown(ts)[0] == k + 2 && Grown(ts)[1..] == us[1..];
    Unfold(k + 2);
    assert Left(h + 1, k + 2) == h - L(k);
    assert AllHeaps(cmp, r, us[1..], h - L(k) - L(us[0]));
    assert FinalRootsAscend(cmp, r, us[1..], h - L(k) - L(us[0]), n);
  }

  // Branch 2: no adjacent trees, and the rightmost one is never merged: trinkle.
  lemma BuildTrinkle<T(!new)>(cmp: Comparator<T>, e: seq<T>, ts: seq<nat>, h: int, n: nat)
    requires TotalPreorder(cmp) && Shape(ts, h) && h < n == |e|
    requires Building(cmp, e, ts, h, n) && !AdjacentPair(ts) && NeverMerged(ts[0], h, n)
    ensures Ordered(cmp, Trinkled(cmp, e, ts, h, e[h], false), ts, h)
  {
    FinalTail(ts, h, n);
    AllFinal(cmp, e, ts[1..], h - L(ts[0]), n);
    TrinkledOrdered(cmp, e, ts, h, e[h], false);
  }

  lemma FinalTail(ts: seq<nat>, h: int, n: nat)
    requires Shape(ts, h) && !AdjacentPair(ts) && NeverMerged(ts[0], h, n)
    ensures |ts| > 1 ==> NeverMerged(ts[1..][0], h - L(ts[0]), n)
  {
    if |ts| > 1 {
      assert Rising(ts[1..], ts[0] + 1) && ts[1..][0] == ts[1] >= ts[0] + 2;
      Monotone(ts[0] + 1, ts[1] - 1);
    }
  }

  // Branch 3: no adjacent trees, and the rightmost one is merged later: sift.
  lemma BuildSift<T(!new)>(cmp: Comparator<T>, e: seq<T>, ts: seq<nat>, h: int, n: nat)
    requires TotalPreorder(cmp) && Shape(ts, h) && h < n == |e|
    requires Building(cmp, e, ts, h, n) && !NeverMerged(ts[0], h, n)
    ensures var r := SiftDown(cmp, e, h, ts[0], e[h]);
      AllHeaps(cmp, r, ts, h) && FinalRootsAscend(cmp, r, ts, h, n)
  {
    SiftDownHeap(cmp, e, h, ts[0], e[h]);
    SiftDownFrame(cmp, e, h, ts[0], e[h]);
    HeapsFrame(cmp, e, SiftDown(cmp, e, h, ts[0], e[h]), ts[1..], h - L(ts[0]), n);
  }

  // Branches 2 and 3: the next element becomes a tree of its own.
  lemma BuildAppend<T>(cmp: Comparator<T>, e: seq<T>, ts: seq<nat>, h: int, n: nat)
    requires Shape(ts, h) && h + 1 < n == |e| && !AdjacentPair(ts)
    requires AllHeaps(cmp, e, ts, h) && FinalRootsAscend(cmp, e, ts, h, n)
    ensures Shape(Grown(ts), h + 1)
    ensures Building(cmp, e, Grown(ts), h + 1, n)
  {
    GrownShape(ts, h);
    assert Grown(ts)[1..] == ts;
  }

  // Between the loops, with all elements in: trinkle orders the whole forest.
  lemma BuildDone<T(!new)>(cmp: Comparator<T>, e: seq<T>, ts: seq<nat>, n: nat)
    requires TotalPreorder(cmp) && Shape(ts, n - 1) && n == |e|
    requires Building(cmp, e, ts, n - 1, n)
    ensures Ordered(cmp, Trinkled(cmp, e, ts, n - 1, e[n - 1], false), ts, n - 1)
  {
    var us := ts[1..];
    if us != [] {
      assert Rising(us, ts[0] + 1) && us[0] >= ts[0] + 1;
      Monotone(ts[0], us[0] - 1);
    }
    AllFinal(cmp, e, us, n - 1 - L(ts[0]), n);
    TrinkledOrdered(cmp, e, ts, n - 1, e[n - 1], false);
  }

  // ----- order of the elements in the second loop -----

  // Everything from position m on is in its final place.
  ghost predicate SortedFrom<T>(cmp: Comparator<T>, e: seq<T>, m: int) {
    forall i, j :: 0 <= i < j < |e| && m <= j ==> cmp(e[i], e[j]) <= 0
  }

  // The last element of an ordered forest is in its final place.
  lemma TakeOff<T(!new)>(cmp: Comparator<T>, e: seq<T>, ts: seq<nat>, h: int)
    requires TotalPreorder(cmp) && Tiles(ts, h) && 0 <= h < |e|
    requires Ordered(cmp, e, ts, h) && SortedFrom(cmp, e, h + 1)
    ensures SortedFrom(cmp, e, h)
  {
    forall i | 0 <= i < h ensures cmp(e[i], e[h]) <= 0 {
      OrderedMax(cmp, e, ts, h, i);
    }
  }

  lemma PrefixPermuted<T>(e: seq<T>, e': seq<T>, m: nat)
    requires m <= |e| == |e'| && multiset(e) == multiset(e') && SameOn(e, e', m, |e|)
    ensures multiset(e[..m]) == multiset(e'[..m])
  {
    var t := e[m..];
    assert t == e'[m..];
    assert e == e[..m] + t && e' == e'[..m] + t;
    assert multiset(e[..m]) == multiset(e) - multiset(t);
    assert multiset(e'[..m]) == multiset(e') - multiset(t);
  }

  // Permuting the elements before m leaves those from m on in their final place.
  lemma StaysSorted<T>(cmp: Comparator<T>, e: seq<T>, e': seq<T>, m: nat)
    requires m <= |e| == |e'| && SortedFrom(cmp, e, m)
    requires multiset(e) == multiset(e') && SameOn(e, e', m, |e|)
    ensures SortedFrom(cmp, e', m)
  {
    PrefixPermuted(e, e', m);
    forall i, j | 0 <= i < j < |e'| && m <= j ensures cmp(e'[i], e'[j]) <= 0 {
      if i < m {
        var i' := Occurs(e[..m], e'[..m], i);
        assert cmp(e[i'], e[j]) <= 0;
      }
    }
  }

  lemma Occurs<T>(p: seq<T>, p': seq<T>, i: nat) returns (i': nat)
    requires multiset(p) == multiset(p') && i < |p'|
    ensures i' < |p| && p[i'] == p'[i]
  {
    assert p'[i] in multiset(p');
    assert p'[i] in p;
    i' :| i' < |p| && p[i'] == p'[i];
  }

  // Taking the root off a tree of order 2 or more: first the left subtree joins
  // the forest ...
  lemma SplitLeft<T(!new)>(cmp: Comparator<T>, e: seq<T>, ts: seq<nat>, h: int)
    requires TotalPreorder(cmp) && Shape(ts, h) && h < |e| && ts[0] >= 2
    requires Ordered(cmp, e, ts, h)
    ensures var k := ts[0]; var vs := [k - 1] + ts[1..]; var lf := Left(h, k);
      && Tiles(vs, lf)
      && Trinkleable(cmp, e, vs, lf, e[lf], true)
      && Heap(cmp, e, h - 1, k - 2)
  {
    var k, us := ts[0], ts[1..];
    var vs := [k - 1] + us;
    SplitTiles(us, h, k);
    assert Heap(cmp, e, h, k);
    assert vs[0] == k - 1 && vs[1..] == us;
    assert Left(h, k) - L(k - 1) == h - L(k);
    assert Ordered(cmp, e, us, h - L(k));
    SubtreeTrusted(cmp, e, h, k);
  }

  lemma SubtreeTrusted<T>(cmp: Comparator<T>, e: seq<T>, h: int, k: nat)
    requires k >= 2 && Fits(|e|, h, k) && Heap(cmp, e, h, k)
    ensures var lf := Left(h, k);
      && Subheaps(cmp, e, lf, k - 1) && Heap(cmp, e, h - 1, k - 2)
      && (k >= 3 ==> cmp(e[Left(lf, k - 1)], e[lf]) <= 0 && cmp(e[Right(lf)], e[lf]) <= 0)
  {
    assert Heap(cmp, e, Left(h, k), k - 1);
  }

  // ... and then the right one.
  lemma SplitRight<T(!new)>(cmp: Comparator<T>, e: seq<T>, r: seq<T>, vs: seq<nat>, h: int, k: nat)
    requires TotalPreorder(cmp) && k >= 2 && L(k - 2) <= h < |e| && Tiles(vs, Left(h, k)) && |r| == |e|
    requires Heap(cmp, e, h - 1, k - 2) && Ordered(cmp, r, vs, Left(h, k))
    requires SameOn(e, r, Left(h, k) + 1, |e|)
    ensures Tiles([k - 2] + vs, h - 1)
    ensures Trinkleable(cmp, r, [k - 2] + vs, h - 1, r[h - 1], true)
  {
    hide L, TotalPreorder, Ordered;
    Unfold(k);
    assert ([k - 2] + vs)[0] == k - 2 && ([k - 2] + vs)[1..] == vs;
    HeapFrame(cmp, e, r, h - 1, k - 2);
  }
}
