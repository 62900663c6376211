// Forests of Leonardo heaps: what trinkle computes, why it restores ascending
// roots, and which trees the first loop of qsort has already put in order.
//
// A forest is the sequence ts of its tree orders from right (smallest) to left
// (largest); its rightmost tree has its root at h.
module ForestTheory {
  import opened Leonardo
  import opened SiftTheory

  // The trees exactly cover the positions 0..h.
  predicate Tiles(ts: seq<nat>, h: int): (r: bool)
    ensures r ==> h >= -1 && (ts != [] <==> h >= 0)
  {
    if ts == [] then h == -1
    else L(ts[0]) <= h + 1 && Tiles(ts[1..], h - L(ts[0]))
  }

  ghost predicate AllHeaps<T>(cmp: Comparator<T>, e: seq<T>, ts: seq<nat>, h: int)
    requires Tiles(ts, h) && h < |e|
  {
    ts != [] ==> Heap(cmp, e, h, ts[0]) && AllHeaps(cmp, e, ts[1..], h - L(ts[0]))
  }

  // Roots ascend from left to right.
  ghost predicate RootsAscend<T>(cmp: Comparator<T>, e: seq<T>, ts: seq<nat>, h: int)
    requires Tiles(ts, h) && h < |e|
  {
    |ts| > 1 ==> cmp(e[h - L(ts[0])], e[h]) <= 0 && RootsAscend(cmp, e, ts[1..], h - L(ts[0]))
  }

  ghost predicate Ordered<T>(cmp: Comparator<T>, e: seq<T>, ts: seq<nat>, h: int)
    requires Tiles(ts, h) && h < |e|
  {
    AllHeaps(cmp, e, ts, h) && RootsAscend(cmp, e, ts, h)
  }

  lemma {:induction false} OrderedFrame<T>(cmp: Comparator<T>, e: seq<T>, e': seq<T>, ts: seq<nat>, h: int)
    requires Tiles(ts, h) && h < |e| && Ordered(cmp, e, ts, h)
    requires SameOn(e, e', 0, h + 1)
    ensures Ordered(cmp, e', ts, h)
  {
    if ts == [] {
    } else {
      HeapFrame(cmp, e, e', h, ts[0]);
      OrderedFrame(cmp, e, e', ts[1..], h - L(ts[0]));
    }
  }

  // In an ordered forest the last position holds a greatest element.
  lemma {:induction false} OrderedMax<T(!new)>(cmp: Comparator<T>, e: seq<T>, ts: seq<nat>, h: int, i: int)
    requires TotalPreorder(cmp)
    requires Tiles(ts, h) && h < |e| && Ordered(cmp, e, ts, h)
    requires 0 <= i <= h
    ensures cmp(e[i], e[h]) <= 0
  {
    var s := h - L(ts[0]);
    if i > s {
      HeapMax(cmp, e, h, ts[0], i);
    } else {
      OrderedMax(cmp, e, ts[1..], s, i);
      Trans(cmp, e[i], e[s], e[h]);
    }
  }

  // ----- trinkle -----

  // trinkle stops walking left: the next root is no greater than x, or (unless
  // the tree is trusted to be a heap below x) no greater than one of the children.
  predicate Stops<T>(cmp: Comparator<T>, e: seq<T>, ts: seq<nat>, h: int, x: T, trusty: bool)
    requires |ts| > 1 && Tiles(ts, h) && h < |e|
  {
    var s := h - L(ts[0]);
    || cmp(e[s], x) <= 0
    || (!trusty && ts[0] > 1 && (cmp(e[Right(h)], e[s]) >= 0 || cmp(e[Left(h, ts[0])], e[s]) >= 0))
  }

  // Drop x into the hole at h, moving greater roots of trees to the left into
  // the hole first.
  function Trinkled<T>(cmp: Comparator<T>, e: seq<T>, ts: seq<nat>, h: int, x: T, trusty: bool): (r: seq<T>)
    requires ts != [] && Tiles(ts, h) && h < |e|
    ensures |r| == |e|
    decreases |ts|
  {
    if |ts| == 1 || Stops(cmp, e, ts, h, x, trusty) then
      if trusty then e[h := x] else SiftDown(cmp, e, h, ts[0], x)
    else
      var s := h - L(ts[0]);
      Trinkled(cmp, e[h := e[s]], ts[1..], s, x, false)
  }

  // How many trees trinkle walks, its own included.
  function Walked<T>(cmp: Comparator<T>, e: seq<T>, ts: seq<nat>, h: int, x: T, trusty: bool): (n: nat)
    requires ts != [] && Tiles(ts, h) && h < |e|
    ensures 1 <= n <= |ts|
    decreases |ts|
  {
    if |ts| == 1 || Stops(cmp, e, ts, h, x, trusty) then 1
    else 1 + Walked(cmp, e, ts[1..], h - L(ts[0]), x, false)
  }

  // The root of the n-th tree from the right.
  function RootAt(ts: seq<nat>, h: int, n: nat): (r: int)
    requires Tiles(ts, h) && n <= |ts|
    ensures -1 <= r <= h
    decreases n
  {
    if n == 0 then h else RootAt(ts[1..], h - L(ts[0]), n - 1)
  }

  // A root filled from the tree to its left does not matter to what is walked next.
  lemma {:induction false} WalkedFrame<T>(
      cmp: Comparator<T>, e: seq<T>, e': seq<T>, ts: seq<nat>, h: int, x: T, trusty: bool)
    requires ts != [] && Tiles(ts, h) && h < |e| && SameOn(e, e', 0, h + 1)
    ensures Walked(cmp, e, ts, h, x, trusty) == Walked(cmp, e', ts, h, x, trusty)
    decreases |ts|
  {
    if |ts| == 1 {
    } else {
      WalkedFrame(cmp, e, e', ts[1..], h - L(ts[0]), x, false);
    }
  }

  // The positions that trinkle may change: the root of every tree it walks and,
  // unless that is its own tree and trusted, all of the last one.
  ghost predicate MayChange(ts: seq<nat>, h: int, n: nat, trusty: bool, j: int)
    requires Tiles(ts, h) && 1 <= n <= |ts|
    decreases n
  {
    j == h || if n == 1 then !trusty && h - L(ts[0]) < j <= h else MayChange(ts[1..], h - L(ts[0]), n - 1, false, j)
  }

  // Nothing to the right of the head changes.
  lemma {:induction false} TrinkledFrame<T>(cmp: Comparator<T>, e: seq<T>, ts: seq<nat>, h: int, x: T, trusty: bool)
    requires ts != [] && Tiles(ts, h) && h < |e|
    ensures SameOn(e, Trinkled(cmp, e, ts, h, x, trusty), h + 1, |e|)
    decreases |ts|
  {
    SiftDownFrame(cmp, e, h, ts[0], x);
    if |ts| == 1 || Stops(cmp, e, ts, h, x, trusty) {
    } else {
      var s := h - L(ts[0]);
      TrinkledFrame(cmp, e[h := e[s]], ts[1..], s, x, false);
    }
  }

  // Nothing changes but the roots of the trees walked and the last of these trees.
  lemma {:induction false} TrinkledWithin<T>(cmp: Comparator<T>, e: seq<T>, ts: seq<nat>, h: int, x: T, trusty: bool)
    requires ts != [] && Tiles(ts, h) && h < |e|
    ensures
      var r, n := Trinkled(cmp, e, ts, h, x, trusty), Walked(cmp, e, ts, h, x, trusty);
      forall j | 0 <= j < |e| && !MayChange(ts, h, n, trusty, j) :: r[j] == e[j]
    decreases |ts|
  {
    SiftDownFrame(cmp, e, h, ts[0], x);
    if |ts| == 1 || Stops(cmp, e, ts, h, x, trusty) {
    } else {
      var s := h - L(ts[0]);
      TrinkledWithin(cmp, e[h := e[s]], ts[1..], s, x, false);
      WalkedFrame(cmp, e, e[h := e[s]], ts[1..], s, x, false);
    }
  }

  // In particular the trees left of the last one walked.
  lemma {:induction false} LeftUnchanged(ts: seq<nat>, h: int, n: nat, trusty: bool, j: int)
    requires Tiles(ts, h) && 1 <= n <= |ts| && j <= RootAt(ts, h, n)
    ensures !MayChange(ts, h, n, trusty, j)
    decreases n
  {
    if n == 1 {
      assert RootAt(ts, h, 1) == RootAt(ts[1..], h - L(ts[0]), 0);
    } else {
      LeftUnchanged(ts[1..], h - L(ts[0]), n - 1, false, j);
    }
  }

  lemma TrinkledLeft<T>(cmp: Comparator<T>, e: seq<T>, ts: seq<nat>, h: int, x: T, trusty: bool)
    requires ts != [] && Tiles(ts, h) && h < |e|
    ensures SameOn(e, Trinkled(cmp, e, ts, h, x, trusty), 0, RootAt(ts, h, Walked(cmp, e, ts, h, x, trusty)) + 1)
  {
    var n := Walked(cmp, e, ts, h, x, trusty);
    TrinkledWithin(cmp, e, ts, h, x, trusty);
    forall j | 0 <= j <= RootAt(ts, h, n) ensures Trinkled(cmp, e, ts, h, x, trusty)[j] == e[j] {
      LeftUnchanged(ts, h, n, trusty, j);
    }
  }

  lemma {:induction false} PassedUnchanged(ts: seq<nat>, h: int, n: nat, trusty: bool, t: nat, j: int)
    requires Tiles(ts, h) && t + 1 < n <= |ts| && RootAt(ts, h, t + 1) < j < RootAt(ts, h, t)
    ensures !MayChange(ts, h, n, trusty, j)
    decreases n
  {
    var s := h - L(ts[0]);
    if t == 0 {
      assert RootAt(ts, h, 1) == RootAt(ts[1..], s, 0);
      AboveForest(ts[1..], s, n - 1, false, j);
    } else {
      assert RootAt(ts, h, t) == RootAt(ts[1..], s, t - 1) && RootAt(ts, h, t + 1) == RootAt(ts[1..], s, t);
      PassedUnchanged(ts[1..], s, n - 1, false, t - 1, j);
    }
  }

  lemma {:induction false} AboveForest(ts: seq<nat>, h: int, n: nat, trusty: bool, j: int)
    requires Tiles(ts, h) && 1 <= n <= |ts| && h < j
    ensures !MayChange(ts, h, n, trusty, j)
    decreases n
  {
    if n == 1 {
    } else {
      AboveForest(ts[1..], h - L(ts[0]), n - 1, false, j);
    }
  }

  // And every element of the t-th tree walked, unless that is the last, but its root.
  lemma TrinkledPassed<T>(cmp: Comparator<T>, e: seq<T>, ts: seq<nat>, h: int, x: T, trusty: bool, t: nat, j: int)
    requires ts != [] && Tiles(ts, h) && h < |e|
    requires t + 1 < Walked(cmp, e, ts, h, x, trusty) && RootAt(ts, h, t + 1) < j < RootAt(ts, h, t)
    ensures Trinkled(cmp, e, ts, h, x, trusty)[j] == e[j]
  {
    TrinkledWithin(cmp, e, ts, h, x, trusty);
    PassedUnchanged(ts, h, Walked(cmp, e, ts, h, x, trusty), trusty, t, j);
  }

  lemma {:induction false} TrinkledPermutes<T>(cmp: Comparator<T>, e: seq<T>, ts: seq<nat>, h: int, x: T, trusty: bool)
    requires ts != [] && Tiles(ts, h) && h < |e|
    ensures multiset(Trinkled(cmp, e, ts, h, x, trusty)) == multiset(e[h := x])
    decreases |ts|
  {
    SiftDownPermutes(cmp, e, h, ts[0], x);
    if |ts| == 1 || Stops(cmp, e, ts, h, x, trusty) {
    } else {
      var s := h - L(ts[0]);
      MoveHole(e, h, s, x);
      TrinkledPermutes(cmp, e[h := e[s]], ts[1..], s, x, false);
    }
  }

  // The new root is that of the tree to the left if it is greater than x and, unless
  // the tree is trusted, than both children; otherwise it is what sifting makes it.
  lemma TrinkledRoot<T>(cmp: Comparator<T>, e: seq<T>, ts: seq<nat>, h: int, x: T, trusty: bool)
    requires ts != [] && Tiles(ts, h) && h < |e|
    ensures
      var r, k, s := Trinkled(cmp, e, ts, h, x, trusty), ts[0], h - L(ts[0]);
      if
        && |ts| > 1 && cmp(e[s], x) > 0
        && (trusty || k <= 1 || (cmp(e[Right(h)], e[s]) < 0 && cmp(e[Left(h, k)], e[s]) < 0))
      then r[h] == e[s]
      else r[h] == if trusty then x else SiftDown(cmp, e, h, k, x)[h]
  {
    if |ts| > 1 && !Stops(cmp, e, ts, h, x, trusty) {
      var s := h - L(ts[0]);
      TrinkledFrame(cmp, e[h := e[s]], ts[1..], s, x, false);
    }
  }

  // Trinkling moves nothing in a forest that x completes to an ordered one.
  lemma TrinkledIdle<T(!new)>(cmp: Comparator<T>, e: seq<T>, ts: seq<nat>, h: int, x: T, trusty: bool)
    requires TotalPreorder(cmp) && ts != [] && Tiles(ts, h) && h < |e| && Ordered(cmp, e[h := x], ts, h)
    ensures Trinkled(cmp, e, ts, h, x, trusty) == e[h := x]
  {
    SiftDownIdle(cmp, e, h, ts[0], x);
    if |ts| > 1 {
      assert e[h := x][h - L(ts[0])] == e[h - L(ts[0])];
    }
  }

  // What trinkle may assume: subtrees of its own tree are heaps (or, trusted,
  // x on top of them is a heap), and the forest to the left is ordered.
  ghost predicate Trinkleable<T>(cmp: Comparator<T>, e: seq<T>, ts: seq<nat>, h: int, x: T, trusty: bool)
    requires ts != [] && Tiles(ts, h) && h < |e|
  {
    && Subheaps(cmp, e, h, ts[0])
    && (trusty && ts[0] >= 2 ==> cmp(e[Left(h, ts[0])], x) <= 0 && cmp(e[Right(h)], x) <= 0)
    && Ordered(cmp, e, ts[1..], h - L(ts[0]))
  }

  // trinkle orders the whole forest up to h.  If x and all that may move into
  // the hole are at most some b, so is the new root.
  lemma {:induction false} TrinkledOrdered<T(!new)>(
      cmp: Comparator<T>, e: seq<T>, ts: seq<nat>, h: int, x: T, trusty: bool)
    requires TotalPreorder(cmp)
    requires ts != [] && Tiles(ts, h) && h < |e| && Trinkleable(cmp, e, ts, h, x, trusty)
    ensures Ordered(cmp, Trinkled(cmp, e, ts, h, x, trusty), ts, h)
    ensures Heap(cmp, e, h, ts[0]) && RootsAscend(cmp, e, ts, h) && cmp(x, e[h]) <= 0 ==>
      cmp(Trinkled(cmp, e, ts, h, x, trusty)[h], e[h]) <= 0
    decreases |ts|
  {
    if |ts| == 1 || Stops(cmp, e, ts, h, x, trusty) {
      TrinkleStops(cmp, e, ts, h, x, trusty);
    } else {
      TrinkleMoves(cmp, e, ts, h, x, trusty);
    }
  }

  // x on top of two heaps with no greater roots.
  lemma TrustedHeap<T>(cmp: Comparator<T>, e: seq<T>, h: int, k: nat, x: T)
    requires Fits(|e|, h, k) && Subheaps(cmp, e, h, k)
    requires k >= 2 ==> cmp(e[Left(h, k)], x) <= 0 && cmp(e[Right(h)], x) <= 0
    ensures Heap(cmp, e[h := x], h, k)
  {
    hide L;
    Unfold(k);
    if k >= 2 {
      var r, lf, rt := e[h := x], Left(h, k), Right(h);
      HeapFrame(cmp, e, r, lf, k - 1);
      HeapFrame(cmp, e, r, rt, k - 2);
      assert r[lf] == e[lf] && r[rt] == e[rt] && r[h] == x;
    }
  }

  // Where the walk stops, the next root is no greater than anything that is no
  // less than x and both children.
  lemma StopBound<T(!new)>(cmp: Comparator<T>, e: seq<T>, ts: seq<nat>, h: int, x: T, y: T)
    requires TotalPreorder(cmp) && |ts| > 1 && Tiles(ts, h) && h < |e| && Stops(cmp, e, ts, h, x, false)
    requires cmp(x, y) <= 0
    requires ts[0] > 1 ==> cmp(e[Right(h)], y) <= 0 && cmp(e[Left(h, ts[0])], y) <= 0
    ensures cmp(e[h - L(ts[0])], y) <= 0
  {
    hide TotalPreorder;
    var s, k := h - L(ts[0]), ts[0];
    if cmp(e[s], x) <= 0 {
      Trans(cmp, e[s], x, y);
    } else if cmp(e[Right(h)], e[s]) >= 0 {
      Flip(cmp, e[s], e[Right(h)]);
      Trans(cmp, e[s], e[Right(h)], y);
    } else {
      Flip(cmp, e[s], e[Left(h, k)]);
      Trans(cmp, e[s], e[Left(h, k)], y);
    }
  }

  lemma {:induction false} TrinkleStops<T(!new)>(
      cmp: Comparator<T>, e: seq<T>, ts: seq<nat>, h: int, x: T, trusty: bool)
    requires TotalPreorder(cmp)
    requires ts != [] && Tiles(ts, h) && h < |e| && Trinkleable(cmp, e, ts, h, x, trusty)
    requires |ts| == 1 || Stops(cmp, e, ts, h, x, trusty)
    ensures Ordered(cmp, Trinkled(cmp, e, ts, h, x, trusty), ts, h)
    ensures Heap(cmp, e, h, ts[0]) && cmp(x, e[h]) <= 0 ==> cmp(Trinkled(cmp, e, ts, h, x, trusty)[h], e[h]) <= 0
  {
    hide TotalPreorder, SiftDown, L;
    var s, k := h - L(ts[0]), ts[0];
    var r := Trinkled(cmp, e, ts, h, x, trusty);
    SiftDownHeap(cmp, e, h, k, x);
    SiftDownFrame(cmp, e, h, k, x);
    OrderedFrame(cmp, e, r, ts[1..], s);
    if trusty {
      TrustedHeap(cmp, e, h, k, x);
    } else {
      if Heap(cmp, e, h, k) && cmp(x, e[h]) <= 0 {
        ReplacedRoot(cmp, e, r, h, k, x);
      }
      if |ts| > 1 {
        StopBound(cmp, e, ts, h, x, r[h]);
      }
    }
  }

  lemma {:induction false} TrinkleMoves<T(!new)>(
      cmp: Comparator<T>, e: seq<T>, ts: seq<nat>, h: int, x: T, trusty: bool)
    requires TotalPreorder(cmp)
    requires Tiles(ts, h) && h < |e| && |ts| > 1 && !Stops(cmp, e, ts, h, x, trusty)
    requires Trinkleable(cmp, e, ts, h, x, trusty)
    ensures Ordered(cmp, Trinkled(cmp, e, ts, h, x, trusty), ts, h)
    ensures Trinkled(cmp, e, ts, h, x, trusty)[h] == e[h - L(ts[0])]
    decreases |ts|, 0
  {
    hide TotalPreorder, Trinkled, Subheaps, Stops, L, Heap;
    var s, k := h - L(ts[0]), ts[0];
    var e1 := e[h := e[s]];
    Passed(cmp, e, ts, h, x, trusty);
    OrderedFrame(cmp, e, e1, ts[1..], s);
    RestTrinkleable(cmp, e1, ts[1..], s, x);
    TrinkledOrdered(cmp, e1, ts[1..], s, x, false);
    TrinkledFrame(cmp, e1, ts[1..], s, x, false);
    var r := Trinkled(cmp, e1, ts[1..], s, x, false);
    MovedIs(cmp, e, ts, h, x, trusty);
    TrustedHeap(cmp, e, h, k, e[s]);
    HeapFrame(cmp, e1, r, h, k);
  }

  // Where the walk goes on, the next root is no less than x and both children.
  lemma Passed<T(!new)>(cmp: Comparator<T>, e: seq<T>, ts: seq<nat>, h: int, x: T, trusty: bool)
    requires TotalPreorder(cmp) && |ts| > 1 && Tiles(ts, h) && h < |e| && !Stops(cmp, e, ts, h, x, trusty)
    requires Trinkleable(cmp, e, ts, h, x, trusty)
    ensures
      var s, k := h - L(ts[0]), ts[0];
      && cmp(x, e[s]) <= 0
      && (k >= 2 ==> cmp(e[Left(h, k)], e[s]) <= 0 && cmp(e[Right(h)], e[s]) <= 0)
  {
    hide TotalPreorder, Subheaps, Ordered;
    var s, k := h - L(ts[0]), ts[0];
    Flip(cmp, x, e[s]);
    if k >= 2 {
      var lf, rt := Left(h, k), Right(h);
      if trusty {
        Trans(cmp, e[lf], x, e[s]);
        Trans(cmp, e[rt], x, e[s]);
      } else {
        Flip(cmp, e[s], e[rt]);
        Flip(cmp, e[s], e[lf]);
      }
    }
  }

  lemma MovedIs<T>(cmp: Comparator<T>, e: seq<T>, ts: seq<nat>, h: int, x: T, trusty: bool)
    requires |ts| > 1 && Tiles(ts, h) && h < |e| && !Stops(cmp, e, ts, h, x, trusty)
    ensures
      var s := h - L(ts[0]);
      Trinkled(cmp, e, ts, h, x, trusty) == Trinkled(cmp, e[h := e[s]], ts[1..], s, x, false)
  {
  }

  lemma RestTrinkleable<T>(cmp: Comparator<T>, e: seq<T>, ts: seq<nat>, h: int, x: T)
    requires ts != [] && Tiles(ts, h) && h < |e| && Ordered(cmp, e, ts, h)
    ensures Trinkleable(cmp, e, ts, h, x, false) && Heap(cmp, e, h, ts[0])
  {
  }
}
