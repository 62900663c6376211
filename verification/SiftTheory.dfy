// What sift and trinkle compute, as functions on the sequence of elements, and
// why that restores heaps and ascending roots.
//
// A tree of order k with its root at index h occupies the L(k) positions ending
// at h.  Its right child is the root of a tree of order k-2 at h-1, its left
// child the root of a tree of order k-1 just before that tree.
module SiftTheory {
  import opened Leonardo

  type Comparator<!T> = (T, T) -> int

  // What C asks of the comparison function: swapping the arguments flips the
  // sign, and "not greater" is transitive.  Pick only tells the verifier when
  // to use the law; the lemmas Flip and Trans below are how it is used.
  ghost predicate TotalPreorder<T(!new)>(cmp: Comparator<T>) {
    forall a: T, b: T, c: T {:trigger Pick(a, b, c)} :: Pick(a, b, c) ==>
      && (cmp(a, b) <= 0 <==> cmp(b, a) >= 0)
      && (cmp(a, b) <= 0 && cmp(b, c) <= 0 ==> cmp(a, c) <= 0)
  }

  ghost predicate Pick<T>(a: T, b: T, c: T) {
    true
  }

  lemma Flip<T(!new)>(cmp: Comparator<T>, a: T, b: T)
    requires TotalPreorder(cmp)
    ensures cmp(a, b) <= 0 <==> cmp(b, a) >= 0
    ensures cmp(a, b) >= 0 <==> cmp(b, a) <= 0
    ensures cmp(a, a) <= 0
  {
    assert Pick(a, b, b) && Pick(b, a, a) && Pick(a, a, a);
  }

  lemma Trans<T(!new)>(cmp: Comparator<T>, a: T, b: T, c: T)
    requires TotalPreorder(cmp) && cmp(a, b) <= 0 && cmp(b, c) <= 0
    ensures cmp(a, c) <= 0
  {
    assert Pick(a, b, c);
  }

  predicate Fits(size: nat, h: int, k: nat) {
    L(k) <= h + 1 <= size
  }

  function Right(h: int): int {
    h - 1
  }

  function Left(h: int, k: nat): int
    requires k >= 2
  {
    h - 1 - L(k - 2)
  }

  ghost predicate Heap<T>(cmp: Comparator<T>, e: seq<T>, h: int, k: nat)
    requires Fits(|e|, h, k)
    decreases k
  {
    k >= 2 ==>
      && cmp(e[Left(h, k)], e[h]) <= 0
      && cmp(e[Right(h)], e[h]) <= 0
      && Heap(cmp, e, Left(h, k), k - 1)
      && Heap(cmp, e, Right(h), k - 2)
  }

  // A tree whose root may be out of place but whose two subtrees are heaps.
  ghost predicate Subheaps<T>(cmp: Comparator<T>, e: seq<T>, h: int, k: nat)
    requires Fits(|e|, h, k)
  {
    k >= 2 ==> Heap(cmp, e, Left(h, k), k - 1) && Heap(cmp, e, Right(h), k - 2)
  }

  ghost predicate SameOn<T>(e: seq<T>, e': seq<T>, lo: int, hi: int) {
    |e| == |e'| && forall i :: 0 <= i < |e| && lo <= i < hi ==> e[i] == e'[i]
  }

  lemma {:induction false} HeapFrame<T>(cmp: Comparator<T>, e: seq<T>, e': seq<T>, h: int, k: nat)
    requires Fits(|e|, h, k) && Heap(cmp, e, h, k)
    requires SameOn(e, e', h + 1 - L(k), h + 1)
    ensures Heap(cmp, e', h, k)
    decreases k
  {
    if k <= 1 {
    } else {
      HeapFrame(cmp, e, e', Left(h, k), k - 1);
      HeapFrame(cmp, e, e', Right(h), k - 2);
    }
  }

  // The root of a heap is a greatest element of its tree.
  lemma {:induction false} HeapMax<T(!new)>(cmp: Comparator<T>, e: seq<T>, h: int, k: nat, i: int)
    requires TotalPreorder(cmp)
    requires Fits(|e|, h, k) && Heap(cmp, e, h, k)
    requires h - L(k) < i <= h
    ensures cmp(e[i], e[h]) <= 0
    decreases k
  {
    if i == h {
      Flip(cmp, e[h], e[h]);
    } else if i <= Left(h, k) {
      HeapMax(cmp, e, Left(h, k), k - 1, i);
      Trans(cmp, e[i], e[Left(h, k)], e[h]);
    } else {
      HeapMax(cmp, e, Right(h), k - 2, i);
      Trans(cmp, e[i], e[Right(h)], e[h]);
    }
  }

  // ----- sift -----

  // Drop x into the hole at the root h, moving greater children up.
  function SiftDown<T>(cmp: Comparator<T>, e: seq<T>, h: int, k: nat, x: T): (r: seq<T>)
    requires Fits(|e|, h, k)
    ensures |r| == |e|
    decreases k
  {
    if k <= 1 then e[h := x]
    else
      var lf, rt := Left(h, k), Right(h);
      if cmp(x, e[lf]) >= 0 && cmp(x, e[rt]) >= 0 then e[h := x]
      else if cmp(e[lf], e[rt]) >= 0 then SiftDown(cmp, e[h := e[lf]], lf, k - 1, x)
      else SiftDown(cmp, e[h := e[rt]], rt, k - 2, x)
  }

  lemma {:induction false} SiftDownFrame<T>(cmp: Comparator<T>, e: seq<T>, h: int, k: nat, x: T)
    requires Fits(|e|, h, k)
    ensures var r := SiftDown(cmp, e, h, k, x);
      SameOn(e, r, 0, h + 1 - L(k)) && SameOn(e, r, h + 1, |e|)
    decreases k
  {
    hide L;
    if k <= 1 {
      Unfold(k);
    } else {
      var lf, rt := Left(h, k), Right(h);
      Unfold(k);
      SiftDownFrame(cmp, e[h := e[lf]], lf, k - 1, x);
      SiftDownFrame(cmp, e[h := e[rt]], rt, k - 2, x);
    }
  }

  lemma UpdateMultiset<T>(e: seq<T>, i: int, x: T)
    requires 0 <= i < |e|
    ensures multiset(e[i := x]) == multiset(e) - multiset{e[i]} + multiset{x}
  {
    assert e == e[..i] + [e[i]] + e[i + 1..];
    assert e[i := x] == e[..i] + [x] + e[i + 1..];
  }

  // Moving e[j] into a hole at i moves the hole to j.
  lemma MoveHole<T>(e: seq<T>, i: int, j: int, x: T)
    requires 0 <= i < |e| && 0 <= j < |e|
    ensures multiset(e[i := e[j]][j := x]) == multiset(e[i := x])
  {
    UpdateMultiset(e, i, e[j]);
    UpdateMultiset(e[i := e[j]], j, x);
    UpdateMultiset(e, i, x);
  }

  lemma {:induction false} SiftDownPermutes<T>(cmp: Comparator<T>, e: seq<T>, h: int, k: nat, x: T)
    requires Fits(|e|, h, k)
    ensures multiset(SiftDown(cmp, e, h, k, x)) == multiset(e[h := x])
    decreases k
  {
    if k <= 1 {
    } else {
      var lf, rt := Left(h, k), Right(h);
      MoveHole(e, h, lf, x);
      MoveHole(e, h, rt, x);
      SiftDownPermutes(cmp, e[h := e[lf]], lf, k - 1, x);
      SiftDownPermutes(cmp, e[h := e[rt]], rt, k - 2, x);
    }
  }

  // The new root is x unless a child is greater, and otherwise the greater child, the
  // left one if they are equal.
  lemma SiftDownRoot<T>(cmp: Comparator<T>, e: seq<T>, h: int, k: nat, x: T)
    requires Fits(|e|, h, k)
    ensures SiftDown(cmp, e, h, k, x)[h] ==
      if k <= 1 || (cmp(x, e[Left(h, k)]) >= 0 && cmp(x, e[Right(h)]) >= 0) then x
      else if cmp(e[Left(h, k)], e[Right(h)]) >= 0 then e[Left(h, k)]
      else e[Right(h)]
  {
    hide L;
    if k > 1 {
      Unfold(k);
      SiftDownFrame(cmp, e[h := e[Left(h, k)]], Left(h, k), k - 1, x);
      SiftDownFrame(cmp, e[h := e[Right(h)]], Right(h), k - 2, x);
    }
  }

  // Sifting moves nothing if x makes a heap where it is.
  lemma SiftDownIdle<T(!new)>(cmp: Comparator<T>, e: seq<T>, h: int, k: nat, x: T)
    requires TotalPreorder(cmp) && Fits(|e|, h, k) && Heap(cmp, e[h := x], h, k)
    ensures SiftDown(cmp, e, h, k, x) == e[h := x]
  {
    if k > 1 {
      Flip(cmp, e[Left(h, k)], x);
      Flip(cmp, e[Right(h)], x);
    }
  }

  // What filling the hole at the root h with x must give: a heap whose root is x
  // or a child of the old root, and no smaller than any of these.
  ghost predicate ReplacedBy<T(!new)>(cmp: Comparator<T>, e: seq<T>, r: seq<T>, h: int, k: nat, x: T)
    requires Fits(|e|, h, k) && |r| == |e|
  {
    && Heap(cmp, r, h, k)
    && cmp(x, r[h]) <= 0
    && (r[h] == x || (k >= 2 && (r[h] == e[Left(h, k)] || r[h] == e[Right(h)])))
    && (k >= 2 ==> cmp(e[Left(h, k)], r[h]) <= 0 && cmp(e[Right(h)], r[h]) <= 0)
  }

  lemma ReplacedRoot<T(!new)>(cmp: Comparator<T>, e: seq<T>, r: seq<T>, h: int, k: nat, x: T)
    requires TotalPreorder(cmp)
    requires Fits(|e|, h, k) && Heap(cmp, e, h, k) && |r| == |e|
    requires ReplacedBy(cmp, e, r, h, k, x) && cmp(x, e[h]) <= 0
    ensures cmp(r[h], e[h]) <= 0
  {
  }

  // sift turns a tree whose subtrees are heaps into a heap.
  lemma {:induction false} SiftDownHeap<T(!new)>(cmp: Comparator<T>, e: seq<T>, h: int, k: nat, x: T)
    requires TotalPreorder(cmp)
    requires Fits(|e|, h, k) && Subheaps(cmp, e, h, k)
    ensures ReplacedBy(cmp, e, SiftDown(cmp, e, h, k, x), h, k, x)
    decreases k, 1
  {
    Flip(cmp, x, x);
    if k <= 1 {
    } else {
      var lf, rt := Left(h, k), Right(h);
      Flip(cmp, x, e[lf]);
      Flip(cmp, x, e[rt]);
      Flip(cmp, e[lf], e[rt]);
      Flip(cmp, e[rt], e[lf]);
      if cmp(x, e[lf]) >= 0 && cmp(x, e[rt]) >= 0 {
        HeapFrame(cmp, e, e[h := x], lf, k - 1);
        HeapFrame(cmp, e, e[h := x], rt, k - 2);
      } else if cmp(e[lf], e[rt]) >= 0 {
        if cmp(x, e[lf]) >= 0 {
          Trans(cmp, x, e[rt], e[lf]);
        }
        SiftLeft(cmp, e, h, k, x);
      } else {
        if cmp(x, e[rt]) >= 0 {
          Trans(cmp, x, e[lf], e[rt]);
        }
        SiftRight(cmp, e, h, k, x);
      }
    }
  }

  // Sifting a smaller x into the root of a heap.
  lemma {:induction false} SiftSmaller<T(!new)>(cmp: Comparator<T>, e: seq<T>, h: int, k: nat, x: T)
    requires TotalPreorder(cmp)
    requires Fits(|e|, h, k) && Heap(cmp, e, h, k) && cmp(x, e[h]) <= 0
    ensures var r := SiftDown(cmp, e, h, k, x);
      && Heap(cmp, r, h, k) && cmp(r[h], e[h]) <= 0
      && SameOn(e, r, 0, h + 1 - L(k)) && SameOn(e, r, h + 1, |e|)
    decreases k, 2
  {
    SiftDownHeap(cmp, e, h, k, x);
    SiftDownFrame(cmp, e, h, k, x);
    ReplacedRoot(cmp, e, SiftDown(cmp, e, h, k, x), h, k, x);
  }

  // The greater child moves up, x is sifted into its tree, and the tree of the
  // other child is not touched.
  lemma {:induction false} SiftLeft<T(!new)>(cmp: Comparator<T>, e: seq<T>, h: int, k: nat, x: T)
    requires TotalPreorder(cmp)
    requires k >= 2 && Fits(|e|, h, k) && Subheaps(cmp, e, h, k)
    requires cmp(e[Right(h)], e[Left(h, k)]) <= 0 && cmp(x, e[Left(h, k)]) <= 0
    ensures var lf := Left(h, k);
            var r := SiftDown(cmp, e[h := e[lf]], lf, k - 1, x);
            r[h] == e[lf] && Heap(cmp, r, h, k)
    decreases k, 0
  {
    hide L, TotalPreorder;
    Unfold(k);
    var lf := Left(h, k);
    var e1 := e[h := e[lf]];
    HeapFrame(cmp, e, e1, lf, k - 1);
    SiftSmaller(cmp, e1, lf, k - 1, x);
    HeapFrame(cmp, e, SiftDown(cmp, e1, lf, k - 1, x), Right(h), k - 2);
  }

  lemma {:induction false} SiftRight<T(!new)>(cmp: Comparator<T>, e: seq<T>, h: int, k: nat, x: T)
    requires TotalPreorder(cmp)
    requires k >= 2 && Fits(|e|, h, k) && Subheaps(cmp, e, h, k)
    requires cmp(e[Left(h, k)], e[Right(h)]) <= 0 && cmp(x, e[Right(h)]) <= 0
    ensures var rt := Right(h);
            var r := SiftDown(cmp, e[h := e[rt]], rt, k - 2, x);
            r[h] == e[rt] && Heap(cmp, r, h, k)
    decreases k, 0
  {
    hide L, TotalPreorder;
    Unfold(k);
    var rt := Right(h);
    var e1 := e[h := e[rt]];
    HeapFrame(cmp, e, e1, rt, k - 2);
    SiftSmaller(cmp, e1, rt, k - 2, x);
    HeapFrame(cmp, e, SiftDown(cmp, e1, rt, k - 2, x), Left(h, k), k - 1);
  }

  // ----- rotation along a path -----

  ghost predicate InRange(path: seq<nat>, size: nat) {
    forall i :: 0 <= i < |path| ==> path[i] < size
  }

  // e with each element of the path replaced by its successor on the path; the
  // last position keeps its value and is the hole.
  ghost function Shifted<T>(e: seq<T>, path: seq<nat>): (r: seq<T>)
    requires InRange(path, |e|)
    ensures |r| == |e|
  {
    if |path| <= 1 then e
    else
      var n := |path| - 1;
      Shifted(e, path[..n])[path[n - 1] := e[path[n]]]
  }

  // What cycle does to the elements.
  ghost function Rotated<T>(e: seq<T>, path: seq<nat>): seq<T>
    requires path != [] && InRange(path, |e|)
  {
    Shifted(e, path)[path[|path| - 1] := e[path[0]]]
  }

  ghost predicate Falling(path: seq<nat>) {
    forall i, j :: 0 <= i < j < |path| ==> path[i] > path[j]
  }

  lemma {:induction false} ShiftedOff<T>(e: seq<T>, path: seq<nat>, j: nat)
    requires InRange(path, |e|) && j < |e|
    requires forall i :: 0 <= i < |path| - 1 ==> path[i] != j
    ensures Shifted(e, path)[j] == e[j]
  {
    if |path| <= 1 {
    } else {
      ShiftedOff(e, path[..|path| - 1], j);
    }
  }

  lemma BelowPath<T>(e: seq<T>, path: seq<nat>, j: nat)
    requires path != [] && Falling(path) && InRange(path, |e|) && j < path[|path| - 1]
    ensures Shifted(e, path)[j] == e[j]
  {
    ShiftedOff(e, path, j);
  }

  lemma {:induction false} ShiftedOn<T>(e: seq<T>, path: seq<nat>, i: nat)
    requires InRange(path, |e|) && Falling(path) && i < |path| - 1
    ensures Shifted(e, path)[path[i]] == e[path[i + 1]]
  {
    var n := |path| - 1;
    if i >= n - 1 {
    } else {
      ShiftedOn(e, path[..n], i);
    }
  }

  // The rotation in closed form: position path[i] receives old path[i+1], the
  // last receives old path[0], and nothing else moves.
  lemma RotatedAt<T>(e: seq<T>, path: seq<nat>, j: nat)
    requires path != [] && Falling(path) && j < |e| && InRange(path, |e|)
    ensures (forall i :: 0 <= i < |path| ==> path[i] != j) ==> Rotated(e, path)[j] == e[j]
    ensures forall i :: 0 <= i < |path| && j == path[i] ==>
      Rotated(e, path)[j] == e[path[if i + 1 < |path| then i + 1 else 0]]
  {
    if i :| 0 <= i < |path| - 1 && path[i] == j {
      ShiftedOn(e, path, i);
    } else {
      ShiftedOff(e, path, j);
    }
  }
}
