// Which trees of the first loop of qsort are still there when it ends, and what its
// test on the table says about that.
module FinalTrees {
  import opened Leonardo
  import opened ForestTheory
  import opened BuildTheory
  import opened ForestBits

  // The forest after m more elements.
  function GrownBy(ts: seq<nat>, m: nat): (r: seq<nat>)
    requires ts != []
    ensures r != []
    decreases m
  {
    if m == 0 then ts else GrownBy(Grown(ts), m - 1)
  }

  lemma {:induction false} GrownByAdd(ts: seq<nat>, a: nat, b: nat)
    requires ts != []
    ensures GrownBy(ts, a + b) == GrownBy(GrownBy(ts, a), b)
    decreases a
  {
    hide Grown;
    if a == 0 {
    } else {
      GrownByAdd(Grown(ts), a - 1, b);
    }
  }

  lemma {:induction false} GrownByShape(ts: seq<nat>, h: int, m: nat)
    requires Shape(ts, h)
    ensures Shape(GrownBy(ts, m), h + m)
    decreases m
  {
    hide Grown;
    if m == 0 {
    } else {
      GrownShape(ts, h);
      GrownByShape(Grown(ts), h + 1, m - 1);
    }
  }

  // A tree ends at position i.
  predicate HasRoot(ts: seq<nat>, h: int, i: int) {
    ts != [] && (i == h || HasRoot(ts[1..], h - L(ts[0]), i))
  }

  // The leftmost trees of s are those of w.
  predicate Suffix(w: seq<nat>, s: seq<nat>) {
    |w| <= |s| && s[|s| - |w|..] == w
  }

  // All of the next m forests keep the trees w.
  ghost predicate Keeps(ts: seq<nat>, m: nat, w: seq<nat>)
    requires ts != []
  {
    forall i: nat :: i <= m ==> Suffix(w, GrownBy(ts, i))
  }

  lemma KeepsAdd(ts: seq<nat>, a: nat, b: nat, w: seq<nat>)
    requires ts != [] && Keeps(ts, a, w) && Keeps(GrownBy(ts, a), b, w)
    ensures Keeps(ts, a + b, w)
  {
    hide Suffix;
    forall i: nat | i <= a + b ensures Suffix(w, GrownBy(ts, i)) {
      if i > a {
        GrownByAdd(ts, a, i - a);
        assert Suffix(w, GrownBy(GrownBy(ts, a), i - a));
      }
    }
  }

  lemma KeepsFewer(ts: seq<nat>, m: nat, x: seq<nat>, w: seq<nat>)
    requires ts != [] && Keeps(ts, m, x + w)
    ensures Keeps(ts, m, w)
  {
    forall i: nat | i <= m ensures Suffix(w, GrownBy(ts, i)) {
      var s := GrownBy(ts, i);
      assert Suffix(x + w, s);
      assert s[|s| - |w|..] == s[|s| - |x + w|..][|x|..];
    }
  }

  // Larger trees stand at least two orders apart.
  predicate Above(us: seq<nat>, k: nat) {
    us == [] || us[0] >= k + 2
  }

  // A single step.
  lemma OneStep(ts: seq<nat>, w: seq<nat>)
    requires ts != [] && Suffix(w, ts) && Suffix(w, Grown(ts))
    ensures GrownBy(ts, 1) == Grown(ts) && Keeps(ts, 1, w)
  {
    assert GrownBy(ts, 1) == GrownBy(Grown(ts), 0);
    forall i: nat | i <= 1 ensures Suffix(w, GrownBy(ts, i)) {
      assert i == 0 || i == 1;
    }
  }

  // After as many elements as a tree one order smaller has, such a tree stands to
  // the right of a tree of order k, which is kept until then.
  lemma {:induction false} Fill(k: nat, us: seq<nat>)
    requires k >= 1 && Above(us, k)
    ensures GrownBy([k] + us, L(k - 1)) == [k - 1, k] + us
    ensures Keeps([k] + us, L(k - 1), [k] + us)
    decreases k, k
  {
    hide L, Keeps;
    var ts := [k] + us;
    assert !AdjacentPair(ts);
    if k == 1 {
      Unfold(0);
      assert [0] + ts == [0, 1] + us;
      OneStep(ts, ts);
    } else {
      Unfold(1);
      Monotone(1, k - 1);
      assert [1] + ts == [1, k] + us;
      OneStep(ts, ts);
      Climb(k, 1, us);
      GrownByAdd(ts, 1, L(k - 1) - 1);
      KeepsAdd(ts, 1, L(k - 1) - 1, ts);
    }
  }

  // A tree of order j to the right of it grows to order k - 1.
  lemma {:induction false} Climb(k: nat, j: nat, us: seq<nat>)
    requires 1 <= j <= k - 1 && Above(us, k)
    ensures L(j) <= L(k - 1) && GrownBy([j, k] + us, L(k - 1) - L(j)) == [k - 1, k] + us
    ensures Keeps([j, k] + us, L(k - 1) - L(j), [k] + us)
    decreases k, k - j
  {
    hide L, Keeps, GrownBy;
    Monotone(j, k - 1);
    var ts, w := [j, k] + us, [k] + us;
    assert ts == [j] + w;
    if j == k - 1 {
      KeptNow(ts, w);
    } else {
      Monotone(j + 1, k - 1);
      Promote(j, w);
      Climb(k, j + 1, us);
      assert [j + 1] + w == [j + 1, k] + us;
      var a, b := L(j + 1) - L(j), L(k - 1) - L(j + 1);
      Unfold(j + 1);
      GrownByAdd(ts, a, b);
      KeepsAdd(ts, a, b, w);
    }
  }

  lemma KeptNow(ts: seq<nat>, w: seq<nat>)
    requires ts != [] && Suffix(w, ts)
    ensures GrownBy(ts, 0) == ts && Keeps(ts, 0, w)
  {
  }

  // One more element then merges the two.
  lemma {:induction false} Promote(k: nat, us: seq<nat>)
    requires k >= 1 && Above(us, k)
    ensures GrownBy([k] + us, L(k - 1) + 1) == [k + 1] + us
    ensures Keeps([k] + us, L(k - 1) + 1, us)
    decreases k, k + 1
  {
    hide L, Keeps;
    var ts, pair := [k] + us, [k - 1, k] + us;
    Fill(k, us);
    KeepsFewer(ts, L(k - 1), [k], us);
    assert pair[2..] == us && Grown(pair) == [k + 1] + us;
    OneStep(pair, us);
    GrownByAdd(ts, L(k - 1), 1);
    KeepsAdd(ts, L(k - 1), 1, us);
  }

  // ----- positions -----

  lemma {:induction false} TilesOnce(w: seq<nat>, g: int, h: int)
    requires Tiles(w, g) && Tiles(w, h)
    ensures g == h
    decreases |w|
  {
    if w == [] {
    } else {
      TilesOnce(w[1..], g - L(w[0]), h - L(w[0]));
    }
  }

  lemma {:induction false} SuffixRoot(s: seq<nat>, g: int, w: seq<nat>, h: int)
    requires Tiles(s, g) && Tiles(w, h) && w != [] && Suffix(w, s)
    ensures HasRoot(s, g, h)
    decreases |s|
  {
    if |s| == |w| {
      assert s == w;
      TilesOnce(w, g, h);
    } else {
      assert s[1..][|s[1..]| - |w|..] == s[|s| - |w|..];
      SuffixRoot(s[1..], g - L(s[0]), w, h);
    }
  }

  lemma {:induction false} RootsBelow(ts: seq<nat>, h: int, i: int)
    requires Tiles(ts, h) && HasRoot(ts, h, i)
    ensures i <= h
    decreases |ts|
  {
    if i == h {
    } else {
      RootsBelow(ts[1..], h - L(ts[0]), i);
    }
  }

  // The only new root is that of the element added.
  lemma GrownRoots(ts: seq<nat>, h: int, i: int)
    requires Shape(ts, h) && i <= h && HasRoot(Grown(ts), h + 1, i)
    ensures HasRoot(ts, h, i)
  {
    if AdjacentPair(ts) {
      var k, us, vs := ts[0], ts[1..], ts[2..];
      assert Grown(ts)[1..] == vs && us[1..] == vs && us[0] == k + 1;
      Unfold(k + 2);
      assert HasRoot(us, h - L(k), i);
    } else {
      assert Grown(ts)[1..] == ts;
    }
  }

  lemma {:induction false} StaysGone(ts: seq<nat>, h: int, m: nat, i: int)
    requires Shape(ts, h) && i <= h && !HasRoot(ts, h, i)
    ensures !HasRoot(GrownBy(ts, m), h + m, i)
    decreases m
  {
    hide Grown, HasRoot;
    if m == 0 {
    } else {
      GrownShape(ts, h);
      if HasRoot(Grown(ts), h + 1, i) {
        GrownRoots(ts, h, i);
      }
      StaysGone(Grown(ts), h + 1, m - 1, i);
    }
  }

  // Of two trees that are not adjacent, the smaller one that ends at h is still there
  // when all n elements are in exactly if the test says that it is never merged.
  lemma FinalExact(ts: seq<nat>, h: int, n: nat)
    requires Shape(ts, h) && !AdjacentPair(ts) && h < n
    ensures HasRoot(GrownBy(ts, n - 1 - h), n - 1, h) <==> NeverMerged(ts[0], h, n)
  {
    hide *;
    ApartFromNext(ts, h);
    var k, us := ts[0], ts[1..];
    assert ts == [k] + us;
    NeverMergedIs(k, h, n);
    if n - 1 - h <= L(k - 1) {
      Lasts(k, us, h, n - 1 - h);
    } else {
      Merges(k, us, h, n - 1 - h);
    }
  }

  lemma NeverMergedIs(k: nat, h: int, n: nat)
    requires k >= 1
    ensures NeverMerged(k, h, n) <==> n - 1 - h <= L(k - 1)
  {
  }

  lemma Lasts(k: nat, us: seq<nat>, h: int, m: nat)
    requires k >= 1 && Above(us, k) && Shape([k] + us, h) && m <= L(k - 1)
    ensures HasRoot(GrownBy([k] + us, m), h + m, h)
  {
    hide L, GrownBy, HasRoot;
    var ts := [k] + us;
    Fill(k, us);
    GrownByShape(ts, h, m);
    assert Suffix(ts, GrownBy(ts, m));
    SuffixRoot(GrownBy(ts, m), h + m, ts, h);
  }

  lemma Merges(k: nat, us: seq<nat>, h: int, m: nat)
    requires k >= 1 && Above(us, k) && Tiles(us, h - L(k)) && Shape([k] + us, h) && m > L(k - 1)
    ensures !HasRoot(GrownBy([k] + us, m), h + m, h)
  {
    hide L, GrownBy, HasRoot, Keeps, Shape, Tiles;
    var ts, a := [k] + us, L(k - 1) + 1;
    Promote(k, us);
    GrownByAdd(ts, a, m - a);
    GrownByShape(ts, h, a);
    MergedAway(k, us, h);
    StaysGone([k + 1] + us, h + a, m - a, h);
  }

  lemma ApartFromNext(ts: seq<nat>, h: int)
    requires Shape(ts, h) && !AdjacentPair(ts)
    ensures ts != [] && ts[0] >= 1 && Above(ts[1..], ts[0]) && Tiles(ts[1..], h - L(ts[0]))
  {
    if |ts| > 1 {
      assert Rising(ts[1..], ts[0] + 1) && ts[1..][0] == ts[1];
    }
  }

  lemma MergedAway(k: nat, us: seq<nat>, h: int)
    requires k >= 1 && Tiles(us, h - L(k))
    ensures !HasRoot([k + 1] + us, h + L(k - 1) + 1, h)
  {
    Unfold(k + 1);
    assert ([k + 1] + us)[1..] == us;
    if HasRoot(us, h - L(k), h) {
      RootsBelow(us, h - L(k), h);
    }
  }
}
