// What C asks of the comparison function, on the elements that it is given: an
// order on them extends to one on everything, and sift and trinkle cannot tell.
module OrderOn {
  import opened Leonardo
  import opened SiftTheory
  import opened ForestTheory

  // A total preorder on the members of s.
  ghost predicate PreorderOn<T(!new)>(cmp: Comparator<T>, s: set<T>) {
    forall a, b, c | a in s && b in s && c in s ::
      && (cmp(a, b) <= 0 <==> cmp(b, a) >= 0)
      && (cmp(a, b) <= 0 && cmp(b, c) <= 0 ==> cmp(a, c) <= 0)
  }

  // Everything else comes after, all alike.
  function Extended<T(==)>(cmp: Comparator<T>, s: set<T>): Comparator<T> {
    (a, b) => if a in s && b in s then cmp(a, b) else if a in s then -1 else if b in s then 1 else 0
  }

  lemma ExtendedTotal<T(!new)>(cmp: Comparator<T>, s: set<T>)
    requires PreorderOn(cmp, s)
    ensures TotalPreorder(Extended(cmp, s))
  {
    var ext := Extended(cmp, s);
    forall a: T, b: T, c: T {:trigger Pick(a, b, c)} | Pick(a, b, c)
      ensures (ext(a, b) <= 0 <==> ext(b, a) >= 0) && (ext(a, b) <= 0 && ext(b, c) <= 0 ==> ext(a, c) <= 0)
    {
      ExtendedLaws(cmp, s, a, b, c);
    }
  }

  lemma ExtendedLaws<T(!new)>(cmp: Comparator<T>, s: set<T>, a: T, b: T, c: T)
    requires PreorderOn(cmp, s)
    ensures
      var ext := Extended(cmp, s);
      (ext(a, b) <= 0 <==> ext(b, a) >= 0) && (ext(a, b) <= 0 && ext(b, c) <= 0 ==> ext(a, c) <= 0)
  {
    if a in s && b in s {
      assert (cmp(a, b) <= 0 <==> cmp(b, a) >= 0) && (a in s && b in s && a in s);
    }
  }

  ghost function Range<T>(e: seq<T>): (s: set<T>)
    ensures Within(e, s)
  {
    set x | x in e
  }

  predicate Within<T(==)>(e: seq<T>, s: set<T>) {
    forall i | 0 <= i < |e| :: e[i] in s
  }

  lemma WithinPermuted<T>(e: seq<T>, r: seq<T>, s: set<T>)
    requires Within(e, s) && multiset(e) == multiset(r)
    ensures Within(r, s)
  {
    forall i | 0 <= i < |r| ensures r[i] in s {
      assert r[i] in multiset(r);
      assert r[i] in e;
    }
  }

  lemma {:induction false} SiftDownOn<T>(cmp: Comparator<T>, s: set<T>, e: seq<T>, h: int, k: nat, x: T)
    requires Fits(|e|, h, k) && Within(e, s) && x in s
    ensures SiftDown(Extended(cmp, s), e, h, k, x) == SiftDown(cmp, e, h, k, x)
    decreases k
  {
    if k <= 1 {
    } else {
      var lf, rt := Left(h, k), Right(h);
      SiftDownOn(cmp, s, e[h := e[lf]], lf, k - 1, x);
      SiftDownOn(cmp, s, e[h := e[rt]], rt, k - 2, x);
    }
  }

  lemma StopsOn<T>(cmp: Comparator<T>, s: set<T>, e: seq<T>, ts: seq<nat>, h: int, x: T, trusty: bool)
    requires |ts| > 1 && Tiles(ts, h) && h < |e| && Within(e, s) && x in s
    ensures Stops(Extended(cmp, s), e, ts, h, x, trusty) == Stops(cmp, e, ts, h, x, trusty)
  {
  }

  lemma {:induction false} TrinkledOn<T>(
      cmp: Comparator<T>, s: set<T>, e: seq<T>, ts: seq<nat>, h: int, x: T, trusty: bool)
    requires ts != [] && Tiles(ts, h) && h < |e| && Within(e, s) && x in s
    ensures Trinkled(Extended(cmp, s), e, ts, h, x, trusty) == Trinkled(cmp, e, ts, h, x, trusty)
    decreases |ts|
  {
    hide Stops, Extended, SiftDown;
    SiftDownOn(cmp, s, e, h, ts[0], x);
    if |ts| == 1 {
    } else {
      StopsOn(cmp, s, e, ts, h, x, trusty);
      TrinkledOn(cmp, s, e[h := e[h - L(ts[0])]], ts[1..], h - L(ts[0]), x, false);
    }
  }
}
