// sift, trinkle and qsort of frontend/c/shadowprov/qsort.c, on an array of bytes
// that holds n elements of a given width.  Heads are byte offsets and lp[] holds
// Leonardo numbers scaled by the width, as in the source; the ghost parameters
// h and ts give the position of the head and the orders of the forest.
module Qsort {
  import opened Arithmetic
  import opened MachineWord
  import opened Leonardo
  import opened SiftTheory
  import opened ForestTheory
  import opened OrderOn
  import opened BuildTheory
  import opened WordPair
  import FB = ForestBits
  import opened Cycle
  import opened Elements

  const AR_SIZE: nat := 14 * 8 + 1
  const LP_SIZE: nat := 12 * 8

  // Up to this many elements no tree has an order above 64 and no two trees are
  // 64 orders apart.
  const MAX_ELEMENTS: nat := 55555780070574

  lemma EightOn(k: nat, a: nat, b: nat)
    requires L(k) == a && L(k + 1) == b
    ensures L(k + 8) == 13 * a + 21 * b + 33 && L(k + 9) == 21 * a + 34 * b + 54
  {
    hide L;
    Unfold(k + 2);
    Unfold(k + 3);
    Unfold(k + 4);
    Unfold(k + 5);
    Unfold(k + 6);
    Unfold(k + 7);
    Unfold(k + 8);
    Unfold(k + 9);
  }

  lemma MaxElements()
    ensures L(65) == MAX_ELEMENTS + 1
  {
    hide L;
    Unfold(0);
    Unfold(1);
    EightOn(0, 1, 1);
    EightOn(8, 67, 109);
    EightOn(16, 3193, 5167);
    EightOn(24, 150049, 242785);
    EightOn(32, 7049155, 11405773);
    EightOn(40, 331160281, 535828591);
    EightOn(48, 15557484097, 25172538049);
    EightOn(56, 730870592323, 1182573459757);
  }

  // The entries of lp up to m have been filled in.
  ghost predicate Scaled(lp: array<Word>, width: nat, m: nat)
    reads lp
  {
    m < lp.Length && forall j :: 0 <= j <= m ==> lp[j] == L(j) * width
  }

  lemma ScaledDown(lp: array<Word>, width: nat, m: nat, k: nat)
    requires Scaled(lp, width, m) && k <= m
    ensures Scaled(lp, width, k)
  {
  }

  function At(a: array<byte>, off: nat, width: nat): Element
    requires off + width <= a.Length
    reads a
  {
    a[off..off + width]
  }

  function View(a: array<byte>, width: nat, n: nat): (r: seq<Element>)
    requires a.Length == n * width
    ensures |r| == n
    reads a
  {
    Elems(a[..], width, n)
  }

  // The element that starts at byte offset i * width.
  lemma AtView(a: array<byte>, width: nat, n: nat, i: nat)
    requires a.Length == n * width && i < n
    ensures i * width + width <= a.Length && At(a, i * width, width) == View(a, width, n)[i]
  {
    InBounds(i, n, width);
  }

  // ar holds pointers to the elements on the path.
  ghost predicate OnPath(ar: array<Ptr>, a: array<byte>, width: nat, path: seq<nat>)
    reads ar
  {
    |path| < ar.Length && forall i :: 0 <= i < |path| ==> ar[i] == Ptr(a, path[i] * width)
  }

  // ar[i++] = q, where q points to element c.
  method Push(ar: array<Ptr>, i: nat, a: array<byte>, width: nat, q: nat, ghost path: seq<nat>, ghost c: nat)
    requires i == |path| && i + 1 < ar.Length && OnPath(ar, a, width, path) && q == c * width
    modifies ar
    ensures OnPath(ar, a, width, path + [c]) && ar[0] == if i > 0 then old(ar[0]) else Ptr(a, q)
  {
    ar[i] := Ptr(a, q);
  }

  // cycle, seen on elements.
  method Rotate(width: nat, ar: array<Ptr>, i: nat, a: array<byte>, ghost n: nat, ghost path: seq<nat>)
    requires a.Length == n * width && i == |path| && OnPath(ar, a, width, path)
    requires path != [] && Falling(path) && InRange(path, n)
    modifies a, ar
    ensures View(a, width, n) == Rotated(old(View(a, width, n)), path)
  {
    PathApart(path, width, n);
    Cycle.Cycle(width, ar, i, a, Offsets(path, width));
    CycledIsRotated(old(a[..]), a[..], path, width, n);
  }

  // ----- sift -----

  // At the tree of order k with its root at h, x is no smaller than both children.
  predicate Stays(cmp: Comparator<Element>, e: seq<Element>, h: nat, k: nat, x: Element)
    requires Fits(|e|, h, k)
  {
    k >= 2 ==> cmp(x, e[Left(h, k)]) >= 0 && cmp(x, e[Right(h)]) >= 0
  }

  // The child that is the greater one, the left one if they are equal.
  predicate GreaterChild(cmp: Comparator<Element>, e: seq<Element>, h: nat, k: nat, c: nat, kc: nat)
    requires Fits(|e|, h, k) && k >= 2
  {
    (c, kc) == if cmp(e[Left(h, k)], e[Right(h)]) >= 0 then (Left(h, k), k - 1) else (Right(h), k - 2)
  }

  // One step down from the end of the walk so far: the code stops ...
  lemma SiftStops(cmp: Comparator<Element>, e: seq<Element>, path: seq<nat>, k: nat, x: Element)
    requires path != [] && Falling(path) && InRange(path, |e|)
    requires Fits(|e|, path[|path| - 1], k) && Stays(cmp, e, path[|path| - 1], k, x) && x == e[path[0]]
    ensures SiftDown(cmp, Shifted(e, path), path[|path| - 1], k, x) == Rotated(e, path)
  {
    var h := path[|path| - 1];
    if k >= 2 {
      BelowPath(e, path, Left(h, k));
      BelowPath(e, path, Right(h));
    }
  }

  // ... or goes to the child c, of order kc.
  lemma SiftGoes(cmp: Comparator<Element>, e: seq<Element>, path: seq<nat>, k: nat, x: Element, c: nat, kc: nat)
    requires path != [] && Falling(path) && InRange(path, |e|)
    requires k >= 2 && Fits(|e|, path[|path| - 1], k)
    requires !Stays(cmp, e, path[|path| - 1], k, x) && GreaterChild(cmp, e, path[|path| - 1], k, c, kc)
    ensures Falling(path + [c]) && InRange(path + [c], |e|) && Fits(|e|, c, kc) && kc < k
    ensures SiftDown(cmp, Shifted(e, path), path[|path| - 1], k, x) == SiftDown(cmp, Shifted(e, path + [c]), c, kc, x)
  {
    hide Falling, InRange, Shifted;
    var h := path[|path| - 1];
    BelowPath(e, path, Left(h, k));
    BelowPath(e, path, Right(h));
    ExtendPath(e, path, c);
  }

  lemma ExtendPath(e: seq<Element>, path: seq<nat>, c: nat)
    requires path != [] && Falling(path) && InRange(path, |e|) && c < path[|path| - 1]
    ensures Falling(path + [c]) && InRange(path + [c], |e|)
    ensures Shifted(e, path + [c]) == Shifted(e, path)[path[|path| - 1] := e[c]]
  {
    assert (path + [c])[..|path|] == path;
  }

  // The body of the loop of sift up to its decision.
  method Decide(a: array<byte>, top: nat, head: nat, width: nat, cmp: Comparator<Element>, pshift: nat, lp: array<Word>,
                ghost n: nat, ghost h: nat) returns (go: bool, child: nat, order: nat, ghost c: nat)
    requires a.Length == n * width && head == h * width && top + width <= a.Length
    requires pshift >= 2 && Fits(n, h, pshift) && Scaled(lp, width, pshift)
    ensures go <==> !Stays(cmp, View(a, width, n), h, pshift, At(a, top, width))
    ensures child == c * width && GreaterChild(cmp, View(a, width, n), h, pshift, c, order)
  {
    ChildOffsets(h, pshift, width);
    var rt := head - width;
    var lf := head - width - lp[pshift - 2];
    AtView(a, width, n, Left(h, pshift));
    AtView(a, width, n, Right(h));
    go := !(cmp(At(a, top, width), At(a, lf, width)) >= 0 && cmp(At(a, top, width), At(a, rt, width)) >= 0);
    if cmp(At(a, lf, width), At(a, rt, width)) >= 0 {
      child, order, c := lf, pshift - 1, Left(h, pshift);
    } else {
      child, order, c := rt, pshift - 2, Right(h);
    }
  }

  method Sift(a: array<byte>, head0: nat, width: nat, cmp: Comparator<Element>, pshift0: nat, lp: array<Word>,
              ghost n: nat, ghost h0: nat)
    requires a.Length == n * width && head0 == h0 * width && Fits(n, h0, pshift0)
    requires pshift0 <= 64 && Scaled(lp, width, pshift0)
    modifies a
    ensures View(a, width, n) == SiftDown(cmp, old(View(a, width, n)), h0, pshift0, old(View(a, width, n))[h0])
  {
    hide Falling, InRange, SiftDown, Shifted, View, At, Stays, GreaterChild, Rotated, OnPath;
    var ar := new Ptr[AR_SIZE](_ => Ptr(a, 0));
    var i: nat := 1;
    var head, pshift := head0, pshift0;
    Push(ar, 0, a, width, head, [], h0);
    assert [] + [h0] == [h0];
    ghost var e := View(a, width, n);
    ghost var path: seq<nat> := [h0];
    ghost var h := h0;
    AtView(a, width, n, h0);
    StartPath(e, h0);
    while pshift > 1
      invariant View(a, width, n) == e && At(a, head0, width) == e[h0]
      invariant i == |path| >= 1 && i + pshift <= pshift0 + 1 && OnPath(ar, a, width, path) && path[0] == h0
      invariant ar[0] == Ptr(a, head0)
      invariant h == path[|path| - 1] && head == h * width && Fits(n, h, pshift)
      invariant Falling(path) && InRange(path, n)
      invariant SiftDown(cmp, e, h0, pshift0, e[h0]) == SiftDown(cmp, Shifted(e, path), h, pshift, e[h0])
    {
      var go, child, order, c := Decide(a, ar[0].off, head, width, cmp, pshift, lp, n, h);
      if !go {
        break;
      }
      SiftGoes(cmp, e, path, pshift, e[h0], c, order);
      Push(ar, i, a, width, child, path, c);
      i := i + 1;
      head := child;
      pshift := order;
      path, h := path + [c], c;
    }
    if pshift <= 1 {
      SiftLeaf(cmp, e, h, pshift, e[h0]);
    }
    SiftStops(cmp, e, path, pshift, e[h0]);
    Rotate(width, ar, i, a, n, path);
  }

  lemma SiftLeaf(cmp: Comparator<Element>, e: seq<Element>, h: nat, k: nat, x: Element)
    requires k <= 1 && Fits(|e|, h, k)
    ensures Stays(cmp, e, h, k, x)
  {
  }

  lemma StartPath<T>(e: seq<T>, h: nat)
    requires h < |e|
    ensures Falling([h]) && InRange([h], |e|) && Shifted(e, [h]) == e
  {
  }

  lemma ChildOffsets(h: nat, k: nat, width: nat)
    requires k >= 2 && L(k) <= h + 1
    ensures Left(h, k) >= 0 && Right(h) >= 0
    ensures Right(h) * width == h * width - width >= 0
    ensures Left(h, k) * width == h * width - width - L(k - 2) * width >= 0
  {
    Scale(1, h, width);
    Scale(1 + L(k - 2), h, width);
    Scale(1, 1 + L(k - 2), width);
  }

  // ----- the bit vector -----

  // p and pshift encode the orders ts.
  ghost predicate Encodes(p: array<Word>, pshift: nat, ts: seq<nat>)
    reads p
  {
    p.Length == 2 && ts != [] && ts[0] == pshift && FB.Rising(ts, pshift) && Val(p[0], p[1]) == FB.Bits(ts, pshift)
  }

  // Whether more than one tree is left.
  lemma EncodesMore(p: array<Word>, pshift: nat, ts: seq<nat>)
    requires Encodes(p, pshift, ts)
    ensures p.Length == 2 && ts[0] == pshift && (p[0] != 1 || p[1] != 0 <==> |ts| > 1)
  {
    FB.NextTree(ts, pshift);
    FB.LowWord(p[0], p[1]);
  }

  // trail = pntz(p); shr(p, trail); pshift += trail: on to the next tree.
  method Advance(p: array<Word>, pshift: nat, ghost ts: seq<nat>, ghost h: int, ghost m: nat) returns (pshift': nat)
    requires Encodes(p, pshift, ts) && Forest(ts, h, m) && |ts| > 1
    modifies p
    ensures Encodes(p, pshift', ts[1..])
  {
    ForestGap(ts, h, m);
    FB.NextTree(ts, pshift);
    FB.LowWord(p[0], p[1]);
    PntzIsNtz(p[0], p[1]);
    var trail := Pntz(p[0], p[1]);
    NextBits(ts, pshift, trail);
    Shr(p, trail);
    pshift' := pshift + trail;
  }

  lemma ForestGap(ts: seq<nat>, h: int, m: nat)
    requires Forest(ts, h, m) && |ts| > 1
    ensures ts[0] < ts[1] == ts[1..][0] && ts[1] - ts[0] < 64
  {
    assert FB.AtMost(ts[1..], 64) && FB.Rising(ts[1..], ts[0] + 1);
  }

  lemma NextBits(ts: seq<nat>, k: nat, g: nat)
    requires |ts| > 1 && ts[0] == k && FB.Rising(ts, k) && ts[1..][0] == k + g && g > 0
    ensures FB.Rising(ts[1..], k + g) && FB.Bits(ts, k) / Pow2(g) == FB.Bits(ts[1..], k + g)
  {
    var us := ts[1..];
    Tighten(us, k + 1, k + g);
    FB.Split(ts, k);
    FB.Lower(us, k, g);
    assert Pow2(g) >= 2;
    DivUnique(FB.Bits(ts, k), Pow2(g), FB.Bits(us, k + g), 1);
  }

  // ----- trinkle -----

  // A forest whose orders have their entries in lp and their bits in two words.
  predicate Forest(ts: seq<nat>, h: int, m: nat) {
    Shape(ts, h) && FB.AtMost(ts, 64) && FB.AtMost(ts, m)
  }

  lemma ForestFacts(ts: seq<nat>, h: int, m: nat)
    requires Forest(ts, h, m)
    ensures ts != [] && Tiles(ts, h) && 0 < |ts| <= 65 && ts[0] <= 64 && ts[0] <= m && L(ts[0]) <= h + 1
  {
    CountBounded(ts, ts[0], 64);
  }

  lemma ForestTail(ts: seq<nat>, h: int, m: nat)
    requires Forest(ts, h, m) && |ts| > 1
    ensures Forest(ts[1..], h - L(ts[0]), m) && 0 <= h - L(ts[0]) < h
  {
    var us := ts[1..];
    Tighten(us, ts[0] + 1, us[0]);
  }

  // The walk to the left along the roots: the code stops ...
  lemma WalkStops(cmp: Comparator<Element>, e: seq<Element>, path: seq<nat>, ts: seq<nat>, x: Element, trusty: bool)
    requires path != [] && Falling(path) && InRange(path, |e|) && x == e[path[0]]
    requires ts != [] && Tiles(ts, path[|path| - 1])
    requires |ts| == 1 || Stops(cmp, e, ts, path[|path| - 1], x, trusty)
    ensures var h := path[|path| - 1];
      && Rotated(e, path)[h] == x
      && Trinkled(cmp, Shifted(e, path), ts, h, x, trusty)
         == if trusty then Rotated(e, path) else SiftDown(cmp, Rotated(e, path), h, ts[0], x)
  {
    var h := path[|path| - 1];
    if |ts| > 1 {
      WalkSame(cmp, e, path, ts, x, trusty);
    }
    HoleValue(cmp, Shifted(e, path), h, ts[0], x);
  }

  // ... or goes on to the next root.
  lemma WalkGoes(cmp: Comparator<Element>, e: seq<Element>, path: seq<nat>, ts: seq<nat>, x: Element, trusty: bool)
    requires path != [] && Falling(path) && InRange(path, |e|)
    requires |ts| > 1 && Tiles(ts, path[|path| - 1]) && !Stops(cmp, e, ts, path[|path| - 1], x, trusty)
    ensures var h := path[|path| - 1]; var s: nat := h - L(ts[0]);
      && Falling(path + [s]) && InRange(path + [s], |e|)
      && Trinkled(cmp, Shifted(e, path), ts, h, x, trusty)
         == Trinkled(cmp, Shifted(e, path + [s]), ts[1..], s, x, false)
  {
    hide Falling, InRange, Shifted;
    var h := path[|path| - 1];
    var s: nat := h - L(ts[0]);
    WalkSame(cmp, e, path, ts, x, trusty);
    BelowPath(e, path, s);
    ExtendPath(e, path, s);
  }

  lemma WalkSame(cmp: Comparator<Element>, e: seq<Element>, path: seq<nat>, ts: seq<nat>, x: Element, trusty: bool)
    requires path != [] && Falling(path) && InRange(path, |e|)
    requires |ts| > 1 && Tiles(ts, path[|path| - 1])
    ensures var h := path[|path| - 1]; Stops(cmp, Shifted(e, path), ts, h, x, trusty) == Stops(cmp, e, ts, h, x, trusty)
  {
    hide Shifted, Falling, InRange;
    var h := path[|path| - 1];
    BelowPath(e, path, h - L(ts[0]));
    if ts[0] > 1 {
      BelowPath(e, path, Left(h, ts[0]));
      BelowPath(e, path, Right(h));
    }
  }

  // What is in the hole does not matter.
  lemma HoleValue(cmp: Comparator<Element>, e: seq<Element>, h: nat, k: nat, x: Element)
    requires Fits(|e|, h, k)
    ensures SiftDown(cmp, e[h := x], h, k, x) == SiftDown(cmp, e, h, k, x)
  {
    if k >= 2 {
      assert e[h := x][h := e[Left(h, k)]] == e[h := e[Left(h, k)]];
      assert e[h := x][h := e[Right(h)]] == e[h := e[Right(h)]];
    }
  }

  // The body of the loop of trinkle up to its decision.
  method DecideStep(a: array<byte>, top: nat, head: nat, width: nat, cmp: Comparator<Element>, pshift: nat,
                    trusty: bool, lp: array<Word>, ghost n: nat, ghost h: nat, ghost ts: seq<nat>)
    returns (stop: bool, stepson: nat)
    requires a.Length == n * width && head == h * width && h < n && top + width <= a.Length
    requires |ts| > 1 && Tiles(ts, h) && ts[0] == pshift && Scaled(lp, width, pshift)
    ensures stop == Stops(cmp, View(a, width, n), ts, h, At(a, top, width), trusty)
    ensures stepson == (h - L(ts[0])) * width
  {
    ghost var s: nat := h - L(ts[0]);
    Scale(L(pshift), h, width);
    stepson := head - lp[pshift];
    AtView(a, width, n, s);
    stop := false;
    if cmp(At(a, stepson, width), At(a, top, width)) <= 0 {
      stop := true;
    } else if !trusty && pshift > 1 {
      ChildOffsets(h, pshift, width);
      var rt := head - width;
      var lf := head - width - lp[pshift - 2];
      AtView(a, width, n, Left(h, pshift));
      AtView(a, width, n, Right(h));
      stop := cmp(At(a, rt, width), At(a, stepson, width)) >= 0 || cmp(At(a, lf, width), At(a, stepson, width)) >= 0;
    }
  }

  // The loop of trinkle: walk left along the roots.
  method Walk(a: array<byte>, ar: array<Ptr>, p: array<Word>, head0: nat, width: nat, cmp: Comparator<Element>,
              pshift0: nat, trusty0: bool, lp: array<Word>, ghost n: nat, ghost h0: nat, ghost ts0: seq<nat>,
              ghost m: nat)
    returns (head: nat, pshift: nat, trusty: bool, i: nat, ghost path: seq<nat>, ghost h: nat, ghost ts: seq<nat>)
    requires a.Length == n * width && head0 == h0 * width && h0 < n
    requires Forest(ts0, h0, m) && Tiles(ts0, h0) && Encodes(p, pshift0, ts0) && Scaled(lp, width, m) && p != lp
    requires ar.Length == AR_SIZE && ar[0] == Ptr(a, head0) && OnPath(ar, a, width, [h0])
    modifies ar, p
    ensures 0 < i == |path| && OnPath(ar, a, width, path) && Falling(path) && InRange(path, n)
    ensures h == path[|path| - 1] && h < n && head == h * width && (trusty ==> path == [h0])
    ensures Forest(ts, h, m) && ts != [] && ts[0] == pshift && Tiles(ts, h)
    ensures var e := View(a, width, n);
      && Rotated(e, path)[h] == e[h0]
      && Trinkled(cmp, e, ts0, h0, e[h0], trusty0)
         == if trusty then Rotated(e, path) else SiftDown(cmp, Rotated(e, path), h, ts[0], e[h0])
  {
    hide L, Falling, InRange, SiftDown, Shifted, View, At, Stops, Rotated, Trinkled;
    hide Forest, Shape, Tiles, Encodes, OnPath, Scaled;
    i, head, pshift, trusty := 1, head0, pshift0, trusty0;
    path, h, ts := [h0], h0, ts0;
    ghost var e := View(a, width, n);
    AtView(a, width, n, h0);
    StartPath(e, h0);
    ForestFacts(ts, h, m);
    EncodesMore(p, pshift, ts);
    while p[0] != 1 || p[1] != 0
      invariant View(a, width, n) == e && At(a, head0, width) == e[h0] && Encodes(p, pshift, ts)
      invariant p.Length == 2 && ts != [] && ts[0] == pshift && (p[0] != 1 || p[1] != 0 <==> |ts| > 1)
      invariant i == |path| >= 1 && i + |ts| == 1 + |ts0| && OnPath(ar, a, width, path)
      invariant path[0] == h0 && ar[0] == Ptr(a, head0)
      invariant h == path[|path| - 1] && h < n && head == h * width && Forest(ts, h, m) && Tiles(ts, h)
      invariant Falling(path) && InRange(path, n) && (trusty ==> path == [h0])
      invariant Trinkled(cmp, e, ts0, h0, e[h0], trusty0) == Trinkled(cmp, Shifted(e, path), ts, h, e[h0], trusty)
      decreases |ts|
    {
      ForestFacts(ts, h, m);
      ScaledDown(lp, width, m, pshift);
      var stop, stepson := DecideStep(a, ar[0].off, head, width, cmp, pshift, trusty, lp, n, h, ts);
      if stop {
        break;
      }
      WalkGoes(cmp, e, path, ts, e[h0], trusty);
      ForestTail(ts, h, m);
      ghost var s: nat := h - L(ts[0]);
      Push(ar, i, a, width, stepson, path, s);
      i := i + 1;
      head := stepson;
      pshift := Advance(p, pshift, ts, h, m);
      trusty := false;
      path, ts, h := path + [s], ts[1..], s;
      ForestFacts(ts, h, m);
      EncodesMore(p, pshift, ts);
    }
    WalkStops(cmp, e, path, ts, e[h0], trusty);
  }

  method Trinkle(a: array<byte>, head0: nat, width: nat, cmp: Comparator<Element>, pp: array<Word>, pshift0: nat,
                 trusty0: bool, lp: array<Word>, ghost n: nat, ghost h0: nat, ghost ts0: seq<nat>, ghost m: nat)
    requires a.Length == n * width && head0 == h0 * width && h0 < n
    requires Forest(ts0, h0, m) && Encodes(pp, pshift0, ts0) && Scaled(lp, width, m)
    modifies a
    ensures View(a, width, n) == Trinkled(cmp, old(View(a, width, n)), ts0, h0, old(View(a, width, n))[h0], trusty0)
  {
    hide Falling, InRange, SiftDown, View, At, Rotated, Trinkled, Forest, Shape, Tiles, OnPath;
    var p := new Word[2](_ => 0);
    var ar := new Ptr[AR_SIZE](_ => Ptr(a, 0));
    p[0] := pp[0];
    p[1] := pp[1];
    ForestFacts(ts0, h0, m);
    Push(ar, 0, a, width, head0, [], h0);
    assert [] + [h0] == [h0];
    ghost var path, h, ts;
    var head, pshift, trusty, i;
    head, pshift, trusty, i, path, h, ts := Walk(a, ar, p, head0, width, cmp, pshift0, trusty0, lp, n, h0, ts0, m);
    ForestFacts(ts, h, m);
    if !trusty {
      Rotate(width, ar, i, a, n, path);
      Sift(a, head, width, cmp, pshift, lp, n, h);
    } else {
      TrustedStays(View(a, width, n), h0);
    }
  }

  lemma TrustedStays(e: seq<Element>, h: nat)
    requires h < |e|
    ensures Rotated(e, [h]) == e
  {
  }

  // ----- the bit operations of the two main loops -----

  // shl, when the orders stay small enough for nothing to be lost.
  method ShlExact(p: array<Word>, g: nat, ghost ts: seq<nat>, ghost k: nat)
    requires p.Length == 2 && 0 < g < 64 && FB.Rising(ts, k + g) && FB.AtMost(ts, 64)
    requires Val(p[0], p[1]) == FB.Bits(ts, k + g)
    modifies p
    ensures FB.Rising(ts, k) && Val(p[0], p[1]) == FB.Bits(ts, k)
  {
    FB.Lower(ts, k, g);
    FB.FitsPair(ts, k);
    ModSmall(FB.Bits(ts, k), W * W);
    Shl(p, g);
  }

  lemma ModSmall(a: nat, d: nat)
    requires a < d
    ensures a % d == a
  {
  }

  // p[0] |= 1 adds a tree at the shift.
  method AddTree(p: array<Word>, ghost us: seq<nat>, ghost k: nat)
    requires p.Length == 2 && FB.Rising(us, k + 1)
    requires FB.Rising(us, k) && Val(p[0], p[1]) == FB.Bits(us, k)
    modifies p
    ensures Encodes(p, k, [k] + us)
  {
    FB.Cons(k, us);
    FB.Double(us, k);
    FB.LowWord(p[0], p[1]);
    FB.OrLowBit(p[0]);
    p[0] := BitOr(p[0], 1);
  }

  lemma MergeBits(ts: seq<nat>, h: int)
    requires Shape(ts, h) && AdjacentPair(ts)
    ensures var us := ts[2..];
      FB.Rising(us, ts[0] + 3) && FB.Rising(us, ts[0] + 2) && FB.Bits(ts, ts[0]) / Pow2(2) == FB.Bits(us, ts[0] + 2)
  {
    var k, us, vs := ts[0], ts[1..], ts[2..];
    assert us[0] == k + 1 && us[1..] == vs;
    assert FB.Rising(us, k + 1) && FB.Rising(vs, k + 2);
    if vs != [] {
      assert vs[0] == us[1] >= k + 3;
    }
    Tighten(vs, k + 2, k + 3);
    FB.Split(ts, k);
    FB.Split(us, k + 1);
    assert Pow2(2) == 4;
    DivUnique(FB.Bits(ts, k), 4, FB.Bits(vs, k + 2), 3);
  }

  // shl(p, 2); p[0] ^= 7; shr(p, 1): the root of the smallest tree goes, its
  // left subtree takes its place.
  method ExposeLeft(p: array<Word>, pshift: nat, ghost us: seq<nat>)
    requires pshift >= 2 && FB.Rising(us, pshift + 1) && FB.AtMost([pshift] + us, 64)
    requires Encodes(p, pshift, [pshift] + us)
    modifies p
    ensures Encodes(p, pshift - 1, [pshift - 1] + us)
  {
    FB.RootBits(us, pshift);
    ShlExact(p, 2, [pshift] + us, pshift - 2);
    FB.LowWord(p[0], p[1]);
    p[0] := Xor7(p[0]);
    assert Pow2(1) == 2;
    Shr(p, 1);
    FB.Cons(pshift - 1, us) by { Tighten(us, pshift + 1, pshift); }
  }

  // The operator ^ 7 on a word.
  function Xor7(lo: Word): Word {
    lo - lo % 8 + (7 - lo % 8)
  }

  // shl(p, 1); p[0] |= 1: the right subtree joins the forest.
  method ExposeRight(p: array<Word>, pshift: nat, ghost vs: seq<nat>)
    requires FB.AtMost(vs, 64) && Encodes(p, pshift + 1, vs)
    modifies p
    ensures Encodes(p, pshift, [pshift] + vs)
  {
    ShlExact(p, 1, vs, pshift);
    AddTree(p, vs, pshift);
  }

  // ----- the main loops -----

  lemma ShapeForest(ts: seq<nat>, h: int, n: nat, m: nat)
    requires Shape(ts, h) && h < n <= MAX_ELEMENTS && n <= L(m) && m >= 2
    ensures Forest(ts, h, m)
  {
    hide L;
    MaxElements();
    OrdersBounded(ts, h, 64);
    StrictlyMonotone(m, m + 1);
    OrdersBounded(ts, h, m);
  }

  // The test of the first loop, scaled down by the width.
  lemma ScaledTest(k: nat, h: nat, n: nat, width: nat)
    requires k >= 1 && h < n && width > 0
    ensures L(k - 1) * width >= (n - 1) * width - h * width <==> NeverMerged(k, h, n)
  {
    hide L;
    Scale(h, n - 1, width);
    if L(k - 1) >= n - 1 - h {
      Scale(n - 1 - h, L(k - 1), width);
    } else {
      Scale(L(k - 1), n - 1 - h, width);
      Scale(L(k - 1) + 1, n - 1 - h, width);
    }
  }

  // What the first loop does to the elements before the next one is taken in.
  function GrowStep(cmp: Comparator<Element>, e: seq<Element>, ts: seq<nat>, h: nat, n: nat): seq<Element>
    requires Shape(ts, h) && h < |e|
  {
    if !AdjacentPair(ts) && NeverMerged(ts[0], h, n) then Trinkled(cmp, e, ts, h, e[h], false)
    else SiftDown(cmp, e, h, ts[0], e[h])
  }

  lemma GrowStepPermutes(cmp: Comparator<Element>, e: seq<Element>, ts: seq<nat>, h: nat, n: nat)
    requires Shape(ts, h) && h < |e|
    ensures |GrowStep(cmp, e, ts, h, n)| == |e| && multiset(GrowStep(cmp, e, ts, h, n)) == multiset(e)
  {
    TrinkledPermutes(cmp, e, ts, h, e[h], false);
    SiftDownPermutes(cmp, e, h, ts[0], e[h]);
    assert e[h := e[h]] == e;
  }

  lemma GrowStepBuilds(cmp: Comparator<Element>, e: seq<Element>, ts: seq<nat>, h: nat, n: nat)
    requires TotalPreorder(cmp) && Shape(ts, h) && h + 1 < |e| == n && Building(cmp, e, ts, h, n)
    ensures |GrowStep(cmp, e, ts, h, n)| == n && Shape(Grown(ts), h + 1)
    ensures Building(cmp, GrowStep(cmp, e, ts, h, n), Grown(ts), h + 1, n)
  {
    if AdjacentPair(ts) {
      BuildMerge(cmp, e, ts, h, n);
    } else {
      if NeverMerged(ts[0], h, n) {
        BuildTrinkle(cmp, e, ts, h, n);
        AscendIsFinalAscend(cmp, GrowStep(cmp, e, ts, h, n), ts, h, n);
      } else {
        BuildSift(cmp, e, ts, h, n);
      }
      BuildAppend(cmp, GrowStep(cmp, e, ts, h, n), ts, h, n);
    }
  }

  // An order on the elements at hand makes it the same step.
  lemma GrowStepOn(cmp: Comparator<Element>, s: set<Element>, e: seq<Element>, ts: seq<nat>, h: nat, n: nat)
    requires Shape(ts, h) && h < |e| && Within(e, s)
    ensures GrowStep(Extended(cmp, s), e, ts, h, n) == GrowStep(cmp, e, ts, h, n)
  {
    hide Extended, Trinkled, SiftDown;
    TrinkledOn(cmp, s, e, ts, h, e[h], false);
    SiftDownOn(cmp, s, e, h, ts[0], e[h]);
  }

  // The body of the first loop but for the last statement, head += width.
  method Grow(a: array<byte>, head: nat, high: nat, width: nat, cmp: Comparator<Element>, p: array<Word>, pshift: nat,
              lp: array<Word>, ghost n: nat, ghost h: nat, ghost ts: seq<nat>, ghost m: nat) returns (pshift': nat)
    requires width > 0 && a.Length == n * width && head == h * width && high == (n - 1) * width && h + 1 < n
    requires Shape(ts, h) && Forest(ts, h, m) && Encodes(p, pshift, ts) && Scaled(lp, width, m) && p != lp
    modifies a, p
    ensures View(a, width, n) == GrowStep(cmp, old(View(a, width, n)), ts, h, n)
    ensures Encodes(p, pshift', Grown(ts))
  {
    hide SiftDown, Trinkled, View, Tiles, FB.Bits;
    ForestFacts(ts, h, m);
    FB.Adjacent(ts, pshift);
    FB.LowWord(p[0], p[1]);
    if p[0] % 4 == 3 {
      Sift(a, head, width, cmp, pshift, lp, n, h);
      MergeBits(ts, h);
      Shr(p, 2);
      pshift' := pshift + 2;
      AddTree(p, ts[2..], pshift');
    } else {
      ScaledTest(pshift, h, n, width);
      if lp[pshift - 1] >= high - head {
        Trinkle(a, head, width, cmp, p, pshift, false, lp, n, h, ts, m);
      } else {
        Sift(a, head, width, cmp, pshift, lp, n, h);
      }
      if pshift == 1 {
        ShlExact(p, 1, ts, 0);
        pshift' := 0;
      } else {
        ShlExact(p, pshift - 1, ts, 1);
        pshift' := 1;
      }
      AddTree(p, ts, pshift');
    }
  }

  // What the second loop does to the elements after the last one is taken off.
  function ShrinkStep(cmp: Comparator<Element>, e: seq<Element>, ts: seq<nat>, h: nat): seq<Element>
    requires Shape(ts, h) && h < |e|
  {
    if ts[0] <= 1 then e
    else
      var k := ts[0];
      var vs := [k - 1] + ts[1..];
      SplitTiles(ts[1..], h, k);
      assert [k - 2] + vs == [k - 2, k - 1] + ts[1..];
      var r := Trinkled(cmp, e, vs, Left(h, k), e[Left(h, k)], true);
      Trinkled(cmp, r, [k - 2] + vs, h - 1, r[h - 1], true)
  }

  lemma ShrinkStepPermutes(cmp: Comparator<Element>, e: seq<Element>, ts: seq<nat>, h: nat)
    requires Shape(ts, h) && 0 < h < |e|
    ensures var r := ShrinkStep(cmp, e, ts, h); SameOn(e, r, h, |e|) && multiset(r) == multiset(e)
  {
    hide Trinkled, L;
    if ts[0] >= 2 {
      var k := ts[0];
      var vs, lf := [k - 1] + ts[1..], Left(h, k);
      SplitTiles(ts[1..], h, k);
      assert [k - 2] + vs == [k - 2, k - 1] + ts[1..];
      var r := Trinkled(cmp, e, vs, lf, e[lf], true);
      TrinkledPermutes(cmp, e, vs, lf, e[lf], true);
      TrinkledFrame(cmp, e, vs, lf, e[lf], true);
      TrinkledPermutes(cmp, r, [k - 2] + vs, h - 1, r[h - 1], true);
      TrinkledFrame(cmp, r, [k - 2] + vs, h - 1, r[h - 1], true);
      assert e[lf := e[lf]] == e && r[h - 1 := r[h - 1]] == r;
    }
  }

  lemma ShrinkStepOrders(cmp: Comparator<Element>, e: seq<Element>, ts: seq<nat>, h: nat)
    requires TotalPreorder(cmp) && Shape(ts, h) && 0 < h < |e| && Ordered(cmp, e, ts, h)
    ensures Shape(Shrunk(ts), h - 1) && |ShrinkStep(cmp, e, ts, h)| == |e|
    ensures Ordered(cmp, ShrinkStep(cmp, e, ts, h), Shrunk(ts), h - 1)
  {
    ShrunkShape(ts, h);
    if ts[0] >= 2 {
      SplitOrders(cmp, e, ts, h);
    }
  }

  // The forests of the two calls of trinkle in the second loop.
  lemma SplitFacts(ts: seq<nat>, h: nat)
    requires Shape(ts, h) && 0 < h && ts[0] >= 2
    ensures ts != []
    ensures
      var k := ts[0];
      var vs := [k - 1] + ts[1..];
      && 0 <= Left(h, k) < h && L(k - 2) <= h && Tiles(vs, Left(h, k)) && vs != []
      && [k - 2] + vs == Shrunk(ts) && Tiles([k - 2] + vs, h - 1)
  {
    hide L;
    var k := ts[0];
    SplitTiles(ts[1..], h, k);
    Unfold(k);
    assert [k - 2] + ([k - 1] + ts[1..]) == [k - 2, k - 1] + ts[1..];
  }

  lemma SplitOrders(cmp: Comparator<Element>, e: seq<Element>, ts: seq<nat>, h: nat)
    requires TotalPreorder(cmp) && Shape(ts, h) && 0 < h < |e| && Ordered(cmp, e, ts, h) && ts[0] >= 2
    requires Shape(Shrunk(ts), h - 1)
    ensures |ShrinkStep(cmp, e, ts, h)| == |e|
    ensures Ordered(cmp, ShrinkStep(cmp, e, ts, h), Shrunk(ts), h - 1)
  {
    hide Ordered, TotalPreorder, Trinkled, Trinkleable, Heap, SameOn, L, Shape, Tiles, Shrunk;
    SplitFacts(ts, h);
    var k := ts[0];
    var vs, lf := [k - 1] + ts[1..], Left(h, k);
    SplitLeft(cmp, e, ts, h);
    TrinkledOrdered(cmp, e, vs, lf, e[lf], true);
    TrinkledFrame(cmp, e, vs, lf, e[lf], true);
    var r := Trinkled(cmp, e, vs, lf, e[lf], true);
    SplitRight(cmp, e, r, vs, h, k);
    TrinkledOrdered(cmp, r, [k - 2] + vs, h - 1, r[h - 1], true);
  }

  lemma ShrinkStepOn(cmp: Comparator<Element>, s: set<Element>, e: seq<Element>, ts: seq<nat>, h: nat)
    requires Shape(ts, h) && 0 < h < |e| && Within(e, s)
    ensures ShrinkStep(Extended(cmp, s), e, ts, h) == ShrinkStep(cmp, e, ts, h)
  {
    hide Extended, Trinkled;
    if ts[0] >= 2 {
      var k := ts[0];
      var vs, lf := [k - 1] + ts[1..], Left(h, k);
      SplitTiles(ts[1..], h, k);
      assert [k - 2] + vs == [k - 2, k - 1] + ts[1..];
      var r := Trinkled(cmp, e, vs, lf, e[lf], true);
      TrinkledOn(cmp, s, e, vs, lf, e[lf], true);
      TrinkledPermutes(cmp, e, vs, lf, e[lf], true);
      assert e[lf := e[lf]] == e;
      WithinPermuted(e, r, s);
      TrinkledOn(cmp, s, r, [k - 2] + vs, h - 1, r[h - 1], true);
    }
  }

  lemma ShrinkForest(ts: seq<nat>, h: int, m: nat)
    requires Shape(ts, h) && Forest(ts, h, m) && ts[0] >= 2
    ensures var k := ts[0]; var vs := [k - 1] + ts[1..];
      && FB.Rising(ts[1..], k + 1) && ts == [k] + ts[1..]
      && Forest(vs, Left(h, k), m) && Forest([k - 2] + vs, h - 1, m)
  {
    var k, us := ts[0], ts[1..];
    var vs := [k - 1] + us;
    SplitShape(ts, h);
    SplitTiles(us, h, k);
    assert [k - 2] + vs == Shrunk(ts);
    assert Shrunk(ts)[1..] == vs && vs[1..] == us;
  }

  // The body of the second loop but for the last statement, head -= width.
  method Shrink(a: array<byte>, head: nat, width: nat, cmp: Comparator<Element>, p: array<Word>, pshift: nat,
                lp: array<Word>, ghost n: nat, ghost h: nat, ghost ts: seq<nat>, ghost m: nat) returns (pshift': nat)
    requires a.Length == n * width && head == h * width && 0 < h < n
    requires Shape(ts, h) && Forest(ts, h, m) && Encodes(p, pshift, ts) && Scaled(lp, width, m) && p != lp
    modifies a, p
    ensures View(a, width, n) == ShrinkStep(cmp, old(View(a, width, n)), ts, h)
    ensures Encodes(p, pshift', Shrunk(ts))
  {
    hide Trinkled, View, Tiles, FB.Bits, FB.Rising, L;
    ForestFacts(ts, h, m);
    if pshift <= 1 {
      PoppedShape(ts, h);
      pshift' := Advance(p, pshift, ts, h, m);
    } else {
      ghost var us := ts[1..];
      ghost var vs := [pshift - 1] + us;
      ShrinkForest(ts, h, m);
      ExposeLeft(p, pshift, us);
      pshift' := pshift - 2;
      ChildOffsets(h, pshift, width);
      Trinkle(a, head - lp[pshift'] - width, width, cmp, p, pshift' + 1, true, lp, n, Left(h, pshift), vs, m);
      ExposeRight(p, pshift', vs);
      Trinkle(a, head - width, width, cmp, p, pshift', true, lp, n, h - 1, [pshift'] + vs, m);
      assert [pshift - 2] + vs == [pshift - 2, pshift - 1] + us;
    }
  }

  // ----- qsort -----

  // lp[0], lp[1], ... up to the first entry that is not less than size.
  method FillLeonardo(lp: array<Word>, nel: nat, width: nat, size: nat) returns (ghost m: nat)
    requires lp.Length == LP_SIZE && size == nel * width && 0 < width && 0 < nel <= MAX_ELEMENTS && 3 * size < W
    modifies lp
    ensures 2 <= m <= 65 && Scaled(lp, width, m) && nel <= L(m)
  {
    hide L;
    Unfold(0);
    Unfold(1);
    Unfold(2);
    Scale(1, nel, width);
    lp[0], lp[1] := width, width;
    var i: nat := 2;
    lp[i] := lp[i - 2] + lp[i - 1] + width;
    while lp[i] < size
      invariant 2 <= i <= 65 && forall j :: 0 <= j <= i ==> lp[j] == L(j) * width
      invariant lp[i - 1] <= size
      decreases 65 - i
    {
      NotLast(i, nel, width);
      i := i + 1;
      NextEntry(i, width);
      lp[i] := lp[i - 2] + lp[i - 1] + width;
    }
    m := i;
    NotLast(m, nel, width);
  }

  // An entry that is less than the size of the array is that of a number of
  // elements smaller than nel, so it cannot be the 65th.
  lemma NotLast(i: nat, nel: nat, width: nat)
    requires nel <= MAX_ELEMENTS && i <= 65 && width > 0
    ensures L(i) * width < nel * width ==> i < 65
    ensures L(i) * width >= nel * width ==> nel <= L(i)
  {
    hide L;
    if i == 65 {
      MaxElements();
      Scale(nel, L(i), width);
    }
    if nel > L(i) {
      Scale(L(i) + 1, nel, width);
      Scale(L(i), L(i) + 1, width);
    }
  }

  lemma NextEntry(i: nat, width: nat)
    requires i >= 2
    ensures L(i) * width == L(i - 2) * width + L(i - 1) * width + width
    ensures L(i - 2) * width <= L(i - 1) * width
  {
    hide L;
    Unfold(i);
    Monotone(i - 2, i - 1);
    Scale(L(i - 2), L(i - 1), width);
    Scale(L(i - 2), L(i), width);
    Scale(L(i - 1), L(i - 1) + 1, width);
  }

  // The first loop: every element is taken into the forest.
  method BuildLoop(a: array<byte>, high: nat, width: nat, cmp: Comparator<Element>, p: array<Word>, lp: array<Word>,
                   ghost n: nat, ghost m: nat, ghost s: set<Element>)
    returns (head: nat, pshift: nat, ghost ts: seq<nat>)
    requires 0 < n <= MAX_ELEMENTS && width > 0 && a.Length == n * width && high == (n - 1) * width
    requires p.Length == 2 && p[0] == 1 && p[1] == 0 && p != lp && Scaled(lp, width, m) && 2 <= m && n <= L(m)
    requires Within(View(a, width, n), s)
    modifies a, p
    ensures head == high && Shape(ts, n - 1) && ShapeOpen(ts, n - 1) && Encodes(p, pshift, ts)
    ensures multiset(View(a, width, n)) == multiset(old(View(a, width, n)))
    ensures PreorderOn(cmp, s) ==> Building(Extended(cmp, s), View(a, width, n), ts, n - 1, n)
  {
    hide L, View, Tiles, Shape, Forest, Building, Encodes, Grown, GrowStep, PreorderOn, Extended, TotalPreorder;
    hide Scaled, Within;
    head, pshift := 0, 1;
    ghost var e0 := View(a, width, n);
    ghost var h: nat := 0;
    ts := [1];
    FirstTree(Extended(cmp, s), e0, p, n);
    while head < high
      invariant h < n && head == h * width && Shape(ts, h) && ShapeOpen(ts, h) && Encodes(p, pshift, ts)
      invariant Scaled(lp, width, m)
      invariant multiset(View(a, width, n)) == multiset(e0)
      invariant PreorderOn(cmp, s) ==> Building(Extended(cmp, s), View(a, width, n), ts, h, n)
      decreases n - h
    {
      ghost var e := View(a, width, n);
      HeadBelow(h, n - 1, width);
      ShapeForest(ts, h, n, m);
      pshift := Grow(a, head, high, width, cmp, p, pshift, lp, n, h, ts, m);
      GrowStepPermutes(cmp, e, ts, h, n);
      GrownShape(ts, h);
      if PreorderOn(cmp, s) {
        WithinPermuted(e0, e, s);
        GrowStepOn(cmp, s, e, ts, h, n);
        ExtendedTotal(cmp, s);
        GrowStepBuilds(Extended(cmp, s), e, ts, h, n);
      }
      head := head + width;
      ts, h := Grown(ts), h + 1;
      ShapeOpens(ts, h);
    }
    HeadAtEnd(h, n, width);
  }

  // The second loop: the elements leave the forest, greatest first.
  method SortLoop(a: array<byte>, head0: nat, width: nat, cmp: Comparator<Element>, p: array<Word>, pshift0: nat,
                  lp: array<Word>, ghost n: nat, ghost ts0: seq<nat>, ghost m: nat, ghost s: set<Element>)
    requires 0 < n <= MAX_ELEMENTS && a.Length == n * width && head0 == (n - 1) * width
    requires Shape(ts0, n - 1) && ShapeOpen(ts0, n - 1) && Encodes(p, pshift0, ts0)
    requires p != lp && Scaled(lp, width, m) && 2 <= m && n <= L(m)
    requires Within(View(a, width, n), s)
    requires PreorderOn(cmp, s) ==> Ordered(Extended(cmp, s), View(a, width, n), ts0, n - 1)
    modifies a, p
    ensures multiset(View(a, width, n)) == multiset(old(View(a, width, n)))
    ensures PreorderOn(cmp, s) ==> SortedFrom(Extended(cmp, s), View(a, width, n), 1)
  {
    hide L, View, Tiles, Shape, Forest, Ordered, Encodes, Shrunk, ShrinkStep, TotalPreorder, SortedFrom, SameOn, Scaled;
    hide PreorderOn, Extended, Within;
    var head, pshift := head0, pshift0;
    ghost var e0 := View(a, width, n);
    ghost var h: nat, ts := n - 1, ts0;
    NothingSorted(Extended(cmp, s), e0);
    LastIs(p, pshift, ts, h);
    while pshift != 1 || p[0] != 1 || p[1] != 0
      invariant h < n && head == h * width && Shape(ts, h) && ShapeOpen(ts, h) && Encodes(p, pshift, ts)
      invariant Scaled(lp, width, m)
      invariant p.Length == 2 && (pshift != 1 || p[0] != 1 || p[1] != 0 <==> h > 0)
      invariant multiset(View(a, width, n)) == multiset(e0)
      invariant PreorderOn(cmp, s) ==> Ordered(Extended(cmp, s), View(a, width, n), ts, h)
      invariant PreorderOn(cmp, s) ==> SortedFrom(Extended(cmp, s), View(a, width, n), h + 1)
      decreases h
    {
      ghost var e := View(a, width, n);
      ShapeForest(ts, h, n, m);
      pshift := Shrink(a, head, width, cmp, p, pshift, lp, n, h, ts, m);
      ShrinkStepPermutes(cmp, e, ts, h);
      ShrunkShape(ts, h);
      if PreorderOn(cmp, s) {
        ghost var ext := Extended(cmp, s);
        WithinPermuted(e0, e, s);
        ShrinkStepOn(cmp, s, e, ts, h);
        ExtendedTotal(cmp, s);
        TakeOff(ext, e, ts, h);
        StaysSorted(ext, e, View(a, width, n), h);
        ShrinkStepOrders(ext, e, ts, h);
      }
      Scale(h - 1, h, width);
      head := head - width;
      ts, h := Shrunk(ts), h - 1;
      ShapeOpens(ts, h);
      LastIs(p, pshift, ts, h);
    }
  }

  // The array ends ascending and a permutation of what it was, for every width
  // and every total preorder on the elements in the array; whatever the comparison function, it terminates,
  // stays within its buffers and only permutes elements.
  method Qsort(a: array<byte>, nel: nat, width: nat, cmp: Comparator<Element>)
    requires a.Length == nel * width && 3 * (nel * width) < W && nel <= MAX_ELEMENTS
    modifies a
    ensures width > 0 ==> multiset(View(a, width, nel)) == multiset(old(View(a, width, nel)))
    ensures width > 0 && old(PreorderOn(cmp, Range(View(a, width, nel)))) ==>
      forall i, j :: 0 <= i < j < nel ==> cmp(View(a, width, nel)[i], View(a, width, nel)[j]) <= 0
  {
    hide L, View, Tiles, Shape, Forest, Building, Ordered, Encodes, Trinkled, TotalPreorder;
    hide PreorderOn, Extended, SortedFrom;
    var size := width * nel;
    if size == 0 {
      return;
    }
    var lp := new Word[LP_SIZE](_ => 0);
    var p := new Word[2](_ => 0);
    p[0], p[1] := 1, 0;
    var high := size - width;
    Scale(1, nel, width);
    ghost var m := FillLeonardo(lp, nel, width, size);
    ghost var ts;
    var head, pshift;
    ghost var e0 := View(a, width, nel);
    ghost var s := Range(e0);
    head, pshift, ts := BuildLoop(a, high, width, cmp, p, lp, nel, m, s);
    ghost var h, e := nel - 1, View(a, width, nel);
    WithinPermuted(e0, e, s);
    ShapeForest(ts, h, nel, m);
    TrinkledPermutes(cmp, e, ts, h, e[h], false);
    assert e[h := e[h]] == e;
    Trinkle(a, head, width, cmp, p, pshift, false, lp, nel, h, ts, m);
    ghost var r := View(a, width, nel);
    WithinPermuted(e, r, s);
    if PreorderOn(cmp, s) {
      ExtendedTotal(cmp, s);
      BuildDone(Extended(cmp, s), e, ts, nel);
      TrinkledOn(cmp, s, e, ts, h, e[h], false);
    }
    SortLoop(a, head, width, cmp, p, pshift, lp, nel, ts, m, s);
    if PreorderOn(cmp, s) {
      WithinPermuted(r, View(a, width, nel), s);
      SortedOn(cmp, s, View(a, width, nel));
    }
  }

  lemma SortedOn(cmp: Comparator<Element>, s: set<Element>, e: seq<Element>)
    requires Within(e, s) && SortedFrom(Extended(cmp, s), e, 1)
    ensures forall i, j :: 0 <= i < j < |e| ==> cmp(e[i], e[j]) <= 0
  {
    forall i, j | 0 <= i < j < |e| ensures cmp(e[i], e[j]) <= 0 {
      assert Extended(cmp, s)(e[i], e[j]) <= 0;
    }
  }

  predicate ShapeOpen(ts: seq<nat>, h: int) {
    ts != [] && Tiles(ts, h)
  }

  lemma ShapeOpens(ts: seq<nat>, h: int)
    requires Shape(ts, h)
    ensures ShapeOpen(ts, h)
  {
  }

  lemma FirstTree(cmp: Comparator<Element>, e: seq<Element>, p: array<Word>, n: nat)
    requires |e| == n > 0 && p.Length == 2 && p[0] == 1 && p[1] == 0
    ensures Shape([1], 0) && ShapeOpen([1], 0) && Encodes(p, 1, [1]) && Building(cmp, e, [1], 0, n)
  {
    assert [1][1..] == [];
  }

  lemma HeadBelow(h: nat, k: nat, width: nat)
    requires h * width < k * width
    ensures h < k
  {
    if h >= k {
      Scale(k, h, width);
    }
  }

  lemma HeadAtEnd(h: nat, n: nat, width: nat)
    requires h < n && width > 0 && h * width >= n * width - width
    ensures h == n - 1
  {
    if h < n - 1 {
      Scale(h, h + 2, width);
      Scale(h + 2, n, width);
    }
  }

  lemma NothingSorted(cmp: Comparator<Element>, e: seq<Element>)
    ensures SortedFrom(cmp, e, |e|)
  {
  }

  // The second loop ends when a single tree of order 1 is left.
  lemma LastIs(p: array<Word>, pshift: nat, ts: seq<nat>, h: nat)
    requires Shape(ts, h) && Encodes(p, pshift, ts)
    ensures p.Length == 2 && (pshift != 1 || p[0] != 1 || p[1] != 0 <==> h > 0)
  {
    EncodesMore(p, pshift, ts);
    LastTree(ts, h);
    if |ts| == 1 && pshift == 1 {
      assert ts == [1];
    }
  }
}
