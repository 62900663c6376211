// The bytes that qsort moves, seen as a sequence of elements of a given width.
module Elements {
  import opened Cycle
  import SiftTheory

  type Element = seq<byte>

  lemma InBounds(i: nat, n: nat, w: nat)
    requires i < n
    ensures 0 <= i * w && (i + 1) * w == i * w + w <= n * w
  {
    Scale(i + 1, n, w);
  }

  lemma Scale(i: nat, j: nat, w: nat)
    requires i <= j
    ensures i * w <= j * w && (j - i) * w == j * w - i * w
  {
  }

  function Elem(s: seq<byte>, w: nat, n: nat, i: nat): Element
    requires |s| == n * w && i < n
  {
    InBounds(i, n, w);
    s[i * w..i * w + w]
  }

  function Elems(s: seq<byte>, w: nat, n: nat): (r: seq<Element>)
    requires |s| == n * w
    ensures |r| == n && forall i :: 0 <= i < n ==> r[i] == Elem(s, w, n, i)
  {
    seq(n, i requires 0 <= i < n => Elem(s, w, n, i))
  }

  ghost predicate AtOffsets(offs: seq<nat>, path: seq<nat>, w: nat) {
    |offs| == |path| && forall i :: 0 <= i < |path| ==> offs[i] == path[i] * w
  }

  ghost function Offsets(path: seq<nat>, w: nat): (offs: seq<nat>)
    ensures AtOffsets(offs, path, w)
  {
    seq(|path|, i requires 0 <= i < |path| => path[i] * w)
  }

  // Elements at different positions are blocks that do not overlap.
  lemma PathApart(path: seq<nat>, w: nat, n: nat)
    requires SiftTheory.Falling(path) && SiftTheory.InRange(path, n)
    ensures Apart(Offsets(path, w), w) && Inside(Offsets(path, w), w, n * w)
  {
    var offs := Offsets(path, w);
    forall i | 0 <= i < |path| ensures offs[i] + w <= n * w {
      InBounds(path[i], n, w);
    }
    forall i, j | 0 <= i < j < |path| ensures offs[j] + w <= offs[i] {
      InBounds(path[j], path[i], w);
    }
  }

  // Cycling the bytes of the elements on a path rotates the elements.
  lemma CycledIsRotated(s: seq<byte>, r: seq<byte>, path: seq<nat>, w: nat, n: nat)
    requires path != [] && SiftTheory.Falling(path) && SiftTheory.InRange(path, n)
    requires |s| == |r| == n * w && Inside(Offsets(path, w), w, |s|)
    requires Cycled(s, r, Offsets(path, w), w)
    ensures Elems(r, w, n) == SiftTheory.Rotated(Elems(s, w, n), path)
  {
    forall j | 0 <= j < n
      ensures Elem(r, w, n, j) == SiftTheory.Rotated(Elems(s, w, n), path)[j]
    {
      SiftTheory.RotatedAt(Elems(s, w, n), path, j);
      if i :| 0 <= i < |path| && path[i] == j {
        MovedOnPath(s, r, path, w, n, i);
      } else {
        KeptOffPath(s, r, path, w, n, j);
      }
    }
  }

  lemma MovedOnPath(s: seq<byte>, r: seq<byte>, path: seq<nat>, w: nat, n: nat, i: nat)
    requires SiftTheory.InRange(path, n) && i < |path|
    requires |s| == |r| == n * w && Inside(Offsets(path, w), w, |s|)
    requires Cycled(s, r, Offsets(path, w), w)
    ensures Elem(r, w, n, path[i]) == Elem(s, w, n, path[if i + 1 < |path| then i + 1 else 0])
  {
    var offs, next := Offsets(path, w), Next(i, |path|);
    assert offs[i] == path[i] * w && offs[next] == path[next] * w;
  }

  lemma KeptOffPath(s: seq<byte>, r: seq<byte>, path: seq<nat>, w: nat, n: nat, j: nat)
    requires SiftTheory.InRange(path, n) && j < n
    requires forall i :: 0 <= i < |path| ==> path[i] != j
    requires |s| == |r| == n * w && Inside(Offsets(path, w), w, |s|)
    requires Cycled(s, r, Offsets(path, w), w)
    ensures Elem(r, w, n, j) == Elem(s, w, n, j)
  {
    InBounds(j, n, w);
    var offs := Offsets(path, w);
    forall b | j * w <= b < j * w + w ensures r[b] == s[b] {
      forall i | 0 <= i < |offs| ensures b < offs[i] || offs[i] + w <= b {
        if path[i] < j {
          InBounds(path[i], j, w);
        } else {
          InBounds(j, path[i], w);
        }
      }
      assert Outside(offs, w, b);
    }
  }
}
