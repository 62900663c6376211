// cycle of qsort.c: rotate n blocks of bytes by one place, through a buffer of
// 256 bytes and therefore in chunks.
module Cycle {

  newtype byte = x: int | 0 <= x < 256

  // A C pointer: an object and an offset into it.
  datatype Ptr = Ptr(obj: array<byte>, off: nat)

  const TMP_SIZE: nat := 256

  function Splice(s: seq<byte>, at: nat, chunk: seq<byte>): (r: seq<byte>)
    requires at + |chunk| <= |s|
    ensures |r| == |s|
  {
    s[..at] + chunk + s[at + |chunk|..]
  }

  method Memcpy(dst: Ptr, src: Ptr, l: nat)
    requires dst.off + l <= dst.obj.Length && src.off + l <= src.obj.Length
    requires dst.obj != src.obj || dst.off + l <= src.off || src.off + l <= dst.off
    modifies dst.obj
    ensures dst.obj[..] == Splice(old(dst.obj[..]), dst.off, old(src.obj[..])[src.off..src.off + l])
  {
    forall i | 0 <= i < l {
      dst.obj[dst.off + i] := src.obj[src.off + i];
    }
  }

  // ----- specification -----

  // Blocks of the given width at the given offsets do not overlap.
  ghost predicate Apart(offs: seq<nat>, width: nat) {
    forall i, j :: 0 <= i < |offs| && 0 <= j < |offs| && i != j ==>
      offs[i] + width <= offs[j] || offs[j] + width <= offs[i]
  }

  predicate Inside(offs: seq<nat>, width: nat, size: nat) {
    forall i :: 0 <= i < |offs| ==> offs[i] + width <= size
  }

  ghost predicate Outside(offs: seq<nat>, width: nat, j: int) {
    forall i :: 0 <= i < |offs| ==> j < offs[i] || offs[i] + width <= j
  }

  function Next(i: nat, n: nat): nat {
    if i + 1 < n then i + 1 else 0
  }

  // Block i has received its first m bytes from its successor.
  ghost predicate Moved(s: seq<byte>, r: seq<byte>, offs: seq<nat>, width: nat, i: nat, m: nat)
    requires Inside(offs, width, |s|) && |r| == |s| && i < |offs| && m <= width
  {
    var from := offs[Next(i, |offs|)];
    r[offs[i]..offs[i] + width] == s[from..from + m] + s[offs[i] + m..offs[i] + width]
  }

  // The first k blocks have received hi bytes, the others lo bytes, and nothing
  // outside the blocks has changed.
  ghost predicate Progress(s: seq<byte>, r: seq<byte>, offs: seq<nat>, width: nat, lo: nat, hi: nat, k: nat)
    requires Inside(offs, width, |s|) && lo <= hi <= width
  {
    && |r| == |s|
    && (forall i :: 0 <= i < |offs| && i < k ==> Moved(s, r, offs, width, i, hi))
    && (forall i :: k <= i < |offs| ==> Moved(s, r, offs, width, i, lo))
    && (forall j {:trigger Outside(offs, width, j)} :: 0 <= j < |s| && Outside(offs, width, j) ==> r[j] == s[j])
  }

  // The part lo..hi of block i.
  function Part(s: seq<byte>, offs: seq<nat>, width: nat, i: nat, lo: nat, hi: nat): seq<byte>
    requires Inside(offs, width, |s|) && i < |offs| && lo <= hi <= width
  {
    s[offs[i] + lo..offs[i] + hi]
  }

  // Block i now holds what block i+1 held, the last what block 0 held, and no
  // other byte has changed.
  ghost predicate Cycled(s: seq<byte>, r: seq<byte>, offs: seq<nat>, width: nat)
    requires Inside(offs, width, |s|)
  {
    && |r| == |s|
    && (forall i :: 0 <= i < |offs| ==>
          r[offs[i]..offs[i] + width] == s[offs[Next(i, |offs|)]..offs[Next(i, |offs|)] + width])
    && (forall j {:trigger Outside(offs, width, j)} :: 0 <= j < |s| && Outside(offs, width, j) ==> r[j] == s[j])
  }

  // ----- one chunk -----

  lemma SliceOfSlice<T>(s: seq<T>, a: nat, b: nat, lo: nat, hi: nat)
    requires a <= b <= |s| && lo <= hi <= b - a
    ensures s[a..b][lo..hi] == s[a + lo..a + hi]
  {
    forall i | 0 <= i < hi - lo ensures s[a..b][lo..hi][i] == s[a + lo..a + hi][i] {
      assert s[a..b][lo + i] == s[a + lo + i];
    }
  }

  // A block that has received lo bytes still has its own bytes from lo on.
  lemma Unread(s: seq<byte>, r: seq<byte>, offs: seq<nat>, width: nat, lo: nat, hi: nat, k: nat, i: nat)
    requires Inside(offs, width, |s|) && |r| == |s| && k <= i < |offs| && lo <= hi <= width
    requires Progress(s, r, offs, width, lo, hi, k)
    ensures Part(r, offs, width, i, lo, hi) == Part(s, offs, width, i, lo, hi)
  {
    assert Moved(s, r, offs, width, i, lo);
    var at, from := offs[i], offs[Next(i, |offs|)];
    var block, head, tail := r[at..at + width], s[from..from + lo], s[at + lo..at + width];
    assert block == head + tail;
    SliceOfSlice(r, at, at + width, lo, hi);
    assert (head + tail)[lo..hi] == tail[0..hi - lo];
    SliceOfSlice(s, at + lo, at + width, 0, hi - lo);
  }

  // r with the part lo..hi of block k replaced by that of its successor in s.
  ghost function Stepped(s: seq<byte>, r: seq<byte>, offs: seq<nat>, width: nat, lo: nat, hi: nat, k: nat): seq<byte>
    requires Inside(offs, width, |s|) && |r| == |s| && lo <= hi <= width && k < |offs|
  {
    Splice(r, offs[k] + lo, Part(s, offs, width, Next(k, |offs|), lo, hi))
  }

  lemma SpliceWithin(r: seq<byte>, at: nat, width: nat, lo: nat, chunk: seq<byte>)
    requires at + width <= |r| && lo + |chunk| <= width
    ensures var b := r[at..at + width];
      Splice(r, at + lo, chunk)[at..at + width] == b[..lo] + chunk + b[lo + |chunk|..]
  {
    var t, b, hi := Splice(r, at + lo, chunk), r[at..at + width], lo + |chunk|;
    forall i | 0 <= i < width ensures t[at..at + width][i] == (b[..lo] + chunk + b[hi..])[i] {
      assert t[at + i] == if lo <= i < hi then chunk[i - lo] else r[at + i];
    }
  }

  lemma StepSame(s: seq<byte>, r: seq<byte>, offs: seq<nat>, width: nat, lo: nat, hi: nat, k: nat)
    requires Inside(offs, width, |s|) && |r| == |s| && lo <= hi <= width && k < |offs|
    requires Moved(s, r, offs, width, k, lo)
    ensures Moved(s, Stepped(s, r, offs, width, lo, hi, k), offs, width, k, hi)
  {
    hide Splice;
    var at, from := offs[k], offs[Next(k, |offs|)];
    var chunk := s[from + lo..from + hi];
    var b, own := r[at..at + width], s[at + lo..at + width];
    SpliceWithin(r, at, width, lo, chunk);
    assert b == s[from..from + lo] + own;
    assert b[..lo] == s[from..from + lo];
    assert b[hi..] == own[hi - lo..];
    SliceOfSlice(s, at + lo, at + width, hi - lo, width - lo);
    assert s[from..from + lo] + chunk == s[from..from + hi];
  }

  lemma SpliceElsewhere(r: seq<byte>, at: nat, chunk: seq<byte>, lo: nat, hi: nat)
    requires at + |chunk| <= |r| && lo <= hi <= |r| && (hi <= at || at + |chunk| <= lo)
    ensures Splice(r, at, chunk)[lo..hi] == r[lo..hi]
  {
    var t := Splice(r, at, chunk);
    forall i | 0 <= i < hi - lo ensures t[lo..hi][i] == r[lo..hi][i] {
      assert t[lo + i] == r[lo + i];
    }
  }

  lemma StepOther(s: seq<byte>, r: seq<byte>, offs: seq<nat>, width: nat, lo: nat, hi: nat, k: nat, i: nat, m: nat)
    requires Inside(offs, width, |s|) && Apart(offs, width) && |r| == |s| && lo <= hi <= width && k < |offs|
    requires i < |offs| && i != k && m <= width && Moved(s, r, offs, width, i, m)
    ensures Moved(s, Stepped(s, r, offs, width, lo, hi, k), offs, width, i, m)
  {
    hide Splice;
    assert offs[i] + width <= offs[k] || offs[k] + width <= offs[i];
    SpliceElsewhere(r, offs[k] + lo, Part(s, offs, width, Next(k, |offs|), lo, hi), offs[i], offs[i] + width);
  }

  lemma StepOutside(s: seq<byte>, r: seq<byte>, offs: seq<nat>, width: nat, lo: nat, hi: nat, k: nat, j: nat)
    requires Inside(offs, width, |s|) && |r| == |s| && lo <= hi <= width && k < |offs|
    requires j < |s| && Outside(offs, width, j)
    ensures Stepped(s, r, offs, width, lo, hi, k)[j] == r[j]
  {
    assert j < offs[k] || offs[k] + width <= j;
  }

  // Writing the next chunk of block k.
  lemma Step(s: seq<byte>, r: seq<byte>, offs: seq<nat>, width: nat, lo: nat, hi: nat, k: nat)
    requires Inside(offs, width, |s|) && Apart(offs, width) && lo <= hi <= width && k < |offs|
    requires Progress(s, r, offs, width, lo, hi, k)
    ensures Progress(s, Stepped(s, r, offs, width, lo, hi, k), offs, width, lo, hi, k + 1)
  {
    var r' := Stepped(s, r, offs, width, lo, hi, k);
    StepSame(s, r, offs, width, lo, hi, k);
    forall i | 0 <= i < k ensures Moved(s, r', offs, width, i, hi) {
      StepOther(s, r, offs, width, lo, hi, k, i, hi);
    }
    forall i | k < i < |offs| ensures Moved(s, r', offs, width, i, lo) {
      StepOther(s, r, offs, width, lo, hi, k, i, lo);
    }
    forall j | 0 <= j < |s| && Outside(offs, width, j) ensures r'[j] == s[j] {
      StepOutside(s, r, offs, width, lo, hi, k, j);
    }
  }

  lemma NoneMoved(s: seq<byte>, offs: seq<nat>, width: nat)
    requires Inside(offs, width, |s|)
    ensures Progress(s, s, offs, width, 0, 0, 0)
  {
    forall i | 0 <= i < |offs| ensures Moved(s, s, offs, width, i, 0) {
      assert s[offs[Next(i, |offs|)]..offs[Next(i, |offs|)]] == [];
    }
  }

  lemma ChunkStart(s: seq<byte>, r: seq<byte>, offs: seq<nat>, width: nat, lo: nat, hi: nat)
    requires Inside(offs, width, |s|) && lo <= hi <= width
    requires Progress(s, r, offs, width, lo, lo, 0)
    ensures Progress(s, r, offs, width, lo, hi, 0)
  {
  }

  lemma ChunkDone(s: seq<byte>, r: seq<byte>, offs: seq<nat>, width: nat, lo: nat, hi: nat)
    requires Inside(offs, width, |s|) && lo <= hi <= width
    requires Progress(s, r, offs, width, lo, hi, |offs|)
    ensures Progress(s, r, offs, width, hi, hi, 0)
  {
  }

  lemma AllMoved(s: seq<byte>, r: seq<byte>, offs: seq<nat>, width: nat)
    requires Inside(offs, width, |s|)
    requires Progress(s, r, offs, width, width, width, 0)
    ensures Cycled(s, r, offs, width)
  {
    forall i | 0 <= i < |offs|
      ensures r[offs[i]..offs[i] + width] == s[offs[Next(i, |offs|)]..offs[Next(i, |offs|)] + width]
    {
      assert Moved(s, r, offs, width, i, width);
    }
  }

  // Fewer than two blocks are in their places.
  lemma OneBlock(s: seq<byte>, offs: seq<nat>, width: nat)
    requires Inside(offs, width, |s|) && |offs| < 2
    ensures Cycled(s, s, offs, width)
  {
  }

  // ----- the method -----

  // The memcpy before the inner loop: the buffer receives the part of block 0.
  method SaveFirst(dst: Ptr, src: Ptr, l: nat, ghost s: seq<byte>, ghost offs: seq<nat>, ghost width: nat,
                   ghost lo: nat)
    requires dst.off == 0 && l <= dst.obj.Length && dst.obj != src.obj
    requires Inside(offs, width, |s|) && lo + l <= width && offs != [] && |s| == src.obj.Length
    requires src.off == offs[0] + lo && Progress(s, src.obj[..], offs, width, lo, lo + l, 0)
    modifies dst.obj
    ensures dst.obj[..][0..l] == Part(s, offs, width, 0, lo, lo + l)
  {
    hide Progress;
    Unread(s, src.obj[..], offs, width, lo, lo + l, 0, 0);
    Memcpy(dst, src, l);
  }

  // One memcpy of the inner loop: block k receives its part from src.
  method MoveBlock(dst: Ptr, src: Ptr, l: nat, ghost s: seq<byte>, ghost offs: seq<nat>, ghost width: nat,
                   ghost lo: nat, ghost k: nat)
    requires dst.off + l <= dst.obj.Length && src.off + l <= src.obj.Length
    requires dst.obj != src.obj || dst.off + l <= src.off || src.off + l <= dst.off
    requires Inside(offs, width, |s|) && Apart(offs, width) && lo + l <= width && k < |offs|
    requires dst.off == offs[k] + lo && Progress(s, dst.obj[..], offs, width, lo, lo + l, k)
    requires src.obj[..][src.off..src.off + l] == Part(s, offs, width, Next(k, |offs|), lo, lo + l)
    modifies dst.obj
    ensures Progress(s, dst.obj[..], offs, width, lo, lo + l, k + 1)
  {
    Step(s, dst.obj[..], offs, width, lo, lo + l, k);
    Memcpy(dst, src, l);
  }

  // The n pointers are into a, at the same distance from the start of each block.
  ghost predicate PointsInto(ar: array<Ptr>, a: array<byte>, offs: seq<nat>, from: int, to: int, at: nat)
    requires 0 <= from <= to <= |offs| <= ar.Length
    reads ar
  {
    forall i :: from <= i < to ==> ar[i] == Ptr(a, offs[i] + at)
  }

  // The inner loop: one chunk of every block moves on, and so do the pointers.
  method RotateChunk(l: nat, ar: array<Ptr>, n: nat, ghost tmp: array<byte>, a: array<byte>,
                     ghost s: seq<byte>, ghost offs: seq<nat>, ghost width: nat, ghost lo: nat)
    requires n < ar.Length && |offs| == n && PointsInto(ar, a, offs, 0, n, lo)
    requires a.Length == |s| && lo + l <= width && Inside(offs, width, |s|) && Apart(offs, width)
    requires Progress(s, a[..], offs, width, lo, lo + l, 0)
    requires n > 0 && tmp != a && l <= tmp.Length && ar[n] == Ptr(tmp, 0)
    requires tmp[..][0..l] == Part(s, offs, width, 0, lo, lo + l)
    modifies a, ar
    ensures PointsInto(ar, a, offs, 0, n, lo + l) && ar[n] == old(ar[n])
    ensures Progress(s, a[..], offs, width, lo, lo + l, n)
  {
    hide Progress, Apart;
    for i := 0 to n
      invariant PointsInto(ar, a, offs, 0, i, lo + l) && PointsInto(ar, a, offs, i, n, lo)
      invariant ar[n] == Ptr(tmp, 0)
      invariant Progress(s, a[..], offs, width, lo, lo + l, i)
    {
      var dst, src := ar[i], ar[i + 1];
      assert dst == Ptr(a, offs[i] + lo);
      if i + 1 < n {
        assert src == Ptr(a, offs[i + 1] + lo);
        Unread(s, a[..], offs, width, lo, lo + l, i, i + 1);
        BlocksApart(offs, width, i, i + 1);
      } else {
        assert src == Ptr(tmp, 0);
      }
      MoveBlock(dst, src, l, s, offs, width, lo, i);
      ar[i] := Ptr(a, ar[i].off + l);
    }
  }

  method Cycle(width0: nat, ar: array<Ptr>, n: nat, a: array<byte>, ghost offs: seq<nat>)
    requires n < ar.Length && |offs| == n && PointsInto(ar, a, offs, 0, n, 0)
    requires Inside(offs, width0, a.Length) && Apart(offs, width0)
    modifies a, ar
    ensures Cycled(old(a[..]), a[..], offs, width0)
  {
    hide Progress, Apart, Cycled, Part;
    ghost var s := a[..];
    if n < 2 {
      OneBlock(s, offs, width0);
      return;
    }
    var tmp := new byte[TMP_SIZE];
    ar[n] := Ptr(tmp, 0);
    var width := width0;
    ghost var lo := 0;
    NoneMoved(s, offs, width);
    while width > 0
      invariant 0 <= width && lo + width == width0
      invariant PointsInto(ar, a, offs, 0, n, lo) && ar[n] == Ptr(tmp, 0)
      invariant Progress(s, a[..], offs, width0, lo, lo, 0)
    {
      var l := if TMP_SIZE < width then TMP_SIZE else width;
      ChunkStart(s, a[..], offs, width0, lo, lo + l);
      SaveFirst(ar[n], ar[0], l, s, offs, width0, lo);
      RotateChunk(l, ar, n, tmp, a, s, offs, width0, lo);
      ChunkDone(s, a[..], offs, width0, lo, lo + l);
      width := width - l;
      lo := lo + l;
    }
    AllMoved(s, a[..], offs, width0);
  }

  lemma BlocksApart(offs: seq<nat>, width: nat, i: nat, j: nat)
    requires Apart(offs, width) && i < |offs| && j < |offs| && i != j
    ensures offs[i] + width <= offs[j] || offs[j] + width <= offs[i]
  {
  }
}
