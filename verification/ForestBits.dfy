// How the bit vector p and the shift pshift encode the tree orders of a forest:
// bit i of p is set exactly when there is a tree of order pshift + i.
module ForestBits {
  import opened Arithmetic
  import opened MachineWord
  import opened WordPair

  // Orders rise strictly from right to left and start at k or above.
  predicate Rising(ts: seq<nat>, k: nat) {
    ts == [] || (ts[0] >= k && Rising(ts[1..], ts[0] + 1))
  }

  predicate AtMost(ts: seq<nat>, top: nat) {
    ts == [] || (ts[0] <= top && AtMost(ts[1..], top))
  }

  function Bits(ts: seq<nat>, k: nat): (r: nat)
    requires Rising(ts, k)
    ensures ts != [] ==> r > 0
  {
    if ts == [] then 0
    else
      Weaken(ts[1..], ts[0] + 1, k);
      Pow2(ts[0] - k) + Bits(ts[1..], k)
  }

  lemma Weaken(ts: seq<nat>, k: nat, k': nat)
    requires Rising(ts, k) && k' <= k
    ensures Rising(ts, k')
  {
  }

  // Lowering the shift by g is multiplying by 2^g.
  lemma {:induction false} Lower(ts: seq<nat>, k: nat, g: nat)
    requires Rising(ts, k + g)
    ensures Rising(ts, k) && Bits(ts, k) == Bits(ts, k + g) * Pow2(g)
  {
    Weaken(ts, k + g, k);
    if ts == [] {
    } else {
      Weaken(ts[1..], ts[0] + 1, k + g);
      Lower(ts[1..], k, g);
      Pow2Add(ts[0] - k - g, g);
      Distribute(Pow2(ts[0] - k - g), Bits(ts[1..], k + g), Pow2(g));
    }
  }

  // Lowering the shift by one.
  lemma Double(ts: seq<nat>, k: nat)
    requires Rising(ts, k + 1)
    ensures Rising(ts, k) && Bits(ts, k) == 2 * Bits(ts, k + 1)
  {
    Lower(ts, k, 1);
    assert Pow2(1) == 2;
  }

  // With its smallest order at the shift, a forest has its lowest bit set.
  lemma Split(ts: seq<nat>, k: nat)
    requires ts != [] && ts[0] == k && Rising(ts, k)
    ensures Rising(ts[1..], k + 1) && Bits(ts, k) == 1 + 2 * Bits(ts[1..], k + 1)
  {
    Double(ts[1..], k);
  }

  // The number of trailing zeros leads to the smallest order.
  lemma Lowest(ts: seq<nat>, k: nat)
    requires ts != [] && Rising(ts, k)
    ensures Ntz(Bits(ts, k)) == ts[0] - k
  {
    hide Bits, Pow2, Ntz;
    var m := ts[0];
    Lower(ts, k, m - k);
    Split(ts, m);
    NtzOdd(Bits(ts, m), m - k);
  }

  lemma NtzOdd(n: nat, g: nat)
    requires n % 2 == 1
    ensures Ntz(n * Pow2(g)) == g
  {
    NtzShift(n, g);
  }

  // What the loops of qsort.c read off p: whether this is the last tree, and
  // how far it is to the next one.
  lemma NextTree(ts: seq<nat>, k: nat)
    requires ts != [] && ts[0] == k && Rising(ts, k)
    ensures Bits(ts, k) % 2 == 1
    ensures Bits(ts, k) == 1 <==> |ts| == 1
    ensures |ts| > 1 ==> Ntz(Bits(ts, k) - 1) == ts[1] - k
  {
    Split(ts, k);
    if |ts| > 1 {
      Double(ts[1..], k);
      Lowest(ts[1..], k);
    }
  }

  // What the first loop reads off p: whether the smallest trees are adjacent.
  lemma Adjacent(ts: seq<nat>, k: nat)
    requires ts != [] && ts[0] == k && Rising(ts, k)
    ensures Bits(ts, k) % 4 == 3 <==> |ts| > 1 && ts[1] == k + 1
  {
    hide Bits, Pow2;
    var us := ts[1..];
    Split(ts, k);
    if us == [] {
      NoBits(k + 1);
    } else if us[0] == k + 1 {
      Split(us, k + 1);
      DivUnique(Bits(ts, k), 4, Bits(us[1..], k + 2), 3);
    } else {
      Weaken(us, us[0], k + 2);
      Double(us, k + 1);
      DivUnique(Bits(ts, k), 4, Bits(us, k + 2), 1);
    }
  }

  lemma NoBits(k: nat)
    ensures Bits([], k) == 0
  {
  }

  lemma {:induction false} Bound(ts: seq<nat>, k: nat, top: nat)
    requires Rising(ts, k) && AtMost(ts, top)
    ensures k <= top + 1 ==> Bits(ts, k) < Pow2(top + 1 - k)
    ensures k > top ==> ts == []
    decreases |ts|
  {
    if ts == [] {
    } else {
      var us, m := ts[1..], ts[0];
      Bound(us, m + 1, top);
      Weaken(us, m + 1, k);
      Lower(us, k, m + 1 - k);
      var b := Bits(us, m + 1);
      assert b + 1 <= Pow2(top - m);
      Mono(b + 1, Pow2(top - m), Pow2(m + 1 - k));
      Pow2Add(top - m, m + 1 - k);
      Distribute(b, 1, Pow2(m + 1 - k));
      assert Pow2(m + 1 - k) == 2 * Pow2(m - k);
    }
  }

  // Numbers of forests with orders up to 64 fit the two words with room to spare.
  lemma FitsPair(ts: seq<nat>, k: nat)
    requires Rising(ts, k) && AtMost(ts, 64)
    ensures Bits(ts, k) < W * W
  {
    Bound(ts, k, 64);
    if k <= 65 {
      Pow2Add(65 - k, k);
      Mono(1, Pow2(k), Pow2(65 - k));
      assert Pow2(65 - k) <= Pow2(65);
      assert Pow2(65) == 2 * Pow2(64);
      WIsPow2();
    }
  }

  // |= 1 on a word whose lowest bit is clear.
  lemma OrLowBit(lo: Word)
    requires lo % 2 == 0
    ensures BitOr(lo, 1) == lo + 1 < W
  {
    OrDisjoint(lo / 2, 1, 1);
  }

  // A tree of order k put before larger ones.
  lemma Cons(k: nat, us: seq<nat>)
    requires Rising(us, k + 1)
    ensures Rising([k] + us, k) && Bits([k] + us, k) == 1 + Bits(us, k)
  {
    assert ([k] + us)[1..] == us;
    Weaken(us, k + 1, k);
    assert Pow2(0) == 1;
  }

  // The low word shows the low bits of the pair.
  lemma LowWord(lo: Word, hi: Word)
    ensures Val(lo, hi) % 2 == lo % 2 && Val(lo, hi) % 4 == lo % 4 && Val(lo, hi) % 8 == lo % 8
    ensures Val(lo, hi) == 1 <==> lo == 1 && hi == 0
  {
    var q := hi * 0x2000_0000_0000_0000;
    assert Val(lo, hi) == lo + 8 * q;
    LowMod(lo, q);
  }

  lemma LowMod(lo: nat, q: nat)
    ensures (lo + 8 * q) % 2 == lo % 2 && (lo + 8 * q) % 4 == lo % 4 && (lo + 8 * q) % 8 == lo % 8
  {
    DivUnique(lo + 8 * q, 2, lo / 2 + 4 * q, lo % 2);
    DivUnique(lo + 8 * q, 4, lo / 4 + 2 * q, lo % 4);
    DivUnique(lo + 8 * q, 8, lo / 8 + q, lo % 8);
  }

  // The bit pattern of a tree of order k whose root is taken off, after the
  // left shift by two: 100 below the larger trees.
  lemma RootBits(us: seq<nat>, k: nat)
    requires k >= 2 && Rising(us, k + 1)
    ensures Rising([k] + us, k) && Rising([k] + us, k - 2)
    ensures Bits([k] + us, k - 2) % 8 == 4
    ensures (Bits([k] + us, k - 2) - 1) / 2 == Bits([k - 1] + us, k - 1)
  {
    hide Bits, Rising;
    Cons(k, us);
    Double(us, k);
    Cons(k - 1, us);
    Double(us, k - 1);
    var ts, b := [k] + us, Bits(us, k + 1);
    assert Bits(ts, k) == 1 + 2 * b;
    Double(ts, k - 1);
    Double(ts, k - 2);
    assert Bits(ts, k - 2) == 4 + 8 * b;
    assert (4 + 8 * b) % 8 == 4 by { LowMod(4, b); }
  }
}
