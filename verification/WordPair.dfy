// The 128-bit number that qsort.c keeps in the two words p[0] (low) and p[1]:
// its shifts and its trailing-zero count.
module WordPair {
  import opened Arithmetic
  import opened MachineWord

  function Pow2(n: nat): (r: nat)
    ensures r >= 1
  {
    if n == 0 then 1 else 2 * Pow2(n - 1)
  }

  function Val(lo: Word, hi: Word): nat {
    lo + hi * W
  }

  // The result of bsf.  For zero it leaves the operand, which pntz relies on.
  function Ntz(n: nat): nat {
    if n == 0 || n % 2 == 1 then 0 else 1 + Ntz(n / 2)
  }

  function BitOr(a: nat, b: nat): nat {
    if a == 0 && b == 0 then 0
    else (if a % 2 == 1 || b % 2 == 1 then 1 else 0) + 2 * BitOr(a / 2, b / 2)
  }

  // The C operators << and >> on size_t.
  function ShiftLeft(x: Word, n: nat): Word {
    x * Pow2(n) % W
  }

  function ShiftRight(x: Word, n: nat): Word {
    Mono(1, Pow2(n), x);
    DivSmall(x, Pow2(n));
    x / Pow2(n)
  }

  function Pntz(lo: Word, hi: Word): nat {
    var r := Ntz((lo + W - 1) % W);
    if r != 0 then r
    else if 64 + Ntz(hi) != 64 then 64 + Ntz(hi)
    else 0
  }

  // ----- arithmetic -----

  lemma {:induction false} Pow2Add(m: nat, n: nat)
    ensures Pow2(m + n) == Pow2(m) * Pow2(n)
  {
    if m == 0 {
    } else {
      Pow2Add(m - 1, n);
      assert Pow2(m + n) == 2 * Pow2(m - 1 + n);
      assert 2 * (Pow2(m - 1) * Pow2(n)) == (2 * Pow2(m - 1)) * Pow2(n);
    }
  }

  lemma Pow2Of8()
    ensures Pow2(8) == 256
  {
  }

  lemma WIsPow2()
    ensures W == Pow2(64)
  {
    hide Pow2;
    Pow2Of8();
    Pow2Add(8, 8);
    Pow2Add(16, 16);
    Pow2Add(32, 32);
  }

  // A word split at a shift distance.
  lemma SplitW(n: nat)
    requires n <= 64
    ensures W == Pow2(n) * Pow2(64 - n)
  {
    WIsPow2();
    Pow2Add(n, 64 - n);
  }

  // Truncating a left shift keeps the low part: (x * m) mod (m * k) == m * (x mod k).
  lemma ShiftMod(x: nat, m: nat, k: nat)
    requires m > 0 && k > 0
    ensures m * k > 0 && (x * m) % (m * k) == m * (x % k) && (x * m) / (m * k) == x / k
  {
    var q, r := x / k, x % k;
    assert x == q * k + r;
    assert x * m == q * (m * k) + m * r;
    assert 0 <= m * r < m * k;
    DivUnique(x * m, m * k, q, m * r);
  }

  lemma ShiftLeftDigit(x: Word, n: nat)
    requires n <= 64
    ensures ShiftLeft(x, n) == Pow2(n) * (x % Pow2(64 - n)) == (x % Pow2(64 - n)) * Pow2(n)
  {
    SplitW(n);
    var m, k := Pow2(n), Pow2(64 - n);
    ShiftMod(x, m, k);
    assert (x * m) % (m * k) == m * (x % k);
  }

  lemma {:induction false} OrDisjoint(a: nat, b: nat, n: nat)
    requires b < Pow2(n)
    ensures BitOr(a * Pow2(n), b) == a * Pow2(n) + b
    ensures BitOr(b, a * Pow2(n)) == b + a * Pow2(n)
    decreases n
  {
    if n == 0 {
      OrZero(a);
    } else {
      var h := a * Pow2(n - 1);
      assert a * Pow2(n) == 2 * h;
      OrDisjoint(a, b / 2, n - 1);
      assert 2 * h / 2 == h && 2 * h % 2 == 0;
      assert b == 2 * (b / 2) + b % 2;
    }
  }

  lemma {:induction false} OrZero(a: nat)
    ensures BitOr(a, 0) == a && BitOr(0, a) == a
  {
    if a == 0 {
    } else {
      OrZero(a / 2);
    }
  }

  lemma {:induction false} NtzShift(n: nat, g: nat)
    requires n > 0
    ensures Ntz(n * Pow2(g)) == Ntz(n) + g
    decreases g
  {
    if g == 0 {
    } else {
      NtzShift(n, g - 1);
      var m := n * Pow2(g - 1);
      Assoc(n, 2, Pow2(g - 1));
      Assoc(2, n, Pow2(g - 1));
      assert n * Pow2(g) == 2 * m;
      assert m > 0 && 2 * m / 2 == m && 2 * m % 2 == 0;
    }
  }

  lemma {:induction false} NtzLow(lo: nat, hi: nat, n: nat)
    requires 0 < lo < Pow2(n)
    ensures Ntz(lo + hi * Pow2(n)) == Ntz(lo) < n
    decreases n
  {
    var h := hi * Pow2(n - 1);
    assert hi * Pow2(n) == 2 * h;
    assert (lo + 2 * h) % 2 == lo % 2 && (lo + 2 * h) / 2 == lo / 2 + h;
    if lo % 2 == 1 {
    } else {
      NtzLow(lo / 2, hi, n - 1);
    }
  }

  lemma NtzNone(n: nat)
    ensures Ntz(n) == 0 <==> n == 0 || n % 2 == 1
  {
  }

  // pntz is the number of trailing zeros above the lowest bit of an odd number,
  // except when that number is exactly 64.
  lemma PntzIsNtz(lo: Word, hi: Word)
    requires lo % 2 == 1
    ensures Pntz(lo, hi) == Ntz(Val(lo, hi) - 1) <==> Ntz(Val(lo, hi) - 1) != 64
  {
    hide Ntz, Pow2;
    WIsPow2();
    assert (lo + W - 1) % W == lo - 1 by { DivUnique(lo + W - 1, W, 1, lo - 1); }
    NtzNone(lo - 1);
    if lo > 1 {
      NtzLow(lo - 1, hi, 64);
    } else if hi > 0 {
      NtzShift(hi, 64);
    }
  }

  // A gap of exactly 64 does arise, from an odd high word above a low word of 1,
  // and pntz then gives 0.
  lemma PntzGap64(hi: Word)
    requires hi % 2 == 1
    ensures Ntz(Val(1, hi) - 1) == 64 && Pntz(1, hi) == 0
  {
    WIsPow2();
    assert (1 + W - 1) % W == 0;
    NtzShift(hi, 64);
  }

  // ----- shl and shr -----

  method Shl(p: array<Word>, n0: nat)
    requires p.Length == 2 && 0 < n0 < 128 && n0 != 64
    modifies p
    ensures Val(p[0], p[1]) == Val(old(p[0]), old(p[1])) * Pow2(n0) % (W * W)
  {
    var n := n0;
    if n >= 64 {
      n := n - 64;
      ShlWhole(p[0], p[1], n0);
      p[1] := p[0];
      p[0] := 0;
    }
    ShlParts(p[0], p[1], n);
    p[1] := ShiftLeft(p[1], n);
    p[1] := BitOr(p[1], ShiftRight(p[0], 64 - n));
    p[0] := ShiftLeft(p[0], n);
  }

  method Shr(p: array<Word>, n0: nat)
    requires p.Length == 2 && 0 < n0 < 128 && n0 != 64
    modifies p
    ensures Val(p[0], p[1]) == Val(old(p[0]), old(p[1])) / Pow2(n0)
  {
    var n := n0;
    if n >= 64 {
      n := n - 64;
      ShrWhole(p[0], p[1], n0);
      p[0] := p[1];
      p[1] := 0;
    }
    ShrParts(p[0], p[1], n);
    p[0] := ShiftRight(p[0], n);
    p[0] := BitOr(p[0], ShiftLeft(p[1], 64 - n));
    p[1] := ShiftRight(p[1], n);
  }

  lemma ShlWhole(lo: Word, hi: Word, n: nat)
    requires n >= 64
    ensures Val(lo, hi) * Pow2(n) % (W * W) == Val(0, lo) * Pow2(n - 64) % (W * W)
  {
    WIsPow2();
    Pow2Add(64, n - 64);
    var m := Pow2(n - 64);
    var big := Val(lo, hi) * Pow2(n);
    assert big == lo * W * m + (hi * m) * (W * W) by {
      assert Pow2(n) == W * m;
      assert (lo + hi * W) * (W * m) == lo * W * m + (hi * m) * (W * W);
    }
    var small := lo * W * m;
    var q, r := small / (W * W), small % (W * W);
    DivUnique(big, W * W, q + hi * m, r) by {
      assert (q + hi * m) * (W * W) == q * (W * W) + (hi * m) * (W * W);
    }
  }

  lemma ShlParts(lo: Word, hi: Word, n: nat)
    requires 0 < n < 64
    ensures BitOr(ShiftLeft(hi, n), ShiftRight(lo, 64 - n)) < W
    ensures Val(ShiftLeft(lo, n), BitOr(ShiftLeft(hi, n), ShiftRight(lo, 64 - n))) == Val(lo, hi) * Pow2(n) % (W * W)
  {
    SplitW(n);
    var m, k := Pow2(n), Pow2(64 - n);
    ShlOr(lo, hi, n, m, k);
    ShiftLeftDigit(lo, n);
    ShlValue(lo, hi, m, k);
  }

  lemma ShlOr(lo: Word, hi: Word, n: nat, m: nat, k: nat)
    requires 0 < n < 64 && m == Pow2(n) && k == Pow2(64 - n)
    ensures BitOr(ShiftLeft(hi, n), ShiftRight(lo, 64 - n)) == m * (hi % k) + lo / k < W
  {
    SplitW(n);
    Quotient(lo, k, m);
    Digits(hi % k, lo / k, m, k);
    ShiftLeftDigit(hi, n);
    OrDisjoint(hi % k, lo / k, n);
  }

  // The high digit of a word, and a word put together from two digits.
  lemma Quotient(x: nat, k: nat, m: nat)
    requires k > 0 && x < m * k
    ensures x / k < m
  {
    assert x == k * (x / k) + x % k;
    if x / k >= m {
      Mono(m, x / k, k);
    }
  }

  lemma Digits(a: nat, b: nat, m: nat, k: nat)
    requires a < k && b < m
    ensures 0 <= m * a + b < m * k
  {
    Mono(a, k - 1, m);
    Distribute(k, -1, m);
    Mono(0, a, m);
  }

  lemma ShlValue(lo: nat, hi: nat, m: nat, k: nat)
    requires m > 0 && k > 0 && lo < W && hi < W && W == m * k
    ensures m * (lo % k) + (m * (hi % k) + lo / k) * W == (lo + hi * W) * m % (W * W)
  {
    var low, top, q := m * (lo % k), m * (hi % k) + lo / k, hi / k;
    calc {
      lo * m;
      { assert lo == k * (lo / k) + lo % k; Distribute(k * (lo / k), lo % k, m); Assoc(m, k, lo / k); }
      (lo / k) * W + low;
    }
    calc {
      hi * m;
      { assert hi == k * q + hi % k; Distribute(k * q, hi % k, m); Assoc(m, k, q); }
      q * W + m * (hi % k);
    }
    calc {
      (lo + hi * W) * m;
      { Distribute(lo, hi * W, m); Assoc(W, hi, m); }
      lo * m + W * (hi * m);
      { Distribute(q * W, m * (hi % k), W); Assoc(q, W, W); }
      (lo / k) * W + low + q * (W * W) + m * (hi % k) * W;
      { Distribute(m * (hi % k), lo / k, W); }
      q * (W * W) + (low + top * W);
    }
    Quotient(lo, k, m);
    Digits(hi % k, lo / k, m, k);
    Digits(lo % k, 0, m, k);
    Digits(top, low, W, W);
    DivUnique((lo + hi * W) * m, W * W, q, low + top * W);
  }

  lemma ShrWhole(lo: Word, hi: Word, n: nat)
    requires n >= 64
    ensures Val(lo, hi) / Pow2(n) == Val(hi, 0) / Pow2(n - 64)
  {
    WIsPow2();
    Pow2Add(64, n - 64);
    var m := Pow2(n - 64);
    var q, r := hi / m, hi % m;
    calc {
      hi * W;
      { assert hi == m * q + r; Distribute(m * q, r, W); Assoc(q, m, W); }
      q * (m * W) + r * W;
    }
    Digits(r, lo, W, m);
    DivUnique(Val(lo, hi), W * m, q, W * r + lo);
  }

  lemma ShrParts(lo: Word, hi: Word, n: nat)
    requires 0 < n < 64
    ensures BitOr(ShiftRight(lo, n), ShiftLeft(hi, 64 - n)) < W
    ensures Val(BitOr(ShiftRight(lo, n), ShiftLeft(hi, 64 - n)), ShiftRight(hi, n)) == Val(lo, hi) / Pow2(n)
  {
    SplitW(n);
    var m, k := Pow2(n), Pow2(64 - n);
    ShrOr(lo, hi, n, m, k);
    ShrValue(lo, hi, m, k);
  }

  lemma ShrOr(lo: Word, hi: Word, n: nat, m: nat, k: nat)
    requires 0 < n < 64 && m == Pow2(n) && k == Pow2(64 - n)
    ensures BitOr(ShiftRight(lo, n), ShiftLeft(hi, 64 - n)) == k * (hi % m) + lo / m < W
  {
    SplitW(n);
    Quotient(lo, m, k);
    Digits(hi % m, lo / m, k, m);
    ShiftLeftDigit(hi, 64 - n);
    OrDisjoint(hi % m, lo / m, 64 - n);
  }

  lemma ShrValue(lo: nat, hi: nat, m: nat, k: nat)
    requires m > 0 && k > 0 && lo < W && hi < W && W == m * k
    ensures (k * (hi % m) + lo / m) + (hi / m) * W == (lo + hi * W) / m
  {
    var q, r := hi / m, hi % m;
    var d := k * r + lo / m + q * W;
    calc {
      hi * W;
      { assert hi == m * q + r; Distribute(m * q, r, W); Assoc(m, q, W); Assoc(r, m, k); Assoc(m, r, k); }
      m * (q * W) + m * (k * r);
    }
    calc {
      lo + hi * W;
      { assert lo == m * (lo / m) + lo % m; }
      m * (lo / m) + m * (k * r) + m * (q * W) + lo % m;
      { Distribute(lo / m, k * r, m); Distribute(lo / m + k * r, q * W, m); }
      d * m + lo % m;
    }
    DivUnique(lo + hi * W, m, d, lo % m);
  }
}
