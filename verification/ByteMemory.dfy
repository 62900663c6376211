// Byte-addressed memory, in which multi-byte values are little-endian.
module ByteMemory {
  type Byte = b: int | 0 <= b < 256

  // Memory that has not been written reads as zero.
  datatype Memory = Memory(bytes: map<int, Byte>) {
    function At(a: int): Byte {
      if a in bytes then bytes[a] else 0
    }
  }

  // The number of values of n bytes.
  function Limit(n: nat): nat {
    if n == 0 then 1 else 256 * Limit(n - 1)
  }

  function Load(m: Memory, a: int, n: nat): (v: nat)
    ensures v < Limit(n)
    decreases n
  {
    if n == 0 then 0 else m.At(a) + 256 * Load(m, a + 1, n - 1)
  }

  function Store(m: Memory, a: int, n: nat, v: nat): Memory
    decreases n
  {
    if n == 0 then m else Store(Memory(m.bytes[a := v % 256]), a + 1, n - 1, v / 256)
  }

  // memmove: the destination gets what the source held before.
  function Move(m: Memory, dest: int, src: int, n: nat): Memory {
    Memory(map a | a in m.bytes.Keys + Span(dest, n) :: if dest <= a < dest + n then m.At(a - dest + src) else m.At(a))
  }

  function Span(a: int, n: nat): (s: set<int>)
    ensures forall i :: i in s <==> a <= i < a + n
  {
    if n == 0 then {} else Span(a, n - 1) + {a + n - 1}
  }

  lemma MoveAt(m: Memory, dest: int, src: int, n: nat, a: int)
    ensures Move(m, dest, src, n).At(a) == if dest <= a < dest + n then m.At(a - dest + src) else m.At(a)
  {
  }

  // Everything outside n bytes from a is the same.
  ghost predicate SameOutside(m: Memory, m': Memory, a: int, n: nat) {
    forall i | i < a || a + n <= i :: m'.At(i) == m.At(i)
  }

  lemma {:induction false} StoreSame(m: Memory, a: int, n: nat, v: nat)
    ensures SameOutside(m, Store(m, a, n, v), a, n)
    decreases n
  {
    if n == 0 {
    } else {
      StoreSame(Memory(m.bytes[a := v % 256]), a + 1, n - 1, v / 256);
    }
  }

  // What is stored can be loaded again.
  lemma {:induction false} LoadStore(m: Memory, a: int, n: nat, v: nat)
    requires v < Limit(n)
    ensures Load(Store(m, a, n, v), a, n) == v
    decreases n
  {
    if n == 0 {
    } else {
      var t := Memory(m.bytes[a := v % 256]);
      StoreSame(t, a + 1, n - 1, v / 256);
      LoadStore(t, a + 1, n - 1, v / 256);
    }
  }

  // The n bytes from a' in m' are those from a in m.
  ghost predicate Copied(m: Memory, a: int, m': Memory, a': int, n: nat) {
    forall i | a <= i < a + n :: m'.At(i - a + a') == m.At(i)
  }

  // A load depends only on the bytes it reads.
  lemma {:induction false} LoadCopied(m: Memory, a: int, m': Memory, a': int, n: nat)
    requires Copied(m, a, m', a', n)
    ensures Load(m', a', n) == Load(m, a, n)
    decreases n
  {
    if n == 0 {
    } else {
      assert m'.At(a - a + a') == m.At(a);
      LoadCopied(m, a + 1, m', a' + 1, n - 1);
    }
  }

  lemma LoadSame(m: Memory, m': Memory, a: int, n: nat, b: int, k: nat)
    requires SameOutside(m, m', a, n) && (b + k <= a || a + n <= b)
    ensures Load(m', b, k) == Load(m, b, k)
  {
    LoadCopied(m, b, m', b, k);
  }

  lemma LoadMoved(m: Memory, dest: int, src: int, n: nat, i: nat, k: nat)
    requires i + k <= n
    ensures Load(Move(m, dest, src, n), dest + i, k) == Load(m, src + i, k)
  {
    hide Move, Load, Memory.At;
    var m' := Move(m, dest, src, n);
    forall j | src + i <= j < src + i + k ensures m'.At(j - (src + i) + (dest + i)) == m.At(j) {
      MoveAt(m, dest, src, n, j - src + dest);
    }
    LoadCopied(m, src + i, m', dest + i, k);
  }

  lemma MoveSame(m: Memory, dest: int, src: int, n: nat)
    ensures SameOutside(m, Move(m, dest, src, n), dest, n)
  {
    forall i | i < dest || dest + n <= i ensures Move(m, dest, src, n).At(i) == m.At(i) {
      MoveAt(m, dest, src, n, i);
    }
  }
}
