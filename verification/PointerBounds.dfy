// Machine words and the bounds object, in the configuration with a full-width
// base and size.
module PointerBounds {
  import opened MachineWord

  const HALF := 0x8000_0000_0000

  // Unsigned arithmetic, which wraps around.
  function Add(a: Word, b: Word): Word {
    if a + b < W then a + b else a + b - W
  }

  function Sub(a: Word, b: Word): Word {
    if a >= b then a - b else a - b + W
  }

  // In memory the base is the lower word. Size 0 marks invalid bounds.
  datatype Bounds = Bounds(base: Word, size: Word)

  predicate Invalid(b: Bounds) {
    b.size == 0
  }

  function MakeBounds(base: Word, limit: Word): Bounds {
    Bounds(base, Sub(limit, base))
  }

  function MaxBounds(): Bounds {
    MakeBounds(0, W - 1)
  }

  function MakeInvalid(p: Word): Bounds {
    Bounds(p, 0)
  }

  lemma WordArithmetic(a: Word, b: Word)
    ensures Add(a, b) == (a + b) % W && Sub(a, b) == (a - b) % W
  {
  }

  // The test of all checks, by unsigned subtraction, and the address one past the
  // end.
  predicate Inside(a: Word, b: Bounds) {
    Sub(a, b.base) < b.size
  }

  predicate AtLimit(a: Word, b: Bounds) {
    Sub(a, b.base) == b.size
  }

  // What the test means: a is one of the bytes from the base on, which may go round
  // the end of the address space.
  lemma InsideIs(a: Word, b: Bounds)
    ensures b.base + b.size <= W ==> (Inside(a, b) <==> b.base <= a < b.base + b.size)
    ensures b.base + b.size > W ==> (Inside(a, b) <==> b.base <= a || a < b.base + b.size - W)
    ensures AtLimit(a, b) <==> a == (b.base + b.size) % W
  {
    WordArithmetic(b.base, b.size);
  }

  // Bounds that a caller makes from an object in the user half, those that allow
  // everything but the last byte of all, and those that allow nothing.
  lemma BoundsMade(base: Word, limit: Word, p: Word, a: Word)
    ensures base <= limit ==> (Inside(a, MakeBounds(base, limit)) <==> base <= a < limit)
    ensures Inside(a, MaxBounds()) <==> a != W - 1
    ensures Invalid(MakeInvalid(p)) && !Inside(a, MakeInvalid(p))
    ensures forall b: Bounds :: Invalid(b) <==> forall c: Word :: !Inside(c, b)
  {
    forall b: Bounds ensures Invalid(b) <==> forall c: Word :: !Inside(c, b) {
      if !Invalid(b) {
        assert Inside(b.base, b);
      }
    }
  }

  // Addresses in the user half of the address space.
  predicate UserHalf(a: Word) {
    a < HALF
  }

  // Bounds of something that lies in the user half.
  predicate UserObject(b: Bounds) {
    b.size != 0 && b.base + b.size <= HALF
  }
}
