// Checked pointer arithmetic: trap tags, the primary, secondary and full checks
// of a derived pointer, and what chains of them leave in a pointer.
module Derive {
  import opened Arithmetic
  import opened MachineWord
  import opened PointerBounds
  import opened Wrappers

  // ----- tags -----

  type Tag = t: int | 0 <= t < 4

  const ONE_PAST: Tag := 1
  const INVALID: Tag := 3

  // Bit 49, the lower of the two tag bits.
  const TAG_UNIT := 0x2_0000_0000_0000

  // Exclusive or of two-bit numbers: of two different ones that are not 0 it is
  // the third.
  function Xor(s: Tag, t: Tag): Tag {
    if s == 0 then t else if t == 0 then s else if s == t then 0 else 6 - s - t
  }

  function TagOf(p: Word): Tag {
    p / TAG_UNIT % 4
  }

  // The tag is exclusive-ored into its two bits, so it toggles them.
  function Trap(p: Word, tag: Tag): Word {
    p + (Xor(TagOf(p), tag) - TagOf(p)) * TAG_UNIT
  }

  // Shifted left by 15 bits and back with the sign: bit 48 fills the bits above.
  function Detrap(p: Word): Word {
    var low := p % TAG_UNIT;
    if low < TAG_UNIT / 2 then low else low + (W - TAG_UNIT)
  }

  predicate IsTrap(p: Word) {
    Detrap(p) != p
  }

  // A user address with a tag.
  function Tagged(a: Word, tag: Tag): Word
    requires UserHalf(a)
  {
    a + tag * TAG_UNIT
  }

  // It is exclusive or, bit by bit.
  lemma XorBits(s: Tag, t: Tag)
    ensures Xor(s, t) % 2 == (s % 2 + t % 2) % 2 && Xor(s, t) / 2 == (s / 2 + t / 2) % 2
  {
    Bits(s);
    Bits(t);
    Bits(Xor(s, t));
  }

  lemma Bits(t: Tag)
    ensures t % 2 == (if t == 1 || t == 3 then 1 else 0) && t / 2 == if t >= 2 then 1 else 0
  {
  }

  // Trapping changes bits 49 and 50 and no others.
  lemma TrapBits(p: Word, tag: Tag)
    ensures var r := Trap(p, tag);
      && r % 0x2_0000_0000_0000 == p % 0x2_0000_0000_0000
      && r / 0x2_0000_0000_0000 % 4 == Xor(p / 0x2_0000_0000_0000 % 4, tag)
      && r / 0x8_0000_0000_0000 == p / 0x8_0000_0000_0000
  {
    hide Xor;
    var n, x := 0x2_0000_0000_0000, Xor(TagOf(p), tag);
    var q, low := p / n, p % n;
    DivUnique(Trap(p, tag), n, q - q % 4 + x, low);
    DivUnique(Trap(p, tag), 4 * n, q / 4, x * n + low);
    DivUnique(p, 4 * n, q / 4, q % 4 * n + low);
  }

  // Detrapping changes bits 49 and up, all of which become equal to bit 48.
  lemma DetrapBits(p: Word)
    ensures var r, n := Detrap(p), 0x2_0000_0000_0000;
      && r % n == p % n
      && r / n == if p / 0x1_0000_0000_0000 % 2 == 1 then W / n - 1 else 0
  {
  }

  // A one-past pointer has bit 49 set, an invalid one bits 49 and 50.
  lemma TaggedBits(a: Word)
    requires UserHalf(a)
    ensures Trap(a, ONE_PAST) == Tagged(a, ONE_PAST) == a + 0x2_0000_0000_0000
    ensures Trap(a, INVALID) == Tagged(a, INVALID) == a + 0x6_0000_0000_0000
  {
  }

  lemma DetrapTagged(a: Word, tag: Tag)
    requires UserHalf(a)
    ensures Detrap(Tagged(a, tag)) == a
    ensures IsTrap(Tagged(a, tag)) <==> tag != 0
  {
  }

  lemma TrapTagged(a: Word, s: Tag, t: Tag)
    requires UserHalf(a)
    ensures Trap(Tagged(a, s), t) == Tagged(a, Xor(s, t))
  {
    assert TagOf(Tagged(a, s)) == s;
  }

  // Pointer arithmetic does not disturb the tag.
  lemma AddTagged(a: Word, d: Word, tag: Tag)
    requires UserHalf(a) && UserHalf(Add(a, d))
    ensures Add(Tagged(a, tag), d) == Tagged(Add(a, d), tag)
  {
  }

  // A tagged pointer is outside every user object.
  lemma TaggedOutside(a: Word, tag: Tag, b: Bounds)
    requires UserHalf(a) && tag != 0 && UserObject(b)
    ensures Sub(Tagged(a, tag), b.base) > b.size
  {
  }

  // ----- the checks -----

  // A C variable whose address is passed.
  class Ref<T> {
    var value: T

    constructor (v: T)
      ensures value == v
    {
      value := v;
    }
  }

  // The return values 1 and 0, and a call of abort.
  datatype Outcome = Passed | Failed | Aborted

  datatype Derived = Derived(p: Word, b: Bounds, outcome: Outcome)

  // What the secondary check does to the derived pointer p and to the bounds b of
  // the pointer it comes from; fetched is what an out-of-line fetch would give.
  function Secondary(p: Word, from: Word, b: Bounds, fetched: Bounds, aborting: bool): Derived {
    var c := if Invalid(b) then fetched else b;
    if Inside(Detrap(p), c) then Derived(if IsTrap(from) then Detrap(p) else p, c, Passed)
    else if AtLimit(Detrap(p), c) then Derived(Trap(p, ONE_PAST), c, Passed)
    else if aborting then Derived(p, c, Aborted)
    else Derived(Trap(p, INVALID), c, Failed)
  }

  function Full(p: Word, from: Word, b: Bounds, fetched: Bounds, aborting: bool): Derived {
    if Inside(p, b) then Derived(p, b, Passed) else Secondary(p, from, b, fetched, aborting)
  }

  method PrimaryCheckDerivePtr(derived: Ref<Word>, from: Word, b: Bounds) returns (success: bool)
    ensures success <==> Inside(derived.value, b)
    ensures b.base + b.size <= W ==> (success <==> b.base <= derived.value < b.base + b.size)
  {
    InsideIs(derived.value, b);
    var addr := derived.value;
    var base := b.base;
    var size := b.size;
    success := Sub(addr, base) < size;
  }

  // aborting is LIBCRUNCH_ABORT_ON_INVALID_DERIVE.
  method SecondaryCheckDerivePtr(
      derived: Ref<Word>, from: Word, b: Ref<Bounds>, fetched: Bounds, aborting: bool)
    returns (r: Outcome)
    requires !Inside(derived.value, b.value) && !Invalid(fetched)
    modifies derived, b
    ensures Derived(derived.value, b.value, r) == old(Secondary(derived.value, from, b.value, fetched, aborting))
  {
    var addr := Detrap(derived.value);
    var trapped := IsTrap(from);
    if Invalid(b.value) {
      b.value := fetched;
    }
    var base := b.value.base;
    var size := b.value.size;
    if Sub(addr, base) < size {
      if trapped {
        derived.value := addr;
      }
      return Passed;
    }
    if Sub(addr, base) == size {
      derived.value := Trap(derived.value, ONE_PAST);
      return Passed;
    }
    if aborting {
      return Aborted;
    }
    derived.value := Trap(derived.value, INVALID);
    return Failed;
  }

  method FullCheckDerivePtr(derived: Ref<Word>, from: Word, b: Ref<Bounds>, fetched: Bounds, aborting: bool)
    returns (r: Outcome)
    requires !Invalid(fetched)
    modifies derived, b
    ensures Derived(derived.value, b.value, r) == old(Full(derived.value, from, b.value, fetched, aborting))
  {
    var ok := PrimaryCheckDerivePtr(derived, from, b.value);
    if ok {
      return Passed;
    }
    r := SecondaryCheckDerivePtr(derived, from, b, fetched, aborting);
  }

  // Bounds that are valid are kept, and nothing is fetched; others are replaced by
  // those fetched.
  lemma BoundsKept(p: Word, from: Word, b: Bounds, fetched: Bounds, aborting: bool)
    ensures !Invalid(b) ==> Full(p, from, b, fetched, aborting) == Full(p, from, b, b, aborting)
    ensures Full(p, from, b, fetched, aborting).b == if Invalid(b) then fetched else b
    ensures Invalid(b) ==> Full(p, from, b, fetched, aborting) == Secondary(p, from, fetched, fetched, aborting)
  {
  }

  // A pointer that passes the primary check is left alone, and so is one that is
  // inside and comes from one that was not trapped.
  lemma PointerKept(p: Word, from: Word, b: Bounds, fetched: Bounds, aborting: bool)
    ensures Inside(p, b) ==> Full(p, from, b, fetched, aborting) == Derived(p, b, Passed)
    ensures !Invalid(b) && !IsTrap(from) && Inside(Detrap(p), b) ==>
      Full(p, from, b, fetched, aborting) == Derived(p, b, Passed)
  {
  }

  // ----- one step -----

  // p is the address a with a tag, and its bounds are those of the object o or
  // not known yet. Max-bounds stand for an object that is not known.
  predicate At(p: Word, b: Bounds, a: Word, tag: Tag, o: Bounds) {
    && UserHalf(a) && p == Tagged(a, tag) && (b == o || Invalid(b))
    && (UserObject(o) || (o == MaxBounds() && tag == 0))
  }

  // If the primary check passes, the pointer derived from was not trapped and its
  // bounds were valid, as the full check tells the compiler.
  lemma PrimaryHints(p: Word, b: Bounds, a: Word, tag: Tag, o: Bounds, d: Word)
    requires At(p, b, a, tag, o) && UserHalf(Add(a, d)) && Inside(Add(p, d), b)
    ensures b == o && tag == 0 && p == a && !IsTrap(p) && !Invalid(b)
  {
    AddTagged(a, d, tag);
    DetrapTagged(a, tag);
    if tag != 0 {
      TaggedOutside(Add(a, d), tag, o);
    }
  }

  // What the full check makes of a step by d.
  lemma StepExact(p: Word, b: Bounds, a: Word, tag: Tag, o: Bounds, d: Word, aborting: bool)
    requires At(p, b, a, tag, o) && UserHalf(Add(a, d))
    ensures
      var c := Add(a, d);
      var r := Full(Add(p, d), p, b, o, aborting);
      && r.b == o
      && (Inside(c, o) ==> r == Derived(c, o, Passed))
      && (AtLimit(c, o) ==> r == Derived(Tagged(c, Xor(tag, ONE_PAST)), o, Passed))
      && (!Inside(c, o) && !AtLimit(c, o) ==>
            r == if aborting then Derived(Tagged(c, tag), o, Aborted)
                 else Derived(Tagged(c, Xor(tag, INVALID)), o, Failed))
      && (UserObject(o) ==>
            && (Inside(c, o) <==> o.base <= c < o.base + o.size)
            && (AtLimit(c, o) <==> c == o.base + o.size))
  {
    hide Trap, Detrap, IsTrap, Xor;
    var c := Add(a, d);
    InsideIs(c, o);
    AddTagged(a, d, tag);
    DetrapTagged(a, tag);
    DetrapTagged(c, tag);
    TrapTagged(c, tag, ONE_PAST);
    TrapTagged(c, tag, INVALID);
    if Inside(Add(p, d), b) {
      PrimaryHints(p, b, a, tag, o, d);
    }
  }

  // ----- chains -----

  function Init<T>(s: seq<T>): seq<T>
    requires s != []
  {
    s[..|s| - 1]
  }

  function Last<T>(s: seq<T>): T
    requires s != []
  {
    s[|s| - 1]
  }

  // A pointer variable and its local bounds.
  datatype Walk = Walk(p: Word, b: Bounds)

  // The pointer after a chain of checked steps, or None after an abort. Taking
  // the primary check first and the full check only when it fails is the same.
  function Chain(w: Walk, o: Bounds, steps: seq<Word>, aborting: bool): Option<Walk> {
    if steps == [] then Some(w)
    else
      match Chain(w, o, Init(steps), aborting)
      case None => None
      case Some(v) =>
        var r := Full(Add(v.p, Last(steps)), v.p, v.b, o, aborting);
        if r.outcome == Aborted then None else Some(Walk(r.p, r.b))
  }

  function Sum(steps: seq<Word>): int {
    if steps == [] then 0 else Sum(Init(steps)) + Last(steps)
  }

  function Address(a: Word, steps: seq<Word>): Word {
    (a + Sum(steps)) % W
  }

  // Every address on the way is in the user half.
  predicate UserChain(a: Word, steps: seq<Word>) {
    UserHalf(Address(a, steps)) && (steps != [] ==> UserChain(a, Init(steps)))
  }

  lemma AddressStep(a: Word, steps: seq<Word>)
    requires steps != []
    ensures Address(a, steps) == Add(Address(a, Init(steps)), Last(steps))
  {
    ModAdd(a + Sum(Init(steps)), Last(steps));
  }

  lemma ModAdd(x: int, w: Word)
    ensures (x + w) % W == Add(x % W, w)
  {
  }

  // The landings since the last one inside the object: those at its limit, or
  // those anywhere else.
  function Landings(a: Word, o: Bounds, steps: seq<Word>, atLimit: bool): nat {
    if steps == [] || Inside(Address(a, steps), o) then 0
    else Landings(a, o, Init(steps), atLimit) + if AtLimit(Address(a, steps), o) == atLimit then 1 else 0
  }

  function Parity(n: nat, tag: Tag): Tag {
    if n % 2 == 0 then 0 else tag
  }

  // The exclusive or of the tags applied since the last landing inside.
  function ChainTag(a: Word, o: Bounds, steps: seq<Word>): Tag {
    Xor(Parity(Landings(a, o, steps, true), ONE_PAST), Parity(Landings(a, o, steps, false), INVALID))
  }

  predicate Within(a: Word, o: Bounds, steps: seq<Word>) {
    steps == [] ||
    (Within(a, o, Init(steps)) && (Inside(Address(a, steps), o) || AtLimit(Address(a, steps), o)))
  }

  // A pointer to its object, whose bounds are known or still to be fetched.
  predicate Start(w: Walk, o: Bounds) {
    Inside(w.p, o) && At(w.p, w.b, w.p, 0, o)
  }

  lemma TagStep(a: Word, o: Bounds, steps: seq<Word>)
    requires steps != []
    ensures var c := Address(a, steps);
      ChainTag(a, o, steps) ==
        if Inside(c, o) then 0
        else Xor(ChainTag(a, o, Init(steps)), if AtLimit(c, o) then ONE_PAST else INVALID)
  {
    hide Address;
  }

  // Nothing is outside max-bounds.
  lemma MaxTag(a: Word, steps: seq<Word>)
    requires UserHalf(Address(a, steps))
    ensures ChainTag(a, MaxBounds(), steps) == 0
  {
    hide Address;
  }

  lemma ChainStart(w: Walk, o: Bounds)
    requires Start(w, o)
    ensures At(w.p, w.b, Address(w.p, []), ChainTag(w.p, o, []), o)
  {
  }

  // One more step of a chain.
  lemma ChainStep(v: Walk, a: Word, o: Bounds, steps: seq<Word>, aborting: bool)
    requires steps != [] && UserHalf(Address(a, steps))
    requires At(v.p, v.b, Address(a, Init(steps)), ChainTag(a, o, Init(steps)), o)
    ensures
      var c := Address(a, steps);
      var r := Full(Add(v.p, Last(steps)), v.p, v.b, o, aborting);
      && (r.outcome == Aborted <==> aborting && !Inside(c, o) && !AtLimit(c, o))
      && (r.outcome != Aborted ==> At(r.p, r.b, c, ChainTag(a, o, steps), o))
  {
    hide Address, Full, ChainTag, Xor;
    AddressStep(a, steps);
    TagStep(a, o, steps);
    StepExact(v.p, v.b, Address(a, Init(steps)), ChainTag(a, o, Init(steps)), o, Last(steps), aborting);
    if o == MaxBounds() {
      MaxTag(a, steps);
    }
  }

  // The address is never lost and the tag is the exclusive or of all applied since
  // the last landing inside; a chain aborts exactly when it is told to and goes
  // before the object or more than one past its end.
  lemma {:induction false} ChainExact(w: Walk, o: Bounds, steps: seq<Word>, aborting: bool)
    requires Start(w, o) && UserChain(w.p, steps)
    ensures Chain(w, o, steps, aborting).None? <==> aborting && !Within(w.p, o, steps)
    ensures Chain(w, o, steps, aborting).Some? ==>
      var v := Chain(w, o, steps, aborting).value;
      At(v.p, v.b, Address(w.p, steps), ChainTag(w.p, o, steps), o)
    decreases |steps|
  {
    hide Address, Full, ChainTag, At;
    if steps == [] {
      ChainStart(w, o);
    } else {
      ChainExact(w, o, Init(steps), aborting);
      if Chain(w, o, Init(steps), aborting).Some? {
        ChainStep(Chain(w, o, Init(steps), aborting).value, w.p, o, steps, aborting);
      }
    }
  }

  // Removing the tag gives the start plus the sum of the steps, and a pointer
  // strictly inside has no tag. A pointer without one is inside, or has landed both
  // at the limit and elsewhere outside an even number of times since it was.
  lemma ChainDetraps(w: Walk, o: Bounds, steps: seq<Word>, aborting: bool)
    requires Start(w, o) && UserChain(w.p, steps) && Chain(w, o, steps, aborting).Some?
    ensures
      var v := Chain(w, o, steps, aborting).value;
      && Detrap(v.p) == Address(w.p, steps)
      && (!IsTrap(v.p) <==>
            Inside(Address(w.p, steps), o)
            || (Landings(w.p, o, steps, true) % 2 == 0 && Landings(w.p, o, steps, false) % 2 == 0))
  {
    hide Address, Detrap, Xor, Chain, Parity, Sum;
    ChainExact(w, o, steps, aborting);
    DetrapTagged(Address(w.p, steps), ChainTag(w.p, o, steps));
    ParityXor(Landings(w.p, o, steps, true), Landings(w.p, o, steps, false));
  }

  lemma ParityXor(m: nat, n: nat)
    ensures Xor(Parity(m, ONE_PAST), Parity(n, INVALID)) == 0 <==> m % 2 == 0 && n % 2 == 0
    ensures n == 0 ==> Xor(Parity(m, ONE_PAST), Parity(n, INVALID)) == Parity(m, ONE_PAST)
  {
  }

  // ----- chains that abort -----

  lemma {:induction false} WithinLandings(a: Word, o: Bounds, steps: seq<Word>)
    requires Within(a, o, steps)
    ensures Landings(a, o, steps, false) == 0
    decreases |steps|
  {
    hide Address;
    if steps == [] {
    } else {
      WithinLandings(a, o, Init(steps));
    }
  }

  predicate NonZero(steps: seq<Word>) {
    forall d <- steps :: d != 0
  }

  // With steps that are not zero the limit is not reached twice in a row.
  lemma {:induction false} NonZeroLandings(a: Word, o: Bounds, steps: seq<Word>)
    requires Inside(a, o) && Within(a, o, steps) && NonZero(steps)
    ensures Landings(a, o, steps, true) == if AtLimit(Address(a, steps), o) then 1 else 0
    decreases |steps|
  {
    hide Address, Sum;
    if steps == [] {
      EmptyAddress(a);
    } else {
      assert forall d <- Init(steps) :: d in steps;
      NonZeroLandings(a, o, Init(steps));
      AddressStep(a, steps);
      assert Last(steps) in steps;
    }
  }

  lemma EmptyAddress(a: Word)
    ensures Address(a, []) == a
  {
  }

  // In the aborting configuration a pointer is untrapped exactly when it is
  // strictly inside and has the one-past tag exactly at the limit.
  lemma AbortingExact(w: Walk, o: Bounds, steps: seq<Word>)
    requires Start(w, o) && UserChain(w.p, steps) && NonZero(steps)
    requires Chain(w, o, steps, true).Some?
    ensures
      var p, c := Chain(w, o, steps, true).value.p, Address(w.p, steps);
      && (p == c <==> Inside(c, o))
      && (p == Tagged(c, ONE_PAST) <==> AtLimit(c, o))
      && (Inside(c, o) || AtLimit(c, o))
  {
    hide Address, Sum, Chain, Xor, Landings;
    ChainExact(w, o, steps, true);
    WithinLandings(w.p, o, steps);
    NonZeroLandings(w.p, o, steps);
    ParityXor(Landings(w.p, o, steps, true), 0);
    if steps == [] {
      EmptyAddress(w.p);
    }
  }

  // Without the restriction to non-zero steps: at the limit the tag is there
  // exactly after an odd number of landings there in a row.
  lemma AbortingZeroSteps(w: Walk, o: Bounds, steps: seq<Word>)
    requires Start(w, o) && UserChain(w.p, steps) && Chain(w, o, steps, true).Some?
    requires AtLimit(Address(w.p, steps), o)
    ensures
      var p := Chain(w, o, steps, true).value.p;
      p == Tagged(Address(w.p, steps), ONE_PAST) <==> Landings(w.p, o, steps, true) % 2 == 1
  {
    hide Address, Sum, Chain;
    ChainExact(w, o, steps, true);
    WithinLandings(w.p, o, steps);
  }

  // Moving to the limit and then by zero leaves an untrapped pointer one past the
  // end of every object.
  lemma ZeroStepUntraps(w: Walk, o: Bounds, d: Word)
    requires Start(w, o) && UserObject(o) && AtLimit(Add(w.p, d), o) && UserHalf(Add(w.p, d))
    ensures Chain(w, o, [d, 0], true) == Some(Walk(Add(w.p, d), o))
  {
    hide Full;
    assert Init([d, 0]) == [d] && Init([d]) == [];
    StepExact(w.p, w.b, w.p, 0, o, d, true);
    StepExact(Tagged(Add(w.p, d), ONE_PAST), o, Add(w.p, d), ONE_PAST, o, 0, true);
    assert Chain(w, o, [], true) == Some(w);
    assert Chain(w, o, [d], true) == Some(Walk(Tagged(Add(w.p, d), ONE_PAST), o));
  }

  // Without aborting, two invalid landings in a row leave an untrapped pointer.
  lemma InvalidTwiceUntraps(w: Walk, o: Bounds, d: Word, e: Word)
    requires Start(w, o) && UserObject(o)
    requires var c := Add(w.p, d); UserHalf(c) && !Inside(c, o) && !AtLimit(c, o)
    requires var c := Add(Add(w.p, d), e); UserHalf(c) && !Inside(c, o) && !AtLimit(c, o)
    ensures Chain(w, o, [d, e], false) == Some(Walk(Add(Add(w.p, d), e), o))
  {
    hide Full;
    assert Init([d, e]) == [d] && Init([d]) == [];
    StepExact(w.p, w.b, w.p, 0, o, d, false);
    StepExact(Tagged(Add(w.p, d), INVALID), o, Add(w.p, d), INVALID, o, e, false);
    assert Chain(w, o, [], false) == Some(w);
    assert Chain(w, o, [d], false) == Some(Walk(Tagged(Add(w.p, d), INVALID), o));
  }
}
