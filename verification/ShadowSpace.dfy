// The shadow space: for every pointer stored in shadowed memory a base and a size
// stored elsewhere, and how stores, copies and fetches use them.
module ShadowSpace {
  import opened MachineWord
  import opened ByteMemory
  import opened PointerBounds

  // ----- addresses -----

  // First and last byte of a range of user memory that has shadow space.
  datatype Range = Range(first: Word, last: Word)

  function Ranges(): seq<Range> {
    [Range(0, 0x0555_5555_5554), Range(0x2aaa_aaaa_b000, 0x2fff_ffff_ffff),
     Range(0x5555_5555_6000, 0x5655_5555_6000), Range(0x7aaa_aaaa_b000, 0x7fff_ffff_ffff)]
  }

  // n bytes from a lie in range r.
  predicate Covers(r: Range, a: int, n: nat) {
    r.first <= a && a + n <= r.last + 1
  }

  predicate Shadowed(a: int, n: nat) {
    exists r <- Ranges() :: Covers(r, a, n)
  }

  // A location that holds a pointer and has shadow space.
  predicate Location(a: int) {
    a % 8 == 0 && Shadowed(a, 8)
  }

  // The locations that have shadow space.
  lemma LocationsAre(a: int)
    ensures
      var shadowed :=
        || 0 <= a <= 0x0555_5555_554d
        || 0x2aaa_aaaa_b000 <= a <= 0x2fff_ffff_fff8
        || 0x5555_5555_6000 <= a <= 0x5655_5555_5ff9
        || 0x7aaa_aaaa_b000 <= a <= 0x7fff_ffff_fff8;
      Location(a) <==> a % 8 == 0 && shadowed
  {
    var rs := Ranges();
    assert Shadowed(a, 8) <==> Covers(rs[0], a, 8) || Covers(rs[1], a, 8) || Covers(rs[2], a, 8) || Covers(rs[3], a, 8);
  }

  // Bits 44 to 46.
  const NIBBLE := 0x1000_0000_0000

  // The address with those three bits flipped.
  function BaseSlot(a: Word): Word {
    var t := a / NIBBLE % 8;
    a + (7 - 2 * t) * NIBBLE
  }

  function SizeSlot(a: Word): Word
    requires UserHalf(a)
  {
    0x0800_0000_0000 + a / 2
  }

  predicate Apart(a: int, n: nat, b: int, k: nat) {
    a + n <= b || b + k <= a
  }

  // How far base slots of the range are from their locations.
  function Shift(r: Range): int {
    (7 - 2 * (r.first / NIBBLE)) * NIBBLE
  }

  lemma SlotForm(r: Range, a: Word)
    requires r in Ranges() && Covers(r, a, 1)
    ensures UserHalf(a) && BaseSlot(a) == a + Shift(r)
  {
    assert a / NIBBLE == r.first / NIBBLE;
  }

  lemma Shifts()
    ensures forall r <- Ranges() ::
      match r.first / NIBBLE
      case 0 => Shift(r) == 0x7000_0000_0000
      case 2 => Shift(r) == 0x3000_0000_0000
      case 5 => Shift(r) == -0x3000_0000_0000
      case _ => Shift(r) == -0x7000_0000_0000
  {
  }

  // Within one range the slots of a pointer d bytes further on are d, and half
  // of d, further on.
  lemma SlotsAffine(r: Range, a: Word, d: int)
    requires r in Ranges() && Covers(r, a, 8) && Covers(r, a + d, 8) && a % 8 == 0 && d % 8 == 0
    ensures UserHalf(a) && UserHalf(a + d)
    ensures BaseSlot(a + d) == BaseSlot(a) + d && SizeSlot(a + d) == SizeSlot(a) + d / 2
  {
    SlotForm(r, a);
    SlotForm(r, a + d);
    Halves(a, d);
  }

  lemma Halves(a: int, d: int)
    requires d % 8 == 0
    ensures (a + d) / 2 == a / 2 + d / 2
  {
    var k := d / 8;
    assert d == 8 * k && d / 2 == 4 * k;
    var q, r := a / 2, a % 2;
    assert a + d == 2 * (q + 4 * k) + r && 0 <= r < 2;
  }

  lemma LocationUser(a: Word)
    requires Location(a)
    ensures UserHalf(a) && a % 8 == 0
  {
  }

  // The base slot has bits 44 to 46 flipped, so flipping them again gives the location
  // back; the size slot is at half of it.
  lemma SlotImages(a: Word)
    requires Location(a)
    ensures UserHalf(a) && BaseSlot(BaseSlot(a)) == a
    ensures BaseSlot(a) % 0x1000_0000_0000 == a % 0x1000_0000_0000
    ensures BaseSlot(a) / 0x1000_0000_0000 == 7 - a / 0x1000_0000_0000
    ensures SizeSlot(a) % 4 == 0 && 2 * (SizeSlot(a) - 0x0800_0000_0000) == a
  {
    hide BaseSlot, SizeSlot, Shadowed;
    LocationUser(a);
    Flipped(a);
    FlippedTwice(a);
    HalfWay(a);
  }

  lemma FlippedTwice(a: Word)
    requires UserHalf(a)
    ensures BaseSlot(BaseSlot(a)) == a
  {
    hide BaseSlot;
    Flipped(a);
    Flipped(BaseSlot(a));
  }

  lemma HalfWay(a: Word)
    requires UserHalf(a) && a % 8 == 0
    ensures SizeSlot(a) % 4 == 0 && 2 * (SizeSlot(a) - 0x0800_0000_0000) == a
  {
    var k := a / 8;
    assert a / 2 == 4 * k;
    assert SizeSlot(a) == 4 * (0x0200_0000_0000 + k);
  }

  // Where the slots are for each range of locations.
  lemma SlotRanges(a: Word)
    requires Location(a)
    ensures UserHalf(a)
    ensures
      if a < 0x0555_5555_5555 then
        0x7000_0000_0000 <= BaseSlot(a) <= 0x7555_5555_5554 && 0x0800_0000_0000 <= SizeSlot(a) <= 0x0aaa_aaaa_aaaa
      else if a < 0x3000_0000_0000 then
        0x5aaa_aaaa_b000 <= BaseSlot(a) <= 0x5fff_ffff_ffff && 0x1d55_5555_5800 <= SizeSlot(a) <= 0x1fff_ffff_ffff
      else if a < 0x5655_5555_6001 then
        0x2555_5555_6000 <= BaseSlot(a) <= 0x2655_5555_6000 && 0x32aa_aaaa_b000 <= SizeSlot(a) <= 0x332a_aaaa_b000
      else
        0x0aaa_aaaa_b000 <= BaseSlot(a) <= 0x0fff_ffff_ffff && 0x4555_5555_5800 <= SizeSlot(a) <= 0x47ff_ffff_ffff
  {
    hide BaseSlot, Shift;
    var r :| r in Ranges() && Covers(r, a, 8);
    SlotForm(r, a);
    Shifts();
  }

  lemma Flipped(a: Word)
    requires UserHalf(a)
    ensures UserHalf(BaseSlot(a)) && BaseSlot(a) % NIBBLE == a % NIBBLE && BaseSlot(a) / NIBBLE == 7 - a / NIBBLE
    ensures BaseSlot(a) == a + (7 - 2 * (a / NIBBLE)) * NIBBLE
  {
  }

  // No slot overlaps shadowed user memory.
  lemma SlotsOutside(a: Word, b: Word, n: nat)
    requires Location(a) && Shadowed(b, n)
    ensures UserHalf(a) && Apart(BaseSlot(a), 8, b, n) && Apart(SizeSlot(a), 4, b, n)
  {
    hide BaseSlot;
    var r :| r in Ranges() && Covers(r, a, 8);
    SlotForm(r, a);
    Shifts();
  }

  // The shadow of n bytes from a overlaps neither the slots of other locations
  // nor slots of the other kind.
  lemma AreasApart(loc: Word, r: Range, a: Word, n: nat)
    requires Location(loc) && r in Ranges() && Covers(r, a, n) && a % 8 == 0 && n > 0
    ensures UserHalf(loc) && UserHalf(a)
    ensures Apart(BaseSlot(loc), 8, SizeSlot(a), n * 4 / 8) && Apart(SizeSlot(loc), 4, BaseSlot(a), n)
    ensures Apart(loc, 8, a, n) ==> Apart(BaseSlot(loc), 8, BaseSlot(a), n)
    ensures Apart(loc, 8, a, n) ==> Apart(SizeSlot(loc), 4, SizeSlot(a), n * 4 / 8)
  {
    hide BaseSlot, Shift;
    var q :| q in Ranges() && Covers(q, loc, 8);
    SlotForm(q, loc);
    SlotForm(r, a);
    Shifts();
  }

  // Slots of different locations do not overlap, nor do slots of different kinds.
  lemma SlotsApart(a: Word, b: Word)
    requires Location(a) && Location(b)
    ensures UserHalf(a) && UserHalf(b)
    ensures Apart(BaseSlot(a), 8, SizeSlot(b), 4) && Apart(SizeSlot(a), 4, BaseSlot(b), 8)
    ensures a != b ==> Apart(BaseSlot(a), 8, BaseSlot(b), 8) && Apart(SizeSlot(a), 4, SizeSlot(b), 4)
  {
    hide BaseSlot, Ranges, Shift, SizeSlot;
    var r :| r in Ranges() && Covers(r, b, 8);
    AreasApart(a, r, b, 8);
  }

  // ----- stored bounds -----

  // The size is stored as an unsigned int.
  function Stored(size: Word): nat {
    size % UNSIGNED
  }

  // The sum is an unsigned int, the difference an unsigned long.
  function Fetched(stored: nat): Word {
    Sub((stored + 1) % UNSIGNED, 1)
  }

  // What remains of bounds that go through the shadow space.
  function Kept(b: Bounds): Bounds {
    Bounds(b.base, Fetched(Stored(b.size)))
  }

  // Bounds come through unchanged exactly when the size is below 2^32 - 1 or is
  // that of max-bounds; they come through valid unless 2^32 divides the size.
  lemma KeptExact(b: Bounds)
    ensures Kept(b) == b <==> b.size < UNSIGNED - 1 || b.size == W - 1
    ensures Invalid(Kept(b)) <==> b.size % UNSIGNED == 0
    ensures Kept(MaxBounds()) == MaxBounds()
  {
    assert b.size == b.size / UNSIGNED * UNSIGNED + Stored(b.size);
  }

  // What is stored for a location.
  function Entry(m: Memory, loc: Word): Bounds
    requires UserHalf(loc)
  {
    Bounds(LoadWord(m, BaseSlot(loc)), Fetched(Load(m, SizeSlot(loc), 4)))
  }

  function LoadWord(m: Memory, a: int): Word {
    LimitIs();
    Load(m, a, 8)
  }

  // typed is whether the type argument is not null.
  function StoreBounds(m: Memory, loc: Word, b: Bounds, typed: bool): Memory
    requires UserHalf(loc)
  {
    var c := if typed then b else MakeInvalid(LoadWord(m, loc));
    Store(Store(m, BaseSlot(loc), 8, c.base), SizeSlot(loc), 4, Stored(c.size))
  }

  // fetched is what an out-of-line fetch gives for a pointer that is not null.
  function StorePointer(m: Memory, dest: Word, val: Word, b: Bounds, typed: bool, fetched: Bounds): Memory
    requires UserHalf(dest)
  {
    var existing := Load(m, SizeSlot(dest), 4) != 0;
    var c := if !Invalid(b) then b else if val != 0 then fetched else MakeBounds(0, 1);
    if !Invalid(c) || existing then StoreBounds(m, dest, c, typed) else m
  }

  function FetchBounds(m: Memory, p: Word, loc: Word): Bounds
    requires UserHalf(loc)
  {
    if p == 0 then MakeBounds(0, 1) else Entry(m, loc)
  }

  function CopyShadow(m: Memory, dest: Word, src: Word, n: nat): Memory
    requires UserHalf(dest) && UserHalf(src)
  {
    Move(Move(m, BaseSlot(dest), BaseSlot(src), n), SizeSlot(dest), SizeSlot(src), n * 4 / 8)
  }

  // The runtime functions, which update memory in place.
  class Runtime {
    var memory: Memory

    constructor ()
      ensures forall a :: memory.At(a) == 0
    {
      memory := Memory(map[]);
    }

    method ShadowStoreBoundsFor(loc: Word, valBounds: Bounds, typed: bool)
      requires UserHalf(loc)
      modifies this
      ensures memory == StoreBounds(old(memory), loc, valBounds, typed)
    {
      var b := valBounds;
      if !typed {
        b := MakeInvalid(LoadWord(memory, loc));
      }
      memory := Store(memory, BaseSlot(loc), 8, b.base);
      memory := Store(memory, SizeSlot(loc), 4, b.size % UNSIGNED);
    }

    method StorePointerNonlocal(dest: Word, val: Word, valBounds: Bounds, typed: bool, fetched: Bounds)
      requires UserHalf(dest)
      modifies this
      ensures memory == StorePointer(old(memory), dest, val, valBounds, typed, fetched)
    {
      var b := valBounds;
      var existing := Load(memory, SizeSlot(dest), 4) != 0;
      if Invalid(b) {
        if val != 0 {
          b := fetched;
        } else {
          b := MakeBounds(0, 1);
        }
      }
      if !Invalid(b) || existing {
        ShadowStoreBoundsFor(dest, b, typed);
      }
    }

    method FetchBoundsFromShadowSpace(p: Word, loadedFrom: Word) returns (b: Bounds)
      requires UserHalf(loadedFrom)
      ensures b == FetchBounds(memory, p, loadedFrom)
      ensures p == 0 ==> forall a: Word :: Inside(a, b) <==> a == 0
    {
      if p == 0 {
        return MakeBounds(0, 1);
      }
      var base := LoadWord(memory, BaseSlot(loadedFrom));
      var size := Load(memory, SizeSlot(loadedFrom), 4);
      b := Bounds(base, Sub((size + 1) % UNSIGNED, 1));
    }

    method Memmove(dest: int, src: int, n: nat)
      modifies this
      ensures memory == Move(old(memory), dest, src, n)
    {
      memory := Move(memory, dest, src, n);
    }

    // ready is whether the shadow space is initialised.
    method NotifyCopy(ready: bool, dest: Word, src: Word, n: nat)
      requires UserHalf(dest) && UserHalf(src)
      modifies this
      ensures memory == if ready then CopyShadow(old(memory), dest, src, n) else old(memory)
    {
      if ready {
        Memmove(BaseSlot(dest), BaseSlot(src), n);
        Memmove(SizeSlot(dest), SizeSlot(src), n * 4 / 8);
      }
    }
  }

  // ----- what each operation does to the entries -----

  lemma EntryStored(m: Memory, loc: Word, b: Bounds)
    requires Location(loc)
    ensures UserHalf(loc) && Entry(StoreBounds(m, loc, b, true), loc) == Kept(b)
  {
    hide Shadowed, BaseSlot, SizeSlot, Store, Load;
    LocationUser(loc);
    SlotsApart(loc, loc);
    var t := Store(m, BaseSlot(loc), 8, b.base);
    var u := Store(t, SizeSlot(loc), 4, Stored(b.size));
    LimitIs();
    LoadStore(m, BaseSlot(loc), 8, b.base);
    StoreSame(t, SizeSlot(loc), 4, Stored(b.size));
    LoadSame(t, u, SizeSlot(loc), 4, BaseSlot(loc), 8);
    LoadStore(t, SizeSlot(loc), 4, Stored(b.size));
  }

  // The bounds fetched for a null pointer allow address 0 and no other, whatever is
  // stored where it was loaded from.
  lemma NullFetched(m: Memory, loc: Word, a: Word)
    requires UserHalf(loc)
    ensures FetchBounds(m, 0, loc) == Bounds(0, 1) && (Inside(a, FetchBounds(m, 0, loc)) <==> a == 0)
  {
  }

  lemma LimitIs()
    ensures Limit(4) == UNSIGNED && Limit(8) == W
  {
    assert Limit(4) == 256 * Limit(3);
    assert Limit(8) == 256 * Limit(7);
  }

  // Memory that differs only in some bytes apart from both slots of a location.
  lemma EntrySame(m: Memory, m': Memory, a: int, n: nat, loc: Word)
    requires UserHalf(loc) && SameOutside(m, m', a, n)
    requires Apart(BaseSlot(loc), 8, a, n) && Apart(SizeSlot(loc), 4, a, n)
    ensures Entry(m', loc) == Entry(m, loc)
  {
    hide BaseSlot, SizeSlot, Load;
    LoadSame(m, m', a, n, BaseSlot(loc), 8);
    LoadSame(m, m', a, n, SizeSlot(loc), 4);
  }

  lemma OthersStored(m: Memory, loc: Word, b: Bounds, typed: bool, other: Word)
    requires Location(loc) && Location(other) && other != loc
    ensures UserHalf(loc) && UserHalf(other) && Entry(StoreBounds(m, loc, b, typed), other) == Entry(m, other)
  {
    hide Location, BaseSlot, SizeSlot, Store, Load, Entry;
    SlotsApart(loc, other);
    var c := if typed then b else MakeInvalid(LoadWord(m, loc));
    var t := Store(m, BaseSlot(loc), 8, c.base);
    StoreSame(m, BaseSlot(loc), 8, c.base);
    EntrySame(m, t, BaseSlot(loc), 8, other);
    StoreSame(t, SizeSlot(loc), 4, Stored(c.size));
    EntrySame(t, Store(t, SizeSlot(loc), 4, Stored(c.size)), SizeSlot(loc), 4, other);
  }

  // A write to shadowed user memory changes no entry.
  lemma EntryWritten(m: Memory, m': Memory, a: Word, n: nat, loc: Word)
    requires Location(loc) && Shadowed(a, n) && SameOutside(m, m', a, n)
    ensures UserHalf(loc) && Entry(m', loc) == Entry(m, loc)
  {
    hide BaseSlot, SizeSlot, Entry;
    SlotsOutside(loc, a, n);
    EntrySame(m, m', a, n, loc);
  }
}
