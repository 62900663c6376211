// The shadow space against a plain map from locations to bounds: what a copy does,
// and whole runs of stores, copies and other writes.
module ShadowRuns {
  import opened MachineWord
  import opened ByteMemory
  import opened PointerBounds
  import opened ShadowSpace

  // ----- one copy -----

  // Both ends of a copy lie in shadowed ranges and are 8-aligned.
  predicate Copyable(dest: Word, src: Word, n: nat) {
    dest % 8 == 0 && src % 8 == 0 && Shadowed(dest, n) && Shadowed(src, n)
  }

  // Whether loc is one of the locations that lie wholly in n bytes from a.
  predicate In(loc: int, a: int, n: nat) {
    loc % 8 == 0 && a <= loc && loc + 8 <= a + n
  }

  lemma InLocation(loc: int, a: Word, n: nat)
    requires In(loc, a, n) && a % 8 == 0 && Shadowed(a, n)
    ensures Location(loc)
  {
    hide Ranges;
    var r :| r in Ranges() && Covers(r, a, n);
    assert Covers(r, loc, 8);
  }

  // Every destination location gets what its source location had before, however
  // the two areas overlap.
  lemma CopyMoves(m: Memory, dest: Word, src: Word, n: nat, loc: Word)
    requires Copyable(dest, src, n) && In(loc, dest, n)
    ensures UserHalf(dest) && UserHalf(src) && UserHalf(loc)
    ensures Location(loc - dest + src) && UserHalf(loc - dest + src)
    ensures Entry(CopyShadow(m, dest, src, n), loc) == Entry(m, loc - dest + src)
  {
    hide Shadowed, BaseSlot, SizeSlot, Move, Load;
    var d := loc - dest;
    var from := src + d;
    InLocation(loc, dest, n);
    InLocation(from, src, n);
    AreaSlots(dest, n, d);
    AreaSlots(src, n, d);
    var t := Move(m, BaseSlot(dest), BaseSlot(src), n);
    AreaClear(loc, dest, n);
    AreaClear(from, dest, n);
    LoadMoved(m, BaseSlot(dest), BaseSlot(src), n, d, 8);
    MoveSame(t, SizeSlot(dest), SizeSlot(src), n * 4 / 8);
    LoadSame(t, CopyShadow(m, dest, src, n), SizeSlot(dest), n * 4 / 8, BaseSlot(loc), 8);
    LoadMoved(t, SizeSlot(dest), SizeSlot(src), n * 4 / 8, d / 2, 4);
    MoveSame(m, BaseSlot(dest), BaseSlot(src), n);
    LoadSame(m, t, BaseSlot(dest), n, SizeSlot(from), 4);
  }

  lemma AreaSlots(a: Word, n: nat, d: nat)
    requires a % 8 == 0 && Shadowed(a, n) && d % 8 == 0 && d + 8 <= n
    ensures UserHalf(a) && UserHalf(a + d)
    ensures BaseSlot(a + d) == BaseSlot(a) + d && SizeSlot(a + d) == SizeSlot(a) + d / 2
  {
    hide Ranges, BaseSlot, SizeSlot;
    var r :| r in Ranges() && Covers(r, a, n);
    SlotsAffine(r, a, d);
  }

  // A base slot is clear of a shadow area for sizes, and the other way round.
  lemma AreaClear(loc: Word, a: Word, n: nat)
    requires Location(loc) && a % 8 == 0 && n > 0 && Shadowed(a, n)
    ensures UserHalf(loc) && UserHalf(a)
    ensures Apart(BaseSlot(loc), 8, SizeSlot(a), n * 4 / 8) && Apart(SizeSlot(loc), 4, BaseSlot(a), n)
    ensures Apart(loc, 8, a, n) ==> Apart(BaseSlot(loc), 8, BaseSlot(a), n)
    ensures Apart(loc, 8, a, n) ==> Apart(SizeSlot(loc), 4, SizeSlot(a), n * 4 / 8)
  {
    hide Ranges, BaseSlot, SizeSlot;
    var r :| r in Ranges() && Covers(r, a, n);
    AreasApart(loc, r, a, n);
  }

  // Every other location keeps its bounds.
  lemma CopyKeeps(m: Memory, dest: Word, src: Word, n: nat, loc: Word)
    requires UserHalf(dest) && UserHalf(src) && Copyable(dest, src, n) && Location(loc) && Apart(loc, 8, dest, n)
    ensures UserHalf(loc) && Entry(CopyShadow(m, dest, src, n), loc) == Entry(m, loc)
  {
    hide Shadowed, BaseSlot, SizeSlot, Move, Load, Entry;
    LocationUser(loc);
    var t := Move(m, BaseSlot(dest), BaseSlot(src), n);
    if n > 0 {
      AreaClear(loc, dest, n);
      MoveSame(m, BaseSlot(dest), BaseSlot(src), n);
      EntrySame(m, t, BaseSlot(dest), n, loc);
      MoveSame(t, SizeSlot(dest), SizeSlot(src), n * 4 / 8);
      EntrySame(t, CopyShadow(m, dest, src, n), SizeSlot(dest), n * 4 / 8, loc);
    } else {
      MoveSame(m, BaseSlot(dest), BaseSlot(src), 0);
      MoveSame(t, SizeSlot(dest), SizeSlot(src), 0);
      EntrySame(m, CopyShadow(m, dest, src, n), -1, 0, loc);
    }
  }

  // ----- runs -----

  // What the program and the runtime do to memory.
  datatype Op =
    | StorePtr(dest: Word, val: Word, b: Bounds, typed: bool, fetched: Bounds)
    | Copy(dest: Word, src: Word, n: nat)
    | Write(a: Word, n: nat, v: nat)

  // Stores go to locations and an out-of-line fetch gives valid bounds; copies and
  // ordinary writes stay in shadowed memory.
  predicate Legal(op: Op) {
    match op
    case StorePtr(dest, _, _, _, fetched) => Location(dest) && !Invalid(fetched)
    case Copy(dest, src, n) => UserHalf(dest) && UserHalf(src) && Copyable(dest, src, n)
    case Write(a, n, _) => Shadowed(a, n)
  }

  function Do(m: Memory, op: Op): Memory
    requires Legal(op)
  {
    match op
    case StorePtr(dest, val, b, typed, fetched) => StorePointer(m, dest, val, b, typed, fetched)
    case Copy(dest, src, n) => CopyShadow(m, dest, src, n)
    case Write(a, n, v) => Store(m, a, n, v)
  }

  // The plain map. Locations that are not in it have invalid bounds.
  type Table = map<int, Bounds>

  const NONE := Bounds(0, 0)

  function Lookup(t: Table, loc: int): Bounds {
    if loc in t then t[loc] else NONE
  }

  // The bounds that a store passes, or those it finds for the value: a null pointer
  // gets bounds of its own.
  function Given(val: Word, b: Bounds, fetched: Bounds): Bounds {
    if !Invalid(b) then b else if val != 0 then fetched else Bounds(0, 1)
  }

  function Note(t: Table, op: Op): Table
    requires Legal(op)
  {
    match op
    case StorePtr(dest, val, b, typed, fetched) => t[dest := if typed then Kept(Given(val, b, fetched)) else NONE]
    case Copy(dest, src, n) =>
      map loc | loc in t.Keys + Span(dest, n) ::
        if In(loc, dest, n) then Lookup(t, loc - dest + src) else Lookup(t, loc)
    case Write(_, _, _) => t
  }

  // Equal bounds, or both invalid.
  predicate Same(b: Bounds, c: Bounds) {
    b == c || (Invalid(b) && Invalid(c))
  }

  ghost predicate Agrees(m: Memory, t: Table) {
    forall loc: Word | Location(loc) :: UserHalf(loc) && Same(Entry(m, loc), Lookup(t, loc))
  }

  lemma StoreAgrees(m: Memory, t: Table, op: Op)
    requires Agrees(m, t) && op.StorePtr? && Legal(op)
    ensures Agrees(Do(m, op), Note(t, op))
  {
    hide Location, StoreBounds, Entry, Kept;
    var c := Given(op.val, op.b, op.fetched);
    LocationUser(op.dest);
    assert Do(m, op) == StoreBounds(m, op.dest, c, op.typed);
    forall loc: Word | Location(loc)
      ensures UserHalf(loc) && Same(Entry(Do(m, op), loc), Lookup(Note(t, op), loc))
    {
      LocationUser(loc);
      if loc != op.dest {
        OthersStored(m, op.dest, c, op.typed, loc);
      } else if op.typed {
        EntryStored(m, loc, c);
      } else {
        EntryCleared(m, loc, c);
      }
    }
  }

  lemma EntryCleared(m: Memory, loc: Word, b: Bounds)
    requires Location(loc)
    ensures UserHalf(loc) && Invalid(Entry(StoreBounds(m, loc, b, false), loc))
  {
    hide Shadowed, BaseSlot;
    LocationUser(loc);
    EntryStored(m, loc, MakeInvalid(LoadWord(m, loc)));
    assert StoreBounds(m, loc, b, false) == StoreBounds(m, loc, MakeInvalid(LoadWord(m, loc)), true);
    KeptExact(MakeInvalid(LoadWord(m, loc)));
  }

  lemma CopyAgrees(m: Memory, t: Table, op: Op)
    requires Agrees(m, t) && op.Copy? && Legal(op) && op.n % 8 == 0
    ensures Agrees(Do(m, op), Note(t, op))
  {
    hide Location, CopyShadow, Entry, Copyable;
    forall loc: Word | Location(loc)
      ensures UserHalf(loc) && Same(Entry(Do(m, op), loc), Lookup(Note(t, op), loc))
    {
      LocationUser(loc);
      CopyCases(loc, op);
      if In(loc, op.dest, op.n) {
        CopyMoves(m, op.dest, op.src, op.n, loc);
        assert loc in Span(op.dest, op.n);
      } else {
        CopyKeeps(m, op.dest, op.src, op.n, loc);
      }
    }
  }

  // With n a multiple of 8 a location is copied to as a whole or not at all.
  lemma CopyCases(loc: int, op: Op)
    requires op.Copy? && Legal(op) && op.n % 8 == 0 && loc % 8 == 0
    ensures In(loc, op.dest, op.n) || Apart(loc, 8, op.dest, op.n)
  {
    hide Shadowed;
  }

  lemma WriteAgrees(m: Memory, t: Table, op: Op)
    requires Agrees(m, t) && op.Write? && Legal(op)
    ensures Agrees(Do(m, op), Note(t, op))
  {
    hide Location, Shadowed, Entry, Store;
    StoreSame(m, op.a, op.n, op.v);
    forall loc: Word | Location(loc)
      ensures UserHalf(loc) && Same(Entry(Do(m, op), loc), Lookup(Note(t, op), loc))
    {
      EntryWritten(m, Do(m, op), op.a, op.n, loc);
    }
  }

  predicate Run(ops: seq<Op>) {
    forall op <- ops :: Legal(op) && (op.Copy? ==> op.n % 8 == 0)
  }

  function MemoryAfter(m: Memory, ops: seq<Op>): Memory
    requires Run(ops)
  {
    if ops == [] then m
    else
      assert ops[|ops| - 1] in ops && forall op <- ops[..|ops| - 1] :: op in ops;
      Do(MemoryAfter(m, ops[..|ops| - 1]), ops[|ops| - 1])
  }

  function TableAfter(t: Table, ops: seq<Op>): Table
    requires Run(ops)
  {
    if ops == [] then t
    else
      assert ops[|ops| - 1] in ops && forall op <- ops[..|ops| - 1] :: op in ops;
      Note(TableAfter(t, ops[..|ops| - 1]), ops[|ops| - 1])
  }

  // The shadow space and the plain map agree after every run.
  lemma {:induction false} RunAgrees(m: Memory, t: Table, ops: seq<Op>)
    requires Agrees(m, t) && Run(ops)
    ensures Agrees(MemoryAfter(m, ops), TableAfter(t, ops))
    decreases |ops|
  {
    hide Do, Note, Agrees, Legal;
    if ops == [] {
    } else {
      var last, before := ops[|ops| - 1], ops[..|ops| - 1];
      assert last in ops && forall op <- before :: op in ops;
      RunAgrees(m, t, before);
      match last
      case StorePtr(_, _, _, _, _) => StoreAgrees(MemoryAfter(m, before), TableAfter(t, before), last);
      case Copy(_, _, _) => CopyAgrees(MemoryAfter(m, before), TableAfter(t, before), last);
      case Write(_, _, _) => WriteAgrees(MemoryAfter(m, before), TableAfter(t, before), last);
    }
  }

  lemma EmptyAgrees()
    ensures Agrees(Memory(map[]), map[])
  {
    hide BaseSlot, SizeSlot;
    forall loc: Word | Location(loc) ensures UserHalf(loc) && Entry(Memory(map[]), loc) == NONE {
      LocationUser(loc);
      LoadZero(BaseSlot(loc), 8);
      LoadZero(SizeSlot(loc), 4);
    }
  }

  lemma {:induction false} LoadZero(a: int, n: nat)
    ensures Load(Memory(map[]), a, n) == 0
    decreases n
  {
    if n == 0 {
    } else {
      LoadZero(a + 1, n - 1);
    }
  }

  // Whether an operation gives a location new bounds.
  predicate Touches(op: Op, loc: int) {
    match op
    case StorePtr(dest, _, _, _, _) => dest == loc
    case Copy(dest, _, n) => In(loc, dest, n)
    case Write(_, _, _) => false
  }

  lemma {:induction false} Untouched(t: Table, before: seq<Op>, after: seq<Op>, loc: int)
    requires Run(before + after) && Run(before) && forall op <- after :: !Touches(op, loc)
    ensures Lookup(TableAfter(t, before + after), loc) == Lookup(TableAfter(t, before), loc)
    decreases |after|
  {
    hide Legal;
    if after == [] {
      assert before + after == before;
    } else {
      var ops, rest, last := before + after, after[..|after| - 1], after[|after| - 1];
      assert ops[..|ops| - 1] == before + rest && ops[|ops| - 1] == last;
      assert forall op <- before + rest :: op in ops;
      assert last in after && forall op <- rest :: op in after;
      Untouched(t, before, rest, loc);
    }
  }

  // A pointer that is not null, fetched from a location, gets the bounds last
  // stored there with it, whatever else was stored, copied or written before and
  // since elsewhere: exactly the same for sizes below 2^32 - 1 and for max-bounds,
  // and for no others. A store of a value without valid bounds counts as one with
  // those found for it, or with bounds of address 0 only for a null pointer, and one
  // without a type leaves invalid bounds.
  lemma FetchesLastStored(
      before: seq<Op>, after: seq<Op>, loc: Word, val: Word, b: Bounds, typed: bool, fetched: Bounds, p: Word)
    requires Location(loc) && !Invalid(fetched) && p != 0
    requires Run(before) && Run(after) && forall op <- after :: !Touches(op, loc)
    ensures
      var ops := before + [StorePtr(loc, val, b, typed, fetched)] + after;
      var given := if b.size != 0 then b else if val != 0 then fetched else Bounds(0, 1);
      var exact := given.size < UNSIGNED - 1 || given.size == W - 1;
      && UserHalf(loc) && Run(ops)
      && var got := FetchBounds(MemoryAfter(Memory(map[]), ops), p, loc);
         if typed then got == given <==> exact else got.size == 0
  {
    hide Location, Do, Entry, Kept, Load;
    var op := StorePtr(loc, val, b, typed, fetched);
    var first := before + [op];
    var ops := first + after;
    LocationUser(loc);
    assert Run(first) && Run(ops);
    EmptyAgrees();
    RunAgrees(Memory(map[]), map[], ops);
    Untouched(map[], first, after, loc);
    assert first[..|first| - 1] == before && first[|first| - 1] == op;
    KeptExact(Given(val, b, fetched));
  }

  // A null pointer stored without bounds and fetched again gets the bounds stored
  // for it, which are those of every null pointer; and with those any non-null
  // pointer fetched from there is outside.
  lemma NullRoundTrip(before: seq<Op>, after: seq<Op>, loc: Word, b: Bounds, fetched: Bounds, p: Word)
    requires Location(loc) && Invalid(b) && !Invalid(fetched)
    requires Run(before) && Run(after) && forall op <- after :: !Touches(op, loc)
    ensures
      var ops := before + [StorePtr(loc, 0, b, true, fetched)] + after;
      && UserHalf(loc) && Run(ops)
      && var got := FetchBounds(MemoryAfter(Memory(map[]), ops), p, loc);
         got == Bounds(0, 1) && (Inside(p, got) <==> p == 0)
  {
    hide Location, Do, Entry, Load;
    LocationUser(loc);
    if p == 0 {
      assert Run([StorePtr(loc, 0, b, true, fetched)]);
      assert Run(before + [StorePtr(loc, 0, b, true, fetched)] + after);
      NullFetched(MemoryAfter(Memory(map[]), before + [StorePtr(loc, 0, b, true, fetched)] + after), loc, p);
    } else {
      FetchesLastStored(before, after, loc, 0, b, true, fetched, p);
    }
  }
}
