// How crunchbound.ml flattens the pointers inside a type into one array of
// bounds: the size of that array, the index of a pointer in it, and the separate
// enumeration of all the pointers.
module Flatten {
  import opened Arithmetic
  import opened Wrappers

  // Types as far as they matter here; Struct stands for all composites.
  datatype Type =
    | Void
    | Function
    | Scalar
    | Pointer(toVoid: bool)
    | Array(elem: Type, bound: Option<nat>)
    | Struct(fields: seq<Type>)
    | Named(actual: Type)

  // No bounds, a single bounds object, or a one-dimensional array of them.
  datatype BoundsT = NoBounds | Single | Several(n: nat)

  datatype Offset = NoOffset | Field(field: nat, next: Offset) | Index(i: int, next: Offset)

  // ----- the type of the bounds -----

  function AsNumber(b: BoundsT): nat {
    match b
    case NoBounds => 0
    case Single => 1
    case Several(n) => n
  }

  function TimesN(b: BoundsT, n: nat): BoundsT {
    match b
    case NoBounds => NoBounds
    case Single => if n == 1 then Single else Several(n)
    case Several(m) => Several(n * m)
  }

  function PlusN(b: BoundsT, n: nat): BoundsT {
    match b
    case NoBounds => if n == 0 then NoBounds else if n == 1 then Single else Several(n)
    case Single => if n == 0 then Single else Several(n + 1)
    case Several(m) => Several(n + m)
  }

  function Plus(b1: BoundsT, b2: BoundsT): BoundsT {
    match b2
    case NoBounds => PlusN(b1, 0)
    case Single => PlusN(b1, 1)
    case Several(m) => PlusN(b1, m)
  }

  // The types on which the source does not raise an exception.
  predicate Complete(t: Type) {
    match t
    case Void => false
    case Function => false
    case Scalar => true
    case Pointer(_) => true
    case Array(e, b) => b.Some? && Complete(e)
    case Struct(fs) => forall f <- fs :: Complete(f)
    case Named(a) => Complete(a)
  }

  // v is the option voidPtrHasBounds.
  function BoundsTForT(v: bool, t: Type): BoundsT
    requires Complete(t)
    decreases t, 1, 0
  {
    match t
    case Scalar => NoBounds
    case Pointer(toVoid) => if toVoid && !v then NoBounds else Single
    case Array(e, b) => TimesN(BoundsTForT(v, e), b.value)
    case Struct(fs) => SumFields(v, t, |fs|)
    case Named(a) => BoundsTForT(v, a)
  }

  // The bounds types of the first k fields, added up from the left.
  function SumFields(v: bool, t: Type, k: nat): BoundsT
    requires Complete(t) && t.Struct? && k <= |t.fields|
    decreases t, 0, k
  {
    if k == 0 then NoBounds
    else Plus(SumFields(v, t, k - 1), BoundsTForT(v, t.fields[k - 1]))
  }

  // How many bounds objects a type needs.
  function Count(v: bool, t: Type): nat
    requires Complete(t)
  {
    AsNumber(BoundsTForT(v, t))
  }

  function CountFields(v: bool, t: Type, k: nat): nat
    requires Complete(t) && t.Struct? && k <= |t.fields|
  {
    AsNumber(SumFields(v, t, k))
  }

  lemma CountArray(v: bool, e: Type, n: nat)
    requires Complete(e)
    ensures Count(v, Array(e, Some(n))) == n * Count(v, e)
  {
  }

  lemma CountField(v: bool, t: Type, k: nat)
    requires Complete(t) && t.Struct? && k < |t.fields|
    ensures CountFields(v, t, k + 1) == CountFields(v, t, k) + Count(v, t.fields[k])
  {
  }

  lemma {:induction false} CountFieldsMonotone(v: bool, t: Type, j: nat, k: nat)
    requires Complete(t) && t.Struct? && j <= k <= |t.fields|
    ensures CountFields(v, t, j) <= CountFields(v, t, k)
    decreases k
  {
    if j == k {
    } else {
      CountFieldsMonotone(v, t, j, k - 1);
      CountField(v, t, k - 1);
    }
  }

  function Canonical(n: nat): BoundsT {
    if n == 0 then NoBounds else if n == 1 then Single else Several(n)
  }

  // An array of none of something with pointers, perhaps in further arrays.
  predicate EmptyBounds(v: bool, t: Type)
    requires Complete(t)
  {
    match t
    case Array(e, b) => (b.value == 0 && Count(v, e) > 0) || EmptyBounds(v, e)
    case Named(a) => EmptyBounds(v, a)
    case _ => false
  }

  // The number of bounds objects decides the form, but for such arrays, which have an
  // array of none.
  lemma {:induction false} FormExact(v: bool, t: Type)
    requires Complete(t)
    ensures BoundsTForT(v, t) == if EmptyBounds(v, t) then Several(0) else Canonical(Count(v, t))
    decreases t, 1, 0
  {
    match t
    case Scalar =>
    case Pointer(_) =>
    case Array(e, b) =>
      FormExact(v, e);
      TimesForm(BoundsTForT(v, e), b.value);
    case Struct(fs) => SumForm(v, t, |fs|);
    case Named(a) => FormExact(v, a);
  }

  lemma {:induction false} SumForm(v: bool, t: Type, k: nat)
    requires Complete(t) && t.Struct? && k <= |t.fields|
    ensures SumFields(v, t, k) == Canonical(CountFields(v, t, k))
    decreases t, 0, k
  {
    if k == 0 {
    } else {
      SumForm(v, t, k - 1);
      FormExact(v, t.fields[k - 1]);
    }
  }

  lemma TimesForm(b: BoundsT, n: nat)
    requires b == Canonical(AsNumber(b)) || b == Several(0)
    ensures TimesN(b, n) ==
      if b == Several(0) || (n == 0 && b != NoBounds) then Several(0) else Canonical(AsNumber(TimesN(b, n)))
  {
    if b.Several? && b.n > 1 && n > 0 {
      Mono(1, n, b.n);
    }
  }

  // ----- the index of an offset -----

  // An offset that is well-typed for t.
  predicate Fits(t: Type, off: Offset)
    decreases off, t
  {
    if t.Named? then Fits(t.actual, off)
    else
      match off
      case NoOffset => true
      case Field(k, next) => t.Struct? && k < |t.fields| && Fits(t.fields[k], next)
      case Index(_, next) => t.Array? && Fits(t.elem, next)
  }

  // The number that the expression built by boundsIndexExprForOffset evaluates to.
  function BoundsIndex(v: bool, start: int, t: Type, off: Offset): int
    requires Complete(t) && Fits(t, off)
    decreases off, t
  {
    if t.Named? then BoundsIndex(v, start, t.actual, off)
    else
      match off
      case NoOffset => start
      case Field(k, next) => BoundsIndex(v, start + CountFields(v, t, k), t.fields[k], next)
      case Index(i, next) => BoundsIndex(v, start, t.elem, next) + i * Count(v, t.elem)
  }

  // An in-range offset that leads to a pointer with bounds.
  predicate YieldsPointer(v: bool, t: Type, off: Offset)
    decreases off, t
  {
    if t.Named? then YieldsPointer(v, t.actual, off)
    else
      match off
      case NoOffset => t.Pointer? && (v || !t.toVoid)
      case Field(k, next) => t.Struct? && k < |t.fields| && YieldsPointer(v, t.fields[k], next)
      case Index(i, next) => t.Array? && t.bound.Some? && 0 <= i < t.bound.value && YieldsPointer(v, t.elem, next)
  }

  lemma {:induction false} YieldsFits(v: bool, t: Type, off: Offset)
    requires YieldsPointer(v, t, off)
    ensures Fits(t, off)
    decreases off, t
  {
    if t.Named? {
      YieldsFits(v, t.actual, off);
    } else if off.Field? {
      YieldsFits(v, t.fields[off.field], off.next);
    } else if off.Index? {
      YieldsFits(v, t.elem, off.next);
    }
  }

  // The start is only added in.
  lemma {:induction false} IndexStart(v: bool, start: int, t: Type, off: Offset)
    requires Complete(t) && Fits(t, off)
    ensures BoundsIndex(v, start, t, off) == start + BoundsIndex(v, 0, t, off)
    decreases off, t
  {
    if t.Named? {
      IndexStart(v, start, t.actual, off);
    } else if off.Field? {
      var c := CountFields(v, t, off.field);
      IndexStart(v, start + c, t.fields[off.field], off.next);
      IndexStart(v, c, t.fields[off.field], off.next);
    } else if off.Index? {
      IndexStart(v, start, t.elem, off.next);
    }
  }

  // The index of a pointer inside t, counted from the first.
  function IndexOf(v: bool, t: Type, off: Offset): int
    requires Complete(t) && YieldsPointer(v, t, off)
  {
    YieldsFits(v, t, off);
    BoundsIndex(v, 0, t, off)
  }

  lemma IndexOfField(v: bool, t: Type, k: nat, off: Offset)
    requires Complete(t) && t.Struct? && k < |t.fields| && YieldsPointer(v, t.fields[k], off)
    ensures IndexOf(v, t, Field(k, off)) == CountFields(v, t, k) + IndexOf(v, t.fields[k], off)
  {
    YieldsFits(v, t.fields[k], off);
    IndexStart(v, CountFields(v, t, k), t.fields[k], off);
  }

  lemma IndexOfElement(v: bool, e: Type, n: nat, i: nat, off: Offset)
    requires Complete(e) && i < n && YieldsPointer(v, e, off)
    ensures IndexOf(v, Array(e, Some(n)), Index(i, off)) == IndexOf(v, e, off) + i * Count(v, e)
  {
    YieldsFits(v, e, off);
  }

  // ----- mixed-radix arithmetic -----

  lemma Position(k: nat, n: nat, c: nat)
    requires k < n * c
    ensures c > 0 && 0 <= k / c < n && 0 <= k % c < c && k == (k / c) * c + k % c
  {
    assert k == c * (k / c) + k % c;
    if k / c >= n {
      Mono(n, k / c, c);
    }
  }

  lemma DigitsBound(i: nat, r: nat, n: nat, c: nat)
    requires i < n && r < c
    ensures 0 <= r + i * c < n * c
  {
    Mono(i + 1, n, c);
    assert (i + 1) * c == i * c + c;
  }

  // A number has one pair of digits.
  lemma DigitsUnique(i: nat, r: nat, j: nat, s: nat, c: nat)
    requires r < c && s < c && r + i * c == s + j * c
    ensures i == j && r == s
  {
    assert (i + 1) * c == i * c + c && (j + 1) * c == j * c + c;
    if i < j {
      Mono(i + 1, j, c);
    } else if j < i {
      Mono(j + 1, i, c);
    }
  }

  // ----- indices are a bijection -----

  // Every pointer inside t has an index below the count.
  lemma {:induction false} IndexInRange(v: bool, t: Type, off: Offset)
    requires Complete(t) && YieldsPointer(v, t, off)
    ensures 0 <= IndexOf(v, t, off) < Count(v, t)
    decreases off, t
  {
    if t.Named? {
      IndexInRange(v, t.actual, off);
    } else if off.Field? {
      var k := off.field;
      IndexInRange(v, t.fields[k], off.next);
      IndexOfField(v, t, k, off.next);
      CountField(v, t, k);
      CountFieldsMonotone(v, t, k + 1, |t.fields|);
    } else if off.Index? {
      IndexInRange(v, t.elem, off.next);
      IndexOfElement(v, t.elem, t.bound.value, off.i, off.next);
      CountArray(v, t.elem, t.bound.value);
      DigitsBound(off.i, IndexOf(v, t.elem, off.next), t.bound.value, Count(v, t.elem));
    }
  }

  // Two pointers inside t with the same index are the same.
  lemma {:induction false} IndexInjective(v: bool, t: Type, o: Offset, p: Offset)
    requires Complete(t) && YieldsPointer(v, t, o) && YieldsPointer(v, t, p)
    requires IndexOf(v, t, o) == IndexOf(v, t, p)
    ensures o == p
    decreases o, t
  {
    if t.Named? {
      IndexInjective(v, t.actual, o, p);
    } else if o.Field? {
      FieldInjective(v, t, o, p);
      IndexInjective(v, t.fields[o.field], o.next, p.next);
    } else if o.Index? {
      ElementInjective(v, t, o, p);
      IndexInjective(v, t.elem, o.next, p.next);
    }
  }

  // Equal indices lie in the same field, at the same index inside it.
  lemma FieldInjective(v: bool, t: Type, o: Offset, p: Offset)
    requires Complete(t) && t.Struct? && o.Field? && YieldsPointer(v, t, o) && YieldsPointer(v, t, p)
    requires IndexOf(v, t, o) == IndexOf(v, t, p)
    ensures p.Field? && o.field == p.field
    ensures IndexOf(v, t.fields[o.field], o.next) == IndexOf(v, t.fields[p.field], p.next)
  {
    FieldRange(v, t, o.field, o.next);
    FieldRange(v, t, p.field, p.next);
    if o.field < p.field {
      CountFieldsMonotone(v, t, o.field + 1, p.field);
    } else if p.field < o.field {
      CountFieldsMonotone(v, t, p.field + 1, o.field);
    }
  }

  lemma FieldRange(v: bool, t: Type, k: nat, off: Offset)
    requires Complete(t) && t.Struct? && k < |t.fields| && YieldsPointer(v, t.fields[k], off)
    ensures IndexOf(v, t, Field(k, off)) == CountFields(v, t, k) + IndexOf(v, t.fields[k], off)
    ensures CountFields(v, t, k) <= IndexOf(v, t, Field(k, off)) < CountFields(v, t, k + 1)
  {
    IndexInRange(v, t.fields[k], off);
    IndexOfField(v, t, k, off);
    CountField(v, t, k);
  }

  lemma ElementInjective(v: bool, t: Type, o: Offset, p: Offset)
    requires Complete(t) && t.Array? && o.Index? && YieldsPointer(v, t, o) && YieldsPointer(v, t, p)
    requires IndexOf(v, t, o) == IndexOf(v, t, p)
    ensures p.Index? && o.i == p.i && IndexOf(v, t.elem, o.next) == IndexOf(v, t.elem, p.next)
  {
    IndexInRange(v, t.elem, o.next);
    IndexInRange(v, t.elem, p.next);
    IndexOfElement(v, t.elem, t.bound.value, o.i, o.next);
    IndexOfElement(v, t.elem, t.bound.value, p.i, p.next);
    DigitsUnique(o.i, IndexOf(v, t.elem, o.next), p.i, IndexOf(v, t.elem, p.next), Count(v, t.elem));
  }

  // The field that holds the pointer with index k.
  function FieldOf(v: bool, t: Type, m: nat, k: nat): (f: nat)
    requires Complete(t) && t.Struct? && m <= |t.fields| && k < CountFields(v, t, m)
    ensures f < m && CountFields(v, t, f) <= k < CountFields(v, t, f + 1)
  {
    if k < CountFields(v, t, m - 1) then FieldOf(v, t, m - 1, k) else m - 1
  }

  // The pointer with index k: the inverse of IndexOf.
  function OffsetAt(v: bool, t: Type, k: nat): Offset
    requires Complete(t) && k < Count(v, t)
    decreases t
  {
    match t
    case Pointer(_) => NoOffset
    case Array(e, b) =>
      CountArray(v, e, b.value);
      Position(k, b.value, Count(v, e));
      Index(k / Count(v, e), OffsetAt(v, e, k % Count(v, e)))
    case Struct(fs) =>
      var f := FieldOf(v, t, |fs|, k);
      CountField(v, t, f);
      Field(f, OffsetAt(v, fs[f], k - CountFields(v, t, f)))
    case Named(a) => OffsetAt(v, a, k)
  }

  // Every index below the count is the index of a pointer inside t.
  lemma {:induction false} IndexSurjective(v: bool, t: Type, k: nat)
    requires Complete(t) && k < Count(v, t)
    ensures YieldsPointer(v, t, OffsetAt(v, t, k)) && IndexOf(v, t, OffsetAt(v, t, k)) == k
    decreases t
  {
    match t
    case Pointer(_) =>
    case Array(e, b) =>
      var c := Count(v, e);
      CountArray(v, e, b.value);
      Position(k, b.value, c);
      IndexSurjective(v, e, k % c);
      IndexOfElement(v, e, b.value, k / c, OffsetAt(v, e, k % c));
    case Struct(fs) =>
      var f := FieldOf(v, t, |fs|, k);
      CountField(v, t, f);
      var r := k - CountFields(v, t, f);
      IndexSurjective(v, fs[f], r);
      IndexOfField(v, t, f, OffsetAt(v, fs[f], r));
    case Named(a) => IndexSurjective(v, a, k);
  }

  lemma OffsetAtIndexOf(v: bool, t: Type, off: Offset)
    requires Complete(t) && YieldsPointer(v, t, off)
    ensures 0 <= IndexOf(v, t, off) < Count(v, t) && OffsetAt(v, t, IndexOf(v, t, off)) == off
  {
    IndexInRange(v, t, off);
    IndexSurjective(v, t, IndexOf(v, t, off));
    IndexInjective(v, t, off, OffsetAt(v, t, IndexOf(v, t, off)));
  }

  // ----- the bounds of a local -----

  // boundsLvalForLocalLval: which of the bounds objects of a local is used for a
  // pointer inside it. None where the source would not have made any.
  function LocalSlot(v: bool, t: Type, off: Offset): Option<int>
    requires Complete(t) && Fits(t, off)
  {
    match BoundsTForT(v, t)
    case Several(_) => Some(BoundsIndex(v, 0, t, off))
    case Single => Some(0)
    case NoBounds => None
  }

  // Different pointers inside a local have different bounds objects, all of
  // which exist; no bounds object is wasted.
  lemma LocalSlots(v: bool, t: Type, o: Offset, p: Offset)
    requires Complete(t) && YieldsPointer(v, t, o) && YieldsPointer(v, t, p)
    ensures Fits(t, o) && Fits(t, p)
    ensures LocalSlot(v, t, o).Some? && 0 <= LocalSlot(v, t, o).value < Count(v, t)
    ensures LocalSlot(v, t, o) == LocalSlot(v, t, p) <==> o == p
  {
    YieldsFits(v, t, o);
    YieldsFits(v, t, p);
    SlotIsIndex(v, t, o);
    SlotIsIndex(v, t, p);
    if LocalSlot(v, t, o) == LocalSlot(v, t, p) {
      IndexInjective(v, t, o, p);
    }
  }

  // Ignoring the index expression when there is a single bounds object is
  // sound, because its value is 0 then.
  lemma SlotIsIndex(v: bool, t: Type, off: Offset)
    requires Complete(t) && YieldsPointer(v, t, off)
    ensures Fits(t, off)
    ensures 0 <= IndexOf(v, t, off) < Count(v, t)
    ensures LocalSlot(v, t, off) == Some(IndexOf(v, t, off))
  {
    YieldsFits(v, t, off);
    IndexInRange(v, t, off);
  }

  // ----- the enumeration -----

  // Each offset prefixed by every index below n.
  function ByElement(offs: seq<Offset>, n: nat): seq<Offset> {
    if offs == [] then [] else seq(n, i requires 0 <= i => Index(i, offs[0])) + ByElement(offs[1..], n)
  }

  function InField(k: nat, offs: seq<Offset>): seq<Offset> {
    seq(|offs|, j requires 0 <= j < |offs| => Field(k, offs[j]))
  }

  // enumeratePointerYieldingOffsetsForT.
  function Enumerate(v: bool, t: Type): seq<Offset>
    requires Complete(t)
    decreases t, 1, 0
  {
    match t
    case Scalar => []
    case Pointer(toVoid) => if toVoid && !v then [] else [NoOffset]
    case Array(e, b) => ByElement(Enumerate(v, e), b.value)
    case Struct(fs) => EnumerateFields(v, t, |fs|)
    case Named(a) => Enumerate(v, a)
  }

  function EnumerateFields(v: bool, t: Type, k: nat): seq<Offset>
    requires Complete(t) && t.Struct? && k <= |t.fields|
    decreases t, 0, k
  {
    if k == 0 then []
    else EnumerateFields(v, t, k - 1) + InField(k - 1, Enumerate(v, t.fields[k - 1]))
  }

  lemma {:induction false} ByElementLength(offs: seq<Offset>, n: nat)
    ensures |ByElement(offs, n)| == |offs| * n
  {
    if offs == [] {
    } else {
      ByElementLength(offs[1..], n);
      assert |offs| * n == n + (|offs| - 1) * n;
    }
  }

  lemma {:induction false} ByElementAt(offs: seq<Offset>, n: nat, j: nat, i: nat)
    requires j < |offs| && i < n
    ensures 0 <= i + j * n < |ByElement(offs, n)|
    ensures ByElement(offs, n)[i + j * n] == Index(i, offs[j])
    decreases j
  {
    ByElementLength(offs, n);
    DigitsBound(j, i, |offs|, n);
    if j > 0 {
      ByElementAt(offs[1..], n, j - 1, i);
      assert i + j * n == n + (i + (j - 1) * n);
    } else {
      assert i + j * n == i;
    }
  }

  // One entry per bounds object.
  lemma {:induction false} EnumerateLength(v: bool, t: Type)
    requires Complete(t)
    ensures |Enumerate(v, t)| == Count(v, t)
    decreases t, 1, 0
  {
    match t
    case Scalar =>
    case Pointer(_) =>
    case Array(e, b) =>
      EnumerateLength(v, e);
      ByElementLength(Enumerate(v, e), b.value);
      CountArray(v, e, b.value);
    case Struct(fs) => EnumerateFieldsLength(v, t, |fs|);
    case Named(a) => EnumerateLength(v, a);
  }

  lemma {:induction false} EnumerateFieldsLength(v: bool, t: Type, k: nat)
    requires Complete(t) && t.Struct? && k <= |t.fields|
    ensures |EnumerateFields(v, t, k)| == CountFields(v, t, k)
    decreases t, 0, k
  {
    if k == 0 {
    } else {
      EnumerateFieldsLength(v, t, k - 1);
      EnumerateLength(v, t.fields[k - 1]);
      CountField(v, t, k - 1);
    }
  }

  // The entries for field f stand at the positions that its bounds have.
  lemma {:induction false} EnumerateField(v: bool, t: Type, k: nat, f: nat, j: nat)
    requires Complete(t) && t.Struct? && f < k <= |t.fields| && j < Count(v, t.fields[f])
    ensures CountFields(v, t, f) + j < |EnumerateFields(v, t, k)|
    ensures j < |Enumerate(v, t.fields[f])|
    ensures EnumerateFields(v, t, k)[CountFields(v, t, f) + j] == Field(f, Enumerate(v, t.fields[f])[j])
    decreases k
  {
    EnumerateLength(v, t.fields[f]);
    EnumerateFieldsLength(v, t, k - 1);
    if f == k - 1 {
    } else {
      EnumerateField(v, t, k - 1, f, j);
    }
  }

  // The entry of an array at position p.
  lemma ArrayEntry(v: bool, e: Type, n: nat, p: nat)
    requires Complete(e) && p < Count(v, Array(e, Some(n)))
    ensures n > 0 && 0 <= p / n < Count(v, e) && 0 <= p % n < n && p == p % n + p / n * n
    ensures p < |Enumerate(v, Array(e, Some(n)))| && p / n < |Enumerate(v, e)|
    ensures Enumerate(v, Array(e, Some(n)))[p] == Index(p % n, Enumerate(v, e)[p / n])
  {
    CountArray(v, e, n);
    Position(p, Count(v, e), n);
    EnumerateLength(v, e);
    ByElementAt(Enumerate(v, e), n, p / n, p % n);
  }

  // Each entry yields a pointer.
  lemma {:induction false} EntryYields(v: bool, t: Type, p: nat)
    requires Complete(t) && p < Count(v, t)
    ensures p < |Enumerate(v, t)| && YieldsPointer(v, t, Enumerate(v, t)[p])
    decreases t
  {
    EnumerateLength(v, t);
    match t
    case Scalar =>
    case Pointer(_) =>
    case Array(e, b) =>
      ArrayEntry(v, e, b.value, p);
      EntryYields(v, e, p / b.value);
    case Struct(fs) =>
      var f := FieldOf(v, t, |fs|, p);
      CountField(v, t, f);
      EntryYields(v, fs[f], p - CountFields(v, t, f));
      EnumerateField(v, t, |fs|, f, p - CountFields(v, t, f));
    case Named(a) => EntryYields(v, a, p);
  }

  // The index of the entry at position p, computed from the position alone.
  function IndexAt(v: bool, t: Type, p: nat): int
    requires Complete(t) && p < Count(v, t)
    decreases t
  {
    match t
    case Pointer(_) => 0
    case Array(e, b) =>
      CountArray(v, e, b.value);
      Position(p, Count(v, e), b.value);
      IndexAt(v, e, p / b.value) + (p % b.value) * Count(v, e)
    case Struct(fs) =>
      var f := FieldOf(v, t, |fs|, p);
      CountField(v, t, f);
      CountFields(v, t, f) + IndexAt(v, fs[f], p - CountFields(v, t, f))
    case Named(a) => IndexAt(v, a, p)
  }

  lemma ArrayEntryIndex(v: bool, e: Type, n: nat, p: nat, off: Offset)
    requires Complete(e) && p < Count(v, Array(e, Some(n)))
    requires n > 0 && p / n < Count(v, e) && YieldsPointer(v, e, off) && IndexOf(v, e, off) == IndexAt(v, e, p / n)
    ensures YieldsPointer(v, Array(e, Some(n)), Index(p % n, off))
    ensures IndexOf(v, Array(e, Some(n)), Index(p % n, off)) == IndexAt(v, Array(e, Some(n)), p)
  {
    hide IndexOf, Count;
    IndexOfElement(v, e, n, p % n, off);
  }

  lemma FieldEntryIndex(v: bool, t: Type, p: nat, f: nat, r: nat, off: Offset)
    requires Complete(t) && t.Struct? && p < Count(v, t) && f == FieldOf(v, t, |t.fields|, p)
    requires r == p - CountFields(v, t, f) && r < Count(v, t.fields[f])
    requires YieldsPointer(v, t.fields[f], off) && IndexOf(v, t.fields[f], off) == IndexAt(v, t.fields[f], r)
    ensures YieldsPointer(v, t, Field(f, off))
    ensures IndexOf(v, t, Field(f, off)) == IndexAt(v, t, p)
  {
    hide IndexOf, FieldOf, Count, CountFields;
    IndexOfField(v, t, f, off);
  }

  // The enumeration walks an array pointer by pointer and within that element by
  // element; the index runs element by element. IndexAt is the permutation
  // between the two orders.
  lemma {:induction false} EntryIndex(v: bool, t: Type, p: nat)
    requires Complete(t) && p < Count(v, t)
    ensures p < |Enumerate(v, t)| && YieldsPointer(v, t, Enumerate(v, t)[p])
    ensures IndexOf(v, t, Enumerate(v, t)[p]) == IndexAt(v, t, p)
    decreases t
  {
    EnumerateLength(v, t);
    match t
    case Pointer(_) =>
    case Array(e, b) =>
      hide *;
      var n := b.value;
      ArrayEntry(v, e, n, p);
      EntryIndex(v, e, p / n);
      ArrayEntryIndex(v, e, n, p, Enumerate(v, e)[p / n]);
    case Struct(fs) =>
      hide YieldsPointer, IndexOf, FieldOf, IndexAt;
      var f := FieldOf(v, t, |fs|, p);
      CountField(v, t, f);
      var r := p - CountFields(v, t, f);
      EntryIndex(v, fs[f], r);
      EnumerateField(v, t, |fs|, f, r);
      FieldEntryIndex(v, t, p, f, r, Enumerate(v, fs[f])[r]);
    case Named(a) => EntryIndex(v, a, p);
  }

  // The position of a pointer in the enumeration.
  function PositionOf(v: bool, t: Type, off: Offset): (p: nat)
    requires Complete(t) && YieldsPointer(v, t, off)
    ensures p < Count(v, t)
    decreases off, t
  {
    if t.Named? then PositionOf(v, t.actual, off)
    else
      match off
      case NoOffset => 0
      case Field(k, next) =>
        CountField(v, t, k);
        CountFieldsMonotone(v, t, k + 1, |t.fields|);
        CountFields(v, t, k) + PositionOf(v, t.fields[k], next)
      case Index(i, next) =>
        CountArray(v, t.elem, t.bound.value);
        DigitsBound(PositionOf(v, t.elem, next), i, Count(v, t.elem), t.bound.value);
        i + PositionOf(v, t.elem, next) * t.bound.value
  }

  // No pointer is left out.
  lemma {:induction false} EntryAtPosition(v: bool, t: Type, off: Offset)
    requires Complete(t) && YieldsPointer(v, t, off)
    ensures PositionOf(v, t, off) < |Enumerate(v, t)|
    ensures Enumerate(v, t)[PositionOf(v, t, off)] == off
    decreases off, t
  {
    EnumerateLength(v, t);
    if t.Named? {
      EntryAtPosition(v, t.actual, off);
    } else if off.Field? {
      EntryAtPosition(v, t.fields[off.field], off.next);
      EnumerateField(v, t, |t.fields|, off.field, PositionOf(v, t.fields[off.field], off.next));
    } else if off.Index? {
      EntryAtPosition(v, t.elem, off.next);
      ByElementAt(Enumerate(v, t.elem), t.bound.value, PositionOf(v, t.elem, off.next), off.i);
    }
  }

  // No pointer is listed twice.
  lemma {:induction false} PositionOfEntry(v: bool, t: Type, p: nat)
    requires Complete(t) && p < Count(v, t)
    ensures p < |Enumerate(v, t)| && YieldsPointer(v, t, Enumerate(v, t)[p])
    ensures PositionOf(v, t, Enumerate(v, t)[p]) == p
    decreases t
  {
    EnumerateLength(v, t);
    EntryYields(v, t, p);
    match t
    case Pointer(_) =>
    case Array(e, b) =>
      ArrayEntry(v, e, b.value, p);
      PositionOfEntry(v, e, p / b.value);
    case Struct(fs) =>
      var f := FieldOf(v, t, |fs|, p);
      CountField(v, t, f);
      var r := p - CountFields(v, t, f);
      PositionOfEntry(v, fs[f], r);
      EnumerateField(v, t, |fs|, f, r);
    case Named(a) => PositionOfEntry(v, a, p);
  }

  // The enumeration lists exactly the pointers inside t, each once, as many as
  // there are bounds objects.
  lemma EnumeratesOnce(v: bool, t: Type)
    requires Complete(t)
    ensures |Enumerate(v, t)| == Count(v, t)
    ensures forall off :: off in Enumerate(v, t) <==> YieldsPointer(v, t, off)
    ensures forall p, q :: 0 <= p < q < |Enumerate(v, t)| ==> Enumerate(v, t)[p] != Enumerate(v, t)[q]
  {
    EnumerateLength(v, t);
    forall off ensures off in Enumerate(v, t) <==> YieldsPointer(v, t, off) {
      if YieldsPointer(v, t, off) {
        EntryAtPosition(v, t, off);
      }
      if off in Enumerate(v, t) {
        var p :| 0 <= p < |Enumerate(v, t)| && Enumerate(v, t)[p] == off;
        EntryYields(v, t, p);
      }
    }
    forall p, q | 0 <= p < q < |Enumerate(v, t)| ensures Enumerate(v, t)[p] != Enumerate(v, t)[q] {
      PositionOfEntry(v, t, p);
      PositionOfEntry(v, t, q);
    }
  }

  // IndexAt permutes the positions.
  lemma IndexAtPermutes(v: bool, t: Type)
    requires Complete(t)
    ensures forall p | 0 <= p < Count(v, t) :: 0 <= IndexAt(v, t, p) < Count(v, t)
    ensures forall p, q | 0 <= p < Count(v, t) && 0 <= q < Count(v, t) ::
      IndexAt(v, t, p) == IndexAt(v, t, q) ==> p == q
  {
    forall p | 0 <= p < Count(v, t) ensures 0 <= IndexAt(v, t, p) < Count(v, t) {
      EntryIndex(v, t, p);
      IndexInRange(v, t, Enumerate(v, t)[p]);
    }
    forall p, q | 0 <= p < Count(v, t) && 0 <= q < Count(v, t) && IndexAt(v, t, p) == IndexAt(v, t, q)
      ensures p == q
    {
      EntryIndex(v, t, p);
      EntryIndex(v, t, q);
      IndexInjective(v, t, Enumerate(v, t)[p], Enumerate(v, t)[q]);
      PositionOfEntry(v, t, p);
      PositionOfEntry(v, t, q);
    }
  }

  // ----- when the two orders agree -----

  ghost predicate Agrees(v: bool, t: Type)
    requires Complete(t)
  {
    forall p | 0 <= p < Count(v, t) :: IndexAt(v, t, p) == p
  }

  // No array of two or more elements, reached without passing an array of
  // none, has an element with two or more pointers.
  predicate Aligned(v: bool, t: Type)
    requires Complete(t)
  {
    match t
    case Scalar => true
    case Pointer(_) => true
    case Array(e, b) => b.value == 0 || Count(v, e) <= 1 || (b.value == 1 && Aligned(v, e))
    case Struct(fs) => forall f <- fs :: Aligned(v, f)
    case Named(a) => Aligned(v, a)
  }

  // The enumeration order is the index order on exactly the aligned types.
  lemma {:induction false} AgreesIffAligned(v: bool, t: Type)
    requires Complete(t)
    ensures Agrees(v, t) <==> Aligned(v, t)
    decreases t
  {
    match t
    case Scalar =>
    case Pointer(_) =>
    case Array(e, b) => ArrayAgrees(v, e, b.value); AgreesIffAligned(v, e);
    case Struct(fs) =>
      forall f | 0 <= f < |fs| ensures Agrees(v, fs[f]) <==> Aligned(v, fs[f]) {
        AgreesIffAligned(v, fs[f]);
      }
      StructAgrees(v, t);
    case Named(a) =>
      AgreesIffAligned(v, a);
      assert forall p | 0 <= p < Count(v, a) :: IndexAt(v, t, p) == IndexAt(v, a, p);
  }

  lemma ArrayAgrees(v: bool, e: Type, n: nat)
    requires Complete(e)
    ensures Agrees(v, Array(e, Some(n))) <==> n == 0 || Count(v, e) <= 1 || (n == 1 && Agrees(v, e))
  {
    var t, c := Array(e, Some(n)), Count(v, e);
    CountArray(v, e, n);
    if n == 0 || c == 0 {
    } else if c == 1 {
      NarrowAgrees(v, e, n);
    } else if n == 1 {
      forall p | 0 <= p < c ensures IndexAt(v, t, p) == IndexAt(v, e, p) {
        assert p / 1 == p && p % 1 == 0;
      }
    } else {
      WideDisagrees(v, e, n);
    }
  }

  // One pointer per element: both orders are the order of the elements.
  lemma NarrowAgrees(v: bool, e: Type, n: nat)
    requires Complete(e) && Count(v, e) == 1
    ensures Agrees(v, Array(e, Some(n)))
  {
    var t := Array(e, Some(n));
    CountArray(v, e, n);
    IndexAtPermutes(v, e);
    forall p | 0 <= p < Count(v, t) ensures IndexAt(v, t, p) == p {
      assert p / n == 0 && p % n == p;
    }
  }

  // Position 1 is element 1 of the first pointer, whose index is at least the
  // number of pointers in element 0.
  lemma WideDisagrees(v: bool, e: Type, n: nat)
    requires Complete(e) && n >= 2 && Count(v, e) >= 2
    ensures 1 < Count(v, Array(e, Some(n)))
    ensures IndexAt(v, Array(e, Some(n)), 1) == IndexAt(v, e, 0) + Count(v, e) >= 2
  {
    hide BoundsTForT, IndexAt;
    CountArray(v, e, n);
    Mono(1, n, Count(v, e));
    IndexAtPermutes(v, e);
    OneBelow(n);
    SecondIndex(v, e, n);
  }

  lemma OneBelow(n: nat)
    requires n >= 2
    ensures 1 / n == 0 && 1 % n == 1
  {
  }

  lemma SecondIndex(v: bool, e: Type, n: nat)
    requires Complete(e) && n >= 2 && Count(v, e) > 0 && 1 < Count(v, Array(e, Some(n))) && 1 / n == 0 && 1 % n == 1
    ensures IndexAt(v, Array(e, Some(n)), 1) == IndexAt(v, e, 0) + Count(v, e)
  {
    hide Count;
  }

  lemma StructAgrees(v: bool, t: Type)
    requires Complete(t) && t.Struct?
    ensures Agrees(v, t) <==> forall f | 0 <= f < |t.fields| :: Agrees(v, t.fields[f])
  {
    if forall f | 0 <= f < |t.fields| :: Agrees(v, t.fields[f]) {
      forall p | 0 <= p < Count(v, t) ensures IndexAt(v, t, p) == p {
        var f := FieldOf(v, t, |t.fields|, p);
        CountField(v, t, f);
        assert Agrees(v, t.fields[f]);
      }
    }
    if Agrees(v, t) {
      forall f | 0 <= f < |t.fields| ensures Agrees(v, t.fields[f]) {
        FieldAgrees(v, t, f);
      }
    }
  }

  lemma FieldAgrees(v: bool, t: Type, f: nat)
    requires Complete(t) && t.Struct? && f < |t.fields| && Agrees(v, t)
    ensures Agrees(v, t.fields[f])
  {
    forall r | 0 <= r < Count(v, t.fields[f]) ensures IndexAt(v, t.fields[f], r) == r {
      var p := CountFields(v, t, f) + r;
      CountField(v, t, f);
      CountFieldsMonotone(v, t, f + 1, |t.fields|);
      FieldOfUnique(v, t, |t.fields|, p, f);
      assert IndexAt(v, t, p) == p;
    }
  }

  lemma {:induction false} FieldOfUnique(v: bool, t: Type, m: nat, k: nat, f: nat)
    requires Complete(t) && t.Struct? && f < m <= |t.fields|
    requires CountFields(v, t, f) <= k < CountFields(v, t, f + 1) <= CountFields(v, t, m)
    ensures FieldOf(v, t, m, k) == f
  {
    var g := FieldOf(v, t, m, k);
    if f < g {
      CountFieldsMonotone(v, t, f + 1, g);
    } else if g < f {
      CountFieldsMonotone(v, t, g + 1, f);
    }
  }

  // In terms of the two functions of the source: the k-th listed pointer has
  // index k for every k exactly when the type is aligned.
  lemma PositionIsIndex(v: bool, t: Type)
    requires Complete(t)
    ensures Aligned(v, t) <==> forall off | YieldsPointer(v, t, off) :: IndexOf(v, t, off) == PositionOf(v, t, off)
  {
    AgreesIffAligned(v, t);
    forall off | YieldsPointer(v, t, off) ensures IndexOf(v, t, off) == IndexAt(v, t, PositionOf(v, t, off)) {
      EntryAtPosition(v, t, off);
      EntryIndex(v, t, PositionOf(v, t, off));
    }
    if forall off | YieldsPointer(v, t, off) :: IndexOf(v, t, off) == PositionOf(v, t, off) {
      forall p | 0 <= p < Count(v, t) ensures IndexAt(v, t, p) == p {
        PositionOfEntry(v, t, p);
        EntryIndex(v, t, p);
        assert YieldsPointer(v, t, Enumerate(v, t)[p]);
      }
    }
  }

  // struct { int *a; int *b; } x[2]: x[1].a is listed second but has index 2.
  lemma WideExample()
    ensures
      var t := Array(Struct([Pointer(false), Pointer(false)]), Some(2));
      var off := Index(1, Field(0, NoOffset));
      Complete(t) && YieldsPointer(false, t, off) && PositionOf(false, t, off) == 1 && IndexOf(false, t, off) == 2
  {
    var s := Struct([Pointer(false), Pointer(false)]);
    var t := Array(s, Some(2));
    assert Complete(Pointer(false));
    assert Complete(s);
    CountField(false, s, 0);
    CountField(false, s, 1);
    assert YieldsPointer(false, s, Field(0, NoOffset));
    IndexOfField(false, s, 0, NoOffset);
    IndexOfElement(false, s, 2, 1, Field(0, NoOffset));
  }
}
