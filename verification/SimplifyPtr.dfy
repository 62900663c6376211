// simplifyPtrExprs of shadow.ml: seeing through dereferences of addresses and
// addresses of dereferences.
module SimplifyPtr {
  import opened Arithmetic
  import opened MachineWord
  import opened Cil

  function Append(a: Offset, b: Offset): Offset
    decreases a
  {
    match a
    case NoOffset => b
    case Field(k, rest) => Field(k, Append(rest, b))
    case Index(i, rest) => Index(i, Append(rest, b))
  }

  function Simplify(e: Exp): Exp
    decreases e
  {
    match e
    case Const(_, _) => e
    case Lval(lv) => Top(Lval(Lv(SimplifyHost(lv.host), SimplifyOffset(lv.off))))
    case UnOp(op, x, t) => UnOp(op, Simplify(x), t)
    case BinOp(op, x, y, t) => BinOp(op, Simplify(x), Simplify(y), t)
    case CastE(t, x) => Top(if t == TypeOf(Simplify(x)) then Simplify(x) else CastE(t, Simplify(x)))
    case AddrOf(lv) => Top(AddrOf(Lv(SimplifyHost(lv.host), SimplifyOffset(lv.off))))
    case StartOf(Lv(Var(id, t), off)) => StartOf(Lv(Var(id, t), SimplifyOffset(off)))
    // Here the offset is left as it is.
    case StartOf(Lv(Mem(x), off)) => Top(StartOf(Lv(Mem(Simplify(x)), off)))
  }

  function SimplifyHost(h: Host): Host
    decreases h
  {
    match h
    case Var(_, _) => h
    case Mem(e) => Mem(Simplify(e))
  }

  function SimplifyOffset(off: Offset): Offset
    decreases off
  {
    match off
    case NoOffset => NoOffset
    case Field(k, rest) => Field(k, SimplifyOffset(rest))
    case Index(i, rest) => Index(Simplify(i), SimplifyOffset(rest))
  }

  // The equivalences at the root, for an expression whose parts are simplified.
  function Top(e: Exp): Exp {
    match e
    case Lval(Lv(Mem(AddrOf(Lv(h, aoff))), off)) => Lval(Lv(h, Append(aoff, off)))
    case AddrOf(Lv(Mem(a), NoOffset)) => a
    case StartOf(Lv(Mem(s), NoOffset)) => s
    case _ => e
  }

  // ----- the form of the result -----

  // *p, or the address or start of that, without an offset.
  predicate Whole(lv: LValue) {
    lv.host.Mem? && lv.off == NoOffset
  }

  // Nowhere a *&, &* or start of *p without an offset, nor a cast to the type of its
  // operand; but for the offset of the start of part of *p, which is left alone.
  predicate Collapsed(e: Exp)
    decreases e
  {
    match e
    case Const(_, _) => true
    case Lval(lv) => CollapsedLval(lv) && !(Whole(lv) && lv.host.e.AddrOf?)
    case UnOp(_, x, _) => Collapsed(x)
    case BinOp(_, x, y, _) => Collapsed(x) && Collapsed(y)
    case CastE(t, x) => Collapsed(x) && t != TypeOf(x)
    case AddrOf(lv) => CollapsedLval(lv) && !Whole(lv)
    case StartOf(lv) => if lv.host.Mem? then Collapsed(lv.host.e) && !Whole(lv) else CollapsedOffset(lv.off)
  }

  predicate CollapsedLval(lv: LValue)
    decreases lv
  {
    (lv.host.Mem? ==> Collapsed(lv.host.e)) && CollapsedOffset(lv.off)
  }

  predicate CollapsedOffset(off: Offset)
    decreases off
  {
    match off
    case NoOffset => true
    case Field(_, rest) => CollapsedOffset(rest)
    case Index(i, rest) => Collapsed(i) && CollapsedOffset(rest)
  }

  lemma {:induction false} AppendCollapsed(a: Offset, b: Offset)
    requires CollapsedOffset(a) && CollapsedOffset(b)
    ensures CollapsedOffset(Append(a, b)) && (Append(a, b) == NoOffset <==> a == NoOffset && b == NoOffset)
    decreases a
  {
    match a
    case NoOffset =>
    case Field(_, rest) => AppendCollapsed(rest, b);
    case Index(_, rest) => AppendCollapsed(rest, b);
  }

  lemma LvalCollapsed(lv: LValue)
    requires CollapsedLval(lv)
    ensures Collapsed(Top(Lval(lv)))
  {
    if lv.host.Mem? && lv.host.e.AddrOf? {
      var inner := lv.host.e.lv;
      assert CollapsedLval(inner) && !Whole(inner);
      AppendCollapsed(inner.off, lv.off);
      assert CollapsedLval(Lv(inner.host, Append(inner.off, lv.off)));
    }
  }

  lemma TopCollapsed(e: Exp)
    requires Collapsed(e)
    ensures Collapsed(Top(e))
  {
    if e.Lval? {
      LvalCollapsed(e.lv);
    }
  }

  lemma {:induction false} SimplifyCollapsed(e: Exp)
    ensures Collapsed(Simplify(e))
    decreases e
  {
    match e
    case Const(_, _) =>
    case Lval(lv) =>
      PartsCollapsed(lv);
      LvalCollapsed(Lv(SimplifyHost(lv.host), SimplifyOffset(lv.off)));
    case UnOp(_, x, _) => SimplifyCollapsed(x);
    case BinOp(_, x, y, _) =>
      SimplifyCollapsed(x);
      SimplifyCollapsed(y);
    case CastE(t, x) =>
      SimplifyCollapsed(x);
      TopCollapsed(if t == TypeOf(Simplify(x)) then Simplify(x) else CastE(t, Simplify(x)));
    case AddrOf(lv) => PartsCollapsed(lv);
    case StartOf(lv) => PartsCollapsed(lv);
  }

  lemma {:induction false} PartsCollapsed(lv: LValue)
    ensures CollapsedLval(Lv(SimplifyHost(lv.host), SimplifyOffset(lv.off)))
    decreases lv
  {
    if lv.host.Mem? {
      SimplifyCollapsed(lv.host.e);
    }
    OffsetCollapsed(lv.off);
  }

  lemma {:induction false} OffsetCollapsed(off: Offset)
    ensures CollapsedOffset(SimplifyOffset(off))
    decreases off
  {
    match off
    case NoOffset =>
    case Field(_, rest) => OffsetCollapsed(rest);
    case Index(i, rest) =>
      SimplifyCollapsed(i);
      OffsetCollapsed(rest);
  }

  predicate IsDerefAddress(lv: LValue) {
    lv.host.Mem? && lv.host.e.AddrOf?
  }

  // A *& with an offset stays exactly when what is dereferenced simplifies to the
  // address of another one.
  lemma DerefLeft(lv: LValue)
    ensures
      var r := Simplify(Lval(lv));
      r.Lval? && (IsDerefAddress(r.lv) <==>
        lv.host.Mem? && Simplify(lv.host.e).AddrOf? && IsDerefAddress(Simplify(lv.host.e).lv))
  {
    hide Append;
    if lv.host.Mem? {
      assert SimplifyHost(lv.host) == Mem(Simplify(lv.host.e));
    }
  }

  // ----- where the value is kept -----

  // Taking the start of the array that s points to. This simplifies to s, whose
  // type is a pointer to the array, not to its first element.
  predicate BareStart(e: Exp) {
    e.StartOf? && e.lv.host.Mem? && e.lv.off == NoOffset
  }

  // Expressions that get another type: bare starts, also under &*.
  predicate Retyped(e: Exp)
    decreases e
  {
    BareStart(e) || (e.AddrOf? && e.lv.host.Mem? && e.lv.off == NoOffset && Retyped(e.lv.host.e))
  }

  // No part of e gets another type where that matters: dereferenced with a
  // type, as the pointer of pointer arithmetic, or under an operation that looks at
  // types. Conversions and the other unary operations count among these unless
  // pointers are alike for them. Only pointers are dereferenced.
  predicate Safe(alike: bool, e: Exp)
    decreases e, 0
  {
    match e
    case Const(_, _) => true
    case Lval(lv) => SafeLval(alike, lv)
    case UnOp(Neg, x, _) => Safe(alike, x)
    case UnOp(_, x, _) => Safe(alike, x) && (alike || !Retyped(x))
    case BinOp(PlusA, x, y, _) => Safe(alike, x) && Safe(alike, y)
    case BinOp(OtherBinary(_), x, y, _) => Safe(alike, x) && Safe(alike, y) && !Retyped(x) && !Retyped(y)
    case BinOp(_, x, y, _) => Safe(alike, x) && !Retyped(x) && Safe(alike, y)
    case CastE(_, x) => Safe(alike, x) && (alike || !Retyped(x))
    case AddrOf(lv) => SafeObject(alike, lv)
    case StartOf(lv) => SafeObject(alike, lv) && TypeOfLval(lv).Arr?
  }

  // An lvalue of which only the address is taken: without an offset the type of the
  // pointer does not matter.
  predicate SafeObject(alike: bool, lv: LValue)
    decreases lv, 1
  {
    if lv.host.Mem? && lv.off == NoOffset then Safe(alike, lv.host.e) && TypeOf(lv.host.e).Ptr?
    else SafeLval(alike, lv)
  }

  predicate SafeLval(alike: bool, lv: LValue)
    decreases lv, 0
  {
    && (lv.host.Mem? ==> Safe(alike, lv.host.e) && !Retyped(lv.host.e) && TypeOf(lv.host.e).Ptr?)
    && SafeOffset(alike, lv.off)
  }

  predicate SafeOffset(alike: bool, off: Offset)
    decreases off, 0
  {
    match off
    case NoOffset => true
    case Field(_, rest) => SafeOffset(alike, rest)
    case Index(i, rest) => Safe(alike, i) && SafeOffset(alike, rest)
  }

  // Conversions and unary operations do not look at what a pointer points to, and
  // conversions between pointers keep the address.
  ghost predicate PointersAlike(env: Env) {
    && (forall a: Type, b: Type, v: int :: env.convert(Ptr(a), Ptr(b), v) == v)
    && (forall t: Type, a: Type, b: Type, v: int :: env.convert(t, Ptr(a), v) == env.convert(t, Ptr(b), v))
    && forall id: nat, t: Type, a: Type, b: Type, v: int :: env.unary(id, Ptr(a), t, v) == env.unary(id, Ptr(b), t, v)
  }

  lemma {:induction false} AppendSame(env: Env, t: Type, a: Offset, b: Offset)
    ensures OffsetType(t, Append(a, b)) == OffsetType(OffsetType(t, a), b)
    ensures Bytes(env, t, Append(a, b)) == Bytes(env, t, a) + Bytes(env, OffsetType(t, a), b)
    decreases a
  {
    match a
    case NoOffset =>
    case Field(k, rest) => AppendSame(env, FieldType(t, k), rest, b);
    case Index(i, rest) => AppendSame(env, ElemType(t), rest, b);
  }

  lemma {:induction false} AppendSafe(alike: bool, a: Offset, b: Offset)
    requires SafeOffset(alike, a) && SafeOffset(alike, b)
    ensures SafeOffset(alike, Append(a, b))
    decreases a
  {
    match a
    case NoOffset =>
    case Field(_, rest) => AppendSafe(alike, rest, b);
    case Index(_, rest) => AppendSafe(alike, rest, b);
  }

  // (&lv)->off is lv.off.
  lemma DerefAddress(env: Env, lv: LValue, off: Offset)
    ensures
      var e, r := Lv(Mem(AddrOf(lv)), off), Lv(lv.host, Append(lv.off, off));
      TypeOfLval(r) == TypeOfLval(e) && Address(env, r) == Address(env, e)
  {
    AppendSame(env, HostType(lv.host), lv.off, off);
    assert TypeOf(AddrOf(lv)) == Ptr(TypeOfLval(lv));
    assert HostType(Mem(AddrOf(lv))) == TypeOfLval(lv);
    assert HostAddress(env, Mem(AddrOf(lv))) == Eval(env, AddrOf(lv)) == Address(env, lv);
  }

  // *p.off where p is &lv.
  lemma DerefSame(env: Env, alike: bool, lv: LValue, off: Offset)
    requires Safe(alike, Lval(Lv(Mem(AddrOf(lv)), off)))
    ensures
      var e, r := Lval(Lv(Mem(AddrOf(lv)), off)), Lval(Lv(lv.host, Append(lv.off, off)));
      Safe(alike, r) && TypeOf(r) == TypeOf(e) && Eval(env, r) == Eval(env, e)
  {
    hide Append, Address, TypeOfLval, OffsetType;
    assert SafeLval(alike, Lv(Mem(AddrOf(lv)), off));
    assert Safe(alike, AddrOf(lv)) && !Retyped(AddrOf(lv)) && SafeOffset(alike, off);
    assert SafeObject(alike, lv);
    assert SafeLval(alike, lv);
    AppendSafe(alike, lv.off, off);
    assert SafeLval(alike, Lv(lv.host, Append(lv.off, off)));
    DerefAddress(env, lv, off);
    assert Eval(env, Lval(Lv(Mem(AddrOf(lv)), off))) ==
      env.load(Address(env, Lv(Mem(AddrOf(lv)), off)), TypeOfLval(Lv(Mem(AddrOf(lv)), off)));
  }

  // &*a, and the value of the start of *a.
  lemma AddressSame(env: Env, a: Exp)
    ensures Eval(env, AddrOf(Lv(Mem(a), NoOffset))) == Eval(env, StartOf(Lv(Mem(a), NoOffset))) == Eval(env, a)
    ensures TypeOf(a).Ptr? ==> TypeOf(AddrOf(Lv(Mem(a), NoOffset))) == TypeOf(a)
    ensures TypeOf(StartOf(Lv(Mem(a), NoOffset))) == Decayed(Pointee(TypeOf(a)))
  {
    assert TypeOfLval(Lv(Mem(a), NoOffset)) == HostType(Mem(a)) == Pointee(TypeOf(a));
    assert Address(env, Lv(Mem(a), NoOffset)) == HostAddress(env, Mem(a)) == Eval(env, a);
  }

  // The equivalences keep everything.
  lemma TopSame(env: Env, alike: bool, e: Exp)
    requires Safe(alike, e) && !Retyped(e)
    ensures Safe(alike, Top(e)) && !Retyped(Top(e))
    ensures TypeOf(Top(e)) == TypeOf(e) && Eval(env, Top(e)) == Eval(env, e)
  {
    hide Eval, TypeOf, Append, SafeLval, SafeOffset, TypeOfLval;
    if e.Lval? && e.lv.host.Mem? && e.lv.host.e.AddrOf? {
      DerefSame(env, alike, e.lv.host.e.lv, e.lv.off);
    } else if e.AddrOf? && e.lv.host.Mem? && e.lv.off == NoOffset {
      AddressSame(env, e.lv.host.e);
      assert SafeObject(alike, e.lv);
    }
  }

  // t is an array of u, or an array of such arrays.
  predicate Around(t: Type, u: Type)
    decreases t
  {
    t.Arr? && (t.elem == u || Around(t.elem, u))
  }

  lemma {:induction false} AroundLarger(t: Type, u: Type)
    requires Around(t, u)
    ensures u < t
    decreases t
  {
    if t.elem == u {
    } else {
      AroundLarger(t.elem, u);
    }
  }

  lemma {:induction false} AroundElem(t: Type, u: Type)
    requires Around(t, u) && u.Arr?
    ensures Around(t, u.elem)
    decreases t
  {
    if t.elem == u {
    } else {
      AroundElem(t.elem, u);
    }
  }

  // What simplifying keeps, as it is needed further out.
  ghost predicate Kept(env: Env, alike: bool, e: Exp, r: Exp) {
    && Safe(alike, r) && !Retyped(r) && Eval(env, r) == Eval(env, e)
    && if Retyped(e) then TypeOf(e).Ptr? && TypeOf(r).Ptr? && Around(TypeOf(r).to, TypeOf(e).to)
       else TypeOf(r) == TypeOf(e)
  }

  lemma {:induction false} SimplifyKept(env: Env, alike: bool, e: Exp)
    requires Safe(alike, e) && (alike ==> PointersAlike(env))
    ensures Kept(env, alike, e, Simplify(e))
    decreases e, 1
  {
    hide Apply, Wrap, Top, PointersAlike;
    match e
    case Const(_, _) =>
    case Lval(lv) => LvalKept(env, alike, lv);
    case UnOp(op, x, t) =>
      SimplifyKept(env, alike, x);
      UnaryKept(env, alike, op, x, Simplify(x), t);
    case BinOp(op, x, y, t) =>
      SimplifyKept(env, alike, x);
      SimplifyKept(env, alike, y);
      BinaryKept(env, alike, op, x, y, Simplify(x), Simplify(y), t);
    case CastE(t, x) =>
      SimplifyKept(env, alike, x);
      CastKept(env, alike, t, x, Simplify(x));
    case AddrOf(lv) => AddressKept(env, alike, lv);
    case StartOf(lv) => StartKept(env, alike, lv);
  }

  lemma UnaryKept(env: Env, alike: bool, op: UnaryOp, x: Exp, r: Exp, t: Type)
    requires Safe(alike, UnOp(op, x, t)) && (alike ==> PointersAlike(env)) && Kept(env, alike, x, r)
    ensures Kept(env, alike, UnOp(op, x, t), UnOp(op, r, t))
  {
    hide Wrap;
  }

  lemma BinaryKept(env: Env, alike: bool, op: BinaryOp, x: Exp, y: Exp, r: Exp, q: Exp, t: Type)
    requires Safe(alike, BinOp(op, x, y, t)) && Kept(env, alike, x, r) && Kept(env, alike, y, q)
    ensures Kept(env, alike, BinOp(op, x, y, t), BinOp(op, r, q, t))
  {
    hide Wrap;
  }

  // The cast may go, be kept, or become necessary.
  lemma CastKept(env: Env, alike: bool, t: Type, x: Exp, r: Exp)
    requires Safe(alike, CastE(t, x)) && (alike ==> PointersAlike(env)) && Kept(env, alike, x, r)
    ensures Kept(env, alike, CastE(t, x), Top(if t == TypeOf(r) then r else CastE(t, r)))
  {
    hide Top;
    if t == TypeOf(r) {
      TopSame(env, alike, r);
    } else {
      TopSame(env, alike, CastE(t, r));
    }
  }

  lemma {:induction false} LvalKept(env: Env, alike: bool, lv: LValue)
    requires SafeLval(alike, lv) && (alike ==> PointersAlike(env))
    ensures Kept(env, alike, Lval(lv), Simplify(Lval(lv)))
    decreases lv, 1
  {
    hide Top, PointersAlike, SafeLval, SafeOffset;
    LvalSame(env, alike, lv);
    var r := Lval(Lv(SimplifyHost(lv.host), SimplifyOffset(lv.off)));
    assert Safe(alike, r) && !Retyped(r);
    TopSame(env, alike, r);
  }

  lemma {:induction false} AddressKept(env: Env, alike: bool, lv: LValue)
    requires SafeObject(alike, lv) && (alike ==> PointersAlike(env))
    ensures Kept(env, alike, AddrOf(lv), Simplify(AddrOf(lv)))
    decreases lv, 2
  {
    hide PointersAlike, Apply, Wrap;
    if lv.host.Mem? && lv.off == NoOffset {
      SimplifyKept(env, alike, lv.host.e);
      AddressSame(env, lv.host.e);
    } else {
      LvalSame(env, alike, lv);
      var r := Lv(SimplifyHost(lv.host), SimplifyOffset(lv.off));
      assert Simplify(AddrOf(lv)) == AddrOf(r);
      ObjectKept(env, alike, lv, r);
    }
  }

  lemma ObjectKept(env: Env, alike: bool, lv: LValue, r: LValue)
    requires SafeLval(alike, lv) && SafeLval(alike, r) && !(lv.host.Mem? && lv.off == NoOffset)
    requires r.host.Mem? ==> lv.host.Mem? && r.off != NoOffset
    requires TypeOfLval(r) == TypeOfLval(lv) && Address(env, r) == Address(env, lv)
    ensures Kept(env, alike, AddrOf(lv), AddrOf(r))
    ensures TypeOfLval(lv).Arr? ==> Kept(env, alike, StartOf(lv), StartOf(r))
  {
    hide SafeLval;
    assert Eval(env, AddrOf(r)) == Address(env, r) && Eval(env, AddrOf(lv)) == Address(env, lv);
    assert Eval(env, StartOf(r)) == Address(env, r) && Eval(env, StartOf(lv)) == Address(env, lv);
    assert SafeObject(alike, r);
  }

  lemma {:induction false} StartKept(env: Env, alike: bool, lv: LValue)
    requires SafeObject(alike, lv) && TypeOfLval(lv).Arr? && (alike ==> PointersAlike(env))
    ensures Kept(env, alike, StartOf(lv), Simplify(StartOf(lv)))
    decreases lv, 2
  {
    hide PointersAlike, Apply, Wrap;
    if lv.host.Mem? && lv.off == NoOffset {
      SimplifyKept(env, alike, lv.host.e);
      AddressSame(env, lv.host.e);
      assert TypeOfLval(lv) == Pointee(TypeOf(lv.host.e));
      if Retyped(lv.host.e) {
        AroundElem(TypeOf(Simplify(lv.host.e)).to, TypeOfLval(lv));
      }
    } else if lv.host.Mem? {
      StartHostSame(env, alike, lv);
      var r := Lv(SimplifyHost(lv.host), lv.off);
      assert Simplify(StartOf(lv)) == StartOf(r);
      ObjectKept(env, alike, lv, r);
    } else {
      LvalSame(env, alike, lv);
      ObjectKept(env, alike, lv, Lv(lv.host, SimplifyOffset(lv.off)));
    }
  }

  // The start of an lvalue with its offset left as it is.
  lemma {:induction false} StartHostSame(env: Env, alike: bool, lv: LValue)
    requires SafeLval(alike, lv) && TypeOfLval(lv).Arr? && (alike ==> PointersAlike(env))
    ensures
      var r := Lv(SimplifyHost(lv.host), lv.off);
      SafeLval(alike, r) && TypeOfLval(r) == TypeOfLval(lv) && Address(env, r) == Address(env, lv)
    decreases lv, 1
  {
    hide PointersAlike, Apply, Wrap;
    if lv.host.Mem? {
      SimplifyKept(env, alike, lv.host.e);
      var s := Simplify(lv.host.e);
      assert TypeOfLval(Lv(Mem(s), lv.off)) == OffsetType(Pointee(TypeOf(s)), lv.off);
      assert Address(env, Lv(Mem(s), lv.off)) == HostAddress(env, Mem(s)) + Bytes(env, Pointee(TypeOf(s)), lv.off);
    }
  }

  lemma {:induction false} LvalSame(env: Env, alike: bool, lv: LValue)
    requires SafeLval(alike, lv) && (alike ==> PointersAlike(env))
    ensures
      var r := Lv(SimplifyHost(lv.host), SimplifyOffset(lv.off));
      SafeLval(alike, r) && TypeOfLval(r) == TypeOfLval(lv) && Address(env, r) == Address(env, lv)
    decreases lv, 0
  {
    hide PointersAlike, Apply, Wrap;
    if lv.host.Mem? {
      SimplifyKept(env, alike, lv.host.e);
    }
    OffsetSame(env, alike, HostType(lv.host), lv.off);
  }

  lemma {:induction false} OffsetSame(env: Env, alike: bool, t: Type, off: Offset)
    requires SafeOffset(alike, off) && (alike ==> PointersAlike(env))
    ensures SafeOffset(alike, SimplifyOffset(off)) && OffsetType(t, SimplifyOffset(off)) == OffsetType(t, off)
    ensures Bytes(env, t, SimplifyOffset(off)) == Bytes(env, t, off)
    decreases off, 0
  {
    hide PointersAlike, Apply, Wrap;
    match off
    case NoOffset =>
    case Field(k, rest) => OffsetSame(env, alike, FieldType(t, k), rest);
    case Index(i, rest) =>
      SimplifyKept(env, alike, i);
      OffsetSame(env, alike, ElemType(t), rest);
  }

  // An expression keeps its value in every memory, unless a part of it gets another
  // type where that matters; and it keeps its type exactly when it is no such
  // expression itself.
  lemma SimplifySame(env: Env, alike: bool, e: Exp)
    requires Safe(alike, e) && (alike ==> PointersAlike(env))
    ensures Eval(env, Simplify(e)) == Eval(env, e)
    ensures TypeOf(Simplify(e)) == TypeOf(e) <==> !Retyped(e)
  {
    SimplifyKept(env, alike, e);
    if Retyped(e) {
      AroundLarger(TypeOf(Simplify(e)).to, TypeOf(e).to);
    }
  }

  // ----- bare starts -----

  // Arithmetic on a pointer that gets another type is scaled by the size of what
  // that points to. The address is kept exactly when this makes no difference.
  lemma PlusExact(env: Env, alike: bool, op: BinaryOp, q: Exp, i: Exp, t: Type)
    requires op == PlusPI || op == IndexPI || op == MinusPI
    requires Safe(alike, q) && Safe(alike, i) && (alike ==> PointersAlike(env))
    ensures
      var e := BinOp(op, q, i, t);
      var more := env.size(Pointee(TypeOf(Simplify(q)))) - env.size(Pointee(TypeOf(q)));
      Eval(env, Simplify(e)) == Eval(env, e) <==> (Eval(env, i) * more) % W == 0
  {
    hide TypeOf, Safe, PointersAlike, Eval, Simplify;
    SimplifySame(env, alike, q);
    SimplifySame(env, alike, i);
    var x, v := Eval(env, q), Eval(env, i);
    var k, k' := env.size(Pointee(TypeOf(q))), env.size(Pointee(TypeOf(Simplify(q))));
    StepParts(env, op, q, i, t);
    StepParts(env, op, Simplify(q), Simplify(i), t);
    StepsSame(x, v, k, k');
  }

  lemma StepsSame(x: int, v: int, k: int, k': int)
    ensures (x + v * k') % W == (x + v * k) % W <==> (v * (k' - k)) % W == 0
    ensures (x - v * k') % W == (x - v * k) % W <==> (v * (k' - k)) % W == 0
  {
    var d := v * (k' - k);
    assert v * k' == v * k + d by { Distribute(k, k' - k, v); }
    SameAddress(x + v * k, d);
    SameAddress(x - v * k', d);
  }

  lemma StepParts(env: Env, op: BinaryOp, p: Exp, i: Exp, t: Type)
    requires op == PlusPI || op == IndexPI || op == MinusPI
    ensures Simplify(BinOp(op, p, i, t)) == BinOp(op, Simplify(p), Simplify(i), t)
    ensures var d := Eval(env, i) * env.size(Pointee(TypeOf(p)));
      Eval(env, BinOp(op, p, i, t)) == (if op == MinusPI then Eval(env, p) - d else Eval(env, p) + d) % W
  {
  }

  // A bare start as such keeps its value too, but never its type, so an index added
  // to it is scaled by the size of the whole array.
  lemma StartScaled(env: Env, alike: bool, s: Exp, elem: Type, n: nat, i: Exp, t: Type)
    requires Safe(alike, s) && !Retyped(s) && TypeOf(s) == Ptr(Arr(elem, n))
    requires Safe(alike, i) && (alike ==> PointersAlike(env)) && env.size(Arr(elem, n)) == n * env.size(elem)
    ensures
      var e := BinOp(PlusPI, StartOf(Lv(Mem(s), NoOffset)), i, t);
      Eval(env, Simplify(e)) == Eval(env, e) <==> (Eval(env, i) * ((n - 1) * env.size(elem))) % W == 0
  {
    hide Eval, Simplify, PointersAlike;
    var lv := Lv(Mem(s), NoOffset);
    StartParts(env, s, elem, n);
    SimplifySame(env, alike, s);
    assert TypeOfLval(lv) == Arr(elem, n) && SafeObject(alike, lv);
    PlusExact(env, alike, PlusPI, StartOf(lv), i, t);
    Distribute(n, -1, env.size(elem));
  }

  // So an index within the array, of a smaller size than the address space, keeps the
  // address only if it is 0 or the array has one element.
  lemma StartScaledOnce(env: Env, alike: bool, s: Exp, elem: Type, n: nat, i: Exp, t: Type)
    requires Safe(alike, s) && !Retyped(s) && TypeOf(s) == Ptr(Arr(elem, n))
    requires Safe(alike, i) && (alike ==> PointersAlike(env)) && env.size(Arr(elem, n)) == n * env.size(elem)
    requires n > 0 && env.size(elem) > 0 && -W < Eval(env, i) * ((n - 1) * env.size(elem)) < W
    ensures
      var e := BinOp(PlusPI, StartOf(Lv(Mem(s), NoOffset)), i, t);
      Eval(env, Simplify(e)) == Eval(env, e) <==> Eval(env, i) == 0 || n == 1
  {
    hide Eval, Simplify, TypeOf, Safe, PointersAlike;
    var v, k := Eval(env, i), env.size(elem);
    StartScaled(env, alike, s, elem, n, i, t);
    SameAddress(0, v * ((n - 1) * k));
    NonZero(n - 1, k);
    if n > 1 {
      Mono(1, n - 1, k);
      NonZero(v, (n - 1) * k);
    }
  }

  lemma StartParts(env: Env, s: Exp, elem: Type, n: nat)
    requires TypeOf(s) == Ptr(Arr(elem, n))
    ensures
      var b := StartOf(Lv(Mem(s), NoOffset));
      Simplify(b) == Simplify(s) && TypeOf(b) == Ptr(elem) && Eval(env, b) == Eval(env, s)
  {
    var lv := Lv(Mem(s), NoOffset);
    assert TypeOfLval(lv) == HostType(Mem(s)) == Arr(elem, n);
    assert Address(env, lv) == HostAddress(env, Mem(s));
  }

  // The address of a part of what such a pointer points to is kept exactly when the
  // part lies as far inside the array around it.
  lemma PartExact(env: Env, alike: bool, q: Exp, off: Offset)
    requires Safe(alike, q) && SafeOffset(alike, off) && off != NoOffset && (alike ==> PointersAlike(env))
    ensures
      var lv, t, t' := Lv(Mem(q), off), Pointee(TypeOf(q)), Pointee(TypeOf(Simplify(q)));
      && (Eval(env, Simplify(AddrOf(lv))) == Eval(env, AddrOf(lv)) <==> Bytes(env, t', off) == Bytes(env, t, off))
      && (Eval(env, Simplify(StartOf(lv))) == Eval(env, StartOf(lv)) <==> Bytes(env, t', off) == Bytes(env, t, off))
  {
    hide PointersAlike, Safe, Eval, Address, TypeOf, Simplify;
    var r := Simplify(q);
    SimplifySame(env, alike, q);
    OffsetSame(env, alike, Pointee(TypeOf(r)), off);
    PartSimplified(q, off);
    PartAddress(env, q, off);
    PartAddress(env, r, SimplifyOffset(off));
    PartAddress(env, r, off);
  }

  lemma PartSimplified(q: Exp, off: Offset)
    requires off != NoOffset
    ensures Simplify(AddrOf(Lv(Mem(q), off))) == AddrOf(Lv(Mem(Simplify(q)), SimplifyOffset(off)))
    ensures Simplify(StartOf(Lv(Mem(q), off))) == StartOf(Lv(Mem(Simplify(q)), off))
  {
    assert SimplifyHost(Mem(q)) == Mem(Simplify(q));
  }

  lemma PartAddress(env: Env, q: Exp, off: Offset)
    ensures Address(env, Lv(Mem(q), off)) == Eval(env, q) + Bytes(env, Pointee(TypeOf(q)), off)
    ensures Eval(env, AddrOf(Lv(Mem(q), off))) == Eval(env, StartOf(Lv(Mem(q), off))) == Address(env, Lv(Mem(q), off))
  {
    assert HostType(Mem(q)) == Pointee(TypeOf(q)) && HostAddress(env, Mem(q)) == Eval(env, q);
  }

  // ----- where the type matters -----

  lemma {:induction false} VoidOffset(off: Offset)
    ensures OffsetType(Void, off) == Void
    decreases off
  {
    match off
    case NoOffset =>
    case Field(_, rest) => VoidOffset(rest);
    case Index(_, rest) => VoidOffset(rest);
  }

  // No part of an object has the type of the same part of an array around it.
  lemma {:induction false} AroundOffset(t: Type, u: Type, off: Offset)
    requires Around(t, u) && OffsetType(u, off) != Void
    ensures OffsetType(t, off) != OffsetType(u, off)
    decreases off
  {
    match off
    case NoOffset => AroundLarger(t, u);
    case Field(_, rest) => VoidOffset(rest);
    case Index(_, rest) =>
      if u.Arr? {
        if t.elem != u {
          AroundElem(t.elem, u);
        }
        AroundOffset(t.elem, u.elem, rest);
      } else {
        VoidOffset(rest);
      }
  }

  // Operations that look at types, on parts that keep their values: loads, through a
  // pointer and with an offset that its type has, conversions, and operations other
  // than addition.
  predicate LooksAtType(e: Exp) {
    match e
    case Lval(Lv(Mem(q), off)) =>
      Safe(false, q) && TypeOf(q).Ptr? && SafeOffset(false, off) && OffsetType(TypeOf(q).to, off) != Void
    case UnOp(OtherUnary(_), x, _) => Safe(false, x)
    case BinOp(OtherBinary(_), x, y, _) => Safe(false, x) && Safe(false, y)
    case CastE(_, x) => Safe(false, x)
    case _ => false
  }

  // An environment in which such operations give on operands of the types t and u
  // what they give on no others.
  ghost function Telling(t: Type, u: Type): Env {
    Env(id => 0, ty => 0, (ty, k) => 0,
        (a, ty) => if ty == t then 1 else 0,
        (id, tx, ty, x) => if tx == t then 1 else 0,
        (id, tx, ty, r, x, y) => if tx == t && ty == u then 1 else 0,
        (r, tx, x) => x + if tx == t then 1 else 2)
  }

  // They keep their value in every environment exactly if no operand gets another
  // type.
  lemma TypeExact(e: Exp)
    requires LooksAtType(e)
    ensures (forall env: Env :: Eval(env, Simplify(e)) == Eval(env, e)) <==> Safe(false, e)
  {
    if Safe(false, e) {
      forall env: Env ensures Eval(env, Simplify(e)) == Eval(env, e) {
        SimplifySame(env, false, e);
      }
    } else {
      match e
      case Lval(lv) =>
        assert !SafeLval(false, lv);
        LoadTold(lv.host.e, lv.off);
      case UnOp(op, x, t) => UnaryTold(op, x, t);
      case BinOp(op, x, y, t) => BinaryTold(op, x, y, t);
      case CastE(t, x) => CastTold(t, x);
    }
  }

  lemma LoadTold(q: Exp, off: Offset)
    requires LooksAtType(Lval(Lv(Mem(q), off))) && Retyped(q)
    ensures
      var e, env := Lval(Lv(Mem(q), off)), Telling(OffsetType(TypeOf(q).to, off), Void);
      Eval(env, Simplify(e)) != Eval(env, e)
  {
    var e, env := Lval(Lv(Mem(q), off)), Telling(OffsetType(TypeOf(q).to, off), Void);
    SimplifyKept(env, false, q);
    var r, o := Simplify(q), SimplifyOffset(off);
    var f := Lval(Lv(Mem(r), o));
    OffsetSame(env, false, TypeOf(r).to, off);
    AroundOffset(TypeOf(r).to, TypeOf(q).to, off);
    assert SafeLval(false, f.lv) && !Retyped(f);
    TopSame(env, false, f);
    LoadOf(env, e.lv);
    LoadOf(env, f.lv);
  }

  lemma LoadOf(env: Env, lv: LValue)
    ensures Eval(env, Lval(lv)) == env.load(Address(env, lv), TypeOfLval(lv))
    ensures lv.host.Mem? ==> TypeOfLval(lv) == OffsetType(Pointee(TypeOf(lv.host.e)), lv.off)
  {
  }

  lemma UnaryTold(op: UnaryOp, x: Exp, t: Type)
    requires op.OtherUnary? && Safe(false, x) && Retyped(x)
    ensures var e, env := UnOp(op, x, t), Telling(TypeOf(x), Void); Eval(env, Simplify(e)) != Eval(env, e)
  {
    var env := Telling(TypeOf(x), Void);
    SimplifySame(env, false, x);
  }

  lemma BinaryTold(op: BinaryOp, x: Exp, y: Exp, t: Type)
    requires op.OtherBinary? && Safe(false, x) && Safe(false, y) && (Retyped(x) || Retyped(y))
    ensures
      var e, env := BinOp(op, x, y, t), Telling(TypeOf(x), TypeOf(y));
      Eval(env, Simplify(e)) != Eval(env, e)
  {
    var env := Telling(TypeOf(x), TypeOf(y));
    SimplifySame(env, false, x);
    SimplifySame(env, false, y);
  }

  lemma CastTold(t: Type, x: Exp)
    requires Safe(false, x) && Retyped(x)
    ensures var e, env := CastE(t, x), Telling(TypeOf(x), Void); Eval(env, Simplify(e)) != Eval(env, e)
  {
    var env := Telling(TypeOf(x), Void);
    SimplifyKept(env, false, x);
    SimplifySame(env, false, x);
    var r := Simplify(x);
    TopSame(env, false, r);
  }

  // ----- collapsing -----

  // *&lv, as an lvalue.
  function Star(lv: LValue): LValue {
    Lv(Mem(AddrOf(lv)), NoOffset)
  }

  function Nest(v: Host, n: nat): LValue {
    if n == 0 then Lv(v, NoOffset) else Star(Nest(v, n - 1))
  }

  // However deep a nest of *& around a variable, what is left is the variable, or
  // its address if the outermost operation takes that.
  lemma {:induction false} NestCollapses(v: Host, n: nat)
    requires v.Var?
    ensures Simplify(AddrOf(Nest(v, n))) == AddrOf(Lv(v, NoOffset))
    ensures Simplify(Lval(Nest(v, n))) == Lval(Lv(v, NoOffset))
    decreases n
  {
    if n == 0 {
    } else {
      NestCollapses(v, n - 1);
    }
  }

  // &*e, n times over.
  function AddressNest(e: Exp, n: nat): Exp {
    if n == 0 then e else AddrOf(Lv(Mem(AddressNest(e, n - 1)), NoOffset))
  }

  // The other nests, of &* around any expression: around a pointer variable p,
  // &*&*p collapses to p.
  lemma {:induction false} AddressNestCollapses(e: Exp, n: nat)
    ensures Simplify(AddressNest(e, n)) == Simplify(e)
    decreases n
  {
    if n == 0 {
    } else {
      AddressNestCollapses(e, n - 1);
    }
  }

  lemma {:induction false} AppendNothing(off: Offset)
    ensures Append(off, NoOffset) == off
    decreases off
  {
    match off
    case NoOffset =>
    case Field(_, rest) => AppendNothing(rest);
    case Index(_, rest) => AppendNothing(rest);
  }

  // *&lv simplifies to the same as lv, unless lv is p->off with an offset and p
  // simplifies to an address: that is only seen through when it is dereferenced
  // as a whole.
  lemma StarExact(lv: LValue)
    ensures Simplify(Lval(Star(lv))) == Simplify(Lval(lv)) <==>
      !(lv.host.Mem? && lv.off != NoOffset && Simplify(lv.host.e).AddrOf?)
  {
    hide TypeOf, Append;
    var h, o := SimplifyHost(lv.host), SimplifyOffset(lv.off);
    var a := Top(AddrOf(Lv(h, o)));
    assert Simplify(AddrOf(lv)) == a;
    assert Simplify(Lval(lv)) == Top(Lval(Lv(h, o)));
    assert Simplify(Lval(Star(lv))) == Top(Lval(Lv(Mem(a), NoOffset)));
    AppendNothing(o);
    if h.Mem? && h.e.AddrOf? {
      NotInside(h.e.lv);
    }
  }

  lemma NotInside(lv: LValue)
    ensures Mem(AddrOf(lv)) != lv.host
  {
    if lv.host.Mem? && lv.host.e.AddrOf? {
      assert lv.host.e.lv < lv;
    }
  }
}
