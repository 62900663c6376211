// The ptrintarith pass: pointer arithmetic done in the integer domain as far as
// possible.
module PtrIntArith {
  import opened Arithmetic
  import opened MachineWord
  import opened Cil

  // A visitor that rewrites subtractions and indexings on the way down and merges
  // additions on the way up.
  function Rewrite(e: Exp): Exp
    decreases e
  {
    match e
    case Const(_, _) => e
    case Lval(lv) => Lval(RewriteLval(lv))
    case UnOp(op, x, t) => UnOp(op, Rewrite(x), t)
    case BinOp(op, x, y, t) => Rebuilt(op, Rewrite(x), Rewrite(y), TypeOf(y), t)
    case CastE(t, x) => CastE(t, Rewrite(x))
    case AddrOf(lv) => AddrOf(RewriteLval(lv))
    case StartOf(lv) => StartOf(RewriteLval(lv))
  }

  // x and y are operands already rewritten and ty is the type of the right one
  // before that.
  function Rebuilt(op: BinaryOp, x: Exp, y: Exp, ty: Type, t: Type): Exp {
    match op
    case MinusPI => Merge(BinOp(PlusPI, x, UnOp(Neg, y, ty), t))
    case IndexPI => Merge(BinOp(PlusPI, x, y, t))
    case _ => Merge(BinOp(op, x, y, t))
  }

  function Merge(e: Exp): Exp {
    match e
    case BinOp(PlusPI, BinOp(PlusPI, p, i1, _), i2, t) => BinOp(PlusPI, p, BinOp(PlusA, i1, i2, TypeOf(i1)), t)
    case _ => e
  }

  function RewriteLval(lv: LValue): LValue
    decreases lv
  {
    match lv.host
    case Var(_, _) => Lv(lv.host, RewriteOffset(lv.off))
    case Mem(e) => Lv(Mem(Rewrite(e)), RewriteOffset(lv.off))
  }

  function RewriteOffset(off: Offset): Offset
    decreases off
  {
    match off
    case NoOffset => off
    case Field(k, rest) => Field(k, RewriteOffset(rest))
    case Index(i, rest) => Index(Rewrite(i), RewriteOffset(rest))
  }

  // ----- the form of the result -----

  predicate IsPlusPI(e: Exp) {
    e.BinOp? && e.bop == PlusPI
  }

  // Nowhere a subtraction or indexing of a pointer, nor an addition to the result
  // of another.
  predicate Normal(e: Exp)
    decreases e
  {
    match e
    case Const(_, _) => true
    case Lval(lv) => NormalLval(lv)
    case UnOp(_, x, _) => Normal(x)
    case BinOp(op, x, y, _) =>
      op != MinusPI && op != IndexPI && Normal(x) && Normal(y) && !(op == PlusPI && IsPlusPI(x))
    case CastE(_, x) => Normal(x)
    case AddrOf(lv) => NormalLval(lv)
    case StartOf(lv) => NormalLval(lv)
  }

  predicate NormalLval(lv: LValue)
    decreases lv
  {
    (lv.host.Mem? ==> Normal(lv.host.e)) && NormalOffset(lv.off)
  }

  predicate NormalOffset(off: Offset)
    decreases off
  {
    match off
    case NoOffset => true
    case Field(_, rest) => NormalOffset(rest)
    case Index(i, rest) => Normal(i) && NormalOffset(rest)
  }

  lemma {:induction false} RewriteNormal(e: Exp)
    ensures Normal(Rewrite(e))
    decreases e
  {
    match e
    case Const(_, _) =>
    case Lval(lv) => RewriteLvalNormal(lv);
    case UnOp(_, x, _) => RewriteNormal(x);
    case BinOp(_, x, y, _) =>
      RewriteNormal(x);
      RewriteNormal(y);
    case CastE(_, x) => RewriteNormal(x);
    case AddrOf(lv) => RewriteLvalNormal(lv);
    case StartOf(lv) => RewriteLvalNormal(lv);
  }

  lemma {:induction false} RewriteLvalNormal(lv: LValue)
    ensures NormalLval(RewriteLval(lv))
    decreases lv
  {
    if lv.host.Mem? {
      RewriteNormal(lv.host.e);
    }
    RewriteOffsetNormal(lv.off);
  }

  lemma {:induction false} RewriteOffsetNormal(off: Offset)
    ensures NormalOffset(RewriteOffset(off))
    decreases off
  {
    match off
    case NoOffset =>
    case Field(_, rest) => RewriteOffsetNormal(rest);
    case Index(i, rest) =>
      RewriteNormal(i);
      RewriteOffsetNormal(rest);
  }

  // ----- types -----

  predicate IsPI(op: BinaryOp) {
    op == PlusPI || op == IndexPI || op == MinusPI
  }

  predicate Wide(t: Type) {
    t.Int? && t.bytes == 8
  }

  // Pointer arithmetic has the type of its pointer operand and, if wide, its index
  // is as wide as a pointer.
  predicate Typed(wide: bool, e: Exp)
    decreases e
  {
    match e
    case Const(_, _) => true
    case Lval(lv) => TypedLval(wide, lv)
    case UnOp(_, x, _) => Typed(wide, x)
    case BinOp(op, x, y, t) =>
      Typed(wide, x) && Typed(wide, y) && (IsPI(op) ==> t == TypeOf(x) && (wide ==> Wide(TypeOf(y))))
    case CastE(_, x) => Typed(wide, x)
    case AddrOf(lv) => TypedLval(wide, lv)
    case StartOf(lv) => TypedLval(wide, lv)
  }

  predicate TypedLval(wide: bool, lv: LValue)
    decreases lv
  {
    (lv.host.Mem? ==> Typed(wide, lv.host.e)) && TypedOffset(wide, lv.off)
  }

  predicate TypedOffset(wide: bool, off: Offset)
    decreases off
  {
    match off
    case NoOffset => true
    case Field(_, rest) => TypedOffset(wide, rest)
    case Index(i, rest) => Typed(wide, i) && TypedOffset(wide, rest)
  }

  // The pass keeps types.
  lemma {:induction false} RewriteTyped(wide: bool, e: Exp)
    requires Typed(wide, e)
    ensures Typed(wide, Rewrite(e)) && TypeOf(Rewrite(e)) == TypeOf(e)
    decreases e
  {
    hide Rebuilt;
    match e
    case Const(_, _) =>
    case Lval(lv) => RewriteLvalTyped(wide, lv);
    case UnOp(_, x, _) => RewriteTyped(wide, x);
    case BinOp(op, x, y, t) =>
      RewriteTyped(wide, x);
      RewriteTyped(wide, y);
      RebuiltTyped(wide, op, Rewrite(x), Rewrite(y), t);
    case CastE(_, x) => RewriteTyped(wide, x);
    case AddrOf(lv) => RewriteLvalTyped(wide, lv);
    case StartOf(lv) => RewriteLvalTyped(wide, lv);
  }

  lemma RebuiltTyped(wide: bool, op: BinaryOp, x: Exp, y: Exp, t: Type)
    requires Typed(wide, BinOp(op, x, y, t))
    ensures Typed(wide, Rebuilt(op, x, y, TypeOf(y), t)) && TypeOf(Rebuilt(op, x, y, TypeOf(y), t)) == t
  {
    hide Merge;
    match op
    case MinusPI => MergeTyped(wide, BinOp(PlusPI, x, UnOp(Neg, y, TypeOf(y)), t));
    case IndexPI => MergeTyped(wide, BinOp(PlusPI, x, y, t));
    case _ => MergeTyped(wide, BinOp(op, x, y, t));
  }

  lemma MergeTyped(wide: bool, e: Exp)
    requires Typed(wide, e)
    ensures Typed(wide, Merge(e)) && TypeOf(Merge(e)) == TypeOf(e)
  {
  }

  lemma {:induction false} RewriteLvalTyped(wide: bool, lv: LValue)
    requires TypedLval(wide, lv)
    ensures TypedLval(wide, RewriteLval(lv)) && TypeOfLval(RewriteLval(lv)) == TypeOfLval(lv)
    decreases lv
  {
    if lv.host.Mem? {
      RewriteTyped(wide, lv.host.e);
    }
    RewriteOffsetTyped(wide, HostType(lv.host), lv.off);
  }

  lemma {:induction false} RewriteOffsetTyped(wide: bool, t: Type, off: Offset)
    requires TypedOffset(wide, off)
    ensures TypedOffset(wide, RewriteOffset(off)) && OffsetType(t, RewriteOffset(off)) == OffsetType(t, off)
    decreases off
  {
    match off
    case NoOffset =>
    case Field(k, rest) => RewriteOffsetTyped(wide, FieldType(t, k), rest);
    case Index(i, rest) =>
      RewriteTyped(wide, i);
      RewriteOffsetTyped(wide, ElemType(t), rest);
  }

  // ----- arithmetic in the type of the index -----

  predicate InRange(t: Type, v: int)
    requires t.Int?
  {
    var m := Modulus(t.bytes);
    if t.signed then -m <= 2 * v < m else 0 <= v < m
  }

  // Computing v in type t does not change an address: the type is as wide as a
  // pointer, or v is in its range.
  predicate Harmless(t: Type, v: int) {
    t.Int? ==> Wide(t) || InRange(t, v)
  }

  // The range is what is not wrapped.
  lemma WrapExact(t: Type, v: int)
    requires t.Int?
    ensures Wrap(t, v) == v <==> InRange(t, v)
  {
    var m := Modulus(t.bytes);
    assert t.bytes > 0 ==> m == 256 * Modulus(t.bytes - 1);
    if -m <= v < m {
      ModOnce(v, m);
    }
  }

  lemma HarmlessScaled(t: Type, x: int, v: int, s: int)
    requires Harmless(t, v)
    ensures (x + Wrap(t, v) * s) % W == (x + v * s) % W
  {
    hide Wrap, InRange;
    if !t.Int? {
      NotWrapped(t, v);
    } else if Wide(t) {
      WrapScaled(t, x, v, s);
    } else {
      WrapExact(t, v);
    }
  }

  lemma NotWrapped(t: Type, v: int)
    requires !t.Int?
    ensures Wrap(t, v) == v
  {
  }

  // Wrapping at pointer width does not show in an address.
  lemma WrapScaled(t: Type, x: int, y: int, s: int)
    requires Wide(t)
    ensures (x + Wrap(t, y) * s) % W == (x + y * s) % W
  {
    ModulusOfWord();
    var k := (y - Wrap(t, y)) / W;
    assert y == Wrap(t, y) + k * W by {
      hide Modulus;
    }
    Multiple(x + Wrap(t, y) * s, k * s);
    assert (Wrap(t, y) + k * W) * s == Wrap(t, y) * s + (k * s) * W by {
      Spread(Wrap(t, y), k, s);
    }
  }

  lemma Multiple(x: int, k: int)
    ensures (x + k * W) % W == x % W
  {
  }

  lemma Spread(w: int, k: int, s: int)
    ensures (w + k * W) * s == w * s + (k * s) * W
  {
    assert (w + k * W) * s == w * s + (k * W) * s;
    assert (k * W) * s == (k * s) * W;
  }

  lemma ModTwice(x: int, y: int)
    ensures (x % W + y) % W == (x + y) % W
  {
  }

  // ----- the value of the result -----

  // What the pass introduces at a binary operation, with rewritten operands x and
  // y, is harmless: a negation in the type ty of the index and an addition in the
  // type of the index that it is merged with.
  ghost predicate Introduces(env: Env, op: BinaryOp, x: Exp, y: Exp, ty: Type) {
    IsPI(op) ==>
      && (op == MinusPI ==> Harmless(ty, -Eval(env, y)))
      && (IsPlusPI(x) ==> Harmless(TypeOf(x.right), Eval(env, x.right) + Second(env, op, y, ty)))
  }

  // The value of the index that the pass adds.
  ghost function Second(env: Env, op: BinaryOp, y: Exp, ty: Type): int {
    if op == MinusPI then Wrap(ty, -Eval(env, y)) else Eval(env, y)
  }

  // All that the pass introduces in e is harmless.
  ghost predicate Fitting(env: Env, e: Exp)
    decreases e
  {
    match e
    case Const(_, _) => true
    case Lval(lv) => FittingLval(env, lv)
    case UnOp(_, x, _) => Fitting(env, x)
    case BinOp(op, x, y, t) =>
      Fitting(env, x) && Fitting(env, y) && Introduces(env, op, Rewrite(x), Rewrite(y), TypeOf(y))
    case CastE(_, x) => Fitting(env, x)
    case AddrOf(lv) => FittingLval(env, lv)
    case StartOf(lv) => FittingLval(env, lv)
  }

  ghost predicate FittingLval(env: Env, lv: LValue)
    decreases lv
  {
    (lv.host.Mem? ==> Fitting(env, lv.host.e)) && FittingOffset(env, lv.off)
  }

  ghost predicate FittingOffset(env: Env, off: Offset)
    decreases off
  {
    match off
    case NoOffset => true
    case Field(_, rest) => FittingOffset(env, rest)
    case Index(i, rest) => Fitting(env, i) && FittingOffset(env, rest)
  }

  lemma PlusValue(env: Env, p: Exp, i: Exp, t: Type)
    ensures Eval(env, BinOp(PlusPI, p, i, t)) == (Eval(env, p) + Eval(env, i) * env.size(Pointee(TypeOf(p)))) % W
  {
  }

  lemma SumValue(env: Env, i: Exp, j: Exp, t: Type)
    ensures Eval(env, BinOp(PlusA, i, j, t)) == Wrap(t, Eval(env, i) + Eval(env, j))
  {
    hide Wrap;
  }

  lemma NestValue(env: Env, p: Exp, i1: Exp, i2: Exp, t: Type)
    requires t == TypeOf(p)
    ensures
      var s, x, v1, v2 := env.size(Pointee(t)), Eval(env, p), Eval(env, i1), Eval(env, i2);
      var nest := BinOp(PlusPI, BinOp(PlusPI, p, i1, t), i2, t);
      && Eval(env, nest) == (x + v1 * s + v2 * s) % W
      && Eval(env, Merge(nest)) == (x + Wrap(TypeOf(i1), v1 + v2) * s) % W
  {
    hide Wrap, Eval, Apply;
    var s, x, v1, v2 := env.size(Pointee(t)), Eval(env, p), Eval(env, i1), Eval(env, i2);
    PlusValue(env, p, i1, t);
    PlusValue(env, BinOp(PlusPI, p, i1, t), i2, t);
    PlusValue(env, p, BinOp(PlusA, i1, i2, TypeOf(i1)), t);
    SumValue(env, i1, i2, TypeOf(i1));
    ModTwice(x + v1 * s, v2 * s);
  }

  lemma MergeSame(env: Env, e: Exp)
    requires Typed(false, e)
    requires IsPlusPI(e) && IsPlusPI(e.left) ==>
      Harmless(TypeOf(e.left.right), Eval(env, e.left.right) + Eval(env, e.right))
    ensures Eval(env, Merge(e)) == Eval(env, e)
  {
    hide Wrap, Eval, InRange;
    if IsPlusPI(e) && IsPlusPI(e.left) {
      var p, i1, i2 := e.left.left, e.left.right, e.right;
      var s, v1, v2 := env.size(Pointee(e.t)), Eval(env, i1), Eval(env, i2);
      assert Typed(false, e.left) && e.t == e.left.t == TypeOf(p);
      NestValue(env, p, i1, i2, e.t);
      HarmlessScaled(TypeOf(i1), Eval(env, p), v1 + v2, s);
      Distribute(v1, v2, s);
    }
  }

  lemma NegSame(env: Env, p: Exp, i: Exp, t: Type)
    requires Harmless(TypeOf(i), -Eval(env, i))
    ensures Eval(env, BinOp(PlusPI, p, UnOp(Neg, i, TypeOf(i)), t)) == Eval(env, BinOp(MinusPI, p, i, t))
  {
    hide Wrap, InRange;
    var s := env.size(Pointee(TypeOf(p)));
    HarmlessScaled(TypeOf(i), Eval(env, p), -Eval(env, i), s);
    assert -Eval(env, i) * s == -(Eval(env, i) * s);
  }

  lemma RebuiltSame(env: Env, op: BinaryOp, x: Exp, y: Exp, t: Type)
    requires Typed(false, BinOp(op, x, y, t)) && Introduces(env, op, x, y, TypeOf(y))
    ensures Eval(env, Rebuilt(op, x, y, TypeOf(y), t)) == Eval(env, BinOp(op, x, y, t))
  {
    hide Merge, Wrap, Harmless, Apply;
    match op
    case MinusPI =>
      NegSame(env, x, y, t);
      MergeSame(env, BinOp(PlusPI, x, UnOp(Neg, y, TypeOf(y)), t));
    case IndexPI =>
      IndexIsPlus(env, x, y, t);
      MergeSame(env, BinOp(PlusPI, x, y, t));
    case _ => MergeSame(env, BinOp(op, x, y, t));
  }

  lemma IndexIsPlus(env: Env, x: Exp, y: Exp, t: Type)
    ensures Eval(env, BinOp(IndexPI, x, y, t)) == Eval(env, BinOp(PlusPI, x, y, t))
  {
  }

  // The rewritten expression has the value of the original whenever every negation
  // and every addition that the pass introduces is in a type as wide as a pointer or
  // has a result in the range of its type; for nests of any depth.
  lemma {:induction false} RewriteFits(env: Env, e: Exp)
    requires Typed(false, e) && Fitting(env, e)
    ensures Eval(env, Rewrite(e)) == Eval(env, e)
    decreases e
  {
    hide Rebuilt, Wrap, Apply, Introduces;
    RewriteTyped(false, e);
    match e
    case Const(_, _) =>
    case Lval(lv) => RewriteLvalFits(env, lv);
    case UnOp(_, x, _) =>
      RewriteTyped(false, x);
      RewriteFits(env, x);
    case BinOp(op, x, y, t) =>
      RewriteTyped(false, x);
      RewriteTyped(false, y);
      RewriteFits(env, x);
      RewriteFits(env, y);
      RebuiltSame(env, op, Rewrite(x), Rewrite(y), t);
    case CastE(_, x) =>
      RewriteTyped(false, x);
      RewriteFits(env, x);
    case AddrOf(lv) => RewriteLvalFits(env, lv);
    case StartOf(lv) => RewriteLvalFits(env, lv);
  }

  lemma {:induction false} RewriteLvalFits(env: Env, lv: LValue)
    requires TypedLval(false, lv) && FittingLval(env, lv)
    ensures TypeOfLval(RewriteLval(lv)) == TypeOfLval(lv) && Address(env, RewriteLval(lv)) == Address(env, lv)
    decreases lv
  {
    RewriteLvalTyped(false, lv);
    if lv.host.Mem? {
      RewriteTyped(false, lv.host.e);
      RewriteFits(env, lv.host.e);
    }
    RewriteOffsetFits(env, HostType(lv.host), lv.off);
  }

  lemma {:induction false} RewriteOffsetFits(env: Env, t: Type, off: Offset)
    requires TypedOffset(false, off) && FittingOffset(env, off)
    ensures Bytes(env, t, RewriteOffset(off)) == Bytes(env, t, off)
    decreases off
  {
    match off
    case NoOffset =>
    case Field(k, rest) => RewriteOffsetFits(env, FieldType(t, k), rest);
    case Index(i, rest) =>
      RewriteFits(env, i);
      RewriteOffsetFits(env, ElemType(t), rest);
  }

  // Wide indices fit in every environment.
  lemma {:induction false} WideFits(env: Env, e: Exp)
    requires Typed(true, e)
    ensures Typed(false, e) && Fitting(env, e)
    decreases e
  {
    hide Rewrite;
    match e
    case Const(_, _) =>
    case Lval(lv) => WideLvalFits(env, lv);
    case UnOp(_, x, _) => WideFits(env, x);
    case BinOp(op, x, y, _) =>
      WideFits(env, x);
      WideFits(env, y);
      RewriteTyped(true, x);
      WideIntroduces(env, op, Rewrite(x), Rewrite(y), TypeOf(y));
    case CastE(_, x) => WideFits(env, x);
    case AddrOf(lv) => WideLvalFits(env, lv);
    case StartOf(lv) => WideLvalFits(env, lv);
  }

  lemma WideIntroduces(env: Env, op: BinaryOp, x: Exp, y: Exp, ty: Type)
    requires Typed(true, x) && (IsPI(op) ==> Wide(ty))
    ensures Introduces(env, op, x, y, ty)
  {
  }

  lemma {:induction false} WideLvalFits(env: Env, lv: LValue)
    requires TypedLval(true, lv)
    ensures TypedLval(false, lv) && FittingLval(env, lv)
    decreases lv
  {
    if lv.host.Mem? {
      WideFits(env, lv.host.e);
    }
    WideOffsetFits(env, lv.off);
  }

  lemma {:induction false} WideOffsetFits(env: Env, off: Offset)
    requires TypedOffset(true, off)
    ensures TypedOffset(false, off) && FittingOffset(env, off)
    decreases off
  {
    match off
    case NoOffset =>
    case Field(_, rest) => WideOffsetFits(env, rest);
    case Index(i, rest) =>
      WideFits(env, i);
      WideOffsetFits(env, rest);
  }

  // So with index types as wide as a pointer the value is kept in every environment.
  lemma RewriteSame(env: Env, e: Exp)
    requires Typed(true, e)
    ensures Typed(true, Rewrite(e)) && TypeOf(Rewrite(e)) == TypeOf(e) && Eval(env, Rewrite(e)) == Eval(env, e)
  {
    WideFits(env, e);
    RewriteTyped(true, e);
    RewriteFits(env, e);
  }

  // ----- narrower indices -----

  // y may miss the range of the type by at most its width, as the negation of a
  // value does.
  lemma WrapOnce(t: Type, y: int)
    requires t.Int? && t.bytes > 0 && -Modulus(t.bytes) <= y < 2 * Modulus(t.bytes)
    requires t.signed ==> y <= Modulus(t.bytes)
    ensures Wrap(t, y) - y in {-Modulus(t.bytes), 0, Modulus(t.bytes)}
  {
    var m := Modulus(t.bytes);
    assert m == 256 * Modulus(t.bytes - 1);
    ModOnce(y, m);
  }

  lemma ModOnce(y: int, m: int)
    requires 0 < m && -m <= y < 2 * m
    ensures y % m == if y < 0 then y + m else if y < m then y else y - m
  {
    if y == -m {
      assert y == -1 * m;
    }
    var q := y / m;
    assert y == m * q + y % m;
    if q >= 2 {
      Mono(2, q, m);
    } else if q <= -2 {
      Mono(q, -2, m);
    }
  }

  // Doing a step of index arithmetic in type t keeps the address exactly when the
  // result is in the range of the type, unless the error makes up a whole number of
  // address spaces, which it does at pointer width.
  lemma NarrowExact(t: Type, x: int, y: int, s: nat)
    requires t.Int? && 0 < s && -W < (Wrap(t, y) - y) * s < W
    ensures (x + Wrap(t, y) * s) % W == (x + y * s) % W <==> InRange(t, y)
  {
    hide Wrap, InRange;
    WrapExact(t, y);
    var w := Wrap(t, y) - y;
    Distribute(y, w, s);
    if w * s > 0 {
      Apart(x + y * s, w * s);
    } else if w * s < 0 {
      Apart(x + y * s, -(w * s));
    }
    NonZero(w, s);
  }

  lemma Apart(x: int, d: int)
    requires 0 < d < W
    ensures (x + d) % W != x % W && (x - d) % W != x % W
  {
  }

  // A subtraction of a narrower index: the address is kept exactly when the
  // negated index is in range, so for an unsigned index only when it is 0.
  lemma MinusExact(env: Env, p: Exp, i: Exp, t: Type)
    requires var u := TypeOf(i);
      u.Int? && 0 < u.bytes && InRange(u, Eval(env, i))
      && 0 < env.size(Pointee(TypeOf(p))) && Modulus(u.bytes) * env.size(Pointee(TypeOf(p))) < W
    ensures
      var after := Eval(env, BinOp(PlusPI, p, UnOp(Neg, i, TypeOf(i)), t));
      after == Eval(env, BinOp(MinusPI, p, i, t)) <==> InRange(TypeOf(i), -Eval(env, i))
    ensures !TypeOf(i).signed ==> (InRange(TypeOf(i), -Eval(env, i)) <==> Eval(env, i) == 0)
  {
    hide Wrap;
    var u, s := TypeOf(i), env.size(Pointee(TypeOf(p)));
    NegatedOnce(u, Eval(env, i), s);
    NarrowExact(u, Eval(env, p), -Eval(env, i), s);
    assert -Eval(env, i) * s == -(Eval(env, i) * s);
  }

  // The error of a negation, scaled, is at most the width of the type.
  lemma NegatedOnce(u: Type, v: int, s: nat)
    requires u.Int? && 0 < u.bytes && InRange(u, v) && Modulus(u.bytes) * s < W
    ensures -W < (Wrap(u, -v) + v) * s < W
  {
    hide Wrap;
    WrapOnce(u, -v);
    OnceScaled(Wrap(u, -v) + v, Modulus(u.bytes), s);
  }

  lemma OnceScaled(w: int, m: int, s: nat)
    requires w in {-m, 0, m} && m > 0 && m * s < W
    ensures -W < w * s < W
  {
    assert -m * s == -(m * s);
  }

  // Merging two additions, whatever the types of the indices: the sum is computed in
  // the type of the inner one.
  lemma MergeExact(env: Env, p: Exp, i1: Exp, i2: Exp, t: Type)
    requires var u, y := TypeOf(i1), Eval(env, i1) + Eval(env, i2);
      u.Int? && t == TypeOf(p) && 0 < env.size(Pointee(t))
      && -W < (Wrap(u, y) - y) * env.size(Pointee(t)) < W
    ensures
      var nest := BinOp(PlusPI, BinOp(PlusPI, p, i1, t), i2, t);
      Eval(env, Merge(nest)) == Eval(env, nest) <==> InRange(TypeOf(i1), Eval(env, i1) + Eval(env, i2))
  {
    hide Wrap, Eval, Merge, Modulus;
    var u, s := TypeOf(i1), env.size(Pointee(t));
    var x, v1, v2 := Eval(env, p), Eval(env, i1), Eval(env, i2);
    NarrowExact(u, x, v1 + v2, s);
    NestValue(env, p, i1, i2, t);
    Distribute(v1, v2, s);
  }

  // For two indices of one type the error is at most the width of the type.
  lemma MergeOnce(u: Type, v1: int, v2: int, s: nat)
    requires u.Int? && 0 < u.bytes && InRange(u, v1) && InRange(u, v2) && Modulus(u.bytes) * s < W
    ensures -W < (Wrap(u, v1 + v2) - (v1 + v2)) * s < W
  {
    hide Wrap;
    WrapOnce(u, v1 + v2);
    OnceScaled(Wrap(u, v1 + v2) - (v1 + v2), Modulus(u.bytes), s);
  }

  // ----- nests of additions and subtractions, whatever their index types -----

  predicate Nest(e: Exp) {
    e.BinOp? && IsPI(e.bop)
  }

  // The pointer that the nest starts from.
  function Origin(e: Exp): Exp
    decreases e
  {
    if Nest(e) then Origin(e.left) else e
  }

  // How many elements the nest moves it by.
  ghost function Distance(env: Env, e: Exp): int
    decreases e
  {
    if !Nest(e) then 0
    else Distance(env, e.left) + if e.bop == MinusPI then -Eval(env, e.right) else Eval(env, e.right)
  }

  // The innermost index gives its type to all that is merged with it.
  function IndexType(e: Exp): Type
    requires Nest(e)
    decreases e
  {
    if Nest(e.left) then IndexType(e.left) else TypeOf(e.right)
  }

  // How many elements it is moved by when the indices are added up in that type,
  // those subtracted after a negation in their own.
  ghost function Computed(env: Env, e: Exp): int
    requires Nest(e)
    decreases e
  {
    var v := Second(env, e.bop, e.right, TypeOf(e.right));
    if Nest(e.left) then Wrap(IndexType(e.left), Computed(env, e.left) + v) else v
  }

  // The pass keeps the values of the indices and of the pointer at the origin.
  ghost predicate PartsKept(env: Env, e: Exp)
    decreases e
  {
    if Nest(e) then PartsKept(env, e.left) && Eval(env, Rewrite(e.right)) == Eval(env, e.right)
    else Eval(env, Rewrite(e)) == Eval(env, e)
  }

  // As it does if what it introduces inside them is harmless, whatever it
  // introduces in the nest itself.
  ghost predicate PartsFit(env: Env, e: Exp)
    decreases e
  {
    if Nest(e) then PartsFit(env, e.left) && Fitting(env, e.right) else Fitting(env, e)
  }

  lemma {:induction false} PartsFitKept(env: Env, e: Exp)
    requires Typed(false, e) && PartsFit(env, e)
    ensures PartsKept(env, e)
    decreases e
  {
    hide Rewrite, Eval, Fitting;
    if Nest(e) {
      PartsFitKept(env, e.left);
      RewriteFits(env, e.right);
    } else {
      RewriteFits(env, e);
    }
  }

  lemma NotNest(e: Exp)
    requires !Nest(e)
    ensures !IsPlusPI(Rewrite(e))
  {
  }

  // The value of the nest.
  lemma {:induction false} NestDistance(env: Env, e: Exp)
    requires Typed(false, e) && Nest(e)
    ensures TypeOf(Origin(e)) == e.t
    ensures Eval(env, e) == (Eval(env, Origin(e)) + Distance(env, e) * env.size(Pointee(e.t))) % W
    decreases e
  {
    hide Wrap;
    var x, v, s := Eval(env, Origin(e)), Distance(env, e) - Distance(env, e.left), env.size(Pointee(e.t));
    assert Eval(env, e) == (Eval(env, e.left) + v * s) % W by {
      assert -Eval(env, e.right) * s == -(Eval(env, e.right) * s);
    }
    if Nest(e.left) {
      NestDistance(env, e.left);
      ModTwice(x + Distance(env, e.left) * s, v * s);
    }
    Distribute(Distance(env, e.left), v, s);
  }

  // The rewritten nest is one addition to its origin.
  lemma {:induction false} NestRewritten(env: Env, e: Exp)
    requires Typed(false, e) && Nest(e) && PartsKept(env, e)
    ensures var r := Rewrite(e);
      && IsPlusPI(r) && r.left == Rewrite(Origin(e)) && r.t == e.t
      && TypeOf(r.right) == IndexType(e) && Eval(env, r.right) == Computed(env, e)
    ensures Eval(env, Rewrite(Origin(e))) == Eval(env, Origin(e))
    decreases e
  {
    hide Wrap;
    var y := Rewrite(e.right);
    RewriteTyped(false, e.right);
    if Nest(e.left) {
      NestRewritten(env, e.left);
    } else {
      NotNest(e.left);
    }
  }

  // The address is kept exactly when the error that has accumulated in the index,
  // times the size of an element, makes up a whole number of address spaces.
  lemma NestExact(env: Env, e: Exp)
    requires Typed(false, e) && Nest(e) && PartsKept(env, e)
    ensures
      var error, s := Computed(env, e) - Distance(env, e), env.size(Pointee(e.t));
      && (Eval(env, Rewrite(e)) == Eval(env, e) <==> (error * s) % W == 0)
      && (s > 0 && -W < error * s < W ==> (Eval(env, Rewrite(e)) == Eval(env, e) <==> error == 0))
  {
    hide Wrap, Computed, Distance, Rewrite;
    var s, x := env.size(Pointee(e.t)), Eval(env, Origin(e));
    var d, error := Distance(env, e), Computed(env, e) - Distance(env, e);
    NestDistance(env, e);
    NestRewritten(env, e);
    RewriteTyped(false, e);
    PlusValue(env, Rewrite(e).left, Rewrite(e).right, e.t);
    Distribute(d, error, s);
    SameAddress(x + d * s, error * s);
    if s > 0 {
      NonZero(error, s);
    }
  }
}
