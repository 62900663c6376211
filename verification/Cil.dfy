// CIL expressions and what they evaluate to.
module Cil {
  import opened MachineWord

  // Types up to typedefs and attributes: the concrete types of the source.
  datatype Type =
    | Void
    | Int(signed: bool, bytes: nat)
    | Ptr(to: Type)
    | Arr(elem: Type, count: nat)
    | Comp(fields: seq<Type>)

  datatype UnaryOp = Neg | OtherUnary(id: nat)
  datatype BinaryOp = PlusPI | IndexPI | MinusPI | PlusA | OtherBinary(id: nat)

  datatype Exp =
    | Const(value: int, t: Type)
    | Lval(lv: LValue)
    | UnOp(uop: UnaryOp, e: Exp, t: Type)
    | BinOp(bop: BinaryOp, left: Exp, right: Exp, t: Type)
    | CastE(t: Type, e: Exp)
    | AddrOf(lv: LValue)
    | StartOf(lv: LValue)
  datatype LValue = Lv(host: Host, off: Offset)
  datatype Host = Var(id: nat, vt: Type) | Mem(e: Exp)
  datatype Offset = NoOffset | Field(k: nat, rest: Offset) | Index(i: Exp, rest: Offset)

  // ----- types -----

  function Pointee(t: Type): Type {
    if t.Ptr? then t.to else Void
  }

  function Decayed(t: Type): Type {
    if t.Arr? then Ptr(t.elem) else Ptr(t)
  }

  function FieldType(t: Type, k: nat): Type {
    if t.Comp? && k < |t.fields| then t.fields[k] else Void
  }

  function ElemType(t: Type): Type {
    if t.Arr? then t.elem else Void
  }

  function OffsetType(t: Type, off: Offset): Type
    decreases off
  {
    match off
    case NoOffset => t
    case Field(k, rest) => OffsetType(FieldType(t, k), rest)
    case Index(_, rest) => OffsetType(ElemType(t), rest)
  }

  function TypeOf(e: Exp): Type {
    match e
    case Const(_, t) => t
    case Lval(lv) => TypeOfLval(lv)
    case UnOp(_, _, t) => t
    case BinOp(_, _, _, t) => t
    case CastE(t, _) => t
    case AddrOf(lv) => Ptr(TypeOfLval(lv))
    case StartOf(lv) => Decayed(TypeOfLval(lv))
  }

  function TypeOfLval(lv: LValue): Type {
    OffsetType(HostType(lv.host), lv.off)
  }

  function HostType(h: Host): Type {
    match h
    case Var(_, t) => t
    case Mem(e) => Pointee(TypeOf(e))
  }

  // The types of x, *p, x.f and x[i] with what follows, &x and the start of x.
  lemma PartTypes(id: nat, fs: seq<Type>, k: nat, elem: Type, n: nat, i: Exp, p: Exp, lv: LValue, rest: Offset)
    requires k < |fs|
    ensures HostType(Var(id, elem)) == elem && (TypeOf(p) == Ptr(elem) ==> HostType(Mem(p)) == elem)
    ensures OffsetType(elem, NoOffset) == elem
    ensures OffsetType(Comp(fs), Field(k, rest)) == OffsetType(fs[k], rest)
    ensures OffsetType(Arr(elem, n), Index(i, rest)) == OffsetType(elem, rest)
    ensures TypeOfLval(lv) == Arr(elem, n) ==> TypeOf(StartOf(lv)) == Ptr(elem)
    ensures TypeOf(Lval(lv)) == TypeOfLval(lv) && TypeOf(AddrOf(lv)) == Ptr(TypeOfLval(lv))
  {
  }

  // ----- values -----

  // Where variables are, how types are laid out, what memory holds, and what the
  // operations and conversions that are of no concern here compute.
  datatype Env = Env(
    ghost address: nat -> int,
    ghost size: Type -> int,
    ghost layout: (Type, nat) -> int,
    ghost load: (int, Type) -> int,
    ghost unary: (nat, Type, Type, int) -> int,
    ghost binary: (nat, Type, Type, Type, int, int) -> int,
    ghost convert: (Type, Type, int) -> int)

  function Modulus(bytes: nat): (m: int)
    ensures m > 0
  {
    if bytes == 0 then 1 else 256 * Modulus(bytes - 1)
  }

  lemma ModulusOfWord()
    ensures Modulus(8) == W
  {
    assert Modulus(4) == 256 * Modulus(3);
    assert Modulus(8) == 256 * Modulus(7);
  }

  // x as a value of an integer type, wrapping around.
  function Wrap(t: Type, x: int): int {
    if !t.Int? then x
    else
      var m := Modulus(t.bytes);
      if t.signed && x % m >= (m + 1) / 2 then x % m - m else x % m
  }

  ghost function Eval(env: Env, e: Exp): int
    decreases e
  {
    match e
    case Const(v, _) => v
    case Lval(lv) => env.load(Address(env, lv), TypeOfLval(lv))
    case UnOp(Neg, x, t) => Wrap(t, -Eval(env, x))
    case UnOp(OtherUnary(id), x, t) => env.unary(id, TypeOf(x), t, Eval(env, x))
    case BinOp(op, x, y, t) => Apply(env, op, TypeOf(x), TypeOf(y), t, Eval(env, x), Eval(env, y))
    case CastE(t, x) => if t == TypeOf(x) then Eval(env, x) else env.convert(t, TypeOf(x), Eval(env, x))
    case AddrOf(lv) => Address(env, lv)
    case StartOf(lv) => Address(env, lv)
  }

  // Pointer arithmetic scales by the size of what the left operand points to.
  ghost function Apply(env: Env, op: BinaryOp, tx: Type, ty: Type, t: Type, x: int, y: int): int {
    match op
    case PlusPI => (x + y * env.size(Pointee(tx))) % W
    case IndexPI => (x + y * env.size(Pointee(tx))) % W
    case MinusPI => (x - y * env.size(Pointee(tx))) % W
    case PlusA => Wrap(t, x + y)
    case OtherBinary(id) => env.binary(id, tx, ty, t, x, y)
  }

  // Nothing wraps around inside the object that an lvalue lies in.
  ghost function Address(env: Env, lv: LValue): int
    decreases lv
  {
    HostAddress(env, lv.host) + Bytes(env, HostType(lv.host), lv.off)
  }

  ghost function HostAddress(env: Env, h: Host): int
    decreases h
  {
    match h
    case Var(id, _) => env.address(id)
    case Mem(e) => Eval(env, e)
  }

  ghost function Bytes(env: Env, t: Type, off: Offset): int
    decreases off
  {
    match off
    case NoOffset => 0
    case Field(k, rest) => env.layout(t, k) + Bytes(env, FieldType(t, k), rest)
    case Index(i, rest) => Eval(env, i) * env.size(ElemType(t)) + Bytes(env, ElemType(t), rest)
  }

  // Moving an address by d bytes.
  lemma SameAddress(x: int, d: int)
    ensures (x + d) % W == x % W <==> d % W == 0
    ensures -W < d < W ==> (d % W == 0 <==> d == 0)
  {
  }
}
