// primarySecondarySplitVisitor of crunchbound.ml: a function body becomes a top
// half with primary checks only and a bottom half with full checks.
module Split {
  import opened Code

  datatype Half = Top | Bottom

  // Number of checks, which is how far the label counter moves.
  function CountInstrs(ins: seq<Instr>): nat {
    if ins == [] then 0 else (if ins[0].FullCheck? then 1 else 0) + CountInstrs(ins[1..])
  }

  function CountStmt(s: Stmt): nat {
    match s.kind
    case Instrs(ins) => CountInstrs(ins)
    case If(_, t, e) => CountBlock(t) + CountBlock(e)
    case Loop(b) => CountBlock(b)
    case Block(b) => CountBlock(b)
    case Switch(_, b, _) => CountBlock(b)
    case _ => 0
  }

  function CountBlock(b: Block): nat {
    match b
    case Nil => 0
    case Cons(s, rest) => CountStmt(s) + CountBlock(rest)
  }

  // maybeSplitInstrs: every check becomes a group of its own.
  function Groups(cur: seq<Instr>, ins: seq<Instr>): (gs: seq<seq<Instr>>)
    ensures gs != []
    decreases |ins|
  {
    if ins == [] then [cur]
    else if ins[0].FullCheck? then [cur, [ins[0]]] + Groups([], ins[1..])
    else Groups(cur + [ins[0]], ins[1..])
  }

  // A check in its own statement.  The bottom half labels it; the top half makes
  // it a primary check with a test and a jump to the label with the same number.
  function CheckStmt(h: Half, c: Check, n: nat): Stmt {
    match h
    case Bottom => Stmt([FullLabel(n)], Instrs([FullCheck(c)]))
    case Top =>
      var jump := Cons(Stmt([], Instrs([Transition])), Cons(Stmt([], Goto(FullLabel(n))), Nil));
      Stmt([], Block(
             Cons(Stmt([PrimaryLabel(n)], Instrs([PrimaryCheck(c)])),
             Cons(Stmt([], If(NotOut(c.out), Cons(Stmt([], Block(jump)), Nil), Nil)),
             Nil))))
  }

  // groupAndLabelInstrs, with the counter at n.
  function LabelGroups(h: Half, gs: seq<seq<Instr>>, n: nat): Block {
    if gs == [] then Nil
    else if |gs[0]| == 1 && gs[0][0].FullCheck? then
      Cons(CheckStmt(h, gs[0][0].check, n), LabelGroups(h, gs[1..], n + 1))
    else
      Cons(Stmt([], Instrs(gs[0])), LabelGroups(h, gs[1..], n))
  }

  // copyBlockVisitor prefixes the labels that are names, and redirects gotos.
  function HalfLabel(h: Half, l: Label): Label {
    if h.Bottom? && l.User? then BottomHalf(l.id) else l
  }

  function HalfLabels(h: Half, ls: seq<Label>): (r: seq<Label>)
    ensures |r| == |ls| && forall i :: 0 <= i < |ls| ==> r[i] == HalfLabel(h, ls[i])
  {
    seq(|ls|, i requires 0 <= i < |ls| => HalfLabel(h, ls[i]))
  }

  function HalfStmt(h: Half, s: Stmt, n: nat): Stmt {
    Stmt(HalfLabels(h, s.labels),
         match s.kind
         case Instrs(ins) => Block(LabelGroups(h, Groups([], ins), n))
         case Goto(l) => Goto(HalfLabel(h, l))
         case If(c, t, e) => If(c, HalfBlock(h, t, n), HalfBlock(h, e, n + CountBlock(t)))
         case Loop(b) => Loop(HalfBlock(h, b, n))
         case Block(b) => Block(HalfBlock(h, b, n))
         case Switch(f, b, cases) => Switch(f, HalfBlock(h, b, n), cases)
         case other => other)
  }

  function HalfBlock(h: Half, b: Block, n: nat): Block {
    match b
    case Nil => Nil
    case Cons(s, rest) => Cons(HalfStmt(h, s, n), HalfBlock(h, rest, n + CountStmt(s)))
  }

  const ASM: Stmt := Stmt([], Instrs([]))

  // What follows each half: section directives around the bottom half.
  function After(h: Half, p: Block): Block
    decreases if h.Top? then 1 else 0
  {
    match h
    case Bottom => Cons(ASM, Nil)
    case Top => Cons(ASM, Cons(Stmt([], Block(HalfBlock(Bottom, p, 0))), After(Bottom, p)))
  }

  // The new body.
  function SplitBody(p: Block): Block {
    Cons(Stmt([], Block(HalfBlock(Top, p, 0))), After(Top, p))
  }
}
