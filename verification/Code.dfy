// The statements of CIL function bodies that the split pass of crunchbound.ml
// works on, and what executing them means.
module Code {
  import opened Wrappers

  // Program state apart from the temporaries that receive check results.
  type Mem(!new)

  // Labels the programmer wrote, case labels of switches, and the three kinds
  // of label the pass makes: "__bottomhalf_" before a user label, and
  // "__crunchbound_primary_check_n" and "__crunchbound_full_check_n".
  datatype Label =
    | User(id: nat)
    | Case(id: nat)
    | BottomHalf(id: nat)
    | PrimaryLabel(n: nat)
    | FullLabel(n: nat)

  // A pointer-derivation check: where its result goes, the primary test, and
  // what the secondary check does and returns when the primary test fails.
  datatype Check = Check(out: nat, primary: Mem -> bool, secondary: Mem -> (Mem, bool))

  datatype Instr =
    | Plain(effect: Mem -> Mem)
    | FullCheck(check: Check)
    | PrimaryCheck(check: Check)
    | Transition

  datatype Cond = OnMem(test: Mem -> bool) | NotOut(out: nat)

  datatype Stmt = Stmt(labels: seq<Label>, kind: Kind)

  datatype Kind =
    | Instrs(instrs: seq<Instr>)
    | Return(result: Mem -> int)
    | Goto(target: Label)
    | Break
    | Continue
    | If(cond: Cond, thn: Block, els: Block)
    | Loop(body: Block)
    | Block(body: Block)
    | Switch(selector: Mem -> nat, body: Block, cases: seq<Label>)

  datatype Block = Nil | Cons(head: Stmt, tail: Block)

  // ----- execution -----

  datatype State = State(mem: Mem, outs: map<nat, bool>, transitions: nat)

  // What is left to do after the current statement.
  datatype Kont = Stop | Seq(rest: Block, k: Kont) | InLoop(body: Block, k: Kont) | InSwitch(k: Kont)

  datatype Config =
    | Run(stmt: Stmt, k: Kont, st: State)
    | Returned(result: int, st: State)
    | FellOff(st: State)
    | Stuck

  // A full check is the primary check followed, if that fails, by the secondary.
  function Exec(i: Instr, st: State): State {
    match i
    case Plain(f) => st.(mem := f(st.mem))
    case PrimaryCheck(c) => st.(outs := st.outs[c.out := c.primary(st.mem)])
    case FullCheck(c) =>
      if c.primary(st.mem) then st.(outs := st.outs[c.out := true])
      else
        var (m, ok) := c.secondary(st.mem);
        st.(mem := m, outs := st.outs[c.out := ok])
    case Transition => st.(transitions := st.transitions + 1)
  }

  // The full check does what the primary one does, and if that fails goes on to do
  // what the secondary one does, whose result then counts.
  lemma FullExact(c: Check, st: State)
    ensures
      var st1, st2 := Exec(PrimaryCheck(c), st), Exec(FullCheck(c), st);
      && st1.mem == st.mem && st1.transitions == st2.transitions == st.transitions
      && c.out in st1.outs && st1.outs[c.out] == c.primary(st.mem)
      && (st1.outs[c.out] ==> st2 == st1)
      && (!st1.outs[c.out] ==>
            st2.mem == c.secondary(st.mem).0 && st2.outs == st.outs[c.out := c.secondary(st.mem).1])
  {
  }

  predicate Holds(c: Cond, st: State) {
    match c
    case OnMem(p) => p(st.mem)
    case NotOut(v) => !(v in st.outs && st.outs[v])
  }

  function Resume(k: Kont, st: State): Config {
    match k
    case Stop => FellOff(st)
    case Seq(Nil, k') => Resume(k', st)
    case Seq(Cons(s, b), k') => Run(s, Seq(b, k'), st)
    case InLoop(b, k') => Run(Stmt([], Loop(b)), k', st)
    case InSwitch(k') => Resume(k', st)
  }

  function Broken(k: Kont, st: State): Config {
    match k
    case Stop => Stuck
    case Seq(_, k') => Broken(k', st)
    case InLoop(_, k') => Resume(k', st)
    case InSwitch(k') => Resume(k', st)
  }

  function Continued(k: Kont, st: State): Config {
    match k
    case Stop => Stuck
    case Seq(_, k') => Continued(k', st)
    case InLoop(_, _) => Resume(k, st)
    case InSwitch(k') => Continued(k', st)
  }

  // The statement that carries a label, and what is left to do after it.
  function FindStmt(s: Stmt, l: Label, k: Kont): Option<(Stmt, Kont)> {
    if l in s.labels then Some((s, k))
    else
      match s.kind
      case If(_, t, e) =>
        var r := FindBlock(t, l, k);
        if r.Some? then r else FindBlock(e, l, k)
      case Loop(b) => FindBlock(b, l, InLoop(b, k))
      case Block(b) => FindBlock(b, l, k)
      case Switch(_, b, _) => FindBlock(b, l, InSwitch(k))
      case _ => None
  }

  function FindBlock(b: Block, l: Label, k: Kont): Option<(Stmt, Kont)> {
    match b
    case Nil => None
    case Cons(s, rest) =>
      var r := FindStmt(s, l, Seq(rest, k));
      if r.Some? then r else FindBlock(rest, l, k)
  }

  function Jump(target: Option<(Stmt, Kont)>, st: State): Config {
    match target
    case None => Stuck
    case Some((s, k)) => Run(s, k, st)
  }

  // One step of a function whose body is p.
  function Step(p: Block, c: Config): Config {
    if !c.Run? then c
    else
      var k, st := c.k, c.st;
      match c.stmt.kind
      case Instrs(ins) =>
        if ins == [] then Resume(k, st) else Run(Stmt([], Instrs(ins[1..])), k, Exec(ins[0], st))
      case Return(e) => Returned(e(st.mem), st)
      case Goto(l) => Jump(FindBlock(p, l, Stop), st)
      case Break => Broken(k, st)
      case Continue => Continued(k, st)
      case If(g, t, e) => Resume(Seq(if Holds(g, st) then t else e, k), st)
      case Loop(b) => Resume(Seq(b, InLoop(b, k)), st)
      case Block(b) => Resume(Seq(b, k), st)
      case Switch(f, b, cases) =>
        if f(st.mem) < |cases| then Jump(FindBlock(b, cases[f(st.mem)], InSwitch(k)), st) else Resume(k, st)
  }

  function Steps(p: Block, c: Config, n: nat): Config
    decreases n
  {
    if n == 0 then c else Steps(p, Step(p, c), n - 1)
  }

  function Start(p: Block, st: State): Config {
    Resume(Seq(p, Stop), st)
  }

  lemma {:induction false} StepsAdd(p: Block, c: Config, m: nat, n: nat)
    ensures Steps(p, c, m + n) == Steps(p, Steps(p, c, m), n)
    decreases m
  {
    if m == 0 {
    } else {
      StepsAdd(p, Step(p, c), m - 1, n);
    }
  }

  // What does not run any more stays as it is.
  lemma {:induction false} StepsEnded(p: Block, c: Config, n: nat)
    requires !c.Run?
    ensures Steps(p, c, n) == c
    decreases n
  {
    if n == 0 {
    } else {
      StepsEnded(p, c, n - 1);
    }
  }

  // ----- source code -----

  // Code as crunchbound hands it to the split pass: no labels, checks or tests
  // of the pass's own.
  predicate SourceLabel(l: Label) {
    l.User? || l.Case?
  }

  predicate SourceStmt(s: Stmt) {
    && (forall l <- s.labels :: SourceLabel(l))
    && match s.kind
       case Instrs(ins) => forall i :: 0 <= i < |ins| ==> ins[i].Plain? || ins[i].FullCheck?
       case Goto(l) => l.User?
       case If(c, t, e) => c.OnMem? && SourceBlock(t) && SourceBlock(e)
       case Loop(b) => SourceBlock(b)
       case Block(b) => SourceBlock(b)
       case Switch(_, b, cases) => SourceBlock(b) && forall l <- cases :: l.Case?
       case _ => true
  }

  predicate SourceBlock(b: Block) {
    match b
    case Nil => true
    case Cons(s, rest) => SourceStmt(s) && SourceBlock(rest)
  }
}
