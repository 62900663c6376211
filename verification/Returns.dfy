// What crunchBoundVisitor makes of the returns of a function body before the split
// pass, and how the result runs.
module Returns {
  import opened Code
  import opened FallThrough
  import opened Wrappers

  // Which returns have a value, and what is then pushed and returned.
  type Pushes = (Mem -> int) -> Option<(seq<Instr>, Mem -> int)>

  // Before the split pass, every return of a value becomes a test whether the
  // caller is instrumented, with the pushes of the result bounds and the return in
  // both branches.
  function ReturnsStmt(flag: Mem -> bool, pushes: Pushes, s: Stmt): Stmt {
    Stmt(s.labels,
         match s.kind
         case Return(e) => (match pushes(e) case None => s.kind case Some((ins, r)) => InstrumentedReturn(flag, ins, r))
         case If(c, t, e) => If(c, ReturnsBlock(flag, pushes, t), ReturnsBlock(flag, pushes, e))
         case Loop(b) => Loop(ReturnsBlock(flag, pushes, b))
         case Block(b) => Block(ReturnsBlock(flag, pushes, b))
         case Switch(f, b, cases) => Switch(f, ReturnsBlock(flag, pushes, b), cases)
         case other => other)
  }

  function InstrumentedReturn(flag: Mem -> bool, ins: seq<Instr>, r: Mem -> int): Kind {
    var ret := Cons(Stmt([], Return(r)), Nil);
    var both := Cons(Stmt([], Instrs(ins)), ret);
    If(OnMem(flag), if ins == [] then ret else both, both)
  }

  function ReturnsBlock(flag: Mem -> bool, pushes: Pushes, b: Block): Block {
    match b
    case Nil => Nil
    case Cons(s, rest) => Cons(ReturnsStmt(flag, pushes, s), ReturnsBlock(flag, pushes, rest))
  }

  // ----- syntax -----

  // That changes nothing about where the body can end.
  lemma {:induction false} ReturnsStmtEnds(flag: Mem -> bool, pushes: Pushes, s: Stmt)
    ensures BreaksStmt(ReturnsStmt(flag, pushes, s)) == BreaksStmt(s)
    ensures EndsStmt(ReturnsStmt(flag, pushes, s)) <==> EndsStmt(s)
  {
    match s.kind
    case Return(e) =>
      if pushes(e).Some? {
        InstrumentedEnds(flag, pushes(e).value.0, pushes(e).value.1);
      }
    case If(_, t, e) =>
      ReturnsEnd(flag, pushes, t);
      ReturnsEnd(flag, pushes, e);
    case Loop(b) => ReturnsEnd(flag, pushes, b);
    case Block(b) => ReturnsEnd(flag, pushes, b);
    case Switch(_, b, _) => ReturnsEnd(flag, pushes, b);
    case _ =>
  }

  lemma InstrumentedEnds(flag: Mem -> bool, ins: seq<Instr>, r: Mem -> int)
    ensures var s := Stmt([], InstrumentedReturn(flag, ins, r)); EndsStmt(s) && !BreaksStmt(s)
  {
    hide EndsBlock, BreaksBlock;
    var push, ret := Stmt([], Instrs(ins)), Stmt([], Return(r));
    OneMore(ret, Nil);
    OneMore(push, Cons(ret, Nil));
  }

  lemma OneMore(s: Stmt, rest: Block)
    ensures EndsBlock(Cons(s, rest)) <==> if rest == Nil then EndsStmt(s) else EndsBlock(rest)
    ensures BreaksBlock(Cons(s, rest)) <==> BreaksStmt(s) || (rest != Nil && BreaksBlock(rest))
  {
  }

  lemma {:induction false} ReturnsEnd(flag: Mem -> bool, pushes: Pushes, b: Block)
    ensures BreaksBlock(ReturnsBlock(flag, pushes, b)) == BreaksBlock(b)
    ensures EndsBlock(ReturnsBlock(flag, pushes, b)) <==> EndsBlock(b)
  {
    match b
    case Nil =>
    case Cons(s, rest) =>
      ReturnsStmtEnds(flag, pushes, s);
      ReturnsEnd(flag, pushes, rest);
      assert ReturnsBlock(flag, pushes, rest) == Nil <==> rest == Nil;
  }

  // Pushes are calls of the runtime, not checks.
  ghost predicate PlainPushes(pushes: Pushes) {
    forall e: Mem -> int :: pushes(e).Some? ==> forall i | 0 <= i < |pushes(e).value.0| :: pushes(e).value.0[i].Plain?
  }

  // The result is still code that the split pass takes.
  lemma {:induction false} ReturnsSource(flag: Mem -> bool, pushes: Pushes, b: Block)
    requires PlainPushes(pushes) && SourceBlock(b)
    ensures SourceBlock(ReturnsBlock(flag, pushes, b))
  {
    match b
    case Nil =>
    case Cons(s, rest) =>
      ReturnsStmtSource(flag, pushes, s);
      ReturnsSource(flag, pushes, rest);
  }

  lemma {:induction false} ReturnsStmtSource(flag: Mem -> bool, pushes: Pushes, s: Stmt)
    requires PlainPushes(pushes) && SourceStmt(s)
    ensures SourceStmt(ReturnsStmt(flag, pushes, s))
  {
    match s.kind
    case Return(e) =>
      if pushes(e).Some? {
        InstrumentedSource(flag, pushes(e).value.0, pushes(e).value.1);
      }
    case If(_, t, e) =>
      ReturnsSource(flag, pushes, t);
      ReturnsSource(flag, pushes, e);
    case Loop(b) => ReturnsSource(flag, pushes, b);
    case Block(b) => ReturnsSource(flag, pushes, b);
    case Switch(_, b, _) => ReturnsSource(flag, pushes, b);
    case _ =>
  }

  lemma InstrumentedSource(flag: Mem -> bool, ins: seq<Instr>, r: Mem -> int)
    requires forall i | 0 <= i < |ins| :: ins[i].Plain?
    ensures SourceStmt(Stmt([], InstrumentedReturn(flag, ins, r)))
  {
    var push, ret := Stmt([], Instrs(ins)), Cons(Stmt([], Return(r)), Nil);
    assert SourceStmt(push);
    assert SourceBlock(ret);
    assert SourceBlock(Cons(push, ret));
  }

  // ----- one instrumented return -----

  function ExecAll(ins: seq<Instr>, st: State): State {
    if ins == [] then st else ExecAll(ins[1..], Exec(ins[0], st))
  }

  lemma {:induction false} InstrsRun(b: Block, ins: seq<Instr>, k: Kont, st: State)
    ensures Steps(b, Run(Stmt([], Instrs(ins)), k, st), |ins| + 1) == Resume(k, ExecAll(ins, st))
    decreases |ins|
  {
    hide Resume;
    var c := Run(Stmt([], Instrs(ins)), k, st);
    if ins == [] {
      assert Steps(b, c, 1) == Steps(b, Step(b, c), 0);
    } else {
      InstrsRun(b, ins[1..], k, Exec(ins[0], st));
      assert Step(b, c) == Run(Stmt([], Instrs(ins[1..])), k, Exec(ins[0], st));
      assert |ins[1..]| == |ins| - 1;
    }
  }

  // Whatever the test says, all pushes are made, in order, and then the value is
  // returned.
  lemma ReturnRuns(b: Block, ls: seq<Label>, flag: Mem -> bool, ins: seq<Instr>, r: Mem -> int, k: Kont, st: State)
    returns (m: nat)
    ensures var st1 := ExecAll(ins, st);
      Steps(b, Run(Stmt(ls, InstrumentedReturn(flag, ins, r)), k, st), m) == Returned(r(st1.mem), st1)
  {
    var c := Run(Stmt(ls, InstrumentedReturn(flag, ins, r)), k, st);
    var ret, push := Cons(Stmt([], Return(r)), Nil), Stmt([], Instrs(ins));
    if ins == [] && flag(st.mem) {
      m := 2;
      ReturnStep(b, r, Seq(Nil, k), st);
      assert Step(b, c) == Run(Stmt([], Return(r)), Seq(Nil, k), st);
      assert Steps(b, c, 2) == Steps(b, Step(b, c), 1);
    } else {
      m := |ins| + 3;
      assert Step(b, c) == Run(push, Seq(ret, k), st);
      InstrsRun(b, ins, Seq(ret, k), st);
      StepsAdd(b, Step(b, c), |ins| + 1, 1);
      ReturnStep(b, r, Seq(Nil, k), ExecAll(ins, st));
      assert Steps(b, c, m) == Steps(b, Step(b, c), |ins| + 2);
    }
  }

  lemma ReturnStep(b: Block, r: Mem -> int, k: Kont, st: State)
    ensures Steps(b, Run(Stmt([], Return(r)), k, st), 1) == Returned(r(st.mem), st)
  {
    var c := Run(Stmt([], Return(r)), k, st);
    assert Steps(b, c, 1) == Steps(b, Step(b, c), 0);
  }

  // ----- whole runs -----

  function ReturnsKont(flag: Mem -> bool, pushes: Pushes, k: Kont): Kont {
    match k
    case Stop => Stop
    case Seq(b, k') => Seq(ReturnsBlock(flag, pushes, b), ReturnsKont(flag, pushes, k'))
    case InLoop(b, k') => InLoop(ReturnsBlock(flag, pushes, b), ReturnsKont(flag, pushes, k'))
    case InSwitch(k') => InSwitch(ReturnsKont(flag, pushes, k'))
  }

  // The same point in the instrumented body, with the same state.
  function ReturnsConfig(flag: Mem -> bool, pushes: Pushes, c: Config): Config {
    match c
    case Run(s, k, st) => Run(ReturnsStmt(flag, pushes, s), ReturnsKont(flag, pushes, k), st)
    case _ => c
  }

  lemma {:induction false} ResumeReturns(flag: Mem -> bool, pushes: Pushes, k: Kont, st: State)
    ensures Resume(ReturnsKont(flag, pushes, k), st) == ReturnsConfig(flag, pushes, Resume(k, st))
  {
    match k
    case Stop =>
    case Seq(Nil, k') => ResumeReturns(flag, pushes, k', st);
    case Seq(Cons(_, _), _) =>
    case InLoop(_, _) =>
    case InSwitch(k') => ResumeReturns(flag, pushes, k', st);
  }

  lemma {:induction false} BrokenReturns(flag: Mem -> bool, pushes: Pushes, k: Kont, st: State)
    ensures Broken(ReturnsKont(flag, pushes, k), st) == ReturnsConfig(flag, pushes, Broken(k, st))
  {
    match k
    case Stop =>
    case Seq(_, k') => BrokenReturns(flag, pushes, k', st);
    case InLoop(_, k') => ResumeReturns(flag, pushes, k', st);
    case InSwitch(k') => ResumeReturns(flag, pushes, k', st);
  }

  lemma {:induction false} ContinuedReturns(flag: Mem -> bool, pushes: Pushes, k: Kont, st: State)
    ensures Continued(ReturnsKont(flag, pushes, k), st) == ReturnsConfig(flag, pushes, Continued(k, st))
  {
    match k
    case Stop =>
    case Seq(_, k') => ContinuedReturns(flag, pushes, k', st);
    case InLoop(_, _) => ResumeReturns(flag, pushes, k, st);
    case InSwitch(k') => ContinuedReturns(flag, pushes, k', st);
  }

  function ReturnsTarget(flag: Mem -> bool, pushes: Pushes, r: Option<(Stmt, Kont)>): Option<(Stmt, Kont)> {
    match r
    case None => None
    case Some((s, k)) => Some((ReturnsStmt(flag, pushes, s), ReturnsKont(flag, pushes, k)))
  }

  lemma {:induction false} FindReturnsStmt(flag: Mem -> bool, pushes: Pushes, s: Stmt, l: Label, k: Kont)
    ensures FindStmt(ReturnsStmt(flag, pushes, s), l, ReturnsKont(flag, pushes, k))
         == ReturnsTarget(flag, pushes, FindStmt(s, l, k))
  {
    hide FindBlock, ReturnsBlock;
    if l in s.labels {
    } else {
      match s.kind
      case Return(e) =>
        if pushes(e).Some? {
          NoLabelInside(flag, pushes(e).value.0, pushes(e).value.1, l, ReturnsKont(flag, pushes, k));
        }
      case If(_, t, e) =>
        FindReturns(flag, pushes, t, l, k);
        FindReturns(flag, pushes, e, l, k);
      case Loop(b) => FindReturns(flag, pushes, b, l, InLoop(b, k));
      case Block(b) => FindReturns(flag, pushes, b, l, k);
      case Switch(_, b, _) => FindReturns(flag, pushes, b, l, InSwitch(k));
      case _ =>
    }
  }

  lemma NoLabelInside(flag: Mem -> bool, ins: seq<Instr>, r: Mem -> int, l: Label, k: Kont)
    ensures FindBlock(InstrumentedReturn(flag, ins, r).thn, l, k) == None
    ensures FindBlock(InstrumentedReturn(flag, ins, r).els, l, k) == None
  {
    var push, ret := Stmt([], Instrs(ins)), Stmt([], Return(r));
    assert FindStmt(ret, l, Seq(Nil, k)) == None && FindBlock(Cons(ret, Nil), l, k) == FindBlock(Nil, l, k);
    assert FindStmt(push, l, Seq(Cons(ret, Nil), k)) == None;
  }

  lemma {:induction false} FindReturns(flag: Mem -> bool, pushes: Pushes, b: Block, l: Label, k: Kont)
    ensures FindBlock(ReturnsBlock(flag, pushes, b), l, ReturnsKont(flag, pushes, k))
         == ReturnsTarget(flag, pushes, FindBlock(b, l, k))
  {
    hide FindStmt, ReturnsStmt;
    match b
    case Nil =>
    case Cons(s, rest) =>
      FindReturnsStmt(flag, pushes, s, l, Seq(rest, k));
      FindReturns(flag, pushes, rest, l, k);
  }

  // Up to a return, the two bodies take the same steps.
  lemma StepReturns(flag: Mem -> bool, pushes: Pushes, p: Block, c: Config)
    requires c.Run? && !c.stmt.kind.Return?
    ensures Step(ReturnsBlock(flag, pushes, p), ReturnsConfig(flag, pushes, c)) ==
      ReturnsConfig(flag, pushes, Step(p, c))
  {
    hide FindBlock;
    var k, st := c.k, c.st;
    match c.stmt.kind
    case Instrs(_) => ResumeReturns(flag, pushes, k, st);
    case Goto(l) => FindReturns(flag, pushes, p, l, Stop);
    case Break => BrokenReturns(flag, pushes, k, st);
    case Continue => ContinuedReturns(flag, pushes, k, st);
    case If(g, t, e) => ResumeReturns(flag, pushes, Seq(if Holds(g, st) then t else e, k), st);
    case Loop(b) => ResumeReturns(flag, pushes, Seq(b, InLoop(b, k)), st);
    case Block(b) => ResumeReturns(flag, pushes, Seq(b, k), st);
    case Switch(f, b, cases) =>
      ResumeReturns(flag, pushes, k, st);
      if f(st.mem) < |cases| {
        FindReturns(flag, pushes, b, cases[f(st.mem)], InSwitch(k));
      }
  }

  // After any number of steps of the original body the instrumented one, after as
  // many, stands at the same point with the same state, or has ended as the original
  // has; unless that has returned.
  lemma {:induction false} ReturnsFollow(flag: Mem -> bool, pushes: Pushes, p: Block, c: Config, n: nat)
    requires !Steps(p, c, n).Returned?
    ensures Steps(ReturnsBlock(flag, pushes, p), ReturnsConfig(flag, pushes, c), n) ==
      ReturnsConfig(flag, pushes, Steps(p, c, n))
    decreases n
  {
    hide Step, ReturnsBlock;
    if n == 0 {
    } else if c.Run? {
      if c.stmt.kind.Return? {
        ReturnEnds(p, c, n);
      } else {
        StepReturns(flag, pushes, p, c);
        ReturnsFollow(flag, pushes, p, Step(p, c), n - 1);
      }
    } else {
      StepsEnded(p, c, n);
      StepsEnded(ReturnsBlock(flag, pushes, p), c, n);
    }
  }

  lemma ReturnEnds(p: Block, c: Config, n: nat)
    requires n > 0 && c.Run? && c.stmt.kind.Return?
    ensures Steps(p, c, n) == Returned(c.stmt.kind.result(c.st.mem), c.st)
  {
    StepsEnded(p, Step(p, c), n - 1);
  }

  lemma StartReturns(flag: Mem -> bool, pushes: Pushes, p: Block, st: State)
    ensures Start(ReturnsBlock(flag, pushes, p), st) == ReturnsConfig(flag, pushes, Start(p, st))
  {
    ResumeReturns(flag, pushes, Seq(p, Stop), st);
  }

  // The last step of a run that returns.
  lemma {:induction false} LastStep(p: Block, c: Config, n: nat) returns (i: nat)
    requires !c.Returned? && Steps(p, c, n).Returned?
    ensures i < n && Steps(p, c, i).Run? && Steps(p, c, i).stmt.kind.Return?
    ensures var d := Steps(p, c, i); Steps(p, c, n) == Returned(d.stmt.kind.result(d.st.mem), d.st)
    decreases n
  {
    if !c.Run? {
      StepsEnded(p, c, n);
      assert false;
    } else if c.stmt.kind.Return? {
      i := 0;
      ReturnEnds(p, c, n);
    } else {
      NoReturn(p, c);
      i := LastStep(p, Step(p, c), n - 1);
      i := i + 1;
    }
  }

  lemma NoReturn(p: Block, c: Config)
    requires c.Run? && !c.stmt.kind.Return?
    ensures !Step(p, c).Returned?
  {
    var k, st := c.k, c.st;
    match c.stmt.kind
    case Instrs(_) => ResumeNoReturn(k, st);
    case Break => BrokenNoReturn(k, st);
    case Continue => ContinuedNoReturn(k, st);
    case If(g, t, e) => ResumeNoReturn(Seq(if Holds(g, st) then t else e, k), st);
    case Loop(b) => ResumeNoReturn(Seq(b, InLoop(b, k)), st);
    case Block(b) => ResumeNoReturn(Seq(b, k), st);
    case Switch(_, _, _) => ResumeNoReturn(k, st);
    case _ =>
  }

  lemma {:induction false} ResumeNoReturn(k: Kont, st: State)
    ensures !Resume(k, st).Returned?
  {
    match k
    case Seq(Nil, k') => ResumeNoReturn(k', st);
    case InSwitch(k') => ResumeNoReturn(k', st);
    case _ =>
  }

  lemma {:induction false} BrokenNoReturn(k: Kont, st: State)
    ensures !Broken(k, st).Returned?
  {
    match k
    case Stop =>
    case Seq(_, k') => BrokenNoReturn(k', st);
    case InLoop(_, k') => ResumeNoReturn(k', st);
    case InSwitch(k') => ResumeNoReturn(k', st);
  }

  lemma {:induction false} ContinuedNoReturn(k: Kont, st: State)
    ensures !Continued(k, st).Returned?
  {
    match k
    case Stop =>
    case Seq(_, k') => ContinuedNoReturn(k', st);
    case InLoop(_, _) => ResumeNoReturn(k, st);
    case InSwitch(k') => ContinuedNoReturn(k', st);
  }

  // When the original returns, at a statement with the expression e, so does the
  // instrumented body, having made in addition exactly the pushes for e, in order,
  // in the state of that statement.
  lemma ReturnsReturn(flag: Mem -> bool, pushes: Pushes, p: Block, st: State, n: nat)
    returns (e: Mem -> int, i: nat, m: nat)
    requires Steps(p, Start(p, st), n).Returned?
    ensures
      var d := Steps(p, Start(p, st), i);
      && i < n && d.Run? && d.stmt.kind == Return(e) && Steps(p, Start(p, st), n) == Returned(e(d.st.mem), d.st)
      && var q := ReturnsBlock(flag, pushes, p);
         Steps(q, Start(q, st), m) ==
           match pushes(e)
           case None => Returned(e(d.st.mem), d.st)
           case Some((ins, r)) => Returned(r(ExecAll(ins, d.st).mem), ExecAll(ins, d.st))
  {
    hide Step, ReturnsBlock, ReturnsKont, InstrumentedReturn;
    var q := ReturnsBlock(flag, pushes, p);
    ResumeNoReturn(Seq(p, Stop), st);
    i := LastStep(p, Start(p, st), n);
    StartReturns(flag, pushes, p, st);
    ReturnsFollow(flag, pushes, p, Start(p, st), i);
    var d := Steps(p, Start(p, st), i);
    e := d.stmt.kind.result;
    var k := ReturnsKont(flag, pushes, d.k);
    if pushes(e).Some? {
      var (ins, r) := pushes(e).value;
      m := ReturnRuns(q, d.stmt.labels, flag, ins, r, k, d.st);
    } else {
      m := 1;
      ReturnEnds(q, Run(ReturnsStmt(flag, pushes, d.stmt), k, d.st), 1);
    }
    StepsAdd(q, Start(q, st), i, m);
    m := i + m;
  }

  // It returns only if the original does.
  lemma ReturnsOnly(flag: Mem -> bool, pushes: Pushes, p: Block, st: State, m: nat)
    requires var q := ReturnsBlock(flag, pushes, p); Steps(q, Start(q, st), m).Returned?
    ensures Steps(p, Start(p, st), m).Returned?
  {
    StartReturns(flag, pushes, p, st);
    if !Steps(p, Start(p, st), m).Returned? {
      ReturnsFollow(flag, pushes, p, Start(p, st), m);
      assert false;
    }
  }
}
