// Function bodies that never fall off their end.
module FallThrough {
  import opened Code
  import opened Wrappers

  // Whether a break in the code leaves the loop or switch around it.
  predicate BreaksStmt(s: Stmt) {
    match s.kind
    case Break => true
    case If(_, t, e) => BreaksBlock(t) || BreaksBlock(e)
    case Block(b) => BreaksBlock(b)
    case _ => false
  }

  predicate BreaksBlock(b: Block) {
    match b
    case Nil => false
    case Cons(s, rest) => BreaksStmt(s) || BreaksBlock(rest)
  }

  // Code after which the code that follows is not reached: it jumps away, both its
  // branches do, or it loops without a break. A switch has to have a case for
  // every value, such as a default.
  ghost predicate EndsStmt(s: Stmt) {
    match s.kind
    case Instrs(_) => false
    case If(_, t, e) => EndsBlock(t) && EndsBlock(e)
    case Loop(b) => !BreaksBlock(b)
    case Block(b) => EndsBlock(b)
    case Switch(f, b, cases) => (forall m :: f(m) < |cases|) && EndsBlock(b) && !BreaksBlock(b)
    case _ => true
  }

  // That is a matter of the last statement, since the others may be jumped over.
  ghost predicate EndsBlock(b: Block) {
    match b
    case Nil => false
    case Cons(s, rest) => if rest == Nil then EndsStmt(s) else EndsBlock(rest)
  }

  // ----- runs -----

  // The code left to do does not run off the end, ...
  ghost predicate Ends(k: Kont) {
    match k
    case Stop => false
    case Seq(b, k') => EndsBlock(b) || Ends(k')
    case InLoop(b, k') => !BreaksBlock(b) || Ends(k')
    case InSwitch(k') => Ends(k')
  }

  // ... nor does it after a break, ...
  ghost predicate EndsBroken(k: Kont) {
    match k
    case Stop => true
    case Seq(_, k') => EndsBroken(k')
    case InLoop(_, k') => Ends(k')
    case InSwitch(k') => Ends(k')
  }

  // ... nor after any break that is still to come.
  ghost predicate Sealed(k: Kont) {
    match k
    case Stop => true
    case Seq(b, k') => (BreaksBlock(b) ==> EndsBroken(k')) && Sealed(k')
    case InLoop(_, k') => Ends(k) && Sealed(k')
    case InSwitch(k') => Sealed(k')
  }

  ghost predicate Guarded(s: Stmt, k: Kont) {
    (EndsStmt(s) || Ends(k)) && (BreaksStmt(s) ==> EndsBroken(k)) && Sealed(k)
  }

  ghost predicate GuardedConfig(c: Config) {
    match c
    case Run(s, k, _) => Guarded(s, k)
    case FellOff(_) => false
    case _ => true
  }

  lemma {:induction false} ResumeGuarded(k: Kont, st: State)
    requires Ends(k) && Sealed(k)
    ensures GuardedConfig(Resume(k, st))
  {
    match k
    case Seq(Nil, k') => ResumeGuarded(k', st);
    case Seq(Cons(_, _), _) =>
    case InLoop(_, _) =>
    case InSwitch(k') => ResumeGuarded(k', st);
  }

  lemma {:induction false} BrokenGuarded(k: Kont, st: State)
    requires EndsBroken(k) && Sealed(k)
    ensures GuardedConfig(Broken(k, st))
  {
    match k
    case Stop =>
    case Seq(_, k') => BrokenGuarded(k', st);
    case InLoop(_, k') => ResumeGuarded(k', st);
    case InSwitch(k') => ResumeGuarded(k', st);
  }

  lemma {:induction false} ContinuedGuarded(k: Kont, st: State)
    requires Sealed(k)
    ensures GuardedConfig(Continued(k, st))
  {
    match k
    case Stop =>
    case Seq(_, k') => ContinuedGuarded(k', st);
    case InLoop(_, _) => ResumeGuarded(k, st);
    case InSwitch(k') => ContinuedGuarded(k', st);
  }

  ghost predicate GuardedTarget(r: Option<(Stmt, Kont)>) {
    r.Some? ==> Guarded(r.value.0, r.value.1)
  }

  ghost predicate GuardedBlock(b: Block, k: Kont) {
    (EndsBlock(b) || Ends(k)) && (BreaksBlock(b) ==> EndsBroken(k)) && Sealed(k)
  }

  lemma {:induction false} FindStmtGuarded(s: Stmt, l: Label, k: Kont)
    requires Guarded(s, k)
    ensures GuardedTarget(FindStmt(s, l, k))
    decreases s
  {
    if l in s.labels {
    } else {
      match s.kind
      case If(_, t, e) =>
        FindBlockGuarded(t, l, k);
        FindBlockGuarded(e, l, k);
      case Loop(b) => FindBlockGuarded(b, l, InLoop(b, k));
      case Block(b) => FindBlockGuarded(b, l, k);
      case Switch(_, b, _) => FindBlockGuarded(b, l, InSwitch(k));
      case _ =>
    }
  }

  lemma {:induction false} FindBlockGuarded(b: Block, l: Label, k: Kont)
    requires GuardedBlock(b, k)
    ensures GuardedTarget(FindBlock(b, l, k))
    decreases b
  {
    match b
    case Nil =>
    case Cons(s, rest) =>
      FindStmtGuarded(s, l, Seq(rest, k));
      if rest.Cons? || Ends(k) {
        FindBlockGuarded(rest, l, k);
      }
  }

  lemma EnterGuarded(b: Block, k: Kont, st: State)
    requires GuardedBlock(b, k)
    ensures GuardedConfig(Resume(Seq(b, k), st))
  {
    ResumeGuarded(Seq(b, k), st);
  }

  lemma StepGuarded(p: Block, c: Config)
    requires EndsBlock(p) && GuardedConfig(c)
    ensures GuardedConfig(Step(p, c))
  {
    if c.Run? {
      var k, st := c.k, c.st;
      match c.stmt.kind
      case Instrs(_) => ResumeGuarded(k, st);
      case Return(_) =>
      case Goto(l) => FindBlockGuarded(p, l, Stop);
      case Break => BrokenGuarded(k, st);
      case Continue => ContinuedGuarded(k, st);
      case If(g, t, e) => EnterGuarded(if Holds(g, st) then t else e, k, st);
      case Loop(b) => EnterGuarded(b, InLoop(b, k), st);
      case Block(b) => EnterGuarded(b, k, st);
      case Switch(f, b, cases) =>
        if f(st.mem) < |cases| {
          FindBlockGuarded(b, cases[f(st.mem)], InSwitch(k));
        } else {
          ResumeGuarded(k, st);
        }
    }
  }

  lemma {:induction false} StepsGuarded(p: Block, c: Config, n: nat)
    requires EndsBlock(p) && GuardedConfig(c)
    ensures GuardedConfig(Steps(p, c, n))
    decreases n
  {
    if n == 0 {
    } else {
      StepGuarded(p, c);
      StepsGuarded(p, Step(p, c), n - 1);
    }
  }

  // A body whose last statement jumps away on all its paths never falls off its
  // end, wherever its gotos lead.
  lemma NeverFallsOff(p: Block, st: State, n: nat)
    requires EndsBlock(p)
    ensures !Steps(p, Start(p, st), n).FellOff?
  {
    EnterGuarded(p, Stop, st);
    StepsGuarded(p, Start(p, st), n);
  }
}
