// Simulation: step by step, a run of the split body is a run of the original.
module SplitProof {
  import opened Code
  import opened FallThrough
  import opened Split
  import opened SplitSim
  import opened Wrappers

  // A program point: before a statement, or within a list of instructions.
  datatype Point =
    | AtStmt(s: Stmt, n: nat, c: Ctx)
    | InInstrs(ins: seq<Instr>, n: nat, c: Ctx)

  function Orig(x: Point, st: State): Config {
    match x
    case AtStmt(s, _, c) => Run(s, KOrig(c), st)
    case InInstrs(ins, _, c) => Run(Stmt([], Instrs(ins)), KOrig(c), st)
  }

  // The same point in one half of the split body.
  function InBody(h: Half, p: Block, x: Point, st: State): Config {
    match x
    case AtStmt(s, n, c) => Run(HalfStmt(h, s, n), KHalf(h, p, c), st)
    case InInstrs(ins, n, c) =>
      var gs := Groups([], ins);
      Run(Stmt([], Instrs(gs[0])), Seq(LabelGroups(h, gs[1..], n), KHalf(h, p, c)), st)
  }

  ghost predicate Good(p: Block, x: Point) {
    match x
    case AtStmt(s, n, c) => SourceStmt(s) && SourceCtx(c) && ResolvesStmt(p, s, n, c) && ResolvesCtx(p, c)
    case InInstrs(ins, n, c) =>
      && (forall i :: 0 <= i < |ins| ==> ins[i].Plain? || ins[i].FullCheck?)
      && SourceCtx(c) && ResolvesGroups(p, Groups([], ins)[1..], n, c) && ResolvesCtx(p, c)
  }

  // Equal memory and check results; only the split body counts transitions.
  ghost predicate Same(st: State, st': State) {
    st.mem == st'.mem && st.outs == st'.outs
  }

  function Moves(h: Half): nat {
    if h.Bottom? then 1 else 0
  }

  // ----- resuming a continuation -----

  // Where a continuation goes on, if it does not run off the end.
  function Next(c: Ctx): Option<Point> {
    match c
    case CStop => None
    case CSeq(Nil, _, c') => Next(c')
    case CSeq(Cons(s, rest), n, c') => Some(AtStmt(s, n, CSeq(rest, n + CountStmt(s), c')))
    case CLoop(b, n, c') => Some(AtStmt(Stmt([], Loop(b)), n, c'))
    case CSwitch(c') => Next(c')
  }

  lemma {:induction false} NextGood(p: Block, c: Ctx)
    requires SourceCtx(c) && ResolvesCtx(p, c)
    ensures Next(c).Some? ==> Good(p, Next(c).value)
  {
    match c
    case CStop =>
    case CSeq(Nil, _, c') => NextGood(p, c');
    case CSeq(Cons(s, rest), n, c') => ResolvesCons(p, s, rest, n, c');
    case CLoop(b, n, c') => ResolvesLoop(p, b, n, c');
    case CSwitch(c') => NextGood(p, c');
  }

  lemma ResolvesLoop(p: Block, b: Block, n: nat, c: Ctx)
    requires ResolvesBlock(p, b, n, CLoop(b, n, c))
    ensures ResolvesStmt(p, Stmt([], Loop(b)), n, c)
  {
    assert HalfLabels(Bottom, []) == [];
  }

  lemma {:induction false} NextConfig(h: Half, p: Block, c: Ctx, st: State, st': State)
    ensures Next(c) == None ==> Resume(KOrig(c), st) == FellOff(st)
    ensures Next(c) == None ==> Resume(KHalf(h, p, c), st') == Resume(Seq(After(h, p), Stop), st')
    ensures Next(c).Some? ==> Resume(KOrig(c), st) == Orig(Next(c).value, st)
    ensures Next(c).Some? ==> Resume(KHalf(h, p, c), st') == InBody(h, p, Next(c).value, st')
  {
    match c
    case CStop =>
    case CSeq(Nil, _, c') => NextConfig(h, p, c', st, st');
    case CSeq(Cons(s, rest), n, c') =>
    case CLoop(b, n, c') => assert HalfLabels(h, []) == [];
    case CSwitch(c') => NextConfig(h, p, c', st, st');
  }

  // Leaving the innermost loop or switch.
  function BreakTo(c: Ctx): Option<Ctx> {
    match c
    case CStop => None
    case CSeq(_, _, c') => BreakTo(c')
    case CLoop(_, _, c') => Some(c')
    case CSwitch(c') => Some(c')
  }

  function ContinueTo(c: Ctx): Option<Ctx> {
    match c
    case CStop => None
    case CSeq(_, _, c') => ContinueTo(c')
    case CLoop(_, _, _) => Some(c)
    case CSwitch(c') => ContinueTo(c')
  }

  lemma {:induction false} BreakConfig(h: Half, p: Block, c: Ctx, st: State, st': State)
    requires SourceCtx(c) && ResolvesCtx(p, c)
    ensures BreakTo(c) == None ==> Broken(KOrig(c), st) == Stuck && Broken(KHalf(h, p, c), st') == Stuck
    ensures BreakTo(c).Some? ==>
      && SourceCtx(BreakTo(c).value) && ResolvesCtx(p, BreakTo(c).value)
      && Broken(KOrig(c), st) == Resume(KOrig(BreakTo(c).value), st)
      && Broken(KHalf(h, p, c), st') == Resume(KHalf(h, p, BreakTo(c).value), st')
  {
    if !c.CSeq? {
    } else {
      BreakConfig(h, p, c.c, st, st');
    }
  }

  lemma {:induction false} ContinueConfig(h: Half, p: Block, c: Ctx, st: State, st': State)
    requires SourceCtx(c) && ResolvesCtx(p, c)
    ensures ContinueTo(c) == None ==> Continued(KOrig(c), st) == Stuck && Continued(KHalf(h, p, c), st') == Stuck
    ensures ContinueTo(c).Some? ==>
      && SourceCtx(ContinueTo(c).value) && ResolvesCtx(p, ContinueTo(c).value)
      && Continued(KOrig(c), st) == Resume(KOrig(ContinueTo(c).value), st)
      && Continued(KHalf(h, p, c), st') == Resume(KHalf(h, p, ContinueTo(c).value), st')
  {
    if !c.CSeq? && !c.CSwitch? {
    } else {
      ContinueConfig(h, p, c.c, st, st');
    }
  }

  // ----- jumping to a label of the source -----

  lemma {:induction false} LocateGoodStmt(p: Block, s: Stmt, n: nat, l: Label, c: Ctx)
    requires SourceStmt(s) && SourceCtx(c) && ResolvesStmt(p, s, n, c) && ResolvesCtx(p, c)
    ensures LocateStmt(s, n, l, c).Some? ==>
      var (s', n', c') := LocateStmt(s, n, l, c).value; Good(p, AtStmt(s', n', c'))
  {
    if l !in s.labels {
      match s.kind
      case If(_, t, e) =>
        ResolvesIf(p, s, n, c);
        LocateGoodBlock(p, t, n, l, c);
        LocateGoodBlock(p, e, n + CountBlock(t), l, c);
      case Loop(b) =>
        ResolvesInner(p, s, n, c);
        LocateGoodBlock(p, b, n, l, CLoop(b, n, c));
      case Block(b) =>
        ResolvesInner(p, s, n, c);
        LocateGoodBlock(p, b, n, l, c);
      case Switch(_, b, _) =>
        ResolvesInner(p, s, n, c);
        LocateGoodBlock(p, b, n, l, CSwitch(c));
      case _ =>
    }
  }

  lemma {:induction false} LocateGoodBlock(p: Block, b: Block, n: nat, l: Label, c: Ctx)
    requires SourceBlock(b) && SourceCtx(c) && ResolvesBlock(p, b, n, c) && ResolvesCtx(p, c)
    ensures LocateBlock(b, n, l, c).Some? ==>
      var (s', n', c') := LocateBlock(b, n, l, c).value; Good(p, AtStmt(s', n', c'))
  {
    match b
    case Nil =>
    case Cons(s, rest) =>
      ResolvesCons(p, s, rest, n, c);
      LocateGoodStmt(p, s, n, l, CSeq(rest, n + CountStmt(s), c));
      LocateGoodBlock(p, rest, n + CountStmt(s), l, c);
  }

  // ----- one step -----

  // The configuration c of the original body and c' of the split body, in half
  // h, stand at the same point with equal state.  t is the count of transitions
  // at the start of the run.
  ghost predicate Related(p: Block, h: Half, t: int, c: Config, c': Config) {
    match c
    case Stuck => c'.Stuck?
    case Run(_, _, st) =>
      && c'.Run? && Same(st, c'.st) && c'.st.transitions == t + Moves(h)
      && exists x :: Good(p, x) && c == Orig(x, st) && c' == InBody(h, p, x, c'.st)
    case Returned(v, st) =>
      c'.Returned? && c'.result == v && Same(st, c'.st) && c'.st.transitions == t + Moves(h)
    case FellOff(st) =>
      && c'.Run? && Same(st, c'.st) && c'.st.transitions == t + Moves(h)
      && c' == Resume(Seq(After(h, p), Stop), c'.st)
  }

  lemma RelatedAt(p: Block, h: Half, t: int, x: Point, st: State, st': State)
    requires Good(p, x) && Same(st, st') && st'.transitions == t + Moves(h)
    ensures Related(p, h, t, Orig(x, st), InBody(h, p, x, st'))
  {
  }

  lemma RelatedNext(p: Block, h: Half, t: int, c: Ctx, st: State, st': State)
    requires SourceCtx(c) && ResolvesCtx(p, c) && Same(st, st') && st'.transitions == t + Moves(h)
    ensures Related(p, h, t, Resume(KOrig(c), st), Resume(KHalf(h, p, c), st'))
  {
    hide Good, InBody;
    NextConfig(h, p, c, st, st');
    NextGood(p, c);
    match Next(c)
    case None =>
      assert Resume(Seq(After(h, p), Stop), st').Run?;
    case Some(x) => RelatedAt(p, h, t, x, st, st');
  }

  // Entering a block.
  lemma RelatedEnter(p: Block, h: Half, t: int, b: Block, n: nat, c: Ctx, st: State, st': State)
    requires SourceBlock(b) && SourceCtx(c) && ResolvesBlock(p, b, n, c) && ResolvesCtx(p, c)
    requires Same(st, st') && st'.transitions == t + Moves(h)
    ensures Related(p, h, t, Resume(Seq(b, KOrig(c)), st), Resume(Seq(HalfBlock(h, b, n), KHalf(h, p, c)), st'))
  {
    RelatedNext(p, h, t, CSeq(b, n, c), st, st');
  }

  lemma RelatedJump(p: Block, h: Half, t: int, r: Option<(Stmt, nat, Ctx)>, st: State, st': State)
    requires Same(st, st') && st'.transitions == t + Moves(h)
    requires r.Some? ==> Good(p, AtStmt(r.value.0, r.value.1, r.value.2))
    ensures Related(p, h, t, Jump(InOrig(r), st), Jump(InHalf(h, p, r), st'))
  {
    if r.Some? {
      RelatedAt(p, h, t, AtStmt(r.value.0, r.value.1, r.value.2), st, st');
    }
  }

  ghost predicate Ready(p: Block, h: Half, t: int, x: Point, st: State, st': State) {
    SourceBlock(p) && Good(p, x) && Same(st, st') && st'.transitions == t + Moves(h)
  }

  // Statements other than lists of instructions: both bodies take one step.
  lemma StepGoto(p: Block, h: Half, t: int, s: Stmt, n: nat, c: Ctx, st: State, st': State)
    requires Ready(p, h, t, AtStmt(s, n, c), st, st') && s.kind.Goto?
    ensures Related(p, h, t, Step(p, Orig(AtStmt(s, n, c), st)), Step(SplitBody(p), InBody(h, p, AtStmt(s, n, c), st')))
  {
    var l := s.kind.target;
    ResolvesStart(p);
    LocateGoodBlock(p, p, 0, l, CStop);
    FindOrigBlock(p, 0, l, CStop);
    FindGoto(h, p, l);
    RelatedJump(p, h, t, LocateBlock(p, 0, l, CStop), st, st');
  }

  lemma StepLeave(p: Block, h: Half, t: int, s: Stmt, n: nat, c: Ctx, st: State, st': State)
    requires Ready(p, h, t, AtStmt(s, n, c), st, st') && (s.kind.Break? || s.kind.Continue?)
    ensures Related(p, h, t, Step(p, Orig(AtStmt(s, n, c), st)), Step(SplitBody(p), InBody(h, p, AtStmt(s, n, c), st')))
  {
    hide ResolvesStmt, ResolvesCtx, SourceCtx, SplitBody, KHalf, KOrig, SourceBlock;
    BreakConfig(h, p, c, st, st');
    ContinueConfig(h, p, c, st, st');
    var to := if s.kind.Break? then BreakTo(c) else ContinueTo(c);
    if to.Some? {
      RelatedNext(p, h, t, to.value, st, st');
    }
  }

  lemma StepIf(p: Block, h: Half, t: int, s: Stmt, n: nat, c: Ctx, st: State, st': State)
    requires Ready(p, h, t, AtStmt(s, n, c), st, st') && s.kind.If?
    ensures Related(p, h, t, Step(p, Orig(AtStmt(s, n, c), st)), Step(SplitBody(p), InBody(h, p, AtStmt(s, n, c), st')))
  {
    ResolvesIf(p, s, n, c);
    if Holds(s.kind.cond, st) {
      RelatedEnter(p, h, t, s.kind.thn, n, c, st, st');
    } else {
      RelatedEnter(p, h, t, s.kind.els, n + CountBlock(s.kind.thn), c, st, st');
    }
  }

  lemma StepBody(p: Block, h: Half, t: int, s: Stmt, n: nat, c: Ctx, st: State, st': State)
    requires Ready(p, h, t, AtStmt(s, n, c), st, st') && (s.kind.Loop? || s.kind.Block?)
    ensures Related(p, h, t, Step(p, Orig(AtStmt(s, n, c), st)), Step(SplitBody(p), InBody(h, p, AtStmt(s, n, c), st')))
  {
    ResolvesInner(p, s, n, c);
    RelatedEnter(p, h, t, s.kind.body, n, Inner(s, n, c), st, st');
  }

  lemma StepSwitch(p: Block, h: Half, t: int, s: Stmt, n: nat, c: Ctx, st: State, st': State)
    requires Ready(p, h, t, AtStmt(s, n, c), st, st') && s.kind.Switch?
    ensures Related(p, h, t, Step(p, Orig(AtStmt(s, n, c), st)), Step(SplitBody(p), InBody(h, p, AtStmt(s, n, c), st')))
  {
    var b, cases, v := s.kind.body, s.kind.cases, s.kind.selector(st.mem);
    if v < |cases| {
      assert cases[v] in cases;
      ResolvesInner(p, s, n, c);
      LocateGoodBlock(p, b, n, cases[v], CSwitch(c));
      FindOrigBlock(b, n, cases[v], CSwitch(c));
      FindHalfBlock(h, p, b, n, cases[v], CSwitch(c));
      RelatedJump(p, h, t, LocateBlock(b, n, cases[v], CSwitch(c)), st, st');
    } else {
      RelatedNext(p, h, t, c, st, st');
    }
  }

  lemma StepStmt(p: Block, h: Half, t: int, s: Stmt, n: nat, c: Ctx, st: State, st': State)
    requires Ready(p, h, t, AtStmt(s, n, c), st, st') && !s.kind.Instrs?
    ensures Related(p, h, t, Step(p, Orig(AtStmt(s, n, c), st)), Step(SplitBody(p), InBody(h, p, AtStmt(s, n, c), st')))
  {
    hide Step, InBody, Orig, Ready, SplitBody;
    match s.kind
    case Return(_) => StepReturn(p, h, t, s, n, c, st, st');
    case Goto(_) => StepGoto(p, h, t, s, n, c, st, st');
    case Break => StepLeave(p, h, t, s, n, c, st, st');
    case Continue => StepLeave(p, h, t, s, n, c, st, st');
    case If(_, _, _) => StepIf(p, h, t, s, n, c, st, st');
    case Loop(_) => StepBody(p, h, t, s, n, c, st, st');
    case Block(_) => StepBody(p, h, t, s, n, c, st, st');
    case Switch(_, _, _) => StepSwitch(p, h, t, s, n, c, st, st');
  }

  lemma StepReturn(p: Block, h: Half, t: int, s: Stmt, n: nat, c: Ctx, st: State, st': State)
    requires Ready(p, h, t, AtStmt(s, n, c), st, st') && s.kind.Return?
    ensures Related(p, h, t, Step(p, Orig(AtStmt(s, n, c), st)), Step(SplitBody(p), InBody(h, p, AtStmt(s, n, c), st')))
  {
  }

  // ----- lists of instructions -----

  // After a check the code goes on with the group that follows.
  function AfterCheck(h: Half, p: Block, rest: seq<Instr>, n: nat, c: Ctx): Kont {
    Seq(LabelGroups(h, Groups([], rest), n + 1), KHalf(h, p, c))
  }

  lemma ResumeAfterCheck(h: Half, p: Block, rest: seq<Instr>, n: nat, c: Ctx, st: State)
    ensures Resume(AfterCheck(h, p, rest, n, c), st) == InBody(h, p, InInstrs(rest, n + 1, c), st)
  {
    GroupsFrom([], rest);
    PlainFirst(h, Groups([], rest), n + 1);
  }

  // The full check in the bottom half.
  lemma CheckInBottom(b: Block, p: Block, check: Check, rest: seq<Instr>, n: nat, c: Ctx, st: State)
    ensures Steps(b, Run(CheckStmt(Bottom, check, n), AfterCheck(Bottom, p, rest, n, c), st), 2)
         == InBody(Bottom, p, InInstrs(rest, n + 1, c), Exec(FullCheck(check), st))
  {
    hide InBody, AfterCheck;
    var k := AfterCheck(Bottom, p, rest, n, c);
    var c0 := Run(CheckStmt(Bottom, check, n), k, st);
    var c1 := Run(Stmt([], Instrs([])), k, Exec(FullCheck(check), st));
    assert [FullCheck(check)][1..] == [];
    assert Step(b, c0) == c1;
    ResumeAfterCheck(Bottom, p, rest, n, c, c1.st);
    Two(b, c0, c1);
  }

  lemma Two(b: Block, c0: Config, c1: Config)
    requires Step(b, c0) == c1
    ensures Steps(b, c0, 2) == Step(b, c1)
  {
    assert Steps(b, c1, 1) == Steps(b, Step(b, c1), 0);
  }

  function TestStmt(check: Check, n: nat): Stmt {
    Stmt([], If(NotOut(check.out), Cons(Stmt([], Block(JumpBlock(n))), Nil), Nil))
  }

  function JumpBlock(n: nat): Block {
    Cons(Stmt([], Instrs([Transition])), Cons(Stmt([], Goto(FullLabel(n))), Nil))
  }

  // The primary check in the top half, up to the test of its result.
  lemma PrimaryInTop(b: Block, check: Check, n: nat, k: Kont, st: State)
    ensures Steps(b, Run(CheckStmt(Top, check, n), k, st), 3)
         == Run(TestStmt(check, n), Seq(Nil, k), Exec(PrimaryCheck(check), st))
  {
    var test := TestStmt(check, n);
    var k' := Seq(Cons(test, Nil), k);
    var c0 := Run(CheckStmt(Top, check, n), k, st);
    var c1 := Run(Stmt([PrimaryLabel(n)], Instrs([PrimaryCheck(check)])), k', st);
    var c2 := Run(Stmt([], Instrs([])), k', Exec(PrimaryCheck(check), st));
    assert Step(b, c0) == c1;
    assert [PrimaryCheck(check)][1..] == [];
    assert Step(b, c1) == c2;
    Two(b, c1, c2);
    StepsAdd(b, c0, 1, 2);
    assert Steps(b, c0, 1) == Steps(b, Step(b, c0), 0);
  }

  // From a failed test to the label in the bottom half.
  lemma JumpInTop(b: Block, check: Check, n: nat, k: Kont, st: State)
    requires check.out in st.outs && !st.outs[check.out]
    ensures Steps(b, Run(TestStmt(check, n), Seq(Nil, k), st), 5)
         == Jump(FindBlock(b, FullLabel(n), Stop), Exec(Transition, st))
  {
    var kj := Seq(Nil, Seq(Nil, k));
    var go := Stmt([], Goto(FullLabel(n)));
    var c0 := Run(TestStmt(check, n), Seq(Nil, k), st);
    var c1 := Run(Stmt([], Block(JumpBlock(n))), kj, st);
    var c2 := Run(Stmt([], Instrs([Transition])), Seq(Cons(go, Nil), kj), st);
    var c3 := Run(Stmt([], Instrs([])), Seq(Cons(go, Nil), kj), Exec(Transition, st));
    var c4 := Run(go, Seq(Nil, kj), Exec(Transition, st));
    assert Step(b, c0) == c1 && Step(b, c1) == c2;
    assert [Transition][1..] == [];
    assert Step(b, c2) == c3 && Step(b, c3) == c4;
    Two(b, c0, c1);
    Two(b, c2, c3);
    StepsAdd(b, c0, 2, 2);
    StepsAdd(b, c0, 4, 1);
    assert Steps(b, c4, 1) == Steps(b, Step(b, c4), 0);
  }

  // The next step is a check whose primary test fails.
  predicate FailsNow(c: Config) {
    c.Run? && c.stmt.kind.Instrs? && c.stmt.kind.instrs != [] &&
    var i := c.stmt.kind.instrs[0];
    i.FullCheck? && !i.check.primary(c.st.mem)
  }

  // Whether a primary test fails within n steps.
  predicate Failed(p: Block, c: Config, n: nat)
    decreases n
  {
    n > 0 && (FailsNow(c) || Failed(p, Step(p, c), n - 1))
  }

  lemma {:induction false} EndedNotFailed(p: Block, c: Config, n: nat)
    requires !c.Run?
    ensures !Failed(p, c, n)
    decreases n
  {
    if n == 0 {
    } else {
      EndedNotFailed(p, c, n - 1);
    }
  }

  // A check where the code stands: in the bottom half it is made in full; in the
  // top half it passes, or the code moves to the same check in the bottom half.
  lemma StepCheck(p: Block, h: Half, t: int, check: Check, rest: seq<Instr>, n: nat, c: Ctx, st: State, st': State)
    returns (h': Half, m: nat)
    requires Ready(p, h, t, InInstrs([FullCheck(check)] + rest, n, c), st, st')
    ensures h'.Bottom? <==> h.Bottom? || !check.primary(st.mem)
    ensures Related(p, h', t, Orig(InInstrs(rest, n + 1, c), Exec(FullCheck(check), st)),
                    Steps(SplitBody(p), Run(CheckStmt(h, check, n), AfterCheck(h, p, rest, n, c), st'), m))
  {
    hide Related, ResolvesCtx, SourceCtx, KHalf, KOrig, InBody, Orig, Step, Resume, FindBlock, CheckStmt;
    var b := SplitBody(p);
    var next := InInstrs(rest, n + 1, c);
    var gs := Groups([], rest);
    var ins := [FullCheck(check)] + rest;
    GroupsFrom([], rest);
    assert ins[1..] == rest && Groups([], ins) == [[], [FullCheck(check)]] + gs;
    assert Groups([], ins)[1..] == [[FullCheck(check)]] + gs;
    ResolvesCheck(p, [FullCheck(check)], gs, n, c);
    forall i | 0 <= i < |rest| ensures rest[i].Plain? || rest[i].FullCheck? {
      assert rest[i] == ins[i + 1];
    }
    assert Good(p, next);
    var c0 := Run(CheckStmt(h, check, n), AfterCheck(h, p, rest, n, c), st');
    if h.Bottom? {
      h', m := Bottom, 2;
      CheckInBottom(b, p, check, rest, n, c, st');
      RelatedAt(p, Bottom, t, next, Exec(FullCheck(check), st), Exec(FullCheck(check), st'));
    } else {
      PrimaryInTop(b, check, n, AfterCheck(Top, p, rest, n, c), st');
      var st1 := Exec(PrimaryCheck(check), st');
      if check.primary(st.mem) {
        h', m := Top, 4;
        PassInTop(b, p, check, rest, n, c, st1);
        StepsAdd(b, c0, 3, 1);
        RelatedAt(p, Top, t, next, Exec(FullCheck(check), st), st1);
      } else {
        h', m := Bottom, 10;
        var st2 := Exec(Transition, st1);
        JumpInTop(b, check, n, AfterCheck(Top, p, rest, n, c), st1);
        StepsAdd(b, c0, 3, 5);
        CheckInBottom(b, p, check, rest, n, c, st2);
        StepsAdd(b, c0, 8, 2);
        Overwritten(check, st, st', st2);
        RelatedAt(p, Bottom, t, next, Exec(FullCheck(check), st), Exec(FullCheck(check), st2));
      }
    }
  }

  lemma PassInTop(b: Block, p: Block, check: Check, rest: seq<Instr>, n: nat, c: Ctx, st: State)
    requires check.out in st.outs && st.outs[check.out]
    ensures Steps(b, Run(TestStmt(check, n), Seq(Nil, AfterCheck(Top, p, rest, n, c)), st), 1)
         == InBody(Top, p, InInstrs(rest, n + 1, c), st)
  {
    var k := AfterCheck(Top, p, rest, n, c);
    var c0 := Run(TestStmt(check, n), Seq(Nil, k), st);
    ResumeAfterCheck(Top, p, rest, n, c, st);
    assert Step(b, c0) == Resume(Seq(Nil, Seq(Nil, k)), st);
    assert Resume(Seq(Nil, Seq(Nil, k)), st) == Resume(Seq(Nil, k), st) == Resume(k, st);
    assert Steps(b, c0, 1) == Steps(b, Step(b, c0), 0);
  }

  // A failing primary check changes nothing that the full check does not set.
  lemma Overwritten(check: Check, st: State, st': State, st2: State)
    requires Same(st, st') && st2 == Exec(Transition, Exec(PrimaryCheck(check), st')) && !check.primary(st.mem)
    ensures Same(Exec(FullCheck(check), st), Exec(FullCheck(check), st2))
  {
  }

  // The step from the end of a group to the check that follows.
  lemma StepToCheck(b: Block, h: Half, p: Block, ins: seq<Instr>, n: nat, c: Ctx, st: State)
    requires ins != [] && ins[0].FullCheck?
    ensures Step(b, InBody(h, p, InInstrs(ins, n, c), st))
         == Run(CheckStmt(h, ins[0].check, n), AfterCheck(h, p, ins[1..], n, c), st)
  {
    hide CheckStmt, KHalf;
    var rest := ins[1..];
    CheckFirst(h, [ins[0]], Groups([], rest), n);
    assert Groups([], ins)[1..] == [[ins[0]]] + Groups([], rest);
  }

  // The end of the list.
  lemma StepDone(p: Block, h: Half, t: int, n: nat, c: Ctx, st: State, st': State)
    requires Ready(p, h, t, InInstrs([], n, c), st, st')
    ensures Related(p, h, t, Step(p, Orig(InInstrs([], n, c), st)),
                    Step(SplitBody(p), InBody(h, p, InInstrs([], n, c), st')))
  {
    hide Related, KHalf, KOrig, SplitBody;
    RelatedNext(p, h, t, c, st, st');
  }

  lemma StepInstrs(p: Block, h: Half, t: int, ins: seq<Instr>, n: nat, c: Ctx, st: State, st': State)
    returns (h': Half, m: nat)
    requires Ready(p, h, t, InInstrs(ins, n, c), st, st')
    ensures m >= 1 && (h'.Bottom? <==> h.Bottom? || FailsNow(Orig(InInstrs(ins, n, c), st)))
    ensures Related(p, h', t, Step(p, Orig(InInstrs(ins, n, c), st)),
                    Steps(SplitBody(p), InBody(h, p, InInstrs(ins, n, c), st'), m))
  {
    hide Related, KHalf, KOrig, SplitBody, AfterCheck, CheckStmt, Groups;
    var b := SplitBody(p);
    var c0 := InBody(h, p, InInstrs(ins, n, c), st');
    assert Steps(b, c0, 1) == Steps(b, Step(b, c0), 0);
    if ins == [] {
      h', m := h, 1;
      StepDone(p, h, t, n, c, st, st');
    } else if ins[0].FullCheck? {
      hide InBody;
      var check, rest := ins[0].check, ins[1..];
      assert ins == [FullCheck(check)] + rest;
      StepToCheck(b, h, p, ins, n, c, st');
      h', m := StepCheck(p, h, t, check, rest, n, c, st, st');
      StepsAdd(b, c0, 1, m);
      m := m + 1;
    } else {
      h', m := h, 1;
      var rest := ins[1..];
      StepPlain(h, p, ins, n, c);
      RelatedAt(p, h, t, InInstrs(rest, n, c), Exec(ins[0], st), Exec(ins[0], st'));
    }
  }

  lemma StepPlain(h: Half, p: Block, ins: seq<Instr>, n: nat, c: Ctx)
    requires ins != [] && ins[0].Plain? && Good(p, InInstrs(ins, n, c))
    ensures Good(p, InInstrs(ins[1..], n, c))
    ensures var gs := Groups([], ins); var gs' := Groups([], ins[1..]);
      gs[0] != [] && gs[0][0] == ins[0] && gs[0][1..] == gs'[0] && gs[1..] == gs'[1..]
  {
    GroupsFrom([ins[0]], ins[1..]);
    assert [] + [ins[0]] == [ins[0]];
    forall i | 0 <= i < |ins[1..]| ensures ins[1..][i].Plain? || ins[1..][i].FullCheck? {
      assert ins[1..][i] == ins[i + 1];
    }
  }

  // ----- runs -----

  // Labels play no part in a step.
  lemma SameStep(p: Block, s: Stmt, n: nat, c: Ctx, st: State)
    requires s.kind.Instrs?
    ensures Step(p, Orig(AtStmt(s, n, c), st)) == Step(p, Orig(InInstrs(s.kind.instrs, n, c), st))
  {
  }

  // One step of the original is one or more steps of the split body, which leaves
  // the top half exactly when a primary test fails.
  lemma SimStep(p: Block, h: Half, t: int, c: Config, c': Config) returns (h': Half, m: nat)
    requires SourceBlock(p) && c.Run? && Related(p, h, t, c, c')
    ensures m >= 1 && (h'.Bottom? <==> h.Bottom? || FailsNow(c))
    ensures Related(p, h', t, Step(p, c), Steps(SplitBody(p), c', m))
  {
    hide Step, SplitBody, SourceBlock, Good, InBody;
    var b := SplitBody(p);
    var x :| Good(p, x) && c == Orig(x, c.st) && c' == InBody(h, p, x, c'.st);
    match x
    case InInstrs(ins, n, k) => h', m := StepInstrs(p, h, t, ins, n, k, c.st, c'.st);
    case AtStmt(s, n, k) =>
      assert Steps(b, c', 1) == Steps(b, Step(b, c'), 0);
      if s.kind.Instrs? {
        SameStep(p, s, n, k, c.st);
        EnterInstrs(p, h, s, n, k, c'.st);
        h', m := StepInstrs(p, h, t, s.kind.instrs, n, k, c.st, c'.st);
        StepsAdd(b, c', 1, m);
        m := m + 1;
      } else {
        StepStmt(p, h, t, s, n, k, c.st, c'.st);
        h', m := h, 1;
      }
  }

  lemma EnterInstrs(p: Block, h: Half, s: Stmt, n: nat, c: Ctx, st: State)
    requires Good(p, AtStmt(s, n, c)) && s.kind.Instrs?
    ensures Good(p, InInstrs(s.kind.instrs, n, c))
    ensures Step(SplitBody(p), InBody(h, p, AtStmt(s, n, c), st)) == InBody(h, p, InInstrs(s.kind.instrs, n, c), st)
  {
    hide KHalf, SplitBody, LabelGroups, Groups, ResolvesGroups, ResolvesStmt, ResolvesCtx, SourceCtx, HalfLabels;
    var gs := Groups([], s.kind.instrs);
    ResolvesInstrs(p, s, n, c);
    GroupsFrom([], s.kind.instrs);
    PlainFirst(h, gs, n);
  }

  lemma StartRelated(p: Block, st: State)
    requires SourceBlock(p)
    ensures Related(p, Top, st.transitions, Start(p, st), Steps(SplitBody(p), Start(SplitBody(p), st), 1))
  {
    var b := SplitBody(p);
    ResolvesStart(p);
    RelatedEnter(p, Top, st.transitions, p, 0, CStop, st, st);
    assert Steps(b, Start(b, st), 1) == Steps(b, Step(b, Start(b, st)), 0);
  }

  // After any number of steps of the original, some number brings the split body
  // to the same program point with equal state.
  lemma {:induction false} Follow(p: Block, h: Half, t: int, c: Config, c': Config, n: nat) returns (h': Half, m: nat)
    requires SourceBlock(p) && Related(p, h, t, c, c')
    ensures h'.Bottom? <==> h.Bottom? || Failed(p, c, n)
    ensures Related(p, h', t, Steps(p, c, n), Steps(SplitBody(p), c', m))
    ensures Steps(p, c, n).Run? ==> m >= n
    decreases n
  {
    hide Related, Step, SplitBody, SourceBlock, FailsNow;
    if n == 0 {
      h', m := h, 0;
    } else if c.Run? {
      var k, m1;
      h', k := SimStep(p, h, t, c, c');
      h', m1 := Follow(p, h', t, Step(p, c), Steps(SplitBody(p), c', k), n - 1);
      StepsAdd(SplitBody(p), c', k, m1);
      m := k + m1;
    } else {
      StepsEnded(p, c, n);
      EndedNotFailed(p, c, n);
      h', m := h, 0;
    }
  }

  // From the start, the code changes halves at most once, from top to bottom, when
  // a primary test first fails, and counts that transition.
  lemma SplitFollows(p: Block, st: State, n: nat) returns (h: Half, m: nat)
    requires SourceBlock(p)
    ensures Related(p, h, st.transitions, Steps(p, Start(p, st), n), Steps(SplitBody(p), Start(SplitBody(p), st), m))
    ensures h.Bottom? <==> Failed(p, Start(p, st), n)
    ensures Steps(p, Start(p, st), n).Run? ==> m > n
  {
    var b := SplitBody(p);
    StartRelated(p, st);
    h, m := Follow(p, Top, st.transitions, Start(p, st), Steps(b, Start(b, st), 1), n);
    StepsAdd(b, Start(b, st), 1, m);
    m := m + 1;
  }

  // If the original returns, so does the split body, with the same result and
  // state, after at most one transition.
  lemma SplitReturns(p: Block, st: State, n: nat) returns (m: nat)
    requires SourceBlock(p) && Steps(p, Start(p, st), n).Returned?
    ensures var c, c' := Steps(p, Start(p, st), n), Steps(SplitBody(p), Start(SplitBody(p), st), m);
      && c'.Returned? && c'.result == c.result && Same(c.st, c'.st)
      && st.transitions <= c'.st.transitions <= st.transitions + 1
  {
    var h;
    h, m := SplitFollows(p, st, n);
  }

  // If the original runs on, so does the split body.
  lemma SplitRunsOn(p: Block, st: State, n: nat)
    requires SourceBlock(p) && Steps(p, Start(p, st), n).Run?
    ensures Steps(SplitBody(p), Start(SplitBody(p), st), n).Run?
  {
    var b := SplitBody(p);
    var h, m := SplitFollows(p, st, n);
    if !Steps(b, Start(b, st), n).Run? {
      StepsAdd(b, Start(b, st), n, m - n);
      StepsEnded(b, Steps(b, Start(b, st), n), m - n);
      assert false;
    }
  }

  // Two runs of the split body that have ended are the same.
  lemma EndedOnce(b: Block, c: Config, m: nat, m': nat)
    requires !Steps(b, c, m).Run? && !Steps(b, c, m').Run?
    ensures Steps(b, c, m) == Steps(b, c, m')
  {
    if m <= m' {
      StepsAdd(b, c, m, m' - m);
      StepsEnded(b, Steps(b, c, m), m' - m);
    } else {
      StepsAdd(b, c, m', m - m');
      StepsEnded(b, Steps(b, c, m'), m - m');
    }
  }

  // ----- falling off the end -----

  // The start of the bottom half, with nothing else left to do.
  function Again(p: Block, st: State): Config {
    Run(Stmt([], Block(HalfBlock(Bottom, p, 0))), Seq(After(Bottom, p), Stop), st)
  }

  // A body that falls off its end in the bottom half does the same when split; in
  // the top half it goes on at the start of the bottom half.
  lemma FallsThrough(p: Block, h: Half, t: int, c: Config, c': Config)
    requires SourceBlock(p) && c.FellOff? && Related(p, h, t, c, c')
    ensures Step(SplitBody(p), c') == if h.Top? then Again(p, c'.st) else FellOff(c'.st)
  {
    var b, st := SplitBody(p), c'.st;
    if h.Bottom? {
      assert Resume(Seq(Nil, Stop), st) == Resume(Stop, st);
    }
  }

  lemma AgainRelated(p: Block, t: int, st: State, st': State)
    requires SourceBlock(p) && Same(st, st') && st'.transitions == t
    ensures Related(p, Bottom, t - 1, Start(p, st), Step(SplitBody(p), Again(p, st')))
  {
    ResolvesStart(p);
    RelatedEnter(p, Bottom, t - 1, p, 0, CStop, st, st');
  }

  // When the original falls off its end, the split body comes to its own end with
  // the same state, if and only if some primary test has failed on the way;
  // otherwise it comes to the start of the bottom half with that state.
  lemma FallsOffExact(p: Block, st: State, n: nat) returns (m: nat)
    requires SourceBlock(p) && Steps(p, Start(p, st), n).FellOff?
    ensures
      var c, c' := Steps(p, Start(p, st), n), Steps(SplitBody(p), Start(SplitBody(p), st), m);
      && (c'.FellOff? <==> Failed(p, Start(p, st), n))
      && (c'.FellOff? ==> Same(c.st, c'.st) && c'.st.transitions == st.transitions + 1)
      && (!c'.FellOff? ==>
            c'.Run? && c' == Again(p, c'.st) && Same(c.st, c'.st) && c'.st.transitions == st.transitions)
  {
    var b := SplitBody(p);
    var h;
    h, m := SplitFollows(p, st, n);
    var c' := Steps(b, Start(b, st), m);
    FallsThrough(p, h, st.transitions, Steps(p, Start(p, st), n), c');
    StepsAdd(b, Start(b, st), m, 1);
    assert Steps(b, c', 1) == Steps(b, Step(b, c'), 0);
    m := m + 1;
  }

  // From there it does in the bottom half what the original does from the start in
  // that state: the body is run a second time, whatever comes of it.
  lemma RunsAgain(p: Block, st: State, n1: nat, n2: nat) returns (h: Half, m: nat)
    requires SourceBlock(p) && Steps(p, Start(p, st), n1).FellOff? && !Failed(p, Start(p, st), n1)
    ensures h.Bottom?
    ensures Related(p, h, st.transitions - 1, Steps(p, Start(p, Steps(p, Start(p, st), n1).st), n2),
                    Steps(SplitBody(p), Start(SplitBody(p), st), m))
    ensures Steps(p, Start(p, Steps(p, Start(p, st), n1).st), n2).Run? ==> m > n2
  {
    var b, st1 := SplitBody(p), Steps(p, Start(p, st), n1).st;
    var c0 := Start(b, st);
    m := FallsOffExact(p, st, n1);
    var c1 := Steps(b, c0, m);
    AgainRelated(p, st.transitions, st1, c1.st);
    StepsAdd(b, c0, m, 1);
    assert Steps(b, c1, 1) == Steps(b, Step(b, c1), 0);
    m := m + 1;
    var k;
    h, k := Follow(p, Bottom, st.transitions - 1, Start(p, st1), Steps(b, c0, m), n2);
    StepsAdd(b, c0, m, k);
    m := m + k;
  }

  // If it falls off again, the split body ends, having made all effects twice.
  lemma FallsOffTwice(p: Block, st: State, n1: nat, n2: nat) returns (m: nat)
    requires SourceBlock(p) && Steps(p, Start(p, st), n1).FellOff? && !Failed(p, Start(p, st), n1)
    requires Steps(p, Start(p, Steps(p, Start(p, st), n1).st), n2).FellOff?
    ensures var c := Steps(p, Start(p, Steps(p, Start(p, st), n1).st), n2);
      var c' := Steps(SplitBody(p), Start(SplitBody(p), st), m);
      c'.FellOff? && Same(c.st, c'.st)
  {
    var b := SplitBody(p);
    var h;
    h, m := RunsAgain(p, st, n1, n2);
    var c' := Steps(b, Start(b, st), m);
    FallsThrough(p, h, st.transitions - 1, Steps(p, Start(p, Steps(p, Start(p, st), n1).st), n2), c');
    StepsAdd(b, Start(b, st), m, 1);
    assert Steps(b, c', 1) == Steps(b, Step(b, c'), 0);
    m := m + 1;
  }

  // Conversely, what the split body returns, the original returns; or the original
  // falls off its end without a failed test, and returns it when started again in
  // the state it then has.
  lemma SplitReturnsOnly(p: Block, st: State, m: nat) returns (again: bool, n1: nat, n2: nat)
    requires SourceBlock(p) && Steps(SplitBody(p), Start(SplitBody(p), st), m).Returned?
    ensures again ==> Steps(p, Start(p, st), n1).FellOff? && !Failed(p, Start(p, st), n1)
    ensures
      var c1, c' := Steps(p, Start(p, st), n1), Steps(SplitBody(p), Start(SplitBody(p), st), m);
      var c := if again then Steps(p, Start(p, c1.st), n2) else c1;
      c.Returned? && c.result == c'.result && Same(c.st, c'.st)
  {
    var b := SplitBody(p);
    again, n1, n2 := false, m, m;
    var c := Steps(p, Start(p, st), n1);
    if c.Run? {
      SplitRunsOn(p, st, n1);
      assert false;
    } else if c.FellOff? {
      again := true;
      var m' := FallsOffExact(p, st, n1);
      if Failed(p, Start(p, st), n1) {
        EndedOnce(b, Start(b, st), m, m');
        assert false;
      } else {
        SecondReturns(p, st, n1, m);
      }
    } else {
      var h, m' := SplitFollows(p, st, n1);
      EndedOnce(b, Start(b, st), m, m');
    }
  }

  // The second time round.
  lemma SecondReturns(p: Block, st: State, n1: nat, m: nat)
    requires SourceBlock(p) && Steps(p, Start(p, st), n1).FellOff? && !Failed(p, Start(p, st), n1)
    requires Steps(SplitBody(p), Start(SplitBody(p), st), m).Returned?
    ensures
      var c := Steps(p, Start(p, Steps(p, Start(p, st), n1).st), m);
      var c' := Steps(SplitBody(p), Start(SplitBody(p), st), m);
      c.Returned? && c.result == c'.result && Same(c.st, c'.st)
  {
    var b := SplitBody(p);
    var c := Steps(p, Start(p, Steps(p, Start(p, st), n1).st), m);
    var h, m' := RunsAgain(p, st, n1, m);
    if c.Run? {
      StepsAdd(b, Start(b, st), m, m' - m);
      StepsEnded(b, Steps(b, Start(b, st), m), m' - m);
      assert false;
    } else {
      if c.FellOff? {
        m' := FallsOffTwice(p, st, n1, m);
      }
      EndedOnce(b, Start(b, st), m, m');
    }
  }

  // So for a body that cannot fall off its end, because its last statement jumps
  // away on all its paths, the split body returns exactly when the original does,
  // the same result in the same state.
  lemma SplitExact(p: Block, st: State)
    requires SourceBlock(p) && EndsBlock(p)
    ensures (exists m: nat :: Steps(SplitBody(p), Start(SplitBody(p), st), m).Returned?)
      <==> exists n: nat :: Steps(p, Start(p, st), n).Returned?
    ensures forall m: nat, n: nat ::
      var c, c' := Steps(p, Start(p, st), n), Steps(SplitBody(p), Start(SplitBody(p), st), m);
      c.Returned? && c'.Returned? ==> c.result == c'.result && Same(c.st, c'.st)
  {
    var b := SplitBody(p);
    if m: nat :| Steps(b, Start(b, st), m).Returned? {
      var again, n1, n2 := SplitReturnsOnly(p, st, m);
      NeverFallsOff(p, st, n1);
    }
    if n: nat :| Steps(p, Start(p, st), n).Returned? {
      var m := SplitReturns(p, st, n);
    }
    forall m: nat, n: nat | Steps(p, Start(p, st), n).Returned? && Steps(b, Start(b, st), m).Returned?
      ensures Steps(p, Start(p, st), n).result == Steps(b, Start(b, st), m).result
      ensures Same(Steps(p, Start(p, st), n).st, Steps(b, Start(b, st), m).st)
    {
      var m' := SplitReturns(p, st, n);
      EndedOnce(b, Start(b, st), m, m');
    }
  }

  // The smallest such body: one instruction and no return.  Its split form makes
  // the effect twice.
  lemma FallsOffExample(f: Mem -> Mem, st: State)
    ensures var p := Cons(Stmt([], Instrs([Plain(f)])), Nil);
      && SourceBlock(p) && Steps(p, Start(p, st), 2) == FellOff(st.(mem := f(st.mem)))
      && Steps(SplitBody(p), Start(SplitBody(p), st), 10) == FellOff(st.(mem := f(f(st.mem))))
  {
    var s := Stmt([], Instrs([Plain(f)]));
    var p := Cons(s, Nil);
    var b := SplitBody(p);
    var st1, st2 := st.(mem := f(st.mem)), st.(mem := f(f(st.mem)));
    var done := Stmt([], Instrs([]));
    assert [Plain(f)][1..] == [] && [] + [Plain(f)] == [Plain(f)] && Groups([], [Plain(f)]) == [[Plain(f)]];
    Two(p, Start(p, st), Run(done, Seq(Nil, Stop), st1));
    assert Resume(Seq(Nil, Stop), st1) == Resume(Stop, st1) && Resume(Seq(Nil, Stop), st2) == Resume(Stop, st2);
    assert [[Plain(f)]][1..] == [];
    PlainFirst(Top, [[Plain(f)]], 0);
    PlainFirst(Bottom, [[Plain(f)]], 0);
    assert LabelGroups(Top, [[Plain(f)]], 0) == p && LabelGroups(Bottom, [[Plain(f)]], 0) == p;
    var body := Cons(Stmt([], Block(p)), Nil);
    assert HalfBlock(Top, p, 0) == body && HalfBlock(Bottom, p, 0) == body;
    ExampleHalf(b, body, p, s, f, After(Top, p), st);
    ExampleHalf(b, body, p, s, f, After(Bottom, p), st1);
    var c4 := Run(ASM, Seq(Cons(Stmt([], Block(body)), After(Bottom, p)), Stop), st1);
    var c5 := Run(Stmt([], Block(body)), Seq(After(Bottom, p), Stop), st1);
    assert Step(b, c4) == c5;
    StepsAdd(b, Start(b, st), 4, 1);
    assert Steps(b, c4, 1) == Steps(b, c5, 0);
    StepsAdd(b, Start(b, st), 5, 4);
    var c9 := Run(ASM, Seq(Nil, Stop), st2);
    StepsAdd(b, Start(b, st), 9, 1);
    assert Steps(b, c9, 1) == Steps(b, Step(b, c9), 0);
  }

  // Four steps through one half of the example.
  lemma ExampleHalf(b: Block, body: Block, p: Block, s: Stmt, f: Mem -> Mem, after: Block, st: State)
    requires s == Stmt([], Instrs([Plain(f)])) && p == Cons(s, Nil) && body == Cons(Stmt([], Block(p)), Nil)
    requires after.Cons?
    ensures Steps(b, Run(Stmt([], Block(body)), Seq(after, Stop), st), 4)
         == Run(after.head, Seq(after.tail, Stop), st.(mem := f(st.mem)))
  {
    var k := Seq(after, Stop);
    var st1 := st.(mem := f(st.mem));
    var c0 := Run(Stmt([], Block(body)), k, st);
    var c1 := Run(Stmt([], Block(p)), Seq(Nil, k), st);
    var c2 := Run(s, Seq(Nil, Seq(Nil, k)), st);
    var c3 := Run(Stmt([], Instrs([])), Seq(Nil, Seq(Nil, k)), st1);
    assert [Plain(f)][1..] == [];
    assert Step(b, c0) == c1 && Step(b, c1) == c2 && Step(b, c2) == c3;
    assert Resume(Seq(Nil, Seq(Nil, k)), st1) == Resume(Seq(Nil, k), st1) == Resume(k, st1);
    Two(b, c0, c1);
    Two(b, c2, c3);
    StepsAdd(b, c0, 2, 2);
  }
}
