// The split body does what the original body with full checks does.
//
// A context is a continuation that also remembers where the label counter of
// the pass stood, so that the continuations of the original body and of both
// halves can be read off it.
module SplitSim {
  import opened Code
  import opened Split
  import opened Wrappers

  datatype Ctx =
    | CStop
    | CSeq(rest: Block, n: nat, c: Ctx)
    | CLoop(body: Block, n: nat, c: Ctx)
    | CSwitch(c: Ctx)

  function KOrig(c: Ctx): Kont {
    match c
    case CStop => Stop
    case CSeq(b, _, c') => Seq(b, KOrig(c'))
    case CLoop(b, _, c') => InLoop(b, KOrig(c'))
    case CSwitch(c') => InSwitch(KOrig(c'))
  }

  function KHalf(h: Half, p: Block, c: Ctx): Kont {
    match c
    case CStop => Seq(After(h, p), Stop)
    case CSeq(b, n, c') => Seq(HalfBlock(h, b, n), KHalf(h, p, c'))
    case CLoop(b, n, c') => InLoop(HalfBlock(h, b, n), KHalf(h, p, c'))
    case CSwitch(c') => InSwitch(KHalf(h, p, c'))
  }

  predicate SourceCtx(c: Ctx) {
    match c
    case CStop => true
    case CSeq(b, _, c') => SourceBlock(b) && SourceCtx(c')
    case CLoop(b, _, c') => SourceBlock(b) && SourceCtx(c')
    case CSwitch(c') => SourceCtx(c')
  }

  // ----- finding labels of the source -----

  // The statement that carries a label, the counter there, and its context.
  function LocateStmt(s: Stmt, n: nat, l: Label, c: Ctx): Option<(Stmt, nat, Ctx)> {
    if l in s.labels then Some((s, n, c))
    else
      match s.kind
      case If(_, t, e) =>
        var r := LocateBlock(t, n, l, c);
        if r.Some? then r else LocateBlock(e, n + CountBlock(t), l, c)
      case Loop(b) => LocateBlock(b, n, l, CLoop(b, n, c))
      case Block(b) => LocateBlock(b, n, l, c)
      case Switch(_, b, _) => LocateBlock(b, n, l, CSwitch(c))
      case _ => None
  }

  function LocateBlock(b: Block, n: nat, l: Label, c: Ctx): Option<(Stmt, nat, Ctx)> {
    match b
    case Nil => None
    case Cons(s, rest) =>
      var r := LocateStmt(s, n, l, CSeq(rest, n + CountStmt(s), c));
      if r.Some? then r else LocateBlock(rest, n + CountStmt(s), l, c)
  }

  function InOrig(r: Option<(Stmt, nat, Ctx)>): Option<(Stmt, Kont)> {
    match r
    case None => None
    case Some((s, _, c)) => Some((s, KOrig(c)))
  }

  function InHalf(h: Half, p: Block, r: Option<(Stmt, nat, Ctx)>): Option<(Stmt, Kont)> {
    match r
    case None => None
    case Some((s, n, c)) => Some((HalfStmt(h, s, n), KHalf(h, p, c)))
  }

  lemma {:induction false} FindOrigStmt(s: Stmt, n: nat, l: Label, c: Ctx)
    ensures FindStmt(s, l, KOrig(c)) == InOrig(LocateStmt(s, n, l, c))
  {
    hide FindBlock, LocateBlock, CountBlock;
    match s.kind
    case If(_, t, e) =>
      FindOrigBlock(t, n, l, c);
      FindOrigBlock(e, n + CountBlock(t), l, c);
    case Loop(b) => FindOrigBlock(b, n, l, CLoop(b, n, c));
    case Block(b) => FindOrigBlock(b, n, l, c);
    case Switch(_, b, _) => FindOrigBlock(b, n, l, CSwitch(c));
    case _ =>
  }

  lemma {:induction false} FindOrigBlock(b: Block, n: nat, l: Label, c: Ctx)
    ensures FindBlock(b, l, KOrig(c)) == InOrig(LocateBlock(b, n, l, c))
  {
    match b
    case Nil =>
    case Cons(s, rest) =>
      FindOrigStmt(s, n, l, CSeq(rest, n + CountStmt(s), c));
      FindOrigBlock(rest, n + CountStmt(s), l, c);
  }

  // Prefixing keeps labels of the source apart.
  lemma HalfLabelIn(h: Half, ls: seq<Label>, l: Label)
    requires SourceLabel(l) && forall x <- ls :: SourceLabel(x)
    ensures HalfLabel(h, l) in HalfLabels(h, ls) <==> l in ls
  {
    if l in ls {
      var i :| 0 <= i < |ls| && ls[i] == l;
      assert HalfLabels(h, ls)[i] == HalfLabel(h, l);
    }
    if HalfLabel(h, l) in HalfLabels(h, ls) {
      var i :| 0 <= i < |ls| && HalfLabels(h, ls)[i] == HalfLabel(h, l);
      assert ls[i] in ls && ls[i] == l;
    }
  }

  lemma FindNowhere(s: Stmt, rest: Block, l: Label, k: Kont)
    requires FindStmt(s, l, Seq(rest, k)) == None
    ensures FindBlock(Cons(s, rest), l, k) == FindBlock(rest, l, k)
  {
  }

  lemma FindInLeaf(s: Stmt, l: Label, k: Kont)
    requires l !in s.labels && (s.kind.Instrs? || s.kind.Goto?)
    ensures FindStmt(s, l, k) == None
  {
  }

  predicate PassLabel(l: Label) {
    l.PrimaryLabel? || l.FullLabel?
  }

  // Split instruction lists carry no labels but the pass's own.
  lemma {:induction false} FindInGroups(h: Half, gs: seq<seq<Instr>>, n: nat, l: Label, k: Kont)
    requires !PassLabel(l)
    ensures FindBlock(LabelGroups(h, gs, n), l, k) == None
    decreases |gs|
  {
    if gs == [] {
    } else {
      FindInGroups(h, gs[1..], n, l, k);
      FindInGroups(h, gs[1..], n + 1, l, k);
      if |gs[0]| == 1 && gs[0][0].FullCheck? {
        FindInCheck(h, gs[0][0].check, n, l, Seq(LabelGroups(h, gs[1..], n + 1), k));
      }
    }
  }

  lemma FindInCheck(h: Half, c: Check, n: nat, l: Label, k: Kont)
    requires !l.PrimaryLabel? && (h.Bottom? ==> !l.FullLabel?)
    ensures FindStmt(CheckStmt(h, c, n), l, k) == None
  {
    if h.Top? {
      var s1, s2 := Stmt([], Instrs([Transition])), Stmt([], Goto(FullLabel(n)));
      var jump := Cons(s1, Cons(s2, Nil));
      var s3 := Stmt([], Block(jump));
      var s4, s5 := Stmt([PrimaryLabel(n)], Instrs([PrimaryCheck(c)])), Stmt([], If(NotOut(c.out), Cons(s3, Nil), Nil));
      FindInLeaf(s2, l, Seq(Nil, Seq(Nil, Seq(Nil, k))));
      FindNowhere(s2, Nil, l, Seq(Nil, Seq(Nil, k)));
      FindInLeaf(s1, l, Seq(Cons(s2, Nil), Seq(Nil, Seq(Nil, k))));
      FindNowhere(s1, Cons(s2, Nil), l, Seq(Nil, Seq(Nil, k)));
      FindNowhere(s3, Nil, l, Seq(Nil, k));
      FindNowhere(s5, Nil, l, k);
      FindNowhere(s4, Cons(s5, Nil), l, k);
    }
  }

  lemma {:induction false} FindHalfStmt(h: Half, p: Block, s: Stmt, n: nat, l: Label, c: Ctx)
    requires SourceStmt(s) && SourceLabel(l)
    ensures FindStmt(HalfStmt(h, s, n), HalfLabel(h, l), KHalf(h, p, c)) == InHalf(h, p, LocateStmt(s, n, l, c))
    decreases s, 1
  {
    hide HalfLabel, HalfLabels, CountBlock, CountStmt, LabelGroups, After, FindBlock, HalfBlock, LocateBlock;
    HalfLabelIn(h, s.labels, l);
    if l in s.labels {
      assert LocateStmt(s, n, l, c) == Some((s, n, c));
    } else {
      match s.kind
      case Instrs(ins) =>
        HalfLabelNotPass(h, l);
        FindInGroups(h, Groups([], ins), n, HalfLabel(h, l), KHalf(h, p, c));
      case If(_, t, e) => FindHalfIf(h, p, s, n, l, c);
      case Loop(b) => FindHalfBlock(h, p, b, n, l, CLoop(b, n, c));
      case Block(b) => FindHalfBlock(h, p, b, n, l, c);
      case Switch(_, b, _) => FindHalfBlock(h, p, b, n, l, CSwitch(c));
      case _ =>
    }
  }

  lemma FindHalfIf(h: Half, p: Block, s: Stmt, n: nat, l: Label, c: Ctx)
    requires SourceStmt(s) && SourceLabel(l) && s.kind.If? && l !in s.labels
    ensures FindStmt(HalfStmt(h, s, n), HalfLabel(h, l), KHalf(h, p, c)) == InHalf(h, p, LocateStmt(s, n, l, c))
    decreases s, 0
  {
    hide HalfLabel, HalfLabels, CountBlock, CountStmt, After, FindBlock, HalfBlock, LocateBlock;
    HalfLabelIn(h, s.labels, l);
    FindHalfBlock(h, p, s.kind.thn, n, l, c);
    FindHalfBlock(h, p, s.kind.els, n + CountBlock(s.kind.thn), l, c);
  }

  lemma HalfLabelNotPass(h: Half, l: Label)
    requires SourceLabel(l)
    ensures !PassLabel(HalfLabel(h, l))
  {
  }

  lemma {:induction false} FindHalfBlock(h: Half, p: Block, b: Block, n: nat, l: Label, c: Ctx)
    requires SourceBlock(b) && SourceLabel(l)
    ensures FindBlock(HalfBlock(h, b, n), HalfLabel(h, l), KHalf(h, p, c)) == InHalf(h, p, LocateBlock(b, n, l, c))
    decreases b, 1
  {
    match b
    case Nil =>
    case Cons(s, rest) =>
      FindHalfStmt(h, p, s, n, l, CSeq(rest, n + CountStmt(s), c));
      FindHalfBlock(h, p, rest, n + CountStmt(s), l, c);
  }

  // ----- labels of the other half -----

  predicate BottomLabel(l: Label) {
    l.BottomHalf? || l.FullLabel?
  }

  lemma {:induction false} NotInTopGroups(gs: seq<seq<Instr>>, n: nat, l: Label, k: Kont)
    requires BottomLabel(l)
    ensures FindBlock(LabelGroups(Top, gs, n), l, k) == None
    decreases |gs|
  {
    if gs == [] {
    } else {
      NotInTopGroups(gs[1..], n, l, k);
      NotInTopGroups(gs[1..], n + 1, l, k);
      if |gs[0]| == 1 && gs[0][0].FullCheck? {
        FindInCheck(Top, gs[0][0].check, n, l, Seq(LabelGroups(Top, gs[1..], n + 1), k));
      }
    }
  }

  // Labels that the given half does not have: the bottom half's own in the top half,
  // and those of the programmer in the bottom half.
  predicate OtherLabel(h: Half, l: Label) {
    if h.Top? then BottomLabel(l) else l.User?
  }

  lemma {:induction false} NotInHalfStmt(h: Half, s: Stmt, n: nat, l: Label, k: Kont)
    requires SourceStmt(s) && OtherLabel(h, l)
    ensures FindStmt(HalfStmt(h, s, n), l, k) == None
  {
    hide FindBlock, HalfBlock, LabelGroups, CountStmt;
    forall i | 0 <= i < |s.labels| ensures HalfLabels(h, s.labels)[i] != l {
      assert s.labels[i] in s.labels;
    }
    match s.kind
    case Instrs(ins) => NotInHalfGroups(h, Groups([], ins), n, l, k);
    case If(_, t, e) =>
      NotInHalfBlock(h, t, n, l, k);
      NotInHalfBlock(h, e, n + CountBlock(t), l, k);
    case Loop(b) => NotInHalfBlock(h, b, n, l, InLoop(HalfBlock(h, b, n), k));
    case Block(b) => NotInHalfBlock(h, b, n, l, k);
    case Switch(_, b, _) => NotInHalfBlock(h, b, n, l, InSwitch(k));
    case _ =>
  }

  lemma NotInHalfGroups(h: Half, gs: seq<seq<Instr>>, n: nat, l: Label, k: Kont)
    requires OtherLabel(h, l)
    ensures FindBlock(LabelGroups(h, gs, n), l, k) == None
  {
    if h.Top? {
      NotInTopGroups(gs, n, l, k);
    } else {
      FindInGroups(h, gs, n, l, k);
    }
  }

  lemma {:induction false} NotInHalfBlock(h: Half, b: Block, n: nat, l: Label, k: Kont)
    requires SourceBlock(b) && OtherLabel(h, l)
    ensures FindBlock(HalfBlock(h, b, n), l, k) == None
  {
    match b
    case Nil =>
    case Cons(s, rest) =>
      NotInHalfStmt(h, s, n, l, Seq(HalfBlock(h, rest, n + CountStmt(s)), k));
      NotInHalfBlock(h, rest, n + CountStmt(s), l, k);
  }

  // In the split body, a label of the bottom half leads into the bottom half.
  lemma FindBottom(p: Block, l: Label)
    requires SourceBlock(p) && BottomLabel(l)
    ensures FindBlock(SplitBody(p), l, Stop) == FindBlock(HalfBlock(Bottom, p, 0), l, KHalf(Bottom, p, CStop))
  {
    var bottom := Stmt([], Block(HalfBlock(Bottom, p, 0)));
    NotInHalfBlock(Top, p, 0, l, Seq(After(Top, p), Stop));
    FindNowhere(Stmt([], Block(HalfBlock(Top, p, 0))), After(Top, p), l, Stop);
    FindNowhere(ASM, Cons(bottom, After(Bottom, p)), l, Stop);
    FindNowhere(ASM, Nil, l, Stop);
  }

  // A goto of the source stays within its half.
  lemma FindGoto(h: Half, p: Block, l: Label)
    requires SourceBlock(p) && l.User?
    ensures FindBlock(SplitBody(p), HalfLabel(h, l), Stop) == InHalf(h, p, LocateBlock(p, 0, l, CStop))
  {
    hide HalfStmt, HalfBlock, LocateBlock, LocateStmt, FindStmt;
    FindHalfBlock(h, p, p, 0, l, CStop);
    if h.Bottom? {
      FindBottom(p, HalfLabel(h, l));
    } else {
      FindTop(p, l);
    }
  }

  // A label of the programmer leads into the top half, or nowhere.
  lemma FindTop(p: Block, l: Label)
    requires SourceBlock(p) && l.User?
    ensures FindBlock(SplitBody(p), l, Stop) == FindBlock(HalfBlock(Top, p, 0), l, KHalf(Top, p, CStop))
  {
    hide HalfStmt, HalfBlock;
    var bottom := Stmt([], Block(HalfBlock(Bottom, p, 0)));
    NotInHalfBlock(Bottom, p, 0, l, Seq(After(Bottom, p), Stop));
    FindNowhere(ASM, Nil, l, Stop);
    FindNowhere(bottom, After(Bottom, p), l, Stop);
    FindNowhere(ASM, Cons(bottom, After(Bottom, p)), l, Stop);
  }

  // ----- where full check labels lead -----

  // The label of check j in the split body.
  function Root(p: Block, j: nat): Option<(Stmt, Kont)> {
    FindBlock(SplitBody(p), FullLabel(j), Stop)
  }

  // Numbers outside the range of a block do not occur in its bottom half.
  lemma {:induction false} GroupsRange(gs: seq<seq<Instr>>, n: nat, j: nat, k: Kont)
    requires j < n || j >= n + CountGroups(gs)
    ensures FindBlock(LabelGroups(Bottom, gs, n), FullLabel(j), k) == None
    decreases |gs|
  {
    if gs == [] {
    } else {
      if IsCheck(gs[0]) {
        GroupsRange(gs[1..], n + 1, j, k);
      } else {
        GroupsRange(gs[1..], n, j, k);
      }
    }
  }

  predicate IsCheck(g: seq<Instr>) {
    |g| == 1 && g[0].FullCheck?
  }

  function CountGroups(gs: seq<seq<Instr>>): nat {
    if gs == [] then 0 else (if IsCheck(gs[0]) then 1 else 0) + CountGroups(gs[1..])
  }

  predicate PlainRun(cur: seq<Instr>) {
    forall i :: 0 <= i < |cur| ==> !cur[i].FullCheck?
  }

  // Grouping instructions: the first group runs up to the first check.
  lemma {:induction false} GroupsFrom(cur: seq<Instr>, ins: seq<Instr>)
    ensures var gs := Groups([], ins);
      PlainRun(gs[0]) && Groups(cur, ins) == [cur + gs[0]] + gs[1..]
    decreases |ins|
  {
    if ins == [] || ins[0].FullCheck? {
      assert cur + [] == cur;
    } else {
      GroupsFrom([ins[0]], ins[1..]);
      GroupsFrom(cur + [ins[0]], ins[1..]);
      var gs := Groups([], ins[1..]);
      assert [] + [ins[0]] == [ins[0]];
      assert (cur + [ins[0]]) + gs[0] == cur + ([ins[0]] + gs[0]);
    }
  }

  lemma {:induction false} CountGrouped(ins: seq<Instr>)
    ensures CountGroups(Groups([], ins)) == CountInstrs(ins) == CountGroups(Groups([], ins)[1..])
    decreases |ins|
  {
    var gs := Groups([], ins);
    GroupsFrom([], ins);
    if ins == [] {
    } else {
      CountGrouped(ins[1..]);
      GroupsFrom([ins[0]], ins[1..]);
      if ins[0].FullCheck? {
        var rest := Groups([], ins[1..]);
        assert gs[1..] == [[ins[0]]] + rest;
        assert gs[1..][1..] == rest;
      } else {
        assert [] + [ins[0]] == [ins[0]];
        assert gs[1..] == Groups([], ins[1..])[1..];
      }
    }
  }

  lemma {:induction false} StmtRange(s: Stmt, n: nat, j: nat, k: Kont)
    requires SourceStmt(s) && (j < n || j >= n + CountStmt(s))
    ensures FindStmt(HalfStmt(Bottom, s, n), FullLabel(j), k) == None
  {
    forall i | 0 <= i < |s.labels| ensures HalfLabels(Bottom, s.labels)[i] != FullLabel(j) {
      assert s.labels[i] in s.labels;
    }
    match s.kind
    case Instrs(ins) =>
      CountGrouped(ins);
      GroupsRange(Groups([], ins), n, j, k);
    case If(_, t, e) =>
      BlockRange(t, n, j, k);
      BlockRange(e, n + CountBlock(t), j, k);
    case Loop(b) => BlockRange(b, n, j, InLoop(HalfBlock(Bottom, b, n), k));
    case Block(b) => BlockRange(b, n, j, k);
    case Switch(_, b, _) => BlockRange(b, n, j, InSwitch(k));
    case _ =>
  }

  lemma {:induction false} BlockRange(b: Block, n: nat, j: nat, k: Kont)
    requires SourceBlock(b) && (j < n || j >= n + CountBlock(b))
    ensures FindBlock(HalfBlock(Bottom, b, n), FullLabel(j), k) == None
  {
    match b
    case Nil =>
    case Cons(s, rest) =>
      StmtRange(s, n, j, Seq(HalfBlock(Bottom, rest, n + CountStmt(s)), k));
      BlockRange(rest, n + CountStmt(s), j, k);
  }

  // All numbers inside it do: each is the label of one check.
  lemma {:induction false} GroupsUsed(gs: seq<seq<Instr>>, n: nat, j: nat, k: Kont)
    requires n <= j < n + CountGroups(gs)
    ensures FindBlock(LabelGroups(Bottom, gs, n), FullLabel(j), k).Some?
    decreases |gs|
  {
    if IsCheck(gs[0]) {
      if j > n {
        GroupsUsed(gs[1..], n + 1, j, k);
      }
    } else {
      GroupsUsed(gs[1..], n, j, k);
    }
  }

  lemma {:induction false} StmtUsed(s: Stmt, n: nat, j: nat, k: Kont)
    requires SourceStmt(s) && n <= j < n + CountStmt(s)
    ensures FindStmt(HalfStmt(Bottom, s, n), FullLabel(j), k).Some?
  {
    hide FindBlock, HalfBlock, LabelGroups;
    match s.kind
    case Instrs(ins) =>
      CountGrouped(ins);
      GroupsUsed(Groups([], ins), n, j, k);
    case If(_, t, e) =>
      if j < n + CountBlock(t) {
        BlockUsed(t, n, j, k);
      } else {
        BlockUsed(e, n + CountBlock(t), j, k);
      }
    case Loop(b) => BlockUsed(b, n, j, InLoop(HalfBlock(Bottom, b, n), k));
    case Block(b) => BlockUsed(b, n, j, k);
    case Switch(_, b, _) => BlockUsed(b, n, j, InSwitch(k));
  }

  lemma {:induction false} BlockUsed(b: Block, n: nat, j: nat, k: Kont)
    requires SourceBlock(b) && n <= j < n + CountBlock(b)
    ensures FindBlock(HalfBlock(Bottom, b, n), FullLabel(j), k).Some?
  {
    match b
    case Cons(s, rest) =>
      if j < n + CountStmt(s) {
        StmtUsed(s, n, j, Seq(HalfBlock(Bottom, rest, n + CountStmt(s)), k));
      } else {
        BlockUsed(rest, n + CountStmt(s), j, k);
      }
  }

  // So the checks of the bottom half are numbered from 0 on without a gap.
  lemma LabelsExact(p: Block, j: nat)
    requires SourceBlock(p)
    ensures FindBlock(HalfBlock(Bottom, p, 0), FullLabel(j), Stop).Some? <==> j < CountBlock(p)
  {
    if j < CountBlock(p) {
      BlockUsed(p, 0, j, Stop);
    } else {
      BlockRange(p, 0, j, Stop);
    }
  }

  // Every check numbered in this block, at this place, is the one its label
  // leads to.
  ghost predicate ResolvesBlock(p: Block, b: Block, n: nat, c: Ctx) {
    forall j :: n <= j < n + CountBlock(b) ==>
      Root(p, j) == FindBlock(HalfBlock(Bottom, b, n), FullLabel(j), KHalf(Bottom, p, c))
  }

  ghost predicate ResolvesStmt(p: Block, s: Stmt, n: nat, c: Ctx) {
    forall j :: n <= j < n + CountStmt(s) ==>
      Root(p, j) == FindStmt(HalfStmt(Bottom, s, n), FullLabel(j), KHalf(Bottom, p, c))
  }

  ghost predicate ResolvesGroups(p: Block, gs: seq<seq<Instr>>, n: nat, c: Ctx) {
    forall j :: n <= j < n + CountGroups(gs) ==>
      Root(p, j) == FindBlock(LabelGroups(Bottom, gs, n), FullLabel(j), KHalf(Bottom, p, c))
  }

  ghost predicate ResolvesCtx(p: Block, c: Ctx) {
    match c
    case CStop => true
    case CSeq(b, n, c') => ResolvesBlock(p, b, n, c') && ResolvesCtx(p, c')
    case CLoop(b, n, c') => ResolvesBlock(p, b, n, c) && ResolvesCtx(p, c')
    case CSwitch(c') => ResolvesCtx(p, c')
  }

  lemma ResolvesStart(p: Block)
    requires SourceBlock(p)
    ensures ResolvesBlock(p, p, 0, CStop)
  {
    forall j | 0 <= j < CountBlock(p)
      ensures Root(p, j) == FindBlock(HalfBlock(Bottom, p, 0), FullLabel(j), KHalf(Bottom, p, CStop))
    {
      FindBottom(p, FullLabel(j));
    }
  }

  lemma ResolvesCons(p: Block, s: Stmt, rest: Block, n: nat, c: Ctx)
    requires SourceStmt(s) && SourceBlock(rest) && ResolvesBlock(p, Cons(s, rest), n, c)
    ensures ResolvesStmt(p, s, n, CSeq(rest, n + CountStmt(s), c))
    ensures ResolvesBlock(p, rest, n + CountStmt(s), c)
  {
    hide HalfStmt, FindStmt, CountStmt, SourceStmt, SplitBody;
    var m := n + CountStmt(s);
    forall j | n <= j < m
      ensures Root(p, j) == FindStmt(HalfStmt(Bottom, s, n), FullLabel(j), KHalf(Bottom, p, CSeq(rest, m, c)))
    {
      BlockRange(rest, m, j, KHalf(Bottom, p, c));
    }
    forall j | m <= j < m + CountBlock(rest)
      ensures Root(p, j) == FindBlock(HalfBlock(Bottom, rest, m), FullLabel(j), KHalf(Bottom, p, c))
    {
      StmtRange(s, n, j, KHalf(Bottom, p, CSeq(rest, m, c)));
    }
  }

  lemma NoFullLabel(s: Stmt, j: nat)
    requires SourceStmt(s)
    ensures FullLabel(j) !in HalfLabels(Bottom, s.labels)
  {
    forall i | 0 <= i < |s.labels| ensures HalfLabels(Bottom, s.labels)[i] != FullLabel(j) {
      assert s.labels[i] in s.labels;
    }
  }

  lemma ResolvesIf(p: Block, s: Stmt, n: nat, c: Ctx)
    requires SourceStmt(s) && ResolvesStmt(p, s, n, c) && s.kind.If?
    ensures ResolvesBlock(p, s.kind.thn, n, c) && ResolvesBlock(p, s.kind.els, n + CountBlock(s.kind.thn), c)
  {
    hide Root, HalfBlock, HalfLabels, KHalf, CountBlock;
    var t, e := s.kind.thn, s.kind.els;
    var m := n + CountBlock(t);
    forall j | n <= j < m
      ensures Root(p, j) == FindBlock(HalfBlock(Bottom, t, n), FullLabel(j), KHalf(Bottom, p, c))
    {
      FindInIf(s, n, j, KHalf(Bottom, p, c));
    }
    forall j | m <= j < m + CountBlock(e)
      ensures Root(p, j) == FindBlock(HalfBlock(Bottom, e, m), FullLabel(j), KHalf(Bottom, p, c))
    {
      FindInIf(s, n, j, KHalf(Bottom, p, c));
    }
  }

  // A check of an if statement is found in the branch that has it.
  lemma FindInIf(s: Stmt, n: nat, j: nat, k: Kont)
    requires SourceStmt(s) && s.kind.If? && n <= j < n + CountStmt(s)
    ensures
      var t, e := s.kind.thn, s.kind.els;
      var m := n + CountBlock(t);
      FindStmt(HalfStmt(Bottom, s, n), FullLabel(j), k) ==
        if j < m then FindBlock(HalfBlock(Bottom, t, n), FullLabel(j), k)
        else FindBlock(HalfBlock(Bottom, e, m), FullLabel(j), k)
  {
    hide HalfBlock, SourceBlock;
    var t, e := s.kind.thn, s.kind.els;
    var m := n + CountBlock(t);
    NoFullLabel(s, j);
    if j < m {
      BlockRange(e, m, j, k);
    } else {
      BlockRange(t, n, j, k);
    }
  }

  // The context in which the body of a statement runs.
  function Inner(s: Stmt, n: nat, c: Ctx): Ctx
    requires s.kind.Loop? || s.kind.Block? || s.kind.Switch?
  {
    match s.kind
    case Loop(b) => CLoop(b, n, c)
    case Block(_) => c
    case Switch(_, _, _) => CSwitch(c)
  }

  lemma ResolvesInner(p: Block, s: Stmt, n: nat, c: Ctx)
    requires SourceStmt(s) && ResolvesStmt(p, s, n, c) && (s.kind.Loop? || s.kind.Block? || s.kind.Switch?)
    ensures ResolvesBlock(p, s.kind.body, n, Inner(s, n, c))
  {
    forall j | n <= j < n + CountBlock(s.kind.body)
      ensures Root(p, j) == FindBlock(HalfBlock(Bottom, s.kind.body, n), FullLabel(j), KHalf(Bottom, p, Inner(s, n, c)))
    {
      NoFullLabel(s, j);
    }
  }

  lemma PlainFirst(h: Half, gs: seq<seq<Instr>>, n: nat)
    requires gs != [] && PlainRun(gs[0])
    ensures LabelGroups(h, gs, n) == Cons(Stmt([], Instrs(gs[0])), LabelGroups(h, gs[1..], n))
    ensures CountGroups(gs) == CountGroups(gs[1..])
  {
  }

  lemma CheckFirst(h: Half, g: seq<Instr>, gs: seq<seq<Instr>>, n: nat)
    requires IsCheck(g)
    ensures LabelGroups(h, [g] + gs, n) == Cons(CheckStmt(h, g[0].check, n), LabelGroups(h, gs, n + 1))
    ensures CountGroups([g] + gs) == 1 + CountGroups(gs)
  {
    assert ([g] + gs)[1..] == gs;
  }

  lemma FindPastPlain(gs: seq<seq<Instr>>, n: nat, l: Label, k: Kont)
    requires gs != [] && PlainRun(gs[0])
    ensures FindBlock(LabelGroups(Bottom, gs, n), l, k) == FindBlock(LabelGroups(Bottom, gs[1..], n), l, k)
  {
    PlainFirst(Bottom, gs, n);
    var s := Stmt([], Instrs(gs[0]));
    FindInLeaf(s, l, Seq(LabelGroups(Bottom, gs[1..], n), k));
    FindNowhere(s, LabelGroups(Bottom, gs[1..], n), l, k);
  }

  lemma ResolvesInstrs(p: Block, s: Stmt, n: nat, c: Ctx)
    requires SourceStmt(s) && ResolvesStmt(p, s, n, c) && s.kind.Instrs?
    ensures ResolvesGroups(p, Groups([], s.kind.instrs)[1..], n, c)
  {
    hide LabelGroups, Groups, CountGroups, Root, KHalf, HalfLabels;
    var gs := Groups([], s.kind.instrs);
    CountGrouped(s.kind.instrs);
    GroupsFrom([], s.kind.instrs);
    forall j | n <= j < n + CountGroups(gs[1..])
      ensures Root(p, j) == FindBlock(LabelGroups(Bottom, gs[1..], n), FullLabel(j), KHalf(Bottom, p, c))
    {
      NoFullLabel(s, j);
      FindPastPlain(gs, n, FullLabel(j), KHalf(Bottom, p, c));
    }
  }

  // The label of the next check leads to it; the remaining ones resolve as well.
  lemma ResolvesCheck(p: Block, g: seq<Instr>, gs: seq<seq<Instr>>, n: nat, c: Ctx)
    requires IsCheck(g) && gs != [] && PlainRun(gs[0]) && ResolvesGroups(p, [g] + gs, n, c)
    ensures Root(p, n) ==
      Some((CheckStmt(Bottom, g[0].check, n), Seq(LabelGroups(Bottom, gs, n + 1), KHalf(Bottom, p, c))))
    ensures ResolvesGroups(p, gs[1..], n + 1, c)
  {
    var k := KHalf(Bottom, p, c);
    CheckFirst(Bottom, g, gs, n);
    PlainFirst(Bottom, gs, n + 1);
    assert Root(p, n) == FindBlock(LabelGroups(Bottom, [g] + gs, n), FullLabel(n), k);
    forall j | n + 1 <= j < n + 1 + CountGroups(gs[1..])
      ensures Root(p, j) == FindBlock(LabelGroups(Bottom, gs[1..], n + 1), FullLabel(j), k)
    {
      var s := CheckStmt(Bottom, g[0].check, n);
      FindInLeaf(s, FullLabel(j), Seq(LabelGroups(Bottom, gs, n + 1), k));
      FindNowhere(s, LabelGroups(Bottom, gs, n + 1), FullLabel(j), k);
      FindPastPlain(gs, n + 1, FullLabel(j), k);
    }
  }
}
