// Runs of a program in which instrumented and uninstrumented functions call each
// other, seen from the bounds stack.
module CallProtocol {
  import opened MachineWord
  import opened BoundsStack
  import opened PointerBounds
  import opened Wrappers

  // The addresses of the instrumented functions, that of main, and the bounds of
  // argv. main is 0 if the initialiser did not find it.
  datatype Program = Program(ours: set<Word>, main: Word, argv: Bounds)

  // What a call site with bounds keeps in locals of the caller: the stack pointer
  // before the pushes and at the cookie, and how many bounds it will peek from
  // the result. The arguments are kept only to state properties.
  datatype CallSite = CallSite(saved: int, cookie: int, callee: Word, results: nat, args: seq<seq<Bounds>>)

  // An active call. flag is the callee's caller-is-instrumented flag and received
  // what its formals got; site is the call it is making, if that passes bounds.
  // The rest is kept only to state properties: the call it is making whether or not
  // that passes bounds, the stack when its body began, the number of pointers in each
  // formal, and whether the initialiser's cookie for main was still there when it was
  // called.
  datatype Frame = Frame(
    address: Word, flag: bool, received: Option<seq<seq<Bounds>>>, site: Option<CallSite>, calling: Option<Event>,
    floor: Stack, formals: seq<nat>, unclaimed: bool)

  datatype Machine = Machine(stack: Stack, frames: seq<Frame>)

  // A step of the frame on top. The pointers in each argument come with their
  // bounds, in enumeration order; formals counts the pointers in each formal of
  // the callee; results counts those in the lvalue that the call writes. again is
  // the value of the callee expression after the call.
  datatype Event =
    | Call(callee: Word, args: seq<seq<Bounds>>, results: nat, formals: seq<nat>)
    | Return(bounds: seq<Bounds>, again: Word)

  // The stack pointer that the initialiser leaves.
  const INITIAL := -3

  // The stack that the initialiser leaves: the bounds of argv and a cookie for
  // main, pushed long before anything calls main.
  function Begin(p: Program): (s: Stack)
    ensures s.sp == INITIAL && s.At(INITIAL) == p.main && s.BoundsAt(INITIAL + 1) == p.argv
  {
    PushCookie(PushBounds(Stack(0, map[]), p.argv), p.main)
  }

  function Top(m: Machine): Frame
    requires m.frames != []
  {
    m.frames[|m.frames| - 1]
  }

  function Rest(m: Machine): seq<Frame>
    requires m.frames != []
  {
    m.frames[..|m.frames| - 1]
  }

  // Whether a call by f pushes a cookie.
  predicate Passes(p: Program, f: Frame, e: Event)
    requires e.Call?
  {
    f.address in p.ours && (Flat(e.args) != [] || e.results > 0)
  }

  // Caller and callee agree about the types of arguments and result, where a
  // variadic callee has formals for the first arguments only; main returns no
  // pointer; and the last frame does not return.
  predicate Possible(p: Program, m: Machine, e: Event) {
    m.frames != [] &&
    match e
    case Call(callee, args, _, formals) =>
      Passes(p, Top(m), e) && callee in p.ours ==> formals <= Counts(args)
    case Return(bounds, _) =>
      |m.frames| > 1 && (Top(m).address == p.main ==> bounds == []) &&
      var caller := m.frames[|m.frames| - 2];
      caller.site.Some? && Top(m).address in p.ours ==> caller.site.value.results in {0, |bounds|}
  }

  // A call with a pointer in an argument or in the result.
  predicate HasPointer(e: Event)
    requires e.Call?
  {
    (exists a <- e.args :: a != []) || e.results > 0
  }

  // Those are the calls for which an instrumented function pushes bounds.
  lemma PassesExact(p: Program, f: Frame, e: Event)
    requires e.Call?
    ensures Passes(p, f, e) <==> f.address in p.ours && HasPointer(e)
  {
    FlatEmpty(e.args);
  }

  // The caller's part of a call.
  function CallOut(p: Program, s: Stack, f: Frame, e: Event): (Stack, Frame)
    requires e.Call?
  {
    if Passes(p, f, e) then
      var t := PassArguments(s, e.args, e.callee);
      (t, f.(site := Some(CallSite(s.sp, t.sp, e.callee, e.results, e.args)), calling := Some(e)))
    else (s, f.(site := None, calling := Some(e)))
  }

  // The callee's part: an instrumented one looks for its cookie and peeks.
  function Enter(p: Program, s: Stack, callee: Word, formals: seq<nat>): Frame {
    var unclaimed := s.At(INITIAL) == p.main;
    if callee in p.ours then
      var (t, flag) := Tweak(s, callee);
      Frame(callee, flag, if flag then Some(PeekFormals(t, formals)) else None, None, None, t, formals, unclaimed)
    else Frame(callee, false, None, None, None, s, formals, unclaimed)
  }

  // The callee's part of a return.
  function Leave(p: Program, s: Stack, f: Frame, bounds: seq<Bounds>): Stack {
    if f.address in p.ours && f.flag then PushAll(s, Rev(bounds)) else s
  }

  // What the caller peeks from the result; None stands for invalid bounds.
  function ResultBounds(s: Stack, site: CallSite, again: Word): Option<seq<Bounds>> {
    if s.At(site.cookie) != again then Some(PeekResults(s, site.results)) else None
  }

  function Step(p: Program, m: Machine, e: Event): Machine
    requires Possible(p, m, e)
  {
    match e
    case Call(callee, _, _, formals) =>
      var (s, caller) := CallOut(p, m.stack, Top(m), e);
      var f := Enter(p, s, callee, formals);
      Machine(f.floor, Rest(m) + [caller, f])
    case Return(bounds, _) =>
      var s := Leave(p, m.stack, Top(m), bounds);
      var caller := m.frames[|m.frames| - 2];
      var t := if caller.site.Some? then Cleanup(s, caller.site.value.saved) else s;
      Machine(t, m.frames[..|m.frames| - 2] + [caller.(site := None, calling := None)])
  }

  // A program starts with a call of its first function on the initialiser's stack,
  // from the dynamic linker, say.
  function Initial(p: Program, entry: Word, formals: seq<nat>): Machine {
    var f := Enter(p, Begin(p), entry, formals);
    Machine(f.floor, [f])
  }

  // ----- the invariant -----

  // Functions live in the user half of the address space, where consuming a cookie
  // changes it.
  predicate UserCode(p: Program) {
    UserHalf(p.main) && forall a <- p.ours :: UserHalf(a)
  }

  lemma ConsumedIsNoFunction(p: Program, a: Word)
    requires UserCode(p)
    ensures Consumed(a) !in p.ours && !UserHalf(Consumed(a))
  {
  }

  // Nothing at or above i differs in t from the earlier s, except that the
  // initialiser's cookie may have been consumed since.
  ghost predicate KeptFrom(p: Program, i: int, s: Stack, t: Stack) {
    forall j | i <= j :: t.At(j) == s.At(j) || (j == INITIAL && s.At(j) == p.main && t.At(j) == Consumed(p.main))
  }

  // t is at the level of the earlier s.
  ghost predicate Level(p: Program, s: Stack, t: Stack) {
    s.sp == t.sp && KeptFrom(p, s.sp, s, t)
  }

  // The initialiser's pushes are still there, its cookie consumed or not, and no
  // function finds its address at the stack pointer, unless that is this cookie.
  ghost predicate Sound(p: Program, s: Stack) {
    && s.sp <= INITIAL && SameFrom(INITIAL + 1, Begin(p), s)
    && (s.At(INITIAL) == p.main || s.At(INITIAL) == Consumed(p.main))
    && (s.sp < INITIAL ==> s.At(s.sp) !in p.ours)
  }

  // The bounds of the arguments, in order, above the cookie.
  ghost predicate Pushed(s: Stack, site: CallSite) {
    forall k | 0 <= k < |Flat(site.args)| :: s.BoundsAt(site.cookie + 1 + 2 * k) == Flat(site.args)[k]
  }

  // g was called by the call that f is making, which passes bounds exactly if f is
  // instrumented and the call has a pointer.
  predicate Noted(p: Program, f: Frame, g: Frame) {
    && f.calling.Some? && f.calling.value.Call? && f.calling.value.callee == g.address
    && f.calling.value.formals == g.formals
    && (f.site.Some? <==> f.address in p.ours && HasPointer(f.calling.value))
    && (f.site.Some? ==> f.site.value.args == f.calling.value.args && f.site.value.results == f.calling.value.results)
  }

  // How a callee's floor lies on its caller's.
  ghost predicate Nested(p: Program, f: Frame, g: Frame) {
    Noted(p, f, g) &&
    match f.site
    case None => Level(p, f.floor, g.floor)
    case Some(site) =>
      && site.saved == f.floor.sp && KeptFrom(p, site.saved, f.floor, g.floor)
      && site.cookie == site.saved - 2 * |Flat(site.args)| - 1 && g.floor.sp == site.cookie
      && site.callee == g.address && Pushed(g.floor, site)
      && g.floor.At(site.cookie) == if g.address in p.ours then Consumed(g.address) else g.address
  }

  // A call of main at the initial stack pointer, the first since its cookie was
  // pushed.
  predicate Claimed(p: Program, g: Frame) {
    g.address == p.main && g.floor.sp == INITIAL && g.unclaimed
  }

  // What the formals of g get, if it was called from the site given.
  function Due(p: Program, g: Frame, caller: Option<CallSite>): Option<seq<seq<Bounds>>> {
    if caller.Some? then if |g.formals| <= |caller.value.args| then Some(caller.value.args[..|g.formals|]) else None
    else if Claimed(p, g) then Some(PeekFormals(Begin(p), g.formals))
    else None
  }

  ghost predicate FrameOk(p: Program, g: Frame, caller: Option<CallSite>) {
    && Sound(p, g.floor)
    && (g.address in p.ours ==>
          && (g.flag <==> caller.Some? || Claimed(p, g))
          && g.received == Due(p, g, caller)
          && (caller.Some? ==> g.formals <= Counts(caller.value.args)))
  }

  ghost predicate Inv(p: Program, m: Machine) {
    && m.frames != [] && Level(p, Top(m).floor, m.stack) && Top(m).site == None && Top(m).calling == None
    && FrameOk(p, m.frames[0], None)
    && (forall i | 0 < i < |m.frames| :: FrameOk(p, m.frames[i], m.frames[i - 1].site))
    && forall i | 0 < i < |m.frames| :: Nested(p, m.frames[i - 1], m.frames[i])
  }

  // ----- one step -----

  lemma TweakMatches(s: Stack, callee: Word)
    requires s.At(s.sp) == callee
    ensures var (t, flag) := Tweak(s, callee);
      flag && t.sp == s.sp && t.At(t.sp) == Consumed(callee) && SameFrom(s.sp + 1, s, t)
  {
  }

  lemma LevelSound(p: Program, s: Stack, t: Stack)
    requires UserCode(p) && Level(p, s, t) && Sound(p, s)
    ensures Sound(p, t)
  {
    hide Consumed;
  }

  // A call that pushes: an instrumented callee finds the cookie, consumes it and
  // gets exactly the bounds passed; an uninstrumented one leaves it alone.
  lemma CallPassing(p: Program, s: Stack, f: Frame, e: Event)
    requires UserCode(p) && Level(p, f.floor, s) && Sound(p, f.floor) && e.Call? && Passes(p, f, e)
    requires e.callee in p.ours ==> e.formals <= Counts(e.args)
    ensures
      var (t, caller) := CallOut(p, s, f, e);
      var g := Enter(p, t, e.callee, e.formals);
      Nested(p, caller, g) && FrameOk(p, g, caller.site)
  {
    hide PassArguments, PeekFormals, Tweak, Flat, Consumed, Begin;
    LevelSound(p, f.floor, s);
    PassesExact(p, f, e);
    PassArgumentsShape(s, e.args, e.callee);
    var (t, caller) := CallOut(p, s, f, e);
    if e.callee in p.ours {
      var (u, flag) := Tweak(t, e.callee);
      TweakMatches(t, e.callee);
      ConsumedIsNoFunction(p, e.callee);
      PeeksWhatWasPushed(s, e.args, e.callee, u, e.formals);
    }
    ArgumentsPushed(s, e, caller.site.value, Enter(p, t, e.callee, e.formals).floor);
  }

  lemma ArgumentsPushed(s: Stack, e: Event, site: CallSite, u: Stack)
    requires e.Call? && site.args == e.args && site.cookie == u.sp
    requires u.sp == PassArguments(s, e.args, e.callee).sp
    requires SameFrom(u.sp + 1, PassArguments(s, e.args, e.callee), u)
    ensures Pushed(u, site)
  {
    hide PassArguments, Flat;
    forall k | 0 <= k < |Flat(e.args)| ensures u.BoundsAt(u.sp + 1 + 2 * k) == Flat(e.args)[k] {
      PassedArgumentAt(s, e.args, e.callee, u, k);
    }
  }

  // Entering without a push: the only cookie that a function can find is the
  // initialiser's, if the function is main and nobody has claimed it.
  lemma EnterSilent(p: Program, s: Stack, callee: Word, formals: seq<nat>)
    requires UserCode(p) && Sound(p, s)
    ensures
      var g := Enter(p, s, callee, formals);
      g.address == callee && g.formals == formals && Level(p, s, g.floor) && FrameOk(p, g, None)
  {
    hide PeekFormals, Begin;
    ConsumedIsNoFunction(p, p.main);
    if callee in p.ours && s.At(s.sp) == callee {
      var (t, flag) := Tweak(s, callee);
      TweakMatches(s, callee);
      PeeksSame(t, Begin(p), formals);
    }
  }

  lemma CallSilent(p: Program, s: Stack, f: Frame, e: Event)
    requires UserCode(p) && Level(p, f.floor, s) && Sound(p, f.floor)
    requires e.Call? && !Passes(p, f, e)
    ensures
      var (t, caller) := CallOut(p, s, f, e);
      var g := Enter(p, t, e.callee, e.formals);
      Nested(p, caller, g) && FrameOk(p, g, caller.site)
  {
    hide Enter, Sound, Consumed;
    LevelSound(p, f.floor, s);
    PassesExact(p, f, e);
    EnterSilent(p, s, e.callee, e.formals);
  }

  // A return restores the caller's view of the stack.
  lemma ReturnRestores(p: Program, s: Stack, f: Frame, g: Frame, bounds: seq<Bounds>)
    requires UserCode(p) && Level(p, g.floor, s) && Nested(p, f, g) && Sound(p, f.floor)
    requires FrameOk(p, g, f.site) && (g.address == p.main ==> bounds == [])
    ensures
      var t := Leave(p, s, g, bounds);
      Level(p, f.floor, if f.site.Some? then Cleanup(t, f.site.value.saved) else t)
  {
    hide Consumed, Begin;
    PushAllAt(s, Rev(bounds), 0);
  }

  lemma StepKeeps(p: Program, m: Machine, e: Event)
    requires UserCode(p) && Inv(p, m) && Possible(p, m, e)
    ensures Inv(p, Step(p, m, e))
  {
    hide CallOut, Enter, Leave, Nested, FrameOk, Level, Passes;
    if e.Call? {
      CallKeeps(p, m, e);
    } else {
      ReturnKeeps(p, m, e);
    }
  }

  lemma CallKeeps(p: Program, m: Machine, e: Event)
    requires UserCode(p) && Inv(p, m) && Possible(p, m, e) && e.Call?
    ensures Inv(p, Step(p, m, e))
  {
    hide PassArguments, Tweak, PeekFormals, Sound, Consumed;
    var f, n := Top(m), |m.frames|;
    assert FrameOk(p, f, if n == 1 then None else m.frames[n - 2].site);
    if Passes(p, f, e) {
      CallPassing(p, m.stack, f, e);
    } else {
      CallSilent(p, m.stack, f, e);
    }
    var (s, caller) := CallOut(p, m.stack, f, e);
    assert caller == f.(site := caller.site, calling := caller.calling);
    Extended(p, m, caller, Enter(p, s, e.callee, e.formals));
  }

  // A caller that differs only in its call site, and its callee on top.
  lemma Extended(p: Program, m: Machine, f: Frame, g: Frame)
    requires Inv(p, m) && f == Top(m).(site := f.site, calling := f.calling)
    requires Nested(p, f, g) && FrameOk(p, g, f.site) && g.site == None && g.calling == None
    ensures Inv(p, Machine(g.floor, Rest(m) + [f, g]))
  {
    hide Sound, Due, Claimed, Consumed;
    var n, fs := |m.frames|, Rest(m) + [f, g];
    assert forall i | 0 <= i < n - 1 :: fs[i] == m.frames[i];
    assert fs[n - 1] == f && fs[n] == g;
    Resited(p, m, f);
    forall i | 0 < i < |fs| ensures FrameOk(p, fs[i], fs[i - 1].site) && Nested(p, fs[i - 1], fs[i]) {
      if i < n {
        assert FrameOk(p, m.frames[i], m.frames[i - 1].site) && Nested(p, m.frames[i - 1], m.frames[i]);
      }
    }
  }

  // Nothing below the top frame looks at its call site.
  lemma Resited(p: Program, m: Machine, f: Frame)
    requires Inv(p, m) && f == Top(m).(site := f.site, calling := f.calling)
    ensures |m.frames| == 1 ==> FrameOk(p, f, None)
    ensures |m.frames| > 1 ==> FrameOk(p, f, m.frames[|m.frames| - 2].site)
    ensures |m.frames| > 1 ==> Nested(p, m.frames[|m.frames| - 2], f)
  {
    hide Sound, Consumed;
    var n := |m.frames|;
    if n > 1 {
      assert FrameOk(p, m.frames[n - 1], m.frames[n - 2].site) && Nested(p, m.frames[n - 2], m.frames[n - 1]);
    }
  }

  lemma ReturnKeeps(p: Program, m: Machine, e: Event)
    requires UserCode(p) && Inv(p, m) && Possible(p, m, e) && e.Return?
    ensures Inv(p, Step(p, m, e))
  {
    hide Leave, Cleanup, Level, Consumed, Sound, Due, Claimed;
    var n := |m.frames|;
    var f, g := m.frames[n - 2], m.frames[n - 1];
    assert FrameOk(p, g, f.site) && Nested(p, f, g);
    assert FrameOk(p, f, if n == 2 then None else m.frames[n - 3].site);
    ReturnRestores(p, m.stack, f, g, e.bounds);
    Dropped(p, m);
  }

  // Without the top frame, and with its caller's call over.
  lemma Dropped(p: Program, m: Machine)
    requires Inv(p, m) && |m.frames| > 1
    ensures
      var fs := m.frames[..|m.frames| - 2] + [m.frames[|m.frames| - 2].(site := None, calling := None)];
      && FrameOk(p, fs[0], None)
      && (forall i | 0 < i < |fs| :: FrameOk(p, fs[i], fs[i - 1].site))
      && forall i | 0 < i < |fs| :: Nested(p, fs[i - 1], fs[i])
  {
    hide Level, Consumed, Sound, PeekFormals;
    var n := |m.frames|;
    var fs := m.frames[..n - 2] + [m.frames[n - 2].(site := None, calling := None)];
    assert forall i | 0 <= i < n - 2 :: fs[i] == m.frames[i];
    forall i | 0 < i < |fs| ensures FrameOk(p, fs[i], fs[i - 1].site) && Nested(p, fs[i - 1], fs[i]) {
      assert FrameOk(p, m.frames[i], m.frames[i - 1].site) && Nested(p, m.frames[i - 1], m.frames[i]);
    }
  }

  // ----- runs -----

  predicate Run(p: Program, m: Machine, es: seq<Event>)
    decreases es
  {
    es == [] || (Possible(p, m, es[0]) && Run(p, Step(p, m, es[0]), es[1..]))
  }

  function After(p: Program, m: Machine, es: seq<Event>): Machine
    requires Run(p, m, es)
    decreases es
  {
    if es == [] then m else After(p, Step(p, m, es[0]), es[1..])
  }

  lemma {:induction false} RunKeeps(p: Program, m: Machine, es: seq<Event>)
    requires UserCode(p) && Inv(p, m) && Run(p, m, es)
    ensures Inv(p, After(p, m, es))
    decreases es
  {
    if es == [] {
    } else {
      StepKeeps(p, m, es[0]);
      RunKeeps(p, Step(p, m, es[0]), es[1..]);
    }
  }

  lemma InitialInv(p: Program, entry: Word, formals: seq<nat>)
    requires UserCode(p)
    ensures Inv(p, Initial(p, entry, formals))
  {
    EnterSilent(p, Begin(p), entry, formals);
  }

  // In every run, every active instrumented function believes its caller passed
  // bounds exactly when its immediate caller is instrumented and this very call has
  // a pointer in an argument or the result, and then holds exactly the bounds of the
  // arguments; or when it is main, called at the initial stack pointer while the
  // initialiser's cookie was unclaimed, and then holds what the initialiser left.
  lemma CookieExact(p: Program, entry: Word, formals: seq<nat>, es: seq<Event>, i: nat)
    requires UserCode(p) && Run(p, Initial(p, entry, formals), es)
    requires i < |After(p, Initial(p, entry, formals), es).frames|
    ensures
      var fs := After(p, Initial(p, entry, formals), es).frames;
      i > 0 ==>
        && fs[i - 1].calling.Some? && fs[i - 1].calling.value.Call? && fs[i - 1].calling.value.callee == fs[i].address
        && (fs[i - 1].site.Some? <==> fs[i - 1].address in p.ours && HasPointer(fs[i - 1].calling.value))
    ensures
      var fs := After(p, Initial(p, entry, formals), es).frames;
      var g := fs[i];
      var called := i > 0 && fs[i - 1].address in p.ours && HasPointer(fs[i - 1].calling.value);
      g.address in p.ours ==>
        && (g.flag <==> called || Claimed(p, g)) && !(called && Claimed(p, g))
        && (called ==> g.formals <= Counts(fs[i - 1].calling.value.args))
        && g.received ==
             if called then Some(fs[i - 1].calling.value.args[..|g.formals|])
             else if Claimed(p, g) then Some(PeekFormals(Begin(p), g.formals))
             else None
  {
    InitialInv(p, entry, formals);
    RunKeeps(p, Initial(p, entry, formals), es);
    var fs := After(p, Initial(p, entry, formals), es).frames;
    if i > 0 {
      assert FrameOk(p, fs[i], fs[i - 1].site) && Nested(p, fs[i - 1], fs[i]);
      assert FrameOk(p, fs[i - 1], if i == 1 then None else fs[i - 2].site);
    }
  }

  // What the initialiser left for main: the bounds of argv at offset 0, as its
  // second formal expects. Only these were pushed, so any further formal with a
  // pointer, such as envp, peeks at words above that nobody wrote.
  lemma MainArguments(p: Program, k: nat)
    ensures PeekFormals(Begin(p), [0, 1]) == [[], [p.argv]]
    ensures k > 0 ==> PeekArgument(Begin(p), k) == Bounds(0, 0)
  {
    var counts := [0, 1];
    assert Base(counts[1..], 0) == 0 && Base(counts, 1) == 0;
    var r := PeekFormals(Begin(p), counts);
    assert |r[0]| == counts[0] && |r[1]| == counts[1];
    assert r[0] == [];
    assert r[1] == [PeekArgument(Begin(p), Base(counts, 1) + 0)];
  }

  // So an instrumented main called by uninstrumented start-up code, without bounds,
  // sees its cookie and its formals argc and argv get the bounds of argv.
  lemma MainStarts(p: Program, entry: Word, args: seq<seq<Bounds>>)
    requires UserCode(p) && p.main in p.ours && entry !in p.ours
    ensures
      var e := Call(p.main, args, 0, [0, 1]);
      var m := Initial(p, entry, []);
      && Possible(p, m, e)
      && Top(Step(p, m, e)).flag && Top(Step(p, m, e)).received == Some([[], [p.argv]])
  {
    hide PeekFormals, Begin;
    MainArguments(p, 0);
    EnterSilent(p, Begin(p), p.main, [0, 1]);
  }

  // ----- the initialiser's cookie -----

  // A step that claims the initialiser's cookie.
  predicate Claims(p: Program, m: Machine, e: Event)
    requires m.frames != []
  {
    e.Call? && e.callee == p.main && p.main in p.ours && !Passes(p, Top(m), e)
    && m.stack.sp == INITIAL && m.stack.At(INITIAL) == p.main
  }

  function CountClaims(p: Program, m: Machine, es: seq<Event>): nat
    requires Run(p, m, es)
    decreases es
  {
    if es == [] then 0
    else (if Claims(p, m, es[0]) then 1 else 0) + CountClaims(p, Step(p, m, es[0]), es[1..])
  }

  // One step changes the initialiser's cookie only by claiming it.
  lemma StepCookie(p: Program, m: Machine, e: Event)
    requires UserCode(p) && Inv(p, m) && Possible(p, m, e)
    ensures Step(p, m, e).stack.At(INITIAL) == if Claims(p, m, e) then Consumed(p.main) else m.stack.At(INITIAL)
  {
    hide Flat, PeekFormals, Consumed, Begin, PassArguments;
    var n := |m.frames|;
    var f := Top(m);
    assert FrameOk(p, f, if n == 1 then None else m.frames[n - 2].site);
    LevelSound(p, f.floor, m.stack);
    if e.Call? {
      PassArgumentsShape(m.stack, e.args, e.callee);
      ConsumedIsNoFunction(p, p.main);
    } else {
      PushAllAt(m.stack, Rev(e.bounds), 0);
    }
  }

  // It is claimed at most once, and stays as it was until then.
  lemma {:induction false} ClaimedOnce(p: Program, m: Machine, es: seq<Event>)
    requires UserCode(p) && Inv(p, m) && Run(p, m, es)
    ensures CountClaims(p, m, es) <= if m.stack.At(INITIAL) == p.main then 1 else 0
    ensures After(p, m, es).stack.At(INITIAL) ==
      if CountClaims(p, m, es) > 0 then Consumed(p.main) else m.stack.At(INITIAL)
    decreases es
  {
    hide Step, Possible, Inv;
    if es == [] {
    } else {
      StepKeeps(p, m, es[0]);
      StepCookie(p, m, es[0]);
      ConsumedIsNoFunction(p, p.main);
      ClaimedOnce(p, Step(p, m, es[0]), es[1..]);
    }
  }

  // ----- balance -----

  // Whether at least n frames are active throughout.
  predicate StaysAbove(p: Program, m: Machine, es: seq<Event>, n: nat)
    requires Run(p, m, es)
    decreases es
  {
    |m.frames| >= n && (es != [] ==> StaysAbove(p, Step(p, m, es[0]), es[1..], n))
  }

  lemma StepFloor(p: Program, m: Machine, e: Event, n: nat)
    requires Possible(p, m, e) && 0 < n <= |m.frames| && n <= |Step(p, m, e).frames|
    ensures Step(p, m, e).frames[n - 1].floor == m.frames[n - 1].floor
  {
    hide Enter, Leave, Cleanup, PassArguments;
  }

  lemma {:induction false} FloorKept(p: Program, m: Machine, es: seq<Event>, n: nat)
    requires Run(p, m, es) && 0 < n && StaysAbove(p, m, es, n)
    ensures |After(p, m, es).frames| >= n
    ensures After(p, m, es).frames[n - 1].floor == m.frames[n - 1].floor
    decreases es
  {
    hide Step, Possible;
    if es == [] {
    } else {
      assert StaysAbove(p, Step(p, m, es[0]), es[1..], n);
      StepFloor(p, m, es[0], n);
      FloorKept(p, Step(p, m, es[0]), es[1..], n);
    }
  }

  // Between a call and its return, whatever was called and however deeply,
  // nothing is lost from the stack: when a function runs again, the stack pointer
  // is where it was, and at or above it one word at most has changed, namely the
  // initialiser's cookie if main claimed it meanwhile.
  lemma Balanced(p: Program, entry: Word, formals: seq<nat>, es: seq<Event>, fs: seq<Event>)
    requires UserCode(p) && Run(p, Initial(p, entry, formals), es)
    requires Run(p, After(p, Initial(p, entry, formals), es), fs)
    requires
      var m := After(p, Initial(p, entry, formals), es);
      StaysAbove(p, m, fs, |m.frames|) && |After(p, m, fs).frames| == |m.frames|
    ensures
      var m := After(p, Initial(p, entry, formals), es);
      var s, t := m.stack, After(p, m, fs).stack;
      && t.sp == s.sp && CountClaims(p, m, fs) <= 1
      && forall j | s.sp <= j ::
           t.At(j) == if j == INITIAL && CountClaims(p, m, fs) == 1 then Consumed(p.main) else s.At(j)
  {
    hide Consumed, Run, StaysAbove, Initial, FrameOk, Nested;
    InitialInv(p, entry, formals);
    RunKeeps(p, Initial(p, entry, formals), es);
    var m := After(p, Initial(p, entry, formals), es);
    RunKeeps(p, m, fs);
    FloorKept(p, m, fs, |m.frames|);
    ClaimedOnce(p, m, fs);
  }

  // ----- results -----

  // When a call that passed bounds returns, the caller takes result bounds from
  // the stack exactly when the callee is instrumented or the callee expression has
  // a new value by then; from an instrumented callee it gets what was returned.
  lemma ResultsExact(p: Program, entry: Word, formals: seq<nat>, es: seq<Event>, e: Event)
    requires UserCode(p) && Run(p, Initial(p, entry, formals), es)
    requires Possible(p, After(p, Initial(p, entry, formals), es), e) && e.Return? && UserHalf(e.again)
    requires var fs := After(p, Initial(p, entry, formals), es).frames; fs[|fs| - 2].site.Some?
    ensures
      var m := After(p, Initial(p, entry, formals), es);
      var site := m.frames[|m.frames| - 2].site.value;
      var got := ResultBounds(Leave(p, m.stack, Top(m), e.bounds), site, e.again);
      && (got.Some? <==> site.callee in p.ours || e.again != site.callee)
      && (site.callee in p.ours && site.results == |e.bounds| ==> got == Some(e.bounds))
  {
    hide ResultBounds, Leave, Sound, Level;
    InitialInv(p, entry, formals);
    RunKeeps(p, Initial(p, entry, formals), es);
    var m := After(p, Initial(p, entry, formals), es);
    var n := |m.frames|;
    assert FrameOk(p, m.frames[n - 1], m.frames[n - 2].site);
    assert Nested(p, m.frames[n - 2], m.frames[n - 1]);
    assert FrameOk(p, m.frames[n - 2], if n == 2 then None else m.frames[n - 3].site);
    ReturnExact(p, m.stack, m.frames[n - 2], m.frames[n - 1], e.bounds, e.again);
  }

  lemma ReturnExact(p: Program, s: Stack, f: Frame, g: Frame, bounds: seq<Bounds>, again: Word)
    requires UserCode(p) && Level(p, g.floor, s) && Nested(p, f, g) && FrameOk(p, g, f.site) && Sound(p, f.floor)
    requires f.site.Some? && UserHalf(again)
    ensures
      var got := ResultBounds(Leave(p, s, g, bounds), f.site.value, again);
      && (got.Some? <==> g.address in p.ours || again != g.address)
      && (g.address in p.ours && f.site.value.results == |bounds| ==> got == Some(bounds))
  {
    hide Consumed, Begin;
    PushAllAt(s, Rev(bounds), 0);
    PeeksResultsPushed(s, bounds);
    if g.address in p.ours {
      ConsumedIsNoFunction(p, g.address);
    }
  }

  // From an uninstrumented callee, when the callee expression has a new value, the
  // caller takes the words of its own pushes, out of step by the cookie: the first
  // base is the address it called, and the bounds of the arguments follow.
  lemma ResultsStale(p: Program, entry: Word, formals: seq<nat>, es: seq<Event>, e: Event)
    requires UserCode(p) && Run(p, Initial(p, entry, formals), es)
    requires Possible(p, After(p, Initial(p, entry, formals), es), e) && e.Return?
    requires var fs := After(p, Initial(p, entry, formals), es).frames; fs[|fs| - 2].site.Some?
    requires var fs := After(p, Initial(p, entry, formals), es).frames;
      fs[|fs| - 2].site.value.callee !in p.ours && e.again != fs[|fs| - 2].site.value.callee
    ensures
      var m := After(p, Initial(p, entry, formals), es);
      var site := m.frames[|m.frames| - 2].site.value;
      var got, pushed := ResultBounds(Leave(p, m.stack, Top(m), e.bounds), site, e.again), Flat(site.args);
      && got.Some? && |got.value| == site.results
      && (site.results > 0 ==> got.value[0].base == site.callee)
      && (forall k | 0 <= k < |pushed| && k < site.results :: got.value[k].size == pushed[k].base)
      && forall k | 0 <= k < |pushed| && k + 1 < site.results :: got.value[k + 1].base == pushed[k].size
  {
    hide Level, Sound, Due, Claimed, Flat, Pushed, Consumed, PeekFormals;
    InitialInv(p, entry, formals);
    RunKeeps(p, Initial(p, entry, formals), es);
    var m := After(p, Initial(p, entry, formals), es);
    var n := |m.frames|;
    var f, g := m.frames[n - 2], m.frames[n - 1];
    assert FrameOk(p, g, f.site) && Nested(p, f, g);
    assert FrameOk(p, f, if n == 2 then None else m.frames[n - 3].site);
    var site, s := f.site.value, m.stack;
    StaleCookie(p, s, f, g);
    forall k | 0 <= k < |Flat(site.args)|
      ensures PeekResult(s, k).size == Flat(site.args)[k].base && PeekResult(s, k + 1).base == Flat(site.args)[k].size
    {
      StaleWords(p, s, f, g, k);
    }
  }

  lemma StaleCookie(p: Program, s: Stack, f: Frame, g: Frame)
    requires Level(p, g.floor, s) && Nested(p, f, g) && Sound(p, f.floor) && f.site.Some? && g.address !in p.ours
    ensures s.sp == f.site.value.cookie && s.At(s.sp) == g.address == f.site.value.callee
  {
    hide Flat, Pushed, Begin;
  }

  // The words above the cookie, read from the cookie on.
  lemma StaleWords(p: Program, s: Stack, f: Frame, g: Frame, k: nat)
    requires Level(p, g.floor, s) && Nested(p, f, g) && Sound(p, f.floor) && f.site.Some? && g.address !in p.ours
    requires k < |Flat(f.site.value.args)|
    ensures PeekResult(s, k).size == Flat(f.site.value.args)[k].base
    ensures PeekResult(s, k + 1).base == Flat(f.site.value.args)[k].size
  {
    hide Flat, Begin;
    StaleCookie(p, s, f, g);
    assert g.floor.BoundsAt(f.site.value.cookie + 1 + 2 * k) == Flat(f.site.value.args)[k];
  }

  // A run in which this happens, with one pointer passed and one returned.
  lemma StaleRun(p: Program, entry: Word, callee: Word, again: Word, b: Bounds)
    requires UserCode(p) && entry in p.ours && callee !in p.ours && again != callee
    ensures
      var call, ret := Call(callee, [[b]], 1, []), Return([], again);
      var m0 := Initial(p, entry, []);
      && Run(p, m0, [call]) && Possible(p, After(p, m0, [call]), ret)
      && var m := After(p, m0, [call]);
         && |m.frames| == 2 && m.frames[0].site.Some?
         && ResultBounds(Leave(p, m.stack, Top(m), []), m.frames[0].site.value, again) == Some([Bounds(callee, b.base)])
  {
    hide Begin, Consumed, PeekFormals, PassArguments;
    var call, ret := Call(callee, [[b]], 1, []), Return([], again);
    var m0 := Initial(p, entry, []);
    assert [[b]][1..] == [] && Flat([[b]]) == [b];
    assert Possible(p, m0, call) && [call][1..] == [];
    assert Run(p, Step(p, m0, call), []);
    assert After(p, m0, [call]) == Step(p, m0, call);
    var m := After(p, m0, [call]);
    var site := m.frames[0].site.value;
    assert |m.frames| == 2 && site.args == [[b]] && site.results == 1 && site.callee == callee;
    ResultsStale(p, entry, [], [call], ret);
    assert m.frames[|m.frames| - 2] == m.frames[0];
    var got := ResultBounds(Leave(p, m.stack, Top(m), ret.bounds), site, ret.again).value;
    assert |got| == 1;
    assert got[0].base == callee;
    assert Flat(site.args)[0] == b;
    assert got[0].size == Flat(site.args)[0].base;
    assert got == [Bounds(callee, b.base)];
  }
}
