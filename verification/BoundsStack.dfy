// The bounds stack: the runtime functions that work on it, and the order in which
// the instrumentation makes a caller push and a callee peek.
module BoundsStack {
  import opened MachineWord
  import opened PointerBounds
  import opened Wrappers

  // __bounds_sp counted in words, and the words. The mapping starts zeroed and
  // the stack grows downwards.
  datatype Stack = Stack(sp: int, words: map<int, Word>) {
    function At(i: int): Word {
      if i in words then words[i] else 0
    }

    function BoundsAt(i: int): Bounds {
      Bounds(At(i), At(i + 1))
    }
  }

  // A cookie once it has been consumed: bit 47 is set.
  function Consumed(cookie: Word): Word {
    if cookie / HALF % 2 == 1 then cookie else cookie + HALF
  }

  lemma ConsumedBits(cookie: Word)
    ensures Consumed(cookie) / 0x8000_0000_0000 % 2 == 1
    ensures Consumed(cookie) % 0x8000_0000_0000 == cookie % 0x8000_0000_0000
    ensures Consumed(cookie) / 0x1_0000_0000_0000 == cookie / 0x1_0000_0000_0000
  {
  }

  function PushBounds(s: Stack, b: Bounds): Stack {
    Stack(s.sp - 2, s.words[s.sp - 2 := b.base][s.sp - 1 := b.size])
  }

  function PushCookie(s: Stack, callee: Word): Stack {
    Stack(s.sp - 1, s.words[s.sp - 1 := callee])
  }

  // Whether the cookie is the callee's, and the stack with such a cookie consumed.
  function Tweak(s: Stack, callee: Word): (Stack, bool) {
    if s.At(s.sp) == callee then (Stack(s.sp, s.words[s.sp := Consumed(s.At(s.sp))]), true)
    else (s, false)
  }

  function PeekArgument(s: Stack, offset: nat): Bounds {
    s.BoundsAt(s.sp + 1 + 2 * offset)
  }

  function PeekResult(s: Stack, offset: nat): Bounds {
    s.BoundsAt(s.sp + 2 * offset)
  }

  function Cleanup(s: Stack, saved: int): Stack {
    s.(sp := saved)
  }

  // The runtime functions, which update the stack in place.
  class Runtime {
    var sp: int
    var words: map<int, Word>

    ghost function View(): Stack
      reads this
    {
      Stack(sp, words)
    }

    constructor ()
      ensures sp == 0 && forall i :: View().At(i) == 0
    {
      sp, words := 0, map[];
    }

    method AllocBoundsStackSpace(nbytes: nat) returns (p: int)
      modifies this
      ensures words == old(words)
      ensures p == sp <= old(sp) && nbytes <= 8 * (old(sp) - sp) < nbytes + 8
    {
      sp := sp - (if nbytes % 8 == 0 then nbytes / 8 else nbytes / 8 + 1);
      p := sp;
    }

    method PushLocalArgumentBounds(b: Bounds)
      modifies this
      ensures View() == PushBounds(old(View()), b)
    {
      var p := AllocBoundsStackSpace(16);
      words := words[p := b.base];
      words := words[p + 1 := b.size];
    }

    method PushArgumentBoundsCookie(callee: Word)
      modifies this
      ensures View() == PushCookie(old(View()), callee)
    {
      var p := AllocBoundsStackSpace(8);
      words := words[p := callee];
    }

    method TweakArgumentBoundsCookie(callee: Word) returns (matched: bool)
      modifies this
      ensures (View(), matched) == Tweak(old(View()), callee)
    {
      var cookie := Load(sp);
      if cookie == callee {
        words := words[sp := Consumed(cookie)];
        return true;
      }
      return false;
    }

    method Load(i: int) returns (w: Word)
      ensures w == View().At(i)
    {
      w := if i in words then words[i] else 0;
    }

    // None stands for invalid bounds made from the pointer value.
    method PeekArgumentBounds(really: bool, offset: nat) returns (b: Option<Bounds>)
      ensures b == if really then Some(PeekArgument(View(), offset)) else None
    {
      if !really {
        return None;
      }
      var base := Load(sp + 1 + offset * 2);
      var size := Load(sp + 1 + offset * 2 + 1);
      b := Some(Bounds(base, size));
    }

    method PushLocalResultBounds(really: bool, b: Bounds)
      modifies this
      ensures View() == if really then PushBounds(old(View()), b) else old(View())
    {
      if really {
        var p := AllocBoundsStackSpace(16);
        words := words[p := b.base];
        words := words[p + 1 := b.size];
      }
    }

    method PeekResultBounds(really: bool, offset: nat) returns (b: Option<Bounds>)
      ensures b == if really then Some(PeekResult(View(), offset)) else None
    {
      if !really {
        return None;
      }
      var base := Load(sp + offset * 2);
      var size := Load(sp + offset * 2 + 1);
      b := Some(Bounds(base, size));
    }

    method CleanupBoundsStack(saved: int)
      modifies this
      ensures View() == Cleanup(old(View()), saved)
    {
      sp := saved;
    }
  }

  // ----- pushing a list -----

  function PushAll(s: Stack, bs: seq<Bounds>): Stack
    decreases bs
  {
    if bs == [] then s else PushAll(PushBounds(s, bs[0]), bs[1..])
  }

  // Nothing at or above i differs.
  ghost predicate SameFrom(i: int, s: Stack, t: Stack) {
    forall j | i <= j :: s.At(j) == t.At(j)
  }

  // The last one pushed is at the stack pointer, the one before it next to it.
  lemma {:induction false} PushAllAt(s: Stack, bs: seq<Bounds>, k: nat)
    ensures PushAll(s, bs).sp == s.sp - 2 * |bs| && SameFrom(s.sp, s, PushAll(s, bs))
    ensures k < |bs| ==> PushAll(s, bs).BoundsAt(s.sp - 2 - 2 * k) == bs[k]
    decreases |bs|
  {
    if bs == [] {
    } else {
      var t := PushBounds(s, bs[0]);
      PushAllAt(t, bs[1..], if k == 0 then 0 else k - 1);
      assert t.BoundsAt(s.sp - 2) == bs[0];
    }
  }

  // ----- orders -----

  function Flat<T>(xss: seq<seq<T>>): seq<T> {
    if xss == [] then [] else xss[0] + Flat(xss[1..])
  }

  function Rev<T>(xs: seq<T>): (r: seq<T>)
    ensures |r| == |xs| && forall i | 0 <= i < |xs| :: r[i] == xs[|xs| - 1 - i]
  {
    if xs == [] then [] else Rev(xs[1..]) + [xs[0]]
  }

  function RevEach<T>(xss: seq<seq<T>>): seq<seq<T>> {
    if xss == [] then [] else [Rev(xss[0])] + RevEach(xss[1..])
  }

  // Right to left over the arguments, and from high to low offsets in each.
  function PushOrder<T>(es: seq<seq<T>>): seq<T> {
    Flat(RevEach(Rev(es)))
  }

  lemma {:induction false} FlatEmpty<T>(xss: seq<seq<T>>)
    ensures Flat(xss) == [] <==> forall xs <- xss :: xs == []
  {
    if xss == [] {
    } else {
      var rest := xss[1..];
      FlatEmpty(rest);
      if Flat(xss) == [] {
        assert |xss[0]| + |Flat(rest)| == 0;
        forall xs <- xss ensures xs == [] {
          assert xs == xss[0] || xs in rest;
        }
      } else if xss[0] == [] {
        var xs :| xs in rest && xs != [];
        assert xs in xss;
      } else {
        assert xss[0] in xss;
      }
    }
  }

  lemma {:induction false} FlatAppend<T>(xss: seq<seq<T>>, yss: seq<seq<T>>)
    ensures Flat(xss + yss) == Flat(xss) + Flat(yss)
  {
    if xss == [] {
      assert xss + yss == yss;
    } else {
      FlatAppend(xss[1..], yss);
      assert (xss + yss)[1..] == xss[1..] + yss && (xss + yss)[0] == xss[0];
    }
  }

  lemma {:induction false} RevEachAppend<T>(xss: seq<seq<T>>, yss: seq<seq<T>>)
    ensures RevEach(xss + yss) == RevEach(xss) + RevEach(yss)
  {
    if xss == [] {
      assert xss + yss == yss;
    } else {
      RevEachAppend(xss[1..], yss);
      assert (xss + yss)[1..] == xss[1..] + yss;
    }
  }

  // The pointers are pushed in exactly the reverse of their left-to-right order
  // over all the arguments.
  lemma {:induction false} PushOrderReverses<T>(es: seq<seq<T>>)
    ensures PushOrder(es) == Rev(Flat(es))
  {
    if es == [] {
    } else {
      PushOrderReverses(es[1..]);
      var last := [es[0]];
      RevEachAppend(Rev(es[1..]), last);
      FlatAppend(RevEach(Rev(es[1..])), RevEach(last));
      assert last[1..] == [] && RevEach(last) == [Rev(es[0])];
      assert [Rev(es[0])][1..] == [];
      assert Flat(RevEach(last)) == Rev(es[0]);
      assert Rev(Flat(es[1..])) + Rev(es[0]) == Rev(es[0] + Flat(es[1..]));
    }
  }

  // The number of pointers in the arguments before the i-th.
  function Base(counts: seq<nat>, i: nat): nat
    requires i <= |counts|
  {
    if i == 0 then 0 else counts[0] + Base(counts[1..], i - 1)
  }

  function Counts<T>(es: seq<seq<T>>): (r: seq<nat>)
    ensures |r| == |es| && forall i | 0 <= i < |es| :: r[i] == |es[i]|
  {
    seq(|es|, i requires 0 <= i < |es| => |es[i]|)
  }

  lemma {:induction false} FlatAt<T>(es: seq<seq<T>>, i: nat, j: nat)
    requires i < |es| && j < |es[i]|
    ensures Base(Counts(es), i) + j < |Flat(es)|
    ensures Flat(es)[Base(Counts(es), i) + j] == es[i][j]
    decreases i
  {
    if i == 0 {
    } else {
      FlatAt(es[1..], i - 1, j);
      assert Counts(es)[1..] == Counts(es[1..]);
    }
  }

  // What a callee whose formals hold that many pointers peeks, formal by formal.
  function PeekFormals(s: Stack, counts: seq<nat>): (r: seq<seq<Bounds>>)
    ensures |r| == |counts|
    ensures forall i | 0 <= i < |counts| :: |r[i]| == counts[i]
    ensures forall i, j | 0 <= i < |counts| && 0 <= j < counts[i] :: r[i][j] == PeekArgument(s, Base(counts, i) + j)
  {
    seq(|counts|, i requires 0 <= i < |counts| =>
      seq(counts[i], j requires 0 <= j => PeekArgument(s, Base(counts, i) + j)))
  }

  function PeekResults(s: Stack, n: nat): (r: seq<Bounds>)
    ensures |r| == n && forall k | 0 <= k < n :: r[k] == PeekResult(s, k)
  {
    seq(n, k requires 0 <= k => PeekResult(s, k))
  }

  // ----- a call site -----

  function PassArguments(s: Stack, args: seq<seq<Bounds>>, callee: Word): Stack {
    PushCookie(PushAll(s, PushOrder(args)), callee)
  }

  lemma PassArgumentsShape(s: Stack, args: seq<seq<Bounds>>, callee: Word)
    ensures PassArguments(s, args, callee).sp == s.sp - 2 * |Flat(args)| - 1
    ensures PassArguments(s, args, callee).At(s.sp - 2 * |Flat(args)| - 1) == callee
    ensures SameFrom(s.sp, s, PassArguments(s, args, callee))
  {
    PushOrderReverses(args);
    PushAllAt(s, PushOrder(args), 0);
  }

  lemma AboveCookie(s: Stack, callee: Word, i: int)
    requires s.sp <= i
    ensures PushCookie(s, callee).At(i) == s.At(i)
  {
  }

  // Whatever has happened to the cookie, offset k is the k-th pointer.
  lemma PassedArgumentAt(s: Stack, args: seq<seq<Bounds>>, callee: Word, t: Stack, k: nat)
    requires k < |Flat(args)|
    requires t.sp == PassArguments(s, args, callee).sp && SameFrom(t.sp + 1, PassArguments(s, args, callee), t)
    ensures PeekArgument(t, k) == Flat(args)[k]
  {
    hide PushAll, PushOrder, Flat, Rev;
    var n := |Flat(args)|;
    var u := PushAll(s, PushOrder(args));
    PassArgumentsShape(s, args, callee);
    PushOrderReverses(args);
    PushAllAt(s, PushOrder(args), n - 1 - k);
    var i := t.sp + 1 + 2 * k;
    assert s.sp - 2 - 2 * (n - 1 - k) == i;
    AboveCookie(u, callee, i);
    AboveCookie(u, callee, i + 1);
  }

  lemma {:induction false} BaseOfPrefix(counts: seq<nat>, all: seq<nat>, i: nat)
    requires counts <= all && i <= |counts|
    ensures Base(counts, i) == Base(all, i)
    decreases i
  {
    if i == 0 {
    } else {
      BaseOfPrefix(counts[1..], all[1..], i - 1);
    }
  }

  // A callee peeks, formal by formal, the bounds that the caller pushed. The
  // formals of a variadic callee stand for the first arguments only.
  lemma PeeksWhatWasPushed(s: Stack, args: seq<seq<Bounds>>, callee: Word, t: Stack, counts: seq<nat>)
    requires t.sp == PassArguments(s, args, callee).sp && SameFrom(t.sp + 1, PassArguments(s, args, callee), t)
    requires counts <= Counts(args)
    ensures PeekFormals(t, counts) == args[..|counts|]
  {
    hide PassArguments, PeekArgument;
    var r := PeekFormals(t, counts);
    forall i | 0 <= i < |counts| ensures r[i] == args[i] {
      assert counts[i] == Counts(args)[i];
      forall j | 0 <= j < |args[i]| ensures r[i][j] == args[i][j] {
        BaseOfPrefix(counts, Counts(args), i);
        FlatAt(args, i, j);
        PassedArgumentAt(s, args, callee, t, Base(Counts(args), i) + j);
      }
    }
  }

  // What is peeked depends only on what lies above the cookie.
  lemma PeeksSame(s: Stack, t: Stack, counts: seq<nat>)
    requires s.sp == t.sp && SameFrom(s.sp + 1, s, t)
    ensures PeekFormals(s, counts) == PeekFormals(t, counts)
  {
    var r, q := PeekFormals(s, counts), PeekFormals(t, counts);
    forall i | 0 <= i < |counts| ensures r[i] == q[i] {
    }
  }

  // Results pushed in reverse are peeked in order.
  lemma PeeksResultsPushed(s: Stack, results: seq<Bounds>)
    ensures PeekResults(PushAll(s, Rev(results)), |results|) == results
  {
    var t, n := PushAll(s, Rev(results)), |results|;
    forall k | 0 <= k < n ensures PeekResult(t, k) == results[k] {
      PushAllAt(s, Rev(results), n - 1 - k);
      assert s.sp - 2 - 2 * (n - 1 - k) == t.sp + 2 * k;
    }
  }
}
