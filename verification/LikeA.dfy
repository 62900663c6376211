// The member-matching loops with which libcrunch.c compares two composite types.
module LikeA {
  import opened MachineWord
  import opened Wrappers

  // Composites are known by their tags. sign tells a signed base type from its
  // unsigned complement; None is for base types without one.
  datatype Uniqtype =
    | Void
    | Base(name: nat, sign: Option<bool>)
    | Pointer(pointee: Uniqtype)
    | Array(elem: Uniqtype, count: nat)
    | Composite(tag: nat)

  datatype Member = Member(off: nat, ty: Uniqtype)

  const CHAR := 0

  predicate IsChar(t: Uniqtype) {
    t == Base(CHAR, Some(true)) || t == Base(CHAR, Some(false))
  }

  predicate IsCharArray(t: Uniqtype) {
    t.Array? && IsChar(t.elem)
  }

  // ----- pointer degrees -----

  predicate PointerHasDegree(t: Uniqtype, d: nat) {
    d == 0 || (t.Pointer? && PointerHasDegree(t.pointee, d - 1))
  }

  function Degree(t: Uniqtype): nat {
    if t.Pointer? then 1 + Degree(t.pointee) else 0
  }

  function UltimatePointee(t: Uniqtype): Uniqtype {
    if t.Pointer? then UltimatePointee(t.pointee) else t
  }

  // 0 unless the type is a pointer, however deep, to void or char.
  function GenericDegree(t: Uniqtype): nat {
    if UltimatePointee(t) == Void || IsChar(UltimatePointee(t)) then Degree(t) else 0
  }

  lemma {:induction false} HasDegreeIff(t: Uniqtype, d: nat)
    ensures PointerHasDegree(t, d) <==> d <= Degree(t)
    decreases d
  {
    if d == 0 || !t.Pointer? {
    } else {
      HasDegreeIff(t.pointee, d - 1);
    }
  }

  // ----- matching two members -----

  predicate Complements(t: Uniqtype, u: Uniqtype) {
    t.Base? && u.Base? && t.sign.Some? && u == Base(t.name, Some(!t.sign.value))
  }

  predicate Matches(loosely: bool, test: Member, obj: Member) {
    test.off == obj.off &&
    (test.ty == obj.ty ||
     (loosely &&
      ((GenericDegree(test.ty) != 0 && PointerHasDegree(obj.ty, GenericDegree(test.ty)))
       || Complements(test.ty, obj.ty))))
  }

  // n pointers around a type.
  function Stars(n: nat, t: Uniqtype): Uniqtype {
    if n == 0 then t else Pointer(Stars(n - 1, t))
  }

  lemma {:induction false} StarsPeeled(n: nat, t: Uniqtype)
    requires !t.Pointer?
    ensures Degree(Stars(n, t)) == n && UltimatePointee(Stars(n, t)) == t
    ensures !Stars(n, t).Pointer? <==> n == 0
    decreases n
  {
    if n == 0 {
    } else {
      StarsPeeled(n - 1, t);
    }
  }

  // Every type is some number of pointers around one that is no pointer.
  lemma {:induction false} EveryStars(t: Uniqtype)
    ensures t == Stars(Degree(t), UltimatePointee(t)) && !UltimatePointee(t).Pointer?
    decreases t
  {
    if !t.Pointer? {
    } else {
      EveryStars(t.pointee);
    }
  }

  lemma {:induction false} StarsEqual(n: nat, t: Uniqtype, k: nat, u: Uniqtype)
    requires !t.Pointer? && !u.Pointer?
    ensures Stars(n, t) == Stars(k, u) <==> n == k && t == u
  {
    StarsPeeled(n, t);
    StarsPeeled(k, u);
  }

  // Members match strictly if they are the same, and loosely also if the test member
  // is a pointer, n deep, to void or a char and the other any pointer at least so
  // deep; or if both are of the same base type, one signed and the other not.
  lemma MatchesExact(o: nat, n: nat, t: Uniqtype, o': nat, k: nat, u: Uniqtype)
    requires !t.Pointer? && !u.Pointer?
    ensures
      var test, obj := Member(o, Stars(n, t)), Member(o', Stars(k, u));
      && (Matches(false, test, obj) <==> o == o' && n == k && t == u)
      && (Matches(true, test, obj) <==>
            o == o' &&
            (|| (n == k && t == u)
             || (0 < n <= k && t in {Void, Base(CHAR, Some(true)), Base(CHAR, Some(false))})
             || (n == k == 0 && t.Base? && u.Base? && t.name == u.name && t.sign.Some? && u.sign.Some?)))
  {
    StarsEqual(n, t, k, u);
    StarsPeeled(n, t);
    StarsPeeled(k, u);
    HasDegreeIff(Stars(k, u), n);
    if n > 0 || k > 0 {
      assert !Complements(Stars(n, t), Stars(k, u));
    } else {
      assert Stars(n, t) == t && Stars(k, u) == u;
      if t.Base? && u.Base? && t.name == u.name && t.sign.Some? && u.sign.Some? {
        var a, b := t.sign.value, u.sign.value;
        assert t.sign == Some(a) && u.sign == Some(b);
        assert b == if a == b then a else !a;
      }
    }
  }

  // ----- the loops -----

  // Where the object should continue after test member j, a char array.
  function Target(test: seq<Member>, j: nat): nat
    requires j < |test| && IsCharArray(test[j].ty)
  {
    if j + 1 < |test| then test[j + 1].off else (test[j].off + test[j].ty.count) % UNSIGNED
  }

  // The last member from i on such that those after i and up to it begin before
  // the target.
  function SkipTo(obj: seq<Member>, i: nat, target: nat): (r: nat)
    requires i < |obj|
    ensures i <= r < |obj|
    ensures forall k | i < k <= r :: obj[k].off < target
    ensures r + 1 < |obj| ==> obj[r + 1].off >= target
    decreases |obj| - i
  {
    if i + 1 < |obj| && obj[i + 1].off < target then SkipTo(obj, i + 1, target) else i
  }

  // The object members that the test members from j on meet, starting with i;
  // None when the match fails.
  function Meet(loosely: bool, obj: seq<Member>, test: seq<Member>, i: nat, j: nat): Option<seq<nat>>
    requires j <= |test|
    decreases |test| - j
  {
    if j == |test| then Some([])
    else if i >= |obj| then None
    else if IsCharArray(test[j].ty) then
      var k := SkipTo(obj, i, Target(test, j));
      if k + 1 >= |obj| && |test| > j + 1 then None else Prepend(i, Meet(loosely, obj, test, k + 1, j + 1))
    else if Matches(loosely, test[j], obj[i]) then Prepend(i, Meet(loosely, obj, test, i + 1, j + 1))
    else None
  }

  function Prepend(i: nat, r: Option<seq<nat>>): Option<seq<nat>> {
    match r
    case None => None
    case Some(s) => Some([i] + s)
  }

  predicate Accepts(loosely: bool, obj: seq<Member>, test: seq<Member>) {
    Meet(loosely, obj, test, 0, 0).Some?
  }

  method LikeA(obj: seq<Member>, test: seq<Member>) returns (succeeded: bool)
    ensures succeeded <==> Accepts(false, obj, test)
  {
    var i, j := 0, 0;
    while i < |obj| && j < |test|
      invariant 0 <= i && 0 <= j <= |test|
      invariant Meet(false, obj, test, i, j).Some? <==> Accepts(false, obj, test)
      decreases |test| - j
    {
      if IsCharArray(test[j].ty) {
        var target := if |test| > j + 1 then test[j + 1].off else (test[j].off + test[j].ty.count) % UNSIGNED;
        ghost var start := i;
        while i + 1 < |obj| && obj[i + 1].off < target
          invariant start <= i < |obj| && SkipTo(obj, start, target) == SkipTo(obj, i, target)
        {
          i := i + 1;
        }
        if i + 1 >= |obj| && |test| > j + 1 {
          return false;
        }
      } else {
        var matches := test[j].off == obj[i].off && test[j].ty == obj[i].ty;
        if !matches {
          return false;
        }
      }
      j, i := j + 1, i + 1;
    }
    return j == |test|;
  }

  method LooselyLikeA(obj: seq<Member>, test: seq<Member>) returns (succeeded: bool)
    ensures succeeded <==> Accepts(true, obj, test)
  {
    var i, j := 0, 0;
    while i < |obj| && j < |test|
      invariant 0 <= i && 0 <= j <= |test|
      invariant Meet(true, obj, test, i, j).Some? <==> Accepts(true, obj, test)
      decreases |test| - j
    {
      if IsCharArray(test[j].ty) {
        var target := if |test| > j + 1 then test[j + 1].off else (test[j].off + test[j].ty.count) % UNSIGNED;
        ghost var start := i;
        while i + 1 < |obj| && obj[i + 1].off < target
          invariant start <= i < |obj| && SkipTo(obj, start, target) == SkipTo(obj, i, target)
        {
          i := i + 1;
        }
        if i + 1 >= |obj| && |test| > j + 1 {
          return false;
        }
      } else {
        var degree := GenericDegree(test[j].ty);
        var matches := test[j].off == obj[i].off &&
          (test[j].ty == obj[i].ty
           || (degree != 0 && PointerHasDegree(obj[i].ty, degree))
           || Complements(test[j].ty, obj[i].ty));
        if !matches {
          return false;
        }
      }
      j, i := j + 1, i + 1;
    }
    return j == |test|;
  }

  // ----- what acceptance means -----

  // f takes each test member from j on to an object member, never going back
  // and never twice to the same, and the ones that are not char arrays match.
  ghost predicate Embeds(loosely: bool, obj: seq<Member>, test: seq<Member>, i: nat, j: nat, f: seq<nat>)
    requires j <= |test|
  {
    && |f| == |test| - j
    && (forall k | 0 <= k < |f| :: i <= f[k] < |obj|)
    && (forall k, l | 0 <= k < l < |f| :: f[k] < f[l])
    && forall k | 0 <= k < |f| :: IsCharArray(test[j + k].ty) || Matches(loosely, test[j + k], obj[f[k]])
  }

  lemma {:induction false} MeetEmbeds(loosely: bool, obj: seq<Member>, test: seq<Member>, i: nat, j: nat)
    requires j <= |test| && Meet(loosely, obj, test, i, j).Some?
    ensures Embeds(loosely, obj, test, i, j, Meet(loosely, obj, test, i, j).value)
    decreases |test| - j
  {
    hide Matches, IsCharArray, Embeds;
    if j == |test| {
      EmbedsNothing(loosely, obj, test, i);
    } else {
      var next := if IsCharArray(test[j].ty) then SkipTo(obj, i, Target(test, j)) + 1 else i + 1;
      MeetEmbeds(loosely, obj, test, next, j + 1);
      EmbedsOneMore(loosely, obj, test, i, next, j, Meet(loosely, obj, test, next, j + 1).value);
    }
  }

  lemma EmbedsNothing(loosely: bool, obj: seq<Member>, test: seq<Member>, i: nat)
    ensures Embeds(loosely, obj, test, i, |test|, [])
  {
  }

  lemma EmbedsOneMore(
      loosely: bool, obj: seq<Member>, test: seq<Member>, i: nat, next: nat, j: nat, g: seq<nat>)
    requires j < |test| && i < next && i < |obj| && Embeds(loosely, obj, test, next, j + 1, g)
    requires IsCharArray(test[j].ty) || Matches(loosely, test[j], obj[i])
    ensures Embeds(loosely, obj, test, i, j, [i] + g)
  {
    hide Matches, IsCharArray;
    var f := [i] + g;
    forall k | 0 <= k < |f|
      ensures i <= f[k] < |obj| && (IsCharArray(test[j + k].ty) || Matches(loosely, test[j + k], obj[f[k]]))
    {
      if k > 0 {
        assert f[k] == g[k - 1] && test[j + k] == test[j + 1 + (k - 1)];
      }
    }
    forall k, l | 0 <= k < l < |f| ensures f[k] < f[l] {
      assert f[l] == g[l - 1] && (k > 0 ==> f[k] == g[k - 1]);
    }
  }

  // k is the least index above i where the object may go on, after test member j
  // met object member i: any after a member that is not a char array, and after one
  // that is, any that begins no earlier than the next test member.
  ghost predicate GoesOn(obj: seq<Member>, test: seq<Member>, i: nat, j: nat, k: nat)
    requires j + 1 < |test|
  {
    i < k < |obj| && MayGoOn(obj, test, j, k) && forall l | i < l < k :: !MayGoOn(obj, test, j, l)
  }

  predicate MayGoOn(obj: seq<Member>, test: seq<Member>, j: nat, k: nat)
    requires j + 1 < |test| && k < |obj|
  {
    IsCharArray(test[j].ty) ==> obj[k].off >= test[j + 1].off
  }

  // f is where the test members from j on are met, if the first is met at i.
  ghost predicate Meets(loosely: bool, obj: seq<Member>, test: seq<Member>, i: nat, j: nat, f: seq<nat>)
    requires j <= |test|
    decreases |test| - j
  {
    if j == |test| then f == []
    else
      && f != [] && f[0] == i < |obj|
      && (IsCharArray(test[j].ty) || Matches(loosely, test[j], obj[i]))
      && if j + 1 == |test| then f == [i]
         else |f| > 1 && GoesOn(obj, test, i, j, f[1]) && Meets(loosely, obj, test, f[1], j + 1, f[1..])
  }

  // The loops accept exactly when every test member can be met in turn, each at the
  // first place where the object may go on after the one before.
  lemma {:induction false} MeetExact(
      loosely: bool, obj: seq<Member>, test: seq<Member>, i: nat, j: nat, f: seq<nat>)
    requires j <= |test|
    ensures Meet(loosely, obj, test, i, j) == Some(f) <==> Meets(loosely, obj, test, i, j, f)
    decreases |test| - j
  {
    hide Matches, IsCharArray, GoesOn;
    if j == |test| || i >= |obj| || f == [] || f[0] != i {
    } else {
      var next := if IsCharArray(test[j].ty) then SkipTo(obj, i, Target(test, j)) + 1 else i + 1;
      MeetExact(loosely, obj, test, next, j + 1, f[1..]);
      assert f == [i] + f[1..];
      if j + 1 < |test| {
        NextPlace(obj, test, i, j, next);
        if |f| > 1 && GoesOn(obj, test, i, j, f[1]) {
          OnlyPlace(obj, test, i, j, f[1], next);
        }
      }
    }
  }

  // Where the skipping loop and the increment after it lead.
  lemma NextPlace(obj: seq<Member>, test: seq<Member>, i: nat, j: nat, next: nat)
    requires i < |obj| && j + 1 < |test|
    requires next == if IsCharArray(test[j].ty) then SkipTo(obj, i, Target(test, j)) + 1 else i + 1
    ensures next < |obj| <==> exists k: nat :: GoesOn(obj, test, i, j, k)
    ensures next < |obj| ==> GoesOn(obj, test, i, j, next)
  {
    hide IsCharArray;
    if next < |obj| {
      assert GoesOn(obj, test, i, j, next);
    }
  }

  lemma OnlyPlace(obj: seq<Member>, test: seq<Member>, i: nat, j: nat, k: nat, l: nat)
    requires j + 1 < |test| && GoesOn(obj, test, i, j, k) && (l < |obj| ==> GoesOn(obj, test, i, j, l))
    requires l < |obj| <==> exists k: nat :: GoesOn(obj, test, i, j, k)
    ensures k == l
  {
  }

  // If the strict loop succeeds, there is a strictly increasing map from the test
  // type's members to object members that keeps the offset and type of every one
  // that is not an array of char.
  lemma LikeAEmbeds(obj: seq<Member>, test: seq<Member>)
    requires Accepts(false, obj, test)
    ensures exists f: seq<nat> ::
      && |f| == |test| && (forall k | 0 <= k < |f| :: f[k] < |obj|)
      && (forall k, l | 0 <= k < l < |f| :: f[k] < f[l])
      && forall k | 0 <= k < |f| :: test[k] == obj[f[k]]
           || (test[k].ty.Array? && test[k].ty.elem in {Base(CHAR, Some(true)), Base(CHAR, Some(false))})
  {
    MeetEmbeds(false, obj, test, 0, 0);
    var f := Meet(false, obj, test, 0, 0).value;
    assert |f| == |test|;
    assert forall k | 0 <= k < |f| :: f[k] < |obj|;
    assert forall k | 0 <= k < |f| && !IsCharArray(test[k].ty) :: Matches(false, test[0 + k], obj[f[k]]);
  }

  // What the strict loop accepts, the loose loop accepts, meeting the same members.
  lemma {:induction false} StrictIsLoose(obj: seq<Member>, test: seq<Member>, i: nat, j: nat)
    requires j <= |test| && Meet(false, obj, test, i, j).Some?
    ensures Meet(true, obj, test, i, j) == Meet(false, obj, test, i, j)
    decreases |test| - j
  {
    if j == |test| {
    } else {
      StrictIsLoose(obj, test, if IsCharArray(test[j].ty) then SkipTo(obj, i, Target(test, j)) + 1 else i + 1, j + 1);
    }
  }

  // Without arrays of char in the test type, its members must match a prefix of
  // the object's, one by one.
  lemma {:induction false} PrefixExact(loosely: bool, obj: seq<Member>, test: seq<Member>, j: nat)
    requires j <= |test|
    requires forall m <- test :: m.ty.Array? ==> m.ty.elem !in {Base(CHAR, Some(true)), Base(CHAR, Some(false))}
    ensures Meet(loosely, obj, test, j, j).Some? <==>
      (j < |test| ==> |test| <= |obj|) &&
      forall k | j <= k < |test| && k < |obj| :: Matches(loosely, test[k], obj[k])
    decreases |test| - j
  {
    hide Matches;
    if j == |test| {
    } else {
      PrefixExact(loosely, obj, test, j + 1);
    }
  }
}
