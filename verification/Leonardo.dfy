// Leonardo numbers: the sizes of the trees that frontend/c/shadowprov/qsort.c
// builds.  The source keeps them scaled by the element width in lp[].
module Leonardo {

  function L(k: nat): (r: nat)
    ensures r >= 1
  {
    if k <= 1 then 1 else L(k - 1) + L(k - 2) + 1
  }

  lemma Unfold(k: nat)
    ensures L(k) == if k <= 1 then 1 else L(k - 1) + L(k - 2) + 1
  {
  }

  lemma {:induction false} Monotone(i: nat, j: nat)
    requires i <= j
    ensures L(i) <= L(j)
    decreases j
  {
    if i == j {
    } else {
      Monotone(i, j - 1);
    }
  }

  lemma {:induction false} StrictlyMonotone(i: nat, j: nat)
    requires 1 <= i < j
    ensures L(i) < L(j)
  {
    Monotone(i, j - 1);
  }
}
