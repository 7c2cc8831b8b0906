/** Runs of consecutive numbers as sets. */
module Runs {

  function Run(lo: nat, hi: nat): (r: set<nat>)
    requires lo <= hi
    ensures forall x :: x in r <==> lo <= x < hi
    decreases hi - lo
  {
    if lo == hi then {} else Run(lo, hi - 1) + {hi - 1}
  }

  lemma {:induction false} RunSize(lo: nat, hi: nat)
    requires lo <= hi
    ensures |Run(lo, hi)| == hi - lo
    decreases hi - lo
  {
    if lo < hi {
      var rest := Run(lo, hi - 1);
      RunSize(lo, hi - 1);
      assert Run(lo, hi) == rest + {hi - 1} && hi - 1 !in rest;
    }
  }

  lemma RunSplit(lo: nat, mid: nat, hi: nat)
    requires lo <= mid <= hi
    ensures Run(lo, hi) == Run(lo, mid) + Run(mid, hi) && Run(lo, mid) !! Run(mid, hi)
  {
    hide Run;
  }

  lemma RunBelow(lo: nat, hi: nat, limit: nat)
    requires lo <= hi <= limit
    ensures forall f :: f in Run(lo, hi) ==> f < limit
  {
  }
}
