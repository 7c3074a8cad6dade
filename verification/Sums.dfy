/** Sums over the threads of a program. */
module Sums {

  function Sum(xs: seq<int>): int {
    if xs == [] then 0 else Sum(xs[..|xs| - 1]) + xs[|xs| - 1]
  }

  lemma {:induction false} SumUpdate(xs: seq<int>, k: nat, x: int)
    requires k < |xs|
    ensures Sum(xs[k := x]) == Sum(xs) - xs[k] + x
  {
    var last := |xs| - 1;
    if k == last {
      assert xs[k := x][..last] == xs[..last];
    } else {
      SumUpdate(xs[..last], k, x);
      assert xs[k := x][..last] == xs[..last][k := x];
    }
  }

  lemma {:induction false} SumAtMost(xs: seq<int>, ys: seq<int>, d: nat)
    requires |xs| == |ys| && forall k :: 0 <= k < |xs| ==> xs[k] <= ys[k] + d
    ensures Sum(xs) <= Sum(ys) + |xs| * d
  {
    if xs != [] {
      var last := |xs| - 1;
      SumAtMost(xs[..last], ys[..last], d);
      assert |xs| * d == last * d + d;
    }
  }

  lemma {:induction false} ZeroSum(xs: seq<int>)
    requires forall k :: 0 <= k < |xs| ==> xs[k] == 0
    ensures Sum(xs) == 0
  {
    if xs != [] {
      ZeroSum(xs[..|xs| - 1]);
    }
  }

  // ---------- Counting threads ----------

  function Ones<T>(ts: seq<T>, p: T -> bool): (xs: seq<int>)
    ensures |xs| == |ts| && forall i :: 0 <= i < |ts| ==> xs[i] == if p(ts[i]) then 1 else 0
  {
    seq(|ts|, i requires 0 <= i < |ts| => if p(ts[i]) then 1 else 0)
  }

  /** How many have the property. */
  function Count<T>(ts: seq<T>, p: T -> bool): int {
    Sum(Ones(ts, p))
  }

  lemma CountUpdate<T>(ts: seq<T>, p: T -> bool, t: nat, x: T)
    requires t < |ts|
    ensures Count(ts[t := x], p) == Count(ts, p) - (if p(ts[t]) then 1 else 0) + (if p(x) then 1 else 0)
  {
    var one := if p(x) then 1 else 0;
    SumUpdate(Ones(ts, p), t, one);
    assert Ones(ts[t := x], p) == Ones(ts, p)[t := one];
  }

  lemma CountIsNatural<T>(ts: seq<T>, p: T -> bool)
    ensures Count(ts, p) >= 0
  {
    var zeros := seq(|ts|, _ => 0);
    ZeroSum(zeros);
    SumAtMost(zeros, Ones(ts, p), 0);
  }

  lemma CountPositive<T>(ts: seq<T>, p: T -> bool, t: nat)
    requires t < |ts| && p(ts[t])
    ensures Count(ts, p) > 0
  {
    var zeros := seq(|ts|, _ => 0);
    ZeroSum(zeros);
    SumUpdate(zeros, t, 1);
    SumAtMost(zeros[t := 1], Ones(ts, p), 0);
  }

  lemma CountNone<T>(ts: seq<T>, p: T -> bool)
    requires forall i :: 0 <= i < |ts| ==> !p(ts[i])
    ensures Count(ts, p) == 0
  {
    ZeroSum(Ones(ts, p));
  }

  lemma CountWitness<T>(ts: seq<T>, p: T -> bool) returns (t: nat)
    requires Count(ts, p) > 0
    ensures t < |ts| && p(ts[t])
  {
    if forall i :: 0 <= i < |ts| ==> !p(ts[i]) {
      CountNone(ts, p);
    }
    t :| 0 <= t < |ts| && p(ts[t]);
  }
}
