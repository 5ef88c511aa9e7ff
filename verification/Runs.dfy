/**
 Finite runs of a labelled step relation, and the two ways of reasoning about all of
 them at once: an inductive invariant, and a measure that bounds the productive steps.
 Every protocol of this project instantiates this module.
 */
module Runs {

  /** tr[0] is initial and ls[i] labels the step from tr[i] to tr[i+1]. */
  ghost predicate IsRun<S, L>(init: S -> bool, next: (S, L, S) -> bool, tr: seq<S>, ls: seq<L>)
  {
    && |tr| == |ls| + 1
    && init(tr[0])
    && forall i | 0 <= i < |ls| :: next(tr[i], ls[i], tr[i + 1])
  }

  ghost predicate Inductive<S(!new), L(!new)>(init: S -> bool, next: (S, L, S) -> bool, inv: S -> bool)
  {
    && (forall s :: init(s) ==> inv(s))
    && (forall s, l, s' :: inv(s) && next(s, l, s') ==> inv(s'))
  }

  lemma {:induction false} InvariantHolds<S(!new), L(!new)>(
    init: S -> bool, next: (S, L, S) -> bool, inv: S -> bool, tr: seq<S>, ls: seq<L>, i: nat)
    requires IsRun(init, next, tr, ls) && Inductive(init, next, inv)
    requires i < |tr|
    ensures inv(tr[i])
  {
    if i > 0 {
      InvariantHolds(init, next, inv, tr, ls, i - 1);
      assert next(tr[i - 1], ls[i - 1], tr[i - 1 + 1]);
    }
  }

  /** The number of labels that satisfy p. */
  function Count<L>(p: L -> bool, ls: seq<L>): (n: nat)
  {
    if ls == [] then 0
    else Count(p, ls[..|ls| - 1]) + if p(ls[|ls| - 1]) then 1 else 0
  }

  /** The sum of f over a sequence. */
  function Sum<L>(f: L -> nat, ls: seq<L>): nat
  {
    if ls == [] then 0 else Sum(f, ls[..|ls| - 1]) + f(ls[|ls| - 1])
  }

  lemma {:induction false} SumUpdate<L>(f: L -> nat, ls: seq<L>, k: nat, v: L)
    requires k < |ls|
    ensures Sum(f, ls[k := v]) + f(ls[k]) == Sum(f, ls) + f(v)
  {
    var ls' := ls[k := v];
    if k == |ls| - 1 {
      assert ls'[..|ls| - 1] == ls[..|ls| - 1];
    } else {
      assert ls'[..|ls| - 1] == ls[..|ls| - 1][k := v];
      SumUpdate(f, ls[..|ls| - 1], k, v);
    }
  }

  lemma {:induction false} SumBound<L>(f: L -> nat, ls: seq<L>, b: nat)
    requires forall i | 0 <= i < |ls| :: f(ls[i]) <= b
    ensures Sum(f, ls) <= b * |ls|
  {
    if ls != [] {
      SumBound(f, ls[..|ls| - 1], b);
      AddOne(b, |ls| - 1);
    }
  }

  lemma {:induction false} CountUpdate<L>(p: L -> bool, ls: seq<L>, k: nat, v: L)
    requires k < |ls|
    ensures Count(p, ls[k := v]) + (if p(ls[k]) then 1 else 0) == Count(p, ls) + if p(v) then 1 else 0
  {
    var ls' := ls[k := v];
    if k == |ls| - 1 {
      assert ls'[..|ls| - 1] == ls[..|ls| - 1];
    } else {
      assert ls'[..|ls| - 1] == ls[..|ls| - 1][k := v];
      CountUpdate(p, ls[..|ls| - 1], k, v);
    }
  }

  lemma {:induction false} CountBounds<L>(p: L -> bool, ls: seq<L>)
    ensures Count(p, ls) <= |ls|
    ensures Count(p, ls) == 0 <==> forall x | x in ls :: !p(x)
    ensures Count(p, ls) == |ls| <==> forall x | x in ls :: p(x)
  {
    if ls != [] {
      var k := |ls| - 1;
      CountBounds(p, ls[..k]);
      assert ls == ls[..k] + [ls[k]];
      assert forall x :: x in ls <==> x in ls[..k] || x == ls[k];
    }
  }

  /** Under inv, every step labelled by p costs at least one unit, and no step earns any
      except the ones labelled by g, which earn at most c. */
  ghost predicate Pays<S(!new), L(!new)>(
    next: (S, L, S) -> bool, inv: S -> bool, p: L -> bool, g: L -> bool, c: nat, measure: S -> nat)
  {
    forall s, l, s' :: inv(s) && next(s, l, s') ==>
      measure(s') + (if p(l) then 1 else 0) <= measure(s) + (if g(l) then c else 0)
  }

  predicate Never<L>(l: L) { false }

  lemma {:induction false} ProgressIsBounded<S(!new), L(!new)>(
    init: S -> bool, next: (S, L, S) -> bool, inv: S -> bool,
    p: L -> bool, g: L -> bool, c: nat, measure: S -> nat, tr: seq<S>, ls: seq<L>)
    requires IsRun(init, next, tr, ls) && Inductive(init, next, inv) && Pays(next, inv, p, g, c, measure)
    ensures Count(p, ls) + measure(tr[|ls|]) <= measure(tr[0]) + c * Count(g, ls)
  {
    if ls != [] {
      var k := |ls| - 1;
      assert IsRun(init, next, tr[..|tr| - 1], ls[..k]);
      ProgressIsBounded(init, next, inv, p, g, c, measure, tr[..|tr| - 1], ls[..k]);
      InvariantHolds(init, next, inv, tr, ls, k);
      assert next(tr[k], ls[k], tr[k + 1]);
      AddOne(c, Count(g, ls[..k]));
    }
  }

  lemma AddOne(c: nat, n: nat)
    ensures c * (n + 1) == c * n + c
  {
  }
}
