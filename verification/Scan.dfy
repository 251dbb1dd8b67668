/** The first element of a sequence, from some index on, that satisfies a test: the shape of every search loop
    over the lines of a profile. */
module Scan {

  function First<T>(xs: seq<T>, from: nat, test: T -> bool): (p: nat)
    requires from <= |xs|
    ensures from <= p <= |xs|
    decreases |xs| - from
  {
    if from == |xs| || test(xs[from]) then from else First(xs, from + 1, test)
  }

  lemma {:induction false} Found<T>(xs: seq<T>, from: nat, test: T -> bool)
    requires from <= |xs|
    ensures var p := First(xs, from, test);
            (forall j | from <= j < p :: !test(xs[j])) && (p < |xs| ==> test(xs[p]))
    decreases |xs| - from
  {
    if from < |xs| && !test(xs[from]) { Found(xs, from + 1, test); }
  }

  /** First is determined by that. */
  lemma FirstIs<T>(xs: seq<T>, from: nat, test: T -> bool, p: nat)
    requires from <= p <= |xs| && (forall j | from <= j < p :: !test(xs[j])) && (p < |xs| ==> test(xs[p]))
    ensures First(xs, from, test) == p
  {
    Found(xs, from, test);
  }

  lemma Regroup<T>(a: seq<T>, b: seq<T>, c: seq<T>)
    ensures (a + b) + c == a + (b + c)
  {
  }

  /** w is xs with x put in at p. */
  ghost predicate IsInsertion<T>(w: seq<T>, xs: seq<T>, p: nat, x: T) {
    && p <= |xs| && |w| == |xs| + 1 && w[p] == x
    && (forall j | 0 <= j < p :: w[j] == xs[j])
    && (forall j | p < j < |w| :: w[j] == xs[j - 1])
  }

  lemma Inserted<T>(xs: seq<T>, p: nat, x: T)
    requires p <= |xs|
    ensures IsInsertion(xs[..p] + [x] + xs[p..], xs, p, x)
  {
  }

  lemma Pushed<T>(xs: seq<T>, x: T)
    ensures IsInsertion(xs + [x], xs, |xs|, x)
  {
  }

  lemma FirstBehindInsertion<T>(w: seq<T>, xs: seq<T>, p: nat, x: T, from: nat, test: T -> bool)
    requires IsInsertion(w, xs, p, x) && p <= from <= |xs|
    ensures First(w, from + 1, test) == First(xs, from, test) + 1
  {
    Found(xs, from, test);
    FirstIs(w, from + 1, test, First(xs, from, test) + 1);
  }

  lemma FirstAroundInsertion<T>(w: seq<T>, xs: seq<T>, p: nat, x: T, from: nat, test: T -> bool)
    requires IsInsertion(w, xs, p, x) && from <= p
    ensures var q := First(xs, from, test);
            First(w, from, test) == if q < p then q else if test(x) then p else q + 1
  {
    var q := First(xs, from, test);
    Found(xs, from, test);
    FirstIs(w, from, test, if q < p then q else if test(x) then p else q + 1);
  }

  lemma FirstAfterExchange<T>(xs: seq<T>, p: nat, x: T, from: nat, test: T -> bool)
    requires p < |xs| && from <= |xs|
    requires p < from || First(xs, from, test) < p || test(x) == test(xs[p])
    ensures First(xs[p := x], from, test) == First(xs, from, test)
  {
    Found(xs, from, test);
    FirstIs(xs[p := x], from, test, First(xs, from, test));
  }

  /** Only the elements up to the hit matter. */
  lemma FirstOfSamePrefix<T>(w: seq<T>, xs: seq<T>, from: nat, test: T -> bool)
    requires from <= |xs| && from <= |w|
    requires var q := First(xs, from, test);
             q < |w| && test(w[q]) && forall j | 0 <= j < q :: w[j] == xs[j]
    ensures First(w, from, test) == First(xs, from, test)
  {
    Found(xs, from, test);
    FirstIs(w, from, test, First(xs, from, test));
  }
}
