/**
 * The binding combinations a list of for/let clauses produces, in the order of
 * the nested loop that FLWOR and quantified expressions run: the first clause
 * varies slowest, and each clause is re-opened for every combination of the
 * clauses before it.
 */
module Bindings {
  import opened Values
  import opened Exprs

  /** The values bound so far, one per clause, outermost first. */
  type Tuple = seq<Value>

  /** What a clause binds in turn, given the values bound by the clauses before it. */
  type Domain = (ForLet, Tuple) -> seq<Value>

  /**
   * Run-time collaborators outside this model: the bindings of a clause, the
   * effective boolean value and the value of an expression under a tuple.
   */
  datatype Runtime = Runtime(bind: Domain, ebv: (Expr, Tuple) -> bool, value: (Expr, Tuple) -> Value)

  /** All complete tuples that extend `outer`, in generation order. */
  function Tuples(fl: seq<ForLet>, bind: Domain, outer: Tuple): seq<Tuple>
    requires |outer| <= |fl|
    decreases |fl| - |outer|, 1, 0
  {
    if |outer| == |fl| then [outer]
    else TuplesUpTo(fl, bind, outer, |bind(fl[|outer|], outer)|)
  }

  /** The tuples generated by the first `k` bindings of the next clause. */
  function TuplesUpTo(fl: seq<ForLet>, bind: Domain, outer: Tuple, k: nat): seq<Tuple>
    requires |outer| < |fl| && k <= |bind(fl[|outer|], outer)|
    decreases |fl| - |outer|, 0, k
  {
    if k == 0 then []
    else TuplesUpTo(fl, bind, outer, k - 1) + Tuples(fl, bind, outer + [bind(fl[|outer|], outer)[k - 1]])
  }

  /** Product of the clauses' static sizes. */
  function ClauseProduct(fl: seq<ForLet>): int {
    if fl == [] then 1 else fl[0].size * ClauseProduct(fl[1..])
  }

  /** Every clause binds exactly as many values as its static size says, whatever the outer bindings. */
  ghost predicate SizesExact(fl: seq<ForLet>, bind: Domain) {
    forall p, o :: 0 <= p < |fl| ==> |bind(fl[p], o)| == fl[p].size
  }

  /** Every generated tuple binds every clause once and extends the outer bindings. */
  lemma {:induction false} TuplesShape(fl: seq<ForLet>, bind: Domain, outer: Tuple, i: nat)
    requires |outer| <= |fl| && i < |Tuples(fl, bind, outer)|
    ensures |Tuples(fl, bind, outer)[i]| == |fl|
    ensures Tuples(fl, bind, outer)[i][..|outer|] == outer
    decreases |fl| - |outer|, 1, 0
  {
    if |outer| < |fl| {
      TuplesUpToShape(fl, bind, outer, |bind(fl[|outer|], outer)|, i);
    }
  }

  lemma {:induction false} TuplesUpToShape(fl: seq<ForLet>, bind: Domain, outer: Tuple, k: nat, i: nat)
    requires |outer| < |fl| && k <= |bind(fl[|outer|], outer)|
    requires i < |TuplesUpTo(fl, bind, outer, k)|
    ensures |TuplesUpTo(fl, bind, outer, k)[i]| == |fl|
    ensures TuplesUpTo(fl, bind, outer, k)[i][..|outer|] == outer
    decreases |fl| - |outer|, 0, k
  {
    var prev := TuplesUpTo(fl, bind, outer, k - 1);
    var next := outer + [bind(fl[|outer|], outer)[k - 1]];
    if i < |prev| {
      TuplesUpToShape(fl, bind, outer, k - 1, i);
    } else {
      TuplesShape(fl, bind, next, i - |prev|);
      assert TuplesUpTo(fl, bind, outer, k)[i] == Tuples(fl, bind, next)[i - |prev|];
      assert next[..|outer|] == outer;
    }
  }

  /** When every clause binds as many values as its static size, there are as many tuples as their product. */
  lemma {:induction false} TuplesCount(fl: seq<ForLet>, bind: Domain, outer: Tuple)
    requires |outer| <= |fl| && SizesExact(fl, bind)
    ensures |Tuples(fl, bind, outer)| == ClauseProduct(fl[|outer|..])
    decreases |fl| - |outer|, 1, 0
  {
    if |outer| < |fl| {
      var n := |bind(fl[|outer|], outer)|;
      TuplesUpToCount(fl, bind, outer, n);
      assert fl[|outer|..][1..] == fl[|outer| + 1..];
    }
  }

  lemma {:induction false} TuplesUpToCount(fl: seq<ForLet>, bind: Domain, outer: Tuple, k: nat)
    requires |outer| < |fl| && k <= |bind(fl[|outer|], outer)| && SizesExact(fl, bind)
    ensures |TuplesUpTo(fl, bind, outer, k)| == k * ClauseProduct(fl[|outer| + 1..])
    decreases |fl| - |outer|, 0, k
  {
    if k > 0 {
      var next := outer + [bind(fl[|outer|], outer)[k - 1]];
      var p := ClauseProduct(fl[|outer| + 1..]);
      TuplesUpToCount(fl, bind, outer, k - 1);
      TuplesCount(fl, bind, next);
      assert |Tuples(fl, bind, next)| == p;
      assert |TuplesUpTo(fl, bind, outer, k)| == (k - 1) * p + p;
    }
  }
}
