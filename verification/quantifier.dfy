/**
 * Quantified expressions (`some`/`every` ... `satisfies`): the compile-time
 * collapse to a constant, the short-circuiting nested iteration over the
 * binding iterators, and the removability of a variable.
 */
module QuantifierExpr {
  import opened Values
  import opened Exprs
  import opened Bindings
  import opened Shadowing

  /** The reference meaning: `every` holds when the satisfier holds for all tuples, `some` when it holds for one. */
  predicate Satisfied(every: bool, ts: seq<Tuple>, sat: Expr, rt: Runtime) {
    if every then forall i :: 0 <= i < |ts| ==> rt.ebv(sat, ts[i])
    else exists i :: 0 <= i < |ts| && rt.ebv(sat, ts[i])
  }

  /**
   * The position of the first decisive tuple, whose satisfier differs from the
   * `every` flag (false for `every`, true for `some`); |ts| if there is none.
   */
  function FirstDecisive(every: bool, ts: seq<Tuple>, sat: Expr, rt: Runtime): (k: nat)
    ensures k <= |ts|
    ensures forall i :: 0 <= i < k ==> rt.ebv(sat, ts[i]) == every
    ensures k < |ts| ==> rt.ebv(sat, ts[k]) != every
  {
    if ts == [] then 0
    else if rt.ebv(sat, ts[0]) != every then 0
    else 1 + FirstDecisive(every, ts[1..], sat, rt)
  }

  /** FirstDecisive is the only position with its two properties. */
  lemma {:induction false} FirstDecisiveAt(every: bool, ts: seq<Tuple>, sat: Expr, rt: Runtime, k: nat)
    requires k <= |ts|
    requires forall i :: 0 <= i < k ==> rt.ebv(sat, ts[i]) == every
    requires k < |ts| ==> rt.ebv(sat, ts[k]) != every
    ensures FirstDecisive(every, ts, sat, rt) == k
  {
    if k > 0 {
      FirstDecisiveAt(every, ts[1..], sat, rt, k - 1);
    }
  }

  /** The quantifier differs from its flag exactly when some tuple is decisive. */
  lemma SatisfiedDecisive(every: bool, ts: seq<Tuple>, sat: Expr, rt: Runtime)
    ensures Satisfied(every, ts, sat, rt) == (if FirstDecisive(every, ts, sat, rt) < |ts| then !every else every)
  {
    var k := FirstDecisive(every, ts, sat, rt);
    if k < |ts| && !every {
      assert rt.ebv(sat, ts[k]);
    }
  }

  /** Earlier tuple lists are prefixes of later ones. */
  lemma {:induction false} TuplesUpToPrefix(fl: seq<ForLet>, bind: Domain, outer: Tuple, k: nat, m: nat)
    requires |outer| < |fl| && k <= m <= |bind(fl[|outer|], outer)|
    ensures TuplesUpTo(fl, bind, outer, k) <= TuplesUpTo(fl, bind, outer, m)
    decreases m
  {
    if k < m {
      TuplesUpToPrefix(fl, bind, outer, k, m - 1);
    }
  }

  /** No tuple extends `outer` when a clause at or after its position binds nothing. */
  lemma {:induction false} TuplesEmptyClause(fl: seq<ForLet>, bind: Domain, outer: Tuple, e: nat)
    requires |outer| <= e < |fl|
    requires forall o :: bind(fl[e], o) == []
    ensures Tuples(fl, bind, outer) == []
    decreases |fl| - |outer|, 1, 0
  {
    TuplesUpToEmptyClause(fl, bind, outer, e, |bind(fl[|outer|], outer)|);
  }

  lemma {:induction false} TuplesUpToEmptyClause(fl: seq<ForLet>, bind: Domain, outer: Tuple, e: nat, k: nat)
    requires |outer| <= e < |fl| && k <= |bind(fl[|outer|], outer)|
    requires forall o :: bind(fl[e], o) == []
    ensures TuplesUpTo(fl, bind, outer, k) == []
    decreases |fl| - |outer|, 0, k
  {
    if |outer| == e {
      assert bind(fl[e], outer) == [];
    } else if k > 0 {
      TuplesUpToEmptyClause(fl, bind, outer, e, k - 1);
      TuplesEmptyClause(fl, bind, outer + [bind(fl[|outer|], outer)[k - 1]], e);
    }
  }

  /** No tuple of the list is decisive. */
  predicate NoneDecisive(every: bool, ts: seq<Tuple>, sat: Expr, rt: Runtime) {
    forall i :: 0 <= i < |ts| ==> rt.ebv(sat, ts[i]) == every
  }

  /** Without a decisive tuple the quantifier is its flag, and every tuple is examined. */
  lemma NoneDecisiveAll(every: bool, ts: seq<Tuple>, sat: Expr, rt: Runtime)
    requires NoneDecisive(every, ts, sat, rt)
    ensures FirstDecisive(every, ts, sat, rt) == |ts|
    ensures Satisfied(every, ts, sat, rt) == every
  {
    FirstDecisiveAt(every, ts, sat, rt, |ts|);
    SatisfiedDecisive(every, ts, sat, rt);
  }

  /**
   * One step of the iteration: after a non-decisive prefix `done`, the tuples
   * `cur` of the next binding either hold a decisive tuple, which is then the
   * first decisive tuple of everything, or extend the non-decisive prefix.
   */
  lemma DecisiveStep(every: bool, done: seq<Tuple>, cur: seq<Tuple>, all: seq<Tuple>, sat: Expr, rt: Runtime)
    requires done + cur <= all && NoneDecisive(every, done, sat, rt)
    ensures Satisfied(every, cur, sat, rt) != every ==>
      Satisfied(every, all, sat, rt) == !every &&
      FirstDecisive(every, all, sat, rt) == |done| + FirstDecisive(every, cur, sat, rt)
    ensures Satisfied(every, cur, sat, rt) == every ==> NoneDecisive(every, done + cur, sat, rt)
  {
    SatisfiedDecisive(every, cur, sat, rt);
    var k := FirstDecisive(every, cur, sat, rt);
    if k < |cur| {
      assert all[|done| + k] == cur[k];
      forall j | 0 <= j < |done| + k ensures rt.ebv(sat, all[j]) == every {
        if j < |done| {
          assert all[j] == done[j];
        } else {
          assert all[j] == cur[j - |done|];
        }
      }
      FirstDecisiveAt(every, all, sat, rt, |done| + k);
      SatisfiedDecisive(every, all, sat, rt);
    } else {
      forall j | 0 <= j < |done + cur| ensures rt.ebv(sat, (done + cur)[j]) == every {
        if j >= |done| {
          assert (done + cur)[j] == cur[j - |done|];
        }
      }
    }
  }

  /** Some binding clause is statically known to be empty. */
  predicate SomeClauseEmpty(fl: seq<ForLet>) {
    exists i :: 0 <= i < |fl| && fl[i].empty
  }

  /**
   * The constant `comp` folds the quantifier to, as the source writes it: the
   * `every` flag when the satisfier or any clause is statically empty.
   */
  function FoldAsWritten(every: bool, fl: seq<ForLet>, sat: Expr): (c: Option<bool>)
    ensures c.Some? <==> StaticallyEmpty(sat) || SomeClauseEmpty(fl)
    ensures c.Some? ==> c.value == every
  {
    if StaticallyEmpty(sat) || SomeClauseEmpty(fl) then Some(every) else None
  }

  /**
   * The constant the quantifier folds to: the `every` flag when a clause is
   * statically empty (no tuples), false for `some` with an empty satisfier
   * (no tuple satisfies it); otherwise no folding.
   */
  function Fold(every: bool, fl: seq<ForLet>, sat: Expr): Option<bool> {
    if SomeClauseEmpty(fl) then Some(every)
    else if StaticallyEmpty(sat) && !every then Some(false)
    else None
  }

  /**
   * The fold as written and the corrected fold part ways exactly on an
   * `every` whose satisfier alone is statically empty.
   */
  lemma FoldDiffers(every: bool, fl: seq<ForLet>, sat: Expr)
    ensures FoldAsWritten(every, fl, sat) != Fold(every, fl, sat) <==>
            every && StaticallyEmpty(sat) && !SomeClauseEmpty(fl)
    ensures FoldAsWritten(every, fl, sat) != Fold(every, fl, sat) ==>
            FoldAsWritten(every, fl, sat) == Some(true) && Fold(every, fl, sat) == None
  {
  }

  /** The run-time collaborators agree with what compilation knows statically. */
  ghost predicate StaticFactsHold(fl: seq<ForLet>, sat: Expr, rt: Runtime) {
    (forall i, o :: 0 <= i < |fl| && fl[i].empty ==> rt.bind(fl[i], o) == []) &&
    (StaticallyEmpty(sat) ==> forall t :: !rt.ebv(sat, t))
  }

  /** Folding is sound: the constant is the value evaluation would produce. */
  lemma FoldSound(every: bool, fl: seq<ForLet>, sat: Expr, rt: Runtime)
    requires StaticFactsHold(fl, sat, rt)
    requires Fold(every, fl, sat).Some?
    ensures Satisfied(every, Tuples(fl, rt.bind, []), sat, rt) == Fold(every, fl, sat).value
  {
    if SomeClauseEmpty(fl) {
      var e :| 0 <= e < |fl| && fl[e].empty;
      TuplesEmptyClause(fl, rt.bind, [], e);
    } else {
      var ts := Tuples(fl, rt.bind, []);
      assert forall i :: 0 <= i < |ts| ==> !rt.ebv(sat, ts[i]);
    }
  }

  /**
   * `every $x in 1 satisfies ()` is folded to true, although its only tuple
   * does not satisfy the empty satisfier and evaluation yields false.
   */
  lemma FoldAsWrittenUnsound()
    ensures exists fl: seq<ForLet>, rt: Runtime ::
      StaticFactsHold(fl, EmptySeq, rt) &&
      FoldAsWritten(true, fl, EmptySeq) == Some(true) &&
      !Satisfied(true, Tuples(fl, rt.bind, []), EmptySeq, rt)
  {
    var x := Var(0, 0, SeqType(AnyItem, One));
    var f := ForLet(true, x, Other(0, SeqType(AnyItem, One), 1, None), true, false, false, 1);
    var rt := Runtime((c: ForLet, o: Tuple) => [[Num(1)]], (e: Expr, t: Tuple) => false, (e: Expr, t: Tuple) => []);
    var fl := [f];
    var one: Tuple := [[Num(1)]];
    assert rt.bind(fl[0], []) == one;
    assert [] + [rt.bind(fl[0], [])[0]] == one;
    assert Tuples(fl, rt.bind, one) == [one];
    assert TuplesUpTo(fl, rt.bind, [], 0) == [];
    assert TuplesUpTo(fl, rt.bind, [], 1) == [one];
    assert Tuples(fl, rt.bind, []) == [one];
    assert !rt.ebv(EmptySeq, one);
    var ts := Tuples(fl, rt.bind, []);
    assert ts[0] == one && !rt.ebv(EmptySeq, ts[0]);
    assert !Satisfied(true, ts, EmptySeq, rt);
    assert !SomeClauseEmpty(fl);
    assert StaticFactsHold(fl, EmptySeq, rt);
    assert FoldAsWritten(true, fl, EmptySeq) == Some(true);
  }

  /** Binding a quantifier's clauses compiles each in turn and brings its variable into scope. */
  function CompiledFors(fl: seq<ForLet>, fast: bool, an: Analysis): (r: seq<ForLet>)
    ensures |r| == |fl|
    ensures forall i :: 0 <= i < |fl| ==> r[i] == an.compileClause(fl[i], fast)
  {
    seq(|fl|, i requires 0 <= i < |fl| => an.compileClause(fl[i], fast))
  }

  class Quantifier {
    const every: bool
    var fl: seq<ForLet>
    var sat: Expr
    const typ: SeqType

    constructor (f: seq<ForLet>, s: Expr, e: bool)
      ensures fl == f && sat == s && every == e && typ == BLN
    {
      sat := s;
      fl := f;
      every := e;
      typ := BLN;
    }

    /**
     * `comp`: compiles the clauses and the satisfier (as an effective boolean
     * value), restores the variable scope, and folds the expression to the
     * `every` flag when the satisfier or some clause is statically empty. The
     * fold is the one the source performs (`FoldAsWritten`), including its
     * unsound case `every ... satisfies ()`; `Fold` is the corrected fold.
     */
    method Comp(ctx: QueryContext, an: Analysis) returns (r: Compiled)
      modifies this, ctx`vars
      ensures ctx.vars == old(ctx.vars)
      ensures fl == CompiledFors(old(fl), ctx.ftfast, an)
      ensures sat == an.compileEbv(old(sat))
      ensures FoldAsWritten(every, fl, sat).Some? ==> r == Replaced(Bln(every))
      ensures FoldAsWritten(every, fl, sat).None? ==> r == This
    {
      var vs := |ctx.vars|;
      var i := 0;
      while i < |fl|
        invariant 0 <= i <= |fl| == |old(fl)| && |ctx.vars| >= vs
        invariant ctx.vars[..vs] == old(ctx.vars)
        invariant forall j :: 0 <= j < i ==> fl[j] == an.compileClause(old(fl)[j], ctx.ftfast)
        invariant forall j :: i <= j < |fl| ==> fl[j] == old(fl)[j]
        invariant sat == old(sat)
      {
        var f := an.compileClause(fl[i], ctx.ftfast);
        fl := fl[i := f];
        ctx.vars := ctx.vars + [f.v];
        i := i + 1;
      }
      sat := an.compileEbv(sat);
      ctx.vars := ctx.vars[..vs];

      var empty := StaticallyEmpty(sat);
      var k := 0;
      while k < |fl|
        invariant 0 <= k <= |fl|
        invariant empty <==> StaticallyEmpty(sat) || exists j :: 0 <= j < k && fl[j].empty
        invariant sat == an.compileEbv(old(sat))
      {
        empty := empty || fl[k].empty;
        k := k + 1;
      }
      return if empty then Replaced(Bln(every)) else This;
    }

    /**
     * `atomic`: opens one iterator per clause and runs the recursive
     * iteration. The result is the quantifier over all tuples, and exactly the
     * tuples up to the first decisive one are examined.
     */
    method Atomic(rt: Runtime) returns (b: bool, ghost n: nat)
      requires |fl| > 0
      ensures b == Satisfied(every, Tuples(fl, rt.bind, []), sat, rt)
      ensures n == (if b == every then |Tuples(fl, rt.bind, [])| else FirstDecisive(every, Tuples(fl, rt.bind, []), sat, rt) + 1)
    {
      var its := new nat[|fl|](_ => 0);
      b, n := IterAt(rt, its, []);
    }

    /**
     * `iter` at clause position |outer|: iterator `its[p]` holds how many
     * bindings of clause p have been consumed. A decisive satisfier resets
     * every iterator and returns the negated flag; an exhausted iterator
     * re-opens (its position goes back to 0) and the flag is returned.
     * `n` counts the satisfier evaluations.
     */
    method IterAt(rt: Runtime, its: array<nat>, outer: Tuple) returns (b: bool, ghost n: nat)
      requires its.Length == |fl| && |outer| < |fl|
      requires forall q :: |outer| <= q < its.Length ==> its[q] == 0
      modifies its
      ensures b == Satisfied(every, Tuples(fl, rt.bind, outer), sat, rt)
      ensures n == (if b == every then |Tuples(fl, rt.bind, outer)| else FirstDecisive(every, Tuples(fl, rt.bind, outer), sat, rt) + 1)
      ensures b != every ==> forall q :: 0 <= q < its.Length ==> its[q] == 0
      ensures b == every ==> forall q :: 0 <= q < its.Length ==> its[q] == if q < |outer| then old(its[q]) else 0
      decreases |fl| - |outer|, 1
    {
      var p := |outer|;
      var d := rt.bind(fl[p], outer);
      ghost var all := Tuples(fl, rt.bind, outer);
      assert all == TuplesUpTo(fl, rt.bind, outer, |d|);
      ghost var done: seq<Tuple> := [];
      ghost var i := 0;
      n := 0;
      while its[p] < |d|
        invariant i == its[p] <= |d| && done == TuplesUpTo(fl, rt.bind, outer, i) && n == |done|
        invariant forall q :: 0 <= q < its.Length && q != p ==> its[q] == if q < p then old(its[q]) else 0
        invariant NoneDecisive(every, done, sat, rt)
        decreases |d| - its[p]
      {
        var t := outer + [d[its[p]]];
        its[p] := its[p] + 1;
        i := i + 1;
        assert TuplesUpTo(fl, rt.bind, outer, i) == done + Tuples(fl, rt.bind, t);
        TuplesUpToPrefix(fl, rt.bind, outer, i, |d|);
        var s;
        ghost var m;
        s, m := Visit(rt, its, t);
        DecisiveStep(every, done, Tuples(fl, rt.bind, t), all, sat, rt);
        if every != s {
          ResetAll(its);
          return !every, n + m;
        }
        done := done + Tuples(fl, rt.bind, t);
        n := n + m;
      }
      its[p] := 0;
      NoneDecisiveAll(every, all, sat, rt);
      return every, n;
    }

    /**
     * One tuple of the iteration: the satisfier itself once every clause is
     * bound, otherwise the iteration over the next clause.
     */
    method Visit(rt: Runtime, its: array<nat>, t: Tuple) returns (s: bool, ghost m: nat)
      requires its.Length == |fl| && 0 < |t| <= |fl|
      requires forall q :: |t| <= q < its.Length ==> its[q] == 0
      modifies its
      ensures s == Satisfied(every, Tuples(fl, rt.bind, t), sat, rt)
      ensures m == (if s == every then |Tuples(fl, rt.bind, t)| else FirstDecisive(every, Tuples(fl, rt.bind, t), sat, rt) + 1)
      ensures s == every ==> forall q :: 0 <= q < its.Length ==> its[q] == if q < |t| then old(its[q]) else 0
      decreases |fl| - |t| + 1, 0
    {
      if |t| == |fl| {
        s := rt.ebv(sat, t);
        m := 1;
        assert Tuples(fl, rt.bind, t) == [t];
        assert [t][0] == t;
        assert s == Satisfied(every, [t], sat, rt);
      } else {
        s, m := IterAt(rt, its, t);
      }
    }

    /** The reset of all iterators on a short circuit. */
    static method ResetAll(its: array<nat>)
      modifies its
      ensures forall q :: 0 <= q < its.Length ==> its[q] == 0
    {
      for q := 0 to its.Length
        invariant forall r :: 0 <= r < q ==> its[r] == 0
      {
        its[q] := 0;
      }
    }

    /** `removable`: the clause walk decides if it can; otherwise the satisfier must be removable. */
    method Removable(v: Var, an: Analysis) returns (b: bool)
      ensures ScanClauses(fl, v, an).Some? ==> b == ScanClauses(fl, v, an).value
      ensures ScanClauses(fl, v, an).None? ==> b == an.removable(sat, v)
    {
      var d := ScanRemovable(fl, v, an);
      if d.Some? {
        return d.value;
      }
      b := an.removable(sat, v);
    }

    /** `remove`: rewrites the clauses up to the first that shadows the variable, and the satisfier only if none does. */
    method Remove(v: Var, an: Analysis)
      modifies this
      ensures fl == RemovedClauses(old(fl), v, an)
      ensures sat == (if FirstShadow(old(fl), v, an) < |old(fl)| then old(sat) else an.remove(old(sat), v))
    {
      var shadowed;
      fl, shadowed := RemoveInClauses(fl, v, an);
      if !shadowed {
        sat := an.remove(sat, v);
      }
    }
  }
}
