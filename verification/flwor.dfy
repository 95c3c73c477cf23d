/**
 * The FLWOR expression (for/let clauses, optional where, optional order by,
 * return): its compile-time rewrites, its nested-loop evaluation, and the
 * removability of a variable.
 */
module FlworExpr {
  import opened Values
  import opened Exprs
  import opened Bindings
  import opened Shadowing

  /** The clauses whose variable was not inlined, in their original order. */
  function Survivors(fl: seq<ForLet>): seq<ForLet> {
    if fl == [] then [] else (if fl[0].inlined then [] else [fl[0]]) + Survivors(fl[1..])
  }

  /** Dropping inlined clauses distributes over concatenation, so the survivors keep their relative order. */
  lemma {:induction false} SurvivorsAppend(a: seq<ForLet>, b: seq<ForLet>)
    ensures Survivors(a + b) == Survivors(a) + Survivors(b)
  {
    if a == [] {
      assert a + b == b;
    } else {
      assert (a + b)[0] == a[0] && (a + b)[1..] == a[1..] + b;
      SurvivorsAppend(a[1..], b);
    }
  }

  /** A clause survives exactly when it was a clause and its variable was not inlined. */
  lemma {:induction false} SurvivorsMembers(fl: seq<ForLet>, f: ForLet)
    ensures f in Survivors(fl) <==> f in fl && !f.inlined
  {
    if fl != [] {
      SurvivorsMembers(fl[1..], f);
      assert fl == [fl[0]] + fl[1..];
    }
  }

  /** Without inlined clauses nothing is dropped. */
  lemma {:induction false} SurvivorsNoInlined(fl: seq<ForLet>)
    requires forall i :: 0 <= i < |fl| ==> !fl[i].inlined
    ensures Survivors(fl) == fl
  {
    if fl != [] {
      SurvivorsNoInlined(fl[1..]);
    }
  }

  /** Each clause compiled in turn, with fast full-text evaluation switched off for clauses that are not simple. */
  function CompiledClauses(fl: seq<ForLet>, fast: bool, an: Analysis): (r: seq<ForLet>)
    ensures |r| == |fl|
  {
    if fl == [] then []
    else CompiledClauses(fl[..|fl| - 1], fast, an) + [an.compileClause(fl[|fl| - 1], fast && fl[|fl| - 1].simple)]
  }

  /** The where clause compiles to a constant false. */
  predicate WhereFalse(w: Option<Expr>, an: Analysis) {
    w.Some? && StaticEbv(an.compileEbv(w.value)) == Some(false)
  }

  /** The where clause after compilation, dropped when it is a constant true. */
  function FoldedWhere(w: Option<Expr>, an: Analysis): Option<Expr> {
    if w.None? then None
    else if StaticEbv(an.compileEbv(w.value)) == Some(true) then None
    else Some(an.compileEbv(w.value))
  }

  /** Some `for` clause is statically known to iterate zero times. */
  predicate SomeForEmpty(fl: seq<ForLet>) {
    exists i :: 0 <= i < |fl| && fl[i].isFor && (fl[i].empty || fl[i].size == 0)
  }

  /** The where clause can be turned into predicates of the innermost clause. */
  predicate CanPushDown(fl: seq<ForLet>, w: Option<Expr>, an: Analysis) {
    |fl| > 0 && w.Some? &&
    var f := fl[|fl| - 1];
    f.isFor && f.simple && an.removable(w.value, f.v) && !an.mayBeNum(Type(w.value))
  }

  /** Static result size: unknown (-1) if the return size or any clause size is unknown, else their product. */
  function StaticSize(retSize: int, fl: seq<ForLet>): int {
    if retSize == -1 || exists i :: 0 <= i < |fl| && fl[i].size == -1 then -1
    else retSize * ClauseProduct(fl)
  }

  lemma {:induction false} ClauseProductSnoc(fl: seq<ForLet>, f: ForLet)
    ensures ClauseProduct(fl + [f]) == ClauseProduct(fl) * f.size
  {
    if fl != [] {
      assert (fl + [f])[1..] == fl[1..] + [f];
      ClauseProductSnoc(fl[1..], f);
      assert ClauseProduct(fl + [f]) == fl[0].size * (ClauseProduct(fl[1..]) * f.size);
    }
  }

  /** Whether a tuple passes the where clause. */
  predicate Passes(where: Option<Expr>, t: Tuple, rt: Runtime) {
    where.None? || rt.ebv(where.value, t)
  }

  /** The value list of the FLWOR: one result of `ret` per tuple that passes the where clause, in tuple order. */
  function Results(ts: seq<Tuple>, where: Option<Expr>, ret: Expr, rt: Runtime): seq<Value> {
    if ts == [] then []
    else (if Passes(where, ts[0], rt) then [rt.value(ret, ts[0])] else []) + Results(ts[1..], where, ret, rt)
  }

  lemma {:induction false} ResultsAppend(a: seq<Tuple>, b: seq<Tuple>, where: Option<Expr>, ret: Expr, rt: Runtime)
    ensures Results(a + b, where, ret, rt) == Results(a, where, ret, rt) + Results(b, where, ret, rt)
  {
    if a == [] {
      assert a + b == b;
    } else {
      assert (a + b)[0] == a[0] && (a + b)[1..] == a[1..] + b;
      ResultsAppend(a[1..], b, where, ret, rt);
    }
  }

  /** All items of a value list, in order. */
  function Flatten(vs: seq<Value>): Value {
    if vs == [] then [] else vs[0] + Flatten(vs[1..])
  }

  /** Without a where clause, and with `ret` yielding r items per tuple, the result has r items per tuple. */
  lemma {:induction false} ResultsCount(ts: seq<Tuple>, ret: Expr, rt: Runtime, r: nat)
    requires forall t :: |rt.value(ret, t)| == r
    ensures |Flatten(Results(ts, None, ret, rt))| == r * |ts|
  {
    if ts != [] {
      ResultsCount(ts[1..], ret, rt, r);
    }
  }

  /**
   * The static size is the number of items evaluation produces, when the
   * clauses and `ret` deliver what their static sizes promise.
   */
  lemma StaticSizeSound(fl: seq<ForLet>, ret: Expr, rt: Runtime)
    requires SizesExact(fl, rt.bind)
    requires forall t :: |rt.value(ret, t)| == Size(ret)
    requires StaticSize(Size(ret), fl) != -1
    ensures |Flatten(Results(Tuples(fl, rt.bind, []), None, ret, rt))| == StaticSize(Size(ret), fl)
  {
    TuplesCount(fl, rt.bind, []);
    assert fl[0..] == fl;
    assert |rt.value(ret, [])| == Size(ret);
    ResultsCount(Tuples(fl, rt.bind, []), ret, rt, Size(ret));
  }

  /**
   * The clause loop of `comp`: each clause is compiled with fast full-text
   * evaluation switched off unless it is simple, the flag is restored after
   * each clause, and each clause's variable enters the scope.
   */
  method CompileClauses(ctx: QueryContext, fl: seq<ForLet>, an: Analysis) returns (compiled: seq<ForLet>)
    modifies ctx`vars, ctx`ftfast
    ensures compiled == CompiledClauses(fl, old(ctx.ftfast), an)
    ensures ctx.ftfast == old(ctx.ftfast)
    ensures |ctx.vars| >= |old(ctx.vars)| && ctx.vars[..|old(ctx.vars)|] == old(ctx.vars)
  {
    compiled := [];
    var i := 0;
    while i < |fl|
      invariant 0 <= i <= |fl| && ctx.ftfast == old(ctx.ftfast)
      invariant compiled == CompiledClauses(fl[..i], old(ctx.ftfast), an)
      invariant |ctx.vars| >= |old(ctx.vars)| && ctx.vars[..|old(ctx.vars)|] == old(ctx.vars)
    {
      assert fl[..i + 1][..i] == fl[..i];
      var fast := ctx.ftfast;
      ctx.ftfast := ctx.ftfast && fl[i].simple;
      var f := an.compileClause(fl[i], ctx.ftfast);
      ctx.vars := ctx.vars + [f.v];
      ctx.ftfast := fast;
      compiled := compiled + [f];
      i := i + 1;
    }
    assert fl[..|fl|] == fl;
  }

  /** The loop of `comp` that deletes the clauses whose variable was inlined. */
  method DropInlined(fl: seq<ForLet>) returns (res: seq<ForLet>)
    ensures res == Survivors(fl)
  {
    res := fl;
    var k := 0;
    ghost var j := 0;
    while k != |res|
      invariant 0 <= k <= |res| && 0 <= j <= |fl|
      invariant res[..k] == Survivors(fl[..j]) && res[k..] == fl[j..]
      decreases |res| - k
    {
      assert fl[j] == res[k];
      assert fl[..j + 1] == fl[..j] + [fl[j]];
      SurvivorsAppend(fl[..j], [fl[j]]);
      ghost var prev := res;
      assert prev[k + 1..] == prev[k..][1..] && fl[j + 1..] == fl[j..][1..];
      if res[k].inlined {
        res := res[..k] + res[k + 1..];
        assert res[..k] == prev[..k] && res[k..] == prev[k + 1..];
      } else {
        k := k + 1;
        assert res[..k] == prev[..k - 1] + [prev[k - 1]];
      }
      j := j + 1;
    }
    assert res == res[..k];
    assert fl[..j] == fl;
  }

  /** The loop of `comp` that looks for a for clause without results. */
  method HasEmptyFor(fl: seq<ForLet>) returns (b: bool)
    ensures b == SomeForEmpty(fl)
  {
    var m := 0;
    while m < |fl|
      invariant 0 <= m <= |fl|
      invariant forall q :: 0 <= q < m ==> !(fl[q].isFor && (fl[q].empty || fl[q].size == 0))
    {
      if fl[m].isFor && (fl[m].empty || fl[m].size == 0) {
        return true;
      }
      m := m + 1;
    }
    return false;
  }

  /** The loop of `comp` that multiplies the return size by the clause sizes, giving up at the first unknown one. */
  method ResultSize(retSize: int, fl: seq<ForLet>) returns (size: int)
    ensures size == StaticSize(retSize, fl)
  {
    size := retSize;
    if size != -1 {
      var n := 0;
      while n < |fl|
        invariant 0 <= n <= |fl|
        invariant size == retSize * ClauseProduct(fl[..n])
        invariant forall q :: 0 <= q < n ==> fl[q].size != -1
      {
        var s := fl[n].size;
        if s == -1 {
          size := s;
          return;
        }
        assert fl[..n + 1] == fl[..n] + [fl[n]];
        ClauseProductSnoc(fl[..n], fl[n]);
        size := size * s;
        n := n + 1;
      }
      assert fl[..n] == fl;
    }
  }

  class Flwor {
    var fl: seq<ForLet>
    var where: Option<Expr>
    var order: Option<Expr>
    var ret: Expr
    var size: int
    var typ: Option<SeqType>

    constructor (f: seq<ForLet>, w: Option<Expr>, o: Option<Expr>, r: Expr)
      ensures fl == f && where == w && order == o && ret == r && size == -1 && typ == None
    {
      fl := f;
      where := w;
      order := o;
      ret := r;
      size := -1;
      typ := None;
    }

    /**
     * `comp`: compiles the clauses, folds a constant where clause, compiles
     * `ret`, restores the variable scope, drops inlined clauses and collapses
     * the expression where it can. Predicate pushdown ends in PushedDown,
     * where the source compiles the expression once more.
     */
    method Comp(ctx: QueryContext, an: Analysis) returns (r: Compiled)
      modifies this, ctx`vars, ctx`ftfast
      ensures ctx.vars == old(ctx.vars) && ctx.ftfast == old(ctx.ftfast)
      ensures ret == an.compile(old(ret)) && order == old(order)
      ensures WhereFalse(old(where), an) ==> r == Replaced(EmptySeq)
      ensures !WhereFalse(old(where), an) ==>
        Collapsed(Survivors(CompiledClauses(old(fl), old(ctx.ftfast), an)), FoldedWhere(old(where), an), old(size), an, r)
    {
      var vs := |ctx.vars|;
      fl := CompileClauses(ctx, fl, an);

      var empty := false;
      if where.Some? {
        var w := an.compileEbv(where.value);
        where := Some(w);
        var c := StaticEbv(w);
        if c.Some? {
          empty := !c.value;
          if !empty {
            where := None;
          }
        }
      }
      // the order clause is compiled by Order, which is not part of this model
      ret := an.compile(ret);
      ctx.vars := ctx.vars[..vs];

      if empty {
        return Replaced(EmptySeq);
      }
      fl := DropInlined(fl);
      r := Collapse(an);
    }

    /**
     * What `comp` does once the clauses survive inlining (`s`) and the where
     * clause is folded (`w`), starting from static size `size0`.
     */
    ghost predicate Collapsed(s: seq<ForLet>, w: Option<Expr>, size0: int, an: Analysis, r: Compiled)
      reads this
    {
      if s == [] then
        r == Replaced(if w.Some? then If(w.value, ret, EmptySeq) else ret)
      else if SomeForEmpty(s) then
        r == Replaced(EmptySeq)
      else if CanPushDown(s, w, an) then
        r == PushedDown && where == None &&
        fl == s[..|s| - 1] + [an.pushdown(s[|s| - 1], an.remove(w.value, s[|s| - 1].v))]
      else
        r == This && fl == s && where == w &&
        typ == Some(SeqType(Type(ret).itemType, ZeroOrMore)) &&
        size == (if w.None? then StaticSize(Size(ret), fl) else size0)
    }

    /** The second half of `comp`: collapse, emptiness of for clauses, pushdown, static size. */
    method Collapse(an: Analysis) returns (r: Compiled)
      modifies this
      ensures ret == old(ret) && order == old(order)
      ensures Collapsed(old(fl), old(where), old(size), an, r)
    {
      // no clauses left: the order clause can be ignored
      if |fl| == 0 {
        return Replaced(if where.Some? then If(where.value, ret, EmptySeq) else ret);
      }

      var forEmpty := HasEmptyFor(fl);
      if forEmpty {
        return Replaced(EmptySeq);
      }

      // turn the where clause into predicates of the innermost for clause
      if where.Some? {
        var f := fl[|fl| - 1];
        if f.isFor && f.simple && an.removable(where.value, f.v) && !an.mayBeNum(Type(where.value)) {
          var w := an.remove(where.value, f.v);
          fl := fl[..|fl| - 1] + [an.pushdown(f, w)];
          where := None;
          return PushedDown;
        }
      }

      if where.None? {
        size := ResultSize(Size(ret), fl);
      }
      typ := Some(SeqType(Type(ret).itemType, ZeroOrMore));
      return This;
    }

    /**
     * `iter`: the value list handed to the order clause: for every tuple of
     * the nested loop, outer clauses varying slowest, the value of `ret` if
     * the tuple passes the where clause.
     */
    method Iter(rt: Runtime) returns (vl: seq<Value>)
      requires |fl| > 0 && order.Some?
      ensures vl == Results(Tuples(fl, rt.bind, []), where, ret, rt)
    {
      vl := IterAt(rt, [], []);
    }

    /** The recursive iteration at clause position |outer|; appends to `vl0`. */
    method IterAt(rt: Runtime, outer: Tuple, vl0: seq<Value>) returns (vl: seq<Value>)
      requires |outer| < |fl|
      ensures vl == vl0 + Results(Tuples(fl, rt.bind, outer), where, ret, rt)
      decreases |fl| - |outer|, 1
    {
      var p := |outer|;
      var d := rt.bind(fl[p], outer);
      vl := vl0;
      var i := 0;
      while i < |d|
        invariant 0 <= i <= |d|
        invariant vl == vl0 + Results(TuplesUpTo(fl, rt.bind, outer, i), where, ret, rt)
      {
        var t := outer + [d[i]];
        ResultsAppend(TuplesUpTo(fl, rt.bind, outer, i), Tuples(fl, rt.bind, t), where, ret, rt);
        vl := Visit(rt, t, vl);
        i := i + 1;
      }
    }

    /** One tuple: the next clause's iteration, or the return value once every clause is bound. */
    method Visit(rt: Runtime, t: Tuple, vl0: seq<Value>) returns (vl: seq<Value>)
      requires 0 < |t| <= |fl|
      ensures vl == vl0 + Results(Tuples(fl, rt.bind, t), where, ret, rt)
      decreases |fl| - |t| + 1, 0
    {
      if |t| != |fl| {
        vl := IterAt(rt, t, vl0);
      } else {
        assert Tuples(fl, rt.bind, t) == [t];
        if where.None? || rt.ebv(where.value, t) {
          vl := vl0 + [rt.value(ret, t)];
        } else {
          vl := vl0;
        }
      }
    }

    /** `removable`: the clause walk decides if it can; otherwise where, order and return must all be removable. */
    method Removable(v: Var, an: Analysis) returns (b: bool)
      ensures ScanClauses(fl, v, an).Some? ==> b == ScanClauses(fl, v, an).value
      ensures ScanClauses(fl, v, an).None? ==>
        b == ((where.None? || an.removable(where.value, v)) &&
              (order.None? || an.removable(order.value, v)) && an.removable(ret, v))
    {
      var d := ScanRemovable(fl, v, an);
      if d.Some? {
        return d.value;
      }
      b := (where.None? || an.removable(where.value, v)) &&
           (order.None? || an.removable(order.value, v)) && an.removable(ret, v);
    }

    /** `remove`: rewrites the clauses up to the first that shadows the variable; the rest only if none does. */
    method Remove(v: Var, an: Analysis)
      modifies this
      ensures fl == RemovedClauses(old(fl), v, an)
      ensures FirstShadow(old(fl), v, an) < |old(fl)| ==>
        where == old(where) && order == old(order) && ret == old(ret)
      ensures FirstShadow(old(fl), v, an) == |old(fl)| ==>
        where == (if old(where).Some? then Some(an.remove(old(where).value, v)) else None) &&
        order == (if old(order).Some? then Some(an.remove(old(order).value, v)) else None) &&
        ret == an.remove(old(ret), v)
      ensures size == old(size) && typ == old(typ)
    {
      var shadowed;
      fl, shadowed := RemoveInClauses(fl, v, an);
      if shadowed {
        return;
      }
      if where.Some? {
        where := Some(an.remove(where.value, v));
      }
      if order.Some? {
        order := Some(an.remove(order.value, v));
      }
      ret := an.remove(ret, v);
    }
  }
}
