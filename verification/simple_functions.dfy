/**
 * The simple built-in functions: false, true, empty, exists, boolean, not,
 * zero-or-one, exactly-one, one-or-more and unordered. Their run-time results,
 * the compile-time rewrites of `cmp` and `compEbv`, and the soundness of those
 * rewrites against the run-time results.
 */
module SimpleFunctions {
  import opened Values
  import opened Exprs
  import opened DeepEquality

  /** The effective boolean value of a sequence. */
  function Ebv(v: Value): Result<bool, QueryError> {
    if v == [] then Ok(false)
    else if v[0].NodeItem? then Ok(true)
    else if |v| > 1 then Err(EbvError)
    else match v[0]
      case Bool(b) => Ok(b)
      case Str(s) => Ok(s != [])
      case Num(n) => Ok(n != 0)
  }

  /** `zero-or-one`: the argument if it has at most one item, else error EXP01. */
  function ZeroOrOneOf(v: Value): (r: Result<Value, QueryError>)
    ensures r.Ok? <==> |v| <= 1
    ensures r.Ok? ==> r.value == v
    ensures r.Err? ==> r.error == ZeroOrOneError
  {
    if v == [] then Ok([])
    else if |v| >= 2 then Err(ZeroOrOneError)
    else Ok([v[0]])
  }

  /** `exactly-one`: the argument if it has exactly one item, else error EXP1. */
  function ExactlyOneOf(v: Value): (r: Result<Value, QueryError>)
    ensures r.Ok? <==> |v| == 1
    ensures r.Ok? ==> r.value == v
    ensures r.Err? ==> r.error == ExactlyOneError
  {
    if v == [] || |v| >= 2 then Err(ExactlyOneError) else Ok([v[0]])
  }

  /** `one-or-more`: the argument if it has an item, else error EXP1M. */
  function OneOrMoreOf(v: Value): (r: Result<Value, QueryError>)
    ensures r.Ok? <==> |v| >= 1
    ensures r.Ok? ==> r.value == v
    ensures r.Err? ==> r.error == OneOrMoreError
  {
    if |v| < 1 then Err(OneOrMoreError) else Ok(v)
  }

  /** The functions of one argument that this module evaluates. */
  predicate Unary(d: FunDef) {
    d.EmptyFn? || d.ExistsFn? || d.BooleanFn? || d.NotFn? ||
    d.ZeroOrOneFn? || d.ExactlyOneFn? || d.OneOrMoreFn? || d.UnorderedFn?
  }

  /** The result of a one-argument function, given the result of its argument; errors of the argument propagate. */
  function Apply(d: FunDef, a: Result<Value, QueryError>): (r: Result<Value, QueryError>)
    requires Unary(d)
    ensures a.Err? ==> r == Err(a.error)
    ensures (d.EmptyFn? || d.ExistsFn? || d.BooleanFn? || d.NotFn?) && r.Ok? ==> Conforms(r.value, BLN)
    ensures (d.EmptyFn? || d.ExistsFn?) ==> (r.Ok? <==> a.Ok?)
    ensures (d.EmptyFn? || d.ExistsFn?) && r.Ok? ==> (r.value[0].b <==> d.EmptyFn? == (a.value == []))
    ensures (d.BooleanFn? || d.NotFn?) ==> (r.Ok? <==> EbvOf(a).Ok?)
    ensures (d.BooleanFn? || d.NotFn?) && r.Ok? ==> (r.value[0].b <==> EbvOf(a).value != d.NotFn?)
    ensures (d.BooleanFn? || d.NotFn?) && r.Err? ==> r.error == EbvOf(a).error
    ensures (d.ZeroOrOneFn? || d.ExactlyOneFn? || d.OneOrMoreFn? || d.UnorderedFn?) && r.Ok? ==> r.value == a.value
  {
    if a.Err? then Err(a.error)
    else
      var v := a.value;
      match d
      case EmptyFn => Ok([Bool(v == [])])
      case ExistsFn => Ok([Bool(v != [])])
      case BooleanFn => (var b := Ebv(v); if b.Err? then Err(b.error) else Ok([Bool(b.value)]))
      case NotFn => (var b := Ebv(v); if b.Err? then Err(b.error) else Ok([Bool(!b.value)]))
      case ZeroOrOneFn => ZeroOrOneOf(v)
      case ExactlyOneFn => ExactlyOneOf(v)
      case OneOrMoreFn => OneOrMoreOf(v)
      case UnorderedFn => Ok(v)
  }

  /**
   * Evaluation of everything this module does not define (paths, variables,
   * other functions, ...) and the item comparison `deep-equal` builds on.
   */
  datatype Sem = Sem(leaf: Expr -> Result<Value, QueryError>, equiv: (Item, Item) -> bool)

  /** The functions whose value is a single boolean. */
  predicate Boolean(d: FunDef) {
    d.FalseFn? || d.TrueFn? || d.EmptyFn? || d.ExistsFn? || d.BooleanFn? || d.NotFn? || d.DeepEqualFn?
  }

  /** Whether this module evaluates a call of `d` with `n` arguments (otherwise `sem` does). */
  predicate Handled(d: FunDef, n: nat) {
    d.FalseFn? || d.TrueFn? || (Unary(d) && n == 1) || (d.DeepEqualFn? && (n == 2 || n == 3))
  }

  /**
   * The value of an expression: the simple functions evaluated here, the rest
   * by `sem`. `deep-equal` compares its arguments as the source's walk does.
   */
  function Eval(e: Expr, sem: Sem): (r: Result<Value, QueryError>)
    ensures e.Call? && Boolean(e.def) && Handled(e.def, |e.args|) && r.Ok? ==> Conforms(r.value, BLN)
    ensures e.Call? && (e.def.FalseFn? || e.def.TrueFn?) ==> r == Ok([Bool(e.def.TrueFn?)])
    ensures e.Call? && Unary(e.def) && |e.args| == 1 && Eval(e.args[0], sem).Err? ==> r == Eval(e.args[0], sem)
    ensures e.Call? && e.def.DeepEqualFn? && (|e.args| == 2 || |e.args| == 3) ==>
              (r.Ok? <==> Eval(e.args[0], sem).Ok? && Eval(e.args[1], sem).Ok?)
    decreases e
  {
    match e
    case EmptySeq => Ok([])
    case Bln(b) => Ok([Bool(b)])
    case Call(d, a, _) =>
      if d.FalseFn? then Ok([Bool(false)])
      else if d.TrueFn? then Ok([Bool(true)])
      else if Unary(d) && |a| == 1 then Apply(d, Eval(a[0], sem))
      else if d.DeepEqualFn? && (|a| == 2 || |a| == 3) then
        // the optional third argument names a collation, which is only checked
        var x := Eval(a[0], sem);
        var y := Eval(a[1], sem);
        if x.Err? then Err(x.error)
        else if y.Err? then Err(y.error)
        else Ok([Bool(DeepAsWritten(x.value, y.value, sem.equiv))])
      else sem.leaf(e)
    case _ => sem.leaf(e)
  }

  /** The value of `a` is an instance of its static type. */
  predicate WellTyped(a: Expr, sem: Sem) {
    Eval(a, sem).Ok? ==> Conforms(Eval(a, sem).value, Type(a))
  }

  /** The effective boolean value of a result; an error stays that error. */
  function EbvOf(x: Result<Value, QueryError>): Result<bool, QueryError> {
    if x.Err? then Err(x.error) else Ebv(x.value)
  }

  /** Two results with the same effective boolean value, or the same error. */
  predicate SameEbv(x: Result<Value, QueryError>, y: Result<Value, QueryError>) {
    EbvOf(x) == EbvOf(y)
  }

  /** `not(empty(A))` and `exists(A)` yield the same result. */
  lemma NotEmptyIsExists(a: seq<Expr>, t1: SeqType, t2: SeqType, sem: Sem)
    requires |a| == 1
    ensures Eval(Call(NotFn, [Call(EmptyFn, a, t1)], t2), sem) == Eval(Call(ExistsFn, a, t2), sem)
  {
    var inner := Call(EmptyFn, a, t1);
    assert [inner][0] == inner;
  }

  /** `not(exists(A))` and `empty(A)` yield the same result. */
  lemma NotExistsIsEmpty(a: seq<Expr>, t1: SeqType, t2: SeqType, sem: Sem)
    requires |a| == 1
    ensures Eval(Call(NotFn, [Call(ExistsFn, a, t1)], t2), sem) == Eval(Call(EmptyFn, a, t2), sem)
  {
    var inner := Call(ExistsFn, a, t1);
    assert [inner][0] == inner;
  }

  /** `boolean` and `not` only look at the effective boolean value of their argument. */
  lemma EbvArgument(d: FunDef, a: Expr, b: Expr, t: SeqType, sem: Sem)
    requires d.BooleanFn? || d.NotFn?
    requires SameEbv(Eval(a, sem), Eval(b, sem))
    ensures Eval(Call(d, [a], t), sem) == Eval(Call(d, [b], t), sem)
  {
    assert [a][0] == a && [b][0] == b;
  }

  /** `boolean(A)` is A when A is statically a single boolean. */
  lemma BooleanOfBoolean(a: Expr, t: SeqType, sem: Sem)
    requires Type(a) == BLN && WellTyped(a, sem)
    ensures Eval(Call(BooleanFn, [a], t), sem) == Eval(a, sem)
  {
    assert [a][0] == a;
    if Eval(a, sem).Ok? {
      var v := Eval(a, sem).value;
      assert |v| == 1 && ItemConforms(v[0], BoolType);
      assert v == [Bool(v[0].b)];
    }
  }

  /**
   * A cardinality function (or `unordered`) is its argument when the
   * argument's static occurrence already meets the bound `cmp` checks.
   */
  lemma CardinalityNoop(d: FunDef, a: Expr, t: SeqType, sem: Sem)
    requires WellTyped(a, sem)
    requires (d.ZeroOrOneFn? && Type(a).ZeroOrOneOcc()) || (d.ExactlyOneFn? && Type(a).IsOne()) ||
             (d.OneOrMoreFn? && !Type(a).MayBeZero()) || d.UnorderedFn?
    ensures Eval(Call(d, [a], t), sem) == Eval(a, sem)
  {
    assert [a][0] == a;
  }

  /** The type `cmp` gives a cardinality function describes every value it returns. */
  lemma CardinalityType(d: FunDef, a: Expr, sem: Sem)
    requires WellTyped(a, sem)
    requires d.ZeroOrOneFn? || d.ExactlyOneFn? || d.OneOrMoreFn?
    ensures var o := if d.ZeroOrOneFn? then ZeroOrOne else if d.ExactlyOneFn? then One else OneOrMore;
      var r := Eval(Call(d, [a], SeqType(Type(a).itemType, o)), sem);
      r.Ok? ==> Conforms(r.value, SeqType(Type(a).itemType, o))
  {
    assert [a][0] == a;
  }

  /**
   * `empty(A)` and `exists(A)` are complementary: both fail with A's error,
   * or else exactly one is true, `empty` when A has no item.
   */
  lemma EmptyExistsComplement(a: Expr, t1: SeqType, t2: SeqType, sem: Sem)
    ensures Eval(a, sem).Err? ==>
              Eval(Call(EmptyFn, [a], t1), sem) == Eval(a, sem) && Eval(Call(ExistsFn, [a], t2), sem) == Eval(a, sem)
    ensures Eval(a, sem).Ok? ==>
              Eval(Call(EmptyFn, [a], t1), sem).Ok? && Eval(Call(ExistsFn, [a], t2), sem).Ok? &&
              Eval(Call(EmptyFn, [a], t1), sem).value == [Bool(Eval(a, sem).value == [])] &&
              Eval(Call(ExistsFn, [a], t2), sem).value == [Bool(!(Eval(a, sem).value == []))]
  {
    assert [a][0] == a;
  }

  /**
   * `deep-equal(A, A)` is true for a value of well-formed nodes whose atomic
   * items the comparison `equiv` accepts as equal to themselves.
   */
  lemma DeepEqualSelf(a: Expr, t: SeqType, sem: Sem)
    requires Eval(a, sem).Ok?
    requires forall i :: 0 <= i < |Eval(a, sem).value| ==> sem.equiv(Eval(a, sem).value[i], Eval(a, sem).value[i])
    requires forall i :: 0 <= i < |Eval(a, sem).value| && Eval(a, sem).value[i].NodeItem? ==> WellFormed(Eval(a, sem).value[i].node)
    ensures Eval(Call(DeepEqualFn, [a, a], t), sem) == Ok([Bool(true)])
  {
    var v := Eval(a, sem).value;
    DeepEqualReflexive(v, sem.equiv);
    DeepEqualImpliesAsWritten(v, v, sem.equiv);
  }

  /**
   * A call of one of the simple functions, whose `cmp` rewrites the function,
   * its arguments and its static type in place.
   */
  class SimpleCall {
    var def: FunDef
    var args: seq<Expr>
    var typ: SeqType

    constructor (d: FunDef, a: seq<Expr>, t: SeqType)
      ensures def == d && args == a && typ == t
    {
      def := d;
      args := a;
      typ := t;
    }

    /** The call as an expression. */
    function AsExpr(): Expr
      reads this
    {
      Call(def, args, typ)
    }

    /**
     * `cmp`: returns the replacement expression, or None when the (possibly
     * rewritten) call stands. `ebvOf` compiles an argument as an effective
     * boolean value.
     */
    method Cmp(ebvOf: Expr -> Expr) returns (r: Option<Expr>)
      requires |args| >= 1
      modifies this
      ensures old(def).BooleanFn? ==>
        r == (if Type(old(args)[0]) == BLN then Some(old(args)[0]) else None) &&
        def == old(def) && args == old(args)[0 := ebvOf(old(args)[0])] && typ == old(typ)
      ensures old(def).NotFn? ==> (r == None && typ == old(typ) &&
        var e := old(args)[0];
        if e.Call? && e.def.EmptyFn? then def == ExistsFn && args == e.args
        else if e.Call? && e.def.ExistsFn? then def == EmptyFn && args == e.args
        else if e.Call? then def == NotFn && args == old(args)[0 := ebvOf(e)]
        else def == NotFn && args == old(args))
      ensures (old(def).ZeroOrOneFn? || old(def).ExactlyOneFn? || old(def).OneOrMoreFn?) ==>
        var e := old(args)[0];
        def == old(def) && args == old(args) &&
        typ == SeqType(Type(e).itemType, if def.ZeroOrOneFn? then ZeroOrOne else if def.ExactlyOneFn? then One else OneOrMore) &&
        r == (if (def.ZeroOrOneFn? && Type(e).ZeroOrOneOcc()) || (def.ExactlyOneFn? && Type(e).IsOne()) ||
                 (def.OneOrMoreFn? && !Type(e).MayBeZero())
              then Some(e) else None)
      ensures old(def).UnorderedFn? ==> r == Some(old(args)[0]) && def == old(def) && args == old(args) && typ == old(typ)
      ensures !(old(def).BooleanFn? || old(def).NotFn? || old(def).ZeroOrOneFn? || old(def).ExactlyOneFn? ||
                old(def).OneOrMoreFn? || old(def).UnorderedFn?) ==>
        r == None && def == old(def) && args == old(args) && typ == old(typ)
    {
      var e := args[0];
      match def
      case BooleanFn =>
        args := args[0 := ebvOf(args[0])];
        return if Type(e) == BLN then Some(e) else None;
      case NotFn =>
        if e.Call? {
          if e.def.EmptyFn? {
            // not(empty(A)) -> exists(A)
            args := e.args;
            def := ExistsFn;
          } else if e.def.ExistsFn? {
            // not(exists(A)) -> empty(A)
            args := e.args;
            def := EmptyFn;
          } else {
            // not(boolean(A)) -> not(A)
            args := args[0 := ebvOf(args[0])];
          }
        }
        return None;
      case ZeroOrOneFn =>
        typ := SeqType(Type(e).itemType, ZeroOrOne);
        return if Type(e).ZeroOrOneOcc() then Some(e) else None;
      case ExactlyOneFn =>
        typ := SeqType(Type(e).itemType, One);
        return if Type(e).IsOne() then Some(e) else None;
      case OneOrMoreFn =>
        typ := SeqType(Type(e).itemType, OneOrMore);
        return if !Type(e).MayBeZero() then Some(e) else None;
      case UnorderedFn =>
        return Some(e);
      case _ =>
        return None;
    }

    /**
     * `compEbv`: in a boolean context `boolean(A)` is A, and `exists(A)` is A
     * when A yields nodes only.
     */
    function CompEbv(): (r: Expr)
      requires |args| >= 1
      reads this
      ensures r == AsExpr() || r == args[0]
      ensures def.BooleanFn? || (def.ExistsFn? && Type(args[0]).itemType == NodeType) ==> r == args[0]
      ensures !(def.BooleanFn? || (def.ExistsFn? && Type(args[0]).itemType == NodeType)) ==> r == AsExpr()
    {
      if def.BooleanFn? then args[0]
      else if def.ExistsFn? && Type(args[0]).itemType == NodeType then args[0]
      else AsExpr()
    }
  }

  /** `compEbv` keeps the effective boolean value of the call. */
  lemma CompEbvSound(c: SimpleCall, sem: Sem)
    requires |c.args| == 1 && WellTyped(c.args[0], sem)
    ensures SameEbv(Eval(c.CompEbv(), sem), Eval(c.AsExpr(), sem))
  {
    var a := c.args[0];
    assert c.args == [a];
    if c.def.ExistsFn? && Type(a).itemType == NodeType {
      if Eval(a, sem).Ok? {
        var v := Eval(a, sem).value;
        if v != [] {
          assert ItemConforms(v[0], NodeType);
        }
      }
    }
  }
}
