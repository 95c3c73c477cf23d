/**
 * Function items: creation, the stack frame an invocation binds, invocation
 * with save and restore of the caller's frame and context value, and coercion
 * to another function type by a forwarding adapter.
 */
module FunctionItems {
  import opened Values
  import opened Exprs

  /**
   * Creates a function item. The result is cast only when the cast flag is
   * set and the type declares a return type; a missing closure is empty.
   */
  function Make(n: Option<QName>, arg: seq<Var>, body: Expr, t: FuncType, cst: bool,
                cls: Option<map<Var, Value>>, stackSize: nat): (f: FuncItem)
    ensures f.name == n && f.vars == arg && f.body == body && f.typ == t && f.stackSize == stackSize
    ensures f.cast.Some? <==> cst && t.ret.Some?
    ensures f.cast.Some? ==> f.cast == t.ret
    ensures f.closure == (if cls.Some? then cls.value else map[])
  {
    FuncItem(n, arg, body, t, if cst && t.ret.Some? then t.ret else None,
             if cls.Some? then cls.value else map[], stackSize)
  }

  /** The number of parameters. */
  function Arity(f: FuncItem): (r: nat)
    ensures r == |f.vars|
  {
    |f.vars|
  }

  /** Some parameter lives in slot `s`. */
  predicate IsParamSlot(f: FuncItem, s: nat) {
    exists j :: 0 <= j < |f.vars| && f.vars[j].slot == s
  }

  /** Some closure variable lives in slot `s`. */
  ghost predicate IsClosureSlot(f: FuncItem, s: nat) {
    exists v :: v in f.closure && v.slot == s
  }

  /**
   * The slots the scope assigned: every parameter and closure variable has a
   * slot inside the frame, parameters have distinct slots and closure
   * variables have distinct slots.
   */
  ghost predicate Valid(f: FuncItem) {
    (forall j :: 0 <= j < |f.vars| ==> f.vars[j].slot < f.stackSize) &&
    (forall v :: v in f.closure ==> v.slot < f.stackSize) &&
    (forall i, j :: 0 <= i < j < |f.vars| ==> f.vars[i].slot != f.vars[j].slot) &&
    (forall v, w :: v in f.closure && w in f.closure && v != w ==> v.slot != w.slot)
  }

  /**
   * The frame an invocation with `args` sees: each parameter's slot holds its
   * argument, the slot of each closure variable not reused by a parameter
   * holds its captured value, every other slot is empty.
   */
  ghost function BoundFrame(f: FuncItem, args: seq<Value>): (fr: seq<Option<Value>>)
    requires Valid(f) && |args| == |f.vars|
    ensures |fr| == f.stackSize
    ensures forall i :: 0 <= i < |f.vars| ==> fr[f.vars[i].slot] == Some(args[i])
    ensures forall v :: v in f.closure && !IsParamSlot(f, v.slot) ==> fr[v.slot] == Some(f.closure[v])
    ensures forall s :: 0 <= s < f.stackSize && !IsParamSlot(f, s) && !IsClosureSlot(f, s) ==> fr[s] == None
  {
    seq(f.stackSize, s requires 0 <= s < f.stackSize =>
      if IsParamSlot(f, s) then (var j :| 0 <= j < |f.vars| && f.vars[j].slot == s; Some(args[j]))
      else if IsClosureSlot(f, s) then (var v :| v in f.closure && v.slot == s; Some(f.closure[v]))
      else None)
  }

  /**
   * `bindVars`: writes every closure entry into the frame, then the
   * parameters from the last to the first.
   */
  method BindVars(f: FuncItem, frame: array<Option<Value>>, args: seq<Value>)
    requires Valid(f) && frame.Length == f.stackSize && |args| == |f.vars|
    modifies frame
    ensures forall i :: 0 <= i < |f.vars| ==> frame[f.vars[i].slot] == Some(args[i])
    ensures forall v :: v in f.closure && !IsParamSlot(f, v.slot) ==> frame[v.slot] == Some(f.closure[v])
    ensures forall s :: 0 <= s < frame.Length && !IsParamSlot(f, s) && !IsClosureSlot(f, s) ==> frame[s] == old(frame[s])
  {
    BindClosure(f, frame);
    BindParams(f, frame, args);
  }

  /** The closure loop of `bindVars`: each captured value into its variable's slot. */
  method BindClosure(f: FuncItem, frame: array<Option<Value>>)
    requires Valid(f) && frame.Length == f.stackSize
    modifies frame
    ensures forall v :: v in f.closure ==> frame[v.slot] == Some(f.closure[v])
    ensures forall s :: 0 <= s < frame.Length && !IsClosureSlot(f, s) ==> frame[s] == old(frame[s])
  {
    var rest := f.closure.Keys;
    while rest != {}
      invariant rest <= f.closure.Keys
      invariant forall v :: v in f.closure && v !in rest ==> frame[v.slot] == Some(f.closure[v])
      invariant forall s :: 0 <= s < frame.Length && !IsClosureSlot(f, s) ==> frame[s] == old(frame[s])
      decreases rest
    {
      var v :| v in rest;
      frame[v.slot] := Some(f.closure[v]);
      rest := rest - {v};
    }
  }

  /** The parameter loop of `bindVars`: the arguments into their slots, last parameter first. */
  method BindParams(f: FuncItem, frame: array<Option<Value>>, args: seq<Value>)
    requires Valid(f) && frame.Length == f.stackSize && |args| == |f.vars|
    modifies frame
    ensures forall i :: 0 <= i < |f.vars| ==> frame[f.vars[i].slot] == Some(args[i])
    ensures forall s :: 0 <= s < frame.Length && !IsParamSlot(f, s) ==> frame[s] == old(frame[s])
  {
    var i := |f.vars|;
    ghost var written: set<nat> := {};
    while i > 0
      invariant 0 <= i <= |f.vars|
      invariant forall j :: i <= j < |f.vars| ==> frame[f.vars[j].slot] == Some(args[j])
      invariant forall s :: s in written ==> IsParamSlot(f, s)
      invariant forall s :: 0 <= s < frame.Length && s !in written ==> frame[s] == old(frame[s])
    {
      i := i - 1;
      frame[f.vars[i].slot] := Some(args[i]);
      assert IsParamSlot(f, f.vars[i].slot);
      written := written + {f.vars[i].slot};
    }
  }

  /**
   * Evaluation outside this model: the value and the single item of a body
   * under a frame and a context value, return-type promotion of a value and
   * cast of an item.
   */
  datatype Evaluator = Evaluator(
    value: (Expr, seq<Option<Value>>, Option<Value>) -> Result<Value, QueryError>,
    item: (Expr, seq<Option<Value>>, Option<Value>) -> Result<Item, QueryError>,
    promote: (SeqType, Value) -> Result<Value, QueryError>,
    cast: (SeqType, Item) -> Result<Item, QueryError>)

  /** Promotion to the cast type, only when there is one; errors pass through. */
  function PromoteResult(cast: Option<SeqType>, v: Result<Value, QueryError>, ev: Evaluator): Result<Value, QueryError> {
    if v.Err? || cast.None? then v else ev.promote(cast.value, v.value)
  }

  /** The value of an invocation: the body under the bound frame, without a context value, promoted if requested. */
  ghost function Invoke(f: FuncItem, args: seq<Value>, ev: Evaluator): Result<Value, QueryError>
    requires Valid(f) && |args| == |f.vars|
  {
    PromoteResult(f.cast, ev.value(f.body, BoundFrame(f, args), None), ev)
  }

  /** The single-item result of an invocation, cast if requested. */
  ghost function InvokeItem(f: FuncItem, args: seq<Value>, ev: Evaluator): Result<Item, QueryError>
    requires Valid(f) && |args| == |f.vars|
  {
    var it := ev.item(f.body, BoundFrame(f, args), None);
    if it.Err? || f.cast.None? then it else ev.cast(f.cast.value, it.value)
  }

  /** A fresh frame of the function's size, all slots empty; null when the size is 0. */
  method NewFrame(f: FuncItem) returns (frame: array?<Option<Value>>)
    ensures f.stackSize == 0 <==> frame == null
    ensures frame != null ==> fresh(frame) && frame.Length == f.stackSize && forall s :: 0 <= s < frame.Length ==> frame[s] == None
  {
    if f.stackSize == 0 {
      frame := null;
    } else {
      frame := new Option<Value>[f.stackSize](_ => None);
    }
  }

  /**
   * Installs a fresh frame, binds the variables, clears the context value and
   * returns the frame contents the body is evaluated under.
   */
  method Enter(f: FuncItem, ctx: QueryContext, args: seq<Value>) returns (contents: seq<Option<Value>>)
    requires Valid(f) && |args| == |f.vars|
    modifies ctx`stackFrame, ctx`value
    ensures (ctx.stackFrame == null) == (f.stackSize == 0)
    ensures ctx.stackFrame != null ==> fresh(ctx.stackFrame) && ctx.stackFrame[..] == contents
    ensures contents == BoundFrame(f, args)
    ensures ctx.value == None
  {
    ctx.stackFrame := NewFrame(f);
    if ctx.stackFrame != null {
      BindVars(f, ctx.stackFrame, args);
      contents := ctx.stackFrame[..];
    } else {
      contents := [];
    }
    ctx.value := None;
  }

  /**
   * `invValue`: evaluates the body under a new frame holding the closure and
   * the arguments, with no context value, promotes the result when a cast
   * type is set, and restores the caller's frame and context value on every
   * path, errors included.
   */
  method InvValue(f: FuncItem, ctx: QueryContext, args: seq<Value>, ev: Evaluator) returns (r: Result<Value, QueryError>)
    requires Valid(f) && |args| == |f.vars|
    modifies ctx`stackFrame, ctx`value
    ensures ctx.stackFrame == old(ctx.stackFrame) && ctx.value == old(ctx.value)
    ensures r == Invoke(f, args, ev)
  {
    var sf := ctx.stackFrame;
    var cv := ctx.value;
    var contents := Enter(f, ctx, args);
    var v := ev.value(f.body, contents, ctx.value);
    r := if v.Err? || f.cast.None? then v else ev.promote(f.cast.value, v.value);
    ctx.value := cv;
    ctx.stackFrame := sf;
  }

  /** `invItem`: as `invValue`, for a body that yields one item, cast when a cast type is set. */
  method InvItem(f: FuncItem, ctx: QueryContext, args: seq<Value>, ev: Evaluator) returns (r: Result<Item, QueryError>)
    requires Valid(f) && |args| == |f.vars|
    modifies ctx`stackFrame, ctx`value
    ensures ctx.stackFrame == old(ctx.stackFrame) && ctx.value == old(ctx.value)
    ensures r == InvokeItem(f, args, ev)
  {
    var sf := ctx.stackFrame;
    var cv := ctx.value;
    var contents := Enter(f, ctx, args);
    var it := ev.item(f.body, contents, ctx.value);
    r := if it.Err? || f.cast.None? then it else ev.cast(f.cast.value, it.value);
    ctx.value := cv;
    ctx.stackFrame := sf;
  }

  /** References to the given variables, in order. */
  function Refs(vs: seq<Var>): (refs: seq<Expr>)
    ensures |refs| == |vs| && forall i :: 0 <= i < |vs| ==> refs[i] == LocalVarRef(vs[i])
  {
    seq(|vs|, i requires 0 <= i < |vs| => LocalVarRef(vs[i]))
  }

  /**
   * `g` is the adapter `coerce` builds for `f` and the type `ft`: same name
   * and arity, fresh parameters typed by the target's argument types, a body
   * that calls `f` with those parameters, no closure, the cast flag kept, a
   * frame with one slot per parameter.
   */
  ghost predicate IsAdapter(g: FuncItem, f: FuncItem, ft: FuncType) {
    g.name == f.name && |g.vars| == |f.vars| == |ft.args| && g.typ == ft &&
    (forall i :: 0 <= i < |g.vars| ==> g.vars[i].typ == ft.args[i]) &&
    g.body == DynamicFunc(f, Refs(g.vars)) &&
    g.closure == map[] &&
    g.cast == (if f.cast.Some? && ft.ret.Some? then ft.ret else None) &&
    g.stackSize == |g.vars| && Valid(g)
  }

  /**
   * `coerce`: creates the parameters from the last to the first in a new
   * scope (the first one created gets slot 0 and identifier `firstId`) and
   * wraps a call of `f` around them.
   */
  method Coerce(f: FuncItem, ft: FuncType, firstId: nat) returns (g: FuncItem)
    requires |ft.args| == |f.vars|
    ensures IsAdapter(g, f, ft)
    ensures forall i :: 0 <= i < |g.vars| ==> g.vars[i].id == firstId + |g.vars| - 1 - i
  {
    var n := |f.vars|;
    var vars := new Var[n](_ => Var(0, 0, SeqType(AnyItem, ZeroOrMore)));
    var refs := new Expr[n](_ => EmptySeq);
    var size := 0;
    var i := n;
    while i > 0
      invariant 0 <= i <= n && size == n - i
      invariant forall j :: i <= j < n ==> vars[j] == Var(firstId + n - 1 - j, n - 1 - j, ft.args[j])
      invariant forall j :: i <= j < n ==> refs[j] == LocalVarRef(vars[j])
    {
      i := i - 1;
      vars[i] := Var(firstId + size, size, ft.args[i]);
      refs[i] := LocalVarRef(vars[i]);
      size := size + 1;
    }
    assert refs[..] == Refs(vars[..]);
    g := Make(f.name, vars[..], DynamicFunc(f, refs[..]), ft, f.cast.Some?, None, size);
  }

  /**
   * `coerceTo`: a cast error when the arities differ, the item itself when
   * its type is already an instance of the target, an adapter otherwise.
   */
  method CoerceTo(f: FuncItem, ft: FuncType, an: Analysis, firstId: nat) returns (r: Result<FuncItem, QueryError>)
    ensures |f.vars| != |ft.args| <==> r == Err(CastError)
    ensures |f.vars| == |ft.args| && an.instanceOf(f.typ, ft) ==> r == Ok(f)
    ensures |f.vars| == |ft.args| && !an.instanceOf(f.typ, ft) ==> r.Ok? && IsAdapter(r.value, f, ft)
  {
    if |f.vars| != |ft.args| {
      return Err(CastError);
    }
    if an.instanceOf(f.typ, ft) {
      return Ok(f);
    }
    var g := Coerce(f, ft, firstId);
    return Ok(g);
  }

  /** The values the references read from a frame. */
  ghost function ReadRefs(vs: seq<Var>, fr: seq<Option<Value>>): seq<Value>
    requires forall i :: 0 <= i < |vs| ==> vs[i].slot < |fr| && fr[vs[i].slot].Some?
  {
    seq(|vs|, i requires 0 <= i < |vs| => fr[vs[i].slot].value)
  }

  /**
   * The evaluator runs a call of a function item on variable references by
   * invoking the item with the referenced values.
   */
  ghost predicate CallsForward(ev: Evaluator) {
    forall fn: FuncItem, vs: seq<Var>, fr: seq<Option<Value>> {:trigger ev.value(DynamicFunc(fn, Refs(vs)), fr, None)} ::
      Valid(fn) && |vs| == |fn.vars| && (forall i :: 0 <= i < |vs| ==> vs[i].slot < |fr| && fr[vs[i].slot].Some?) ==>
      ev.value(DynamicFunc(fn, Refs(vs)), fr, None) == Invoke(fn, ReadRefs(vs, fr), ev)
  }

  /** Invoking the adapter is invoking the original item with the same arguments, promoted to the adapter's cast type. */
  lemma AdapterForwards(g: FuncItem, f: FuncItem, ft: FuncType, args: seq<Value>, ev: Evaluator)
    requires IsAdapter(g, f, ft) && Valid(f) && |args| == |f.vars| && CallsForward(ev)
    ensures Invoke(g, args, ev) == PromoteResult(g.cast, Invoke(f, args, ev), ev)
  {
    var fr := BoundFrame(g, args);
    assert ReadRefs(g.vars, fr) == args;
  }
}
