/**
 * The static side of the engine: sequence types, variables, expression nodes,
 * for/let clauses and function items, plus the collaborators outside this model
 * (sub-expression compilation, type tests) as function-valued parameters.
 */
module Exprs {
  import opened Values

  datatype ItemType = AnyItem | BoolType | NodeType | OtherType(id: nat)

  /** Occurrence indicators: exactly zero, ?, exactly one, +, *. */
  datatype Occ = Zero | ZeroOrOne | One | OneOrMore | ZeroOrMore

  datatype SeqType = SeqType(itemType: ItemType, occ: Occ) {
    /** At most one item. */
    predicate ZeroOrOneOcc() {
      occ == Zero || occ == ZeroOrOne || occ == One
    }
    /** Exactly one item. */
    predicate IsOne() {
      occ == One
    }
    /** The empty sequence is allowed. */
    predicate MayBeZero() {
      occ == Zero || occ == ZeroOrOne || occ == ZeroOrMore
    }
  }

  /** The type of a single boolean. */
  const BLN := SeqType(BoolType, One)

  predicate ItemConforms(it: Item, t: ItemType) {
    match t
    case BoolType => it.Bool?
    case NodeType => it.NodeItem?
    case _ => true
  }

  predicate OccConforms(n: nat, o: Occ) {
    match o
    case Zero => n == 0
    case ZeroOrOne => n <= 1
    case One => n == 1
    case OneOrMore => n >= 1
    case ZeroOrMore => true
  }

  /** A value is an instance of a sequence type. */
  predicate Conforms(v: Value, t: SeqType) {
    OccConforms(|v|, t.occ) && forall i :: 0 <= i < |v| ==> ItemConforms(v[i], t.itemType)
  }

  /** A variable: identity, stack slot and declared type. */
  datatype Var = Var(id: nat, slot: nat, typ: SeqType)

  /** A function type: argument types and an optional return type. */
  datatype FuncType = FuncType(args: seq<SeqType>, ret: Option<SeqType>)

  /** The built-in functions the simple-function node dispatches on. */
  datatype FunDef =
    | FalseFn | TrueFn | EmptyFn | ExistsFn | BooleanFn | NotFn | DeepEqualFn
    | ZeroOrOneFn | ExactlyOneFn | OneOrMoreFn | UnorderedFn
    | OtherFn(id: nat)

  /** Expression nodes, as far as the core needs to tell them apart. */
  datatype Expr =
    | EmptySeq                                        // the empty sequence ()
    | Bln(b: bool)                                    // a boolean constant
    | If(cond: Expr, thn: Expr, els: Expr)
    | Call(def: FunDef, args: seq<Expr>, typ: SeqType)  // a built-in function call
    | LocalVarRef(v: Var)
    | DynamicFunc(fun: FuncItem, args: seq<Expr>)     // a call of a function item
    | Other(id: nat, typ: SeqType, size: int, constant: Option<bool>)  // anything else

  /**
   * A function item. All fields are fixed when the item is created: parameter
   * variables, body, declared type, optional name, the type the result is cast
   * to (if any), the closure and the size of the stack frame the body needs.
   */
  datatype FuncItem = FuncItem(
    name: Option<QName>,
    vars: seq<Var>,
    body: Expr,
    typ: FuncType,
    cast: Option<SeqType>,
    closure: map<Var, Value>,
    stackSize: nat)

  /**
   * A for or let clause, as it stands after its own compilation: the bound
   * variable, the input expression, whether it is simple (needs no scores),
   * whether its variable was inlined, and what it reports about its input
   * (statically empty; static size, -1 when unknown).
   */
  datatype ForLet = ForLet(isFor: bool, v: Var, input: Expr, simple: bool, inlined: bool, empty: bool, size: int)

  /** What `comp` hands back: the node itself, a replacement, or the node after predicate pushdown. */
  datatype Compiled = This | Replaced(e: Expr) | PushedDown

  /** Static result type of an expression. */
  function Type(e: Expr): SeqType {
    match e
    case EmptySeq => SeqType(AnyItem, Zero)
    case Bln(_) => BLN
    case If(_, _, _) => SeqType(AnyItem, ZeroOrMore)
    case Call(_, _, t) => t
    case LocalVarRef(v) => v.typ
    case DynamicFunc(f, _) => if f.typ.ret.Some? then f.typ.ret.value else SeqType(AnyItem, ZeroOrMore)
    case Other(_, t, _, _) => t
  }

  /** Statically known number of results, -1 when unknown. */
  function Size(e: Expr): int {
    match e
    case EmptySeq => 0
    case Bln(_) => 1
    case Other(_, _, s, _) => s
    case _ => -1
  }

  /** `empty()`: the expression is the empty sequence. */
  predicate StaticallyEmpty(e: Expr) {
    e.EmptySeq?
  }

  /** `value()` followed by `ebv`: the constant effective boolean value, if the expression is a value. */
  function StaticEbv(e: Expr): Option<bool> {
    match e
    case EmptySeq => Some(false)
    case Bln(b) => Some(b)
    case Other(_, _, _, c) => c
    case _ => None
  }

  /**
   * Compile-time collaborators outside this model: compiling a clause (under
   * the given full-text "fast" flag), compiling an expression, compiling it as
   * an effective boolean value (`checkUp(e).comp(ctx).compEbv(ctx)`), variable
   * removability and removal, whether a clause shadows a variable, whether a
   * type may be numeric, the predicate-pushdown rewrite of a clause, and the
   * subtype test on function types.
   */
  datatype Analysis = Analysis(
    compileClause: (ForLet, bool) -> ForLet,
    compile: Expr -> Expr,
    compileEbv: Expr -> Expr,
    removable: (Expr, Var) -> bool,
    remove: (Expr, Var) -> Expr,
    clauseRemovable: (ForLet, Var) -> bool,
    clauseRemove: (ForLet, Var) -> ForLet,
    shadows: (ForLet, Var) -> bool,
    mayBeNum: SeqType -> bool,
    pushdown: (ForLet, Expr) -> ForLet,
    instanceOf: (FuncType, FuncType) -> bool)

  /**
   * The query context: variables in scope during compilation, the full-text
   * fast-evaluation flag, the active stack frame (null when none) and the
   * context value (null when absent).
   */
  class QueryContext {
    var vars: seq<Var>
    var ftfast: bool
    var stackFrame: array?<Option<Value>>
    var value: Option<Value>

    constructor (fast: bool)
      ensures vars == [] && ftfast == fast && stackFrame == null && value == None
    {
      vars := [];
      ftfast := fast;
      stackFrame := null;
      value := None;
    }
  }
}
