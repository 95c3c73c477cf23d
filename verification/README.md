# BaseX query core and basic JSON serializer: a Dafny model

This project models five parts of the BaseX XQuery processor and proves
properties of them:

- **FLWOR expressions** (`FLWOR.java`). Compilation covers:
  - for/let clause compilation, with the full-text "fast" flag;
  - constant folding of the where clause;
  - removal of inlined clauses;
  - collapse to `if`/`return` when no clause is left, and to `()` when a for clause is empty;
  - predicate pushdown, and the static result size.

  Evaluation is the nested-loop iteration that builds the value list for the
  order clause. `removable` and `remove` model variable inlining.
- **Quantified expressions** (`some`/`every ... satisfies`, `Quantifier.java`):
  - compilation and folding to a constant;
  - the short-circuiting recursive iteration over one iterator per clause, with the iterator reset;
  - `removable` and `remove`.
- **Simple built-in functions** (`FNSimple.java`): `false`, `true`, `empty`,
  `exists`, `boolean`, `not`, `deep-equal`, `zero-or-one`, `exactly-one`,
  `one-or-more` and `unordered`. The model covers their run-time results,
  the compile-time rewrites `cmp` and `compEbv`, and the `deep-equal` node comparison.
- **Function items** (`FuncItem.java`): construction, binding of the closure
  and arguments into a fresh stack frame, invocation with restoration of the
  caller's frame and context value, and coercion to a function type.
- **The basic JSON serializer** (`JsonBasicSerializer.java`). It writes the XML
  representation of JSON as JSON text:
  - `null`, `boolean`, `string`, `number`, `array` and `map` elements in the functions namespace;
  - map members named by `key` attributes;
  - `escaped` / `escaped-key` flags;
  - escaping of string contents.

The model has these modules:

- `Values`: items, nodes, errors.
- `Exprs`: sequence types, variables, expressions, clauses, the query context.
- `Bindings`: the binding tuples of a clause list.
- `Shadowing`: the clause walk shared by `removable` and `remove`.
- `FlworExpr`, `QuantifierExpr`, `SimpleFunctions`, `DeepEquality`, `FunctionItems`.
- `JsonEscape`, `JsonSerializer`.

Collaborators outside this model are parameters: values of function type held
in the datatypes `Analysis`, `Runtime`, `Sem` and `Evaluator`, and the boolean
parser and number formatter of the serializer. The model takes its shape from
the source:

- Objects whose fields the source updates become classes with those fields:
  - `Flwor`, `Quantifier` and `SimpleCall` (rewritten in place by `comp`/`cmp`/`remove`);
  - `QueryContext` (variable scope, stack frame, context value);
  - `Serializer` (`printKey`, `printedKeys`, `level`, the output).
- Loops become methods with loop invariants. Each is proved against a
  specification function: `Tuples`/`Results` for the FLWOR iteration,
  `Satisfied`/`FirstDecisive` for the quantifier, `Rewrite`/`ValidEscapes`
  for escaping, `ScanSpec`/`ValueOf`/`NodeJson`/`MembersJson` for the serializer.
  Properties of those functions are proved as lemmas.
- The quantifier's iterator array is an `array<nat>` of consumed positions.
  The function item's stack frame is an `array<Option<Value>>`.

The reference readings that the lemmas compare against are:

- `Satisfied`: the meaning of `some`/`every`;
- `NodeDeepEq`: structural node equality;
- `NodeJson`: the JSON text, or the error, of a node of the XML representation;
- `Decode`: reading a JSON string back, as in section 7 of RFC 8259.

## Model

Source paths: `FLWOR.java`, `Quantifier.java`, `FNSimple.java` and `FuncItem.java` are under `src/main/java/org/basex/query/`; `JsonBasicSerializer.java` is under `basex-core/src/main/java/org/basex/io/serial/json/`.

| member | source | states |
|---|---|---|
| Shadowing.ScanRemovable | src/main/java/org/basex/query/expr/FLWOR.java:203-206 | the clause loop of `removable`, with its two early exits, yields the decision of the clause walk `ScanClauses` |
| Shadowing.ScanTrueIff | src/main/java/org/basex/query/expr/FLWOR.java:203-206 | the walk answers "removable" exactly when some clause shadows the variable, no earlier clause does, and every clause up to it is removable |
| Shadowing.ScanNoneIff | src/main/java/org/basex/query/expr/Quantifier.java:99-103 | the walk falls through to the rest of the expression exactly when every clause is removable and none shadows the variable |
| Shadowing.FirstShadow | src/main/java/org/basex/query/expr/FLWOR.java:213-216 | the index where `remove` stops: no earlier rewritten clause shadows the variable, the clause at the index does (or the index is the clause count) |
| Shadowing.RemoveInClauses | src/main/java/org/basex/query/expr/Quantifier.java:108-111 | the clauses are rewritten up to and including the first one that shadows the variable after its own rewrite; later ones are untouched; the flag says whether one shadowed |
| Shadowing.FirstShadowAt | src/main/java/org/basex/query/expr/FLWOR.java:213-216 | the stopping index is unique: any index with the two properties is `FirstShadow` |
| Bindings.TuplesShape | src/main/java/org/basex/query/expr/FLWOR.java:180-194 | every tuple of the nested loop binds each clause exactly once and extends the bindings of the outer clauses |
| Bindings.TuplesCount | src/main/java/org/basex/query/expr/FLWOR.java:143-157 | when each clause binds as many values as its static size, the nested loop runs the product of the sizes times |
| FlworExpr.SurvivorsAppend | src/main/java/org/basex/query/expr/FLWOR.java:92-97 | deleting inlined clauses distributes over concatenation, so the surviving clauses keep their relative order |
| FlworExpr.SurvivorsMembers | src/main/java/org/basex/query/expr/FLWOR.java:92-97 | a clause survives exactly when it was a clause and its variable was not inlined |
| FlworExpr.SurvivorsNoInlined | src/main/java/org/basex/query/expr/FLWOR.java:92-97 | with no inlined variable, the clause list is unchanged |
| FlworExpr.ResultsAppend | src/main/java/org/basex/query/expr/FLWOR.java:180-194 | the value list of consecutive runs of tuples is the concatenation of their value lists |
| FlworExpr.ResultsCount | src/main/java/org/basex/query/expr/FLWOR.java:188-190 | without a where clause, each tuple contributes exactly the items of `ret` |
| FlworExpr.StaticSizeSound | src/main/java/org/basex/query/expr/FLWOR.java:143-157 | the static size `comp` computes equals the number of items evaluation yields, when clauses and `ret` deliver their static sizes |
| FlworExpr.CompileClauses | src/main/java/org/basex/query/expr/FLWOR.java:56-63 | each clause is compiled with the fast flag and-ed with its simplicity; the flag is restored; the variable scope only grows |
| FlworExpr.DropInlined | src/main/java/org/basex/query/expr/FLWOR.java:91-97 | the delete-and-step-back loop leaves exactly the surviving clauses, in order |
| FlworExpr.HasEmptyFor | src/main/java/org/basex/query/expr/FLWOR.java:108-114 | true exactly when some for clause is statically empty or has size 0 |
| FlworExpr.ResultSize | src/main/java/org/basex/query/expr/FLWOR.java:143-157 | the multiply loop gives -1 when the return size or any clause size is unknown, otherwise the product |
| FlworExpr.Flwor.constructor | src/main/java/org/basex/query/expr/FLWOR.java:42-50 | clauses, where, order and return as given; size unknown, type not yet computed |
| FlworExpr.Flwor.Comp | src/main/java/org/basex/query/expr/FLWOR.java:52-160 | `()` when the where clause folds to false. Otherwise the collapse: `if`/`return` with no clauses left, `()` for an empty for, pushdown, or the node with its static size. The scope and fast flag are restored and `ret` is compiled |
| FlworExpr.Flwor.Collapse | src/main/java/org/basex/query/expr/FLWOR.java:99-159 | the collapse steps in source order, each stated outright as the outcome and the new fields (`Collapsed`) |
| FlworExpr.Flwor.Iter | src/main/java/org/basex/query/expr/FLWOR.java:162-170 | the value list is one `ret` value per tuple that passes the where clause, in nested-loop order (outer clauses slowest) |
| FlworExpr.Flwor.IterAt | src/main/java/org/basex/query/expr/FLWOR.java:180-194 | iteration at a clause position appends the value list of all tuples that extend the outer bindings |
| FlworExpr.Flwor.Visit | src/main/java/org/basex/query/expr/FLWOR.java:183-192 | one binding: recurse into the next clause, or test the where clause and add `ret`'s value at the innermost one |
| FlworExpr.Flwor.Removable | src/main/java/org/basex/query/expr/FLWOR.java:201-209 | the clause walk's answer if it gives one, otherwise where, order and return must all be removable |
| FlworExpr.Flwor.Remove | src/main/java/org/basex/query/expr/FLWOR.java:211-221 | the clauses are rewritten up to the first shadowing one. Where, order and return are rewritten only when no clause shadows; size and type are unchanged |
| QuantifierExpr.FirstDecisive | src/main/java/org/basex/query/expr/Quantifier.java:82-87 | the position of the first tuple whose satisfier differs from the `every` flag: all earlier tuples agree with it |
| QuantifierExpr.FirstDecisiveAt | src/main/java/org/basex/query/expr/Quantifier.java:82-87 | the first decisive position is unique |
| QuantifierExpr.SatisfiedDecisive | src/main/java/org/basex/query/expr/Quantifier.java:82-89 | the quantifier yields the negated flag exactly when a decisive tuple exists, else the flag |
| QuantifierExpr.NoneDecisiveAll | src/main/java/org/basex/query/expr/Quantifier.java:88-89 | with no decisive tuple every tuple is examined and the result is the flag |
| QuantifierExpr.DecisiveStep | src/main/java/org/basex/query/expr/Quantifier.java:82-87 | after a non-decisive prefix, a decisive tuple in the next block is the first decisive tuple overall; otherwise the prefix stays non-decisive |
| QuantifierExpr.TuplesEmptyClause | src/main/java/org/basex/query/expr/Quantifier.java:55 | a clause that binds nothing leaves no tuple at all |
| QuantifierExpr.FoldAsWritten | src/main/java/org/basex/query/expr/Quantifier.java:53-58 | the source folds to the `every` flag exactly when the satisfier or some clause is statically empty |
| QuantifierExpr.FoldAsWrittenUnsound | src/main/java/org/basex/query/expr/Quantifier.java:53-58 | `every $x in 1 satisfies ()` is folded to true although evaluation yields false |
| QuantifierExpr.FoldDiffers | src/main/java/org/basex/query/expr/Quantifier.java:53-58 | the source's fold and the corrected fold differ exactly on an `every` whose satisfier, and no clause, is statically empty; there the source folds to true and the corrected fold does not fold |
| QuantifierExpr.FoldSound | src/main/java/org/basex/query/expr/Quantifier.java:53-58 | the corrected fold gives the value evaluation produces, for `some` and `every`, whenever it folds |
| QuantifierExpr.CompiledFors | src/main/java/org/basex/query/expr/Quantifier.java:49 | each clause compiled in turn under the current fast flag |
| QuantifierExpr.Quantifier.constructor | src/main/java/org/basex/query/expr/Quantifier.java:36-43 | clauses, satisfier and flag as given; static type a single boolean |
| QuantifierExpr.Quantifier.Comp | src/main/java/org/basex/query/expr/Quantifier.java:45-59 | clauses compiled, satisfier compiled as an effective boolean value, scope restored. The constant `every` replaces the node exactly when the compiled satisfier or some compiled clause is statically empty (`FoldAsWritten`), otherwise the node stands |
| QuantifierExpr.Quantifier.Atomic | src/main/java/org/basex/query/expr/Quantifier.java:61-68 | the result is `some`/`every` over all tuples. The satisfier runs on exactly the tuples up to and including the first decisive one |
| QuantifierExpr.Quantifier.IterAt | src/main/java/org/basex/query/expr/Quantifier.java:78-90 | the quantifier over the tuples extending the outer bindings, with the short-circuit count. A decisive result resets every iterator; otherwise inner iterators end re-opened and outer ones untouched |
| QuantifierExpr.Quantifier.Visit | src/main/java/org/basex/query/expr/Quantifier.java:81-84 | one binding: the satisfier once every clause is bound, otherwise the iteration over the next clause |
| QuantifierExpr.Quantifier.ResetAll | src/main/java/org/basex/query/expr/Quantifier.java:85 | every iterator is back at its start |
| QuantifierExpr.Quantifier.Removable | src/main/java/org/basex/query/expr/Quantifier.java:97-104 | the clause walk's answer if it gives one, otherwise whether the satisfier is removable |
| QuantifierExpr.Quantifier.Remove | src/main/java/org/basex/query/expr/Quantifier.java:106-114 | the clauses are rewritten up to the first shadowing one. The satisfier is rewritten only when none shadows |
| SimpleFunctions.ZeroOrOneOf | src/main/java/org/basex/query/func/FNSimple.java:71-76 | succeeds exactly on at most one item and returns it; otherwise error EXP01 |
| SimpleFunctions.ExactlyOneOf | src/main/java/org/basex/query/func/FNSimple.java:77-81 | succeeds exactly on one item and returns it; otherwise error EXP1 |
| SimpleFunctions.OneOrMoreOf | src/main/java/org/basex/query/func/FNSimple.java:41-44 | succeeds exactly on a non-empty sequence and returns it; otherwise error EXP1M |
| SimpleFunctions.Apply | src/main/java/org/basex/query/func/FNSimple.java:61-81 | an argument's error propagates. `empty`, `exists`, `boolean` and `not` give a single boolean: `empty`/`exists` on whether the argument has an item, `boolean`/`not` on its effective boolean value (or its error). The cardinality functions and `unordered` return the argument itself |
| SimpleFunctions.Eval | src/main/java/org/basex/query/func/FNSimple.java:53-85 | `false()`/`true()` are the constants; the boolean functions yield a single boolean; a one-argument function fails with its argument's error; `deep-equal` fails exactly when an argument does |
| SimpleFunctions.EmptyExistsComplement | src/main/java/org/basex/query/func/FNSimple.java:61-64 | `empty(A)` and `exists(A)` both fail with A's error, or else are single booleans of which exactly one is true, `empty` when A yields no item |
| SimpleFunctions.DeepEqualSelf | src/main/java/org/basex/query/func/FNSimple.java:69-70 | `deep-equal(A, A)` is true for well-formed nodes and atomic items the comparison accepts as equal to themselves |
| SimpleFunctions.NotEmptyIsExists | src/main/java/org/basex/query/func/FNSimple.java:98-102 | the rewrite `not(empty(A))` to `exists(A)` keeps the result |
| SimpleFunctions.NotExistsIsEmpty | src/main/java/org/basex/query/func/FNSimple.java:103-107 | the rewrite `not(exists(A))` to `empty(A)` keeps the result |
| SimpleFunctions.EbvArgument | src/main/java/org/basex/query/func/FNSimple.java:92-93 | `boolean`/`not` depend only on the effective boolean value of the argument, which justifies compiling it with `compEbv` |
| SimpleFunctions.BooleanOfBoolean | src/main/java/org/basex/query/func/FNSimple.java:94 | `boolean(A)` equals A when A is statically a single boolean |
| SimpleFunctions.CardinalityNoop | src/main/java/org/basex/query/func/FNSimple.java:114-124 | a cardinality function is its argument when the argument's static occurrence already meets the bound; `unordered` always is |
| SimpleFunctions.CardinalityType | src/main/java/org/basex/query/func/FNSimple.java:114-122 | the static type `cmp` assigns describes every value the function returns |
| SimpleFunctions.SimpleCall.constructor | src/main/java/org/basex/query/func/FNSimple.java:33-35 | function, arguments and type as given |
| SimpleFunctions.SimpleCall.Cmp | src/main/java/org/basex/query/func/FNSimple.java:87-128 | per function: the replacement returned and the new definition, arguments and type, including both `not` rewrites and the occurrence types |
| SimpleFunctions.SimpleCall.CompEbv | src/main/java/org/basex/query/func/FNSimple.java:130-144 | `boolean(A)` becomes A; `exists(A)` becomes A exactly when A's item type is a node type; every other call stays itself |
| SimpleFunctions.CompEbvSound | src/main/java/org/basex/query/func/FNSimple.java:130-144 | the `compEbv` rewrite keeps the effective boolean value (and errors) of the call |
| DeepEquality.Walk | src/main/java/org/basex/query/func/FNSimple.java:178-179 | the descendant-or-self walk starts with the node itself |
| DeepEquality.LookupFirst | src/main/java/org/basex/query/func/FNSimple.java:208-214 | the attribute search stops at the first attribute with the name |
| DeepEquality.LookupFound | src/main/java/org/basex/query/func/FNSimple.java:208-216 | the search fails exactly when no attribute has the name; what it finds is such an attribute's value |
| DeepEquality.CompareNode | src/main/java/org/basex/query/func/FNSimple.java:186-217 | the per-node checks, including the nested attribute loop with its `found` flag, return exactly `StepEq` |
| DeepEquality.CompareWalks | src/main/java/org/basex/query/func/FNSimple.java:181-219 | the lock-step walk returns true exactly when both walks agree position by position and end together |
| DeepEquality.Deep | src/main/java/org/basex/query/func/FNSimple.java:165-222 | the item loop with its non-short-circuit advance returns exactly the source's verdict `DeepAsWritten` |
| DeepEquality.NodeDeepEqWalks | src/main/java/org/basex/query/func/FNSimple.java:178-219 | structurally equal nodes pass the source's walk comparison |
| DeepEquality.DeepEqualImpliesAsWritten | src/main/java/org/basex/query/func/FNSimple.java:165-222 | structural `deep-equal` implies the source's verdict |
| DeepEquality.AsWrittenIgnoresNesting | src/main/java/org/basex/query/func/FNSimple.java:178-219 | `<a><b/><c/></a>` and `<a><b><c/></b></a>` pass the source's comparison but are not structurally equal |
| DeepEquality.WalkUnique | src/main/java/org/basex/query/func/FNSimple.java:178-179 | every node on the walk of a well-formed node has attributes with unique names |
| DeepEquality.StepEqSymmetric | src/main/java/org/basex/query/func/FNSimple.java:186-217 | the source's per-node checks are symmetric on nodes with unique attribute names |
| DeepEquality.WalkEqSymmetric | src/main/java/org/basex/query/func/FNSimple.java:178-219 | the source's walk comparison is symmetric on well-formed nodes |
| DeepEquality.DeepAsWrittenSymmetric | src/main/java/org/basex/query/func/FNSimple.java:165-222 | `deep-equal` as the source computes it is symmetric for well-formed nodes and a symmetric `equiv` |
| DeepEquality.AsWrittenAttributeValueMismatch | src/main/java/org/basex/query/func/FNSimple.java:205-217 | under the source's comparison too, an attribute with the same name but another value makes two elements unequal |
| DeepEquality.AttrsMatchedSymmetric | src/main/java/org/basex/query/func/FNSimple.java:197-217 | with unique names and equal counts, matching attributes by name is symmetric |
| DeepEquality.NodeDeepEqReflexive | src/main/java/org/basex/query/func/FNSimple.java:178-219 | every well-formed node is structurally equal to itself |
| DeepEquality.NodeDeepEqSymmetric | src/main/java/org/basex/query/func/FNSimple.java:178-219 | structural equality of well-formed nodes is symmetric |
| DeepEquality.DeepEqualReflexive | src/main/java/org/basex/query/func/FNSimple.java:165-222 | `deep-equal(A, A)` holds for well-formed nodes and a reflexive `equiv` |
| DeepEquality.DeepEqualSymmetric | src/main/java/org/basex/query/func/FNSimple.java:165-222 | `deep-equal` is symmetric for well-formed nodes and a symmetric `equiv` |
| DeepEquality.AttributeOrderIrrelevant | src/main/java/org/basex/query/func/FNSimple.java:205-217 | an element is equal to itself with its attributes permuted |
| DeepEquality.AttributeValueMismatch | src/main/java/org/basex/query/func/FNSimple.java:210-216 | an attribute with the same name but another value makes two elements unequal |
| FunctionItems.Make | src/main/java/org/basex/query/value/item/FuncItem.java:50-59 | fields as given. The cast type is set exactly when the cast flag is on and the type has a return type; an absent closure is empty |
| FunctionItems.Arity | src/main/java/org/basex/query/value/item/FuncItem.java:75-78 | the arity is the number of parameter variables |
| FunctionItems.BoundFrame | src/main/java/org/basex/query/value/item/FuncItem.java:92-97 | the frame after binding: each parameter's slot holds its argument; closure slots not used by a parameter hold the closure value; the rest are empty |
| FunctionItems.BindVars | src/main/java/org/basex/query/value/item/FuncItem.java:92-97 | closure first, then parameters (which win on a shared slot). Other slots are unchanged |
| FunctionItems.BindClosure | src/main/java/org/basex/query/value/item/FuncItem.java:94-95 | every closure value is in its variable's slot; no other slot changes |
| FunctionItems.BindParams | src/main/java/org/basex/query/value/item/FuncItem.java:96 | every argument is in its parameter's slot; no other slot changes |
| FunctionItems.NewFrame | src/main/java/org/basex/query/value/item/FuncItem.java:105 | no frame when the stack size is 0, otherwise a fresh empty frame of that size |
| FunctionItems.Enter | src/main/java/org/basex/query/value/item/FuncItem.java:104-109 | installs a fresh frame holding exactly `BoundFrame` and clears the context value |
| FunctionItems.InvValue | src/main/java/org/basex/query/value/item/FuncItem.java:99-117 | the result is the body's value under the bound frame, promoted when a cast type is set. The caller's frame and context value are restored |
| FunctionItems.InvItem | src/main/java/org/basex/query/value/item/FuncItem.java:125-143 | the same for a single item, cast when a cast type is set |
| FunctionItems.Coerce | src/main/java/org/basex/query/value/item/FuncItem.java:168-179 | builds an adapter: same name and arity, fresh parameters typed by the target, last parameter created first, body a call of the original on them, no closure |
| FunctionItems.CoerceTo | src/main/java/org/basex/query/value/item/FuncItem.java:181-187 | a cast error exactly when the arities differ; the item itself when its type is already an instance; an adapter otherwise |
| FunctionItems.AdapterForwards | src/main/java/org/basex/query/value/item/FuncItem.java:168-179 | invoking the adapter is invoking the original item with the same arguments, promoted to the adapter's cast type |
| JsonEscape.RewriteStep | basex-core/src/main/java/org/basex/io/serial/json/JsonBasicSerializer.java:248-266 | the rewrite of a suffix is the output for its first character followed by the rewrite of the rest under the updated backslash flag |
| JsonEscape.ValidEscapesAt | basex-core/src/main/java/org/basex/io/serial/json/JsonBasicSerializer.java:226-240 | the validation from any position: a backslash needs a character of the escape set, and `u` four hex digits |
| JsonEscape.CheckEscapes | basex-core/src/main/java/org/basex/io/serial/json/JsonBasicSerializer.java:225-241 | the validation loop accepts exactly the strings whose escape sequences are all well formed |
| JsonEscape.HexDigits | basex-core/src/main/java/org/basex/io/serial/json/JsonBasicSerializer.java:233-238 | true exactly when four hexadecimal digits (either case) follow |
| JsonEscape.Escape | basex-core/src/main/java/org/basex/io/serial/json/JsonBasicSerializer.java:222-268 | an escape error exactly when escaping is on, the value holds a backslash and validation fails; otherwise the rewrite |
| JsonEscape.ControlEscape | basex-core/src/main/java/org/basex/io/serial/json/JsonBasicSerializer.java:250-257 | a control character becomes its short escape or `\u00XX` |
| JsonEscape.QuoteChar | basex-core/src/main/java/org/basex/io/serial/json/JsonBasicSerializer.java:258-264 | a quote not preceded by an escaping backslash, or a backslash when escaping is off, gets a backslash; other characters are copied |
| JsonEscape.RewriteLoop | basex-core/src/main/java/org/basex/io/serial/json/JsonBasicSerializer.java:245-267 | the loop with its backslash flag produces exactly `Rewrite` of the value |
| JsonEscape.HexDigitValue | basex-core/src/main/java/org/basex/io/serial/json/JsonBasicSerializer.java:257 | the digit table maps each value below 16 to a hex digit of that value |
| JsonEscape.ControlDecodes | basex-core/src/main/java/org/basex/io/serial/json/JsonBasicSerializer.java:250-257 | a control character's escape reads back as that character |
| JsonEscape.EmitCharDecodes | basex-core/src/main/java/org/basex/io/serial/json/JsonBasicSerializer.java:249-265 | outside an input escape sequence, every character's output reads back as that character |
| JsonEscape.RoundTripUnescaped | basex-core/src/main/java/org/basex/io/serial/json/JsonBasicSerializer.java:245-267 | without escaping, reading the output back gives the input, character for character |
| JsonEscape.EscapeChars | basex-core/src/main/java/org/basex/io/serial/json/JsonBasicSerializer.java:231 | the escape set is exactly the two-character escapes of RFC 8259 plus `u` |
| JsonEscape.RoundTripEscaped | basex-core/src/main/java/org/basex/io/serial/json/JsonBasicSerializer.java:222-268 | with escaping and a valid input, the output reads back as what the input's escape sequences stand for |
| JsonEscape.ValidEscapesReadable | basex-core/src/main/java/org/basex/io/serial/json/JsonBasicSerializer.java:223-243 | the validation accepts exactly the inputs whose escape sequences can be read |
| JsonEscape.NoBackslashValid | basex-core/src/main/java/org/basex/io/serial/json/JsonBasicSerializer.java:224 | input without a backslash needs no validation |
| JsonEscape.EscapeOutcome | basex-core/src/main/java/org/basex/io/serial/json/JsonBasicSerializer.java:222-243 | escaping fails exactly when escaping is on and the input's escape sequences are invalid |
| JsonEscape.NoRawControl | basex-core/src/main/java/org/basex/io/serial/json/JsonBasicSerializer.java:250-257 | the output holds no raw control character |
| JsonEscape.EscapeSound | basex-core/src/main/java/org/basex/io/serial/json/JsonBasicSerializer.java:222-268 | every successful output is a readable JSON string body: the input itself when escaping is off, the input's meaning when it is on |
| JsonSerializer.ScanFails | basex-core/src/main/java/org/basex/io/serial/json/JsonBasicSerializer.java:59-79 | the attribute scan fails exactly when some attribute is rejected, with the first rejected attribute's error; foreign namespaces are skipped |
| JsonSerializer.ScanKey | basex-core/src/main/java/org/basex/io/serial/json/JsonBasicSerializer.java:66-67 | a successful scan has a key exactly when the element has a `key` attribute, and the key is that attribute's value |
| JsonSerializer.MemberStage | basex-core/src/main/java/org/basex/io/serial/json/JsonBasicSerializer.java:81-90 | a passed key stage means a fresh key in a map, and no key attribute in an array |
| JsonSerializer.MembersJsonWellFormed | basex-core/src/main/java/org/basex/io/serial/json/JsonBasicSerializer.java:173-193 | the members of an array or map have JSON text only when whitespace alone separates them, map members have distinct keys not printed before, and array members have no key |
| JsonSerializer.TextsNone | basex-core/src/main/java/org/basex/io/serial/json/JsonBasicSerializer.java:202-212 | without text children the collected text is empty |
| JsonSerializer.Serializer.constructor | basex-core/src/main/java/org/basex/io/serial/json/JsonBasicSerializer.java:30-42 | no key printing, no printed keys, level 0, empty output |
| JsonSerializer.Serializer.WriteNode | basex-core/src/main/java/org/basex/io/serial/json/JsonBasicSerializer.java:44-130 | the error and the text written are those of `NodeJson`: a document's children in turn, an element as JSON, other nodes nothing; the printed keys become `NodeJson`'s. The key stage's error surfaces; on success the member's key is fresh and recorded (map) or absent (array) |
| JsonSerializer.Serializer.Element | basex-core/src/main/java/org/basex/io/serial/json/JsonBasicSerializer.java:51-126 | the error and text are those of `ElemJson`: the key stage's error, or the key prefix followed by the body's text or error; the key is added to the printed keys |
| JsonSerializer.Serializer.Header | basex-core/src/main/java/org/basex/io/serial/json/JsonBasicSerializer.java:52-90 | namespace check, attribute scan, key stage. The error is `HeaderError`; on success the key is recorded and `"key":` written |
| JsonSerializer.Serializer.ScanAttributes | basex-core/src/main/java/org/basex/io/serial/json/JsonBasicSerializer.java:57-79 | the attribute loop computes `ScanSpec` |
| JsonSerializer.Serializer.WriteKey | basex-core/src/main/java/org/basex/io/serial/json/JsonBasicSerializer.java:81-90 | no key, an escape error, a duplicate key, or a key outside a map are errors. Otherwise the escaped key is recorded and written |
| JsonSerializer.Serializer.Body | basex-core/src/main/java/org/basex/io/serial/json/JsonBasicSerializer.java:92-126 | dispatch on the element name: the error and text are those of `BodyJson`, for scalars as for arrays and maps (the members' text between brackets); unknown names are an error; an array's or map's members meet `MembersOk` |
| JsonSerializer.Serializer.NullBody | basex-core/src/main/java/org/basex/io/serial/json/JsonBasicSerializer.java:92-97 | `null` is written; any child other than a comment or PI is an error |
| JsonSerializer.Serializer.BooleanBody | basex-core/src/main/java/org/basex/io/serial/json/JsonBasicSerializer.java:98-103 | no value or an unparsable value is an error; otherwise `true` or `false` as parsed |
| JsonSerializer.Serializer.StringBody | basex-core/src/main/java/org/basex/io/serial/json/JsonBasicSerializer.java:104-108 | the text, escaped, between quotes (empty when there is no text); an escape error otherwise |
| JsonSerializer.Serializer.NumberBody | basex-core/src/main/java/org/basex/io/serial/json/JsonBasicSerializer.java:109-115 | no value or a value that is not a finite number is an error; otherwise the formatted number |
| JsonSerializer.Serializer.Container | basex-core/src/main/java/org/basex/io/serial/json/JsonBasicSerializer.java:116-123 | the error is that of the members (`ContainerJson`); on success the output is the opening bracket, the members' text (`MembersJson`) and the closing bracket, and the members meet the array/map conditions |
| JsonSerializer.Serializer.Children | basex-core/src/main/java/org/basex/io/serial/json/JsonBasicSerializer.java:173-193 | the error and text are those of `MembersJson`: each element child's JSON in document order, separated by commas, keys checked against the keys of this map only; whitespace text, comments and PIs write nothing; other text is an error. On success the members meet `MembersOk`, and key mode, printed keys and level are restored |
| JsonSerializer.Serializer.Member | basex-core/src/main/java/org/basex/io/serial/json/JsonBasicSerializer.java:180-184 | a comma when a member was written before, then the element's JSON (`ElemJson`), or its error |
| JsonSerializer.Serializer.Value | basex-core/src/main/java/org/basex/io/serial/json/JsonBasicSerializer.java:202-213 | the loop computes `ValueOf`: an error on element children, nothing without text children, else the concatenated text |

## Left out

- FLWOR predicate pushdown (`FLWOR.java:118-140`): the rewrite into path predicates or a filter, and the recompilation `return comp(ctx)`, are outside this model. `Flwor.Comp` ends in `PushedDown` with the innermost clause replaced by an `Analysis.pushdown` result, and where set to none.
- The order clause: `Order.comp`, `order.add` and the sorting are not part of this model. `Flwor.Iter` requires an order clause, as the source dereferences it, and returns the value list it hands over.
- `Flwor.Iter` also requires at least one clause: the source's `iter(ctx, vl, iter, 0)` (`FLWOR.java:167`) reads `it[0]`, and `comp` collapses a FLWOR without clauses (`FLWOR.java:101`) before it can be iterated.
- For/let clause compilation and binding, expression compilation, `checkUp`, `removable`/`remove` of sub-expressions, type tests, effective boolean values and expression values are parameters (`Analysis`, `Runtime`, `Sem`, `Evaluator`).
- Errors raised while evaluating where, return and satisfier expressions are not modelled.
- Iterator laziness: iterators are modelled as sequences of bindings that re-open from the start, and a clause's bindings may depend on the outer bindings.
- The static size in `FLWOR.java:143-157` is an unbounded integer; the 64-bit overflow of `long` is not modelled.
- The compile-info messages (`ctx.compInfo`), `plan`, `toString`, `uses` and `invIter` are left out. `invIter` only wraps `invValue`.
- The collation argument of `deep-equal` (`checkColl`) is not modelled. `Eval` ignores the third argument.
- SimpleFunctions.Eval: arguments are evaluated in full before a function looks at them. `empty` and `exists` read one item from the argument's iterator, and `zero-or-one` and `exactly-one` read at most two (`FNSimple.java:61-81`). For an argument that fails only after those items, the source answers and `Eval` propagates the error; the results agree whenever the argument evaluates without error. `deep-equal` is evaluated with the source's comparison `DeepAsWritten`, not the corrected `DeepEqual` (see Findings).
- SimpleFunctions.EmptyExistsComplement: states `empty`/`exists` over the argument's whole value; that only the first item is read is not modelled (see `SimpleFunctions.Eval`).
- SimpleFunctions.SimpleCall.Cmp: returns the replacement or None and updates the call in place; the caller's substitution of the replacement is not modelled.
- `one-or-more` at run time (`FNSimple.java:41-44`) is modelled by its result on the whole value. The iterator size of -1 for an unknown length, which `cmp` already removes when the argument cannot be empty, is not modelled.
- `Quantifier.Atomic` requires at least one clause: the grammar always gives a quantifier one, and the source would index an empty iterator array.
- JSON output details: `indent`, `norm`, the output stream and its encoding are left out. `norm` is treated as the identity.
- `Bln.parse` and the number formatting (`toDouble`, `token(double)`, the NaN/infinity test) are the parameters `BoolParser` and `NumberFormat`.
- JSON strings are sequences of code points. The UTF-8 decoding by `cp`/`cl` is not modelled.
- `JsonConstants` and `Token` are not part of this model, so the values of their constants are assumed: `ESCAPES` is the escape set of section 7 of RFC 8259 (`\ / b f n r t u "`) and `HEX` the upper-case hexadecimal digits. `EscapeChars`, `ValidEscapesReadable` and `RoundTripEscaped` depend on these values.
- Deleted-node (`DEL`) handling is folded into the document case. Atomic values (always an error) and the `startOpen`/`attribute`/`text` callbacks (never reached) are left out.
- JsonSerializer.Serializer.Children: after an error inside the children, the saved key mode, printed keys and level are not restored (the source has no `finally`). The contract states the restored state only on success.
- FunctionItems.Enter / InvValue: the argument binding's run-time type check in `ctx.set` is not modelled. The argument count is required to equal the arity, as callers guarantee.

## Findings

| source | as written | input that shows it | evidently intended | confidence | as-written member | corrected member |
|---|---|---|---|---|---|---|
| src/main/java/org/basex/query/expr/Quantifier.java:53-58 | folds to the `every` flag when the satisfier is statically empty | `every $x in 1 satisfies ()` folds to true; evaluation gives false, since `()` is false for the only tuple | an empty satisfier folds `some` to false; `every` is folded only when a clause is empty | not executed | QuantifierExpr.FoldAsWrittenUnsound | QuantifierExpr.FoldSound |
| src/main/java/org/basex/query/func/FNSimple.java:178-219 | compares the two descendant-or-self walks position by position, so it ignores where each node sits | `deep-equal(<a><b/><c/></a>, <a><b><c/></b></a>)` is true | nodes are equal only with the same number of children, pairwise equal | not executed | DeepEquality.AsWrittenIgnoresNesting | DeepEquality.DeepEqualSymmetric |
