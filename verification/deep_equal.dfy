/**
 * `deep-equal` over two sequences: items are compared pairwise, and two nodes
 * by their structure. The source walks both nodes' descendant-or-self axes in
 * document order and compares them position by position; this module models
 * that walk as written (the comparison evaluation uses), shows that it
 * ignores where a node sits in the tree, and defines the structural
 * comparison the source evidently intends. Reflexivity, symmetry and the
 * attribute checks are proved for both.
 */
module DeepEquality {
  import opened Values

  /** The descendant-or-self axis of a node, in document order (attributes are not on it). */
  function Walk(n: Node): (w: seq<Node>)
    ensures |w| >= 1 && w[0] == n
    decreases n, 1
  {
    [n] + WalkAll(n.children)
  }

  /** The walks of a list of siblings, one after the other. */
  function WalkAll(ns: seq<Node>): seq<Node>
    decreases ns, 0
  {
    if ns == [] then [] else Walk(ns[0]) + WalkAll(ns[1..])
  }

  /** The value of the first attribute with the given name, if any. */
  function Lookup(attrs: seq<Attribute>, q: QName): Option<string> {
    if attrs == [] then None
    else if attrs[0].name == q then Some(attrs[0].value)
    else Lookup(attrs[1..], q)
  }

  /** Lookup finds the first attribute with the name. */
  lemma {:induction false} LookupFirst(attrs: seq<Attribute>, q: QName, m: int)
    requires 0 <= m < |attrs| && attrs[m].name == q
    requires forall y :: 0 <= y < m ==> attrs[y].name != q
    ensures Lookup(attrs, q) == Some(attrs[m].value)
  {
    if m > 0 {
      LookupFirst(attrs[1..], q, m - 1);
    }
  }

  /** Lookup fails exactly when no attribute has the name, and what it finds is some attribute's value. */
  lemma {:induction false} LookupFound(attrs: seq<Attribute>, q: QName)
    ensures Lookup(attrs, q).None? <==> forall y :: 0 <= y < |attrs| ==> attrs[y].name != q
    ensures Lookup(attrs, q).Some? ==> exists y :: 0 <= y < |attrs| && attrs[y].name == q && attrs[y].value == Lookup(attrs, q).value
  {
    if attrs != [] {
      LookupFound(attrs[1..], q);
      if attrs[0].name != q && Lookup(attrs, q).Some? {
        var y :| 0 <= y < |attrs[1..]| && attrs[1..][y].name == q && attrs[1..][y].value == Lookup(attrs, q).value;
        assert attrs[y + 1] == attrs[1..][y];
      }
    }
  }

  /** Every attribute of `a1` has an attribute of the same name and value in `a2`, found by name. */
  predicate AttrsMatched(a1: seq<Attribute>, a2: seq<Attribute>) {
    forall i :: 0 <= i < |a1| ==> Lookup(a2, a1[i].name) == Some(a1[i].value)
  }

  /**
   * The checks the source makes on one pair of nodes of the two walks: same
   * kind, same name for named kinds, same string value for attribute,
   * processing-instruction, comment and text nodes; otherwise the same number
   * of attributes, each matched by name with an equal value.
   */
  predicate StepEq(n1: Node, n2: Node) {
    n1.kind == n2.kind &&
    (HasName(n1.kind) ==> n1.name == n2.name) &&
    if IsLeafKind(n1.kind) then n1.value == n2.value
    else |n1.attrs| == |n2.attrs| && AttrsMatched(n1.attrs, n2.attrs)
  }

  /** Two walks agree position by position and end together. */
  predicate WalkEq(w1: seq<Node>, w2: seq<Node>) {
    |w1| == |w2| && forall j :: 0 <= j < |w1| ==> StepEq(w1[j], w2[j])
  }

  /** The source's test on one pair of items. */
  predicate ItemStepAsWritten(x: Item, y: Item, equiv: (Item, Item) -> bool) {
    equiv(x, y) &&
    (x.NodeItem? || y.NodeItem? ==> x.NodeItem? && y.NodeItem? && WalkEq(Walk(x.node), Walk(y.node)))
  }

  /** `deep` as written: same length, and every pair of items passes the source's test. */
  predicate DeepAsWritten(v1: Value, v2: Value, equiv: (Item, Item) -> bool) {
    |v1| == |v2| && forall i :: 0 <= i < |v1| ==> ItemStepAsWritten(v1[i], v2[i], equiv)
  }

  /** The per-node checks of the walk loop, with the attribute-matching loop and its `found` flag. */
  method CompareNode(n1: Node, n2: Node) returns (ok: bool)
    ensures ok == StepEq(n1, n2)
  {
    if n1.kind != n2.kind {
      return false;
    }
    if HasName(n1.kind) && n1.name != n2.name {
      return false;
    }
    if IsLeafKind(n1.kind) {
      return n1.value == n2.value;
    }
    if |n1.attrs| != |n2.attrs| {
      return false;
    }
    var k := 0;
    while k < |n1.attrs|
      invariant 0 <= k <= |n1.attrs|
      invariant forall x :: 0 <= x < k ==> Lookup(n2.attrs, n1.attrs[x].name) == Some(n1.attrs[x].value)
    {
      var a1 := n1.attrs[k];
      var found := false;
      var m := 0;
      while m < |n2.attrs|
        invariant 0 <= m <= |n2.attrs| && !found
        invariant forall y :: 0 <= y < m ==> n2.attrs[y].name != a1.name
      {
        if n2.attrs[m].name == a1.name {
          LookupFirst(n2.attrs, a1.name, m);
          found := n2.attrs[m].value == a1.value;
          break;
        }
        m := m + 1;
      }
      if !found {
        LookupFound(n2.attrs, a1.name);
        return false;
      }
      k := k + 1;
    }
    return true;
  }

  /** The walk loop: both walks advance together; a mismatch or one walk ending first gives false. */
  method CompareWalks(w1: seq<Node>, w2: seq<Node>) returns (ok: bool)
    ensures ok == WalkEq(w1, w2)
  {
    var j := 0;
    while j < |w1| && j < |w2|
      invariant 0 <= j <= |w1| && j <= |w2|
      invariant forall x :: 0 <= x < j ==> StepEq(w1[x], w2[x])
    {
      var step := CompareNode(w1[j], w2[j]);
      if !step {
        return false;
      }
      j := j + 1;
    }
    return |w1| == |w2|;
  }

  /** `deep` as written: the item loop advances both sequences together (the non-short-circuit `&`). */
  method Deep(v1: Value, v2: Value, equiv: (Item, Item) -> bool) returns (b: bool)
    ensures b == DeepAsWritten(v1, v2, equiv)
  {
    var i := 0;
    while i < |v1| && i < |v2|
      invariant 0 <= i <= |v1| && i <= |v2|
      invariant forall k :: 0 <= k < i ==> ItemStepAsWritten(v1[k], v2[k], equiv)
    {
      var it1 := v1[i];
      var it2 := v2[i];
      if !equiv(it1, it2) {
        return false;
      }
      if it1.NodeItem? || it2.NodeItem? {
        if !(it1.NodeItem? && it2.NodeItem?) {
          return false;
        }
        var same := CompareWalks(Walk(it1.node), Walk(it2.node));
        if !same {
          return false;
        }
      }
      i := i + 1;
    }
    // both sequences must end on the same step
    return |v1| == |v2|;
  }

  /**
   * Structural equality of nodes: the checks of StepEq at the node itself,
   * and the same number of children, pairwise equal (leaf kinds have none).
   */
  predicate NodeDeepEq(n1: Node, n2: Node)
    decreases n1
  {
    StepEq(n1, n2) &&
    |n1.children| == |n2.children| &&
    forall i :: 0 <= i < |n1.children| ==> NodeDeepEq(n1.children[i], n2.children[i])
  }

  /** Items are deep-equal: pairwise `equiv`, never a node paired with an atomic item, nodes structurally equal. */
  predicate ItemDeepEq(x: Item, y: Item, equiv: (Item, Item) -> bool) {
    equiv(x, y) &&
    (x.NodeItem? || y.NodeItem? ==> x.NodeItem? && y.NodeItem? && NodeDeepEq(x.node, y.node))
  }

  /** `deep-equal` of two sequences: same length and pairwise deep-equal items. */
  predicate DeepEqual(v1: Value, v2: Value, equiv: (Item, Item) -> bool) {
    |v1| == |v2| && forall i :: 0 <= i < |v1| ==> ItemDeepEq(v1[i], v2[i], equiv)
  }

  /** No two attributes share a name. */
  predicate UniqueNames(attrs: seq<Attribute>) {
    forall i, j :: 0 <= i < j < |attrs| ==> attrs[i].name != attrs[j].name
  }

  /** Attribute names are unique on every element of the tree, as in any XML document. */
  predicate WellFormed(n: Node)
    decreases n
  {
    UniqueNames(n.attrs) && forall i :: 0 <= i < |n.children| ==> WellFormed(n.children[i])
  }

  /** Walks that agree can be concatenated. */
  lemma WalkEqAppend(a1: seq<Node>, a2: seq<Node>, b1: seq<Node>, b2: seq<Node>)
    requires WalkEq(a1, a2) && WalkEq(b1, b2)
    ensures WalkEq(a1 + b1, a2 + b2)
  {
    forall j | 0 <= j < |a1 + b1| ensures StepEq((a1 + b1)[j], (a2 + b2)[j]) {
      if j >= |a1| {
        assert (a1 + b1)[j] == b1[j - |a1|] && (a2 + b2)[j] == b2[j - |a2|];
      }
    }
  }

  /** Structurally equal nodes pass the source's walk comparison. */
  lemma {:induction false} NodeDeepEqWalks(n1: Node, n2: Node)
    requires NodeDeepEq(n1, n2)
    ensures WalkEq(Walk(n1), Walk(n2))
    decreases n1, 1
  {
    ChildrenWalks(n1.children, n2.children);
    WalkEqAppend([n1], [n2], WalkAll(n1.children), WalkAll(n2.children));
  }

  lemma {:induction false} ChildrenWalks(c1: seq<Node>, c2: seq<Node>)
    requires |c1| == |c2| && forall i :: 0 <= i < |c1| ==> NodeDeepEq(c1[i], c2[i])
    ensures WalkEq(WalkAll(c1), WalkAll(c2))
    decreases c1, 0
  {
    if c1 != [] {
      NodeDeepEqWalks(c1[0], c2[0]);
      ChildrenWalks(c1[1..], c2[1..]);
      WalkEqAppend(Walk(c1[0]), Walk(c2[0]), WalkAll(c1[1..]), WalkAll(c2[1..]));
    }
  }

  /** Structural deep equality implies the source's verdict. */
  lemma DeepEqualImpliesAsWritten(v1: Value, v2: Value, equiv: (Item, Item) -> bool)
    requires DeepEqual(v1, v2, equiv)
    ensures DeepAsWritten(v1, v2, equiv)
  {
    forall i | 0 <= i < |v1| && v1[i].NodeItem?
      ensures WalkEq(Walk(v1[i].node), Walk(v2[i].node))
    {
      NodeDeepEqWalks(v1[i].node, v2[i].node);
    }
  }

  /**
   * The walk comparison does not see where a node sits: `<a><b/><c/></a>`
   * and `<a><b><c/></b></a>` have the same walk, so the source calls them
   * deep-equal, although `a` has two children in one and one in the other.
   */
  lemma AsWrittenIgnoresNesting(equiv: (Item, Item) -> bool)
    ensures var c := Node(Elem, QName("", "c"), [], [], "");
      var flat := Node(Elem, QName("", "a"), [], [Node(Elem, QName("", "b"), [], [], ""), c], "");
      var nested := Node(Elem, QName("", "a"), [], [Node(Elem, QName("", "b"), [], [c], "")], "");
      equiv(NodeItem(flat), NodeItem(nested)) ==>
        DeepAsWritten([NodeItem(flat)], [NodeItem(nested)], equiv) &&
        !DeepEqual([NodeItem(flat)], [NodeItem(nested)], equiv)
  {
    var c := Node(Elem, QName("", "c"), [], [], "");
    var b1 := Node(Elem, QName("", "b"), [], [], "");
    var b2 := Node(Elem, QName("", "b"), [], [c], "");
    var flat := Node(Elem, QName("", "a"), [], [b1, c], "");
    var nested := Node(Elem, QName("", "a"), [], [b2], "");
    assert Walk(c) == [c];
    assert Walk(b1) == [b1];
    assert WalkAll([c]) == [c];
    assert Walk(b2) == [b2, c];
    assert WalkAll([b1, c]) == [b1, c] by {
      assert [b1, c][1..] == [c];
    }
    assert WalkAll([b2]) == [b2, c];
    assert Walk(flat) == [flat, b1, c];
    assert Walk(nested) == [nested, b2, c];
    assert WalkEq(Walk(flat), Walk(nested));
    assert !NodeDeepEq(flat, nested);
    assert !ItemDeepEq([NodeItem(flat)][0], [NodeItem(nested)][0], equiv);
  }

  /** A name-unique attribute list finds each of its attributes. */
  lemma LookupUnique(attrs: seq<Attribute>, m: int)
    requires UniqueNames(attrs) && 0 <= m < |attrs|
    ensures Lookup(attrs, attrs[m].name) == Some(attrs[m].value)
  {
    LookupFirst(attrs, attrs[m].name, m);
  }

  /** The names of an attribute list. */
  function Names(attrs: seq<Attribute>): set<QName> {
    set i | 0 <= i < |attrs| :: attrs[i].name
  }

  /** Unique names: as many names as attributes. */
  lemma {:induction false} NamesCount(attrs: seq<Attribute>)
    requires UniqueNames(attrs)
    ensures |Names(attrs)| == |attrs|
  {
    if attrs != [] {
      var rest := attrs[1..];
      NamesCount(rest);
      assert Names(attrs) == {attrs[0].name} + Names(rest) by {
        forall q | q in Names(attrs) ensures q in {attrs[0].name} + Names(rest) {
          var i :| 0 <= i < |attrs| && attrs[i].name == q;
          if i > 0 {
            assert rest[i - 1] == attrs[i];
          }
        }
      }
      assert attrs[0].name !in Names(rest);
    }
  }

  /** A subset has at most as many elements. */
  lemma {:induction false} SubsetSize<T>(a: set<T>, b: set<T>)
    requires a <= b
    ensures |a| <= |b|
    decreases a
  {
    if a != {} {
      var x :| x in a;
      SubsetSize(a - {x}, b - {x});
    }
  }

  /** A subset with as many elements is the whole set. */
  lemma SubsetSameSize<T>(a: set<T>, b: set<T>)
    requires a <= b && |a| == |b|
    ensures a == b
  {
    if a != b {
      assert b - a != {} by {
        if b - a == {} {
          forall y | y in b ensures y in a {
            assert y !in b - a;
          }
        }
      }
      var x :| x in b - a;
      SubsetSize(a, b - {x});
    }
  }

  /** Matching by name is symmetric between two name-unique attribute lists of the same length. */
  lemma AttrsMatchedSymmetric(a1: seq<Attribute>, a2: seq<Attribute>)
    requires UniqueNames(a1) && UniqueNames(a2) && |a1| == |a2|
    requires AttrsMatched(a1, a2)
    ensures AttrsMatched(a2, a1)
  {
    assert Names(a1) <= Names(a2) by {
      forall q | q in Names(a1) ensures q in Names(a2) {
        var i :| 0 <= i < |a1| && a1[i].name == q;
        LookupFound(a2, q);
      }
    }
    NamesCount(a1);
    NamesCount(a2);
    SubsetSameSize(Names(a1), Names(a2));
    forall j | 0 <= j < |a2| ensures Lookup(a1, a2[j].name) == Some(a2[j].value) {
      assert a2[j].name in Names(a1);
      var i :| 0 <= i < |a1| && a1[i].name == a2[j].name;
      LookupUnique(a2, j);
      LookupUnique(a1, i);
    }
  }

  /** Every well-formed node is structurally equal to itself. */
  lemma {:induction false} NodeDeepEqReflexive(n: Node)
    requires WellFormed(n)
    ensures NodeDeepEq(n, n)
    decreases n
  {
    forall i | 0 <= i < |n.attrs| ensures Lookup(n.attrs, n.attrs[i].name) == Some(n.attrs[i].value) {
      LookupUnique(n.attrs, i);
    }
    forall i | 0 <= i < |n.children| ensures NodeDeepEq(n.children[i], n.children[i]) {
      NodeDeepEqReflexive(n.children[i]);
    }
  }

  /** Structural equality of well-formed nodes is symmetric. */
  lemma {:induction false} NodeDeepEqSymmetric(n1: Node, n2: Node)
    requires WellFormed(n1) && WellFormed(n2) && NodeDeepEq(n1, n2)
    ensures NodeDeepEq(n2, n1)
    decreases n1
  {
    if !IsLeafKind(n1.kind) {
      AttrsMatchedSymmetric(n1.attrs, n2.attrs);
    }
    forall i | 0 <= i < |n2.children| ensures NodeDeepEq(n2.children[i], n1.children[i]) {
      NodeDeepEqSymmetric(n1.children[i], n2.children[i]);
    }
  }

  /** `deep-equal` is reflexive on well-formed nodes when `equiv` is reflexive. */
  lemma DeepEqualReflexive(v: Value, equiv: (Item, Item) -> bool)
    requires forall i :: 0 <= i < |v| ==> equiv(v[i], v[i])
    requires forall i :: 0 <= i < |v| && v[i].NodeItem? ==> WellFormed(v[i].node)
    ensures DeepEqual(v, v, equiv)
  {
    forall i | 0 <= i < |v| && v[i].NodeItem? ensures NodeDeepEq(v[i].node, v[i].node) {
      NodeDeepEqReflexive(v[i].node);
    }
  }

  /** `deep-equal` is symmetric on well-formed nodes when `equiv` is symmetric. */
  lemma DeepEqualSymmetric(v1: Value, v2: Value, equiv: (Item, Item) -> bool)
    requires forall x, y :: equiv(x, y) ==> equiv(y, x)
    requires forall i :: 0 <= i < |v1| && v1[i].NodeItem? ==> WellFormed(v1[i].node)
    requires forall i :: 0 <= i < |v2| && v2[i].NodeItem? ==> WellFormed(v2[i].node)
    requires DeepEqual(v1, v2, equiv)
    ensures DeepEqual(v2, v1, equiv)
  {
    forall i | 0 <= i < |v2| && v2[i].NodeItem? ensures NodeDeepEq(v2[i].node, v1[i].node) {
      NodeDeepEqSymmetric(v1[i].node, v2[i].node);
    }
  }

  /** Attributes are compared regardless of their order: an element equals itself with its attributes reordered. */
  lemma AttributeOrderIrrelevant(n: Node, attrs: seq<Attribute>)
    requires WellFormed(n) && UniqueNames(attrs) && multiset(attrs) == multiset(n.attrs)
    ensures NodeDeepEq(n, n.(attrs := attrs))
  {
    var m := n.(attrs := attrs);
    assert |attrs| == |multiset(attrs)| == |n.attrs|;
    forall i | 0 <= i < |n.attrs| ensures Lookup(attrs, n.attrs[i].name) == Some(n.attrs[i].value) {
      assert n.attrs[i] in multiset(attrs);
      var j :| 0 <= j < |attrs| && attrs[j] == n.attrs[i];
      LookupUnique(attrs, j);
    }
    forall i | 0 <= i < |n.children| ensures NodeDeepEq(n.children[i], m.children[i]) {
      NodeDeepEqReflexive(n.children[i]);
    }
  }

  /** An attribute with the same name but another value makes two elements unequal. */
  lemma AttributeValueMismatch(n1: Node, n2: Node, i: int, j: int)
    requires n1.kind == Elem && UniqueNames(n2.attrs)
    requires 0 <= i < |n1.attrs| && 0 <= j < |n2.attrs|
    requires n1.attrs[i].name == n2.attrs[j].name && n1.attrs[i].value != n2.attrs[j].value
    ensures !NodeDeepEq(n1, n2)
  {
    LookupUnique(n2.attrs, j);
  }

  /** Every node on the walk of a well-formed node has attributes with unique names. */
  lemma {:induction false} WalkUnique(n: Node)
    requires WellFormed(n)
    ensures forall j :: 0 <= j < |Walk(n)| ==> UniqueNames(Walk(n)[j].attrs)
    decreases n, 1
  {
    WalkAllUnique(n.children);
    var rest := WalkAll(n.children);
    assert Walk(n) == [n] + rest;
    forall j | 0 <= j < |Walk(n)| ensures UniqueNames(Walk(n)[j].attrs) {
      if j > 0 {
        assert Walk(n)[j] == rest[j - 1];
      }
    }
  }

  lemma {:induction false} WalkAllUnique(ns: seq<Node>)
    requires forall i :: 0 <= i < |ns| ==> WellFormed(ns[i])
    ensures forall j :: 0 <= j < |WalkAll(ns)| ==> UniqueNames(WalkAll(ns)[j].attrs)
    decreases ns, 0
  {
    if ns != [] {
      WalkUnique(ns[0]);
      var tail := ns[1..];
      assert forall i :: 0 <= i < |tail| ==> tail[i] == ns[i + 1];
      WalkAllUnique(tail);
      var a: seq<Node>, b: seq<Node> := Walk(ns[0]), WalkAll(tail);
      forall j | 0 <= j < |a + b| ensures UniqueNames((a + b)[j].attrs) {
        if j >= |a| {
          assert (a + b)[j] == b[j - |a|];
        }
      }
    }
  }

  /** The source's per-node checks are symmetric on nodes with unique attribute names. */
  lemma StepEqSymmetric(n1: Node, n2: Node)
    requires UniqueNames(n1.attrs) && UniqueNames(n2.attrs)
    requires StepEq(n1, n2)
    ensures StepEq(n2, n1)
  {
    if !IsLeafKind(n1.kind) {
      AttrsMatchedSymmetric(n1.attrs, n2.attrs);
    }
  }

  /** The source's walk comparison is symmetric on walks of well-formed nodes. */
  lemma WalkEqSymmetric(n1: Node, n2: Node)
    requires WellFormed(n1) && WellFormed(n2)
    requires WalkEq(Walk(n1), Walk(n2))
    ensures WalkEq(Walk(n2), Walk(n1))
  {
    WalkUnique(n1);
    WalkUnique(n2);
    var w1, w2 := Walk(n1), Walk(n2);
    forall j | 0 <= j < |w2| ensures StepEq(w2[j], w1[j]) {
      StepEqSymmetric(w1[j], w2[j]);
    }
  }

  /** `deep-equal` as the source computes it is symmetric on well-formed nodes when `equiv` is symmetric. */
  lemma DeepAsWrittenSymmetric(v1: Value, v2: Value, equiv: (Item, Item) -> bool)
    requires forall x, y :: equiv(x, y) ==> equiv(y, x)
    requires forall i :: 0 <= i < |v1| && v1[i].NodeItem? ==> WellFormed(v1[i].node)
    requires forall i :: 0 <= i < |v2| && v2[i].NodeItem? ==> WellFormed(v2[i].node)
    requires DeepAsWritten(v1, v2, equiv)
    ensures DeepAsWritten(v2, v1, equiv)
  {
    forall i | 0 <= i < |v2| && v2[i].NodeItem? ensures WalkEq(Walk(v2[i].node), Walk(v1[i].node)) {
      WalkEqSymmetric(v1[i].node, v2[i].node);
    }
  }

  /**
   * The source's comparison also tells apart two elements with an attribute
   * of the same name but another value: the walks differ at the elements
   * themselves.
   */
  lemma AsWrittenAttributeValueMismatch(n1: Node, n2: Node, i: int, j: int, equiv: (Item, Item) -> bool)
    requires n1.kind == Elem && UniqueNames(n2.attrs)
    requires 0 <= i < |n1.attrs| && 0 <= j < |n2.attrs|
    requires n1.attrs[i].name == n2.attrs[j].name && n1.attrs[i].value != n2.attrs[j].value
    ensures !WalkEq(Walk(n1), Walk(n2))
    ensures !DeepAsWritten([NodeItem(n1)], [NodeItem(n2)], equiv)
  {
    LookupUnique(n2.attrs, j);
    assert !StepEq(Walk(n1)[0], Walk(n2)[0]);
    assert [NodeItem(n1)][0] == NodeItem(n1) && [NodeItem(n2)][0] == NodeItem(n2);
  }
}
