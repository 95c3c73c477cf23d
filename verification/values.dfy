/** Items, sequences and XML nodes: the values every part of the engine works on. */
module Values {

  datatype Option<+T> = None | Some(value: T)

  datatype Result<+T, +E> = Ok(value: T) | Err(error: E)

  /** Errors a query can raise. The three cardinality errors carry the source's own codes. */
  datatype QueryError =
    | ZeroOrOneError   // EXP01: zero-or-one saw a second item
    | ExactlyOneError  // EXP1: exactly-one saw no item or a second one
    | OneOrMoreError   // EXP1M: one-or-more saw no item
    | EbvError         // the effective boolean value of the sequence is undefined
    | CastError        // a function item cannot be coerced to a function type
    | Raised(code: string)  // an error raised by code outside this model

  /** A qualified name: namespace URI and local part. */
  datatype QName = QName(uri: string, local: string)

  datatype Kind = Doc | Elem | Attr | Text | Comment | PI

  /** An attribute as it hangs off its element. */
  datatype Attribute = Attribute(name: QName, value: string)

  /**
   * A node. `name` is meaningful for elements, attributes and processing
   * instructions; `value` is the string value of attribute, text, comment and
   * processing-instruction nodes; `attrs` and `children` are those of an element
   * (a document node has children only).
   */
  datatype Node = Node(kind: Kind, name: QName, attrs: seq<Attribute>, children: seq<Node>, value: string)

  /** Node kinds whose `qname()` is not null. */
  predicate HasName(k: Kind) {
    k == Elem || k == Attr || k == PI
  }

  /** Node kinds that deep-equal compares by string value. */
  predicate IsLeafKind(k: Kind) {
    k == Attr || k == PI || k == Comment || k == Text
  }

  /** An item: an atomic value or a node. */
  datatype Item = Bool(b: bool) | Num(n: int) | Str(s: string) | NodeItem(node: Node)

  /** A value is a finite, ordered sequence of items. */
  type Value = seq<Item>
}
