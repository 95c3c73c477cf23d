// The basic JSON serializer: it writes an XML representation of JSON
// (elements `null`, `boolean`, `string`, `number`, `array` and `map` in the
// functions namespace, map members named by a `key` attribute) as JSON text.

module JsonSerializer {
  import opened Values
  import opened JsonEscape

  /** The namespace every element of the representation must be in. */
  const FN_URI: string := "http://www.w3.org/2005/xpath-functions"

  /** Reads `true`/`false` (and whatever else the engine accepts) as a boolean. */
  type BoolParser = string -> Option<bool>
  /** Formats the text of a `number` element; `None` for NaN and infinities. */
  type NumberFormat = string -> Option<string>

  predicate IsWs(c: char) {
    c == ' ' || c == '\t' || c == '\n' || c == '\r'
  }

  predicate AllWs(s: string) {
    forall i :: 0 <= i < |s| ==> IsWs(s[i])
  }

  // ---------------------------------------------------------------------
  // Attributes of an element

  /** What the attribute scan of an element collects. */
  datatype AttrInfo = AttrInfo(key: Option<string>, escaped: bool, escapedKey: bool)

  /** How the scan treats one attribute. */
  datatype AttrRole =
    | Foreign                  // in some other namespace: skipped
    | KeyAttr(v: string)
    | EscapedKeyAttr(b: bool)
    | EscapedAttr(b: bool)
    | Rejected(e: JsonError)

  function Classify(a: Attribute, typ: string, pk: bool, pb: BoolParser): AttrRole {
    if a.name.uri != "" then
      if a.name.uri != FN_URI then Foreign else Rejected(InvalidAttribute)
    else if a.name.local == "key" then KeyAttr(a.value)
    else if a.name.local == "escaped-key" && pk then
      if pb(a.value).Some? then EscapedKeyAttr(pb(a.value).value) else Rejected(InvalidAttributeValue)
    else if a.name.local == "escaped" && typ == "string" then
      if pb(a.value).Some? then EscapedAttr(pb(a.value).value) else Rejected(InvalidAttributeValue)
    else Rejected(InvalidAttribute)
  }

  function Apply(info: AttrInfo, role: AttrRole): Result<AttrInfo, JsonError> {
    match role
    case Foreign => Ok(info)
    case KeyAttr(v) => Ok(info.(key := Some(v)))
    case EscapedKeyAttr(b) => Ok(info.(escapedKey := b))
    case EscapedAttr(b) => Ok(info.(escaped := b))
    case Rejected(e) => Err(e)
  }

  /** The outcome of scanning `attrs[i..]` in document order, having collected `info`. */
  function ScanFrom(attrs: seq<Attribute>, i: nat, info: AttrInfo, typ: string, pk: bool, pb: BoolParser): Result<AttrInfo, JsonError>
    requires i <= |attrs|
    decreases |attrs| - i
  {
    if i == |attrs| then Ok(info)
    else
      match Apply(info, Classify(attrs[i], typ, pk, pb))
      case Err(e) => Err(e)
      case Ok(next) => ScanFrom(attrs, i + 1, next, typ, pk, pb)
  }

  /** The outcome of scanning all attributes of an element. */
  function ScanSpec(attrs: seq<Attribute>, typ: string, pk: bool, pb: BoolParser): Result<AttrInfo, JsonError> {
    ScanFrom(attrs, 0, AttrInfo(None, false, false), typ, pk, pb)
  }

  predicate IsKeyAttr(a: Attribute) {
    a.name == QName("", "key")
  }

  predicate HasKeyAttr(attrs: seq<Attribute>) {
    exists i :: 0 <= i < |attrs| && IsKeyAttr(attrs[i])
  }

  /** The scan fails exactly when some attribute is rejected, and with the first such error. */
  lemma {:induction false} ScanFromFails(attrs: seq<Attribute>, i: nat, info: AttrInfo, typ: string, pk: bool, pb: BoolParser)
    requires i <= |attrs|
    ensures ScanFrom(attrs, i, info, typ, pk, pb).Err? <==>
            exists j :: i <= j < |attrs| && Classify(attrs[j], typ, pk, pb).Rejected?
    ensures ScanFrom(attrs, i, info, typ, pk, pb).Err? ==>
            exists j :: i <= j < |attrs| && Classify(attrs[j], typ, pk, pb) == Rejected(ScanFrom(attrs, i, info, typ, pk, pb).error) &&
                        forall l :: i <= l < j ==> !Classify(attrs[l], typ, pk, pb).Rejected?
    decreases |attrs| - i
  {
    if i < |attrs| {
      var role := Classify(attrs[i], typ, pk, pb);
      if !role.Rejected? {
        ScanFromFails(attrs, i + 1, Apply(info, role).value, typ, pk, pb);
      }
    }
  }

  lemma ScanFails(attrs: seq<Attribute>, typ: string, pk: bool, pb: BoolParser)
    ensures ScanSpec(attrs, typ, pk, pb).Err? <==>
            exists i :: 0 <= i < |attrs| && Classify(attrs[i], typ, pk, pb).Rejected?
    ensures ScanSpec(attrs, typ, pk, pb).Err? ==>
            exists i :: 0 <= i < |attrs| && Classify(attrs[i], typ, pk, pb) == Rejected(ScanSpec(attrs, typ, pk, pb).error) &&
                        forall j :: 0 <= j < i ==> !Classify(attrs[j], typ, pk, pb).Rejected?
  {
    ScanFromFails(attrs, 0, AttrInfo(None, false, false), typ, pk, pb);
  }

  /** A successful scan ends with a key exactly when it started with one or met a `key` attribute. */
  lemma {:induction false} ScanFromKey(attrs: seq<Attribute>, i: nat, info: AttrInfo, typ: string, pk: bool, pb: BoolParser)
    requires i <= |attrs|
    requires ScanFrom(attrs, i, info, typ, pk, pb).Ok?
    ensures ScanFrom(attrs, i, info, typ, pk, pb).value.key.Some? <==>
            info.key.Some? || exists j :: i <= j < |attrs| && IsKeyAttr(attrs[j])
    ensures ScanFrom(attrs, i, info, typ, pk, pb).value.key.Some? ==>
            ScanFrom(attrs, i, info, typ, pk, pb).value.key == info.key ||
            exists j :: i <= j < |attrs| && IsKeyAttr(attrs[j]) && attrs[j].value == ScanFrom(attrs, i, info, typ, pk, pb).value.key.value
    decreases |attrs| - i
  {
    if i < |attrs| {
      var role := Classify(attrs[i], typ, pk, pb);
      ScanFromKey(attrs, i + 1, Apply(info, role).value, typ, pk, pb);
    }
  }

  /** A successful scan has found a key exactly when the element has a `key` attribute. */
  lemma ScanKey(attrs: seq<Attribute>, typ: string, pk: bool, pb: BoolParser)
    requires ScanSpec(attrs, typ, pk, pb).Ok?
    ensures ScanSpec(attrs, typ, pk, pb).value.key.Some? <==> HasKeyAttr(attrs)
    ensures ScanSpec(attrs, typ, pk, pb).value.key.Some? ==>
            exists i :: 0 <= i < |attrs| && IsKeyAttr(attrs[i]) && attrs[i].value == ScanSpec(attrs, typ, pk, pb).value.key.value
  {
    ScanFromKey(attrs, 0, AttrInfo(None, false, false), typ, pk, pb);
  }

  // ---------------------------------------------------------------------
  // Keys and values of an element

  /** The key stage of an element: namespace, attributes and the (escaped) key. */
  function ElemKey(n: Node, pk: bool, pb: BoolParser): Result<Option<string>, JsonError> {
    if n.name.uri != FN_URI then Err(InvalidNamespace)
    else
      match ScanSpec(n.attrs, n.name.local, pk, pb)
      case Err(e) => Err(e)
      case Ok(info) => KeyOf(info, pk)
  }

  /** The key the scanned attributes give: required and escaped in a map, refused elsewhere. */
  function KeyOf(info: AttrInfo, pk: bool): Result<Option<string>, JsonError> {
    if pk then
      if info.key.None? then Err(NoKey)
      else
        match EscapeSpec(info.key.value, info.escapedKey)
        case Err(e) => Err(e)
        case Ok(k) => Ok(Some(k))
    else if info.key.Some? then Err(KeyNotAllowed)
    else Ok(None)
  }

  /** The error of a key stage with outcome `k`, given the keys printed so far. */
  function KeyError(k: Result<Option<string>, JsonError>, keys: set<string>): Option<JsonError> {
    match k
    case Err(e) => Some(e)
    case Ok(k) => if k.Some? && k.value in keys then Some(DuplicateKey) else None
  }

  /** The error the key stage raises, if any, given the keys printed so far. */
  function HeaderError(n: Node, pk: bool, keys: set<string>, pb: BoolParser): Option<JsonError> {
    KeyError(ElemKey(n, pk, pb), keys)
  }

  /** The key a map member is printed under. */
  function MemberKey(n: Node, pb: BoolParser): Option<string> {
    var h := ElemKey(n, true, pb);
    if h.Ok? then h.value else None
  }

  function AddKey(keys: set<string>, k: Option<string>): set<string> {
    if k.Some? then keys + {k.value} else keys
  }

  function KeyPrefix(k: Option<string>): string {
    if k.Some? then "\"" + k.value + "\":" else ""
  }

  /** The concatenated text children, in document order. */
  function Texts(cs: seq<Node>): string
    decreases |cs|
  {
    if cs == [] then ""
    else Texts(cs[..|cs| - 1]) + (if cs[|cs| - 1].kind == Text then cs[|cs| - 1].value else "")
  }

  /**
   * The string value of a scalar element: an error when it has element
   * children, nothing when it has no text child, else its text.
   */
  function ValueOf(cs: seq<Node>): Result<Option<string>, JsonError> {
    if exists i :: 0 <= i < |cs| && cs[i].kind == Elem then Err(NoChildElements)
    else if forall i :: 0 <= i < |cs| ==> cs[i].kind != Text then Ok(None)
    else Ok(Some(Texts(cs)))
  }

  /** The error of a `boolean` or `number` element whose text must be accepted by `ok`. */
  function ScalarError(v: Result<Option<string>, JsonError>, ok: string -> bool): Option<JsonError> {
    if v.Err? then Some(v.error)
    else if v.value.None? then Some(NoValue)
    else if !ok(v.value.value) then Some(InvalidValue)
    else None
  }

  predicate OnlyCommentsAndPIs(cs: seq<Node>) {
    forall i :: 0 <= i < |cs| ==> cs[i].kind == Comment || cs[i].kind == PI
  }

  /**
   * What the members of an array (`pk` false) or map (`pk` true) must satisfy:
   * text between them is whitespace; map members have keys, no two alike;
   * array members have no key attribute.
   */
  predicate MembersOk(cs: seq<Node>, pk: bool, pb: BoolParser) {
    MembersUpTo(cs, |cs|, pk, pb)
  }

  /** `MembersOk` for the first `k` members. */
  predicate MembersUpTo(cs: seq<Node>, k: nat, pk: bool, pb: BoolParser)
    requires k <= |cs|
  {
    (forall i :: 0 <= i < k && cs[i].kind == Text ==> AllWs(cs[i].value)) &&
    (pk ==> (forall i :: 0 <= i < k && cs[i].kind == Elem ==> MemberKey(cs[i], pb).Some?) &&
            (forall i, j :: 0 <= i < j < k && cs[i].kind == Elem && cs[j].kind == Elem ==>
                              MemberKey(cs[i], pb) != MemberKey(cs[j], pb))) &&
    (!pk ==> forall i :: 0 <= i < k && cs[i].kind == Elem ==> !HasKeyAttr(cs[i].attrs))
  }

  // ---------------------------------------------------------------------
  // The JSON text of a representation

  /** The text written for a node, and the keys printed in the enclosing map afterwards. */
  datatype Written = Written(text: string, keys: set<string>)

  function ErrorOf<T>(r: Result<T, JsonError>): Option<JsonError> {
    if r.Err? then Some(r.error) else None
  }

  /** `t` written before the outcome `r` of what follows. */
  function Then(t: string, r: Result<Written, JsonError>): Result<Written, JsonError> {
    if r.Err? then r else Ok(Written(t + r.value.text, r.value.keys))
  }

  function PrependText(t: string, r: Result<string, JsonError>): Result<string, JsonError> {
    if r.Err? then r else Ok(t + r.value)
  }

  /**
   * What serializing node `n` writes, with `pk` telling whether members carry
   * keys and `keys` the keys printed so far: a document's children in turn,
   * an element as JSON, nothing for other nodes.
   */
  function NodeJson(n: Node, pk: bool, keys: set<string>, pb: BoolParser, num: NumberFormat): Result<Written, JsonError>
    decreases n, 2
  {
    if n.kind == Doc then DocJson(n.children, pk, keys, pb, num)
    else if n.kind == Elem then ElemJson(n, pk, keys, pb, num)
    else Ok(Written("", keys))
  }

  /** The children of a document, one after the other, sharing the printed keys. */
  function DocJson(cs: seq<Node>, pk: bool, keys: set<string>, pb: BoolParser, num: NumberFormat): Result<Written, JsonError>
    decreases cs, 0
  {
    if cs == [] then Ok(Written("", keys))
    else
      match NodeJson(cs[0], pk, keys, pb, num)
      case Err(e) => Err(e)
      case Ok(w) => Then(w.text, DocJson(cs[1..], pk, w.keys, pb, num))
  }

  /** An element: its key stage, then its body after the key prefix. */
  function ElemJson(n: Node, pk: bool, keys: set<string>, pb: BoolParser, num: NumberFormat): Result<Written, JsonError>
    decreases n, 1
  {
    match HeaderError(n, pk, keys, pb)
    case Some(e) => Err(e)
    case None =>
      var k := ElemKey(n, pk, pb).value;
      match BodyJson(n, ScanSpec(n.attrs, n.name.local, pk, pb).value.escaped, pb, num)
      case Err(e) => Err(e)
      case Ok(t) => Ok(Written(KeyPrefix(k) + t, AddKey(keys, k)))
  }

  /** The body of an element, chosen by its local name. */
  function BodyJson(n: Node, escaped: bool, pb: BoolParser, num: NumberFormat): Result<string, JsonError>
    decreases n, 0
  {
    var typ := n.name.local;
    if typ == "null" then NullJson(n.children)
    else if typ == "boolean" then BooleanJson(n.children, pb)
    else if typ == "string" then StringJson(n.children, escaped)
    else if typ == "number" then NumberJson(n.children, num)
    else if typ == "array" then ContainerJson(n.children, false, '[', ']', pb, num)
    else if typ == "map" then ContainerJson(n.children, true, '{', '}', pb, num)
    else Err(InvalidElement)
  }

  /** `null`: only comments and processing instructions may appear inside. */
  function NullJson(cs: seq<Node>): Result<string, JsonError> {
    if OnlyCommentsAndPIs(cs) then Ok("null") else Err(NoChildren)
  }

  /** `boolean`: the text, read by the boolean parser. */
  function BooleanJson(cs: seq<Node>, pb: BoolParser): Result<string, JsonError> {
    var v := ValueOf(cs);
    match ScalarError(v, s => pb(s).Some?)
    case Some(e) => Err(e)
    case None => Ok(if pb(v.value.value).value then "true" else "false")
  }

  /** `string`: the text, escaped and quoted; no text gives the empty string. */
  function StringJson(cs: seq<Node>, escaped: bool): Result<string, JsonError> {
    var v := ValueOf(cs);
    if v.Err? then Err(v.error)
    else if v.value.None? then Ok("\"\"")
    else
      match EscapeSpec(v.value.value, escaped)
      case Err(_) => Err(BadEscape)
      case Ok(t) => Ok("\"" + t + "\"")
  }

  /** `number`: the text, formatted as a number. */
  function NumberJson(cs: seq<Node>, num: NumberFormat): Result<string, JsonError> {
    var v := ValueOf(cs);
    match ScalarError(v, s => num(s).Some?)
    case Some(e) => Err(e)
    case None => Ok(num(v.value.value).value)
  }

  /** `array` or `map`: the members between their brackets. */
  function ContainerJson(cs: seq<Node>, pk: bool, open: char, close: char, pb: BoolParser, num: NumberFormat): Result<string, JsonError>
    decreases cs, 1
  {
    match MembersJson(cs, pk, {}, false, pb, num)
    case Err(e) => Err(e)
    case Ok(t) => Ok([open] + t + [close])
  }

  /**
   * The members of an array or map: element children separated by commas
   * (`comma` tells whether one was written before), whitespace text, comments
   * and processing instructions skipped, other text refused.
   */
  function MembersJson(cs: seq<Node>, pk: bool, keys: set<string>, comma: bool, pb: BoolParser, num: NumberFormat): Result<string, JsonError>
    decreases cs, 0
  {
    if cs == [] then Ok("")
    else if cs[0].kind == Elem then
      match ElemJson(cs[0], pk, keys, pb, num)
      case Err(e) => Err(e)
      case Ok(w) => PrependText((if comma then "," else "") + w.text, MembersJson(cs[1..], pk, w.keys, true, pb, num))
    else if cs[0].kind == Text && !AllWs(cs[0].value) then Err(NoTextNodes)
    else MembersJson(cs[1..], pk, keys, comma, pb, num)
  }

  // ---------------------------------------------------------------------
  // The serializer

  class Serializer {
    /** Whether members are written with a key (inside a map). */
    var printKey: bool
    /** The keys written so far in the current map. */
    var printedKeys: set<string>
    /** The nesting depth of arrays and maps. */
    var level: int
    /** The text written so far. */
    var out: string
    const parseBool: BoolParser
    const number: NumberFormat

    constructor(pb: BoolParser, num: NumberFormat)
      ensures !printKey && printedKeys == {} && level == 0 && out == []
      ensures parseBool == pb && number == num
    {
      printKey := false;
      printedKeys := {};
      level := 0;
      out := [];
      parseBool := pb;
      number := num;
    }

    /** Serializes a node: a document's children in turn, an element as JSON, nothing else. */
    method WriteNode(n: Node) returns (err: Option<JsonError>)
      modifies this
      decreases n, 2
      ensures err.None? ==> printKey == old(printKey) && level == old(level)
      ensures err.None? ==> old(printedKeys) <= printedKeys && old(out) <= out
      ensures n.kind != Doc && n.kind != Elem ==> err.None? && out == old(out) && printedKeys == old(printedKeys)
      ensures n.kind == Elem ==> HeaderError(n, old(printKey), old(printedKeys), parseBool).Some? ==>
                err == HeaderError(n, old(printKey), old(printedKeys), parseBool)
      ensures n.kind == Elem && err.None? && old(printKey) ==>
                MemberKey(n, parseBool).Some? && MemberKey(n, parseBool).value !in old(printedKeys) &&
                printedKeys == old(printedKeys) + {MemberKey(n, parseBool).value}
      ensures n.kind == Elem && err.None? && !old(printKey) ==>
                !HasKeyAttr(n.attrs) && printedKeys == old(printedKeys)
      ensures err == ErrorOf(NodeJson(n, old(printKey), old(printedKeys), parseBool, number))
      ensures err.None? ==> out == old(out) + NodeJson(n, old(printKey), old(printedKeys), parseBool, number).value.text &&
                            printedKeys == NodeJson(n, old(printKey), old(printedKeys), parseBool, number).value.keys
    {
      if n.kind == Doc {
        ghost var w := "";
        var i := 0;
        assert n.children[0..] == n.children;
        ThenNothing(DocJson(n.children, printKey, printedKeys, parseBool, number));
        while i < |n.children|
          invariant 0 <= i <= |n.children|
          invariant printKey == old(printKey) && level == old(level)
          invariant old(printedKeys) <= printedKeys && old(out) <= out
          invariant out == old(out) + w
          invariant Then(w, DocJson(n.children[i..], printKey, printedKeys, parseBool, number)) ==
                    DocJson(n.children, old(printKey), old(printedKeys), parseBool, number)
        {
          ghost var keys0 := printedKeys;
          err := WriteNode(n.children[i]);
          DocStep(n.children, i, printKey, keys0, parseBool, number);
          if err.Some? { return; }
          ghost var t := NodeJson(n.children[i], printKey, keys0, parseBool, number).value.text;
          ThenTwice(w, t, DocJson(n.children[i + 1..], printKey, printedKeys, parseBool, number));
          AppendTwice(old(out), w, t);
          w := w + t;
          i := i + 1;
        }
        assert n.children[i..] == [];
        assert w + "" == w;
        err := None;
      } else if n.kind == Elem {
        err := Element(n);
        if err.None? {
          MemberStage(n, old(printKey), old(printedKeys), parseBool);
        }
      } else {
        err := None;
      }
    }

    /** Serializes an element: its key stage, then its body. */
    method Element(n: Node) returns (err: Option<JsonError>)
      requires n.kind == Elem
      modifies this
      decreases n, 1
      ensures err.None? ==> printKey == old(printKey) && level == old(level) && old(out) <= out
      ensures HeaderError(n, old(printKey), old(printedKeys), parseBool).Some? ==>
                err == HeaderError(n, old(printKey), old(printedKeys), parseBool)
      ensures err.None? ==> HeaderError(n, old(printKey), old(printedKeys), parseBool).None?
      ensures err == ErrorOf(ElemJson(n, old(printKey), old(printedKeys), parseBool, number))
      ensures err.None? ==> out == old(out) + ElemJson(n, old(printKey), old(printedKeys), parseBool, number).value.text &&
                            printedKeys == ElemJson(n, old(printKey), old(printedKeys), parseBool, number).value.keys
    {
      var info;
      err, info := Header(n);
      if err.Some? { return; }
      err := Body(n, info.escaped);
      if err.None? {
        AppendTwice(old(out), KeyPrefix(ElemKey(n, printKey, parseBool).value), BodyJson(n, info.escaped, parseBool, number).value);
      }
    }

    /** The key stage: namespace, attributes, then the key a map member is written under. */
    method Header(n: Node) returns (err: Option<JsonError>, info: AttrInfo)
      requires n.kind == Elem
      modifies this`printedKeys, this`out
      ensures err == HeaderError(n, printKey, old(printedKeys), parseBool)
      ensures err.None? ==>
                var k := ElemKey(n, printKey, parseBool).value;
                info == ScanSpec(n.attrs, n.name.local, printKey, parseBool).value &&
                printedKeys == AddKey(old(printedKeys), k) && out == old(out) + KeyPrefix(k)
    {
      info := AttrInfo(None, false, false);
      if n.name.uri != FN_URI { return Some(InvalidNamespace), info; }
      var scan := ScanAttributes(n.attrs, n.name.local, printKey, parseBool);
      if scan.Err? { return Some(scan.error), info; }
      info := scan.value;
      err := WriteKey(info);
    }

    /** The key of a map member, escaped and checked against the keys printed so far; no key elsewhere. */
    method WriteKey(info: AttrInfo) returns (err: Option<JsonError>)
      modifies this`printedKeys, this`out
      ensures err == KeyError(KeyOf(info, printKey), old(printedKeys))
      ensures err.None? ==>
                printedKeys == AddKey(old(printedKeys), KeyOf(info, printKey).value) &&
                out == old(out) + KeyPrefix(KeyOf(info, printKey).value)
    {
      if printKey {
        if info.key.None? { return Some(NoKey); }
        var key := Escape(info.key.value, info.escapedKey);
        if key.Err? { return Some(key.error); }
        assert KeyOf(info, printKey) == Ok(Some(key.value));
        if key.value in printedKeys { return Some(DuplicateKey); }
        printedKeys := printedKeys + {key.value};
        out := out + KeyPrefix(Some(key.value));
      } else {
        if info.key.Some? { return Some(KeyNotAllowed); }
        assert KeyOf(info, printKey) == Ok(None);
      }
      err := None;
    }

    /** The attribute loop of the key stage. */
    static method ScanAttributes(attrs: seq<Attribute>, typ: string, pk: bool, pb: BoolParser)
      returns (r: Result<AttrInfo, JsonError>)
      ensures r == ScanSpec(attrs, typ, pk, pb)
    {
      var info := AttrInfo(None, false, false);
      var i := 0;
      while i < |attrs|
        invariant 0 <= i <= |attrs|
        invariant ScanFrom(attrs, i, info, typ, pk, pb) == ScanSpec(attrs, typ, pk, pb)
      {
        var a := attrs[i];
        if a.name.uri != "" {
          if a.name.uri != FN_URI {
            i := i + 1;
            continue;
          }
          return Err(InvalidAttribute);
        }
        if a.name.local == "key" {
          info := info.(key := Some(a.value));
        } else if a.name.local == "escaped-key" && pk {
          var b := pb(a.value);
          if b.None? { return Err(InvalidAttributeValue); }
          info := info.(escapedKey := b.value);
        } else if a.name.local == "escaped" && typ == "string" {
          var b := pb(a.value);
          if b.None? { return Err(InvalidAttributeValue); }
          info := info.(escaped := b.value);
        } else {
          return Err(InvalidAttribute);
        }
        i := i + 1;
      }
      return Ok(info);
    }

    /** The body of an element, chosen by its local name. */
    method Body(n: Node, escaped: bool) returns (err: Option<JsonError>)
      requires n.kind == Elem
      modifies this
      decreases n, 0
      ensures err.None? ==> printKey == old(printKey) && level == old(level) && printedKeys == old(printedKeys)
      ensures err.None? ==> old(out) <= out
      ensures err == ErrorOf(BodyJson(n, escaped, parseBool, number))
      ensures err.None? ==> out == old(out) + BodyJson(n, escaped, parseBool, number).value
      ensures err.None? && n.name.local == "array" ==> MembersOk(n.children, false, parseBool)
      ensures err.None? && n.name.local == "map" ==> MembersOk(n.children, true, parseBool)
    {
      var typ := n.name.local;
      if typ == "null" {
        err := NullBody(n.children);
      } else if typ == "boolean" {
        err := BooleanBody(n.children);
      } else if typ == "string" {
        err := StringBody(n.children, escaped);
      } else if typ == "number" {
        err := NumberBody(n.children);
      } else if typ == "array" {
        err := Container(n.children, false, '[', ']');
      } else if typ == "map" {
        err := Container(n.children, true, '{', '}');
      } else {
        err := Some(InvalidElement);
      }
    }

    /** `null`: only comments and processing instructions may appear inside. */
    method NullBody(cs: seq<Node>) returns (err: Option<JsonError>)
      modifies this`out
      ensures err == (if OnlyCommentsAndPIs(cs) then None else Some(NoChildren))
      ensures err.None? ==> out == old(out) + "null"
      ensures err == ErrorOf(NullJson(cs)) && (err.None? ==> out == old(out) + NullJson(cs).value)
    {
      out := out + "null";
      var i := 0;
      while i < |cs|
        invariant 0 <= i <= |cs|
        invariant forall j :: 0 <= j < i ==> cs[j].kind == Comment || cs[j].kind == PI
        invariant out == old(out) + "null"
      {
        if cs[i].kind != Comment && cs[i].kind != PI {
          return Some(NoChildren);
        }
        i := i + 1;
      }
      err := None;
    }

    /** `boolean`: the text, read by the boolean parser. */
    method BooleanBody(cs: seq<Node>) returns (err: Option<JsonError>)
      modifies this`out
      ensures err == ScalarError(ValueOf(cs), s => parseBool(s).Some?)
      ensures err.None? ==> out == old(out) + (if parseBool(ValueOf(cs).value.value).value then "true" else "false")
      ensures err == ErrorOf(BooleanJson(cs, parseBool)) && (err.None? ==> out == old(out) + BooleanJson(cs, parseBool).value)
    {
      var value := Value(cs);
      if value.Err? { return Some(value.error); }
      if value.value.None? { return Some(NoValue); }
      var b := parseBool(value.value.value);
      if b.None? { return Some(InvalidValue); }
      out := out + (if b.value then "true" else "false");
      err := None;
    }

    /** `string`: the text, escaped and quoted. */
    method StringBody(cs: seq<Node>, escaped: bool) returns (err: Option<JsonError>)
      modifies this`out
      ensures var v := ValueOf(cs);
              err == (if v.Err? then Some(v.error)
                      else if v.value.Some? && EscapeSpec(v.value.value, escaped).Err? then Some(BadEscape)
                      else None)
      ensures var v := ValueOf(cs);
              err.None? ==> out == old(out) + "\"" + (if v.value.Some? then EscapeSpec(v.value.value, escaped).value else "") + "\""
      ensures err == ErrorOf(StringJson(cs, escaped)) && (err.None? ==> out == old(out) + StringJson(cs, escaped).value)
    {
      var value := Value(cs);
      if value.Err? { return Some(value.error); }
      var text := "";
      if value.value.Some? {
        var e := Escape(value.value.value, escaped);
        if e.Err? { return Some(e.error); }
        text := e.value;
      }
      out := out + "\"" + text + "\"";
      err := None;
    }

    /** `number`: the text, formatted as a number. */
    method NumberBody(cs: seq<Node>) returns (err: Option<JsonError>)
      modifies this`out
      ensures err == ScalarError(ValueOf(cs), s => number(s).Some?)
      ensures err.None? ==> out == old(out) + number(ValueOf(cs).value.value).value
      ensures err == ErrorOf(NumberJson(cs, number)) && (err.None? ==> out == old(out) + NumberJson(cs, number).value)
    {
      var value := Value(cs);
      if value.Err? { return Some(value.error); }
      if value.value.None? { return Some(NoValue); }
      var d := number(value.value.value);
      if d.None? { return Some(InvalidValue); }
      out := out + d.value;
      err := None;
    }

    /** `array` or `map`: the members between their brackets. */
    method Container(cs: seq<Node>, pk: bool, open: char, close: char) returns (err: Option<JsonError>)
      modifies this
      decreases cs, 1
      ensures err.None? ==> printKey == old(printKey) && level == old(level) && printedKeys == old(printedKeys)
      ensures err.None? ==> MembersOk(cs, pk, parseBool) && old(out) + [open] <= out && out[|out| - 1] == close
      ensures err == ErrorOf(ContainerJson(cs, pk, open, close, parseBool, number))
      ensures err.None? ==> out == old(out) + ContainerJson(cs, pk, open, close, parseBool, number).value
    {
      out := out + [open];
      ghost var start := out;
      err := Children(cs, pk);
      if err.Some? { return; }
      ghost var mid := out;
      out := out + [close];
      assert start <= mid <= out;
    }

    /** Serializes the members of an array or map, then restores the enclosing state. */
    method Children(cs: seq<Node>, pk: bool) returns (err: Option<JsonError>)
      modifies this
      decreases cs, 0
      ensures err.None? ==> printKey == old(printKey) && printedKeys == old(printedKeys) && level == old(level)
      ensures err.None? ==> old(out) <= out && MembersOk(cs, pk, parseBool)
      ensures err == ErrorOf(MembersJson(cs, pk, {}, false, parseBool, number))
      ensures err.None? ==> out == old(out) + MembersJson(cs, pk, {}, false, parseBool, number).value
    {
      var p := printKey;
      var keys := printedKeys;
      printKey := pk;
      printedKeys := {};
      level := level + 1;
      var comma := false;
      ghost var w := "";
      var i := 0;
      assert cs[0..] == cs;
      PrependNothing(MembersJson(cs, pk, {}, false, parseBool, number));
      while i < |cs|
        invariant 0 <= i <= |cs|
        invariant printKey == pk && level == old(level) + 1 && old(out) <= out
        invariant out == old(out) + w
        invariant PrependText(w, MembersJson(cs[i..], pk, printedKeys, comma, parseBool, number)) ==
                  MembersJson(cs, pk, {}, false, parseBool, number)
      {
        var child := cs[i];
        ghost var keys0 := printedKeys;
        ghost var comma0 := comma;
        MembersStep(cs, i, pk, keys0, comma0, parseBool, number);
        if child.kind == Elem {
          err := Member(child, comma);
          if err.Some? { return; }
          ghost var t := (if comma0 then "," else "") + ElemJson(child, pk, keys0, parseBool, number).value.text;
          PrependTextTwice(w, t, MembersJson(cs[i + 1..], pk, printedKeys, true, parseBool, number));
          AppendTwice(old(out), w, t);
          w := w + t;
          comma := true;
        } else if child.kind == Text && !AllWs(child.value) {
          return Some(NoTextNodes);
        }
        i := i + 1;
      }
      assert cs[i..] == [];
      assert w + "" == w;
      MembersJsonWellFormed(cs, pk, {}, false, parseBool, number);
      level := level - 1;
      printKey := p;
      printedKeys := keys;
      err := None;
    }

    /** One element member of an array or map, after a comma unless it is the first. */
    method Member(child: Node, comma: bool) returns (err: Option<JsonError>)
      requires child.kind == Elem
      modifies this
      decreases child, 3
      ensures err == ErrorOf(ElemJson(child, old(printKey), old(printedKeys), parseBool, number))
      ensures err.None? ==> printKey == old(printKey) && level == old(level)
      ensures err.None? ==>
                out == old(out) + ((if comma then "," else "") + ElemJson(child, old(printKey), old(printedKeys), parseBool, number).value.text) &&
                printedKeys == ElemJson(child, old(printKey), old(printedKeys), parseBool, number).value.keys
    {
      if comma { out := out + ","; }
      assert NodeJson(child, printKey, printedKeys, parseBool, number) == ElemJson(child, printKey, printedKeys, parseBool, number);
      err := WriteNode(child);
      if err.None? {
        AppendTwice(old(out), if comma then "," else "", ElemJson(child, old(printKey), old(printedKeys), parseBool, number).value.text);
      }
    }

    /** Reads the text of a scalar element. */
    static method Value(cs: seq<Node>) returns (r: Result<Option<string>, JsonError>)
      ensures r == ValueOf(cs)
    {
      var tb: Option<string> := None;
      var i := 0;
      while i < |cs|
        invariant 0 <= i <= |cs|
        invariant forall j :: 0 <= j < i ==> cs[j].kind != Elem
        invariant tb.None? <==> forall j :: 0 <= j < i ==> cs[j].kind != Text
        invariant tb.Some? ==> tb.value == Texts(cs[..i])
      {
        assert cs[..i + 1][..i] == cs[..i];
        if cs[i].kind == Text {
          if tb.None? {
            TextsNone(cs[..i]);
            tb := Some("");
          }
          tb := Some(tb.value + cs[i].value);
        } else if cs[i].kind == Elem {
          return Err(NoChildElements);
        }
        i := i + 1;
      }
      assert cs[..i] == cs;
      return if tb.None? then Ok(None) else Ok(Some(tb.value));
    }
  }

  /** Without text children the concatenated text is empty. */
  lemma {:induction false} TextsNone(cs: seq<Node>)
    requires forall i :: 0 <= i < |cs| ==> cs[i].kind != Text
    ensures Texts(cs) == ""
    decreases |cs|
  {
    if cs != [] {
      TextsNone(cs[..|cs| - 1]);
    }
  }

  /** After a member's key stage: its key, or the absence of a key attribute in an array. */
  lemma MemberStage(n: Node, pk: bool, keys: set<string>, pb: BoolParser)
    requires HeaderError(n, pk, keys, pb).None?
    ensures pk ==> MemberKey(n, pb).Some? && MemberKey(n, pb).value !in keys &&
                   AddKey(keys, ElemKey(n, pk, pb).value) == keys + {MemberKey(n, pb).value}
    ensures !pk ==> !HasKeyAttr(n.attrs) && AddKey(keys, ElemKey(n, pk, pb).value) == keys
  {
    if !pk {
      ScanKey(n.attrs, n.name.local, false, pb);
    }
  }

  /** Appending in two steps appends the concatenation. */
  lemma AppendTwice(s: string, t: string, u: string)
    ensures s + t + u == s + (t + u)
  {
  }

  lemma ThenNothing(r: Result<Written, JsonError>)
    ensures Then("", r) == r
  {
    if r.Ok? { assert "" + r.value.text == r.value.text; }
  }

  lemma PrependNothing(r: Result<string, JsonError>)
    ensures PrependText("", r) == r
  {
    if r.Ok? { assert "" + r.value == r.value; }
  }

  lemma ThenTwice(t: string, u: string, r: Result<Written, JsonError>)
    ensures Then(t, Then(u, r)) == Then(t + u, r)
  {
    if r.Ok? { AppendTwice(t, u, r.value.text); }
  }

  lemma PrependTextTwice(t: string, u: string, r: Result<string, JsonError>)
    ensures PrependText(t, PrependText(u, r)) == PrependText(t + u, r)
  {
    if r.Ok? { AppendTwice(t, u, r.value); }
  }

  /** One child of a document: the rest of the document follows what it writes. */
  lemma DocStep(cs: seq<Node>, i: nat, pk: bool, keys: set<string>, pb: BoolParser, num: NumberFormat)
    requires i < |cs|
    ensures var r := NodeJson(cs[i], pk, keys, pb, num);
            DocJson(cs[i..], pk, keys, pb, num) ==
            (if r.Err? then Err(r.error) else Then(r.value.text, DocJson(cs[i + 1..], pk, r.value.keys, pb, num)))
  {
    assert cs[i..][0] == cs[i] && cs[i..][1..] == cs[i + 1..];
  }

  /** One member of an array or map: the rest of the members follow what it writes. */
  lemma MembersStep(cs: seq<Node>, i: nat, pk: bool, keys: set<string>, comma: bool, pb: BoolParser, num: NumberFormat)
    requires i < |cs|
    ensures cs[i].kind == Elem ==>
              var r := ElemJson(cs[i], pk, keys, pb, num);
              MembersJson(cs[i..], pk, keys, comma, pb, num) ==
              (if r.Err? then Err(r.error)
               else PrependText((if comma then "," else "") + r.value.text, MembersJson(cs[i + 1..], pk, r.value.keys, true, pb, num)))
    ensures cs[i].kind == Text && !AllWs(cs[i].value) ==> MembersJson(cs[i..], pk, keys, comma, pb, num) == Err(NoTextNodes)
    ensures cs[i].kind != Elem && !(cs[i].kind == Text && !AllWs(cs[i].value)) ==>
              MembersJson(cs[i..], pk, keys, comma, pb, num) == MembersJson(cs[i + 1..], pk, keys, comma, pb, num)
  {
    assert cs[i..][0] == cs[i] && cs[i..][1..] == cs[i + 1..];
  }

  /**
   * The members of an array or map have JSON text only when they are well
   * formed: whitespace between them, distinct keys not printed before in a
   * map, no key attribute in an array.
   */
  lemma {:induction false} MembersJsonWellFormed(cs: seq<Node>, pk: bool, keys: set<string>, comma: bool, pb: BoolParser, num: NumberFormat)
    requires MembersJson(cs, pk, keys, comma, pb, num).Ok?
    ensures MembersOk(cs, pk, pb)
    ensures pk ==> forall i :: 0 <= i < |cs| && cs[i].kind == Elem ==> MemberKey(cs[i], pb).value !in keys
    decreases cs
  {
    if cs != [] {
      var c := cs[0];
      var keys' := keys;
      var comma' := comma;
      if c.kind == Elem {
        var w := ElemJson(c, pk, keys, pb, num).value;
        MemberStage(c, pk, keys, pb);
        keys' := w.keys;
        comma' := true;
      }
      MembersJsonWellFormed(cs[1..], pk, keys', comma', pb, num);
      var tail := cs[1..];
      assert forall i :: 1 <= i < |cs| ==> cs[i] == tail[i - 1];
      if pk {
        forall i, j | 0 <= i < j < |cs| && cs[i].kind == Elem && cs[j].kind == Elem
          ensures MemberKey(cs[i], pb) != MemberKey(cs[j], pb)
        {
          if i > 0 {
            assert MemberKey(tail[i - 1], pb) != MemberKey(tail[j - 1], pb);
          }
        }
      }
    }
  }
}
