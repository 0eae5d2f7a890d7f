/**
 * `XmlNode`: a wrapper around one DOM node that edits the tree it belongs
 * to. A wrapper is a `Handle`; a wrapper around the document acts on the
 * document element (`DOMNode()`). Each operation is a function from the old
 * document element to an `Outcome` (the new document element and the
 * wrapper returned), and a method on the `Document` that performs it.
 */
module XmlNode {
  import opened Wrappers
  import opened Php
  import opened Dom
  import opened DomLaws
  import opened ArrayTree

  /** The document element after an operation, and the node handle it returns. */
  datatype Outcome = Outcome(root: Option<Element>, node: Handle)

  /** `DOMNode()`: the element a wrapper acts on. */
  function Target(root: Option<Element>, node: Handle): (r: Result<Path, Error>)
    requires ValidHandle(root, node)
    ensures r.Ok? ==> root.Some? && ValidPath(root.value, r.value)
    ensures r.Err? <==> node.DocumentHandle? && root.None?
    ensures node.ElementHandle? ==> r == Ok(node.path)
  {
    match node
    case DocumentHandle => if root.Some? then Ok([]) else Err(TypeError)
    case ElementHandle(p) => Ok(p)
  }

  /**
   * `createChildNode`: without a URI (an `empty()` one, so "0" too) the name
   * has every byte outside `[\w:]` replaced by `_`; with a URI it is used as
   * given.
   */
  function NewElement(name: string, uri: string): (r: Result<Element, Error>)
    ensures r.Ok? ==> r.value.nsDecls == [] && r.value.attrs == [] && r.value.children == []
    ensures IsEmptyString(uri) ==> (r.Ok? <==> |name| > 0 && !IsDigit(name[0]))
    ensures IsEmptyString(uri) && r.Ok? ==> r.value.name == Sanitise(name) && r.value.uri == ""
    ensures !IsEmptyString(uri) ==> (r.Ok? <==> IsXmlName(name))
    ensures !IsEmptyString(uri) && r.Ok? ==> r.value.name == name && r.value.uri == uri
  {
    if IsEmptyString(uri) then
      SanitisedNameValid(name);
      CreateElement(Sanitise(name))
    else CreateElementNS(uri, name)
  }

  /** The node `addTextNode` appends: a CDATA section when `cdata`, a text node otherwise. */
  function TextOf(text: string, cdata: bool): Node {
    if cdata then CDataNode(text) else TextNode(text)
  }

  /** `addTextNode` on one element: a PHP-empty text ("" or "0") adds nothing. */
  function WithText(e: Element, text: string, cdata: bool): (r: Element)
    ensures IsEmptyString(text) ==> r == e
    ensures !IsEmptyString(text) ==> r.children == e.children + [TextOf(text, cdata)]
    ensures r.name == e.name && r.uri == e.uri && r.nsDecls == e.nsDecls && r.attrs == e.attrs
  {
    if IsEmptyString(text) then e else AppendChild(e, TextOf(text, cdata))
  }

  /**
   * `createChild($name, $text, $uri)`: the element is created first, then
   * appended, with its text, as the target's last child.
   */
  function CreateChildSpec(root: Option<Element>, node: Handle, name: string, text: string, uri: string): Result<Outcome, Error>
    requires ValidHandle(root, node)
  {
    var x :- NewElement(name, uri);
    var p :- Target(root, node);
    var n := |At(root.value, p).children|;
    Ok(Outcome(Some(AppendChildAt(root.value, p, ElementNode(WithText(x, text, false)))), ElementHandle(p + [n])))
  }

  /**
   * `createChildBefore($name, $text)`: the new element is inserted into the
   * parent's children just before this node; the document element has the
   * document as parent, which takes no second element.
   */
  function CreateChildBeforeSpec(root: Option<Element>, node: Handle, name: string, text: string): Result<Outcome, Error>
    requires ValidHandle(root, node)
  {
    var x :- NewElement(name, "");
    var p :- Target(root, node);
    if |p| == 0 then Err(HierarchyError)
    else
      ValidParent(root.value, p);
      Ok(Outcome(Some(InsertChildAt(root.value, Parent(p), Index(p), ElementNode(WithText(x, text, false)))), ElementHandle(p)))
  }

  /** `addTextNode($text, $escapeChars)`: returns the same wrapper. */
  function AddTextNodeSpec(root: Option<Element>, node: Handle, text: string, cdata: bool): Result<Outcome, Error>
    requires ValidHandle(root, node)
  {
    if IsEmptyString(text) then Ok(Outcome(root, node))
    else
      var p :- Target(root, node);
      Ok(Outcome(Some(AppendChildAt(root.value, p, TextOf(text, cdata))), node))
  }

  /**
   * `addAttribute($name, $value)`: `createAttribute` rejects an invalid name
   * before the target is looked up; no prefix check here.
   */
  function AddAttributeSpec(root: Option<Element>, node: Handle, name: string, value: string): Result<Outcome, Error>
    requires ValidHandle(root, node)
  {
    if !IsXmlName(name) then Err(InvalidName)
    else
      var p :- Target(root, node);
      Ok(Outcome(Some(SetAttrAt(root.value, p, name, value)), node))
  }

  /** `selectSingleNode($xPath)` from the wrapped element, as a child-name path. */
  function SelectSingleNodeSpec(root: Option<Element>, node: Handle, xpath: string): Result<Outcome, Error>
    requires ValidHandle(root, node)
  {
    var p :- Target(root, node);
    match SelectSingle(At(root.value, p), xpath)
    case None => Err(NodeNotFound)
    case Some(q) => Ok(Outcome(root, ElementHandle(p + q)))
  }

  /** `removeNode()`: returns the parent, which is the document for the document element. */
  function RemoveNodeSpec(root: Option<Element>, node: Handle): Result<Outcome, Error>
    requires ValidHandle(root, node)
  {
    var p :- Target(root, node);
    Ok(Outcome(RemoveNodeAt(root.value, p), if |p| == 0 then DocumentHandle else ElementHandle(Parent(p))))
  }

  /** `addNamespace($prefix, $uri)`: declared on the document element, whichever node is wrapped. */
  function AddNamespaceSpec(root: Option<Element>, prefix: string, uri: string): Result<Option<Element>, Error> {
    if root.None? then Err(TypeError)
    else Ok(Some(root.value.(nsDecls := SetNs(root.value.nsDecls, prefix, uri))))
  }

  /** The state after an operation: the outcome on success, the old tree on failure. */
  predicate Performed(s: Result<Outcome, Error>, before: Option<Element>, after: Option<Element>, r: Result<Handle, Error>) {
    if s.Ok? then after == s.value.root && r == Ok(s.value.node) else after == before && r == Err(s.error)
  }

  method CreateChild(doc: Document, node: Handle, name: string, text: string, uri: string) returns (r: Result<Handle, Error>)
    requires ValidHandle(doc.root, node)
    modifies doc
    ensures Performed(CreateChildSpec(old(doc.root), node, name, text, uri), old(doc.root), doc.root, r)
    ensures doc.prefixes == old(doc.prefixes)
    ensures doc.preserveWhiteSpace == old(doc.preserveWhiteSpace) && doc.formatOutput == old(doc.formatOutput)
  {
    var working :- NewElement(name, uri);
    working := WithText(working, text, false);
    var p :- Target(doc.root, node);
    var n := |At(doc.root.value, p).children|;
    doc.root := Some(AppendChildAt(doc.root.value, p, ElementNode(working)));
    r := Ok(ElementHandle(p + [n]));
  }

  method CreateChildBefore(doc: Document, node: Handle, name: string, text: string) returns (r: Result<Handle, Error>)
    requires ValidHandle(doc.root, node)
    modifies doc
    ensures Performed(CreateChildBeforeSpec(old(doc.root), node, name, text), old(doc.root), doc.root, r)
    ensures doc.prefixes == old(doc.prefixes)
    ensures doc.preserveWhiteSpace == old(doc.preserveWhiteSpace) && doc.formatOutput == old(doc.formatOutput)
  {
    var working :- NewElement(name, "");
    working := WithText(working, text, false);
    var p :- Target(doc.root, node);
    if |p| == 0 {
      return Err(HierarchyError);
    }
    ValidParent(doc.root.value, p);
    doc.root := Some(InsertChildAt(doc.root.value, Parent(p), Index(p), ElementNode(working)));
    r := Ok(ElementHandle(p));
  }

  method AddTextNode(doc: Document, node: Handle, text: string, cdata: bool) returns (r: Result<Handle, Error>)
    requires ValidHandle(doc.root, node)
    modifies doc
    ensures Performed(AddTextNodeSpec(old(doc.root), node, text, cdata), old(doc.root), doc.root, r)
    ensures doc.prefixes == old(doc.prefixes)
    ensures doc.preserveWhiteSpace == old(doc.preserveWhiteSpace) && doc.formatOutput == old(doc.formatOutput)
  {
    if IsEmptyString(text) {
      return Ok(node);
    }
    var p :- Target(doc.root, node);
    doc.root := Some(AppendChildAt(doc.root.value, p, TextOf(text, cdata)));
    r := Ok(node);
  }

  method AddAttribute(doc: Document, node: Handle, name: string, value: string) returns (r: Result<Handle, Error>)
    requires ValidHandle(doc.root, node)
    modifies doc
    ensures Performed(AddAttributeSpec(old(doc.root), node, name, value), old(doc.root), doc.root, r)
    ensures doc.prefixes == old(doc.prefixes)
    ensures doc.preserveWhiteSpace == old(doc.preserveWhiteSpace) && doc.formatOutput == old(doc.formatOutput)
  {
    if !IsXmlName(name) {
      return Err(InvalidName);
    }
    var p :- Target(doc.root, node);
    doc.root := Some(SetAttrAt(doc.root.value, p, name, value));
    r := Ok(node);
  }

  method RemoveNode(doc: Document, node: Handle) returns (r: Result<Handle, Error>)
    requires ValidHandle(doc.root, node)
    modifies doc
    ensures Performed(RemoveNodeSpec(old(doc.root), node), old(doc.root), doc.root, r)
    ensures doc.prefixes == old(doc.prefixes)
    ensures doc.preserveWhiteSpace == old(doc.preserveWhiteSpace) && doc.formatOutput == old(doc.formatOutput)
  {
    var p :- Target(doc.root, node);
    doc.root := RemoveNodeAt(doc.root.value, p);
    r := Ok(if |p| == 0 then DocumentHandle else ElementHandle(Parent(p)));
  }

  /** `removeTagName($tag)`: searches the whole document, whichever node is wrapped. */
  method RemoveTagName(doc: Document, tag: string) returns (removed: bool)
    modifies doc
    ensures (doc.root, removed) == RemoveFirstTag(old(doc.root), tag)
    ensures doc.prefixes == old(doc.prefixes)
    ensures doc.preserveWhiteSpace == old(doc.preserveWhiteSpace) && doc.formatOutput == old(doc.formatOutput)
  {
    if doc.root.None? {
      return false;
    }
    var found := FindTag(doc.root.value, tag);
    if found.None? {
      return false;
    }
    doc.root := RemoveNodeAt(doc.root.value, found.value);
    removed := true;
  }

  method AddNamespace(doc: Document, prefix: string, uri: string) returns (r: Result<(), Error>)
    modifies doc
    ensures var s := AddNamespaceSpec(old(doc.root), prefix, uri);
      if s.Ok? then doc.root == s.value && r.Ok? else doc.root == old(doc.root) && r == Err(s.error)
    ensures doc.prefixes == old(doc.prefixes)
    ensures doc.preserveWhiteSpace == old(doc.preserveWhiteSpace) && doc.formatOutput == old(doc.formatOutput)
  {
    if doc.root.None? {
      return Err(TypeError);
    }
    var e := doc.root.value;
    doc.root := Some(e.(nsDecls := SetNs(e.nsDecls, prefix, uri)));
    r := Ok(());
  }

  // --------------------------------------------------------------- innerXML

  /**
   * The three parts `innerXML` makes of its argument: text appended to the
   * node's value, markup parsed and appended as children, and trailing text
   * appended as a text node. `Plain` is a string without markup.
   */
  datatype InnerParts = Plain(text: string) | Parts(lead: string, markup: string, trail: string)

  /** The string `innerXML` works on: every `<br>` closed. */
  function CloseBreaks(s: string): string {
    Replace(s, "<br>", "<br/>")
  }

  /** The text after the last `>`, when there is any, split off the rest. */
  function SplitTrail(s: string): (r: (string, string))
    ensures r.0 + r.1 == s
    ensures r.1 != [] ==> '>' in r.0 && '>' !in r.1 && r.0[|r.0| - 1] == '>'
    ensures r.1 == [] ==> r.0 == s
  {
    match LastIndexOf(s, '>')
    case Some(close) =>
      if close < |s| - 1 then (s[..close + 1], s[close + 1..]) else (s, "")
    case None => (s, "")
  }

  /** `innerXML`'s split as written: the trailing text is lost when the rest has no `<`, and dropped when it is "0". */
  function InnerSplitAsWritten(s0: string): InnerParts {
    var s := CloseBreaks(s0);
    var (body, endText) := SplitTrail(s);
    match IndexOf(body, "<")
    case None => Plain(body)
    case Some(open) => Parts(body[..open], body[open..], if IsEmptyString(endText) then "" else endText)
  }

  /** The split as intended: nothing of the argument is lost. */
  function InnerSplit(s0: string): InnerParts {
    var s := CloseBreaks(s0);
    var (body, endText) := SplitTrail(s);
    match IndexOf(body, "<")
    case None => Plain(s)
    case Some(open) => Parts(body[..open], body[open..], endText)
  }

  function Joined(parts: InnerParts): string {
    match parts
    case Plain(t) => t
    case Parts(a, m, b) => a + m + b
  }

  // ---------------------------------------------------------------- toArray

  /** `_toArray` on an array: a leaf goes through `$func` when one is given, and is kept otherwise. */
  function ToArray(arr: seq<(Key, Tree)>, func: Option<string -> string>): seq<(Key, Tree)> {
    MapTree(Branch(arr), if func.Some? then func.value else s => s).entries
  }
}
