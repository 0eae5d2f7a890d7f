/**
 * The part of the DOM the library drives, as values: an element carries its
 * qualified name, namespace URI, namespace declarations, attributes and
 * children in document order. A position in a tree is a path of child
 * indices from the document element. The document itself is a `Document`
 * object whose document element the library's methods replace in place.
 */
module Dom {
  import opened Wrappers
  import opened Php

  datatype Attr = Attr(name: string, value: string)

  /** An `xmlns:prefix="uri"` declaration (libxml keeps these apart from attributes). */
  datatype NsDecl = NsDecl(prefix: string, uri: string)

  datatype Element = Element(name: string, uri: string, nsDecls: seq<NsDecl>, attrs: seq<Attr>, children: seq<Node>)

  datatype Node = ElementNode(element: Element) | TextNode(text: string) | CDataNode(text: string)

  /** Child indices from an element down to one of its descendant elements. */
  type Path = seq<nat>

  predicate ValidPath(e: Element, p: Path)
    decreases |p|
  {
    |p| == 0 || (p[0] < |e.children| && e.children[p[0]].ElementNode? && ValidPath(e.children[p[0]].element, p[1..]))
  }

  function At(e: Element, p: Path): Element
    requires ValidPath(e, p)
    decreases |p|
  {
    if |p| == 0 then e else At(e.children[p[0]].element, p[1..])
  }

  /** The tree with the element at `p` replaced by `x`. */
  function ReplaceAt(e: Element, p: Path, x: Element): Element
    requires ValidPath(e, p)
    decreases |p|
  {
    if |p| == 0 then x
    else e.(children := e.children[p[0] := ElementNode(ReplaceAt(e.children[p[0]].element, p[1..], x))])
  }

  /** The parent of a non-root element, and the element's index among the parent's children. */
  function Parent(p: Path): Path
    requires |p| > 0
  {
    p[..|p| - 1]
  }

  function Index(p: Path): nat
    requires |p| > 0
  {
    p[|p| - 1]
  }

  /** A valid path ends in an element child of the element its parent path leads to. */
  lemma {:induction false} ValidParent(e: Element, p: Path)
    requires ValidPath(e, p) && |p| > 0
    ensures ValidPath(e, Parent(p)) && Index(p) < |At(e, Parent(p)).children|
    ensures At(e, Parent(p)).children[Index(p)] == ElementNode(At(e, p))
    decreases |p|
  {
    if |p| > 1 {
      var c := e.children[p[0]].element;
      ValidParent(c, p[1..]);
      assert Parent(p)[1..] == Parent(p[1..]);
    }
  }

  // ---------------------------------------------------------------- children

  function AppendChild(e: Element, c: Node): Element {
    e.(children := e.children + [c])
  }

  function InsertAt<T>(s: seq<T>, i: nat, x: T): seq<T>
    requires i <= |s|
  {
    s[..i] + [x] + s[i..]
  }

  function RemoveAt<T>(s: seq<T>, i: nat): seq<T>
    requires i < |s|
  {
    s[..i] + s[i + 1..]
  }

  // -------------------------------------------------------------- attributes

  function AttrLookup(attrs: seq<Attr>, name: string): Option<string> {
    if attrs == [] then None
    else if attrs[0].name == name then Some(attrs[0].value)
    else AttrLookup(attrs[1..], name)
  }

  function RemoveAttr(attrs: seq<Attr>, name: string): seq<Attr> {
    if attrs == [] then []
    else if attrs[0].name == name then RemoveAttr(attrs[1..], name)
    else [attrs[0]] + RemoveAttr(attrs[1..], name)
  }

  /**
   * `setAttributeNode`: an existing attribute of the same name is unlinked
   * and the new one is added after the remaining attributes.
   */
  function SetAttr(attrs: seq<Attr>, name: string, value: string): seq<Attr> {
    RemoveAttr(attrs, name) + [Attr(name, value)]
  }

  predicate UniqueAttrNames(attrs: seq<Attr>) {
    forall i, j :: 0 <= i < j < |attrs| ==> attrs[i].name != attrs[j].name
  }

  // -------------------------------------------------- namespace declarations

  function NsLookup(ds: seq<NsDecl>, prefix: string): Option<string> {
    if ds == [] then None
    else if ds[0].prefix == prefix then Some(ds[0].uri)
    else NsLookup(ds[1..], prefix)
  }

  /**
   * `setAttributeNS(XMLNS, "xmlns:prefix", uri)`: the declaration of that
   * prefix is updated in place, or a new one is added last.
   */
  function SetNs(ds: seq<NsDecl>, prefix: string, uri: string): seq<NsDecl> {
    if ds == [] then [NsDecl(prefix, uri)]
    else if ds[0].prefix == prefix then [NsDecl(prefix, uri)] + ds[1..]
    else [ds[0]] + SetNs(ds[1..], prefix, uri)
  }

  /** `foreach ($list as $prefix => $uri) addNamespace($prefix, $uri)`. */
  function ApplyNs(ds: seq<NsDecl>, list: seq<(string, string)>): seq<NsDecl>
    decreases |list|
  {
    if list == [] then ds else ApplyNs(SetNs(ds, list[0].0, list[0].1), list[1..])
  }

  predicate UniquePrefixes(ds: seq<NsDecl>) {
    forall i, j :: 0 <= i < j < |ds| ==> ds[i].prefix != ds[j].prefix
  }

  // ------------------------------------------------------------------- names

  /** `preg_replace('/[^\w:]/', '_', $name)`. */
  function Sanitise(name: string): string {
    seq(|name|, i requires 0 <= i < |name| => if IsWordChar(name[i]) || name[i] == ':' then name[i] else '_')
  }

  /** Bytes of a multi-byte UTF-8 sequence are accepted as name characters. */
  predicate IsNameStartChar(c: char) {
    ('a' <= c <= 'z') || ('A' <= c <= 'Z') || c == '_' || c == ':' || c as int >= 0x80
  }

  predicate IsNameChar(c: char) {
    IsNameStartChar(c) || IsDigit(c) || c == '-' || c == '.'
  }

  /** The name check of `createElement`, `createElementNS` and `createAttribute`. */
  predicate IsXmlName(s: string) {
    |s| > 0 && IsNameStartChar(s[0]) && forall i :: 0 < i < |s| ==> IsNameChar(s[i])
  }

  function CreateElement(name: string): (r: Result<Element, Error>)
    ensures r.Ok? <==> IsXmlName(name)
    ensures r.Ok? ==> r.value == Element(name, "", [], [], [])
  {
    if IsXmlName(name) then Ok(Element(name, "", [], [], [])) else Err(InvalidName)
  }

  function CreateElementNS(uri: string, name: string): (r: Result<Element, Error>)
    ensures r.Ok? <==> IsXmlName(name)
    ensures r.Ok? ==> r.value == Element(name, uri, [], [], [])
  {
    if IsXmlName(name) then Ok(Element(name, uri, [], [], [])) else Err(InvalidName)
  }

  /** `renameNode`: a new name, the same URI, declarations, attributes and children. */
  function Rename(e: Element, name: string): Element {
    e.(name := name)
  }

  // ------------------------------------------------------------------- paths

  /** `preg_match('~^/[^/]~', $p)` then `substr($p, 1)`. */
  function StripLeadingSlash(p: string): string {
    if |p| >= 2 && p[0] == '/' && p[1] != '/' then p[1..] else p
  }

  function SplitOn(s: string, c: char): (parts: seq<string>)
    ensures |parts| > 0
    ensures forall i :: 0 <= i < |parts| ==> c !in parts[i]
    decreases |s|
  {
    if c in s then [Before(s, c)] + SplitOn(After(s, c), c) else [s]
  }

  function JoinOn(parts: seq<string>, c: char): string
    requires |parts| > 0
  {
    if |parts| == 1 then parts[0] else parts[0] + [c] + JoinOn(parts[1..], c)
  }

  /** `p` leads from `e` through children named `steps[0]`, `steps[1]`, ... */
  predicate MatchesSteps(e: Element, p: Path, steps: seq<string>)
    requires ValidPath(e, p)
    decreases |p|
  {
    |p| == |steps| &&
    (|p| == 0 || (e.children[p[0]].element.name == steps[0] && MatchesSteps(e.children[p[0]].element, p[1..], steps[1..])))
  }

  /** A relative location path of child steps: its first match in document order. */
  function Select(e: Element, steps: seq<string>): (r: Option<Path>)
    ensures r.Some? ==> ValidPath(e, r.value) && MatchesSteps(e, r.value, steps) && |steps| > 0
    decreases |steps|, 1, 0
  {
    if |steps| == 0 then None else SelectAmong(e, steps, 0)
  }

  function SelectAmong(e: Element, steps: seq<string>, i: nat): (r: Option<Path>)
    requires |steps| > 0 && i <= |e.children|
    ensures r.Some? ==> ValidPath(e, r.value) && MatchesSteps(e, r.value, steps) && r.value[0] >= i
    decreases |steps|, 0, |e.children| - i
  {
    if i == |e.children| then None
    else if e.children[i].ElementNode? && e.children[i].element.name == steps[0] then
      if |steps| == 1 then Some([i])
      else
        match Select(e.children[i].element, steps[1..])
        case Some(p) =>
          assert ([i] + p)[1..] == p;
          Some([i] + p)
        case None => SelectAmong(e, steps, i + 1)
    else SelectAmong(e, steps, i + 1)
  }

  /** `selectSingleNode($xpath)` relative to `e`. */
  function SelectSingle(e: Element, xpath: string): Option<Path> {
    Select(e, SplitOn(StripLeadingSlash(xpath), '/'))
  }

  predicate TagMatches(e: Element, tag: string) {
    tag == "*" || e.name == tag
  }

  /**
   * Document order on paths: `q` comes before `p` when it is a proper prefix
   * of `p` (an ancestor) or is smaller at the first index where they differ.
   */
  predicate PreorderBefore(q: Path, p: Path)
    decreases |q|
  {
    |p| > 0 && (|q| == 0 || q[0] < p[0] || (q[0] == p[0] && PreorderBefore(q[1..], p[1..])))
  }

  /** `getElementsByTagName($tag)->item(0)` below and including `e`, in preorder. */
  function FindTag(e: Element, tag: string): (r: Option<Path>)
    ensures r.Some? ==> ValidPath(e, r.value) && TagMatches(At(e, r.value), tag)
    decreases e, 1, 0
  {
    if TagMatches(e, tag) then Some([]) else FindTagAmong(e, tag, 0)
  }

  function FindTagAmong(e: Element, tag: string, i: nat): (r: Option<Path>)
    requires i <= |e.children|
    ensures r.Some? ==> ValidPath(e, r.value) && |r.value| > 0 && r.value[0] >= i && TagMatches(At(e, r.value), tag)
    decreases e, 0, |e.children| - i
  {
    if i == |e.children| then None
    else if e.children[i].ElementNode? then
      match FindTag(e.children[i].element, tag)
      case Some(p) =>
        assert ([i] + p)[1..] == p;
        Some([i] + p)
      case None => FindTagAmong(e, tag, i + 1)
    else FindTagAmong(e, tag, i + 1)
  }

  // ------------------------------------------------------------------- edits

  /** `appendChild(c)` on the element at `p`. */
  function AppendChildAt(e: Element, p: Path, c: Node): Element
    requires ValidPath(e, p)
  {
    ReplaceAt(e, p, AppendChild(At(e, p), c))
  }

  /** `insertBefore(c, ref)` where `ref` is child `i` of the element at `p`, or the end when `i` is the count. */
  function InsertChildAt(e: Element, p: Path, i: nat, c: Node): Element
    requires ValidPath(e, p) && i <= |At(e, p).children|
  {
    var parent := At(e, p);
    ReplaceAt(e, p, parent.(children := InsertAt(parent.children, i, c)))
  }

  /** `removeChild` of child `i` of the element at `p`. */
  function RemoveChildAt(e: Element, p: Path, i: nat): Element
    requires ValidPath(e, p) && i < |At(e, p).children|
  {
    var parent := At(e, p);
    ReplaceAt(e, p, parent.(children := RemoveAt(parent.children, i)))
  }

  /** `setAttributeNode` on the element at `p`. */
  function SetAttrAt(e: Element, p: Path, name: string, value: string): Element
    requires ValidPath(e, p)
  {
    var x := At(e, p);
    ReplaceAt(e, p, x.(attrs := SetAttr(x.attrs, name, value)))
  }

  /**
   * `$node->parentNode->removeChild($node)` for the element at `p`: the
   * document element leaves the document empty.
   */
  function RemoveNodeAt(e: Element, p: Path): Option<Element>
    requires ValidPath(e, p)
  {
    if |p| == 0 then None
    else
      ValidParent(e, p);
      Some(RemoveChildAt(e, Parent(p), Index(p)))
  }

  /**
   * `removeTagName`: the first element of the document, in document order,
   * whose tag is `tag` is removed; the flag says whether there was one.
   */
  function RemoveFirstTag(root: Option<Element>, tag: string): (Option<Element>, bool) {
    if root.None? then (root, false)
    else match FindTag(root.value, tag)
      case None => (root, false)
      case Some(p) => (RemoveNodeAt(root.value, p), true)
  }

  // ---------------------------------------------------------------- document

  /** A node handle: the document itself, or an element by its path. */
  datatype Handle = DocumentHandle | ElementHandle(path: Path)

  predicate ValidHandle(root: Option<Element>, h: Handle) {
    h.DocumentHandle? || (root.Some? && ValidPath(root.value, h.path))
  }

  /**
   * A `DOMDocument`: its document element (if any), the output flags, and
   * the namespace-prefix registry XmlUtil keeps for it.
   */
  class Document {
    var root: Option<Element>
    var preserveWhiteSpace: bool
    var formatOutput: bool
    var prefixes: map<string, string>

    constructor (preserveWhiteSpace: bool, formatOutput: bool)
      ensures this.root == None && this.prefixes == map[]
      ensures this.preserveWhiteSpace == preserveWhiteSpace && this.formatOutput == formatOutput
    {
      this.root := None;
      this.preserveWhiteSpace := preserveWhiteSpace;
      this.formatOutput := formatOutput;
      this.prefixes := map[];
    }
  }
}
