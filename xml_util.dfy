/**
 * `XmlUtil`: static helpers over DOM nodes. Unlike `XmlNode`, a helper given
 * the document acts on the document itself, and the class keeps, per
 * document, a registry of namespace prefixes (`$xmlNsPrefix`), modelled as
 * the `prefixes` field of the `Document`.
 */
module XmlUtil {
  import opened Wrappers
  import opened Php
  import opened Dom
  import opened XmlHeader
  import opened ArrayTree

  /** A PHP integer of option bits, as its 64-bit two's-complement pattern. */
  type Options = bv64

  const DontPreserveWhitespace: Options := 0x01
  const FormatOutput: Options := 0x02
  const DontFixAmpersand: Options := 0x04

  /**
   * `createXmlDocument($docOptions)`: (preserveWhiteSpace, formatOutput).
   * FORMAT_OUTPUT turns white-space preservation off whatever the first bit says.
   */
  function DocumentFlags(opts: Options): (r: (bool, bool))
    ensures r.1 <==> opts & FormatOutput != 0
    ensures r.0 <==> opts & DontPreserveWhitespace == 0 && opts & FormatOutput == 0
  {
    var preserve := opts & DontPreserveWhitespace != DontPreserveWhitespace;
    if opts & FormatOutput == FormatOutput then (false, true) else (preserve, false)
  }

  /** A new, empty document with the decoded flags and an empty prefix registry. */
  method CreateXmlDocument(opts: Options) returns (doc: Document)
    ensures fresh(doc)
    ensures (doc.preserveWhiteSpace, doc.formatOutput) == DocumentFlags(opts)
    ensures doc.root == None && doc.prefixes == map[]
  {
    doc := new Document(true, false);
    doc.preserveWhiteSpace := opts & DontPreserveWhitespace != DontPreserveWhitespace;
    doc.formatOutput := false;
    if opts & FormatOutput == FormatOutput {
      doc.preserveWhiteSpace := false;
      doc.formatOutput := true;
    }
    doc.prefixes := map[];
  }

  /**
   * The text `createXmlDocumentFromStr` hands to `loadXML`: the repaired
   * string, with `&amp;` turned into `&` unless DONT_FIX_AMPERSAND is set.
   */
  function XmlSource(xml: string, opts: Options): Result<string, Error> {
    DocumentSource(xml, opts & DontFixAmpersand != DontFixAmpersand)
  }

  // ----------------------------------------------------------------- prefixes

  /**
   * The registry key of a name: `strtok($name, ":")` when it differs from
   * the name. A name made only of colons gives PHP's `false`, which as an
   * array key is 0.
   */
  function PrefixOf(name: string): Option<string> {
    match StrTok(name, ':')
    case Some(t) => if t == name then None else Some(t)
    case None => if name == "" then None else Some("0")
  }

  /** `checkIfPrefixWasDefined($node, $name)`. */
  function CheckPrefix(prefixes: map<string, string>, name: string): (r: Result<(), Error>)
    ensures r.Err? ==> r.error == UndefinedPrefix
  {
    if PrefixOf(name).Some? && PrefixOf(name).value !in prefixes then Err(UndefinedPrefix) else Ok(())
  }

  /**
   * `createChildNode($node, $name, $uri)`: the new element and the registry
   * after it. Without a URI ("" only) the prefix must be registered and the
   * name is sanitised; with one, a prefixed name created on the document
   * itself registers its prefix.
   */
  function CreateChildNodeSpec(prefixes: map<string, string>, onDocument: bool, name: string, uri: string): Result<(Element, map<string, string>), Error> {
    if uri == "" then
      if CheckPrefix(prefixes, name).Err? then Err(UndefinedPrefix)
      else
        var x :- CreateElement(Sanitise(name));
        Ok((x, prefixes))
    else
      var x :- CreateElementNS(uri, name);
      var tok := PrefixOf(name);
      Ok((x, if onDocument && tok.Some? then prefixes[tok.value := uri] else prefixes))
  }

  /** `addTextNode`'s guard: `!empty($text) || is_numeric($text)`. */
  predicate KeepsText(text: string) {
    !IsEmptyString(text) || IsNumericString(text)
  }

  /** `addTextNode` on a detached element. */
  function WithUtilText(e: Element, text: string, cdata: bool): Element {
    if KeepsText(text) then AppendChild(e, if cdata then CDataNode(text) else TextNode(text)) else e
  }

  /** `appendChild($x)` on an element, or on the document, which takes one element only. */
  function AppendTo(root: Option<Element>, node: Handle, x: Element): Result<(Option<Element>, Handle), Error>
    requires ValidHandle(root, node)
  {
    match node
    case DocumentHandle => if root.Some? then Err(HierarchyError) else Ok((Some(x), ElementHandle([])))
    case ElementHandle(p) =>
      Ok((Some(AppendChildAt(root.value, p, ElementNode(x))), ElementHandle(p + [|At(root.value, p).children|])))
  }

  /** The document element, the registry and the result after an operation. */
  datatype Effect = Effect(root: Option<Element>, prefixes: map<string, string>, result: Result<Handle, Error>)

  /**
   * `createChild($node, $name, $text, $uri)`. A prefix registered by
   * `createChildNode` stays registered when the append then fails.
   */
  function CreateChildSpec(root: Option<Element>, prefixes: map<string, string>, node: Handle, name: string, text: string, uri: string): Effect
    requires ValidHandle(root, node)
  {
    if IsEmptyString(name) then Effect(root, prefixes, Err(EmptyNodeName))
    else
      var made := CreateChildNodeSpec(prefixes, node.DocumentHandle?, name, uri);
      if made.Err? then Effect(root, prefixes, Err(made.error))
      else
        var appended := AppendTo(root, node, WithUtilText(made.value.0, text, false));
        if appended.Err? then Effect(root, made.value.1, Err(appended.error))
        else Effect(appended.value.0, made.value.1, Ok(appended.value.1))
  }

  method CreateChild(doc: Document, node: Handle, name: string, text: string, uri: string) returns (r: Result<Handle, Error>)
    requires ValidHandle(doc.root, node)
    modifies doc
    ensures var s := CreateChildSpec(old(doc.root), old(doc.prefixes), node, name, text, uri);
      doc.root == s.root && doc.prefixes == s.prefixes && r == s.result
    ensures doc.preserveWhiteSpace == old(doc.preserveWhiteSpace) && doc.formatOutput == old(doc.formatOutput)
  {
    if IsEmptyString(name) {
      return Err(EmptyNodeName);
    }
    var working: Element;
    if uri == "" {
      if CheckPrefix(doc.prefixes, name).Err? {
        return Err(UndefinedPrefix);
      }
      working :- CreateElement(Sanitise(name));
    } else {
      working :- CreateElementNS(uri, name);
      var tok := PrefixOf(name);
      if node.DocumentHandle? && tok.Some? {
        doc.prefixes := doc.prefixes[tok.value := uri];
      }
    }
    working := WithUtilText(working, text, false);
    match node
    case DocumentHandle =>
      if doc.root.Some? {
        return Err(HierarchyError);
      }
      doc.root := Some(working);
      r := Ok(ElementHandle([]));
    case ElementHandle(p) =>
      var n := |At(doc.root.value, p).children|;
      doc.root := Some(AppendChildAt(doc.root.value, p, ElementNode(working)));
      r := Ok(ElementHandle(p + [n]));
  }

  /** `addTextNode($node, $text, $escapeChars)`: a text node cannot go under the document. */
  function AddTextNodeSpec(root: Option<Element>, node: Handle, text: string, cdata: bool): Result<Option<Element>, Error>
    requires ValidHandle(root, node)
  {
    if !KeepsText(text) then Ok(root)
    else match node
      case DocumentHandle => Err(HierarchyError)
      case ElementHandle(p) => Ok(Some(AppendChildAt(root.value, p, if cdata then CDataNode(text) else TextNode(text))))
  }

  method AddTextNode(doc: Document, node: Handle, text: string, cdata: bool) returns (r: Result<(), Error>)
    requires ValidHandle(doc.root, node)
    modifies doc
    ensures var s := AddTextNodeSpec(old(doc.root), node, text, cdata);
      if s.Ok? then doc.root == s.value && r.Ok? else doc.root == old(doc.root) && r == Err(s.error)
    ensures doc.prefixes == old(doc.prefixes)
    ensures doc.preserveWhiteSpace == old(doc.preserveWhiteSpace) && doc.formatOutput == old(doc.formatOutput)
  {
    if !KeepsText(text) {
      return Ok(());
    }
    if node.DocumentHandle? {
      return Err(HierarchyError);
    }
    var textNode := if cdata then CDataNode(text) else TextNode(text);
    doc.root := Some(AppendChildAt(doc.root.value, node.path, textNode));
    r := Ok(());
  }

  /** `addAttribute($element, $name, $value)`: the prefix check, then `createAttribute`. */
  function AddAttributeSpec(root: Element, prefixes: map<string, string>, p: Path, name: string, value: string): Result<Element, Error>
    requires ValidPath(root, p)
  {
    if CheckPrefix(prefixes, name).Err? then Err(UndefinedPrefix)
    else if !IsXmlName(name) then Err(InvalidName)
    else Ok(SetAttrAt(root, p, name, value))
  }

  method AddAttribute(doc: Document, p: Path, name: string, value: string) returns (r: Result<(), Error>)
    requires doc.root.Some? && ValidPath(doc.root.value, p)
    modifies doc
    ensures var s := AddAttributeSpec(old(doc.root.value), old(doc.prefixes), p, name, value);
      if s.Ok? then doc.root == Some(s.value) && r.Ok? else doc.root == old(doc.root) && r == Err(s.error)
    ensures doc.prefixes == old(doc.prefixes)
    ensures doc.preserveWhiteSpace == old(doc.preserveWhiteSpace) && doc.formatOutput == old(doc.formatOutput)
  {
    if CheckPrefix(doc.prefixes, name).Err? {
      return Err(UndefinedPrefix);
    }
    if !IsXmlName(name) {
      return Err(InvalidName);
    }
    doc.root := Some(SetAttrAt(doc.root.value, p, name, value));
    r := Ok(());
  }

  /** `addNamespaceToDocument($node, $prefix, $uri)`: declared on the document element and registered. */
  function AddNamespaceToDocumentSpec(root: Option<Element>, prefixes: map<string, string>, prefix: string, uri: string): Result<(Element, map<string, string>), Error> {
    if root.None? then Err(NoDocumentElement)
    else Ok((root.value.(nsDecls := SetNs(root.value.nsDecls, prefix, uri)), prefixes[prefix := uri]))
  }

  method AddNamespaceToDocument(doc: Document, prefix: string, uri: string) returns (r: Result<(), Error>)
    modifies doc
    ensures var s := AddNamespaceToDocumentSpec(old(doc.root), old(doc.prefixes), prefix, uri);
      if s.Ok? then doc.root == Some(s.value.0) && doc.prefixes == s.value.1 && r.Ok?
      else doc.root == old(doc.root) && doc.prefixes == old(doc.prefixes) && r == Err(s.error)
    ensures doc.preserveWhiteSpace == old(doc.preserveWhiteSpace) && doc.formatOutput == old(doc.formatOutput)
  {
    if doc.root.None? {
      return Err(NoDocumentElement);
    }
    var e := doc.root.value;
    doc.root := Some(e.(nsDecls := SetNs(e.nsDecls, prefix, uri)));
    doc.prefixes := doc.prefixes[prefix := uri];
    r := Ok(());
  }

  /** `removeTagName($dom, $tag)`. */
  method RemoveTagName(doc: Document, tag: string) returns (removed: bool)
    modifies doc
    ensures (doc.root, removed) == RemoveFirstTag(old(doc.root), tag)
    ensures doc.prefixes == old(doc.prefixes)
    ensures doc.preserveWhiteSpace == old(doc.preserveWhiteSpace) && doc.formatOutput == old(doc.formatOutput)
  {
    if doc.root.None? {
      return false;
    }
    var found := FindTag(doc.root.value, tag);
    if found.None? {
      return false;
    }
    doc.root := RemoveNodeAt(doc.root.value, found.value);
    removed := true;
  }

  /**
   * `xml2Array($arr, $func)` on an array: a leaf goes through the function
   * `call` stands for when the name `func` is not `empty()`.
   */
  function Xml2Array(arr: seq<(Key, Tree)>, func: string, call: string -> string): seq<(Key, Tree)> {
    MapTree(Branch(arr), if IsEmptyString(func) then s => s else call).entries
  }
}
