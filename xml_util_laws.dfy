/** What `XmlUtil`'s helpers promise, and how they differ from `XmlNode`'s. */
module XmlUtilLaws {
  import opened Wrappers
  import opened Php
  import opened Dom
  import opened DomLaws
  import opened XmlHeader
  import opened ArrayTree
  import opened XmlUtil
  import XmlNode

  // ----------------------------------------------------------------- prefixes

  /** A name without a colon has no prefix; a prefix is only found in a name with one. */
  lemma PrefixOfLaws(name: string)
    ensures ':' !in name ==> PrefixOf(name) == None
    ensures PrefixOf(name).Some? ==> ':' in name
  {
  }

  /** `p:local` with a colon-free, non-empty `p` is registered under `p`. */
  lemma PrefixOfPrefixed(p: string, local: string)
    requires p != [] && ':' !in p
    ensures PrefixOf(p + ":" + local) == Some(p)
  {
    var s := p + ":" + local;
    assert s[0] == p[0];
    assert s[|p|] == ':';
    assert StrTok(s, ':') == Some(Before(s, ':'));
    var r := Before(s, ':');
    assert forall j :: 0 <= j < |p| ==> s[j] == p[j];
    assert |r| >= |p| by {
      assert s[|r|] == ':';
    }
    assert |r| <= |p| by {
      assert forall j :: 0 <= j < |r| ==> r[j] == s[j];
    }
    assert r == s[..|p|] == p;
  }

  /** The prefix check passes every unprefixed name, and a prefixed one exactly when its prefix is registered. */
  lemma CheckPrefixLaws(prefixes: map<string, string>, name: string, p: string, local: string)
    requires p != [] && ':' !in p
    ensures ':' !in name ==> CheckPrefix(prefixes, name) == Ok(())
    ensures CheckPrefix(prefixes, p + ":" + local).Ok? <==> p in prefixes
  {
    PrefixOfPrefixed(p, local);
  }

  // --------------------------------------------------------------- text guard

  /** "0" is PHP-empty but numeric, so `XmlUtil::addTextNode` keeps every text except "". */
  lemma KeepsTextIffNonEmpty(text: string)
    ensures KeepsText(text) <==> text != ""
  {
    if text == "0" {
      assert SkipSpaces(text, 0) == 0;
      assert SkipDigits(text, 0) == 1;
      assert SkipSpaces(text, 1) == 1;
    }
  }

  /** The two `addTextNode`s disagree on "0": `XmlUtil`'s adds it, `XmlNode`'s drops it. */
  lemma TextGuardsDiffer(e: Element, cdata: bool)
    ensures WithUtilText(e, "0", cdata) == AppendChild(e, XmlNode.TextOf("0", cdata))
    ensures XmlNode.WithText(e, "0", cdata) == e
  {
    KeepsTextIffNonEmpty("0");
  }

  // ------------------------------------------------------------ createChild

  /**
   * `createChildNode`: without a URI the prefix must be registered and the
   * sanitised name must not start with a digit; with one the name must be a
   * valid XML name, and a prefixed name created on the document registers
   * its prefix under the URI. Nothing else changes in the registry.
   */
  lemma CreateChildNodeLaws(prefixes: map<string, string>, onDocument: bool, name: string, uri: string)
    ensures uri == "" ==>
      (CreateChildNodeSpec(prefixes, onDocument, name, uri).Ok? <==>
        CheckPrefix(prefixes, name).Ok? && |name| > 0 && !IsDigit(name[0]))
    ensures uri == "" && CreateChildNodeSpec(prefixes, onDocument, name, uri).Ok? ==>
      CreateChildNodeSpec(prefixes, onDocument, name, uri).value == (Element(Sanitise(name), "", [], [], []), prefixes)
    ensures uri != "" ==> (CreateChildNodeSpec(prefixes, onDocument, name, uri).Ok? <==> IsXmlName(name))
    ensures uri != "" && IsXmlName(name) ==>
      var m := CreateChildNodeSpec(prefixes, onDocument, name, uri).value;
      m.0 == Element(name, uri, [], [], []) &&
      m.1 == (if onDocument && PrefixOf(name).Some? then prefixes[PrefixOf(name).value := uri] else prefixes)
  {
    SanitisedNameValid(name);
  }

  /** A prefixed element created on the document with a URI makes the prefix usable afterwards. */
  lemma CreatedPrefixUsable(prefixes: map<string, string>, p: string, local: string, uri: string, other: string)
    requires p != [] && ':' !in p && uri != "" && IsXmlName(p + ":" + local)
    ensures var m := CreateChildNodeSpec(prefixes, true, p + ":" + local, uri);
      m.Ok? && m.value.1 == prefixes[p := uri] && CheckPrefix(m.value.1, p + ":" + other) == Ok(())
  {
    PrefixOfPrefixed(p, local);
    PrefixOfPrefixed(p, other);
  }

  /** The new element of `createChild` with its text: one text child exactly when the text is not "". */
  lemma WithUtilTextLaws(x: Element, text: string)
    ensures text == "" ==> WithUtilText(x, text, false) == x
    ensures text != "" ==> WithUtilText(x, text, false) == x.(children := x.children + [TextNode(text)])
  {
    KeepsTextIffNonEmpty(text);
  }

  /**
   * `createChild`: an empty name fails first; then `createChildNode` may
   * fail; then the document refuses a second element. On success the new
   * element is the document element or the last child of the node, and the
   * handle reaches it. A failure leaves the tree alone.
   */
  lemma CreateChildLaws(root: Option<Element>, prefixes: map<string, string>, node: Handle, name: string, text: string, uri: string)
    requires ValidHandle(root, node)
    ensures IsEmptyString(name) ==> CreateChildSpec(root, prefixes, node, name, text, uri) == Effect(root, prefixes, Err(EmptyNodeName))
    ensures var s := CreateChildSpec(root, prefixes, node, name, text, uri);
      var m := CreateChildNodeSpec(prefixes, node.DocumentHandle?, name, uri);
      (s.result.Ok? <==> !IsEmptyString(name) && m.Ok? && (node.ElementHandle? || root.None?)) &&
      (s.result.Err? ==> s.root == root) &&
      (!IsEmptyString(name) && m.Ok? ==> s.prefixes == m.value.1)
    ensures var s := CreateChildSpec(root, prefixes, node, name, text, uri);
      var m := CreateChildNodeSpec(prefixes, node.DocumentHandle?, name, uri);
      s.result.Ok? && node.DocumentHandle? ==>
        s.root == Some(WithUtilText(m.value.0, text, false)) && s.result.value == ElementHandle([])
    ensures var s := CreateChildSpec(root, prefixes, node, name, text, uri);
      var m := CreateChildNodeSpec(prefixes, node.DocumentHandle?, name, uri);
      s.result.Ok? && node.ElementHandle? ==>
        var p := node.path;
        var x := WithUtilText(m.value.0, text, false);
        s.root.Some? && ValidPath(s.root.value, p) &&
        At(s.root.value, p).children == At(root.value, p).children + [ElementNode(x)] &&
        ReplaceAt(s.root.value, p, At(root.value, p)) == root.value &&
        s.result.value.ElementHandle? && ValidPath(s.root.value, s.result.value.path) &&
        At(s.root.value, s.result.value.path) == x
  {
    if node.ElementHandle? && !IsEmptyString(name) {
      var m := CreateChildNodeSpec(prefixes, false, name, uri);
      if m.Ok? {
        AppendChildAtLaws(root.value, node.path, ElementNode(WithUtilText(m.value.0, text, false)));
      }
    }
  }

  /**
   * A prefixed element with a URI created on a document that already has an
   * element is refused, yet its prefix stays registered.
   */
  lemma RegistryOutlivesRefusal(root: Element, prefixes: map<string, string>, p: string, local: string, uri: string)
    requires p != [] && ':' !in p && uri != "" && IsXmlName(p + ":" + local)
    ensures var s := CreateChildSpec(Some(root), prefixes, DocumentHandle, p + ":" + local, "", uri);
      s.result == Err(HierarchyError) && s.root == Some(root) && s.prefixes == prefixes[p := uri]
  {
    PrefixOfPrefixed(p, local);
    assert !IsEmptyString(p + ":" + local) by {
      assert (p + ":" + local)[|p|] == ':';
    }
  }

  // ------------------------------------------------------------ addTextNode

  /** `addTextNode`: "" adds nothing; any other text is a last child of an element, and is refused by the document. */
  lemma AddTextNodeLaws(root: Option<Element>, node: Handle, text: string, cdata: bool)
    requires ValidHandle(root, node)
    ensures text == "" ==> AddTextNodeSpec(root, node, text, cdata) == Ok(root)
    ensures text != "" && node.DocumentHandle? ==> AddTextNodeSpec(root, node, text, cdata) == Err(HierarchyError)
    ensures text != "" && node.ElementHandle? ==>
      var r := AddTextNodeSpec(root, node, text, cdata);
      var p := node.path;
      r.Ok? && r.value.Some? && ValidPath(r.value.value, p) &&
      At(r.value.value, p).children == At(root.value, p).children + [XmlNode.TextOf(text, cdata)] &&
      At(r.value.value, p) == At(root.value, p).(children := At(r.value.value, p).children) &&
      ReplaceAt(r.value.value, p, At(root.value, p)) == root.value
  {
    KeepsTextIffNonEmpty(text);
    if text != "" && node.ElementHandle? {
      AppendChildAtLaws(root.value, node.path, XmlNode.TextOf(text, cdata));
    }
  }

  // ----------------------------------------------------------- addAttribute

  /**
   * `addAttribute` fails on an unregistered prefix, then on a refused name;
   * otherwise the attribute has the value, every other attribute keeps its
   * own, names stay unique and nothing else in the tree changes.
   */
  lemma AddAttributeLaws(root: Element, prefixes: map<string, string>, p: Path, name: string, value: string, other: string)
    requires ValidPath(root, p)
    ensures AddAttributeSpec(root, prefixes, p, name, value).Ok? <==> CheckPrefix(prefixes, name).Ok? && IsXmlName(name)
    ensures CheckPrefix(prefixes, name).Err? ==> AddAttributeSpec(root, prefixes, p, name, value) == Err(UndefinedPrefix)
    ensures AddAttributeSpec(root, prefixes, p, name, value).Ok? ==>
      var r := AddAttributeSpec(root, prefixes, p, name, value).value;
      ValidPath(r, p) &&
      AttrLookup(At(r, p).attrs, name) == Some(value) &&
      (other != name ==> AttrLookup(At(r, p).attrs, other) == AttrLookup(At(root, p).attrs, other)) &&
      (UniqueAttrNames(At(root, p).attrs) ==> UniqueAttrNames(At(r, p).attrs)) &&
      At(r, p) == At(root, p).(attrs := At(r, p).attrs) &&
      ReplaceAt(r, p, At(root, p)) == root
  {
    if CheckPrefix(prefixes, name).Ok? && IsXmlName(name) {
      SetAttrAtLaws(root, p, name, value);
      SetAttrLaws(At(root, p).attrs, name, value, other);
    }
  }

  // ------------------------------------------------- addNamespaceToDocument

  /**
   * `addNamespaceToDocument` needs a document element; it declares the
   * prefix there, leaves the other declarations alone, and registers the
   * prefix, after which prefixed names pass the prefix check.
   */
  lemma AddNamespaceToDocumentLaws(root: Option<Element>, prefixes: map<string, string>, prefix: string, uri: string, other: string, local: string)
    requires prefix != [] && ':' !in prefix
    ensures AddNamespaceToDocumentSpec(root, prefixes, prefix, uri).Ok? <==> root.Some?
    ensures root.None? ==> AddNamespaceToDocumentSpec(root, prefixes, prefix, uri) == Err(NoDocumentElement)
    ensures root.Some? ==>
      var r := AddNamespaceToDocumentSpec(root, prefixes, prefix, uri).value;
      NsLookup(r.0.nsDecls, prefix) == Some(uri) &&
      (other != prefix ==> NsLookup(r.0.nsDecls, other) == NsLookup(root.value.nsDecls, other)) &&
      (UniquePrefixes(root.value.nsDecls) ==> UniquePrefixes(r.0.nsDecls)) &&
      r.0 == root.value.(nsDecls := r.0.nsDecls) &&
      r.1 == prefixes[prefix := uri] && CheckPrefix(r.1, prefix + ":" + local) == Ok(())
  {
    if root.Some? {
      SetNsLaws(root.value.nsDecls, prefix, uri, other);
      PrefixOfPrefixed(prefix, local);
    }
  }

  // --------------------------------------------------------------- xml2Array

  /** `xml2Array` keeps the keys; leaves go through the function unless its name is `empty()`. */
  lemma Xml2ArrayLaws(arr: seq<(Key, Tree)>, func: string, call: string -> string, k: nat)
    ensures |Xml2Array(arr, func, call)| == |arr|
    ensures IsEmptyString(func) ==> Xml2Array(arr, func, call) == arr
    ensures k < |arr| ==> Xml2Array(arr, func, call)[k].0 == arr[k].0
    ensures k < |arr| && arr[k].1.Leaf? && !IsEmptyString(func) ==>
      Xml2Array(arr, func, call)[k].1 == Leaf(call(arr[k].1.text))
  {
    var f := if IsEmptyString(func) then (s: string) => s else call;
    if IsEmptyString(func) {
      MapIdentity(Branch(arr), f);
    }
    if k < |arr| {
      MapEntriesAt(Branch(arr), 0, f, k);
    }
  }

  // ----------------------------------------------------- createXmlDocument

  /** The three option bits: each combination of the two layout bits gives its own flags. */
  lemma DocumentFlagsCases()
    ensures DocumentFlags(0) == (true, false)
    ensures DocumentFlags(DontPreserveWhitespace) == (false, false)
    ensures DocumentFlags(FormatOutput) == (false, true)
    ensures DocumentFlags(DontPreserveWhitespace | FormatOutput) == (false, true)
  {
  }

  /** DONT_FIX_AMPERSAND does not affect the layout flags. */
  lemma DocumentFlagsIgnoreAmpersand(o: Options)
    ensures DocumentFlags(o | DontFixAmpersand) == DocumentFlags(o & !DontFixAmpersand)
  {
  }

  /** `createXmlDocumentFromStr` repairs the header in every case and fixes `&amp;` unless told not to. */
  lemma XmlSourceLaws(xml: string, opts: Options)
    ensures XmlSource(xml, opts).Err? <==> FixXmlHeader(xml).Err?
    ensures opts & DontFixAmpersand != 0 ==> XmlSource(xml, opts) == FixXmlHeader(xml)
    ensures opts & DontFixAmpersand == 0 && FixXmlHeader(xml).Ok? ==>
      XmlSource(xml, opts) == Ok(Replace(FixXmlHeader(xml).value, "&amp;", "&"))
    ensures FixXmlHeader(xml).Ok? && !Contains(FixXmlHeader(xml).value, "&amp;") ==>
      XmlSource(xml, opts) == FixXmlHeader(xml)
  {
    if FixXmlHeader(xml).Ok? && !Contains(FixXmlHeader(xml).value, "&amp;") {
      ReplaceAbsent(FixXmlHeader(xml).value, "&amp;", "&");
    }
  }
}
