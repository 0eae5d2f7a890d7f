/** What the entity-to-XML mapper promises. */
module MappingLaws {
  import opened Wrappers
  import opened Php
  import opened Attributes
  import opened Dom
  import opened DomLaws
  import XmlNode
  import opened Mapping

  // ---------------------------------------------------------------- metadata

  /** Arrays and `stdClass` map to `root`, with no namespaces and no prefix; other scalars are refused. */
  lemma MetaOfPlain(v: Value)
    ensures v.ArrayValue? || (v.ObjectValue? && v.cls.StdClass?) ==>
      ReflectionClassMeta(v).Ok? && RootName(ReflectionClassMeta(v).value) == "root" &&
      ReflectionClassMeta(v).value.namespaces == [] && ReflectionClassMeta(v).value.usePrefix == None
    ensures v.Scalar? || v.Null? ==> ReflectionClassMeta(v) == Err(TypeError)
  {
  }

  /** More than one `XmlEntity` attribute is refused with code 258. */
  lemma MetaAmbiguous(name: string, anonymous: bool, entities: seq<XmlEntity>, declared: seq<(string, seq<XmlProperty>)>, props: seq<(Option<XmlProperty>, string, Value)>)
    requires |entities| > 1
    ensures ReflectionClassMeta(ObjectValue(Declared(name, anonymous, entities, declared), props)) == Err(AmbiguousEntity)
    ensures AmbiguousEntity.Code() == 258
  {
  }

  /** An unannotated class maps to `root` when anonymous, else to its lower-cased last name segment. */
  lemma MetaOfUnannotated(name: string, anonymous: bool, declared: seq<(string, seq<XmlProperty>)>, props: seq<(Option<XmlProperty>, string, Value)>)
    ensures var r := ReflectionClassMeta(ObjectValue(Declared(name, anonymous, [], declared), props));
      r.Ok? && r.value.namespaces == [] && r.value.usePrefix == None &&
      RootName(r.value) == (if anonymous then "root" else Lower(LastSegment(name))) &&
      IsLower(RootName(r.value)) && '\\' !in RootName(r.value)
  {
    var n := if anonymous then "root" else Lower(LastSegment(name));
    assert ReflectionClassMeta(ObjectValue(Declared(name, anonymous, [], declared), props)) ==
      Ok(NewXmlEntity(rootElementName := Some(n)));
    if !anonymous {
      var s := LastSegment(name);
      LowerFolds(s);
      forall i | 0 <= i < |s| ensures Lower(s)[i] != '\\' {
        assert s[i] != '\\';
      }
    }
  }

  /**
   * One attribute: the declared root name, or the short class name, folded
   * to lower case unless case is preserved; its namespaces; and a non-empty
   * prefix with `:` appended.
   */
  lemma MetaOfAnnotated(name: string, anonymous: bool, t: XmlEntity, declared: seq<(string, seq<XmlProperty>)>, props: seq<(Option<XmlProperty>, string, Value)>)
    ensures var r := ReflectionClassMeta(ObjectValue(Declared(name, anonymous, [t], declared), props));
      var n := t.rootElementName.GetOr(LastSegment(name));
      r.Ok? && RootName(r.value) == (if t.preserveCaseName then n else Lower(n)) &&
      (!t.preserveCaseName ==> IsLower(RootName(r.value))) &&
      r.value.namespaces == t.namespaces && r.value.preserveCaseName &&
      (if t.usePrefix.Some? && !IsEmptyString(t.usePrefix.value)
       then r.value.usePrefix == Some(t.usePrefix.value + ":")
       else r.value.usePrefix == None)
  {
    LowerFolds(t.rootElementName.GetOr(LastSegment(name)));
  }

  /** Every prefix the metadata carries ends in `:`. */
  lemma MetaPrefixEndsInColon(v: Value)
    ensures ReflectionClassMeta(v).Ok? && ReflectionClassMeta(v).value.usePrefix.Some? ==>
      var p := ReflectionClassMeta(v).value.usePrefix.value;
      |p| > 0 && p[|p| - 1] == ':' && HasPrefix(ReflectionClassMeta(v).value)
  {
  }

  // -------------------------------------------------------------- namespaces

  lemma {:induction false} NsUnsetKeeps(list: Namespaces, key: string, j: nat)
    requires j < |list| && list[j].0 != key
    ensures list[j] in NsUnset(list, key)
  {
    if j > 0 {
      NsUnsetKeeps(list[1..], key, j - 1);
      assert list[1..][j - 1] == list[j];
    }
  }

  /**
   * `parse`'s root namespace: none without a `:`; the declared URI of the
   * root's prefix, which then leaves the list; none for an undeclared
   * prefix. Every declaration under another key stays in the list.
   */
  lemma RootNamespaceLaws(rootName: string, list: Namespaces, j: nat)
    ensures ':' !in rootName ==> RootNamespace(rootName, list) == (None, list)
    ensures var p := Before(rootName, ':');
      ':' in rootName && p in NsKeys(list) ==>
        var r := RootNamespace(rootName, list);
        r.0.Some? && (p, r.0.value) in list && p !in NsKeys(r.1) && NsKeys(r.1) == NsKeys(list) - {p}
    ensures ':' in rootName && Before(rootName, ':') !in NsKeys(list) ==> RootNamespace(rootName, list) == (None, list)
    ensures j < |list| && list[j].0 != Before(rootName, ':') ==> list[j] in RootNamespace(rootName, list).1
  {
    var p := Before(rootName, ':');
    if ':' in rootName && p in NsKeys(list) {
      var u := NsGet(list, p);
      var k :| 0 <= k < |list| && list[k] == (p, u);
      assert (p, u) in list;
      if j < |list| && list[j].0 != p {
        NsUnsetKeeps(list, p, j);
      }
    } else if j < |list| {
      assert list[j] in list;
    }
  }

  /** With a prefix holding a `:`, the renamed name starts with the prefix and renaming again changes nothing. */
  lemma PrefixedNameLaws(name: string, prefix: string)
    requires ':' in prefix
    ensures StartsWith(PrefixedName(name, prefix), prefix)
    ensures PrefixedName(PrefixedName(name, prefix), prefix) == PrefixedName(name, prefix)
    ensures ':' !in name ==> PrefixedName(name, prefix) == prefix + name
    ensures StartsWith(name, prefix) ==> PrefixedName(name, prefix) == name
  {
    var r := PrefixedName(name, prefix);
    var k :| 0 <= k < |prefix| && prefix[k] == ':';
    if StartsWith(name, prefix) {
      assert name[k] == name[..|prefix|][k];
    } else {
      assert r == prefix + r[|prefix|..];
      assert (prefix + r[|prefix|..])[..|prefix|] == prefix;
    }
    assert r[k] == r[..|prefix|][k];
  }

  lemma {:induction false} ApplyNsConcat(ds: seq<NsDecl>, a: Namespaces, b: Namespaces)
    ensures ApplyNs(ds, a + b) == ApplyNs(ApplyNs(ds, a), b)
    decreases |a|
  {
    if a == [] {
      assert a + b == b;
    } else {
      assert (a + b)[1..] == a[1..] + b;
      ApplyNsConcat(SetNs(ds, a[0].0, a[0].1), a[1..], b);
    }
  }

  /**
   * `addNamespaces` applied twice gives the node the same name as once, and
   * the queued declarations, once applied, the same declarations.
   */
  lemma AddNamespacesIdempotent(b: Built, m: XmlEntity, ds: seq<NsDecl>)
    requires m.usePrefix.Some? ==> ':' in m.usePrefix.value
    requires UniquePrefixes(ds)
    ensures AddNamespaces(AddNamespaces(b, m), m).node == AddNamespaces(b, m).node
    ensures ApplyNs(ds, AddNamespaces(AddNamespaces(b, m), m).docNs) == ApplyNs(ds, AddNamespaces(b, m).docNs)
  {
    if HasPrefix(m) {
      PrefixedNameLaws(b.node.name, m.usePrefix.value);
    }
    var once := AddNamespaces(b, m);
    assert AddNamespaces(once, m).docNs == (b.docNs + m.namespaces) + m.namespaces;
    ApplyNsConcat(ds, b.docNs + m.namespaces, m.namespaces);
    ApplyNsConcat(ds, b.docNs, m.namespaces);
    ApplyNsLookup(ds, b.docNs, "");
    ApplyNsLookup(ApplyNs(ds, b.docNs), m.namespaces, "");
    ApplyNsIdempotent(ApplyNs(ds, b.docNs), m.namespaces);
  }

  // ------------------------------------------------------------ field names

  /**
   * A property rule naming its element gives that name verbatim; without a
   * rule, or with one that neither names nor preserves, the property name
   * is folded to lower case.
   */
  lemma FieldNameLaws(rule: Option<XmlProperty>, k: Key, name: string, ns: Namespaces, flag: bool, isAttr: bool, of: Option<string>)
    ensures FieldName(Some(NewXmlProperty(Some(name), ns, flag, isAttr, of)), k) == name
    ensures FieldName(None, k) == Lower(KeyString(k))
    ensures FieldName(Some(NewXmlProperty(None, ns, false, isAttr, of)), k) == Lower(KeyString(k))
    ensures !(rule.Some? && rule.value.preserveCaseName) ==> IsLower(FieldName(rule, k))
  {
    var n := if rule.Some? && rule.value.elementName.Some? then rule.value.elementName.value else KeyString(k);
    LowerFolds(n);
  }

  // ------------------------------------------------------ what filling keeps

  /** The namespace and declarations of the element stay, and the document queue only grows. */
  predicate Grows(b: Built, r: Built) {
    r.node.uri == b.node.uri && r.node.nsDecls == b.node.nsDecls &&
    |b.docNs| <= |r.docNs| && r.docNs[..|b.docNs|] == b.docNs
  }

  /** As `Grows`, and the element keeps its name too. */
  predicate Extends(b: Built, r: Built) {
    Grows(b, r) && r.node.name == b.node.name
  }

  lemma GrowsTrans(a: Built, b: Built, c: Built)
    requires Grows(a, b) && Grows(b, c)
    ensures Grows(a, c)
  {
    assert c.docNs[..|a.docNs|] == c.docNs[..|b.docNs|][..|a.docNs|];
  }

  /** Hanging a filled child keeps the parent's own fields; the queue is the child's. */
  lemma AttachExtends(b: Built, c: Element, filled: Built)
    requires Grows(Built(c, b.docNs), filled)
    ensures Extends(b, Attach(b.node, filled))
  {
  }

  lemma ProcessScalarExtends(text: string, m: XmlEntity, rule: Option<XmlProperty>, name: string, b: Built)
    ensures ProcessScalar(text, m, rule, name, b).Ok? ==> Extends(b, ProcessScalar(text, m, rule, name, b).value)
  {
    if !AsAttribute(rule) && AsAttributeOf(rule) {
      var p := SelectSingle(b.node, rule.value.isAttributeOf.value);
      if p.Some? && IsXmlName(name) {
        var x := At(b.node, p.value);
        if |p.value| > 0 {
          ReplaceAtKeepsRoot(b.node, p.value, x.(attrs := SetAttr(x.attrs, name, Escape(text))));
        }
      }
    }
  }

  lemma {:induction false} TransformExtends(rule: Option<XmlProperty>, propName: Key, x: Value, m: XmlEntity, b: Built)
    ensures Transform(rule, propName, x, m, b).Ok? ==> Extends(b, Transform(rule, propName, x, m, b).value)
    decreases x, 3, 0
  {
    var name := FieldName(rule, propName);
    match x
    case ArrayValue(_) => ProcessArrayExtends(x, propName, name, b);
    case ObjectValue(_, _) => ProcessObjectExtends(x, name, b);
    case Scalar(t) => ProcessScalarExtends(t, m, rule, name, b);
    case Null => ProcessScalarExtends("", m, rule, name, b);
  }

  lemma {:induction false} ProcessObjectExtends(x: Value, name: string, b: Built)
    ensures ProcessObject(x, name, b).Ok? ==> Extends(b, ProcessObject(x, name, b).value)
    decreases x, 2, 1
  {
    var c := XmlNode.NewElement(name, "");
    if c.Ok? {
      ArrayToXmlExtends(x, Built(c.value, b.docNs), None);
    }
  }

  lemma {:induction false} ProcessArrayExtends(x: Value, propName: Key, name: string, b: Built)
    requires x.ArrayValue?
    ensures ProcessArray(x, propName, name, b).Ok? ==> Extends(b, ProcessArray(x, propName, name, b).value)
    decreases x, 2, 0
  {
    if !IsNumericKey(propName) {
      var w := XmlNode.NewElement(name, "");
      if w.Ok? {
        FoldEntriesExtends(x, 0, Built(w.value, b.docNs));
      }
    } else {
      FoldEntriesExtends(x, 0, b);
    }
  }

  lemma {:induction false} EntryStepExtends(x: Value, i: nat, s: Built)
    requires x.ArrayValue? && i < |x.entries|
    ensures EntryStep(x, i, s).Ok? ==> Extends(s, EntryStep(x, i, s).value)
    decreases x, 1, |x.entries| - i, 0
  {
    assert x.entries[i] in x.entries;
    var key := x.entries[i].0;
    var y := x.entries[i].1;
    match y
    case Scalar(t) =>
    case ArrayValue(_) => ProcessArrayExtends(y, key, KeyString(key), s);
    case Null =>
    case ObjectValue(_, _) =>
      var meta := ReflectionClassMeta(y);
      if meta.Ok? {
        ProcessObjectExtends(y, RootName(meta.value), s);
      }
  }

  lemma {:induction false} FoldEntriesExtends(x: Value, i: nat, s: Built)
    requires x.ArrayValue? && i <= |x.entries|
    ensures FoldEntries(x, i, s).Ok? ==> Extends(s, FoldEntries(x, i, s).value)
    decreases x, 1, |x.entries| - i, 1
  {
    if i < |x.entries| {
      EntryStepExtends(x, i, s);
      var s' := EntryStep(x, i, s);
      if s'.Ok? {
        FoldEntriesExtends(x, i + 1, s'.value);
        if FoldEntries(x, i + 1, s'.value).Ok? {
          GrowsTrans(s, s'.value, FoldEntries(x, i + 1, s'.value).value);
        }
      }
    }
  }

  lemma {:induction false} MemberStepExtends(v: Value, i: nat, m: XmlEntity, b: Built)
    requires i < MemberCount(v)
    ensures MemberStep(v, i, m, b).Ok? ==> Extends(b, MemberStep(v, i, m, b).value)
    decreases v, 1, MemberCount(v) - i, 0
  {
    match v
    case ArrayValue(es) =>
      assert es[i] in es;
      TransformExtends(None, es[i].0, es[i].1, m, b);
    case ObjectValue(_, ps) =>
      assert ps[i] in ps;
      TransformExtends(ps[i].0, StrKey(ps[i].1), ps[i].2, m, b);
  }

  lemma {:induction false} FoldMembersExtends(v: Value, i: nat, m: XmlEntity, b: Built)
    requires i <= MemberCount(v)
    ensures FoldMembers(v, i, m, b).Ok? ==> Extends(b, FoldMembers(v, i, m, b).value)
    decreases v, 1, MemberCount(v) - i, 1
  {
    if i < MemberCount(v) {
      MemberStepExtends(v, i, m, b);
      var b' := MemberStep(v, i, m, b);
      if b'.Ok? {
        FoldMembersExtends(v, i + 1, m, b'.value);
        if FoldMembers(v, i + 1, m, b'.value).Ok? {
          GrowsTrans(b, b'.value, FoldMembers(v, i + 1, m, b'.value).value);
        }
      }
    }
  }

  /**
   * Filling an element keeps its namespace and declarations and only adds to
   * the document queue; with metadata given it also keeps the element's name.
   */
  lemma {:induction false} ArrayToXmlExtends(v: Value, b: Built, meta: Option<XmlEntity>)
    ensures ArrayToXml(v, b, meta).Ok? ==> Grows(b, ArrayToXml(v, b, meta).value)
    ensures ArrayToXml(v, b, meta).Ok? && meta.Some? ==> Extends(b, ArrayToXml(v, b, meta).value)
    decreases v, 2, 0
  {
    if meta.None? {
      var m := ReflectionClassMeta(v);
      if m.Ok? {
        var b1 := AddNamespaces(b, m.value);
        assert b1.docNs[..|b.docNs|] == b.docNs;
        FoldMembersExtends(v, 0, m.value, b1);
        if FoldMembers(v, 0, m.value, b1).Ok? {
          GrowsTrans(b, b1, FoldMembers(v, 0, m.value, b1).value);
        }
      }
    } else {
      FoldMembersExtends(v, 0, meta.value, b);
    }
  }

  // ------------------------------------------------------------------ parse

  /** `parse` fails exactly when the metadata lookup or the root element does. */
  lemma ParseFails(v: Value)
    ensures ReflectionClassMeta(v).Err? ==> Parse(v) == Err(ReflectionClassMeta(v).error)
    ensures ReflectionClassMeta(v).Ok? ==>
      var m := ReflectionClassMeta(v).value;
      var ns := RootNamespace(RootName(m), m.namespaces);
      XmlNode.NewElement(RootName(m), ns.0.GetOr("")).Err? ==> Parse(v).Err?
  {
  }

  /**
   * `parse` builds the root from the metadata's own name, in the namespace
   * `RootNamespace` picks (none for a PHP-empty URI), and does not rename it
   * afterwards.
   */
  lemma ParseRoot(v: Value)
    ensures Parse(v).Ok? ==>
      var m := ReflectionClassMeta(v).value;
      var u := RootNamespace(RootName(m), m.namespaces).0.GetOr("");
      var r := Parse(v).value;
      (if IsEmptyString(u) then r.uri == "" && r.name == Sanitise(RootName(m))
       else r.uri == u && r.name == RootName(m))
  {
    if Parse(v).Ok? {
      var m := ReflectionClassMeta(v).value;
      var ns := RootNamespace(RootName(m), m.namespaces);
      var root := XmlNode.NewElement(RootName(m), ns.0.GetOr("")).value;
      ArrayToXmlExtends(v, Built(root, ns.1), Some(m));
    }
  }

  /** Every prefix left in the root's list is declared on the document element, and no prefix twice. */
  lemma ParseDeclares(v: Value, k: string)
    ensures Parse(v).Ok? ==>
      var m := ReflectionClassMeta(v).value;
      var ns := RootNamespace(RootName(m), m.namespaces);
      var r := Parse(v).value;
      UniquePrefixes(r.nsDecls) && (k in NsKeys(ns.1) ==> NsLookup(r.nsDecls, k).Some?)
  {
    if Parse(v).Ok? {
      var m := ReflectionClassMeta(v).value;
      var ns := RootNamespace(RootName(m), m.namespaces);
      var root := XmlNode.NewElement(RootName(m), ns.0.GetOr("")).value;
      ArrayToXmlExtends(v, Built(root, ns.1), Some(m));
      var built := ArrayToXml(v, Built(root, ns.1), Some(m)).value;
      assert Parse(v).value == built.node.(nsDecls := ApplyNs(built.node.nsDecls, built.docNs));
      ApplyNsLookup(built.node.nsDecls, built.docNs, k);
      if k in NsKeys(ns.1) {
        var j :| 0 <= j < |ns.1| && ns.1[j].0 == k;
        assert built.docNs[j] == built.docNs[..|ns.1|][j];
        LastForSome(built.docNs, j);
      }
    }
  }

  // ------------------------------------------------------------ processScalar

  /**
   * A scalar becomes an attribute of this node, an attribute of the node the
   * `isAttributeOf` path selects, or a child named with the prefix; the text
   * is escaped, and nothing else changes.
   */
  lemma ProcessScalarLaws(text: string, m: XmlEntity, rule: Option<XmlProperty>, name: string, b: Built, other: string)
    ensures var r := ProcessScalar(text, m, rule, name, b);
      AsAttribute(rule) ==>
        (r.Ok? <==> IsXmlName(name)) &&
        (r.Ok? ==>
          AttrLookup(r.value.node.attrs, name) == Some(Escape(text)) &&
          (other != name ==> AttrLookup(r.value.node.attrs, other) == AttrLookup(b.node.attrs, other)) &&
          r.value.node.children == b.node.children && r.value.docNs == b.docNs)
    ensures var r := ProcessScalar(text, m, rule, name, b);
      !AsAttribute(rule) && AsAttributeOf(rule) ==>
        var p := SelectSingle(b.node, rule.value.isAttributeOf.value);
        (p.None? ==> r == Err(NodeNotFound)) &&
        (r.Ok? <==> p.Some? && IsXmlName(name)) &&
        (r.Ok? ==>
          ValidPath(r.value.node, p.value) &&
          AttrLookup(At(r.value.node, p.value).attrs, name) == Some(Escape(text)) &&
          ReplaceAt(r.value.node, p.value, At(b.node, p.value)) == b.node && r.value.docNs == b.docNs)
    ensures var r := ProcessScalar(text, m, rule, name, b);
      var n := m.usePrefix.GetOr("") + name;
      !AsAttribute(rule) && !AsAttributeOf(rule) ==>
        (r.Ok? <==> |n| > 0 && !IsDigit(n[0])) &&
        (r.Ok? ==>
          r.value.node == AppendChild(b.node, ElementNode(XmlNode.WithText(Element(Sanitise(n), "", [], [], []), Escape(text), false))) &&
          r.value.docNs == b.docNs)
  {
    if AsAttribute(rule) {
      SetAttrLaws(b.node.attrs, name, Escape(text), other);
    } else if AsAttributeOf(rule) {
      var p := SelectSingle(b.node, rule.value.isAttributeOf.value);
      if p.Some? {
        SetAttrAtLaws(b.node, p.value, name, Escape(text));
        SetAttrLaws(At(b.node, p.value).attrs, name, Escape(text), other);
      }
    }
  }

  // ------------------------------------------------------------- processArray

  predicate ScalarEntries(es: seq<(Key, Value)>) {
    forall j :: 0 <= j < |es| ==> es[j].1.Scalar?
  }

  /** Every entry's element name is accepted by `createElement` once sanitised. */
  predicate NamesAccepted(es: seq<(Key, Value)>) {
    forall j :: 0 <= j < |es| ==> |ItemName(es[j].0)| > 0 && !IsDigit(ItemName(es[j].0)[0])
  }

  /** The element one scalar entry becomes. */
  function ItemNode(key: Key, text: string): Node {
    ElementNode(XmlNode.WithText(Element(Sanitise(ItemName(key)), "", [], [], []), Escape(text), false))
  }

  /** The reference list: one element per entry, in order. */
  function ItemNodes(es: seq<(Key, Value)>): seq<Node>
    requires ScalarEntries(es)
  {
    if es == [] then [] else [ItemNode(es[0].0, es[0].1.text)] + ItemNodes(es[1..])
  }

  /** A numeric key names its element `item`, and the text is escaped, so it holds no markup. */
  lemma ItemNodeLaws(key: Key, text: string)
    ensures IsNumericKey(key) ==> ItemNode(key, text).element.name == "item"
    ensures ItemNode(key, text).element.children == [] ||
      (ItemNode(key, text).element.children == [TextNode(Escape(text))] && NoMarkup(Escape(text)))
  {
    EscapeLeavesNoMarkup(text);
  }

  /** One scalar entry: its element, or the refusal of its name. */
  lemma ScalarEntryStep(x: Value, i: nat, s: Built)
    requires x.ArrayValue? && i < |x.entries| && x.entries[i].1.Scalar?
    ensures var key := x.entries[i].0;
      EntryStep(x, i, s) ==
        if |ItemName(key)| > 0 && !IsDigit(ItemName(key)[0])
        then Ok(s.(node := AppendChild(s.node, ItemNode(key, x.entries[i].1.text))))
        else Err(InvalidName)
  {
    var key := x.entries[i].0;
    var e := XmlNode.NewElement(ItemName(key), "");
    if e.Ok? {
      assert e.value == Element(Sanitise(ItemName(key)), "", [], [], []);
    }
  }

  lemma ShiftEntries(es: seq<(Key, Value)>, i: nat)
    requires i < |es| && ScalarEntries(es[i..])
    ensures es[i..] == [es[i]] + es[i + 1..]
    ensures ScalarEntries(es[i + 1..])
    ensures ItemNodes(es[i..]) == [ItemNode(es[i].0, es[i].1.text)] + ItemNodes(es[i + 1..])
    ensures NamesAccepted(es[i..]) <==>
      |ItemName(es[i].0)| > 0 && !IsDigit(ItemName(es[i].0)[0]) && NamesAccepted(es[i + 1..])
  {
    assert es[i..] == [es[i]] + es[i + 1..];
    assert es[i..][1..] == es[i + 1..];
    forall j | 0 < j < |es[i..]| ensures es[i..][j] == es[i + 1..][j - 1] { }
  }

  /** What folding an all-scalar array from entry `i` gives. */
  function ScalarFold(x: Value, i: nat, s: Built): Result<Built, Error>
    requires x.ArrayValue? && i <= |x.entries| && ScalarEntries(x.entries[i..])
  {
    if NamesAccepted(x.entries[i..])
    then Ok(s.(node := s.node.(children := s.node.children + ItemNodes(x.entries[i..]))))
    else Err(InvalidName)
  }

  /** `ScalarFold` from entry `i`, in terms of the fold from entry `i + 1`. */
  lemma ScalarFoldStep(x: Value, i: nat, s: Built)
    requires x.ArrayValue? && i < |x.entries| && ScalarEntries(x.entries[i..])
    ensures ScalarEntries(x.entries[i + 1..])
    ensures var key := x.entries[i].0;
      ScalarFold(x, i, s) ==
        if |ItemName(key)| > 0 && !IsDigit(ItemName(key)[0])
        then ScalarFold(x, i + 1, s.(node := AppendChild(s.node, ItemNode(key, x.entries[i].1.text))))
        else Err(InvalidName)
  {
    var es := x.entries;
    ShiftEntries(es, i);
    assert s.node.children + [ItemNode(es[i].0, es[i].1.text)] + ItemNodes(es[i + 1..]) == s.node.children + ItemNodes(es[i..]);
  }

  /** Folding an all-scalar array appends one element per entry, or refuses the first bad name. */
  lemma {:induction false} FoldScalarEntries(x: Value, i: nat, s: Built)
    requires x.ArrayValue? && i <= |x.entries| && ScalarEntries(x.entries[i..])
    ensures FoldEntries(x, i, s) == ScalarFold(x, i, s)
    decreases |x.entries| - i
  {
    var es := x.entries;
    if i == |es| {
      assert es[i..] == [];
      assert s.node.(children := s.node.children + []) == s.node;
    } else {
      assert es[i..][0] == es[i];
      ScalarEntryStep(x, i, s);
      ScalarFoldStep(x, i, s);
      var key := es[i].0;
      if |ItemName(key)| > 0 && !IsDigit(ItemName(key)[0]) {
        FoldScalarEntries(x, i + 1, s.(node := AppendChild(s.node, ItemNode(key, es[i].1.text))));
      }
    }
  }

  /**
   * An array of scalars: under a non-numeric property name it becomes one
   * wrapper child holding one element per entry, in order; under a numeric
   * one the entries go straight under the current node.
   */
  lemma ProcessScalarArray(es: seq<(Key, Value)>, propName: Key, name: string, b: Built)
    requires ScalarEntries(es)
    ensures var r := ProcessArray(ArrayValue(es), propName, name, b);
      !IsNumericKey(propName) ==>
        (r.Ok? <==> |name| > 0 && !IsDigit(name[0]) && NamesAccepted(es)) &&
        (r.Ok? ==> r.value == Built(AppendChild(b.node, ElementNode(Element(Sanitise(name), "", [], [], ItemNodes(es)))), b.docNs))
    ensures var r := ProcessArray(ArrayValue(es), propName, name, b);
      IsNumericKey(propName) ==>
        (r.Ok? <==> NamesAccepted(es)) &&
        (r.Ok? ==> r.value == b.(node := b.node.(children := b.node.children + ItemNodes(es))))
  {
    var x := ArrayValue(es);
    assert x.entries[0..] == es;
    if !IsNumericKey(propName) {
      var w := XmlNode.NewElement(name, "");
      if w.Ok? {
        assert w.value == Element(Sanitise(name), "", [], [], []);
        FoldScalarEntries(x, 0, Built(w.value, b.docNs));
        var f := FoldEntries(x, 0, Built(w.value, b.docNs));
        if f.Ok? {
          assert w.value.children + ItemNodes(es) == ItemNodes(es);
          assert f.value == Built(Element(Sanitise(name), "", [], [], ItemNodes(es)), b.docNs);
          assert ProcessArray(x, propName, name, b) == Ok(Attach(b.node, f.value));
        }
      }
    } else {
      FoldScalarEntries(x, 0, b);
    }
  }

  /** A scalar entry "0" gives an element with no text: `appendChild` drops PHP-empty text. */
  lemma ZeroEntryIsEmpty(key: Key)
    ensures ItemNode(key, "0").element.children == []
  {
    assert Escape("0") == EscapeChar('0') + Escape("");
  }

  // ---------------------------------------------------------------- transform

  /** The name `processObject`'s child ends with: the sanitised property name, prefixed as the object's metadata says. */
  function ObjectChildName(name: string, m: XmlEntity): string {
    if HasPrefix(m) then PrefixedName(Sanitise(name), m.usePrefix.value) else Sanitise(name)
  }

  /**
   * `processObject` hangs exactly one new child, in no namespace, under the
   * parent. The child is named after the sanitised property name with the
   * object's own prefix, the queue grows by the object's own namespaces, and
   * the child is what folding the object's members under its own metadata
   * makes of an empty element with that name. A refused name is reported
   * before a refused class.
   */
  lemma ProcessObjectLaws(x: Value, name: string, b: Built)
    ensures XmlNode.NewElement(name, "").Err? ==> ProcessObject(x, name, b) == Err(XmlNode.NewElement(name, "").error)
    ensures XmlNode.NewElement(name, "").Ok? && ReflectionClassMeta(x).Err? ==>
      ProcessObject(x, name, b) == Err(ReflectionClassMeta(x).error)
    ensures ProcessObject(x, name, b).Ok? ==>
      var r := ProcessObject(x, name, b).value;
      var n := |b.node.children|;
      |r.node.children| == n + 1 && r.node.children[..n] == b.node.children &&
      r.node == b.node.(children := r.node.children) && r.node.children[n].ElementNode?
    ensures ProcessObject(x, name, b).Ok? ==>
      ReflectionClassMeta(x).Ok? &&
      var m := ReflectionClassMeta(x).value;
      var r := ProcessObject(x, name, b).value;
      var c := r.node.children[|b.node.children|].element;
      var start := b.docNs + m.namespaces;
      c.name == ObjectChildName(name, m) && c.uri == "" &&
      |start| <= |r.docNs| && r.docNs[..|start|] == start &&
      FoldMembers(x, 0, m, Built(Element(ObjectChildName(name, m), "", [], [], []), start)) == Ok(Built(c, r.docNs))
  {
    var c := XmlNode.NewElement(name, "");
    if c.Ok? {
      assert c.value == Element(Sanitise(name), "", [], [], []);
      ArrayToXmlExtends(x, Built(c.value, b.docNs), None);
      var meta := ReflectionClassMeta(x);
      if meta.Ok? {
        var m := meta.value;
        var start := AddNamespaces(Built(c.value, b.docNs), m);
        assert start == Built(Element(ObjectChildName(name, m), "", [], [], []), b.docNs + m.namespaces);
        FoldMembersExtends(x, 0, m, start);
      }
    }
  }

  /** The transformer tries array, then object, then scalar; `null` goes the scalar way as "". */
  lemma TransformLaws(rule: Option<XmlProperty>, k: Key, x: Value, m: XmlEntity, b: Built)
    ensures x.ArrayValue? ==> Transform(rule, k, x, m, b) == ProcessArray(x, k, FieldName(rule, k), b)
    ensures x.ObjectValue? ==> Transform(rule, k, x, m, b) == ProcessObject(x, FieldName(rule, k), b)
    ensures x.Scalar? ==> Transform(rule, k, x, m, b) == ProcessScalar(x.text, m, rule, FieldName(rule, k), b)
    ensures x.Null? ==> Transform(rule, k, x, m, b) == ProcessScalar("", m, rule, FieldName(rule, k), b)
  {
  }
}
