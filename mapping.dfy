/**
 * The entity-to-XML mapper of `EntityParser`, as functions. The input is a
 * closed value; the DOM it fills is threaded through as the element being
 * filled plus the namespace declarations queued for the document element,
 * where `XmlNode::addNamespace` puts them.
 */
module Mapping {
  import opened Wrappers
  import opened Php
  import opened Attributes
  import opened Dom
  import XmlNode

  /**
   * An object's class as reflection shows it: `stdClass`, or a declared
   * (possibly anonymous) class with its `XmlEntity` attributes and, per
   * declared property, its `XmlProperty` attributes.
   */
  datatype ClassRef =
    | StdClass
    | Declared(className: string, anonymous: bool, entities: seq<XmlEntity>, declaredProps: seq<(string, seq<XmlProperty>)>)

  /**
   * A value reaching the mapper. Scalars carry their `"$value"` string; an
   * object carries the `(rule, name, value)` list that `parseAttributes`
   * hands to the transformer.
   */
  datatype Value =
    | Scalar(text: string)
    | Null
    | ArrayValue(entries: seq<(Key, Value)>)
    | ObjectValue(cls: ClassRef, props: seq<(Option<XmlProperty>, string, Value)>)

  /** The element being filled, and the declarations queued for the document element. */
  datatype Built = Built(node: Element, docNs: Namespaces)

  // ---------------------------------------------------------------- metadata

  /** `end(explode('\\', $name))`: the part after the last backslash. */
  function LastSegment(name: string): (r: string)
    ensures '\\' !in r
    ensures |r| <= |name| && name[|name| - |r|..] == r
    ensures '\\' !in name ==> r == name
  {
    match LastIndexOf(name, '\\')
    case None => name
    case Some(k) => name[k + 1..]
  }

  /** The entity `getReflectionClassMeta` gives arrays and `stdClass`. */
  const DefaultMeta: XmlEntity := NewXmlEntity(rootElementName := Some("root"))

  /** The entity built from a class's own `XmlEntity` attribute. */
  function AnnotatedMeta(t: XmlEntity, className: string): XmlEntity {
    var name := t.rootElementName.GetOr(LastSegment(className));
    NewXmlEntity(
      rootElementName := Some(if t.preserveCaseName then name else Lower(name)),
      namespaces := t.namespaces,
      preserveCaseName := t.preserveCaseName,
      usePrefix := if t.usePrefix.Some? && !IsEmptyString(t.usePrefix.value) then Some(t.usePrefix.value + ":") else None)
  }

  /** `getReflectionClassMeta`: only arrays and objects are accepted. */
  function ReflectionClassMeta(v: Value): (r: Result<XmlEntity, Error>)
    ensures r.Ok? ==> r.value.rootElementName.Some?
  {
    match v
    case Scalar(_) => Err(TypeError)
    case Null => Err(TypeError)
    case ArrayValue(_) => Ok(DefaultMeta)
    case ObjectValue(StdClass, _) => Ok(DefaultMeta)
    case ObjectValue(Declared(name, anonymous, entities, _), _) =>
      if |entities| > 1 then Err(AmbiguousEntity)
      else if |entities| == 1 then Ok(AnnotatedMeta(entities[0], name))
      else Ok(NewXmlEntity(rootElementName := Some(if anonymous then "root" else Lower(LastSegment(name)))))
  }

  function RootName(m: XmlEntity): string {
    m.rootElementName.GetOr("")
  }

  /** `!empty($metadata->getUsePrefix())`. */
  predicate HasPrefix(m: XmlEntity) {
    m.usePrefix.Some? && !IsEmptyString(m.usePrefix.value)
  }

  // -------------------------------------------------------------- namespaces

  function NsKeys(list: Namespaces): set<string> {
    set j | 0 <= j < |list| :: list[j].0
  }

  /** `$list[$key]` for a key that `isset` finds: its first entry. */
  function NsGet(list: Namespaces, key: string): (r: string)
    requires key in NsKeys(list)
    ensures exists j :: 0 <= j < |list| && list[j] == (key, r)
  {
    if list[0].0 == key then list[0].1
    else
      assert key in NsKeys(list[1..]) by {
        var j :| 0 <= j < |list| && list[j].0 == key;
        assert list[1..][j - 1] == list[j];
      }
      var r := NsGet(list[1..], key);
      ghost var j :| 0 <= j < |list[1..]| && list[1..][j] == (key, r);
      assert list[j + 1] == (key, r);
      r
  }

  /** `unset($list[$key])`: the entries under every other key, in order. */
  function NsUnset(list: Namespaces, key: string): (r: Namespaces)
    ensures key !in NsKeys(r)
    ensures NsKeys(r) == NsKeys(list) - {key}
  {
    if list == [] then []
    else
      var rest := NsUnset(list[1..], key);
      assert NsKeys(list) == {list[0].0} + NsKeys(list[1..]) by {
        forall x | x in NsKeys(list) ensures x in {list[0].0} + NsKeys(list[1..]) {
          var j :| 0 <= j < |list| && list[j].0 == x;
          if j > 0 { assert list[1..][j - 1] == list[j]; }
        }
      }
      if list[0].0 == key then rest
      else
        assert NsKeys([list[0]] + rest) == {list[0].0} + NsKeys(rest) by {
          var s := [list[0]] + rest;
          forall x | x in NsKeys(s) ensures x in {list[0].0} + NsKeys(rest) {
            var j :| 0 <= j < |s| && s[j].0 == x;
            if j > 0 { assert rest[j - 1] == s[j]; }
          }
          forall x | x in {list[0].0} + NsKeys(rest) ensures x in NsKeys(s) {
            if x != list[0].0 {
              var j :| 0 <= j < |rest| && rest[j].0 == x;
              assert s[j + 1] == rest[j];
            } else {
              assert s[0].0 == x;
            }
          }
        }
        [list[0]] + rest
  }

  /**
   * The namespace the root element is created in, and the declarations
   * `parse` then adds: a prefixed root name whose prefix is declared takes
   * that URI out of the list; otherwise the namespace is null.
   */
  function RootNamespace(rootName: string, list: Namespaces): (Option<string>, Namespaces) {
    if ':' !in rootName then (None, list)
    else
      var prefix := Before(rootName, ':');
      if prefix in NsKeys(list) then (Some(NsGet(list, prefix)), NsUnset(list, prefix)) else (None, list)
  }

  /** The name `addNamespaces` gives a node: prefixed once, whatever prefix it had replaced. */
  function PrefixedName(name: string, prefix: string): string {
    if ':' in name then
      if StartsWith(name, prefix) then name else prefix + After(name, ':')
    else prefix + name
  }

  /** `addNamespaces($xml, $metadata)`. */
  function AddNamespaces(b: Built, m: XmlEntity): (r: Built)
    ensures r.docNs == b.docNs + m.namespaces
    ensures r.node == b.node.(name := r.node.name)
  {
    Built(
      if HasPrefix(m) then Rename(b.node, PrefixedName(b.node.name, m.usePrefix.value)) else b.node,
      b.docNs + m.namespaces)
  }

  // ------------------------------------------------------------ transformer

  /** `$property?->getElementName() ?? $propertyName`, lower-cased unless the rule preserves case. */
  function FieldName(rule: Option<XmlProperty>, propName: Key): string {
    var name := if rule.Some? && rule.value.elementName.Some? then rule.value.elementName.value else KeyString(propName);
    if rule.Some? && rule.value.preserveCaseName then name else Lower(name)
  }

  /** The name of a scalar array entry. */
  function ItemName(key: Key): string {
    if IsNumericKey(key) then "item" else KeyString(key)
  }

  /** `$xml->appendChild($name, $text)`, as `XmlNode::createChild`. */
  function AppendNamed(parent: Element, name: string, text: string): Result<Element, Error> {
    var x :- XmlNode.NewElement(name, "");
    Ok(AppendChild(parent, ElementNode(XmlNode.WithText(x, text, false))))
  }

  /** Hang a filled child element under the element being filled. */
  function Attach(parent: Element, child: Built): Built {
    Built(AppendChild(parent, ElementNode(child.node)), child.docNs)
  }

  /** `$isAttribute === true`. */
  predicate AsAttribute(rule: Option<XmlProperty>) {
    rule.Some? && rule.value.isAttribute
  }

  /** `!empty($isAttributeOf)`. */
  predicate AsAttributeOf(rule: Option<XmlProperty>) {
    rule.Some? && rule.value.isAttributeOf.Some? && !IsEmptyString(rule.value.isAttributeOf.value)
  }

  /** `processScalar`: an attribute here, an attribute on a selected node, or a prefixed child. */
  function ProcessScalar(text: string, m: XmlEntity, rule: Option<XmlProperty>, name: string, b: Built): Result<Built, Error> {
    var escaped := Escape(text);
    if AsAttribute(rule) then
      if !IsXmlName(name) then Err(InvalidName)
      else Ok(b.(node := b.node.(attrs := SetAttr(b.node.attrs, name, escaped))))
    else if AsAttributeOf(rule) then
      match SelectSingle(b.node, rule.value.isAttributeOf.value)
      case None => Err(NodeNotFound)
      case Some(p) => if !IsXmlName(name) then Err(InvalidName) else Ok(b.(node := SetAttrAt(b.node, p, name, escaped)))
    else
      var e :- AppendNamed(b.node, m.usePrefix.GetOr("") + name, escaped);
      Ok(b.(node := e))
  }

  /** The transformer closure: array first, then object, then scalar. */
  function Transform(rule: Option<XmlProperty>, propName: Key, x: Value, m: XmlEntity, b: Built): Result<Built, Error>
    decreases x, 3, 0
  {
    var name := FieldName(rule, propName);
    match x
    case ArrayValue(_) => ProcessArray(x, propName, name, b)
    case ObjectValue(_, _) => ProcessObject(x, name, b)
    case Scalar(t) => ProcessScalar(t, m, rule, name, b)
    case Null => ProcessScalar("", m, rule, name, b)
  }

  /** `processObject`: a child named `name`, filled with the object under its own metadata. */
  function ProcessObject(x: Value, name: string, b: Built): Result<Built, Error>
    decreases x, 2, 1
  {
    var child :- XmlNode.NewElement(name, "");
    var filled :- ArrayToXml(x, Built(child, b.docNs), None);
    Ok(Attach(b.node, filled))
  }

  /** `processArray`: a wrapper child only for a non-numeric property name. */
  function ProcessArray(x: Value, propName: Key, name: string, b: Built): Result<Built, Error>
    requires x.ArrayValue?
    decreases x, 2, 0
  {
    if !IsNumericKey(propName) then
      var wrapper :- XmlNode.NewElement(name, "");
      var filled :- FoldEntries(x, 0, Built(wrapper, b.docNs));
      Ok(Attach(b.node, filled))
    else FoldEntries(x, 0, b)
  }

  /** One entry of `processArray`'s loop. */
  function EntryStep(x: Value, i: nat, s: Built): Result<Built, Error>
    requires x.ArrayValue? && i < |x.entries|
    decreases x, 1, |x.entries| - i, 0
  {
    assert x.entries[i] in x.entries;
    var key := x.entries[i].0;
    var y := x.entries[i].1;
    match y
    case Scalar(t) =>
      var e :- AppendNamed(s.node, ItemName(key), Escape(t));
      Ok(s.(node := e))
    case ArrayValue(_) => ProcessArray(y, key, KeyString(key), s)
    case _ =>
      var meta :- ReflectionClassMeta(y);
      ProcessObject(y, RootName(meta), s)
  }

  /** `foreach ($parsedValue as $key => $value)` from entry `i` on. */
  function FoldEntries(x: Value, i: nat, s: Built): Result<Built, Error>
    requires x.ArrayValue? && i <= |x.entries|
    decreases x, 1, |x.entries| - i, 1
  {
    if i == |x.entries| then Ok(s)
    else
      var s' :- EntryStep(x, i, s);
      FoldEntries(x, i + 1, s')
  }

  function MemberCount(v: Value): nat {
    match v
    case ArrayValue(es) => |es|
    case ObjectValue(_, ps) => |ps|
    case _ => 0
  }

  /** The transformer applied to member `i` of an array or object. */
  function MemberStep(v: Value, i: nat, m: XmlEntity, b: Built): Result<Built, Error>
    requires i < MemberCount(v)
    decreases v, 1, MemberCount(v) - i, 0
  {
    match v
    case ArrayValue(es) =>
      assert es[i] in es;
      Transform(None, es[i].0, es[i].1, m, b)
    case ObjectValue(_, ps) =>
      assert ps[i] in ps;
      Transform(ps[i].0, StrKey(ps[i].1), ps[i].2, m, b)
  }

  /** `parseAttributes($transformer)` from member `i` on. */
  function FoldMembers(v: Value, i: nat, m: XmlEntity, b: Built): Result<Built, Error>
    requires i <= MemberCount(v)
    decreases v, 1, MemberCount(v) - i, 1
  {
    if i == MemberCount(v) then Ok(b)
    else
      var b' :- MemberStep(v, i, m, b);
      FoldMembers(v, i + 1, m, b')
  }

  /** `arrayToXml($array, $xml, $rootMetadata)`: without metadata the value's own is looked up and applied. */
  function ArrayToXml(v: Value, b: Built, meta: Option<XmlEntity>): Result<Built, Error>
    decreases v, 2, 0
  {
    if meta.None? then
      var m :- ReflectionClassMeta(v);
      FoldMembers(v, 0, m, AddNamespaces(b, m))
    else FoldMembers(v, 0, meta.value, b)
  }

  /**
   * `parse($serializable)`: the document element, with the queued
   * declarations applied to it in order.
   */
  function Parse(v: Value): Result<Element, Error> {
    var m :- ReflectionClassMeta(v);
    var ns := RootNamespace(RootName(m), m.namespaces);
    var root :- XmlNode.NewElement(RootName(m), ns.0.GetOr(""));
    var built :- ArrayToXml(v, Built(root, ns.1), Some(m));
    Ok(built.node.(nsDecls := ApplyNs(built.node.nsDecls, built.docNs)))
  }
}
