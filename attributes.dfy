/**
 * The two PHP attributes that steer the entity-to-XML mapper: `XmlEntity`
 * on a class and `XmlProperty` on a property. Both are immutable once
 * constructed; the getters are the datatype fields.
 */
module Attributes {
  import opened Wrappers

  /** A PHP array `prefix => uri`, in insertion order. */
  type Namespaces = seq<(string, string)>

  datatype XmlEntity = XmlEntity(
    rootElementName: Option<string>,
    namespaces: Namespaces,
    preserveCaseName: bool,
    addNamespaceRoot: bool,
    usePrefix: Option<string>)

  /**
   * `new XmlEntity(...)`: the parameters and defaults of the PHP constructor;
   * naming the root element explicitly also preserves its case.
   */
  function NewXmlEntity(
    rootElementName: Option<string> := None,
    namespaces: Namespaces := [],
    preserveCaseName: bool := false,
    addNamespaceRoot: bool := true,
    usePrefix: Option<string> := None): XmlEntity
  {
    XmlEntity(rootElementName, namespaces, rootElementName.Some? || preserveCaseName, addNamespaceRoot, usePrefix)
  }

  lemma EntityPreservesCaseOfNamedRoot(name: string, ns: Namespaces, flag: bool, addRoot: bool, prefix: Option<string>)
    ensures NewXmlEntity(Some(name), ns, flag, addRoot, prefix).preserveCaseName
  {
  }

  lemma EntityCaseFlagWithoutName(ns: Namespaces, flag: bool, addRoot: bool, prefix: Option<string>)
    ensures NewXmlEntity(None, ns, flag, addRoot, prefix).preserveCaseName == flag
  {
  }

  lemma EntityGetters(name: Option<string>, ns: Namespaces, flag: bool, addRoot: bool, prefix: Option<string>)
    ensures var e := NewXmlEntity(name, ns, flag, addRoot, prefix);
      e.rootElementName == name && e.namespaces == ns && e.addNamespaceRoot == addRoot && e.usePrefix == prefix
  {
  }

  lemma EntityDefaults()
    ensures NewXmlEntity() == XmlEntity(None, [], false, true, None)
  {
  }

  /**
   * `isAttributeOf` is not a parameter of this revision's constructor; it is
   * kept as an optional path so that the mapper's three placements can be
   * modelled.
   */
  datatype XmlProperty = XmlProperty(
    elementName: Option<string>,
    namespaces: Namespaces,
    preserveCaseName: bool,
    isAttribute: bool,
    isAttributeOf: Option<string>)

  /** `new XmlProperty(...)`: naming the element explicitly also preserves its case. */
  function NewXmlProperty(
    elementName: Option<string> := None,
    namespaces: Namespaces := [],
    preserveCaseName: bool := false,
    isAttribute: bool := false,
    isAttributeOf: Option<string> := None): XmlProperty
  {
    XmlProperty(elementName, namespaces, elementName.Some? || preserveCaseName, isAttribute, isAttributeOf)
  }

  lemma PropertyPreservesCaseOfNamedElement(name: string, ns: Namespaces, flag: bool, isAttr: bool, of: Option<string>)
    ensures NewXmlProperty(Some(name), ns, flag, isAttr, of).preserveCaseName
  {
  }

  lemma PropertyCaseFlagWithoutName(ns: Namespaces, flag: bool, isAttr: bool, of: Option<string>)
    ensures NewXmlProperty(None, ns, flag, isAttr, of).preserveCaseName == flag
  {
  }

  lemma PropertyGetters(name: Option<string>, ns: Namespaces, flag: bool, isAttr: bool, of: Option<string>)
    ensures var p := NewXmlProperty(name, ns, flag, isAttr, of);
      p.elementName == name && p.namespaces == ns && p.isAttribute == isAttr && p.isAttributeOf == of
  {
  }

  lemma PropertyDefaults()
    ensures NewXmlProperty() == XmlProperty(None, [], false, false, None)
  {
  }
}
