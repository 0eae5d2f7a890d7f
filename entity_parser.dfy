/**
 * The `EntityParser` object: its per-class property cache, and the mapper's
 * loops written as the source writes them, each proved to compute what the
 * functions of `Mapping` define.
 */
module EntityParser {
  import opened Wrappers
  import opened Php
  import opened Attributes
  import opened Dom
  import XmlNode
  import opened Mapping

  /** The rules of one class, by property name, in the order PHP's array keeps them. */
  type Rules = seq<(string, XmlProperty)>

  function RuleNames(list: Rules): set<string> {
    set j | 0 <= j < |list| :: list[j].0
  }

  lemma RuleNamesCons(head: (string, XmlProperty), rest: Rules)
    ensures RuleNames([head] + rest) == {head.0} + RuleNames(rest)
  {
    var s := [head] + rest;
    forall n | n in RuleNames(s) ensures n in {head.0} + RuleNames(rest) {
      var j :| 0 <= j < |s| && s[j].0 == n;
      if j > 0 { assert rest[j - 1] == s[j]; }
    }
    forall n | n in {head.0} + RuleNames(rest) ensures n in RuleNames(s) {
      if n == head.0 {
        assert s[0].0 == n;
      } else {
        var j :| 0 <= j < |rest| && rest[j].0 == n;
        assert s[j + 1] == rest[j];
      }
    }
  }

  /**
   * `$rules[$key] = $value` on a PHP array: an existing key keeps its place
   * and takes the new value; a new key goes last.
   */
  function Assign(list: Rules, key: string, value: XmlProperty): Rules {
    if list == [] then [(key, value)]
    else if list[0].0 == key then [(key, value)] + list[1..]
    else [list[0]] + Assign(list[1..], key, value)
  }

  lemma {:induction false} AssignLaws(list: Rules, key: string, value: XmlProperty)
    ensures RuleNames(Assign(list, key, value)) == RuleNames(list) + {key}
    ensures key !in RuleNames(list) ==> Assign(list, key, value) == list + [(key, value)]
    ensures key in RuleNames(list) ==> |Assign(list, key, value)| == |list|
    ensures forall j :: 0 <= j < |list| && list[j].0 != key ==> Assign(list, key, value)[j] == list[j]
  {
    if list == [] {
      RuleNamesCons((key, value), []);
    } else {
      assert list == [list[0]] + list[1..];
      RuleNamesCons(list[0], list[1..]);
      if list[0].0 == key {
        RuleNamesCons((key, value), list[1..]);
      } else {
        var rest := Assign(list[1..], key, value);
        AssignLaws(list[1..], key, value);
        RuleNamesCons(list[0], rest);
        forall j | 0 < j < |list| && list[j].0 != key ensures Assign(list, key, value)[j] == list[j] {
          assert list[1..][j - 1] == list[j];
        }
      }
    }
  }

  /** The cache entry after the loop of `parseProperties` has seen the first `i` declared properties. */
  function RulesUpTo(declared: seq<(string, seq<XmlProperty>)>, i: nat): Rules
    requires i <= |declared|
  {
    if i == 0 then []
    else
      var r := RulesUpTo(declared, i - 1);
      var (name, attrs) := declared[i - 1];
      if |attrs| == 0 then r else Assign(r, name, attrs[0])
  }

  /**
   * `parseProperties($object)`: the rules and the new cache. The cache entry
   * is written, as `[]`, before the anonymous-class check returns null.
   */
  function ParsePropertiesSpec(cache: map<string, Rules>, cls: ClassRef): (Option<Rules>, map<string, Rules>) {
    match cls
    case StdClass => (None, cache)
    case Declared(name, anonymous, _, declared) =>
      if name in cache then (Some(cache[name]), cache)
      else if anonymous then (None, cache[name := []])
      else
        var rules := RulesUpTo(declared, |declared|);
        (Some(rules), cache[name := rules])
  }

  class EntityParser {
    /** `$this->properties`: the rules of every class seen so far. */
    var properties: map<string, Rules>

    constructor()
      ensures properties == map[]
    {
      properties := map[];
    }

    /** `parseProperties`, writing into the cache as the source does. */
    method ParseProperties(cls: ClassRef) returns (r: Option<Rules>)
      modifies this
      ensures (r, properties) == ParsePropertiesSpec(old(properties), cls)
    {
      if cls.StdClass? {
        return None;
      }
      var name := cls.className;
      if name in properties {
        return Some(properties[name]);
      }
      properties := properties[name := []];
      if cls.anonymous {
        return None;
      }
      ghost var cache := properties;
      FillRules(name, cls.declaredProps);
      assert properties == old(properties)[name := RulesUpTo(cls.declaredProps, |cls.declaredProps|)] by {
        assert cache == old(properties)[name := []];
      }
      return Some(properties[name]);
    }

    /** The loop of `parseProperties`: the first attribute of every annotated property, under its name. */
    method FillRules(name: string, declared: seq<(string, seq<XmlProperty>)>)
      requires name in properties && properties[name] == []
      modifies this
      ensures properties == old(properties)[name := RulesUpTo(declared, |declared|)]
    {
      var i := 0;
      while i < |declared|
        invariant 0 <= i <= |declared|
        invariant properties == old(properties)[name := RulesUpTo(declared, i)]
      {
        var (propName, attrs) := declared[i];
        ghost var before := properties;
        var rules := properties[name];
        assert rules == RulesUpTo(declared, i);
        if |attrs| != 0 {
          rules := Assign(rules, propName, attrs[0]);
          properties := properties[name := rules];
        }
        assert rules == RulesUpTo(declared, i + 1);
        assert properties == old(properties)[name := rules] by {
          assert before == old(properties)[name := RulesUpTo(declared, i)];
        }
        i := i + 1;
      }
    }

    /** `parse($serializable)`. */
    method Parse(v: Value) returns (r: Result<Element, Error>)
      ensures r == Mapping.Parse(v)
    {
      var meta := ReflectionClassMeta(v);
      if meta.Err? {
        return Err(meta.error);
      }
      var m := meta.value;
      var ns := RootNamespace(RootName(m), m.namespaces);
      var root := XmlNode.NewElement(RootName(m), ns.0.GetOr(""));
      if root.Err? {
        return Err(root.error);
      }
      var built := ArrayToXml(v, Built(root.value, ns.1), Some(m));
      if built.Err? {
        return Err(built.error);
      }
      var node := built.value.node;
      return Ok(node.(nsDecls := ApplyNs(node.nsDecls, built.value.docNs)));
    }

    /** `arrayToXml`: the transformer on every member, in order, stopping at the first error. */
    method ArrayToXml(v: Value, b: Built, meta: Option<XmlEntity>) returns (r: Result<Built, Error>)
      ensures r == Mapping.ArrayToXml(v, b, meta)
      decreases v, 2, 0
    {
      var m: XmlEntity;
      var cur: Built;
      if meta.None? {
        var looked := ReflectionClassMeta(v);
        if looked.Err? {
          return Err(looked.error);
        }
        m := looked.value;
        cur := AddNamespaces(b, m);
      } else {
        m := meta.value;
        cur := b;
      }
      var i := 0;
      while i < MemberCount(v)
        invariant 0 <= i <= MemberCount(v)
        invariant Mapping.ArrayToXml(v, b, meta) == FoldMembers(v, i, m, cur)
        decreases MemberCount(v) - i
      {
        var step: Result<Built, Error>;
        if v.ArrayValue? {
          assert v.entries[i] in v.entries;
          step := Transform(None, v.entries[i].0, v.entries[i].1, m, cur);
        } else {
          assert v.props[i] in v.props;
          step := Transform(v.props[i].0, StrKey(v.props[i].1), v.props[i].2, m, cur);
        }
        if step.Err? {
          return Err(step.error);
        }
        cur := step.value;
        i := i + 1;
      }
      return Ok(cur);
    }

    /** The transformer closure: `processArray || processObject || processScalar`. */
    method Transform(rule: Option<XmlProperty>, propName: Key, x: Value, m: XmlEntity, b: Built) returns (r: Result<Built, Error>)
      ensures r == Mapping.Transform(rule, propName, x, m, b)
      decreases x, 3, 0
    {
      var name := FieldName(rule, propName);
      if x.ArrayValue? {
        r := ProcessArray(x, propName, name, b);
      } else if x.ObjectValue? {
        r := ProcessObject(x, name, b);
      } else {
        r := ProcessScalar(if x.Scalar? then x.text else "", m, rule, name, b);
      }
    }

    /** `processObject`. */
    method ProcessObject(x: Value, name: string, b: Built) returns (r: Result<Built, Error>)
      ensures r == Mapping.ProcessObject(x, name, b)
      decreases x, 2, 1
    {
      var child := XmlNode.NewElement(name, "");
      if child.Err? {
        return Err(child.error);
      }
      var filled := ArrayToXml(x, Built(child.value, b.docNs), None);
      if filled.Err? {
        return Err(filled.error);
      }
      return Ok(Attach(b.node, filled.value));
    }

    /** `processArray`: the wrapper, then the loop over the entries. */
    method ProcessArray(x: Value, propName: Key, name: string, b: Built) returns (r: Result<Built, Error>)
      requires x.ArrayValue?
      ensures r == Mapping.ProcessArray(x, propName, name, b)
      decreases x, 2, 0
    {
      if IsNumericKey(propName) {
        r := ProcessEntries(x, b);
        return;
      }
      var wrapper := XmlNode.NewElement(name, "");
      if wrapper.Err? {
        return Err(wrapper.error);
      }
      var filled := ProcessEntries(x, Built(wrapper.value, b.docNs));
      if filled.Err? {
        return Err(filled.error);
      }
      r := Ok(Attach(b.node, filled.value));
    }

    /** The loop of `processArray` over the entries, stopping at the first error. */
    method ProcessEntries(x: Value, sub: Built) returns (r: Result<Built, Error>)
      requires x.ArrayValue?
      ensures r == FoldEntries(x, 0, sub)
      decreases x, 1, |x.entries|, 2
    {
      var cur := sub;
      var i := 0;
      while i < |x.entries|
        invariant 0 <= i <= |x.entries|
        invariant FoldEntries(x, 0, sub) == FoldEntries(x, i, cur)
      {
        var step := ProcessEntry(x, i, cur);
        if step.Err? {
          return Err(step.error);
        }
        cur := step.value;
        i := i + 1;
      }
      r := Ok(cur);
    }

    /** One entry of the loop of `processArray`: an `item` or named element, a nested array, or an object. */
    method ProcessEntry(x: Value, i: nat, cur: Built) returns (r: Result<Built, Error>)
      requires x.ArrayValue? && i < |x.entries|
      ensures r == EntryStep(x, i, cur)
      decreases x, 1, |x.entries| - i, 0
    {
      assert x.entries[i] in x.entries;
      var (key, y) := x.entries[i];
      if y.Scalar? {
        var e := AppendNamed(cur.node, ItemName(key), Escape(y.text));
        if e.Err? {
          return Err(e.error);
        }
        r := Ok(cur.(node := e.value));
      } else if y.ArrayValue? {
        r := ProcessArray(y, key, KeyString(key), cur);
      } else {
        var meta := ReflectionClassMeta(y);
        if meta.Err? {
          return Err(meta.error);
        }
        r := ProcessObject(y, RootName(meta.value), cur);
      }
    }
  }
}
