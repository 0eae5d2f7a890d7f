/** What the `XmlNode` operations promise, stated over their specification functions. */
module XmlNodeLaws {
  import opened Wrappers
  import opened Php
  import opened Dom
  import opened DomLaws
  import opened XmlNode
  import opened ArrayTree

  /**
   * `createChild` fails exactly when the name is refused or there is no
   * element to act on, and a refused name is reported first, since the
   * element is created before the target is looked up; otherwise the new
   * element, with its text, is the last child of the target, the returned
   * wrapper reaches it, and nothing else in the tree changes.
   */
  lemma CreateChildLaws(root: Option<Element>, node: Handle, name: string, text: string, uri: string)
    requires ValidHandle(root, node)
    ensures CreateChildSpec(root, node, name, text, uri).Ok? <==> Target(root, node).Ok? && NewElement(name, uri).Ok?
    ensures NewElement(name, uri).Err? ==> CreateChildSpec(root, node, name, text, uri) == Err(NewElement(name, uri).error)
    ensures NewElement(name, uri).Ok? && Target(root, node).Err? ==> CreateChildSpec(root, node, name, text, uri) == Err(TypeError)
    ensures CreateChildSpec(root, node, name, text, uri).Ok? ==>
      var o := CreateChildSpec(root, node, name, text, uri).value;
      var p := Target(root, node).value;
      var x := WithText(NewElement(name, uri).value, text, false);
      o.root.Some? && ValidPath(o.root.value, p) &&
      At(o.root.value, p).children == At(root.value, p).children + [ElementNode(x)] &&
      At(o.root.value, p) == At(root.value, p).(children := At(o.root.value, p).children) &&
      ReplaceAt(o.root.value, p, At(root.value, p)) == root.value &&
      o.node.ElementHandle? && ValidPath(o.root.value, o.node.path) && At(o.root.value, o.node.path) == x
  {
    var t := Target(root, node);
    var m := NewElement(name, uri);
    if t.Ok? && m.Ok? {
      AppendChildAtLaws(root.value, t.value, ElementNode(WithText(m.value, text, false)));
    }
  }

  /**
   * `createChildBefore` puts the new element at this node's index in the
   * parent's children: this node is now just after it, the other children
   * keep their order, and removing the new element restores the tree.
   */
  lemma CreateChildBeforeLaws(root: Option<Element>, node: Handle, name: string, text: string)
    requires ValidHandle(root, node)
    ensures CreateChildBeforeSpec(root, node, name, text).Ok? <==>
      Target(root, node).Ok? && NewElement(name, "").Ok? && |Target(root, node).value| > 0
    ensures Target(root, node) == Ok([]) && NewElement(name, "").Ok? ==>
      CreateChildBeforeSpec(root, node, name, text) == Err(HierarchyError)
    ensures NewElement(name, "").Err? ==> CreateChildBeforeSpec(root, node, name, text) == Err(NewElement(name, "").error)
    ensures CreateChildBeforeSpec(root, node, name, text).Ok? ==>
      var o := CreateChildBeforeSpec(root, node, name, text).value;
      var p := Target(root, node).value;
      var x := WithText(NewElement(name, "").value, text, false);
      ValidPath(root.value, Parent(p)) && Index(p) < |At(root.value, Parent(p)).children| &&
      o.root.Some? && ValidPath(o.root.value, Parent(p)) &&
      At(o.root.value, Parent(p)).children == InsertAt(At(root.value, Parent(p)).children, Index(p), ElementNode(x)) &&
      o.node == ElementHandle(p) && ValidPath(o.root.value, p) && At(o.root.value, p) == x &&
      ValidPath(o.root.value, Parent(p) + [Index(p) + 1]) && At(o.root.value, Parent(p) + [Index(p) + 1]) == At(root.value, p) &&
      RemoveNodeAt(o.root.value, p) == root
  {
    var t := Target(root, node);
    var m := NewElement(name, "");
    if t.Ok? && m.Ok? && |t.value| > 0 {
      ValidParent(root.value, t.value);
      InsertedBefore(root.value, t.value, WithText(m.value, text, false));
    }
  }

  /** An element inserted at the position of `p` takes that position and pushes the old node one step right. */
  lemma InsertedBefore(e: Element, p: Path, x: Element)
    requires |p| > 0 && ValidPath(e, p) && ValidPath(e, Parent(p)) && Index(p) < |At(e, Parent(p)).children|
    ensures var r := InsertChildAt(e, Parent(p), Index(p), ElementNode(x));
      ValidPath(r, Parent(p)) &&
      At(r, Parent(p)).children == InsertAt(At(e, Parent(p)).children, Index(p), ElementNode(x)) &&
      ValidPath(r, p) && At(r, p) == x &&
      ValidPath(r, Parent(p) + [Index(p) + 1]) && At(r, Parent(p) + [Index(p) + 1]) == At(e, p) &&
      RemoveNodeAt(r, p) == Some(e)
  {
    ValidParent(e, p);
    var q, i := Parent(p), Index(p);
    assert p == q + [i];
    InsertChildAtLaws(e, q, i, ElementNode(x));
    InsertThenRemove(e, q, i, ElementNode(x));
    var r := InsertChildAt(e, q, i, ElementNode(x));
    InsertAtShape(At(e, q).children, i, ElementNode(x));
    assert At(r, q).children[i + 1] == ElementNode(At(e, p));
    assert ValidPath(At(r, q), [i + 1]) && At(At(r, q), [i + 1]) == At(e, p) by {
      assert [i + 1][1..] == [];
    }
    AtConcat(r, q, [i + 1]);
  }

  /**
   * `addTextNode` appends exactly one text (or CDATA) node to the target, and
   * nothing when the text is `empty()`: "" and also "0".
   */
  lemma AddTextNodeLaws(root: Option<Element>, node: Handle, text: string, cdata: bool)
    requires ValidHandle(root, node)
    ensures IsEmptyString(text) ==> AddTextNodeSpec(root, node, text, cdata) == Ok(Outcome(root, node))
    ensures !IsEmptyString(text) ==> (AddTextNodeSpec(root, node, text, cdata).Ok? <==> Target(root, node).Ok?)
    ensures !IsEmptyString(text) && Target(root, node).Ok? ==>
      var o := AddTextNodeSpec(root, node, text, cdata).value;
      var p := Target(root, node).value;
      o.node == node && o.root.Some? && ValidPath(o.root.value, p) &&
      At(o.root.value, p).children == At(root.value, p).children + [TextOf(text, cdata)] &&
      At(o.root.value, p) == At(root.value, p).(children := At(o.root.value, p).children) &&
      ReplaceAt(o.root.value, p, At(root.value, p)) == root.value
  {
    var t := Target(root, node);
    if !IsEmptyString(text) && t.Ok? {
      AppendChildAtLaws(root.value, t.value, TextOf(text, cdata));
    }
  }

  /**
   * `addAttribute` fails exactly when there is no element or the name is
   * refused; otherwise the named attribute has the value, replacing an
   * earlier one, every other attribute keeps its value, names stay unique and
   * nothing else in the tree changes.
   */
  lemma AddAttributeLaws(root: Option<Element>, node: Handle, name: string, value: string, other: string)
    requires ValidHandle(root, node)
    ensures AddAttributeSpec(root, node, name, value).Ok? <==> Target(root, node).Ok? && IsXmlName(name)
    ensures !IsXmlName(name) ==> AddAttributeSpec(root, node, name, value) == Err(InvalidName)
    ensures AddAttributeSpec(root, node, name, value).Ok? ==>
      var o := AddAttributeSpec(root, node, name, value).value;
      var p := Target(root, node).value;
      o.node == node && o.root.Some? && ValidPath(o.root.value, p) &&
      AttrLookup(At(o.root.value, p).attrs, name) == Some(value) &&
      (other != name ==> AttrLookup(At(o.root.value, p).attrs, other) == AttrLookup(At(root.value, p).attrs, other)) &&
      (UniqueAttrNames(At(root.value, p).attrs) ==> UniqueAttrNames(At(o.root.value, p).attrs)) &&
      At(o.root.value, p) == At(root.value, p).(attrs := At(o.root.value, p).attrs) &&
      ReplaceAt(o.root.value, p, At(root.value, p)) == root.value
  {
    var t := Target(root, node);
    if t.Ok? && IsXmlName(name) {
      SetAttrAtLaws(root.value, t.value, name, value);
      SetAttrLaws(At(root.value, t.value).attrs, name, value, other);
    }
  }

  /**
   * `selectSingleNode` leaves the tree alone and returns an element below the
   * wrapped one whose path follows the steps of the (slash-stripped) path; it
   * fails only when no such element exists.
   */
  lemma SelectSingleNodeLaws(root: Option<Element>, node: Handle, xpath: string, q: Path)
    requires ValidHandle(root, node)
    ensures SelectSingleNodeSpec(root, node, xpath).Ok? ==>
      var o := SelectSingleNodeSpec(root, node, xpath).value;
      var p := Target(root, node).value;
      var steps := SplitOn(StripLeadingSlash(xpath), '/');
      o.root == root && o.node.ElementHandle? &&
      (exists q' :: o.node.path == p + q' && ValidPath(At(root.value, p), q') && MatchesSteps(At(root.value, p), q', steps) &&
        ValidPath(root.value, o.node.path) && At(root.value, o.node.path) == At(At(root.value, p), q'))
    ensures (Target(root, node).Ok? && ValidPath(At(root.value, Target(root, node).value), q) &&
        MatchesSteps(At(root.value, Target(root, node).value), q, SplitOn(StripLeadingSlash(xpath), '/')) && |q| > 0) ==>
      SelectSingleNodeSpec(root, node, xpath).Ok?
  {
    var t := Target(root, node);
    if t.Ok? {
      var p := t.value;
      var e := At(root.value, p);
      var steps := SplitOn(StripLeadingSlash(xpath), '/');
      var f := Select(e, steps);
      if f.Some? {
        AtConcat(root.value, p, f.value);
      }
      if ValidPath(e, q) && MatchesSteps(e, q, steps) && |q| > 0 {
        SelectComplete(e, steps, q);
      }
    }
  }

  /**
   * `removeNode` takes exactly this node out of its parent's children, keeps
   * the order of the others, leaves the rest of the tree alone and returns
   * the parent; for the document element the parent is the document.
   */
  lemma RemoveNodeLaws(root: Option<Element>, node: Handle)
    requires ValidHandle(root, node)
    ensures RemoveNodeSpec(root, node).Ok? <==> Target(root, node).Ok?
    ensures Target(root, node) == Ok([]) ==> RemoveNodeSpec(root, node) == Ok(Outcome(None, DocumentHandle))
    ensures RemoveNodeSpec(root, node).Ok? && Target(root, node) != Ok([]) ==>
      var o := RemoveNodeSpec(root, node).value;
      var p := Target(root, node).value;
      |p| > 0 && o.node == ElementHandle(Parent(p)) && o.root.Some? &&
      ValidPath(root.value, Parent(p)) && Index(p) < |At(root.value, Parent(p)).children| &&
      At(root.value, Parent(p)).children[Index(p)] == ElementNode(At(root.value, p)) &&
      ValidPath(o.root.value, Parent(p)) &&
      At(o.root.value, Parent(p)).children == RemoveAt(At(root.value, Parent(p)).children, Index(p)) &&
      ReplaceAt(o.root.value, Parent(p), At(root.value, Parent(p))) == root.value
  {
    var t := Target(root, node);
    if t.Ok? {
      RemoveNodeAtLaws(root.value, t.value);
    }
  }

  /**
   * `addNamespace` declares the prefix on the document element with the
   * given URI, keeps every other declaration, and fails when the document
   * has no element.
   */
  lemma AddNamespaceLaws(root: Option<Element>, prefix: string, uri: string, other: string)
    ensures AddNamespaceSpec(root, prefix, uri).Ok? <==> root.Some?
    ensures AddNamespaceSpec(root, prefix, uri).Ok? ==>
      var r := AddNamespaceSpec(root, prefix, uri).value;
      r.Some? && NsLookup(r.value.nsDecls, prefix) == Some(uri) &&
      (other != prefix ==> NsLookup(r.value.nsDecls, other) == NsLookup(root.value.nsDecls, other)) &&
      (UniquePrefixes(root.value.nsDecls) ==> UniquePrefixes(r.value.nsDecls)) &&
      r.value == root.value.(nsDecls := r.value.nsDecls)
  {
    if root.Some? {
      SetNsLaws(root.value.nsDecls, prefix, uri, other);
    }
  }

  // --------------------------------------------------------------- innerXML

  /**
   * The intended split loses nothing: its parts join back to the string;
   * the leading text holds no `<`, the markup starts with `<`, and trailing
   * text, when there is some, follows the last `>`.
   */
  lemma InnerSplitLaws(s0: string)
    ensures Joined(InnerSplit(s0)) == CloseBreaks(s0)
    ensures InnerSplit(s0).Parts? ==>
      var r := InnerSplit(s0);
      '<' !in r.lead && |r.markup| > 0 && r.markup[0] == '<' && '>' !in r.trail &&
      (r.trail != [] ==> r.markup[|r.markup| - 1] == '>')
  {
    var s := CloseBreaks(s0);
    var (body, trail) := SplitTrail(s);
    MarkupShape(body, trail);
    match IndexOf(body, "<")
    case None =>
      assert InnerSplit(s0) == Plain(s);
    case Some(open) =>
      assert InnerSplit(s0) == Parts(body[..open], body[open..], trail);
  }

  /** The parts cut from the text before the trailing text, at its first `<`. */
  lemma MarkupShape(body: string, trail: string)
    requires trail != [] ==> |body| > 0 && body[|body| - 1] == '>'
    ensures IndexOf(body, "<").Some? ==>
      var open := IndexOf(body, "<").value;
      open < |body| && body[..open] + body[open..] == body &&
      '<' !in body[..open] && body[open..][0] == '<' &&
      (trail != [] ==> body[open..][|body[open..]| - 1] == '>')
  {
    IndexOfChar(body, '<');
  }

  /** Without `<` there is no `<br>` to close. */
  lemma NoBreaks(s: string)
    requires '<' !in s
    ensures CloseBreaks(s) == s
  {
    forall k: nat ensures !OccursAt(s, "<br>", k) {
      if k + 4 <= |s| {
        assert s[k..k + 4][0] == s[k];
      }
    }
    ReplaceAbsent(s, "<br>", "<br/>");
  }

  lemma LastAngle(a: string, b: string)
    requires '>' !in b && |b| > 0
    ensures SplitTrail(a + ">" + b) == (a + ">", b)
  {
    var s := a + ">" + b;
    var k := LastIndexOf(s, '>').value;
    assert s[|a|] == '>';
    assert forall j :: k < j < |s| ==> s[j] != '>' by {
      forall j | k < j < |s| ensures s[j] != '>' {
        assert s[j] == s[k + 1..][j - k - 1];
      }
    }
    assert forall j :: |a| < j < |s| ==> s[j] != '>' by {
      forall j | |a| < j < |s| ensures s[j] != '>' {
        assert s[j] == b[j - |a| - 1];
      }
    }
    assert k == |a|;
    assert s[..|a| + 1] == a + ">";
    assert s[|a| + 1..] == b;
  }

  /**
   * As written, text after the last `>` is lost when nothing before it holds
   * a `<`: "a>b" becomes the text "a>".
   */
  lemma InnerSplitLosesTrail(a: string, b: string)
    requires '<' !in a && '<' !in b && '>' !in b && |b| > 0
    ensures InnerSplitAsWritten(a + ">" + b) == Plain(a + ">")
    ensures InnerSplit(a + ">" + b) == Plain(a + ">" + b)
    ensures Joined(InnerSplitAsWritten(a + ">" + b)) != a + ">" + b
  {
    var s := a + ">" + b;
    assert '<' !in s;
    NoBreaks(s);
    LastAngle(a, b);
    IndexOfChar(a + ">", '<');
  }

  /** As written, a trailing "0" is dropped by `empty()`: "<b/>0" loses its "0". */
  lemma InnerSplitDropsZero(a: string, m: string)
    requires |m| >= 2 && m[0] == '<' && m[|m| - 1] == '>' && '<' !in a
    requires !Contains(a + m + "0", "<br>")
    ensures InnerSplitAsWritten(a + m + "0") == Parts(a, m, "")
    ensures InnerSplit(a + m + "0") == Parts(a, m, "0")
  {
    var s := a + m + "0";
    var m' := m[..|m| - 1];
    assert s == (a + m') + ">" + "0";
    assert a + m == (a + m') + ">";
    ReplaceAbsent(s, "<br>", "<br/>");
    LastAngle(a + m', "0");
    IndexOfChar(a + m, '<');
    assert (a + m)[|a|] == '<';
    assert forall j :: 0 <= j < |a| ==> (a + m)[j] != '<' by {
      forall j | 0 <= j < |a| ensures (a + m)[j] != '<' {
        assert (a + m)[j] == a[j];
      }
    }
    assert (a + m)[..|a|] == a && (a + m)[|a|..] == m;
  }

  /** "a>b" is an instance of the first loss. */
  lemma LosesTrailExample()
    ensures InnerSplitAsWritten("a>b") == Plain("a>")
  {
    assert "a" + ">" + "b" == "a>b";
    InnerSplitLosesTrail("a", "b");
  }

  /** "<b/>0" is an instance of the second. */
  lemma DropsZeroExample()
    ensures InnerSplitAsWritten("<b/>0") == Parts("", "<b/>", "")
  {
    var s := "<b/>0";
    assert "" + "<b/>" + "0" == s;
    forall k: nat ensures !OccursAt(s, "<br>", k) {
      if k + 4 <= |s| {
        assert s[k..k + 4][0] == s[k] && s[k..k + 4][2] == s[k + 2];
      }
    }
    InnerSplitDropsZero("", "<b/>");
  }

  // ---------------------------------------------------------------- toArray

  /**
   * `_toArray` keeps every key in its place, walks nested arrays, applies
   * the function to leaves only, and without a function gives the array back.
   */
  lemma ToArrayLaws(arr: seq<(Key, Tree)>, func: Option<string -> string>, k: nat)
    ensures |ToArray(arr, func)| == |arr|
    ensures k < |arr| ==> ToArray(arr, func)[k].0 == arr[k].0
    ensures k < |arr| && arr[k].1.Leaf? && func.Some? ==> ToArray(arr, func)[k].1 == Leaf(func.value(arr[k].1.text))
    ensures k < |arr| && arr[k].1.Branch? ==> ToArray(arr, func)[k].1.Branch?
    ensures ToArray(arr, None) == arr
  {
    var f := if func.Some? then func.value else s => s;
    if k < |arr| {
      MapEntriesAt(Branch(arr), 0, f, k);
    }
    MapIdentity(Branch(arr), s => s);
  }
}
