/** Laws of the element-tree operations in module Dom. */
module DomLaws {
  import opened Wrappers
  import opened Php
  import opened Dom

  // ------------------------------------------------------------------- paths

  lemma {:induction false} AtReplaceAt(e: Element, p: Path, x: Element)
    requires ValidPath(e, p)
    ensures ValidPath(ReplaceAt(e, p, x), p) && At(ReplaceAt(e, p, x), p) == x
    decreases |p|
  {
    if |p| > 0 {
      AtReplaceAt(e.children[p[0]].element, p[1..], x);
    }
  }

  /** Replacing an element by a new one leaves everything outside it, including the root's own fields, alone. */
  lemma ReplaceAtKeepsRoot(e: Element, p: Path, x: Element)
    requires ValidPath(e, p) && |p| > 0
    ensures var r := ReplaceAt(e, p, x);
      r.name == e.name && r.uri == e.uri && r.nsDecls == e.nsDecls && r.attrs == e.attrs &&
      |r.children| == |e.children| &&
      forall k :: 0 <= k < |e.children| && k != p[0] ==> r.children[k] == e.children[k]
  {
  }

  /** Following `p` and then `q` is following `p + q`. */
  lemma {:induction false} AtConcat(e: Element, p: Path, q: Path)
    requires ValidPath(e, p) && ValidPath(At(e, p), q)
    ensures ValidPath(e, p + q) && At(e, p + q) == At(At(e, p), q)
    decreases |p|
  {
    if |p| > 0 {
      assert (p + q)[1..] == p[1..] + q;
      AtConcat(e.children[p[0]].element, p[1..], q);
    } else {
      assert p + q == q;
    }
  }

  lemma {:induction false} ReplaceAtSame(e: Element, p: Path)
    requires ValidPath(e, p)
    ensures ReplaceAt(e, p, At(e, p)) == e
    decreases |p|
  {
    if |p| > 0 {
      ReplaceAtSame(e.children[p[0]].element, p[1..]);
      assert e.children[p[0] := ElementNode(e.children[p[0]].element)] == e.children;
    }
  }

  /** Putting the old element back undoes a replacement: nothing outside `p` was changed. */
  lemma {:induction false} ReplaceAtUndo(e: Element, p: Path, x: Element)
    requires ValidPath(e, p)
    ensures ValidPath(ReplaceAt(e, p, x), p) && ReplaceAt(ReplaceAt(e, p, x), p, At(e, p)) == e
    decreases |p|
  {
    AtReplaceAt(e, p, x);
    if |p| > 0 {
      var c := e.children[p[0]].element;
      ReplaceAtUndo(c, p[1..], x);
      var r := ReplaceAt(e, p, x);
      assert r.children[p[0]].element == ReplaceAt(c, p[1..], x);
      assert r.children[p[0] := ElementNode(ReplaceAt(ReplaceAt(c, p[1..], x), p[1..], At(c, p[1..])))] == e.children;
    }
  }

  // ---------------------------------------------------------------- children

  lemma InsertAtShape<T>(s: seq<T>, i: nat, x: T)
    requires i <= |s|
    ensures var r := InsertAt(s, i, x);
      |r| == |s| + 1 && r[i] == x && r[..i] == s[..i] && r[i + 1..] == s[i..]
  {
  }

  /** Removing what was inserted gives the original list back, and conversely. */
  lemma InsertRemoveRoundTrip<T>(s: seq<T>, i: nat, x: T)
    requires i <= |s|
    ensures RemoveAt(InsertAt(s, i, x), i) == s
    ensures i < |s| ==> InsertAt(RemoveAt(s, i), i, s[i]) == s
  {
    assert RemoveAt(InsertAt(s, i, x), i) == s[..i] + s[i..];
    assert s[..i] + s[i..] == s;
    if i < |s| {
      assert InsertAt(RemoveAt(s, i), i, s[i]) == s[..i] + [s[i]] + s[i + 1..];
      assert s[..i] + [s[i]] + s[i + 1..] == s;
    }
  }

  /** Removal deletes exactly one entry and keeps the order of the others. */
  lemma RemoveAtShape<T>(s: seq<T>, i: nat)
    requires i < |s|
    ensures var r := RemoveAt(s, i);
      |r| == |s| - 1 &&
      (forall k :: 0 <= k < i ==> r[k] == s[k]) &&
      (forall k :: i <= k < |r| ==> r[k] == s[k + 1]) &&
      multiset(r) + multiset{s[i]} == multiset(s)
  {
    assert s == s[..i] + [s[i]] + s[i + 1..];
  }

  // ------------------------------------------------------------------- edits

  /**
   * `appendChild`: the element at `p` gets `c` as its last child, the new
   * child is reachable at `p + [n]`, and the rest of the tree is unchanged.
   */
  lemma AppendChildAtLaws(e: Element, p: Path, c: Node)
    requires ValidPath(e, p)
    ensures var r := AppendChildAt(e, p, c); var n := |At(e, p).children|;
      ValidPath(r, p) && At(r, p).children == At(e, p).children + [c] &&
      At(r, p) == At(e, p).(children := At(r, p).children) &&
      ReplaceAt(r, p, At(e, p)) == e &&
      (c.ElementNode? ==> ValidPath(r, p + [n]) && At(r, p + [n]) == c.element)
  {
    var x := AppendChild(At(e, p), c);
    AtReplaceAt(e, p, x);
    ReplaceAtUndo(e, p, x);
    if c.ElementNode? {
      var r := AppendChildAt(e, p, c);
      var n := |At(e, p).children|;
      assert ValidPath(x, [n]) && At(x, [n]) == c.element by {
        assert [n][1..] == [];
      }
      AtConcat(r, p, [n]);
    }
  }

  /**
   * `insertBefore`: the element at `p` gets `c` at index `i`, the new child is
   * reachable at `p + [i]`, and the rest of the tree is unchanged.
   */
  lemma InsertChildAtLaws(e: Element, p: Path, i: nat, c: Node)
    requires ValidPath(e, p) && i <= |At(e, p).children|
    ensures var r := InsertChildAt(e, p, i, c);
      ValidPath(r, p) && At(r, p).children == InsertAt(At(e, p).children, i, c) &&
      At(r, p) == At(e, p).(children := At(r, p).children) &&
      ReplaceAt(r, p, At(e, p)) == e &&
      (c.ElementNode? ==> ValidPath(r, p + [i]) && At(r, p + [i]) == c.element)
  {
    var parent := At(e, p);
    var x := parent.(children := InsertAt(parent.children, i, c));
    AtReplaceAt(e, p, x);
    ReplaceAtUndo(e, p, x);
    InsertAtShape(parent.children, i, c);
    if c.ElementNode? {
      var r := InsertChildAt(e, p, i, c);
      assert ValidPath(x, [i]) && At(x, [i]) == c.element by {
        assert [i][1..] == [];
      }
      AtConcat(r, p, [i]);
    }
  }

  /** `removeChild`: the element at `p` loses exactly child `i`, and the rest of the tree is unchanged. */
  lemma RemoveChildAtLaws(e: Element, p: Path, i: nat)
    requires ValidPath(e, p) && i < |At(e, p).children|
    ensures var r := RemoveChildAt(e, p, i);
      ValidPath(r, p) && At(r, p).children == RemoveAt(At(e, p).children, i) &&
      At(r, p) == At(e, p).(children := At(r, p).children) &&
      ReplaceAt(r, p, At(e, p)) == e
  {
    var parent := At(e, p);
    var x := parent.(children := RemoveAt(parent.children, i));
    AtReplaceAt(e, p, x);
    ReplaceAtUndo(e, p, x);
  }

  /** Removing a child that was just inserted gives the original tree back. */
  lemma InsertThenRemove(e: Element, p: Path, i: nat, c: Node)
    requires ValidPath(e, p) && i <= |At(e, p).children|
    ensures var r := InsertChildAt(e, p, i, c);
      ValidPath(r, p) && i < |At(r, p).children| && RemoveChildAt(r, p, i) == e
  {
    var parent := At(e, p);
    var r := InsertChildAt(e, p, i, c);
    InsertChildAtLaws(e, p, i, c);
    InsertRemoveRoundTrip(parent.children, i, c);
    var y := At(r, p).(children := RemoveAt(At(r, p).children, i));
    assert y == parent;
    ReplaceAtUndo(e, p, parent.(children := InsertAt(parent.children, i, c)));
  }

  /** `setAttributeNode` on the element at `p`, and the rest of the tree is unchanged. */
  lemma SetAttrAtLaws(e: Element, p: Path, name: string, value: string)
    requires ValidPath(e, p)
    ensures var r := SetAttrAt(e, p, name, value);
      ValidPath(r, p) && At(r, p) == At(e, p).(attrs := SetAttr(At(e, p).attrs, name, value)) &&
      ReplaceAt(r, p, At(e, p)) == e
  {
    var x := At(e, p);
    AtReplaceAt(e, p, x.(attrs := SetAttr(x.attrs, name, value)));
    ReplaceAtUndo(e, p, x.(attrs := SetAttr(x.attrs, name, value)));
  }

  /**
   * `removeNode`: a non-root element disappears from its parent's children,
   * whose order is kept; removing the document element empties the document.
   */
  lemma RemoveNodeAtLaws(e: Element, p: Path)
    requires ValidPath(e, p)
    ensures |p| == 0 <==> RemoveNodeAt(e, p).None?
    ensures |p| > 0 ==>
      ValidPath(e, Parent(p)) && Index(p) < |At(e, Parent(p)).children| &&
      At(e, Parent(p)).children[Index(p)] == ElementNode(At(e, p)) &&
      var r := RemoveNodeAt(e, p).value;
      ValidPath(r, Parent(p)) &&
      At(r, Parent(p)).children == RemoveAt(At(e, Parent(p)).children, Index(p)) &&
      ReplaceAt(r, Parent(p), At(e, Parent(p))) == e
  {
    if |p| > 0 {
      ValidParent(e, p);
      RemoveChildAtLaws(e, Parent(p), Index(p));
    }
  }

  /**
   * `removeTagName` reports a removal exactly when some element of the
   * document carries the tag, and then removes the first one in document order.
   */
  lemma RemoveFirstTagLaws(root: Option<Element>, tag: string)
    ensures RemoveFirstTag(root, tag).1 <==> root.Some? && exists p :: ValidPath(root.value, p) && TagMatches(At(root.value, p), tag)
    ensures !RemoveFirstTag(root, tag).1 ==> RemoveFirstTag(root, tag).0 == root
    ensures RemoveFirstTag(root, tag).1 ==>
      var p := FindTag(root.value, tag).value;
      TagMatches(At(root.value, p), tag) && RemoveFirstTag(root, tag).0 == RemoveNodeAt(root.value, p) &&
      forall q :: ValidPath(root.value, q) && PreorderBefore(q, p) ==> !TagMatches(At(root.value, q), tag)
  {
    if root.Some? {
      var f := FindTag(root.value, tag);
      if f.Some? {
        forall q | ValidPath(root.value, q) && PreorderBefore(q, f.value) ensures !TagMatches(At(root.value, q), tag) {
          FindTagFirst(root.value, tag, q);
        }
        assert RemoveFirstTag(root, tag) == (RemoveNodeAt(root.value, f.value), true);
        assert ValidPath(root.value, f.value) && TagMatches(At(root.value, f.value), tag);
        assert exists p :: ValidPath(root.value, p) && TagMatches(At(root.value, p), tag);
      } else if exists p :: ValidPath(root.value, p) && TagMatches(At(root.value, p), tag) {
        var p :| ValidPath(root.value, p) && TagMatches(At(root.value, p), tag);
        FindTagComplete(root.value, tag, p);
      }
    }
  }

  // -------------------------------------------------------------- attributes

  lemma {:induction false} RemoveAttrLaws(attrs: seq<Attr>, name: string, other: string)
    ensures AttrLookup(RemoveAttr(attrs, name), name) == None
    ensures other != name ==> AttrLookup(RemoveAttr(attrs, name), other) == AttrLookup(attrs, other)
    ensures forall x :: x in RemoveAttr(attrs, name) ==> x in attrs && x.name != name
    ensures UniqueAttrNames(attrs) ==> UniqueAttrNames(RemoveAttr(attrs, name))
  {
    if attrs != [] {
      RemoveAttrLaws(attrs[1..], name, other);
      var rest := RemoveAttr(attrs[1..], name);
      if attrs[0].name != name && UniqueAttrNames(attrs) {
        assert UniqueAttrNames(attrs[1..]);
        forall j | 0 <= j < |rest| ensures attrs[0].name != rest[j].name {
          assert rest[j] in attrs[1..];
        }
        assert UniqueAttrNames([attrs[0]] + rest);
      }
      if attrs[0].name == name && UniqueAttrNames(attrs) {
        assert UniqueAttrNames(attrs[1..]);
      }
    }
  }

  lemma {:induction false} LookupAppend(attrs: seq<Attr>, x: Attr, name: string)
    ensures AttrLookup(attrs + [x], name) ==
      if AttrLookup(attrs, name).Some? then AttrLookup(attrs, name)
      else if x.name == name then Some(x.value) else None
  {
    if attrs != [] {
      assert (attrs + [x])[1..] == attrs[1..] + [x];
      LookupAppend(attrs[1..], x, name);
    }
  }

  /**
   * `addAttribute` sets the named attribute to the value, replacing any
   * earlier one; every other attribute keeps its value, and names stay unique.
   */
  lemma SetAttrLaws(attrs: seq<Attr>, name: string, value: string, other: string)
    ensures AttrLookup(SetAttr(attrs, name, value), name) == Some(value)
    ensures other != name ==> AttrLookup(SetAttr(attrs, name, value), other) == AttrLookup(attrs, other)
    ensures UniqueAttrNames(attrs) ==> UniqueAttrNames(SetAttr(attrs, name, value))
  {
    RemoveAttrLaws(attrs, name, other);
    LookupAppend(RemoveAttr(attrs, name), Attr(name, value), name);
    LookupAppend(RemoveAttr(attrs, name), Attr(name, value), other);
    var r := RemoveAttr(attrs, name);
    if UniqueAttrNames(attrs) {
      forall i | 0 <= i < |r| ensures r[i].name != name {
        assert r[i] in r;
      }
    }
  }

  // -------------------------------------------------- namespace declarations

  lemma {:induction false} SetNsLaws(ds: seq<NsDecl>, prefix: string, uri: string, other: string)
    ensures NsLookup(SetNs(ds, prefix, uri), prefix) == Some(uri)
    ensures other != prefix ==> NsLookup(SetNs(ds, prefix, uri), other) == NsLookup(ds, other)
    ensures forall x :: x in SetNs(ds, prefix, uri) ==> x in ds || x == NsDecl(prefix, uri)
    ensures UniquePrefixes(ds) ==> UniquePrefixes(SetNs(ds, prefix, uri))
  {
    if ds != [] && ds[0].prefix != prefix {
      SetNsLaws(ds[1..], prefix, uri, other);
      if UniquePrefixes(ds) {
        var rest := SetNs(ds[1..], prefix, uri);
        assert UniquePrefixes(ds[1..]);
        forall j | 0 <= j < |rest| ensures ds[0].prefix != rest[j].prefix {
          assert rest[j] in rest;
        }
        assert UniquePrefixes([ds[0]] + rest);
      }
    } else if ds != [] && UniquePrefixes(ds) {
      assert forall j :: 1 <= j < |ds| ==> ds[j].prefix != prefix;
    }
  }

  /** Declaring a prefix that is already declared rewrites that declaration where it stands. */
  lemma {:induction false} SetNsPresent(ds: seq<NsDecl>, prefix: string, uri: string, k: nat)
    requires UniquePrefixes(ds) && k < |ds| && ds[k].prefix == prefix
    ensures SetNs(ds, prefix, uri) == ds[k := NsDecl(prefix, uri)]
  {
    if k > 0 {
      assert ds[0].prefix != prefix;
      assert UniquePrefixes(ds[1..]);
      SetNsPresent(ds[1..], prefix, uri, k - 1);
      assert ds[k := NsDecl(prefix, uri)] == [ds[0]] + ds[1..][k - 1 := NsDecl(prefix, uri)];
    }
  }

  lemma {:induction false} SetNsAbsent(ds: seq<NsDecl>, prefix: string, uri: string)
    requires forall k :: 0 <= k < |ds| ==> ds[k].prefix != prefix
    ensures SetNs(ds, prefix, uri) == ds + [NsDecl(prefix, uri)]
  {
    if ds != [] {
      SetNsAbsent(ds[1..], prefix, uri);
      assert [ds[0]] + (ds[1..] + [NsDecl(prefix, uri)]) == ds + [NsDecl(prefix, uri)];
    }
  }

  /** The uri the last entry for `p` in a `prefix => uri` list gives it. */
  function LastFor(list: seq<(string, string)>, p: string): Option<string> {
    if list == [] then None
    else if LastFor(list[1..], p).Some? then LastFor(list[1..], p)
    else if list[0].0 == p then Some(list[0].1)
    else None
  }

  lemma {:induction false} UniqueLookup(ds: seq<NsDecl>, k: nat)
    requires UniquePrefixes(ds) && k < |ds|
    ensures NsLookup(ds, ds[k].prefix) == Some(ds[k].uri)
  {
    if k > 0 {
      assert ds[0].prefix != ds[k].prefix;
      assert UniquePrefixes(ds[1..]);
      UniqueLookup(ds[1..], k - 1);
    }
  }

  lemma {:induction false} ApplyNsLookup(ds: seq<NsDecl>, list: seq<(string, string)>, q: string)
    ensures NsLookup(ApplyNs(ds, list), q) == if LastFor(list, q).Some? then LastFor(list, q) else NsLookup(ds, q)
    ensures UniquePrefixes(ds) ==> UniquePrefixes(ApplyNs(ds, list))
    decreases |list|
  {
    if list != [] {
      SetNsLaws(ds, list[0].0, list[0].1, q);
      ApplyNsLookup(SetNs(ds, list[0].0, list[0].1), list[1..], q);
    }
  }

  /** Every declaration whose prefix the list names carries the list's last uri for it. */
  predicate AgreesWith(ds: seq<NsDecl>, list: seq<(string, string)>) {
    forall k :: 0 <= k < |ds| && LastFor(list, ds[k].prefix).Some? ==> ds[k].uri == LastFor(list, ds[k].prefix).value
  }

  predicate Declares(ds: seq<NsDecl>, list: seq<(string, string)>) {
    forall j :: 0 <= j < |list| ==> exists k :: 0 <= k < |ds| && ds[k].prefix == list[j].0
  }

  lemma {:induction false} ApplyNsDeclares(ds: seq<NsDecl>, list: seq<(string, string)>)
    requires UniquePrefixes(ds)
    ensures Declares(ApplyNs(ds, list), list)
    ensures AgreesWith(ApplyNs(ds, list), list)
  {
    var r := ApplyNs(ds, list);
    ApplyNsLookup(ds, list, "");
    forall j | 0 <= j < |list| ensures exists k :: 0 <= k < |r| && r[k].prefix == list[j].0 {
      LastForSome(list, j);
      ApplyNsLookup(ds, list, list[j].0);
      LookupFound(r, list[j].0);
    }
    forall k | 0 <= k < |r| && LastFor(list, r[k].prefix).Some?
      ensures r[k].uri == LastFor(list, r[k].prefix).value
    {
      ApplyNsLookup(ds, list, r[k].prefix);
      UniqueLookup(r, k);
    }
  }

  lemma {:induction false} LastForSome(list: seq<(string, string)>, j: nat)
    requires j < |list|
    ensures LastFor(list, list[j].0).Some?
  {
    if j > 0 {
      LastForSome(list[1..], j - 1);
    }
  }

  lemma {:induction false} LookupFound(ds: seq<NsDecl>, q: string)
    requires NsLookup(ds, q).Some?
    ensures exists k :: 0 <= k < |ds| && ds[k].prefix == q
  {
    if ds[0].prefix != q {
      LookupFound(ds[1..], q);
      var k :| 0 <= k < |ds[1..]| && ds[1..][k].prefix == q;
      assert ds[k + 1].prefix == q;
    }
  }

  /** Each declaration with its uri replaced by the list's last uri for its prefix, if any. */
  function Override(ds: seq<NsDecl>, list: seq<(string, string)>): seq<NsDecl> {
    seq(|ds|, k requires 0 <= k < |ds| =>
      if LastFor(list, ds[k].prefix).Some? then NsDecl(ds[k].prefix, LastFor(list, ds[k].prefix).value) else ds[k])
  }

  /** Over declarations that already name every prefix of the list, declaring only rewrites uris in place. */
  lemma {:induction false} ApplyNsOverDeclared(ds: seq<NsDecl>, list: seq<(string, string)>)
    requires UniquePrefixes(ds) && Declares(ds, list)
    ensures ApplyNs(ds, list) == Override(ds, list)
    decreases |list|
  {
    if list == [] {
      assert Override(ds, list) == ds;
    } else {
      var p, u := list[0].0, list[0].1;
      var k :| 0 <= k < |ds| && ds[k].prefix == p;
      SetNsPresent(ds, p, u, k);
      DeclaredAfterUpdate(ds, list, k);
      ApplyNsOverDeclared(ds[k := NsDecl(p, u)], list[1..]);
      OverrideShift(ds, list, k);
    }
  }

  /** Rewriting the uri of the list's first prefix keeps the prefixes, so the rest of the list stays declared. */
  lemma DeclaredAfterUpdate(ds: seq<NsDecl>, list: seq<(string, string)>, k: nat)
    requires UniquePrefixes(ds) && Declares(ds, list) && |list| > 0 && k < |ds| && ds[k].prefix == list[0].0
    ensures UniquePrefixes(ds[k := NsDecl(list[0].0, list[0].1)])
    ensures Declares(ds[k := NsDecl(list[0].0, list[0].1)], list[1..])
  {
    var ds' := ds[k := NsDecl(list[0].0, list[0].1)];
    assert forall m :: 0 <= m < |ds| ==> ds'[m].prefix == ds[m].prefix;
    forall j | 0 <= j < |list[1..]| ensures exists k' :: 0 <= k' < |ds'| && ds'[k'].prefix == list[1..][j].0 {
      assert list[1..][j] == list[j + 1];
      var k' :| 0 <= k' < |ds| && ds[k'].prefix == list[j + 1].0;
      assert ds'[k'].prefix == ds[k'].prefix;
    }
  }

  /** Overriding by the whole list is overriding by its tail after the first entry is written in place. */
  lemma OverrideShift(ds: seq<NsDecl>, list: seq<(string, string)>, k: nat)
    requires UniquePrefixes(ds) && |list| > 0 && k < |ds| && ds[k].prefix == list[0].0
    ensures Override(ds[k := NsDecl(list[0].0, list[0].1)], list[1..]) == Override(ds, list)
  {
    var ds' := ds[k := NsDecl(list[0].0, list[0].1)];
    forall m | 0 <= m < |ds| ensures Override(ds', list[1..])[m] == Override(ds, list)[m] {
      assert ds'[m].prefix == ds[m].prefix;
      assert m == k <==> ds[m].prefix == list[0].0;
    }
  }

  /** Declaring the same namespaces a second time changes nothing. */
  lemma ApplyNsIdempotent(ds: seq<NsDecl>, list: seq<(string, string)>)
    requires UniquePrefixes(ds)
    ensures ApplyNs(ApplyNs(ds, list), list) == ApplyNs(ds, list)
  {
    var r := ApplyNs(ds, list);
    ApplyNsLookup(ds, list, "");
    ApplyNsDeclares(ds, list);
    ApplyNsOverDeclared(r, list);
    assert Override(r, list) == r;
  }

  predicate UniqueKeys(list: seq<(string, string)>) {
    forall i, j :: 0 <= i < j < |list| ==> list[i].0 != list[j].0
  }

  function AsDecls(list: seq<(string, string)>): seq<NsDecl> {
    seq(|list|, i requires 0 <= i < |list| => NsDecl(list[i].0, list[i].1))
  }

  /** Declaring new, distinct prefixes adds each exactly once, in the list's order. */
  lemma {:induction false} ApplyNsFresh(ds: seq<NsDecl>, list: seq<(string, string)>)
    requires UniqueKeys(list)
    requires forall k, j :: 0 <= k < |ds| && 0 <= j < |list| ==> ds[k].prefix != list[j].0
    ensures ApplyNs(ds, list) == ds + AsDecls(list)
    decreases |list|
  {
    if list != [] {
      SetNsAbsent(ds, list[0].0, list[0].1);
      var ds' := ds + [NsDecl(list[0].0, list[0].1)];
      assert UniqueKeys(list[1..]);
      forall k, j | 0 <= k < |ds'| && 0 <= j < |list[1..]| ensures ds'[k].prefix != list[1..][j].0 {
        assert list[1..][j] == list[j + 1];
      }
      ApplyNsFresh(ds', list[1..]);
      assert AsDecls(list) == [NsDecl(list[0].0, list[0].1)] + AsDecls(list[1..]);
    }
  }

  // ------------------------------------------------------------------- names

  /**
   * Without a URI an element name keeps its length, every byte outside
   * `[A-Za-z0-9_:]` becomes `_`, and a second pass changes nothing.
   */
  lemma SanitiseLaws(name: string)
    ensures |Sanitise(name)| == |name|
    ensures forall i :: 0 <= i < |name| ==>
      Sanitise(name)[i] == (if IsWordChar(name[i]) || name[i] == ':' then name[i] else '_')
    ensures forall i :: 0 <= i < |name| ==> IsWordChar(Sanitise(name)[i]) || Sanitise(name)[i] == ':'
    ensures Sanitise(Sanitise(name)) == Sanitise(name)
  {
  }

  /** A sanitised name is accepted by `createElement` exactly when it is non-empty and does not start with a digit. */
  lemma SanitisedNameValid(name: string)
    ensures IsXmlName(Sanitise(name)) <==> |name| > 0 && !IsDigit(name[0])
  {
    var s := Sanitise(name);
    if |name| > 0 && !IsDigit(name[0]) {
      assert IsNameStartChar(s[0]);
      assert forall i :: 0 < i < |s| ==> IsNameChar(s[i]);
    }
  }

  // ------------------------------------------------------------------- paths

  /** Exactly one leading `/` is dropped, and only when a non-`/` follows it. */
  lemma StripLeadingSlashCases(p: string)
    ensures |p| >= 2 && p[0] == '/' && p[1] != '/' ==> StripLeadingSlash(p) == p[1..]
    ensures !(|p| >= 2 && p[0] == '/' && p[1] != '/') ==> StripLeadingSlash(p) == p
    ensures StripLeadingSlash("/") == "/" && StripLeadingSlash("//x") == "//x"
  {
  }

  lemma {:induction false} SplitJoin(s: string, c: char)
    ensures JoinOn(SplitOn(s, c), c) == s
    decreases |s|
  {
    if c in s {
      SplitJoin(After(s, c), c);
    }
  }

  /** A child-name path finds something exactly when some path below `e` follows its steps. */
  lemma {:induction false} SelectComplete(e: Element, steps: seq<string>, p: Path)
    requires ValidPath(e, p) && MatchesSteps(e, p, steps) && |steps| > 0
    ensures Select(e, steps).Some?
    decreases |steps|, 1, 0
  {
    SelectAmongComplete(e, steps, 0, p);
  }

  lemma {:induction false} SelectAmongComplete(e: Element, steps: seq<string>, i: nat, p: Path)
    requires ValidPath(e, p) && MatchesSteps(e, p, steps) && |steps| > 0 && i <= p[0]
    ensures SelectAmong(e, steps, i).Some?
    decreases |steps|, 0, |e.children| - i
  {
    var c := e.children[i];
    if c.ElementNode? && c.element.name == steps[0] && (|steps| == 1 || Select(c.element, steps[1..]).Some?) {
    } else if i == p[0] {
      SelectComplete(c.element, steps[1..], p[1..]);
    } else {
      SelectAmongComplete(e, steps, i + 1, p);
    }
  }

  // ------------------------------------------------------------- tag search

  /** `getElementsByTagName` finds something exactly when some element carries the tag. */
  lemma {:induction false} FindTagComplete(e: Element, tag: string, p: Path)
    requires ValidPath(e, p) && TagMatches(At(e, p), tag)
    ensures FindTag(e, tag).Some?
    decreases e, 1, 0
  {
    if !TagMatches(e, tag) {
      FindTagAmongComplete(e, tag, 0, p);
    }
  }

  /** `q` and `p` agree before index `k` and `q` is smaller there. */
  predicate SmallerAt(q: Path, p: Path, k: nat) {
    k < |q| && k < |p| && q[..k] == p[..k] && q[k] < p[k]
  }

  lemma SmallerAtShift(q: Path, p: Path, k: nat)
    requires |q| > 0 && |p| > 0 && q[0] == p[0]
    ensures SmallerAt(q, p, k + 1) <==> SmallerAt(q[1..], p[1..], k)
  {
    if k + 1 < |q| && k + 1 < |p| {
      assert q[..k + 1] == [q[0]] + q[1..][..k];
      assert p[..k + 1] == [p[0]] + p[1..][..k];
    }
  }

  lemma NotBeforeWhenGreater(q: Path, p: Path)
    requires |q| > 0 && |p| > 0 && q[0] > p[0]
    ensures !(|q| < |p| && q == p[..|q|]) && !exists k: nat :: SmallerAt(q, p, k)
  {
  }

  lemma PrefixShift(q: Path, p: Path)
    requires |q| > 0 && |p| > 0 && q[0] == p[0]
    ensures (|q| < |p| && q == p[..|q|]) <==> (|q[1..]| < |p[1..]| && q[1..] == p[1..][..|q[1..]|])
  {
    if |q| < |p| {
      assert p[1..][..|q| - 1] == p[1..|q|];
      assert p[..|q|] == [p[0]] + p[1..|q|];
      assert q == [q[0]] + q[1..];
    }
  }

  /** Document order spelled out: an ancestor, or smaller at the first index where the paths differ. */
  lemma {:induction false} PreorderBeforeMeans(q: Path, p: Path)
    ensures PreorderBefore(q, p) <==> (|q| < |p| && q == p[..|q|]) || exists k: nat :: SmallerAt(q, p, k)
    decreases |q|
  {
    if |q| > 0 && |p| > 0 {
      if q[0] == p[0] {
        PreorderBeforeMeans(q[1..], p[1..]);
        PrefixShift(q, p);
        if exists k: nat :: SmallerAt(q, p, k) {
          var k: nat :| SmallerAt(q, p, k);
          assert k > 0;
          SmallerAtShift(q, p, k - 1);
        }
        if exists k: nat :: SmallerAt(q[1..], p[1..], k) {
          var k: nat :| SmallerAt(q[1..], p[1..], k);
          SmallerAtShift(q, p, k);
        }
      } else if q[0] < p[0] {
        assert SmallerAt(q, p, 0);
      } else {
        NotBeforeWhenGreater(q, p);
      }
    }
  }

  /** No element before the one `getElementsByTagName` finds, in document order, carries the tag. */
  lemma {:induction false} FindTagFirst(e: Element, tag: string, q: Path)
    requires FindTag(e, tag).Some? && ValidPath(e, q) && PreorderBefore(q, FindTag(e, tag).value)
    ensures !TagMatches(At(e, q), tag)
    decreases e, 1, 0
  {
    if |q| > 0 {
      FindTagAmongFirst(e, tag, 0, q);
    }
  }

  lemma {:induction false} FindTagAmongFirst(e: Element, tag: string, i: nat, q: Path)
    requires i <= |e.children| && FindTagAmong(e, tag, i).Some?
    requires ValidPath(e, q) && |q| > 0 && i <= q[0] && PreorderBefore(q, FindTagAmong(e, tag, i).value)
    ensures !TagMatches(At(e, q), tag)
    decreases e, 0, |e.children| - i
  {
    var c := e.children[i];
    if c.ElementNode? && FindTag(c.element, tag).Some? {
      var p := FindTag(c.element, tag).value;
      assert FindTagAmong(e, tag, i).value == [i] + p;
      assert ([i] + p)[1..] == p;
      FindTagFirst(c.element, tag, q[1..]);
    } else if i == q[0] {
      if TagMatches(At(e, q), tag) {
        FindTagComplete(c.element, tag, q[1..]);
      }
    } else {
      FindTagAmongFirst(e, tag, i + 1, q);
    }
  }

  lemma {:induction false} FindTagAmongComplete(e: Element, tag: string, i: nat, p: Path)
    requires ValidPath(e, p) && |p| > 0 && i <= p[0] && TagMatches(At(e, p), tag)
    ensures FindTagAmong(e, tag, i).Some?
    decreases e, 0, |e.children| - i
  {
    if e.children[i].ElementNode? && FindTag(e.children[i].element, tag).Some? {
    } else if i == p[0] {
      FindTagComplete(e.children[i].element, tag, p[1..]);
    } else {
      FindTagAmongComplete(e, tag, i + 1, p);
    }
  }
}
