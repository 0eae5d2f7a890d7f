/**
 * The PHP arrays `_toArray` (XmlNode) and `xml2Array` (XmlUtil) walk: leaves
 * are strings, inner values are arrays (or SimpleXML objects read as arrays),
 * and keys keep their insertion order.
 */
module ArrayTree {
  import opened Php

  datatype Tree = Leaf(text: string) | Branch(entries: seq<(Key, Tree)>)

  /** The walk: every leaf goes through `f`, every array is rebuilt under the same keys. */
  function MapTree(t: Tree, f: string -> string): (r: Tree)
    ensures t.Leaf? <==> r.Leaf?
    decreases t, 1, 0
  {
    match t
    case Leaf(s) => Leaf(f(s))
    case Branch(es) => Branch(MapEntries(t, 0, f))
  }

  /** `foreach ($arr as $key => $value) $newArr[$key] = ...` from entry `i` on. */
  function MapEntries(t: Tree, i: nat, f: string -> string): (r: seq<(Key, Tree)>)
    requires t.Branch? && i <= |t.entries|
    ensures |r| == |t.entries| - i
    ensures forall k :: 0 <= k < |r| ==> r[k].0 == t.entries[i + k].0
    decreases t, 0, |t.entries| - i
  {
    if i == |t.entries| then []
    else
      assert t.entries[i] in t.entries;
      [(t.entries[i].0, MapTree(t.entries[i].1, f))] + MapEntries(t, i + 1, f)
  }

  /** Entry `k` of the walk from `i` is entry `i + k` of the input, walked. */
  lemma {:induction false} MapEntriesAt(t: Tree, i: nat, f: string -> string, k: nat)
    requires t.Branch? && i <= |t.entries| && k < |t.entries| - i
    ensures MapEntries(t, i, f)[k] == (t.entries[i + k].0, MapTree(t.entries[i + k].1, f))
    decreases k
  {
    if k > 0 {
      MapEntriesAt(t, i + 1, f, k - 1);
    }
  }

  /** A walk that changes no leaf gives the array back. */
  lemma {:induction false} MapIdentity(t: Tree, f: string -> string)
    requires forall s :: f(s) == s
    ensures MapTree(t, f) == t
    decreases t, 1, 0
  {
    match t
    case Leaf(s) =>
    case Branch(es) =>
      MapEntriesIdentity(t, 0, f);
      assert t.entries[0..] == t.entries;
  }

  lemma {:induction false} MapEntriesIdentity(t: Tree, i: nat, f: string -> string)
    requires forall s :: f(s) == s
    requires t.Branch? && i <= |t.entries|
    ensures MapEntries(t, i, f) == t.entries[i..]
    decreases t, 0, |t.entries| - i
  {
    if i < |t.entries| {
      var e := t.entries[i];
      assert e in t.entries;
      assert MapEntries(t, i, f) == [(e.0, MapTree(e.1, f))] + MapEntries(t, i + 1, f);
      MapIdentity(e.1, f);
      MapEntriesIdentity(t, i + 1, f);
      assert t.entries[i..] == [e] + t.entries[i + 1..];
    }
  }

  /** Two walks in a row are one walk with the composed leaf function. */
  lemma {:induction false} MapCompose(t: Tree, f: string -> string, g: string -> string)
    ensures MapTree(MapTree(t, f), g) == MapTree(t, s => g(f(s)))
    decreases t, 1, 0
  {
    match t
    case Leaf(s) =>
    case Branch(es) =>
      var u := MapTree(t, f);
      forall k | 0 <= k < |es| ensures MapEntries(u, 0, g)[k] == MapEntries(t, 0, s => g(f(s)))[k] {
        assert es[k] in es;
        MapEntriesAt(t, 0, f, k);
        MapEntriesAt(u, 0, g, k);
        MapEntriesAt(t, 0, s => g(f(s)), k);
        MapCompose(es[k].1, f, g);
      }
  }
}
