/** Laws of the XML declaration repair in module XmlHeader. */
module XmlHeaderLaws {
  import opened Wrappers
  import opened Php
  import opened XmlHeader

  // --------------------------------------------------------------------- BOM

  /** A leading EF BB BF is dropped; a string not starting with it is kept whole. */
  lemma RemoveBomLaws(s: string)
    ensures RemoveBom(Bom + s) == s
    ensures !StartsWith(s, Bom) ==> RemoveBom(s) == s
  {
    assert (Bom + s)[..3] == Bom;
    assert (Bom + s)[3..] == s;
  }

  // ------------------------------------------------------------- top level

  /**
   * The XmlDocument constructor loads the repaired text, with `&amp;` turned
   * into `&` when asked; on text without `&amp;` the flag changes nothing.
   */
  lemma DocumentSourceLaws(contents: string, fixAmpersand: bool)
    ensures DocumentSource(contents, fixAmpersand).Err? <==> FixXmlHeader(contents).Err?
    ensures FixXmlHeader(contents).Err? ==> DocumentSource(contents, fixAmpersand) == Err(HeaderMalformed)
    ensures !fixAmpersand ==> DocumentSource(contents, fixAmpersand) == FixXmlHeader(contents)
    ensures FixXmlHeader(contents).Ok? && !Contains(FixXmlHeader(contents).value, "&amp;") ==>
      DocumentSource(contents, true) == DocumentSource(contents, false)
  {
    if FixXmlHeader(contents).Ok? && !Contains(FixXmlHeader(contents).value, "&amp;") {
      ReplaceAbsent(FixXmlHeader(contents).value, "&amp;", "&");
    }
  }

  lemma FixWithoutDeclaration(s: string)
    requires !Contains(RemoveBom(s), "<?xml")
    ensures FixXmlHeader(s) == Ok(DefaultHeader + RemoveBom(s))
  {
  }

  lemma FixUnterminated(s: string)
    requires Contains(RemoveBom(s), "<?xml") && !Contains(RemoveBom(s), "?>")
    ensures FixXmlHeader(s) == Err(HeaderMalformed) && HeaderMalformed.Code() == 251
  {
  }

  /**
   * Whatever follows the first `?>` is passed through unchanged: only the
   * declaration up to it is repaired.
   */
  lemma FixPassesTail(x: string, rest: string)
    requires |x| >= 2 && x[|x| - 2..] == "?>" && !Contains(x[..|x| - 1], "?>")
    requires !StartsWith(x + rest, Bom) && Contains(x + rest, "<?xml")
    ensures FixXmlHeader(x + rest) == Ok(RepairHeader(x) + rest)
  {
    var s := x + rest;
    var k := |x| - 2;
    assert OccursAt(s, "?>", k) by {
      assert s[k..k + 2] == x[k..];
    }
    forall j | 0 <= j < k ensures !OccursAt(s, "?>", j) {
      assert s[j..j + 2] == x[..|x| - 1][j..j + 2];
      if OccursAt(s, "?>", j) {
        ContainsAt(x[..|x| - 1], "?>", j);
      }
    }
    var r := IndexOf(s, "?>");
    assert r.Some?;
    assert r.value == k;
    assert s[..k + 2] == x && s[k + 2..] == rest;
  }

  // ----------------------------------------------------- forcing an attribute

  /** An attribute name as the pattern spells it: value characters, then `=`. */
  predicate KeyShape(key: string) {
    |key| > 6 && key[|key| - 1] == '=' && forall i :: 0 <= i < |key| - 1 ==> IsValueChar(key[i])
  }

  predicate ValueShape(v: string) {
    |v| > 0 && forall i :: 0 <= i < |v| ==> IsValueChar(v[i])
  }

  /** A quoted value `["'][\w\-.]+["']`. */
  predicate QuotedShape(q: string) {
    |q| >= 3 && IsQuote(q[0]) && IsQuote(q[|q| - 1]) && ValueShape(q[1..|q| - 1])
  }

  lemma ConstantsHaveShape()
    ensures KeyShape(VersionKey) && KeyShape(EncodingKey)
    ensures ValueShape(XmlVersion) && ValueShape(XmlEncoding)
  {
  }

  lemma SkipValueCharsIs(s: string, i: nat, k: nat)
    requires i <= k <= |s|
    requires forall j :: i <= j < k ==> IsValueChar(s[j])
    requires k == |s| || !IsValueChar(s[k])
    ensures SkipValueChars(s, i) == k
  {
    SkipValueCharsStops(s, i);
  }

  lemma SkipSpacesIs(s: string, i: nat, k: nat)
    requires i <= k <= |s|
    requires forall j :: i <= j < k ==> IsSpace(s[j])
    requires k == |s| || !IsSpace(s[k])
    ensures SkipSpaces(s, i) == k
  {
    SkipSpacesStops(s, i);
  }

  lemma QuotedAt(s: string, i: nat, q: string)
    requires QuotedShape(q) && i + |q| <= |s| && s[i..i + |q|] == q
    ensures QuotedEnd(s, i) == Some(i + |q|)
  {
    assert s[i] == q[0];
    forall j | i + 1 <= j < i + |q| - 1 ensures IsValueChar(s[j]) {
      assert s[j] == q[j - i] == q[1..|q| - 1][j - i - 1];
    }
    assert s[i + |q| - 1] == q[|q| - 1];
    SkipValueCharsIs(s, i + 1, i + |q| - 1);
  }

  /** Two occurrences of such a key never overlap: its only `=` is its last byte. */
  lemma NoOverlap(s: string, key: string, p1: nat, p2: nat)
    requires KeyShape(key) && p1 < p2 < p1 + |key| && OccursAt(s, key, p1)
    ensures !OccursAt(s, key, p2)
  {
    var m := p1 + |key| - 1;
    assert s[m] == s[p1..p1 + |key|][|key| - 1] == '=';
    assert IsValueChar(key[m - p2]);
    if p2 + |key| <= |s| {
      assert s[p2..p2 + |key|][m - p2] == s[m] != key[m - p2];
    }
  }

  /** A match that starts before an occurrence of the key at `p` also ends before it. */
  lemma MatchEndsBefore(r: string, key: string, p: nat, p1: nat)
    requires KeyShape(key) && p1 < p && OccursAt(r, key, p) && AttrMatchAt(r, key, p1).Some?
    ensures AttrMatchAt(r, key, p1).value <= p
  {
    if p1 + |key| > p {
      NoOverlap(r, key, p1, p);
    }
    var q := p1 + |key|;
    var m := p + |key| - 1;
    Region(r, p, key);
    assert r[m] == '=' && !IsValueChar(r[m]);
    assert forall j :: p <= j <= m ==> !IsQuote(r[j]);
    var jr := SkipValueChars(r, q + 1);
    SkipValueCharsStops(r, q + 1);
    assert jr < p;
  }

  /** Two strings with the same first `p` bytes agree on every slice within them. */
  lemma SamePrefixSlice(a: string, b: string, p: nat, i: nat, j: nat)
    requires p <= |a| && p <= |b| && a[..p] == b[..p] && i <= j <= p
    ensures a[i..j] == b[i..j]
  {
    forall k | 0 <= k < j - i ensures a[i..j][k] == b[i..j][k] {
      assert a[i + k] == a[..p][i + k];
      assert b[i + k] == b[..p][i + k];
    }
  }

  lemma SliceOfSlice(s: string, a: nat, b: nat, i: nat, j: nat)
    requires a <= b <= |s| && i <= j <= b - a
    ensures s[a..b][i..j] == s[a + i..a + j]
  {
    forall k | 0 <= k < j - i ensures s[a..b][i..j][k] == s[a + i..a + j][k] {
    }
  }

  /** A match depends only on the bytes up to its end. */
  lemma MatchIsLocal(r: string, h: string, key: string, p: nat, p1: nat)
    requires p <= |h| && p <= |r| && r[..p] == h[..p]
    requires AttrMatchAt(r, key, p1).Some? && AttrMatchAt(r, key, p1).value <= p
    ensures AttrMatchAt(h, key, p1) == AttrMatchAt(r, key, p1)
  {
    var q := p1 + |key|;
    var e := AttrMatchAt(r, key, p1).value;
    SamePrefixSlice(r, h, p, p1, q);
    assert r[q] == h[..p][q] == h[q];
    var jr := e - 1;
    SkipValueCharsStops(r, q + 1);
    forall j | q + 1 <= j < jr ensures IsValueChar(h[j]) {
      assert h[j] == h[..p][j] == r[j];
    }
    assert h[jr] == h[..p][jr] == r[jr];
    SkipValueCharsIs(h, q + 1, jr);
  }

  /**
   * A match that starts before an occurrence of the key at `p` looks only at
   * bytes before `p`, so two strings that agree before `p` agree on it.
   */
  lemma EarlierMatchTransfers(h: string, r: string, key: string, p: nat, p1: nat)
    requires KeyShape(key) && p1 < p && p <= |h| && p <= |r| && r[..p] == h[..p]
    requires OccursAt(r, key, p)
    requires AttrMatchAt(r, key, p1).Some?
    ensures AttrMatchAt(h, key, p1) == AttrMatchAt(r, key, p1)
  {
    MatchEndsBefore(r, key, p, p1);
    MatchIsLocal(r, h, key, p, p1);
  }

  /** The leftmost match, from an occurrence with no match before it. */
  lemma FirstMatchIs(r: string, key: string, p: nat, e: nat)
    requires AttrMatchAt(r, key, p) == Some(e)
    requires forall p1 :: 0 <= p1 < p ==> AttrMatchAt(r, key, p1).None?
    ensures FindAttr(r, key, 0) == Some((p, e))
  {
    var f := FindAttr(r, key, 0);
    assert f.Some?;
    assert f.value.0 == p;
  }

  /** The forced text `key"v"` is a match of the attribute pattern. */
  lemma ForcedMatch(r: string, key: string, v: string, p: nat)
    requires ValueShape(v) && p + |key| + |v| + 2 <= |r|
    requires r[p..p + |key| + |v| + 2] == key + "\"" + v + "\""
    ensures AttrMatchAt(r, key, p) == Some(p + |key| + |v| + 2)
  {
    var q := "\"" + v + "\"";
    assert q[1..|q| - 1] == v;
    assert key + "\"" + v + "\"" == key + q;
    AttrAt(r, p, key, q);
  }

  /** `r` holds `key"v"` at `p`, and that is the first match of the key's pattern. */
  predicate ForcedAtOffset(r: string, key: string, v: string, p: nat) {
    var n := |key| + |v| + 2;
    p + n <= |r| && r[p..p + n] == key + "\"" + v + "\"" && FindAttr(r, key, 0) == Some((p, p + n))
  }

  /** `key"v"` spliced in at `p`, with no match of the key before `p`, is the first match. */
  lemma SplicedIsFirst(h: string, r: string, key: string, v: string, p: nat, e: nat)
    requires KeyShape(key) && ValueShape(v) && p <= e <= |h|
    requires r == h[..p] + (key + "\"" + v + "\"") + h[e..]
    requires forall p1 :: 0 <= p1 < p ==> AttrMatchAt(h, key, p1).None?
    ensures r[p..p + |key| + |v| + 2] == key + "\"" + v + "\""
    ensures FindAttr(r, key, 0) == Some((p, p + |key| + |v| + 2))
  {
    var R := key + "\"" + v + "\"";
    assert r[..p] == h[..p];
    assert r[p..p + |R|] == R;
    ForcedMatch(r, key, v, p);
    forall p1 | 0 <= p1 < p ensures AttrMatchAt(r, key, p1).None? {
      if AttrMatchAt(r, key, p1).Some? {
        EarlierMatchTransfers(h, r, key, p, p1);
      }
    }
    FirstMatchIs(r, key, p, p + |R|);
  }

  /** An existing `key` attribute is overwritten where it stands. */
  lemma ForcedReplaced(h: string, key: string, v: string, p: nat, e: nat)
    requires KeyShape(key) && ValueShape(v) && FindAttr(h, key, 0) == Some((p, e))
    ensures ForcedAtOffset(ForceAttr(h, key, v), key, v, p)
  {
    var r := ForceAttr(h, key, v);
    assert r == h[..p] + (key + "\"" + v + "\"") + h[e..];
    SplicedIsFirst(h, r, key, v, p, e);
  }

  /** `key"v" ` inserted at `p < |key|` is the first match. */
  lemma InsertedIsFirst(r: string, key: string, v: string, p: nat)
    requires KeyShape(key) && ValueShape(v) && p < |key|
    requires p + |key| + |v| + 2 <= |r| && r[p..p + |key| + |v| + 2] == key + "\"" + v + "\""
    ensures FindAttr(r, key, 0) == Some((p, p + |key| + |v| + 2))
  {
    ForcedMatch(r, key, v, p);
    forall p1 | 0 <= p1 < p ensures AttrMatchAt(r, key, p1).None? {
      if AttrMatchAt(r, key, p1).Some? {
        NoOverlap(r, key, p1, p);
      }
    }
    FirstMatchIs(r, key, p, p + |key| + |v| + 2);
  }

  /** Where an absent attribute is inserted: `substr($h, 0, 6)` ends there. */
  function InsertOffset(h: string): nat {
    if |h| < 6 then |h| else 6
  }

  lemma InsertedShape(h: string, key: string, v: string)
    requires FindAttr(h, key, 0).None?
    ensures ForceAttr(h, key, v) == h[..InsertOffset(h)] + (key + "\"" + v + "\"") + (" " + h[InsertOffset(h)..])
  {
  }

  /** Without a `key` attribute, the forced one is inserted at offset 6 and is the first. */
  lemma ForcedInserted(h: string, key: string, v: string)
    requires KeyShape(key) && ValueShape(v) && FindAttr(h, key, 0).None?
    ensures ForcedAtOffset(ForceAttr(h, key, v), key, v, InsertOffset(h))
  {
    var R := key + "\"" + v + "\"";
    var r := ForceAttr(h, key, v);
    var p := InsertOffset(h);
    InsertedShape(h, key, v);
    assert r[p..p + |R|] == R;
    InsertedIsFirst(r, key, v, p);
  }

  /** Where the forced attribute ends up: the first match of its key, with the forced value. */
  lemma ForcedAt(h: string, key: string, v: string) returns (p: nat)
    requires KeyShape(key) && ValueShape(v)
    ensures ForcedAtOffset(ForceAttr(h, key, v), key, v, p)
  {
    var f := FindAttr(h, key, 0);
    if f.Some? {
      p := f.value.0;
      ForcedReplaced(h, key, v, p, f.value.1);
    } else {
      p := InsertOffset(h);
      ForcedInserted(h, key, v);
    }
  }

  /** The value between the quotes of the first match is the forced value. */
  lemma ForcedValue(r: string, key: string, v: string, p: nat)
    requires ForcedAtOffset(r, key, v, p)
    ensures FirstValue(r, key) == Some(v)
  {
    var n := |key| + |v| + 2;
    var R := key + "\"" + v + "\"";
    assert p + n <= |r| && r[p..p + n] == R && FindAttr(r, key, 0) == Some((p, p + n));
    assert R[|key| + 1..n - 1] == v;
    SliceOfSlice(r, p, p + n, |key| + 1, n - 1);
  }

  /** Forcing the value again rewrites the first match with the text it already has. */
  lemma ForcedAgain(r: string, key: string, v: string, p: nat)
    requires ForcedAtOffset(r, key, v, p)
    ensures ForceAttr(r, key, v) == r
  {
    var n := |key| + |v| + 2;
    assert r == r[..p] + r[p..p + n] + r[p + n..];
  }

  /**
   * After a "complete header elements" step the first `key` attribute has
   * exactly the forced value, and a second step changes nothing.
   */
  lemma ForceAttrLaws(h: string, key: string, v: string)
    requires KeyShape(key) && ValueShape(v)
    ensures FirstValue(ForceAttr(h, key, v), key) == Some(v)
    ensures ForceAttr(ForceAttr(h, key, v), key, v) == ForceAttr(h, key, v)
  {
    var r := ForceAttr(h, key, v);
    var p := ForcedAt(h, key, v);
    ForcedValue(r, key, v, p);
    ForcedAgain(r, key, v, p);
  }

  lemma VersionForced(h: string)
    ensures FirstValue(ForceAttr(h, VersionKey, XmlVersion), VersionKey) == Some("1.0")
    ensures ForceAttr(ForceAttr(h, VersionKey, XmlVersion), VersionKey, XmlVersion) == ForceAttr(h, VersionKey, XmlVersion)
  {
    ConstantsHaveShape();
    ForceAttrLaws(h, VersionKey, XmlVersion);
  }

  lemma EncodingForced(h: string)
    ensures FirstValue(ForceAttr(h, EncodingKey, XmlEncoding), EncodingKey) == Some("utf-8")
    ensures ForceAttr(ForceAttr(h, EncodingKey, XmlEncoding), EncodingKey, XmlEncoding) == ForceAttr(h, EncodingKey, XmlEncoding)
  {
    ConstantsHaveShape();
    ForceAttrLaws(h, EncodingKey, XmlEncoding);
  }

  // -------------------------------------------------------------------- swap

  predicate AllSpaces(w: string) {
    forall i :: 0 <= i < |w| ==> IsSpace(w[i])
  }

  predicate NoSpaces(w: string) {
    forall i :: 0 <= i < |w| ==> !IsSpace(w[i])
  }

  /** Brings a region of `h` into index form. */
  lemma Region(h: string, start: nat, part: string)
    requires start + |part| <= |h| && h[start..start + |part|] == part
    ensures forall i :: start <= i < start + |part| ==> h[i] == part[i - start]
  {
    forall i | start <= i < start + |part| ensures h[i] == part[i - start] {
      assert h[start..start + |part|][i - start] == h[i];
    }
  }

  lemma AttrHasNoSpaces(key: string, q: string)
    requires KeyShape(key) && QuotedShape(q)
    ensures NoSpaces(key + q)
  {
    forall i | 0 <= i < |key + q| ensures !IsSpace((key + q)[i]) {
      if i >= |key| {
        var k := i - |key|;
        if 0 < k < |q| - 1 {
          assert q[k] == q[1..|q| - 1][k - 1];
        }
      }
    }
  }

  /**
   * Where `h` holds, from `b`, `encoding=Q`, blanks, `version=Q`, blanks and
   * `?>`, preceded by a blank at `b - 1`: the positions of the pattern's parts.
   */
  predicate SwapLayout(h: string, b: nat, eq: string, d: nat, vq: string, z: nat) {
    var c := b + |EncodingKey| + |eq|;
    var f := d + |VersionKey| + |vq|;
    0 < b && c < d && f <= z && z + 2 == |h| &&
    IsSpace(h[b - 1]) &&
    h[b..c] == EncodingKey + eq && QuotedShape(eq) &&
    (forall i :: c <= i < d ==> IsSpace(h[i])) &&
    h[d..f] == VersionKey + vq && QuotedShape(vq) &&
    (forall i :: f <= i < z ==> IsSpace(h[i])) &&
    h[z..] == "?>"
  }

  lemma TailAtIntro(h: string, j: nat, w1: nat, e1: nat, w2: nat, e2: nat, w3: nat)
    requires j <= |h| && SkipSpaces(h, j) == w1 && w1 != j && AttrMatchAt(h, EncodingKey, w1) == Some(e1)
    requires e1 <= |h| && SkipSpaces(h, e1) == w2 && w2 != e1 && AttrMatchAt(h, VersionKey, w2) == Some(e2)
    requires e2 <= |h| && SkipSpaces(h, e2) == w3 && OccursAt(h, "?>", w3)
    ensures TailAt(h, j) == Some(Tail(w1, e1, w2, e2, w3 + 2))
  {
  }

  lemma AttrAt(h: string, p: nat, key: string, q: string)
    requires QuotedShape(q) && p + |key| + |q| <= |h| && h[p..p + |key| + |q|] == key + q
    ensures AttrMatchAt(h, key, p) == Some(p + |key| + |q|)
  {
    assert h[p..p + |key|] == (key + q)[..|key|] == key;
    assert h[p + |key|..p + |key| + |q|] == (key + q)[|key|..] == q;
    QuotedAt(h, p + |key|, q);
  }

  lemma TailStart(h: string, b: nat, eq: string, d: nat, vq: string, z: nat)
    requires SwapLayout(h, b, eq, d, vq, z)
    ensures SkipSpaces(h, b - 1) == b
  {
    assert h[b] == h[b..b + |EncodingKey| + |eq|][0] == 'e';
    SkipSpacesIs(h, b - 1, b);
  }

  lemma TailMiddle(h: string, b: nat, eq: string, d: nat, vq: string, z: nat)
    requires SwapLayout(h, b, eq, d, vq, z)
    ensures SkipSpaces(h, b + |EncodingKey| + |eq|) == d
  {
    assert h[d] == h[d..d + |VersionKey| + |vq|][0] == 'v';
    SkipSpacesIs(h, b + |EncodingKey| + |eq|, d);
  }

  lemma TailEnd(h: string, b: nat, eq: string, d: nat, vq: string, z: nat)
    requires SwapLayout(h, b, eq, d, vq, z)
    ensures SkipSpaces(h, d + |VersionKey| + |vq|) == z && OccursAt(h, "?>", z)
  {
    assert h[z] == h[z..][0] == '?';
    SkipSpacesIs(h, d + |VersionKey| + |vq|, z);
    assert h[z..z + 2] == h[z..];
  }

  lemma TailFound(h: string, b: nat, eq: string, d: nat, vq: string, z: nat)
    requires SwapLayout(h, b, eq, d, vq, z)
    ensures TailAt(h, b - 1) == Some(Tail(b, b + |EncodingKey| + |eq|, d, d + |VersionKey| + |vq|, z + 2))
  {
    var c := b + |EncodingKey| + |eq|;
    var f := d + |VersionKey| + |vq|;
    TailStart(h, b, eq, d, vq, z);
    AttrAt(h, b, EncodingKey, eq);
    TailMiddle(h, b, eq, d, vq, z);
    AttrAt(h, d, VersionKey, vq);
    TailEnd(h, b, eq, d, vq, z);
    TailAtIntro(h, b - 1, b, c, d, f, z);
  }

  lemma NoTailWithoutBlank(h: string, k: nat)
    requires k <= |h| && (k == |h| || !IsSpace(h[k]))
    ensures TailAt(h, k).None?
  {
  }

  lemma NoTailWithoutEncoding(h: string, k: nat)
    requires k <= |h| && !OccursAt(h, EncodingKey, SkipSpaces(h, k))
    ensures TailAt(h, k).None?
  {
  }

  /** Past the blank before `encoding=`, no position starts the tail. */
  lemma NoTailAfter(h: string, b: nat, eq: string, d: nat, vq: string, z: nat, k: nat)
    requires SwapLayout(h, b, eq, d, vq, z) && b <= k <= |h|
    ensures TailAt(h, k).None?
  {
    var c := b + |EncodingKey| + |eq|;
    var f := d + |VersionKey| + |vq|;
    if c <= k < d {
      assert !OccursAt(h, EncodingKey, d) by {
        assert h[d..f][0] == h[d] == 'v';
        if d + |EncodingKey| <= |h| {
          assert h[d..d + |EncodingKey|][0] == h[d];
        }
      }
      assert SkipSpaces(h, k) == d by {
        SkipSpacesIs(h, k, d);
      }
      NoTailWithoutEncoding(h, k);
    } else if f <= k < z {
      assert !OccursAt(h, EncodingKey, z);
      assert SkipSpaces(h, k) == z by {
        assert h[z] == h[z..][0];
        SkipSpacesIs(h, k, z);
      }
      NoTailWithoutEncoding(h, k);
    } else if k < c {
      assert !IsSpace(h[k]) by {
        AttrHasNoSpaces(EncodingKey, eq);
        assert h[k] == h[b..c][k - b];
      }
      NoTailWithoutBlank(h, k);
    } else if d <= k < f {
      assert !IsSpace(h[k]) by {
        AttrHasNoSpaces(VersionKey, vq);
        assert h[k] == h[d..f][k - d];
      }
      NoTailWithoutBlank(h, k);
    } else {
      assert k == |h| || h[k] == h[z..][k - z];
      NoTailWithoutBlank(h, k);
    }
  }

  /** `t` is the tail at `j`, and no later position has one. */
  predicate LastTailAt(ts: seq<Option<Tail>>, j: nat, t: Tail) {
    j < |ts| && ts[j] == Some(t) && forall k :: j < k < |ts| ==> ts[k].None?
  }

  lemma LastSomeFinds(ts: seq<Option<Tail>>, lo: nat, j: nat, t: Tail)
    requires lo <= j && LastTailAt(ts, j, t)
    ensures LastSome(ts, lo, |ts| - 1) == Some((j, t))
  {
    var r := LastSome(ts, lo, |ts| - 1);
    assert r.Some?;
    assert r.value.0 == j;
  }

  lemma TailsOfLayout(h: string, b: nat, eq: string, d: nat, vq: string, z: nat)
    requires SwapLayout(h, b, eq, d, vq, z)
    ensures LastTailAt(Tails(h), b - 1, Tail(b, b + |EncodingKey| + |eq|, d, d + |VersionKey| + |vq|, z + 2))
  {
    TailFound(h, b, eq, d, vq, z);
    forall k | b - 1 < k < |Tails(h)| ensures Tails(h)[k].None? {
      NoTailAfter(h, b, eq, d, vq, z, k);
    }
  }

  /** The greedy prefix from the first `<?`, for any table of tails. */
  lemma FindSwapFrom(h: string, ts: seq<Option<Tail>>, j: nat, t: Tail)
    requires |ts| == |h| + 1 && |h| >= 2 && h[..2] == "<?" && 2 <= j && LastTailAt(ts, j, t)
    ensures FindSwap(h, ts, 0) == Some((0, j, t))
  {
    LastSomeFinds(ts, 2, j, t);
  }

  /** The leftmost `<?` starts the match, and the greedy prefix ends just before `encoding=`. */
  lemma SwapFound(h: string, b: nat, eq: string, d: nat, vq: string, z: nat)
    requires SwapLayout(h, b, eq, d, vq, z) && b >= 3 && h[..2] == "<?"
    ensures FindSwap(h, Tails(h), 0) == Some((0, b - 1, Tail(b, b + |EncodingKey| + |eq|, d, d + |VersionKey| + |vq|, z + 2)))
  {
    var t := Tail(b, b + |EncodingKey| + |eq|, d, d + |VersionKey| + |vq|, z + 2);
    TailsOfLayout(h, b, eq, d, vq, z);
    FindSwapFrom(h, Tails(h), b - 1, t);
  }

  /** The output of the swap once the match is known. */
  lemma SwapOf(h: string, j: nat, t: Tail)
    requires FindSwap(h, Tails(h), 0) == Some((0, j, t))
    ensures TailAt(h, j) == Some(t)
    ensures SwapEncodingVersion(h) == SwapText(h, 0, j, t)
  {
  }

  lemma SwapTextOfLayout(h: string, b: nat, eq: string, d: nat, vq: string, z: nat, pre: string)
    requires SwapLayout(h, b, eq, d, vq, z) && b >= 3 && h[2..b - 1] == pre
    ensures SwapText(h, 0, b - 1, Tail(b, b + |EncodingKey| + |eq|, d, d + |VersionKey| + |vq|, z + 2))
      == "<?" + pre + " " + VersionKey + vq + " " + EncodingKey + eq + "?>"
  {
    assert h[..0] == [];
    assert h[z + 2..] == [];
  }

  /** The swap on a declaration in index form; `pre` is the text between `<?` and the last blank. */
  lemma SwapAt(h: string, b: nat, eq: string, d: nat, vq: string, z: nat, pre: string)
    requires SwapLayout(h, b, eq, d, vq, z) && b >= 3 && h[..2] == "<?" && h[2..b - 1] == pre
    ensures SwapEncodingVersion(h) == "<?" + pre + " " + VersionKey + vq + " " + EncodingKey + eq + "?>"
  {
    var t := Tail(b, b + |EncodingKey| + |eq|, d, d + |VersionKey| + |vq|, z + 2);
    SwapFound(h, b, eq, d, vq, z);
    SwapOf(h, b - 1, t);
    SwapTextOfLayout(h, b, eq, d, vq, z, pre);
  }

  /** The declaration `<?G ws encoding=Q ws version=Q ws ?>` built from its parts. */
  function Declaration(g: string, w1: string, eq: string, w2: string, vq: string, w3: string): string {
    "<?" + g + w1 + (EncodingKey + eq) + w2 + (VersionKey + vq) + w3 + "?>"
  }

  lemma LayoutOfParts(g: string, w1: string, eq: string, w2: string, vq: string, w3: string)
    requires |w1| > 0 && AllSpaces(w1) && |w2| > 0 && AllSpaces(w2) && AllSpaces(w3)
    requires QuotedShape(eq) && QuotedShape(vq)
    ensures var h := Declaration(g, w1, eq, w2, vq, w3);
      var b := 2 + |g| + |w1|;
      var d := b + |EncodingKey| + |eq| + |w2|;
      SwapLayout(h, b, eq, d, vq, d + |VersionKey| + |vq| + |w3|) && h[..2] == "<?" && h[2..b - 1] == g + w1[..|w1| - 1]
  {
    var E := EncodingKey + eq;
    var V := VersionKey + vq;
    var h := Declaration(g, w1, eq, w2, vq, w3);
    var b := 2 + |g| + |w1|;
    var c := b + |E|;
    var d := c + |w2|;
    var z := d + |V| + |w3|;
    assert h[..2] == "<?";
    assert h[2..b - 1] == g + w1[..|w1| - 1];
    assert h[b - 1] == w1[|w1| - 1];
    assert h[b..c] == E;
    Region(h, c, w2);
    assert h[d..d + |V|] == V;
    Region(h, d + |V|, w3);
    assert h[z..] == "?>";
  }

  /**
   * `<?G ws encoding=Q ws version=Q ws ?>` becomes `<?G version=Q encoding=Q?>`.
   * The greedy `[\w\W]*` keeps all but the last blank before `encoding=`.
   */
  lemma SwapReorders(g: string, w1: string, eq: string, w2: string, vq: string, w3: string)
    requires |w1| > 0 && AllSpaces(w1) && |w2| > 0 && AllSpaces(w2) && AllSpaces(w3)
    requires QuotedShape(eq) && QuotedShape(vq)
    ensures SwapEncodingVersion(Declaration(g, w1, eq, w2, vq, w3))
      == "<?" + (g + w1[..|w1| - 1]) + " " + VersionKey + vq + " " + EncodingKey + eq + "?>"
  {
    var b := 2 + |g| + |w1|;
    var d := b + |EncodingKey| + |eq| + |w2|;
    LayoutOfParts(g, w1, eq, w2, vq, w3);
    SwapAt(Declaration(g, w1, eq, w2, vq, w3), b, eq, d, vq, d + |VersionKey| + |vq| + |w3|, g + w1[..|w1| - 1]);
  }
}
