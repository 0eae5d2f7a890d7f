/**
 * The promise of `fixXmlHeader` for the whole repair: after both "complete
 * header elements" steps and the "fix header position" swap, the first
 * `version=` attribute holds "1.0" and the first `encoding=` attribute holds
 * "utf-8". The steps do not compose for free: the encoding step rewrites
 * text next to the forced version, and the swap moves both attributes.
 * The argument rests on the fact that a `version=` match and an
 * `encoding=` match never overlap.
 */
module XmlHeaderRepair {
  import opened Wrappers
  import opened Php
  import opened XmlHeader
  import opened XmlHeaderLaws

  // ------------------------------------------------------------ match text

  /** A match is the key followed by a quoted value. */
  lemma MatchText(s: string, key: string, p: nat) returns (q: string)
    requires AttrMatchAt(s, key, p).Some?
    ensures QuotedShape(q) && s[p..AttrMatchAt(s, key, p).value] == key + q
  {
    var i := p + |key|;
    assert OccursAt(s, key, p);
    assert AttrMatchAt(s, key, p) == QuotedEnd(s, i);
    var k := SkipValueChars(s, i + 1);
    assert QuotedEnd(s, i) == Some(k + 1);
    assert i < k < |s| && IsQuote(s[i]) && IsQuote(s[k]);
    SkipValueCharsStops(s, i + 1);
    q := s[i..k + 1];
    assert QuotedShape(q) by {
      assert q[0] == s[i] && q[|q| - 1] == s[k];
      var mid := q[1..|q| - 1];
      forall x | 0 <= x < |mid| ensures IsValueChar(mid[x]) {
        assert mid[x] == s[i + 1 + x];
      }
    }
    assert s[p..k + 1] == s[p..i] + s[i..k + 1];
  }

  /** The same text elsewhere, in another string, is the same match. */
  lemma MatchMoves(a: string, b: string, key: string, p: nat, p2: nat)
    requires AttrMatchAt(a, key, p).Some?
    requires p2 + (AttrMatchAt(a, key, p).value - p) <= |b|
    requires b[p2..p2 + (AttrMatchAt(a, key, p).value - p)] == a[p..AttrMatchAt(a, key, p).value]
    ensures AttrMatchAt(b, key, p2) == Some(p2 + (AttrMatchAt(a, key, p).value - p))
  {
    var q := MatchText(a, key, p);
    AttrAt(b, p2, key, q);
  }

  lemma NoMatchAtChar(s: string, key: string, x: nat)
    requires |key| > 0 && (x >= |s| || s[x] != key[0])
    ensures AttrMatchAt(s, key, x).None?
  {
  }

  lemma FirstChar(s: string, key: string, x: nat)
    requires |key| > 0 && OccursAt(s, key, x)
    ensures s[x] == key[0]
  {
    assert s[x] == s[x..x + |key|][0];
  }

  /** A match holds no blank. */
  lemma SpanHasNoSpaces(s: string, key: string, p: nat, x: nat)
    requires KeyShape(key) && AttrMatchAt(s, key, p).Some? && p <= x < AttrMatchAt(s, key, p).value
    ensures !IsSpace(s[x])
  {
    var q := MatchText(s, key, p);
    AttrHasNoSpaces(key, q);
    Region(s, p, key + q);
  }

  // ------------------------------------------------------ the two keys

  lemma KeyLetters()
    ensures |VersionKey| == 8 && |EncodingKey| == 9
    ensures VersionKey[0] == 'v' && EncodingKey[0] == 'e' && EncodingKey[1] == 'n'
  {
  }

  /**
   * An occurrence of `k2` that starts strictly inside a match of `k1` must
   * share its `=` with the key of `k1`: the rest of a match holds no `=`,
   * and the closing quote cannot fall inside `k2`.
   */
  lemma NoCross(s: string, k1: string, p: nat, k2: string, x: nat)
    requires KeyShape(k1) && KeyShape(k2) && AttrMatchAt(s, k1, p).Some?
    requires OccursAt(s, k2, x) && p < x < AttrMatchAt(s, k1, p).value
    ensures x + |k2| == p + |k1|
  {
    var e := AttrMatchAt(s, k1, p).value;
    var q := MatchText(s, k1, p);
    Region(s, p, k1 + q);
    Region(s, x, k2);
    var m := x + |k2| - 1;
    assert s[m] == '=';
  }

  /** A version match that starts before an `encoding=` also ends before it. */
  lemma VersionEndsBeforeEncoding(s: string, p: nat, x: nat)
    requires AttrMatchAt(s, VersionKey, p).Some? && OccursAt(s, EncodingKey, x) && p < x
    ensures AttrMatchAt(s, VersionKey, p).value <= x
  {
    ConstantsHaveShape();
    KeyLetters();
    if AttrMatchAt(s, VersionKey, p).value > x {
      NoCross(s, VersionKey, p, EncodingKey, x);
    }
  }

  /** No version match starts inside an encoding match. */
  lemma NoVersionInEncoding(s: string, p: nat, x: nat)
    requires AttrMatchAt(s, EncodingKey, p).Some? && p <= x < AttrMatchAt(s, EncodingKey, p).value
    ensures AttrMatchAt(s, VersionKey, x).None?
  {
    ConstantsHaveShape();
    KeyLetters();
    if AttrMatchAt(s, VersionKey, x).Some? {
      FirstChar(s, VersionKey, x);
      if x == p {
        FirstChar(s, EncodingKey, p);
      } else {
        NoCross(s, EncodingKey, p, VersionKey, x);
      }
    }
  }

  /** No encoding match starts inside a version match. */
  lemma NoEncodingInVersion(s: string, p: nat, x: nat)
    requires AttrMatchAt(s, VersionKey, p).Some? && p <= x < AttrMatchAt(s, VersionKey, p).value
    ensures AttrMatchAt(s, EncodingKey, x).None?
  {
    ConstantsHaveShape();
    KeyLetters();
    if AttrMatchAt(s, EncodingKey, x).Some? {
      if x == p {
        FirstChar(s, VersionKey, p);
        FirstChar(s, EncodingKey, p);
      } else {
        NoCross(s, VersionKey, p, EncodingKey, x);
      }
    }
  }

  // --------------------------------------------------- moving a forced match

  /** Two strings with the same text from `m` and `n` on agree on every slice there. */
  lemma SameSuffixSlice(a: string, b: string, m: nat, n: nat, i: nat, j: nat)
    requires m <= |a| && n <= |b| && a[m..] == b[n..] && m <= i <= j <= |a|
    ensures j - m + n <= |b| && b[i - m + n..j - m + n] == a[i..j]
  {
    assert |a| - m == |b| - n;
    forall k | 0 <= k < j - i ensures b[i - m + n..j - m + n][k] == a[i..j][k] {
      assert a[i + k] == a[m..][i + k - m];
      assert b[i - m + n + k] == b[n..][i + k - m];
    }
  }

  /** The forced text copied to `p2` of `r`, with no match before it, is the first match there. */
  lemma ForcedMoves(a: string, r: string, key: string, v: string, p: nat, p2: nat)
    requires ForcedAtOffset(a, key, v, p)
    requires p2 + |key| + |v| + 2 <= |r| && r[p2..p2 + |key| + |v| + 2] == a[p..p + |key| + |v| + 2]
    requires forall p1 :: 0 <= p1 < p2 ==> AttrMatchAt(r, key, p1).None?
    ensures ForcedAtOffset(r, key, v, p2)
  {
    MatchMoves(a, r, key, p, p2);
    FirstMatchIs(r, key, p2, p2 + |key| + |v| + 2);
  }

  /** Text appended after the declaration leaves its first match first. */
  lemma ForcedExtends(h: string, key: string, v: string, p: nat, rest: string)
    requires KeyShape(key) && ForcedAtOffset(h, key, v, p)
    ensures ForcedAtOffset(h + rest, key, v, p)
  {
    var r := h + rest;
    var n := |key| + |v| + 2;
    assert r[..|h|] == h[..|h|];
    SamePrefixSlice(h, r, |h|, p, p + n);
    forall p1 | 0 <= p1 < p ensures AttrMatchAt(r, key, p1).None? {
      if AttrMatchAt(r, key, p1).Some? {
        SamePrefixSlice(h, r, |h|, p, p + |key|);
        MatchEndsBefore(r, key, p, p1);
        MatchIsLocal(r, h, key, |h|, p1);
      }
    }
    ForcedMoves(h, r, key, v, p, p);
  }

  /** Left of a blank at `j` where two strings agree, a match of `b` is one of `a`. */
  lemma NoMatchBeforeBlank(a: string, b: string, key: string, j: nat, p1: nat)
    requires KeyShape(key) && j < |a| && j < |b| && a[..j] == b[..j] && IsSpace(b[j]) && p1 < j
    requires AttrMatchAt(a, key, p1).None?
    ensures AttrMatchAt(b, key, p1).None?
  {
    if AttrMatchAt(b, key, p1).Some? {
      if AttrMatchAt(b, key, p1).value > j {
        SpanHasNoSpaces(b, key, p1, j);
      }
      MatchIsLocal(b, a, key, j, p1);
    }
  }

  /** A match that cannot cross position `j` of either string transfers from its prefix. */
  lemma ForcedBeforeBlank(a: string, b: string, key: string, v: string, p: nat, j: nat)
    requires KeyShape(key) && ForcedAtOffset(a, key, v, p) && p < j < |a| && j < |b|
    requires a[..j] == b[..j] && IsSpace(a[j]) && IsSpace(b[j])
    ensures ForcedAtOffset(b, key, v, p)
  {
    var n := |key| + |v| + 2;
    if p + n > j {
      SpanHasNoSpaces(a, key, p, j);
    }
    SamePrefixSlice(a, b, j, p, p + n);
    forall p1 | 0 <= p1 < p ensures AttrMatchAt(b, key, p1).None? {
      NoMatchBeforeBlank(a, b, key, j, p1);
    }
    ForcedMoves(a, b, key, v, p, p);
  }

  // -------------------------------------------------- the encoding step

  /** The forced version stays first when the encoding after it is rewritten. */
  lemma VersionBeforeSplice(a: string, r: string, pv: nat, x: nat)
    requires ForcedAtOffset(a, VersionKey, XmlVersion, pv) && pv + 13 <= x <= |a| && x <= |r|
    requires r[..x] == a[..x] && OccursAt(r, EncodingKey, x)
    ensures ForcedAtOffset(r, VersionKey, XmlVersion, pv)
  {
    SamePrefixSlice(a, r, x, pv, pv + 13);
    forall p1 | 0 <= p1 < pv ensures AttrMatchAt(r, VersionKey, p1).None? {
      if AttrMatchAt(r, VersionKey, p1).Some? {
        VersionEndsBeforeEncoding(r, p1, x);
        MatchIsLocal(r, a, VersionKey, x, p1);
      }
    }
    ForcedMoves(a, r, VersionKey, XmlVersion, pv, pv);
  }

  /** Left of an `encoding=` that both strings share the prefix before, no new version match appears. */
  lemma NoVersionLeftOf(a: string, r: string, pv: nat, x: nat, p1: nat)
    requires ForcedAtOffset(a, VersionKey, XmlVersion, pv) && x <= pv && x <= |a| && x <= |r|
    requires r[..x] == a[..x] && OccursAt(r, EncodingKey, x) && p1 < x
    ensures AttrMatchAt(r, VersionKey, p1).None?
  {
    if AttrMatchAt(r, VersionKey, p1).Some? {
      VersionEndsBeforeEncoding(r, p1, x);
      MatchIsLocal(r, a, VersionKey, x, p1);
    }
  }

  /** In a shared suffix, a version match of `r` before the shifted forced one would be one of `a` before `pv`. */
  lemma NoVersionInSuffix(a: string, r: string, pv: nat, y: nat, z: nat, p1: nat)
    requires ForcedAtOffset(a, VersionKey, XmlVersion, pv) && y <= pv && y <= |a| && z <= |r| && r[z..] == a[y..]
    requires z <= p1 < pv - y + z
    ensures AttrMatchAt(r, VersionKey, p1).None?
  {
    if AttrMatchAt(r, VersionKey, p1).Some? {
      var e1 := AttrMatchAt(r, VersionKey, p1).value;
      SameSuffixSlice(r, a, z, y, p1, e1);
      MatchMoves(r, a, VersionKey, p1, p1 - z + y);
    }
  }

  /**
   * The forced version stays first, shifted, when the text `a[x..y]` before
   * it is replaced by `ln` bytes that start with `encoding=` and hold no
   * version match.
   */
  lemma VersionAfterSplice(a: string, r: string, pv: nat, x: nat, y: nat, ln: nat) returns (p2: nat)
    requires ForcedAtOffset(a, VersionKey, XmlVersion, pv) && x <= y <= pv
    requires x <= |r| && r[..x] == a[..x] && x + ln <= |r| && r[x + ln..] == a[y..]
    requires OccursAt(r, EncodingKey, x)
    requires forall z :: x <= z < x + ln ==> AttrMatchAt(r, VersionKey, z).None?
    ensures p2 == pv - y + x + ln && ForcedAtOffset(r, VersionKey, XmlVersion, p2)
  {
    p2 := pv - y + x + ln;
    SameSuffixSlice(a, r, y, x + ln, pv, pv + 13);
    forall p1 | 0 <= p1 < p2 ensures AttrMatchAt(r, VersionKey, p1).None? {
      if p1 < x {
        NoVersionLeftOf(a, r, pv, x, p1);
      } else if p1 >= x + ln {
        NoVersionInSuffix(a, r, pv, y, x + ln, p1);
      }
    }
    ForcedMoves(a, r, VersionKey, XmlVersion, pv, p2);
  }

  /** A declaration that opens with `<?xml `. */
  predicate Opens(h: string) {
    |h| >= 6 && h[..6] == "<?xml "
  }

  /** Neither key can match within `<?xml `. */
  lemma NoMatchInOpening(h: string, key: string, x: nat)
    requires Opens(h) && x < 6 && (key == VersionKey || key == EncodingKey)
    ensures AttrMatchAt(h, key, x).None?
  {
    KeyLetters();
    assert h[x] == h[..6][x];
    NoMatchAtChar(h, key, x);
  }

  lemma SplicePrefix(h: string, p: nat, x: string, e: nat)
    requires p <= e <= |h| && 6 <= p
    ensures (h[..p] + x + h[e..])[..6] == h[..6]
  {
    assert (h[..p] + x + h[e..])[..6] == h[..p][..6];
  }

  /** A forcing step keeps the opening `<?xml `. */
  lemma ForceKeepsOpening(h: string, key: string, v: string)
    requires Opens(h) && (key == VersionKey || key == EncodingKey)
    ensures Opens(ForceAttr(h, key, v))
  {
    var f := FindAttr(h, key, 0);
    if f.Some? {
      var (p0, e) := f.value;
      if p0 < 6 {
        NoMatchInOpening(h, key, p0);
      }
      SplicePrefix(h, p0, key + "\"" + v + "\"", e);
    } else {
      InsertedShape(h, key, v);
      assert ForceAttr(h, key, v)[..6] == h[..6];
    }
  }

  /** A forcing step on a declaration opening with `<?xml ` keeps the opening, and its match lies after it. */
  lemma ForcedAfterOpening(h: string, key: string, v: string) returns (p: nat)
    requires Opens(h) && (key == VersionKey || key == EncodingKey) && ValueShape(v)
    ensures 6 <= p && Opens(ForceAttr(h, key, v)) && ForcedAtOffset(ForceAttr(h, key, v), key, v, p)
  {
    ConstantsHaveShape();
    p := ForcedAt(h, key, v);
    ForceKeepsOpening(h, key, v);
    if p < 6 {
      NoMatchInOpening(ForceAttr(h, key, v), key, p);
    }
  }

  /** A forced version before a rewritten encoding stays where it is. */
  lemma VersionBeforeRewrite(h: string, r: string, pv: nat, pe: nat)
    requires ForcedAtOffset(h, VersionKey, XmlVersion, pv) && AttrMatchAt(h, EncodingKey, pe).Some? && pv < pe
    requires ForcedAtOffset(r, EncodingKey, XmlEncoding, pe) && r[..pe] == h[..pe]
    ensures ForcedAtOffset(r, VersionKey, XmlVersion, pv)
  {
    VersionEndsBeforeEncoding(h, pv, pe);
    VersionBeforeSplice(h, r, pv, pe);
  }

  /** A forced version after a rewritten encoding moves with the text after it. */
  lemma VersionAfterRewrite(h: string, r: string, pv: nat, pe: nat, ee: nat) returns (p: nat)
    requires ForcedAtOffset(h, VersionKey, XmlVersion, pv) && AttrMatchAt(h, EncodingKey, pe) == Some(ee) && pe <= pv
    requires ForcedAtOffset(r, EncodingKey, XmlEncoding, pe) && r[..pe] == h[..pe] && r[pe + 16..] == h[ee..]
    ensures ForcedAtOffset(r, VersionKey, XmlVersion, p)
  {
    if pv < ee {
      NoVersionInEncoding(h, pe, pv);
    }
    forall z | pe <= z < pe + 16 ensures AttrMatchAt(r, VersionKey, z).None? {
      NoVersionInEncoding(r, pe, z);
    }
    p := VersionAfterSplice(h, r, pv, pe, ee, 16);
  }

  /** Rewriting an existing encoding leaves the forced version first. */
  lemma ReplacedEncodingKeepsVersion(h: string, pv: nat, pe: nat, ee: nat) returns (p: nat)
    requires ForcedAtOffset(h, VersionKey, XmlVersion, pv) && FindAttr(h, EncodingKey, 0) == Some((pe, ee))
    ensures ForcedAtOffset(ForceAttr(h, EncodingKey, XmlEncoding), VersionKey, XmlVersion, p)
  {
    ConstantsHaveShape();
    var r := ForceAttr(h, EncodingKey, XmlEncoding);
    var R := EncodingKey + "\"" + XmlEncoding + "\"";
    ForcedReplaced(h, EncodingKey, XmlEncoding, pe, ee);
    assert r == h[..pe] + R + h[ee..];
    assert r[..pe] == h[..pe];
    assert r[pe + 16..] == h[ee..];
    if pv < pe {
      VersionBeforeRewrite(h, r, pv, pe);
      p := pv;
    } else {
      p := VersionAfterRewrite(h, r, pv, pe, ee);
    }
  }

  /** Inserting the encoding at offset 6 leaves the forced version first. */
  lemma InsertedEncodingKeepsVersion(h: string, pv: nat) returns (p: nat)
    requires Opens(h) && ForcedAtOffset(h, VersionKey, XmlVersion, pv) && FindAttr(h, EncodingKey, 0).None?
    ensures ForcedAtOffset(ForceAttr(h, EncodingKey, XmlEncoding), VersionKey, XmlVersion, p)
  {
    ConstantsHaveShape();
    var r := ForceAttr(h, EncodingKey, XmlEncoding);
    var R := EncodingKey + "\"" + XmlEncoding + "\"";
    if pv < 6 {
      NoMatchInOpening(h, VersionKey, pv);
    }
    ForcedInserted(h, EncodingKey, XmlEncoding);
    InsertedShape(h, EncodingKey, XmlEncoding);
    assert r == h[..6] + R + (" " + h[6..]);
    assert r[..6] == h[..6] && r[6 + 17..] == h[6..];
    assert OccursAt(r, EncodingKey, 6);
    forall z | 6 <= z < 6 + 17 ensures AttrMatchAt(r, VersionKey, z).None? {
      if z < 6 + 16 {
        NoVersionInEncoding(r, 6, z);
      } else {
        assert r[z] == ' ';
        NoMatchAtChar(r, VersionKey, z);
      }
    }
    p := VersionAfterSplice(h, r, pv, 6, 6, 17);
  }

  /** The encoding step leaves the forced version as the first version match. */
  lemma EncodingKeepsVersion(h: string, pv: nat) returns (p: nat)
    requires Opens(h) && ForcedAtOffset(h, VersionKey, XmlVersion, pv)
    ensures ForcedAtOffset(ForceAttr(h, EncodingKey, XmlEncoding), VersionKey, XmlVersion, p)
  {
    var f := FindAttr(h, EncodingKey, 0);
    if f.Some? {
      p := ReplacedEncodingKeepsVersion(h, pv, f.value.0, f.value.1);
    } else {
      p := InsertedEncodingKeepsVersion(h, pv);
    }
  }

  // ------------------------------------------------------------- the swap

  /** The parts of a tail found at `j`. */
  lemma TailParts(h: string, j: nat, t: Tail)
    requires TailAt(h, j) == Some(t)
    ensures t.encStart == SkipSpaces(h, j) && AttrMatchAt(h, EncodingKey, t.encStart) == Some(t.encEnd)
    ensures t.verStart == SkipSpaces(h, t.encEnd) && AttrMatchAt(h, VersionKey, t.verStart) == Some(t.verEnd)
  {
  }

  /** `r` starts as the swap lays out `h`: the prefix up to the blank at `j`, the version, a blank, the encoding. */
  predicate SwappedLayout(h: string, r: string, j: nat, t: Tail) {
    var lv := t.verEnd - t.verStart;
    var le := t.encEnd - t.encStart;
    t.verStart <= t.verEnd <= |h| && t.encStart <= t.encEnd <= |h| &&
    j <= |h| && j + 2 + lv + le <= |r| && r[..j] == h[..j] && r[j] == ' ' && r[j + 1 + lv] == ' ' &&
    r[j + 1..j + 1 + lv] == h[t.verStart..t.verEnd] &&
    r[j + 2 + lv..j + 2 + lv + le] == h[t.encStart..t.encEnd]
  }

  /** The swapped text, piece by piece: the prefix up to the blank, then the version, then the encoding. */
  lemma SwapPieces(h: string, i: nat, j: nat, t: Tail)
    requires i + 2 <= j < t.encStart < t.encEnd < t.verStart < t.verEnd < t.end <= |h| && h[i..i + 2] == "<?"
    ensures SwappedLayout(h, SwapText(h, i, j, t), j, t)
  {
    var r := SwapText(h, i, j, t);
    var V := h[t.verStart..t.verEnd];
    var E := h[t.encStart..t.encEnd];
    var pre := h[..i] + "<?" + h[i + 2..j];
    assert pre == h[..j] by {
      assert h[..j] == h[..i] + h[i..i + 2] + h[i + 2..j];
    }
    assert r == pre + " " + V + " " + E + ("?>" + h[t.end..]);
    assert r[..j] == pre;
    assert r[j + 1..j + 1 + |V|] == V;
    assert r[j + 2 + |V|..j + 2 + |V| + |E|] == E;
  }

  /** The blanks before each attribute of the tail. */
  lemma TailBlanks(h: string, j: nat, t: Tail)
    requires TailAt(h, j) == Some(t)
    ensures forall z :: j <= z < t.encStart ==> IsSpace(h[z])
    ensures forall z :: t.encEnd <= z < t.verStart ==> IsSpace(h[z])
  {
    TailParts(h, j, t);
    SkipSpacesStops(h, j);
    SkipSpacesStops(h, t.encEnd);
  }

  /** What the swap's proofs use of a tail at `j`: its two matches, in order, with blanks before each. */
  predicate TailShape(h: string, j: nat, t: Tail) {
    j < t.encStart < t.encEnd < t.verStart < t.verEnd <= |h| &&
    AttrMatchAt(h, EncodingKey, t.encStart) == Some(t.encEnd) &&
    AttrMatchAt(h, VersionKey, t.verStart) == Some(t.verEnd) &&
    (forall z :: j <= z < t.encStart ==> IsSpace(h[z])) &&
    (forall z :: t.encEnd <= z < t.verStart ==> IsSpace(h[z]))
  }

  lemma TailShapes(h: string, j: nat, t: Tail)
    requires TailAt(h, j) == Some(t)
    ensures TailShape(h, j, t)
  {
    TailParts(h, j, t);
    TailBlanks(h, j, t);
  }

  /** A forced version at or after the blank before the tail is the tail's own version. */
  lemma TailHoldsVersion(h: string, j: nat, t: Tail, pv: nat)
    requires TailShape(h, j, t) && ForcedAtOffset(h, VersionKey, XmlVersion, pv) && j <= pv
    ensures pv == t.verStart
  {
    ConstantsHaveShape();
    KeyLetters();
    if pv < t.encStart || t.encEnd <= pv < t.verStart {
      NoMatchAtChar(h, VersionKey, pv);
    } else if pv < t.encEnd {
      NoVersionInEncoding(h, t.encStart, pv);
    }
  }

  /** The swap moves the tail's version right after the blank at `j`. */
  lemma MovedVersionFirst(h: string, r: string, j: nat, t: Tail, pv: nat)
    requires TailShape(h, j, t) && ForcedAtOffset(h, VersionKey, XmlVersion, pv) && j <= pv
    requires SwappedLayout(h, r, j, t)
    ensures ForcedAtOffset(r, VersionKey, XmlVersion, j + 1)
  {
    ConstantsHaveShape();
    TailHoldsVersion(h, j, t, pv);
    forall p1 | 0 <= p1 < j + 1 ensures AttrMatchAt(r, VersionKey, p1).None? {
      if p1 == j {
        NoMatchAtChar(r, VersionKey, p1);
      } else {
        NoMatchBeforeBlank(h, r, VersionKey, j, p1);
      }
    }
    ForcedMoves(h, r, VersionKey, XmlVersion, pv, j + 1);
  }

  /** The swap keeps the forced version first. */
  lemma SwapKeepsVersion(h: string, r: string, j: nat, t: Tail, pv: nat) returns (p: nat)
    requires TailShape(h, j, t) && SwappedLayout(h, r, j, t)
    requires ForcedAtOffset(h, VersionKey, XmlVersion, pv)
    ensures ForcedAtOffset(r, VersionKey, XmlVersion, p)
  {
    if pv < j {
      ConstantsHaveShape();
      ForcedBeforeBlank(h, r, VersionKey, XmlVersion, pv, j);
      p := pv;
    } else {
      MovedVersionFirst(h, r, j, t, pv);
      p := j + 1;
    }
  }

  /** Before the moved encoding come the untouched prefix, a blank, the version and a blank: no encoding starts there. */
  lemma NoEncodingBeforeMoved(h: string, r: string, j: nat, lv: nat)
    requires j < |h| && j + 2 + lv <= |r| && r[..j] == h[..j] && r[j] == ' ' && r[j + 1 + lv] == ' '
    requires forall p1 :: 0 <= p1 < j ==> AttrMatchAt(h, EncodingKey, p1).None?
    requires AttrMatchAt(r, VersionKey, j + 1) == Some(j + 1 + lv)
    ensures forall p1 :: 0 <= p1 < j + 2 + lv ==> AttrMatchAt(r, EncodingKey, p1).None?
  {
    ConstantsHaveShape();
    KeyLetters();
    forall p1 | 0 <= p1 < j + 2 + lv ensures AttrMatchAt(r, EncodingKey, p1).None? {
      if p1 == j || p1 == j + 1 + lv {
        NoMatchAtChar(r, EncodingKey, p1);
      } else if p1 > j {
        NoEncodingInVersion(r, j + 1, p1);
      } else {
        NoMatchBeforeBlank(h, r, EncodingKey, j, p1);
      }
    }
  }

  /** After the swap the encoding follows the blank after the version: it is the first encoding match. */
  lemma SwappedEncodingFirst(h: string, r: string, j: nat, lv: nat, pe: nat)
    requires ForcedAtOffset(h, EncodingKey, XmlEncoding, pe) && j <= pe && j < |h|
    requires j + 2 + lv + 16 <= |r| && r[..j] == h[..j] && r[j] == ' ' && r[j + 1 + lv] == ' '
    requires AttrMatchAt(r, VersionKey, j + 1) == Some(j + 1 + lv)
    requires r[j + 2 + lv..j + 2 + lv + 16] == h[pe..pe + 16]
    ensures ForcedAtOffset(r, EncodingKey, XmlEncoding, j + 2 + lv)
  {
    NoEncodingBeforeMoved(h, r, j, lv);
    ForcedMoves(h, r, EncodingKey, XmlEncoding, pe, j + 2 + lv);
  }

  /** A forced encoding at or after the blank before the tail is the tail's own encoding. */
  lemma TailHoldsEncoding(h: string, j: nat, t: Tail, pe: nat)
    requires TailShape(h, j, t) && ForcedAtOffset(h, EncodingKey, XmlEncoding, pe) && j <= pe
    ensures pe == t.encStart && t.encEnd == pe + 16
  {
    ConstantsHaveShape();
    KeyLetters();
    if pe < t.encStart {
      NoMatchAtChar(h, EncodingKey, pe);
    }
  }

  /** A text laid out as the swap lays it out holds the tail's encoding after the version and its blank. */
  lemma MovedEncodingFirst(h: string, r: string, j: nat, t: Tail, pe: nat)
    requires ForcedAtOffset(h, EncodingKey, XmlEncoding, pe) && j < pe == t.encStart && t.encEnd == pe + 16
    requires AttrMatchAt(h, VersionKey, t.verStart) == Some(t.verEnd)
    requires SwappedLayout(h, r, j, t)
    ensures ForcedAtOffset(r, EncodingKey, XmlEncoding, j + 2 + (t.verEnd - t.verStart))
  {
    MatchMoves(h, r, VersionKey, t.verStart, j + 1);
    SwappedEncodingFirst(h, r, j, t.verEnd - t.verStart, pe);
  }

  /** An encoding before the blank at `j` stays where it is. */
  lemma EncodingBeforeTail(h: string, r: string, j: nat, t: Tail, pe: nat)
    requires TailShape(h, j, t) && SwappedLayout(h, r, j, t)
    requires ForcedAtOffset(h, EncodingKey, XmlEncoding, pe) && pe < j
    ensures ForcedAtOffset(r, EncodingKey, XmlEncoding, pe)
  {
    ConstantsHaveShape();
    ForcedBeforeBlank(h, r, EncodingKey, XmlEncoding, pe, j);
  }

  /** An encoding after the blank at `j` is the tail's, and moves behind the version. */
  lemma EncodingInTail(h: string, r: string, j: nat, t: Tail, pe: nat)
    requires TailShape(h, j, t) && SwappedLayout(h, r, j, t)
    requires ForcedAtOffset(h, EncodingKey, XmlEncoding, pe) && j <= pe
    ensures ForcedAtOffset(r, EncodingKey, XmlEncoding, j + 2 + (t.verEnd - t.verStart))
  {
    TailHoldsEncoding(h, j, t, pe);
    MovedEncodingFirst(h, r, j, t, pe);
  }

  /** The swap keeps the forced encoding first. */
  lemma SwapKeepsEncoding(h: string, r: string, j: nat, t: Tail, pe: nat)
    requires TailShape(h, j, t) && SwappedLayout(h, r, j, t)
    requires ForcedAtOffset(h, EncodingKey, XmlEncoding, pe)
    ensures ForcedAtOffset(r, EncodingKey, XmlEncoding, if pe < j then pe else j + 2 + (t.verEnd - t.verStart))
  {
    if pe < j {
      EncodingBeforeTail(h, r, j, t, pe);
    } else {
      EncodingInTail(h, r, j, t, pe);
    }
  }


  /** The "fix header position" step keeps both forced values first. */
  lemma SwapKeepsBoth(h: string, pv: nat, pe: nat) returns (qv: nat, qe: nat)
    requires ForcedAtOffset(h, VersionKey, XmlVersion, pv) && ForcedAtOffset(h, EncodingKey, XmlEncoding, pe)
    ensures ForcedAtOffset(SwapEncodingVersion(h), VersionKey, XmlVersion, qv)
    ensures ForcedAtOffset(SwapEncodingVersion(h), EncodingKey, XmlEncoding, qe)
  {
    var m := FindSwap(h, Tails(h), 0);
    if m.None? {
      qv, qe := pv, pe;
    } else {
      var (i, j, t) := m.value;
      assert TailAt(h, j) == Some(t);
      TailShapes(h, j, t);
      var r := SwapText(h, i, j, t);
      SwapPieces(h, i, j, t);
      qv := SwapKeepsVersion(h, r, j, t, pv);
      SwapKeepsEncoding(h, r, j, t, pe);
      qe := if pe < j then pe else j + 2 + (t.verEnd - t.verStart);
    }
  }

  // ------------------------------------------------------------ the repair

  /** The repaired declaration, with the positions of its first version and encoding. */
  lemma RepairForced(h: string) returns (pv: nat, pe: nat)
    requires h == "<?xml?>" || Opens(h)
    ensures ForcedAtOffset(RepairHeader(h), VersionKey, XmlVersion, pv)
    ensures ForcedAtOffset(RepairHeader(h), EncodingKey, XmlEncoding, pe)
  {
    ConstantsHaveShape();
    var h1 := if h == "<?xml?>" then "<?xml ?>" else h;
    assert Opens(h1);
    var h2 := ForceAttr(h1, VersionKey, XmlVersion);
    var v2 := ForcedAfterOpening(h1, VersionKey, XmlVersion);
    var h3 := ForceAttr(h2, EncodingKey, XmlEncoding);
    var v3 := EncodingKeepsVersion(h2, v2);
    var e3 := ForcedAfterOpening(h2, EncodingKey, XmlEncoding);
    pv, pe := SwapKeepsBoth(h3, v3, e3);
  }

  /**
   * For a declaration that opens with `<?xml ` (or is `<?xml?>`), the whole
   * repair leaves "1.0" as the first version and "utf-8" as the first
   * encoding.
   */
  lemma RepairForcesBoth(h: string)
    requires h == "<?xml?>" || Opens(h)
    ensures FirstValue(RepairHeader(h), VersionKey) == Some(XmlVersion)
    ensures FirstValue(RepairHeader(h), EncodingKey) == Some(XmlEncoding)
  {
    var pv, pe := RepairForced(h);
    ForcedValue(RepairHeader(h), VersionKey, XmlVersion, pv);
    ForcedValue(RepairHeader(h), EncodingKey, XmlEncoding, pe);
  }

  /** The default header holds both forced attributes, version first. */
  lemma DefaultHeaderForced()
    ensures ForcedAtOffset(DefaultHeader, VersionKey, XmlVersion, 6)
    ensures ForcedAtOffset(DefaultHeader, EncodingKey, XmlEncoding, 20)
  {
    ConstantsHaveShape();
    KeyLetters();
    var h := DefaultHeader;
    var V := VersionKey + "\"" + XmlVersion + "\"";
    var E := EncodingKey + "\"" + XmlEncoding + "\"";
    assert h[..6] == "<?xml ";
    assert h[6..19] == V;
    assert h[19] == ' ';
    assert h[20..36] == E;
    InsertedIsFirst(h, VersionKey, XmlVersion, 6);
    ForcedMatch(h, EncodingKey, XmlEncoding, 20);
    forall p1 | 0 <= p1 < 20 ensures AttrMatchAt(h, EncodingKey, p1).None? {
      if p1 < 6 {
        NoMatchInOpening(h, EncodingKey, p1);
      } else if p1 < 19 {
        NoEncodingInVersion(h, 6, p1);
      } else {
        NoMatchAtChar(h, EncodingKey, p1);
      }
    }
    FirstMatchIs(h, EncodingKey, 20, 36);
  }

  /** The first `?>` of text opening with `<?xml ` or `<?xml?>` ends a declaration of the same kind. */
  lemma HeaderOpens(s: string, k: nat)
    requires StartsWith(s, "<?xml ") || StartsWith(s, "<?xml?>")
    requires IndexOf(s, "?>") == Some(k)
    ensures s[..k + 2] == "<?xml?>" || Opens(s[..k + 2])
  {
    assert OccursAt(s, "?>", k);
    assert s[k] == '?' && s[k + 1] == '>' by {
      assert s[k..k + 2] == "?>";
    }
    if StartsWith(s, "<?xml?>") {
      assert s[..7] == "<?xml?>";
      assert OccursAt(s, "?>", 5) by {
        assert s[5..7] == s[..7][5..7];
      }
      assert k == 5;
    } else {
      assert s[..6] == "<?xml ";
      assert s[..k + 2][..6] == s[..6];
    }
  }

  /**
   * `fixXmlHeader` end to end: text without a declaration, or whose
   * declaration opens it as `<?xml ` or `<?xml?>`, comes out with "1.0" as
   * the first version and "utf-8" as the first encoding of the whole text.
   */
  lemma FixXmlHeaderForces(s0: string)
    requires var s := RemoveBom(s0);
      !Contains(s, "<?xml") || StartsWith(s, "<?xml ") || StartsWith(s, "<?xml?>")
    ensures FixXmlHeader(s0).Ok? ==> FirstValue(FixXmlHeader(s0).value, VersionKey) == Some(XmlVersion)
    ensures FixXmlHeader(s0).Ok? ==> FirstValue(FixXmlHeader(s0).value, EncodingKey) == Some(XmlEncoding)
  {
    ConstantsHaveShape();
    var s := RemoveBom(s0);
    if !Contains(s, "<?xml") {
      DefaultHeaderForced();
      ForcedExtends(DefaultHeader, VersionKey, XmlVersion, 6, s);
      ForcedExtends(DefaultHeader, EncodingKey, XmlEncoding, 20, s);
      ForcedValue(DefaultHeader + s, VersionKey, XmlVersion, 6);
      ForcedValue(DefaultHeader + s, EncodingKey, XmlEncoding, 20);
    } else if IndexOf(s, "?>").Some? {
      var k := IndexOf(s, "?>").value;
      var h := s[..k + 2];
      HeaderOpens(s, k);
      var pv, pe := RepairForced(h);
      ForcedExtends(RepairHeader(h), VersionKey, XmlVersion, pv, s[k + 2..]);
      ForcedExtends(RepairHeader(h), EncodingKey, XmlEncoding, pe, s[k + 2..]);
      ForcedValue(RepairHeader(h) + s[k + 2..], VersionKey, XmlVersion, pv);
      ForcedValue(RepairHeader(h) + s[k + 2..], EncodingKey, XmlEncoding, pe);
    }
  }

  // --------------------------------------------------- outside the opening

  lemma {:induction false} NoSwapFromWithoutAngle(h: string, ts: seq<Option<Tail>>, i: nat)
    requires |ts| == |h| + 1 && forall x :: 0 <= x < |h| ==> h[x] != '<'
    ensures FindSwap(h, ts, i).None?
    decreases |h| - i
  {
    if i + 2 <= |h| {
      assert h[i..i + 2][0] == h[i];
      NoSwapFromWithoutAngle(h, ts, i + 1);
    }
  }

  /** Without a `<`, the swap finds nothing to rewrite. */
  lemma NoSwapWithoutAngle(h: string)
    requires forall x :: 0 <= x < |h| ==> h[x] != '<'
    ensures SwapEncodingVersion(h) == h
  {
    NoSwapFromWithoutAngle(h, Tails(h), 0);
  }

  const ShortHeader: string := "ab?>"
  const VersionHead: string := "ve"
  const VersionRest: string := "rsion=\"1.0\" "
  /** `ab?>` after the version step: `version="1.0" ` appended, cut where the encoding will go. */
  const ShortWithVersion: string := ShortHeader + VersionHead + VersionRest
  const ShortRepaired: string := ShortHeader + VersionHead + (EncodingKey + "\"" + XmlEncoding + "\"") + " " + VersionRest

  lemma VersionText()
    ensures VersionKey + "\"" + XmlVersion + "\"" + " " == VersionHead + VersionRest
  {
    var t := VersionKey + "\"" + XmlVersion + "\"" + " ";
    forall k | 0 <= k < |t| ensures t[k] == (VersionHead + VersionRest)[k] {
    }
  }

  lemma ShortVersionStep()
    ensures ForceAttr(ShortHeader, VersionKey, XmlVersion) == ShortWithVersion
  {
    var h := ShortHeader;
    assert FindAttr(h, VersionKey, 0).None?;
    InsertedShape(h, VersionKey, XmlVersion);
    assert h[..4] == h && h[4..] == [];
    VersionText();
  }

  lemma ShortNoEncoding()
    ensures FindAttr(ShortWithVersion, EncodingKey, 0).None?
  {
    ConstantsHaveShape();
    KeyLetters();
    var h := ShortWithVersion;
    var V := VersionKey + "\"" + XmlVersion + "\"";
    VersionText();
    assert h == ShortHeader + V + " ";
    assert h[4..17] == V;
    ForcedMatch(h, VersionKey, XmlVersion, 4);
    forall p1 | 0 <= p1 ensures AttrMatchAt(h, EncodingKey, p1).None? {
      if 4 <= p1 < 17 {
        NoEncodingInVersion(h, 4, p1);
      } else if p1 < 4 {
        assert h[p1] == ShortHeader[p1];
        NoMatchAtChar(h, EncodingKey, p1);
      }
    }
  }

  lemma ShortEncodingStep()
    ensures ForceAttr(ShortWithVersion, EncodingKey, XmlEncoding) == ShortRepaired
  {
    var h := ShortWithVersion;
    ShortNoEncoding();
    InsertedShape(h, EncodingKey, XmlEncoding);
    assert h[..6] == ShortHeader + VersionHead;
    assert h[6..] == VersionRest;
  }

  lemma ShortRepairedHasNoVersion()
    ensures FindAttr(ShortRepaired, VersionKey, 0).None?
  {
    ConstantsHaveShape();
    KeyLetters();
    var h := ShortRepaired;
    var E := EncodingKey + "\"" + XmlEncoding + "\"";
    assert h[6..22] == E;
    assert h[22] == ' ' && h[23..] == VersionRest;
    ForcedMatch(h, EncodingKey, XmlEncoding, 6);
    forall p1 | 0 <= p1 ensures AttrMatchAt(h, VersionKey, p1).None? {
      if 6 <= p1 < 22 {
        NoVersionInEncoding(h, 6, p1);
      } else if p1 == 4 {
        assert h[6] == E[0];
      } else if p1 < 6 {
        assert h[p1] == (ShortHeader + VersionHead)[p1];
        NoMatchAtChar(h, VersionKey, p1);
      } else if p1 < |h| {
        assert p1 == 22 || h[p1] == VersionRest[p1 - 23];
        NoMatchAtChar(h, VersionKey, p1);
      }
    }
  }

  lemma ShortHasNoAngle()
    ensures forall x :: 0 <= x < |ShortRepaired| ==> ShortRepaired[x] != '<'
  {
    var E := EncodingKey + "\"" + XmlEncoding + "\"";
    forall x | 0 <= x < |ShortRepaired| ensures ShortRepaired[x] != '<' {
      if x < 6 {
        assert ShortRepaired[x] == (ShortHeader + VersionHead)[x];
      } else if x < 22 {
        assert ShortRepaired[x] == E[x - 6];
      } else if x > 22 {
        assert ShortRepaired[x] == VersionRest[x - 23];
      }
    }
  }

  /** `ab?><?xml` has `ab?>` as its declaration. */
  lemma ShortIsDeclaration()
    ensures FixXmlHeader(ShortHeader + "<?xml") == Ok(RepairHeader(ShortHeader) + "<?xml")
  {
    var x := ShortHeader;
    var s := x + "<?xml";
    assert x[2..] == "?>";
    assert x == ['a', 'b', '?', '>'];
    var y := x[..3];
    assert y == ['a', 'b', '?'];
    forall k | 0 <= k ensures !OccursAt(y, "?>", k) {
      if k + 2 <= 3 {
        assert y[k..k + 2][1] == y[k + 1];
      }
    }
    assert !Contains(x[..3], "?>");
    assert s[4..9] == "<?xml";
    ContainsAt(s, "<?xml", 4);
    assert s[0] == 'a';
    assert !StartsWith(s, Bom);
    FixPassesTail(x, "<?xml");
  }

  /**
   * Outside that opening the promise fails. For the declaration `ab?>`
   * (the text `ab?><?xml` has it), the version goes at the end because the
   * text is shorter than 6 bytes, and the encoding inserted at offset 6
   * then lands inside it: no version attribute is left.
   */
  lemma InsertSplitsVersion()
    ensures RepairHeader(ShortHeader) == ShortRepaired
    ensures FirstValue(RepairHeader(ShortHeader), VersionKey) == None
    ensures FixXmlHeader(ShortHeader + "<?xml") == Ok(ShortRepaired + "<?xml")
  {
    ShortVersionStep();
    ShortEncodingStep();
    ShortHasNoAngle();
    NoSwapWithoutAngle(ShortRepaired);
    ShortRepairedHasNoVersion();
    ShortIsDeclaration();
  }
}
