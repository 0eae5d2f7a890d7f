/**
 * Repair of the XML declaration before a document is loaded
 * (`fixXmlHeader` and `removeBom`, identical in XmlUtil and XmlDocument).
 * The three PCRE patterns are written out as deterministic matchers:
 *   version=(["'][\w\-.]+["'])            first match, replaced or inserted at offset 6
 *   encoding=(["'][\w\-.]+["'])           likewise
 *   <\?([\w\W]*)\s+(encoding=Q)\s+(version=Q)\s*\?>  leftmost, greedy, swapped
 */
module XmlHeader {
  import opened Wrappers
  import opened Php

  const XmlVersion: string := "1.0"
  const XmlEncoding: string := "utf-8"
  const Bom: string := [0xEF as char, 0xBB as char, 0xBF as char]
  const VersionKey: string := "version="
  const EncodingKey: string := "encoding="
  /** `<?xml version="1.0" encoding="utf-8"?>`, built from the two constants as the code builds it. */
  const DefaultHeader: string :=
    "<?xml " + (VersionKey + "\"" + XmlVersion + "\"") + " " + (EncodingKey + "\"" + XmlEncoding + "\"") + "?>"

  /** `preg_replace('/^\xEF\xBB\xBF/', '', $s)`. */
  function RemoveBom(s: string): string {
    if StartsWith(s, Bom) then s[3..] else s
  }

  predicate IsQuote(c: char) {
    c == '"' || c == '\''
  }

  /** `[\w\-.]`. */
  predicate IsValueChar(c: char) {
    IsWordChar(c) || c == '-' || c == '.'
  }

  function SkipValueChars(s: string, i: nat): (k: nat)
    requires i <= |s|
    ensures i <= k <= |s|
    decreases |s| - i
  {
    if i < |s| && IsValueChar(s[i]) then SkipValueChars(s, i + 1) else i
  }

  /** `[\w\-.]*` from `i` stops at the first byte that is not a value character. */
  lemma {:induction false} SkipValueCharsStops(s: string, i: nat)
    requires i <= |s|
    ensures forall j :: i <= j < SkipValueChars(s, i) ==> IsValueChar(s[j])
    ensures SkipValueChars(s, i) == |s| || !IsValueChar(s[SkipValueChars(s, i)])
    decreases |s| - i
  {
    if i < |s| && IsValueChar(s[i]) {
      SkipValueCharsStops(s, i + 1);
    }
  }

  /** `["'][\w\-.]+["']` at `i`: the index just after the closing quote. */
  function QuotedEnd(s: string, i: nat): (r: Option<nat>)
    ensures r.Some? ==> i + 3 <= r.value <= |s|
  {
    if i < |s| && IsQuote(s[i]) then
      var j := SkipValueChars(s, i + 1);
      if j > i + 1 && j < |s| && IsQuote(s[j]) then Some(j + 1) else None
    else None
  }

  /** `key(["'][\w\-.]+["'])` at `p`: the end of the match. */
  function AttrMatchAt(s: string, key: string, p: nat): (r: Option<nat>)
    ensures r.Some? ==> p + |key| + 3 <= r.value <= |s| && OccursAt(s, key, p)
  {
    if OccursAt(s, key, p) then QuotedEnd(s, p + |key|) else None
  }

  /** The leftmost match of `key(["'][\w\-.]+["'])` at or after `i`, as (start, end). */
  function FindAttr(s: string, key: string, i: nat): (r: Option<(nat, nat)>)
    ensures r.Some? ==> i <= r.value.0 && AttrMatchAt(s, key, r.value.0) == Some(r.value.1)
    ensures r.Some? ==> forall j :: i <= j < r.value.0 ==> AttrMatchAt(s, key, j).None?
    ensures r.None? ==> forall j :: i <= j ==> AttrMatchAt(s, key, j).None?
    decreases |s| - i
  {
    if i > |s| then None
    else match AttrMatchAt(s, key, i)
      case Some(e) => Some((i, e))
      case None => FindAttr(s, key, i + 1)
  }

  /** The value of the first `key` attribute, without its quotes. */
  function FirstValue(s: string, key: string): Option<string> {
    var m := FindAttr(s, key, 0);
    if m.Some? then Some(s[m.value.0 + |key| + 1..m.value.1 - 1]) else None
  }

  /**
   * One "complete header elements" step: the first `key` attribute gets
   * `"value"`, or `key"value" ` is inserted at offset 6.
   */
  function ForceAttr(h: string, key: string, value: string): string {
    match FindAttr(h, key, 0)
    case Some((p, e)) => h[..p] + key + "\"" + value + "\"" + h[e..]
    case None =>
      var t := if |h| < 6 then |h| else 6;
      h[..t] + key + "\"" + value + "\" " + h[t..]
  }

  /** `\s+encoding=Q\s+version=Q\s*\?>` at `j`: where its two groups start and end. */
  datatype Tail = Tail(encStart: nat, encEnd: nat, verStart: nat, verEnd: nat, end: nat)

  function TailAt(h: string, j: nat): (r: Option<Tail>)
    ensures r.Some? ==> j < r.value.encStart < r.value.encEnd < r.value.verStart < r.value.verEnd < r.value.end <= |h|
  {
    if j > |h| then None
    else
      var w1 := SkipSpaces(h, j);
      if w1 == j then None
      else match AttrMatchAt(h, EncodingKey, w1)
        case None => None
        case Some(e1) =>
          var w2 := SkipSpaces(h, e1);
          if w2 == e1 then None
          else match AttrMatchAt(h, VersionKey, w2)
            case None => None
            case Some(e2) =>
              var w3 := SkipSpaces(h, e2);
              if OccursAt(h, "?>", w3) then Some(Tail(w1, e1, w2, e2, w3 + 2)) else None
  }

  /** The tail tried at every position of `h`. */
  function Tails(h: string): (ts: seq<Option<Tail>>)
    ensures |ts| == |h| + 1
  {
    seq(|h| + 1, k requires 0 <= k => TailAt(h, k))
  }

  /**
   * The greedy `[\w\W]*`: the tail is tried from the largest end `j` down
   * to `lo`, so the match found is the last one.
   */
  function LastSome(ts: seq<Option<Tail>>, lo: nat, j: nat): (r: Option<(nat, Tail)>)
    requires lo <= j < |ts|
    ensures r.Some? ==> lo <= r.value.0 <= j && ts[r.value.0] == Some(r.value.1)
    ensures r.Some? ==> forall k :: r.value.0 < k <= j ==> ts[k].None?
    ensures r.None? ==> forall k :: lo <= k <= j ==> ts[k].None?
    decreases j
  {
    match ts[j]
    case Some(t) => Some((j, t))
    case None => if j == lo then None else LastSome(ts, lo, j - 1)
  }

  /**
   * The leftmost `<?` at or after `i` from which the swap pattern matches,
   * given the tails `ts` of `h` at every position.
   */
  function FindSwap(h: string, ts: seq<Option<Tail>>, i: nat): (r: Option<(nat, nat, Tail)>)
    requires |ts| == |h| + 1
    ensures r.Some? ==> i <= r.value.0 && r.value.0 + 2 <= r.value.1 <= |h| && ts[r.value.1] == Some(r.value.2)
    ensures r.Some? ==> h[r.value.0..r.value.0 + 2] == "<?"
    decreases |h| - i
  {
    if i + 2 > |h| then None
    else if h[i..i + 2] == "<?" then
      var m := LastSome(ts, i + 2, |h|);
      if m.Some? then Some((i, m.value.0, m.value.1)) else FindSwap(h, ts, i + 1)
    else FindSwap(h, ts, i + 1)
  }

  /** The text of the swap: `<?`, the greedy prefix, then the two attributes exchanged. */
  function SwapText(h: string, i: nat, j: nat, t: Tail): string
    requires i + 2 <= j < t.encStart < t.encEnd < t.verStart < t.verEnd < t.end <= |h|
  {
    h[..i] + "<?" + h[i + 2..j] + " " + h[t.verStart..t.verEnd] + " " + h[t.encStart..t.encEnd] + "?>" + h[t.end..]
  }

  /** "Fix header position": `<?G encoding=Q version=Q?>` becomes `<?G version=Q encoding=Q?>`. */
  function SwapEncodingVersion(h: string): string {
    var m := FindSwap(h, Tails(h), 0);
    if m.None? then h
    else
      SwapText(h, m.value.0, m.value.1, m.value.2)
  }

  /** The declaration up to its first `?>`, repaired. */
  function RepairHeader(h: string): string {
    var h1 := if h == "<?xml?>" then "<?xml ?>" else h;
    var h2 := ForceAttr(h1, VersionKey, XmlVersion);
    var h3 := ForceAttr(h2, EncodingKey, XmlEncoding);
    SwapEncodingVersion(h3)
  }

  /** `fixXmlHeader($s)`. */
  function FixXmlHeader(s0: string): Result<string, Error> {
    var s := RemoveBom(s0);
    if !Contains(s, "<?xml") then Ok(DefaultHeader + s)
    else match IndexOf(s, "?>")
      case None => Err(HeaderMalformed)
      case Some(k) => Ok(RepairHeader(s[..k + 2]) + s[k + 2..])
  }

  /**
   * The text handed to `loadXML` by the XmlDocument constructor: the repaired
   * string, with every `&amp;` turned into `&` when `fixAmpersand` is set.
   */
  function DocumentSource(contents: string, fixAmpersand: bool): Result<string, Error> {
    var fixed :- FixXmlHeader(contents);
    Ok(if fixAmpersand then Replace(fixed, "&amp;", "&") else fixed)
  }
}
