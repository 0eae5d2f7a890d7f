/**
 * The PHP string primitives the library relies on, over byte strings
 * (one `char` per byte): `empty()`, `is_numeric()`, `strtolower()`,
 * `str_replace()`, `strpos()`, `strrpos()`, `substr()`, `strtok()`,
 * `htmlspecialchars()` with the PHP 8.1 default flags, and PCRE's `\w` / `\s`.
 */
module Php {
  import opened Wrappers

  /** A PHP array key: integer, or a string that is not a canonical integer. */
  datatype Key = IntKey(i: int) | StrKey(s: string)

  /** PCRE `\w` without the `u` modifier: ASCII letters, digits and `_`. */
  predicate IsWordChar(c: char) {
    ('a' <= c <= 'z') || ('A' <= c <= 'Z') || ('0' <= c <= '9') || c == '_'
  }

  predicate IsDigit(c: char) {
    '0' <= c <= '9'
  }

  /** PCRE `\s` and PHP's numeric-string whitespace: space, \t, \n, \v, \f, \r. */
  predicate IsSpace(c: char) {
    c == ' ' || c == '\t' || c == '\n' || c == '\r' || c as int == 11 || c as int == 12
  }

  /** PHP `empty()` on a string: only "" and "0" are empty. */
  predicate IsEmptyString(s: string) {
    s == "" || s == "0"
  }

  function LowerChar(c: char): char {
    if 'A' <= c <= 'Z' then (c as int + 32) as char else c
  }

  /** `strtolower`: ASCII-only case folding, byte by byte. */
  function Lower(s: string): string {
    seq(|s|, i requires 0 <= i < |s| => LowerChar(s[i]))
  }

  predicate IsLower(s: string) {
    forall i :: 0 <= i < |s| ==> !('A' <= s[i] <= 'Z')
  }

  lemma LowerFolds(s: string)
    ensures |Lower(s)| == |s| && IsLower(Lower(s))
    ensures Lower(Lower(s)) == Lower(s)
    ensures IsLower(s) ==> Lower(s) == s
  {
  }

  /** The first index at or after `i` that is not whitespace. */
  function SkipSpaces(s: string, i: nat): (k: nat)
    requires i <= |s|
    ensures i <= k <= |s|
    decreases |s| - i
  {
    if i < |s| && IsSpace(s[i]) then SkipSpaces(s, i + 1) else i
  }

  /** `\s*` from `i` stops at the first byte that is not white space. */
  lemma {:induction false} SkipSpacesStops(s: string, i: nat)
    requires i <= |s|
    ensures forall j :: i <= j < SkipSpaces(s, i) ==> IsSpace(s[j])
    ensures SkipSpaces(s, i) == |s| || !IsSpace(s[SkipSpaces(s, i)])
    decreases |s| - i
  {
    if i < |s| && IsSpace(s[i]) {
      SkipSpacesStops(s, i + 1);
    }
  }

  /** The first index at or after `i` that is not a decimal digit. */
  function SkipDigits(s: string, i: nat): (k: nat)
    requires i <= |s|
    ensures i <= k <= |s|
    ensures forall j :: i <= j < k ==> IsDigit(s[j])
    ensures k == |s| || !IsDigit(s[k])
    decreases |s| - i
  {
    if i < |s| && IsDigit(s[i]) then SkipDigits(s, i + 1) else i
  }

  /**
   * PHP 8 `is_numeric` on a string: optional surrounding whitespace, an
   * optional sign, digits with an optional fraction (or a fraction alone),
   * and an optional exponent.
   */
  predicate IsNumericString(s: string) {
    var a := SkipSpaces(s, 0);
    var b := if a < |s| && (s[a] == '+' || s[a] == '-') then a + 1 else a;
    var c := SkipDigits(s, b);
    var hasDot := c < |s| && s[c] == '.';
    var d := if hasDot then SkipDigits(s, c + 1) else c;
    var mantissa := c > b || (hasDot && d > c + 1);
    var e :=
      if d < |s| && (s[d] == 'e' || s[d] == 'E') then
        var e1 := if d + 1 < |s| && (s[d + 1] == '+' || s[d + 1] == '-') then d + 2 else d + 1;
        var e2 := SkipDigits(s, e1);
        if e2 > e1 then e2 else d
      else d;
    mantissa && SkipSpaces(s, e) == |s|
  }

  /** `is_numeric($key)` on a PHP array key. */
  predicate IsNumericKey(k: Key) {
    match k
    case IntKey(_) => true
    case StrKey(s) => IsNumericString(s)
  }

  function DigitChar(d: nat): char
    requires d < 10
  {
    ('0' as int + d) as char
  }

  function NatToString(n: nat): (r: string)
    ensures |r| > 0 && forall i :: 0 <= i < |r| ==> IsDigit(r[i])
  {
    if n < 10 then [DigitChar(n)] else NatToString(n / 10) + [DigitChar(n % 10)]
  }

  /** The decimal string PHP gives an integer ("$i"). */
  function IntToString(i: int): string {
    if i < 0 then "-" + NatToString(-i) else NatToString(i)
  }

  /** The string form of an array key ("$key"). */
  function KeyString(k: Key): string {
    match k
    case IntKey(i) => IntToString(i)
    case StrKey(s) => s
  }

  predicate OccursAt(s: string, p: string, k: nat) {
    k + |p| <= |s| && s[k..k + |p|] == p
  }

  /** `strpos($s, $p, $from)`: the leftmost occurrence at or after `from`. */
  function FindFrom(s: string, p: string, from: nat): (r: Option<nat>)
    ensures r.Some? ==> from <= r.value && OccursAt(s, p, r.value)
    ensures r.Some? ==> forall j :: from <= j < r.value ==> !OccursAt(s, p, j)
    ensures r.None? ==> forall j :: from <= j ==> !OccursAt(s, p, j)
    decreases |s| - from
  {
    if from + |p| > |s| then None
    else if s[from..from + |p|] == p then Some(from)
    else FindFrom(s, p, from + 1)
  }

  function IndexOf(s: string, p: string): Option<nat> {
    FindFrom(s, p, 0)
  }

  /** `str_contains`. */
  predicate Contains(s: string, p: string) {
    IndexOf(s, p).Some?
  }

  lemma ContainsAt(s: string, p: string, k: nat)
    requires OccursAt(s, p, k)
    ensures Contains(s, p)
  {
  }

  /** `strpos($s, $c)` for a one-byte needle: the first occurrence of `c`. */
  lemma IndexOfChar(s: string, c: char)
    ensures IndexOf(s, [c]).Some? <==> c in s
    ensures IndexOf(s, [c]).Some? ==>
      var k := IndexOf(s, [c]).value; k < |s| && s[k] == c && c !in s[..k]
  {
    var f := IndexOf(s, [c]);
    if f.Some? {
      var k := f.value;
      assert s[k] == s[k..k + 1][0];
      forall j | 0 <= j < k ensures s[..k][j] != c {
        assert !OccursAt(s, [c], j);
        assert s[j..j + 1] == [s[j]];
      }
    } else {
      forall j | 0 <= j < |s| ensures s[j] != c {
        assert !OccursAt(s, [c], j);
        assert s[j..j + 1] == [s[j]];
      }
    }
  }

  /** `strrpos($s, $c)` for a one-byte needle. */
  function LastIndexOf(s: string, c: char): (r: Option<nat>)
    ensures r.Some? ==> r.value < |s| && s[r.value] == c && c !in s[r.value + 1..]
    ensures r.None? ==> c !in s
  {
    if |s| == 0 then None
    else if s[|s| - 1] == c then Some(|s| - 1)
    else
      var r := LastIndexOf(s[..|s| - 1], c);
      assert s == s[..|s| - 1] + [s[|s| - 1]];
      r
  }

  predicate StartsWith(s: string, p: string) {
    |p| <= |s| && s[..|p|] == p
  }

  /** `substr($s, 0, $n)` for a non-negative length. */
  function Take(s: string, n: nat): string {
    if n <= |s| then s[..n] else s
  }

  /** `substr($s, $n)` for a non-negative offset. */
  function Drop(s: string, n: nat): string {
    if n <= |s| then s[n..] else ""
  }

  lemma TakeDrop(s: string, n: nat)
    ensures Take(s, n) + Drop(s, n) == s
  {
  }

  /** The text before the first `c` (the whole string when there is none). */
  function Before(s: string, c: char): (r: string)
    ensures c !in r && |r| <= |s| && s[..|r|] == r
    ensures c in s ==> |r| < |s| && s[|r|] == c
    ensures c !in s ==> r == s
  {
    if |s| == 0 || s[0] == c then []
    else
      var t := Before(s[1..], c);
      assert s == [s[0]] + s[1..];
      [s[0]] + t
  }

  /** The text after the first `c` (empty when there is none). */
  function After(s: string, c: char): (r: string)
    ensures c in s ==> s == Before(s, c) + [c] + r
  {
    if |s| == 0 then []
    else if s[0] == c then s[1..]
    else After(s[1..], c)
  }

  /**
   * `strtok($s, $c)` on a fresh string: leading delimiters are skipped and
   * the first token returned; `None` is PHP's `false` (nothing but delimiters).
   */
  function StrTok(s: string, c: char): (r: Option<string>)
    ensures r.Some? ==> r.value != [] && c !in r.value
    ensures c !in s && s != [] ==> r == Some(s)
  {
    if |s| == 0 then None
    else if s[0] == c then StrTok(s[1..], c)
    else Some(Before(s, c))
  }

  /** `str_replace($p, $r, $s)` for one search string: leftmost, non-overlapping. */
  function Replace(s: string, p: string, r: string): string
    decreases |s|
  {
    if |p| == 0 || |s| < |p| then s
    else if s[..|p|] == p then r + Replace(s[|p|..], p, r)
    else [s[0]] + Replace(s[1..], p, r)
  }

  lemma {:induction false} ReplaceAbsent(s: string, p: string, r: string)
    requires !Contains(s, p)
    ensures Replace(s, p, r) == s
    decreases |s|
  {
    if |p| == 0 || |s| < |p| {
    } else {
      assert !OccursAt(s, p, 0);
      if !Contains(s[1..], p) {
        ReplaceAbsent(s[1..], p, r);
      } else {
        var k := IndexOf(s[1..], p).value;
        assert s[k + 1..k + 1 + |p|] == s[1..][k..k + |p|];
        assert OccursAt(s, p, k + 1);
        assert false;
      }
    }
  }

  /** One character under `htmlspecialchars` with ENT_QUOTES | ENT_HTML401. */
  function EscapeChar(c: char): string {
    match c
    case '&' => "&amp;"
    case '"' => "&quot;"
    case '\'' => "&#039;"
    case '<' => "&lt;"
    case '>' => "&gt;"
    case _ => [c]
  }

  /** `htmlspecialchars($s)` with the PHP 8.1 default flags. */
  function Escape(s: string): string {
    if s == [] then [] else EscapeChar(s[0]) + Escape(s[1..])
  }

  predicate IsSpecial(c: char) {
    c == '&' || c == '"' || c == '\'' || c == '<' || c == '>'
  }

  predicate NoMarkup(s: string) {
    '<' !in s && '>' !in s && '"' !in s && '\'' !in s
  }

  lemma EscapeCharLaws(c: char)
    ensures NoMarkup(EscapeChar(c)) && |EscapeChar(c)| >= 1
    ensures !IsSpecial(c) ==> EscapeChar(c) == [c]
  {
  }

  /**
   * The escaped text holds no `<`, `>`, `"` or `'`, is at least as long as
   * the input, and text without special characters is left as it is.
   */
  lemma {:induction false} EscapeLeavesNoMarkup(s: string)
    ensures NoMarkup(Escape(s))
    ensures |Escape(s)| >= |s|
    ensures (forall i :: 0 <= i < |s| ==> !IsSpecial(s[i])) ==> Escape(s) == s
  {
    if s != [] {
      var head, tail := EscapeChar(s[0]), Escape(s[1..]);
      EscapeLeavesNoMarkup(s[1..]);
      EscapeCharLaws(s[0]);
      assert Escape(s) == head + tail;
      if forall i :: 0 <= i < |s| ==> !IsSpecial(s[i]) {
        assert forall i :: 0 <= i < |s[1..]| ==> !IsSpecial(s[1..][i]) by {
          forall i | 0 <= i < |s[1..]| ensures !IsSpecial(s[1..][i]) {
            assert s[1..][i] == s[i + 1];
          }
        }
        assert s == [s[0]] + s[1..];
      }
    }
  }
}
