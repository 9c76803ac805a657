/**
 * The JavaScript string operations the application relies on, over `string`
 * (a sequence of Unicode scalar values).
 */
module Text {

  /** `sub` occurs in `s` starting at index `i`. */
  predicate OccursAt(s: string, sub: string, i: int) {
    0 <= i && i + |sub| <= |s| && s[i..i + |sub|] == sub
  }

  /** `String.prototype.includes`. */
  predicate Contains(s: string, sub: string) {
    exists i | 0 <= i <= |s| :: OccursAt(s, sub, i)
  }

  /** `String.prototype.startsWith`. */
  predicate StartsWith(s: string, prefix: string) {
    |prefix| <= |s| && s[..|prefix|] == prefix
  }

  /** `String.prototype.endsWith`. */
  predicate EndsWith(s: string, suffix: string) {
    |suffix| <= |s| && s[|s| - |suffix|..] == suffix
  }

  lemma ContainsWitness(s: string, sub: string, i: int)
    requires OccursAt(s, sub, i)
    ensures Contains(s, sub)
  {
  }

  /** A string contains every string that occurs inside one of its substrings. */
  lemma ContainsTransitive(s: string, mid: string, sub: string)
    requires Contains(s, mid) && Contains(mid, sub)
    ensures Contains(s, sub)
  {
    var i :| 0 <= i <= |s| && OccursAt(s, mid, i);
    var j :| 0 <= j <= |mid| && OccursAt(mid, sub, j);
    forall k | 0 <= k < |sub| ensures s[i + j + k] == sub[k] {
      assert s[i..i + |mid|][j + k] == mid[j + k];
      assert mid[j..j + |sub|][k] == sub[k];
    }
    assert s[i + j..i + j + |sub|] == sub;
    ContainsWitness(s, sub, i + j);
  }

  lemma ContainsMiddle(a: string, w: string, b: string)
    ensures Contains(a + w + b, w)
  {
    assert (a + w + b)[|a|..|a| + |w|] == w;
    ContainsWitness(a + w + b, w, |a|);
  }

  lemma EndsWithConcat(a: string, w: string)
    ensures EndsWith(a + w, w)
  {
    assert (a + w)[|a|..] == w;
  }

  lemma ContainsSuffix(a: string, w: string)
    ensures Contains(a + w, w)
  {
    assert a + w + [] == a + w;
    ContainsMiddle(a, w, []);
  }

  // ---------------------------------------------------------------------------
  // Character classes
  // ---------------------------------------------------------------------------

  /** The ECMAScript LineTerminator characters: LF, CR, U+2028, U+2029. */
  predicate IsLineTerminator(c: char) {
    c == '\n' || c == '\r' || c == '\U{2028}' || c == '\U{2029}'
  }

  /** The characters `String.prototype.trim` removes: ECMAScript WhiteSpace and LineTerminator. */
  predicate IsJsSpace(c: char) {
    || c == '\t' || c == '\U{000B}' || c == '\U{000C}' || c == ' '
    || c == '\U{00A0}' || c == '\U{FEFF}' || c == '\U{1680}'
    || ('\U{2000}' <= c <= '\U{200A}') || c == '\U{202F}' || c == '\U{205F}' || c == '\U{3000}'
    || IsLineTerminator(c)
  }

  predicate IsDigit(c: char) {
    '0' <= c <= '9'
  }

  predicate AllDigits(s: string) {
    forall i :: 0 <= i < |s| ==> IsDigit(s[i])
  }

  // ---------------------------------------------------------------------------
  // Trimming
  // ---------------------------------------------------------------------------

  predicate AllSpace(s: string) {
    forall i :: 0 <= i < |s| ==> IsJsSpace(s[i])
  }

  /** `String.prototype.trimStart`. */
  function TrimStart(s: string): string {
    if s == [] || !IsJsSpace(s[0]) then s else TrimStart(s[1..])
  }

  /** `String.prototype.trimEnd`. */
  function TrimEnd(s: string): string {
    if s == [] || !IsJsSpace(s[|s| - 1]) then s else TrimEnd(s[..|s| - 1])
  }

  /** `String.prototype.trim`. */
  function Trim(s: string): string {
    TrimEnd(TrimStart(s))
  }

  lemma {:induction false} TrimStartEmptyIff(s: string)
    ensures TrimStart(s) == [] <==> AllSpace(s)
  {
    if s != [] && IsJsSpace(s[0]) {
      TrimStartEmptyIff(s[1..]);
      assert AllSpace(s) <==> AllSpace(s[1..]) by {
        if AllSpace(s[1..]) {
          forall i | 0 <= i < |s| ensures IsJsSpace(s[i]) {
            if i > 0 { assert s[i] == s[1..][i - 1]; }
          }
        }
      }
    }
  }

  lemma {:induction false} TrimEndEmptyIff(s: string)
    ensures TrimEnd(s) == [] <==> AllSpace(s)
  {
    if s != [] && IsJsSpace(s[|s| - 1]) {
      TrimEndEmptyIff(s[..|s| - 1]);
      assert AllSpace(s) <==> AllSpace(s[..|s| - 1]) by {
        if AllSpace(s[..|s| - 1]) {
          forall i | 0 <= i < |s| ensures IsJsSpace(s[i]) {
            if i < |s| - 1 { assert s[i] == s[..|s| - 1][i]; }
          }
        }
      }
    }
  }

  lemma {:induction false} TrimStartSuffix(s: string)
    ensures |TrimStart(s)| <= |s| && TrimStart(s) == s[|s| - |TrimStart(s)|..]
    ensures AllSpace(s[..|s| - |TrimStart(s)|])
  {
    if s != [] && IsJsSpace(s[0]) {
      TrimStartSuffix(s[1..]);
      var r := TrimStart(s);
      assert s[..|s| - |r|] == [s[0]] + s[1..][..|s[1..]| - |r|];
    }
  }

  /** Trimming leaves nothing exactly when the string is all white space. */
  lemma TrimEmptyIffAllSpace(s: string)
    ensures Trim(s) == [] <==> AllSpace(s)
  {
    var t := TrimStart(s);
    TrimEndEmptyIff(t);
    TrimStartSuffix(s);
    if AllSpace(t) {
      TrimStartEmptyIff(s);
      TrimStartEmptyIff(t);
      assert s == s[..|s| - |t|];
    }
  }

  // ---------------------------------------------------------------------------
  // Case mapping
  // ---------------------------------------------------------------------------

  function AsciiLowerChar(c: char): char {
    if 'A' <= c <= 'Z' then (c as int + 32) as char else c
  }

  function AsciiUpperChar(c: char): char {
    if 'a' <= c <= 'z' then (c as int - 32) as char else c
  }

  /** Lower-casing as a regular expression's `i` flag compares characters (no `u` flag): ASCII letters only. */
  function AsciiLower(s: string): (r: string)
    ensures |r| == |s|
    ensures forall i :: 0 <= i < |s| ==> r[i] == AsciiLowerChar(s[i])
  {
    if s == [] then [] else [AsciiLowerChar(s[0])] + AsciiLower(s[1..])
  }

  function AsciiUpper(s: string): (r: string)
    ensures |r| == |s|
    ensures forall i :: 0 <= i < |s| ==> r[i] == AsciiUpperChar(s[i])
  {
    if s == [] then [] else [AsciiUpperChar(s[0])] + AsciiUpper(s[1..])
  }

  /**
   * `String.prototype.toLowerCase` of one character, exact wherever the result
   * contains an ASCII character: ASCII capitals, the KELVIN SIGN (to `k`) and
   * LATIN CAPITAL LETTER I WITH DOT ABOVE (to `i` plus COMBINING DOT ABOVE).
   * Every other character lower-cases to non-ASCII characters and is kept as is.
   */
  function JsLowerChar(c: char): string {
    if 'A' <= c <= 'Z' then [(c as int + 32) as char]
    else if c == '\U{212A}' then ['k']
    else if c == '\U{0130}' then ['i', '\U{0307}']
    else [c]
  }

  /** `String.prototype.toLowerCase`, in the sense of `JsLowerChar`. */
  function JsLower(s: string): string {
    if s == [] then [] else JsLowerChar(s[0]) + JsLower(s[1..])
  }

  lemma {:induction false} JsLowerConcat(a: string, b: string)
    ensures JsLower(a + b) == JsLower(a) + JsLower(b)
  {
    if a != [] {
      assert (a + b)[1..] == a[1..] + b;
      JsLowerConcat(a[1..], b);
    } else {
      assert a + b == b;
    }
  }

  /** Lower-casing twice is lower-casing once. */
  lemma {:induction false} JsLowerIdempotent(s: string)
    ensures JsLower(JsLower(s)) == JsLower(s)
  {
    if s != [] {
      var c := s[0];
      JsLowerConcat(JsLowerChar(c), JsLower(s[1..]));
      JsLowerIdempotent(s[1..]);
      var l := JsLowerChar(c);
      if c == '\U{0130}' {
        assert l == ['i'] + ['\U{0307}'];
        JsLowerConcat(['i'], ['\U{0307}']);
        assert JsLower(['i']) == ['i'];
        assert JsLower(['\U{0307}']) == ['\U{0307}'];
      } else {
        assert |l| == 1;
        assert JsLower(l) == JsLowerChar(l[0]) + JsLower([]);
      }
    }
  }

  /** Upper-casing ASCII letters first does not change the lower-cased string. */
  lemma {:induction false} JsLowerIgnoresAsciiCase(s: string)
    ensures JsLower(AsciiUpper(s)) == JsLower(s)
  {
    if s != [] {
      assert AsciiUpper(s)[1..] == AsciiUpper(s[1..]);
      JsLowerIgnoresAsciiCase(s[1..]);
    }
  }

  predicate IsAscii(s: string) {
    forall i :: 0 <= i < |s| ==> s[i] as int < 128
  }

  lemma AsciiLowerSuffix(s: string, k: nat)
    requires k <= |s|
    ensures AsciiLower(s[k..]) == AsciiLower(s)[k..]
  {
  }

  /** Only ASCII characters lower-case to lower-case ASCII characters. */
  lemma AsciiLowerPreimage(w: string, e: string)
    requires AsciiLower(w) == e && IsLowerAscii(e)
    ensures IsAscii(w)
  {
    forall i | 0 <= i < |w| ensures w[i] as int < 128 {
      assert AsciiLowerChar(w[i]) == e[i];
    }
  }

  /** On ASCII text the two lower-casings agree. */
  lemma {:induction false} JsLowerOfAscii(s: string)
    requires IsAscii(s)
    ensures JsLower(s) == AsciiLower(s)
  {
    if s != [] {
      JsLowerOfAscii(s[1..]);
    }
  }

  /** ASCII text without upper-case letters. */
  predicate IsLowerAscii(s: string) {
    forall i :: 0 <= i < |s| ==> s[i] as int < 128 && !('A' <= s[i] <= 'Z')
  }

  /** Lower-casing leaves a string of lower-case ASCII characters untouched. */
  lemma {:induction false} JsLowerOfLowerAscii(s: string)
    requires IsLowerAscii(s)
    ensures JsLower(s) == s
  {
    if s != [] {
      JsLowerOfLowerAscii(s[1..]);
    }
  }

  // ---------------------------------------------------------------------------
  // Joining
  // ---------------------------------------------------------------------------

  /** `Array.prototype.join(sep)` on strings. */
  function Join(parts: seq<string>, sep: string): string {
    if parts == [] then ""
    else if |parts| == 1 then parts[0]
    else parts[0] + sep + Join(parts[1..], sep)
  }
}
