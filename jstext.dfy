/**
 * The pieces of JavaScript string semantics that the client code relies on:
 * `String.prototype.trim`, the regular-expression class `\s`, the word
 * characters behind `\b`, and case-insensitive (`/i`) matching of ASCII
 * patterns. Strings are sequences of Unicode scalar values; case folding
 * is restricted to ASCII letters.
 */
module JsText {

  /** The characters JavaScript counts as WhiteSpace or LineTerminator:
      the set removed by `trim` and matched by `\s`. */
  predicate IsWhiteSpace(c: char) {
    || c == '\t' || c == '\n' || c == '\U{000B}' || c == '\U{000C}' || c == '\r'
    || c == ' ' || c == '\U{00A0}' || c == '\U{1680}'
    || ('\U{2000}' <= c <= '\U{200A}')
    || c == '\U{2028}' || c == '\U{2029}' || c == '\U{202F}' || c == '\U{205F}'
    || c == '\U{3000}' || c == '\U{FEFF}'
  }

  /** Removes leading white space. */
  function TrimStart(s: string): string {
    if s != [] && IsWhiteSpace(s[0]) then TrimStart(s[1..]) else s
  }

  /** Removes trailing white space. */
  function TrimEnd(s: string): string {
    if s != [] && IsWhiteSpace(s[|s| - 1]) then TrimEnd(s[..|s| - 1]) else s
  }

  /** `String.prototype.trim`. */
  function Trim(s: string): string {
    TrimEnd(TrimStart(s))
  }

  /** `TrimStart` keeps the suffix of `s` from its first non-white-space character on. */
  lemma {:induction false} TrimStartSpec(s: string)
    ensures |TrimStart(s)| <= |s| && TrimStart(s) == s[|s| - |TrimStart(s)|..]
    ensures forall i :: 0 <= i < |s| - |TrimStart(s)| ==> IsWhiteSpace(s[i])
    ensures TrimStart(s) == [] || !IsWhiteSpace(TrimStart(s)[0])
  {
    if s != [] && IsWhiteSpace(s[0]) {
      var t := TrimStart(s[1..]);
      TrimStartSpec(s[1..]);
      assert TrimStart(s) == t;
      assert s[1..][|s| - 1 - |t|..] == s[|s| - |t|..];
      forall i | 0 <= i < |s| - |t| ensures IsWhiteSpace(s[i]) {
        if i > 0 {
          assert s[i] == s[1..][i - 1];
        }
      }
    }
  }

  /** `TrimEnd` keeps the prefix of `s` up to its last non-white-space character. */
  lemma {:induction false} TrimEndSpec(s: string)
    ensures |TrimEnd(s)| <= |s| && TrimEnd(s) == s[..|TrimEnd(s)|]
    ensures forall i :: |TrimEnd(s)| <= i < |s| ==> IsWhiteSpace(s[i])
    ensures TrimEnd(s) == [] || !IsWhiteSpace(TrimEnd(s)[|TrimEnd(s)| - 1])
  {
    if s != [] && IsWhiteSpace(s[|s| - 1]) {
      TrimEndSpec(s[..|s| - 1]);
    }
  }

  /** Trimming yields the piece `s[i..j]` of `s`, everything cut away is
      white space, and the piece neither starts nor ends with white space. */
  lemma TrimSpec(s: string) returns (i: nat, j: nat)
    ensures i <= j <= |s| && Trim(s) == s[i..j]
    ensures forall k :: 0 <= k < i ==> IsWhiteSpace(s[k])
    ensures forall k :: j <= k < |s| ==> IsWhiteSpace(s[k])
    ensures Trim(s) == [] || (!IsWhiteSpace(Trim(s)[0]) && !IsWhiteSpace(Trim(s)[|Trim(s)| - 1]))
  {
    var t := TrimStart(s);
    TrimStartSpec(s);
    var r := TrimEnd(t);
    TrimEndSpec(t);
    i := |s| - |t|;
    j := i + |r|;
    forall k | j <= k < |s| ensures IsWhiteSpace(s[k]) {
      assert s[k] == t[k - i];
    }
    if r != [] {
      assert r[0] == t[0];
    }
  }

  /** Text that neither starts nor ends with white space is its own trim. */
  lemma TrimUnchanged(s: string)
    requires s == [] || (!IsWhiteSpace(s[0]) && !IsWhiteSpace(s[|s| - 1]))
    ensures Trim(s) == s
  {
  }

  /** A text trims to `''` exactly when all of it is white space. */
  lemma TrimEmptyIffBlank(s: string)
    ensures Trim(s) == "" <==> forall k :: 0 <= k < |s| ==> IsWhiteSpace(s[k])
  {
    var i, j := TrimSpec(s);
    if Trim(s) != "" {
      assert Trim(s)[0] == s[i];
    }
  }

  /** The word characters of `\b`: `[A-Za-z0-9_]`. */
  predicate IsWordChar(c: char) {
    ('A' <= c <= 'Z') || ('a' <= c <= 'z') || ('0' <= c <= '9') || c == '_'
  }

  /** ASCII lower-casing of one character; every other character is kept. */
  function ToLowerAscii(c: char): char {
    if 'A' <= c <= 'Z' then (c as int + 32) as char else c
  }

  /** ASCII upper-casing of a string (`toUpperCase` restricted to ASCII). */
  function ToUpperAscii(s: string): (r: string)
    ensures |r| == |s|
    ensures forall i :: 0 <= i < |s| ==> r[i] == if 'a' <= s[i] <= 'z' then (s[i] as int - 32) as char else s[i]
  {
    if s == [] then []
    else [if 'a' <= s[0] <= 'z' then (s[0] as int - 32) as char else s[0]] + ToUpperAscii(s[1..])
  }

  /** Equality of two strings up to ASCII case, as `/i` compares them. */
  function EqualsIgnoreCase(a: string, b: string): (eq: bool)
    ensures eq <==> |a| == |b| && forall i :: 0 <= i < |a| ==> ToLowerAscii(a[i]) == ToLowerAscii(b[i])
  {
    if |a| != |b| then false
    else if a == [] then true
    else ToLowerAscii(a[0]) == ToLowerAscii(b[0]) && EqualsIgnoreCase(a[1..], b[1..])
  }

  /** `\b` holds at position `p` of `text`: exactly one of the characters
      on its two sides is a word character. */
  predicate Boundary(text: string, p: nat)
    requires p <= |text|
  {
    (p > 0 && IsWordChar(text[p - 1])) != (p < |text| && IsWordChar(text[p]))
  }

  /** The pattern `w` (or `\bw\b` when `whole`) matches `text` at index `i`, ignoring ASCII case. */
  predicate MatchAt(text: string, w: string, whole: bool, i: nat) {
    && i + |w| <= |text|
    && EqualsIgnoreCase(text[i..i + |w|], w)
    && (whole ==> Boundary(text, i) && Boundary(text, i + |w|))
  }

  /** The scan `RegExp.prototype.test` performs: try every start index from `from` on. */
  function Occurs(text: string, w: string, whole: bool, from: nat): (found: bool)
    requires from <= |text|
    ensures found <==> exists i :: from <= i && MatchAt(text, w, whole, i)
    decreases |text| - from
  {
    if from + |w| > |text| then
      assert forall i :: from <= i ==> !MatchAt(text, w, whole, i);
      false
    else if MatchAt(text, w, whole, from) then true
    else if from == |text| then false
    else Occurs(text, w, whole, from + 1)
  }

  /** `/w/i.test(text)`: `w` occurs somewhere in `text`, ignoring ASCII case. */
  function ContainsIgnoreCase(text: string, w: string): bool {
    Occurs(text, w, false, 0)
  }

  /** `/\bw\b/i.test(text)`: `w` occurs in `text` as a whole word, ignoring ASCII case. */
  function ContainsWord(text: string, w: string): bool {
    Occurs(text, w, true, 0)
  }

  /** A whole-word match is a substring match. */
  lemma WordIsSubstring(text: string, w: string)
    requires ContainsWord(text, w)
    ensures ContainsIgnoreCase(text, w)
  {
    var i :| 0 <= i && MatchAt(text, w, true, i);
    assert MatchAt(text, w, false, i);
  }

  /** A word of word characters does not occur inside a longer word: the
      substring "NI" of "UNITED" is no whole-word match of "NI". */
  lemma NotAWordInsideAWord()
    ensures ContainsIgnoreCase("UNITED", "NI")
    ensures !ContainsWord("UNITED", "NI")
  {
    assert MatchAt("UNITED", "NI", false, 1);
    forall i | 0 <= i
      ensures !MatchAt("UNITED", "NI", true, i)
    {
      if i + 2 <= 6 {
        assert !Boundary("UNITED", i) || !Boundary("UNITED", i + 2);
      }
    }
  }
}
