/**
 * The client-side helpers of `public/js/utils.js`: the text sanitizer, the
 * HTML escaper, the England classifier for geocoder results and the
 * non-throwing JSON parser.
 */
module Utils {
  import opened Wrappers
  import opened JsText
  import opened Json

  // ---------------------------------------------------------------------
  // sanitizeInputForText
  // ---------------------------------------------------------------------

  /** The default `maxLength` of the sanitizer. */
  const DefaultMaxLength: int := 200

  /** The character class the sanitizer keeps: ASCII letters, digits, space
      and `- , . ( ) _ / \ ! [ ] # @ :`. */
  predicate IsAllowed(c: char) {
    || ('A' <= c <= 'Z') || ('a' <= c <= 'z') || ('0' <= c <= '9')
    || c == ' ' || c == '-' || c == ',' || c == '.' || c == '(' || c == ')'
    || c == '_' || c == '/' || c == '\\' || c == '!' || c == '[' || c == ']'
    || c == '#' || c == '@' || c == ':'
  }

  predicate AllAllowed(s: string) {
    forall i :: 0 <= i < |s| ==> IsAllowed(s[i])
  }

  /** No two adjacent characters are both white space. */
  predicate NoWhiteSpaceRun(s: string) {
    forall i :: 0 <= i < |s| - 1 ==> !(IsWhiteSpace(s[i]) && IsWhiteSpace(s[i + 1]))
  }

  /** `s.replace(/[^A-Za-z0-9 \-,.()_\/\\!\[\]#@:]/g, '')`: deletes every
      character outside the class and keeps the others in order. */
  function KeepAllowed(s: string): string {
    if s == [] then []
    else if IsAllowed(s[0]) then [s[0]] + KeepAllowed(s[1..])
    else KeepAllowed(s[1..])
  }

  /** The filter keeps exactly the allowed characters and changes nothing
      in text made of allowed characters only. */
  lemma {:induction false} KeepAllowedSpec(s: string)
    ensures |KeepAllowed(s)| <= |s|
    ensures AllAllowed(KeepAllowed(s))
    ensures forall c :: c in KeepAllowed(s) <==> c in s && IsAllowed(c)
    ensures AllAllowed(s) ==> KeepAllowed(s) == s
  {
    if s != [] {
      KeepAllowedSpec(s[1..]);
      assert forall c :: c in s <==> c == s[0] || c in s[1..];
      if AllAllowed(s) {
        assert IsAllowed(s[0]);
        assert forall i :: 0 <= i < |s[1..]| ==> s[1..][i] == s[i + 1];
        assert s == [s[0]] + s[1..];
      }
    }
  }

  /** `s.replace(/\s{2,}/g, ' ')`: every maximal run of two or more
      white-space characters becomes one space; a lone white-space
      character is kept as it is. Merging the first two characters of a run
      into one space and continuing has exactly that effect. */
  function CollapseWhiteSpace(s: string): string
    decreases |s|
  {
    if |s| >= 2 && IsWhiteSpace(s[0]) && IsWhiteSpace(s[1]) then
      CollapseWhiteSpace([' '] + s[2..])
    else if s == [] then []
    else [s[0]] + CollapseWhiteSpace(s[1..])
  }

  /** Collapsing leaves no two adjacent white-space characters, adds no
      character but a space, never grows the text, keeps whether it starts
      with white space, and changes nothing in text without a run. */
  lemma {:induction false} CollapseSpec(s: string)
    ensures |CollapseWhiteSpace(s)| <= |s|
    ensures (CollapseWhiteSpace(s) == []) == (s == [])
    ensures CollapseWhiteSpace(s) != [] ==> IsWhiteSpace(CollapseWhiteSpace(s)[0]) == IsWhiteSpace(s[0])
    ensures NoWhiteSpaceRun(CollapseWhiteSpace(s))
    ensures forall c :: c in CollapseWhiteSpace(s) ==> c in s || c == ' '
    ensures NoWhiteSpaceRun(s) ==> CollapseWhiteSpace(s) == s
    decreases |s|
  {
    if |s| >= 2 && IsWhiteSpace(s[0]) && IsWhiteSpace(s[1]) {
      var t := [' '] + s[2..];
      CollapseSpec(t);
      assert forall c :: c in t ==> c in s || c == ' ';
    } else if s != [] {
      var rest := CollapseWhiteSpace(s[1..]);
      var r := [s[0]] + rest;
      CollapseSpec(s[1..]);
      forall i | 0 <= i < |r| - 1
        ensures !(IsWhiteSpace(r[i]) && IsWhiteSpace(r[i + 1]))
      {
        if i > 0 {
          assert r[i] == rest[i - 1] && r[i + 1] == rest[i];
        }
      }
      assert forall c :: c in r ==> c == s[0] || c in rest;
      assert forall c :: c in s[1..] ==> c in s;
      if NoWhiteSpaceRun(s) {
        forall i | 0 <= i < |s[1..]| - 1
          ensures !(IsWhiteSpace(s[1..][i]) && IsWhiteSpace(s[1..][i + 1]))
        {
          assert s[1..][i] == s[i + 1] && s[1..][i + 1] == s[i + 2];
        }
        assert s == [s[0]] + s[1..];
      }
    }
  }

  /** `if (s.length > maxLength) s = s.substring(0, maxLength)`; a negative
      bound is clamped to zero by `substring`. */
  function Truncate(s: string, maxLength: int): (r: string)
    ensures |r| == if |s| <= maxLength then |s| else if maxLength < 0 then 0 else maxLength
    ensures r == s[..|r|]
  {
    if |s| > maxLength then s[..if maxLength < 0 then 0 else maxLength] else s
  }

  /** The pipeline of `sanitizeInputForText` before truncation: trim, filter, collapse. */
  function Cleaned(s: string): string {
    CollapseWhiteSpace(KeepAllowed(Trim(s)))
  }

  /** `sanitizeInputForText(value, maxLength)`. `None` stands for `null`
      and `undefined`; like them, the empty string gives `''`. */
  function SanitizeInputForText(value: Option<string>, maxLength: int): (r: string)
    ensures value.None? || value == Some("") ==> r == ""
    ensures AllAllowed(r)
    ensures NoWhiteSpaceRun(r)
    ensures |r| <= if maxLength < 0 then 0 else maxLength
  {
    if value.None? || value.value == "" then ""
    else
      var c := Cleaned(value.value);
      CleanedIsClean(value.value);
      TruncateKeepsClean(c, maxLength);
      Truncate(c, maxLength)
  }

  /** The cleaned text holds allowed characters only and no white-space run. */
  lemma CleanedIsClean(s: string)
    ensures AllAllowed(Cleaned(s)) && NoWhiteSpaceRun(Cleaned(s))
  {
    var t := KeepAllowed(Trim(s));
    var c := CollapseWhiteSpace(t);
    KeepAllowedSpec(Trim(s));
    CollapseSpec(t);
    forall i | 0 <= i < |c| ensures IsAllowed(c[i]) {
      assert c[i] in c;
    }
  }

  /** A prefix of clean text is clean, and no longer than the bound. */
  lemma TruncateKeepsClean(c: string, maxLength: int)
    requires AllAllowed(c) && NoWhiteSpaceRun(c)
    ensures var r := Truncate(c, maxLength);
      AllAllowed(r) && NoWhiteSpaceRun(r) && |r| <= if maxLength < 0 then 0 else maxLength
  {
    var r := Truncate(c, maxLength);
    assert forall i :: 0 <= i < |r| ==> r[i] == c[i];
  }

  /** Truncation keeps a prefix: an output shorter than the cleaned text is
      exactly its first `maxLength` characters, and otherwise the output is
      the whole cleaned text. */
  lemma SanitizeTruncates(s: string, maxLength: int)
    ensures var r := SanitizeInputForText(Some(s), maxLength);
      if |Cleaned(s)| > maxLength && maxLength >= 0 then r == Cleaned(s)[..maxLength] && |r| == maxLength
      else if maxLength < 0 then r == ""
      else r == Cleaned(s)
  {
  }

  /** Text that is already clean (allowed characters only, no white-space
      runs, no space at either end) is only truncated: the output is its
      prefix of length `maxLength` when it is longer than that. */
  lemma SanitizeCleanText(s: string, maxLength: nat)
    requires s != "" && AllAllowed(s) && NoWhiteSpaceRun(s)
    requires s[0] != ' ' && s[|s| - 1] != ' '
    ensures SanitizeInputForText(Some(s), maxLength) == if |s| > maxLength then s[..maxLength] else s
  {
    assert !IsWhiteSpace(s[0]) && !IsWhiteSpace(s[|s| - 1]);
    TrimUnchanged(s);
    KeepAllowedSpec(s);
    CollapseSpec(s);
  }

  /** Deleted characters leave the spaces around them behind, and those
      collapse into one: padding two clean words with spaces and putting a
      group of deleted characters between them gives the two words joined
      by a single space. */
  lemma SanitizeDropsGroupBetweenWords(a: string, m: string, b: string, maxLength: nat)
    requires a != "" && AllAllowed(a) && NoWhiteSpaceRun(a) && a[0] != ' ' && a[|a| - 1] != ' '
    requires b != "" && AllAllowed(b) && NoWhiteSpaceRun(b) && b[0] != ' ' && b[|b| - 1] != ' '
    requires forall i :: 0 <= i < |m| ==> !IsAllowed(m[i])
    requires |a| + 1 + |b| <= maxLength
    ensures SanitizeInputForText(Some(" " + a + " " + m + " " + b + " "), maxLength) == a + " " + b
  {
    var s := " " + a + " " + m + " " + b + " ";
    var inner := (a + " ") + m + (" " + b);
    var t := Trim(s);
    assert t == inner by {
      assert inner[0] == a[0] && inner[|inner| - 1] == b[|b| - 1];
      assert !IsWhiteSpace(a[0]) && !IsWhiteSpace(b[|b| - 1]);
      TrimPadded(inner);
      assert s == " " + inner + " ";
    }
    var k := KeepAllowed(t);
    assert k == (a + " ") + (" " + b) by {
      KeepAllowedBetweenWords(a, m, b);
    }
    var c := CollapseWhiteSpace(k);
    assert c == a + " " + b by {
      assert k == a + "  " + b;
      assert !IsWhiteSpace(a[|a| - 1]) && !IsWhiteSpace(b[0]);
      CollapseBetweenWords(a, b);
    }
    assert Cleaned(s) == c;
  }

  /** Trimming a text padded with one space on each side gives the text back. */
  lemma TrimPadded(x: string)
    requires x != [] && !IsWhiteSpace(x[0]) && !IsWhiteSpace(x[|x| - 1])
    ensures Trim(" " + x + " ") == x
  {
    var t := x + " ";
    assert (" " + x + " ")[1..] == t;
    assert t[0] == x[0];
    assert TrimStart(" " + x + " ") == t;
    assert t[..|x|] == x && t[|t| - 1] == ' ';
    assert TrimEnd(t) == TrimEnd(x);
  }

  lemma KeepAllowedBetweenWords(a: string, m: string, b: string)
    requires AllAllowed(a) && AllAllowed(b)
    requires forall i :: 0 <= i < |m| ==> !IsAllowed(m[i])
    ensures var x, z := a + " ", " " + b; KeepAllowed(x + m + z) == x + z
  {
    var x, z := a + " ", " " + b;
    assert AllAllowed(x) && AllAllowed(z);
    KeepAllowedIdentity(x);
    KeepAllowedIdentity(z);
    KeepAllowedDropsMiddle(x, m, z);
  }

  /** Deleting a group of disallowed characters joins what surrounds it. */
  lemma KeepAllowedDropsMiddle(x: string, m: string, z: string)
    requires forall i :: 0 <= i < |m| ==> !IsAllowed(m[i])
    ensures KeepAllowed(x + m + z) == KeepAllowed(x) + KeepAllowed(z)
  {
    KeepAllowedNone(m);
    KeepAllowedAppend(x, m);
    assert KeepAllowed(x + m) == KeepAllowed(x) + [] == KeepAllowed(x);
    KeepAllowedAppend(x + m, z);
  }

  /** Text made of allowed characters only passes the filter unchanged. */
  lemma KeepAllowedIdentity(s: string)
    requires AllAllowed(s)
    ensures KeepAllowed(s) == s
  {
    KeepAllowedSpec(s);
  }

  /** Text made of deleted characters only is deleted entirely. */
  lemma {:induction false} KeepAllowedNone(m: string)
    requires forall i :: 0 <= i < |m| ==> !IsAllowed(m[i])
    ensures KeepAllowed(m) == []
  {
    if m != [] {
      assert !IsAllowed(m[0]);
      assert forall i :: 0 <= i < |m[1..]| ==> m[1..][i] == m[i + 1];
      KeepAllowedNone(m[1..]);
    }
  }

  lemma CollapseBetweenWords(a: string, b: string)
    requires a != "" && NoWhiteSpaceRun(a) && !IsWhiteSpace(a[|a| - 1])
    requires b != "" && NoWhiteSpaceRun(b) && !IsWhiteSpace(b[0])
    ensures CollapseWhiteSpace(a + "  " + b) == a + " " + b
  {
    assert a + "  " + b == a + ("  " + b);
    assert CollapseWhiteSpace("  ") == " ";
    CollapseIdentity(a);
    CollapseIdentity(b);
    CollapseAppend("  ", b);
    CollapseAppend(a, "  " + b);
    assert a + (" " + b) == a + " " + b;
  }

  /** Text without a white-space run is left as it is by collapsing. */
  lemma CollapseIdentity(s: string)
    requires NoWhiteSpaceRun(s)
    ensures CollapseWhiteSpace(s) == s
  {
    CollapseSpec(s);
  }

  lemma {:induction false} KeepAllowedAppend(a: string, b: string)
    ensures KeepAllowed(a + b) == KeepAllowed(a) + KeepAllowed(b)
  {
    if a != [] {
      assert (a + b)[0] == a[0] && (a + b)[1..] == a[1..] + b;
      KeepAllowedAppend(a[1..], b);
    } else {
      assert a + b == b;
    }
  }

  /** Collapsing works piecewise when the cut is not inside a white-space run. */
  lemma {:induction false} CollapseAppend(a: string, b: string)
    requires a == [] || b == [] || !IsWhiteSpace(a[|a| - 1]) || !IsWhiteSpace(b[0])
    ensures CollapseWhiteSpace(a + b) == CollapseWhiteSpace(a) + CollapseWhiteSpace(b)
    decreases |a|
  {
    if a == [] {
      assert a + b == b;
    } else if |a| >= 2 && IsWhiteSpace(a[0]) && IsWhiteSpace(a[1]) {
      var a' := [' '] + a[2..];
      assert [' '] + (a + b)[2..] == a' + b;
      assert a'[|a'| - 1] == if |a| == 2 then ' ' else a[|a| - 1];
      CollapseAppend(a', b);
    } else if |a| == 1 {
      assert (a + b)[1..] == b;
    } else {
      assert (a + b)[0] == a[0] && (a + b)[1..] == a[1..] + b;
      CollapseAppend(a[1..], b);
    }
  }

  // ---------------------------------------------------------------------
  // escapeHtml
  // ---------------------------------------------------------------------

  /** `s.replace(/c/g, by)` for a single character `c` and a replacement
      without `$` patterns. */
  function ReplaceAll(s: string, c: char, with: string): (r: string)
    ensures c !in s ==> r == s
  {
    if s == [] then []
    else (if s[0] == c then with else [s[0]]) + ReplaceAll(s[1..], c, with)
  }

  /** `escapeHtml(unsafe)`: five global replacements, `&` first. */
  function EscapeHtml(unsafe: string): string {
    var s1 := ReplaceAll(unsafe, '&', "&amp;");
    var s2 := ReplaceAll(s1, '<', "&lt;");
    var s3 := ReplaceAll(s2, '>', "&gt;");
    var s4 := ReplaceAll(s3, '"', "&quot;");
    ReplaceAll(s4, '\'', "&#039;")
  }

  /** The characters the escaper guards. */
  predicate IsMarkup(c: char) {
    c == '&' || c == '<' || c == '>' || c == '"' || c == '\''
  }

  /** The entity each guarded character stands for; other characters stand for themselves. */
  function EscapeChar(c: char): string {
    match c
    case '&' => "&amp;"
    case '<' => "&lt;"
    case '>' => "&gt;"
    case '"' => "&quot;"
    case '\'' => "&#039;"
    case _ => [c]
  }

  /** Reference definition: escape every character independently. */
  function EscapeEach(s: string): string {
    if s == [] then [] else EscapeChar(s[0]) + EscapeEach(s[1..])
  }

  lemma {:induction false} ReplaceAllAppend(a: string, b: string, c: char, with: string)
    ensures ReplaceAll(a + b, c, with) == ReplaceAll(a, c, with) + ReplaceAll(b, c, with)
  {
    if a == [] {
      assert a + b == b;
    } else {
      assert (a + b)[0] == a[0];
      assert (a + b)[1..] == a[1..] + b;
      ReplaceAllAppend(a[1..], b, c, with);
    }
  }

  lemma EscapeHtmlOneChar(x: char)
    ensures EscapeHtml([x]) == EscapeChar(x)
  {
    ReplaceAllOne(x, '&', "&amp;");
    if x == '&' {
      assert '<' !in "&amp;" && '>' !in "&amp;" && '"' !in "&amp;" && '\'' !in "&amp;";
    } else {
      ReplaceAllOne(x, '<', "&lt;");
      if x == '<' {
        assert '>' !in "&lt;" && '"' !in "&lt;" && '\'' !in "&lt;";
      } else {
        ReplaceAllOne(x, '>', "&gt;");
        if x == '>' {
          assert '"' !in "&gt;" && '\'' !in "&gt;";
        } else {
          ReplaceAllOne(x, '"', "&quot;");
          if x == '"' {
            assert '\'' !in "&quot;";
          } else {
            ReplaceAllOne(x, '\'', "&#039;");
          }
        }
      }
    }
  }

  /** Replacing in a one-character text. */
  lemma ReplaceAllOne(x: char, c: char, with: string)
    ensures ReplaceAll([x], c, with) == if x == c then with else [x]
  {
    assert [x][1..] == [];
  }

  lemma {:induction false} EscapeHtmlAppend(a: string, b: string)
    ensures EscapeHtml(a + b) == EscapeHtml(a) + EscapeHtml(b)
  {
    ReplaceAllAppend(a, b, '&', "&amp;");
    var a1, b1 := ReplaceAll(a, '&', "&amp;"), ReplaceAll(b, '&', "&amp;");
    ReplaceAllAppend(a1, b1, '<', "&lt;");
    var a2, b2 := ReplaceAll(a1, '<', "&lt;"), ReplaceAll(b1, '<', "&lt;");
    ReplaceAllAppend(a2, b2, '>', "&gt;");
    var a3, b3 := ReplaceAll(a2, '>', "&gt;"), ReplaceAll(b2, '>', "&gt;");
    ReplaceAllAppend(a3, b3, '"', "&quot;");
    var a4, b4 := ReplaceAll(a3, '"', "&quot;"), ReplaceAll(b3, '"', "&quot;");
    ReplaceAllAppend(a4, b4, '\'', "&#039;");
  }

  /** Because `&` is replaced first, the chain of replacements equals the
      per-character escape: no entity is escaped a second time. */
  lemma {:induction false} EscapeHtmlIsPerCharacter(s: string)
    ensures EscapeHtml(s) == EscapeEach(s)
  {
    if s != [] {
      assert s == [s[0]] + s[1..];
      EscapeHtmlAppend([s[0]], s[1..]);
      EscapeHtmlOneChar(s[0]);
      EscapeHtmlIsPerCharacter(s[1..]);
    }
  }

  lemma {:induction false} EscapeEachNoMarkup(s: string)
    ensures forall i :: 0 <= i < |EscapeEach(s)| ==> !IsMarkup(EscapeEach(s)[i]) || EscapeEach(s)[i] == '&'
    ensures (forall i :: 0 <= i < |s| ==> !IsMarkup(s[i])) ==> EscapeEach(s) == s
  {
    if s != [] {
      EscapeEachNoMarkup(s[1..]);
      var e := EscapeChar(s[0]);
      assert forall i :: 0 <= i < |e| ==> !IsMarkup(e[i]) || e[i] == '&';
      var r := EscapeEach(s);
      assert r == e + EscapeEach(s[1..]);
      forall i | 0 <= i < |r| ensures !IsMarkup(r[i]) || r[i] == '&' {
        if i >= |e| {
          assert r[i] == EscapeEach(s[1..])[i - |e|];
        }
      }
      if forall i :: 0 <= i < |s| ==> !IsMarkup(s[i]) {
        assert !IsMarkup(s[0]);
        assert forall i :: 0 <= i < |s[1..]| ==> s[1..][i] == s[i + 1];
      }
    }
  }

  /** The escaped text contains none of `<`, `>`, `"` and `'`, and text
      without any of the five guarded characters is returned unchanged. */
  lemma EscapeHtmlNeutralizes(s: string)
    ensures forall i :: 0 <= i < |EscapeHtml(s)| ==>
      var c := EscapeHtml(s)[i]; c != '<' && c != '>' && c != '"' && c != '\''
    ensures (forall i :: 0 <= i < |s| ==> !IsMarkup(s[i])) ==> EscapeHtml(s) == s
  {
    EscapeHtmlIsPerCharacter(s);
    EscapeEachNoMarkup(s);
  }

  /** `s` starts with `prefix`. */
  predicate StartsWith(s: string, prefix: string) {
    |prefix| <= |s| && s[..|prefix|] == prefix
  }

  /** Decoding of the five entities the escaper writes. */
  function UnescapeHtml(s: string): string
    decreases |s|
  {
    if s == [] then []
    else if s[0] != '&' then [s[0]] + UnescapeHtml(s[1..])
    else if StartsWith(s, "&amp;") then ['&'] + UnescapeHtml(s[5..])
    else if StartsWith(s, "&lt;") then ['<'] + UnescapeHtml(s[4..])
    else if StartsWith(s, "&gt;") then ['>'] + UnescapeHtml(s[4..])
    else if StartsWith(s, "&quot;") then ['"'] + UnescapeHtml(s[6..])
    else if StartsWith(s, "&#039;") then ['\''] + UnescapeHtml(s[6..])
    else [s[0]] + UnescapeHtml(s[1..])
  }

  lemma UnescapeAfterChar(c: char, rest: string)
    ensures UnescapeHtml(EscapeChar(c) + rest) == [c] + UnescapeHtml(rest)
  {
    var e := EscapeChar(c);
    var t := e + rest;
    assert t[..|e|] == e;
    assert t[|e|..] == rest;
    if IsMarkup(c) {
      assert t[0] == '&' && t[1] == e[1];
      assert !StartsWith(t, "&amp;") || c == '&' by {
        if StartsWith(t, "&amp;") { assert t[..5][1] == 'a'; }
      }
      assert !StartsWith(t, "&lt;") || c == '<' by {
        if StartsWith(t, "&lt;") { assert t[..4][1] == 'l'; }
      }
      assert !StartsWith(t, "&gt;") || c == '>' by {
        if StartsWith(t, "&gt;") { assert t[..4][1] == 'g'; }
      }
      assert !StartsWith(t, "&quot;") || c == '"' by {
        if StartsWith(t, "&quot;") { assert t[..6][1] == 'q'; }
      }
      assert StartsWith(t, e);
    } else {
      assert e == [c];
      assert t[0] == c && t[1..] == rest;
    }
  }

  /** Escaping loses nothing: decoding the entities gives back the input. */
  lemma {:induction false} EscapeHtmlRoundTrip(s: string)
    ensures UnescapeHtml(EscapeHtml(s)) == s
  {
    EscapeHtmlIsPerCharacter(s);
    EscapeEachRoundTrip(s);
  }

  lemma {:induction false} EscapeEachRoundTrip(s: string)
    ensures UnescapeHtml(EscapeEach(s)) == s
  {
    if s != [] {
      UnescapeAfterChar(s[0], EscapeEach(s[1..]));
      EscapeEachRoundTrip(s[1..]);
      assert s == [s[0]] + s[1..];
    }
  }

  /** Distinct texts escape to distinct texts. */
  lemma EscapeHtmlInjective(a: string, b: string)
    requires EscapeHtml(a) == EscapeHtml(b)
    ensures a == b
  {
    EscapeHtmlRoundTrip(a);
    EscapeHtmlRoundTrip(b);
  }

  // ---------------------------------------------------------------------
  // isResultInEngland
  // ---------------------------------------------------------------------

  /** The `address` record of a geocoder or reverse-geocoder result; every field may be absent. */
  datatype Address = Address(
    formattedAddress: Option<string>,
    countryRegionIso2: Option<string>,
    countryRegion: Option<string>,
    adminDistrict: Option<string>,
    subdivision: Option<string>)

  /** A geocoder or reverse-geocoder result: its address and its display name. */
  datatype GeoResult = GeoResult(address: Option<Address>, name: Option<string>)

  /** JavaScript truthiness of a string field: present and not empty. */
  predicate Truthy(f: Option<string>) {
    f.Some? && f.value != ""
  }

  /** `f && /\bw\b/i.test(f)`. */
  predicate FieldHasWord(f: Option<string>, w: string) {
    Truthy(f) && ContainsWord(f.value, w)
  }

  /** `f && /\bScotland\b|\bWales\b|\bNorthern Ireland\b|\bNI\b/i.test(f)`. */
  predicate NamesOtherNation(f: Option<string>) {
    && Truthy(f)
    && (|| ContainsWord(f.value, "Scotland") || ContainsWord(f.value, "Wales")
        || ContainsWord(f.value, "Northern Ireland") || ContainsWord(f.value, "NI"))
  }

  /** `/United Kingdom|UK/i.test(s)`: a plain substring test, not a whole-word one. */
  predicate NamesUnitedKingdom(s: string) {
    ContainsIgnoreCase(s, "United Kingdom") || ContainsIgnoreCase(s, "UK")
  }

  /** `isResultInEngland(res)`: the rule chain, first matching rule wins. */
  function IsResultInEngland(res: Option<GeoResult>): bool {
    if res.None? || res.value.address.None? then false
    else
      var a := res.value.address.value;
      if FieldHasWord(a.formattedAddress, "England") then true
      else if Truthy(a.countryRegionIso2) && ToUpperAscii(a.countryRegionIso2.value) != "GB" then false
      else if Truthy(a.countryRegion) && !NamesUnitedKingdom(a.countryRegion.value) then false
      else if FieldHasWord(a.adminDistrict, "England") then true
      else if NamesOtherNation(a.formattedAddress) || NamesOtherNation(a.adminDistrict)
           || NamesOtherNation(a.subdivision) then false
      else true
  }

  /** The country fields, where present, say United Kingdom. */
  predicate CountryIsUk(a: Address) {
    && (Truthy(a.countryRegionIso2) ==> ToUpperAscii(a.countryRegionIso2.value) == "GB")
    && (Truthy(a.countryRegion) ==> NamesUnitedKingdom(a.countryRegion.value))
  }

  /** The verdict as one formula instead of an ordered chain: a result is
      accepted exactly when it has an address and either its formatted
      address names England, or its country is the UK and either its admin
      district names England or no field names another constituent country. */
  lemma IsResultInEnglandCharacterized(res: Option<GeoResult>)
    ensures IsResultInEngland(res) <==>
      && res.Some? && res.value.address.Some?
      && var a := res.value.address.value;
         || FieldHasWord(a.formattedAddress, "England")
         || (&& CountryIsUk(a)
             && (|| FieldHasWord(a.adminDistrict, "England")
                 || !(NamesOtherNation(a.formattedAddress) || NamesOtherNation(a.adminDistrict)
                      || NamesOtherNation(a.subdivision))))
  {
  }

  /** `ToUpperAscii(s) == "GB"` holds exactly for the four spellings of "gb". */
  lemma UpperIsGb(s: string)
    ensures ToUpperAscii(s) == "GB" <==> s in {"GB", "Gb", "gB", "gb"}
  {
    if ToUpperAscii(s) == "GB" {
      assert |s| == 2;
      assert s == [s[0], s[1]];
    }
  }


  // ---------------------------------------------------------------------
  // parseJsonSafe
  // ---------------------------------------------------------------------

  /** `{ ok: true, value }` or `{ ok: false, error }`. */
  datatype SafeParse = Ok(value: Json) | Err(error: string)

  const NotAStringError: string := "Input is not a string"

  /** `Error.prototype.toString`: `name`, `message`, or `name + ": " + message`. */
  function ErrorToString(e: ErrorObject): (r: string)
    ensures r == "" <==> e.name == "" && e.message == ""
  {
    if e.name == "" then e.message
    else if e.message == "" then e.name
    else e.name + ": " + e.message
  }

  /** `parseJsonSafe(text)` with `JSON.parse` given as `parse`. A string
      argument is `Defined(JString(s))`; any other value is not a string. */
  function ParseJsonSafe(text: JsValue, parse: string -> ParseOutcome): (r: SafeParse)
    ensures !(text.Defined? && text.json.JString?) ==> r == Err(NotAStringError)
    ensures text.Defined? && text.json.JString? ==>
      (r.Ok? <==> parse(text.json.s).Parsed?) && (r.Ok? ==> parse(text.json.s) == Parsed(r.value))
  {
    if !(text.Defined? && text.json.JString?) then Err(NotAStringError)
    else match parse(text.json.s)
      case Parsed(v) => Ok(v)
      case Threw(e) => Err(if e.message != "" then e.message else ErrorToString(e))
  }

  /** A failed parse reports a non-empty error whenever the thrown error has
      a name or a message, as every `SyntaxError` does. */
  lemma ParseJsonSafeErrorNonEmpty(text: JsValue, parse: string -> ParseOutcome)
    requires text.Defined? && text.json.JString?
    requires parse(text.json.s).Threw?
    requires parse(text.json.s).error.name != "" || parse(text.json.s).error.message != ""
    ensures ParseJsonSafe(text, parse).Err? && ParseJsonSafe(text, parse).error != ""
  {
  }

}
