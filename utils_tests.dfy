/**
 * The repository's unit tests of `public/js/utils.js`, and a few further
 * concrete cases that pin down the rule order and the edge cases of the
 * helpers.
 */
module UtilsTests {
  import opened Wrappers
  import opened JsText
  import opened Json
  import opened Utils

  /** A result whose address has only a formatted address and a country code. */
  function AddressOf(formatted: Option<string>, iso2: Option<string>): GeoResult {
    GeoResult(Some(Address(formatted, iso2, None, None, None)), None)
  }

  /** The repository's test: `' Paris!!! <> /\\ -- '` sanitizes to `'Paris!!! /\\ --'`. */
  lemma SanitizeParisExample()
    ensures SanitizeInputForText(Some(" Paris!!! <> /\\ -- "), DefaultMaxLength) == "Paris!!! /\\ --"
  {
    SanitizeParisInput(" Paris!!! <> /\\ -- ");
  }

  // The lemmas below take the literal as a parameter bound by their
  // `requires`: stated directly on the literal, the verifier would evaluate
  // the sanitizer on it character by character, which costs far more than
  // the general lemmas they instantiate.

  /** The Paris input is the words "Paris!!!" and "/\\ --" around the deleted group "<>". */
  lemma SanitizeParisInput(s: string)
    requires s == " Paris!!! <> /\\ -- "
    ensures SanitizeInputForText(Some(s), DefaultMaxLength) == "Paris!!! /\\ --"
  {
    ParisFirstWord("Paris!!!");
    ParisSecondWord("/\\ --");
    ParisPieces(s);
    SanitizeDropsGroupBetweenWords("Paris!!!", "<>", "/\\ --", 200);
  }

  lemma ParisPieces(s: string)
    requires s == " Paris!!! <> /\\ -- "
    ensures s == " " + "Paris!!!" + " " + "<>" + " " + "/\\ --" + " "
    ensures forall i :: 0 <= i < |"<>"| ==> !IsAllowed("<>"[i])
  {
  }

  lemma ParisFirstWord(a: string)
    requires a == "Paris!!!"
    ensures AllAllowed(a) && NoWhiteSpaceRun(a)
  {
    forall i | 0 <= i < |a| ensures IsAllowed(a[i]) && !IsWhiteSpace(a[i]) {
    }
  }

  lemma ParisSecondWord(b: string)
    requires b == "/\\ --"
    ensures AllAllowed(b) && NoWhiteSpaceRun(b)
  {
    assert AllAllowed(b);
    assert NoWhiteSpaceRun(b);
  }

  /** Trimming happens before filtering, so a deleted character can leave a
      space at the edge of the output: `"< a"` sanitizes to `" a"`. */
  lemma SanitizeMayStartWithSpace()
    ensures SanitizeInputForText(Some("< a"), DefaultMaxLength) == " a"
  {
    assert Cleaned("< a") == " a" by {
      assert Trim("< a") == "< a";
      assert KeepAllowed("< a") == " a";
      assert CollapseWhiteSpace(" a") == " a";
    }
  }

  /** Text of allowed characters longer than the bound can come out shorter
      than the bound: its white-space run collapses to one space first. */
  lemma ShorterThanBound(s: string)
    requires s == "a    b"
    ensures AllAllowed(s) && |s| > 4 && SanitizeInputForText(Some(s), 4) == "a b"
  {
    assert AllAllowed(s);
    TrimUnchanged(s);
    KeepAllowedIdentity(s);
    assert CollapseWhiteSpace(" b") == " b";
    assert [' '] + "  b"[2..] == " b";
    assert CollapseWhiteSpace("  b") == CollapseWhiteSpace(" b");
    assert [' '] + "   b"[2..] == "  b";
    assert CollapseWhiteSpace("   b") == CollapseWhiteSpace("  b");
    assert [' '] + "    b"[2..] == "   b";
    assert CollapseWhiteSpace("    b") == CollapseWhiteSpace("   b");
    assert CollapseWhiteSpace(s) == "a" + CollapseWhiteSpace("    b");
  }

  /** The repository's test: 'London, England' with code GB is accepted. */
  lemma LondonAccepted()
    ensures IsResultInEngland(Some(AddressOf(Some("London, England"), Some("GB"))))
  {
    assert MatchAt("London, England", "England", true, 8);
  }

  /** The repository's test: 'Paris, France' with code FR is rejected. */
  lemma ParisRejected()
    ensures !IsResultInEngland(Some(AddressOf(Some("Paris, France"), Some("FR"))))
  {
    var t := "Paris, France";
    forall i | 0 <= i ensures !MatchAt(t, "England", true, i) {
      if i + 7 <= |t| {
        assert t[i..i + 7][0] == t[i];
      }
    }
    assert ToUpperAscii("FR") != "GB" by {
      assert ToUpperAscii("FR")[0] == 'F';
    }
  }

  /** The repository's test: 'Edinburgh, Scotland' with code GB is rejected. */
  lemma EdinburghRejected()
    ensures !IsResultInEngland(Some(AddressOf(Some("Edinburgh, Scotland"), Some("GB"))))
  {
    var t := "Edinburgh, Scotland";
    forall i | 0 <= i ensures !MatchAt(t, "England", true, i) {
      if i + 7 <= |t| {
        assert t[i..i + 7][0] == t[i] && t[i..i + 7][1] == t[i + 1];
        assert i == 0 || ToLowerAscii(t[i]) != 'e';
      }
    }
    assert MatchAt(t, "Scotland", true, 11);
  }

  /** A GB code and nothing else is accepted by default. */
  lemma GbCodeAloneAccepted()
    ensures IsResultInEngland(Some(AddressOf(None, Some("GB"))))
  {
  }

  /** An explicit England in the formatted address wins even over a foreign code. */
  lemma EnglandWinsOverForeignCode()
    ensures IsResultInEngland(Some(AddressOf(Some("Calais, England"), Some("FR"))))
  {
    assert MatchAt("Calais, England", "England", true, 8);
  }

  /** The country-region test is a substring test: "Ukraine" contains "uk"
      and passes it, and "UK" next to a letter passes too. */
  lemma CountryRegionSubstringQuirk()
    ensures IsResultInEngland(Some(GeoResult(Some(Address(Some("Kyiv"), None, Some("Ukraine"), None, None)), None)))
  {
    assert MatchAt("Ukraine", "UK", false, 0);
    assert !ContainsWord("Kyiv", "England");
  }

  /** The repository's tests, with `JSON.parse` accepting `{"a":1}` and rejecting `{a:1`.
      The thrown `SyntaxError` message is an arbitrary non-empty text standing
      for whatever the engine writes; the tests only require the error to be a
      string, and the same holds for any non-empty message. */
  lemma ParseJsonSafeExamples(parse: string -> ParseOutcome)
    requires parse("{\"a\":1}") == Parsed(JObject([("a", JNumber(1.0))]))
    requires parse("{a:1") == Threw(ErrorObject("SyntaxError", "Expected property name"))
    ensures ParseJsonSafe(Defined(JString("{\"a\":1}")), parse) == Ok(JObject([("a", JNumber(1.0))]))
    ensures ParseJsonSafe(Defined(JString("{a:1")), parse) == Err("Expected property name")
    ensures ParseJsonSafe(Defined(JNumber(42.0)), parse) == Err("Input is not a string")
  {
  }

  /** A missing result, or a result without an address, is rejected. */
  lemma RejectsMissingAddress(name: Option<string>)
    ensures !IsResultInEngland(None)
    ensures !IsResultInEngland(Some(GeoResult(None, name)))
  {
  }
}
