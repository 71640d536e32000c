# England map client: a Dafny model

This project models the browser client of a small map application. A user
types a place name or uses the device position. The client asks a geocoder
for the place and accepts it only if the result lies in England. It then
writes a bounding box `[minLng, minLat, maxLng, maxLat]` as JSON into the
`bbox` text field. `drawShapes` reads that field and an optional `polygon`
field of `[lng, lat]` pairs, and draws the box and the polygon on the map.
When both are present, it reports whether they intersect.

The model covers the two client scripts:

- `public/js/utils.js`, the pure helpers, in module `Utils`:
  - the text sanitizer (trim, delete characters outside an allowed class, collapse white-space runs, truncate);
  - the HTML escaper (five global replacements, `&` first);
  - the England classifier for geocoder results (an early-return rule chain);
  - the non-throwing JSON parser wrapper.
- `public/js/app.js`, in module `App`:
  - its own copy of the classifier;
  - the shape construction and the map update of `drawShapes`;
  - the accept/reject reactions of `searchLocation` and `useMyLocation` to the geocoder and geolocation responses.

  The page is a `Session` class. Its fields are:
  - the `bbox`, `polygon` and `locationSearch` field values;
  - the map entities;
  - the view the map was last fitted to;
  - the result line;
  - the error summary.

  Each asynchronous callback is a method that takes the external response as
  a parameter, so the model is sequential.

Supporting modules:
- `JsText`: JavaScript `trim`, the `\s` class, `\b` word boundaries, and ASCII case-insensitive matching.
- `Json`: parsed JSON values, plus the two JavaScript operations `drawShapes`
  applies to them before it knows their shape. Property access `pair[k]` and
  array destructuring can each throw a `TypeError`; both are represented explicitly.
- `Wrappers`: `Option`.

`JSON.parse`, `JSON.stringify` and the Bing `SpatialMath.Geometry.intersects`
test are function-typed parameters (oracles). Whether the geolocation API
and the search manager are available is a boolean parameter.

Places where the code differs from what its description suggests. The model follows the code:
- **Trim runs before filtering.** `sanitizeInputForText` trims first, so
  deleting a character can leave a space at either end (`"< a"` gives `" a"`,
  see `UtilsTests.SanitizeMayStartWithSpace`).
- **The output can be shorter than `maxLength`.** The claim that any text of
  allowed characters longer than `maxLength` sanitizes to exactly `maxLength`
  characters does not hold when the text has white-space runs or edge spaces
  (`UtilsTests.ShorterThanBound`: `"a    b"` with bound 4 gives `"a b"`).
  `Utils.SanitizeTruncates` states what holds: the length equals `maxLength`
  only when the *cleaned* text is longer.
- **The search query is raw.** `searchLocation` passes the query to the
  geocoder exactly as typed. It is never sanitized, and a whitespace-only
  query is not rejected, since the check is `!query`.
- **A TypeError leaves a partial drawing.** Invalid JSON aborts `drawShapes`
  before the map is cleared, so previous shapes stay. Inputs that parse but
  have the wrong shape are different: a non-iterable box, a polygon that is
  not an array, or a `null` pair. They throw a `TypeError` *after* the map
  was cleared. The map is left empty, or holding only the box, and the result
  line is unchanged (`App.DrawThrowsAfterClearing`).

`drawShapes` is split into `DrawShapes` and `PlaceShapes`. `DrawShapes` reads
and parses both fields. `PlaceShapes` does the rest: it clears the map,
pushes the shapes, computes the intersection, fits the view and writes the
result line. Both are specified against the functional description `Draw` /
`DrawParsed` of one call.

## Model

| member | source | states |
|---|---|---|
| JsText.Trim | public/js/utils.js:12 | `String.prototype.trim`; specified by `JsText.TrimSpec`, `JsText.TrimStartSpec` and `JsText.TrimEndSpec` |
| JsText.TrimStartSpec | public/js/utils.js:12 | trimming the start keeps a suffix of the text; everything removed is white space; the rest does not start with white space |
| JsText.TrimEndSpec | public/js/utils.js:12 | trimming the end keeps a prefix; everything removed is white space; the rest does not end with white space |
| JsText.TrimSpec | public/js/utils.js:12 | `trim` returns a slice `s[i..j]`; everything outside it is white space; it neither starts nor ends with white space |
| JsText.TrimUnchanged | public/js/app.js:299 | text with no white space at either end is its own trim |
| JsText.TrimEmptyIffBlank | public/js/app.js:299-300 | a text trims to `''` exactly when every character of it is white space |
| JsText.ToUpperAscii | public/js/utils.js:46 | upper-casing keeps the length and maps exactly the lower-case ASCII letters to upper case, position by position |
| JsText.EqualsIgnoreCase | public/js/utils.js:45 | two strings are equal under `/i` exactly when they have the same length and agree position by position after ASCII lower-casing |
| JsText.Occurs | public/js/utils.js:45 | a regex test from a start index succeeds exactly when some match position from that index on exists |
| JsText.ContainsIgnoreCase | public/js/utils.js:47 | `/w/i.test(text)`; specified by `JsText.Occurs` |
| JsText.ContainsWord | public/js/utils.js:45 | `/\bw\b/i.test(text)`; specified by `JsText.Occurs` and `JsText.WordIsSubstring` |
| JsText.WordIsSubstring | public/js/utils.js:45-47 | a whole-word match is also a plain substring match |
| JsText.NotAWordInsideAWord | public/js/utils.js:50 | "NI" occurs in "UNITED" as a substring but not as a whole word |
| Json.Lookup | public/js/app.js:336 | a property is defined exactly when some member has that name, and its value is that of the last member with the name |
| Json.Index | public/js/app.js:336 | `v[k]` throws exactly on `null`, and on an array is the element or `undefined` past the end |
| Json.Destructure4 | public/js/app.js:318 | destructuring succeeds exactly on arrays and strings, gives four values, and on arrays gives the first four elements padded with `undefined` |
| Utils.KeepAllowed | public/js/utils.js:16 | the character-class filter; specified by `Utils.KeepAllowedSpec` and `Utils.KeepAllowedAppend` |
| Utils.KeepAllowedSpec | public/js/utils.js:16 | the filter keeps exactly the allowed characters of the input, keeps no other, never lengthens, and changes nothing in text of allowed characters |
| Utils.KeepAllowedAppend | public/js/utils.js:16 | the filter distributes over concatenation |
| Utils.KeepAllowedNone | public/js/utils.js:16 | text with no allowed character filters to the empty string |
| Utils.KeepAllowedIdentity | public/js/utils.js:16 | text of allowed characters passes the filter unchanged |
| Utils.KeepAllowedDropsMiddle | public/js/utils.js:16 | a group of disallowed characters between two texts disappears, leaving the filtered texts joined |
| Utils.KeepAllowedBetweenWords | public/js/utils.js:16 | deleting a disallowed group between two spaced words leaves both spaces |
| Utils.CollapseWhiteSpace | public/js/utils.js:17 | the white-space-run collapse; specified by `Utils.CollapseSpec` and `Utils.CollapseAppend` |
| Utils.CollapseSpec | public/js/utils.js:17 | collapsing never lengthens; gives empty only for empty input; keeps whether the first character is white space; leaves no white-space run; adds no characters except a space; is the identity on text without runs |
| Utils.CollapseAppend | public/js/utils.js:17 | collapsing distributes over a concatenation whose junction is not a white-space pair |
| Utils.CollapseIdentity | public/js/utils.js:17 | text without white-space runs is not changed by collapsing |
| Utils.CollapseBetweenWords | public/js/utils.js:17 | two spaces between two words collapse to one |
| Utils.TrimPadded | public/js/utils.js:12 | trimming a text padded with one space on each side returns the text |
| Utils.Truncate | public/js/utils.js:19-21 | the result is the longest prefix of the text within the bound: its length is the text's length when that fits, `maxLength` when the text is longer, and 0 for a negative bound |
| Utils.Cleaned | public/js/utils.js:12-17 | trim, then filter, then collapse; specified by `Utils.CleanedIsClean` and `Utils.SanitizeTruncates` |
| Utils.CleanedIsClean | public/js/utils.js:12-17 | after trim, filter and collapse, the text holds only allowed characters and has no white-space run |
| Utils.TruncateKeepsClean | public/js/utils.js:19-21 | truncating a clean text keeps it clean and within the bound |
| Utils.SanitizeInputForText | public/js/utils.js:10-24 | `null`, `undefined` and `''` give `''`; every output holds only allowed characters, has no two adjacent white-space characters, and is at most `maxLength` long |
| Utils.SanitizeTruncates | public/js/utils.js:19-21 | for every input text, the output is the cleaned text's prefix of exactly `maxLength` characters when the cleaned text is longer, and is the whole cleaned text otherwise (empty for a negative bound) |
| Utils.SanitizeCleanText | public/js/utils.js:10-24 | already-clean text without edge spaces is only truncated |
| Utils.SanitizeDropsGroupBetweenWords | public/js/utils.js:10-24 | padded words around a deleted group come out joined by a single space |
| Utils.EscapeHtml | public/js/utils.js:29-36 | the five global replacements, `&` first; specified by `Utils.EscapeHtmlIsPerCharacter`, `Utils.EscapeHtmlNeutralizes` and `Utils.EscapeHtmlRoundTrip` |
| Utils.ReplaceAll | public/js/utils.js:31 | a global replacement of a character that does not occur changes nothing |
| Utils.ReplaceAllAppend | public/js/utils.js:31-35 | a global single-character replacement distributes over concatenation |
| Utils.ReplaceAllOne | public/js/utils.js:31-35 | on a one-character text, a replacement gives the replacement text or the character itself |
| Utils.EscapeHtmlOneChar | public/js/utils.js:30-35 | the five chained replacements turn one character into its entity, or keep it |
| Utils.EscapeHtmlAppend | public/js/utils.js:30-35 | the escaper distributes over concatenation |
| Utils.EscapeHtmlIsPerCharacter | public/js/utils.js:30-35 | the replacement chain equals the per-character map `& < > " '` to `&amp; &lt; &gt; &quot; &#039;`, because `&` is replaced first |
| Utils.EscapeEachNoMarkup | public/js/utils.js:30-35 | the per-character map leaves no guarded character except `&`, and is the identity on text without guarded characters |
| Utils.EscapeHtmlNeutralizes | public/js/utils.js:30-35 | escaped text contains none of `< > " '`, and text without the five characters is returned unchanged |
| Utils.UnescapeAfterChar | public/js/utils.js:30-35 | decoding an escaped character followed by more text gives back the character, then the decoded rest |
| Utils.EscapeEachRoundTrip | public/js/utils.js:30-35 | decoding the per-character map gives back the input |
| Utils.EscapeHtmlRoundTrip | public/js/utils.js:30-35 | decoding the five entities in escaped text gives back the input |
| Utils.EscapeHtmlInjective | public/js/utils.js:30-35 | distinct texts escape to distinct texts |
| Utils.IsResultInEngland | public/js/utils.js:41-60 | the early-return rule chain; specified by `Utils.IsResultInEnglandCharacterized` and the `UtilsTests` cases |
| Utils.IsResultInEnglandCharacterized | public/js/utils.js:41-60 | a result is accepted exactly when it has an address and either its formatted address names England as a word, or its country fields (where present) say GB / United Kingdom and either its admin district names England or no field names Scotland, Wales, Northern Ireland or NI |
| Utils.UpperIsGb | public/js/utils.js:46 | a country code upper-cases to "GB" exactly when it is one of the four spellings of "gb" |
| Utils.ErrorToString | public/js/utils.js:74 | `String(e)` is empty exactly when both the error's name and its message are empty |
| Utils.ParseJsonSafe | public/js/utils.js:65-76 | a non-string gives the error 'Input is not a string'; for a string, `ok` holds exactly when `JSON.parse` returns, and `value` is what it returned |
| Utils.ParseJsonSafeErrorNonEmpty | public/js/utils.js:73-75 | a failed parse reports a non-empty error string whenever the thrown error has a name or a message |
| UtilsTests.SanitizeParisExample | __tests__/utils.test.js:15-19 | `' Paris!!! <> /\\ -- '` sanitizes to `'Paris!!! /\\ --'` with the default bound |
| UtilsTests.SanitizeParisInput | __tests__/utils.test.js:16-18 | the same example, stated for a text equal to that input |
| UtilsTests.ParisPieces | __tests__/utils.test.js:16 | the test input is two words and a group of disallowed characters between single spaces |
| UtilsTests.ParisFirstWord | __tests__/utils.test.js:18 | "Paris!!!" is clean and has no white space |
| UtilsTests.ParisSecondWord | __tests__/utils.test.js:18 | "/\\ --" is clean |
| UtilsTests.ShorterThanBound | public/js/utils.js:17-21 | `"a    b"`, made of allowed characters and longer than the bound 4, sanitizes to the shorter `"a b"` |
| UtilsTests.SanitizeMayStartWithSpace | public/js/utils.js:12-16 | `"< a"` sanitizes to `" a"`, because trimming precedes filtering |
| UtilsTests.LondonAccepted | __tests__/utils.test.js:21-26 | 'London, England' with code GB is accepted |
| UtilsTests.ParisRejected | __tests__/utils.test.js:28-33 | 'Paris, France' with code FR is rejected |
| UtilsTests.EdinburghRejected | __tests__/utils.test.js:35-43 | 'Edinburgh, Scotland' with code GB is rejected |
| UtilsTests.GbCodeAloneAccepted | public/js/utils.js:46-59 | an address with only the code GB is accepted by the last rule |
| UtilsTests.EnglandWinsOverForeignCode | public/js/utils.js:45-46 | England in the formatted address is accepted even with the code FR |
| UtilsTests.CountryRegionSubstringQuirk | public/js/utils.js:47 | the country-region test is a substring test: "Ukraine" passes it |
| UtilsTests.ParseJsonSafeExamples | __tests__/utils.test.js:45-57 | `{"a":1}` gives ok with its value, `{a:1` gives not-ok with the thrown error's message, a number gives 'Input is not a string' |
| UtilsTests.RejectsMissingAddress | public/js/utils.js:42 | a missing result and a result without an address are rejected |
| App.IsResultInEngland | public/js/app.js:11-43 | the page's copy of the rule chain; specified by `App.SameVerdictAsUtils` |
| App.FieldMatchesOne | public/js/app.js:16 | a one-word pattern list matches a field exactly when the word occurs in it as a whole word |
| App.FieldMatchesNotEngland | public/js/app.js:31-36 | the four-alternative pattern matches exactly when one of Scotland, Wales, Northern Ireland, NI occurs as a word |
| App.SameVerdictAsUtils | public/js/app.js:11-43 | the page's copy of the classifier gives the same verdict as `utils.js` on every result |
| App.BBoxCorners | public/js/app.js:319-325 | the box ring has five points and the first equals the last |
| App.BBoxCornersShape | public/js/app.js:319-325 | the ring is `(minLat,minLng) (minLat,maxLng) (maxLat,maxLng) (maxLat,minLng) (minLat,minLng)`; consecutive corners share a latitude or a longitude; each corner pairs a latitude bound with a longitude bound |
| App.BoxLocations | public/js/app.js:318 | building the corners succeeds exactly when the parsed box is an array or a string |
| App.BoxLocationsOfNumbers | public/js/app.js:318-325 | a box of four numbers gives the corners of those numbers |
| App.PairToLocation | public/js/app.js:336 | converting a pair throws exactly when the pair is `null`, and an array pair `[lng, lat, ...]` becomes `Location(lat, lng)` |
| App.MapPairs | public/js/app.js:335-337 | the map over pairs throws exactly when some pair is `null`; otherwise it keeps the length and converts each pair in place |
| App.PolygonLocations | public/js/app.js:335 | only an array can be mapped, and the result has its length |
| App.PolygonOfPairs | public/js/app.js:335-337 | every `[lng, lat]` pair becomes `Location(lat, lng)`, with length and order kept |
| App.PolygonRoundTrip | public/js/app.js:335-337 | swapping the coordinates of the polygon's locations back gives the input pairs |
| App.ReadField | public/js/app.js:299-307 | a field is blank exactly when every character of it is white space, fails exactly when its trimmed text does not parse, and otherwise holds the parsed value |
| App.Draw | public/js/app.js:292-365 | the effect of one `drawShapes` call on the two field texts; specified by `App.DrawInvalidJson`, `App.DrawBlankFields`, `App.DrawnEntities`, `App.DrawnMessageChoice`, `App.IntersectsOnlyWhenBoth` and `App.DrawThrowsAfterClearing` |
| App.DrawParsed | public/js/app.js:314-364 | the effect once both fields are read; specified by `App.DrawWellFormed` and `App.Session.PlaceShapes` |
| App.DrawInvalidJson | public/js/app.js:298-312 | the only effect is the invalid-JSON message, and the map is untouched, exactly when a non-blank field fails to parse |
| App.DrawBlankFields | public/js/app.js:298-364 | two blank fields draw nothing and report 'Shapes drawn.' |
| App.DrawnEntities | public/js/app.js:314-357 | after a successful draw, the map holds the box if present, then the polygon if present, and the view is fitted to their rings in that order |
| App.DrawnMessageChoice | public/js/app.js:346-364 | the result is 'Shapes intersect!' or 'No intersection.' per the intersection test when both shapes are present, and 'Shapes drawn.' otherwise |
| App.IntersectsOnlyWhenBoth | public/js/app.js:346-352 | with a blank field the intersection test is not consulted: any two tests give the same effect |
| App.DrawThrowsAfterClearing | public/js/app.js:314-343 | a parsed box that is not iterable throws with the map left empty; a parsed polygon that is not an array, or an array with a `null` pair, throws with only the box on the map |
| App.DrawWellFormed | public/js/app.js:314-343 | every completed or aborted drawing leaves at most a box then a polygon, and the box is a closed five-point ring |
| App.DrawStringifiedBox | public/js/app.js:214-221 | a box written by `JSON.stringify` and read back by `JSON.parse` is drawn as the rectangle of its four numbers |
| App.BestViewBox | public/js/app.js:206-213 | the search box is centred on the best view's centre and has its width and height |
| App.PositionBox | public/js/app.js:236-239 | the position box contains the position strictly, is centred on it, and has sides of 0.02 degrees |
| App.AfterDraw | public/js/app.js:309-364 | the page after a `drawShapes` effect: only the result line on invalid JSON, only the entities on a throw, otherwise entities, fitted view (kept when there are no locations) and result line; specified by `App.Session.DrawShapes` |
| App.ReverseGeocodeLabel | public/js/app.js:262-268 | the search-field value after an accepted reverse geocode; specified by `App.Session.OnReverseGeocode` |
| App.Session.constructor | public/js/app.js:8 | a fresh page holds the given field texts, no shapes, no fitted view, no result and no error |
| App.Session.DrawShapes | public/js/app.js:292-312 | the page changes exactly as the effect of `Draw` on the current fields prescribes; it throws exactly when that effect is an abort; the fields and the error summary are unchanged; the shapes stay well formed |
| App.Session.PlaceShapes | public/js/app.js:314-364 | after parsing, the page changes as `DrawParsed` prescribes, it throws exactly on an abort, and the shapes are well formed |
| App.Session.SearchLocation | public/js/app.js:184-193 | an empty query shows 'Please enter a location.' linked to the search field and makes no geocoder call; otherwise the raw query goes to the geocoder; the map is unchanged |
| App.Session.OnGeocodeResult | public/js/app.js:194-225 | no results give 'Location not found.'; a top result outside England gives the outside-England error; in both cases the bbox field and the map are unchanged. An accepted top result writes its best-view box into the bbox field, clears the error and draws |
| App.Session.OnGeocodeError | public/js/app.js:226-228 | a geocoder failure shows 'Search failed.' and changes nothing else |
| App.Session.UseMyLocation | public/js/app.js:232-233 | a position is requested exactly when geolocation is available; otherwise 'Geolocation is not supported by your browser.' is shown |
| App.Session.OnPosition | public/js/app.js:234-281 | the position box is written into the bbox field; then a reverse geocode of `Location(latitude, longitude)` is requested when the search manager is available, and otherwise the page draws at once |
| App.Session.OnPositionError | public/js/app.js:283-285 | a position failure shows 'Unable to retrieve your location.' and changes nothing else |
| App.Session.OnReverseGeocode | public/js/app.js:252-272 | every reply draws. A result outside England shows the outside-England error and keeps the search field. An accepted one clears the error and sets the search field to the name, else the formatted address, else leaves it |
| App.Session.OnReverseGeocodeError | public/js/app.js:273-276 | a reverse-geocode failure still draws and changes nothing else |

## Left out

- The HTTP server (`server.js`, the configuration, the home controller, server start-up and request tracing) and the lint, test and security-header configuration: I/O and plumbing with no client logic.
- `renderGovukError` and `clearGovukError` (DOM writes, focus handling, loading the GOV.UK script, and an `alert` fallback when the container is missing). They are modelled only as the `error` slot they set or clear.
- `loadMapScenario` and the `DOMContentLoaded` event wiring: network fetch and event plumbing.
- Bing Maps objects are not modelled. A `Microsoft.Maps.Location` is recorded with the values it was given, with no range normalisation. Polygon styling is not modelled. `LocationRect.fromLocations` and `setView` are represented by the list of locations the view is fitted to. `intersects` is an oracle.
- `navigator.geolocation` and the Bing search manager are not modelled. Their availability is a boolean, and their responses are method parameters.
- The module-level `bboxShape` and `polygonShape` handles are not modelled separately from the entities list.
- The internals of `JSON.parse` and `JSON.stringify`: both are oracles. Three lemmas assume something about what `JSON.parse` returns: `App.DrawStringifiedBox` assumes that parsing reads back a stringified list of four numbers; `Utils.ParseJsonSafeErrorNonEmpty` assumes that a thrown error has a non-empty name or message, and its promise of a non-empty error string rests on that; `UtilsTests.ParseJsonSafeExamples` fixes the oracle's outcome on `{"a":1}` and on `{a:1`.
- Floating point: coordinates are reals, so the ±0.01 and best-view arithmetic is exact.
- Unicode: strings are sequences of Unicode scalar values, not UTF-16 code units. Case folding and upper-casing are ASCII only.
- Argument types other than those listed here:
  - `sanitizeInputForText` is modelled for strings, `null` and `undefined`. Other falsy values (`0`, `false`) also give `''`; other non-string values are not modelled.
  - Address fields are optional strings.
  - `parseJsonSafe` takes any JSON value or `undefined`.
- Asynchrony: callbacks run one at a time, in the order they are called.
- Missing DOM elements and a map that is not loaded yet are not modelled.
- A geocoder result without a `bestView` is not modelled.
- Json.Index: array-index property access is modelled for one-digit indices only, which is all `drawShapes` uses (`pair[0]`, `pair[1]`).
- The literal `escapeHtml` case of `__tests__/utils.test.js:8-13` is not stated as a concrete lemma: it is an instance of `Utils.EscapeHtmlIsPerCharacter`, which equates the escaper with the per-character map `Utils.EscapeEach` on every input; `Utils.EscapeHtmlNeutralizes` and `Utils.EscapeHtmlRoundTrip` state the rest of what it checks.
