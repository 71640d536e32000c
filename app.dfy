/**
 * The session logic of `public/js/app.js`: its own copy of the England
 * classifier, the construction of the map shapes from the `bbox` and
 * `polygon` text fields (`drawShapes`), and the reactions of the location
 * search and the "use my location" button to the geocoder and
 * geolocation responses.
 *
 * `JSON.parse`, `JSON.stringify` and the Bing `intersects` test are
 * parameters (oracles); the page is a `Session` object whose fields are
 * the text fields, the map entities, the fitted view, the result line and
 * the error summary.
 */
module App {
  import opened Wrappers
  import opened JsText
  import opened Json
  import Utils

  // ---------------------------------------------------------------------
  // isResultInEngland (second copy)
  // ---------------------------------------------------------------------

  /** The alternatives of `notEnglandPattern`, each matched as a whole word. */
  const NotEnglandWords: seq<string> := ["Scotland", "Wales", "Northern Ireland", "NI"]

  /** `/\bw1\b|\bw2\b|.../i.test(s)` for the words `ws`. */
  predicate MatchesAnyWord(s: string, ws: seq<string>) {
    exists k :: 0 <= k < |ws| && ContainsWord(s, ws[k])
  }

  /** `f && pattern.test(f)` for the pattern of the words `ws`. */
  predicate FieldMatches(f: Option<string>, ws: seq<string>) {
    Utils.Truthy(f) && MatchesAnyWord(f.value, ws)
  }

  /** The copy of `isResultInEngland` in the page script. */
  function IsResultInEngland(res: Option<Utils.GeoResult>): bool {
    if res.None? || res.value.address.None? then false
    else
      var addr := res.value.address.value;
      if FieldMatches(addr.formattedAddress, ["England"]) then true
      else if Utils.Truthy(addr.countryRegionIso2) && ToUpperAscii(addr.countryRegionIso2.value) != "GB" then false
      else if Utils.Truthy(addr.countryRegion)
        && !(ContainsIgnoreCase(addr.countryRegion.value, "United Kingdom")
             || ContainsIgnoreCase(addr.countryRegion.value, "UK")) then false
      else if FieldMatches(addr.adminDistrict, ["England"]) then true
      else if FieldMatches(addr.formattedAddress, NotEnglandWords)
           || FieldMatches(addr.adminDistrict, NotEnglandWords)
           || FieldMatches(addr.subdivision, NotEnglandWords) then false
      else true
  }

  /** A field matches a list of words exactly when it contains one of them as a word. */
  lemma FieldMatchesOne(f: Option<string>, w: string)
    ensures FieldMatches(f, [w]) <==> Utils.FieldHasWord(f, w)
  {
    if Utils.FieldHasWord(f, w) {
      assert [w][0] == w;
    }
  }

  lemma FieldMatchesNotEngland(f: Option<string>)
    ensures FieldMatches(f, NotEnglandWords) <==> Utils.NamesOtherNation(f)
  {
    if Utils.NamesOtherNation(f) {
      assert NotEnglandWords[0] == "Scotland" && NotEnglandWords[1] == "Wales";
      assert NotEnglandWords[2] == "Northern Ireland" && NotEnglandWords[3] == "NI";
    }
  }

  /** Both copies of the classifier give the same verdict on every result. */
  lemma SameVerdictAsUtils(res: Option<Utils.GeoResult>)
    ensures IsResultInEngland(res) == Utils.IsResultInEngland(res)
  {
    if res.Some? && res.value.address.Some? {
      var addr := res.value.address.value;
      FieldMatchesOne(addr.formattedAddress, "England");
      FieldMatchesOne(addr.adminDistrict, "England");
      FieldMatchesNotEngland(addr.formattedAddress);
      FieldMatchesNotEngland(addr.adminDistrict);
      FieldMatchesNotEngland(addr.subdivision);
    }
  }

  // ---------------------------------------------------------------------
  // Shapes
  // ---------------------------------------------------------------------

  /** `new Microsoft.Maps.Location(latitude, longitude)`, recorded with the
      values it was given. */
  datatype Location = Location(latitude: JsValue, longitude: JsValue)

  datatype ShapeKind = BoxShape | PolygonShape

  /** A `Microsoft.Maps.Polygon` on the map: which of the two it is and its ring of locations. */
  datatype Shape = Shape(kind: ShapeKind, ring: seq<Location>)

  /** The closed ring of the bounding box `[minLng, minLat, maxLng, maxLat]`. */
  function BBoxCorners(minLng: JsValue, minLat: JsValue, maxLng: JsValue, maxLat: JsValue): (r: seq<Location>)
    ensures |r| == 5 && r[0] == r[4]
  {
    [ Location(minLat, minLng), Location(minLat, maxLng), Location(maxLat, maxLng),
      Location(maxLat, minLng), Location(minLat, minLng) ]
  }

  /** The rectangle is closed and axis-aligned: consecutive corners share
      their latitude or their longitude, it goes round the four corners in
      order, and each corner pairs a latitude bound with a longitude bound. */
  lemma BBoxCornersShape(minLng: JsValue, minLat: JsValue, maxLng: JsValue, maxLat: JsValue)
    ensures var r := BBoxCorners(minLng, minLat, maxLng, maxLat);
      && forall i :: 0 <= i < 4 ==>
           r[i].latitude == r[i + 1].latitude || r[i].longitude == r[i + 1].longitude
    ensures var r := BBoxCorners(minLng, minLat, maxLng, maxLat);
      forall i :: 0 <= i < 5 ==>
        (r[i].latitude == minLat || r[i].latitude == maxLat)
        && (r[i].longitude == minLng || r[i].longitude == maxLng)
    ensures var r := BBoxCorners(minLng, minLat, maxLng, maxLat);
      && r[0] == Location(minLat, minLng) && r[1] == Location(minLat, maxLng)
      && r[2] == Location(maxLat, maxLng) && r[3] == Location(maxLat, minLng)
  {
  }

  /** `const [minLng, minLat, maxLng, maxLat] = bboxArray` followed by the corners. */
  function BoxLocations(v: Json): (r: Eval<seq<Location>>)
    ensures r.Returned? <==> v.JArray? || v.JString?
  {
    match Destructure4(v)
    case TypeError => TypeError
    case Returned(xs) => Returned(BBoxCorners(xs[0], xs[1], xs[2], xs[3]))
  }

  /** A bounding box parsed from an array of four numbers gives the corners of those numbers. */
  lemma BoxLocationsOfNumbers(xs: seq<real>)
    requires |xs| == 4
    ensures BoxLocations(Numbers(xs)) == Returned(BBoxCorners(
      Defined(JNumber(xs[0])), Defined(JNumber(xs[1])), Defined(JNumber(xs[2])), Defined(JNumber(xs[3]))))
  {
  }

  /** `(pair) => new Microsoft.Maps.Location(pair[1], pair[0])`. */
  function PairToLocation(pair: Json): (r: Eval<Location>)
    ensures r.TypeError? <==> pair.JNull?
    ensures pair.JArray? && |pair.items| >= 2 ==> r == Returned(Location(Defined(pair.items[1]), Defined(pair.items[0])))
  {
    match (Index(pair, 1), Index(pair, 0))
    case (Returned(lat), Returned(lng)) => Returned(Location(lat, lng))
    case _ => TypeError
  }

  /** `items.map(PairToLocation)`: throws at the first `null` item. */
  function MapPairs(items: seq<Json>): (r: Eval<seq<Location>>)
    ensures r.TypeError? <==> exists i :: 0 <= i < |items| && items[i].JNull?
    ensures r.Returned? ==> |r.value| == |items|
    ensures r.Returned? ==> forall i :: 0 <= i < |items| ==> Returned(r.value[i]) == PairToLocation(items[i])
  {
    if items == [] then Returned([])
    else
      match (PairToLocation(items[0]), MapPairs(items[1..]))
      case (Returned(l), Returned(ls)) =>
        assert forall i :: 1 <= i < |items| ==> items[i] == items[1..][i - 1];
        Returned([l] + ls)
      case (TypeError, _) => TypeError
      case (_, TypeError) =>
        assert forall i :: 0 <= i < |items[1..]| ==> items[1..][i] == items[i + 1];
        TypeError
  }

  /** `polyJson.map(...)`: only an array has a `map` method; any other value throws. */
  function PolygonLocations(v: Json): (r: Eval<seq<Location>>)
    ensures r.Returned? ==> v.JArray? && |r.value| == |v.items|
  {
    if v.JArray? then MapPairs(v.items) else TypeError
  }

  /** The JSON value of a list of `[lng, lat]` number pairs. */
  function Pairs(ps: seq<(real, real)>): (r: Json)
    ensures r.JArray? && |r.items| == |ps|
    ensures forall i :: 0 <= i < |ps| ==> r.items[i] == Numbers([ps[i].0, ps[i].1])
  {
    JArray(seq(|ps|, i requires 0 <= i < |ps| => Numbers([ps[i].0, ps[i].1])))
  }

  /** Every `[lng, lat]` pair becomes `Location(lat, lng)`, in order. */
  lemma PolygonOfPairs(ps: seq<(real, real)>)
    ensures PolygonLocations(Pairs(ps)).Returned?
    ensures var r := PolygonLocations(Pairs(ps)).value;
      |r| == |ps| && forall i :: 0 <= i < |ps| ==>
        r[i] == Location(Defined(JNumber(ps[i].1)), Defined(JNumber(ps[i].0)))
  {
    var v := Pairs(ps);
    forall i | 0 <= i < |v.items| ensures !v.items[i].JNull? {
    }
    var r := PolygonLocations(v).value;
    forall i | 0 <= i < |ps|
      ensures r[i] == Location(Defined(JNumber(ps[i].1)), Defined(JNumber(ps[i].0)))
    {
      assert Returned(r[i]) == PairToLocation(v.items[i]);
      assert v.items[i].items == [JNumber(ps[i].0), JNumber(ps[i].1)];
    }
  }

  /** Swapping back the coordinates of the polygon's locations gives the pairs it was drawn from. */
  lemma PolygonRoundTrip(ps: seq<(real, real)>)
    ensures var r := PolygonLocations(Pairs(ps)).value;
      |r| == |ps| && forall i :: 0 <= i < |ps| ==>
        (r[i].longitude, r[i].latitude) == (Defined(JNumber(ps[i].0)), Defined(JNumber(ps[i].1)))
  {
    PolygonOfPairs(ps);
  }

  // ---------------------------------------------------------------------
  // drawShapes
  // ---------------------------------------------------------------------

  const InvalidJsonMessage: string := "\U{274C} Invalid JSON format."
  const IntersectMessage: string := "\U{2705} Shapes intersect!"
  const NoIntersectionMessage: string := "\U{274C} No intersection."
  const DrawnMessage: string := "\U{2705} Shapes drawn."

  /** A text field as `drawShapes` reads it: blank after trimming, parsed, or rejected by `JSON.parse`. */
  datatype FieldParse = Blank | Value(json: Json) | Failed

  function ReadField(text: string, parse: string -> ParseOutcome): (r: FieldParse)
    ensures r.Blank? <==> forall i :: 0 <= i < |text| ==> IsWhiteSpace(text[i])
    ensures r.Failed? <==> Trim(text) != "" && parse(Trim(text)).Threw?
    ensures r.Value? ==> parse(Trim(text)) == Parsed(r.json)
  {
    TrimEmptyIffBlank(text);
    var t := Trim(text);
    if t == "" then Blank
    else match parse(t)
      case Parsed(v) => Value(v)
      case Threw(_) => Failed
  }

  /** What one call of `drawShapes` does to the map and to the result line:
      leave them alone except for the invalid-JSON message; throw after
      clearing the map, leaving the shapes drawn so far; or draw the
      shapes, fit the view to their locations and write the outcome. */
  datatype DrawEffect =
    | InvalidJson
    | Aborted(entities: seq<Shape>)
    | Drawn(entities: seq<Shape>, located: seq<Location>, message: string)

  /** The ring the box field contributes: its corners when it parsed and
      they could be built, none when it is blank. */
  function BoxRing(b: FieldParse): seq<Location> {
    if b.Value? && BoxLocations(b.json).Returned? then BoxLocations(b.json).value else []
  }

  /** The ring the polygon field contributes. */
  function PolygonRing(p: FieldParse): seq<Location> {
    if p.Value? && PolygonLocations(p.json).Returned? then PolygonLocations(p.json).value else []
  }

  /** The effect of `drawShapes` on the current field texts. */
  function Draw(bboxText: string, polygonText: string, parse: string -> ParseOutcome,
                intersects: (Shape, Shape) -> bool): DrawEffect
  {
    DrawParsed(ReadField(bboxText, parse), ReadField(polygonText, parse), intersects)
  }

  /** The effect of `drawShapes` once both fields have been read. */
  function DrawParsed(b: FieldParse, p: FieldParse, intersects: (Shape, Shape) -> bool): DrawEffect {
    var box := Shape(BoxShape, BoxRing(b));
    var polygon := Shape(PolygonShape, PolygonRing(p));
    var boxes := if b.Value? then [box] else [];
    if b.Failed? || p.Failed? then InvalidJson
    else if b.Value? && BoxLocations(b.json).TypeError? then Aborted([])
    else if p.Value? && PolygonLocations(p.json).TypeError? then Aborted(boxes)
    else
      var message :=
        if b.Value? && p.Value? then (if intersects(box, polygon) then IntersectMessage else NoIntersectionMessage)
        else DrawnMessage;
      Drawn(boxes + (if p.Value? then [polygon] else []), box.ring + polygon.ring, message)
  }

  /** Invalid JSON in either non-blank field is reported, and nothing else happens, exactly when a parse fails. */
  lemma DrawInvalidJson(bboxText: string, polygonText: string, parse: string -> ParseOutcome,
                        intersects: (Shape, Shape) -> bool)
    ensures Draw(bboxText, polygonText, parse, intersects).InvalidJson? <==>
      || (Trim(bboxText) != "" && parse(Trim(bboxText)).Threw?)
      || (Trim(polygonText) != "" && parse(Trim(polygonText)).Threw?)
  {
  }

  /** Two blank fields draw nothing and say so. */
  lemma DrawBlankFields(bboxText: string, polygonText: string, parse: string -> ParseOutcome,
                        intersects: (Shape, Shape) -> bool)
    requires Trim(bboxText) == "" && Trim(polygonText) == ""
    ensures Draw(bboxText, polygonText, parse, intersects) == Drawn([], [], DrawnMessage)
  {
  }

  /** After both parses succeed and nothing throws, the map holds the box
      if its field is not blank, followed by the polygon if its field is not
      blank; the view is fitted to their rings in that order. */
  lemma DrawnEntities(bboxText: string, polygonText: string, parse: string -> ParseOutcome,
                      intersects: (Shape, Shape) -> bool)
    requires Draw(bboxText, polygonText, parse, intersects).Drawn?
    ensures var d := Draw(bboxText, polygonText, parse, intersects);
      var hasBox, hasPolygon := Trim(bboxText) != "", Trim(polygonText) != "";
      && |d.entities| == (if hasBox then 1 else 0) + (if hasPolygon then 1 else 0)
      && (hasBox ==> d.entities[0] == Shape(BoxShape, BoxLocations(parse(Trim(bboxText)).value).value))
      && (hasPolygon ==>
            d.entities[|d.entities| - 1] == Shape(PolygonShape, PolygonLocations(parse(Trim(polygonText)).value).value))
      && d.located == (if hasBox then d.entities[0].ring else [])
                      + (if hasPolygon then d.entities[|d.entities| - 1].ring else [])
  {
  }

  /** The result line names the intersection test only when both shapes
      are drawn, and then reports its answer. */
  lemma DrawnMessageChoice(bboxText: string, polygonText: string, parse: string -> ParseOutcome,
                           intersects: (Shape, Shape) -> bool)
    requires Draw(bboxText, polygonText, parse, intersects).Drawn?
    ensures var d := Draw(bboxText, polygonText, parse, intersects);
      d.message == if Trim(bboxText) != "" && Trim(polygonText) != "" then
        (if intersects(d.entities[0], d.entities[1]) then IntersectMessage else NoIntersectionMessage)
      else DrawnMessage
  {
  }

  /** `intersects` is consulted only when both shapes are present: with
      a blank field, any two intersection tests give the same effect. */
  lemma IntersectsOnlyWhenBoth(bboxText: string, polygonText: string, parse: string -> ParseOutcome,
                               i1: (Shape, Shape) -> bool, i2: (Shape, Shape) -> bool)
    requires Trim(bboxText) == "" || Trim(polygonText) == ""
    ensures Draw(bboxText, polygonText, parse, i1) == Draw(bboxText, polygonText, parse, i2)
  {
  }

  /** A box field that parses to something other than an array or a string
      throws after the map was cleared: the map is left empty. A polygon
      field that parses to something other than an array, or to an array
      with a `null` pair, throws after the box was drawn: the box stays on
      the map. */
  lemma DrawThrowsAfterClearing(bboxText: string, polygonText: string, parse: string -> ParseOutcome,
                                intersects: (Shape, Shape) -> bool)
    requires !Draw(bboxText, polygonText, parse, intersects).InvalidJson?
    ensures var b, p := ReadField(bboxText, parse), ReadField(polygonText, parse);
      && (b.Value? && !b.json.JArray? && !b.json.JString? ==>
            Draw(bboxText, polygonText, parse, intersects) == Aborted([]))
      && (b.Value? && b.json.JArray? && p.Value? && !p.json.JArray? ==>
            Draw(bboxText, polygonText, parse, intersects) == Aborted([Shape(BoxShape, BoxLocations(b.json).value)]))
      && (b.Value? && b.json.JArray? && p.Value? && p.json.JArray?
          && (exists i :: 0 <= i < |p.json.items| && p.json.items[i].JNull?) ==>
            Draw(bboxText, polygonText, parse, intersects) == Aborted([Shape(BoxShape, BoxLocations(b.json).value)]))
  {
  }

  /** The shapes on the map: at most a box and a polygon, the box first,
      and a box is always a closed five-point ring. */
  predicate WellFormedEntities(es: seq<Shape>) {
    && |es| <= 2
    && (forall i :: 0 <= i < |es| ==> es[i].kind.BoxShape? ==> |es[i].ring| == 5 && es[i].ring[0] == es[i].ring[4])
    && (|es| == 2 ==> es[0].kind.BoxShape? && es[1].kind.PolygonShape?)
  }

  /** Every drawing leaves well-formed shapes on the map. */
  lemma DrawWellFormed(b: FieldParse, p: FieldParse, intersects: (Shape, Shape) -> bool)
    ensures var d := DrawParsed(b, p, intersects);
      !d.InvalidJson? ==> WellFormedEntities(d.entities)
  {
  }

  /** The box written by an accepted search or position is drawn as the
      rectangle of its four numbers when `JSON.parse` reads back what
      `JSON.stringify` wrote and the polygon field is blank. */
  lemma DrawStringifiedBox(box: seq<real>, polygonText: string, stringify: seq<real> -> string,
                           parse: string -> ParseOutcome, intersects: (Shape, Shape) -> bool)
    requires |box| == 4
    requires Trim(stringify(box)) != "" && parse(Trim(stringify(box))) == Parsed(Numbers(box))
    requires Trim(polygonText) == ""
    ensures var ring := BBoxCorners(Defined(JNumber(box[0])), Defined(JNumber(box[1])),
                                     Defined(JNumber(box[2])), Defined(JNumber(box[3])));
      Draw(stringify(box), polygonText, parse, intersects) == Drawn([Shape(BoxShape, ring)], ring, DrawnMessage)
  {
    BoxLocationsOfNumbers(box);
  }

  // ---------------------------------------------------------------------
  // The boxes written by searchLocation and useMyLocation
  // ---------------------------------------------------------------------

  /** `top.bestView` of a geocoder result. */
  datatype BestView = BestView(centerLatitude: real, centerLongitude: real, width: real, height: real)

  /** One geocoder hit: its result record and its best view. */
  datatype SearchHit = SearchHit(result: Utils.GeoResult, bestView: BestView)

  /** `[lng - w/2, lat - h/2, lng + w/2, lat + h/2]` of the best view. */
  function BestViewBox(v: BestView): (r: seq<real>)
    ensures |r| == 4
    ensures (r[0] + r[2]) / 2.0 == v.centerLongitude && (r[1] + r[3]) / 2.0 == v.centerLatitude
    ensures r[2] - r[0] == v.width && r[3] - r[1] == v.height
  {
    [ v.centerLongitude - v.width / 2.0, v.centerLatitude - v.height / 2.0,
      v.centerLongitude + v.width / 2.0, v.centerLatitude + v.height / 2.0 ]
  }

  /** The half-size of the box around the device position. */
  const Delta: real := 0.01

  /** `[lng - delta, lat - delta, lng + delta, lat + delta]`. */
  function PositionBox(latitude: real, longitude: real): (r: seq<real>)
    ensures |r| == 4
    ensures r[0] < longitude < r[2] && r[1] < latitude < r[3]
    ensures r[2] - r[0] == 2.0 * Delta && r[3] - r[1] == 2.0 * Delta
    ensures (r[0] + r[2]) / 2.0 == longitude && (r[1] + r[3]) / 2.0 == latitude
  {
    [longitude - Delta, latitude - Delta, longitude + Delta, latitude + Delta]
  }

  // ---------------------------------------------------------------------
  // The page session
  // ---------------------------------------------------------------------

  const SearchFieldId: string := "locationSearch"
  const EnterLocationMessage: string := "Please enter a location."
  const OutsideEnglandMessage: string := "Location is outside England. Please search for a location within England."
  const NotFoundMessage: string := "Location not found."
  const SearchFailedMessage: string := "Search failed."
  const NoGeolocationMessage: string := "Geolocation is not supported by your browser."
  const NoPositionMessage: string := "Unable to retrieve your location."
  const PositionOutsideMessage: string :=
    "Your current location appears to be outside England. The app only accepts locations in England."

  /** The error summary: empty, or showing a message, linked to a field when a target is given. */
  datatype ErrorSlot = NoError | Shown(message: string, target: Option<string>)

  /** The part of the page `drawShapes` changes: map entities, the view the
      map was last fitted to, and the result line. */
  datatype MapView = MapView(entities: seq<Shape>, fitted: Option<seq<Location>>, result: string)

  /** The page after one call of `drawShapes` with effect `e`. */
  function AfterDraw(v: MapView, e: DrawEffect): MapView {
    match e
    case InvalidJson => v.(result := InvalidJsonMessage)
    case Aborted(es) => v.(entities := es)
    case Drawn(es, located, message) =>
      MapView(es, if located == [] then v.fitted else Some(located), message)
  }

  /** The value written into the search field by an accepted reverse
      geocode: the name if it has one, else the formatted address, else
      the field is left as it was. */
  function ReverseGeocodeLabel(res: Utils.GeoResult, current: string): string {
    if Utils.Truthy(res.name) then res.name.value
    else if res.address.Some? && Utils.Truthy(res.address.value.formattedAddress) then
      res.address.value.formattedAddress.value
    else current
  }

  class Session {
    var bbox: string
    var polygon: string
    var locationSearch: string
    var entities: seq<Shape>
    var fitted: Option<seq<Location>>
    var result: string
    var error: ErrorSlot

    predicate Valid()
      reads this
    {
      WellFormedEntities(entities)
    }

    function View(): MapView
      reads this
    {
      MapView(entities, fitted, result)
    }

    /** A page freshly loaded with the given field contents. */
    constructor(bboxText: string, polygonText: string, searchText: string)
      ensures Valid()
      ensures bbox == bboxText && polygon == polygonText && locationSearch == searchText
      ensures entities == [] && fitted == None && result == "" && error == NoError
    {
      bbox, polygon, locationSearch := bboxText, polygonText, searchText;
      entities, fitted, result, error := [], None, "", NoError;
    }

    /** `drawShapes()`; `threw` tells whether a `TypeError` escaped it. */
    method DrawShapes(parse: string -> ParseOutcome, intersects: (Shape, Shape) -> bool) returns (threw: bool)
      requires Valid()
      modifies this
      ensures Valid()
      ensures View() == AfterDraw(old(View()), Draw(bbox, polygon, parse, intersects))
      ensures threw <==> Draw(bbox, polygon, parse, intersects).Aborted?
      ensures bbox == old(bbox) && polygon == old(polygon)
      ensures locationSearch == old(locationSearch) && error == old(error)
    {
      var b := ReadField(bbox, parse);
      if b.Failed? {
        result := InvalidJsonMessage;
        return false;
      }
      var p := ReadField(polygon, parse);
      if p.Failed? {
        result := InvalidJsonMessage;
        return false;
      }
      threw := PlaceShapes(b.Value?, if b.Value? then b.json else JArray([]),
                           p.Value?, if p.Value? then p.json else JArray([]), intersects);
    }

    /** The part of `drawShapes` after both fields were parsed: clear the
        map, add the box and the polygon, fit the view and write the result. */
    method PlaceShapes(hasBBox: bool, bboxArray: Json, hasPolygon: bool, polyJson: Json,
                       intersects: (Shape, Shape) -> bool)
      returns (threw: bool)
      modifies this
      ensures var d := DrawParsed(if hasBBox then Value(bboxArray) else Blank,
                                  if hasPolygon then Value(polyJson) else Blank, intersects);
        && View() == AfterDraw(old(View()), d)
        && (threw <==> d.Aborted?)
        && WellFormedEntities(entities)
      ensures bbox == old(bbox) && polygon == old(polygon)
      ensures locationSearch == old(locationSearch) && error == old(error)
    {
      ghost var b := if hasBBox then Value(bboxArray) else Blank;
      ghost var p := if hasPolygon then Value(polyJson) else Blank;
      ghost var d := DrawParsed(b, p, intersects);
      DrawWellFormed(b, p, intersects);

      entities := [];
      var locations: seq<Location> := [];
      var boxShape := Shape(BoxShape, []);
      var polygonShape := Shape(PolygonShape, []);

      if hasBBox {
        var corners := BoxLocations(bboxArray);
        if corners.TypeError? {
          return true;
        }
        boxShape := Shape(BoxShape, corners.value);
        entities := entities + [boxShape];
        locations := locations + corners.value;
      }
      assert entities == if hasBBox then [boxShape] else [];
      assert boxShape.ring == BoxRing(b) && locations == boxShape.ring;

      if hasPolygon {
        var polyInput := PolygonLocations(polyJson);
        if polyInput.TypeError? {
          assert d == Aborted(entities);
          return true;
        }
        polygonShape := Shape(PolygonShape, polyInput.value);
        entities := entities + [polygonShape];
        locations := locations + polyInput.value;
      }
      assert polygonShape.ring == PolygonRing(p);
      assert locations == boxShape.ring + polygonShape.ring;
      assert d.Drawn? && d.entities == entities && d.located == locations;

      var intersecting := false;
      if hasBBox && hasPolygon {
        intersecting := intersects(boxShape, polygonShape);
      }

      if |locations| > 0 {
        fitted := Some(locations);
      }

      result :=
        if hasBBox && hasPolygon then (if intersecting then IntersectMessage else NoIntersectionMessage)
        else DrawnMessage;
      assert d.message == result;
      threw := false;
    }

    /** `searchLocation()`: the query handed to the geocoder, or none and an
        error when the field is empty. The query is passed as typed. */
    method SearchLocation() returns (query: Option<string>)
      requires Valid()
      modifies this
      ensures Valid()
      ensures locationSearch == "" ==> query == None && error == Shown(EnterLocationMessage, Some(SearchFieldId))
      ensures locationSearch != "" ==> query == Some(locationSearch) && error == old(error)
      ensures bbox == old(bbox) && polygon == old(polygon) && locationSearch == old(locationSearch)
      ensures View() == old(View())
    {
      if locationSearch == "" {
        error := Shown(EnterLocationMessage, Some(SearchFieldId));
        return None;
      }
      query := Some(locationSearch);
    }

    /** The geocoder's `callback` with the `results` of its response. */
    method OnGeocodeResult(results: Option<seq<SearchHit>>, stringify: seq<real> -> string,
                           parse: string -> ParseOutcome, intersects: (Shape, Shape) -> bool)
      returns (threw: bool)
      requires Valid()
      modifies this
      ensures Valid()
      ensures polygon == old(polygon) && locationSearch == old(locationSearch)
      ensures results.None? || results.value == [] ==>
        && error == Shown(NotFoundMessage, Some(SearchFieldId))
        && bbox == old(bbox) && View() == old(View()) && !threw
      ensures results.Some? && results.value != [] && !Utils.IsResultInEngland(Some(results.value[0].result)) ==>
        && error == Shown(OutsideEnglandMessage, Some(SearchFieldId))
        && bbox == old(bbox) && View() == old(View()) && !threw
      ensures results.Some? && results.value != [] && Utils.IsResultInEngland(Some(results.value[0].result)) ==>
        && bbox == stringify(BestViewBox(results.value[0].bestView))
        && error == NoError
        && View() == AfterDraw(old(View()), Draw(bbox, polygon, parse, intersects))
        && (threw <==> Draw(bbox, polygon, parse, intersects).Aborted?)
    {
      if results.Some? && |results.value| > 0 {
        var top := results.value[0];
        if !IsResultInEngland(Some(top.result)) {
          SameVerdictAsUtils(Some(top.result));
          error := Shown(OutsideEnglandMessage, Some(SearchFieldId));
          return false;
        }
        SameVerdictAsUtils(Some(top.result));
        bbox := stringify(BestViewBox(top.bestView));
        error := NoError;
        threw := DrawShapes(parse, intersects);
      } else {
        error := Shown(NotFoundMessage, Some(SearchFieldId));
        threw := false;
      }
    }

    /** The geocoder's `errorCallback`. */
    method OnGeocodeError()
      requires Valid()
      modifies this
      ensures Valid()
      ensures error == Shown(SearchFailedMessage, Some(SearchFieldId))
      ensures bbox == old(bbox) && polygon == old(polygon) && locationSearch == old(locationSearch)
      ensures View() == old(View())
    {
      error := Shown(SearchFailedMessage, Some(SearchFieldId));
    }

    /** `useMyLocation()`: whether a position was requested. */
    method UseMyLocation(geolocationAvailable: bool) returns (requested: bool)
      requires Valid()
      modifies this
      ensures Valid()
      ensures requested == geolocationAvailable
      ensures error == if geolocationAvailable then old(error) else Shown(NoGeolocationMessage, None)
      ensures bbox == old(bbox) && polygon == old(polygon) && locationSearch == old(locationSearch)
      ensures View() == old(View())
    {
      if geolocationAvailable {
        return true;
      }
      error := Shown(NoGeolocationMessage, None);
      requested := false;
    }

    /** The position callback: writes the box around the position, then
        asks for a reverse geocode of it, or draws at once when the search
        manager is not available. */
    method OnPosition(latitude: real, longitude: real, stringify: seq<real> -> string,
                      searchAvailable: bool, parse: string -> ParseOutcome, intersects: (Shape, Shape) -> bool)
      returns (reverseAt: Option<Location>, threw: bool)
      requires Valid()
      modifies this
      ensures Valid()
      ensures bbox == stringify(PositionBox(latitude, longitude))
      ensures polygon == old(polygon) && locationSearch == old(locationSearch) && error == old(error)
      ensures reverseAt == if searchAvailable then Some(Location(Defined(JNumber(latitude)), Defined(JNumber(longitude)))) else None
      ensures searchAvailable ==> View() == old(View()) && !threw
      ensures !searchAvailable ==>
        && View() == AfterDraw(old(View()), Draw(bbox, polygon, parse, intersects))
        && (threw <==> Draw(bbox, polygon, parse, intersects).Aborted?)
    {
      bbox := stringify(PositionBox(latitude, longitude));
      if searchAvailable {
        return Some(Location(Defined(JNumber(latitude)), Defined(JNumber(longitude)))), false;
      }
      reverseAt := None;
      threw := DrawShapes(parse, intersects);
    }

    /** The position error callback. */
    method OnPositionError()
      requires Valid()
      modifies this
      ensures Valid()
      ensures error == Shown(NoPositionMessage, None)
      ensures bbox == old(bbox) && polygon == old(polygon) && locationSearch == old(locationSearch)
      ensures View() == old(View())
    {
      error := Shown(NoPositionMessage, None);
    }

    /** The reverse geocoder's `callback`: every outcome draws; a result
        outside England shows an error, an accepted one fills the search
        field and clears the error. */
    method OnReverseGeocode(res: Option<Utils.GeoResult>, parse: string -> ParseOutcome,
                            intersects: (Shape, Shape) -> bool)
      returns (threw: bool)
      requires Valid()
      modifies this
      ensures Valid()
      ensures bbox == old(bbox) && polygon == old(polygon)
      ensures View() == AfterDraw(old(View()), Draw(bbox, polygon, parse, intersects))
      ensures threw <==> Draw(bbox, polygon, parse, intersects).Aborted?
      ensures !Utils.IsResultInEngland(res) ==>
        error == Shown(PositionOutsideMessage, None) && locationSearch == old(locationSearch)
      ensures Utils.IsResultInEngland(res) ==>
        error == NoError && locationSearch == ReverseGeocodeLabel(res.value, old(locationSearch))
    {
      SameVerdictAsUtils(res);
      if !IsResultInEngland(res) {
        error := Shown(PositionOutsideMessage, None);
        threw := DrawShapes(parse, intersects);
        return;
      }
      var r := res.value;
      if Utils.Truthy(r.name) {
        locationSearch := r.name.value;
      } else if r.address.Some? && Utils.Truthy(r.address.value.formattedAddress) {
        locationSearch := r.address.value.formattedAddress.value;
      }
      error := NoError;
      threw := DrawShapes(parse, intersects);
    }

    /** The reverse geocoder's `errorCallback`: draw anyway. */
    method OnReverseGeocodeError(parse: string -> ParseOutcome, intersects: (Shape, Shape) -> bool)
      returns (threw: bool)
      requires Valid()
      modifies this
      ensures Valid()
      ensures bbox == old(bbox) && polygon == old(polygon)
      ensures locationSearch == old(locationSearch) && error == old(error)
      ensures View() == AfterDraw(old(View()), Draw(bbox, polygon, parse, intersects))
      ensures threw <==> Draw(bbox, polygon, parse, intersects).Aborted?
    {
      threw := DrawShapes(parse, intersects);
    }
  }
}
