/** The logic of the frontend's map service (`services/googleMapsService.ts`)
    around the provider calls: language detection from the query text, the
    blank-input rule of city search, the route memo cache keyed by the two
    place ids, and the total over consecutive legs. The directions and places
    services are function parameters. */
module MapsService {
  import opened Common
  import opened FrontendTypes

  // ---------------------------------------------------------------------
  // detectLanguage

  predicate InRange(c: char, lo: int, hi: int) {
    lo <= c as int <= hi
  }

  /** A regular-expression class test `/[…]/.test(text)` over one or two
      code-point ranges (every range here lies in the basic plane, so code
      units and characters agree). */
  predicate HasInRanges(text: string, lo1: int, hi1: int, lo2: int, hi2: int) {
    exists i :: 0 <= i < |text| && (InRange(text[i], lo1, hi1) || InRange(text[i], lo2, hi2))
  }

  predicate HasKorean(text: string) { HasInRanges(text, 0x3131, 0x3163, 0xAC00, 0xD7A3) }
  predicate HasJapanese(text: string) { HasInRanges(text, 0x3040, 0x309F, 0x30A0, 0x30FF) }
  predicate HasChinese(text: string) { HasInRanges(text, 0x4E00, 0x9FFF, 0x4E00, 0x9FFF) }
  predicate HasArabic(text: string) { HasInRanges(text, 0x0600, 0x06FF, 0x0600, 0x06FF) }
  predicate HasCyrillic(text: string) { HasInRanges(text, 0x0400, 0x04FF, 0x0400, 0x04FF) }
  predicate HasGreek(text: string) { HasInRanges(text, 0x0370, 0x03FF, 0x0370, 0x03FF) }
  predicate HasThai(text: string) { HasInRanges(text, 0x0E00, 0x0E7F, 0x0E00, 0x0E7F) }
  predicate HasHebrew(text: string) { HasInRanges(text, 0x0590, 0x05FF, 0x0590, 0x05FF) }

  /** The accented class `[àá…ÿ]`: U+00E0..U+00FF without the division sign. */
  predicate IsAccented(c: char) {
    InRange(c, 0xE0, 0xFF) && c as int != 0xF7
  }

  /** Whether `c.toLowerCase()` is accented. The characters whose lower case
      falls in that class are the class itself, the Latin-1 capitals
      U+00C0..U+00DE without the multiplication sign, capital Y with
      diaeresis (U+0178) and the Ångström sign (U+212B). */
  predicate LowersToAccented(c: char) {
    IsAccented(c) ||
    (InRange(c, 0xC0, 0xDE) && c as int != 0xD7) ||
    c as int == 0x178 || c as int == 0x212B
  }

  /** `/[àá…ÿ]/.test(text.toLowerCase())`. */
  predicate HasAccent(text: string) {
    exists i :: 0 <= i < |text| && LowersToAccented(text[i])
  }

  /** The characters `\s` matches, and `trim` removes. */
  predicate IsJsWhitespace(c: char) {
    c as int in {0x09, 0x0A, 0x0B, 0x0C, 0x0D, 0x20, 0xA0, 0x1680, 0x2028, 0x2029, 0x202F, 0x205F, 0x3000, 0xFEFF} ||
    InRange(c, 0x2000, 0x200A)
  }

  /** ASCII letter case folding, as a case-insensitive pattern of ASCII
      letters compares. */
  function AsciiLower(c: char): (d: char)
    ensures 'A' <= c <= 'Z' ==> d as int == c as int + 32
    ensures !('A' <= c <= 'Z') ==> d == c
  {
    if 'A' <= c <= 'Z' then (c as int + 32) as char else c
  }

  /** `/^word\s/i` for a lower-case `word`. */
  predicate StartsWithWord(text: string, word: string) {
    |word| < |text| &&
    (forall k :: 0 <= k < |word| ==> AsciiLower(text[k]) == word[k]) &&
    IsJsWhitespace(text[|word|])
  }

  /** `/^(w1|w2|…)\s/i`. */
  predicate StartsWithAnyWord(text: string, words: seq<string>) {
    exists w :: w in words && StartsWithWord(text, w)
  }

  const FrenchWords: seq<string> := ["le", "la", "les", "un", "une", "des", "de", "du"]
  const SpanishWords: seq<string> := ["el", "la", "los", "las", "un", "una"]
  const PortugueseWords: seq<string> := ["o", "a", "os", "as", "um", "uma"]
  const ItalianWords: seq<string> := ["il", "lo", "la", "i", "gli", "le", "un", "uno", "una"]
  const GermanWords: seq<string> := ["der", "die", "das", "den", "dem", "des", "ein", "eine"]

  /** The language codes `detectLanguage` answers with. */
  const LanguageCodes: set<string> := {"ko", "ja", "zh", "ar", "ru", "el", "th", "he", "fr", "es", "pt", "it", "de", "en"}

  /** `detectLanguage`: "en" for the empty text; otherwise the first script
      present in the order ko, ja, zh, ar, ru, el, th, he; otherwise, for a
      text with an accented letter, the first language whose articles begin
      it in the order fr, es, pt, it, de; otherwise "en". */
  function DetectLanguage(text: string): (lang: string)
    ensures lang in LanguageCodes
    ensures text == "" ==> lang == "en"
    ensures HasKorean(text) ==> lang == "ko"
    ensures !HasAccent(text) && lang in {"fr", "es", "pt", "it", "de"} ==> false
    ensures lang == "en" ==> text == "" || !HasAccent(text) || !StartsWithAnyWord(text, FrenchWords)
  {
    if text == "" then "en"
    else if HasKorean(text) then "ko"
    else if HasJapanese(text) then "ja"
    else if HasChinese(text) then "zh"
    else if HasArabic(text) then "ar"
    else if HasCyrillic(text) then "ru"
    else if HasGreek(text) then "el"
    else if HasThai(text) then "th"
    else if HasHebrew(text) then "he"
    else if HasAccent(text) && StartsWithAnyWord(text, FrenchWords) then "fr"
    else if HasAccent(text) && StartsWithAnyWord(text, SpanishWords) then "es"
    else if HasAccent(text) && StartsWithAnyWord(text, PortugueseWords) then "pt"
    else if HasAccent(text) && StartsWithAnyWord(text, ItalianWords) then "it"
    else if HasAccent(text) && StartsWithAnyWord(text, GermanWords) then "de"
    else "en"
  }

  /** Text made of ASCII characters only is English: no script range and no
      accented letter lies below 128. */
  lemma AsciiIsEnglish(text: string)
    requires forall i :: 0 <= i < |text| ==> text[i] as int < 128
    ensures DetectLanguage(text) == "en"
  {
    assert !HasKorean(text) && !HasJapanese(text) && !HasChinese(text) && !HasArabic(text);
    assert !HasCyrillic(text) && !HasGreek(text) && !HasThai(text) && !HasHebrew(text);
    assert !HasAccent(text);
  }

  /** Scripts win over articles: a Cyrillic text that also has accents and
      begins with a French article is Russian unless an earlier script is
      present. */
  lemma ScriptBeforeArticles(text: string)
    requires HasCyrillic(text)
    requires !HasKorean(text) && !HasJapanese(text) && !HasChinese(text) && !HasArabic(text)
    ensures DetectLanguage(text) == "ru"
  {
    assert text != [];
  }

  /** Below the Greek block no script test can fire, so a text there with
      an accented letter that begins with "la " is French, though "la" is
      also a Spanish and an Italian article: the order of the tests
      decides. */
  lemma SharedArticleGoesFrench(text: string)
    requires forall i :: 0 <= i < |text| ==> text[i] as int < 0x370
    requires |text| >= 3 && text[..3] == "la " && HasAccent(text)
    ensures DetectLanguage(text) == "fr"
  {
    assert text[0] == 'l' && text[1] == 'a' && text[2] == ' ';
    assert StartsWithWord(text, "la");
    assert "la" in FrenchWords;
  }

  // ---------------------------------------------------------------------
  // searchCityAutocomplete

  /** `!input.trim()`: nothing but white space. */
  predicate IsBlank(input: string) {
    forall i :: 0 <= i < |input| ==> IsJsWhitespace(input[i])
  }

  /** A text-search hit: each field may be missing. */
  datatype PlaceHit = PlaceHit(id: Option<string>, displayName: Option<string>, formattedAddress: Option<string>)

  datatype CityResult = CityResult(description: string, placeId: string)

  /** JavaScript's `a || b` on optional strings: the first that is present
      and not empty. */
  function OrElse(a: Option<string>, b: string): (s: string)
    ensures a.Some? && a.value != "" ==> s == a.value
    ensures (a.None? || a.value == "") ==> s == b
  {
    if a.Some? && a.value != "" then a.value else b
  }

  function ToCity(h: PlaceHit): (c: CityResult)
    ensures c.placeId == OrElse(h.id, "")
    ensures c.description == OrElse(h.formattedAddress, OrElse(h.displayName, ""))
  {
    CityResult(OrElse(h.formattedAddress, OrElse(h.displayName, "")), OrElse(h.id, ""))
  }

  datatype SearchError = NotInitialized | SearchFailed

  /** `searchCityAutocomplete`: blank input gives no results and reaches no
      service; without the places library it fails; otherwise the text
      search (`search(text, language)`, None for a failure) runs in the
      detected language and each hit becomes a city. */
  function SearchCityAutocomplete(input: string, placesLoaded: bool,
                                  search: (string, string) -> Option<seq<PlaceHit>>): (r: Result<seq<CityResult>, SearchError>)
    ensures IsBlank(input) ==> r == Ok([])
    ensures !IsBlank(input) && !placesLoaded ==> r == Err(NotInitialized)
    ensures !IsBlank(input) && placesLoaded ==>
      match search(input, DetectLanguage(input))
      case None => r == Err(SearchFailed)
      case Some(hits) =>
        (r.Ok? && |r.value| == |hits| && forall k :: 0 <= k < |hits| ==> r.value[k] == ToCity(hits[k]))
  {
    if IsBlank(input) then Ok([])
    else if !placesLoaded then Err(NotInitialized)
    else
      match search(input, DetectLanguage(input))
      case None => Err(SearchFailed)
      case Some(hits) => Ok(seq(|hits|, k requires 0 <= k < |hits| => ToCity(hits[k])))
  }

  // ---------------------------------------------------------------------
  // calculateRoute and its memo cache

  /** A cached route: duration in minutes, distance in kilometres. */
  datatype RouteEntry = RouteEntry(fromPlaceId: string, toPlaceId: string, duration: int, distance: real)

  /** The first leg of a directions answer; either value may be missing. */
  datatype Leg = Leg(durationSeconds: Option<int>, distanceMeters: Option<real>)

  /** The cache key `${fromPlaceId}-${toPlaceId}`. */
  function CacheKey(fromPlaceId: string, toPlaceId: string): (k: string)
    ensures |k| == |fromPlaceId| + 1 + |toPlaceId|
    ensures k[|fromPlaceId|] == '-'
  {
    fromPlaceId + "-" + toPlaceId
  }

  /** Two pairs of ids without '-' in the first id never share a key. */
  lemma CacheKeyInjective(a: string, b: string, c: string, d: string)
    requires '-' !in a && '-' !in c
    requires CacheKey(a, b) == CacheKey(c, d)
    ensures a == c && b == d
  {
    var k := CacheKey(a, b);
    if |a| < |c| {
      assert false;
    } else if |c| < |a| {
      assert false;
    }
    assert a == k[..|a|] == c;
    assert b == k[|a| + 1..] == d;
  }

  /** A '-' inside a place id lets two different pairs share a key, and so
      one cached route. */
  lemma CacheKeyCollision()
    ensures CacheKey("a-b", "c") == CacheKey("a", "b-c")
  {
  }

  /** `Math.ceil(seconds / 60)` for whole seconds. */
  function CeilMinutes(seconds: int): (m: int)
    ensures 60 * (m - 1) < seconds <= 60 * m
  {
    if seconds % 60 == 0 then seconds / 60 else seconds / 60 + 1
  }

  /** The entry built from a directions answer: a missing value counts 0;
      the distance's two-decimal rounding is not modelled. */
  function EntryOf(leg: Leg, fromPlaceId: string, toPlaceId: string): (e: RouteEntry)
    ensures e.fromPlaceId == fromPlaceId && e.toPlaceId == toPlaceId
    ensures 60 * (e.duration - 1) < leg.durationSeconds.GetOr(0) <= 60 * e.duration
    ensures e.distance == leg.distanceMeters.GetOr(0.0) / 1000.0
  {
    RouteEntry(fromPlaceId, toPlaceId, CeilMinutes(leg.durationSeconds.GetOr(0)), leg.distanceMeters.GetOr(0.0) / 1000.0)
  }

  /** The directions service: the first leg for a walking request between
      two locations, or None when the status is not OK. */
  type Directions = (Location, Location) -> Option<Leg>

  /** Whether the directions service answers the leg between two places. */
  predicate LegAnswered(directions: Directions, p: Place, q: Place) {
    directions(Location(p.lat, p.lng), Location(q.lat, q.lng)).Some?
  }

  /** The module-level `routeCache`. */
  class RouteMemo {
    var cache: map<string, RouteEntry>

    /** Every entry sits under the key of its own two ids, both non-empty. */
    ghost predicate Valid()
      reads this
    {
      forall k :: k in cache ==>
        cache[k].fromPlaceId != "" && cache[k].toPlaceId != "" &&
        k == CacheKey(cache[k].fromPlaceId, cache[k].toPlaceId)
    }

    constructor()
      ensures Valid() && cache == map[]
    {
      cache := map[];
    }

    /** `calculateRoute`: with both ids given and an entry under their key,
        that entry, and the service is not asked. Otherwise the service is
        asked: a failure is an error and leaves the cache as it was; a
        success gives the new entry, stored under the key when both ids are
        given. Missing ids are empty strings. `asked` says whether the
        service was consulted. */
    method CalculateRoute(directions: Directions, from: Location, to: Location,
                          fromPlaceId: string, toPlaceId: string)
      returns (r: Result<RouteEntry, string>, ghost asked: bool)
      requires Valid()
      modifies this
      ensures Valid()
      ensures var key := CacheKey(fromPlaceId, toPlaceId);
        if fromPlaceId != "" && toPlaceId != "" && key in old(cache) then
          !asked && r == Ok(old(cache)[key]) && cache == old(cache)
        else
          asked &&
          match directions(from, to)
          case None => r.Err? && cache == old(cache)
          case Some(leg) =>
            r == Ok(EntryOf(leg, fromPlaceId, toPlaceId)) &&
            cache == if fromPlaceId != "" && toPlaceId != "" then old(cache)[key := r.value] else old(cache)
      ensures fromPlaceId != "" && toPlaceId != "" && r.Ok? ==>
        CacheKey(fromPlaceId, toPlaceId) in cache && cache[CacheKey(fromPlaceId, toPlaceId)] == r.value
      ensures Grows(old(cache), cache)
    {
      if fromPlaceId != "" && toPlaceId != "" {
        var cacheKey := CacheKey(fromPlaceId, toPlaceId);
        if cacheKey in cache {
          r, asked := Ok(cache[cacheKey]), false;
          return;
        }
      }
      asked := true;
      var answer := directions(from, to);
      if answer.None? {
        return Err("Directions request failed"), asked;
      }
      var routeData := EntryOf(answer.value, fromPlaceId, toPlaceId);
      if fromPlaceId != "" && toPlaceId != "" {
        cache := cache[CacheKey(fromPlaceId, toPlaceId) := routeData];
      }
      r := Ok(routeData);
    }

    /** `calculateTotalRoute`: zero for no places; otherwise the sums over
        the legs between consecutive places, each asked of `CalculateRoute`
        (so through the cache), with no start leg. A failed leg fails the
        whole total, and only a leg the service refuses fails (a cached leg
        is served without asking). `legs` are the entries the legs were
        served. */
    method CalculateTotalRoute(directions: Directions, places: seq<Place>)
      returns (r: Result<RouteSummary, string>, ghost legs: seq<RouteEntry>)
      requires Valid()
      modifies this
      ensures Valid() && Grows(old(cache), cache)
      ensures |places| == 0 ==> r == Ok(RouteSummary(0.0, 0.0))
      ensures r.Ok? && |places| > 0 ==>
        |legs| == |places| - 1 &&
        r.value == RouteSummary(SumInts(LegDurations(legs)) as real, SumReals(LegDistances(legs))) &&
        forall i :: 0 <= i < |legs| ==> LegServed(directions, cache, places[i], places[i + 1], legs[i])
      ensures r.Err? ==> exists i :: 0 <= i < |places| - 1 && !LegAnswered(directions, places[i], places[i + 1])
      ensures (forall i :: 0 <= i < |places| - 1 ==> LegAnswered(directions, places[i], places[i + 1])) ==> r.Ok?
    {
      legs := [];
      if |places| == 0 {
        return Ok(RouteSummary(0.0, 0.0)), legs;
      }
      var totalDuration := 0;
      var totalDistance := 0.0;
      for i := 0 to |places| - 1
        invariant Valid() && Grows(old(cache), cache)
        invariant |legs| == i
        invariant totalDuration == SumInts(LegDurations(legs)) && totalDistance == SumReals(LegDistances(legs))
        invariant forall j :: 0 <= j < i ==> LegServed(directions, cache, places[j], places[j + 1], legs[j])
      {
        ghost var before := cache;
        var route, asked := CalculateRoute(directions, Location(places[i].lat, places[i].lng),
                                           Location(places[i + 1].lat, places[i + 1].lng),
                                           places[i].placeId, places[i + 1].placeId);
        if route.Err? {
          assert !LegAnswered(directions, places[i], places[i + 1]);
          return Err(route.error), legs;
        }
        forall j | 0 <= j < i
          ensures LegServed(directions, cache, places[j], places[j + 1], legs[j])
        {
          LegServedGrows(directions, before, cache, places[j], places[j + 1], legs[j]);
        }
        LegsSnoc(legs, route.value);
        legs := legs + [route.value];
        totalDuration := totalDuration + route.value.duration;
        totalDistance := totalDistance + route.value.distance;
      }
      r := Ok(RouteSummary(totalDuration as real, totalDistance));
    }

    /** `clearRouteCache`. */
    method Clear()
      modifies this
      ensures Valid() && cache == map[]
    {
      cache := map[];
    }
  }

  /** Entries once stored stay as they were. */
  ghost predicate Grows(before: map<string, RouteEntry>, after: map<string, RouteEntry>) {
    forall k :: k in before ==> k in after && after[k] == before[k]
  }

  /** The entry a leg from p to q was served: the cached one under their key
      when both ids are given, else the one built from the service's
      answer. */
  ghost predicate LegServed(directions: Directions, cache: map<string, RouteEntry>, p: Place, q: Place, e: RouteEntry) {
    if p.placeId != "" && q.placeId != "" then
      CacheKey(p.placeId, q.placeId) in cache && cache[CacheKey(p.placeId, q.placeId)] == e
    else
      directions(Location(p.lat, p.lng), Location(q.lat, q.lng)).Some? &&
      e == EntryOf(directions(Location(p.lat, p.lng), Location(q.lat, q.lng)).value, p.placeId, q.placeId)
  }

  lemma LegServedGrows(directions: Directions, before: map<string, RouteEntry>, after: map<string, RouteEntry>,
                       p: Place, q: Place, e: RouteEntry)
    requires LegServed(directions, before, p, q, e) && Grows(before, after)
    ensures LegServed(directions, after, p, q, e)
  {
  }

  function LegDurations(legs: seq<RouteEntry>): (r: seq<int>)
    ensures |r| == |legs| && forall k :: 0 <= k < |legs| ==> r[k] == legs[k].duration
  {
    seq(|legs|, k requires 0 <= k < |legs| => legs[k].duration)
  }

  function LegDistances(legs: seq<RouteEntry>): (r: seq<real>)
    ensures |r| == |legs| && forall k :: 0 <= k < |legs| ==> r[k] == legs[k].distance
  {
    seq(|legs|, k requires 0 <= k < |legs| => legs[k].distance)
  }

  lemma LegsSnoc(legs: seq<RouteEntry>, e: RouteEntry)
    ensures SumInts(LegDurations(legs + [e])) == SumInts(LegDurations(legs)) + e.duration
    ensures SumReals(LegDistances(legs + [e])) == SumReals(LegDistances(legs)) + e.distance
  {
    assert LegDurations(legs + [e])[..|legs|] == LegDurations(legs);
    assert LegDistances(legs + [e])[..|legs|] == LegDistances(legs);
  }
}
