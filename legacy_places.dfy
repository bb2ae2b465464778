/** old/main_google_places_scraper.py: the earlier statewide Google Places scraper.
    One seen set is shared by every state and every keyword. The geocoder, the
    nearby search and the details lookup are parameters. */
module LegacyPlacesScraper {
  import opened Text
  import opened Optional
  import opened PlacesOneLocation
  import ConfigOsm
  import Dedup

  /** The keyword chain of `get_naics_code_from_types`, in its order. */
  const LegacyChain: seq<(string, string)> := [
    ("frozen", "424420"), ("dairy", "424430"), ("seafood", "424460"), ("meat", "424470"),
    ("fruit", "424480"), ("vegetable", "424480"), ("grocery", "424410")
  ]

  /** `get_naics_code_from_types`: inside the wholesale branch the narrower if/elif
      chain; outside it the code of the first mapped type, or "". */
  function GetNaicsCodeFromTypes(types: seq<string>, name: string): (r: string)
    ensures !MentionsWholesale(TypesNameBlob(types, name)) ==> r == RetailCode(types)
  {
    var keywords := TypesNameBlob(types, name);
    if Contains(keywords, "wholesale") || Contains(keywords, "distributor") then
      if Contains(keywords, "frozen") then "424420"
      else if Contains(keywords, "dairy") then "424430"
      else if Contains(keywords, "seafood") then "424460"
      else if Contains(keywords, "meat") then "424470"
      else if Contains(keywords, "fruit") || Contains(keywords, "vegetable") then "424480"
      else if Contains(keywords, "grocery") then "424410"
      else "424490"
    else RetailCode(types)
  }

  /** Inside the wholesale branch the chain is a first match over its own ordered
      table, with 424490 as the fallback. */
  lemma LegacyIsFirstMatch(types: seq<string>, name: string)
    requires MentionsWholesale(TypesNameBlob(types, name))
    ensures GetNaicsCodeFromTypes(types, name)
            == ConfigOsm.FirstKeywordCode(LegacyChain, TypesNameBlob(types, name), ConfigOsm.DefaultWholesaleNaics)
  {
    var kw := TypesNameBlob(types, name);
    var t := LegacyChain;
    var i := ConfigOsm.FirstKeywordIndex(t, kw);
    assert t[0].0 == "frozen" && t[1].0 == "dairy" && t[2].0 == "seafood" && t[3].0 == "meat";
    assert t[4].0 == "fruit" && t[5].0 == "vegetable" && t[6].0 == "grocery";
  }

  /** Outside the wholesale branch the legacy and the newer classifier agree. */
  lemma LegacyAgreesOnRetail(types: seq<string>, name: string)
    requires !MentionsWholesale(TypesNameBlob(types, name))
    ensures GetNaicsCodeFromTypes(types, name) == InferNaicsAndSegment(name, types).0
  {
  }

  /** A wholesale place whose text names none of the legacy keywords but names
      "fish", "poultry", "produce" or "general line" gets the fallback 424490 here,
      where the newer chain gives a specific code. */
  lemma LegacyMissesNewerKeywords(types: seq<string>, name: string)
    requires MentionsWholesale(TypesNameBlob(types, name))
    requires forall e :: e in LegacyChain ==> !Contains(TypesNameBlob(types, name), e.0)
    requires var b := TypesNameBlob(types, name);
             Contains(b, "fish") || Contains(b, "poultry") || Contains(b, "produce") || Contains(b, "general line")
    ensures GetNaicsCodeFromTypes(types, name) == "424490"
    ensures InferNaicsAndSegment(name, types).0 in {"424460", "424470", "424480", "424410"}
  {
    var b := TypesNameBlob(types, name);
    LowerOfLowerCase(b);
    assert LegacyChain[0] in LegacyChain && LegacyChain[1] in LegacyChain && LegacyChain[2] in LegacyChain;
    assert LegacyChain[3] in LegacyChain && LegacyChain[4] in LegacyChain && LegacyChain[5] in LegacyChain;
    assert LegacyChain[6] in LegacyChain;
  }

  /** When the text names none of the newer chain's extra keywords, the two chains
      pick the same code. */
  lemma LegacyAgreesWithoutNewerKeywords(types: seq<string>, name: string)
    requires MentionsWholesale(TypesNameBlob(types, name))
    requires var b := TypesNameBlob(types, name);
             !Contains(b, "fish") && !Contains(b, "poultry") && !Contains(b, "produce")
             && !Contains(b, "general line") && !Contains(b, "food service")
    ensures GetNaicsCodeFromTypes(types, name) == InferNaicsAndSegment(name, types).0
  {
    LowerOfLowerCase(TypesNameBlob(types, name));
  }

  /** A search result with the state and the keyword whose search returned it. */
  datatype LegacyHit = LegacyHit(state: string, keyword: string, result: PlaceResult)

  function LegacyKey(h: LegacyHit): string {
    match h.result.placeId
    case Some(pid) => pid
    case None => ""
  }

  /** One output row of the statewide file. */
  datatype LegacyRow = LegacyRow(
    state: string,
    category: string,
    name: string,
    address: Option<string>,
    phone: Option<string>,
    website: Option<string>,
    lat: real,
    lng: real,
    rating: Option<real>,
    userRatings: Option<int>,
    placeId: string,
    types: string,
    naics: string)

  function BuildLegacyRow(details: string -> Details, h: LegacyHit): (row: LegacyRow)
    ensures row.placeId == LegacyKey(h) && row.state == h.state && row.category == h.keyword
    ensures row.naics == GetNaicsCodeFromTypes(h.result.types, h.result.name)
    ensures row.address == AddressOf(details(LegacyKey(h)), h.result)
  {
    var r := h.result;
    var d := details(LegacyKey(h));
    LegacyRow(h.state, h.keyword, r.name, AddressOf(d, r), d.phone, d.website, r.lat, r.lng,
              r.rating, r.userRatingsTotal, LegacyKey(h), Join(r.types, ", "),
              GetNaicsCodeFromTypes(r.types, r.name))
  }

  function LegacyRows(details: string -> Details, hs: seq<LegacyHit>): (rows: seq<LegacyRow>)
    ensures |rows| == |hs|
    ensures forall i :: 0 <= i < |hs| ==> rows[i] == BuildLegacyRow(details, hs[i])
  {
    seq(|hs|, i requires 0 <= i < |hs| => BuildLegacyRow(details, hs[i]))
  }

  lemma LegacyRowsAppend(details: string -> Details, xs: seq<LegacyHit>, ys: seq<LegacyHit>)
    ensures LegacyRows(details, xs + ys) == LegacyRows(details, xs) + LegacyRows(details, ys)
  {
    var a, b := LegacyRows(details, xs + ys), LegacyRows(details, xs) + LegacyRows(details, ys);
    forall i | 0 <= i < |a| ensures a[i] == b[i] {
      if i < |xs| {
        assert (xs + ys)[i] == xs[i];
      } else {
        assert (xs + ys)[i] == ys[i - |xs|];
      }
    }
  }

  function LegacyWalk(hs: seq<LegacyHit>, seen: set<string>): (seq<LegacyHit>, set<string>) {
    Dedup.Scan(hs, LegacyKey, NonBlank, seen)
  }

  function TaggedLegacy(state: string, keyword: string, results: seq<PlaceResult>): (hs: seq<LegacyHit>)
    ensures |hs| == |results|
    ensures forall i :: 0 <= i < |hs| ==> hs[i] == LegacyHit(state, keyword, results[i])
  {
    seq(|results|, i requires 0 <= i < |results| => LegacyHit(state, keyword, results[i]))
  }

  /** `parse_results`: skips missing, empty or already-seen Place IDs, adds each
      accepted one to the shared set, one row per accepted result in order. */
  method ParseResults(results: seq<PlaceResult>, state: string, keyword: string,
                      seenPlaceIds: Dedup.IdSet, details: string -> Details)
    returns (parsed: seq<LegacyRow>)
    modifies seenPlaceIds
    ensures parsed == LegacyRows(details, LegacyWalk(TaggedLegacy(state, keyword, results), old(seenPlaceIds.ids)).0)
    ensures seenPlaceIds.ids == LegacyWalk(TaggedLegacy(state, keyword, results), old(seenPlaceIds.ids)).1
  {
    ghost var hs := TaggedLegacy(state, keyword, results);
    ghost var kept: seq<LegacyHit> := [];
    parsed := [];
    var i := 0;
    while i < |results|
      invariant 0 <= i <= |results|
      invariant (kept, seenPlaceIds.ids) == LegacyWalk(hs[..i], old(seenPlaceIds.ids))
      invariant parsed == LegacyRows(details, kept)
    {
      var h := LegacyHit(state, keyword, results[i]);
      assert hs[..i + 1][..i] == hs[..i] && hs[i] == h;
      var placeId := LegacyKey(h);
      if placeId != "" && placeId !in seenPlaceIds.ids {
        seenPlaceIds.ids := seenPlaceIds.ids + {placeId};
        parsed := parsed + [BuildLegacyRow(details, h)];
        kept := kept + [h];
      }
      i := i + 1;
    }
    assert hs[..i] == hs;
  }

  /** The hits of one geocoded state: keyword by keyword, in search order. */
  function StateHits(state: string, coords: (real, real), keywords: seq<string>,
                     fetch: ((real, real), string) -> seq<PlaceResult>): seq<LegacyHit> {
    Dedup.FlatMap(keywords, (kw: string) => TaggedLegacy(state, kw, fetch(coords, kw)))
  }

  /** The hits of one (state, city) entry: none when the city cannot be geocoded. */
  function StateOrNothing(entry: (string, string), keywords: seq<string>,
                          geocode: string -> Option<(real, real)>,
                          fetch: ((real, real), string) -> seq<PlaceResult>): seq<LegacyHit> {
    match geocode(entry.1)
    case None => []
    case Some(coords) => StateHits(entry.0, coords, keywords, fetch)
  }

  /** The hits of the whole run, state by state in table order; a state whose
      capital cannot be geocoded has none. */
  function RunHits(stateCities: seq<(string, string)>, keywords: seq<string>,
                   geocode: string -> Option<(real, real)>,
                   fetch: ((real, real), string) -> seq<PlaceResult>): seq<LegacyHit> {
    Dedup.FlatMap(stateCities, (entry: (string, string)) => StateOrNothing(entry, keywords, geocode, fetch))
  }

  /** One more step of a walk: the walk of `xs + ys` is the walk of `xs`, then the
      walk of `ys` from the set `xs` left, and the rows concatenate. */
  lemma WalkThen(details: string -> Details, xs: seq<LegacyHit>, ys: seq<LegacyHit>, seen: set<string>)
    ensures var first := LegacyWalk(xs, seen);
            var second := LegacyWalk(ys, first.1);
            && LegacyWalk(xs + ys, seen).1 == second.1
            && LegacyRows(details, LegacyWalk(xs + ys, seen).0) == LegacyRows(details, first.0) + LegacyRows(details, second.0)
  {
    Dedup.ScanAppend(xs, ys, LegacyKey, NonBlank, seen);
    var first := LegacyWalk(xs, seen);
    LegacyRowsAppend(details, first.0, LegacyWalk(ys, first.1).0);
  }

  /** The keyword loop of one state. */
  method SearchState(state: string, coords: (real, real), keywords: seq<string>,
                     fetch: ((real, real), string) -> seq<PlaceResult>, details: string -> Details,
                     seenPlaceIds: Dedup.IdSet)
    returns (rows: seq<LegacyRow>)
    modifies seenPlaceIds
    ensures rows == LegacyRows(details, LegacyWalk(StateHits(state, coords, keywords, fetch), old(seenPlaceIds.ids)).0)
    ensures seenPlaceIds.ids == LegacyWalk(StateHits(state, coords, keywords, fetch), old(seenPlaceIds.ids)).1
  {
    rows := [];
    var k := 0;
    while k < |keywords|
      invariant 0 <= k <= |keywords|
      invariant rows == LegacyRows(details, LegacyWalk(StateHits(state, coords, keywords[..k], fetch), old(seenPlaceIds.ids)).0)
      invariant seenPlaceIds.ids == LegacyWalk(StateHits(state, coords, keywords[..k], fetch), old(seenPlaceIds.ids)).1
    {
      var keyword := keywords[k];
      var results := fetch(coords, keyword);
      var data := ParseResults(results, state, keyword, seenPlaceIds, details);
      assert keywords[..k + 1][..k] == keywords[..k];
      WalkThen(details, StateHits(state, coords, keywords[..k], fetch), TaggedLegacy(state, keyword, results), old(seenPlaceIds.ids));
      rows := rows + data;
      k := k + 1;
    }
    assert keywords[..k] == keywords;
  }

  /** `main`, without the final CSV write: every state in table order, every
      keyword, one seen set for the whole run; states that cannot be geocoded are
      skipped. */
  method RunAllStates(stateCities: seq<(string, string)>, keywords: seq<string>,
                      geocode: string -> Option<(real, real)>,
                      fetch: ((real, real), string) -> seq<PlaceResult>, details: string -> Details)
    returns (allData: seq<LegacyRow>)
    ensures allData == LegacyRows(details, LegacyWalk(RunHits(stateCities, keywords, geocode, fetch), {}).0)
  {
    var seenPlaceIds := new Dedup.IdSet();
    allData := [];
    var s := 0;
    while s < |stateCities|
      invariant 0 <= s <= |stateCities|
      invariant allData == LegacyRows(details, LegacyWalk(RunHits(stateCities[..s], keywords, geocode, fetch), {}).0)
      invariant seenPlaceIds.ids == LegacyWalk(RunHits(stateCities[..s], keywords, geocode, fetch), {}).1
    {
      var state, city := stateCities[s].0, stateCities[s].1;
      assert stateCities[..s + 1][..s] == stateCities[..s];
      assert RunHits(stateCities[..s + 1], keywords, geocode, fetch)
             == RunHits(stateCities[..s], keywords, geocode, fetch) + StateOrNothing(stateCities[s], keywords, geocode, fetch);
      var coords := geocode(city);
      if coords.None? {
        assert RunHits(stateCities[..s], keywords, geocode, fetch) + [] == RunHits(stateCities[..s], keywords, geocode, fetch);
      } else {
        var data := SearchState(state, coords.value, keywords, fetch, details, seenPlaceIds);
        WalkThen(details, RunHits(stateCities[..s], keywords, geocode, fetch), StateHits(state, coords.value, keywords, fetch), {});
        allData := allData + data;
      }
      s := s + 1;
    }
    assert stateCities[..s] == stateCities;
  }

  /** A place is emitted at most once per run, and never with a blank Place ID. */
  lemma RunEmitsEachPlaceOnce(stateCities: seq<(string, string)>, keywords: seq<string>,
                              geocode: string -> Option<(real, real)>,
                              fetch: ((real, real), string) -> seq<PlaceResult>, details: string -> Details)
    ensures var rows := LegacyRows(details, LegacyWalk(RunHits(stateCities, keywords, geocode, fetch), {}).0);
            && (forall i, j :: 0 <= i < j < |rows| ==> rows[i].placeId != rows[j].placeId)
            && (forall i :: 0 <= i < |rows| ==> rows[i].placeId != "")
  {
    var kept := LegacyWalk(RunHits(stateCities, keywords, geocode, fetch), {}).0;
    var rows := LegacyRows(details, kept);
    forall i, j | 0 <= i < j < |rows|
      ensures rows[i].placeId != rows[j].placeId
    {
      assert rows[i].placeId == LegacyKey(kept[i]) && rows[j].placeId == LegacyKey(kept[j]);
    }
  }

  /** A state whose capital cannot be geocoded contributes nothing and changes
      nothing for the states around it. */
  lemma SkippedStateContributesNothing(xs: seq<(string, string)>, state: string, city: string,
                                       ys: seq<(string, string)>, keywords: seq<string>,
                                       geocode: string -> Option<(real, real)>,
                                       fetch: ((real, real), string) -> seq<PlaceResult>)
    requires geocode(city).None?
    ensures RunHits(xs + [(state, city)] + ys, keywords, geocode, fetch) == RunHits(xs + ys, keywords, geocode, fetch)
  {
    var f := (entry: (string, string)) => StateOrNothing(entry, keywords, geocode, fetch);
    Dedup.FlatMapAppend(xs + [(state, city)], ys, f);
    Dedup.FlatMapAppend(xs, [(state, city)], f);
    Dedup.FlatMapAppend(xs, ys, f);
    assert [(state, city)][..0] == [];
    assert Dedup.FlatMap([(state, city)], f) == [];
  }
}
