/** places_one_location.py: Google Places search results around one location,
    classified and de-duplicated by Place ID across all keyword searches. The
    geocoder, the paginated nearby search and the details lookup are not modelled;
    their answers are parameters. */
module PlacesOneLocation {
  import opened Text
  import opened Optional
  import opened Segments
  import ConfigOsm
  import Dedup

  /** `GOOGLE_TYPE_TO_NAICS` (the legacy scraper carries the same table). */
  const GoogleTypeToNaics: map<string, string> := map[
    "grocery_or_supermarket" := "445110",
    "convenience_store" := "445120",
    "clothing_store" := "448140",
    "department_store" := "452210",
    "electronics_store" := "443142",
    "furniture_store" := "442110",
    "hardware_store" := "444130",
    "liquor_store" := "445310",
    "pet_store" := "453910",
    "pharmacy" := "446110",
    "restaurant" := "722511",
    "shoe_store" := "448210",
    "supermarket" := "445110"
  ]

  /** Position of the first type of `types` that has a code, or `|types|`. */
  function FirstMappedType(types: seq<string>): (i: nat)
    ensures i <= |types|
    ensures forall j :: 0 <= j < i ==> types[j] !in GoogleTypeToNaics
    ensures i < |types| ==> types[i] in GoogleTypeToNaics
  {
    if types == [] then 0
    else if types[0] in GoogleTypeToNaics then 0
    else 1 + FirstMappedType(types[1..])
  }

  /** The `for t in types: if t in GOOGLE_TYPE_TO_NAICS: return ...` loop; "" when no
      type has a code. */
  function RetailCode(types: seq<string>): (r: string)
    ensures r == "" <==> forall t :: t in types ==> t !in GoogleTypeToNaics
    ensures r != "" ==> exists t :: t in types && t in GoogleTypeToNaics && GoogleTypeToNaics[t] == r
  {
    var i := FirstMappedType(types);
    if i < |types| then
      assert GoogleTypeToNaics[types[i]] != "";
      GoogleTypeToNaics[types[i]]
    else ""
  }

  /** The keyword chain of `detect_wholesale_naics_from_keywords`, in its order. */
  const WholesaleChain: seq<(string, string)> := [
    ("frozen", "424420"), ("dairy", "424430"),
    ("seafood", "424460"), ("fish", "424460"),
    ("meat", "424470"), ("poultry", "424470"),
    ("fruit", "424480"), ("vegetable", "424480"), ("produce", "424480"),
    ("grocery", "424410"), ("general line", "424410"), ("food service", "424410")
  ]

  /** `detect_wholesale_naics_from_keywords`, the hard-coded if-chain over the
      lower-cased text. A specific code comes out only when one of its own keywords
      occurs in the text; otherwise the result is the fallback 424490. */
  function DetectWholesaleNaicsFromKeywords(keywords: string): (r: string)
    ensures r == "424490"
            || exists i :: 0 <= i < |WholesaleChain| && WholesaleChain[i].1 == r && Contains(Lower(keywords), WholesaleChain[i].0)
  {
    var kw := Lower(keywords);
    var t := WholesaleChain;
    assert t[0] == ("frozen", "424420") && t[1] == ("dairy", "424430");
    assert t[2] == ("seafood", "424460") && t[3] == ("fish", "424460");
    assert t[4] == ("meat", "424470") && t[5] == ("poultry", "424470");
    assert t[6] == ("fruit", "424480") && t[7] == ("vegetable", "424480") && t[8] == ("produce", "424480");
    assert t[9] == ("grocery", "424410") && t[10] == ("general line", "424410") && t[11] == ("food service", "424410");
    if Contains(kw, "frozen") then "424420"
    else if Contains(kw, "dairy") then "424430"
    else if Contains(kw, "seafood") || Contains(kw, "fish") then "424460"
    else if Contains(kw, "meat") || Contains(kw, "poultry") then "424470"
    else if Contains(kw, "fruit") || Contains(kw, "vegetable") || Contains(kw, "produce") then "424480"
    else if Contains(kw, "grocery") || Contains(kw, "general line") || Contains(kw, "food service") then "424410"
    else "424490"
  }

  /** The chain is a first match over an ordered keyword table, with 424490 as the
      fallback. */
  lemma DetectIsFirstMatch(keywords: string)
    ensures DetectWholesaleNaicsFromKeywords(keywords)
            == ConfigOsm.FirstKeywordCode(WholesaleChain, Lower(keywords), ConfigOsm.DefaultWholesaleNaics)
  {
    var kw := Lower(keywords);
    var t := WholesaleChain;
    var i := ConfigOsm.FirstKeywordIndex(t, kw);
    assert t[0].0 == "frozen" && t[1].0 == "dairy" && t[2].0 == "seafood" && t[3].0 == "fish";
    assert t[4].0 == "meat" && t[5].0 == "poultry" && t[6].0 == "fruit" && t[7].0 == "vegetable";
    assert t[8].0 == "produce" && t[9].0 == "grocery" && t[10].0 == "general line" && t[11].0 == "food service";
  }

  /** The fallback 424490 comes out exactly when none of the chain's keywords occurs
      in the lower-cased text. */
  lemma DetectFallsBackWithoutKeyword(keywords: string)
    ensures DetectWholesaleNaicsFromKeywords(keywords) == "424490"
            <==> forall i :: 0 <= i < |WholesaleChain| ==> !Contains(Lower(keywords), WholesaleChain[i].0)
  {
    DetectIsFirstMatch(keywords);
    var i := ConfigOsm.FirstKeywordIndex(WholesaleChain, Lower(keywords));
    assert forall j :: 0 <= j < |WholesaleChain| ==> WholesaleChain[j].1 != "424490";
  }

  /** That table is exactly the first twelve entries of the OpenStreetMap collector's
      keyword table, so the two collectors agree whenever one of them matches. */
  lemma ChainIsPrefixOfOsmTable()
    ensures WholesaleChain == ConfigOsm.WholesaleKeywordToNaics[..12]
  {
  }

  /** Every code in the chain's table is a wholesale (sector 42) code. */
  lemma ChainCodesInSector42()
    ensures forall i :: 0 <= i < |WholesaleChain| ==> ConfigOsm.IsNaicsIn(WholesaleChain[i].1, "42")
  {
    ChainIsPrefixOfOsmTable();
    ConfigOsm.WholesaleCodesInSector42();
  }

  /** The chain's codes are wholesale (sector 42) codes. */
  lemma DetectIsWholesaleCode(keywords: string)
    ensures ConfigOsm.IsNaicsIn(DetectWholesaleNaicsFromKeywords(keywords), "42")
  {
    DetectIsFirstMatch(keywords);
    ChainCodesInSector42();
    ConfigOsm.WholesaleCodesInSector42();
    ConfigOsm.FirstKeywordCodeInSector(WholesaleChain, Lower(keywords), ConfigOsm.DefaultWholesaleNaics, "42");
  }

  /** The text both Google classifiers search: the types joined by spaces, a space and
      the name, lower-cased. */
  function TypesNameBlob(types: seq<string>, name: string): string {
    Lower(Join(types, " ")) + " " + Lower(name)
  }

  predicate MentionsWholesale(blob: string) {
    Contains(blob, "wholesale") || Contains(blob, "distributor")
  }

  lemma MerchantWholesalerIsWholesale(s: string)
    requires Contains(s, "merchant wholesaler")
    ensures Contains(s, "wholesale")
  {
    assert "merchant wholesaler"[9..18] == "wholesale";
    ContainsPart(s, "merchant wholesaler", 9, "wholesale");
  }

  /** `infer_naics_and_segment`: wholesale iff the blob mentions "wholesale" or
      "distributor", with the chain's code; otherwise retail with the code of the
      first mapped type, or "". */
  function InferNaicsAndSegment(name: string, types: seq<string>): (r: (string, Segment))
    ensures r.1 == Wholesale <==> MentionsWholesale(TypesNameBlob(types, name))
    ensures r.1 == Wholesale ==> r.0 == DetectWholesaleNaicsFromKeywords(TypesNameBlob(types, name))
    ensures r.1 == Retail ==> r.0 == RetailCode(types)
  {
    var blob := TypesNameBlob(types, name);
    assert Contains(blob, "merchant wholesaler") ==> Contains(blob, "wholesale") by {
      if Contains(blob, "merchant wholesaler") {
        MerchantWholesalerIsWholesale(blob);
      }
    }
    if Contains(blob, "wholesale") || Contains(blob, "distributor") || Contains(blob, "merchant wholesaler") then
      (DetectWholesaleNaicsFromKeywords(blob), Wholesale)
    else
      (RetailCode(types), Retail)
  }

  /** A retail place listed as a supermarket is classified under 445110 unless an
      earlier type has another code. */
  lemma SupermarketIsGroceryRetail(name: string, types: seq<string>, k: nat)
    requires k < |types| && types[k] == "supermarket"
    requires forall j :: 0 <= j < k ==> types[j] !in GoogleTypeToNaics
    requires !MentionsWholesale(TypesNameBlob(types, name))
    ensures InferNaicsAndSegment(name, types) == ("445110", Retail)
  {
    assert FirstMappedType(types) == k;
  }

  /** A nearby-search result: the members the collector reads. */
  datatype PlaceResult = PlaceResult(
    placeId: Option<string>,
    name: string,
    types: seq<string>,
    vicinity: Option<string>,
    lat: real,
    lng: real,
    rating: Option<real>,
    userRatingsTotal: Option<int>)

  /** A details lookup: the members the collector reads. */
  datatype Details = Details(formattedAddress: Option<string>, phone: Option<string>, website: Option<string>)

  /** `details.get("formatted_address") or r.get("vicinity")`. */
  function AddressOf(d: Details, r: PlaceResult): (a: Option<string>)
    ensures d.formattedAddress.Some? && d.formattedAddress.value != "" ==> a == d.formattedAddress
    ensures !(d.formattedAddress.Some? && d.formattedAddress.value != "") ==> a == r.vicinity
  {
    if d.formattedAddress.Some? && d.formattedAddress.value != "" then d.formattedAddress else r.vicinity
  }

  /** A search result together with the keyword whose search returned it. */
  datatype Hit = Hit(keyword: string, result: PlaceResult)

  /** The de-duplication key: the Place ID, with a missing one read as "". */
  function HitKey(h: Hit): string {
    match h.result.placeId
    case Some(pid) => pid
    case None => ""
  }

  /** `not pid` rejects a missing or empty Place ID. */
  function NonBlank(pid: string): bool {
    pid != ""
  }

  function Tagged(keyword: string, results: seq<PlaceResult>): (hs: seq<Hit>)
    ensures |hs| == |results|
    ensures forall i :: 0 <= i < |hs| ==> hs[i] == Hit(keyword, results[i])
  {
    seq(|results|, i requires 0 <= i < |results| => Hit(keyword, results[i]))
  }

  /** One output row. */
  datatype PlaceRow = PlaceRow(
    location: string,
    keyword: string,
    segment: Segment,
    naics: string,
    name: string,
    address: Option<string>,
    phone: Option<string>,
    website: Option<string>,
    lat: real,
    lng: real,
    rating: Option<real>,
    userRatings: Option<int>,
    placeId: string,
    types: string)

  /** The row `parse_results` builds for a new hit, with its details. */
  function BuildRow(location: string, details: string -> Details, h: Hit): (row: PlaceRow)
    ensures row.placeId == HitKey(h) && row.keyword == h.keyword
    ensures (row.naics, row.segment) == InferNaicsAndSegment(h.result.name, h.result.types)
    ensures row.address == AddressOf(details(HitKey(h)), h.result)
  {
    var r := h.result;
    var d := details(HitKey(h));
    var classified := InferNaicsAndSegment(r.name, r.types);
    PlaceRow(location, h.keyword, classified.1, classified.0, r.name, AddressOf(d, r), d.phone,
             d.website, r.lat, r.lng, r.rating, r.userRatingsTotal, HitKey(h), Join(r.types, ", "))
  }

  function Rows(location: string, details: string -> Details, hs: seq<Hit>): (rows: seq<PlaceRow>)
    ensures |rows| == |hs|
    ensures forall i :: 0 <= i < |hs| ==> rows[i] == BuildRow(location, details, hs[i])
  {
    seq(|hs|, i requires 0 <= i < |hs| => BuildRow(location, details, hs[i]))
  }

  function Walk(hs: seq<Hit>, seen: set<string>): (seq<Hit>, set<string>) {
    Dedup.Scan(hs, HitKey, NonBlank, seen)
  }

  /** `parse_results`: skips results whose Place ID is missing, empty or already in
      the caller's set; the set grows in place; one row per kept result, in order. */
  method ParseResults(results: seq<PlaceResult>, location: string, keyword: string,
                      seenPlaceIds: Dedup.IdSet, details: string -> Details)
    returns (parsed: seq<PlaceRow>)
    modifies seenPlaceIds
    ensures parsed == Rows(location, details, Walk(Tagged(keyword, results), old(seenPlaceIds.ids)).0)
    ensures seenPlaceIds.ids == Walk(Tagged(keyword, results), old(seenPlaceIds.ids)).1
  {
    ghost var hs := Tagged(keyword, results);
    ghost var kept: seq<Hit> := [];
    parsed := [];
    var i := 0;
    while i < |results|
      invariant 0 <= i <= |results|
      invariant (kept, seenPlaceIds.ids) == Walk(hs[..i], old(seenPlaceIds.ids))
      invariant parsed == Rows(location, details, kept)
    {
      var r := results[i];
      var h := Hit(keyword, r);
      assert hs[..i + 1][..i] == hs[..i] && hs[i] == h;
      var pid := HitKey(h);
      if pid != "" && pid !in seenPlaceIds.ids {
        seenPlaceIds.ids := seenPlaceIds.ids + {pid};
        parsed := parsed + [BuildRow(location, details, h)];
        kept := kept + [h];
      }
      i := i + 1;
    }
    assert hs[..i] == hs;
  }

  /** What `parse_results` promises its caller: distinct Place IDs, none blank and
      none in the incoming set; the set grows by exactly the non-blank Place IDs
      of the results; the rows are those of first occurrences, in order. */
  lemma ParsedResultsDistinctAndNew(location: string, details: string -> Details, hs: seq<Hit>, seen: set<string>)
    ensures var rows := Rows(location, details, Walk(hs, seen).0);
            && (forall i, j :: 0 <= i < j < |rows| ==> rows[i].placeId != rows[j].placeId)
            && (forall i :: 0 <= i < |rows| ==> rows[i].placeId != "" && rows[i].placeId !in seen)
            && Walk(hs, seen).1 == seen + (set h | h in hs && HitKey(h) != "" :: HitKey(h))
            && Walk(hs, seen).0 == Dedup.FirstNew(hs, HitKey, NonBlank, seen)
  {
    Dedup.ScanSeen(hs, HitKey, NonBlank, seen);
    Dedup.ScanIsFirstNew(hs, HitKey, NonBlank, seen);
    var all := set h | h in hs && HitKey(h) != "" :: HitKey(h);
    assert Dedup.AdmittedKeys(hs, HitKey, NonBlank) == all by {
      forall u | u in all ensures u in Dedup.AdmittedKeys(hs, HitKey, NonBlank) {
        var h :| h in hs && HitKey(h) != "" && HitKey(h) == u;
        var i :| 0 <= i < |hs| && hs[i] == h;
      }
    }
  }

  /** Every hit of a run, in search order: keyword by keyword, each keyword's
      results in the order the search returned them. */
  function Hits(keywords: seq<string>, search: string -> seq<PlaceResult>): (hs: seq<Hit>) {
    Dedup.FlatMap(keywords, (kw: string) => Tagged(kw, search(kw)))
  }

  /** The rows `run_one_location` returns for a geocoded location: all retail keyword
      searches, then all wholesale ones, through one seen set that starts empty. */
  function RunRows(location: string, keywords: seq<string>, search: string -> seq<PlaceResult>,
                   details: string -> Details): seq<PlaceRow> {
    Rows(location, details, Walk(Hits(keywords, search), {}).0)
  }

  /** Loops over a keyword list, extending `rows`; the seen set is threaded. */
  method SearchKeywords(location: string, keywords: seq<string>, search: string -> seq<PlaceResult>,
                        details: string -> Details, seenPlaceIds: Dedup.IdSet)
    returns (rows: seq<PlaceRow>)
    modifies seenPlaceIds
    ensures rows == Rows(location, details, Walk(Hits(keywords, search), old(seenPlaceIds.ids)).0)
    ensures seenPlaceIds.ids == Walk(Hits(keywords, search), old(seenPlaceIds.ids)).1
  {
    rows := [];
    var k := 0;
    while k < |keywords|
      invariant 0 <= k <= |keywords|
      invariant rows == Rows(location, details, Walk(Hits(keywords[..k], search), old(seenPlaceIds.ids)).0)
      invariant seenPlaceIds.ids == Walk(Hits(keywords[..k], search), old(seenPlaceIds.ids)).1
    {
      var kw := keywords[k];
      var results := search(kw);
      var parsed := ParseResults(results, location, kw, seenPlaceIds, details);
      WalkNextKeyword(location, keywords, k, search, details, old(seenPlaceIds.ids));
      rows := rows + parsed;
      k := k + 1;
    }
    assert keywords[..k] == keywords;
  }

  /** One more keyword extends the walk by the walk of that keyword's hits, started
      from the set the earlier keywords left behind. */
  lemma WalkNextKeyword(location: string, keywords: seq<string>, k: nat, search: string -> seq<PlaceResult>,
                        details: string -> Details, seen: set<string>)
    requires k < |keywords|
    ensures var before := Walk(Hits(keywords[..k], search), seen);
            var next := Walk(Tagged(keywords[k], search(keywords[k])), before.1);
            && Walk(Hits(keywords[..k + 1], search), seen).1 == next.1
            && Rows(location, details, Walk(Hits(keywords[..k + 1], search), seen).0)
               == Rows(location, details, before.0) + Rows(location, details, next.0)
  {
    var before := Hits(keywords[..k], search);
    var tagged := Tagged(keywords[k], search(keywords[k]));
    assert keywords[..k + 1][..k] == keywords[..k];
    assert Hits(keywords[..k + 1], search) == before + tagged;
    Dedup.ScanAppend(before, tagged, HitKey, NonBlank, seen);
    var w1 := Walk(before, seen).0;
    var w2 := Walk(tagged, Walk(before, seen).1).0;
    RowsAppend(location, details, w1, w2);
  }

  lemma RowsAppend(location: string, details: string -> Details, xs: seq<Hit>, ys: seq<Hit>)
    ensures Rows(location, details, xs + ys) == Rows(location, details, xs) + Rows(location, details, ys)
  {
    var a, b := Rows(location, details, xs + ys), Rows(location, details, xs) + Rows(location, details, ys);
    forall i | 0 <= i < |a| ensures a[i] == b[i] {
      if i < |xs| {
        assert (xs + ys)[i] == xs[i];
      } else {
        assert (xs + ys)[i] == ys[i - |xs|];
      }
    }
  }

  lemma HitsAppend(xs: seq<string>, ys: seq<string>, search: string -> seq<PlaceResult>)
    ensures Hits(xs + ys, search) == Hits(xs, search) + Hits(ys, search)
  {
    Dedup.FlatMapAppend(xs, ys, (kw: string) => Tagged(kw, search(kw)));
  }

  /** `run_one_location`, with the geocoder's answer and the searches as parameters:
      no rows when the location cannot be geocoded; otherwise the retail keywords'
      rows, then the wholesale keywords' rows, through one shared seen set. */
  method RunOneLocation(location: string, geocoded: Option<(real, real)>,
                        retailKeywords: seq<string>, wholesaleKeywords: seq<string>,
                        search: string -> seq<PlaceResult>, details: string -> Details)
    returns (rows: seq<PlaceRow>)
    ensures geocoded.None? ==> rows == []
    ensures geocoded.Some? ==> rows == RunRows(location, retailKeywords + wholesaleKeywords, search, details)
  {
    if geocoded.None? {
      return [];
    }
    var seenPlaceIds := new Dedup.IdSet();
    var retailRows := SearchKeywords(location, retailKeywords, search, details, seenPlaceIds);
    var wholesaleRows := SearchKeywords(location, wholesaleKeywords, search, details, seenPlaceIds);
    rows := retailRows + wholesaleRows;
    HitsAppend(retailKeywords, wholesaleKeywords, search);
    var retailWalk := Walk(Hits(retailKeywords, search), {});
    Dedup.ScanAppend(Hits(retailKeywords, search), Hits(wholesaleKeywords, search), HitKey, NonBlank, {});
    RowsAppend(location, details, retailWalk.0, Walk(Hits(wholesaleKeywords, search), retailWalk.1).0);
  }

  /** Some hit of `hs` found `pid` with `keyword`, and no earlier hit had `pid`. */
  ghost predicate FirstFoundBy(hs: seq<Hit>, keyword: string, pid: string) {
    exists j :: 0 <= j < |hs| && hs[j].keyword == keyword && HitKey(hs[j]) == pid
                && forall m :: 0 <= m < j ==> HitKey(hs[m]) != pid
  }

  /** Over a whole run each Place ID is emitted at most once, and the row carries the
      keyword of the first hit with that Place ID in search order: no earlier hit
      (from an earlier keyword, or earlier in the same search) had it. */
  lemma RunEmitsEachPlaceOnceWithFirstKeyword(location: string, keywords: seq<string>,
                                               search: string -> seq<PlaceResult>, details: string -> Details)
    ensures var rows := RunRows(location, keywords, search, details);
            && (forall i, j :: 0 <= i < j < |rows| ==> rows[i].placeId != rows[j].placeId)
            && (forall i :: 0 <= i < |rows| ==> FirstFoundBy(Hits(keywords, search), rows[i].keyword, rows[i].placeId))
  {
    var hs := Hits(keywords, search);
    var kept := Walk(hs, {}).0;
    var rows := RunRows(location, keywords, search, details);
    Dedup.ScanKeepsFirstOccurrences(hs, HitKey, NonBlank, {});
    assert kept == Dedup.Scan(hs, HitKey, NonBlank, {}).0;
    assert |rows| == |kept|;
    forall i | 0 <= i < |rows|
      ensures FirstFoundBy(hs, rows[i].keyword, rows[i].placeId)
    {
      var j :| 0 <= j < |hs| && hs[j] == kept[i] && Dedup.FirstNewAt(hs, HitKey, NonBlank, {}, j);
      assert rows[i] == BuildRow(location, details, kept[i]);
      assert hs[j].keyword == rows[i].keyword && HitKey(hs[j]) == rows[i].placeId;
    }
  }
}
