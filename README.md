# bizcontactsdata crawler core in Dafny

This project models the core of the bizcontactsdata business-contact crawler:

- **The batch runner** (`runner_local.py`). It walks a list of (location, radius) targets from a stored cursor, with wrap-around. For each location it runs the one-location crawler. Place IDs not seen before are appended to a JSON-lines ledger, which de-duplicates across runs. At the end it saves the next start index.
- **The OpenStreetMap collector** (`osm_one_location.py`, with its tables in `config_osm.py`). It turns Overpass elements into classified rows: retail or wholesale, plus a NAICS code. It de-duplicates by element id across a retail pass and a wholesale pass.
- **The Google Places collector** (`places_one_location.py`) and its earlier statewide variant (`old/main_google_places_scraper.py`). These classify search results and de-duplicate them by Place ID across all keyword searches.
- **The location-list builder** (`location_builder.py`). It cleans Census place names, filters and de-duplicates them, and writes the `state,city,radius_miles` file that the runner reads back.

**Mutable state and loops.** State that the source mutates is modelled with mutable constructs:
- the runner's loop state is the class `RunnerLocal.BatchRunner`;
- a Python `set` that a callee grows in place is the class `Dedup.IdSet`;
- every loop is a `method` with a `while` loop, proved against a specification function.

**One shared specification.** The "skip it if blank or already seen, else remember it and keep it" walk appears in four places in the source: the OSM element loop (`osm_one_location.py:184-191`), the Places result loop (`places_one_location.py:146-152`), its statewide predecessor (`old/main_google_places_scraper.py:100-106`) and the builder's de-duplication (`location_builder.py:59-65`). It is specified once, as `Dedup.Scan`, together with a reference definition (`Dedup.FirstNew`: the first occurrences of new keys) and the lemmas that relate the two.

**External services.** Network services, child processes and float parsing are parameters of the model:
- the geocoders;
- the Overpass, Places and Census requests;
- the crawler child process: `fetch`, keyed by list index, which returns the empty set when the run fails;
- `float()`: `parse`, which returns no value when conversion fails.

**Files.** Files are values:
- the cursor file is absent or holds a `CursorFile`;
- the ledger is its sequence of lines;
- `locations.csv` is the sequence of rows the CSV reader yields, plus whether the sniffer found a header.

**The model follows the code:**
- the cursor is saved once, after the batch loop (`runner_local.py:261`), not after every location;
- a failing location is not retried: its crawl yields no IDs and the loop moves on;
- the loop runs a fixed count of iterations, with no time budget;
- a missing ledger file is read as an empty ledger, and unreadable ledger lines are skipped instead of failing the run.

| file | module |
|---|---|
| text.dfy | `Text`: the Python string operations used (ASCII case mapping, `strip`, `split`, `join`, `replace`, `in`, `str(int)`) |
| optional.dfy, segment.dfy | `Optional`, `Segments` |
| dedup.dfy | `Dedup`: the shared first-occurrence walk, its reference definition, `IdSet`, `FlatMap` |
| config_osm.dfy | `ConfigOsm`: the tag lists and NAICS tables of config_osm.py |
| city_state.dfy | `CityState`: `parse_city_state_abbr` and the output file names (both collectors carry identical copies) |
| osm_one_location.dfy | `OsmOneLocation` |
| places_one_location.dfy | `PlacesOneLocation` |
| legacy_places.dfy | `LegacyPlacesScraper` |
| location_builder.dfy | `LocationBuilder` |
| runner_local.dfy | `RunnerLocal` |

## Model

| member | source | states |
|---|---|---|
| RunnerLocal.LoadCursor | runner_local.py:127-139 | The start index is below the list length whenever the list is non-empty, and 0 for an empty list. A non-zero result happens only when the file holds that very integer index and its total is missing or equal to the current length. |
| RunnerLocal.StoredIndexAccepted | runner_local.py:133-137 | An integer index within range is resumed exactly when the stored total is missing or matches the current length; otherwise the run starts at 0. |
| RunnerLocal.StaleCursorRestarts | runner_local.py:135-136 | A cursor saved for a list of another length is discarded (start at 0). |
| RunnerLocal.SaveCursor | runner_local.py:141-142 | The saved cursor is a round trip: an in-range index saved for a list is loaded back as that index while the list keeps its length. |
| RunnerLocal.SeenIn | runner_local.py:32-47 | The IDs collected from the ledger never include the empty Place ID. |
| RunnerLocal.LoadSeenIds | runner_local.py:32-47 | The loop returns exactly the IDs of the records with a non-empty `place_id`; blank and unparsable lines are skipped. |
| RunnerLocal.SeenInAppend | runner_local.py:36-44 | The IDs of a concatenated ledger are the union of the IDs of its parts. |
| RunnerLocal.AppendSeenIds | runner_local.py:62-67 | The old lines are kept as a prefix. Exactly one record per given ID is appended, each ID once, and nothing is appended for an empty set. |
| RunnerLocal.ReloadAfterAppend | runner_local.py:62-67 | Reloading after an append gives the old IDs plus the appended ones; an empty ID is written but never read back. |
| RunnerLocal.AppendsCompose | runner_local.py:238-239 | Two successive appends of disjoint ID sets amount to one append of their union. |
| RunnerLocal.LastIndex | runner_local.py:98 | Gives the last header position holding a name, or nothing iff the name is absent: a later duplicate column wins in the row dictionary. |
| RunnerLocal.Cell | runner_local.py:98 | A cell lookup succeeds iff the header has that name; a short row gives "". |
| RunnerLocal.NormalizeRow | runner_local.py:94-124 | A row yields a location only if it is not empty, and the location text is never empty. |
| RunnerLocal.NormalizeRowSkips | runner_local.py:94-124 | Which rows are skipped. An empty row. Under a header: a header without `radius_miles`, or with neither `location` nor both `state` and `city`; a radius `float()` rejects; an empty `location` cell. Without a header: a last column `float()` rejects, or nothing before it. |
| RunnerLocal.LoadLocations | runner_local.py:69-125 | The loop returns, in row order, the location each body row normalises to. |
| RunnerLocal.LocationsNonEmpty | runner_local.py:123-124 | At most one location per row, and every loaded location has non-empty text. |
| RunnerLocal.LocationColumnWins | runner_local.py:99-104 | With both kinds of header, the `location` column and the parsed radius are used. |
| RunnerLocal.StateCityRow | runner_local.py:105-112 | Under any header with `state`, `city` and `radius_miles` and no `location`, a row whose radius parses becomes "city, ST", ST being the first two characters of the state cell upper-cased, with the parsed radius. |
| RunnerLocal.StateCityColumns | runner_local.py:105-108 | With state, city and radius in the first three header positions, a row (ST, city, radius) of stripped upper-case state reads as "city, ST". |
| RunnerLocal.HeaderlessRow | runner_local.py:115-122 | Without a header, a row whose last column parses is kept exactly when its joined leading columns are not empty, and that joined text is its location. |
| RunnerLocal.HeaderlessJoinsColumns | runner_local.py:115-122 | Without a header, the last column is the radius and the stripped leading columns are joined by ","; for example `Northwood, NH, 25` gives "Northwood,NH". |
| RunnerLocal.NormHeaderUnchanged | runner_local.py:90-93 | A header of stripped lower-case names is unchanged by normalisation. |
| RunnerLocal.HeaderRecognised | location_builder.py:69 | The header the builder writes is already normalised. |
| RunnerLocal.BuiltRowReadBack | runner_local.py:105-108 | A well-formed builder row (ST, city, 25) is read back as ("city, ST", 25). |
| RunnerLocal.ReadBackRows | runner_local.py:94-124 | A file of well-formed builder rows reads back as one location per row, in order. |
| RunnerLocal.BuiltLocationsReadBack | location_builder.py:67-71 | Whatever the Census answers, the file the builder writes is read back by `load_locations` as its de-duplicated entries, in order, as "city, ST" with radius 25. |
| RunnerLocal.Slot | runner_local.py:246 | The index of iteration k is always within the list. |
| RunnerLocal.SlotSucc | runner_local.py:246 | `idx = (idx + 1) % total` moves from slot k to slot k+1, so after n iterations idx = (start + n) mod total. |
| RunnerLocal.VisitsEachIndexOnce | runner_local.py:232-246 | Any `total` consecutive iterations visit pairwise distinct indices and every index of the list. |
| RunnerLocal.HarvestIncludes | runner_local.py:237-240 | Every iteration's IDs are in the run's harvest. |
| RunnerLocal.HarvestCoversEveryLocation | runner_local.py:232-240 | A batch at least as long as the list harvests the IDs of every location. |
| RunnerLocal.RunStep | runner_local.py:238-243 | One more iteration preserves the loop's bookkeeping: the ledger holds, after its old lines, exactly the IDs new to the seen set, and the new-ID count equals the growth of the seen set. |
| RunnerLocal.BatchRunner.constructor | runner_local.py:216-227 | The runner starts at the loaded cursor, with the ledger's IDs as its seen set and zero counters. |
| RunnerLocal.BatchRunner.Step | runner_local.py:233-246 | One iteration: only `found - seen` is appended, the seen set grows by all IDs found, the counters grow, and the index wraps. A failing location (empty set) appends nothing but still advances. |
| RunnerLocal.BatchRunner.Run | runner_local.py:225-261 | Runs exactly BATCH_SIZE iterations, or none when it is not positive; idx = (start + n) mod total. The seen set grows by the harvest, the ledger gets exactly the IDs new to the run, `new_ids_total` = \|seen\| - \|old seen\|, and the cursor is saved once at the end. |
| RunnerLocal.RunLocal | runner_local.py:200-261 | An empty list changes nothing. Otherwise the cursor file holds the wrapped next index, the ledger gets exactly the harvested IDs it lacked, and the reloaded ledger is the old IDs plus the non-empty harvested IDs. |
| CityState.Normalized | osm_one_location.py:27 | The text the parser splits holds no comma. |
| CityState.ParseCityStateAbbr | osm_one_location.py:26-35 | The state is "" or two characters with no lower-case letter, the first two of the last word upper-cased. It is taken exactly when the last word has two characters, or three after at least one other word. When it is taken, the city is the earlier words joined by single spaces; otherwise the city is the normalised text. places_one_location.py:19-30 is an identical copy. |
| CityState.CityCommaState | osm_one_location.py:26-32 | "City, ST" with a one-word city and a two-character state splits into the city and the upper-cased state. |
| CityState.NorthwoodNH | osm_one_location.py:26-32 | "Northwood, NH" splits into ("Northwood", "NH"). |
| CityState.BuildOutputFilenames | osm_one_location.py:37-42 | The template `"{ST} {who} - {city} {ST} - {radius} Miles Radius.csv"` goes through `.format(who=...)`, which fails on a stray brace (no names). With brace-free city and state the names are the template with "Suppliers" and "Retailers" filled in. |
| CityState.FileNameFormats | osm_one_location.py:41-42 | With no brace in the state code or the city, formatting fills in the role and changes nothing else. |
| CityState.RoleInCityRepeated | osm_one_location.py:41-42 | A city holding the text `{who}` gets the role word a second time inside the city. |
| CityState.BraceInCityFails | osm_one_location.py:41-42 | A `{` in the city that starts neither `{{` nor a `{who` field makes the formatting raise. |
| CityState.LoneCloseBraceFails | osm_one_location.py:41-42 | An undoubled `}` in the city makes the formatting raise. |
| CityState.FileNamesShape | places_one_location.py:179-185 | The Suppliers and Retailers names differ only in the role word, and both end in " Miles Radius.csv". |
| CityState.FilenamesDifferOnlyInRole | osm_one_location.py:37-42 | The two names are made or fail together. Made from brace-free fields, they differ only in the role word and both match the runner's `* Miles Radius.csv` glob. |
| ConfigOsm.FirstKeywordIndex | osm_one_location.py:148-152 | Gives the first table entry whose keyword occurs in the text; no earlier keyword occurs. |
| ConfigOsm.RetailTagsAllMapped | config_osm.py:87-112 | Every retail search pair has a retail NAICS code. |
| ConfigOsm.RetailTagsAreShopTags | config_osm.py:16-54 | Every retail pair has key "shop" and is not shop=wholesale. |
| ConfigOsm.TagListsDisjoint | config_osm.py:16-82 | No pair is searched in both passes. |
| ConfigOsm.WholesaleTagsMentionWholesale | config_osm.py:61-82 | Every wholesale pair is shop=wholesale or has the key "wholesale". |
| ConfigOsm.WholesaleCodesInSector42 | config_osm.py:117-138 | Every wholesale keyword code, and the default 424490, is six digits beginning "42". |
| ConfigOsm.RetailCodesInSectors44And45 | config_osm.py:87-112 | Every retail code is six digits beginning "44" or "45". |
| Dedup.IdSet.constructor | osm_one_location.py:169 | A new seen set is empty. |
| Dedup.Scan | osm_one_location.py:186-190 | Kept items have admissible keys that are new to the incoming set, pairwise distinct, and added to the set; the set only grows. |
| Dedup.ScanSeen | osm_one_location.py:188-190 | The final set is the incoming set plus every admissible key of the input. |
| Dedup.ScanIsFirstNew | places_one_location.py:148-152 | The walk keeps exactly the first occurrences of new admissible keys, in input order. |
| Dedup.ScanKeepsFirstOccurrences | location_builder.py:58-65 | Every kept item is the first occurrence in the input of a new admissible key. |
| Dedup.ScanKeptKeys | location_builder.py:59-65 | The keys of the kept items are exactly the keys added to the set. |
| Dedup.ScanAppend | osm_one_location.py:169-180 | Walking two lists through one shared set is walking their concatenation. |
| Dedup.ScanAppendFresh | osm_one_location.py:175-180 | What the second walk keeps has no key of the first list. |
| OsmOneLocation.FirstNonEmpty | osm_one_location.py:118-122 | Gives the first non-empty of two optional strings, else ""; "" iff neither is a non-empty string. |
| OsmOneLocation.ExtractPhone | osm_one_location.py:118-119 | A non-empty `contact:phone` wins; otherwise the `phone` value, else "". |
| OsmOneLocation.ExtractWebsite | osm_one_location.py:121-122 | A non-empty `contact:website` wins; otherwise the `website` value, else "". |
| OsmOneLocation.ExtractCenter | osm_one_location.py:93-98 | Gives the element's own lat/lon, else the `center` lat/lon, else none iff neither is complete. |
| OsmOneLocation.AddressParts | osm_one_location.py:105-116 | Every address part kept is non-empty. |
| OsmOneLocation.ExtractAddress | osm_one_location.py:100-116 | `addr:full` verbatim when present; otherwise the parts joined by ", ". |
| OsmOneLocation.HouseNumberNeedsStreet | osm_one_location.py:111-112 | A house number without a street is dropped: the address is as if it were absent. |
| OsmOneLocation.TagTexts | osm_one_location.py:133 | One "k=v" text per tag. |
| OsmOneLocation.InferWholesaleNaics | osm_one_location.py:148-152 | Gives the code of the first table keyword found in the blob, else 424490; always a sector-42 code. |
| OsmOneLocation.WholesaleKeywordPrecedence | config_osm.py:117-138 | Table order decides: "frozen" gives 424420 whatever else occurs; "dairy" without "frozen" gives 424430; no keyword gives the default. |
| OsmOneLocation.MerchantWholesalerMentionsWholesale | osm_one_location.py:140 | Any text containing "merchant wholesaler" contains "wholesale", so that test is subsumed. |
| OsmOneLocation.InferSegmentAndNaics | osm_one_location.py:124-146 | Wholesale iff the pair is shop=wholesale or the lower-cased blob contains "wholesale" or "distributor" (beating any retail mapping), with the keyword-table code. Otherwise retail, with the pair's retail code or "". |
| OsmOneLocation.FirstPresentPair | osm_one_location.py:223-225 | Gives the first pair present in the tags; no earlier pair is present. |
| OsmOneLocation.DetectMatchedKv | osm_one_location.py:221-229 | Gives the first configured pair (wholesale list before retail list) whose key has exactly that value; none iff no configured pair matches. |
| OsmOneLocation.GenericWholesaleFallbackIsDead | osm_one_location.py:226-228 | The trailing shop=wholesale fallback never decides anything: the loop already returns it. |
| OsmOneLocation.WholesalePairsWin | osm_one_location.py:222-225 | If any wholesale pair is present, the matched pair is a wholesale pair. |
| OsmOneLocation.ElementUid | osm_one_location.py:153-157 | The uid is the type's first letter (or '?'), "_", then the id's text. |
| OsmOneLocation.ElementUidInjective | osm_one_location.py:153-157 | Equal uids imply the same type letter and equal ids. |
| OsmOneLocation.TypeEntries | osm_one_location.py:231-237 | Every entry is "key=value" for a kept key present in the tags, at most one per key; there are none exactly when no kept key is present. |
| OsmOneLocation.TypeEntriesInKeyOrder | osm_one_location.py:233-236 | The entries are the keys' own entries in key order: one per present key, none for an absent one. |
| OsmOneLocation.TypeEntryPresent | osm_one_location.py:235-236 | Every kept key present in the tags shows up as "key=value". |
| OsmOneLocation.BuildTypeString | osm_one_location.py:231-237 | The type string is empty exactly when none of the seven informative keys is present. |
| OsmOneLocation.BuildRow | osm_one_location.py:192-218 | The row's Place ID is the uid. With no matched pair, segment = hint and NAICS = ""; otherwise they come from `infer_segment_and_naics` on the name, tags and pair. |
| OsmOneLocation.WholesaleMatchIsWholesaleRow | osm_one_location.py:199-201 | An element matched by a wholesale pair always yields a wholesale row. |
| OsmOneLocation.WholesalePairIsWholesale | osm_one_location.py:133-142 | A present wholesale pair puts "wholesale" in the blob, or is shop=wholesale itself. |
| OsmOneLocation.KeyInBlob | osm_one_location.py:133 | A lower-case tag key present in the tags occurs in the blob. |
| OsmOneLocation.TagKeyInBlob | osm_one_location.py:133 | The same, for the tag at a given position. |
| OsmOneLocation.Rows | osm_one_location.py:203-218 | One row per kept element, in order. |
| OsmOneLocation.ParseElements | osm_one_location.py:184-219 | The loop returns the rows of the walk's kept elements and leaves the caller's set as the walk's final set. |
| OsmOneLocation.ParsedRowsDistinctAndNew | osm_one_location.py:184-219 | Emitted Place IDs are pairwise distinct and none was in the incoming set. Afterwards the set is the old set plus every element's uid. The output is the first occurrences, in input order. |
| OsmOneLocation.RunOneLocationOsm | osm_one_location.py:161-182 | No rows when geocoding fails; otherwise the retail pass, then the wholesale pass, through one set starting empty. |
| OsmOneLocation.TwoPassEmitsEachUidOnce | osm_one_location.py:168-182 | Every uid appears at most once across both passes. No wholesale-pass row carries the uid of a retail element, so an element found by both keeps its retail-pass row. |
| PlacesOneLocation.FirstMappedType | places_one_location.py:69-71 | Gives the first type, in list order, present in the type table. |
| PlacesOneLocation.RetailCode | places_one_location.py:69-72 | "" iff no type is mapped; otherwise the code of a mapped type. |
| PlacesOneLocation.DetectWholesaleNaicsFromKeywords | places_one_location.py:49-63 | A specific code comes out only when one of its own keywords occurs in the lower-cased text; otherwise the result is 424490. |
| PlacesOneLocation.DetectIsFirstMatch | places_one_location.py:49-63 | The if-chain is a first match over the ordered table frozen, dairy, seafood/fish, meat/poultry, fruit/vegetable/produce, grocery/general line/food service, else 424490. |
| PlacesOneLocation.ChainIsPrefixOfOsmTable | places_one_location.py:49-63 | That table is exactly the first twelve entries of the OSM keyword table. |
| PlacesOneLocation.DetectFallsBackWithoutKeyword | places_one_location.py:49-63 | The fallback 424490 comes out exactly when none of the chain's keywords occurs in the lower-cased text. |
| PlacesOneLocation.DetectIsWholesaleCode | places_one_location.py:49-63 | Every code the chain returns is a sector-42 code. |
| PlacesOneLocation.MerchantWholesalerIsWholesale | places_one_location.py:67 | "merchant wholesaler" implies "wholesale", so that test is subsumed. |
| PlacesOneLocation.InferNaicsAndSegment | places_one_location.py:65-72 | Wholesale iff the lower-cased types+name blob contains "wholesale" or "distributor", with the chain's code; otherwise retail with the first mapped type's code or "". |
| PlacesOneLocation.SupermarketIsGroceryRetail | places_one_location.py:69-72 | A non-wholesale place whose first mapped type is "supermarket" is ("445110", retail). |
| PlacesOneLocation.AddressOf | places_one_location.py:167 | The details' `formatted_address` if non-empty, else the result's `vicinity`. |
| PlacesOneLocation.Tagged | places_one_location.py:133-136 | Each result of a search is paired with its keyword, in order. |
| PlacesOneLocation.BuildRow | places_one_location.py:154-176 | A row carries the hit's Place ID and keyword, the classifier's code and segment, and the address rule. |
| PlacesOneLocation.Rows | places_one_location.py:161-176 | One row per kept hit, in order. |
| PlacesOneLocation.ParseResults | places_one_location.py:146-177 | The loop returns the rows of the walk that skips missing, empty and seen Place IDs, and leaves the caller's set as the walk's final set. |
| PlacesOneLocation.ParsedResultsDistinctAndNew | places_one_location.py:146-177 | Emitted Place IDs are distinct, non-empty and new. The set grows by exactly the non-empty IDs of the results. The output is the first occurrences, in order. |
| PlacesOneLocation.SearchKeywords | places_one_location.py:133-142 | The keyword loop equals one walk over all hits of its keywords, in search order, through the shared set. |
| PlacesOneLocation.WalkNextKeyword | places_one_location.py:133-136 | One more keyword extends the walk by the walk of that keyword's hits, from the set left so far. |
| PlacesOneLocation.RunOneLocation | places_one_location.py:122-144 | No rows when geocoding fails; otherwise all retail, then all wholesale, keyword searches through one set starting empty. |
| PlacesOneLocation.RunEmitsEachPlaceOnceWithFirstKeyword | places_one_location.py:129-144 | Each Place ID is emitted at most once per run. Its row carries the keyword of the first hit with that ID in search order. |
| LegacyPlacesScraper.GetNaicsCodeFromTypes | old/main_google_places_scraper.py:76-98 | For a blob without "wholesale"/"distributor", gives the first mapped type's code, else "". |
| LegacyPlacesScraper.LegacyIsFirstMatch | old/main_google_places_scraper.py:79-93 | Inside the wholesale branch: a first match over frozen, dairy, seafood, meat, fruit/vegetable, grocery, else 424490. |
| LegacyPlacesScraper.LegacyAgreesOnRetail | old/main_google_places_scraper.py:94-98 | Outside the wholesale branch it gives the newer classifier's code. |
| LegacyPlacesScraper.LegacyMissesNewerKeywords | old/main_google_places_scraper.py:80-93 | A wholesale blob whose only signal is "fish", "poultry", "produce" or "general line" gets 424490, where the newer chain gives a specific code. |
| LegacyPlacesScraper.LegacyAgreesWithoutNewerKeywords | old/main_google_places_scraper.py:80-93 | Without the newer chain's extra keywords, both chains pick the same code. |
| LegacyPlacesScraper.BuildLegacyRow | old/main_google_places_scraper.py:108-129 | A row carries the Place ID, state, keyword, the legacy code and the address rule. |
| LegacyPlacesScraper.LegacyRows | old/main_google_places_scraper.py:115-129 | One row per kept hit, in order. |
| LegacyPlacesScraper.TaggedLegacy | old/main_google_places_scraper.py:143-146 | Each result is paired with its state and keyword, in order. |
| LegacyPlacesScraper.ParseResults | old/main_google_places_scraper.py:100-130 | The loop returns the rows of the walk that skips missing, empty and seen Place IDs, and grows the shared set accordingly. |
| LegacyPlacesScraper.WalkThen | old/main_google_places_scraper.py:134-147 | Walking more hits continues from the set left so far, and the rows concatenate. |
| LegacyPlacesScraper.SearchState | old/main_google_places_scraper.py:143-147 | The keyword loop of one state is one walk over its hits. |
| LegacyPlacesScraper.RunAllStates | old/main_google_places_scraper.py:132-147 | `main` is one walk over all hits, state by state in table order, from an empty set; ungeocodable states contribute nothing. |
| LegacyPlacesScraper.RunEmitsEachPlaceOnce | old/main_google_places_scraper.py:132-147 | A place is emitted at most once per run, never with an empty Place ID. |
| LegacyPlacesScraper.SkippedStateContributesNothing | old/main_google_places_scraper.py:138-141 | A state whose city cannot be geocoded changes nothing for the others. |
| LocationBuilder.StripStateSuffix | location_builder.py:29 | The name is unchanged, or it ended in "," + whitespace + the exact full state name, which is removed. |
| LocationBuilder.StripStateSuffixRemoves | location_builder.py:29 | "," + any whitespace + the full state name at the end is removed, leaving exactly what came before. |
| LocationBuilder.CommaStateRemoved | location_builder.py:29 | ", <full name>" at the end is removed. |
| LocationBuilder.LeftmostDesignation | location_builder.py:30-31 | Gives the leftmost position where whitespace, a designation (any case) and the end of the name match, or the length. |
| LocationBuilder.DesignationExtendsLeft | location_builder.py:30-31 | A match preceded by whitespace also matches one position earlier, so the cut starts at the start of the whitespace run. |
| LocationBuilder.StripDesignation | location_builder.py:30-31 | The result is a prefix of the name, and a name without surrounding whitespace keeps none. |
| LocationBuilder.StripDesignationRemovesOne | location_builder.py:30-31 | At most one designation is removed, and it reaches the end of the name. |
| LocationBuilder.DesignationAfterWord | location_builder.py:30-31 | In "word designation" the match starts right after the word, so stripping leaves exactly the word. |
| LocationBuilder.CleanPlaceName | location_builder.py:28-32 | The cleaned name is a prefix of the stripped name and has no surrounding whitespace. |
| LocationBuilder.CleanWordDesignationState | location_builder.py:28-32 | "Word designation, Full State" is cleaned to "Word"; for example "Shelton city, Connecticut" gives "Shelton". |
| LocationBuilder.RowPlace | location_builder.py:39-43 | A Census row yields its cleaned name with the state's abbreviation exactly when the name is not empty and does not start with "balance of" (any case), and nothing exactly when it fails that filter; a yielded name is stripped. |
| LocationBuilder.StatePlaces | location_builder.py:34-43 | At most one place per well-formed leading row. |
| LocationBuilder.StatePlacesStep | location_builder.py:39-43 | Rows are handled in order: one more well-formed row appends its place, if any. |
| LocationBuilder.StatePlacesComplete | location_builder.py:39-43 | Every well-formed leading row whose cleaned name passes the filter has its place yielded. |
| LocationBuilder.WellFormedPrefix | location_builder.py:39 | Counts the leading three-column rows; the row after them is malformed. |
| LocationBuilder.MalformedRowEndsState | location_builder.py:39 | A row that cannot be unpacked ends the state; only the places before it are kept. |
| LocationBuilder.StatePlacesFiltered | location_builder.py:38-43 | Every place yielded carries the abbreviation, passed the filter, and is stripped. |
| LocationBuilder.CsvRows | location_builder.py:67-71 | The header `state,city,radius_miles`, then one row (st, city, str(r)) per entry. |
| LocationBuilder.CollectOut | location_builder.py:46-56 | The state loop appends every state's places, in table order. |
| LocationBuilder.FailedStateContributesNothing | location_builder.py:47-56 | A state whose request fails adds nothing and does not affect the other states. |
| LocationBuilder.DedupLocations | location_builder.py:58-65 | The loop equals the walk keyed by (state, lower(city)). |
| LocationBuilder.DedupKeepsFirstOfEachKey | location_builder.py:58-65 | The output has pairwise distinct keys, covers every key of the input, and is the first occurrences in order. |
| LocationBuilder.WriteRows | location_builder.py:67-71 | The writing loop emits the header and one row per entry. |
| LocationBuilder.BuildLocations | location_builder.py:45-71 | `main` writes the rows of the de-duplicated entries of all states. |
| LocationBuilder.OutEntriesWellFormed | location_builder.py:50-51 | Every collected entry has a two-letter upper-case state, a kept stripped place, and radius 25. |
| LocationBuilder.DedupedEntriesWellFormed | location_builder.py:58-65 | So does every de-duplicated entry. |

## Left out

- Network services: the geocoders, the Overpass queries (including building the query text), the paginated Places search and the details lookup, and the Census request. Their answers are parameters. A Census failure of any kind (request, status, JSON) is one "no answer" case.
- `run_one`: the child process, the config patching (`patch_config_osm`), moving the CSV files and `extract_place_ids_from_csv`. Together these are the `fetch` parameter, keyed by list index. A location whose run fails yields the empty set.
- CSV reading: the sniffer, the dialect and quoting. `load_locations` takes the rows the reader yields and a "has header" flag. Writing CSV and JSON is modelled as the rows or records written, not their text.
- JSON decoding: the cursor file is a `CursorFile` and ledger lines are `LedgerLine`s. Each key holds "the value `int()`/`str()` produces" or "a value it rejects". `int()` truncating a float is not modelled.
- Floating point: `float()` is the `parse` parameter. `miles_to_meters`, latitudes and longitudes, the `if not lat` zero test, and the ETA/average/percentage arithmetic are not modelled. Coordinates are opaque reals.
- Timing: sleeps, timestamps, the run-directory name, and the printed or job-summary text (`write_job_summary`).
- Case mapping is ASCII only; Python's `.lower()`/`.upper()` also map non-ASCII letters.
- `clean_place_name`: Python's `$` also matches before a final newline; the model matches only at the very end.
- The keyword lists of config.py are parameters; they hold no logic.
- `RunnerLocal.AppendSeenIds`: the order in which the ID set is written is left open, as Python's set iteration order is unspecified.
- OsmOneLocation: an element whose `type` is the empty string makes `element_uid` raise; the model's element type is never empty.
- OsmOneLocation: an element whose `tags` member is JSON null makes `extract_address` raise; the model reads it as no tags.
- OsmOneLocation.ElementUid: an element whose `"type"` is JSON null makes `element_uid` raise a TypeError (osm_one_location.py:156); the model gives it '?' like a missing type.
- OsmOneLocation: tags are a list of pairs and a lookup takes the first pair with the key, while `json.loads` keeps the last of duplicate keys; the model's tag lists are meant to have distinct keys.
- PlacesOneLocation.ParseResults: a result without `geometry` raises KeyError (places_one_location.py:170-171) after its Place ID was added to the seen set (places_one_location.py:152); the model's results always carry coordinates, so that exception is not modelled.
- LegacyPlacesScraper.ParseResults: the same KeyError, at old/main_google_places_scraper.py:122-123 after the add at line 106, is not modelled either.
- CityState.BuildOutputFilenames: a field `{who...}` with a conversion, format spec, attribute or index (such as `{who:>12}` or `{who[0]}`) counts as a formatting failure, though Python formats it; only `{who}`, `{{` and `}}` are expanded.
- CityState.FilenamesDifferOnlyInRole: the shape of the names is stated for a brace-free city and state code; with braces, only that both names are made or fail together.
- Rows the OSM and Places collectors build for output columns that are always blank (keyword, rating) or are copied untouched (types text of Places results) carry only the columns the contracts speak about.
- The final `to_csv` of each collector and the `main` functions that split rows into the Suppliers and Retailers files.
