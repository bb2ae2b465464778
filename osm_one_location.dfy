/** osm_one_location.py: turns the OpenStreetMap elements found around one location
    into classified business rows. The geocoder and the two Overpass queries are
    not modelled; their answers are the inputs of `RunOneLocationOsm`. */
module OsmOneLocation {
  import opened Text
  import opened Optional
  import opened ConfigOsm
  import Dedup
  import opened Segments

  /** An element's tag object, as its (key, value) entries in key order. */
  type Tags = seq<(string, string)>

  /** `tags.get(k)`. */
  function Get(tags: Tags, k: string): (r: Option<string>)
    ensures r.Some? ==> (k, r.value) in tags
    ensures r.None? ==> forall i :: 0 <= i < |tags| ==> tags[i].0 != k
  {
    if tags == [] then None
    else if tags[0].0 == k then Some(tags[0].1)
    else Get(tags[1..], k)
  }

  /** `tags.get(k, default)`. */
  function GetOr(tags: Tags, k: string, default: string): string {
    match Get(tags, k)
    case Some(v) => v
    case None => default
  }

  /** `a or b or ""` over two optional strings: the first non-empty one, else "". */
  function FirstNonEmpty(a: Option<string>, b: Option<string>): (r: string)
    ensures r != "" ==> (a == Some(r) || b == Some(r))
    ensures a.Some? && a.value != "" ==> r == a.value
    ensures r == "" <==> (a.None? || a.value == "") && (b.None? || b.value == "")
  {
    if a.Some? && a.value != "" then a.value
    else if b.Some? && b.value != "" then b.value
    else ""
  }

  /** Overpass element types are "node", "way" or "relation": never empty. */
  type ElementType = s: string | s != [] witness "node"

  datatype Center = Center(lat: Option<real>, lon: Option<real>)

  /** An Overpass element: `type`, `id`, `tags` (an absent or null object is the empty
      list) and the position members `lat`/`lon` or `center`. */
  datatype Element = Element(
    kind: Option<ElementType>,
    id: Option<int>,
    tags: Tags,
    lat: Option<real>,
    lon: Option<real>,
    center: Option<Center>)

  /** One output row (the columns that carry information; the search keyword,
      rating and user-ratings columns are always blank for OSM rows). */
  datatype Row = Row(
    location: string,
    segment: Segment,
    naics: string,
    name: string,
    address: string,
    phone: string,
    website: string,
    position: Option<(real, real)>,
    placeId: string,
    types: string)

  /** `extract_center`: the element's own position, else the `center` of a way or
      relation, else none. */
  function ExtractCenter(el: Element): (r: Option<(real, real)>)
    ensures el.lat.Some? && el.lon.Some? ==> r == Some((el.lat.value, el.lon.value))
    ensures r.Some? && !(el.lat.Some? && el.lon.Some?) ==>
              el.center.Some? && el.center.value.lat.Some? && el.center.value.lon.Some?
              && r == Some((el.center.value.lat.value, el.center.value.lon.value))
    ensures r.None? <==> !(el.lat.Some? && el.lon.Some?)
                         && !(el.center.Some? && el.center.value.lat.Some? && el.center.value.lon.Some?)
  {
    if el.lat.Some? && el.lon.Some? then Some((el.lat.value, el.lon.value))
    else if el.center.Some? && el.center.value.lat.Some? && el.center.value.lon.Some? then
      Some((el.center.value.lat.value, el.center.value.lon.value))
    else None
  }

  /** The non-empty address parts in order: "housenumber street" (or the street
      alone), the first non-empty of city/town/village, state, postcode. */
  function AddressParts(tags: Tags): (parts: seq<string>)
    ensures forall i :: 0 <= i < |parts| ==> parts[i] != ""
  {
    var hn := GetOr(tags, "addr:housenumber", "");
    var st := GetOr(tags, "addr:street", "");
    var city := FirstNonEmpty(Get(tags, "addr:city"), Get(tags, "addr:town"));
    var city := if city != "" then city else GetOr(tags, "addr:village", "");
    var state := GetOr(tags, "addr:state", "");
    var postcode := GetOr(tags, "addr:postcode", "");
    (if hn != "" && st != "" then [hn + " " + st] else if st != "" then [st] else [])
    + (if city != "" then [city] else [])
    + (if state != "" then [state] else [])
    + (if postcode != "" then [postcode] else [])
  }

  /** `extract_address`: `addr:full` verbatim when the key is present, else the
      address parts joined with ", ". */
  function ExtractAddress(el: Element): (r: string)
    ensures Get(el.tags, "addr:full").Some? ==> r == Get(el.tags, "addr:full").value
    ensures Get(el.tags, "addr:full").None? ==> r == Join(AddressParts(el.tags), ", ")
  {
    match Get(el.tags, "addr:full")
    case Some(full) => full
    case None => Join(AddressParts(el.tags), ", ")
  }

  /** A house number without a street is dropped: the address is the same as if
      the element had no house number at all. */
  lemma HouseNumberNeedsStreet(el: Element, hn: string)
    requires GetOr(el.tags, "addr:street", "") == ""
    requires el.tags != [] && el.tags[0] == ("addr:housenumber", hn)
    ensures ExtractAddress(el) == ExtractAddress(el.(tags := el.tags[1..]))
  {
    var rest := el.tags[1..];
    forall k | k != "addr:housenumber"
      ensures Get(el.tags, k) == Get(rest, k)
    {
    }
    assert Get(el.tags, "addr:street") == Get(rest, "addr:street");
    assert Get(el.tags, "addr:city") == Get(rest, "addr:city");
    assert Get(el.tags, "addr:town") == Get(rest, "addr:town");
    assert Get(el.tags, "addr:village") == Get(rest, "addr:village");
    assert Get(el.tags, "addr:state") == Get(rest, "addr:state");
    assert Get(el.tags, "addr:postcode") == Get(rest, "addr:postcode");
    AddressPartsWithoutStreet(el.tags, rest);
  }

  /** Without a street, the address parts depend only on the city, town, village,
      state and postcode keys. */
  lemma AddressPartsWithoutStreet(t1: Tags, t2: Tags)
    requires GetOr(t1, "addr:street", "") == "" && Get(t1, "addr:street") == Get(t2, "addr:street")
    requires Get(t1, "addr:city") == Get(t2, "addr:city") && Get(t1, "addr:town") == Get(t2, "addr:town")
    requires Get(t1, "addr:village") == Get(t2, "addr:village") && Get(t1, "addr:state") == Get(t2, "addr:state")
    requires Get(t1, "addr:postcode") == Get(t2, "addr:postcode")
    ensures AddressParts(t1) == AddressParts(t2)
  {
  }

  /** `extract_phone`: `contact:phone`, else `phone`, else "". */
  function ExtractPhone(tags: Tags): (r: string)
    ensures GetOr(tags, "contact:phone", "") != "" ==> r == GetOr(tags, "contact:phone", "")
    ensures GetOr(tags, "contact:phone", "") == "" ==> r == GetOr(tags, "phone", "")
  {
    FirstNonEmpty(Get(tags, "contact:phone"), Get(tags, "phone"))
  }

  /** `extract_website`: `contact:website`, else `website`, else "". */
  function ExtractWebsite(tags: Tags): (r: string)
    ensures GetOr(tags, "contact:website", "") != "" ==> r == GetOr(tags, "contact:website", "")
    ensures GetOr(tags, "contact:website", "") == "" ==> r == GetOr(tags, "website", "")
  {
    FirstNonEmpty(Get(tags, "contact:website"), Get(tags, "website"))
  }

  /** The "k=v" texts of the tags, in tag order. */
  function TagTexts(tags: Tags): (r: seq<string>)
    ensures |r| == |tags|
  {
    seq(|tags|, i requires 0 <= i < |tags| => tags[i].0 + "=" + tags[i].1)
  }

  /** The lower-cased search text of `infer_segment_and_naics`: the name, a space and
      the tags as space-separated "k=v" entries. */
  function Blob(name: string, tags: Tags): string {
    Lower(name + " " + Join(TagTexts(tags), " "))
  }

  /** `infer_wholesale_naics`: the code of the first keyword of the wholesale table
      found in the blob, else the default wholesale code. */
  function InferWholesaleNaics(blob: string): (r: string)
    ensures IsNaicsIn(r, "42")
    ensures var i := FirstKeywordIndex(WholesaleKeywordToNaics, blob);
            r == if i < |WholesaleKeywordToNaics| then WholesaleKeywordToNaics[i].1 else DefaultWholesaleNaics
  {
    WholesaleCodesInSector42();
    FirstKeywordCode(WholesaleKeywordToNaics, blob, DefaultWholesaleNaics)
  }

  /** Table order decides: a frozen-food blob is 424420 whatever else it mentions;
      a dairy blob that is not frozen is 424430. */
  lemma WholesaleKeywordPrecedence(blob: string)
    ensures Contains(blob, "frozen") ==> InferWholesaleNaics(blob) == "424420"
    ensures !Contains(blob, "frozen") && Contains(blob, "dairy") ==> InferWholesaleNaics(blob) == "424430"
    ensures (forall e :: e in WholesaleKeywordToNaics ==> !Contains(blob, e.0)) ==>
              InferWholesaleNaics(blob) == DefaultWholesaleNaics
  {
    var t := WholesaleKeywordToNaics;
    assert FirstKeywordCode(t, blob, DefaultWholesaleNaics) == InferWholesaleNaics(blob);
    if Contains(blob, "frozen") {
      assert FirstKeywordIndex(t, blob) == 0;
    } else if Contains(blob, "dairy") {
      assert FirstKeywordIndex(t[1..], blob) == 0;
    }
    if forall e :: e in t ==> !Contains(blob, e.0) {
      assert FirstKeywordIndex(t, blob) == |t|;
    }
  }

  lemma MerchantWholesalerMentionsWholesale(s: string)
    requires Contains(s, "merchant wholesaler")
    ensures Contains(s, "wholesale")
  {
    assert "merchant wholesaler"[9..18] == "wholesale";
    ContainsPart(s, "merchant wholesaler", 9, "wholesale");
  }

  /** `infer_segment_and_naics`: wholesale when the matched pair is shop=wholesale or
      the blob mentions "wholesale" or "distributor" (this beats any retail mapping),
      with the keyword-table code; otherwise retail with the pair's retail code or "". */
  function InferSegmentAndNaics(name: string, tags: Tags, kv: TagPair): (r: (Segment, string))
    ensures var blob := Blob(name, tags);
            r.0 == Wholesale <==> kv == ("shop", "wholesale") || Contains(blob, "wholesale") || Contains(blob, "distributor")
    ensures r.0 == Wholesale ==> r.1 == InferWholesaleNaics(Blob(name, tags))
    ensures r.0 == Retail ==> r.1 == if kv in OsmToNaicsRetail then OsmToNaicsRetail[kv] else ""
  {
    var blob := Blob(name, tags);
    assert Contains(blob, "merchant wholesaler") ==> Contains(blob, "wholesale") by {
      if Contains(blob, "merchant wholesaler") {
        MerchantWholesalerMentionsWholesale(blob);
      }
    }
    if kv.0 == "shop" && kv.1 == "wholesale" then
      (Wholesale, InferWholesaleNaics(blob))
    else if Contains(blob, "wholesale") || Contains(blob, "distributor") || Contains(blob, "merchant wholesaler") then
      (Wholesale, InferWholesaleNaics(blob))
    else
      (Retail, if kv in OsmToNaicsRetail then OsmToNaicsRetail[kv] else "")
  }

  /** The pairs `detect_matched_kv` tries, in order: wholesale list, then retail list. */
  const ConfiguredPairs: seq<TagPair> := WholesaleOsmTags + RetailOsmTags

  predicate HasPair(tags: Tags, p: TagPair) {
    Get(tags, p.0) == Some(p.1)
  }

  /** Position of the first pair of `pairs` present in `tags`, or `|pairs|`. */
  function FirstPresentPair(pairs: seq<TagPair>, tags: Tags): (i: nat)
    ensures i <= |pairs|
    ensures forall j :: 0 <= j < i ==> !HasPair(tags, pairs[j])
    ensures i < |pairs| ==> HasPair(tags, pairs[i])
  {
    if pairs == [] then 0
    else if HasPair(tags, pairs[0]) then 0
    else 1 + FirstPresentPair(pairs[1..], tags)
  }

  /** `detect_matched_kv`: the first configured pair (wholesale list before retail
      list) whose key has exactly that value; none iff no configured pair matches. */
  function DetectMatchedKv(tags: Tags): (r: Option<TagPair>)
    ensures r.None? <==> forall p :: p in ConfiguredPairs ==> !HasPair(tags, p)
    ensures r.Some? ==> exists i :: 0 <= i < |ConfiguredPairs| && ConfiguredPairs[i] == r.value
                                   && HasPair(tags, r.value)
                                   && forall j :: 0 <= j < i ==> !HasPair(tags, ConfiguredPairs[j])
  {
    var i := FirstPresentPair(ConfiguredPairs, tags);
    if i < |ConfiguredPairs| then Some(ConfiguredPairs[i])
    else if Get(tags, "shop") == Some("wholesale") then Some(("shop", "wholesale"))
    else None
  }

  /** The generic shop=wholesale fallback after the loop never decides anything:
      shop=wholesale is the first configured pair. */
  lemma GenericWholesaleFallbackIsDead(tags: Tags)
    ensures Get(tags, "shop") == Some("wholesale") ==> DetectMatchedKv(tags) == Some(("shop", "wholesale"))
  {
    assert ConfiguredPairs[0] == ("shop", "wholesale");
  }

  /** A wholesale pair, when present, is always preferred over a retail pair. */
  lemma WholesalePairsWin(tags: Tags, p: TagPair)
    requires p in WholesaleOsmTags && HasPair(tags, p)
    ensures DetectMatchedKv(tags).Some? && DetectMatchedKv(tags).value in WholesaleOsmTags
  {
    var i := FirstPresentPair(ConfiguredPairs, tags);
    var k :| 0 <= k < |WholesaleOsmTags| && WholesaleOsmTags[k] == p;
    assert ConfiguredPairs[k] == p;
    assert i <= k;
    assert ConfiguredPairs[i] == WholesaleOsmTags[i];
  }

  /** The element's Place ID: first letter of its type (or '?'), "_", its id
      (`str(None)` when it has none). */
  function ElementUid(el: Element): (r: string)
    ensures |r| == 2 + |IdText(el.id)| && r[1] == '_' && r[2..] == IdText(el.id)
    ensures r[0] == if el.kind.Some? then el.kind.value[0] else '?'
  {
    var t := match el.kind case Some(k) => k[0] case None => '?';
    [t] + "_" + IdText(el.id)
  }

  function IdText(id: Option<int>): string {
    match id
    case Some(n) => IntToString(n)
    case None => "None"
  }

  /** Two elements share a Place ID only if their types start with the same letter
      and their ids are equal. */
  lemma ElementUidInjective(a: Element, b: Element)
    requires ElementUid(a) == ElementUid(b)
    ensures ElementUid(a)[0] == ElementUid(b)[0] && a.id == b.id
  {
    var ua, ub := ElementUid(a), ElementUid(b);
    assert IdText(a.id) == ua[2..] == IdText(b.id);
    match a.id
    case Some(n) =>
      assert IdText(a.id)[0] != 'N';
      assert b.id.Some?;
      IntToStringInjective(n, b.id.value);
    case None =>
  }

  /** The informative keys `build_type_string` keeps, in output order. */
  const TypeKeys: seq<string> := ["shop", "amenity", "wholesale", "industry", "product", "brand", "operator"]

  /** The "key=value" entries of the keys of `keys` present in `tags`; there are
      none exactly when no key is present. */
  function TypeEntries(keys: seq<string>, tags: Tags): (r: seq<string>)
    ensures |r| <= |keys|
    ensures forall i :: 0 <= i < |r| ==> exists j :: 0 <= j < |keys| && Get(tags, keys[j]).Some?
                                                  && r[i] == keys[j] + "=" + Get(tags, keys[j]).value
    ensures r == [] <==> forall j :: 0 <= j < |keys| ==> Get(tags, keys[j]).None?
  {
    if keys == [] then []
    else
      var rest := TypeEntries(keys[1..], tags);
      assert forall i :: 0 <= i < |rest| ==> exists j :: 1 <= j < |keys| && Get(tags, keys[j]).Some?
                                                      && rest[i] == keys[j] + "=" + Get(tags, keys[j]).value by {
        forall i | 0 <= i < |rest|
          ensures exists j :: 1 <= j < |keys| && Get(tags, keys[j]).Some? && rest[i] == keys[j] + "=" + Get(tags, keys[j]).value
        {
          var j :| 0 <= j < |keys| - 1 && Get(tags, keys[1..][j]).Some?
                   && rest[i] == keys[1..][j] + "=" + Get(tags, keys[1..][j]).value;
          assert keys[1..][j] == keys[j + 1];
        }
      }
      assert (forall j :: 1 <= j < |keys| ==> Get(tags, keys[j]).None?)
          <==> (forall j :: 0 <= j < |keys| - 1 ==> Get(tags, keys[1..][j]).None?) by {
        forall j | 0 <= j < |keys| - 1 ensures keys[1..][j] == keys[j + 1] {
        }
      }
      match Get(tags, keys[0])
      case Some(v) => [keys[0] + "=" + v] + rest
      case None => rest
  }

  /** The entry of one key: "key=value" when the key is present. */
  function KeyEntry(tags: Tags, k: string): seq<string> {
    match Get(tags, k)
    case Some(v) => [k + "=" + v]
    case None => []
  }

  function KeyEntries(tags: Tags): string -> seq<string> {
    (k: string) => KeyEntry(tags, k)
  }

  /** The entries are the keys' own entries in key order: one per present key, and
      none for an absent one. */
  lemma {:induction false} TypeEntriesInKeyOrder(keys: seq<string>, tags: Tags)
    ensures TypeEntries(keys, tags) == Dedup.FlatMap(keys, KeyEntries(tags))
    decreases |keys|
  {
    var f := KeyEntries(tags);
    if keys != [] {
      TypeEntriesInKeyOrder(keys[1..], tags);
      assert keys == [keys[0]] + keys[1..];
      Dedup.FlatMapAppend([keys[0]], keys[1..], f);
      assert [keys[0]][..0] == [];
      assert Dedup.FlatMap([keys[0]], f) == f(keys[0]);
      assert f(keys[0]) == KeyEntry(tags, keys[0]);
    }
  }

  /** Every informative key present in the tags shows up with its value. */
  lemma TypeEntryPresent(keys: seq<string>, tags: Tags, j: nat)
    requires j < |keys| && Get(tags, keys[j]).Some?
    ensures keys[j] + "=" + Get(tags, keys[j]).value in TypeEntries(keys, tags)
  {
    var f := KeyEntries(tags);
    TypeEntriesInKeyOrder(keys, tags);
    Dedup.FlatMapContains(keys, f, j, keys[j] + "=" + Get(tags, keys[j]).value);
  }

  /** `build_type_string`: the informative tags as "k=v", joined with ", "; it is
      empty exactly when none of the informative keys is present. */
  function BuildTypeString(tags: Tags): (r: string)
    ensures r == "" <==> forall j :: 0 <= j < |TypeKeys| ==> Get(tags, TypeKeys[j]).None?
  {
    var entries := TypeEntries(TypeKeys, tags);
    if entries != [] then
      var j :| 0 <= j < |TypeKeys| && Get(tags, TypeKeys[j]).Some?
               && entries[0] == TypeKeys[j] + "=" + Get(tags, TypeKeys[j]).value;
      JoinNonEmpty(entries, ", ");
      Join(entries, ", ")
    else Join(entries, ", ")
  }

  /** The row `parse_elements` builds for one new element found in the pass whose
      segment is `hint`. */
  function BuildRow(location: string, hint: Segment, el: Element): (r: Row)
    ensures r.placeId == ElementUid(el)
    ensures DetectMatchedKv(el.tags).None? ==> r.segment == hint && r.naics == ""
    ensures DetectMatchedKv(el.tags).Some? ==>
              (r.segment, r.naics) == InferSegmentAndNaics(GetOr(el.tags, "name", ""), el.tags, DetectMatchedKv(el.tags).value)
  {
    var tags := el.tags;
    var name := GetOr(tags, "name", "");
    var kv := DetectMatchedKv(tags);
    var classified := if kv.Some? then InferSegmentAndNaics(name, tags, kv.value) else (hint, "");
    Row(location, classified.0, classified.1, name, ExtractAddress(el), ExtractPhone(tags),
        ExtractWebsite(tags), ExtractCenter(el), ElementUid(el), BuildTypeString(tags))
  }

  /** A matched wholesale pair always yields a wholesale row: its "k=v" text puts
      "wholesale" in the blob (or the pair is shop=wholesale itself). */
  lemma WholesaleMatchIsWholesaleRow(location: string, hint: Segment, el: Element)
    requires DetectMatchedKv(el.tags).Some? && DetectMatchedKv(el.tags).value in WholesaleOsmTags
    ensures BuildRow(location, hint, el).segment == Wholesale
  {
    var kv := DetectMatchedKv(el.tags).value;
    assert HasPair(el.tags, kv);
    WholesalePairIsWholesale(GetOr(el.tags, "name", ""), el.tags, kv);
  }

  lemma WholesalePairIsWholesale(name: string, tags: Tags, kv: TagPair)
    requires kv in WholesaleOsmTags && HasPair(tags, kv)
    ensures InferSegmentAndNaics(name, tags, kv).0 == Wholesale
  {
    WholesalePairMarksBlob(name, tags, kv);
  }

  /** A present wholesale pair is shop=wholesale or puts "wholesale" in the blob. */
  lemma WholesalePairMarksBlob(name: string, tags: Tags, kv: TagPair)
    requires kv in WholesaleOsmTags && HasPair(tags, kv)
    ensures kv == ("shop", "wholesale") || Contains(Blob(name, tags), "wholesale")
  {
    WholesaleTagsMentionWholesale();
    if kv != ("shop", "wholesale") {
      WholesaleIsLowerCase();
      KeyInBlob(name, tags, kv.0);
    }
  }

  /** A lower-case key present in the tags appears in the blob. */
  lemma KeyInBlob(name: string, tags: Tags, key: string)
    requires Get(tags, key).Some? && IsLowerCase(key)
    ensures Contains(Blob(name, tags), key)
  {
    var k := GetIndex(tags, key);
    TagKeyInBlob(name, tags, k);
  }

  lemma WholesaleIsLowerCase()
    ensures IsLowerCase("wholesale")
  {
  }

  /** A lower-case tag key always occurs in the blob. */
  lemma TagKeyInBlob(name: string, tags: Tags, k: nat)
    requires k < |tags| && IsLowerCase(tags[k].0)
    ensures Contains(Blob(name, tags), tags[k].0)
  {
    var texts := TagTexts(tags);
    var key := tags[k].0;
    assert texts[k] == key + "=" + tags[k].1;
    assert texts[k][0..|key|] == key;
    ContainsAt(texts[k], key, 0);
    JoinContains(texts, " ", k);
    var a, b :| Join(texts, " ") == a + texts[k] + b;
    ContainsInfix(name + " " + a, texts[k], b, key);
    assert name + " " + Join(texts, " ") == (name + " " + a) + texts[k] + b;
    LowerKeepsLowerCaseInfix(name + " " + Join(texts, " "), key);
  }

  lemma {:induction false} GetIndex(tags: Tags, k: string) returns (i: nat)
    requires Get(tags, k).Some?
    ensures i < |tags| && tags[i] == (k, Get(tags, k).value)
  {
    if tags[0].0 == k {
      i := 0;
    } else {
      var j := GetIndex(tags[1..], k);
      i := j + 1;
    }
  }

  lemma {:induction false} JoinContains(parts: seq<string>, sep: string, k: nat)
    requires k < |parts|
    ensures exists a, b :: Join(parts, sep) == a + parts[k] + b
    decreases |parts|
  {
    if |parts| == 1 {
      assert Join(parts, sep) == "" + parts[0] + "";
    } else if k == 0 {
      assert Join(parts, sep) == "" + parts[0] + (sep + Join(parts[1..], sep));
    } else {
      JoinContains(parts[1..], sep, k - 1);
      var a, b :| Join(parts[1..], sep) == a + parts[1..][k - 1] + b;
      assert Join(parts, sep) == (parts[0] + sep + a) + parts[k] + b;
    }
  }

  /** Lower-casing keeps every lower-case pattern that the text already contains. */
  lemma LowerKeepsLowerCaseInfix(s: string, pat: string)
    requires Contains(s, pat) && IsLowerCase(pat)
    ensures Contains(Lower(s), pat)
  {
    var i := ContainsWitness(s, pat);
    assert Lower(s)[i..i + |pat|] == pat;
    ContainsAt(Lower(s), pat, i);
  }

  /** The rows of a sequence of new elements, in order. */
  function Rows(location: string, hint: Segment, els: seq<Element>): (r: seq<Row>)
    ensures |r| == |els|
    ensures forall i :: 0 <= i < |els| ==> r[i] == BuildRow(location, hint, els[i])
  {
    seq(|els|, i requires 0 <= i < |els| => BuildRow(location, hint, els[i]))
  }

  lemma RowsSnoc(location: string, hint: Segment, xs: seq<Element>, x: Element)
    ensures Rows(location, hint, xs + [x]) == Rows(location, hint, xs) + [BuildRow(location, hint, x)]
  {
    RowsAppend(location, hint, xs, [x]);
  }

  lemma RowsAppend(location: string, hint: Segment, xs: seq<Element>, ys: seq<Element>)
    ensures Rows(location, hint, xs + ys) == Rows(location, hint, xs) + Rows(location, hint, ys)
  {
    var l, a, b := Rows(location, hint, xs + ys), Rows(location, hint, xs), Rows(location, hint, ys);
    forall i | 0 <= i < |l|
      ensures l[i] == (a + b)[i]
    {
      if i >= |xs| {
        assert (xs + ys)[i] == ys[i - |xs|];
      }
    }
  }

  /** Every Place ID is admissible: `parse_elements` has no blank-id test. */
  function AnyUid(uid: string): bool {
    true
  }

  /** The elements `parse_elements` keeps and the seen set it leaves behind. */
  function ParseScan(elements: seq<Element>, seen: set<string>): (seq<Element>, set<string>) {
    Dedup.Scan(elements, ElementUid, AnyUid, seen)
  }

  /** `parse_elements`: one row per element whose Place ID is neither in the caller's
      set nor earlier in the list; the caller's set grows in place. */
  method ParseElements(elements: seq<Element>, location: string, hint: Segment, seenIds: Dedup.IdSet)
    returns (parsed: seq<Row>)
    modifies seenIds
    ensures parsed == Rows(location, hint, ParseScan(elements, old(seenIds.ids)).0)
    ensures seenIds.ids == ParseScan(elements, old(seenIds.ids)).1
  {
    parsed := [];
    ghost var kept: seq<Element> := [];
    var i := 0;
    while i < |elements|
      invariant 0 <= i <= |elements|
      invariant (kept, seenIds.ids) == ParseScan(elements[..i], old(seenIds.ids))
      invariant parsed == Rows(location, hint, kept)
    {
      var el := elements[i];
      var uid := ElementUid(el);
      Dedup.ScanStep(elements, i, ElementUid, AnyUid, old(seenIds.ids));
      if uid !in seenIds.ids {
        seenIds.ids := seenIds.ids + {uid};
        RowsSnoc(location, hint, kept, el);
        parsed := parsed + [BuildRow(location, hint, el)];
        kept := kept + [el];
      }
      i := i + 1;
    }
    assert elements[..i] == elements;
  }

  /** What `parse_elements` promises its caller: Place IDs pairwise distinct and new
      to the incoming set; the set afterwards is the old one plus the uid of every
      element; the rows are those of the first occurrences, in input order. */
  lemma ParsedRowsDistinctAndNew(location: string, hint: Segment, elements: seq<Element>, seen: set<string>)
    ensures var rows := Rows(location, hint, ParseScan(elements, seen).0);
            && (forall i, j :: 0 <= i < j < |rows| ==> rows[i].placeId != rows[j].placeId)
            && (forall i :: 0 <= i < |rows| ==> rows[i].placeId !in seen)
            && ParseScan(elements, seen).1 == seen + (set el | el in elements :: ElementUid(el))
            && ParseScan(elements, seen).0 == Dedup.FirstNew(elements, ElementUid, AnyUid, seen)
  {
    Dedup.ScanSeen(elements, ElementUid, AnyUid, seen);
    Dedup.ScanIsFirstNew(elements, ElementUid, AnyUid, seen);
    var all := set el | el in elements :: ElementUid(el);
    assert Dedup.AdmittedKeys(elements, ElementUid, AnyUid) == all by {
      forall u | u in all ensures u in Dedup.AdmittedKeys(elements, ElementUid, AnyUid) {
        var el :| el in elements && ElementUid(el) == u;
        var i :| 0 <= i < |elements| && elements[i] == el;
      }
    }
  }

  /** The rows `run_one_location_osm` returns for a geocoded location: the retail
      pass, then the wholesale pass, through one seen set that starts empty. */
  function TwoPassRows(location: string, retailElements: seq<Element>, wholesaleElements: seq<Element>): seq<Row> {
    var first := ParseScan(retailElements, {});
    var second := ParseScan(wholesaleElements, first.1);
    Rows(location, Retail, first.0) + Rows(location, Wholesale, second.0)
  }

  /** `run_one_location_osm`, with the geocoder's answer and the two Overpass answers
      as inputs: no rows when the location cannot be geocoded. */
  method RunOneLocationOsm(location: string, geocoded: Option<(real, real)>,
                           retailElements: seq<Element>, wholesaleElements: seq<Element>)
    returns (rows: seq<Row>)
    ensures geocoded.None? ==> rows == []
    ensures geocoded.Some? ==> rows == TwoPassRows(location, retailElements, wholesaleElements)
  {
    if geocoded.None? {
      return [];
    }
    var seenIds := new Dedup.IdSet();
    var retailRows := ParseElements(retailElements, location, Retail, seenIds);
    var wholesaleRows := ParseElements(wholesaleElements, location, Wholesale, seenIds);
    rows := retailRows + wholesaleRows;
  }

  /** Across the two passes every Place ID appears at most once, and an element found
      by both passes keeps the row of the retail pass: no wholesale-pass row carries
      the uid of a retail element. */
  lemma TwoPassEmitsEachUidOnce(location: string, retailElements: seq<Element>, wholesaleElements: seq<Element>)
    ensures var rows := TwoPassRows(location, retailElements, wholesaleElements);
            var n := |ParseScan(retailElements, {}).0|;
            && (forall i, j :: 0 <= i < j < |rows| ==> rows[i].placeId != rows[j].placeId)
            && (forall j :: n <= j < |rows| ==> forall el :: el in retailElements ==> rows[j].placeId != ElementUid(el))
            && (forall i :: 0 <= i < n ==> rows[i].segment == BuildRow(location, Retail, ParseScan(retailElements, {}).0[i]).segment)
  {
    TwoPassUidsDistinct(location, retailElements, wholesaleElements);
    TwoPassSecondAvoidsRetail(location, retailElements, wholesaleElements);
  }

  /** The two passes together are one walk over both answers, so their Place IDs
      are pairwise different. */
  lemma TwoPassUidsDistinct(location: string, retailElements: seq<Element>, wholesaleElements: seq<Element>)
    ensures var rows := TwoPassRows(location, retailElements, wholesaleElements);
            forall i, j :: 0 <= i < j < |rows| ==> rows[i].placeId != rows[j].placeId
  {
    TwoPassRowIds(location, retailElements, wholesaleElements);
  }

  /** Row `i` of the two passes carries the uid of item `i` of the joint walk. */
  lemma TwoPassRowIds(location: string, retailElements: seq<Element>, wholesaleElements: seq<Element>)
    ensures var rows := TwoPassRows(location, retailElements, wholesaleElements);
            var all := Dedup.Scan(retailElements + wholesaleElements, ElementUid, AnyUid, {}).0;
            |rows| == |all| && forall i :: 0 <= i < |rows| ==> rows[i].placeId == ElementUid(all[i])
  {
    var first := ParseScan(retailElements, {});
    var second := ParseScan(wholesaleElements, first.1);
    Dedup.ScanAppend(retailElements, wholesaleElements, ElementUid, AnyUid, {});
    var all := Dedup.Scan(retailElements + wholesaleElements, ElementUid, AnyUid, {}).0;
    assert all == first.0 + second.0;
    var rows := TwoPassRows(location, retailElements, wholesaleElements);
    var n := |first.0|;
    forall i | 0 <= i < |rows| ensures rows[i].placeId == ElementUid(all[i]) {
      if i < n {
        assert rows[i] == Rows(location, Retail, first.0)[i];
        assert all[i] == first.0[i];
      } else {
        assert rows[i] == Rows(location, Wholesale, second.0)[i - n];
        assert all[i] == second.0[i - n];
      }
    }
  }

  /** The wholesale pass starts from the retail pass's seen set, which holds the
      Place ID of every retail element. */
  lemma TwoPassSecondAvoidsRetail(location: string, retailElements: seq<Element>, wholesaleElements: seq<Element>)
    ensures var rows := TwoPassRows(location, retailElements, wholesaleElements);
            var n := |ParseScan(retailElements, {}).0|;
            forall j :: n <= j < |rows| ==> forall el :: el in retailElements ==> rows[j].placeId != ElementUid(el)
  {
    var first := ParseScan(retailElements, {});
    var second := ParseScan(wholesaleElements, first.1);
    RetailUidsSeen(retailElements);
    var rows := TwoPassRows(location, retailElements, wholesaleElements);
    var n := |first.0|;
    forall j | n <= j < |rows|
      ensures rows[j].placeId in second.1 - first.1
    {
      assert rows[j] == Rows(location, Wholesale, second.0)[j - n];
    }
  }

  lemma RetailUidsSeen(retailElements: seq<Element>)
    ensures forall el :: el in retailElements ==> ElementUid(el) in ParseScan(retailElements, {}).1
  {
    Dedup.ScanSeen(retailElements, ElementUid, AnyUid, {});
    forall el | el in retailElements
      ensures ElementUid(el) in ParseScan(retailElements, {}).1
    {
      var k :| 0 <= k < |retailElements| && retailElements[k] == el;
    }
  }


}
