/** The classification tables of config_osm.py, transcribed in their source order,
    and the first-match lookup through an ordered keyword table. */
module ConfigOsm {
  import opened Text

  type TagPair = (string, string)

  /** `RETAIL_OSM_TAGS`: the (key, value) pairs searched in the retail pass. */
  const RetailOsmTags: seq<TagPair> := [
    ("shop", "supermarket"), ("shop", "grocery"), ("shop", "convenience"),
    ("shop", "greengrocer"),
    ("shop", "organic"), ("shop", "dairy"), ("shop", "cheese"), ("shop", "chocolate"),
    ("shop", "confectionery"), ("shop", "butcher"),
    ("shop", "florist"),
    ("shop", "cosmetics"), ("shop", "perfumery"), ("shop", "beauty"), ("shop", "chemist"),
    ("shop", "health_food"),
    ("shop", "department_store"), ("shop", "general"), ("shop", "variety_store"),
    ("shop", "alcohol"), ("shop", "beverages"), ("shop", "wine"), ("shop", "beer"),
    ("shop", "tobacco")
  ]

  /** `WHOLESALE_OSM_TAGS`: the pairs searched in the wholesale pass. */
  const WholesaleOsmTags: seq<TagPair> := [
    ("shop", "wholesale"),
    ("wholesale", "food"), ("wholesale", "groceries"), ("wholesale", "beverages"),
    ("wholesale", "alcohol"), ("wholesale", "wine"), ("wholesale", "beer"),
    ("wholesale", "fruit"), ("wholesale", "vegetables"), ("wholesale", "meat"),
    ("wholesale", "seafood"), ("wholesale", "dairy"),
    ("wholesale", "cosmetics"), ("wholesale", "health_products"), ("wholesale", "chemicals")
  ]

  /** `OSM_TO_NAICS_RETAIL`: retail NAICS code of each retail pair. */
  const OsmToNaicsRetail: map<TagPair, string> := map[
    ("shop", "supermarket") := "445110",
    ("shop", "grocery") := "445110",
    ("shop", "convenience") := "445120",
    ("shop", "greengrocer") := "445230",
    ("shop", "organic") := "445110",
    ("shop", "dairy") := "445299",
    ("shop", "cheese") := "445299",
    ("shop", "chocolate") := "445292",
    ("shop", "confectionery") := "445292",
    ("shop", "butcher") := "445210",
    ("shop", "florist") := "453110",
    ("shop", "cosmetics") := "446120",
    ("shop", "perfumery") := "446120",
    ("shop", "beauty") := "446120",
    ("shop", "chemist") := "446110",
    ("shop", "health_food") := "446191",
    ("shop", "department_store") := "452210",
    ("shop", "general") := "452319",
    ("shop", "variety_store") := "452319",
    ("shop", "alcohol") := "445310",
    ("shop", "beverages") := "445310",
    ("shop", "wine") := "445310",
    ("shop", "beer") := "445310",
    ("shop", "tobacco") := "453991"
  ]

  /** `WHOLESALE_KEYWORD_TO_NAICS`: ordered (keyword, code) list; earlier entries win. */
  const WholesaleKeywordToNaics: seq<(string, string)> := [
    ("frozen", "424420"),
    ("dairy", "424430"),
    ("seafood", "424460"),
    ("fish", "424460"),
    ("meat", "424470"),
    ("poultry", "424470"),
    ("fruit", "424480"),
    ("vegetable", "424480"),
    ("produce", "424480"),
    ("grocery", "424410"),
    ("general line", "424410"),
    ("food service", "424410"),
    ("beverage", "424490"),
    ("alcohol", "424820"),
    ("wine", "424820"),
    ("beer", "424810"),
    ("cosmetic", "424210"),
    ("health", "424210"),
    ("chemical", "424690")
  ]

  /** `DEFAULT_WHOLESALE_NAICS`. */
  const DefaultWholesaleNaics: string := "424490"

  /** A six-digit NAICS code whose sector is `sector` (its first two digits). */
  predicate IsNaicsIn(code: string, sector: string) {
    |code| == 6 && (forall i :: 0 <= i < 6 ==> '0' <= code[i] <= '9') && code[..2] == sector
  }

  /** Position of the first table entry whose keyword occurs in `blob`, or `|table|`
      when none does. */
  function FirstKeywordIndex(table: seq<(string, string)>, blob: string): (i: nat)
    ensures i <= |table|
    ensures forall j :: 0 <= j < i ==> !Contains(blob, table[j].0)
    ensures i < |table| ==> Contains(blob, table[i].0)
  {
    if table == [] then 0
    else if Contains(blob, table[0].0) then 0
    else 1 + FirstKeywordIndex(table[1..], blob)
  }

  /** The code of the first entry whose keyword occurs in `blob`, else `default`:
      the `for key, code in table: if key in blob: return code` loop. */
  function FirstKeywordCode(table: seq<(string, string)>, blob: string, default: string): string {
    var i := FirstKeywordIndex(table, blob);
    if i < |table| then table[i].1 else default
  }

  /** A first-match lookup returns a code of `sector` when every code of the table
      and the fallback are in it. */
  lemma FirstKeywordCodeInSector(table: seq<(string, string)>, blob: string, default: string, sector: string)
    requires forall i :: 0 <= i < |table| ==> IsNaicsIn(table[i].1, sector)
    requires IsNaicsIn(default, sector)
    ensures IsNaicsIn(FirstKeywordCode(table, blob, default), sector)
  {
  }

  /** Every retail search pair has a retail NAICS code. */
  lemma RetailTagsAllMapped()
    ensures forall p :: p in RetailOsmTags ==> p in OsmToNaicsRetail
  {
  }

  /** Every retail pair is a `shop=*` tag other than shop=wholesale. */
  lemma RetailTagsAreShopTags()
    ensures forall p :: p in RetailOsmTags ==> p.0 == "shop" && p.1 != "wholesale"
  {
    forall i | 0 <= i < |RetailOsmTags|
      ensures RetailOsmTags[i].0 == "shop" && RetailOsmTags[i].1 != "wholesale"
    {
      assert RetailOsmTags[i].0 == "shop";
      assert RetailOsmTags[i].1 != "wholesale";
    }
  }

  /** No pair is searched in both passes. */
  lemma TagListsDisjoint()
    ensures forall p :: p in RetailOsmTags ==> p !in WholesaleOsmTags
  {
    RetailTagsAreShopTags();
    WholesaleTagsMentionWholesale();
    ShopTagsAvoidWholesaleTags(RetailOsmTags, WholesaleOsmTags);
  }

  /** Shop tags other than shop=wholesale never occur in a list of wholesale tags. */
  lemma ShopTagsAvoidWholesaleTags(shops: seq<TagPair>, wholesale: seq<TagPair>)
    requires forall p :: p in shops ==> p.0 == "shop" && p.1 != "wholesale"
    requires forall p :: p in wholesale ==> p == ("shop", "wholesale") || p.0 == "wholesale"
    ensures forall p :: p in shops ==> p !in wholesale
  {
    assert "shop" != "wholesale" by { assert |"shop"| != |"wholesale"|; }
  }

  /** Every wholesale pair is shop=wholesale or has the key "wholesale". */
  lemma WholesaleTagsMentionWholesale()
    ensures forall p :: p in WholesaleOsmTags ==> p == ("shop", "wholesale") || p.0 == "wholesale"
  {
    var rest := WholesaleOsmTags[1..];
    assert WholesaleOsmTags == [("shop", "wholesale")] + rest;
    assert forall i :: 0 <= i < |rest| ==> rest[i].0 == "wholesale";
    AllButFirstKeyed(("shop", "wholesale"), rest, "wholesale");
  }

  /** Every pair of a list whose tail shares one key is its head or has that key. */
  lemma AllButFirstKeyed(first: TagPair, rest: seq<TagPair>, key: string)
    requires forall i :: 0 <= i < |rest| ==> rest[i].0 == key
    ensures forall p :: p in [first] + rest ==> p == first || p.0 == key
  {
  }

  /** A six-digit code is in the sector named by its first two digits. */
  lemma NaicsFromDigits(code: string, sector: string)
    requires |code| == 6 && (forall i :: 0 <= i < |code| ==> '0' <= code[i] <= '9')
    requires |sector| == 2 && code[0] == sector[0] && code[1] == sector[1]
    ensures IsNaicsIn(code, sector)
  {
    assert code[..2] == sector;
  }

  /** Wholesale codes are six-digit codes of sector 42 (merchant wholesalers). */
  lemma WholesaleCodesInSector42()
    ensures forall i :: 0 <= i < |WholesaleKeywordToNaics| ==> IsNaicsIn(WholesaleKeywordToNaics[i].1, "42")
    ensures forall e :: e in WholesaleKeywordToNaics ==> IsNaicsIn(e.1, "42")
    ensures IsNaicsIn(DefaultWholesaleNaics, "42")
  {
    forall i | 0 <= i < |WholesaleKeywordToNaics|
      ensures IsNaicsIn(WholesaleKeywordToNaics[i].1, "42")
    {
      var code := WholesaleKeywordToNaics[i].1;
      assert |code| == 6;
      assert forall k :: 0 <= k < |code| ==> '0' <= code[k] <= '9';
      assert code[0] == '4' && code[1] == '2';
      NaicsFromDigits(code, "42");
    }
    NaicsFromDigits(DefaultWholesaleNaics, "42");
  }

  /** Retail codes are six-digit codes of sectors 44 or 45 (retail trade). */
  lemma RetailCodesInSectors44And45()
    ensures forall p :: p in OsmToNaicsRetail ==> IsNaicsIn(OsmToNaicsRetail[p], "44") || IsNaicsIn(OsmToNaicsRetail[p], "45")
  {
    var codes := ["445110", "445120", "445230", "445299", "445292", "445210", "453110",
                  "446120", "446110", "446191", "452210", "452319", "445310", "453991"];
    forall i | 0 <= i < |codes|
      ensures IsNaicsIn(codes[i], "44") || IsNaicsIn(codes[i], "45")
    {
      var code := codes[i];
      assert |code| == 6;
      assert forall k :: 0 <= k < |code| ==> '0' <= code[k] <= '9';
      assert code[0] == '4' && (code[1] == '4' || code[1] == '5');
      if code[1] == '4' {
        NaicsFromDigits(code, "44");
      } else {
        NaicsFromDigits(code, "45");
      }
    }
    assert forall p :: p in OsmToNaicsRetail ==> OsmToNaicsRetail[p] in codes;
  }
}
