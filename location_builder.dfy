/** location_builder.py: builds the `state,city,radius_miles` location list from the
    Census place names of every state. The Census request is a parameter: its
    answer for a state code is the decoded JSON table, or none when the request
    or the decoding fails. */
module LocationBuilder {
  import opened Text
  import opened Optional
  import Dedup

  const DefaultRadiusMiles: int := 25

  predicate IsPostalCode(ab: string) {
    |ab| == 2 && 'A' <= ab[0] <= 'Z' && 'A' <= ab[1] <= 'Z'
  }

  /** A two-letter upper-case state abbreviation. */
  type PostalCode = ab: string | IsPostalCode(ab) witness "AL"

  /** A `STATE_FIPS` entry: FIPS code, then the postal abbreviation and the full name. */
  type StateEntry = (string, (PostalCode, string))

  const StateFipsPart1: seq<StateEntry> := [
    ("01", ("AL", "Alabama")), ("02", ("AK", "Alaska")), ("04", ("AZ", "Arizona")),
    ("05", ("AR", "Arkansas")), ("06", ("CA", "California")), ("08", ("CO", "Colorado")),
    ("09", ("CT", "Connecticut")), ("10", ("DE", "Delaware")), ("11", ("DC", "District of Columbia"))
  ]

  const StateFipsPart2: seq<StateEntry> := [
    ("12", ("FL", "Florida")), ("13", ("GA", "Georgia")), ("15", ("HI", "Hawaii")),
    ("16", ("ID", "Idaho")), ("17", ("IL", "Illinois")), ("18", ("IN", "Indiana")),
    ("19", ("IA", "Iowa")), ("20", ("KS", "Kansas")), ("21", ("KY", "Kentucky"))
  ]

  const StateFipsPart3: seq<StateEntry> := [
    ("22", ("LA", "Louisiana")), ("23", ("ME", "Maine")), ("24", ("MD", "Maryland")),
    ("25", ("MA", "Massachusetts")), ("26", ("MI", "Michigan")), ("27", ("MN", "Minnesota")),
    ("28", ("MS", "Mississippi")), ("29", ("MO", "Missouri")), ("30", ("MT", "Montana"))
  ]

  const StateFipsPart4: seq<StateEntry> := [
    ("31", ("NE", "Nebraska")), ("32", ("NV", "Nevada")), ("33", ("NH", "New Hampshire")),
    ("34", ("NJ", "New Jersey")), ("35", ("NM", "New Mexico")), ("36", ("NY", "New York")),
    ("37", ("NC", "North Carolina")), ("38", ("ND", "North Dakota")), ("39", ("OH", "Ohio"))
  ]

  const StateFipsPart5: seq<StateEntry> := [
    ("40", ("OK", "Oklahoma")), ("41", ("OR", "Oregon")), ("42", ("PA", "Pennsylvania")),
    ("44", ("RI", "Rhode Island")), ("45", ("SC", "South Carolina")), ("46", ("SD", "South Dakota")),
    ("47", ("TN", "Tennessee")), ("48", ("TX", "Texas")), ("49", ("UT", "Utah"))
  ]

  const StateFipsPart6: seq<StateEntry> := [
    ("50", ("VT", "Vermont")), ("51", ("VA", "Virginia")), ("53", ("WA", "Washington")),
    ("54", ("WV", "West Virginia")), ("55", ("WI", "Wisconsin")), ("56", ("WY", "Wyoming"))
  ]

  /** `STATE_FIPS`: FIPS code, postal abbreviation and full name, in table order.
      Every abbreviation is checked to be two upper-case letters. */
  const StateFips: seq<StateEntry> :=
    StateFipsPart1 + StateFipsPart2 + StateFipsPart3 + StateFipsPart4 + StateFipsPart5 + StateFipsPart6

  /** The first step of `clean_place_name`: a trailing comma, optional whitespace and
      the exact full state name are removed; anything else is left alone. */
  function StripStateSuffix(raw: string, full: string): (r: string)
    ensures r == raw || (EndsWith(raw, full) && exists ws :: AllSpace(ws) && raw == r + "," + ws + full)
  {
    if EndsWith(raw, full) then
      var head := TrimRight(raw[..|raw| - |full|]);
      if head != [] && head[|head| - 1] == ',' then
        var r := head[..|head| - 1];
        var ws := raw[|head|..|raw| - |full|];
        assert raw == r + "," + ws + full;
        r
      else raw
    else raw
  }

  /** A name followed by a comma, whitespace and the full state name loses exactly
      that ending. */
  lemma StripStateSuffixRemoves(r: string, ws: string, full: string)
    requires AllSpace(ws)
    ensures StripStateSuffix(r + "," + ws + full, full) == r
  {
    var raw := r + "," + ws + full;
    assert raw[|raw| - |full|..] == full;
    assert raw[..|raw| - |full|] == (r + ",") + ws;
    TrimRightSpaces(r + ",", ws);
    assert (r + ",")[..|r|] == r;
  }

  /** `rstrip()` removes exactly the trailing whitespace after a non-space. */
  lemma {:induction false} TrimRightSpaces(a: string, ws: string)
    requires a != [] && !IsSpace(a[|a| - 1]) && AllSpace(ws)
    ensures TrimRight(a + ws) == a
    decreases |ws|
  {
    var s := a + ws;
    if ws == [] {
      assert s == a;
    } else {
      assert s[|s| - 1] == ws[|ws| - 1];
      assert s[..|s| - 1] == a + ws[..|ws| - 1];
      TrimRightSpaces(a, ws[..|ws| - 1]);
    }
  }

  /** The designations removed by the second step, in lower case. */
  const Designations: set<string> := {"city", "town", "village", "cdp", "borough", "municipality",
                                      "urban county", "consolidated city"}

  /** Length of the whitespace run at the start of `s`. */
  function SpaceRun(s: string): (n: nat)
    ensures n <= |s| && AllSpace(s[..n]) && (n < |s| ==> !IsSpace(s[n]))
  {
    if s == [] || !IsSpace(s[0]) then 0
    else
      var n := SpaceRun(s[1..]);
      assert s[..n + 1] == [s[0]] + s[1..][..n];
      n + 1
  }

  /** Whether the pattern "whitespace, then a designation (ignoring case), then the
      end" matches `name` from position `p`. */
  predicate DesignationAt(name: string, p: nat)
    requires p <= |name|
  {
    var q := p + SpaceRun(name[p..]);
    q > p && Lower(name[q..]) in Designations
  }

  /** The leftmost position at or after `p` where the pattern matches, or `|name|`. */
  function LeftmostDesignation(name: string, p: nat): (i: nat)
    requires p <= |name|
    ensures p <= i <= |name|
    ensures forall j :: p <= j < i ==> !DesignationAt(name, j)
    ensures i < |name| ==> DesignationAt(name, i)
    decreases |name| - p
  {
    if p == |name| then p
    else if DesignationAt(name, p) then p
    else LeftmostDesignation(name, p + 1)
  }

  /** The second step: the leftmost match of the designation pattern is cut off.
      The result is a prefix of the name, and a name without surrounding whitespace
      keeps none: the cut happens at the start of a whitespace run. */
  function StripDesignation(name: string): (r: string)
    ensures |r| <= |name| && r == name[..|r|]
    ensures name == [] || (!IsSpace(name[0]) && !IsSpace(name[|name| - 1]))
            ==> r == [] || (!IsSpace(r[0]) && !IsSpace(r[|r| - 1]))
  {
    var i := LeftmostDesignation(name, 0);
    NoSpaceBeforeLeftmost(name, i);
    CutKeepsStripped(name, i);
    name[..i]
  }

  /** A cut of a name without surrounding whitespace, made just after a
      non-space, keeps none. */
  lemma CutKeepsStripped(name: string, i: nat)
    requires i <= |name| && (0 < i < |name| ==> !IsSpace(name[i - 1]))
    ensures name == [] || (!IsSpace(name[0]) && !IsSpace(name[|name| - 1]))
            ==> name[..i] == [] || (!IsSpace(name[0]) && !IsSpace(name[i - 1]))
  {
    if i > 0 {
      assert name[..i][0] == name[0] && name[..i][i - 1] == name[i - 1];
    }
  }

  /** Whitespace just before the leftmost match would start an earlier match. */
  lemma NoSpaceBeforeLeftmost(name: string, i: nat)
    requires i == LeftmostDesignation(name, 0)
    ensures 0 < i < |name| ==> !IsSpace(name[i - 1])
  {
    if 0 < i < |name| && IsSpace(name[i - 1]) {
      DesignationExtendsLeft(name, i);
      assert false;
    }
  }

  /** `clean_place_name`: the cleaned name is a prefix of the stripped name and has
      no surrounding whitespace. */
  function CleanPlaceName(raw: string, full: string): (r: string)
    ensures var s := Strip(StripStateSuffix(raw, full));
            |r| <= |s| && s[..|r|] == r
    ensures r == [] || (!IsSpace(r[0]) && !IsSpace(r[|r| - 1]))
  {
    var s := Strip(StripStateSuffix(raw, full));
    StripDesignation(s)
  }

  /** The pattern that matches at `i` also matches one position earlier when that
      position holds whitespace: both share the same designation. */
  lemma DesignationExtendsLeft(s: string, i: nat)
    requires 0 < i < |s| && DesignationAt(s, i) && IsSpace(s[i - 1])
    ensures DesignationAt(s, i - 1)
  {
    var t := s[i - 1..];
    assert t[0] == s[i - 1];
    assert t[1..] == s[i..];
    assert SpaceRun(t) == 1 + SpaceRun(s[i..]);
  }

  /** Whatever follows a cut is whitespace and one designation: at most one
      designation is removed, and the removed part reaches the end of the name. */
  lemma StripDesignationRemovesOne(name: string)
    ensures var c := StripDesignation(name);
            c == name || exists ws, d :: AllSpace(ws) && ws != [] && Lower(d) in Designations && name == c + ws + d
  {
    var i := LeftmostDesignation(name, 0);
    if i < |name| {
      var n := SpaceRun(name[i..]);
      var ws, d := name[i..i + n], name[i + n..];
      assert ws == name[i..][..n];
      assert Lower(d) in Designations;
      assert name == name[..i] + ws + d;
      assert AllSpace(ws) && ws != [] && Lower(d) in Designations && name == StripDesignation(name) + ws + d;
    }
  }

  /** A one-word place followed by whitespace, a designation in any letter case, a
      comma and the state's full name is cleaned to the bare word, e.g.
      "Shelton city, Connecticut" to "Shelton". */
  lemma CleanWordDesignationState(w: string, d: string, full: string)
    requires w != [] && NoSpace(w) && w[0] != ','
    requires Lower(d) in Designations && d != [] && !IsSpace(d[0]) && !IsSpace(d[|d| - 1])
    ensures CleanPlaceName(w + " " + d + ", " + full, full) == w
  {
    var named := w + " " + d;
    assert w + " " + d + ", " + full == named + ", " + full;
    CommaStateRemoved(named, full);
    assert named[0] == w[0] && named[|named| - 1] == d[|d| - 1];
    StripUnchanged(named);
    DesignationAfterWord(w, d);
  }

  /** ", <full name>" after a name is removed by the first step. */
  lemma CommaStateRemoved(named: string, full: string)
    ensures StripStateSuffix(named + ", " + full, full) == named
  {
    var raw := named + ", " + full;
    assert raw[..|raw| - |full|] == named + ", ";
    assert raw[|raw| - |full|..] == full;
    assert TrimRight(named + ", ") == named + "," by {
      assert (named + ", ")[..|named + ", "| - 1] == named + ",";
    }
    assert (named + ",")[..|named|] == named;
  }

  /** In "<word> <designation>" the leftmost match is the space after the word. */
  lemma DesignationAfterWord(w: string, d: string)
    requires NoSpace(w) && Lower(d) in Designations && d != [] && !IsSpace(d[0])
    ensures LeftmostDesignation(w + " " + d, 0) == |w|
    ensures StripDesignation(w + " " + d) == w
  {
    var named := w + " " + d;
    NoDesignationInsideWord(w, d);
    DesignationAtSpace(w, d);
    LeftmostIsFirst(named, 0, |w|);
    PrefixOfConcat(w, " ", d);
  }

  lemma PrefixOfConcat(a: string, b: string, c: string)
    ensures (a + b + c)[..|a|] == a
  {
  }

  /** No match starts inside the word of "<word> <designation>". */
  lemma NoDesignationInsideWord(w: string, d: string)
    requires NoSpace(w)
    ensures forall j :: 0 <= j < |w| ==> !DesignationAt(w + " " + d, j)
  {
    forall j | 0 <= j < |w| ensures !DesignationAt(w + " " + d, j) {
      NoDesignationInWord(w, " " + d, j);
    }
  }

  /** The pattern cannot start inside a word: it begins with whitespace. */
  lemma NoDesignationInWord(w: string, rest: string, j: nat)
    requires NoSpace(w) && j < |w|
    ensures !DesignationAt(w + rest, j)
  {
    assert (w + rest)[j..][0] == w[j];
    assert SpaceRun((w + rest)[j..]) == 0;
  }

  /** The space before a designation starts a match. */
  lemma DesignationAtSpace(w: string, d: string)
    requires Lower(d) in Designations && d != [] && !IsSpace(d[0])
    ensures DesignationAt(w + " " + d, |w|)
  {
    var t := (w + " " + d)[|w|..];
    assert t[0] == ' ';
    assert t[1..] == d;
    assert SpaceRun(d) == 0;
    assert SpaceRun(t) == 1;
    assert (w + " " + d)[|w| + 1..] == d;
  }

  lemma {:induction false} LeftmostIsFirst(name: string, p: nat, k: nat)
    requires p <= k < |name| && DesignationAt(name, k)
    requires forall j :: p <= j < k ==> !DesignationAt(name, j)
    ensures LeftmostDesignation(name, p) == k
    decreases k - p
  {
    if p < k {
      LeftmostIsFirst(name, p + 1, k);
    }
  }

  /** The filter of `fetch_places_for_state`: empty names and "balance of ..." names
      (in any letter case) are dropped. */
  predicate KeepPlace(place: string) {
    place != "" && !StartsWith(Lower(place), "balance of")
  }

  /** The place a Census row yields: its cleaned name, exactly when the filter keeps
      it. */
  function RowPlace(abbr: string, full: string, row: seq<string>): (r: seq<(string, string)>)
    requires |row| == 3
    ensures |r| <= 1 && forall i :: 0 <= i < |r| ==> r[i].0 == abbr && KeepPlace(r[i].1) && Strip(r[i].1) == r[i].1
    ensures KeepPlace(CleanPlaceName(row[0], full)) <==> r == [(abbr, CleanPlaceName(row[0], full))]
    ensures !KeepPlace(CleanPlaceName(row[0], full)) <==> r == []
  {
    var place := CleanPlaceName(row[0], full);
    CleanPlaceStripped(row[0], full);
    if KeepPlace(place) then [(abbr, place)] else []
  }

  lemma CleanPlaceStripped(raw: string, full: string)
    ensures Strip(CleanPlaceName(raw, full)) == CleanPlaceName(raw, full)
  {
    StripUnchanged(CleanPlaceName(raw, full));
  }

  /** The number of leading rows with exactly three columns. */
  function WellFormedPrefix(rows: seq<seq<string>>): (n: nat)
    ensures n <= |rows|
    ensures forall i :: 0 <= i < n ==> |rows[i]| == 3
    ensures n < |rows| ==> |rows[n]| != 3
  {
    if rows == [] || |rows[0]| != 3 then 0 else 1 + WellFormedPrefix(rows[1..])
  }

  /** Cutting the rows inside the well-formed prefix keeps all of them well formed. */
  lemma {:induction false} WellFormedPrefixOfPrefix(rows: seq<seq<string>>, j: nat)
    requires j <= WellFormedPrefix(rows)
    ensures WellFormedPrefix(rows[..j]) == j
    decreases j
  {
    if j > 0 {
      assert rows[..j][0] == rows[0];
      assert rows[..j][1..] == rows[1..][..j - 1];
      WellFormedPrefixOfPrefix(rows[1..], j - 1);
    }
  }

  /** The places `fetch_places_for_state` yields for the Census rows after the
      header row, at most one per row. Unpacking a row that does not have exactly
      three columns raises, which ends the state: what was yielded before it is
      kept. */
  function StatePlaces(abbr: string, full: string, rows: seq<seq<string>>): (r: seq<(string, string)>)
    ensures |r| <= WellFormedPrefix(rows)
  {
    var good := rows[..WellFormedPrefix(rows)];
    Dedup.FlatMapAtMostOne(good, (row: seq<string>) => if |row| == 3 then RowPlace(abbr, full, row) else []);
    Dedup.FlatMap(good, (row: seq<string>) => if |row| == 3 then RowPlace(abbr, full, row) else [])
  }

  /** Rows are handled in order: one more well-formed row appends its place, if any. */
  lemma StatePlacesStep(abbr: string, full: string, rows: seq<seq<string>>, k: nat)
    requires k < WellFormedPrefix(rows)
    ensures StatePlaces(abbr, full, rows[..k + 1]) == StatePlaces(abbr, full, rows[..k]) + RowPlace(abbr, full, rows[k])
  {
    var f := (row: seq<string>) => if |row| == 3 then RowPlace(abbr, full, row) else [];
    WellFormedPrefixOfPrefix(rows, k + 1);
    WellFormedPrefixOfPrefix(rows, k);
    assert rows[..k + 1][..k + 1] == rows[..k + 1];
    assert rows[..k][..k] == rows[..k];
    Dedup.FlatMapStep(rows, k, f);
  }

  /** Every well-formed row before the first malformed one whose cleaned name the
      filter keeps yields that place. */
  lemma StatePlacesComplete(abbr: string, full: string, rows: seq<seq<string>>, k: nat)
    requires k < WellFormedPrefix(rows) && KeepPlace(CleanPlaceName(rows[k][0], full))
    ensures (abbr, CleanPlaceName(rows[k][0], full)) in StatePlaces(abbr, full, rows)
  {
    var good := rows[..WellFormedPrefix(rows)];
    var f := (row: seq<string>) => if |row| == 3 then RowPlace(abbr, full, row) else [];
    assert good[k] == rows[k];
    assert f(good[k]) == [(abbr, CleanPlaceName(rows[k][0], full))];
    Dedup.FlatMapContains(good, f, k, (abbr, CleanPlaceName(rows[k][0], full)));
  }

  /** A malformed row ends the state: only the rows before it count. */
  lemma MalformedRowEndsState(abbr: string, full: string, rows: seq<seq<string>>, k: nat)
    requires k < |rows| && |rows[k]| != 3
    ensures StatePlaces(abbr, full, rows) == StatePlaces(abbr, full, rows[..k])
  {
    var n := WellFormedPrefix(rows);
    assert n <= k;
    var m := WellFormedPrefix(rows[..k]);
    assert m == n;
    assert rows[..k][..m] == rows[..n];
  }

  /** Every place yielded carries the state's abbreviation, passed the filter and has
      no surrounding whitespace. */
  lemma StatePlacesFiltered(abbr: string, full: string, rows: seq<seq<string>>)
    ensures forall p :: p in StatePlaces(abbr, full, rows) ==> p.0 == abbr && KeepPlace(p.1) && Strip(p.1) == p.1
  {
    var good := rows[..WellFormedPrefix(rows)];
    var f := (row: seq<string>) => if |row| == 3 then RowPlace(abbr, full, row) else [];
    FlatMapAll(good, f, (p: (string, string)) => p.0 == abbr && KeepPlace(p.1) && Strip(p.1) == p.1);
  }

  lemma {:induction false} FlatMapAll<T, U>(xs: seq<T>, f: T -> seq<U>, ok: U -> bool)
    requires forall x, u :: x in xs && u in f(x) ==> ok(u)
    ensures forall u :: u in Dedup.FlatMap(xs, f) ==> ok(u)
    decreases |xs|
  {
    if xs != [] {
      var p := xs[..|xs| - 1];
      forall x, u | x in p && u in f(x) ensures ok(u) {
        assert x in xs;
      }
      FlatMapAll(p, f, ok);
      assert xs[|xs| - 1] in xs;
    }
  }

  /** One state's contribution to `out`: nothing when the request or decoding
      failed, otherwise its places (the header row skipped) with the radius. */
  function StateOut(entry: StateEntry, census: string -> Option<seq<seq<string>>>): seq<(string, string, int)> {
    match census(entry.0)
    case None => []
    case Some(data) =>
      var places := StatePlaces(entry.1.0, entry.1.1, if data == [] then [] else data[1..]);
      seq(|places|, i requires 0 <= i < |places| => (places[i].0, places[i].1, DefaultRadiusMiles))
  }

  /** The de-duplication key: the state and the lower-cased city. */
  function LocationKey(e: (string, string, int)): (string, string) {
    (e.0, Lower(e.1))
  }

  function AnyKey(k: (string, string)): bool {
    true
  }

  /** The header row of locations.csv. */
  const CsvHeader: seq<string> := ["state", "city", "radius_miles"]

  /** One written row: state, city and radius as text. */
  function CsvRow(e: (string, string, int)): seq<string> {
    [e.0, e.1, IntToString(e.2)]
  }

  /** The rows under the header, one per entry in order. */
  function CsvBody(deduped: seq<(string, string, int)>): (rows: seq<seq<string>>)
    ensures |rows| == |deduped|
    ensures forall i :: 0 <= i < |deduped| ==> rows[i] == CsvRow(deduped[i])
  {
    seq(|deduped|, i requires 0 <= i < |deduped| => CsvRow(deduped[i]))
  }

  /** The header and rows written to locations.csv. */
  function CsvRows(deduped: seq<(string, string, int)>): (rows: seq<seq<string>>)
    ensures |rows| == |deduped| + 1 && rows[0] == CsvHeader
    ensures forall i :: 0 <= i < |deduped| ==> rows[i + 1] == [deduped[i].0, deduped[i].1, IntToString(deduped[i].2)]
  {
    [CsvHeader] + CsvBody(deduped)
  }

  lemma CsvBodySnoc(d: seq<(string, string, int)>, k: nat)
    requires k < |d|
    ensures CsvBody(d[..k + 1]) == CsvBody(d[..k]) + [CsvRow(d[k])]
  {
    var a, p := CsvBody(d[..k + 1]), CsvBody(d[..k]);
    forall i | 0 <= i < |a| ensures a[i] == (p + [CsvRow(d[k])])[i] {
      if i < k {
        assert d[..k + 1][i] == d[..k][i];
      } else {
        assert d[..k + 1][k] == d[k];
      }
    }
  }

  /** Writing one more entry appends its row. */
  lemma CsvRowsSnoc(d: seq<(string, string, int)>, k: nat)
    requires k < |d|
    ensures CsvRows(d[..k + 1]) == CsvRows(d[..k]) + [[d[k].0, d[k].1, IntToString(d[k].2)]]
  {
    CsvBodySnoc(d, k);
    var b := CsvBody(d[..k]);
    assert [CsvHeader] + (b + [CsvRow(d[k])]) == [CsvHeader] + b + [CsvRow(d[k])];
  }

  /** Every (state, place, radius) entry in `out`, state by state in table order. */
  function Out(states: seq<StateEntry>, census: string -> Option<seq<seq<string>>>): seq<(string, string, int)> {
    Dedup.FlatMap(states, (entry: StateEntry) => StateOut(entry, census))
  }

  /** The first loop of `main`: every state's places appended to `out`. */
  method CollectOut(states: seq<StateEntry>, census: string -> Option<seq<seq<string>>>)
    returns (out: seq<(string, string, int)>)
    ensures out == Out(states, census)
  {
    var f := (entry: StateEntry) => StateOut(entry, census);
    out := [];
    var s := 0;
    while s < |states|
      invariant 0 <= s <= |states|
      invariant out == Dedup.FlatMap(states[..s], f)
    {
      assert states[..s + 1][..s] == states[..s];
      out := out + StateOut(states[s], census);
      s := s + 1;
    }
    assert states[..s] == states;
  }

  /** The de-duplication loop of `main`. */
  method DedupLocations(out: seq<(string, string, int)>) returns (deduped: seq<(string, string, int)>)
    ensures deduped == Dedup.Scan(out, LocationKey, AnyKey, {}).0
  {
    var seen: set<(string, string)> := {};
    deduped := [];
    var i := 0;
    while i < |out|
      invariant 0 <= i <= |out|
      invariant (deduped, seen) == Dedup.Scan(out[..i], LocationKey, AnyKey, {})
    {
      Dedup.ScanStep(out, i, LocationKey, AnyKey, {});
      var key := LocationKey(out[i]);
      if key !in seen {
        seen := seen + {key};
        deduped := deduped + [out[i]];
      }
      i := i + 1;
    }
    assert out[..i] == out;
  }

  /** The writing loop of `main`: the header, then one row per entry. */
  method WriteRows(deduped: seq<(string, string, int)>) returns (written: seq<seq<string>>)
    ensures written == CsvRows(deduped)
  {
    written := [CsvHeader];
    var k := 0;
    while k < |deduped|
      invariant 0 <= k <= |deduped|
      invariant written == CsvRows(deduped[..k])
    {
      CsvRowsSnoc(deduped, k);
      written := written + [[deduped[k].0, deduped[k].1, IntToString(deduped[k].2)]];
      k := k + 1;
    }
    assert deduped[..k] == deduped;
  }

  /** The entries `main` writes: the first of each key in `out`. */
  function Deduped(census: string -> Option<seq<seq<string>>>): seq<(string, string, int)> {
    Dedup.Scan(Out(StateFips, census), LocationKey, AnyKey, {}).0
  }

  /** `main`, with the Census answers as a parameter; returns the rows it writes. */
  method BuildLocations(census: string -> Option<seq<seq<string>>>) returns (written: seq<seq<string>>)
    ensures written == CsvRows(Deduped(census))
  {
    var out := CollectOut(StateFips, census);
    var deduped := DedupLocations(out);
    written := WriteRows(deduped);
  }

  /** The de-duplicated list keeps, in order, the first entry of each (state,
      lower-cased city) key: the keys are pairwise distinct and every key of `out`
      is represented. */
  lemma DedupKeepsFirstOfEachKey(out: seq<(string, string, int)>)
    ensures var d := Dedup.Scan(out, LocationKey, AnyKey, {}).0;
            && (forall i, j :: 0 <= i < j < |d| ==> LocationKey(d[i]) != LocationKey(d[j]))
            && (forall e :: e in out ==> exists i :: 0 <= i < |d| && LocationKey(d[i]) == LocationKey(e))
            && d == Dedup.FirstNew(out, LocationKey, AnyKey, {})
  {
    Dedup.ScanIsFirstNew(out, LocationKey, AnyKey, {});
    Dedup.ScanSeen(out, LocationKey, AnyKey, {});
    Dedup.ScanKeptKeys(out, LocationKey, AnyKey, {});
    var d := Dedup.Scan(out, LocationKey, AnyKey, {}).0;
    forall e | e in out
      ensures exists i :: 0 <= i < |d| && LocationKey(d[i]) == LocationKey(e)
    {
      var j :| 0 <= j < |out| && out[j] == e;
      assert LocationKey(e) in Dedup.AdmittedKeys(out, LocationKey, AnyKey);
    }
  }

  /** A state whose Census request fails contributes nothing and does not affect the
      other states. */
  lemma FailedStateContributesNothing(states: seq<StateEntry>,
                                      census: string -> Option<seq<seq<string>>>, k: nat)
    requires k < |states| && census(states[k].0).None?
    ensures Out(states, census) == Out(states[..k] + states[k + 1..], census)
  {
    var f := (entry: StateEntry) => StateOut(entry, census);
    assert f(states[k]) == [];
    Dedup.FlatMapSkipEmpty(states, f, k);
  }

  /** An entry of `out` as written to locations.csv: a postal code, a kept place name
      without surrounding whitespace, and the default radius. */
  predicate WellFormedEntry(e: (string, string, int)) {
    IsPostalCode(e.0) && KeepPlace(e.1) && Strip(e.1) == e.1 && e.2 == DefaultRadiusMiles
  }

  /** Every entry one state contributes is well formed. */
  lemma StateOutWellFormed(entry: StateEntry, census: string -> Option<seq<seq<string>>>,
                           u: (string, string, int))
    requires u in StateOut(entry, census)
    ensures WellFormedEntry(u)
  {
    var out := StateOut(entry, census);
    var data := census(entry.0).value;
    var rows := if data == [] then [] else data[1..];
    var places := StatePlaces(entry.1.0, entry.1.1, rows);
    var i :| 0 <= i < |out| && out[i] == u;
    assert u == (places[i].0, places[i].1, DefaultRadiusMiles);
    var p := places[i];
    assert p in places;
    StatePlacesFiltered(entry.1.0, entry.1.1, rows);
    assert p.0 == entry.1.0 && KeepPlace(p.1) && Strip(p.1) == p.1;
  }

  /** Every entry of `out` is well formed, whatever the Census answers. */
  lemma OutEntriesWellFormed(states: seq<StateEntry>, census: string -> Option<seq<seq<string>>>)
    ensures forall e :: e in Out(states, census) ==> WellFormedEntry(e)
  {
    var f := (entry: StateEntry) => StateOut(entry, census);
    forall x, u | x in states && u in f(x) ensures WellFormedEntry(u) {
      StateOutWellFormed(x, census, u);
    }
    FlatMapAll(states, f, WellFormedEntry);
  }

  /** The de-duplicated entries are entries of `out`, so they are well formed too. */
  lemma DedupedEntriesWellFormed(census: string -> Option<seq<seq<string>>>)
    ensures forall i :: 0 <= i < |Deduped(census)| ==> WellFormedEntry(Deduped(census)[i])
  {
    var out := Out(StateFips, census);
    var d := Deduped(census);
    OutEntriesWellFormed(StateFips, census);
    Dedup.ScanKeepsFirstOccurrences(out, LocationKey, AnyKey, {});
    assert d == Dedup.Scan(out, LocationKey, AnyKey, {}).0;
    forall i | 0 <= i < |d| ensures WellFormedEntry(d[i]) {
      var j :| 0 <= j < |out| && out[j] == d[i] && Dedup.FirstNewAt(out, LocationKey, AnyKey, {}, j);
      assert out[j] in out;
    }
  }
}
