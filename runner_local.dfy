/** runner_local.py: the cursor-aware batch runner. It reads the location list,
    resumes at the stored cursor, runs the one-location crawler on a batch of
    locations with wrap-around, appends the Place IDs not seen before to the
    de-duplication ledger, and saves the next start index.

    The crawler run for a location (a child process whose CSV outputs are
    harvested) is a parameter `fetch`: the set of Place IDs it yields for a list
    index, the empty set when the run fails. Radius parsing (`float()`) is a
    parameter `parse`. Files are values: the cursor file is absent or holds a
    `CursorFile`, the ledger is its sequence of lines, the location list is the
    sequence of rows the CSV reader yields. */
module RunnerLocal {
  import opened Text
  import opened Optional
  import Dedup
  import LocationBuilder

  // ---------------------------------------------------------------------------
  // The cursor file
  // ---------------------------------------------------------------------------

  /** One key of the decoded cursor object, as `int(obj.get(key, default))` sees it:
      missing, converted to an integer, or a value `int()` rejects. */
  datatype Field = Absent | Value(n: int) | NotInt

  /** The cursor file's content: text that is not a JSON object, or an object with
      its `index` and `total` keys. */
  datatype CursorFile = Unparsable | Stored(index: Field, total: Field)

  /** `load_cursor`: the start index for a list of `total` locations. */
  function LoadCursor(file: Option<CursorFile>, total: nat): (r: nat)
    ensures total > 0 ==> r < total
    ensures total == 0 ==> r == 0
    ensures r != 0 ==> && file.Some? && file.value.Stored?
                       && file.value.index == Value(r)
                       && file.value.total in {Absent, Value(total)}
  {
    match file
    case None => 0
    case Some(Unparsable) => 0
    case Some(Stored(index, stored)) =>
      if index.NotInt? || stored.NotInt? then 0
      else
        var idx := if index.Absent? then 0 else index.n;
        var prevTotal := if stored.Absent? then total else stored.n;
        if prevTotal != total || idx < 0 || idx >= total then 0 else idx
  }

  /** `save_cursor`: the object written to the cursor file. An index saved for a
      list is read back as the same index while the list keeps its length. */
  function SaveCursor(index: int, total: int): (r: CursorFile)
    ensures 0 <= index < total ==> LoadCursor(Some(r), total) == index
  {
    Stored(Value(index), Value(total))
  }

  /** A cursor saved for a list of another length is discarded. */
  lemma StaleCursorRestarts(index: int, saved: int, total: nat)
    requires saved != total
    ensures LoadCursor(Some(SaveCursor(index, saved)), total) == 0
  {
  }

  /** An integer index in range is resumed exactly when the stored total is
      missing or equal to the current length; otherwise the run restarts at 0. */
  lemma StoredIndexAccepted(index: int, stored: Field, total: nat)
    requires 0 <= index < total
    ensures LoadCursor(Some(Stored(Value(index), stored)), total)
            == if stored.Absent? || stored == Value(total) then index else 0
  {
  }

  // ---------------------------------------------------------------------------
  // The de-duplication ledger
  // ---------------------------------------------------------------------------

  /** One line of the ledger, as `load_seen_ids` sees it: blank after stripping, not
      a JSON object, or an object whose `place_id` is rendered by `str()`, with
      `None` for a missing key or a false value other than the empty string. */
  datatype LedgerLine = Blank | Unparsable | Record(placeId: Option<string>)

  /** Whether the line contributes a Place ID when the ledger is loaded. */
  predicate Contributes(line: LedgerLine) {
    line.Record? && line.placeId.Some? && line.placeId.value != ""
  }

  /** The Place IDs `load_seen_ids` collects from the ledger lines. */
  function SeenIn(lines: seq<LedgerLine>): (ids: set<string>)
    ensures "" !in ids
  {
    set line | line in lines && Contributes(line) :: line.placeId.value
  }

  lemma SeenInAppend(a: seq<LedgerLine>, b: seq<LedgerLine>)
    ensures SeenIn(a + b) == SeenIn(a) + SeenIn(b)
  {
    forall p | p in SeenIn(a + b) ensures p in SeenIn(a) + SeenIn(b) {
      var line :| line in a + b && Contributes(line) && line.placeId.value == p;
      if line in a {
        assert p in SeenIn(a);
      } else {
        assert p in SeenIn(b);
      }
    }
    forall p | p in SeenIn(a) + SeenIn(b) ensures p in SeenIn(a + b) {
      if p in SeenIn(a) {
        var line :| line in a && Contributes(line) && line.placeId.value == p;
        assert line in a + b;
      } else {
        var line :| line in b && Contributes(line) && line.placeId.value == p;
        assert line in a + b;
      }
    }
  }

  /** `load_seen_ids`; a missing ledger is an empty one. */
  method LoadSeenIds(lines: seq<LedgerLine>) returns (seen: set<string>)
    ensures seen == SeenIn(lines)
  {
    seen := {};
    var i := 0;
    while i < |lines|
      invariant 0 <= i <= |lines|
      invariant seen == SeenIn(lines[..i])
    {
      SeenInAppend(lines[..i], [lines[i]]);
      assert lines[..i + 1] == lines[..i] + [lines[i]];
      var line := lines[i];
      if line.Record? && line.placeId.Some? && line.placeId.value != "" {
        seen := seen + {line.placeId.value};
      }
      i := i + 1;
    }
    assert lines[..i] == lines;
  }

  /** `after` is `before` followed by one record per Place ID of `ids`, each ID once,
      in some order. */
  ghost predicate AppendsExactly(before: seq<LedgerLine>, after: seq<LedgerLine>, ids: set<string>) {
    && |before| <= |after| && after[..|before|] == before
    && (forall k :: |before| <= k < |after| ==> after[k].Record? && after[k].placeId.Some? && after[k].placeId.value in ids)
    && (forall k1, k2 :: |before| <= k1 < k2 < |after| && after[k1].Record? && after[k2].Record? ==>
          after[k1].placeId != after[k2].placeId)
    && (forall p :: p in ids ==> exists k :: |before| <= k < |after| && after[k] == Record(Some(p)))
  }

  /** `append_seen_ids`: one record per Place ID, in the set's iteration order, which
      is left open; nothing is written for an empty set. */
  method AppendSeenIds(ledger: seq<LedgerLine>, placeIds: set<string>) returns (after: seq<LedgerLine>)
    ensures AppendsExactly(ledger, after, placeIds)
    ensures |after| == |ledger| + |placeIds|
  {
    after := ledger;
    var rest := placeIds;
    while rest != {}
      invariant rest <= placeIds
      invariant |after| == |ledger| + |placeIds| - |rest|
      invariant AppendsExactly(ledger, after, placeIds - rest)
      decreases |rest|
    {
      var pid :| pid in rest;
      ghost var prev, prevRest := after, rest;
      after := after + [Record(Some(pid))];
      rest := rest - {pid};
      forall p | p in placeIds - rest
        ensures exists k :: |ledger| <= k < |after| && after[k] == Record(Some(p))
      {
        if p == pid {
          assert after[|after| - 1] == Record(Some(p));
        } else {
          assert p in placeIds - prevRest;
          var k :| |ledger| <= k < |prev| && prev[k] == Record(Some(p));
          assert after[k] == Record(Some(p));
        }
      }
    }
    assert placeIds - rest == placeIds;
  }

  /** Reloading the ledger after an append yields the old IDs and the appended ones;
      an empty Place ID is written but never read back. */
  lemma ReloadAfterAppend(before: seq<LedgerLine>, after: seq<LedgerLine>, ids: set<string>)
    requires AppendsExactly(before, after, ids)
    ensures SeenIn(after) == SeenIn(before) + (ids - {""})
  {
    var tail := after[|before|..];
    assert after == before + tail;
    forall k | 0 <= k < |tail|
      ensures tail[k].Record? && tail[k].placeId.Some? && tail[k].placeId.value in ids
    {
      assert tail[k] == after[|before| + k];
    }
    forall p | p in ids ensures Record(Some(p)) in tail {
      var k :| |before| <= k < |after| && after[k] == Record(Some(p));
      assert tail[k - |before|] == Record(Some(p));
    }
    SeenInTail(tail, ids);
    SeenInAppend(before, tail);
  }

  lemma SeenInTail(tail: seq<LedgerLine>, ids: set<string>)
    requires forall k :: 0 <= k < |tail| ==> tail[k].Record? && tail[k].placeId.Some? && tail[k].placeId.value in ids
    requires forall p :: p in ids ==> Record(Some(p)) in tail
    ensures SeenIn(tail) == ids - {""}
  {
    forall p | p in SeenIn(tail) ensures p in ids {
      var line :| line in tail && Contributes(line) && line.placeId.value == p;
      var k :| 0 <= k < |tail| && tail[k] == line;
    }
    forall p | p in ids - {""} ensures p in SeenIn(tail) {
      assert Contributes(Record(Some(p)));
    }
  }

  lemma NotInDisjoint(s1: set<string>, s2: set<string>, v: string)
    requires s1 * s2 == {} && v in s1
    ensures v !in s2
  {
    assert v !in s1 * s2;
  }

  /** Two appends in a row, of disjoint sets, append their union. */
  lemma AppendsCompose(a: seq<LedgerLine>, b: seq<LedgerLine>, c: seq<LedgerLine>, s1: set<string>, s2: set<string>)
    requires AppendsExactly(a, b, s1) && AppendsExactly(b, c, s2) && s1 * s2 == {}
    ensures AppendsExactly(a, c, s1 + s2)
  {
    assert c[..|b|] == b;
    assert c[..|a|] == b[..|a|];
    forall k | |a| <= k < |b| ensures c[k] == b[k] {
      assert c[..|b|][k] == c[k];
    }
    forall k1, k2 | |a| <= k1 < k2 < |c| && c[k1].Record? && c[k2].Record?
      ensures c[k1].placeId != c[k2].placeId
    {
      if k2 < |b| {
        assert c[k1] == b[k1] && c[k2] == b[k2];
      } else if k1 < |b| {
        assert c[k1] == b[k1];
        assert c[k1].placeId.value in s1 && c[k2].placeId.value in s2;
        NotInDisjoint(s1, s2, c[k1].placeId.value);
      } else {
        assert |b| <= k1;
      }
    }
    forall p | p in s1 + s2 ensures exists k :: |a| <= k < |c| && c[k] == Record(Some(p)) {
      if p in s1 {
        var k :| |a| <= k < |b| && b[k] == Record(Some(p));
        assert c[k] == Record(Some(p));
      } else {
        var k :| |b| <= k < |c| && c[k] == Record(Some(p));
      }
    }
  }

  // ---------------------------------------------------------------------------
  // The location list
  // ---------------------------------------------------------------------------

  /** A location to crawl: the location text and the radius in miles. */
  datatype Location = Location(query: string, radiusMiles: real)

  /** `norm` applied to the header row: every name stripped and lower-cased. */
  function NormHeader(header: seq<string>): seq<string> {
    seq(|header|, i requires 0 <= i < |header| => Lower(Strip(header[i])))
  }

  /** The last position of `k` in `h`: a later duplicate name overwrites an earlier
      one in the row's dictionary. */
  function LastIndex(h: seq<string>, k: string): (r: Option<nat>)
    ensures r.None? <==> k !in h
    ensures r.Some? ==> r.value < |h| && h[r.value] == k && forall j :: r.value < j < |h| ==> h[j] != k
  {
    if h == [] then None
    else if h[|h| - 1] == k then Some(|h| - 1)
    else LastIndex(h[..|h| - 1], k)
  }

  /** `m[k]` for the dictionary built from the header and a row: the stripped column,
      "" for a column the row lacks, nothing when the header has no such name. */
  function Cell(h: seq<string>, cols: seq<string>, k: string): (r: Option<string>)
    ensures r.Some? <==> k in h
  {
    match LastIndex(h, k)
    case None => None
    case Some(i) => Some(if i < |cols| then Strip(cols[i]) else "")
  }

  /** Without a header: every column but the last, each stripped, joined with
      commas, and the result stripped. */
  function JoinedLeading(cols: seq<string>): string
    requires cols != []
  {
    Strip(Join(seq(|cols| - 1, i requires 0 <= i < |cols| - 1 => Strip(cols[i])), ","))
  }

  /** The location one CSV row yields, if any, under the normalised header `h`
      (empty for a file without a header). */
  function NormalizeRow(h: seq<string>, cols: seq<string>, parse: string -> Option<real>): (r: Option<Location>)
    ensures r.Some? ==> cols != [] && r.value.query != []
  {
    if cols == [] then None
    else if h != [] then
      var location, radius := Cell(h, cols, "location"), Cell(h, cols, "radius_miles");
      var state, city := Cell(h, cols, "state"), Cell(h, cols, "city");
      if location.Some? && radius.Some? then
        match parse(radius.value)
        case None => None
        case Some(miles) => if location.value != "" then Some(Location(location.value, miles)) else None
      else if state.Some? && city.Some? && radius.Some? then
        match parse(radius.value)
        case None => None
        case Some(miles) => Some(Location(city.value + ", " + Upper(Take(state.value, 2)), miles))
      else None
    else
      var radius := Strip(cols[|cols| - 1]);
      var location := JoinedLeading(cols);
      match parse(radius)
      case None => None
      case Some(miles) => if location != "" then Some(Location(location, miles)) else None
  }

  /** Which rows are skipped: an empty row; under a header, a header without a
      radius column or without either a location column or both state and city
      columns, a radius `float()` rejects, or an empty location column; without a
      header, a last column `float()` rejects or nothing before it. */
  lemma NormalizeRowSkips(h: seq<string>, cols: seq<string>, parse: string -> Option<real>)
    ensures cols == [] ==> NormalizeRow(h, cols, parse).None?
    ensures h != [] && "radius_miles" !in h ==> NormalizeRow(h, cols, parse).None?
    ensures h != [] && "location" !in h && ("state" !in h || "city" !in h) ==> NormalizeRow(h, cols, parse).None?
    ensures h != [] && "radius_miles" in h && parse(Cell(h, cols, "radius_miles").value) == None
            ==> NormalizeRow(h, cols, parse).None?
    ensures h != [] && "location" in h && "radius_miles" in h && Cell(h, cols, "location").value == ""
            ==> NormalizeRow(h, cols, parse).None?
    ensures h == [] && cols != [] && parse(Strip(cols[|cols| - 1])) == None ==> NormalizeRow(h, cols, parse).None?
    ensures h == [] && cols != [] && JoinedLeading(cols) == "" ==> NormalizeRow(h, cols, parse).None?
  {
  }

  function AsSeq<T>(o: Option<T>): seq<T> {
    if o.Some? then [o.value] else []
  }

  lemma AsSeqNonEmptyQuery(r: Option<Location>)
    requires r.Some? ==> r.value.query != []
    ensures |AsSeq(r)| <= 1 && forall l :: l in AsSeq(r) ==> l.query != []
  {
  }

  /** The normalised header: the first row when the sniffer found a header. */
  function HeaderOf(rows: seq<seq<string>>, hasHeader: bool): seq<string> {
    if hasHeader && rows != [] then NormHeader(rows[0]) else []
  }

  /** The rows after the header. */
  function BodyOf(rows: seq<seq<string>>, hasHeader: bool): seq<seq<string>> {
    if hasHeader && rows != [] then rows[1..] else rows
  }

  /** What `load_locations` returns for the rows of locations.csv. */
  function Locations(rows: seq<seq<string>>, hasHeader: bool, parse: string -> Option<real>): seq<Location> {
    var h := HeaderOf(rows, hasHeader);
    Dedup.FlatMap(BodyOf(rows, hasHeader), RowLocations(h, parse))
  }

  /** The locations one body row contributes: none or one. */
  function RowLocations(h: seq<string>, parse: string -> Option<real>): seq<string> -> seq<Location> {
    (cols: seq<string>) => AsSeq(NormalizeRow(h, cols, parse))
  }

  /** `load_locations`, on the rows the CSV reader yields. */
  method LoadLocations(rows: seq<seq<string>>, hasHeader: bool, parse: string -> Option<real>)
    returns (locations: seq<Location>)
    ensures locations == Locations(rows, hasHeader, parse)
  {
    var h := HeaderOf(rows, hasHeader);
    var body := BodyOf(rows, hasHeader);
    var f := RowLocations(h, parse);
    locations := [];
    var i := 0;
    while i < |body|
      invariant 0 <= i <= |body|
      invariant locations == Dedup.FlatMap(body[..i], f)
    {
      Dedup.FlatMapStep(body, i, f);
      var row := NormalizeRow(h, body[i], parse);
      assert f(body[i]) == AsSeq(row);
      if row.Some? {
        locations := locations + [row.value];
      }
      i := i + 1;
    }
    assert body[..i] == body;
  }

  /** Every loaded location has a non-empty location text, and there is at most one
      per row. */
  lemma LocationsNonEmpty(rows: seq<seq<string>>, hasHeader: bool, parse: string -> Option<real>)
    ensures |Locations(rows, hasHeader, parse)| <= |BodyOf(rows, hasHeader)|
    ensures forall l :: l in Locations(rows, hasHeader, parse) ==> l.query != []
  {
    var h := HeaderOf(rows, hasHeader);
    var f := RowLocations(h, parse);
    forall cols ensures |f(cols)| <= 1 && forall l :: l in f(cols) ==> l.query != [] {
      AsSeqNonEmptyQuery(NormalizeRow(h, cols, parse));
    }
    Dedup.FlatMapAtMostOne(BodyOf(rows, hasHeader), f);
    LocationBuilder.FlatMapAll(BodyOf(rows, hasHeader), f, (l: Location) => l.query != []);
  }

  lemma {:induction false} FlatMapOneEach<T, U>(xs: seq<T>, f: T -> seq<U>, ys: seq<U>)
    requires |xs| == |ys| && forall i :: 0 <= i < |xs| ==> f(xs[i]) == [ys[i]]
    ensures Dedup.FlatMap(xs, f) == ys
    decreases |xs|
  {
    if xs != [] {
      var n := |xs| - 1;
      assert forall i :: 0 <= i < n ==> xs[..n][i] == xs[i];
      FlatMapOneEach(xs[..n], f, ys[..n]);
      assert ys == ys[..n] + [ys[n]];
    }
  }

  /** A header with both kinds of columns: the `location` column wins. */
  lemma LocationColumnWins(h: seq<string>, cols: seq<string>, parse: string -> Option<real>, miles: real)
    requires h != [] && cols != [] && "location" in h && "radius_miles" in h
    requires Cell(h, cols, "location").value != [] && parse(Cell(h, cols, "radius_miles").value) == Some(miles)
    ensures NormalizeRow(h, cols, parse) == Some(Location(Cell(h, cols, "location").value, miles))
  {
  }

  /** Without a header, the leading columns are joined with commas after stripping
      each: the line `Northwood, NH, 25` is the location "Northwood,NH". */
  lemma HeaderlessJoinsColumns(city: string, st: string, radius: string, parse: string -> Option<real>, miles: real)
    requires city != [] && !IsSpace(city[0]) && !IsSpace(city[|city| - 1])
    requires st != [] && !IsSpace(st[0]) && !IsSpace(st[|st| - 1])
    requires parse(Strip(radius)) == Some(miles)
    ensures NormalizeRow([], [city, " " + st, radius], parse) == Some(Location(city + "," + st, miles))
  {
    JoinTwoColumns(city, st, radius);
  }

  lemma JoinTwoColumns(city: string, st: string, radius: string)
    requires city != [] && !IsSpace(city[0]) && !IsSpace(city[|city| - 1])
    requires st != [] && !IsSpace(st[0]) && !IsSpace(st[|st| - 1])
    ensures JoinedLeading([city, " " + st, radius]) == city + "," + st
  {
    var cols := [city, " " + st, radius];
    var parts := seq(2, i requires 0 <= i < 2 => Strip(cols[i]));
    StripUnchanged(city);
    StripSpacePrefixed(st);
    assert parts == [city, st];
    assert Join(parts, ",") == city + "," + st;
    StripUnchanged(city + "," + st);
  }

  /** The space the CSV writer leaves after a comma is stripped away. */
  lemma StripSpacePrefixed(st: string)
    requires st != [] && !IsSpace(st[0]) && !IsSpace(st[|st| - 1])
    ensures Strip(" " + st) == st
  {
    assert (" " + st)[1..] == st;
    assert TrimLeft(" " + st) == TrimLeft(st);
    StripUnchanged(st);
  }

  /** The file written by location_builder.py reads back as one location per row:
      the state/city/radius header is recognised, the state is already two
      upper-case letters, so each row (st, city, 25) becomes ("city, st", 25). */
  lemma ReadBackRows(d: seq<(string, string, int)>, parse: string -> Option<real>, miles: real)
    requires forall i :: 0 <= i < |d| ==> LocationBuilder.WellFormedEntry(d[i])
    requires parse("25") == Some(miles)
    ensures Locations(LocationBuilder.CsvRows(d), true, parse)
            == seq(|d|, i requires 0 <= i < |d| => Location(d[i].1 + ", " + d[i].0, miles))
  {
    var rows := LocationBuilder.CsvRows(d);
    HeaderRecognised();
    assert HeaderOf(rows, true) == LocationBuilder.CsvHeader;
    var body := rows[1..];
    var f := RowLocations(LocationBuilder.CsvHeader, parse);
    var ys := seq(|d|, i requires 0 <= i < |d| => Location(d[i].1 + ", " + d[i].0, miles));
    forall i | 0 <= i < |body| ensures f(body[i]) == [ys[i]] {
      ReadBackRowAt(d, parse, miles, i);
    }
    FlatMapOneEach(body, f, ys);
  }

  /** Row `i + 1` of the written file is entry `i`, and reads back as its location. */
  lemma ReadBackRowAt(d: seq<(string, string, int)>, parse: string -> Option<real>, miles: real, i: nat)
    requires i < |d| && LocationBuilder.WellFormedEntry(d[i]) && parse("25") == Some(miles)
    ensures AsSeq(NormalizeRow(LocationBuilder.CsvHeader, LocationBuilder.CsvRows(d)[i + 1], parse))
            == [Location(d[i].1 + ", " + d[i].0, miles)]
  {
    assert LocationBuilder.CsvRows(d)[i + 1] == [d[i].0, d[i].1, IntToString(d[i].2)];
    BuiltRowReadBack(d[i], parse, miles);
  }

  lemma NormHeaderUnchanged(header: seq<string>)
    requires forall i :: 0 <= i < |header| ==>
               IsLowerCase(header[i]) && header[i] != [] && !IsSpace(header[i][0]) && !IsSpace(header[i][|header[i]| - 1])
    ensures NormHeader(header) == header
  {
    forall i | 0 <= i < |header| ensures NormHeader(header)[i] == header[i] {
      StripUnchanged(header[i]);
      LowerOfLowerCase(header[i]);
    }
  }

  lemma HeaderRecognised()
    ensures NormHeader(LocationBuilder.CsvHeader) == LocationBuilder.CsvHeader
  {
    NormHeaderUnchanged(LocationBuilder.CsvHeader);
  }

  lemma BuiltRowReadBack(e: (string, string, int), parse: string -> Option<real>, miles: real)
    requires LocationBuilder.WellFormedEntry(e) && parse("25") == Some(miles)
    ensures NormalizeRow(LocationBuilder.CsvHeader, [e.0, e.1, IntToString(e.2)], parse)
            == Some(Location(e.1 + ", " + e.0, miles))
  {
    RadiusText(e.2);
    HeaderLookup();
    PostalCodeStripped(e.0);
    PostalCodeUpper(e.0);
    StateCityColumns(LocationBuilder.CsvHeader, e.0, e.1, IntToString(e.2), parse, miles);
  }

  /** Under a header with state, city and radius in the first three positions, a row
      (ST, city, radius) is read as "city, ST". */
  lemma StateCityColumns(h: seq<string>, st: string, city: string, radius: string, parse: string -> Option<real>, miles: real)
    requires LastIndex(h, "location") == None && LastIndex(h, "state") == Some(0)
    requires LastIndex(h, "city") == Some(1) && LastIndex(h, "radius_miles") == Some(2)
    requires Strip(st) == st && Upper(Take(st, 2)) == st && Strip(city) == city
    requires parse(Strip(radius)) == Some(miles)
    ensures NormalizeRow(h, [st, city, radius], parse) == Some(Location(city + ", " + st, miles))
  {
    StateCityCells(h, [st, city, radius]);
    StateCityRow(h, [st, city, radius], parse, miles);
  }

  /** Under a header with state, city and radius columns and no location column, a
      row whose radius parses is read as "city, ST", ST being the first two
      characters of the state column upper-cased. */
  lemma StateCityRow(h: seq<string>, cols: seq<string>, parse: string -> Option<real>, miles: real)
    requires h != [] && cols != [] && "location" !in h
    requires "state" in h && "city" in h && "radius_miles" in h
    requires parse(Cell(h, cols, "radius_miles").value) == Some(miles)
    ensures NormalizeRow(h, cols, parse)
         == Some(Location(Cell(h, cols, "city").value + ", " + Upper(Take(Cell(h, cols, "state").value, 2)), miles))
  {
  }

  /** Without a header, a row whose last column parses is kept exactly when the
      joined leading columns are not empty, and that text is its location. */
  lemma HeaderlessRow(cols: seq<string>, parse: string -> Option<real>, miles: real)
    requires cols != [] && parse(Strip(cols[|cols| - 1])) == Some(miles)
    ensures NormalizeRow([], cols, parse).Some? <==> JoinedLeading(cols) != ""
    ensures NormalizeRow([], cols, parse).Some? ==> NormalizeRow([], cols, parse).value == Location(JoinedLeading(cols), miles)
  {
    var location := JoinedLeading(cols);
    assert NormalizeRow([], cols, parse) == if location != "" then Some(Location(location, miles)) else None;
  }

  lemma StateCityCells(h: seq<string>, cols: seq<string>)
    requires |cols| == 3
    requires LastIndex(h, "location") == None && LastIndex(h, "state") == Some(0)
    requires LastIndex(h, "city") == Some(1) && LastIndex(h, "radius_miles") == Some(2)
    ensures Cell(h, cols, "location") == None
    ensures Cell(h, cols, "state") == Some(Strip(cols[0]))
    ensures Cell(h, cols, "city") == Some(Strip(cols[1]))
    ensures Cell(h, cols, "radius_miles") == Some(Strip(cols[2]))
  {
  }

  /** Where each name sits in the header location_builder.py writes. */
  lemma HeaderLookup()
    ensures LastIndex(LocationBuilder.CsvHeader, "location") == None
    ensures LastIndex(LocationBuilder.CsvHeader, "state") == Some(0)
    ensures LastIndex(LocationBuilder.CsvHeader, "city") == Some(1)
    ensures LastIndex(LocationBuilder.CsvHeader, "radius_miles") == Some(2)
  {
  }

  lemma RadiusText(radius: int)
    requires radius == LocationBuilder.DefaultRadiusMiles
    ensures IntToString(radius) == "25" && Strip(IntToString(radius)) == IntToString(radius)
  {
    assert IntToString(radius) == "25";
    StripUnchanged("25");
  }

  lemma PostalCodeStripped(ab: string)
    requires LocationBuilder.IsPostalCode(ab)
    ensures Strip(ab) == ab
  {
    assert !IsSpace(ab[0]) && !IsSpace(ab[1]);
    StripUnchanged(ab);
  }

  lemma PostalCodeUpper(ab: string)
    requires LocationBuilder.IsPostalCode(ab)
    ensures Upper(Take(ab, 2)) == ab
  {
    assert IsUpperCase(ab);
    UpperOfUpperCase(ab);
  }

  /** Whatever the Census answers, the list location_builder.py writes is read back
      by `load_locations` as its de-duplicated entries, in order, as "city, ST". */
  lemma BuiltLocationsReadBack(census: string -> Option<seq<seq<string>>>, parse: string -> Option<real>, miles: real)
    requires parse("25") == Some(miles)
    ensures var d := LocationBuilder.Deduped(census);
            Locations(LocationBuilder.CsvRows(d), true, parse)
            == seq(|d|, i requires 0 <= i < |d| => Location(d[i].1 + ", " + d[i].0, miles))
  {
    LocationBuilder.DedupedEntriesWellFormed(census);
    ReadBackRows(LocationBuilder.Deduped(census), parse, miles);
  }

  // ---------------------------------------------------------------------------
  // Wrap-around
  // ---------------------------------------------------------------------------

  /** The list index visited by iteration `k` of a batch that starts at `start`. */
  function Slot(start: nat, k: nat, total: nat): (j: nat)
    requires total > 0
    ensures j < total
  {
    (start + k) % total
  }

  lemma ModUnique(a: int, t: int, q: int, r: int)
    requires t > 0 && 0 <= r < t && a == q * t + r
    ensures a % t == r && a / t == q
  {
    var q', r' := a / t, a % t;
    assert a == q' * t + r';
    if q > q' {
      MulAtLeast(q - q', t);
    } else if q < q' {
      MulAtLeast(q' - q, t);
    }
  }

  lemma {:induction false} MulAtLeast(d: int, t: int)
    requires d >= 1 && t > 0
    ensures d * t >= t
    decreases d
  {
    if d > 1 {
      MulAtLeast(d - 1, t);
      assert d * t == (d - 1) * t + t;
    }
  }

  /** `idx = (idx + 1) % total` moves to the next slot. */
  lemma SlotSucc(start: nat, k: nat, total: nat)
    requires total > 0
    ensures Slot(start, k + 1, total) == (Slot(start, k, total) + 1) % total
  {
    var a := start + k;
    var q, r := a / total, a % total;
    if r + 1 < total {
      ModUnique(a + 1, total, q, r + 1);
      ModUnique(r + 1, total, 0, r + 1);
    } else {
      ModUnique(a + 1, total, q + 1, 0);
      ModUnique(r + 1, total, 1, 0);
    }
  }

  /** The index after `idx = (idx + 1) % total` is the next slot. */
  lemma NextSlot(start: nat, k: nat, total: nat, idx0: nat, idx1: nat)
    requires total > 0 && idx0 == Slot(start, k, total) && idx1 == (idx0 + 1) % total
    ensures idx1 == Slot(start, k + 1, total)
  {
    SlotSucc(start, k, total);
  }

  lemma SlotsDiffer(start: nat, k1: nat, k2: nat, total: nat)
    requires k1 < k2 < total
    ensures Slot(start, k1, total) != Slot(start, k2, total)
  {
    var q1, r1 := (start + k1) / total, (start + k1) % total;
    var d := k2 - k1;
    assert start + k2 == q1 * total + (r1 + d);
    if r1 + d < total {
      ModUnique(start + k2, total, q1, r1 + d);
    } else {
      assert (q1 + 1) * total == q1 * total + total;
      ModUnique(start + k2, total, q1 + 1, r1 + d - total);
    }
  }

  /** Index `j` is visited by one of the first `total` iterations from `start`. */
  ghost predicate VisitedWithin(start: nat, total: nat, j: nat)
    requires total > 0
  {
    exists k :: 0 <= k < total && Slot(start, k, total) == j
  }

  /** Any `total` consecutive iterations visit every index exactly once. */
  lemma VisitsEachIndexOnce(start: nat, total: nat)
    requires total > 0
    ensures forall k1, k2 :: 0 <= k1 < k2 < total ==> Slot(start, k1, total) != Slot(start, k2, total)
    ensures forall j :: 0 <= j < total ==> VisitedWithin(start, total, j)
  {
    forall k1, k2 | 0 <= k1 < k2 < total ensures Slot(start, k1, total) != Slot(start, k2, total) {
      SlotsDiffer(start, k1, k2, total);
    }
    forall j | 0 <= j < total ensures VisitedWithin(start, total, j) {
      var k := (j - start) % total;
      var q := (j - start) / total;
      assert j - start == q * total + k;
      ModUnique(start + k, total, -q, j);
      assert Slot(start, k, total) == j;
    }
  }

  /** The Place IDs a run of `n` iterations starting at `start` harvests. */
  function Harvest(start: nat, n: nat, total: nat, fetch: nat -> set<string>): set<string>
    requires total > 0
  {
    if n == 0 then {} else Harvest(start, n - 1, total, fetch) + fetch(Slot(start, n - 1, total))
  }

  lemma {:induction false} HarvestIncludes(start: nat, n: nat, total: nat, fetch: nat -> set<string>, k: nat)
    requires total > 0 && k < n
    ensures fetch(Slot(start, k, total)) <= Harvest(start, n, total, fetch)
    decreases n
  {
    if k < n - 1 {
      HarvestIncludes(start, n - 1, total, fetch, k);
    }
  }

  /** A batch at least as long as the list harvests from every location. */
  lemma HarvestCoversEveryLocation(start: nat, n: nat, total: nat, fetch: nat -> set<string>)
    requires 0 < total <= n
    ensures forall j :: 0 <= j < total ==> fetch(j) <= Harvest(start, n, total, fetch)
  {
    VisitsEachIndexOnce(start, total);
    forall j | 0 <= j < total ensures fetch(j) <= Harvest(start, n, total, fetch) {
      assert VisitedWithin(start, total, j);
      var k :| 0 <= k < total && Slot(start, k, total) == j;
      HarvestIncludes(start, n, total, fetch, k);
    }
  }

  lemma CardDisjointUnion(a: set<string>, b: set<string>)
    ensures |a + (b - a)| == |a| + |b - a|
  {
    assert a * (b - a) == {};
  }

  // ---------------------------------------------------------------------------
  // The batch loop
  // ---------------------------------------------------------------------------

  /** What the loop keeps about the run so far: the ledger holds, after its old
      lines, exactly the IDs added to the seen set, and the count of new IDs is
      the growth of that set. */
  lemma RunStep(seen0: set<string>, ledger0: seq<LedgerLine>,
                seenMid: set<string>, ledgerMid: seq<LedgerLine>, totalMid: int,
                found: set<string>, seen1: set<string>, ledger1: seq<LedgerLine>, total1: int)
    requires seen0 <= seenMid && AppendsExactly(ledger0, ledgerMid, seenMid - seen0) && totalMid == |seenMid| - |seen0|
    requires seen1 == seenMid + found && AppendsExactly(ledgerMid, ledger1, found - seenMid)
    requires total1 == totalMid + |found - seenMid|
    ensures seen0 <= seen1 && AppendsExactly(ledger0, ledger1, seen1 - seen0) && total1 == |seen1| - |seen0|
  {
    SeenGrowth(seen0, seenMid, found, seen1);
    AppendsCompose(ledger0, ledgerMid, ledger1, seenMid - seen0, found - seenMid);
  }

  /** The IDs new to the run after one more iteration are those new before it plus
      those new in it; the set grows by the latter's size. */
  lemma SeenGrowth(seen0: set<string>, seenMid: set<string>, found: set<string>, seen1: set<string>)
    requires seen0 <= seenMid && seen1 == seenMid + found
    ensures seen0 <= seen1 && seen1 - seen0 == (seenMid - seen0) + (found - seenMid)
    ensures |seen1| == |seenMid| + |found - seenMid|
  {
    CardDisjointUnion(seenMid, found);
    assert seen1 == seenMid + (found - seenMid);
  }

  /** The seen set after one more iteration is the old one plus one more harvest. */
  lemma HarvestStep(start: nat, k: nat, total: nat, fetch: nat -> set<string>,
                    seen0: set<string>, seenMid: set<string>, seen1: set<string>)
    requires total > 0
    requires seenMid == seen0 + Harvest(start, k, total, fetch)
    requires seen1 == seenMid + fetch(Slot(start, k, total))
    ensures seen1 == seen0 + Harvest(start, k + 1, total, fetch)
  {
  }

  /** What `k` iterations from `start` leave: the index is the next slot, the seen
      set gained exactly the harvest, the ledger gained exactly the new IDs, and the
      count of new IDs is the growth of the set. */
  ghost predicate RunSoFar(start: nat, k: nat, total: nat, fetch: nat -> set<string>,
                           seen0: set<string>, ledger0: seq<LedgerLine>,
                           idx: nat, seen: set<string>, ledger: seq<LedgerLine>, newTotal: int)
  {
    && total > 0
    && idx == Slot(start, k, total)
    && seen == seen0 + Harvest(start, k, total, fetch) && seen0 <= seen
    && AppendsExactly(ledger0, ledger, seen - seen0)
    && newTotal == |seen| - |seen0|
  }

  /** One more iteration keeps `RunSoFar`, one step further. */
  lemma RunSoFarStep(start: nat, k: nat, total: nat, fetch: nat -> set<string>,
                     seen0: set<string>, ledger0: seq<LedgerLine>,
                     idx0: nat, seenMid: set<string>, ledgerMid: seq<LedgerLine>, totalMid: int,
                     idx1: nat, seen1: set<string>, ledger1: seq<LedgerLine>, total1: int)
    requires RunSoFar(start, k, total, fetch, seen0, ledger0, idx0, seenMid, ledgerMid, totalMid)
    requires var found := fetch(idx0);
             && idx1 == (idx0 + 1) % total
             && seen1 == seenMid + found
             && AppendsExactly(ledgerMid, ledger1, found - seenMid)
             && total1 == totalMid + |found - seenMid|
    ensures RunSoFar(start, k + 1, total, fetch, seen0, ledger0, idx1, seen1, ledger1, total1)
  {
    var found := fetch(idx0);
    NextSlot(start, k, total, idx0, idx1);
    HarvestStep(start, k, total, fetch, seen0, seenMid, seen1);
    RunStep(seen0, ledger0, seenMid, ledgerMid, totalMid, found, seen1, ledger1, total1);
  }

  /** The state of `main` once the location list is loaded. */
  class BatchRunner {
    const locations: seq<Location>
    var idx: nat
    var seen: set<string>
    var ledger: seq<LedgerLine>
    var processed: nat
    var newTotal: nat
    var cursor: Option<CursorFile>

    /** The cursor is in range and the ledger reloads to the in-memory set, the empty
        Place ID aside. */
    ghost predicate Valid()
      reads this
    {
      |locations| > 0 && idx < |locations| && SeenIn(ledger) == seen - {""}
    }

    /** Loading the cursor and the ledger (`main` before its loop). */
    constructor (locations: seq<Location>, cursorFile: Option<CursorFile>, ledgerFile: seq<LedgerLine>)
      requires |locations| > 0
      ensures Valid()
      ensures this.locations == locations && idx == LoadCursor(cursorFile, |locations|)
      ensures seen == SeenIn(ledgerFile) && ledger == ledgerFile && cursor == cursorFile
      ensures processed == 0 && newTotal == 0
    {
      var loaded := LoadSeenIds(ledgerFile);
      this.locations := locations;
      idx := LoadCursor(cursorFile, |locations|);
      seen := loaded;
      ledger := ledgerFile;
      cursor := cursorFile;
      processed := 0;
      newTotal := 0;
    }

    /** One iteration of the loop: the new IDs are appended to the ledger, the seen
        set grows by all IDs found, and the index moves on with wrap-around. */
    method Step(fetch: nat -> set<string>)
      requires Valid()
      modifies this
      ensures Valid()
      ensures var found := fetch(old(idx));
              && idx == (old(idx) + 1) % |locations|
              && seen == old(seen) + found
              && AppendsExactly(old(ledger), ledger, found - old(seen))
              && processed == old(processed) + 1
              && newTotal == old(newTotal) + |found - old(seen)|
              && cursor == old(cursor)
    {
      var found := fetch(idx);
      var newUnique := found - seen;
      var before := ledger;
      ledger := AppendSeenIds(ledger, newUnique);
      ReloadAfterAppend(before, ledger, newUnique);
      seen := seen + found;
      processed := processed + 1;
      newTotal := newTotal + |newUnique|;
      idx := (idx + 1) % |locations|;
    }

    /** The loop of `main` and the final `save_cursor`: `batchSize` iterations (none
        when it is not positive), then the next start index is saved once. */
    method Run(batchSize: int, fetch: nat -> set<string>)
      requires Valid()
      modifies this
      ensures Valid()
      ensures var n := if batchSize > 0 then batchSize else 0;
              && processed == n
              && idx == Slot(old(idx), n, |locations|)
              && seen == old(seen) + Harvest(old(idx), n, |locations|, fetch)
              && AppendsExactly(old(ledger), ledger, seen - old(seen))
              && newTotal == |seen| - |old(seen)|
              && cursor == Some(SaveCursor(idx, |locations|))
    {
      var start := idx;
      ghost var seen0, ledger0 := seen, ledger;
      processed := 0;
      newTotal := 0;
      assert Slot(start, 0, |locations|) == start;
      while processed < batchSize
        invariant Valid()
        invariant batchSize > 0 ==> processed <= batchSize
        invariant batchSize <= 0 ==> processed == 0
        invariant RunSoFar(start, processed, |locations|, fetch, seen0, ledger0, idx, seen, ledger, newTotal)
        invariant cursor == old(cursor)
        decreases batchSize - processed
      {
        ghost var k, idx0, seenMid, ledgerMid, totalMid := processed, idx, seen, ledger, newTotal;
        Step(fetch);
        RunSoFarStep(start, k, |locations|, fetch, seen0, ledger0,
                     idx0, seenMid, ledgerMid, totalMid, idx, seen, ledger, newTotal);
      }
      cursor := Some(SaveCursor(idx, |locations|));
    }
  }

  /** What a run from the ledger's IDs leaves: the IDs new to the run are the
      harvested IDs the ledger lacked, and the ledger reloads to the old IDs plus
      the non-empty harvested ones. */
  lemma RunOutcome(seen0: set<string>, harvested: set<string>, seen1: set<string>,
                   ledger1: seq<LedgerLine>, total: int)
    requires "" !in seen0 && seen1 == seen0 + harvested
    requires SeenIn(ledger1) == seen1 - {""} && total == |seen1| - |seen0|
    ensures seen1 - seen0 == harvested - seen0
    ensures SeenIn(ledger1) == seen0 + (harvested - {""})
    ensures total == |harvested - seen0|
  {
    CardDisjointUnion(seen0, harvested);
    assert seen1 == seen0 + (harvested - seen0);
  }

  /** `main`: an empty location list ends the run with nothing written; otherwise
      the batch runs from the stored cursor, appends to the ledger exactly the
      harvested IDs it did not hold, and saves the next start index. */
  method RunLocal(rows: seq<seq<string>>, hasHeader: bool, parse: string -> Option<real>,
                  cursorFile: Option<CursorFile>, ledgerFile: seq<LedgerLine>,
                  batchSize: int, fetch: nat -> set<string>)
    returns (cursorOut: Option<CursorFile>, ledgerOut: seq<LedgerLine>, newIds: nat)
    ensures var locations := Locations(rows, hasHeader, parse);
            && (locations == [] ==> cursorOut == cursorFile && ledgerOut == ledgerFile && newIds == 0)
            && (locations != [] ==>
                  var start := LoadCursor(cursorFile, |locations|);
                  var n := if batchSize > 0 then batchSize else 0;
                  var harvested := Harvest(start, n, |locations|, fetch);
                  && cursorOut == Some(SaveCursor(Slot(start, n, |locations|), |locations|))
                  && AppendsExactly(ledgerFile, ledgerOut, harvested - SeenIn(ledgerFile))
                  && SeenIn(ledgerOut) == SeenIn(ledgerFile) + (harvested - {""})
                  && newIds == |harvested - SeenIn(ledgerFile)|)
  {
    var locations := LoadLocations(rows, hasHeader, parse);
    if |locations| == 0 {
      return cursorFile, ledgerFile, 0;
    }
    var runner := new BatchRunner(locations, cursorFile, ledgerFile);
    runner.Run(batchSize, fetch);
    ghost var harvested := Harvest(LoadCursor(cursorFile, |locations|), if batchSize > 0 then batchSize else 0, |locations|, fetch);
    RunOutcome(SeenIn(ledgerFile), harvested, runner.seen, runner.ledger, runner.newTotal);
    cursorOut, ledgerOut, newIds := runner.cursor, runner.ledger, runner.newTotal;
  }
}
