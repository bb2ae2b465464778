/** `parse_city_state_abbr` and the output file names derived from it. The OSM script
    and the Google Places script carry identical copies of both functions
    (osm_one_location.py `parse_city_state_abbr`/`build_output_filenames`,
    places_one_location.py `parse_city_state_abbr`/`build_filenames`); this module
    is the one definition of both. */
module CityState {
  import opened Optional
  import opened Text

  /** The text the parser splits: stripped, each double space made single, commas
      made spaces. */
  function Normalized(location: string): (r: string)
    ensures ',' !in r
  {
    var collapsed := Replace(Strip(location), "  ", " ");
    ReplaceRemovesChar(collapsed, ',', " ");
    Replace(collapsed, ",", " ")
  }

  /** Splits "City, ST" or "City ST" into the city and an upper-case state code.
      A state code is taken exactly when the last word has two characters, or has
      three characters and follows at least one other word. */
  function ParseCityStateAbbr(location: string): (r: (string, string))
    ensures |r.1| == 0 || |r.1| == 2
    ensures IsUpperCase(r.1)
    ensures r.1 != "" <==> TakesStateCode(Words(Normalized(location)))
    ensures var parts := Words(Normalized(location));
            r.1 != "" ==> |parts| >= 1 && r.1 == Upper(Take(parts[|parts| - 1], 2))
                          && r.0 == Join(parts[..|parts| - 1], " ")
    ensures r.1 == "" ==> r.0 == Normalized(location)
  {
    var s := Normalized(location);
    var parts := Words(s);
    SplitStateCode(s, parts)
  }

  /** The last word is a state code: two characters, or three after at least one
      other word. */
  predicate TakesStateCode(parts: seq<string>) {
    |parts| >= 1 && (|parts[|parts| - 1]| == 2 || (|parts| >= 2 && |parts[|parts| - 1]| == 3))
  }

  /** The branches of `parse_city_state_abbr` over the words `parts` of the
      normalised text `s`: a last word of two or three characters after at least
      one other word, or a last word of two characters, is the state code. */
  function SplitStateCode(s: string, parts: seq<string>): (r: (string, string))
    ensures |r.1| == 0 || |r.1| == 2
    ensures IsUpperCase(r.1)
    ensures r.1 != "" <==> TakesStateCode(parts)
    ensures r.1 != "" ==> |parts| >= 1 && r.1 == Upper(Take(parts[|parts| - 1], 2))
                          && r.0 == Join(parts[..|parts| - 1], " ")
    ensures r.1 == "" ==> r.0 == s
  {
    if parts == [] then (s, "")
    else
      var last := parts[|parts| - 1];
      if |parts| >= 2 && (|last| == 2 || |last| == 3) then
        (Join(parts[..|parts| - 1], " "), Upper(Take(last, 2)))
      else if |last| == 2 then
        (Join(parts[..|parts| - 1], " "), Upper(last))
      else
        (s, "")
  }

  /** "City, ST" with a one-word city and a two-character state splits into the
      city and the upper-cased state. */
  lemma CityCommaState(city: string, st: string)
    requires city != [] && NoSpace(city) && ',' !in city
    requires |st| == 2 && NoSpace(st) && ',' !in st
    ensures ParseCityStateAbbr(city + ", " + st) == (city, Upper(st))
  {
    var n := Normalized(city + ", " + st);
    assert Words(n) == [city, st] by {
      NormalizedCityState(city, st);
      TwoWords(city, st);
    }
    SplitCityState(n, city, st);
  }

  lemma SplitCityState(n: string, city: string, st: string)
    requires |st| == 2
    ensures SplitStateCode(n, [city, st]) == (city, Upper(st))
  {
    assert [city, st][..1] == [city];
    assert Take(st, 2) == st;
  }

  lemma NormalizedCityState(city: string, st: string)
    requires city != [] && NoSpace(city) && ',' !in city
    requires st != [] && NoSpace(st) && ',' !in st
    ensures Normalized(city + ", " + st) == city + ("  " + st)
  {
    var s := city + ", " + st;
    assert s[0] == city[0] && s[|s| - 1] == st[|st| - 1];
    StripUnchanged(s);
    NoDoubleSpace(city, st);
    ReplaceAbsent(s, "  ", " ");
    NoCommaIn(city);
    NoCommaIn(st);
    CommaBecomesSpace(city, st);
  }

  lemma TwoWords(a: string, b: string)
    requires a != [] && NoSpace(a) && b != [] && NoSpace(b)
    ensures Words(a + ("  " + b)) == [a, b]
  {
    assert IsSpace(("  " + b)[0]);
    WordsWordThen(a, "  " + b);
    assert AllSpace("  ");
    WordsSpaceThen("  ", b);
    assert b == b + [];
    WordsWordThen(b, []);
  }

  lemma CommaBecomesSpace(city: string, st: string)
    requires !Contains(city, ",") && !Contains(st, ",")
    ensures Replace(city + ", " + st, ",", " ") == city + ("  " + st)
  {
    assert Replace(city + ", " + st, ",", " ") == Replace(city + ", ", ",", " ") + st by {
      ReplaceCharConcat(city + ", ", st, ',', " ");
      ReplaceAbsent(st, ",", " ");
    }
    assert Replace(city + ", ", ",", " ") == city + "  " by {
      ReplaceCharConcat(city, ", ", ',', " ");
      ReplaceAbsent(city, ",", " ");
      CommaSpaceReplaced();
    }
  }

  lemma CommaSpaceReplaced()
    ensures Replace(", ", ",", " ") == "  "
  {
    var s := ", ";
    assert s[..1] == "," && s[1..] == " ";
    var t := " ";
    assert t[..1][0] == ' ' && t[1..] == [];
    assert Replace(t, ",", " ") == [t[0]] + Replace([], ",", " ");
  }

  /** No two whitespace characters side by side. */
  predicate SingleSpaced(s: string) {
    forall i :: 0 <= i < |s| - 1 ==> !IsSpace(s[i]) || !IsSpace(s[i + 1])
  }

  lemma {:induction false} SingleSpacedNoDouble(s: string)
    requires SingleSpaced(s)
    ensures !Contains(s, "  ")
    decreases |s|
  {
    if s != [] {
      if |s| >= 2 {
        assert s[..2] != "  " by {
          assert s[..2][0] == s[0] && s[..2][1] == s[1];
        }
      }
      assert SingleSpaced(s[1..]) by {
        forall i | 0 <= i < |s[1..]| - 1 ensures !IsSpace(s[1..][i]) || !IsSpace(s[1..][i + 1]) {
          assert s[1..][i] == s[i + 1] && s[1..][i + 1] == s[i + 2];
        }
      }
      SingleSpacedNoDouble(s[1..]);
    }
  }

  /** The single space between the two parts is the only space in "City, ST". */
  lemma NoDoubleSpace(city: string, st: string)
    requires NoSpace(city) && NoSpace(st)
    ensures !Contains(city + ", " + st, "  ")
  {
    var s := city + ", " + st;
    forall i | 0 <= i < |s| - 1 ensures !IsSpace(s[i]) || !IsSpace(s[i + 1]) {
      if i < |city| {
        assert s[i] == city[i];
      } else if i == |city| {
        assert s[i] == ',';
      } else {
        assert s[i + 1] == st[i + 1 - |city| - 2];
      }
    }
    SingleSpacedNoDouble(s);
  }

  lemma {:induction false} NoCommaIn(w: string)
    requires ',' !in w
    ensures !Contains(w, ",")
    decreases |w|
  {
    if w != [] {
      assert w[..1] == [w[0]];
      assert ',' !in w[1..] by {
        forall i | 0 <= i < |w[1..]| ensures w[1..][i] != ',' {
          assert w[1..][i] == w[i + 1];
        }
      }
      NoCommaIn(w[1..]);
    }
  }

  /** A location as typed in the locations file. */
  lemma NorthwoodNH()
    ensures ParseCityStateAbbr("Northwood, NH") == ("Northwood", "NH")
  {
    NorthwoodNHParts();
    CityCommaState("Northwood", "NH");
  }

  lemma NorthwoodNHParts()
    ensures "Northwood, NH" == "Northwood" + ", " + "NH"
    ensures NoSpace("Northwood") && ',' !in "Northwood"
    ensures NoSpace("NH") && ',' !in "NH" && Upper("NH") == "NH"
  {
    var city := "Northwood";
    assert NoSpace(city) && ',' !in city by {
      forall i | 0 <= i < |city| ensures !IsSpace(city[i]) && city[i] != ',' {
      }
    }
    UpperOfUpperCase("NH");
  }

  /** The ending every output file name shares. */
  const RadiusSuffix := " Miles Radius.csv"

  /** What follows the city in every file name. */
  function FileNameTail(st: string, radius: int): string {
    " " + st + " - " + IntToString(radius) + RadiusSuffix
  }

  /** The file name for one role ("Suppliers" or "Retailers"). */
  function FileName(st: string, who: string, city: string, radius: int): string {
    (st + " ") + who + (" - " + city + FileNameTail(st, radius))
  }

  /** The f-string both scripts build before `.format(who=...)`: the doubled
      braces leave a `{who}` field where the role goes. */
  function FileNameTemplate(st: string, city: string, radius: int): string {
    (st + " ") + "{who}" + (" - " + city + FileNameTail(st, radius))
  }

  /** The cleaned city and the upper-case state code that go into the names. */
  function FileNameFields(location: string): (string, string) {
    var (city, st) := ParseCityStateAbbr(location);
    (Replace(Strip(CollapseSpaces(city)), ",", ""), Upper(st))
  }

  /** The suppliers and retailers file names of one location run; `radius` is the
      radius already truncated by `int()`. `None` is the error `str.format` raises
      on a stray brace in the city or the state code. Brace-free fields give the
      plain names. */
  function BuildOutputFilenames(location: string, radius: int): (r: Option<(string, string)>)
    ensures var (city, st) := FileNameFields(location);
            (NoBraces(city) && NoBraces(st) ==>
               r == Some((FileName(st, "Suppliers", city, radius), FileName(st, "Retailers", city, radius))))
  {
    var (city, st) := FileNameFields(location);
    var template := FileNameTemplate(st, city, radius);
    FileNameFormats(st, city, radius, "Suppliers");
    FileNameFormats(st, city, radius, "Retailers");
    var suppliers := FormatWho(template, "Suppliers");
    var retailers := FormatWho(template, "Retailers");
    if suppliers.Some? && retailers.Some? then Some((suppliers.value, retailers.value)) else None
  }

  /** Regrouping a concatenation around an inner piece `f`. */
  lemma Regroup(p: string, x: string, f: string, y: string, t: string)
    ensures p + (x + f + y) + t == (p + x) + f + (y + t)
  {
  }

  lemma TailNoBraces(st: string, radius: int)
    requires NoBraces(st)
    ensures NoBraces(FileNameTail(st, radius))
  {
    assert NoBraces(" ");
    assert NoBraces(" - ");
    assert NoBraces(RadiusSuffix);
    IntToStringNoBraces(radius);
    NoBracesConcat(" ", st);
    NoBracesConcat(" " + st, " - ");
    NoBracesConcat(" " + st + " - ", IntToString(radius));
    NoBracesConcat(" " + st + " - " + IntToString(radius), RadiusSuffix);
  }

  lemma PrefixNoBraces(st: string)
    requires NoBraces(st)
    ensures NoBraces(st + " ") && NoBraces(" - ")
  {
    assert NoBraces(" ");
    assert NoBraces(" - ");
    NoBracesConcat(st, " ");
  }

  /** With no brace in the state code or the city, `.format(who=...)` fills the
      role in and changes nothing else. */
  lemma FileNameFormats(st: string, city: string, radius: int, who: string)
    ensures NoBraces(st) && NoBraces(city)
            ==> FormatWho(FileNameTemplate(st, city, radius), who) == Some(FileName(st, who, city, radius))
  {
    if NoBraces(st) && NoBraces(city) {
      PrefixNoBraces(st);
      TailNoBraces(st, radius);
      NoBracesConcat(" - ", city);
      NoBracesConcat(" - " + city, FileNameTail(st, radius));
      FormatAroundField(st + " ", " - " + city + FileNameTail(st, radius), who);
    }
  }

  /** A city that itself contains the text `{who}` gets the role a second time. */
  lemma RoleInCityRepeated(location: string, radius: int, x: string, y: string)
    requires var (city, st) := FileNameFields(location);
             NoBraces(st) && NoBraces(x) && NoBraces(y) && city == x + "{who}" + y
    ensures BuildOutputFilenames(location, radius)
         == Some((FileName(FileNameFields(location).1, "Suppliers", x + "Suppliers" + y, radius),
                  FileName(FileNameFields(location).1, "Retailers", x + "Retailers" + y, radius)))
  {
    var (city, st) := FileNameFields(location);
    RoleInCityFormats(st, x, y, radius, "Suppliers");
    RoleInCityFormats(st, x, y, radius, "Retailers");
  }

  lemma RoleInCityFormats(st: string, x: string, y: string, radius: int, who: string)
    requires NoBraces(st) && NoBraces(x) && NoBraces(y)
    ensures FormatWho(FileNameTemplate(st, x + "{who}" + y, radius), who)
         == Some(FileName(st, who, x + who + y, radius))
  {
    var tail := FileNameTail(st, radius);
    Regroup(" - ", x, "{who}", y, tail);
    Regroup(" - ", x, who, y, tail);
    PrefixNoBraces(st);
    TailNoBraces(st, radius);
    NoBracesConcat(" - ", x);
    NoBracesConcat(y, tail);
    FormatTwoFields(st + " ", " - " + x, y + tail, who);
  }

  /** A `{` in the city that opens neither `{{` nor `{who}` makes `.format` raise. */
  lemma BraceInCityFails(location: string, radius: int, x: string, y: string)
    requires var (city, st) := FileNameFields(location);
             NoBraces(st) && NoBraces(x) && city == x + "{" + y && y != [] && y[0] != '{' && y[0] != 'w'
    ensures BuildOutputFilenames(location, radius) == None
  {
    var (city, st) := FileNameFields(location);
    var tail := FileNameTail(st, radius);
    Regroup(" - ", x, "{", y, tail);
    PrefixNoBraces(st);
    NoBracesConcat(" - ", x);
    FormatStrayOpen(" - " + x, y + tail, "Suppliers");
    FormatFailsAfterField(st + " ", " - " + city + tail, "Suppliers");
  }

  /** A `}` in the city that is not doubled makes `.format` raise. */
  lemma LoneCloseBraceFails(location: string, radius: int, x: string, y: string)
    requires var (city, st) := FileNameFields(location);
             NoBraces(st) && NoBraces(x) && city == x + "}" + y && (y == [] || y[0] != '}')
    ensures BuildOutputFilenames(location, radius) == None
  {
    var (city, st) := FileNameFields(location);
    var tail := FileNameTail(st, radius);
    Regroup(" - ", x, "}", y, tail);
    PrefixNoBraces(st);
    NoBracesConcat(" - ", x);
    assert y + tail == [] || (y + tail)[0] != '}' by {
      if y == [] {
        assert y + tail == tail && tail[0] == ' ';
      } else {
        assert (y + tail)[0] == y[0];
      }
    }
    FormatStrayClose(" - " + x, y + tail, "Suppliers");
    FormatFailsAfterField(st + " ", " - " + city + tail, "Suppliers");
  }

  /** Both names end with the radius suffix and differ only in the role word. */
  lemma FileNamesShape(st: string, city: string, radius: int)
    ensures exists p, q :: FileName(st, "Suppliers", city, radius) == p + "Suppliers" + q
                        && FileName(st, "Retailers", city, radius) == p + "Retailers" + q
    ensures EndsWith(FileName(st, "Suppliers", city, radius), RadiusSuffix)
    ensures EndsWith(FileName(st, "Retailers", city, radius), RadiusSuffix)
  {
    var q := " - " + city + FileNameTail(st, radius);
    assert EndsWith(q, RadiusSuffix) by {
      EndsWithSuffix(" " + st + " - " + IntToString(radius), RadiusSuffix);
      EndsWithAppend(" - " + city, FileNameTail(st, radius), RadiusSuffix);
    }
    EndsWithAppend((st + " ") + "Suppliers", q, RadiusSuffix);
    EndsWithAppend((st + " ") + "Retailers", q, RadiusSuffix);
    assert FileName(st, "Suppliers", city, radius) == (st + " ") + "Suppliers" + q;
  }

  /** The two names are made or fail together; made from brace-free fields they
      differ only in the role word, and both match the `"* Miles Radius.csv"`
      pattern the batch runner collects. */
  lemma FilenamesDifferOnlyInRole(location: string, radius: int)
    ensures var (city, st) := FileNameFields(location);
            var template := FileNameTemplate(st, city, radius);
            (BuildOutputFilenames(location, radius).Some? <==>
               FormatWho(template, "Suppliers").Some? && FormatWho(template, "Retailers").Some?)
    ensures var (city, st) := FileNameFields(location);
            var names := BuildOutputFilenames(location, radius);
            (NoBraces(city) && NoBraces(st) ==>
              && names.Some?
              && (exists p, q :: names.value.0 == p + "Suppliers" + q && names.value.1 == p + "Retailers" + q)
              && EndsWith(names.value.0, RadiusSuffix) && EndsWith(names.value.1, RadiusSuffix))
  {
    var (city, st) := FileNameFields(location);
    FormatDefinedAnyWho(FileNameTemplate(st, city, radius), "Suppliers", "Retailers");
    FileNamesShape(st, city, radius);
  }
}
