/** String operations of the Python standard library that the crawler relies on,
    stated over `seq<char>`. Case mapping is ASCII; whitespace is the set that
    Python's `str.isspace()` accepts, which is also what `str.split()`,
    `str.strip()` and the regular-expression class `\s` use. */
module Text {
  import opened Optional

  /** Python's `str.isspace()`. */
  predicate IsSpace(c: char) {
    || c == ' ' || ('\t' <= c <= '\r') || ('\U{1c}' <= c <= '\U{1f}')
    || c == '\U{85}' || c == '\U{a0}' || c == '\U{1680}'
    || ('\U{2000}' <= c <= '\U{200a}') || c == '\U{2028}' || c == '\U{2029}'
    || c == '\U{202f}' || c == '\U{205f}' || c == '\U{3000}'
  }

  predicate NoSpace(s: string) {
    forall i :: 0 <= i < |s| ==> !IsSpace(s[i])
  }

  predicate AllSpace(s: string) {
    forall i :: 0 <= i < |s| ==> IsSpace(s[i])
  }

  function LowerChar(c: char): char {
    if 'A' <= c <= 'Z' then (c as int + 32) as char else c
  }

  function UpperChar(c: char): char {
    if 'a' <= c <= 'z' then (c as int - 32) as char else c
  }

  /** `s.lower()`, on ASCII letters. */
  function Lower(s: string): (r: string)
    ensures |r| == |s| && IsLowerCase(r)
  {
    seq(|s|, i requires 0 <= i < |s| => LowerChar(s[i]))
  }

  /** `s.upper()`, on ASCII letters. */
  function Upper(s: string): (r: string)
    ensures |r| == |s| && IsUpperCase(r)
  {
    seq(|s|, i requires 0 <= i < |s| => UpperChar(s[i]))
  }

  predicate IsLowerCase(s: string) {
    forall i :: 0 <= i < |s| ==> !('A' <= s[i] <= 'Z')
  }

  /** Lower-casing text that has no upper-case letter changes nothing. */
  lemma LowerOfLowerCase(s: string)
    requires IsLowerCase(s)
    ensures Lower(s) == s
  {
  }

  predicate IsUpperCase(s: string) {
    forall i :: 0 <= i < |s| ==> !('a' <= s[i] <= 'z')
  }

  /** Upper-casing text that has no lower-case letter changes nothing. */
  lemma UpperOfUpperCase(s: string)
    requires IsUpperCase(s)
    ensures Upper(s) == s
  {
  }

  /** `s[:n]`: Python slicing clamps the bound. */
  function Take(s: string, n: nat): (r: string)
    ensures |r| == if n < |s| then n else |s|
  {
    if n < |s| then s[..n] else s
  }

  predicate StartsWith(s: string, p: string) {
    |p| <= |s| && s[..|p|] == p
  }

  predicate EndsWith(s: string, p: string) {
    |p| <= |s| && s[|s| - |p|..] == p
  }

  lemma EndsWithSuffix(m: string, p: string)
    ensures EndsWith(m + p, p)
  {
    assert (m + p)[|m|..] == p;
  }

  lemma EndsWithAppend(a: string, b: string, p: string)
    requires EndsWith(b, p)
    ensures EndsWith(a + b, p)
  {
    assert (a + b)[|a + b| - |p|..] == b[|b| - |p|..];
  }

  /** Python's `pat in s`. */
  predicate Contains(s: string, pat: string)
    decreases |s|
  {
    StartsWith(s, pat) || (s != [] && Contains(s[1..], pat))
  }

  lemma {:induction false} ContainsAt(s: string, pat: string, i: nat)
    requires i + |pat| <= |s| && s[i..i + |pat|] == pat
    ensures Contains(s, pat)
    decreases i
  {
    if i > 0 {
      assert s[1..][i - 1..i - 1 + |pat|] == s[i..i + |pat|];
      ContainsAt(s[1..], pat, i - 1);
    }
  }

  lemma ContainsInfix(a: string, b: string, c: string, pat: string)
    requires Contains(b, pat)
    ensures Contains(a + b + c, pat)
  {
    var i := ContainsWitness(b, pat);
    assert (a + b + c)[|a| + i..|a| + i + |pat|] == b[i..i + |pat|];
    ContainsAt(a + b + c, pat, |a| + i);
  }

  /** A text containing `big` contains every infix of `big`. */
  lemma ContainsPart(s: string, big: string, off: nat, pat: string)
    requires Contains(s, big)
    requires off + |pat| <= |big| && big[off..off + |pat|] == pat
    ensures Contains(s, pat)
  {
    var i := ContainsWitness(s, big);
    forall k | 0 <= k < |pat| ensures s[i + off + k] == pat[k] {
      assert s[i..i + |big|][off + k] == s[i + off + k];
      assert big[off..off + |pat|][k] == big[off + k];
    }
    assert s[i + off..i + off + |pat|] == pat;
    ContainsAt(s, pat, i + off);
  }

  lemma {:induction false} ContainsWitness(s: string, pat: string) returns (i: nat)
    requires Contains(s, pat)
    ensures i + |pat| <= |s| && s[i..i + |pat|] == pat
    decreases |s|
  {
    if StartsWith(s, pat) {
      i := 0;
    } else {
      var j := ContainsWitness(s[1..], pat);
      assert s[1 + j..1 + j + |pat|] == s[1..][j..j + |pat|];
      i := j + 1;
    }
  }

  /** `s.lstrip()`. */
  function TrimLeft(s: string): (r: string)
    ensures |r| <= |s| && r == s[|s| - |r|..]
    ensures r == [] || !IsSpace(r[0])
    ensures AllSpace(s[..|s| - |r|])
  {
    if s != [] && IsSpace(s[0]) then
      var r := TrimLeft(s[1..]);
      TrimLeftStep(s, r);
      r
    else s
  }

  /** Stripping the leading space `s[0]` then the rest strips `s`. */
  lemma TrimLeftStep(s: string, r: string)
    requires s != [] && IsSpace(s[0])
    requires |r| <= |s| - 1 && r == s[1..][|s| - 1 - |r|..] && AllSpace(s[1..][..|s| - 1 - |r|])
    ensures r == s[|s| - |r|..] && AllSpace(s[..|s| - |r|])
  {
    assert s[..|s| - |r|] == [s[0]] + s[1..][..|s| - 1 - |r|];
    AllSpaceConcat([s[0]], s[1..][..|s| - 1 - |r|]);
  }

  lemma AllSpaceConcat(a: string, b: string)
    requires AllSpace(a) && AllSpace(b)
    ensures AllSpace(a + b)
  {
    forall i | 0 <= i < |a + b| ensures IsSpace((a + b)[i]) {
      if i < |a| {
        assert (a + b)[i] == a[i];
      } else {
        assert (a + b)[i] == b[i - |a|];
      }
    }
  }

  /** `s.rstrip()`. */
  function TrimRight(s: string): (r: string)
    ensures |r| <= |s| && r == s[..|r|]
    ensures r == [] || !IsSpace(r[|r| - 1])
    ensures AllSpace(s[|r|..])
  {
    if s != [] && IsSpace(s[|s| - 1]) then
      var r := TrimRight(s[..|s| - 1]);
      TrimRightStep(s, r);
      r
    else s
  }

  /** Stripping the trailing space `s[|s| - 1]` then the rest strips `s`. */
  lemma TrimRightStep(s: string, r: string)
    requires s != [] && IsSpace(s[|s| - 1])
    requires |r| <= |s| - 1 && r == s[..|s| - 1][..|r|] && AllSpace(s[..|s| - 1][|r|..])
    ensures r == s[..|r|] && AllSpace(s[|r|..])
  {
    assert s[|r|..] == s[..|s| - 1][|r|..] + [s[|s| - 1]];
    AllSpaceConcat(s[..|s| - 1][|r|..], [s[|s| - 1]]);
  }

  /** `s.strip()`. */
  function Strip(s: string): (r: string)
    ensures r == [] || (!IsSpace(r[0]) && !IsSpace(r[|r| - 1]))
  {
    TrimRight(TrimLeft(s))
  }

  /** Text without surrounding whitespace is its own `strip()`. */
  lemma StripUnchanged(s: string)
    requires s == [] || (!IsSpace(s[0]) && !IsSpace(s[|s| - 1]))
    ensures Strip(s) == s
  {
  }

  /** Length of the longest prefix of `s` without whitespace. */
  function WordLength(s: string): (n: nat)
    ensures n <= |s| && NoSpace(s[..n]) && (n < |s| ==> IsSpace(s[n]))
  {
    if s == [] || IsSpace(s[0]) then 0
    else
      var n := WordLength(s[1..]);
      assert s[..n + 1] == [s[0]] + s[1..][..n];
      n + 1
  }

  /** `s.split()` with no separator: the maximal runs of non-whitespace. */
  function Words(s: string): (r: seq<string>)
    ensures forall k :: 0 <= k < |r| ==> r[k] != [] && NoSpace(r[k])
    decreases |s|
  {
    if s == [] then []
    else if IsSpace(s[0]) then Words(s[1..])
    else
      var n := WordLength(s);
      [s[..n]] + Words(s[n..])
  }

  /** A word followed by whitespace or by the end is one whole word. */
  lemma {:induction false} WordLengthOfWord(w: string, rest: string)
    requires w != [] && NoSpace(w) && (rest == [] || IsSpace(rest[0]))
    ensures WordLength(w + rest) == |w|
    decreases |w|
  {
    var s := w + rest;
    assert s[0] == w[0];
    assert s[1..] == w[1..] + rest;
    if |w| == 1 {
      assert s[1..] == rest;
      assert WordLength(rest) == 0;
    } else {
      WordLengthOfWord(w[1..], rest);
    }
  }

  /** `s.split()` on a word followed by whitespace or the end yields that word first. */
  lemma WordsWordThen(w: string, rest: string)
    requires w != [] && NoSpace(w) && (rest == [] || IsSpace(rest[0]))
    ensures Words(w + rest) == [w] + Words(rest)
  {
    var s := w + rest;
    WordLengthOfWord(w, rest);
    assert s[0] == w[0];
    assert s[..|w|] == w && s[|w|..] == rest;
  }

  /** Leading whitespace yields no word. */
  lemma {:induction false} WordsSpaceThen(sp: string, rest: string)
    requires AllSpace(sp)
    ensures Words(sp + rest) == Words(rest)
    decreases |sp|
  {
    if sp == [] {
      assert sp + rest == rest;
    } else {
      var s := sp + rest;
      assert s[0] == sp[0];
      assert IsSpace(s[0]);
      assert s[1..] == sp[1..] + rest;
      WordsSpaceThen(sp[1..], rest);
    }
  }

  /** `s.replace(pat, rep)` leaves a text without `pat` alone. */
  lemma {:induction false} ReplaceAbsent(s: string, pat: string, rep: string)
    requires pat != [] && !Contains(s, pat)
    ensures Replace(s, pat, rep) == s
    decreases |s|
  {
    if |s| >= |pat| {
      ReplaceAbsent(s[1..], pat, rep);
      assert [s[0]] + s[1..] == s;
    }
  }

  /** Replacing a character by text without it leaves none of it. */
  lemma {:induction false} ReplaceRemovesChar(s: string, c: char, rep: string)
    requires c !in rep
    ensures c !in Replace(s, [c], rep)
    decreases |s|
  {
    if |s| >= 1 {
      ReplaceRemovesChar(s[1..], c, rep);
      if s[..1] != [c] {
        assert s[0] != c by {
          assert s[..1] == [s[0]];
        }
      }
    }
  }

  /** Replacing one character works piece by piece. */
  lemma {:induction false} ReplaceCharConcat(a: string, b: string, c: char, rep: string)
    ensures Replace(a + b, [c], rep) == Replace(a, [c], rep) + Replace(b, [c], rep)
    decreases |a|
  {
    if a == [] {
      assert a + b == b;
    } else {
      var s := a + b;
      assert s[..1] == a[..1] && s[0] == a[0];
      assert s[1..] == a[1..] + b;
      ReplaceCharConcat(a[1..], b, c, rep);
      if a[..1] == [c] {
        assert Replace(s, [c], rep) == rep + Replace(s[1..], [c], rep);
        assert Replace(a, [c], rep) == rep + Replace(a[1..], [c], rep);
      } else {
        assert Replace(s, [c], rep) == [s[0]] + Replace(s[1..], [c], rep);
        assert Replace(a, [c], rep) == [a[0]] + Replace(a[1..], [c], rep);
      }
    }
  }

  /** `sep.join(parts)`. */
  function Join(parts: seq<string>, sep: string): string {
    if parts == [] then ""
    else if |parts| == 1 then parts[0]
    else parts[0] + sep + Join(parts[1..], sep)
  }

  /** A join whose first part is not empty is not empty. */
  lemma JoinNonEmpty(parts: seq<string>, sep: string)
    requires parts != [] && parts[0] != []
    ensures Join(parts, sep) != []
  {
    if |parts| > 1 {
      assert |Join(parts, sep)| >= |parts[0]|;
    }
  }

  /** `s.replace(pat, rep)`: non-overlapping occurrences, scanned left to right. */
  function Replace(s: string, pat: string, rep: string): string
    requires pat != []
    decreases |s|
  {
    if |s| < |pat| then s
    else if s[..|pat|] == pat then rep + Replace(s[|pat|..], pat, rep)
    else [s[0]] + Replace(s[1..], pat, rep)
  }

  /** `re.sub(r"\s+", " ", s)`: every run of whitespace becomes one space. */
  function CollapseSpaces(s: string): string
    decreases |s|
  {
    if s == [] then ""
    else if IsSpace(s[0]) then " " + CollapseSpaces(TrimLeft(s[1..]))
    else [s[0]] + CollapseSpaces(s[1..])
  }

  function DigitChar(d: nat): (c: char)
    requires d < 10
    ensures '0' <= c <= '9'
  {
    "0123456789"[d]
  }

  /** `str(n)` for a natural number: decimal, no leading zeros. */
  function NatToString(n: nat): (r: string)
    ensures |r| >= 1
    ensures forall i :: 0 <= i < |r| ==> '0' <= r[i] <= '9'
  {
    if n < 10 then [DigitChar(n)] else NatToString(n / 10) + [DigitChar(n % 10)]
  }

  /** `str(i)` for a Python int. */
  function IntToString(i: int): (r: string)
    ensures |r| >= 1 && (r[0] == '-' || '0' <= r[0] <= '9')
  {
    if i < 0 then "-" + NatToString(-i) else NatToString(i)
  }

  lemma DigitCharInjective(a: nat, b: nat)
    requires a < 10 && b < 10 && DigitChar(a) == DigitChar(b)
    ensures a == b
  {
  }

  lemma {:induction false} NatToStringInjective(a: nat, b: nat)
    requires NatToString(a) == NatToString(b)
    ensures a == b
  {
    if a < 10 && b < 10 {
      DigitCharInjective(a, b);
    } else if a >= 10 && b >= 10 {
      var sa, sb := NatToString(a / 10), NatToString(b / 10);
      var s := NatToString(a);
      assert s == sa + [DigitChar(a % 10)];
      assert s == sb + [DigitChar(b % 10)];
      assert |sa| == |sb|;
      assert sa == s[..|s| - 1] == sb;
      DigitCharInjective(a % 10, b % 10);
      NatToStringInjective(a / 10, b / 10);
    }
  }

  lemma IntToStringInjective(a: int, b: int)
    requires IntToString(a) == IntToString(b)
    ensures a == b
  {
    if a < 0 && b < 0 {
      assert NatToString(-a) == IntToString(a)[1..] == NatToString(-b);
      NatToStringInjective(-a, -b);
    } else if a >= 0 && b >= 0 {
      NatToStringInjective(a, b);
    }
  }

  /** `s` holds neither `{` nor `}`. */
  predicate NoBraces(s: string) {
    forall i :: 0 <= i < |s| ==> s[i] != '{' && s[i] != '}'
  }

  lemma NoBracesConcat(a: string, b: string)
    requires NoBraces(a) && NoBraces(b)
    ensures NoBraces(a + b)
  {
    forall i | 0 <= i < |a + b| ensures (a + b)[i] != '{' && (a + b)[i] != '}' {
      if i < |a| {
        assert (a + b)[i] == a[i];
      } else {
        assert (a + b)[i] == b[i - |a|];
      }
    }
  }

  lemma IntToStringNoBraces(i: int)
    ensures NoBraces(IntToString(i))
  {
    var r := IntToString(i);
    if i < 0 {
      var d := NatToString(-i);
      forall k | 0 <= k < |r| ensures r[k] != '{' && r[k] != '}' {
        if k > 0 {
          assert r[k] == d[k - 1];
        }
      }
    }
  }

  /** A formatted piece of text put after `p`; a failure stays a failure. */
  function PrependTo(p: string, r: Option<string>): Option<string> {
    if r.Some? then Some(p + r.value) else None
  }

  /** `s.format(who=who)` for a text with no positional argument: `{{` and `}}`
      stand for single braces and the field `{who}` for `who`. Every other field
      raises (KeyError for another name, IndexError for `{}`, ValueError for a `{`
      that is never closed) and so does a lone `}`; a raise is `None`. */
  function FormatWho(s: string, who: string): Option<string>
    decreases |s|
  {
    if s == [] then Some("")
    else if s[0] == '{' then
      if |s| >= 2 && s[1] == '{' then PrependTo("{", FormatWho(s[2..], who))
      else if |s| >= 5 && s[1..5] == "who}" then PrependTo(who, FormatWho(s[5..], who))
      else None
    else if s[0] == '}' then
      if |s| >= 2 && s[1] == '}' then PrependTo("}", FormatWho(s[2..], who))
      else None
    else PrependTo([s[0]], FormatWho(s[1..], who))
  }

  /** Text without braces is copied as it is. */
  lemma {:induction false} FormatPlain(a: string, b: string, who: string)
    requires NoBraces(a)
    ensures FormatWho(a + b, who) == PrependTo(a, FormatWho(b, who))
    decreases |a|
  {
    if a == [] {
      assert a + b == b;
      var r := FormatWho(b, who);
      if r.Some? {
        assert a + r.value == r.value;
      }
    } else {
      var s := a + b;
      assert s[0] == a[0] && s[0] != '{' && s[0] != '}';
      assert s[1..] == a[1..] + b;
      assert FormatWho(s, who) == PrependTo([a[0]], FormatWho(s[1..], who));
      FormatPlain(a[1..], b, who);
      var r := FormatWho(b, who);
      if r.Some? {
        assert [a[0]] + (a[1..] + r.value) == a + r.value;
      }
    }
  }

  /** The field `{who}` is replaced by `who`. */
  lemma FormatField(b: string, who: string)
    ensures FormatWho("{who}" + b, who) == PrependTo(who, FormatWho(b, who))
  {
    var s := "{who}" + b;
    assert s[0] == '{' && s[1] == 'w' && s[1..5] == "who}" && s[5..] == b;
  }

  /** A `{` that neither doubles nor opens `{who}` makes the call raise. */
  lemma FormatOtherField(b: string, who: string)
    requires b != [] && b[0] != '{' && b[0] != 'w'
    ensures FormatWho("{" + b, who) == None
  {
    var s := "{" + b;
    assert s[0] == '{' && s[1] == b[0];
  }

  /** A `}` that does not double makes the call raise. */
  lemma FormatLoneClose(b: string, who: string)
    requires b == [] || b[0] != '}'
    ensures FormatWho("}" + b, who) == None
  {
    var s := "}" + b;
    assert s[0] == '}';
    if b != [] {
      assert s[1] == b[0];
    }
  }

  /** Brace-free text formats to itself. */
  lemma FormatNoBraces(s: string, who: string)
    requires NoBraces(s)
    ensures FormatWho(s, who) == Some(s)
  {
    assert s == s + [];
    FormatPlain(s, [], who);
  }

  /** One `{who}` field between brace-free text. */
  lemma FormatAroundField(a: string, b: string, who: string)
    requires NoBraces(a) && NoBraces(b)
    ensures FormatWho(a + "{who}" + b, who) == Some(a + who + b)
  {
    assert a + "{who}" + b == a + ("{who}" + b);
    FormatPlain(a, "{who}" + b, who);
    FormatField(b, who);
    FormatNoBraces(b, who);
    assert a + (who + b) == a + who + b;
  }

  /** Two `{who}` fields: both are filled in. */
  lemma FormatTwoFields(a: string, b: string, c: string, who: string)
    requires NoBraces(a) && NoBraces(b) && NoBraces(c)
    ensures FormatWho(a + "{who}" + (b + "{who}" + c), who) == Some(a + who + (b + who + c))
  {
    var t := b + "{who}" + c;
    assert a + "{who}" + t == a + ("{who}" + t);
    FormatPlain(a, "{who}" + t, who);
    FormatField(t, who);
    FormatAroundField(b, c, who);
    assert a + (who + (b + who + c)) == a + who + (b + who + c);
  }

  /** A raise after the field is a raise of the whole. */
  lemma FormatFailsAfterField(a: string, b: string, who: string)
    requires NoBraces(a) && FormatWho(b, who) == None
    ensures FormatWho(a + "{who}" + b, who) == None
  {
    assert a + "{who}" + b == a + ("{who}" + b);
    FormatPlain(a, "{who}" + b, who);
    FormatField(b, who);
  }

  /** A stray `{` after brace-free text raises. */
  lemma FormatStrayOpen(p: string, c: string, who: string)
    requires NoBraces(p) && c != [] && c[0] != '{' && c[0] != 'w'
    ensures FormatWho(p + "{" + c, who) == None
  {
    assert p + "{" + c == p + ("{" + c);
    FormatPlain(p, "{" + c, who);
    FormatOtherField(c, who);
  }

  /** A stray `}` after brace-free text raises. */
  lemma FormatStrayClose(p: string, c: string, who: string)
    requires NoBraces(p) && (c == [] || c[0] != '}')
    ensures FormatWho(p + "}" + c, who) == None
  {
    assert p + "}" + c == p + ("}" + c);
    FormatPlain(p, "}" + c, who);
    FormatLoneClose(c, who);
  }

  /** Whether the call raises does not depend on the value given for `who`. */
  lemma {:induction false} FormatDefinedAnyWho(s: string, w1: string, w2: string)
    ensures FormatWho(s, w1).Some? <==> FormatWho(s, w2).Some?
    decreases |s|
  {
    if s != [] {
      if s[0] == '{' {
        if |s| >= 2 && s[1] == '{' {
          FormatDefinedAnyWho(s[2..], w1, w2);
        } else if |s| >= 5 && s[1..5] == "who}" {
          FormatDefinedAnyWho(s[5..], w1, w2);
        }
      } else if s[0] == '}' {
        if |s| >= 2 && s[1] == '}' {
          FormatDefinedAnyWho(s[2..], w1, w2);
        }
      } else {
        FormatDefinedAnyWho(s[1..], w1, w2);
      }
    }
  }
}
