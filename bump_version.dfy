/** `tools/bump_version.py`: find the first `version = "M.m.p"` line of a
    pyproject text, bump one part, rewrite that line and report the new
    version. The file is replaced by the text passed in and the text that
    would be written back. */
module BumpVersion {
  import opened Wrappers

  // ---------------------------------------------------------------------------
  // Characters and scanning
  // ---------------------------------------------------------------------------

  /** The line boundaries of Python's `str.splitlines`. */
  predicate IsLineBreak(c: char) {
    c == '\n' || c == '\r' || c == '\U{0B}' || c == '\U{0C}' || c == '\U{1C}' || c == '\U{1D}'
    || c == '\U{1E}' || c == '\U{85}' || c == '\U{2028}' || c == '\U{2029}'
  }

  predicate NotLineBreak(c: char) {
    !IsLineBreak(c)
  }

  /** `\s` of a `str` pattern: the characters for which `str.isspace()` holds. */
  predicate IsSpace(c: char) {
    ('\U{09}' <= c <= '\U{0D}') || ('\U{1C}' <= c <= '\U{20}') || c == '\U{85}' || c == '\U{A0}'
    || c == '\U{1680}' || ('\U{2000}' <= c <= '\U{200A}') || c == '\U{2028}' || c == '\U{2029}'
    || c == '\U{202F}' || c == '\U{205F}' || c == '\U{3000}'
  }

  /** `[0-9]`. */
  predicate IsDigit(c: char) {
    '0' <= c <= '9'
  }

  predicate AllDigits(s: string) {
    forall k :: 0 <= k < |s| ==> IsDigit(s[k])
  }

  /** The end of the longest run of characters satisfying `p` from `i`. */
  function Span(s: string, i: nat, p: char -> bool): (j: nat)
    requires i <= |s|
    ensures i <= j <= |s|
    decreases |s| - i
  {
    if i == |s| || !p(s[i]) then i else Span(s, i + 1, p)
  }

  /** Every character of the run satisfies `p`, and the one after it does not. */
  lemma {:induction false} SpanStops(s: string, i: nat, p: char -> bool)
    requires i <= |s|
    ensures forall k :: i <= k < Span(s, i, p) ==> p(s[k])
    ensures Span(s, i, p) < |s| ==> !p(s[Span(s, i, p)])
    decreases |s| - i
  {
    if i < |s| && p(s[i]) {
      SpanStops(s, i + 1, p);
    }
  }

  /** A run is determined by where it stops. */
  lemma {:induction false} SpanIs(s: string, i: nat, p: char -> bool, j: nat)
    requires i <= j <= |s|
    requires forall k :: i <= k < j ==> p(s[k])
    requires j < |s| ==> !p(s[j])
    ensures Span(s, i, p) == j
    decreases j - i
  {
    if i < j {
      SpanIs(s, i + 1, p, j);
    }
  }

  // ---------------------------------------------------------------------------
  // str.splitlines and "\n".join
  // ---------------------------------------------------------------------------

  predicate NoLineBreak(l: string) {
    forall k :: 0 <= k < |l| ==> !IsLineBreak(l[k])
  }

  /** `text.splitlines()`: "\r\n" is one boundary, and a boundary at the very
      end does not start an empty last line. */
  function SplitLines(text: string): (lines: seq<string>)
    ensures forall i :: 0 <= i < |lines| ==> NoLineBreak(lines[i])
    decreases |text|
  {
    if text == [] then []
    else
      var j := Span(text, 0, NotLineBreak);
      SpanStops(text, 0, NotLineBreak);
      if j == |text| then [text]
      else
        assert forall k :: 0 <= k < j ==> text[..j][k] == text[k];
        var next := if text[j] == '\r' && j + 1 < |text| && text[j + 1] == '\n' then j + 2 else j + 1;
        [text[..j]] + SplitLines(text[next..])
  }

  /** `"\n".join(lines)`. */
  function Join(lines: seq<string>): (r: string) {
    if lines == [] then ""
    else if |lines| == 1 then lines[0]
    else lines[0] + "\n" + Join(lines[1..])
  }

  /** Joining lines that hold no boundary and splitting again gives them back,
      unless the last line is empty (`"a\n"` splits to one line). */
  lemma {:induction false} SplitJoin(lines: seq<string>)
    requires forall i :: 0 <= i < |lines| ==> NoLineBreak(lines[i])
    requires lines != [] ==> lines[|lines| - 1] != ""
    ensures SplitLines(Join(lines)) == lines
  {
    if lines != [] {
      var l := lines[0];
      var text := Join(lines);
      if |lines| == 1 {
        SpanIs(text, 0, NotLineBreak, |l|);
      } else {
        var rest := Join(lines[1..]);
        assert text == l + "\n" + rest;
        assert text[|l|] == '\n';
        SpanIs(text, 0, NotLineBreak, |l|);
        assert text[..|l|] == l;
        assert text[|l| + 1..] == rest;
        SplitJoin(lines[1..]);
      }
    }
  }

  // ---------------------------------------------------------------------------
  // The pattern ^(version\s*=\s*")([0-9]+)\.([0-9]+)\.([0-9]+)(".*)$
  // ---------------------------------------------------------------------------

  /** The five groups of a match. */
  datatype VersionMatch = VersionMatch(prefix: string, major: string, minor: string, patch: string, suffix: string)

  /** Groups 1 to 5 written back to back. */
  function Assemble(m: VersionMatch): (r: string) {
    m.prefix + (m.major + ("." + (m.minor + ("." + (m.patch + m.suffix)))))
  }

  lemma SplitAt<T>(s: seq<T>, i: nat, j: nat, k: nat)
    requires i <= j <= k <= |s|
    ensures s[i..k] == s[i..j] + s[j..k]
  {
  }

  lemma SplitDot(s: string, i: nat, k: nat)
    requires i < k <= |s| && s[i] == '.'
    ensures s[i..k] == "." + s[i + 1..k]
  {
  }

  lemma SplitConcat<T>(x: seq<T>, y: seq<T>)
    ensures (x + y)[..|x|] == x && (x + y)[|x|..] == y
  {
  }

  /** Five slices of a line between two dots spell its prefix up to `e`. */
  lemma SlicesAssemble(ln: string, p: nat, a: nat, b: nat, c: nat, e: nat)
    requires p <= a < b < c <= e <= |ln| && ln[a] == '.' && ln[b] == '.'
    ensures ln[..e] == Assemble(VersionMatch(ln[..p], ln[p..a], ln[a + 1..b], ln[b + 1..c], ln[c..e]))
  {
    calc {
      ln[..e];
      { assert ln[..e] == ln[..p] + ln[p..e]; }
      ln[..p] + ln[p..e];
      { SplitAt(ln, p, a, e); }
      ln[..p] + (ln[p..a] + ln[a..e]);
      { SplitDot(ln, a, e); }
      ln[..p] + (ln[p..a] + ("." + ln[a + 1..e]));
      { SplitAt(ln, a + 1, b, e); }
      ln[..p] + (ln[p..a] + ("." + (ln[a + 1..b] + ln[b..e])));
      { SplitDot(ln, b, e); }
      ln[..p] + (ln[p..a] + ("." + (ln[a + 1..b] + ("." + ln[b + 1..e]))));
      { SplitAt(ln, b + 1, c, e); }
      ln[..p] + (ln[p..a] + ("." + (ln[a + 1..b] + ("." + (ln[b + 1..c] + ln[c..e])))));
    }
  }

  /** The groups sit back to back in what `Assemble` writes. */
  lemma AssembleSlices(m: VersionMatch)
    ensures var ln := Assemble(m);
      var p := |m.prefix|;
      var a := p + |m.major|;
      var b := a + 1 + |m.minor|;
      var c := b + 1 + |m.patch|;
      && c <= |ln| && ln[..p] == m.prefix && ln[p..a] == m.major && ln[a] == '.' && ln[a + 1..b] == m.minor
      && ln[b] == '.' && ln[b + 1..c] == m.patch && ln[c..] == m.suffix
  {
    var t3 := m.patch + m.suffix;
    var t2 := m.minor + ("." + t3);
    var t1 := m.major + ("." + t2);
    SplitConcat(m.prefix, t1);
    SplitConcat(m.major, "." + t2);
    SplitConcat(m.minor, "." + t3);
    SplitConcat(m.patch, m.suffix);
    assert ("." + t2)[1..] == t2;
    assert ("." + t3)[1..] == t3;
  }

  /** Where group 1, `version\s*=\s*"`, ends when the line starts with it. */
  function PrefixEnd(ln: string): (r: Option<nat>)
    ensures r.Some? ==> 8 < r.value <= |ln| && ln[r.value - 1] == '"'
  {
    if |ln| < 7 || ln[..7] != "version" then None
    else
      var j := Span(ln, 7, IsSpace);
      if j == |ln| || ln[j] != '=' then None
      else
        var k := Span(ln, j + 1, IsSpace);
        if k == |ln| || ln[k] != '"' then None
        else Some(k + 1)
  }

  /** Group 1 looks no further than its own closing quote. */
  lemma PrefixEndStable(s: string, t: string, n: nat)
    requires PrefixEnd(s) == Some(n) && n <= |t| && s[..n] == t[..n]
    ensures PrefixEnd(t) == Some(n)
  {
    assert forall k :: 0 <= k < n ==> s[k] == t[k] by {
      forall k | 0 <= k < n ensures s[k] == t[k] {
        assert s[..n][k] == s[k] && t[..n][k] == t[k];
      }
    }
    assert t[..7] == s[..7];
    var j := Span(s, 7, IsSpace);
    var k := Span(s, j + 1, IsSpace);
    SpanStops(s, 7, IsSpace);
    SpanStops(s, j + 1, IsSpace);
    SpanIs(t, 7, IsSpace, j);
    SpanIs(t, j + 1, IsSpace, k);
  }

  predicate AllSpace(s: string) {
    forall k :: 0 <= k < |s| ==> IsSpace(s[k])
  }

  /** Group 1 spelled out: `version`, blanks, `=`, blanks, a quote. */
  ghost predicate IsPrefixGroup(p: string) {
    exists s1: string, s2: string :: AllSpace(s1) && AllSpace(s2) && p == "version" + s1 + "=" + s2 + "\""
  }

  /** The scan `PrefixEnd` consumes a whole string exactly when that string
      has the shape of group 1. */
  lemma PrefixGroupIff(p: string)
    ensures PrefixEnd(p) == Some(|p|) <==> IsPrefixGroup(p)
  {
    if PrefixEnd(p) == Some(|p|) {
      var j := Span(p, 7, IsSpace);
      var k := Span(p, j + 1, IsSpace);
      SpanStops(p, 7, IsSpace);
      SpanStops(p, j + 1, IsSpace);
      PrefixSpelled(p, j, k);
    }
    if IsPrefixGroup(p) {
      var s1: string, s2: string :| AllSpace(s1) && AllSpace(s2) && p == "version" + s1 + "=" + s2 + "\"";
      PrefixScanned(p, s1, s2);
    }
  }

  /** A string cut at its `=` and its closing quote is group 1. */
  lemma PrefixSpelled(p: string, j: nat, k: nat)
    requires 7 <= j < k < |p| && k + 1 == |p| && p[..7] == "version" && p[j] == '=' && p[k] == '"'
    requires forall i :: 7 <= i < j ==> IsSpace(p[i])
    requires forall i :: j + 1 <= i < k ==> IsSpace(p[i])
    ensures IsPrefixGroup(p)
  {
    var s1 := p[7..j];
    var s2 := p[j + 1..k];
    assert AllSpace(s1) by {
      forall i | 0 <= i < |s1| ensures IsSpace(s1[i]) {
        assert s1[i] == p[7 + i];
      }
    }
    assert AllSpace(s2) by {
      forall i | 0 <= i < |s2| ensures IsSpace(s2[i]) {
        assert s2[i] == p[j + 1 + i];
      }
    }
    calc {
      p;
      p[..7] + p[7..j] + [p[j]] + p[j + 1..k] + [p[k]];
      "version" + s1 + "=" + s2 + "\"";
    }
  }

  /** Group 1, scanned by `PrefixEnd`, is consumed to its closing quote. */
  lemma PrefixScanned(p: string, s1: string, s2: string)
    requires AllSpace(s1) && AllSpace(s2) && p == "version" + s1 + "=" + s2 + "\""
    ensures PrefixEnd(p) == Some(|p|)
  {
    var j := 7 + |s1|;
    var k := j + 1 + |s2|;
    assert p[..7] == "version";
    assert p[j] == '=' && p[k] == '"' && k + 1 == |p|;
    assert forall i :: 7 <= i < j ==> p[i] == s1[i - 7];
    assert forall i :: j + 1 <= i < k ==> p[i] == s2[i - j - 1];
    SpanIs(p, 7, IsSpace, j);
    SpanIs(p, j + 1, IsSpace, k);
  }

  /** Group 5: a quote, then anything but a newline. */
  predicate IsSuffixGroup(s: string) {
    |s| > 0 && s[0] == '"' && '\n' !in s
  }

  /** Groups 2 to 4: one or more ASCII digits. */
  predicate IsNumberGroup(d: string) {
    |d| > 0 && AllDigits(d)
  }

  ghost predicate WellFormed(m: VersionMatch) {
    IsPrefixGroup(m.prefix) && IsNumberGroup(m.major) && IsNumberGroup(m.minor)
    && IsNumberGroup(m.patch) && IsSuffixGroup(m.suffix)
  }

  /** `([0-9]+)` from `i`, followed by `sep`: where the digits stop. */
  function DigitsThen(ln: string, i: nat, sep: char): (r: Option<nat>)
    requires i <= |ln|
    ensures r.Some? ==> i < r.value < |ln| && ln[r.value] == sep
  {
    var a := Span(ln, i, IsDigit);
    if a == i || a == |ln| || ln[a] != sep then None else Some(a)
  }

  /** What `DigitsThen` skips over is a number group. */
  lemma DigitsThenGroup(ln: string, i: nat, sep: char)
    requires i <= |ln| && DigitsThen(ln, i, sep).Some?
    ensures IsNumberGroup(ln[i..DigitsThen(ln, i, sep).value])
  {
    var a := DigitsThen(ln, i, sep).value;
    SpanStops(ln, i, IsDigit);
    assert forall k :: 0 <= k < a - i ==> ln[i..a][k] == ln[i + k];
  }

  /** `(".*)$` from the quote at `c`: where group 5 ends. `.` stops at a
      newline and `$` also matches just before a newline that ends the line. */
  function SuffixEnd(ln: string, c: nat): (r: Option<nat>)
    requires c < |ln| && ln[c] == '"'
    ensures r.Some? ==> c < r.value <= |ln|
    ensures r.Some? ==> r.value == |ln| || (r.value == |ln| - 1 && ln[r.value] == '\n')
  {
    var rest := ln[c + 1..];
    if '\n' !in rest then Some(|ln|)
    else if rest[|rest| - 1] == '\n' && '\n' !in rest[..|rest| - 1] then Some(|ln| - 1)
    else None
  }

  /** Conversely, digits up to `sep` are read as one number group. */
  lemma DigitsThenOf(ln: string, i: nat, j: nat, sep: char)
    requires i < j < |ln| && ln[j] == sep && !IsDigit(sep) && IsNumberGroup(ln[i..j])
    ensures DigitsThen(ln, i, sep) == Some(j)
  {
    assert forall k :: i <= k < j ==> ln[k] == ln[i..j][k - i];
    SpanIs(ln, i, IsDigit, j);
  }

  /** What `SuffixEnd` takes is a suffix group. */
  lemma SuffixEndGroup(ln: string, c: nat)
    requires c < |ln| && ln[c] == '"' && SuffixEnd(ln, c).Some?
    ensures IsSuffixGroup(ln[c..SuffixEnd(ln, c).value])
  {
    var rest := ln[c + 1..];
    if '\n' !in rest {
      assert ln[c..] == [ln[c]] + rest;
    } else {
      assert ln[c..|ln| - 1] == [ln[c]] + rest[..|rest| - 1];
    }
  }

  /** `RE.match(ln)`: the five groups, if the line matches. */
  function MatchVersion(ln: string): (r: Option<VersionMatch>) {
    match PrefixEnd(ln)
    case None => None
    case Some(p) =>
      match DigitsThen(ln, p, '.')
      case None => None
      case Some(a) =>
        match DigitsThen(ln, a + 1, '.')
        case None => None
        case Some(b) =>
          match DigitsThen(ln, b + 1, '"')
          case None => None
          case Some(c) =>
            match SuffixEnd(ln, c)
            case None => None
            case Some(e) => Some(VersionMatch(ln[..p], ln[p..a], ln[a + 1..b], ln[b + 1..c], ln[c..e]))
  }

  /** Where the groups of a match start and stop. */
  lemma MatchPositions(ln: string) returns (p: nat, a: nat, b: nat, c: nat, e: nat)
    requires MatchVersion(ln).Some?
    ensures PrefixEnd(ln) == Some(p) && DigitsThen(ln, p, '.') == Some(a)
    ensures DigitsThen(ln, a + 1, '.') == Some(b) && DigitsThen(ln, b + 1, '"') == Some(c)
    ensures c < |ln| && ln[c] == '"' && SuffixEnd(ln, c) == Some(e)
    ensures MatchVersion(ln) == Some(VersionMatch(ln[..p], ln[p..a], ln[a + 1..b], ln[b + 1..c], ln[c..e]))
  {
    p := PrefixEnd(ln).value;
    a := DigitsThen(ln, p, '.').value;
    b := DigitsThen(ln, a + 1, '.').value;
    c := DigitsThen(ln, b + 1, '"').value;
    e := SuffixEnd(ln, c).value;
  }

  /** What a match returns are well-formed groups. */
  lemma MatchGroupsWellFormed(ln: string)
    requires MatchVersion(ln).Some?
    ensures WellFormed(MatchVersion(ln).value)
  {
    var p, a, b, c, e := MatchPositions(ln);
    PrefixEndStable(ln, ln[..p], p);
    PrefixGroupIff(ln[..p]);
    DigitsThenGroup(ln, p, '.');
    DigitsThenGroup(ln, a + 1, '.');
    DigitsThenGroup(ln, b + 1, '"');
    SuffixEndGroup(ln, c);
  }

  /** The groups of a match spell the line, save for a final newline that
      `$` lets through. */
  lemma MatchSpellsLine(ln: string)
    requires MatchVersion(ln).Some?
    ensures ln == Assemble(MatchVersion(ln).value) || ln == Assemble(MatchVersion(ln).value) + "\n"
  {
    var p, a, b, c, e := MatchPositions(ln);
    SlicesAssemble(ln, p, a, b, c, e);
    if e < |ln| {
      assert ln == ln[..e] + [ln[e]];
    } else {
      assert ln == ln[..e];
    }
  }

  /** Every well-formed set of groups, written out, matches with exactly
      those groups: the pattern reads back what it describes. */
  lemma MatchAssembled(m: VersionMatch)
    requires WellFormed(m)
    ensures MatchVersion(Assemble(m)) == Some(m)
  {
    var p := |m.prefix|;
    var a := p + |m.major|;
    var b := a + 1 + |m.minor|;
    var c := b + 1 + |m.patch|;
    AssembleSlices(m);
    MatchSlices(Assemble(m), m, p, a, b, c);
  }

  /** A line cut into well-formed groups at the right places matches with
      those groups. */
  lemma MatchSlices(ln: string, m: VersionMatch, p: nat, a: nat, b: nat, c: nat)
    requires WellFormed(m) && p == |m.prefix| && a == p + |m.major| && b == a + 1 + |m.minor| && c == b + 1 + |m.patch|
    requires c <= |ln| && ln[..p] == m.prefix && ln[p..a] == m.major && ln[a] == '.' && ln[a + 1..b] == m.minor
    requires ln[b] == '.' && ln[b + 1..c] == m.patch && ln[c..] == m.suffix
    ensures MatchVersion(ln) == Some(m)
  {
    assert PrefixEnd(ln) == Some(p) by {
      PrefixGroupIff(m.prefix);
      PrefixEndStable(m.prefix, ln, p);
    }
    assert DigitsThen(ln, p, '.') == Some(a) by {
      DigitsThenOf(ln, p, a, '.');
    }
    assert DigitsThen(ln, a + 1, '.') == Some(b) by {
      DigitsThenOf(ln, a + 1, b, '.');
    }
    assert DigitsThen(ln, b + 1, '"') == Some(c) by {
      DigitsThenOf(ln, b + 1, c, '"');
    }
    assert SuffixEnd(ln, c) == Some(|ln|) by {
      assert ln[c + 1..] == m.suffix[1..];
    }
    MatchAt(ln, p, a, b, c, |ln|);
    assert ln[c..|ln|] == m.suffix;
  }

  /** `MatchVersion` put together from where each group stops. */
  lemma MatchAt(ln: string, p: nat, a: nat, b: nat, c: nat, e: nat)
    requires PrefixEnd(ln) == Some(p) && DigitsThen(ln, p, '.') == Some(a)
    requires DigitsThen(ln, a + 1, '.') == Some(b) && DigitsThen(ln, b + 1, '"') == Some(c)
    requires SuffixEnd(ln, c) == Some(e)
    ensures MatchVersion(ln) == Some(VersionMatch(ln[..p], ln[p..a], ln[a + 1..b], ln[b + 1..c], ln[c..e]))
  {
  }

  // ---------------------------------------------------------------------------
  // int() and decimal rendering
  // ---------------------------------------------------------------------------

  function DigitValue(c: char): (r: nat)
    requires IsDigit(c)
  {
    c as int - '0' as int
  }

  function DigitChar(d: nat): (c: char)
    requires d < 10
    ensures IsDigit(c) && DigitValue(c) == d
  {
    ('0' as int + d) as char
  }

  /** `int(d)` for a string of ASCII digits. */
  function DigitsValue(d: string): (r: nat)
    requires AllDigits(d)
  {
    if d == [] then 0 else DigitsValue(d[..|d| - 1]) * 10 + DigitValue(d[|d| - 1])
  }

  /** Decimal digits without leading zeros. */
  predicate Canonical(d: string) {
    IsNumberGroup(d) && (d[0] == '0' ==> |d| == 1)
  }

  /** The text `f"{n}"` writes, whose `int()` is `n` again. */
  function NatToString(n: nat): (s: string)
    ensures Canonical(s)
    ensures DigitsValue(s) == n
  {
    if n < 10 then [DigitChar(n)]
    else
      var init := NatToString(n / 10);
      var s := init + [DigitChar(n % 10)];
      assert s[..|s| - 1] == init;
      s
  }

  lemma {:induction false} LeadingNonZeroPositive(d: string)
    requires IsNumberGroup(d) && d[0] != '0'
    ensures DigitsValue(d) > 0
  {
    if |d| > 1 {
      LeadingNonZeroPositive(d[..|d| - 1]);
    }
  }

  lemma DigitRoundTrip(c: char)
    requires IsDigit(c)
    ensures DigitChar(DigitValue(c)) == c
  {
  }

  lemma LastDigit(q: nat, r: nat)
    requires r < 10
    ensures (q * 10 + r) / 10 == q && (q * 10 + r) % 10 == r
  {
  }

  /** A canonical digit string is what rendering its value writes; so
      re-rendering leaves it alone and only strips leading zeros. */
  lemma {:induction false} CanonicalRoundTrip(d: string)
    requires Canonical(d)
    ensures NatToString(DigitsValue(d)) == d
  {
    var init, last := d[..|d| - 1], d[|d| - 1];
    DigitRoundTrip(last);
    if |d| == 1 {
      assert init == [];
      assert d == [last];
    } else {
      assert init[0] == d[0];
      LeadingNonZeroPositive(init);
      CanonicalRoundTrip(init);
      var q, r := DigitsValue(init), DigitValue(last);
      LastDigit(q, r);
      assert NatToString(q * 10 + r) == NatToString(q) + [DigitChar(r)];
      assert d == init + [last];
    }
  }

  // ---------------------------------------------------------------------------
  // Versions and the bump
  // ---------------------------------------------------------------------------

  datatype Version = Version(major: nat, minor: nat, patch: nat)

  function ValueOf(m: VersionMatch): (r: Version)
    requires WellFormed(m)
  {
    Version(DigitsValue(m.major), DigitsValue(m.minor), DigitsValue(m.patch))
  }

  /** The arithmetic of the three branches; any other part changes nothing. */
  function Bump(v: Version, part: string): (r: Version) {
    if part == "patch" then Version(v.major, v.minor, v.patch + 1)
    else if part == "minor" then Version(v.major, v.minor + 1, 0)
    else if part == "major" then Version(v.major + 1, 0, 0)
    else v
  }

  /** `f"{major}.{minor}.{patch}"`. */
  function Render(v: Version): (r: string) {
    NatToString(v.major) + "." + NatToString(v.minor) + "." + NatToString(v.patch)
  }

  /** Semantic-version precedence. */
  predicate VersionLess(a: Version, b: Version) {
    a.major < b.major
    || (a.major == b.major && a.minor < b.minor)
    || (a.major == b.major && a.minor == b.minor && a.patch < b.patch)
  }

  /** A patch bump gives the next version: the only versions below it are
      the old one and those below that. */
  lemma PatchBumpIsSuccessor(v: Version, w: Version)
    ensures VersionLess(w, Bump(v, "patch")) <==> w == v || VersionLess(w, v)
  {
  }

  /** A minor bump gives the least version above every `M.m.*`. */
  lemma MinorBumpIsNextMinor(v: Version, w: Version)
    ensures VersionLess(w, Bump(v, "minor")) <==>
      w.major < v.major || (w.major == v.major && w.minor <= v.minor)
  {
  }

  /** A major bump gives the least version above every `M.*.*`. */
  lemma MajorBumpIsNextMajor(v: Version, w: Version)
    ensures VersionLess(w, Bump(v, "major")) <==> w.major <= v.major
  {
  }

  /** Any other part leaves the numbers unchanged. */
  lemma OtherPartKeepsVersion(v: Version, part: string)
    requires part != "patch" && part != "minor" && part != "major"
    ensures Bump(v, part) == v
  {
  }

  /** The groups written in place of a matching line's: groups 1 and 5
      kept, the numbers of the bumped version rendered between them. */
  function Rewritten(m: VersionMatch, part: string): (m': VersionMatch)
    requires WellFormed(m)
    ensures WellFormed(m') && m'.prefix == m.prefix && m'.suffix == m.suffix
    ensures ValueOf(m') == Bump(ValueOf(m), part)
    ensures Canonical(m'.major) && Canonical(m'.minor) && Canonical(m'.patch)
  {
    var v := Bump(ValueOf(m), part);
    VersionMatch(m.prefix, NatToString(v.major), NatToString(v.minor), NatToString(v.patch), m.suffix)
  }

  /** The line `f'{m.group(1)}{major}.{minor}.{patch}{m.group(5)}'`. */
  function RewriteLine(m: VersionMatch, part: string): (r: string)
    requires WellFormed(m)
  {
    Assemble(Rewritten(m, part))
  }

  /** The rewritten line matches again, with the old prefix and suffix and
      exactly the bumped version, which is also the returned text. */
  lemma RewrittenLineReparses(m: VersionMatch, part: string)
    requires WellFormed(m)
    ensures MatchVersion(RewriteLine(m, part)).Some?
    ensures var m' := MatchVersion(RewriteLine(m, part)).value;
      && m'.prefix == m.prefix && m'.suffix == m.suffix
      && WellFormed(m') && ValueOf(m') == Bump(ValueOf(m), part)
      && m'.major + "." + m'.minor + "." + m'.patch == Render(Bump(ValueOf(m), part))
  {
    MatchAssembled(Rewritten(m, part));
  }

  /** With an unknown part, a line whose numbers have no leading zeros is
      written back unchanged (lines out of `splitlines` hold no newline). */
  lemma UnknownPartKeepsCanonicalLine(ln: string, part: string)
    requires part != "patch" && part != "minor" && part != "major"
    requires MatchVersion(ln).Some? && '\n' !in ln
    requires var m := MatchVersion(ln).value; Canonical(m.major) && Canonical(m.minor) && Canonical(m.patch)
    ensures WellFormed(MatchVersion(ln).value)
    ensures RewriteLine(MatchVersion(ln).value, part) == ln
  {
    MatchGroupsWellFormed(ln);
    MatchSpellsLine(ln);
    var m := MatchVersion(ln).value;
    CanonicalRoundTrip(m.major);
    CanonicalRoundTrip(m.minor);
    CanonicalRoundTrip(m.patch);
    assert Rewritten(m, part) == m;
    assert (Assemble(m) + "\n")[|Assemble(m)|] == '\n';
  }

  // ---------------------------------------------------------------------------
  // bump_version
  // ---------------------------------------------------------------------------

  /** The index of the first matching line at or after `from`. */
  function FirstMatch(lines: seq<string>, from: nat): (r: Option<nat>)
    requires from <= |lines|
    ensures r.Some? ==> from <= r.value < |lines| && MatchVersion(lines[r.value]).Some?
    ensures r.Some? ==> forall j :: from <= j < r.value ==> MatchVersion(lines[j]).None?
    ensures r.None? ==> forall j :: from <= j < |lines| ==> MatchVersion(lines[j]).None?
    decreases |lines| - from
  {
    if from == |lines| then None
    else if MatchVersion(lines[from]).Some? then Some(from)
    else FirstMatch(lines, from + 1)
  }

  /** The first matching line is the one no earlier line beats. */
  lemma {:induction false} FirstMatchIs(lines: seq<string>, from: nat, i: nat)
    requires from <= i < |lines| && MatchVersion(lines[i]).Some?
    requires forall j :: from <= j < i ==> MatchVersion(lines[j]).None?
    ensures FirstMatch(lines, from) == Some(i)
    decreases i - from
  {
    if from < i {
      FirstMatchIs(lines, from + 1, i);
    }
  }

  /** What a successful run writes and returns. */
  datatype Bumped = Bumped(written: string, version: string)

  /** The `RuntimeError("version not found in pyproject.toml")`. */
  datatype BumpError = VersionNotFound

  /** What `bump_version(part)` does to the text `text`. */
  function BumpText(text: string, part: string): (r: Result<Bumped, BumpError>) {
    var lines := SplitLines(text);
    match FirstMatch(lines, 0)
    case None => Failure(VersionNotFound)
    case Some(i) =>
      MatchGroupsWellFormed(lines[i]);
      var m := MatchVersion(lines[i]).value;
      Success(Bumped(Join(lines[i := RewriteLine(m, part)]), Render(Bump(ValueOf(m), part))))
  }

  /** `bump_version(part)` on the text of the file: scan the lines, and at the
      first match bump the counters, rewrite that line and stop. */
  method BumpVersionText(text: string, part: string) returns (r: Result<Bumped, BumpError>)
    ensures r == BumpText(text, part)
  {
    var lines := SplitLines(text);
    var i := 0;
    while i < |lines|
      invariant 0 <= i <= |lines|
      invariant FirstMatch(lines, 0) == FirstMatch(lines, i)
    {
      var m := MatchVersion(lines[i]);
      if m.Some? {
        MatchGroupsWellFormed(lines[i]);
        var groups := m.value;
        var major, minor, patch := DigitsValue(groups.major), DigitsValue(groups.minor), DigitsValue(groups.patch);
        if part == "patch" {
          patch := patch + 1;
        } else if part == "minor" {
          minor := minor + 1;
          patch := 0;
        } else if part == "major" {
          major := major + 1;
          minor := 0;
          patch := 0;
        }
        var line := Assemble(VersionMatch(groups.prefix, NatToString(major), NatToString(minor), NatToString(patch), groups.suffix));
        assert Version(major, minor, patch) == Bump(ValueOf(groups), part);
        lines := lines[i := line];
        return Success(Bumped(Join(lines), NatToString(major) + "." + NatToString(minor) + "." + NatToString(patch)));
      }
      i := i + 1;
    }
    return Failure(VersionNotFound);
  }

  /** It fails exactly when no line matches. */
  lemma BumpFailsIffNoVersionLine(text: string, part: string)
    ensures BumpText(text, part).Failure? <==>
      forall j :: 0 <= j < |SplitLines(text)| ==> MatchVersion(SplitLines(text)[j]).None?
  {
    assert BumpText(text, part).Failure? <==> FirstMatch(SplitLines(text), 0).None?;
  }

  /** On success it is the FIRST matching line `i` that is rewritten, and
      only that one: every other line is written back as it was, and the
      returned text is the bumped version. */
  lemma BumpRewritesFirstMatchOnly(text: string, part: string, i: nat)
    requires i < |SplitLines(text)| && MatchVersion(SplitLines(text)[i]).Some?
    requires forall j :: 0 <= j < i ==> MatchVersion(SplitLines(text)[j]).None?
    ensures WellFormed(MatchVersion(SplitLines(text)[i]).value)
    ensures var lines := SplitLines(text);
      var m := MatchVersion(lines[i]).value;
      BumpText(text, part) == Success(Bumped(Join(lines[i := RewriteLine(m, part)]), Render(Bump(ValueOf(m), part))))
  {
    var lines := SplitLines(text);
    MatchGroupsWellFormed(lines[i]);
    FirstMatchIs(lines, 0, i);
  }
}
