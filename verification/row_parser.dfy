/**
 * `RsRowParser` of the standardizer: one table row, joined into a string, is
 * consumed field by field. Each parser finds the first match of its regular
 * expression in the text still unparsed, stores a capture, deletes that match
 * (`updateRow`) and trims what is left. The regular expressions are written
 * out as character-level matchers whose contracts say which match a
 * backtracking engine returns: the leftmost one, with greedy quantifiers.
 */
module RowParser {
  import opened Wrappers
  import opened Strings
  import JsDate

  /** The fields a row parse fills in; every field starts as the empty string. */
  datatype ParsedFields = ParsedFields(
    regYear: string,
    hasI: string,
    aptStat: string,
    filingDate: string,
    legalRent: string,
    tenant: string)

  /** The parser state: the row text still unparsed and the fields found so far. */
  datatype RowParser = RowParser(row: string, fields: ParsedFields)

  const EmptyFields := ParsedFields("", "", "", "", "", "")

  function NewRowParser(row: string): RowParser {
    RowParser(row, EmptyFields)
  }

  /** `updateRow`: removes the match `row[start..end]` (the first one, as a non-global `replace` does) and trims. */
  function RemoveMatch(row: string, start: nat, end: nat): (r: string)
    requires start <= end <= |row|
    ensures |r| <= |row| - (end - start)
    ensures r == [] || (!IsWhite(r[0]) && !IsWhite(r[|r| - 1]))
    ensures exists a: nat :: TrimmedAt(row[..start] + row[end..], r, a)
  {
    Trim(row[..start] + row[end..])
  }

  // ------------------------------------------------------------ parseRegYear: /(\d+)[\s\-(]*(I)?/

  /** `[\s\-(]` */
  predicate IsYearSeparator(c: char) {
    IsWhite(c) || c == '-' || c == '('
  }

  /** A match of the year pattern: digits `[start, digitsEnd)`, separators up to `sepEnd`, then an optional `I`. */
  datatype RegYearMatch = RegYearMatch(start: nat, digitsEnd: nat, sepEnd: nat, hasI: bool) {
    function End(): nat {
      if hasI then sepEnd + 1 else sepEnd
    }
  }

  /** The match the engine returns: leftmost start, and `\d+`, `[\s\-(]*` and `(I)?` each as long as possible. */
  predicate IsRegYearMatch(s: string, m: RegYearMatch) {
    && m.start < m.digitsEnd <= m.sepEnd <= |s|
    && (forall j :: 0 <= j < m.start ==> !IsDigit(s[j]))
    && (forall j :: m.start <= j < m.digitsEnd ==> IsDigit(s[j]))
    && (m.digitsEnd == |s| || !IsDigit(s[m.digitsEnd]))
    && (forall j :: m.digitsEnd <= j < m.sepEnd ==> IsYearSeparator(s[j]))
    && (m.sepEnd == |s| || !IsYearSeparator(s[m.sepEnd]))
    && m.hasI == (m.sepEnd < |s| && s[m.sepEnd] == 'I')
  }

  lemma RegYearMatchUnique(s: string, m1: RegYearMatch, m2: RegYearMatch)
    requires IsRegYearMatch(s, m1) && IsRegYearMatch(s, m2)
    ensures m1 == m2
  {
    assert IsDigit(s[m1.start]) && IsDigit(s[m2.start]);
    assert m1.digitsEnd < |s| ==> !IsDigit(s[m1.digitsEnd]);
    assert m2.digitsEnd < |s| ==> !IsDigit(s[m2.digitsEnd]);
    assert m1.sepEnd < |s| ==> !IsYearSeparator(s[m1.sepEnd]);
    assert m2.sepEnd < |s| ==> !IsYearSeparator(s[m2.sepEnd]);
  }

  function MatchRegYear(s: string): (r: Option<RegYearMatch>)
    ensures r.Some? ==> IsRegYearMatch(s, r.value)
    ensures r.None? <==> forall j :: 0 <= j < |s| ==> !IsDigit(s[j])
  {
    match FirstDigitRun(s)
    case None => None
    case Some(run) =>
      var sepEnd := RunEnd(s, run.1, IsYearSeparator);
      Some(RegYearMatch(run.0, run.1, sepEnd, sepEnd < |s| && s[sepEnd] == 'I'))
  }

  /** `parseRegYear`: the first digit run is the year; `hasI` records whether an `I` follows it. */
  function ParseRegYear(p: RowParser): (r: RowParser)
    ensures r.fields == p.fields.(regYear := r.fields.regYear, hasI := r.fields.hasI)
    ensures p.row == [] ==> r == p
    ensures (forall j :: 0 <= j < |p.row| ==> !IsDigit(p.row[j])) ==> r == p
  {
    var m := MatchRegYear(p.row);
    if p.row == [] || m.None? then p
    else
      RowParser(
        RemoveMatch(p.row, m.value.start, m.value.End()),
        p.fields.(regYear := p.row[m.value.start..m.value.digitsEnd], hasI := if m.value.hasI then "true" else "false"))
  }

  lemma ParseRegYearOfMatch(p: RowParser, m: RegYearMatch)
    requires p.row != [] && MatchRegYear(p.row) == Some(m)
    ensures ParseRegYear(p) == RowParser(
      RemoveMatch(p.row, m.start, m.End()),
      p.fields.(regYear := p.row[m.start..m.digitsEnd], hasI := if m.hasI then "true" else "false"))
  {
  }

  /**
   * When the row holds a year, `parseRegYear` takes the engine's match: the
   * digits become `regYear`, `hasI` says whether the `I` was there, and the
   * whole match is cut out.
   */
  lemma ParseRegYearTakesMatch(p: RowParser, m: RegYearMatch)
    requires IsRegYearMatch(p.row, m)
    ensures ParseRegYear(p) == RowParser(
      RemoveMatch(p.row, m.start, m.End()),
      p.fields.(regYear := p.row[m.start..m.digitsEnd], hasI := if m.hasI then "true" else "false"))
  {
    assert IsDigit(p.row[m.start]);
    var found := MatchRegYear(p.row);
    assert found.Some?;
    RegYearMatchUnique(p.row, found.value, m);
    ParseRegYearOfMatch(p, m);
  }

  // ------------------------------------------------------------ parseAptStat: /(RS|VA)/

  predicate IsAptStatAt(s: string, j: nat) {
    j + 2 <= |s| && ((s[j] == 'R' && s[j + 1] == 'S') || (s[j] == 'V' && s[j + 1] == 'A'))
  }

  /** `j` is where the engine's match of `/(RS|VA)/` starts. */
  predicate IsFirstAptStat(s: string, j: nat) {
    IsAptStatAt(s, j) && forall i :: 0 <= i < j ==> !IsAptStatAt(s, i)
  }

  /** Where the engine's match of `/(RS|VA)/` starts, if anywhere. */
  function FindAptStat(s: string): (r: Option<nat>)
    ensures r.Some? ==> IsFirstAptStat(s, r.value)
    ensures r.None? ==> forall j :: 0 <= j < |s| ==> !IsAptStatAt(s, j)
    ensures forall k: nat :: IsFirstAptStat(s, k) ==> r == Some(k)
  {
    var test := (j: nat) => IsAptStatAt(s, j);
    var f := FindFrom(|s|, 0, test);
    var bound := if f.Some? then f.value else |s|;
    assert forall j :: 0 <= j < bound ==> !IsAptStatAt(s, j) by {
      forall j | 0 <= j < bound ensures !IsAptStatAt(s, j) { assert !test(j); }
    }
    f
  }

  /** `parseAptStat`: the leftmost `RS` or `VA`, inside a word or not. */
  function ParseAptStat(p: RowParser): (r: RowParser)
    ensures r.fields == p.fields.(aptStat := r.fields.aptStat)
    ensures p.row == [] ==> r == p
    ensures (forall j :: 0 <= j < |p.row| ==> !IsAptStatAt(p.row, j)) ==> r == p
    ensures forall j: nat :: IsFirstAptStat(p.row, j) ==>
      r == RowParser(RemoveMatch(p.row, j, j + 2), p.fields.(aptStat := p.row[j..j + 2]))
  {
    if p.row == [] then p
    else
      match FindAptStat(p.row)
      case None => p
      case Some(j) => RowParser(RemoveMatch(p.row, j, j + 2), p.fields.(aptStat := p.row[j..j + 2]))
  }

  // ------------------------------------------------------------ parseFilingDate: /(NC|\d{2}\/\d{2}\/\d{4})/

  predicate IsNcAt(s: string, j: nat) {
    j + 2 <= |s| && s[j] == 'N' && s[j + 1] == 'C'
  }

  /** `\d{2}\/\d{2}\/\d{4}` at `j`: month digits `[j, j+2)`, day `[j+3, j+5)`, year `[j+6, j+10)`. */
  predicate IsDateAt(s: string, j: nat) {
    && j + 10 <= |s|
    && IsDigit(s[j]) && IsDigit(s[j + 1]) && s[j + 2] == '/'
    && IsDigit(s[j + 3]) && IsDigit(s[j + 4]) && s[j + 5] == '/'
    && IsDigit(s[j + 6]) && IsDigit(s[j + 7]) && IsDigit(s[j + 8]) && IsDigit(s[j + 9])
  }

  predicate IsFilingTokenAt(s: string, j: nat) {
    IsNcAt(s, j) || IsDateAt(s, j)
  }

  /** `j` is where the engine's match of the filing-date pattern starts. */
  predicate IsFirstFilingToken(s: string, j: nat) {
    IsFilingTokenAt(s, j) && forall i :: 0 <= i < j ==> !IsFilingTokenAt(s, i)
  }

  /**
   * `new Date(+year, +month - 1, +day).toISOString().slice(0, 10)` for the
   * three digit groups of a date token, in a UTC time zone.
   */
  function NormalizeFilingDate(month: string, day: string, year: string): (r: string)
    requires IsAllDigits(month) && IsAllDigits(day) && IsAllDigits(year)
    ensures |r| == 10
  {
    JsDate.IsoDatePrefix(JsDate.Construct(DigitsValue(year), DigitsValue(month) - 1, DigitsValue(day)))
  }

  lemma DateTokenDigits(s: string, j: nat)
    requires IsDateAt(s, j)
    ensures IsAllDigits(s[j..j + 2]) && IsAllDigits(s[j + 3..j + 5]) && IsAllDigits(s[j + 6..j + 10])
  {
  }

  lemma FirstFilingTokenUnique(s: string, j: nat, k: nat)
    requires IsFirstFilingToken(s, j) && IsFirstFilingToken(s, k)
    ensures j == k
  {
  }

  /** The text `parseFilingDate` stores for the date token at `j`. */
  function DateTokenIso(s: string, j: nat): (r: string)
    requires IsDateAt(s, j)
    ensures |r| == 10
  {
    DateTokenDigits(s, j);
    NormalizeFilingDate(s[j..j + 2], s[j + 3..j + 5], s[j + 6..j + 10])
  }

  /** A date token that names a real calendar date with a year of at least 100. */
  predicate IsCalendarDateAt(s: string, j: nat) {
    && IsDateAt(s, j)
    && DigitsValue(s[j + 6..j + 10]) >= 100
    && JsDate.Valid(JsDate.Date(DigitsValue(s[j + 6..j + 10]), DigitsValue(s[j..j + 2]), DigitsValue(s[j + 3..j + 5])))
  }

  /** For a real calendar date the ISO text is the same digits reordered as year, month, day. */
  lemma NormalizeCalendarDate(month: string, day: string, year: string)
    requires |month| == 2 && |day| == 2 && |year| == 4
    requires IsAllDigits(month) && IsAllDigits(day) && IsAllDigits(year)
    requires DigitsValue(year) >= 100
    requires JsDate.Valid(JsDate.Date(DigitsValue(year), DigitsValue(month), DigitsValue(day)))
    ensures NormalizeFilingDate(month, day, year) == year + "-" + month + "-" + day
  {
    var y, m, d := DigitsValue(year), DigitsValue(month), DigitsValue(day);
    assert Pow10(4) == 10000;
    assert y <= 9999;
    assert JsDate.MakeFullYear(y) == y;
    JsDate.ConstructInRange(y, m - 1, d);
    var c := JsDate.Construct(y, m - 1, d);
    assert c == JsDate.Date(y, m, d);
    assert JsDate.IsoDatePrefix(c) == FixedDigits(y, 4) + "-" + FixedDigits(m, 2) + "-" + FixedDigits(d, 2);
    FixedDigitsOfValue(year);
    FixedDigitsOfValue(month);
    FixedDigitsOfValue(day);
  }

  lemma CalendarDateTokenIso(s: string, j: nat)
    requires IsDateAt(s, j)
    ensures IsCalendarDateAt(s, j) ==> DateTokenIso(s, j) == s[j + 6..j + 10] + "-" + s[j..j + 2] + "-" + s[j + 3..j + 5]
  {
    if IsCalendarDateAt(s, j) {
      DateTokenDigits(s, j);
      NormalizeCalendarDate(s[j..j + 2], s[j + 3..j + 5], s[j + 6..j + 10]);
    }
  }

  /** Where the engine's match of the filing-date pattern starts, if anywhere. */
  function FindFilingToken(s: string): (r: Option<nat>)
    ensures r.Some? ==> IsFirstFilingToken(s, r.value)
    ensures r.None? ==> forall j :: 0 <= j < |s| ==> !IsFilingTokenAt(s, j)
    ensures forall k: nat :: IsFirstFilingToken(s, k) ==> r == Some(k)
  {
    var test := (j: nat) => IsFilingTokenAt(s, j);
    var f := FindFrom(|s|, 0, test);
    var bound := if f.Some? then f.value else |s|;
    assert forall j :: 0 <= j < bound ==> !IsFilingTokenAt(s, j) by {
      forall j | 0 <= j < bound ensures !IsFilingTokenAt(s, j) { assert !test(j); }
    }
    assert forall k: nat :: IsFirstFilingToken(s, k) ==> f == Some(k) by {
      forall k: nat | IsFirstFilingToken(s, k) ensures f == Some(k) {
        if f.Some? {
          FirstFilingTokenUnique(s, f.value, k);
        }
      }
    }
    f
  }

  /**
   * `parseFilingDate`: the leftmost `NC` or `MM/DD/YYYY` token. `NC` is kept as
   * it is; a date is stored as `new Date` renders it in ISO form.
   */
  function ParseFilingDate(p: RowParser): (r: RowParser)
    ensures r.fields == p.fields.(filingDate := r.fields.filingDate)
    ensures p.row == [] ==> r == p
    ensures (forall j :: 0 <= j < |p.row| ==> !IsFilingTokenAt(p.row, j)) ==> r == p
    ensures forall j: nat :: IsFirstFilingToken(p.row, j) && IsNcAt(p.row, j) ==>
      r == RowParser(RemoveMatch(p.row, j, j + 2), p.fields.(filingDate := "NC"))
    ensures forall j: nat :: IsFirstFilingToken(p.row, j) && IsDateAt(p.row, j) ==>
      r == RowParser(
        RemoveMatch(p.row, j, j + 10),
        p.fields.(filingDate := DateTokenIso(p.row, j)))
    ensures forall j: nat :: IsFirstFilingToken(p.row, j) && IsCalendarDateAt(p.row, j) ==>
      r.fields.filingDate == p.row[j + 6..j + 10] + "-" + p.row[j..j + 2] + "-" + p.row[j + 3..j + 5]
  {
    if p.row == [] then p
    else
      match FindFilingToken(p.row)
      case None => p
      case Some(j) =>
        if IsNcAt(p.row, j) then
          RowParser(RemoveMatch(p.row, j, j + 2), p.fields.(filingDate := "NC"))
        else
          CalendarDateTokenIso(p.row, j);
          RowParser(RemoveMatch(p.row, j, j + 10), p.fields.(filingDate := DateTokenIso(p.row, j)))
  }

  // ------------------------------------------------------------ parseLegalRent: /^(\d+.\d{2})\b/

  /**
   * The anchored rent pattern matching with `\d+` taking the first `j`
   * characters: then any one character but a line terminator (the `.` is not
   * escaped), two digits, and a word boundary after them.
   */
  predicate IsLegalRentMatch(s: string, j: nat) {
    && 1 <= j && j + 3 <= |s|
    && (forall i :: 0 <= i < j ==> IsDigit(s[i]))
    && !IsLineTerminator(s[j]) && IsDigit(s[j + 1]) && IsDigit(s[j + 2])
    && (j + 3 == |s| || !IsWordChar(s[j + 3]))
  }

  /** `j` is the `\d+` length of the match the engine returns: the longest that works. */
  predicate IsLongestRentMatch(s: string, j: nat) {
    IsLegalRentMatch(s, j) && forall k :: j < k <= |s| ==> !IsLegalRentMatch(s, k)
  }

  lemma LongestRentMatchUnique(s: string, j: nat, k: nat)
    requires IsLongestRentMatch(s, j) && IsLongestRentMatch(s, k)
    ensures j == k
  {
  }

  /** Tries `\d+` lengths from `j` down to 1, as backtracking does. */
  function LongestRentMatch(s: string, j: nat): (r: Option<nat>)
    requires j <= |s|
    ensures r.Some? ==> r.value <= j && IsLegalRentMatch(s, r.value)
    ensures r.Some? ==> forall k :: r.value < k <= j ==> !IsLegalRentMatch(s, k)
    ensures r.None? ==> forall k :: 0 <= k <= j ==> !IsLegalRentMatch(s, k)
  {
    if j == 0 then None
    else if IsLegalRentMatch(s, j) then Some(j)
    else LongestRentMatch(s, j - 1)
  }

  /** The match the engine returns: the longest digit prefix that lets the rest of the pattern match. */
  function MatchLegalRent(s: string): (r: Option<nat>)
    ensures r.Some? ==> IsLegalRentMatch(s, r.value)
    ensures r.Some? ==> forall k :: r.value < k <= |s| ==> !IsLegalRentMatch(s, k)
    ensures r.None? ==> forall k :: 0 <= k <= |s| ==> !IsLegalRentMatch(s, k)
  {
    var digits := RunEnd(s, 0, IsDigit);
    assert forall k :: digits < k <= |s| ==> !IsLegalRentMatch(s, k) by {
      forall k | digits < k <= |s| ensures !IsLegalRentMatch(s, k) {
        assert !IsDigit(s[digits]);
      }
    }
    LongestRentMatch(s, digits)
  }

  /** `parseLegalRent`: a rent at the very start of the remaining text. */
  function ParseLegalRent(p: RowParser): (r: RowParser)
    ensures r.fields == p.fields.(legalRent := r.fields.legalRent)
    ensures p.row == [] ==> r == p
    ensures (forall j :: 0 <= j <= |p.row| ==> !IsLegalRentMatch(p.row, j)) ==> r == p
    ensures r != p ==> |r.row| + 3 <= |p.row| && |r.fields.legalRent| >= 3
  {
    var m := MatchLegalRent(p.row);
    if p.row == [] || m.None? then p
    else RowParser(RemoveMatch(p.row, 0, m.value + 3), p.fields.(legalRent := p.row[..m.value + 3]))
  }

  /** The engine's match is the longest one. */
  lemma MatchLegalRentIsLongest(s: string, j: nat)
    requires IsLongestRentMatch(s, j)
    ensures MatchLegalRent(s) == Some(j)
  {
    var m := MatchLegalRent(s);
    assert m.Some?;
    LongestRentMatchUnique(s, m.value, j);
  }

  lemma ParseLegalRentOfMatch(p: RowParser, j: nat)
    requires p.row != [] && MatchLegalRent(p.row) == Some(j)
    ensures ParseLegalRent(p) == RowParser(RemoveMatch(p.row, 0, j + 3), p.fields.(legalRent := p.row[..j + 3]))
  {
    assert ParseLegalRent(p).row == RemoveMatch(p.row, 0, j + 3);
    assert ParseLegalRent(p).fields == p.fields.(legalRent := p.row[..j + 3]);
  }

  /** When a rent is there, `parseLegalRent` takes the engine's match: it is stored and cut off the front. */
  lemma ParseLegalRentTakesLongest(p: RowParser, j: nat)
    requires IsLongestRentMatch(p.row, j)
    ensures ParseLegalRent(p) == RowParser(RemoveMatch(p.row, 0, j + 3), p.fields.(legalRent := p.row[..j + 3]))
  {
    MatchLegalRentIsLongest(p.row, j);
    ParseLegalRentOfMatch(p, j);
  }

  // ------------------------------------------------------------ parseTenant: /(TENANT:\s*(\b[^\d\W]+\b\s*)+)/

  const TenantLabel := "TENANT:"

  /** `[^\d\W]`: a word character that is not a digit. */
  predicate IsNameChar(c: char) {
    IsWordChar(c) && !IsDigit(c)
  }

  /**
   * One iteration of `\b[^\d\W]+\b\s*` from `q`, where `q` follows a non-word
   * character: a maximal run of name characters not followed by a digit, then
   * all white space after it.
   */
  function TenantWord(s: string, q: nat): (r: Option<nat>)
    requires q <= |s|
    ensures r.Some? ==> q < r.value <= |s| && IsNameChar(s[q])
    ensures r.Some? ==> forall i :: q <= i < r.value ==> IsWhite(s[i]) || IsNameChar(s[i])
    ensures r.Some? ==> forall i :: q <= i < r.value && IsNameChar(s[i]) ==> i + 1 == |s| || !IsDigit(s[i + 1])
    ensures r.Some? ==> r.value == |s| || !IsWhite(s[r.value])
    ensures r.None? <==> q == |s| || !IsNameChar(s[q]) || DigitAt(s, RunEnd(s, q, IsNameChar))
  {
    if q < |s| && IsNameChar(s[q]) then
      var e := RunEnd(s, q, IsNameChar);
      if e < |s| && IsDigit(s[e]) then None else Some(RunEnd(s, e, IsWhite))
    else None
  }

  /** Position `e` does not split a name: the character before it is no name character, or the one at it is none. */
  predicate EndsWholeName(s: string, e: nat)
    requires 0 < e <= |s|
  {
    IsNameChar(s[e - 1]) ==> e == |s| || !IsNameChar(s[e])
  }

  /** One word ends after white space or at the end of a whole name. */
  lemma TenantWordEnd(s: string, q: nat)
    requires q <= |s| && TenantWord(s, q).Some?
    ensures EndsWholeName(s, TenantWord(s, q).value)
  {
    var n := RunEnd(s, q, IsNameChar);
    var e := RunEnd(s, n, IsWhite);
    assert TenantWord(s, q) == Some(e);
    assert e > n ==> IsWhite(s[e - 1]);
  }

  /** Further iterations, as many as match (the `+` is greedy). */
  function TenantWords(s: string, q: nat): (e: nat)
    requires q <= |s|
    ensures q <= e <= |s|
    ensures forall i :: q <= i < e ==> IsWhite(s[i]) || IsNameChar(s[i])
    ensures forall i :: q <= i < e && IsNameChar(s[i]) ==> i + 1 == |s| || !IsDigit(s[i + 1])
    ensures e == q || e == |s| || !IsWhite(s[e])
    ensures TenantWord(s, e).None?
    decreases |s| - q
  {
    match TenantWord(s, q)
    case None => q
    case Some(e) => TenantWords(s, e)
  }

  /** After a first word, the word loop never stops inside a name. */
  lemma {:induction false} TenantWordsEnd(s: string, q: nat, w: nat)
    requires q <= |s| && TenantWord(s, q) == Some(w)
    ensures EndsWholeName(s, TenantWords(s, w))
    decreases |s| - q
  {
    match TenantWord(s, w)
    case None =>
      assert TenantWords(s, w) == w;
      TenantWordEnd(s, q);
    case Some(x) =>
      assert TenantWords(s, w) == TenantWords(s, x);
      TenantWordsEnd(s, w, x);
  }

  /** The end of the tenant match starting at `p`, if one starts there. */
  function TenantMatchAt(s: string, p: nat): (r: Option<nat>)
  {
    if p + 7 <= |s| && s[p..p + 7] == TenantLabel then
      var q := RunEnd(s, p + 7, IsWhite);
      match TenantWord(s, q)
      case None => None
      case Some(e) => Some(TenantWords(s, e))
    else None
  }

  /**
   * No name can be taken at `e`: what stands there is not a name character, or
   * the run of name characters from `e` runs into a digit.
   */
  predicate NoFurtherName(s: string, e: nat) {
    || e >= |s|
    || !IsNameChar(s[e])
    || exists k :: e < k < |s| && IsDigit(s[k]) && forall i :: e <= i < k ==> IsNameChar(s[i])
  }

  /**
   * A tenant match from `p` to `e`: the label, then only white space and names,
   * at least one name, no name followed by a digit, ending after the white space
   * behind a name or at the end of a whole name, where no further name can be
   * taken.
   */
  predicate IsTenantMatch(s: string, p: nat, e: nat) {
    && p + 7 < e <= |s| && s[p..p + 7] == TenantLabel
    && (forall i :: p + 7 <= i < e ==> IsWhite(s[i]) || IsNameChar(s[i]))
    && (exists i :: p + 7 <= i < e && IsNameChar(s[i]))
    && (forall i :: p + 7 <= i < e && IsNameChar(s[i]) ==> i + 1 == |s| || !IsDigit(s[i + 1]))
    && (e == |s| || !IsWhite(s[e]))
    && EndsWholeName(s, e)
    && NoFurtherName(s, e)
  }

  lemma NoFurtherNameIff(s: string, e: nat)
    requires e <= |s|
    ensures NoFurtherName(s, e) <==> TenantWord(s, e).None?
  {
    if e < |s| && IsNameChar(s[e]) {
      var k := RunEnd(s, e, IsNameChar);
      if TenantWord(s, e).None? {
        assert e < k < |s| && IsDigit(s[k]);
      }
      if k < |s| && IsDigit(s[k]) {
        assert TenantWord(s, e).None?;
      }
    }
  }

  lemma TenantMatchAtSound(s: string, p: nat)
    requires TenantMatchAt(s, p).Some?
    ensures IsTenantMatch(s, p, TenantMatchAt(s, p).value)
  {
    var q := RunEnd(s, p + 7, IsWhite);
    var e1 := TenantWord(s, q).value;
    var e := TenantWords(s, e1);
    assert TenantMatchAt(s, p) == Some(e);
    assert IsNameChar(s[q]) && p + 7 <= q < e1 <= e;
    TenantRegionShape(s, p + 7, q, e1, e);
    TenantWordsEnd(s, q, e1);
    assert e == |s| || !IsWhite(s[e]) by {
      if e == e1 {
        assert e1 == |s| || !IsWhite(s[e1]);
      }
    }
    NoFurtherNameIff(s, e);
    assert s[p..p + 7] == TenantLabel;
    assert exists i :: p + 7 <= i < e && IsNameChar(s[i]);
    assert IsTenantMatch(s, p, e);
  }

  /** White space up to `q`, then one name and its white space up to `e1`, then the further words up to `e`. */
  lemma TenantRegionShape(s: string, b: nat, q: nat, e1: nat, e: nat)
    requires b <= q <= |s| && forall i :: b <= i < q ==> IsWhite(s[i])
    requires TenantWord(s, q) == Some(e1) && e == TenantWords(s, e1)
    ensures forall i :: b <= i < e ==> IsWhite(s[i]) || IsNameChar(s[i])
    ensures forall i :: b <= i < e && IsNameChar(s[i]) ==> i + 1 == |s| || !IsDigit(s[i + 1])
  {
    forall i | b <= i < e
      ensures IsWhite(s[i]) || IsNameChar(s[i])
      ensures IsNameChar(s[i]) ==> i + 1 == |s| || !IsDigit(s[i + 1])
    {
      if i < q {
        assert IsWhite(s[i]);
      }
    }
  }

  /** From the start `q` of a name, the greedy word loop stops exactly at the end `e` of a region of whole names. */
  lemma {:induction false} TenantWordsUpTo(s: string, q: nat, e: nat)
    requires q <= e <= |s|
    requires forall i :: q <= i < e ==> IsWhite(s[i]) || IsNameChar(s[i])
    requires forall i :: q <= i < e && IsNameChar(s[i]) ==> i + 1 == |s| || !IsDigit(s[i + 1])
    requires q < e ==> EndsWholeName(s, e)
    requires e == |s| || !IsWhite(s[e])
    requires NoFurtherName(s, e)
    requires q == e || IsNameChar(s[q])
    ensures TenantWords(s, q) == e
    decreases e - q
  {
    NoFurtherNameIff(s, e);
    if q < e {
      var r := RunEnd(s, q, IsNameChar);
      assert r <= e;
      assert r < e ==> IsWhite(s[r]);
      assert r == e ==> IsNameChar(s[e - 1]);
      assert !DigitAt(s, r);
      var w := RunEnd(s, r, IsWhite);
      assert TenantWord(s, q) == Some(w);
      assert w <= e;
      assert w < e ==> !IsWhite(s[w]) && IsNameChar(s[w]);
      TenantWordsUpTo(s, w, e);
    }
  }

  /** Every match the description admits is the one the matcher finds, so there is at most one per start. */
  lemma TenantMatchAtComplete(s: string, p: nat, e: nat)
    requires IsTenantMatch(s, p, e)
    ensures TenantMatchAt(s, p) == Some(e)
  {
    var q := RunEnd(s, p + 7, IsWhite);
    var n :| p + 7 <= n < e && IsNameChar(s[n]);
    assert q <= n < e;
    assert !IsWhite(s[q]) && IsNameChar(s[q]);
    TenantWordsUpTo(s, q, e);
    NoFurtherNameIff(s, q);
    var e1 := TenantWord(s, q).value;
    assert TenantWords(s, e1) == e;
  }

  /** A tenant match starts at `p` exactly when the description admits one there. */
  lemma TenantMatchAtIff(s: string, p: nat)
    ensures TenantMatchAt(s, p).Some? <==> exists e: nat :: IsTenantMatch(s, p, e)
  {
    if TenantMatchAt(s, p).Some? {
      TenantMatchAtSound(s, p);
    }
    forall e: nat | IsTenantMatch(s, p, e)
      ensures TenantMatchAt(s, p) == Some(e)
    {
      TenantMatchAtComplete(s, p, e);
    }
  }

  /** The first position from `i` on where a tenant match starts. */
  function FindTenantFrom(s: string, i: nat): (r: Option<nat>)
    ensures r.Some? ==> i <= r.value && TenantMatchAt(s, r.value).Some?
    ensures r.Some? ==> forall j :: i <= j < r.value ==> TenantMatchAt(s, j).None?
    ensures r.None? ==> forall j :: i <= j < |s| ==> TenantMatchAt(s, j).None?
    decreases |s| - i
  {
    if i >= |s| then None
    else if TenantMatchAt(s, i).Some? then Some(i)
    else FindTenantFrom(s, i + 1)
  }

  /** `j` is the leftmost position where a tenant match starts. */
  predicate IsFirstTenant(s: string, j: nat) {
    j < |s| && TenantMatchAt(s, j).Some? && forall k :: 0 <= k < j ==> TenantMatchAt(s, k).None?
  }

  /** Where the engine's tenant match starts, if anywhere. */
  function FindTenant(s: string): (r: Option<nat>)
    ensures r.Some? ==> IsFirstTenant(s, r.value)
    ensures r.None? ==> forall j :: 0 <= j < |s| ==> TenantMatchAt(s, j).None?
    ensures forall k: nat :: IsFirstTenant(s, k) ==> r == Some(k)
  {
    var f := FindTenantFrom(s, 0);
    assert forall k: nat :: IsFirstTenant(s, k) ==> f == Some(k) by {
      forall k: nat | IsFirstTenant(s, k) ensures f == Some(k) {
      }
    }
    f
  }

  /** `parseTenant`: the leftmost position where the label starts a match. */
  function ParseTenant(p: RowParser): (r: RowParser)
    ensures r.fields == p.fields.(tenant := r.fields.tenant)
    ensures p.row == [] ==> r == p
    ensures (forall j :: 0 <= j < |p.row| ==> TenantMatchAt(p.row, j).None?) ==> r == p
    ensures forall j: nat :: IsFirstTenant(p.row, j) ==>
      var e := TenantMatchAt(p.row, j).value;
      && IsTenantMatch(p.row, j, e)
      && r == RowParser(RemoveMatch(p.row, j, e), p.fields.(tenant := p.row[j..e]))
  {
    if p.row == [] then p
    else
      match FindTenant(p.row)
      case None => p
      case Some(j) =>
        var e := TenantMatchAt(p.row, j).value;
        TenantMatchAtSound(p.row, j);
        RowParser(RemoveMatch(p.row, j, e), p.fields.(tenant := p.row[j..e]))
  }

  /**
   * Stated without the matcher: when the description admits a match from `j`
   * to `e` and none that starts earlier, `parseTenant` stores exactly that
   * text and cuts it out.
   */
  lemma ParseTenantTakesFirstMatch(p: RowParser, j: nat, e: nat)
    requires IsTenantMatch(p.row, j, e)
    requires forall k: nat, f: nat :: k < j ==> !IsTenantMatch(p.row, k, f)
    ensures ParseTenant(p) == RowParser(RemoveMatch(p.row, j, e), p.fields.(tenant := p.row[j..e]))
  {
    TenantMatchAtComplete(p.row, j, e);
    forall k | 0 <= k < j
      ensures TenantMatchAt(p.row, k).None?
    {
      TenantMatchAtIff(p.row, k);
    }
    assert IsFirstTenant(p.row, j);
  }

  // ------------------------------------------------------------ the per-row pipeline of cleanRows

  /**
   * The parsers `cleanRows` runs on a joined row, in this order: year, status,
   * filing date, legal rent. `parseTenant` is not among them.
   */
  function ParseRow(rowJoined: string): (r: ParsedFields)
    ensures r.tenant == ""
    ensures FirstDigits(rowJoined).None? ==> r.regYear == "" && r.hasI == ""
    ensures FirstDigits(rowJoined).Some? ==>
      r.regYear == FirstDigits(rowJoined).value && (r.hasI == "true" || r.hasI == "false")
  {
    var p0 := NewRowParser(rowJoined);
    var p1 := ParseRegYear(p0);
    assert FirstDigits(rowJoined).Some? ==> p1.fields.regYear == FirstDigits(rowJoined).value by {
      if FirstDigits(rowJoined).Some? {
        var m := MatchRegYear(rowJoined).value;
        ParseRegYearTakesMatch(p0, m);
        assert p1.fields.regYear == rowJoined[m.start..m.digitsEnd];
      }
    }
    ParseLegalRent(ParseFilingDate(ParseAptStat(p1))).fields
  }
}
