/**
 * The record pipeline of the web application (`web-app/src/utils/crimeData.js`):
 * severity classification and colours, parsing of the "MM/DD/YYYY HH:mm"
 * time field, clean-up of the display type, the location normaliser used as
 * the geocoding cache key, the search filter, the most-recent-first sort, and
 * relative time windows with their interval filter.
 *
 * Instants are integer milliseconds of local wall-clock time (see `Calendar`);
 * the current instant `now` and the two date formatters are parameters.
 */
module CrimeData {
  import opened Wrappers
  import opened Text
  import opened Seqs
  import opened Calendar

  // ===========================================================================
  // Severity
  // ===========================================================================

  datatype Severity = HIGH | MEDIUM | LOW

  /** The string the source stores in a record's `severity` field. */
  function SeverityName(s: Severity): string {
    match s
    case HIGH => "HIGH"
    case MEDIUM => "MEDIUM"
    case LOW => "LOW"
  }

  const HighKeywords: seq<string> := ["AGGRAVATED ASSAULT", "ROBBERY", "STRANGULATION", "BURGLARY"]
  const MediumKeywords: seq<string> := ["SIMPLE ASSAULT", "ASSAULT ON MEDICAL"]
  const LowKeywords: seq<string> := ["MV::Burglary"]

  /** The keyword table, in the order its entries are tried. */
  const SeverityTable: seq<(Severity, seq<string>)> :=
    [(HIGH, HighKeywords), (MEDIUM, MediumKeywords), (LOW, LowKeywords)]

  /** `keywords.some(k => text.includes(k))`. */
  predicate AnyKeyword(text: string, keywords: seq<string>)
    decreases |keywords|
  {
    keywords != [] && (Contains(text, keywords[0]) || AnyKeyword(text, keywords[1..]))
  }

  lemma {:induction false} AnyKeywordIff(text: string, keywords: seq<string>)
    ensures AnyKeyword(text, keywords) <==> exists i :: 0 <= i < |keywords| && Contains(text, keywords[i])
    decreases |keywords|
  {
    if keywords != [] {
      AnyKeywordIff(text, keywords[1..]);
      if AnyKeyword(text, keywords[1..]) {
        var i :| 0 <= i < |keywords[1..]| && Contains(text, keywords[1..][i]);
        assert Contains(text, keywords[i + 1]);
      }
      if exists i :: 0 <= i < |keywords| && Contains(text, keywords[i]) {
        var i :| 0 <= i < |keywords| && Contains(text, keywords[i]);
        if i > 0 {
          assert Contains(text, keywords[1..][i - 1]);
        }
      }
    }
  }

  /** The severity of the first table entry with a keyword in `text`. */
  function FirstMatch(text: string, table: seq<(Severity, seq<string>)>): (r: Option<Severity>)
    decreases |table|
  {
    if table == [] then None
    else if AnyKeyword(text, table[0].1) then Some(table[0].0)
    else FirstMatch(text, table[1..])
  }

  /** `getCrimeSeverity`: classify the upper-cased type, LOW when nothing matches. */
  function CrimeSeverity(crimeType: string): Severity {
    match FirstMatch(Upper(crimeType), SeverityTable)
    case Some(s) => s
    case None => LOW
  }

  /** An upper-cased string never holds the lower-case letters of "MV::Burglary". */
  lemma LowKeywordNeverMatches(crimeType: string)
    ensures !AnyKeyword(Upper(crimeType), LowKeywords)
  {
    var u := Upper(crimeType);
    assert LowKeywords[0][5] == 'u';
    NotContainsChar(u, LowKeywords[0], 5);
    assert !AnyKeyword(u, LowKeywords[1..]);
  }

  /** HIGH keywords are tried before MEDIUM ones, and LOW is the default. */
  lemma CrimeSeveritySpec(crimeType: string)
    ensures var u := Upper(crimeType);
            && (CrimeSeverity(crimeType) == HIGH <==> AnyKeyword(u, HighKeywords))
            && (CrimeSeverity(crimeType) == MEDIUM <==> !AnyKeyword(u, HighKeywords) && AnyKeyword(u, MediumKeywords))
            && (CrimeSeverity(crimeType) == LOW <==> !AnyKeyword(u, HighKeywords) && !AnyKeyword(u, MediumKeywords))
  {
    var u := Upper(crimeType);
    LowKeywordNeverMatches(crimeType);
    var t1, t2 := SeverityTable[1..], SeverityTable[2..];
    assert t1 == [(MEDIUM, MediumKeywords), (LOW, LowKeywords)] && t1[1..] == t2;
    assert t2 == [(LOW, LowKeywords)] && t2[1..] == [];
    assert FirstMatch(u, t2) == None;
    assert FirstMatch(u, t1) == if AnyKeyword(u, MediumKeywords) then Some(MEDIUM) else None;
  }

  const DefaultColor: string := "#6B7280"

  /** `getSeverityColor`, on the stored severity string. */
  function SeverityColor(severity: string): string {
    if severity == "HIGH" then "#DC2626"
    else if severity == "MEDIUM" then "#F97316"
    else if severity == "LOW" then "#EAB308"
    else DefaultColor
  }

  /** Each severity has its own colour, none of them the fallback grey, which
      every other string gets. */
  lemma SeverityColors(a: Severity, b: Severity, other: string)
    requires other != "HIGH" && other != "MEDIUM" && other != "LOW"
    ensures SeverityColor(SeverityName(a)) != DefaultColor
    ensures a != b ==> SeverityColor(SeverityName(a)) != SeverityColor(SeverityName(b))
    ensures SeverityColor(other) == DefaultColor
  {
  }

  // ===========================================================================
  // The "MM/DD/YYYY HH:mm" time field
  // ===========================================================================

  datatype FormatError =
    | MissingTimePart   // no space: `timePart.split` on undefined throws a TypeError
    | InvalidTime       // the Date is invalid: `format` throws a RangeError

  /** `Number(s)` for the strings this field holds: surrounding white space is
      ignored, an empty string is 0, a run of decimal digits is its value, and
      anything else is NaN (`None`). */
  function StringToNumber(s: string): (r: Option<int>)
    ensures r.Some? ==> r.value >= 0
  {
    var t := Trim(s);
    if t == [] then Some(0)
    else if AllDigits(t) then Some(DigitsValue(t))
    else None
  }

  /** Element `i` of a destructured split, as a number; a missing element is
      `undefined`, which converts to NaN. */
  function Component(parts: seq<string>, i: nat): Option<int> {
    if i < |parts| then StringToNumber(parts[i]) else None
  }

  /** The `Date` built from the time field: `new Date(year, month - 1, day,
      hours, minutes)` on the split components. */
  function ParseTime(time: string): (r: Result<int, FormatError>)
    ensures r.Ok? ==> -MaxTimeValue <= r.value <= MaxTimeValue
  {
    var halves := Split(time, ' ');
    if |halves| < 2 then Err(MissingTimePart)
    else
      var date := Split(halves[0], '/');
      var clock := Split(halves[1], ':');
      var month, day, year := Component(date, 0), Component(date, 1), Component(date, 2);
      var hours, minutes := Component(clock, 0), Component(clock, 1);
      if month.None? || day.None? || year.None? || hours.None? || minutes.None? then Err(InvalidTime)
      else
        match DateValue(year.value, month.value - 1, day.value, hours.value, minutes.value)
        case Some(t) => Ok(t)
        case None => Err(InvalidTime)
  }

  /** The time field of a record for the given components. */
  function TimeField(c: Civil): string
    requires 0 <= c.month < 12 && 1 <= c.day < 100 && c.year >= 0
    requires 0 <= c.hour < 100 && 0 <= c.minute < 100
  {
    Pad2(c.month + 1) + "/" + Pad2(c.day) + "/" + NatToString(c.year) + " "
      + Pad2(c.hour) + ":" + Pad2(c.minute)
  }

  lemma TrimDigits(s: string)
    requires AllDigits(s)
    ensures Trim(s) == s
  {
    var a, b := TrimBounds(s);
  }

  lemma NumberOfDigits(s: string)
    requires s != [] && AllDigits(s)
    ensures StringToNumber(s) == Some(DigitsValue(s))
  {
    TrimDigits(s);
  }

  lemma SplitThree(a: string, b: string, c: string, sep: char)
    requires sep !in a && sep !in b && sep !in c
    ensures Split(a + [sep] + b + [sep] + c, sep) == [a, b, c]
  {
    SplitNoSep(c, sep);
    SplitAtSep(b, c, sep);
    assert a + [sep] + b + [sep] + c == a + [sep] + (b + [sep] + c);
    SplitAtSep(a, b + [sep] + c, sep);
  }

  lemma SplitTwo(a: string, b: string, sep: char)
    requires sep !in a && sep !in b
    ensures Split(a + [sep] + b, sep) == [a, b]
  {
    SplitNoSep(b, sep);
    SplitAtSep(a, b, sep);
  }

  lemma DigitsLack(s: string, c: char)
    requires AllDigits(s) && !IsDigit(c)
    ensures c !in s
  {
  }

  /** The days before a year, bounded loosely for years 100..199999. */
  lemma DayFromYearRange(y: int)
    requires 100 <= y < 200000
    ensures -700000 <= DayFromYear(y) <= 73000000
  {
  }

  /** Five digit strings joined as a time field split back apart. */
  lemma {:induction false} FieldSplits(mm: string, dd: string, yyyy: string, hh: string, mi: string)
    requires AllDigits(mm) && AllDigits(dd) && AllDigits(yyyy) && AllDigits(hh) && AllDigits(mi)
    ensures var halves := Split(mm + "/" + dd + "/" + yyyy + " " + hh + ":" + mi, ' ');
            && |halves| == 2
            && Split(halves[0], '/') == [mm, dd, yyyy]
            && Split(halves[1], ':') == [hh, mi]
  {
    var date := mm + "/" + dd + "/" + yyyy;
    var clock := hh + ":" + mi;
    DigitsLack(mm, '/'); DigitsLack(dd, '/'); DigitsLack(yyyy, '/');
    DigitsLack(hh, ':'); DigitsLack(mi, ':');
    DigitsLack(mm, ' '); DigitsLack(dd, ' '); DigitsLack(yyyy, ' ');
    DigitsLack(hh, ' '); DigitsLack(mi, ' ');
    assert ' ' !in date;
    assert ' ' !in clock;
    assert mm + "/" + dd + "/" + yyyy + " " + hh + ":" + mi == date + [' '] + clock;
    SplitTwo(date, clock, ' ');
    SplitThree(mm, dd, yyyy, '/');
    SplitTwo(hh, mi, ':');
  }

  /** Valid components in years 100..199999 give a valid `Date`. */
  lemma CivilDateValue(c: Civil)
    requires ValidCivil(c) && 100 <= c.year < 200000
    ensures DateValue(c.year, c.month, c.day, c.hour, c.minute) == Some(CivilTime(c))
  {
    DayInYear(c);
    DayFromYearRange(c.year);
  }

  /** Parsing succeeds exactly when the numeric components make a valid `Date`. */
  lemma ParseTimeComponents(time: string, month: int, day: int, year: int, hours: int, minutes: int)
    requires var halves := Split(time, ' ');
             && |halves| >= 2
             && var date, clock := Split(halves[0], '/'), Split(halves[1], ':');
             && Component(date, 0) == Some(month) && Component(date, 1) == Some(day)
             && Component(date, 2) == Some(year)
             && Component(clock, 0) == Some(hours) && Component(clock, 1) == Some(minutes)
    ensures DateValue(year, month - 1, day, hours, minutes).Some? ==>
              ParseTime(time) == Ok(DateValue(year, month - 1, day, hours, minutes).value)
    ensures DateValue(year, month - 1, day, hours, minutes).None? ==> ParseTime(time) == Err(InvalidTime)
  {
  }

  /** The numbers read back from a time field made of five digit strings. */
  lemma {:induction false} FieldComponents(mm: string, dd: string, yyyy: string, hh: string, mi: string)
    requires mm != [] && dd != [] && yyyy != [] && hh != [] && mi != []
    requires AllDigits(mm) && AllDigits(dd) && AllDigits(yyyy) && AllDigits(hh) && AllDigits(mi)
    ensures var halves := Split(mm + "/" + dd + "/" + yyyy + " " + hh + ":" + mi, ' ');
            && |halves| >= 2
            && var date, clock := Split(halves[0], '/'), Split(halves[1], ':');
            && Component(date, 0) == Some(DigitsValue(mm)) && Component(date, 1) == Some(DigitsValue(dd))
            && Component(date, 2) == Some(DigitsValue(yyyy))
            && Component(clock, 0) == Some(DigitsValue(hh)) && Component(clock, 1) == Some(DigitsValue(mi))
  {
    FieldSplits(mm, dd, yyyy, hh, mi);
    var halves := Split(mm + "/" + dd + "/" + yyyy + " " + hh + ":" + mi, ' ');
    var date, clock := Split(halves[0], '/'), Split(halves[1], ':');
    assert date == [mm, dd, yyyy] && clock == [hh, mi];
    NumberOfDigits(mm);
    assert Component(date, 0) == Some(DigitsValue(mm));
    NumberOfDigits(dd);
    assert Component(date, 1) == Some(DigitsValue(dd));
    NumberOfDigits(yyyy);
    assert Component(date, 2) == Some(DigitsValue(yyyy));
    NumberOfDigits(hh);
    assert Component(clock, 0) == Some(DigitsValue(hh));
    NumberOfDigits(mi);
    assert Component(clock, 1) == Some(DigitsValue(mi));
  }

  /** A time field written from valid components with a year of three or more
      digits parses to exactly the instant of those components. */
  lemma ParseTimeField(c: Civil)
    requires ValidCivil(c) && 100 <= c.year < 200000
    ensures ParseTime(TimeField(c)) == Ok(CivilTime(c))
  {
    MonthLength(c.year, c.month);
    var mm, dd, yyyy := Pad2(c.month + 1), Pad2(c.day), NatToString(c.year);
    var hh, mi := Pad2(c.hour), Pad2(c.minute);
    FieldComponents(mm, dd, yyyy, hh, mi);
    NatToStringValue(c.year);
    assert TimeField(c) == mm + "/" + dd + "/" + yyyy + " " + hh + ":" + mi;
    ParseTimeComponents(TimeField(c), c.month + 1, c.day, c.year, c.hour, c.minute);
    CivilDateValue(c);
  }

  /** Years 0..99 stand for 1900..1999. */
  lemma TwoDigitYears(year: int, monthIndex: int, day: int, hours: int, minutes: int)
    requires 0 <= year <= 99
    ensures DateValue(year, monthIndex, day, hours, minutes) == DateValue(1900 + year, monthIndex, day, hours, minutes)
  {
  }

  // ===========================================================================
  // The display type: removing the first statute prefix
  // ===========================================================================
  // The recognisers below work on `s[k..hi]` by index, so that no slice of a
  // slice is ever formed.

  function DigitEnd(s: string, k: nat, hi: nat): (r: nat)
    requires k <= hi <= |s|
    ensures k <= r <= hi
  {
    RunEnd(s, k, hi, IsDigit)
  }

  function UpperEnd(s: string, k: nat, hi: nat): (r: nat)
    requires k <= hi <= |s|
    ensures k <= r <= hi
  {
    RunEnd(s, k, hi, IsUpper)
  }

  /** `(?:\s*\d+[A-Z]*)?` matches all of `s[k..hi]`. */
  predicate OptionalSuffix(s: string, k: nat, hi: nat)
    requires k <= hi <= |s|
  {
    if k == hi then true
    else
      var w := SpaceEnd(s, k, hi);
      var d := DigitEnd(s, w, hi);
      d > w && UpperEnd(s, d, hi) == hi
  }

  /** End of a `\(\d+\)` group at `k`, or `k` itself when there is none. */
  function ParenEnd(s: string, k: nat, hi: nat): (r: nat)
    requires k <= hi <= |s|
    ensures k <= r <= hi
  {
    if k < hi && s[k] == '(' then
      var d := DigitEnd(s, k + 1, hi);
      if d > k + 1 && d < hi && s[d] == ')' then d + 1 else k
    else k
  }

  /** `\d+[A-Z]*(?:\(\d+\))?(?:\s*\d+[A-Z]*)?` matches all of `s[k..hi]`. */
  predicate AfterDash(s: string, k: nat, hi: nat)
    requires k <= hi <= |s|
  {
    var b := DigitEnd(s, k, hi);
    b > k && OptionalSuffix(s, ParenEnd(s, UpperEnd(s, b, hi), hi), hi)
  }

  /** `\d+-\d+[A-Z]*(?:\(\d+\))?(?:\s*\d+[A-Z]*)?` matches all of `s[lo..hi]`.
      Each run is taken whole: the character after a run cannot start the next
      part, so backtracking into a run never yields another match. */
  predicate StatuteBody(s: string, lo: nat, hi: nat)
    requires lo <= hi <= |s|
  {
    var a := DigitEnd(s, lo, hi);
    a > lo && a < hi && s[a] == '-' && AfterDash(s, a + 1, hi)
  }

  predicate BodyChar(c: char) {
    IsDigit(c) || IsUpper(c) || IsSpace(c) || c == '-' || c == '(' || c == ')'
  }

  predicate AllBody(s: string, k: nat, hi: nat)
    requires k <= hi <= |s|
  {
    forall i :: k <= i < hi ==> BodyChar(s[i])
  }

  lemma {:induction false} RunBody(s: string, k: nat, hi: nat, p: char -> bool)
    requires k <= hi <= |s|
    requires forall c :: p(c) ==> BodyChar(c)
    ensures AllBody(s, k, RunEnd(s, k, hi, p))
  {
    RunChars(s, k, hi, p);
  }

  lemma {:induction false} AllBodyJoin(s: string, a: nat, b: nat, c: nat)
    requires a <= b <= c <= |s| && AllBody(s, a, b) && AllBody(s, b, c)
    ensures AllBody(s, a, c)
  {
  }

  lemma {:induction false} OptionalSuffixChars(s: string, k: nat, hi: nat)
    requires k <= hi <= |s| && OptionalSuffix(s, k, hi)
    ensures AllBody(s, k, hi)
  {
    if k < hi {
      var w := SpaceEnd(s, k, hi);
      var d := DigitEnd(s, w, hi);
      RunBody(s, k, hi, IsSpace);
      RunBody(s, w, hi, IsDigit);
      RunBody(s, d, hi, IsUpper);
      AllBodyJoin(s, k, w, d);
      AllBodyJoin(s, k, d, hi);
    }
  }

  lemma {:induction false} ParenChars(s: string, k: nat, hi: nat)
    requires k <= hi <= |s|
    ensures AllBody(s, k, ParenEnd(s, k, hi))
  {
    if k < hi && s[k] == '(' {
      var d := DigitEnd(s, k + 1, hi);
      RunBody(s, k + 1, hi, IsDigit);
    }
  }

  lemma {:induction false} AfterDashChars(s: string, k: nat, hi: nat)
    requires k <= hi <= |s| && AfterDash(s, k, hi)
    ensures AllBody(s, k, hi)
  {
    var b := DigitEnd(s, k, hi);
    var u := UpperEnd(s, b, hi);
    var p := ParenEnd(s, u, hi);
    RunBody(s, k, hi, IsDigit);
    RunBody(s, b, hi, IsUpper);
    ParenChars(s, u, hi);
    OptionalSuffixChars(s, p, hi);
    AllBodyJoin(s, k, b, u);
    AllBodyJoin(s, k, u, p);
    AllBodyJoin(s, k, p, hi);
  }

  /** The body consists of digits, capitals, white space, '-' and parentheses. */
  lemma {:induction false} StatuteBodyChars(s: string, lo: nat, hi: nat)
    requires lo <= hi <= |s| && StatuteBody(s, lo, hi)
    ensures AllBody(s, lo, hi)
  {
    var a := DigitEnd(s, lo, hi);
    RunBody(s, lo, hi, IsDigit);
    AfterDashChars(s, a + 1, hi);
    AllBodyJoin(s, lo, a, a + 1);
    AllBodyJoin(s, lo, a + 1, hi);
  }

  /** Index of the first ':' at or after `k`, or `|s|` when there is none. */
  function ColonFrom(s: string, k: nat): (j: nat)
    requires k <= |s|
    ensures k <= j <= |s|
    ensures forall i :: k <= i < j ==> s[i] != ':'
    ensures j < |s| ==> s[j] == ':'
    decreases |s| - k
  {
    if k == |s| || s[k] == ':' then k else ColonFrom(s, k + 1)
  }

  predicate StartsStatute(s: string, i: int) {
    0 <= i && i + 3 <= |s| && s[i] == '2' && s[i + 1] == 'C' && s[i + 2] == ':'
  }

  /** The whole statute pattern `2C:<body>::` occupies `s[i..e]`. */
  predicate StatuteMatch(s: string, i: int, e: int) {
    && StartsStatute(s, i) && i + 5 <= e <= |s|
    && s[e - 2] == ':' && s[e - 1] == ':'
    && StatuteBody(s, i + 3, e - 2)
  }

  /** The end of the statute match that starts at `i`: as the body holds no
      ':', the closing "::" starts at the first ':' after "2C:". */
  function StatuteAt(s: string, i: nat): (r: Option<nat>)
    ensures r.Some? ==> i + 5 <= r.value <= |s|
  {
    if StartsStatute(s, i) then
      var j := ColonFrom(s, i + 3);
      if j + 1 < |s| && s[j + 1] == ':' && StatuteBody(s, i + 3, j) then Some(j + 2) else None
    else None
  }

  lemma {:induction false} ColonFromIs(s: string, k: nat, j: nat)
    requires k <= j < |s| && s[j] == ':'
    requires forall i :: k <= i < j ==> s[i] != ':'
    ensures ColonFrom(s, k) == j
    decreases j - k
  {
    if k < j {
      ColonFromIs(s, k + 1, j);
    }
  }

  /** Every end `StatuteAt` reports closes a match of the pattern. */
  lemma StatuteAtSound(s: string, i: nat)
    ensures StatuteAt(s, i).Some? ==> StatuteMatch(s, i, StatuteAt(s, i).value)
  {
  }

  /** Every match of the pattern at `i` is the one `StatuteAt` reports. */
  lemma {:induction false} StatuteAtComplete(s: string, i: nat, e: int)
    requires StatuteMatch(s, i, e)
    ensures StatuteAt(s, i) == Some(e)
  {
    StatuteBodyChars(s, i + 3, e - 2);
    ColonFromIs(s, i + 3, e - 2);
  }

  /** The leftmost statute match, as (start, end). */
  function FindStatute(s: string): (r: Option<(nat, nat)>)
    ensures r.Some? ==> StatuteAt(s, r.value.0) == Some(r.value.1)
    ensures r.Some? ==> forall k: nat :: k < r.value.0 ==> StatuteAt(s, k).None?
    ensures r.None? ==> forall k: nat :: k <= |s| ==> StatuteAt(s, k).None?
  {
    var at: nat -> Option<nat> := i => StatuteAt(s, i);
    assert forall k: nat :: at(k) == StatuteAt(s, k);
    Leftmost(at, 0, |s|)
  }

  /** `replace(/2C:.../, '')`: a non-global replace removes the first match only. */
  function StripStatute(s: string): string {
    match FindStatute(s)
    case None => s
    case Some((i, e)) => s[..i] + s[e..]
  }

  /** With no match anywhere the text is unchanged. */
  lemma StripStatuteNoMatch(s: string)
    requires forall k, e :: !StatuteMatch(s, k, e)
    ensures StripStatute(s) == s
  {
    var r := FindStatute(s);
    if r.Some? {
      StatuteAtSound(s, r.value.0);
      assert false;
    }
  }

  /** Otherwise exactly the leftmost match is cut out, and every later match is
      left in place. */
  lemma StripStatuteLeftmost(s: string, i: nat, e: nat)
    requires StatuteMatch(s, i, e)
    requires forall k, e' :: 0 <= k < i ==> !StatuteMatch(s, k, e')
    ensures StripStatute(s) == s[..i] + s[e..]
  {
    StatuteAtComplete(s, i, e);
    var r := FindStatute(s);
    assert r.Some?;
    StatuteAtSound(s, r.value.0);
    assert r.value.0 == i;
  }

  /** `displayType`: the type without its first statute prefix, white space
      collapsed to single spaces and trimmed. */
  function DisplayType(crimeType: string): string {
    Squish(StripStatute(crimeType))
  }

  /** The display type is tidy and keeps every non-space character of the
      stripped type, in order. */
  lemma DisplayTypeTidy(crimeType: string)
    ensures Tidy(DisplayType(crimeType))
    ensures NonSpace(DisplayType(crimeType)) == NonSpace(StripStatute(crimeType))
  {
    SquishSpec(StripStatute(crimeType));
  }

  /** `s` and `t` hold the same characters at `lo..hi`. */
  predicate SameOn(s: string, t: string, lo: nat, hi: nat)
    requires lo <= hi <= |s| && hi <= |t|
  {
    forall i :: lo <= i < hi ==> s[i] == t[i]
  }

  lemma {:induction false} RunEndFrame(s: string, t: string, k: nat, hi: nat, p: char -> bool)
    requires k <= hi <= |s| && hi <= |t| && SameOn(s, t, k, hi)
    ensures RunEnd(s, k, hi, p) == RunEnd(t, k, hi, p)
    decreases hi - k
  {
    if k < hi {
      RunEndFrame(s, t, k + 1, hi, p);
    }
  }

  lemma {:induction false} SameOnShrink(s: string, t: string, lo: nat, k: nat, hi: nat)
    requires lo <= k <= hi <= |s| && hi <= |t| && SameOn(s, t, lo, hi)
    ensures SameOn(s, t, k, hi)
  {
  }

  lemma {:induction false} OptionalSuffixFrame(s: string, t: string, k: nat, hi: nat)
    requires k <= hi <= |s| && hi <= |t| && SameOn(s, t, k, hi)
    ensures OptionalSuffix(s, k, hi) == OptionalSuffix(t, k, hi)
  {
    if k < hi {
      var w := SpaceEnd(s, k, hi);
      RunEndFrame(s, t, k, hi, IsSpace);
      SameOnShrink(s, t, k, w, hi);
      var d := DigitEnd(s, w, hi);
      RunEndFrame(s, t, w, hi, IsDigit);
      SameOnShrink(s, t, w, d, hi);
      RunEndFrame(s, t, d, hi, IsUpper);
    }
  }

  lemma {:induction false} ParenEndFrame(s: string, t: string, k: nat, hi: nat)
    requires k <= hi <= |s| && hi <= |t| && SameOn(s, t, k, hi)
    ensures ParenEnd(s, k, hi) == ParenEnd(t, k, hi)
  {
    if k < hi && s[k] == '(' {
      SameOnShrink(s, t, k, k + 1, hi);
      RunEndFrame(s, t, k + 1, hi, IsDigit);
    }
  }

  lemma {:induction false} AfterDashFrame(s: string, t: string, k: nat, hi: nat)
    requires k <= hi <= |s| && hi <= |t| && SameOn(s, t, k, hi)
    ensures AfterDash(s, k, hi) == AfterDash(t, k, hi)
  {
    var b := DigitEnd(s, k, hi);
    RunEndFrame(s, t, k, hi, IsDigit);
    SameOnShrink(s, t, k, b, hi);
    var u := UpperEnd(s, b, hi);
    RunEndFrame(s, t, b, hi, IsUpper);
    SameOnShrink(s, t, b, u, hi);
    var q := ParenEnd(s, u, hi);
    ParenEndFrame(s, t, u, hi);
    SameOnShrink(s, t, u, q, hi);
    OptionalSuffixFrame(s, t, q, hi);
  }

  /** Whether the body pattern matches `s[lo..hi]` depends on those characters only. */
  lemma {:induction false} StatuteBodyFrame(s: string, t: string, lo: nat, hi: nat)
    requires lo <= hi <= |s| && hi <= |t| && SameOn(s, t, lo, hi)
    ensures StatuteBody(s, lo, hi) == StatuteBody(t, lo, hi)
  {
    var a := DigitEnd(s, lo, hi);
    RunEndFrame(s, t, lo, hi, IsDigit);
    assert DigitEnd(t, lo, hi) == a;
    if a > lo && a < hi {
      assert s[a] == t[a];
      SameOnShrink(s, t, lo, a + 1, hi);
      AfterDashFrame(s, t, a + 1, hi);
    }
  }

  /** A type that starts with a statute prefix and goes on with tidy text is
      displayed as that text. */
  lemma DisplayTypeOfPrefixed(prefix: string, rest: string)
    requires StatuteMatch(prefix, 0, |prefix|) && Tidy(rest)
    ensures DisplayType(prefix + rest) == rest
  {
    var s := prefix + rest;
    StatuteBodyFrame(prefix, s, 3, |prefix| - 2);
    assert StatuteMatch(s, 0, |prefix|);
    StripStatuteLeftmost(s, 0, |prefix|);
    assert s[..0] + s[|prefix|..] == rest;
    SquishSpec(rest);
  }

  lemma AggravatedAssaultTidy()
    ensures Tidy("AGGRAVATED ASSAULT")
  {
    var a, b := "AGGRAVATED", "ASSAULT";
    assert NoSpace(a) by {
      forall i | 0 <= i < |a| ensures !IsSpace(a[i]) { assert IsUpper(a[i]); }
    }
    assert NoSpace(b) by {
      forall i | 0 <= i < |b| ensures !IsSpace(b[i]) { assert IsUpper(b[i]); }
    }
    TidyPair(a, b);
    assert a + " " + b == "AGGRAVATED ASSAULT";
  }

  /** "2C:12-1B::" is a whole statute prefix. */
  lemma StatuteExample(p: string)
    requires p == "2C:12-1B::"
    ensures StatuteMatch(p, 0, |p|)
  {
    assert DigitEnd(p, 3, 8) == 5 && p[5] == '-';
    assert DigitEnd(p, 6, 8) == 7 && UpperEnd(p, 7, 8) == 8;
  }

  /** The statute prefix of a typical record goes, and the rest is kept. */
  lemma DisplayTypeExample(p: string, t: string)
    requires p == "2C:12-1B::" && t == "AGGRAVATED ASSAULT"
    ensures DisplayType(p + t) == t
  {
    StatuteExample(p);
    AggravatedAssaultTidy();
    DisplayTypeOfPrefixed(p, t);
  }

  /** Only the first statute prefix is removed. */
  lemma DisplayTypeFirstOnly(p: string, t: string)
    requires p == "2C:1-1::" && t == "A 2C:2-2::B"
    ensures StripStatute(p + t) == t
  {
    assert DigitEnd(p, 3, 6) == 4 && p[4] == '-';
    assert DigitEnd(p, 5, 6) == 6 && UpperEnd(p, 6, 6) == 6;
    assert StatuteMatch(p, 0, 8);
    var s := p + t;
    StatuteBodyFrame(p, s, 3, 6);
    StripStatuteLeftmost(s, 0, 8);
    assert s[..0] + s[8..] == t;
  }

  // ===========================================================================
  // Records
  // ===========================================================================

  /** A record as scraped: its type, its "MM/DD/YYYY HH:mm" time, its location,
      and every other field (record id, category, ...) by name. */
  datatype RawCrime = RawCrime(crimeType: string, time: string, location: string, fields: map<string, string>)

  /** A record after `formatCrimeData`: the original record and the derived
      fields. */
  datatype Crime = Crime(
    raw: RawCrime,
    severity: Severity,
    severityColor: string,
    formattedDate: string,
    formattedTime: string,
    fullDateTime: int,
    displayType: string)

  /** `formatCrimeData`, with date-fns `format` for the two display patterns
      given as `formatDate` and `formatTime`. A time field that does not parse
      to a valid `Date` makes the source throw, here an error. */
  function FormatCrime(crime: RawCrime, formatDate: int -> string, formatTime: int -> string): (r: Result<Crime, FormatError>)
    ensures r.Ok? <==> ParseTime(crime.time).Ok?
    ensures r.Err? ==> r.error == ParseTime(crime.time).error
    ensures r.Ok? ==> r.value.raw == crime && Tidy(r.value.displayType)
    ensures r.Ok? ==> r.value.severityColor == SeverityColor(SeverityName(r.value.severity))
                      && r.value.severityColor != DefaultColor
  {
    var severity := CrimeSeverity(crime.crimeType);
    match ParseTime(crime.time)
    case Err(e) => Err(e)
    case Ok(t) =>
      SeverityColors(severity, severity, "");
      DisplayTypeTidy(crime.crimeType);
      Ok(Crime(crime, severity, SeverityColor(SeverityName(severity)),
               formatDate(t), formatTime(t), t, DisplayType(crime.crimeType)))
  }

  /** A record whose time field was written from valid components keeps every
      original field and carries exactly the instant of those components. */
  lemma FormatCrimeOfField(crime: RawCrime, c: Civil, formatDate: int -> string, formatTime: int -> string)
    requires ValidCivil(c) && 100 <= c.year < 200000 && crime.time == TimeField(c)
    ensures FormatCrime(crime, formatDate, formatTime).Ok?
    ensures var f := FormatCrime(crime, formatDate, formatTime).value;
            && f.raw == crime
            && f.fullDateTime == CivilTime(c)
            && f.formattedDate == formatDate(CivilTime(c))
            && f.formattedTime == formatTime(CivilTime(c))
            && f.severity == CrimeSeverity(crime.crimeType)
            && f.displayType == DisplayType(crime.crimeType)
  {
    ParseTimeField(c);
  }

  // ===========================================================================
  // Locations: the geocoding cache key
  // ===========================================================================

  const CitySuffix: string := ", New Brunswick, NJ"
  const ZipCode: string := "08901"
  const StateZip: string := ", NJ 08901"

  /** `,?\s*08901` matches `s[p..e]`. */
  predicate ZipMatch(s: string, p: int, e: int) {
    && 0 <= p && p + 5 <= e <= |s|
    && OccursAt(s, ZipCode, e - 5)
    && forall k :: p <= k < e - 5 ==> IsSpace(s[k]) || (k == p && s[k] == ',')
  }

  /** The end of the match of `,?\s*08901` at `p`: an optional comma, the run of
      white space after it, then the digits. */
  function ZipAt(s: string, p: nat): (r: Option<nat>)
    ensures r.Some? ==> ZipMatch(s, p, r.value)
  {
    if p >= |s| then None
    else
      var w := if s[p] == ',' then p + 1 else p;
      var q := SpaceEnd(s, w, |s|);
      RunChars(s, w, |s|, IsSpace);
      if q + 5 <= |s| && s[q..q + 5] == ZipCode then Some(q + 5) else None
  }

  /** Every match at `p` is the one `ZipAt` reports. */
  lemma ZipAtComplete(s: string, p: nat, e: int)
    requires ZipMatch(s, p, e)
    ensures ZipAt(s, p) == Some(e)
  {
    assert s[e - 5] == ZipCode[0];
    var w := if s[p] == ',' then p + 1 else p;
    RunEndIs(s, w, |s|, IsSpace, e - 5);
  }

  /** The leftmost match of `,?\s*08901`, as (start, end). */
  function FindZip(s: string): (r: Option<(nat, nat)>)
    ensures r.Some? ==> ZipAt(s, r.value.0) == Some(r.value.1)
    ensures r.Some? ==> forall k: nat :: k < r.value.0 ==> ZipAt(s, k).None?
    ensures r.None? ==> forall k: nat :: k <= |s| ==> ZipAt(s, k).None?
  {
    var at: nat -> Option<nat> := p => ZipAt(s, p);
    assert forall k: nat :: at(k) == ZipAt(s, k);
    Leftmost(at, 0, |s|)
  }

  /** `replace(/,?\s*08901/, ', NJ 08901')`. */
  function ReplaceZip(s: string): string {
    match FindZip(s)
    case None => s
    case Some((p, e)) => s[..p] + StateZip + s[e..]
  }

  lemma ReplaceZipNoMatch(s: string)
    requires forall p, e :: !ZipMatch(s, p, e)
    ensures ReplaceZip(s) == s
  {
  }

  /** Exactly the leftmost match is replaced. */
  lemma ReplaceZipLeftmost(s: string, p: nat, e: nat)
    requires ZipMatch(s, p, e)
    requires forall k, e' :: 0 <= k < p ==> !ZipMatch(s, k, e')
    ensures ReplaceZip(s) == s[..p] + StateZip + s[e..]
  {
    ZipAtComplete(s, p, e);
    var r := FindZip(s);
    assert r.Some?;
    assert r.value.0 == p;
  }

  /** `normalizeLocation`: name the city when it is missing, then make sure the
      state is named. */
  function NormalizeLocation(location: string): string {
    var withCity := if Contains(Lower(location), "new brunswick") then location else location + CitySuffix;
    if Contains(Lower(withCity), ", nj") then withCity else ReplaceZip(withCity)
  }

  /** A zip match holds only a comma, white space and digits. */
  lemma ZipChars(s: string, p: nat, e: nat)
    requires ZipMatch(s, p, e)
    ensures forall k :: p <= k < e ==> s[k] == ',' || IsSpace(s[k]) || IsDigit(s[k])
  {
    forall k | e - 5 <= k < e
      ensures IsDigit(s[k])
    {
      assert s[k] == ZipCode[k - (e - 5)];
    }
  }

  lemma LowerOccurs(s: string, w: string, j: nat)
    requires OccursAt(Lower(s), w, j)
    ensures forall k :: j <= k < j + |w| ==> LowerChar(s[k]) == w[k - j]
  {
    forall k | j <= k < j + |w|
      ensures LowerChar(s[k]) == w[k - j]
    {
      assert Lower(s)[j..j + |w|][k - j] == w[k - j];
    }
  }

  /** "new brunswick" cannot overlap a zip match: it has letters everywhere but
      at offset 3, and a match is longer than one character. */
  lemma CityApartFromZip(s: string, p: nat, e: nat, j: nat)
    requires ZipMatch(s, p, e) && OccursAt(Lower(s), "new brunswick", j)
    ensures j + 13 <= p || e <= j
  {
    var w := "new brunswick";
    ZipChars(s, p, e);
    LowerOccurs(s, w, j);
    CityLetters();
    var m := if p <= j then j else p;
    var q := if m == j + 3 then m + 1 else m;
    var c := if 0 <= q < |s| then s[q] else ' ';
    ZipCharNotLetter(c);
    if p < j + 13 && j < e {
      assert false;
    }
  }

  /** Every character of "new brunswick" but the space at offset 3 is a letter. */
  lemma CityLetters()
    ensures forall i :: 0 <= i < 13 && i != 3 ==> IsLetter("new brunswick"[i])
  {
  }

  lemma ZipCharNotLetter(c: char)
    ensures c == ',' || IsSpace(c) || IsDigit(c) ==> LowerChar(c) == c && !IsLetter(c)
  {
  }

  /** Lower-casing commutes with cutting `s[p..e]` out and putting `x` in. */
  lemma LowerSplice(s: string, p: nat, e: nat, x: string)
    requires p <= e <= |s|
    ensures Lower(s[..p] + x + s[e..]) == Lower(s)[..p] + (Lower(x) + Lower(s)[e..])
  {
    LowerAppend(s[..p] + x, s[e..]);
    LowerAppend(s[..p], x);
  }

  /** The replacement names the state. */
  lemma SpliceNamesState(head: string, tail: string)
    ensures Contains(head + (Lower(StateZip) + tail), ", nj")
  {
    var mid := Lower(StateZip);
    assert LowerChar('N') == 'n' && LowerChar('J') == 'j';
    assert mid[..4] == ", nj";
    ContainsAt(mid, ", nj", 0);
    ContainsInPrefix(mid, tail, ", nj");
    ContainsInSuffix(head, mid + tail, ", nj");
  }

  /** Replacing the zip keeps "new brunswick" and adds ", nj". */
  lemma ReplaceZipKeepsCity(s: string)
    requires Contains(Lower(s), "new brunswick")
    ensures Contains(Lower(ReplaceZip(s)), "new brunswick")
    ensures FindZip(s).Some? ==> Contains(Lower(ReplaceZip(s)), ", nj")
  {
    match FindZip(s)
    case None =>
    case Some((p, e)) =>
      var j := ContainsWitness(Lower(s), "new brunswick");
      CityApartFromZip(s, p, e, j);
      LowerSplice(s, p, e, StateZip);
      SpliceNamesState(Lower(s)[..p], Lower(s)[e..]);
      SpliceKeeps(Lower(s), p, e, Lower(StateZip), "new brunswick", j);
  }

  lemma LowerCitySuffix()
    ensures Lower(CitySuffix) == ", new brunswick, nj"
  {
    var l := Lower(CitySuffix);
    assert LowerChar('N') == 'n' && LowerChar('B') == 'b' && LowerChar('J') == 'j';
    forall i | 0 <= i < 19
      ensures l[i] == ", new brunswick, nj"[i]
    {
      assert l[i] == LowerChar(CitySuffix[i]);
    }
  }

  /** The lower-cased suffix names both the city and the state. */
  lemma CitySuffixNames()
    ensures Contains(Lower(CitySuffix), "new brunswick") && Contains(Lower(CitySuffix), ", nj")
  {
    var l := Lower(CitySuffix);
    LowerCitySuffix();
    assert l[2..15] == "new brunswick";
    ContainsAt(l, "new brunswick", 2);
    assert l[15..19] == ", nj";
    ContainsAt(l, ", nj", 15);
  }

  /** A location without the city gets the suffix appended, so the input is a
      prefix of the key. */
  lemma NormalizeLocationAppends(location: string)
    requires !Contains(Lower(location), "new brunswick")
    ensures NormalizeLocation(location) == location + CitySuffix
  {
    CitySuffixNames();
    LowerAppend(location, CitySuffix);
    ContainsInSuffix(Lower(location), Lower(CitySuffix), ", nj");
  }

  /** A location that names the city and the state is its own key. */
  lemma NormalizeLocationKeeps(location: string)
    requires Contains(Lower(location), "new brunswick") && Contains(Lower(location), ", nj")
    ensures NormalizeLocation(location) == location
  {
  }

  /** Every key names the city. */
  lemma NormalizeLocationNamesCity(location: string)
    ensures Contains(Lower(NormalizeLocation(location)), "new brunswick")
  {
    if !Contains(Lower(location), "new brunswick") {
      NormalizeLocationAppends(location);
      CitySuffixNames();
      LowerAppend(location, CitySuffix);
      ContainsInSuffix(Lower(location), Lower(CitySuffix), "new brunswick");
    } else if !Contains(Lower(location), ", nj") {
      ReplaceZipKeepsCity(location);
    }
  }

  /** Normalising a key again changes nothing. */
  lemma NormalizeLocationIdempotent(location: string)
    ensures NormalizeLocation(NormalizeLocation(location)) == NormalizeLocation(location)
  {
    var n := NormalizeLocation(location);
    NormalizeLocationNamesCity(location);
    if !Contains(Lower(location), "new brunswick") {
      NormalizeLocationAppends(location);
      CitySuffixNames();
      LowerAppend(location, CitySuffix);
      ContainsInSuffix(Lower(location), Lower(CitySuffix), ", nj");
    } else if !Contains(Lower(location), ", nj") {
      ReplaceZipKeepsCity(location);
      if FindZip(location).None? {
        assert n == location;
      }
    }
  }

  // ===========================================================================
  // Search and order
  // ===========================================================================

  /** A record matches a lower-cased query when one of the four searched fields
      holds it, ignoring case. */
  predicate Matches(c: Crime, query: string) {
    || Contains(Lower(c.displayType), query)
    || Contains(Lower(c.raw.location), query)
    || Contains(Lower(SeverityName(c.severity)), query)
    || Contains(Lower(c.formattedDate), query)
  }

  function MatchesQuery(query: string): Crime -> bool {
    (c: Crime) => Matches(c, Lower(query))
  }

  /** `filterCrimes`. */
  function FilterCrimes(crimes: seq<Crime>, searchQuery: string): seq<Crime> {
    if IsBlank(searchQuery) then crimes else Filter(crimes, MatchesQuery(searchQuery))
  }

  /** A blank query keeps everything; otherwise the result keeps, in input
      order, exactly the records matching the lower-cased query, each as often
      as it occurs in the input. */
  lemma FilterCrimesSpec(crimes: seq<Crime>, searchQuery: string)
    ensures IsBlank(searchQuery) ==> FilterCrimes(crimes, searchQuery) == crimes
    ensures !IsBlank(searchQuery) ==> IsSubsequence(FilterCrimes(crimes, searchQuery), crimes)
    ensures !IsBlank(searchQuery) ==> forall c ::
              multiset(FilterCrimes(crimes, searchQuery))[c]
                == if Matches(c, Lower(searchQuery)) then multiset(crimes)[c] else 0
  {
    if !IsBlank(searchQuery) {
      var p := MatchesQuery(searchQuery);
      FilterIsSubsequence(crimes, p);
      forall c
        ensures multiset(FilterCrimes(crimes, searchQuery))[c]
                  == if Matches(c, Lower(searchQuery)) then multiset(crimes)[c] else 0
      {
        FilterCounts(crimes, p, c);
      }
    }
  }

  function DateKey(c: Crime): int {
    c.fullDateTime
  }

  /** `sortCrimesByDate`: a sorted copy, most recent first. */
  function SortCrimesByDate(crimes: seq<Crime>): (r: seq<Crime>)
    ensures |r| == |crimes|
  {
    SortDesc(crimes, DateKey)
  }

  /** The sorted copy is a permutation of the input, ordered by non-increasing
      instant, with records of the same instant in input order. */
  lemma SortCrimesByDateSpec(crimes: seq<Crime>, t: int)
    ensures var r := SortCrimesByDate(crimes);
            && (forall i, j :: 0 <= i < j < |r| ==> r[i].fullDateTime >= r[j].fullDateTime)
            && multiset(r) == multiset(crimes)
            && Filter(r, HasKey(DateKey, t)) == Filter(crimes, HasKey(DateKey, t))
  {
    SortDescSpec(crimes, DateKey);
    SortDescStable(crimes, DateKey, t);
  }

  // ===========================================================================
  // Time windows
  // ===========================================================================

  datatype DateRange = DateRange(start: int, end: int, caption: string)

  /** The `past_N` tokens: the token, N, and the caption. */
  const PastWindows: seq<(string, nat, string)> := [
    ("past_7", 7, "Past 7 days"),
    ("past_14", 14, "Past 14 days"),
    ("past_28", 28, "Past 28 days"),
    ("past_90", 90, "Past 90 days"),
    ("past_365", 365, "Past 365 days")]

  /** The first `past_N` entry for `token`. */
  function PastWindow(token: string, table: seq<(string, nat, string)>): (r: Option<(nat, string)>)
    ensures r.Some? ==> exists i :: 0 <= i < |table| && table[i] == (token, r.value.0, r.value.1)
    ensures r.None? ==> forall i :: 0 <= i < |table| ==> table[i].0 != token
    decreases |table|
  {
    if table == [] then None
    else if table[0].0 == token then Some((table[0].1, table[0].2))
    else
      var r := PastWindow(token, table[1..]);
      if r.Some? then
        var i :| 0 <= i < |table[1..]| && table[1..][i] == (token, r.value.0, r.value.1);
        assert table[i + 1] == table[1..][i];
        r
      else r
  }

  /** 2020-01-01 00:00, the start of the 'All time' window. */
  const AllTimeStart: int := CivilTime(Civil(2020, 0, 1, 0, 0))

  /** `getDateRange`, for the current instant `now`. */
  function GetDateRange(timeRange: string, now: int): DateRange {
    var today := StartOfDay(now);
    if timeRange == "today" then DateRange(today, EndOfDay(now), "Today")
    else if timeRange == "yesterday" then
      var yesterday := SubDays(today, 1);
      DateRange(yesterday, EndOfDay(yesterday), "Yesterday")
    else match PastWindow(timeRange, PastWindows)
      case Some((n, caption)) => DateRange(SubDays(today, n), EndOfDay(now), caption)
      case None => DateRange(AllTimeStart, EndOfDay(now), "All time")
  }

  /** 'Today' is the calendar day of `now`, from midnight to its last millisecond. */
  lemma TodayWindow(now: int)
    ensures var r := GetDateRange("today", now);
            && r.start % MsPerDay == 0 && r.start <= now <= r.end
            && r.end - r.start + 1 == MsPerDay
  {
    DayBounds(now);
  }

  /** 'Yesterday' is the whole calendar day that ends just before today starts. */
  lemma YesterdayWindow(now: int)
    ensures var r := GetDateRange("yesterday", now);
            && r.start % MsPerDay == 0
            && r.end + 1 == StartOfDay(now)
            && r.end - r.start + 1 == MsPerDay
  {
    DayBounds(now);
    MidnightStart(StartOfDay(now), 1);
  }

  /** `past_N` starts at midnight N days before today and ends with today, so
      it spans N + 1 calendar days and holds `now`. */
  lemma PastWindowRange(now: int, i: nat)
    requires i < |PastWindows|
    ensures var (token, n, caption) := PastWindows[i];
            var r := GetDateRange(token, now);
            && r.start == StartOfDay(now) - n * MsPerDay
            && r.end == EndOfDay(now)
            && r.caption == caption
            && r.start % MsPerDay == 0 && r.start <= now <= r.end
            && r.end - r.start + 1 == (n + 1) * MsPerDay
  {
    var (token, n, caption) := PastWindows[i];
    PastWindowFound(i);
    DayBounds(now);
    MidnightStart(StartOfDay(now), n);
  }

  /** Each `past_N` token is found at its own entry and is neither 'today'
      nor 'yesterday'. */
  lemma PastWindowFound(i: nat)
    requires i < |PastWindows|
    ensures var (token, n, caption) := PastWindows[i];
            && token != "today" && token != "yesterday"
            && PastWindow(token, PastWindows) == Some((n, caption))
  {
    var t := PastWindows;
    assert t[0].0 == "past_7" && t[1].0 == "past_14" && t[2].0 == "past_28";
    assert t[3].0 == "past_90" && t[4].0 == "past_365";
  }

  /** Every other token, 'all' included, gives 'All time' from 2020-01-01. */
  lemma AllTimeWindow(timeRange: string, now: int)
    requires timeRange != "today" && timeRange != "yesterday"
    requires forall i :: 0 <= i < |PastWindows| ==> PastWindows[i].0 != timeRange
    ensures GetDateRange(timeRange, now) == DateRange(1577836800000, EndOfDay(now), "All time")
  {
    assert DayFromYear(2020) == 18262;
  }

  function InRange(r: DateRange): Crime -> bool {
    (c: Crime) => r.start <= c.fullDateTime <= r.end
  }

  /** `filterCrimesByTimeRange`. */
  function FilterCrimesByTimeRange(crimes: seq<Crime>, timeRange: string, now: int): seq<Crime> {
    if timeRange == "" || timeRange == "all" then crimes
    else Filter(crimes, InRange(GetDateRange(timeRange, now)))
  }

  /** An empty token or 'all' keeps everything; otherwise the result keeps, in
      input order, exactly the records whose instant lies in the window, both
      ends included. */
  lemma FilterCrimesByTimeRangeSpec(crimes: seq<Crime>, timeRange: string, now: int)
    ensures timeRange == "" || timeRange == "all" ==> FilterCrimesByTimeRange(crimes, timeRange, now) == crimes
    ensures timeRange != "" && timeRange != "all" ==>
              var r := GetDateRange(timeRange, now);
              var kept := FilterCrimesByTimeRange(crimes, timeRange, now);
              && IsSubsequence(kept, crimes)
              && forall c :: multiset(kept)[c]
                   == if r.start <= c.fullDateTime <= r.end then multiset(crimes)[c] else 0
  {
    if timeRange != "" && timeRange != "all" {
      var r := GetDateRange(timeRange, now);
      FilterIsSubsequence(crimes, InRange(r));
      forall c
        ensures multiset(FilterCrimesByTimeRange(crimes, timeRange, now))[c]
                  == if r.start <= c.fullDateTime <= r.end then multiset(crimes)[c] else 0
      {
        FilterCounts(crimes, InRange(r), c);
      }
    }
  }
}
