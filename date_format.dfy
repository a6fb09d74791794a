/**
  `reformat_date`: parse a date written as "%a %b %d %Y" (as in "Fri Feb 02 2024")
  and write it out again as "%Y-%m-%d" ("2024-02-02").

  The parser follows the regular expression that CPython's `strptime` builds for
  that format: every blank in the format matches one or more whitespace
  characters, "%a" and "%b" match an English abbreviation in any letter case,
  "%d" tries the alternatives `3[01]`, `[12]\d`, `0[1-9]`, `[1-9]` and ` [1-9]`
  in this order, "%Y" takes exactly four digits, and text left after the match
  is an error. The date is then checked as the `datetime` constructor checks it
  (proleptic Gregorian calendar, years 1 to 9999). The weekday is parsed but
  never compared with the date.
*/
module DateFormat {
  import opened Wrappers

  /** Why reformatting fails; the source raises a ValueError in every case. */
  datatype DateError =
    | NoMatch          // the text does not match "%a %b %d %Y"
    | UnconvertedData  // the text matches, but more text follows the year
    | YearOutOfRange   // year 0000 lies outside the range 1..9999
    | DayOutOfRange    // the day does not exist in that month of that year

  /** The fields the pattern extracts: weekday 0 is Monday, month 1 is January. */
  datatype Fields = Fields(weekday: nat, month: nat, day: nat, year: nat)

  /** The English abbreviations, lower-cased as the parser keeps them. */
  const WeekdayAbbrs: seq<string> := ["mon", "tue", "wed", "thu", "fri", "sat", "sun"]
  const MonthAbbrs: seq<string> :=
    ["jan", "feb", "mar", "apr", "may", "jun", "jul", "aug", "sep", "oct", "nov", "dec"]

  // ---------------------------------------------------------------- characters

  /** The characters that `\s` matches in a str pattern. */
  predicate IsSpace(c: char) {
    if c <= ' ' then '\t' <= c <= '\r' || '\U{1C}' <= c
    else if c < '\U{85}' then false
    else
      || c == '\U{85}' || c == '\U{A0}' || c == '\U{1680}'
      || '\U{2000}' <= c <= '\U{200A}'
      || c == '\U{2028}' || c == '\U{2029}' || c == '\U{202F}' || c == '\U{205F}'
      || c == '\U{3000}'
  }

  predicate IsDigit(c: char) {
    '0' <= c <= '9'
  }

  predicate AllDigits(s: string) {
    forall k :: 0 <= k < |s| ==> IsDigit(s[k])
  }

  function DigitValue(c: char): nat
    requires IsDigit(c)
  {
    c as int - '0' as int
  }

  function DigitChar(k: nat): char
    requires k < 10
  {
    ('0' as int + k) as char
  }

  /** The value of a string of decimal digits, most significant first. */
  function DecimalValue(s: string): nat
    requires AllDigits(s)
  {
    if s == [] then 0 else 10 * DecimalValue(s[..|s| - 1]) + DigitValue(s[|s| - 1])
  }

  lemma DecimalOfOne(a: char)
    requires IsDigit(a)
    ensures AllDigits([a]) && DecimalValue([a]) == DigitValue(a)
  {
    assert [a][..0] == [];
  }

  lemma DecimalOfTwo(a: char, b: char)
    requires IsDigit(a) && IsDigit(b)
    ensures AllDigits([a, b]) && DecimalValue([a, b]) == 10 * DigitValue(a) + DigitValue(b)
  {
    assert [a, b][..1] == [a];
    DecimalOfOne(a);
  }

  /** ASCII letter case folding, as case-insensitive matching applies it. */
  function Lower(c: char): char {
    if 'A' <= c <= 'Z' then (c as int + 32) as char else c
  }

  function LowerAscii(s: string): string {
    seq(|s|, k requires 0 <= k < |s| => Lower(s[k]))
  }

  // ------------------------------------------------------------------ matching

  /** The first position of `token` in `table`, if any. */
  function IndexOf(table: seq<string>, token: string): (r: Option<nat>)
    ensures r.Some? ==> r.value < |table| && table[r.value] == token
    ensures r.Some? ==> forall j :: 0 <= j < r.value ==> table[j] != token
    ensures r.None? ==> token !in table
  {
    if table == [] then None
    else if table[0] == token then Some(0)
    else match IndexOf(table[1..], token)
      case None => None
      case Some(i) => Some(i + 1)
  }

  /** `\s*` from position `i`: the end of the longest run of whitespace there. */
  function SkipSpaces(s: string, i: nat): (j: nat)
    requires i <= |s|
    ensures i <= j <= |s|
    ensures forall k :: i <= k < j ==> IsSpace(s[k])
    ensures j == |s| || !IsSpace(s[j])
    decreases |s| - i
  {
    if i < |s| && IsSpace(s[i]) then SkipSpaces(s, i + 1) else i
  }

  /** The two-character alternatives of "%d": `3[01]`, `[12]\d` and `0[1-9]`. */
  predicate TwoDigitDay(a: char, b: char) {
    || (a == '3' && (b == '0' || b == '1'))
    || ((a == '1' || a == '2') && IsDigit(b))
    || (a == '0' && '1' <= b <= '9')
  }

  /**
    "%d" at position `i`, where the pattern demands whitespace right after it:
    the day and the position after it. The alternative ` [1-9]` matches only
    where the preceding `\s+` could have taken the blank itself, so it adds
    no input and no value of its own.
  */
  function MatchDay(s: string, i: nat): (r: Option<(nat, nat)>)
    requires i <= |s|
    ensures r.Some? ==> i < r.value.1 <= i + 2 && r.value.1 < |s| && IsSpace(s[r.value.1])
    ensures r.Some? ==> AllDigits(s[i..r.value.1]) && r.value.0 == DecimalValue(s[i..r.value.1])
    ensures r.Some? ==> 1 <= r.value.0 <= 31
  {
    if i + 2 < |s| && TwoDigitDay(s[i], s[i + 1]) && IsSpace(s[i + 2]) then
      assert s[i..i + 2] == [s[i], s[i + 1]];
      DecimalOfTwo(s[i], s[i + 1]);
      Some((10 * DigitValue(s[i]) + DigitValue(s[i + 1]), i + 2))
    else if i + 1 < |s| && '1' <= s[i] <= '9' && IsSpace(s[i + 1]) then
      assert s[i..i + 1] == [s[i]];
      DecimalOfOne(s[i]);
      Some((DigitValue(s[i]), i + 1))
    else
      None
  }

  /** "%Y" at position `i`: exactly four digits. */
  function MatchYear(s: string, i: nat): (r: Option<(nat, nat)>)
    requires i <= |s|
    ensures r.Some? ==> r.value.1 == i + 4 <= |s| && r.value.0 <= 9999
    ensures r.Some? ==> AllDigits(s[i..i + 4]) && r.value.0 == DecimalValue(s[i..i + 4])
  {
    if i + 4 <= |s| && AllDigits(s[i..i + 4]) then
      DecimalBound(s[i..i + 4]);
      assert Pow10(4) == 10000;
      Some((DecimalValue(s[i..i + 4]), i + 4))
    else
      None
  }

  /** A string of `n` digits denotes a number below 10^n. */
  lemma {:induction false} DecimalBound(s: string)
    requires AllDigits(s)
    ensures DecimalValue(s) < Pow10(|s|)
  {
    if s != [] {
      DecimalBound(s[..|s| - 1]);
    }
  }

  predicate WellFormed(f: Fields) {
    f.weekday < 7 && 1 <= f.month <= 12 && 1 <= f.day <= 31 && f.year <= 9999
  }

  /**
    The regular-expression match of "%a %b %d %Y" at the start of `s`: the
    fields and the position where the match ends. Each stage below matches one
    field and the whitespace after it.
  */
  function MatchFields(s: string): (r: Option<(Fields, nat)>)
    ensures r.Some? ==> WellFormed(r.value.0) && r.value.1 <= |s|
    ensures r.Some? ==> |s| >= 3 && IndexOf(WeekdayAbbrs, LowerAscii(s[..3])) == Some(r.value.0.weekday)
  {
    if |s| < 3 then None else
    match IndexOf(WeekdayAbbrs, LowerAscii(s[..3]))
    case None => None
    case Some(w) => MatchMonth(s, w, SkipSpaces(s, 3))
  }

  /** "%b" at `i`, where `i` is past the weekday and the whitespace after it. */
  function MatchMonth(s: string, w: nat, i: nat): (r: Option<(Fields, nat)>)
    requires w < 7 && 3 <= i <= |s|
    ensures r.Some? ==> WellFormed(r.value.0) && r.value.1 <= |s|
    ensures r.Some? ==> r.value.0.weekday == w
  {
    if i == 3 || |s| < i + 3 then None else
    match IndexOf(MonthAbbrs, LowerAscii(s[i..i + 3]))
    case None => None
    case Some(m) =>
      var j := SkipSpaces(s, i + 3);
      if j == i + 3 then None else MatchDayYear(s, w, m + 1, j)
  }

  /** "%d", whitespace and "%Y" from `j`. */
  function MatchDayYear(s: string, w: nat, m: nat, j: nat): (r: Option<(Fields, nat)>)
    requires w < 7 && 1 <= m <= 12 && j <= |s|
    ensures r.Some? ==> WellFormed(r.value.0) && r.value.1 <= |s|
    ensures r.Some? ==> r.value.0.weekday == w && r.value.0.month == m
  {
    match MatchDay(s, j)
    case None => None
    case Some((d, k)) =>
      match MatchYear(s, SkipSpaces(s, k))
      case None => None
      case Some((y, e)) => Some((Fields(w, m, d, y), e))
  }

  /** What `MatchFields` reduces to once the weekday's abbreviation is known. */
  lemma MatchFieldsStep(s: string, w: nat)
    requires |s| >= 3 && IndexOf(WeekdayAbbrs, LowerAscii(s[..3])) == Some(w)
    ensures w < 7 && MatchFields(s) == MatchMonth(s, w, SkipSpaces(s, 3))
  {
  }

  /** `MatchMonth` finds nothing without whitespace before the month, a known abbreviation, and whitespace after it. */
  lemma MatchMonthNone(s: string, w: nat, i: nat)
    requires w < 7 && 3 <= i <= |s|
    requires i == 3 || |s| < i + 3 || IndexOf(MonthAbbrs, LowerAscii(s[i..i + 3])).None? || SkipSpaces(s, i + 3) == i + 3
    ensures MatchMonth(s, w, i).None?
  {
  }

  /** What `MatchMonth` reduces to once the month's abbreviation and the whitespace after it are known. */
  lemma MatchMonthStep(s: string, w: nat, i: nat, m: nat)
    requires w < 7 && 3 < i && i + 3 <= |s|
    requires IndexOf(MonthAbbrs, LowerAscii(s[i..i + 3])) == Some(m)
    requires SkipSpaces(s, i + 3) != i + 3
    ensures m < 12 && MatchMonth(s, w, i) == MatchDayYear(s, w, m + 1, SkipSpaces(s, i + 3))
  {
  }

  /** `strptime`'s parsing stage: a match that must use up the whole input. */
  function ParseFields(s: string): (r: Result<Fields, DateError>)
    ensures r.Ok? ==> WellFormed(r.value)
    ensures r.Err? ==> r.error == NoMatch || r.error == UnconvertedData
    ensures r.Ok? ==> MatchFields(s) == Some((r.value, |s|))
  {
    var m := MatchFields(s);
    if m.None? then Err(NoMatch)
    else if m.value.1 < |s| then Err(UnconvertedData)
    else Ok(m.value.0)
  }

  // ------------------------------------------------------------------ calendar

  predicate IsLeapYear(y: nat) {
    y % 4 == 0 && (y % 100 != 0 || y % 400 == 0)
  }

  function DaysInMonth(y: nat, m: nat): (n: nat)
    requires 1 <= m <= 12
    ensures 28 <= n <= 31
    ensures n == 29 <==> m == 2 && IsLeapYear(y)
  {
    if m == 2 then (if IsLeapYear(y) then 29 else 28)
    else if m == 4 || m == 6 || m == 9 || m == 11 then 30
    else 31
  }

  /** What the `date` constructor accepts. */
  predicate ValidDate(f: Fields)
    requires WellFormed(f)
  {
    1 <= f.year && f.day <= DaysInMonth(f.year, f.month)
  }

  // ------------------------------------------------------------------- output

  function Pow10(k: nat): nat {
    if k == 0 then 1 else 10 * Pow10(k - 1)
  }

  /** `n` written with exactly `width` decimal digits, zero-padded. */
  function Digits(n: nat, width: nat): (r: string)
    ensures |r| == width && AllDigits(r)
  {
    if width == 0 then "" else Digits(n / 10, width - 1) + [DigitChar(n % 10)]
  }

  lemma {:induction false} DigitsRoundTrip(n: nat, width: nat)
    requires n < Pow10(width)
    ensures DecimalValue(Digits(n, width)) == n
  {
    if width > 0 {
      var prefix := Digits(n / 10, width - 1);
      assert (prefix + [DigitChar(n % 10)])[..width - 1] == prefix;
      DigitsRoundTrip(n / 10, width - 1);
    }
  }

  /** "%Y-%m-%d". */
  function IsoDate(y: nat, m: nat, d: nat): string {
    Digits(y, 4) + "-" + Digits(m, 2) + "-" + Digits(d, 2)
  }

  /** Reads a "YYYY-MM-DD" string back into year, month and day. */
  function ReadIso(t: string): Option<(nat, nat, nat)> {
    if |t| == 10 && t[4] == '-' && t[7] == '-'
       && AllDigits(t[..4]) && AllDigits(t[5..7]) && AllDigits(t[8..])
    then Some((DecimalValue(t[..4]), DecimalValue(t[5..7]), DecimalValue(t[8..])))
    else None
  }

  lemma ReadIsoDate(y: nat, m: nat, d: nat)
    requires y <= 9999 && m <= 99 && d <= 99
    ensures ReadIso(IsoDate(y, m, d)) == Some((y, m, d))
  {
    var t := IsoDate(y, m, d);
    assert t[..4] == Digits(y, 4);
    assert t[5..7] == Digits(m, 2);
    assert t[8..] == Digits(d, 2);
    DigitsRoundTrip(y, 4);
    DigitsRoundTrip(m, 2);
    DigitsRoundTrip(d, 2);
  }

  // -------------------------------------------------------------- reformatting

  /**
    `reformat_date` with its default output format "%Y-%m-%d": succeeds exactly
    when the text parses and names a real date, and then carries that date's
    year, month number and day.
  */
  function ReformatDate(s: string): (r: Result<string, DateError>)
    ensures r.Ok? <==> ParseFields(s).Ok? && ValidDate(ParseFields(s).value)
    ensures r.Ok? ==>
      var f := ParseFields(s).value;
      ReadIso(r.value) == Some((f.year, f.month, f.day))
    ensures ParseFields(s).Err? ==> r == Err(ParseFields(s).error)
    ensures ParseFields(s).Ok? && ParseFields(s).value.year == 0 ==> r == Err(YearOutOfRange)
    ensures ParseFields(s).Ok? && ParseFields(s).value.year != 0 &&
            ParseFields(s).value.day > DaysInMonth(ParseFields(s).value.year, ParseFields(s).value.month)
            ==> r == Err(DayOutOfRange)
  {
    match ParseFields(s)
    case Err(e) => Err(e)
    case Ok(f) =>
      if f.year == 0 then Err(YearOutOfRange)
      else if f.day > DaysInMonth(f.year, f.month) then Err(DayOutOfRange)
      else
        ReadIsoDate(f.year, f.month, f.day);
        Ok(IsoDate(f.year, f.month, f.day))
  }

  // ------------------------------------------------------------------- lemmas

  /** The day alternatives accept every one- or two-digit day from 1 to 31 that whitespace follows. */
  lemma MatchDayAccepts(s: string, i: nat, j: nat)
    requires i < j <= i + 2 && j < |s| && IsSpace(s[j])
    requires AllDigits(s[i..j]) && 1 <= DecimalValue(s[i..j]) <= 31
    ensures MatchDay(s, i) == Some((DecimalValue(s[i..j]), j))
  {
    if j == i + 2 {
      assert s[i..j] == [s[i], s[i + 1]];
      DecimalOfTwo(s[i], s[i + 1]);
    } else {
      assert s[i..j] == [s[i]];
      DecimalOfOne(s[i]);
      assert !IsDigit(s[i + 1]);
    }
  }

  /** The canonical spelling of a set of fields: "fri feb 02 2024". */
  function Render(f: Fields): string
    requires WellFormed(f)
  {
    Spell(f, " ", " ", " ", false)
  }

  /** Every abbreviation is three lower-case letters. */
  lemma LowerAbbr(t: string)
    requires t in WeekdayAbbrs || t in MonthAbbrs
    ensures |t| == 3 && LowerAscii(t) == t
    ensures forall c :: 0 <= c < 3 ==> 'a' <= t[c] <= 'z'
  {
  }

  /** Each weekday abbreviation is found at its own position: the table has no repeats. */
  lemma WeekdayFound(k: nat)
    requires k < |WeekdayAbbrs|
    ensures IndexOf(WeekdayAbbrs, WeekdayAbbrs[k]) == Some(k)
  {
    assert WeekdayAbbrs[k] in WeekdayAbbrs;
    assert forall j :: 0 <= j < |WeekdayAbbrs| && j != k ==> WeekdayAbbrs[j] != WeekdayAbbrs[k];
  }

  /** Each month abbreviation is found at its own position: the table has no repeats. */
  lemma MonthFound(k: nat)
    requires k < |MonthAbbrs|
    ensures IndexOf(MonthAbbrs, MonthAbbrs[k]) == Some(k)
  {
    assert MonthAbbrs[k] in MonthAbbrs;
    assert forall j :: 0 <= j < |MonthAbbrs| && j != k ==> MonthAbbrs[j] != MonthAbbrs[k];
  }

  /** `width` digits of `n` at `i`: their value is `n`. */
  lemma DigitsStep(s: string, i: nat, n: nat, width: nat)
    requires i + width <= |s| && s[i..i + width] == Digits(n, width)
    requires (width == 2 && n < 100) || (width == 4 && n < 10000)
    ensures AllDigits(s[i..i + width]) && DecimalValue(s[i..i + width]) == n
    ensures width > 0 ==> IsDigit(s[i])
  {
    assert Pow10(2) == 100 && Pow10(4) == 10000;
    DigitsRoundTrip(n, width);
    assert s[i] == s[i..i + width][0];
  }

  /** Parsing the canonical spelling gives back the fields it was written from. */
  lemma ParseRendered(f: Fields)
    requires WellFormed(f)
    ensures ParseFields(Render(f)) == Ok(f)
  {
    assert Blank(" ");
    SpellParses(f, " ", " ", " ", false);
  }

  /**
    The result for every canonical input: the ISO date when the fields name a
    real date, whatever the weekday; otherwise the constructor's error.
  */
  lemma ReformatRendered(f: Fields)
    requires WellFormed(f)
    ensures ReformatDate(Render(f)) ==
      if f.year == 0 then Err(YearOutOfRange)
      else if f.day > DaysInMonth(f.year, f.month) then Err(DayOutOfRange)
      else Ok(IsoDate(f.year, f.month, f.day))
  {
    ParseRendered(f);
  }

  /**
    The result for every spelling of a canonical input in any letter case,
    such as the capitalised abbreviations a browser writes.
  */
  lemma ReformatSpelled(s: string, f: Fields)
    requires WellFormed(f) && LowerAscii(s) == Render(f)
    ensures ReformatDate(s) ==
      if f.year == 0 then Err(YearOutOfRange)
      else if f.day > DaysInMonth(f.year, f.month) then Err(DayOutOfRange)
      else Ok(IsoDate(f.year, f.month, f.day))
  {
    ParseCaseInsensitive(s);
    ReformatRendered(f);
  }

  /** The four characters before position `e` are digits that spell `year`. */
  predicate YearEndsAt(s: string, year: nat, e: nat) {
    4 <= e <= |s| && AllDigits(s[e - 4..e]) && year == DecimalValue(s[e - 4..e])
  }

  /** A match of the day and the year spans at least six characters and ends with the year's digits. */
  lemma MatchDayYearShape(s: string, w: nat, m: nat, j: nat)
    requires w < 7 && 1 <= m <= 12 && j <= |s| && MatchDayYear(s, w, m, j).Some?
    ensures j + 6 <= MatchDayYear(s, w, m, j).value.1
    ensures YearEndsAt(s, MatchDayYear(s, w, m, j).value.0.year, MatchDayYear(s, w, m, j).value.1)
  {
    var k := MatchDay(s, j).value.1;
    var l := SkipSpaces(s, k);
    assert MatchYear(s, l).Some?;
  }

  /** A match from the month on spans at least ten characters, needs whitespace before it, and ends with the year. */
  lemma MatchMonthShape(s: string, w: nat, i: nat)
    requires w < 7 && 3 <= i <= |s| && MatchMonth(s, w, i).Some?
    ensures i != 3 && i + 10 <= MatchMonth(s, w, i).value.1
    ensures IndexOf(MonthAbbrs, LowerAscii(s[i..i + 3])).Some? && SkipSpaces(s, i + 3) != i + 3
    ensures YearEndsAt(s, MatchMonth(s, w, i).value.0.year, MatchMonth(s, w, i).value.1)
  {
    var m := IndexOf(MonthAbbrs, LowerAscii(s[i..i + 3])).value;
    MatchDayYearShape(s, w, m + 1, SkipSpaces(s, i + 3));
  }

  /**
    What every accepted input looks like: a known weekday abbreviation, then
    whitespace, and at the very end the four digits of the year.
  */
  lemma AcceptedShape(s: string)
    requires ParseFields(s).Ok?
    ensures |s| >= 14
    ensures LowerAscii(s[..3]) in WeekdayAbbrs && IsSpace(s[3])
    ensures AllDigits(s[|s| - 4..]) && ParseFields(s).value.year == DecimalValue(s[|s| - 4..])
  {
    var w := ParsedWeekday(s);
    var i := SkipSpaces(s, 3);
    MatchMonthShape(s, w, i);
    assert IsSpace(s[3]);
    assert s[|s| - 4..|s|] == s[|s| - 4..];
  }

  // --------------------------------------------------------- case insensitivity

  lemma {:induction false} SkipSpacesLower(s: string, i: nat)
    requires i <= |s|
    ensures SkipSpaces(LowerAscii(s), i) == SkipSpaces(s, i)
    decreases |s| - i
  {
    if i < |s| && IsSpace(s[i]) {
      SkipSpacesLower(s, i + 1);
    }
  }

  lemma LowerSlice(s: string, a: nat, b: nat)
    requires a <= b <= |s|
    ensures LowerAscii(LowerAscii(s)[a..b]) == LowerAscii(s[a..b])
    ensures AllDigits(s[a..b]) || AllDigits(LowerAscii(s)[a..b]) ==> LowerAscii(s)[a..b] == s[a..b]
  {
  }

  lemma MatchDayLower(s: string, j: nat)
    requires j <= |s|
    ensures MatchDay(LowerAscii(s), j) == MatchDay(s, j)
  {
    var t := LowerAscii(s);
    if j + 2 <= |s| {
      assert TwoDigitDay(t[j], t[j + 1]) == TwoDigitDay(s[j], s[j + 1]);
    }
  }

  lemma MatchYearLower(s: string, i: nat)
    requires i <= |s|
    ensures MatchYear(LowerAscii(s), i) == MatchYear(s, i)
  {
    if i + 4 <= |s| {
      LowerSlice(s, i, i + 4);
    }
  }

  lemma MatchDayYearLower(s: string, w: nat, m: nat, j: nat)
    requires w < 7 && 1 <= m <= 12 && j <= |s|
    ensures MatchDayYear(LowerAscii(s), w, m, j) == MatchDayYear(s, w, m, j)
  {
    MatchDayLower(s, j);
    if MatchDay(s, j).Some? {
      var k := MatchDay(s, j).value.1;
      SkipSpacesLower(s, k);
      MatchYearLower(s, SkipSpaces(s, k));
    }
  }

  lemma MatchMonthLower(s: string, w: nat, i: nat)
    requires w < 7 && 3 <= i <= |s|
    ensures MatchMonth(LowerAscii(s), w, i) == MatchMonth(s, w, i)
  {
    if i == 3 || |s| < i + 3 {
      MatchMonthNone(s, w, i);
      MatchMonthNone(LowerAscii(s), w, i);
    } else {
      MatchMonthLowerFound(s, w, i);
    }
  }

  /** The case where the month's three characters are there: both texts read the same abbreviation. */
  lemma MatchMonthLowerFound(s: string, w: nat, i: nat)
    requires w < 7 && 3 < i && i + 3 <= |s|
    ensures MatchMonth(LowerAscii(s), w, i) == MatchMonth(s, w, i)
  {
    var t := LowerAscii(s);
    MonthLowerHead(s, i);
    var m := IndexOf(MonthAbbrs, LowerAscii(s[i..i + 3]));
    var j := SkipSpaces(s, i + 3);
    if m.None? || j == i + 3 {
      MatchMonthNone(s, w, i);
      MatchMonthNone(t, w, i);
    } else {
      MatchMonthLowerStep(s, w, i, m.value);
    }
  }

  /** Once the month is known, both texts go on to the same day and year. */
  lemma MatchMonthLowerStep(s: string, w: nat, i: nat, m: nat)
    requires w < 7 && 3 < i && i + 3 <= |s|
    requires IndexOf(MonthAbbrs, LowerAscii(s[i..i + 3])) == Some(m) && SkipSpaces(s, i + 3) != i + 3
    ensures MatchMonth(LowerAscii(s), w, i) == MatchMonth(s, w, i)
  {
    MonthLowerHead(s, i);
    MatchMonthStep(s, w, i, m);
    MatchMonthStep(LowerAscii(s), w, i, m);
    MatchDayYearLower(s, w, m + 1, SkipSpaces(s, i + 3));
  }

  /** The month and the whitespace after it read the same in the lower-cased text. */
  lemma MonthLowerHead(s: string, i: nat)
    requires i + 3 <= |s|
    ensures IndexOf(MonthAbbrs, LowerAscii(LowerAscii(s)[i..i + 3])) == IndexOf(MonthAbbrs, LowerAscii(s[i..i + 3]))
    ensures SkipSpaces(LowerAscii(s), i + 3) == SkipSpaces(s, i + 3)
  {
    LowerSlice(s, i, i + 3);
    SkipSpacesLower(s, i + 3);
  }

  /** "%a" and "%b" ignore letter case, and nothing else in the pattern involves letters. */
  lemma ParseCaseInsensitive(s: string)
    ensures ParseFields(LowerAscii(s)) == ParseFields(s)
  {
    var t := LowerAscii(s);
    if |s| >= 3 {
      LowerSlice(s, 0, 3);
      assert s[..3] == s[0..3] && t[..3] == t[0..3];
      SkipSpacesLower(s, 3);
      var w := IndexOf(WeekdayAbbrs, LowerAscii(s[..3]));
      if w.Some? {
        MatchMonthLower(s, w.value, SkipSpaces(s, 3));
      }
    }
    assert MatchFields(t) == MatchFields(s);
  }

  // ------------------------------------------------------------ all spellings

  /** A non-empty run of whitespace: what a blank in the format requires. */
  predicate Blank(r: string) {
    |r| > 0 && forall k :: 0 <= k < |r| ==> IsSpace(r[k])
  }

  /** The day as "%d" reads it: two digits, or a single digit for the days 1 to 9. */
  function DayText(day: nat, short: bool): string
    requires 1 <= day <= 31 && (short ==> day < 10)
  {
    if short then [DigitChar(day)] else Digits(day, 2)
  }

  /**
    A spelling of the fields that the pattern accepts, in lower case: the
    weekday, the month, the day in one or two digits and the four digits of
    the year, with the whitespace runs `a`, `b` and `c` between them.
  */
  function Spell(f: Fields, a: string, b: string, c: string, short: bool): string
    requires WellFormed(f) && (short ==> f.day < 10)
  {
    WeekdayAbbrs[f.weekday] + a + MonthAbbrs[f.month - 1] + b + DayText(f.day, short) + c + Digits(f.year, 4)
  }

  /** `\s*` from `i` stops at the first character that is not whitespace. */
  lemma {:induction false} SkipSpacesRun(s: string, i: nat, e: nat)
    requires i <= e < |s| && !IsSpace(s[e])
    requires forall k :: i <= k < e ==> IsSpace(s[k])
    ensures SkipSpaces(s, i) == e
    decreases e - i
  {
    if i < e {
      SkipSpacesRun(s, i + 1, e);
    }
  }

  /** Where each piece of a spelling sits. */
  lemma SpellLayout(w: string, a: string, m: string, b: string, d: string, c: string, y: string)
    requires |w| == 3 && |m| == 3
    ensures var s := w + a + m + b + d + c + y;
      var i, j := 3 + |a|, 6 + |a| + |b|;
      var k, l := j + |d|, j + |d| + |c|;
      && |s| == l + |y|
      && s[..3] == w && s[3..i] == a && s[i..i + 3] == m && s[i + 3..j] == b
      && s[j..k] == d && s[k..l] == c && s[l..] == y
  {
  }

  /** The day written either way reads back as its value. */
  lemma DayTextValue(day: nat, short: bool)
    requires 1 <= day <= 31 && (short ==> day < 10)
    ensures var t := DayText(day, short);
      |t| == (if short then 1 else 2) && AllDigits(t) && DecimalValue(t) == day && IsDigit(t[0])
  {
    if short {
      DecimalOfOne(DigitChar(day));
    } else {
      assert Pow10(2) == 100;
      DigitsRoundTrip(day, 2);
    }
  }

  /** The day, whitespace and year of a spelling, matched from the day's first digit. */
  lemma SpellDayYear(s: string, f: Fields, short: bool, j: nat, k: nat, l: nat)
    requires WellFormed(f) && (short ==> f.day < 10)
    requires j < k < l && l + 4 == |s|
    requires s[j..k] == DayText(f.day, short) && Blank(s[k..l]) && s[l..] == Digits(f.year, 4)
    ensures MatchDayYear(s, f.weekday, f.month, j) == Some((f, |s|))
  {
    SpellDay(s, f.day, short, j, k, l);
    SpellYear(s, f.year, k, l);
  }

  /** The day of a spelling, followed by its blank. */
  lemma SpellDay(s: string, day: nat, short: bool, j: nat, k: nat, l: nat)
    requires 1 <= day <= 31 && (short ==> day < 10)
    requires j < k < l <= |s| && s[j..k] == DayText(day, short) && Blank(s[k..l])
    ensures MatchDay(s, j) == Some((day, k))
  {
    DayTextValue(day, short);
    assert IsSpace(s[k]) by {
      assert s[k] == s[k..l][0];
    }
    MatchDayAccepts(s, j, k);
  }

  /** The blank before the year of a spelling, and the year at its end. */
  lemma SpellYear(s: string, year: nat, k: nat, l: nat)
    requires year <= 9999 && k < l && l + 4 == |s| && Blank(s[k..l]) && s[l..] == Digits(year, 4)
    ensures MatchYear(s, SkipSpaces(s, k)) == Some((year, |s|))
  {
    assert s[l..l + 4] == s[l..];
    DigitsStep(s, l, year, 4);
    BlankSkipped(s, k, l);
  }

  /** A whitespace run at `i` is skipped up to the letter or digit `e` that closes it. */
  lemma BlankSkipped(s: string, i: nat, e: nat)
    requires i <= e < |s| && Blank(s[i..e]) && ('a' <= s[e] <= 'z' || IsDigit(s[e]))
    ensures SkipSpaces(s, i) == e
  {
    assert forall n :: i <= n < e ==> IsSpace(s[n]) by {
      forall n | i <= n < e
        ensures IsSpace(s[n])
      {
        assert s[n] == s[i..e][n - i];
      }
    }
    SkipSpacesRun(s, i, e);
  }

  /** The weekday, the month and the blanks around the month, read from a spelling's first characters. */
  lemma SpellHead(s: string, f: Fields, i: nat, j: nat)
    requires WellFormed(f) && 3 < i && i + 3 < j < |s| && IsDigit(s[j])
    requires s[..3] == WeekdayAbbrs[f.weekday] && s[i..i + 3] == MonthAbbrs[f.month - 1]
    requires Blank(s[3..i]) && Blank(s[i + 3..j])
    ensures MatchFields(s) == MatchDayYear(s, f.weekday, f.month, j)
  {
    LowerAbbr(WeekdayAbbrs[f.weekday]);
    LowerAbbr(MonthAbbrs[f.month - 1]);
    WeekdayFound(f.weekday);
    MonthFound(f.month - 1);
    assert s[i] == s[i..i + 3][0];
    BlankSkipped(s, 3, i);
    MatchFieldsStep(s, f.weekday);
    BlankSkipped(s, i + 3, j);
    MatchMonthStep(s, f.weekday, i, f.month - 1);
  }

  /** A text laid out as a spelling of `f` is matched, to its end, as `f`. */
  lemma LaidOutParses(s: string, f: Fields, short: bool, i: nat, j: nat, k: nat, l: nat)
    requires WellFormed(f) && (short ==> f.day < 10)
    requires 3 < i && i + 3 < j < k < l && l + 4 == |s|
    requires s[..3] == WeekdayAbbrs[f.weekday] && s[i..i + 3] == MonthAbbrs[f.month - 1]
    requires Blank(s[3..i]) && Blank(s[i + 3..j]) && Blank(s[k..l])
    requires s[j..k] == DayText(f.day, short) && s[l..] == Digits(f.year, 4)
    ensures ParseFields(s) == Ok(f)
  {
    DayTextValue(f.day, short);
    assert s[j] == s[j..k][0];
    SpellHead(s, f, i, j);
    SpellDayYear(s, f, short, j, k, l);
  }

  /** Every spelling the pattern accepts parses into the fields it spells. */
  lemma SpellParses(f: Fields, a: string, b: string, c: string, short: bool)
    requires WellFormed(f) && (short ==> f.day < 10) && Blank(a) && Blank(b) && Blank(c)
    ensures ParseFields(Spell(f, a, b, c, short)) == Ok(f)
  {
    var d := DayText(f.day, short);
    var j := 6 + |a| + |b|;
    LowerAbbr(WeekdayAbbrs[f.weekday]);
    LowerAbbr(MonthAbbrs[f.month - 1]);
    DayTextValue(f.day, short);
    SpellLayout(WeekdayAbbrs[f.weekday], a, MonthAbbrs[f.month - 1], b, d, c, Digits(f.year, 4));
    LaidOutParses(Spell(f, a, b, c, short), f, short, 3 + |a|, j, j + |d|, j + |d| + |c|);
  }

  /** A text cut at six positions is the concatenation of its seven pieces. */
  lemma Pieces(t: string, p1: nat, p2: nat, p3: nat, p4: nat, p5: nat, p6: nat)
    requires p1 <= p2 <= p3 <= p4 <= p5 <= p6 <= |t|
    ensures t == t[..p1] + t[p1..p2] + t[p2..p3] + t[p3..p4] + t[p4..p5] + t[p5..p6] + t[p6..]
  {
    assert t[..p2] == t[..p1] + t[p1..p2];
    assert t[..p3] == t[..p2] + t[p2..p3];
    assert t[..p4] == t[..p3] + t[p3..p4];
    assert t[..p5] == t[..p4] + t[p4..p5];
    assert t[..p6] == t[..p5] + t[p5..p6];
    assert t == t[..p6] + t[p6..];
  }

  /** Lower-casing leaves whitespace and digits alone. */
  lemma LowerKeeps(s: string, p: nat, q: nat)
    requires p <= q <= |s| && (Blank(s[p..q]) || AllDigits(s[p..q]))
    ensures LowerAscii(s)[p..q] == s[p..q]
  {
    assert forall n :: p <= n < q ==> Lower(s[n]) == s[n] by {
      forall n | p <= n < q
        ensures Lower(s[n]) == s[n]
      {
        assert s[n] == s[p..q][n - p];
      }
    }
  }

  /** A text whose seven pieces are known is their concatenation. */
  lemma Assemble(t: string, w: string, a: string, m: string, b: string, d: string, c: string, y: string,
                 i: nat, j: nat, k: nat, l: nat)
    requires 3 <= i && i + 3 <= j <= k <= l <= |t|
    requires t[..3] == w && t[3..i] == a && t[i..i + 3] == m && t[i + 3..j] == b
    requires t[j..k] == d && t[k..l] == c && t[l..] == y
    ensures t == w + a + m + b + d + c + y
  {
    Pieces(t, 3, i, i + 3, j, k, l);
  }

  /** The lower-cased input, cut where the fields and blanks meet: only the abbreviations change. */
  lemma LowerCuts(s: string, i: nat, j: nat, k: nat, l: nat)
    requires 3 <= i && i + 3 <= j <= k <= l <= |s|
    requires Blank(s[3..i]) && Blank(s[i + 3..j]) && Blank(s[k..l])
    requires AllDigits(s[j..k]) && AllDigits(s[l..])
    ensures var t := LowerAscii(s);
      && t[..3] == LowerAscii(s[..3]) && t[3..i] == s[3..i] && t[i..i + 3] == LowerAscii(s[i..i + 3])
      && t[i + 3..j] == s[i + 3..j] && t[j..k] == s[j..k] && t[k..l] == s[k..l] && t[l..] == s[l..]
  {
    var t := LowerAscii(s);
    LowerKeeps(s, 3, i);
    LowerKeeps(s, i + 3, j);
    LowerKeeps(s, j, k);
    LowerKeeps(s, k, l);
    assert s[l..|s|] == s[l..] && t[l..|s|] == t[l..];
    LowerKeeps(s, l, |s|);
  }

  /** Put together from its pieces, the lower-cased input is a spelling of the fields. */
  lemma LowerPieces(s: string, f: Fields, i: nat, j: nat, k: nat, l: nat)
    requires WellFormed(f) && 3 <= i && i + 3 <= j <= k <= l && l + 4 == |s|
    requires k == j + 1 ==> f.day < 10
    requires LowerAscii(s[..3]) == WeekdayAbbrs[f.weekday] && LowerAscii(s[i..i + 3]) == MonthAbbrs[f.month - 1]
    requires Blank(s[3..i]) && Blank(s[i + 3..j]) && Blank(s[k..l])
    requires s[j..k] == DayText(f.day, k == j + 1) && s[l..] == Digits(f.year, 4)
    ensures LowerAscii(s) == Spell(f, s[3..i], s[i + 3..j], s[k..l], k == j + 1)
  {
    var t := LowerAscii(s);
    DayTextValue(f.day, k == j + 1);
    LowerCuts(s, i, j, k, l);
    Assemble(t, WeekdayAbbrs[f.weekday], s[3..i], MonthAbbrs[f.month - 1], s[i + 3..j],
             DayText(f.day, k == j + 1), s[k..l], Digits(f.year, 4), i, j, k, l);
  }

  /** The day text of a match: its one or two digits spell the day. */
  lemma MatchedDayText(s: string, j: nat)
    requires j <= |s| && MatchDay(s, j).Some?
    ensures var (d, k) := MatchDay(s, j).value;
      (k == j + 1 ==> d < 10) && s[j..k] == DayText(d, k == j + 1)
  {
    var (d, k) := MatchDay(s, j).value;
    if k == j + 1 {
      DecimalOfOne(s[j]);
      assert s[j..k] == [s[j]];
    } else {
      DigitsOfDecimal(s[j..k]);
    }
  }

  /** Digits written back at their own width give the same digits. */
  lemma {:induction false} DigitsOfDecimal(t: string)
    requires AllDigits(t)
    ensures Digits(DecimalValue(t), |t|) == t
  {
    if t != [] {
      var n := |t| - 1;
      var v := DecimalValue(t[..n]);
      DigitsOfDecimal(t[..n]);
      assert (10 * v + DigitValue(t[n])) / 10 == v;
      assert (10 * v + DigitValue(t[n])) % 10 == DigitValue(t[n]);
      assert t == t[..n] + [t[n]];
    }
  }

  /** A whitespace run that `\\s*` skips, when it is not empty, is a blank. */
  lemma SkippedBlank(s: string, i: nat)
    requires i <= |s| && SkipSpaces(s, i) != i
    ensures Blank(s[i..SkipSpaces(s, i)])
  {
  }

  /** The month of a match from `i` on, and the blank after it. */
  lemma MatchedMonth(s: string, w: nat, i: nat) returns (j: nat)
    requires w < 7 && 3 <= i <= |s| && MatchMonth(s, w, i).Some?
    ensures var f := MatchMonth(s, w, i).value.0;
      && 3 < i && i + 3 < j <= |s|
      && LowerAscii(s[i..i + 3]) == MonthAbbrs[f.month - 1] && Blank(s[i + 3..j])
      && MatchDayYear(s, w, f.month, j) == MatchMonth(s, w, i)
  {
    MatchMonthShape(s, w, i);
    var m := IndexOf(MonthAbbrs, LowerAscii(s[i..i + 3])).value;
    j := SkipSpaces(s, i + 3);
    MatchMonthStep(s, w, i, m);
    SkippedBlank(s, i + 3);
  }

  /** The weekday and month of an accepted input, and the blanks after them. */
  lemma ParsedHead(s: string) returns (i: nat, j: nat)
    requires ParseFields(s).Ok?
    ensures var f := ParseFields(s).value;
      && 3 < i && i + 3 < j <= |s|
      && LowerAscii(s[..3]) == WeekdayAbbrs[f.weekday] && LowerAscii(s[i..i + 3]) == MonthAbbrs[f.month - 1]
      && Blank(s[3..i]) && Blank(s[i + 3..j])
      && MatchDayYear(s, f.weekday, f.month, j) == Some((f, |s|))
  {
    var w := ParsedWeekday(s);
    i := SkipSpaces(s, 3);
    j := MatchedMonth(s, w, i);
    SkippedBlank(s, 3);
  }

  /** The weekday of an accepted input, and the match from the month on. */
  lemma ParsedWeekday(s: string) returns (w: nat)
    requires ParseFields(s).Ok?
    ensures |s| >= 3 && w < 7 && LowerAscii(s[..3]) == WeekdayAbbrs[w]
    ensures ParseFields(s).value.weekday == w
    ensures MatchMonth(s, w, SkipSpaces(s, 3)) == Some((ParseFields(s).value, |s|))
  {
    w := ParseFields(s).value.weekday;
    MatchFieldsStep(s, w);
  }

  /** The day and year of an accepted input, and the blank between them. */
  lemma ParsedTail(s: string, f: Fields, j: nat) returns (k: nat, l: nat)
    requires WellFormed(f) && j <= |s| && MatchDayYear(s, f.weekday, f.month, j) == Some((f, |s|))
    ensures j < k < l && l + 4 == |s| && (k == j + 1 ==> f.day < 10) && Blank(s[k..l])
    ensures s[j..k] == DayText(f.day, k == j + 1) && s[l..] == Digits(f.year, 4)
  {
    k := MatchDay(s, j).value.1;
    l := SkipSpaces(s, k);
    MatchedDayText(s, j);
    SkippedBlank(s, k);
    DigitsOfDecimal(s[l..l + 4]);
    assert s[l..] == s[l..l + 4];
  }

  /**
    Every accepted input is, up to letter case, one of the spellings of the
    fields it parses into: `a`, `b` and `c` are its whitespace runs.
  */
  lemma ParsedSpelling(s: string) returns (a: string, b: string, c: string, short: bool)
    requires ParseFields(s).Ok?
    ensures var f := ParseFields(s).value;
      && Blank(a) && Blank(b) && Blank(c) && (short ==> f.day < 10)
      && LowerAscii(s) == Spell(f, a, b, c, short)
  {
    var f := ParseFields(s).value;
    var i, j := ParsedHead(s);
    var k, l := ParsedTail(s, f, j);
    a, b, c, short := s[3..i], s[i + 3..j], s[k..l], k == j + 1;
    LowerPieces(s, f, i, j, k, l);
  }

  /**
    The parse gives the fields `f` exactly when the input is, up to letter
    case, a spelling of `f` with some whitespace runs and a day of one or two
    digits.
  */
  lemma ParseSpellings(s: string, f: Fields)
    ensures ParseFields(s) == Ok(f) <==>
      WellFormed(f) &&
      exists a, b, c, short :: Blank(a) && Blank(b) && Blank(c) && (short ==> f.day < 10) &&
        LowerAscii(s) == Spell(f, a, b, c, short)
  {
    if ParseFields(s) == Ok(f) {
      var a, b, c, short := ParsedSpelling(s);
    }
    if WellFormed(f) &&
       exists a, b, c, short :: (Blank(a) && Blank(b) && Blank(c) && (short ==> f.day < 10) &&
         LowerAscii(s) == Spell(f, a, b, c, short)) {
      var a, b, c, short :| Blank(a) && Blank(b) && Blank(c) && (short ==> f.day < 10) &&
        LowerAscii(s) == Spell(f, a, b, c, short);
      SpellParses(f, a, b, c, short);
      ParseCaseInsensitive(s);
    }
  }

  /** "Fri Feb 2 2024", with a one-digit day, names 2 February 2024. */
  lemma OneDigitDayExample()
    ensures ReformatDate("Fri Feb 2 2024") == Ok("2024-02-02")
  {
    var f := Fields(4, 2, 2, 2024);
    SpellFeb2();
    LowerFeb2();
    SpellParses(f, " ", " ", " ", true);
    ParseCaseInsensitive("Fri Feb 2 2024");
    IsoFeb02();
  }

  /** "Fri  Feb\t02 \n2024", with runs of mixed whitespace, names 2 February 2024. */
  lemma WhitespaceRunsExample()
    ensures ReformatDate("Fri  Feb\t02 \n2024") == Ok("2024-02-02")
  {
    var f := Fields(4, 2, 2, 2024);
    SpellFeb02Runs();
    LowerFeb02Runs();
    assert Blank("  ") && Blank("\t") && Blank(" \n");
    SpellParses(f, "  ", "\t", " \n", false);
    ParseCaseInsensitive("Fri  Feb\t02 \n2024");
    IsoFeb02();
  }

  lemma SpellFeb2()
    ensures Spell(Fields(4, 2, 2, 2024), " ", " ", " ", true) == "fri feb 2 2024"
  {
    Digits2024();
  }

  lemma SpellFeb02Runs()
    ensures Spell(Fields(4, 2, 2, 2024), "  ", "\t", " \n", false) == "fri  feb\t02 \n2024"
  {
    Digits02();
    Digits2024();
  }

  lemma LowerFeb2()
    ensures LowerAscii("Fri Feb 2 2024") == "fri feb 2 2024"
  {
    var s, t := "Fri Feb 2 2024", "fri feb 2 2024";
    assert forall k :: 0 <= k < 14 ==> Lower(s[k]) == t[k];
  }

  lemma LowerFeb02Runs()
    ensures LowerAscii("Fri  Feb\t02 \n2024") == "fri  feb\t02 \n2024"
  {
    var s, t := "Fri  Feb\t02 \n2024", "fri  feb\t02 \n2024";
    assert forall k :: 0 <= k < 17 ==> Lower(s[k]) == t[k];
  }

  // -------------------------------------------------------------- trailing text

  lemma {:induction false} SkipSpacesPrefix(s: string, t: string, i: nat)
    requires i <= |s| && SkipSpaces(s, i) < |s|
    ensures SkipSpaces(s + t, i) == SkipSpaces(s, i)
    decreases |s| - i
  {
    if IsSpace(s[i]) {
      SkipSpacesPrefix(s, t, i + 1);
    }
  }

  lemma MatchDayPrefix(s: string, t: string, j: nat)
    requires j <= |s| && MatchDay(s, j).Some?
    ensures MatchDay(s + t, j) == MatchDay(s, j)
  {
    var k := MatchDay(s, j).value.1;
    assert (s + t)[j..k] == s[j..k];
  }

  lemma MatchYearPrefix(s: string, t: string, l: nat)
    requires l <= |s| && MatchYear(s, l).Some?
    ensures MatchYear(s + t, l) == MatchYear(s, l)
  {
    assert (s + t)[l..l + 4] == s[l..l + 4];
  }

  lemma MatchDayYearPrefix(s: string, t: string, w: nat, m: nat, j: nat)
    requires w < 7 && 1 <= m <= 12 && j <= |s| && MatchDayYear(s, w, m, j).Some?
    ensures MatchDayYear(s + t, w, m, j) == MatchDayYear(s, w, m, j)
  {
    var k := MatchDay(s, j).value.1;
    MatchDayPrefix(s, t, j);
    var l := SkipSpaces(s, k);
    SkipSpacesPrefix(s, t, k);
    MatchYearPrefix(s, t, l);
  }

  lemma MatchMonthPrefix(s: string, t: string, w: nat, i: nat)
    requires w < 7 && 3 <= i <= |s| && MatchMonth(s, w, i).Some?
    ensures MatchMonth(s + t, w, i) == MatchMonth(s, w, i)
  {
    MatchMonthShape(s, w, i);
    var m := IndexOf(MonthAbbrs, LowerAscii(s[i..i + 3])).value;
    var j := SkipSpaces(s, i + 3);
    MonthPrefixHead(s, t, i, m);
    MatchMonthStep(s, w, i, m);
    MatchMonthStep(s + t, w, i, m);
    MatchDayYearPrefix(s, t, w, m + 1, j);
  }

  /** The month and the whitespace after it read the same with text appended. */
  lemma MonthPrefixHead(s: string, t: string, i: nat, m: nat)
    requires 3 < i && i + 3 <= |s| && IndexOf(MonthAbbrs, LowerAscii(s[i..i + 3])) == Some(m)
    requires i + 3 < SkipSpaces(s, i + 3) < |s|
    ensures IndexOf(MonthAbbrs, LowerAscii((s + t)[i..i + 3])) == Some(m)
    ensures SkipSpaces(s + t, i + 3) == SkipSpaces(s, i + 3)
  {
    assert (s + t)[i..i + 3] == s[i..i + 3];
    SkipSpacesPrefix(s, t, i + 3);
  }

  /** Text after a complete match is "unconverted data": the whole input is rejected. */
  lemma TrailingTextRejected(s: string, t: string)
    requires ParseFields(s).Ok? && t != []
    ensures ParseFields(s + t) == Err(UnconvertedData)
    ensures ReformatDate(s + t) == Err(UnconvertedData)
  {
    var u := s + t;
    assert u[..3] == s[..3];
    var w := IndexOf(WeekdayAbbrs, LowerAscii(s[..3])).value;
    var i := SkipSpaces(s, 3);
    SkipSpacesPrefix(s, t, 3);
    MatchMonthPrefix(s, t, w, i);
    assert MatchFields(u) == MatchFields(s);
  }

  // ------------------------------------------------------------------ examples

  /** The input spelled as a browser's `toDateString()` spells it. */
  lemma ExampleAccepted()
    ensures ReformatDate("Fri Feb 02 2024") == Ok("2024-02-02")
  {
    var f := Fields(4, 2, 2, 2024);
    ExampleSpellings();
    ReformatSpelled("Fri Feb 02 2024", f);
  }

  /** February 2024 has 29 days. */
  lemma ImpossibleDateRejected()
    ensures ReformatDate("Fri Feb 30 2024") == Err(DayOutOfRange)
  {
    var f := Fields(4, 2, 30, 2024);
    ExampleSpellings();
    ReformatSpelled("Fri Feb 30 2024", f);
  }

  lemma ExampleSpellings()
    ensures LowerAscii("Fri Feb 02 2024") == Render(Fields(4, 2, 2, 2024))
    ensures LowerAscii("Fri Feb 30 2024") == Render(Fields(4, 2, 30, 2024))
    ensures IsoDate(2024, 2, 2) == "2024-02-02"
  {
    RenderFeb02();
    RenderFeb30();
    LowerFeb02();
    LowerFeb30();
    IsoFeb02();
  }

  lemma LowerFeb02()
    ensures LowerAscii("Fri Feb 02 2024") == "fri feb 02 2024"
  {
    ExampleLower("Fri Feb 02 2024", "fri feb 02 2024");
  }

  lemma LowerFeb30()
    ensures LowerAscii("Fri Feb 30 2024") == "fri feb 30 2024"
  {
    ExampleLower("Fri Feb 30 2024", "fri feb 30 2024");
  }

  lemma RenderFeb02()
    ensures Render(Fields(4, 2, 2, 2024)) == "fri feb 02 2024"
  {
    Digits02();
    Digits2024();
  }

  lemma RenderFeb30()
    ensures Render(Fields(4, 2, 30, 2024)) == "fri feb 30 2024"
  {
    Digits30();
    Digits2024();
  }

  lemma IsoFeb02()
    ensures IsoDate(2024, 2, 2) == "2024-02-02"
  {
    Digits02();
    Digits2024();
  }

  lemma Digits2024()
    ensures Digits(2024, 4) == "2024"
  {
    assert Digits(2, 1) == "2";
  }

  lemma Digits02()
    ensures Digits(2, 2) == "02"
  {
  }

  lemma Digits30()
    ensures Digits(30, 2) == "30"
  {
  }

  /** Lower-casing "Fri Feb dd yyyy" touches only the two capitals. */
  lemma ExampleLower(s: string, t: string)
    requires |s| == |t| == 15 && s[0] == 'F' && s[4] == 'F' && t[0] == 'f' && t[4] == 'f'
    requires forall k :: 0 <= k < 15 && k != 0 && k != 4 ==> s[k] == t[k] && !('A' <= s[k] <= 'Z')
    ensures LowerAscii(s) == t
  {
  }

  /** An input that does not start with a known weekday abbreviation does not match. */
  lemma WeekdayRequired(s: string)
    requires |s| < 3 || LowerAscii(s[..3]) !in WeekdayAbbrs
    ensures ReformatDate(s) == Err(NoMatch)
  {
    if ParseFields(s).Ok? {
      AcceptedShape(s);
    }
  }

  /** An input that does not end in a four-digit year is rejected. */
  lemma YearRequired(s: string)
    requires |s| < 14 || !AllDigits(s[|s| - 4..])
    ensures ReformatDate(s).Err?
  {
    if ParseFields(s).Ok? {
      AcceptedShape(s);
    }
  }

  lemma UnknownWeekdayExample()
    ensures ReformatDate("Fry Feb 02 2024") == Err(NoMatch)
  {
    var s := "Fry Feb 02 2024";
    assert LowerAscii(s[..3]) == "fry";
    WeekdayRequired(s);
  }

  lemma MissingYearExample()
    ensures ReformatDate("Fri Feb 02") == Err(NoMatch)
  {
    YearRequired("Fri Feb 02");
  }
}
