# reflex-calendar, modelled in Dafny

reflex-calendar wraps the `react-calendar` widget as a Reflex component. This
project models the three parts of it that hold logic of their own:

- **`reformat_date`** (`date_format.dfy`, module `DateFormat`). The function
  reads a date spelled `"%a %b %d %Y"`, as a browser's `toDateString()`
  spells it (`"Fri Feb 02 2024"`), and writes it back as `"%Y-%m-%d"`
  (`"2024-02-02"`). The parser follows the regular expression that CPython's
  `strptime` builds for that format:
  - every blank in the format matches a run of whitespace;
  - the weekday and month abbreviations match in any letter case;
  - the day tries its alternatives in the library's order;
  - the year takes exactly four digits;
  - text left after the match is an error.

  A date that does not exist (year 0, or 30 February) is an error, as the
  `datetime` constructor has it. Every error the source raises is a
  `DateError` value here.
- **The event specs and `Calendar.create`** (`event_specs.dfy`,
  `calendar_create.dfy`).
  - The ten specs are string builders over the JavaScript name of the
    payload. An independent decoder, `ArgumentOf`, reads that name back from
    each spec's output.
  - `create` is a method that pops `style`, `color` and `background_color`
    from the caller's props. It puts the two colours into the style, with the
    accent colours as defaults, and returns the rewritten props. A `style`
    that is not a dict raises a TypeError in the source; here it is an `Err`.
- **The demo state `Foo`** (`calendar_demo.dfy`, module `CalendarDemo`).
  - `Foo` is a class with the fields `selectedDate` and `logs`. Its invariant
    is that the log holds at most 20 entries.
  - Every handler goes through `AddLog`, which is specified by the function
    `LogAppended`.
  - The lemma `ReplayKeepsNewest` proves that any run of appends leaves the
    20 newest entries, in the order they arrived.
  - Handlers that index their payload take a `Payload`. A payload is a
    record of fields or a scalar, and indexing can raise a KeyError or a
    TypeError.

`wrappers.dfy` holds the `Option` and `Result` types that the modules share.

## Model

| member | source | states |
|---|---|---|
| DateFormat.ReformatDate | custom_components/reflex_calendar/calendar.py:245-247 | Succeeds exactly when the text matches the pattern and names a real date. The output then reads back (through `ReadIso`) as the parsed year, month number (Jan = 1) and day. A match failure or trailing text is passed on as the error; year 0 is out of range; a day past the end of its month is a day-range error. |
| DateFormat.ParseFields | custom_components/reflex_calendar/calendar.py:247 | The parse stage of `strptime`. Success means the pattern matched the whole text, and gives fields in range: weekday < 7, month 1..12, day 1..31, year <= 9999. A failure is either "does not match" or "unconverted data remains". Which fields come out of which text is stated by `ParseSpellings`. |
| DateFormat.MatchFields | custom_components/reflex_calendar/calendar.py:247 | The pattern matched at the start of the text gives well-formed fields and an end position inside the text. The weekday is the table position of the first three characters, lower-cased. |
| DateFormat.MatchMonth | custom_components/reflex_calendar/calendar.py:247 | The `%b` stage after the weekday and its whitespace; a match gives well-formed fields and keeps the weekday already read. |
| DateFormat.MatchDayYear | custom_components/reflex_calendar/calendar.py:247 | The `%d`, whitespace and `%Y` stages; a match gives well-formed fields and keeps the weekday and month already read. |
| DateFormat.MatchDay | custom_components/reflex_calendar/calendar.py:247 | `%d` takes one or two digits followed by whitespace. The day is their decimal value and lies in 1..31. |
| DateFormat.MatchYear | custom_components/reflex_calendar/calendar.py:247 | `%Y` takes exactly four digits; the year is their decimal value, at most 9999. |
| DateFormat.IndexOf | custom_components/reflex_calendar/calendar.py:247 | The index of an abbreviation in the day or month table. It is the first position holding that abbreviation; no result means the table lacks it. |
| DateFormat.SkipSpaces | custom_components/reflex_calendar/calendar.py:247 | A blank in the format consumes the longest run of whitespace, and nothing else. |
| DateFormat.DaysInMonth | custom_components/reflex_calendar/calendar.py:247 | A month has 28 to 31 days. It has 29 exactly for February of a proleptic Gregorian leap year. |
| DateFormat.DigitsRoundTrip | custom_components/reflex_calendar/calendar.py:247 | A number below 10^width, written zero-padded to that width, reads back as the same number. |
| DateFormat.ReadIsoDate | custom_components/reflex_calendar/calendar.py:247 | The `%Y-%m-%d` output reads back as the year, month and day it was written from. |
| DateFormat.MatchDayAccepts | custom_components/reflex_calendar/calendar.py:247 | The day alternatives accept every one- or two-digit day from 1 to 31 that is followed by whitespace. |
| DateFormat.ParseRendered | custom_components/reflex_calendar/calendar.py:247 | Parsing the canonical spelling of any well-formed fields gives back exactly those fields. |
| DateFormat.ReformatRendered | custom_components/reflex_calendar/calendar.py:245-247 | For every canonical input: a year-range error for year 0; a day-range error past the month's end; otherwise the ISO date, whatever the weekday. |
| DateFormat.ReformatSpelled | custom_components/reflex_calendar/calendar.py:245-247 | The same result for the canonical spelling written in any letter case, such as the capitalised abbreviations a browser writes. |
| DateFormat.SpellParses | custom_components/reflex_calendar/calendar.py:247 | Every spelling of well-formed fields parses back to exactly those fields. Such a spelling has any non-empty whitespace runs between the fields and the day in two digits, or in one digit for days 1 to 9. |
| DateFormat.ParsedSpelling | custom_components/reflex_calendar/calendar.py:247 | Every accepted input, lower-cased, is a spelling of the fields it parses into. The lemma returns that spelling's whitespace runs and day width. |
| DateFormat.ParseSpellings | custom_components/reflex_calendar/calendar.py:247 | The parse gives the fields `f` exactly when `f` is well-formed and the input, up to letter case, is a spelling of `f`. Both directions are proved. |
| DateFormat.OneDigitDayExample | custom_components/reflex_calendar/calendar.py:245-247 | "Fri Feb 2 2024" becomes "2024-02-02". |
| DateFormat.WhitespaceRunsExample | custom_components/reflex_calendar/calendar.py:245-247 | `"Fri  Feb\t02 \n2024"`, with a double blank, a tab and a blank before a newline, becomes "2024-02-02". |
| DateFormat.AcceptedShape | custom_components/reflex_calendar/calendar.py:247 | Every accepted input is at least 14 characters long. It starts with a known weekday abbreviation followed by whitespace and ends in the four digits of its year. |
| DateFormat.ParseCaseInsensitive | custom_components/reflex_calendar/calendar.py:247 | Lower-casing the input never changes the parse result. |
| DateFormat.TrailingTextRejected | custom_components/reflex_calendar/calendar.py:247 | Any text appended to an accepted input makes it rejected as unconverted data. |
| DateFormat.ExampleAccepted | custom_components/reflex_calendar/calendar.py:245-247 | "Fri Feb 02 2024" becomes "2024-02-02". |
| DateFormat.ImpossibleDateRejected | custom_components/reflex_calendar/calendar.py:247 | "Fri Feb 30 2024" is rejected as a day out of range. |
| DateFormat.WeekdayRequired | custom_components/reflex_calendar/calendar.py:247 | Input that does not start with a known weekday abbreviation does not match. |
| DateFormat.YearRequired | custom_components/reflex_calendar/calendar.py:247 | Input that does not end in a four-digit year is rejected. |
| DateFormat.UnknownWeekdayExample | custom_components/reflex_calendar/calendar.py:247 | "Fry Feb 02 2024" does not match. |
| DateFormat.MissingYearExample | custom_components/reflex_calendar/calendar.py:247 | "Fri Feb 02" does not match. |
| EventSpecs.Spec | custom_components/reflex_calendar/calendar.py:16-61 | Every event spec returns a list of exactly one expression. |
| EventSpecs.SpecRoundTrip | custom_components/reflex_calendar/calendar.py:16-61 | For each of the ten events, the payload name can be read back from the spec's output. |
| EventSpecs.SpecInjective | custom_components/reflex_calendar/calendar.py:16-61 | Distinct payload names give distinct spec outputs, for every event. |
| EventSpecs.ClickMonthOneBased | custom_components/reflex_calendar/calendar.py:36-37 | The clicked month is JavaScript's zero-based `getMonth()` plus one. |
| EventSpecs.YearAndDecadeAgree | custom_components/reflex_calendar/calendar.py:44-49 | The click-year and click-decade specs emit the same `getFullYear()` expression. |
| EventSpecs.DrillsAgree | custom_components/reflex_calendar/calendar.py:52-57 | The drill-down and drill-up specs emit the same `.view` expression. |
| EventSpecs.ViewChangeIsIdentity | custom_components/reflex_calendar/calendar.py:60-61 | The view-change spec passes its argument on unchanged. |
| CalendarCreate.Pop | custom_components/reflex_calendar/calendar.py:234-236 | `dict.pop(key, default)` returns the value stored under the key, or the default, and the map without the key. |
| CalendarCreate.Create | custom_components/reflex_calendar/calendar.py:232-239 | Fails exactly when the given `style` is not a dict. On success: the children are kept; `style.color` is the caller's `color` or accent 11, and `style.background_color` the caller's value or accent 1. The caller's other style entries are kept. Top-level `color` and `background_color` are gone, every other prop is untouched, and no key is added except `style`. |
| CalendarDemo.LogAppended | calendar_demo/calendar_demo/calendar_demo.py:51-54 | The new entry is last, and a log of at most 20 entries stays at most 20. Below 20, the old entries are kept as a prefix and the length grows by one. At 20, only the oldest entry goes and the other 19 keep their order. |
| CalendarDemo.AppendKeepsNewest | calendar_demo/calendar_demo/calendar_demo.py:51-54 | One append leaves the 20 newest of the old entries and the new one. |
| CalendarDemo.ReplayKeepsNewest | calendar_demo/calendar_demo/calendar_demo.py:51-54 | After any sequence of appends, the log holds the 20 newest of everything logged, in arrival order. |
| CalendarDemo.TwentyFirstEvictsFirst | calendar_demo/calendar_demo/calendar_demo.py:53-54 | Appending to a full log drops index 0 and appends the entry. |
| CalendarDemo.ContainsAt | calendar_demo/calendar_demo/calendar_demo.py:17 | The substring test holds exactly when the part occurs at some position of the string. |
| CalendarDemo.DrillActionsAreIgnored | calendar_demo/calendar_demo/calendar_demo.py:17 | "drillDown" and "drillUp" contain "drill". The navigation actions "prev", "prev2", "next" and "next2" do not. |
| CalendarDemo.Foo.constructor | calendar_demo/calendar_demo/calendar_demo.py:8-10 | A new state has an empty selected date and an empty log. |
| CalendarDemo.Foo.AddLog | calendar_demo/calendar_demo/calendar_demo.py:51-55 | The log becomes `LogAppended` of the old log, the 20-entry cap is preserved, and the selected date is unchanged. |
| CalendarDemo.Foo.ClearLogs | calendar_demo/calendar_demo/calendar_demo.py:48-49 | The log becomes empty and the selected date is unchanged. |
| CalendarDemo.Foo.ChangeHandler | calendar_demo/calendar_demo/calendar_demo.py:12-14 | Sets the selected date to the value and appends "Changed selected date: " and the value. |
| CalendarDemo.Foo.ActiveStartDateChangeHandler | calendar_demo/calendar_demo/calendar_demo.py:16-22 | A scalar payload raises TypeError, and a missing action raises KeyError. An action containing "drill" changes nothing. Otherwise a missing start date raises KeyError; if present, exactly "Changed active start date to <start> (<action>)" is appended. The selected date never changes. |
| CalendarDemo.Foo.ClickDayHandler | calendar_demo/calendar_demo/calendar_demo.py:24-25 | Appends "Clicked day " and the day; the selected date is unchanged. |
| CalendarDemo.Foo.ClickMonthHandler | calendar_demo/calendar_demo/calendar_demo.py:27-28 | Appends "Clicked month " and the month; the selected date is unchanged. |
| CalendarDemo.Foo.ClickDecadeHandler | calendar_demo/calendar_demo/calendar_demo.py:30-31 | Appends "Clicked decade " and the value; the selected date is unchanged. |
| CalendarDemo.Foo.ClickYearHandler | calendar_demo/calendar_demo/calendar_demo.py:33-34 | Appends "Clicked year " and the year; the selected date is unchanged. |
| CalendarDemo.Foo.ClickWeekNumberHandler | calendar_demo/calendar_demo/calendar_demo.py:36-37 | Appends "Clicked week number " and the payload's `week_number` field. A scalar payload raises TypeError and a missing field raises KeyError, leaving the log as it was. |
| CalendarDemo.Foo.DrillDownHandler | calendar_demo/calendar_demo/calendar_demo.py:39-40 | Appends "Drilled down to: <view> view"; the selected date is unchanged. |
| CalendarDemo.Foo.DrillUpHandler | calendar_demo/calendar_demo/calendar_demo.py:42-43 | Appends "Drilled up to: <view> view"; the selected date is unchanged. |
| CalendarDemo.Foo.ViewChangeHandler | calendar_demo/calendar_demo/calendar_demo.py:45-46 | Appends "View changed to: " and the payload's `view` field. A scalar payload raises TypeError and a missing field raises KeyError, leaving the log as it was. |

## Left out

- DateFormat.ReformatDate: only the default output format "%Y-%m-%d" is modelled. The year is always written with four digits; some C libraries' `strftime` write years below 1000 without padding.
- DateFormat.ReformatDate: only the English (C locale) day and month abbreviations are modelled.
- DateFormat.ParseFields: `\d` also matches non-ASCII decimal digits and IGNORECASE folds a few non-ASCII letters (the long s, the Kelvin sign) onto ASCII ones. Only ASCII digits and ASCII case are modelled.
- DateFormat.ReformatDate: the source annotates the result as a `datetime`, but it returns the formatted string. The model follows the code.
- The weekday is parsed but never compared with the date, as in the source. "Mon Feb 02 2024" is accepted as 2 February 2024.
- CalendarCreate.Create: the caller's `style` dict is updated in place, so a caller holding that dict sees the new colours. The model returns the new style by value and does not capture that aliasing. It also leaves out the construction of the component itself (`cls(*children, **props)`), which is framework code.
- `rx.Var`, `rx.cond`, `rx.color` and `rx.toast` are opaque constructors. The emitted JavaScript is modelled only as text; what `toDateString`, `getDate`, `getMonth` and the other calls compute in the browser is not modelled.
- CalendarDemo.Foo.AddLog: the toast that `add_log` returns for display is not modelled; the handlers' return values are left out with it.
- Handlers receive the text of their argument. A payload that is indexed is a record of text fields or a scalar. Python's string formatting of other values is not modelled.
- The week-number spec emits the weekday number (`getDay()`), while the demo handler indexes a `week_number` field. Each side is modelled as written: given a scalar payload, `ClickWeekNumberHandler` raises TypeError.
- The declarations of the component's props (custom_components/reflex_calendar/calendar.py:86-221) and `add_imports` (223-229) are framework and stylesheet plumbing.
- The page layout functions of the demo (`logs`, `demo`, `index`, `app`) build the user interface only.
- Concurrency between event handlers, which the framework serialises per session, is not modelled.
