# simple-counter: the day counter of `app.py`

`app.py` is a one-page Flask application. At start-up it reads a reference
date from `--date`. `parse_date` tries the formats `%Y-%m-%d`, `%d.%m.%Y`,
`%d/%m/%Y` and `%Y.%m.%d` in that order with `datetime.strptime`. The
first one that accepts the text wins. If none does, the program prints an
error and exits. Each request to `/` shows three values:

- the whole days from the reference date to today, `(today - DEFAULT_DATE).days`;
- the reference date, written `strftime('%d.%m.%Y')`;
- today, written the same way.

If no reference date is stored, the request first stores today's date.

The model has five modules.

- `Wrappers`: the `Option` type. `None` stands for the `ValueError` and
  `sys.exit` paths.
- `Digits`: ASCII digits, zero-padding (`Pad`), and the value `int()` reads
  from a run of digits. `int()` allows leading blanks, which matters for
  the ` [1-9]` form of `%d`.
- `Calendar`: `datetime.date` validity (years 1 to 9999, the Gregorian
  leap rule) and `toordinal` (`DayNumber`, by the closed formula Python
  uses). Date subtraction is the difference of two ordinals. It also has the
  next calendar day.
- `DateFormats`: the regular-expression stage of `strptime` for the four
  formats, written as a backtracking matcher (`MatchFrom` and
  `TryAlternative`).
  - Each directive tries its alternatives in the order CPython's `_strptime`
    lists them:
    - `%Y` is `\d\d\d\d`;
    - `%m` is `1[0-2]|0[1-9]|[1-9]`;
    - `%d` is `3[01]|[12]\d|0[1-9]|[1-9]| [1-9]`.
  - As with `re.match`, the match may stop before the end of the text.
  - `Scan` rejects a match that does not reach the end ("unconverted data
    remains").
  - `Strptime` then rejects fields that name no real date.
  - `Writes` is an independent, declarative description of the texts a
    format accepts. Each field is in one of the spellings its directive
    allows, and the fields are joined by the format's separator.
  - `ScanSpec` and `StrptimeSpec` prove that the matcher accepts exactly
    these texts.
- `Counter`: `parse_date` (`ParseDate`) and the display form
  (`DisplayDate`). The module-level `DEFAULT_DATE` becomes the field of
  class `Server`. `Configure` is the assignment in `main`, and `Index` is
  the request handler.

The code does not trim whitespace before parsing. The model follows the
code:

- ` 2024-01-01` and `2024-01-01 ` are rejected;
- a single blank before a one-digit day is accepted, because `%d` allows it
  (` 5.01.2024`).

Proved, among other things:

- Parsing returns a date exactly when the date is real and the text spells
  it in one of the four formats (`ParseDateSpec`). Parsing fails exactly
  when no format spells a real date (`ParseDateFails`).
- The formats are mutually exclusive: no text passes the regular-expression
  stage of two of them (`ScanExclusive`). So the order in which
  `parse_date` tries them never changes the result: any list containing
  every format gives the same answer (`OrderIrrelevant`).
- A text with one format's shape but an impossible date is turned down.
  No later format accepts it either (`ImpossibleDateRejected`,
  `February30Rejected`, `YearZeroRejected`).
- A text that no directive matches fails (`Month13Rejected`).
- Every `strftime` output parses back to its date, including the displayed
  form (`FormatRoundTrip`, `DisplayRoundTrip`).
- The day difference is 0 exactly for equal dates. It is negative exactly
  when the reference date is later than today, and swapping the dates
  negates it (`DaysDiffSign`). It grows by one per calendar day
  (`DaysDiffNextDay`).
- A first request whose two clock readings fall on the same day shows 0
  (`UnsetReferenceShowsZero`). The same request shows 1 when the readings
  straddle midnight (`MidnightFirstRequest`).

## Model

| member | source | states |
|---|---|---|
| Digits.IntValue | app.py:22 | `int()` of a numeral with leading blanks; DecimalPad and SpelledText state what it reads |
| Digits.PadDecimal | app.py:45-46 | a number below 10^width, zero-padded to `width`, is exactly `width` digits that read back as the number |
| Digits.DecimalPad | app.py:22 | conversely, every run of digits is the zero-padding of the value `int()` reads from it, and that value fits the width |
| Calendar.ValidDate | app.py:22 | the check the `date` constructor applies to the parsed fields: year 1 to 9999, month 1 to 12, day within the month; with DaysInMonth it decides StrptimeSpec's validity condition |
| Calendar.DayNumber | app.py:40 | `date.toordinal` by the closed formula; its promises are carried by DayNumberCounts, DayNumberIncreasing and DayNumberRange |
| Calendar.DaysDiff | app.py:40 | `(today - DEFAULT_DATE).days` as the difference of ordinals; its promises are carried by DaysDiffSign and DaysDiffNextDay |
| Calendar.DaysInMonth | app.py:22 | the days the date constructor allows in a month: 28 to 31, and 29 exactly for February of a leap year |
| Calendar.NextDay | app.py:36-39 | the next calendar day is later; it is a valid date exactly when the day is not 9999-12-31 |
| Calendar.DayNumberCounts | app.py:40 | the ordinal formula used by date subtraction equals the year lengths and month lengths before the date summed one at a time, plus the day |
| Calendar.DayNumberIncreasing | app.py:40 | a chronologically later date has a strictly larger ordinal |
| Calendar.DayNumberRange | app.py:40 | ordinals run from 1 (0001-01-01) to 3652059 (9999-12-31) |
| Calendar.DaysDiffSign | app.py:40 | `(today - reference).days` is 0 iff the dates are equal, negative iff the reference is after today, positive iff before, and antisymmetric |
| Calendar.DaysDiffNextDay | app.py:39-40 | moving today one calendar day on adds exactly 1 to the difference |
| DateFormats.Alternatives | app.py:22 | the group expressions `strptime` builds for `%Y`, `%m` and `%d`, alternatives in CPython's order; SpelledText and TextSpelled state which texts they accept |
| DateFormats.Fields | app.py:22 | `int()` applied to the matched groups, every field left unset keeping 1900-01-01; FieldsLayout places the year, month and day of each format |
| DateFormats.Scan | app.py:22 | `re.match` of the format's expression and the "unconverted data remains" check; ScanSpec states exactly which texts it accepts and with which fields |
| DateFormats.MatchFrom | app.py:22 | a match found by the backtracking engine splits a prefix of the text into one piece per directive, each piece a text its directive's group matches |
| DateFormats.TryAlternative | app.py:22 | trying the alternatives of the first group from the k-th on yields only such splittings |
| DateFormats.SpelledText | app.py:22 | every text a numeric group matches is a numeral, and one of the allowed spellings of the value `int()` reads from it |
| DateFormats.TextSpelled | app.py:22 | conversely, every allowed spelling of a value is matched by its group and reads back as that value |
| DateFormats.MatchComplete | app.py:22 | spelled pieces, each numeric one followed by a non-digit or the end, are matched exactly as split, up to the end of the text |
| DateFormats.Strptime | app.py:22 | every date `strptime(...).date()` returns is a valid date |
| DateFormats.Strftime | app.py:45-46 | `strftime` writes the date's fields in the format, ten characters long, in one of the spellings the format accepts, every character a digit or the separator, so day and month are zero-padded |
| DateFormats.ScanSpec | app.py:20-22 | the regular-expression stage with the whole-text check yields the fields `dt` exactly when the text writes `dt` in that format |
| DateFormats.StrptimeSpec | app.py:21-24 | `strptime` with one format returns `dt` exactly when `dt` is valid and the text writes it in that format; otherwise the ValueError path is taken |
| DateFormats.WritesSeparator | app.py:20 | year-first formats have their separator at position 4, day-first formats at position 1 or 2, after digits and blanks only |
| DateFormats.WritesExclusive | app.py:20 | no text writes a date in two different formats |
| DateFormats.ScanExclusive | app.py:20 | no text passes the regular-expression stage of two different formats |
| Counter.FirstParse | app.py:20-25 | the loop over the formats fails exactly when every format rejects the text, and a date it returns is valid |
| Counter.FirstParseAt | app.py:20-24 | the first format that accepts the text decides the result |
| Counter.FirstParseWinner | app.py:20-24 | a successful parse comes from some format that accepts the text, with every earlier format rejecting it |
| Counter.ParseDate | app.py:16-28 | every date `parse_date` returns is valid |
| Counter.ParseDatePriority | app.py:20-22 | with the fixed order ISO, day-first dotted, day-first slashed, year-first dotted, the first accepting format decides |
| Counter.OnlyOneFormat | app.py:20-24 | a text one format accepts is rejected by every other |
| Counter.OrderIrrelevant | app.py:20-24 | the loop over any list of formats that contains all four gives the same result as `parse_date`, so the order of line 20 never matters |
| Counter.ParseDateSpec | app.py:16-28 | `parse_date(s)` returns `dt` exactly when `dt` is a real date and `s` writes it in one of the four formats |
| Counter.ParseDateComplete | app.py:16-25 | every spelling of a real date in any of the four formats parses to that date |
| Counter.ParseDateFails | app.py:25-28 | `parse_date` takes the error-and-exit path exactly when no format writes a real date as the text |
| Counter.ImpossibleDateRejected | app.py:21-25 | a text one format's expression matches whole, but whose fields name no real date, is rejected, and no later format accepts it |
| Counter.FormatRoundTrip | app.py:20-22 | a valid date written by `strftime` in any of the four formats parses back to the same date |
| Counter.DisplayDate | app.py:45-46 | the displayed text is ten characters: two digits of day, a dot, two digits of month, a dot, four digits of year, reading back as the date's fields |
| Counter.DisplayRoundTrip | app.py:45-46 | the displayed form of a date parses back to that date |
| Counter.FourSpellingsOfNewYear | app.py:20-22 | 2024-01-01, 01.01.2024, 01/01/2024 and 2024.01.01 all parse to 1 January 2024 |
| Counter.PaddedFieldsRejected | app.py:21-25 | in-range fields naming no real date, written zero-padded in any format, fail to parse |
| Counter.February30Rejected | app.py:21-25 | `2024-02-30` has the ISO shape but fails to parse |
| Counter.YearZeroRejected | app.py:21-25 | `0000-01-01` has the ISO shape but fails to parse, since year 0 does not exist |
| Counter.Month13Rejected | app.py:20-25 | `2024-13-01` matches no format's expression and fails to parse |
| Counter.ResolveReference | app.py:35-40 | the reference date a request uses is a valid date whenever the stored one and the clock reading are; with nothing stored it is the clock's day, so the difference to that day is 0 |
| Counter.Render | app.py:42-46 | the context: the day difference and both dates written DD.MM.YYYY; its promises are carried by RenderSign, DisplayDate and DisplayRoundTrip |
| Counter.Server.constructor | app.py:14 | the module starts with no reference date |
| Counter.Server.Configure | app.py:66 | the parsed `--date` is stored when it parses; otherwise the process would exit and nothing is stored |
| Counter.Server.Index | app.py:31-47 | the request stores the first clock reading when no date is stored, and renders the day difference and both dates written DD.MM.YYYY; with nothing stored and equal readings the count is 0 |
| Counter.UnsetReferenceShowsZero | app.py:35-40 | with no stored reference and both readings on the same day, the page shows 0 and the same date twice |
| Counter.MidnightFirstRequest | app.py:35-40 | when the two clock readings of a first request fall on consecutive days, the page shows 1 |
| Counter.RenderSign | app.py:40-44 | the count shown is negative iff the reference date is after today, 0 iff equal, positive iff before |

## Left out

- The Flask application (`app.route`, `render_template`, `app.run`) and the
  `--host` and `--port` arguments of `argparse` are not modelled. They are
  framework and network code with no logic of the program in them.
- The diagnostic `print` calls and the `sys.exit(1)` of `parse_date` are
  not modelled. Exiting is modelled as `None` from `ParseDate`, and as
  `false` from `Server.Configure`, which then stores nothing. Standard
  output is I/O.
- Concurrent requests are not modelled. Flask's `app.run` serves requests
  on threads by default, so two first requests can interleave the test of
  `DEFAULT_DATE` at line 35 with the assignment at line 36. `Server.Index`
  performs the whole request as one indivisible step.
- `date.today()` is not read. Both of its readings in `index` (lines 36 and
  39) are parameters of `Server.Index`, because the clock is outside the
  program.
- Python's `\d` also matches non-ASCII decimal digits such as Arabic-Indic
  ones, and `int()` reads them. The model accepts ASCII digits only.
  Unicode digit classes are not modelled.
- DateFormats.Strftime: it always writes `%Y` as four digits. CPython on
  glibc writes years below 1000 without leading zeros, so `0999` would be
  written `999`. The round-trip lemmas assume the four-digit form.
- Counter.DisplayDate: it inherits the four-digit `%Y` of `Strftime`, with
  the same proviso for years below 1000.
- The `except Exception` at line 26 also catches errors other than
  `ValueError`. With a string argument, none of them can arise here, so the
  model has no case for them.
- `strptime` features the four formats do not use are not modelled: other
  directives, whitespace in the format, case-insensitive letters, and the
  `%` escapes.
