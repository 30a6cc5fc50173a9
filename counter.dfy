/**
 * The day counter of `app.py`: the reference date is parsed from the command
 * line by trying four formats in turn, and each request shows the whole days
 * from the reference date to today, both dates written as DD.MM.YYYY.
 */
module Counter {
  import opened Wrappers
  import opened Digits
  import opened Calendar
  import opened DateFormats

  /** The formats `parse_date` tries, in order. */
  const TRIED_FORMATS: seq<Format> := [IsoDashed, DayFirstDotted, DayFirstSlashed, YearFirstDotted]

  /**
   * The result of the first format in `fs` that accepts `s`; None when none
   * does (where `parse_date` prints an error and exits).
   */
  function FirstParse(fs: seq<Format>, s: string): (r: Option<Date>)
    ensures r.None? <==> forall i :: 0 <= i < |fs| ==> Strptime(fs[i], s).None?
    ensures r.Some? ==> ValidDate(r.value)
  {
    if fs == [] then None
    else
      match Strptime(fs[0], s)
      case Some(dt) => Some(dt)
      case None =>
        var r := FirstParse(fs[1..], s);
        assert forall i :: 1 <= i < |fs| ==> fs[i] == fs[1..][i - 1];
        r
  }

  /** `parse_date(s)`, with None for the failure path. */
  function ParseDate(s: string): (r: Option<Date>)
    ensures r.Some? ==> ValidDate(r.value)
  {
    FirstParse(TRIED_FORMATS, s)
  }

  /** `strftime('%d.%m.%Y')`, the form both dates are shown in. */
  function DisplayDate(dt: Date): (r: string)
    requires ValidDate(dt)
    ensures |r| == 10 && r[2] == '.' && r[5] == '.'
    ensures AllDigits(r[..2]) && DecimalValue(r[..2]) == dt.day
    ensures AllDigits(r[3..5]) && DecimalValue(r[3..5]) == dt.month
    ensures AllDigits(r[6..]) && DecimalValue(r[6..]) == dt.year
  {
    PadDecimal(dt.day, 2);
    PadDecimal(dt.month, 2);
    PadDecimal(dt.year, 4);
    var r := Strftime(DayFirstDotted, dt);
    DottedFields(r, Pad(dt.day, 2), Pad(dt.month, 2), Pad(dt.year, 4));
    r
  }

  /** Where the three fields of a DD.MM.YYYY text sit. */
  lemma DottedFields(r: string, d: string, m: string, y: string)
    requires |d| == 2 && |m| == 2 && |y| == 4 && r == d + "." + m + "." + y
    ensures |r| == 10 && r[2] == '.' && r[5] == '.'
    ensures r[..2] == d && r[3..5] == m && r[6..] == y
  {
    assert r == d + ("." + (m + ("." + y)));
  }

  /** What a request renders: the day count and the two dates. */
  datatype Page = Page(daysDiff: int, targetDate: string, today: string)

  function Render(reference: Date, today: Date): Page
    requires ValidDate(reference) && ValidDate(today)
  {
    Page(DaysDiff(today, reference), DisplayDate(reference), DisplayDate(today))
  }

  /** The reference date a request uses: the stored one, or today's when none is stored. */
  function ResolveReference(stored: Option<Date>, clock: Date): (r: Date)
    ensures ValidDate(clock) && (stored.Some? ==> ValidDate(stored.value)) ==> ValidDate(r)
    ensures stored.None? && ValidDate(clock) ==> DaysDiff(clock, r) == 0
  {
    match stored
    case Some(dt) => dt
    case None => clock
  }

  /** The module-level `DEFAULT_DATE` and the two functions that assign it. */
  class Server {
    var defaultDate: Option<Date>

    ghost predicate Valid()
      reads this
    {
      defaultDate.Some? ==> ValidDate(defaultDate.value)
    }

    /** The module starts with no reference date. */
    constructor ()
      ensures Valid() && defaultDate == None
    {
      defaultDate := None;
    }

    /**
     * `main` stores the parsed `--date` argument; a text no format accepts
     * makes the process exit, reported here as `ok == false` with nothing stored.
     */
    method Configure(arg: string) returns (ok: bool)
      requires Valid()
      modifies this
      ensures Valid()
      ensures ok <==> ParseDate(arg).Some?
      ensures ok ==> defaultDate == ParseDate(arg)
      ensures !ok ==> defaultDate == old(defaultDate)
    {
      var parsed := ParseDate(arg);
      ok := parsed.Some?;
      if ok {
        defaultDate := parsed;
      }
    }

    /**
     * `index`: the first clock reading becomes the reference date when none is
     * stored; the second is today. The page counts the days between them.
     */
    method Index(firstReading: Date, secondReading: Date) returns (page: Page)
      requires Valid() && ValidDate(firstReading) && ValidDate(secondReading)
      modifies this
      ensures Valid()
      ensures defaultDate == Some(ResolveReference(old(defaultDate), firstReading))
      ensures page == Render(defaultDate.value, secondReading)
      ensures old(defaultDate).None? && firstReading == secondReading ==> page.daysDiff == 0
    {
      if defaultDate.None? {
        defaultDate := Some(firstReading);
      }
      var today := secondReading;
      page := Render(defaultDate.value, today);
      DaysDiffSign(today, defaultDate.value);
    }
  }

  // Lemmas about parse_date

  lemma {:induction false} FirstParseAt(fs: seq<Format>, s: string, i: nat)
    requires i < |fs| && Strptime(fs[i], s).Some?
    requires forall j :: 0 <= j < i ==> Strptime(fs[j], s).None?
    ensures FirstParse(fs, s) == Strptime(fs[i], s)
  {
    if i > 0 {
      assert Strptime(fs[0], s).None?;
      forall j | 0 <= j < i - 1
        ensures Strptime(fs[1..][j], s).None?
      {
        assert fs[1..][j] == fs[j + 1];
      }
      FirstParseAt(fs[1..], s, i - 1);
    }
  }

  lemma {:induction false} FirstParseWinner(fs: seq<Format>, s: string) returns (i: nat)
    requires FirstParse(fs, s).Some?
    ensures i < |fs| && FirstParse(fs, s) == Strptime(fs[i], s)
    ensures forall j :: 0 <= j < i ==> Strptime(fs[j], s).None?
  {
    if Strptime(fs[0], s).Some? {
      i := 0;
    } else {
      var k := FirstParseWinner(fs[1..], s);
      i := k + 1;
      forall j | 0 <= j < i
        ensures Strptime(fs[j], s).None?
      {
        if j > 0 {
          assert fs[j] == fs[1..][j - 1];
        }
      }
    }
  }

  /** The first format, in the fixed order, that accepts the whole text decides the date. */
  lemma ParseDatePriority(s: string, i: nat)
    requires i < |TRIED_FORMATS| && Strptime(TRIED_FORMATS[i], s).Some?
    requires forall j :: 0 <= j < i ==> Strptime(TRIED_FORMATS[j], s).None?
    ensures ParseDate(s) == Strptime(TRIED_FORMATS[i], s)
  {
    FirstParseAt(TRIED_FORMATS, s, i);
  }

  lemma {:induction false} FirstParseSole(fs: seq<Format>, s: string, f: Format)
    requires f in fs && Strptime(f, s).Some?
    requires forall g :: g != f ==> Strptime(g, s).None?
    ensures FirstParse(fs, s) == Strptime(f, s)
  {
    if fs[0] != f {
      assert f in fs[1..];
      FirstParseSole(fs[1..], s, f);
    }
  }

  /** A text accepted by one format is rejected by every other. */
  lemma OnlyOneFormat(f: Format, s: string, g: Format)
    requires Strptime(f, s).Some? && g != f
    ensures Strptime(g, s).None?
  {
    if Strptime(g, s).Some? {
      ScanExclusive(f, g, s);
    }
  }

  /**
   * `parse_date` returns `dt` exactly when `dt` is a real date and the text
   * spells it in one of the four formats; which format comes first never
   * matters, because no text is accepted by two of them.
   */
  lemma ParseDateSpec(s: string, dt: Date)
    ensures ParseDate(s) == Some(dt) <==> ValidDate(dt) && exists f :: Writes(f, dt, s)
  {
    if ParseDate(s) == Some(dt) {
      ParseDateSound(s, dt);
    }
    if ValidDate(dt) && exists f :: Writes(f, dt, s) {
      var f :| Writes(f, dt, s);
      ParseDateComplete(f, dt, s);
    }
  }

  lemma ParseDateSound(s: string, dt: Date)
    requires ParseDate(s) == Some(dt)
    ensures ValidDate(dt) && exists f :: Writes(f, dt, s)
  {
    var i := FirstParseWinner(TRIED_FORMATS, s);
    StrptimeSpec(TRIED_FORMATS[i], s, dt);
    assert Writes(TRIED_FORMATS[i], dt, s);
  }

  lemma ParseDateComplete(f: Format, dt: Date, s: string)
    requires ValidDate(dt) && Writes(f, dt, s)
    ensures ParseDate(s) == Some(dt)
  {
    StrptimeSpec(f, s, dt);
    forall g | g != f
      ensures Strptime(g, s).None?
    {
      OnlyOneFormat(f, s, g);
    }
    TriedFormatsComplete(f);
    FirstParseSole(TRIED_FORMATS, s, f);
  }

  /** `parse_date` tries every one of the four formats. */
  lemma TriedFormatsComplete(f: Format)
    ensures f in TRIED_FORMATS
  {
    match f
    case IsoDashed => assert TRIED_FORMATS[0] == f;
    case DayFirstDotted => assert TRIED_FORMATS[1] == f;
    case DayFirstSlashed => assert TRIED_FORMATS[2] == f;
    case YearFirstDotted => assert TRIED_FORMATS[3] == f;
  }

  /**
   * Trying the formats in any other order, as long as every format is tried,
   * gives the same result as `parse_date`.
   */
  lemma OrderIrrelevant(fs: seq<Format>, s: string)
    requires forall f: Format :: f in fs
    ensures FirstParse(fs, s) == ParseDate(s)
  {
    if ParseDate(s).Some? {
      var i := FirstParseWinner(TRIED_FORMATS, s);
      var f := TRIED_FORMATS[i];
      forall g | g != f
        ensures Strptime(g, s).None?
      {
        OnlyOneFormat(f, s, g);
      }
      FirstParseSole(fs, s, f);
    } else {
      forall i | 0 <= i < |fs|
        ensures Strptime(fs[i], s).None?
      {
        TriedFormatsComplete(fs[i]);
        var j :| 0 <= j < |TRIED_FORMATS| && TRIED_FORMATS[j] == fs[i];
      }
    }
  }

  /** Parsing fails exactly when the text spells no real date in any of the four formats. */
  lemma ParseDateFails(s: string)
    ensures ParseDate(s).None? <==> forall f: Format, dt: Date :: !(ValidDate(dt) && Writes(f, dt, s))
  {
    if ParseDate(s).None? {
      forall f: Format, dt: Date
        ensures !(ValidDate(dt) && Writes(f, dt, s))
      {
        ParseDateSpec(s, dt);
      }
    } else {
      ParseDateSpec(s, ParseDate(s).value);
    }
  }

  /**
   * A text shaped like one format whose fields name no real date (day 30 of
   * February, year 0000) is rejected there, and no later format accepts it.
   */
  lemma ImpossibleDateRejected(f: Format, s: string)
    requires Scan(f, s).Some? && !ValidDate(Scan(f, s).value)
    ensures ParseDate(s).None?
  {
    forall i | 0 <= i < |TRIED_FORMATS|
      ensures Strptime(TRIED_FORMATS[i], s).None?
    {
      var g := TRIED_FORMATS[i];
      if Scan(g, s).Some? {
        ScanExclusive(f, g, s);
      }
    }
  }

  /** A date written by `strftime` in any of the four formats parses back to the same date. */
  lemma FormatRoundTrip(f: Format, dt: Date)
    requires ValidDate(dt)
    ensures ParseDate(Strftime(f, dt)) == Some(dt)
  {
    ParseDateSpec(Strftime(f, dt), dt);
  }

  /** The displayed form of a date parses back to that date. */
  lemma DisplayRoundTrip(dt: Date)
    requires ValidDate(dt)
    ensures ParseDate(DisplayDate(dt)) == Some(dt)
  {
    FormatRoundTrip(DayFirstDotted, dt);
  }

  /** A real date written zero-padded in any of the four formats parses back to it. */
  lemma PaddedFieldsParse(f: Format, dt: Date, s: string)
    requires ValidDate(dt) && s == Join(f, Pad(dt.year, 4), Pad(dt.month, 2), Pad(dt.day, 2))
    ensures ParseDate(s) == Some(dt)
  {
    FormatRoundTrip(f, dt);
  }

  /** The same date in all four formats gives the same result. */
  lemma FourSpellingsOfNewYear()
    ensures ParseDate("2024-01-01") == Some(Date(2024, 1, 1))
    ensures ParseDate("01.01.2024") == Some(Date(2024, 1, 1))
    ensures ParseDate("01/01/2024") == Some(Date(2024, 1, 1))
    ensures ParseDate("2024.01.01") == Some(Date(2024, 1, 1))
  {
    var dt := Date(2024, 1, 1);
    NewYearSpellings();
    PaddedFieldsParse(IsoDashed, dt, "2024-01-01");
    PaddedFieldsParse(DayFirstDotted, dt, "01.01.2024");
    PaddedFieldsParse(DayFirstSlashed, dt, "01/01/2024");
    PaddedFieldsParse(YearFirstDotted, dt, "2024.01.01");
  }

  lemma NewYearFields()
    ensures Pad(2024, 4) == "2024" && Pad(1, 2) == "01"
  {
  }

  lemma NewYearSpellings()
    ensures Join(IsoDashed, Pad(2024, 4), Pad(1, 2), Pad(1, 2)) == "2024-01-01"
    ensures Join(DayFirstDotted, Pad(2024, 4), Pad(1, 2), Pad(1, 2)) == "01.01.2024"
    ensures Join(DayFirstSlashed, Pad(2024, 4), Pad(1, 2), Pad(1, 2)) == "01/01/2024"
    ensures Join(YearFirstDotted, Pad(2024, 4), Pad(1, 2), Pad(1, 2)) == "2024.01.01"
  {
    NewYearFields();
  }

  /** A text that spells, in one of the four formats, fields that name no real date is rejected. */
  lemma ImpossibleFieldsRejected(f: Format, dt: Date, s: string)
    requires !ValidDate(dt) && Writes(f, dt, s)
    ensures ParseDate(s).None?
  {
    ScanSpec(f, s, dt);
    ImpossibleDateRejected(f, s);
  }

  /** Fields in range but naming no real date, written zero-padded, are rejected. */
  lemma PaddedFieldsRejected(f: Format, dt: Date, s: string)
    requires !ValidDate(dt) && 0 <= dt.year <= 9999 && 1 <= dt.month <= 12 && 1 <= dt.day <= 31
    requires s == Join(f, Pad(dt.year, 4), Pad(dt.month, 2), Pad(dt.day, 2))
    ensures ParseDate(s).None?
  {
    JoinWrites(f, dt, Pad(dt.year, 4), Pad(dt.month, 2), Pad(dt.day, 2));
    ImpossibleFieldsRejected(f, dt, s);
  }

  /** `2024-02-30` has the ISO shape but is no date, so parsing fails. */
  lemma February30Rejected()
    ensures ParseDate("2024-02-30").None?
  {
    February30Spelling();
    PaddedFieldsRejected(IsoDashed, Date(2024, 2, 30), "2024-02-30");
  }

  lemma February30Spelling()
    ensures Join(IsoDashed, Pad(2024, 4), Pad(2, 2), Pad(30, 2)) == "2024-02-30"
  {
  }

  /** `0000-01-01` has the ISO shape but year 0 does not exist, so parsing fails. */
  lemma YearZeroRejected()
    ensures ParseDate("0000-01-01").None?
  {
    YearZeroSpelling();
    PaddedFieldsRejected(IsoDashed, Date(0, 1, 1), "0000-01-01");
  }

  lemma YearZeroSpelling()
    ensures Join(IsoDashed, Pad(0, 4), Pad(1, 2), Pad(1, 2)) == "0000-01-01"
  {
  }

  /** A written month is one digit, or two starting with 0, or 10 to 12. */
  lemma MonthTextForm(v: int, m: string)
    requires m in MonthTexts(v)
    ensures |m| == 1 || (|m| == 2 && (m[0] == '0' || (m[0] == '1' && '0' <= m[1] <= '2')))
  {
    if |m| != 1 {
      PadDecimal(v, 2);
      TwoDigits(m);
    }
  }

  lemma MonthAfterYear(s: string, y: string, m: string, d: string)
    requires s == y + "-" + m + "-" + d && |y| == 4 && 1 <= |m|
    ensures s[5] == m[0] && (|m| == 1 ==> s[6] == '-') && (|m| >= 2 ==> s[6] == m[1])
  {
    assert s == y + "-" + (m + "-" + d);
  }

  lemma NotWrittenMonth13(f: Format, dt: Date)
    ensures !Writes(f, dt, "2024-13-01")
  {
    var s := "2024-13-01";
    if Writes(f, dt, s) {
      WritesSeparator(f, dt, s);
      assert f == IsoDashed;
      var y, m, d :| y in YearTexts(dt.year) && m in MonthTexts(dt.month) && d in DayTexts(dt.day) && s == Join(f, y, m, d);
      YearTextShape(dt.year, y);
      MonthAfterYear(s, y, m, d);
      MonthTextForm(dt.month, m);
    }
  }

  /** No month directive matches `13`, so `2024-13-01` has no format's shape and parsing fails. */
  lemma Month13Rejected()
    ensures ParseDate("2024-13-01").None?
  {
    forall f: Format, dt: Date
      ensures !Writes(f, dt, "2024-13-01")
    {
      NotWrittenMonth13(f, dt);
    }
    ParseDateFails("2024-13-01");
  }

  // Lemmas about the page

  /** Without a stored reference date, and with both clock readings on the same day, the page shows 0. */
  lemma UnsetReferenceShowsZero(today: Date)
    requires ValidDate(today)
    ensures Render(ResolveReference(None, today), today).daysDiff == 0
    ensures Render(ResolveReference(None, today), today).targetDate == Render(ResolveReference(None, today), today).today
  {
    DaysDiffSign(today, today);
  }

  /**
   * The two clock readings of a first request can fall on either side of
   * midnight; the page then counts 1 day, not 0.
   */
  lemma MidnightFirstRequest(firstReading: Date)
    requires ValidDate(firstReading) && firstReading != LAST_DATE
    ensures Render(ResolveReference(None, firstReading), NextDay(firstReading)).daysDiff == 1
  {
    DaysDiffNextDay(firstReading, firstReading);
  }

  /** The count shown is negative exactly when the reference date is after today. */
  lemma RenderSign(reference: Date, today: Date)
    requires ValidDate(reference) && ValidDate(today)
    ensures Render(reference, today).daysDiff < 0 <==> Before(today, reference)
    ensures Render(reference, today).daysDiff == 0 <==> reference == today
    ensures Render(reference, today).daysDiff > 0 <==> Before(reference, today)
  {
    DaysDiffSign(today, reference);
  }
}
