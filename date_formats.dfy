/**
 * The part of Python's `datetime.strptime` and `date.strftime` that the four
 * date formats `%Y-%m-%d`, `%d.%m.%Y`, `%d/%m/%Y` and `%Y.%m.%d` exercise.
 *
 * `strptime` turns the format into a regular expression, one group per
 * directive, each group a list of alternatives tried in order with
 * backtracking; it then demands that the match end at the end of the text
 * ("unconverted data remains" otherwise) and lets the `date` constructor
 * reject impossible dates.
 */
module DateFormats {
  import opened Wrappers
  import opened Digits
  import opened Calendar

  /** One character position of an alternative: `\d`, a range `[lo-hi]`, or one character. */
  datatype CharClass = AnyDigit | Span(lo: char, hi: char) | Exactly(c: char)

  predicate InClass(k: CharClass, c: char) {
    match k
    case AnyDigit => IsDigit(c)
    case Span(lo, hi) => lo <= c <= hi
    case Exactly(x) => c == x
  }

  type Alternative = seq<CharClass>

  datatype Directive = YearDirective | MonthDirective | DayDirective | Literal(c: char)

  /**
   * The alternatives of each directive's group, in the order the regular
   * expression tries them: `%Y` is `\d\d\d\d`, `%m` is `1[0-2]|0[1-9]|[1-9]`,
   * `%d` is `3[01]|[12]\d|0[1-9]|[1-9]| [1-9]`; a separator matches itself.
   */
  function Alternatives(d: Directive): seq<Alternative> {
    match d
    case YearDirective => [[AnyDigit, AnyDigit, AnyDigit, AnyDigit]]
    case MonthDirective => [[Exactly('1'), Span('0', '2')], [Exactly('0'), Span('1', '9')], [Span('1', '9')]]
    case DayDirective =>
      [[Exactly('3'), Span('0', '1')], [Span('1', '2'), AnyDigit], [Exactly('0'), Span('1', '9')],
       [Span('1', '9')], [Exactly(' '), Span('1', '9')]]
    case Literal(c) => [[Exactly(c)]]
  }

  /** The alternative matches the beginning of `s`. */
  predicate PrefixMatch(alt: Alternative, s: string) {
    |alt| <= |s| && forall i :: 0 <= i < |alt| ==> InClass(alt[i], s[i])
  }

  /** `t` is, in full, one of the texts the directive's group matches. */
  predicate Spells(d: Directive, t: string) {
    exists k :: 0 <= k < |Alternatives(d)| && |Alternatives(d)[k]| == |t| && PrefixMatch(Alternatives(d)[k], t)
  }

  function Concat(pieces: seq<string>): string {
    if pieces == [] then [] else pieces[0] + Concat(pieces[1..])
  }

  /** A match: the text each group consumed, and the length of the matched prefix. */
  datatype Match = Match(pieces: seq<string>, len: nat)

  /** `m` splits a prefix of `s` into one piece per directive, each spelled by it. */
  predicate Consumes(ds: seq<Directive>, s: string, m: Match) {
    && |m.pieces| == |ds|
    && m.len <= |s|
    && s[..m.len] == Concat(m.pieces)
    && forall i :: 0 <= i < |ds| ==> Spells(ds[i], m.pieces[i])
  }

  /**
   * The first match of the directives at the start of `s`, in the order a
   * backtracking regular-expression engine finds it. Like `re.match`, it
   * need not reach the end of `s`.
   */
  function MatchFrom(ds: seq<Directive>, s: string): (r: Option<Match>)
    ensures r.Some? ==> Consumes(ds, s, r.value)
    decreases |ds|, if ds == [] then 0 else |Alternatives(ds[0])| + 1
  {
    if ds == [] then Some(Match([], 0))
    else
      assert [ds[0]] + ds[1..] == ds;
      TryAlternative(ds[0], 0, ds[1..], s)
  }

  /** Tries the alternatives of `d` from the `k`-th on, each followed by the rest of the directives. */
  function TryAlternative(d: Directive, k: nat, rest: seq<Directive>, s: string): (r: Option<Match>)
    requires k <= |Alternatives(d)|
    ensures r.Some? ==> Consumes([d] + rest, s, r.value)
    decreases |rest| + 1, |Alternatives(d)| - k
  {
    if k == |Alternatives(d)| then None
    else
      var alt := Alternatives(d)[k];
      if PrefixMatch(alt, s) then
        match MatchFrom(rest, s[|alt|..])
        case Some(m) =>
          ConsumesExtend(d, k, rest, s, m);
          Some(Match([s[..|alt|]] + m.pieces, |alt| + m.len))
        case None => TryAlternative(d, k + 1, rest, s)
      else TryAlternative(d, k + 1, rest, s)
  }

  lemma ConsumesExtend(d: Directive, k: nat, rest: seq<Directive>, s: string, m: Match)
    requires k < |Alternatives(d)| && PrefixMatch(Alternatives(d)[k], s)
    requires Consumes(rest, s[|Alternatives(d)[k]|..], m)
    ensures Consumes([d] + rest, s, Match([s[..|Alternatives(d)[k]|]] + m.pieces, |Alternatives(d)[k]| + m.len))
  {
    var n := |Alternatives(d)[k]|;
    var head := s[..n];
    assert s[..n + m.len] == head + s[n..][..m.len];
    assert PrefixMatch(Alternatives(d)[k], head);
    SpelledCons(d, rest, head, m.pieces);
  }

  /** Pieces spelled by their directives stay so with one more spelled piece in front. */
  lemma SpelledCons(d: Directive, rest: seq<Directive>, head: string, pieces: seq<string>)
    requires Spells(d, head) && |pieces| == |rest|
    requires forall i :: 0 <= i < |rest| ==> Spells(rest[i], pieces[i])
    ensures Concat([head] + pieces) == head + Concat(pieces)
    ensures forall i :: 0 <= i < |[d] + rest| ==> Spells(([d] + rest)[i], ([head] + pieces)[i])
  {
    assert ([head] + pieces)[1..] == pieces;
    forall i | 0 <= i < |[d] + rest|
      ensures Spells(([d] + rest)[i], ([head] + pieces)[i])
    {
      if i > 0 {
        assert ([d] + rest)[i] == rest[i - 1] && ([head] + pieces)[i] == pieces[i - 1];
      }
    }
  }

  // The four formats

  datatype Format = IsoDashed | DayFirstDotted | DayFirstSlashed | YearFirstDotted

  function Separator(f: Format): char {
    match f
    case IsoDashed => '-'
    case DayFirstDotted => '.'
    case DayFirstSlashed => '/'
    case YearFirstDotted => '.'
  }

  predicate YearFirst(f: Format) {
    f == IsoDashed || f == YearFirstDotted
  }

  /** The directives of a format in the order they appear in it. */
  function Directives(f: Format): seq<Directive> {
    var sep := Literal(Separator(f));
    if YearFirst(f) then [YearDirective, sep, MonthDirective, sep, DayDirective]
    else [DayDirective, sep, MonthDirective, sep, YearDirective]
  }

  predicate Numerals(ds: seq<Directive>, pieces: seq<string>) {
    |ds| == |pieces| && forall i :: 0 <= i < |ds| ==> !ds[i].Literal? ==> Numeral(pieces[i])
  }

  /**
   * The year, month and day the matched groups denote, read with `int()`;
   * a field with no directive keeps the default of 1900-01-01.
   */
  function Fields(ds: seq<Directive>, pieces: seq<string>): Date
    requires Numerals(ds, pieces)
  {
    if ds == [] then Date(1900, 1, 1)
    else
      var later := Fields(ds[1..], pieces[1..]);
      match ds[0]
      case YearDirective => later.(year := IntValue(pieces[0]))
      case MonthDirective => later.(month := IntValue(pieces[0]))
      case DayDirective => later.(day := IntValue(pieces[0]))
      case Literal(_) => later
  }

  /**
   * The regular-expression stage of `strptime`: the fields, not yet checked
   * to form a real date, when the format's expression matches all of `s`.
   */
  function Scan(f: Format, s: string): Option<Date> {
    var ds := Directives(f);
    match MatchFrom(ds, s)
    case None => None
    case Some(m) =>
      if m.len != |s| then None
      else
        SpelledNumerals(ds, m.pieces);
        Some(Fields(ds, m.pieces))
  }

  /** `datetime.strptime(s, f).date()`, with None where it raises ValueError. */
  function Strptime(f: Format, s: string): (r: Option<Date>)
    ensures r.Some? ==> ValidDate(r.value)
  {
    match Scan(f, s)
    case None => None
    case Some(dt) => if ValidDate(dt) then Some(dt) else None
  }

  /** `dt.strftime(f)`: zero-padded two-digit day and month, four-digit year. */
  function Strftime(f: Format, dt: Date): (s: string)
    requires ValidDate(dt)
    ensures Writes(f, dt, s) && |s| == 10
    ensures forall i :: 0 <= i < |s| ==> IsDigit(s[i]) || s[i] == Separator(f)
  {
    var y, m, d := Pad(dt.year, 4), Pad(dt.month, 2), Pad(dt.day, 2);
    PaddedFields(dt);
    JoinWrites(f, dt, y, m, d);
    JoinDigits(f, y, m, d);
    Join(f, y, m, d)
  }

  /** The zero-padded fields of a valid date: digits only, each one of its field's spellings. */
  lemma PaddedFields(dt: Date)
    requires ValidDate(dt)
    ensures Pad(dt.year, 4) in YearTexts(dt.year) && |Pad(dt.year, 4)| == 4 && AllDigits(Pad(dt.year, 4))
    ensures Pad(dt.month, 2) in MonthTexts(dt.month) && |Pad(dt.month, 2)| == 2 && AllDigits(Pad(dt.month, 2))
    ensures Pad(dt.day, 2) in DayTexts(dt.day) && |Pad(dt.day, 2)| == 2 && AllDigits(Pad(dt.day, 2))
  {
    PaddedDigits(dt.year, 4);
    PaddedDigits(dt.month, 2);
    PaddedDigits(dt.day, 2);
  }

  /** A value below `10^w`, zero-padded to width `w`, is `w` digits. */
  lemma PaddedDigits(v: nat, w: nat)
    requires v < Pow10(w)
    ensures |Pad(v, w)| == w && AllDigits(Pad(v, w))
  {
    PadDecimal(v, w);
  }

  /** Spellings of the three fields, joined in the order of the format, write the date. */
  lemma JoinWrites(f: Format, dt: Date, y: string, m: string, d: string)
    requires y in YearTexts(dt.year) && m in MonthTexts(dt.month) && d in DayTexts(dt.day)
    ensures Writes(f, dt, Join(f, y, m, d))
  {
  }

  /** Fields written with digits only leave nothing but digits and the separator. */
  lemma JoinDigits(f: Format, y: string, m: string, d: string)
    requires AllDigits(y) && AllDigits(m) && AllDigits(d)
    ensures forall i :: 0 <= i < |Join(f, y, m, d)| ==> IsDigit(Join(f, y, m, d)[i]) || Join(f, y, m, d)[i] == Separator(f)
  {
  }

  // Declarative description of what each format accepts

  /** The ways `%Y` spells year `y`: exactly four digits. */
  function YearTexts(y: int): set<string> {
    if 0 <= y <= 9999 then {Pad(y, 4)} else {}
  }

  /** The ways `%m` spells month `m`: two digits, or one digit below 10. */
  function MonthTexts(m: int): set<string> {
    if 1 <= m <= 12 then {Pad(m, 2)} + (if m <= 9 then {[DigitChar(m)]} else {}) else {}
  }

  /** The ways `%d` spells day `d`: two digits, or below 10 one digit, bare or after a blank. */
  function DayTexts(d: int): set<string> {
    if 1 <= d <= 31 then {Pad(d, 2)} + (if d <= 9 then {[DigitChar(d)], [' ', DigitChar(d)]} else {}) else {}
  }

  function Texts(d: Directive, v: int): set<string> {
    match d
    case YearDirective => YearTexts(v)
    case MonthDirective => MonthTexts(v)
    case DayDirective => DayTexts(v)
    case Literal(_) => {}
  }

  function Join(f: Format, y: string, m: string, d: string): string {
    var sep := [Separator(f)];
    if YearFirst(f) then y + sep + m + sep + d else d + sep + m + sep + y
  }

  /** `s` writes the fields of `dt` in format `f`, in one of the spellings each directive allows. */
  ghost predicate Writes(f: Format, dt: Date, s: string) {
    exists y, m, d :: y in YearTexts(dt.year) && m in MonthTexts(dt.month) && d in DayTexts(dt.day) && s == Join(f, y, m, d)
  }

  // Lemmas about single directives

  lemma LiteralSpells(c: char, t: string)
    ensures Spells(Literal(c), t) <==> t == [c]
  {
    if t == [c] {
      assert PrefixMatch(Alternatives(Literal(c))[0], t);
    }
  }

  /** Every text a numeric directive matches is a numeral and one of the spellings of its value. */
  lemma SpelledText(d: Directive, t: string)
    requires !d.Literal? && Spells(d, t)
    ensures Numeral(t) && t in Texts(d, IntValue(t))
  {
    match d
    case YearDirective => SpelledYear(t);
    case MonthDirective => SpelledMonth(t);
    case DayDirective => SpelledDay(t);
  }

  /** A run of digits is a numeral, and the padding of its value to its own length. */
  lemma DigitsSpelled(t: string)
    requires 1 <= |t| && AllDigits(t)
    ensures Numeral(t) && IntValue(t) == DecimalValue(t)
    ensures IntValue(t) < Pow10(|t|) && Pad(IntValue(t), |t|) == t
  {
    assert StripLeadingSpaces(t) == t;
    DecimalPad(t);
  }

  /** A single digit written alone is the one-character spelling of its value. */
  lemma SingleDigitSpelled(t: string)
    requires |t| == 1 && '1' <= t[0] <= '9'
    ensures Numeral(t) && 1 <= IntValue(t) <= 9 && t == [DigitChar(IntValue(t))]
  {
    OneDigitSpelled(t);
  }

  lemma SpelledYear(t: string)
    requires Spells(YearDirective, t)
    ensures Numeral(t) && t in YearTexts(IntValue(t))
  {
    var alt := Alternatives(YearDirective)[0];
    assert |t| == 4 && PrefixMatch(alt, t);
    forall i | 0 <= i < 4
      ensures IsDigit(t[i])
    {
      assert InClass(alt[i], t[i]);
    }
    DigitsSpelled(t);
  }

  lemma SpelledMonth(t: string)
    requires Spells(MonthDirective, t)
    ensures Numeral(t) && t in MonthTexts(IntValue(t))
  {
    var alts := Alternatives(MonthDirective);
    var k :| 0 <= k < |alts| && |alts[k]| == |t| && PrefixMatch(alts[k], t);
    assert InClass(alts[k][0], t[0]);
    if |t| == 1 {
      SingleDigitSpelled(t);
    } else {
      assert InClass(alts[k][1], t[1]);
      assert AllDigits(t);
      DigitsSpelled(t);
      TwoDigits(t);
    }
  }

  lemma SpelledDay(t: string)
    requires Spells(DayDirective, t)
    ensures Numeral(t) && t in DayTexts(IntValue(t))
  {
    var alts := Alternatives(DayDirective);
    var k :| 0 <= k < |alts| && |alts[k]| == |t| && PrefixMatch(alts[k], t);
    assert InClass(alts[k][0], t[0]);
    if |t| == 1 {
      SingleDigitSpelled(t);
    } else {
      assert InClass(alts[k][1], t[1]);
      if t[0] == ' ' {
        var digit := t[1..];
        assert digit == [t[1]];
        SingleDigitSpelled(digit);
        assert StripLeadingSpaces(digit) == digit && StripLeadingSpaces(t) == digit;
        assert IntValue(t) == IntValue(digit);
        assert t == [' ', DigitChar(IntValue(t))];
      } else {
        assert AllDigits(t);
        DigitsSpelled(t);
        TwoDigits(t);
      }
    }
  }

  /** Every spelling of a value is matched by its directive and read back as that value. */
  lemma TextSpelled(d: Directive, v: int, t: string)
    requires t in Texts(d, v)
    ensures !d.Literal? && Spells(d, t) && Numeral(t) && IntValue(t) == v
  {
    match d
    case YearDirective => YearTextSpelled(v, t);
    case MonthDirective => MonthTextSpelled(v, t);
    case DayDirective => DayTextSpelled(v, t);
  }

  lemma OneDigitSpelled(t: string)
    requires |t| == 1 && IsDigit(t[0])
    ensures Numeral(t) && IntValue(t) == DigitValue(t[0])
  {
    assert StripLeadingSpaces(t) == t;
    OneDigit(t);
  }

  lemma PaddedSpelled(v: int, w: nat, t: string)
    requires 0 < w && 0 <= v < Pow10(w) && t == Pad(v, w)
    ensures |t| == w && AllDigits(t) && Numeral(t) && IntValue(t) == v
  {
    PadDecimal(v, w);
    if w > 0 {
      assert t[0] != ' ';
    }
    assert StripLeadingSpaces(t) == t;
  }

  lemma YearTextSpelled(v: int, t: string)
    requires t in YearTexts(v)
    ensures Spells(YearDirective, t) && Numeral(t) && IntValue(t) == v
  {
    PaddedSpelled(v, 4, t);
    assert PrefixMatch(Alternatives(YearDirective)[0], t);
  }

  lemma MonthTextSpelled(v: int, t: string)
    requires t in MonthTexts(v)
    ensures Spells(MonthDirective, t) && Numeral(t) && IntValue(t) == v
  {
    var alts := Alternatives(MonthDirective);
    if |t| == 1 {
      OneDigitSpelled(t);
      assert PrefixMatch(alts[2], t);
    } else {
      PaddedSpelled(v, 2, t);
      TwoDigits(t);
      if DigitValue(t[0]) == 1 {
        assert PrefixMatch(alts[0], t);
      } else {
        assert PrefixMatch(alts[1], t);
      }
    }
  }

  lemma DayTextSpelled(v: int, t: string)
    requires t in DayTexts(v)
    ensures Spells(DayDirective, t) && Numeral(t) && IntValue(t) == v
  {
    if |t| == 1 {
      OneDigitSpelled(t);
      assert PrefixMatch(Alternatives(DayDirective)[3], t);
    } else if |t| == 2 && t[0] == ' ' {
      PadDecimal(v, 2);
      assert t == [' ', DigitChar(v)] && 1 <= v <= 9;
      BlankDaySpelled(v, t);
    } else {
      PaddedDaySpelled(v, t);
    }
  }

  /** A day below 10 after a blank: read by the last alternative of `%d`. */
  lemma BlankDaySpelled(v: int, t: string)
    requires 1 <= v <= 9 && t == [' ', DigitChar(v)]
    ensures Spells(DayDirective, t) && Numeral(t) && IntValue(t) == v
  {
    assert t[1..] == [t[1]];
    OneDigitSpelled(t[1..]);
    assert StripLeadingSpaces(t) == StripLeadingSpaces(t[1..]);
    assert PrefixMatch(Alternatives(DayDirective)[4], t);
  }

  /** A zero-padded day: read by the first, second or third alternative of `%d`. */
  lemma PaddedDaySpelled(v: int, t: string)
    requires 1 <= v <= 31 && t == Pad(v, 2)
    ensures Spells(DayDirective, t) && Numeral(t) && IntValue(t) == v
  {
    var alts := Alternatives(DayDirective);
    PaddedSpelled(v, 2, t);
    TwoDigits(t);
    var hi := DigitValue(t[0]);
    if hi == 3 {
      assert PrefixMatch(alts[0], t);
    } else if hi >= 1 {
      assert PrefixMatch(alts[1], t);
    } else {
      assert PrefixMatch(alts[2], t);
    }
  }

  lemma {:induction false} SpelledNumerals(ds: seq<Directive>, pieces: seq<string>)
    requires |ds| == |pieces| && forall i :: 0 <= i < |ds| ==> Spells(ds[i], pieces[i])
    ensures Numerals(ds, pieces)
  {
    forall i | 0 <= i < |ds| && !ds[i].Literal?
      ensures Numeral(pieces[i])
    {
      SpelledText(ds[i], pieces[i]);
    }
  }

  // Matching a whole spelling

  /** The text after a numeric piece does not start with a digit. */
  predicate Delimited(d: Directive, r: string) {
    d.Literal? || r == [] || !IsDigit(r[0])
  }

  /**
   * When `t` is spelled by `d` and what follows it is delimited, no earlier
   * alternative of `d` matches, so the engine picks the one that takes `t`.
   */
  lemma FirstAlternative(d: Directive, t: string, r: string) returns (k: nat)
    requires Spells(d, t) && Delimited(d, r)
    ensures k < |Alternatives(d)| && |Alternatives(d)[k]| == |t| && PrefixMatch(Alternatives(d)[k], t)
    ensures forall j :: 0 <= j < k ==> !PrefixMatch(Alternatives(d)[j], t + r)
  {
    var alts := Alternatives(d);
    k :| 0 <= k < |alts| && |alts[k]| == |t| && PrefixMatch(alts[k], t);
    var s := t + r;
    assert s[0] == t[0] && InClass(alts[k][0], t[0]);
    if |t| == 2 {
      assert s[1] == t[1] && InClass(alts[k][1], t[1]);
    } else if |t| == 1 && |s| > 1 {
      assert s[1] == r[0];
    }
    forall j | 0 <= j < k
      ensures !PrefixMatch(alts[j], s)
    {
      if |alts[j]| <= |s| {
        assert InClass(alts[j][0], s[0]) ==> |alts[j]| > 1 && !InClass(alts[j][1], s[1]);
      }
    }
  }

  lemma {:induction false} TrySkip(d: Directive, j: nat, k: nat, rest: seq<Directive>, s: string)
    requires j <= k < |Alternatives(d)|
    requires forall i :: j <= i < k ==> !PrefixMatch(Alternatives(d)[i], s)
    ensures TryAlternative(d, j, rest, s) == TryAlternative(d, k, rest, s)
    decreases k - j
  {
    if j < k {
      TrySkip(d, j + 1, k, rest, s);
    }
  }

  /**
   * Pieces each spelled by their directive, every numeric piece followed by
   * a non-digit or by the end, are matched exactly as they are split, and the
   * match reaches the end of their concatenation.
   */
  lemma {:induction false} MatchComplete(ds: seq<Directive>, pieces: seq<string>)
    requires |pieces| == |ds|
    requires forall i :: 0 <= i < |ds| ==> Spells(ds[i], pieces[i])
    requires forall i :: 0 <= i < |ds| - 1 ==> ds[i].Literal? || (pieces[i + 1] != [] && !IsDigit(pieces[i + 1][0]))
    ensures MatchFrom(ds, Concat(pieces)) == Some(Match(pieces, |Concat(pieces)|))
  {
    if ds != [] {
      var t, rest := pieces[0], pieces[1..];
      var r := Concat(rest);
      var s := t + r;
      assert Concat(pieces) == s;
      TailSpelled(ds, pieces);
      MatchComplete(ds[1..], rest);
      var k := FirstAlternative(ds[0], t, r);
      TrySkip(ds[0], 0, k, ds[1..], s);
      TryFound(ds[0], k, ds[1..], t, r, Match(rest, |r|));
      assert [t] + rest == pieces;
    }
  }

  /** The requirements of `MatchComplete` hold again once the first piece is taken off. */
  lemma TailSpelled(ds: seq<Directive>, pieces: seq<string>)
    requires |pieces| == |ds| && ds != []
    requires forall i :: 0 <= i < |ds| ==> Spells(ds[i], pieces[i])
    requires forall i :: 0 <= i < |ds| - 1 ==> ds[i].Literal? || (pieces[i + 1] != [] && !IsDigit(pieces[i + 1][0]))
    ensures forall i :: 0 <= i < |ds| - 1 ==> Spells(ds[1..][i], pieces[1..][i])
    ensures forall i :: 0 <= i < |ds| - 2 ==> ds[1..][i].Literal? || (pieces[1..][i + 1] != [] && !IsDigit(pieces[1..][i + 1][0]))
    ensures Delimited(ds[0], Concat(pieces[1..]))
  {
    forall i | 0 <= i < |ds| - 1
      ensures ds[1..][i] == ds[i + 1] && pieces[1..][i] == pieces[i + 1]
    {
    }
    if |ds| > 1 {
      assert Concat(pieces[1..]) == pieces[1] + Concat(pieces[2..]);
    }
  }

  /** When the `k`-th alternative takes `t` and the rest matches `r` entirely, that is the match. */
  lemma TryFound(d: Directive, k: nat, rest: seq<Directive>, t: string, r: string, m: Match)
    requires k < |Alternatives(d)| && |Alternatives(d)[k]| == |t| && PrefixMatch(Alternatives(d)[k], t)
    requires MatchFrom(rest, r) == Some(m) && m.len == |r|
    ensures TryAlternative(d, k, rest, t + r) == Some(Match([t] + m.pieces, |t + r|))
  {
    PrefixOfConcat(Alternatives(d)[k], t, r);
  }

  /** An alternative that spells all of `t` also matches the start of `t + r`, taking exactly `t`. */
  lemma PrefixOfConcat(alt: Alternative, t: string, r: string)
    requires |alt| == |t| && PrefixMatch(alt, t)
    ensures PrefixMatch(alt, t + r) && (t + r)[|alt|..] == r && (t + r)[..|alt|] == t
  {
    var s := t + r;
    forall i | 0 <= i < |alt|
      ensures InClass(alt[i], s[i])
    {
      assert s[i] == t[i];
    }
  }

  lemma Concat5(p: seq<string>)
    requires |p| == 5
    ensures Concat(p) == p[0] + p[1] + p[2] + p[3] + p[4]
  {
    var q1, q2, q3, q4 := p[1..], p[2..], p[3..], p[4..];
    assert q1[1..] == q2 && q2[1..] == q3 && q3[1..] == q4 && q4[1..] == [];
    assert Concat(q4) == p[4];
    assert Concat(q3) == p[3] + p[4];
    assert Concat(q2) == p[2] + p[3] + p[4];
  }

  lemma FieldsLayout(f: Format, p: seq<string>)
    requires Numerals(Directives(f), p)
    ensures Fields(Directives(f), p) ==
      if YearFirst(f) then Date(IntValue(p[0]), IntValue(p[2]), IntValue(p[4]))
      else Date(IntValue(p[4]), IntValue(p[2]), IntValue(p[0]))
  {
    var ds := Directives(f);
    assert ds[4..][1..] == [] && p[4..][1..] == [];
    assert ds[3..][1..] == ds[4..] && p[3..][1..] == p[4..];
    assert ds[2..][1..] == ds[3..] && p[2..][1..] == p[3..];
    assert ds[1..][1..] == ds[2..] && p[1..][1..] == p[2..];
    assert Numerals(ds[4..], p[4..]) && Numerals(ds[3..], p[3..]);
    assert Numerals(ds[2..], p[2..]) && Numerals(ds[1..], p[1..]);
    var last := Fields(ds[4..], p[4..]);
    assert last == Fields(ds[4..][1..], p[4..][1..]).(year := IntValue(p[4])) || last == Fields(ds[4..][1..], p[4..][1..]).(day := IntValue(p[4]));
    assert Fields(ds[3..], p[3..]) == last;
    var middle := Fields(ds[2..], p[2..]);
    assert middle == last.(month := IntValue(p[2]));
    assert Fields(ds[1..], p[1..]) == middle;
  }

  /** What the regular-expression stage accepts, read back from the match. */
  lemma ScanWrites(f: Format, s: string)
    requires Scan(f, s).Some?
    ensures Writes(f, Scan(f, s).value, s)
  {
    var ds := Directives(f);
    var m := MatchFrom(ds, s).value;
    var p := m.pieces;
    assert s[..m.len] == s;
    Concat5(p);
    LiteralSpells(Separator(f), p[1]);
    LiteralSpells(Separator(f), p[3]);
    assert ds[1] == Literal(Separator(f)) && ds[3] == Literal(Separator(f));
    SpelledNumerals(ds, p);
    FieldsLayout(f, p);
    SpelledText(ds[0], p[0]);
    SpelledText(ds[2], p[2]);
    SpelledText(ds[4], p[4]);
    var dt := Scan(f, s).value;
    if YearFirst(f) {
      assert p[0] in YearTexts(dt.year) && p[2] in MonthTexts(dt.month) && p[4] in DayTexts(dt.day);
      assert s == Join(f, p[0], p[2], p[4]);
    } else {
      assert p[4] in YearTexts(dt.year) && p[2] in MonthTexts(dt.month) && p[0] in DayTexts(dt.day);
      assert s == Join(f, p[4], p[2], p[0]);
    }
  }

  /** The pieces a spelling splits into, one per directive of the format. */
  function Layout(f: Format, y: string, m: string, d: string): seq<string> {
    var sep := [Separator(f)];
    if YearFirst(f) then [y, sep, m, sep, d] else [d, sep, m, sep, y]
  }

  lemma MatchLayout(f: Format, y: string, m: string, d: string)
    requires Spells(YearDirective, y) && Spells(MonthDirective, m) && Spells(DayDirective, d)
    ensures MatchFrom(Directives(f), Join(f, y, m, d)) == Some(Match(Layout(f, y, m, d), |Join(f, y, m, d)|))
  {
    var ds, p := Directives(f), Layout(f, y, m, d);
    var sep := Separator(f);
    LiteralSpells(sep, [sep]);
    Concat5(p);
    if YearFirst(f) {
      assert ds == [YearDirective, Literal(sep), MonthDirective, Literal(sep), DayDirective];
      assert p == [y, [sep], m, [sep], d];
    } else {
      assert ds == [DayDirective, Literal(sep), MonthDirective, Literal(sep), YearDirective];
      assert p == [d, [sep], m, [sep], y];
    }
    assert forall i :: 0 <= i < 5 ==> Spells(ds[i], p[i]);
    MatchComplete(ds, p);
  }

  /** A match of the whole text gives the fields its pieces denote. */
  lemma ScanOfMatch(f: Format, s: string, m: Match)
    requires MatchFrom(Directives(f), s) == Some(m) && m.len == |s|
    ensures Numerals(Directives(f), m.pieces) && Scan(f, s) == Some(Fields(Directives(f), m.pieces))
  {
    SpelledNumerals(Directives(f), m.pieces);
  }

  /** Every spelling of the fields is accepted by the regular-expression stage. */
  lemma WritesScan(f: Format, dt: Date, s: string)
    requires Writes(f, dt, s)
    ensures Scan(f, s) == Some(dt)
  {
    var y, m, d :| y in YearTexts(dt.year) && m in MonthTexts(dt.month) && d in DayTexts(dt.day) && s == Join(f, y, m, d);
    YearTextSpelled(dt.year, y);
    MonthTextSpelled(dt.month, m);
    DayTextSpelled(dt.day, d);
    MatchLayout(f, y, m, d);
    var p := Layout(f, y, m, d);
    ScanOfMatch(f, s, Match(p, |s|));
    FieldsLayout(f, p);
  }

  /** The regular-expression stage accepts exactly the spellings of the fields. */
  lemma ScanSpec(f: Format, s: string, dt: Date)
    ensures Scan(f, s) == Some(dt) <==> Writes(f, dt, s)
  {
    if Scan(f, s) == Some(dt) {
      ScanWrites(f, s);
    }
    if Writes(f, dt, s) {
      WritesScan(f, dt, s);
    }
  }

  /**
   * `strptime` with one format returns a date exactly when the text is one of
   * that date's spellings in the format and the date is a real one.
   */
  lemma StrptimeSpec(f: Format, s: string, dt: Date)
    ensures Strptime(f, s) == Some(dt) <==> ValidDate(dt) && Writes(f, dt, s)
  {
    ScanSpec(f, s, dt);
  }

  // The formats are mutually exclusive

  /** Position `i` holds the separator `c` and only digits or blanks come before it. */
  predicate SeparatorAt(s: string, i: nat, c: char) {
    i < |s| && s[i] == c && forall j :: 0 <= j < i ==> IsDigit(s[j]) || s[j] == ' '
  }

  lemma YearTextShape(v: int, t: string)
    requires t in YearTexts(v)
    ensures |t| == 4 && AllDigits(t)
  {
    PadDecimal(v, 4);
  }

  lemma DayTextShape(v: int, t: string)
    requires t in DayTexts(v)
    ensures 1 <= |t| <= 2 && forall j :: 0 <= j < |t| ==> IsDigit(t[j]) || t[j] == ' '
  {
    PadDecimal(v, 2);
  }

  lemma YearFirstSeparator(f: Format, y: string, rest: string)
    requires |y| == 4 && AllDigits(y)
    ensures SeparatorAt(y + [Separator(f)] + rest, 4, Separator(f))
  {
    var s := y + [Separator(f)] + rest;
    assert forall j :: 0 <= j < 4 ==> s[j] == y[j];
  }

  lemma DayFirstSeparator(f: Format, d: string, rest: string)
    requires 1 <= |d| <= 2 && forall j :: 0 <= j < |d| ==> IsDigit(d[j]) || d[j] == ' '
    ensures SeparatorAt(d + [Separator(f)] + rest, |d|, Separator(f))
  {
    var s := d + [Separator(f)] + rest;
    assert forall j :: 0 <= j < |d| ==> s[j] == d[j];
  }

  /** Year-first texts have their separator after four digits, day-first texts after one or two characters. */
  lemma WritesSeparator(f: Format, dt: Date, s: string)
    requires Writes(f, dt, s)
    ensures YearFirst(f) ==> SeparatorAt(s, 4, Separator(f))
    ensures !YearFirst(f) ==> SeparatorAt(s, 1, Separator(f)) || SeparatorAt(s, 2, Separator(f))
  {
    var y, m, d :| y in YearTexts(dt.year) && m in MonthTexts(dt.month) && d in DayTexts(dt.day) && s == Join(f, y, m, d);
    YearTextShape(dt.year, y);
    DayTextShape(dt.day, d);
    JoinSeparator(f, y, m, d);
  }

  lemma JoinSeparator(f: Format, y: string, m: string, d: string)
    requires |y| == 4 && AllDigits(y)
    requires 1 <= |d| <= 2 && forall j :: 0 <= j < |d| ==> IsDigit(d[j]) || d[j] == ' '
    ensures YearFirst(f) ==> SeparatorAt(Join(f, y, m, d), 4, Separator(f))
    ensures !YearFirst(f) ==> SeparatorAt(Join(f, y, m, d), |d|, Separator(f))
  {
    var sep := [Separator(f)];
    if YearFirst(f) {
      assert Join(f, y, m, d) == y + sep + (m + sep + d);
      YearFirstSeparator(f, y, m + sep + d);
    } else {
      assert Join(f, y, m, d) == d + sep + (m + sep + y);
      DayFirstSeparator(f, d, m + sep + y);
    }
  }

  /** Two separators, each preceded only by digits and blanks, are the same one at the same place. */
  lemma SeparatorsAgree(s: string, i1: nat, c1: char, i2: nat, c2: char)
    requires SeparatorAt(s, i1, c1) && SeparatorAt(s, i2, c2)
    requires !IsDigit(c1) && c1 != ' ' && !IsDigit(c2) && c2 != ' '
    ensures i1 == i2 && c1 == c2
  {
  }

  /** No text passes the regular-expression stage of two different formats. */
  lemma ScanExclusive(f1: Format, f2: Format, s: string)
    requires Scan(f1, s).Some? && Scan(f2, s).Some?
    ensures f1 == f2
  {
    ScanWrites(f1, s);
    ScanWrites(f2, s);
    WritesExclusive(f1, Scan(f1, s).value, f2, Scan(f2, s).value, s);
  }

  /** No text writes fields in two different formats. */
  lemma WritesExclusive(f1: Format, dt1: Date, f2: Format, dt2: Date, s: string)
    requires Writes(f1, dt1, s) && Writes(f2, dt2, s)
    ensures f1 == f2
  {
    WritesSeparator(f1, dt1, s);
    WritesSeparator(f2, dt2, s);
    var c1, c2 := Separator(f1), Separator(f2);
    var i1: nat := if YearFirst(f1) then 4 else if SeparatorAt(s, 1, c1) then 1 else 2;
    var i2: nat := if YearFirst(f2) then 4 else if SeparatorAt(s, 1, c2) then 1 else 2;
    SeparatorsAgree(s, i1, c1, i2, c2);
  }
}
