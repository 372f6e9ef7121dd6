/** The one timestamp format (crates/refyard-host/src/clock.rs, `format_iso8601_millis`):
    the date-time of section 5.6 of RFC 3339, in UTC with three digits of a second. */
module ClockText {
  import opened CivilClock
  import opened Numerals
  import opened TextOrder
  import opened Wrappers

  // ------------------------------------------------------- zero-padded fields

  function ZeroPadded(digits: string, width: nat): string
    decreases width - |digits|
  {
    if |digits| >= width then digits else ZeroPadded("0" + digits, width)
  }

  /** A zero-filled number: the sign comes first and counts towards the width. */
  function Padded(value: int, width: nat): string
    requires width > 0
  {
    if value >= 0 then ZeroPadded(Decimal(value), width) else "-" + ZeroPadded(Decimal(-value), width - 1)
  }

  function PowerOf10(exponent: nat): (power: nat)
    ensures power > 0
  {
    if exponent == 0 then 1 else 10 * PowerOf10(exponent - 1)
  }

  /** The last `width` decimal digits. */
  function Fixed(value: nat, width: nat): (text: string)
    ensures |text| == width && forall i :: 0 <= i < width ==> '0' <= text[i] <= '9'
  {
    if width == 0 then "" else Fixed(value / 10, width - 1) + [Digit(value % 10)]
  }

  lemma {:induction false} ZeroPaddedSnoc(digits: string, last: char, width: nat)
    requires width > 0
    ensures ZeroPadded(digits + [last], width) == ZeroPadded(digits, width - 1) + [last]
    decreases width - |digits|
  {
    if |digits| + 1 < width {
      assert "0" + (digits + [last]) == ("0" + digits) + [last];
      ZeroPaddedSnoc("0" + digits, last, width);
    }
  }

  lemma {:induction false} ZerosAreFixed(width: nat)
    ensures ZeroPadded("", width) == Fixed(0, width)
  {
    if width > 0 {
      ZerosAreFixed(width - 1);
      assert "0" + "" == "" + ['0'];
      ZeroPaddedSnoc("", '0', width);
    }
  }

  /** A number that fits its field is exactly as wide as the field. */
  lemma {:induction false} PaddedIsFixed(value: nat, width: nat)
    requires width > 0 && value < PowerOf10(width)
    ensures ZeroPadded(Decimal(value), width) == Fixed(value, width)
    decreases width
  {
    var last := Digit(value % 10);
    if value < 10 {
      ZerosAreFixed(width - 1);
      assert Decimal(value) == "" + [last];
      ZeroPaddedSnoc("", last, width);
    } else {
      assert width > 1 by { assert PowerOf10(1) == 10 * PowerOf10(0); }
      PaddedIsFixed(value / 10, width - 1);
      ZeroPaddedSnoc(Decimal(value / 10), last, width);
    }
  }

  /** A number too large for its field is wider than the field. */
  lemma {:induction false} TooLargeIsWider(value: nat, width: nat)
    requires value >= PowerOf10(width)
    ensures |Decimal(value)| > width
    decreases width
  {
    if width > 0 {
      TooLargeIsWider(value / 10, width - 1);
    }
  }

  /** Fixed-width fields sort as their numbers do. */
  lemma {:induction false} FixedKeepsOrder(a: nat, b: nat, width: nat)
    requires a < PowerOf10(width) && b < PowerOf10(width)
    ensures Before(Fixed(a, width), Fixed(b, width)) <==> a < b
    ensures Fixed(a, width) == Fixed(b, width) <==> a == b
    decreases width
  {
    if width > 0 {
      var x, y := Digit(a % 10), Digit(b % 10);
      var front, back := Fixed(a / 10, width - 1), Fixed(b / 10, width - 1);
      FixedKeepsOrder(a / 10, b / 10, width - 1);
      BeforeConcat(front, [x], back, [y]);
      BeforeHead([x], [y]);
      assert x < y <==> a % 10 < b % 10;
      assert (front + [x])[..width - 1] == front && (back + [y])[..width - 1] == back;
      hide Before, Fixed;
    }
  }

  lemma Powers()
    ensures PowerOf10(2) == 100 && PowerOf10(3) == 1000 && PowerOf10(4) == 10000
  {
    assert PowerOf10(2) == 10 * PowerOf10(1);
    assert PowerOf10(4) == 100 * PowerOf10(2);
  }

  // --------------------------------------------------------------- the format

  /** A separator, a field, and what follows. */
  function Field(separator: char, value: nat, width: nat, rest: string): string
    requires width > 0
  {
    [separator] + (Padded(value, width) + rest)
  }

  function TimeText(secondOfDay: nat, milli: nat): string {
    Field('T', secondOfDay / 3600, 2,
      Field(':', secondOfDay % 3600 / 60, 2,
        Field(':', secondOfDay % 60, 2,
          Field('.', milli, 3, "Z"))))
  }

  function MonthAndDay(date: Date, rest: string): string { Field('-', date.month, 2, Field('-', date.day, 2, rest)) }

  /** The date an instant falls on; `div_euclid` rounds towards the past. */
  function DateOf(millis: int): Date { CivilFromDays(millis / 1000 / 86400) }

  function AfterYear(millis: int): string {
    MonthAndDay(DateOf(millis), TimeText(millis / 1000 % 86400, millis % 1000))
  }

  /** `format_iso8601_millis`. */
  function FormatIso8601Millis(millis: int): string { Padded(DateOf(millis).year, 4) + AfterYear(millis) }

  // ---------------------------------------------------------------- ordering

  lemma FieldBefore(separator: char, a: nat, b: nat, width: nat, x: string, y: string)
    requires width > 0 && a < PowerOf10(width) && b < PowerOf10(width)
    ensures Before(Field(separator, a, width, x), Field(separator, b, width, y)) <==> a < b || (a == b && Before(x, y))
    ensures |Field(separator, a, width, x)| == 1 + width + |x|
  {
    hide AtMost, Before, ZeroPadded, Fixed, PowerOf10;
    PaddedIsFixed(a, width);
    PaddedIsFixed(b, width);
    FixedKeepsOrder(a, b, width);
    BeforeConcat(Padded(a, width), x, Padded(b, width), y);
    BeforeConcat([separator], Padded(a, width) + x, [separator], Padded(b, width) + y);
    NotBeforeItself([separator]);
  }

  lemma NotBeforeItself(text: string)
    ensures !Before(text, text)
  {}

  /** Times of day sort as they pass. */
  lemma TimeBefore(s: nat, m: nat, t: nat, n: nat)
    requires s < 86400 && t < 86400 && m < 1000 && n < 1000
    ensures Before(TimeText(s, m), TimeText(t, n)) <==> s < t || (s == t && m < n)
    ensures |TimeText(s, m)| == 14
  {
    hide AtMost, Before, Field, PowerOf10;
    Powers();
    var x3, y3 := Field('.', m, 3, "Z"), Field('.', n, 3, "Z");
    var x2, y2 := Field(':', s % 60, 2, x3), Field(':', t % 60, 2, y3);
    var x1, y1 := Field(':', s % 3600 / 60, 2, x2), Field(':', t % 3600 / 60, 2, y2);
    NotBeforeItself("Z");
    FieldBefore('.', m, n, 3, "Z", "Z");
    FieldBefore(':', s % 60, t % 60, 2, x3, y3);
    FieldBefore(':', s % 3600 / 60, t % 3600 / 60, 2, x2, y2);
    FieldBefore('T', s / 3600, t / 3600, 2, x1, y1);
    SecondsByUnits(s, t);
  }

  lemma SecondsByUnits(s: nat, t: nat)
    ensures s < t <==> s / 3600 < t / 3600 || (s / 3600 == t / 3600 && (s % 3600 / 60 < t % 3600 / 60
                       || (s % 3600 / 60 == t % 3600 / 60 && s % 60 < t % 60)))
    ensures s == t <==> s / 3600 == t / 3600 && s % 3600 / 60 == t % 3600 / 60 && s % 60 == t % 60
  {
    SecondsInUnits(s);
    SecondsInUnits(t);
    UnitsCompare(s / 3600, s % 3600 / 60, s % 60, t / 3600, t % 3600 / 60, t % 60);
  }

  lemma SecondsInUnits(s: nat)
    ensures s == 3600 * (s / 3600) + 60 * (s % 3600 / 60) + s % 60
    ensures s % 3600 / 60 < 60
  {
    assert s % 3600 % 60 == s % 60;
  }

  lemma UnitsCompare(h: nat, m: nat, s: nat, i: nat, n: nat, t: nat)
    requires m < 60 && s < 60 && n < 60 && t < 60
    ensures 3600 * h + 60 * m + s < 3600 * i + 60 * n + t <==> h < i || (h == i && (m < n || (m == n && s < t)))
    ensures 3600 * h + 60 * m + s == 3600 * i + 60 * n + t <==> h == i && m == n && s == t
  {}

  lemma MonthAndDayBefore(a: Date, b: Date, x: string, y: string)
    requires Valid(a) && Valid(b) && a.year == b.year
    ensures Before(MonthAndDay(a, x), MonthAndDay(b, y)) <==> Earlier(a, b) || (a == b && Before(x, y))
    ensures |MonthAndDay(a, x)| == 6 + |x|
  {
    hide AtMost, Before, Field, PowerOf10, IsLeap;
    Powers();
    FieldBefore('-', a.day, b.day, 2, x, y);
    FieldBefore('-', a.month, b.month, 2, Field('-', a.day, 2, x), Field('-', b.day, 2, y));
  }

  lemma InstantsByDay(a: int, b: int)
    ensures var (d, e) := (a / 1000 / 86400, b / 1000 / 86400);
            var (s, t) := (a / 1000 % 86400, b / 1000 % 86400);
            && 0 <= s < 86400 && 0 <= t < 86400
            && (a < b <==> d < e || (d == e && (s < t || (s == t && a % 1000 < b % 1000))))
  {
    assert a == 1000 * (86400 * (a / 1000 / 86400) + a / 1000 % 86400) + a % 1000;
    assert b == 1000 * (86400 * (b / 1000 / 86400) + b / 1000 % 86400) + b % 1000;
  }

  /** Within one year the text after the year sorts as the instants do. */
  lemma AfterYearBefore(a: int, b: int)
    requires DateOf(a).year == DateOf(b).year
    ensures Before(AfterYear(a), AfterYear(b)) <==> a < b
  {
    hide AtMost, Before, Earlier, Valid, CivilFromDays, MonthAndDay, TimeText;
    var d, e := a / 1000 / 86400, b / 1000 / 86400;
    InstantsByDay(a, b);
    DayOfCivil(d);
    DayOfCivil(e);
    CivilKeepsOrder(d, e);
    SameDateSameDay(d, e);
    TimeBefore(a / 1000 % 86400, a % 1000, b / 1000 % 86400, b % 1000);
    MonthAndDayBefore(DateOf(a), DateOf(b), TimeText(a / 1000 % 86400, a % 1000), TimeText(b / 1000 % 86400, b % 1000));
  }

  lemma SameDateSameDay(d: int, e: int)
    ensures CivilFromDays(d) == CivilFromDays(e) <==> d == e
  {
    hide CivilFromDays, DayNumber;
    DayOfCivil(d);
    DayOfCivil(e);
  }

  lemma AfterYearLength(millis: int)
    ensures |AfterYear(millis)| == 20
  {
    hide Valid, CivilFromDays, MonthAndDay, TimeText;
    DayOfCivil(millis / 1000 / 86400);
    InstantsByDay(millis, millis);
    TimeBefore(millis / 1000 % 86400, millis % 1000, millis / 1000 % 86400, millis % 1000);
    MonthAndDayBefore(DateOf(millis), DateOf(millis), TimeText(millis / 1000 % 86400, millis % 1000), "");
  }

  // ------------------------------------------------------------ the year field

  /** The year takes four characters exactly from -999 to 9999. */
  lemma YearWidth(year: int)
    ensures |Padded(year, 4)| == 4 <==> -999 <= year <= 9999
  {
    hide Fixed, PowerOf10;
    Powers();
    if 0 <= year <= 9999 {
      PaddedIsFixed(year, 4);
    } else if -999 <= year < 0 {
      PaddedIsFixed(-year, 3);
    } else if year > 9999 {
      TooLargeIsWider(year, 4);
    } else {
      TooLargeIsWider(-year, 3);
    }
  }

  /** Non-negative four-character years sort as numbers, negative ones sort first and backwards. */
  lemma YearOrder(a: int, b: int)
    requires -999 <= a <= 9999 && -999 <= b <= 9999
    ensures Before(Padded(a, 4), Padded(b, 4)) <==> if a < 0 && b < 0 then b < a else a < b
  {
    hide AtMost, Before, Fixed, PowerOf10, ZeroPadded;
    Powers();
    YearIsFixed(a);
    YearIsFixed(b);
    if a >= 0 && b >= 0 {
      FixedKeepsOrder(a, b, 4);
    } else if a < 0 && b < 0 {
      FixedKeepsOrder(-a, -b, 3);
      BeforeConcat("-", Fixed(-a, 3), "-", Fixed(-b, 3));
      NotBeforeItself("-");
    } else {
      BeforeHead(Padded(a, 4), Padded(b, 4));
    }
  }

  lemma YearIsFixed(year: int)
    requires -999 <= year <= 9999
    ensures Padded(year, 4) == if year >= 0 then Fixed(year, 4) else "-" + Fixed(-year, 3)
  {
    hide ZeroPadded, Fixed, PowerOf10;
    Powers();
    if year >= 0 { PaddedIsFixed(year, 4); } else { PaddedIsFixed(-year, 3); }
  }

  lemma {:induction false} ZerosKeepValue(digits: string, width: nat)
    ensures NumeralValue(ZeroPadded(digits, width), Ten) == NumeralValue(digits, Ten)
    ensures digits != "" && '0' <= digits[0] <= '9' ==> ZeroPadded(digits, width) != "" && '0' <= ZeroPadded(digits, width)[0] <= '9'
    decreases width - |digits|
  {
    if |digits| < width {
      LeadingZero(digits);
      ZerosKeepValue("0" + digits, width);
    }
  }

  lemma {:induction false} LeadingZero(digits: string)
    ensures NumeralValue("0" + digits, Ten) == NumeralValue(digits, Ten)
    decreases |digits|
  {
    var text := "0" + digits;
    if digits == "" {
      assert text[..0] == "";
    } else {
      assert text[..|text| - 1] == "0" + digits[..|digits| - 1];
      LeadingZero(digits[..|digits| - 1]);
    }
  }

  /** Different years have different text, at any width. */
  lemma YearTextInjective(a: int, b: int)
    ensures Padded(a, 4) == Padded(b, 4) <==> a == b
  {
    hide NumeralValue, ZeroPadded;
    YearValue(a);
    YearValue(b);
  }

  /** Reading a year back: a leading sign, then the digits. */
  function YearOf(text: string): int {
    if text != "" && text[0] == '-' then 0 - NumeralValue(text[1..], Ten) else NumeralValue(text, Ten)
  }

  lemma YearValue(year: int)
    ensures YearOf(Padded(year, 4)) == year
  {
    hide NumeralValue, ZeroPadded;
    var digits, width := if year >= 0 then Decimal(year) else Decimal(-year), if year >= 0 then 4 else 3;
    NumeralRoundTrip(if year >= 0 then year else -year, Ten);
    ZerosKeepValue(digits, width);
    assert ("-" + ZeroPadded(digits, width))[1..] == ZeroPadded(digits, width);
  }

  // ------------------------------------------------------------- main results

  /** The text is 24 characters long exactly for the years -999 to 9999. */
  lemma LengthIsFixed(millis: int)
    ensures |FormatIso8601Millis(millis)| == 24 <==> -999 <= DateOf(millis).year <= 9999
  {
    hide Padded, AfterYear, DateOf;
    YearWidth(DateOf(millis).year);
    AfterYearLength(millis);
  }

  /** No two instants share a text, over the whole range and at every length. */
  lemma FormatIsInjective(a: int, b: int)
    ensures FormatIso8601Millis(a) == FormatIso8601Millis(b) <==> a == b
  {
    hide Padded, AfterYear, DateOf, Before;
    if FormatIso8601Millis(a) == FormatIso8601Millis(b) {
      AfterYearLength(a);
      AfterYearLength(b);
      SamePrefix(Padded(DateOf(a).year, 4), AfterYear(a), Padded(DateOf(b).year, 4), AfterYear(b));
      YearTextInjective(DateOf(a).year, DateOf(b).year);
      AfterYearBefore(a, b);
      AfterYearBefore(b, a);
      NotBeforeItself(AfterYear(a));
    }
  }

  lemma SamePrefix(a: string, b: string, c: string, d: string)
    requires a + b == c + d && |b| == |d|
    ensures a == c && b == d
  {
    var text := a + b;
    assert a == text[..|a|] && b == text[|a|..];
    assert text == c + d && |a| == |c|;
    assert c == text[..|c|] && d == text[|c|..];
  }

  /** Four-character years: text order is the order of the instants, except between two
      different years before year 0, where it is the reverse. */
  lemma FormatOrder(a: int, b: int)
    requires -999 <= DateOf(a).year <= 9999 && -999 <= DateOf(b).year <= 9999
    ensures var (y, z) := (DateOf(a).year, DateOf(b).year);
            Before(FormatIso8601Millis(a), FormatIso8601Millis(b)) <==> if y < 0 && z < 0 && y != z then b < a else a < b
  {
    hide Padded, AfterYear, Before, AtMost, CivilFromDays;
    var y, z := DateOf(a).year, DateOf(b).year;
    YearWidth(y);
    YearWidth(z);
    YearOrder(y, z);
    YearTextInjective(y, z);
    BeforeConcat(Padded(y, 4), AfterYear(a), Padded(z, 4), AfterYear(b));
    if y == z {
      AfterYearBefore(a, b);
    } else {
      YearsAreOrdered(a, b);
    }
  }

  lemma YearsAreOrdered(a: int, b: int)
    requires DateOf(a).year != DateOf(b).year
    ensures a < b <==> DateOf(a).year < DateOf(b).year
  {
    hide CivilFromDays;
    InstantsByDay(a, b);
    CivilKeepsOrder(a / 1000 / 86400, b / 1000 / 86400);
    CivilKeepsOrder(b / 1000 / 86400, a / 1000 / 86400);
  }

  /** In the years 0000 to 9999, the ones the format is for, sorting texts sorts instants. */
  lemma FormatKeepsOrder(a: int, b: int)
    requires 0 <= DateOf(a).year <= 9999 && 0 <= DateOf(b).year <= 9999
    ensures Before(FormatIso8601Millis(a), FormatIso8601Millis(b)) <==> a < b
  {
    hide FormatIso8601Millis, Before, DateOf;
    FormatOrder(a, b);
  }

  // ----------------------------------------------------------------- the shape

  /** A pattern: `d` stands for a digit, anything else for itself. */
  predicate Matches(text: string, pattern: string) {
    |text| == |pattern|
    && forall i :: 0 <= i < |text| ==> if pattern[i] == 'd' then '0' <= text[i] <= '9' else text[i] == pattern[i]
  }

  lemma MatchesConcat(a: string, p: string, b: string, q: string)
    requires Matches(a, p) && Matches(b, q)
    ensures Matches(a + b, p + q)
  {}

  function Digits(width: nat): string { seq(width, i => 'd') }

  lemma FieldMatches(separator: char, value: nat, width: nat, rest: string, pattern: string)
    requires separator != 'd' && width > 0 && value < PowerOf10(width) && Matches(rest, pattern)
    ensures Matches(Field(separator, value, width, rest), [separator] + (Digits(width) + pattern))
  {
    hide ZeroPadded, PowerOf10, Fixed;
    PaddedIsFixed(value, width);
    MatchesConcat(Padded(value, width), Digits(width), rest, pattern);
    MatchesConcat([separator], [separator], Padded(value, width) + rest, Digits(width) + pattern);
  }

  /** The pattern, built up from its right end. */
  lemma TimePatterns()
    ensures Digits(2) == "dd" && Digits(3) == "ddd" && Matches("Z", "Z")
    ensures "." + ("ddd" + "Z") == ".dddZ"
    ensures ":" + ("dd" + ".dddZ") == ":dd.dddZ"
    ensures ":" + ("dd" + ":dd.dddZ") == ":dd:dd.dddZ"
    ensures "T" + ("dd" + ":dd:dd.dddZ") == "Tdd:dd:dd.dddZ"
  {}

  lemma DatePatterns()
    ensures "-" + ("dd" + "Tdd:dd:dd.dddZ") == "-ddTdd:dd:dd.dddZ"
    ensures "-" + ("dd" + "-ddTdd:dd:dd.dddZ") == "-dd-ddTdd:dd:dd.dddZ"
  {}

  lemma WholePattern()
    ensures Digits(4) == "dddd"
    ensures "dddd" + "-dd-ddTdd:dd:dd.dddZ" == "dddd-dd-ddTdd:dd:dd.dddZ"
  {}

  lemma TimeMatches(s: nat, m: nat)
    requires s < 86400 && m < 1000
    ensures Matches(TimeText(s, m), "Tdd:dd:dd.dddZ")
  {
    hide Matches, Field, PowerOf10, Digits;
    Powers();
    TimePatterns();
    var x3 := Field('.', m, 3, "Z");
    var x2 := Field(':', s % 60, 2, x3);
    FieldMatches('.', m, 3, "Z", "Z");
    FieldMatches(':', s % 60, 2, x3, ".dddZ");
    FieldMatches(':', s % 3600 / 60, 2, x2, ":dd.dddZ");
    FieldMatches('T', s / 3600, 2, Field(':', s % 3600 / 60, 2, x2), ":dd:dd.dddZ");
  }

  /** The text has the shape of a date-time exactly in the years 0000 to 9999. */
  lemma FormatShape(millis: int)
    ensures Matches(FormatIso8601Millis(millis), "dddd-dd-ddTdd:dd:dd.dddZ") <==> 0 <= DateOf(millis).year <= 9999
  {
    var year := DateOf(millis).year;
    AfterYearLength(millis);
    YearWidth(year);
    if 0 <= year <= 9999 {
      AfterYearMatches(millis);
      YearMatches(year, AfterYear(millis));
    } else if -999 <= year < 0 {
      YearIsFixed(year);
      assert FormatIso8601Millis(millis)[0] == '-';
    }
    hide AfterYear, Padded, DateOf;
  }

  lemma YearMatches(year: nat, rest: string)
    requires year <= 9999 && Matches(rest, "-dd-ddTdd:dd:dd.dddZ")
    ensures Matches(Padded(year, 4) + rest, "dddd-dd-ddTdd:dd:dd.dddZ")
  {
    hide ZeroPadded, Digits;
    YearIsFixed(year);
    WholePattern();
    MatchesConcat(Fixed(year, 4), "dddd", rest, "-dd-ddTdd:dd:dd.dddZ");
  }

  lemma AfterYearMatches(millis: int)
    ensures Matches(AfterYear(millis), "-dd-ddTdd:dd:dd.dddZ")
  {
    hide Matches, Field, PowerOf10, Digits, CivilFromDays, DayNumber, TimeText, IsLeap;
    Powers();
    TimePatterns();
    DatePatterns();
    InstantsByDay(millis, millis);
    DayOfCivil(millis / 1000 / 86400);
    var date, time := DateOf(millis), TimeText(millis / 1000 % 86400, millis % 1000);
    TimeMatches(millis / 1000 % 86400, millis % 1000);
    FieldMatches('-', date.day, 2, time, "Tdd:dd:dd.dddZ");
    FieldMatches('-', date.month, 2, Field('-', date.day, 2, time), "-ddTdd:dd:dd.dddZ");
  }

  // ------------------------------------------------------------- reading it back

  /** The digits behind a separator. */
  function FieldValue(text: string, width: nat): nat
    requires |text| > width
  {
    NumeralValue(text[1..1 + width], Ten)
  }

  lemma FieldReads(separator: char, value: nat, width: nat, rest: string)
    requires width > 0 && value < PowerOf10(width)
    ensures var text := Field(separator, value, width, rest);
            |text| > width && FieldValue(text, width) == value && text[1 + width..] == rest
  {
    hide ZeroPadded, Fixed, PowerOf10, NumeralValue;
    PaddedIsFixed(value, width);
    ZerosKeepValue(Decimal(value), width);
    NumeralRoundTrip(value, Ten);
    var text := Field(separator, value, width, rest);
    assert text[1..1 + width] == Padded(value, width) && text[1 + width..] == rest;
  }

  /** The time of day a text like `T12:34:56.789Z` names, in milliseconds. */
  function TimeRead(text: string): Option<nat> {
    if |text| != 14 then None
    else
      var (hour, afterHour) := (FieldValue(text, 2), text[3..]);
      var (minute, afterMinute) := (FieldValue(afterHour, 2), afterHour[3..]);
      var (second, afterSecond) := (FieldValue(afterMinute, 2), afterMinute[3..]);
      Some(1000 * (3600 * hour + 60 * minute + second) + FieldValue(afterSecond, 3))
  }

  /** The instant a 24-character date-time names, by the calendar. */
  function InstantRead(text: string): Option<int> {
    if |text| != 24 then None
    else
      var (year, afterYear) := (NumeralValue(text[..4], Ten), text[4..]);
      var (month, afterMonth) := (FieldValue(afterYear, 2), afterYear[3..]);
      var date, time := Date(year, month, FieldValue(afterMonth, 2)), TimeRead(afterMonth[3..]);
      if !Valid(date) || time.None? then None else Some(86400000 * DayNumber(date) + time.value)
  }

  lemma TimeReadsBack(s: nat, m: nat)
    requires s < 86400 && m < 1000
    ensures TimeRead(TimeText(s, m)) == Some(1000 * s + m)
  {
    hide Field, FieldValue, PowerOf10;
    Powers();
    TimeBefore(s, m, s, m);
    SecondsInUnits(s);
    var x3 := Field('.', m, 3, "Z");
    var x2 := Field(':', s % 60, 2, x3);
    FieldReads('.', m, 3, "Z");
    FieldReads(':', s % 60, 2, x3);
    FieldReads(':', s % 3600 / 60, 2, x2);
    FieldReads('T', s / 3600, 2, Field(':', s % 3600 / 60, 2, x2));
  }

  /** Read as a calendar date-time, the text names the very instant it was made from. */
  lemma FormatReadsBack(millis: int)
    requires 0 <= DateOf(millis).year <= 9999
    ensures InstantRead(FormatIso8601Millis(millis)) == Some(millis)
  {
    hide Field, FieldValue, PowerOf10, Padded, NumeralValue, CivilFromDays, DayNumber, TimeText, TimeRead, IsLeap;
    Powers();
    var date, s, m := DateOf(millis), millis / 1000 % 86400, millis % 1000;
    InstantsByDay(millis, millis);
    LengthIsFixed(millis);
    YearWidth(date.year);
    YearReads(date.year);
    DayOfCivil(millis / 1000 / 86400);
    TimeReadsBack(s, m);
    FieldReads('-', date.day, 2, TimeText(s, m));
    FieldReads('-', date.month, 2, Field('-', date.day, 2, TimeText(s, m)));
    var text := FormatIso8601Millis(millis);
    assert text[..4] == Padded(date.year, 4) && text[4..] == AfterYear(millis);
    assert millis == 86400000 * (millis / 1000 / 86400) + (1000 * s + m);
  }

  lemma YearReads(year: nat)
    ensures NumeralValue(Padded(year, 4), Ten) == year
  {
    ZerosKeepValue(Decimal(year), 4);
    NumeralRoundTrip(year, Ten);
  }
}
