/** Reading and writing dates as text: `datetime.strptime(text, "%Y-%m-%d")` as
    CPython's regular-expression based parser does it, and `str(date)`.

    The format compiles to the pattern
      (\d\d\d\d)-(1[0-2]|0[1-9]|[1-9])-(3[01]|[12]\d|0[1-9]|[1-9]| [1-9])
    matched at the start of the text; text left over after the match is an error
    ("unconverted data remains"), and so are year 0 and a day past the end of the
    month. So the month and the day may be written with or without a leading
    zero, and a day below 10 also with a leading space. */
module DateText {
  import opened Tables
  import opened Calendar

  predicate IsDigit(c: char) {
    '0' <= c <= '9'
  }

  predicate IsNonZeroDigit(c: char) {
    '1' <= c <= '9'
  }

  function DigitValue(c: char): (n: int)
    requires IsDigit(c)
    ensures 0 <= n <= 9
  {
    c as int - '0' as int
  }

  function Digit(n: int): (c: char)
    requires 0 <= n <= 9
    ensures IsDigit(c) && DigitValue(c) == n
  {
    (n + '0' as int) as char
  }

  // ------------------------------------------------------------- the fields

  /** `\d\d\d\d` and `int()`. */
  function ParseYear(t: string): (r: Option<int>)
    requires |t| == 4
    ensures r.Some? ==> 0 <= r.value <= 9999
  {
    if IsDigit(t[0]) && IsDigit(t[1]) && IsDigit(t[2]) && IsDigit(t[3]) then
      Some(1000 * DigitValue(t[0]) + 100 * DigitValue(t[1]) + 10 * DigitValue(t[2]) + DigitValue(t[3]))
    else None
  }

  /** The month text, exactly, before the second `-`: `1[0-2]|0[1-9]|[1-9]`. */
  function ParseMonth(t: string): (r: Option<int>)
    ensures r.Some? ==> 1 <= r.value <= 12
  {
    if |t| == 2 && t[0] == '1' && '0' <= t[1] <= '2' then Some(10 + DigitValue(t[1]))
    else if |t| == 2 && t[0] == '0' && IsNonZeroDigit(t[1]) then Some(DigitValue(t[1]))
    else if |t| == 1 && IsNonZeroDigit(t[0]) then Some(DigitValue(t[0]))
    else None
  }

  /** The first alternative of `3[01]|[12]\d|0[1-9]|[1-9]| [1-9]` that matches at the
      start of `t`: how many characters it takes and the day it reads. */
  function DayAlternative(t: string): (r: Option<(nat, int)>)
    ensures r.Some? ==> 1 <= r.value.0 <= 2 && r.value.0 <= |t| && 1 <= r.value.1 <= 31
  {
    if |t| >= 2 && t[0] == '3' && (t[1] == '0' || t[1] == '1') then Some((2, 30 + DigitValue(t[1])))
    else if |t| >= 2 && (t[0] == '1' || t[0] == '2') && IsDigit(t[1]) then
      Some((2, 10 * DigitValue(t[0]) + DigitValue(t[1])))
    else if |t| >= 2 && t[0] == '0' && IsNonZeroDigit(t[1]) then Some((2, DigitValue(t[1])))
    else if |t| >= 1 && IsNonZeroDigit(t[0]) then Some((1, DigitValue(t[0])))
    else if |t| >= 2 && t[0] == ' ' && IsNonZeroDigit(t[1]) then Some((2, DigitValue(t[1])))
    else None
  }

  /** The day is the last field, so the alternative found must take all of the rest
      of the text. */
  function ParseDay(t: string): (r: Option<int>)
    ensures r.Some? ==> 1 <= r.value <= 31
  {
    match DayAlternative(t)
    case None => None
    case Some((taken, day)) => if taken == |t| then Some(day) else None
  }

  /** The month field and the rest of the text after the `-` that must follow it. A
      two-character month needs the `-` third, a one-character one needs it
      second; both cannot hold, since the second character of a two-character month
      is a digit. */
  function SplitMonth(t: string): (r: Option<(int, string)>)
    ensures r.Some? ==> 1 <= r.value.0 <= 12
  {
    if |t| >= 3 && t[2] == '-' && ParseMonth(t[..2]).Some? then Some((ParseMonth(t[..2]).value, t[3..]))
    else if |t| >= 2 && t[1] == '-' && ParseMonth(t[..1]).Some? then Some((ParseMonth(t[..1]).value, t[2..]))
    else None
  }

  /** `datetime.strptime(text, "%Y-%m-%d").date()`; `None` where Python raises
      `ValueError`. */
  function ParseDate(text: string): (r: Option<Date>)
    ensures r.Some? ==> ValidDate(r.value) && 1 <= r.value.year <= 9999
  {
    if |text| < 5 || text[4] != '-' then None
    else
      match ParseYear(text[..4])
      case None => None
      case Some(year) =>
        match SplitMonth(text[5..])
        case None => None
        case Some((month, rest)) =>
          match ParseDay(rest)
          case None => None
          case Some(day) =>
            if year >= 1 && day <= DaysInMonth(year, month) then Some(Date(year, month, day)) else None
  }

  // ---------------------------------------------------------------- writing

  function Year4(y: int): (t: string)
    requires 0 <= y <= 9999
    ensures |t| == 4
  {
    [Digit(y / 1000), Digit(y / 100 % 10), Digit(y / 10 % 10), Digit(y % 10)]
  }

  function Pad2(n: int): (t: string)
    requires 0 <= n <= 99
    ensures |t| == 2
  {
    [Digit(n / 10), Digit(n % 10)]
  }

  /** `str(date)`: `YYYY-MM-DD`, every field zero-padded. */
  function IsoFormat(d: Date): (t: string)
    requires 0 <= d.year <= 9999 && 1 <= d.month <= 12 && 1 <= d.day <= 31
    ensures |t| == 10
  {
    Year4(d.year) + "-" + Pad2(d.month) + "-" + Pad2(d.day)
  }

  // ------------------------------------------------- the accepted spellings

  /** Every way the month pattern can spell `m`. */
  function MonthSpellings(m: int): set<string>
    requires 1 <= m <= 12
  {
    {Pad2(m)} + (if m < 10 then {[Digit(m)]} else {})
  }

  /** Every way the day pattern can spell `d` so that nothing is left over. */
  function DaySpellings(d: int): set<string>
    requires 1 <= d <= 31
  {
    {Pad2(d)} + (if d < 10 then {[Digit(d)], [' ', Digit(d)]} else {})
  }

  /** An independent description of what the parser accepts: the four-digit year, a
      spelling of the month, a spelling of the day, joined by `-`. */
  ghost predicate Spells(text: string, d: Date)
    requires ValidDate(d) && 0 <= d.year <= 9999
  {
    exists ms, ds :: ms in MonthSpellings(d.month) && ds in DaySpellings(d.day)
      && text == Year4(d.year) + "-" + ms + "-" + ds
  }

  lemma DivTen(q: int, r: int)
    requires 0 <= r <= 9
    ensures (10 * q + r) / 10 == q && (10 * q + r) % 10 == r
  {
  }

  /** Four digits read as a number and written back are the same digits. */
  lemma FourDigits(y: int)
    requires 0 <= y <= 9999
    ensures y == 1000 * (y / 1000) + 100 * (y / 100 % 10) + 10 * (y / 10 % 10) + y % 10
    ensures 0 <= y / 1000 <= 9
  {
    var q1 := y / 10;
    var q2 := q1 / 10;
    assert y / 100 == q2 && y / 1000 == q2 / 10;
  }

  lemma YearRoundTrip(t: string, y: int)
    requires |t| == 4
    ensures ParseYear(t) == Some(y) <==> 0 <= y <= 9999 && t == Year4(y)
  {
    if ParseYear(t) == Some(y) {
      var a, b, c, d := DigitValue(t[0]), DigitValue(t[1]), DigitValue(t[2]), DigitValue(t[3]);
      DivTen(100 * a + 10 * b + c, d);
      DivTen(10 * a + b, c);
      DivTen(a, b);
      assert y / 10 == 100 * a + 10 * b + c && y % 10 == d;
      assert y / 100 == 10 * a + b;
      assert y / 1000 == a;
      assert t == Year4(y);
    }
    if 0 <= y <= 9999 && t == Year4(y) {
      FourDigits(y);
    }
  }

  lemma MonthRoundTrip(t: string, m: int)
    ensures ParseMonth(t) == Some(m) <==> 1 <= m <= 12 && t in MonthSpellings(m)
  {
    if ParseMonth(t) == Some(m) {
      if |t| == 2 {
        assert t == Pad2(m);
      } else {
        assert t == [Digit(m)];
      }
    }
  }

  lemma DayRoundTrip(t: string, d: int)
    ensures ParseDay(t) == Some(d) <==> 1 <= d <= 31 && t in DaySpellings(d)
  {
    if ParseDay(t) == Some(d) {
      if |t| == 2 && t[0] == ' ' {
        assert t == [' ', Digit(d)];
      } else if |t| == 2 {
        assert t == Pad2(d);
      } else {
        assert t == [Digit(d)];
      }
    }
  }

  lemma SplitMonthRoundTrip(t: string, m: int, rest: string)
    ensures SplitMonth(t) == Some((m, rest)) <==>
      1 <= m <= 12 && exists ms :: ms in MonthSpellings(m) && t == ms + "-" + rest
  {
    if SplitMonth(t) == Some((m, rest)) {
      var ms := if |t| >= 3 && t[2] == '-' && ParseMonth(t[..2]).Some? then t[..2] else t[..1];
      MonthRoundTrip(ms, m);
      assert t == ms + "-" + rest;
    }
    if 1 <= m <= 12 && exists ms :: ms in MonthSpellings(m) && t == ms + "-" + rest {
      var ms :| ms in MonthSpellings(m) && t == ms + "-" + rest;
      MonthRoundTrip(ms, m);
      if |ms| == 2 {
        assert t[..2] == ms && t[3..] == rest;
      } else {
        assert t[..1] == ms && t[2..] == rest;
        MonthRoundTrip(t[..2], m);
      }
    }
  }

  /** The parser accepts exactly the spellings of valid dates with years 1 to 9999,
      and reads back the date spelled. */
  lemma ParseDateAcceptsExactlySpellings(text: string, d: Date)
    ensures ParseDate(text) == Some(d) <==> ValidDate(d) && 1 <= d.year <= 9999 && Spells(text, d)
  {
    if ParseDate(text) == Some(d) {
      ParsedTextSpellsDate(text, d);
    }
    if ValidDate(d) && 1 <= d.year <= 9999 && Spells(text, d) {
      SpelledDateParses(text, d);
    }
  }

  /** Text the parser accepts is a spelling of the date it reads. */
  lemma ParsedTextSpellsDate(text: string, d: Date)
    requires ParseDate(text) == Some(d)
    ensures ValidDate(d) && 1 <= d.year <= 9999 && Spells(text, d)
  {
    var rest := SplitMonth(text[5..]).value.1;
    YearRoundTrip(text[..4], d.year);
    SplitMonthRoundTrip(text[5..], d.month, rest);
    DayRoundTrip(rest, d.day);
    var ms :| ms in MonthSpellings(d.month) && text[5..] == ms + "-" + rest;
    assert text == Year4(d.year) + "-" + ms + "-" + rest;
  }

  /** Every spelling of a valid date parses to that date. */
  lemma SpelledDateParses(text: string, d: Date)
    requires ValidDate(d) && 1 <= d.year <= 9999 && Spells(text, d)
    ensures ParseDate(text) == Some(d)
  {
    var ms, ds :| ms in MonthSpellings(d.month) && ds in DaySpellings(d.day)
      && text == Year4(d.year) + "-" + ms + "-" + ds;
    assert text[..4] == Year4(d.year) && text[4] == '-';
    assert text[5..] == ms + "-" + ds;
    YearRoundTrip(text[..4], d.year);
    SplitMonthRoundTrip(text[5..], d.month, ds);
    DayRoundTrip(ds, d.day);
    ParseDateOfFields(text, d, ds);
  }

  /** Fields that each read back give the date they make up. */
  lemma ParseDateOfFields(text: string, d: Date, rest: string)
    requires |text| >= 5 && text[4] == '-'
    requires ParseYear(text[..4]) == Some(d.year) && 1 <= d.year
    requires SplitMonth(text[5..]) == Some((d.month, rest))
    requires ParseDay(rest) == Some(d.day) && d.day <= DaysInMonth(d.year, d.month)
    ensures ParseDate(text) == Some(d)
  {
  }

  /** What `str()` writes, `strptime` reads back. */
  lemma IsoFormatRoundTrip(d: Date)
    requires ValidDate(d) && 1 <= d.year <= 9999
    ensures ParseDate(IsoFormat(d)) == Some(d)
  {
    assert Pad2(d.month) in MonthSpellings(d.month);
    assert Pad2(d.day) in DaySpellings(d.day);
    assert Spells(IsoFormat(d), d);
    ParseDateAcceptsExactlySpellings(IsoFormat(d), d);
  }

  /** Texts the format accepts or refuses at its edges. */
  lemma LeapDayExample()
    ensures ParseDate("2024-02-29") == Some(Date(2024, 2, 29))
  {
  }

  lemma UnpaddedExample()
    ensures ParseDate("2024-1-5") == Some(Date(2024, 1, 5))
  {
  }

  lemma SpacePaddedDayExample()
    ensures ParseDate("2024-01- 5") == Some(Date(2024, 1, 5))
  {
  }

  /** Well-formed text naming no date: February 29 of a common year, and year 0. */
  lemma RefusedDatesExample()
    ensures ParseDate("2023-02-29") == None
    ensures ParseDate("0000-01-01") == None
  {
  }

  /** A day or month field the pattern does not match: day 32, month 13. */
  lemma RefusedFieldsExample()
    ensures ParseDate("2024-01-32") == None
    ensures ParseDate("2024-13-01") == None
  {
  }

  /** Text of the wrong shape: a two-digit year, text left over after the day. */
  lemma RefusedShapesExample()
    ensures ParseDate("24-01-01") == None
    ensures ParseDate("2024-01-01 ") == None
  {
  }
}
