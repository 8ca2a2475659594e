/** Calendar dates and the `%d/%m/%Y` text format that `clean_data` parses the
    `DATA` column with. */
module Dates {
  import opened Wrappers
  import opened Strings

  /** A day of the proleptic Gregorian calendar. */
  datatype Date = Date(day: nat, month: nat, year: nat)

  predicate IsLeapYear(y: nat) {
    (y % 4 == 0 && y % 100 != 0) || y % 400 == 0
  }

  function DaysInMonth(m: nat, y: nat): (n: nat)
    requires 1 <= m <= 12
    ensures 28 <= n <= 31
    ensures n == 29 <==> m == 2 && IsLeapYear(y)
    ensures n == 31 <==> m in {1, 3, 5, 7, 8, 10, 12}
    ensures n == 30 <==> m in {4, 6, 9, 11}
    ensures n == 28 <==> m == 2 && !IsLeapYear(y)
  {
    if m == 2 then (if IsLeapYear(y) then 29 else 28)
    else if m == 4 || m == 6 || m == 9 || m == 11 then 30
    else 31
  }

  /** An existing calendar day: month 1..12, day within the month, year from 1. */
  predicate ValidDate(d: Date) {
    1 <= d.year && 1 <= d.month <= 12 && 1 <= d.day <= DaysInMonth(d.month, d.year)
  }

  /** A `%d` or `%m` field: one or two digits. */
  predicate ShortField(s: string) {
    1 <= |s| <= 2 && AllDigits(s)
  }

  /** A `%Y` field: exactly four digits. */
  predicate YearField(s: string) {
    |s| == 4 && AllDigits(s)
  }

  /** Reads `s` as `day/month/year`; the result is present only for an existing date. */
  function ParseDate(s: string): (r: Option<Date>)
    ensures r.Some? ==> ValidDate(r.value)
  {
    var parts := Split(s, '/');
    if |parts| == 3 && ShortField(parts[0]) && ShortField(parts[1]) && YearField(parts[2]) then
      var d := Date(DecimalValue(parts[0]), DecimalValue(parts[1]), DecimalValue(parts[2]));
      if ValidDate(d) then Some(d) else None
    else None
  }

  /** The two-digit, zero-padded rendering of n < 100. */
  function Pad2(n: nat): (s: string)
    requires n < 100
    ensures ShortField(s) && '/' !in s
  {
    [DigitChar(n / 10), DigitChar(n % 10)]
  }

  /** The four-digit, zero-padded rendering of n < 10000. */
  function Pad4(n: nat): (s: string)
    requires n < 10000
    ensures YearField(s) && '/' !in s
  {
    [DigitChar(n / 1000), DigitChar(n / 100 % 10), DigitChar(n / 10 % 10), DigitChar(n % 10)]
  }

  /** `dd/mm/yyyy`, the form the spreadsheet's date cells are written in. */
  function FormatDate(d: Date): string
    requires ValidDate(d) && d.year < 10000
  {
    Pad2(d.day) + "/" + Pad2(d.month) + "/" + Pad4(d.year)
  }

  lemma Pad2Value(n: nat)
    requires n < 100
    ensures DecimalValue(Pad2(n)) == n
  {
    var s := Pad2(n);
    assert s[..1][..0] == [];
    assert s[..1] == s[..2][..1];
    assert DecimalValue(s[..1]) == n / 10;
  }

  lemma Pad4Value(n: nat)
    requires n < 10000
    ensures DecimalValue(Pad4(n)) == n
  {
    var s := Pad4(n);
    assert s[..3] == s[..4][..3];
    assert s[..2] == s[..3][..2];
    assert s[..1] == s[..2][..1];
    assert s[..1][..0] == [];
    assert n / 10 / 10 == n / 100 && n / 100 / 10 == n / 1000;
    assert DecimalValue(s[..1]) == n / 1000;
    assert DecimalValue(s[..2]) == n / 100;
    assert DecimalValue(s[..3]) == n / 10;
  }


  /** Three digit fields of the right widths, joined by '/', parse to the
      date they spell when it exists, and to nothing otherwise. */
  lemma {:induction false} ParseFields(a: string, b: string, c: string)
    requires ShortField(a) && ShortField(b) && YearField(c)
    ensures var d := Date(DecimalValue(a), DecimalValue(b), DecimalValue(c));
      ParseDate(a + "/" + b + "/" + c) == if ValidDate(d) then Some(d) else None
  {
    assert !IsDigit('/');
    assert '/' !in a && '/' !in b && '/' !in c;
    assert a + "/" + b + "/" + c == a + ['/'] + (b + ['/'] + c);
    SplitSeparated(a, '/', b + ['/'] + c);
    SplitSeparated(b, '/', c);
  }

  /** Every date with a four-digit year survives rendering and parsing. */
  lemma {:induction false} ParseFormatDate(d: Date)
    requires ValidDate(d) && d.year < 10000
    ensures ParseDate(FormatDate(d)) == Some(d)
  {
    ParseFields(Pad2(d.day), Pad2(d.month), Pad4(d.year));
    Pad2Value(d.day);
    Pad2Value(d.month);
    Pad4Value(d.year);
  }

  /** `s` is a one- or two-digit day a, '/', a one- or two-digit month b, '/',
      and a four-digit year c that together name the existing day d. */
  predicate Spells(s: string, a: string, b: string, c: string, d: Date) {
    ShortField(a) && ShortField(b) && YearField(c) && s == a + "/" + b + "/" + c &&
    d == Date(DecimalValue(a), DecimalValue(b), DecimalValue(c)) && ValidDate(d)
  }

  /** A text is accepted, yielding d, exactly when it spells d in `%d/%m/%Y`. */
  lemma ParseDateSpelled(s: string, d: Date)
    ensures ParseDate(s) == Some(d) <==> exists a, b, c :: Spells(s, a, b, c, d)
  {
    if ParseDate(s) == Some(d) {
      var parts := ParsedFields(s, d);
      assert Spells(s, parts[0], parts[1], parts[2], d);
    }
    if exists a, b, c :: Spells(s, a, b, c, d) {
      var a, b, c :| Spells(s, a, b, c, d);
      ParseFields(a, b, c);
    }
  }

  /** The fields an accepted text was read from. */
  lemma ParsedFields(s: string, d: Date) returns (parts: seq<string>)
    requires ParseDate(s) == Some(d)
    ensures |parts| == 3 && Spells(s, parts[0], parts[1], parts[2], d)
  {
    parts := Split(s, '/');
    JoinSplit(s, '/');
    JoinThree(parts, "/");
  }

  /** Month 13 does not exist. */
  lemma ParseDateMonthThirteen()
    ensures ParseDate("31/13/2024") == None
  {
    assert "31/13/2024" == Pad2(31) + "/" + Pad2(13) + "/" + Pad4(2024);
    ParseFields(Pad2(31), Pad2(13), Pad4(2024));
    Pad2Value(31);
    Pad2Value(13);
    Pad4Value(2024);
  }

  /** The first of February 2023 does. */
  lemma ParseDateFirstFebruary()
    ensures ParseDate("01/02/2023") == Some(Date(1, 2, 2023))
  {
    assert "01/02/2023" == FormatDate(Date(1, 2, 2023));
    ParseFormatDate(Date(1, 2, 2023));
  }

  /** The leap-year rule: every fourth year, except centuries not divisible by 400. */
  lemma LeapDayExamples()
    ensures ValidDate(Date(29, 2, 2024)) && ValidDate(Date(29, 2, 2000))
    ensures !ValidDate(Date(29, 2, 2023)) && !ValidDate(Date(29, 2, 1900))
    ensures !ValidDate(Date(31, 4, 2024)) && !ValidDate(Date(1, 13, 2024)) && !ValidDate(Date(0, 1, 2024))
  {
  }
}
