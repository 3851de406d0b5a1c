/**
 Calendar dates as Go's time.Parse reads them with the layout "2006-01-02":
 exactly four year digits, two month digits and two day digits separated by
 '-', a month in 1..12 and a day that exists in that month of the
 proleptic Gregorian calendar.
 */
module Dates {
  import opened Wrappers

  /** A calendar date without time of day. */
  datatype Date = Date(year: int, month: int, day: int)

  /** Gregorian leap years, as Go's isLeap. */
  predicate IsLeapYear(year: int) {
    year % 4 == 0 && (year % 100 != 0 || year % 400 == 0)
  }

  /** Length of `month` in `year`, as Go's daysIn. */
  function DaysIn(year: int, month: int): (n: int)
    requires 1 <= month <= 12
    ensures 28 <= n <= 31
    ensures n == 29 <==> month == 2 && IsLeapYear(year)
  {
    if month == 2 then (if IsLeapYear(year) then 29 else 28)
    else if month == 4 || month == 6 || month == 9 || month == 11 then 30
    else 31
  }

  /** The date exists in the calendar. */
  predicate Valid(d: Date) {
    1 <= d.month <= 12 && 1 <= d.day <= DaysIn(d.year, d.month)
  }

  /** The date can be written with the four-digit year of the layout. */
  predicate Writable(d: Date) {
    Valid(d) && 0 <= d.year <= 9999
  }

  /** Chronological order: `a` is strictly earlier than `b`. */
  predicate Before(a: Date, b: Date) {
    || a.year < b.year
    || (a.year == b.year && a.month < b.month)
    || (a.year == b.year && a.month == b.month && a.day < b.day)
  }

  /** Dates are totally ordered by Before. */
  lemma BeforeIsStrictTotalOrder(a: Date, b: Date, c: Date)
    ensures !Before(a, a)
    ensures Before(a, b) ==> !Before(b, a)
    ensures Before(a, b) && Before(b, c) ==> Before(a, c)
    ensures a == b || Before(a, b) || Before(b, a)
  {
  }

  predicate IsDigit(c: char) {
    '0' <= c <= '9'
  }

  predicate AllDigits(s: string) {
    forall i :: 0 <= i < |s| ==> IsDigit(s[i])
  }

  function DigitChar(n: nat): (c: char)
    requires n < 10
    ensures IsDigit(c)
  {
    ('0' as int + n) as char
  }

  /** The decimal value of a string of digits. */
  function Number(s: string): (n: nat)
    requires AllDigits(s)
  {
    if s == [] then 0 else Number(s[..|s| - 1]) * 10 + (s[|s| - 1] as int - '0' as int)
  }

  function Pow10(k: nat): (p: nat)
    ensures p >= 1
  {
    if k == 0 then 1 else 10 * Pow10(k - 1)
  }

  /** The last `width` decimal digits of `n`, zero-padded. */
  function Digits(n: nat, width: nat): (s: string)
    ensures |s| == width && AllDigits(s)
  {
    if width == 0 then [] else Digits(n / 10, width - 1) + [DigitChar(n % 10)]
  }

  /** Reading back `width` digits of a number below 10^width gives the number. */
  lemma {:induction false} NumberOfDigits(n: nat, width: nat)
    requires n < Pow10(width)
    ensures Number(Digits(n, width)) == n
  {
    if width > 0 {
      var s := Digits(n, width);
      assert s[..|s| - 1] == Digits(n / 10, width - 1);
      NumberOfDigits(n / 10, width - 1);
    }
  }

  /** A string of k digits denotes a number below 10^k. */
  lemma {:induction false} NumberBound(s: string)
    requires AllDigits(s)
    ensures Number(s) < Pow10(|s|)
  {
    if s != [] {
      NumberBound(s[..|s| - 1]);
    }
  }

  /** Writing back the value of a digit string gives the string itself. */
  lemma {:induction false} DigitsOfNumber(s: string)
    requires AllDigits(s)
    ensures Digits(Number(s), |s|) == s
  {
    if s != [] {
      var init := s[..|s| - 1];
      var last := s[|s| - 1] as int - '0' as int;
      DigitsOfNumber(init);
      var n := Number(s);
      assert n == Number(init) * 10 + last;
      assert n / 10 == Number(init);
      assert n % 10 == last;
      assert s == init + [s[|s| - 1]];
    }
  }

  /** The string has the shape of the layout: "dddd-dd-dd". */
  predicate Shaped(s: string) {
    && |s| == 10
    && AllDigits(s[0..4]) && s[4] == '-'
    && AllDigits(s[5..7]) && s[7] == '-'
    && AllDigits(s[8..10])
  }

  /** Go's time.Parse("2006-01-02", s), keeping only the date and whether it failed. */
  function ParseDate(s: string): (r: Option<Date>)
    ensures r.Some? ==> Writable(r.value)
  {
    if !Shaped(s) then None
    else
      NumberBound(s[0..4]);
      var d := Date(Number(s[0..4]), Number(s[5..7]), Number(s[8..10]));
      if d.month < 1 || d.month > 12 then None
      else if d.day < 1 || d.day > DaysIn(d.year, d.month) then None
      else Some(d)
  }

  /** The date written in the layout "2006-01-02". */
  function FormatDate(d: Date): (s: string)
    requires Writable(d)
    ensures Shaped(s)
  {
    var s := Digits(d.year, 4) + "-" + Digits(d.month, 2) + "-" + Digits(d.day, 2);
    assert s[0..4] == Digits(d.year, 4);
    assert s[5..7] == Digits(d.month, 2);
    assert s[8..10] == Digits(d.day, 2);
    s
  }

  /** Parsing a formatted date gives the date back. */
  lemma ParseFormat(d: Date)
    requires Writable(d)
    ensures ParseDate(FormatDate(d)) == Some(d)
  {
    assert Pow10(2) == 100 && Pow10(4) == 10000;
    var s := FormatDate(d);
    assert s[0..4] == Digits(d.year, 4);
    assert s[5..7] == Digits(d.month, 2);
    assert s[8..10] == Digits(d.day, 2);
    NumberOfDigits(d.year, 4);
    NumberOfDigits(d.month, 2);
    NumberOfDigits(d.day, 2);
  }

  /** A string parses only if it is the canonical spelling of the date it denotes. */
  lemma FormatParse(s: string)
    requires ParseDate(s).Some?
    ensures FormatDate(ParseDate(s).value) == s
  {
    var d := ParseDate(s).value;
    DigitsOfNumber(s[0..4]);
    DigitsOfNumber(s[5..7]);
    DigitsOfNumber(s[8..10]);
    assert s == s[0..4] + "-" + s[5..7] + "-" + s[8..10];
  }

  /** `s` is the canonical spelling of the writable date `d`. */
  predicate Spells(s: string, d: Date) {
    Writable(d) && FormatDate(d) == s
  }

  /** ParseDate accepts exactly the canonical spellings of writable dates, and returns the date spelled. */
  lemma ParseDateCharacterized(s: string)
    ensures ParseDate(s).Some? ==> Spells(s, ParseDate(s).value)
    ensures ParseDate(s).None? ==> forall d :: !Spells(s, d)
  {
    if ParseDate(s).Some? {
      FormatParse(s);
    } else {
      forall d | Spells(s, d) ensures false {
        ParseFormat(d);
      }
    }
  }
}
