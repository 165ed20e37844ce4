/**
  The text form of a date that the app reads and writes: the ISO_LOCAL_DATE
  format of java.time, "yyyy-MM-dd", parsed strictly.

  The year field takes four to ten ASCII digits. A '+' sign is required
  when there are more than four digits and refused otherwise. A '-' sign
  marks a negative year, and "-0000" is refused. Month and day are exactly
  two digits each. The whole text must be consumed, and the fields must
  name an existing date of the ISO calendar. Formatting pads the year to
  four digits and writes '+' before years above 9999.
*/
module IsoDateText {
  import opened Wrappers
  import opened Calendar

  predicate IsDigit(c: char) {
    '0' <= c <= '9'
  }

  predicate AllDigits(s: string) {
    forall i :: 0 <= i < |s| ==> IsDigit(s[i])
  }

  function DigitValue(c: char): (n: nat)
    requires IsDigit(c)
    ensures n < 10
  {
    (c as int) - ('0' as int)
  }

  function DigitChar(n: nat): (c: char)
    requires n < 10
    ensures IsDigit(c) && DigitValue(c) == n
  {
    (('0' as int) + n) as char
  }

  /** The decimal digits of n, most significant first, without leading zeros. */
  function Digits(n: nat): (s: string)
    ensures 1 <= |s| && AllDigits(s)
    decreases n
  {
    if n < 10 then [DigitChar(n)] else Digits(n / 10) + [DigitChar(n % 10)]
  }

  /** The number a string of decimal digits denotes. */
  function ValueOf(s: string): nat
    requires AllDigits(s)
    decreases |s|
  {
    if s == [] then 0 else ValueOf(s[..|s| - 1]) * 10 + DigitValue(s[|s| - 1])
  }

  /** s with '0's in front until it is w characters long. */
  function PadLeft(s: string, w: nat): (r: string)
    ensures |r| == if |s| >= w then |s| else w
    ensures AllDigits(s) ==> AllDigits(r)
    decreases w - |s|
  {
    if |s| >= w then s else PadLeft(['0'] + s, w)
  }

  function Pow10(k: nat): nat {
    if k == 0 then 1 else 10 * Pow10(k - 1)
  }

  /** The year field as ISO_LOCAL_DATE prints it. */
  function YearText(y: int): string {
    var digits := PadLeft(Digits(if y < 0 then -y else y), 4);
    if y > 9999 then ['+'] + digits else if y < 0 then ['-'] + digits else digits
  }

  function TwoDigits(n: nat): (s: string)
    requires n < 100
  {
    [DigitChar(n / 10), DigitChar(n % 10)]
  }

  /**
    date.format(DateTimeFormatter.ISO_LOCAL_DATE): at least ten characters,
    ending in '-', two digits of the month, '-' and two digits of the day.
  */
  function FormatIsoDate(d: Date): (r: string)
    requires WellFormed(d)
    ensures |r| >= 10 && r[|r| - 6] == '-' && r[|r| - 3] == '-'
    ensures IsDigit(r[|r| - 5]) && IsDigit(r[|r| - 4]) && IsDigit(r[|r| - 2]) && IsDigit(r[|r| - 1])
    ensures DigitValue(r[|r| - 5]) * 10 + DigitValue(r[|r| - 4]) == d.month
    ensures DigitValue(r[|r| - 2]) * 10 + DigitValue(r[|r| - 1]) == d.day
  {
    YearText(d.year) + ['-'] + TwoDigits(d.month) + ['-'] + TwoDigits(d.day)
  }

  /** Length of the run of digits that starts s. */
  function DigitRun(s: string): (n: nat)
    ensures n <= |s| && AllDigits(s[..n])
    ensures n < |s| ==> !IsDigit(s[n])
  {
    if s == [] || !IsDigit(s[0]) then 0
    else
      var k := DigitRun(s[1..]);
      assert s[..k + 1] == [s[0]] + s[1..][..k];
      k + 1
  }

  datatype Sign = Plus | Minus | Unsigned

  /** The sign in front of the year field, if any. */
  function SignOf(s: string): Sign {
    if |s| > 0 && s[0] == '+' then Plus else if |s| > 0 && s[0] == '-' then Minus else Unsigned
  }

  /**
    The year field at the start of s: its value and the text after it,
    or None where the year parser of ISO_LOCAL_DATE fails.
  */
  function ParseYear(s: string): Option<(int, string)> {
    var sign := SignOf(s);
    YearDigits(sign, if sign == Unsigned then s else s[1..])
  }

  /** The digits of the year field after its sign. */
  function YearDigits(sign: Sign, body: string): (r: Option<(int, string)>)
    ensures r.Some? ==> |r.value.1| <= |body| - 4
  {
    var n := DigitRun(body);
    if n < 4 || n > 10 then None
    else if sign == Plus && n == 4 then None
    else if sign == Unsigned && n > 4 then None
    else
      var magnitude: int := ValueOf(body[..n]);
      if sign == Minus && magnitude == 0 then None
      else Some((if sign == Minus then -magnitude else magnitude, body[n..]))
  }

  /** The "-MM-dd" that follows the year, and the check that the date exists. */
  function ParseMonthDay(year: int, rest: string): (r: Option<Date>)
    ensures r.Some? ==> ValidDate(r.value) && r.value.year == year
  {
    if |rest| == 6 && rest[0] == '-' && IsDigit(rest[1]) && IsDigit(rest[2])
      && rest[3] == '-' && IsDigit(rest[4]) && IsDigit(rest[5])
    then
      var d := Date(year,
                    DigitValue(rest[1]) * 10 + DigitValue(rest[2]),
                    DigitValue(rest[4]) * 10 + DigitValue(rest[5]));
      if ValidDate(d) then Some(d) else None
    else None
  }

  /** LocalDate.parse(s, DateTimeFormatter.ISO_LOCAL_DATE), None where it throws. */
  function ParseIsoDate(s: string): (r: Option<Date>)
    ensures r.Some? ==> ValidDate(r.value)
  {
    match ParseYear(s)
    case None => None
    case Some((year, rest)) => ParseMonthDay(year, rest)
  }

  /** isValidDate: the text parses as an ISO local date. */
  predicate IsValidDate(s: string) {
    ParseIsoDate(s).Some?
  }

  // ---------------------------------------------------------------------------
  // Round trip

  lemma {:induction false} ValueOfDigits(n: nat)
    ensures ValueOf(Digits(n)) == n
    decreases n
  {
    if n >= 10 {
      ValueOfDigits(n / 10);
      var s := Digits(n / 10) + [DigitChar(n % 10)];
      assert s[..|s| - 1] == Digits(n / 10);
    }
  }

  lemma {:induction false} DigitsLength(n: nat, k: nat)
    requires 1 <= k
    ensures |Digits(n)| <= k <==> n < Pow10(k)
    decreases n
  {
    if n >= 10 {
      if k == 1 {
        assert Pow10(1) == 10;
        assert |Digits(n)| >= 2 by { assert |Digits(n)| == |Digits(n / 10)| + 1; }
      } else {
        DigitsLength(n / 10, k - 1);
      }
    } else {
      assert Pow10(k) >= 10 by { PowAtLeastTen(k); }
    }
  }

  lemma {:induction false} PowAtLeastTen(k: nat)
    requires 1 <= k
    ensures Pow10(k) >= 10
  {
    if k > 1 {
      PowAtLeastTen(k - 1);
    }
  }

  lemma {:induction false} ValueOfLeadingZero(s: string)
    requires AllDigits(s)
    ensures AllDigits(['0'] + s) && ValueOf(['0'] + s) == ValueOf(s)
    decreases |s|
  {
    var t := ['0'] + s;
    if s != [] {
      assert t[..|t| - 1] == ['0'] + s[..|s| - 1];
      ValueOfLeadingZero(s[..|s| - 1]);
    } else {
      assert t[..|t| - 1] == [];
    }
  }

  lemma {:induction false} ValueOfPadLeft(s: string, w: nat)
    requires AllDigits(s)
    ensures ValueOf(PadLeft(s, w)) == ValueOf(s)
    decreases w - |s|
  {
    if |s| < w {
      ValueOfLeadingZero(s);
      ValueOfPadLeft(['0'] + s, w);
    }
  }

  lemma {:induction false} DigitRunOfDigitsThen(a: string, b: string)
    requires AllDigits(a)
    requires b != [] && !IsDigit(b[0])
    ensures DigitRun(a + b) == |a|
    decreases |a|
  {
    if a != [] {
      assert (a + b)[1..] == a[1..] + b;
      DigitRunOfDigitsThen(a[1..], b);
    }
  }

  lemma ValueOfTwoDigits(n: nat)
    requires n < 100
    ensures AllDigits(TwoDigits(n))
    ensures DigitValue(TwoDigits(n)[0]) * 10 + DigitValue(TwoDigits(n)[1]) == n
  {
  }

  /** The digits of the year field and its sign: what the year parser reads back. */
  lemma YearTextShape(y: int)
    requires MinYear <= y <= MaxYear
    ensures var digits := PadLeft(Digits(if y < 0 then -y else y), 4);
      && AllDigits(digits)
      && 4 <= |digits| <= 9
      && ValueOf(digits) == (if y < 0 then -y else y)
      && (y > 9999 <==> |digits| > 4 && y >= 0)
      && YearText(y) == (if y > 9999 then ['+'] + digits else if y < 0 then ['-'] + digits else digits)
  {
    var m: nat := if y < 0 then -y else y;
    ValueOfDigits(m);
    ValueOfPadLeft(Digits(m), 4);
    DigitsLength(m, 4);
    DigitsLength(m, 9);
    assert Pow10(4) == 10000;
    assert Pow10(9) == 1_000_000_000;
  }

  /** The year digits followed by a non-digit, read back under each sign. */
  lemma ReadYearDigits(sign: Sign, digits: string, tail: string)
    requires AllDigits(digits) && 4 <= |digits| <= 10
    requires tail != [] && !IsDigit(tail[0])
    ensures YearDigits(sign, digits + tail) ==
      if (sign == Plus && |digits| == 4) || (sign == Unsigned && |digits| > 4)
         || (sign == Minus && ValueOf(digits) == 0)
      then None
      else Some((if sign == Minus then 0 - ValueOf(digits) as int else ValueOf(digits), tail))
  {
    var body := digits + tail;
    DigitRunOfDigitsThen(digits, tail);
    assert body[..|digits|] == digits;
    assert body[|digits|..] == tail;
  }

  /** The year parser on four unsigned digits followed by a non-digit. */
  lemma ParseUnsignedYear(digits: string, tail: string)
    requires AllDigits(digits) && |digits| == 4
    requires tail != [] && !IsDigit(tail[0])
    ensures ParseYear(digits + tail) == Some((ValueOf(digits), tail))
  {
    var s := digits + tail;
    assert s[0] == digits[0] && IsDigit(s[0]);
    assert SignOf(s) == Unsigned;
    ReadYearDigits(Unsigned, digits, tail);
  }

  /** The year parser on '+' and five to ten digits followed by a non-digit. */
  lemma ParsePlusYear(digits: string, tail: string)
    requires AllDigits(digits) && 4 < |digits| <= 10
    requires tail != [] && !IsDigit(tail[0])
    ensures ParseYear(['+'] + digits + tail) == Some((ValueOf(digits), tail))
  {
    var s := ['+'] + digits + tail;
    assert s[0] == '+' && SignOf(s) == Plus;
    assert s[1..] == digits + tail;
    ReadYearDigits(Plus, digits, tail);
  }

  /** The year parser on '-' and four to ten digits, not all zero, followed by a non-digit. */
  lemma ParseMinusYear(digits: string, tail: string)
    requires AllDigits(digits) && 4 <= |digits| <= 10 && ValueOf(digits) != 0
    requires tail != [] && !IsDigit(tail[0])
    ensures ParseYear(['-'] + digits + tail) == Some((0 - ValueOf(digits) as int, tail))
  {
    var s := ['-'] + digits + tail;
    assert s[0] == '-' && SignOf(s) == Minus;
    assert s[1..] == digits + tail;
    ReadYearDigits(Minus, digits, tail);
  }

  /** The year parser reads back the printed year field, up to the first non-digit. */
  lemma YearRoundTrip(y: int, tail: string)
    requires MinYear <= y <= MaxYear
    requires tail != [] && !IsDigit(tail[0])
    ensures ParseYear(YearText(y) + tail) == Some((y, tail))
  {
    var digits := PadLeft(Digits(if y < 0 then -y else y), 4);
    YearTextShape(y);
    if y > 9999 {
      ParsePlusYear(digits, tail);
      assert YearText(y) + tail == ['+'] + digits + tail;
    } else if y < 0 {
      ParseMinusYear(digits, tail);
      assert YearText(y) + tail == ['-'] + digits + tail;
    } else {
      ParseUnsignedYear(digits, tail);
      assert YearText(y) == digits;
    }
  }

  /** Every date LocalDate can hold is read back from its own ISO text. */
  lemma FormatParseRoundTrip(d: Date)
    requires ValidDate(d)
    ensures ParseIsoDate(FormatIsoDate(d)) == Some(d)
  {
    var tail := ['-'] + TwoDigits(d.month) + ['-'] + TwoDigits(d.day);
    assert FormatIsoDate(d) == YearText(d.year) + tail;
    YearRoundTrip(d.year, tail);
    MonthDayRoundTrip(d);
  }

  /** The "-MM-dd" text of an existing date is read back as that date. */
  lemma MonthDayRoundTrip(d: Date)
    requires ValidDate(d)
    ensures ParseMonthDay(d.year, ['-'] + TwoDigits(d.month) + ['-'] + TwoDigits(d.day)) == Some(d)
  {
    ValueOfTwoDigits(d.month);
    ValueOfTwoDigits(d.day);
  }

  /** A leap day in a leap year is accepted. */
  lemma AcceptsLeapDay()
    ensures ParseIsoDate("2024-02-29") == Some(Date(2024, 2, 29))
  {
    var digits, tail := "2024", "-02-29";
    assert ParseYear("2024-02-29") == Some((2024, tail)) by {
      assert "2024-02-29" == digits + tail;
      assert ValueOf(digits) == 2024 by {
        assert digits[..3] == "202" && "202"[..2] == "20" && "20"[..1] == "2" && "2"[..0] == [];
      }
      ParseUnsignedYear(digits, tail);
    }
  }

  /** A leap day outside a leap year is refused. */
  lemma RefusesLeapDayOfCommonYear()
    ensures !IsValidDate("2023-02-29")
  {
  }

  /** A one-digit month is refused. */
  lemma RefusesOneDigitMonth()
    ensures !IsValidDate("2024-2-29")
  {
  }

  /** A trailing time of day is refused. */
  lemma RefusesTrailingTime()
    ensures !IsValidDate("2024-06-01T00:00")
  {
  }

  /** Five digits need a '+'. */
  lemma RefusesUnsignedLongYear()
    ensures !IsValidDate("12345-06-01")
  {
    var digits, tail := "12345", "-06-01";
    assert ParseYear("12345-06-01").None? by {
      assert "12345-06-01" == digits + tail;
      assert SignOf(digits + tail) == Unsigned;
      ReadYearDigits(Unsigned, digits, tail);
    }
  }

  /** Four digits refuse a '+'. */
  lemma RefusesPlusShortYear()
    ensures !IsValidDate("+2024-06-01")
  {
    var digits, tail := "2024", "-06-01";
    assert "+2024-06-01"[1..] == digits + tail;
    ReadYearDigits(Plus, digits, tail);
  }

  /** Year zero cannot be written with a '-'. */
  lemma RefusesMinusZeroYear()
    ensures !IsValidDate("-0000-01-01")
  {
    var digits, tail := "0000", "-01-01";
    assert "-0000-01-01"[1..] == digits + tail;
    assert digits[..3] == "000" && "000"[..2] == "00" && "00"[..1] == "0" && "0"[..0] == [];
    assert ValueOf(digits) == 0;
    ReadYearDigits(Minus, digits, tail);
  }
}
