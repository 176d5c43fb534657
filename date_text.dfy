/**
 * The text helpers of `utils.ts`: the English month name and the
 * `Y-MM-DD` form in which dates travel to the server. The form is the
 * extended calendar-date form of ISO 8601:2004 section 4.1.2.2 except that
 * the year is written as JavaScript writes a number, without padding to four
 * digits and with a leading `-` when negative. `ParseYearMonthDay` reads that
 * form back; it is the partner that shows the form loses nothing.
 */
module DateText {
  import opened Wrappers
  import opened Calendar

  const MonthNames: seq<string> := [
    "January", "February", "March", "April", "May", "June",
    "July", "August", "September", "October", "November", "December"
  ]

  /** `monthToString`: the name of month `month` counted from 1, or
      "Invalid month" when `monthNames[month - 1]` is undefined. */
  function MonthToString(month: int): (name: string)
    ensures 1 <= month <= 12 ==> name == MonthNames[month - 1]
    ensures !(1 <= month <= 12) ==> name == "Invalid month"
  {
    if 1 <= month <= 12 then MonthNames[month - 1] else "Invalid month"
  }

  /** Every month from 1 to 12 has its own name, and none of them is the
      error text. */
  lemma MonthNamesDistinct(m1: int, m2: int)
    ensures MonthToString(m1) != "Invalid month" <==> 1 <= m1 <= 12
    ensures 1 <= m1 <= 12 && 1 <= m2 <= 12 && MonthToString(m1) == MonthToString(m2) ==> m1 == m2
  {
    assert forall k | 0 <= k < 12 :: |MonthNames[k]| >= 3 && MonthNames[k][0] != 'I';
    if 1 <= m1 <= 12 && 1 <= m2 <= 12 && m1 != m2 {
      assert Initials(MonthNames[m1 - 1]) != Initials(MonthNames[m2 - 1]);
    }
    if 1 <= m1 <= 12 {
      assert MonthNames[m1 - 1][0] != "Invalid month"[0];
    }
  }

  /** The first three letters, which already tell the month names apart. */
  function Initials(name: string): (char, char, char)
    requires |name| >= 3
  {
    (name[0], name[1], name[2])
  }

  predicate IsDigit(c: char) {
    '0' <= c <= '9'
  }

  predicate AllDigits(s: string) {
    forall i :: 0 <= i < |s| ==> IsDigit(s[i])
  }

  function DigitChar(k: int): (c: char)
    requires 0 <= k < 10
    ensures IsDigit(c) && c as int - '0' as int == k
  {
    ('0' as int + k) as char
  }

  /** The decimal digits JavaScript's `toString()` writes for a
      non-negative integer: no leading zero. */
  function NatToString(n: nat): (s: string)
    ensures 1 <= |s| && AllDigits(s)
    ensures |s| == 1 <==> n < 10
    decreases n
  {
    if n < 10 then [DigitChar(n)] else NatToString(n / 10) + [DigitChar(n % 10)]
  }

  /** `toString()` of an integer: a `-` before the digits of a negative one. */
  function IntToString(i: int): (s: string)
    ensures 1 <= |s|
    ensures i >= 0 <==> AllDigits(s)
  {
    if i < 0 then
      var s := "-" + NatToString(-i);
      assert !IsDigit(s[0]);
      s
    else NatToString(i)
  }

  /** The value of a string of decimal digits. */
  function DigitsValue(s: string): nat
    requires AllDigits(s)
  {
    if s == [] then 0 else 10 * DigitsValue(s[..|s| - 1]) + (s[|s| - 1] as int - '0' as int)
  }

  lemma {:induction false} NatToStringValue(n: nat)
    ensures DigitsValue(NatToString(n)) == n
    decreases n
  {
    var s := NatToString(n);
    if n >= 10 {
      NatToStringValue(n / 10);
      assert s[..|s| - 1] == NatToString(n / 10);
    }
  }

  /** `padStart(width, fill)`: `fill` put in front of `s` until it is
      `width` long. */
  function PadStart(s: string, width: nat, fill: char): (r: string)
    ensures |r| == if |s| < width then width else |s|
    ensures r[|r| - |s|..] == s
    ensures forall i :: 0 <= i < |r| - |s| ==> r[i] == fill
  {
    if |s| < width then seq(width - |s|, _ => fill) + s else s
  }

  /** A number from 0 to 99 as two digits: its tens digit, then its units
      digit. */
  function TwoDigits(n: nat): (r: string)
    requires n < 100
    ensures |r| == 2 && AllDigits(r)
  {
    [DigitChar(n / 10), DigitChar(n % 10)]
  }

  /** `TwoDigits` is the field `String(n).padStart(2, "0")` makes of a
      number from 0 to 99. */
  lemma TwoDigitsIsPadded(n: nat)
    requires n < 100
    ensures TwoDigits(n) == PadStart(NatToString(n), 2, '0')
  {
    if n >= 10 {
      assert NatToString(n / 10) == [DigitChar(n / 10)];
    }
  }

  /** The value of the two digits `a` and `b`. */
  function FieldValue(a: char, b: char): int {
    10 * (a as int - '0' as int) + (b as int - '0' as int)
  }

  /** A two-digit field reads back as the number it was made from. */
  lemma TwoDigitsValue(n: nat)
    requires n < 100
    ensures DigitsValue(TwoDigits(n)) == n
    ensures FieldValue(TwoDigits(n)[0], TwoDigits(n)[1]) == n
  {
    var r := TwoDigits(n);
    assert r[..1] == [r[0]] && r[..1][..0] == [];
    assert DigitsValue(r[..1]) == n / 10;
    assert DigitsValue(r) == 10 * (n / 10) + n % 10;
  }

  /** `toYearMonthDay`: year, `-`, the month `getMonth() + 1` and the day,
      each zero-padded to two digits, separated by `-`. */
  function ToYearMonthDay(d: Date): (s: string)
    requires Valid(d)
    ensures |s| == |IntToString(d.year)| + 6
  {
    IntToString(d.year) + "-" + TwoDigits(d.month + 1) + "-" + TwoDigits(d.day)
  }

  /** The integer a `toString()` text denotes, if it is one. */
  function ParseInt(s: string): Option<int> {
    if |s| >= 2 && s[0] == '-' && AllDigits(s[1..]) then Some(-(DigitsValue(s[1..]) as int))
    else if |s| >= 1 && AllDigits(s) then Some(DigitsValue(s))
    else None
  }

  /** Reads a `Y-MM-DD` text back into a date: the month and the day are
      the last two two-digit fields, the year everything before them. */
  function ParseYearMonthDay(s: string): Option<Date> {
    var n := |s|;
    if n < 7 || s[n - 6] != '-' || s[n - 3] != '-' then None
    else if !(IsDigit(s[n - 5]) && IsDigit(s[n - 4]) && IsDigit(s[n - 2]) && IsDigit(s[n - 1])) then None
    else match ParseInt(s[..n - 6])
      case None => None
      case Some(y) => Some(Date(y, FieldValue(s[n - 5], s[n - 4]) - 1, FieldValue(s[n - 2], s[n - 1])))
  }

  lemma IntToStringParses(i: int)
    ensures ParseInt(IntToString(i)) == Some(i)
  {
    var s := IntToString(i);
    if i < 0 {
      var t := NatToString(-i);
      NatToStringValue(-i);
      assert s == "-" + t;
      assert s[1..] == t;
      assert s[0] == '-';
    } else {
      NatToStringValue(i);
      assert IsDigit(s[0]);
    }
  }

  /** Where the fields sit in `year-mm-dd`: the year text, then `-` and two
      digits twice. */
  lemma Layout(d: Date)
    requires Valid(d)
    ensures var s, k := ToYearMonthDay(d), |IntToString(d.year)|;
      && s[..k] == IntToString(d.year)
      && s[k] == '-' && s[k + 1] == TwoDigits(d.month + 1)[0] && s[k + 2] == TwoDigits(d.month + 1)[1]
      && s[k + 3] == '-' && s[k + 4] == TwoDigits(d.day)[0] && s[k + 5] == TwoDigits(d.day)[1]
  {
    var ys, mm, dd := IntToString(d.year), TwoDigits(d.month + 1), TwoDigits(d.day);
    var s := ToYearMonthDay(d);
    assert s == ys + ("-" + mm + "-" + dd);
  }

  /** Round trip: parsing what `toYearMonthDay` writes gives the date back. */
  lemma ParseToYearMonthDay(d: Date)
    requires Valid(d)
    ensures ParseYearMonthDay(ToYearMonthDay(d)) == Some(d)
  {
    var s := ToYearMonthDay(d);
    Layout(d);
    TwoDigitsValue(d.month + 1);
    TwoDigitsValue(d.day);
    IntToStringParses(d.year);
  }

  /** The twelve month fields `toYearMonthDay` can write. */
  const MonthFields: set<string> :=
    {"01", "02", "03", "04", "05", "06", "07", "08", "09", "10", "11", "12"}

  /** The month field always reads as `getMonth() + 1` and is one of "01"
      to "12"; the day field reads as `getDate()`. */
  lemma ToYearMonthDayFields(d: Date)
    requires Valid(d)
    ensures var s, k := ToYearMonthDay(d), |IntToString(d.year)|;
      && s[k + 1..k + 3] in MonthFields
      && FieldValue(s[k + 1], s[k + 2]) == d.month + 1
      && FieldValue(s[k + 4], s[k + 5]) == d.day
  {
    var s, k := ToYearMonthDay(d), |IntToString(d.year)|;
    Layout(d);
    TwoDigitsValue(d.month + 1);
    TwoDigitsValue(d.day);
    var m := d.month + 1;
    assert s[k + 1..k + 3] == [DigitChar(m / 10), DigitChar(m % 10)];
    assert m / 10 == 0 || (m / 10 == 1 && m % 10 <= 2);
  }

  /** Two valid dates are written the same exactly when `isSameDay` holds
      of them. */
  lemma ToYearMonthDayInjective(a: Date, b: Date)
    requires Valid(a) && Valid(b)
    ensures ToYearMonthDay(a) == ToYearMonthDay(b) <==> IsSameDay(a, b)
  {
    ParseToYearMonthDay(a);
    ParseToYearMonthDay(b);
  }
}
