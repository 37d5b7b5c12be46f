/**
  The `YYYY-MM-DD` text form of a date that the calendar compares event dates
  against, and its inverse. The year is written as `String(getFullYear())`
  writes it (no padding, a minus sign before negative years); month (1-based)
  and day are padded to two digits with `padStart(2, '0')`.
*/
module DateFormat {
  import opened CivilDate

  datatype Option<T> = None | Some(value: T)

  predicate IsDigit(c: char) {
    '0' <= c <= '9'
  }

  predicate AllDigits(s: string) {
    forall i :: 0 <= i < |s| ==> IsDigit(s[i])
  }

  function DigitChar(n: nat): (c: char)
    requires n < 10
    ensures IsDigit(c) && c as int - '0' as int == n
  {
    (n + '0' as int) as char
  }

  function DigitValue(c: char): (n: nat)
    requires IsDigit(c)
    ensures n < 10 && DigitChar(n) == c
  {
    c as int - '0' as int
  }

  /** `String(n)` for a non-negative integer: its decimal digits, without leading zeros. */
  function NatToString(n: nat): (s: string)
    ensures 1 <= |s| && AllDigits(s)
    ensures n < 10 <==> |s| == 1
    ensures n >= 1 ==> s[0] != '0'
    decreases n
  {
    if n < 10 then [DigitChar(n)] else NatToString(n / 10) + [DigitChar(n % 10)]
  }

  /** `String(i)` for an integer. */
  function IntToString(i: int): (s: string)
    ensures i >= 0 ==> 1 <= |s| && AllDigits(s) && (i >= 1 ==> s[0] != '0')
    ensures i < 0 ==> 2 <= |s| && s[0] == '-' && AllDigits(s[1..]) && s[1] != '0'
  {
    if i < 0 then "-" + NatToString(-i) else NatToString(i)
  }

  /** `s.padStart(2, '0')`. */
  function PadStart2(s: string): (r: string)
    ensures |r| == if |s| < 2 then 2 else |s|
    ensures |s| >= 2 ==> r == s
    ensures r[|r| - |s|..] == s && forall i :: 0 <= i < |r| - |s| ==> r[i] == '0'
  {
    if |s| < 2 then seq(2 - |s|, _ => '0') + s else s
  }

  /** The text of a date's fields, as `formatDate` assembles it. */
  function FormatCivil(c: Date): string {
    IntToString(c.year) + "-" + PadStart2(IntToString(c.month + 1)) + "-" + PadStart2(IntToString(c.day))
  }

  /** `formatDate(date)` for the JavaScript date on day `t`. */
  function FormatDate(t: int): string {
    FormatCivil(Civil(t))
  }

  /** The value of a string of decimal digits. */
  function ParseNat(s: string): nat
    requires AllDigits(s)
  {
    if |s| == 0 then 0 else ParseNat(s[..|s| - 1]) * 10 + DigitValue(s[|s| - 1])
  }

  /** Decimal integer text: digits, optionally after a leading minus sign. */
  predicate IsIntText(s: string) {
    |s| >= 1 && (AllDigits(s) || (s[0] == '-' && AllDigits(s[1..])))
  }

  /** The value of a decimal integer with an optional leading minus sign. */
  function ParseInt(s: string): int
    requires IsIntText(s)
  {
    if s[0] == '-' then 0 - ParseNat(s[1..]) else ParseNat(s)
  }

  /** Reads `Y-MM-DD` back into a date; malformed text gives None. */
  function ParseDate(s: string): Option<Date> {
    var n := |s|;
    if n >= 7 && s[n - 6] == '-' && s[n - 3] == '-' && IsIntText(s[..n - 6])
       && AllDigits(s[n - 5..n - 3]) && AllDigits(s[n - 2..])
    then Some(Date(ParseInt(s[..n - 6]), ParseNat(s[n - 5..n - 3]) - 1, ParseNat(s[n - 2..])))
    else None
  }

  lemma {:induction false} ParseNatToString(n: nat)
    ensures ParseNat(NatToString(n)) == n
    decreases n
  {
    var s := NatToString(n);
    if n >= 10 {
      ParseNatToString(n / 10);
      assert s[..|s| - 1] == NatToString(n / 10);
    }
  }

  lemma ParseIntToString(i: int)
    ensures IsIntText(IntToString(i)) && ParseInt(IntToString(i)) == i
  {
    var s := IntToString(i);
    if i < 0 {
      assert s[1..] == NatToString(-i);
      ParseNatToString(-i);
    } else {
      assert IsDigit(s[0]);
      ParseNatToString(i);
    }
  }

  /** A field of one or two digits, padded to two, reads back as itself. */
  lemma ParsePadded(n: nat)
    requires 1 <= n < 100
    ensures |PadStart2(IntToString(n))| == 2 && AllDigits(PadStart2(IntToString(n)))
    ensures ParseNat(PadStart2(IntToString(n))) == n
  {
    var p := PadStart2(IntToString(n));
    if n < 10 {
      assert p == ['0', DigitChar(n)];
      assert p[..1] == ['0'];
      assert ParseNat(p[..1]) == 0 by {
        assert p[..1][..0] == [];
      }
    } else {
      assert NatToString(n / 10) == [DigitChar(n / 10)];
      assert IntToString(n) == [DigitChar(n / 10), DigitChar(n % 10)];
      assert p[..1] == [DigitChar(n / 10)];
      assert ParseNat(p[..1]) == n / 10 by {
        assert p[..1][..0] == [];
      }
    }
  }

  /** Where the fields of `Y-MM-DD` text sit, counted from its end as ParseDate counts them. */
  lemma DateTextSlices(y: string, mm: string, dd: string)
    requires |mm| == 2 && |dd| == 2
    ensures var s := y + "-" + mm + "-" + dd;
      && |s| >= 6 && s[|s| - 6] == '-' && s[|s| - 3] == '-'
      && s[..|s| - 6] == y && s[|s| - 5..|s| - 3] == mm && s[|s| - 2..] == dd
  {
    var s, k := y + "-" + mm + "-" + dd, |y|;
    assert |s| - 6 == k;
    assert s == y + ("-" + mm + "-" + dd);
    assert s[..k] == y;
    assert s[k..] == "-" + mm + "-" + dd;
  }

  /** ParseDate splits off the last six characters: `-MM-DD`. */
  lemma ParseDateFields(y: string, mm: string, dd: string)
    requires IsIntText(y) && |mm| == 2 && |dd| == 2 && AllDigits(mm) && AllDigits(dd)
    ensures ParseDate(y + "-" + mm + "-" + dd) == Some(Date(ParseInt(y), ParseNat(mm) - 1, ParseNat(dd)))
  {
    DateTextSlices(y, mm, dd);
  }

  /** Parsing undoes formatting for every valid date. */
  lemma ParseFormatCivil(c: Date)
    requires ValidDate(c)
    ensures ParseDate(FormatCivil(c)) == Some(c)
  {
    ParseIntToString(c.year);
    ParsePadded(c.month + 1);
    ParsePadded(c.day);
    ParseDateFields(IntToString(c.year), PadStart2(IntToString(c.month + 1)), PadStart2(IntToString(c.day)));
  }

  /** Parsing undoes formatDate: the text determines the date. */
  lemma ParseFormatDate(t: int)
    ensures ParseDate(FormatDate(t)) == Some(Civil(t))
  {
    ParseFormatCivil(Civil(t));
  }

  /** Different days never share a date string. */
  lemma FormatDateInjective(s: int, t: int)
    requires FormatDate(s) == FormatDate(t)
    ensures s == t
  {
    ParseFormatDate(s);
    ParseFormatDate(t);
    CivilInjective(s, t);
  }

  /** The date string of a valid date is the text of its own fields. */
  lemma FormatDayNumber(c: Date)
    requires ValidDate(c)
    ensures FormatDate(DayNumber(c)) == FormatCivil(c)
  {
    CivilOfDayNumber(c);
  }

  /** March 15 2024 is written `2024-03-15`. */
  lemma FormatMarch15of2024()
    ensures FormatCivil(Date(2024, 2, 15)) == "2024-03-15"
  {
  }

  /** March 1 2024 is written `2024-03-01`. */
  lemma FormatMarch1of2024()
    ensures FormatCivil(Date(2024, 2, 1)) == "2024-03-01"
  {
  }
}
