/**
  The `year-MM-DD` keys under which the calendar looks entries up
  (`formatDate` in CalendarGrid and, identically, in DayGrid), and a parser
  that reads such a key back.

  The month and the day are padded to two digits exactly when they are below
  10; the year is written as JavaScript prints an integer, without padding.
 */
module DateKey {
  import opened Wrappers
  import opened Gregorian

  predicate IsDigit(c: char) {
    '0' <= c <= '9'
  }

  function DigitChar(d: int): (c: char)
    requires 0 <= d < 10
    ensures IsDigit(c)
  {
    ('0' as int + d) as char
  }

  function DigitValue(c: char): int
    requires IsDigit(c)
  {
    c as int - '0' as int
  }

  /** Decimal digits of a natural number, most significant first, no leading zeros. */
  function NatToString(n: nat): (s: string)
    ensures |s| >= 1
    ensures forall i :: 0 <= i < |s| ==> IsDigit(s[i])
    decreases n
  {
    if n < 10 then [DigitChar(n)] else NatToString(n / 10) + [DigitChar(n % 10)]
  }

  /** How a template literal prints an integer-valued number. */
  function IntToString(n: int): string {
    if n < 0 then "-" + NatToString(-n) else NatToString(n)
  }

  /** `n < 10 ? `0${n}` : n` */
  function Pad2(n: int): string {
    if n < 10 then "0" + IntToString(n) else IntToString(n)
  }

  /** `formatDate(year, month, day)` with a 0-based month. */
  function FormatDate(year: int, month: int, day: int): string {
    IntToString(year) + "-" + Pad2(month + 1) + "-" + Pad2(day)
  }

  /** Reads a non-empty run of decimal digits. */
  function ParseDigits(s: string): Option<nat>
    decreases |s|
  {
    if |s| == 0 || !IsDigit(s[|s| - 1]) then None
    else if |s| == 1 then Some(DigitValue(s[0]))
    else
      match ParseDigits(s[..|s| - 1])
      case None => None
      case Some(v) => Some(v * 10 + DigitValue(s[|s| - 1]))
  }

  /** Reads a ten-character `YYYY-MM-DD` key back into (year, 0-based month, day). */
  function ParseDateKey(s: string): Option<CivilDate> {
    if |s| != 10 || s[4] != '-' || s[7] != '-' then None
    else
      match (ParseDigits(s[..4]), ParseDigits(s[5..7]), ParseDigits(s[8..]))
      case (Some(y), Some(m), Some(d)) => Some(CivilDate(y, m as int - 1, d))
      case _ => None
  }

  // ----- Lemmas -----

  /** Printing a natural number and reading it back gives the number. */
  lemma {:induction false} ParseNatToString(n: nat)
    ensures ParseDigits(NatToString(n)) == Some(n)
    decreases n
  {
    if n >= 10 {
      var s := NatToString(n);
      var prefix := NatToString(n / 10);
      assert s == prefix + [DigitChar(n % 10)];
      assert s[..|s| - 1] == prefix;
      ParseNatToString(n / 10);
    }
  }

  /** The number of digits printed for one- to four-digit numbers. */
  lemma {:induction false} NatToStringLength(n: nat)
    ensures n < 10 ==> |NatToString(n)| == 1
    ensures 10 <= n < 100 ==> |NatToString(n)| == 2
    ensures 100 <= n < 1000 ==> |NatToString(n)| == 3
    ensures 1000 <= n < 10000 ==> |NatToString(n)| == 4
    decreases n
  {
    if n >= 10 {
      NatToStringLength(n / 10);
    }
  }

  /** A padded month or day is two digits that read back as the number. */
  lemma Pad2RoundTrip(n: int)
    requires 1 <= n <= 99
    ensures |Pad2(n)| == 2
    ensures ParseDigits(Pad2(n)) == Some(n)
  {
    NatToStringLength(n);
    ParseNatToString(n);
    if n < 10 {
      var s := Pad2(n);
      assert s == ['0', DigitChar(n)];
      assert s[..1] == ['0'];
    }
  }

  /** For four-digit years the key is the ten-character full-date form of
      section 5.6 of RFC 3339, and parsing it recovers the date. */
  lemma FormatDateRoundTrip(year: int, month: int, day: int)
    requires 1000 <= year <= 9999 && 0 <= month < 12 && 1 <= day <= 31
    ensures |FormatDate(year, month, day)| == 10
    ensures ParseDateKey(FormatDate(year, month, day)) == Some(CivilDate(year, month, day))
  {
    var y := IntToString(year);
    var m := Pad2(month + 1);
    var d := Pad2(day);
    NatToStringLength(year);
    ParseNatToString(year);
    Pad2RoundTrip(month + 1);
    Pad2RoundTrip(day);
    var s := FormatDate(year, month, day);
    assert s == y + "-" + m + "-" + d;
    assert s[..4] == y;
    assert s[5..7] == m;
    assert s[8..] == d;
  }

  /** A three-digit negative year also prints as four characters, so its key
      has the ten-character shape yet does not read back. */
  lemma NegativeYearKeyDoesNotParse()
    ensures |FormatDate(-999, 0, 1)| == 10
    ensures ParseDateKey(FormatDate(-999, 0, 1)).None?
  {
    NatToStringLength(999);
    var s := FormatDate(-999, 0, 1);
    assert s == "-999-01-01";
    assert s[..4] == "-999";
    assert ParseDigits("-") == None;
    assert "-99"[..2] == "-9" && "-9"[..1] == "-" && "-999"[..3] == "-99";
  }

  /** Distinct four-digit-year dates get distinct keys. */
  lemma FormatDateInjective(a: CivilDate, b: CivilDate)
    requires 1000 <= a.year <= 9999 && 0 <= a.month < 12 && 1 <= a.day <= 31
    requires 1000 <= b.year <= 9999 && 0 <= b.month < 12 && 1 <= b.day <= 31
    requires FormatDate(a.year, a.month, a.day) == FormatDate(b.year, b.month, b.day)
    ensures a == b
  {
    FormatDateRoundTrip(a.year, a.month, a.day);
    FormatDateRoundTrip(b.year, b.month, b.day);
  }

}
