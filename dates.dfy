/** Calendar dates in the `%Y-%m-%d` form, standing in for chrono's
    `NaiveDate` as used by anyrun-todo/src/todo.rs. */
module Dates {
  import opened Prelude
  import opened Strings

  datatype DateValue = DateValue(year: int, month: int, day: int)

  predicate IsLeapYear(y: int) {
    (y % 4 == 0 && y % 100 != 0) || y % 400 == 0
  }

  function DaysInMonth(y: int, m: int): int {
    if m == 2 then (if IsLeapYear(y) then 29 else 28)
    else if m == 4 || m == 6 || m == 9 || m == 11 then 30
    else 31
  }

  /** A real calendar day whose year has four digits. */
  predicate IsValidDate(d: DateValue) {
    0 <= d.year <= 9999 && 1 <= d.month <= 12 && 1 <= d.day <= DaysInMonth(d.year, d.month)
  }

  type Date = d: DateValue | IsValidDate(d) witness DateValue(2024, 6, 1)

  function Digit(n: int): (c: char)
    requires 0 <= n < 10
    ensures IsAsciiDigit(c)
  {
    ('0' as int + n) as char
  }

  /** `n` written with exactly `width` digits, zero-padded. */
  function Padded(n: nat, width: nat): (r: string)
    ensures |r| == width
    ensures forall i :: 0 <= i < |r| ==> IsAsciiDigit(r[i])
  {
    if width == 0 then "" else Padded(n / 10, width - 1) + [Digit(n % 10)]
  }

  function Pow10(k: nat): (r: nat)
    ensures r > 0
  {
    if k == 0 then 1 else 10 * Pow10(k - 1)
  }

  /** Reading back a padded numeral gives the number, when it fits. */
  lemma {:induction false} PaddedValue(n: nat, width: nat)
    requires n < Pow10(width)
    ensures DigitsValue(Padded(n, width)) == n
  {
    if width > 0 {
      var p := Padded(n, width);
      assert p[..|p| - 1] == Padded(n / 10, width - 1);
      PaddedValue(n / 10, width - 1);
    }
  }

  /** Writing back the value of a run of digits gives the run. */
  lemma {:induction false} ValuePadded(s: string)
    requires forall i :: 0 <= i < |s| ==> IsAsciiDigit(s[i])
    ensures Padded(DigitsValue(s), |s|) == s
  {
    if |s| > 0 {
      var init := s[..|s| - 1];
      var v := DigitsValue(s);
      ValuePadded(init);
      assert v / 10 == DigitsValue(init) && v % 10 == DigitValue(s[|s| - 1]);
      assert s == init + [s[|s| - 1]];
    }
  }

  /** `NaiveDate`'s `Display`: `YYYY-MM-DD`. */
  function FormatDate(d: Date): (r: string)
    ensures |r| == 10 && r[4] == '-' && r[7] == '-'
    ensures forall i :: 0 <= i < 10 && i != 4 && i != 7 ==> IsAsciiDigit(r[i])
  {
    Padded(d.year, 4) + "-" + Padded(d.month, 2) + "-" + Padded(d.day, 2)
  }

  /** The shape `FormatDate` writes: four digits, a dash, two digits, a
      dash, two digits. */
  predicate IsDateShaped(s: string) {
    |s| == 10 && s[4] == '-' && s[7] == '-'
    && forall i :: 0 <= i < 10 && i != 4 && i != 7 ==> IsAsciiDigit(s[i])
  }

  /** `NaiveDate::parse_from_str(s, "%Y-%m-%d")`, restricted to the
      zero-padded form. */
  function ParseDate(s: string): (r: Option<Date>)
  {
    if !IsDateShaped(s) then None
    else
      var d := DateValue(DigitsValue(s[..4]), DigitsValue(s[5..7]), DigitsValue(s[8..]));
      if IsValidDate(d) then var date: Date := d; Some(date) else None
  }

  /** Parsing what was formatted gives the date back. */
  lemma ParseFormat(d: Date)
    ensures ParseDate(FormatDate(d)) == Some(d)
  {
    var s := FormatDate(d);
    assert s[..4] == Padded(d.year, 4);
    assert s[5..7] == Padded(d.month, 2);
    assert s[8..] == Padded(d.day, 2);
    PaddedValue(d.year, 4);
    PaddedValue(d.month, 2);
    PaddedValue(d.day, 2);
  }

  /** Whatever parses is the formatting of the date it parses to. */
  lemma FormatParse(s: string)
    requires ParseDate(s).Some?
    ensures FormatDate(ParseDate(s).value) == s
  {
    forall i | 0 <= i < 4 ensures IsAsciiDigit(s[..4][i]) { assert s[..4][i] == s[i]; }
    forall i | 0 <= i < 2 ensures IsAsciiDigit(s[5..7][i]) { assert s[5..7][i] == s[5 + i]; }
    forall i | 0 <= i < 2 ensures IsAsciiDigit(s[8..][i]) { assert s[8..][i] == s[8 + i]; }
    ValuePadded(s[..4]);
    ValuePadded(s[5..7]);
    ValuePadded(s[8..]);
    assert s == s[..4] + "-" + s[5..7] + "-" + s[8..];
  }

  /** A formatted date has no whitespace, no comma and is not `None`. */
  lemma FormatDateIsPlain(d: Date)
    ensures NoWhitespace(FormatDate(d)) && ',' !in FormatDate(d) && FormatDate(d) != "None"
  {
    var s := FormatDate(d);
    assert forall i :: 0 <= i < |s| ==> IsAsciiDigit(s[i]) || s[i] == '-';
  }
}
