/** Gregorian calendar dates as `System.DateTime` accepts them, and the two
    ways the program prints one. */
module Calendar {
  import opened Text
  import opened Numbers

  datatype Date = Date(year: int, month: int, day: int)

  predicate IsLeapYear(y: int) {
    y % 4 == 0 && (y % 100 != 0 || y % 400 == 0)
  }

  function DaysInMonth(y: int, m: int): (n: int)
    requires 1 <= m <= 12
    ensures 28 <= n <= 31
  {
    if m == 2 then (if IsLeapYear(y) then 29 else 28)
    else if m == 4 || m == 6 || m == 9 || m == 11 then 30
    else 31
  }

  /** What `new DateTime(year, month, day)` accepts without throwing. */
  predicate IsValidDate(d: Date) {
    1 <= d.year <= 9999 && 1 <= d.month <= 12 && 1 <= d.day <= DaysInMonth(d.year, d.month)
  }

  /** The dates a `DateTime` can hold. */
  type CalendarDate = d: Date | IsValidDate(d) witness Date(1, 1, 1)

  /** `$"{dt.Year}/{dt.Month}/{dt.Day}"`: no zero padding. */
  function FormatYmd(d: CalendarDate): (r: string)
    ensures r == NatToString(d.year) + "/" + NatToString(d.month) + "/" + NatToString(d.day)
  {
    IntToString(d.year) + "/" + IntToString(d.month) + "/" + IntToString(d.day)
  }

  /** Left-pad a digit string with zeros to `width` characters. */
  function PadZeros(ds: string, width: nat): (r: string)
    ensures |r| == if |ds| >= width then |ds| else width
    ensures AllDigits(ds) ==> AllDigits(r) && DigitsValue(r) == DigitsValue(ds)
    decreases width - |ds|
  {
    if |ds| >= width then ds
    else
      var r := PadZeros("0" + ds, width);
      assert AllDigits(ds) ==> DigitsValue("0" + ds) == DigitsValue(ds) by {
        if AllDigits(ds) { LeadingZeroValue(ds); }
      }
      r
  }

  /** A leading zero does not change the value of a digit string. */
  lemma {:induction false} LeadingZeroValue(ds: string)
    requires AllDigits(ds)
    ensures DigitsValue("0" + ds) == DigitsValue(ds)
    decreases |ds|
  {
    if ds != [] {
      var p := ds[..|ds| - 1];
      assert ("0" + ds)[..|ds|] == "0" + p;
      LeadingZeroValue(p);
    }
  }

  /** `dt.ToString("yyyy-MM-dd")`: the year on four digits, month and day on two. */
  function FormatIso(d: CalendarDate): (r: string)
    ensures |r| == 10 && r[4] == '-' && r[7] == '-'
    ensures AllDigits(r[..4]) && DigitsValue(r[..4]) == d.year
    ensures AllDigits(r[5..7]) && DigitsValue(r[5..7]) == d.month
    ensures AllDigits(r[8..]) && DigitsValue(r[8..]) == d.day
  {
    NatDigitsBound(d.year, 4);
    NatDigitsBound(d.month, 2);
    NatDigitsBound(d.day, 2);
    var y, m, dd := PadZeros(NatToString(d.year), 4), PadZeros(NatToString(d.month), 2),
                    PadZeros(NatToString(d.day), 2);
    var r := y + "-" + m + "-" + dd;
    assert r[..4] == y && r[5..7] == m && r[8..] == dd;
    r
  }

  /** A number below 10^k has at most k digits. */
  lemma {:induction false} NatDigitsBound(n: nat, k: nat)
    requires n < Pow10(k)
    ensures |NatToString(n)| <= k || (n == 0 && k == 0)
    decreases n
  {
    if n >= 10 {
      NatDigitsBound(n / 10, k - 1);
    } else if k == 0 {
      assert n == 0;
    }
  }

  function Pow10(k: nat): (p: nat)
    ensures p >= 1
  {
    if k == 0 then 1 else 10 * Pow10(k - 1)
  }
}
