/** Decimal digit strings and the numeric conversions of the .NET base
    library that the program uses: `int.ToString()`, `int.TryParse`,
    `int.Parse`, and `double.TryParse` / `double.ToString` with the invariant
    culture, the last two on exact decimal numbers instead of binary floats. */
module Numbers {
  import opened Text
  import opened Wrappers

  function DigitChar(d: nat): (c: char)
    requires d < 10
    ensures IsAsciiDigit(c)
  {
    ('0' as int + d) as char
  }

  function DigitValue(c: char): (d: nat)
    requires IsAsciiDigit(c)
    ensures d < 10 && DigitChar(d) == c
  {
    c as int - '0' as int
  }

  /** The value of a run of decimal digits, leading zeros allowed. */
  function DigitsValue(ds: string): (n: nat)
    requires AllDigits(ds)
    decreases |ds|
  {
    if ds == [] then 0 else 10 * DigitsValue(ds[..|ds| - 1]) + DigitValue(ds[|ds| - 1])
  }

  /** The number of ASCII digits `t` starts with. */
  function LeadingDigits(t: string): (n: nat)
    ensures n <= |t|
    ensures forall i :: 0 <= i < n ==> IsAsciiDigit(t[i])
    ensures n == |t| || !IsAsciiDigit(t[n])
    decreases |t|
  {
    if t != [] && IsAsciiDigit(t[0]) then 1 + LeadingDigits(t[1..]) else 0
  }

  /** A run of digits followed by a non-digit is read whole. */
  lemma {:induction false} LeadingDigitsOf(ds: string, t: string)
    requires AllDigits(ds) && t != [] && !IsAsciiDigit(t[0])
    ensures LeadingDigits(ds + t) == |ds|
    decreases |ds|
  {
    if ds == [] {
      assert ds + t == t;
    } else {
      assert (ds + t)[1..] == ds[1..] + t;
      LeadingDigitsOf(ds[1..], t);
    }
  }

  /** A string of digits is one run. */
  lemma {:induction false} LeadingDigitsAll(ds: string)
    requires AllDigits(ds)
    ensures LeadingDigits(ds) == |ds|
    decreases |ds|
  {
    if ds != [] {
      LeadingDigitsAll(ds[1..]);
    }
  }

  /** `n.ToString()` for a non-negative integer: the shortest digit string
      with value `n`, so no leading zero except for `0` itself. */
  function NatToString(n: nat): (r: string)
    ensures |r| >= 1 && AllDigits(r)
    ensures |r| > 1 ==> r[0] != '0'
    ensures DigitsValue(r) == n
    ensures r[|r| - 1] == DigitChar(n % 10)
    decreases n
  {
    if n < 10 then [DigitChar(n)]
    else
      var p := NatToString(n / 10);
      var r := p + [DigitChar(n % 10)];
      assert r[..|r| - 1] == p;
      r
  }

  /** `i.ToString()` for an integer: a minus sign before the digits of a negative value. */
  function IntToString(i: int): (r: string)
    ensures i >= 0 ==> r == NatToString(i)
    ensures i < 0 ==> r == "-" + NatToString(-i)
  {
    if i < 0 then "-" + NatToString(-i) else NatToString(i)
  }

  const Int32Min: int := -0x8000_0000
  const Int32Max: int := 0x7FFF_FFFF

  /** The whitespace `NumberStyles.AllowLeadingWhite` and `AllowTrailingWhite` accept. */
  predicate IsNumberWhite(c: char) {
    c == ' ' || ('\t' <= c <= '\r')
  }

  function StripNumberWhite(s: string): (r: string)
    ensures |r| <= |s|
    ensures r == [] || (!IsNumberWhite(r[0]) && !IsNumberWhite(r[|r| - 1]))
    ensures (forall i :: 0 <= i < |s| ==> !IsNumberWhite(s[i])) ==> r == s
    decreases |s|
  {
    if s == [] then s
    else if IsNumberWhite(s[0]) then StripNumberWhite(s[1..])
    else if IsNumberWhite(s[|s| - 1]) then StripNumberWhite(s[..|s| - 1])
    else s
  }

  /** `int.TryParse(s, out v)` (`NumberStyles.Integer`): optional surrounding
      whitespace, an optional sign, at least one digit, and a value that fits
      in 32 bits; anything else fails. */
  function ParseInt32(s: string): (r: Option<int>)
    ensures r.Some? ==> Int32Min <= r.value <= Int32Max
    ensures s != [] && AllDigits(s) ==>
              r == if DigitsValue(s) <= Int32Max then Some(DigitsValue(s) as int) else None
    ensures (forall i :: 0 <= i < |s| ==> !IsAsciiDigit(s[i])) ==> r.None?
  {
    var t := StripNumberWhite(s);
    var negative := t != [] && t[0] == '-';
    var body := if t != [] && (t[0] == '-' || t[0] == '+') then t[1..] else t;
    assert forall i :: 0 <= i < |body| ==> body[i] in s by {
      // every character of `body` comes from `s`
      assert forall i :: 0 <= i < |body| ==> body[i] in t;
      CharsOfStripped(s);
    }
    if body == [] || !AllDigits(body) then None
    else
      var v := if negative then -(DigitsValue(body) as int) else DigitsValue(body) as int;
      if Int32Min <= v <= Int32Max then Some(v) else None
  }

  /** A number printed by `NatToString` reads back when it fits in 32 bits. */
  lemma ParseInt32OfNat(n: nat)
    requires n <= Int32Max
    ensures ParseInt32(NatToString(n)) == Some(n)
  {
    var s := NatToString(n);
    assert s != [] && AllDigits(s) && DigitsValue(s) == n;
  }

  lemma {:induction false} CharsOfStripped(s: string)
    ensures forall c :: c in StripNumberWhite(s) ==> c in s
    decreases |s|
  {
    if s != [] {
      if IsNumberWhite(s[0]) {
        CharsOfStripped(s[1..]);
      } else if IsNumberWhite(s[|s| - 1]) {
        CharsOfStripped(s[..|s| - 1]);
      }
    }
  }

  /** An exact decimal number: an integer part and the digits after the
      point. It is canonical when the fraction has no trailing zero, which is
      how `double.ToString` prints it. */
  datatype Decimal = Decimal(whole: nat, frac: string)

  const Zero := Decimal(0, "")

  predicate IsCanonical(d: Decimal) {
    AllDigits(d.frac) && (d.frac == [] || d.frac[|d.frac| - 1] != '0')
  }

  /** The value is greater than zero (`> 0` on the parsed double). */
  predicate IsPositive(d: Decimal) {
    d.whole > 0 || exists i :: 0 <= i < |d.frac| && d.frac[i] != '0'
  }

  predicate IsDigitOrDot(c: char) {
    IsAsciiDigit(c) || c == '.'
  }

  /** The regex class `[\d,.]`. */
  predicate IsDigitCommaOrDot(c: char) {
    IsAsciiDigit(c) || c == '.' || c == ','
  }

  predicate DigitsAndDots(s: string) {
    forall i :: 0 <= i < |s| ==> IsDigitOrDot(s[i])
  }

  function DropTrailingZeros(ds: string): (r: string)
    ensures |r| <= |ds| && r == ds[..|r|]
    ensures r == [] || r[|r| - 1] != '0'
    ensures forall i :: |r| <= i < |ds| ==> ds[i] == '0'
    decreases |ds|
  {
    if ds != [] && ds[|ds| - 1] == '0' then DropTrailingZeros(ds[..|ds| - 1]) else ds
  }

  function IndexOf(s: string, c: char): (i: nat)
    requires c in s
    ensures i < |s| && s[i] == c && c !in s[..i]
    decreases |s|
  {
    if s[0] == c then 0
    else
      var j := IndexOf(s[1..], c);
      assert s[..j + 1] == [s[0]] + s[1..][..j];
      1 + j
  }

  /** `double.TryParse(s, NumberStyles.Any, CultureInfo.InvariantCulture)` on
      a string of ASCII digits and dots: it succeeds exactly when there is at
      most one dot and at least one digit. */
  function ParseDecimal(s: string): (r: Option<Decimal>)
    requires DigitsAndDots(s)
    ensures r.Some? ==> IsCanonical(r.value)
    ensures r.Some? <==> (s != [] && s != "." && ('.' in s ==> '.' !in s[IndexOf(s, '.') + 1..]))
    ensures s != [] && AllDigits(s) ==> r == Some(Decimal(DigitsValue(s), ""))
  {
    if '.' !in s then
      if s == [] then None else Some(Decimal(DigitsValue(s), ""))
    else
      var i := IndexOf(s, '.');
      var w, f := s[..i], s[i + 1..];
      assert AllDigits(w);
      if '.' in f || s == "." then None
      else
        assert AllDigits(f);
        Some(Decimal(DigitsValue(w), DropTrailingZeros(f)))
  }

  /** `d.ToString(CultureInfo.InvariantCulture)`: the integer digits, then a
      point and the fraction digits when there are any. */
  function RenderDecimal(d: Decimal): (r: string)
    requires IsCanonical(d)
    ensures |r| >= 1 && DigitsAndDots(r) && IsAsciiDigit(r[0]) && IsAsciiDigit(r[|r| - 1])
  {
    NatToString(d.whole) + (if d.frac == [] then "" else "." + d.frac)
  }

  /** Digits, one point and digits, with a digit on at least one side, parse
      as the two digit runs. */
  lemma ParseWithPoint(s: string, w: string, f: string)
    requires s == w + "." + f && AllDigits(w) && AllDigits(f) && (w != [] || f != [])
    ensures DigitsAndDots(s)
    ensures ParseDecimal(s) == Some(Decimal(DigitsValue(w), DropTrailingZeros(f)))
  {
    assert '.' !in w;
    assert s[|w|] == '.';
    assert IndexOf(s, '.') == |w|;
    assert s[..|w|] == w;
    assert s[|w| + 1..] == f;
    assert '.' !in f;
  }

  /** Printing a canonical decimal and parsing it back gives the same number. */
  lemma ParseRenderDecimal(d: Decimal)
    requires IsCanonical(d)
    ensures ParseDecimal(RenderDecimal(d)) == Some(d)
  {
    var w := NatToString(d.whole);
    var s := RenderDecimal(d);
    if d.frac == [] {
      assert s == w;
      assert '.' !in s;
    } else {
      assert s == w + "." + d.frac;
      ParseWithPoint(s, w, d.frac);
      assert DropTrailingZeros(d.frac) == d.frac;
    }
  }
}
