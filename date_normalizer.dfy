/** The converter's date normaliser (`ToYYYY_M_D`): a scraped "Posted:" date
    is cleaned, completed with the current year when it has none, and parsed
    with ten exact formats and a free parse in each of three cultures; the
    first success is printed as `Y/M/D`, and when nothing parses the cleaned
    text is kept. */
module DateNormalizer {
  import opened Wrappers
  import opened Text
  import opened Numbers
  import opened Calendar

  /** The cultures tried, in the order tried. */
  datatype Culture = EnUS | EnGB | EsES

  const Cultures: seq<Culture> := [EnUS, EnGB, EsES]

  /** Full month names, January first. */
  function MonthNames(c: Culture): (names: seq<string>)
    ensures |names| == 12
  {
    match c
    case EsES => ["enero", "febrero", "marzo", "abril", "mayo", "junio", "julio",
                  "agosto", "septiembre", "octubre", "noviembre", "diciembre"]
    case _ => ["January", "February", "March", "April", "May", "June", "July",
               "August", "September", "October", "November", "December"]
  }

  /** Abbreviated month names, January first; each is a prefix of the full name. */
  function AbbreviatedMonthNames(c: Culture): (names: seq<string>)
    ensures |names| == 12
    ensures forall i :: 0 <= i < 12 ==> names[i] <= MonthNames(c)[i]
  {
    match c
    case EsES => ["ene", "feb", "mar", "abr", "may", "jun", "jul", "ago", "sept", "oct", "nov", "dic"]
    case _ => ["Jan", "Feb", "Mar", "Apr", "May", "Jun", "Jul", "Aug", "Sep", "Oct", "Nov", "Dec"]
  }

  /** Every month name of every culture starts with a letter. */
  lemma MonthNamesStartWithLetter(c: Culture)
    ensures forall k :: 0 <= k < 12 ==> |MonthNames(c)[k]| > 0 && IsLetter(MonthNames(c)[k][0])
    ensures forall k :: 0 <= k < 12 ==> |AbbreviatedMonthNames(c)[k]| > 0 && IsLetter(AbbreviatedMonthNames(c)[k][0])
  {
  }

  /** One element of a custom date format string. */
  datatype Token =
    | FullMonth         // MMMM
    | AbbreviatedMonth  // MMM
    | DayNumber         // d: one or two digits
    | MonthNumber       // M: one or two digits
    | Year4             // yyyy: exactly four digits
    | Literal(c: char)  // a space, a comma, '-' or the date separator '/'

  /** The ten formats tried in each culture, in order:
      "MMMM d, yyyy", "MMM d, yyyy", "MMMM d yyyy", "MMM d yyyy",
      "d MMMM, yyyy", "d MMM, yyyy", "d MMMM yyyy", "d MMM yyyy",
      "yyyy-M-d", "yyyy/M/d". The date separator of all three cultures is '/'. */
  const Formats: seq<seq<Token>> := [
    [FullMonth, Literal(' '), DayNumber, Literal(','), Literal(' '), Year4],
    [AbbreviatedMonth, Literal(' '), DayNumber, Literal(','), Literal(' '), Year4],
    [FullMonth, Literal(' '), DayNumber, Literal(' '), Year4],
    [AbbreviatedMonth, Literal(' '), DayNumber, Literal(' '), Year4],
    [DayNumber, Literal(' '), FullMonth, Literal(','), Literal(' '), Year4],
    [DayNumber, Literal(' '), AbbreviatedMonth, Literal(','), Literal(' '), Year4],
    [DayNumber, Literal(' '), FullMonth, Literal(' '), Year4],
    [DayNumber, Literal(' '), AbbreviatedMonth, Literal(' '), Year4],
    [Year4, Literal('-'), MonthNumber, Literal('-'), DayNumber],
    [Year4, Literal('/'), MonthNumber, Literal('/'), DayNumber]
  ]

  /** The number of ASCII digits `s` starts with, reading at most `max`. */
  function DigitRun(s: string, max: nat): (n: nat)
    ensures n <= max && n <= |s|
    ensures forall k :: 0 <= k < n ==> IsAsciiDigit(s[k])
    ensures n < max && n < |s| ==> !IsAsciiDigit(s[n])
    decreases max
  {
    if max == 0 || s == [] || !IsAsciiDigit(s[0]) then 0 else 1 + DigitRun(s[1..], max - 1)
  }

  /** The first month (1 to 12) whose name `s` starts with, ignoring case,
      with the length of that name; no name in one table is a prefix of
      another, so this is also the longest match. */
  function MatchMonth(s: string, names: seq<string>, k: nat): (r: Option<(int, nat)>)
    requires k <= |names|
    ensures r.Some? ==> k < r.value.0 <= |names| && r.value.1 == |names[r.value.0 - 1]|
                        && StartsWithIgnoreCase(s, names[r.value.0 - 1])
    ensures r.None? ==> forall m :: k <= m < |names| ==> !StartsWithIgnoreCase(s, names[m])
    decreases |names| - k
  {
    if k == |names| then None
    else if StartsWithIgnoreCase(s, names[k]) then Some((k + 1, |names[k]|))
    else MatchMonth(s, names, k + 1)
  }

  /** Match `s` against a format, collecting year, month and day into `acc`;
      the whole of `s` must be consumed. */
  function MatchTokens(s: string, tokens: seq<Token>, c: Culture, acc: Date): (r: Option<Date>)
    decreases |tokens|
  {
    if tokens == [] then (if s == [] then Some(acc) else None)
    else match tokens[0]
      case Literal(ch) =>
        if s != [] && s[0] == ch then MatchTokens(s[1..], tokens[1..], c, acc) else None
      case DayNumber =>
        var n := DigitRun(s, 2);
        if n == 0 then None else MatchTokens(s[n..], tokens[1..], c, acc.(day := DigitsValue(s[..n])))
      case MonthNumber =>
        var n := DigitRun(s, 2);
        if n == 0 then None else MatchTokens(s[n..], tokens[1..], c, acc.(month := DigitsValue(s[..n])))
      case Year4 =>
        if |s| >= 4 && AllDigits(s[..4]) then MatchTokens(s[4..], tokens[1..], c, acc.(year := DigitsValue(s[..4])))
        else None
      case FullMonth =>
        (match MatchMonth(s, MonthNames(c), 0)
         case None => None
         case Some(found) => MatchTokens(s[found.1..], tokens[1..], c, acc.(month := found.0)))
      case AbbreviatedMonth =>
        (match MatchMonth(s, AbbreviatedMonthNames(c), 0)
         case None => None
         case Some(found) => MatchTokens(s[found.1..], tokens[1..], c, acc.(month := found.0)))
  }

  /** A field that no token of the format reads keeps the value it had. */
  lemma {:induction false} MatchTokensFields(s: string, tokens: seq<Token>, c: Culture, acc: Date)
    ensures var r := MatchTokens(s, tokens, c, acc);
            r.Some? ==>
              (Year4 !in tokens ==> r.value.year == acc.year)
              && (DayNumber !in tokens ==> r.value.day == acc.day)
              && (MonthNumber !in tokens && FullMonth !in tokens && AbbreviatedMonth !in tokens
                  ==> r.value.month == acc.month)
    decreases |tokens|
  {
    if tokens != [] {
      assert tokens == [tokens[0]] + tokens[1..];
      var r := MatchTokens(s, tokens, c, acc);
      if r.Some? {
        match tokens[0]
        case Literal(ch) => MatchTokensFields(s[1..], tokens[1..], c, acc);
        case DayNumber =>
          var n := DigitRun(s, 2);
          MatchTokensFields(s[n..], tokens[1..], c, acc.(day := DigitsValue(s[..n])));
        case MonthNumber =>
          var n := DigitRun(s, 2);
          MatchTokensFields(s[n..], tokens[1..], c, acc.(month := DigitsValue(s[..n])));
        case Year4 => MatchTokensFields(s[4..], tokens[1..], c, acc.(year := DigitsValue(s[..4])));
        case FullMonth =>
          var found := MatchMonth(s, MonthNames(c), 0).value;
          MatchTokensFields(s[found.1..], tokens[1..], c, acc.(month := found.0));
        case AbbreviatedMonth =>
          var found := MatchMonth(s, AbbreviatedMonthNames(c), 0).value;
          MatchTokensFields(s[found.1..], tokens[1..], c, acc.(month := found.0));
      }
    }
  }

  /** `DateTime.TryParseExact(s, format, culture, DateTimeStyles.None)`:
      only a format with a day, a month and a year field reads a date. */
  function ParseExact(s: string, format: seq<Token>, c: Culture): (r: Option<CalendarDate>)
    ensures r.Some? ==> DayNumber in format && Year4 in format
                        && (MonthNumber in format || FullMonth in format || AbbreviatedMonth in format)
  {
    MatchTokensFields(s, format, c, Date(0, 0, 0));
    match MatchTokens(s, format, c, Date(0, 0, 0))
    case Some(d) => if IsValidDate(d) then var cd: CalendarDate := d; Some(cd) else None
    case None => None
  }

  /** `DateTime.TryParse(s, culture, DateTimeStyles.AllowWhiteSpaces)`: the
      culture's free-form parser, which is not part of this model and is
      taken as a parameter. */
  type FreeParse = (Culture, string) -> Option<CalendarDate>

  /** `Regex.Replace(s, @"\s+", " ")`. */
  function CollapseWhite(s: string): (r: string)
    decreases |s|
  {
    if s == [] then []
    else if IsWhite(s[0]) then " " + CollapseWhite(s[LeadingWhite(s)..])
    else [s[0]] + CollapseWhite(s[1..])
  }

  /** Text without whitespace is left as it is. */
  lemma {:induction false} CollapseWhiteNoWhite(s: string)
    requires forall i :: 0 <= i < |s| ==> !IsWhite(s[i])
    ensures CollapseWhite(s) == s
    decreases |s|
  {
    if s != [] {
      CollapseWhiteNoWhite(s[1..]);
      assert [s[0]] + s[1..] == s;
    }
  }

  /** The cleaned text: runs of whitespace made one space, then trimmed of
      whitespace, then of commas. */
  function CleanDate(raw: string): (r: string)
    ensures r == [] || (r[0] != ',' && r[|r| - 1] != ',')
  {
    TrimChar(Trim(CollapseWhite(raw)), ',')
  }

  /** The regex `\b\d{4}\b` matches at `i`. */
  predicate YearAt(s: string, i: int) {
    0 <= i && i + 4 <= |s| && AllDigits(s[i..i + 4])
    && (i == 0 || !IsWordChar(s[i - 1])) && (i + 4 == |s| || !IsWordChar(s[i + 4]))
  }

  predicate HasStandaloneYear(s: string) {
    exists i :: 0 <= i <= |s| && YearAt(s, i)
  }

  /** The text to parse: the current year is appended after a space when no
      standalone four-digit number is present. */
  function WithYear(s: string, currentYear: int): (r: string) {
    if HasStandaloneYear(s) then s else s + " " + IntToString(currentYear)
  }

  /** The first format of `formats` that `s` parses with in culture `c`. */
  function TryFormats(s: string, c: Culture, formats: seq<seq<Token>>): (r: Option<CalendarDate>)
    ensures r.None? <==> forall k :: 0 <= k < |formats| ==> ParseExact(s, formats[k], c).None?
    decreases |formats|
  {
    if formats == [] then None
    else match ParseExact(s, formats[0], c)
      case Some(d) => Some(d)
      case None => TryFormats(s, c, formats[1..])
  }

  /** Each culture in turn: its exact formats, then its free parse. */
  function TryCultures(s: string, cultures: seq<Culture>, free: FreeParse): (r: Option<CalendarDate>)
    decreases |cultures|
  {
    if cultures == [] then None
    else match TryFormats(s, cultures[0], Formats)
      case Some(d) => Some(d)
      case None =>
        match free(cultures[0], s)
        case Some(d) => Some(d)
        case None => TryCultures(s, cultures[1..], free)
  }

  /** What `ToYYYY_M_D` returns. */
  function NormalizeDate(raw: string, currentYear: int, free: FreeParse): (r: string) {
    var s := CleanDate(raw);
    match TryCultures(WithYear(s, currentYear), Cultures, free)
    case Some(d) => FormatYmd(d)
    case None => s
  }

  /** `ToYYYY_M_D`: the two nested loops over cultures and formats, leaving
      at the first success. */
  method ToYyyyMD(raw: string, currentYear: int, free: FreeParse) returns (r: string)
    ensures r == NormalizeDate(raw, currentYear, free)
  {
    var s := CleanDate(raw);
    var withYear := WithYear(s, currentYear);
    for i := 0 to |Cultures|
      invariant TryCultures(withYear, Cultures[i..], free) == TryCultures(withYear, Cultures, free)
    {
      var c := Cultures[i];
      TryCulturesStep(withYear, Cultures, i, free);
      for j := 0 to |Formats|
        invariant TryFormats(withYear, c, Formats[j..]) == TryFormats(withYear, c, Formats)
      {
        TryFormatsStep(withYear, c, Formats, j);
        var parsed := ParseExact(withYear, Formats[j], c);
        if parsed.Some? {
          return FormatYmd(parsed.value);
        }
      }
      assert Formats[|Formats|..] == [];
      var freeParsed := free(c, withYear);
      if freeParsed.Some? {
        return FormatYmd(freeParsed.value);
      }
    }
    assert Cultures[|Cultures|..] == [];
    return s;
  }

  /** One format tried: its parse when it succeeds, the later formats otherwise. */
  lemma TryFormatsStep(s: string, c: Culture, formats: seq<seq<Token>>, j: nat)
    requires j < |formats|
    ensures ParseExact(s, formats[j], c).Some? ==> TryFormats(s, c, formats[j..]) == ParseExact(s, formats[j], c)
    ensures ParseExact(s, formats[j], c).None? ==> TryFormats(s, c, formats[j..]) == TryFormats(s, c, formats[j + 1..])
  {
    assert formats[j..][1..] == formats[j + 1..];
  }

  /** One culture tried: its formats, then its free parse, then the later cultures. */
  lemma TryCulturesStep(s: string, cultures: seq<Culture>, i: nat, free: FreeParse)
    requires i < |cultures|
    ensures TryFormats(s, cultures[i], Formats).Some? ==>
              TryCultures(s, cultures[i..], free) == TryFormats(s, cultures[i], Formats)
    ensures TryFormats(s, cultures[i], Formats).None? && free(cultures[i], s).Some? ==>
              TryCultures(s, cultures[i..], free) == free(cultures[i], s)
    ensures TryFormats(s, cultures[i], Formats).None? && free(cultures[i], s).None? ==>
              TryCultures(s, cultures[i..], free) == TryCultures(s, cultures[i + 1..], free)
  {
    assert cultures[i..][1..] == cultures[i + 1..];
  }

  // ----- The order of attempts -----

  /** One parsing attempt: an exact format of a culture, or a culture's free parse. */
  datatype Attempt = Exact(culture: Culture, format: seq<Token>) | Free(culture: Culture)

  function RunAttempt(a: Attempt, s: string, free: FreeParse): (r: Option<CalendarDate>) {
    match a
    case Exact(c, f) => ParseExact(s, f, c)
    case Free(c) => free(c, s)
  }

  /** The exact-format attempts of one culture, in the order of `formats`. */
  function ExactAttempts(c: Culture, formats: seq<seq<Token>>): (r: seq<Attempt>)
    ensures |r| == |formats|
    decreases |formats|
  {
    if formats == [] then [] else [Exact(c, formats[0])] + ExactAttempts(c, formats[1..])
  }

  /** All attempts in the order tried: for each culture, its ten formats and then its free parse. */
  function Attempts(cultures: seq<Culture>): (r: seq<Attempt>)
    ensures |r| == 11 * |cultures|
    decreases |cultures|
  {
    if cultures == [] then []
    else ExactAttempts(cultures[0], Formats) + [Free(cultures[0])] + Attempts(cultures[1..])
  }

  /** The result of the first attempt that succeeds. */
  function FirstSuccess(attempts: seq<Attempt>, s: string, free: FreeParse): (r: Option<CalendarDate>)
    ensures r.None? <==> forall k :: 0 <= k < |attempts| ==> RunAttempt(attempts[k], s, free).None?
    ensures r.Some? ==> exists k :: 0 <= k < |attempts| && RunAttempt(attempts[k], s, free) == r
                          && forall m :: 0 <= m < k ==> RunAttempt(attempts[m], s, free).None?
    decreases |attempts|
  {
    if attempts == [] then None
    else match RunAttempt(attempts[0], s, free)
      case Some(d) => Some(d)
      case None =>
        var r := FirstSuccess(attempts[1..], s, free);
        assert forall k :: 1 <= k < |attempts| ==> attempts[k] == attempts[1..][k - 1];
        r
  }

  /** The first success of a list is its head's result, or the first success of the rest. */
  lemma FirstSuccessCons(a: Attempt, rest: seq<Attempt>, s: string, free: FreeParse)
    ensures FirstSuccess([a] + rest, s, free)
            == if RunAttempt(a, s, free).Some? then RunAttempt(a, s, free) else FirstSuccess(rest, s, free)
  {
    assert ([a] + rest)[1..] == rest;
  }

  lemma {:induction false} TryFormatsFirstSuccess(s: string, c: Culture, formats: seq<seq<Token>>, rest: seq<Attempt>,
                                                  free: FreeParse)
    ensures TryFormats(s, c, formats).Some? ==>
              FirstSuccess(ExactAttempts(c, formats) + rest, s, free) == TryFormats(s, c, formats)
    ensures TryFormats(s, c, formats).None? ==>
              FirstSuccess(ExactAttempts(c, formats) + rest, s, free) == FirstSuccess(rest, s, free)
    decreases |formats|
  {
    if formats == [] {
      assert ExactAttempts(c, formats) + rest == rest;
    } else {
      var tail := ExactAttempts(c, formats[1..]);
      assert ExactAttempts(c, formats) + rest == [Exact(c, formats[0])] + (tail + rest);
      FirstSuccessCons(Exact(c, formats[0]), tail + rest, s, free);
      TryFormatsFirstSuccess(s, c, formats[1..], rest, free);
    }
  }

  /** One culture's block of attempts: its formats in order, then its free parse. */
  lemma CultureFirstSuccess(s: string, c: Culture, formats: seq<seq<Token>>, tail: seq<Attempt>, free: FreeParse)
    ensures FirstSuccess(ExactAttempts(c, formats) + [Free(c)] + tail, s, free)
            == if TryFormats(s, c, formats).Some? then TryFormats(s, c, formats)
               else if free(c, s).Some? then free(c, s)
               else FirstSuccess(tail, s, free)
  {
    var rest := [Free(c)] + tail;
    assert ExactAttempts(c, formats) + [Free(c)] + tail == ExactAttempts(c, formats) + rest;
    TryFormatsFirstSuccess(s, c, formats, rest, free);
    if TryFormats(s, c, formats).None? {
      FirstSuccessCons(Free(c), tail, s, free);
      assert RunAttempt(Free(c), s, free) == free(c, s);
    }
  }

  /** The nested search is a search of the flat list of attempts: the
      result is that of the first attempt, in culture-then-format order,
      that succeeds. */
  lemma {:induction false} TryCulturesIsFirstSuccess(s: string, cultures: seq<Culture>, free: FreeParse)
    ensures TryCultures(s, cultures, free) == FirstSuccess(Attempts(cultures), s, free)
    decreases |cultures|
  {
    if cultures != [] {
      CultureFirstSuccess(s, cultures[0], Formats, Attempts(cultures[1..]), free);
      TryCulturesIsFirstSuccess(s, cultures[1..], free);
    }
  }

  /** The normalised date is the Y/M/D print of what the first successful
      attempt, in culture-then-format order, parses; the cleaned input when
      every attempt fails. */
  lemma NormalizeDateFirstWins(raw: string, currentYear: int, free: FreeParse)
    ensures var first := FirstSuccess(Attempts(Cultures), WithYear(CleanDate(raw), currentYear), free);
            NormalizeDate(raw, currentYear, free) == if first.Some? then FormatYmd(first.value) else CleanDate(raw)
  {
    TryCulturesIsFirstSuccess(WithYear(CleanDate(raw), currentYear), Cultures, free);
  }

  /** The normalised date is either the cleaned input or a valid calendar date printed as Y/M/D. */
  lemma NormalizeDateResult(raw: string, currentYear: int, free: FreeParse)
    ensures var r := NormalizeDate(raw, currentYear, free);
            r == CleanDate(raw) || exists d: CalendarDate :: r == FormatYmd(d)
  {
    var t := TryCultures(WithYear(CleanDate(raw), currentYear), Cultures, free);
    if t.Some? {
      assert NormalizeDate(raw, currentYear, free) == FormatYmd(t.value);
    }
  }

  // ----- The year completion -----

  /** After completion with a four-digit current year, the text always has a
      standalone year for the formats to find. */
  lemma WithYearHasYear(s: string, currentYear: int)
    requires 1000 <= currentYear <= 9999
    ensures HasStandaloneYear(WithYear(s, currentYear))
  {
    if !HasStandaloneYear(s) {
      var y := NatToString(currentYear);
      NatDigitsBound(currentYear, 4);
      FourDigits(currentYear);
      var t := s + " " + y;
      assert t[|s| + 1..|s| + 5] == y;
      assert t[|s|] == ' ';
      assert YearAt(t, |s| + 1);
    }
  }

  /** Numbers from 1000 to 9999 print on exactly four digits. */
  lemma FourDigits(n: nat)
    requires 1000 <= n <= 9999
    ensures |NatToString(n)| == 4
  {
    var a, b, c := n / 10, n / 100, n / 1000;
    assert 100 <= a <= 999 && 10 <= b <= 99 && 1 <= c <= 9;
    assert a / 10 == b && b / 10 == c;
    NatToStringStep(n);
    NatToStringStep(a);
    NatToStringStep(b);
  }

  /** Each digit above the last one adds one character. */
  lemma NatToStringStep(n: nat)
    requires n >= 10
    ensures |NatToString(n)| == |NatToString(n / 10)| + 1
  {
  }

  // ----- Idempotence on canonical output -----

  /** A text starting with a digit matches no month name. */
  lemma {:induction false} MatchMonthDigit(s: string, names: seq<string>, k: nat)
    requires k <= |names| && s != [] && IsAsciiDigit(s[0])
    requires forall m :: 0 <= m < |names| ==> |names[m]| > 0 && IsLetter(names[m][0])
    ensures MatchMonth(s, names, k).None?
    decreases |names| - k
  {
    if k < |names| {
      var n := names[k];
      if |n| <= |s| {
        assert ToLower(s[..|n|])[0] == Lower(s[0]);
        assert ToLower(n)[0] == Lower(n[0]);
      }
      MatchMonthDigit(s, names, k + 1);
    }
  }

  /** A digit run of at most `max` digits that is followed by a non-digit is read whole. */
  lemma {:induction false} DigitRunExact(a: string, rest: string, max: nat)
    requires AllDigits(a) && |a| <= max
    requires rest == [] || !IsAsciiDigit(rest[0])
    ensures DigitRun(a + rest, max) == |a|
    decreases |a|
  {
    if a != [] {
      assert (a + rest)[1..] == a[1..] + rest;
      DigitRunExact(a[1..], rest, max - 1);
    } else {
      assert a + rest == rest;
    }
  }

  /** Formats starting with a month name fail on a text starting with a digit. */
  lemma MonthFirstFails(s: string, f: seq<Token>, c: Culture)
    requires f != [] && (f[0] == FullMonth || f[0] == AbbreviatedMonth)
    requires s != [] && IsAsciiDigit(s[0])
    ensures ParseExact(s, f, c).None?
  {
    MonthNamesStartWithLetter(c);
    MatchMonthDigit(s, MonthNames(c), 0);
    MatchMonthDigit(s, AbbreviatedMonthNames(c), 0);
  }

  /** Formats starting with a day and a space fail on a text starting with three digits. */
  lemma DayFirstFails(s: string, f: seq<Token>, c: Culture)
    requires |f| >= 2 && f[0] == DayNumber && f[1] == Literal(' ')
    requires |s| >= 3 && IsAsciiDigit(s[0]) && IsAsciiDigit(s[1]) && IsAsciiDigit(s[2])
    ensures ParseExact(s, f, c).None?
  {
    assert DigitRun(s, 2) == 2 by {
      assert s[1..][1..] == s[2..];
    }
    assert s[2..][0] == s[2] && s[2] != ' ';
    assert f[1..][0] == Literal(' ');
    var acc := Date(0, 0, 0).(day := DigitsValue(s[..2]));
    assert MatchTokens(s[2..], f[1..], c, acc).None?;
  }

  /** The Y/M/D print of a date: four digits, '/', month digits, '/', day digits. */
  lemma YmdShape(d: CalendarDate)
    requires d.year >= 1000
    ensures var s := FormatYmd(d);
            |s| >= 8 && AllDigits(s[..4]) && DigitsValue(s[..4]) == d.year && s[4] == '/'
            && s[5..] == NatToString(d.month) + "/" + NatToString(d.day)
  {
    FourDigits(d.year);
    var s := FormatYmd(d);
    var y := NatToString(d.year);
    assert s == y + ("/" + NatToString(d.month) + "/" + NatToString(d.day));
    assert s[..4] == y;
  }

  /** The format "yyyy-M-d" fails on a Y/M/D print. */
  lemma DashFormatFails(d: CalendarDate, c: Culture)
    requires d.year >= 1000
    ensures ParseExact(FormatYmd(d), Formats[8], c).None?
  {
    YmdShape(d);
    var s := FormatYmd(d);
    assert s[4..][0] == '/';
  }

  /** A literal token consumes its own character. */
  lemma LiteralMatches(ch: char, rest: string, tokens: seq<Token>, c: Culture, acc: Date)
    ensures MatchTokens([ch] + rest, [Literal(ch)] + tokens, c, acc) == MatchTokens(rest, tokens, c, acc)
  {
    assert ([ch] + rest)[1..] == rest && ([Literal(ch)] + tokens)[1..] == tokens;
  }

  /** The year token consumes four digits as the year. */
  lemma YearMatches(y: string, rest: string, tokens: seq<Token>, c: Culture, acc: Date)
    requires |y| == 4 && AllDigits(y)
    ensures MatchTokens(y + rest, [Year4] + tokens, c, acc) == MatchTokens(rest, tokens, c, acc.(year := DigitsValue(y)))
  {
    assert (y + rest)[..4] == y && (y + rest)[4..] == rest && ([Year4] + tokens)[1..] == tokens;
  }

  /** A one- or two-digit day is read as that day. */
  lemma DayMatches(dd: string, c: Culture, acc: Date)
    requires AllDigits(dd) && 1 <= |dd| <= 2
    ensures MatchTokens(dd, [DayNumber], c, acc) == Some(acc.(day := DigitsValue(dd)))
  {
    DigitRunExact(dd, [], 2);
    assert dd + [] == dd;
    assert dd[..|dd|] == dd && dd[|dd|..] == [];
  }

  /** A one- or two-digit month, a separator and a day are read as that month and day. */
  lemma MonthDayMatches(m: string, dd: string, sep: char, c: Culture, acc: Date)
    requires AllDigits(m) && 1 <= |m| <= 2 && AllDigits(dd) && 1 <= |dd| <= 2 && !IsAsciiDigit(sep)
    ensures MatchTokens(m + ([sep] + dd), [MonthNumber, Literal(sep), DayNumber], c, acc)
            == Some(acc.(month := DigitsValue(m), day := DigitsValue(dd)))
  {
    DigitRunExact(m, [sep] + dd, 2);
    assert (m + ([sep] + dd))[..|m|] == m && (m + ([sep] + dd))[|m|..] == [sep] + dd;
    assert [MonthNumber, Literal(sep), DayNumber][1..] == [Literal(sep)] + [DayNumber];
    LiteralMatches(sep, dd, [DayNumber], c, acc.(month := DigitsValue(m)));
    DayMatches(dd, c, acc.(month := DigitsValue(m)));
  }

  /** The formats "yyyy-M-d" and "yyyy/M/d" read four year digits, the
      separator, the month digits, the separator and the day digits as that date. */
  lemma NumericFormatParses(s: string, y: string, m: string, dd: string, sep: char, d: CalendarDate, c: Culture)
    requires s == y + ([sep] + (m + ([sep] + dd))) && !IsAsciiDigit(sep)
    requires |y| == 4 && AllDigits(y) && DigitsValue(y) == d.year
    requires AllDigits(m) && 1 <= |m| <= 2 && DigitsValue(m) == d.month
    requires AllDigits(dd) && 1 <= |dd| <= 2 && DigitsValue(dd) == d.day
    ensures ParseExact(s, [Year4, Literal(sep), MonthNumber, Literal(sep), DayNumber], c) == Some(d)
  {
    var tail := [MonthNumber, Literal(sep), DayNumber];
    assert [Year4, Literal(sep), MonthNumber, Literal(sep), DayNumber] == [Year4] + ([Literal(sep)] + tail);
    YearMatches(y, [sep] + (m + ([sep] + dd)), [Literal(sep)] + tail, c, Date(0, 0, 0));
    LiteralMatches(sep, m + ([sep] + dd), tail, c, Date(d.year, 0, 0));
    MonthDayMatches(m, dd, sep, c, Date(d.year, 0, 0));
  }

  /** The format "yyyy/M/d" reads a Y/M/D print back as the same date. */
  lemma SlashFormatParses(d: CalendarDate, c: Culture)
    requires d.year >= 1000
    ensures ParseExact(FormatYmd(d), Formats[9], c) == Some(d)
  {
    YmdShape(d);
    var s := FormatYmd(d);
    var m, dd := NatToString(d.month), NatToString(d.day);
    NatDigitsBound(d.month, 2);
    NatDigitsBound(d.day, 2);
    assert s == s[..4] + ['/'] + s[5..];
    assert s == s[..4] + (['/'] + (m + (['/'] + dd)));
    NumericFormatParses(s, s[..4], m, dd, '/', d, c);
  }

  /** Formats that fail can be skipped. */
  lemma {:induction false} TryFormatsSkip(s: string, c: Culture, formats: seq<seq<Token>>, k: nat)
    requires k <= |formats|
    requires forall j :: 0 <= j < k ==> ParseExact(s, formats[j], c).None?
    ensures TryFormats(s, c, formats) == TryFormats(s, c, formats[k..])
    decreases k
  {
    if k > 0 {
      TryFormatsSkip(s, c, formats[1..], k - 1);
      assert formats[1..][k - 1..] == formats[k..];
    }
  }

  /** In every culture, the Y/M/D print of a date from year 1000 on fails the
      first nine formats and parses back to the same date with the tenth. */
  lemma ParseCanonical(d: CalendarDate, c: Culture)
    requires d.year >= 1000
    ensures TryFormats(FormatYmd(d), c, Formats) == Some(d)
  {
    var s := FormatYmd(d);
    YmdShape(d);
    assert IsAsciiDigit(s[..4][0]) && IsAsciiDigit(s[..4][1]) && IsAsciiDigit(s[..4][2]);
    forall j | 0 <= j < 9
      ensures ParseExact(s, Formats[j], c).None?
    {
      if j < 4 {
        MonthFirstFails(s, Formats[j], c);
      } else if j < 8 {
        DayFirstFails(s, Formats[j], c);
      } else {
        DashFormatFails(d, c);
      }
    }
    TryFormatsSkip(s, c, Formats, 9);
    SlashFormatParses(d, c);
    assert Formats[9..][1..] == [];
  }

  /** The characters of a Y/M/D print are digits and slashes. */
  lemma YmdChars(d: CalendarDate)
    ensures var s := FormatYmd(d);
            forall i :: 0 <= i < |s| ==> IsAsciiDigit(s[i]) || s[i] == '/'
  {
    var y, m, dd := NatToString(d.year), NatToString(d.month), NatToString(d.day);
    var s := FormatYmd(d);
    forall i | 0 <= i < |s|
      ensures IsAsciiDigit(s[i]) || s[i] == '/'
    {
      if i < |y| {
        assert s[i] == y[i];
      } else if |y| < i < |y| + 1 + |m| {
        assert s[i] == m[i - |y| - 1];
      } else if i > |y| + 1 + |m| {
        assert s[i] == dd[i - |y| - 2 - |m|];
      }
    }
  }

  /** A Y/M/D print of a date from year 1000 on is left as it is: the
      normaliser is idempotent on its own dated output, whatever the current
      year and the free parser. */
  lemma NormalizeCanonical(d: CalendarDate, currentYear: int, free: FreeParse)
    requires d.year >= 1000
    ensures NormalizeDate(FormatYmd(d), currentYear, free) == FormatYmd(d)
  {
    var s := FormatYmd(d);
    YmdChars(d);
    YmdShape(d);
    assert s[0] == s[..4][0];
    DigitsSeparatorsClean(s, '/');
    assert YearAt(s, 0);
    ParseCanonical(d, EnUS);
    assert Cultures[0] == EnUS;
    assert TryCultures(s, Cultures, free) == Some(d);
  }

  // ----- Reading the scraper's dates -----

  /** `s` is laid out as yyyy-MM-dd with the year, month and day of `d`. */
  predicate IsIsoOf(s: string, d: CalendarDate) {
    |s| == 10 && s[4] == '-' && s[7] == '-'
    && AllDigits(s[..4]) && DigitsValue(s[..4]) == d.year
    && AllDigits(s[5..7]) && DigitsValue(s[5..7]) == d.month
    && AllDigits(s[8..]) && DigitsValue(s[8..]) == d.day
  }

  /** The format "yyyy-M-d" reads a zero-padded yyyy-MM-dd text as its date. */
  lemma IsoDashParses(s: string, d: CalendarDate, c: Culture)
    requires IsIsoOf(s, d)
    ensures ParseExact(s, Formats[8], c) == Some(d)
  {
    assert s == s[..4] + (['-'] + (s[5..7] + (['-'] + s[8..])));
    NumericFormatParses(s, s[..4], s[5..7], s[8..], '-', d, c);
  }

  /** In every culture, a yyyy-MM-dd text fails the first eight formats and
      parses back to its date with the ninth. */
  lemma ParseIso(s: string, d: CalendarDate, c: Culture)
    requires IsIsoOf(s, d)
    ensures TryFormats(s, c, Formats) == Some(d)
  {
    assert IsAsciiDigit(s[..4][0]) && IsAsciiDigit(s[..4][1]) && IsAsciiDigit(s[..4][2]);
    forall j | 0 <= j < 8
      ensures ParseExact(s, Formats[j], c).None?
    {
      if j < 4 {
        MonthFirstFails(s, Formats[j], c);
      } else {
        DayFirstFails(s, Formats[j], c);
      }
    }
    TryFormatsSkip(s, c, Formats, 8);
    IsoDashParses(s, d, c);
  }

  /** Every character of a yyyy-MM-dd text is a digit or a dash. */
  lemma IsoChars(s: string, d: CalendarDate)
    requires IsIsoOf(s, d)
    ensures forall i :: 0 <= i < |s| ==> IsAsciiDigit(s[i]) || s[i] == '-'
  {
    forall i | 0 <= i < |s|
      ensures IsAsciiDigit(s[i]) || s[i] == '-'
    {
      if i < 4 {
        assert s[i] == s[..4][i];
      } else if 4 < i < 7 {
        assert s[i] == s[5..7][i - 5];
      } else if i > 7 {
        assert s[i] == s[8..][i - 8];
      }
    }
  }

  /** A text of digits and one separator character (a dash or a slash) that
      starts and ends with a digit is its own cleaned form. */
  lemma DigitsSeparatorsClean(s: string, sep: char)
    requires sep == '-' || sep == '/'
    requires |s| > 0 && IsAsciiDigit(s[0]) && IsAsciiDigit(s[|s| - 1])
    requires forall i :: 0 <= i < |s| ==> IsAsciiDigit(s[i]) || s[i] == sep
    ensures CleanDate(s) == s
  {
    assert forall i :: 0 <= i < |s| ==> !IsWhite(s[i]);
    CollapseWhiteNoWhite(s);
    assert IsTrimmed(s);
    TrimOfTrimmed(s);
    assert s[0] != ',' && s[|s| - 1] != ',';
    assert TrimChar(s, ',') == s;
  }

  /** A yyyy-MM-dd text is its own cleaned form and holds a standalone year. */
  lemma IsoIsClean(s: string, d: CalendarDate)
    requires IsIsoOf(s, d)
    ensures CleanDate(s) == s && HasStandaloneYear(s)
  {
    IsoChars(s, d);
    assert s[0] == s[..4][0] && s[9] == s[8..][1];
    DigitsSeparatorsClean(s, '-');
    assert YearAt(s, 0);
  }

  /** The yyyy-MM-dd date the scraper writes is normalised to the same date
      printed as Y/M/D without padding, whatever the current year and the
      free parser. */
  lemma NormalizeIso(d: CalendarDate, currentYear: int, free: FreeParse)
    ensures NormalizeDate(FormatIso(d), currentYear, free) == FormatYmd(d)
  {
    var s := FormatIso(d);
    assert IsIsoOf(s, d);
    IsoIsClean(s, d);
    ParseIso(s, d, EnUS);
    assert Cultures[0] == EnUS;
    assert TryCultures(s, Cultures, free) == Some(d);
  }
}
