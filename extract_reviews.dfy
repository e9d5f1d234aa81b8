/** The review extractor: for every review card of the saved page it pulls
    the recommendation, the hours, the posting date and the content, formats
    them as a labelled block and writes the block, followed by a dashed
    separator line, to one file (mode "all") or to one of two files chosen by
    the script of the content. */
module ExtractSteamReviews {
  import opened Wrappers
  import opened Text
  import opened Numbers
  import opened Html
  import opened Calendar
  import opened ReportFolder

  // ----- Review cards -----

  /** The card text node, as its inner markup before and after the date div
      it may hold (the outer markup of that div). */
  datatype ContentNode = ContentNode(before: string, dateDiv: Option<string>, after: string)

  /** A review card: the inner text of its title, hours and date nodes and its
      content node, each absent when the card lacks it. */
  datatype ReviewNode = ReviewNode(title: Option<string>, hours: Option<string>,
                                   datePosted: Option<string>, content: Option<ContentNode>)

  /** `node != null ? node.InnerText.Trim() : ""`. */
  function TrimmedText(text: Option<string>): (r: string)
    ensures IsTrimmed(r)
    ensures text.None? ==> r == ""
  {
    if text.Some? then Trim(text.value) else ""
  }

  /** `InnerHtml` of the content node once its date div has been removed. */
  function InnerHtmlWithoutDate(node: ContentNode): (html: string) {
    node.before + node.after
  }

  // ----- The content sanitiser -----

  /** Line-break tags become line feeds, character references are decoded,
      every run of line breaks becomes one space, and the text is trimmed. */
  function Sanitize(html: string): (r: string)
    ensures Excludes(r, '\n') && IsTrimmed(r)
    ensures |r| <= |html|
  {
    var decoded := DecodeEntities(ReplaceBr(html));
    CollapseNewlinesFacts(decoded);
    ReplaceBrShorter(html);
    Trim(CollapseNewlines(decoded))
  }

  lemma {:induction false} ReplaceBrShorter(s: string)
    ensures |ReplaceBr(s)| <= |s|
    decreases |s|
  {
    if s != [] {
      var n := BrTagLength(s);
      if n > 0 {
        ReplaceBrShorter(s[n..]);
      } else {
        ReplaceBrShorter(s[1..]);
      }
    }
  }

  /** The content written for a card: empty without a content node. */
  function Content(node: ReviewNode): (r: string)
    ensures Excludes(r, '\n') && IsTrimmed(r)
  {
    match node.content
    case None => ""
    case Some(c) => Sanitize(InnerHtmlWithoutDate(c))
  }

  /** The date div inside the content node never reaches the content. */
  lemma ContentIgnoresDateDiv(n: ReviewNode, div: Option<string>)
    requires n.content.Some?
    ensures Content(n.(content := Some(n.content.value.(dateDiv := div)))) == Content(n)
  {
  }

  /** Text that is already clean (trimmed, on one line, without markup or
      references) is left unchanged. */
  lemma SanitizePlain(s: string)
    requires IsTrimmed(s) && IsSingleLine(s) && Excludes(s, '<') && Excludes(s, '&')
    ensures Sanitize(s) == s
  {
    CollapseNewlinesFacts(s);
    TrimOfTrimmed(s);
  }

  /** Sanitising is not idempotent: a doubly encoded reference is decoded
      once per pass. */
  lemma SanitizeTwiceDiffers(s: string)
    requires s == "&amp;lt;"
    ensures Sanitize(s) == "&lt;" && Sanitize(Sanitize(s)) == "<"
  {
    SanitizeAmpLt(s);
    SanitizeLt();
  }

  lemma SanitizeAmpLt(s: string)
    requires s == "&amp;lt;"
    ensures Sanitize(s) == "&lt;"
  {
    var t := "&lt;";
    assert Excludes(s, '<');
    assert IsTrimmed(t) && Excludes(t, '\n') by {
      assert t[0] == '&' && t[3] == ';';
    }
    DecodeAmpLt();
    SanitizeDecodes(s, t);
  }

  lemma SanitizeLt()
    ensures Sanitize("&lt;") == "<"
  {
    DecodeLt();
    SanitizeDecodes("&lt;", "<");
  }

  lemma DecodeAmpLt()
    ensures DecodeEntities("&amp;lt;") == "&lt;"
  {
    AmpThenText("&amp;lt;", "lt;");
  }

  /** `&amp;` followed by text without references decodes to `&` and that text. */
  lemma AmpThenText(s: string, t: string)
    requires s == "&amp;" + t && Excludes(t, '&')
    ensures DecodeEntities(s) == "&" + t
  {
    assert Entities[0].0 <= s;
    assert MatchEntity(s, 0) == Some((5, '&'));
    assert s[5..] == t;
  }

  lemma DecodeLt()
    ensures DecodeEntities("&lt;") == "<"
  {
    var t := "&lt;";
    assert !(Entities[0].0 <= t);
    assert Entities[1].0 <= t;
    assert t[4..] == [];
  }

  /** Markup-free text whose references decode to clean text sanitises to it. */
  lemma SanitizeDecodes(s: string, t: string)
    requires Excludes(s, '<') && DecodeEntities(s) == t && IsTrimmed(t) && Excludes(t, '\n')
    ensures Sanitize(s) == t
  {
    ReplaceBrPlainPrefix(s, "");
    assert s + "" == s;
    CollapseNewlinesFacts(t);
    TrimOfTrimmed(t);
  }

  lemma ReplaceBrStep(s: string)
    requires s != [] && s[0] != '<'
    ensures ReplaceBr(s) == [s[0]] + ReplaceBr(s[1..])
  {
    assert BrTagLength(s) == 0;
  }

  /** Text without markup in front of `t` is copied as it is. */
  lemma {:induction false} ReplaceBrPlainPrefix(a: string, t: string)
    requires Excludes(a, '<')
    ensures ReplaceBr(a + t) == a + ReplaceBr(t)
    decreases |a|
  {
    if a == [] {
      assert a + t == t;
    } else {
      var rest := a[1..];
      assert (a + t)[0] == a[0] && (a + t)[1..] == rest + t;
      assert Excludes(rest, '<');
      calc {
        ReplaceBr(a + t);
      == { ReplaceBrStep(a + t); }
        [a[0]] + ReplaceBr(rest + t);
      == { ReplaceBrPlainPrefix(rest, t); }
        [a[0]] + (rest + ReplaceBr(t));
      == { ConsConcat(a, ReplaceBr(t)); }
        a + ReplaceBr(t);
      }
    }
  }

  lemma ConsConcat(a: string, r: string)
    requires a != []
    ensures [a[0]] + (a[1..] + r) == a + r
  {
    assert [a[0]] + a[1..] == a;
  }

  /** A line-break tag between two pieces of plain text becomes one space. */
  lemma BrBecomesSpace(a: string, b: string)
    requires IsSingleLine(a) && Excludes(a, '<') && Excludes(a, '&')
    requires IsSingleLine(b) && Excludes(b, '<') && Excludes(b, '&')
    ensures Sanitize(a + "<br>" + b) == Trim(a + " " + b)
  {
    BrReplaced(a, b);
    var replaced := a + ("\n" + b);
    assert Excludes(replaced, '&');
    assert DecodeEntities(replaced) == replaced;
    CollapseOneRun(a, "\n", b);
    CollapseNewlinesFacts(a);
    CollapseNewlinesFacts(b);
  }

  /** The tag between two pieces of markup-free text becomes a line feed. */
  lemma BrReplaced(a: string, b: string)
    requires Excludes(a, '<') && Excludes(b, '<')
    ensures ReplaceBr(a + "<br>" + b) == a + ("\n" + b)
  {
    var br := "<br>";
    assert BrTagLength(br + b) == 4 by {
      assert (br + b)[3..][0] == '>';
    }
    assert ReplaceBr(br + b) == "\n" + b by {
      assert (br + b)[4..] == b;
    }
    assert a + br + b == a + (br + b);
    ReplaceBrPlainPrefix(a, br + b);
  }

  // ----- Hours -----

  /** The number of characters of `[\d,.]` that `t` starts with. */
  function NumberRunLength(t: string): (n: nat)
    ensures n <= |t|
    ensures forall i :: 0 <= i < n ==> IsDigitCommaOrDot(t[i])
    ensures n == |t| || !IsDigitCommaOrDot(t[n])
    decreases |t|
  {
    if t != [] && IsDigitCommaOrDot(t[0]) then 1 + NumberRunLength(t[1..]) else 0
  }

  /** The first match of `([\d,.]+)`. */
  function NumberRun(s: string): (r: Option<string>)
    ensures r.Some? ==> r.value != [] && forall i :: 0 <= i < |r.value| ==> IsDigitCommaOrDot(r.value[i])
    ensures r.None? <==> forall i :: 0 <= i < |s| ==> !IsDigitCommaOrDot(s[i])
    decreases |s|
  {
    if s == [] then None
    else if IsDigitCommaOrDot(s[0]) then Some(s[..NumberRunLength(s)])
    else NumberRun(s[1..])
  }

  /** The extractor's `ParseHours`: 0 for blank text; otherwise the first run
      of digits, commas and points, commas read as points, or 0 when that
      run is not a number. */
  function ParseHours(text: string): (h: Decimal)
    ensures IsCanonical(h)
    ensures IsBlank(text) ==> h == Zero
  {
    if IsBlank(text) then Zero
    else
      match NumberRun(text)
      case None => Zero
      case Some(x) =>
        var y := ReplaceChar(x, ',', '.');
        match ParseDecimal(y)
        case Some(h) => h
        case None => Zero
  }

  /** A number run found after text without digits, commas or points is
      the one parsed. */
  lemma ParseHoursOf(pre: string, x: string, post: string)
    requires forall i :: 0 <= i < |pre| ==> !IsDigitCommaOrDot(pre[i])
    requires x != [] && forall i :: 0 <= i < |x| ==> IsDigitCommaOrDot(x[i])
    requires post == [] || !IsDigitCommaOrDot(post[0])
    ensures DigitsAndDots(ReplaceChar(x, ',', '.'))
            && ParseHours(pre + x + post) == ParseDecimal(ReplaceChar(x, ',', '.')).GetOr(Zero)
  {
    var s := pre + x + post;
    assert !IsWhite(s[|pre|]);
    NumberRunAfter(pre, x, post);
  }

  lemma {:induction false} NumberRunAfter(pre: string, x: string, post: string)
    requires forall i :: 0 <= i < |pre| ==> !IsDigitCommaOrDot(pre[i])
    requires x != [] && forall i :: 0 <= i < |x| ==> IsDigitCommaOrDot(x[i])
    requires post == [] || !IsDigitCommaOrDot(post[0])
    ensures NumberRun(pre + x + post) == Some(x)
    decreases |pre|
  {
    var s := pre + x + post;
    if pre == [] {
      assert s == x + post;
      NumberRunLengthOf(x, post);
      assert s[..|x|] == x;
    } else {
      assert s[1..] == pre[1..] + x + post;
      NumberRunAfter(pre[1..], x, post);
    }
  }

  lemma {:induction false} NumberRunLengthOf(x: string, post: string)
    requires forall i :: 0 <= i < |x| ==> IsDigitCommaOrDot(x[i])
    requires post == [] || !IsDigitCommaOrDot(post[0])
    ensures NumberRunLength(x + post) == |x|
    decreases |x|
  {
    if x == [] {
      assert x + post == post;
    } else {
      assert (x + post)[1..] == x[1..] + post;
      NumberRunLengthOf(x[1..], post);
    }
  }

  /** A number written with a thousands separator has two points once its
      comma is read as a point, so it gives 0 hours. */
  lemma ThousandsGiveZero(x: string)
    requires x == "1,234.5"
    ensures ParseHours(x + " h") == Zero
  {
    ParseHoursOf("", x, " h");
    assert "" + x + " h" == x + " h";
    var y := ReplaceChar(x, ',', '.');
    assert y == "1.234.5";
    assert IndexOf(y, '.') == 1;
    assert y[2..][3] == '.';
  }

  // ----- The posting date -----

  /** Why reading the date can throw. */
  datatype DateError =
    | PartMissing   // `parts[4]` with fewer than five parts
    | InvalidDate   // `new DateTime(year, month, day)` out of range

  const PublishedPrefix: string := "Publicada el "

  /** The keys of the month dictionary. */
  const SpanishMonths: seq<string> := [
    "enero", "febrero", "marzo", "abril", "mayo", "junio",
    "julio", "agosto", "septiembre", "octubre", "noviembre", "diciembre"
  ]

  /** The dictionary lookup with `StringComparer.OrdinalIgnoreCase`, from entry `k` on. */
  function MonthFrom(lowered: string, k: nat): (r: Option<int>)
    requires k <= |SpanishMonths|
    ensures r.Some? ==> k < r.value <= 12 && lowered == SpanishMonths[r.value - 1]
    ensures r.None? ==> forall j :: k <= j < |SpanishMonths| ==> lowered != SpanishMonths[j]
    decreases |SpanishMonths| - k
  {
    if k == |SpanishMonths| then None
    else if lowered == SpanishMonths[k] then Some(k + 1)
    else MonthFrom(lowered, k + 1)
  }

  /** The month number of a Spanish month name, case ignored. */
  function MonthNumber(word: string): (r: Option<int>)
    ensures r.Some? ==> 1 <= r.value <= 12 && ToLower(word) == SpanishMonths[r.value - 1]
    ensures r.None? ==> forall j :: 0 <= j < 12 ==> ToLower(word) != SpanishMonths[j]
  {
    MonthFrom(ToLower(word), 0)
  }

  lemma MonthsDistinct()
    ensures forall j, k :: 0 <= j < k < 12 ==> SpanishMonths[j] != SpanishMonths[k]
  {
  }

  /** A word is looked up as the month whose name it is, in any case. */
  lemma MonthNumberOf(word: string, m: int)
    requires 1 <= m <= 12 && ToLower(word) == SpanishMonths[m - 1]
    ensures MonthNumber(word) == Some(m)
  {
    MonthsDistinct();
  }

  /** The text once "Publicada el " is removed and it is trimmed. */
  function Cleaned(text: string): (r: string)
    ensures IsTrimmed(r)
  {
    Trim(ReplaceAll(text, PublishedPrefix, "", false))
  }

  /** `ParseDate`: "" for blank text; the cleaned text when it has fewer than
      three space-separated parts or its parts do not read as day, month name
      and year; a zero-padded yyyy-MM-dd date otherwise. An error when the
      year's part is missing or the date does not exist. */
  function ParseDate(text: string): (r: Result<string, DateError>)
    ensures IsBlank(text) ==> r == Ok("")
  {
    if IsBlank(text) then Ok("")
    else
      var t := Cleaned(text);
      var parts := SplitOn(t, ' ');
      if |parts| < 3 then Ok(t)
      else
        match (ParseInt32(parts[0]), MonthNumber(parts[2]))
        case (Some(day), Some(month)) =>
          if |parts| < 5 then Err(PartMissing)
          else
            (match ParseInt32(parts[4])
             case None => Ok(t)
             case Some(year) =>
               var date := Date(year, month, day);
               if IsValidDate(date) then
                 var cd: CalendarDate := date;
                 Ok(FormatIso(cd))
               else Err(InvalidDate))
        case _ => Ok(t)
  }

  /** What reading a date can give: the cleaned text itself or a calendar
      date when it succeeds; a missing part exactly when the day and the month
      name read but the year's part is not there; both errors only once the
      day and the month name have been read. */
  lemma ParseDateOutcomes(text: string)
    ensures var r := ParseDate(text);
            r.Ok? && !IsBlank(text) ==> r.value == Cleaned(text) || exists d: CalendarDate :: r.value == FormatIso(d)
    ensures var r, parts := ParseDate(text), SplitOn(Cleaned(text), ' ');
            r.Err? ==> |parts| >= 3 && ParseInt32(parts[0]).Some? && MonthNumber(parts[2]).Some?
    ensures var parts := SplitOn(Cleaned(text), ' ');
            ParseDate(text) == Err(PartMissing) <==>
              !IsBlank(text) && 3 <= |parts| < 5 && ParseInt32(parts[0]).Some? && MonthNumber(parts[2]).Some?
  {
    var r := ParseDate(text);
    if r.Ok? && !IsBlank(text) && r.value != Cleaned(text) {
      var parts := SplitOn(Cleaned(text), ' ');
      var day, month, year := ParseInt32(parts[0]).value, MonthNumber(parts[2]).value, ParseInt32(parts[4]).value;
      var cd: CalendarDate := Date(year, month, day);
      assert r.value == FormatIso(cd);
    }
  }

  /** Text that is trimmed and has no capital P loses nothing to the
      label removal, whether or not the label precedes it. */
  lemma CleanedOf(body: string, labelled: bool)
    requires IsTrimmed(body) && Excludes(body, 'P')
    ensures Cleaned(if labelled then PublishedPrefix + body else body) == body
  {
    ReplaceAllMissing(body, PublishedPrefix, "", false, 0);
    if labelled {
      ReplaceAllFirst(PublishedPrefix, body, "");
    }
    TrimOfTrimmed(body);
  }

  /** Day, month name and year as the first, third and fifth parts give
      the zero-padded date. */
  lemma ParseDateReads(text: string, body: string, d: CalendarDate)
    requires !IsBlank(text) && Cleaned(text) == body
    requires var parts := SplitOn(body, ' ');
             |parts| >= 5 && ParseInt32(parts[0]) == Some(d.day) && MonthNumber(parts[2]) == Some(d.month)
             && ParseInt32(parts[4]) == Some(d.year)
    ensures ParseDate(text) == Ok(FormatIso(d))
  {
    var date := Date(d.year, d.month, d.day);
    assert date == d;
  }

  /** A piece without spaces, then " de ": the piece and "de" split off. */
  lemma SplitDe(a: string, rest: string)
    requires Excludes(a, ' ')
    ensures SplitOn(a + " de " + rest, ' ') == [a, "de"] + SplitOn(rest, ' ')
  {
    var de := "de";
    assert a + " de " + rest == a + [' '] + (de + [' '] + rest);
    SplitOnCons(a, ' ', de + [' '] + rest);
    SplitOnCons(de, ' ', rest);
  }

  /** The five space-separated parts of "d de mes de yyyy". */
  lemma SpanishParts(ds: string, month: string, ys: string)
    requires Excludes(ds, ' ') && Excludes(month, ' ') && Excludes(ys, ' ')
    ensures SplitOn(ds + " de " + month + " de " + ys, ' ') == [ds, "de", month, "de", ys]
  {
    var tail := month + " de " + ys;
    assert ds + " de " + month + " de " + ys == ds + " de " + tail;
    SplitDe(ds, tail);
    SplitDe(month, ys);
    SplitOnNone(ys, ' ');
  }

  /** The three space-separated parts of "d de mes". */
  lemma SpanishPartsWithoutYear(ds: string, month: string)
    requires Excludes(ds, ' ') && Excludes(month, ' ')
    ensures SplitOn(ds + " de " + month, ' ') == [ds, "de", month]
  {
    SplitDe(ds, month);
    SplitOnNone(month, ' ');
  }

  /** "d de mes de yyyy" holds no capital P when the month name holds none. */
  lemma SpanishHasNoP(ds: string, month: string, ys: string)
    requires AllDigits(ds) && AllDigits(ys) && Excludes(month, 'P')
    ensures Excludes(ds + " de " + month + " de " + ys, 'P')
    ensures Excludes(ds + " de " + month, 'P')
  {
    var body := ds + " de " + month + " de " + ys;
    forall i | 0 <= i < |body|
      ensures body[i] != 'P'
    {
      if i < |ds| {
        assert body[i] == ds[i];
      } else if |ds| + 4 <= i < |ds| + 4 + |month| {
        assert body[i] == month[i - |ds| - 4];
      } else if i >= |ds| + 8 + |month| {
        assert body[i] == ys[i - |ds| - 8 - |month|];
      }
    }
    var short := ds + " de " + month;
    forall i | 0 <= i < |short|
      ensures short[i] != 'P'
    {
      assert short[i] == body[i];
    }
  }

  /** The Spanish long form "d de mes de yyyy", with or without the
      "Publicada el " label and with the month in any case, gives the
      zero-padded date. */
  lemma ParseDateSpanish(d: CalendarDate, month: string, labelled: bool)
    requires ToLower(month) == SpanishMonths[d.month - 1]
    requires Excludes(month, ' ') && Excludes(month, 'P')
    ensures var body := NatToString(d.day) + " de " + month + " de " + NatToString(d.year);
            ParseDate(if labelled then PublishedPrefix + body else body) == Ok(FormatIso(d))
  {
    var ds, ys := NatToString(d.day), NatToString(d.year);
    var body := ds + " de " + month + " de " + ys;
    var text := if labelled then PublishedPrefix + body else body;
    SpanishCleaned(ds, month, ys, labelled);
    SpanishReads(d, month);
    ParseDateReads(text, body, d);
  }

  /** The parts of "d de mes de yyyy" read as the day, the month and the year. */
  lemma SpanishReads(d: CalendarDate, month: string)
    requires ToLower(month) == SpanishMonths[d.month - 1] && Excludes(month, ' ')
    ensures var parts := SplitOn(NatToString(d.day) + " de " + month + " de " + NatToString(d.year), ' ');
            |parts| >= 5 && ParseInt32(parts[0]) == Some(d.day) && MonthNumber(parts[2]) == Some(d.month)
            && ParseInt32(parts[4]) == Some(d.year)
  {
    ParseInt32OfNat(d.day);
    ParseInt32OfNat(d.year);
    MonthNumberOf(month, d.month);
    PartsRead(NatToString(d.day), month, NatToString(d.year), d.day, d.month, d.year);
  }

  /** Pieces that read as a day, a month and a year keep doing so as the
      first, third and fifth parts of "d de mes de yyyy". */
  lemma PartsRead(ds: string, month: string, ys: string, day: int, m: int, year: int)
    requires Excludes(ds, ' ') && Excludes(month, ' ') && Excludes(ys, ' ')
    requires ParseInt32(ds) == Some(day) && MonthNumber(month) == Some(m) && ParseInt32(ys) == Some(year)
    ensures var parts := SplitOn(ds + " de " + month + " de " + ys, ' ');
            |parts| >= 5 && ParseInt32(parts[0]) == Some(day) && MonthNumber(parts[2]) == Some(m)
            && ParseInt32(parts[4]) == Some(year)
  {
    SpanishParts(ds, month, ys);
  }

  /** "d de mes de yyyy", labelled or not, is not blank and cleans to itself. */
  lemma SpanishCleaned(ds: string, month: string, ys: string, labelled: bool)
    requires ds != [] && ys != [] && AllDigits(ds) && AllDigits(ys) && Excludes(month, 'P')
    ensures var body := ds + " de " + month + " de " + ys;
            var text := if labelled then PublishedPrefix + body else body;
            !IsBlank(text) && Cleaned(text) == body
  {
    var body := ds + " de " + month + " de " + ys;
    var text := if labelled then PublishedPrefix + body else body;
    SpanishHasNoP(ds, month, ys);
    assert IsTrimmed(body) by {
      assert body[0] == ds[0] && body[|body| - 1] == ys[|ys| - 1];
    }
    CleanedOf(body, labelled);
    assert !IsWhite(text[0]) by {
      if labelled {
        assert text[0] == 'P';
      } else {
        assert text[0] == ds[0];
      }
    }
  }

  /** "d de mes" without a year reads past the end of the parts: the
      extractor throws. */
  lemma ParseDateWithoutYear(day: nat, month: string, m: int)
    requires day <= Int32Max
    requires 1 <= m <= 12 && ToLower(month) == SpanishMonths[m - 1]
    requires Excludes(month, ' ') && Excludes(month, 'P')
    ensures ParseDate(NatToString(day) + " de " + month) == Err(PartMissing)
  {
    var ds := NatToString(day);
    SpanishHasNoP(ds, month, "0");
    WithoutYearTrimmed(ds, month, m);
    MonthNumberOf(month, m);
    PartMissingOf(day, ds, month);
  }

  lemma WithoutYearTrimmed(ds: string, month: string, m: int)
    requires ds != [] && IsAsciiDigit(ds[0])
    requires 1 <= m <= 12 && ToLower(month) == SpanishMonths[m - 1]
    requires Excludes(month, ' ')
    ensures IsTrimmed(ds + " de " + month)
  {
    var body := ds + " de " + month;
    assert |month| == |SpanishMonths[m - 1]| > 0;
    assert ToLower(month)[|month| - 1] == Lower(month[|month| - 1]);
    assert body[0] == ds[0] && body[|body| - 1] == month[|month| - 1];
  }

  lemma PartMissingOf(day: nat, ds: string, month: string)
    requires day <= Int32Max && ds == NatToString(day)
    requires IsTrimmed(ds + " de " + month) && Excludes(ds + " de " + month, 'P')
    requires Excludes(month, ' ') && MonthNumber(month).Some?
    ensures ParseDate(ds + " de " + month) == Err(PartMissing)
  {
    var body := ds + " de " + month;
    CleanedOf(body, false);
    SpanishPartsWithoutYear(ds, month);
    ParseDateOutcomes(body);
  }

  // ----- The script classifier -----

  predicate IsCjk(c: char) {
    ('\U{4E00}' <= c <= '\U{9FFF}') || ('\U{3400}' <= c <= '\U{4DBF}')
  }

  predicate IsHangul(c: char) {
    ('\U{1100}' <= c <= '\U{11FF}') || ('\U{3130}' <= c <= '\U{318F}') || ('\U{AC00}' <= c <= '\U{D7AF}')
  }

  predicate IsKana(c: char) {
    ('\U{3040}' <= c <= '\U{309F}') || ('\U{30A0}' <= c <= '\U{30FF}')
  }

  predicate IsCyrillic(c: char) {
    '\U{0400}' <= c <= '\U{04FF}'
  }

  /** A character of one of the scripts the extractor files as "oriente". */
  predicate IsOriental(c: char) {
    IsCjk(c) || IsHangul(c) || IsKana(c) || IsCyrillic(c)
  }

  predicate HasOriental(s: string) {
    exists i :: 0 <= i < |s| && IsOriental(s[i])
  }

  /** `EsOriental`: the loop over the characters, leaving at the first one
      in a listed range. */
  method EsOriental(s: string) returns (r: bool)
    ensures r <==> HasOriental(s)
  {
    if s == [] {
      return false;
    }
    for i := 0 to |s|
      invariant forall j :: 0 <= j < i ==> !IsOriental(s[j])
    {
      var c := s[i];
      if IsCjk(c) {
        return true;
      }
      if IsHangul(c) {
        return true;
      }
      if IsKana(c) {
        return true;
      }
      if IsCyrillic(c) {
        return true;
      }
    }
    return false;
  }

  /** ASCII and Latin-1 text is never filed as oriental. */
  lemma LatinIsNotOriental(s: string)
    requires forall i :: 0 <= i < |s| ==> s[i] <= '\U{00FF}'
    ensures !HasOriental(s)
  {
  }

  /** A text is oriental exactly when one of its two halves is. */
  lemma HasOrientalConcat(a: string, b: string)
    ensures HasOriental(a + b) <==> HasOriental(a) || HasOriental(b)
  {
    if HasOriental(a + b) {
      var i :| 0 <= i < |a + b| && IsOriental((a + b)[i]);
      if i >= |a| {
        assert b[i - |a|] == (a + b)[i];
      }
    }
    if HasOriental(a) {
      var i :| 0 <= i < |a| && IsOriental(a[i]);
      assert (a + b)[i] == a[i];
    }
    if HasOriental(b) {
      var i :| 0 <= i < |b| && IsOriental(b[i]);
      assert (a + b)[|a| + i] == b[i];
    }
  }

  // ----- The block -----

  /** The line break inside the block's verbatim string literal, which has
      the source file's CR LF line ends. */
  const BlockBreak: string := "\r\n"

  const DateLabel: string := "Fecha: "
  const RatingLabel: string := "Calificaci\U{00F3}n: "
  const HoursLabel: string := "Horas jugadas: "
  const ContentLabel: string := "Contenido:"

  /** `FormatearBloque`: the four labelled lines, then the content. */
  function FormatearBloque(fechaIso: string, calificacion: string, horas: Decimal, contenido: string): (r: string)
    requires IsCanonical(horas)
    ensures DateLabel + fechaIso + BlockBreak <= r && |contenido| <= |r| && r[|r| - |contenido|..] == contenido
  {
    DateLabel + fechaIso + BlockBreak + RatingLabel + calificacion + BlockBreak
    + HoursLabel + RenderDecimal(horas) + BlockBreak + ContentLabel + BlockBreak + contenido
  }

  /** The separator line written after every block. */
  const Dashes: string := Repeat('-', 80)

  /** What `WriteLine(bloque)` and then `WriteLine(new string('-', 80))`
      append, `newline` being `Environment.NewLine`. */
  function Entry(bloque: string, newline: string): (e: string) {
    bloque + newline + Dashes + newline
  }

  /** The block of a card, or the error reading its date throws. */
  function NodeBlock(n: ReviewNode): (r: Result<string, DateError>)
    ensures r.Err? <==> ParseDate(TrimmedText(n.datePosted)).Err?
  {
    match ParseDate(TrimmedText(n.datePosted))
    case Err(e) => Err(e)
    case Ok(date) =>
      Ok(FormatearBloque(date, TrimmedText(n.title), ParseHours(TrimmedText(n.hours)), Content(n)))
  }

  // ----- Cards as the loop sees them -----

  /** The files of the split mode. */
  datatype Bucket = Occidente | Oriente

  function BucketOf(n: ReviewNode): (b: Bucket) {
    if HasOriental(Content(n)) then Oriente else Occidente
  }

  /** What the loop makes of one card: its block (or the error its date
      throws) and the file it belongs to in the split mode. */
  datatype Card = Card(block: Result<string, DateError>, bucket: Bucket)

  function CardOf(n: ReviewNode): (card: Card) {
    Card(NodeBlock(n), BucketOf(n))
  }

  /** The cards of the query, read one after the other. */
  function Cards(nodes: seq<ReviewNode>): (cs: seq<Card>)
    ensures |cs| == |nodes|
    decreases |nodes|
  {
    if nodes == [] then [] else Cards(nodes[..|nodes| - 1]) + [CardOf(nodes[|nodes| - 1])]
  }

  /** Reading the cards one at a time reads each card on its own. */
  lemma {:induction false} CardsAt(nodes: seq<ReviewNode>, i: nat)
    requires i < |nodes|
    ensures Cards(nodes)[i] == CardOf(nodes[i])
    decreases |nodes|
  {
    if i < |nodes| - 1 {
      var init := nodes[..|nodes| - 1];
      CardsAt(init, i);
      assert init[i] == nodes[i];
    }
  }

  predicate AllReadable(cs: seq<Card>) {
    forall i :: 0 <= i < |cs| ==> cs[i].block.Ok?
  }

  /** The text of all cards' entries, in order (`b == None`), or of the
      entries of one bucket. */
  function EntriesText(cs: seq<Card>, b: Option<Bucket>, newline: string): (t: string)
    requires AllReadable(cs)
    decreases |cs|
  {
    if cs == [] then ""
    else
      var last := cs[|cs| - 1];
      EntriesText(cs[..|cs| - 1], b, newline)
      + (if b.None? || b == Some(last.bucket) then Entry(last.block.value, newline) else "")
  }

  /** The number of cards in a bucket. */
  function BucketCount(cs: seq<Card>, b: Bucket): (n: nat)
    ensures n <= |cs|
    decreases |cs|
  {
    if cs == [] then 0
    else BucketCount(cs[..|cs| - 1], b) + (if cs[|cs| - 1].bucket == b then 1 else 0)
  }

  /** Every card goes to exactly one of the two buckets. */
  lemma {:induction false} BucketsPartition(cs: seq<Card>)
    ensures BucketCount(cs, Occidente) + BucketCount(cs, Oriente) == |cs|
    decreases |cs|
  {
    if cs != [] {
      BucketsPartition(cs[..|cs| - 1]);
    }
  }

  /** The entries of the two buckets hold as many characters as the entries
      of all cards: nothing is lost or written twice. */
  lemma {:induction false} BucketsSplitEntries(cs: seq<Card>, newline: string)
    requires AllReadable(cs)
    ensures |EntriesText(cs, Some(Occidente), newline)| + |EntriesText(cs, Some(Oriente), newline)|
            == |EntriesText(cs, None, newline)|
    decreases |cs|
  {
    if cs != [] {
      var init := cs[..|cs| - 1];
      assert AllReadable(init) by {
        forall i | 0 <= i < |init| ensures init[i].block.Ok? {
          assert init[i] == cs[i];
        }
      }
      BucketsSplitEntries(init, newline);
      var e := Entry(cs[|cs| - 1].block.value, newline);
      assert EntriesText(cs, None, newline) == EntriesText(init, None, newline) + e;
      if cs[|cs| - 1].bucket == Oriente {
        assert EntriesText(cs, Some(Oriente), newline) == EntriesText(init, Some(Oriente), newline) + e;
        assert EntriesText(cs, Some(Occidente), newline) == EntriesText(init, Some(Occidente), newline) + "";
      } else {
        assert EntriesText(cs, Some(Occidente), newline) == EntriesText(init, Some(Occidente), newline) + e;
        assert EntriesText(cs, Some(Oriente), newline) == EntriesText(init, Some(Oriente), newline) + "";
      }
    }
  }

  /** A card goes to the "oriente" file exactly when its content holds a
      character of one of the listed scripts. */
  lemma BucketOfContent(n: ReviewNode)
    ensures CardOf(n).bucket == Oriente <==> HasOriental(Content(n))
    ensures BucketCount([CardOf(n)], Oriente) == (if HasOriental(Content(n)) then 1 else 0)
  {
    assert [CardOf(n)][..0] == [];
  }

  /** The index of the first card whose date throws. */
  function FirstError(cs: seq<Card>): (r: Option<nat>)
    ensures r.None? <==> AllReadable(cs)
    ensures r.Some? ==> r.value < |cs| && cs[r.value].block.Err? && AllReadable(cs[..r.value])
    decreases |cs|
  {
    if cs == [] then None
    else if cs[0].block.Err? then Some(0)
    else
      match FirstError(cs[1..])
      case None => None
      case Some(k) =>
        assert cs[1..][..k] == cs[1..k + 1];
        Some(k + 1)
  }

  /** The first card that throws, once the cards before it are readable. */
  lemma FirstErrorAt(cs: seq<Card>, k: nat)
    requires k < |cs| && AllReadable(cs[..k]) && cs[k].block.Err?
    ensures FirstError(cs) == Some(k)
  {
    assert !AllReadable(cs) by {
      assert !cs[k].block.Ok?;
    }
    var j := FirstError(cs).value;
    assert cs[..j + 1][j] == cs[j] && cs[..k + 1][k] == cs[k];
  }

  // ----- The run -----

  /** A file the run leaves behind, by its name in the output folder. */
  datatype OutFile = OutFile(name: string, text: string)

  /** How `Run` ends. */
  datatype RunOutcome =
    | HtmlMissing                                         // page.html does not exist
    | NoReviews(folder: string)                           // no review card: nothing opened
    | Aborted(folder: string, files: seq<OutFile>, error: DateError)  // a date threw
    | Written(folder: string, files: seq<OutFile>, total: nat, occidental: nat, oriental: nat)

  predicate IsAllMode(mode: string) {
    EqualsIgnoreCase(mode, "all")
  }

  /** The prefix of the split files' final names. */
  function SplitPrefix(mode: string): (r: string)
    ensures r == "negative" || r == "positive"
    ensures r == "negative" <==> ToLower(mode) == "negative"
  {
    if ToLower(mode) == "negative" then "negative" else "positive"
  }

  /** The files as they stand after the entries of `cs`, before any
      renaming: all_reviews.txt, or the two temporary files. */
  function OpenFiles(allMode: bool, cs: seq<Card>, newline: string): (files: seq<OutFile>)
    requires AllReadable(cs)
  {
    var (a, o, r) := FileTexts(allMode, cs, newline);
    if allMode then [OutFile("all_reviews.txt", a)]
    else [OutFile("temp_occidente.txt", o), OutFile("temp_oriente.txt", r)]
  }

  /** The name a split file is renamed to once its count is known. */
  function SplitFileName(prefix: string, bucket: Bucket, count: nat): (name: string) {
    prefix + (if bucket == Occidente then "_reviews_occidente_" else "_reviews_oriente_")
    + NatToString(count) + ".txt"
  }

  /** The files once the run has finished: the split files renamed with
      their counts. */
  function FinalFiles(mode: string, cs: seq<Card>, newline: string): (files: seq<OutFile>)
    requires AllReadable(cs)
    ensures |files| == if IsAllMode(mode) then 1 else 2
  {
    if IsAllMode(mode) then OpenFiles(true, cs, newline)
    else
      var prefix := SplitPrefix(mode);
      [OutFile(SplitFileName(prefix, Occidente, BucketCount(cs, Occidente)), EntriesText(cs, Some(Occidente), newline)),
       OutFile(SplitFileName(prefix, Oriente, BucketCount(cs, Oriente)), EntriesText(cs, Some(Oriente), newline))]
  }

  /** One more readable card extends every text by its entry where it belongs. */
  lemma EntriesSnoc(cs: seq<Card>, c: Card, b: Option<Bucket>, newline: string)
    requires AllReadable(cs) && c.block.Ok?
    ensures AllReadable(cs + [c])
    ensures EntriesText(cs + [c], b, newline) == EntriesText(cs, b, newline)
              + (if b.None? || b == Some(c.bucket) then Entry(c.block.value, newline) else "")
  {
    var p := cs + [c];
    assert p[..|p| - 1] == cs;
    assert forall i :: 0 <= i < |cs| ==> p[i] == cs[i];
  }

  /** Two `WriteLine` calls append one entry. */
  lemma WriteEntry(file: string, bloque: string, newline: string)
    ensures file + bloque + newline + Dashes + newline == file + Entry(bloque, newline)
  {
    AppendFour(file, bloque, newline, Dashes);
  }

  lemma AppendFour(f: string, b: string, n: string, d: string)
    ensures f + b + n + d + n == f + (b + n + d + n)
  {
  }

  lemma CountSnoc(cs: seq<Card>, c: Card, b: Bucket)
    ensures BucketCount(cs + [c], b) == BucketCount(cs, b) + (if c.bucket == b then 1 else 0)
  {
    assert (cs + [c])[..|cs|] == cs;
  }

  /** The body of the loop up to the writes, for card `k`: the
      recommendation, the hours and the date, then the content and the
      block; the date is read before the content, and when it throws nothing
      else is read. What it gives is what `cs` records for that card. */
  method ReadReview(nodes: seq<ReviewNode>, k: nat, ghost cs: seq<Card>) returns (block: Result<string, DateError>, content: string)
    requires k < |nodes| && ReadsAs(nodes, cs)
    ensures block == cs[k].block
    ensures block.Ok? ==> (HasOriental(content) <==> cs[k].bucket == Oriente)
  {
    var review := nodes[k];
    var recommendation := TrimmedText(review.title);
    var hoursRaw := TrimmedText(review.hours);
    var hoursNumber := ParseHours(hoursRaw);
    var dateRaw := TrimmedText(review.datePosted);
    var dateIso := ParseDate(dateRaw);
    assert cs[k] == CardOf(review);
    if dateIso.Err? {
      return Err(dateIso.error), "";
    }
    content := Content(review);
    block := Ok(FormatearBloque(dateIso.value, recommendation, hoursNumber, content));
  }

  /** The texts of all_reviews.txt, temp_occidente.txt and temp_oriente.txt
      once the entries of `cs` are written; only the files of the mode are
      written to. */
  function FileTexts(allMode: bool, cs: seq<Card>, newline: string): (texts: (string, string, string))
    requires AllReadable(cs)
  {
    if allMode then (EntriesText(cs, None, newline), "", "")
    else ("", EntriesText(cs, Some(Occidente), newline), EntriesText(cs, Some(Oriente), newline))
  }

  /** `totalCount`, `occidentalCount` and `orientalCount` once `cs` is written. */
  function Counters(allMode: bool, cs: seq<Card>): (counts: (nat, nat, nat)) {
    if allMode then (|cs|, 0, 0) else (0, BucketCount(cs, Occidente), BucketCount(cs, Oriente))
  }

  /** The cards the loop gets through: all of them, or those before the
      first one whose date throws. */
  function Processed(cs: seq<Card>): (r: seq<Card>)
    ensures AllReadable(r) && |r| <= |cs|
  {
    if FirstError(cs).Some? then cs[..FirstError(cs).value] else cs
  }

  /** Writing one more card appends its entry to the file of the mode or of
      its bucket and raises that file's counter; the other files and
      counters are left as they are. */
  lemma StateSnoc(allMode: bool, cs: seq<Card>, c: Card, newline: string)
    requires AllReadable(cs) && c.block.Ok?
    ensures AllReadable(cs + [c])
    ensures var (a, o, r) := FileTexts(allMode, cs, newline);
            var e := Entry(c.block.value, newline);
            FileTexts(allMode, cs + [c], newline)
              == if allMode then (a + e, o, r) else if c.bucket == Oriente then (a, o, r + e) else (a, o + e, r)
    ensures var (t, o, r) := Counters(allMode, cs);
            Counters(allMode, cs + [c])
              == if allMode then (t + 1, o, r) else if c.bucket == Oriente then (t, o, r + 1) else (t, o + 1, r)
  {
    EntriesSnoc(cs, c, None, newline);
    EntriesSnoc(cs, c, Some(Occidente), newline);
    EntriesSnoc(cs, c, Some(Oriente), newline);
    CountSnoc(cs, c, Occidente);
    CountSnoc(cs, c, Oriente);
    if !allMode {
      if c.bucket == Oriente {
        var o := EntriesText(cs, Some(Occidente), newline);
        assert EntriesText(cs + [c], Some(Occidente), newline) == o + "" == o;
      } else {
        var r := EntriesText(cs, Some(Oriente), newline);
        assert EntriesText(cs + [c], Some(Oriente), newline) == r + "" == r;
      }
    }
  }

  /** The loop of `Run` over the cards: each card's entry is appended to
      all_reviews.txt (mode "all") or to the file of its bucket, and its
      counter raised, until the end or the first card whose date throws. */
  method WriteCards(allMode: bool, nodes: seq<ReviewNode>, newline: string, ghost cs: seq<Card>)
    returns (stop: Option<DateError>, allFile: string, occidenteFile: string, orienteFile: string,
             totalCount: nat, occidentalCount: nat, orientalCount: nat)
    requires ReadsAs(nodes, cs)
    ensures stop == (if FirstError(cs).Some? then Some(cs[FirstError(cs).value].block.error) else None)
    ensures (allFile, occidenteFile, orienteFile) == FileTexts(allMode, Processed(cs), newline)
    ensures (totalCount, occidentalCount, orientalCount) == Counters(allMode, Processed(cs))
  {
    allFile, occidenteFile, orienteFile := "", "", "";
    occidentalCount, orientalCount, totalCount := 0, 0, 0;
    for k := 0 to |nodes|
      invariant AllReadable(cs[..k])
      invariant FirstError(cs).Some? ==> k <= FirstError(cs).value
      invariant (allFile, occidenteFile, orienteFile) == FileTexts(allMode, cs[..k], newline)
      invariant totalCount == Counters(allMode, cs[..k]).0
      invariant occidentalCount == Counters(allMode, cs[..k]).1
      invariant orientalCount == Counters(allMode, cs[..k]).2
    {
      var block, content := ReadReview(nodes, k, cs);
      if block.Err? {
        FirstErrorAt(cs, k);
        return Some(block.error), allFile, occidenteFile, orienteFile, totalCount, occidentalCount, orientalCount;
      }
      NoErrorYet(cs, k);
      var bloque := block.value;
      StateSnoc(allMode, cs[..k], cs[k], newline);
      SliceSnoc(cs, k);
      if allMode {
        WriteEntry(allFile, bloque, newline);
        allFile := allFile + bloque + newline;
        allFile := allFile + Dashes + newline;
        totalCount := totalCount + 1;
      } else {
        var esOriental := EsOriental(content);
        assert cs[k].bucket == (if esOriental then Oriente else Occidente);
        if esOriental {
          WriteEntry(orienteFile, bloque, newline);
          orienteFile := orienteFile + bloque + newline;
          orienteFile := orienteFile + Dashes + newline;
          orientalCount := orientalCount + 1;
        } else {
          WriteEntry(occidenteFile, bloque, newline);
          occidenteFile := occidenteFile + bloque + newline;
          occidenteFile := occidenteFile + Dashes + newline;
          occidentalCount := occidentalCount + 1;
        }
      }
    }
    assert cs[..|nodes|] == cs;
    stop := None;
  }

  lemma SliceSnoc<T>(xs: seq<T>, k: nat)
    requires k < |xs|
    ensures xs[..k + 1] == xs[..k] + [xs[k]]
  {
  }

  /** `cs` holds, in order, what the loop makes of each card. */
  predicate ReadsAs(nodes: seq<ReviewNode>, cs: seq<Card>) {
    |cs| == |nodes| && forall i {:trigger CardOf(nodes[i])} :: 0 <= i < |nodes| ==> cs[i] == CardOf(nodes[i])
  }

  lemma CardsReadAs(nodes: seq<ReviewNode>)
    ensures ReadsAs(nodes, Cards(nodes))
  {
    forall i | 0 <= i < |nodes|
      ensures Cards(nodes)[i] == CardOf(nodes[i])
    {
      CardsAt(nodes, i);
    }
  }

  /** A readable card at `k`, before the first error, keeps the first error later. */
  lemma NoErrorYet(cs: seq<Card>, k: nat)
    requires k < |cs| && cs[k].block.Ok?
    requires FirstError(cs).Some? ==> k <= FirstError(cs).value
    ensures FirstError(cs).Some? ==> k + 1 <= FirstError(cs).value
  {
  }

  /** `Run`: the `page.html` check, the card query, then the loop over the
      cards writing each entry to its file, and the renaming of the split
      files with their counts. Whether the page exists and the cards the
      query finds are parameters. */
  method Run(appId: int, appName: string, mode: string, htmlExists: bool, nodes: seq<ReviewNode>,
             newline: string) returns (outcome: RunOutcome)
    ensures !htmlExists ==> outcome == HtmlMissing
    ensures htmlExists && nodes == [] ==> outcome == NoReviews(OutFolder(appId, appName))
    ensures htmlExists && nodes != [] && FirstError(Cards(nodes)).Some? ==>
              var k := FirstError(Cards(nodes)).value;
              outcome == Aborted(OutFolder(appId, appName), OpenFiles(IsAllMode(mode), Cards(nodes)[..k], newline),
                                 Cards(nodes)[k].block.error)
    ensures htmlExists && nodes != [] && FirstError(Cards(nodes)).None? ==>
              outcome == Written(OutFolder(appId, appName), FinalFiles(mode, Cards(nodes), newline),
                                 if IsAllMode(mode) then |nodes| else 0,
                                 if IsAllMode(mode) then 0 else BucketCount(Cards(nodes), Occidente),
                                 if IsAllMode(mode) then 0 else BucketCount(Cards(nodes), Oriente))
  {
    var outFolder := OutFolder(appId, appName);
    if !htmlExists {
      return HtmlMissing;
    }
    if |nodes| == 0 {
      return NoReviews(outFolder);
    }
    var allMode := EqualsIgnoreCase(mode, "all");
    CardsReadAs(nodes);
    var stop, allFile, occidenteFile, orienteFile, totalCount, occidentalCount, orientalCount :=
      WriteCards(allMode, nodes, newline, Cards(nodes));
    if stop.Some? {
      return Aborted(outFolder, if allMode then [OutFile("all_reviews.txt", allFile)]
                                else [OutFile("temp_occidente.txt", occidenteFile), OutFile("temp_oriente.txt", orienteFile)],
                     stop.value);
    }
    if allMode {
      return Written(outFolder, [OutFile("all_reviews.txt", allFile)], totalCount, 0, 0);
    }
    var prefix := if ToLower(mode) == "negative" then "negative" else "positive";
    var occidentalPathFinal := prefix + "_reviews_occidente_" + NatToString(occidentalCount) + ".txt";
    var orientalPathFinal := prefix + "_reviews_oriente_" + NatToString(orientalCount) + ".txt";
    assert occidentalPathFinal == SplitFileName(prefix, Occidente, occidentalCount);
    assert orientalPathFinal == SplitFileName(prefix, Oriente, orientalCount);
    return Written(outFolder, [OutFile(occidentalPathFinal, occidenteFile), OutFile(orientalPathFinal, orienteFile)],
                   0, occidentalCount, orientalCount);
  }
}
