/** The converter: it reads the text file the scraper wrote, splits it into
    review blocks at the dashed separator lines, pulls the date, the
    recommendation, the hours and the content out of each block, and writes
    one ';'-separated CSV row per block under a fixed header. */
module TxtToCsv {
  import opened Wrappers
  import opened Text
  import opened Numbers
  import opened Html
  import opened DateNormalizer
  import opened LanguageDetector
  import opened CsvFormat

  // ----- Splitting the text into blocks -----

  /** The length of a match of `\r?\n` at the start of `t`, or 0. */
  function LineBreak(t: string): (n: nat)
    ensures n <= 2 && n <= |t|
    ensures n > 0 ==> t[n - 1] == '\n' && (n == 1 || t[0] == '\r')
  {
    if t != [] && t[0] == '\n' then 1
    else if |t| >= 2 && t[0] == '\r' && t[1] == '\n' then 2
    else 0
  }

  /** The length of a match of `\r?\n-{3,}\r?\n` at the start of `t`, or 0.
      The dash run is always taken whole: giving dashes back cannot help,
      since a line break has to follow. */
  function SeparatorLength(t: string): (n: nat)
    ensures n <= |t|
    ensures n > 0 ==> n >= 5
  {
    var a := LineBreak(t);
    if a == 0 then 0
    else
      var d := RunLength(t[a..], '-');
      if d < 3 then 0
      else
        var b := LineBreak(t[a + d..]);
        if b == 0 then 0 else a + d + b
  }

  /** `Regex.Split` for a pattern whose match at the start of `t` is
      `matchLength(t)` characters long (0: no match), scanning from position `i`
      with the current piece starting at `start`. */
  function SplitFrom(matchLength: string -> nat, s: string, start: nat, i: nat): (pieces: seq<string>)
    requires forall t :: matchLength(t) <= |t|
    requires start <= i <= |s|
    ensures |pieces| >= 1
    decreases |s| - i
  {
    if i == |s| then [s[start..]]
    else
      var n := matchLength(s[i..]);
      if n > 0 then [s[start..i]] + SplitFrom(matchLength, s, i + n, i + n)
      else SplitFrom(matchLength, s, start, i + 1)
  }

  /** `Regex.Split(text, @"\r?\n-{3,}\r?\n")`. */
  function SplitOnSeparators(s: string): (pieces: seq<string>)
    ensures |pieces| >= 1
  {
    SplitFrom(SeparatorLength, s, 0, 0)
  }

  /** Each piece trimmed, and the pieces left blank dropped. */
  function TrimmedNonBlank(pieces: seq<string>): (blocks: seq<string>)
    ensures |blocks| <= |pieces|
    ensures forall k :: 0 <= k < |blocks| ==> blocks[k] != [] && IsTrimmed(blocks[k])
    decreases |pieces|
  {
    if pieces == [] then []
    else
      var b := Trim(pieces[0]);
      (if IsBlank(b) then [] else [b]) + TrimmedNonBlank(pieces[1..])
  }

  /** The review blocks of a file's text. */
  function Blocks(text: string): (blocks: seq<string>)
    ensures forall k :: 0 <= k < |blocks| ==> blocks[k] != [] && IsTrimmed(blocks[k])
  {
    TrimmedNonBlank(SplitOnSeparators(text))
  }

  // ----- Fields of a block -----

  const DatePrefix: string := "Fecha:"
  const RatingPrefix: string := "Calificaci\U{00F3}n:"
  const HoursPrefix: string := "Horas jugadas:"
  const ContentMarker: string := "Contenido:"

  /** The text after `prefix` on the first line that, trimmed, starts with
      it (ignoring case), trimmed; empty when no line does. */
  function ValueAfterPrefix(lines: seq<string>, prefix: string): (r: string)
    ensures IsTrimmed(r)
    decreases |lines|
  {
    if lines == [] then ""
    else
      var t := Trim(lines[0]);
      if StartsWithIgnoreCase(t, prefix) then Trim(t[|prefix|..])
      else ValueAfterPrefix(lines[1..], prefix)
  }

  /** The value is taken from the first line that carries the prefix. */
  lemma {:induction false} ValueAfterPrefixFirst(lines: seq<string>, prefix: string, k: nat)
    requires k < |lines| && StartsWithIgnoreCase(Trim(lines[k]), prefix)
    requires forall j :: 0 <= j < k ==> !StartsWithIgnoreCase(Trim(lines[j]), prefix)
    ensures ValueAfterPrefix(lines, prefix) == Trim(Trim(lines[k])[|prefix|..])
    decreases k
  {
    if k > 0 {
      ValueAfterPrefixFirst(lines[1..], prefix, k - 1);
    }
  }

  /** Without a line carrying the prefix the value is empty. */
  lemma {:induction false} ValueAfterPrefixNone(lines: seq<string>, prefix: string)
    requires forall j :: 0 <= j < |lines| ==> !StartsWithIgnoreCase(Trim(lines[j]), prefix)
    ensures ValueAfterPrefix(lines, prefix) == ""
    decreases |lines|
  {
    if lines != [] {
      ValueAfterPrefixNone(lines[1..], prefix);
    }
  }

  /** `GetLineAfterPrefix`: the loop over the block's lines, leaving at the first match. */
  method GetLineAfterPrefix(block: string, prefix: string) returns (r: string)
    ensures r == ValueAfterPrefix(SplitLines(block), prefix)
  {
    var lines := SplitLines(block);
    for i := 0 to |lines|
      invariant ValueAfterPrefix(lines[i..], prefix) == ValueAfterPrefix(lines, prefix)
    {
      assert lines[i..][1..] == lines[i + 1..];
      var trimmed := Trim(lines[i]);
      if StartsWithIgnoreCase(trimmed, prefix) {
        return Trim(trimmed[|prefix|..]);
      }
    }
    return "";
  }

  /** `Array.FindIndex(xs, p)` from position `from` on: the first position
      whose element satisfies `p`, or -1 when there is none. */
  function FindIndex<T>(xs: seq<T>, p: T -> bool, from: nat): (r: int)
    requires from <= |xs|
    ensures r == -1 || from <= r < |xs|
    ensures r >= 0 ==> p(xs[r]) && forall j :: from <= j < r ==> !p(xs[j])
    ensures r == -1 <==> forall j :: from <= j < |xs| ==> !p(xs[j])
    decreases |xs| - from
  {
    if from == |xs| then -1
    else if p(xs[from]) then from
    else FindIndex(xs, p, from + 1)
  }

  /** The content marker line, surrounding whitespace and case ignored. */
  predicate IsMarker(line: string) {
    ToLower(Trim(line)) == LowerMarker
  }

  /** The marker in lower case. */
  const LowerMarker: string := "contenido:"

  /** `IsMarker` is the case-insensitive comparison with the marker. */
  lemma MarkerIgnoresCase(line: string)
    ensures IsMarker(line) <==> EqualsIgnoreCase(Trim(line), ContentMarker)
  {
    var m := ContentMarker;
    assert ToLower(m) == LowerMarker;
  }

  /** What `StringBuilder.AppendLine` builds from the lines: each followed by
      `newline`, which is `Environment.NewLine`. */
  function AppendLines(lines: seq<string>, newline: string): (r: string)
    decreases |lines|
  {
    if lines == [] then "" else AppendLines(lines[..|lines| - 1], newline) + lines[|lines| - 1] + newline
  }

  /** One line appended to an empty builder. */
  lemma AppendLine(line: string, newline: string)
    ensures AppendLines([line], newline) == line + newline
  {
  }

  /** The number of '\n' characters `s` ends with. */
  function TrailingLineFeeds(s: string): (n: nat)
    ensures n <= |s|
    ensures forall i :: |s| - n <= i < |s| ==> s[i] == '\n'
    ensures n == |s| || s[|s| - n - 1] != '\n'
    decreases |s|
  {
    if s != [] && s[|s| - 1] == '\n' then 1 + TrailingLineFeeds(s[..|s| - 1]) else 0
  }

  /** `Regex.Replace(s, @"\r?\n+$", "")`: the final run of line feeds, with
      one carriage return before it, is removed. */
  function StripFinalNewlines(s: string): (r: string)
    ensures |r| <= |s| && r == s[..|r|]
    ensures forall i :: |r| <= i < |s| ==> IsWhite(s[i])
  {
    var n := TrailingLineFeeds(s);
    if n == 0 then s
    else
      var p := s[..|s| - n];
      if p != [] && p[|p| - 1] == '\r' then p[..|p| - 1] else p
  }

  /** The content: the lines after the content marker, each followed by
      `newline`, the final line breaks removed and the whole trimmed. */
  function Contenido(block: string, newline: string): (r: string)
    ensures IsTrimmed(r)
  {
    var lines := SplitLines(block);
    var k := FindIndex(lines, IsMarker, 0);
    if k < 0 then ""
    else Trim(StripFinalNewlines(AppendLines(lines[k + 1..], newline)))
  }

  /** Removing the final line breaks before trimming changes nothing, since
      trimming removes them too. */
  lemma TrimAfterStrip(s: string)
    ensures Trim(StripFinalNewlines(s)) == Trim(s)
  {
    var p := StripFinalNewlines(s);
    var w := s[|p|..];
    assert s == p + w;
    TrimAppendWhite(p, w);
  }

  /** `Contenido` in terms of the marker index already found. */
  lemma ContenidoFromIndex(block: string, newline: string, lines: seq<string>, idx: int, r: string)
    requires lines == SplitLines(block) && idx == FindIndex(lines, IsMarker, 0)
    requires idx < 0 ==> r == ""
    requires idx >= 0 ==> r == Trim(StripFinalNewlines(AppendLines(lines[idx + 1..], newline)))
    ensures r == Contenido(block, newline)
  {
  }

  /** `ExtractContenido`: the search for the marker line, then the loop
      appending the following lines. */
  method ExtractContenido(block: string, newline: string) returns (r: string)
    ensures r == Contenido(block, newline)
  {
    var lines := SplitLines(block);
    var idx := FindIndex(lines, IsMarker, 0);
    if idx < 0 {
      r := "";
    } else {
      var sb := AppendFrom(lines, idx + 1, newline);
      r := Trim(StripFinalNewlines(sb));
    }
    ContenidoFromIndex(block, newline, lines, idx, r);
  }

  /** The loop `for (i = start; i < lines.Length; i++) sb.AppendLine(lines[i])`. */
  method AppendFrom(lines: seq<string>, start: nat, newline: string) returns (sb: string)
    requires start <= |lines|
    ensures sb == AppendLines(lines[start..], newline)
  {
    sb := "";
    for j := start to |lines|
      invariant sb == AppendLines(lines[start..j], newline)
    {
      assert lines[start..j + 1][..j - start] == lines[start..j];
      sb := sb + lines[j] + newline;
    }
    assert lines[start..|lines|] == lines[start..];
  }

  // ----- Hours -----

  /** The first match of `\d+([.,]\d+)?`: the first run of digits, with a
      point or comma and a second run of digits when they follow. */
  function HoursLexeme(s: string): (r: Option<string>)
    ensures r.Some? ==> r.value != [] && IsAsciiDigit(r.value[0])
    ensures r.Some? ==> forall i :: 0 <= i < |r.value| ==> IsDigitCommaOrDot(r.value[i])
    ensures r.None? <==> forall i :: 0 <= i < |s| ==> !IsAsciiDigit(s[i])
    decreases |s|
  {
    if s == [] then None
    else if !IsAsciiDigit(s[0]) then HoursLexeme(s[1..])
    else
      var n := LeadingDigits(s);
      var t := s[n..];
      if |t| >= 2 && (t[0] == '.' || t[0] == ',') && IsAsciiDigit(t[1]) then
        var m := LeadingDigits(t[1..]);
        Some(s[..n + 1 + m])
      else Some(s[..n])
  }

  /** The converter's `ParseHours`: 0 for blank text or text without
      digits, otherwise the first number, a comma read as the decimal point. */
  function ParseHours(text: string): (h: Decimal)
    ensures IsCanonical(h)
    ensures IsBlank(text) ==> h == Zero
  {
    if IsBlank(text) then Zero
    else
      match HoursLexeme(text)
      case None => Zero
      case Some(x) =>
        var y := ReplaceChar(x, ',', '.');
        match ParseDecimal(y)
        case Some(h) => h
        case None => Zero
  }

  // ----- Content markup -----

  /** `StripHtml`: line-break tags become line feeds, other tags are
      removed, runs of line breaks become one space, the text is trimmed and
      character references are decoded. Empty text is returned as it is. */
  function StripHtml(s: string): (r: string)
    ensures Excludes(r, '\n')
    ensures |r| <= |s|
  {
    if s == [] then s
    else
      var t := Trim(CollapseNewlines(StripTags(ReplaceBr(s))));
      CleanedMarkup(s);
      DecodeEntities(t)
  }

  /** Before decoding, the cleaned text has no line feed and is no longer
      than the markup. */
  lemma CleanedMarkup(s: string)
    ensures var t := Trim(CollapseNewlines(StripTags(ReplaceBr(s))));
            Excludes(t, '\n') && |t| <= |s|
  {
    var b := ReplaceBr(s);
    ReplaceBrLength(s);
    var c := CollapseNewlines(StripTags(b));
    CollapseNewlinesFacts(StripTags(b));
    TrimExcludes(c, '\n');
  }

  /** Replacing a line-break tag by one line feed never lengthens the text. */
  lemma {:induction false} ReplaceBrLength(s: string)
    ensures |ReplaceBr(s)| <= |s|
    decreases |s|
  {
    if s != [] {
      var n := BrTagLength(s);
      if n > 0 {
        ReplaceBrLength(s[n..]);
      } else {
        ReplaceBrLength(s[1..]);
      }
    }
  }

  /** Plain text, trimmed and without markup characters or line breaks, is
      returned unchanged. */
  lemma StripHtmlPlain(s: string)
    requires IsTrimmed(s) && IsSingleLine(s) && Excludes(s, '<') && Excludes(s, '&')
    ensures StripHtml(s) == s
  {
    if s != [] {
      CollapseNewlinesFacts(s);
      TrimOfTrimmed(s);
    }
  }

  /** Trimmed one-line text without tags is only decoded. */
  lemma StripHtmlDecodes(s: string)
    requires IsTrimmed(s) && Excludes(s, '\n') && Excludes(s, '<')
    ensures StripHtml(s) == DecodeEntities(s)
  {
    if s != [] {
      CollapseNewlinesFacts(s);
      TrimOfTrimmed(s);
    }
  }

  // ----- A blank line in the content -----

  /** The lines of a block whose content has a blank line. */
  lemma BlankLineLines(a: string, b: string, block: string)
    requires IsSingleLine(a) && IsSingleLine(b)
    requires block == ContentMarker + "\n" + a + "\n" + "\n" + b
    ensures SplitLines(block) == [ContentMarker, a, "", b]
  {
    var m := ContentMarker;
    assert IsSingleLine(m);
    SplitLinesOne(b);
    SplitLinesCons("", b);
    SplitLinesCons(a, "\n" + b);
    assert block == m + "\n" + (a + "\n" + ("\n" + b));
    SplitLinesCons(m, a + "\n" + ("\n" + b));
  }

  /** The lines after the marker, each followed by `newline`. */
  lemma BlankLineAppend(a: string, b: string, newline: string, ls: seq<string>)
    requires ls == [a, "", b]
    ensures AppendLines(ls, newline) == a + newline + newline + b + newline
  {
    assert ls[..2] == [a, ""];
    assert ls[..2][..1] == [a];
    AppendLine(a, newline);
  }

  /** A marker on the first line is found there. */
  lemma MarkerFirst(lines: seq<string>)
    requires lines != [] && IsMarker(lines[0])
    ensures FindIndex(lines, IsMarker, 0) == 0
  {
    var p := IsMarker;
    assert p(lines[0]);
  }

  /** Trimmed text followed by a line break is read back as itself. */
  lemma TrimmedLine(x: string, newline: string)
    requires IsTrimmed(x) && IsBlank(newline)
    ensures Trim(StripFinalNewlines(x + newline)) == x
  {
    TrimAfterStrip(x + newline);
    TrimAppendWhite(x, newline);
    TrimOfTrimmed(x);
  }

  /** Two non-empty trimmed texts with anything between them make trimmed text. */
  lemma TrimmedJoin(a: string, mid: string, b: string)
    requires a != [] && b != [] && IsTrimmed(a) && IsTrimmed(b)
    ensures IsTrimmed(a + mid + b)
  {
    var x := a + mid + b;
    assert x[0] == a[0] && x[|x| - 1] == b[|b| - 1];
  }

  /** The lines after a first-line marker, appended and trimmed, when the
      second of them is blank. */
  lemma {:induction false} BlankAfterMarker(lines: seq<string>, a: string, b: string, newline: string, x: string)
    requires IsBlank(newline) && |lines| == 4 && lines[1] == a && lines[2] == "" && lines[3] == b
    requires a != [] && b != [] && IsTrimmed(a) && IsTrimmed(b) && x == a + newline + newline + b
    ensures Trim(StripFinalNewlines(AppendLines(lines[0 + 1..], newline))) == x
  {
    assert lines[0 + 1..] == [a, "", b];
    BlankLineAppend(a, b, newline, lines[0 + 1..]);
    TrimmedJoin(a, newline + newline, b);
    assert x == a + (newline + newline) + b;
    TrimmedLine(x, newline);
  }

  /** The content of such a block keeps both line breaks, as `newline`. */
  lemma {:induction false} BlankLineContenido(m: string, a: string, b: string, newline: string, block: string, x: string)
    requires IsBlank(newline) && IsMarker(m)
    requires a != [] && b != [] && IsTrimmed(a) && IsTrimmed(b) && x == a + newline + newline + b
    requires SplitLines(block) == [m, a, "", b]
    ensures Contenido(block, newline) == x
  {
    var lines := SplitLines(block);
    assert FindIndex(lines, IsMarker, 0) == 0 by {
      MarkerFirst(lines);
    }
    assert Trim(StripFinalNewlines(AppendLines(lines[0 + 1..], newline))) == x by {
      BlankAfterMarker(lines, a, b, newline, x);
    }
    ContenidoFromIndex(block, newline, lines, 0, x);
  }

  /** With LF line ends the two line feeds are one run: one space. */
  lemma BlankLineCollapseLf(a: string, b: string, run: string)
    requires IsSingleLine(a) && IsSingleLine(b) && run == "\n\n"
    ensures CollapseNewlines(a + run + b) == a + " " + b
  {
    CollapseNewlinesFacts(a);
    CollapseNewlinesFacts(b);
    assert IsBreakRun(run);
    assert a + run + b == a + (run + b);
    CollapseOneRun(a, run, b);
  }

  /** With CR LF line ends each `\r\n` is a match of its own: two spaces. */
  lemma BlankLineCollapseCrLf(a: string, b: string, crlf: string)
    requires IsSingleLine(a) && IsSingleLine(b) && crlf == "\r\n"
    ensures CollapseNewlines(a + crlf + crlf + b) == a + "  " + b
  {
    var rest := crlf + b;
    var c := CollapseNewlines(rest);
    assert c == " " + b by {
      assert IsBreakRun(crlf);
      CollapseRunFirst(crlf, b);
      CollapseNewlinesFacts(b);
    }
    assert CollapseNewlines(a + (crlf + rest)) == a + " " + c by {
      assert IsBreakRun(crlf) && rest[0] == '\r';
      CollapseOneRun(a, crlf, rest);
      CollapseNewlinesFacts(a);
    }
    assert a + " " + c == a + "  " + b;
    assert a + crlf + crlf + b == a + (crlf + rest);
  }

  /** Text without tags whose collapse is trimmed and free of references
      is only collapsed. */
  lemma StripHtmlCollapses(x: string, t: string)
    requires x != [] && Excludes(x, '<') && CollapseNewlines(x) == t && IsTrimmed(t) && Excludes(t, '&')
    ensures StripHtml(x) == t
  {
    TrimOfTrimmed(t);
  }

  /** The cleaning of the content with the blank line. */
  lemma BlankLineStrip(a: string, b: string, newline: string)
    requires IsNewline(newline)
    requires a != [] && b != [] && IsSingleLine(a) && IsSingleLine(b) && IsTrimmed(a) && IsTrimmed(b)
    requires Excludes(a, '<') && Excludes(b, '<') && Excludes(a, '&') && Excludes(b, '&')
    ensures StripHtml(a + newline + newline + b) == a + (if newline == "\r\n" then "  " else " ") + b
  {
    var x := a + newline + newline + b;
    var t := a + (if newline == "\r\n" then "  " else " ") + b;
    assert CollapseNewlines(x) == t by {
      if newline == "\n" {
        assert x == a + "\n\n" + b;
        BlankLineCollapseLf(a, b, "\n\n");
      } else {
        BlankLineCollapseCrLf(a, b, newline);
      }
    }
    assert Excludes(x, '<') by {
      assert forall i :: 0 <= i < |newline| ==> newline[i] != '<';
    }
    assert IsTrimmed(t) && Excludes(t, '&');
    StripHtmlCollapses(x, t);
  }

  /** A content whose two lines are separated by a blank line is cleaned to
      the two lines joined by one space when `Environment.NewLine` is LF, and
      by two spaces when it is CR LF: `\r?\n+` matches each `\r\n` on its own. */
  lemma BlankLineInContent(a: string, b: string, newline: string)
    requires IsNewline(newline)
    requires a != [] && b != [] && IsSingleLine(a) && IsSingleLine(b) && IsTrimmed(a) && IsTrimmed(b)
    requires Excludes(a, '<') && Excludes(b, '<') && Excludes(a, '&') && Excludes(b, '&')
    ensures StripHtml(Contenido(ContentMarker + "\n" + a + "\n" + "\n" + b, newline))
            == a + (if newline == "\r\n" then "  " else " ") + b
  {
    var block := ContentMarker + "\n" + a + "\n" + "\n" + b;
    BlankLineLines(a, b, block);
    assert IsMarker(ContentMarker) by {
      TrimOfTrimmed(ContentMarker);
      MarkerIgnoresCase(ContentMarker);
    }
    NewlineIsBlank(newline);
    BlankLineContenido(ContentMarker, a, b, newline, block, a + newline + newline + b);
    BlankLineStrip(a, b, newline);
  }

  // ----- Rows -----

  const Header: string := "Fecha;Calificacion;Horas;Idioma;Contenido"

  /** The date field: the value after "Fecha:" with "Posted:" removed
      (ignoring case), trimmed and normalised. */
  function DateField(block: string, currentYear: int, free: FreeParse): (date: string) {
    var fecha := Trim(ReplaceAll(ValueAfterPrefix(SplitLines(block), DatePrefix), "Posted:", "", true));
    NormalizeDate(fecha, currentYear, free)
  }

  /** The five values of a block's row, before escaping. */
  function RowValues(block: string, currentYear: int, free: FreeParse, newline: string): (vs: seq<string>)
    ensures |vs| == 5
    ensures Csv(Some(vs[2])) == vs[2]
  {
    var lines := SplitLines(block);
    var content := StripHtml(Contenido(block, newline));
    var hours := HoursField(lines);
    HoursNeedNoQuotes(lines);
    FiveValues(DateField(block, currentYear, free), ValueAfterPrefix(lines, RatingPrefix), hours,
               DetectLanguage(content), content)
  }

  function FiveValues(date: string, rating: string, hours: string, language: string, content: string)
    : (vs: seq<string>)
    requires Csv(Some(hours)) == hours
    ensures |vs| == 5 && vs[2] == hours && Csv(Some(vs[2])) == vs[2]
  {
    [date, rating, hours, language, content]
  }

  /** The hours value: the number after the hours prefix, rendered. */
  function HoursField(lines: seq<string>): (hours: string) {
    RenderDecimal(ParseHours(ValueAfterPrefix(lines, HoursPrefix)))
  }

  /** The row written for a block: the hours unescaped, every other value through `Csv`. */
  function Row(block: string, currentYear: int, free: FreeParse, newline: string): (row: string) {
    var vs := RowValues(block, currentYear, free, newline);
    Join([Csv(Some(vs[0])), Csv(Some(vs[1])), vs[2], Csv(Some(vs[3])), Csv(Some(vs[4]))], ";")
  }

  /** A rendered number holds no character that forces quoting. */
  lemma RenderedNeedsNoQuotes(d: Decimal)
    requires IsCanonical(d)
    ensures Csv(Some(RenderDecimal(d))) == RenderDecimal(d)
  {
    var r := RenderDecimal(d);
    assert forall i :: 0 <= i < |r| ==> IsDigitOrDot(r[i]);
  }

  /** The escaped five values joined with ';' are the written row of the
      values when the third needs no escaping. */
  lemma FiveFieldRow(vs: seq<string>)
    requires |vs| == 5 && Csv(Some(vs[2])) == vs[2]
    ensures Join([Csv(Some(vs[0])), Csv(Some(vs[1])), vs[2], Csv(Some(vs[3])), Csv(Some(vs[4]))], ";") == WriteRow(vs)
  {
    assert EscapeAll(vs) == [Csv(Some(vs[0])), Csv(Some(vs[1])), vs[2], Csv(Some(vs[3])), Csv(Some(vs[4]))];
  }

  /** Every row reads back, with ';' as the separator, as its five values. */
  lemma RowReadsBack(block: string, currentYear: int, free: FreeParse, newline: string)
    ensures ReadRow(Row(block, currentYear, free, newline)) == Some(RowValues(block, currentYear, free, newline))
  {
    var vs := RowValues(block, currentYear, free, newline);
    FiveFieldRow(vs);
    ReadWriteRow(vs);
  }

  /** The hours value of a row needs no quoting. */
  lemma HoursNeedNoQuotes(lines: seq<string>)
    ensures Csv(Some(HoursField(lines))) == HoursField(lines)
  {
    RenderedNeedsNoQuotes(ParseHours(ValueAfterPrefix(lines, HoursPrefix)));
  }

  /** The five values of a block, each read on its own. */
  lemma RowValuesOf(block: string, currentYear: int, free: FreeParse, newline: string,
                    date: string, rating: string, hours: string, language: string, content: string)
    requires date == DateField(block, currentYear, free)
    requires rating == ValueAfterPrefix(SplitLines(block), RatingPrefix)
    requires hours == HoursField(SplitLines(block))
    requires content == StripHtml(Contenido(block, newline)) && language == DetectLanguage(content)
    ensures RowValues(block, currentYear, free, newline) == [date, rating, hours, language, content]
  {
  }

  /** The row of a block, from its five values. */
  lemma RowOf(block: string, currentYear: int, free: FreeParse, newline: string,
              date: string, rating: string, hours: string, language: string, content: string)
    requires date == DateField(block, currentYear, free)
    requires rating == ValueAfterPrefix(SplitLines(block), RatingPrefix)
    requires hours == HoursField(SplitLines(block))
    requires content == StripHtml(Contenido(block, newline)) && language == DetectLanguage(content)
    ensures Row(block, currentYear, free, newline)
            == Join([Csv(Some(date)), Csv(Some(rating)), hours, Csv(Some(language)), Csv(Some(content))], ";")
  {
    RowValuesOf(block, currentYear, free, newline, date, rating, hours, language, content);
  }

  /** The body of the block loop: one row. */
  method ConvertBlock(block: string, currentYear: int, free: FreeParse, newline: string) returns (row: string)
    ensures row == Row(block, currentYear, free, newline)
  {
    var fechaValue := GetLineAfterPrefix(block, DatePrefix);
    var fechaLine := Trim(ReplaceAll(fechaValue, "Posted:", "", true));
    var calif := GetLineAfterPrefix(block, RatingPrefix);
    calif := Trim(calif);
    TrimOfTrimmed(ValueAfterPrefix(SplitLines(block), RatingPrefix));
    var horasRaw := GetLineAfterPrefix(block, HoursPrefix);
    horasRaw := Trim(horasRaw);
    TrimOfTrimmed(ValueAfterPrefix(SplitLines(block), HoursPrefix));
    var horas := ParseHours(horasRaw);
    var contenidoRaw := ExtractContenido(block, newline);
    var contenido := StripHtml(contenidoRaw);
    var fechaCsv := ToYyyyMD(fechaLine, currentYear, free);
    var idioma := DetectLanguage(contenido);
    var horasCsv := RenderDecimal(horas);
    assert fechaCsv == DateField(block, currentYear, free);
    assert horasCsv == HoursField(SplitLines(block));
    RowOf(block, currentYear, free, newline, fechaCsv, calif, horasCsv, idioma, contenido);
    row := Join([Csv(Some(fechaCsv)), Csv(Some(calif)), horasCsv, Csv(Some(idioma)), Csv(Some(contenido))], ";");
  }

  /** All rows of a file's text, under the header. */
  function CsvLines(text: string, currentYear: int, free: FreeParse, newline: string): (lines: seq<string>)
    ensures |lines| == 1 + |Blocks(text)| && lines[0] == Header
  {
    var blocks := Blocks(text);
    [Header] + seq(|blocks|, k requires 0 <= k < |blocks| => Row(blocks[k], currentYear, free, newline))
  }

  /** Line `k + 1` is the row of block `k`. */
  lemma CsvLinesRow(text: string, currentYear: int, free: FreeParse, newline: string, k: nat)
    requires k < |Blocks(text)|
    ensures CsvLines(text, currentYear, free, newline)[k + 1] == Row(Blocks(text)[k], currentYear, free, newline)
  {
  }

  /** A header and a prefix of the rows, extended by the next row. */
  lemma ExtendRows(h: string, rows: seq<string>, k: nat)
    requires k < |rows|
    ensures [h] + rows[..k] + [rows[k]] == [h] + rows[..k + 1]
  {
    assert rows[..k + 1] == rows[..k] + [rows[k]];
  }

  /** A non-empty sequence is its first element followed by the rest. */
  lemma HeadRest(xs: seq<string>)
    requires xs != []
    ensures xs == [xs[0]] + xs[1..] && xs[1..][..|xs| - 1] == xs[1..]
  {
  }

  /** The loop writing the header and then one row per block. */
  method ConvertText(text: string, currentYear: int, free: FreeParse, newline: string) returns (lines: seq<string>)
    ensures lines == CsvLines(text, currentYear, free, newline)
  {
    var blocks := Blocks(text);
    ghost var all := CsvLines(text, currentYear, free, newline);
    ghost var rows := all[1..];
    lines := [Header];
    for k := 0 to |blocks|
      invariant lines == [Header] + rows[..k]
    {
      var row := ConvertBlock(blocks[k], currentYear, free, newline);
      assert row == rows[k];
      ExtendRows(Header, rows, k);
      lines := lines + [row];
    }
    HeadRest(all);
  }

  // ----- The command line -----

  /** The platform the converter runs on. It fixes `Environment.NewLine` and
      the directory separators `Path` recognises. */
  datatype Platform = Windows | Unix

  /** `Environment.NewLine`. */
  function NewLine(p: Platform): (newline: string)
    ensures IsNewline(newline) && (newline == "\r\n" <==> p == Windows)
  {
    if p == Windows then "\r\n" else "\n"
  }

  /** A directory separator: '/' everywhere, and '\\' as well on Windows. */
  predicate IsDirSeparator(p: Platform, c: char) {
    c == '/' || (p == Windows && c == '\\')
  }

  /** `Path.ChangeExtension(path, ext)`: everything from the last '.' after
      the last separator is replaced by `ext`, which is appended when there
      is no such '.'. */
  function ChangeExtension(path: string, ext: string, p: Platform): (r: string)
    ensures path == [] ==> r == []
    ensures path != [] ==> |ext| <= |r| && r[|r| - |ext|..] == ext
    ensures path != [] ==> var n := |r| - |ext|;
              n <= |path| && r[..n] == path[..n]
              && (n == |path| ==> forall j :: 0 <= j < |path| && path[j] == '.' ==>
                                    exists q :: j < q < |path| && IsDirSeparator(p, path[q]))
              && (n < |path| ==> path[n] == '.'
                                 && forall j :: n < j < |path| ==> path[j] != '.' && !IsDirSeparator(p, path[j]))
  {
    if path == [] then path
    else
      match LastDot(path, |path|, p)
      case Some(i) => path[..i] + ext
      case None => path + ext
  }

  /** The last '.' before position `i` that comes after every separator. */
  function LastDot(path: string, i: nat, p: Platform): (r: Option<nat>)
    requires i <= |path|
    ensures r.Some? ==> r.value < i && path[r.value] == '.'
    ensures r.Some? ==> forall j :: r.value < j < i ==> path[j] != '.' && !IsDirSeparator(p, path[j])
    ensures r.None? ==> forall j :: 0 <= j < i && path[j] == '.' ==> exists q :: j < q < i && IsDirSeparator(p, path[q])
    decreases i
  {
    if i == 0 then None
    else if path[i - 1] == '.' then Some(i - 1)
    else if IsDirSeparator(p, path[i - 1]) then None
    else LastDot(path, i - 1, p)
  }

  /** What the converter does, with its exit code. */
  datatype ConverterResult =
    | Usage                                        // no argument: exit 1
    | InputMissing(path: string)                   // the input file does not exist: exit 1
    | CsvFlagMissing                               // no argument equals "-csv": exit 1
    | Failed                                       // reading the input threw: exit 2
    | Converted(output: string, lines: seq<string>) // the CSV lines written to `output`: exit 0

  function ExitCode(r: ConverterResult): (code: int) {
    match r
    case Converted(_, _) => 0
    case Failed => 2
    case _ => 1
  }

  predicate HasCsvFlag(args: seq<string>) {
    exists k :: 0 <= k < |args| && EqualsIgnoreCase(args[k], "-csv")
  }

  /** The converter's `Main`. The file system is the two parameters: which
      files exist, and what reading one gives (`None` for a read that
      throws). The CSV file is its lines, each of which `WriteLine` ends
      with `NewLine(platform)`. */
  method RunConverter(args: seq<string>, fileExists: string -> bool, readText: string -> Option<string>,
                      currentYear: int, free: FreeParse, platform: Platform) returns (result: ConverterResult)
    ensures args == [] ==> result == Usage
    ensures args != [] && !fileExists(args[0]) ==> result == InputMissing(args[0])
    ensures args != [] && fileExists(args[0]) && !HasCsvFlag(args) ==> result == CsvFlagMissing
    ensures args != [] && fileExists(args[0]) && HasCsvFlag(args) ==>
              result == match readText(args[0])
                        case None => Failed
                        case Some(text) => Converted(ChangeExtension(args[0], ".csv", platform),
                                                     CsvLines(text, currentYear, free, NewLine(platform)))
  {
    if args == [] {
      return Usage;
    }
    var inputPath := args[0];
    if !fileExists(inputPath) {
      return InputMissing(inputPath);
    }
    var toCsv := HasCsvFlag(args);
    if !toCsv {
      return CsvFlagMissing;
    }
    var outputPath := ChangeExtension(inputPath, ".csv", platform);
    var text := readText(inputPath);
    if text.None? {
      return Failed;
    }
    var lines := ConvertText(text.value, currentYear, free, NewLine(platform));
    return Converted(outputPath, lines);
  }
}
