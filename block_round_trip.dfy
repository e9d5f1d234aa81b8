/** The two programs meet in the review text file: the extractor writes each
    review as a labelled block and the converter reads the labels back. This
    module states what survives the trip: the rating and the content as they
    were written (trimmed), the hours as the same number, and an ISO date as
    the same calendar date. */
module BlockRoundTrip {
  import opened Wrappers
  import opened Text
  import opened Numbers
  import opened Calendar
  import opened LanguageDetector
  import DateNormalizer
  import Extract = ExtractSteamReviews
  import Conv = TxtToCsv

  // ----- One labelled line -----

  /** A trimmed label, a space and a value trim to the label followed by
      something that, trimmed again, is the trimmed value. */
  lemma {:induction false} LabelledLine(head: string, x: string)
    requires head != [] && IsTrimmed(head)
    ensures head <= Trim(head + " " + x)
    ensures Trim(Trim(head + " " + x)[|head|..]) == Trim(x)
  {
    var a, r, b := TrimParts(x);
    if r == [] {
      assert x == a + b;
      LabelledBlank(head, a + b);
    } else {
      LabelledValue(head, a, r, b);
    }
  }

  /** A text is its leading whitespace, its trimmed text and its trailing whitespace. */
  lemma TrimParts(x: string) returns (a: string, r: string, b: string)
    ensures x == a + r + b && r == Trim(x) && IsBlank(a) && IsBlank(b) && IsTrimmed(r)
  {
    var l := LeadingWhite(x);
    r := Trim(x);
    a, b := x[..l], x[l + |r|..];
    ThreeSlices(x, l, l + |r|);
    assert IsBlank(b) by {
      forall i | 0 <= i < |b| ensures IsWhite(b[i]) {
        assert b[i] == x[l + |r| + i];
      }
    }
  }

  lemma ThreeSlices<T>(s: seq<T>, i: nat, j: nat)
    requires i <= j <= |s|
    ensures s[..i] + s[i..j] + s[j..] == s
  {
  }

  lemma {:induction false} LabelledBlank(head: string, w: string)
    requires head != [] && IsTrimmed(head) && IsBlank(w)
    ensures Trim(head + " " + w) == head
  {
    assert head + " " + w == head + (" " + w);
    TrimBeforeWhite(head, " " + w);
  }

  lemma {:induction false} LabelledValue(head: string, a: string, r: string, b: string)
    requires head != [] && IsTrimmed(head) && IsBlank(a) && r != [] && IsTrimmed(r) && IsBlank(b)
    ensures Trim(head + " " + (a + r + b)) == head + " " + a + r
    ensures Trim((head + " " + a + r)[|head|..]) == r
  {
    var core := head + " " + a + r;
    LabelJoin(head, " ", a, r, b);
    assert IsTrimmed(core) by {
      assert core[0] == head[0] && core[|core| - 1] == r[|r| - 1];
    }
    TrimBeforeWhite(core, b);
    assert IsBlank(" " + a) by {
      forall i | 0 <= i < |" " + a| ensures IsWhite((" " + a)[i]) {
        if i > 0 {
          assert (" " + a)[i] == a[i - 1];
        }
      }
    }
    assert " " + a + r == (" " + a) + r + [];
    TrimAround(" " + a, r, []);
  }

  /** How a labelled line is put together, as sequences. */
  lemma LabelJoin<T>(head: seq<T>, sp: seq<T>, a: seq<T>, r: seq<T>, b: seq<T>)
    ensures head + sp + (a + r + b) == (head + sp + a + r) + b
    ensures (head + sp + a + r)[|head|..] == sp + a + r
  {
  }

  lemma {:induction false} PrefixStarts(t: string, p: string)
    requires p <= t
    ensures StartsWithIgnoreCase(t, p)
  {
    assert t[..|p|] == p;
  }

  lemma {:induction false} FirstCharDiffers(t: string, p: string, k: nat)
    requires k < |t| && k < |p| && Lower(t[k]) != Lower(p[k])
    ensures !StartsWithIgnoreCase(t, p)
  {
    if StartsWithIgnoreCase(t, p) {
      StartsWithIgnoreCaseChars(t, p);
    }
  }

  // ----- The block's lines -----

  /** The lines the converter splits a written block into. */
  lemma {:induction false} BlockLines(f: string, c: string, h: Decimal, x: string)
    requires IsCanonical(h) && Excludes(f, '\n') && Excludes(c, '\n') && Excludes(x, '\n')
    ensures SplitLines(Extract.FormatearBloque(f, c, h, x))
            == [Conv.DatePrefix + " " + f, Conv.RatingPrefix + " " + c, Conv.HoursPrefix + " " + RenderDecimal(h),
                Extract.ContentLabel, x]
  {
    LabelsArePrefixes();
    var rh := RenderDecimal(h);
    var l0, l1, l2, l3 := Extract.DateLabel + f, Extract.RatingLabel + c, Extract.HoursLabel + rh,
                          Extract.ContentLabel;
    var crlf := Extract.BlockBreak;
    BlockNest(Extract.DateLabel, f, crlf, Extract.RatingLabel, c, Extract.HoursLabel, rh, l3, x);
    assert Excludes(Extract.DateLabel, '\n') && Excludes(Extract.RatingLabel, '\n');
    assert Excludes(Extract.HoursLabel, '\n') && Excludes(l3, '\n');
    NoLineFeedJoin(Extract.DateLabel, f);
    NoLineFeedJoin(Extract.RatingLabel, c);
    NoLineFeedJoin(Extract.HoursLabel, rh);
    FiveLines(l0, l1, l2, l3, x);
  }

  lemma BlockNest<T>(a: seq<T>, f: seq<T>, br: seq<T>, b: seq<T>, c: seq<T>, g: seq<T>, h: seq<T>,
                     k: seq<T>, x: seq<T>)
    ensures a + f + br + b + c + br + g + h + br + k + br + x
            == (a + f) + br + ((b + c) + br + ((g + h) + br + (k + br + x)))
  {
  }

  lemma NoLineFeedJoin(a: string, b: string)
    requires Excludes(a, '\n') && Excludes(b, '\n')
    ensures Excludes(a + b, '\n')
  {
    assert forall i :: |a| <= i < |a + b| ==> (a + b)[i] == b[i - |a|];
  }

  /** Five lines without LF joined by CR LF split back into the five lines. */
  lemma {:induction false} FiveLines(l0: string, l1: string, l2: string, l3: string, x: string)
    requires Excludes(l0, '\n') && Excludes(l1, '\n') && Excludes(l2, '\n') && Excludes(l3, '\n')
    requires Excludes(x, '\n')
    ensures var crlf := "\r\n";
            SplitLines(l0 + crlf + (l1 + crlf + (l2 + crlf + (l3 + crlf + x)))) == [l0, l1, l2, l3, x]
  {
    var crlf := "\r\n";
    SplitLinesNoLineFeed(x);
    SplitLinesCrlf(l3, x);
    SplitLinesCrlf(l2, l3 + crlf + x);
    SplitLinesCrlf(l1, l2 + crlf + (l3 + crlf + x));
    SplitLinesCrlf(l0, l1 + crlf + (l2 + crlf + (l3 + crlf + x)));
  }

  /** The hours pattern matches the whole of a rendered number. */
  lemma {:induction false} HoursLexemeRendered(h: Decimal)
    requires IsCanonical(h)
    ensures Conv.HoursLexeme(RenderDecimal(h)) == Some(RenderDecimal(h))
  {
    var w := NatToString(h.whole);
    var r := RenderDecimal(h);
    if h.frac == [] {
      assert r == w;
      LexemeWhole(w);
    } else {
      assert r == w + ("." + h.frac);
      LexemeWithFraction(w, h.frac);
    }
  }

  /** A run of digits is matched whole. */
  lemma LexemeWhole(w: string)
    requires w != [] && AllDigits(w)
    ensures Conv.HoursLexeme(w) == Some(w)
  {
    LeadingDigitsAll(w);
    assert w[..|w|] == w;
  }

  /** Digits, a point and digits are matched whole. */
  lemma LexemeWithFraction(w: string, frac: string)
    requires w != [] && AllDigits(w) && frac != [] && AllDigits(frac)
    ensures Conv.HoursLexeme(w + ("." + frac)) == Some(w + ("." + frac))
  {
    var r := w + ("." + frac);
    LeadingDigitsOf(w, "." + frac);
    var t := r[|w|..];
    assert t == "." + frac;
    assert t[1..] == frac;
    LeadingDigitsAll(frac);
    assert r[..|w| + 1 + |frac|] == r;
  }

  /** A rendered number has no comma to replace. */
  lemma {:induction false} NoCommaRendered(h: Decimal)
    requires IsCanonical(h)
    ensures ReplaceChar(RenderDecimal(h), ',', '.') == RenderDecimal(h)
  {
    var r := RenderDecimal(h);
    assert DigitsAndDots(r);
    assert forall i :: 0 <= i < |r| ==> r[i] != ',';
  }

  /** The rendered hours read back as the same number. */
  lemma {:induction false} ParseHoursRendered(h: Decimal)
    requires IsCanonical(h)
    ensures Conv.ParseHours(RenderDecimal(h)) == h
  {
    var r := RenderDecimal(h);
    assert !IsBlank(r) by {
      assert IsAsciiDigit(r[0]);
    }
    HoursLexemeRendered(h);
    NoCommaRendered(h);
    ParseRenderDecimal(h);
  }

  /** The labelled line starts, ignoring case, with its label, and the
      value after the label trims to the written value. */
  lemma {:induction false} LabelStarts(head: string, x: string)
    requires head != [] && IsTrimmed(head)
    ensures StartsWithIgnoreCase(Trim(head + " " + x), head)
    ensures Trim(Trim(head + " " + x)[|head|..]) == Trim(x)
  {
    LabelledLine(head, x);
    PrefixStarts(Trim(head + " " + x), head);
  }

  /** A labelled line does not start with a prefix that differs from its label in some letter. */
  lemma {:induction false} LabelNotOther(head: string, x: string, other: string, k: nat)
    requires head != [] && IsTrimmed(head)
    requires k < |head| && k < |other| && Lower(head[k]) != Lower(other[k])
    ensures !StartsWithIgnoreCase(Trim(head + " " + x), other)
  {
    LabelledLine(head, x);
    var t := Trim(head + " " + x);
    assert t[k] == head[k];
    FirstCharDiffers(t, other, k);
  }

  /** A labelled line is no content marker when its label differs from the marker in some letter. */
  lemma {:induction false} LabelNotMarker(head: string, x: string, k: nat)
    requires head != [] && IsTrimmed(head)
    requires k < |head| && k < |Conv.LowerMarker| && Lower(head[k]) != Conv.LowerMarker[k]
    ensures !Conv.IsMarker(head + " " + x)
  {
    LabelledLine(head, x);
    var t := Trim(head + " " + x);
    assert t[k] == head[k];
    NotMarkerAt(head + " " + x, k);
  }

  /** The three prefixes are trimmed and tell each other and the marker
      apart by one letter. */
  lemma {:induction false} PrefixFacts()
    ensures Conv.DatePrefix != [] && IsTrimmed(Conv.DatePrefix)
    ensures Conv.RatingPrefix != [] && IsTrimmed(Conv.RatingPrefix)
    ensures Conv.HoursPrefix != [] && IsTrimmed(Conv.HoursPrefix)
    ensures Lower(Conv.DatePrefix[0]) != Lower(Conv.RatingPrefix[0])
    ensures Lower(Conv.DatePrefix[0]) != Lower(Conv.HoursPrefix[0])
    ensures Lower(Conv.RatingPrefix[0]) != Lower(Conv.HoursPrefix[0])
    ensures Lower(Conv.DatePrefix[0]) != Conv.LowerMarker[0]
    ensures Lower(Conv.RatingPrefix[1]) != Conv.LowerMarker[1]
    ensures Lower(Conv.HoursPrefix[0]) != Conv.LowerMarker[0]
  {
  }

  /** The labels the extractor writes are the converter's prefixes and a space. */
  lemma {:induction false} LabelsArePrefixes()
    ensures Extract.DateLabel == Conv.DatePrefix + " "
    ensures Extract.RatingLabel == Conv.RatingPrefix + " "
    ensures Extract.HoursLabel == Conv.HoursPrefix + " "
  {
  }

  /** A first line without the prefix is passed over. */
  lemma {:induction false} SkipLine(lines: seq<string>, p: string)
    requires lines != [] && !StartsWithIgnoreCase(Trim(lines[0]), p)
    ensures Conv.ValueAfterPrefix(lines, p) == Conv.ValueAfterPrefix(lines[1..], p)
  {
  }

  /** The date value is read from the first line. */
  lemma {:induction false} DateRead(lines: seq<string>, f: string)
    requires |lines| == 5 && lines[0] == Conv.DatePrefix + " " + f
    ensures Conv.ValueAfterPrefix(lines, Conv.DatePrefix) == Trim(f)
  {
    PrefixFacts();
    LabelStarts(Conv.DatePrefix, f);
    Conv.ValueAfterPrefixFirst(lines, Conv.DatePrefix, 0);
  }

  /** The rating value is read from the second line: the first starts with another letter. */
  lemma {:induction false} RatingRead(lines: seq<string>, f: string, c: string)
    requires |lines| == 5 && lines[0] == Conv.DatePrefix + " " + f && lines[1] == Conv.RatingPrefix + " " + c
    ensures Conv.ValueAfterPrefix(lines, Conv.RatingPrefix) == Trim(c)
  {
    PrefixFacts();
    LabelNotOther(Conv.DatePrefix, f, Conv.RatingPrefix, 0);
    LabelStarts(Conv.RatingPrefix, c);
    SkipLine(lines, Conv.RatingPrefix);
    Conv.ValueAfterPrefixFirst(lines[1..], Conv.RatingPrefix, 0);
  }

  /** The hours value is read from the third line. */
  lemma {:induction false} HoursRead(lines: seq<string>, f: string, c: string, rh: string)
    requires |lines| == 5 && lines[0] == Conv.DatePrefix + " " + f && lines[1] == Conv.RatingPrefix + " " + c
    requires lines[2] == Conv.HoursPrefix + " " + rh
    ensures Conv.ValueAfterPrefix(lines, Conv.HoursPrefix) == Trim(rh)
  {
    PrefixFacts();
    LabelNotOther(Conv.DatePrefix, f, Conv.HoursPrefix, 0);
    LabelNotOther(Conv.RatingPrefix, c, Conv.HoursPrefix, 0);
    LabelStarts(Conv.HoursPrefix, rh);
    SkipLine(lines, Conv.HoursPrefix);
    SkipLine(lines[1..], Conv.HoursPrefix);
    assert lines[1..][1..] == lines[2..];
    Conv.ValueAfterPrefixFirst(lines[2..], Conv.HoursPrefix, 0);
  }

  /** The content is the line after the marker, trimmed. */
  lemma {:induction false} ContentRead(block: string, f: string, c: string, rh: string, x: string, newline: string)
    requires SplitLines(block) == [Conv.DatePrefix + " " + f, Conv.RatingPrefix + " " + c,
                                   Conv.HoursPrefix + " " + rh, Extract.ContentLabel, x]
    requires IsNewline(newline)
    ensures Conv.Contenido(block, newline) == Trim(x)
  {
    var lines := SplitLines(block);
    LabelsNotMarkers(lines, f, c, rh);
    ContentLabelIsMarker();
    MarkerFound(lines);
    AfterMarker(lines, x, newline);
  }

  /** None of the three labelled lines is the marker line. */
  lemma {:induction false} LabelsNotMarkers(lines: seq<string>, f: string, c: string, rh: string)
    requires |lines| >= 3
    requires lines[0] == Conv.DatePrefix + " " + f && lines[1] == Conv.RatingPrefix + " " + c
    requires lines[2] == Conv.HoursPrefix + " " + rh
    ensures !Conv.IsMarker(lines[0]) && !Conv.IsMarker(lines[1]) && !Conv.IsMarker(lines[2])
  {
    PrefixFacts();
    LabelNotMarker(Conv.DatePrefix, f, 0);
    LabelNotMarker(Conv.RatingPrefix, c, 1);
    LabelNotMarker(Conv.HoursPrefix, rh, 0);
  }

  /** The text after the marker line, when it is one line, trims to that line trimmed. */
  lemma {:induction false} AfterMarker(lines: seq<string>, x: string, newline: string)
    requires |lines| == 5 && lines[4] == x && IsNewline(newline)
    ensures Trim(Conv.StripFinalNewlines(Conv.AppendLines(lines[3 + 1..], newline))) == Trim(x)
  {
    assert lines[3 + 1..] == [x];
    Conv.AppendLine(x, newline);
    Conv.TrimAfterStrip(x + newline);
    NewlineIsBlank(newline);
    TrimAppendWhite(x, newline);
  }

  /** A written block read by the converter: the date and rating values are
      the written ones trimmed, the hours the same number and the content
      the written content trimmed, whichever the newline. Each value must
      fit on its line. */
  lemma {:induction false} BlockReadsBack(f: string, c: string, h: Decimal, x: string, newline: string)
    requires IsCanonical(h) && Excludes(f, '\n') && Excludes(c, '\n') && Excludes(x, '\n')
    requires IsNewline(newline)
    ensures var lines := SplitLines(Extract.FormatearBloque(f, c, h, x));
            && Conv.ValueAfterPrefix(lines, Conv.DatePrefix) == Trim(f)
            && Conv.ValueAfterPrefix(lines, Conv.RatingPrefix) == Trim(c)
            && Conv.ParseHours(Conv.ValueAfterPrefix(lines, Conv.HoursPrefix)) == h
    ensures Conv.Contenido(Extract.FormatearBloque(f, c, h, x), newline) == Trim(x)
  {
    var block := Extract.FormatearBloque(f, c, h, x);
    BlockLines(f, c, h, x);
    LinesRead(SplitLines(block), f, c, h, x);
    ContentRead(block, f, c, RenderDecimal(h), x, newline);
  }

  /** The date, rating and hours values of the five lines of a block. */
  lemma {:induction false} LinesRead(lines: seq<string>, f: string, c: string, h: Decimal, x: string)
    requires IsCanonical(h)
    requires lines == [Conv.DatePrefix + " " + f, Conv.RatingPrefix + " " + c,
                       Conv.HoursPrefix + " " + RenderDecimal(h), Extract.ContentLabel, x]
    ensures Conv.ValueAfterPrefix(lines, Conv.DatePrefix) == Trim(f)
    ensures Conv.ValueAfterPrefix(lines, Conv.RatingPrefix) == Trim(c)
    ensures Conv.ParseHours(Conv.ValueAfterPrefix(lines, Conv.HoursPrefix)) == h
  {
    var rh := RenderDecimal(h);
    DateRead(lines, f);
    RatingRead(lines, f, c);
    HoursRead(lines, f, c, rh);
    RenderedHoursTrimmed(h);
  }

  /** The rendered hours, trimmed, read back as the same number. */
  lemma {:induction false} RenderedHoursTrimmed(h: Decimal)
    requires IsCanonical(h)
    ensures Conv.ParseHours(Trim(RenderDecimal(h))) == h
  {
    var rh := RenderDecimal(h);
    assert IsTrimmed(rh) by {
      assert IsAsciiDigit(rh[0]) && IsAsciiDigit(rh[|rh| - 1]);
    }
    TrimOfTrimmed(rh);
    ParseHoursRendered(h);
  }

  /** A line whose trimmed text differs from the marker at some position is no marker. */
  lemma {:induction false} NotMarkerAt(line: string, k: nat)
    requires k < |Trim(line)| && k < |Conv.LowerMarker| && Lower(Trim(line)[k]) != Conv.LowerMarker[k]
    ensures !Conv.IsMarker(line)
  {
    assert ToLower(Trim(line))[k] != Conv.LowerMarker[k];
  }

  /** The label the extractor writes is the marker the converter looks for. */
  lemma {:induction false} ContentLabelIsMarker()
    ensures Conv.IsMarker(Extract.ContentLabel)
  {
    var l := Extract.ContentLabel;
    assert l == Conv.ContentMarker;
    assert IsTrimmed(l) by {
      assert l[0] == 'C' && l[|l| - 1] == ':';
    }
    TrimOfTrimmed(l);
    Conv.MarkerIgnoresCase(l);
  }

  /** The search for the marker stops at the first marker line. */
  lemma {:induction false} MarkerFound(lines: seq<string>)
    requires |lines| == 5 && Conv.IsMarker(lines[3])
    requires !Conv.IsMarker(lines[0]) && !Conv.IsMarker(lines[1]) && !Conv.IsMarker(lines[2])
    ensures Conv.FindIndex(lines, Conv.IsMarker, 0) == 3
  {
    var p := Conv.IsMarker;
    assert p(lines[3]);
    assert Conv.FindIndex(lines, p, 3) == 3;
    assert !p(lines[2]);
    assert Conv.FindIndex(lines, p, 2) == 3;
    assert !p(lines[1]);
    assert Conv.FindIndex(lines, p, 1) == 3;
    assert !p(lines[0]);
  }

  // ----- A card's block through the converter -----

  /** The last four values of the row the converter writes for a written
      block: the rating and the content as written, trimmed, the hours as
      the same number, and the language of the content. */
  lemma {:induction false} BlockRow(f: string, c: string, h: Decimal, x: string, currentYear: int,
                                    free: DateNormalizer.FreeParse, newline: string)
    requires IsCanonical(h) && Excludes(f, '\n') && Excludes(c, '\n') && Excludes(x, '\n')
    requires IsNewline(newline)
    ensures var vs := Conv.RowValues(Extract.FormatearBloque(f, c, h, x), currentYear, free, newline);
            var content := Conv.StripHtml(Trim(x));
            vs[1..] == [Trim(c), RenderDecimal(h), DetectLanguage(content), content]
  {
    var block := Extract.FormatearBloque(f, c, h, x);
    var lines := SplitLines(block);
    BlockReadsBack(f, c, h, x, newline);
    var content := Conv.StripHtml(Conv.Contenido(block, newline));
    assert Conv.RowValues(block, currentYear, free, newline)
           == [Conv.DateField(block, currentYear, free), Conv.ValueAfterPrefix(lines, Conv.RatingPrefix),
               Conv.HoursField(lines), DetectLanguage(content), content];
    assert Conv.HoursField(lines) == RenderDecimal(Conv.ParseHours(Conv.ValueAfterPrefix(lines, Conv.HoursPrefix)));
  }

  /** The block of a card that was read is the formatted block of its fields. */
  lemma {:induction false} NodeBlockOf(n: Extract.ReviewNode)
    requires Extract.NodeBlock(n).Ok?
    ensures Extract.NodeBlock(n).value
            == Extract.FormatearBloque(Extract.ParseDate(Extract.TrimmedText(n.datePosted)).value,
                                       Extract.TrimmedText(n.title),
                                       Extract.ParseHours(Extract.TrimmedText(n.hours)), Extract.Content(n))
  {
  }

  /** The row the converter writes for a card's block carries the card's
      rating, its hours as the same number, and its content as read from the
      page, cleaned of markup once more. */
  lemma {:induction false} CardRow(n: Extract.ReviewNode, currentYear: int, free: DateNormalizer.FreeParse,
                                   newline: string)
    requires Extract.NodeBlock(n).Ok? && IsNewline(newline)
    requires Excludes(Extract.ParseDate(Extract.TrimmedText(n.datePosted)).value, '\n')
    requires Excludes(Extract.TrimmedText(n.title), '\n')
    ensures var vs := Conv.RowValues(Extract.NodeBlock(n).value, currentYear, free, newline);
            var content := Conv.StripHtml(Extract.Content(n));
            vs[1..] == [Extract.TrimmedText(n.title), RenderDecimal(Extract.ParseHours(Extract.TrimmedText(n.hours))),
                        DetectLanguage(content), content]
  {
    var f := Extract.ParseDate(Extract.TrimmedText(n.datePosted)).value;
    var c := Extract.TrimmedText(n.title);
    var h := Extract.ParseHours(Extract.TrimmedText(n.hours));
    var x := Extract.Content(n);
    NodeBlockOf(n);
    BlockRow(f, c, h, x, currentYear, free, newline);
    TrimOfTrimmed(c);
    TrimOfTrimmed(x);
  }

  /** A date the extractor read as a calendar date reaches the converter's
      row as that date in the year/month/day form. */
  lemma {:induction false} IsoDateRow(d: CalendarDate, c: string, h: Decimal, x: string, currentYear: int,
                   free: DateNormalizer.FreeParse)
    requires IsCanonical(h) && Excludes(c, '\n') && Excludes(x, '\n')
    ensures Conv.DateField(Extract.FormatearBloque(FormatIso(d), c, h, x), currentYear, free) == FormatYmd(d)
  {
    var f := FormatIso(d);
    var block := Extract.FormatearBloque(f, c, h, x);
    IsoFacts(d);
    BlockLines(f, c, h, x);
    LinesRead(SplitLines(block), f, c, h, x);
    TrimOfTrimmed(f);
    IsoKeepsPosted(d);
    DateFieldOf(block, f, currentYear, free);
    DateNormalizer.NormalizeIso(d, currentYear, free);
  }

  /** The date field is the normalised date value, once "Posted:" is removed. */
  lemma {:induction false} DateFieldOf(block: string, f: string, currentYear: int, free: DateNormalizer.FreeParse)
    requires Conv.ValueAfterPrefix(SplitLines(block), Conv.DatePrefix) == f
    ensures Conv.DateField(block, currentYear, free)
            == DateNormalizer.NormalizeDate(Trim(ReplaceAll(f, "Posted:", "", true)), currentYear, free)
  {
  }

  /** An ISO date loses nothing to the removal of "Posted:". */
  lemma {:induction false} IsoKeepsPosted(d: CalendarDate)
    ensures Trim(ReplaceAll(FormatIso(d), "Posted:", "", true)) == FormatIso(d)
  {
    var f := FormatIso(d);
    IsoFacts(d);
    var pat := "Posted:";
    assert pat[6] == ':';
    ReplaceAllMissing(f, pat, "", true, 6);
    TrimOfTrimmed(f);
  }

  /** An ISO date is trimmed, on one line, and holds no `:` in either case. */
  lemma {:induction false} IsoFacts(d: CalendarDate)
    ensures IsTrimmed(FormatIso(d)) && Excludes(FormatIso(d), '\n')
    ensures forall i :: 0 <= i < |FormatIso(d)| ==> FormatIso(d)[i] != ':' && Lower(FormatIso(d)[i]) != ':'
  {
    var f := FormatIso(d);
    forall i | 0 <= i < |f|
      ensures IsAsciiDigit(f[i]) || f[i] == '-'
    {
      if i < 4 {
        assert f[..4][i] == f[i];
      } else if 5 <= i < 7 {
        assert f[5..7][i - 5] == f[i];
      } else if 8 <= i {
        assert f[8..][i - 8] == f[i];
      }
    }
  }
}
