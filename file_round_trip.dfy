/** The converter reading a whole file the extractor wrote: the entries,
    each a block followed by a line of 80 dashes, split back into exactly the
    blocks written, in order, and the CSV has one row per review. */
module FileRoundTrip {
  import opened Wrappers
  import opened Text
  import opened Numbers
  import opened LanguageDetector
  import DateNormalizer
  import CsvFormat
  import Extract = ExtractSteamReviews
  import Conv = TxtToCsv
  import BlockRoundTrip

  // ----- Where a separator can start -----

  /** No separator match starts at position `j` of `s`. */
  predicate NoSeparatorAt(s: string, j: nat) {
    j <= |s| && Conv.SeparatorLength(s[j..]) == 0
  }

  /** No separator match starts inside `u` when `t` follows it. */
  ghost predicate Quiet(u: string, t: string) {
    forall j :: 0 <= j < |u| ==> NoSeparatorAt(u + t, j)
  }

  /** After a line break, `v` cannot continue a separator: its dashes are
      fewer than three, or a character other than a line break follows them. */
  predicate NoDashLine(v: string) {
    var d := RunLength(v, '-');
    d < 3 || (d < |v| && v[d] != '\r' && v[d] != '\n')
  }

  /** The scan of `Regex.Split` passes over positions where the pattern does
      not match. */
  lemma {:induction false} SplitFromSkip(matchLength: string -> nat, s: string, start: nat, i: nat, k: nat)
    requires forall t :: matchLength(t) <= |t|
    requires start <= i <= k <= |s|
    requires forall j :: i <= j < k ==> matchLength(s[j..]) == 0
    ensures Conv.SplitFrom(matchLength, s, start, i) == Conv.SplitFrom(matchLength, s, start, k)
    decreases k - i
  {
    if i < k {
      SplitFromStep(matchLength, s, start, i);
      SplitFromSkip(matchLength, s, start, i + 1, k);
    }
  }

  /** Slices of `s` past `o` are slices of `t`, the text from `o` on. */
  lemma SliceWithin(s: string, o: nat, t: string, x: nat, y: nat)
    requires o <= |s| && s[o..] == t && x <= y <= |t|
    ensures s[o + x..o + y] == t[x..y] && s[o + y..] == t[y..]
  {
    assert |t| == |s| - o;
    forall i | 0 <= i < |t| ensures t[i] == s[o + i] {
      assert t[i] == s[o..][i];
    }
    assert s[o + x..o + y] == t[x..y];
    assert s[o + y..] == t[y..];
  }

  lemma SplitFromCut(matchLength: string -> nat, s: string, start: nat, i: nat, c: nat)
    requires forall t :: matchLength(t) <= |t|
    requires start <= i < |s| && matchLength(s[i..]) > 0 && c == i + matchLength(s[i..])
    ensures Conv.SplitFrom(matchLength, s, start, i) == [s[start..i]] + Conv.SplitFrom(matchLength, s, c, c)
  {
  }

  lemma SplitFromStep(matchLength: string -> nat, s: string, start: nat, i: nat)
    requires forall t :: matchLength(t) <= |t|
    requires start <= i < |s| && matchLength(s[i..]) == 0
    ensures Conv.SplitFrom(matchLength, s, start, i) == Conv.SplitFrom(matchLength, s, start, i + 1)
  {
  }

  lemma SplitFromEnd(matchLength: string -> nat, s: string, start: nat)
    requires forall t :: matchLength(t) <= |t|
    requires start <= |s|
    ensures Conv.SplitFrom(matchLength, s, start, |s|) == [s[start..]]
  {
  }

  lemma ShiftCut(matchLength: string -> nat, s: string, o: nat, t: string, a: nat, b: nat, c: nat)
    requires forall t :: matchLength(t) <= |t|
    requires o <= |s| && s[o..] == t
    requires a <= b < |t| && matchLength(t[b..]) > 0 && c == b + matchLength(t[b..])
    requires Conv.SplitFrom(matchLength, s, o + c, o + c) == Conv.SplitFrom(matchLength, t, c, c)
    ensures Conv.SplitFrom(matchLength, s, o + a, o + b) == Conv.SplitFrom(matchLength, t, a, b)
  {
    SliceWithin(s, o, t, a, b);
    SplitFromCut(matchLength, s, o + a, o + b, o + c);
    SplitFromCut(matchLength, t, a, b, c);
  }

  lemma ShiftStep(matchLength: string -> nat, s: string, o: nat, t: string, a: nat, b: nat, c: nat)
    requires forall t :: matchLength(t) <= |t|
    requires o <= |s| && s[o..] == t
    requires a <= b < |t| && matchLength(t[b..]) == 0 && c == b + 1
    requires Conv.SplitFrom(matchLength, s, o + a, o + c) == Conv.SplitFrom(matchLength, t, a, c)
    ensures Conv.SplitFrom(matchLength, s, o + a, o + b) == Conv.SplitFrom(matchLength, t, a, b)
  {
    SliceWithin(s, o, t, a, b);
    SplitFromStep(matchLength, s, o + a, o + b);
    SplitFromStep(matchLength, t, a, b);
  }

  lemma ShiftEnd(matchLength: string -> nat, s: string, o: nat, t: string, a: nat)
    requires forall t :: matchLength(t) <= |t|
    requires o <= |s| && s[o..] == t
    requires a <= |t|
    ensures Conv.SplitFrom(matchLength, s, o + a, o + |t|) == Conv.SplitFrom(matchLength, t, a, |t|)
  {
    SliceWithin(s, o, t, a, a);
    SplitFromEnd(matchLength, s, o + a);
    SplitFromEnd(matchLength, t, a);
  }

  /** Splitting from a position on is splitting the text from that
      position on, whatever the pattern. */
  lemma {:induction false} SplitFromShift(matchLength: string -> nat, s: string, o: nat, t: string, a: nat, b: nat)
    requires forall t :: matchLength(t) <= |t|
    requires o <= |s| && s[o..] == t
    requires a <= b <= |t|
    ensures Conv.SplitFrom(matchLength, s, o + a, o + b) == Conv.SplitFrom(matchLength, t, a, b)
    decreases |t| - b
  {
    if b == |t| {
      ShiftEnd(matchLength, s, o, t, a);
    } else if matchLength(t[b..]) > 0 {
      var c := b + matchLength(t[b..]);
      SplitFromShift(matchLength, s, o, t, c, c);
      ShiftCut(matchLength, s, o, t, a, b, c);
    } else {
      var c := b + 1;
      SplitFromShift(matchLength, s, o, t, a, c);
      ShiftStep(matchLength, s, o, t, a, b, c);
    }
  }


  /** The separator the extractor writes after a block. */
  function Separator(newline: string): (sep: string) {
    newline + Extract.Dashes + newline
  }

  /** The written separator is matched whole, whatever follows it. */
  lemma {:induction false} SeparatorMatches(newline: string, rest: string)
    requires IsNewline(newline)
    ensures Conv.SeparatorLength(Separator(newline) + rest) == |Separator(newline)|
  {
    var t := Separator(newline) + rest;
    var a := |newline|;
    assert Conv.LineBreak(t) == a;
    assert t[a..] == Extract.Dashes + (newline + rest);
    RunLengthOf(Extract.Dashes, '-', newline + rest);
    assert t[a + 80..] == newline + rest;
    assert Conv.LineBreak(newline + rest) == a;
  }

  // ----- Quiet text -----

  /** Inside a line without a line feed no separator starts, unless a
      carriage return ending it is followed by a line feed. */
  lemma {:induction false} QuietLine(u: string, t: string)
    requires Excludes(u, '\n')
    requires u == [] || u[|u| - 1] != '\r' || t == [] || t[0] != '\n'
    ensures Quiet(u, t)
  {
    var s := u + t;
    forall j | 0 <= j < |u|
      ensures NoSeparatorAt(s, j)
    {
      assert s[j..][0] == u[j];
      if j + 1 < |u| {
        assert s[j..][1] == u[j + 1];
      } else if t != [] {
        assert s[j..][1] == t[0];
      }
    }
  }

  /** A CR LF starts no separator when the text after it cannot continue one. */
  lemma {:induction false} QuietCrlf(v: string)
    requires NoDashLine(v)
    ensures Quiet("\r\n", v)
  {
    var s := "\r\n" + v;
    assert s[0..] == s;
    assert s[2..] == v;
    assert Conv.LineBreak(s) == 2;
    NoSeparatorAfterBreak(s, 2, v);
    var s1 := s[1..];
    assert s1[1..] == v;
    assert Conv.LineBreak(s1) == 1;
    NoSeparatorAfterBreak(s1, 1, v);
  }

  /** A line break followed by text that cannot continue a separator starts none. */
  lemma NoSeparatorAfterBreak(s: string, a: nat, v: string)
    requires 0 < a <= |s| && Conv.LineBreak(s) == a && s[a..] == v && NoDashLine(v)
    ensures Conv.SeparatorLength(s) == 0
  {
    var d := RunLength(v, '-');
    if d >= 3 {
      assert v[d..][0] == v[d];
    }
  }

  lemma {:induction false} QuietConcat(u1: string, u2: string, t: string)
    requires Quiet(u1, u2 + t) && Quiet(u2, t)
    ensures Quiet(u1 + u2, t)
  {
    var s := u1 + u2 + t;
    assert s == u1 + (u2 + t);
    forall j | 0 <= j < |u1 + u2|
      ensures NoSeparatorAt(s, j)
    {
      if j < |u1| {
        assert NoSeparatorAt(u1 + (u2 + t), j);
      } else {
        assert NoSeparatorAt(u2 + t, j - |u1|);
        assert s[j..] == (u2 + t)[j - |u1|..];
      }
    }
  }

  /** A line, a CR LF and quiet text that cannot continue a separator are quiet. */
  lemma {:induction false} QuietLineBreak(l: string, r: string, t: string)
    requires Excludes(l, '\n') && Quiet(r, t) && NoDashLine(r + t)
    ensures Quiet(l + ("\r\n" + r), t)
  {
    QuietCrlf(r + t);
    assert "\r\n" + (r + t) == "\r\n" + r + t;
    QuietConcat("\r\n", r, t);
    assert ("\r\n" + r + t)[0] == '\r';
    assert "\r\n" + r + t == ("\r\n" + r) + t;
    QuietLine(l, ("\r\n" + r) + t);
    QuietConcat(l, "\r\n" + r, t);
  }

  /** Text starting with a letter cannot continue a separator. */
  lemma {:induction false} LetterFirst(v: string)
    requires v != [] && v[0] != '-' && v[0] != '\r' && v[0] != '\n'
    ensures NoDashLine(v)
  {
  }

  // ----- One written block -----

  /** Content the separator split keeps whole: not empty, trimmed, one line,
      and not starting with three or more dashes that end it or are
      followed by a carriage return. */
  predicate KeepsWhole(x: string) {
    x != [] && IsTrimmed(x) && Excludes(x, '\n') && NoDashLine(x)
  }

  /** A block whose separator cannot be mistaken for anything inside it. */
  ghost predicate Separable(b: string) {
    b != [] && IsTrimmed(b)
    && forall t {:trigger Quiet(b, t)} :: t != [] && (t[0] == '\r' || t[0] == '\n') ==> Quiet(b, t)
  }

  lemma {:induction false} ContentQuiet(x: string, t: string)
    requires KeepsWhole(x) && t != [] && (t[0] == '\r' || t[0] == '\n')
    ensures Quiet(x, t) && NoDashLine(x + t)
  {
    assert !IsWhite(x[|x| - 1]);
    QuietLine(x, t);
    RunLengthAppend(x, '-', t);
    var d := RunLength(x, '-');
    if d >= 3 {
      assert (x + t)[d] == x[d];
    }
  }

  /** A line that can neither be part of a separator nor follow one: it
      starts with something other than a dash or a line break. */
  predicate StartsLine(l: string) {
    l != [] && l[0] != '-' && l[0] != '\r' && l[0] != '\n' && Excludes(l, '\n')
  }

  /** Four labelled lines and one-line content are quiet before a line break. */
  lemma {:induction false} LinesQuiet(l0: string, l1: string, l2: string, l3: string, x: string, t: string)
    requires Excludes(l0, '\n') && StartsLine(l1) && StartsLine(l2) && StartsLine(l3)
    requires KeepsWhole(x) && t != [] && (t[0] == '\r' || t[0] == '\n')
    ensures Quiet(l0 + ("\r\n" + (l1 + ("\r\n" + (l2 + ("\r\n" + (l3 + ("\r\n" + x))))))), t)
  {
    var r2 := l3 + ("\r\n" + x);
    var r1 := l2 + ("\r\n" + r2);
    var r0 := l1 + ("\r\n" + r1);
    ContentQuiet(x, t);
    QuietLineBreak(l3, x, t);
    assert (r2 + t)[0] == l3[0];
    LetterFirst(r2 + t);
    QuietLineBreak(l2, r2, t);
    assert (r1 + t)[0] == l2[0];
    LetterFirst(r1 + t);
    QuietLineBreak(l1, r1, t);
    assert (r0 + t)[0] == l1[0];
    LetterFirst(r0 + t);
    QuietLineBreak(l0, r0, t);
  }

  /** The labelled lines of a block with one-line fields. */
  lemma {:induction false} LabelLines(f: string, c: string, h: Decimal)
    requires IsCanonical(h) && Excludes(f, '\n') && Excludes(c, '\n')
    ensures Excludes(Extract.DateLabel + f, '\n') && (Extract.DateLabel + f)[0] == 'F'
    ensures StartsLine(Extract.RatingLabel + c) && StartsLine(Extract.HoursLabel + RenderDecimal(h))
    ensures StartsLine(Extract.ContentLabel)
  {
    var r := RenderDecimal(h);
    assert forall i :: 0 <= i < |r| ==> IsDigitOrDot(r[i]);
  }

  /** A block is its labelled lines and its content, joined by CR LF. */
  lemma {:induction false} BlockShape(f: string, c: string, h: Decimal, x: string)
    requires IsCanonical(h)
    ensures var l0, l1, l2, l3 := Extract.DateLabel + f, Extract.RatingLabel + c,
                                  Extract.HoursLabel + RenderDecimal(h), Extract.ContentLabel;
            Extract.FormatearBloque(f, c, h, x)
            == l0 + ("\r\n" + (l1 + ("\r\n" + (l2 + ("\r\n" + (l3 + ("\r\n" + x)))))))
  {
    var br := Extract.BlockBreak;
    NestLines(Extract.DateLabel, f, br, Extract.RatingLabel, c, br, Extract.HoursLabel, RenderDecimal(h), br,
              Extract.ContentLabel, br, x);
  }

  /** The block's pieces regrouped line by line. */
  lemma NestLines<T>(p1: seq<T>, p2: seq<T>, p3: seq<T>, p4: seq<T>, p5: seq<T>, p6: seq<T>,
                     p7: seq<T>, p8: seq<T>, p9: seq<T>, p10: seq<T>, p11: seq<T>, p12: seq<T>)
    ensures p1 + p2 + p3 + p4 + p5 + p6 + p7 + p8 + p9 + p10 + p11 + p12
            == (p1 + p2) + (p3 + ((p4 + p5) + (p6 + ((p7 + p8) + (p9 + (p10 + (p11 + p12)))))))
  {
  }

  /** Every block the extractor writes for one-line fields and content it
      keeps whole is separable. */
  lemma {:induction false} BlockSeparable(f: string, c: string, h: Decimal, x: string)
    requires IsCanonical(h) && Excludes(f, '\n') && Excludes(c, '\n') && KeepsWhole(x)
    ensures Separable(Extract.FormatearBloque(f, c, h, x))
  {
    var l0, l1, l2, l3 := Extract.DateLabel + f, Extract.RatingLabel + c, Extract.HoursLabel + RenderDecimal(h),
                          Extract.ContentLabel;
    var b := Extract.FormatearBloque(f, c, h, x);
    BlockShape(f, c, h, x);
    LabelLines(f, c, h);
    assert b[0] == l0[0] && b[|b| - 1] == x[|x| - 1];
    forall t | t != [] && (t[0] == '\r' || t[0] == '\n')
      ensures Quiet(b, t)
    {
      LinesQuiet(l0, l1, l2, l3, x, t);
    }
  }

  /** A piece inside which the pattern does not match, followed by a match,
      splits off. */
  lemma {:induction false} PieceSplit(matchLength: string -> nat, b: string, sep: string, rest: string)
    requires forall t :: matchLength(t) <= |t|
    requires forall j :: 0 <= j < |b| ==> matchLength((b + sep + rest)[j..]) == 0
    requires matchLength(sep + rest) == |sep| > 0
    ensures Conv.SplitFrom(matchLength, b + sep + rest, 0, 0) == [b] + Conv.SplitFrom(matchLength, rest, 0, 0)
  {
    var s := b + sep + rest;
    var o := |b| + |sep|;
    ThreePieces(b, sep, rest);
    SkipThenCut(matchLength, s, |b|, o);
    SplitFromShift(matchLength, s, o, rest, 0, 0);
  }

  /** The first piece ends at the first match. */
  lemma SkipThenCut(matchLength: string -> nat, s: string, k: nat, o: nat)
    requires forall t :: matchLength(t) <= |t|
    requires k < |s| && forall j :: 0 <= j < k ==> matchLength(s[j..]) == 0
    requires matchLength(s[k..]) > 0 && o == k + matchLength(s[k..])
    ensures Conv.SplitFrom(matchLength, s, 0, 0) == [s[0..k]] + Conv.SplitFrom(matchLength, s, o, o)
  {
    SplitFromSkip(matchLength, s, 0, 0, k);
    SplitFromCut(matchLength, s, 0, k, o);
  }

  lemma ThreePieces<T>(b: seq<T>, sep: seq<T>, rest: seq<T>)
    ensures (b + sep + rest)[|b|..] == sep + rest && (b + sep + rest)[0..|b|] == b
    ensures (b + sep + rest)[|b| + |sep|..] == rest
  {
  }

  lemma EntryPieces<T>(b: seq<T>, nl: seq<T>, d: seq<T>, rest: seq<T>)
    ensures b + nl + d + nl + rest == b + (nl + d + nl) + rest == b + ((nl + d + nl) + rest)
  {
  }

  /** One entry splits off as its block. */
  lemma {:induction false} EntrySplit(b: string, newline: string, rest: string)
    requires Separable(b) && IsNewline(newline)
    ensures Conv.SplitOnSeparators(Extract.Entry(b, newline) + rest) == [b] + Conv.SplitOnSeparators(rest)
  {
    var sep := Separator(newline);
    EntryPieces(b, newline, Extract.Dashes, rest);
    assert (sep + rest)[0] == newline[0];
    assert Quiet(b, sep + rest);
    SeparatorMatches(newline, rest);
    var s := b + sep + rest;
    forall j | 0 <= j < |b|
      ensures Conv.SeparatorLength(s[j..]) == 0
    {
      assert NoSeparatorAt(b + (sep + rest), j);
    }
    PieceSplit(Conv.SeparatorLength, b, sep, rest);
  }

  // ----- A whole file -----

  /** The entries of blocks written one after the other. */
  function EntriesOf(bs: seq<string>, newline: string): (t: string)
    decreases |bs|
  {
    if bs == [] then "" else Extract.Entry(bs[0], newline) + EntriesOf(bs[1..], newline)
  }

  lemma {:induction false} EntriesOfSnoc(bs: seq<string>, b: string, newline: string)
    ensures EntriesOf(bs + [b], newline) == EntriesOf(bs, newline) + Extract.Entry(b, newline)
    decreases |bs|
  {
    if bs == [] {
      assert [] + [b] == [b];
      assert [b][1..] == [];
    } else {
      assert (bs + [b])[1..] == bs[1..] + [b];
      EntriesOfSnoc(bs[1..], b, newline);
    }
  }

  /** The converter's split of written entries: the blocks, and the empty
      text after the last separator. */
  lemma {:induction false} SplitEntries(bs: seq<string>, newline: string)
    requires IsNewline(newline)
    requires forall k :: 0 <= k < |bs| ==> Separable(bs[k])
    ensures Conv.SplitOnSeparators(EntriesOf(bs, newline)) == bs + [""]
    decreases |bs|
  {
    if bs == [] {
      assert Conv.SplitOnSeparators("") == [""];
    } else {
      EntrySplit(bs[0], newline, EntriesOf(bs[1..], newline));
      SplitEntries(bs[1..], newline);
      assert bs == [bs[0]] + bs[1..];
    }
  }

  /** Trimming drops only the empty last piece. */
  lemma {:induction false} TrimmedNonBlankOf(bs: seq<string>)
    requires forall k :: 0 <= k < |bs| ==> bs[k] != [] && IsTrimmed(bs[k])
    ensures Conv.TrimmedNonBlank(bs + [""]) == bs
    decreases |bs|
  {
    if bs == [] {
      TrimBlank("");
      assert Conv.TrimmedNonBlank([""][1..]) == [];
    } else {
      var b, tail := bs[0], bs[1..];
      HeadTail(bs, [""]);
      TrimmedNonBlankCons(b, tail + [""]);
      TrimmedNonBlankOf(tail);
    }
  }

  /** A non-empty trimmed piece is kept as it is. */
  lemma TrimmedNonBlankCons(b: string, rest: seq<string>)
    requires b != [] && IsTrimmed(b)
    ensures Conv.TrimmedNonBlank([b] + rest) == [b] + Conv.TrimmedNonBlank(rest)
  {
    TrimOfTrimmed(b);
    assert !IsWhite(b[0]);
    assert ([b] + rest)[1..] == rest;
  }

  lemma HeadTail<T>(xs: seq<T>, ys: seq<T>)
    requires xs != []
    ensures xs + ys == [xs[0]] + (xs[1..] + ys) && xs == [xs[0]] + xs[1..]
  {
  }

  /** The converter finds exactly the blocks written, in order. */
  lemma {:induction false} BlocksOfEntries(bs: seq<string>, newline: string)
    requires IsNewline(newline)
    requires forall k :: 0 <= k < |bs| ==> Separable(bs[k])
    ensures Conv.Blocks(EntriesOf(bs, newline)) == bs
  {
    SplitEntries(bs, newline);
    TrimmedNonBlankOf(bs);
  }

  // ----- The extractor's files -----

  /** The blocks of the cards written to a file: all of them, or those of one bucket. */
  function WrittenBlocks(cs: seq<Extract.Card>, b: Option<Extract.Bucket>): (bs: seq<string>)
    requires Extract.AllReadable(cs)
    ensures |bs| <= |cs|
    ensures b.None? ==> |bs| == |cs| && forall k :: 0 <= k < |cs| ==> bs[k] == cs[k].block.value
    decreases |cs|
  {
    if cs == [] then []
    else
      var init := cs[..|cs| - 1];
      var last := cs[|cs| - 1];
      assert forall i :: 0 <= i < |init| ==> init[i] == cs[i];
      WrittenBlocks(init, b) + (if b.None? || b == Some(last.bucket) then [last.block.value] else [])
  }

  /** A file of the extractor is the entries of its blocks. */
  lemma {:induction false} FileIsEntries(cs: seq<Extract.Card>, b: Option<Extract.Bucket>, newline: string)
    requires Extract.AllReadable(cs)
    ensures Extract.EntriesText(cs, b, newline) == EntriesOf(WrittenBlocks(cs, b), newline)
    decreases |cs|
  {
    if cs != [] {
      var init := cs[..|cs| - 1];
      var last := cs[|cs| - 1];
      assert forall i :: 0 <= i < |init| ==> init[i] == cs[i];
      FileIsEntries(init, b, newline);
      if b.None? || b == Some(last.bucket) {
        EntriesOfSnoc(WrittenBlocks(init, b), last.block.value, newline);
      } else {
        calc {
          Extract.EntriesText(cs, b, newline);
          Extract.EntriesText(init, b, newline) + "";
          EntriesOf(WrittenBlocks(init, b), newline);
          { assert WrittenBlocks(cs, b) == WrittenBlocks(init, b) + [] == WrittenBlocks(init, b); }
          EntriesOf(WrittenBlocks(cs, b), newline);
        }
      }
    }
  }

  /** The fields of a card that the separator split keeps whole. */
  predicate CardKeepsWhole(n: Extract.ReviewNode) {
    && Extract.NodeBlock(n).Ok?
    && Excludes(Extract.ParseDate(Extract.TrimmedText(n.datePosted)).value, '\n')
    && Excludes(Extract.TrimmedText(n.title), '\n')
    && KeepsWhole(Extract.Content(n))
  }

  lemma {:induction false} CardSeparable(n: Extract.ReviewNode)
    requires CardKeepsWhole(n)
    ensures Separable(Extract.NodeBlock(n).value)
  {
    BlockRoundTrip.NodeBlockOf(n);
    BlockSeparable(Extract.ParseDate(Extract.TrimmedText(n.datePosted)).value, Extract.TrimmedText(n.title),
                   Extract.ParseHours(Extract.TrimmedText(n.hours)), Extract.Content(n));
  }

  /** Every file the extractor writes, all_reviews.txt or one of the split
      files, is read by the converter as the blocks of its cards, in order. */
  lemma {:induction false} FileBlocks(nodes: seq<Extract.ReviewNode>, b: Option<Extract.Bucket>, newline: string)
    requires IsNewline(newline)
    requires forall k :: 0 <= k < |nodes| ==> CardKeepsWhole(nodes[k])
    ensures Extract.AllReadable(Extract.Cards(nodes))
    ensures Conv.Blocks(Extract.EntriesText(Extract.Cards(nodes), b, newline))
            == WrittenBlocks(Extract.Cards(nodes), b)
  {
    var cs := Extract.Cards(nodes);
    forall k | 0 <= k < |cs|
      ensures cs[k].block.Ok? && Separable(cs[k].block.value)
    {
      Extract.CardsAt(nodes, k);
      CardSeparable(nodes[k]);
    }
    SeparableWritten(cs, b);
    FileIsEntries(cs, b, newline);
    BlocksOfEntries(WrittenBlocks(cs, b), newline);
  }

  lemma {:induction false} SeparableWritten(cs: seq<Extract.Card>, b: Option<Extract.Bucket>)
    requires Extract.AllReadable(cs)
    requires forall k :: 0 <= k < |cs| ==> Separable(cs[k].block.value)
    ensures forall k :: 0 <= k < |WrittenBlocks(cs, b)| ==> Separable(WrittenBlocks(cs, b)[k])
    decreases |cs|
  {
    if cs != [] {
      var init := cs[..|cs| - 1];
      assert forall i :: 0 <= i < |init| ==> init[i] == cs[i];
      SeparableWritten(init, b);
    }
  }

  /** The CSV the converter makes of all_reviews.txt has the header and one
      row per review, in the order of the page, and row `k` reads back, with
      ';' as the separator, as five values: a date, then review `k`'s rating,
      its hours as the same number, the language of its content and its
      content as read from the page, cleaned of markup once more. */
  lemma {:induction false} AllFileRows(nodes: seq<Extract.ReviewNode>, newline: string, currentYear: int,
                                           free: DateNormalizer.FreeParse, k: nat)
    requires IsNewline(newline)
    requires forall k :: 0 <= k < |nodes| ==> CardKeepsWhole(nodes[k])
    requires k < |nodes|
    ensures Extract.AllReadable(Extract.Cards(nodes))
    ensures var lines := Conv.CsvLines(Extract.EntriesText(Extract.Cards(nodes), None, newline), currentYear, free, newline);
            var n := nodes[k];
            var content := Conv.StripHtml(Extract.Content(n));
            && |lines| == |nodes| + 1 && lines[0] == Conv.Header
            && CsvFormat.ReadRow(lines[k + 1]).Some?
            && |CsvFormat.ReadRow(lines[k + 1]).value| == 5
            && CsvFormat.ReadRow(lines[k + 1]).value[1..]
               == [Extract.TrimmedText(n.title), RenderDecimal(Extract.ParseHours(Extract.TrimmedText(n.hours))),
                   DetectLanguage(content), content]
  {
    FileRow(nodes, newline, currentYear, free, k);
    var n := nodes[k];
    var block := Extract.NodeBlock(n).value;
    Conv.RowReadsBack(block, currentYear, free, newline);
    BlockRoundTrip.CardRow(n, currentYear, free, newline);
  }

  /** Line `k + 1` of the CSV of all_reviews.txt is the row of review `k`'s block. */
  lemma FileRow(nodes: seq<Extract.ReviewNode>, newline: string, currentYear: int,
                free: DateNormalizer.FreeParse, k: nat)
    requires IsNewline(newline)
    requires forall k :: 0 <= k < |nodes| ==> CardKeepsWhole(nodes[k])
    requires k < |nodes|
    ensures Extract.AllReadable(Extract.Cards(nodes))
    ensures Extract.NodeBlock(nodes[k]).Ok?
    ensures Excludes(Extract.ParseDate(Extract.TrimmedText(nodes[k].datePosted)).value, '\n')
    ensures Excludes(Extract.TrimmedText(nodes[k].title), '\n')
    ensures var lines := Conv.CsvLines(Extract.EntriesText(Extract.Cards(nodes), None, newline), currentYear, free, newline);
            && |lines| == |nodes| + 1 && lines[0] == Conv.Header
            && lines[k + 1] == Conv.Row(Extract.NodeBlock(nodes[k]).value, currentYear, free, newline)
  {
    var cs := Extract.Cards(nodes);
    FileBlocks(nodes, None, newline);
    var text := Extract.EntriesText(cs, None, newline);
    var bs := WrittenBlocks(cs, None);
    assert Conv.Blocks(text) == bs;
    Extract.CardsAt(nodes, k);
    assert CardKeepsWhole(nodes[k]);
    assert bs[k] == Extract.NodeBlock(nodes[k]).value;
    Conv.CsvLinesRow(text, currentYear, free, newline, k);
  }
}
