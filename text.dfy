/** Character classes and string operations of the .NET base library that the
    scraper and the converter rely on: whitespace trimming, ordinal
    case-insensitive comparison, splitting and replacing. */
module Text {

  /** `char.IsWhiteSpace`: the Unicode space separators plus the ASCII and
      Latin-1 control whitespace. The regex class `\s` is taken to be the same set. */
  predicate IsWhite(c: char) {
    c == ' ' || ('\t' <= c <= '\r') || c == '\U{0085}' || c == '\U{00A0}' || c == '\U{1680}'
    || ('\U{2000}' <= c <= '\U{200A}') || c == '\U{2028}' || c == '\U{2029}' || c == '\U{202F}'
    || c == '\U{205F}' || c == '\U{3000}'
  }

  /** `string.IsNullOrWhiteSpace` of a non-null string. */
  predicate IsBlank(s: string) {
    forall i :: 0 <= i < |s| ==> IsWhite(s[i])
  }

  /** `c` does not occur in `s`. */
  predicate Excludes(s: string, c: char) {
    forall i :: 0 <= i < |s| ==> s[i] != c
  }

  /** No newline or carriage return: a string that `WriteLine` emits as one line. */
  predicate IsSingleLine(s: string) {
    forall i :: 0 <= i < |s| ==> s[i] != '\n' && s[i] != '\r'
  }

  /** The values `Environment.NewLine` takes: "\n" on Unix, "\r\n" on Windows. */
  predicate IsNewline(newline: string) {
    newline == "\n" || newline == "\r\n"
  }

  lemma NewlineIsBlank(newline: string)
    requires IsNewline(newline)
    ensures IsBlank(newline)
  {
  }

  predicate IsAsciiDigit(c: char) {
    '0' <= c <= '9'
  }

  predicate AllDigits(s: string) {
    forall i :: 0 <= i < |s| ==> IsAsciiDigit(s[i])
  }

  predicate IsAscii(c: char) {
    c as int <= 0x7F
  }

  /** Letters in the sense of `\p{L}`, restricted to the scripts the program
      meets: ASCII, Latin-1 and Latin Extended-A/B, Greek, Cyrillic, CJK,
      Kana and Hangul. */
  predicate IsLetter(c: char) {
    ('a' <= c <= 'z') || ('A' <= c <= 'Z') || c == '\U{00AA}' || c == '\U{00B5}' || c == '\U{00BA}'
    || ('\U{00C0}' <= c <= '\U{024F}' && c != '\U{00D7}' && c != '\U{00F7}')
    || ('\U{0370}' <= c <= '\U{03FF}') || ('\U{0400}' <= c <= '\U{04FF}')
    || ('\U{1100}' <= c <= '\U{11FF}') || ('\U{3040}' <= c <= '\U{30FF}') || ('\U{3130}' <= c <= '\U{318F}')
    || ('\U{3400}' <= c <= '\U{4DBF}') || ('\U{4E00}' <= c <= '\U{9FFF}') || ('\U{AC00}' <= c <= '\U{D7AF}')
  }

  /** The regex class `\w`: letters, digits and the underscore. */
  predicate IsWordChar(c: char) {
    IsLetter(c) || IsAsciiDigit(c) || c == '_'
  }

  /** Invariant lower-casing of one character, for ASCII and Latin-1 capitals. */
  function Lower(c: char): (r: char)
    ensures IsAscii(c) <==> IsAscii(r)
    ensures IsLetter(c) <==> IsLetter(r)
  {
    if 'A' <= c <= 'Z' || ('\U{00C0}' <= c <= '\U{00DE}' && c != '\U{00D7}') then (c as int + 32) as char
    else c
  }

  /** `ToLowerInvariant`. */
  function ToLower(s: string): (r: string)
    ensures |r| == |s|
    ensures forall i :: 0 <= i < |s| ==> r[i] == Lower(s[i])
  {
    seq(|s|, i requires 0 <= i < |s| => Lower(s[i]))
  }

  /** `string.Equals(a, b, StringComparison.OrdinalIgnoreCase)`. */
  predicate EqualsIgnoreCase(a: string, b: string) {
    ToLower(a) == ToLower(b)
  }

  /** `s.StartsWith(p, StringComparison.OrdinalIgnoreCase)`. */
  predicate StartsWithIgnoreCase(s: string, p: string) {
    |p| <= |s| && EqualsIgnoreCase(s[..|p|], p)
  }

  /** A case-insensitive prefix fixes each character up to case. */
  lemma StartsWithIgnoreCaseChars(t: string, p: string)
    requires StartsWithIgnoreCase(t, p)
    ensures forall k :: 0 <= k < |p| ==> Lower(t[k]) == Lower(p[k])
  {
    forall k | 0 <= k < |p|
      ensures Lower(t[k]) == Lower(p[k])
    {
      assert ToLower(t[..|p|])[k] == ToLower(p)[k];
    }
  }

  /** Ordinal substring containment. */
  predicate Contains(s: string, p: string)
    decreases |s|
  {
    p <= s || (s != [] && Contains(s[1..], p))
  }

  /** The number of whitespace characters `s` starts with. */
  function LeadingWhite(s: string): (n: nat)
    ensures n <= |s|
    ensures forall k :: 0 <= k < n ==> IsWhite(s[k])
    ensures n == |s| || !IsWhite(s[n])
    decreases |s|
  {
    if s != [] && IsWhite(s[0]) then 1 + LeadingWhite(s[1..]) else 0
  }

  /** `TrimStart()`: drop the leading whitespace. */
  function TrimStart(s: string): (r: string)
    ensures |r| <= |s| && r == s[|s| - |r|..]
    ensures r == [] || !IsWhite(r[0])
    ensures forall i :: 0 <= i < |s| - |r| ==> IsWhite(s[i])
  {
    s[LeadingWhite(s)..]
  }

  /** `TrimEnd()`: drop the trailing whitespace. */
  function TrimEnd(s: string): (r: string)
    ensures |r| <= |s| && r == s[..|r|]
    ensures r == [] || !IsWhite(r[|r| - 1])
    ensures forall i :: |r| <= i < |s| ==> IsWhite(s[i])
    decreases |s|
  {
    if s != [] && IsWhite(s[|s| - 1]) then TrimEnd(s[..|s| - 1]) else s
  }

  /** `new string(c, n)`: `n` copies of `c`. */
  function Repeat(c: char, n: nat): (r: string)
    ensures |r| == n
    ensures forall i :: 0 <= i < n ==> r[i] == c
  {
    if n == 0 then [] else Repeat(c, n - 1) + [c]
  }

  /** No whitespace at either end. */
  predicate IsTrimmed(s: string) {
    s == [] || (!IsWhite(s[0]) && !IsWhite(s[|s| - 1]))
  }

  /** `Trim()`: the longest slice of `s` with no whitespace at either end,
      obtained by removing only whitespace. */
  function Trim(s: string): (r: string)
    ensures IsTrimmed(r)
    ensures LeadingWhite(s) + |r| <= |s| && r == s[LeadingWhite(s)..LeadingWhite(s) + |r|]
    ensures forall k :: LeadingWhite(s) + |r| <= k < |s| ==> IsWhite(s[k])
  {
    TrimEnd(TrimStart(s))
  }

  lemma TrimStartOfTrimmed(s: string)
    requires s == [] || !IsWhite(s[0])
    ensures TrimStart(s) == s
  {
  }

  lemma TrimEndOfTrimmed(s: string)
    requires s == [] || !IsWhite(s[|s| - 1])
    ensures TrimEnd(s) == s
  {
  }

  /** Trimming a string that is already trimmed changes nothing. */
  lemma TrimOfTrimmed(s: string)
    requires IsTrimmed(s)
    ensures Trim(s) == s
  {
    TrimStartOfTrimmed(s);
    TrimEndOfTrimmed(s);
  }

  lemma {:induction false} TrimStartAllWhite(s: string)
    requires IsBlank(s)
    ensures TrimStart(s) == []
    decreases |s|
  {
    if s != [] {
      TrimStartAllWhite(s[1..]);
      assert TrimStart(s[1..]) == s[1..][LeadingWhite(s[1..])..];
    }
  }

  /** A blank string trims to the empty string and only a blank one does. */
  lemma TrimBlank(s: string)
    ensures Trim(s) == [] <==> IsBlank(s)
  {
    if IsBlank(s) {
      TrimStartAllWhite(s);
    }
  }

  /** Leading whitespace before a trimmed string is all that `Trim` removes. */
  lemma {:induction false} TrimAfterWhite(w: string, s: string)
    requires IsBlank(w) && IsTrimmed(s)
    ensures Trim(w + s) == s
    decreases |w|
  {
    if w == [] {
      assert w + s == s;
      TrimOfTrimmed(s);
    } else {
      assert (w + s)[1..] == w[1..] + s;
      TrimAfterWhite(w[1..], s);
    }
  }

  /** Trailing whitespace after a trimmed string is all that `Trim` removes. */
  lemma {:induction false} TrimBeforeWhite(s: string, w: string)
    requires IsBlank(w) && IsTrimmed(s)
    ensures Trim(s + w) == s
    decreases |w|
  {
    if w == [] {
      assert s + w == s;
      TrimOfTrimmed(s);
    } else if s == [] {
      assert s + w == w;
      TrimBlank(w);
    } else {
      var w' := w[..|w| - 1];
      assert (s + w)[..|s + w| - 1] == s + w';
      assert TrimStart(s + w) == s + w;
      assert TrimStart(s + w') == s + w';
      TrimBeforeWhite(s, w');
    }
  }

  /** The number of copies of `c` that `t` starts with. */
  function RunLength(t: string, c: char): (n: nat)
    ensures n <= |t|
    ensures forall i :: 0 <= i < n ==> t[i] == c
    ensures n == |t| || t[n] != c
    decreases |t|
  {
    if t != [] && t[0] == c then 1 + RunLength(t[1..], c) else 0
  }

  /** A run of `c` followed by something else is counted exactly. */
  lemma {:induction false} RunLengthOf(run: string, c: char, rest: string)
    requires forall i :: 0 <= i < |run| ==> run[i] == c
    requires rest == [] || rest[0] != c
    ensures RunLength(run + rest, c) == |run|
    decreases |run|
  {
    if run == [] {
      assert run + rest == rest;
    } else {
      assert (run + rest)[1..] == run[1..] + rest;
      RunLengthOf(run[1..], c, rest);
    }
  }

  /** A run is not lengthened by text that does not start with its character. */
  lemma {:induction false} RunLengthAppend(u: string, c: char, t: string)
    requires t == [] || t[0] != c
    ensures RunLength(u + t, c) == RunLength(u, c)
    decreases |u|
  {
    if u != [] {
      assert (u + t)[1..] == u[1..] + t;
      RunLengthAppend(u[1..], c, t);
    } else {
      assert u + t == t;
    }
  }

  /** Trimming removes characters and adds none. */
  lemma TrimExcludes(s: string, c: char)
    requires Excludes(s, c)
    ensures Excludes(Trim(s), c)
  {
    var r := Trim(s);
    var l := LeadingWhite(s);
    forall i | 0 <= i < |r|
      ensures r[i] != c
    {
      assert r[i] == s[l + i];
    }
  }

  /** Leading whitespace is counted within a non-blank prefix. */
  lemma {:induction false} LeadingWhiteAppend(s: string, w: string)
    requires !IsBlank(s)
    ensures LeadingWhite(s + w) == LeadingWhite(s)
    decreases |s|
  {
    if IsWhite(s[0]) {
      assert (s + w)[1..] == s[1..] + w;
      LeadingWhiteAppend(s[1..], w);
    }
  }

  lemma {:induction false} TrimEndAppendWhite(u: string, w: string)
    requires IsBlank(w)
    ensures TrimEnd(u + w) == TrimEnd(u)
    decreases |w|
  {
    if w == [] {
      assert u + w == u;
    } else {
      assert (u + w)[..|u + w| - 1] == u + w[..|w| - 1];
      TrimEndAppendWhite(u, w[..|w| - 1]);
    }
  }

  /** Whitespace appended to any text does not change its trimmed form. */
  lemma TrimAppendWhite(s: string, w: string)
    requires IsBlank(w)
    ensures Trim(s + w) == Trim(s)
  {
    if IsBlank(s) {
      assert IsBlank(s + w);
      TrimBlank(s);
      TrimBlank(s + w);
    } else {
      var l := LeadingWhite(s);
      LeadingWhiteAppend(s, w);
      assert (s + w)[l..] == s[l..] + w;
      TrimEndAppendWhite(s[l..], w);
    }
  }

  /** Trimming removes exactly the whitespace around a trimmed core. */
  lemma TrimAround(w1: string, r: string, w2: string)
    requires IsBlank(w1) && IsTrimmed(r) && IsBlank(w2)
    ensures Trim(w1 + r + w2) == r
  {
    TrimAppendWhite(w1 + r, w2);
    TrimAfterWhite(w1, r);
  }

  /** `String.Split(char)`: the pieces between occurrences of `sep`, empty pieces kept. */
  function SplitOn(s: string, sep: char): (parts: seq<string>)
    ensures |parts| >= 1
    ensures forall k :: 0 <= k < |parts| ==> Excludes(parts[k], sep)
    decreases |s|
  {
    if s == [] then [""]
    else
      var rest := SplitOn(s[1..], sep);
      if s[0] == sep then [""] + rest else [[s[0]] + rest[0]] + rest[1..]
  }

  /** A text without the separator is one piece. */
  lemma {:induction false} SplitOnNone(s: string, sep: char)
    requires Excludes(s, sep)
    ensures SplitOn(s, sep) == [s]
    decreases |s|
  {
    if s != [] {
      SplitOnNone(s[1..], sep);
      assert [s[0]] + s[1..] == s;
    }
  }

  /** A piece without the separator, then the separator: the first piece
      splits off. */
  lemma {:induction false} SplitOnCons(a: string, sep: char, b: string)
    requires Excludes(a, sep)
    ensures SplitOn(a + [sep] + b, sep) == [a] + SplitOn(b, sep)
    decreases |a|
  {
    if a == [] {
      assert a + [sep] + b == [sep] + b;
      assert ([sep] + b)[1..] == b;
    } else {
      assert (a + [sep] + b)[1..] == a[1..] + [sep] + b;
      SplitOnCons(a[1..], sep, b);
      assert [a[0]] + a[1..] == a;
    }
  }

  /** `String.Join(sep, parts)`. */
  function Join(parts: seq<string>, sep: string): (r: string)
    decreases |parts|
  {
    if parts == [] then ""
    else if |parts| == 1 then parts[0]
    else parts[0] + sep + Join(parts[1..], sep)
  }

  /** Splitting on a character and joining with it again gives back the input. */
  lemma {:induction false} SplitOnJoin(s: string, sep: char)
    ensures Join(SplitOn(s, sep), [sep]) == s
    decreases |s|
  {
    if s != [] {
      SplitOnJoin(s[1..], sep);
      var rest := SplitOn(s[1..], sep);
      if s[0] == sep {
        assert [sep] + Join(rest, [sep]) == s;
      } else if |rest| == 1 {
        assert Join(SplitOn(s, sep), [sep]) == [s[0]] + rest[0];
      } else {
        assert Join(rest, [sep]) == rest[0] + [sep] + Join(rest[1..], [sep]);
        assert [s[0]] + rest[0] + [sep] + Join(rest[1..], [sep]) == [s[0]] + Join(rest, [sep]);
      }
    }
  }

  /** `block.Split(new[] { "\r\n", "\n" }, StringSplitOptions.None)`: lines
      ended by CR LF or by LF; a lone CR stays inside its line. */
  function SplitLines(s: string): (lines: seq<string>)
    ensures |lines| >= 1
    ensures forall k :: 0 <= k < |lines| ==> Excludes(lines[k], '\n')
    decreases |s|
  {
    if s == [] then [""]
    else if s[0] == '\n' then [""] + SplitLines(s[1..])
    else if |s| >= 2 && s[0] == '\r' && s[1] == '\n' then [""] + SplitLines(s[2..])
    else
      var rest := SplitLines(s[1..]);
      [[s[0]] + rest[0]] + rest[1..]
  }

  /** A single line splits to itself. */
  lemma {:induction false} SplitLinesOne(l: string)
    requires IsSingleLine(l)
    ensures SplitLines(l) == [l]
    decreases |l|
  {
    if l != [] {
      SplitLinesOne(l[1..]);
      assert [l[0]] + l[1..] == l;
    }
  }

  /** A single line followed by LF splits off as the first line. */
  lemma {:induction false} SplitLinesCons(l: string, rest: string)
    requires IsSingleLine(l)
    ensures SplitLines(l + "\n" + rest) == [l] + SplitLines(rest)
    decreases |l|
  {
    if l == [] {
      assert l + "\n" + rest == "\n" + rest;
      assert ("\n" + rest)[1..] == rest;
    } else {
      assert (l + "\n" + rest)[1..] == l[1..] + "\n" + rest;
      SplitLinesCons(l[1..], rest);
      assert [l[0]] + l[1..] == l;
    }
  }

  /** A line without LF splits to itself, a lone CR included. */
  lemma {:induction false} SplitLinesNoLineFeed(l: string)
    requires Excludes(l, '\n')
    ensures SplitLines(l) == [l]
    decreases |l|
  {
    if l != [] {
      SplitLinesNoLineFeed(l[1..]);
      assert [l[0]] + l[1..] == l;
    }
  }

  /** A line without LF followed by CR LF splits off as the first line. */
  lemma {:induction false} SplitLinesCrlf(l: string, rest: string)
    requires Excludes(l, '\n')
    ensures SplitLines(l + "\r\n" + rest) == [l] + SplitLines(rest)
    decreases |l|
  {
    var s := l + "\r\n" + rest;
    if l == [] {
      assert s == "\r\n" + rest;
      assert s[2..] == rest;
    } else {
      assert s[1..] == l[1..] + "\r\n" + rest;
      assert s[1] != '\n';
      SplitLinesCrlf(l[1..], rest);
      assert [l[0]] + l[1..] == l;
    }
  }

  /** Ordinal (or ordinal case-insensitive) `Replace(pat, rep)`: every
      occurrence, found left to right without overlap, is replaced. */
  function ReplaceAll(s: string, pat: string, rep: string, ignoreCase: bool): (r: string)
    requires pat != []
    ensures |rep| <= |pat| ==> |r| <= |s|
    decreases |s|
  {
    if |s| < |pat| then s
    else if (if ignoreCase then EqualsIgnoreCase(s[..|pat|], pat) else s[..|pat|] == pat)
    then rep + ReplaceAll(s[|pat|..], pat, rep, ignoreCase)
    else [s[0]] + ReplaceAll(s[1..], pat, rep, ignoreCase)
  }

  /** A string without an occurrence of the pattern is left as it is. */
  lemma {:induction false} ReplaceAllAbsent(s: string, pat: string, rep: string)
    requires pat != [] && !Contains(s, pat)
    ensures ReplaceAll(s, pat, rep, false) == s
    decreases |s|
  {
    if |s| >= |pat| {
      ReplaceAllAbsent(s[1..], pat, rep);
      assert [s[0]] + s[1..] == s;
    }
  }

  /** Nothing is replaced in a text that lacks one of the pattern's
      characters (in either case, when case is ignored). */
  lemma {:induction false} ReplaceAllMissing(s: string, pat: string, rep: string, ignoreCase: bool, k: nat)
    requires pat != [] && k < |pat|
    requires forall i :: 0 <= i < |s| ==> s[i] != pat[k] && (ignoreCase ==> Lower(s[i]) != Lower(pat[k]))
    ensures ReplaceAll(s, pat, rep, ignoreCase) == s
    decreases |s|
  {
    if |s| >= |pat| {
      var head := s[..|pat|];
      assert head[k] != pat[k];
      if ignoreCase {
        assert ToLower(head)[k] != ToLower(pat)[k];
      }
      ReplaceAllMissing(s[1..], pat, rep, ignoreCase, k);
      assert [s[0]] + s[1..] == s;
    }
  }

  /** An occurrence at the start is replaced, and the scan goes on after it. */
  lemma ReplaceAllFirst(pat: string, t: string, rep: string)
    requires pat != []
    ensures ReplaceAll(pat + t, pat, rep, false) == rep + ReplaceAll(t, pat, rep, false)
  {
    assert (pat + t)[..|pat|] == pat && (pat + t)[|pat|..] == t;
  }

  /** `s.Replace(from, to)` for characters: every occurrence replaced, nothing else touched. */
  function ReplaceChar(s: string, from: char, to: char): (r: string)
    ensures |r| == |s|
    ensures forall i :: 0 <= i < |s| ==> r[i] == (if s[i] == from then to else s[i])
  {
    seq(|s|, i requires 0 <= i < |s| => if s[i] == from then to else s[i])
  }

  /** `s.Trim(c)`: drop every leading and trailing occurrence of `c`. */
  function TrimChar(s: string, c: char): (r: string)
    ensures |r| <= |s|
    ensures r == [] || (r[0] != c && r[|r| - 1] != c)
    decreases |s|
  {
    if s == [] then s
    else if s[0] == c then TrimChar(s[1..], c)
    else if s[|s| - 1] == c then TrimChar(s[..|s| - 1], c)
    else s
  }
}
