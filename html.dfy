/** The regular-expression rewrites the program applies to review markup,
    each as a left-to-right scan that replaces non-overlapping matches, and a
    small character-reference table standing in for the HTML decoders of
    HtmlAgilityPack (`DeEntitize`) and of the base library (`HtmlDecode`). */
module Html {
  import opened Text
  import opened Wrappers

  // Length of a match of `<br\s*/?>` (ignoring case) at the start of `t`, or 0.
  function BrTagLength(t: string): (n: nat)
    ensures n <= |t|
    ensures n > 0 ==> n >= 4 && t[0] == '<'
    ensures n > 0 ==> Lower(t[1]) == 'b' && Lower(t[2]) == 'r' && t[n - 1] == '>'
    ensures n > 0 ==> forall i :: 3 <= i < n - 1 ==> IsWhite(t[i]) || (i == n - 2 && t[i] == '/')
  {
    if |t| >= 4 && t[0] == '<' && Lower(t[1]) == 'b' && Lower(t[2]) == 'r' then
      var j := 3 + LeadingWhite(t[3..]);
      if j < |t| && t[j] == '>' then j + 1
      else if j + 1 < |t| && t[j] == '/' && t[j + 1] == '>' then j + 2
      else 0
    else 0
  }

  // `Regex.Replace(s, @"<br\s*/?>", "\n", RegexOptions.IgnoreCase)`.
  function ReplaceBr(s: string): (r: string)
    ensures Excludes(s, '<') ==> r == s
    decreases |s|
  {
    if s == [] then s
    else
      var n := BrTagLength(s);
      if n > 0 then "\n" + ReplaceBr(s[n..]) else [s[0]] + ReplaceBr(s[1..])
  }

  /** Where the lazy `.*?` of `<.*?>` stops: one past the first `>` at or after
      `j`, or 0 when a line feed or the end comes first. */
  function TagEnd(t: string, j: nat): (k: nat)
    requires j <= |t|
    ensures k == 0 || (j < k <= |t| && t[k - 1] == '>')
    decreases |t| - j
  {
    if j == |t| || t[j] == '\n' then 0
    else if t[j] == '>' then j + 1
    else TagEnd(t, j + 1)
  }

  /** Length of a match of `<.*?>` at the start of `t`, or 0. */
  function TagLength(t: string): (n: nat)
    ensures n <= |t|
    ensures n > 0 ==> n >= 2 && t[0] == '<' && t[n - 1] == '>'
  {
    if t != [] && t[0] == '<' then TagEnd(t, 1) else 0
  }

  /** `Regex.Replace(s, "<.*?>", "")`: every tag that closes on its own line is removed. */
  function StripTags(s: string): (r: string)
    ensures |r| <= |s|
    ensures Excludes(s, '<') ==> r == s
    ensures Excludes(s, '\n') ==> Excludes(r, '\n')
    decreases |s|
  {
    if s == [] then s
    else
      var n := TagLength(s);
      if n > 0 then
        assert !Excludes(s, '<') by { assert s[0] == '<'; }
        ExcludesSuffix(s, n, '\n');
        StripTags(s[n..])
      else
        ExcludesSuffix(s, 1, '\n');
        ExcludesSuffix(s, 1, '<');
        [s[0]] + StripTags(s[1..])
  }

  lemma ExcludesSuffix(s: string, k: nat, c: char)
    requires k <= |s|
    ensures Excludes(s, c) ==> Excludes(s[k..], c)
  {
    if Excludes(s, c) {
      forall i | 0 <= i < |s| - k
        ensures s[k..][i] != c
      {
        assert s[k..][i] == s[k + i];
      }
    }
  }

  /** Length of a match of `\r?\n+` at the start of `t`, or 0. */
  function NewlineRunLength(t: string): (n: nat)
    ensures n <= |t|
    ensures t != [] && t[0] == '\n' ==> n > 0
    ensures n > 0 ==> (t[0] == '\n' || t[0] == '\r')
    ensures n == |t| || t[n] != '\n'
  {
    if |t| >= 2 && t[0] == '\r' && t[1] == '\n' then 1 + RunLength(t[1..], '\n') else RunLength(t, '\n')
  }

  /** `Regex.Replace(s, @"\r?\n+", " ")`: every run of line feeds, with the
      carriage return before it, becomes one space. */
  function CollapseNewlines(s: string): (r: string)
    decreases |s|
  {
    if s == [] then s
    else
      var n := NewlineRunLength(s);
      if n > 0 then " " + CollapseNewlines(s[n..]) else [s[0]] + CollapseNewlines(s[1..])
  }

  /** No line feed survives the collapse, the result is no longer than the
      input, and text without line feeds is left as it is. */
  lemma {:induction false} CollapseNewlinesFacts(s: string)
    ensures Excludes(CollapseNewlines(s), '\n')
    ensures |CollapseNewlines(s)| <= |s|
    ensures Excludes(s, '\n') ==> CollapseNewlines(s) == s
    decreases |s|
  {
    if s != [] {
      var n := NewlineRunLength(s);
      if n > 0 {
        CollapseNewlinesFacts(s[n..]);
      } else {
        CollapseNewlinesFacts(s[1..]);
        if Excludes(s, '\n') {
          assert Excludes(s[1..], '\n');
          assert [s[0]] + s[1..] == s;
        }
      }
    }
  }

  /** A non-empty run of line feeds. */
  predicate IsLineFeedRun(run: string) {
    run != [] && forall i :: 0 <= i < |run| ==> run[i] == '\n'
  }

  /** What one match of `\r?\n+` can be: a run of line feeds, with or
      without a carriage return before it. */
  predicate IsBreakRun(run: string) {
    IsLineFeedRun(run) || (|run| >= 2 && run[0] == '\r' && IsLineFeedRun(run[1..]))
  }

  /** A run of line feeds at the start, with the carriage return before it,
      collapses to one space. */
  lemma CollapseRunFirst(run: string, rest: string)
    requires IsBreakRun(run) && (rest == [] || rest[0] != '\n')
    ensures CollapseNewlines(run + rest) == " " + CollapseNewlines(rest)
  {
    var s := run + rest;
    if IsLineFeedRun(run) {
      RunLengthOf(run, '\n', rest);
    } else {
      assert s[1..] == run[1..] + rest;
      RunLengthOf(run[1..], '\n', rest);
    }
    assert s[|run|..] == rest;
  }

  /** The first character of a line that does not end in a carriage return
      is not the start of a newline run. */
  lemma FirstOfLine(l: string, tail: string)
    requires l != [] && Excludes(l, '\n') && l[|l| - 1] != '\r'
    ensures NewlineRunLength(l + tail) == 0 && NewlineRunLength(l) == 0
    ensures (l + tail)[1..] == l[1..] + tail
  {
    var s := l + tail;
    assert s[0] == l[0] && s[0] != '\n';
    if |l| >= 2 { assert s[1] == l[1]; } else { assert s[0] == l[|l| - 1]; }
  }

  lemma CollapseStep(s: string)
    requires s != [] && NewlineRunLength(s) == 0
    ensures CollapseNewlines(s) == [s[0]] + CollapseNewlines(s[1..])
  {
  }

  /** A line that does not end in a carriage return, then a run of line
      feeds (with or without a carriage return before it): the run becomes
      exactly one space and the rest is collapsed on its own. */
  lemma {:induction false} CollapseOneRun(l: string, run: string, rest: string)
    requires Excludes(l, '\n') && (l == [] || l[|l| - 1] != '\r')
    requires IsBreakRun(run) && (rest == [] || rest[0] != '\n')
    ensures CollapseNewlines(l + (run + rest)) == CollapseNewlines(l) + " " + CollapseNewlines(rest)
    decreases |l|
  {
    if l == [] {
      assert l + (run + rest) == run + rest;
      CollapseRunFirst(run, rest);
      assert CollapseNewlines(l) == [];
      EmptyConcat(" ", CollapseNewlines(rest));
    } else {
      var tail := run + rest;
      FirstOfLine(l, tail);
      calc {
        CollapseNewlines(l + tail);
      == { CollapseStep(l + tail); }
        [l[0]] + CollapseNewlines(l[1..] + tail);
      == { CollapseOneRun(l[1..], run, rest); }
        [l[0]] + (CollapseNewlines(l[1..]) + " " + CollapseNewlines(rest));
      == { ConsAssoc(l[0], CollapseNewlines(l[1..]), " ", CollapseNewlines(rest)); }
        [l[0]] + CollapseNewlines(l[1..]) + " " + CollapseNewlines(rest);
      == { CollapseStep(l); }
        CollapseNewlines(l) + " " + CollapseNewlines(rest);
      }
    }
  }

  lemma EmptyConcat<T>(a: seq<T>, b: seq<T>)
    ensures [] + a + b == a + b
  {
  }

  lemma ConsAssoc<T>(x: T, a: seq<T>, b: seq<T>, c: seq<T>)
    ensures [x] + (a + b + c) == [x] + a + b + c
  {
  }

  /** The character references decoded, each with the character it stands for. */
  const Entities: seq<(string, char)> := [
    ("&amp;", '&'), ("&lt;", '<'), ("&gt;", '>'), ("&quot;", '"'),
    ("&apos;", '\''), ("&#39;", '\''), ("&nbsp;", '\U{00A0}')
  ]

  /** The first reference of the table, from position `k` on, that `t` starts with. */
  function MatchEntity(t: string, k: nat): (m: Option<(nat, char)>)
    requires k <= |Entities|
    ensures m.Some? ==> 1 <= m.value.0 <= |t| && t[0] == '&' && m.value.1 != '\n'
    decreases |Entities| - k
  {
    if k == |Entities| then None
    else if Entities[k].0 <= t then Some((|Entities[k].0|, Entities[k].1))
    else MatchEntity(t, k + 1)
  }

  /** Decode the references of the table in one left-to-right pass: the text
      a reference decodes to is not decoded again. */
  function DecodeEntities(s: string): (r: string)
    ensures |r| <= |s|
    ensures Excludes(s, '&') ==> r == s
    ensures Excludes(s, '\n') ==> Excludes(r, '\n')
    decreases |s|
  {
    if s == [] then s
    else
      match MatchEntity(s, 0)
      case Some((n, c)) => [c] + DecodeEntities(s[n..])
      case None => [s[0]] + DecodeEntities(s[1..])
  }

  // ----- What each rewrite does to one match -----

  predicate AllWhite(w: string) {
    forall i :: 0 <= i < |w| ==> IsWhite(w[i])
  }

  /** Whitespace before something that is not whitespace is counted whole. */
  lemma {:induction false} LeadingWhiteOf(w: string, x: string)
    requires AllWhite(w) && x != [] && !IsWhite(x[0])
    ensures LeadingWhite(w + x) == |w|
    decreases |w|
  {
    if w == [] {
      assert w + x == x;
    } else {
      assert (w + x)[1..] == w[1..] + x;
      LeadingWhiteOf(w[1..], x);
    }
  }

  /** `<br`, in any case, optional whitespace and `>` or `/>` is one match
      of the line-break pattern. */
  lemma BrTagMatch(t: string, w: string, close: string, rest: string)
    requires |t| == 3 && t[0] == '<' && Lower(t[1]) == 'b' && Lower(t[2]) == 'r'
    requires AllWhite(w) && (close == ">" || close == "/>")
    ensures BrTagLength(t + w + close + rest) == |t| + |w| + |close|
  {
    var s := t + w + close + rest;
    assert s[3..] == w + (close + rest);
    LeadingWhiteOf(w, close + rest);
    assert s[3 + |w|] == close[0];
    if close == "/>" {
      assert s[4 + |w|] == '>';
    }
  }

  /** Each line-break tag becomes one line feed. */
  lemma ReplaceBrTag(t: string, w: string, close: string, rest: string)
    requires |t| == 3 && t[0] == '<' && Lower(t[1]) == 'b' && Lower(t[2]) == 'r'
    requires AllWhite(w) && (close == ">" || close == "/>")
    ensures ReplaceBr(t + w + close + rest) == "\n" + ReplaceBr(rest)
  {
    BrTagMatch(t, w, close, rest);
    assert (t + w + close + rest)[|t| + |w| + |close|..] == rest;
  }

  /** The lazy scan of `<.*?>` stops at the first `>`. */
  lemma {:induction false} TagEndOf(s: string, u: string, rest: string, j: nat)
    requires s == "<" + u + ">" + rest && Excludes(u, '>') && Excludes(u, '\n')
    requires 1 <= j <= |u| + 1
    ensures TagEnd(s, j) == |u| + 2
    decreases |u| + 1 - j
  {
    if j <= |u| {
      assert s[j] == u[j - 1];
      TagEndOf(s, u, rest, j + 1);
    } else {
      assert s[j] == '>';
    }
  }

  /** The lazy scan of `<.*?>` finds no end when a line feed or the end of the
      text comes before any `>`. */
  lemma {:induction false} TagEndNone(s: string, u: string, rest: string, j: nat)
    requires s == "<" + u + rest && Excludes(u, '>') && (rest == [] || rest[0] == '\n')
    requires 1 <= j <= |u| + 1
    ensures TagEnd(s, j) == 0
    decreases |u| + 1 - j
  {
    if j <= |u| {
      assert s[j] == u[j - 1];
      TagEndNone(s, u, rest, j + 1);
    } else if rest != [] {
      assert s[j] == rest[0];
    }
  }

  /** A tag that closes on its own line is removed whole. */
  lemma StripTagsTag(u: string, rest: string)
    requires Excludes(u, '>') && Excludes(u, '\n')
    ensures StripTags("<" + u + ">" + rest) == StripTags(rest)
  {
    var s := "<" + u + ">" + rest;
    TagEndOf(s, u, rest, 1);
    assert s[|u| + 2..] == rest;
    StripTagsCut(s, |u| + 2);
  }

  lemma StripTagsCut(s: string, n: nat)
    requires s != [] && TagLength(s) == n > 0
    ensures StripTags(s) == StripTags(s[n..])
  {
  }

  /** A `<` whose tag does not close before the end of its line is kept. */
  lemma StripTagsUnclosed(u: string, rest: string)
    requires Excludes(u, '>') && (rest == [] || rest[0] == '\n')
    ensures StripTags("<" + u + rest) == "<" + StripTags(u + rest)
  {
    var s := "<" + u + rest;
    assert s[0] == '<' && s[1..] == u + rest;
    TagEndNone(s, u, rest, 1);
    assert TagLength(s) == 0;
    StripTagsKeep(s);
    assert [s[0]] == "<";
  }

  lemma StripTagsKeep(s: string)
    requires s != [] && TagLength(s) == 0
    ensures StripTags(s) == [s[0]] + StripTags(s[1..])
  {
  }

  /** A reference: a single `;`, at its end. */
  predicate EndsAtSemicolon(e: string) {
    e != [] && e[|e| - 1] == ';' && forall i :: 0 <= i < |e| - 1 ==> e[i] != ';'
  }

  lemma EntitiesEndAtSemicolon(k: nat)
    requires k < |Entities|
    ensures EndsAtSemicolon(Entities[k].0)
  {
  }

  /** Of two different references, neither starts text beginning with the other. */
  lemma OtherEntityNoPrefix(a: string, b: string, rest: string)
    requires EndsAtSemicolon(a) && EndsAtSemicolon(b) && a != b
    ensures !(a <= b + rest)
  {
    var t := b + rest;
    if |a| < |b| {
      assert a[|a| - 1] != t[|a| - 1];
    } else if |a| == |b| {
      assert t[..|a|] == b;
    } else if |a| <= |t| {
      assert a[|b| - 1] != t[|b| - 1];
    }
  }

  /** The table lookup on text starting with reference `k` finds it. */
  lemma {:induction false} MatchEntityOf(k: nat, rest: string, j: nat)
    requires j <= k < |Entities|
    ensures MatchEntity(Entities[k].0 + rest, j) == Some((|Entities[k].0|, Entities[k].1))
    decreases k - j
  {
    if j < k {
      EntitiesEndAtSemicolon(j);
      EntitiesEndAtSemicolon(k);
      assert Entities[j].0 != Entities[k].0;
      OtherEntityNoPrefix(Entities[j].0, Entities[k].0, rest);
      MatchEntityOf(k, rest, j + 1);
    }
  }

  /** Each reference of the table decodes to its character, and decoding
      goes on after it. */
  lemma DecodeEntity(k: nat, rest: string)
    requires k < |Entities|
    ensures DecodeEntities(Entities[k].0 + rest) == [Entities[k].1] + DecodeEntities(rest)
  {
    var e := Entities[k].0;
    MatchEntityOf(k, rest, 0);
    assert (e + rest)[|e|..] == rest;
  }

  /** Text that starts with no reference of the table keeps its first character. */
  lemma DecodeKeeps(s: string)
    requires s != [] && forall k :: 0 <= k < |Entities| ==> !(Entities[k].0 <= s)
    ensures DecodeEntities(s) == [s[0]] + DecodeEntities(s[1..])
  {
    NoEntityMatch(s, 0);
  }

  lemma {:induction false} NoEntityMatch(s: string, j: nat)
    requires j <= |Entities| && forall k :: 0 <= k < |Entities| ==> !(Entities[k].0 <= s)
    ensures MatchEntity(s, j).None?
    decreases |Entities| - j
  {
    if j < |Entities| {
      NoEntityMatch(s, j + 1);
    }
  }
}
