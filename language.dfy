/** The converter's language guess (`DetectLanguage`): stop-word counts per
    language, a bonus of 2 for each language whose typical accented letters
    occur, the first highest score if it reaches 3, and otherwise "en" for
    plain ASCII text with some English or at least five words, else "und". */
module LanguageDetector {
  import opened Text

  /** The six candidate languages, in the order the score table lists them;
      the order decides ties. */
  datatype Language = Es | En | Pt | Fr | De | It

  const Languages: seq<Language> := [Es, En, Pt, Fr, De, It]

  function Rank(l: Language): (k: nat)
    ensures k < |Languages| && Languages[k] == l
  {
    match l
    case Es => 0
    case En => 1
    case Pt => 2
    case Fr => 3
    case De => 4
    case It => 5
  }

  lemma RankAt(k: nat)
    requires k < |Languages|
    ensures Rank(Languages[k]) == k
  {
  }

  function Code(l: Language): (code: string) {
    match l
    case Es => "es"
    case En => "en"
    case Pt => "pt"
    case Fr => "fr"
    case De => "de"
    case It => "it"
  }

  /** The code of undetermined text. */
  const Undetermined: string := "und"

  predicate IsLanguageCode(r: string) {
    r == Undetermined || exists l: Language :: r == Code(l)
  }

  /** The twenty stop words of each language, all in lower case. */
  function StopWords(l: Language): (words: seq<string>) {
    match l
    case Es => ["de", "la", "que", "el", "en", "y", "a", "los", "se", "del", "las", "por", "un", "para",
                "con", "no", "una", "su", "al", "lo"]
    case En => ["the", "and", "to", "of", "a", "in", "that", "is", "for", "it", "on", "as", "with", "was",
                "are", "this", "by", "be", "or", "from"]
    case Pt => ["de", "a", "o", "que", "e", "do", "da", "em", "um", "para", "com", "n\U{00E3}o", "uma", "os",
                "no", "se", "na", "por", "mais", "as"]
    case Fr => ["de", "la", "et", "le", "\U{00E0}", "les", "des", "en", "du", "que", "pour", "est", "dans", "une",
                "un", "sur", "pas", "plus", "au", "par"]
    case De => ["und", "die", "der", "in", "zu", "den", "das", "nicht", "von", "sie", "ist", "des", "sich",
                "mit", "dem", "dass", "ein", "im", "f\U{00FC}r", "an"]
    case It => ["di", "e", "che", "la", "il", "a", "per", "in", "un", "\U{00E8}", "del", "si", "dei", "con",
                "le", "della", "dal", "al", "ma", "pi\U{00F9}"]
  }

  /** The accented letters that earn a language its bonus (English has none). */
  function Diacritics(l: Language): (letters: string) {
    match l
    case Es => "\U{00E1}\U{00E9}\U{00ED}\U{00F3}\U{00FA}\U{00F1}"
    case En => ""
    case Pt => "\U{00E1}\U{00E9}\U{00ED}\U{00F3}\U{00FA}\U{00E3}\U{00F5}\U{00E7}"
    case Fr => "\U{00E0}\U{00E2}\U{00E7}\U{00E9}\U{00E8}\U{00EA}\U{00EB}\U{00EE}\U{00EF}\U{00F4}\U{00F9}\U{00FB}\U{00FC}\U{0153}"
    case De => "\U{00E4}\U{00F6}\U{00FC}\U{00DF}"
    case It => "\U{00E0}\U{00E8}\U{00E9}\U{00EC}\U{00F2}\U{00F3}\U{00F9}"
  }

  /** Membership in the stop-word set, which compares ignoring case. Every
      stop word is written in lower case, so folding the token is enough. */
  predicate IsStopWord(t: string, l: Language) {
    ToLower(t) in StopWords(l)
  }

  /** The number of letters `s` starts with. */
  function LetterRun(s: string): (n: nat)
    ensures n <= |s|
    ensures forall k :: 0 <= k < n ==> IsLetter(s[k])
    ensures n == |s| || !IsLetter(s[n])
    decreases |s|
  {
    if s != [] && IsLetter(s[0]) then 1 + LetterRun(s[1..]) else 0
  }

  /** The matches of `\p{L}+`: the maximal runs of letters, left to right. */
  function Words(s: string): (ws: seq<string>)
    ensures forall k :: 0 <= k < |ws| ==> ws[k] != [] && forall i :: 0 <= i < |ws[k]| ==> IsLetter(ws[k][i])
    decreases |s|
  {
    if s == [] then []
    else if !IsLetter(s[0]) then Words(s[1..])
    else
      var n := LetterRun(s);
      [s[..n]] + Words(s[n..])
  }

  /** How many of the words are stop words of `l`. */
  function StopCount(ws: seq<string>, l: Language): (n: nat)
    ensures n <= |ws|
    ensures n == 0 <==> forall k :: 0 <= k < |ws| ==> !IsStopWord(ws[k], l)
    decreases |ws|
  {
    if ws == [] then 0 else (if IsStopWord(ws[0], l) then 1 else 0) + StopCount(ws[1..], l)
  }

  predicate HasAnyOf(s: string, cs: string) {
    exists i, j :: 0 <= i < |s| && 0 <= j < |cs| && s[i] == cs[j]
  }

  /** The score of `l` on the lower-cased text. */
  function Score(lower: string, l: Language): (score: nat) {
    StopCount(Words(lower), l) + (if HasAnyOf(lower, Diacritics(l)) then 2 else 0)
  }

  /** The scores in table order. */
  function Scores(lower: string): (s: seq<nat>)
    ensures |s| == |Languages|
  {
    seq(|Languages|, k requires 0 <= k < |Languages| => Score(lower, Languages[k]))
  }

  /** The position of the first greatest value: what a stable descending
      sort puts first. */
  function FirstMax(xs: seq<nat>): (k: nat)
    requires xs != []
    ensures k < |xs|
    ensures forall j :: 0 <= j < |xs| ==> xs[j] <= xs[k]
    ensures forall j :: 0 <= j < k ==> xs[j] < xs[k]
    decreases |xs|
  {
    if |xs| == 1 then 0
    else
      var k := FirstMax(xs[..|xs| - 1]);
      if xs[|xs| - 1] > xs[k] then |xs| - 1 else k
  }

  predicate AllAscii(s: string) {
    forall i :: 0 <= i < |s| ==> IsAscii(s[i])
  }

  /** `DetectLanguage`. */
  function DetectLanguage(text: string): (r: string)
    ensures IsLanguageCode(r)
    ensures IsBlank(text) ==> r == Undetermined
  {
    if IsBlank(text) then Undetermined
    else
      var lower := ToLower(text);
      var scores := Scores(lower);
      var best := FirstMax(scores);
      if scores[best] >= 3 then Code(Languages[best])
      else if AllAscii(lower) && (StopCount(Words(lower), En) >= 1 || |Words(lower)| >= 5) then Code(En)
      else Undetermined
  }

  lemma CodeInjective(l: Language, m: Language)
    ensures Code(l) == Code(m) <==> l == m
    ensures Code(l) != Undetermined
  {
  }

  /** Two positions that are both the first greatest value are the same. */
  lemma FirstMaxUnique(xs: seq<nat>, k: nat)
    requires k < |xs|
    requires forall j :: 0 <= j < |xs| ==> xs[j] <= xs[k]
    requires forall j :: 0 <= j < k ==> xs[j] < xs[k]
    ensures FirstMax(xs) == k
  {
  }

  /** `l` has the greatest score, strictly greater than every language listed before it. */
  predicate IsFirstHighest(lower: string, l: Language) {
    var xs := Scores(lower);
    (forall j :: 0 <= j < |xs| ==> xs[j] <= xs[Rank(l)])
    && (forall j :: 0 <= j < Rank(l) ==> xs[j] < xs[Rank(l)])
  }

  /** The first highest language is where the first maximum of the score table sits. */
  lemma FirstHighestIsFirstMax(lower: string, l: Language)
    ensures IsFirstHighest(lower, l) <==> FirstMax(Scores(lower)) == Rank(l)
  {
    if IsFirstHighest(lower, l) {
      FirstMaxUnique(Scores(lower), Rank(l));
    }
  }

  /** A language that scores at least 3 and is the first with the highest
      score is the answer. */
  lemma DetectLanguageFirstHighest(text: string, l: Language)
    requires !IsBlank(text)
    requires Scores(ToLower(text))[Rank(l)] >= 3 && IsFirstHighest(ToLower(text), l)
    ensures DetectLanguage(text) == Code(l)
  {
    FirstHighestIsFirstMax(ToLower(text), l);
  }

  /** Conversely, a language other than English is only ever the answer by
      scoring at least 3 and being the first with the highest score. */
  lemma DetectLanguageChosen(text: string, l: Language)
    requires l != En && DetectLanguage(text) == Code(l)
    ensures !IsBlank(text)
    ensures Scores(ToLower(text))[Rank(l)] >= 3 && IsFirstHighest(ToLower(text), l)
  {
    var lower := ToLower(text);
    var k := FirstMax(Scores(lower));
    CodeInjective(l, Languages[k]);
    RankAt(k);
    CodeInjective(l, En);
    FirstHighestIsFirstMax(lower, l);
  }

  /** When no language reaches 3, the answer is English for ASCII-only text
      with an English stop word or at least five words, and undetermined
      otherwise. */
  lemma DetectLanguageBelowThreshold(text: string)
    requires !IsBlank(text)
    requires forall j :: 0 <= j < |Languages| ==> Scores(ToLower(text))[j] < 3
    ensures var lower := ToLower(text);
            DetectLanguage(text) == Code(En) <==>
              AllAscii(lower) && (StopCount(Words(lower), En) >= 1 || |Words(lower)| >= 5)
    ensures DetectLanguage(text) == Code(En) || DetectLanguage(text) == Undetermined
  {
    CodeInjective(En, En);
  }

  // "me" is no stop word, and no stop word is longer than five letters;
  // one lemma per language keeps each list a separate proof.
  lemma NotStopWordEs(t: string)
    requires t == "me" || |t| > 5
    ensures t !in StopWords(Es)
  {
  }

  lemma NotStopWordEn(t: string)
    requires t == "me" || |t| > 5
    ensures t !in StopWords(En)
  {
  }

  lemma NotStopWordPt(t: string)
    requires t == "me" || |t| > 5
    ensures t !in StopWords(Pt)
  {
  }

  lemma NotStopWordFr(t: string)
    requires t == "me" || |t| > 5
    ensures t !in StopWords(Fr)
  {
  }

  lemma NotStopWordDe(t: string)
    requires t == "me" || |t| > 5
    ensures t !in StopWords(De)
  {
  }

  lemma NotStopWordIt(t: string)
    requires t == "me" || |t| > 5
    ensures t !in StopWords(It)
  {
  }

  lemma NotStopWord(t: string, l: Language)
    requires t == "me" || |t| > 5
    ensures t !in StopWords(l)
  {
    match l
    case Es => NotStopWordEs(t);
    case En => NotStopWordEn(t);
    case Pt => NotStopWordPt(t);
    case Fr => NotStopWordFr(t);
    case De => NotStopWordDe(t);
    case It => NotStopWordIt(t);
  }

  /** Neither word of "Me encant\U{00F3}" is a stop word of any language. */
  lemma MeEncantoNoStopWords(l: Language)
    ensures !IsStopWord("me", l) && !IsStopWord("encant\U{00F3}", l)
  {
    assert ToLower("me") == "me";
    NotStopWord("me", l);
    NotStopWord(ToLower("encant\U{00F3}"), l);
  }

  predicate AllLetters(s: string) {
    forall i :: 0 <= i < |s| ==> IsLetter(s[i])
  }

  /** A run of letters followed by a non-letter is read whole. */
  lemma {:induction false} LetterRunOf(a: string, rest: string)
    requires AllLetters(a) && (rest == [] || !IsLetter(rest[0]))
    ensures LetterRun(a + rest) == |a|
    decreases |a|
  {
    if a == [] {
      assert a + rest == rest;
    } else {
      assert (a + rest)[1..] == a[1..] + rest;
      LetterRunOf(a[1..], rest);
    }
  }

  /** A word followed by a space, or by nothing, is the first match. */
  lemma WordsCons(a: string, rest: string)
    requires a != [] && AllLetters(a)
    ensures Words(a) == [a]
    ensures Words(a + " " + rest) == [a] + Words(rest)
  {
    LetterRunOf(a, []);
    assert a + [] == a;
    assert a[..|a|] == a && a[|a|..] == [];
    var t := a + " " + rest;
    assert t == a + (" " + rest);
    LetterRunOf(a, " " + rest);
    assert t[..|a|] == a && t[|a|..] == " " + rest;
    assert (" " + rest)[1..] == rest;
  }

  /** "Me encant\U{00F3}" (Spanish for "I loved it") is undetermined: it has
      no stop word of any language, the accent gives Spanish, Portuguese and
      Italian 2 points each, below the threshold, and the text is not ASCII. */
  lemma MeEncantoScores(lower: string)
    requires lower == "me" + " " + "encant\U{00F3}"
    ensures forall j :: 0 <= j < |Languages| ==> Scores(lower)[j] < 3
  {
    var ws := MeEncantoWords(lower);
    forall j | 0 <= j < |Languages|
      ensures Scores(lower)[j] < 3
    {
      NoStopWordScore(lower, ws, Languages[j]);
    }
  }

  /** The words of "me encant\U{00F3}" are its two words. */
  lemma MeEncantoWords(lower: string) returns (ws: seq<string>)
    requires lower == "me" + " " + "encant\U{00F3}"
    ensures ws == Words(lower) && ws == ["me", "encant\U{00F3}"]
  {
    TwoWords("me", "encant\U{00F3}");
    ws := Words(lower);
  }

  /** Two words separated by one space are read as those two words. */
  lemma TwoWords(a: string, b: string)
    requires a != [] && AllLetters(a) && b != [] && AllLetters(b)
    ensures Words(a + " " + b) == [a, b]
  {
    WordsCons(a, b);
    WordsCons(b, []);
  }

  /** A text whose words are "me" and "encant\U{00F3}" scores at most the accent bonus. */
  lemma NoStopWordScore(lower: string, ws: seq<string>, l: Language)
    requires ws == Words(lower) && ws == ["me", "encant\U{00F3}"]
    ensures Score(lower, l) < 3
  {
    MeEncantoNoStopWords(l);
    assert StopCount(ws, l) == 0;
  }

  lemma MeEncantoIsUndetermined(text: string)
    requires text == "Me encant\U{00F3}"
    ensures DetectLanguage(text) == Undetermined
  {
    var lower := ToLower(text);
    assert lower == "me" + " " + "encant\U{00F3}";
    MeEncantoScores(lower);
    assert !IsAscii(lower[9]);
    DetectLanguageBelowThreshold(text);
    CodeInjective(En, En);
  }
}
