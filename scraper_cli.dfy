/** The scraper's command line: the review mode chosen by the optional flags,
    the application id and name taken from a store or community URL, and the
    community reviews page the scraper opens. Browsing, scrolling and saving
    the page are outside the model; what follows them is a call of the
    overview (only in the default mode) and of the review extraction. */
module ScraperCli {
  import opened Wrappers
  import opened Text
  import opened Numbers

  /** Which reviews are listed: all of them, or only the negative or the positive ones. */
  datatype Mode = All | Negative | Positive

  /** The mode's name as the rest of the program receives it. */
  function ModeName(m: Mode): (r: string)
    ensures r in {"all", "negative", "positive"}
    ensures m == All <==> EqualsIgnoreCase(r, "all")
  {
    match m
    case All => "all"
    case Negative => "negative"
    case Positive => "positive"
  }

  /** `flag` occurs, ignoring case, among the arguments after the URL. */
  predicate HasFlag(args: seq<string>, flag: string) {
    exists k :: 1 <= k < |args| && EqualsIgnoreCase(args[k], flag)
  }

  // ----- URL patterns -----

  const StoreApp: string := "store.steampowered.com/app/"
  const CommunityApp: string := "steamcommunity.com/app/"

  /** A character of the slug class `[^/?#]`. */
  predicate IsSlugChar(c: char) {
    c != '/' && c != '?' && c != '#'
  }

  predicate IsSlug(s: string) {
    s != [] && forall i :: 0 <= i < |s| ==> IsSlugChar(s[i])
  }

  /** The length of the longest prefix of `t` made of slug characters. */
  function SlugRun(t: string): (n: nat)
    ensures n <= |t|
    ensures forall i :: 0 <= i < n ==> IsSlugChar(t[i])
    ensures n == |t| || !IsSlugChar(t[n])
    decreases |t|
  {
    if t != [] && IsSlugChar(t[0]) then 1 + SlugRun(t[1..]) else 0
  }

  /** The pattern `store\.steampowered\.com/app/(\d+)/([^/?#]+)/?` matched,
      ignoring case, at the start of `t`: the id digits and the slug. Both
      repetitions are greedy, so the groups are the longest runs. */
  function StoreMatchAt(t: string): (r: Option<(string, string)>)
    ensures r.Some? ==> r.value.0 != [] && AllDigits(r.value.0) && IsSlug(r.value.1)
  {
    if !StartsWithIgnoreCase(t, StoreApp) then None
    else
      var u := t[|StoreApp|..];
      var n := LeadingDigits(u);
      if n == 0 || n == |u| || u[n] != '/' then None
      else
        var rest := u[n + 1..];
        var m := SlugRun(rest);
        if m == 0 then None else Some((u[..n], rest[..m]))
  }

  /** `Regex.Match` of the store pattern: the match at the leftmost position from `i` on. */
  function FindStore(url: string, i: nat): (r: Option<(string, string)>)
    requires i <= |url|
    ensures r.Some? ==> r.value.0 != [] && AllDigits(r.value.0) && IsSlug(r.value.1)
    ensures r.None? ==> forall j :: i <= j <= |url| ==> StoreMatchAt(url[j..]).None?
    decreases |url| - i
  {
    match StoreMatchAt(url[i..])
    case Some(m) => Some(m)
    case None => if i == |url| then None else FindStore(url, i + 1)
  }

  /** One of the alternatives `reviews|negativereviews|positivereviews`, ignoring case, starts `t`. */
  predicate StartsWithReviewPath(t: string) {
    StartsWithIgnoreCase(t, "reviews") || StartsWithIgnoreCase(t, "negativereviews")
    || StartsWithIgnoreCase(t, "positivereviews")
  }

  /** The pattern `steamcommunity\.com/app/(\d+)/(?:reviews|negativereviews|positivereviews)`
      matched, ignoring case, at the start of `t`: the id digits. */
  function CommunityMatchAt(t: string): (r: Option<string>)
    ensures r.Some? ==> r.value != [] && AllDigits(r.value)
  {
    if !StartsWithIgnoreCase(t, CommunityApp) then None
    else
      var u := t[|CommunityApp|..];
      var n := LeadingDigits(u);
      if n == 0 || n == |u| || u[n] != '/' || !StartsWithReviewPath(u[n + 1..]) then None
      else Some(u[..n])
  }

  /** `Regex.Match` of the community pattern from position `i` on. */
  function FindCommunity(url: string, i: nat): (r: Option<string>)
    requires i <= |url|
    ensures r.Some? ==> r.value != [] && AllDigits(r.value)
    ensures r.None? ==> forall j :: i <= j <= |url| ==> CommunityMatchAt(url[j..]).None?
    decreases |url| - i
  {
    match CommunityMatchAt(url[i..])
    case Some(m) => Some(m)
    case None => if i == |url| then None else FindCommunity(url, i + 1)
  }

  /** The id digits and, for a store URL, the slug: the store pattern is tried
      first and the community pattern only when it does not match. */
  function UrlIds(url: string): (r: Option<(string, Option<string>)>)
    ensures r.Some? ==> r.value.0 != [] && AllDigits(r.value.0)
    ensures r.Some? && r.value.1.Some? ==> IsSlug(r.value.1.value)
    ensures r.None? <==> FindStore(url, 0).None? && FindCommunity(url, 0).None?
  {
    match FindStore(url, 0)
    case Some(m) => Some((m.0, Some(m.1)))
    case None =>
      match FindCommunity(url, 0)
      case Some(d) => Some((d, None))
      case None => None
  }

  // ----- The application name -----

  predicate IsHexDigit(c: char) {
    IsAsciiDigit(c) || 'a' <= c <= 'f' || 'A' <= c <= 'F'
  }

  function HexValue(c: char): (v: nat)
    requires IsHexDigit(c)
    ensures v < 16
  {
    if IsAsciiDigit(c) then DigitValue(c)
    else if 'a' <= c <= 'f' then c as int - 'a' as int + 10
    else c as int - 'A' as int + 10
  }

  /** `%XX` with two hex digits and a value below 0x80 starts `s`. */
  predicate StartsWithAsciiEscape(s: string) {
    |s| >= 3 && s[0] == '%' && IsHexDigit(s[1]) && IsHexDigit(s[2])
    && 16 * HexValue(s[1]) + HexValue(s[2]) < 0x80
  }

  /** `WebUtility.UrlDecode` for escapes of ASCII characters: `+` becomes a
      space and `%XX` the character with that code; every other character,
      a malformed escape included, is kept. */
  function UrlDecode(s: string): (r: string)
    ensures |r| <= |s|
    decreases |s|
  {
    if s == [] then []
    else if s[0] == '+' then " " + UrlDecode(s[1..])
    else if StartsWithAsciiEscape(s) then
      [(16 * HexValue(s[1]) + HexValue(s[2])) as char] + UrlDecode(s[3..])
    else [s[0]] + UrlDecode(s[1..])
  }

  /** Text without `+` or `%` is left as it is by `UrlDecode`. */
  lemma {:induction false} UrlDecodePlain(s: string)
    requires Excludes(s, '+') && Excludes(s, '%')
    ensures UrlDecode(s) == s
    decreases |s|
  {
    if s != [] {
      UrlDecodePlain(s[1..]);
    }
  }

  /** The application name from the slug: underscores read as spaces, the
      result URL-decoded and trimmed; no name when there is no slug or it is blank. */
  function AppNameOf(slug: Option<string>): (r: Option<string>)
    ensures r.Some? ==> IsTrimmed(r.value)
    ensures r.None? <==> slug.None? || IsBlank(slug.value)
  {
    if slug.Some? && !IsBlank(slug.value) then Some(Trim(UrlDecode(ReplaceChar(slug.value, '_', ' '))))
    else None
  }

  /** A slug without escapes names the application by its words: each
      underscore becomes a space. */
  lemma AppNameOfPlainSlug(slug: string)
    requires !IsBlank(slug) && Excludes(slug, '+') && Excludes(slug, '%')
    ensures AppNameOf(Some(slug)) == Some(Trim(ReplaceChar(slug, '_', ' ')))
  {
    var s := ReplaceChar(slug, '_', ' ');
    UrlDecodePlain(s);
  }

  // ----- The reviews page -----

  /** The community path segment of each mode. */
  function PathSegment(m: Mode): (r: string)
    ensures StartsWithReviewPath(r)
    ensures m == All <==> r == "reviews"
  {
    match m
    case All => "reviews"
    case Negative => "negativereviews"
    case Positive => "positivereviews"
  }

  const Scheme: string := "https://"
  const ReviewsQuery: string := "/?browsefilter=mostrecent" + "&snr=1_5_100010_" + "&p=1&filterLanguage=all"

  /** The reviews page opened for an application in a mode. */
  function ReviewsUrl(appId: nat, m: Mode): (r: string)
    ensures Scheme + CommunityApp <= r
  {
    Scheme + (CommunityApp + (NatToString(appId) + ("/" + (PathSegment(m) + ReviewsQuery))))
  }

  /** A store page address as Steam writes it. */
  function StoreUrl(appId: nat, slug: string): (url: string) {
    Scheme + (StoreApp + (NatToString(appId) + ("/" + (slug + "/"))))
  }

  // ----- The launch -----

  /** What the command line leads to: the usage text, a stop because the id
      does not fit an `int` (`int.Parse` throws), a stop because no id was
      found (or it is 0), or the scraping run with its parameters. */
  datatype Launch = Launch(inputUrl: string, mode: Mode, appId: nat, appName: Option<string>,
                           reviewsUrl: string, runsOverview: bool)
  datatype CommandLine = Usage | IdOverflow | NoAppId | Start(launch: Launch)

  /** `Main` up to the moment the browser opens the reviews page. */
  method ParseCommandLine(args: seq<string>) returns (result: CommandLine)
    ensures args == [] <==> result == Usage
    ensures args != [] ==>
      var ids := UrlIds(Trim(args[0]));
      && (result == IdOverflow <==> ids.Some? && DigitsValue(ids.value.0) > Int32Max)
      && (result == NoAppId <==> ids.None? || DigitsValue(ids.value.0) == 0)
      && (result.Start? ==>
            && result.launch.inputUrl == Trim(args[0])
            && result.launch.appId == DigitsValue(ids.value.0)
            && 0 < result.launch.appId <= Int32Max
            && result.launch.appName == AppNameOf(ids.value.1))
    ensures result.Start? ==> (result.launch.mode == Positive <==> HasFlag(args, "-po"))
    ensures result.Start? ==> (result.launch.mode == Negative <==> HasFlag(args, "-n") && !HasFlag(args, "-po"))
    ensures result.Start? ==> (result.launch.mode == All <==> !HasFlag(args, "-n") && !HasFlag(args, "-po"))
    ensures result.Start? ==> result.launch.reviewsUrl == ReviewsUrl(result.launch.appId, result.launch.mode)
    ensures result.Start? ==> (result.launch.runsOverview <==> result.launch.mode == All)
  {
    if args == [] {
      return Usage;
    }
    var inputUrl := Trim(args[0]);
    var mode := All;
    if HasFlag(args, "-n") {
      mode := Negative;
    }
    if HasFlag(args, "-po") {
      mode := Positive;
    }
    var appId: nat := 0;
    var appSlug: Option<string> := None;
    match UrlIds(inputUrl) {
      case Some(ids) =>
        var v := DigitsValue(ids.0);
        if v > Int32Max {
          return IdOverflow;
        }
        appId := v;
        appSlug := ids.1;
      case None =>
    }
    if appId == 0 {
      return NoAppId;
    }
    var appName := AppNameOf(appSlug);
    var reviewsUrl := ReviewsUrl(appId, mode);
    var runsOverview := EqualsIgnoreCase(ModeName(mode), "all");
    result := Start(Launch(inputUrl, mode, appId, appName, reviewsUrl, runsOverview));
  }

  // ----- Reading the addresses back -----

  /** Lower-casing leaves punctuation alone and produces none. */
  lemma LowerIsPunctuation(c: char, d: char)
    requires !('a' <= d <= 'z') && d as int < 0xC0 && Lower(c) == d
    ensures c == d
  {
  }

  /** `Regex.Match` skips the positions where no match starts. */
  lemma {:induction false} FindStoreSkips(url: string, i: nat, k: nat)
    requires i <= k <= |url|
    requires forall j :: i <= j < k ==> StoreMatchAt(url[j..]).None?
    ensures FindStore(url, i) == FindStore(url, k)
    decreases k - i
  {
    if i < k {
      FindStoreSkips(url, i + 1, k);
    }
  }

  lemma {:induction false} FindCommunitySkips(url: string, i: nat, k: nat)
    requires i <= k <= |url|
    requires forall j :: i <= j < k ==> CommunityMatchAt(url[j..]).None?
    ensures FindCommunity(url, i) == FindCommunity(url, k)
    decreases k - i
  {
    if i < k {
      FindCommunitySkips(url, i + 1, k);
    }
  }

  /** No match of either pattern starts inside `https://`: each needs an `s`
      followed by a `t` at its start. */
  lemma NoMatchInScheme(url: string, j: nat)
    requires Scheme <= url && 8 < |url| && j < 8
    ensures StoreMatchAt(url[j..]).None? && CommunityMatchAt(url[j..]).None?
  {
    var t := url[j..];
    assert t[0] == url[j] && t[1] == url[j + 1];
    assert Lower(t[0]) != 's' || Lower(t[1]) != 't';
    if StartsWithIgnoreCase(t, StoreApp) {
      StartsWithIgnoreCaseChars(t, StoreApp);
      assert false;
    }
    if StartsWithIgnoreCase(t, CommunityApp) {
      StartsWithIgnoreCaseChars(t, CommunityApp);
      assert false;
    }
  }

  /** The store pattern reads the id digits and the slug back from the text it describes. */
  lemma StoreMatchOf(ds: string, slug: string, tail: string)
    requires ds != [] && AllDigits(ds) && IsSlug(slug) && tail != [] && !IsSlugChar(tail[0])
    ensures StoreMatchAt(StoreApp + (ds + ("/" + (slug + tail)))) == Some((ds, slug))
  {
    var u := ds + ("/" + (slug + tail));
    var t := StoreApp + u;
    assert t[..|StoreApp|] == StoreApp;
    assert t[|StoreApp|..] == u;
    LeadingDigitsOf(ds, "/" + (slug + tail));
    assert u[..|ds|] == ds;
    assert u[|ds| + 1..] == slug + tail;
    SlugRunOf(slug, tail);
    assert (slug + tail)[..|slug|] == slug;
  }

  lemma {:induction false} SlugRunOf(s: string, t: string)
    requires (forall i :: 0 <= i < |s| ==> IsSlugChar(s[i])) && t != [] && !IsSlugChar(t[0])
    ensures SlugRun(s + t) == |s|
    decreases |s|
  {
    if s == [] {
      assert s + t == t;
    } else {
      assert (s + t)[1..] == s[1..] + t;
      SlugRunOf(s[1..], t);
    }
  }

  /** A store page address gives back the application id and the slug it was built from. */
  lemma StoreUrlRoundTrip(appId: nat, slug: string)
    requires IsSlug(slug)
    ensures UrlIds(StoreUrl(appId, slug)) == Some((NatToString(appId), Some(slug)))
  {
    var url := StoreUrl(appId, slug);
    forall j | 0 <= j < 8
      ensures StoreMatchAt(url[j..]).None?
    {
      NoMatchInScheme(url, j);
    }
    FindStoreSkips(url, 0, 8);
    assert url[8..] == StoreApp + (NatToString(appId) + ("/" + (slug + "/")));
    StoreMatchOf(NatToString(appId), slug, "/");
  }

  /** `.` occurs nowhere in `s`. */
  predicate DotFree(s: string) {
    Excludes(s, '.')
  }

  lemma DotFreeConcat(a: string, b: string)
    requires DotFree(a) && DotFree(b)
    ensures DotFree(a + b)
  {
    assert forall i :: |a| <= i < |a + b| ==> (a + b)[i] == b[i - |a|];
  }

  lemma ReviewsQueryDotFree()
    ensures DotFree(ReviewsQuery)
  {
    var a, b, c := "/?browsefilter=mostrecent", "&snr=1_5_100010_", "&p=1&filterLanguage=all";
    assert forall i :: 0 <= i < |a| ==> a[i] != '.';
    assert forall i :: 0 <= i < |b| ==> b[i] != '.';
    assert forall i :: 0 <= i < |c| ==> c[i] != '.';
    DotFreeConcat(a, b);
    DotFreeConcat(a + b, c);
  }

  /** Past `https://steamcommunity.com/app/`, a reviews page address has no `.`. */
  lemma ReviewsPathDotFree(appId: nat, m: Mode)
    ensures DotFree(NatToString(appId) + ("/" + (PathSegment(m) + ReviewsQuery)))
  {
    var ds, seg := NatToString(appId), PathSegment(m);
    assert DotFree(ds);
    assert forall i :: 0 <= i < |seg| ==> seg[i] != '.';
    ReviewsQueryDotFree();
    DotFreeConcat(seg, ReviewsQuery);
    DotFreeConcat("/", seg + ReviewsQuery);
    DotFreeConcat(ds, "/" + (seg + ReviewsQuery));
  }

  /** In `https://steamcommunity.com/app/` the only `.` is at index 22. */
  lemma HeadDot(h: string)
    requires h == Scheme + CommunityApp
    ensures forall k :: 0 <= k < |h| && h[k] == '.' ==> k == 22
  {
    var a, b, c := Scheme + "steamcommunity", ".", "com/app/";
    assert h == a + b + c;
    assert forall i :: 0 <= i < |a| ==> a[i] != '.';
    assert forall i :: 0 <= i < |c| ==> c[i] != '.';
  }

  /** A dot-free tail adds no `.` to a text. */
  lemma DotOnlyAt(h: string, rest: string, p: nat)
    requires forall k :: 0 <= k < |h| && h[k] == '.' ==> k == p
    requires DotFree(rest)
    ensures forall k :: 0 <= k < |h + rest| && (h + rest)[k] == '.' ==> k == p
  {
    assert forall k :: |h| <= k < |h + rest| ==> (h + rest)[k] == rest[k - |h|];
  }

  lemma Assoc<T>(a: seq<T>, b: seq<T>, c: seq<T>)
    ensures a + (b + c) == (a + b) + c
  {
  }

  /** In a reviews page address the only `.` is the one of `steamcommunity.com`, at index 22. */
  lemma ReviewsUrlDots(appId: nat, m: Mode)
    ensures forall k :: 0 <= k < |ReviewsUrl(appId, m)| && ReviewsUrl(appId, m)[k] == '.' ==> k == 22
  {
    var rest := NatToString(appId) + ("/" + (PathSegment(m) + ReviewsQuery));
    ReviewsPathDotFree(appId, m);
    Assoc(Scheme, CommunityApp, rest);
    HeadDot(Scheme + CommunityApp);
    DotOnlyAt(Scheme + CommunityApp, rest, 22);
  }

  /** A store match needs a `.` five characters after its start and a
      `store` at it, so none starts in text whose only `.` comes 5
      characters after a letter other than `s`. */
  lemma NoStoreMatchWithOneDot(url: string, j: nat)
    requires j <= |url| && 17 < |url| && Lower(url[17]) != 's'
    requires forall k :: 0 <= k < |url| && url[k] == '.' ==> k == 22
    ensures StoreMatchAt(url[j..]).None?
  {
    var t := url[j..];
    if StartsWithIgnoreCase(t, StoreApp) {
      StartsWithIgnoreCaseChars(t, StoreApp);
      LowerIsPunctuation(t[5], '.');
      assert false;
    }
  }

  /** No store match starts anywhere in a reviews page address: the only
      `.` follows `steamcommunity`, not `store`. */
  lemma NoStoreMatchInReviewsUrl(appId: nat, m: Mode, j: nat)
    requires j <= |ReviewsUrl(appId, m)|
    ensures StoreMatchAt(ReviewsUrl(appId, m)[j..]).None?
  {
    ReviewsUrlDots(appId, m);
    assert ReviewsUrl(appId, m)[17] == 'u';
    NoStoreMatchWithOneDot(ReviewsUrl(appId, m), j);
  }

  /** The community pattern reads the id digits back from the text it describes. */
  lemma CommunityMatchOf(ds: string, seg: string, tail: string)
    requires ds != [] && AllDigits(ds) && StartsWithReviewPath(seg)
    ensures CommunityMatchAt(CommunityApp + (ds + ("/" + (seg + tail)))) == Some(ds)
  {
    var u := ds + ("/" + (seg + tail));
    var t := CommunityApp + u;
    assert t[..|CommunityApp|] == CommunityApp;
    assert t[|CommunityApp|..] == u;
    LeadingDigitsOf(ds, "/" + (seg + tail));
    assert u[..|ds|] == ds;
    assert u[|ds| + 1..] == seg + tail;
    StartsWithReviewPathAppend(seg, tail);
  }

  lemma StartsWithIgnoreCaseAppend(s: string, t: string, p: string)
    requires StartsWithIgnoreCase(s, p)
    ensures StartsWithIgnoreCase(s + t, p)
  {
    assert (s + t)[..|p|] == s[..|p|];
  }

  lemma StartsWithReviewPathAppend(s: string, t: string)
    requires StartsWithReviewPath(s)
    ensures StartsWithReviewPath(s + t)
  {
    if StartsWithIgnoreCase(s, "reviews") {
      StartsWithIgnoreCaseAppend(s, t, "reviews");
    } else if StartsWithIgnoreCase(s, "negativereviews") {
      StartsWithIgnoreCaseAppend(s, t, "negativereviews");
    } else {
      StartsWithIgnoreCaseAppend(s, t, "positivereviews");
    }
  }

  /** The page the scraper opens names the same application again: read as
      input, a reviews page address yields its own id and no slug. */
  lemma ReviewsUrlRoundTrip(appId: nat, m: Mode)
    ensures UrlIds(ReviewsUrl(appId, m)) == Some((NatToString(appId), None))
  {
    var url := ReviewsUrl(appId, m);
    forall j | 0 <= j <= |url|
      ensures StoreMatchAt(url[j..]).None?
    {
      NoStoreMatchInReviewsUrl(appId, m, j);
    }
    FindStoreSkips(url, 0, |url|);
    forall j | 0 <= j < 8
      ensures CommunityMatchAt(url[j..]).None?
    {
      NoMatchInScheme(url, j);
    }
    FindCommunitySkips(url, 0, 8);
    assert url[8..] == CommunityApp + (NatToString(appId) + ("/" + (PathSegment(m) + ReviewsQuery)));
    CommunityMatchOf(NatToString(appId), PathSegment(m), ReviewsQuery);
  }

  /** The reviews page address determines its application and its mode:
      different ids or different modes give different addresses. */
  lemma ReviewsUrlInjective(a1: nat, m1: Mode, a2: nat, m2: Mode)
    requires ReviewsUrl(a1, m1) == ReviewsUrl(a2, m2)
    ensures a1 == a2 && m1 == m2
  {
    ReviewsUrlSameId(a1, m1, a2, m2);
    ReviewsUrlSameMode(a1, m1, m2);
  }

  lemma ReviewsUrlSameId(a1: nat, m1: Mode, a2: nat, m2: Mode)
    requires ReviewsUrl(a1, m1) == ReviewsUrl(a2, m2)
    ensures a1 == a2
  {
    ReviewsUrlRoundTrip(a1, m1);
    ReviewsUrlRoundTrip(a2, m2);
    assert NatToString(a1) == NatToString(a2);
  }

  lemma ReviewsUrlSameMode(a: nat, m1: Mode, m2: Mode)
    requires ReviewsUrl(a, m1) == ReviewsUrl(a, m2)
    ensures m1 == m2
  {
    var ds := NatToString(a);
    SegmentOf(ReviewsUrl(a, m1), Scheme, CommunityApp, ds, "/", PathSegment(m1), ReviewsQuery);
    SegmentOf(ReviewsUrl(a, m2), Scheme, CommunityApp, ds, "/", PathSegment(m2), ReviewsQuery);
    PathSegmentInjective(m1, m2);
  }

  /** The piece between a known head and a known tail. */
  lemma SegmentOf<T>(u: seq<T>, a: seq<T>, b: seq<T>, c: seq<T>, sl: seq<T>, s: seq<T>, q: seq<T>)
    requires u == a + (b + (c + (sl + (s + q))))
    ensures |a| + |b| + |c| + |sl| <= |u| - |q| && u[|a| + |b| + |c| + |sl|..|u| - |q|] == s
  {
    assert u == (a + b + c + sl) + s + q;
  }

  lemma PathSegmentInjective(m1: Mode, m2: Mode)
    requires PathSegment(m1) == PathSegment(m2)
    ensures m1 == m2
  {
    assert PathSegment(m1)[0] == PathSegment(m2)[0];
    assert |PathSegment(m1)| == |PathSegment(m2)|;
  }
}
