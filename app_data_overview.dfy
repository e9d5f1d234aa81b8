/** The overview written in mode "all" (`AppDataOverview.GetAppData`): the
    reviews counted from the thumb icons of the saved page, thirty copies
    estimated per counted review, and a net revenue estimated from the launch
    price the user types in. */
module AppDataOverview {
  import opened Wrappers
  import opened Text
  import opened Numbers
  import opened Calendar
  import opened ReportFolder

  // ----- The thumb icons -----

  /** A `div` whose class contains "thumb": whether it holds an image whose
      source contains "icon_thumbsUp", and one whose source contains
      "icon_thumbsDown". */
  datatype ThumbDiv = ThumbDiv(up: bool, down: bool)

  /** A div counts as a positive review when it has the up icon, whatever
      else it has. */
  predicate IsUpVote(t: ThumbDiv) {
    t.up
  }

  /** A div counts as a negative review when it has the down icon and not the up icon. */
  predicate IsDownVote(t: ThumbDiv) {
    !t.up && t.down
  }

  /** A div with neither icon is not counted at all. */
  predicate IsUncounted(t: ThumbDiv) {
    !t.up && !t.down
  }

  /** The number of divs satisfying `p`. */
  function Count(divs: seq<ThumbDiv>, p: ThumbDiv -> bool): (n: nat)
    ensures n <= |divs|
    decreases |divs|
  {
    if divs == [] then 0 else Count(divs[..|divs| - 1], p) + (if p(divs[|divs| - 1]) then 1 else 0)
  }

  /** Every div is exactly one of positive, negative and uncounted. */
  lemma {:induction false} CountPartition(divs: seq<ThumbDiv>)
    ensures Count(divs, IsUpVote) + Count(divs, IsDownVote) + Count(divs, IsUncounted) == |divs|
    decreases |divs|
  {
    if divs != [] {
      CountPartition(divs[..|divs| - 1]);
    }
  }

  /** Counting the divs of two pieces counts each piece. */
  lemma {:induction false} CountAppend(a: seq<ThumbDiv>, b: seq<ThumbDiv>, p: ThumbDiv -> bool)
    ensures Count(a + b, p) == Count(a, p) + Count(b, p)
    decreases |b|
  {
    if b == [] {
      assert a + b == a;
    } else {
      assert (a + b)[..|a + b| - 1] == a + b[..|b| - 1];
      CountAppend(a, b[..|b| - 1], p);
    }
  }

  /** The counts the loop over the thumb divs reaches. */
  datatype Tally = Tally(positives: nat, negatives: nat, totalReviews: nat)

  /** The loop over the thumb divs: the up icon makes a positive, otherwise
      the down icon a negative, and either one a counted review. */
  method CountThumbs(divs: seq<ThumbDiv>) returns (t: Tally)
    ensures t.positives == Count(divs, IsUpVote)
    ensures t.negatives == Count(divs, IsDownVote)
    ensures t.totalReviews == t.positives + t.negatives
    ensures t.totalReviews == |divs| - Count(divs, IsUncounted)
  {
    var positives, negatives, totalReviews := 0, 0, 0;
    for i := 0 to |divs|
      invariant positives == Count(divs[..i], IsUpVote)
      invariant negatives == Count(divs[..i], IsDownVote)
      invariant totalReviews == positives + negatives
    {
      assert divs[..i + 1][..i] == divs[..i];
      var th := divs[i];
      if th.up {
        positives := positives + 1;
        totalReviews := totalReviews + 1;
      } else if th.down {
        negatives := negatives + 1;
        totalReviews := totalReviews + 1;
      }
    }
    assert divs[..|divs|] == divs;
    CountPartition(divs);
    t := Tally(positives, negatives, totalReviews);
  }

  /** A div with both icons is one more positive review and no negative one. */
  lemma BothIconsCountUp(divs: seq<ThumbDiv>)
    ensures Count(divs + [ThumbDiv(true, true)], IsUpVote) == Count(divs, IsUpVote) + 1
    ensures Count(divs + [ThumbDiv(true, true)], IsDownVote) == Count(divs, IsDownVote)
  {
    var p := divs + [ThumbDiv(true, true)];
    assert p[..|p| - 1] == divs;
  }

  // ----- The launch price -----

  /** `Regex.Replace(price, @"[^\d,\.]", "")`: only digits, commas and points are kept, in order. */
  function KeepNumberChars(s: string): (r: string)
    ensures |r| <= |s|
    ensures forall i :: 0 <= i < |r| ==> IsDigitCommaOrDot(r[i]) && r[i] in s
    decreases |s|
  {
    if s == [] then []
    else (if IsDigitCommaOrDot(s[0]) then [s[0]] else []) + KeepNumberChars(s[1..])
  }

  /** The filter works piece by piece. */
  lemma {:induction false} KeepNumberCharsAppend(a: string, b: string)
    ensures KeepNumberChars(a + b) == KeepNumberChars(a) + KeepNumberChars(b)
    decreases |a|
  {
    if a == [] {
      assert a + b == b;
    } else {
      assert (a + b)[1..] == a[1..] + b;
      KeepNumberCharsAppend(a[1..], b);
    }
  }

  /** Text made of digits, commas and points is kept whole. */
  lemma {:induction false} KeepNumberCharsOf(s: string)
    requires forall i :: 0 <= i < |s| ==> IsDigitCommaOrDot(s[i])
    ensures KeepNumberChars(s) == s
    decreases |s|
  {
    if s != [] {
      KeepNumberCharsOf(s[1..]);
      assert [s[0]] + s[1..] == s;
    }
  }

  /** Text with none of them is dropped entirely. */
  lemma {:induction false} KeepNumberCharsNone(s: string)
    requires forall i :: 0 <= i < |s| ==> !IsDigitCommaOrDot(s[i])
    ensures KeepNumberChars(s) == []
    decreases |s|
  {
    if s != [] {
      KeepNumberCharsNone(s[1..]);
    }
  }

  /** The cleaned price: the kept characters with every comma made a point. */
  function CleanPrice(s: string): (r: string)
    ensures DigitsAndDots(r)
  {
    ReplaceChar(KeepNumberChars(s), ',', '.')
  }

  /** `ExtraerPrecioNumerico`: 0 for blank text, otherwise the cleaned
      price read as a number, or 0 when it does not read as one. */
  function ExtraerPrecioNumerico(price: string): (r: Decimal)
    ensures IsCanonical(r)
    ensures IsBlank(price) ==> r == Zero
    ensures (forall i :: 0 <= i < |price| ==> !IsAsciiDigit(price[i])) ==> r == Zero
  {
    if IsBlank(price) then Zero
    else
      var limpio := CleanPrice(price);
      assert (forall i :: 0 <= i < |price| ==> !IsAsciiDigit(price[i])) ==> ParseDecimal(limpio).None? by {
        if forall i :: 0 <= i < |price| ==> !IsAsciiDigit(price[i]) {
          DotsOnlyFail(limpio);
        }
      }
      match ParseDecimal(limpio)
      case Some(v) => v
      case None => Zero
  }

  /** A string of points alone is not a number. */
  lemma DotsOnlyFail(s: string)
    requires forall i :: 0 <= i < |s| ==> s[i] == '.'
    ensures ParseDecimal(s).None?
  {
    if |s| >= 2 {
      assert s[0] == '.';
      assert IndexOf(s, '.') == 0;
      assert s[1..][0] == '.';
    } else if |s| == 1 {
      assert s == ".";
    }
  }

  /** Whenever the kept characters of a price are a run of digits, one decimal
      separator (comma or point) and a run of digits, with a digit on at least
      one side, the price is that number. */
  lemma PriceValue(price: string, w: string, sep: char, f: string)
    requires KeepNumberChars(price) == w + [sep] + f
    requires sep == ',' || sep == '.'
    requires AllDigits(w) && AllDigits(f) && (w != [] || f != [])
    ensures ExtraerPrecioNumerico(price) == Decimal(DigitsValue(w), DropTrailingZeros(f))
  {
    var kept := KeepNumberChars(price);
    var k := if w != [] then 0 else 1;
    assert IsAsciiDigit(kept[k]);
    NotBlankWithDigit(price, k);
    var y := w + "." + f;
    assert CleanPrice(price) == y by {
      SeparatorBecomesPoint(w, sep, f);
    }
    ParseWithPoint(y, w, f);
  }

  lemma SeparatorBecomesPoint(w: string, sep: char, f: string)
    requires sep == ',' || sep == '.'
    requires AllDigits(w) && AllDigits(f)
    ensures ReplaceChar(w + [sep] + f, ',', '.') == w + "." + f
  {
  }

  /** Whenever the kept characters of a price are digits only, the price is
      that whole number. */
  lemma PriceWholeValue(price: string, w: string)
    requires KeepNumberChars(price) == w
    requires w != [] && AllDigits(w)
    ensures ExtraerPrecioNumerico(price) == Decimal(DigitsValue(w), "")
  {
    NotBlankWithDigit(price, 0);
    assert CleanPrice(price) == w;
  }

  /** A price that keeps a digit is not blank. */
  lemma NotBlankWithDigit(price: string, k: nat)
    requires k < |KeepNumberChars(price)| && IsAsciiDigit(KeepNumberChars(price)[k])
    ensures !IsBlank(price)
  {
    var c := KeepNumberChars(price)[k];
    assert c in price;
    var i :| 0 <= i < |price| && price[i] == c;
    assert !IsWhite(price[i]);
  }

  /** "$19,99" gives 19.99: the dollar sign is dropped and the decimal comma read as a point. */
  lemma PriceWithDecimalComma(s: string)
    requires s == "$19,99"
    ensures ExtraerPrecioNumerico(s) == Decimal(19, "99")
  {
    assert !IsWhite(s[0]);
    CleanDollarPrice();
    ParseNineteenNinetyNine();
  }

  lemma CleanDollarPrice()
    ensures CleanPrice("$19,99") == "19.99"
  {
    var s := "$19,99";
    assert s == "$" + "19,99";
    KeepNumberCharsNone("$");
    KeepNumberCharsAppend("$", "19,99");
    KeepNumberCharsOf("19,99");
    assert KeepNumberChars(s) == "19,99";
    CommaBecomesPoint();
  }

  lemma CommaBecomesPoint()
    ensures ReplaceChar("19,99", ',', '.') == "19.99"
  {
  }

  lemma ParseNineteenNinetyNine()
    ensures ParseDecimal("19.99") == Some(Decimal(19, "99"))
  {
    var y := "19.99";
    assert y[2] == '.' && y[0] != '.' && y[1] != '.';
    assert IndexOf(y, '.') == 2;
    assert y[..2] == "19" && y[3..] == "99";
    assert DigitsValue("19") == 19 by {
      assert "19"[..1] == "1";
    }
  }

  /** A price written with a thousands point and a decimal comma has two
      points once cleaned, so it reads as 0. */
  lemma PriceWithThousandsGivesZero(s: string)
    requires s == "1.299,00"
    ensures ExtraerPrecioNumerico(s) == Zero
  {
    assert !IsWhite(s[0]);
    CleanThousandsPrice(s);
    TwoPointsFail(CleanPrice(s));
  }

  lemma CleanThousandsPrice(s: string)
    requires s == "1.299,00"
    ensures CleanPrice(s) == "1.299.00"
  {
    KeepNumberCharsOf(s);
    ThousandsCommaBecomesPoint(s);
  }

  lemma ThousandsCommaBecomesPoint(s: string)
    requires s == "1.299,00"
    ensures ReplaceChar(s, ',', '.') == "1.299.00"
  {
    var r := ReplaceChar(s, ',', '.');
    assert r[5] == '.';
  }

  lemma TwoPointsFail(y: string)
    requires y == "1.299.00"
    ensures ParseDecimal(y) == None
  {
    assert IndexOf(y, '.') == 1;
    assert y[2..][3] == '.';
  }

  // ----- The estimates -----

  /** The value of a decimal number. */
  function DecimalValue(d: Decimal): (v: real)
    requires AllDigits(d.frac)
  {
    d.whole as real + DigitsValue(d.frac) as real / Pow10(|d.frac|) as real
  }

  /** A digit string is worth 0 exactly when every digit is '0'. */
  lemma {:induction false} DigitsValueZero(ds: string)
    requires AllDigits(ds)
    ensures DigitsValue(ds) == 0 <==> forall i :: 0 <= i < |ds| ==> ds[i] == '0'
    decreases |ds|
  {
    if ds != [] {
      var init := ds[..|ds| - 1];
      DigitsValueZero(init);
      assert forall i :: 0 <= i < |init| ==> init[i] == ds[i];
    }
  }

  /** A number is greater than zero exactly when its integer part is, or
      one of its decimals is not '0'. */
  lemma DecimalValuePositive(d: Decimal)
    requires AllDigits(d.frac)
    ensures DecimalValue(d) >= 0.0
    ensures DecimalValue(d) > 0.0 <==> IsPositive(d)
  {
    DigitsValueZero(d.frac);
    RatioSign(DigitsValue(d.frac), Pow10(|d.frac|));
  }

  /** A ratio of naturals is never negative, and positive when its numerator is. */
  lemma RatioSign(a: nat, b: nat)
    requires b > 0
    ensures a as real / b as real >= 0.0
    ensures a > 0 ==> a as real / b as real > 0.0
  {
  }

  /** The share the developer keeps after the store's cut, and after refunds. */
  const SteamFee: real := 0.7
  const RefundRate: real := 0.9

  /** The estimated net revenue: nothing unless the launch price is
      greater than zero, otherwise the copies times the price, less the
      store's cut and the refunds. */
  function NetRevenue(copies: nat, price: Decimal): (r: real)
    requires AllDigits(price.frac)
    ensures r >= 0.0
    ensures r > 0.0 <==> copies > 0 && IsPositive(price)
  {
    DecimalValuePositive(price);
    if DecimalValue(price) > 0.0 then
      var r := copies as real * RefundRate * SteamFee * DecimalValue(price);
      PositiveProduct(copies as real * RefundRate * SteamFee, DecimalValue(price));
      r
    else 0.0
  }

  lemma PositiveProduct(a: real, b: real)
    requires a >= 0.0 && b > 0.0
    ensures a * b >= 0.0 && (a * b > 0.0 <==> a > 0.0)
  {
  }

  /** The revenue computation of `GetAppData`: 0 unless the price is greater than zero. */
  method EstimateRevenue(copiasEstimadas: nat, precioNum: Decimal) returns (netRevenueEstimado: real)
    requires AllDigits(precioNum.frac)
    ensures netRevenueEstimado == NetRevenue(copiasEstimadas, precioNum)
  {
    netRevenueEstimado := 0.0;
    if DecimalValue(precioNum) > 0.0 {
      netRevenueEstimado := copiasEstimadas as real * RefundRate * SteamFee * DecimalValue(precioNum);
    }
  }

  /** The figures of the overview. */
  datatype Overview = Overview(folder: string, totalReviews: nat, positives: nat, negatives: nat,
                               copies: nat, launchPrice: string, priceNumber: Decimal, revenue: real)

  /** How `GetAppData` ends: at once when the saved page is missing, or with the overview. */
  datatype OverviewOutcome = ReviewsHtmlMissing | Written(overview: Overview)

  /** What is recorded when no launch price line can be read. */
  const NotAvailable: string := "No disponible"

  /** `GetAppData` without its fetches, prompts and writes: whether the page
      exists, the thumb divs its query finds (`None` when it finds none or
      the page does not load) and the line typed as the launch price (`None`
      at the end of input) are parameters. */
  method GetAppData(appId: int, appName: string, htmlExists: bool, thumbDivs: Option<seq<ThumbDiv>>,
                    launchPriceLine: Option<string>) returns (outcome: OverviewOutcome)
    ensures !htmlExists <==> outcome == ReviewsHtmlMissing
    ensures outcome.Written? ==> outcome.overview.positives == Count(thumbDivs.GetOr([]), IsUpVote)
    ensures outcome.Written? ==> outcome.overview.negatives == Count(thumbDivs.GetOr([]), IsDownVote)
    ensures outcome.Written? ==>
              outcome.overview.totalReviews == outcome.overview.positives + outcome.overview.negatives
    ensures outcome.Written? ==> outcome.overview.totalReviews <= |thumbDivs.GetOr([])|
    ensures outcome.Written? ==> outcome.overview.copies == 30 * outcome.overview.totalReviews
    ensures outcome.Written? ==>
              outcome.overview.launchPrice == if launchPriceLine.Some? then Trim(launchPriceLine.value) else NotAvailable
    ensures outcome.Written? ==> outcome.overview.priceNumber == ExtraerPrecioNumerico(outcome.overview.launchPrice)
    ensures outcome.Written? ==>
              outcome.overview.revenue == NetRevenue(outcome.overview.copies, outcome.overview.priceNumber)
    ensures outcome.Written? ==> outcome.overview.folder == OutFolder(appId, appName)
  {
    if !htmlExists {
      return ReviewsHtmlMissing;
    }
    var tally := Tally(0, 0, 0);
    if thumbDivs.Some? {
      tally := CountThumbs(thumbDivs.value);
    }
    var launchPriceManual := if launchPriceLine.Some? then Trim(launchPriceLine.value) else NotAvailable;
    var copiasEstimadas := tally.totalReviews * 30;
    var precioNum := ExtraerPrecioNumerico(launchPriceManual);
    var netRevenueEstimado := EstimateRevenue(copiasEstimadas, precioNum);
    var outFolder := OutFolder(appId, appName);
    return Written(Overview(outFolder, tally.totalReviews, tally.positives, tally.negatives,
                            copiasEstimadas, launchPriceManual, precioNum, netRevenueEstimado));
  }
}
