# Steam reviews scraper and TXT-to-CSV converter: a Dafny model

The repository has two console programs. The scraper takes a Steam store or
community URL and a mode flag (`-n` negative, `-po` positive, neither: all).
It opens the community reviews page, scrolls it and saves it as `page.html`.
In the default mode it then writes an overview of the application: thumb
counts, estimated copies, estimated revenue. Last, it extracts every review
card into text blocks. The blocks are either all in one file or split into a
"western" and an "eastern" file by the script of the review's text. The
converter reads such a text file, splits it into blocks at the dashed
separator lines and writes one `;`-separated CSV row per block.

This project models the logic between the I/O:

- the command-line rules of the scraper (`ScraperCli`);
- the extraction loop with its sanitiser, hours and date parsers, script
  classifier and block format (`ExtractSteamReviews`);
- the overview's thumb count, copy and revenue estimates and price parsing
  (`AppDataOverview`);
- the whole converter (`TxtToCsv`).

Supporting modules hold the shared pieces:

- `Text`: whitespace, trimming, case folding, splitting;
- `Numbers`: digit strings, `int` parsing, decimal numbers;
- `Calendar`: dates;
- `Html`: `<br>` replacement, tag stripping, newline collapsing, entities;
- `CsvFormat`: field quoting and reading rows back;
- `LanguageDetector`: the stop-word language guess;
- `DateNormalizer`: the converter's date normalisation;
- `ReportFolder`: the output folder name.

Two modules connect the programs:

- `BlockRoundTrip` proves that a block the extractor writes is read back by
  the converter with its fields intact.
- `FileRoundTrip` proves that a whole extracted file splits back into its
  blocks, one CSV row each.

Modelling choices:

- Strings are `seq<char>`. Hours and prices are exact decimal numbers
  (`Numbers.Decimal`), not doubles.
- The current year, the culture-driven free date parse, the existence of
  files, the file contents, the HTML nodes found by the XPath queries and the
  line typed at the launch-price prompt are all parameters.
- `Environment.NewLine` is a parameter `newline` of the extractor and of
  every converter function that appends lines; it is LF or CR LF
  (`Text.IsNewline`). The converter's entry point `TxtToCsv.RunConverter`
  takes the platform instead (`TxtToCsv.Platform`: Windows or Unix). The
  platform fixes both its `Environment.NewLine` (CR LF on Windows, LF on
  Unix) and the directory separators `Path.ChangeExtension` looks for (`/`
  and `\` on Windows, `/` only on Unix).
- Review cards are records of optional strings (`ExtractSteamReviews.ReviewNode`).
- A file written by a `StreamWriter` is the text it receives.

## Model

| member | source | states |
|---|---|---|
| ScraperCli.ParseCommandLine | SteamReviewsScraper/Program.cs:16-66 | Usage exactly when there are no arguments. Mode is positive iff some later argument is `-po` (ignoring case), negative iff `-n` and no `-po`, all otherwise. Stops when the id overflows an int or is missing/0. Otherwise gives the trimmed URL, the id, the decoded app name and the reviews URL of the id and mode; the overview runs iff the mode is all |
| ScraperCli.ModeName | SteamReviewsScraper/Program.cs:26-28 | the mode string is one of all/negative/positive, and equals "all" (ignoring case) exactly for the default mode |
| ScraperCli.FindStore | SteamReviewsScraper/Program.cs:33 | the leftmost store-URL match from a position: a non-empty digit id and a slug free of `/?#`; none means no position matches |
| ScraperCli.FindCommunity | SteamReviewsScraper/Program.cs:41 | the leftmost community reviews-URL match: a non-empty digit id; none means no position matches |
| ScraperCli.UrlIds | SteamReviewsScraper/Program.cs:33-46 | the store match is taken first and gives id and slug, the community match gives the id only; no ids exactly when neither pattern matches |
| ScraperCli.StoreUrlRoundTrip | SteamReviewsScraper/Program.cs:33-38 | a store URL built from an id and a slug yields exactly that id and slug |
| ScraperCli.ReviewsUrlRoundTrip | SteamReviewsScraper/Program.cs:33-46 | the reviews URL the scraper builds yields back exactly its id, with no slug, in every mode |
| ScraperCli.NoStoreMatchInReviewsUrl | SteamReviewsScraper/Program.cs:33 | no position of a reviews URL matches the store pattern |
| ScraperCli.AppNameOf | SteamReviewsScraper/Program.cs:54-58 | the name is trimmed; there is no name exactly when the slug is missing or blank |
| ScraperCli.AppNameOfPlainSlug | SteamReviewsScraper/Program.cs:57 | a slug with no `+` or `%` gives its text with `_` turned into spaces, trimmed |
| ScraperCli.UrlDecodePlain | SteamReviewsScraper/Program.cs:57 | URL decoding leaves text without `+` and `%` unchanged |
| ScraperCli.PathSegment | SteamReviewsScraper/Program.cs:61-63 | the segment is one the community pattern accepts, and is `reviews` exactly in the default mode |
| ScraperCli.ReviewsUrl | SteamReviewsScraper/Program.cs:65-66 | the URL is on `https://steamcommunity.com/app/`; its id is read back by ReviewsUrlRoundTrip, and it determines id and mode (ReviewsUrlInjective) |
| ScraperCli.ReviewsUrlInjective | SteamReviewsScraper/Program.cs:61-66 | two reviews URLs are equal only for the same id and the same mode: the path segment tells the mode apart |
| ReportFolder.SanitizeAppName | SteamReviewsScraper/AppDataOverview.cs:115 | same length; each of `<>:"/\|?*` becomes `_`, every other character is kept |
| ReportFolder.SanitizeAppNameClean | SteamReviewsScraper/AppDataOverview.cs:115 | the result holds no reserved character and sanitising again changes nothing |
| ReportFolder.SanitizeAppNameKeeps | SteamReviewsScraper/ExtractSteamReviews.cs:17 | a name without reserved characters is unchanged |
| ReportFolder.OutFolder | SteamReviewsScraper/ExtractSteamReviews.cs:17-21 | the folder name `reviews_{id}_{name}` holds no reserved character |
| AppDataOverview.CountPartition | SteamReviewsScraper/AppDataOverview.cs:42-51 | every thumb div is counted up, down or not at all: the three counts add up to the number of divs |
| AppDataOverview.CountThumbs | SteamReviewsScraper/AppDataOverview.cs:37-52 | positives are the divs with an up icon, negatives those with a down icon and no up icon, total is their sum and the number of divs minus the iconless ones |
| AppDataOverview.BothIconsCountUp | SteamReviewsScraper/AppDataOverview.cs:42-46 | a div with both icons counts as positive only |
| AppDataOverview.KeepNumberChars | SteamReviewsScraper/AppDataOverview.cs:252 | the kept characters are digits, commas and dots taken from the input |
| AppDataOverview.KeepNumberCharsAppend | SteamReviewsScraper/AppDataOverview.cs:252 | filtering distributes over concatenation |
| AppDataOverview.KeepNumberCharsOf | SteamReviewsScraper/AppDataOverview.cs:252 | text made only of digits, commas and dots is kept whole |
| AppDataOverview.KeepNumberCharsNone | SteamReviewsScraper/AppDataOverview.cs:252 | text with none of them is filtered to nothing |
| AppDataOverview.CleanPrice | SteamReviewsScraper/AppDataOverview.cs:252 | the cleaned price holds only digits and dots |
| AppDataOverview.ExtraerPrecioNumerico | SteamReviewsScraper/AppDataOverview.cs:247-257 | blank input and input without digits give 0; PriceValue and PriceWholeValue give the value of every price that parses |
| AppDataOverview.DotsOnlyFail | SteamReviewsScraper/AppDataOverview.cs:253 | text of dots only does not parse |
| AppDataOverview.PriceValue | SteamReviewsScraper/AppDataOverview.cs:247-257 | for every price whose kept digits, commas and dots are a digit run, one comma or dot and a digit run, with a digit on at least one side, the result is the number with that whole part and that fraction (trailing zeros dropped) |
| AppDataOverview.PriceWholeValue | SteamReviewsScraper/AppDataOverview.cs:247-257 | for every price whose kept characters are digits only, the result is that whole number |
| AppDataOverview.PriceWithDecimalComma | SteamReviewsScraper/AppDataOverview.cs:252-254 | "$19,99" gives 19.99 |
| AppDataOverview.PriceWithThousandsGivesZero | SteamReviewsScraper/AppDataOverview.cs:252-256 | "1.299,00" cleans to two dots and gives 0 |
| AppDataOverview.DecimalValuePositive | SteamReviewsScraper/AppDataOverview.cs:108 | a price's value is never negative, and is above zero exactly when some digit is not 0 |
| AppDataOverview.NetRevenue | SteamReviewsScraper/AppDataOverview.cs:103-111 | revenue is never negative, and is positive exactly when there are copies and the price is above zero |
| AppDataOverview.EstimateRevenue | SteamReviewsScraper/AppDataOverview.cs:103-111 | the loop-free revenue step computes NetRevenue: 0 unless the price is above zero |
| AppDataOverview.GetAppData | SteamReviewsScraper/AppDataOverview.cs:17-111 | returns at once exactly when the page file is missing. Otherwise: the thumb counts as CountThumbs, positives plus negatives is the total and at most the number of divs, copies are 30 times the total, the launch price is the trimmed typed line (or "No disponible"), its number is ExtraerPrecioNumerico of it, revenue is NetRevenue |
| ExtractSteamReviews.TrimmedText | SteamReviewsScraper/ExtractSteamReviews.cs:67-68 | a node's text is trimmed, and "" for a missing node |
| ExtractSteamReviews.Sanitize | SteamReviewsScraper/ExtractSteamReviews.cs:86-88 | sanitised content has no line feed, no leading or trailing whitespace, and is no longer than the HTML |
| ExtractSteamReviews.Content | SteamReviewsScraper/ExtractSteamReviews.cs:78-89 | a card's content has no line feed and is trimmed |
| ExtractSteamReviews.ContentIgnoresDateDiv | SteamReviewsScraper/ExtractSteamReviews.cs:82-85 | the content does not depend on the date div removed from it |
| ExtractSteamReviews.SanitizePlain | SteamReviewsScraper/ExtractSteamReviews.cs:86-88 | trimmed one-line text without `<` or `&` is unchanged |
| ExtractSteamReviews.BrBecomesSpace | SteamReviewsScraper/ExtractSteamReviews.cs:86-88 | a `<br>` between two plain lines becomes one space |
| ExtractSteamReviews.SanitizeTwiceDiffers | SteamReviewsScraper/ExtractSteamReviews.cs:87 | entities are decoded once: `&amp;lt;` gives `&lt;`, which sanitised again gives `<` |
| ExtractSteamReviews.SanitizeDecodes | SteamReviewsScraper/ExtractSteamReviews.cs:87-88 | text without tags whose decoding is trimmed and one-line is sanitised to that decoding |
| ExtractSteamReviews.NumberRun | SteamReviewsScraper/ExtractSteamReviews.cs:162 | the first non-empty run of digits, commas and dots; none exactly when the text has none of them |
| ExtractSteamReviews.NumberRunAfter | SteamReviewsScraper/ExtractSteamReviews.cs:162 | the run found is the one after a prefix free of those characters, taken whole |
| ExtractSteamReviews.ParseHours | SteamReviewsScraper/ExtractSteamReviews.cs:159-169 | the hours are a canonical decimal, 0 for blank text |
| ExtractSteamReviews.ParseHoursOf | SteamReviewsScraper/ExtractSteamReviews.cs:162-168 | the hours are the run with commas as dots, parsed, or 0 when that does not parse |
| ExtractSteamReviews.ThousandsGiveZero | SteamReviewsScraper/ExtractSteamReviews.cs:165-168 | "1,234.5 h" has two dots after the comma change and gives 0 |
| ExtractSteamReviews.MonthNumber | SteamReviewsScraper/ExtractSteamReviews.cs:177-181 | a month number 1..12 exactly when the word, lower-cased, is that Spanish month's name |
| ExtractSteamReviews.MonthNumberOf | SteamReviewsScraper/ExtractSteamReviews.cs:177-181 | every Spanish month name, in any case, gives its number |
| ExtractSteamReviews.MonthsDistinct | SteamReviewsScraper/ExtractSteamReviews.cs:179-180 | the twelve names are distinct |
| ExtractSteamReviews.Cleaned | SteamReviewsScraper/ExtractSteamReviews.cs:175 | the text without the "Publicada el " label is trimmed |
| ExtractSteamReviews.CleanedOf | SteamReviewsScraper/ExtractSteamReviews.cs:175 | a trimmed date with no `P`, labelled or not, is kept as it is |
| ExtractSteamReviews.ParseDate | SteamReviewsScraper/ExtractSteamReviews.cs:171-192 | blank text gives "" |
| ExtractSteamReviews.ParseDateOutcomes | SteamReviewsScraper/ExtractSteamReviews.cs:183-191 | success gives the cleaned text or a calendar date. Errors arise only after day and month name are read. A missing year part is the error exactly when there are 3 or 4 parts and the day and month read |
| ExtractSteamReviews.ParseDateReads | SteamReviewsScraper/ExtractSteamReviews.cs:186-188 | day, month name and year as first, third and fifth parts give the zero-padded yyyy-MM-dd date |
| ExtractSteamReviews.ParseDateSpanish | SteamReviewsScraper/ExtractSteamReviews.cs:175-188 | "d de mes de yyyy", with or without the label, gives the zero-padded date |
| ExtractSteamReviews.ParseDateWithoutYear | SteamReviewsScraper/ExtractSteamReviews.cs:186 | "d de mes" reads past the parts and is the missing-part error |
| ExtractSteamReviews.EsOriental | SteamReviewsScraper/ExtractSteamReviews.cs:194-207 | true exactly when some character is in a CJK, Hangul, kana or Cyrillic range |
| ExtractSteamReviews.LatinIsNotOriental | SteamReviewsScraper/ExtractSteamReviews.cs:194-207 | text of Latin-1 characters (the empty text included) is not eastern |
| ExtractSteamReviews.HasOrientalConcat | SteamReviewsScraper/ExtractSteamReviews.cs:198-205 | a concatenation is eastern exactly when one of its parts is |
| ExtractSteamReviews.FormatearBloque | SteamReviewsScraper/ExtractSteamReviews.cs:209-217 | the block starts with the date label and the date on a CR LF-ended line and ends with the content; BlockRoundTrip.BlockLines gives its five lines |
| ExtractSteamReviews.NodeBlock | SteamReviewsScraper/ExtractSteamReviews.cs:67-91 | a card fails exactly when its date throws; BlockRoundTrip.NodeBlockOf gives the block otherwise |
| BlockRoundTrip.NodeBlockOf | SteamReviewsScraper/ExtractSteamReviews.cs:67-91 | a readable card's block is FormatearBloque of its parsed date, trimmed title, parsed hours and sanitised content |
| ExtractSteamReviews.Entry | SteamReviewsScraper/ExtractSteamReviews.cs:95-96 | the block, a newline, 80 dashes and a newline; FileRoundTrip.EntrySplit: the converter splits it off as exactly its block |
| ExtractSteamReviews.Cards | SteamReviewsScraper/ExtractSteamReviews.cs:65-91 | every node yields exactly one card |
| ExtractSteamReviews.CardsAt | SteamReviewsScraper/ExtractSteamReviews.cs:65-91 | the card of a node depends on that node alone |
| ExtractSteamReviews.BucketsPartition | SteamReviewsScraper/ExtractSteamReviews.cs:101-113 | western and eastern counts add up to the number of cards |
| ExtractSteamReviews.EntriesText | SteamReviewsScraper/ExtractSteamReviews.cs:93-114 | the entries written, all cards' or one bucket's; ExtractSteamReviews.EntriesSnoc and FileRoundTrip.FileIsEntries state its contents |
| ExtractSteamReviews.EntriesSnoc | SteamReviewsScraper/ExtractSteamReviews.cs:93-114 | one more readable card appends its entry to the text of its own bucket and of all cards, and to no other |
| ExtractSteamReviews.FinalFiles | SteamReviewsScraper/ExtractSteamReviews.cs:117-141 | one file in all mode, the two renamed split files otherwise |
| ExtractSteamReviews.BucketsSplitEntries | SteamReviewsScraper/ExtractSteamReviews.cs:101-113 | the two split files together are as long as the single file of all entries |
| ExtractSteamReviews.BucketOfContent | SteamReviewsScraper/ExtractSteamReviews.cs:101 | a card is eastern exactly when its content is |
| ExtractSteamReviews.CountSnoc | SteamReviewsScraper/ExtractSteamReviews.cs:97-112 | one more card adds one to its own bucket's count only |
| ExtractSteamReviews.FirstError | SteamReviewsScraper/ExtractSteamReviews.cs:76 | the first card whose date throws, with all cards before it readable; none exactly when all are readable |
| ExtractSteamReviews.SplitPrefix | SteamReviewsScraper/ExtractSteamReviews.cs:134 | the split files' prefix is "negative" exactly for the mode "negative" (ignoring case), "positive" otherwise |
| ExtractSteamReviews.ReadReview | SteamReviewsScraper/ExtractSteamReviews.cs:67-91 | the loop body reads the card's block, and its content is eastern exactly when the card is |
| ExtractSteamReviews.WriteCards | SteamReviewsScraper/ExtractSteamReviews.cs:65-115 | stops at the first date that throws. The files hold the entries of the cards before it (all in one file, or each in its bucket's file), and the counters count them |
| ExtractSteamReviews.StateSnoc | SteamReviewsScraper/ExtractSteamReviews.cs:93-114 | one more readable card appends its entry to exactly one file and adds one to exactly one counter |
| ExtractSteamReviews.Run | SteamReviewsScraper/ExtractSteamReviews.cs:12-157 | stops before any file when the page is missing or has no cards, and aborts at the first date that throws. Otherwise the total counts every card in all mode, and in split mode the western and eastern counts are the bucket counts in the renamed files |
| Html.ReplaceBr | TxtToCsv/Program.cs:127 | text without `<` is unchanged |
| Html.BrTagLength | TxtToCsv/Program.cs:127 | a match of `<br\s*/?>` ignoring case: `<`, `b` and `r` in either case, whitespace, an optional `/`, then `>` |
| Html.BrTagMatch | TxtToCsv/Program.cs:127 | every such tag, whatever its case and whitespace, is matched whole |
| Html.ReplaceBrTag | TxtToCsv/Program.cs:127 | each line-break tag becomes one line feed, and the rest of the text is rewritten on its own |
| Html.StripTags | TxtToCsv/Program.cs:128 | no longer than the input, no line feed added, text without `<` unchanged |
| Html.StripTagsTag | TxtToCsv/Program.cs:128 | a `<`, text without `>` or line feed, and `>` are removed whole: the lazy match stops at the first `>` |
| Html.StripTagsUnclosed | TxtToCsv/Program.cs:128 | a `<` with no `>` before the end of its line is kept, since `.` does not match a line feed |
| Html.CollapseNewlinesFacts | TxtToCsv/Program.cs:130 | no line feed is left, the text does not grow, and text without line feeds is unchanged |
| Html.CollapseOneRun | TxtToCsv/Program.cs:130 | a run of line feeds after a line, with or without a carriage return before it, is one space |
| Html.CollapseNewlines | TxtToCsv/Program.cs:130 | `\r?\n+` replaced by one space: Html.CollapseNewlinesFacts (no line feed left, never longer, unchanged without line feeds) and Html.CollapseOneRun (each run is one space) state what it does |
| Html.DecodeEntities | TxtToCsv/Program.cs:131 | no longer than the input, no line feed added, text without `&` unchanged |
| Html.DecodeEntity | TxtToCsv/Program.cs:131 | each reference of the table decodes to its character, and decoding goes on after it |
| Html.DecodeKeeps | TxtToCsv/Program.cs:131 | text that starts with no reference of the table keeps its first character |
| Text.ReplaceAll | TxtToCsv/Program.cs:53 | never longer when the replacement is no longer than the pattern; Text.ReplaceAllAbsent and Text.ReplaceAllMissing leave text without the pattern unchanged, Text.ReplaceAllFirst replaces a leading match |
| Text.ReplaceAllAbsent | TxtToCsv/Program.cs:53 | text without an occurrence of the pattern is unchanged |
| Text.ReplaceAllMissing | TxtToCsv/Program.cs:53 | text lacking one of the pattern's characters, in either case when case is ignored, is unchanged |
| Text.ReplaceAllFirst | TxtToCsv/Program.cs:53 | a leading occurrence becomes the replacement and the rest is rewritten on its own |
| Text.SplitLines | TxtToCsv/Program.cs:92 | at least one line, none holding a line feed |
| Text.SplitLinesCrlf | TxtToCsv/Program.cs:92 | a CR LF ends a line and the rest is split on its own |
| TxtToCsv.SeparatorLength | TxtToCsv/Program.cs:43 | a separator match is at least five characters long |
| TxtToCsv.SplitOnSeparators | TxtToCsv/Program.cs:43 | `Regex.Split` gives at least one piece; FileRoundTrip.SplitEntries: written entries split into their blocks |
| TxtToCsv.TrimmedNonBlank | TxtToCsv/Program.cs:44-45 | blocks are non-empty and trimmed, never more than the pieces |
| TxtToCsv.Blocks | TxtToCsv/Program.cs:43-46 | every block is non-empty and trimmed; FileRoundTrip.BlocksOfEntries: the blocks of written entries are the blocks written |
| TxtToCsv.ValueAfterPrefixFirst | TxtToCsv/Program.cs:90-101 | the value is the trimmed rest of the first line whose trimmed form starts with the prefix, ignoring case |
| TxtToCsv.ValueAfterPrefixNone | TxtToCsv/Program.cs:99-100 | "" when no line starts with the prefix |
| TxtToCsv.GetLineAfterPrefix | TxtToCsv/Program.cs:90-101 | the loop with early return computes ValueAfterPrefix of the lines |
| TxtToCsv.FindIndex | TxtToCsv/Program.cs:106 | the first index satisfying the predicate, -1 exactly when none does |
| TxtToCsv.MarkerIgnoresCase | TxtToCsv/Program.cs:106 | the content marker is a trimmed line equal to "Contenido:" ignoring case |
| TxtToCsv.StripFinalNewlines | TxtToCsv/Program.cs:111 | removes only trailing whitespace from the end |
| TxtToCsv.TrimAfterStrip | TxtToCsv/Program.cs:111 | removing final newlines before trimming changes nothing |
| TxtToCsv.AppendFrom | TxtToCsv/Program.cs:108-110 | the StringBuilder loop appends every line after the marker, each followed by `newline`, the platform's `Environment.NewLine` |
| TxtToCsv.ExtractContenido | TxtToCsv/Program.cs:103-112 | the method computes Contenido for the given `newline`: the lines after the marker line, each ended by `newline`, trimmed; "" without one |
| TxtToCsv.Contenido | TxtToCsv/Program.cs:103-112 | the content is trimmed; BlockRoundTrip.ContentRead reads a written block's content back as written |
| TxtToCsv.BlankLineContenido | TxtToCsv/Program.cs:103-112 | a blank line after the marker survives in the content as two `newline`s |
| TxtToCsv.BlankLineInContent | TxtToCsv/Program.cs:103-132 | content lines separated by a blank line are joined by one space with LF line ends and by two with CR LF, since `\r?\n+` matches each CR LF on its own |
| TxtToCsv.HoursLexeme | TxtToCsv/Program.cs:117 | the match starts with a digit and holds only digits, commas and dots; none exactly when the text has no digit |
| TxtToCsv.ParseHours | TxtToCsv/Program.cs:114-121 | the hours are a canonical decimal, 0 for blank text |
| TxtToCsv.StripHtml | TxtToCsv/Program.cs:123-132 | the result has no line feed and is no longer than the input |
| TxtToCsv.StripHtmlDecodes | TxtToCsv/Program.cs:123-132 | trimmed one-line text without tags is only decoded |
| TxtToCsv.StripHtmlPlain | TxtToCsv/Program.cs:123-132 | trimmed one-line text without `<` or `&` is unchanged |
| TxtToCsv.RowValues | TxtToCsv/Program.cs:53-66 | every block gives five values |
| TxtToCsv.Row | TxtToCsv/Program.cs:61-67 | the five values joined by `;`, all but the hours escaped; TxtToCsv.RowReadsBack reads it back as its five values |
| TxtToCsv.RowReadsBack | TxtToCsv/Program.cs:61-67 | every written row reads back, split at unquoted `;`, as its five values |
| TxtToCsv.ConvertBlock | TxtToCsv/Program.cs:53-67 | the loop body computes the block's Row, its content read with the given `newline` |
| TxtToCsv.CsvLines | TxtToCsv/Program.cs:43-68 | the header, then exactly one line per block |
| TxtToCsv.ConvertText | TxtToCsv/Program.cs:48-68 | the writing loop produces CsvLines |
| TxtToCsv.LastDot | TxtToCsv/Program.cs:37 | the last `.` before a position with no separator (`/`, and `\` on Windows) after it; none exactly when every `.` before the position has a separator after it |
| TxtToCsv.ChangeExtension | TxtToCsv/Program.cs:37 | on the given platform, the result is a prefix of the path followed by the extension: the path cut at its last `.` after the last separator, or the whole path when every `.` has a separator after it; empty stays empty |
| TxtToCsv.RunConverter | TxtToCsv/Program.cs:13-78 | usage without arguments, a missing-file stop, a missing `-csv` stop, a failed read, or the CSV lines of the text, contents read with the platform's `Environment.NewLine`, at the `.csv` path the platform's ChangeExtension gives |
| TxtToCsv.NewLine | TxtToCsv/Program.cs:108-110 | CR LF exactly on Windows, LF otherwise |
| CsvFormat.Csv | TxtToCsv/Program.cs:262-278 | null becomes "", a field without `;` `,` `"` CR or LF is unchanged, any other is wrapped in quotes |
| CsvFormat.DoubleQuotes | TxtToCsv/Program.cs:274 | never shorter, unchanged without quotes |
| CsvFormat.ReadFieldOf | TxtToCsv/Program.cs:262-278 | reading an escaped field back gives the original field |
| CsvFormat.ReadRow | TxtToCsv/Program.cs:61-67 | a row read back has at least one field; CsvFormat.ReadWriteRow reads a written row back as its fields |
| CsvFormat.ReadWriteRow | TxtToCsv/Program.cs:61-67 | a row of escaped fields joined with `;` reads back as the fields |
| CsvFormat.QuotedExample | TxtToCsv/Program.cs:266-275 | `a;b"c` is written `"a;b""c"` and read back |
| LanguageDetector.DetectLanguage | TxtToCsv/Program.cs:213-260 | the result is one of es en pt fr de it und, and und for blank text |
| LanguageDetector.StopCount | TxtToCsv/Program.cs:225-230 | a count of tokens, zero exactly when no token is a stop word of the language |
| LanguageDetector.Words | TxtToCsv/Program.cs:221-223 | tokens are non-empty runs of letters |
| LanguageDetector.FirstMax | TxtToCsv/Program.cs:250 | the first position holding the highest score |
| LanguageDetector.CodeInjective | TxtToCsv/Program.cs:239-247 | each language has its own code, never und |
| LanguageDetector.FirstHighestIsFirstMax | TxtToCsv/Program.cs:250 | the stable descending sort picks the first language, in the order es en pt fr de it, with the highest score |
| LanguageDetector.DetectLanguageFirstHighest | TxtToCsv/Program.cs:249-251 | a first-highest score of at least 3 chooses that language |
| LanguageDetector.DetectLanguageChosen | TxtToCsv/Program.cs:249-251 | a language other than en is chosen only as the first-highest with a score of at least 3 |
| LanguageDetector.DetectLanguageBelowThreshold | TxtToCsv/Program.cs:253-259 | below the threshold: en exactly when all lowered characters are ASCII and there is an English stop word or there are at least five tokens, und otherwise |
| LanguageDetector.MeEncantoIsUndetermined | TxtToCsv/Program.cs:213-259 | "Me encantó" gives und: no stop word, and the accent bonus alone stays below 3 |
| DateNormalizer.MatchMonth | TxtToCsv/Program.cs:173 | the first month name the text starts with, ignoring case; none when none does |
| DateNormalizer.AbbreviatedMonthNames | TxtToCsv/Program.cs:156-157 | twelve names, each a prefix of the full month name |
| DateNormalizer.MatchTokens | TxtToCsv/Program.cs:173 | the text read field by field, consuming it all; DateNormalizer.MatchTokensFields states what it leaves alone |
| DateNormalizer.MatchTokensFields | TxtToCsv/Program.cs:173 | a field (year, month, day) that no token of the format reads keeps its value |
| DateNormalizer.ParseExact | TxtToCsv/Program.cs:173 | a date is read only through a format with a day, a month and a year field; DateNormalizer.SlashFormatParses reads a printed date back |
| DateNormalizer.SlashFormatParses | TxtToCsv/Program.cs:159 | the `yyyy/M/d` format reads a Y/M/D date with a four-digit year back as the same date |
| DateNormalizer.CleanDate | TxtToCsv/Program.cs:137-138 | the cleaned text neither starts nor ends with a comma |
| DateNormalizer.TryFormats | TxtToCsv/Program.cs:171-178 | nothing exactly when every format fails |
| DateNormalizer.DigitRun | TxtToCsv/Program.cs:173 | the digits a numeric field takes, at most its width |
| DateNormalizer.CollapseWhiteNoWhite | TxtToCsv/Program.cs:137 | text without whitespace is not changed by collapsing |
| DateNormalizer.WithYearHasYear | TxtToCsv/Program.cs:141-151 | after adding a four-digit current year, the text has a standalone four-digit year |
| DateNormalizer.Attempts | TxtToCsv/Program.cs:154-182 | eleven attempts per culture: ten formats and the free parse |
| DateNormalizer.FirstSuccess | TxtToCsv/Program.cs:169-182 | nothing exactly when every attempt fails; a result is that of some attempt |
| DateNormalizer.TryCulturesIsFirstSuccess | TxtToCsv/Program.cs:169-182 | the nested culture and format loops are the first success in the order en-US, en-GB, es-ES, each culture's formats before its free parse |
| DateNormalizer.NormalizeDateFirstWins | TxtToCsv/Program.cs:134-186 | the result is the first successful attempt as Y/M/D, or the cleaned text |
| DateNormalizer.NormalizeDateResult | TxtToCsv/Program.cs:173-185 | the result is the cleaned text or a Y/M/D date, never anything else |
| DateNormalizer.ToYyyyMD | TxtToCsv/Program.cs:134-186 | the method with its loops computes NormalizeDate |
| DateNormalizer.ParseCanonical | TxtToCsv/Program.cs:159 | a Y/M/D date is read by the `yyyy/M/d` format only |
| DateNormalizer.NormalizeCanonical | TxtToCsv/Program.cs:134-186 | normalising a Y/M/D date gives it back |
| DateNormalizer.NormalizeIso | TxtToCsv/Program.cs:159 | a zero-padded yyyy-MM-dd date is normalised to its Y/M/D form |
| Calendar.DaysInMonth | SteamReviewsScraper/ExtractSteamReviews.cs:188 | every month has 28 to 31 days |
| Calendar.FormatIso | SteamReviewsScraper/ExtractSteamReviews.cs:188 | ten characters: four year digits, two month digits and two day digits, with dashes, reading back the date |
| Calendar.FormatYmd | TxtToCsv/Program.cs:176 | year, month and day in decimal without sign or padding, joined by `/`; DateNormalizer.ParseCanonical reads the text back as the same date |
| Numbers.NatToString | TxtToCsv/Program.cs:176 | decimal digits without a leading zero, reading back the number |
| Numbers.ParseInt32 | SteamReviewsScraper/ExtractSteamReviews.cs:186 | a result is in the int range; a digit string in range reads as its value; text without digits does not parse |
| Numbers.ParseInt32OfNat | SteamReviewsScraper/ExtractSteamReviews.cs:186 | a printed number in the int range parses back |
| Numbers.ParseDecimal | TxtToCsv/Program.cs:118 | text of digits and dots parses exactly when it is not empty, not a lone dot and has at most one dot |
| Numbers.RenderDecimal | SteamReviewsScraper/ExtractSteamReviews.cs:214 | digits and dots starting with a digit |
| Numbers.ParseRenderDecimal | SteamReviewsScraper/ExtractSteamReviews.cs:214 | parsing a rendered number gives it back |
| Numbers.LeadingDigits | TxtToCsv/Program.cs:117 | the greedy digit run at the start |
| BlockRoundTrip.BlockLines | SteamReviewsScraper/ExtractSteamReviews.cs:209-217 | a block is exactly five lines: the labelled date, rating and hours, the content label and the content |
| BlockRoundTrip.ParseHoursRendered | TxtToCsv/Program.cs:114-121 | the converter reads the extractor's printed hours as the same number |
| BlockRoundTrip.ContentRead | TxtToCsv/Program.cs:103-112 | the content of a written block is read back as the written content, trimmed, whatever the newline |
| BlockRoundTrip.BlockReadsBack | TxtToCsv/Program.cs:90-112 | the converter reads a written block's date, rating and content as the trimmed values written, and its hours as the same number |
| BlockRoundTrip.BlockRow | TxtToCsv/Program.cs:53-66 | the row values of a written block are its rating, its hours, the language of its content and its content |
| BlockRoundTrip.CardRow | SteamReviewsScraper/ExtractSteamReviews.cs:65-91 | the converter's row for a card carries the card's rating, hours and content |
| BlockRoundTrip.IsoDateRow | TxtToCsv/Program.cs:53-58 | a date the extractor wrote as yyyy-MM-dd reaches the row as the same date in Y/M/D form |
| BlockRoundTrip.MarkerFound | TxtToCsv/Program.cs:106 | the content marker of a written block is found at its fourth line |
| FileRoundTrip.SeparatorMatches | SteamReviewsScraper/ExtractSteamReviews.cs:95-96 | the separator the extractor writes, a newline, 80 dashes and a newline (LF or CR LF), is matched whole by the converter's split pattern, whatever follows it |
| FileRoundTrip.SplitFromShift | TxtToCsv/Program.cs:43 | scanning a suffix of a text gives the same pieces as scanning the whole text from the same point |
| FileRoundTrip.PieceSplit | TxtToCsv/Program.cs:43 | a piece with no match starting inside it, followed by a match, splits off as one piece |
| FileRoundTrip.BlockSeparable | SteamReviewsScraper/ExtractSteamReviews.cs:209-217 | a block with one-line fields and content kept whole is non-empty, trimmed, and no separator starts inside it whatever line break follows |
| FileRoundTrip.EntrySplit | SteamReviewsScraper/ExtractSteamReviews.cs:95-96 | an entry, the block then the dashed line, splits off as exactly its block |
| FileRoundTrip.SplitEntries | TxtToCsv/Program.cs:43 | written entries split into their blocks, in order, and the empty text after the last separator |
| FileRoundTrip.TrimmedNonBlankOf | TxtToCsv/Program.cs:44-45 | trimming and dropping blank pieces removes only that empty last piece |
| FileRoundTrip.BlocksOfEntries | TxtToCsv/Program.cs:43-45 | the converter's blocks of written entries are exactly the blocks written, in order |
| FileRoundTrip.WrittenBlocks | SteamReviewsScraper/ExtractSteamReviews.cs:93-112 | the single file holds the block of every card, in order; a split file at most as many |
| FileRoundTrip.FileIsEntries | SteamReviewsScraper/ExtractSteamReviews.cs:93-114 | the text of a file is the entries of the blocks written to it |
| FileRoundTrip.FileBlocks | SteamReviewsScraper/ExtractSteamReviews.cs:93-114 | every file the extractor writes, the single file or a split one, is read by the converter as the blocks of its cards, in order |
| FileRoundTrip.AllFileRows | TxtToCsv/Program.cs:43-68 | the CSV of all_reviews.txt has the header and one row per review in page order; row k reads back as five values whose last four are review k's rating, hours, content language and content |

## Left out

- Playwright: launching the browser, navigating, the scroll loop and saving `page.html` are I/O. The model starts from the saved page's cards.
- ScraperCli.ParseCommandLine: when the slug is missing or blank, the program reads the name from the community reviews page it has opened (`.apphub_AppName.ellipsis`, then `.apphub_AppName, .app_tag, .apphub_AppNameContainer`, trimmed, errors ignored) and otherwise uses the empty name (SteamReviewsScraper/Program.cs:80-100). That read is browser I/O: in the model the name stays `None`, that is empty, where the program may find it on the page.
- The HTTP fetches of the store page (`FetchPrice`, `FetchReleaseAndDeveloper`) and the overview's markdown file are network and file output. Their results are not modelled.
- Console messages, prompts other than the launch price, `Process.Start`, `AbrirCarpeta` and the desktop path are I/O.
- `Directory.CreateDirectory` and the BOM check (`DetectEncoding`) are I/O. Files are modelled as the texts they receive, and the rename as the final file names.
- The HTML parser and XPath queries are a library. Nodes are records of optional strings, already selected.
- Entity decoding (`DeEntitize`, `HtmlDecode`) covers a small table (`&amp;` `&lt;` `&gt;` `&quot;` `&apos;` `&#39;` `&nbsp;`). Other entities are kept as text.
- AppNameOf / UrlDecode: `%XX` escapes of non-ASCII (UTF-8) bytes are kept as text, because decoding them needs UTF-8 decoding.
- `\d` is taken as the ASCII digits. .NET also matches other Unicode decimal digits, which `int.Parse` and `double.TryParse` reject.
- Case folding covers ASCII and Latin-1 letters. `\p{L}` covers the Latin, Greek, Cyrillic, CJK, kana and Hangul blocks.
- Floating point is left out. Hours and prices are exact decimals, revenue is a `real`, and rounding in `double` and its printing (`ToString` with 15-17 significant digits, exponent forms) is not modelled. Parsed numbers are digits with at most one dot; the sign and exponent forms `NumberStyles.Any` also accepts are not.
- Html.DecodeEntities: no line feed is added only because the table above has no reference to one; numeric references such as `&#10;` are kept as text.
- TxtToCsv.StripHtml: its no-line-feed guarantee holds for the reference table above. `WebUtility.HtmlDecode` also decodes numeric references such as `&#10;`, which put a line feed back after the collapse.
- ExtractSteamReviews.ParseHours / TxtToCsv.ParseHours: an hours lexeme too long for a `double` is not distinguished.
- AppDataOverview.GetAppData: `totalReviews * 30` does not wrap around at 32 bits. The exception caught around the thumb loop is taken as "no divs".
- The date parsing of .NET cultures (`DateTime.TryParseExact`, `TryParse`) is modelled by explicit English and Spanish month tables. The free parse is a parameter, and `DateTime.Now.Year` is the `currentYear` parameter.
- `ParseDate`'s two exceptions (the fifth part read out of range, an invalid date) are error results that abort `Run`, as the exception would.
- BlockRoundTrip.BlockReadsBack requires date, rating and content without a line feed. A rating with a line feed is split by the converter into two lines.
- FileRoundTrip.AllFileRows requires each review's date and title to be one line, and its content to be non-empty, trimmed, one line, and not to start with three or more dashes that end it or are followed by a carriage return. Other content may be cut or merged at the separator split.

## Behaviours worth knowing

Three behaviours of the code a reader might not expect, which the model keeps:

- The converter's language guess gives `und` for "Me encantó" (TxtToCsv/Program.cs:213-259). Neither word is a stop word of any language, and the accent bonus alone (2 for each language whose accented letters appear) stays below the threshold of 3 (`LanguageDetector.MeEncantoIsUndetermined`).
- The extractor's sanitiser decodes character references once (SteamReviewsScraper/ExtractSteamReviews.cs:87), so it is not idempotent: `&amp;lt;` gives `&lt;`, and sanitising that again gives `<` (`ExtractSteamReviews.SanitizeTwiceDiffers`).
- The converter's cleaned content depends on the platform it runs on (TxtToCsv/Program.cs:108-110, 130). The lines after the marker are re-joined with `Environment.NewLine`, and `\r?\n+` then matches a run of LF line ends as one break but each CR LF as a break of its own. So content lines separated by a blank line are joined by one space on Unix and by two on Windows (`TxtToCsv.BlankLineInContent`).
