# Receipt scanner extraction engine

A Dafny model of the text-extraction core of the receipt scanner in `app.js`.
After OCR, `processSummary` turns the raw receipt text into three form fields.
Each field has its own step:

- **Store.** `autoDetectStore` scores the text against a table of store
  fingerprints (`BRAND_DATA`). Each fingerprint has instant terms, strong anchors
  matched exactly or fuzzily, and weak terms. Fuzzy matching uses a normalised
  Levenshtein similarity (`similarity`), computed by a rolling-row dynamic
  program (`editDistance`). The 0.7 threshold tolerates one misread character in
  words of four or more characters and two in words of seven or more. Shorter
  anchors such as "MEMBER" or "26" are given less slack than the "1 or 2 character"
  comment at app.js:61 suggests.
- **Date.** The first `\d{1,2}[/-]\d{1,2}[/-]\d{2,4}` substring is handed to the
  host date parser and rendered as `MM/DD/YY` (`formatToShortDate`). Otherwise
  today's date is used, and a "defaulted" badge is raised. The model also
  includes the input mask of the date field.
- **Total.** The consensus total resolver. Every line that ends in a price and is
  not a savings line becomes a scored candidate. A price seen on two or more
  candidate lines wins; otherwise the best-scored candidate wins.

Modules:

| module | file | contents |
|---|---|---|
| `Optional` | optional.dfy | `Option` |
| `Text` | text.dfy | JS string operations the core relies on: `toUpperCase`/`toLowerCase` (ASCII), `includes`, `trim`, `split('\n')`, `split(/\s+/)`, `replace(/\D/g, '')`, integer rendering |
| `Levenshtein` | levenshtein.dfy | the reference `Distance`, the rolling-row `EditDistance`, `Similarity` |
| `Brands` | brands.dfy | the fingerprint table and `AutoDetectStore` |
| `Dates` | dates.dfy | `FormatShortDate`, `DateMask`, the date search, `ExtractDate` |
| `Totals` | totals.dfy | line cleaning, trailing prices, candidates, `ResolveTotal` |
| `Receipt` | receipt.dfy | `ProcessSummary`, the composition of the three steps |

Modelling choices:

- **Prices** are integer cents. `parseFloat` followed by `toFixed(2)` is exact
  for receipt-sized amounts, so the model reads a price as its digits.
- **Similarities** are exact fractions (`Ratio`). The 0.7 threshold becomes
  `10 * num >= 7 * den`.
- **The clock and the date parser** are parameters. `new Date()` is the
  parameter `today`. `new Date(string)` is an arbitrary function
  `parse: string -> Option<JsDate>`, which yields `None` for an invalid date.
- **The regular expressions** are each modelled twice. One is a direct
  predicate saying what the expression accepts (`ShapedAt`, `PriceMatchAt`).
  The other is the computation (`FindDate`, `TrailingPrice`). A contract links
  the two, including leftmost-match and greedy-length rules.

## Model

| member | source | states |
|---|---|---|
| Levenshtein.EditDistance | app.js:38-54 | the rolling single-row computation, with `lastValue` carrying the left neighbour, returns exactly the Levenshtein distance of the lower-cased strings as defined by the recursive recurrence `Distance` |
| Levenshtein.NextRow | app.js:42-51 | one pass of the outer loop turns row i - 1 of the distance table into row i; row 0 is built by appending j |
| Levenshtein.DistanceZeroIff | app.js:38-54 | the edit distance is 0 exactly when the two strings are equal |
| Levenshtein.DistanceBounds | app.js:38-54 | the distance lies between the difference of the lengths and the longer length |
| Levenshtein.DistanceAtMostMismatches | app.js:38-54 | for equally long strings the distance is at most the number of differing positions |
| Levenshtein.Similarity | app.js:30-36 | the similarity is a fraction in [0, 1]; it is 1 exactly when the lower-cased strings are equal, and 1 for two empty strings |
| Levenshtein.ComputeSimilarity | app.js:30-36 | computing the similarity through the rolling-row edit distance gives the same fraction as the reference definition |
| Levenshtein.OneMisreadClearsThreshold | app.js:61-72 | one misread character in a word of four or more letters still clears the 0.7 fuzzy threshold, as the threshold's comment intends |
| Levenshtein.TwoMisreadsClearThreshold | app.js:61-72 | two misread characters still clear the 0.7 threshold when word and anchor have seven or more characters |
| Levenshtein.TwoDropsMissThreshold | app.js:61-72 | a word that lost two characters of an anchor of six or fewer characters does not clear the threshold, so the "1 or 2 character" tolerance of the comment at app.js:61 does not hold for the short anchors |
| Levenshtein.ShortAnchorNeedsExactWord | app.js:61-72 | an anchor of three or fewer characters (such as "26") is matched by a word no longer than it only when the two are equal up to case |
| Levenshtein.KrogerMisreadMatches | app.js:61-72 | "KR0GER" fuzzily matches "KROGER" |
| Brands.AutoDetectStore | app.js:56-80 | the detected store is "Other" or the name of a fingerprint table entry |
| Brands.FirstInstantWins | app.js:63-67 | the first entry, in table order, whose instant term occurs in the upper-cased text is the answer, whatever any entry scores |
| Brands.NoInstantPicksBestScore | app.js:68-77 | with no instant hit, the answer is none exactly when every entry scores 0; otherwise it is an entry of maximal score and the earliest among ties, because the update needs a strictly higher score |
| Brands.OtherIffNothingScores | app.js:59-79 | "Other" is returned exactly when no instant term occurs and every fingerprint scores 0 |
| Brands.FuzzyHits | app.js:72 | the fuzzy hits of an anchor number at most the words; there are none exactly when no word reaches the 0.7 similarity, and every word counts exactly when all of them reach it |
| Brands.FuzzyHitsAppend | app.js:72 | fuzzy hits are counted word by word: the hits of two word lists add up, so with the one-word case fixed by `FuzzyHits` the count is exactly the number of resembling words |
| Brands.AnchorPointsPerWord | app.js:70-72 | for an anchor missing from the text the points add up over word lists, and one word gives 2 when it resembles the anchor and 0 otherwise |
| Brands.AnchorPoints | app.js:69-74 | a strong anchor adds nothing exactly when it is not in the text and no word resembles it, and exactly 2 when it is in the text, however many words resemble it |
| Brands.StrongPointsZeroIff | app.js:69-74 | the strong anchors add nothing exactly when every one of them is silent (absent and not fuzzily matched) |
| Brands.StrongPointsAllFound | app.js:69-74 | when every strong anchor occurs in the text, the strong anchors add exactly 2 each |
| Brands.WeakPoints | app.js:75 | the weak terms add at most one point each; nothing exactly when none occurs, and one each exactly when all occur |
| Brands.WeakPointsAppend | app.js:75 | weak points are counted term by term: the points of two term lists add up, so the score is exactly the number of weak terms found |
| Brands.ScoreZeroIff | app.js:68-75 | a fingerprint's `Score` is 0 exactly when every strong anchor is silent and no weak term occurs, which is when it cannot displace the current best |
| Brands.BrandDataNamesDistinct | app.js:19-27 | the table names are distinct and none is "Other" |
| Brands.CostcoInstant | app.js:63-67 | a text reading COSTCO, with neither MEIJER nor KROGER, is detected as Costco |
| Dates.FormatShortDate | app.js:87-90 | the short form has slashes at positions 2 and 5, the month and day as two zero-padded digits, and for a four-digit year the year modulo 100 as two digits |
| Dates.ShortDateRoundTrip | app.js:87-90 | for four-digit years, reading the short form back gives the month, the day and the year modulo 100 |
| Dates.DateMask | app.js:93-95 | the masked value keeps exactly the first six digits of the input, in order; its length is the number n of kept digits plus one slash once n reaches 2 and another once n reaches 4 (so "1234" gives "12/34/"); slashes appear exactly at positions 2 and 5 and every other character is a digit |
| Dates.DateMaskIdempotent | app.js:93-95 | masking an already masked value changes nothing |
| Dates.FindDate | app.js:161 | no date is found exactly when no substring has the shape `\d{1,2}[/-]\d{1,2}[/-]\d{2,4}`; a found date is the leftmost such substring, and the longest one at that position |
| Dates.DateFoundUnique | app.js:161 | the leftmost-longest match is unique |
| Dates.ExtractDate | app.js:161-172 | without a match, or when the matched text does not parse, the field is today's short date with the defaulted badge and no today badge; when it parses, the field is the parsed date's short form, not defaulted, and the today badge is raised exactly when that equals today's short form |
| Dates.ExtractDateIsShortDate | app.js:161-172 | with four-digit years, the date field always reads back as a well-formed MM/DD/YY |
| Text.Split | app.js:154 | `split('\n')` yields at least one piece, no piece contains a newline, and re-joining the pieces with newlines gives the text back |
| Text.Trim | app.js:154 | `trim` returns a slice of the input with only whitespace removed before and after it, and no whitespace at either end |
| Text.Words | app.js:58 | `split(/\s+/)` yields at least one piece; the text is the pieces joined by non-empty whitespace runs; no piece holds whitespace; only the first and the last piece can be empty |
| Text.KeepDigits | app.js:93 | `replace(/\D/g, '')` yields only digits, no longer than the input, and leaves a digit string unchanged |
| Text.KeepDigitsMembers | app.js:93 | a character is in the result exactly when it is a digit of the input |
| Text.KeepDigitsAppend | app.js:93 | removing the non-digits distributes over concatenation, so the kept digits stay in input order |
| Totals.TrimAll | app.js:154 | `map(l => l.trim())` keeps the length and trims each piece in place |
| Totals.KeepLonger | app.js:154 | `filter(l => l.length > 1)` keeps, in order and each once, exactly the pieces longer than one character: an increasing list of positions picks them and covers every such piece |
| Totals.CleanLines | app.js:154 | the lines are the trimmed newline-separated pieces longer than one character, in text order and with repeats kept; each has no whitespace at either end |
| Totals.TrailingPrice | app.js:181-184 | a found price is the value of a match of `(\d+[.,]\d{2})[^\d]*$` in the line; TrailingPriceMatches adds the converse and the leftmost choice |
| Totals.TrailingPriceMatches | app.js:181-184 | a price is found exactly when the line matches `(\d+[.,]\d{2})[^\d]*$`; its value in cents is the leftmost match's whole part times 100 plus its two fraction digits |
| Totals.ToFixed2 | app.js:207 | `toFixed(2)` renders digits, a point and exactly two more digits, with no leading zero except in "0.xx"; ToFixed2RoundTrip reads it back |
| Totals.ToFixed2RoundTrip | app.js:184-207 | rendering a total with two decimals and extracting the trailing price gives the total back |
| Totals.SavingsIgnoresCase | app.js:179-180 | the savings test reads the upper-cased line, so lower- or upper-casing the line does not change it |
| Totals.LineScore | app.js:187-190 | the score is at most 55 with a remainder of 0, 5, 20 or 25 modulo 30, and its parts read back: at least 30 exactly with a tender word, a remainder of 20 or more modulo 30 exactly with a total word, and a last digit 5 exactly for a late line; together these fix the score as 20 with a total word, plus 30 with a tender word, plus 5 for a late line |
| Totals.Candidates | app.js:178-194 | the candidates are exactly the priced, non-savings lines, in line order, each with its price and the score of its keywords and position |
| Totals.MaxRepeatedFrom | app.js:196-200 | the chosen duplicate is a price that occurs on at least two candidate lines and is at least every such price |
| Totals.TopFrom | app.js:202-203 | the selected candidate is first under the sort order: no candidate has a higher score, or the same score and a later line |
| Totals.ResolveTotal | app.js:196-204 | when some price repeats, the total is the largest repeated price; when none repeats, it is the price of the best-scored candidate, with ties going to the later line; with no candidates it is 0 |
| Totals.ReceiptTotal | app.js:175-204 | with no priced non-savings line the total is 0; otherwise it is the trailing price of one of those lines |
| Totals.TotalIsALinePrice | app.js:175-204 | the total is 0 or the trailing price of a non-savings line of the receipt |
| Totals.OnlySavingsGivesZero | app.js:180-197 | a receipt whose every priced line is a savings line has total 0 |
| Totals.RepeatedPriceBeatsScore | app.js:199-200 | a price on two candidate lines makes the total a repeated price at least as large, whatever any line scores |
| Totals.IsLateScaleInvariant | app.js:190 | the corrected 70% position test depends only on the ratio of index to line count |
| Totals.LateBoundaryDiscrepancy | app.js:190 | as written in double precision, line 63 of 90 is late but line 7 of 10 is not, while the corrected test treats both the same |
| Receipt.ProcessSummary | app.js:153-207 | the store is "Other" or a table name; the total field reads back as the total; the total is 0 or a non-savings line's price; a defaulted date is today's and never raises the today badge |

## Left out

- The camera, OCR, uploads, the DOM, the badge `display` styles and `toggleCustomStore`
  are not modelled. The store-match badge (app.js:65, 78) follows from the return
  value: it is shown exactly when the result is not "Other".
- `toUpperCase` and `toLowerCase` are modelled on ASCII letters only. Other
  characters are left unchanged, so case mappings such as "ß" to "SS" are not
  modelled. Strings are sequences of code points, not UTF-16 code units.
- `new Date()` and `new Date(string)` are parameters, not a model of the host's
  clock and date parser. `getFullYear().toString().substring(2)` is modelled for
  any integer year, but the round-trip and well-formedness lemmas assume
  four-digit years.
- Levenshtein.Similarity: the result is the exact fraction, not the double the
  source divides out. The `>= 0.7` comparison agrees with the double for every
  realistic word length, but that is not proved.
- Totals.TrailingPrice: amounts are exact cents. Rounding of very large amounts
  by `parseFloat`, `toFixed` and the `priceCounts` object keys is not modelled.
- Totals.IsLate: the model uses the exact test 10 * index > 7 * count. The
  floating-point `index > lines.length * 0.7` is modelled separately, as
  Totals.LateAsWritten (see Findings).
- The date field's input listener also hides both badges (app.js:96). That is
  DOM state and is not modelled.
- The "today" badge is raised only when a matched date parses and equals today;
  a defaulted date never raises it.
- `processSummary` keeps no state between calls, so running it twice on the
  same text gives the same fields. The model is a pure function, so this holds
  by construction and is not stated as a separate lemma.

## Findings

| source | as written | input that shows it | evidently intended | confidence | as-written member | corrected member |
|---|---|---|---|---|---|---|
| app.js:190 | `index > lines.length * 0.7` compares against a rounded double: 0.7 * 90 is 62.99999999999999, so line 63 of 90 gets the +5, but 0.7 * 10 is exactly 7, so line 7 of 10 does not | 90 cleaned lines, a candidate at index 63 | a line scores +5 exactly when its index exceeds 70% of the line count, the same at every receipt length | not executed; derived from IEEE-754 double rounding of 0.7 and of the product | Totals.LateAsWritten, Totals.LateBoundaryDiscrepancy | Totals.IsLate, Totals.IsLateScaleInvariant |
