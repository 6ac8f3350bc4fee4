# EdTechConnect university scraper — the pure logic, modelled in Dafny

`getuniv-social-data.py` keeps a roster of universities in a CSV file. It enriches the
roster in batches with figures scraped from Wikipedia and Facebook. For each vendor in
a list, it also guesses the URL the university would use for that vendor's service.
Around the HTTP and HTML plumbing sit five pieces of plain, sequential logic. This
project models them and proves what they guarantee:

- **Number extraction** (`extractnumber`): the first match of `\d*,?\d*,?\d*,?\d+,?\d+`
  with its commas removed. It is modelled as an explicit backtracking matcher with
  Python's greedy, leftmost choice (module `NumberExtract`, on top of `Text`).
- **Row selection** (the first half of `getdata`): which rows, at most 50, are scraped
  next (module `RowSelection`). A roster is a `Frame`: a height plus a map from column
  name to cells, where a cell is `Some(text)` or `None` for NaN (module `Frames`).
- **Merging scraped values** (`assignvalues`, and the column creation in `getdata`):
  a last-write-wins overwrite of one row that creates missing columns as `''`
  (modules `Frames` and `Enrichment`).
- **Vendor candidate URLs** (the string part of `getvendors`): the skip rule, the
  normalisation of the website and the two candidate hosts (module `VendorUrls`).
- **The Facebook block scan** (`fbdata`): a fold over the page's `div._4bl9` blocks
  that reads like and follow counts. The scrape timestamp is a parameter
  (module `FacebookScan`).

Some modelling choices:

- `Option` and `Result` (module `Wrappers`) stand for NaN and for the exceptions the
  script raises. Examples are `IndexError` from `findall(...)[0]` and from a block
  without an inner `div`.
- Date strings have the form `%Y-%m-%d %H:%M`, so Python's string order is
  chronological. It is modelled as `Text.LexLe`, which is proved total, transitive
  and antisymmetric.
- The website is normalised by removing *every* `https://` and then *every* `www`
  followed by any character other than a newline (the regular expression `www.`),
  wherever they occur in the string, not only at its start
  (`VendorUrls.NormalizeInner`, `VendorUrls.NormalizeLeading`).
- A selection row is a row position. The script scrapes rows by index label, and
  the index of a freshly read CSV is exactly the row positions.

## Model

| member | source | states |
|---|---|---|
| Text.ContainsIff | getuniv-social-data.py:163-165 | `re.findall(pat, s)` is non-empty exactly when `pat` occurs in `s` at some position |
| Text.LexLeTotal | getuniv-social-data.py:95 | any two date strings are comparable, so sorting by `date` is well defined |
| Text.LexLeTransitive | getuniv-social-data.py:95 | string order on dates is transitive |
| Text.LexLeAntisymmetric | getuniv-social-data.py:95 | two dates each not after the other are the same string |
| NumberExtract.DigitRun | getuniv-social-data.py:17 | a greedy `\d*` takes the longest run of digits that starts at the position |
| NumberExtract.MatchAt | getuniv-social-data.py:17 | an anchored match of the pattern consumes only digits and commas and stays inside the string |
| NumberExtract.TryDigits | getuniv-social-data.py:17 | backtracking a digit token (giving back one digit at a time) still yields only digit-and-comma spans |
| NumberExtract.TryDigitsChoice | getuniv-social-data.py:17 | a backtracked digit token succeeds only by handing the rest of the pattern a position between its minimum and its greedy length |
| NumberExtract.LastRunEnds | getuniv-social-data.py:17 | the final `\d+` of the pattern ends exactly where the digit run ends |
| NumberExtract.MatchHasPair | getuniv-social-data.py:17 | every match contains two digits that are adjacent or split by one comma, and ends where a digit run ends |
| NumberExtract.PairMatches | getuniv-social-data.py:17 | the pattern matches at every position holding such a pair of digits |
| NumberExtract.FirstMatch | getuniv-social-data.py:17 | `findall(...)[0]` is the match at the leftmost position where the pattern matches; no match exists when it reports none |
| NumberExtract.Span | getuniv-social-data.py:17 | a match exists iff the string has two digits adjacent or split by one comma; the first match is digits and commas, covers the leftmost such pair and stops where a digit run stops |
| NumberExtract.StripCommas | getuniv-social-data.py:17 | `.replace(',', '')` removes exactly the commas: the result has no comma and every other character as often as the input; a string without commas is unchanged |
| NumberExtract.StripCommasAppend | getuniv-social-data.py:17 | removing commas works piecewise on a concatenation, so the kept characters stay in their order |
| NumberExtract.StripOneComma | getuniv-social-data.py:17 | a thousands separator between two comma-free pieces is dropped and the pieces are joined |
| NumberExtract.Extract | getuniv-social-data.py:16-17 | `extractnumber` fails (IndexError) exactly when there is no such pair; otherwise it returns two or more characters, all digits, which are the first match without its commas |
| NumberExtract.ExtractDigits | getuniv-social-data.py:16-17 | on a string of two or more digits, `extractnumber` returns the string itself |
| NumberExtract.ExtractIdempotent | getuniv-social-data.py:16-17 | `extractnumber(extractnumber(s)) == extractnumber(s)` wherever the first call succeeds |
| NumberExtract.LeadingNumberSpan | getuniv-social-data.py:17 | on a string that opens with a pair followed by digits, the first match runs from the start to where the digits and commas stop |
| NumberExtract.ExtractLeading | getuniv-social-data.py:16-17 | such a string gives its opening number with the commas removed |
| NumberExtract.ExtractStudents | getuniv-social-data.py:16-17 | `1,234` followed by a space and any text (such as `"1,234 students"`) gives `"1234"` |
| NumberExtract.ExtractNoNumber | getuniv-social-data.py:16-17 | `"1 like, 2 follow"` has no two close digits and gives the IndexError result |
| Frames.Blank | getuniv-social-data.py:84 | `df[k] = ''` makes a column holding `''` in every row |
| Frames.AddMissingColumns | getuniv-social-data.py:97-105 | every key becomes a column; existing columns keep their cells; new columns are `''` in every row |
| Frames.Assign | getuniv-social-data.py:122-132 | every key of the mapping is a column; cell (key, inx) is the mapping's value; columns not in the mapping and all other rows are unchanged; a new column is `''` in the other rows |
| Frames.FrameExt | getuniv-social-data.py:122-132 | two frames with the same shape and the same cells are equal (the extensionality the merge lemmas rest on) |
| Frames.AssignIdempotent | getuniv-social-data.py:122-132 | merging the same mapping into the same row twice equals merging it once |
| Frames.AssignLastWriteWins | getuniv-social-data.py:129-130 | merging `d1` then `d2` into a row equals merging `d1 + d2`, where `d2` wins on shared keys |
| Frames.AssignAfterPreCreate | getuniv-social-data.py:97-105 | once the keys were created up front, the merge adds no column |
| Frames.AddMissingColumnsIdempotent | getuniv-social-data.py:97-105 | creating the columns a second time changes nothing |
| RowSelection.MissingRows | getuniv-social-data.py:86-87 | `df[natvalues]`: exactly the positions of rows whose date is NaN, in increasing order |
| RowSelection.Sort | getuniv-social-data.py:95 | sorting by date yields a permutation of the rows in ascending date order that keeps distinct rows distinct |
| RowSelection.Insert | getuniv-social-data.py:95 | inserting one row into a date-sorted list keeps it sorted and adds exactly that row |
| RowSelection.LeftOutIsLater | getuniv-social-data.py:95 | a row cut off by `[:50]` after sorting has a date no earlier than any row kept |
| RowSelection.Oldest | getuniv-social-data.py:95 | `sort_values(by='date')[:50]` takes min(50, n) distinct rows, oldest first, and no row left out is older than a row taken |
| RowSelection.TakeMissing | getuniv-social-data.py:88-93 | the unscraped rows capped at 50 are the earliest rows with a NaN date, in roster order |
| RowSelection.SelectRows | getuniv-social-data.py:82-95 | at most 50 distinct rows. With no `date` column: the first min(50, n) rows in order. With k > 0 NaN dates: the first min(k, 50) of those rows in order. Otherwise: the min(50, n) oldest rows, oldest first, with none left out older |
| VendorUrls.MissingChar | getuniv-social-data.py:163 | text lacking one of the pattern's characters does not contain the pattern (why `https://example.com` has no `edu`) |
| VendorUrls.RemoveAll | getuniv-social-data.py:172 | `re.sub` with a literal pattern never lengthens the string, shortens it by at least the pattern's length when the pattern occurs, and leaves it unchanged when the pattern is absent |
| VendorUrls.RemoveAllSkip | getuniv-social-data.py:172 | text in front that cannot start the pattern is kept as it is |
| VendorUrls.RemoveAllInner | getuniv-social-data.py:172 | an occurrence after such text is removed, whatever follows it |
| VendorUrls.RemoveWww | getuniv-social-data.py:175 | `re.sub('www.', '', s)` never lengthens the string, shortens it by at least four when `www` and a non-newline occur, and changes nothing without a `www` |
| VendorUrls.RemoveWwwSkip | getuniv-social-data.py:175 | text in front without a `w` is kept as it is |
| VendorUrls.RemoveWwwInner | getuniv-social-data.py:175 | `www` plus any non-newline character after such text is removed, whatever follows it |
| VendorUrls.Normalize | getuniv-social-data.py:171-177 | the site is no longer than the website, and a website with neither `https` nor `www` is kept as it is |
| VendorUrls.NormalizeInner | getuniv-social-data.py:171-177 | a `https://www.` in the middle of the website is removed, and the text around it is kept |
| VendorUrls.NormalizeUnguarded | getuniv-social-data.py:171-177 | the two `if` guards only skip substitutions that would change nothing |
| VendorUrls.NormalizeLeading | getuniv-social-data.py:171-177 | a website `https://www.` + host, with no further `https://` or `www`, normalises to the host |
| VendorUrls.SplitDots | getuniv-social-data.py:181 | `split('.')` gives at least one label, none containing a dot, and joining them with dots gives the string back |
| VendorUrls.SplitJoin | getuniv-social-data.py:181-185 | splitting undoes joining for dot-free labels |
| VendorUrls.PlanFor | getuniv-social-data.py:159-185 | a website is skipped (`NA`) iff it is NaN or has no `edu`. Otherwise the primary candidate is `https://` + vendor + `.` + site. The fallback is `https://` + the site's labels with the vendor spliced in as the second label, joined by dots. With a dot-free vendor, the fallback's labels are the site's labels with the vendor spliced in second, so it has one more label than the site, and removing that label gives the site back |
| VendorUrls.PlanColumn | getuniv-social-data.py:157-185 | one plan per website, in roster order |
| VendorUrls.UniversitySite | getuniv-social-data.py:171-185 | `https://www.<name>.edu` gives `https://<vendor>.<name>.edu` and `https://<name>.<vendor>.edu` |
| VendorUrls.QualtricsExample | getuniv-social-data.py:171-185 | `https://www.example.edu` with `qualtrics` gives `https://qualtrics.example.edu` and `https://example.qualtrics.edu` |
| VendorUrls.NonEduSkipped | getuniv-social-data.py:163-165 | `https://example.com` is skipped |
| FacebookScan.ScanBlock | getuniv-social-data.py:31-37 | a block raises iff it has no inner `div`, or it mentions likes or follows without a number. A text with "like this" sets the likes to its first number, one with "follow this" sets the follows, and otherwise those fields stay; the date is untouched |
| FacebookScan.ScanBlocksSpec | getuniv-social-data.py:30-39 | the scan raises iff some block would. Otherwise the date is untouched, a page with no counting block leaves the record unchanged, and each count is either the earlier value or two or more digits read from the page |
| FacebookScan.ScanBlocksSnoc | getuniv-social-data.py:30-39 | scanning one more block continues from the record the shorter scan produced |
| FacebookScan.LastBlockDecides | getuniv-social-data.py:33-36 | a later block overrides an earlier one: when the last block mentions likes (or follows), its count is the one reported |
| FacebookScan.FbDataAsWritten | getuniv-social-data.py:30-41 | as written: raises iff some block would; otherwise the counts are those of the scan and the date is always the current time, even for a page without counts |
| FacebookScan.EmptyPageStampedAsWritten | getuniv-social-data.py:40-41 | as written, a page with no blocks at all still gets a scrape date |
| FacebookScan.FbData | getuniv-social-data.py:30-41 | corrected: raises iff some block would; sets the date to now iff some block carries a count; a page without counts leaves the record as it was |
| FacebookScan.FbDataAgrees | getuniv-social-data.py:40-41 | the corrected and the as-written versions agree on every page that carries a count |
| Enrichment.PrepareColumns | getuniv-social-data.py:100-105 | the columns are the old ones plus every Wikipedia and Facebook key; old columns keep their cells; a created column is `''` in every row; the height is kept |
| Enrichment.GuardsAlwaysHold | getuniv-social-data.py:110-114 | `any(datatoscrape_wiki)` and `any(datatoscrape_fb)` test the keys and are always true, so both merges always run |
| Enrichment.MergeRow | getuniv-social-data.py:110-115 | after both merges the row holds the Wikipedia values and the Facebook record; columns outside the scrape keys and all other rows are unchanged |
| Enrichment.EnrichRow | getuniv-social-data.py:109-115 | one loop step, as written, raises iff the Facebook page has a fatal block; otherwise it merges the record the as-written scan produced, whose date is always now |
| Enrichment.EnrichRowCorrected | getuniv-social-data.py:109-115 | the same step with the corrected scan: raises iff the page has a fatal block; otherwise it merges the record the corrected scan produced |
| Enrichment.EnrichPreparedKeepsColumns | getuniv-social-data.py:97-115 | after column preparation, enriching a row creates no further column |
| Enrichment.CountlessPageCarriesOver | getuniv-social-data.py:109-115 | as written, a page with no counts passes on the previous row's counts, with the date set to now |
| Enrichment.CountlessPageCarriesOverCorrected | getuniv-social-data.py:109-115 | with the correction, a page with no counts passes on the previous row's record whole, date included |

## Left out

- HTTP requests, `sleepytime`'s random delay and `datetime.now()`. These are I/O and nondeterminism. The Facebook page is given as a list of blocks, and the clock reading as the `now` parameter.
- HTML parsing by BeautifulSoup/lxml and `pd.read_html`. `wikidata` is left out whole: its table lookup indexes a list with a DataFrame, so it has no reliable meaning. The model takes its result as a parameter with exactly its five keys.
- The probe outcome handling in `getvendors` (lines 189-220). It depends on the HTTP library's exceptions. As written, `except ConnectionError` names the builtin class, and a redirect leaves `urlfound` unset or stale. The model stops at the two candidate URLs each row would probe.
- The duplicate `edu` check (lines 167-169) can never fire after lines 163-165. It is modelled once.
- CSV reading and writing, `df.update`'s NaN-skipping copy back into the roster (line 116), `tqdm` and `tabulate` output, and the main block (lines 233-239).
- `Text.IsDigit`: Python's `\d` on `str` also matches non-ASCII decimal digits; the model uses ASCII digits only.
- `RowSelection.Oldest`: pandas' default sort is not stable, so rows with equal dates may come out in any order. The model uses a stable insertion sort. Its contract states only the order of dates and which rows are taken, which holds for any order among ties.
- `Frames.Assign`: requires `inx` to be a row of the frame. Callers only pass index labels of the selected rows. pandas' growth of the frame on an unknown label is not modelled.
- `Frames.Assign`: the chained assignment `df[key].loc[inx] = value` is modelled as the write it is meant to be. Whether pandas writes through the column view is a library detail.
- `FacebookScan.ScanBlock`: the `except AttributeError` of line 38 cannot fire on a parsed element and is not modelled. The `IndexError`s it does not catch are modelled as `Failure`.

## Findings

| source | as written | input that shows it | evidently intended | confidence | as-written member | corrected member |
|---|---|---|---|---|---|---|
| getuniv-social-data.py:40-41 | `if any(datatoscrape)` iterates the dict's keys, which are the non-empty strings `fblikes`, `fbfollows`, `date`, so the condition always holds and the scrape date is always set | a page with no `div._4bl9` block, e.g. a missing or blocked Facebook page: the date is set to now although nothing was read | stamp the date only when a like or follow count was read from the page | medium, not executed | FacebookScan.FbDataAsWritten | FacebookScan.FbData |

The same key-testing `any(...)` guards the two merges at lines 110 and 114
(`Enrichment.GuardsAlwaysHold`). There it is harmless, because merging is what
the loop should do anyway.

The Facebook record is passed from row to row, so a row whose page shows no count
inherits counts from the row before it. As written, that row is stamped with the
current time and inherits only the counts (`Enrichment.CountlessPageCarriesOver`).
With the correction it inherits the whole record, date included
(`Enrichment.CountlessPageCarriesOverCorrected`). That date is the time of the latest
earlier row in the batch whose page showed a count, or the initial record's `''` if
there was none. `Enrichment.EnrichRow` models the loop step as written, and
`Enrichment.EnrichRowCorrected` models it with the correction.
