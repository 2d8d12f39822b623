# Docket scraper: the row-merging parser

This project models `DocketSpider.parse` from the scraper of the ripuc.ri.gov docket page, together with the
per-cell extractors it calls. It proves what the parser yields for every row of the docket
table.

`parse` walks the `tr` rows of the table in order. It keeps one piece of state, the record
of the last three-cell row (`docket_temporary_storage`), and builds one five-field `Docket`
record per row. The number of `td` cells picks the branch:

- **3 cells:** identifier and link come from cell 0, the filer from cell 1, and the
  description and date from cell 2. The record becomes the stored record.
- **2 cells:** the description and date come from cell 1.
  - If cell 0 holds a numeric identifier, the record takes that identifier and its link,
    and the filer of the stored record.
  - Otherwise the record takes the stored identifier and link, and the filer from cell 0.
- **Any other count:** the record repeats the stored record with the filer from cell 0.

Every record is written to `docket.csv` (columns docket_id, description, date, filer,
file_url) and yielded. An exception raised while a date is read ends the crawl.

Modules:

- `Wrappers`: `Option` and `Result`.
- `Text`: the Python string operations the extractors use:
  - `str.isspace`, `strip`, `split()`;
  - `re.sub(' +', ' ', s)`;
  - ASCII `isnumeric`;
  - `replace(',', '')`;
  - decimal formatting of an int.
- `Regex`: the fragment of Python's `re` engine behind the four regular expressions of the
  spider. A pattern is a concatenation of:
  - greedy bounded repeats of a character class;
  - ordered alternatives of literal words;
  - `$`.

  `MatchAt` backtracks as Python does, and is proved to be sound and complete. It also
  returns the match Python prefers. `Search` is `re.search`, which returns the leftmost
  match.
- `Extractors`: `extract_docket_id`, `extract_filer`, `extract_description`,
  `extract_filing_date` and `extract_links`, on a cell given as its tag-stripped text plus
  the first `href` attribute found among its anchors.
- `DocketSpider`: the `Docket` record and the parts of the parser:
  - `RowRecord` is the body of the loop for one row.
  - `Walk` and `ParsePage` are the loop as a function over the rows.
  - `Parse` is the loop as a method with a `while` loop and the stored record as a
    variable. It is proved equal to `ParsePage`.

Two behaviours of the code are easy to misread, and the model follows the code in both:

- **A two-cell row with its own identifier never becomes the stored record.** The store is
  reassigned only in the three-cell branch (docket_scrap/spiders/docket_spider.py:45). As a
  result, a one-cell row after such a row copies the fields of the three-cell row before
  both (`FilerRowSkipsTwoCellRow`), not those of the two-cell row.
- **A month-date match with an abbreviated month name raises.** The names `Jan`, `Feb` and
  so on pass the regular expression but are not keys of the `months` table, so the lookup
  raises KeyError (`AbbreviatedMonthFallback`). They do not yield a date.

## Model

| member | source | states |
|---|---|---|
| DocketSpider.Parse | docket_scrap/spiders/docket_spider.py:24-82 | the loop over the rows yields exactly the records of `ParsePage` and stops with the same exception |
| DocketSpider.ReadRecord | docket_scrap/spiders/docket_spider.py:33-78 | the branches on the cell count build the record that `RowRecord` describes, or return the date's exception |
| DocketSpider.ProgressStep | docket_scrap/spiders/docket_spider.py:32-82 | after row `i` the loop has yielded the first `i + 1` records and holds the record of the last three-cell row; a raising row ends the page with its error |
| DocketSpider.ReadRow | docket_scrap/spiders/docket_spider.py:33-78 | a reading has the row's cell count, and a row of other than 2 or 3 cells reads no description and no date, so it cannot raise |
| DocketSpider.RowRecord | docket_scrap/spiders/docket_spider.py:35-78 | a row fails exactly when it has 2 or 3 cells and its date raises, with that error; records built from valid readings and a valid stored record are valid |
| DocketSpider.ReadRowValid | docket_scrap/spiders/docket_spider.py:35-68 | what the extractors give for any row: a numeric identifier, a normalized description, and no date without a description |
| DocketSpider.DescriptionCell | docket_scrap/spiders/docket_spider.py:40-65 | the description and date are read from the last cell of a 2- or 3-cell row (cell 2 at lines 40-41, cell 1 at 54-55 and 64-65), and from no cell otherwise |
| DocketSpider.ParsePage | docket_scrap/spiders/docket_spider.py:24-82 | the crawl of a page yields at most one record per row, and ends without an exception exactly when every row yields one |
| DocketSpider.Walk | docket_scrap/spiders/docket_spider.py:32-82 | at most one record per row; no exception exactly when every row yields a record |
| DocketSpider.PageRecords | docket_scrap/spiders/docket_spider.py:32-82 | one record per row unless a date raised, and every record is valid |
| DocketSpider.RecordAt | docket_scrap/spiders/docket_spider.py:32-82 | record `k` is row `k`'s record, read against the record of the last three-cell row before it |
| DocketSpider.StoredNext | docket_scrap/spiders/docket_spider.py:45 | the stored record changes after a three-cell row and after no other row |
| DocketSpider.LastFull | docket_scrap/spiders/docket_spider.py:45 | the stored position is a three-cell row with no three-cell row after it, or there is none |
| DocketSpider.FailureAt | docket_scrap/spiders/docket_spider.py:32-68 | a page stops early exactly at the first row whose date raises, with that error |
| DocketSpider.ThreeCellRow | docket_scrap/spiders/docket_spider.py:35-45 | identifier and link from cell 0, filer from cell 1, description and date from cell 2 |
| DocketSpider.TwoCellNewDocument | docket_scrap/spiders/docket_spider.py:48-58 | a two-cell row with an identifier keeps its own identifier, link, description and date, and takes the stored filer |
| DocketSpider.TwoCellContinuation | docket_scrap/spiders/docket_spider.py:60-68 | a two-cell row without an identifier takes the stored identifier and link, and its own filer, description and date |
| DocketSpider.OtherRow | docket_scrap/spiders/docket_spider.py:71-78 | any other row repeats the stored record with the filer from its first cell |
| DocketSpider.FilerRowSkipsTwoCellRow | docket_scrap/spiders/docket_spider.py:45-78 | a one-cell row after a two-cell row with an identifier copies the three-cell row before both |
| Extractors.ExtractDocketId | docket_scrap/spiders/docket_spider.py:173-178 | the stripped text exactly when it is a non-empty run of digits, otherwise nothing |
| Extractors.DocketIdOfPaddedDigits | docket_scrap/spiders/docket_spider.py:173-178 | digits surrounded by whitespace read back as exactly those digits |
| Extractors.ExtractFiler | docket_scrap/spiders/docket_spider.py:167-171 | absent exactly for an empty cell, otherwise the stripped text |
| Extractors.FilerOfBlankCell | docket_scrap/spiders/docket_spider.py:167-171 | a whitespace-only cell yields the empty filer, since the emptiness test comes before the strip, and no description |
| Extractors.ExtractDescription | docket_scrap/spiders/docket_spider.py:159-165 | absent exactly when the text is all whitespace; otherwise non-empty, no surrounding whitespace, no two adjacent spaces, same non-space characters as the stripped text |
| Extractors.DescriptionCollapsesGap | docket_scrap/spiders/docket_spider.py:162-163 | two pieces of text separated by a run of spaces read back joined by exactly one space |
| Extractors.ExtractLinks | docket_scrap/spiders/docket_spider.py:107-118 | a link exactly when the href is non-empty and ends in `pdf` after at least one character, or in `html` after at least two (case-sensitive; no newline except one final newline, which `$` allows), and then it is `join(base_url, href)` |
| Extractors.PdfLinkMatches | docket_scrap/spiders/docket_spider.py:110 | `^.*(.pdf)$` matches exactly the links with that suffix |
| Extractors.HtmlLinkMatches | docket_scrap/spiders/docket_spider.py:113 | `^.*.(.html)$` matches exactly the links with that suffix |
| Extractors.ExtractFilingDate | docket_scrap/spiders/docket_spider.py:127-157 | no description means no date and no exception; a date implies a description |
| Extractors.FilingDate | docket_scrap/spiders/docket_spider.py:129-157 | a numeric-date match always gives a date and never raises; there is no date and no exception exactly when neither pattern is found |
| Extractors.FormatMonthDate | docket_scrap/spiders/docket_spider.py:139-157 | a month-date match never gives "no date"; it raises exactly when its text splits into fewer than four words or its second word is not a full month name, with KeyError whenever the second word exists and is not a key, and IndexError otherwise (fewer than two words, or a key followed by fewer than two more) |
| Extractors.MonthDigitsDenote | docket_scrap/spiders/docket_spider.py:142-156 | the digits printed for a month denote its number in the `months` table |
| Extractors.NumericDateFirst | docket_scrap/spiders/docket_spider.py:130-134 | when a numeric date occurs, the result is the text of the leftmost match, no numeric date starts earlier, and no other fit at that start comes before the matched one in backtracking order (the greedy match) |
| Extractors.NoDate | docket_scrap/spiders/docket_spider.py:130-139 | there is no date and no exception exactly when neither pattern fits anywhere in the description |
| Extractors.MonthBranchTaken | docket_scrap/spiders/docket_spider.py:130-140 | without a numeric date, the month branch formats the leftmost month-date match |
| Extractors.FormatFullMonth | docket_scrap/spiders/docket_spider.py:140-156 | "filed", a full month name, the day with an optional comma, blanks and the year format as `<1..12>/<day>/<year>` |
| Extractors.AbbreviatedMonthRaises | docket_scrap/spiders/docket_spider.py:141-156 | an abbreviated month name after "filed" raises KeyError with that name |
| Extractors.FullMonthFallback | docket_scrap/spiders/docket_spider.py:130-157 | without a numeric date, a full-name month match gives `<1..12>/<day without comma>/<year>` from the matched pieces |
| Extractors.AbbreviatedMonthFallback | docket_scrap/spiders/docket_spider.py:130-157 | without a numeric date, an abbreviated-name month match raises KeyError |
| Regex.MatchAt | docket_scrap/spiders/docket_spider.py:110-113 | every match the backtracking `re.match` returns is a fit of the pattern at that position |
| Regex.Search | docket_scrap/spiders/docket_spider.py:130-138 | `re.search` reports a start no earlier than where it began and the match the engine finds at that start |
| Regex.SearchFindsFit | docket_scrap/spiders/docket_spider.py:130-138 | `re.search` from the start finds a match exactly when the pattern fits somewhere |
| Regex.MatchAtBest | docket_scrap/spiders/docket_spider.py:110-113 | whenever the pattern fits at a position, the backtracking `re.match` finds a match there, and no other fit comes before it in backtracking order |
| Regex.SearchLeftmost | docket_scrap/spiders/docket_spider.py:130-131 | whenever the pattern fits at a position, `re.search` reports a match starting there or earlier, and, if there, the one the engine prefers |
| Regex.SearchFirst | docket_scrap/spiders/docket_spider.py:136-138 | no match starts before the one reported, and there is none at all when none is reported |
| Text.Strip | docket_scrap/spiders/docket_spider.py:162 | the slice left once the whitespace at both ends is cut off; empty exactly when the text is all whitespace |
| Text.CollapseSpaces | docket_scrap/spiders/docket_spider.py:163 | `re.sub(' +', ' ')` never lengthens the text and empties only the empty text |
| Text.CollapseGap | docket_scrap/spiders/docket_spider.py:163 | a run of spaces between two pieces of text becomes exactly one space, each piece collapsed on its own |
| Text.CollapseShape | docket_scrap/spiders/docket_spider.py:163 | `re.sub(' +', ' ')` keeps the first and last characters and leaves no two adjacent spaces |
| Text.CollapseKeepsText | docket_scrap/spiders/docket_spider.py:163 | collapsing keeps every non-space character, in order |
| Text.CollapseIdentity | docket_scrap/spiders/docket_spider.py:163 | a text without two adjacent spaces is unchanged, so collapsing is idempotent |
| Text.Split | docket_scrap/spiders/docket_spider.py:141 | `split()` gives non-empty pieces without whitespace |
| Text.SplitWord | docket_scrap/spiders/docket_spider.py:141 | `split()` of a word, whitespace and more text is that word followed by the split of the rest |
| Text.SplitSingle | docket_scrap/spiders/docket_spider.py:141 | a whitespace-free word splits into itself |
| Text.RemoveCommas | docket_scrap/spiders/docket_spider.py:156 | `replace(',', '')` leaves no comma and changes nothing in a text without one |
| Text.RemoveCommasAppend | docket_scrap/spiders/docket_spider.py:156 | removing commas works piece by piece, so the result is the input's other characters in order |
| Text.RemoveCommasChar | docket_scrap/spiders/docket_spider.py:156 | a comma disappears and any other character stays |
| Text.DecimalString | docket_scrap/spiders/docket_spider.py:156 | an int formats as a non-empty run of digits, one digit below 10 and two below 100 |
| Text.DecimalValue | docket_scrap/spiders/docket_spider.py:156 | the digits denote the number and have no leading zero |

## Left out

- Scrapy itself is not modelled. Each row is given as its sequence of cells. This covers:
  - the spider's start URL and the response;
  - the CSS/XPath addressing of the table (docket_scrap/spiders/docket_spider.py:26);
  - `row.css('td')`.
- The generator is not modelled. The yielded records are returned as a sequence, together
  with the exception that ended the crawl, if any.
- `append_in_file` writes each record to `docket.csv`. This is file I/O and is not
  modelled; only the column order is recorded, in a comment.
- `w3lib.html.remove_tags` and the selectors `.css('td').extract()` and
  `.css('a::attr("href")').get()` are not modelled: a cell is its tag-stripped text plus
  the first `href` attribute found among its anchors.
- `urllib.parse.urljoin` (RFC 3986, section 5.2) is the parameter `join`. Nothing is
  assumed about the value it returns. It is a total function, so the ValueError `urljoin`
  raises on some malformed hrefs (an unbalanced `[` in the host, for one) is not modelled.
- Python's full regular-expression engine is not modelled. `Regex` covers only the
  constructs the four patterns use. The month alternation is flattened into the order in
  which the engine tries its words.
- `str.isnumeric` is restricted to the ASCII digits. Python also accepts other Unicode
  numeric characters.
- `DocketSpider.Parse`: `Readable` requires every row to have a cell and the first row to
  have three cells. In the code, a shorter row before any three-cell row raises KeyError
  on the empty store, and a row without cells raises IndexError on `col[0]`. These two
  exceptions are preconditions instead of modelled error paths. Only the exceptions of
  `extract_filing_date` are modelled as failures.
- `DocketSpider.ReadRow` reads all of a row's extractors before the branch is taken. The
  extractors are pure, so this changes only the order of the calls.
- `Extractors.FullMonthFallback` covers only matches with a blank after the month word and
  at least one blank before the year. `Extractors.AbbreviatedMonthFallback` covers only
  matches with a blank after the month word. For the other matches, the result is defined
  by `FormatMonthDate` but has no lemma of its own:
  - a month word glued to the day raises KeyError;
  - a day glued to the year raises IndexError.
