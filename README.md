# EDGAR company filing client, modelled in Dafny

`edgar.py` is a small client for the SEC's EDGAR company search. Creating a
`Company` from a CIK (Central Index Key, the SEC's registrant number) or a
ticker symbol does four things:

1. It pages through the search results, 100 rows per page. The request
   offset is written into a parameter dictionary that is shared by
   reference. Paging stops at the first page showing fewer than 100
   `Acc-no` marks.
2. When the identifier consists only of letters, it is taken to be a
   ticker. The real CIK is then cut out of the first result page: the text
   before `</head>`, after its last `CIK=`, up to the next `&`. That CIK is
   written back into the parameters.
3. It concatenates the last HTML table of every page into one filings
   table. It splits each Description at `Acc-no:` into an accession number
   and the remaining description. It drops the Format column, renames three
   columns, and resets the row index to `0 .. n-1`.
4. It adds to every filing the URL of its full-text document in the EDGAR
   archive.

The project has four modules, one per file:

- `results.dfy`: `Option` and `Result`.
- `pystr.dfy`: the parts of Python's `str` the client uses, with Python's
  own semantics.
  - `split(sep)` gives all the pieces, so `[1]` is the text between the
    first and the second separator.
  - `split()` splits on whitespace.
  - `count` counts non-overlapping occurrences from the left.
  - Also modelled: `strip`, `lstrip(chars)`, `replace`, and `isalpha`
    (ASCII letters only).
- `frames.dfy`: the part of a pandas data frame the client relies on.
  - `pd.concat` over a list of tables, which keeps each table's own row
    labels.
  - Resetting the index.
  - `Series.apply` with a function that may raise.
- `edgar.dfy`:
  - the request parameters, shared by reference (`class Params`);
  - the pagination loop, proved against a reference function `Pages`;
  - CIK extraction;
  - the accession-number and description split;
  - the filings table;
  - URL synthesis;
  - the `Company` object whose constructor runs all of this.

The network is the parameter `fetch(url, query)`, which returns the text of
the page returned for those request parameters. `pd.read_html(page)[-1]` is
the parameter `lastTable(page)`, which returns the rows of the page's last
table. An exception raised while the table is built (the `IndexError` of the
accession-number lambda) is recorded in the field `raised`. In Python the
constructor would not return at that point.

Two behaviours of the code are easy to misread; the model follows the code:

- The description is not trimmed: only the text from the first `Acc-no:`
  onwards is cut off, and trailing whitespace stays (`DescriptionUntrimmed`).
- The CIK read from the first page is not checked to be numeric, and it is
  not checked that the page has a `CIK=` at all. Without one, the whole head
  of the page, cut at its first `&`, becomes the CIK (`ExtractCikSegment`,
  `ExtractCikCut`).

## Model

| member | source | states |
|---|---|---|
| Edgar.InitialQuery | edgar.py:46-52 | the dictionary has exactly the keys CIK, action, owner, dateb and type, holding the identifier, `getcompany`, the owner filter, and the date and form (null when absent) |
| Edgar.Params.constructor | edgar.py:46-52 | the dictionary object starts with the given entries |
| Edgar.Params.Update | edgar.py:77 | `update({k: v})` sets `k` to `v` and leaves every other entry as it was |
| Edgar.QueryAtSpec | edgar.py:76-80 | the request for page `i` carries count = 100 and start = 100·i, and every other parameter unchanged |
| Edgar.QueryAt | edgar.py:80 | the parameters of the request for page `i`; characterized by QueryAtSpec |
| Edgar.AfterPagingSpec | edgar.py:76-80 | after `n` requests the shared dictionary holds count = 100, start = 100·(n-1) when n > 0, and all other keys unchanged; with no request `start` is untouched |
| Edgar.AfterPagingKeeps | edgar.py:76-80 | paging never changes a parameter other than count and start, in particular not CIK |
| Edgar.AfterPaging | edgar.py:76-80 | the shared dictionary after `n` loop iterations; characterized by AfterPagingSpec and AfterPagingKeeps |
| Edgar.Full | edgar.py:83 | a page is full when `count('Acc-no')` reaches 100; its use is stated by PagesFromStep and PagesFromStops |
| Edgar.PagesFromStep | edgar.py:79-84 | each step requests page `i`, appends it, and continues exactly when the page shows at least 100 `Acc-no` |
| Edgar.PagesFromLength | edgar.py:79-84 | a page is read unless the ceiling is reached, and never more pages than the ceiling allows |
| Edgar.PagesFromRequests | edgar.py:79-82 | page `k` of the result is the answer to the `k`-th request, in request order |
| Edgar.PagesFromStops | edgar.py:83-84 | every page but the last is full, and the last is short unless the ceiling was reached |
| Edgar.PagesNonEmpty | edgar.py:79-82 | with a positive ceiling at least one page is returned, so `search_results[0]` exists |
| Edgar.PagesShape | edgar.py:70-85 | the result has 1 to MAX pages, in fetch order, all full but the last, and the last short or the ceiling hit |
| Edgar.PagesFromUnique | edgar.py:79-84 | any sequence of answers with that shape is exactly the sequence the loop returns |
| Edgar.ExactPageCount | edgar.py:79-85 | when page `n` is the first short page below the ceiling, exactly `n + 1` pages are returned |
| Edgar.PagesFrom | edgar.py:79-84 | the pages the loop collects from iteration `i` on; characterized by PagesFromStep, PagesFromLength, PagesFromRequests, PagesFromStops and PagesFromUnique |
| Edgar.Pages | edgar.py:70-85 | all pages the loop collects; characterized by PagesNonEmpty, PagesShape and ExactPageCount |
| Edgar.Company.SearchResultsText | edgar.py:70-85 | the loop, with its updates to the shared dictionary, returns the reference pages `Pages` and leaves the dictionary as `AfterPaging` of the old one for that many pages; its log `sent` shows that exactly one request is made per page returned, the `k`-th with the parameters `QueryAt(k)`, and that page `k` is the answer to it |
| Edgar.Company.GetCik | edgar.py:88-91 | the CIK read from the first page holds no `&` and no `</head>` |
| Edgar.ExtractCikHead | edgar.py:91 | the CIK is searched for in the prefix before the first `</head>`, and in the whole page when the page has none |
| Edgar.ExtractCikSegment | edgar.py:91 | within that prefix, the segment after the last `CIK=` is a suffix holding no `CIK=`, and is the whole prefix when there is no `CIK=` |
| Edgar.ExtractCikCut | edgar.py:91 | the CIK is that segment up to its first `&`, or all of it when it has none |
| Edgar.ExtractCikClean | edgar.py:91 | the CIK never contains `</head>` |
| Edgar.ExtractCik | edgar.py:91 | the chain of three splits; characterized by ExtractCikHead, ExtractCikSegment, ExtractCikCut and ExtractCikClean |
| Edgar.Company.ResolveTicker | edgar.py:57-61 | an all-letters identifier becomes the ticker, the CIK becomes the one read from the first page, and `params['CIK']` is updated; otherwise the identifier, the ticker and the parameters stay as they were |
| Edgar.Description | edgar.py:104 | the cleaned description is a prefix of the original without `Acc-no:`; it is the text before the first marker, or all of it when there is no marker |
| Edgar.DescriptionUntrimmed | edgar.py:104 | for any `a` without the marker, the description of `a + "Acc-no:" + b` is exactly `a`, whitespace included |
| Edgar.AfterMarker | edgar.py:100 | `split('Acc-no:')[1]` holds no further marker |
| Edgar.AfterMarkerShape | edgar.py:100 | the Description is the cleaned description, the marker, that piece, then nothing or another marker |
| Edgar.AccessionNoErrors | edgar.py:100 | the lambda raises for a missing marker exactly when there is no `Acc-no:`, and for a missing token exactly when only whitespace follows the first marker up to the next one |
| Edgar.AccessionNoShape | edgar.py:100 | a successful accession number is non-empty, has no whitespace and no marker, and the Description is the cleaned description, the marker, whitespace, the number, then whitespace, another marker or the end |
| Edgar.AccessionNoOf | edgar.py:100-105 | conversely, a Description made of a text without the marker, `Acc-no:`, whitespace, and a word without whitespace or marker followed by whitespace or the end, yields exactly that word as accession number and that text as description |
| Edgar.AccessionNo | edgar.py:100 | the `acc_no` lambda, with its two `IndexError` cases as errors; characterized by AccessionNoErrors, AccessionNoShape and AccessionNoOf |
| Edgar.CleanCellsHeaders | edgar.py:108-114 | no cell remains under Format or under one of the three renamed headers |
| Edgar.CleanCellsFrom | edgar.py:108-114 | every remaining cell is a renamed cell of the row that was not under Format |
| Edgar.CleanCellsKeeps | edgar.py:108-114 | every cell not under Format is kept, under its new header |
| Edgar.RenameColumn | edgar.py:109-114 | the `col_map` rename of one header; its effect is stated by CleanCellsHeaders, CleanCellsFrom and CleanCellsKeeps |
| Edgar.CleanCells | edgar.py:108-114 | dropping Format and renaming the rest; characterized by CleanCellsHeaders, CleanCellsFrom and CleanCellsKeeps |
| Edgar.AccessionColumn | edgar.py:101 | `Description.apply(acc_no)` over all rows; it is Frames.Apply of the lambda, specified by Frames.ApplyOk and Frames.ApplyErr |
| Edgar.PageTables | edgar.py:96 | one table per result page, in page order, each the page's last table |
| Edgar.FilingHistoryFails | edgar.py:94-116 | the history is built exactly when every row of every page has an accession number; otherwise it raises the error of some row |
| Edgar.FilingHistoryError | edgar.py:99-101 | the error raised is that of the first row, in concatenated order, without an accession number |
| Edgar.FilingHistoryRows | edgar.py:94-116 | the table has as many rows as all pages together, labelled 0 .. n-1; row `j` of page `p` is at position (rows of earlier pages) + `j`, cleaned and given its accession number |
| Edgar.FilingHistoryRow | edgar.py:96-105 | one page row at its place in the table, with its accession number and cleaned description and cells |
| Edgar.FilingHistory | edgar.py:94-116 | the whole `_filing_history`; characterized by FilingHistoryFails, FilingHistoryError, FilingHistoryRows and FilingHistoryRow |
| Edgar.FilingUrlSpec | edgar.py:121-129 | the URL is archive base, CIK without leading zeros, `/`, accession number without dashes, `/`, accession number, `.txt`; the stripped CIK does not start with 0 and only zeros were removed; the middle segment has no dash |
| Edgar.FilingUrlEnds | edgar.py:121-129 | the URL starts with the archive base and ends with the accession number followed by `.txt` |
| Edgar.FilingUrl | edgar.py:121-129 | the URL of one filing; characterized by FilingUrlSpec and FilingUrlEnds |
| Edgar.WithUrls | edgar.py:119-129 | every row gets the URL of its own accession number; the index and everything else are unchanged |
| Edgar.Company.AddFilingUrls | edgar.py:119-129 | the filings table becomes the table with the URL column |
| Edgar.Company.LoadFilings | edgar.py:63-67 | the filings table is the history of the result pages with URLs; when an accession number is missing the error is raised and no table is set |
| Edgar.Company.constructor | edgar.py:27-67 | `owner`, `form` and `maxDate` default to `"exclude"`, null and null; the fields are set from the arguments; the search results are the reference pages for the initial query (at least one); ticker resolution happens exactly for all-letters identifiers; the parameters end as after paging with the resolved CIK; the filings are the history with URLs, or the error is raised |
| Frames.Range | edgar.py:115 | `range(n)` holds 0 .. n-1 in order |
| Frames.Reindex | edgar.py:115 | resetting the index keeps the rows and labels them 0 .. n-1 |
| Frames.FlattenLength | edgar.py:97 | the concatenation has as many rows as all parts together |
| Frames.FlattenAt | edgar.py:97 | element `j` of part `p` is at position (elements of earlier parts) + `j`: parts keep their order, elements too |
| Frames.FlattenLocate | edgar.py:97 | every position of the concatenation comes from some part and offset |
| Frames.Concat | edgar.py:97 | `pd.concat` of tables, labels kept; its rows and labels are stated by Frames.ConcatRowsFlat and Frames.ConcatPages |
| Frames.ConcatRows | edgar.py:96-97 | `pd.concat` of one table per page; characterized by Frames.ConcatRowsFlat and Frames.ConcatPages |
| Frames.ConcatRowsFlat | edgar.py:96-97 | the rows of the concatenated frame are the page rows, page after page |
| Frames.ConcatPages | edgar.py:96-97 | after `pd.concat` the row count is the sum of the per-page row counts, and row `j` of page `p` keeps its old label `j` |
| Frames.Apply | edgar.py:101 | a computed column has one value per row |
| Frames.ApplyOk | edgar.py:101 | the column is computed exactly when the function succeeds on every row, and then holds the function's result for each row |
| Frames.ApplyErr | edgar.py:101 | otherwise the error is that of the first row on which the function fails |
| PyStr.FindSpec | edgar.py:91 | `find` gives the first occurrence, and none exactly when the pattern does not occur |
| PyStr.Split | edgar.py:91 | `str.split(sep)`: at least one piece; characterized by SplitJoin, SplitPieces, SplitHead, SplitLast, SplitCount and SplitSeveral |
| PyStr.SplitJoin | edgar.py:91 | joining the pieces of `split(sep)` with `sep` gives back the string |
| PyStr.SplitPieces | edgar.py:91 | no piece of `split(sep)` contains `sep` |
| PyStr.SplitHead | edgar.py:91 | `split(sep)[0]` is the prefix before the first `sep`, or the whole string when there is none |
| PyStr.SplitLast | edgar.py:91 | `split(sep)[-1]` is the suffix after the last `sep`, or the whole string when there is none |
| PyStr.AfterLastInside | edgar.py:91 | whatever the cut of the text after the last marker contains, the original text contains too |
| PyStr.SplitCount | edgar.py:83 | `split(p)` has `count(p) + 1` pieces, which ties the page-full test to the splits of the rest of the client |
| PyStr.Count | edgar.py:83 | `str.count`, tied to `split` by SplitCount |
| PyStr.SplitSeveral | edgar.py:100 | `split(sep)` has a second piece exactly when `sep` occurs |
| PyStr.SecondPiece | edgar.py:100 | the string is the first piece, `sep`, the second piece, then nothing or another `sep` |
| PyStr.Words | edgar.py:100 | the words of `split()` are non-empty and hold no whitespace |
| PyStr.WordsEmpty | edgar.py:100 | `split()` gives no word exactly when the string is all whitespace |
| PyStr.FirstWord | edgar.py:100 | the string is whitespace, its first word, then the end or whitespace |
| PyStr.FirstWordOf | edgar.py:100 | conversely, whitespace, a word and then whitespace or the end make a string whose first word of `split()` is that word |
| PyStr.WordAfter | edgar.py:100 | the string is the first piece, `sep`, whitespace, the first word of the second piece, then whitespace, `sep` or the end |
| PyStr.Strip | edgar.py:100 | a stripped string neither starts nor ends with whitespace |
| PyStr.StripParts | edgar.py:100 | the string is whitespace, its stripped form, whitespace |
| PyStr.StripWord | edgar.py:100 | stripping a word without whitespace leaves it unchanged |
| PyStr.LStrip | edgar.py:123 | `lstrip(chars)` removes a prefix made only of `chars` and leaves a string starting with none of them |
| PyStr.Without | edgar.py:125 | removing a character leaves no occurrence of it |
| PyStr.ReplaceByNothing | edgar.py:125 | `replace(c, '')` removes exactly the character `c`, keeping all others in order |
| PyStr.Replace | edgar.py:125 | `str.replace`; with an empty replacement it is characterized by ReplaceByNothing |
| PyStr.IsAlpha | edgar.py:58 | `str.isalpha()` on ASCII text; characterized by IsAlphaCheck |
| PyStr.IsAlphaCheck | edgar.py:58 | `isalpha` holds exactly for a non-empty string of letters: a string with a digit, such as a numeric CIK, or the empty string is not a ticker |

## Left out

- The HTTP request, `requests.get` (edgar.py:81), is the function parameter `fetch`. Network errors and HTTP status handling are not modelled.
- `pd.read_html(res, header=0)[-1]` (edgar.py:96) is the function parameter `lastTable`. The `ValueError` that `read_html` raises for a page without a table, and HTML parsing itself, are not modelled.
- Edgar.Company.SearchResultsText: the ceiling `10 ** 6` (edgar.py:72) is its parameter `maxPages`. The constructor passes the constant `MaxPages` = 1000000.
- Edgar.CleanCells: data-frame columns are modelled as the cells of each row, which carry their headers.
  - The `KeyError` that `drop('Format')` raises when a table has no Format column is not modelled.
  - The `AttributeError` for a table without a Description column is not modelled.
  - The row type always has a description.
  - Column order in the frame and the alignment `pd.concat` does for tables with different columns (NaN filling) are not modelled.
- Edgar.FilingHistory: the data frame is changed in place in the source (`inplace=True`, index assignment). The model computes the new table as a value and assigns it to the field `filings`.
- Edgar.Company.ResolveTicker: in the source `self.ticker` does not exist unless the identifier is a ticker. The model uses `None` for that.
- Python version: the loop uses `xrange` (edgar.py:79), which exists only in Python 2; under Python 3 the loop raises `NameError` in its first iteration. The model reads the loop as Python 2's, while the string functions follow Python 3's `str` (in particular the whitespace set of `split()` and `strip()`, PyStr.IsSpace).
- PyStr.IsAlpha: only ASCII letters count. Python's `isalpha` also accepts the other Unicode letters.
- The parent class `EDGAR` (edgar.py:13-19) is folded into `Company` as its constants `searchUrl`, `archiveUrl` and `action`.
- `get_filing` (edgar.py:132-133) is an empty stub and is not modelled.
- The `__main__` test block (edgar.py:140-144) is not modelled.
