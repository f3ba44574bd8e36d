# seclist page parser, in Dafny

This project models the parser of the SEC 13(f) securities list in
`seclist/parser.py`. The parser starts from the text that `pdftotext -layout`
renders from the list's PDF and does four things:

1. It cuts the text into pages. Each page runs from a `run date` marker to the next form feed.
2. It checks each page's four-line header and reads the run date and the printed page number from its first line.
3. It turns every data line of a page into a security record, keyed by the column positions of the title line, and notes the `total count` footer.
4. It concatenates the records of all pages and checks their number against the footer count of the last page.

Modules, one per stage of the source:

- `Strings`: the parts of Python's `str` behaviour the parser relies on, over ASCII. This covers clamped slicing, `split`, `strip`, `replace`, `lower` and `in`, digit filtering, `int()` on a digit string, and a leftmost `re.search` over a hand-written anchored matcher.
- `Failures`: one error per exception the parser can raise, plus the `Result` type. A failure anywhere ends the whole document, as it does in the source.
- `Segment`: `yield_pages_as_bytes`. The pattern `run[ ]*?date.*?\x0c` (DOTALL, IGNORECASE) becomes a scanner. `SplitPages` is the `finditer` loop.
- `Header`: `validate_header`, `extract_date` and `extract_pagenum`.
- `Page`: `parse_page`. `ParsedPage` is its specification, `ParsePage` and `ScanPage` are the imperative loop.
- `Index`: `parse_pdf_index`. `ParsedIndex` is its specification, `ParsePdfIndex` is the loop.

How Python errors are modelled:

- Text is a `string` whose characters stand for the bytes of the rendered text. UTF-8 decoding is the identity on ASCII.
- A failed `re.search` in `extract_date` or `extract_pagenum` makes `None.start()` raise AttributeError. This becomes `NoRunDate` or `NoPageNumber`.
- A `total count` line without digits makes `int('')` raise. This becomes `NotAnInteger`.
- A malformed CUSIP raises `MalformedDataError`, a name the module never defines, so Python actually raises NameError. This becomes `MalformedCusip`.
- A document without pages never binds `expected_lines`. This becomes `NoPages`.
- A header that passes the tests on the lines it has, but has fewer than four lines, raises IndexError in `validate_header`. This becomes `MissingHeaderLine`. A short header that fails a test on a line it has raises ValueError, which becomes `MalformedHeader`.

Two quirks of the code are modelled as written:

- `extract_date` slices the labelled match with offsets that come from a second search over the whole line. The result is right when the labelled date starts the line (`Header.ExtractDateAtLineStart`). On `"Xrun date:1/2/2020"` it is `"/2/2020"` (`Header.ExtractDateShiftedLabel`).
- Each page overwrites the document's expected count, even with "no footer". So only the last page's footer decides the final check (`Index.IndexNeedsLastFooter`).

The CUSIP check ends in `$`. That would also accept a trailing newline, but the CUSIP is stripped first, so it is modelled as an exact 11-character shape.

## Model

| member | source | states |
|---|---|---|
| Strings.Find | seclist/parser.py:211-213 | a literal search finds something exactly when the title occurs, and then reports its leftmost occurrence |
| Strings.Has | seclist/parser.py:121-129 | `t in s` holds exactly when `t` occurs somewhere in `s` |
| Strings.Search | seclist/parser.py:148-150 | `re.search` reports the leftmost start where the anchored pattern matches; no earlier start matches; `None` means no start matches |
| Strings.SearchFinds | seclist/parser.py:148-150 | the search reports the first start where the matcher succeeds |
| Strings.StripEmpty | seclist/parser.py:219 | `line.strip() == ''` holds exactly when every character is whitespace |
| Strings.StripKeeps | seclist/parser.py:231 | `strip` never introduces a character |
| Strings.ReplaceAllDrops | seclist/parser.py:231 | `replace('*', '')` leaves no `*` |
| Strings.SliceHas | seclist/parser.py:226 | a character is in `line[a:b]` exactly when it stands in the line between the clamped bounds |
| Strings.SliceFromContains | seclist/parser.py:228 | `t in line[a:]` exactly when `t` occurs in the line at or after `a` |
| Strings.SplitJoin | seclist/parser.py:205 | `split('\n')` loses nothing (joining the lines gives back the text) and no line holds a newline |
| Strings.DigitsOnly | seclist/parser.py:223 | the filtered digits are all digits, every digit of the line is among them, and they are empty exactly when the line has no digit |
| Segment.MatchAt | seclist/parser.py:106 | a match at `i` ends after `i` and within the text |
| Segment.MatchAtIff | seclist/parser.py:106 | the pattern matches at `i` up to `e` exactly when `text[i:e]` opens with `run`, spaces, `date` (any case), ends with a form feed and holds no earlier one |
| Segment.Spans | seclist/parser.py:107-108 | the reported spans lie inside the text, increase and do not overlap |
| Segment.Pages | seclist/parser.py:106-108 | the yielded pages, the text of each reported span; it has no contract of its own, and `Segment.PagesAreChunks` and `Segment.PagesCoverChunks` state what they are |
| Segment.SpansAreChunks | seclist/parser.py:107-108 | every span `finditer` reports from a position delimits a page chunk |
| Segment.SpansCoverMatches | seclist/parser.py:107 | every position where the pattern matches starts or lies inside a reported span |
| Segment.PagesAreChunks | seclist/parser.py:106-108 | every yielded page is a page chunk and the slice of its span; spans come in text order and are disjoint |
| Segment.PagesCoverChunks | seclist/parser.py:107 | no page is skipped: any place a page chunk could be cut starts or lies inside a yielded page |
| Segment.SplitPages | seclist/parser.py:106-108 | the generator loop yields exactly the pages of the scan, in order |
| Header.ValidateHeader | seclist/parser.py:121-130 | the header passes exactly when lines 0-1 (lower-cased) name run date, page, run time and year, line 2 is empty and line 3 holds the four titles; otherwise it fails, with IndexError only for a short header |
| Header.DateAtIff | seclist/parser.py:150 | the bare date pattern matches `s[p:e]` exactly when it is 1-2 digits, `/`, 1-2 digits, `/`, 4 digits |
| Header.DateAt | seclist/parser.py:150 | a bare date match ends after its start and within the line; `Header.DateAtIff` gives its exact shape |
| Header.RunDateAt | seclist/parser.py:148 | a labelled-date match ends after its start and within the line; `Header.RunDateAtIff` gives its exact shape |
| Header.RunDateAtIff | seclist/parser.py:148 | the labelled pattern matches `s[i:e]` exactly when it is `run`, whitespace, `date:`, whitespace (labels in any case) and a date |
| Header.RunDateLayoutEnds | seclist/parser.py:148 | on a labelled date, the lazy whitespace runs take all the whitespace, so the date the matcher finds starts where the layout says |
| Header.ExtractDate | seclist/parser.py:148-151 | `extract_date` fails exactly when no labelled date is found, and then with the missing-date error: the second search cannot fail |
| Header.NoDateInLabel | seclist/parser.py:148-150 | no bare date starts inside a run-date label at column 0 |
| Header.ExtractDateAtLineStart | seclist/parser.py:148-151 | when the line opens with `run`, whitespace, `date:`, whitespace and a date at `p..e`, the result is exactly `line[p:e]` |
| Header.ExtractDateShiftedLabel | seclist/parser.py:150-151 | with the label at column 1, the offsets cut `1/2/2020` down to `/2/2020` |
| Header.PageMatchDigits | seclist/parser.py:171-172 | lower-casing, deleting `page` and stripping the match leave exactly its digits, whose value `int` returns |
| Header.PageMatchShape | seclist/parser.py:169 | a match of `page\s*?[0-9]{1,40}` is the label, whitespace, then digits: all the digits standing there, up to 40 |
| Header.PageNumberAt | seclist/parser.py:169 | a page-number match ends after its start and within the line; `Header.PageNumberAtIff` gives its exact shape |
| Header.PageNumberAtIff | seclist/parser.py:169 | the pattern matches `s[i:b]` exactly when it is `page` (any case), whitespace, then 1 to 40 digits that stop at 40, at the end of the line or before a non-digit |
| Header.ExtractPageNum | seclist/parser.py:169-172 | `extract_pagenum` fails exactly when the pattern is found nowhere, and then with the missing-page-number error: `int` accepts every match |
| Header.PageMatchParse | seclist/parser.py:169-172 | of a match, lower-casing, deleting `page`, stripping and `int` leave the value of all its digits, taken greedily up to 40 |
| Header.ExtractPageNumValue | seclist/parser.py:169-172 | at the first `page` label followed by digits, the page number is the value of all those digits up to 40 |
| Page.ColumnsOf | seclist/parser.py:211-213 | each column start is the leftmost occurrence of its title in line 3 |
| Page.RowRecord | seclist/parser.py:226-239 | the record of a data line; it has no contract of its own, and `Page.RecordFields` states its fields |
| Page.RecordFields | seclist/parser.py:226-239 | the CUSIP holds no `*`; optionable iff a `*` stands in the CUSIP column; added (deleted) iff `ADDED` (`DELETED`) occurs from the description column on; date and page are the page's |
| Page.ScanRows | seclist/parser.py:215-248 | the loop over the rows as a fold; it has no contract of its own, and `Page.ScanRowsOk`, `Page.ScanRowsValue` and `Page.ScanRowsError` state its outcome |
| Page.ParsedPage | seclist/parser.py:202-205 | a parsed page ended with a form feed |
| Page.ParsePage | seclist/parser.py:202-248 | the method returns what the specification `ParsedPage` gives for the page |
| Page.ScanPage | seclist/parser.py:215-248 | the loop over `lines[4:]` returns what the fold `ScanRows` gives |
| Page.FooterValue | seclist/parser.py:223 | a footer is accepted exactly when it holds a digit, and its count is the value of its digits |
| Page.FooterCountCons | seclist/parser.py:222-224 | overwriting the count from the front agrees with reading the last footer from the back |
| Page.DataLinesKind | seclist/parser.py:219-224 | the record-producing lines are exactly the lines that are neither blank nor footers |
| Page.ScanRowsStep | seclist/parser.py:217-246 | one turn of the loop either raises the row's error or absorbs the row |
| Page.ScanRowsOk | seclist/parser.py:217-246 | the loop succeeds exactly when no row is a digitless footer or has a malformed CUSIP |
| Page.ScanRowsValue | seclist/parser.py:217-248 | on success: one record per data line, in order, after those held; the count of the last footer, or the one held without a footer |
| Page.ScanRowsRecords | seclist/parser.py:226-246 | on success, the records are those held followed by one per data line, in order |
| Page.ScanRowsCount | seclist/parser.py:222-224 | on success, the count is that of the last footer, or the one held without a footer |
| Page.FooterCountNone | seclist/parser.py:216-224 | a page reports no count exactly when none of its rows is a footer |
| Page.ScanRowsError | seclist/parser.py:222-244 | on failure, the error is that of the first row that stops the loop |
| Page.ScanRowsCusips | seclist/parser.py:241-246 | every record appended has a well-formed CUSIP |
| Page.HeaderRejected | seclist/parser.py:202-209 | a page failing the feed, header, date or page-number step is not parsed |
| Page.HeaderThenRows | seclist/parser.py:205-217 | on a page that passes those steps, parsing is the loop over the lines after the header |
| Page.ParsedPageOk | seclist/parser.py:202-248 | a page parses exactly when it passes the checks before the loop and no later row stops the loop |
| Page.ParsedPageValue | seclist/parser.py:205-248 | a parsed page yields one record per data line, in order, and the count of its last footer or none |
| Page.ParsedPageStamps | seclist/parser.py:208-236 | all records of a page carry the run date and page number of line 0, one per data line |
| Page.ParsedPageCusips | seclist/parser.py:241-246 | every record of a parsed page has a well-formed CUSIP |
| Index.ParsePdfIndex | seclist/parser.py:265-273 | the method returns what the specification `ParsedIndex` gives for the text |
| Index.ParsedIndex | seclist/parser.py:265-273 | `parse_pdf_index` as a function; it has no contract of its own, and `Index.IndexResult`, `Index.IndexCountMismatch` and `Index.IndexFirstFailure` state its outcome |
| Index.CollectOk | seclist/parser.py:266-268 | collecting the pages succeeds exactly when every page parses |
| Index.AllRecordsCons | seclist/parser.py:268 | extending page by page from the front gives the same records as gathering from the back |
| Index.CollectValue | seclist/parser.py:265-268 | collecting yields all pages' records in page order and the last page's footer count |
| Index.IndexResult | seclist/parser.py:265-273 | the document parses exactly when it has a page, every page parses and the last page's count equals the total; the result is all records in page order |
| Index.IndexNeedsLastFooter | seclist/parser.py:267-271 | when every page parses but the last reports no count, the document fails with a count mismatch against "none", whatever earlier pages declared |
| Index.IndexCountMismatch | seclist/parser.py:270-271 | when every page parses but the last footer count differs from the number of records, the error carries that number and that count |
| Index.CollectError | seclist/parser.py:266-267 | collecting ends with the error of the first page that fails |
| Index.IndexFirstFailure | seclist/parser.py:266-267 | a document with a failing page fails with the error of the first failing page |
| Index.IndexCusips | seclist/parser.py:265-273 | every record of a parsed document has a well-formed CUSIP |
| Index.AllRecordsCusips | seclist/parser.py:266-268 | the records of pages whose CUSIPs are well-formed, laid end to end, all have well-formed CUSIPs |

## Left out

- `is_first_page`, `find_first_page` and `get_pdf_text_bytes` (seclist/parser.py:20-93) run `pdftotext` as a subprocess. The model takes the rendered text as its input instead.
- seclist/cli.py and seclist/gather.py are orchestration, file-system work, HTTP and CSV output. They are not part of this model.
- UTF-8 decoding and Python's Unicode rules for `lower`, `strip` and `isdigit` are not modelled. Every character is ASCII.
- Generator laziness is not modelled. Pages form a sequence. Since any failure ends the document, the outcome is the same.
- Exception messages are not modelled. An error keeps only the malformed CUSIP, or the two counts of the mismatch.
- Strings.ParseDecimal: does not model CPython's limit on the number of digits `int()` accepts (4300 by default). A longer footer count is read here as a number.
- Page.RecordFields: states nothing about the issuer and description text beyond their definition in `Page.RowRecord`.
- An empty page (IndexError on `bytes_arr[-1]`) is modelled as `EmptyPage`, but segmentation never yields one.
