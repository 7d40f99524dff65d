# Scopus and ORCID search URLs from a spreadsheet of names

`extract_urls.py` reads an Excel sheet of people. It finds the first-name and
last-name columns by their headers and keeps every row whose two names are
usable. For each kept row it builds one Scopus author-search URL and one ORCID
search URL, and it writes each list to a text file, each URL followed by a
line feed. That is one URL per line, unless a kept name holds a line feed
(see `ScopusFileReadsBack`).
Before that, `main` checks that the path exists (line 92) and then that it
ends in `.xlsx` or `.xls`, in any letter case (line 97).

This project models that core in Dafny and proves what it does.

- `wrappers.dfy` defines `Option`.
- `text.dfy` (module `Text`) defines the Python string operations the
  code uses:
  - ASCII `lower()`;
  - `in` on strings;
  - `endswith`;
  - `strip()` over the 29 code points Python treats as whitespace;
  - a split at `'\n'`, used to state the layout of the files written; the
    code itself reads nothing back.
- `percent_encoding.dfy` (module `PercentEncoding`) models
  `urllib.parse.quote` with its default `safe='/'`. The text is encoded
  as UTF-8. Letters, digits, `_.-~` and `/` are kept, and every other byte
  becomes `%XX` with upper-case hex digits. The module also gives the
  inverse decoding, so that round trips can be stated.
- `extract_urls.dfy` (module `ExtractUrls`) models the rest of the core:
  - column resolution;
  - the row filter;
  - the two URL templates;
  - the file contents;
  - the extension check.

The header loop, the row loop and the write loop are methods with loop
invariants. Each is proved equal to a function of its input, and the
properties are lemmas about those functions.

A sheet is modelled as:
- its header list;
- a sequence of rows, each mapping a header to `Some(text)` or to `None`.
  `None` stands for a missing (NaN) cell.

The row loop `GenerateUrls` takes the two URL builders as parameters.
`ExtractNamesAndGenerateUrls` passes it `ScopusUrl` and `OrcidUrl`.

Two behaviours of the code are worth knowing:
- The header loop (`extract_urls.py:22-26`) has no `break` and overwrites
  its choice on every match, so the last matching header wins. See
  `ResolvedColumnsLaterWins`.
- The ORCID query (`extract_urls.py:44`) is `first + " " + last`, so a space
  inside a name cannot be told apart from the space between the names. See
  `OrcidUrlAmbiguity`.
- `strip()` (`extract_urls.py:38-39`) keeps a line feed inside a cell, the
  Scopus template (`:43`) inserts the names unescaped, and the write
  (`:52`) only appends `'\n'`. So a multi-line name cell gives a Scopus URL
  that spans two lines of the output file. See `InnerLineFeedIsKept` and
  `ScopusFileReadsBack`.

## Model

| member | source | states |
|---|---|---|
| ExtractUrls.IsFirstNameHeader | extract_urls.py:23 | definition of the first-name test; properties in `ResolvedColumnsCharacterisation` and `LastNameColumnIsNotFirstNameHeader` |
| ExtractUrls.IsLastNameHeader | extract_urls.py:25 | definition of the last-name test; properties in `LastNameColumnIsNotFirstNameHeader` |
| ExtractUrls.TakesLastNameSlot | extract_urls.py:23-25 | definition of the headers that reach the `elif` and pass it; properties in `ResolvedColumnsCharacterisation` |
| ExtractUrls.LastIndex | extract_urls.py:22-26 | the position found is the last one whose header passes the test; when none is found, no header passes it |
| ExtractUrls.LastMatch | extract_urls.py:22-26 | a header found is one of the headers and passes the test |
| ExtractUrls.ResolveColumns | extract_urls.py:19-30 | the header loop returns exactly `ResolvedColumns(headers)`: the last first-name header and the last header that reached the `elif`, or None when either is missing |
| ExtractUrls.ResolvedColumns | extract_urls.py:22-30 | a resolved column pair consists of two of the given headers |
| ExtractUrls.LastMatchSnoc | extract_urls.py:22-26 | one more header replaces the remembered column exactly when that header matches |
| ExtractUrls.ResolvedColumnsCharacterisation | extract_urls.py:22-30 | the pair is (f, l) iff f is at the last position passing the first-name test and l at the last position failing it but passing the last-name test; resolution fails iff one of the two kinds of header is absent |
| ExtractUrls.LastNameColumnIsNotFirstNameHeader | extract_urls.py:23-28 | the first-name column passes the first-name test; the last-name column passes the last-name test but not the first-name test; the two differ; neither is empty, so `not first_name_col` is just the "not found" test |
| ExtractUrls.ResolvedColumnsPlainPair | extract_urls.py:22-26 | `["ID", "Last_Name", "First_Name"]` resolves to ("First_Name", "Last_Name") |
| ExtractUrls.ResolvedColumnsLaterWins | extract_urls.py:22-24 | with two first-name headers the later one is used |
| ExtractUrls.ResolvedColumnsFirstTestFirst | extract_urls.py:23-26 | a header naming both first and last name fills only the first-name slot, so `["FirstName_LastName"]` resolves to None |
| ExtractUrls.ResolvedColumnsNoMatch | extract_urls.py:22-30 | headers passing neither test resolve to None |
| ExtractUrls.CellText | extract_urls.py:38-39 | definition: a missing cell reads as "", a present one is stripped; properties in `BlankCellIsRejected`, `InnerLineFeedIsKept` and `Text.StripSpec` |
| ExtractUrls.RowNames | extract_urls.py:38-39 | definition: the two stripped name cells of a row; properties in `ValidNamesFollowRows` |
| ExtractUrls.IsUsableName | extract_urls.py:41 | definition of the name filter (non-empty, not "nan"); properties in `BlankCellIsRejected` |
| ExtractUrls.IsValid | extract_urls.py:41 | definition: both names pass the filter; properties in `ValidNamesFollowRows` |
| ExtractUrls.ValidNames | extract_urls.py:35-41 | definition of the kept names, in row order; properties in `ValidNamesFollowRows` |
| ExtractUrls.ValidRowIndices | extract_urls.py:37-41 | definition of the kept row positions; properties in `ValidNamesFollowRows` |
| ExtractUrls.BlankCellIsRejected | extract_urls.py:38-41 | a missing cell or one made only of whitespace yields a name that the filter rejects |
| ExtractUrls.InnerLineFeedIsKept | extract_urls.py:38-41 | `strip()` only trims the ends: a name with a line feed inside passes the filter intact |
| ExtractUrls.ValidSnoc | extract_urls.py:37-41 | one more row extends the kept names and positions by that row alone, exactly when it passes the filter |
| ExtractUrls.ValidNamesFollowRows | extract_urls.py:37-41 | for the kept names and their row positions: entry k holds the stripped names of row `ix[k]`; positions strictly increase; a row is kept iff both names are non-empty and not "nan" |
| ExtractUrls.ValidStep | extract_urls.py:37-46 | one loop step appends a row's names exactly when it passes the filter |
| ExtractUrls.GenerateUrls | extract_urls.py:35-46 | the row loop returns one URL per kept row, in row order, for each of the two builders |
| ExtractUrls.RenderAll | extract_urls.py:43-46 | definition: one URL per name pair, in order; properties in `RenderAllAt` and `RenderAllSnoc` |
| ExtractUrls.RenderAllAt | extract_urls.py:43-46 | URL k is built from name pair k, and there are as many URLs as names |
| ExtractUrls.RenderAllSnoc | extract_urls.py:45-46 | appending a name pair appends its URL |
| ExtractUrls.UrlListsFollowRows | extract_urls.py:35-46 | after the loop, for any builders: both lists have one entry per kept row; entry k of each is built from the stripped cells of the k-th kept row; kept rows are in input order; a row is kept iff both names are usable |
| ExtractUrls.ExtractNamesAndGenerateUrls | extract_urls.py:18-70 | None exactly when a name column is missing; otherwise both URL lists (`ScopusUrl`, `OrcidUrl` of the kept names) and both file texts built from them |
| ExtractUrls.Fill | extract_urls.py:43 | definition of a template with the last name, first name, last name and first name between five fixed pieces; properties in `FillSlots`, `FillFixedText`, `FillEmbeds` |
| ExtractUrls.ScopusUrl | extract_urls.py:43 | definition: the Scopus template filled with the two names; properties in `ScopusUrlSlots`, `ScopusUrlFixedText`, `ScopusUrlEmbedsNames`, `ScopusUrlIsUriText`, `ScopusUrlLineFeed` |
| ExtractUrls.ScopusFixedTextIsUriText | extract_urls.py:43 | the fixed text of the Scopus template consists only of URI characters |
| ExtractUrls.UriTextConcat | extract_urls.py:43-44 | joining two URI texts gives URI text |
| ExtractUrls.FillSlots | extract_urls.py:43 | a filled template holds each fixed piece and each name at its computed offset, and has the total length |
| ExtractUrls.ScopusUrlSlots | extract_urls.py:43 | the Scopus URL holds the last name, the first name, the last name and the first name again, in that order, at fixed offsets between the fixed pieces |
| ExtractUrls.ScopusUrlFixedText | extract_urls.py:43 | two Scopus URLs whose names have the same lengths agree at every position outside the four name slots |
| ExtractUrls.FillFixedText | extract_urls.py:43 | two filled templates with names of the same lengths agree outside the name slots |
| ExtractUrls.ScopusUrlEmbedsNames | extract_urls.py:43 | the URL contains `AUTHLASTNAME%28<last>%29+AND+AUTHFIRST%28<first>%29` and `&st1=<last>&st2=<first>&orcidId=` |
| ExtractUrls.FillEmbeds | extract_urls.py:43 | adjacent template pieces around a name occur together in the filled text |
| ExtractUrls.ScopusUrlIsUriText | extract_urls.py:43 | the Scopus URL consists only of URI characters iff both names do (the names go in unescaped) |
| ExtractUrls.ScopusUrlLineFeed | extract_urls.py:43 | the Scopus URL holds a line feed iff one of the names does |
| ExtractUrls.UriTextHasNoLineFeed | extract_urls.py:43-44 | URI text never holds a line feed |
| ExtractUrls.OrcidUrl | extract_urls.py:44 | definition: the ORCID prefix followed by `quote(first + " " + last)`; properties in `OrcidUrlDecodes`, `OrcidUrlIsUriText`, `OrcidUrlInjective`, `OrcidUrlAmbiguity` |
| ExtractUrls.OrcidUrlDecodes | extract_urls.py:44 | the ORCID URL is the fixed prefix followed by a percent-encoded value that decodes to `first + " " + last` |
| ExtractUrls.OrcidUrlIsUriText | extract_urls.py:44 | the ORCID URL consists only of URI characters, whatever the names, and so never holds a line feed |
| ExtractUrls.OrcidUrlInjective | extract_urls.py:44 | two name pairs give the same ORCID URL iff they join with one space to the same text |
| ExtractUrls.OrcidUrlAmbiguity | extract_urls.py:44 | ("Mary Ann", "Smith") and ("Mary", "Ann Smith") give the same ORCID URL |
| PercentEncoding.CharBytes | extract_urls.py:44 | a character encodes to 1 to 4 UTF-8 bytes, a single byte (itself) exactly for ASCII |
| PercentEncoding.Utf8Encode | extract_urls.py:44 | definition of UTF-8 encoding; properties in `Utf8RoundTrip` |
| PercentEncoding.DecodeCharBytes | extract_urls.py:44 | decoding the UTF-8 bytes of a character gives back the character and its byte count |
| PercentEncoding.Utf8RoundTrip | extract_urls.py:44 | UTF-8 decoding inverts UTF-8 encoding |
| PercentEncoding.IsSafe | extract_urls.py:44 | definition of the bytes `quote` keeps: letters, digits, `_.-~` and the `safe='/'`; properties in `EscapeByte` |
| PercentEncoding.HexDigit | extract_urls.py:44 | definition of an upper-case hex digit of a `%XX` escape; properties in `QuoteIsPercentEncoded` |
| PercentEncoding.EscapeByte | extract_urls.py:44 | a safe byte is kept as its character; any other becomes `%` and two hex digits |
| PercentEncoding.Quote | extract_urls.py:44 | definition: each byte through `EscapeByte`; properties in `UnquoteQuote`, `QuoteIsPercentEncoded`, `QuoteIsUriText` |
| PercentEncoding.QuoteText | extract_urls.py:44 | definition of `quote(s)`: UTF-8 encoding, then `Quote`; properties in `QuoteTextRoundTrip` and `QuoteTextInjective` |
| PercentEncoding.UnquoteQuote | extract_urls.py:44 | percent-decoding inverts percent-encoding of bytes |
| PercentEncoding.QuoteTextRoundTrip | extract_urls.py:44 | unquoting `quote(s)` gives back `s` |
| PercentEncoding.QuoteTextInjective | extract_urls.py:44 | different texts quote to different texts |
| PercentEncoding.QuoteIsPercentEncoded | extract_urls.py:44 | `quote` output has only safe characters and well-formed upper-case `%XX` escapes |
| PercentEncoding.PercentEncodedCharacters | extract_urls.py:44 | in percent-encoded text every character is safe, `%` or an upper-case hex digit |
| PercentEncoding.QuoteIsUriText | extract_urls.py:44 | `quote` output consists only of URI characters |
| ExtractUrls.FileContents | extract_urls.py:50-56 | definition of the text written to a file: each URL followed by a line feed; properties in `FileContentsLines` and `FileContentsLineFeeds` |
| ExtractUrls.WriteUrls | extract_urls.py:50-56 | the write loop produces `FileContents(urls)`, each URL followed by `\n` in list order |
| ExtractUrls.FileContentsCons | extract_urls.py:51-52 | the file of `[u] + urls` is `u`, a line feed, then the file of `urls` |
| ExtractUrls.FileContentsLines | extract_urls.py:50-56 | splitting the file at line feeds gives back the URL list iff no URL holds a line feed |
| ExtractUrls.FileContentsLineFeeds | extract_urls.py:50-56 | the file has one line feed per URL plus those inside the URLs |
| ExtractUrls.SumCountsAbsent | extract_urls.py:50-56 | URLs without a line feed contribute none |
| ExtractUrls.FileReadsBackIff | extract_urls.py:50-56 | when URL k holds a line feed iff name pair k does, the file reads back as its list iff no name holds one |
| ExtractUrls.OrcidFileReadsBack | extract_urls.py:44-56 | the ORCID file always reads back as its URL list, with exactly one line feed per URL |
| ExtractUrls.ScopusUrlsLineFeed | extract_urls.py:43-46 | Scopus URL k holds a line feed iff name pair k does |
| ExtractUrls.ScopusFileReadsBack | extract_urls.py:43-56 | the Scopus file reads back as its URL list iff no kept name holds a line feed |
| ExtractUrls.ScopusUrlsWithoutLineFeed | extract_urls.py:43-46 | names without line feeds give Scopus URLs without line feeds, one per name pair |
| ExtractUrls.FileLineFeedsOnePerUrl | extract_urls.py:50-56 | a file of URLs without line feeds has exactly one line feed per URL |
| ExtractUrls.ScopusFileLineFeeds | extract_urls.py:43-56 | when no kept name holds a line feed, the Scopus file has exactly one line feed per URL |
| ExtractUrls.IsExcelFileName | extract_urls.py:97 | definition of the extension test; properties in `IsExcelFileNameCharacterisation` |
| ExtractUrls.IsExcelFileNameCharacterisation | extract_urls.py:97 | a path is accepted iff its last five characters spell `.xlsx`, or its last four `.xls`, in any letter case |
| ExtractUrls.ExcelExtensionInAnyCase | extract_urls.py:97 | `a.XLSX` and `a.Xls` are accepted |
| ExtractUrls.OtherExtensionsFail | extract_urls.py:97 | `a.csv`, `xls` and `a.xlsm` are rejected |
| Text.LowerChar | extract_urls.py:23-25 | definition of ASCII lower-casing of one character; properties in `Text.Lower` |
| Text.Lower | extract_urls.py:23-25 | the result has the same length, holds no ASCII upper-case letter, equals the input up to ASCII case, and keeps every character other than `A`-`Z` |
| Text.LowerIdempotent | extract_urls.py:23-25 | lower-casing twice is lower-casing once |
| Text.Contains | extract_urls.py:23-25 | definition of `pat in s`; properties in `Text.ContainsIff` |
| Text.ContainsIff | extract_urls.py:23-25 | `pat in s` holds iff `pat` occurs at some position of `s` |
| Text.ContainsAt | extract_urls.py:23-25 | an occurrence at a position means `pat in s` |
| Text.ContainsLength | extract_urls.py:23-28 | a text contains only patterns no longer than itself |
| Text.IsSpace | extract_urls.py:38-39 | definition of the characters `strip()` removes; properties in `Text.StripSpec` |
| Text.TrimStart | extract_urls.py:38-39 | the result is no longer than the input; properties in `Text.TrimStartSpec` |
| Text.TrimEnd | extract_urls.py:38-39 | the result is no longer than the input; properties in `Text.TrimEndSpec` |
| Text.Strip | extract_urls.py:38-39 | definition of `strip()`; properties in `Text.StripSpec`, `StripIdempotent`, `StripAllSpace`, `StripUnchanged` |
| Text.TrimStartSpec | extract_urls.py:38-39 | the leading trim removes only whitespace and leaves a suffix that does not start with whitespace |
| Text.TrimEndSpec | extract_urls.py:38-39 | the trailing trim removes only whitespace and leaves a prefix that does not end with whitespace |
| Text.StripSpec | extract_urls.py:38-39 | `strip()` returns a slice of its input with only whitespace around it, neither starting nor ending with whitespace |
| Text.StripAllSpace | extract_urls.py:38-41 | a whitespace-only cell strips to the empty string |
| Text.StripIdempotent | extract_urls.py:38-39 | stripping twice is stripping once |
| Text.StripUnchanged | extract_urls.py:38-39 | text without whitespace at its ends strips to itself |
| Text.EndsWith | extract_urls.py:97 | definition of `s.endswith(suffix)`; properties in `Text.EndsWithLower` |
| Text.EndsWithLower | extract_urls.py:97 | for a lower-case suffix, `s.lower().endswith(suffix)` iff the end of `s` spells it in any case |
| Text.EqualsIgnoringCase | extract_urls.py:97 | definition of agreement up to ASCII case; used by `Text.EndsWithLower` |
| Text.Count | extract_urls.py:50-56 | definition of the number of occurrences of a character; properties in `Text.CountAppend`, `Text.CountAbsent` |
| Text.CountAbsent | extract_urls.py:50-56 | a character absent from a text is counted zero times |
| Text.LineEnd | extract_urls.py:50-56 | the first line ends at the first line feed, or at the end of the text when it holds none |
| Text.SplitLines | extract_urls.py:50-56 | definition of reading a text back as lines; properties in `Text.SplitLinesCons`, `Text.SplitLinesHaveNoLineFeed` |
| ExtractUrls.SumCounts | extract_urls.py:50-56 | definition of the occurrences of a character over all URLs; properties in `FileContentsLineFeeds` |
| Text.CountAppend | extract_urls.py:50-56 | character counts add up over concatenation |
| Text.SplitLinesCons | extract_urls.py:50-56 | a line without a line feed, followed by one, is split off as the first line |
| Text.SplitLinesHaveNoLineFeed | extract_urls.py:50-56 | no line read back holds a line feed |

## Left out

- Reading the workbook (`pd.read_excel`) is not modelled. The model takes a
  sheet that has already been read.
- A cell is given as its text. `str()` of non-text cells (numbers, dates) is
  not modelled. `pd.notna` is modelled as `None` for a missing cell.
- Headers are text. Non-text column labels, for which `col.lower()` would
  raise, are not modelled.
- Text.Lower: lower-cases ASCII letters only, where Python's `lower()` also
  maps other Unicode letters. Under the Unicode case mapping only two
  non-ASCII characters lower to anything containing ASCII: U+0130 lowers to
  `i` followed by U+0307, and U+212A lowers to `k`. Neither can complete
  `first_name`, `firstname`, `last_name`, `lastname`, `.xls` or `.xlsx`. No
  pattern contains `k`, and the `i` from U+0130 is always followed by
  U+0307, while in the patterns `i` is followed by `r` or `s`. So the header
  tests and the extension check give the same answers.
- Opening and writing the two files is not modelled: the model gives the
  text passed to `f.write`. File-system failures are not modelled. Neither
  is the text-mode newline translation of `open(..., 'w')`, which writes each
  `'\n'` as `os.linesep` (`"\r\n"` on Windows). Writing that text as UTF-8
  is also left out.
- The line lemmas split at `'\n'` only. A reader that also breaks lines at
  `'\r'` or at the other separators of `str.splitlines()` would see more
  lines. `strip()` keeps those characters inside a name, and the Scopus URL
  then carries them.
- The `print` calls, including the five-URL previews and the counts, produce
  no result and are left out.
- The `except` branch, which turns any exception into `None`, is left out,
  because the modelled steps raise no exceptions.
- In `main`: argument parsing, `os.path.exists`, `sys.exit` and the final
  `if result:` are left out, because they are I/O and process control. Only
  the extension check on line 97 is modelled.
- ExtractUrls.ExtractNamesAndGenerateUrls: returns the two file texts along
  with the two URL lists. The source returns only the lists and writes the
  texts to files.
