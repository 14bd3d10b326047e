# kit-grade-analyzer core in Dafny

This project models the string and table handling of kit-grade-analyzer. The application charts
KIT's ECTS grade-distribution tables. The modelled core sits between the network and the charts:

- **`DataLoader`** (`src/dataloader.py`) trims a grade-table URL and derives the cohort
  identifier from it. The identifier is the text after `ECTS_Tab_`, cut at `.pdf`. Given the
  tables the PDF extractor found, the loader stores the first one without its index column. It
  then rewrites the `Note`, `Prozent` and `Kumuliert` columns from decimal comma to decimal dot.
  `get_df` raises until a table is stored.
- **The loop of `scrape_ects_chart`** (`src/scraper.py`) turns the page's (title, href) pairs into
  a map from cohort key to absolute PDF URL. It keeps only titles starting with `ECTS`, derives
  the key the way the loader does, drops legacy semester codes and prefixes the host.
- **`Guard.check_input`** (`src/guard.py`) is a literal, case-sensitive test that a URL starts
  with the trusted host.
- **`separate_input_string`** (`src/utils.py`) is `str.split` with a caller-given separator.

The loader, the scraper loop and the utility rest on Python's `str.split`; the guard is
`str.startswith`. Module `Strings` defines `str.split` once, together with `str.find`,
`str.join`, `str.count`, `str.replace` and `str.strip`, and proves their laws. Every other module
reuses it.

Layout:
- `errors.dfy` holds `Option`, `Result` and the three Python exceptions the core raises.
- `strings.dfy` holds the string primitives.
- `constants.dfy` holds the separator `$` and the assumptions about the host.
- `guard.dfy`, `utils.dfy`, `dataloader.dfy` and `scraper.dfy` model one source file each.

The trusted host (`constants.HOST`) is a parameter `host` of every member that uses it.
`src/constants.py` is not part of this model. The guard's tests imply that the host is non-empty
and is a prefix of `https://www.sle.kit.edu/dokumente`; predicate `Constants.ValidHost` states
exactly that and nothing more.

Errors follow the code. The core raises `IndexError` (no `ECTS_Tab_` in a URL or title, or no
table extracted), `KeyError` (a missing column) and `ValueError` (an empty separator, `get_df`
before a load, or a cell that does not parse), and the model uses exactly these three. The
application (gui/app.py:86-99) catches `IndexError` and `KeyError`, plus `HTTPError` from the
download, but not `ValueError`: a cell that does not parse escapes to the user uncaught.

A Python object with mutable fields becomes an immutable record:
- `Dataloader.Loader` holds the trimmed URL, the optional identifier and the optional table.
- `Dataloader.LoadData` returns the new record together with the exception raised, if any.

`load_data` stores the table before normalising it, and the model keeps that order. After a
`KeyError` or `ValueError` the partly rewritten table is therefore still stored.

## Model

| member | source | states |
|---|---|---|
| Strings.Find | src/dataloader.py:36 | `str.find`: a result exactly when the pattern occurs, and then it is the leftmost occurrence |
| Strings.FindFirst | src/dataloader.py:36 | the leftmost occurrence is the one `str.find` reports |
| Strings.SplitLength | src/dataloader.py:36 | `str.split` gives at least two parts exactly when the separator occurs, so indexing `[1]` fails exactly when it is absent |
| Strings.SplitAt | src/dataloader.py:36 | when the separator first occurs at `i`, the parts are the text before `i` followed by the split of the text after the separator |
| Strings.Split | src/utils.py:10 | `str.split` with a non-empty separator always gives at least one part |
| Strings.Join | src/utils.py:10 | `str.join` of no parts is empty; otherwise it starts with the first part, and with two or more parts the separator follows it |
| Strings.Count | src/utils.py:10 | `str.count` is zero exactly when the separator does not occur |
| Strings.CountAtFirst | src/utils.py:10 | counting from the leftmost occurrence gives one plus the count after it |
| Strings.SplitNone | src/utils.py:10 | a string without the separator splits into itself alone |
| Strings.JoinSplit | src/utils.py:10 | joining the parts of `str.split` with the separator gives back the input |
| Strings.SplitPartsFree | src/utils.py:10 | no part of `str.split` contains the separator |
| Strings.SplitCount | src/utils.py:10 | `str.split` gives one part more than the separator's non-overlapping occurrences |
| Strings.SplitJoinChar | src/utils.py:10 | splitting the join of parts free of a one-character separator gives the parts back |
| Strings.ReplaceChar | src/dataloader.py:25-27 | `str.replace(',', '.')` keeps the length, turns each `,` into `.`, keeps every other character, and leaves no `,` behind |
| Strings.ReplaceAll | src/dataloader.py:25-27 | `str.replace` leaves a string without the pattern unchanged, and replacing a pattern by itself changes nothing |
| Strings.ReplaceAt | src/dataloader.py:25-27 | `str.replace` copies the text before the leftmost occurrence, puts the replacement there and carries on after it |
| Strings.TrimStart | src/dataloader.py:13 | the leading-whitespace cut keeps a suffix of the input that is empty or starts with non-whitespace, and removes only whitespace |
| Strings.TrimEnd | src/dataloader.py:13 | the trailing-whitespace cut keeps a prefix of the input that is empty or ends with non-whitespace, and removes only whitespace |
| Strings.Strip | src/dataloader.py:13 | `str.strip()` returns a piece of the input that starts and ends with non-whitespace, and only whitespace is cut off either side |
| Strings.StripUnchanged | src/dataloader.py:13 | a URL without surrounding whitespace is stored as given |
| Strings.StripIdempotent | src/dataloader.py:13 | stripping the stored URL again changes nothing |
| Guard.CheckInput | src/guard.py:13-22 | a URL is accepted exactly when the host occurs in it at index 0, without trimming or case folding |
| Guard.AcceptedExtends | src/guard.py:22 | appending anything to an accepted URL keeps it accepted |
| Guard.HostPrefixedAccepted | src/guard.py:22 | every `host + path` is accepted |
| Guard.EmptyRejected | tests/test_guard.py:11 | the empty string is rejected |
| Guard.LeadingSpaceRejected | src/guard.py:10-11 | the URL is not trimmed, so leading whitespace makes it fail |
| Guard.GuardExamples | tests/test_guard.py:9-11 | the document folder URL is accepted; the same URL without scheme and the empty string are rejected |
| Utils.SeparateInputString | src/utils.py:10 | an empty separator raises `ValueError`; otherwise the parts join back to the input, none contains the separator, and there is one part more than the separator occurs |
| Utils.SeparateIsSplit | src/utils.py:10 | with a non-empty separator the utility is exactly `str.split` |
| Utils.SeparateWithoutSeparator | tests/test_utils.py:11-12 | `""` gives `[""]` and `"URL1"` gives `["URL1"]` |
| Utils.SplitTwoParts | tests/test_utils.py:13 | `a$b` with no `$` in either part splits into `[a, b]` |
| Utils.SplitThreeParts | tests/test_utils.py:14 | `a$b$c` splits into its three parts in order |
| Utils.SplitConsecutiveParts | tests/test_utils.py:15 | four separators in a row give three empty parts between the outer ones |
| Utils.SeparateTwoUrls | tests/test_utils.py:13 | `"URL1$URL2"` gives `["URL1", "URL2"]` |
| Utils.SeparateThreeUrls | tests/test_utils.py:14 | `"URL1$URL2$URL3"` gives the three URLs in order |
| Utils.SeparateConsecutive | tests/test_utils.py:15 | `"URL1$$$$URL2"` gives `["URL1", "", "", "", "URL2"]` |
| Utils.SeparateEmptySeparator | tests/test_utils.py:22-24 | an empty separator raises `ValueError` |
| Dataloader.StudyOf | src/dataloader.py:35-36 | deriving the identifier fails with `IndexError` exactly when the URL lacks `ECTS_Tab_` |
| Dataloader.StudyOfSpec | src/dataloader.py:36 | the identifier is the text after the first `ECTS_Tab_`, up to the first `.pdf`, the next `ECTS_Tab_` or the end, whichever comes first |
| Dataloader.LeadingIdentifierUnique | src/dataloader.py:36 | that description fixes the identifier uniquely |
| Dataloader.StudyOfClean | src/dataloader.py:36 | the identifier contains neither `.pdf` nor `ECTS_Tab_` and is a substring of the URL |
| Dataloader.StudyOfUsualShape | src/dataloader.py:36 | for a URL `a + "ECTS_Tab_" + id + ".pdf" + rest` (no `E` in `a`, no `.` or marker in `id`) the identifier is `id` |
| Dataloader.StudyOfWithoutSuffix | src/dataloader.py:36 | a URL with neither `.pdf` nor a second marker after its first `ECTS_Tab_` does not fail; the identifier is the whole remainder |
| Dataloader.FixtureStudy | tests/test_dataloader.py:23 | the test fixture URL gives `WS23_24_BA_TEST_DE` |
| Dataloader.DropFirstColumn | src/dataloader.py:21 | `iloc[:, 1:]` keeps every column but the first, in order |
| Dataloader.ToDotDecimal | src/dataloader.py:25-27 | `.str.replace(',', '.')` on a column keeps the number of cells, and each cell keeps its length and holds no comma afterwards |
| Dataloader.CommasReplaced | src/dataloader.py:25-27 | replacing `,` by `.` in a cell keeps its length and leaves no comma |
| Dataloader.ColumnIndex | src/dataloader.py:25-27 | column lookup finds a column exactly when one has that header, and then it is the leftmost one with it |
| Dataloader.ColumnIndexAt | src/dataloader.py:25-27 | looking up the header of the leftmost column with it finds that column |
| Dataloader.DotDecimalSpec | src/dataloader.py:25-27 | each rewritten cell keeps its length, has `.` where the original had `,` and every other character unchanged, and holds no `,` |
| Dataloader.NormaliseColumn | src/dataloader.py:25-27 | normalising one column succeeds exactly when it exists and all its rewritten cells parse; otherwise `KeyError` (missing) or `ValueError` (unparsable); on success only that column changes, rewritten cell by cell |
| Dataloader.Preprocess | src/dataloader.py:24-27 | normalising the named columns, whether it succeeds or stops early, keeps every header in its place |
| Dataloader.PreprocessKeepsOthers | src/dataloader.py:24-27 | normalisation keeps the headers and their order and leaves every other column untouched |
| Dataloader.PreprocessSucceeds | src/dataloader.py:24-27 | normalisation raises nothing exactly when every named column exists and parses |
| Dataloader.PreprocessResult | src/dataloader.py:24-27 | a normalisation that raises nothing gives the reference column-by-column rewrite |
| Dataloader.PreprocessFailure | src/dataloader.py:24-27 | a failing normalisation stops at the first failing name with the matching exception, the columns before it already rewritten |
| Dataloader.New | src/dataloader.py:12-17 | construction fails with `IndexError` exactly when the trimmed URL lacks the marker; otherwise it stores the trimmed URL and its identifier and no table |
| Dataloader.GetStudy | src/dataloader.py:38-42 | after construction the identifier is never `None`; it is the one derived from the stored URL, holds no `.pdf` or marker, and is a piece of that URL |
| Dataloader.GetDf | src/dataloader.py:29-33 | `ValueError` exactly while no table is stored, else the stored table |
| Dataloader.NoTableBeforeLoad | src/dataloader.py:15 | right after construction `get_df` raises `ValueError` |
| Dataloader.LoadData | src/dataloader.py:19-22 | no extracted table raises `IndexError` and changes nothing; otherwise a table with the first table's remaining headers is stored, even if normalisation then fails; the URL and identifier never change |
| Dataloader.LoadDataSpec | src/dataloader.py:19-27 | the stored table is the first table minus its leading column; columns other than the three numeric ones are as extracted; the load raises nothing exactly when the three exist and parse, and then they are rewritten to dot decimals |
| Dataloader.LoadDataFailure | src/dataloader.py:22-27 | a failed load names the first missing (`KeyError`) or unparsable (`ValueError`) numeric column and leaves the table stored, partly rewritten |
| Dataloader.LoadDataWithoutNote | src/dataloader.py:25 | a first table without `Note` makes the load raise `KeyError` |
| Dataloader.LoadedNumbersUseDots | src/dataloader.py:25-27 | after a successful load every numeric cell has its original length and holds no comma |
| Dataloader.RewrittenUsesDots | src/dataloader.py:25-27 | in the reference rewrite every rewritten cell keeps its length and holds no comma |
| Dataloader.NormaliseFourColumns | src/dataloader.py:24-27 | a table laid out as `Note`, another header, `Prozent`, `Kumuliert` whose numeric cells parse is normalised without error, the three numeric columns rewritten and the other kept |
| Dataloader.FixtureLoad | tests/test_dataloader.py:26-40 | for the fixture URL and a one-row table shaped like the fixture's, the identifier is `WS23_24_BA_TEST_DE` and the stored table drops the index column and has dots |
| Scraper.Semester | src/scraper.py:46 | `key[:5]` is a prefix of the key, five long or the whole key when shorter |
| Scraper.Excluded | src/scraper.py:12-47 | a key's semester is in the exclusion list exactly when the key starts with one of the listed codes |
| Scraper.PrefixInCodes | src/scraper.py:46-47 | among codes of one length `n`, the key's first `n` characters are a code exactly when some code starts the key |
| Scraper.ShortKeyKept | src/scraper.py:12-47 | a key shorter than five characters is never excluded |
| Scraper.ExcludedByPrefix | src/scraper.py:12-47 | a key is excluded when it starts with a listed code, and only if it starts with one |
| Scraper.Step | src/scraper.py:40-49 | one loop turn: a non-`ECTS` title or an excluded key leaves the map alone; a title without marker raises `IndexError`; otherwise the key is mapped to `host + href`, replacing an earlier value |
| Scraper.Scrape | src/scraper.py:36-51 | the scrape fails with `IndexError` exactly when some `ECTS` title lacks the marker |
| Scraper.ScrapeKeys | src/scraper.py:36-51 | the result's keys are exactly the derived keys of the retained nodes |
| Scraper.ScrapeLastWins | src/scraper.py:49 | each entry is `host + href` of the last retained node with that key |
| Scraper.LastWithExtend | src/scraper.py:49 | a later node with another key leaves the last node with a key in place |
| Scraper.ScrapeValuesTrusted | src/scraper.py:48 | every URL in the result passes the guard |
| Scraper.ScrapeNoEcts | src/scraper.py:43 | a page without `ECTS` titles yields an empty map |
| Scraper.EctsTitle | src/scraper.py:43-44 | a title built from the marker starts with `ECTS` |
| Scraper.ScrapeCurrentAndLegacy | src/scraper.py:43-49 | of two grade-table links, one current and one legacy, only the current one is kept, at `host + href` |
| Scraper.ScrapeExample | src/scraper.py:12-49 | a `WS22_…` cohort is kept and an `SS22_…` cohort is dropped |
| Scraper.WinterTwentyTwoCurrent | src/scraper.py:12-13 | `WS22_` is not among the excluded codes |

## Left out

- Fetching the page (`requests.get`), parsing it with BeautifulSoup and caching it with
  `st.cache_data` (src/scraper.py:16-33) are network I/O, a foreign parser and a cache. The
  scraper takes the parsed (title, href) pairs in document order instead.
- `tabula.read_pdf` (src/dataloader.py:20) is foreign PDF extraction. `LoadData` takes the
  extracted tables as a parameter.
- Failures of `tabula.read_pdf` itself (for example the `HTTPError` of a failed download, which
  gui/app.py catches) are not modelled; the extraction is assumed to return a list of tables.
- `.astype(float)` (src/dataloader.py:25-27) is floating-point parsing. It is the parameter
  `isFloat`, which says which rewritten cells parse. Normalised cells stay as dot-decimal text.
  Missing cells (NaN) and pandas' dtype rules are not modelled.
- Dataloader.FixtureLoad: the test's PDF is not part of this model. The lemma uses a one-row
  table shaped like its first rows, and compares text cells where the test compares floats.
- Dataloader.ColumnIndex: pandas rejects or returns several columns for a duplicated header. The
  model uses the leftmost one, and the normalisation lemmas about `_preprocess_df` assume the three
  numeric headers are distinct, which they are.
- `Guard.check_input` leaves the stored URL unchanged and answers the same on every call. Being
  a pure function of the host and the URL, `Guard.CheckInput` has that property by construction,
  with no separate lemma.
- `src/constants.py` is not part of this model. `HOST` is the parameter `host`, constrained only
  by `Constants.ValidHost` where a test needs it.
- gui/app.py (Streamlit orchestration, throttling, turning exceptions into messages),
  gui/visualizations.py (charts, floating-point statistics) and src/text.py (display strings) are
  presentation. They are not part of the core.
- Logging calls have no effect on the results.
