# StitchBot download step, modelled in Dafny

StitchBot logs in to a cross-stitch pattern site, follows the day's free
pattern and downloads its PDF files into an output directory. This project
models the part of that scraper with logic of its own: the download step in
`stitchbot.py`.

- `content_disposition.dfy` (module `ContentDisposition`): `get_filename`,
  which takes the saved file's name from the response's `Content-Disposition`
  header with the search `filename="?([^"]+)"?`, and falls back to
  `pattern.pdf`.
- `download_script.dfy` (module `DownloadScript`): the test that picks the
  page's download script (`^\s*function startDownload`, first matching
  `<script>` in document order) and the search `(http.+\.pdf)` that pulls the
  PDF address out of it.
- `scraper.dfy` (module `Scraper`): class `StitchBot` with the output path,
  the browser history and the output directory. It holds
  `download_pattern`, `download_pattern_file` and `save_pattern`, and the
  specification functions the loop is proved against.
- `wrappers.dfy` (module `Wrappers`): `Option` and `Result`.

The model follows Python 3's `re` and `str`: `\s` is every character for
which `str.isspace()` holds, not only ASCII
whitespace as in Python 2 without `re.UNICODE`.

The regular expressions are not run by an engine. For the two searches, a
ghost predicate lists every way the expression can match at a position (`Parses`,
`UrlParses`). A second predicate states the choice Python's `re.search`
makes: the leftmost position, then the greedy alternative
(`LeftmostGreedy`, `UrlLeftmostGreedy`). Lemmas prove that the computing
functions make exactly that choice, and that they return nothing exactly
when no way of matching exists. The marker test `^\s*function startDownload`
is anchored at the start, so its meaning is stated directly on `HasMarker`:
some prefix of whitespace followed by the marker.

The site is given as two functions. One gives the script texts of the page
at an address. The other gives the response (headers and bytes) to an
address. The output directory is a map from path to bytes. The browser's
history is the sequence of addresses opened. Each download button is its
`href`, or `None` when the button has none.

`download_pattern_file` downloads only through the direct link found in the
page's download script. The saved file's name comes only from the
`Content-Disposition` header or the default. `download_pattern` returns
nothing: the saved paths are visible only in the output directory.

## Model

| member | source | states |
|---|---|---|
| ContentDisposition.RunEnd | stitchbot.py:117 | `[^"]+` stops only at a quote or at the end of the value; everything it passes is not a quote |
| ContentDisposition.MatchAt | stitchbot.py:116-117 | a successful match attempt at one position captures a non-empty name with no `"` in it |
| ContentDisposition.FirstMatchFrom | stitchbot.py:116-117 | the search stops at the first position where an attempt succeeds; no earlier position succeeds; it finds nothing only when no position succeeds |
| ContentDisposition.Search | stitchbot.py:116-117 | `re.search` finds nothing exactly when no match attempt succeeds at any position; otherwise its group is that of the first position whose attempt succeeds |
| ContentDisposition.HeaderValue | stitchbot.py:117 | `headers.get('Content-Disposition', '')`: a missing header reads as the empty value, a present one as its value |
| ContentDisposition.GetFilename | stitchbot.py:115-121 | the result is the default or a non-empty name with no `"`; with no `Content-Disposition` header it is the default |
| ContentDisposition.MatchAtIsGreedyParse | stitchbot.py:116-117 | at one position, the attempt fails exactly when the expression cannot match there; otherwise it captures the greedy match, which takes the opening quote when there is one and then the longest run |
| ContentDisposition.SearchIsLeftmostGreedy | stitchbot.py:116-117 | the search returns nothing exactly when the expression matches nowhere; otherwise it returns the group of the leftmost, greedy match |
| ContentDisposition.GetFilenameMeaning | stitchbot.py:115-121 | get_filename returns the default when the header value has no match; otherwise it returns the group of the leftmost, greedy match |
| ContentDisposition.GreedyGroupIsMaximalRun | stitchbot.py:116-117 | the chosen name is the whole run of non-quote characters after `filename=` and the optional quote, ending at the next `"` or at the end of the value; the quote is taken exactly when it is there |
| ContentDisposition.FirstQuotedName | stitchbot.py:116-121 | when the first `filename=` (no f before it) is followed by a quoted, non-empty name, the result is that name without its quotes, whatever follows the closing quote |
| ContentDisposition.FirstUnquotedName | stitchbot.py:116-121 | when the first `filename=` (no f before it) is followed by an unquoted name with no `"`, the result is all of the rest of the value |
| ContentDisposition.EmptyQuotedNameSkipped | stitchbot.py:116-121 | `filename=""` does not match, since `[^"]+` needs a character; a later `filename=` (no f in between) supplies the name |
| ContentDisposition.QuotedName | stitchbot.py:116-121 | `attachment; filename="Pattern X.pdf"; size=10` gives `Pattern X.pdf` |
| ContentDisposition.UnquotedNameKeepsParameters | stitchbot.py:116-121 | `attachment; filename=x.pdf; size=10` gives `x.pdf; size=10`: an unquoted name swallows the parameters after it |
| ContentDisposition.EmptyNameSkipped | stitchbot.py:116-121 | `filename=""` does not match; the later `filename=a.pdf` gives `a.pdf` |
| ContentDisposition.ExtendedParameterIgnored | stitchbot.py:116-119 | a value holding the extended `filename*` and no `filename=` anywhere (no f before it, none spelled after it) gives the default `pattern.pdf` |
| ContentDisposition.ExtendedNameGivesDefault | stitchbot.py:116-119 | `attachment; filename*=UTF-8''a.pdf` gives the default `pattern.pdf` |
| DownloadScript.SkipSpaces | stitchbot.py:81 | `\s*` stops at the first character that is not whitespace; everything before it is whitespace |
| DownloadScript.HasMarker | stitchbot.py:80-81 | a script passes the marker test exactly when it is whitespace (newlines included) and then `function startDownload` |
| DownloadScript.FindDownloadScript | stitchbot.py:80-81 | `browser.find('script', string=…)`: a script it returns is one of the page's scripts and passes the marker test |
| DownloadScript.FindDownloadScriptIsFirst | stitchbot.py:80-83 | the result is the first script in document order whose text passes the marker test; it is None exactly when no script passes, and then the target is skipped |
| DownloadScript.LineEnd | stitchbot.py:85 | `.` runs up to the first newline or the end of the text and never across a newline |
| DownloadScript.LastExtension | stitchbot.py:85 | backtracking `.+` settles on the last `.pdf` that fits in the allowed span; no `.pdf` lies after it |
| DownloadScript.FirstUrlFrom | stitchbot.py:85-87 | the search stops at the first position where `(http.+\.pdf)` matches; it finds nothing only when no position matches |
| DownloadScript.UrlAtIsGreedyParse | stitchbot.py:85 | at one position the attempt fails exactly when the expression cannot match there; otherwise it captures up to the last possible `.pdf` |
| DownloadScript.ExtractPdfUrlIsLeftmostGreedy | stitchbot.py:85-89 | extraction fails exactly when no match exists (the target is then skipped); otherwise it returns the leftmost, greedy match |
| DownloadScript.SpanShape | stitchbot.py:85 | the text from an `http` to a `.pdf` at least one character later on the same line starts with `http`, ends with `.pdf` and contains no newline |
| DownloadScript.UrlAt | stitchbot.py:85 | what a successful attempt at one position captures is the script's text from that position; it starts with `http`, ends with `.pdf`, has at least one character between them and contains no newline |
| DownloadScript.ExtractPdfUrl | stitchbot.py:85-89 | `re.search(r'(http.+\.pdf)', …).group(1)`: None exactly when no attempt succeeds at any position; otherwise the capture of the first position whose attempt succeeds, shaped `http`, at least one character, `.pdf`, with no newline |
| DownloadScript.ExtractedUrlReachesLastExtension | stitchbot.py:85-89 | an extracted address runs from the leftmost viable `http` to the last `.pdf` on that line |
| DownloadScript.MarkerAfterWhitespace | stitchbot.py:80-81 | any run of whitespace followed by `function startDownload` passes the marker test, whatever comes after |
| DownloadScript.IndentedMarker | stitchbot.py:80-81 | a script starting with a newline and blanks before `function startDownload` passes |
| DownloadScript.MarkerNotAtStart | stitchbot.py:80-83 | a script with a statement before `function startDownload` fails the test |
| DownloadScript.NothingBetweenSchemeAndExtension | stitchbot.py:85-87 | `http.pdf` yields no address, since `.+` needs at least one character |
| DownloadScript.AddressInStatement | stitchbot.py:85-89 | `var u = 'http://x.org/a.pdf';` yields `http://x.org/a.pdf` |
| Scraper.Join | stitchbot.py:107 | the path ends with the file name; an absolute name replaces the directory; otherwise the path is the directory, then a `/` only when the directory is non-empty and does not already end in one, then the name (prefix, separator and exact length together fix the string) |
| Scraper.SavePath | stitchbot.py:106-107 | the save path ends with the name get_filename gives; unless that name is absolute, its text is the output path, then a `/` only when the output path is non-empty and does not already end in one, then the name; without the header it ends with `pattern.pdf` |
| Scraper.PdfUrlFor | stitchbot.py:79-89 | an address found on a target page has the shape of a PDF address: `http`, at least one character, `.pdf`, no newline |
| Scraper.PdfUrlForMeaning | stitchbot.py:79-89 | a page without a download script yields no address; otherwise the address is the one extracted from the first download script on the page |
| Scraper.SaveFor | stitchbot.py:85-92 | a target makes a write exactly when an address is found on its page; the write holds the bytes fetched from that address, at the path save_pattern computes for that response |
| Scraper.VisitsFor | stitchbot.py:79-90 | a target first opens its own page, and opens a second address, the PDF address found there, exactly when one is found |
| Scraper.Hrefs | stitchbot.py:66-68 | all hrefs in button order when every button has one; otherwise the first button without one, which raises before any page is opened |
| Scraper.StitchBot.constructor | stitchbot.py:19-21 | a new bot has the given output path, an empty history and the given directory |
| Scraper.StitchBot.SavePattern | stitchbot.py:98-109 | writes the response bytes at the output path joined with get_filename(headers), replacing what was there; all other paths are unchanged |
| Scraper.StitchBot.DownloadPatternFile | stitchbot.py:74-92 | opens the target page; with no download script or no address, it stops with the directory unchanged; otherwise it opens the PDF and makes exactly the save SaveFor describes |
| Scraper.StitchBot.DownloadPattern | stitchbot.py:63-72 | a button without an href fails with nothing opened or written; otherwise the targets are visited in document order, each once, and the directory is the old one after the writes `Saves` lists, in order |
| Scraper.SavesComeFromTargets | stitchbot.py:66-70 | there are at most as many writes as buttons; skipped targets write nothing; every write comes from one of the targets |
| Scraper.VisitsCount | stitchbot.py:69-90 | the history grows by one entry per target page plus one per downloaded PDF |
| Scraper.WrittenKeys | stitchbot.py:106-109 | after the writes, the directory holds exactly the old paths plus the written ones |
| Scraper.WrittenLastWins | stitchbot.py:106-109 | the last write to a path decides its contents; a path no write touches keeps its old contents |
| Scraper.SaveIsIdempotent | stitchbot.py:108-109 | writing the same response twice leaves the directory as writing it once |

## Left out

- `log_in`, `navigate_to_free_pattern` and `scrape` (stitchbot.py:32-61): they only open pages, fill and submit forms and follow links through RoboBrowser. The download step starts from whatever page they leave the browser on: the buttons and page scripts are inputs.
- HTML parsing and element search (BeautifulSoup): finding the download buttons is an input sequence. A script's `.string` is an input text, or `None` when the script has no single text child.
- HTTP: every fetch is one fixed function from address to response. Network errors, status codes, redirects and time-outs are not modelled. Relative `href`s are not resolved: the program hands an `href` to RoboBrowser's `open` unchanged and `requests` rejects an address without a scheme, which raises and stops the loop, while the model fetches such an address like any other.
- The file system: the output directory is a map from path to bytes. `os.makedirs` is a no-op, and its swallowed `OSError` changes nothing here. A failing `open` or `write` is not modelled.
- Paths are compared as strings and never normalised. A name from the header with `..` or an inner `/` can land outside the output directory or in a sub-directory of it, and two spellings of one file (`x.pdf`, `./x.pdf`) are two entries of the map. So `WrittenKeys` and `WrittenLastWins` hold per path string, not per file on disk.
- Header lookup: `requests` looks headers up without regard to case. Here headers are a map keyed by the exact name `Content-Disposition`.
- `os.path.join` is modelled by its POSIX behaviour only.
- The browser history keeps only the addresses opened, not the pages.
- Logging (stitchbot.py:11-30) and `main` with its argument and environment-variable handling (stitchbot.py:23-24, 124-132): configuration only.
- get_google_token.py (an interactive OAuth exchange) and landing_page.py (a constant HTML page): pure I/O with no logic of their own.
